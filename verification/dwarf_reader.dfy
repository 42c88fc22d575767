/** Building IR from DWARF: a compile-unit scope with one self-referential struct, recorded in
    the DWARF correspondence maps. Both entry points are fixed constructions today. */
module DwarfReader {
  import opened Widths
  import opened Wrappers
  import opened IRNode
  import opened IRMaps
  import opened IRTypeTable
  import opened DwarfNode

  /** The DIE offset `ReadObject` records for its type. */
  const OBJECT_DIE_OFFSET: u64 := 0x1234

  /** The type name `ReadFromModel` takes from a model: the value of its first string
      attribute, whatever that attribute's code, or a fixed placeholder. */
  function ModelTypeName(model: DwarfNode): (name: string)
  {
    if |model.attrsStr| != 0 then model.attrsStr[0].1 else "AnonFromDwarfNode"
  }

  /** Reads an object file at `path`. The file is not opened: the result is a compile unit
      named `path` declaring a self-referential struct "DummyFromDwarf" (field "fieldA") and a
      variable "var_from_dwarf" of that type, with DIE offset 0x1234 recorded for it. */
  method ReadObject(path: string, typeTable: IRTypeTable, maps: IRMaps) returns (root: IRScope)
    modifies typeTable, maps
    ensures var id := old(typeTable.nextID);
      && root == CompileUnitDeclaring(path, id, "var_from_dwarf")
      && typeTable.nextID == Succ(id)
      && typeTable.types == old(typeTable.types)[id := SelfAggregate(id, "DummyFromDwarf", false, 16, "fieldA")]
      && maps.dwarfDieToIR == old(maps.dwarfDieToIR)[OBJECT_DIE_OFFSET := id]
      && maps.irToDwarfDie == old(maps.irToDwarfDie)[id := OBJECT_DIE_OFFSET]
    ensures maps.pdbTIToIR == old(maps.pdbTIToIR) && maps.irToPdbTI == old(maps.irToPdbTI)
    ensures old(typeTable.BelowNext()) && old(typeTable.nextID) != MAX_ID ==> typeTable.BelowNext()
    ensures old(typeTable.IdsMatchKeys()) ==> typeTable.IdsMatchKeys()
    ensures old(maps.RefersInto(typeTable.types)) ==> maps.RefersInto(typeTable.types)
    ensures (old(maps.DwarfPaired()) && OBJECT_DIE_OFFSET !in old(maps.dwarfDieToIR)
             && old(typeTable.nextID) !in old(maps.irToDwarfDie)) ==> maps.DwarfPaired()
  {
    root := IRScope(CompileUnit, path, [], [], []);

    var id := typeTable.CreateType(StructOrUnion);
    var t := typeTable.Lookup(id).value;
    t := t.(name := "DummyFromDwarf", isUnion := false, sizeBytes := 16);
    t := t.(fields := t.fields + [IRField("fieldA", t.id, 0, 0, 0, false)]);
    assert t == SelfAggregate(id, "DummyFromDwarf", false, 16, "fieldA");
    typeTable.Update(id, t);

    root := root.(declaredTypes := root.declaredTypes + [t.id]);
    var varSym := IRSymbol("var_from_dwarf", Variable, t.id);
    root := root.(declaredSymbols := root.declaredSymbols + [varSym]);

    ghost var fwd, back := maps.dwarfDieToIR, maps.irToDwarfDie;
    maps.dwarfDieToIR := maps.dwarfDieToIR[OBJECT_DIE_OFFSET := t.id];
    maps.irToDwarfDie := maps.irToDwarfDie[t.id := OBJECT_DIE_OFFSET];
    if Paired(fwd, back) && OBJECT_DIE_OFFSET !in fwd && id !in back {
      RecordFreshPairKeepsPaired(fwd, back, OBJECT_DIE_OFFSET, id);
    }
  }

  /** Builds IR from an in-memory DWARF node: a compile unit "fromModel" declaring a
      self-referential struct of size 16 named by `ModelTypeName(model)` (field "self") and a
      variable "symFromDwarf" of that type; the node's `originalDieOffset` is recorded for the
      new id in both directions. */
  method ReadFromModel(model: DwarfNode, typeTable: IRTypeTable, maps: IRMaps) returns (root: IRScope)
    modifies typeTable, maps
    ensures var id := old(typeTable.nextID);
      && root == CompileUnitDeclaring("fromModel", id, "symFromDwarf")
      && typeTable.nextID == Succ(id)
      && typeTable.types == old(typeTable.types)[id := SelfAggregate(id, ModelTypeName(model), false, 16, "self")]
      && maps.dwarfDieToIR == old(maps.dwarfDieToIR)[model.originalDieOffset := id]
      && maps.irToDwarfDie == old(maps.irToDwarfDie)[id := model.originalDieOffset]
    ensures maps.pdbTIToIR == old(maps.pdbTIToIR) && maps.irToPdbTI == old(maps.irToPdbTI)
    ensures old(typeTable.BelowNext()) && old(typeTable.nextID) != MAX_ID ==> typeTable.BelowNext()
    ensures old(typeTable.IdsMatchKeys()) ==> typeTable.IdsMatchKeys()
    ensures old(maps.RefersInto(typeTable.types)) ==> maps.RefersInto(typeTable.types)
    ensures (old(maps.DwarfPaired()) && model.originalDieOffset !in old(maps.dwarfDieToIR)
             && old(typeTable.nextID) !in old(maps.irToDwarfDie)) ==> maps.DwarfPaired()
  {
    root := IRScope(CompileUnit, "fromModel", [], [], []);

    var id := typeTable.CreateType(StructOrUnion);
    var t := typeTable.Lookup(id).value;
    t := t.(isUnion := false, sizeBytes := 16);
    if |model.attrsStr| != 0 {
      t := t.(name := model.attrsStr[0].1);
    } else {
      t := t.(name := "AnonFromDwarfNode");
    }

    var f := IRField("self", t.id, 0, 0, 0, false);
    t := t.(fields := t.fields + [f]);
    assert t == SelfAggregate(id, ModelTypeName(model), false, 16, "self");
    typeTable.Update(id, t);

    root := root.(declaredTypes := root.declaredTypes + [t.id]);
    var s := IRSymbol("symFromDwarf", Variable, t.id);
    root := root.(declaredSymbols := root.declaredSymbols + [s]);

    ghost var fwd, back := maps.dwarfDieToIR, maps.irToDwarfDie;
    maps.dwarfDieToIR := maps.dwarfDieToIR[model.originalDieOffset := t.id];
    maps.irToDwarfDie := maps.irToDwarfDie[t.id := model.originalDieOffset];
    if Paired(fwd, back) && model.originalDieOffset !in fwd && id !in back {
      RecordFreshPairKeepsPaired(fwd, back, model.originalDieOffset, id);
    }
  }

  /** The raw parse of an object file, not implemented: a compile-unit node at DIE offset
      0x1000 with no attributes and no children, whatever `path` is. */
  function ParseRawDwarf(path: string): (cu: DwarfNode)
    ensures cu.tag == TAG_COMPILE_UNIT && cu.originalDieOffset == 0x1000
    ensures cu.attrsStr == [] && cu.attrsU64 == [] && cu.children == []
  {
    EMPTY_DWARF_NODE.(tag := TAG_COMPILE_UNIT, originalDieOffset := 0x1000)
  }

  /** Importing a compile unit's children, not implemented: the IR scope is returned as it was
      given and neither the table nor the maps are touched (no `modifies`). */
  method ImportCompileUnit(cuNode: Option<DwarfNode>, irCU: IRScope, typeTable: IRTypeTable, maps: IRMaps)
    returns (irCU': IRScope)
    ensures irCU' == irCU
  {
    irCU' := irCU;
  }
}
