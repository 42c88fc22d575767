/** Building IR from PDB: a compile-unit scope with one self-referential union, recorded in
    the PDB correspondence maps. Both entry points are fixed constructions today. */
module PdbReader {
  import opened Widths
  import opened IRNode
  import opened IRMaps
  import opened IRTypeTable
  import opened PdbNode

  /** The CodeView type index `ReadPdb` records for its type. */
  const PDB_TYPE_INDEX: u32 := 0x1000

  /** The type name `ReadFromModel` takes from a model: its pretty name, or a fixed
      placeholder when that is empty. */
  function ModelTypeName(model: PdbNode): (name: string)
  {
    if model.prettyName == "" then "AnonFromPdbNode" else model.prettyName
  }

  /** Reads a PDB at `path`. The file is not opened: the result is a compile unit named `path`
      declaring a self-referential union "DummyFromPdb" (field "alt0") and a variable
      "var_from_pdb" of that type, with type index 0x1000 recorded for it. */
  method ReadPdb(path: string, typeTable: IRTypeTable, maps: IRMaps) returns (root: IRScope)
    modifies typeTable, maps
    ensures var id := old(typeTable.nextID);
      && root == CompileUnitDeclaring(path, id, "var_from_pdb")
      && typeTable.nextID == Succ(id)
      && typeTable.types == old(typeTable.types)[id := SelfAggregate(id, "DummyFromPdb", true, 8, "alt0")]
      && maps.pdbTIToIR == old(maps.pdbTIToIR)[PDB_TYPE_INDEX := id]
      && maps.irToPdbTI == old(maps.irToPdbTI)[id := PDB_TYPE_INDEX]
    ensures maps.dwarfDieToIR == old(maps.dwarfDieToIR) && maps.irToDwarfDie == old(maps.irToDwarfDie)
    ensures old(typeTable.BelowNext()) && old(typeTable.nextID) != MAX_ID ==> typeTable.BelowNext()
    ensures old(typeTable.IdsMatchKeys()) ==> typeTable.IdsMatchKeys()
    ensures old(maps.RefersInto(typeTable.types)) ==> maps.RefersInto(typeTable.types)
    ensures (old(maps.PdbPaired()) && PDB_TYPE_INDEX !in old(maps.pdbTIToIR)
             && old(typeTable.nextID) !in old(maps.irToPdbTI)) ==> maps.PdbPaired()
  {
    root := IRScope(CompileUnit, path, [], [], []);

    var id := typeTable.CreateType(StructOrUnion);
    var t := typeTable.Lookup(id).value;
    t := t.(name := "DummyFromPdb", isUnion := true, sizeBytes := 8);

    var f := IRField("alt0", t.id, 0, 0, 0, false);
    t := t.(fields := t.fields + [f]);
    assert t == SelfAggregate(id, "DummyFromPdb", true, 8, "alt0");
    typeTable.Update(id, t);

    root := root.(declaredTypes := root.declaredTypes + [t.id]);
    var sym := IRSymbol("var_from_pdb", Variable, t.id);
    root := root.(declaredSymbols := root.declaredSymbols + [sym]);

    ghost var fwd, back := maps.pdbTIToIR, maps.irToPdbTI;
    maps.pdbTIToIR := maps.pdbTIToIR[PDB_TYPE_INDEX := t.id];
    maps.irToPdbTI := maps.irToPdbTI[t.id := PDB_TYPE_INDEX];
    if Paired(fwd, back) && PDB_TYPE_INDEX !in fwd && id !in back {
      RecordFreshPairKeepsPaired(fwd, back, PDB_TYPE_INDEX, id);
    }
  }

  /** Builds IR from an in-memory PDB node: a compile unit "fromPdbModel" declaring a
      self-referential union of size 8 named by `ModelTypeName(model)` (field "alt0") and a
      variable "symFromPdb" of that type; the node's `typeIndexOrSymOffset` is recorded for the
      new id in both directions. */
  method ReadFromModel(model: PdbNode, typeTable: IRTypeTable, maps: IRMaps) returns (root: IRScope)
    modifies typeTable, maps
    ensures var id := old(typeTable.nextID);
      && root == CompileUnitDeclaring("fromPdbModel", id, "symFromPdb")
      && typeTable.nextID == Succ(id)
      && typeTable.types == old(typeTable.types)[id := SelfAggregate(id, ModelTypeName(model), true, 8, "alt0")]
      && maps.pdbTIToIR == old(maps.pdbTIToIR)[model.typeIndexOrSymOffset := id]
      && maps.irToPdbTI == old(maps.irToPdbTI)[id := model.typeIndexOrSymOffset]
    ensures maps.dwarfDieToIR == old(maps.dwarfDieToIR) && maps.irToDwarfDie == old(maps.irToDwarfDie)
    ensures old(typeTable.BelowNext()) && old(typeTable.nextID) != MAX_ID ==> typeTable.BelowNext()
    ensures old(typeTable.IdsMatchKeys()) ==> typeTable.IdsMatchKeys()
    ensures old(maps.RefersInto(typeTable.types)) ==> maps.RefersInto(typeTable.types)
    ensures (old(maps.PdbPaired()) && model.typeIndexOrSymOffset !in old(maps.pdbTIToIR)
             && old(typeTable.nextID) !in old(maps.irToPdbTI)) ==> maps.PdbPaired()
  {
    root := IRScope(CompileUnit, "fromPdbModel", [], [], []);

    var id := typeTable.CreateType(StructOrUnion);
    var t := typeTable.Lookup(id).value;
    t := t.(isUnion := true, sizeBytes := 8);
    t := t.(name := if model.prettyName == "" then "AnonFromPdbNode" else model.prettyName);

    var f := IRField("alt0", t.id, 0, 0, 0, false);
    t := t.(fields := t.fields + [f]);
    assert t == SelfAggregate(id, ModelTypeName(model), true, 8, "alt0");
    typeTable.Update(id, t);

    root := root.(declaredTypes := root.declaredTypes + [t.id]);
    var s := IRSymbol("symFromPdb", Variable, t.id);
    root := root.(declaredSymbols := root.declaredSymbols + [s]);

    ghost var fwd, back := maps.pdbTIToIR, maps.irToPdbTI;
    maps.pdbTIToIR := maps.pdbTIToIR[model.typeIndexOrSymOffset := t.id];
    maps.irToPdbTI := maps.irToPdbTI[t.id := model.typeIndexOrSymOffset];
    if Paired(fwd, back) && model.typeIndexOrSymOffset !in fwd && id !in back {
      RecordFreshPairKeepsPaired(fwd, back, model.typeIndexOrSymOffset, id);
    }
  }

  /** The raw parse of a PDB, not implemented: a value-initialised node whatever `path` is. */
  function ParseRawPdb(path: string): (n: PdbNode)
    ensures n.leafKind == 0 && n.prettyName == "" && n.uniqueName == ""
    ensures n.payload == [] && n.children == [] && n.typeIndexOrSymOffset == 0
  {
    EMPTY_PDB_NODE
  }
}
