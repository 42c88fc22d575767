/** Round trips through the IR as the unit tests drive them (native node -> reader -> IR ->
    translator -> native node), and what the oracle says about their results. */
module RoundTrip {
  import opened Wrappers
  import opened IRNode
  import opened IRMaps
  import opened IRTypeTable
  import opened DwarfNode
  import opened PdbNode
  import opened Compare
  import DwarfReader
  import PdbReader
  import PdbToDwarf
  import DwarfToPdb

  /** A DWARF tree survives the trip to IR and back through `PdbToDwarf.Translate` exactly when
      it is a bare compile unit: tag 0x11, no attributes, no children (its DIE offset aside). */
  lemma DwarfRoundTripIff(original: DwarfNode, scope: Option<IRScope>, typeTable: IRTypeTable, maps: IRMaps)
    ensures EqualDwarfNode(Some(original), PdbToDwarf.Translate(scope, typeTable, maps))
        <==> original.tag == TAG_COMPILE_UNIT && original.attrsStr == [] && original.attrsU64 == []
             && original.children == []
  {
    var rebuilt := PdbToDwarf.Translate(scope, typeTable, maps);
    EqualDwarfNodeIgnoresOnlyDieOffsets(Some(original), rebuilt);
    if original.children != [] {
      assert |DieOffsetsCleared(original).children| != 0;
    }
  }

  /** A PDB tree survives the trip to IR and back through `DwarfToPdb.Translate` exactly when it
      is a childless record of leaf kind 0x1234 named "PdbRootFromDwarf" with an empty unique
      name (payload and type index aside). */
  lemma PdbRoundTripIff(original: PdbNode, scope: Option<IRScope>, typeTable: IRTypeTable, maps: IRMaps)
    ensures EqualPdbNode(Some(original), DwarfToPdb.Translate(scope, typeTable, maps))
        <==> original.leafKind == DwarfToPdb.ROOT_LEAF_KIND && original.prettyName == "PdbRootFromDwarf"
             && original.uniqueName == "" && original.children == []
  {
    var rebuilt := DwarfToPdb.Translate(scope, typeTable, maps);
    EqualPdbNodeIgnoresOnlyPayload(Some(original), rebuilt);
    if original.children != [] {
      assert |PayloadCleared(original).children| != 0;
    }
  }

  /** Translation does not look at the scope, table or maps: any two DWARF translations are
      oracle-equal. */
  lemma TranslateToDwarfIgnoresInput(s1: Option<IRScope>, t1: IRTypeTable, m1: IRMaps,
                                     s2: Option<IRScope>, t2: IRTypeTable, m2: IRMaps)
    ensures EqualDwarfNode(PdbToDwarf.Translate(s1, t1, m1), PdbToDwarf.Translate(s2, t2, m2))
  {
    EqualDwarfNodeIsEquivalence(PdbToDwarf.Translate(s1, t1, m1), PdbToDwarf.Translate(s2, t2, m2), None);
  }

  /** Translation does not look at the scope, table or maps: any two PDB translations are
      oracle-equal. */
  lemma TranslateToPdbIgnoresInput(s1: Option<IRScope>, t1: IRTypeTable, m1: IRMaps,
                                   s2: Option<IRScope>, t2: IRTypeTable, m2: IRMaps)
    ensures EqualPdbNode(DwarfToPdb.Translate(s1, t1, m1), DwarfToPdb.Translate(s2, t2, m2))
  {
    EqualPdbNodeIsEquivalence(DwarfToPdb.Translate(s1, t1, m1), DwarfToPdb.Translate(s2, t2, m2), None);
  }

  /** The node the raw DWARF parse yields round-trips: it differs from the translation only in
      its DIE offset (0x1000 against 0x2000), which the oracle ignores. */
  lemma RawDwarfRoundTrips(path: string, scope: Option<IRScope>, typeTable: IRTypeTable, maps: IRMaps)
    ensures EqualDwarfNode(Some(DwarfReader.ParseRawDwarf(path)), PdbToDwarf.Translate(scope, typeTable, maps))
    ensures DwarfReader.ParseRawDwarf(path).originalDieOffset != PdbToDwarf.Translate(scope, typeTable, maps).value.originalDieOffset
  {
    DwarfRoundTripIff(DwarfReader.ParseRawDwarf(path), scope, typeTable, maps);
  }

  /** The node the raw PDB parse yields does not round-trip: its leaf kind is 0, the
      translation's is 0x1234. */
  lemma RawPdbDoesNotRoundTrip(path: string, scope: Option<IRScope>, typeTable: IRTypeTable, maps: IRMaps)
    ensures !EqualPdbNode(Some(PdbReader.ParseRawPdb(path)), DwarfToPdb.Translate(scope, typeTable, maps))
  {
    PdbRoundTripIff(PdbReader.ParseRawPdb(path), scope, typeTable, maps);
  }

  /** The DWARF unit test: a compile unit with one name attribute, read on a fresh table and
      maps, declares one self-referential type named after the attribute, and the translation
      is a compile unit; the name attribute does not come back, so the trees are not oracle-equal. */
  method DwarfRoundTripBasic() returns (original: DwarfNode, irRoot: IRScope, ty: IRType, rebuilt: Option<DwarfNode>)
    ensures |irRoot.declaredTypes| == 1 && irRoot.declaredTypes[0] == ty.id == 1
    ensures |original.attrsStr| == 1 && ty.name == original.attrsStr[0].1 && ty.kind == StructOrUnion && IsSelfCycle(ty)
    ensures rebuilt.Some? && rebuilt.value.tag == original.tag == TAG_COMPILE_UNIT
    ensures !EqualDwarfNode(Some(original), rebuilt)
  {
    original := EMPTY_DWARF_NODE.(tag := TAG_COMPILE_UNIT, originalDieOffset := 0x9999,
                                  attrsStr := [(0x03, "DummyFromDwarf")]);
    var typeTable := new IRTypeTable();
    var maps := new IRMaps();
    irRoot := DwarfReader.ReadFromModel(original, typeTable, maps);
    ty := typeTable.Lookup(irRoot.declaredTypes[0]).value;
    rebuilt := PdbToDwarf.Translate(Some(irRoot), typeTable, maps);
    DwarfRoundTripIff(original, Some(irRoot), typeTable, maps);
  }

  /** The PDB unit test: a named record read on a fresh table and maps declares one
      self-referential union named after it, and the translation is a record of the same leaf
      kind; its pretty name is "PdbRootFromDwarf", so the trees are not oracle-equal. */
  method PdbRoundTripBasic() returns (original: PdbNode, irRoot: IRScope, ty: IRType, rebuilt: Option<PdbNode>)
    ensures |irRoot.declaredTypes| == 1 && irRoot.declaredTypes[0] == ty.id == 1
    ensures ty.name == original.prettyName && ty.isUnion && IsSelfCycle(ty)
    ensures rebuilt.Some? && rebuilt.value.leafKind == original.leafKind
    ensures rebuilt.value.prettyName == "PdbRootFromDwarf"
    ensures !EqualPdbNode(Some(original), rebuilt)
  {
    original := EMPTY_PDB_NODE.(leafKind := 0x1234, prettyName := "PdbRootPretty",
                               uniqueName := "??_C@Something", typeIndexOrSymOffset := 0x1000);
    var typeTable := new IRTypeTable();
    var maps := new IRMaps();
    irRoot := PdbReader.ReadFromModel(original, typeTable, maps);
    ty := typeTable.Lookup(irRoot.declaredTypes[0]).value;
    rebuilt := DwarfToPdb.Translate(Some(irRoot), typeTable, maps);
    PdbRoundTripIff(original, Some(irRoot), typeTable, maps);
  }

  /** A compile unit with one name attribute "Widget", read on a fresh session, yields exactly
      one type "Widget" whose single field "self" has the type itself, one map entry in each
      direction, and maps that are inverse to each other. Translating that IR to PDB yields a
      root record without children: no type record is emitted. */
  method WidgetScenario() returns (irRoot: IRScope, types: map<IRTypeID, IRType>, maps: IRMaps, pdb: Option<PdbNode>)
    ensures types.Keys == {1} && irRoot.declaredTypes == [1]
    ensures types[1].name == "Widget" && types[1].kind == StructOrUnion
    ensures IsSelfCycle(types[1]) && types[1].fields[0].name == "self"
    ensures |maps.dwarfDieToIR| == 1 && |maps.irToDwarfDie| == 1 && maps.DwarfPaired()
    ensures pdb.Some? && pdb.value.children == []
  {
    var model := EMPTY_DWARF_NODE.(tag := TAG_COMPILE_UNIT, attrsStr := [(0x03, "Widget")]);
    var typeTable := new IRTypeTable();
    maps := new IRMaps();
    irRoot := DwarfReader.ReadFromModel(model, typeTable, maps);
    types := typeTable.types;
    pdb := DwarfToPdb.Translate(Some(irRoot), typeTable, maps);
    assert maps.dwarfDieToIR == map[0 := 1];
    assert maps.irToDwarfDie == map[1 := 0];
  }

  /** Reading twice on the same maps with the same DIE offset: the readers overwrite with
      `operator[]`, so the offset points only at the second id while both ids point at the
      offset, and the DWARF maps are no longer inverse to each other. */
  method DwarfReadTwiceSameOffset(model: DwarfNode) returns (first: IRScope, second: IRScope, maps: IRMaps)
    ensures first.declaredTypes == [1] && second.declaredTypes == [2]
    ensures maps.dwarfDieToIR == map[model.originalDieOffset := 2]
    ensures maps.irToDwarfDie == map[1 := model.originalDieOffset, 2 := model.originalDieOffset]
    ensures !maps.DwarfPaired()
  {
    var typeTable := new IRTypeTable();
    maps := new IRMaps();
    first := DwarfReader.ReadFromModel(model, typeTable, maps);
    assert maps.DwarfPaired();
    ghost var fwd, back := maps.dwarfDieToIR, maps.irToDwarfDie;
    second := DwarfReader.ReadFromModel(model, typeTable, maps);
    RecordOverwriteBreaksPaired(fwd, back, model.originalDieOffset, 2);
  }
}
