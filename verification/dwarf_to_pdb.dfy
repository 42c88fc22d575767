/** Translating IR to a PDB tree. Type emission is not implemented, so the result is a fixed
    root record whatever the scope, and the table and maps are left alone. */
module DwarfToPdb {
  import opened Widths
  import opened Wrappers
  import opened IRNode
  import opened IRMaps
  import opened IRTypeTable
  import opened PdbNode

  /** The leaf kind given to the translated root record. */
  const ROOT_LEAF_KIND: u16 := 0x1234

  /** Emitting the table's types as PDB records, not implemented: the root comes back
      unchanged and, having no `reads`, the function cannot depend on the table or maps. */
  function EmitTypesAsPdb(typeTable: IRTypeTable, maps: IRMaps, pdbRoot: PdbNode): (r: PdbNode)
    ensures r == pdbRoot
  {
    pdbRoot
  }

  /** A non-null root record of leaf kind 0x1234 named "PdbRootFromDwarf", with every other
      member at its default. */
  function Translate(rootScope: Option<IRScope>, typeTable: IRTypeTable, maps: IRMaps): (r: Option<PdbNode>)
    ensures r.Some? && r.value.leafKind == ROOT_LEAF_KIND && r.value.prettyName == "PdbRootFromDwarf"
    ensures r.value.uniqueName == "" && r.value.payload == [] && r.value.typeIndexOrSymOffset == 0
    ensures r.value.children == []
  {
    var pdbRoot := EMPTY_PDB_NODE.(leafKind := ROOT_LEAF_KIND, prettyName := "PdbRootFromDwarf");
    Some(EmitTypesAsPdb(typeTable, maps, pdbRoot))
  }
}
