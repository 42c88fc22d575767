/** Translating IR to a DWARF tree. Type emission is not implemented, so the result is a
    fixed compile-unit node whatever the scope, and the table and maps are left alone. */
module PdbToDwarf {
  import opened Widths
  import opened Wrappers
  import opened IRNode
  import opened IRMaps
  import opened IRTypeTable
  import opened DwarfNode

  /** The DIE offset given to the translated compile unit. */
  const ROOT_DIE_OFFSET: u64 := 0x2000

  /** Emitting the table's types as DWARF, not implemented: the compile-unit node comes back
      unchanged and, having no `reads`, the function cannot depend on the table or maps. */
  function EmitTypesAsDwarf(typeTable: IRTypeTable, maps: IRMaps, dwarfCU: DwarfNode): (r: DwarfNode)
    ensures r == dwarfCU
  {
    dwarfCU
  }

  /** A non-null compile-unit node at DIE offset 0x2000 with no attributes and no children. */
  function Translate(rootScope: Option<IRScope>, typeTable: IRTypeTable, maps: IRMaps): (r: Option<DwarfNode>)
    ensures r.Some? && r.value.tag == TAG_COMPILE_UNIT && r.value.originalDieOffset == ROOT_DIE_OFFSET
    ensures r.value.attrsStr == [] && r.value.attrsU64 == [] && r.value.children == []
  {
    var cuNode := EMPTY_DWARF_NODE.(tag := TAG_COMPILE_UNIT, originalDieOffset := ROOT_DIE_OFFSET);
    Some(EmitTypesAsDwarf(typeTable, maps, cuNode))
  }
}
