/** The low-level DWARF view: one node per DIE. */
module DwarfNode {
  import opened Widths

  /** `tag` is a DW_TAG_* code; attributes are (DW_AT_* code, value) pairs in stored order.
      The raw `parent` back-pointer is not represented. */
  datatype DwarfNode = DwarfNode(
    tag: u16,
    attrsStr: seq<(u16, string)>,
    attrsU64: seq<(u16, u64)>,
    children: seq<DwarfNode>,
    originalDieOffset: u64)

  /** A value-initialised node: tag 0, no attributes, no children, offset 0. */
  const EMPTY_DWARF_NODE: DwarfNode := DwarfNode(0, [], [], [], 0)

  /** DW_TAG_compile_unit. */
  const TAG_COMPILE_UNIT: u16 := 0x11
}
