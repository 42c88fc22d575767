/** The low-level PDB / CodeView view: one node per LF_* type record or S_* symbol. */
module PdbNode {
  import opened Widths

  /** The raw `parent` back-pointer is not represented. */
  datatype PdbNode = PdbNode(
    leafKind: u16,
    payload: seq<u8>,
    children: seq<PdbNode>,
    typeIndexOrSymOffset: u32,
    prettyName: string,
    uniqueName: string)

  /** A value-initialised node: every member at its default. */
  const EMPTY_PDB_NODE: PdbNode := PdbNode(0, [], [], 0, "", "")
}
