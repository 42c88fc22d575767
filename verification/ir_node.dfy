/** The intermediate representation: types, fields, array dimensions, symbols and scopes. */
module IRNode {
  import opened Widths

  /** Ids handed out by the type table; 0 means "no type". */
  type IRTypeID = u32

  const NO_TYPE: IRTypeID := 0

  datatype IRTypeKind = StructOrUnion | Array | Pointer | Unknown

  datatype IRField = IRField(
    name: string,
    ty: IRTypeID,
    byteOffset: u64,
    bitOffset: u16,
    bitSize: u16,
    isAnonymousArm: bool)

  datatype IRArrayDim = IRArrayDim(lowerBound: i64, count: u64)

  datatype IRType = IRType(
    id: IRTypeID,
    kind: IRTypeKind,
    name: string,
    isForwardDecl: bool,
    isUnion: bool,
    sizeBytes: u64,
    fields: seq<IRField>,
    dims: seq<IRArrayDim>,
    elementType: IRTypeID,
    indexType: IRTypeID,
    pointeeType: IRTypeID,
    ptrSizeBytes: u32)

  datatype IRSymbolKind = Variable | Function | Parameter

  datatype IRSymbol = IRSymbol(name: string, kind: IRSymbolKind, ty: IRTypeID)

  datatype IRScopeKind = CompileUnit | Namespace | Function | Block | FileStatic

  /** A scope owns its children; the raw `parent` back-pointer is not represented. */
  datatype IRScope = IRScope(
    kind: IRScopeKind,
    name: string,
    children: seq<IRScope>,
    declaredTypes: seq<IRTypeID>,
    declaredSymbols: seq<IRSymbol>)

  /** A value-initialised `IRType` (every member at its default) with `id` and `kind` set. */
  function BlankType(id: IRTypeID, kind: IRTypeKind): (t: IRType)
  {
    IRType(id, kind, "", false, false, 0, [], [], NO_TYPE, NO_TYPE, NO_TYPE, 0)
  }

  /** A field at offset 0 with every bit member at its default. */
  function FieldAtZero(name: string, ty: IRTypeID): (f: IRField)
  {
    IRField(name, ty, 0, 0, 0, false)
  }

  /** The single field of `t` refers back to `t` itself: a direct self-cycle. */
  predicate IsSelfCycle(t: IRType)
  {
    |t.fields| == 1 && t.fields[0].ty == t.id
  }

  /** The aggregate every reader builds: a struct or union whose one field has its own type. */
  function SelfAggregate(id: IRTypeID, name: string, isUnion: bool, sizeBytes: u64, fieldName: string): (t: IRType)
    ensures t.id == id && t.kind == StructOrUnion && t.name == name
    ensures IsSelfCycle(t) && t.fields[0].name == fieldName && t.fields[0].byteOffset == 0
  {
    BlankType(id, StructOrUnion).(name := name, isUnion := isUnion, sizeBytes := sizeBytes, fields := [FieldAtZero(fieldName, id)])
  }

  /** The root every reader returns: a compile unit without children that declares
      one type and one variable of that type. */
  function CompileUnitDeclaring(name: string, id: IRTypeID, symbolName: string): (s: IRScope)
  {
    IRScope(CompileUnit, name, [], [id], [IRSymbol(symbolName, Variable, id)])
  }
}
