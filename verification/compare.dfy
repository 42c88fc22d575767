/** The structural equality oracle: deep comparisons that define "round-trip equal".
    Each `Equal*` is characterised by a lemma against a reference definition that says
    which members it ignores; reflexivity, symmetry and transitivity follow from that. */
module Compare {
  import opened Wrappers
  import opened IRNode
  import opened DwarfNode
  import opened PdbNode

  /** Equal lengths and `cmp` holding at every index, scanned front to back. */
  function CompareVec<T>(a: seq<T>, b: seq<T>, cmp: (T, T) -> bool): (r: bool)
    ensures r <==> |a| == |b| && forall i | 0 <= i < |a| :: cmp(a[i], b[i])
  {
    if |a| != |b| then false
    else if |a| == 0 then true
    else if !cmp(a[0], b[0]) then false
    else
      var rest := CompareVec(a[1..], b[1..], cmp);
      assert forall i | 1 <= i < |a| :: a[i] == a[1..][i - 1] && b[i] == b[1..][i - 1];
      rest
  }

  // ---------------------------------------------------------------- IR types

  predicate SameDim(x: IRArrayDim, y: IRArrayDim)
  {
    x.lowerBound == y.lowerBound && x.count == y.count
  }

  predicate SameField(x: IRField, y: IRField)
  {
    && x.name == y.name
    && x.ty == y.ty
    && x.byteOffset == y.byteOffset
    && x.bitOffset == y.bitOffset
    && x.bitSize == y.bitSize
    && x.isAnonymousArm == y.isAnonymousArm
  }

  predicate EqualIRType(a: Option<IRType>, b: Option<IRType>)
  {
    if a.None? || b.None? then a == b
    else
      var x, y := a.value, b.value;
      && x.kind == y.kind
      && x.name == y.name
      && x.isForwardDecl == y.isForwardDecl
      && x.isUnion == y.isUnion
      && x.sizeBytes == y.sizeBytes
      && x.pointeeType == y.pointeeType
      && x.ptrSizeBytes == y.ptrSizeBytes
      && x.elementType == y.elementType
      && x.indexType == y.indexType
      && CompareVec(x.dims, y.dims, SameDim)
      && CompareVec(x.fields, y.fields, SameField)
  }

  /** A type with its own id blanked: everything `EqualIRType` looks at. */
  function IdCleared(t: IRType): (r: IRType)
  {
    t.(id := NO_TYPE)
  }

  /** `EqualIRType` holds exactly when both are null, or both are types that agree on
      everything but their own `id` (referenced ids included). */
  lemma EqualIRTypeIgnoresOnlyId(a: Option<IRType>, b: Option<IRType>)
    ensures EqualIRType(a, b) <==> a.Map(IdCleared) == b.Map(IdCleared)
  {
    if a.Some? && b.Some? {
      var x, y := a.value, b.value;
      if CompareVec(x.dims, y.dims, SameDim) {
        assert x.dims == y.dims;
      }
      if CompareVec(x.fields, y.fields, SameField) {
        assert x.fields == y.fields;
      }
    }
  }

  lemma EqualIRTypeIsEquivalence(a: Option<IRType>, b: Option<IRType>, c: Option<IRType>)
    ensures EqualIRType(a, a)
    ensures EqualIRType(a, b) ==> EqualIRType(b, a)
    ensures EqualIRType(a, b) && EqualIRType(b, c) ==> EqualIRType(a, c)
  {
    EqualIRTypeIgnoresOnlyId(a, a);
    EqualIRTypeIgnoresOnlyId(a, b);
    EqualIRTypeIgnoresOnlyId(b, a);
    EqualIRTypeIgnoresOnlyId(b, c);
    EqualIRTypeIgnoresOnlyId(a, c);
  }

  // ---------------------------------------------------------------- IR scopes

  predicate EqualIRSymbol(a: IRSymbol, b: IRSymbol)
  {
    a.name == b.name && a.kind == b.kind && a.ty == b.ty
  }

  /** Scope comparison below the null check: kind, name, the declared id list, the symbols
      and, recursively and in order, the children. */
  predicate SameScope(a: IRScope, b: IRScope)
    decreases a
  {
    && a.kind == b.kind
    && a.name == b.name
    && |a.declaredTypes| == |b.declaredTypes|
    && (forall i | 0 <= i < |a.declaredTypes| :: a.declaredTypes[i] == b.declaredTypes[i])
    && CompareVec(a.declaredSymbols, b.declaredSymbols, EqualIRSymbol)
    && |a.children| == |b.children|
    && (forall i | 0 <= i < |a.children| :: SameScope(a.children[i], b.children[i]))
  }

  predicate EqualIRScope(a: Option<IRScope>, b: Option<IRScope>)
  {
    if a.None? || b.None? then a == b else SameScope(a.value, b.value)
  }

  /** Every member of a modelled scope is compared, so the oracle is value equality. */
  lemma {:induction false} SameScopeIsValueEquality(a: IRScope, b: IRScope)
    ensures SameScope(a, b) <==> a == b
    decreases a
  {
    if |a.children| == |b.children| {
      forall i | 0 <= i < |a.children|
        ensures SameScope(a.children[i], b.children[i]) <==> a.children[i] == b.children[i]
      {
        SameScopeIsValueEquality(a.children[i], b.children[i]);
      }
    }
    if SameScope(a, b) {
      assert a.declaredTypes == b.declaredTypes;
      assert a.declaredSymbols == b.declaredSymbols;
      assert a.children == b.children;
    }
  }

  /** `EqualIRScope` holds exactly when both are null or both are the same scope value. */
  lemma EqualIRScopeIsValueEquality(a: Option<IRScope>, b: Option<IRScope>)
    ensures EqualIRScope(a, b) <==> a == b
  {
    if a.Some? && b.Some? {
      SameScopeIsValueEquality(a.value, b.value);
    }
  }

  lemma EqualIRScopeIsEquivalence(a: Option<IRScope>, b: Option<IRScope>, c: Option<IRScope>)
    ensures EqualIRScope(a, a)
    ensures EqualIRScope(a, b) ==> EqualIRScope(b, a)
    ensures EqualIRScope(a, b) && EqualIRScope(b, c) ==> EqualIRScope(a, c)
  {
    EqualIRScopeIsValueEquality(a, a);
    EqualIRScopeIsValueEquality(a, b);
    EqualIRScopeIsValueEquality(b, a);
    EqualIRScopeIsValueEquality(b, c);
    EqualIRScopeIsValueEquality(a, c);
  }

  // ---------------------------------------------------------------- DWARF nodes

  /** DWARF comparison below the null check: tag, both attribute lists pairwise in order,
      and the children recursively in order. */
  predicate SameDwarfNode(a: DwarfNode, b: DwarfNode)
    decreases a
  {
    && a.tag == b.tag
    && |a.attrsStr| == |b.attrsStr|
    && |a.attrsU64| == |b.attrsU64|
    && (forall i | 0 <= i < |a.attrsStr| ::
          a.attrsStr[i].0 == b.attrsStr[i].0 && a.attrsStr[i].1 == b.attrsStr[i].1)
    && (forall i | 0 <= i < |a.attrsU64| ::
          a.attrsU64[i].0 == b.attrsU64[i].0 && a.attrsU64[i].1 == b.attrsU64[i].1)
    && |a.children| == |b.children|
    && (forall i | 0 <= i < |a.children| :: SameDwarfNode(a.children[i], b.children[i]))
  }

  predicate EqualDwarfNode(a: Option<DwarfNode>, b: Option<DwarfNode>)
  {
    if a.None? || b.None? then a == b else SameDwarfNode(a.value, b.value)
  }

  /** A DWARF tree with every `originalDieOffset` set to 0. */
  function DieOffsetsCleared(n: DwarfNode): (r: DwarfNode)
    ensures |r.children| == |n.children|
    decreases n
  {
    DwarfNode(n.tag, n.attrsStr, n.attrsU64,
              seq(|n.children|, i requires 0 <= i < |n.children| => DieOffsetsCleared(n.children[i])),
              0)
  }

  /** The oracle compares everything in a DWARF tree except the DIE offsets. */
  lemma {:induction false} SameDwarfNodeIgnoresOnlyDieOffsets(a: DwarfNode, b: DwarfNode)
    ensures SameDwarfNode(a, b) <==> DieOffsetsCleared(a) == DieOffsetsCleared(b)
    decreases a
  {
    var ca, cb := DieOffsetsCleared(a), DieOffsetsCleared(b);
    if |a.children| == |b.children| {
      forall i | 0 <= i < |a.children|
        ensures SameDwarfNode(a.children[i], b.children[i]) <==> ca.children[i] == cb.children[i]
      {
        SameDwarfNodeIgnoresOnlyDieOffsets(a.children[i], b.children[i]);
      }
    }
    if SameDwarfNode(a, b) {
      assert a.attrsStr == b.attrsStr;
      assert a.attrsU64 == b.attrsU64;
      assert ca.children == cb.children;
    }
    if ca == cb {
      assert |a.children| == |b.children|;
      forall i | 0 <= i < |a.children| ensures SameDwarfNode(a.children[i], b.children[i]) {
        assert ca.children[i] == cb.children[i];
      }
    }
  }

  /** `EqualDwarfNode` holds exactly when both are null, or both are trees that agree once
      their DIE offsets are cleared. */
  lemma EqualDwarfNodeIgnoresOnlyDieOffsets(a: Option<DwarfNode>, b: Option<DwarfNode>)
    ensures EqualDwarfNode(a, b) <==> a.Map(DieOffsetsCleared) == b.Map(DieOffsetsCleared)
  {
    if a.Some? && b.Some? {
      SameDwarfNodeIgnoresOnlyDieOffsets(a.value, b.value);
    }
  }

  lemma EqualDwarfNodeIsEquivalence(a: Option<DwarfNode>, b: Option<DwarfNode>, c: Option<DwarfNode>)
    ensures EqualDwarfNode(a, a)
    ensures EqualDwarfNode(a, b) ==> EqualDwarfNode(b, a)
    ensures EqualDwarfNode(a, b) && EqualDwarfNode(b, c) ==> EqualDwarfNode(a, c)
  {
    EqualDwarfNodeIgnoresOnlyDieOffsets(a, a);
    EqualDwarfNodeIgnoresOnlyDieOffsets(a, b);
    EqualDwarfNodeIgnoresOnlyDieOffsets(b, a);
    EqualDwarfNodeIgnoresOnlyDieOffsets(b, c);
    EqualDwarfNodeIgnoresOnlyDieOffsets(a, c);
  }

  // ---------------------------------------------------------------- PDB nodes

  /** PDB comparison below the null check: leaf kind, both names and the children
      recursively in order. */
  predicate SamePdbNode(a: PdbNode, b: PdbNode)
    decreases a
  {
    && a.leafKind == b.leafKind
    && a.prettyName == b.prettyName
    && a.uniqueName == b.uniqueName
    && |a.children| == |b.children|
    && (forall i | 0 <= i < |a.children| :: SamePdbNode(a.children[i], b.children[i]))
  }

  predicate EqualPdbNode(a: Option<PdbNode>, b: Option<PdbNode>)
  {
    if a.None? || b.None? then a == b else SamePdbNode(a.value, b.value)
  }

  /** A PDB tree with every `payload` emptied and every `typeIndexOrSymOffset` set to 0. */
  function PayloadCleared(n: PdbNode): (r: PdbNode)
    ensures |r.children| == |n.children|
    decreases n
  {
    PdbNode(n.leafKind, [],
            seq(|n.children|, i requires 0 <= i < |n.children| => PayloadCleared(n.children[i])),
            0, n.prettyName, n.uniqueName)
  }

  /** The oracle compares everything in a PDB tree except payloads and type indices. */
  lemma {:induction false} SamePdbNodeIgnoresOnlyPayload(a: PdbNode, b: PdbNode)
    ensures SamePdbNode(a, b) <==> PayloadCleared(a) == PayloadCleared(b)
    decreases a
  {
    var ca, cb := PayloadCleared(a), PayloadCleared(b);
    if |a.children| == |b.children| {
      forall i | 0 <= i < |a.children|
        ensures SamePdbNode(a.children[i], b.children[i]) <==> ca.children[i] == cb.children[i]
      {
        SamePdbNodeIgnoresOnlyPayload(a.children[i], b.children[i]);
      }
    }
    if SamePdbNode(a, b) {
      assert ca.children == cb.children;
    }
    if ca == cb {
      assert |a.children| == |b.children|;
      forall i | 0 <= i < |a.children| ensures SamePdbNode(a.children[i], b.children[i]) {
        assert ca.children[i] == cb.children[i];
      }
    }
  }

  /** `EqualPdbNode` holds exactly when both are null, or both are trees that agree once
      payloads and type indices are cleared. */
  lemma EqualPdbNodeIgnoresOnlyPayload(a: Option<PdbNode>, b: Option<PdbNode>)
    ensures EqualPdbNode(a, b) <==> a.Map(PayloadCleared) == b.Map(PayloadCleared)
  {
    if a.Some? && b.Some? {
      SamePdbNodeIgnoresOnlyPayload(a.value, b.value);
    }
  }

  lemma EqualPdbNodeIsEquivalence(a: Option<PdbNode>, b: Option<PdbNode>, c: Option<PdbNode>)
    ensures EqualPdbNode(a, a)
    ensures EqualPdbNode(a, b) ==> EqualPdbNode(b, a)
    ensures EqualPdbNode(a, b) && EqualPdbNode(b, c) ==> EqualPdbNode(a, c)
  {
    EqualPdbNodeIgnoresOnlyPayload(a, a);
    EqualPdbNodeIgnoresOnlyPayload(a, b);
    EqualPdbNodeIgnoresOnlyPayload(b, a);
    EqualPdbNodeIgnoresOnlyPayload(b, c);
    EqualPdbNodeIgnoresOnlyPayload(a, c);
  }
}
