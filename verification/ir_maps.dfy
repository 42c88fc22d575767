/** The identifier correspondence maps between native ids and IR type ids. */
module IRMaps {
  import opened Widths
  import opened IRNode

  /** `fwd` and `back` are inverse to each other: every entry has its partner in the other direction. */
  ghost predicate Paired<K, V>(fwd: map<K, V>, back: map<V, K>)
  {
    && (forall k | k in fwd :: fwd[k] in back && back[fwd[k]] == k)
    && (forall v | v in back :: back[v] in fwd && fwd[back[v]] == v)
  }

  /** Recording a pair of fresh keys in both directions keeps the maps inverse to each other. */
  lemma RecordFreshPairKeepsPaired<K, V>(fwd: map<K, V>, back: map<V, K>, k: K, v: V)
    requires Paired(fwd, back) && k !in fwd && v !in back
    ensures Paired(fwd[k := v], back[v := k])
  {
  }

  /** Recording `k -> v` when `k` was already paired with another id leaves that id pointing at `k`
      in the reverse map while `k` no longer points back at it: the maps stop being inverse. */
  lemma RecordOverwriteBreaksPaired<K, V>(fwd: map<K, V>, back: map<V, K>, k: K, v: V)
    requires Paired(fwd, back) && k in fwd && fwd[k] != v
    ensures !Paired(fwd[k := v], back[v := k])
  {
    var old_v := fwd[k];
    assert back[v := k][old_v] == k;
    assert fwd[k := v][k] == v;
  }

  class IRMaps {
    /** DWARF side: DIE offset to IR id and back. */
    var dwarfDieToIR: map<u64, IRTypeID>
    var irToDwarfDie: map<IRTypeID, u64>
    /** PDB side: CodeView type index to IR id and back. */
    var pdbTIToIR: map<u32, IRTypeID>
    var irToPdbTI: map<IRTypeID, u32>

    constructor ()
      ensures dwarfDieToIR == map[] && irToDwarfDie == map[]
      ensures pdbTIToIR == map[] && irToPdbTI == map[]
    {
      dwarfDieToIR, irToDwarfDie := map[], map[];
      pdbTIToIR, irToPdbTI := map[], map[];
    }

    ghost predicate DwarfPaired()
      reads this
    {
      Paired(dwarfDieToIR, irToDwarfDie)
    }

    ghost predicate PdbPaired()
      reads this
    {
      Paired(pdbTIToIR, irToPdbTI)
    }

    /** Every IR id recorded on either side is a key of `types`. */
    ghost predicate RefersInto(types: map<IRTypeID, IRType>)
      reads this
    {
      && dwarfDieToIR.Values <= types.Keys && irToDwarfDie.Keys <= types.Keys
      && pdbTIToIR.Values <= types.Keys && irToPdbTI.Keys <= types.Keys
    }
  }
}
