/** The IR type table: the owner of every IR type of one session and the allocator of their ids. */
module IRTypeTable {
  import opened Widths
  import opened Wrappers
  import opened IRNode

  const MAX_ID: IRTypeID := 0xFFFF_FFFF

  /** The value of `nextID` after `nextID++` on a 32-bit unsigned counter. */
  function Succ(id: IRTypeID): (r: IRTypeID)
    ensures r == (id + 1) % U32_LIMIT
  {
    if id == MAX_ID then 0 else id + 1
  }

  /** The ids that `n` successive `CreateType` calls return when the counter starts at `start`. */
  function IdsHandedOut(start: IRTypeID, n: nat): (ids: seq<IRTypeID>)
    ensures |ids| == n
    decreases n
  {
    if n == 0 then [] else [start] + IdsHandedOut(Succ(start), n - 1)
  }

  /** The `i`-th id handed out is `start + i` taken modulo 2^32. */
  lemma {:induction false} IdsHandedOutAt(start: IRTypeID, n: nat, i: nat)
    requires i < n
    ensures IdsHandedOut(start, n)[i] == (start + i) % U32_LIMIT
    decreases n
  {
    if i > 0 {
      IdsHandedOutAt(Succ(start), n - 1, i - 1);
      assert IdsHandedOut(start, n)[i] == IdsHandedOut(Succ(start), n - 1)[i - 1];
      if start == MAX_ID {
        assert (start + i) % U32_LIMIT == (i - 1) % U32_LIMIT by {
          assert start + i == (i - 1) + U32_LIMIT;
        }
      }
    }
  }

  /** Before the counter wraps, ids are consecutive from `start`: strictly increasing, never
      reused, and never 0 when the counter starts at 1 or above. */
  lemma IdsHandedOutNoWrap(start: IRTypeID, n: nat)
    requires start + n <= U32_LIMIT
    ensures forall i | 0 <= i < n :: IdsHandedOut(start, n)[i] == start + i
    ensures forall i, j | 0 <= i < j < n :: IdsHandedOut(start, n)[i] < IdsHandedOut(start, n)[j]
    ensures 1 <= start ==> NO_TYPE !in IdsHandedOut(start, n)
  {
    forall i | 0 <= i < n ensures IdsHandedOut(start, n)[i] == start + i {
      IdsHandedOutAt(start, n, i);
    }
  }

  /** Once more ids are requested than remain below 2^32, the "no type" id 0 is handed out. */
  lemma IdsHandedOutWrapsToNoType(start: IRTypeID, n: nat)
    requires start + n > U32_LIMIT
    ensures IdsHandedOut(start, n)[U32_LIMIT - start] == NO_TYPE
  {
    IdsHandedOutAt(start, n, U32_LIMIT - start);
  }

  /** Appending one more call: the id it returns is `start + n` taken modulo 2^32. */
  lemma IdsHandedOutSnoc(start: IRTypeID, n: nat)
    ensures IdsHandedOut(start, n + 1) == IdsHandedOut(start, n) + [(start + n) % U32_LIMIT]
  {
    var longer, shorter := IdsHandedOut(start, n + 1), IdsHandedOut(start, n);
    forall i | 0 <= i < n + 1 ensures longer[i] == (shorter + [(start + n) % U32_LIMIT])[i] {
      IdsHandedOutAt(start, n + 1, i);
      if i < n {
        IdsHandedOutAt(start, n, i);
      }
    }
  }

  /** `n` successive `CreateType(k)` calls on one table, as a caller makes them: the ids they
      return are `IdsHandedOut` from the counter's starting value, and each is stored with a
      blank type of kind `k`. */
  method CreateTypes(typeTable: IRTypeTable, k: IRTypeKind, n: nat) returns (ids: seq<IRTypeID>)
    modifies typeTable
    ensures ids == IdsHandedOut(old(typeTable.nextID), n)
    ensures typeTable.nextID == (old(typeTable.nextID) + n) % U32_LIMIT
    ensures forall id | id in ids :: typeTable.Lookup(id) == Some(BlankType(id, k))
    ensures old(typeTable.IdsMatchKeys()) ==> typeTable.IdsMatchKeys()
  {
    ghost var start := typeTable.nextID;
    ids := [];
    var i := 0;
    while i < n
      invariant 0 <= i <= n
      invariant ids == IdsHandedOut(start, i)
      invariant typeTable.nextID == (start + i) % U32_LIMIT
      invariant forall id | id in ids :: typeTable.Lookup(id) == Some(BlankType(id, k))
      invariant old(typeTable.IdsMatchKeys()) ==> typeTable.IdsMatchKeys()
    {
      var id := typeTable.CreateType(k);
      IdsHandedOutSnoc(start, i);
      ids := ids + [id];
      assert typeTable.nextID == (start + i + 1) % U32_LIMIT by {
        if (start + i) % U32_LIMIT == MAX_ID {
          assert (start + i + 1) % U32_LIMIT == 0;
        }
      }
      i := i + 1;
    }
  }

  /** No deduplication: two calls with the same kind on a table whose counter has not wrapped
      return distinct, increasing ids, both kept in the table. */
  method CreateTwice(typeTable: IRTypeTable, k: IRTypeKind) returns (first: IRTypeID, second: IRTypeID)
    requires typeTable.BelowNext() && typeTable.nextID < MAX_ID
    modifies typeTable
    ensures first != second && first < second && first != NO_TYPE
    ensures typeTable.Lookup(first) == Some(BlankType(first, k))
    ensures typeTable.Lookup(second) == Some(BlankType(second, k))
  {
    first := typeTable.CreateType(k);
    second := typeTable.CreateType(k);
  }

  class IRTypeTable {
    var nextID: IRTypeID
    var types: map<IRTypeID, IRType>

    /** Every stored type carries its own key as its `id`. */
    ghost predicate IdsMatchKeys()
      reads this
    {
      forall k | k in types :: types[k].id == k
    }

    /** The counter has not wrapped: it is not 0 and every key lies in [1, nextID), so
        `nextID` is not a key and id 0 is not stored. */
    ghost predicate BelowNext()
      reads this
    {
      nextID != NO_TYPE && forall k | k in types :: 1 <= k < nextID
    }

    constructor ()
      ensures nextID == 1 && types == map[]
      ensures IdsMatchKeys() && BelowNext()
    {
      nextID := 1;
      types := map[];
    }

    /** Allocates the current `nextID` for a blank type of kind `k` and advances the counter.
        Without wrap-around the new key is fresh, so no stored type changes; after a wrap the
        store at the returned id is overwritten. */
    method CreateType(k: IRTypeKind) returns (id: IRTypeID)
      modifies this
      ensures id == old(nextID) && nextID == Succ(old(nextID))
      ensures types == old(types)[id := BlankType(id, k)]
      ensures Lookup(id) == Some(BlankType(id, k))
      ensures old(BelowNext()) ==> id !in old(types) && id != NO_TYPE
      ensures old(BelowNext()) && old(nextID) != MAX_ID ==> BelowNext()
      ensures old(IdsMatchKeys()) ==> IdsMatchKeys()
    {
      id := nextID;
      nextID := Succ(nextID);
      var t := BlankType(id, k);
      types := types[id := t];
    }

    /** The type stored under `id`, or `None` (the source's null) when there is none. */
    function Lookup(id: IRTypeID): (r: Option<IRType>)
      reads this
      ensures r.Some? <==> id in types
      ensures r.Some? ==> r.value == types[id]
    {
      if id in types then Some(types[id]) else None
    }

    /** Writes `t` back under `id`: what a caller does through the pointer `createType` returned. */
    method Update(id: IRTypeID, t: IRType)
      requires id in types
      modifies this
      ensures nextID == old(nextID) && types == old(types)[id := t]
      ensures old(BelowNext()) ==> BelowNext()
      ensures old(IdsMatchKeys()) && t.id == id ==> IdsMatchKeys()
    {
      types := types[id := t];
    }
  }
}
