/** The eviction loop at the start of Cache.Add, as a function of the list and
    the byte counter it reads and changes.

    The loop calls RemoveOldest while `curSize + len(value) > maxSize`. Each
    call drops the back entry and subtracts the length of its value; on an
    empty list it does nothing, so the loop then spins forever. Re-adding a
    key raises curSize without releasing the old value's bytes, so curSize may
    exceed the bytes the list holds; that excess survives every eviction. */
module Eviction {

  import opened Recency

  /** The list and byte counter that the eviction loop works on. */
  datatype LruState = LruState(lru: seq<Entry>, curSize: int)

  /** The bytes that curSize counts beyond the values in the list: the part
      of the counter that no eviction can release. */
  function Excess(st: LruState): int {
    st.curSize - SumSizes(st.lru)
  }

  /** The guard of the eviction loop: adding need bytes would pass maxSize. */
  predicate OverBudget(st: LruState, need: nat, maxSize: int) {
    st.curSize + need > maxSize
  }

  /** One RemoveOldest: drop the back entry and the bytes of its value, or
      nothing at all on an empty list. */
  function RemoveOldestStep(st: LruState): LruState {
    if st.lru == [] then st
    else LruState(st.lru[..|st.lru| - 1], st.curSize - |st.lru[|st.lru| - 1].value|)
  }

  /** The state after n passes through the body of the eviction loop. */
  function Iterate(st: LruState, n: nat): LruState
    decreases n
  {
    if n == 0 then st else Iterate(RemoveOldestStep(st), n - 1)
  }

  /** The state in which the eviction loop stops, when it stops: a front
      part of the list, with the counter lowered by exactly the bytes of the
      evicted values, leaving room for need bytes. */
  function Evict(st: LruState, need: nat, maxSize: int): (r: LruState)
    requires Excess(st) + need <= maxSize
    ensures |r.lru| <= |st.lru| && r.lru == st.lru[..|r.lru|]
    ensures Excess(r) == Excess(st)
    ensures !OverBudget(r, need, maxSize)
    decreases |st.lru|
  {
    if !OverBudget(st, need, maxSize) then st
    else
      var next := RemoveOldestStep(st);
      assert next.lru[..|Evict(next, need, maxSize).lru|] == st.lru[..|Evict(next, need, maxSize).lru|];
      Evict(next, need, maxSize)
  }

  /** Evict removes no more than needed: keeping any longer front part of
      the list would leave the counter over budget. */
  lemma {:induction false} EvictStopsEarliest(st: LruState, need: nat, maxSize: int, n: nat)
    requires Excess(st) + need <= maxSize
    requires |Evict(st, need, maxSize).lru| < n <= |st.lru|
    ensures Excess(st) + SumSizes(st.lru[..n]) + need > maxSize
    decreases |st.lru|
  {
    assert st.lru[..|st.lru|] == st.lru;
    if n < |st.lru| {
      var next := RemoveOldestStep(st);
      EvictStopsEarliest(next, need, maxSize, n);
      assert next.lru[..n] == st.lru[..n];
    }
  }

  /** Every pass through the loop body keeps the excess: RemoveOldest
      subtracts exactly the bytes it drops from the list. */
  lemma {:induction false} IterateKeepsExcess(st: LruState, n: nat)
    ensures Excess(Iterate(st, n)) == Excess(st)
    decreases n
  {
    if n > 0 {
      IterateKeepsExcess(RemoveOldestStep(st), n - 1);
    }
  }

  /** After n passes (at most the list's length) the loop has evicted the n
      oldest entries and released their bytes. */
  lemma {:induction false} IterateRemovesOldest(st: LruState, n: nat)
    requires n <= |st.lru|
    ensures Iterate(st, n) ==
      LruState(st.lru[..|st.lru| - n], Excess(st) + SumSizes(st.lru[..|st.lru| - n]))
    decreases n
  {
    if n == 0 {
      assert st.lru[..|st.lru|] == st.lru;
    } else {
      var next := RemoveOldestStep(st);
      IterateRemovesOldest(next, n - 1);
      assert next.lru[..|next.lru| - (n - 1)] == st.lru[..|st.lru| - n];
    }
  }

  /** Evict is what the loop computes: after as many passes as Evict drops
      entries the loop reaches Evict's state, and before that its guard is
      true at every pass, so it has not stopped earlier. */
  lemma EvictIsLoop(st: LruState, need: nat, maxSize: int)
    requires Excess(st) + need <= maxSize
    ensures var k := |st.lru| - |Evict(st, need, maxSize).lru|;
      && Iterate(st, k) == Evict(st, need, maxSize)
      && forall m :: 0 <= m < k ==> OverBudget(Iterate(st, m), need, maxSize)
  {
    var r := Evict(st, need, maxSize);
    var k := |st.lru| - |r.lru|;
    IterateRemovesOldest(st, k);
    forall m | 0 <= m < k ensures OverBudget(Iterate(st, m), need, maxSize) {
      IterateRemovesOldest(st, m);
      EvictStopsEarliest(st, need, maxSize, |st.lru| - m);
    }
  }

  /** When the excess alone leaves no room for need bytes, the guard stays
      true after any number of passes: the loop never ends. On an empty list
      (a value larger than maxSize, say) every pass leaves the state as it
      was. */
  lemma {:induction false} EvictionNeverStops(st: LruState, need: nat, maxSize: int, n: nat)
    requires Excess(st) + need > maxSize
    ensures OverBudget(Iterate(st, n), need, maxSize)
    ensures st.lru == [] ==> Iterate(st, n) == st
    decreases n
  {
    IterateKeepsExcess(st, n);
    if st.lru == [] && n > 0 {
      EvictionNeverStops(st, need, maxSize, n - 1);
    }
  }

  /** The eviction loop stops after some number of passes exactly when the
      excess leaves room for need bytes. */
  lemma EvictionStopsIff(st: LruState, need: nat, maxSize: int)
    ensures (exists n: nat :: !OverBudget(Iterate(st, n), need, maxSize))
        <==> Excess(st) + need <= maxSize
  {
    if Excess(st) + need <= maxSize {
      EvictIsLoop(st, need, maxSize);
      var k := |st.lru| - |Evict(st, need, maxSize).lru|;
      assert !OverBudget(Iterate(st, k), need, maxSize);
    } else {
      forall n: nat ensures OverBudget(Iterate(st, n), need, maxSize) {
        EvictionNeverStops(st, need, maxSize, n);
      }
    }
  }

  /** Removing the oldest entry until the list is empty (the wipe loop)
      leaves exactly the excess in the counter: zero only if no re-add has
      inflated it. */
  lemma WipeLeavesExcess(st: LruState)
    ensures Iterate(st, |st.lru|) == LruState([], Excess(st))
    ensures Iterate(st, |st.lru|).curSize == 0 <==> st.curSize == SumSizes(st.lru)
  {
    IterateRemovesOldest(st, |st.lru|);
  }
}
