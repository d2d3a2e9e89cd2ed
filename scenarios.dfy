/** Concrete runs of the cache, derived from the operations' contracts alone. */
module Scenarios {

  import opened Recency
  import opened Eviction
  import opened HttpCache

  /** Budget 10: put "a" and "b" (4 bytes each), then read "a", which moves
      it back to the front. */
  method PutTwoReadFirst() returns (c: Cache)
    ensures fresh(c) && c.Valid() && c.maxSize == 10 && c.drift == 0
    ensures c.lru == [Entry("a", [0, 0, 0, 0]), Entry("b", [0, 0, 0, 0])] && c.curSize == 8
  {
    var four: Bytes := [0, 0, 0, 0];
    c := new Cache(10);
    var a, b := Entry("a", four), Entry("b", four);
    assert Evict(LruState([], 0), 4, 10) == LruState([], 0);
    c.Add("a", four);
    assert c.lru == [a] && c.curSize == 4;
    assert Evict(LruState([a], 4), 4, 10) == LruState([a], 4);
    assert "b" !in Keys([a]);
    c.Add("b", four);
    assert c.lru == [b, a] && c.curSize == 8;
    assert Position(c.lru, "a") == 1;
    var got := c.Get("a");
  }

  /** Continuing from PutTwoReadFirst, put "c" (4 bytes). The read made "b"
      the least recently used entry, so "b" is the one evicted: "c" then "a"
      remain, holding 8 bytes. */
  method LeastRecentlyUsedIsEvicted() returns (keys: seq<Key>, len: nat, size: int)
    ensures keys == ["c", "a"] && len == 2 && size == 8
  {
    var c := PutTwoReadFirst();
    var four: Bytes := [0, 0, 0, 0];
    var a := Entry("a", four);
    // The loop evicts the back entry "b"; then 4 + 4 fits the budget.
    assert RemoveOldestStep(c.State()) == LruState([a], 4);
    assert Evict(c.State(), 4, 10) == LruState([a], 4);
    assert "c" !in Keys([a]);
    c.Add("c", four);
    assert c.lru == [Entry("c", four), a];
    keys := [c.lru[0].key, c.lru[1].key];
    len := c.Len();
    size := c.Size();
  }

  /** Budget 10: put "a" twice (4 bytes each). One entry remains, holding 4
      bytes, but the counter says 8. A later 3-byte put of "b" evicts "a"
      and still counts 7 bytes for the 3 held; wiping leaves the counter at
      4, not 0. */
  method ReAddDrift() returns (len: nat, size: int, held: nat, afterPut: int, afterWipe: int)
    ensures len == 1 && size == 8 && held == 4
    ensures afterPut == 7 && afterWipe == 4
  {
    var four: Bytes := [0, 0, 0, 0];
    var c := new Cache(10);
    c.Add("a", four);
    c.Add("a", [1, 1, 1, 1]);
    len := c.Len();
    size := c.Size();
    held := SumSizes(c.lru);
    c.Add("b", [2, 2, 2]);
    afterPut := c.Size();
    c.Wipe();
    afterWipe := c.Size();
  }
}
