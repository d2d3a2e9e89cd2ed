/** The byte-bounded LRU cache of httpcache.go.

    A Cache keeps three things consistent: the recency list `lru` (front =
    most recently used, back = evicted first), the lookup map `cache` from key
    to the entry of its list element, and the byte counter `curSize`, checked
    against the fixed `maxSize`. Re-adding a present key raises curSize by the
    new value's length without subtracting the old one, so curSize may run
    ahead of the bytes actually held; the ghost field `drift` records by how
    much. */
module HttpCache {

  import opened Recency
  import opened Eviction

  /** The error Get reports for an absent key ("Key not found"). */
  datatype Error = KeyNotFound

  datatype Result<T> = Ok(value: T) | Err(error: Error)

  class Cache {
    /** The budget in bytes, fixed at construction. */
    const maxSize: int
    /** The byte counter. */
    var curSize: int
    /** The recency list; index 0 is the front. */
    var lru: seq<Entry>
    /** The lookup map; each key to the entry of its list element. */
    var cache: map<Key, Entry>
    /** Bytes counted by re-adds for values that were replaced. */
    ghost var drift: int

    /** The list holds each key once, the map is exactly the list's keys with
        their entries, and curSize counts the held bytes plus the drift. */
    ghost predicate Valid()
      reads this
    {
      && UniqueKeys(lru)
      && cache == KeyMap(lru)
      && 0 <= drift
      && curSize == SumSizes(lru) + drift
    }

    /** NewCache: an empty cache with the given budget. */
    constructor (maxSize: int)
      ensures Valid()
      ensures this.maxSize == maxSize
      ensures curSize == 0 && lru == [] && cache == map[] && drift == 0
    {
      this.maxSize := maxSize;
      curSize := 0;
      lru := [];
      cache := map[];
      drift := 0;
      assert Keys([]) == {};
    }

    /** The list and counter, as the eviction loop sees them. */
    function State(): LruState
      reads this
    {
      LruState(lru, curSize)
    }

    /** Adds key with value at the front, first evicting from the back while
        the counter leaves no room for the value. The loop ends only when the
        drift alone leaves room for the value (see Eviction.EvictionStopsIff);
        otherwise the source spins forever, so that is required here. */
    method Add(key: Key, value: Bytes)
      requires Valid()
      requires Excess(State()) + |value| <= maxSize
      modifies this
      ensures Valid()
      ensures curSize <= maxSize
      ensures var ev := Evict(old(State()), |value|, maxSize);
        && curSize == ev.curSize + |value|
        && (key in Keys(ev.lru) ==>
              && lru == [Entry(key, value)] + RemoveAt(ev.lru, Position(ev.lru, key))
              && drift == old(drift) + |ev.lru[Position(ev.lru, key)].value|)
        && (key !in Keys(ev.lru) ==>
              && lru == [Entry(key, value)] + ev.lru
              && drift == old(drift))
      ensures lru != [] && lru[0] == Entry(key, value) && cache[key] == Entry(key, value)
    {
      ghost var ev := Evict(State(), |value|, maxSize);
      while curSize + |value| > maxSize
        invariant Valid() && drift == old(drift)
        invariant Excess(State()) + |value| <= maxSize
        invariant Evict(State(), |value|, maxSize) == Evict(old(State()), |value|, maxSize)
        decreases |lru|
      {
        ghost var before := State();
        RemoveOldest();
        assert Evict(before, |value|, maxSize) == Evict(State(), |value|, maxSize);
      }
      assert State() == ev;
      if key in cache {
        // Re-add: the counter grows by the new length only.
        var i := Position(lru, key);
        ghost var replaced := lru[i];
        ReplaceToFrontKeyMap(lru, i, Entry(key, value));
        ReplaceToFrontSize(lru, i, Entry(key, value));
        MoveToFrontThenReplace(lru, i, Entry(key, value));
        curSize := curSize + |value|;
        lru := MoveToFront(lru, i);
        // The list element and the map share the entry whose value is replaced.
        lru := lru[0 := Entry(key, value)];
        cache := cache[key := Entry(key, value)];
        drift := drift + |replaced.value|;
        return;
      }
      PushFrontKeys(Entry(key, value), lru);
      PushFrontKeyMap(Entry(key, value), lru);
      PushFrontSize(Entry(key, value), lru);
      lru := [Entry(key, value)] + lru;
      cache := cache[key := Entry(key, value)];
      curSize := curSize + |value|;
    }

    /** Looks key up; a hit also moves its entry to the front. */
    method Get(key: Key) returns (r: Result<Bytes>)
      requires Valid()
      modifies this
      ensures Valid()
      ensures key in old(cache) ==>
        && key in Keys(old(lru))
        && r == Ok(old(lru)[Position(old(lru), key)].value)
        && r == Ok(old(cache)[key].value)
        && lru == MoveToFront(old(lru), Position(old(lru), key))
        && lru[0].key == key
        && cache == old(cache) && curSize == old(curSize) && drift == old(drift)
      ensures key !in old(cache) ==> r == Err(KeyNotFound) && unchanged(this)
    {
      if key in cache {
        var i := Position(lru, key);
        KeyMapAt(lru, i);
        MoveToFrontKeyMap(lru, i);
        MoveToFrontSize(lru, i);
        lru := MoveToFront(lru, i);
        return Ok(cache[key].value);
      }
      return Err(KeyNotFound);
    }

    /** Removes key's entry, if there is one. */
    method Remove(key: Key)
      requires Valid()
      modifies this
      ensures Valid()
      ensures key in old(cache) ==>
        && key in Keys(old(lru))
        && lru == RemoveAt(old(lru), Position(old(lru), key))
        && cache == old(cache) - {key}
        && curSize == old(curSize) - |old(cache)[key].value|
        && drift == old(drift)
      ensures key !in old(cache) ==> unchanged(this)
    {
      if key in cache {
        var i := Position(lru, key);
        KeyMapAt(lru, i);
        RemoveElement(i);
      }
    }

    /** Removes the back (least recently used) entry, if there is one. */
    method RemoveOldest()
      requires Valid()
      modifies this
      ensures Valid()
      ensures State() == RemoveOldestStep(old(State()))
      ensures old(lru) != [] ==> cache == old(cache) - {old(lru)[|old(lru)| - 1].key}
      ensures old(lru) == [] ==> unchanged(this)
      ensures drift == old(drift)
    {
      if |lru| > 0 {
        RemoveElement(|lru| - 1);
        assert lru == old(lru)[..|old(lru)| - 1];
      }
    }

    /** Takes the element at index i out of both the list and the map and
        subtracts its value's length from the counter. */
    method RemoveElement(i: nat)
      requires Valid() && i < |lru|
      modifies this
      ensures Valid()
      ensures lru == RemoveAt(old(lru), i)
      ensures cache == old(cache) - {old(lru)[i].key}
      ensures curSize == old(curSize) - |old(lru)[i].value|
      ensures drift == old(drift)
    {
      RemoveAtKeys(lru, i);
      RemoveAtKeyMap(lru, i);
      RemoveAtSize(lru, i);
      curSize := curSize - |lru[i].value|;
      var e := lru[i];
      lru := RemoveAt(lru, i);
      cache := cache - {e.key};
    }

    /** The number of entries: the list's length, which is also the number
        of keys in the map. */
    function Len(): (n: nat)
      reads this
      requires Valid()
      ensures n == |cache| && n == |Keys(lru)|
    {
      KeyMapSize(lru);
      |lru|
    }

    /** The byte counter: at least the bytes the values hold, and exactly
        that plus the drift. */
    function Size(): (n: int)
      reads this
      requires Valid()
      ensures n >= SumSizes(lru) && n == SumSizes(lru) + drift
    {
      curSize
    }

    /** The loop of the WIPE handler: RemoveOldest until Len() is 0. */
    method Wipe()
      requires Valid()
      modifies this
      ensures Valid()
      ensures lru == [] && cache == map[] && drift == old(drift)
      ensures curSize == Excess(old(State()))
      ensures curSize == 0 <==> old(drift) == 0
    {
      while Len() > 0
        invariant Valid() && drift == old(drift)
        decreases |lru|
      {
        RemoveOldest();
      }
      assert Keys(lru) == {};
    }
  }
}
