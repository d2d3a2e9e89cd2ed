# httpcache: the byte-bounded LRU cache, in Dafny

This project models the in-memory cache behind the `httpcache` HTTP server
(`httpcache.go`). The server keeps binary values under string keys and
evicts the least recently used entry when a byte budget would be exceeded.
The model covers the `Cache` structure and its operations:

- `NewCache`, `Add` (eviction loop, then a fresh insert or a re-add), `Get`,
  `Remove`, `RemoveOldest`, `removeElement`, `Len`, `Size`;
- the loop of the `WIPE` handler, which calls `RemoveOldest` until `Len()`
  is 0.

Files:

- `recency.dfy` (module `Recency`): the recency list as a `seq<Entry>`.
  Index 0 is the front (most recently used) and the last index is the back
  (evicted first). This file also has the lookup map the list determines
  (`KeyMap`), the byte sum of the values (`SumSizes`), and lemmas on how
  `PushFront`, `MoveToFront` and `Remove` change keys, map, byte count and
  order.
- `eviction.dfy` (module `Eviction`): the eviction loop of `Add` as pure
  functions over the list and the counter. `RemoveOldestStep` is one pass
  and `Iterate` is n passes. `Evict` is the state in which the loop stops.
  The lemmas say exactly when the loop stops.
- `httpcache.dfy` (module `HttpCache`): class `Cache` with the source's
  fields `maxSize`, `curSize`, `lru` and `cache`. Its methods change those
  fields in place. `Valid()` is the object invariant. A ghost field `drift`
  records the bytes that re-adds counted but no longer hold.
- `scenarios.dfy` (module `Scenarios`): two concrete runs, proved from the
  contracts alone.

Where the code departs from a clean LRU cache, the model follows the code:

- Re-adding a present key raises `curSize` by the new value's length. It
  does not subtract the old length (httpcache.go:55). So `curSize` is the
  byte sum of the held values plus `drift`, and `drift` only grows with
  re-adds. The model does not claim the clean invariant "`curSize` equals
  the held bytes". `Scenarios.ReAddDrift` shows the gap on a concrete run.
- A value that cannot fit is not rejected, and it is not inserted over
  budget. The eviction loop (httpcache.go:49-52) keeps calling
  `RemoveOldest`. On an empty list that call does nothing, so the loop
  never ends. This happens when `drift + len(value) > maxSize`, and in
  particular when `len(value) > maxSize`. `Add` therefore requires the
  exact condition under which its loop stops, and the divergence is
  proved as a property of the loop (`Eviction.EvictionNeverStops`,
  `Eviction.EvictionStopsIff`).
- Wiping empties the list and the map, but it leaves `curSize` at the
  drift. The counter ends at 0 only if no re-add inflated it.
- There is no lock: every operation is modelled as sequential.

## Model

| member | source | states |
|---|---|---|
| HttpCache.Cache.constructor | httpcache.go:39-46 | `NewCache` gives an empty list and map, `curSize` 0, the given `maxSize`, and the invariant holds |
| HttpCache.Cache.Add | httpcache.go:48-65 | if drift plus the value's length fits the budget, the loop stops in the state `Evict` gives. A key still present after eviction is re-added: one entry, with the new value, at the front, the others in their order, the counter raised by the new length only, so drift grows by the old length. Otherwise a new entry is pushed to the front and the map gains the key. Either way `curSize <= maxSize` afterwards and the invariant holds |
| HttpCache.Cache.Get | httpcache.go:67-73 | a present key returns its stored value and moves its entry to the front; map and counter are unchanged. An absent key returns `KeyNotFound` and changes nothing |
| HttpCache.Cache.Remove | httpcache.go:75-79 | a present key's entry leaves the list and the map, and its value's length leaves the counter; an absent key changes nothing |
| HttpCache.Cache.RemoveOldest | httpcache.go:81-86 | list and counter change as one `RemoveOldestStep`: the back entry and its bytes go, and its key leaves the map; on an empty cache nothing changes |
| HttpCache.Cache.RemoveElement | httpcache.go:88-93 | exactly that element leaves the list (the others keep their order), its key leaves the map, its value's length leaves the counter; the invariant holds |
| HttpCache.Cache.Len | httpcache.go:95-97 | the list length equals the number of keys in the map and the number of distinct keys in the list |
| HttpCache.Cache.Size | httpcache.go:99-101 | the counter is at least the bytes the values hold, and exactly that plus the drift |
| HttpCache.Cache.Wipe | httpcache.go:129-131 | the wipe loop ends with an empty list and map; the counter ends at the old excess (counter minus held bytes), which is 0 exactly when there was no drift |
| Recency.Position | httpcache.go:68-70 | the element a key's map entry points at: its index holds that key and no earlier element does |
| Recency.KeyMapSize | httpcache.go:95-97 | with unique keys, the map has as many keys as the list has elements |
| Recency.PushFrontKeys | httpcache.go:61-63 | pushing an entry with a fresh key keeps keys unique and adds exactly that key to the key set |
| Recency.PushFrontKeyMap | httpcache.go:61-63 | pushing an entry with a fresh key makes the map the old map plus that key with that entry |
| Recency.PushFrontSize | httpcache.go:61-64 | pushing an entry raises the held bytes by exactly its value's length |
| Recency.RemoveAtKeys | httpcache.go:88-93 | taking an element out keeps keys unique and removes exactly its key from the key set |
| Recency.RemoveAtKeyMap | httpcache.go:88-93 | taking an element out removes exactly its key from the map; every other key keeps its entry |
| Recency.RemoveAtSize | httpcache.go:89-90 | taking an element out lowers the held bytes by exactly its value's length |
| Recency.RemoveAtOrder | httpcache.go:90 | taking an element out keeps every remaining pair of keys in the same order |
| Recency.MoveToFrontKeyMap | httpcache.go:69 | moving an element to the front keeps keys unique, the key set and the map, and puts that element first |
| Recency.MoveToFrontSize | httpcache.go:69 | moving an element to the front leaves the held bytes unchanged |
| Recency.MoveToFrontOrder | httpcache.go:69 | the moved key is now first, and every other pair of keys keeps its order |
| Recency.PositionAfterMove | httpcache.go:69 | after a move to the front, a key that stood before the moved element is one place further back; a key behind it stays where it was |
| Recency.PositionAfterRemove | httpcache.go:90 | after a removal, a key behind the removed element is one place further forward; a key before it stays where it was |
| Recency.MoveToFrontThenReplace | httpcache.go:56-57 | moving the element to the front and then replacing its value puts the new entry in front of the rest of the list |
| Recency.ReplaceToFrontKeyMap | httpcache.go:56-57 | a re-add keeps keys unique and the map sends the key to the new entry; all other keys keep theirs |
| Recency.ReplaceToFrontSize | httpcache.go:56-57 | a re-add changes the held bytes by the new length minus the old one |
| Eviction.Evict | httpcache.go:49-52 | the state where the loop stops: only back entries are removed, the counter drops by exactly their bytes, and the counter then leaves room for the value |
| Eviction.EvictStopsEarliest | httpcache.go:49-52 | `Evict` removes no more than needed: with any longer front part of the list kept, the counter would still be over budget |
| Eviction.IterateKeepsExcess | httpcache.go:81-93 | each `RemoveOldest` keeps "counter minus held bytes" unchanged |
| Eviction.IterateRemovesOldest | httpcache.go:81-93 | n passes remove the n oldest entries and exactly their bytes |
| Eviction.EvictIsLoop | httpcache.go:49-52 | after as many passes as `Evict` drops entries, the loop reaches `Evict`'s state, and its guard holds at every earlier pass |
| Eviction.EvictionNeverStops | httpcache.go:49-52 | if drift plus the value's length exceeds `maxSize`, the guard still holds after any number of passes; on an empty list every pass leaves the state unchanged |
| Eviction.EvictionStopsIff | httpcache.go:49-52 | the loop stops after some number of passes if and only if drift plus the value's length is at most `maxSize` |
| Eviction.WipeLeavesExcess | httpcache.go:129-131 | removing the oldest entry until the list is empty leaves the counter at the excess; it is 0 exactly when the counter equalled the held bytes |
| Scenarios.PutTwoReadFirst | httpcache.go:48-73 | with budget 10: add a and b (4 bytes each), then get a. This leaves [a, b] with the counter at 8 and no drift |
| Scenarios.LeastRecentlyUsedIsEvicted | httpcache.go:48-73 | with budget 10: add a and b (4 bytes each), get a, add c (4 bytes). This evicts b and leaves [c, a], with `Len()` 2 and `Size()` 8 |
| Scenarios.ReAddDrift | httpcache.go:48-65 | with budget 10, adding a twice (4 bytes each) leaves one entry holding 4 bytes, but `Size()` is 8. A 3-byte add of b then evicts a and counts 7, and a wipe leaves 4 |

## Left out

- HttpCache.Cache.Add: requires `drift + len(value) <= maxSize`, the exact condition under which its eviction loop ends. When this fails the source loops forever, and that run has no final state to describe. The `Eviction` lemmas state the divergence instead.
- The HTTP handlers `PUT` and `GET`, the router and `main` (httpcache.go:103-126, 153-168). They read request bodies and write status codes, which is network I/O, not cache logic.
- The `GC` handler, `runtime.GC()` in `WIPE`, `debug.SetGCPercent` and `GoRuntimeStats`. These are runtime introspection and calls into the Go runtime.
- Logging (`log.Printf`) and flag parsing. They only produce output.
- Concurrency. The source has no lock, and the model runs every operation sequentially.
- The doubly-linked `container/list`. Its element pointers are modelled as positions in the sequence, and `Position` finds the element a map entry points at. So the model does not capture the constant-time cost of map lookup, `MoveToFront` and `Remove`.
- Aliasing of values. The source stores the caller's `*[]byte` pointer, and the list element and the map share one `entry`. The model stores value sequences, and a re-add writes the new entry into both the list and the map.
- Go's fixed-width `int` overflow of `curSize + len(value)`. Integers are unbounded here.
- Keys are narrowed from `interface{}` to `string`, the only key type the handlers pass. A `nil` value pointer, which would make `Add` panic, is not modelled.
