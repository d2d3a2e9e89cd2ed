/** The recency list of the cache and the lookup map that mirrors it.

    The doubly-linked `container/list` is abstracted as a sequence of entries:
    index 0 is the front (most recently used) and the last index is the back
    (the entry evicted first). The lookup map, which in the source holds
    pointers to list elements, is abstracted as a map from each key to the
    entry its element holds. */
module Recency {

  type Key = string
  type Bytes = seq<bv8>

  /** The payload of one list element: a key and the value cached for it. */
  datatype Entry = Entry(key: Key, value: Bytes)

  /** The keys present in a list. */
  function Keys(s: seq<Entry>): set<Key> {
    set i | 0 <= i < |s| :: s[i].key
  }

  /** No key occurs in two elements of the list. */
  predicate UniqueKeys(s: seq<Entry>) {
    forall i, j :: 0 <= i < j < |s| ==> s[i].key != s[j].key
  }

  /** The bytes held by the values of a list; the back element is peeled off
      first, the way eviction removes them. */
  function SumSizes(s: seq<Entry>): nat {
    if s == [] then 0 else SumSizes(s[..|s| - 1]) + |s[|s| - 1].value|
  }

  /** The index of the front-most element holding key k. */
  function Position(s: seq<Entry>, k: Key): (i: nat)
    requires k in Keys(s)
    ensures i < |s| && s[i].key == k
    ensures forall j :: 0 <= j < i ==> s[j].key != k
  {
    if s[0].key == k then 0
    else
      assert forall j :: 1 <= j < |s| ==> s[1..][j - 1] == s[j];
      1 + Position(s[1..], k)
  }

  /** The lookup map a list determines: each key to the entry that holds it. */
  function KeyMap(s: seq<Entry>): map<Key, Entry> {
    map k | k in Keys(s) :: s[Position(s, k)]
  }

  /** The list without its i-th element (list.Remove). */
  function RemoveAt(s: seq<Entry>, i: nat): seq<Entry>
    requires i < |s|
  {
    s[..i] + s[i + 1..]
  }

  /** The list with its i-th element moved to the front (list.MoveToFront). */
  function MoveToFront(s: seq<Entry>, i: nat): seq<Entry>
    requires i < |s|
  {
    [s[i]] + RemoveAt(s, i)
  }

  // ---------------------------------------------------------------------
  // Keys and positions

  /** Two maps with the same keys and the same value at each key are equal. */
  lemma MapsEqual(a: map<Key, Entry>, b: map<Key, Entry>)
    requires a.Keys == b.Keys
    requires forall k :: k in a ==> a[k] == b[k]
    ensures a == b
  {
  }

  /** With unique keys, an element's key is found exactly at that element. */
  lemma PositionOfUnique(s: seq<Entry>, j: nat)
    requires UniqueKeys(s) && j < |s|
    ensures s[j].key in Keys(s) && Position(s, s[j].key) == j
  {
  }

  /** The lookup map sends the key of each element to that very element. */
  lemma KeyMapAt(s: seq<Entry>, j: nat)
    requires UniqueKeys(s) && j < |s|
    ensures s[j].key in KeyMap(s) && KeyMap(s)[s[j].key] == s[j]
  {
    PositionOfUnique(s, j);
  }

  /** The keys of a non-empty list: its front key and the keys behind it. */
  lemma KeysCons(s: seq<Entry>)
    requires s != []
    ensures Keys(s) == {s[0].key} + Keys(s[1..])
  {
    var t := s[1..];
    forall k | k in Keys(s) ensures k in {s[0].key} + Keys(t) {
      var i :| 0 <= i < |s| && s[i].key == k;
      if i > 0 { assert t[i - 1].key == k; }
    }
    forall k | k in Keys(t) ensures k in Keys(s) {
      var i :| 0 <= i < |t| && t[i].key == k;
      assert s[i + 1].key == k;
    }
  }

  /** With unique keys a list has as many keys as elements. */
  lemma {:induction false} KeysCount(s: seq<Entry>)
    requires UniqueKeys(s)
    ensures |Keys(s)| == |s|
  {
    if s != [] {
      var t := s[1..];
      assert UniqueKeys(t) by {
        forall i, j | 0 <= i < j < |t| ensures t[i].key != t[j].key {
          assert t[i] == s[i + 1] && t[j] == s[j + 1];
        }
      }
      KeysCons(s);
      assert forall i :: 0 <= i < |t| ==> t[i] == s[i + 1];
      assert s[0].key !in Keys(t);
      KeysCount(t);
    }
  }

  /** The lookup map has one key per list element: Len() counts both. */
  lemma KeyMapSize(s: seq<Entry>)
    requires UniqueKeys(s)
    ensures |KeyMap(s)| == |Keys(s)| == |s|
  {
    assert KeyMap(s).Keys == Keys(s);
    KeysCount(s);
  }

  /** Putting a fresh entry in front keeps keys unique and adds exactly that
      key to the key set. */
  lemma PushFrontKeys(e: Entry, s: seq<Entry>)
    requires UniqueKeys(s) && e.key !in Keys(s)
    ensures UniqueKeys([e] + s)
    ensures Keys([e] + s) == Keys(s) + {e.key}
  {
    var t := [e] + s;
    assert forall j :: 1 <= j < |t| ==> t[j] == s[j - 1];
    forall i, j | 0 <= i < j < |t| ensures t[i].key != t[j].key {
      assert t[j].key in Keys(s);
    }
    KeysCons(t);
    assert t[1..] == s;
  }

  /** Putting a fresh entry in front adds exactly that key to the lookup map
      (list.PushFront followed by the map insert). */
  lemma PushFrontKeyMap(e: Entry, s: seq<Entry>)
    requires UniqueKeys(s) && e.key !in Keys(s)
    ensures KeyMap([e] + s) == KeyMap(s)[e.key := e]
  {
    var t := [e] + s;
    var m := KeyMap(s)[e.key := e];
    PushFrontKeys(e, s);
    forall k | k in KeyMap(t) ensures KeyMap(t)[k] == m[k] {
      PushFrontKeepsEntry(e, s, Position(t, k));
    }
    MapsEqual(KeyMap(t), m);
  }

  /** After a push to the front, each element's key maps to what the old map
      with the pushed entry added gives it. */
  lemma PushFrontKeepsEntry(e: Entry, s: seq<Entry>, p: nat)
    requires UniqueKeys(s) && UniqueKeys([e] + s) && e.key !in Keys(s) && p < |s| + 1
    ensures ([e] + s)[p].key in KeyMap([e] + s)
    ensures KeyMap([e] + s)[([e] + s)[p].key] == KeyMap(s)[e.key := e][([e] + s)[p].key]
  {
    KeyMapAt([e] + s, p);
    if p > 0 {
      assert ([e] + s)[p] == s[p - 1];
      KeyMapAt(s, p - 1);
    }
  }

  /** Taking the i-th element out keeps keys unique and removes exactly its
      key from the key set. */
  lemma RemoveAtKeys(s: seq<Entry>, i: nat)
    requires UniqueKeys(s) && i < |s|
    ensures UniqueKeys(RemoveAt(s, i))
    ensures Keys(RemoveAt(s, i)) == Keys(s) - {s[i].key}
  {
    var r := RemoveAt(s, i);
    assert forall j :: 0 <= j < |r| ==> r[j] == s[if j < i then j else j + 1];
    forall k | k in Keys(s) - {s[i].key} ensures k in Keys(r) {
      var p :| 0 <= p < |s| && s[p].key == k;
      assert r[if p < i then p else p - 1] == s[p];
    }
  }

  /** A key that survives the removal of the i-th element keeps its entry. */
  lemma RemoveAtKeepsEntry(s: seq<Entry>, i: nat, j: nat)
    requires i < |s| && j < |s| - 1 && UniqueKeys(s) && UniqueKeys(RemoveAt(s, i))
    ensures RemoveAt(s, i)[j].key in KeyMap(RemoveAt(s, i))
    ensures RemoveAt(s, i)[j].key in KeyMap(s)
    ensures KeyMap(RemoveAt(s, i))[RemoveAt(s, i)[j].key] == KeyMap(s)[RemoveAt(s, i)[j].key]
  {
    var p := if j < i then j else j + 1;
    assert RemoveAt(s, i)[j] == s[p];
    KeyMapAt(RemoveAt(s, i), j);
    KeyMapAt(s, p);
  }

  /** Taking the i-th element out removes exactly its key from the lookup
      map and leaves every other key mapped to the same entry. */
  lemma RemoveAtKeyMap(s: seq<Entry>, i: nat)
    requires UniqueKeys(s) && i < |s|
    ensures KeyMap(RemoveAt(s, i)) == KeyMap(s) - {s[i].key}
  {
    var r := RemoveAt(s, i);
    var m := KeyMap(s) - {s[i].key};
    assert UniqueKeys(r) && KeyMap(r).Keys == m.Keys by {
      RemoveAtKeys(s, i);
    }
    forall k | k in KeyMap(r) ensures KeyMap(r)[k] == m[k] {
      RemoveAtKeepsEntry(s, i, Position(r, k));
    }
    MapsEqual(KeyMap(r), m);
  }

  /** Moving an element to the front keeps the keys, the lookup map and the
      element itself; it now stands first. */
  lemma MoveToFrontKeyMap(s: seq<Entry>, i: nat)
    requires UniqueKeys(s) && i < |s|
    ensures UniqueKeys(MoveToFront(s, i))
    ensures Keys(MoveToFront(s, i)) == Keys(s)
    ensures KeyMap(MoveToFront(s, i)) == KeyMap(s)
    ensures MoveToFront(s, i)[0] == s[i]
  {
    var m, k, rest := KeyMap(s), s[i].key, RemoveAt(s, i);
    assert UniqueKeys(rest) && Keys(rest) == Keys(s) - {k} by {
      RemoveAtKeys(s, i);
    }
    assert KeyMap(rest) == m - {k} by {
      RemoveAtKeyMap(s, i);
    }
    assert k in m && m[k] == s[i] by {
      KeyMapAt(s, i);
    }
    PushFrontKeys(s[i], rest);
    PushFrontKeyMap(s[i], rest);
    assert Keys(s) - {k} + {k} == Keys(s) by {
      assert s[i].key in Keys(s);
    }
    MapsEqual((m - {k})[k := s[i]], m);
  }

  /** Moving an element to the front and then giving the front element a new
      entry is pushing that entry in front of the rest of the list. */
  lemma MoveToFrontThenReplace(s: seq<Entry>, i: nat, e: Entry)
    requires i < |s|
    ensures MoveToFront(s, i)[0 := e] == [e] + RemoveAt(s, i)
  {
  }

  // ---------------------------------------------------------------------
  // Byte accounting

  /** The bytes of two lists put together add up. */
  lemma {:induction false} SumSizesAppend(a: seq<Entry>, b: seq<Entry>)
    ensures SumSizes(a + b) == SumSizes(a) + SumSizes(b)
  {
    if b == [] {
      assert a + b == a;
    } else {
      var c := a + b;
      assert c[..|c| - 1] == a + b[..|b| - 1];
      SumSizesAppend(a, b[..|b| - 1]);
    }
  }

  /** Taking the i-th element out releases exactly the bytes of its value. */
  lemma RemoveAtSize(s: seq<Entry>, i: nat)
    requires i < |s|
    ensures SumSizes(RemoveAt(s, i)) == SumSizes(s) - |s[i].value|
  {
    assert s == s[..i] + [s[i]] + s[i + 1..];
    SumSizesAppend(s[..i] + [s[i]], s[i + 1..]);
    SumSizesAppend(s[..i], [s[i]]);
    SumSizesAppend(s[..i], s[i + 1..]);
    assert [s[i]][..0] == [];
  }

  /** Moving an element to the front changes no byte count. */
  lemma MoveToFrontSize(s: seq<Entry>, i: nat)
    requires i < |s|
    ensures SumSizes(MoveToFront(s, i)) == SumSizes(s)
  {
    RemoveAtSize(s, i);
    SumSizesAppend([s[i]], RemoveAt(s, i));
    assert [s[i]][..0] == [];
  }

  /** Pushing an entry in front raises the held bytes by its value's length. */
  lemma PushFrontSize(e: Entry, s: seq<Entry>)
    ensures SumSizes([e] + s) == SumSizes(s) + |e.value|
  {
    SumSizesAppend([e], s);
    assert [e][..0] == [];
  }

  /** Replacing the i-th element by an entry with the same key, placed at the
      front: keys stay unique and the map sends that key to the new entry. */
  lemma ReplaceToFrontKeyMap(s: seq<Entry>, i: nat, e: Entry)
    requires UniqueKeys(s) && i < |s| && s[i].key == e.key
    ensures UniqueKeys([e] + RemoveAt(s, i))
    ensures KeyMap([e] + RemoveAt(s, i)) == KeyMap(s)[e.key := e]
  {
    var rest := RemoveAt(s, i);
    var m := KeyMap(s);
    RemoveAtKeys(s, i);
    RemoveAtKeyMap(s, i);
    PushFrontKeys(e, rest);
    PushFrontKeyMap(e, rest);
    MapsEqual((m - {e.key})[e.key := e], m[e.key := e]);
  }

  /** Replacing the i-th element by an entry placed at the front trades the
      old value's length for the new one's. */
  lemma ReplaceToFrontSize(s: seq<Entry>, i: nat, e: Entry)
    requires i < |s|
    ensures SumSizes([e] + RemoveAt(s, i)) == SumSizes(s) - |s[i].value| + |e.value|
  {
    RemoveAtSize(s, i);
    SumSizesAppend([e], RemoveAt(s, i));
    assert [e][..0] == [];
  }

  // ---------------------------------------------------------------------
  // Recency order

  /** Where another key stands after an element is moved to the front: one
      place further back if it was in front of the moved element, in place
      otherwise. */
  lemma PositionAfterMove(s: seq<Entry>, i: nat, a: Key)
    requires UniqueKeys(s) && i < |s| && a in Keys(s) && a != s[i].key
    ensures a in Keys(MoveToFront(s, i))
    ensures Position(MoveToFront(s, i), a) ==
      if Position(s, a) < i then Position(s, a) + 1 else Position(s, a)
  {
    var m := MoveToFront(s, i);
    var p := Position(s, a);
    var q := if p < i then p + 1 else p;
    assert m[q] == s[p];
    MoveToFrontKeyMap(s, i);
    PositionOfUnique(m, q);
  }

  /** Moving an element to the front puts its key first and keeps every
      other pair of keys in the order they had. */
  lemma MoveToFrontOrder(s: seq<Entry>, i: nat, a: Key, b: Key)
    requires UniqueKeys(s) && i < |s|
    requires a in Keys(s) && b in Keys(s) && a != s[i].key && b != s[i].key
    ensures s[i].key in Keys(MoveToFront(s, i)) && Position(MoveToFront(s, i), s[i].key) == 0
    ensures a in Keys(MoveToFront(s, i)) && b in Keys(MoveToFront(s, i))
    ensures Position(MoveToFront(s, i), a) < Position(MoveToFront(s, i), b)
        <==> Position(s, a) < Position(s, b)
  {
    MoveToFrontKeyMap(s, i);
    PositionOfUnique(MoveToFront(s, i), 0);
    PositionAfterMove(s, i, a);
    PositionAfterMove(s, i, b);
  }

  /** Where another key stands after an element is taken out: one place
      further forward if it was behind the removed element, in place
      otherwise. */
  lemma PositionAfterRemove(s: seq<Entry>, i: nat, a: Key)
    requires UniqueKeys(s) && i < |s| && a in Keys(s) && a != s[i].key
    ensures a in Keys(RemoveAt(s, i))
    ensures Position(RemoveAt(s, i), a) ==
      if Position(s, a) < i then Position(s, a) else Position(s, a) - 1
  {
    var r := RemoveAt(s, i);
    var p := Position(s, a);
    var q := if p < i then p else p - 1;
    assert r[q] == s[p];
    RemoveAtKeys(s, i);
    PositionOfUnique(r, q);
  }

  /** Taking an element out keeps every remaining pair of keys in the order
      they had. */
  lemma RemoveAtOrder(s: seq<Entry>, i: nat, a: Key, b: Key)
    requires UniqueKeys(s) && i < |s|
    requires a in Keys(s) && b in Keys(s) && a != s[i].key && b != s[i].key
    ensures a in Keys(RemoveAt(s, i)) && b in Keys(RemoveAt(s, i))
    ensures Position(RemoveAt(s, i), a) < Position(RemoveAt(s, i), b)
        <==> Position(s, a) < Position(s, b)
  {
    PositionAfterRemove(s, i, a);
    PositionAfterRemove(s, i, b);
  }
}
