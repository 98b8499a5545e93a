/** A map with a limit, kept in step with a second index ordered by value. */
module LimitedMap {
  import opened Common

  type Key = nat

  datatype Entry = Entry(value: int, key: Key)

  /** The reverse index: entries in ascending order of value, equal values in order of insertion. */
  predicate Sorted(r: seq<Entry>) {
    forall i, j :: 0 <= i < j < |r| ==> r[i].value <= r[j].value
  }

  /** Every pair of the map stands in the reverse index exactly once, and nothing else does. */
  ghost predicate Mirror(m: map<Key, int>, r: seq<Entry>) {
    && Sorted(r) && |r| == |m|
    && (forall i :: 0 <= i < |r| ==> r[i].key in m && m[r[i].key] == r[i].value)
    && (forall i, j :: 0 <= i < j < |r| ==> r[i].key != r[j].key)
  }

  /** Where the multimap inserts: behind all entries of no greater value. */
  function UpperBound(r: seq<Entry>, value: int): (n: nat)
    ensures n <= |r| && (forall i :: 0 <= i < n ==> r[i].value <= value) && (n < |r| ==> r[n].value > value)
  {
    if r == [] || r[0].value > value then 0 else 1 + UpperBound(r[1..], value)
  }

  function Insert(r: seq<Entry>, e: Entry): seq<Entry> {
    var n := UpperBound(r, e.value);
    r[..n] + [e] + r[n..]
  }

  function KeySet(r: seq<Entry>): (s: set<Key>)
    ensures forall i :: 0 <= i < |r| ==> r[i].key in s
  {
    if r == [] then {} else KeySet(r[..|r| - 1]) + {r[|r| - 1].key}
  }

  lemma {:induction false} KeySetHas(r: seq<Entry>, k: Key)
    requires k in KeySet(r)
    ensures exists i :: 0 <= i < |r| && r[i].key == k
  {
    var last := |r| - 1;
    if k != r[last].key {
      KeySetHas(r[..last], k);
      var i :| 0 <= i < last && r[..last][i].key == k;
      assert r[i].key == k;
    }
  }

  lemma {:induction false} KeySetCard(r: seq<Entry>)
    requires forall i, j :: 0 <= i < j < |r| ==> r[i].key != r[j].key
    ensures |KeySet(r)| == |r|
  {
    if r != [] {
      var last := |r| - 1;
      KeySetCard(r[..last]);
      if r[last].key in KeySet(r[..last]) {
        KeySetHas(r[..last], r[last].key);
        assert false;
      }
    }
  }

  /** The keys of an index without duplicates cover the map. */
  lemma Covers(m: map<Key, int>, r: seq<Entry>, k: Key)
    requires Mirror(m, r) && k in m
    ensures exists i :: 0 <= i < |r| && r[i] == Entry(m[k], k)
  {
    KeySetCard(r);
    forall x | x in KeySet(r) ensures x in m.Keys { KeySetHas(r, x); }
    assert |m.Keys| == |m|;
    SubsetFull(KeySet(r), m.Keys);
    KeySetHas(r, k);
    var i :| 0 <= i < |r| && r[i].key == k;
    assert r[i] == Entry(m[k], k);
  }

  lemma InsertAt(r: seq<Entry>, e: Entry, i: nat)
    requires i <= |r|
    ensures |Insert(r, e)| == |r| + 1
    ensures var n := UpperBound(r, e.value); Insert(r, e)[i] == if i < n then r[i] else if i == n then e else r[i - 1]
  {
    hide UpperBound;
  }

  /** The reverse index is stable: a pair goes behind those of equal value, so the front is the oldest of the least. */
  lemma InsertBehindEquals(r: seq<Entry>, e: Entry) returns (n: nat)
    requires Sorted(r)
    ensures n <= |r| && Insert(r, e) == r[..n] + [e] + r[n..]
    ensures forall i: nat :: i < |r| ==> (i < n <==> r[i].value <= e.value)
  {
    hide Insert, UpperBound;
    n := UpperBound(r, e.value);
    InsertIs(r, e);
  }

  lemma InsertIs(r: seq<Entry>, e: Entry)
    ensures Insert(r, e) == r[..UpperBound(r, e.value)] + [e] + r[UpperBound(r, e.value)..]
  {
    hide UpperBound;
  }

  /** The reverse index without the pair of key `k`, all others in their order. */
  ghost predicate Without(r: seq<Entry>, t: seq<Entry>, k: Key) {
    exists i: nat :: i < |r| && r[i].key == k && t == r[..i] + r[i + 1..]
  }

  lemma InsertMirror(m: map<Key, int>, r: seq<Entry>, k: Key, v: int)
    requires Mirror(m, r) && k !in m
    ensures Mirror(m[k := v], Insert(r, Entry(v, k)))
  {
    hide UpperBound, Insert;
    var t := Insert(r, Entry(v, k));
    assert m[k := v].Keys == m.Keys + {k} && |m[k := v].Keys| == |m[k := v]| && |m.Keys| == |m|;
    InsertAt(r, Entry(v, k), 0);
    forall i | 0 <= i < |t| ensures t[i].key in m[k := v] && m[k := v][t[i].key] == t[i].value {
      InsertAt(r, Entry(v, k), i);
    }
    forall i, j | 0 <= i < j < |t| ensures t[i].value <= t[j].value && t[i].key != t[j].key {
      InsertPair(r, Entry(v, k), i, j);
    }
  }

  lemma InsertPair(r: seq<Entry>, e: Entry, i: nat, j: nat)
    requires Sorted(r) && (forall i, j :: 0 <= i < j < |r| ==> r[i].key != r[j].key) && (forall i :: 0 <= i < |r| ==> r[i].key != e.key)
    requires i < j <= |r|
    ensures |Insert(r, e)| == |r| + 1
    ensures Insert(r, e)[i].value <= Insert(r, e)[j].value && Insert(r, e)[i].key != Insert(r, e)[j].key
  {
    hide UpperBound, Insert;
    InsertAt(r, e, i);
    InsertAt(r, e, j);
  }

  lemma RemoveMirror(m: map<Key, int>, r: seq<Entry>, i: nat)
    requires Mirror(m, r) && i < |r|
    ensures Mirror(m - {r[i].key}, r[..i] + r[i + 1..])
  {
    var k := r[i].key;
    var t := r[..i] + r[i + 1..];
    assert (m - {k}).Keys == m.Keys - {k} && |(m - {k}).Keys| == |m - {k}| && |m.Keys| == |m|;
    forall j | 0 <= j < |t| ensures t[j] == if j < i then r[j] else r[j + 1] {}
  }

  lemma MirrorSize(m: map<Key, int>, r: seq<Entry>)
    requires Mirror(m, r)
    ensures |r| == |m|
  {
  }

  lemma SizeReplaced(m: map<Key, int>, x: Key, k: Key, v: int)
    requires k !in m && x in m
    ensures |(m - {x})[k := v]| == |m|
  {
    MapGrown(m - {x}, k, v);
    assert (m - {x}).Keys == m.Keys - {x} && |(m - {x}).Keys| == |m - {x}| && |m.Keys| == |m|;
  }

  class Limited {
    var entries: map<Key, int>
    var rmap: seq<Entry>
    var maxSize: nat

    ghost predicate Valid()
      reads this
    {
      Mirror(entries, rmap)
    }

    constructor (maxSize: nat)
      ensures Valid() && entries == map[] && this.maxSize == maxSize
    {
      entries, rmap, this.maxSize := map[], [], maxSize;
    }

    /** Drops the front of the reverse index, which has the least value. */
    method EvictFirst() returns (victim: Key)
      requires Valid() && rmap != []
      modifies this`entries, this`rmap
      ensures Valid() && victim in old(entries) && entries == old(entries) - {victim}
      ensures victim == old(rmap)[0].key && rmap == old(rmap)[1..]
      ensures forall k :: k in old(entries) ==> old(entries)[victim] <= old(entries)[k]
    {
      ghost var m, r := entries, rmap;
      RemoveMirror(m, r, 0);
      assert r[..0] + r[1..] == r[1..];
      victim := rmap[0].key;
      entries := entries - {victim};
      rmap := rmap[1..];
      forall k | k in m ensures m[victim] <= m[k] { Covers(m, r, k); }
    }

    /**
     Inserts a new pair. A full map loses an entry of least value among the older ones. The limit is compared by
     equality after inserting, so with a limit of one the first pair must not be inserted: there would be nothing older
     to drop. And it bounds the size exactly while the size is below it; a map that has reached its limit grows past it.
     */
    method Add(k: Key, v: int)
      requires Valid() && (maxSize != 1 || entries != map[])
      modifies this`entries, this`rmap
      ensures Valid()
      ensures k in old(entries) ==> entries == old(entries)
      ensures k !in old(entries) && (maxSize == 0 || |old(entries)| + 1 != maxSize) ==> entries == old(entries)[k := v]
      ensures k !in old(entries) && maxSize != 0 && |old(entries)| + 1 == maxSize ==>
        && old(rmap) != [] && rmap == Insert(old(rmap)[1..], Entry(v, k))
        && var x := old(rmap)[0].key;
        x in old(entries) && entries == (old(entries) - {x})[k := v]
          && forall y :: y in old(entries) ==> old(entries)[x] <= old(entries)[y]
      ensures k !in old(entries) && (maxSize == 0 || |old(entries)| + 1 != maxSize) ==> rmap == Insert(old(rmap), Entry(v, k))
      ensures k !in old(entries) && maxSize != 0 ==> (|entries| < maxSize <==> |old(entries)| < maxSize)
    {
      if k in entries {
        return;
      }
      hide Mirror, Insert;
      ghost var before := entries;
      var grown := entries[k := v];
      MapGrown(before, k, v);
      MirrorSize(entries, rmap);
      if maxSize != 0 && |grown| == maxSize {
        MapEmpty(before);
        var victim := EvictFirst();
        SizeReplaced(before, victim, k, v);
        assert entries[k := v] == (before - {victim})[k := v] && |entries[k := v]| == |before|;
      }
      InsertMirror(entries, rmap, k, v);
      entries := entries[k := v];
      rmap := Insert(rmap, Entry(v, k));
    }

    /** The position of a key among the entries of its value. */
    method Locate(k: Key) returns (i: nat)
      requires Valid() && k in entries
      ensures i < |rmap| && rmap[i] == Entry(entries[k], k)
    {
      Covers(entries, rmap, k);
      ghost var w: nat :| w < |rmap| && rmap[w] == Entry(entries[k], k);
      i := 0;
      while rmap[i] != Entry(entries[k], k)
        invariant i <= w
        decreases w - i
      {
        i := i + 1;
      }
    }

    /** The entry is always found in the reverse index: the code after the search is never reached. */
    method Erase(k: Key)
      requires Valid()
      modifies this`entries, this`rmap
      ensures Valid() && entries == old(entries) - {k}
      ensures if k in old(entries) then Without(old(rmap), rmap, k) else rmap == old(rmap)
    {
      if k !in entries {
        return;
      }
      var i := Locate(k);
      RemoveMirror(entries, rmap, i);
      rmap := rmap[..i] + rmap[i + 1..];
      entries := entries - {k};
    }

    method Update(k: Key, v: int)
      requires Valid()
      modifies this`entries, this`rmap
      ensures Valid() && entries == if k in old(entries) then old(entries)[k := v] else old(entries)
      ensures k !in old(entries) ==> rmap == old(rmap)
      ensures k in old(entries) ==> exists t :: Without(old(rmap), t, k) && rmap == Insert(t, Entry(v, k))
    {
      if k !in entries {
        return;
      }
      var i := Locate(k);
      RemoveMirror(entries, rmap, i);
      InsertMirror(entries - {k}, rmap[..i] + rmap[i + 1..], k, v);
      assert Without(rmap, rmap[..i] + rmap[i + 1..], k);
      assert (entries - {k})[k := v] == entries[k := v];
      rmap := Insert(rmap[..i] + rmap[i + 1..], Entry(v, k));
      entries := entries[k := v];
    }

    /** Lowering the limit drops entries of least value until the limit is met. */
    method SetMaxSize(s: nat)
      requires Valid()
      modifies this
      ensures Valid() && maxSize == s
      ensures s == 0 ==> entries == old(entries)
      ensures |rmap| <= |old(rmap)| && rmap == old(rmap)[|old(rmap)| - |rmap|..]
      ensures s > 0 ==> |entries| == if |old(entries)| > s then s else |old(entries)|
      ensures forall k :: k in entries ==> k in old(entries) && entries[k] == old(entries)[k]
      ensures forall k, x :: k in entries && x in old(entries) && x !in entries ==> old(entries)[x] <= entries[k]
    {
      if s != 0 {
        while |entries| > s
          invariant Valid() && (|old(entries)| > s ==> |entries| >= s) && (|old(entries)| <= s ==> entries == old(entries))
          invariant |rmap| <= |old(rmap)| && rmap == old(rmap)[|old(rmap)| - |rmap|..]
          invariant forall k :: k in entries ==> k in old(entries) && entries[k] == old(entries)[k]
          invariant forall k, x :: k in entries && x in old(entries) && x !in entries ==> old(entries)[x] <= entries[k]
          decreases |entries|
        {
          ghost var before := entries;
          var victim := EvictFirst();
          assert entries.Keys == before.Keys - {victim} && |entries.Keys| == |entries| && |before.Keys| == |before|;
        }
      }
      maxSize := s;
    }
  }

  /** How a map comes to exceed its limit: lower the limit to the current size, then insert. */
  method GrowPastLimit() returns (m: Limited)
    ensures fresh(m) && m.Valid() && m.maxSize == 2 && |m.entries| == 3
  {
    hide Insert, Mirror;
    m := new Limited(0);
    m.Add(1, 10);
    m.Add(2, 20);
    assert m.entries == map[1 := 10, 2 := 20];
    assert m.entries.Keys == {1, 2} && |m.entries.Keys| == |m.entries|;
    m.SetMaxSize(2);
    assert m.entries.Keys == {1, 2} by { SubsetFull(m.entries.Keys, {1, 2}); }
    m.Add(3, 30);
    assert m.entries.Keys == {1, 2, 3} && |m.entries.Keys| == |m.entries|;
  }
}
