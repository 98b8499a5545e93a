/** Small vocabulary shared by the components. */
module Common {

  datatype Option<+T> = None | Some(value: T)

  type Byte = x: nat | x < 256

  /** isspace in the C locale. */
  predicate IsSpace(c: char) {
    c == ' ' || 9 <= c as int <= 13
  }

  predicate AllSpace(s: string) { forall i :: 0 <= i < |s| ==> IsSpace(s[i]) }

  /** How much white space a text starts with. */
  function LeadSpaces(s: string): (n: nat)
    ensures n <= |s| && (forall i :: 0 <= i < n ==> IsSpace(s[i])) && (n < |s| ==> !IsSpace(s[n]))
  {
    if s == [] || !IsSpace(s[0]) then 0 else 1 + LeadSpaces(s[1..])
  }

  lemma LeadSpacesIs(s: string, n: nat)
    requires n <= |s| && (forall i :: 0 <= i < n ==> IsSpace(s[i])) && (n < |s| ==> !IsSpace(s[n]))
    ensures LeadSpaces(s) == n
  {
  }

  /** What GetRand(n) returns for an accepted raw 64-bit draw (0 for an empty range). */
  function Draw(n: nat, raw: nat): (r: nat)
    ensures n > 0 ==> r < n
    ensures n == 0 ==> r == 0
  {
    if n == 0 then 0 else raw % n
  }

  function Reversed<T>(s: seq<T>): seq<T> {
    if s == [] then [] else Reversed(s[1..]) + [s[0]]
  }

  /** An element at the back comes out at the front. */
  lemma {:induction false} ReversedSnoc<T>(s: seq<T>, x: T)
    ensures Reversed(s + [x]) == [x] + Reversed(s)
  {
    if s == [] {
      assert Reversed([x]) == Reversed([x][1..]) + [x];
    } else {
      ReversedSnoc(s[1..], x);
      assert (s + [x])[1..] == s[1..] + [x];
    }
  }

  /** Elements trade places with those as far from the other end. */
  lemma {:induction false} ReversedElement<T>(s: seq<T>, k: nat)
    requires k < |s|
    ensures |Reversed(s)| == |s| && Reversed(s)[k] == s[|s| - 1 - k]
  {
    if |s| == 1 {
      assert Reversed(s[1..]) == [];
    } else {
      var rest := s[1..];
      ReversedElement(rest, if k == |rest| then 0 else k);
    }
  }

  function Min(a: int, b: int): int { if a < b then a else b }

  predicate Distinct<T(==)>(s: seq<T>) {
    forall i, j :: 0 <= i < j < |s| ==> s[i] != s[j]
  }

  lemma {:induction false} FindLeast(s: set<nat>) returns (m: nat)
    requires s != {}
    ensures m in s && forall x :: x in s ==> m <= x
  {
    m :| m in s;
    var t := s - {m};
    if t == {} {
      assert s == {m};
    } else {
      var n := FindLeast(t);
      forall x | x in s ensures (if m < n then m else n) <= x {
        assert x == m || x in t;
      }
      m := if m < n then m else n;
    }
  }

  /** Every non-empty finite set of naturals has a least element. */
  lemma MinExists(s: set<nat>)
    requires s != {}
    ensures exists m :: m in s && forall x :: x in s ==> m <= x
  {
    var m := FindLeast(s);
  }

  /** The least element of a non-empty set. */
  function Least(s: set<nat>): (m: nat)
    requires s != {}
    ensures m in s && forall x :: x in s ==> m <= x
  {
    MinExists(s);
    var m :| m in s && forall x :: x in s ==> m <= x;
    m
  }

  predicate Increasing(q: seq<nat>) {
    forall i, j :: 0 <= i < j < |q| ==> q[i] < q[j]
  }

  /** The elements of a set in the order in which std::set and std::map iterate. */
  function Ascending(s: set<nat>): (r: seq<nat>)
    ensures |r| == |s|
    decreases |s|
  {
    if s == {} then [] else [Least(s)] + Ascending(s - {Least(s)})
  }

  lemma {:induction false} AscendingMembers(s: set<nat>, x: nat)
    ensures x in Ascending(s) <==> x in s
    decreases |s|
  {
    if s != {} {
      AscendingMembers(s - {Least(s)}, x);
    }
  }

  lemma {:induction false} AscendingIncreasing(s: set<nat>)
    ensures Increasing(Ascending(s))
    decreases |s|
  {
    if s != {} {
      var m := Least(s);
      var rest := Ascending(s - {m});
      AscendingIncreasing(s - {m});
      forall i | 0 <= i < |rest| ensures m < rest[i] {
        AscendingMembers(s - {m}, rest[i]);
      }
    }
  }

  lemma AscendingElements(s: set<nat>)
    ensures forall x :: x in Ascending(s) <==> x in s
    ensures Increasing(Ascending(s))
  {
    hide Ascending;
    forall x ensures x in Ascending(s) <==> x in s { AscendingMembers(s, x); }
    AscendingIncreasing(s);
  }

  /** A set whose elements all come from a sequence is no larger than the sequence. */
  lemma {:induction false} SetFromSeqBound<T>(s: set<T>, q: seq<T>)
    requires forall x :: x in s ==> x in q
    ensures |s| <= |q|
  {
    if |q| == 0 {
      assert s == {};
    } else {
      var last := q[|q| - 1];
      var rest := q[..|q| - 1];
      forall x | x in s - {last} ensures x in rest {
        var i :| 0 <= i < |q| && q[i] == x;
        assert rest[i] == x;
      }
      SetFromSeqBound(s - {last}, rest);
    }
  }

  lemma {:induction false} SubsetCard<T>(a: set<T>, b: set<T>)
    requires a <= b
    ensures |a| <= |b|
  {
    if a != {} {
      var x :| x in a;
      SubsetCard(a - {x}, b - {x});
    }
  }

  lemma {:induction false} SubsetFull<T>(a: set<T>, b: set<T>)
    requires a <= b && |a| == |b|
    ensures a == b
  {
    if x :| x in b && x !in a {
      SubsetCard(a, b - {x});
    }
  }

  lemma MapEmpty<K, V>(m: map<K, V>)
    ensures |m| == 0 <==> m == map[]
  {
    if m != map[] {
      var k :| k in m;
      assert k in m.Keys && |m.Keys| == |m|;
    }
  }

  lemma MapGrown<K, V>(m: map<K, V>, k: K, v: V)
    requires k !in m
    ensures |m[k := v]| == |m| + 1
  {
    assert m[k := v].Keys == m.Keys + {k} && |m[k := v].Keys| == |m[k := v]| && |m.Keys| == |m|;
  }

  function Elems<T>(q: seq<T>): set<T> {
    set x | x in q
  }

  /** A duplicate-free sequence has as many elements as its set of elements. */
  lemma {:induction false} DistinctCard<T>(q: seq<T>)
    requires Distinct(q)
    ensures |Elems(q)| == |q|
  {
    if |q| > 0 {
      var last := q[|q| - 1];
      var rest := q[..|q| - 1];
      DistinctCard(rest);
      assert last !in rest;
      assert q == rest + [last];
      assert Elems(q) == Elems(rest) + {last};
    }
  }
}
