/** Big-endian digit strings in any base, and the in-place multiply-and-add that converts between bases. */
module Radix {
  import opened Powers

  ghost predicate Digits(base: nat, s: seq<nat>) {
    forall i :: 0 <= i < |s| ==> s[i] < base
  }

  function Num(base: nat, s: seq<nat>): nat {
    if s == [] then 0
    else
      MulNat(Num(base, s[..|s| - 1]), base);
      Num(base, s[..|s| - 1]) * base + s[|s| - 1]
  }

  /** The digits of a number, most significant first, without leading zeroes. */
  function ToBase(base: nat, n: nat): seq<nat>
    requires base >= 2
  {
    if n == 0 then [] else
      DivDecreases(n, base);
      DivNat(n, base);
      ToBase(base, n / base) + [n % base]
  }

  lemma DivDecreases(n: nat, d: nat)
    requires n > 0 && d >= 2
    ensures n / d < n
  {
    DivMod(n, d);
    MulMono(2, d, n / d);
  }

  lemma NumSnoc(base: nat, s: seq<nat>, d: nat)
    ensures Num(base, s + [d]) == Num(base, s) * base + d
  {
    assert (s + [d])[..|s|] == s;
  }

  lemma {:induction false} ToBaseDigits(base: nat, n: nat)
    requires base >= 2
    ensures Digits(base, ToBase(base, n)) && Num(base, ToBase(base, n)) == n
    ensures n > 0 ==> ToBase(base, n) != [] && ToBase(base, n)[0] != 0
  {
    if n > 0 {
      DivDecreases(n, base);
      ToBaseDigits(base, n / base);
      NumSnoc(base, ToBase(base, n / base), n % base);
      DivMod(n, base);
      if n / base == 0 {
        assert ToBase(base, n) == [n % base];
      }
    }
  }

  /** A digit string without leading zero is the canonical one of its number. */
  lemma {:induction false} ToBaseNum(base: nat, s: seq<nat>)
    requires base >= 2 && Digits(base, s) && (s != [] ==> s[0] != 0)
    ensures ToBase(base, Num(base, s)) == s
  {
    hide Num, ToBase;
    if s == [] {
      NumNone(base);
      ToBaseParts(base, 0);
    } else {
      var last := |s| - 1;
      var front := s[..last];
      ToBaseNum(base, front);
      assert s == front + [s[last]];
      NumSnoc(base, front, s[last]);
      DivUnique(Num(base, s), base, Num(base, front), s[last]);
      NumPositive(base, s);
      ToBaseParts(base, Num(base, s));
    }
  }

  lemma NumNone(base: nat)
    ensures Num(base, []) == 0
  {
  }

  lemma ToBaseParts(base: nat, n: nat)
    requires base >= 2
    ensures ToBase(base, n) == if n == 0 then [] else ToBase(base, n / base) + [n % base]
  {
  }

  lemma {:induction false} NumPositive(base: nat, s: seq<nat>)
    requires base >= 2 && s != [] && s[0] != 0
    ensures Num(base, s) > 0
  {
    if |s| > 1 {
      NumPositive(base, s[..|s| - 1]);
      MulPos(Num(base, s[..|s| - 1]), base);
    }
  }

  lemma {:induction false} NumBound(base: nat, s: seq<nat>)
    requires Digits(base, s) && base > 0
    ensures Num(base, s) < Pow(base, |s|)
  {
    if s != [] {
      var front := s[..|s| - 1];
      NumBound(base, front);
      MulMono(Num(base, front) + 1, Pow(base, |front|), base);
      MulDist(Num(base, front), 1, base);
    }
  }

  /** Leading zeroes do not count. */
  lemma {:induction false} NumZeroes(base: nat, s: seq<nat>, z: nat)
    requires z <= |s| && forall i :: 0 <= i < z ==> s[i] == 0
    ensures Num(base, s) == Num(base, s[z..])
    decreases |s|
  {
    if z == |s| {
      if s != [] {
        NumZeroes(base, s[..|s| - 1], z - 1);
        assert s[..|s| - 1][z - 1..] == [];
      }
    } else {
      NumZeroes(base, s[..|s| - 1], z);
      assert s[..|s| - 1][z..] == s[z..][..|s| - z - 1];
    }
  }

  /** Splitting off the lowest `|t|` digits. */
  lemma {:induction false} NumConcat(base: nat, s: seq<nat>, t: seq<nat>)
    ensures Num(base, s + t) == Num(base, s) * Pow(base, |t|) + Num(base, t)
  {
    if t == [] {
      assert s + t == s;
    } else {
      var last := |t| - 1;
      var front := t[..last];
      NumConcat(base, s, front);
      assert s + t == (s + front) + [t[last]] && t == front + [t[last]];
      NumShift(base, s, front, t[last]);
    }
  }

  /** Appending one more digit to a concatenation. */
  lemma NumShift(base: nat, s: seq<nat>, t: seq<nat>, d: nat)
    requires Num(base, s + t) == Num(base, s) * Pow(base, |t|) + Num(base, t)
    ensures Num(base, (s + t) + [d]) == Num(base, s) * Pow(base, |t| + 1) + Num(base, t + [d])
  {
    hide Num, Pow;
    var p := Pow(base, |t|);
    NumSnoc(base, s + t, d);
    NumSnoc(base, t, d);
    PowNext(base, |t|);
    MulDist(Num(base, s) * p, Num(base, t), base);
    MulAssoc(Num(base, s), p, base);
  }

  function LeadingZeroes(s: seq<nat>): (z: nat)
    ensures z <= |s| && (forall i :: 0 <= i < z ==> s[i] == 0) && (z < |s| ==> s[z] != 0)
  {
    if s == [] || s[0] != 0 then 0 else 1 + LeadingZeroes(s[1..])
  }

  /** Digits after the leading zeroes are the canonical digits. */
  lemma StripIsToBase(base: nat, s: seq<nat>)
    requires base >= 2 && Digits(base, s)
    ensures s[LeadingZeroes(s)..] == ToBase(base, Num(base, s))
  {
    var z := LeadingZeroes(s);
    NumZeroes(base, s, z);
    ToBaseNum(base, s[z..]);
  }

  // ---------------------------------------------------------------- in place

  /** `b = b * factor + digit`, digit by digit from the back; the overflow comes back as the carry. */
  method MulAdd(b: array<nat>, base: nat, factor: nat, digit: nat) returns (carry: nat)
    requires base > 0 && Digits(base, b[..])
    modifies b
    ensures Digits(base, b[..])
    ensures Num(base, b[..]) + carry * Pow(base, b.Length) == Num(base, old(b[..])) * factor + digit
  {
    hide Num, Pow;
    ghost var x := b[..];
    carry := digit;
    var i := b.Length;
    assert x[b.Length..] == [] && Num(base, []) == 0 && Pow(base, 0) == 1 by { Empty(base); }
    while i > 0
      invariant 0 <= i <= b.Length && Digits(base, b[..])
      invariant b[..i] == x[..i]
      invariant Num(base, b[i..]) + carry * Pow(base, b.Length - i) == Num(base, x[i..]) * factor + digit
    {
      i := i - 1;
      assert b[i] == b[..i + 1][i] == x[..i + 1][i];
      var n := carry + factor * b[i];
      ghost var tail := b[i + 1..];
      DivMod(n, base);
      MulAddStep(base, x[i..], tail, factor, digit, carry, n);
      b[i] := n % base;
      carry := n / base;
      assert b[i..] == [n % base] + tail;
      assert b[..i] == x[..i];
    }
    assert b[0..] == b[..] && x[0..] == x;
  }

  lemma Empty(base: nat)
    ensures Num(base, []) == 0 && Pow(base, 0) == 1
  {
  }

  lemma NumOne(base: nat, d: nat)
    ensures Num(base, [d]) == d
  {
    assert [d][..0] == [];
  }

  /** One digit of MulAdd: `x` is the old suffix including the digit, `tail` the new one without it. */
  lemma MulAddStep(base: nat, x: seq<nat>, tail: seq<nat>, factor: nat, digit: nat, carry: nat, n: nat)
    requires base > 0 && x != [] && |tail| == |x| - 1 && n == carry + factor * x[0]
    requires Num(base, tail) + carry * Pow(base, |tail|) == Num(base, x[1..]) * factor + digit
    ensures Num(base, [n % base] + tail) + (n / base) * Pow(base, |x|) == Num(base, x) * factor + digit
  {
    hide Num, Pow;
    var p := Pow(base, |tail|);
    var q, r := n / base, n % base;
    assert x == [x[0]] + x[1..] && |x[1..]| == |tail|;
    NumCons(base, x[0], x[1..]);
    NumCons(base, r, tail);
    PowNext(base, |tail|);
    DivMod(n, base);
    ColumnSum(base, p, q, r, factor, x[0], carry, n);
    MulDist(x[0] * p, Num(base, x[1..]), factor);
    assert Num(base, [r] + tail) + q * (base * p) == Num(base, x) * factor + digit;
  }

  lemma NumCons(base: nat, d: nat, s: seq<nat>)
    ensures Num(base, [d] + s) == d * Pow(base, |s|) + Num(base, s)
  {
    hide Num, Pow;
    NumConcat(base, [d], s);
    NumOne(base, d);
  }

  /** One column: what it leaves and carries on is what came in. */
  lemma ColumnSum(base: int, p: int, q: int, r: int, factor: int, x: int, carry: int, n: int)
    requires n == q * base + r && n == carry + factor * x
    ensures r * p + q * (base * p) == carry * p + (x * p) * factor
  {
    MulDist(q * base, r, p);
    MulAssoc(q, base, p);
    MulDist(carry, factor * x, p);
    MulSwap(factor, x, p);
  }

  lemma MulSwap(f: int, x: int, p: int)
    ensures (f * x) * p == (x * p) * f
  {
  }
}
