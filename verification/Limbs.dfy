/** The number a little-endian array of 32-bit limbs stands for, and how it reacts to limb updates. */
module Limbs {
  import opened Powers

  const LIMB: nat := 0x1_0000_0000
  const WIDTH: nat := 8

  type Limb = x: nat | x < LIMB

  function Val(s: seq<Limb>): nat {
    if s == [] then 0
    else
      MulNat(s[|s| - 1], Pow(LIMB, |s| - 1));
      Val(s[..|s| - 1]) + s[|s| - 1] * Pow(LIMB, |s| - 1)
  }

  /** 2 to the 256. */
  function Modulus(): nat { Pow(LIMB, WIDTH) }

  lemma ValSnoc(s: seq<Limb>, i: nat)
    requires i < |s|
    ensures Val(s[..i + 1]) == Val(s[..i]) + s[i] * Pow(LIMB, i)
  {
    assert s[..i + 1][..i] == s[..i];
  }

  lemma {:induction false} ValBound(s: seq<Limb>)
    ensures Val(s) < Pow(LIMB, |s|)
  {
    if s != [] {
      var p := Pow(LIMB, |s| - 1);
      ValBound(s[..|s| - 1]);
      PowPos(LIMB, |s| - 1);
      MulMono(s[|s| - 1], LIMB - 1, p);
      MulDist(LIMB, 1, p);
      assert Pow(LIMB, |s|) == LIMB * p;
    }
  }

  lemma {:induction false} ValUpdate(s: seq<Limb>, i: nat, x: Limb)
    requires i < |s|
    ensures Val(s[i := x]) == Val(s) + (x - s[i]) * Pow(LIMB, i)
  {
    var last := |s| - 1;
    if i < last {
      ValUpdate(s[..last], i, x);
      assert s[i := x][..last] == s[..last][i := x];
    } else {
      assert s[i := x][..last] == s[..last];
      MulDist(x, s[i], Pow(LIMB, i));
    }
  }

  lemma {:induction false} ValZero(s: seq<Limb>)
    requires forall i :: 0 <= i < |s| ==> s[i] == 0
    ensures Val(s) == 0
  {
    if s != [] {
      ValZero(s[..|s| - 1]);
    }
  }

  /** Lower limbs and the rest. */
  lemma {:induction false} ValSplit(s: seq<Limb>, i: nat)
    requires i <= |s|
    ensures Val(s) == Val(s[..i]) + Pow(LIMB, i) * Val(s[i..])
    decreases |s| - i
  {
    if i == |s| {
      assert s[..i] == s;
    } else {
      var last := |s| - 1;
      var front := s[..last];
      if i == last {
        assert s[i..] == [s[last]];
        assert [s[last]][..0] == [];
        assert Val(s[i..]) == s[last];
      } else {
        ValSplitFront(s, i);
      }
    }
  }

  lemma {:induction false} ValSplitFront(s: seq<Limb>, i: nat)
    requires i < |s| - 1
    ensures Val(s) == Val(s[..i]) + Pow(LIMB, i) * Val(s[i..])
    decreases |s|, 0
  {
    var last := |s| - 1;
    var front := s[..last];
    if i == last - 1 {
      assert front[i..] == [s[i]];
      assert [s[i]][..0] == [];
      assert Val(front[i..]) == s[i];
      assert front[..i] == s[..i];
    } else {
      ValSplitFront(front, i);
      assert front[..i] == s[..i];
    }
    assert s[i..][..last - i] == front[i..];
    assert Val(s[i..]) == Val(front[i..]) + s[last] * Pow(LIMB, last - i);
    PowAdd(LIMB, i, last - i);
    MulDist(Val(front[i..]), s[last] * Pow(LIMB, last - i), Pow(LIMB, i));
    MulShuffle(s[last], Pow(LIMB, last - i), Pow(LIMB, i));
  }

  lemma MulShuffle(x: int, y: int, z: int)
    ensures z * (x * y) == x * (z * y) && z * (x * y) == x * (y * z)
  {
  }

  /** All limbs at their maximum. */
  lemma {:induction false} ValFull(s: seq<Limb>)
    requires forall i :: 0 <= i < |s| ==> s[i] == LIMB - 1
    ensures Val(s) == Pow(LIMB, |s|) - 1
  {
    if s != [] {
      ValFull(s[..|s| - 1]);
      MulDist(LIMB, 1, Pow(LIMB, |s| - 1));
    }
  }

  /** Complementing every limb. */
  lemma {:induction false} ValComplement(s: seq<Limb>, t: seq<Limb>)
    requires |s| == |t| && forall i :: 0 <= i < |s| ==> t[i] == LIMB - 1 - s[i]
    ensures Val(s) + Val(t) == Pow(LIMB, |s|) - 1
  {
    if s != [] {
      var last := |s| - 1;
      ValComplement(s[..last], t[..last]);
      MulDist(s[last], t[last], Pow(LIMB, last));
      MulDist(LIMB, 1, Pow(LIMB, last));
    }
  }

  /** Two numbers compare as their highest differing limbs do. */
  lemma ValCompare(s: seq<Limb>, t: seq<Limb>, i: nat)
    requires |s| == |t| && i < |s| && s[i] < t[i] && s[i + 1..] == t[i + 1..]
    ensures Val(s) < Val(t)
  {
    hide Val, Pow;
    ValSplit(s, i + 1);
    ValSplit(t, i + 1);
    ValSnoc(s, i);
    ValSnoc(t, i);
    ValBound(s[..i]);
    PowPos(LIMB, i);
    MulMono(s[i] + 1, t[i], Pow(LIMB, i));
    MulDist(s[i], 1, Pow(LIMB, i));
  }

}
