/** One step of each limb loop, in terms of the numbers involved. */
module LimbSteps {
  import opened Powers
  import opened Limbs

  lemma Val64(s: seq<Limb>)
    requires |s| == WIDTH && forall k :: 2 <= k < WIDTH ==> s[k] == 0
    ensures Val(s) == s[0] + s[1] * LIMB
  {
    ValSplit(s, 2);
    ValZero(s[2..]);
    ValSnoc(s, 0);
    ValSnoc(s, 1);
    assert s[..0] == [];
    assert Pow(LIMB, 1) == LIMB * Pow(LIMB, 0);
  }

  /** One column of an addition. */
  lemma AddStep(s: seq<Limb>, x: seq<Limb>, y: seq<Limb>, i: nat, carry: nat, n: nat)
    requires i < |s| == |x| == |y| && n == carry + x[i] + y[i]
    requires Val(s[..i]) + carry * Pow(LIMB, i) == Val(x[..i]) + Val(y[..i])
    ensures Val(s[i := n % LIMB][..i + 1]) + (n / LIMB) * Pow(LIMB, i + 1) == Val(x[..i + 1]) + Val(y[..i + 1])
  {
    hide Val, Pow;
    var p := Pow(LIMB, i);
    PowNext(LIMB, i);
    ValSnoc(x, i);
    ValSnoc(y, i);
    ValSnoc(s[i := n % LIMB], i);
    assert s[i := n % LIMB][..i] == s[..i];
    MulDist(carry + x[i], y[i], p);
    MulDist(carry, x[i], p);
    ColumnSplit(n, p);
  }

  /** Splitting a column into a limb and a carry. */
  lemma ColumnSplit(n: nat, p: nat)
    ensures n * p == (n % LIMB) * p + (n / LIMB) * (LIMB * p)
  {
    DivMod(n, LIMB);
    MulDist((n / LIMB) * LIMB, n % LIMB, p);
    MulAssoc(n / LIMB, LIMB, p);
  }

  /** The 64-bit accumulator never overflows. */
  lemma MulFits(a: Limb, b: Limb, carry: Limb, limb: Limb)
    ensures carry + limb + a * b < LIMB * LIMB
    ensures (carry + limb + a * b) / LIMB < LIMB
  {
    MulMono(a, LIMB - 1, b);
    MulMono(b, LIMB - 1, LIMB - 1);
  }

  lemma MulStep(s: seq<Limb>, x: seq<Limb>, i: nat, b: nat, carry: nat, n: nat)
    requires i < |s| == |x| && n == carry + b * x[i]
    requires Val(s[..i]) + carry * Pow(LIMB, i) == Val(x[..i]) * b
    ensures Val(s[i := n % LIMB][..i + 1]) + (n / LIMB) * Pow(LIMB, i + 1) == Val(x[..i + 1]) * b
  {
    hide Val, Pow;
    var p := Pow(LIMB, i);
    ValSnoc(x, i);
    ValSnoc(s[i := n % LIMB], i);
    PowNext(LIMB, i);
    assert s[i := n % LIMB][..i] == s[..i];
    MulDist(carry, b * x[i], p);
    MulDist(Val(x[..i]), x[i] * p, b);
    MulShuffle(x[i], p, b);
    assert (b * x[i]) * p == (x[i] * p) * b;
    ColumnSplit(n, p);
  }

  lemma ModulusPos()
    ensures Modulus() > 0
  {
    PowPos(LIMB, WIDTH);
  }

  /** The increment stops at limb `i`; below it the full limbs have become zero. */
  lemma RippleUp(x: seq<Limb>, s: seq<Limb>, i: nat)
    requires |x| == |s| == WIDTH && i < WIDTH
    requires forall k :: 0 <= k < i ==> s[k] == 0 && x[k] == LIMB - 1
    requires s[i] == (x[i] + 1) % LIMB && (s[i] != 0 || i == WIDTH - 1) && forall k :: i < k < WIDTH ==> s[k] == x[k]
    ensures Val(s) == (Val(x) + 1) % Modulus()
  {
    hide Val, Pow, Modulus;
    var p := Pow(LIMB, i);
    ValFull(x[..i]);
    ValZero(s[..i]);
    Ripple(x, s, i);
    ValueBound(s);
    ValueBound(x);
    if x[i] == LIMB - 1 {
      TopLimb(i);
      MulDist(LIMB, 1, p);
      assert Val(s) == Val(x) + 1 - Modulus();
    } else {
      MulDist(x[i], 1, p);
      assert Val(s) == Val(x) + 1;
    }
    NearMod(Val(x) + 1, Val(s), Modulus());
  }

  lemma ValueBound(s: seq<Limb>)
    requires |s| == WIDTH
    ensures Val(s) < Modulus()
  {
    ValBound(s);
  }

  /** The decrement stops at limb `i`; below it the zero limbs have become full. */
  lemma RippleDown(x: seq<Limb>, s: seq<Limb>, i: nat)
    requires |x| == |s| == WIDTH && i < WIDTH
    requires forall k :: 0 <= k < i ==> s[k] == LIMB - 1 && x[k] == 0
    requires s[i] == (x[i] - 1) % LIMB && (s[i] != LIMB - 1 || i == WIDTH - 1) && forall k :: i < k < WIDTH ==> s[k] == x[k]
    ensures Val(s) == (Val(x) - 1) % Modulus()
  {
    hide Val, Pow, Modulus;
    var p := Pow(LIMB, i);
    ValZero(x[..i]);
    ValFull(s[..i]);
    Ripple(x, s, i);
    ValueBound(s);
    ValueBound(x);
    if x[i] == 0 {
      TopLimb(i);
      MulDist(LIMB, 1, p);
      assert Val(s) == Val(x) - 1 + Modulus();
    } else {
      MulDist(x[i], 1, p);
      assert Val(s) == Val(x) - 1;
    }
    NearMod(Val(x) - 1, Val(s), Modulus());
  }

  /** A residue that is off by at most one modulus. */
  lemma NearMod(v: int, s: nat, m: nat)
    requires s < m && (s == v || s == v + m || s == v - m)
    ensures s == v % m
  {
    if s == v {
      DivUnique(v, m, 0, s);
    } else if s == v + m {
      DivUnique(v, m, -1, s);
    } else {
      DivUnique(v, m, 1, s);
    }
  }

  lemma TopLimb(i: nat)
    requires i == WIDTH - 1
    ensures Modulus() == LIMB * Pow(LIMB, i)
  {
  }

  /** Values of two numbers that agree above limb `i`. */
  lemma Ripple(x: seq<Limb>, s: seq<Limb>, i: nat)
    requires |x| == |s| && i < |x| && forall k :: i < k < |x| ==> s[k] == x[k]
    ensures Val(s) - Val(x) == Val(s[..i]) - Val(x[..i]) + s[i] * Pow(LIMB, i) - x[i] * Pow(LIMB, i)
  {
    hide Val, Pow;
    ValSplit(x, i + 1);
    ValSplit(s, i + 1);
    assert x[i + 1..] == s[i + 1..];
    ValSnoc(x, i);
    ValSnoc(s, i);
  }

  lemma NegateMod(x: nat)
    requires x < Modulus()
    ensures (Modulus() - 1 - x + 1) % Modulus() == (0 - x) % Modulus()
  {
    hide Modulus;
    ModAdd(0 - x, 1, Modulus());
  }

  lemma SubMod(x: nat, y: nat)
    requires Modulus() > 0
    ensures (x + (0 - y) % Modulus()) % Modulus() == (x - y) % Modulus()
  {
    hide Modulus;
    DivMod(0 - y, Modulus());
    ModAdd(x + (0 - y) % Modulus(), (0 - y) / Modulus(), Modulus());
  }

  // ---------------------------------------------------------------- full multiplication

  /** One column of row `j`: `n` is the accumulator at limb `i + j`. */
  lemma MulRowStep(s: seq<Limb>, start: seq<Limb>, y: seq<Limb>, i: nat, j: nat, xj: nat, carry: nat, n: nat)
    requires |s| == |start| == |y| && i + j < |s| && s[i + j] == start[i + j] && n == carry + s[i + j] + xj * y[i]
    requires Val(s[..i + j]) + carry * Pow(LIMB, i + j) == Val(start[..i + j]) + xj * Val(y[..i]) * Pow(LIMB, j)
    ensures Val(s[i + j := n % LIMB][..i + j + 1]) + (n / LIMB) * Pow(LIMB, i + j + 1)
            == Val(start[..i + j + 1]) + xj * Val(y[..i + 1]) * Pow(LIMB, j)
  {
    hide Val, Pow;
    var k := i + j;
    var p, u := Pow(LIMB, k), s[k := n % LIMB];
    PowNext(LIMB, k);
    ValSnoc(start, k);
    ValSnoc(y, i);
    ValSnoc(u, k);
    assert u[..k] == s[..k];
    PowAdd(LIMB, i, j);
    RowTerm(xj, Val(y[..i]), y[i], Pow(LIMB, i), Pow(LIMB, j));
    MulDist(carry + s[k], xj * y[i], p);
    MulDist(carry, s[k], p);
    ColumnSplit(n, p);
  }

  lemma RowTerm(xj: int, v: int, yi: int, pi: int, pj: int)
    ensures xj * (v + yi * pi) * pj == xj * v * pj + (xj * yi) * (pi * pj)
  {
    MulDist(v, yi * pi, xj);
    MulDist(xj * v, xj * (yi * pi), pj);
    MulAssoc(xj, yi, pi);
    MulAssoc(xj * yi, pi, pj);
  }

  /** A finished row adds `xj` times the whole of `y`, up to multiples of the modulus. */
  lemma MulRowDone(start: nat, after: nat, carry: nat, q: nat, x: seq<Limb>, y: seq<Limb>, j: nat) returns (q': nat)
    requires |x| == |y| == WIDTH && j < WIDTH
    requires start + q * Modulus() == Val(x[..j]) * Val(y)
    requires after + carry * Modulus() == start + x[j] * Val(y[..WIDTH - j]) * Pow(LIMB, j)
    ensures after + q' * Modulus() == Val(x[..j + 1]) * Val(y)
  {
    hide Val, Pow, Modulus;
    ValSnoc(x, j);
    ValSplit(y, WIDTH - j);
    ModulusSplit(j);
    var lo, hi := Val(y[..WIDTH - j]), Val(y[WIDTH - j..]);
    q' := q + carry + x[j] * hi;
    RowWrap(x[j], lo, hi, Pow(LIMB, WIDTH - j), Pow(LIMB, j));
    MulDist(Val(x[..j]), x[j] * Pow(LIMB, j), Val(y));
    MulDist(q, carry, Modulus());
    MulDist(q + carry, x[j] * hi, Modulus());
  }

  lemma ModulusSplit(j: nat)
    requires j <= WIDTH
    ensures Modulus() == Pow(LIMB, WIDTH - j) * Pow(LIMB, j)
  {
    PowAdd(LIMB, WIDTH - j, j);
  }

  lemma RowWrap(xj: int, lo: int, hi: int, p: int, pj: int)
    ensures (xj * pj) * (lo + p * hi) == xj * lo * pj + (xj * hi) * (p * pj)
  {
    MulDist(lo, p * hi, xj * pj);
    assert (xj * pj) * lo == xj * lo * pj;
    assert (xj * pj) * (p * hi) == (xj * hi) * (p * pj) by {
      MulShuffle4(xj, pj, p, hi);
    }
  }

  lemma MulShuffle4(a: int, b: int, c: int, d: int)
    ensures (a * b) * (c * d) == (a * d) * (c * b)
  {
    assert (a * b) * (c * d) == a * (b * (c * d));
    assert b * (c * d) == d * (c * b);
    assert a * (d * (c * b)) == (a * d) * (c * b);
  }

  // ---------------------------------------------------------------- shifts

  lemma PowTwoLimb(r: nat)
    requires r <= 32
    ensures LIMB == Pow(2, r) * Pow(2, 32 - r)
    ensures Pow(2, r) > 0
  {
    PowAdd(2, r, 32 - r);
    PowPos(2, r);
    TwoTo32();
  }

  lemma TwoTo32()
    ensures Pow(2, 32) == LIMB
  {
    assert Pow(2, 8) == 256;
    PowAdd(2, 8, 8);
    PowAdd(2, 16, 16);
  }

  lemma LimbPow(k: nat)
    ensures Pow(LIMB, k) == Pow(2, 32 * k)
  {
    TwoTo32();
    PowMul(2, 32, k);
  }

  /** A limb times a power of two, split at a limb boundary. */
  lemma LimbParts(x: Limb, two: nat, rest: nat)
    requires two > 0 && rest > 0 && two * rest == LIMB
    ensures (x * two) / LIMB == x / rest && (x * two) % LIMB == (x % rest) * two
    ensures (x % rest) * two <= LIMB - two && x / rest < two && x / rest < LIMB
  {
    var hi, lo := x / rest, x % rest;
    DivMod(x, rest);
    MulDist(hi * rest, lo, two);
    MulAssoc(hi, rest, two);
    assert x * two == hi * LIMB + lo * two;
    MulMono(lo, rest - 1, two);
    MulDist(rest, 1, two);
    DivUnique(x * two, LIMB, hi, lo * two);
    if hi >= two {
      MulMono(two, hi, rest);
    }
    MulMono(1, rest, hi);
  }

  lemma MultipleMod(lo: nat, two: nat)
    requires two > 0
    ensures (lo * two) % two == 0
  {
    DivUnique(lo * two, two, lo, 0);
  }

  /** The two limbs a shifted limb falls apart into. */
  lemma ShiftedLimb(x: Limb, r: nat)
    requires r < 32
    ensures var two := Pow(2, r);
            && two > 0 && (x * two) / LIMB < two && (x * two) % LIMB % two == 0 && (x * two) % LIMB <= LIMB - two
            && Pow(2, 32 - r) > 0 && x / Pow(2, 32 - r) == (x * two) / LIMB < LIMB
            && (r == 0 ==> (x * two) / LIMB == 0)
  {
    hide Pow;
    PowTwoLimb(r);
    PowTwoLimb(32 - r);
    LimbParts(x, Pow(2, r), Pow(2, 32 - r));
    MultipleMod(x % Pow(2, 32 - r), Pow(2, r));
    if r == 0 { assert Pow(2, 0) == 1 by { PowZero(2); } }
  }

  /** Or-ing the low part of a shifted limb into what the previous limb left above. */
  lemma OrShifted(a: Limb, lo: Limb, r: nat)
    requires r < 32 && a < Pow(2, r) && lo <= LIMB - Pow(2, r) && Pow(2, r) > 0 && lo % Pow(2, r) == 0
    ensures Or(a, lo) == a + lo < LIMB
  {
    OrDisjoint(a, lo, r);
  }

  /** The state of `<<=` after `i` source limbs: the partial product, up to multiples of the modulus. */
  ghost predicate LeftShifted(s: seq<Limb>, x: seq<Limb>, i: nat, k: nat, r: nat, q: nat)
    requires |s| == |x| == WIDTH && i <= WIDTH
  {
    && Val(s) + q * Modulus() == Val(x[..i]) * Pow(2, r) * Pow(LIMB, k)
    && (forall m :: i + k < m < WIDTH ==> s[m] == 0)
    && (i + k < WIDTH ==> s[i + k] < Pow(2, r))
  }

  lemma LeftTerm(v: int, xi: int, pi: int, two: int, pk: int)
    ensures (v + xi * pi) * two * pk == v * two * pk + (xi * two) * (pi * pk)
  {
    MulDist(v, xi * pi, two);
    MulDist(v * two, (xi * pi) * two, pk);
    assert (xi * pi) * two == (xi * two) * pi;
    MulAssoc(xi * two, pi, pk);
  }

  /** How much the right-hand side of LeftShifted grows with limb `i`. */
  lemma LeftGrowth(x: seq<Limb>, i: nat, k: nat, r: nat)
    requires i < |x|
    ensures Val(x[..i + 1]) * Pow(2, r) * Pow(LIMB, k)
            == Val(x[..i]) * Pow(2, r) * Pow(LIMB, k) + (x[i] * Pow(2, r)) * Pow(LIMB, i + k)
  {
    hide Val, Pow;
    ValSnoc(x, i);
    PowAdd(LIMB, i, k);
    LeftTerm(Val(x[..i]), x[i], Pow(LIMB, i), Pow(2, r), Pow(LIMB, k));
  }

  // In the next three lemmas `w` is the source limb shifted by the bits of the distance.

  lemma LeftStepInside(s: seq<Limb>, x: seq<Limb>, i: nat, k: nat, r: nat, q: nat, w: nat, t: seq<Limb>)
    requires |s| == |x| == WIDTH && i + k + 1 < WIDTH && r < 32 && LeftShifted(s, x, i, k, r, q) && w == x[i] * Pow(2, r)
    requires s[i + k] + w % LIMB < LIMB && w / LIMB < LIMB && t == s[i + k + 1 := w / LIMB][i + k := s[i + k] + w % LIMB]
    ensures LeftShifted(t, x, i + 1, k, r, q)
  {
    hide Val, Pow, Modulus;
    var m := i + k;
    var p := Pow(LIMB, m);
    ShiftedLimb(x[i], r);
    ValUpdate(s, m + 1, w / LIMB);
    ValUpdate(s[m + 1 := w / LIMB], m, s[m] + w % LIMB);
    PowNext(LIMB, m);
    ColumnSplit(w, p);
    assert Val(t) == Val(s) + w * p;
    LeftGrowth(x, i, k, r);
  }

  lemma LeftStepTop(s: seq<Limb>, x: seq<Limb>, i: nat, k: nat, r: nat, q: nat, w: nat, t: seq<Limb>)
    requires |s| == |x| == WIDTH && i + k + 1 == WIDTH && r < 32 && LeftShifted(s, x, i, k, r, q) && w == x[i] * Pow(2, r)
    requires s[i + k] + w % LIMB < LIMB && t == s[i + k := s[i + k] + w % LIMB]
    ensures LeftShifted(t, x, i + 1, k, r, q + w / LIMB)
  {
    hide Val, Pow;
    var m := i + k;
    ShiftedLimb(x[i], r);
    ValUpdate(s, m, s[m] + w % LIMB);
    TopLimb(m);
    ColumnSplit(w, Pow(LIMB, m));
    LeftGrowth(x, i, k, r);
    LeftAccount(Val(t), q, Modulus(), Val(t) + q * Modulus(), w / LIMB);
  }

  lemma LeftStepBeyond(s: seq<Limb>, x: seq<Limb>, i: nat, k: nat, r: nat, q: nat, w: nat, lost: nat)
    requires |s| == |x| == WIDTH && i < WIDTH <= i + k && r < 32 && LeftShifted(s, x, i, k, r, q)
    requires w == x[i] * Pow(2, r) && lost == w * Pow(LIMB, i + k - WIDTH)
    ensures LeftShifted(s, x, i + 1, k, r, q + lost)
  {
    hide Val, Pow, Modulus;
    LeftGrowth(x, i, k, r);
    BeyondModulus(w, i + k);
    LeftAccount(Val(s), q, Modulus(), Val(x[..i]) * Pow(2, r) * Pow(LIMB, k), lost);
  }

  lemma LeftAccount(v: int, q: int, m: int, rhs: int, more: int)
    requires v + q * m == rhs
    ensures v + (q + more) * m == rhs + more * m
  {
    MulDist(q, more, m);
  }

  lemma BeyondModulus(w: nat, m: nat)
    requires m >= WIDTH
    ensures w * Pow(LIMB, m) == (w * Pow(LIMB, m - WIDTH)) * Modulus()
  {
    hide Pow;
    PowAdd(LIMB, m - WIDTH, WIDTH);
    MulAssoc(w, Pow(LIMB, m - WIDTH), Modulus());
  }

  /** The target limbs after one source limb of `<<=`. */
  function LeftLimb(s: seq<Limb>, x: Limb, i: nat, k: nat, r: nat): (t: seq<Limb>)
    requires |s| == WIDTH && r < 32 && (i + k < WIDTH ==> s[i + k] < Pow(2, r)) && (i + k + 1 < WIDTH ==> s[i + k + 1] == 0)
    ensures |t| == WIDTH
  {
    hide Pow;
    ShiftedLimb(x, r);
    var s1 := if i + k + 1 < WIDTH && r != 0 then s[i + k + 1 := Or(s[i + k + 1], x / Pow(2, 32 - r))] else s;
    if i + k < WIDTH then
      OrShifted(s[i + k], (x * Pow(2, r)) % LIMB, r);
      s1[i + k := Or(s1[i + k], (x * Pow(2, r)) % LIMB)]
    else s1
  }

  lemma LeftStep(s: seq<Limb>, x: seq<Limb>, i: nat, k: nat, r: nat, q: nat) returns (q': nat)
    requires |s| == |x| == WIDTH && i < WIDTH && r < 32 && LeftShifted(s, x, i, k, r, q)
    ensures LeftShifted(LeftLimb(s, x[i], i, k, r), x, i + 1, k, r, q')
  {
    hide Pow, Val, Modulus, LeftShifted;
    LeftShape(s, x, i, k, r, q);
    var t := LeftLimb(s, x[i], i, k, r);
    var w := x[i] * Pow(2, r);
    ShiftedLimb(x[i], r);
    if i + k + 1 < WIDTH {
      OrShifted(s[i + k], w % LIMB, r);
      assert t == s[i + k + 1 := w / LIMB][i + k := s[i + k] + w % LIMB];
      LeftStepInside(s, x, i, k, r, q, w, t);
      q' := q;
    } else if i + k + 1 == WIDTH {
      OrShifted(s[i + k], w % LIMB, r);
      LeftStepTop(s, x, i, k, r, q, w, t);
      q' := q + w / LIMB;
    } else {
      var e := Pow(LIMB, i + k - WIDTH);
      MulMono(0, w, e);
      var lost: nat := w * e;
      LeftStepBeyond(s, x, i, k, r, q, w, lost);
      q' := q + lost;
    }
  }

  lemma LeftShape(s: seq<Limb>, x: seq<Limb>, i: nat, k: nat, r: nat, q: nat)
    requires |s| == |x| == WIDTH && i < WIDTH && LeftShifted(s, x, i, k, r, q)
    ensures (i + k < WIDTH ==> s[i + k] < Pow(2, r)) && (i + k + 1 < WIDTH ==> s[i + k + 1] == 0)
  {
  }

  lemma LeftStart(s: seq<Limb>, x: seq<Limb>, k: nat, r: nat)
    requires |s| == |x| == WIDTH && forall m :: 0 <= m < WIDTH ==> s[m] == 0
    ensures LeftShifted(s, x, 0, k, r, 0)
  {
    hide Pow, Modulus;
    PowPos(2, r);
    ValZero(s);
    ValZero(x[..0]);
  }

  lemma LeftDone(s: seq<Limb>, x: seq<Limb>, k: nat, r: nat, q: nat)
    requires |s| == |x| == WIDTH && r < 32 && LeftShifted(s, x, WIDTH, k, r, q)
    ensures Modulus() > 0 && Val(s) == (Val(x) * Pow(2, 32 * k + r)) % Modulus()
  {
    hide Val, Pow;
    ModulusPos();
    assert x[..WIDTH] == x;
    LimbPow(k);
    PowAdd(2, r, 32 * k);
    MulAssoc(Val(x), Pow(2, r), Pow(LIMB, k));
    ValBound(s);
    DivUnique(Val(x) * Pow(2, 32 * k + r), Modulus(), q, Val(s));
  }

  /** The state of `>>=` after `i` source limbs: the shifted value of the limbs seen so far, exactly. */
  ghost predicate RightShifted(s: seq<Limb>, x: seq<Limb>, i: nat, k: nat, r: nat)
    requires |s| == |x| == WIDTH && i <= WIDTH && r < 32
  {
    && Pow(LIMB, k) * Pow(2, r) > 0
    && Val(s) == Val(x[..i]) / (Pow(LIMB, k) * Pow(2, r))
    && (forall m :: 0 <= m < WIDTH && m >= i - k ==> s[m] == 0)
    && (i > k ==> s[i - k - 1] < Pow(2, 32 - r))
  }

  lemma ShiftPos(k: nat, r: nat)
    ensures Pow(LIMB, k) > 0 && Pow(2, r) > 0 && Pow(LIMB, k) * Pow(2, r) > 0
  {
    PowPos(LIMB, k);
    PowPos(2, r);
    MulPos(Pow(LIMB, k), Pow(2, r));
  }

  lemma RightStart(s: seq<Limb>, x: seq<Limb>, k: nat, r: nat)
    requires |s| == |x| == WIDTH && r < 32 && forall m :: 0 <= m < WIDTH ==> s[m] == 0
    ensures RightShifted(s, x, 0, k, r)
  {
    ShiftPos(k, r);
    ValZero(s);
    assert x[..0] == [];
    DivUnique(0, Pow(LIMB, k) * Pow(2, r), 0, 0);
  }

  /** Limbs below the shift vanish. */
  lemma RightStepBelow(s: seq<Limb>, x: seq<Limb>, i: nat, k: nat, r: nat)
    requires |s| == |x| == WIDTH && r < 32 && i < WIDTH && i < k && RightShifted(s, x, i, k, r)
    ensures RightShifted(s, x, i + 1, k, r)
  {
    hide Val, Pow;
    ShiftPos(k, r);
    RightSmall(x, i, k, r);
    RightSmall(x, i + 1, k, r);
  }

  lemma RightSmall(x: seq<Limb>, i: nat, k: nat, r: nat)
    requires i <= |x| && i <= k && Pow(LIMB, k) * Pow(2, r) > 0
    ensures Val(x[..i]) / (Pow(LIMB, k) * Pow(2, r)) == 0
  {
    hide Val, Pow;
    ShiftPos(k, r);
    ValBound(x[..i]);
    PowMono(LIMB, i, k);
    MulMono(1, Pow(2, r), Pow(LIMB, k));
    DivUnique(Val(x[..i]), Pow(LIMB, k) * Pow(2, r), 0, Val(x[..i]));
  }

  /** The first limb that survives loses its low bits. */
  lemma RightStepFirst(s: seq<Limb>, x: seq<Limb>, i: nat, r: nat, y: Limb, t: seq<Limb>)
    requires |s| == |x| == WIDTH && r < 32 && i < WIDTH && RightShifted(s, x, i, i, r) && Pow(2, r) > 0
    requires s[0] == 0 && x[i] / Pow(2, r) == y && t == s[0 := y]
    ensures RightShifted(t, x, i + 1, i, r)
  {
    hide Val, Pow;
    var p, two := Pow(LIMB, i), Pow(2, r);
    ShiftPos(i, r);
    RightSmall(x, i, i, r);
    ValUpdate(s, 0, x[i] / two);
    assert Pow(LIMB, 0) == 1 by { PowZero(LIMB); }
    ValSnoc(x, i);
    ValBound(x[..i]);
    DivUnique(Val(x[..i + 1]), p, x[i], Val(x[..i]));
    DivDiv(Val(x[..i + 1]), p, two);
    RightLimb(x[i], r);
  }

  /** The parts of a limb shifted right. */
  lemma RightLimb(x: Limb, r: nat)
    requires r < 32
    ensures var rest := Pow(2, 32 - r);
            && Pow(2, r) > 0 && rest > 0 && x / Pow(2, r) < rest && x / Pow(2, r) < LIMB
            && (x * rest) % LIMB % rest == 0 && (x * rest) % LIMB <= LIMB - rest
            && x * rest == (x / Pow(2, r)) * LIMB + (x * rest) % LIMB
            && (r == 0 ==> (x * rest) % LIMB == 0)
  {
    hide Pow;
    PowTwoLimb(r);
    PowTwoLimb(32 - r);
    LimbParts(x, Pow(2, 32 - r), Pow(2, r));
    MultipleMod(x % Pow(2, r), Pow(2, 32 - r));
    DivMod(x * Pow(2, 32 - r), LIMB);
    if r == 0 { assert Pow(2, 0) == 1 by { PowZero(2); } }
  }

  lemma OrShiftedRight(a: Limb, hi: Limb, r: nat)
    requires r < 32 && a < Pow(2, 32 - r) && hi <= LIMB - Pow(2, 32 - r) && Pow(2, 32 - r) > 0 && hi % Pow(2, 32 - r) == 0
    ensures Or(a, hi) == a + hi < LIMB
  {
    OrDisjoint(a, hi, 32 - r);
  }

  lemma RightStepInside(s: seq<Limb>, x: seq<Limb>, i: nat, k: nat, r: nat, t: seq<Limb>)
    requires |s| == |x| == WIDTH && r < 32 && k < i < WIDTH && RightShifted(s, x, i, k, r) && Pow(2, r) > 0
    requires var m := i - k - 1; var rest := Pow(2, 32 - r);
             && s[m] + (x[i] * rest) % LIMB < LIMB && x[i] / Pow(2, r) < LIMB
             && t == s[m := s[m] + (x[i] * rest) % LIMB][m + 1 := x[i] / Pow(2, r)]
    ensures RightShifted(t, x, i + 1, k, r)
  {
    hide Val, Pow;
    var m, rest, two := i - k - 1, Pow(2, 32 - r), Pow(2, r);
    RightLimb(x[i], r);
    ValUpdate(s, m, s[m] + (x[i] * rest) % LIMB);
    ValUpdate(s[m := s[m] + (x[i] * rest) % LIMB], m + 1, x[i] / two);
    PowNext(LIMB, m);
    MulDist((x[i] / two) * LIMB, (x[i] * rest) % LIMB, Pow(LIMB, m));
    MulAssoc(x[i] / two, LIMB, Pow(LIMB, m));
    assert Val(t) == Val(s) + (x[i] * rest) * Pow(LIMB, m);
    RightQuotient(x, i, k, r);
  }

  /** A limb above the shift contributes a whole multiple of the divisor. */
  lemma RightQuotient(x: seq<Limb>, i: nat, k: nat, r: nat)
    requires k < i < |x| && r < 32 && Pow(LIMB, k) * Pow(2, r) > 0
    ensures Val(x[..i + 1]) / (Pow(LIMB, k) * Pow(2, r))
            == Val(x[..i]) / (Pow(LIMB, k) * Pow(2, r)) + (x[i] * Pow(2, 32 - r)) * Pow(LIMB, i - k - 1)
  {
    hide Val, Pow;
    var d, m := Pow(LIMB, k) * Pow(2, r), i - k - 1;
    ValSnoc(x, i);
    PowAdd(LIMB, k, m + 1);
    PowNext(LIMB, m);
    PowTwoLimb(r);
    var a, b, c, e := Pow(LIMB, k), Pow(LIMB, m), Pow(2, r), Pow(2, 32 - r);
    assert Pow(LIMB, i) == a * ((c * e) * b);
    QuotientTerm(x[i], a, b, c, e);
    ModAdd(Val(x[..i]), (x[i] * e) * b, d);
  }

  lemma QuotientTerm(x: int, a: int, b: int, c: int, e: int)
    ensures x * (a * ((c * e) * b)) == ((x * e) * b) * (a * c)
  {
    assert (c * e) * b == c * (e * b);
    assert a * (c * (e * b)) == (a * c) * (e * b);
    assert x * ((a * c) * (e * b)) == (x * (e * b)) * (a * c);
    assert x * (e * b) == (x * e) * b;
  }

  /** The target limbs after one source limb of `>>=`. */
  function RightLimbs(s: seq<Limb>, x: Limb, i: nat, k: nat, r: nat): (t: seq<Limb>)
    requires |s| == WIDTH && i < WIDTH && r < 32 && (i > k ==> s[i - k - 1] < Pow(2, 32 - r)) && (i >= k ==> s[i - k] == 0)
    ensures |t| == WIDTH
  {
    hide Pow;
    RightLimb(x, r);
    var s1 := if i > k && r != 0 then
                OrShiftedRight(s[i - k - 1], (x * Pow(2, 32 - r)) % LIMB, r);
                s[i - k - 1 := Or(s[i - k - 1], (x * Pow(2, 32 - r)) % LIMB)]
              else s;
    if i >= k then s1[i - k := Or(s1[i - k], x / Pow(2, r))] else s1
  }

  lemma RightStep(s: seq<Limb>, x: seq<Limb>, i: nat, k: nat, r: nat)
    requires |s| == |x| == WIDTH && i < WIDTH && r < 32 && RightShifted(s, x, i, k, r)
    ensures (i > k ==> s[i - k - 1] < Pow(2, 32 - r)) && (i >= k ==> s[i - k] == 0)
    ensures RightShifted(RightLimbs(s, x[i], i, k, r), x, i + 1, k, r)
  {
    hide Pow, Val, RightShifted;
    RightShape(s, x, i, k, r);
    RightLimb(x[i], r);
    var t := RightLimbs(s, x[i], i, k, r);
    if i < k {
      RightStepBelow(s, x, i, k, r);
    } else if i == k {
      RightStepFirst(s, x, i, r, x[i] / Pow(2, r), t);
    } else {
      var m := i - k - 1;
      OrShiftedRight(s[m], (x[i] * Pow(2, 32 - r)) % LIMB, r);
      assert t == s[m := s[m] + (x[i] * Pow(2, 32 - r)) % LIMB][m + 1 := x[i] / Pow(2, r)];
      RightStepInside(s, x, i, k, r, t);
    }
  }

  lemma RightDone(s: seq<Limb>, x: seq<Limb>, k: nat, r: nat)
    requires |s| == |x| == WIDTH && r < 32 && RightShifted(s, x, WIDTH, k, r)
    ensures Pow(2, 32 * k + r) > 0 && Val(s) == Val(x) / Pow(2, 32 * k + r)
  {
    hide Val, Pow;
    assert x[..WIDTH] == x;
    LimbPow(k);
    PowAdd(2, 32 * k, r);
  }

  lemma RightShape(s: seq<Limb>, x: seq<Limb>, i: nat, k: nat, r: nat)
    requires |s| == |x| == WIDTH && i < WIDTH && r < 32 && RightShifted(s, x, i, k, r)
    ensures i >= k ==> s[i - k] == 0
    ensures i > k ==> s[i - k - 1] < Pow(2, 32 - r)
  {
  }

  // ---------------------------------------------------------------- bit length

  /** Position of the highest bit set plus one, or zero. */
  function BitLen(v: nat): nat {
    if v == 0 then 0 else 1 + BitLen(v / 2)
  }

  lemma {:induction false} BitLenBounds(v: nat)
    ensures v < Pow(2, BitLen(v))
    ensures v > 0 ==> BitLen(v) > 0 && Pow(2, BitLen(v) - 1) <= v
  {
    if v > 0 {
      BitLenBounds(v / 2);
      assert BitLen(v) == 1 + BitLen(v / 2);
      if v / 2 > 0 {
        assert Pow(2, BitLen(v) - 1) == 2 * Pow(2, BitLen(v / 2) - 1);
      }
    }
  }

  lemma {:induction false} BitLenUnique(v: nat, n: nat)
    requires Pow(2, n) <= v < Pow(2, n + 1)
    ensures BitLen(v) == n + 1
  {
    if n == 0 {
      assert Pow(2, 1) == 2 * Pow(2, 0);
      assert BitLen(v / 2) == 0;
    } else {
      assert Pow(2, n) == 2 * Pow(2, n - 1) && Pow(2, n + 1) == 2 * Pow(2, n);
      BitLenUnique(v / 2, n - 1);
    }
  }

  lemma BitLenMono(u: nat, v: nat)
    requires BitLen(u) < BitLen(v)
    ensures u < v
  {
    BitLenBounds(u);
    BitLenBounds(v);
    PowMono(2, BitLen(u), BitLen(v) - 1);
  }

  /** The highest limb that is not zero, and its highest bit, give the bit length of the whole. */
  lemma TopBit(s: seq<Limb>, pos: nat, b: nat)
    requires |s| == WIDTH && pos < WIDTH && (forall m :: pos < m < WIDTH ==> s[m] == 0)
    requires Pow(2, b) <= s[pos] < Pow(2, b + 1)
    ensures BitLen(Val(s)) == 32 * pos + b + 1
  {
    hide Val, Pow;
    var p := Pow(LIMB, pos);
    ValSplit(s, pos + 1);
    ValZero(s[pos + 1..]);
    ValSnoc(s, pos);
    ValBound(s[..pos]);
    LimbPow(pos);
    PowAdd(2, 32 * pos, b);
    PowAdd(2, 32 * pos, b + 1);
    var top: nat := s[pos];
    MulMono(Pow(2, b), top, p);
    MulMono(top + 1, Pow(2, b + 1), p);
    MulDist(top, 1, p);
    BitLenUnique(Val(s), 32 * pos + b);
  }

  /** Testing one bit of a limb that has no higher ones. */
  lemma BitTest(x: nat, b: nat)
    requires x < Pow(2, b + 1)
    ensures Pow(2, b) > 0 && ((x / Pow(2, b)) % 2 == 1 <==> x >= Pow(2, b))
  {
    var p := Pow(2, b);
    PowPos(2, b);
    assert Pow(2, b + 1) == 2 * p;
    DivMod(x, p);
    if x >= p { DivUnique(x, p, 1, x - p); } else { DivUnique(x, p, 0, x); }
  }

  // ---------------------------------------------------------------- long division

  /** A number that is a multiple of a high power of two has empty low limbs, and its next limb has empty low bits. */
  lemma LowBitsEmpty(s: seq<Limb>, j: nat, e: nat, c: nat)
    requires |s| == WIDTH && j < WIDTH && e <= 32 && Val(s) == c * Pow(2, 32 * j + e)
    ensures Pow(2, e) > 0 && s[j] % Pow(2, e) == 0
  {
    hide Val, Pow;
    var p, two := Pow(LIMB, j), Pow(2, e);
    LimbPow(j);
    PowAdd(2, e, 32 * j);
    PowPos(2, e);
    PowPos(LIMB, j);
    MulAssoc(c, two, p);
    ValSplit(s, j);
    ValBound(s[..j]);
    DivUnique(Val(s), p, Val(s[j..]), Val(s[..j]));
    DivUnique(Val(s), p, c * two, 0);
    assert Val(s[j..]) == c * two;
    ValSplit(s[j..], 1);
    assert s[j..][..1] == [s[j]];
    ValOne(s[j]);
    PowTwoLimb(e);
    assert Pow(LIMB, 1) == LIMB by { PowLimbOne(); }
    var rest := Val(s[j..][1..]);
    MulAssoc(rest, Pow(2, 32 - e), two);
    assert s[j] == c * two - (rest * Pow(2, 32 - e)) * two;
    MulDist(c, rest * Pow(2, 32 - e), two);
    DivUnique(s[j], two, c - rest * Pow(2, 32 - e), 0);
  }

  lemma ValOne(x: Limb)
    ensures Val([x]) == x
  {
    ValZero([x][..0]);
    assert Pow(LIMB, 0) == 1;
  }

  lemma PowLimbOne()
    ensures Pow(LIMB, 1) == LIMB
  {
    assert Pow(LIMB, 0) == 1;
  }

  /** Setting bit `shift` of a number that has no bits up to and including it: the bit was clear, so or is addition. */
  lemma SetBit(s: seq<Limb>, shift: nat, c: nat)
    requires |s| == WIDTH && shift < 32 * WIDTH && Val(s) == c * Pow(2, shift + 1)
    ensures var j, b := shift / 32, shift % 32;
            && Or(s[j], Pow(2, b)) == s[j] + Pow(2, b) < LIMB
            && !Bit(s[j], b)
            && Val(s[j := s[j] + Pow(2, b)]) == Val(s) + Pow(2, shift)
  {
    hide Val, Pow;
    var j, b := shift / 32, shift % 32;
    LowBitsEmpty(s, j, b + 1, c);
    PowStep(b);
    PowPos(2, b);
    OrDisjoint(Pow(2, b), s[j], b + 1);
    PowTwoLimb(b + 1);
    MultipleBelow(s[j], Pow(2, b + 1), Pow(2, 32 - b - 1));
    ValUpdate(s, j, s[j] + Pow(2, b));
    LimbPow(j);
    PowAdd(2, b, 32 * j);
    ClearBit(s[j], b);
  }

  lemma PowStep(b: nat)
    ensures Pow(2, b + 1) == 2 * Pow(2, b)
  {
  }

  lemma MultipleBelow(x: nat, d: nat, m: nat)
    requires d > 0 && x % d == 0 && x < d * m
    ensures x <= d * m - d
  {
    DivMod(x, d);
    if x / d >= m {
      MulMono(m, x / d, d);
    }
    MulMono(x / d, m - 1, d);
    MulDist(m, 1, d);
  }

  lemma ClearBit(x: nat, b: nat)
    requires Pow(2, b + 1) > 0 && x % Pow(2, b + 1) == 0
    ensures !Bit(x, b)
  {
    var p, q := Pow(2, b), x / Pow(2, b + 1);
    PowPos(2, b);
    DivMod(x, 2 * p);
    MulAssoc(q, 2, p);
    DivUnique(x, p, q * 2, 0);
  }

  /** The aligned divisor: one round of the loop of `/=`. */
  lemma DivRound(n: nat, b: nat, q: nat, num: nat, shift: nat)
    requires n == num + q * b && num < b * Pow(2, shift + 1)
    ensures num >= b * Pow(2, shift) ==> n == (num - b * Pow(2, shift)) + (q + Pow(2, shift)) * b
    ensures num >= b * Pow(2, shift) ==> num - b * Pow(2, shift) < b * Pow(2, shift)
  {
    PowStep(shift);
    MulAssoc(b, 2, Pow(2, shift));
    MulDist(q, Pow(2, shift), b);
  }

  lemma HalveAligned(b: nat, shift: nat)
    requires shift > 0
    ensures (b * Pow(2, shift)) / 2 == b * Pow(2, shift - 1)
  {
    MulAssoc(b, 2, Pow(2, shift - 1));
    DivUnique(b * Pow(2, shift), 2, b * Pow(2, shift - 1), 0);
  }

  lemma BitLenCap(n: nat)
    requires n < Modulus()
    ensures BitLen(n) <= 32 * WIDTH
  {
    hide Pow;
    BitLenBounds(n);
    LimbPow(WIDTH);
    if BitLen(n) > 32 * WIDTH {
      PowMono(2, 32 * WIDTH, BitLen(n) - 1);
    }
  }

  /** Shifting a number left cannot carry it past the bit length it ends up with. */
  lemma ShiftedBelow(b: nat, shift: nat)
    ensures b * Pow(2, shift) < Pow(2, BitLen(b) + shift)
  {
    hide Pow, BitLen;
    BitLenBounds(b);
    PowAdd(2, BitLen(b), shift);
    PowPos(2, shift);
    MulMono(b + 1, Pow(2, BitLen(b)), Pow(2, shift));
    MulDist(b, 1, Pow(2, shift));
  }

  lemma ShiftedAbove(n: nat, b: nat, shift: nat)
    requires b > 0 && BitLen(n) == BitLen(b) + shift
    ensures n < b * Pow(2, shift + 1)
  {
    hide Pow, BitLen;
    BitLenBounds(n);
    BitLenBounds(b);
    PowAdd(2, BitLen(b) - 1, shift + 1);
    MulMono(Pow(2, BitLen(b) - 1), b, Pow(2, shift + 1));
  }

  /** The initial alignment: the shifted divisor stays below 2^256 and one more doubling exceeds the dividend. */
  lemma Alignment(n: nat, b: nat)
    requires n < Modulus() && 0 < b && BitLen(b) <= BitLen(n)
    ensures var shift := BitLen(n) - BitLen(b);
            && shift < 32 * WIDTH && b * Pow(2, shift) < Modulus() && n < b * Pow(2, shift + 1)
  {
    hide Pow, BitLen;
    var shift := BitLen(n) - BitLen(b);
    BitLenCap(n);
    BitLenBounds(b);
    ShiftedBelow(b, shift);
    ShiftedAbove(n, b, shift);
    PowMono(2, BitLen(n), 32 * WIDTH);
    LimbPow(WIDTH);
  }

  /** The quotient keeps its low bits clear as the loop goes down. */
  lemma QuotientBits(q: nat, c: nat, shift: nat) returns (c': nat, c'': nat)
    requires q == c * Pow(2, shift + 1)
    ensures q == c' * Pow(2, shift) && q + Pow(2, shift) == c'' * Pow(2, shift)
  {
    c', c'' := 2 * c, 2 * c + 1;
    PowStep(shift);
    MulAssoc(c, 2, Pow(2, shift));
    MulDist(2 * c, 1, Pow(2, shift));
  }
}
