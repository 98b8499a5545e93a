/** Powers, division facts, and bitwise operations on naturals. */
module Powers {

  function Pow(b: nat, n: nat): nat {
    if n == 0 then 1
    else
      MulNat(b, Pow(b, n - 1));
      b * Pow(b, n - 1)
  }

  lemma PowZero(b: nat)
    ensures Pow(b, 0) == 1
  {
  }

  lemma PowNext(b: nat, n: nat)
    ensures Pow(b, n + 1) == b * Pow(b, n)
  {
  }

  lemma {:induction false} PowPos(b: nat, n: nat)
    requires b > 0
    ensures Pow(b, n) > 0
  {
    if n > 0 {
      PowPos(b, n - 1);
      MulPos(b, Pow(b, n - 1));
    }
  }

  lemma MulPos(x: int, y: int)
    requires x > 0 && y > 0
    ensures x * y > 0
  {
  }

  lemma MulNat(x: nat, y: nat)
    ensures x * y >= 0
  {
  }

  lemma DivNat(x: nat, d: nat)
    requires d > 0
    ensures x / d >= 0
  {
  }

  lemma {:induction false} PowAdd(b: nat, m: nat, n: nat)
    ensures Pow(b, m + n) == Pow(b, m) * Pow(b, n)
  {
    if m > 0 {
      PowAdd(b, m - 1, n);
      assert Pow(b, m + n) == b * (Pow(b, m - 1) * Pow(b, n));
      MulAssoc(b, Pow(b, m - 1), Pow(b, n));
    }
  }

  lemma {:induction false} PowMul(b: nat, m: nat, n: nat)
    ensures Pow(b, m * n) == Pow(Pow(b, m), n)
  {
    if n == 0 {
      assert m * n == 0;
    } else {
      PowMul(b, m, n - 1);
      assert m * n == m + m * (n - 1);
      PowAdd(b, m, m * (n - 1));
    }
  }

  lemma {:induction false} PowMono(b: nat, m: nat, n: nat)
    requires b > 0 && m <= n
    ensures Pow(b, m) <= Pow(b, n)
  {
    if m < n {
      PowMono(b, m, n - 1);
      PowPos(b, n - 1);
      MulMono(1, b, Pow(b, n - 1));
    }
  }

  lemma MulAssoc(x: int, y: int, z: int)
    ensures x * (y * z) == (x * y) * z
  {
  }

  lemma MulMono(x: int, y: int, z: int)
    requires x <= y && 0 <= z
    ensures x * z <= y * z && z * x <= z * y
  {
  }

  lemma MulDist(x: int, y: int, z: int)
    ensures (x + y) * z == x * z + y * z
    ensures (x - y) * z == x * z - y * z
    ensures z * (x + y) == z * x + z * y
  {
  }

  /** Quotient and remainder are determined by their defining property. */
  lemma DivUnique(x: int, d: int, q: int, r: int)
    requires d > 0 && x == q * d + r && 0 <= r < d
    ensures x / d == q && x % d == r
  {
    var q', r' := x / d, x % d;
    assert q' * d + r' == x;
    if q' < q {
      MulMono(q' + 1, q, d);
      MulDist(q', 1, d);
      assert false;
    }
    if q' > q {
      MulMono(q + 1, q', d);
      MulDist(q, 1, d);
      assert false;
    }
  }

  lemma DivMod(x: int, d: int)
    requires d > 0
    ensures x == (x / d) * d + x % d && 0 <= x % d < d
  {
  }

  /** Adding a multiple of the modulus does not change the remainder. */
  lemma ModAdd(x: int, q: int, d: int)
    requires d > 0
    ensures (x + q * d) % d == x % d && (x + q * d) / d == x / d + q
  {
    DivMod(x, d);
    MulDist(x / d, q, d);
    DivUnique(x + q * d, d, x / d + q, x % d);
  }

  lemma DivDiv(x: nat, a: nat, b: nat)
    requires a > 0 && b > 0
    ensures a * b > 0 && x / (a * b) == x / a / b
  {
    MulPos(a, b);
    var q, r := x / a, x % a;
    DivMod(x, a);
    DivMod(q, b);
    var q2, r2 := q / b, q % b;
    MulDist(q2 * b, r2, a);
    MulAssoc(q2, b, a);
    assert a * b == b * a;
    assert x == q2 * (a * b) + (r2 * a + r);
    MulMono(r2, b - 1, a);
    MulDist(b, 1, a);
    assert (b - 1) * a == b * a - a;
    DivUnique(x, a * b, q2, r2 * a + r);
  }

  lemma SmallMod(n: nat, m: nat)
    requires n < m
    ensures n % m == n
  {
  }

  lemma PowersOf256()
    ensures Pow(256, 0) == 1 && Pow(256, 1) == 0x100 && Pow(256, 2) == 0x1_0000 && Pow(256, 3) == 0x100_0000
    ensures Pow(256, 4) == 0x1_0000_0000 && Pow(256, 5) == 0x100_0000_0000 && Pow(256, 6) == 0x1_0000_0000_0000
    ensures Pow(256, 7) == 0x100_0000_0000_0000 && Pow(256, 8) == 0x1_0000_0000_0000_0000
  {
    assert Pow(256, 1) == 256 * Pow(256, 0);
    assert Pow(256, 4) == 256 * Pow(256, 3);
    assert Pow(256, 7) == 256 * Pow(256, 6);
  }

  // ---------------------------------------------------------------- bits

  /** Bitwise or. */
  function Or(x: nat, y: nat): (r: nat)
    decreases x + y
  {
    if x == 0 then y
    else if y == 0 then x
    else 2 * Or(x / 2, y / 2) + (if x % 2 == 1 || y % 2 == 1 then 1 else 0)
  }

  /** When the bits of one operand lie below those of the other, or is addition. */
  lemma {:induction false} OrDisjoint(x: nat, y: nat, e: nat)
    requires x < Pow(2, e) && y % Pow(2, e) == 0
    ensures Or(x, y) == x + y && Or(y, x) == x + y
    decreases e
  {
    if e == 0 {
      assert x == 0;
    } else if x != 0 && y != 0 {
      var h := Pow(2, e - 1);
      DivMod(y, 2 * h);
      var q := y / (2 * h);
      assert y == 2 * (q * h);
      DivUnique(y / 2, h, q, 0);
      OrDisjoint(x / 2, y / 2, e - 1);
    }
  }

  /** Bit `n` of a number. */
  predicate Bit(x: nat, n: nat) {
    PowPos(2, n);
    (x / Pow(2, n)) % 2 == 1
  }
}
