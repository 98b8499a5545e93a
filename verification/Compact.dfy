/** The 32-bit compact form of a 256-bit target, as numbers. */
module Compact {
  import opened Powers
  import opened Limbs
  import opened LimbSteps

  function Mantissa(c: nat): nat { c % 0x80_0000 }

  function Size(c: nat): nat { c / 0x100_0000 }

  predicate SignBit(c: nat) { (c / 0x80_0000) % 2 == 1 }

  /** The mantissa after the right shift that small sizes call for. */
  function Word(c: nat): nat {
    hide Pow, Mantissa, Size;
    if Size(c) <= 3 then
      PowPos(256, 3 - Size(c));
      DivNat(Mantissa(c), Pow(256, 3 - Size(c)));
      Mantissa(c) / Pow(256, 3 - Size(c))
    else Mantissa(c)
  }

  /** The number a compact value stands for, before any truncation to 256 bits. */
  function Target(c: nat): nat {
    hide Pow, Mantissa, Size, Word;
    if Size(c) <= 3 then Word(c)
    else
      MulNat(Mantissa(c), Pow(256, Size(c) - 3));
      Mantissa(c) * Pow(256, Size(c) - 3)
  }

  /** The smallest step between targets of a given size. */
  function Unit(size: nat): nat {
    if size <= 3 then 1 else Pow(256, size - 3)
  }

  lemma UnitPos(size: nat)
    ensures Unit(size) > 0
  {
    if size > 3 { PowPos(256, size - 3); }
  }

  /** Bytes needed for a number. */
  function Bytes(v: nat): nat { (BitLen(v) + 7) / 8 }

  /** The top three bytes. */
  function Top(v: nat): nat {
    hide Pow, Bytes;
    if Bytes(v) <= 3 then
      MulNat(v, Pow(256, 3 - Bytes(v)));
      v * Pow(256, 3 - Bytes(v))
    else
      PowPos(256, Bytes(v) - 3);
      DivNat(v, Pow(256, Bytes(v) - 3));
      v / Pow(256, Bytes(v) - 3)
  }

  /** Mantissa and size: a top bit that would read as a sign is shifted out. */
  function Parts(v: nat): (nat, nat) {
    if Top(v) >= 0x80_0000 then (Top(v) / 256, Bytes(v) + 1) else (Top(v), Bytes(v))
  }

  function Encode(v: nat): nat { Parts(v).0 + Parts(v).1 * 0x100_0000 }

  // ---------------------------------------------------------------- ranges

  lemma Pow256(n: nat)
    ensures Pow(256, n) == Pow(2, 8 * n) && Pow(256, n) > 0
  {
    assert Pow(2, 8) == 256;
    PowMul(2, 8, n);
    PowPos(256, n);
  }

  lemma Modulus256()
    ensures Modulus() == Pow(256, 32)
  {
    LimbPow(WIDTH);
    Pow256(32);
  }

  lemma BytesBounds(v: nat)
    ensures v < Pow(256, Bytes(v))
    ensures v > 0 ==> Bytes(v) > 0 && Pow(256, Bytes(v) - 1) <= v
  {
    hide Pow, BitLen;
    var n := Bytes(v);
    BitLenBounds(v);
    Pow256(n);
    PowMono(2, BitLen(v), 8 * n);
    if v > 0 {
      Pow256(n - 1);
      PowMono(2, 8 * (n - 1), BitLen(v) - 1);
    }
  }

  lemma BytesSmall(v: nat)
    requires v < Modulus()
    ensures Bytes(v) <= 32
  {
    hide Pow, BitLen;
    BitLenCap(v);
  }

  /** The top bytes fill at least two bytes and a bit, at most three. */
  lemma TopBounds(v: nat)
    ensures Top(v) < 0x100_0000 && (v > 0 ==> Top(v) >= 0x1_0000)
  {
    hide Pow, Bytes;
    var n := Bytes(v);
    BytesBounds(v);
    PowersOf256();
    if n <= 3 {
      PowAdd(256, n, 3 - n);
      PowPos(256, 3 - n);
      MulMono(v + 1, Pow(256, n), Pow(256, 3 - n));
      MulDist(v, 1, Pow(256, 3 - n));
      if v > 0 {
        PowAdd(256, n - 1, 3 - n);
        MulMono(Pow(256, n - 1), v, Pow(256, 3 - n));
      }
    } else {
      var u := Pow(256, n - 3);
      PowPos(256, n - 3);
      PowAdd(256, 3, n - 3);
      DivMod(v, u);
      if v / u >= 0x100_0000 {
        MulMono(0x100_0000, v / u, u);
      }
      PowAdd(256, 2, n - 3);
      if v / u < 0x1_0000 {
        MulMono(v / u + 1, 0x1_0000, u);
        MulDist(v / u, 1, u);
      }
    }
  }

  /** Mantissa and size can be read back from the encoding; the sign bit is clear. */
  lemma EncodeParts(v: nat)
    requires v < Modulus()
    ensures Mantissa(Encode(v)) == Parts(v).0 && Size(Encode(v)) == Parts(v).1 && !SignBit(Encode(v))
    ensures Parts(v).0 < 0x80_0000 && Parts(v).1 <= 33 && Encode(v) < 0x1_0000_0000
    ensures v > 0 ==> Parts(v).0 >= 0x8000
  {
    hide Pow, Top, Bytes;
    TopBounds(v);
    BytesSmall(v);
    var m, e := Parts(v).0, Parts(v).1;
    DivUnique(Encode(v), 0x100_0000, e, m);
    DivUnique(Encode(v), 0x80_0000, 2 * e, m);
  }

  // ---------------------------------------------------------------- what encoding keeps

  /** Encoding rounds down to a multiple of the unit of the chosen size; it loses nothing below three bytes. */
  lemma EncodeRoundsDown(v: nat)
    requires v < Modulus()
    ensures Unit(Parts(v).1) > 0
    ensures Target(Encode(v)) == (v / Unit(Parts(v).1)) * Unit(Parts(v).1)
    ensures Parts(v).1 > 3 ==> Parts(v).0 == v / Unit(Parts(v).1)
  {
    hide Pow, Bytes, Parts, Top, Unit, Target, Encode, Mantissa, Size, SignBit;
    var n, e, m := Bytes(v), Parts(v).1, Parts(v).0;
    EncodeParts(v);
    UnitPos(e);
    UnitIs(e);
    PowersOf256();
    PartsAre(v);
    TargetIs(Encode(v), m, e);
    if e <= 3 {
      DivMod(v, 1);
      if e == n {
        ScaleBack(v, Pow(256, 3 - n));
      } else {
        PowAdd(256, 1, 2 - n);
        ScaleDown(v, Pow(256, 2 - n));
        ScaleBack(v, Pow(256, 2 - n));
      }
    } else if e == n + 1 && n > 3 {
      PowPos(256, n - 3);
      PowAdd(256, n - 3, 1);
      DivDiv(v, Pow(256, n - 3), 256);
    }
  }

  // The definitions, case by case.

  lemma PartsAre(v: nat)
    ensures Bytes(v) <= 3 ==> Top(v) == v * Pow(256, 3 - Bytes(v))
    ensures Bytes(v) > 3 ==> Pow(256, Bytes(v) - 3) > 0 && Top(v) == v / Pow(256, Bytes(v) - 3)
    ensures Parts(v) == if Top(v) >= 0x80_0000 then (Top(v) / 256, Bytes(v) + 1) else (Top(v), Bytes(v))
  {
    hide Bytes;
    if Bytes(v) > 3 { PowPos(256, Bytes(v) - 3); }
  }

  lemma TargetIs(c: nat, m: nat, e: nat)
    requires Mantissa(c) == m && Size(c) == e
    ensures e <= 3 ==> Pow(256, 3 - e) > 0 && Target(c) == m / Pow(256, 3 - e)
    ensures e > 3 ==> Target(c) == m * Pow(256, e - 3)
  {
    hide Mantissa, Size;
    if e <= 3 { PowPos(256, 3 - e); }
  }

  lemma UnitIs(size: nat)
    ensures Unit(size) == if size <= 3 then 1 else Pow(256, size - 3)
  {
  }

  lemma ScaleBack(v: nat, p: nat)
    ensures p > 0 ==> (v * p) / p == v
  {
    if p > 0 { DivUnique(v * p, p, v, 0); }
  }

  lemma ScaleDown(v: nat, p: nat)
    ensures (v * (256 * p)) / 256 == v * p
  {
    assert v * (256 * p) == (v * p) * 256;
    DivUnique(v * (256 * p), 256, v * p, 0);
  }

  lemma FloorBounds(v: nat, u: nat)
    requires u > 0
    ensures (v / u) * u <= v < (v / u) * u + u
  {
    DivMod(v, u);
  }

  /** A multiple of `u` below `v` is below `v` rounded down. */
  lemma FloorGreatest(v: nat, u: nat, k: nat)
    requires u > 0 && k * u <= v
    ensures k * u <= (v / u) * u
  {
    DivMod(v, u);
    if k > v / u {
      MulMono(v / u + 1, k, u);
      MulDist(v / u, 1, u);
    }
    MulMono(k, v / u, u);
  }

  /** A compact value of smaller size is below any properly scaled mantissa of a larger one. */
  lemma SmallerSize(c: nat, e: nat, m: nat)
    requires Size(c) < e && e > 3 && m >= 0x8000
    ensures Target(c) <= m * Unit(e)
  {
    hide Pow;
    var w, s := Mantissa(c), Size(c);
    PowersOf256();
    PowAdd(256, 1, e - 4);
    PowPos(256, e - 4);
    MulMono(0x8000, m, Unit(e));
    assert 0x8000 * Unit(e) == 0x80_0000 * Pow(256, e - 4);
    if s <= 3 {
      PowPos(256, 3 - s);
      DivShrinks(w, Pow(256, 3 - s));
      MulMono(1, Pow(256, e - 4), 0x80_0000);
    } else {
      PowMono(256, s - 3, e - 4);
      MulMono(Pow(256, s - 3), Pow(256, e - 4), w);
      MulMono(w, 0x80_0000, Pow(256, e - 4));
    }
  }

  lemma DivShrinks(w: nat, p: nat)
    requires p > 0
    ensures w / p <= w
  {
    DivMod(w, p);
    MulMono(1, p, w / p);
  }

  /**
   Encoding a target gives the greatest compact-representable value not above it: no 32-bit code stands for a number
   strictly between the two.
   */
  lemma EncodeGreatest(v: nat, c: nat)
    requires v < Modulus() && Target(c) <= v
    ensures Target(c) <= Target(Encode(v)) <= v
  {
    hide Pow, Parts, Encode;
    var e, m := Parts(v).1, Parts(v).0;
    EncodeParts(v);
    EncodeRoundsDown(v);
    var u := Unit(e);
    FloorBounds(v, u);
    if e <= 3 {
      assert Target(Encode(v)) == v;
    } else if Size(c) < e {
      if v > 0 { SmallerSize(c, e, m); }
    } else {
      PowAdd(256, Size(c) - e, e - 3);
      MulAssoc(Mantissa(c), Pow(256, Size(c) - e), u);
      FloorGreatest(v, u, Mantissa(c) * Pow(256, Size(c) - e));
    }
  }

  /** Decoding an encoded target never overflows and never exceeds it. */
  lemma EncodeFits(v: nat)
    requires v < Modulus()
    ensures Target(Encode(v)) <= v < Modulus()
  {
    hide Pow;
    EncodeRoundsDown(v);
    FloorBounds(v, Unit(Parts(v).1));
  }

  lemma EncodeMonotone(u: nat, v: nat)
    requires u <= v < Modulus()
    ensures Target(Encode(u)) <= Target(Encode(v))
  {
    hide Target, Encode;
    EncodeFits(u);
    EncodeGreatest(v, Encode(u));
  }

  /** Encoding what a code decodes to loses nothing, so a second round trip changes nothing. */
  lemma EncodeIdempotent(v: nat)
    requires v < Modulus()
    ensures Target(Encode(Target(Encode(v)))) == Target(Encode(v))
  {
    hide Target, Encode;
    EncodeFits(v);
    EncodeGreatest(Target(Encode(v)), Encode(v));
  }

  /** Every decodable target is a fixed point of the round trip. */
  lemma DecodeEncode(c: nat)
    requires Target(c) < Modulus()
    ensures Target(Encode(Target(c))) == Target(c)
  {
    hide Target, Encode;
    EncodeFits(Target(c));
    EncodeGreatest(Target(c), c);
  }

  // ---------------------------------------------------------------- the overflow flag

  predicate OverflowFlag(c: nat) {
    Word(c) != 0 && (Size(c) > 34 || (Word(c) > 0xff && Size(c) > 33) || (Word(c) > 0xffff && Size(c) > 32))
  }

  /** The flag is raised exactly for codes that stand for a number of more than 256 bits. */
  lemma OverflowExact(c: nat)
    ensures OverflowFlag(c) <==> Target(c) >= Modulus()
  {
    hide Pow;
    var w, s := Mantissa(c), Size(c);
    Modulus256();
    PowersOf256();
    PowPos(256, 32);
    PowAdd(256, 2, 30);
    PowAdd(256, 1, 31);
    if s <= 3 {
      PowPos(256, 3 - s);
      DivShrinks(w, Pow(256, 3 - s));
      PowMono(256, 3, 32);
    } else if s <= 32 {
      PowMono(256, s - 3, 29);
      MulMono(Pow(256, s - 3), Pow(256, 29), w);
      MulMono(w, 0x100_0000 - 1, Pow(256, 29));
      PowAdd(256, 3, 29);
      PowPos(256, 29);
      MulDist(0x100_0000, 1, Pow(256, 29));
    } else if s == 33 {
      OverflowAt(w, 0x1_0000, 30);
    } else if s == 34 {
      OverflowAt(w, 0x100, 31);
    } else if w > 0 {
      PowMono(256, 32, s - 3);
      MulMono(1, w, Pow(256, s - 3));
    }
  }

  lemma OverflowAt(w: nat, bound: nat, n: nat)
    ensures w * Pow(256, n) >= bound * Pow(256, n) <==> w >= bound
  {
    hide Pow;
    PowPos(256, n);
    if w >= bound {
      MulMono(bound, w, Pow(256, n));
    } else {
      MulMono(w + 1, bound, Pow(256, n));
      MulDist(w, 1, Pow(256, n));
    }
  }

  // ---------------------------------------------------------------- the documented form

  /** A sign bit and 23 bits of mantissa under eight bits of exponent: mantissa * 256^(exponent - 3), whole part. */
  lemma TargetIsDocumented(exponent: nat, sign: bool, mantissa: nat)
    requires mantissa < 0x80_0000
    ensures var c := exponent * 0x100_0000 + (if sign then 0x80_0000 else 0) + mantissa;
            && Size(c) == exponent && Mantissa(c) == mantissa && (SignBit(c) <==> sign)
            && (exponent >= 3 ==> Target(c) == mantissa * Pow(256, exponent - 3))
            && (exponent < 3 ==> Target(c) * Pow(256, 3 - exponent) <= mantissa < (Target(c) + 1) * Pow(256, 3 - exponent))
  {
    hide Pow, Target, Word;
    var c := exponent * 0x100_0000 + (if sign then 0x80_0000 else 0) + mantissa;
    DivUnique(c, 0x100_0000, exponent, (if sign then 0x80_0000 else 0) + mantissa);
    DivUnique(c, 0x80_0000, 2 * exponent + (if sign then 1 else 0), mantissa);
    TargetIs(c, mantissa, exponent);
    if exponent < 3 {
      DivMod(mantissa, Pow(256, 3 - exponent));
      MulDist(Target(c), 1, Pow(256, 3 - exponent));
    }
    if exponent == 3 { PowersOf256(); DivMod(mantissa, 1); }
  }

  /** The documentation's two examples. */
  lemma DocumentedExamples()
    ensures Target(0x0512_3456) == 0x12_3456_0000 && Target(0x0600_c0de) == 0xc0_de00_0000
  {
    hide Pow, Target, Mantissa, Size;
    PowersOf256();
    TargetIsDocumented(5, false, 0x12_3456);
    TargetIsDocumented(6, false, 0xc0de);
  }

  /** No sign, two significant bytes or more, and for small exponents no bits that the shift would drop. */
  predicate Normal(c: nat) {
    && !SignBit(c)
    && (c == 0 || (Mantissa(c) >= 0x8000 && Mantissa(c) * Pow(256, Size(c)) == Target(c) * Pow(256, 3)))
  }

  lemma NormalLarge(c: nat)
    requires Size(c) >= 3
    ensures Mantissa(c) * Pow(256, Size(c)) == Target(c) * Pow(256, 3)
  {
    hide Pow, Mantissa, Size, Target;
    var m, e := Mantissa(c), Size(c);
    TargetIs(c, m, e);
    PowersOf256();
    PowAdd(256, e - 3, 3);
    MulAssoc(m, Pow(256, e - 3), Pow(256, 3));
    if e == 3 { DivMod(m, 1); }
  }

  /** An encoding drops nothing of the number it encodes, once rounded. */
  lemma EncodeNormal(v: nat)
    requires v < Modulus()
    ensures Normal(Encode(v))
  {
    hide Pow, Bytes, Parts, Top, Encode, Target, Mantissa, Size, SignBit;
    EncodeParts(v);
    var c, m, e, n := Encode(v), Parts(v).0, Parts(v).1, Bytes(v);
    if v == 0 {
      EncodeZero();
    } else if e >= 3 {
      NormalLarge(c);
    } else {
      PartsAre(v);
      EncodeRoundsDown(v);
      UnitIs(e);
      DivMod(v, 1);
      PowersOf256();
      PowAdd(256, 3 - e, e);
      MulAssoc(v, Pow(256, 3 - e), Pow(256, e));
      if e == n + 1 {
        PowAdd(256, 1, 2 - n);
        ScaleDown(v, Pow(256, 2 - n));
      }
    }
  }

  lemma EncodeZero()
    ensures Encode(0) == 0
  {
    hide Pow;
  }

  /** A number has one normal form. */
  lemma NormalUnique(m: nat, e: nat, m': nat, e': nat)
    requires 0x8000 <= m < 0x80_0000 && 0x8000 <= m' < 0x80_0000 && m * Pow(256, e) == m' * Pow(256, e')
    ensures m == m' && e == e'
  {
    hide Pow;
    if e < e' { NormalNotLower(m, e, m', e'); }
    if e' < e { NormalNotLower(m', e', m, e); }
    PowPos(256, e);
    if m < m' { MulMono(m + 1, m', Pow(256, e)); MulDist(m, 1, Pow(256, e)); }
    if m' < m { MulMono(m' + 1, m, Pow(256, e)); MulDist(m', 1, Pow(256, e)); }
  }

  lemma NormalNotLower(m: nat, e: nat, m': nat, e': nat)
    requires m < 0x80_0000 && 0x8000 <= m' && e < e'
    ensures m * Pow(256, e) < m' * Pow(256, e')
  {
    hide Pow;
    PowPos(256, e);
    PowersOf256();
    PowMono(256, e + 1, e');
    PowAdd(256, 1, e);
    MulMono(Pow(256, e + 1), Pow(256, e'), m');
    MulAssoc(m', 256, Pow(256, e));
    MulMono(m + 1, m' * 256, Pow(256, e));
    MulDist(m, 1, Pow(256, e));
  }

  /** Reading a code and writing it again gives the same code exactly when it is in normal form. */
  lemma EncodeTargetIff(c: nat)
    requires Target(c) < Modulus()
    ensures Encode(Target(c)) == c <==> Normal(c)
  {
    hide Pow, Parts, Encode, Target, Mantissa, Size, SignBit;
    var d := Encode(Target(c));
    EncodeNormal(Target(c));
    DecodeEncode(c);
    if Normal(c) && c != 0 {
      CodeParts(c);
      CodeParts(d);
      TargetPositive(c);
      EncodeParts(Target(c));
      NormalUnique(Mantissa(c), Size(c), Mantissa(d), Size(d));
    }
    if c == 0 {
      TargetZero();
      EncodeZero();
    }
  }

  lemma CodeParts(c: nat)
    ensures Mantissa(c) < 0x80_0000 && c == Size(c) * 0x100_0000 + (if SignBit(c) then 0x80_0000 else 0) + Mantissa(c)
  {
    DivMod(c, 0x80_0000);
    DivMod(c / 0x80_0000, 2);
    DivDiv(c, 0x80_0000, 2);
  }

  lemma TargetZero()
    ensures Target(0) == 0
  {
    hide Pow;
    TargetIs(0, 0, 0);
    DivUnique(0, Pow(256, 3), 0, 0);
  }

  lemma TargetPositive(c: nat)
    requires Mantissa(c) >= 0x8000 && Mantissa(c) * Pow(256, Size(c)) == Target(c) * Pow(256, 3)
    ensures Target(c) > 0
  {
    hide Pow, Target, Mantissa, Size;
    PowPos(256, Size(c));
    MulPos(Mantissa(c), Pow(256, Size(c)));
  }
}
