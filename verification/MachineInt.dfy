/** Fixed-width machine integers: ranges, conversions, and the checked conversion of the safe-integer library. */
module MachineInt {
  import opened Common
  import opened Powers

  // ---------------------------------------------------------------- machine integers

  datatype IntType = IntType(signed: bool, bits: nat)

  const I32 := IntType(true, 32)
  const U32 := IntType(false, 32)
  const I64 := IntType(true, 64)
  const U64 := IntType(false, 64)

  predicate Standard(t: IntType) {
    t.bits == 8 || t.bits == 16 || t.bits == 32 || t.bits == 64
  }

  function Span(t: IntType): nat {
    if t.bits == 8 then 0x100 else if t.bits == 16 then 0x1_0000
    else if t.bits == 32 then 0x1_0000_0000 else 0x1_0000_0000_0000_0000
  }

  function MinOf(t: IntType): int { if t.signed then -(Span(t) / 2) else 0 }

  function MaxOf(t: IntType): int { if t.signed then Span(t) / 2 - 1 else Span(t) - 1 }

  predicate Fits(t: IntType, x: int) { MinOf(t) <= x <= MaxOf(t) }

  /** Conversion to a type: the one value of the type congruent to `x`. */
  function Cast(t: IntType, x: int): (r: int)
    ensures Fits(t, r)
  {
    var m := x % Span(t);
    if m > MaxOf(t) then m - Span(t) else m
  }

  lemma CastFacts(t: IntType, x: int)
    ensures Fits(t, x) ==> Cast(t, x) == x
    ensures MaxOf(t) < x <= MaxOf(t) + Span(t) ==> Cast(t, x) == x - Span(t)
    ensures MinOf(t) - Span(t) <= x < MinOf(t) ==> Cast(t, x) == x + Span(t)
  {
    hide Span;
    SpanEven(t, t);
    var d := Span(t);
    if 0 <= x < d {
      DivUnique(x, d, 0, x);
    } else if 0 - d <= x < 0 {
      DivUnique(x, d, -1, x + d);
    } else if d <= x < 2 * d {
      DivUnique(x, d, 1, x - d);
    } else if 0 - 2 * d <= x < 0 - d {
      DivUnique(x, d, -2, x + 2 * d);
    }
  }

  lemma SpanEven(u: IntType, s: IntType)
    requires u.bits == s.bits
    ensures Span(u) == Span(s) > 0 && Span(s) == 2 * (Span(s) / 2)
  {
  }

  /** What an exact operation returns. */
  function Exactly(t: IntType, x: int): Option<int> { if Fits(t, x) then Some(x) else None }

  /** The magnitude of a negative number, without ever forming its negation in a signed type. */
  function Abs(t: IntType, x: int): int {
    if t.bits < 64 then Cast(U32, 0 - Cast(U32, x)) else Cast(U64, 0 - Cast(U64, x))
  }

  lemma AbsExact(t: IntType, x: int)
    requires Standard(t) && t.signed && Fits(t, x) && x < 0
    ensures Abs(t, x) == 0 - x
  {
    hide Cast;
    CastFacts(U32, x);
    CastFacts(U64, x);
    CastFacts(U32, 0 - Cast(U32, x));
    CastFacts(U64, 0 - Cast(U64, x));
  }

  /** SafeCastHelper with the method GetCastMethod selects. */
  function SafeCast(to: IntType, from: IntType, x: int): Option<int> {
    if (to.signed == from.signed && to.bits >= from.bits) || (to.signed && to.bits > from.bits) then Some(Cast(to, x))
    else if (to.signed && !from.signed && from.bits >= to.bits) || (!to.signed && !from.signed && from.bits > to.bits) then
      if x > Cast(from, MaxOf(to)) then None else Some(Cast(to, x))
    else if !to.signed && from.signed && to.bits >= from.bits then
      if x < 0 then None else Some(Cast(to, x))
    else if !to.signed then
      if x > MaxOf(to) || x < 0 then None else Some(Cast(to, x))
    else
      if x > MaxOf(to) || x < MinOf(to) then None else Some(Cast(to, x))
  }

  /** A checked conversion succeeds exactly when the value fits, and keeps it. */
  lemma SafeCastExact(to: IntType, from: IntType, x: int)
    requires Standard(to) && Standard(from) && Fits(from, x)
    ensures SafeCast(to, from, x) == Exactly(to, x)
  {
    hide Cast;
    CastFacts(to, x);
    CastFacts(from, MaxOf(to));
  }

  // ---------------------------------------------------------------- regions of type pairs

  predicate BothUnsigned(t: IntType, u: IntType) { !t.signed && !u.signed }
  predicate BothSigned(t: IntType, u: IntType) { t.signed && u.signed }
  predicate UnsignedSigned(t: IntType, u: IntType) { !t.signed && u.signed }
  predicate SignedUnsigned(t: IntType, u: IntType) { t.signed && !u.signed }

  /** Sizes of the two operands: both below 32 bits; left 32 and right below 64; left below 32 and right 32. */
  predicate Small(t: IntType, u: IntType) { t.bits < 32 && u.bits < 32 }
  predicate Left32(t: IntType, u: IntType) { t.bits == 32 && u.bits < 64 }
  predicate Right32(t: IntType, u: IntType) { t.bits < 32 && u.bits == 32 }
  predicate Left64(t: IntType, u: IntType) { t.bits == 64 && u.bits < 64 }
  predicate Right64(t: IntType, u: IntType) { t.bits < 64 && u.bits == 64 }
  predicate Both64(t: IntType, u: IntType) { t.bits == 64 && u.bits == 64 }

  /** A stored result, converted to the left type, if the test succeeded. */
  function Store(t: IntType, ok: bool, x: int): Option<int> { if ok then Some(Cast(t, x)) else None }

  /** Conversion only looks at the low bits. */
  lemma CastWide(t: IntType, x: int)
    requires Standard(t)
    ensures Cast(t, x + 0x1_0000_0000_0000_0000) == Cast(t, x)
  {
    if t.bits == 8 {
      ModAdd(x, 0x100_0000_0000_0000, 0x100);
    } else if t.bits == 16 {
      ModAdd(x, 0x1_0000_0000_0000, 0x1_0000);
    } else if t.bits == 32 {
      ModAdd(x, 0x1_0000_0000, 0x1_0000_0000);
    } else {
      ModAdd(x, 1, 0x1_0000_0000_0000_0000);
    }
  }

  /** The values of a type by its width: two's complement if it is signed. */
  lemma FitsByWidth(t: IntType, x: int)
    requires Standard(t)
    ensures Fits(t, x) <==> if t.signed then 0 - Pow(2, t.bits - 1) <= x < Pow(2, t.bits - 1) else 0 <= x < Pow(2, t.bits)
  {
    hide Pow;
    PowersOfTwo();
  }

  lemma PowersOfTwo()
    ensures Pow(2, 7) == 0x80 && Pow(2, 8) == 0x100 && Pow(2, 15) == 0x8000 && Pow(2, 16) == 0x1_0000
    ensures Pow(2, 31) == 0x8000_0000 && Pow(2, 32) == 0x1_0000_0000
    ensures Pow(2, 63) == 0x8000_0000_0000_0000 && Pow(2, 64) == 0x1_0000_0000_0000_0000
  {
    assert Pow(2, 2) == 4 && Pow(2, 4) == 16 && Pow(2, 7) == 8 * Pow(2, 4);
    hide Pow;
    PowNext(2, 7);
    PowAdd(2, 8, 7);
    PowNext(2, 15);
    PowAdd(2, 16, 15);
    PowNext(2, 31);
    PowAdd(2, 32, 31);
    PowNext(2, 63);
  }

  /** A conversion keeps the value modulo the width. */
  lemma CastCongruent(t: IntType, x: int)
    requires Standard(t)
    ensures exists q: int :: x == Cast(t, x) + q * Span(t)
  {
    DivMod(x, Span(t));
    var q := x / Span(t);
    if x % Span(t) > MaxOf(t) {
      MulDist(q, 1, Span(t));
      assert x == Cast(t, x) + (q + 1) * Span(t);
    } else {
      assert x == Cast(t, x) + q * Span(t);
    }
  }
}
