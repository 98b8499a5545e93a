/** Checked subtraction in fixed-width machine arithmetic. */
module SafeSubtraction {
  // A helper for each region of type pairs works in a width chosen at compile time; together they store the exact
  // difference, or report exactly that it does not fit the left type.
  import opened Common
  import opened MachineInt
  import opened Powers

  datatype SubState =
    | SubBothUnsigned | SubCastIntCheckMinMax | SubCastIntCheckMin | SubCastInt64CheckMinMax | SubCastInt64CheckMin
    | SubUint64Int | SubUintInt64 | SubInt64Int | SubIntInt64 | SubInt64Uint | SubIntUint64 | SubInt64Uint64 | SubError

  function SubtractionMethod(t: IntType, u: IntType): SubState {
    if BothUnsigned(t, u) then
      if Small(t, u) || Left32(t, u) || Right32(t, u) || t.bits == 64 || Right64(t, u) then SubBothUnsigned else SubError
    else if UnsignedSigned(t, u) then
      if Small(t, u) then SubCastIntCheckMinMax
      else if Left32(t, u) || Right32(t, u) then SubCastInt64CheckMinMax
      else if Left64(t, u) || Both64(t, u) then SubUint64Int
      else if Right64(t, u) then SubUintInt64 else SubError
    else if BothSigned(t, u) then
      if Small(t, u) then SubCastIntCheckMinMax
      else if Left32(t, u) || Right32(t, u) then SubCastInt64CheckMinMax
      else if Left64(t, u) || Both64(t, u) then SubInt64Int
      else if Right64(t, u) then SubIntInt64 else SubError
    else
      if Small(t, u) then SubCastIntCheckMin
      else if Left32(t, u) || Right32(t, u) then SubCastInt64CheckMin
      else if Left64(t, u) then SubInt64Uint
      else if Right64(t, u) then SubIntUint64
      else if Both64(t, u) then SubInt64Uint64 else SubError
  }

  /** The difference of two bit patterns, read as signed. */
  function SubPattern(x: int, y: int): int {
    Cast(I64, Cast(U64, Cast(U64, x) - Cast(U64, y)))
  }

  function SubtractWith(how: SubState, t: IntType, u: IntType, x: int, y: int): Option<int> {
    match how
    case SubBothUnsigned => Store(t, y <= x, x - y)
    case SubCastIntCheckMinMax => SafeCast(t, I32, Cast(I32, x - y))
    case SubCastIntCheckMin =>
      var tmp := Cast(I32, x - y);
      Store(t, tmp >= MinOf(t), tmp)
    case SubCastInt64CheckMinMax => SafeCast(t, I64, Cast(I64, Cast(I64, x) - Cast(I64, y)))
    case SubCastInt64CheckMin =>
      var tmp := Cast(I64, Cast(I64, x) - Cast(I64, y));
      Store(t, tmp >= MinOf(t), tmp)
    case SubUint64Int =>
      if y >= 0 then Store(t, Cast(U64, y) <= x, Cast(U64, x - Cast(U64, y)))
      else
        var result := Cast(U64, x + Abs(u, y));
        Store(t, result >= x, result)
    case SubUintInt64 =>
      if y >= 0 then Store(t, Cast(U64, y) <= x, x - Cast(t, y))
      else
        var tmp := Cast(U64, x + Cast(U64, 0 - Cast(U64, y)));
        Store(t, tmp <= MaxOf(t), tmp)
    case SubInt64Int =>
      var tmp := SubPattern(x, y);
      Store(t, !((x >= 0 && y < 0 && tmp < x) || (y >= 0 && tmp > x)), tmp)
    case SubIntInt64 =>
      var tmp := SubPattern(x, y);
      if x >= 0 then
        if y >= 0 then Store(t, tmp >= MinOf(t), tmp) else Store(t, tmp >= x && tmp <= MaxOf(t), tmp)
      else
        if y >= 0 then Store(t, tmp <= x && tmp >= MinOf(t), tmp) else Store(t, tmp <= MaxOf(t), tmp)
    case SubInt64Uint =>
      var tmp := SubPattern(x, y);
      Store(t, tmp <= x, tmp)
    case SubIntUint64 =>
      var absMin := MaxOf(t) + 1;
      if x < 0 then Store(t, y <= absMin - Abs(t, x), Cast(U64, Cast(U64, x) - y))
      else Store(t, y <= absMin + x, Cast(U64, Cast(U64, x) - y))
    case SubInt64Uint64 =>
      var tmp := SubPattern(x, y);
      Store(t, tmp <= x, tmp)
    case SubError => None
  }

  lemma SubPatterns(x: int, y: int)
    requires Fits(I64, x) && MinOf(I64) <= y <= MaxOf(U64)
    ensures Fits(I64, x - y) ==> SubPattern(x, y) == x - y
    ensures x - y > MaxOf(I64) ==> SubPattern(x, y) == x - y - Span(I64)
    ensures x - y < MinOf(I64) ==> SubPattern(x, y) == x - y + Span(I64)
  {
    hide Cast, Span;
    SpanEven(U64, I64);
    CastFacts(U64, x);
    CastFacts(U64, y);
    CastFacts(U64, Cast(U64, x) - Cast(U64, y));
    CastFacts(I64, Cast(U64, Cast(U64, x) - Cast(U64, y)));
  }

  /** Storing a 64-bit pattern in a narrower type keeps a value that fits. */
  lemma StorePattern(t: IntType, x: int)
    requires Standard(t) && t.signed && Fits(t, x)
    ensures Cast(t, Cast(U64, x)) == x
  {
    hide Cast;
    CastFacts(U64, x);
    if x < 0 { CastWide(t, x); }
    CastFacts(t, x);
  }

  lemma CastMod(x: int)
    ensures Cast(U64, x) == x % 0x1_0000_0000_0000_0000
  {
  }

  lemma SamePattern(x: int, y: int)
    ensures Cast(U64, Cast(U64, x) - y) == Cast(U64, x - y)
  {
    hide Cast;
    var d := 0x1_0000_0000_0000_0000;
    CastMod(x);
    CastMod(x - y);
    CastMod(x % d - y);
    DivMod(x, d);
    ModAdd(x % d - y, x / d, d);
  }

  lemma SubSigned(x: int, y: int)
    requires -0x8000_0000 <= x < 0x1_0000_0000 && -0x8000_0000 <= y < 0x1_0000_0000
    ensures Cast(I64, Cast(I64, x) - Cast(I64, y)) == x - y && Fits(I64, x - y)
  {
    hide Cast;
    CastFacts(I64, x);
    CastFacts(I64, y);
    CastFacts(I64, x - y);
  }

  // One lemma for each method, on the pairs of types it is used for.

  lemma SubBothUnsignedCase(t: IntType, u: IntType, x: int, y: int)
    requires Standard(t) && Standard(u) && Fits(t, x) && Fits(u, y)
    requires BothUnsigned(t, u)
    ensures SubtractWith(SubBothUnsigned, t, u, x, y) == Exactly(t, x - y)
  {
    hide Cast, Abs, SafeCast, SubPattern;
    CastFacts(t, x - y);
  }

  lemma SubCastIntCheckMinMaxCase(t: IntType, u: IntType, x: int, y: int)
    requires Standard(t) && Standard(u) && Fits(t, x) && Fits(u, y)
    requires u.signed && Small(t, u)
    ensures SubtractWith(SubCastIntCheckMinMax, t, u, x, y) == Exactly(t, x - y)
  {
    hide Cast, Abs, SafeCast, SubPattern;
    CastFacts(I32, x - y);
    SafeCastExact(t, I32, x - y);
  }

  lemma SubCastIntCheckMinCase(t: IntType, u: IntType, x: int, y: int)
    requires Standard(t) && Standard(u) && Fits(t, x) && Fits(u, y)
    requires SignedUnsigned(t, u) && Small(t, u)
    ensures SubtractWith(SubCastIntCheckMin, t, u, x, y) == Exactly(t, x - y)
  {
    hide Cast, Abs, SafeCast, SubPattern;
    CastFacts(I32, x - y);
    CastFacts(t, x - y);
  }

  lemma SubCastInt64CheckMinMaxCase(t: IntType, u: IntType, x: int, y: int)
    requires Standard(t) && Standard(u) && Fits(t, x) && Fits(u, y)
    requires u.signed && (Left32(t, u) || Right32(t, u))
    ensures SubtractWith(SubCastInt64CheckMinMax, t, u, x, y) == Exactly(t, x - y)
  {
    hide Cast, Abs, SafeCast, SubPattern;
    SubSigned(x, y);
    SafeCastExact(t, I64, x - y);
  }

  lemma SubCastInt64CheckMinCase(t: IntType, u: IntType, x: int, y: int)
    requires Standard(t) && Standard(u) && Fits(t, x) && Fits(u, y)
    requires SignedUnsigned(t, u) && (Left32(t, u) || Right32(t, u))
    ensures SubtractWith(SubCastInt64CheckMin, t, u, x, y) == Exactly(t, x - y)
  {
    hide Cast, Abs, SafeCast, SubPattern;
    SubSigned(x, y);
    CastFacts(t, x - y);
  }

  lemma SubUint64IntCase(t: IntType, u: IntType, x: int, y: int)
    requires Standard(t) && Standard(u) && Fits(t, x) && Fits(u, y)
    requires UnsignedSigned(t, u) && t.bits == 64
    ensures SubtractWith(SubUint64Int, t, u, x, y) == Exactly(t, x - y)
  {
    hide Cast, Abs, SafeCast, SubPattern;
    CastFacts(U64, y);
    CastFacts(U64, x - y);
    if y < 0 { AbsExact(u, y); }
  }

  lemma SubUintInt64Case(t: IntType, u: IntType, x: int, y: int)
    requires Standard(t) && Standard(u) && Fits(t, x) && Fits(u, y)
    requires UnsignedSigned(t, u) && Right64(t, u)
    ensures SubtractWith(SubUintInt64, t, u, x, y) == Exactly(t, x - y)
  {
    hide Cast, Abs, SafeCast, SubPattern;
    CastFacts(U64, y);
    CastFacts(U64, 0 - Cast(U64, y));
    CastFacts(U64, x - y);
    CastFacts(t, y);
    CastFacts(t, x - y);
  }

  lemma SubInt64IntCase(t: IntType, u: IntType, x: int, y: int)
    requires Standard(t) && Standard(u) && Fits(t, x) && Fits(u, y)
    requires BothSigned(t, u) && t.bits == 64
    ensures SubtractWith(SubInt64Int, t, u, x, y) == Exactly(t, x - y)
  {
    hide Cast, Abs, SafeCast, SubPattern;
    SubPatterns(x, y);
    CastFacts(t, x - y);
  }

  lemma SubIntInt64Case(t: IntType, u: IntType, x: int, y: int)
    requires Standard(t) && Standard(u) && Fits(t, x) && Fits(u, y)
    requires BothSigned(t, u) && Right64(t, u)
    ensures SubtractWith(SubIntInt64, t, u, x, y) == Exactly(t, x - y)
  {
    hide Cast, Abs, SafeCast, SubPattern;
    SubPatterns(x, y);
    CastFacts(t, x - y);
  }

  lemma SubInt64UintCase(t: IntType, u: IntType, x: int, y: int)
    requires Standard(t) && Standard(u) && Fits(t, x) && Fits(u, y)
    requires SignedUnsigned(t, u) && Left64(t, u)
    ensures SubtractWith(SubInt64Uint, t, u, x, y) == Exactly(t, x - y)
  {
    hide Cast, Abs, SafeCast, SubPattern;
    SubPatterns(x, y);
    CastFacts(t, x - y);
  }

  lemma SubIntUint64Case(t: IntType, u: IntType, x: int, y: int)
    requires Standard(t) && Standard(u) && Fits(t, x) && Fits(u, y)
    requires SignedUnsigned(t, u) && Right64(t, u)
    ensures SubtractWith(SubIntUint64, t, u, x, y) == Exactly(t, x - y)
  {
    hide Cast, Abs, SafeCast, SubPattern;
    if x < 0 { AbsExact(t, x); }
    if Fits(t, x - y) {
      StorePattern(t, x - y);
      SamePattern(x, y);
    }
  }

  lemma SubInt64Uint64Case(t: IntType, u: IntType, x: int, y: int)
    requires Standard(t) && Standard(u) && Fits(t, x) && Fits(u, y)
    requires SignedUnsigned(t, u) && Both64(t, u)
    ensures SubtractWith(SubInt64Uint64, t, u, x, y) == Exactly(t, x - y)
  {
    hide Cast, Abs, SafeCast, SubPattern;
    SubPatterns(x, y);
    CastFacts(t, x - y);
  }

  function SafeSubtract(t: IntType, u: IntType, x: int, y: int): Option<int> {
    SubtractWith(SubtractionMethod(t, u), t, u, x, y)
  }

  /** Subtraction stores the difference exactly when it fits the left type, for every pair of types and operands. */
  lemma SafeSubtractExact(t: IntType, u: IntType, x: int, y: int)
    requires Standard(t) && Standard(u) && Fits(t, x) && Fits(u, y)
    ensures SafeSubtract(t, u, x, y) == Exactly(t, x - y)
  {
    hide SubtractWith, Fits, Exactly;
    match SubtractionMethod(t, u)
    case SubBothUnsigned => SubBothUnsignedCase(t, u, x, y);
    case SubCastIntCheckMinMax => SubCastIntCheckMinMaxCase(t, u, x, y);
    case SubCastIntCheckMin => SubCastIntCheckMinCase(t, u, x, y);
    case SubCastInt64CheckMinMax => SubCastInt64CheckMinMaxCase(t, u, x, y);
    case SubCastInt64CheckMin => SubCastInt64CheckMinCase(t, u, x, y);
    case SubUint64Int => SubUint64IntCase(t, u, x, y);
    case SubUintInt64 => SubUintInt64Case(t, u, x, y);
    case SubInt64Int => SubInt64IntCase(t, u, x, y);
    case SubIntInt64 => SubIntInt64Case(t, u, x, y);
    case SubInt64Uint => SubInt64UintCase(t, u, x, y);
    case SubIntUint64 => SubIntUint64Case(t, u, x, y);
    case SubInt64Uint64 => SubInt64Uint64Case(t, u, x, y);
    case SubError =>
  }
}
