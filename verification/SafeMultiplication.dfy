/** Checked multiplication in fixed-width machine arithmetic. */
module SafeMultiplication {
  // A helper for each region of type pairs works in a width chosen at compile time; together they store the exact
  // product, or report exactly that it does not fit the left type.
  import opened Common
  import opened MachineInt
  import opened Powers

  const HALF: nat := 0x1_0000_0000

  /** Two 64-bit factors from their 32-bit halves: at most one cross product may count, and it must fit 32 bits. */
  function MulUint64(a: nat, b: nat): Option<nat> {
    var aHigh, aLow, bHigh, bLow := a / HALF, a % HALF, b / HALF, b % HALF;
    if aHigh != 0 && bHigh != 0 then None
    else
      var cross := if aHigh == 0 then (if bHigh != 0 then aLow * bHigh else 0) else aHigh * bLow;
      if cross != 0 then CrossAndLow(cross, aLow * bLow) else Some(aLow * bLow)
  }

  /** The cross product shifted up plus the low product, in 64 bits. */
  function CrossAndLow(cross: nat, low: nat): Option<nat> {
    if cross / HALF != 0 then None
    else
      var sum := Cast(U64, Cast(U64, cross * HALF) + low);
      if sum < low then None else Some(sum)
  }

  /** A 64-bit and a 32-bit factor. */
  function MulUint64Uint(a: nat, b: nat): Option<nat> {
    var aHigh, aLow := a / HALF, a % HALF;
    if aHigh != 0 then CrossAndLow(aHigh * b, aLow * b) else Some(aLow * b)
  }

  /** A 32-bit and a 64-bit factor, with a 32-bit product. */
  function MulUintUint64(a: nat, b: nat): Option<nat> {
    if b / HALF != 0 && a != 0 then None
    else
      var tmp := Cast(U64, b * a);
      if tmp / HALF != 0 then None else Some(tmp % HALF)
  }

  /** The magnitude of a number, as the unsigned type sees it. */
  function Magnitude(s: IntType, u: IntType, x: int): int {
    Cast(u, if x < 0 then Cast(s, Abs(s, x)) else x)
  }

  /** Puts the sign back on an unsigned product. */
  function Signed(s: IntType, u: IntType, negative: bool, product: Option<nat>): Option<int> {
    match product
    case None => None
    case Some(tmp) =>
      if negative then if tmp <= Cast(u, MinOf(s)) then Some(Cast(s, Cast(u, 0 - tmp))) else None
      else if tmp <= MaxOf(s) then Some(Cast(s, tmp)) else None
  }

  /** A signed 32-bit and an unsigned 64-bit factor. */
  function MulIntUint64(a: int, b: nat): Option<int> {
    if b / HALF != 0 && a != 0 then None
    else
      var tmp := Magnitude(I32, U32, a) * (b % HALF);
      if a >= 0 then if tmp <= MaxOf(I32) then Some(Cast(I32, tmp)) else None
      else if tmp <= MaxOf(I32) + 1 then Some(Cast(I32, Cast(U32, 0 - Cast(U32, tmp)))) else None
  }

  datatype MulState =
    | MulCastInt | MulCastInt64 | MulCastUint | MulCastUint64 | MulUint64Uint32 | MulUint64Uint64 | MulUint64Int
    | MulUint64Int64 | MulUint32Uint64 | MulUintInt64 | MulInt64Uint | MulInt64Int64 | MulInt64Int | MulInt32Uint64
    | MulIntInt64 | MulInt64Uint64 | MulError

  function MultiplicationMethod(t: IntType, u: IntType): MulState {
    if BothUnsigned(t, u) then
      if Small(t, u) then MulCastUint
      else if Left32(t, u) || Right32(t, u) then MulCastUint64
      else if Both64(t, u) then MulUint64Uint64
      else if Left64(t, u) then MulUint64Uint32
      else if Right64(t, u) then MulUint32Uint64 else MulError
    else if UnsignedSigned(t, u) then
      if Small(t, u) then MulCastInt
      else if Left32(t, u) || Right32(t, u) then MulCastInt64
      else if Left64(t, u) then MulUint64Int
      else if Right64(t, u) then MulUintInt64
      else if Both64(t, u) then MulUint64Int64 else MulError
    else if BothSigned(t, u) then
      if Small(t, u) then MulCastInt
      else if Left32(t, u) || Right32(t, u) then MulCastInt64
      else if Both64(t, u) then MulInt64Int64
      else if Left64(t, u) then MulInt64Int
      else if Right64(t, u) then MulIntInt64 else MulError
    else
      if Small(t, u) then MulCastInt
      else if Left32(t, u) || Right32(t, u) then MulCastInt64
      else if Left64(t, u) then MulInt64Uint
      else if Right64(t, u) then MulInt32Uint64
      else if Both64(t, u) then MulInt64Uint64 else MulError
  }

  /** A 32-bit product passed on to a type that may be narrower. */
  function Narrow(t: IntType, from: IntType, product: Option<int>): Option<int> {
    match product
    case None => None
    case Some(tmp) => SafeCast(t, from, tmp)
  }

  function MultiplyWith(how: MulState, t: IntType, u: IntType, x: int, y: int): Option<int>
    requires !t.signed ==> x >= 0
    requires !u.signed ==> y >= 0
  {
    match how
    case MulCastInt =>
      var tmp := Cast(I32, x * y);
      Store(t, !(tmp > MaxOf(t) || tmp < MinOf(t)), tmp)
    case MulCastUint =>
      var tmp := Cast(U32, Cast(I32, x * y));
      Store(t, tmp <= MaxOf(t), tmp)
    case MulCastInt64 =>
      var tmp := Cast(I64, Cast(I64, x) * Cast(I64, y));
      Store(t, !(tmp > MaxOf(t) || tmp < MinOf(t)), tmp)
    case MulCastUint64 =>
      var tmp := Cast(U64, Cast(U64, x) * Cast(U64, y));
      Store(t, tmp <= MaxOf(t), tmp)
    case MulUint64Uint64 => MulUint64(Cast(U64, x), Cast(U64, y))
    case MulUint64Uint32 => MulUint64Uint(Cast(U64, x), Cast(U32, y))
    case MulUint32Uint64 => Narrow(t, U32, MulUintUint64(Cast(U32, x), Cast(U64, y)))
    case MulUint64Int => if y < 0 && x != 0 then None else MulUint64Uint(Cast(U64, x), Cast(U32, y))
    case MulUint64Int64 => if y < 0 && x != 0 then None else MulUint64(Cast(U64, x), Cast(U64, y))
    case MulUintInt64 => if y < 0 && x != 0 then None else Narrow(t, U32, MulUintUint64(Cast(U32, x), Cast(U64, y)))
    case MulInt64Uint => Signed(I64, U64, x < 0, MulUint64Uint(Magnitude(I64, U64, x), Cast(U32, y)))
    case MulInt64Int64 =>
      Signed(I64, U64, (x < 0) != (y < 0), MulUint64(Magnitude(I64, U64, x), Magnitude(I64, U64, y)))
    case MulInt64Int =>
      Signed(I64, U64, (x < 0) != (y < 0), MulUint64Uint(Magnitude(I64, U64, x), Cast(U32, Magnitude(I64, U64, y))))
    case MulInt32Uint64 => Narrow(t, I32, MulIntUint64(x, Cast(U64, y)))
    case MulIntInt64 =>
      Narrow(t, I32, Signed(I32, U32, (x < 0) != (y < 0), MulUintUint64(Magnitude(I32, U32, x), Magnitude(I64, U64, y))))
    case MulInt64Uint64 => Signed(I64, U64, x < 0, MulUint64(Magnitude(I64, U64, x), Cast(U64, y)))
    case MulError => None
  }

  // ---------------------------------------------------------------- products of halves

  /** The unsigned product, if it is below the bound. */
  function Below(bound: nat, product: nat): Option<nat> { if product < bound then Some(product) else None }

  lemma CrossAndLowExact(cross: nat, low: nat)
    requires low < 0x1_0000_0000_0000_0000
    ensures CrossAndLow(cross, low) == Below(0x1_0000_0000_0000_0000, cross * HALF + low)
  {
    hide Cast;
    DivMod(cross, HALF);
    CastFacts(U64, cross * HALF);
    CastFacts(U64, cross * HALF + low);
  }

  lemma HalvesProduct(aHigh: nat, aLow: nat, b: nat)
    ensures (aHigh * HALF + aLow) * b == (aHigh * b) * HALF + aLow * b
  {
  }

  lemma LowProduct(x: nat, y: nat)
    requires x < HALF && y < HALF
    ensures x * y < 0x1_0000_0000_0000_0000
  {
    MulMono(x, HALF - 1, y);
    MulMono(y, HALF - 1, HALF - 1);
  }

  lemma MulUint64UintExact(a: nat, b: nat)
    requires Fits(U64, a) && Fits(U32, b)
    ensures MulUint64Uint(a, b) == Below(0x1_0000_0000_0000_0000, a * b)
  {
    hide CrossAndLow;
    var aHigh, aLow := a / HALF, a % HALF;
    DivMod(a, HALF);
    HalvesProduct(aHigh, aLow, b);
    LowProduct(aLow, b);
    CrossAndLowExact(aHigh * b, aLow * b);
  }

  lemma MulUint64Exact(a: nat, b: nat)
    requires Fits(U64, a) && Fits(U64, b)
    ensures MulUint64(a, b) == Below(0x1_0000_0000_0000_0000, a * b)
  {
    hide CrossAndLow;
    var aHigh, aLow, bHigh, bLow := a / HALF, a % HALF, b / HALF, b % HALF;
    DivMod(a, HALF);
    DivMod(b, HALF);
    HalvesProduct(aHigh, aLow, b);
    HalvesProduct(bHigh, bLow, aLow);
    LowProduct(aLow, bLow);
    if aHigh != 0 && bHigh != 0 {
      MulMono(HALF, a, b);
      MulMono(HALF, b, HALF);
    } else if aHigh == 0 {
      CrossAndLowExact(aLow * bHigh, aLow * bLow);
    } else {
      CrossAndLowExact(aHigh * bLow, aLow * bLow);
    }
  }

  lemma MulUintUint64Exact(a: nat, b: nat)
    requires Fits(U32, a) && Fits(U64, b)
    ensures MulUintUint64(a, b) == Below(HALF, a * b)
  {
    hide Cast;
    DivMod(b, HALF);
    if b / HALF != 0 && a != 0 {
      MulMono(HALF, b, a);
      MulMono(1, a, HALF);
    } else if a == 0 {
      CastFacts(U64, b * a);
    } else {
      LowProduct(a, b);
      CastFacts(U64, b * a);
      DivMod(b * a, HALF);
    }
  }

  lemma MagnitudeExact(s: IntType, u: IntType, x: int)
    requires (s == I32 && u == U32) || (s == I64 && u == U64)
    requires Fits(s, x)
    ensures Magnitude(s, u, x) == if x < 0 then 0 - x else x
  {
    hide Cast, Abs;
    if x < 0 {
      AbsExact(s, x);
      CastFacts(s, 0 - x);
      CastFacts(u, Cast(s, 0 - x));
    } else {
      CastFacts(u, x);
    }
  }

  /** From magnitudes to the signed product: with the sign restored, exactly what fits is kept. */
  lemma SignedExact(s: IntType, u: IntType, x: int, y: int, m: nat, n: nat, bound: nat)
    requires (s == I32 && u == U32) || (s == I64 && u == U64)
    requires m == (if x < 0 then 0 - x else x) && n == (if y < 0 then 0 - y else y) && bound == Span(u)
    ensures Signed(s, u, (x < 0) != (y < 0), Below(bound, m * n)) == Exactly(s, x * y)
  {
    SignOfProduct(x, y, m, n);
    SignedValue(s, u, (x < 0) != (y < 0), m * n);
  }

  /** A magnitude of the unsigned type with its sign restored. */
  lemma SignedValue(s: IntType, u: IntType, negative: bool, p: nat)
    requires (s == I32 && u == U32) || (s == I64 && u == U64)
    ensures Signed(s, u, negative, Below(Span(u), p)) == Exactly(s, if negative then 0 - p else p)
  {
    hide Cast, Span;
    SpanEven(u, s);
    if negative {
      CastFacts(u, MinOf(s));
      CastFacts(u, 0 - p);
      CastFacts(s, Cast(u, 0 - p));
      assert Cast(u, MinOf(s)) == Span(u) / 2;
    } else {
      CastFacts(s, p);
    }
  }

  lemma SignOfProduct(x: int, y: int, m: nat, n: nat)
    requires m == (if x < 0 then 0 - x else x) && n == (if y < 0 then 0 - y else y)
    ensures x * y == if (x < 0) != (y < 0) then 0 - m * n else m * n
    ensures m * n >= 0
  {
    if x < 0 && y < 0 { NegNeg(m, n); } else if x < 0 { NegLeft(m, y); } else if y < 0 { NegRight(x, n); }
  }

  lemma NegNeg(m: int, n: int) ensures (0 - m) * (0 - n) == m * n { }
  lemma NegLeft(m: int, n: int) ensures (0 - m) * n == 0 - m * n { }
  lemma NegRight(m: int, n: int) ensures m * (0 - n) == 0 - m * n { }

  lemma MulIntUint64Exact(a: int, b: nat)
    requires Fits(I32, a) && Fits(U64, b)
    ensures MulIntUint64(a, b) == Exactly(I32, a * b)
  {
    hide Cast, Magnitude;
    var m := if a < 0 then 0 - a else a;
    MagnitudeExact(I32, U32, a);
    SignOfProduct(a, b, m, b);
    DivMod(b, HALF);
    if b / HALF != 0 && a != 0 {
      MulMono(HALF, b, m);
      MulMono(1, m, HALF);
    } else if a == 0 {
      CastFacts(I32, 0);
    } else {
      CastFacts(U32, m * b);
      CastFacts(U32, 0 - m * b);
      CastFacts(I32, Cast(U32, 0 - m * b));
      CastFacts(I32, m * b);
    }
  }

  // One lemma for each method, on the pairs of types it is used for.

  /** A product of two bounded factors. */
  lemma ProductBound(x: int, y: int, a: nat, b: nat)
    requires 0 - a <= x <= a && 0 - b <= y <= b
    ensures -(a * b) <= x * y <= a * b
  {
    var m, n := if x < 0 then 0 - x else x, if y < 0 then 0 - y else y;
    SignOfProduct(x, y, m, n);
    MulMono(m, a, n);
    MulMono(n, b, a);
  }

  /** An unsigned number times a negative one fits an unsigned type only when it is zero. */
  lemma UnsignedTimesNegative(x: nat, y: int)
    ensures x == 0 ==> x * y == 0
    ensures x > 0 && y < 0 ==> x * y < 0
    ensures y >= 0 ==> x * y >= 0
    ensures forall z: nat :: x == 0 ==> x * z == 0
  {
    if y < 0 {
      NegRight(x, 0 - y);
      if x > 0 { MulPos(x, 0 - y); }
    } else {
      SignOfProduct(x, y, x, y);
    }
  }

  lemma MulCastIntCase(t: IntType, u: IntType, x: int, y: int)
    requires Standard(t) && Standard(u) && Fits(t, x) && Fits(u, y)
    requires !BothUnsigned(t, u) && Small(t, u)
    ensures MultiplyWith(MulCastInt, t, u, x, y) == Exactly(t, x * y)
  {
    hide Cast, SafeCast, Abs, Magnitude, Signed, MulUint64, MulUint64Uint, MulUintUint64, MulIntUint64;
    if t.signed { ProductBound(x, y, 0x8000, 0xFFFF); } else { ProductBound(x, y, 0xFFFF, 0x8000); }
    CastFacts(I32, x * y);
    CastFacts(t, x * y);
  }

  lemma MulCastUintCase(t: IntType, u: IntType, x: int, y: int)
    requires Standard(t) && Standard(u) && Fits(t, x) && Fits(u, y)
    requires BothUnsigned(t, u) && Small(t, u)
    ensures MultiplyWith(MulCastUint, t, u, x, y) == Exactly(t, x * y)
  {
    hide Cast, SafeCast, Abs, Magnitude, Signed, MulUint64, MulUint64Uint, MulUintUint64, MulIntUint64;
    ProductBound(x, y, 0xFFFF, 0xFFFF);
    SignOfProduct(x, y, x, y);
    CastFacts(I32, x * y);
    CastFacts(U32, Cast(I32, x * y));
    CastFacts(t, x * y);
  }

  lemma MulCastInt64Case(t: IntType, u: IntType, x: int, y: int)
    requires Standard(t) && Standard(u) && Fits(t, x) && Fits(u, y)
    requires !BothUnsigned(t, u) && (Left32(t, u) || Right32(t, u))
    ensures MultiplyWith(MulCastInt64, t, u, x, y) == Exactly(t, x * y)
  {
    hide Cast, SafeCast, Abs, Magnitude, Signed, MulUint64, MulUint64Uint, MulUintUint64, MulIntUint64;
    CastFacts(I64, x);
    CastFacts(I64, y);
    if t.signed { ProductBound(x, y, 0x8000_0000, 0xFFFF_FFFF); } else { ProductBound(x, y, 0xFFFF_FFFF, 0x8000_0000); }
    CastFacts(I64, x * y);
    CastFacts(t, x * y);
  }

  lemma MulCastUint64Case(t: IntType, u: IntType, x: int, y: int)
    requires Standard(t) && Standard(u) && Fits(t, x) && Fits(u, y)
    requires BothUnsigned(t, u) && (Left32(t, u) || Right32(t, u))
    ensures MultiplyWith(MulCastUint64, t, u, x, y) == Exactly(t, x * y)
  {
    hide Cast, SafeCast, Abs, Magnitude, Signed, MulUint64, MulUint64Uint, MulUintUint64, MulIntUint64;
    CastFacts(U64, x);
    CastFacts(U64, y);
    ProductBound(x, y, 0xFFFF_FFFF, 0xFFFF_FFFF);
    SignOfProduct(x, y, x, y);
    CastFacts(U64, x * y);
    CastFacts(t, x * y);
  }

  lemma MulUint64Uint64Case(t: IntType, u: IntType, x: int, y: int)
    requires Standard(t) && Standard(u) && Fits(t, x) && Fits(u, y)
    requires BothUnsigned(t, u) && Both64(t, u)
    ensures MultiplyWith(MulUint64Uint64, t, u, x, y) == Exactly(t, x * y)
  {
    hide Cast, SafeCast, Abs, Magnitude, Signed, MulUint64, MulUint64Uint, MulUintUint64, MulIntUint64;
    CastFacts(U64, x);
    CastFacts(U64, y);
    SignOfProduct(x, y, x, y);
    MulUint64Exact(x, y);
  }

  lemma MulUint64Uint32Case(t: IntType, u: IntType, x: int, y: int)
    requires Standard(t) && Standard(u) && Fits(t, x) && Fits(u, y)
    requires BothUnsigned(t, u) && Left64(t, u)
    ensures MultiplyWith(MulUint64Uint32, t, u, x, y) == Exactly(t, x * y)
  {
    hide Cast, SafeCast, Abs, Magnitude, Signed, MulUint64, MulUint64Uint, MulUintUint64, MulIntUint64;
    CastFacts(U64, x);
    CastFacts(U32, y);
    SignOfProduct(x, y, x, y);
    MulUint64UintExact(x, y);
  }

  lemma MulUint32Uint64Case(t: IntType, u: IntType, x: int, y: int)
    requires Standard(t) && Standard(u) && Fits(t, x) && Fits(u, y)
    requires BothUnsigned(t, u) && Right64(t, u)
    ensures MultiplyWith(MulUint32Uint64, t, u, x, y) == Exactly(t, x * y)
  {
    hide Cast, SafeCast, Abs, Magnitude, Signed, MulUint64, MulUint64Uint, MulUintUint64, MulIntUint64;
    CastFacts(U32, x);
    CastFacts(U64, y);
    SignOfProduct(x, y, x, y);
    MulUintUint64Exact(x, y);
    if x * y < HALF { SafeCastExact(t, U32, x * y); }
  }

  lemma MulUint64IntCase(t: IntType, u: IntType, x: int, y: int)
    requires Standard(t) && Standard(u) && Fits(t, x) && Fits(u, y)
    requires UnsignedSigned(t, u) && Left64(t, u)
    ensures MultiplyWith(MulUint64Int, t, u, x, y) == Exactly(t, x * y)
  {
    hide Cast, SafeCast, Abs, Magnitude, Signed, MulUint64, MulUint64Uint, MulUintUint64, MulIntUint64;
    UnsignedTimesNegative(x, y);
    CastFacts(U64, x);
    CastFacts(U32, y);
    MulUint64UintExact(x, Cast(U32, y));
  }

  lemma MulUint64Int64Case(t: IntType, u: IntType, x: int, y: int)
    requires Standard(t) && Standard(u) && Fits(t, x) && Fits(u, y)
    requires UnsignedSigned(t, u) && Both64(t, u)
    ensures MultiplyWith(MulUint64Int64, t, u, x, y) == Exactly(t, x * y)
  {
    hide Cast, SafeCast, Abs, Magnitude, Signed, MulUint64, MulUint64Uint, MulUintUint64, MulIntUint64;
    UnsignedTimesNegative(x, y);
    CastFacts(U64, x);
    CastFacts(U64, y);
    MulUint64Exact(x, Cast(U64, y));
  }

  lemma MulUintInt64Case(t: IntType, u: IntType, x: int, y: int)
    requires Standard(t) && Standard(u) && Fits(t, x) && Fits(u, y)
    requires UnsignedSigned(t, u) && Right64(t, u)
    ensures MultiplyWith(MulUintInt64, t, u, x, y) == Exactly(t, x * y)
  {
    hide Cast, SafeCast, Abs, Magnitude, Signed, MulUint64, MulUint64Uint, MulUintUint64, MulIntUint64;
    UnsignedTimesNegative(x, y);
    CastFacts(U32, x);
    CastFacts(U64, y);
    MulUintUint64Exact(x, Cast(U64, y));
    var p := x * Cast(U64, y);
    if 0 <= p < HALF { SafeCastExact(t, U32, p); }
  }

  lemma MulInt64UintCase(t: IntType, u: IntType, x: int, y: int)
    requires Standard(t) && Standard(u) && Fits(t, x) && Fits(u, y)
    requires SignedUnsigned(t, u) && Left64(t, u)
    ensures MultiplyWith(MulInt64Uint, t, u, x, y) == Exactly(t, x * y)
  {
    hide Cast, SafeCast, Abs, Magnitude, Signed, MulUint64, MulUint64Uint, MulUintUint64, MulIntUint64;
    MagnitudeExact(I64, U64, x);
    CastFacts(U32, y);
    MulUint64UintExact(Magnitude(I64, U64, x), y);
    SignedExact(I64, U64, x, y, Magnitude(I64, U64, x), y, 0x1_0000_0000_0000_0000);
  }

  lemma MulInt64Int64Case(t: IntType, u: IntType, x: int, y: int)
    requires Standard(t) && Standard(u) && Fits(t, x) && Fits(u, y)
    requires BothSigned(t, u) && Both64(t, u)
    ensures MultiplyWith(MulInt64Int64, t, u, x, y) == Exactly(t, x * y)
  {
    hide Cast, SafeCast, Abs, Magnitude, Signed, MulUint64, MulUint64Uint, MulUintUint64, MulIntUint64;
    MagnitudeExact(I64, U64, x);
    MagnitudeExact(I64, U64, y);
    var m, n := Magnitude(I64, U64, x), Magnitude(I64, U64, y);
    MulUint64Exact(m, n);
    SignedExact(I64, U64, x, y, m, n, 0x1_0000_0000_0000_0000);
  }

  lemma MulInt64IntCase(t: IntType, u: IntType, x: int, y: int)
    requires Standard(t) && Standard(u) && Fits(t, x) && Fits(u, y)
    requires BothSigned(t, u) && Left64(t, u)
    ensures MultiplyWith(MulInt64Int, t, u, x, y) == Exactly(t, x * y)
  {
    hide Cast, SafeCast, Abs, Magnitude, Signed, MulUint64, MulUint64Uint, MulUintUint64, MulIntUint64;
    MagnitudeExact(I64, U64, x);
    MagnitudeExact(I64, U64, y);
    var m, n := Magnitude(I64, U64, x), Magnitude(I64, U64, y);
    CastFacts(U32, n);
    MulUint64UintExact(m, n);
    SignedExact(I64, U64, x, y, m, n, 0x1_0000_0000_0000_0000);
  }

  lemma MulInt32Uint64Case(t: IntType, u: IntType, x: int, y: int)
    requires Standard(t) && Standard(u) && Fits(t, x) && Fits(u, y)
    requires SignedUnsigned(t, u) && Right64(t, u)
    ensures MultiplyWith(MulInt32Uint64, t, u, x, y) == Exactly(t, x * y)
  {
    hide Cast, SafeCast, Abs, Magnitude, Signed, MulUint64, MulUint64Uint, MulUintUint64, MulIntUint64;
    CastFacts(U64, y);
    MulIntUint64Exact(x, y);
    if Fits(I32, x * y) { SafeCastExact(t, I32, x * y); }
  }

  lemma MulIntInt64Case(t: IntType, u: IntType, x: int, y: int)
    requires Standard(t) && Standard(u) && Fits(t, x) && Fits(u, y)
    requires BothSigned(t, u) && Right64(t, u)
    ensures MultiplyWith(MulIntInt64, t, u, x, y) == Exactly(t, x * y)
  {
    hide Cast, SafeCast, Abs, Magnitude, Signed, MulUint64, MulUint64Uint, MulUintUint64, MulIntUint64;
    MagnitudeExact(I32, U32, x);
    MagnitudeExact(I64, U64, y);
    var m, n := Magnitude(I32, U32, x), Magnitude(I64, U64, y);
    MulUintUint64Exact(m, n);
    SignedExact(I32, U32, x, y, m, n, HALF);
    if Fits(I32, x * y) { SafeCastExact(t, I32, x * y); }
  }

  lemma MulInt64Uint64Case(t: IntType, u: IntType, x: int, y: int)
    requires Standard(t) && Standard(u) && Fits(t, x) && Fits(u, y)
    requires SignedUnsigned(t, u) && Both64(t, u)
    ensures MultiplyWith(MulInt64Uint64, t, u, x, y) == Exactly(t, x * y)
  {
    hide Cast, SafeCast, Abs, Magnitude, Signed, MulUint64, MulUint64Uint, MulUintUint64, MulIntUint64;
    MagnitudeExact(I64, U64, x);
    CastFacts(U64, y);
    MulUint64Exact(Magnitude(I64, U64, x), y);
    SignedExact(I64, U64, x, y, Magnitude(I64, U64, x), y, 0x1_0000_0000_0000_0000);
  }

  function SafeMultiply(t: IntType, u: IntType, x: int, y: int): Option<int>
    requires !t.signed ==> x >= 0
    requires !u.signed ==> y >= 0
  {
    MultiplyWith(MultiplicationMethod(t, u), t, u, x, y)
  }

  /** Multiplication stores the product exactly when it fits the left type, for every pair of types and operands. */
  lemma SafeMultiplyExact(t: IntType, u: IntType, x: int, y: int)
    requires Standard(t) && Standard(u) && Fits(t, x) && Fits(u, y)
    ensures SafeMultiply(t, u, x, y) == Exactly(t, x * y)
  {
    hide MultiplyWith, Exactly;
    match MultiplicationMethod(t, u)
    case MulCastInt => MulCastIntCase(t, u, x, y);
    case MulCastUint => MulCastUintCase(t, u, x, y);
    case MulCastInt64 => MulCastInt64Case(t, u, x, y);
    case MulCastUint64 => MulCastUint64Case(t, u, x, y);
    case MulUint64Uint64 => MulUint64Uint64Case(t, u, x, y);
    case MulUint64Uint32 => MulUint64Uint32Case(t, u, x, y);
    case MulUint32Uint64 => MulUint32Uint64Case(t, u, x, y);
    case MulUint64Int => MulUint64IntCase(t, u, x, y);
    case MulUint64Int64 => MulUint64Int64Case(t, u, x, y);
    case MulUintInt64 => MulUintInt64Case(t, u, x, y);
    case MulInt64Uint => MulInt64UintCase(t, u, x, y);
    case MulInt64Int64 => MulInt64Int64Case(t, u, x, y);
    case MulInt64Int => MulInt64IntCase(t, u, x, y);
    case MulInt32Uint64 => MulInt32Uint64Case(t, u, x, y);
    case MulIntInt64 => MulIntInt64Case(t, u, x, y);
    case MulInt64Uint64 => MulInt64Uint64Case(t, u, x, y);
    case MulError =>
  }
}
