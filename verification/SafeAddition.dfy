/** Checked addition in fixed-width machine arithmetic. */
module SafeAddition {
  // A helper for each region of type pairs works in a width chosen at compile time; together they store the exact sum,
  // or report exactly that it does not fit the left type.
  import opened Common
  import opened MachineInt

  datatype AddState =
    | CastIntCheckMax | CastUintCheckOverflow | CastUintCheckOverflowMax | CastUint64CheckOverflow
    | CastUint64CheckOverflowMax | CastIntCheckMinMax | CastInt64CheckMinMax | CastInt64CheckMax
    | CastUint64CheckMinMax | CastUint64CheckMinMax2 | CastInt64CheckOverflow | CastInt64CheckOverflowMinMax
    | CastInt64CheckOverflowMax | ManualCheckInt64Uint64 | ManualCheck | AddError

  function AdditionMethod(t: IntType, u: IntType): AddState {
    if BothUnsigned(t, u) then
      if Small(t, u) then CastIntCheckMax
      else if Left32(t, u) then CastUintCheckOverflow
      else if Right32(t, u) then CastUintCheckOverflowMax
      else if t.bits == 64 then CastUint64CheckOverflow
      else if Right64(t, u) then CastUint64CheckOverflowMax else AddError
    else if UnsignedSigned(t, u) then
      if Small(t, u) then CastIntCheckMinMax
      else if Left32(t, u) || Right32(t, u) then CastInt64CheckMinMax
      else if Left64(t, u) || Both64(t, u) then CastUint64CheckMinMax
      else if Right64(t, u) then CastUint64CheckMinMax2 else AddError
    else if BothSigned(t, u) then
      if Small(t, u) then CastIntCheckMinMax
      else if Left32(t, u) || Right32(t, u) then CastInt64CheckMinMax
      else if Left64(t, u) || Both64(t, u) then CastInt64CheckOverflow
      else if Right64(t, u) then CastInt64CheckOverflowMinMax else AddError
    else
      if Small(t, u) then CastIntCheckMax
      else if Left32(t, u) || Right32(t, u) then CastInt64CheckMax
      else if Left64(t, u) then CastInt64CheckOverflowMax
      else if Both64(t, u) then ManualCheckInt64Uint64
      else if Right64(t, u) then ManualCheck else AddError
  }

  /** Signed 64-bit addition in unsigned arithmetic; the signs tell whether it overflowed. */
  function AddInt64(x: int, y: int): Option<int> {
    var tmp := Cast(I64, Cast(U64, Cast(U64, x) + Cast(U64, y)));
    if x >= 0 then (if y >= 0 && tmp < x then None else Some(tmp))
    else (if y < 0 && tmp > x then None else Some(tmp))
  }

  /** The helper for each method. */
  function AddWith(how: AddState, t: IntType, u: IntType, x: int, y: int): Option<int> {
    match how
    case CastIntCheckMax =>
      var tmp := Cast(I32, x + y);
      Store(t, tmp <= MaxOf(t), tmp)
    case CastUintCheckOverflow =>
      var tmp := Cast(U32, Cast(U32, x) + Cast(U32, y));
      Store(t, tmp >= x, tmp)
    case CastUintCheckOverflowMax =>
      var tmp := Cast(U32, Cast(U32, x) + Cast(U32, y));
      Store(t, tmp >= x && tmp <= MaxOf(t), tmp)
    case CastUint64CheckOverflow =>
      var tmp := Cast(U64, Cast(U64, x) + Cast(U64, y));
      Store(t, tmp >= x, tmp)
    case CastUint64CheckOverflowMax =>
      var tmp := Cast(U64, Cast(U64, x) + Cast(U64, y));
      Store(t, tmp >= x && tmp <= MaxOf(t), tmp)
    case CastIntCheckMinMax =>
      var tmp := Cast(I32, x + y);
      Store(t, tmp <= MaxOf(t) && tmp >= MinOf(t), tmp)
    case CastInt64CheckMinMax =>
      var tmp := Cast(I64, Cast(I64, x) + Cast(I64, y));
      Store(t, tmp <= MaxOf(t) && tmp >= MinOf(t), tmp)
    case CastInt64CheckMax =>
      var tmp := Cast(I64, Cast(I64, x) + Cast(I64, y));
      Store(t, tmp <= MaxOf(t), tmp)
    case CastUint64CheckMinMax =>
      if y < 0 then
        var tmp := Abs(u, y);
        Store(t, tmp <= x, Cast(U64, x - tmp))
      else
        var tmp := Cast(U64, Cast(U64, x) + Cast(U64, y));
        Store(t, tmp >= x, tmp)
    case CastUint64CheckMinMax2 =>
      if y < 0 then Store(t, x >= Cast(U64, 0 - Cast(U64, y)), Cast(I64, x + y))
      else
        var tmp := Cast(U64, Cast(U64, x) + Cast(U64, y));
        Store(t, tmp <= MaxOf(t), tmp)
    case CastInt64CheckOverflow => AddInt64(x, y)
    case CastInt64CheckOverflowMinMax =>
      match AddInt64(x, y) {
        case None => None
        case Some(tmp) => Store(t, tmp <= MaxOf(t) && tmp >= MinOf(t), tmp)
      }
    case CastInt64CheckOverflowMax =>
      var tmp := Cast(I64, Cast(U64, Cast(U64, x) + Cast(U64, y)));
      Store(t, tmp >= x, tmp)
    case ManualCheckInt64Uint64 =>
      var tmp := Cast(I64, Cast(U64, Cast(U64, x) + y));
      Store(t, tmp >= x, tmp)
    case ManualCheck =>
      if Cast(U32, y / 0x1_0000_0000) != 0 then None
      else
        var tmp := Cast(I32, Cast(U32, Cast(U32, y) + Cast(U32, x)));
        if tmp >= x then SafeCast(t, I32, tmp) else None
    case AddError => None
  }

  /** Adding the bit patterns of two numbers and reading the sum as signed: the sum, or off by one span. */
  lemma AddPatterns(u: IntType, s: IntType, x: int, y: int)
    requires !u.signed && s.signed && u.bits == s.bits && Standard(u)
    requires MinOf(s) <= x <= MaxOf(s) && MinOf(s) <= y <= MaxOf(u)
    ensures var r := Cast(s, Cast(u, Cast(u, x) + Cast(u, y)));
      && (Fits(s, x + y) ==> r == x + y)
      && (x + y > MaxOf(s) ==> r == x + y - Span(s))
      && (x + y < MinOf(s) ==> r == x + y + Span(s))
  {
    hide Cast, Span;
    SpanEven(u, s);
    CastFacts(u, x);
    CastFacts(u, y);
    CastFacts(u, Cast(u, x) + Cast(u, y));
    CastFacts(s, Cast(u, Cast(u, x) + Cast(u, y)));
  }

  lemma AddUnsigned(u: IntType, x: int, y: int)
    requires Standard(u) && !u.signed && Fits(u, x) && Fits(u, y)
    ensures Cast(u, Cast(u, x) + Cast(u, y)) == if x + y <= MaxOf(u) then x + y else x + y - Span(u)
  {
    hide Cast;
    CastFacts(u, x);
    CastFacts(u, y);
    CastFacts(u, x + y);
  }

  lemma AddSigned(x: int, y: int)
    requires -0x8000_0000 <= x < 0x1_0000_0000 && -0x8000_0000 <= y < 0x1_0000_0000
    ensures Cast(I64, Cast(I64, x) + Cast(I64, y)) == x + y
  {
    hide Cast;
    CastFacts(I64, x);
    CastFacts(I64, y);
    CastFacts(I64, x + y);
  }

  // One lemma for each method, on the pairs of types it is used for.

  lemma CastIntCheckMaxCase(t: IntType, u: IntType, x: int, y: int)
    requires Standard(t) && Standard(u) && Fits(t, x) && Fits(u, y)
    requires !u.signed && Small(t, u)
    ensures AddWith(CastIntCheckMax, t, u, x, y) == Exactly(t, x + y)
  {
    hide Cast, Abs, SafeCast;
    CastFacts(I32, x + y);
    CastFacts(t, x + y);
  }

  lemma CastUintCheckOverflowCase(t: IntType, u: IntType, x: int, y: int)
    requires Standard(t) && Standard(u) && Fits(t, x) && Fits(u, y)
    requires BothUnsigned(t, u) && Left32(t, u)
    ensures AddWith(CastUintCheckOverflow, t, u, x, y) == Exactly(t, x + y)
  {
    hide Cast, Abs, SafeCast;
    AddUnsigned(U32, x, y);
    CastFacts(t, x + y);
  }

  lemma CastUintCheckOverflowMaxCase(t: IntType, u: IntType, x: int, y: int)
    requires Standard(t) && Standard(u) && Fits(t, x) && Fits(u, y)
    requires BothUnsigned(t, u) && Right32(t, u)
    ensures AddWith(CastUintCheckOverflowMax, t, u, x, y) == Exactly(t, x + y)
  {
    hide Cast, Abs, SafeCast;
    AddUnsigned(U32, x, y);
    CastFacts(t, x + y);
  }

  lemma CastUint64CheckOverflowCase(t: IntType, u: IntType, x: int, y: int)
    requires Standard(t) && Standard(u) && Fits(t, x) && Fits(u, y)
    requires BothUnsigned(t, u) && t.bits == 64
    ensures AddWith(CastUint64CheckOverflow, t, u, x, y) == Exactly(t, x + y)
  {
    hide Cast, Abs, SafeCast;
    AddUnsigned(U64, x, y);
    CastFacts(t, x + y);
  }

  lemma CastUint64CheckOverflowMaxCase(t: IntType, u: IntType, x: int, y: int)
    requires Standard(t) && Standard(u) && Fits(t, x) && Fits(u, y)
    requires BothUnsigned(t, u) && Right64(t, u)
    ensures AddWith(CastUint64CheckOverflowMax, t, u, x, y) == Exactly(t, x + y)
  {
    hide Cast, Abs, SafeCast;
    AddUnsigned(U64, x, y);
    CastFacts(t, x + y);
  }

  lemma CastIntCheckMinMaxCase(t: IntType, u: IntType, x: int, y: int)
    requires Standard(t) && Standard(u) && Fits(t, x) && Fits(u, y)
    requires u.signed && Small(t, u)
    ensures AddWith(CastIntCheckMinMax, t, u, x, y) == Exactly(t, x + y)
  {
    hide Cast, Abs, SafeCast;
    CastFacts(I32, x + y);
    CastFacts(t, x + y);
  }

  lemma CastInt64CheckMinMaxCase(t: IntType, u: IntType, x: int, y: int)
    requires Standard(t) && Standard(u) && Fits(t, x) && Fits(u, y)
    requires u.signed && (Left32(t, u) || Right32(t, u))
    ensures AddWith(CastInt64CheckMinMax, t, u, x, y) == Exactly(t, x + y)
  {
    hide Cast, Abs, SafeCast;
    AddSigned(x, y);
    CastFacts(t, x + y);
  }

  lemma CastInt64CheckMaxCase(t: IntType, u: IntType, x: int, y: int)
    requires Standard(t) && Standard(u) && Fits(t, x) && Fits(u, y)
    requires SignedUnsigned(t, u) && (Left32(t, u) || Right32(t, u))
    ensures AddWith(CastInt64CheckMax, t, u, x, y) == Exactly(t, x + y)
  {
    hide Cast, Abs, SafeCast;
    AddSigned(x, y);
    CastFacts(t, x + y);
  }

  lemma CastUint64CheckMinMaxCase(t: IntType, u: IntType, x: int, y: int)
    requires Standard(t) && Standard(u) && Fits(t, x) && Fits(u, y)
    requires UnsignedSigned(t, u) && t.bits == 64
    ensures AddWith(CastUint64CheckMinMax, t, u, x, y) == Exactly(t, x + y)
  {
    hide Cast, Abs, SafeCast;
    CastFacts(U64, x + y);
    CastFacts(t, x + y);
    if y < 0 { AbsExact(u, y); } else { AddUnsigned(U64, x, y); }
  }

  lemma CastUint64CheckMinMax2Case(t: IntType, u: IntType, x: int, y: int)
    requires Standard(t) && Standard(u) && Fits(t, x) && Fits(u, y)
    requires UnsignedSigned(t, u) && Right64(t, u)
    ensures AddWith(CastUint64CheckMinMax2, t, u, x, y) == Exactly(t, x + y)
  {
    hide Cast, Abs, SafeCast;
    CastFacts(t, x + y);
    CastFacts(U64, y);
    CastFacts(U64, 0 - Cast(U64, y));
    CastFacts(I64, x + y);
    if y >= 0 { AddUnsigned(U64, x, y); }
  }

  lemma CastInt64CheckOverflowCase(t: IntType, u: IntType, x: int, y: int)
    requires Standard(t) && Standard(u) && Fits(t, x) && Fits(u, y)
    requires BothSigned(t, u) && t.bits == 64
    ensures AddWith(CastInt64CheckOverflow, t, u, x, y) == Exactly(t, x + y)
  {
    hide Cast, Abs, SafeCast;
    AddPatterns(U64, I64, x, y);
  }

  lemma CastInt64CheckOverflowMinMaxCase(t: IntType, u: IntType, x: int, y: int)
    requires Standard(t) && Standard(u) && Fits(t, x) && Fits(u, y)
    requires BothSigned(t, u) && Right64(t, u)
    ensures AddWith(CastInt64CheckOverflowMinMax, t, u, x, y) == Exactly(t, x + y)
  {
    hide Cast, Abs, SafeCast;
    AddPatterns(U64, I64, x, y);
    CastFacts(t, x + y);
  }

  lemma CastInt64CheckOverflowMaxCase(t: IntType, u: IntType, x: int, y: int)
    requires Standard(t) && Standard(u) && Fits(t, x) && Fits(u, y)
    requires SignedUnsigned(t, u) && Left64(t, u)
    ensures AddWith(CastInt64CheckOverflowMax, t, u, x, y) == Exactly(t, x + y)
  {
    hide Cast, Abs, SafeCast;
    AddPatterns(U64, I64, x, y);
    CastFacts(t, x + y);
  }

  lemma ManualCheckInt64Uint64Case(t: IntType, u: IntType, x: int, y: int)
    requires Standard(t) && Standard(u) && Fits(t, x) && Fits(u, y)
    requires SignedUnsigned(t, u) && Both64(t, u)
    ensures AddWith(ManualCheckInt64Uint64, t, u, x, y) == Exactly(t, x + y)
  {
    hide Cast, Abs, SafeCast;
    AddPatterns(U64, I64, x, y);
    CastFacts(t, x + y);
    CastFacts(U64, y);
  }

  lemma ManualCheckCase(t: IntType, u: IntType, x: int, y: int)
    requires Standard(t) && Standard(u) && Fits(t, x) && Fits(u, y)
    requires SignedUnsigned(t, u) && Right64(t, u)
    ensures AddWith(ManualCheck, t, u, x, y) == Exactly(t, x + y)
  {
    hide Cast, Abs, SafeCast;
    CastFacts(U32, y / 0x1_0000_0000);
    if y < 0x1_0000_0000 {
      AddPatterns(U32, I32, x, y);
      SafeCastExact(t, I32, Cast(I32, Cast(U32, Cast(U32, x) + Cast(U32, y))));
    }
  }

  function SafeAdd(t: IntType, u: IntType, x: int, y: int): Option<int> {
    AddWith(AdditionMethod(t, u), t, u, x, y)
  }

  /** Addition stores the sum exactly when it fits the left type, for every pair of types and operands. */
  lemma SafeAddExact(t: IntType, u: IntType, x: int, y: int)
    requires Standard(t) && Standard(u) && Fits(t, x) && Fits(u, y)
    ensures SafeAdd(t, u, x, y) == Exactly(t, x + y)
  {
    hide AddWith, Fits, Exactly;
    match AdditionMethod(t, u)
    case CastIntCheckMax => CastIntCheckMaxCase(t, u, x, y);
    case CastUintCheckOverflow => CastUintCheckOverflowCase(t, u, x, y);
    case CastUintCheckOverflowMax => CastUintCheckOverflowMaxCase(t, u, x, y);
    case CastUint64CheckOverflow => CastUint64CheckOverflowCase(t, u, x, y);
    case CastUint64CheckOverflowMax => CastUint64CheckOverflowMaxCase(t, u, x, y);
    case CastIntCheckMinMax => CastIntCheckMinMaxCase(t, u, x, y);
    case CastInt64CheckMinMax => CastInt64CheckMinMaxCase(t, u, x, y);
    case CastInt64CheckMax => CastInt64CheckMaxCase(t, u, x, y);
    case CastUint64CheckMinMax => CastUint64CheckMinMaxCase(t, u, x, y);
    case CastUint64CheckMinMax2 => CastUint64CheckMinMax2Case(t, u, x, y);
    case CastInt64CheckOverflow => CastInt64CheckOverflowCase(t, u, x, y);
    case CastInt64CheckOverflowMinMax => CastInt64CheckOverflowMinMaxCase(t, u, x, y);
    case CastInt64CheckOverflowMax => CastInt64CheckOverflowMaxCase(t, u, x, y);
    case ManualCheckInt64Uint64 => ManualCheckInt64Uint64Case(t, u, x, y);
    case ManualCheck => ManualCheckCase(t, u, x, y);
    case AddError =>
  }
}
