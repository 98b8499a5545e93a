/** Parsing a decimal number into a fixed-width type with the checked operations. */
module SafeParse {
  import opened Common
  import opened MachineInt
  import opened Powers
  import opened SafeAddition
  import opened SafeSubtraction
  import opened SafeMultiplication

  predicate IsDigit(c: char) { '0' <= c <= '9' }

  function Digit(c: char): (d: nat)
    requires IsDigit(c)
    ensures d < 10
  {
    c as int - '0' as int
  }

  predicate AllDigits(s: string) { forall i :: 0 <= i < |s| ==> IsDigit(s[i]) }

  /** The number a string of digits denotes. */
  function Decimal(s: string): nat
    requires AllDigits(s)
  {
    if s == "" then 0 else Decimal(s[..|s| - 1]) * 10 + Digit(s[|s| - 1])
  }

  /** How many digits the string starts with. */
  function DigitRun(s: string): (n: nat)
    ensures n <= |s| && AllDigits(s[..n]) && (n < |s| ==> !IsDigit(s[n]))
  {
    if s == "" || !IsDigit(s[0]) then 0
    else
      var n := 1 + DigitRun(s[1..]);
      assert s[..n] == [s[0]] + s[1..][..n - 1];
      n
  }

  predicate HasSign(s: string) { s != "" && (s[0] == '-' || s[0] == '+') }

  function WithSign(negative: bool, v: nat): int { if negative then 0 - v else v }

  /** The number a text starts with, after an optional sign. */
  function Prefix(s: string): int {
    var body := if HasSign(s) then s[1..] else s;
    var value := Decimal(body[..DigitRun(body)]);
    WithSign(s != "" && s[0] == '-', value)
  }

  /** What a text of a sign, digits and anything else stands for: a minus negates, a plus does not, the rest is ignored. */
  lemma PrefixIs(digits: string, rest: string)
    requires AllDigits(digits) && (rest != "" ==> !IsDigit(rest[0]))
    ensures Prefix(['-'] + (digits + rest)) == 0 - Decimal(digits)
    ensures Prefix(['+'] + (digits + rest)) == Decimal(digits)
    ensures !HasSign(digits + rest) ==> Prefix(digits + rest) == Decimal(digits)
    ensures HasSign(digits + rest) <==> digits == "" && rest != "" && (rest[0] == '-' || rest[0] == '+')
  {
    hide Decimal, DigitRun;
    var body := digits + rest;
    assert body[..|digits|] == digits;
    DigitRunIs(body, |digits|);
    assert (['-'] + body)[1..] == body;
    assert (['+'] + body)[1..] == body;
    if digits != "" { assert IsDigit(body[0]) by { assert IsDigit(digits[0]); } }
  }

  lemma DigitAt(s: string, n: nat, k: nat)
    requires k < n <= |s| && AllDigits(s[..n])
    ensures IsDigit(s[k])
  {
    assert s[..n][k] == s[k];
  }

  lemma DigitRunIs(s: string, n: nat)
    requires n <= |s| && AllDigits(s[..n]) && (n < |s| ==> !IsDigit(s[n]))
    ensures DigitRun(s) == n
  {
    var m := DigitRun(s);
    if m < n { DigitAt(s, n, m); }
    if n < m { DigitAt(s, m, n); }
  }

  lemma DecimalSnoc(s: string, c: char)
    requires AllDigits(s) && IsDigit(c)
    ensures AllDigits(s + [c]) && Decimal(s + [c]) == Decimal(s) * 10 + Digit(c)
  {
    assert (s + [c])[..|s|] == s;
  }

  /** Reading on never makes the number smaller. */
  lemma {:induction false} DecimalGrows(s: string, n: nat)
    requires AllDigits(s) && n <= |s|
    ensures AllDigits(s[..n]) && Decimal(s[..n]) <= Decimal(s)
  {
    if n < |s| {
      DecimalGrows(s[..|s| - 1], n);
      assert s[..|s| - 1][..n] == s[..n];
    } else {
      assert s[..n] == s;
    }
  }

  /** One digit: times ten unless still zero, then plus or minus the digit; None as soon as a step does not fit. */
  function Accumulate(t: IntType, acc: int, negative: bool, d: nat): Option<int>
    requires Standard(t) && Fits(t, acc) && d < 10
  {
    SafeMultiplyExact(t, t, acc, 10);
    match (if acc != 0 then SafeMultiply(t, t, acc, 10) else Some(acc))
    case None => None
    case Some(scaled) => if negative then SafeSubtract(t, t, scaled, d) else SafeAdd(t, t, scaled, d)
  }

  /** A step fails exactly when the number read so far does not fit. */
  lemma AccumulateExact(t: IntType, v: nat, negative: bool, d: nat)
    requires Standard(t) && d < 10 && Fits(t, WithSign(negative, v))
    ensures Accumulate(t, WithSign(negative, v), negative, d) == Exactly(t, WithSign(negative, v * 10 + d))
  {
    hide SafeMultiply, SafeAdd, SafeSubtract;
    var acc := WithSign(negative, v);
    SafeMultiplyExact(t, t, acc, 10);
    if Fits(t, acc * 10) {
      SafeAddExact(t, t, acc * 10, d);
      SafeSubtractExact(t, t, acc * 10, d);
    }
  }

  lemma StaysUnfit(t: IntType, negative: bool, v: nat, w: nat)
    requires Standard(t) && v <= w
    ensures Fits(t, 0) && (Fits(t, WithSign(negative, w)) ==> Fits(t, WithSign(negative, v)))
  {
  }

  /** The digit loop of SafeTtoI. */
  method ParseDigits(t: IntType, body: string, negative: bool) returns (r: Option<int>)
    requires Standard(t)
    ensures r == Exactly(t, WithSign(negative, Decimal(body[..DigitRun(body)])))
  {
    hide Accumulate, Fits, Decimal, DigitRun, IsDigit;
    var acc := 0;
    var n: nat := 0;
    DecimalEmpty();
    StaysUnfit(t, negative, 0, 0);
    assert body[..0] == "";
    while n != |body|
      invariant n <= |body| && AllDigits(body[..n]) && acc == WithSign(negative, Decimal(body[..n])) && Fits(t, acc)
    {
      if !IsDigit(body[n]) {
        break;
      }
      AccumulateExact(t, Decimal(body[..n]), negative, Digit(body[n]));
      DecimalSnoc(body[..n], body[n]);
      assert body[..n] + [body[n]] == body[..n + 1];
      var next := Accumulate(t, acc, negative, Digit(body[n]));
      if next == None {
        StaysTooBig(body, n + 1);
        StaysUnfit(t, negative, Decimal(body[..n + 1]), Decimal(body[..DigitRun(body)]));
        return None;
      }
      acc := next.value;
      n := n + 1;
    }
    DigitRunIs(body, n);
    r := Some(acc);
  }

  lemma DecimalEmpty()
    ensures Decimal("") == 0
  {
  }

  /** SafeTtoI: the number at the start of a text, or an overflow (None) for the empty text and for what does not fit. */
  method Parse(t: IntType, s: string) returns (r: Option<int>)
    requires Standard(t) && '\0' !in s
    ensures r == if s == "" then None else Exactly(t, Prefix(s))
  {
    if s == "" {
      return None;
    }
    if s[0] == '-' {
      r := ParseDigits(t, s[1..], true);
    } else if s[0] == '+' {
      r := ParseDigits(t, s[1..], false);
    } else {
      r := ParseDigits(t, s, false);
    }
  }

  lemma StaysTooBig(body: string, n: nat)
    requires n <= |body| && AllDigits(body[..n])
    ensures n <= DigitRun(body) && Decimal(body[..n]) <= Decimal(body[..DigitRun(body)])
  {
    var m := DigitRun(body);
    if m < n { DigitAt(body, n, m); }
    DecimalGrows(body[..m], n);
    assert body[..m][..n] == body[..n];
  }

  /** Digits written out: the last has weight one, the one before ten, and so on; text behind them is ignored. */
  lemma {:induction false} DecimalWeights(s: string)
    requires s != "" && AllDigits(s)
    ensures Decimal(s) == (s[0] as int - '0' as int) * Pow(10, |s| - 1) + Decimal(s[1..])
  {
    var last := |s| - 1;
    if last == 0 {
      assert s[..0] == "" && s[1..] == "";
      assert Pow(10, 0) == 1;
    } else {
      var front := s[..last];
      DecimalWeights(front);
      assert s[1..] == front[1..] + [s[last]];
      DecimalSnoc(front[1..], s[last]);
      PowNext(10, last - 1);
      MulAssoc(front[0] as int - '0' as int, Pow(10, last - 1), 10);
    }
  }
}
