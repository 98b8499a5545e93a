/** Hexadecimal printing and parsing of fixed-width byte blobs, least significant byte first. */
module Hex {
  import opened Common
  import opened LittleEndian
  import opened Powers
  import opened Radix

  const DIGITS: string := "0123456789abcdef"

  /** -1 stands for "not a hex digit". */
  function HexDigit(c: char): (d: int)
    ensures -1 <= d < 16
  {
    if '0' <= c <= '9' then c as int - '0' as int
    else if 'a' <= c <= 'f' then c as int - 'a' as int + 10
    else if 'A' <= c <= 'F' then c as int - 'A' as int + 10
    else -1
  }

  lemma DigitBack(d: nat)
    requires d < 16
    ensures HexDigit(DIGITS[d]) == d && !IsSpace(DIGITS[d]) && DIGITS[d] != 'x' && DIGITS[d] != 'X'
  {
    assert DIGITS[0] == '0' && DIGITS[9] == '9' && DIGITS[10] == 'a' && DIGITS[15] == 'f';
  }

  /** The digits printed are decimal digits and small letters; capitals are read as well, and nothing else. */
  lemma HexDigits(d: nat)
    requires d < 16
    ensures DIGITS[d] as int == if d < 10 then '0' as int + d else 'a' as int + d - 10
    ensures forall c: char ::
              HexDigit(c) == d <==> (if d < 10 then c as int == '0' as int + d
                                     else c as int == 'a' as int + d - 10 || c as int == 'A' as int + d - 10)
  {
  }

  predicate AllHex(s: string) { forall i :: 0 <= i < |s| ==> HexDigit(s[i]) >= 0 }

  function Nibbles(s: string): (d: seq<nat>)
    requires AllHex(s)
    ensures |d| == |s|
  {
    seq(|s|, i requires 0 <= i < |s| => HexDigit(s[i]))
  }

  /** The number a string of hex digits denotes. */
  function Number(s: string): nat
    requires AllHex(s)
  {
    Num(16, Nibbles(s))
  }

  /** Two digits a byte, most significant byte first. */
  function Print(data: seq<Byte>): string {
    if data == [] then "" else Print(data[1..]) + [DIGITS[data[0] / 16], DIGITS[data[0] % 16]]
  }

  lemma NumberSnoc(s: string, c: char)
    requires AllHex(s) && HexDigit(c) >= 0
    ensures AllHex(s + [c]) && Number(s + [c]) == Number(s) * 16 + HexDigit(c)
  {
    assert Nibbles(s + [c]) == Nibbles(s) + [HexDigit(c)];
    NumSnoc(16, Nibbles(s), HexDigit(c));
  }

  /** Printing keeps the number. */
  lemma {:induction false} PrintNumber(data: seq<Byte>)
    ensures |Print(data)| == 2 * |data| && AllHex(Print(data)) && Number(Print(data)) == Unlittle(data)
  {
    if data != [] {
      PrintNumber(data[1..]);
      var high, low := DIGITS[data[0] / 16], DIGITS[data[0] % 16];
      DigitBack(data[0] / 16);
      DigitBack(data[0] % 16);
      NumberSnoc(Print(data[1..]), high);
      NumberSnoc(Print(data[1..]) + [high], low);
      assert Print(data[1..]) + [high, low] == (Print(data[1..]) + [high]) + [low];
    }
  }

  // ---------------------------------------------------------------- parsing

  /** "0x" or "0X" at the front. */
  predicate HasPrefix(s: string) { |s| >= 2 && s[0] == '0' && (s[1] == 'x' || s[1] == 'X') }

  function RunLength(s: string): (n: nat)
    ensures n <= |s| && (forall i :: 0 <= i < n ==> HexDigit(s[i]) >= 0) && (n < |s| ==> HexDigit(s[n]) < 0)
  {
    if s == "" || HexDigit(s[0]) < 0 then 0 else 1 + RunLength(s[1..])
  }

  function Start(s: string): (n: nat)
    ensures n <= |s|
  {
    var lead := LeadSpaces(s);
    if HasPrefix(s[lead..]) then lead + 2 else lead
  }

  /** The hex digits a text starts with, after white space and an optional prefix. */
  function HexRun(s: string): (r: string)
    ensures AllHex(r)
  {
    s[Start(s)..][..RunLength(s[Start(s)..])]
  }

  /** The blob of `width` bytes parsed from a text: digits beyond the width are cut off at the high end. */
  function Parse(width: nat, s: string): seq<Byte> { Little(width, Number(HexRun(s))) }

  lemma RunLengthIs(s: string, n: nat)
    requires n <= |s| && (forall i :: 0 <= i < n ==> HexDigit(s[i]) >= 0) && (n < |s| ==> HexDigit(s[n]) < 0)
    ensures RunLength(s) == n
  {
  }

  /** White space, then "0x" or "0X", then digits, then anything else: the digits are what counts. */
  lemma PrefixedText(white: string, x: char, digits: string, rest: string)
    requires AllSpace(white) && AllHex(digits) && (rest != "" ==> HexDigit(rest[0]) < 0) && (x == 'x' || x == 'X')
    ensures HexRun(white + (['0', x] + (digits + rest))) == digits
  {
    hide HexDigit, IsSpace;
    var tail := ['0', x] + (digits + rest);
    assert !IsSpace('0') by { ZeroIsSolid(); }
    LeadSpacesIs(white + tail, |white|);
    assert (white + tail)[|white|..] == tail;
    assert (white + tail)[|white| + 2..] == digits + rest;
    assert (digits + rest)[..|digits|] == digits;
    RunLengthIs(digits + rest, |digits|);
  }

  lemma ZeroIsSolid()
    ensures !IsSpace('0')
  {
  }

  /** The same without a prefix. */
  lemma PlainText(white: string, digits: string, rest: string)
    requires AllSpace(white) && AllHex(digits) && (rest != "" ==> HexDigit(rest[0]) < 0)
    requires digits == "" && rest != "" ==> !IsSpace(rest[0])
    requires digits == "0" && rest != "" ==> rest[0] != 'x' && rest[0] != 'X'
    ensures HexRun(white + (digits + rest)) == digits
  {
    hide HexDigit, IsSpace, HasPrefix;
    var tail := digits + rest;
    DigitFacts(digits);
    NoPrefix(digits, rest);
    LeadSpacesIs(white + tail, |white|);
    assert (white + tail)[|white|..] == tail;
    assert tail[..|digits|] == digits;
    RunLengthIs(tail, |digits|);
  }

  lemma NoPrefix(digits: string, rest: string)
    requires AllHex(digits) && (rest != "" ==> HexDigit(rest[0]) < 0)
    requires digits == "0" && rest != "" ==> rest[0] != 'x' && rest[0] != 'X'
    ensures !HasPrefix(digits + rest)
  {
    DigitFacts(digits);
    assert HexDigit('0') == 0;
  }

  lemma DigitFacts(s: string)
    requires AllHex(s)
    ensures forall i :: 0 <= i < |s| ==> !IsSpace(s[i]) && s[i] != 'x' && s[i] != 'X'
  {
  }

  lemma {:induction false} PrintChars(data: seq<Byte>, i: nat)
    requires i < |Print(data)|
    ensures var c := Print(data)[i]; !IsSpace(c) && c != 'x' && c != 'X' && HexDigit(c) >= 0
  {
    var front := Print(data[1..]);
    if i < |front| {
      PrintChars(data[1..], i);
      assert Print(data)[i] == front[i];
    } else {
      DigitBack(data[0] / 16);
      DigitBack(data[0] % 16);
    }
  }

  lemma HexRunOfPrint(data: seq<Byte>)
    ensures HexRun(Print(data)) == Print(data)
  {
    hide HexDigit, IsSpace, Print;
    var s := Print(data);
    forall i | 0 <= i < |s| ensures !IsSpace(s[i]) && HexDigit(s[i]) >= 0 && s[i] != 'x' && s[i] != 'X' { PrintChars(data, i); }
    LeadSpacesIs(s, 0);
    assert s[0..] == s;
    RunLengthIs(s, |s|);
  }

  /** Printing and parsing again gives the blob back. */
  lemma ParsePrint(data: seq<Byte>)
    ensures Parse(|data|, Print(data)) == data
  {
    hide HexRun, Print, Number;
    PrintNumber(data);
    HexRunOfPrint(data);
    LittleUnlittle(data);
  }

  /** Parsing and printing keeps the number modulo the width. */
  lemma PrintParse(width: nat, s: string)
    ensures AllHex(Print(Parse(width, s))) && Pow(256, width) > 0
    ensures Number(Print(Parse(width, s))) == Number(HexRun(s)) % Pow(256, width)
  {
    hide HexRun, Print, Number, Pow;
    PrintNumber(Parse(width, s));
    LittleLow(width, Number(HexRun(s)));
  }

  // ---------------------------------------------------------------- the source's loops

  /** GetHex. */
  method GetHex(data: array<Byte>) returns (s: string)
    ensures s == Print(data[..])
  {
    hide Print;
    s := "";
    assert data[..data.Length] == data[..];
    PrintEmpty();
    var i := 0;
    while i < data.Length
      invariant i <= data.Length && s + Print(data[..data.Length - i]) == Print(data[..])
    {
      var b := data[data.Length - i - 1];
      PrintTop(data[..data.Length - i - 1], b);
      assert data[..data.Length - i] == data[..data.Length - i - 1] + [b];
      s := s + [DIGITS[b / 16], DIGITS[b % 16]];
      i := i + 1;
    }
    assert data[..0] == [];
  }

  lemma PrintEmpty()
    ensures Print([]) == ""
  {
  }

  /** The most significant byte is printed first. */
  lemma {:induction false} PrintTop(data: seq<Byte>, b: Byte)
    ensures Print(data + [b]) == [DIGITS[b / 16], DIGITS[b % 16]] + Print(data)
  {
    hide Print;
    PrintCons(data + [b]);
    if data == [] {
      PrintEmpty();
      assert data + [b] == [b] && [b][1..] == [];
    } else {
      PrintTop(data[1..], b);
      PrintCons(data);
      assert (data + [b])[1..] == data[1..] + [b];
    }
  }

  lemma PrintCons(data: seq<Byte>)
    requires data != []
    ensures Print(data) == Print(data[1..]) + [DIGITS[data[0] / 16], DIGITS[data[0] % 16]]
  {
  }

  /** Setting one byte of a blob. */
  lemma {:induction false} UnlittleUpdate(d: seq<Byte>, i: nat, x: Byte)
    requires i < |d|
    ensures Unlittle(d[i := x]) == Unlittle(d) + (x - d[i]) * Pow(256, i)
  {
    if i == 0 {
      assert d[0 := x][1..] == d[1..];
    } else {
      UnlittleUpdate(d[1..], i - 1, x);
      assert d[i := x][1..] == d[1..][i - 1 := x];
      MulAssoc(256, x - d[i], Pow(256, i - 1));
      MulAssoc(x - d[i], 256, Pow(256, i - 1));
    }
  }

  lemma {:induction false} UnlittleZero(d: seq<Byte>)
    requires forall i :: 0 <= i < |d| ==> d[i] == 0
    ensures Unlittle(d) == 0
  {
    if d != [] { UnlittleZero(d[1..]); }
  }

  /** One more digit in front of a suffix of the run. */
  lemma NumberFront(s: string, q: nat)
    requires AllHex(s) && 0 < q <= |s|
    ensures AllHex(s[q..]) && AllHex(s[q - 1..])
    ensures Number(s[q - 1..]) == HexDigit(s[q - 1]) * Pow(16, |s| - q) + Number(s[q..])
  {
    var d := HexDigit(s[q - 1]);
    NumConcat(16, [d], Nibbles(s[q..]));
    NumOne(16, d);
    assert Nibbles(s[q - 1..]) == [d] + Nibbles(s[q..]);
  }

  lemma SixteenSquared(n: nat)
    ensures Pow(16, 2 * n) == Pow(256, n) && Pow(16, 2 * n + 1) == 16 * Pow(256, n)
  {
    PowMul(16, 2, n);
    assert Pow(16, 2) == 16 * Pow(16, 1) && Pow(16, 1) == 16 * Pow(16, 0);
  }

  lemma OrNibbles(low: nat, high: nat)
    requires low < 16 && high < 16
    ensures Or(low, high * 16) == low + high * 16
  {
    assert Pow(2, 2) == 4 && Pow(2, 4) == 4 * Pow(2, 2);
    OrDisjoint(low, high * 16, 4);
  }

  /** What the blob holds once digits from `q` on are in it. */
  ghost predicate Holds(data: seq<Byte>, run: string, q: nat)
    requires AllHex(run)
  {
    q <= |run| && AllHex(run[q..]) && Unlittle(data) == Number(run[q..])
  }

  lemma NumberEmpty()
    ensures Number("") == 0
  {
  }

  /** Putting digit `q - 1` into a byte that is still zero. */
  lemma PutLow(data: seq<Byte>, run: string, q: nat, i: nat)
    requires AllHex(run) && Holds(data, run, q) && q > 0 && i < |data| && data[i] == 0 && |run| - q == 2 * i
    ensures Holds(data[i := HexDigit(run[q - 1])], run, q - 1)
  {
    hide Number, Pow, HexDigit, Unlittle;
    NumberFront(run, q);
    SixteenSquared(i);
    UnlittleUpdate(data, i, HexDigit(run[q - 1]));
  }

  /** Putting digit `q - 1` above the low digit of a byte. */
  lemma PutHigh(data: seq<Byte>, run: string, q: nat, i: nat)
    requires AllHex(run) && Holds(data, run, q) && q > 0 && i < |data| && data[i] < 16 && |run| - q == 2 * i + 1
    ensures data[i] + HexDigit(run[q - 1]) * 16 < 256
    ensures Holds(data[i := data[i] + HexDigit(run[q - 1]) * 16], run, q - 1)
  {
    hide Number, Pow, HexDigit, Unlittle;
    NumberFront(run, q);
    SixteenSquared(i);
    UnlittleUpdate(data, i, data[i] + HexDigit(run[q - 1]) * 16);
    MulAssoc(HexDigit(run[q - 1]), 16, Pow(256, i));
  }

  /** The blob is full, or all digits are in it: either way it is the parsed blob. */
  lemma HoldsIsParse(data: seq<Byte>, run: string, q: nat)
    requires AllHex(run) && Holds(data, run, q) && (q == 0 || |run| - q == 2 * |data|)
    ensures data == Little(|data|, Number(run))
  {
    hide Number, Pow, Little, Unlittle;
    var w := |data|;
    LittleUnlittle(data);
    LittleLow(w, Number(run));
    UnlittleBound(data);
    assert run[0..] == run;
    SplitNumber(run, q);
    SixteenSquared(w);
    if q > 0 {
      DivUnique(Number(run), Pow(256, w), Number(run[..q]), Unlittle(data));
    } else {
      DivUnique(Number(run), Pow(256, w), 0, Unlittle(data));
    }
    LittleUnlittle(Little(w, Number(run)));
  }

  lemma UnlittleBound(data: seq<Byte>)
    ensures Unlittle(data) < Pow(256, |data|)
  {
    LittleUnlittle(data);
  }

  lemma SplitNumber(s: string, q: nat)
    requires AllHex(s) && q <= |s|
    ensures AllHex(s[..q]) && AllHex(s[q..])
    ensures Number(s) == Number(s[..q]) * Pow(16, |s| - q) + Number(s[q..])
  {
    hide Nibbles, HexDigit, Num, Pow;
    HexSlices(s, q);
    NibblesSplit(s, q);
    NumConcat(16, Nibbles(s[..q]), Nibbles(s[q..]));
  }

  lemma HexSlices(s: string, q: nat)
    requires AllHex(s) && q <= |s|
    ensures AllHex(s[..q]) && AllHex(s[q..])
  {
  }

  lemma NibblesSplit(s: string, q: nat)
    requires AllHex(s) && q <= |s| && AllHex(s[..q]) && AllHex(s[q..])
    ensures Nibbles(s) == Nibbles(s[..q]) + Nibbles(s[q..])
  {
    hide HexDigit;
  }

  /** The filling loop of SetHex: digits from the last one on, two to a byte. */
  method Fill(data: array<Byte>, run: string)
    requires AllHex(run) && forall i :: 0 <= i < data.Length ==> data[i] == 0
    modifies data
    ensures data[..] == Little(data.Length, Number(run))
  {
    hide Number, Little, Unlittle, Holds, HexDigit, AllHex;
    var p1 := 0;
    var q := |run|;
    HoldsNothing(data[..], run);
    while q > 0 && p1 < data.Length
      invariant 0 <= q <= |run| && 0 <= p1 <= data.Length && Holds(data[..], run, q)
      invariant q > 0 ==> |run| - q == 2 * p1 && forall i :: p1 <= i < data.Length ==> data[i] == 0
      decreases q
    {
      PutLow(data[..], run, q, p1);
      HexDigitAt(run, q - 1);
      data[p1] := HexDigit(run[q - 1]);
      q := q - 1;
      if q > 0 {
        PutHigh(data[..], run, q, p1);
        HexDigitAt(run, q - 1);
        OrNibbles(data[p1], HexDigit(run[q - 1]));
        data[p1] := Or(data[p1], HexDigit(run[q - 1]) * 16);
        q := q - 1;
        p1 := p1 + 1;
      }
    }
    HoldsIsParse(data[..], run, q);
  }

  lemma HexDigitAt(s: string, i: nat)
    requires AllHex(s) && i < |s|
    ensures 0 <= HexDigit(s[i]) < 16
  {
  }

  lemma HoldsNothing(data: seq<Byte>, run: string)
    requires AllHex(run) && forall i :: 0 <= i < |data| ==> data[i] == 0
    ensures Holds(data, run, |run|)
  {
    UnlittleZero(data);
    NumberEmpty();
    assert run[|run|..] == "";
  }

  lemma PrefixLength(s: string)
    requires HasPrefix(s)
    ensures |s| >= 2
  {
  }

  lemma StartIs(s: string, lead: nat)
    requires lead == LeadSpaces(s)
    ensures Start(s) == if HasPrefix(s[lead..]) then lead + 2 else lead
  {
    hide LeadSpaces, HasPrefix;
  }

  lemma SuffixRun(s: string, begin: nat, end: nat)
    requires begin <= end <= |s| && (forall i :: begin <= i < end ==> HexDigit(s[i]) >= 0)
    requires end < |s| ==> HexDigit(s[end]) < 0
    ensures RunLength(s[begin..]) == end - begin
  {
    hide HexDigit, RunLength;
    var t := s[begin..];
    forall i | 0 <= i < end - begin ensures HexDigit(t[i]) >= 0 { assert t[i] == s[begin + i]; }
    assert end < |s| ==> t[end - begin] == s[end];
    RunLengthIs(t, end - begin);
  }

  lemma HexRunIs(s: string, begin: nat, end: nat)
    requires begin <= end <= |s| && begin == Start(s) && end - begin == RunLength(s[begin..])
    ensures HexRun(s) == s[begin..end]
  {
    hide HexDigit, Start, RunLength;
    assert s[begin..][..end - begin] == s[begin..end];
  }

  /** SetHex. */
  method SetHex(data: array<Byte>, s: string)
    requires '\0' !in s
    modifies data
    ensures data[..] == Parse(data.Length, s)
  {
    hide Number, Little, IsSpace, HexDigit, HexRun, LeadSpaces, Start, RunLength, HasPrefix;
    forall i | 0 <= i < data.Length { data[i] := 0; }
    var p := 0;
    while p < |s| && IsSpace(s[p])
      invariant p <= |s| && forall i :: 0 <= i < p ==> IsSpace(s[i])
    {
      p := p + 1;
    }
    LeadSpacesIs(s, p);
    ghost var lead := p;
    if HasPrefix(s[p..]) {
      PrefixLength(s[p..]);
      p := p + 2;
    }
    var begin := p;
    while p < |s| && HexDigit(s[p]) != -1
      invariant begin <= p <= |s| && forall i :: begin <= i < p ==> HexDigit(s[i]) >= 0
    {
      p := p + 1;
    }
    StartIs(s, lead);
    SuffixRun(s, begin, p);
    HexRunIs(s, begin, p);
    Fill(data, s[begin..p]);
  }
}
