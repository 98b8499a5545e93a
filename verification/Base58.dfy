/** Base58 text for byte strings, plain and with a checksum. */
module Base58 {
  import opened Common
  import opened Powers
  import opened Radix
  import opened Base58Bounds

  /** The 58 digits, in ascending order; four look-alikes are left out. */
  const ALPHABET: string := "123456789" + "ABCDEFGH" + "JKLMN" + "PQRSTUVWXYZ" + "abcdefghijk" + "mnopqrstuvwxyz"

  /** Position of a character in a string, as strchr finds it; the length when absent. */
  function Find(s: string, c: char): (i: nat)
    ensures i <= |s| && (i < |s| ==> s[i] == c) && (forall j :: 0 <= j < i ==> s[j] != c)
  {
    if s == [] || s[0] == c then 0 else 1 + Find(s[1..], c)
  }

  function DigitOf(c: char): nat { Find(ALPHABET, c) }

  predicate InAlphabet(c: char) { DigitOf(c) < 58 }

  /** Each character is below the next. */
  predicate Rising(s: string) { forall i :: 0 <= i < |s| - 1 ==> s[i] < s[i + 1] }

  lemma RisingConcat(s: string, t: string)
    requires Rising(s) && Rising(t) && (s != "" && t != "" ==> s[|s| - 1] < t[0])
    ensures Rising(s + t)
  {
  }

  lemma {:induction false} RisingTo(s: string, i: nat, j: nat)
    requires i < j < |s| && Rising(s)
    ensures s[i] < s[j]
  {
    if i < j - 1 { RisingTo(s, i, j - 1); }
  }

  lemma AlphabetRises()
    ensures Rising(ALPHABET) && |ALPHABET| == 58 && ALPHABET[0] == '1'
  {
    hide Rising;
    var a, b, c, d, e, f := "123456789", "ABCDEFGH", "JKLMN", "PQRSTUVWXYZ", "abcdefghijk", "mnopqrstuvwxyz";
    RisingPieces();
    RisingConcat(a, b);
    RisingConcat(a + b, c);
    RisingConcat(a + b + c, d);
    RisingConcat(a + b + c + d, e);
    RisingConcat(a + b + c + d + e, f);
    assert ALPHABET == a + b + c + d + e + f;
    assert ALPHABET[0] == a[0];
  }

  lemma RisingPieces()
    ensures Rising("123456789") && Rising("ABCDEFGH") && Rising("JKLMN") && Rising("PQRSTUVWXYZ")
    ensures Rising("abcdefghijk") && Rising("mnopqrstuvwxyz")
  {
  }

  lemma AlphabetFacts()
    ensures |ALPHABET| == 58 && ALPHABET[0] == '1' && Distinct(ALPHABET)
    ensures forall i :: 0 <= i < 58 ==> !IsSpace(ALPHABET[i]) && ALPHABET[i] != '\0'
  {
    AlphabetRises();
    forall i, j | 0 <= i < j < 58 ensures ALPHABET[i] < ALPHABET[j] { RisingTo(ALPHABET, i, j); }
    forall i | 0 <= i < 58 ensures ALPHABET[i] >= '1' {
      if i > 0 { RisingTo(ALPHABET, 0, i); }
    }
  }

  /** A letter or digit of ASCII. */
  predicate Alphanumeric(c: char) { '0' <= c <= '9' || 'A' <= c <= 'Z' || 'a' <= c <= 'z' }

  /** The alphabet is all letters and digits but zero, capital o, capital i and small l. */
  lemma AlphabetIs(c: char)
    ensures InAlphabet(c) <==> Alphanumeric(c) && c != '0' && c != 'O' && c != 'I' && c != 'l'
  {
    AlphabetFacts();
    AlphabetPieces();
    if Alphanumeric(c) && c != '0' && c != 'O' && c != 'I' && c != 'l' {
      var d := PlaceInAlphabet(c);
      DigitOfChar(d);
    }
  }

  /** The alphabet, run by run. */
  lemma AlphabetPieces()
    ensures |ALPHABET| == 58
    ensures forall i: nat :: i < 9 ==> ALPHABET[i] as int == '1' as int + i
    ensures forall i: nat :: 9 <= i < 17 ==> ALPHABET[i] as int == 'A' as int + i - 9
    ensures forall i: nat :: 17 <= i < 22 ==> ALPHABET[i] as int == 'J' as int + i - 17
    ensures forall i: nat :: 22 <= i < 33 ==> ALPHABET[i] as int == 'P' as int + i - 22
    ensures forall i: nat :: 33 <= i < 44 ==> ALPHABET[i] as int == 'a' as int + i - 33
    ensures forall i: nat :: 44 <= i < 58 ==> ALPHABET[i] as int == 'm' as int + i - 44
  {
  }

  lemma PlaceInAlphabet(c: char) returns (d: nat)
    requires Alphanumeric(c) && c != '0' && c != 'O' && c != 'I' && c != 'l'
    ensures d < 58 == |ALPHABET| && ALPHABET[d] == c
  {
    AlphabetPieces();
    d := if c <= '9' then c as int - '1' as int
         else if c <= 'H' then c as int - 'A' as int + 9
         else if c <= 'N' then c as int - 'J' as int + 17
         else if c <= 'Z' then c as int - 'P' as int + 22
         else if c <= 'k' then c as int - 'a' as int + 33
         else c as int - 'm' as int + 44;
  }

  lemma DigitOfChar(d: nat)
    requires d < 58
    ensures DigitOf(ALPHABET[d]) == d && InAlphabet(ALPHABET[d])
  {
    AlphabetFacts();
  }

  lemma CharOfDigit(c: char)
    requires InAlphabet(c)
    ensures ALPHABET[DigitOf(c)] == c && !IsSpace(c) && (DigitOf(c) == 0 <==> c == '1')
  {
    AlphabetFacts();
    if c == '1' { DigitOfChar(0); }
  }

  // ---------------------------------------------------------------- specification

  function Zeros(n: nat): (s: seq<nat>)
    ensures |s| == n && forall i :: 0 <= i < n ==> s[i] == 0
  {
    seq(n, i => 0)
  }

  /** The same number in another base, each leading zero digit kept as one zero digit. */
  function Convert(from: nat, to: nat, x: seq<nat>): seq<nat>
    requires to >= 2
  {
    Zeros(LeadingZeroes(x)) + ToBase(to, Num(from, x))
  }

  function Chars(d: seq<nat>): (s: string)
    requires Digits(58, d)
    ensures |s| == |d|
  {
    seq(|d|, i requires 0 <= i < |d| => assert |ALPHABET| == 58; ALPHABET[d[i]])
  }

  predicate AllInAlphabet(s: string) {
    forall i :: 0 <= i < |s| ==> InAlphabet(s[i])
  }

  function DigitsOf(s: string): (d: seq<nat>)
    ensures |d| == |s|
  {
    seq(|s|, i requires 0 <= i < |s| => DigitOf(s[i]))
  }

  /** What EncodeBase58 computes. */
  function Encode(v: seq<Byte>): string {
    ConvertDigits(256, 58, v);
    Chars(Convert(256, 58, v))
  }

  function TrimEnd(s: string): (t: string)
    ensures |t| <= |s| && t == s[..|t|] && (forall i :: |t| <= i < |s| ==> IsSpace(s[i]))
    ensures t != [] ==> !IsSpace(t[|t| - 1])
  {
    if s == [] || !IsSpace(s[|s| - 1]) then s else TrimEnd(s[..|s| - 1])
  }

  /** A text without the white space around it. */
  function Trim(s: string): string { TrimEnd(s[LeadSpaces(s)..]) }

  /** What DecodeBase58 computes; None where it returns false. */
  function Decode(s: string): Option<seq<Byte>> {
    var t := Trim(s);
    if AllInAlphabet(t) then
      DigitsOfBound(t);
      ConvertDigits(58, 256, DigitsOf(t));
      Some(AsBytes(Convert(58, 256, DigitsOf(t))))
    else None
  }

  function AsBytes(d: seq<nat>): (v: seq<Byte>)
    requires Digits(256, d)
    ensures v == d
  {
    seq(|d|, i requires 0 <= i < |d| => d[i])
  }

  lemma ConvertDigits(from: nat, to: nat, x: seq<nat>)
    requires to >= 2
    ensures Digits(to, Convert(from, to, x))
  {
    ToBaseDigits(to, Num(from, x));
  }

  lemma DigitsOfBound(t: string)
    requires AllInAlphabet(t)
    ensures Digits(58, DigitsOf(t))
  {
  }

  // ---------------------------------------------------------------- round trips

  lemma {:induction false} LeadingZeroesIs(s: seq<nat>, z: nat)
    requires z <= |s| && (forall i :: 0 <= i < z ==> s[i] == 0) && (z < |s| ==> s[z] != 0)
    ensures LeadingZeroes(s) == z
  {
  }

  /** Converting there and back is the identity, leading zeroes included. */
  lemma ConvertBack(from: nat, to: nat, x: seq<nat>)
    requires from >= 2 && to >= 2 && Digits(from, x)
    ensures Convert(to, from, Convert(from, to, x)) == x
  {
    hide Num, ToBase, LeadingZeroes;
    var z := LeadingZeroes(x);
    var n := Num(from, x);
    var y := Convert(from, to, x);
    ToBaseDigits(to, n);
    ToBaseZero(to);
    LeadingZeroesIs(y, z);
    NumZeroes(to, y, z);
    assert y[z..] == ToBase(to, n);
    StripIsToBase(from, x);
    assert Zeros(z) == x[..z];
  }

  lemma ToBaseZero(base: nat)
    requires base >= 2
    ensures ToBase(base, 0) == []
  {
  }

  lemma CharsThenDigits(d: seq<nat>)
    requires Digits(58, d)
    ensures AllInAlphabet(Chars(d)) && DigitsOf(Chars(d)) == d
  {
    hide DigitOf;
    forall i | 0 <= i < |d| ensures DigitOf(Chars(d)[i]) == d[i] && InAlphabet(Chars(d)[i]) { DigitOfChar(d[i]); }
  }

  lemma DigitsThenChars(s: string)
    requires AllInAlphabet(s)
    ensures Digits(58, DigitsOf(s)) && Chars(DigitsOf(s)) == s
  {
    hide DigitOf;
    DigitsOfBound(s);
    forall i | 0 <= i < |s| ensures Chars(DigitsOf(s))[i] == s[i] { CharOfDigit(s[i]); }
  }

  /** A text of alphabet characters has nothing to trim. */
  lemma TrimPlain(s: string)
    requires AllInAlphabet(s)
    ensures Trim(s) == s
  {
    hide InAlphabet, IsSpace;
    forall i | 0 <= i < |s| ensures !IsSpace(s[i]) { CharOfDigit(s[i]); }
    assert LeadSpaces(s) == 0;
    assert s[0..] == s;
  }

  /** Decoding succeeds with `v` exactly on the texts that are the encoding of `v` between white space. */
  lemma DecodeIffEncoded(s: string, v: seq<Byte>)
    ensures Decode(s) == Some(v) <==> Trim(s) == Encode(v)
  {
    hide Convert, Trim, AllInAlphabet;
    var t := Trim(s);
    ConvertDigits(256, 58, v);
    if AllInAlphabet(t) {
      DigitsThenChars(t);
      if Decode(s) == Some(v) {
        ConvertBack(58, 256, DigitsOf(t));
      }
    }
    if t == Encode(v) {
      CharsThenDigits(Convert(256, 58, v));
      ConvertBack(256, 58, v);
    }
  }

  /** Every byte string survives encoding and decoding, leading zero bytes included. */
  lemma DecodeEncode(v: seq<Byte>)
    ensures Decode(Encode(v)) == Some(v)
  {
    hide Convert, Trim, Decode;
    ConvertDigits(256, 58, v);
    CharsThenDigits(Convert(256, 58, v));
    TrimPlain(Encode(v));
    DecodeIffEncoded(Encode(v), v);
  }

  /** Exactly the texts of alphabet characters between white space decode. */
  lemma DecodesIff(s: string)
    ensures Decode(s).Some? <==> AllInAlphabet(Trim(s))
    ensures Decode(s).Some? ==> Encode(Decode(s).value) == Trim(s)
  {
    if Decode(s).Some? { DecodeIffEncoded(s, Decode(s).value); }
  }

  /** A '1' for every leading zero byte, and the same number in base 58, whose first digit is then not zero. */
  lemma EncodeIs(v: seq<Byte>, z: nat)
    requires z <= |v| && (forall i :: 0 <= i < z ==> v[i] == 0) && (z < |v| ==> v[z] != 0)
    ensures var t := Encode(v);
            && z <= |t| && (forall i :: 0 <= i < z ==> t[i] == '1') && (z < |t| ==> t[z] != '1')
            && (z < |t| <==> z < |v|) && AllInAlphabet(t) && Num(58, DigitsOf(t)) == Num(256, v)
  {
    hide Num, ToBase, LeadingZeroes, Chars, InAlphabet;
    LeadingZeroesIs(v, z);
    ConvertDigits(256, 58, v);
    var d := Convert(256, 58, v);
    CharsThenDigits(d);
    ToBaseDigits(58, Num(256, v));
    NumZeroes(58, d, z);
    assert d[z..] == ToBase(58, Num(256, v));
    NumZeroes(256, v, z);
    if z < |v| { NumPositive(256, v[z..]); } else { NumNone(256); assert v[z..] == []; ToBaseZero(58); }
    forall i | 0 <= i < |d| ensures Encode(v)[i] == '1' <==> d[i] == 0 { CharOfDigit(Encode(v)[i]); }
  }

  /** Different byte strings have different texts. */
  lemma EncodeInjective(v: seq<Byte>, w: seq<Byte>)
    requires Encode(v) == Encode(w)
    ensures v == w
  {
    DecodeEncode(v);
    DecodeEncode(w);
  }

  // ---------------------------------------------------------------- in place

  lemma NumPrefixStep(base: nat, s: seq<nat>, p: nat)
    requires p < |s|
    ensures Num(base, s[..p + 1]) == Num(base, s[..p]) * base + s[p]
  {
    assert s[..p + 1] == s[..p] + [s[p]];
    NumSnoc(base, s[..p], s[p]);
  }

  /** A buffer that is large enough never carries out: the asserts on `carry`. */
  lemma NoCarry(from: nat, to: nat, x: seq<nat>, n: nat, size: nat, low: nat, carry: nat)
    requires from > 0 && to > 0 && Digits(from, x) && |x| <= n && Pow(from, n) <= Pow(to, size)
    requires low + carry * Pow(to, size) == Num(from, x)
    ensures carry == 0
  {
    hide Pow, Num;
    NumBound(from, x);
    PowMono(from, |x|, n);
    if carry > 0 { MulMono(1, carry, Pow(to, size)); }
  }

  lemma {:induction false} NumOfZeros(base: nat, s: seq<nat>)
    requires forall i :: 0 <= i < |s| ==> s[i] == 0
    ensures Num(base, s) == 0
  {
    NumZeroes(base, s, |s|);
  }

  /** What the buffer holds once all of `x` is in it. */
  lemma BufferHolds(from: nat, to: nat, x: seq<nat>, z: nat, b: seq<nat>)
    requires from >= 2 && to >= 2 && Digits(to, b) && z == LeadingZeroes(x) && Num(to, b) == Num(from, x[z..])
    ensures Convert(from, to, x) == Zeros(z) + b[LeadingZeroes(b)..]
  {
    hide Num, ToBase;
    NumZeroes(from, x, z);
    StripIsToBase(to, b);
  }

  lemma CharsSnoc(d: seq<nat>, e: nat)
    requires Digits(58, d) && e < 58
    ensures Digits(58, d + [e]) && Chars(d + [e]) == Chars(d) + [ALPHABET[e]]
  {
  }

  /** One character more: what the bytes read so far amount to, and that the buffer holds it. */
  lemma PushStep(from: nat, to: nat, x: seq<nat>, p: nat, size: nat, low: nat, carry: nat)
    requires from > 0 && to > 0 && p < |x| && Digits(from, x) && Pow(from, |x|) <= Pow(to, size)
    requires low + carry * Pow(to, size) == Num(from, x[..p]) * from + x[p]
    ensures carry == 0 && low == Num(from, x[..p + 1])
  {
    hide Pow, Num;
    NumPrefixStep(from, x, p);
    NoCarry(from, to, x[..p + 1], |x|, size, low, carry);
  }

  /** The main loop: `b58 = b58 * 256 + ch` for every byte from `start` on. */
  method PushBytes(b58: array<nat>, v: seq<Byte>, start: nat)
    requires start <= |v| && b58.Length == EncodeSize(|v| - start) && forall i :: 0 <= i < b58.Length ==> b58[i] == 0
    modifies b58
    ensures Digits(58, b58[..]) && Num(58, b58[..]) == Num(256, v[start..])
  {
    hide Num, Pow, EncodeSize;
    ghost var x: seq<nat> := v[start..];
    var p := start;
    NumOfZeros(58, b58[..]);
    NumOfZeros(256, x[..0]);
    EncodeFits(|x|);
    while p != |v|
      invariant start <= p <= |v| && Digits(58, b58[..]) && Num(58, b58[..]) == Num(256, x[..p - start])
    {
      assert v[p] == x[p - start];
      var carry := MulAdd(b58, 58, 256, v[p]);
      PushStep(256, 58, x, p - start, b58.Length, Num(58, b58[..]), carry);
      assert carry == 0;
      p := p + 1;
    }
    assert x[..|x|] == x;
  }

  /** Skips the zeroes at the front of the buffer. */
  method FirstNonZero(b: array<nat>) returns (iter: nat)
    ensures iter == LeadingZeroes(b[..])
  {
    hide LeadingZeroes;
    iter := 0;
    while iter != b.Length && b[iter] == 0
      invariant iter <= b.Length && forall i :: 0 <= i < iter ==> b[i] == 0
    {
      iter := iter + 1;
    }
    LeadingZeroesIs(b[..], iter);
  }

  /** Appends the characters of the digits from `start` on. */
  method Translate(zeroes: nat, b58: array<nat>, start: nat) returns (str: string)
    requires Digits(58, b58[..]) && start <= b58.Length
    ensures Digits(58, Zeros(zeroes) + b58[start..]) && str == Chars(Zeros(zeroes) + b58[start..])
  {
    hide Chars;
    str := seq(zeroes, i => '1');
    var iter := start;
    ghost var done := Zeros(zeroes);
    OnesAreZeros(zeroes);
    while iter != b58.Length
      invariant start <= iter <= b58.Length
      invariant done == Zeros(zeroes) + b58[start..iter] && Digits(58, done) && str == Chars(done)
    {
      CharsSnoc(done, b58[iter]);
      done := done + [b58[iter]];
      str := str + [ALPHABET[b58[iter]]];
      iter := iter + 1;
    }
    assert b58[start..iter] == b58[start..];
  }

  method EncodeBase58(v: seq<Byte>) returns (str: string)
    ensures str == Encode(v)
  {
    hide Num, Pow, Convert, Chars, LeadingZeroes;
    var zeroes, p := 0, 0;
    while p != |v| && v[p] == 0
      invariant zeroes == p <= |v| && forall i :: 0 <= i < p ==> v[i] == 0
    {
      p := p + 1;
      zeroes := zeroes + 1;
    }
    LeadingZeroesIs(v, p);
    var b58 := new nat[(|v| - p) * 138 / 100 + 1](_ => 0);
    PushBytes(b58, v, p);
    BufferHolds(256, 58, v, zeroes, b58[..]);
    var iter := FirstNonZero(b58);
    assert b58[..][iter..] == b58[iter..];
    str := Translate(zeroes, b58, iter);
  }

  lemma OnesAreZeros(n: nat)
    ensures Digits(58, Zeros(n)) && Chars(Zeros(n)) == seq(n, i => '1')
  {
    AlphabetFacts();
  }

  /** Trimming the end, when everything from `n` on is white space and the character before is not. */
  lemma {:induction false} TrimEndIs(s: string, n: nat)
    requires n <= |s| && (forall i :: n <= i < |s| ==> IsSpace(s[i])) && (n > 0 ==> !IsSpace(s[n - 1]))
    ensures TrimEnd(s) == s[..n]
  {
    if n < |s| {
      TrimEndIs(s[..|s| - 1], n);
      assert s[..|s| - 1][..n] == s[..n];
    } else {
      assert s[..n] == s;
    }
  }

  lemma ForeignStays(t: string, i: nat, j: nat)
    requires i <= j < |t| && !InAlphabet(t[i]) && !IsSpace(t[j])
    ensures !AllInAlphabet(TrimEnd(t))
  {
    hide InAlphabet, IsSpace;
    var u := TrimEnd(t);
    assert j < |u|;
    assert u[i] == t[i];
  }

  /** A foreign character inside the trimmed text makes decoding fail. */
  lemma DecodeFails(s: string, lead: nat, p: nat, q: nat)
    requires lead == LeadSpaces(s) <= p <= q < |s| && !InAlphabet(s[p]) && !IsSpace(s[q])
    ensures Decode(s) == None
  {
    hide InAlphabet, AllInAlphabet, IsSpace, Convert, LeadSpaces, TrimEnd, DigitsOf, AsBytes, Digits;
    ForeignStays(s[lead..], p - lead, q - lead);
  }

  /** The main loop: `b256 = b256 * 58 + ch` up to the next white space; false on a foreign character. */
  method PushChars(b256: array<nat>, s: string, start: nat) returns (ok: bool, p: nat)
    requires start <= |s| && b256.Length == DecodeSize(|s| - start) && forall i :: 0 <= i < b256.Length ==> b256[i] == 0
    modifies b256
    ensures start <= p <= |s| && (forall i :: start <= i < p ==> !IsSpace(s[i])) && AllInAlphabet(s[start..p])
    ensures !ok ==> p < |s| && !IsSpace(s[p]) && !InAlphabet(s[p])
    ensures ok ==> (p < |s| ==> IsSpace(s[p]))
    ensures Digits(256, b256[..]) && Num(256, b256[..]) == Num(58, DigitsOf(s[start..p]))
  {
    hide Num, Pow, DecodeSize, IsSpace, DigitOf;
    p := start;
    NumOfZeros(256, b256[..]);
    ghost var d: seq<nat> := [];
    NumOfZeros(58, d);
    DecodeFits(|s| - start);
    AlphabetFacts();
    while p != |s| && !IsSpace(s[p])
      invariant start <= p <= |s| && AllInAlphabet(s[start..p]) && d == DigitsOf(s[start..p]) && Digits(58, d)
      invariant Digits(256, b256[..]) && Num(256, b256[..]) == Num(58, d)
      invariant forall i :: start <= i < p ==> !IsSpace(s[i])
    {
      var ch := DigitOf(s[p]);
      if ch == |ALPHABET| {
        return false, p;
      }
      DigitOfBound(s[p]);
      var carry := MulAdd(b256, 256, 58, ch);
      assert (d + [ch])[..|d|] == d && (d + [ch])[..|d| + 1] == d + [ch];
      FitsLonger(58, |d| + 1, |s| - start, 256, b256.Length);
      PushStep(58, 256, d + [ch], |d|, b256.Length, Num(256, b256[..]), carry);
      assert carry == 0;
      assert s[start..p + 1] == s[start..p] + [s[p]];
      d := d + [ch];
      p := p + 1;
    }
    ok := true;
  }

  lemma DigitOfBound(c: char)
    ensures DigitOf(c) <= |ALPHABET|
  {
  }

  method DecodeBase58(s: string) returns (r: Option<seq<Byte>>)
    requires '\0' !in s
    ensures r == Decode(s)
  {
    hide Num, Pow, Convert, LeadingZeroes, Decode, Trim, DigitOf, IsSpace, InAlphabet, AllInAlphabet, LeadSpaces, DigitsOf;
    var p := 0;
    while p != |s| && IsSpace(s[p])
      invariant p <= |s| && forall i :: 0 <= i < p ==> IsSpace(s[i])
    {
      p := p + 1;
    }
    LeadSpacesIs(s, p);
    ghost var lead := p;

    var zeroes := 0;
    while p != |s| && s[p] == '1'
      invariant zeroes == p - lead && lead <= p <= |s| && forall i :: lead <= i < p ==> s[i] == '1'
    {
      zeroes := zeroes + 1;
      p := p + 1;
    }

    ghost var start := p;
    var b256 := new nat[(|s| - p) * 733 / 1000 + 1](_ => 0);
    var ok;
    ok, p := PushChars(b256, s, p);
    if !ok {
      DecodeFails(s, lead, p, p);
      return None;
    }

    ghost var end := p;
    while p != |s| && IsSpace(s[p])
      invariant end <= p <= |s| && forall i :: end <= i < p ==> IsSpace(s[i])
    {
      p := p + 1;
    }
    if p != |s| {
      SpaceIsForeign(s[end]);
      DecodeFails(s, lead, end, p);
      return None;
    }
    ghost var d := DigitsOf(s[start..end]);
    DecodeSucceeds(s, lead, start, end, d);
    assert (Zeros(zeroes) + d)[zeroes..] == d;
    BufferHolds(58, 256, Zeros(zeroes) + d, zeroes, b256[..]);
    var first := FirstNonZero(b256);
    var v := CopyOut(zeroes, b256, first);
    assert b256[..][first..] == b256[first..];
    r := Some(v);
  }

  /** Appends the bytes from `first` on. */
  method CopyOut(zeroes: nat, b256: array<nat>, first: nat) returns (v: seq<Byte>)
    requires Digits(256, b256[..]) && first <= b256.Length
    ensures v == Zeros(zeroes) + b256[first..]
  {
    v := seq(zeroes, i => 0);
    var iter := first;
    while iter != b256.Length
      invariant first <= iter <= b256.Length && v == Zeros(zeroes) + b256[first..iter]
    {
      v := v + [b256[iter]];
      iter := iter + 1;
    }
  }

  lemma SpaceIsForeign(c: char)
    requires IsSpace(c)
    ensures !InAlphabet(c)
  {
    if InAlphabet(c) { CharOfDigit(c); }
  }

  /** The digits of a run of '1's, and of what follows it up to the next white space. */
  lemma DigitsOfText(s: string, lead: nat, start: nat, end: nat)
    requires lead <= start <= end <= |s|
    requires (forall i :: lead <= i < start ==> s[i] == '1') && (start < |s| ==> s[start] != '1')
    requires AllInAlphabet(s[start..end])
    ensures AllInAlphabet(s[lead..end]) && DigitsOf(s[lead..end]) == Zeros(start - lead) + DigitsOf(s[start..end])
    ensures LeadingZeroes(DigitsOf(s[lead..end])) == start - lead
  {
    hide DigitOf, LeadingZeroes;
    var body := s[start..end];
    var x := Zeros(start - lead) + DigitsOf(body);
    DigitOfChar(0);
    AlphabetFacts();
    assert s[lead..end] == s[lead..start] + body;
    assert DigitsOf(s[lead..end]) == x;
    if start < end { CharOfDigit(s[start]); assert body[0] == s[start]; }
    LeadingZeroesIs(x, start - lead);
  }

  lemma DecodeSucceeds(s: string, lead: nat, start: nat, end: nat, d: seq<nat>)
    requires lead == LeadSpaces(s) <= start <= end <= |s|
    requires (forall i :: lead <= i < start ==> s[i] == '1') && (start < |s| ==> s[start] != '1')
    requires (forall i :: start <= i < end ==> !IsSpace(s[i])) && (forall i :: end <= i < |s| ==> IsSpace(s[i]))
    requires AllInAlphabet(s[start..end]) && d == DigitsOf(s[start..end])
    ensures LeadingZeroes(Zeros(start - lead) + d) == start - lead
    ensures Digits(256, Convert(58, 256, Zeros(start - lead) + d))
    ensures Decode(s) == Some(AsBytes(Convert(58, 256, Zeros(start - lead) + d)))
  {
    hide Convert, AllInAlphabet, DigitsOf, LeadingZeroes, IsSpace, LeadSpaces;
    DigitsOfText(s, lead, start, end);
    ConvertDigits(58, 256, Zeros(start - lead) + d);
    NotSpaceOne();
    TrimEndIs(s[lead..], end - lead);
    assert s[lead..][..end - lead] == s[lead..end];
  }

  lemma NotSpaceOne()
    ensures !IsSpace('1')
  {
  }

  // ---------------------------------------------------------------- with a checksum

  /** Four bytes of the hash follow the data. */
  type Hash256 = h: seq<Byte> | |h| == 32 witness seq(32, i => 0)

  function EncodeCheck(hash: seq<Byte> -> Hash256, v: seq<Byte>): string {
    Encode(v + hash(v)[..4])
  }

  function DecodeCheck(hash: seq<Byte> -> Hash256, s: string): Option<seq<Byte>> {
    match Decode(s)
    case None => None
    case Some(w) =>
      if |w| < 4 then None
      else if hash(w[..|w| - 4])[..4] != w[|w| - 4..] then None
      else Some(w[..|w| - 4])
  }

  /** The checksummed decoder accepts exactly the checksummed encodings, for every hash function. */
  lemma DecodeCheckIffEncoded(hash: seq<Byte> -> Hash256, s: string, v: seq<Byte>)
    ensures DecodeCheck(hash, s) == Some(v) <==> Trim(s) == Encode(v + hash(v)[..4])
  {
    hide Decode, Encode, Trim;
    var w := v + hash(v)[..4];
    DecodeIffEncoded(s, w);
    if DecodeCheck(hash, s) == Some(v) {
      var u := Decode(s).value;
      assert u == u[..|u| - 4] + u[|u| - 4..];
    }
    if Decode(s) == Some(w) {
      assert w[..|w| - 4] == v && w[|w| - 4..] == hash(v)[..4];
    }
  }

  lemma DecodeCheckEncodeCheck(hash: seq<Byte> -> Hash256, v: seq<Byte>)
    ensures DecodeCheck(hash, EncodeCheck(hash, v)) == Some(v)
  {
    hide Decode, Encode, Trim;
    var w := v + hash(v)[..4];
    DecodeEncode(w);
    DecodeIffEncoded(Encode(w), w);
    DecodeCheckIffEncoded(hash, EncodeCheck(hash, v), v);
  }

  // ---------------------------------------------------------------- the overloads that take a string

  /** They pass on its C form: the text up to the first NUL. */
  function CString(str: string): (s: string)
    ensures '\0' !in s && |s| <= |str| && s == str[..|s|] && (|s| < |str| ==> str[|s|] == '\0')
  {
    if str == [] || str[0] == '\0' then "" else [str[0]] + CString(str[1..])
  }

  method DecodeString(str: string) returns (r: Option<seq<Byte>>)
    ensures r == Decode(CString(str))
  {
    r := DecodeBase58(CString(str));
  }

  /** The part behind the first NUL, which the decoder never sees. */
  function Behind(str: string): string {
    var n := |CString(str)|;
    if n == |str| then "" else str[n + 1..]
  }

  /** What a string overload accepts is decided by the text before the first NUL alone. */
  lemma StringDecodesIff(str: string, v: seq<Byte>)
    ensures Decode(CString(str)) == Some(v) <==> Trim(CString(str)) == Encode(v)
  {
    DecodeIffEncoded(CString(str), v);
  }

  /** How many characters are not white space. */
  function Solid(s: string): nat {
    if s == "" then 0 else Solid(s[..|s| - 1]) + if IsSpace(s[|s| - 1]) then 0 else 1
  }

  lemma {:induction false} SolidConcat(s: string, t: string)
    ensures Solid(s + t) == Solid(s) + Solid(t)
  {
    if t == "" {
      assert s + t == s;
    } else {
      SolidConcat(s, t[..|t| - 1]);
      assert (s + t)[..|s + t| - 1] == s + t[..|t| - 1];
    }
  }

  lemma {:induction false} SolidZero(s: string)
    ensures Solid(s) == 0 <==> AllSpace(s)
  {
    if s != "" {
      SolidZero(s[..|s| - 1]);
      assert forall i :: 0 <= i < |s| - 1 ==> s[..|s| - 1][i] == s[i];
    }
  }

  lemma SolidTrim(s: string)
    ensures Solid(Trim(s)) == Solid(s)
  {
    hide Solid, IsSpace, LeadSpaces, TrimEnd;
    var lead := LeadSpaces(s);
    var t := s[lead..];
    var u := TrimEnd(t);
    assert s == s[..lead] + t && t == u + t[|u|..];
    SolidConcat(s[..lead], t);
    SolidConcat(u, t[|u|..]);
    SolidZero(s[..lead]);
    SolidZero(t[|u|..]);
  }

  lemma TrimSpaces(s: string)
    requires AllSpace(s)
    ensures Trim(s) == ""
  {
    LeadSpacesIs(s, |s|);
  }

  lemma TrimBefore(s: string, t: string)
    requires AllSpace(t)
    ensures Trim(s + t) == Trim(s)
  {
    hide IsSpace, LeadSpaces, TrimEnd;
    var lead := LeadSpaces(s);
    if lead == |s| {
      TrimSpaces(s);
      TrimSpaces(s + t);
    } else {
      LeadSpacesIs(s + t, lead);
      var rest := s[lead..];
      var u := TrimEnd(rest);
      assert (s + t)[lead..] == rest + t;
      TrimEndIs(rest, |u|);
      TrimEndIs(rest + t, |u|);
      assert (rest + t)[..|u|] == u;
    }
  }

  /** Appending changes a trimmed text unless only white space is appended. */
  lemma TrimAppended(s: string, t: string)
    ensures Trim(s + t) == Trim(s) <==> AllSpace(t)
  {
    hide Trim, Solid;
    if AllSpace(t) {
      TrimBefore(s, t);
    } else {
      SolidZero(t);
      SolidConcat(s, t);
      SolidTrim(s);
      SolidTrim(s + t);
    }
  }

  lemma EncodeHasNoNul(v: seq<Byte>)
    ensures '\0' !in Encode(v)
  {
    hide Convert;
    ConvertDigits(256, 58, v);
    AlphabetFacts();
  }

  lemma TrimKeepsNul(str: string)
    requires '\0' in str
    ensures '\0' in Trim(str)
  {
    hide LeadSpaces, TrimEnd;
    var k :| 0 <= k < |str| && str[k] == '\0';
    var lead := LeadSpaces(str);
    assert k >= lead;
    var t := str[lead..];
    assert t[k - lead] == '\0';
    assert TrimEnd(t)[k - lead] == '\0';
  }

  /**
   Of an accepted string the whole is an encoding exactly when it has no NUL. Leaving the first NUL out of account, it
   is one exactly when what stands behind that NUL is white space or nothing.
   */
  lemma StringIsEncodingIff(str: string, v: seq<Byte>)
    requires Decode(CString(str)) == Some(v)
    ensures Trim(str) == Encode(v) <==> '\0' !in str
    ensures Trim(CString(str) + Behind(str)) == Encode(v) <==> AllSpace(Behind(str))
  {
    hide Decode, Encode, Trim, AllSpace, CString, Behind;
    StringDecodesIff(str, v);
    TrimAppended(CString(str), Behind(str));
    EncodeHasNoNul(v);
    if '\0' in str {
      TrimKeepsNul(str);
    } else {
      WholeCString(str);
    }
  }

  lemma WholeCString(str: string)
    requires '\0' !in str
    ensures CString(str) == str
  {
    assert |CString(str)| == |str|;
  }

  lemma EncodeZero()
    ensures Encode([0]) == "1"
  {
    hide Num, ToBase;
    ConvertDigits(256, 58, [0]);
    NumOne(256, 0);
    ToBaseZero(58);
    AlphabetFacts();
    assert LeadingZeroes([0][1..]) == 0;
    assert Convert(256, 58, [0]) == [0];
    assert Chars([0]) == [ALPHABET[0]];
  }

  /** So text behind a NUL goes unnoticed: a zero byte is decoded from a string that goes on behind it. */
  lemma NulHidesText()
    ensures Decode(CString("1\0x0")) == Some([0]) && !AllSpace(Behind("1\0x0"))
  {
    hide Decode, Encode, Trim;
    var str := "1\0x0";
    assert str[1..][0] == '\0';
    assert CString(str[1..]) == "";
    assert CString(str) == "1";
    EncodeZero();
    DecodeEncode([0]);
    assert Behind(str) == "x0";
    assert Behind(str)[0] == 'x';
  }
}
