/** Variable-length integers: a one-to-one code between naturals and terminated byte strings. */
module VarInt {
  import opened Common
  import opened DataStream
  import opened Powers

  // ---------------------------------------------------------------- the code, without a width

  /** Seven bits, with the high bit set on all bytes but the last. */
  function Group(n: int, last: bool): Byte {
    n % 128 + if last then 0 else 128
  }

  /** The bytes written for `n`, where `last` says whether its lowest group ends the code. */
  function Groups(n: int, last: bool): (s: seq<Byte>)
    ensures s != []
    decreases if n < 0 then 0 else n
  {
    if n <= 0x7F then [Group(n, last)] else Groups(n / 128 - 1, false) + [Group(n, last)]
  }

  /** What WriteVarInt writes; a negative number of a signed type gets the single byte of its low seven bits. */
  function Encode(n: int): seq<Byte> { Groups(n, true) }

  /** High bit on every byte but the last. */
  predicate Terminated(s: seq<Byte>) {
    s != [] && s[|s| - 1] < 128 && forall i :: 0 <= i < |s| - 1 ==> s[i] >= 128
  }

  /** What reading the bytes of `s` leaves in the accumulator. */
  function Value(s: seq<Byte>): nat {
    if s == [] then 0
    else Value(s[..|s| - 1]) * 128 + s[|s| - 1] % 128 + if s[|s| - 1] >= 128 then 1 else 0
  }

  /** The documented sum: every byte but the last counts one more than its low seven bits. */
  function DocumentedSum(s: seq<Byte>): nat
    requires s != []
  {
    s[|s| - 1] % 128 + WeightedSum(s[..|s| - 1], 1)
  }

  /** sum of 128^(weight of byte) * (low bits + 1), the last byte of `s` having weight `w`. */
  function WeightedSum(s: seq<Byte>, w: nat): nat {
    if s == [] then 0
    else
      MulNat(Pow(128, w), s[|s| - 1] % 128 + 1);
      Pow(128, w) * (s[|s| - 1] % 128 + 1) + WeightedSum(s[..|s| - 1], w + 1)
  }

  lemma ValueSnoc(s: seq<Byte>, b: Byte)
    ensures Value(s + [b]) == Value(s) * 128 + b % 128 + if b >= 128 then 1 else 0
  {
    assert (s + [b])[..|s|] == s;
  }

  lemma {:induction false} GroupsValue(n: nat, last: bool)
    ensures Value(Groups(n, last)) == n + if last then 0 else 1
    ensures forall i :: 0 <= i < |Groups(n, last)| - 1 ==> Groups(n, last)[i] >= 128
    ensures Groups(n, last)[|Groups(n, last)| - 1] == Group(n, last)
  {
    hide Value, Group;
    GroupParts(n, last);
    if n <= 0x7F {
      ValueEmpty();
      ValueSnoc([], Group(n, last));
      assert [] + [Group(n, last)] == [Group(n, last)];
    } else {
      DivMod(n, 128);
      GroupParts(n / 128 - 1, false);
      GroupsValue(n / 128 - 1, false);
      ValueSnoc(Groups(n / 128 - 1, false), Group(n, last));
    }
  }

  lemma GroupParts(n: nat, last: bool)
    ensures Group(n, last) % 128 == n % 128 && (Group(n, last) >= 128 <==> !last)
  {
  }

  /** Reading what was written gives the number back. */
  lemma ValueEncode(n: nat)
    ensures Terminated(Encode(n)) && Value(Encode(n)) == n
  {
    GroupsValue(n, true);
  }

  lemma {:induction false} ValuePositive(s: seq<Byte>)
    requires s != [] && forall i :: 0 <= i < |s| ==> s[i] >= 128
    ensures Value(s) >= 1
  {
    ValueSnoc(s[..|s| - 1], s[|s| - 1]);
    assert s == s[..|s| - 1] + [s[|s| - 1]];
  }

  lemma GroupIs(n: nat, last: bool, q: nat, b: Byte)
    requires n == q * 128 + b % 128 && (last <==> b < 128)
    ensures Group(n, last) == b
    ensures Groups(n, last) == if q == 0 then [b] else Groups(q - 1, false) + [b]
  {
    DivUnique(n, 128, q, b % 128);
  }

  lemma {:induction false} GroupsOfValue(s: seq<Byte>, last: bool)
    requires s != [] && (forall i :: 0 <= i < |s| - 1 ==> s[i] >= 128) && (last <==> s[|s| - 1] < 128)
    ensures Value(s) >= (if last then 0 else 1) && Groups(Value(s) - (if last then 0 else 1), last) == s
  {
    hide Value, Groups, Group;
    var front, b := s[..|s| - 1], s[|s| - 1];
    assert s == front + [b];
    ValueSnoc(front, b);
    ValueEmpty();
    GroupIs(Value(front) * 128 + b % 128, last, Value(front), b);
    if front != [] {
      GroupsOfValue(front, false);
      ValuePositive(front);
    }
  }

  lemma ValueEmpty()
    ensures Value([]) == 0
  {
  }

  /** Every terminated byte string is the code of exactly the number it reads as. */
  lemma EncodeValue(s: seq<Byte>)
    requires Terminated(s)
    ensures Encode(Value(s)) == s
  {
    GroupsOfValue(s, true);
  }

  lemma {:induction false} WeightedSumIs(s: seq<Byte>, w: nat)
    requires forall i :: 0 <= i < |s| ==> s[i] >= 128
    ensures WeightedSum(s, w) == Pow(128, w) * Value(s)
  {
    if s != [] {
      var front, b := s[..|s| - 1], s[|s| - 1];
      WeightedSumIs(front, w + 1);
      assert Pow(128, w + 1) == 128 * Pow(128, w);
      MulDist(Value(front) * 128, b % 128 + 1, Pow(128, w));
      MulAssoc(Pow(128, w), 128, Value(front));
    } else {
      assert Pow(128, w) * 0 == 0;
    }
  }

  /** The reader computes the sum the format documents. */
  lemma ValueIsDocumented(s: seq<Byte>)
    requires Terminated(s)
    ensures Value(s) == DocumentedSum(s)
  {
    WeightedSumIs(s[..|s| - 1], 1);
    assert Pow(128, 1) == 128 * Pow(128, 0);
  }

  // ---------------------------------------------------------------- lengths

  /** The number of values with codes of at most `k` bytes: 128 + 128^2 + ... + 128^k. */
  function CodesUpTo(k: nat): nat {
    if k == 0 then 0 else 128 * (CodesUpTo(k - 1) + 1)
  }

  /** Codes grow in blocks: the first 128 numbers take one byte, the next 128^2 two, and so on. */
  lemma {:induction false} LengthIff(n: nat, last: bool, k: nat)
    ensures |Groups(n, last)| <= k <==> n < CodesUpTo(k)
  {
    if k > 0 && n > 0x7F {
      LengthIff(n / 128 - 1, false, k - 1);
      DivMod(n, 128);
    }
  }

  lemma {:induction false} CodesAtLeast(k: nat)
    ensures k > 0 ==> CodesUpTo(k) >= Pow(128, k)
  {
    if k > 1 { CodesAtLeast(k - 1); }
    if k == 1 { assert Pow(128, 1) == 128 * Pow(128, 0); }
  }

  /** Bytes of scratch space for a number of `w` bits. */
  function Scratch(w: nat): nat { (w + 6) / 7 }

  /** The scratch buffer holds the code of every number of that width. */
  lemma ScratchSuffices(w: nat, n: int)
    requires w > 0 && n < Pow(2, w)
    ensures |Encode(n)| <= Scratch(w)
  {
    if n < 0 { return; }
    var k := Scratch(w);
    PowMono(2, w, 7 * k);
    PowMul(2, 7, k);
    SevenBits();
    CodesAtLeast(k);
    LengthIff(n, true, k);
  }

  lemma SevenBits()
    ensures Pow(2, 7) == 128
  {
    assert Pow(2, 3) == 8;
    assert Pow(2, 6) == 8 * Pow(2, 3);
  }

  // ---------------------------------------------------------------- streams

  /** Index of the first byte without the high bit. */
  function Terminator(s: seq<Byte>): (k: nat)
    ensures k <= |s| && (forall i :: 0 <= i < k ==> s[i] >= 128) && (k < |s| ==> s[k] < 128)
  {
    if s == [] || s[0] < 128 then 0 else 1 + Terminator(s[1..])
  }

  /** Codes can be told apart in a stream: the reader stops where the writer stopped. */
  lemma TerminatorEncode(n: nat, rest: seq<Byte>)
    ensures Terminator(Encode(n) + rest) == |Encode(n)| - 1
  {
    ValueEncode(n);
    var s := Encode(n);
    forall i | 0 <= i < |s| ensures (s + rest)[i] == s[i] {}
  }

  /** What the fixed-width reader finds at the front of a stream: the accumulator wraps at `w` bits. */
  function Front(w: nat, s: seq<Byte>): Option<(nat, nat)> {
    var k := Terminator(s);
    PowPos(2, w);
    if k == |s| then None else Some((Value(s[..k + 1]) % Pow(2, w), k + 1))
  }

  /** Written numbers come back, whatever follows them in the stream. */
  lemma FrontEncode(w: nat, n: nat, rest: seq<Byte>)
    requires n < Pow(2, w)
    ensures Front(w, Encode(n) + rest) == Some((n, |Encode(n)|))
  {
    hide Pow, Value, Encode, Terminator;
    TerminatorEncode(n, rest);
    ValueEncode(n);
    assert (Encode(n) + rest)[..|Encode(n)|] == Encode(n);
    SmallMod(n, Pow(2, w));
  }

  lemma ModBound(n: nat, m: nat)
    requires m > 0
    ensures n % m < m
  {
  }

  /** A negative number never comes back: what is read is the number of its low seven bits. */
  lemma NegativeIsLost(w: nat, n: int, rest: seq<Byte>)
    requires w >= 7 && n < 0
    ensures Front(w, Encode(n) + rest) == Some((n % 128, 1)) && n % 128 != n
  {
    hide Value, Encode, Pow;
    NegativeCode(n);
    FrontEncodeSmall(w, n % 128);
    FrontEncode(w, n % 128, rest);
  }

  lemma NegativeCode(n: int)
    requires n < 0
    ensures Encode(n) == Encode(n % 128) && |Encode(n)| == 1
  {
  }

  lemma FrontEncodeSmall(w: nat, d: nat)
    requires w >= 7 && d < 128
    ensures d < Pow(2, w)
  {
    SevenBits();
    PowMono(2, 7, w);
  }

  /** Writing the number read reproduces the bytes read exactly when the bytes stand for a number of that width. */
  lemma ReencodeIff(w: nat, s: seq<Byte>)
    requires Terminated(s)
    ensures Pow(2, w) > 0 && (Encode(Value(s) % Pow(2, w)) == s <==> Value(s) < Pow(2, w))
  {
    hide Pow, Value, Encode;
    PowPos(2, w);
    EncodeValue(s);
    ValueEncode(Value(s) % Pow(2, w));
    ModBound(Value(s), Pow(2, w));
    if Value(s) < Pow(2, w) { SmallMod(Value(s), Pow(2, w)); }
  }

  /** So "one encoding per integer" fails for a fixed width: two codes read as zero in one byte. */
  lemma TwoCodesForZero()
    ensures Terminated([0x81, 0x00]) && Terminated([0x00])
    ensures Value([0x81, 0x00]) % Pow(2, 8) == 0 == Value([0x00]) % Pow(2, 8)
  {
    hide Value, Pow;
    ValueEmpty();
    ValueSnoc([], 0x81);
    ValueSnoc([0x81], 0x00);
    ValueSnoc([], 0x00);
    assert [] + [0x81] == [0x81] && [0x81] + [0x00] == [0x81, 0x00] && [] + [0x00] == [0x00];
    EightBits();
  }

  lemma EightBits()
    ensures Pow(2, 8) == 256
  {
    SevenBits();
  }

  // ---------------------------------------------------------------- the source's loops

  /** GetSizeOfVarInt. */
  method GetSize(n: int) returns (size: nat)
    ensures size == |Encode(n)|
  {
    var m := n;
    var last := true;
    size := 0;
    while true
      invariant size + |Groups(m, last)| == |Encode(n)|
      decreases if m < 0 then 0 else m
    {
      size := size + 1;
      if m <= 0x7F { break; }
      m := m / 128 - 1;
      last := false;
    }
  }

  /** The first loop of WriteVarInt: the groups of `n`, lowest first; returns the index of the last one. */
  method Fill(tmp: array<Byte>, n: int) returns (len: nat)
    requires |Encode(n)| <= tmp.Length
    modifies tmp
    ensures len < tmp.Length && Reversed(tmp[..len + 1]) == Encode(n)
  {
    hide Reversed;
    len := 0;
    var m := n;
    ReversedEmpty();
    while true
      invariant len + |Groups(m, len == 0)| <= tmp.Length
      invariant Groups(m, len == 0) + Reversed(tmp[..len]) == Encode(n)
      decreases if m < 0 then 0 else m
    {
      var group: Byte := Group(m, len == 0);
      ghost var before := tmp[..len];
      tmp[len] := group;
      assert tmp[..len + 1] == before + [group];
      ReversedSnoc(before, group);
      if m <= 0x7F { break; }
      m := m / 128 - 1;
      len := len + 1;
    }
  }

  lemma ReversedEmpty()
    ensures Reversed<Byte>([]) == []
  {
  }

  /** The second loop of WriteVarInt: the bytes up to index `last`, last one first. */
  method Emit(os: CDataStream, tmp: array<Byte>, last: nat)
    requires os.Valid() && last < tmp.Length
    modifies os
    ensures os.Valid() && os.consumed == old(os.consumed) && os.Unread() == old(os.Unread()) + Reversed(tmp[..last + 1])
  {
    hide Reversed;
    var len: nat := last;
    ghost var done: seq<Byte> := [];
    ReversedEmpty();
    while true
      invariant len < tmp.Length && done + Reversed(tmp[..len + 1]) == Reversed(tmp[..last + 1])
      invariant os.Valid() && os.consumed == old(os.consumed) && os.Unread() == old(os.Unread()) + done
      decreases len
    {
      assert tmp[..len + 1] == tmp[..len] + [tmp[len]];
      ReversedSnoc(tmp[..len], tmp[len]);
      done := done + [tmp[len]];
      os.Write([tmp[len]]);
      if len == 0 { break; }
      len := len - 1;
    }
    assert tmp[..0] == [];
  }

  /** WriteVarInt for a value of `w` bits, signed or not; the scratch buffer is indexed within its bounds throughout. */
  method Write(os: CDataStream, w: nat, n: int)
    requires os.Valid() && w > 0 && 0 - Pow(2, w) <= n < Pow(2, w)
    modifies os
    ensures os.Valid() && os.consumed == old(os.consumed) && os.Unread() == old(os.Unread()) + Encode(n)
  {
    hide Pow, Encode;
    ScratchSuffices(w, n);
    var tmp := new Byte[(w + 6) / 7](_ => 0);
    var len := Fill(tmp, n);
    Emit(os, tmp, len);
  }

  /** Shifting the accumulator of `w` bits left by seven and setting the low bits. */
  lemma ShiftStep(v: nat, w: nat, low: nat)
    requires w >= 7 && low < 128
    ensures Pow(2, w) > 0 && Or((v % Pow(2, w)) * 128 % Pow(2, w), low) == (v * 128 + low) % Pow(2, w)
  {
    hide Pow, Or;
    PowPos(2, w);
    var m, h := Pow(2, w), Pow(2, w - 7);
    PowPos(2, w - 7);
    PowAdd(2, w - 7, 7);
    SevenBits();
    ModMul(v, 128, m);
    ShiftedMultiple(v, m, h);
    OrDisjoint(low, v * 128 % m, 7);
    ShiftedPlus(v, low, m, h);
  }

  /** A product with 128, modulo a multiple of 128, leaves the low seven bits free. */
  lemma ShiftedMultiple(v: nat, m: nat, h: nat)
    requires h > 0 && m == h * 128
    ensures v * 128 % m % 128 == 0
  {
    DivMod(v * 128, m);
    var q := v * 128 / m;
    MulAssoc(q, h, 128);
    assert v * 128 % m == (v - q * h) * 128;
  }

  lemma ShiftedPlus(v: nat, low: nat, m: nat, h: nat)
    requires h > 0 && m == h * 128 && low < 128
    ensures (v * 128 + low) % m == v * 128 % m + low
  {
    ShiftedMultiple(v, m, h);
    DivMod(v * 128, m);
    SumBelow(v * 128 % m, low, h);
    DivUnique(v * 128 + low, m, v * 128 / m, v * 128 % m + low);
  }

  lemma SumBelow(x: nat, low: nat, h: nat)
    requires x % 128 == 0 && x < h * 128 && low < 128
    ensures x + low < h * 128
  {
  }

  lemma ModPlus(x: nat, y: nat, m: nat)
    requires m > 0
    ensures (x % m + y) % m == (x + y) % m
  {
    DivMod(x, m);
    ModAdd(x % m + y, x / m, m);
  }

  lemma ModMul(x: nat, k: nat, m: nat)
    requires m > 0
    ensures ((x % m) * k) % m == (x * k) % m
  {
    DivMod(x, m);
    MulDist((x / m) * m, x % m, k);
    MulAssoc(x / m, m, k);
    MulAssoc(x / m, k, m);
    ModAdd((x % m) * k, (x / m) * k, m);
  }

  /** One turn of the read loop: shift in seven bits, then count one if another byte follows. */
  lemma AccumulateStep(s: seq<Byte>, k: nat, w: nat)
    requires w >= 7 && k < |s|
    ensures Pow(2, w) > 0
    ensures var m := Or(Value(s[..k]) % Pow(2, w) * 128 % Pow(2, w), s[k] % 128);
            Value(s[..k + 1]) % Pow(2, w) == if s[k] >= 128 then (m + 1) % Pow(2, w) else m
  {
    hide Pow, Value, Or;
    assert s[..k + 1] == s[..k] + [s[k]];
    ValueSnoc(s[..k], s[k]);
    ShiftStep(Value(s[..k]), w, s[k] % 128);
    ModPlus(Value(s[..k]) * 128 + s[k] % 128, 1, Pow(2, w));
  }

  /** ReadVarInt into a value of `w` bits; throws (None) at the end of the stream. */
  method Read(src: CDataStream, w: nat) returns (r: Option<nat>)
    requires src.Valid() && w >= 8 && |src.vch| < 0xFFFF_FFFF
    modifies src
    ensures src.Valid() && src.Everything() == old(src.Everything())
    ensures match Front(w, old(src.Unread()))
            case Some((n, k)) => r == Some(n) && k <= |old(src.Unread())| && src.Unread() == old(src.Unread())[k..]
            case None => r == None && src.Unread() == [] && src.failed
  {
    hide Pow, Value, Or, Terminator;
    ghost var s := src.Unread();
    ghost var k := 0;
    PowPos(2, w);
    var n := 0;
    ValueEmpty();
    SmallMod(0, Pow(2, w));
    assert s[..0] == [];
    while true
      invariant src.Valid() && |src.vch| < 0xFFFF_FFFF && src.Everything() == old(src.Everything())
      invariant k <= |s| && src.Unread() == s[k..] && (forall i :: 0 <= i < k ==> s[i] >= 128)
      invariant n == Value(s[..k]) % Pow(2, w)
      decreases |s| - k
    {
      var data := src.Read(1);
      if data == None {
        TerminatorIs(s, |s|);
        return None;
      }
      var b := data.value[0];
      assert b == s[k];
      AccumulateStep(s, k, w);
      n := Or(n * 128 % Pow(2, w), b % 128);
      if b >= 128 {
        n := (n + 1) % Pow(2, w);
      } else {
        TerminatorIs(s, k);
        return Some(n);
      }
      k := k + 1;
    }
  }

  lemma TerminatorIs(s: seq<Byte>, k: nat)
    requires k <= |s| && (forall i :: 0 <= i < k ==> s[i] >= 128) && (k < |s| ==> s[k] < 128)
    ensures Terminator(s) == k
  {
  }
}
