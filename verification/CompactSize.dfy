/** Compact sizes: one to nine bytes, the first telling how many follow. */
module CompactSize {
  import opened Common
  import opened LittleEndian
  import opened Powers

  const MAX_SIZE: nat := 0x0200_0000

  /** GetSizeOfCompactSize. */
  function SizeOf(n: nat): nat {
    if n < 253 then 1 else if n <= 0xFFFF then 3 else if n <= 0xFFFF_FFFF then 5 else 9
  }

  /** WriteCompactSize. */
  function Write(n: nat): seq<Byte>
    requires n < 0x1_0000_0000_0000_0000
  {
    if n < 253 then [n]
    else if n <= 0xFFFF then [253] + Little(2, n)
    else if n <= 0xFFFF_FFFF then [254] + Little(4, n)
    else [255] + Little(8, n)
  }

  datatype Outcome = Ok(size: nat, used: nat) | EndOfData | NonCanonical | TooLarge

  /** The size that `k` bytes after the first give, at least `least` in canonical form. */
  function ReadWide(s: seq<Byte>, k: nat, least: nat): Outcome {
    if |s| < k + 1 then EndOfData
    else
      var n := Unlittle(s[1..k + 1]);
      if n < least then NonCanonical else if n > MAX_SIZE then TooLarge else Ok(n, k + 1)
  }

  /** ReadCompactSize. */
  function Read(s: seq<Byte>): Outcome {
    if s == [] then EndOfData
    else if s[0] < 253 then Ok(s[0], 1)
    else if s[0] == 253 then ReadWide(s, 2, 253)
    else if s[0] == 254 then ReadWide(s, 4, 0x1_0000)
    else ReadWide(s, 8, 0x1_0000_0000)
  }

  lemma WideIff(s: seq<Byte>, k: nat, least: nat, n: nat)
    requires s != [] && least <= n < Pow(256, k)
    ensures ReadWide(s, k, least) == Ok(n, k + 1) <==> n <= MAX_SIZE && [s[0]] + Little(k, n) <= s
  {
    hide Little, Unlittle, Pow;
    UnlittleLittle(k, n);
    if |s| >= k + 1 {
      LittleUnlittle(s[1..k + 1]);
      assert s[..k + 1] == [s[0]] + s[1..k + 1];
      if [s[0]] + Little(k, n) <= s {
        assert s[1..k + 1] == ([s[0]] + Little(k, n))[1..];
      }
    }
  }

  /** A size is read exactly when the stream starts with its one canonical encoding and it is within the limit. */
  lemma ReadIffWritten(s: seq<Byte>, n: nat, k: nat)
    requires n < 0x1_0000_0000_0000_0000
    ensures Read(s) == Ok(n, k) <==> n <= MAX_SIZE && Write(n) <= s && k == SizeOf(n)
    ensures |Write(n)| == SizeOf(n)
  {
    hide Little, Unlittle, Pow;
    PowersOf256();
    if s != [] {
      if n >= 253 && n <= 0xFFFF { WideIff(s, 2, 253, n); }
      if 0xFFFF < n <= 0xFFFF_FFFF { WideIff(s, 4, 0x1_0000, n); }
      if n > 0xFFFF_FFFF { WideIff(s, 8, 0x1_0000_0000, n); }
      if s[0] == 253 && |s| >= 3 { LittleUnlittle(s[1..3]); }
      if s[0] == 254 && |s| >= 5 { LittleUnlittle(s[1..5]); }
    }
  }

  /** Sizes beyond the limit are written but refused when read back. */
  lemma ReadBack(n: nat, rest: seq<Byte>)
    requires n < 0x1_0000_0000_0000_0000
    ensures Read(Write(n) + rest) == if n <= MAX_SIZE then Ok(n, SizeOf(n)) else TooLarge
  {
    hide Little, Unlittle, Pow;
    PowersOf256();
    if n <= MAX_SIZE {
      ReadIffWritten(Write(n) + rest, n, SizeOf(n));
    } else if n <= 0xFFFF_FFFF {
      UnlittleLittle(4, n);
      assert (Write(n) + rest)[1..5] == Little(4, n);
    } else {
      UnlittleLittle(8, n);
      assert (Write(n) + rest)[1..9] == Little(8, n);
    }
  }

  /** The documented format: one byte below 253, and otherwise 253, 254 or 255 before two, four or eight bytes. */
  lemma FormatIs(n: nat)
    requires n < 0x1_0000_0000_0000_0000
    ensures var s := Write(n);
            && (n < 253 ==> s == [n])
            && (253 <= n < 0x1_0000 ==> |s| == 3 && s[0] == 253 && Unlittle(s[1..]) == n)
            && (0x1_0000 <= n < 0x1_0000_0000 ==> |s| == 5 && s[0] == 254 && Unlittle(s[1..]) == n)
            && (n >= 0x1_0000_0000 ==> |s| == 9 && s[0] == 255 && Unlittle(s[1..]) == n)
  {
    hide Little, Unlittle, Pow;
    PowersOf256();
    if 253 <= n < 0x1_0000 { UnlittleLittle(2, n); }
    if 0x1_0000 <= n < 0x1_0000_0000 { UnlittleLittle(4, n); }
    if n >= 0x1_0000_0000 { UnlittleLittle(8, n); }
    assert Write(n)[1..] == if n < 253 then [] else Little(|Write(n)| - 1, n);
  }

  /** The limit is 32 mebibytes. */
  lemma LimitIs(n: nat)
    requires n < 0x1_0000_0000_0000_0000
    ensures Read(Write(n)) == TooLarge <==> n > 32 * 1024 * 1024
  {
    hide Read, Write;
    ReadBack(n, []);
    assert Write(n) + [] == Write(n);
  }
}
