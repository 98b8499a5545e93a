/** Why the conversion buffers are large enough: powers of 58 against powers of 256. */
module Base58Bounds {
  import opened Powers

  /** Bytes per base-58 digit count: size of the decode buffer. */
  function DecodeSize(n: nat): nat { n * 733 / 1000 + 1 }

  /** Base-58 digits per byte count: size of the encode buffer. */
  function EncodeSize(n: nat): nat { n * 138 / 100 + 1 }

  lemma PowChain(a: nat, m: nat, k: nat, b: nat, j: nat, l: nat)
    requires a > 0 && b > 0 && Pow(a, m) <= Pow(b, j) && Pow(a, k) <= Pow(b, l)
    ensures Pow(a, m + k) <= Pow(b, j + l)
  {
    hide Pow;
    PowAdd(a, m, k);
    PowAdd(b, j, l);
    PowPos(a, k);
    PowPos(b, j);
    MulMono(Pow(a, m), Pow(b, j), Pow(a, k));
    MulMono(Pow(a, k), Pow(b, l), Pow(b, j));
  }

  lemma PowersOf58()
    ensures Pow(58, 0) == 1 && Pow(58, 1) == 58 && Pow(58, 2) == 3364 && Pow(58, 3) == 195112 && Pow(58, 4) == 11316496
    ensures Pow(58, 5) == 656356768 && Pow(58, 6) == 38068692544 && Pow(58, 7) == 2207984167552
    ensures Pow(58, 8) == 128063081718016 && Pow(58, 9) == 7427658739644928 && Pow(58, 10) == 430804206899405824
  {
    assert Pow(58, 1) == 58 * Pow(58, 0);
    assert Pow(58, 4) == 58 * Pow(58, 3);
    assert Pow(58, 7) == 58 * Pow(58, 6);
  }

  // ---------------------------------------------------------------- encoding: 256^8 <= 58^11

  /** Digits that `r` bytes need, for fewer than eight. */
  function FewDigits(r: nat): nat
    requires r < 8
  {
    [0, 2, 3, 5, 6, 7, 9, 10][r]
  }

  lemma FewBytesFit(r: nat)
    requires r < 8
    ensures Pow(256, r) <= Pow(58, FewDigits(r))
  {
    PowersOf58();
    PowersOf256();
  }

  lemma EightBytesFit()
    ensures Pow(256, 8) <= Pow(58, 11)
  {
    PowersOf256();
    PowersOf58();
    assert Pow(58, 11) == 58 * Pow(58, 10);
  }

  lemma {:induction false} BytesFit(a: nat, r: nat)
    requires r < 8
    ensures Pow(256, 8 * a + r) <= Pow(58, 11 * a + FewDigits(r))
  {
    hide Pow;
    if a == 0 {
      FewBytesFit(r);
    } else {
      BytesFit(a - 1, r);
      EightBytesFit();
      PowChain(256, 8 * (a - 1) + r, 8, 58, 11 * (a - 1) + FewDigits(r), 11);
    }
  }

  /** Any number of `n` bytes fits the encode buffer. */
  lemma EncodeFits(n: nat)
    ensures Pow(256, n) <= Pow(58, EncodeSize(n))
  {
    hide Pow;
    var a, r := n / 8, n % 8;
    BytesFit(a, r);
    assert 11 * a + FewDigits(r) <= EncodeSize(n);
    PowMono(58, 11 * a + FewDigits(r), EncodeSize(n));
  }

  // ---------------------------------------------------------------- decoding: 58^15 <= 256^11 and 58^71 <= 256^52

  /** Bytes that `r` digits need, for fewer than fifteen. */
  function FewBytes(r: nat): nat
    requires r < 15
  {
    [0, 1, 2, 3, 3, 4, 5, 6, 6, 7, 8, 9, 9, 10, 11][r]
  }

  lemma FewDigitsFit(r: nat)
    requires r < 15
    ensures Pow(58, r) <= Pow(256, FewBytes(r))
  {
    PowersOf58();
    PowersOf256();
    if r >= 10 {
      LongerPowers();
    }
  }

  lemma LongerPowers()
    ensures Pow(58, 11) == 24986644000165537792 && Pow(58, 12) == 1449225352009601191936
    ensures Pow(58, 13) == 84055070416556869132288 && Pow(58, 14) == 4875194084160298409672704
    ensures Pow(58, 15) == 282761256881297307761016832
    ensures Pow(256, 9) == 0x100_0000_0000_0000_0000 && Pow(256, 10) == 0x1_0000_0000_0000_0000_0000
    ensures Pow(256, 11) == 0x100_0000_0000_0000_0000_0000
  {
    PowersOf58();
    PowersOf256();
    assert Pow(58, 11) == 58 * Pow(58, 10);
    assert Pow(58, 13) == 58 * Pow(58, 12);
    assert Pow(58, 15) == 58 * Pow(58, 14);
    assert Pow(256, 9) == 256 * Pow(256, 8);
    assert Pow(256, 11) == 256 * Pow(256, 10);
  }

  lemma {:induction false} DigitsFit(a: nat, r: nat)
    requires r < 15
    ensures Pow(58, 15 * a + r) <= Pow(256, 11 * a + FewBytes(r))
  {
    hide Pow;
    if a == 0 {
      FewDigitsFit(r);
    } else {
      DigitsFit(a - 1, r);
      LongerPowers();
      PowChain(58, 15 * (a - 1) + r, 15, 256, 11 * (a - 1) + FewBytes(r), 11);
    }
  }

  /** 58^71 <= 256^52, by squaring: the bound a factor of 733/1000 needs for long strings. */
  lemma SeventyOneDigitsFit()
    ensures Pow(58, 71) <= Pow(256, 52)
  {
    hide Pow;
    LongerPowers();
    PowersOf58();
    PowersOf256();
    PowAdd(58, 15, 15);
    PowAdd(58, 30, 30);
    PowAdd(58, 60, 11);
    PowAdd(256, 11, 11);
    PowAdd(256, 22, 22);
    PowAdd(256, 44, 8);
  }

  /** Any number of `n` base-58 digits fits the decode buffer. */
  lemma {:induction false} DecodeFits(n: nat)
    ensures Pow(58, n) <= Pow(256, DecodeSize(n))
  {
    hide Pow;
    if n < 71 {
      var a, r := n / 15, n % 15;
      DigitsFit(a, r);
      assert 11 * a + FewBytes(r) <= DecodeSize(n);
      PowMono(256, 11 * a + FewBytes(r), DecodeSize(n));
    } else {
      DecodeFits(n - 71);
      SeventyOneDigitsFit();
      PowChain(58, n - 71, 71, 256, DecodeSize(n - 71), 52);
      PowMono(256, DecodeSize(n - 71) + 52, DecodeSize(n));
    }
  }

  /** A longer buffer still fits. */
  lemma FitsLonger(base: nat, n: nat, m: nat, other: nat, size: nat)
    requires base > 0 && n <= m && Pow(base, m) <= Pow(other, size)
    ensures Pow(base, n) <= Pow(other, size)
  {
    hide Pow;
    PowMono(base, n, m);
  }
}
