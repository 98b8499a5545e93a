/** 256-bit arithmetic on limb arrays, in place. */
module Arith256 {
  import opened Powers
  import opened Limbs
  import opened LimbSteps
  import Compact

  /** base_uint<256>: eight limbs, least significant first. */
  class BaseUint {
    const pn: array<Limb>

    ghost predicate Valid() {
      pn.Length == WIDTH
    }

    ghost function Value(): nat
      reads pn
    {
      Val(pn[..])
    }

    constructor ()
      ensures Valid() && fresh(pn) && Value() == 0
    {
      var limbs := new Limb[WIDTH](_ => 0);
      pn := limbs;
      new;
      ValZero(pn[..]);
    }

    constructor Copy(b: BaseUint)
      requires b.Valid()
      ensures Valid() && fresh(pn) && pn[..] == b.pn[..]
    {
      var limbs := new Limb[WIDTH](_ => 0);
      for i := 0 to WIDTH
        invariant limbs[..i] == b.pn[..i]
      {
        limbs[i] := b.pn[i];
      }
      pn := limbs;
    }

    /** `*this = b64`. */
    method Assign64(b: nat)
      requires Valid() && b < LIMB * LIMB
      modifies pn
      ensures Value() == b
    {
      pn[0] := b % LIMB;
      pn[1] := b / LIMB;
      for i := 2 to WIDTH
        invariant pn[0] == b % LIMB && pn[1] == b / LIMB
        invariant forall k :: 2 <= k < i ==> pn[k] == 0
      {
        pn[i] := 0;
      }
      Val64(pn[..]);
    }

    method AssignZero()
      requires Valid()
      modifies pn
      ensures Value() == 0 && forall k :: 0 <= k < WIDTH ==> pn[k] == 0
    {
      for i := 0 to WIDTH
        invariant forall k :: 0 <= k < i ==> pn[k] == 0
      {
        pn[i] := 0;
      }
      ValZero(pn[..]);
    }

    // -------------------------------------------------------------- addition and subtraction

    /** `+=`; the operand may be the object itself. */
    method AddAssign(b: BaseUint)
      requires Valid() && b.Valid()
      modifies pn
      ensures Value() == (old(Value()) + old(b.Value())) % Modulus()
    {
      ghost var x, y := pn[..], b.pn[..];
      var carry := 0;
      for i := 0 to WIDTH
        invariant 0 <= carry <= 1
        invariant forall k :: i <= k < WIDTH ==> pn[k] == x[k] && b.pn[k] == y[k]
        invariant Val(pn[..i]) + carry * Pow(LIMB, i) == Val(x[..i]) + Val(y[..i])
      {
        var n := carry + pn[i] + b.pn[i];
        AddStep(pn[..], x, y, i, carry, n);
        pn[i] := n % LIMB;
        carry := n / LIMB;
        assert pn[..i + 1] == pn[..][..i + 1];
      }
      assert pn[..WIDTH] == pn[..] && x[..WIDTH] == x && y[..WIDTH] == y;
      ValBound(pn[..]);
      DivUnique(Val(x) + Val(y), Modulus(), carry, Val(pn[..]));
    }

    /** Prefix `++`. */
    method Increment()
      requires Valid()
      modifies pn
      ensures Value() == (old(Value()) + 1) % Modulus()
    {
      ghost var x := pn[..];
      var i := 0;
      pn[0] := (pn[0] + 1) % LIMB;
      while pn[i] == 0 && i < WIDTH - 1
        invariant 0 <= i < WIDTH
        invariant forall k :: 0 <= k < i ==> pn[k] == 0 && x[k] == LIMB - 1
        invariant pn[i] == (x[i] + 1) % LIMB && forall k :: i < k < WIDTH ==> pn[k] == x[k]
        decreases WIDTH - i
      {
        i := i + 1;
        pn[i] := (pn[i] + 1) % LIMB;
      }
      RippleUp(x, pn[..], i);
    }

    /** Prefix `--`. */
    method Decrement()
      requires Valid()
      modifies pn
      ensures Value() == (old(Value()) - 1) % Modulus()
    {
      ghost var x := pn[..];
      var i := 0;
      pn[0] := (pn[0] - 1) % LIMB;
      while pn[i] == LIMB - 1 && i < WIDTH - 1
        invariant 0 <= i < WIDTH
        invariant forall k :: 0 <= k < i ==> pn[k] == LIMB - 1 && x[k] == 0
        invariant pn[i] == (x[i] - 1) % LIMB && forall k :: i < k < WIDTH ==> pn[k] == x[k]
        decreases WIDTH - i
      {
        i := i + 1;
        pn[i] := (pn[i] - 1) % LIMB;
      }
      RippleDown(x, pn[..], i);
    }

    /** Unary minus: complement and increment. */
    method Negate() returns (r: BaseUint)
      requires Valid()
      ensures fresh(r) && fresh(r.pn) && r.Valid() && r.Value() == (0 - Value()) % Modulus()
    {
      r := new BaseUint();
      for i := 0 to WIDTH
        invariant r.Valid() && fresh(r) && fresh(r.pn)
        invariant forall k :: 0 <= k < i ==> r.pn[k] == LIMB - 1 - pn[k]
      {
        r.pn[i] := LIMB - 1 - pn[i];
      }
      ValComplement(pn[..], r.pn[..]);
      r.Increment();
      NegateMod(Value());
    }

    /** `-=`; the operand may be the object itself. */
    method SubAssign(b: BaseUint)
      requires Valid() && b.Valid()
      modifies pn
      ensures Value() == (old(Value()) - old(b.Value())) % Modulus()
    {
      var minus := b.Negate();
      ghost var x, y := Value(), b.Value();
      AddAssign(minus);
      SubMod(x, y);
    }

    // -------------------------------------------------------------- comparison

    /** -1, 0 or 1. */
    method CompareTo(b: BaseUint) returns (c: int)
      requires Valid() && b.Valid()
      ensures c == if Value() < b.Value() then -1 else if Value() > b.Value() then 1 else 0
    {
      var i := WIDTH - 1;
      while i >= 0
        invariant -1 <= i < WIDTH
        invariant pn[i + 1..] == b.pn[i + 1..]
      {
        if pn[i] < b.pn[i] {
          ValCompare(pn[..], b.pn[..], i);
          return -1;
        }
        if pn[i] > b.pn[i] {
          ValCompare(b.pn[..], pn[..], i);
          return 1;
        }
        i := i - 1;
      }
      assert pn[..] == pn[0..] && b.pn[..] == b.pn[0..];
      return 0;
    }

    // -------------------------------------------------------------- multiplication

    /** `*=` by a 32-bit number. */
    method MulAssign32(b32: Limb)
      requires Valid()
      modifies pn
      ensures Value() == (old(Value()) * b32) % Modulus()
    {
      hide Val, Pow;
      ghost var x := pn[..];
      ValZero([]);
      assert pn[..0] == [] && x[..0] == [];
      var carry := 0;
      for i := 0 to WIDTH
        invariant 0 <= carry < LIMB
        invariant pn[i..] == x[i..]
        invariant Val(pn[..i]) + carry * Pow(LIMB, i) == Val(x[..i]) * b32
      {
        assert pn[i] == x[i];
        MulFits(b32, pn[i], carry, 0);
        var n := carry + b32 * pn[i];
        assert n < LIMB * LIMB;
        MulStep(pn[..], x, i, b32, carry, n);
        pn[i] := n % LIMB;
        carry := n / LIMB;
        assert pn[..i + 1] == pn[..][..i + 1];
      }
      assert pn[..WIDTH] == pn[..] && x[..WIDTH] == x;
      ValBound(pn[..]);
      DivUnique(Val(x) * b32, Modulus(), carry, Val(pn[..]));
    }

    /** `*=`. An operand that is the object itself has just been zeroed, so the result is zero. */
    method MulAssign(b: BaseUint)
      requires Valid() && b.Valid()
      modifies pn
      ensures Value() == if b.pn == pn then 0 else (old(Value()) * old(b.Value())) % Modulus()
    {
      hide Val, Pow;
      ghost var x, y := pn[..], b.pn[..];
      var a := new BaseUint.Copy(this);
      AssignZero();
      assert x[..0] == [] && Val(x[..0]) == 0 by { ValZero(x[..0]); }
      ghost var q: nat := 0;
      for j := 0 to WIDTH
        invariant a.Valid() && fresh(a.pn) && a.pn[..] == x
        invariant b.pn != pn ==> b.pn[..] == y && Val(pn[..]) + q * Modulus() == Val(x[..j]) * Val(y)
        invariant b.pn == pn ==> forall k :: 0 <= k < WIDTH ==> pn[k] == 0
      {
        ghost var start := Val(pn[..]);
        ghost var carry := MulRow(a.pn[j], b, j);
        if b.pn != pn {
          q := MulRowDone(start, Val(pn[..]), carry, q, x, y, j);
        }
      }
      ModulusPos();
      ValBound(pn[..]);
      if b.pn == pn {
        ValZero(pn[..]);
      } else {
        assert x[..WIDTH] == x;
        DivUnique(Val(x) * Val(y), Modulus(), q, Val(pn[..]));
      }
    }

    /** One row of the product: add `aj` times `b`, shifted by `j` limbs. */
    method MulRow(aj: Limb, b: BaseUint, j: nat) returns (ghost last: nat)
      requires Valid() && b.Valid() && j < WIDTH
      requires b.pn == pn ==> forall k :: 0 <= k < WIDTH ==> pn[k] == 0
      modifies pn
      ensures b.pn != pn ==> Val(pn[..]) + last * Modulus()
                             == old(Val(pn[..])) + aj * Val(b.pn[..][..WIDTH - j]) * Pow(LIMB, j)
      ensures b.pn == pn ==> forall k :: 0 <= k < WIDTH ==> pn[k] == 0
    {
      hide Val, Pow;
      ghost var start, y := pn[..], b.pn[..];
      var carry := 0;
      assert y[..0] == [] && Val(y[..0]) == 0 by { ValZero(y[..0]); }
      for i := 0 to WIDTH - j
        invariant 0 <= carry < LIMB
        invariant b.pn == pn ==> carry == 0 && forall k :: 0 <= k < WIDTH ==> pn[k] == 0
        invariant b.pn != pn ==> b.pn[..] == y && pn[i + j..] == start[i + j..]
        invariant b.pn != pn ==> Val(pn[..i + j]) + carry * Pow(LIMB, i + j)
                                 == Val(start[..i + j]) + aj * Val(y[..i]) * Pow(LIMB, j)
      {
        MulFits(aj, b.pn[i], carry, pn[i + j]);
        var n := carry + pn[i + j] + aj * b.pn[i];
        assert n < LIMB * LIMB;
        ghost var before: seq<Limb> := pn[..];
        if b.pn != pn {
          assert pn[i + j] == pn[i + j..][0] == start[i + j..][0];
          MulRowStep(before, start, y, i, j, aj, carry, n);
        }
        var low: Limb := n % LIMB;
        pn[i + j] := low;
        carry := n / LIMB;
        assert pn[..] == before[i + j := low];
        assert pn[..i + j + 1] == pn[..][..i + j + 1];
      }
      last := carry;
      assert pn[..WIDTH] == pn[..] && start[..WIDTH] == start;
    }

    // -------------------------------------------------------------- shifts

    /** `<<=`. */
    method ShiftLeft(shift: nat)
      requires Valid()
      modifies pn
      ensures Value() == (old(Value()) * Pow(2, shift)) % Modulus()
    {
      hide Val, Pow, LeftShifted, LeftLimb;
      ghost var x := pn[..];
      var a := new BaseUint.Copy(this);
      AssignZero();
      var k, r := shift / 32, shift % 32;
      LeftStart(pn[..], x, k, r);
      ghost var q: nat := 0;
      for i := 0 to WIDTH
        invariant a.Valid() && fresh(a.pn) && a.pn[..] == x
        invariant LeftShifted(pn[..], x, i, k, r, q)
      {
        ghost var s := pn[..];
        LeftShape(s, x, i, k, r, q);
        q := LeftStep(s, x, i, k, r, q);
        OrLeft(a.pn[i], i, k, r);
      }
      LeftDone(pn[..], x, k, r, q);
    }

    /** Or one source limb, shifted left, into the target. */
    method OrLeft(x: Limb, i: nat, k: nat, r: nat)
      requires Valid() && r < 32 && (i + k < WIDTH ==> pn[i + k] < Pow(2, r)) && (i + k + 1 < WIDTH ==> pn[i + k + 1] == 0)
      modifies pn
      ensures pn[..] == LeftLimb(old(pn[..]), x, i, k, r)
    {
      hide Pow;
      ShiftedLimb(x, r);
      if i + k + 1 < WIDTH && r != 0 {
        pn[i + k + 1] := Or(pn[i + k + 1], x / Pow(2, 32 - r));
      }
      if i + k < WIDTH {
        OrShifted(pn[i + k], (x * Pow(2, r)) % LIMB, r);
        pn[i + k] := Or(pn[i + k], (x * Pow(2, r)) % LIMB);
      }
    }

    /** `>>=`. */
    method ShiftRight(shift: nat)
      requires Valid()
      modifies pn
      ensures Pow(2, shift) > 0 && Value() == old(Value()) / Pow(2, shift)
    {
      hide Val, Pow, RightShifted, RightLimbs;
      ghost var x := pn[..];
      var a := new BaseUint.Copy(this);
      AssignZero();
      var k, r := shift / 32, shift % 32;
      RightStart(pn[..], x, k, r);
      for i := 0 to WIDTH
        invariant a.Valid() && fresh(a.pn) && a.pn[..] == x
        invariant RightShifted(pn[..], x, i, k, r)
      {
        RightStep(pn[..], x, i, k, r);
        OrRight(a.pn[i], i, k, r);
      }
      RightDone(pn[..], x, k, r);
    }

    /** Or one source limb, shifted right, into the target. */
    method OrRight(x: Limb, i: nat, k: nat, r: nat)
      requires Valid() && i < WIDTH && r < 32 && (i > k ==> pn[i - k - 1] < Pow(2, 32 - r)) && (i >= k ==> pn[i - k] == 0)
      modifies pn
      ensures pn[..] == RightLimbs(old(pn[..]), x, i, k, r)
    {
      hide Pow;
      RightLimb(x, r);
      if i - k - 1 >= 0 && r != 0 {
        OrShiftedRight(pn[i - k - 1], (x * Pow(2, 32 - r)) % LIMB, r);
        pn[i - k - 1] := Or(pn[i - k - 1], (x * Pow(2, 32 - r)) % LIMB);
      }
      if i - k >= 0 {
        pn[i - k] := Or(pn[i - k], x / Pow(2, r));
      }
    }

    // -------------------------------------------------------------- division

    /** Position of the highest bit set plus one, or zero. */
    method Bits() returns (r: nat)
      requires Valid()
      ensures r == BitLen(Value()) && r <= 32 * WIDTH
    {
      hide Val, Pow;
      var pos := WIDTH - 1;
      while pos >= 0
        invariant -1 <= pos < WIDTH
        invariant forall m :: pos < m < WIDTH ==> pn[m] == 0
      {
        if pn[pos] != 0 {
          var bits := 31;
          TwoTo32();
          while bits > 0
            invariant 0 <= bits <= 31 && pn[pos] < Pow(2, bits + 1)
          {
            BitTest(pn[pos], bits);
            if Bit(pn[pos], bits) {
              TopBit(pn[..], pos, bits);
              return 32 * pos + bits + 1;
            }
            bits := bits - 1;
          }
          PowZero(2);
          TopBit(pn[..], pos, 0);
          return 32 * pos + 1;
        }
        pos := pos - 1;
      }
      ValZero(pn[..]);
      return 0;
    }

    /** `/=`: long division. Reports false (the source throws) for a zero divisor, after having zeroed the object. */
    method DivAssign(b: BaseUint) returns (ok: bool, ghost remainder: nat)
      requires Valid() && b.Valid()
      modifies pn
      ensures ok <==> old(b.Value()) != 0
      ensures !ok ==> Value() == 0
      ensures ok ==> old(Value()) == Value() * old(b.Value()) + remainder && remainder < old(b.Value())
      ensures ok ==> Value() == old(Value()) / old(b.Value()) && remainder == old(Value()) % old(b.Value())
    {
      hide Val, Pow, Modulus, BitLen;
      ghost var n, d := Value(), b.Value();
      ValBound(pn[..]);
      var div := new BaseUint.Copy(b);
      var num := new BaseUint.Copy(this);
      AssignZero();
      var numBits := num.Bits();
      var divBits := div.Bits();
      BitLenZero(d);
      remainder := n;
      if divBits == 0 {
        return false, remainder;
      }
      if divBits > numBits {
        BitLenMono(n, d);
        DivUnique(n, d, 0, n);
        return true, n;
      }
      var shift := numBits - divBits;
      IsModulus();
      Alignment(n, d);
      div.ShiftLeft(shift);
      SmallMod(d * Pow(2, shift), Modulus());
      ZeroTimes(Pow(2, shift + 1));
      remainder := DivLoop(num, div, shift, d);
      ZeroTimes(d);
      DivUnique(n, d, Value(), remainder);
      return true, remainder;
    }

    /** The subtract-and-shift loop, from an aligned divisor and an empty quotient. */
    method DivLoop(num: BaseUint, div: BaseUint, top: nat, ghost d: nat) returns (ghost remainder: nat)
      requires Valid() && num.Valid() && div.Valid() && pn != num.pn && pn != div.pn && num.pn != div.pn
      requires top < 32 * WIDTH && Value() == 0
      requires div.Value() == d * Pow(2, top) && num.Value() < d * Pow(2, top + 1)
      modifies pn, num.pn, div.pn
      ensures remainder < d && old(num.Value()) == Value() * d + remainder
    {
      hide Val, Pow, Modulus;
      ghost var n := num.Value();
      ghost var c: nat := 0;
      ZeroTimes(Pow(2, top + 1));
      ZeroTimes(d);
      var shift: int := top;
      while shift >= 0
        invariant -1 <= shift < 32 * WIDTH
        invariant num.Value() < d * Pow(2, shift + 1)
        invariant n == num.Value() + Value() * d
        invariant Value() == c * Pow(2, shift + 1)
        invariant shift >= 0 ==> div.Value() == d * Pow(2, shift)
      {
        c := DivStep(num, div, shift, n, d, c);
        div.ShiftRight(1);
        PowLimbTwo();
        if shift > 0 { HalveAligned(d, shift); }
        shift := shift - 1;
      }
      PowZero(2);
      remainder := num.Value();
    }

    /** One round: subtract if it fits, and set the quotient bit. */
    method DivStep(num: BaseUint, div: BaseUint, shift: nat, ghost n: nat, ghost d: nat, ghost c: nat) returns (ghost c': nat)
      requires Valid() && num.Valid() && div.Valid() && pn != num.pn && pn != div.pn && num.pn != div.pn
      requires shift < 32 * WIDTH && div.Value() == d * Pow(2, shift) && num.Value() < d * Pow(2, shift + 1)
      requires n == num.Value() + Value() * d && Value() == c * Pow(2, shift + 1)
      modifies pn, num.pn
      ensures num.Value() < d * Pow(2, shift) && n == num.Value() + Value() * d && Value() == c' * Pow(2, shift)
    {
      hide Val, Pow, Modulus;
      ghost var q := Value();
      DivRound(n, d, q, num.Value(), shift);
      ghost var without, with := QuotientBits(q, c, shift);
      c' := without;
      var cmp := num.CompareTo(div);
      if cmp >= 0 {
        ghost var r := num.Value() - div.Value();
        ValBound(num.pn[..]);
        IsModulus();
        num.SubAssign(div);
        SmallMod(r, Modulus());
        SetBit(pn[..], shift, c);
        ghost var s: seq<Limb> := pn[..];
        pn[shift / 32] := Or(pn[shift / 32], Pow(2, shift % 32));
        assert pn[..] == s[shift / 32 := s[shift / 32] + Pow(2, shift % 32)];
        c' := with;
      }
    }

    // -------------------------------------------------------------- the compact form

    /** The two lowest limbs. */
    method GetLow64() returns (r: nat)
      requires Valid()
      ensures r == Value() % (LIMB * LIMB)
    {
      hide Val, Pow, Or;
      LowLimbs(pn[..]);
      return Or(pn[0], pn[1] * LIMB);
    }

    /** Load a compact target; the flags say whether it was negative and whether it does not fit 256 bits. */
    method SetCompact(compact: nat) returns (negative: bool, overflow: bool)
      requires Valid() && compact < LIMB
      modifies pn
      ensures Modulus() > 0 && Value() == Compact.Target(compact) % Modulus()
      ensures negative <==> Compact.Word(compact) != 0 && Compact.SignBit(compact)
      ensures overflow <==> Compact.Target(compact) >= Modulus()
    {
      hide Val, Pow, Modulus;
      ModulusPos();
      var size := compact / 0x100_0000;
      var word := compact % 0x80_0000;
      if size <= 3 {
        Compact.Pow256(3 - size);
        Compact.DivShrinks(word, Pow(2, 8 * (3 - size)));
        word := word / Pow(2, 8 * (3 - size));
        Assign64(word);
        ValBound(pn[..]);
        IsModulus();
        SmallMod(word, Modulus());
      } else {
        Assign64(word);
        ShiftLeft(8 * (size - 3));
        Compact.Pow256(size - 3);
      }
      assert word == Compact.Word(compact);
      negative := word != 0 && (compact / 0x80_0000) % 2 == 1;
      overflow := word != 0 && (size > 34 || (word > 0xff && size > 33) || (word > 0xffff && size > 32));
      Compact.OverflowExact(compact);
    }

    /** The compact form of the value, with the sign bit set for a negative nonzero number. */
    method GetCompact(negative: bool) returns (c: nat)
      requires Valid()
      ensures c == Compact.Encode(Value()) + (if negative && Compact.Parts(Value()).0 != 0 then 0x80_0000 else 0)
      ensures c < LIMB && Compact.Size(c) == Compact.Parts(Value()).1 && Compact.Mantissa(c) == Compact.Parts(Value()).0
    {
      hide Val, Pow, Modulus, Or, Compact.Top, Compact.Encode;
      ghost var v := Value();
      ValBound(pn[..]);
      IsModulus();
      var size := Bits();
      size := (size + 7) / 8;
      Compact.TopBounds(v);
      Compact.EncodeParts(v);
      c := TopBytes(size);
      if (c / 0x80_0000) % 2 == 1 {
        c := c / 256;
        size := size + 1;
      }
      assert (c, size) == Compact.Parts(v);
      assert c < 0x80_0000 && size < 256;
      CompactOr(c, size);
      c := Or(c, size * 0x100_0000);
      assert c == Compact.Encode(v) by { IsEncode(v); }
      var sign := if negative && c % 0x80_0000 != 0 then 0x80_0000 else 0;
      SignOr(c, sign);
      c := Or(c, sign);
    }

    /** The three most significant bytes, as the branch of GetCompact on the size computes them. */
    method TopBytes(size: nat) returns (c: nat)
      requires Valid() && size == Compact.Bytes(Value())
      ensures c == Compact.Top(Value())
    {
      hide Val, Pow, Modulus, Compact.Bytes;
      ghost var v := Value();
      Compact.TopBounds(v);
      if size <= 3 {
        var low := GetLow64();
        Compact.Pow256(3 - size);
        Compact.BytesBounds(v);
        PowersOf256();
        PowMono(256, size, 3);
        SmallMod(v, LIMB * LIMB);
        c := (low * Pow(2, 8 * (3 - size))) % LIMB;
        SmallMod(Compact.Top(v), LIMB);
      } else {
        var bn := new BaseUint.Copy(this);
        bn.ShiftRight(8 * (size - 3));
        Compact.Pow256(size - 3);
        var low := bn.GetLow64();
        SmallMod(Compact.Top(v), LIMB * LIMB);
        c := low % LIMB;
        SmallMod(Compact.Top(v), LIMB);
      }
    }
  }

  lemma BitLenZero(d: nat)
    ensures BitLen(d) == 0 <==> d == 0
  {
  }

  lemma ZeroTimes(x: int)
    ensures 0 * x == 0
  {
  }

  lemma IsModulus()
    ensures Modulus() == Pow(LIMB, WIDTH)
  {
  }

  lemma PowLimbTwo()
    ensures Pow(2, 1) == 2
  {
    assert Pow(2, 0) == 1;
  }

  /** The value modulo 2^64 sits in the two lowest limbs, whose halves do not overlap. */
  lemma LowLimbs(s: seq<Limb>)
    requires |s| == WIDTH
    ensures Or(s[0], s[1] * LIMB) == Val(s) % (LIMB * LIMB)
  {
    hide Val, Pow, Or;
    assert Pow(LIMB, 0) == 1 && Pow(LIMB, 1) == LIMB && Pow(LIMB, 2) == LIMB * LIMB by { SmallPowers(); }
    TwoTo32();
    DivUnique(s[1] * LIMB, LIMB, s[1], 0);
    OrDisjoint(s[0], s[1] * LIMB, 32);
    ValSplit(s, 2);
    ValSnoc(s, 0);
    ValSnoc(s, 1);
    ValZero(s[..0]);
    DivUnique(Val(s), LIMB * LIMB, Val(s[2..]), s[0] + s[1] * LIMB);
  }

  lemma SmallPowers()
    ensures Pow(LIMB, 0) == 1 && Pow(LIMB, 1) == LIMB && Pow(LIMB, 2) == LIMB * LIMB
  {
    assert Pow(LIMB, 2) == LIMB * Pow(LIMB, 1);
  }

  lemma CompactOr(m: nat, size: nat)
    requires m < 0x80_0000
    ensures Or(m, size * 0x100_0000) == m + size * 0x100_0000
  {
    hide Or;
    Compact.Pow256(3);
    PowersOf256();
    DivUnique(size * 0x100_0000, 0x100_0000, size, 0);
    OrDisjoint(m, size * 0x100_0000, 24);
  }

  lemma IsEncode(v: nat)
    ensures Compact.Encode(v) == Compact.Parts(v).0 + Compact.Parts(v).1 * 0x100_0000
  {
  }

  /** Setting the sign bit of an encoding that has it clear. */
  lemma SignOr(c: nat, sign: nat)
    requires !Compact.SignBit(c) && (sign == 0 || sign == 0x80_0000)
    ensures Or(c, sign) == c + sign
    ensures Compact.Size(c + sign) == Compact.Size(c) && Compact.Mantissa(c + sign) == Compact.Mantissa(c)
  {
    hide Or;
    var high, low := c / 0x100_0000, c % 0x100_0000;
    LowHalf(c);
    if sign == 0 {
      OrZero(c);
    } else {
      OrSign(high, low);
      DivUnique(c + sign, 0x100_0000, high, low + sign);
      DivUnique(c, 0x80_0000, 2 * high, low);
      DivUnique(c + sign, 0x80_0000, 2 * high + 1, low);
    }
  }

  lemma LowHalf(c: nat)
    requires (c / 0x80_0000) % 2 != 1
    ensures c % 0x100_0000 < 0x80_0000 && c == (c / 0x100_0000) * 0x100_0000 + c % 0x100_0000
  {
    var q, l := c / 0x80_0000, c % 0x80_0000;
    assert c == q * 0x80_0000 + l && q == 2 * (q / 2);
    DivUnique(c, 0x100_0000, q / 2, l);
  }

  lemma OrZero(c: nat)
    ensures Or(c, 0) == c
  {
  }

  /** Or of a single bit into a number whose bit there is clear, by peeling off the bits below it. */
  lemma OrSign(high: nat, low: nat)
    requires low < 0x80_0000
    ensures Or(high * 0x100_0000 + low, 0x80_0000) == high * 0x100_0000 + low + 0x80_0000
  {
    hide Pow, Or;
    Pow23();
    OrBit(high, low, 23);
  }

  lemma Pow23()
    ensures Pow(2, 23) == 0x80_0000 && Pow(2, 24) == 0x100_0000
  {
    assert Pow(2, 8) == 256;
    PowAdd(2, 8, 8);
    PowAdd(2, 16, 7);
    PowAdd(2, 16, 8);
    assert Pow(2, 7) == 128;
  }

  lemma {:induction false} OrBit(high: nat, low: nat, b: nat)
    requires low < Pow(2, b)
    ensures Or(high * Pow(2, b + 1) + low, Pow(2, b)) == high * Pow(2, b + 1) + low + Pow(2, b)
  {
    var x := high * Pow(2, b + 1) + low;
    if b == 0 {
      assert Pow(2, 1) == 2;
      assert x == 2 * high && Pow(2, 0) == 1;
      assert x / 2 == high && 1 / 2 == 0;
    } else {
      var h := high * Pow(2, b);
      assert Pow(2, b) == 2 * Pow(2, b - 1) && Pow(2, b + 1) == 2 * Pow(2, b);
      assert x == 2 * h + low;
      assert x / 2 == h + low / 2;
      OrBit(high, low / 2, b - 1);
    }
  }
}
