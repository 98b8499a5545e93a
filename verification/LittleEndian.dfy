/** Unsigned integers as little-endian bytes. */
module LittleEndian {
  import opened Common
  import opened Powers

  /** `k` bytes of an integer as they lie in little-endian memory. */
  function Little(k: nat, n: nat): (s: seq<Byte>)
    ensures |s| == k
  {
    if k == 0 then [] else [n % 256] + Little(k - 1, n / 256)
  }

  function Unlittle(s: seq<Byte>): nat {
    if s == [] then 0 else s[0] + 256 * Unlittle(s[1..])
  }

  lemma {:induction false} UnlittleLittle(k: nat, n: nat)
    requires n < Pow(256, k)
    ensures Unlittle(Little(k, n)) == n
  {
    if k > 0 {
      DivMod(n, 256);
      UnlittleLittle(k - 1, n / 256);
      assert Little(k, n)[1..] == Little(k - 1, n / 256);
    }
  }

  lemma {:induction false} LittleUnlittle(s: seq<Byte>)
    ensures Unlittle(s) < Pow(256, |s|) && Little(|s|, Unlittle(s)) == s
  {
    if s != [] {
      LittleUnlittle(s[1..]);
      DivUnique(Unlittle(s), 256, Unlittle(s[1..]), s[0]);
    }
  }

  /** Too few bytes keep the low part of the number. */
  lemma {:induction false} LittleLow(k: nat, n: nat)
    ensures Pow(256, k) > 0 && Unlittle(Little(k, n)) == n % Pow(256, k)
  {
    PowPos(256, k);
    if k > 0 {
      LittleLow(k - 1, n / 256);
      var p := Pow(256, k - 1);
      var q := n / 256 / p;
      DivMod(n, 256);
      DivMod(n / 256, p);
      MulAssoc(q, p, 256);
      DivUnique(n, 256 * p, q, n % 256 + 256 * (n / 256 % p));
      assert Little(k, n)[1..] == Little(k - 1, n / 256);
    }
  }

  /** Byte `i` has weight 256^i. */
  lemma {:induction false} LittleByte(k: nat, n: nat, i: nat)
    requires i < k
    ensures Pow(256, i) > 0 && Little(k, n)[i] == n / Pow(256, i) % 256
  {
    PowPos(256, i);
    if i > 0 {
      PowPos(256, i - 1);
      LittleByte(k - 1, n / 256, i - 1);
      DivDiv(n, 256, Pow(256, i - 1));
    } else {
      DivMod(n, 1);
    }
  }
}
