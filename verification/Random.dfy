/** Uniform draws from 64 random bits by rejection. */
module Random {
  import opened Common
  import opened Powers

  const MAX64: nat := 0xFFFF_FFFF_FFFF_FFFF

  /** Raw draws at or above this multiple of the range are rejected. */
  function Accepted(max: nat): nat
    requires max > 0
  {
    MAX64 / max * max
  }

  /** No more than half of the raw draws are rejected, for every 64-bit range. */
  lemma MostAreAccepted(max: nat)
    requires 0 < max <= MAX64
    ensures MAX64 - max < Accepted(max) <= MAX64 && MAX64 < 2 * Accepted(max) + 1
  {
    DivMod(MAX64, max);
    var q := MAX64 / max;
    if q > 0 { MulMono(1, q, max); }
  }

  /** The raw draws below `k * max` that give the residue `r`. */
  ghost function Giving(max: nat, r: nat, k: nat): set<nat>
    requires max > 0
  {
    set raw: nat | raw < k * max && raw % max == r
  }

  lemma {:induction false} GivingCount(max: nat, r: nat, k: nat)
    requires r < max
    ensures |Giving(max, r, k)| == k
  {
    if k == 0 {
      assert Giving(max, r, 0) == {};
    } else {
      GivingCount(max, r, k - 1);
      var x := (k - 1) * max + r;
      assert (k - 1) * max + max == k * max;
      DivUnique(x, max, k - 1, r);
      forall raw: nat ensures raw in Giving(max, r, k) <==> raw in Giving(max, r, k - 1) || raw == x {
        DivMod(raw, max);
        if raw in Giving(max, r, k) && raw >= (k - 1) * max {
          DivUnique(raw, max, k - 1, raw - (k - 1) * max);
        }
      }
      assert Giving(max, r, k) == Giving(max, r, k - 1) + {x};
    }
  }

  /** Every result below `max` comes from the same number of accepted raw draws. */
  lemma Uniform(max: nat, r: nat)
    requires r < max
    ensures |set raw: nat | raw < Accepted(max) && raw % max == r| == MAX64 / max
  {
    GivingCount(max, r, MAX64 / max);
    assert Giving(max, r, MAX64 / max) == set raw: nat | raw < Accepted(max) && raw % max == r;
  }

  /** GetRand over a stream of raw draws, one of which is accepted: the residue of the first accepted one. */
  method GetRand(max: nat, draws: nat -> nat, ghost k: nat) returns (r: nat)
    requires max > 0 ==> draws(k) < Accepted(max)
    ensures max == 0 ==> r == 0
    ensures max > 0 ==> exists n: nat :: FirstAccepted(max, draws, n) && r == draws(n) % max == Draw(max, draws(n))
  {
    if max == 0 {
      return 0;
    }
    var range := MAX64 / max * max;
    var n: nat := 0;
    var raw := draws(0);
    while raw >= range
      invariant n <= k && raw == draws(n) && forall i: nat :: i < n ==> draws(i) >= range
      decreases k - n
    {
      n := n + 1;
      raw := draws(n);
    }
    assert FirstAccepted(max, draws, n);
    r := raw % max;
  }

  /** Draw `n` is accepted and none before it is. */
  ghost predicate FirstAccepted(max: nat, draws: nat -> nat, n: nat)
    requires max > 0
  {
    draws(n) < Accepted(max) && forall i: nat :: i < n ==> draws(i) >= Accepted(max)
  }
}
