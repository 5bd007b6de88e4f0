/** Bit arithmetic on unsigned numbers: bit 0 is the least significant. */
module Bits {
  import opened Octets

  /** `(v & (1 << k)) != 0` */
  predicate BitAt(v: nat, k: nat) {
    if k == 0 then v % 2 == 1 else BitAt(v / 2, k - 1)
  }

  /** Bit `k` has the weight 2^k. */
  lemma {:induction false} BitHasWeight(v: nat, k: nat)
    ensures BitAt(v, k) <==> v / Pow2(k) % 2 == 1
    decreases k
  {
    if k > 0 {
      BitHasWeight(v / 2, k - 1);
      HalfOf(v, Pow2(k - 1));
    }
  }

  lemma HalfOf(v: nat, p: nat)
    requires p > 0
    ensures v / 2 / p == v / (2 * p)
  {
    var q, r := v / 2 / p, v / 2 % p;
    assert v / 2 == p * q + r;
    assert v == (2 * p) * q + (2 * r + v % 2);
    QuotientIs(v, 2 * p, q, 2 * r + v % 2);
  }

  /** `v | (1 << k)` */
  function SetBit(v: nat, k: nat): nat {
    if BitAt(v, k) then v else v + Pow2(k)
  }

  /** The number whose bits, from bit 0 up, are `flags`. */
  function OfFlags(flags: seq<bool>): (v: nat)
    ensures v < Pow2(|flags|)
  {
    if flags == [] then 0 else (if flags[0] then 1 else 0) + 2 * OfFlags(flags[1..])
  }

  lemma {:induction false} BitOfFlags(flags: seq<bool>, k: nat)
    requires k < |flags|
    ensures BitAt(OfFlags(flags), k) == flags[k]
  {
    if k > 0 {
      assert OfFlags(flags) / 2 == OfFlags(flags[1..]);
      BitOfFlags(flags[1..], k - 1);
    }
  }

  /** Or-ing the next bit in. */
  lemma {:induction false} SetNextBit(flags: seq<bool>, b: bool)
    ensures OfFlags(flags + [b]) == if b then SetBit(OfFlags(flags), |flags|) else OfFlags(flags)
  {
    if flags == [] {
      assert [b][1..] == [];
    } else {
      SetNextBit(flags[1..], b);
      assert (flags + [b])[1..] == flags[1..] + [b];
      assert OfFlags(flags) / 2 == OfFlags(flags[1..]);
    }
  }

  /** Bits of a number put together from a low and a high part. */
  lemma {:induction false} BitOfSum(low: nat, high: nat, n: nat, k: nat)
    requires low < Pow2(n)
    ensures BitAt(low + Pow2(n) * high, k) == if k < n then BitAt(low, k) else BitAt(high, k - n)
  {
    if n == 0 {
      assert Pow2(n) * high == high;
    } else {
      var v := low + Pow2(n) * high;
      assert v == low + 2 * (Pow2(n - 1) * high);
      assert v % 2 == low % 2 && v / 2 == low / 2 + Pow2(n - 1) * high;
      if k > 0 {
        BitOfSum(low / 2, high, n - 1, k - 1);
      }
    }
  }

  lemma Pow2Values()
    ensures Pow2(8) == 0x100
    ensures Pow2(16) == 0x1_0000
    ensures Pow2(32) == 0x1_0000_0000
  {
    assert Pow2(4) == 0x10;
    assert Pow2(12) == 0x1000;
    assert Pow2(20) == 0x10_0000;
    assert Pow2(24) == 0x100_0000;
    assert Pow2(28) == 0x1000_0000;
  }
}
