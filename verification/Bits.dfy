/** Arithmetic reading of the shifts and masks used on glyph rows. */
module Bits {
  import opened Common

  type bit = x: int | 0 <= x < 2

  function Pow2(n: nat): (p: nat)
    ensures p > 0
  {
    if n == 0 then 1 else 2 * Pow2(n - 1)
  }

  /** `(v >> k) & 1` */
  function Bit(v: nat, k: nat): bit
  {
    if k == 0 then v % 2 else Bit(v / 2, k - 1)
  }

  /** `v | (1 << k)` */
  function SetBit(v: nat, k: nat): nat
  {
    if Bit(v, k) == 1 then v else v + Pow2(k)
  }

  /** The number written by some bits, most significant first. */
  function Value(bits: seq<bit>): nat
  {
    if bits == [] then 0 else 2 * Value(bits[..|bits| - 1]) + bits[|bits| - 1]
  }

  /** The last `n` bits of a number, most significant first. */
  function BitsOf(v: nat, n: nat): (bs: seq<bit>)
    ensures |bs| == n
  {
    if n == 0 then [] else BitsOf(v / 2, n - 1) + [v % 2]
  }

  lemma {:induction false} ValueBound(bits: seq<bit>)
    ensures Value(bits) < Pow2(|bits|)
  {
    if bits != [] {
      ValueBound(bits[..|bits| - 1]);
    }
  }

  lemma {:induction false} BitsOfValue(bits: seq<bit>)
    ensures BitsOf(Value(bits), |bits|) == bits
  {
    if bits != [] {
      BitsOfValue(bits[..|bits| - 1]);
    }
  }

  lemma {:induction false} ValueOfBits(v: nat, n: nat)
    requires v < Pow2(n)
    ensures Value(BitsOf(v, n)) == v
  {
    if n > 0 {
      ValueOfBits(v / 2, n - 1);
      assert BitsOf(v, n)[..n - 1] == BitsOf(v / 2, n - 1);
    }
  }

  lemma {:induction false} BitsOfAt(v: nat, n: nat, x: nat)
    requires x < n
    ensures BitsOf(v, n)[x] == Bit(v, n - 1 - x)
  {
    if x < n - 1 {
      BitsOfAt(v / 2, n - 1, x);
    }
  }

  lemma HalfOfSum(lo: nat, p: nat)
    ensures (lo + 2 * p) / 2 == lo / 2 + p && (lo + 2 * p) % 2 == lo % 2
  {
  }

  lemma TwiceAsMuch(a: nat, b: nat)
    ensures (2 * a) * b == 2 * (a * b)
  {
  }

  /** The bits of a low part and a high part put together. */
  lemma {:induction false} BitSplit(lo: nat, hi: nat, n: nat, k: nat)
    requires lo < Pow2(n)
    ensures Bit(lo + Pow2(n) * hi, k) == if k < n then Bit(lo, k) else Bit(hi, k - n)
  {
    if n > 0 {
      TwiceAsMuch(Pow2(n - 1), hi);
      HalfOfSum(lo, Pow2(n - 1) * hi);
      if k > 0 {
        BitSplit(lo / 2, hi, n - 1, k - 1);
      }
    }
  }

  lemma Pow2Of8And16()
    ensures Pow2(8) == 0x100 && Pow2(16) == 0x1_0000
  {
    assert Pow2(4) == 16;
    assert Pow2(8) == 0x100;
    assert Pow2(12) == 0x1000;
  }
}
