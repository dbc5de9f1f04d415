/** Unsigned machine integers as mathematical ones, and their single bits.

    A bit operation of the source is given by recursion over the bits, so that
    `w | (1 << k)` is SetBit(w, k) and `w & ~(1 << k)` is ClearBit(w, k).  The lemmas say
    that these change bit k and no other bit, which determines them. */
module Bits {
  import opened Helpers

  type byte = x: int | 0 <= x < 0x100
  type u32 = x: int | 0 <= x < 0x1_0000_0000

  const WORD := 0x1_0000_0000

  function Pow2(n: nat): (p: nat)
    ensures p >= 1
  {
    if n == 0 then 1 else 2 * Pow2(n - 1)
  }

  /** `(w >> k) & 1` */
  predicate Bit(w: nat, k: nat) {
    if k == 0 then w % 2 == 1 else Bit(w / 2, k - 1)
  }

  /** `w | (1 << k)` */
  function SetBit(w: nat, k: nat): nat {
    if k == 0 then w / 2 * 2 + 1 else 2 * SetBit(w / 2, k - 1) + w % 2
  }

  /** `w & ~(1 << k)` */
  function ClearBit(w: nat, k: nat): nat {
    if k == 0 then w / 2 * 2 else 2 * ClearBit(w / 2, k - 1) + w % 2
  }

  lemma {:induction false} SetBitBits(w: nat, k: nat, j: nat)
    ensures Bit(SetBit(w, k), j) <==> j == k || Bit(w, j)
  {
    if k != 0 && j != 0 {
      SetBitBits(w / 2, k - 1, j - 1);
    }
  }

  lemma {:induction false} ClearBitBits(w: nat, k: nat, j: nat)
    ensures Bit(ClearBit(w, k), j) <==> j != k && Bit(w, j)
  {
    if k != 0 && j != 0 {
      ClearBitBits(w / 2, k - 1, j - 1);
    }
  }

  /** A bit operation below bit n stays below 2^n. */
  lemma {:induction false} BitOpsFit(w: nat, k: nat, n: nat)
    requires k < n && w < Pow2(n)
    ensures SetBit(w, k) < Pow2(n) && ClearBit(w, k) < Pow2(n)
  {
    var h, half := w / 2, Pow2(n - 1);
    assert h < half;
    if k != 0 {
      BitOpsFit(h, k - 1, n - 1);
      var x, y, z := SetBit(h, k - 1), ClearBit(h, k - 1), w % 2;
      assert SetBit(w, k) == 2 * x + z && ClearBit(w, k) == 2 * y + z;
    }
  }

  /** Two words below 2^n with the same bits are equal. */
  lemma {:induction false} SameBits(v: nat, w: nat, n: nat)
    requires v < Pow2(n) && w < Pow2(n)
    requires forall k: nat :: k < n ==> (Bit(v, k) <==> Bit(w, k))
    ensures v == w
  {
    if n != 0 {
      assert Bit(v, 0) <==> Bit(w, 0);
      forall k: nat | k < n - 1 ensures Bit(v / 2, k) <==> Bit(w / 2, k) {
        assert Bit(v, k + 1) <==> Bit(w, k + 1);
      }
      SameBits(v / 2, w / 2, n - 1);
    }
  }

  lemma OnesHalved(n: nat)
    requires n > 0
    ensures (Pow2(n) - 1) % 2 == 1 && (Pow2(n) - 1) / 2 == Pow2(n - 1) - 1
  {
  }

  lemma {:induction false} OnesBits(n: nat, k: nat)
    requires k < n
    ensures Bit(Pow2(n) - 1, k)
  {
    hide Pow2;
    OnesHalved(n);
    if k != 0 { OnesBits(n - 1, k - 1); }
  }

  predicate AllSet(w: nat, n: nat) {
    forall k: nat :: k < n ==> Bit(w, k)
  }

  /** A word below 2^n is 2^n - 1 exactly when all its n bits are set. */
  lemma AllOnes(w: nat, n: nat)
    requires w < Pow2(n)
    ensures w == Pow2(n) - 1 <==> AllSet(w, n)
  {
    var ones := Pow2(n) - 1;
    forall k: nat | k < n ensures Bit(ones, k) { OnesBits(n, k); }
    if AllSet(w, n) {
      SameBits(w, ones, n);
    }
  }

  lemma {:induction false} Zero(k: nat)
    ensures !Bit(0, k)
  {
    if k != 0 { Zero(k - 1); }
  }

  /** Bit k of a word is the lowest bit of what dividing by 2^k leaves. */
  lemma {:induction false} BitAt(w: nat, k: nat)
    ensures Bit(w, k) <==> w / Pow2(k) % 2 == 1
  {
    if k != 0 {
      BitAt(w / 2, k - 1);
      HalfTwice(w, Pow2(k - 1));
    }
  }

  lemma HalfTwice(w: nat, d: nat)
    requires d > 0
    ensures w / (2 * d) == w / 2 / d
  {
    var q, r := w / 2 / d, w / 2 % d;
    assert w / 2 == d * q + r;
    assert w == 2 * (d * q) + (2 * r + w % 2);
    assert 2 * (d * q) == (2 * d) * q;
    DivUnique(w, 2 * d, q, 2 * r + w % 2);
  }

  /** Below bit n a word has the bits of its remainder by 2^n. */
  lemma {:induction false} LowBits(a: nat, f: nat, n: nat, k: nat)
    requires k < n
    ensures Bit(a * Pow2(n) + f, k) <==> Bit(f, k)
  {
    var x := a * Pow2(n - 1);
    assert a * Pow2(n) == 2 * x;
    if k != 0 {
      assert (2 * x + f) / 2 == x + f / 2;
      LowBits(a, f / 2, n - 1, k - 1);
    }
  }

  lemma Pow2Word()
    ensures Pow2(8) == 0x100 && Pow2(32) == 0x1_0000_0000
  {
    assert Pow2(8) == 0x100;
    assert Pow2(16) == 0x1_0000;
    assert Pow2(24) == 0x100_0000;
  }
}
