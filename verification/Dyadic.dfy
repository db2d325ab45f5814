/** Powers of two, bitwise exclusive or, and the geometry of aligned power-of-two intervals.

    malloc_3.cpp finds the buddy of a block by XOR on its address. Here XOR is defined bit by bit and
    proved to move an aligned interval onto the other half of its parent.
 */
module Dyadic {

  /** `pow2` of malloc_3.cpp, for the non-negative exponents the heap uses. */
  function Pow2(k: nat): (p: nat)
    ensures p > 0
  {
    if k == 0 then 1 else 2 * Pow2(k - 1)
  }

  /** Bitwise exclusive or of two unsigned integers. */
  function Xor(a: nat, b: nat): nat
    decreases a + b
  {
    if a == 0 && b == 0 then 0 else 2 * Xor(a / 2, b / 2) + (a % 2 + b % 2) % 2
  }

  /** q * 2^k. */
  function Scale(q: nat, k: nat): nat {
    if k == 0 then q else 2 * Scale(q, k - 1)
  }

  /** `a` is a multiple of 2^k. */
  ghost predicate Aligned(a: nat, k: nat) {
    exists q: nat :: a == Scale(q, k)
  }

  /** The other half of the order-(k+1) parent of the aligned interval [a, a + 2^k). */
  ghost function Buddy(a: nat, k: nat): (b: nat)
    requires Aligned(a, k)
    ensures Aligned(b, k) && b != a
    ensures Aligned(b, k + 1) <==> !Aligned(a, k + 1)
    ensures b == a + Pow2(k) || a == b + Pow2(k)
  {
    HalfFacts(a, k);
    if Aligned(a, k + 1) then a + Pow2(k) else a - Pow2(k)
  }

  /** Start of the order-(k+1) parent of the aligned interval [a, a + 2^k). */
  ghost function Parent(a: nat, k: nat): (p: nat)
    requires Aligned(a, k)
    ensures p <= a < p + Pow2(k + 1) && Aligned(p, k + 1)
    ensures p == a || p == Buddy(a, k)
  {
    if Aligned(a, k + 1) then a else Buddy(a, k)
  }

  // ----- the same notions on bits, where every proof is an induction on halving

  predicate LowBitsClear(a: nat, k: nat) {
    k == 0 || (a % 2 == 0 && LowBitsClear(a / 2, k - 1))
  }

  lemma {:induction false} AlignedBits(a: nat, k: nat)
    ensures Aligned(a, k) <==> LowBitsClear(a, k)
    decreases k
  {
    if k == 0 {
      assert a == Scale(a, 0);
    } else {
      AlignedBits(a / 2, k - 1);
      if q: nat :| a == Scale(q, k) {
        assert a / 2 == Scale(q, k - 1);
      }
      if LowBitsClear(a, k) {
        var q: nat :| a / 2 == Scale(q, k - 1);
        assert a == Scale(q, k);
      }
    }
  }

  lemma HalfBits(a: nat, k: nat)
    requires LowBitsClear(a, k)
    ensures LowBitsClear(a, k + 1) ==> LowBitsClear(a + Pow2(k), k) && !LowBitsClear(a + Pow2(k), k + 1)
    ensures !LowBitsClear(a, k + 1) ==>
              a >= Pow2(k) && LowBitsClear(a - Pow2(k), k + 1) && LowBitsClear(a - Pow2(k), k)
  {
    if k == 0 {
      assert LowBitsClear(a, k + 1) <==> a % 2 == 0 by { assert LowBitsClear(a / 2, k); }
    } else {
      HalfBits(a / 2, k - 1);
      assert (a + Pow2(k)) / 2 == a / 2 + Pow2(k - 1);
      assert (a - Pow2(k)) / 2 == a / 2 - Pow2(k - 1);
    }
  }

  lemma {:induction false} NestedBits(a: nat, j: nat, b: nat, k: nat)
    requires j <= k && LowBitsClear(a, j) && LowBitsClear(b, k)
    requires a < b + Pow2(k) && b < a + Pow2(j)
    ensures b <= a && a + Pow2(j) <= b + Pow2(k)
    ensures j == k ==> a == b
    decreases j
  {
    if j > 0 { NestedBits(a / 2, j - 1, b / 2, k - 1); }
  }

  lemma XorZero(a: nat)
    ensures Xor(a, 0) == a
  {
  }

  lemma {:induction false} XorBits(a: nat, k: nat)
    requires LowBitsClear(a, k)
    ensures Xor(a, Pow2(k)) == if LowBitsClear(a, k + 1) then a + Pow2(k) else a - Pow2(k)
    decreases k
  {
    if k == 0 {
      XorZero(a / 2);
      assert LowBitsClear(a, 1) <==> a % 2 == 0;
    } else {
      XorBits(a / 2, k - 1);
      assert Pow2(k) / 2 == Pow2(k - 1);
    }
  }

  // ----- facts about aligned intervals

  lemma HalfFacts(a: nat, k: nat)
    requires Aligned(a, k)
    ensures Aligned(a, k + 1) ==> Aligned(a + Pow2(k), k) && !Aligned(a + Pow2(k), k + 1)
    ensures !Aligned(a, k + 1) ==> a >= Pow2(k) && Aligned(a - Pow2(k), k + 1) && Aligned(a - Pow2(k), k)
  {
    AlignedBits(a, k);
    AlignedBits(a, k + 1);
    HalfBits(a, k);
    AlignedBits(a + Pow2(k), k);
    AlignedBits(a + Pow2(k), k + 1);
    if a >= Pow2(k) {
      AlignedBits(a - Pow2(k), k);
      AlignedBits(a - Pow2(k), k + 1);
    }
  }

  lemma BuddyInvolution(a: nat, k: nat)
    requires Aligned(a, k)
    ensures Buddy(Buddy(a, k), k) == a
  {
  }

  lemma BuddyWithin(a: nat, k: nat)
    requires Aligned(a, k)
    ensures Parent(a, k) <= Buddy(a, k) && Buddy(a, k) + Pow2(k) <= Parent(a, k) + Pow2(k + 1)
  {
    assert Pow2(k + 1) == 2 * Pow2(k);
  }

  /** XOR with 2^k sends an aligned interval to its buddy. */
  lemma XorIsBuddy(a: nat, k: nat)
    requires Aligned(a, k)
    ensures Xor(a, Pow2(k)) == Buddy(a, k)
  {
    AlignedBits(a, k);
    AlignedBits(a, k + 1);
    XorBits(a, k);
  }

  /** Two aligned intervals that meet are nested, the smaller inside the larger. */
  lemma Nested(a: nat, j: nat, b: nat, k: nat)
    requires j <= k && Aligned(a, j) && Aligned(b, k)
    requires a < b + Pow2(k) && b < a + Pow2(j)
    ensures b <= a && a + Pow2(j) <= b + Pow2(k)
    ensures j == k ==> a == b
  {
    AlignedBits(a, j);
    AlignedBits(b, k);
    NestedBits(a, j, b, k);
  }

  lemma {:induction false} ScaleUp(q: nat, j: nat, k: nat)
    requires j <= k
    ensures Scale(q, k) == Scale(Scale(q, k - j), j)
    decreases j
  {
    if j > 0 { ScaleUp(q, j - 1, k - 1); }
  }

  lemma ZeroAligned(k: nat)
    ensures Aligned(0, k)
  {
    ScaleAdd(0, 0, k);
  }

  lemma AlignedDown(a: nat, j: nat, k: nat)
    requires j <= k && Aligned(a, k)
    ensures Aligned(a, j)
  {
    var q: nat :| a == Scale(q, k);
    ScaleUp(q, j, k);
  }

  lemma {:induction false} ScaleAdd(p: nat, q: nat, k: nat)
    ensures Scale(p + q, k) == Scale(p, k) + Scale(q, k)
    decreases k
  {
    if k > 0 { ScaleAdd(p, q, k - 1); }
  }

  lemma AlignedSum(a: nat, b: nat, k: nat)
    requires Aligned(a, k)
    ensures Aligned(a + b, k) <==> Aligned(b, k)
  {
    var p: nat :| a == Scale(p, k);
    if q: nat :| b == Scale(q, k) {
      ScaleAdd(p, q, k);
    }
    if q: nat :| a + b == Scale(q, k) {
      if q < p { ScaleAdd(q, p - q, k); ScalePositive(p - q, k); }
      ScaleAdd(p, q - p, k);
    }
  }

  lemma ScalePositive(q: nat, k: nat)
    requires q > 0
    ensures Scale(q, k) > 0
  {
  }

  lemma Pow2Values()
    ensures Pow2(0) == 1 && Pow2(1) == 2 && Pow2(2) == 4 && Pow2(3) == 8
    ensures Pow2(7) == 128 && Pow2(10) == 1024 && Pow2(11) == 2048 && Pow2(15) == 32768
  {
    assert Pow2(3) == 8; assert Pow2(5) == 32; assert Pow2(7) == 128; assert Pow2(9) == 512;
    assert Pow2(11) == 2048; assert Pow2(13) == 8192;
  }

  lemma Scale7(q: nat)
    ensures Scale(q, 7) == 128 * q
  {
    assert Scale(q, 1) == 2 * q;
    assert Scale(q, 3) == 8 * q;
    assert Scale(q, 5) == 32 * q;
  }

  /** The XOR of malloc_3.cpp works on byte addresses. Because the arena starts at a multiple of its own
      size, that XOR acts on 128-byte unit offsets from the arena base exactly as `Buddy` does. */
  lemma XorOnByteAddresses(base: nat, a: nat, k: nat)
    requires Aligned(a, k) && k <= 10
    requires base % (32 * 128 * 1024) == 0
    ensures Xor(base + 128 * a, Pow2(k) * 128) == base + 128 * Buddy(a, k)
  {
    var q := base / (32 * 128 * 1024);
    assert base == 4194304 * q;
    XorOffset(q, a, k);
  }

  lemma XorOffset(q: nat, a: nat, k: nat)
    requires Aligned(a, k) && k <= 10
    ensures Xor(128 * (32768 * q + a), Pow2(k) * 128) == 128 * (32768 * q + Buddy(a, k))
  {
    OffsetAligned(q, a, k);
    OffsetAligned(q, a, k + 1);
    Pow2Times128(k);
    XorIsBuddy(128 * (32768 * q + a), k + 7);
  }

  lemma OffsetAligned(q: nat, a: nat, k: nat)
    requires k <= 15
    ensures Aligned(128 * (32768 * q + a), k + 7) <==> Aligned(a, k)
  {
    BaseAligned(q);
    AlignedDown(32768 * q, k, 15);
    AlignedSum(32768 * q, a, k);
    ShiftAligned(32768 * q + a, k);
  }

  lemma BaseAligned(q: nat)
    ensures Aligned(32768 * q, 15)
  {
    Scale7(q);
    assert Scale(q, 9) == 512 * q;
    assert Scale(q, 11) == 2048 * q;
    assert Scale(q, 13) == 8192 * q;
    assert Scale(q, 15) == 32768 * q;
  }

  lemma RootAligned(q: nat)
    ensures Aligned(1024 * q, 10)
  {
    Scale7(q);
    assert Scale(q, 9) == 512 * q;
    assert Scale(q, 10) == 1024 * q;
  }

  lemma ShiftAligned(u: nat, k: nat)
    ensures Aligned(128 * u, k + 7) <==> Aligned(u, k)
  {
    var n := k + 7;
    if q: nat :| 128 * u == Scale(q, n) {
      ScaleUp(q, 7, k + 7);
      Scale7(Scale(q, k));
    }
    if q: nat :| u == Scale(q, k) {
      ScaleUp(q, 7, k + 7);
      Scale7(Scale(q, k));
    }
  }

  lemma Pow2Times128(k: nat)
    ensures Pow2(k + 7) == Pow2(k) * 128
  {
    assert Pow2(k + 2) == 4 * Pow2(k);
    assert Pow2(k + 4) == 16 * Pow2(k);
    assert Pow2(k + 6) == 64 * Pow2(k);
  }
}
