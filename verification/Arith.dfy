/** Powers of two, the alignment of page frame numbers, and sizes of sets. */
module Arith {

  function Pow2(k: nat): (r: nat)
    ensures r >= 1
  {
    if k == 0 then 1 else 2 * Pow2(k - 1)
  }

  /** `i` is a multiple of `Pow2(k)`, said bit by bit; see AlignedIsMultiple. */
  predicate Aligned(i: nat, k: nat)
    decreases k
  {
    k == 0 || (i % 2 == 0 && Aligned(i / 2, k - 1))
  }

  /** The buddy of the block of order `k` at `i`: to the right when `i` is also aligned one order up. */
  function BuddyOf(i: nat, k: nat): (b: int)
  {
    if Aligned(i, k + 1) then i + Pow2(k) else i - Pow2(k)
  }

  /** The bitwise reading of alignment is divisibility by the block size. */
  lemma {:induction false} AlignedIsMultiple(i: nat, k: nat)
    ensures Aligned(i, k) <==> i % Pow2(k) == 0
  {
    if Aligned(i, k) {
      var q := AlignedQuotient(i, k);
      DivUnique(i, Pow2(k), q, 0);
    }
    if i % Pow2(k) == 0 {
      WholeQuotient(i, Pow2(k));
      MultipleAligned(i / Pow2(k), k);
    }
  }

  lemma {:induction false} WholeQuotient(i: nat, p: nat)
    requires p > 0 && i % p == 0
    ensures i == (i / p) * p
  {
  }

  lemma {:induction false} AlignedQuotient(i: nat, k: nat) returns (q: nat)
    requires Aligned(i, k)
    ensures i == q * Pow2(k)
    decreases k
  {
    if k == 0 {
      q := i;
    } else {
      q := AlignedQuotient(i / 2, k - 1);
      assert 2 * (q * Pow2(k - 1)) == q * (2 * Pow2(k - 1));
    }
  }

  lemma {:induction false} MultipleAligned(q: nat, k: nat)
    ensures Aligned(q * Pow2(k), k)
    decreases k
  {
    if k > 0 {
      var m := q * Pow2(k - 1);
      MultipleAligned(q, k - 1);
      MulDouble(q, Pow2(k - 1));
      assert q * Pow2(k) == 2 * m;
    }
  }

  lemma {:induction false} MulDouble(q: nat, p: nat)
    ensures q * (2 * p) == 2 * (q * p)
  {
  }

  lemma {:induction false} MulStep(a: int, b: int, p: nat)
    ensures a < b ==> a * p + p <= b * p
  {
    if a < b {
      assert b * p == (b - a - 1) * p + (a + 1) * p;
    }
  }

  lemma {:induction false} DivUnique(a: nat, p: nat, q: nat, r: nat)
    requires p > 0 && r < p && a == q * p + r
    ensures a / p == q && a % p == r
  {
    MulStep(a / p, q, p);
    MulStep(q, a / p, p);
    assert a == (a / p) * p + a % p;
  }

  lemma {:induction false} AlignedDown(i: nat, k: nat, l: nat)
    requires Aligned(i, k) && l <= k
    ensures Aligned(i, l)
    decreases k
  {
    if l > 0 {
      AlignedDown(i / 2, k - 1, l - 1);
    }
  }

  lemma {:induction false} AlignedZero(k: nat)
    ensures Aligned(0, k)
  {
    if k > 0 {
      AlignedZero(k - 1);
    }
  }

  /** Two multiples of the same power are at least that power apart. */
  lemma {:induction false} AlignedGap(i: nat, j: nat, k: nat)
    requires Aligned(i, k) && Aligned(j, k) && i < j
    ensures i + Pow2(k) <= j
    decreases k
  {
    if k > 0 {
      AlignedGap(i / 2, j / 2, k - 1);
    }
  }

  /** Stepping by a power of two keeps alignment, and toggles the next alignment bit. */
  lemma {:induction false} AlignedStep(i: nat, k: nat)
    requires Aligned(i, k)
    ensures Aligned(i + Pow2(k), k)
    ensures Aligned(i + Pow2(k), k + 1) <==> !Aligned(i, k + 1)
    decreases k
  {
    if k > 0 {
      AlignedStep(i / 2, k - 1);
      assert (i + Pow2(k)) / 2 == i / 2 + Pow2(k - 1);
    }
  }

  lemma {:induction false} AlignedStepBack(i: nat, k: nat)
    requires Aligned(i, k) && !Aligned(i, k + 1)
    ensures i >= Pow2(k)
    ensures Aligned(i - Pow2(k), k + 1)
    decreases k
  {
    AlignedZero(k + 1);
    AlignedZero(k);
    AlignedGap(0, i, k);
    AlignedSub(i, k);
    AlignedStep(i - Pow2(k), k);
  }

  lemma {:induction false} AlignedSub(i: nat, k: nat)
    requires Aligned(i, k) && i >= Pow2(k)
    ensures Aligned(i - Pow2(k), k)
    decreases k
  {
    if k > 0 {
      AlignedSub(i / 2, k - 1);
      assert (i - Pow2(k)) / 2 == i / 2 - Pow2(k - 1);
    }
  }

  /** Adding a larger power keeps alignment to a smaller one. */
  lemma {:induction false} AlignedAddBig(i: nat, k: nat, l: nat)
    requires Aligned(i, k) && k <= l
    ensures Aligned(i + Pow2(l), k)
    decreases k
  {
    if k > 0 {
      AlignedAddBig(i / 2, k - 1, l - 1);
      assert (i + Pow2(l)) / 2 == i / 2 + Pow2(l - 1);
    }
  }

  /** An aligned block that starts inside a larger aligned block also ends inside it. */
  lemma {:induction false} AlignedNest(i: nat, k: nat, j: nat, l: nat)
    requires Aligned(i, k) && Aligned(j, l) && k <= l
    ensures i < j ==> i + Pow2(k) <= j
    ensures i < j + Pow2(l) ==> i + Pow2(k) <= j + Pow2(l)
  {
    AlignedDown(j, l, k);
    AlignedAddBig(j, k, l);
    if i < j { AlignedGap(i, j, k); }
    if i < j + Pow2(l) { AlignedGap(i, j + Pow2(l), k); }
  }

  lemma {:induction false} Pow2Monotone(k: nat, l: nat)
    requires k <= l
    ensures Pow2(k) <= Pow2(l)
    decreases l
  {
    if k < l { Pow2Monotone(k, l - 1); }
  }

  /** Buddies are mutual, and the left one of the pair is aligned one order up. */
  lemma {:induction false} BuddyPair(i: nat, k: nat)
    requires Aligned(i, k)
    ensures BuddyOf(i, k) >= 0 && Aligned(BuddyOf(i, k), k)
    ensures BuddyOf(BuddyOf(i, k), k) == i
    ensures Aligned(i, k + 1) ==> BuddyOf(i, k) == i + Pow2(k)
    ensures !Aligned(i, k + 1) ==> BuddyOf(i, k) == i - Pow2(k) && Aligned(i - Pow2(k), k + 1)
  {
    if Aligned(i, k + 1) {
      AlignedStep(i, k);
    } else {
      AlignedStepBack(i, k);
      AlignedDown(i - Pow2(k), k + 1, k);
    }
  }

  /** Number of trailing zero bits. */
  function TrailingZeros(i: nat): nat
    requires i > 0
  {
    if i % 2 == 1 then 0 else 1 + TrailingZeros(i / 2)
  }

  /** Position of the highest set bit. */
  function HighestBit(i: nat): nat
    requires i > 0
  {
    if i == 1 then 0 else 1 + HighestBit(i / 2)
  }

  lemma {:induction false} TrailingZerosAligned(i: nat, k: nat)
    requires i > 0
    ensures Aligned(i, k) <==> k <= TrailingZeros(i)
    decreases k
  {
    if k > 0 && i % 2 == 0 {
      TrailingZerosAligned(i / 2, k - 1);
    }
  }

  lemma {:induction false} HighestBitBounds(i: nat)
    requires i > 0
    ensures Pow2(HighestBit(i)) <= i < Pow2(HighestBit(i) + 1)
  {
    if i > 1 {
      HighestBitBounds(i / 2);
    }
  }

  lemma {:induction false} DivMonotone(a: nat, b: nat, p: nat)
    requires a <= b && p > 0
    ensures a / p <= b / p
  {
    assert a == (a / p) * p + a % p && b == (b / p) * p + b % p;
    MulStep(b / p, a / p, p);
  }

  // ----- Sizes of sets

  lemma {:induction false} SubsetSize(a: set<nat>, b: set<nat>)
    requires a <= b
    ensures |a| <= |b|
  {
    assert b == a + (b - a);
  }

  lemma {:induction false} SubsetWhole(a: set<nat>, b: set<nat>)
    requires a <= b && |a| == |b|
    ensures a == b
  {
    assert b == a + (b - a);
  }
}
