/** Rounding to pages (4 KiB) and large pages (2 MiB), and the pieces a range of addresses is mapped in. */
module Rounding {
  import opened Words
  import opened Arith

  function DivUp(a: nat, b: nat): nat
    requires b > 0
  {
    (a + b - 1) / b
  }

  function RoundUp(a: nat, b: nat): nat
    requires b > 0
  {
    DivUp(a, b) * b
  }

  function RoundDown(a: nat, b: nat): nat
    requires b > 0
  {
    a / b * b
  }

  lemma {:induction false} ShiftResidue(a: nat, b: nat, d: nat)
    ensures a % 0x20_0000 == b % 0x20_0000 ==> (a + d) % 0x20_0000 == (b + d) % 0x20_0000
    ensures a % 0x1000 == b % 0x1000 ==> (a + d) % 0x1000 == (b + d) % 0x1000
  {
    LargeResidueSum(a, d);
    LargeResidueSum(b, d);
    SmallResidueSum(a, d);
    SmallResidueSum(b, d);
  }

  lemma {:induction false} LargeResidueSum(a: nat, d: nat)
    ensures (a + d) % 0x20_0000 == (a % 0x20_0000 + d) % 0x20_0000
  {
    assert a + d == 0x20_0000 * (a / 0x20_0000) + (a % 0x20_0000 + d);
  }

  lemma {:induction false} SmallResidueSum(a: nat, d: nat)
    ensures (a + d) % 0x1000 == (a % 0x1000 + d) % 0x1000
  {
    assert a + d == 0x1000 * (a / 0x1000) + (a % 0x1000 + d);
  }

  lemma {:induction false} SameResidue(a: nat, b: nat)
    requires a % 0x20_0000 == b % 0x20_0000
    ensures a % 0x1000 == b % 0x1000
  {
    ResidueChain(a);
    ResidueChain(b);
  }

  lemma {:induction false} ResidueChain(a: nat)
    ensures a % 0x1000 == a % 0x20_0000 % 0x1000
  {
    var q, r := a / 0x20_0000, a % 0x20_0000;
    assert a == 0x1000 * (512 * q + r / 0x1000) + r % 0x1000;
  }

  lemma {:induction false} LargeIsPages(a: nat)
    ensures a % 0x20_0000 == 0 ==> a % 0x1000 == 0
  {
    ResidueChain(a);
  }

  lemma {:induction false} DifferenceLarge(a: nat, b: nat)
    ensures a % 0x20_0000 == 0 && b % 0x20_0000 == 0 && a >= b ==> (a - b) % 0x20_0000 == 0
  {
  }

  lemma {:induction false} DifferencePages(a: nat, b: nat)
    ensures a % 0x1000 == 0 && b % 0x1000 == 0 && a >= b ==> (a - b) % 0x1000 == 0
  {
  }

  lemma {:induction false} SumPages(a: nat, b: nat)
    ensures a % 0x1000 == 0 && b % 0x1000 == 0 ==> (a + b) % 0x1000 == 0
  {
  }

  lemma {:induction false} PagesAdd(v: nat, a: nat, b: nat, c: nat)
    requires v % 0x1000 == 0 && a % 0x1000 == 0 && b % 0x1000 == 0 && c % 0x1000 == 0
    ensures (a + b + c) / 0x1000 == a / 0x1000 + b / 0x1000 + c / 0x1000
    ensures (v + a) / 0x1000 == v / 0x1000 + a / 0x1000 && (v + a + b) / 0x1000 == v / 0x1000 + a / 0x1000 + b / 0x1000
  {
  }

  lemma {:induction false} RoundUpIs(v: nat, b: nat)
    requires b == 0x1000 || b == 0x20_0000
    ensures RoundUp(v, b) == v + (if v % b == 0 then 0 else b - v % b) && RoundUp(v, b) % b == 0
  {
    if b == 0x1000 { RoundUpPage(v); } else { RoundUpLarge(v); }
    hide RoundUp;
  }

  lemma {:induction false} RoundUpPage(v: nat)
    ensures RoundUp(v, 0x1000) == v + (if v % 0x1000 == 0 then 0 else 0x1000 - v % 0x1000)
    ensures RoundUp(v, 0x1000) % 0x1000 == 0
  {
  }

  lemma {:induction false} RoundUpLarge(v: nat)
    ensures RoundUp(v, 0x20_0000) == v + (if v % 0x20_0000 == 0 then 0 else 0x20_0000 - v % 0x20_0000)
    ensures RoundUp(v, 0x20_0000) % 0x20_0000 == 0
  {
  }

  lemma {:induction false} RoundDownIs(v: nat, b: nat)
    requires b == 0x1000 || b == 0x20_0000
    ensures RoundDown(v, b) == v - v % b && RoundDown(v, b) % b == 0
  {
  }

  /** Rounding up is the least multiple not below, rounding down the greatest not above. */
  lemma {:induction false} RoundedBelow(v: nat, w: nat, b: nat, x: nat)
    requires (b == 0x1000 || b == 0x20_0000) && x % b == 0
    ensures RoundUp(v, b) <= x <==> v <= x
    ensures x <= RoundDown(w, b) <==> x <= w
  {
    RoundUpIs(v, b);
    RoundDownIs(w, b);
    hide RoundUp, RoundDown;
    if b == 0x1000 { PagesBetween(v, x); PagesBetween(x, w); } else { SlotsBetween(v, x); SlotsBetween(x, w); }
  }

  /** From an address to a multiple above it is at least the distance to the next multiple, and likewise below. */
  lemma {:induction false} PagesBetween(v: nat, x: nat)
    ensures x % 0x1000 == 0 && v <= x && v % 0x1000 > 0 ==> v + (0x1000 - v % 0x1000) <= x
    ensures v % 0x1000 == 0 && v <= x ==> v <= x - x % 0x1000
  {
  }

  lemma {:induction false} SlotsBetween(v: nat, x: nat)
    ensures x % 0x20_0000 == 0 && v <= x && v % 0x20_0000 > 0 ==> v + (0x20_0000 - v % 0x20_0000) <= x
    ensures v % 0x20_0000 == 0 && v <= x ==> v <= x - x % 0x20_0000
  {
  }

  /** Pages between the trimmed ends are the pages wholly inside the range. */
  lemma {:induction false} WholePages(virt: nat, size: nat, q: nat)
    ensures var start, end := RoundUp(virt, 0x1000), RoundDown(virt + size, 0x1000);
      start <= end ==> (start / 0x1000 <= q < start / 0x1000 + (end - start) / 0x1000 <==>
        virt <= q * 0x1000 && q * 0x1000 + 0x1000 <= virt + size)
    ensures RoundUp(virt, 0x1000) >= RoundDown(virt + size, 0x1000) ==>
      !(virt <= q * 0x1000 && q * 0x1000 + 0x1000 <= virt + size)
  {
    RoundUpIs(virt, 0x1000);
    RoundDownIs(virt + size, 0x1000);
    hide RoundUp, RoundDown;
  }

  lemma {:induction false} LargeRoom(i: nat, size: nat)
    requires i < size && i % 0x20_0000 == 0 && size % 0x20_0000 == 0
    ensures i + 0x20_0000 <= size && (i + 0x20_0000) % 0x20_0000 == 0
  {
  }

  lemma {:induction false} PageNumber(virt: nat, k: nat)
    requires virt % 0x1000 == 0
    ensures (virt + k * 0x1000) / 0x1000 == virt / 0x1000 + k && (virt / 0x1000 + k) * 0x1000 == virt + k * 0x1000
  {
  }

  /** `n` page numbers from `a` on. */
  ghost function PageSet(a: nat, n: nat): (r: set<nat>)
    ensures |r| == n && forall q: nat :: q in r <==> a <= q < a + n
  {
    if n == 0 then {} else PageSet(a, n - 1) + {a + n - 1}
  }

  // ----- Rounding in 64-bit arithmetic

  /** ROUND_UP as 64-bit words have it: the sum wraps around. */
  function RoundUpWord(a: nat, b: nat): nat
    requires b > 0
  {
    RoundDown((a + b - 1) % WORD, b)
  }

  /** It is the rounding meant, but for addresses above the last multiple, which are rounded to 0. */
  lemma {:induction false} RoundUpWordIs(a: nat, b: nat)
    requires (b == 0x1000 || b == 0x20_0000) && a < WORD
    ensures RoundUpWord(a, b) == (if a + b <= WORD then RoundUp(a, b) else 0)
    ensures RoundUp(a, b) == WORD <==> a + b > WORD
    ensures RoundUpWord(a, b) == RoundUp(a, b) <==> a + b <= WORD
  {
    hide RoundUp;
    RoundUpIs(a, b);
    if b == 0x1000 { RoundUpWordPage(a); } else { RoundUpWordLarge(a); }
  }

  lemma {:induction false} RoundUpWordPage(a: nat)
    requires a < WORD
    ensures RoundUpWord(a, 0x1000) ==
      if a + 0x1000 <= WORD then a + (if a % 0x1000 == 0 then 0 else 0x1000 - a % 0x1000) else 0
    ensures a + (if a % 0x1000 == 0 then 0 else 0x1000 - a % 0x1000) == WORD <==> a + 0x1000 > WORD
  {
  }

  lemma {:induction false} RoundUpWordLarge(a: nat)
    requires a < WORD
    ensures RoundUpWord(a, 0x20_0000) ==
      if a + 0x20_0000 <= WORD then a + (if a % 0x20_0000 == 0 then 0 else 0x20_0000 - a % 0x20_0000) else 0
    ensures a + (if a % 0x20_0000 == 0 then 0 else 0x20_0000 - a % 0x20_0000) == WORD <==> a + 0x20_0000 > WORD
  {
  }

  /** Wrapping around changes no residue. */
  lemma {:induction false} WordResidue(a: nat)
    ensures a % WORD % 0x1000 == a % 0x1000 && a % WORD % 0x20_0000 == a % 0x20_0000
  {
    WordMultiple(a, 0x1000);
    WordMultiple(a, 0x20_0000);
  }

  lemma {:induction false} WordMultiple(a: nat, b: nat)
    requires b == 0x1000 || b == 0x20_0000
    ensures a % WORD % b == a % b
  {
    var q, r, m := a / WORD, a % WORD, WORD / b;
    assert WORD == m * b;
    assert a == q * WORD + r && r == r / b * b + r % b;
    assert q * (m * b) == (q * m) * b;
    assert (q * m) * b + r / b * b == (q * m + r / b) * b;
    DivUnique(a, b, q * m + r / b, r % b);
  }

  /** Sums may be wrapped around at every step or once at the end. */
  lemma {:induction false} WordSum(a: nat, b: nat)
    ensures (a % WORD + b) % WORD == (a + b) % WORD
  {
    assert a + b == WORD * (a / WORD) + (a % WORD + b);
  }

  // ----- The pieces of a range

  /** The three pieces of an aligned range: their sizes, and where the large and the last piece start. */
  datatype Pieces = Pieces(pre: nat, largeVirt: nat, largePhys: nat, largeSize: nat, posVirt: nat, posPhys: nat,
                           pos: nat)

  /** The pieces meant: up to the first multiple of 2 MiB, from there to the last, and the rest. */
  function Cut(virt: nat, phys: nat, virtEnd: nat): Pieces {
    var largeVirt := RoundUp(virt, 0x20_0000);
    var largeVirtEnd := RoundDown(virtEnd, 0x20_0000);
    var largeSize := if largeVirtEnd > largeVirt then largeVirtEnd - largeVirt else 0;
    var prePadEnd := if largeVirt < virtEnd then largeVirt else virtEnd;
    var posVirt := largeVirt + largeSize;
    Pieces(if prePadEnd > virt then prePadEnd - virt else 0,
           largeVirt, TargetOf(virt, phys, largeVirt), largeSize,
           posVirt, TargetOf(virt, phys, posVirt), if virtEnd > posVirt then virtEnd - posVirt else 0)
  }

  /** Where address `w` goes when `virt` goes to `phys`, in 64-bit arithmetic. */
  function TargetOf(virt: int, phys: int, w: int): (t: nat)
    ensures t < WORD
  {
    (phys + (w - virt)) % WORD
  }

  /** The pieces as the code computes them, in 64-bit arithmetic. */
  function CutWord(virt: nat, phys: nat, virtEnd: nat): Pieces {
    var largeVirt := RoundUpWord(virt, 0x20_0000);
    var largePhys := RoundUpWord(phys, 0x20_0000);
    var largeVirtEnd := RoundDown(virtEnd, 0x20_0000);
    var largeSize := if largeVirtEnd > largeVirt then largeVirtEnd - largeVirt else 0;
    var prePadEnd := if largeVirt < virtEnd then largeVirt else virtEnd;
    var prePadSize := if prePadEnd > virt then prePadEnd - virt else 0;
    var posPadVirt := (largeVirt + largeSize) % WORD;
    var posPadPhys := (largePhys + largeSize) % WORD;
    var posPadSize := if virtEnd > posPadVirt then virtEnd - posPadVirt else 0;
    Pieces(prePadSize, largeVirt, largePhys, largeSize, posPadVirt, posPadPhys, posPadSize)
  }

  /**
   The code computes the pieces meant exactly when the range does not start in the last 2 MiB, past their first byte.
   */
  lemma {:induction false} CutIff(virt: nat, phys: nat, virtEnd: nat)
    requires virt < virtEnd < WORD && phys < WORD && virt % 0x20_0000 == phys % 0x20_0000
    ensures CutWord(virt, phys, virtEnd) == Cut(virt, phys, virtEnd) <==> virt + 0x20_0000 <= WORD
  {
    RoundUpWordIs(virt, 0x20_0000);
    RoundDownIs(virtEnd, 0x20_0000);
    if virt + 0x20_0000 <= WORD {
      LargeTarget(virt, phys);
      CutSame(virt, phys, virtEnd);
    } else {
      hide RoundUp, RoundDown, RoundUpWord, TargetOf;
      assert Cut(virt, phys, virtEnd).largeVirt == WORD != CutWord(virt, phys, virtEnd).largeVirt;
    }
  }

  lemma {:induction false} CutSame(virt: nat, phys: nat, virtEnd: nat)
    requires virt < virtEnd < WORD && RoundUpWord(virt, 0x20_0000) == RoundUp(virt, 0x20_0000) < WORD
    requires RoundUpWord(phys, 0x20_0000) == TargetOf(virt, phys, RoundUp(virt, 0x20_0000))
    requires RoundDown(virtEnd, 0x20_0000) < WORD
    ensures CutWord(virt, phys, virtEnd) == Cut(virt, phys, virtEnd)
  {
    hide RoundUp, RoundDown, RoundUpWord, TargetOf;
    var c := Cut(virt, phys, virtEnd);
    TargetStep(virt, phys, c.largeVirt, c.largeSize);
    assert c.posVirt % WORD == c.posVirt;
  }

  lemma {:induction false} TargetStep(virt: int, phys: int, w: int, d: nat)
    ensures TargetOf(virt, phys, w + d) == (TargetOf(virt, phys, w) + d) % WORD
  {
    var x := phys + (w - virt);
    assert x + d == WORD * (x / WORD) + (x % WORD + d);
  }

  /** Rounding both sides up to 2 MiB keeps them in step, whether or not the physical side wraps around. */
  lemma {:induction false} LargeTarget(virt: nat, phys: nat)
    requires virt + 0x20_0000 <= WORD && phys < WORD && virt % 0x20_0000 == phys % 0x20_0000
    ensures RoundUp(virt, 0x20_0000) >= virt
    ensures RoundUpWord(phys, 0x20_0000) == TargetOf(virt, phys, RoundUp(virt, 0x20_0000))
  {
    hide RoundUp, RoundUpWord;
    RoundUpIs(virt, 0x20_0000);
    RoundUpIs(phys, 0x20_0000);
    RoundUpWordIs(phys, 0x20_0000);
  }

  /** What the code computes otherwise: the large piece starts at 0 and nearly fills the address space. */
  lemma {:induction false} CutWraps(virt: nat, phys: nat, virtEnd: nat)
    requires virt < virtEnd < WORD < virt + 0x20_0000 && phys < WORD
    ensures var c := CutWord(virt, phys, virtEnd);
      c.pre == 0 && c.largeVirt == 0 && c.largeSize == c.posVirt == WORD - 0x20_0000 && c.pos == virtEnd - c.posVirt
  {
    hide RoundUp, RoundDown, RoundUpWord;
    RoundUpWordIs(virt, 0x20_0000);
    RoundDownIs(virtEnd, 0x20_0000);
    assert virtEnd - virtEnd % 0x20_0000 == WORD - 0x20_0000;
  }

  /** The pieces follow each other, cover the range, are aligned, and keep in step with the physical side. */
  ghost predicate Fits(c: Pieces, virt: nat, phys: nat, virtEnd: nat) {
    && c.pre + c.largeSize + c.pos == virtEnd - virt && virt + c.pre <= c.largeVirt == RoundUp(virt, 0x20_0000)
    && RoundDown(virtEnd, 0x20_0000) <= c.posVirt && (c.largeSize > 0 ==> RoundDown(virtEnd, 0x20_0000) == c.posVirt)
    && (c.largeSize > 0 ==> c.largeVirt == virt + c.pre)
    && (c.pos > 0 ==> c.posVirt == virt + c.pre + c.largeSize)
    && c.posVirt == c.largeVirt + c.largeSize
    && c.largePhys == TargetOf(virt, phys, c.largeVirt) && c.posPhys == TargetOf(virt, phys, c.posVirt)
    && c.pre % 0x1000 == 0 && c.pos % 0x1000 == 0 && c.posVirt % 0x1000 == 0 && phys % 0x1000 == 0
    && c.largeSize % 0x20_0000 == 0 && c.largeVirt % 0x20_0000 == 0 && c.largePhys % 0x20_0000 == 0
    && c.posPhys % 0x1000 == 0 && c.largeSize % 0x1000 == 0
  }

  lemma {:induction false} CutFits(virt: nat, phys: nat, virtEnd: nat)
    requires virt < virtEnd && virt % 0x1000 == 0 && virtEnd % 0x1000 == 0 && virt % 0x20_0000 == phys % 0x20_0000
    ensures Fits(Cut(virt, phys, virtEnd), virt, phys, virtEnd)
  {
    hide RoundUp, RoundDown;
    RoundUpIs(virt, 0x20_0000);
    RoundDownIs(virtEnd, 0x20_0000);
    var c := Cut(virt, phys, virtEnd);
    var end := RoundDown(virtEnd, 0x20_0000);
    SameResidue(virt, phys);
    LargeIsPages(c.largeVirt);
    LargeIsPages(end);
    DifferenceLarge(end, c.largeVirt);
    LargeIsPages(c.largeSize);
    DifferencePages(c.largeVirt, virt);
    DifferencePages(virtEnd, virt);
    DifferencePages(virtEnd, c.posVirt);
    SumPages(c.largeVirt, c.largeSize);
    TargetResidue(virt, phys, c.largeVirt);
    TargetResidue(virt, phys, c.posVirt);
  }

  /** Addresses and their targets have the same residues if the first ones have. */
  lemma {:induction false} TargetResidue(virt: nat, phys: nat, w: nat)
    requires virt <= w
    ensures virt % 0x20_0000 == phys % 0x20_0000 ==> TargetOf(virt, phys, w) % 0x20_0000 == w % 0x20_0000
    ensures virt % 0x1000 == phys % 0x1000 ==> TargetOf(virt, phys, w) % 0x1000 == w % 0x1000
  {
    ShiftResidue(virt, phys, w - virt);
    WordResidue(phys + (w - virt));
  }

  /** The pieces of a range moved by a multiple of 2 MiB. */
  lemma {:induction false} CutShift(base: nat, virt: nat, phys: nat, virtEnd: nat)
    requires base % 0x20_0000 == 0 && virt < virtEnd
    ensures var c := Cut(virt, phys, virtEnd);
      Cut(base + virt, phys, base + virtEnd) == c.(largeVirt := base + c.largeVirt, posVirt := base + c.posVirt)
  {
    hide RoundUp, RoundDown;
    RoundUpIs(virt, 0x20_0000);
    RoundUpIs(base + virt, 0x20_0000);
    RoundDownIs(virtEnd, 0x20_0000);
    RoundDownIs(base + virtEnd, 0x20_0000);
    LargeResidueSum(base, virt);
    LargeResidueSum(base, virtEnd);
  }
}
