/**
 Ranges of 64-bit addresses as vmm_map takes them: where its sums and roundings wrap around, and where they do not.
 */
module Ranges {
  import opened Arith
  import opened Words
  import opened Rounding
  import opened PageTables

  /** `size` bytes from `virt` on, to go to `phys`. */
  datatype Range = Range(virt: nat, phys: nat, size: nat)

  /** Page `q` lies wholly inside the range. */
  predicate Inside(virt: nat, size: nat, q: nat) {
    virt <= q * 0x1000 && q * 0x1000 + 0x1000 <= virt + size
  }

  /** The trimmed range is not empty, and starts in the last 2 MiB, past their first byte. */
  predicate InLastSlot(virt: nat, end: nat) {
    RoundUp(virt, 0x1000) + 0x20_0000 > WORD && RoundUp(virt, 0x1000) < RoundDown(end, 0x1000)
  }

  predicate LargeAgree(virt: nat, phys: nat) { virt % 0x20_0000 == phys % 0x20_0000 }

  predicate PagesAgree(virt: nat, phys: nat) { virt % 0x1000 == phys % 0x1000 }

  /**
   The range whose whole pages the code sets when asked for `size` bytes from `virt` on. Nothing is set if the two sides
   are not in step, or if the range reaches 2^64, since its end then wraps around. A start in the last page, past its
   first byte, is rounded to 0; so is the start of the large pages in the last 2 MiB. The code then maps from 0 on.
   */
  function Effective(virt: nat, phys: nat, size: nat): Range {
    var end := (virt + size) % WORD;
    if !PagesAgree(virt, phys) then Range(virt, phys, 0)
    else if virt + 0x1000 > WORD then Range(0, TargetOf(virt, phys, WORD), end)
    else if end < virt then Range(virt, phys, 0)
    else if LargeAgree(virt, phys) && InLastSlot(virt, end) then Range(0, TargetOf(virt, phys, WORD), end)
    else Range(virt, phys, size)
  }

  /** The range by the low 48 bits of its addresses, which are all the walk looks at. */
  function Low(r: Range): Range { r.(virt := r.virt % VIRT_END) }

  /** The range crosses no multiple of 2^48, so its addresses differ in their low 48 bits. */
  predicate InSpace(r: Range) { r.virt % VIRT_END + r.size < VIRT_END }

  /** The 64-bit arithmetic makes something else of the range than its whole pages. */
  predicate Wraps(virt: nat, phys: nat, size: nat) {
    if virt + size == WORD then virt + 0x1000 <= WORD
    else virt + 0x1000 > WORD || (LargeAgree(virt, phys) && InLastSlot(virt, virt + size))
  }

  /** The pages set are those wholly inside the range asked for if and only if nothing wraps around. */
  lemma {:induction false} AsMeantIff(virt: nat, phys: nat, size: nat)
    requires virt < WORD && size < WORD && virt + size <= WORD && PagesAgree(virt, phys)
    ensures var e := Effective(virt, phys, size);
      (forall q: nat :: Inside(e.virt, e.size, q) <==> Inside(virt, size, q)) <==> !Wraps(virt, phys, size)
  {
    var e := Effective(virt, phys, size);
    hide RoundUp, RoundDown, TargetOf, LargeAgree, PagesAgree;
    if Wraps(virt, phys, size) {
      if virt + size == WORD {
        assert WORD - 0x1000 == (WORD / 0x1000 - 1) * 0x1000;
        assert Inside(virt, size, WORD / 0x1000 - 1) && !Inside(e.virt, e.size, WORD / 0x1000 - 1);
      } else {
        RoundUpIs(virt, 0x1000);
        assert Inside(e.virt, e.size, 0) && !Inside(virt, size, 0);
      }
    } else if virt + 0x1000 > WORD {
      assert e.size == 0;
      forall q: nat ensures !Inside(virt, size, q) { LastPage(virt, q); }
    }
  }

  lemma {:induction false} LastPage(virt: nat, q: nat)
    requires virt + 0x1000 > WORD
    ensures virt <= q * 0x1000 ==> q * 0x1000 + 0x1000 > WORD
  {
  }

  /** A single page in the last 2 MiB, asked for in step with its target: the code maps nearly everything from 0 on. */
  lemma {:induction false} WrapsInLastSlot()
    ensures var virt, phys, size := 0xFFFF_FFFF_FFE0_1000, 0x1000, 0x1000;
      Wraps(virt, phys, size) && Effective(virt, phys, size) == Range(0, 0x20_0000, virt + size)
  {
    hide RoundUp, RoundDown;
    var virt, phys, size := 0xFFFF_FFFF_FFE0_1000, 0x1000, 0x1000;
    RoundUpIs(virt, 0x1000);
    RoundDownIs(virt + size, 0x1000);
  }

  /** No whole page, asked for in the last page: the code maps nearly everything from 0 on. */
  lemma {:induction false} WrapsInLastPage()
    ensures var virt, phys, size := 0xFFFF_FFFF_FFFF_F800, 0x1800, 0x100;
      Wraps(virt, phys, size) && Effective(virt, phys, size) == Range(0, 0x2000, virt + size)
  {
    hide RoundUp, RoundDown;
  }

  /** The low 48 bits of an address have its residues. */
  lemma {:induction false} LowResidue(virt: nat)
    ensures virt % VIRT_END % 0x1000 == virt % 0x1000 && virt % VIRT_END % 0x20_0000 == virt % 0x20_0000
  {
    Window(virt);
    SmallResidueSum(virt - virt % VIRT_END, virt % VIRT_END);
    LargeResidueSum(virt - virt % VIRT_END, virt % VIRT_END);
  }

  /** The effective range is in step with its target as the one asked for is. */
  lemma {:induction false} EffectiveAgrees(virt: nat, phys: nat, size: nat)
    requires virt < WORD && PagesAgree(virt, phys)
    ensures var e := Low(Effective(virt, phys, size));
      PagesAgree(e.virt, e.phys) && (LargeAgree(virt, phys) ==> LargeAgree(e.virt, e.phys))
  {
    hide TargetOf, InLastSlot;
    TargetResidue(virt, phys, WORD);
    LowResidue(virt);
  }

  // ----- Trimming to whole pages

  /** The trimming of the code, in 64-bit arithmetic: start and end, and the bytes cut off at either side. */
  datatype Trim = Trim(start: nat, end: nat, offset: nat, tail: nat)

  function TrimWord(virt: nat, size: nat): Trim {
    var start, last := RoundUpWord(virt, 0x1000), (virt + size) % WORD;
    var end := RoundDown(last, 0x1000);
    Trim(start, end, (start - virt) % WORD, last - end)
  }

  lemma {:induction false} TrimWordIs(virt: nat, size: nat)
    requires virt < WORD
    ensures var t, last := TrimWord(virt, size), (virt + size) % WORD;
      && t.start == (if virt + 0x1000 <= WORD then RoundUp(virt, 0x1000) else 0)
      && t.offset == RoundUp(virt, 0x1000) - virt
      && t.end == RoundDown(last, 0x1000) <= last < WORD && t.end + t.tail == last
      && virt <= RoundUp(virt, 0x1000) && (virt + 0x1000 > WORD ==> RoundUp(virt, 0x1000) == WORD)
  {
    hide RoundUp, RoundDown, RoundUpWord;
    RoundUpIs(virt, 0x1000);
    RoundUpWordIs(virt, 0x1000);
    RoundDownIs((virt + size) % WORD, 0x1000);
  }

  /** Rounding to pages a multiple of the page size further up. */
  lemma {:induction false} RoundShift(base: nat, v: nat)
    requires base % 0x1000 == 0
    ensures RoundUp(base + v, 0x1000) == base + RoundUp(v, 0x1000)
    ensures RoundDown(base + v, 0x1000) == base + RoundDown(v, 0x1000)
  {
    hide RoundUp, RoundDown;
    RoundUpIs(v, 0x1000);
    RoundUpIs(base + v, 0x1000);
    RoundDownIs(v, 0x1000);
    RoundDownIs(base + v, 0x1000);
    SmallResidueSum(base, v);
  }

  /** What trimming has to give for a range `e` of 48-bit addresses. */
  ghost predicate TrimsTo(t: Trim, e: Range, virt: nat, phys: nat, size: nat) {
    var start, end := RoundUp(e.virt, 0x1000), RoundDown(e.virt + e.size, 0x1000);
    if t.start >= t.end then start >= end
    else
      && start < end && t.start % VIRT_END == start && t.end - t.start == end - start && t.end < WORD
      && TargetOf(e.virt, e.phys, start) == (phys + t.offset) % WORD
      && t.offset + t.tail + (end - start) == size && (LargeAgree(virt, phys) ==> t.start + 0x20_0000 <= WORD)
  }

  lemma {:induction false} TrimFromZero(virt: nat, phys: nat, size: nat)
    requires virt < WORD < virt + 0x1000 && phys < WORD && size < WORD && PagesAgree(virt, phys)
    requires InSpace(Effective(virt, phys, size))
    ensures TrimsTo(TrimWord(virt, size), Low(Effective(virt, phys, size)), virt, phys, size)
  {
    hide RoundUp, RoundDown, TrimWord, LargeAgree, PagesAgree;
    TrimWordIs(virt, size);
    RoundUpIs(0, 0x1000);
    assert virt + size >= WORD && (virt + size) % WORD == virt + size - WORD;
  }

  lemma {:induction false} TrimMeant(virt: nat, phys: nat, size: nat)
    requires virt + 0x1000 <= WORD && virt + size < WORD && virt % VIRT_END + size < VIRT_END
    requires LargeAgree(virt, phys) && RoundUp(virt, 0x1000) < RoundDown(virt + size, 0x1000)
      ==> RoundUp(virt, 0x1000) + 0x20_0000 <= WORD
    ensures TrimsTo(TrimWord(virt, size), Low(Range(virt, phys, size)), virt, phys, size)
  {
    hide RoundUp, RoundDown, TrimWord, LargeAgree, TargetOf;
    TrimWordIs(virt, size);
    var v, base := virt % VIRT_END, virt - virt % VIRT_END;
    Window(virt);
    RoundShift(base, v);
    RoundShift(base, v + size);
    RoundUpIs(v, 0x1000);
    RoundDownIs(v + size, 0x1000);
    var start := RoundUp(v, 0x1000);
    assert (virt + size) % WORD == base + (v + size) by { SmallWord(virt + size); }
    if start < RoundDown(v + size, 0x1000) {
      WindowAt(base, start);
      assert TargetOf(v, phys, start) == (phys + (start - v)) % WORD by { TargetFrom(v, phys, start); }
    }
  }

  lemma {:induction false} TargetFrom(virt: nat, phys: nat, w: nat)
    ensures TargetOf(virt, phys, w) == (phys + (w - virt)) % WORD
  {
  }

  lemma {:induction false} SmallWord(a: nat)
    requires a < WORD
    ensures a % WORD == a
  {
  }

  /** The multiple of 2^48 an address lies above is one of the page sizes too. */
  lemma {:induction false} Window(virt: nat)
    ensures var base := virt - virt % VIRT_END;
      base >= 0 && base % VIRT_END == 0 && base % 0x20_0000 == 0 && base % 0x1000 == 0
  {
    var q := virt / VIRT_END;
    assert virt - virt % VIRT_END == q * VIRT_END;
    WindowMultiple(q, VIRT_END, 1);
    WindowMultiple(q, 0x20_0000, 0x800_0000);
    WindowMultiple(q, 0x1000, 0x10_0000_0000);
  }

  lemma {:induction false} WindowMultiple(q: nat, b: nat, m: nat)
    requires b > 0 && b * m == VIRT_END
    ensures q * VIRT_END % b == 0
  {
    assert q * (m * b) == (q * m) * b;
    DivUnique(q * VIRT_END, b, q * m, 0);
  }

  lemma {:induction false} WindowAt(base: nat, v: nat)
    requires base % VIRT_END == 0 && v < VIRT_END
    ensures (base + v) % VIRT_END == v
  {
  }

  /** The trimming of the code is that of the effective range, byte for byte. */
  lemma {:induction false} TrimIs(virt: nat, phys: nat, size: nat)
    requires virt < WORD && phys < WORD && size < WORD && PagesAgree(virt, phys) && InSpace(Effective(virt, phys, size))
    ensures TrimsTo(TrimWord(virt, size), Low(Effective(virt, phys, size)), virt, phys, size)
  {
    TrimWordIs(virt, size);
    var e, end := Effective(virt, phys, size), (virt + size) % WORD;
    if virt + 0x1000 > WORD {
      TrimFromZero(virt, phys, size);
    } else if end < virt {
      RoundUpIs(virt % VIRT_END, 0x1000);
      RoundDownIs(virt % VIRT_END, 0x1000);
      hide RoundUp, RoundDown, TrimWord, TargetOf, LargeAgree, PagesAgree;
      assert e == Range(virt, phys, 0);
    } else {
      RoundUpIs(virt, 0x1000);
      hide RoundUp, RoundDown, TrimWord, TargetOf, LargeAgree, PagesAgree, TrimsTo;
      assert virt + size < WORD && end == virt + size;
      assert e == Range(virt, phys, size);
      TrimMeant(virt, phys, size);
    }
  }
}
