/** vmm_virt_range_has_mapping: a search that skips the span of every absent entry, against a naive search. */
module VmmSearch {
  import opened Words
  import opened PageTables
  import opened Rounding
  import opened Vmm
  import opened Ranges
  import opened Arith

  /** The level at which the walk of `v` stops at an absent entry; 0 when it finds a page. */
  function Hole(tables: Tables, t: nat, l: nat, v: nat): (h: nat)
    requires 1 <= l <= 4
    ensures h <= l
    decreases l
  {
    if t !in tables then l
    else
      var e := tables[t][Idx(v, l)];
      if !e.flags.present then l
      else if l == 1 || e.flags.large then 0
      else Hole(tables, e.addr, l - 1, v)
  }

  lemma {:induction false} HoleSays(tables: Tables, t: nat, l: nat, v: nat)
    requires 1 <= l <= 4
    ensures Hole(tables, t, l, v) == 0 <==> Walk(tables, t, l, v).Mapped?
    ensures l >= 2 ==> (Hole(tables, t, l, v) >= 2 <==> !Taken(tables, t, l, v))
    decreases l
  {
    if l > 1 && t in tables { HoleSays(tables, tables[t][Idx(v, l)].addr, l - 1, v); }
  }

  /** The whole slot of an absent entry stops there. */
  lemma {:induction false} HoleSlot(tables: Tables, t: nat, l: nat, v: nat, w: nat)
    requires 1 <= l <= 4 && SameSlot(v, w, if Hole(tables, t, l, v) > 0 then Hole(tables, t, l, v) else 1)
    ensures Hole(tables, t, l, w) == Hole(tables, t, l, v)
    decreases l
  {
    var h := if Hole(tables, t, l, v) > 0 then Hole(tables, t, l, v) else 1;
    SlotUp(v, w, h, l);
    SlotSplits(v, w, l);
    if l > 1 && t in tables && IsLink(tables[t][Idx(v, l)]) {
      HoleSlot(tables, tables[t][Idx(v, l)].addr, l - 1, v, w);
    }
  }

  /** The naive search: some address of the range translates. */
  ghost predicate Naive(tables: Tables, u: nat, virt: nat, end: nat) {
    exists w: nat :: virt <= w < end && Translate(tables, u, w).Mapped?
  }

  /**
   The steps of 4 KiB from an unaligned start reach the end without looking at the last page: it holds less of the
   range than the start leaves out of its page, and no earlier page offers a mapping or a skip to an aligned address.
   */
  ghost predicate Misses(tables: Tables, u: nat, virt: nat, end: nat) {
    && virt < end && (end - 1) % 0x1000 < virt % 0x1000
    && OnlyPages(tables, u, virt / 0x1000, (end - 1) / 0x1000)
  }

  /** The walks of these pages all come to a page table, and find nothing in it. */
  ghost predicate OnlyPages(tables: Tables, u: nat, first: nat, last: nat) {
    forall q: nat :: first <= q < last ==> Hole(tables, u, 4, q * 0x1000) == 1
  }

  /** The search has got to `at`: pages before have no mapping; with a skip behind it the address is page-aligned. */
  ghost predicate Searched(tables: Tables, u: nat, virt: nat, at: nat) {
    && virt <= at
    && (forall q: nat :: virt / 0x1000 <= q < at / 0x1000 ==> Hole(tables, u, 4, q * 0x1000) > 0)
    && ((at % 0x1000 == virt % 0x1000 && OnlyPages(tables, u, virt / 0x1000, at / 0x1000)) ||
        (at % 0x1000 == 0 && exists q: nat :: virt / 0x1000 <= q < at / 0x1000 && Hole(tables, u, 4, q * 0x1000) >= 2))
  }

  lemma {:induction false} SamePage(tables: Tables, u: nat, w: nat)
    ensures Hole(tables, u, 4, w / 0x1000 * 0x1000) == Hole(tables, u, 4, w)
    ensures Translate(tables, u, w).Mapped? <==> Hole(tables, u, 4, w / 0x1000 * 0x1000) == 0
  {
    assert w / 0x1000 * 0x1000 / 0x1000 == w / 0x1000;
    PageSlot(w);
    HoleSlot(tables, u, 4, w, w / 0x1000 * 0x1000);
    HoleSays(tables, u, 4, w);
  }

  lemma {:induction false} PageSlot(w: nat)
    ensures forall l :: 1 <= l <= 4 ==> SameSlot(w, w / 0x1000 * 0x1000, l)
  {
    forall l | 1 <= l <= 4 ensures SameSlot(w, w / 0x1000 * 0x1000, l) {
      SlotUp(w, w / 0x1000 * 0x1000, 1, l);
    }
  }

  /** Where the search goes on from `at` when the walk stops at level `h`. */
  function NextAfter(at: nat, h: nat): nat
    requires 1 <= h <= 4
  {
    if h == 1 then at + 0x1000 else RoundDown(at, Span(h)) + Span(h)
  }

  lemma {:induction false} NextIs(at: nat, h: nat)
    requires 1 <= h <= 4
    ensures at < NextAfter(at, h) <= at + Span(4)
    ensures h == 1 ==> NextAfter(at, h) % 0x1000 == at % 0x1000 && NextAfter(at, h) / 0x1000 == at / 0x1000 + 1
    ensures h >= 2 ==> NextAfter(at, h) % 0x1000 == 0 && at / 0x1000 < NextAfter(at, h) / 0x1000
    ensures forall q: nat :: at / 0x1000 <= q < NextAfter(at, h) / 0x1000 ==> SameSlot(at, q * 0x1000, h)
  {
    if h == 1 {
      PageNext(at);
    } else {
      var d := Span(h) / 0x1000;
      assert d * 0x1000 == Span(h);
      SpanNext(at, d, Span(h));
      assert Span(h) <= Span(4);
      forall q: nat | at / 0x1000 <= q < NextAfter(at, h) / 0x1000 ensures SameSlot(at, q * 0x1000, h) {
        SpanSlot(at, d, Span(h), q);
      }
    }
  }

  lemma {:induction false} PageNext(at: nat)
    ensures (at + 0x1000) % 0x1000 == at % 0x1000 && (at + 0x1000) / 0x1000 == at / 0x1000 + 1
    ensures forall q: nat :: at / 0x1000 <= q < at / 0x1000 + 1 ==> SameSlot(at, q * 0x1000, 1)
  {
    forall q: nat | at / 0x1000 <= q < at / 0x1000 + 1 ensures SameSlot(at, q * 0x1000, 1) {
      assert q * 0x1000 / 0x1000 == q;
    }
  }

  lemma {:induction false} SpanNext(at: nat, d: nat, s: nat)
    requires d > 0 && s == d * 0x1000
    ensures var next := at / s * s + s;
      at < next <= at + s && next % 0x1000 == 0 && next / 0x1000 == at / s * d + d && at / 0x1000 < next / 0x1000
  {
    var k := at / s;
    assert at == k * s + at % s;
    assert k * s == (k * d) * 0x1000;
    assert (k * d + d) * 0x1000 == k * s + s;
  }

  lemma {:induction false} SpanSlot(at: nat, d: nat, s: nat, q: nat)
    requires d > 0 && s == d * 0x1000 && at / 0x1000 <= q < at / s * d + d
    ensures at / s == q * 0x1000 / s
  {
    var k := at / s;
    assert at == k * s + at % s;
    assert k * s == (k * d) * 0x1000;
    assert k * d <= at / 0x1000;
    DivUnique(q * 0x1000, s, k, q * 0x1000 - k * s);
  }

  lemma {:induction false} SearchStep(tables: Tables, u: nat, virt: nat, at: nat)
    requires Searched(tables, u, virt, at) && Hole(tables, u, 4, at) > 0
    ensures Searched(tables, u, virt, NextAfter(at, Hole(tables, u, 4, at)))
  {
    var h := Hole(tables, u, 4, at);
    var next := NextAfter(at, h);
    NextIs(at, h);
    hide NextAfter, Hole;
    forall q: nat | at / 0x1000 <= q < next / 0x1000 ensures Hole(tables, u, 4, q * 0x1000) == h {
      HoleSlot(tables, u, 4, at, q * 0x1000);
    }
    if h >= 2 { assert Hole(tables, u, 4, at / 0x1000 * 0x1000) >= 2; }
  }

  lemma {:induction false} SearchFound(tables: Tables, u: nat, virt: nat, at: nat, end: nat)
    requires Searched(tables, u, virt, at) && at < end && Hole(tables, u, 4, at) == 0
    ensures Naive(tables, u, virt, end) && !Misses(tables, u, virt, end)
  {
    SamePage(tables, u, at);
    hide Hole, Translate;
    assert Translate(tables, u, at).Mapped?;
    assert at / 0x1000 <= (end - 1) / 0x1000;
    assert at / 0x1000 == (end - 1) / 0x1000 ==> at % 0x1000 <= (end - 1) % 0x1000;
  }

  lemma {:induction false} SearchEnded(tables: Tables, u: nat, virt: nat, at: nat, end: nat)
    requires Searched(tables, u, virt, at) && end <= at
    ensures Naive(tables, u, virt, end) ==> Misses(tables, u, virt, end)
  {
    hide Hole, Translate;
    if Naive(tables, u, virt, end) {
      var w: nat :| virt <= w < end && Translate(tables, u, w).Mapped?;
      SamePage(tables, u, w);
      assert w / 0x1000 == at / 0x1000 == (end - 1) / 0x1000;
      assert (end - 1) % 0x1000 < at % 0x1000;
    }
  }

  /** One look at `at`: the level of the absent entry, or 0 for a mapping. */
  method LookAt(tables: Tables, ghost level: Levels, pml4: nat, at: nat) returns (h: nat)
    requires Layered(tables, level) && IsRoot(tables, level, pml4)
    ensures h == Hole(tables, pml4, 4, at) <= 4
  {
    var entry := tables[pml4][Idx(at, 4)];
    if !entry.flags.present { return 4; }
    var pdpt := entry.addr;
    entry := tables[pdpt][Idx(at, 3)];
    if !entry.flags.present { return 3; }
    if entry.flags.large { return 0; }
    var pd := entry.addr;
    entry := tables[pd][Idx(at, 2)];
    if !entry.flags.present { return 2; }
    if entry.flags.large { return 0; }
    var pt := entry.addr;
    entry := tables[pt][Idx(at, 1)];
    if !entry.flags.present { return 1; }
    return 0;
  }

  /**
   The range ends in an absent entry whose slot is the last of the address space, so a skip from it wraps around to 0.
   */
  predicate TopHole(tables: Tables, u: nat, end: nat) {
    end > 0 && var h := Hole(tables, u, 4, end - 1); h > 0 && (end - 1) / Span(h) == (WORD - 1) / Span(h)
  }

  /** The search of the range ends; see NeverEnds for when it does not. */
  ghost predicate SearchEnds(tables: Tables, u: nat, virt: nat, end: nat) {
    virt >= end || !TopHole(tables, u, end) || Naive(tables, u, virt, end) || Misses(tables, u, virt, end)
  }

  /**
   vmm_virt_range_has_mapping: KERN_PML4 stands for the kernel's PML4; -1 exactly for a null or misaligned pointer;
   otherwise 1 exactly when the naive search of that table succeeds, but for the one case in which the last page is
   missed. The end of the range is worked out in 64-bit arithmetic: a range that runs past 2^64 is empty.
   */
  method RangeHasMapping(tables: Tables, ghost level: Levels, kernel: nat, space: Space, virt: nat, size: nat)
    returns (code: int)
    requires Layered(tables, level) && virt < WORD && size < WORD
    requires space == KernPml4 && kernel % 0x1000 == 0 ==>
      IsRoot(tables, level, kernel) && SearchEnds(tables, kernel, virt, (virt + size) % WORD)
    requires space.Pml4? && space.addr % 0x1000 == 0 ==>
      IsRoot(tables, level, space.addr) && SearchEnds(tables, space.addr, virt, (virt + size) % WORD)
    ensures code == -1 <==> space == NullPml4 || (space == KernPml4 && kernel % 0x1000 != 0)
                            || (space.Pml4? && space.addr % 0x1000 != 0)
    ensures code == -1 || code == 0 || code == 1
    ensures space == KernPml4 && kernel % 0x1000 == 0 ==>
      var end := (virt + size) % WORD;
      code == 1 <==> Naive(tables, kernel, virt, end) && !Misses(tables, kernel, virt, end)
    ensures space.Pml4? && space.addr % 0x1000 == 0 ==>
      var end, u := (virt + size) % WORD, space.addr;
      code == 1 <==> Naive(tables, u, virt, end) && !Misses(tables, u, virt, end)
  {
    hide Naive, Misses, Layered, IsRoot, SearchEnds;
    var pml4 := kernel;
    match space {
      case KernPml4 =>
      case NullPml4 => return -1;
      case Pml4(addr) => pml4 := addr;
    }
    if pml4 % 0x1000 != 0 { return -1; }
    var found := Search(tables, level, pml4, virt, (virt + size) % WORD);
    code := if found then 1 else 0;
  }

  /** The loop of the search. */
  method Search(tables: Tables, ghost level: Levels, pml4: nat, virt: nat, end: nat) returns (found: bool)
    requires Layered(tables, level) && IsRoot(tables, level, pml4) && virt < WORD && end < WORD
    requires SearchEnds(tables, pml4, virt, end)
    ensures found <==> Naive(tables, pml4, virt, end) && !Misses(tables, pml4, virt, end)
  {
    hide Naive, Misses, Searched, Layered, IsRoot, Hole, NextAfter, SearchEnds;
    var at := virt;
    SearchStart(tables, pml4, virt);
    while at < end
      invariant Searched(tables, pml4, virt, at)
      decreases end - at
    {
      var h := LookAt(tables, level, pml4, at);
      if h == 0 {
        SearchFound(tables, pml4, virt, at, end);
        return true;
      }
      NextIs(at, h);
      NoWrap(tables, pml4, virt, at, end);
      SearchStep(tables, pml4, virt, at);
      at := NextAfter(at, h) % WORD;
    }
    SearchEnded(tables, pml4, virt, at, end);
    return false;
  }

  /** A skip that reaches the end of the address space does so from the slot of the last address of the range. */
  lemma {:induction false} SkipToTop(at: nat, end: nat, h: nat)
    requires 1 <= h <= 4 && at < end <= WORD
    ensures h >= 2 && NextAfter(at, h) >= end ==> SameSlot(at, end - 1, h)
    ensures SameSlot(at, end - 1, h) && (end - 1) / Span(h) == (WORD - 1) / Span(h) ==> WORD <= NextAfter(at, h)
    ensures NextAfter(at, h) >= WORD ==> SameSlot(at, end - 1, h) && (end - 1) / Span(h) == (WORD - 1) / Span(h)
    ensures h >= 2 && NextAfter(at, h) >= WORD ==> NextAfter(at, h) == WORD
  {
    if h == 1 { TopPages(at, end); } else { TopSlots(at, end, Span(h), WORD / Span(h)); }
  }

  lemma {:induction false} TopPages(at: nat, end: nat)
    requires at < end <= WORD
    ensures at / 0x1000 == (end - 1) / 0x1000 && (end - 1) / 0x1000 == (WORD - 1) / 0x1000 ==> WORD <= at + 0x1000
    ensures at + 0x1000 >= WORD ==> at / 0x1000 == (end - 1) / 0x1000 == (WORD - 1) / 0x1000
  {
  }

  lemma {:induction false} TopSlots(at: nat, end: nat, s: nat, n: nat)
    requires s > 0 && at < end <= WORD == n * s
    ensures var next := RoundDown(at, s) + s;
      && (next >= end ==> at / s == (end - 1) / s)
      && (at / s == (end - 1) / s && (end - 1) / s == (WORD - 1) / s ==> WORD <= next)
      && (next >= WORD ==> at / s == (end - 1) / s && (end - 1) / s == (WORD - 1) / s && next == WORD)
  {
    var k, m := at / s, (end - 1) / s;
    SlotBegin(at, s);
    SlotBegin(end - 1, s);
    LastSlot(n, s);
    MulStep(k, m, s);
    MulStep(m, k, s);
    MulStep(k, n - 1, s);
    MulStep(n - 1, k, s);
    MulStep(n - 1, m, s);
    TopFacts(at, end, k, k * s, m, m * s, n - 1, (n - 1) * s, s);
  }

  lemma {:induction false} SlotBegin(a: nat, s: nat)
    requires s > 0
    ensures a / s * s <= a < a / s * s + s
  {
    assert a == a / s * s + a % s;
  }

  lemma {:induction false} LastSlot(n: nat, s: nat)
    requires s > 0 && n * s == WORD
    ensures n >= 1 && (WORD - 1) / s == n - 1 && (n - 1) * s + s == WORD
  {
    assert (n - 1) * s == n * s - s;
    DivUnique(WORD - 1, s, n - 1, s - 1);
  }

  /** Slots `k`, `m` and `e` begin at `ks`, `ms` and `es`, in order. */
  lemma {:induction false} TopFacts(at: nat, end: nat, k: int, ks: int, m: int, ms: int, e: int, es: int, s: nat)
    requires at < end <= WORD && ks <= at < ks + s && ms <= end - 1 < ms + s && es + s == WORD
    requires (k < m ==> ks + s <= ms) && (m < k ==> ms + s <= ks) && (k < e ==> ks + s <= es)
    requires (e < k ==> es + s <= ks) && (e < m ==> es + s <= ms) && (k == m ==> ks == ms) && (k == e ==> ks == es)
    ensures ks + s >= end ==> k == m
    ensures k == m == e ==> WORD <= ks + s
    ensures ks + s >= WORD ==> k == m == e && ks + s == WORD
  {
  }

  /** A search that ends does not wrap around. */
  lemma {:induction false} NoWrap(tables: Tables, u: nat, virt: nat, at: nat, end: nat)
    requires Searched(tables, u, virt, at) && at < end < WORD && SearchEnds(tables, u, virt, end)
    requires Hole(tables, u, 4, at) > 0
    ensures NextAfter(at, Hole(tables, u, 4, at)) < WORD
  {
    var h := Hole(tables, u, 4, at);
    SkipToTop(at, end, h);
    hide NextAfter;
    if NextAfter(at, h) >= WORD {
      HoleSlot(tables, u, 4, at, end - 1);
      assert TopHole(tables, u, end);
      NothingThere(tables, u, virt, at, end, h);
      assert h >= 2 || at / 0x1000 == (end - 1) / 0x1000;
      hide Hole, Translate, Naive, Misses, Searched;
      NotMissing(tables, u, virt, at, end);
      assert false;
    }
  }

  /** With nothing found before, and the slot of `at` absent up to the end, nothing of the range translates. */
  lemma {:induction false} NothingThere(tables: Tables, u: nat, virt: nat, at: nat, end: nat, h: nat)
    requires Searched(tables, u, virt, at) && at < end && h == Hole(tables, u, 4, at) > 0 && SameSlot(at, end - 1, h)
    ensures !Naive(tables, u, virt, end)
  {
    forall w: nat | virt <= w < end ensures Translate(tables, u, w).Unmapped? {
      SamePage(tables, u, w);
      if w / 0x1000 >= at / 0x1000 {
        SlotUpPage(at, w, end - 1, h);
        HoleSlot(tables, u, 4, at, w);
      }
      hide Hole, Translate;
    }
  }

  /** An address at or after the page of `a`, and not after `b`, is in the slot both are in. */
  lemma {:induction false} SlotUpPage(a: nat, w: nat, b: nat, h: nat)
    requires 1 <= h <= 4 && a / 0x1000 <= w / 0x1000 && w <= b && SameSlot(a, b, h)
    ensures SameSlot(a, w, h)
  {
    if a <= w {
      BetweenSlots(a, w, b, h);
    } else {
      DivMonotone(w, a, 0x1000);
      SlotUp(a, w, 1, h);
    }
  }

  lemma {:induction false} BetweenSlots(a: nat, w: nat, b: nat, h: nat)
    requires 1 <= h <= 4 && a <= w <= b && SameSlot(a, b, h)
    ensures SameSlot(a, w, h)
  {
    DivMonotone(a, w, Span(h));
    DivMonotone(w, b, Span(h));
  }

  /** Having come to `at` before the end, the search does not pass over the last page. */
  lemma {:induction false} NotMissing(tables: Tables, u: nat, virt: nat, at: nat, end: nat)
    requires Searched(tables, u, virt, at) && at < end
    requires (Hole(tables, u, 4, at) >= 2 || at / 0x1000 == (end - 1) / 0x1000)
    ensures !Misses(tables, u, virt, end)
  {
    SamePage(tables, u, at);
    hide Hole, Translate;
    assert at / 0x1000 <= (end - 1) / 0x1000;
    assert at / 0x1000 == (end - 1) / 0x1000 ==> at % 0x1000 <= (end - 1) % 0x1000;
  }

  // ----- A search that does not end

  datatype Look = Hit | Out | Going(at: nat)

  /** One turn of the loop. */
  function Turn(tables: Tables, u: nat, end: nat, look: Look): Look {
    if !look.Going? then look
    else if look.at >= end then Out
    else if Hole(tables, u, 4, look.at) == 0 then Hit
    else Going(NextAfter(look.at, Hole(tables, u, 4, look.at)) % WORD)
  }

  function Turns(tables: Tables, u: nat, end: nat, virt: nat, n: nat): Look {
    if n == 0 then Going(virt) else Turn(tables, u, end, Turns(tables, u, end, virt, n - 1))
  }

  /** Where the search can be: it is not about to step over the last page. */
  ghost predicate Circling(tables: Tables, u: nat, virt: nat, end: nat, at: nat) {
    && at < end
    && (at % 0x1000 <= (end - 1) % 0x1000
        || (virt <= at && at % 0x1000 == virt % 0x1000 && OnlyPages(tables, u, virt / 0x1000, at / 0x1000)))
  }

  lemma {:induction false} CirclesOn(tables: Tables, u: nat, virt: nat, end: nat, at: nat)
    requires end < WORD && !SearchEnds(tables, u, virt, end) && Circling(tables, u, virt, end, at)
    requires Hole(tables, u, 4, at) > 0
    ensures Circling(tables, u, virt, end, NextAfter(at, Hole(tables, u, 4, at)) % WORD)
  {
    var h := Hole(tables, u, 4, at);
    var next := NextAfter(at, h);
    NextIs(at, h);
    SkipToTop(at, end, h);
    if SameSlot(at, end - 1, h) { HoleSlot(tables, u, 4, at, end - 1); }
    if h >= 2 {
      CirclesBySkip(tables, u, virt, end, at, next);
    } else {
      CirclesByPage(tables, u, virt, end, at);
    }
  }

  lemma {:induction false} CirclesBySkip(tables: Tables, u: nat, virt: nat, end: nat, at: nat, next: nat)
    requires end < WORD && TopHole(tables, u, end) && at < end && next % 0x1000 == 0
    requires next >= end ==> next == WORD
    ensures Circling(tables, u, virt, end, next % WORD)
  {
    hide Hole;
    if next < end { assert next % WORD == next; } else { assert next % WORD == 0; }
  }

  lemma {:induction false} CirclesByPage(tables: Tables, u: nat, virt: nat, end: nat, at: nat)
    requires end < WORD && !SearchEnds(tables, u, virt, end) && Circling(tables, u, virt, end, at)
    requires Hole(tables, u, 4, at) == 1
    requires at / 0x1000 == (end - 1) / 0x1000 ==> at + 0x1000 >= WORD
    ensures Circling(tables, u, virt, end, (at + 0x1000) % WORD)
  {
    SamePage(tables, u, at);
    hide Hole, Translate, TopHole;
    PageMove(at, end);
    if at + 0x1000 < WORD {
      assert (at + 0x1000) % WORD == at + 0x1000;
      assert at % 0x1000 == virt % 0x1000 && virt <= at && OnlyPages(tables, u, virt / 0x1000, at / 0x1000)
        ==> OnlyPages(tables, u, virt / 0x1000, at / 0x1000 + 1);
    } else {
      assert (at + 0x1000) % WORD == at + 0x1000 - WORD;
    }
  }

  /** A step of one page. */
  lemma {:induction false} PageMove(at: nat, end: nat)
    requires at < end < WORD
    ensures (at + 0x1000) / 0x1000 == at / 0x1000 + 1 && (at + 0x1000) % 0x1000 == at % 0x1000
    ensures at + 0x1000 >= end && at / 0x1000 != (end - 1) / 0x1000 ==>
      at / 0x1000 + 1 == (end - 1) / 0x1000 && (end - 1) % 0x1000 < at % 0x1000
    ensures at + 0x1000 >= WORD ==> at / 0x1000 == (end - 1) / 0x1000 && at % 0x1000 <= (end - 1) % 0x1000
    ensures at + 0x1000 >= WORD ==> (at + 0x1000 - WORD) % 0x1000 == at % 0x1000 && at + 0x1000 - WORD < end
  {
  }

  /**
   When no address of the range translates but the absent entry at its end is the last of the address space, the search
   wraps around and never reports that there is no mapping: it goes on for ever, or reports one from elsewhere.
   */
  lemma {:induction false} NeverEnds(tables: Tables, u: nat, virt: nat, end: nat, n: nat)
    requires end < WORD && !SearchEnds(tables, u, virt, end)
    ensures !Turns(tables, u, end, virt, n).Out?
    ensures Turns(tables, u, end, virt, n).Going? ==> Circling(tables, u, virt, end, Turns(tables, u, end, virt, n).at)
    decreases n
  {
    if n == 0 {
      hide SearchEnds;
      assert virt < end by { NotYetOver(tables, u, virt, end); }
    } else {
      NeverEnds(tables, u, virt, end, n - 1);
      var look := Turns(tables, u, end, virt, n - 1);
      hide SearchEnds, NextAfter, Hole;
      if look.Going? && Hole(tables, u, 4, look.at) > 0 { CirclesOn(tables, u, virt, end, look.at); }
    }
  }

  /** Nothing translates below the end either: the search goes on for ever. */
  lemma {:induction false} CirclesForEver(tables: Tables, u: nat, virt: nat, end: nat, n: nat)
    requires end < WORD && !SearchEnds(tables, u, virt, end) && !Naive(tables, u, 0, end)
    ensures Turns(tables, u, end, virt, n).Going?
    decreases n
  {
    if n > 0 {
      CirclesForEver(tables, u, virt, end, n - 1);
      NeverEnds(tables, u, virt, end, n - 1);
      var at := Turns(tables, u, end, virt, n - 1).at;
      HoleSays(tables, u, 4, at);
      hide SearchEnds, Hole, NextAfter;
      assert Translate(tables, u, at).Unmapped?;
    }
  }

  /** A skip that wraps around leads into the first page. */
  lemma {:induction false} WrapsLow(at: nat, end: nat, h: nat)
    requires 1 <= h <= 4 && at < end < WORD
    ensures NextAfter(at, h) >= WORD ==> NextAfter(at, h) % WORD < 0x1000
  {
    if h == 1 {
      assert at + 0x1000 >= WORD ==> (at + 0x1000) % WORD == at + 0x1000 - WORD;
    } else {
      SkipToTop(at, end, h);
      hide NextAfter;
    }
  }

  /** From anywhere the search comes to a mapping or wraps around into the first page. */
  lemma {:induction false} ComesRound(tables: Tables, u: nat, virt: nat, end: nat, n: nat, at: nat) returns (k: nat)
    requires end < WORD && !SearchEnds(tables, u, virt, end) && Turns(tables, u, end, virt, n) == Going(at)
    ensures var look := Turns(tables, u, end, virt, k); look.Hit? || (look.Going? && look.at < 0x1000)
    decreases end - at
  {
    NeverEnds(tables, u, virt, end, n);
    NeverEnds(tables, u, virt, end, n + 1);
    k := n + 1;
    var h := Hole(tables, u, 4, at);
    hide SearchEnds, Hole, Naive, OnlyPages;
    if h > 0 {
      NextIs(at, h);
      WrapsLow(at, end, h);
      hide Circling, NextAfter;
      if NextAfter(at, h) < WORD {
        SmallWord(NextAfter(at, h));
        assert Turns(tables, u, end, virt, n + 1) == Going(NextAfter(at, h));
        k := ComesRound(tables, u, virt, end, n + 1, NextAfter(at, h));
      }
    }
  }

  /** Having searched from `low` on with a mapping ahead, the search comes to one. */
  lemma {:induction false} ComesToOne(tables: Tables, u: nat, virt: nat, end: nat, n: nat, low: nat, at: nat)
    returns (k: nat)
    requires end < WORD && !SearchEnds(tables, u, virt, end) && Turns(tables, u, end, virt, n) == Going(at)
    requires Searched(tables, u, low, at) && Naive(tables, u, low, end)
    ensures Turns(tables, u, end, virt, k).Hit?
    decreases end - at
  {
    NeverEnds(tables, u, virt, end, n);
    NeverEnds(tables, u, virt, end, n + 1);
    k := n + 1;
    var h := Hole(tables, u, 4, at);
    hide SearchEnds, Hole, Naive, OnlyPages, Searched, NextAfter;
    if h > 0 {
      NextIs(at, h);
      SkipToTop(at, end, h);
      if NextAfter(at, h) >= WORD { NothingThere(tables, u, low, at, end, h); }
      hide Circling;
      SearchStep(tables, u, low, at);
      SmallWord(NextAfter(at, h));
      assert Turns(tables, u, end, virt, n + 1) == Going(NextAfter(at, h));
      k := ComesToOne(tables, u, virt, end, n + 1, low, NextAfter(at, h));
    }
  }

  lemma {:induction false} ReportsElsewhere(tables: Tables, u: nat, virt: nat, end: nat) returns (k: nat)
    requires end < WORD && !SearchEnds(tables, u, virt, end) && Naive(tables, u, 0, end)
    ensures Turns(tables, u, end, virt, k).Hit?
  {
    k := ComesRound(tables, u, virt, end, 0, virt);
    NeverEnds(tables, u, virt, end, k);
    var look := Turns(tables, u, end, virt, k);
    hide SearchEnds, OnlyPages;
    if look.Going? {
      assert look.at < end;
      FromFirstPage(tables, u, look.at, end);
      SearchStart(tables, u, look.at);
      k := ComesToOne(tables, u, virt, end, k, look.at, look.at);
    }
  }

  lemma {:induction false} FromFirstPage(tables: Tables, u: nat, low: nat, end: nat)
    requires low < 0x1000 && low < end && Naive(tables, u, 0, end)
    ensures Naive(tables, u, low, end)
  {
    hide Hole, Translate;
    var w: nat :| 0 <= w < end && Translate(tables, u, w).Mapped?;
    SamePage(tables, u, w);
    SamePage(tables, u, low);
    if w < low {
      assert w / 0x1000 == low / 0x1000 == 0;
      assert Translate(tables, u, low).Mapped?;
    }
  }

  /** Which of the two it is: for ever exactly when nothing below the end of the range translates. */
  lemma {:induction false} ForEverIff(tables: Tables, u: nat, virt: nat, end: nat)
    requires end < WORD && !SearchEnds(tables, u, virt, end)
    ensures (forall n: nat :: Turns(tables, u, end, virt, n).Going?) <==> !Naive(tables, u, 0, end)
    ensures (exists n: nat :: Turns(tables, u, end, virt, n).Hit?) <==> Naive(tables, u, 0, end)
  {
    hide SearchEnds, Naive;
    if Naive(tables, u, 0, end) {
      var k := ReportsElsewhere(tables, u, virt, end);
      assert Turns(tables, u, end, virt, k).Hit?;
    } else {
      forall n: nat ensures Turns(tables, u, end, virt, n).Going? { CirclesForEver(tables, u, virt, end, n); }
    }
  }

  /** With an empty PML4 the search of the last page but one never ends. */
  lemma {:induction false} EmptySpaceCircles() returns (tables: Tables, level: Levels, u: nat, virt: nat, end: nat)
    ensures Layered(tables, level) && IsRoot(tables, level, u) && virt < end < WORD
    ensures !SearchEnds(tables, u, virt, end) && forall n: nat :: Turns(tables, u, end, virt, n).Going?
  {
    u, virt, end := 0x1000, WORD - 0x2000, WORD - 0x1000;
    tables, level := map[u := ZeroTable()], map[u := 4];
    AbsentAtTop(tables, u, virt, end);
    assert !Naive(tables, u, 0, end);
    ForEverIff(tables, u, virt, end);
  }

  /** With a page mapped at 0x1000 the same search reports that page. */
  lemma {:induction false} FarPageReported()
    returns (tables: Tables, level: Levels, u: nat, virt: nat, end: nat, k: nat)
    ensures Layered(tables, level) && IsRoot(tables, level, u) && virt < end < WORD
    ensures !Naive(tables, u, virt, end) && Turns(tables, u, end, virt, k).Hit?
  {
    var size;
    tables, level, u, virt, size := MissedPage();
    var w: nat :| virt <= w < virt + size && Translate(tables, u, w).Mapped?;
    virt, end := WORD - 0x2000, WORD - 0x1000;
    AbsentAtTop(tables, u, virt, end);
    assert Naive(tables, u, 0, end);
    k := ReportsElsewhere(tables, u, virt, end);
  }

  lemma {:induction false} AbsentAtTop(tables: Tables, u: nat, virt: nat, end: nat)
    requires u in tables && !tables[u][511].flags.present && virt == WORD - 0x2000 && end == WORD - 0x1000
    ensures !SearchEnds(tables, u, virt, end) && !Naive(tables, u, virt, end)
  {
    AlignedMissesNothing(tables, u, virt, end);
    assert forall w: nat :: virt <= w < end ==> Idx(w, 4) == 511;
    assert Hole(tables, u, 4, end - 1) == 4;
  }

  lemma {:induction false} NotYetOver(tables: Tables, u: nat, virt: nat, end: nat)
    requires !SearchEnds(tables, u, virt, end)
    ensures virt < end
  {
  }

  lemma {:induction false} SearchStart(tables: Tables, u: nat, virt: nat)
    ensures Searched(tables, u, virt, virt)
  {
  }

  /** From a page-aligned start nothing is missed. */
  lemma {:induction false} AlignedMissesNothing(tables: Tables, u: nat, virt: nat, end: nat)
    requires virt % 0x1000 == 0
    ensures !Misses(tables, u, virt, end)
  {
  }

  /** A range of 0x900 bytes from 0x800 on whose only mapping is the second page: it is missed. */
  lemma {:induction false} MissedPage() returns (tables: Tables, level: Levels, u: nat, virt: nat, size: nat)
    ensures Layered(tables, level) && IsRoot(tables, level, u) && virt + size < WORD
    ensures Naive(tables, u, virt, virt + size) && Misses(tables, u, virt, virt + size)
    ensures virt + size < WORD - 0x1000 && u in tables && tables[u][511] == ZERO
  {
    var link := Flags(true, false, 6);
    var pt: Table := ZeroTable()[1 := Pte(0x7000, Flags(true, false, 0))];
    tables := map[0x1000 := ZeroTable()[0 := Pte(0x2000, link)], 0x2000 := ZeroTable()[0 := Pte(0x3000, link)],
                  0x3000 := ZeroTable()[0 := Pte(0x4000, link)], 0x4000 := pt];
    level := map[0x1000 := 4, 0x2000 := 3, 0x3000 := 2, 0x4000 := 1];
    u, virt, size := 0x1000, 0x800, 0x900;
    MissedWalk(tables, 0x1000, 0x2000, 0x3000, 0x4000);
  }

  lemma {:induction false} MissedWalk(tables: Tables, a: nat, b: nat, c: nat, d: nat)
    requires a in tables && b in tables && c in tables && d in tables
    requires tables[a][0] == Pte(b, Flags(true, false, 6)) && tables[b][0] == Pte(c, Flags(true, false, 6))
    requires tables[c][0] == Pte(d, Flags(true, false, 6)) && !tables[d][0].flags.present && tables[d][1].flags.present
    ensures Naive(tables, a, 0x800, 0x1100) && Misses(tables, a, 0x800, 0x1100)
  {
    assert forall v: nat, l: nat :: v < 0x2000 && 2 <= l <= 4 ==> Idx(v, l) == 0;
    assert Walk(tables, d, 1, 0x1000).Mapped?;
    assert Walk(tables, c, 2, 0x1000).Mapped?;
    assert Walk(tables, b, 3, 0x1000).Mapped?;
    assert Translate(tables, a, 0x1000).Mapped?;
    assert Hole(tables, d, 1, 0) == 1;
    assert Hole(tables, c, 2, 0) == 1;
    assert Hole(tables, b, 3, 0) == 1;
    assert Hole(tables, a, 4, 0) == 1;
  }
}
