/**
 What one call of the mapping code does to the forest, to the live blocks of the allocator and to the 2 MiB slots,
 and how such calls compose.
 */
module VmmSteps {
  import opened Words
  import opened PageTables
  import opened Mapping
  import opened Rounding
  import Zones
  import ZoneTheorems
  import Bootmem
  import E820Types

  // Addresses below are in bytes: 0x1000 is a page, 0x20_0000 a large page.

  /** Writable and user, as every intermediate entry is made. */
  const TABLE_BITS: nat := 6

  /** Every table fills a live block of one page of its own, or lies outside the managed pages. */
  ghost predicate TablesApart(tables: Tables, z: Zones.Zone) {
    forall t :: t in tables ==> t % 0x1000 == 0 && (Zones.Live(z, t / 0x1000, 0) || !Zones.Covered(z, t / 0x1000))
  }

  /** The allocator's blocks, free and live, cover exactly the pages `managed`. */
  ghost predicate Manages(z: Zones.Zone, managed: iset<nat>) {
    forall i: nat :: Zones.Covered(z, i) <==> i in managed
  }

  /** No table lies in memory the boot allocator has still to come to. */
  ghost predicate Ahead(tables: Tables, t: seq<E820Types.Entry>, from: nat) {
    forall x :: x in tables ==> x % 0x1000 == 0 && !Bootmem.PageFrom(t, from, x)
  }

  /** Tables are apart from what their source has still to give. */
  ghost predicate TablesClear(tables: Tables, ready: bool, z: Zones.Zone, t: seq<E820Types.Entry>, from: nat) {
    if ready then TablesApart(tables, z) else Ahead(tables, t, from)
  }

  lemma {:induction false} ClearKeys(tables: Tables, tables': Tables, ready: bool, z: Zones.Zone,
                                     t: seq<E820Types.Entry>, from: nat)
    requires TablesClear(tables, ready, z, t, from) && tables'.Keys == tables.Keys
    ensures TablesClear(tables', ready, z, t, from)
  {
  }

  lemma {:induction false} AheadStill(tables: Tables, t: seq<E820Types.Entry>, from: nat, from': nat)
    requires Ahead(tables, t, from) && from <= from'
    ensures Ahead(tables, t, from')
  {
  }

  lemma {:induction false} AheadMore(tables: Tables, tables': Tables, t: seq<E820Types.Entry>, from: nat, page: nat)
    requires Ahead(tables, t, from) && page % 0x1000 == 0 && page < from && tables'.Keys == tables.Keys + {page}
    ensures Ahead(tables', t, from)
  {
  }

  /** The pages at which the stretches that were handed out start. */
  ghost function Starts(given: seq<Bootmem.Range>): map<nat, nat> {
    if given == [] then map[] else Starts(given[..|given| - 1])[given[|given| - 1].start / 0x1000 := 0]
  }

  lemma {:induction false} StartsMore(given: seq<Bootmem.Range>, r: Bootmem.Range)
    ensures Starts(given + [r]) == Starts(given)[r.start / 0x1000 := 0]
  {
    assert (given + [r])[..|given|] == given;
  }

  lemma {:induction false} StartsAre(given: seq<Bootmem.Range>, q: nat)
    ensures q in Starts(given) <==> exists i :: 0 <= i < |given| && given[i].start / 0x1000 == q
    decreases |given|
  {
    if given != [] {
      var init := given[..|given| - 1];
      StartsAre(init, q);
      assert forall i :: 0 <= i < |init| ==> init[i] == given[i];
    }
  }

  /** A page just handed out is none of those handed out before. */
  lemma {:induction false} PoolFresh(t: seq<E820Types.Entry>, lo: nat, from: nat, given: seq<Bootmem.Range>, page: nat)
    requires Bootmem.Handed(t, given, lo, from) && from <= page && page % 0x1000 == 0
    ensures page / 0x1000 !in Starts(given) && page / 0x1000 * 0x1000 == page
  {
    StartsAre(given, page / 0x1000);
    forall i | 0 <= i < |given| ensures given[i].start / 0x1000 != page / 0x1000 {
      assert given[i].size > 0 && given[i].End() <= from;
    }
  }

  /** The live blocks grew by exactly one page for each table that was added. */
  ghost predicate GrewByTables(live: map<nat, nat>, live': map<nat, nat>, tables: Tables, tables': Tables) {
    && tables.Keys <= tables'.Keys
    && (forall p :: p in live' <==> p in live || (p * 0x1000 in tables' && p * 0x1000 !in tables))
    && (forall p :: p in live' ==> live'[p] == if p in live then live[p] else 0)
    && (forall t :: t in tables' && t !in tables ==> t % 0x1000 == 0 && t / 0x1000 !in live)
  }

  lemma {:induction false} GrewNot(live: map<nat, nat>, tables: Tables)
    ensures GrewByTables(live, live, tables, tables)
  {
  }

  lemma {:induction false} GrewTrans(a: map<nat, nat>, b: map<nat, nat>, c: map<nat, nat>, s: Tables, t: Tables,
                                     u: Tables)
    requires GrewByTables(a, b, s, t) && GrewByTables(b, c, t, u)
    ensures GrewByTables(a, c, s, u)
  {
    forall x | x in u && x !in s ensures x % 0x1000 == 0 && x / 0x1000 !in a {
      if x !in t { assert x / 0x1000 !in b; }
    }
  }

  /** A page handed out by the allocator was free, so it holds no table. */
  lemma {:induction false} AllocIsFresh(z: Zones.Zone, n: nat, tables: Tables)
    requires Zones.Ok(z, n) && TablesApart(tables, z)
    ensures var (z', r) := Zones.Alloc(z, 0);
      && (r.Null? ==> z' == z && forall i: nat :: !Zones.FreeAt(z, i))
      && (r.Pfn? ==>
           && Zones.FreeAt(z, r.pfn)
           && r.pfn * 0x1000 !in tables && r.pfn !in z.live && z'.live == z.live[r.pfn := 0] && TablesApart(tables, z'))
      && (forall i: nat :: Zones.Covered(z', i) <==> Zones.Covered(z, i))
  {
    var (z', r) := Zones.Alloc(z, 0);
    ZoneTheorems.AllocOk(z, n, 0);
    if r.Null? {
      ZoneTheorems.AllocComplete(z, n, 0);
      forall i: nat ensures !Zones.FreeAt(z, i) {
        assert ZoneTheorems.FreeRun(z, i, 0) <==> Zones.FreeAt(z, i) by {
          assert forall j: nat :: Zones.Within(j, i, 0) <==> j == i;
        }
      }
    } else {
      ZoneTheorems.AllocFreePages(z, n, 0, r.pfn);
      assert Zones.Within(r.pfn, r.pfn, 0);
      ZoneTheorems.FreeAtIffNotLive(z, n, r.pfn);
      assert r.pfn * 0x1000 / 0x1000 == r.pfn;
    }
  }

  // ----- Slots of 2 MiB

  /** Slot `slot` has none of the `n` pages from `first` on. */
  predicate Apart(slot: nat, first: nat, n: nat) {
    n == 0 || slot * 512 + 512 <= first || first + n <= slot * 512
  }

  /** Slots without a page of the range are taken exactly when they were. */
  ghost predicate SlotsKept(f: Forest, g: Forest, u: nat, first: nat, n: nat) {
    forall w: nat :: w < VIRT_END && Apart(w / 0x20_0000, first, n) ==>
      Taken(g.tables, u, 4, w) == Taken(f.tables, u, 4, w)
  }

  lemma {:induction false} TakenSlot(tables: Tables, t: nat, l: nat, v: nat, w: nat)
    requires 2 <= l <= 4 && SameSlot(v, w, 2)
    ensures Taken(tables, t, l, v) == Taken(tables, t, l, w)
    decreases l
  {
    SlotUp(v, w, 2, l);
    SlotSplits(v, w, l);
    if l > 2 && t in tables { TakenSlot(tables, tables[t][Idx(v, l)].addr, l - 1, v, w); }
  }

  /** What a small page may be put over (an unmapped page), and a page of a large one (a slot that is not taken). */
  ghost predicate Settable(tables: Tables, u: nat, q: nat, lo: nat, hi: nat) {
    if lo <= q < hi then !Taken(tables, u, 4, q * 0x1000) else Translate(tables, u, q * 0x1000).Unmapped?
  }

  /**
   Of the `n` pages from `first` on, `pages` holds exactly those that could be set; large pages are used from `lo` to
   `hi`.
   */
  ghost predicate Exactly(tables: Tables, u: nat, pages: set<nat>, first: nat, n: nat, lo: nat, hi: nat) {
    forall q: nat :: first <= q < first + n ==> (q in pages <==> Settable(tables, u, q, lo, hi))
  }

  // ----- Steps

  /** A call that is concerned with the `n` pages from `first` on, and maps exactly `pages` of them. */
  ghost predicate Partly(f: Forest, g: Forest, live: map<nat, nat>, live': map<nat, nat>, u: nat, m: Request,
                         pages: set<nat>, first: nat, n: nat) {
    && Updates(f, g, u, m, pages) && GrewByTables(live, live', f.tables, g.tables) && SlotsKept(f, g, u, first, n)
    && forall q: nat :: q in pages ==> first <= q < first + n
  }

  lemma {:induction false} PartlyStart(f: Forest, live: map<nat, nat>, u: nat, m: Request, first: nat, n: nat)
    requires Ok(f) && Root(f, u)
    ensures Partly(f, f, live, live, u, m, {}, first, n)
  {
    NoUpdate(f, u, m);
    GrewNot(live, f.tables);
  }

  lemma {:induction false} PartlyParts(f: Forest, g: Forest, live: map<nat, nat>, live': map<nat, nat>, u: nat,
                                       m: Request, pages: set<nat>, first: nat, n: nat)
    requires Partly(f, g, live, live', u, m, pages, first, n)
    ensures Updates(f, g, u, m, pages) && Ok(g) && Root(g, u) && SlotsKept(f, g, u, first, n)
    ensures GrewByTables(live, live', f.tables, g.tables)
    ensures forall q: nat :: q in pages ==> first <= q < first + n
  {
  }

  /** The call is also a call concerned with more pages. */
  lemma {:induction false} PartlyWiden(f: Forest, g: Forest, live: map<nat, nat>, live': map<nat, nat>, u: nat,
                                       m: Request, pages: set<nat>, first: nat, n: nat, first': nat, n': nat)
    requires Partly(f, g, live, live', u, m, pages, first, n) && first' <= first && first + n <= first' + n'
    ensures Partly(f, g, live, live', u, m, pages, first', n')
  {
    hide Updates, GrewByTables, Taken;
    assert forall s: nat :: Apart(s, first', n') ==> Apart(s, first, n);
  }

  /** Two calls, one after the other, make one. */
  lemma {:induction false} PartlySame(f: Forest, g: Forest, h: Forest, x: map<nat, nat>, y: map<nat, nat>,
                                      z: map<nat, nat>, u: nat, m: Request, a: set<nat>, b: set<nat>, first: nat,
                                      n: nat)
    requires Partly(f, g, x, y, u, m, a, first, n) && Partly(g, h, y, z, u, m, b, first, n)
    ensures Partly(f, h, x, z, u, m, a + b, first, n) && Root(g, u) && Root(h, u)
    ensures {} + b == b && a + {} == a
  {
    hide Updates, GrewByTables, SlotsKept, Root;
    UpdatesCompose(f, g, h, u, m, a, b);
    GrewTrans(x, y, z, f.tables, g.tables, h.tables);
    SlotsTrans(f, g, h, u, first, n);
    PartlyRoots(f, g, u, m, a);
    PartlyRoots(g, h, u, m, b);
  }

  lemma {:induction false} SlotsTrans(f: Forest, g: Forest, h: Forest, u: nat, first: nat, n: nat)
    requires SlotsKept(f, g, u, first, n) && SlotsKept(g, h, u, first, n)
    ensures SlotsKept(f, h, u, first, n)
  {
    hide Taken, Apart;
  }

  lemma {:induction false} PartlyRoots(f: Forest, g: Forest, u: nat, m: Request, a: set<nat>)
    requires Updates(f, g, u, m, a)
    ensures Root(g, u)
  {
  }

  lemma {:induction false} PartlyApart(f: Forest, g: Forest, h: Forest, x: map<nat, nat>, y: map<nat, nat>,
                                       z: map<nat, nat>, u: nat, m: Request, a: set<nat>, b: set<nat>, first: nat,
                                       n: nat, d: nat)
    requires Partly(f, g, x, y, u, m, a, first, n) && Partly(g, h, y, z, u, m, b, first + n, d)
    ensures a !! b
  {
    hide Updates, GrewByTables, SlotsKept;
  }

  /** Two calls concerned with stretches that follow each other. */
  lemma {:induction false} PartlyJoin(f: Forest, g: Forest, h: Forest, x: map<nat, nat>, y: map<nat, nat>,
                                      z: map<nat, nat>, u: nat, m: Request, a: set<nat>, b: set<nat>, first: nat,
                                      n: nat, d: nat)
    requires Partly(f, g, x, y, u, m, a, first, n) && Partly(g, h, y, z, u, m, b, first + n, d)
    ensures Partly(f, h, x, z, u, m, a + b, first, n + d) && Root(h, u) && |a + b| == |a| + |b|
  {
    hide *;
    PartlyApart(f, g, h, x, y, z, u, m, a, b, first, n, d);
    PartlyWiden(f, g, x, y, u, m, a, first, n, first, n + d);
    PartlyWiden(g, h, y, z, u, m, b, first + n, d, first, n + d);
    PartlySame(f, g, h, x, y, z, u, m, a, b, first, n + d);
  }

  /** Nothing a call is not concerned with becomes settable or ceases to be. */
  lemma {:induction false} SettableStill(f: Forest, g: Forest, live: map<nat, nat>, live': map<nat, nat>, u: nat,
                                         m: Request, pages: set<nat>, first: nat, n: nat, q: nat, lo: nat, hi: nat)
    requires Partly(f, g, live, live', u, m, pages, first, n) && first + n <= q && q * 0x1000 < VIRT_END
    requires lo <= q < hi ==> first + n <= q / 512 * 512
    ensures Settable(g.tables, u, q, lo, hi) <==> Settable(f.tables, u, q, lo, hi)
  {
    assert q * 0x1000 / 0x20_0000 == q / 512 && q * 0x1000 / 0x1000 == q;
    if lo <= q < hi {
      hide Updates, GrewByTables, Taken;
      assert Apart(q / 512, first, n);
    } else {
      assert UpdatedAt(f, g, u, m, pages, u, q * 0x1000);
    }
  }

  lemma {:induction false} ExactlyJoin(f: Forest, g: Forest, live: map<nat, nat>, live': map<nat, nat>, u: nat,
                                       m: Request, a: set<nat>, b: set<nat>, first: nat, n: nat, d: nat, lo: nat,
                                       hi: nat)
    requires Partly(f, g, live, live', u, m, a, first, n) && Exactly(f.tables, u, a, first, n, lo, hi)
    requires forall q: nat :: q in b ==> first + n <= q < first + n + d
    requires Exactly(g.tables, u, b, first + n, d, lo, hi)
    requires (first + n + d) * 0x1000 <= VIRT_END && lo % 512 == 0
    requires first + n <= lo || hi <= first + n || (first + n) % 512 == 0
    ensures Exactly(f.tables, u, a + b, first, n + d, lo, hi)
  {
    PartlyParts(f, g, live, live', u, m, a, first, n);
    hide *;
    ExactlyStill(f, g, live, live', u, m, a, b, first, n, d, lo, hi);
    ExactlyUnion(f.tables, u, a, b, first, n, d, lo, hi);
  }

  /** What could be set when a call was made could have been set before the calls that came earlier. */
  lemma {:induction false} ExactlyStill(f: Forest, g: Forest, live: map<nat, nat>, live': map<nat, nat>, u: nat,
                                        m: Request, a: set<nat>, b: set<nat>, first: nat, n: nat, d: nat, lo: nat,
                                        hi: nat)
    requires Partly(f, g, live, live', u, m, a, first, n) && Exactly(g.tables, u, b, first + n, d, lo, hi)
    requires (first + n + d) * 0x1000 <= VIRT_END && lo % 512 == 0
    requires first + n <= lo || hi <= first + n || (first + n) % 512 == 0
    ensures Exactly(f.tables, u, b, first + n, d, lo, hi)
  {
    hide Partly, Settable;
    forall q: nat | first + n <= q < first + n + d ensures q in b <==> Settable(f.tables, u, q, lo, hi) {
      PageStill(f, g, live, live', u, m, a, first, n, d, q, lo, hi);
    }
  }

  lemma {:induction false} PageStill(f: Forest, g: Forest, live: map<nat, nat>, live': map<nat, nat>, u: nat,
                                     m: Request, a: set<nat>, first: nat, n: nat, d: nat, q: nat, lo: nat, hi: nat)
    requires Partly(f, g, live, live', u, m, a, first, n) && first + n <= q < first + n + d
    requires (first + n + d) * 0x1000 <= VIRT_END && lo % 512 == 0
    requires first + n <= lo || hi <= first + n || (first + n) % 512 == 0
    ensures Settable(g.tables, u, q, lo, hi) <==> Settable(f.tables, u, q, lo, hi)
  {
    hide Partly, Settable;
    if lo <= q < hi { SlotFloor(q, lo, first + n); }
    SettableStill(f, g, live, live', u, m, a, first, n, q, lo, hi);
  }

  lemma {:induction false} ExactlyUnion(tables: Tables, u: nat, a: set<nat>, b: set<nat>, first: nat, n: nat, d: nat,
                                        lo: nat, hi: nat)
    requires Exactly(tables, u, a, first, n, lo, hi) && Exactly(tables, u, b, first + n, d, lo, hi)
    requires forall q: nat :: q in a ==> first <= q < first + n
    requires forall q: nat :: q in b ==> first + n <= q < first + n + d
    ensures Exactly(tables, u, a + b, first, n + d, lo, hi)
  {
    hide Settable;
  }

  lemma {:induction false} SlotFloor(q: nat, lo: nat, a: nat)
    requires lo % 512 == 0 && lo <= q && a <= q && (a <= lo || a % 512 == 0)
    ensures a <= q / 512 * 512
  {
  }

  lemma {:induction false} ExactlyOne(tables: Tables, u: nat, added: set<nat>, q: nat, lo: nat, hi: nat)
    requires !(lo <= q < hi) && added == if Translate(tables, u, q * 0x1000).Unmapped? then PageSet(q, 1) else {}
    ensures Exactly(tables, u, added, q, 1, lo, hi)
  {
  }

  lemma {:induction false} ExactlyLarge(tables: Tables, u: nat, added: set<nat>, q: nat, lo: nat, hi: nat)
    requires q % 512 == 0 && lo <= q && q + 512 <= hi
    requires added == if Taken(tables, u, 4, q * 0x1000) then {} else PageSet(q, 512)
    ensures Exactly(tables, u, added, q, 512, lo, hi)
  {
    hide Taken;
    forall p: nat | q <= p < q + 512 ensures p in added <==> Settable(tables, u, p, lo, hi) {
      assert p * 0x1000 / 0x20_0000 == q * 0x1000 / 0x20_0000;
      TakenSlot(tables, u, 4, p * 0x1000, q * 0x1000);
    }
  }

  /** Nothing was mapped, so addresses translate as before. */
  lemma {:induction false} NothingMapped(f: Forest, g: Forest, live: map<nat, nat>, live': map<nat, nat>, u: nat,
                                         m: Request, first: nat, n: nat, w: nat)
    requires Partly(f, g, live, live', u, m, {}, first, n) && w < VIRT_END
    ensures Translate(g.tables, u, w) == Translate(f.tables, u, w)
    ensures n == 0 ==> Taken(g.tables, u, 4, w) == Taken(f.tables, u, 4, w)
  {
    hide Taken, GrewByTables;
    assert UpdatedAt(f, g, u, m, {}, u, w);
    assert n == 0 ==> Apart(w / 0x20_0000, first, n);
  }

  // ----- Ranges

  /** The range lies in the address space and in the given top-level slots. */
  ghost predicate CoversRange(tops: Tops, virt: nat, size: nat) {
    virt + size < VIRT_END && (size > 0 ==> tops.lo <= virt / Span(4) && (virt + size - 1) / Span(4) <= tops.hi)
  }

  lemma {:induction false} InRange(m: Request, virt: nat, size: nat, i: nat)
    requires CoversRange(m.tops, virt, size) && i < size
    ensures virt + i < VIRT_END && m.tops.Has(Idx(virt + i, 4)) && m.Target(virt + i) == (m.Target(virt) + i) % WORD
  {
    TargetStep(m.virt, m.phys, virt, i);
  }

  /** Pieces of a covered range are covered. */
  lemma {:induction false} PieceCovered(m: Request, virt: nat, size: nat, v: nat, n: nat)
    requires CoversRange(m.tops, virt, size) && virt <= v && v + n <= virt + size
    ensures CoversRange(m.tops, v, n) && m.Target(v) == TargetOf(virt, m.Target(virt), v)
  {
    TargetStep(m.virt, m.phys, virt, v - virt);
  }

  /**
   A piece that is empty, or aligned, in range, next in line, and of large pages just when it is between `lo` and
   `hi`.
   */
  ghost predicate PieceReady(m: Request, virt: nat, phys: nat, size: nat, large: bool, first: nat, n: nat, lo: nat,
                             hi: nat) {
    lo % 512 == 0 &&
    (size > 0 ==>
      && m.Target(virt) == phys && CoversRange(m.tops, virt, size) && virt / 0x1000 == first + n
      && virt % 0x1000 == 0 && phys % 0x1000 == 0
      && (large ==> virt % 0x20_0000 == 0 && phys % 0x20_0000 == 0 && size % 0x20_0000 == 0 && (first + n) % 512 == 0)
      && (large ==> lo <= first + n && first + n + size / 0x1000 <= hi)
      && (!large ==> first + n + size / 0x1000 <= lo || hi <= first + n))
  }

  /** The pieces `c` of `size` bytes from `virt` on are ready to be set one after the other. */
  ghost predicate AllReady(m: Request, virt: nat, phys: nat, size: nat, c: Pieces, lo: nat, hi: nat) {
    var first, n1, n2 := virt / 0x1000, c.pre / 0x1000, c.pre / 0x1000 + c.largeSize / 0x1000;
    && PieceReady(m, virt, phys, c.pre, false, first, 0, lo, hi)
    && PieceReady(m, c.largeVirt, c.largePhys, c.largeSize, true, first, n1, lo, hi)
    && PieceReady(m, c.posVirt, c.posPhys, c.pos, false, first, n2, lo, hi)
    && n2 + c.pos / 0x1000 == size / 0x1000 && c.pre + c.largeSize + c.pos == size
    && c.pre % 0x1000 == 0 && c.largeSize % 0x1000 == 0 && c.pos % 0x1000 == 0
  }

  lemma {:induction false} PiecesReady(m: Request, virt: nat, phys: nat, virtEnd: nat)
    requires virt < virtEnd && virt % 0x1000 == 0 && virtEnd % 0x1000 == 0 && virt % 0x20_0000 == phys % 0x20_0000
    requires m.Target(virt) == phys && CoversRange(m.tops, virt, virtEnd - virt)
    ensures AllReady(m, virt, phys, virtEnd - virt, Cut(virt, phys, virtEnd),
                     RoundUp(virt, 0x20_0000) / 0x1000, RoundDown(virtEnd, 0x20_0000) / 0x1000)
  {
    hide Cut, CoversRange, RoundUp, RoundDown, TargetOf, Request.Target;
    var c := Cut(virt, phys, virtEnd);
    CutFits(virt, phys, virtEnd);
    PagesAdd(virt, c.pre, c.largeSize, c.pos);
    LargeIsPages(c.largeVirt);
    LargeIsPages(c.largePhys);
    SlotStart(c.largeVirt);
    PieceCovered(m, virt, virtEnd - virt, virt, c.pre);
    if c.largeSize > 0 {
      PieceCovered(m, virt, virtEnd - virt, c.largeVirt, c.largeSize);
      PieceFits(m, c.largeVirt, c.largeSize);
    }
    if c.pos > 0 { PieceCovered(m, virt, virtEnd - virt, c.posVirt, c.pos); PieceFits(m, c.posVirt, c.pos); }
  }

  lemma {:induction false} SlotStart(v: nat)
    requires v % 0x20_0000 == 0
    ensures v / 0x1000 % 512 == 0
  {
    assert v / 0x1000 == v / 0x20_0000 * 512;
  }

  lemma {:induction false} PieceFits(m: Request, virt: nat, size: nat)
    requires CoversRange(m.tops, virt, size) && virt % 0x1000 == 0 && size % 0x1000 == 0
    ensures (virt / 0x1000 + size / 0x1000) * 0x1000 <= VIRT_END && virt + size < VIRT_END
  {
  }

  /** Where turn `k` of a page-by-page pass stands. */
  lemma {:induction false} PageTurn(m: Request, virt: nat, phys: nat, size: nat, i: nat, k: nat)
    requires CoversRange(m.tops, virt, size) && i == k * 0x1000 < size
    requires virt % 0x1000 == 0 && phys % 0x1000 == 0 && size % 0x1000 == 0
    ensures virt + i < VIRT_END && m.tops.Has(Idx(virt + i, 4)) && m.Target(virt + i) == (m.Target(virt) + i) % WORD
    ensures (virt + i) % 0x1000 == 0 && (phys + i) % WORD % 0x1000 == 0
    ensures (virt + i) / 0x1000 == virt / 0x1000 + k && (virt / 0x1000 + k) * 0x1000 == virt + i
    ensures i + 0x1000 <= size && k + 1 <= size / 0x1000 && (virt / 0x1000 + k + 1) * 0x1000 <= VIRT_END
  {
    hide CoversRange, Idx, TargetOf, Request.Target;
    InRange(m, virt, size, i);
    PageNumber(virt, k);
    PieceFits(m, virt, size);
    WordResidue(phys + i);
    SumPages(virt, i);
    SumPages(phys, i);
  }

  /** Page number `n` starts a slot. */
  predicate Aligned512(n: nat) {
    n % 512 == 0
  }

  lemma {:induction false} ZeroAligned512()
    ensures Aligned512(0)
  {
  }

  /** Where turn `n / 512` of a pass in steps of 2 MiB stands. */
  lemma {:induction false} LargeTurn(m: Request, virt: nat, phys: nat, size: nat, i: nat, n: nat)
    requires CoversRange(m.tops, virt, size) && i == n * 0x1000 < size && Aligned512(n)
    requires virt % 0x20_0000 == 0 && phys % 0x20_0000 == 0 && size % 0x20_0000 == 0
    ensures virt + i < VIRT_END && m.tops.Has(Idx(virt + i, 4)) && m.Target(virt + i) == (m.Target(virt) + i) % WORD
    ensures (virt + i) % 0x20_0000 == 0 && (phys + i) % WORD % 0x20_0000 == 0
    ensures (virt + i) / 0x1000 == virt / 0x1000 + n && (virt / 0x1000 + n) * 0x1000 == virt + i
    ensures (virt / 0x1000 + n) % 512 == 0
    ensures i + 0x20_0000 <= size && n + 512 <= size / 0x1000 && (virt / 0x1000 + n + 512) * 0x1000 <= VIRT_END
    ensures Aligned512(n + 512)
  {
    hide CoversRange, Idx, TargetOf;
    InRange(m, virt, size, i);
    WordResidue(phys + i);
    LargeIsPages(virt);
    LargeIsPages(size);
    PageNumber(virt, n);
    SlotStart(virt);
    SlotSums(virt / 0x1000, n);
    LargeSteps(virt, phys, size, i, n);
    PieceFits(m, virt, size);
  }

  lemma {:induction false} SlotSums(a: nat, n: nat)
    requires a % 512 == 0 && n % 512 == 0
    ensures (a + n) % 512 == 0 && (n + 512) % 512 == 0
  {
  }

  lemma {:induction false} LargeSteps(virt: nat, phys: nat, size: nat, i: nat, n: nat)
    requires i == n * 0x1000 < size && n % 512 == 0
    requires virt % 0x20_0000 == 0 && phys % 0x20_0000 == 0 && size % 0x20_0000 == 0
    ensures (virt + i) % 0x20_0000 == 0 && (phys + i) % 0x20_0000 == 0 && i + 0x20_0000 <= size
    ensures n + 512 <= size / 0x1000
  {
    assert i == n / 512 * 0x20_0000;
    LargeRoom(i, size);
  }

  lemma {:induction false} ExactlyNone(tables: Tables, u: nat, first: nat, lo: nat, hi: nat)
    ensures Exactly(tables, u, {}, first, 0, lo, hi)
  {
  }

  lemma {:induction false} SmallSlot(v: nat)
    ensures SlotPages(v, 1) == PageSet(v / 0x1000, 1)
  {
  }

  lemma {:induction false} LargeSlot(v: nat)
    requires v % 0x20_0000 == 0
    ensures SlotPages(v, 2) == PageSet(v / 0x1000, 512)
  {
    assert v / 0x20_0000 * 512 == v / 0x1000;
  }

  // ----- The two elementary steps

  /** Writing a leaf into an empty entry on the path of `v`. */
  lemma {:induction false} LeafStep(f: Forest, live: map<nat, nat>, u: nat, v: nat, l: nat, t: nat, e: Pte, m: Request)
    requires Ok(f) && Root(f, u) && 1 <= l <= 2 && v < VIRT_END && Reach(f.tables, u, l, v) == At(t)
    requires t in f.tables && f.level[t] == l && !f.tables[t][Idx(v, l)].flags.present
    requires e.flags.present == m.present && (l == 1 || e.flags.large) && v % Span(l) == 0
    requires e.addr == m.Target(v) && e.addr % Span(l) == 0 && e.flags.other == m.other
    ensures var g := Forest(f.tables[t := f.tables[t][Idx(v, l) := e]], f.level); var n := if l == 1 then 1 else 512;
      Ok(g) && g.tables.Keys == f.tables.Keys && Partly(f, g, live, live, u, m, PageSet(v / 0x1000, n), v / 0x1000, n)
  {
    LeafedUpdates(f, u, v, l, t, e, m);
    SmallSlot(v);
    if l == 2 { LargeSlot(v); }
    var g := Leafed(f, t, Idx(v, l), e);
    LeafSlots(f, u, v, l, t, e);
    LeafGrew(live, f.tables, g.tables, t);
    hide Updates, GrewByTables, SlotsKept, PageSet, SlotPages, Reach, Ok, Root, Idx, Taken;
  }

  lemma {:induction false} LeafGrew(live: map<nat, nat>, tables: Tables, tables': Tables, t: nat)
    requires tables'.Keys == tables.Keys
    ensures GrewByTables(live, live, tables, tables')
  {
  }

  lemma {:induction false} LeafSlots(f: Forest, u: nat, v: nat, l: nat, t: nat, e: Pte)
    requires Ok(f) && Root(f, u) && 1 <= l <= 2 && v < VIRT_END && Reach(f.tables, u, l, v) == At(t) && v % Span(l) == 0
    requires t in f.tables && f.level[t] == l
    ensures SlotsKept(f, Leafed(f, t, Idx(v, l), e), u, v / 0x1000, if l == 1 then 1 else 512)
  {
    hide Ok, Root, Reach, Taken, Idx;
    var g := Leafed(f, t, Idx(v, l), e);
    var n := if l == 1 then 1 else 512;
    forall w: nat | w < VIRT_END && Apart(w / 0x20_0000, v / 0x1000, n)
      ensures Taken(g.tables, u, 4, w) == Taken(f.tables, u, 4, w)
    {
      ApartSlot(v, w, n);
      LeafedTaken(f, u, v, l, t, e, w);
    }
  }

  lemma {:induction false} ApartSlot(v: nat, w: nat, n: nat)
    requires Apart(w / 0x20_0000, v / 0x1000, n) && n > 0
    ensures !SameSlot(v, w, 2)
  {
    assert v / 0x1000 / 512 == v / 0x20_0000;
  }

  /** What an entry on the path of `v` says. */
  lemma {:induction false} EntryAt(f: Forest, u: nat, v: nat, l: nat, t: nat)
    requires Ok(f) && Root(f, u) && 1 <= l <= 4 && Reach(f.tables, u, l, v) == At(t)
    ensures t in f.tables && t in f.level && f.level[t] == l
    ensures var e := f.tables[t][Idx(v, l)];
      && (!e.flags.present ==> Translate(f.tables, u, v).Unmapped?)
      && (e.flags.present && (l == 1 || e.flags.large) ==> Translate(f.tables, u, v).Mapped?)
      && (l >= 2 && e.flags.large ==> Taken(f.tables, u, 4, v) == e.flags.present)
      && (l == 2 ==> Taken(f.tables, u, 4, v) == e.flags.present)
      && (e.flags.present && l > 1 && !e.flags.large ==> Reach(f.tables, u, l - 1, v) == At(e.addr))
  {
    ReachLevel(f.tables, f.level, u, l, v);
    WalkFromReach(f.tables, f.level, u, l, v);
    if l >= 2 { TakenFromReach(f.tables, f.level, u, l, v); }
  }

  /** Hanging the page `p`, just allocated, into the forest as an empty table. */
  lemma {:induction false} CreateStep(f: Forest, live: map<nat, nat>, live': map<nat, nat>, u: nat, v: nat, l: nat,
                                      t: nat, p: nat, m: Request)
    requires Ok(f) && Root(f, u) && 2 <= l <= 4 && v < VIRT_END && m.tops.Has(Idx(v, 4))
    requires Reach(f.tables, u, l, v) == At(t)
    requires t in f.tables && f.level[t] == l && !f.tables[t][Idx(v, l)].flags.present
    requires p * 0x1000 !in f.tables && p !in live && live' == live[p := 0]
    ensures var frame := p * 0x1000; var g := Linked(f, t, Idx(v, l), l, frame, TABLE_BITS);
      var made := f.tables[frame := ZeroTable()];
      && g == Forest(made[t := made[t][Idx(v, l) := Pte(frame, Flags(true, false, TABLE_BITS))]],
                     f.level[frame := l - 1])
      && Ok(g) && Root(g, u) && Reach(g.tables, u, l - 1, v) == At(frame) && g.tables.Keys == made.Keys
      && Partly(f, g, live, live', u, m, {}, v / 0x1000, if l == 2 then 1 else 0)
  {
    hide Ok, Updates, Root, Reach, Idx, GrewByTables, ZeroTable, SlotsKept;
    var frame := p * 0x1000;
    var g := Linked(f, t, Idx(v, l), l, frame, TABLE_BITS);
    LinkedUpdates(f, u, v, l, t, frame, TABLE_BITS, m);
    PartlyRoots(f, g, u, m, {});
    LinkedReach(f, u, v, l, t, frame, TABLE_BITS);
    LinkedOk(f, t, Idx(v, l), l, frame, TABLE_BITS);
    CreateSlots(f, u, v, l, t, frame);
    var made := f.tables[frame := ZeroTable()];
    assert g.tables == made[t := made[t][Idx(v, l) := Pte(frame, Flags(true, false, TABLE_BITS))]];
    assert g.tables.Keys == f.tables.Keys + {frame};
    CreateGrew(live, live', f.tables, g.tables, p);
  }

  lemma {:induction false} CreateSlots(f: Forest, u: nat, v: nat, l: nat, t: nat, frame: nat)
    requires Ok(f) && Root(f, u) && 2 <= l <= 4 && v < VIRT_END && Reach(f.tables, u, l, v) == At(t)
    requires t in f.tables && f.level[t] == l && !f.tables[t][Idx(v, l)].flags.present && frame !in f.tables
    ensures SlotsKept(f, Linked(f, t, Idx(v, l), l, frame, TABLE_BITS), u, v / 0x1000, if l == 2 then 1 else 0)
  {
    hide Ok, Root, Reach, Taken, Idx;
    var g := Linked(f, t, Idx(v, l), l, frame, TABLE_BITS);
    var n := if l == 2 then 1 else 0;
    forall w: nat | w < VIRT_END && Apart(w / 0x20_0000, v / 0x1000, n)
      ensures Taken(g.tables, u, 4, w) == Taken(f.tables, u, 4, w)
    {
      if l == 2 { ApartSlot(v, w, n); }
      LinkedTaken(f, u, v, l, t, frame, TABLE_BITS, w);
    }
  }

  lemma {:induction false} CreateApart(tables: Tables, tables': Tables, z: Zones.Zone, p: nat)
    requires TablesApart(tables, z) && Zones.Live(z, p, 0) && tables'.Keys == tables.Keys + {p * 0x1000}
    ensures TablesApart(tables', z)
  {
    assert p * 0x1000 / 0x1000 == p;
  }

  lemma {:induction false} CreateGrew(live: map<nat, nat>, live': map<nat, nat>, tables: Tables, tables': Tables,
                                      p: nat)
    requires p * 0x1000 !in tables && p !in live && live' == live[p := 0] && tables'.Keys == tables.Keys + {p * 0x1000}
    ensures GrewByTables(live, live', tables, tables')
  {
    assert p * 0x1000 / 0x1000 == p;
    forall q | q * 0x1000 == p * 0x1000 ensures q == p { assert q * 0x1000 / 0x1000 == q; }
  }
}
