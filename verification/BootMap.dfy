/** bootmem_alloc_mapped: memory from the boot allocator, mapped into the kernel's address space. */
module BootMap {
  import opened Arith
  import opened Words
  import opened Rounding
  import opened Ranges
  import opened PageTables
  import opened Mapping
  import opened VmmSteps
  import opened Vmm
  import opened VmmSearch
  import Bootmem
  import E820Types
  import BuddyMark
  import Zones
  import ZoneTheorems

  datatype Answer = Null | Address(virt: nat) | Panic

  /** The bytes of the stretches before number `j`. */
  ghost function Offset(rs: seq<Bootmem.Range>, j: nat): nat
    requires j <= |rs|
  {
    Bootmem.Sum(rs[..j])
  }

  lemma {:induction false} OffsetNext(rs: seq<Bootmem.Range>, j: nat)
    requires j < |rs|
    ensures Offset(rs, j + 1) == Offset(rs, j) + rs[j].size
  {
    assert rs[..j + 1][..j] == rs[..j];
  }

  lemma {:induction false} OffsetEnds(rs: seq<Bootmem.Range>)
    ensures Offset(rs, 0) == 0 && Offset(rs, |rs|) == Bootmem.Sum(rs)
  {
    assert rs[..|rs|] == rs;
  }

  lemma {:induction false} OffsetGrows(rs: seq<Bootmem.Range>, i: nat, j: nat)
    requires i <= j <= |rs|
    ensures Offset(rs, i) <= Offset(rs, j)
    decreases j
  {
    if i < j {
      OffsetGrows(rs, i, j - 1);
      OffsetNext(rs, j - 1);
    }
  }

  /** The range is small enough for its 48-bit addresses to be consecutive, and ends before the last 2 MiB. */
  predicate InWindow(virt: nat, size: nat) {
    virt % VIRT_END + size < VIRT_END && virt + size + 0x20_0000 <= WORD
  }

  /** Stretches of memory, in whole pages, with 64-bit addresses. */
  ghost predicate Pieced(rs: seq<Bootmem.Range>) {
    forall j :: 0 <= j < |rs| ==>
      rs[j].size > 0 && rs[j].size % 0x1000 == 0 && rs[j].start % 0x1000 == 0 && rs[j].End() <= WORD
  }

  /**
   Page `q` can be mapped as part of stretch `r`: where large pages are used for it, because its 2 MiB slot lies wholly
   in the stretch and the two sides are in step, the slot is not taken; elsewhere the page is unmapped.
   */
  ghost predicate CanMap(tables: Tables, u: nat, v: nat, r: Bootmem.Range, q: nat) {
    if LargeAgree(v, r.start) && SlotInside(v, r.size, q) then !Taken(tables, u, 4, q * 0x1000)
    else Translate(tables, u, q * 0x1000).Unmapped?
  }

  /** Byte `k` of stretch `r`, placed at `v`, was mapped there if its page could be, and only then. */
  ghost predicate Placed(before: Tables, after: Tables, u: nat, v: nat, r: Bootmem.Range, other: nat, k: nat) {
    Translate(after, u, v + k) ==
      if CanMap(before, u, v, r, (v + k) / 0x1000) then Mapped(r.start + k, other) else Translate(before, u, v + k)
  }

  /** Stretch `j` of those placed one after the other from `v` on was placed. */
  ghost predicate PlacedAt(f: Forest, g: Forest, u: nat, v: nat, rs: seq<Bootmem.Range>, j: nat, other: nat)
    requires j < |rs|
  {
    StretchPlaced(f.tables, g.tables, u, v + Offset(rs, j), rs[j], other)
  }

  ghost predicate StretchPlaced(before: Tables, after: Tables, u: nat, v: nat, r: Bootmem.Range, other: nat) {
    forall k: nat :: k < r.size ==> Placed(before, after, u, v, r, other, k)
  }

  ghost predicate PlacedUpto(f: Forest, g: Forest, u: nat, v: nat, rs: seq<Bootmem.Range>, i: nat, other: nat) {
    forall j: nat :: j < i && j < |rs| ==> PlacedAt(f, g, u, v, rs, j, other)
  }

  /** Addresses and 2 MiB slots without a byte of the range are as they were. */
  ghost predicate Beyond(f: Forest, g: Forest, u: nat, v: nat, size: nat) {
    && (forall w: nat :: w < VIRT_END && !(v <= w < v + size) ==>
        Translate(g.tables, u, w) == Translate(f.tables, u, w))
    && SlotsLeft(f, g, u, v, size)
  }

  // ----- One call of vmm_map

  /** What the call does to the translations of its own table. */
  ghost predicate Sets(g: Forest, h: Forest, u: nat, v: nat, r: Bootmem.Range, other: nat, pages: set<nat>) {
    && (forall q: nat :: q in pages ==> Inside(v, r.size, q)) && SlotsLeft(g, h, u, v, r.size)
    && forall w: nat :: w < VIRT_END ==>
         if w / 0x1000 in pages then w >= v && Translate(h.tables, u, w) == Mapped(r.start + (w - v), other)
         else Translate(h.tables, u, w) == Translate(g.tables, u, w)
  }

  lemma {:induction false} WindowIs(virt: nat, phys: nat, size: nat)
    requires InWindow(virt, size) && phys + size <= WORD && size > 0
    ensures virt < WORD && phys < WORD && size < WORD && InSpace(Effective(virt, phys, size))
    ensures virt % 0x1000 == 0 && phys % 0x1000 == 0 ==>
      Low(Effective(virt, phys, size)) == Range(virt % VIRT_END, phys, size)
    ensures LargeAgree(virt, phys) <==> LargeAgree(virt % VIRT_END, phys)
  {
    hide Effective;
    EffectiveIs(virt, phys, size);
    LowResidue(virt);
  }

  /** Away from the last 2 MiB nothing wraps around. */
  lemma {:induction false} EffectiveIs(virt: nat, phys: nat, size: nat)
    requires virt + size + 0x20_0000 <= WORD
    ensures Effective(virt, phys, size) == Range(virt, phys, if PagesAgree(virt, phys) then size else 0)
  {
    hide RoundDown, RoundUp, TargetOf, PagesAgree, LargeAgree;
    RoundUpIs(virt, 0x1000);
    SmallWord(virt + size);
  }

  lemma {:induction false} CallSets(g: Forest, h: Forest, live: map<nat, nat>, live': map<nat, nat>, u: nat, virt: nat,
                                    r: Bootmem.Range, flags: Flags, pages: set<nat>, memory: bool)
    requires MapCall(g, h, live, live', u, virt, r.start, r.size, flags, pages, memory) && flags.present
    requires InWindow(virt, r.size) && virt % 0x1000 == 0 && r.start % 0x1000 == 0 && r.size > 0 && r.End() <= WORD
    ensures Sets(g, h, u, virt % VIRT_END, r, flags.other, pages)
    ensures memory ==> MapsAll(g.tables, u, virt % VIRT_END, r.size, LargeAgree(virt % VIRT_END, r.start), pages)
    ensures Ok(h) && Root(h, u)
  {
    hide Effective, Low, MapsAll, Ok, Root, Translate, TargetOf, SlotsLeft, GrewByTables;
    WindowIs(virt, r.start, r.size);
    var v := virt % VIRT_END;
    var m := RequestFor(v, r.start, r.size, flags);
    UpdatesSays(g, h, u, m, pages);
    forall w: nat | w < VIRT_END
      ensures if w / 0x1000 in pages then w >= v && Translate(h.tables, u, w) == Mapped(r.start + (w - v), flags.other)
              else Translate(h.tables, u, w) == Translate(g.tables, u, w)
    {
      UpdatesAt(g, h, u, m, pages, w);
      if w / 0x1000 in pages {
        PageWithin(v, r.size, w);
        SmallTarget(v, r.start, w);
      }
    }
  }

  lemma {:induction false} UpdatesSays(g: Forest, h: Forest, u: nat, m: Request, pages: set<nat>)
    requires Updates(g, h, u, m, pages)
    ensures Ok(h) && Root(h, u)
  {
  }

  lemma {:induction false} UpdatesAt(g: Forest, h: Forest, u: nat, m: Request, pages: set<nat>, w: nat)
    requires Updates(g, h, u, m, pages) && m.present && w < VIRT_END
    ensures Translate(h.tables, u, w) ==
      if w / 0x1000 in pages then Mapped(m.Target(w), m.other) else Translate(g.tables, u, w)
  {
    hide Translate;
    assert UpdatedAt(g, h, u, m, pages, u, w);
  }

  lemma {:induction false} PageWithin(v: nat, size: nat, w: nat)
    requires Inside(v, size, w / 0x1000)
    ensures v <= w < v + size
  {
  }

  lemma {:induction false} SmallTarget(v: nat, phys: nat, w: nat)
    requires v <= w && phys + (w - v) < WORD
    ensures TargetOf(v, phys, w) == phys + (w - v)
  {
  }

  // ----- One stretch after the other

  lemma {:induction false} PlaceNext(f: Forest, g: Forest, h: Forest, u: nat, v: nat, rs: seq<Bootmem.Range>, i: nat,
                                     other: nat, pages: set<nat>)
    requires i < |rs| && Pieced(rs) && v % 0x1000 == 0 && v + Offset(rs, i + 1) < VIRT_END
    requires Offset(rs, i) % 0x1000 == 0
    requires PlacedUpto(f, g, u, v, rs, i, other) && Beyond(f, g, u, v, Offset(rs, i))
    requires Sets(g, h, u, v + Offset(rs, i), rs[i], other, pages)
    requires var at := v + Offset(rs, i); MapsAll(g.tables, u, at, rs[i].size, LargeAgree(at, rs[i].start), pages)
    ensures PlacedUpto(f, h, u, v, rs, i + 1, other)
  {
    hide Translate, Taken, Offset, MapsAll, SlotsLeft, Placed, Beyond, Sets;
    OffsetNext(rs, i);
    forall j: nat | j < i + 1 ensures PlacedAt(f, h, u, v, rs, j, other) {
      OffsetNext(rs, j);
      if j < i {
        OffsetGrows(rs, j + 1, i);
        assert PlacedAt(f, g, u, v, rs, j, other);
      }
      var at := v + Offset(rs, j);
      forall k: nat | k < rs[j].size ensures Placed(f.tables, h.tables, u, at, rs[j], other, k) {
        if j < i {
          assert Placed(f.tables, g.tables, u, at, rs[j], other, k);
          PlacedStays(f, g, h, u, v + Offset(rs, j), rs[j], v + Offset(rs, i), rs[i], other, pages, k);
        } else {
          PlacedHere(f, g, h, u, v, Offset(rs, i), rs[i], other, pages, k);
        }
      }
    }
  }

  /** A later call, at `next`, does not touch what was placed before. */
  lemma {:induction false} PlacedStays(f: Forest, g: Forest, h: Forest, u: nat, at: nat, r: Bootmem.Range, next: nat,
                                       s: Bootmem.Range, other: nat, pages: set<nat>, k: nat)
    requires Placed(f.tables, g.tables, u, at, r, other, k) && Sets(g, h, u, next, s, other, pages)
    requires at + k < next < VIRT_END
    ensures Placed(f.tables, h.tables, u, at, r, other, k)
  {
    hide Translate, CanMap, SlotsLeft;
    var w := at + k;
    assert w / 0x1000 !in pages;
  }

  lemma {:induction false} PlacedHere(f: Forest, g: Forest, h: Forest, u: nat, v: nat, off: nat, r: Bootmem.Range,
                                      other: nat, pages: set<nat>, k: nat)
    requires v % 0x1000 == 0 && off % 0x1000 == 0 && r.size % 0x1000 == 0 && v + off + r.size <= VIRT_END
    requires Beyond(f, g, u, v, off) && Sets(g, h, u, v + off, r, other, pages)
    requires MapsAll(g.tables, u, v + off, r.size, LargeAgree(v + off, r.start), pages) && k < r.size
    ensures Placed(f.tables, h.tables, u, v + off, r, other, k)
  {
    hide Translate, Taken, LargeAgree, SlotsLeft, Beyond, SlotInside;
    var w := v + off + k;
    WholePage(v + off, r.size, w);
    CanMapSame(f, g, u, v, off, r, w / 0x1000);
    assert w / 0x1000 in pages <==> CanMap(g.tables, u, v + off, r, w / 0x1000);
    BeyondAt(f, g, u, v, off, w);
  }

  lemma {:induction false} BeyondAt(f: Forest, g: Forest, u: nat, v: nat, off: nat, w: nat)
    requires Beyond(f, g, u, v, off) && v + off <= w < VIRT_END
    ensures Translate(g.tables, u, w) == Translate(f.tables, u, w)
  {
    hide Translate, SlotsLeft;
  }

  lemma {:induction false} WholePage(v: nat, size: nat, w: nat)
    requires v % 0x1000 == 0 && size % 0x1000 == 0 && v <= w < v + size
    ensures Inside(v, size, w / 0x1000)
  {
  }

  /** What comes before a stretch does not change what can be mapped of it. */
  lemma {:induction false} CanMapSame(f: Forest, g: Forest, u: nat, v: nat, off: nat, r: Bootmem.Range, q: nat)
    requires Beyond(f, g, u, v, off) && Inside(v + off, r.size, q) && v + off + r.size <= VIRT_END
    ensures CanMap(g.tables, u, v + off, r, q) <==> CanMap(f.tables, u, v + off, r, q)
  {
    hide Translate, Taken, LargeAgree;
    assert q * 0x1000 / 0x20_0000 == q / 512;
    BeyondAt(f, g, u, v, off, q * 0x1000);
    if SlotInside(v + off, r.size, q) { assert SlotOutside(v, off, q * 0x1000 / 0x20_0000); }
  }

  lemma {:induction false} BeyondNext(f: Forest, g: Forest, h: Forest, u: nat, v: nat, off: nat, r: Bootmem.Range,
                                      other: nat, pages: set<nat>)
    requires Beyond(f, g, u, v, off) && Sets(g, h, u, v + off, r, other, pages)
    ensures Beyond(f, h, u, v, off + r.size)
  {
    hide Translate, Taken;
    forall w: nat | w < VIRT_END && !(v <= w < v + off + r.size)
      ensures Translate(h.tables, u, w) == Translate(f.tables, u, w)
    {
      assert Inside(v + off, r.size, w / 0x1000) ==> v + off <= w < v + off + r.size;
    }
    forall w: nat | w < VIRT_END && SlotOutside(v, off + r.size, w / 0x20_0000)
      ensures Taken(h.tables, u, 4, w) == Taken(f.tables, u, 4, w)
    {
      assert SlotOutside(v, off, w / 0x20_0000) && SlotOutside(v + off, r.size, w / 0x20_0000);
    }
  }

  // ----- What the search has found out

  /** Walks look at the low 48 bits of an address. */
  lemma {:induction false} WalkLow(tables: Tables, t: nat, l: nat, w: nat)
    requires 1 <= l <= 4
    ensures Walk(tables, t, l, w) == Walk(tables, t, l, w % VIRT_END)
    decreases l
  {
    IdxLow(w, l);
    if l > 1 && t in tables { WalkLow(tables, tables[t][Idx(w, l)].addr, l - 1, w); }
  }

  lemma {:induction false} IdxLow(w: nat, l: nat)
    requires 1 <= l <= 4
    ensures Idx(w % VIRT_END, l) == Idx(w, l) && w % VIRT_END % Span(l) == w % Span(l)
  {
    var q, x := w / VIRT_END, w % VIRT_END;
    assert w == q * VIRT_END + x;
    if l == 1 {
      LowDigits(q, x, 0x1000, 0x8000000);
    } else if l == 2 {
      LowDigits(q, x, 0x20_0000, 0x4_0000);
    } else if l == 3 {
      LowDigits(q, x, 0x4000_0000, 0x200);
    } else {
      LowDigits(q, x, 0x80_0000_0000, 1);
    }
  }

  lemma {:induction false} LowDigits(q: nat, x: nat, s: nat, n: nat)
    requires s > 0 && VIRT_END == n * 512 * s
    ensures (q * VIRT_END + x) % s == x % s && (q * VIRT_END + x) / s % 512 == x / s % 512
  {
    var a, b := x / s, x % s;
    assert q * (n * 512 * s) == (q * n * 512) * s;
    assert q * VIRT_END + x == (q * n * 512 + a) * s + b;
    DivUnique(q * VIRT_END + x, s, q * n * 512 + a, b);
    var c, d := a / 512, a % 512;
    assert q * n * 512 + a == (q * n + c) * 512 + d;
    DivUnique(q * n * 512 + a, 512, q * n + c, d);
  }

  /** No address of the range translates. */
  lemma {:induction false} NothingThereLow(tables: Tables, u: nat, virt: nat, size: nat, w: nat)
    requires !Naive(tables, u, virt, virt + size) && InWindow(virt, size)
    requires virt % VIRT_END <= w < virt % VIRT_END + size
    ensures Translate(tables, u, w).Unmapped?
  {
    var x := virt + (w - virt % VIRT_END);
    Window(virt);
    WindowAt(virt - virt % VIRT_END, w);
    assert x % VIRT_END == w;
    WalkLow(tables, u, 4, x);
    hide Walk;
    assert Translate(tables, u, x).Unmapped?;
  }

  // ----- The whole

  /** Every byte of every stretch translates to itself, one stretch after the other from `v` on. */
  ghost predicate AllMapped(tables: Tables, u: nat, v: nat, rs: seq<Bootmem.Range>, other: nat) {
    forall j: nat :: j < |rs| ==> StretchMapped(tables, u, v + Offset(rs, j), rs[j], other)
  }

  ghost predicate StretchMapped(tables: Tables, u: nat, v: nat, r: Bootmem.Range, other: nat) {
    forall k: nat :: k < r.size ==> Goes(tables, u, v, r, other, k)
  }

  /** Byte `k` of stretch `r` is where address `v + k` leads. */
  predicate Goes(tables: Tables, u: nat, v: nat, r: Bootmem.Range, other: nat, k: nat) {
    Translate(tables, u, v + k) == Mapped(r.start + k, other)
  }

  /** No 2 MiB slot that is to become a large page is taken. */
  ghost predicate SlotsFree(tables: Tables, u: nat, v: nat, rs: seq<Bootmem.Range>) {
    forall j: nat :: j < |rs| ==> StretchFree(tables, u, v + Offset(rs, j), rs[j])
  }

  ghost predicate StretchFree(tables: Tables, u: nat, v: nat, r: Bootmem.Range) {
    forall q: nat :: Inside(v, r.size, q) && LargeAgree(v, r.start) && SlotInside(v, r.size, q) ==>
      !Taken(tables, u, 4, q * 0x1000)
  }

  /** If nothing of the range was mapped, all bytes are mapped exactly when all slots for large pages were free. */
  lemma {:induction false} AllMappedIff(f: Forest, g: Forest, u: nat, v: nat, rs: seq<Bootmem.Range>, other: nat)
    requires PlacedUpto(f, g, u, v, rs, |rs|, other) && Pieced(rs) && v % 0x1000 == 0
    requires forall j: nat :: j < |rs| ==> Offset(rs, j) % 0x1000 == 0
    requires forall j: nat :: j < |rs| ==> StretchEmpty(f.tables, u, v + Offset(rs, j), rs[j].size)
    ensures AllMapped(g.tables, u, v, rs, other) <==> SlotsFree(f.tables, u, v, rs)
  {
    hide StretchMapped, StretchFree, StretchPlaced, StretchEmpty, Offset;
    forall j: nat | j < |rs|
      ensures StretchMapped(g.tables, u, v + Offset(rs, j), rs[j], other) <==>
        StretchFree(f.tables, u, v + Offset(rs, j), rs[j])
    {
      assert PlacedAt(f, g, u, v, rs, j, other);
      StretchMappedIff(f.tables, g.tables, u, v + Offset(rs, j), rs[j], other);
    }
  }

  predicate Empty(tables: Tables, u: nat, v: nat, k: nat) { Translate(tables, u, v + k).Unmapped? }

  ghost predicate StretchEmpty(tables: Tables, u: nat, v: nat, size: nat) {
    forall k: nat :: k < size ==> Empty(tables, u, v, k)
  }

  lemma {:induction false} StretchMappedIff(before: Tables, after: Tables, u: nat, v: nat, r: Bootmem.Range, other: nat)
    requires StretchPlaced(before, after, u, v, r, other) && v % 0x1000 == 0 && r.size % 0x1000 == 0
    requires StretchEmpty(before, u, v, r.size)
    ensures StretchMapped(after, u, v, r, other) <==> StretchFree(before, u, v, r)
  {
    hide Translate, Taken, LargeAgree, SlotInside;
    if StretchFree(before, u, v, r) {
      forall k: nat | k < r.size ensures Goes(after, u, v, r, other, k) {
        var q := (v + k) / 0x1000;
        WholePage(v, r.size, v + k);
        PageStart(v, r.size, q);
        assert Placed(before, after, u, v, r, other, k);
        assert Empty(before, u, v, q * 0x1000 - v);
      }
    }
    if StretchMapped(after, u, v, r, other) {
      forall q: nat | Inside(v, r.size, q) && LargeAgree(v, r.start) && SlotInside(v, r.size, q)
        ensures !Taken(before, u, 4, q * 0x1000)
      {
        var k := q * 0x1000 - v;
        assert Placed(before, after, u, v, r, other, k) && Empty(before, u, v, k) && Goes(after, u, v, r, other, k);
        assert (v + k) / 0x1000 == q;
      }
    }
  }

  lemma {:induction false} PageStart(v: nat, size: nat, q: nat)
    requires Inside(v, size, q)
    ensures q * 0x1000 >= v && q * 0x1000 - v < size
  {
  }

  /** The call for a stretch reports no failed bytes exactly when all its slots for large pages were free. */
  lemma {:induction false} NoneFailedIff(f: Forest, g: Forest, h: Forest, u: nat, v: nat, off: nat, r: Bootmem.Range,
                                         other: nat, pages: set<nat>, failed: nat)
    requires v % 0x1000 == 0 && off % 0x1000 == 0 && r.size % 0x1000 == 0 && v + off + r.size <= VIRT_END
    requires Beyond(f, g, u, v, off) && Sets(g, h, u, v + off, r, other, pages) && failed + |pages| * 0x1000 == r.size
    requires MapsAll(g.tables, u, v + off, r.size, LargeAgree(v + off, r.start), pages)
    requires StretchEmpty(f.tables, u, v + off, r.size)
    ensures failed == 0 <==> StretchFree(f.tables, u, v + off, r)
  {
    hide CanMap, LargeAgree, SlotsLeft, Beyond, MapsAll, Inside, StretchEmpty, StretchFree;
    var at := v + off;
    forall q: nat | Inside(at, r.size, q) ensures q in pages <==> CanMap(f.tables, u, at, r, q) {
      CanMapSame(f, g, u, v, off, r, q);
      MapsAllAt(g.tables, u, at, r, pages, q);
    }
    FreeIff(f.tables, u, at, r);
    CountPages(at, r.size / 0x1000, pages);
  }

  lemma {:induction false} MapsAllAt(tables: Tables, u: nat, at: nat, r: Bootmem.Range, pages: set<nat>, q: nat)
    requires MapsAll(tables, u, at, r.size, LargeAgree(at, r.start), pages) && Inside(at, r.size, q)
    ensures q in pages <==> CanMap(tables, u, at, r, q)
  {
    hide Translate, Taken, LargeAgree, SlotInside;
  }

  /** Where nothing is mapped, all pages can be mapped exactly when the slots for large pages are free. */
  lemma {:induction false} FreeIff(tables: Tables, u: nat, at: nat, r: Bootmem.Range)
    requires StretchEmpty(tables, u, at, r.size)
    ensures (forall q: nat :: Inside(at, r.size, q) ==> CanMap(tables, u, at, r, q)) <==> StretchFree(tables, u, at, r)
  {
    hide Translate, Taken, LargeAgree, SlotInside;
    forall q: nat | Inside(at, r.size, q) ensures Translate(tables, u, q * 0x1000).Unmapped? {
      PageStart(at, r.size, q);
      assert Empty(tables, u, at, q * 0x1000 - at);
    }
    hide Inside;
  }

  lemma {:induction false} CountPages(at: nat, n: nat, pages: set<nat>)
    requires at % 0x1000 == 0 && forall q: nat :: q in pages ==> Inside(at, n * 0x1000, q)
    ensures |pages| <= n && (|pages| == n <==> forall q: nat :: Inside(at, n * 0x1000, q) ==> q in pages)
  {
    var all := PageSet(at / 0x1000, n);
    forall q: nat ensures q in all <==> Inside(at, n * 0x1000, q) { PagesOfRange(at, n, q); }
    SubsetSize(pages, all);
    if |pages| == n { SubsetWhole(pages, all); }
    if forall q: nat :: Inside(at, n * 0x1000, q) ==> q in pages { assert pages == all; }
  }

  lemma {:induction false} PagesOfRange(at: nat, n: nat, q: nat)
    requires at % 0x1000 == 0
    ensures at / 0x1000 <= q < at / 0x1000 + n <==> Inside(at, n * 0x1000, q)
  {
  }

  // ----- The code

  /** What a call that got as far as mapping has done, with the stretches `rs` it was given. */
  ghost predicate Outcome(f: Forest, g: Forest, u: nat, virt: nat, rs: seq<Bootmem.Range>, other: nat, memory: bool,
                          answer: Answer) {
    var v, n := virt % VIRT_END, Bootmem.Sum(rs);
    && rs != [] && (virt % 0x1000 != 0 ==> answer == Panic && g == f)
    && (virt % 0x1000 == 0 ==> Beyond(f, g, u, v, n))
    && (virt % 0x1000 == 0 && memory ==>
         && (AllMapped(g.tables, u, v, rs, other) <==> SlotsFree(f.tables, u, v, rs))
         && (answer == Address(virt) <==> StretchFree(f.tables, u, v + Offset(rs, |rs| - 1), rs[|rs| - 1]))
         && (answer == Panic || answer == Address(virt)))
  }

  /** The same after the first `i` stretches; `failed` is what the last call returned. */
  ghost predicate SoFar(f: Forest, g: Forest, u: nat, virt: nat, rs: seq<Bootmem.Range>, i: nat, other: nat,
                        memory: bool, failed: nat)
    requires i <= |rs|
  {
    var v := virt % VIRT_END;
    && (virt % 0x1000 != 0 ==> g == f && (i > 0 ==> failed > 0))
    && (virt % 0x1000 == 0 ==> Beyond(f, g, u, v, Offset(rs, i)))
    && (virt % 0x1000 == 0 && memory ==> PlacedUpto(f, g, u, v, rs, i, other))
    && (virt % 0x1000 == 0 && memory && i > 0 ==>
         (failed == 0 <==> StretchFree(f.tables, u, v + Offset(rs, i - 1), rs[i - 1])))
  }

  lemma {:induction false} SoFarStart(f: Forest, u: nat, virt: nat, rs: seq<Bootmem.Range>, other: nat)
    ensures SoFar(f, f, u, virt, rs, 0, other, true, 0)
  {
  }

  /** The parts of an empty range are empty. */
  lemma {:induction false} PartEmpty(tables: Tables, u: nat, v: nat, size: nat, off: nat, n: nat)
    requires StretchEmpty(tables, u, v, size) && off + n <= size
    ensures StretchEmpty(tables, u, v + off, n)
  {
    hide Translate;
    var at := v + off;
    forall k: nat | k < n ensures Empty(tables, u, at, k) { assert Empty(tables, u, v, off + k); }
  }

  lemma {:induction false} OffsetWhole(rs: seq<Bootmem.Range>, j: nat)
    requires Pieced(rs) && j <= |rs|
    ensures Offset(rs, j) % 0x1000 == 0
  {
    if j == 0 {
      OffsetEnds(rs);
    } else {
      OffsetWhole(rs, j - 1);
      OffsetNext(rs, j - 1);
      hide Offset;
      SumPages(Offset(rs, j - 1), rs[j - 1].size);
    }
  }

  /** Where stretch `i` goes: still inside the window. */
  lemma {:induction false} StretchPlace(virt: nat, rs: seq<Bootmem.Range>, i: nat)
    requires i < |rs| && Pieced(rs) && InWindow(virt, Bootmem.Sum(rs))
    ensures var at := virt + Offset(rs, i);
      && InWindow(at, rs[i].size) && at < WORD && at % VIRT_END == virt % VIRT_END + Offset(rs, i)
      && Offset(rs, i) % 0x1000 == 0 && at % 0x1000 == virt % 0x1000
      && Offset(rs, i) + rs[i].size == Offset(rs, i + 1) <= Bootmem.Sum(rs)
  {
    hide Offset;
    OffsetWhole(rs, i);
    OffsetNext(rs, i);
    OffsetGrows(rs, i + 1, |rs|);
    OffsetEnds(rs);
    Window(virt);
    WindowAt(virt - virt % VIRT_END, virt % VIRT_END + Offset(rs, i));
    SmallResidueSum(Offset(rs, i), virt);
  }

  lemma {:induction false} SoFarNext(f: Forest, g: Forest, h: Forest, live: map<nat, nat>, live': map<nat, nat>, u: nat,
                                     virt: nat, rs: seq<Bootmem.Range>, i: nat, flags: Flags, memory: bool, before: nat,
                                     pages: set<nat>, ok: bool, failed: nat)
    requires i < |rs| && Pieced(rs) && InWindow(virt, Bootmem.Sum(rs)) && flags.present
    requires virt % 0x1000 == 0 ==> StretchEmpty(f.tables, u, virt % VIRT_END, Bootmem.Sum(rs))
    requires SoFar(f, g, u, virt, rs, i, flags.other, memory, before)
    requires MapCall(g, h, live, live', u, virt + Offset(rs, i), rs[i].start, rs[i].size, flags, pages, ok)
    requires failed + |pages| * 0x1000 == rs[i].size
    ensures SoFar(f, h, u, virt, rs, i + 1, flags.other, memory && ok, failed)
  {
    hide Offset, Beyond, PlacedUpto, StretchFree, StretchEmpty, MapCall, InWindow, Pieced;
    if virt % 0x1000 == 0 {
      AlignedNext(f, g, h, live, live', u, virt, rs, i, flags, memory, pages, ok, failed);
    } else {
      StretchPlace(virt, rs, i);
      OutOfStep(g, h, live, live', u, virt + Offset(rs, i), rs, i, flags, pages, ok);
    }
  }

  lemma {:induction false} OutOfStep(g: Forest, h: Forest, live: map<nat, nat>, live': map<nat, nat>, u: nat, at: nat,
                                     rs: seq<Bootmem.Range>, i: nat, flags: Flags, pages: set<nat>, ok: bool)
    requires i < |rs| && Pieced(rs) && at % 0x1000 != 0
    requires MapCall(g, h, live, live', u, at, rs[i].start, rs[i].size, flags, pages, ok)
    ensures pages == {} && h == g && rs[i].size > 0
  {
    hide MapsInside, MapsAll, Effective, Low;
  }

  lemma {:induction false} AlignedNext(f: Forest, g: Forest, h: Forest, live: map<nat, nat>, live': map<nat, nat>,
                                       u: nat, virt: nat, rs: seq<Bootmem.Range>, i: nat, flags: Flags, memory: bool,
                                       pages: set<nat>, ok: bool, failed: nat)
    requires i < |rs| && Pieced(rs) && InWindow(virt, Bootmem.Sum(rs)) && flags.present && virt % 0x1000 == 0
    requires StretchEmpty(f.tables, u, virt % VIRT_END, Bootmem.Sum(rs))
    requires Beyond(f, g, u, virt % VIRT_END, Offset(rs, i))
    requires memory ==> PlacedUpto(f, g, u, virt % VIRT_END, rs, i, flags.other)
    requires MapCall(g, h, live, live', u, virt + Offset(rs, i), rs[i].start, rs[i].size, flags, pages, ok)
    requires failed + |pages| * 0x1000 == rs[i].size
    ensures var v := virt % VIRT_END;
      && Beyond(f, h, u, v, Offset(rs, i + 1)) && (memory && ok ==> PlacedUpto(f, h, u, v, rs, i + 1, flags.other))
      && (memory && ok ==> (failed == 0 <==> StretchFree(f.tables, u, v + Offset(rs, i), rs[i])))
  {
    hide Offset, MapsAll, Beyond, PlacedUpto, Sets, StretchFree, StretchEmpty, MapCall, LargeAgree, Ok, Root;
    var v, at, r := virt % VIRT_END, virt + Offset(rs, i), rs[i];
    StretchPlace(virt, rs, i);
    LowResidue(virt);
    CallSets(g, h, live, live', u, at, r, flags, pages, ok);
    BeyondNext(f, g, h, u, v, Offset(rs, i), r, flags.other, pages);
    if memory && ok {
      PlaceNext(f, g, h, u, v, rs, i, flags.other, pages);
      PartEmpty(f.tables, u, v, Bootmem.Sum(rs), Offset(rs, i), r.size);
      NoneFailedIff(f, g, h, u, v, Offset(rs, i), r, flags.other, pages, failed);
    }
  }

  lemma {:induction false} SoFarEnd(f: Forest, g: Forest, u: nat, virt: nat, rs: seq<Bootmem.Range>, other: nat,
                                    memory: bool, failed: nat)
    requires rs != [] && Pieced(rs) && SoFar(f, g, u, virt, rs, |rs|, other, memory, failed)
    requires virt % 0x1000 == 0 ==> StretchEmpty(f.tables, u, virt % VIRT_END, Bootmem.Sum(rs))
    ensures Outcome(f, g, u, virt, rs, other, memory, if failed == 0 then Address(virt) else Panic)
  {
    hide Offset, Beyond, PlacedUpto, StretchFree, StretchEmpty, AllMapped, SlotsFree;
    OffsetEnds(rs);
    var v := virt % VIRT_END;
    if virt % 0x1000 == 0 && memory {
      LowResidue(virt);
      forall j: nat | j < |rs|
        ensures Offset(rs, j) % 0x1000 == 0 && StretchEmpty(f.tables, u, v + Offset(rs, j), rs[j].size)
      {
        OffsetWhole(rs, j);
        OffsetNext(rs, j);
        OffsetGrows(rs, j + 1, |rs|);
        PartEmpty(f.tables, u, v, Bootmem.Sum(rs), Offset(rs, j), rs[j].size);
      }
      AllMappedIff(f, g, u, v, rs, other);
    }
  }

  /** The loop over the stretches. Only what the last call returns is kept. */
  method MapStretches(mmu: Mmu, virt: nat, rs: seq<Bootmem.Range>, flags: Flags)
    returns (failed: nat, offset: nat, ghost memory: bool)
    requires mmu.Valid() && !mmu.ready && mmu.kernel % 0x1000 == 0 && Root(mmu.Now(), mmu.kernel) && flags.present
    requires rs != [] && Pieced(rs) && InWindow(virt, Bootmem.Sum(rs))
    requires virt % 0x1000 == 0 ==> StretchEmpty(mmu.tables, mmu.kernel, virt % VIRT_END, Bootmem.Sum(rs))
    modifies mmu`tables, mmu`level, mmu.buddy, mmu.buddy.memMap, mmu.buddy.freeMatrix, mmu.pool
    ensures mmu.Valid() && Root(mmu.Now(), mmu.kernel) && mmu.Onwards() && offset == Bootmem.Sum(rs)
    ensures GrewByTables(old(mmu.Live()), mmu.Live(), old(mmu.tables), mmu.tables)
    ensures Outcome(old(mmu.Now()), mmu.Now(), mmu.kernel, virt, rs, flags.other, memory,
                    if failed == 0 then Address(virt) else Panic)
    ensures !memory ==> mmu.Spent()
  {
    hide SoFar, Outcome, MapCall, InWindow, Pieced, StretchEmpty, GrewByTables, Root, Mmu.Valid, Mmu.Live, Mmu.Spent,
         Offset, Effective, InSpace, Bootmem.Sum;
    ghost var f, u, live := mmu.Now(), mmu.kernel, mmu.Live();
    failed, offset, memory := 0, 0, true;
    SoFarStart(f, u, virt, rs, flags.other);
    OffsetEnds(rs);
    GrewNot(live, mmu.tables);
    var i := 0;
    while i < |rs|
      invariant 0 <= i <= |rs| && offset == Offset(rs, i) && mmu.Valid() && Root(mmu.Now(), u) && mmu.Onwards()
      invariant GrewByTables(live, mmu.Live(), f.tables, mmu.tables)
      invariant SoFar(f, mmu.Now(), u, virt, rs, i, flags.other, memory, failed) && (!memory ==> mmu.Spent())
    {
      label turn:
      ghost var g, now, before := mmu.Now(), mmu.Live(), failed;
      StretchCall(virt, rs, i);
      var ok;
      ghost var pages;
      failed, ok, pages := mmu.Map(KernPml4, (virt + offset) % WORD, rs[i].start, rs[i].size, flags);
      SoFarNext(f, g, mmu.Now(), now, mmu.Live(), u, virt, rs, i, flags, memory, before, pages, ok, failed);
      CallGrew(g, mmu.Now(), now, mmu.Live(), u, virt + offset, rs[i].start, rs[i].size, flags, pages, ok);
      GrewTrans(live, now, mmu.Live(), f.tables, g.tables, mmu.tables);
      SpentStill@turn(mmu);
      OffsetNext(rs, i);
      memory, offset, i := memory && ok, offset + rs[i].size, i + 1;
    }
    SoFarEnd(f, mmu.Now(), u, virt, rs, flags.other, memory, failed);
  }

  lemma {:induction false} StretchCall(virt: nat, rs: seq<Bootmem.Range>, i: nat)
    requires i < |rs| && Pieced(rs) && InWindow(virt, Bootmem.Sum(rs))
    ensures (virt + Offset(rs, i)) % WORD == virt + Offset(rs, i) < WORD && rs[i].start < WORD && rs[i].size < WORD
    ensures InSpace(Effective(virt + Offset(rs, i), rs[i].start, rs[i].size))
  {
    hide Effective, Offset;
    StretchPlace(virt, rs, i);
    SmallWord(virt + Offset(rs, i));
    WindowIs(virt + Offset(rs, i), rs[i].start, rs[i].size);
  }

  lemma {:induction false} CallGrew(g: Forest, h: Forest, live: map<nat, nat>, live': map<nat, nat>, u: nat, virt: nat,
                                    phys: nat, size: nat, flags: Flags, pages: set<nat>, memory: bool)
    requires MapCall(g, h, live, live', u, virt, phys, size, flags, pages, memory)
    ensures GrewByTables(live, live', g.tables, h.tables) && Root(h, u)
  {
    hide Effective, Updates, SlotsLeft, MapsAll, GrewByTables, Root;
  }

  /**
   bootmem_alloc_mapped: whole pages for `bytes` bytes from the boot allocator, mapped from `virt` on in the kernel's
   address space, with tables taken from the boot allocator, too. Nothing is done exactly when the allocator is not
   enabled, nothing is asked for, the kernel's table is unusable, something of the range is mapped already, or the
   memory left is too little. Otherwise Outcome says what was done: a start that is not page-aligned ends in a panic,
   and so does a failure for the last stretch; but failures for the others go unseen, and with tables enough for all
   every byte is mapped exactly when no 2 MiB slot that was to become a large page was taken.
   */
  method AllocMapped(mmu: Mmu, virt: nat, bytes: nat, flags: Flags)
    returns (answer: Answer, ghost rs: seq<Bootmem.Range>, ghost memory: bool)
    requires mmu.Valid() && !mmu.ready && virt < WORD && bytes < WORD && flags.present
    requires forall i :: 0 <= i < |mmu.pool.table| ==> mmu.pool.table[i].End() <= WORD
    requires InWindow(virt, RoundUpWord(bytes, 0x1000))
    requires mmu.kernel % 0x1000 == 0 ==>
      Root(mmu.Now(), mmu.kernel) && SearchEnds(mmu.tables, mmu.kernel, virt, virt + RoundUpWord(bytes, 0x1000))
    modifies mmu`tables, mmu`level, mmu.buddy, mmu.buddy.memMap, mmu.buddy.freeMatrix, mmu.pool
    ensures mmu.Valid() && mmu.Onwards()
    ensures var n := RoundUpWord(bytes, 0x1000);
      answer == Null <==>
        || old(mmu.pool.state) != Bootmem.Enabled || virt == 0 || n == 0 || mmu.kernel % 0x1000 != 0
        || old(Naive(mmu.tables, mmu.kernel, virt, virt + n) && !Misses(mmu.tables, mmu.kernel, virt, virt + n))
        || |Bootmem.PagesLeft(mmu.pool.table, old(mmu.pool.poolEnd))| * 0x1000 < n
    ensures answer == Null ==> mmu.Now() == old(mmu.Now()) && mmu.pool.given == old(mmu.pool.given)
    ensures answer != Null ==>
      && Bootmem.Sum(rs) == RoundUpWord(bytes, 0x1000) && Pieced(rs)
      && Bootmem.Lowest(mmu.pool.table, old(mmu.pool.poolEnd), rs)
      && Outcome(old(mmu.Now()), mmu.Now(), mmu.kernel, virt, rs, flags.other, memory, answer)
      && GrewByTables(Starts(old(mmu.pool.given) + rs), Starts(mmu.pool.given), old(mmu.tables), mmu.tables)
      && (!memory ==> mmu.Spent())
  {
    hide Naive, Misses, SearchEnds, RoundUpWord, InWindow, Outcome, Pieced, GrewByTables, Root, Ok, Starts,
         Bootmem.PagesLeft, Bootmem.Lowest, Bootmem.Handed, Bootmem.Sum, Ahead, StretchEmpty, IsRoot, Layered;
    rs, memory := [], true;
    RoundedBytes(bytes);
    if mmu.pool.state != Bootmem.Enabled { return Null, [], true; }
    if virt == 0 { return Null, [], true; }
    if bytes == 0 { return Null, [], true; }
    var n := RoundUpWord(bytes, 0x1000);
    WindowSum(virt, n);
    ForestParts(mmu.Now(), mmu.kernel);
    var code := RangeHasMapping(mmu.tables, mmu.level, mmu.kernel, KernPml4, virt, n);
    if code != 0 { return Null, [], true; }
    ghost var from, given := mmu.pool.poolEnd, mmu.pool.given;
    var segments := mmu.pool.AllocSegments(n);
    if segments == [] { return Null, [], true; }
    rs := segments;
    SegmentsPieced(mmu.pool.table, rs, from, mmu.pool.poolEnd);
    AheadStill(mmu.tables, mmu.pool.table, from, mmu.pool.poolEnd);
    if virt % 0x1000 == 0 { FoundEmpty(mmu.tables, mmu.kernel, virt, n); }
    var failed, offset;
    failed, offset, memory := MapStretches(mmu, virt, segments, flags);
    if failed != 0 { return Panic, rs, memory; }
    if offset != n { return Panic, rs, memory; }
    return Address(virt), rs, memory;
  }

  lemma {:induction false} RoundedBytes(bytes: nat)
    requires bytes < WORD
    ensures RoundUpWord(bytes, 0x1000) < WORD && RoundUpWord(bytes, 0x1000) % 0x1000 == 0
    ensures bytes == 0 ==> RoundUpWord(bytes, 0x1000) == 0
  {
    RoundUpWordIs(bytes, 0x1000);
    RoundUpIs(bytes, 0x1000);
    hide RoundUp, RoundUpWord;
  }

  lemma {:induction false} WindowSum(virt: nat, n: nat)
    requires InWindow(virt, n)
    ensures (virt + n) % WORD == virt + n
  {
    SmallWord(virt + n);
  }

  lemma {:induction false} ForestParts(f: Forest, u: nat)
    requires Ok(f)
    ensures Layered(f.tables, f.level) && (Root(f, u) ==> IsRoot(f.tables, f.level, u))
  {
  }

  lemma {:induction false} SegmentsPieced(t: seq<E820Types.Entry>, rs: seq<Bootmem.Range>, lo: nat, hi: nat)
    requires Bootmem.Handed(t, rs, lo, hi) && Bootmem.InWholePages(rs)
    requires forall i :: 0 <= i < |t| ==> t[i].End() <= WORD
    ensures Pieced(rs) && lo <= hi
  {
    forall j | 0 <= j < |rs| ensures rs[j].End() <= WORD {
      assert Bootmem.InRam(t, rs[j]);
    }
  }

  lemma {:induction false} FoundEmpty(tables: Tables, u: nat, virt: nat, n: nat)
    requires InWindow(virt, n) && virt % 0x1000 == 0
    requires !(Naive(tables, u, virt, virt + n) && !Misses(tables, u, virt, virt + n))
    ensures StretchEmpty(tables, u, virt % VIRT_END, n)
  {
    AlignedMissesNothing(tables, u, virt, virt + n);
    hide Naive, Misses, Translate;
    var v := virt % VIRT_END;
    forall k: nat | k < n ensures Empty(tables, u, v, k) {
      NothingThereLow(tables, u, virt, n, v + k);
    }
  }

  /**
   An empty page table left in a slot: the first stretch should become a large page there and cannot, the last stretch
   can be mapped. Nothing of the range is mapped before, so by Outcome the address is returned, with a hole behind it.
   */
  lemma {:induction false} UnseenFailure()
    returns (tables: Tables, level: Levels, u: nat, v: nat, rs: seq<Bootmem.Range>)
    ensures Layered(tables, level) && IsRoot(tables, level, u) && Pieced(rs) && |rs| == 2 && v % 0x1000 == 0
    ensures StretchEmpty(tables, u, v, Bootmem.Sum(rs)) && !SlotsFree(tables, u, v, rs)
    ensures StretchFree(tables, u, v + Offset(rs, 1), rs[1])
  {
    var link := Flags(true, false, 6);
    tables := map[0x1000 := ZeroTable()[0 := Pte(0x2000, link)], 0x2000 := ZeroTable()[0 := Pte(0x3000, link)],
                  0x3000 := ZeroTable()[1 := Pte(0x4000, link)], 0x4000 := ZeroTable()];
    level := map[0x1000 := 4, 0x2000 := 3, 0x3000 := 2, 0x4000 := 1];
    u, v := 0x1000, 0x20_0000;
    rs := [Bootmem.Range(0x40_0000, 0x20_0000), Bootmem.Range(0x80_0000, 0x1000)];
    OffsetEnds(rs);
    OffsetNext(rs, 0);
    OffsetNext(rs, 1);
    hide Offset;
    EmptyWalks(tables, 0x1000, 0x2000, 0x3000, 0x4000);
    hide Translate, Taken, ZeroTable;
    assert Offset(rs, 1) == 0x20_0000 && Bootmem.Sum(rs) == 0x20_1000;
    assert StretchEmpty(tables, u, v, 0x20_1000) by {
      forall k: nat | k < 0x20_1000 ensures Empty(tables, u, v, k) { assert Translate(tables, u, v + k).Unmapped?; }
    }
    assert !SlotsFree(tables, u, v, rs) by {
      assert Inside(v, 0x20_0000, 512) && SlotInside(v, 0x20_0000, 512) && Taken(tables, u, 4, 512 * 0x1000);
      assert !StretchFree(tables, u, v + Offset(rs, 0), rs[0]);
    }
  }

  lemma {:induction false} EmptyWalks(tables: Tables, a: nat, b: nat, c: nat, d: nat)
    requires a in tables && b in tables && c in tables && d in tables
    requires tables[a][0] == Pte(b, Flags(true, false, 6)) && tables[b][0] == Pte(c, Flags(true, false, 6))
    requires tables[c][1] == Pte(d, Flags(true, false, 6)) && !tables[c][2].flags.present && tables[d] == ZeroTable()
    ensures forall w: nat :: 0x20_0000 <= w < 0x40_1000 ==> Translate(tables, a, w).Unmapped?
    ensures Taken(tables, a, 4, 0x20_0000)
  {
    forall w: nat | 0x20_0000 <= w < 0x40_1000 ensures Translate(tables, a, w).Unmapped? {
      assert Idx(w, 4) == 0 && Idx(w, 3) == 0 && (Idx(w, 2) == 1 || Idx(w, 2) == 2);
      assert Walk(tables, d, 1, w).Unmapped?;
      assert Walk(tables, c, 2, w).Unmapped?;
      assert Walk(tables, b, 3, w).Unmapped?;
    }
    assert Idx(0x20_0000, 4) == 0 && Idx(0x20_0000, 3) == 0 && Idx(0x20_0000, 2) == 1;
    assert Taken(tables, c, 2, 0x20_0000);
    assert Taken(tables, b, 3, 0x20_0000);
  }

  // ----- Handing over

  /**
   When the buddy allocator has been set up, no table made so far lies in memory it manages, so that it can become the
   source of tables: tables are in the kernel's image, in what the boot allocator handed out, or not in RAM.
   */
  lemma {:induction false} HandOver(tables: Tables, pool: Bootmem.Pool, z: Zones.Zone, n: nat)
    requires Ahead(tables, pool.table, pool.poolEnd) && Zones.Ok(z, n) && z.live == map[]
    requires forall x :: x in tables ==> pool.kernelBase <= x
    requires forall p: nat :: Zones.FreeAt(z, p) <==> p < n && BuddyMark.Ordinary(pool, p)
    ensures TablesApart(tables, z)
  {
    forall x | x in tables ensures !Zones.Covered(z, x / 0x1000) {
      var q := x / 0x1000;
      assert q * 0x1000 == x;
      NotOrdinary(pool, x, q);
      ZoneTheorems.FreeAtIffNotLive(z, n, q);
    }
  }

  lemma {:induction false} NotOrdinary(pool: Bootmem.Pool, x: nat, q: nat)
    requires x == q * 0x1000 && pool.kernelBase <= x && !Bootmem.PageFrom(pool.table, pool.poolEnd, x)
    ensures !BuddyMark.Ordinary(pool, q)
  {
    assert x % 0x1000 == 0;
    if pool.poolEnd <= x {
      forall i | 0 <= i < |pool.table| ensures !BuddyMark.WholePage(pool.table[i], q) {
        assert !Bootmem.InEntry(pool.table[i], Bootmem.Range(x, 0x1000));
      }
    }
  }
}
