/** buddy_init as a whole: mark the whole RAM pages outside the kernel and the boot pool, then group them. */
module BuddyMark {
  import opened Rounding
  import opened E820Types
  import opened Zones
  import opened ZoneTheorems
  import opened Pages
  import opened Buddy
  import opened BuddyInit
  import opened Bootmem

  /** Page `q` lies wholly inside RAM entry `e`. */
  predicate WholePage(e: Entry, q: nat) {
    e.kind == TYPE_RAM && e.addr <= q * 0x1000 && q * 0x1000 + 0x1000 <= e.End()
  }

  /** Page `q` is a whole RAM page of one of the first `n` entries, and not reserved. */
  ghost predicate Usable(t: seq<Entry>, n: nat, lo: nat, hi: nat, q: nat) {
    !(lo <= q < hi) && exists i :: 0 <= i < n && i < |t| && WholePage(t[i], q)
  }

  /** The whole pages of an entry are those between its rounded ends. */
  lemma {:induction false} WholePagesOf(e: Entry, q: nat)
    ensures WholePage(e, q) <==> e.kind == TYPE_RAM && DivUp(e.addr, 0x1000) <= q < e.End() / 0x1000
  {
  }

  /**
   Pages before `n` are marked free exactly as the mask says, and no page has any other mark than free or reserved.
   */
  ghost predicate Marked(pages: seq<Page>, mask: seq<bool>) {
    |mask| == |pages| && forall j :: 0 <= j < |pages| ==> pages[j].state == if mask[j] then Buddy else Reserved
  }

  /** The mask with the pages from `s` up to `e` turned on. */
  ghost function TurnedOn(mask: seq<bool>, s: nat, e: nat): (r: seq<bool>)
    ensures |r| == |mask| && forall j :: 0 <= j < |mask| ==> (r[j] <==> mask[j] || s <= j < e)
  {
    seq(|mask|, j requires 0 <= j < |mask| => mask[j] || s <= j < e)
  }

  /** set_first_order_buddy_for_range: pages up to the end of the page array become free blocks of order 0. */
  method MarkRange(a: BuddyAllocator, start: nat, end: nat, ghost mask: seq<bool>) returns (count: nat)
    requires Marked(a.memMap[..], mask) && forall j :: start <= j < end && j < |mask| ==> !mask[j]
    modifies a.memMap
    ensures Marked(a.memMap[..], TurnedOn(mask, start, end))
    ensures Count(TurnedOn(mask, start, end), |mask|) == Count(mask, |mask|) + count
  {
    var last := if end > a.memMap.Length then a.memMap.Length else end;
    if start >= last {
      assert TurnedOn(mask, start, end) == mask;
      return 0;
    }
    var i := start;
    while i < last
      invariant start <= i <= last
      invariant Marked(a.memMap[..], TurnedOn(mask, start, i))
    {
      a.memMap[i] := a.memMap[i].(state := Buddy, order := 0);
      i := i + 1;
    }
    assert TurnedOn(mask, start, last) == TurnedOn(mask, start, end);
    CountMark(mask, TurnedOn(mask, start, last), start, last, |mask|);
    count := last - start;
  }

  /** The mask holds exactly the usable pages of the first `n` entries. */
  ghost predicate MaskIs(mask: seq<bool>, t: seq<Entry>, n: nat, lo: nat, hi: nat) {
    forall q :: 0 <= q < |mask| ==> (mask[q] <==> Usable(t, n, lo, hi, q))
  }

  /** One turn of the marking loop, the reserved pages cut out of the entry. */
  method MarkEntry(a: BuddyAllocator, t: seq<Entry>, i: nat, lo: nat, hi: nat, ghost mask: seq<bool>)
    returns (count: nat, ghost mask': seq<bool>)
    requires SortedDisjoint(t) && i < |t| && lo <= hi && Marked(a.memMap[..], mask) && MaskIs(mask, t, i, lo, hi)
    modifies a.memMap
    ensures Marked(a.memMap[..], mask') && MaskIs(mask', t, i + 1, lo, hi)
    ensures Count(mask', |mask|) == Count(mask, |mask|) + count
  {
    mask' := mask;
    EntryApart(mask, t, i, lo, hi);
    hide MaskIs, Count;
    if t[i].kind != TYPE_RAM {
      Cut0(mask, t, i, lo, hi);
      return 0, mask;
    }
    var start, end := DivUp(t[i].addr, 0x1000), t[i].End() / 0x1000;
    if lo <= start < hi { start := hi; }
    if lo < end <= hi { end := lo; }
    if start >= end {
      Cut0(mask, t, i, lo, hi);
      return 0, mask;
    }
    if start < lo && end > hi {
      var more: nat;
      count := MarkRange(a, start, lo, mask);
      mask' := TurnedOn(mask, start, lo);
      more := MarkRange(a, hi, end, mask');
      count := count + more;
      mask' := TurnedOn(mask', hi, end);
    } else {
      count := MarkRange(a, start, end, mask);
      mask' := TurnedOn(mask, start, end);
    }
    CutIs(mask, mask', t, i, lo, hi);
  }

  /** A page of entry `i` is not yet marked. */
  lemma {:induction false} EntryApart(mask: seq<bool>, t: seq<Entry>, i: nat, lo: nat, hi: nat)
    requires SortedDisjoint(t) && i < |t| && MaskIs(mask, t, i, lo, hi)
    ensures forall q ::
      0 <= q < |mask| && t[i].kind == TYPE_RAM && DivUp(t[i].addr, 0x1000) <= q < t[i].End() / 0x1000 ==> !mask[q]
  {
    forall q | 0 <= q < |mask| && t[i].kind == TYPE_RAM && DivUp(t[i].addr, 0x1000) <= q < t[i].End() / 0x1000
      ensures !mask[q]
    {
      WholePagesOf(t[i], q);
      forall j | 0 <= j < i ensures !WholePage(t[j], q) { }
    }
  }

  /** What the turn has to add. */
  lemma {:induction false} CutIs(mask: seq<bool>, mask': seq<bool>, t: seq<Entry>, i: nat, lo: nat, hi: nat)
    requires i < |t| && |mask'| == |mask| && MaskIs(mask, t, i, lo, hi)
    requires forall q :: 0 <= q < |mask| ==> (mask'[q] <==> mask[q] || (!(lo <= q < hi) && WholePage(t[i], q)))
    ensures MaskIs(mask', t, i + 1, lo, hi)
  {
    forall q | 0 <= q < |mask|
      ensures Usable(t, i + 1, lo, hi, q) <==> Usable(t, i, lo, hi, q) || (!(lo <= q < hi) && WholePage(t[i], q))
    {
    }
  }

  lemma {:induction false} Cut0(mask: seq<bool>, t: seq<Entry>, i: nat, lo: nat, hi: nat)
    requires i < |t| && MaskIs(mask, t, i, lo, hi) && forall q: nat :: WholePage(t[i], q) ==> lo <= q < hi
    ensures MaskIs(mask, t, i + 1, lo, hi)
  {
    CutIs(mask, mask, t, i, lo, hi);
  }

  /** The marking loop. */
  method MarkAll(a: BuddyAllocator, t: seq<Entry>, lo: nat, hi: nat) returns (expected: nat, ghost mask: seq<bool>)
    requires SortedDisjoint(t) && lo <= hi && forall j :: 0 <= j < a.memMap.Length ==> a.memMap[j].state == Reserved
    modifies a.memMap
    ensures Marked(a.memMap[..], mask) && MaskIs(mask, t, |t|, lo, hi) && expected == Count(mask, a.memMap.Length)
  {
    mask := seq(a.memMap.Length, _ => false);
    CountNone(mask, |mask|);
    expected := 0;
    var i := 0;
    while i < |t|
      invariant 0 <= i <= |t| && Marked(a.memMap[..], mask) && MaskIs(mask, t, i, lo, hi)
      invariant expected == Count(mask, a.memMap.Length)
    {
      var count;
      count, mask := MarkEntry(a, t, i, lo, hi, mask);
      expected := expected + count;
      i := i + 1;
    }
  }

  lemma {:induction false} CountNone(mask: seq<bool>, n: nat)
    requires n <= |mask| && forall j :: 0 <= j < |mask| ==> !mask[j]
    ensures Count(mask, n) == 0
    decreases n
  {
    if n > 0 { CountNone(mask, n - 1); }
  }

  /** Page `q` is a whole RAM page without a byte from the start of the kernel image to the end of the boot pool. */
  ghost predicate Ordinary(pool: Pool, q: nat)
    reads pool
  {
    && (q * 0x1000 + 0x1000 <= pool.kernelBase || pool.poolEnd <= q * 0x1000)
    && exists i :: 0 <= i < |pool.table| && WholePage(pool.table[i], q)
  }

  lemma {:induction false} OrdinaryIs(pool: Pool, q: nat)
    ensures Ordinary(pool, q) <==>
      Usable(pool.table, |pool.table|, pool.kernelBase / 0x1000, DivUp(pool.poolEnd, 0x1000), q)
  {
    hide WholePage;
    InReserved(pool.kernelBase, pool.poolEnd, q);
  }

  lemma {:induction false} InReserved(base: nat, end: nat, q: nat)
    ensures base / 0x1000 <= q < DivUp(end, 0x1000) <==> base < q * 0x1000 + 0x1000 && q * 0x1000 < end
  {
  }

  /**
   buddy_init: the boot pool is locked, and exactly the whole RAM pages outside the kernel image and the pool become
   free blocks of a valid allocator. The pages grouped are as many as the pages marked, so the panic is not reached.
   */
  method Init(a: BuddyAllocator, pool: Pool) returns (managed: nat)
    requires pool.Valid() && pool.kernelBase <= pool.poolEnd && a.freeMatrix.Length == MAX_ORDER + 1
    requires forall j :: 0 <= j < a.memMap.Length ==> a.memMap[j].state == Reserved
    requires forall k :: 0 <= k <= MAX_ORDER ==> a.freeMatrix[k] == Null
    modifies pool, a, a.memMap, a.freeMatrix
    ensures pool.Valid() && pool.state == Locked && pool.given == old(pool.given) && pool.poolEnd == old(pool.poolEnd)
    ensures a.Valid() && a.zone.live == map[]
    ensures forall q: nat :: FreeAt(a.zone, q) <==> q < a.memMap.Length && Ordinary(pool, q)
    ensures managed == |FreePages(a.zone, a.memMap.Length)| * PAGE_SIZE
  {
    pool.Lock();
    var lo, hi := pool.kernelBase / 0x1000, DivUp(pool.poolEnd, 0x1000);
    ReservedOrder(pool.kernelBase, pool.poolEnd);
    var expected;
    ghost var mask;
    expected, mask := MarkAll(a, pool.table, lo, hi);
    ghost var pages := a.memMap[..];
    SameMask(pages, mask);
    var accounted := Group(a);
    assert expected == accounted;
    managed := accounted * PAGE_SIZE;
    CountIsSize(mask, |mask|);
    assert FreePages(a.zone, a.memMap.Length) == set q | 0 <= q < |mask| && mask[q];
    forall q: nat ensures Ordinary(pool, q) <==> Usable(pool.table, |pool.table|, lo, hi, q) { OrdinaryIs(pool, q); }
  }

  lemma {:induction false} CountIsSize(mask: seq<bool>, n: nat)
    requires n <= |mask|
    ensures Count(mask, n) == |set q | 0 <= q < n && mask[q]|
    decreases n
  {
    if n > 0 {
      CountIsSize(mask, n - 1);
      var before := set q | 0 <= q < n - 1 && mask[q];
      assert (set q | 0 <= q < n && mask[q]) == if mask[n - 1] then before + {n - 1} else before;
    }
  }

  lemma {:induction false} ReservedOrder(base: nat, end: nat)
    requires base <= end
    ensures base / 0x1000 <= DivUp(end, 0x1000)
  {
  }

  lemma {:induction false} SameMask(pages: seq<Page>, mask: seq<bool>)
    requires Marked(pages, mask)
    ensures MaskOf(pages) == mask
  {
  }

  /** A page that overlaps the kernel image or anything the boot pool handed out is not managed. */
  lemma {:induction false} ReservedNotOrdinary(pool: Pool, q: nat, x: nat)
    requires pool.Valid() && q * 0x1000 <= x < q * 0x1000 + 0x1000
    requires (pool.kernelBase <= x < pool.kernelEnd <= pool.poolEnd)
      || exists i :: 0 <= i < |pool.given| && pool.given[i].start <= x < pool.given[i].End()
    ensures !Ordinary(pool, q)
  {
    assert pool.kernelBase <= x < pool.poolEnd;
  }

  /**
   In every run after buddy_init no block the allocator hands out has a byte of the kernel image or of the boot pool.
   */
  lemma {:induction false} NeverHandsOutReserved(pool: Pool, z: Zone, n: nat, ops: seq<Op>, z': Zone, k: nat, q: nat,
                                                 x: nat)
    requires pool.Valid() && Ok(z, n) && LegalOps(ops) && Reaches(z, n, ops, z') && z.live == map[] && k <= MAX_ORDER
    requires forall p: nat :: FreeAt(z, p) <==> p < n && Ordinary(pool, p)
    requires q * 0x1000 <= x < q * 0x1000 + 0x1000
    requires (pool.kernelBase <= x < pool.kernelEnd <= pool.poolEnd)
      || exists i :: 0 <= i < |pool.given| && pool.given[i].start <= x < pool.given[i].End()
    ensures Ok(z', n) && !LiveAt(z', q) && !FreeAt(z', q)
    ensures Alloc(z', k).1.Pfn? ==> !Within(q, Alloc(z', k).1.pfn, k)
  {
    ReservedNotOrdinary(pool, q, x);
    RunTheorem(z, n, ops, z');
    FreeAtIffNotLive(z, n, q);
    FreeAtIffNotLive(z', n, q);
    assert !LiveAt(z, q);
    if Alloc(z', k).1.Pfn? { AllocFreePages(z', n, k, q); }
  }
}
