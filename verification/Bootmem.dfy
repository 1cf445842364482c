/**
 The boot-time bump allocator: it moves upwards through the RAM entries of the memory map, from the end of the kernel.
 */
module Bootmem {
  import opened E820Types
  import opened Rounding

  datatype State = Disabled | Enabled | Locked

  /** A stretch of physical memory that was handed out. */
  datatype Range = Range(start: nat, size: nat) {
    function End(): nat { start + size }
  }

  function Sum(rs: seq<Range>): nat {
    if rs == [] then 0 else Sum(rs[..|rs| - 1]) + rs[|rs| - 1].size
  }

  /** The range lies inside entry `e`, which is RAM. */
  predicate InEntry(e: Entry, r: Range) {
    e.kind == TYPE_RAM && e.addr <= r.start && r.End() <= e.End()
  }

  ghost predicate InRam(t: seq<Entry>, r: Range) {
    exists i :: 0 <= i < |t| && InEntry(t[i], r)
  }

  /** Ranges handed out between `lo` and `hi`: page-aligned, not empty, inside RAM, each after the one before. */
  ghost predicate Handed(t: seq<Entry>, rs: seq<Range>, lo: nat, hi: nat) {
    && lo <= hi
    && (forall i :: 0 <= i < |rs| ==> rs[i].size > 0 && rs[i].start % 0x1000 == 0 && InRam(t, rs[i]))
    && (forall i :: 0 <= i < |rs| ==> lo <= rs[i].start && rs[i].End() <= hi)
    && (forall i, j :: 0 <= i < j < |rs| ==> rs[i].End() <= rs[j].start)
  }

  lemma {:induction false} SumAppend(a: seq<Range>, b: seq<Range>)
    ensures Sum(a + b) == Sum(a) + Sum(b)
    decreases |b|
  {
    if b == [] {
      assert a + b == a;
    } else {
      assert (a + b)[..|a + b| - 1] == a + b[..|b| - 1];
      SumAppend(a, b[..|b| - 1]);
    }
  }

  lemma {:induction false} HandedMore(t: seq<Entry>, a: seq<Range>, b: seq<Range>, lo: nat, mid: nat, hi: nat)
    requires Handed(t, a, lo, mid) && Handed(t, b, mid, hi)
    ensures Handed(t, a + b, lo, hi) && Sum(a + b) == Sum(a) + Sum(b)
  {
    SumAppend(a, b);
  }

  lemma {:induction false} HandedOne(t: seq<Entry>, i: nat, r: Range, lo: nat, hi: nat)
    requires i < |t| && InEntry(t[i], r) && r.size > 0 && r.start % 0x1000 == 0 && lo <= r.start && r.End() <= hi
    ensures Handed(t, [r], lo, hi) && Sum([r]) == r.size
  {
    assert [r][..0] == [];
  }

  lemma {:induction false} HandedOrder(t: seq<Entry>, rs: seq<Range>, lo: nat, hi: nat)
    requires Handed(t, rs, lo, hi)
    ensures lo <= hi
  {
  }

  lemma {:induction false} HandedNone(t: seq<Entry>, lo: nat)
    ensures Handed(t, [], lo, lo) && Sum([]) == 0
  {
  }

  /** The part of entry `e` from `from` on that can be handed out, in whole pages. */
  function SegmentStart(e: Entry, from: nat): nat { RoundUp(if from > e.addr then from else e.addr, 0x1000) }
  function SegmentEnd(e: Entry): nat { RoundDown(e.End(), 0x1000) }
  function Room(e: Entry, from: nat): nat {
    if e.kind == TYPE_RAM && SegmentStart(e, from) < SegmentEnd(e) then SegmentEnd(e) - SegmentStart(e, from) else 0
  }

  /** Bytes in whole pages from `from` on in entries `i` up to `j`. */
  function Available(t: seq<Entry>, from: nat, i: nat, j: nat): nat
    requires i <= j <= |t|
    decreases j
  {
    if i == j then 0 else Available(t, from, i, j - 1) + Room(t[j - 1], from)
  }

  // ----- What that measures: pages in RAM

  /** Page `a` is aligned, not below `from`, and in RAM. */
  ghost predicate PageFrom(t: seq<Entry>, from: nat, a: nat) {
    a % 0x1000 == 0 && from <= a && InRam(t, Range(a, 0x1000))
  }

  ghost function TopOf(t: seq<Entry>): (r: nat)
    ensures forall i :: 0 <= i < |t| ==> t[i].End() <= r
  {
    if t == [] then 0
    else
      var r := TopOf(t[..|t| - 1]);
      if t[|t| - 1].End() > r then t[|t| - 1].End() else r
  }

  /** The numbers of all pages in RAM from `from` on. */
  ghost function PagesLeft(t: seq<Entry>, from: nat): (r: set<nat>)
    ensures forall q: nat :: q in r <==> PageFrom(t, from, q * 0x1000)
  {
    set q: nat | q < TopOf(t) && PageFrom(t, from, q * 0x1000)
  }

  /** Page `a` lies wholly inside one of the stretches. */
  ghost predicate HoldsPage(rs: seq<Range>, a: nat) {
    exists k :: 0 <= k < |rs| && rs[k].start <= a && a + 0x1000 <= rs[k].End()
  }

  /** The stretches hold exactly the pages in RAM from `from` on that end where the last stretch ends, or before. */
  ghost predicate Lowest(t: seq<Entry>, from: nat, rs: seq<Range>) {
    && rs != []
    && forall a: nat :: a % 0x1000 == 0 ==>
         (HoldsPage(rs, a) <==> PageFrom(t, from, a) && a + 0x1000 <= rs[|rs| - 1].End())
  }

  /** Page `a`, not below `from`, lies in RAM entry `k` with `i <= k < j`. */
  ghost predicate Between(t: seq<Entry>, from: nat, i: nat, j: nat, a: nat) {
    exists k :: i <= k < j && k < |t| && from <= a && InEntry(t[k], Range(a, 0x1000))
  }

  /** The stretches hold exactly the pages of the entries passed so far. */
  ghost predicate Gathered(t: seq<Entry>, from: nat, i: nat, j: nat, rs: seq<Range>) {
    forall a: nat :: a % 0x1000 == 0 ==> (HoldsPage(rs, a) <==> Between(t, from, i, j, a))
  }

  /** The whole pages of an entry from `from` on are those between the rounded ends. */
  lemma {:induction false} RoomHolds(e: Entry, from: nat, a: nat)
    requires a % 0x1000 == 0
    ensures from <= a && InEntry(e, Range(a, 0x1000)) <==>
      Room(e, from) > 0 && SegmentStart(e, from) <= a && a + 0x1000 <= SegmentEnd(e)
  {
    var low := if from > e.addr then from else e.addr;
    hide RoundUp, RoundDown;
    RoundedBelow(low, 0, 0x1000, a);
    assert (a + 0x1000) % 0x1000 == 0;
    RoundedBelow(0, e.End(), 0x1000, a + 0x1000);
  }

  lemma {:induction false} RoomPages(e: Entry, from: nat)
    ensures Room(e, from) % 0x1000 == 0
    ensures forall q: nat :: q in PageSet(SegmentStart(e, from) / 0x1000, Room(e, from) / 0x1000) <==>
      from <= q * 0x1000 && InEntry(e, Range(q * 0x1000, 0x1000))
  {
    SegmentFits(e, from);
    var start, end := SegmentStart(e, from), SegmentEnd(e);
    RoundDownIs(e.End(), 0x1000);
    forall q: nat
      ensures q in PageSet(start / 0x1000, Room(e, from) / 0x1000) <==>
        from <= q * 0x1000 && InEntry(e, Range(q * 0x1000, 0x1000))
    {
      hide InEntry, SegmentStart, SegmentEnd;
      RoomHolds(e, from, q * 0x1000);
    }
  }

  /** Bytes counted entry by entry are the bytes of the pages of these entries. */
  lemma {:induction false} AvailablePages(t: seq<Entry>, from: nat, i: nat, j: nat) returns (pages: set<nat>)
    requires i <= j <= |t| && SortedDisjoint(t)
    ensures forall q: nat :: q in pages <==> Between(t, from, i, j, q * 0x1000)
    ensures Available(t, from, i, j) == |pages| * 0x1000
    decreases j
  {
    hide PageSet, Room, SegmentStart, Available, Between, InEntry, SortedDisjoint;
    AvailableStep(t, from, i, if i == j then j else j - 1);
    if i == j {
      pages := {};
      BetweenNone(t, from, i);
    } else {
      var before := AvailablePages(t, from, i, j - 1);
      var e := t[j - 1];
      RoomPages(e, from);
      var here := PageSet(SegmentStart(e, from) / 0x1000, Room(e, from) / 0x1000);
      forall q: nat ensures q !in before || q !in here { EntriesShareNone(t, from, i, j - 1, q * 0x1000); }
      assert before !! here;
      pages := before + here;
      forall q: nat ensures q in pages <==> Between(t, from, i, j, q * 0x1000) {
        BetweenStep(t, from, i, j - 1, q * 0x1000);
      }
    }
  }

  lemma {:induction false} BetweenNone(t: seq<Entry>, from: nat, i: nat)
    ensures forall a: nat :: !Between(t, from, i, i, a)
  {
  }

  lemma {:induction false} EntriesShareNone(t: seq<Entry>, from: nat, i: nat, j: nat, a: nat)
    requires SortedDisjoint(t) && j < |t|
    ensures !(Between(t, from, i, j, a) && InEntry(t[j], Range(a, 0x1000)))
  {
  }

  lemma {:induction false} BetweenStep(t: seq<Entry>, from: nat, i: nat, j: nat, a: nat)
    requires i <= j < |t|
    ensures Between(t, from, i, j + 1, a) <==>
      Between(t, from, i, j, a) || (from <= a && InEntry(t[j], Range(a, 0x1000)))
  {
    hide InEntry;
  }

  /** From the current entry on lie all pages in RAM from the bump pointer on. */
  lemma {:induction false} NonePassed(t: seq<Entry>, from: nat, current: nat)
    requires SortedDisjoint(t) && Placed(t, current, from)
    ensures forall a: nat :: a % 0x1000 == 0 ==> (Between(t, from, current, |t|, a) <==> PageFrom(t, from, a))
    ensures forall a: nat :: !Between(t, from, current, current, a)
  {
    forall a: nat | a % 0x1000 == 0 ensures Between(t, from, current, |t|, a) <==> PageFrom(t, from, a) {
      if PageFrom(t, from, a) {
        var k :| 0 <= k < |t| && InEntry(t[k], Range(a, 0x1000));
        assert k >= current;
      }
    }
  }

  lemma {:induction false} AvailableIsPages(t: seq<Entry>, from: nat, current: nat)
    requires SortedDisjoint(t) && Placed(t, current, from)
    ensures Available(t, from, current, |t|) == |PagesLeft(t, from)| * 0x1000
  {
    hide Between, PageFrom, Available, PagesLeft, SortedDisjoint;
    var pages := AvailablePages(t, from, current, |t|);
    NonePassed(t, from, current);
    forall q: nat ensures q in pages <==> q in PagesLeft(t, from) { assert (q * 0x1000) % 0x1000 == 0; }
    assert pages == PagesLeft(t, from);
  }

  lemma {:induction false} GatheredNone(t: seq<Entry>, from: nat, i: nat)
    ensures Gathered(t, from, i, i, [])
  {
  }

  lemma {:induction false} GatheredSame(t: seq<Entry>, from: nat, i: nat, j: nat, rs: seq<Range>)
    requires i <= j < |t| && Gathered(t, from, i, j, rs) && Room(t[j], from) == 0
    ensures Gathered(t, from, i, j + 1, rs)
  {
    hide HoldsPage, Between, InEntry, Room, SegmentStart, SegmentEnd;
    forall a: nat | a % 0x1000 == 0 ensures HoldsPage(rs, a) <==> Between(t, from, i, j + 1, a) {
      BetweenStep(t, from, i, j, a);
      RoomHolds(t[j], from, a);
    }
  }

  /** One more stretch, from the start of what entry `j` offers; if it takes all of that the entry is passed. */
  lemma {:induction false} GatheredMore(t: seq<Entry>, from: nat, i: nat, j: nat, rs: seq<Range>, r: Range)
    requires SortedDisjoint(t) && i <= j < |t| && Gathered(t, from, i, j, rs) && Room(t[j], from) > 0
    requires r.start == SegmentStart(t[j], from) && r.size > 0 && r.End() <= SegmentEnd(t[j])
    requires forall a: nat :: a % 0x1000 == 0 ==> (Between(t, from, i, |t|, a) <==> PageFrom(t, from, a))
    ensures r.End() == SegmentEnd(t[j]) ==> Gathered(t, from, i, j + 1, rs + [r])
    ensures Lowest(t, from, rs + [r])
  {
    var more := rs + [r];
    hide HoldsPage, Between, InEntry, Room, SegmentStart, SegmentEnd, SortedDisjoint, PageFrom;
    SegmentFits(t[j], from);
    forall a: nat | a % 0x1000 == 0
      ensures r.End() == SegmentEnd(t[j]) ==> (HoldsPage(more, a) <==> Between(t, from, i, j + 1, a))
      ensures HoldsPage(more, a) <==> PageFrom(t, from, a) && a + 0x1000 <= r.End()
    {
      HoldsMore(rs, r, a);
      BetweenStep(t, from, i, j, a);
      RoomHolds(t[j], from, a);
      PassedBelow(t, from, i, j, a, r.End());
    }
  }

  lemma {:induction false} HoldsMore(rs: seq<Range>, r: Range, a: nat)
    ensures HoldsPage(rs + [r], a) <==> HoldsPage(rs, a) || (r.start <= a && a + 0x1000 <= r.End())
  {
    var more := rs + [r];
    assert more[|rs|] == r && forall k :: 0 <= k < |rs| ==> more[k] == rs[k];
  }

  /** Pages of earlier entries end before a stretch of entry `j` does, pages of later ones after it. */
  lemma {:induction false} PassedBelow(t: seq<Entry>, from: nat, i: nat, j: nat, a: nat, end: nat)
    requires SortedDisjoint(t) && i <= j < |t| && t[j].addr < end <= t[j].End()
    ensures Between(t, from, i, j, a) ==> a + 0x1000 <= end
    ensures Between(t, from, i, |t|, a) && a + 0x1000 <= end ==> Between(t, from, i, j + 1, a)
    ensures Between(t, from, i, j + 1, a) ==> Between(t, from, i, |t|, a)
  {
  }

  /** The bump pointer `from` has come to RAM entry `current`. */
  ghost predicate Placed(t: seq<Entry>, current: nat, from: nat) {
    current < |t| && t[current].kind == TYPE_RAM && t[current].addr <= from
  }

  lemma {:induction false} RoundUpFacts(a: nat)
    ensures a <= RoundUp(a, 0x1000) < a + 0x1000 && RoundUp(a, 0x1000) % 0x1000 == 0
    ensures forall x: nat {:trigger x % 0x1000} :: x % 0x1000 == 0 && a <= x ==> RoundUp(a, 0x1000) <= x
  {
    RoundUpIs(a, 0x1000);
    hide RoundUp;
  }

  /** The search loop of bootmem_alloc_page_phys. */
  method FindPage(table: seq<Entry>, poolEnd: nat, current: nat) returns (found: bool, i: nat, page: nat)
    requires SortedDisjoint(table) && Placed(table, current, poolEnd)
    ensures found ==> current <= i < |table| && InEntry(table[i], Range(page, 0x1000)) && PageFrom(table, poolEnd, page)
    ensures found ==> forall a: nat :: a < page ==> !PageFrom(table, poolEnd, a)
    ensures !found ==> forall a: nat :: !PageFrom(table, poolEnd, a)
  {
    hide RoundUp, InRam;
    page := RoundUp(poolEnd, 0x1000);
    ghost var from: nat := poolEnd;
    RoundUpFacts(poolEnd);
    i := current;
    while i < |table|
      invariant current <= i <= |table| && page == RoundUp(from, 0x1000) && poolEnd <= from <= page
      invariant page % 0x1000 == 0
      invariant from == poolEnd || forall j :: i <= j < |table| ==> from <= table[j].addr
      invariant NoneBefore(table, poolEnd, i)
    {
      if table[i].kind == TYPE_RAM {
        if page < table[i].addr {
          page, from := RoundUp(table[i].addr, 0x1000), table[i].addr;
        }
        RoundUpFacts(from);
        if page + 0x1000 <= table[i].End() {
          PageFound(table, poolEnd, i, page, from);
          return true, i, page;
        }
      }
      NoneHere(table, poolEnd, i, page, from);
      i := i + 1;
    }
    PageNotFound(table, poolEnd);
    return false, i, page;
  }

  /** The loop of __alloc: whole RAM entries, and then a part of one, until `bytes` bytes are gathered. */
  method FindSegments(table: seq<Entry>, poolEnd: nat, current: nat, bytes: nat) returns (segments: seq<Range>, i: nat)
    requires SortedDisjoint(table) && Placed(table, current, poolEnd) && bytes > 0
    ensures segments != [] ==>
      Sum(segments) == bytes && Handed(table, segments, poolEnd, segments[|segments| - 1].End())
    ensures segments != [] ==> Placed(table, i, segments[|segments| - 1].End()) && Lowest(table, poolEnd, segments)
    ensures segments == [] <==> |PagesLeft(table, poolEnd)| * 0x1000 < bytes
    ensures bytes % 0x1000 == 0 ==> InWholePages(segments)
  {
    hide SegmentStart, SegmentEnd, Room, Available, SortedDisjoint, InRam, Handed, Sum, HoldsPage, Between, Lowest,
         Gathered, PagesLeft, PageFrom;
    AvailableIsPages(table, poolEnd, current);
    NonePassed(table, poolEnd, current);
    segments := [];
    var gathered := 0;
    ghost var top: nat := poolEnd;
    HandedNone(table, poolEnd);
    GatheredNone(table, poolEnd, current);
    AvailableStep(table, poolEnd, current, current);
    i := current;
    while i < |table|
      invariant current <= i <= |table| && gathered == Sum(segments) == Available(table, poolEnd, current, i) < bytes
      invariant Handed(table, segments, poolEnd, top) && Below(table, poolEnd, top, i)
      invariant Gathered(table, poolEnd, current, i, segments)
      invariant InWholePages(segments) && gathered % 0x1000 == 0
    {
      AvailableStep(table, poolEnd, current, i);
      BelowNext(table, poolEnd, top, i);
      RoomIs(table[i], poolEnd);
      if Room(table[i], poolEnd) > 0 {
        var start, end := SegmentStart(table[i], poolEnd), SegmentEnd(table[i]);
        var remaining := bytes - gathered;
        if start + remaining < end { end := start + remaining; }
        var segment := Range(start, end - start);
        HandedOne(table, i, segment, top, end);
        HandedMore(table, segments, [segment], poolEnd, top, end);
        GatheredMore(table, poolEnd, current, i, segments, segment);
        if bytes % 0x1000 == 0 || end == SegmentEnd(table[i]) {
          SegmentWhole(table[i], poolEnd, segment, remaining, bytes, gathered);
        }
        segments := segments + [segment];
        gathered := gathered + segment.size;
        top := end;
        if gathered >= bytes {
          AvailableGrows(table, poolEnd, current, i + 1, |table|);
          return segments, i;
        }
        BelowEnd(table, poolEnd, end, i);
      } else {
        GatheredSame(table, poolEnd, current, i, segments);
      }
      i := i + 1;
    }
    segments := [];
  }

  predicate InWholePages(rs: seq<Range>) { forall k :: 0 <= k < |rs| ==> rs[k].size % 0x1000 == 0 }

  /** A stretch that ends with its entry, or with a request for whole pages, is whole pages. */
  lemma {:induction false} SegmentWhole(e: Entry, from: nat, r: Range, remaining: nat, bytes: nat, gathered: nat)
    requires r.start == SegmentStart(e, from) && gathered + remaining == bytes && gathered % 0x1000 == 0
    requires r.End() == SegmentEnd(e) || (bytes % 0x1000 == 0 && r.size == remaining)
    ensures r.size % 0x1000 == 0 && (gathered + r.size) % 0x1000 == 0
  {
    SegmentFits(e, from);
    RoundDownIs(e.End(), 0x1000);
    hide SegmentStart, RoundDown;
  }

  /** What was gathered so far ends before the entries from `i` on. */
  ghost predicate Below(t: seq<Entry>, from: nat, top: nat, i: nat) {
    top == from || forall j :: i <= j < |t| ==> top <= t[j].addr
  }

  lemma {:induction false} BelowNext(t: seq<Entry>, from: nat, top: nat, i: nat)
    requires Below(t, from, top, i) && i < |t|
    ensures Below(t, from, top, i + 1) && (top <= from || top <= t[i].addr)
  {
  }

  lemma {:induction false} BelowEnd(t: seq<Entry>, from: nat, top: nat, i: nat)
    requires SortedDisjoint(t) && i < |t| && top <= t[i].End()
    ensures Below(t, from, top, i + 1)
  {
  }

  lemma {:induction false} AvailableStep(t: seq<Entry>, from: nat, i: nat, j: nat)
    requires i <= j <= |t|
    ensures Available(t, from, i, i) == 0
    ensures j < |t| ==> Available(t, from, i, j + 1) == Available(t, from, i, j) + Room(t[j], from)
  {
  }

  lemma {:induction false} RoomIs(e: Entry, from: nat)
    ensures Room(e, from) > 0 ==> e.kind == TYPE_RAM && Room(e, from) == SegmentEnd(e) - SegmentStart(e, from)
    ensures SegmentStart(e, from) % 0x1000 == 0 && e.addr <= SegmentStart(e, from) && from <= SegmentStart(e, from)
    ensures SegmentEnd(e) <= e.End()
  {
    SegmentFits(e, from);
    hide SegmentStart, SegmentEnd;
  }

  /** No page in RAM from `from` on in the entries before `i`. */
  ghost predicate NoneBefore(t: seq<Entry>, from: nat, i: nat) {
    forall j, a: nat :: 0 <= j < i && j < |t| && a % 0x1000 == 0 && from <= a ==> !InEntry(t[j], Range(a, 0x1000))
  }

  lemma {:induction false} NoneHere(t: seq<Entry>, from: nat, i: nat, page: nat, base: nat)
    requires i < |t| && NoneBefore(t, from, i) && page == RoundUp(base, 0x1000) && (base == from || base <= t[i].addr)
    requires t[i].kind == TYPE_RAM ==> page + 0x1000 > t[i].End()
    ensures NoneBefore(t, from, i + 1)
  {
    RoundUpFacts(base);
    hide RoundUp;
    forall j, a: nat | 0 <= j < i + 1 && j < |t| && a % 0x1000 == 0 && from <= a
      ensures !InEntry(t[j], Range(a, 0x1000))
    {
    }
  }

  class Pool {
    const table: seq<Entry>
    const kernelBase: nat
    const kernelEnd: nat
    var poolStart: nat
    var poolEnd: nat
    var current: nat
    var poolBytes: nat
    var state: State
    /** Everything handed out so far. */
    ghost var given: seq<Range>

    ghost predicate Valid()
      reads this
    {
      && SortedDisjoint(table) && kernelBase <= kernelEnd
      && (state.Disabled? ==> given == [])
      && (state.Enabled? ==> Placed(table, current, poolEnd) && 0 < poolStart && kernelEnd <= poolStart)
      && (given != [] ==> kernelEnd <= poolStart) && Handed(table, given, poolStart, poolEnd)
      && poolBytes == Sum(given)
    }

    constructor (t: seq<Entry>, base: nat, end: nat)
      requires SortedDisjoint(t) && base <= end
      ensures Valid() && state == Disabled && table == t && kernelBase == base && kernelEnd == end && given == []
    {
      table, kernelBase, kernelEnd := t, base, end;
      poolStart, poolEnd, current, poolBytes, state, given := 0, 0, 0, 0, Disabled, [];
      new;
      HandedNone(table, 0);
    }

    /**
     bootmem_init: -1 when called again; otherwise the pool starts at the first RAM entry that reaches beyond the
     kernel, or the kernel panics, which it does exactly when there is none or it starts beyond the identity map.
     */
    method Init(lowMapEnd: nat) returns (code: int, panicked: bool)
      requires Valid()
      modifies this
      ensures given == old(given) && (!panicked ==> Valid()) && (panicked ==> state == Disabled)
      ensures old(state) != Disabled ==>
        code == -1 && !panicked && state == old(state) && poolEnd == old(poolEnd) && current == old(current)
      ensures old(state) == Disabled && !panicked ==> code == 0 && state == Enabled && poolEnd == poolStart
      ensures old(state) == Disabled ==>
        (panicked <==> forall i :: 0 <= i < |table| && FirstAbove(table, kernelEnd, i) ==>
         !(0 < Begin(table[i], kernelEnd) <= lowMapEnd))
      ensures old(state) == Disabled && !panicked ==>
        FirstAbove(table, kernelEnd, current) && poolStart == RoundUp(Begin(table[current], kernelEnd), 0x1000)
    {
      if state != Disabled { return -1, false; }
      poolStart, poolEnd, poolBytes := 0, 0, 0;
      HandedNone(table, 0);
      var i := 0;
      while i < |table|
        invariant 0 <= i <= |table| && state == Disabled && given == [] && poolBytes == 0
        invariant forall j :: 0 <= j < i ==> !(table[j].kind == TYPE_RAM && table[j].End() > kernelEnd)
        invariant poolStart == 0 && poolEnd == 0
      {
        if table[i].kind == TYPE_RAM && table[i].End() > kernelEnd {
          poolStart := if table[i].addr < kernelEnd then kernelEnd else table[i].addr;
          current := i;
          break;
        }
        i := i + 1;
      }
      if poolStart == 0 { return 0, true; }
      if poolStart > lowMapEnd { return 0, true; }
      RoundUpFacts(poolStart);
      poolStart := RoundUp(poolStart, 0x1000);
      poolEnd := poolStart;
      HandedNone(table, poolStart);
      state := Enabled;
      return 0, false;
    }

    /**
     bootmem_alloc_page_phys: the lowest page at or above the end of the pool that lies in RAM, or 0 with nothing
     changed when there is none. The two "state corrupted" panics are not reached.
     */
    method AllocPage() returns (page: nat)
      requires Valid()
      modifies this
      ensures Valid() && state == old(state) && poolStart == old(poolStart)
      ensures page == 0 ==>
        given == old(given) && poolEnd == old(poolEnd) && current == old(current) && poolBytes == old(poolBytes)
      ensures page != 0 ==>
        given == old(given) + [Range(page, 0x1000)] && poolEnd == page + 0x1000 && poolBytes == old(poolBytes) + 0x1000
      ensures page != 0 ==>
        state == Enabled && page % 0x1000 == 0 && old(poolEnd) <= page && InRam(table, Range(page, 0x1000))
      ensures page != 0 ==> forall a: nat :: a < page ==> !PageFrom(table, old(poolEnd), a)
      ensures page == 0 && state == Enabled ==> forall a: nat :: !PageFrom(table, old(poolEnd), a)
    {
      hide InRam, Sum, SortedDisjoint, Handed, PageFrom;
      if state != Enabled { return 0; }
      assert current < |table|;
      assert table[current].addr <= poolEnd;
      HandedOrder(table, given, poolStart, poolEnd);
      var found, i, allocation := FindPage(table, poolEnd, current);
      if !found { return 0; }
      PageFromIs(table, poolEnd, allocation);
      HandedOne(table, i, Range(allocation, 0x1000), poolEnd, allocation + 0x1000);
      HandedMore(table, given, [Range(allocation, 0x1000)], poolStart, poolEnd, allocation + 0x1000);
      poolEnd := allocation + 0x1000;
      current := i;
      poolBytes := poolBytes + 0x1000;
      given := given + [Range(allocation, 0x1000)];
      return allocation;
    }

    /**
     __alloc: `bytes` bytes as a list of stretches, one for each RAM entry passed; the list is empty, and the pool
     unchanged, exactly when the allocator is not enabled, nothing is asked for, or the pages left in RAM are too few.
     The stretches are the lowest of those pages.
     */
    method AllocSegments(bytes: nat) returns (segments: seq<Range>)
      requires Valid()
      modifies this
      ensures Valid() && state == old(state) && poolStart == old(poolStart)
      ensures segments == [] ==>
        given == old(given) && poolEnd == old(poolEnd) && current == old(current) && poolBytes == old(poolBytes)
      ensures segments != [] ==>
        given == old(given) + segments && Sum(segments) == bytes && poolBytes == old(poolBytes) + bytes
      ensures segments != [] ==>
        Handed(table, segments, old(poolEnd), poolEnd) && poolEnd == segments[|segments| - 1].End()
      ensures segments == [] <==>
        old(state) != Enabled || bytes == 0 || |PagesLeft(table, old(poolEnd))| * 0x1000 < bytes
      ensures segments != [] ==> Lowest(table, old(poolEnd), segments)
      ensures bytes % 0x1000 == 0 ==> InWholePages(segments)
    {
      hide Sum, Handed, SortedDisjoint, PagesLeft, Lowest;
      if state != Enabled { return []; }
      if bytes == 0 { return []; }
      var i: nat;
      segments, i := FindSegments(table, poolEnd, current, bytes);
      if segments == [] { return; }
      ghost var end := segments[|segments| - 1].End();
      HandedMore(table, given, segments, poolStart, poolEnd, end);
      poolEnd := segments[|segments| - 1].End();
      poolBytes := poolBytes + bytes;
      current := i;
      given := given + segments;
    }

    /** bootmem_lock: from here on nothing is handed out. */
    method Lock()
      requires Valid()
      modifies this
      ensures Valid() && state == Locked
      ensures poolStart == old(poolStart) && poolEnd == old(poolEnd) && current == old(current) && given == old(given)
      ensures poolBytes == old(poolBytes)
    {
      state := Locked;
    }
  }

  lemma {:induction false} PageFromIs(t: seq<Entry>, from: nat, a: nat)
    requires PageFrom(t, from, a)
    ensures a % 0x1000 == 0 && from <= a && InRam(t, Range(a, 0x1000))
  {
  }

  lemma {:induction false} PageNotFound(t: seq<Entry>, from: nat)
    requires NoneBefore(t, from, |t|)
    ensures forall a: nat :: !PageFrom(t, from, a)
  {
  }

  /** The first RAM entry that holds a page from `from` on holds the lowest such page. */
  lemma {:induction false} PageFound(t: seq<Entry>, from: nat, i: nat, page: nat, base: nat)
    requires SortedDisjoint(t) && i < |t| && InEntry(t[i], Range(page, 0x1000)) && page == RoundUp(base, 0x1000)
    requires (base == from || base <= t[i].addr) && NoneBefore(t, from, i)
    ensures InRam(t, Range(page, 0x1000)) && forall a: nat :: a < page ==> !PageFrom(t, from, a)
  {
    RoundUpFacts(base);
    hide RoundUp;
    forall a: nat | a < page ensures !PageFrom(t, from, a) {
      if a % 0x1000 == 0 && from <= a {
        forall j | 0 <= j < |t| ensures !InEntry(t[j], Range(a, 0x1000)) {
        }
      }
    }
  }

  lemma {:induction false} SegmentFits(e: Entry, from: nat)
    ensures SegmentStart(e, from) % 0x1000 == 0 && e.addr <= SegmentStart(e, from) && from <= SegmentStart(e, from)
    ensures SegmentEnd(e) <= e.End()
  {
    RoundUpFacts(if from > e.addr then from else e.addr);
    RoundDownIs(e.End(), 0x1000);
    hide RoundUp, RoundDown;
  }

  lemma {:induction false} AvailableGrows(t: seq<Entry>, from: nat, i: nat, j: nat, k: nat)
    requires i <= j <= k <= |t|
    ensures Available(t, from, i, j) <= Available(t, from, i, k)
    decreases k
  {
    if j < k { AvailableGrows(t, from, i, j, k - 1); }
  }

  /** Entry `i` is the first RAM entry that reaches beyond `end`. */
  ghost predicate FirstAbove(t: seq<Entry>, end: nat, i: nat) {
    && i < |t| && t[i].kind == TYPE_RAM && t[i].End() > end
    && forall j :: 0 <= j < i ==> !(t[j].kind == TYPE_RAM && t[j].End() > end)
  }

  function Begin(e: Entry, end: nat): nat { if e.addr < end then end else e.addr }
}
