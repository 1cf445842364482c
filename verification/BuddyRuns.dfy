/** Whole runs of the allocator with free_pages as it is written. */
module BuddyRuns {
  import opened Arith
  import opened Zones
  import opened ZoneTheorems
  import opened Pages
  import opened Buddy
  import opened BuddyAsWritten

  // ----- What the marks say

  /** Page `i` lies in a block whose head is marked free. */
  ghost predicate MarkedFree(pages: seq<Page>, i: nat) {
    exists h: nat :: h < |pages| && pages[h].state == Buddy && Within(i, h, pages[h].order)
  }

  /** Page `i` lies in a block whose head is marked allocated. */
  ghost predicate MarkedLive(pages: seq<Page>, i: nat) {
    exists h: nat :: h < |pages| && pages[h].state == Allocated && Within(i, h, pages[h].order)
  }

  /** Marks that are right mark exactly the free pages of the zone free and exactly its live pages allocated. */
  lemma {:induction false} MarksMean(pages: seq<Page>, heads: seq<Link>, z: Zone, i: nat)
    requires MarksRight(pages, heads, z)
    ensures MarkedFree(pages, i) <==> FreeAt(z, i)
    ensures MarkedLive(pages, i) <==> LiveAt(z, i)
  {
    MarkedMeans(pages, z, i);
    if FreeAt(z, i) {
      var h: nat, k: nat :| Free(z, h, k) && Within(i, h, k);
      OneBlockPerHead(z, |pages|, h, k, 0);
      assert PageOk(pages[h], z, h, -1);
    }
    if LiveAt(z, i) {
      var h: nat, k: nat :| Live(z, h, k) && Within(i, h, k);
      OneBlockPerHead(z, |pages|, h, k, 0);
      assert PageOk(pages[h], z, h, -1);
    }
  }

  lemma {:induction false} MarkedMeans(pages: seq<Page>, z: Zone, i: nat)
    requires Tiles(pages, z, -1)
    ensures MarkedFree(pages, i) ==> FreeAt(z, i)
    ensures MarkedLive(pages, i) ==> LiveAt(z, i)
  {
    if MarkedFree(pages, i) {
      var h: nat :| h < |pages| && pages[h].state == Buddy && Within(i, h, pages[h].order);
      assert PageOk(pages[h], z, h, -1);
      assert Free(z, h, pages[h].order);
    }
    if MarkedLive(pages, i) {
      var h: nat :| h < |pages| && pages[h].state == Allocated && Within(i, h, pages[h].order);
      assert PageOk(pages[h], z, h, -1);
      assert Live(z, h, pages[h].order);
    }
  }

  // ----- Any sequence of frees

  /** Page `i` lies in a live block whose head is one of the first `n` of `ps`. */
  ghost predicate Given(z: Zone, ps: seq<nat>, n: nat, i: nat) {
    exists j :: 0 <= j < n && j < |ps| && ps[j] in z.live && Within(i, ps[j], z.live[ps[j]])
  }

  ghost function Members(ps: seq<nat>, n: nat): set<nat> {
    set j | 0 <= j < n && j < |ps| :: ps[j]
  }

  /** One more free: the pages of a block already given back are not given back again. */
  lemma {:induction false} GivenMore(z: Zone, z1: Zone, n: nat, ps: seq<nat>, j: nat, i: nat)
    requires Ok(z, n) && Ok(z1, n) && j < |ps| && z1.live == z.live - Members(ps, j)
    requires FreeAt(z1, i) <==> FreeAt(z, i) || Given(z, ps, j, i)
    ensures FreeAt(FreeBlock(z1, ps[j]), i) <==> FreeAt(z, i) || Given(z, ps, j + 1, i)
  {
    var p := ps[j];
    FreeOk(z1, n, p);
    if p in z1.live { FreeFreePages(z1, n, p, i); }
    hide Ok, FreeAt, FreeBlock, Within;
    assert p in z.live && p !in z1.live ==> exists k :: 0 <= k < j && ps[k] == p;
  }

  /**
   Any sequence of frees as written, whatever becomes of the lists on the way: the marks are right after each of
   them, the live blocks are those whose heads were not freed, and the pages marked free are those marked free before
   and the blocks marked allocated whose heads were freed.
   */
  method FreeAllAsWritten(a: BuddyAllocator, ps: seq<nat>)
    requires a.freeMatrix.Length == MAX_ORDER + 1 && MarksRight(a.memMap[..], a.freeMatrix[..], a.zone)
    requires forall j :: 0 <= j < |ps| ==> ps[j] < a.memMap.Length
    modifies a, a.memMap, a.freeMatrix
    ensures MarksRight(a.memMap[..], a.freeMatrix[..], a.zone) && a.zone.live == old(a.zone.live) - Members(ps, |ps|)
    ensures forall i: nat :: Covered(a.zone, i) <==> old(Covered(a.zone, i))
    ensures forall i: nat :: MarkedFree(a.memMap[..], i) <==>
      old(MarkedFree(a.memMap[..], i)) || Given(old(a.zone), ps, |ps|, i)
  {
    hide MarksRight, Covered, FreeAt, MarkedFree, MarkedLive, Given, FreeBlock;
    ghost var z, n := a.zone, a.memMap.Length;
    forall i: nat
      ensures MarkedFree(a.memMap[..], i) <==> FreeAt(z, i)
    {
      MarksMean(a.memMap[..], a.freeMatrix[..], z, i);
    }
    MarksOk(a.memMap[..], a.freeMatrix[..], z);
    forall i: nat ensures !Given(z, ps, 0, i) { NoneGiven(z, ps, i); }
    var j := 0;
    while j < |ps|
      invariant 0 <= j <= |ps| && a.freeMatrix.Length == MAX_ORDER + 1
      invariant MarksRight(a.memMap[..], a.freeMatrix[..], a.zone)
      invariant a.zone.live == z.live - Members(ps, j) && forall i: nat :: Covered(a.zone, i) <==> Covered(z, i)
      invariant forall i: nat :: FreeAt(a.zone, i) <==> FreeAt(z, i) || Given(z, ps, j, i)
    {
      MarksOk(a.memMap[..], a.freeMatrix[..], a.zone);
      FreeOk(a.zone, n, ps[j]);
      forall i: nat ensures FreeAt(FreeBlock(a.zone, ps[j]), i) <==> FreeAt(z, i) || Given(z, ps, j + 1, i) {
        GivenMore(z, a.zone, n, ps, j, i);
      }
      assert Members(ps, j + 1) == Members(ps, j) + {ps[j]};
      FreePagesAsWritten(a, ps[j]);
      j := j + 1;
    }
    forall i: nat
      ensures MarkedFree(a.memMap[..], i) <==> FreeAt(a.zone, i)
    {
      MarksMean(a.memMap[..], a.freeMatrix[..], a.zone, i);
    }
  }

  lemma {:induction false} MarksOk(pages: seq<Page>, heads: seq<Link>, z: Zone)
    requires MarksRight(pages, heads, z)
    ensures Ok(z, |pages|) && |z.lists| == MAX_ORDER + 1
  {
  }

  lemma {:induction false} NoneGiven(z: Zone, ps: seq<nat>, i: nat)
    ensures !Given(z, ps, 0, i)
  {
  }

  // ----- An allocation and its free

  /** A block that was split to the right only, and whose full-size buddy is not free, never merges left. */
  lemma {:induction false} MergesRightOnly(z: Zone, p: nat, i: nat)
    requires |z.lists| == MAX_ORDER + 1 && p in z.live && z.live[p] <= i <= MAX_ORDER && Aligned(p, i)
    requires i == MAX_ORDER || !FreeInt(z, BuddyOf(p, i), i)
    ensures !MergesLeft(z, p)
    decreases i - z.live[p]
  {
    var k := z.live[p];
    if CanMerge(z, p) && k < i {
      AlignedDown(p, i, k + 1);
      assert Merge(z, p).lists[i] == z.lists[i];
      MergesRightOnly(Merge(z, p), p, i);
    }
  }

  /** Freeing what was just allocated does not merge left. */
  lemma {:induction false} AllocMergesRight(z: Zone, n: nat, k: nat)
    requires Ok(z, n) && k <= MAX_ORDER && Alloc(z, k).1.Pfn?
    ensures var (z1, r) := Alloc(z, k); |z1.lists| == MAX_ORDER + 1 && Live(z1, r.pfn, k) && !MergesLeft(z1, r.pfn)
  {
    AllocThenFreeLive(z, n, k);
    AllocLists(z, n, k);
    MergesRightOnly(Alloc(z, k).0, Alloc(z, k).1.pfn, FirstNonEmpty(z.lists, k));
  }

  /** alloc_pages and then free_pages, both as written: every list is what it was, in its order. */
  method AllocThenFreeAsWritten(a: BuddyAllocator, order: nat) returns (page: Link)
    requires a.Valid() && order <= MAX_ORDER
    modifies a, a.memMap, a.freeMatrix
    ensures a.Valid() && a.zone == old(a.zone) && a.freeMatrix[..] == old(a.freeMatrix[..])
    ensures |old(a.zone).lists| == MAX_ORDER + 1 && page == Alloc(old(a.zone), order).1
  {
    ghost var z, n := a.zone, a.memMap.Length;
    SettledShape(a.memMap[..], a.freeMatrix[..], z);
    SettledHeads(a.memMap[..], a.freeMatrix[..], z);
    SettledOkay(a.memMap[..], a.freeMatrix[..], z);
    hide Settled, Ok, Alloc, MarksRight, FreeBlock, MergesLeft;
    page := a.AllocPages(order);
    if page.Null? {
      AllocOk(z, n, order);
      return;
    }
    AllocInside(z, n, order);
    AllocMergesRight(z, n, order);
    AllocThenFree(z, n, order);
    SettledMarks(a.memMap[..], a.freeMatrix[..], a.zone);
    FreePagesAsWritten(a, page.pfn);
    SettledHeads(a.memMap[..], a.freeMatrix[..], a.zone);
  }

  lemma {:induction false} SettledOkay(pages: seq<Page>, heads: seq<Link>, z: Zone)
    requires Settled(pages, heads, z)
    ensures Ok(z, |pages|)
  {
  }

  /** The list heads are determined by the lists. */
  ghost function Fronts(lists: seq<seq<nat>>): (r: seq<Link>)
    ensures |r| == |lists| && forall k :: 0 <= k < |lists| ==> r[k] == Front(lists[k])
  {
    seq(|lists|, k requires 0 <= k < |lists| => Front(lists[k]))
  }

  lemma {:induction false} SettledHeads(pages: seq<Page>, heads: seq<Link>, z: Zone)
    requires Settled(pages, heads, z)
    ensures heads == Fronts(z.lists)
  {
    forall k | 0 <= k < |heads| ensures heads[k] == Front(z.lists[k]) {
      assert DList(pages, heads[k], z.lists[k]);
    }
  }

  lemma {:induction false} AllocInside(z: Zone, n: nat, k: nat)
    requires Ok(z, n) && k <= MAX_ORDER && Alloc(z, k).1.Pfn?
    ensures Alloc(z, k).1.pfn < n && Alloc(z, k).1.pfn in Alloc(z, k).0.live
  {
    AllocOk(z, n, k);
    var (z1, r) := Alloc(z, k);
    OneBlockPerHead(z1, n, r.pfn, k, 0);
  }

  // ----- Runs of both

  /** No free of the run merges to the left. */
  ghost predicate StaysRight(z: Zone, n: nat, ops: seq<Op>)
    requires Ok(z, n) && LegalOps(ops)
    decreases |ops|
  {
    if ops == [] then true
    else
      StepOk(z, n, ops[0]);
      && (ops[0].FreeOp? && ops[0].pfn in z.live && z.live[ops[0].pfn] <= MAX_ORDER ==> !MergesLeft(z, ops[0].pfn))
      && StaysRight(Step(z, ops[0]), n, ops[1..])
  }

  /** The zone a run ends in. */
  ghost function RunOf(z: Zone, n: nat, ops: seq<Op>): (z': Zone)
    requires Ok(z, n) && LegalOps(ops)
    ensures Ok(z', n) && Reaches(z, n, ops, z')
    decreases |ops|
  {
    if ops == [] then z
    else
      StepOk(z, n, ops[0]);
      RunOf(Step(z, ops[0]), n, ops[1..])
  }

  /**
   Any run of allocations and frees as written in which no free merges left does what the zone-level run does, with
   marks and lists in agreement all along; FreePagesAsWritten says that the first free that does merge left ends that.
   */
  method RunAsWritten(a: BuddyAllocator, ops: seq<Op>)
    requires a.Valid() && LegalOps(ops) && Ok(a.zone, a.memMap.Length) && StaysRight(a.zone, a.memMap.Length, ops)
    requires forall j :: 0 <= j < |ops| && ops[j].FreeOp? ==> ops[j].pfn < a.memMap.Length
    modifies a, a.memMap, a.freeMatrix
    ensures a.Valid() && a.zone == RunOf(old(a.zone), a.memMap.Length, ops)
    decreases |ops|
  {
    hide Settled, Ok, MarksRight, FreeBlock, MergesLeft, Alloc;
    ghost var n := a.memMap.Length;
    if ops == [] { return; }
    StepOk(a.zone, n, ops[0]);
    match ops[0] {
      case AllocOp(k) =>
        var page := a.AllocPages(k);
      case FreeOp(p) =>
        SettledMarks(a.memMap[..], a.freeMatrix[..], a.zone);
        FreePagesAsWritten(a, p);
    }
    RunAsWritten(a, ops[1..]);
  }

  /** The first free of a run that merges left leaves lists that do not agree with the marks, however they are read. */
  method LeftMergeEndsRun(a: BuddyAllocator, ops: seq<Op>, page: nat)
    requires a.Valid() && LegalOps(ops) && Ok(a.zone, a.memMap.Length) && StaysRight(a.zone, a.memMap.Length, ops)
    requires forall j :: 0 <= j < |ops| && ops[j].FreeOp? ==> ops[j].pfn < a.memMap.Length
    requires page < a.memMap.Length
    requires var z := RunOf(a.zone, a.memMap.Length, ops);
      page in z.live && z.live[page] <= MAX_ORDER && MergesLeft(z, page)
    modifies a, a.memMap, a.freeMatrix
    ensures MarksRight(a.memMap[..], a.freeMatrix[..], a.zone)
    ensures forall lists :: !Agree(a.memMap[..], a.freeMatrix[..], lists)
  {
    hide Settled, Ok, MarksRight, FreeBlock, MergesLeft, StaysRight, RunOf, Agree;
    RunAsWritten(a, ops);
    SettledMarks(a.memMap[..], a.freeMatrix[..], a.zone);
    FreePagesAsWritten(a, page);
  }

  // ----- Two pages

  const FREE_0: Page := Page(Buddy, 0, Null, Null)

  /** Eleven list heads, all empty but the first two. */
  function Heads(zero: Link, one: Link): seq<Link> {
    [zero, one, Null, Null, Null, Null, Null, Null, Null, Null, Null]
  }

  /** One free block of two pages, as buddy_init leaves it. */
  function TwoPages(): seq<Page> {
    [Page(Buddy, 1, Null, Null), Page(Tail, 0, Null, Null)]
  }

  function TwoPageZone(): Zone {
    Zone([[], [0], [], [], [], [], [], [], [], [], []], map[])
  }

  lemma {:induction false} TwoPageBlocks(i: nat, k: nat)
    ensures Free(TwoPageZone(), i, k) <==> i == 0 && k == 1
    ensures Block(TwoPageZone(), i, k) <==> i == 0 && k == 1
  {
  }

  lemma {:induction false} TwoPagesSettled()
    ensures Settled(TwoPages(), Heads(Null, Pfn(0)), TwoPageZone())
  {
    var z := TwoPageZone();
    forall i: nat, k: nat ensures Free(z, i, k) <==> i == 0 && k == 1 { TwoPageBlocks(i, k); }
    forall i: nat, k: nat ensures Block(z, i, k) <==> i == 0 && k == 1 { TwoPageBlocks(i, k); }
    TwoPagesOk();
    assert Tiles(TwoPages(), z, -1) by {
      hide Free, Block, Ok;
      assert Pow2(1) == 2 && Within(0, 0, 1) && Within(1, 0, 1);
      assert Block(z, 0, 1) && Covered(z, 0) && Covered(z, 1);
      assert Tiling(z, 2) by { assert Ok(z, 2); }
      hide Tiling;
    }
    assert Linked(TwoPages(), Heads(Null, Pfn(0)), z.lists) by {
      hide Free, Block, Ok;
      assert forall k :: 0 <= k < 11 && k != 1 ==> z.lists[k] == [] && Heads(Null, Pfn(0))[k] == Null;
    }
    hide Tiles, Linked, Ok;
  }

  lemma {:induction false} TwoPagesOk()
    ensures Ok(TwoPageZone(), 2)
  {
    var z := TwoPageZone();
    forall i: nat, k: nat ensures Free(z, i, k) <==> i == 0 && k == 1 { TwoPageBlocks(i, k); }
    forall i: nat, k: nat ensures Block(z, i, k) <==> i == 0 && k == 1 { TwoPageBlocks(i, k); }
    assert forall k :: 0 <= k < 11 ==> Distinct(z.lists[k]);
    assert Pow2(1) == 2 && Aligned(0, 1);
    AlignedZero(2);
    assert BuddyOf(0, 1) == 2;
    hide Free, Block, Distinct;
  }

  /**
   The code as written, step by step, on two pages: both are allocated and freed, the left one first. The second free
   merges left, and then one allocation of a single page and one of two pages both hand out page 0.
   */
  lemma {:induction false} DoubleHandOut()
    ensures var s0 := (TwoPages(), Heads(Null, Pfn(0)));
      var (s1, p1) := AllocRaw(s0.0, s0.1, 0); var (s2, p2) := AllocRaw(s1.0, s1.1, 0);
      && p1 == Pfn(0) && p2 == Pfn(1) && |s2.0| == 2
      && var s3 := FreeRaw(s2.0, s2.1, 0);
         && |s3.0| == 2
         && var s4 := FreeRaw(s3.0, s3.1, 1);
            var (s5, p5) := AllocRaw(s4.0, s4.1, 0); var (s6, p6) := AllocRaw(s5.0, s5.1, 1);
            p5 == Pfn(0) && p6 == Pfn(0)
  {
    var a, b := Page(Buddy, 1, Null, Null), Page(Tail, 0, Null, Null);
    var live := Page(Allocated, 0, Null, Null);
    SplitsTwo(Null, Null);
    SplitsTwo(Null, Pfn(0));
    HeadsSet(Null, Pfn(0), Null);
    HeadsSet(Pfn(0), Pfn(0), Null);
    HeadsSet(Pfn(1), Null, Null);
    HeadsSet(Pfn(1), Pfn(0), Null);
    PagesSet(a, b, a);
    PagesSet(live, FREE_0, FREE_0);
    PagesSet(live, FREE_0, live);
    hide SplitRaw;
    assert FirstList(Heads(Null, Pfn(0)), 0) == 1;
    assert Popped([a, b], Heads(Null, Pfn(0)), 1) == ([a, b], Heads(Null, Null));
    assert AllocRaw(TwoPages(), Heads(Null, Pfn(0)), 0) == (([live, FREE_0], Heads(Pfn(1), Null)), Pfn(0));
    assert Popped([live, FREE_0], Heads(Pfn(1), Null), 0) == ([live, FREE_0], Heads(Null, Null));
    TakesOne();
    assert AllocRaw([live, FREE_0], Heads(Pfn(1), Null), 0) == (([live, live], Heads(Null, Null)), Pfn(1));
    FreesLeft();
    FreesRight();
    assert Popped([a, b], Heads(Pfn(0), Pfn(0)), 0) == ([a, b], Heads(Null, Pfn(0)));
    assert AllocRaw([a, b], Heads(Pfn(0), Pfn(0)), 0) == (([live, FREE_0], Heads(Pfn(1), Pfn(0))), Pfn(0));
    assert AllocRaw([live, FREE_0], Heads(Pfn(1), Pfn(0)), 1).1 == Pfn(0);
  }

  lemma {:induction false} PagesSet(a: Page, b: Page, x: Page)
    ensures [a, b][0 := x] == [x, b] && [a, b][1 := x] == [a, x]
  {
  }

  lemma {:induction false} HeadsSet(zero: Link, one: Link, x: Link)
    ensures Heads(zero, one)[0 := x] == Heads(x, one) && Heads(zero, one)[1 := x] == Heads(zero, x)
  {
  }

  /** Splitting the block of two pages down to one. */
  lemma {:induction false} SplitsTwo(zero: Link, one: Link)
    requires zero.Null?
    ensures SplitRaw([Page(Buddy, 1, Null, Null), Page(Tail, 0, Null, Null)], Heads(zero, one), 0, 0, MAX_ORDER)
      == ([Page(Allocated, 0, Null, Null), FREE_0], Heads(Pfn(1), one))
  {
    var a, b := Page(Buddy, 1, Null, Null), Page(Tail, 0, Null, Null);
    var a', b' := Page(Buddy, 0, Null, Null), Page(Tail, 0, Null, Null);
    assert Pow2(0) == 1;
    PagesSet(a, b, a');
    PagesSet(a', b, b');
    PagesSet(a', b', FREE_0);
    PagesSet(a', FREE_0, FREE_0);
    PagesSet(a', FREE_0, Page(Allocated, 0, Null, Null));
    HeadsSet(zero, one, Pfn(1));
    assert Inserted([a', b'], Heads(zero, one), 1) == ([a', FREE_0], Heads(Pfn(1), one));
    assert SplitPages([a, b], Heads(zero, one), 0) == ([a', FREE_0], Heads(Pfn(1), one));
    SplitRawStep([a, b], Heads(zero, one), 0, 0, MAX_ORDER);
    SplitRawStep([a', FREE_0], Heads(Pfn(1), one), 0, 0, MAX_ORDER - 1);
  }

  /** A block of the right order is not split. */
  lemma {:induction false} TakesOne()
    ensures SplitRaw([Page(Allocated, 0, Null, Null), FREE_0], Heads(Null, Null), 1, 0, MAX_ORDER)
      == ([Page(Allocated, 0, Null, Null), Page(Allocated, 0, Null, Null)], Heads(Null, Null))
  {
    PagesSet(Page(Allocated, 0, Null, Null), FREE_0, Page(Allocated, 0, Null, Null));
    SplitRawStep([Page(Allocated, 0, Null, Null), FREE_0], Heads(Null, Null), 1, 0, MAX_ORDER);
  }

  /** Freeing the left page: its buddy is not free. */
  lemma {:induction false} FreesLeft()
    ensures FreeRaw([Page(Allocated, 0, Null, Null), Page(Allocated, 0, Null, Null)], Heads(Null, Null), 0)
      == ([FREE_0, Page(Allocated, 0, Null, Null)], Heads(Pfn(0), Null))
  {
    var live := Page(Allocated, 0, Null, Null);
    PagesSet(live, live, FREE_0);
    PagesSet(FREE_0, live, FREE_0);
    HeadsSet(Null, Null, Pfn(0));
    assert Pow2(0) == 1 && AlignmentOrder(0) == MAX_ORDER;
    assert MergeTurn([FREE_0, live], Heads(Null, Null), 0) == Stop;
    MergeRawEnd([FREE_0, live], Heads(Null, Null), 0, MAX_ORDER);
    assert Inserted([FREE_0, live], Heads(Null, Null), 0) == ([FREE_0, live], Heads(Pfn(0), Null));
  }

  /** Freeing the right page: it merges left, and the left page stays on the list of single pages. */
  lemma {:induction false} FreesRight()
    ensures FreeRaw([FREE_0, Page(Allocated, 0, Null, Null)], Heads(Pfn(0), Null), 1)
      == ([Page(Buddy, 1, Null, Null), Page(Tail, 0, Null, Null)], Heads(Pfn(0), Pfn(0)))
  {
    var live, a, b := Page(Allocated, 0, Null, Null), Page(Buddy, 1, Null, Null), Page(Tail, 0, Null, Null);
    PagesSet(FREE_0, live, FREE_0);
    PagesSet(FREE_0, FREE_0, b);
    PagesSet(FREE_0, b, a);
    PagesSet(a, b, a);
    HeadsSet(Pfn(0), Null, Pfn(0));
    assert Pow2(0) == 1 && Pow2(1) == 2 && AlignmentOrder(0) == MAX_ORDER && AlignmentOrder(1) == 0;
    assert Unlinked([FREE_0, FREE_0], Heads(Pfn(0), Null), 1) == ([FREE_0, FREE_0], Heads(Pfn(0), Null));
    assert MergePages([FREE_0, FREE_0], Heads(Pfn(0), Null), 1, 0, 1) == ([a, b], Heads(Pfn(0), Null));
    assert MergeTurn([FREE_0, FREE_0], Heads(Pfn(0), Null), 1) == Went([a, b], Heads(Pfn(0), Null), 0);
    MergeRawStep([FREE_0, FREE_0], Heads(Pfn(0), Null), 1, MAX_ORDER);
    assert MergeTurn([a, b], Heads(Pfn(0), Null), 0) == Stop;
    MergeRawEnd([a, b], Heads(Pfn(0), Null), 0, MAX_ORDER - 1);
    assert Inserted([a, b], Heads(Pfn(0), Null), 0) == ([a, b], Heads(Pfn(0), Pfn(0)));
  }
}
