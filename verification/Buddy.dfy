/** The buddy page allocator over the page array `mem_map` and the list heads `free_matrix`. */
module Buddy {
  import opened Arith
  import opened Zones
  import opened Pages
  import opened ZoneTheorems

  /** Alignment of a page frame number, capped at the maximum order. */
  function AlignmentOrder(pfn: nat): (o: nat)
    ensures o <= MAX_ORDER
  {
    var o := if pfn == 0 then 64 else TrailingZeros(pfn);
    if o > MAX_ORDER then MAX_ORDER else o
  }

  lemma {:induction false} AlignmentOrderAligned(pfn: nat, k: nat)
    requires k <= MAX_ORDER
    ensures k <= AlignmentOrder(pfn) <==> Aligned(pfn, k)
  {
    if pfn == 0 {
      AlignedZero(k);
    } else {
      TrailingZerosAligned(pfn, k);
    }
  }

  /** An operation is under way on the live block at `p`: everything else agrees with zone `z`. */
  ghost predicate Working(pages: seq<Page>, heads: seq<Link>, z: Zone, p: nat) {
    Ok(z, |pages|) && Tiles(pages, z, p) && Linked(pages, heads, z.lists) && p in z.live
  }

  /** Between operations. */
  ghost predicate Settled(pages: seq<Page>, heads: seq<Link>, z: Zone) {
    Ok(z, |pages|) && Tiles(pages, z, -1) && Linked(pages, heads, z.lists)
  }

  lemma {:induction false} SettledShape(pages: seq<Page>, heads: seq<Link>, z: Zone)
    requires Settled(pages, heads, z)
    ensures |z.lists| == |heads| == MAX_ORDER + 1
  {
  }

  lemma {:induction false} SettledHead(pages: seq<Page>, heads: seq<Link>, z: Zone, k: nat)
    requires Settled(pages, heads, z) && k < |z.lists|
    ensures k < |heads| && (heads[k].Null? <==> z.lists[k] == [])
  {
    assert DList(pages, heads[k], z.lists[k]);
  }

  lemma {:induction false} SettledAt(pages: seq<Page>, heads: seq<Link>, z: Zone, p: nat)
    requires Settled(pages, heads, z) && p < |pages|
    ensures |z.lists| == |heads| == MAX_ORDER + 1
    ensures pages[p].state == Allocated <==> p in z.live
  {
    assert PageOk(pages[p], z, p, -1);
  }

  lemma {:induction false} FreeBlockCases(z: Zone, p: nat)
    requires |z.lists| == MAX_ORDER + 1
    ensures p !in z.live ==> FreeBlock(z, p) == z
    ensures p in z.live && z.live[p] <= MAX_ORDER ==> FreeBlock(z, p) == MergeAndGive(z, p)
  {
  }

  lemma {:induction false} MergeAndGiveCases(z: Zone, p: nat)
    requires p in z.live && z.live[p] <= MAX_ORDER && |z.lists| == MAX_ORDER + 1
    ensures z.live[p] == MAX_ORDER ==> !CanMerge(z, p)
    ensures CanMerge(z, p) ==>
      && BuddyOf(p, z.live[p]) >= 0 && z.live[p] < MAX_ORDER
      && var m, z' := MergedHead(p, z.live[p]), Merge(z, p);
      && m in z'.live && z'.live[m] == z.live[p] + 1 && |z'.lists| == MAX_ORDER + 1
      && MergeAndGive(z, p) == MergeAndGive(z', m)
    ensures !CanMerge(z, p) ==> MergeAndGive(z, p) == Give(z, p)
  {
  }

  lemma {:induction false} WorkingShape(pages: seq<Page>, heads: seq<Link>, z: Zone, p: nat)
    requires Working(pages, heads, z, p)
    ensures |z.lists| == |heads| == MAX_ORDER + 1
    ensures p in z.live && p < |pages| && pages[p].order == z.live[p] <= MAX_ORDER
  {
    OneBlockPerHead(z, |pages|, p, z.live[p], 0);
    assert PageOk(pages[p], z, p, p);
  }

  lemma {:induction false} SplitToStep(z: Zone, p: nat, k: nat)
    requires p in z.live && k <= z.live[p] <= |z.lists|
    ensures k < z.live[p] ==>
      && p in Split(z, p).live && Split(z, p).live[p] == z.live[p] - 1 && |Split(z, p).lists| == |z.lists|
      && SplitTo(z, p, k) == SplitTo(Split(z, p), p, k)
    ensures k == z.live[p] ==> SplitTo(z, p, k) == z
  {
  }

  lemma {:induction false} LinkedKept(pages: seq<Page>, pages': seq<Page>, heads: seq<Link>, lists: seq<seq<nat>>,
                                      except: set<nat>)
    requires Linked(pages, heads, lists) && LinksKept(pages, pages', except)
    requires forall k, x :: 0 <= k < |lists| && x in except ==> x !in lists[k]
    ensures Linked(pages', heads, lists)
  {
    forall k | 0 <= k < |lists| ensures DList(pages', heads[k], lists[k]) {
      DListKept(pages, pages', heads[k], lists[k], except);
    }
  }

  lemma {:induction false} NotOnLists(z: Zone, n: nat, b: nat)
    requires Tiling(z, n)
    requires b in z.live || forall k: nat :: !Block(z, b, k)
    ensures forall k :: 0 <= k < |z.lists| ==> b !in z.lists[k]
  {
    forall k: nat | k < |z.lists| ensures b !in z.lists[k] {
      assert Block(z, b, k) <== Free(z, b, k);
    }
  }

  /** Popping the head of list `k` starts an allocation. */
  lemma {:induction false} WorkingPop(pages: seq<Page>, heads: seq<Link>, z: Zone, k: nat)
    requires Settled(pages, heads, z) && k < |z.lists| && z.lists[k] != []
    ensures heads[k] == Pfn(z.lists[k][0]) && z.lists[k][0] < |pages| && InRange(pages[z.lists[k][0]].next, |pages|)
    ensures var (pages', heads') := Popped(pages, heads, k); Working(pages', heads', Take(z, k), z.lists[k][0])
  {
    TilingSeparate(z, |pages|);
    PopLinks(pages, heads, z.lists, k);
    TakeFree(z, |pages|, k);
    TakeOk(z, |pages|, k);
    TakeCovers(z, |pages|, k);
    TilesTake(pages, z, k);
    var (pages', heads') := Popped(pages, heads, k);
    TilesSame(pages, pages', Take(z, k), z.lists[k][0]);
  }

  lemma {:induction false} TilesSame(pages: seq<Page>, pages': seq<Page>, z: Zone, x: int)
    requires Tiles(pages, z, x) && MarksKept(pages, pages', {})
    ensures Tiles(pages', z, x)
  {
    forall i | 0 <= i < |pages| ensures PageOk(pages'[i], z, i, x) {
      PageOkKept(pages[i], pages'[i], z, z, i, x, x);
    }
  }

  /** One turn of the split loop on values. */
  function SplitPages(pages: seq<Page>, heads: seq<Link>, p: nat): (seq<Page>, seq<Link>)
    requires p < |pages| && 0 < pages[p].order <= |heads| && p + Pow2(pages[p].order - 1) < |pages|
    requires InRange(heads[pages[p].order - 1], |pages|)
  {
    var k := pages[p].order - 1;
    var b := p + Pow2(k);
    var pages1 := pages[p := pages[p].(order := k)];
    Inserted(pages1[b := pages1[b].(order := k)], heads, b)
  }

  /** The split loop on values, and the final mark; `n` turns at most. */
  function SplitRaw(pages: seq<Page>, heads: seq<Link>, p: nat, order: nat, n: nat): (seq<Page>, seq<Link>)
    requires p < |pages|
    decreases n
  {
    if n == 0 || pages[p].order <= order then (pages[p := pages[p].(state := Allocated)], heads)
    else if CanSplit(pages, heads, p) then
      var (pages', heads') := SplitPages(pages, heads, p);
      SplitKeepsLength(pages, heads, p);
      SplitRaw(pages', heads', p, order, n - 1)
    else (pages, heads)
  }

  /** The split neither reaches beyond the page array nor panics. */
  predicate CanSplit(pages: seq<Page>, heads: seq<Link>, p: nat)
    requires p < |pages|
  {
    && 0 < pages[p].order <= |heads| && p + Pow2(pages[p].order - 1) < |pages|
    && pages[p + Pow2(pages[p].order - 1)].state == Tail && InRange(heads[pages[p].order - 1], |pages|)
  }

  lemma {:induction false} CanSplitMade(pages: seq<Page>, heads: seq<Link>, p: nat)
    requires p < |pages| && 0 < pages[p].order <= |heads| && p + Pow2(pages[p].order - 1) < |pages|
    requires pages[p + Pow2(pages[p].order - 1)].state == Tail && InRange(heads[pages[p].order - 1], |pages|)
    ensures CanSplit(pages, heads, p)
  {
  }

  lemma {:induction false} SplitKeepsLength(pages: seq<Page>, heads: seq<Link>, p: nat)
    requires p < |pages| && CanSplit(pages, heads, p)
    ensures |SplitPages(pages, heads, p).0| == |pages|
  {
  }

  /** The search loop on values: the first list from `i` up that is not empty. */
  function FirstList(heads: seq<Link>, i: nat): (k: nat)
    ensures i <= k
    decreases |heads| - i
  {
    if i >= |heads| || heads[i].Pfn? then i else FirstList(heads, i + 1)
  }

  lemma {:induction false} SplitRawStep(pages: seq<Page>, heads: seq<Link>, p: nat, order: nat, n: nat)
    requires p < |pages|
    ensures pages[p].order <= order ==>
      SplitRaw(pages, heads, p, order, n) == (pages[p := pages[p].(state := Allocated)], heads)
    ensures n > 0 && pages[p].order > order && CanSplit(pages, heads, p) ==>
      var (pages', heads') := SplitPages(pages, heads, p);
      |pages'| == |pages| && SplitRaw(pages, heads, p, order, n) == SplitRaw(pages', heads', p, order, n - 1)
  {
    if CanSplit(pages, heads, p) { SplitKeepsLength(pages, heads, p); }
    hide SplitPages;
  }

  predicate Poppable(pages: seq<Page>, heads: seq<Link>, i: nat) {
    i < |heads| && heads[i].Pfn? && heads[i].pfn < |pages| && InRange(pages[heads[i].pfn].next, |pages|)
  }

  /** alloc_pages on values, whatever the lists look like; nothing happens where the code would follow a stray link. */
  function AllocRaw(pages: seq<Page>, heads: seq<Link>, order: nat): ((seq<Page>, seq<Link>), Link) {
    var i := FirstList(heads, order);
    if i >= |heads| then ((pages, heads), Null)
    else if Poppable(pages, heads, i) then
      var (pages', heads') := Popped(pages, heads, i);
      var p := heads[i].pfn;
      (SplitRaw(pages', heads', p, order, MAX_ORDER), Pfn(p))
    else ((pages, heads), Null)
  }

  lemma {:induction false} WorkingSplit(pages: seq<Page>, heads: seq<Link>, z: Zone, p: nat)
    requires Working(pages, heads, z, p) && z.live[p] > 0
    ensures z.live[p] <= MAX_ORDER && p < |pages| && pages[p].order == z.live[p]
    ensures var b := p + Pow2(z.live[p] - 1);
      b < |pages| && pages[b].state == Tail && InRange(heads[z.live[p] - 1], |pages|)
    ensures var (pages', heads') := SplitPages(pages, heads, p); Working(pages', heads', Split(z, p), p)
  {
    hide *;
    WorkingParts(pages, heads, z, p);
    WorkingShape(pages, heads, z, p);
    SplitZone(z, |pages|, p);
    SplitBuddyIsTail(pages, z, p);
    SplitShape(z, p);
    SplitLinks(pages, heads, z.lists, p, z.live[p] - 1);
    var (pages', heads') := SplitPages(pages, heads, p);
    OkTiling(Split(z, p), |pages|);
    MarksLength(pages, pages', {p, p + Pow2(z.live[p] - 1)});
    TilesSplit(pages, pages', z, p);
    WorkingMade(pages', heads', Split(z, p), p);
  }

  lemma {:induction false} WorkingParts(pages: seq<Page>, heads: seq<Link>, z: Zone, p: nat)
    requires Working(pages, heads, z, p)
    ensures Ok(z, |pages|) && Tiles(pages, z, p) && Linked(pages, heads, z.lists) && p in z.live
  {
  }

  lemma {:induction false} WorkingMade(pages: seq<Page>, heads: seq<Link>, z: Zone, p: nat)
    requires Ok(z, |pages|) && Tiles(pages, z, p) && Linked(pages, heads, z.lists) && p in z.live
    ensures Working(pages, heads, z, p)
  {
  }

  lemma {:induction false} OkTiling(z: Zone, n: nat)
    requires Ok(z, n)
    ensures Tiling(z, n)
  {
  }

  lemma {:induction false} MarksLength(pages: seq<Page>, pages': seq<Page>, except: set<nat>)
    requires MarksKept(pages, pages', except)
    ensures |pages'| == |pages|
  {
  }

  lemma {:induction false} SplitShape(z: Zone, p: nat)
    requires p in z.live && 0 < z.live[p] <= |z.lists|
    ensures var k := z.live[p] - 1; var z' := Split(z, p);
      z'.lists == z.lists[k := [p + Pow2(k)] + z.lists[k]] && p in z'.live && z'.live[p] == k
  {
  }

  lemma {:induction false} MiddleNotListed(z: Zone, n: nat, p: nat)
    requires Tiling(z, n) && p in z.live && 0 < z.live[p] <= MAX_ORDER
    ensures forall j :: 0 <= j < |z.lists| ==> p + Pow2(z.live[p] - 1) !in z.lists[j]
  {
    SplitFree(z, n, p);
    hide Tiling, Pow2, Split;
    forall j | 0 <= j < |z.lists| ensures p + Pow2(z.live[p] - 1) !in z.lists[j] {
      assert !Block(z, p + Pow2(z.live[p] - 1), j);
    }
  }

  lemma {:induction false} SplitZone(z: Zone, n: nat, p: nat)
    requires Ok(z, n) && p in z.live && z.live[p] > 0
    ensures z.live[p] <= MAX_ORDER && p + Pow2(z.live[p]) <= n
    ensures Separate(z.lists) && forall j :: 0 <= j < |z.lists| ==> p + Pow2(z.live[p] - 1) !in z.lists[j]
    ensures Ok(Split(z, p), n)
    ensures forall i: nat :: Covered(Split(z, p), i) <==> Covered(z, i)
  {
    OkTiling(z, n);
    LiveIsBlock(z, p);
    hide Ok, Tiling, Covered, Split, Separate, Block, Free, Pow2;
    OneBlockPerHead(z, n, p, z.live[p], 0);
    TilingSeparate(z, n);
    MiddleNotListed(z, n, p);
    SplitOk(z, n, p);
    forall i: nat ensures Covered(Split(z, p), i) <==> Covered(z, i) {
      SplitCovers(z, n, p, i);
    }
  }

  lemma {:induction false} SplitLinks(pages: seq<Page>, heads: seq<Link>, lists: seq<seq<nat>>, p: nat, k: nat)
    requires Linked(pages, heads, lists) && Separate(lists) && k < |lists|
    requires p < |pages| && pages[p].order == k + 1 && p + Pow2(k) < |pages|
    requires forall j :: 0 <= j < |lists| ==> p + Pow2(k) !in lists[j]
    ensures InRange(heads[k], |pages|)
    ensures var b := p + Pow2(k); var (pages', heads') := SplitPages(pages, heads, p);
      && Linked(pages', heads', lists[k := [b] + lists[k]])
      && MarksKept(pages, pages', {p, b})
      && pages'[p].state == pages[p].state && pages'[p].order == k
      && pages'[b].state == Buddy && pages'[b].order == k
  {
    var b := p + Pow2(k);
    var pages1 := pages[p := pages[p].(order := k)];
    var pages2 := pages1[b := pages1[b].(order := k)];
    PowPositive(k);
    hide Linked, Separate, Inserted, Pow2;
    LinkedKept(pages, pages2, heads, lists, {});
    InsertLinks(pages2, heads, lists, b);
    assert SplitPages(pages, heads, p) == Inserted(pages2, heads, b);
    hide SplitPages;
  }

  lemma {:induction false} PowPositive(k: nat)
    ensures Pow2(k) > 0
  {
  }

  /** Marking the split-off block allocated ends an allocation. */
  lemma {:induction false} SettledMark(pages: seq<Page>, heads: seq<Link>, z: Zone, p: nat)
    requires Working(pages, heads, z, p)
    ensures p < |pages|
    ensures Settled(pages[p := pages[p].(state := Allocated)], heads, z)
  {
    OneBlockPerHead(z, |pages|, p, z.live[p], 0);
    var pages' := pages[p := pages[p].(state := Allocated)];
    LinkedKept(pages, pages', heads, z.lists, {});
    TilesMark(pages, pages', z, p, p, -1);
  }

  /** Clearing the links and setting the free mark of a live block starts a free. */
  lemma {:induction false} WorkingMark(pages: seq<Page>, heads: seq<Link>, z: Zone, p: nat)
    requires Settled(pages, heads, z) && p in z.live
    ensures p < |pages|
    ensures Working(pages[p := pages[p].(state := Buddy, prev := Null, next := Null)], heads, z, p)
  {
    OneBlockPerHead(z, |pages|, p, z.live[p], 0);
    var pages' := pages[p := pages[p].(state := Buddy, prev := Null, next := Null)];
    NotOnLists(z, |pages|, p);
    LinkedKept(pages, pages', heads, z.lists, {p});
    TilesMark(pages, pages', z, p, -1, p);
  }

  /**
   One turn of the merge loop on values, with the free buddy `b` unlinked: `m` keeps the block, `o` becomes a tail.
   */
  function MergePages(pages: seq<Page>, heads: seq<Link>, b: nat, m: nat, o: nat): (seq<Page>, seq<Link>)
    requires b < |pages| && m < |pages| && o < |pages| && pages[b].order < |heads|
    requires InRange(pages[b].prev, |pages|) && InRange(pages[b].next, |pages|)
  {
    var (pages1, heads1) := Unlinked(pages, heads, b);
    var pages2 := pages1[o := pages1[o].(state := Tail)];
    (pages2[m := pages2[m].(order := pages2[m].order + 1)], heads1)
  }

  lemma {:induction false} WorkingMerge(pages: seq<Page>, heads: seq<Link>, z: Zone, p: nat)
    requires Working(pages, heads, z, p) && CanMerge(z, p)
    ensures var b := BuddyOf(p, z.live[p]);
      && 0 <= b < |pages| && p < |pages|
      && pages[b].order < |heads| && InRange(pages[b].prev, |pages|) && InRange(pages[b].next, |pages|)
    ensures var b := BuddyOf(p, z.live[p]); var m := MergedHead(p, z.live[p]); var o := if m == p then b else p;
      var (pages', heads') := MergePages(pages, heads, b, m, o);
      Working(pages', heads', Merge(z, p), m)
  {
    var k := z.live[p];
    var b: nat := BuddyOf(p, k);
    var m := MergedHead(p, k);
    var o := if m == p then b else p;
    WorkingShape(pages, heads, z, p);
    MergeZone(z, |pages|, p);
    assert PageOk(pages[b], z, b, p) && PageOk(pages[p], z, p, p);
    TilingSeparate(z, |pages|);
    hide Ok, Tiles, Linked, Separate, Covered, MarksKept, Merge;
    MergeLinks(pages, heads, z.lists, b, m, o);
    TilesMerge(pages, MergePages(pages, heads, b, m, o).0, z, p);
  }

  lemma {:induction false} MergeLinks(pages: seq<Page>, heads: seq<Link>, lists: seq<seq<nat>>, b: nat, m: nat, o: nat)
    requires Linked(pages, heads, lists) && Separate(lists) && b < |pages| && m < |pages| && o < |pages| && m != o
    requires pages[b].order < |lists| && pages[b].state == Buddy && b in lists[pages[b].order]
    requires pages[m].state == Buddy && pages[m].order == pages[b].order
    ensures pages[b].order < |heads| && InRange(pages[b].prev, |pages|) && InRange(pages[b].next, |pages|)
    ensures var (pages', heads') := MergePages(pages, heads, b, m, o); var k := pages[b].order;
      && Linked(pages', heads', lists[k := Without(lists[k], b)])
      && MarksKept(pages, pages', {m, o}) && pages'[m].state == Buddy && pages'[m].order == k + 1
      && pages'[o].state == Tail
  {
    UnlinkLinks(pages, heads, lists, b);
    var (pages1, heads1) := Unlinked(pages, heads, b);
    var (pages', heads') := MergePages(pages, heads, b, m, o);
    var k := pages[b].order;
    assert SameMark(pages[m], pages1[m]);
    LinkedKept(pages1, pages', heads1, lists[k := Without(lists[k], b)], {});
  }

  /** The zone after a merge. */
  lemma {:induction false} MergeZone(z: Zone, n: nat, p: nat)
    requires Ok(z, n) && p in z.live && CanMerge(z, p)
    ensures var b := BuddyOf(p, z.live[p]); var m := MergedHead(p, z.live[p]);
      && 0 <= b < n && b != p && (m == p || m == b) && Free(z, b, z.live[p]) && z.live[p] < MAX_ORDER
      && (m == p <==> Aligned(p, z.live[p] + 1))
      && Merge(z, p).lists == z.lists[z.live[p] := Without(z.lists[z.live[p]], b)]
      && m in Merge(z, p).live && Merge(z, p).live[m] == z.live[p] + 1
    ensures Ok(Merge(z, p), n)
    ensures forall i: nat :: Covered(Merge(z, p), i) <==> Covered(z, i)
  {
    MergeFree(z, n, p);
    MergeOk(z, n, p);
    OneBlockPerHead(z, n, BuddyOf(p, z.live[p]), z.live[p], 0);
    forall i: nat ensures Covered(Merge(z, p), i) <==> Covered(z, i) {
      MergeCovers(z, n, p, i);
    }
  }

  /** The side tests and the buddy test of the merge loop decide exactly whether a merge is possible. */
  lemma {:induction false} MergeChoice(pages: seq<Page>, heads: seq<Link>, z: Zone, p: nat)
    requires Working(pages, heads, z, p) && z.live[p] < MAX_ORDER
    ensures var k := z.live[p]; var b := BuddyOf(p, k);
      && p in z.live && p < |pages| && pages[p].order == k && b >= 0 && k < |z.lists|
      && (AlignmentOrder(p) > k ==> b == p + Pow2(k) && MergedHead(p, k) == p)
      && (AlignmentOrder(p) <= k ==> b == p - Pow2(k) && MergedHead(p, k) == b && b < |pages|)
      && (CanMerge(z, p) <==> b < |pages| && pages[b].state == Buddy && pages[b].order == k)
  {
    MergeTest(pages, z, p);
    AlignmentOrderAligned(p, z.live[p] + 1);
  }

  /** Inserting the merged block into its list ends a free. */
  lemma {:induction false} SettledGive(pages: seq<Page>, heads: seq<Link>, z: Zone, p: nat)
    requires Working(pages, heads, z, p) && !CanMerge(z, p)
    ensures p < |pages| && pages[p].order == z.live[p] < |heads| && InRange(heads[z.live[p]], |pages|)
    ensures var (pages', heads') := Inserted(pages, heads, p); Settled(pages', heads', Give(z, p))
  {
    var n, k := |pages|, z.live[p];
    OneBlockPerHead(z, n, p, k, 0);
    assert PageOk(pages[p], z, p, p);
    TilingSeparate(z, n);
    NotOnLists(z, n, p);
    InsertLinks(pages, heads, z.lists, p);
    GiveOk(z, n, p);
    GiveCovers(z, n, p);
    TilesGive(pages, z, p);
    var (pages', heads') := Inserted(pages, heads, p);
    TilesSame(pages, pages', Give(z, p), -1);
  }

  class BuddyAllocator {
    const memMap: array<Page>
    const freeMatrix: array<Link>
    ghost var zone: Zone

    /** mem_init: every page starts reserved, on no list. */
    constructor (nrPages: nat)
      ensures memMap.Length == nrPages && freeMatrix.Length == MAX_ORDER + 1
      ensures fresh(memMap) && fresh(freeMatrix)
      ensures forall i :: 0 <= i < nrPages ==> memMap[i] == Page(Reserved, 0, Null, Null)
      ensures forall k :: 0 <= k <= MAX_ORDER ==> freeMatrix[k] == Null
    {
      memMap := new Page[nrPages](_ => Page(Reserved, 0, Null, Null));
      freeMatrix := new Link[MAX_ORDER + 1](_ => Null);
    }

    ghost predicate Valid()
      reads this, memMap, freeMatrix
    {
      && freeMatrix.Length == MAX_ORDER + 1
      && Settled(memMap[..], freeMatrix[..], zone)
    }

    method InsertFree(page: nat)
      requires page < memMap.Length && memMap[page].order <= MAX_ORDER < freeMatrix.Length
      requires InRange(freeMatrix[memMap[page].order], memMap.Length)
      modifies memMap, freeMatrix
      ensures (memMap[..], freeMatrix[..]) == Inserted(old(memMap[..]), old(freeMatrix[..]), page)
    {
      var order := memMap[page].order;
      memMap[page] := memMap[page].(next := freeMatrix[order], prev := Null);
      if memMap[page].next.Pfn? {
        var next := memMap[page].next.pfn;
        memMap[next] := memMap[next].(prev := Pfn(page));
      }
      freeMatrix[order] := Pfn(page);
      memMap[page] := memMap[page].(state := Buddy);
    }

    method PopFree(order: nat) returns (page: Link)
      requires order <= MAX_ORDER < freeMatrix.Length
      requires freeMatrix[order].Pfn? ==>
        freeMatrix[order].pfn < memMap.Length && InRange(memMap[freeMatrix[order].pfn].next, memMap.Length)
      modifies memMap, freeMatrix
      ensures page == old(freeMatrix[order])
      ensures page.Null? ==> memMap[..] == old(memMap[..]) && freeMatrix[..] == old(freeMatrix[..])
      ensures page.Pfn? ==> (memMap[..], freeMatrix[..]) == Popped(old(memMap[..]), old(freeMatrix[..]), order)
    {
      page := freeMatrix[order];
      if page.Null? { return; }
      freeMatrix[order] := memMap[page.pfn].next;
      if freeMatrix[order].Pfn? {
        var next := freeMatrix[order].pfn;
        memMap[next] := memMap[next].(prev := Null);
      }
      memMap[page.pfn] := memMap[page.pfn].(next := Null, prev := Null);
    }

    method RemoveFree(page: nat)
      requires page < memMap.Length && memMap[page].order <= MAX_ORDER < freeMatrix.Length
      requires InRange(memMap[page].prev, memMap.Length) && InRange(memMap[page].next, memMap.Length)
      modifies memMap, freeMatrix
      ensures (memMap[..], freeMatrix[..]) == Unlinked(old(memMap[..]), old(freeMatrix[..]), page)
    {
      var order := memMap[page].order;
      if memMap[page].state != Buddy { return; }
      if memMap[page].prev.Null? && memMap[page].next.Null? && freeMatrix[order] != Pfn(page) { return; }
      if memMap[page].prev.Pfn? {
        var prev := memMap[page].prev.pfn;
        memMap[prev] := memMap[prev].(next := memMap[page].next);
      } else {
        freeMatrix[order] := memMap[page].next;
      }
      if memMap[page].next.Pfn? {
        var next := memMap[page].next.pfn;
        memMap[next] := memMap[next].(prev := memMap[page].prev);
      }
      memMap[page] := memMap[page].(next := Null, prev := Null);
    }

    method AllocPages(order: nat) returns (page: Link)
      requires Valid() && order <= MAX_ORDER
      modifies this, memMap, freeMatrix
      ensures Valid()
      ensures (zone, page) == Alloc(old(zone), order)
      ensures ((memMap[..], freeMatrix[..]), page) == AllocRaw(old(memMap[..]), old(freeMatrix[..]), order)
    {
      hide Settled, Working, SplitRaw, Popped;
      var i: nat;
      page, i := PopFirst(order);
      if page.Null? { return; }
      zone := Take(zone, i);
      SplitDown(page.pfn, order);
    }

    /** The search loop: pop the first list from `order` up that is not empty. */
    method PopFirst(order: nat) returns (page: Link, i: nat)
      requires Valid() && order <= MAX_ORDER
      modifies memMap, freeMatrix
      ensures |zone.lists| == MAX_ORDER + 1 && i == FirstNonEmpty(zone.lists, order)
      ensures page.Null? ==> i > MAX_ORDER && Valid()
      ensures page.Pfn? ==> i <= MAX_ORDER && page.pfn == zone.lists[i][0] && freeMatrix.Length == MAX_ORDER + 1
      ensures page.Pfn? ==> Working(memMap[..], freeMatrix[..], Take(zone, i), page.pfn)
      ensures i == FirstList(old(freeMatrix[..]), order)
      ensures page.Null? ==> memMap[..] == old(memMap[..]) && freeMatrix[..] == old(freeMatrix[..])
      ensures page.Pfn? ==> Poppable(old(memMap[..]), old(freeMatrix[..]), i) && page == old(freeMatrix[..])[i]
      ensures page.Pfn? ==> (memMap[..], freeMatrix[..]) == Popped(old(memMap[..]), old(freeMatrix[..]), i)
    {
      SettledShape(memMap[..], freeMatrix[..], zone);
      hide Settled, Working;
      page, i := Null, order;
      while i <= MAX_ORDER
        invariant order <= i <= MAX_ORDER + 1 && |zone.lists| == MAX_ORDER + 1 && page.Null?
        invariant Valid() && FirstNonEmpty(zone.lists, i) == FirstNonEmpty(zone.lists, order)
        invariant memMap[..] == old(memMap[..]) && freeMatrix[..] == old(freeMatrix[..])
        invariant FirstList(freeMatrix[..], i) == FirstList(old(freeMatrix[..]), order)
      {
        SettledHead(memMap[..], freeMatrix[..], zone, i);
        if zone.lists[i] != [] { WorkingPop(memMap[..], freeMatrix[..], zone, i); }
        page := PopFree(i);
        if page.Pfn? { return; }
        i := i + 1;
      }
    }

    /** The split loop: halve the block in hand down to `order`, keeping the left half. */
    method SplitDown(page: nat, order: nat)
      requires freeMatrix.Length == MAX_ORDER + 1
      requires Working(memMap[..], freeMatrix[..], zone, page) && order <= zone.live[page] <= |zone.lists|
      modifies this, memMap, freeMatrix
      ensures Settled(memMap[..], freeMatrix[..], zone) && zone == SplitTo(old(zone), page, order)
      ensures page < |old(memMap[..])|
      ensures (memMap[..], freeMatrix[..]) == SplitRaw(old(memMap[..]), old(freeMatrix[..]), page, order, MAX_ORDER)
    {
      hide *;
      ghost var n: nat := MAX_ORDER;
      WorkingShape(memMap[..], freeMatrix[..], zone, page);
      while memMap[page].order > order
        invariant page < memMap.Length && page in zone.live && |zone.lists| == MAX_ORDER + 1
        invariant memMap[page].order == zone.live[page] && order <= zone.live[page] <= MAX_ORDER
        invariant Working(memMap[..], freeMatrix[..], zone, page)
        invariant SplitTo(zone, page, order) == SplitTo(old(zone), page, order)
        invariant memMap[page].order <= n
        invariant SplitRaw(memMap[..], freeMatrix[..], page, order, n) ==
          SplitRaw(old(memMap[..]), old(freeMatrix[..]), page, order, MAX_ORDER)
        decreases memMap[page].order
      {
        SplitToStep(zone, page, order);
        SplitRawStep(memMap[..], freeMatrix[..], page, order, n);
        SplitOnce(page);
        n := n - 1;
      }
      SplitRawStep(memMap[..], freeMatrix[..], page, order, n);
      SplitToStep(zone, page, order);
      SettledMark(memMap[..], freeMatrix[..], zone, page);
      memMap[page] := memMap[page].(state := Allocated);
    }

    /** One turn of the split loop. The buddy is always a tail page, so the panic is not reached. */
    method SplitOnce(page: nat)
      requires freeMatrix.Length == MAX_ORDER + 1 && page < memMap.Length
      requires Working(memMap[..], freeMatrix[..], zone, page) && 0 < zone.live[page] <= |zone.lists|
      modifies this, memMap, freeMatrix
      ensures page in zone.live && |zone.lists| == MAX_ORDER + 1 && memMap[page].order == zone.live[page] <= MAX_ORDER
      ensures Working(memMap[..], freeMatrix[..], zone, page)
      ensures zone == Split(old(zone), page)
      ensures CanSplit(old(memMap[..]), old(freeMatrix[..]), page)
      ensures (memMap[..], freeMatrix[..]) == SplitPages(old(memMap[..]), old(freeMatrix[..]), page)
    {
      hide *;
      WorkingShape(memMap[..], freeMatrix[..], zone, page);
      WorkingSplit(memMap[..], freeMatrix[..], zone, page);
      CanSplitMade(memMap[..], freeMatrix[..], page);
      HalveBlock(page);
      zone := Split(zone, page);
      WorkingShape(memMap[..], freeMatrix[..], zone, page);
    }

    method HalveBlock(page: nat)
      requires page < memMap.Length && 0 < memMap[page].order <= MAX_ORDER < freeMatrix.Length
      requires var buddy := page + Pow2(memMap[page].order - 1); buddy < memMap.Length && memMap[buddy].state == Tail
      requires InRange(freeMatrix[memMap[page].order - 1], memMap.Length)
      modifies memMap, freeMatrix
      ensures (memMap[..], freeMatrix[..]) == SplitPages(old(memMap[..]), old(freeMatrix[..]), page)
    {
      memMap[page] := memMap[page].(order := memMap[page].order - 1);
      var buddy := page + Pow2(memMap[page].order);
      assert memMap[buddy].state == Tail;
      memMap[buddy] := memMap[buddy].(order := memMap[page].order);
      InsertFree(buddy);
    }

    /** One turn of the merge loop: absorb the free buddy of the block in hand, or report that there is none. */
    method MergeOnce(page: nat) returns (head: nat, merged: bool)
      requires page < memMap.Length && freeMatrix.Length == MAX_ORDER + 1
      requires Working(memMap[..], freeMatrix[..], zone, page) && memMap[page].order == zone.live[page] < MAX_ORDER
      requires |zone.lists| == MAX_ORDER + 1
      modifies this, memMap, freeMatrix
      ensures head < memMap.Length && Working(memMap[..], freeMatrix[..], zone, head)
      ensures head in zone.live && memMap[head].order == zone.live[head] <= MAX_ORDER && |zone.lists| == MAX_ORDER + 1
      ensures merged == old(CanMerge(zone, page))
      ensures merged ==> zone == Merge(old(zone), page) && head == MergedHead(page, old(zone).live[page])
      ensures !merged ==> zone == old(zone) && head == page
    {
      hide *;
      head, merged := page, false;
      MergeChoice(memMap[..], freeMatrix[..], zone, page);
      if AlignmentOrder(page) > memMap[page].order {
        var buddy := page + Pow2(memMap[page].order);
        if buddy < memMap.Length && memMap[buddy].state == Buddy && memMap[buddy].order == memMap[page].order {
          WorkingMerge(memMap[..], freeMatrix[..], zone, page);
          Absorb(buddy, page, buddy);
          zone, merged := Merge(zone, page), true;
        }
      } else {
        var buddy := page - Pow2(memMap[page].order);
        if memMap[buddy].state == Buddy && memMap[buddy].order == memMap[page].order {
          WorkingMerge(memMap[..], freeMatrix[..], zone, page);
          Absorb(buddy, buddy, page);
          zone, merged, head := Merge(zone, page), true, buddy;
        }
      }
      WorkingShape(memMap[..], freeMatrix[..], zone, head);
    }

    /** Unlink the free buddy, then let `head` take the joined block and make `tail` a tail page. */
    method Absorb(buddy: nat, head: nat, tail: nat)
      requires buddy < memMap.Length && head < memMap.Length && tail < memMap.Length
      requires memMap[buddy].order <= MAX_ORDER < freeMatrix.Length
      requires InRange(memMap[buddy].prev, memMap.Length) && InRange(memMap[buddy].next, memMap.Length)
      modifies memMap, freeMatrix
      ensures (memMap[..], freeMatrix[..]) == MergePages(old(memMap[..]), old(freeMatrix[..]), buddy, head, tail)
    {
      RemoveFree(buddy);
      memMap[tail] := memMap[tail].(state := Tail);
      memMap[head] := memMap[head].(order := memMap[head].order + 1);
    }

    /**
     free_pages with the left buddy unlinked from its list before it takes the merged block, as the
     right merge does; see FreePagesAsWritten for the code's own left merge.
     */
    method FreePages(page: nat)
      requires freeMatrix.Length == MAX_ORDER + 1 && Settled(memMap[..], freeMatrix[..], zone) && page < memMap.Length
      modifies this, memMap, freeMatrix
      ensures Settled(memMap[..], freeMatrix[..], zone)
      ensures zone == FreeBlock(old(zone), page)
    {
      hide *;
      SettledAt(memMap[..], freeMatrix[..], zone, page);
      if memMap[page].state != Allocated {
        FreeBlockCases(zone, page);
        return;
      }
      WorkingMark(memMap[..], freeMatrix[..], zone, page);
      memMap[page] := memMap[page].(state := Buddy, prev := Null, next := Null);

      var p: nat, merged := page, true;
      WorkingShape(memMap[..], freeMatrix[..], zone, p);
      FreeBlockCases(zone, page);
      while merged && memMap[p].order < MAX_ORDER
        invariant p < memMap.Length && freeMatrix.Length == |zone.lists| == MAX_ORDER + 1
        invariant Working(memMap[..], freeMatrix[..], zone, p)
        invariant p in zone.live && memMap[p].order == zone.live[p] <= MAX_ORDER
        invariant MergeAndGive(zone, p) == FreeBlock(old(zone), page)
        invariant !merged ==> !CanMerge(zone, p)
        decreases merged, MAX_ORDER - memMap[p].order
      {
        MergeAndGiveCases(zone, p);
        p, merged := MergeOnce(p);
      }
      MergeAndGiveCases(zone, p);
      SettledGive(memMap[..], freeMatrix[..], zone, p);
      zone := Give(zone, p);
      InsertFree(p);
    }
  }
}
