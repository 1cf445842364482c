/** buddy_init: mark the usable RAM pages free, then group them into maximal aligned blocks. */
module BuddyInit {
  import opened Arith
  import opened Zones
  import opened ZoneTheorems
  import opened Pages
  import opened Buddy

  // ----- Counting marked pages

  function Count(mask: seq<bool>, i: nat): nat
    requires i <= |mask|
  {
    if i == 0 then 0 else Count(mask, i - 1) + if mask[i - 1] then 1 else 0
  }

  lemma {:induction false} CountStep(mask: seq<bool>, i: nat)
    requires i <= |mask|
    ensures Count(mask, i) == if i == 0 then 0 else Count(mask, i - 1) + if mask[i - 1] then 1 else 0
  {
  }

  lemma {:induction false} CountRun(mask: seq<bool>, i: nat, m: nat)
    requires i + m <= |mask| && forall j :: i <= j < i + m ==> mask[j]
    ensures Count(mask, i + m) == Count(mask, i) + m
    decreases m
  {
    if m > 0 { CountRun(mask, i, m - 1); }
  }

  /** Turning on one run of pages that were off adds its length. */
  lemma {:induction false} CountMark(mask: seq<bool>, mask': seq<bool>, s: nat, e: nat, i: nat)
    requires s <= e && i <= |mask| == |mask'|
    requires forall j :: 0 <= j < |mask| ==> (mask'[j] <==> mask[j] || s <= j < e)
    requires forall j :: s <= j < e && j < |mask| ==> !mask[j]
    ensures Count(mask', i) == Count(mask, i) + if i <= s then 0 else if i <= e then i - s else e - s
    decreases i
  {
    if i > 0 { CountMark(mask, mask', s, e, i - 1); }
  }

  ghost function MaskOf(pages: seq<Page>): (mask: seq<bool>)
    ensures |mask| == |pages| && forall j :: 0 <= j < |pages| ==> (mask[j] <==> pages[j].state == Buddy)
  {
    seq(|pages|, j requires 0 <= j < |pages| => pages[j].state == Buddy)
  }

  // ----- Grouping

  /** No free block below the maximum order could have been taken twice as large to the right. */
  ghost predicate Maximal(z: Zone, mask: seq<bool>) {
    forall h: nat, k: nat :: Free(z, h, k) ==> MaximalAt(mask, h, k)
  }

  ghost predicate MaximalAt(mask: seq<bool>, h: nat, k: nat) {
    k < MAX_ORDER && Aligned(h, k + 1) ==> !AllSet(mask, h, k + 1)
  }

  /** Every free block ends at or before page `i`. */
  ghost predicate EndsBy(z: Zone, i: nat) {
    forall h: nat, k: nat :: Free(z, h, k) ==> h + Pow2(k) <= i
  }

  ghost predicate AllSet(mask: seq<bool>, h: nat, k: nat) {
    h + Pow2(k) <= |mask| && forall j :: h <= j < h + Pow2(k) ==> mask[j]
  }

  /** Pages below `i` are grouped into the blocks of `z`; from `i` on they carry their first marks. */
  ghost predicate Grouped(pages: seq<Page>, heads: seq<Link>, z: Zone, mask: seq<bool>, i: nat) {
    && i <= |pages| == |mask|
    && z.live == map[] && Tiling(z, |pages|)
    && EndsBy(z, i)
    && (forall j :: 0 <= j < i ==> PageOk(pages[j], z, j, -1) && (Covered(z, j) <==> mask[j]))
    && (forall j :: i <= j < |pages| ==> pages[j].state == if mask[j] then Buddy else Reserved)
    && Linked(pages, heads, z.lists)
    && Maximal(z, mask)
  }

  const Empty: Zone := Zone(seq(MAX_ORDER + 1, _ => []), map[])

  lemma {:induction false} EmptyHasNoBlocks()
    ensures |Empty.lists| == MAX_ORDER + 1
    ensures forall i: nat, k: nat :: !Free(Empty, i, k)
    ensures forall i: nat, k: nat :: !Block(Empty, i, k)
    ensures forall i: nat :: !Covered(Empty, i)
    ensures forall n: nat :: Ok(Empty, n)
  {
    assert forall i: nat, k: nat :: !Free(Empty, i, k);
    assert forall i: nat, k: nat :: !Block(Empty, i, k);
  }

  lemma {:induction false} GroupedStart(pages: seq<Page>, heads: seq<Link>, mask: seq<bool>)
    requires |mask| == |pages| && |heads| == MAX_ORDER + 1 && forall k :: 0 <= k <= MAX_ORDER ==> heads[k] == Null
    requires forall j :: 0 <= j < |pages| ==> pages[j].state == if mask[j] then Buddy else Reserved
    ensures Grouped(pages, heads, Empty, mask, 0)
  {
    EmptyHasNoBlocks();
    assert forall k :: 0 <= k <= MAX_ORDER ==> Empty.lists[k] == [];
  }

  lemma {:induction false} GroupedNext(pages: seq<Page>, heads: seq<Link>, z: Zone, mask: seq<bool>, i: nat)
    requires Grouped(pages, heads, z, mask, i) && i < |pages|
    ensures |mask| == |pages| && pages[i].state == if mask[i] then Buddy else Reserved
  {
  }

  lemma {:induction false} GroupSkip(pages: seq<Page>, heads: seq<Link>, z: Zone, mask: seq<bool>, i: nat)
    requires Grouped(pages, heads, z, mask, i) && i < |pages| && !mask[i]
    ensures Grouped(pages, heads, z, mask, i + 1)
  {
    NothingFrom(z, i);
  }

  lemma {:induction false} NothingFrom(z: Zone, i: nat)
    requires z.live == map[] && EndsBy(z, i)
    ensures !Covered(z, i) && forall k: nat :: !Block(z, i, k)
    ensures forall j: nat, k: nat :: i <= j ==> !Free(z, j, k)
  {
    forall h: nat, k: nat ensures !(Block(z, h, k) && Within(i, h, k)) {
      assert Block(z, h, k) ==> Free(z, h, k);
    }
  }

  function AddBlock(z: Zone, i: nat, o: nat): Zone
    requires o < |z.lists|
  {
    Zone(z.lists[o := [i] + z.lists[o]], z.live)
  }

  lemma {:induction false} AddBlockZone(z: Zone, n: nat, i: nat, o: nat)
    requires Tiling(z, n) && z.live == map[] && o <= MAX_ORDER && Aligned(i, o) && i + Pow2(o) <= n
    requires EndsBy(z, i)
    ensures var z' := AddBlock(z, i, o);
      && Tiling(z', n) && z'.live == map[]
      && (forall h: nat, k: nat :: Free(z', h, k) <==> Free(z, h, k) || (h == i && k == o))
      && (forall h: nat, k: nat :: Block(z', h, k) <==> Block(z, h, k) || (h == i && k == o))
  {
    NothingFrom(z, i);
    assert !Block(z, i, o);
    PushMembers(z.lists[o], i);
    var z' := AddBlock(z, i, o);
    forall h: nat, s: nat, j: nat, l: nat | Block(z', h, s) && Block(z', j, l) && Within(j, h, s)
      ensures h == j && s == l
    {
      assert Block(z, h, s) || (h == i && s == o);
      assert Block(z, j, l) || (j == i && l == o);
      assert Block(z, h, s) ==> Free(z, h, s);
      assert Block(z, j, l) ==> Free(z, j, l);
    }
  }

  lemma {:induction false} AddBlockCovers(z: Zone, n: nat, i: nat, o: nat, j: nat)
    requires Tiling(z, n) && z.live == map[] && o <= MAX_ORDER && Aligned(i, o) && i + Pow2(o) <= n
    requires EndsBy(z, i)
    ensures Covered(AddBlock(z, i, o), j) <==> Covered(z, j) || Within(j, i, o)
  {
    AddBlockZone(z, n, i, o);
    var z' := AddBlock(z, i, o);
    assert Block(z', i, o);
    if Covered(z, j) {
      var h: nat, k: nat :| Block(z, h, k) && Within(j, h, k);
      assert Block(z', h, k);
    }
    if Covered(z', j) {
      var h: nat, k: nat :| Block(z', h, k) && Within(j, h, k);
      assert Block(z, h, k) || (h == i && k == o);
    }
  }

  /** The run found at `i` gives a block that is aligned, entirely marked, and as large as it can be. */
  lemma {:induction false} RunOrder(mask: seq<bool>, i: nat, j: nat)
    requires i < j <= |mask| && j <= i + Pow2(AlignmentOrder(i))
    requires forall m :: i <= m < j ==> mask[m]
    requires j < i + Pow2(AlignmentOrder(i)) ==> j == |mask| || !mask[j]
    ensures var o := HighestBit(j - i);
      && o <= MAX_ORDER && Aligned(i, o) && i + Pow2(o) <= j
      && MaximalAt(mask, i, o)
  {
    var o, a := HighestBit(j - i), AlignmentOrder(i);
    HighestBitBounds(j - i);
    OrderFits(j - i, a);
    AlignmentOrderAligned(i, o);
    if o < MAX_ORDER {
      AlignmentOrderAligned(i, o + 1);
      if o + 1 <= a { Pow2Monotone(o + 1, a); }
      assert AllSet(mask, i, o + 1) && j < i + Pow2(o + 1) ==> j < |mask| && mask[j];
    }
  }

  lemma {:induction false} OrderFits(len: nat, a: nat)
    requires 0 < len <= Pow2(a)
    ensures HighestBit(len) <= a
    decreases a
  {
    if len > 1 { OrderFits(len / 2, a - 1); }
  }

  /** Marks and links after the block of order `o` at `i` has been made and inserted. */
  lemma {:induction false} GroupStep(pages: seq<Page>, pages1: seq<Page>, heads: seq<Link>, z: Zone, mask: seq<bool>,
                                     i: nat, o: nat)
    requires Grouped(pages, heads, z, mask, i) && o <= MAX_ORDER && Aligned(i, o)
    requires i + Pow2(o) <= |pages| && AllSet(mask, i, o) && MaximalAt(mask, i, o)
    requires pages1 == BlockMade(pages, i, o)
    ensures InRange(heads[o], |pages|) && pages1[i].order == o
    ensures var (pages', heads') := Inserted(pages1, heads, i);
      Grouped(pages', heads', AddBlock(z, i, o), mask, i + Pow2(o))
  {
    hide *;
    GroupedParts(pages, heads, z, mask, i);
    AddBlockZone(z, |pages|, i, o);
    AddBlockBounds(z, AddBlock(z, i, o), mask, i, o);
    GroupLinks(pages, pages1, heads, z, i, o);
    var (pages', heads') := Inserted(pages1, heads, i);
    GroupMarks(pages, pages', z, mask, i, o);
    RestKept(pages, pages', mask, i + Pow2(o));
    GroupedMade(pages', heads', AddBlock(z, i, o), mask, i + Pow2(o));
  }

  lemma {:induction false} GroupedParts(pages: seq<Page>, heads: seq<Link>, z: Zone, mask: seq<bool>, i: nat)
    requires Grouped(pages, heads, z, mask, i)
    ensures i <= |pages| == |mask| && z.live == map[] && Tiling(z, |pages|) && EndsBy(z, i)
    ensures Linked(pages, heads, z.lists)
    ensures |z.lists| == |heads| == MAX_ORDER + 1 && Maximal(z, mask)
    ensures forall j :: 0 <= j < i ==> PageOk(pages[j], z, j, -1) && (Covered(z, j) <==> mask[j])
    ensures forall j :: i <= j < |pages| ==> pages[j].state == if mask[j] then Buddy else Reserved
  {
  }

  lemma {:induction false} GroupedMade(pages: seq<Page>, heads: seq<Link>, z: Zone, mask: seq<bool>, i: nat)
    requires i <= |pages| == |mask| && z.live == map[] && Tiling(z, |pages|) && EndsBy(z, i)
    requires Linked(pages, heads, z.lists)
    requires Maximal(z, mask)
    requires forall j :: 0 <= j < i ==> PageOk(pages[j], z, j, -1) && (Covered(z, j) <==> mask[j])
    requires forall j :: i <= j < |pages| ==> pages[j].state == if mask[j] then Buddy else Reserved
    ensures Grouped(pages, heads, z, mask, i)
  {
  }

  lemma {:induction false} RestKept(pages: seq<Page>, pages': seq<Page>, mask: seq<bool>, i: nat)
    requires |pages| == |pages'| == |mask|
    requires forall j :: i <= j < |pages| ==> pages[j].state == if mask[j] then Buddy else Reserved
    requires forall j :: i <= j < |pages| ==> SameMark(pages[j], pages'[j])
    ensures forall j :: i <= j < |pages| ==> pages'[j].state == if mask[j] then Buddy else Reserved
  {
    assert forall j :: i <= j < |pages| ==> SameMark(pages[j], pages'[j]);
  }

  lemma {:induction false} AddBlockBounds(z: Zone, z': Zone, mask: seq<bool>, i: nat, o: nat)
    requires EndsBy(z, i) && Maximal(z, mask) && MaximalAt(mask, i, o)
    requires forall h: nat, k: nat :: Free(z', h, k) <==> Free(z, h, k) || (h == i && k == o)
    ensures EndsBy(z', i + Pow2(o)) && Maximal(z', mask)
  {
    hide MaximalAt;
  }

  lemma {:induction false} GroupLinks(pages: seq<Page>, pages1: seq<Page>, heads: seq<Link>, z: Zone, i: nat, o: nat)
    requires Tiling(z, |pages|) && Linked(pages, heads, z.lists) && o <= MAX_ORDER && i + Pow2(o) <= |pages|
    requires z.live == map[] && EndsBy(z, i)
    requires pages1 == BlockMade(pages, i, o)
    ensures InRange(heads[o], |pages|) && pages1[i].order == o
    ensures var (pages', heads') := Inserted(pages1, heads, i);
      && |pages'| == |pages| && Linked(pages', heads', AddBlock(z, i, o).lists)
      && pages'[i].state == Buddy && pages'[i].order == o
      && (forall j :: i < j < i + Pow2(o) ==> pages'[j].state == Tail)
      && (forall j :: 0 <= j < |pages| && !(i <= j < i + Pow2(o)) ==> SameMark(pages[j], pages'[j]))
  {
    NothingFrom(z, i);
    LinkedKept(pages, pages1, heads, z.lists, {});
    TilingSeparate(z, |pages|);
    NotOnLists(z, |pages|, i);
    InsertLinks(pages1, heads, z.lists, i);
    var pages' := Inserted(pages1, heads, i).0;
    assert MarksKept(pages1, pages', {i});
    forall j | i < j < i + Pow2(o) ensures pages'[j].state == Tail {
      assert SameMark(pages1[j], pages'[j]);
    }
  }

  lemma {:induction false} GroupMarks(pages: seq<Page>, pages': seq<Page>, z: Zone, mask: seq<bool>, i: nat, o: nat)
    requires Tiling(z, |pages|) && z.live == map[] && o <= MAX_ORDER && Aligned(i, o) && |mask| == |pages'| == |pages|
    requires EndsBy(z, i)
    requires AllSet(mask, i, o) && i + Pow2(o) <= |pages|
    requires forall j :: 0 <= j < i ==> PageOk(pages[j], z, j, -1) && (Covered(z, j) <==> mask[j])
    requires pages'[i].state == Buddy && pages'[i].order == o
    requires forall j :: i < j < i + Pow2(o) ==> pages'[j].state == Tail
    requires forall j :: 0 <= j < i ==> SameMark(pages[j], pages'[j])
    ensures forall j :: 0 <= j < i + Pow2(o) ==>
      PageOk(pages'[j], AddBlock(z, i, o), j, -1) && (Covered(AddBlock(z, i, o), j) <==> mask[j])
  {
    var z' := AddBlock(z, i, o);
    NothingFrom(z, i);
    AddBlockZone(z, |pages|, i, o);
    forall j | 0 <= j < i + Pow2(o)
      ensures PageOk(pages'[j], z', j, -1) && (Covered(z', j) <==> mask[j])
    {
      AddBlockCovers(z, |pages|, i, o, j);
      if j < i {
        assert !Within(j, i, o);
        PageOkKept(pages[j], pages'[j], z, z', j, -1, -1);
      } else {
        assert forall k: nat :: !Free(z, j, k);
      }
    }
  }

  /** A fully grouped array is a valid allocator state whose free pages are the marked ones. */
  lemma {:induction false} GroupedEnd(pages: seq<Page>, heads: seq<Link>, z: Zone, mask: seq<bool>)
    requires Grouped(pages, heads, z, mask, |pages|)
    ensures Settled(pages, heads, z)
    ensures forall i: nat :: FreeAt(z, i) <==> i < |mask| && mask[i]
  {
    forall i: nat ensures FreeAt(z, i) <==> i < |mask| && mask[i] {
      FreeAtIffNotLive(z, |pages|, i);
      if FreeAt(z, i) {
        var h: nat, k: nat :| Free(z, h, k) && Within(i, h, k);
      }
    }
    forall i: nat, k: nat | k < MAX_ORDER && Free(z, i, k)
      ensures !FreeInt(z, BuddyOf(i, k), k)
    {
      if FreeInt(z, BuddyOf(i, k), k) {
        GroupedBuddies(z, |pages|, mask, i, BuddyOf(i, k), k);
        assert false;
      }
    }
  }

  lemma {:induction false} GroupedBuddies(z: Zone, n: nat, mask: seq<bool>, i: nat, b: nat, k: nat)
    requires Tiling(z, n) && n == |mask| && k < MAX_ORDER && b == BuddyOf(i, k) && Free(z, i, k) && Free(z, b, k)
    requires forall i: nat :: FreeAt(z, i) <==> i < |mask| && mask[i]
    ensures !Maximal(z, mask)
  {
    OneBlockPerHead(z, n, i, k, 0);
    OneBlockPerHead(z, n, b, k, 0);
    BuddyPair(i, k);
    var h := if i < b then i else b;
    assert Aligned(h, k + 1) && Free(z, h, k) && (Maximal(z, mask) ==> MaximalAt(mask, h, k));
    forall j | h <= j < h + Pow2(k + 1) ensures mask[j] {
      assert Within(j, i, k) || Within(j, b, k);
      assert FreeAt(z, j);
    }
  }

  method Group(a: BuddyAllocator) returns (accounted: nat)
    requires a.freeMatrix.Length == MAX_ORDER + 1
    requires forall k :: 0 <= k <= MAX_ORDER ==> a.freeMatrix[..][k] == Null
    requires forall j :: 0 <= j < a.memMap.Length ==>
      a.memMap[..][j].state == Buddy || a.memMap[..][j].state == Reserved
    modifies a, a.memMap, a.freeMatrix
    ensures a.Valid() && a.zone.live == map[]
    ensures forall i: nat :: FreeAt(a.zone, i) <==> i < a.memMap.Length && old(a.memMap[..])[i].state == Buddy
    ensures accounted == Count(MaskOf(old(a.memMap[..])), a.memMap.Length)
  {
    ghost var mask := MaskOf(a.memMap[..]);
    accounted := GroupAll(a, mask);
    GroupedEnd(a.memMap[..], a.freeMatrix[..], a.zone, mask);
  }

  method GroupAll(a: BuddyAllocator, ghost mask: seq<bool>) returns (accounted: nat)
    requires a.freeMatrix.Length == MAX_ORDER + 1 && |mask| == a.memMap.Length
    requires forall k :: 0 <= k <= MAX_ORDER ==> a.freeMatrix[..][k] == Null
    requires forall j :: 0 <= j < a.memMap.Length ==> a.memMap[..][j].state == if mask[j] then Buddy else Reserved
    modifies a, a.memMap, a.freeMatrix
    ensures Grouped(a.memMap[..], a.freeMatrix[..], a.zone, mask, a.memMap.Length)
    ensures accounted == Count(mask, a.memMap.Length)
  {
    hide *;
    a.zone := Empty;
    GroupedStart(a.memMap[..], a.freeMatrix[..], mask);
    accounted := 0;
    CountStep(mask, 0);
    var i := 0;
    while i < a.memMap.Length
      invariant 0 <= i <= a.memMap.Length == |mask|
      invariant Grouped(a.memMap[..], a.freeMatrix[..], a.zone, mask, i)
      invariant accounted == Count(mask, i)
    {
      GroupedNext(a.memMap[..], a.freeMatrix[..], a.zone, mask, i);
      if a.memMap[i].state != Buddy {
        GroupSkip(a.memMap[..], a.freeMatrix[..], a.zone, mask, i);
        CountStep(mask, i + 1);
        i := i + 1;
      } else {
        var size := GroupBlock(a, i, mask);
        accounted := accounted + size;
        i := i + size;
      }
    }
  }

  /** One turn of the grouping loop: the largest block that can start at the marked page `i`. */
  method GroupBlock(a: BuddyAllocator, i: nat, ghost mask: seq<bool>) returns (size: nat)
    requires a.freeMatrix.Length == MAX_ORDER + 1 && i < a.memMap.Length
    requires Grouped(a.memMap[..], a.freeMatrix[..], a.zone, mask, i) && mask[i]
    modifies a, a.memMap, a.freeMatrix
    ensures 0 < size && i + size <= a.memMap.Length && Count(mask, i + size) == Count(mask, i) + size
    ensures Grouped(a.memMap[..], a.freeMatrix[..], a.zone, mask, i + size)
  {
    hide *;
    ghost var pages := a.memMap[..];
    GroupedNext(pages, a.freeMatrix[..], a.zone, mask, i);
    var j := FindRun(a, i);
    assert a.memMap[..] == pages;
    GroupedRun(pages, a.freeMatrix[..], a.zone, mask, i, j);
    var order := HighestBit(j - i);
    size := Pow2(order);
    AllSetCount(mask, i, order);
    MakeBlock(a, i, order);
    GroupStep(pages, a.memMap[..], a.freeMatrix[..], a.zone, mask, i, order);
    a.InsertFree(i);
    a.zone := AddBlock(a.zone, i, order);
  }

  /** The marked run that starts at `i`, cut off at the alignment of `i`. */
  lemma {:induction false} AllSetCount(mask: seq<bool>, i: nat, o: nat)
    requires AllSet(mask, i, o)
    ensures i + Pow2(o) <= |mask| && Count(mask, i + Pow2(o)) == Count(mask, i) + Pow2(o)
  {
    CountRun(mask, i, Pow2(o));
  }

  method FindRun(a: BuddyAllocator, i: nat) returns (j: nat)
    requires i < a.memMap.Length && a.memMap[i].state == Buddy
    ensures i < j <= a.memMap.Length && j <= i + Pow2(AlignmentOrder(i))
    ensures forall m :: i <= m < j ==> a.memMap[..][m].state == Buddy
    ensures j < i + Pow2(AlignmentOrder(i)) ==> j == a.memMap.Length || a.memMap[..][j].state != Buddy
  {
    var most := Pow2(AlignmentOrder(i));
    var end := if i + most <= a.memMap.Length then i + most else a.memMap.Length;
    j := i;
    while j < end && a.memMap[j].state == Buddy
      invariant i <= j <= end
      invariant forall m :: i <= m < j ==> a.memMap[m].state == Buddy
    {
      j := j + 1;
    }
  }

  /** Set the order of the head `i` and turn the rest of the block into tails. */
  method MakeBlock(a: BuddyAllocator, i: nat, order: nat)
    requires i + Pow2(order) <= a.memMap.Length
    modifies a.memMap
    ensures a.memMap[..] == BlockMade(old(a.memMap[..]), i, order)
    ensures a.freeMatrix[..] == old(a.freeMatrix[..])
  {
    ghost var pages := a.memMap[..];
    a.memMap[i] := a.memMap[i].(order := order);
    var j := i + 1;
    while j < i + Pow2(order)
      invariant i < j <= i + Pow2(order)
      invariant forall m :: 0 <= m < a.memMap.Length ==>
        a.memMap[m] == if m == i then pages[m].(order := order) else if i < m < j then pages[m].(state := Tail)
                       else pages[m]
    {
      a.memMap[j] := a.memMap[j].(state := Tail);
      j := j + 1;
    }
  }

  ghost function BlockMade(pages: seq<Page>, i: nat, order: nat): (r: seq<Page>)
    ensures |r| == |pages|
  {
    seq(|pages|, m requires 0 <= m < |pages| =>
      if m == i then pages[m].(order := order)
      else if i < m < i + Pow2(order) then pages[m].(state := Tail) else pages[m])
  }

  lemma {:induction false} GroupedRun(pages: seq<Page>, heads: seq<Link>, z: Zone, mask: seq<bool>, i: nat, j: nat)
    requires Grouped(pages, heads, z, mask, i) && i < j <= |pages| && j <= i + Pow2(AlignmentOrder(i))
    requires forall m :: i <= m < j ==> pages[m].state == Buddy
    requires j < i + Pow2(AlignmentOrder(i)) ==> j == |pages| || pages[j].state != Buddy
    ensures var o := HighestBit(j - i);
      && o <= MAX_ORDER && o < |z.lists| && Aligned(i, o) && i + Pow2(o) <= |pages| && AllSet(mask, i, o)
      && MaximalAt(mask, i, o)
  {
    assert forall m :: i <= m < j ==> mask[m];
    RunOrder(mask, i, j);
  }
}
