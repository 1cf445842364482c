/** What every run of allocations and frees keeps, and when an allocation can fail. */
module ZoneTheorems {
  import opened Arith
  import opened Zones

  // ----- Allocation

  lemma {:induction false} SplitToOk(z: Zone, n: nat, p: nat, k: nat)
    requires Ok(z, n) && p in z.live && k <= z.live[p]
    ensures z.live[p] <= MAX_ORDER
    ensures Ok(SplitTo(z, p, k), n)
    ensures forall i: nat :: Covered(SplitTo(z, p, k), i) <==> Covered(z, i)
    decreases z.live[p]
  {
    OneBlockPerHead(z, n, p, z.live[p], 0);
    if z.live[p] > k {
      SplitOk(z, n, p);
      forall i: nat ensures Covered(Split(z, p), i) <==> Covered(z, i) {
        SplitCovers(z, n, p, i);
      }
      SplitToOk(Split(z, p), n, p, k);
    }
  }

  lemma {:induction false} TakeCovers(z: Zone, n: nat, k: nat)
    requires Tiling(z, n) && k < |z.lists| && z.lists[k] != []
    ensures forall i: nat :: Covered(Take(z, k), i) <==> Covered(z, i)
  {
    TakeFree(z, n, k);
    var z' := Take(z, k);
    forall i: nat ensures Covered(z', i) <==> Covered(z, i) {
      if Covered(z, i) {
        var h: nat, l: nat :| Block(z, h, l) && Within(i, h, l);
        assert Block(z', h, l);
      }
      if Covered(z', i) {
        var h: nat, l: nat :| Block(z', h, l) && Within(i, h, l);
        assert Block(z, h, l);
      }
    }
  }

  /** A successful allocation of order `k` adds exactly one live block, of order `k`, and keeps everything else. */
  lemma {:induction false} AllocOk(z: Zone, n: nat, k: nat)
    requires Ok(z, n) && k <= MAX_ORDER
    ensures var (z', r) := Alloc(z, k);
      && Ok(z', n)
      && (forall i: nat :: Covered(z', i) <==> Covered(z, i))
      && (r.Null? ==> z' == z)
      && (r.Pfn? ==> r.pfn !in z.live && z'.live == z.live[r.pfn := k])
  {
    var i := FirstNonEmpty(z.lists, k);
    if i <= MAX_ORDER {
      TakeFree(z, n, i);
      TakeOk(z, n, i);
      TakeCovers(z, n, i);
      SplitToOk(Take(z, i), n, z.lists[i][0], k);
    }
  }

  // ----- Freeing

  lemma {:induction false} GiveCovers(z: Zone, n: nat, p: nat)
    requires Tiling(z, n) && p in z.live
    ensures z.live[p] <= MAX_ORDER
    ensures forall i: nat :: Covered(Give(z, p), i) <==> Covered(z, i)
  {
    GiveFree(z, n, p);
    var z' := Give(z, p);
    forall i: nat ensures Covered(z', i) <==> Covered(z, i) {
      if Covered(z, i) {
        var h: nat, l: nat :| Block(z, h, l) && Within(i, h, l);
        assert Block(z', h, l);
      }
      if Covered(z', i) {
        var h: nat, l: nat :| Block(z', h, l) && Within(i, h, l);
        assert Block(z, h, l);
      }
    }
  }

  lemma {:induction false} MergeAndGiveOk(z: Zone, n: nat, p: nat)
    requires Ok(z, n) && p in z.live
    ensures z.live[p] <= MAX_ORDER
    ensures Ok(MergeAndGive(z, p), n)
    ensures forall i: nat :: Covered(MergeAndGive(z, p), i) <==> Covered(z, i)
    ensures MergeAndGive(z, p).live == z.live - {p}
    decreases MAX_ORDER - z.live[p]
  {
    OneBlockPerHead(z, n, p, z.live[p], 0);
    if CanMerge(z, p) {
      MergeFree(z, n, p);
      MergeOk(z, n, p);
      forall i: nat ensures Covered(Merge(z, p), i) <==> Covered(z, i) {
        MergeCovers(z, n, p, i);
      }
      var m := MergedHead(p, z.live[p]);
      assert m == p || Free(z, m, z.live[p]);
      assert (z.live - {p})[m := z.live[p] + 1] - {m} == z.live - {p};
      MergeAndGiveOk(Merge(z, p), n, m);
    } else {
      GiveOk(z, n, p);
      GiveCovers(z, n, p);
    }
  }

  /** Freeing removes exactly the named live block, or nothing when the page heads no live block. */
  lemma {:induction false} FreeOk(z: Zone, n: nat, p: nat)
    requires Ok(z, n)
    ensures Ok(FreeBlock(z, p), n)
    ensures forall i: nat :: Covered(FreeBlock(z, p), i) <==> Covered(z, i)
    ensures FreeBlock(z, p).live == z.live - {p}
    ensures p !in z.live ==> FreeBlock(z, p) == z
  {
    if p in z.live {
      MergeAndGiveOk(z, n, p);
    }
  }

  // ----- Free pages are the covered pages outside live blocks

  lemma {:induction false} BlocksMeet(z: Zone, n: nat, h: nat, k: nat, g: nat, l: nat, i: nat)
    requires Tiling(z, n) && Block(z, h, k) && Block(z, g, l)
    requires Within(i, h, k) && Within(i, g, l)
    ensures h == g && k == l
  {
    assert Within(g, h, k) || Within(h, g, l);
  }

  lemma {:induction false} FreeAtIffNotLive(z: Zone, n: nat, i: nat)
    requires Tiling(z, n)
    ensures FreeAt(z, i) <==> Covered(z, i) && !LiveAt(z, i)
    ensures LiveAt(z, i) ==> Covered(z, i)
  {
    if FreeAt(z, i) {
      var h: nat, k: nat :| Free(z, h, k) && Within(i, h, k);
      assert Block(z, h, k);
      if LiveAt(z, i) {
        var g: nat, l: nat :| Live(z, g, l) && Within(i, g, l);
        BlocksMeet(z, n, h, k, g, l, i);
        assert false;
      }
    }
    if LiveAt(z, i) {
      var g: nat, l: nat :| Live(z, g, l) && Within(i, g, l);
      assert Block(z, g, l);
    }
  }

  /** Two zones over the same managed pages with the same live blocks have the same free pages. */
  lemma {:induction false} SameLiveSameFree(z: Zone, z': Zone, n: nat)
    requires Tiling(z, n) && Tiling(z', n) && z.live == z'.live
    requires forall i: nat :: Covered(z', i) <==> Covered(z, i)
    ensures forall i: nat :: FreeAt(z', i) <==> FreeAt(z, i)
  {
    forall i: nat ensures FreeAt(z', i) <==> FreeAt(z, i) {
      FreeAtIffNotLive(z, n, i);
      FreeAtIffNotLive(z', n, i);
      assert LiveAt(z, i) <==> LiveAt(z', i) by {
        if LiveAt(z, i) {
          var h: nat, k: nat :| Live(z, h, k) && Within(i, h, k);
          assert Live(z', h, k);
        }
        if LiveAt(z', i) {
          var h: nat, k: nat :| Live(z', h, k) && Within(i, h, k);
          assert Live(z, h, k);
        }
      }
    }
  }

  /** Exactly the allocated block leaves the free pages. */
  lemma {:induction false} AllocFreePages(z: Zone, n: nat, k: nat, i: nat)
    requires Ok(z, n) && k <= MAX_ORDER && Alloc(z, k).1.Pfn?
    ensures var p := Alloc(z, k).1.pfn;
      FreeAt(Alloc(z, k).0, i) <==> FreeAt(z, i) && !Within(i, p, k)
    ensures Within(i, Alloc(z, k).1.pfn, k) ==> FreeAt(z, i)
  {
    AllocOk(z, n, k);
    var (z', r) := Alloc(z, k);
    var p := r.pfn;
    FreeAtIffNotLive(z, n, i);
    FreeAtIffNotLive(z', n, i);
    LiveAtInsert(z, z', p, k, i);
    if LiveAt(z, i) && Within(i, p, k) {
      var h: nat, l: nat :| Live(z, h, l) && Within(i, h, l);
      assert Live(z', h, l) && Live(z', p, k);
      BlocksMeet(z', n, h, l, p, k, i);
      assert false;
    }
  }

  lemma {:induction false} LiveAtInsert(z: Zone, z': Zone, p: nat, k: nat, i: nat)
    requires p !in z.live && z'.live == z.live[p := k]
    ensures LiveAt(z', i) <==> LiveAt(z, i) || Within(i, p, k)
  {
    assert Live(z', p, k);
    if LiveAt(z, i) {
      var h: nat, l: nat :| Live(z, h, l) && Within(i, h, l);
      assert Live(z', h, l);
    }
    if LiveAt(z', i) {
      var h: nat, l: nat :| Live(z', h, l) && Within(i, h, l);
      assert h != p ==> Live(z, h, l);
    }
  }

  /** The free pages after a free are the old ones plus exactly the freed block. */
  lemma {:induction false} FreeFreePages(z: Zone, n: nat, p: nat, i: nat)
    requires Ok(z, n) && p in z.live
    ensures z.live[p] <= MAX_ORDER
    ensures FreeAt(FreeBlock(z, p), i) <==> FreeAt(z, i) || Within(i, p, z.live[p])
    ensures Within(i, p, z.live[p]) ==> !FreeAt(z, i)
  {
    FreeOk(z, n, p);
    var z' := FreeBlock(z, p);
    FreeAtIffNotLive(z, n, i);
    FreeAtIffNotLive(z', n, i);
    assert z.live == z'.live[p := z.live[p]];
    LiveAtInsert(z', z, p, z.live[p], i);
    if LiveAt(z', i) && Within(i, p, z.live[p]) {
      var h: nat, l: nat :| Live(z', h, l) && Within(i, h, l);
      assert Live(z, h, l) && Live(z, p, z.live[p]);
      BlocksMeet(z, n, h, l, p, z.live[p], i);
      assert false;
    }
  }

  // ----- Completeness of allocation

  /** The aligned run of 2^k pages at `a` is entirely free. */
  ghost predicate FreeRun(z: Zone, a: nat, k: nat) {
    Aligned(a, k) && forall i: nat :: Within(i, a, k) ==> FreeAt(z, i)
  }

  /** In a coalesced zone a free run lies inside one free block at least as large. */
  lemma {:induction false} FreeRunInOneBlock(z: Zone, n: nat, a: nat, k: nat) returns (h: nat, l: nat)
    requires Ok(z, n) && k <= MAX_ORDER && FreeRun(z, a, k)
    ensures Free(z, h, l) && k <= l && Within(a, h, l)
    decreases k
  {
    if k == 0 {
      assert Within(a, a, 0);
      h, l :| Free(z, h, l) && Within(a, h, l);
    } else {
      var c := FreeRunHalves(z, a, k);
      h, l := FreeRunInOneBlock(z, n, a, k - 1);
      if l == k - 1 {
        var h', l' := FreeRunInOneBlock(z, n, c, k - 1);
        FreeHalvesJoin(z, n, a, c, k, h, h', l');
        h, l := h', l';
      }
    }
  }

  lemma {:induction false} FreeRunHalves(z: Zone, a: nat, k: nat) returns (c: nat)
    requires k > 0 && FreeRun(z, a, k)
    ensures c == a + Pow2(k - 1)
    ensures FreeRun(z, a, k - 1) && FreeRun(z, c, k - 1)
  {
    c := a + Pow2(k - 1);
    AlignedDown(a, k, k - 1);
    AlignedStep(a, k - 1);
    assert forall i: nat :: Within(i, a, k) <==> Within(i, a, k - 1) || Within(i, c, k - 1);
  }

  /** Two free halves cannot be two free blocks of half size, so the block of the second holds both. */
  lemma {:induction false} FreeHalvesJoin(z: Zone, n: nat, a: nat, c: nat, k: nat, h: nat, h': nat, l': nat)
    requires Ok(z, n) && 0 < k <= MAX_ORDER && Aligned(a, k) && c == a + Pow2(k - 1)
    requires Free(z, h, k - 1) && Within(a, h, k - 1)
    requires Free(z, h', l') && k - 1 <= l' && Within(c, h', l')
    ensures k <= l' && Within(a, h', l')
  {
    OneBlockPerHead(z, n, h, k - 1, 0);
    OneBlockPerHead(z, n, h', l', 0);
    AlignedDown(a, k, k - 1);
    AlignedSameBlock(a, h, k - 1);
    CoalescedAt(z, n, a, k - 1);
    assert BuddyOf(a, k - 1) == c;
    hide Ok, Pow2, BuddyOf;
    SecondHalfOwner(a, c, k, h', l');
  }

  lemma {:induction false} SecondHalfOwner(a: nat, c: nat, k: nat, h: nat, l: nat)
    requires 0 < k && Aligned(a, k) && c == a + Pow2(k - 1)
    requires Aligned(h, l) && k - 1 <= l && Within(c, h, l)
    ensures l == k - 1 ==> h == c
    ensures k <= l ==> Within(a, h, l)
  {
    AlignedDown(a, k, k - 1);
    AlignedStep(a, k - 1);
    if l == k - 1 {
      AlignedSameBlock(c, h, l);
    } else {
      AlignedNest(a, k, h, l);
    }
  }

  lemma {:induction false} AlignedSameBlock(a: nat, h: nat, k: nat)
    requires Aligned(a, k) && Aligned(h, k) && Within(a, h, k)
    ensures a == h
  {
    if h < a { AlignedGap(h, a, k); }
  }

  /** An allocation of order `k` fails exactly when no aligned run of 2^k free pages exists. */
  lemma {:induction false} AllocComplete(z: Zone, n: nat, k: nat)
    requires Ok(z, n) && k <= MAX_ORDER
    ensures Alloc(z, k).1.Null? <==> !exists a: nat :: FreeRun(z, a, k)
  {
    var i := FirstNonEmpty(z.lists, k);
    if i <= MAX_ORDER {
      var p := z.lists[i][0];
      assert Free(z, p, i) && Block(z, p, i);
      AlignedDown(p, i, k);
      Pow2Monotone(k, i);
      assert forall j: nat :: Within(j, p, k) ==> Within(j, p, i);
      assert FreeRun(z, p, k);
    } else if exists a: nat :: FreeRun(z, a, k) {
      var a: nat :| FreeRun(z, a, k);
      var h, l := FreeRunInOneBlock(z, n, a, k);
      OneBlockPerHead(z, n, h, l, l);
      assert false;
    }
  }

  // ----- Allocating and freeing at once restores every list

  /** After splitting down to `k`, each list from `k` below the old order has the right half in front. */
  lemma {:induction false} SplitToList(z: Zone, p: nat, k: nat, j: nat)
    requires |z.lists| == MAX_ORDER + 1 && p in z.live && k <= z.live[p] <= MAX_ORDER && j <= MAX_ORDER
    ensures SplitTo(z, p, k).lists[j] == if k <= j < z.live[p] then [p + Pow2(j)] + z.lists[j] else z.lists[j]
    decreases z.live[p]
  {
    if z.live[p] > k {
      SplitToList(Split(z, p), p, k, j);
    }
  }

  /** Undoing a split: merging a block whose right buddies stand in front of their lists. */
  lemma {:induction false} MergeUndoesSplit(z: Zone, p: nat, i: nat)
    requires |z.lists| == MAX_ORDER + 1 && p in z.live && z.live[p] <= i <= MAX_ORDER
    requires Aligned(p, i)
    requires i == MAX_ORDER || !FreeInt(z, BuddyOf(p, i), i)
    requires forall j :: z.live[p] <= j < i ==> z.lists[j] != [] && z.lists[j][0] == p + Pow2(j)
    ensures |MergeAndGive(z, p).lists| == MAX_ORDER + 1
    ensures forall j :: 0 <= j <= MAX_ORDER ==>
      MergeAndGive(z, p).lists[j] ==
        if z.live[p] <= j < i then z.lists[j][1..] else if j == i then [p] + z.lists[j] else z.lists[j]
    decreases i - z.live[p]
  {
    var k := z.live[p];
    if k < i {
      AlignedDown(p, i, k + 1);
      assert Without(z.lists[k], p + Pow2(k)) == z.lists[k][1..];
      assert CanMerge(z, p);
      MergeUndoesSplit(Merge(z, p), p, i);
    }
  }

  /** The state `z1` is what a successful allocation of order `k` from list `i` leaves. */
  ghost predicate AllocatedFrom(z: Zone, z1: Zone, i: nat, p: nat, k: nat) {
    && |z.lists| == |z1.lists| == MAX_ORDER + 1 && k <= i <= MAX_ORDER
    && Live(z1, p, k) && Aligned(p, i)
    && (i == MAX_ORDER || !FreeInt(z1, BuddyOf(p, i), i))
    && z.lists[i] != [] && z.lists[i][0] == p
    && (forall j :: k <= j < i ==> z.lists[j] == [])
    && (forall j :: 0 <= j <= MAX_ORDER ==>
          z1.lists[j] == if k <= j < i then [p + Pow2(j)] else if j == i then z.lists[i][1..] else z.lists[j])
  }

  lemma {:induction false} AllocLists(z: Zone, n: nat, k: nat)
    requires Ok(z, n) && k <= MAX_ORDER && Alloc(z, k).1.Pfn?
    ensures AllocatedFrom(z, Alloc(z, k).0, FirstNonEmpty(z.lists, k), Alloc(z, k).1.pfn, k)
  {
    var i := FirstNonEmpty(z.lists, k);
    var p := z.lists[i][0];
    assert Free(z, p, i);
    OneBlockPerHead(z, n, p, i, 0);
    assert i < MAX_ORDER ==> !FreeInt(z, BuddyOf(p, i), i);
    TakeAndSplit(z, i, k);
  }

  lemma {:induction false} TakeAndSplit(z: Zone, i: nat, k: nat)
    requires |z.lists| == MAX_ORDER + 1 && k <= i <= MAX_ORDER && z.lists[i] != []
    requires forall j :: k <= j < i ==> z.lists[j] == []
    requires Aligned(z.lists[i][0], i) && (i == MAX_ORDER || !FreeInt(z, BuddyOf(z.lists[i][0], i), i))
    ensures AllocatedFrom(z, SplitTo(Take(z, i), z.lists[i][0], k), i, z.lists[i][0], k)
  {
    var p, t := z.lists[i][0], Take(z, i);
    forall j: nat | j <= MAX_ORDER
      ensures SplitTo(t, p, k).lists[j] == if k <= j < i then [p + Pow2(j)] + t.lists[j] else t.lists[j]
    {
      SplitToList(t, p, k, j);
    }
    hide SplitTo, AllocatedFrom, FreeInt, Aligned;
    AssembleAllocated(z, t, SplitTo(t, p, k), i, p, k);
  }

  lemma {:induction false} AssembleAllocated(z: Zone, t: Zone, z1: Zone, i: nat, p: nat, k: nat)
    requires |z.lists| == |t.lists| == |z1.lists| == MAX_ORDER + 1 && k <= i <= MAX_ORDER
    requires z.lists[i] != [] && p == z.lists[i][0] && t.lists == z.lists[i := z.lists[i][1..]]
    requires forall j :: k <= j < i ==> z.lists[j] == []
    requires Aligned(p, i) && (i == MAX_ORDER || !FreeInt(z, BuddyOf(p, i), i))
    requires Live(z1, p, k)
    requires forall j :: 0 <= j <= MAX_ORDER ==>
      z1.lists[j] == if k <= j < i then [p + Pow2(j)] + t.lists[j] else t.lists[j]
    ensures AllocatedFrom(z, z1, i, p, k)
  {
    hide Aligned, BuddyOf, FreeInt, Live, Pow2;
    forall j | 0 <= j <= MAX_ORDER
      ensures z1.lists[j] == if k <= j < i then [p + Pow2(j)] else if j == i then z.lists[i][1..] else z.lists[j]
    {
      AssembleOne(z.lists[j], t.lists[j], z1.lists[j], i, p, k, j);
    }
    if i < MAX_ORDER { StillNotFree(z, z1, BuddyOf(p, i), i); }
  }

  lemma {:induction false} AssembleOne(before: seq<nat>, taken: seq<nat>, after: seq<nat>, i: nat, p: nat, k: nat,
                                       j: nat)
    requires k <= i && (j == i ==> before != [] && taken == before[1..]) && (j != i ==> taken == before)
    requires k <= j < i ==> before == []
    requires after == if k <= j < i then [p + Pow2(j)] + taken else taken
    ensures after == if k <= j < i then [p + Pow2(j)] else if j == i then before[1..] else before
  {
    hide Pow2;
  }

  lemma {:induction false} StillNotFree(z: Zone, z1: Zone, b: int, i: nat)
    requires i < |z.lists| == |z1.lists| && z.lists[i] != [] && z1.lists[i] == z.lists[i][1..] && !FreeInt(z, b, i)
    ensures !FreeInt(z1, b, i)
  {
  }

  lemma {:induction false} FreeRestores(z: Zone, z1: Zone, i: nat, p: nat, k: nat)
    requires AllocatedFrom(z, z1, i, p, k)
    ensures FreeBlock(z1, p).lists == z.lists
  {
    MergeUndoesSplit(z1, p, i);
    RestoredLists(z.lists, FreeBlock(z1, p).lists, i, p, k);
  }

  lemma {:induction false} AllocThenFreeLive(z: Zone, n: nat, k: nat)
    requires Ok(z, n) && k <= MAX_ORDER && Alloc(z, k).1.Pfn?
    ensures Live(Alloc(z, k).0, Alloc(z, k).1.pfn, k)
    ensures |Alloc(z, k).0.lists| == MAX_ORDER + 1
    ensures FreeBlock(Alloc(z, k).0, Alloc(z, k).1.pfn).live == z.live
  {
    AllocOk(z, n, k);
    var z1, p := Alloc(z, k).0, Alloc(z, k).1.pfn;
    assert z1.live - {p} == z.live;
    FreeOk(z1, n, p);
  }

  /** A successful allocation followed at once by its free restores every list, order included. */
  lemma {:induction false} AllocThenFree(z: Zone, n: nat, k: nat)
    requires Ok(z, n) && k <= MAX_ORDER && Alloc(z, k).1.Pfn?
    ensures |Alloc(z, k).0.lists| == MAX_ORDER + 1 && Live(Alloc(z, k).0, Alloc(z, k).1.pfn, k)
    ensures FreeBlock(Alloc(z, k).0, Alloc(z, k).1.pfn) == z
  {
    AllocThenFreeLive(z, n, k);
    AllocLists(z, n, k);
    FreeRestores(z, Alloc(z, k).0, FirstNonEmpty(z.lists, k), Alloc(z, k).1.pfn, k);
  }

  lemma {:induction false} RestoredLists(before: seq<seq<nat>>, after: seq<seq<nat>>, i: nat, p: nat, k: nat)
    requires |before| == |after| && k <= i < |before|
    requires before[i] != [] && before[i][0] == p
    requires forall j :: k <= j < i ==> before[j] == []
    requires forall j :: 0 <= j < |before| ==>
      after[j] == if k <= j < i then [p + Pow2(j)][1..] else if j == i then [p] + before[i][1..] else before[j]
    ensures after == before
  {
    assert [p] + before[i][1..] == before[i];
    assert forall j :: 0 <= j < |before| ==> after[j] == before[j];
  }

  // ----- Whole runs

  datatype Op = AllocOp(order: nat) | FreeOp(pfn: nat)

  predicate LegalOps(ops: seq<Op>) {
    forall j :: 0 <= j < |ops| ==> ops[j].AllocOp? ==> ops[j].order <= MAX_ORDER
  }

  function Step(z: Zone, op: Op): Zone
    requires |z.lists| == MAX_ORDER + 1
    requires op.AllocOp? ==> op.order <= MAX_ORDER
  {
    match op
    case AllocOp(k) => Alloc(z, k).0
    case FreeOp(p) => FreeBlock(z, p)
  }

  lemma {:induction false} StepOk(z: Zone, n: nat, op: Op)
    requires Ok(z, n) && (op.AllocOp? ==> op.order <= MAX_ORDER)
    ensures Ok(Step(z, op), n)
    ensures forall i: nat :: Covered(Step(z, op), i) <==> Covered(z, i)
  {
    match op
    case AllocOp(k) => AllocOk(z, n, k);
    case FreeOp(p) => FreeOk(z, n, p);
  }

  ghost predicate Reaches(z: Zone, n: nat, ops: seq<Op>, z': Zone)
    requires Ok(z, n) && LegalOps(ops)
    decreases |ops|
  {
    if ops == [] then z' == z
    else
      StepOk(z, n, ops[0]);
      Reaches(Step(z, ops[0]), n, ops[1..], z')
  }

  /** Every state of every run is tiled, coalesced, manages the same pages, and allocates completely. */
  lemma {:induction false} RunTheorem(z: Zone, n: nat, ops: seq<Op>, z': Zone)
    requires Ok(z, n) && LegalOps(ops) && Reaches(z, n, ops, z')
    ensures Ok(z', n)
    ensures forall i: nat :: Covered(z', i) <==> Covered(z, i)
    ensures forall k: nat :: k <= MAX_ORDER ==> (Alloc(z', k).1.Null? <==> !exists a: nat :: FreeRun(z', a, k))
    decreases |ops|
  {
    if ops == [] {
      forall k: nat | k <= MAX_ORDER
        ensures Alloc(z', k).1.Null? <==> !exists a: nat :: FreeRun(z', a, k)
      {
        AllocComplete(z', n, k);
      }
    } else {
      StepOk(z, n, ops[0]);
      RunTheorem(Step(z, ops[0]), n, ops[1..], z');
    }
  }

  /** Live blocks never share a page. */
  lemma {:induction false} LiveDisjoint(z: Zone, n: nat, p: nat, q: nat, i: nat)
    requires Ok(z, n) && p in z.live && q in z.live
    requires Within(i, p, z.live[p]) && Within(i, q, z.live[q])
    ensures p == q
  {
    assert Block(z, p, z.live[p]) && Block(z, q, z.live[q]);
    assert Within(p, q, z.live[q]) || Within(q, p, z.live[p]);
  }

  // ----- Conservation

  ghost function FreePages(z: Zone, n: nat): set<nat> {
    set i: nat | i < n && FreeAt(z, i)
  }

  ghost function LivePages(z: Zone, n: nat): set<nat> {
    set i: nat | i < n && LiveAt(z, i)
  }

  ghost function Managed(z: Zone, n: nat): set<nat> {
    set i: nat | i < n && Covered(z, i)
  }

  /** Free pages plus allocated pages is the number of managed pages, the same in every state of a run. */
  lemma {:induction false} Conservation(z: Zone, n: nat, ops: seq<Op>, z': Zone)
    requires Ok(z, n) && LegalOps(ops) && Reaches(z, n, ops, z')
    ensures FreePages(z', n) !! LivePages(z', n)
    ensures FreePages(z', n) + LivePages(z', n) == Managed(z, n)
    ensures |FreePages(z', n)| + |LivePages(z', n)| == |Managed(z, n)|
  {
    RunTheorem(z, n, ops, z');
    forall i: nat | i < n
      ensures FreeAt(z', i) <==> Covered(z, i) && !LiveAt(z', i)
      ensures LiveAt(z', i) ==> Covered(z, i)
    {
      FreeAtIffNotLive(z', n, i);
    }
    assert FreePages(z', n) + LivePages(z', n) == Managed(z, n);
  }
}
