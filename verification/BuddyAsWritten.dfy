/**
 free_pages exactly as the code has it. On a left merge it unlinks the page in hand, not the left buddy
 that takes over the block. The marks still come out right, free after free, whatever has become of the lists; lists
 that were right survive exactly when no left merge happens.
 */
module BuddyAsWritten {
  import opened Arith
  import opened Zones
  import opened ZoneTheorems
  import opened Pages
  import opened Buddy

  /** Freeing the block at `p` joins it, at some order, with a free buddy on its left. */
  ghost predicate MergesLeft(z: Zone, p: nat)
    requires p in z.live && z.live[p] <= MAX_ORDER && |z.lists| == MAX_ORDER + 1
    decreases MAX_ORDER - z.live[p]
  {
    CanMerge(z, p) && (!Aligned(p, z.live[p] + 1) || MergesLeft(Merge(z, p), MergedHead(p, z.live[p])))
  }

  /** Every free-marked page and every list head has links inside the page array. */
  ghost predicate SafeLinks(pages: seq<Page>, heads: seq<Link>) {
    && (forall i :: 0 <= i < |pages| && pages[i].state == Buddy ==>
          InRange(pages[i].prev, |pages|) && InRange(pages[i].next, |pages|))
    && (forall k :: 0 <= k < |heads| ==> InRange(heads[k], |pages|))
  }

  /** The lists are doubly linked and hold, order by order, exactly the free-marked pages. */
  ghost predicate Agree(pages: seq<Page>, heads: seq<Link>, lists: seq<seq<nat>>) {
    && Linked(pages, heads, lists)
    && forall k, i: nat :: 0 <= k < |lists| ==>
         (i in lists[k] <==> i < |pages| && pages[i].state == Buddy && pages[i].order == k)
  }

  /**
   The marks describe the fully coalesced zone `z`, and links stay inside the page array; nothing is said of the
   lists.
   */
  ghost predicate MarksRight(pages: seq<Page>, heads: seq<Link>, z: Zone) {
    Ok(z, |pages|) && |heads| == MAX_ORDER + 1 && Tiles(pages, z, -1) && SafeLinks(pages, heads)
  }

  /**
   Where the lists stand while the block at `p` is being merged: untouched; with `p` still standing, not
   first, on the list of a lower order; with a lower list starting at a page that does not belong to it; or lost,
   because they were not right to begin with.
   */
  datatype Damage = Intact | Stale(order: nat, lists: seq<seq<nat>>, place: nat) | Headless(order: nat, page: nat)
    | Lost

  ghost predicate Lists(pages: seq<Page>, heads: seq<Link>, z: Zone, p: nat, d: Damage)
    requires p in z.live && p < |pages|
  {
    match d
    case Intact =>
      Linked(pages, heads, z.lists) && pages[p].prev.Null? && pages[p].next.Null?
    case Stale(o, lists, m) =>
      && o < z.live[p] && o < |z.lists| == |lists|
      && 0 < m < |lists[o]| && lists[o][m] == p
      && Linked(pages, heads, lists) && Separate(lists)
      && z.lists == lists[o := Without(lists[o], p)]
    case Headless(o, x) =>
      o < z.live[p] && o < |heads| && o < |z.lists| && heads[o] == Pfn(x) && x !in z.lists[o]
    case Lost => true
  }

  ghost predicate Merging(pages: seq<Page>, heads: seq<Link>, z: Zone, p: nat, d: Damage) {
    && Ok(z, |pages|) && |heads| == MAX_ORDER + 1
    && Tiles(pages, z, p) && SafeLinks(pages, heads)
    && p in z.live && p < |pages| && Lists(pages, heads, z, p, d)
  }

  // ----- The primitives keep marks and ranges, whatever the lists look like

  lemma {:induction false} UnlinkSafe(pages: seq<Page>, heads: seq<Link>, u: nat)
    requires SafeLinks(pages, heads) && u < |pages| && pages[u].order < |heads| && pages[u].state == Buddy
    ensures var (pages', heads') := Unlinked(pages, heads, u);
      && MarksKept(pages, pages', {}) && SafeLinks(pages', heads') && |heads'| == |heads|
      && forall k :: 0 <= k < |heads| && k != pages[u].order ==> heads'[k] == heads[k]
  {
    var (pages', heads') := Unlinked(pages, heads, u);
    assert MarksKept(pages, pages', {});
  }

  lemma {:induction false} AbsorbSafe(pages: seq<Page>, heads: seq<Link>, u: nat, m: nat, o: nat)
    requires SafeLinks(pages, heads) && u < |pages| && pages[u].order < |heads| && pages[u].state == Buddy
    requires m < |pages| && o < |pages| && m != o
    ensures var (pages', heads') := MergePages(pages, heads, u, m, o);
      && SafeLinks(pages', heads') && |heads'| == |heads| && MarksKept(pages, pages', {m, o})
      && pages'[m].state == pages[m].state && pages'[m].order == pages[m].order + 1 && pages'[o].state == Tail
      && (forall k :: 0 <= k < |heads| && k != pages[u].order ==> heads'[k] == heads[k])
      && LinksKept(Unlinked(pages, heads, u).0, pages', {}) && heads' == Unlinked(pages, heads, u).1
  {
    UnlinkSafe(pages, heads, u);
  }

  /** The marks after one merge, with whichever page `u` was unlinked. */
  lemma {:induction false} MergeMarks(pages: seq<Page>, heads: seq<Link>, z: Zone, p: nat, u: nat)
    requires Ok(z, |pages|) && |heads| == MAX_ORDER + 1 && Tiles(pages, z, p) && SafeLinks(pages, heads)
    requires p in z.live && p < |pages| && CanMerge(z, p) && (u == p || u == BuddyOf(p, z.live[p]))
    ensures var b := BuddyOf(p, z.live[p]); var m := MergedHead(p, z.live[p]); var o := if m == p then b else p;
      && 0 <= b < |pages| && m < |pages| && 0 <= o < |pages| && b != p && pages[u].order == z.live[p] < |heads|
      && pages[u].state == Buddy
      && InRange(pages[u].prev, |pages|) && InRange(pages[u].next, |pages|)
      && var (pages', heads') := MergePages(pages, heads, u, m, o);
      && Ok(Merge(z, p), |pages|) && Tiles(pages', Merge(z, p), m) && SafeLinks(pages', heads') && |heads'| == |heads|
  {
    var n, k := |pages|, z.live[p];
    MergeZone(z, n, p);
    assert PageOk(pages[p], z, p, p);
    var b: nat := BuddyOf(p, k);
    assert PageOk(pages[b], z, b, p);
    var m := MergedHead(p, k);
    var o := if m == p then b else p;
    AbsorbSafe(pages, heads, u, m, o);
    TilesMerge(pages, MergePages(pages, heads, u, m, o).0, z, p);
  }

  // ----- The lists after one merge

  lemma {:induction false} MergingShape(pages: seq<Page>, heads: seq<Link>, z: Zone, p: nat, d: Damage)
    requires Merging(pages, heads, z, p, d)
    ensures |z.lists| == |heads| == MAX_ORDER + 1
    ensures p in z.live && p < |pages| && pages[p].order == z.live[p] <= MAX_ORDER
  {
    OneBlockPerHead(z, |pages|, p, z.live[p], 0);
    assert PageOk(pages[p], z, p, p);
  }

  lemma {:induction false} MergingChoice(pages: seq<Page>, heads: seq<Link>, z: Zone, p: nat, d: Damage)
    requires Merging(pages, heads, z, p, d) && z.live[p] < MAX_ORDER
    ensures var k := z.live[p]; var b := BuddyOf(p, k);
      && p in z.live && p < |pages| && pages[p].order == k && b >= 0 && k < |z.lists| == MAX_ORDER + 1
      && (AlignmentOrder(p) > k <==> Aligned(p, k + 1))
      && (AlignmentOrder(p) > k ==> b == p + Pow2(k) && MergedHead(p, k) == p)
      && (AlignmentOrder(p) <= k ==> b == p - Pow2(k) && MergedHead(p, k) == b && b < |pages|)
      && (CanMerge(z, p) <==> b < |pages| && pages[b].state == Buddy && pages[b].order == k)
  {
    MergeTest(pages, z, p);
    AlignmentOrderAligned(p, z.live[p] + 1);
  }

  /** The pages a merge touches are in the array and may be unlinked. */
  predicate Touchable(pages: seq<Page>, heads: seq<Link>, u: nat, m: nat, o: nat) {
    && u < |pages| && m < |pages| && o < |pages| && pages[u].order < |heads|
    && InRange(pages[u].prev, |pages|) && InRange(pages[u].next, |pages|)
  }

  lemma {:induction false} MergeReady(pages: seq<Page>, heads: seq<Link>, z: Zone, p: nat, d: Damage)
    requires Merging(pages, heads, z, p, d) && CanMerge(z, p)
    ensures var k := z.live[p]; var b := BuddyOf(p, k); var m := MergedHead(p, k);
      && b >= 0 && k < MAX_ORDER && pages[p].order == k
      && (Aligned(p, k + 1) ==> b == p + Pow2(k) && m == p && Touchable(pages, heads, b, p, b) && pages[b].order == k)
      && (!Aligned(p, k + 1) ==> b == p - Pow2(k) && m == b && Touchable(pages, heads, p, b, p))
  {
    MergeZone(z, |pages|, p);
    assert PageOk(pages[p], z, p, p);
    var b: nat := BuddyOf(p, z.live[p]);
    assert PageOk(pages[b], z, b, p);
  }

  /** A right merge unlinks a page that really is on its list, so the damage stays what it was. */
  lemma {:induction false} RightLists(pages: seq<Page>, heads: seq<Link>, z: Zone, p: nat, b: nat, d: Damage)
    returns (d': Damage)
    requires Merging(pages, heads, z, p, d) && CanMerge(z, p) && Aligned(p, z.live[p] + 1)
    requires b == p + Pow2(z.live[p]) == BuddyOf(p, z.live[p]) && Touchable(pages, heads, b, p, b)
    ensures var (pages', heads') := MergePages(pages, heads, b, p, b);
      Merging(pages', heads', Merge(z, p), p, d') && (d'.Intact? <==> d.Intact?) && (d'.Lost? <==> d.Lost?)
  {
    MergeMarks(pages, heads, z, p, b);
    MergeZone(z, |pages|, p);
    match d
    case Intact =>
      RightIntact(pages, heads, z, p, b);
      d' := Intact;
    case Stale(o, lists, m) =>
      RightStale(pages, heads, z, p, b, d);
      d' := Stale(o, lists[z.live[p] := Without(lists[z.live[p]], b)], m);
    case Headless(o, x) =>
      AbsorbSafe(pages, heads, b, p, b);
      d' := d;
    case Lost =>
      d' := d;
  }

  lemma {:induction false} RightIntact(pages: seq<Page>, heads: seq<Link>, z: Zone, p: nat, b: nat)
    requires Merging(pages, heads, z, p, Intact) && p != b && Touchable(pages, heads, b, p, b)
    requires pages[b].order == z.live[p] && pages[b].state == Buddy && Free(z, b, z.live[p]) && SafeLinks(pages, heads)
    ensures var (pages', heads') := MergePages(pages, heads, b, p, b);
      && |pages'| == |pages| && pages'[p].prev.Null? && pages'[p].next.Null?
      && Linked(pages', heads', z.lists[z.live[p] := Without(z.lists[z.live[p]], b)])
  {
    AbsorbSafe(pages, heads, b, p, b);
    var (pages', heads') := MergePages(pages, heads, b, p, b);
    TilingSeparate(z, |pages|);
    UnlinkLinks(pages, heads, z.lists, b);
    LinkedKept(Unlinked(pages, heads, b).0, pages', heads', z.lists[z.live[p] := Without(z.lists[z.live[p]], b)], {});
    NotOnLists(z, |pages|, p);
    BystanderLinks(pages, heads, z.lists, b, p);
  }

  lemma {:induction false} RightStale(pages: seq<Page>, heads: seq<Link>, z: Zone, p: nat, b: nat, d: Damage)
    requires Merging(pages, heads, z, p, d) && d.Stale? && p != b && Touchable(pages, heads, b, p, b)
    requires pages[b].order == z.live[p] && pages[b].state == Buddy && Free(z, b, z.live[p])
    ensures var k := z.live[p]; var (pages', heads') := MergePages(pages, heads, b, p, b);
      var lists' := d.lists[k := Without(d.lists[k], b)];
      && Linked(pages', heads', lists') && Separate(lists')
      && z.lists[k := Without(z.lists[k], b)] == lists'[d.order := Without(lists'[d.order], p)]
  {
    var k := z.live[p];
    var lists' := d.lists[k := Without(d.lists[k], b)];
    AbsorbSafe(pages, heads, b, p, b);
    var (pages', heads') := MergePages(pages, heads, b, p, b);
    assert d.lists[k] == z.lists[k];
    UnlinkLinks(pages, heads, d.lists, b);
    LinkedKept(Unlinked(pages, heads, b).0, pages', heads', lists', {});
    WithoutSeparate(d.lists, k, b);
  }

  lemma {:induction false} WithoutSeparate(lists: seq<seq<nat>>, k: nat, b: nat)
    requires Separate(lists) && k < |lists|
    ensures Separate(lists[k := Without(lists[k], b)])
  {
    WithoutMembers(lists[k], b);
  }

  /** Unlinking one page of a list changes no link of a page that is on no list. */
  lemma {:induction false} BystanderLinks(pages: seq<Page>, heads: seq<Link>, lists: seq<seq<nat>>, b: nat, p: nat)
    requires Linked(pages, heads, lists) && Separate(lists) && b < |pages| && p < |pages| && p != b
    requires pages[b].order < |lists| && pages[b].state == Buddy && b in lists[pages[b].order]
    requires forall k :: 0 <= k < |lists| ==> p !in lists[k]
    ensures InRange(pages[b].prev, |pages|) && InRange(pages[b].next, |pages|)
    ensures var pages' := Unlinked(pages, heads, b).0;
      |pages'| == |pages| && pages'[p].prev == pages[p].prev && pages'[p].next == pages[p].next
  {
    var k := pages[b].order;
    var l := lists[k];
    var m :| 0 <= m < |l| && l[m] == b;
    assert DList(pages, heads[k], l);
    assert pages[l[m]].prev == Before(l, m) && pages[l[m]].next == After(l, m);
    assert m > 0 ==> l[m - 1] in l;
    assert m + 1 < |l| ==> l[m + 1] in l;
    UnlinkedShape(pages, heads, b);
  }

  /** The block in hand, unlinked as the code does it, is on no list any more, or the damage is permanent. */
  lemma {:induction false} UnlinkInHand(pages: seq<Page>, heads: seq<Link>, z: Zone, p: nat, d: Damage)
    requires Merging(pages, heads, z, p, d) && (d.Intact? || d.Stale?)
    ensures pages[p].state == Buddy && pages[p].order == z.live[p] < |heads|
    ensures InRange(pages[p].prev, |pages|) && InRange(pages[p].next, |pages|)
    ensures var (pages', heads') := Unlinked(pages, heads, p); Linked(pages', heads', z.lists) && heads' == heads
  {
    assert PageOk(pages[p], z, p, p);
    OneBlockPerHead(z, |pages|, p, z.live[p], 0);
    if d.Intact? {
      NotOnLists(z, |pages|, p);
      var k := z.live[p];
      assert DList(pages, heads[k], z.lists[k]);
      assert heads[k] != Pfn(p);
    } else {
      var l, m := d.lists[d.order], d.place;
      assert DList(pages, heads[d.order], l);
      assert pages[l[m]].prev == Before(l, m) && pages[l[m]].next == After(l, m);
      NotSelf(l, m);
      UnlinkedShape(pages, heads, p);
      var (pages', heads') := Unlinked(pages, heads, p);
      UnlinkAll(pages, pages', heads, heads', d.lists, d.order, m);
    }
  }

  lemma {:induction false} NotSelf(l: seq<nat>, m: nat)
    requires Distinct(l) && m < |l|
    ensures Before(l, m) != Pfn(l[m]) && After(l, m) != Pfn(l[m])
  {
    assert m > 0 ==> l[m - 1] != l[m];
    assert m + 1 < |l| ==> l[m] != l[m + 1];
  }

  /** A left merge leaves its buddy on the list of the lower order. */
  lemma {:induction false} LeftLists(pages: seq<Page>, heads: seq<Link>, z: Zone, p: nat, b: nat, d: Damage)
    returns (d': Damage)
    requires Merging(pages, heads, z, p, d) && CanMerge(z, p) && !Aligned(p, z.live[p] + 1)
    requires b == p - Pow2(z.live[p]) == BuddyOf(p, z.live[p]) && Touchable(pages, heads, p, b, p)
    ensures var (pages', heads') := MergePages(pages, heads, p, b, p);
      Merging(pages', heads', Merge(z, p), b, d') && !d'.Intact? && (d'.Lost? <==> d.Lost?)
  {
    MergingShape(pages, heads, z, p, d);
    hide Ok, Tiles, SafeLinks, Lists, Covered, Merge, MergePages, Aligned, Pow2, CanMerge, Touchable;
    MergeMarks(pages, heads, z, p, p);
    MergeZone(z, |pages|, p);
    if d.Lost? || d.Headless? {
      d' := d;
      DamageStays(pages, heads, z, p, b, d);
    } else {
      d' := LeftFresh(pages, heads, z, p, b, d);
    }
  }

  /** A list that is lost or starts wrongly stays so. */
  lemma {:induction false} DamageStays(pages: seq<Page>, heads: seq<Link>, z: Zone, p: nat, b: nat, d: Damage)
    requires Merging(pages, heads, z, p, d) && (d.Lost? || d.Headless?) && p != b && Touchable(pages, heads, p, b, p)
    requires BuddyOf(p, z.live[p]) >= 0 && z.live[p] < |z.lists| && b in Merge(z, p).live
    requires Merge(z, p).live[b] == z.live[p] + 1
    requires Merge(z, p).lists == z.lists[z.live[p] := Without(z.lists[z.live[p]], BuddyOf(p, z.live[p]))]
    ensures var (pages', heads') := MergePages(pages, heads, p, b, p);
      |pages'| == |pages| && Lists(pages', heads', Merge(z, p), b, d)
  {
    MergingShape(pages, heads, z, p, d);
    assert PageOk(pages[p], z, p, p);
    AbsorbSafe(pages, heads, p, b, p);
    hide Ok, Tiles, SafeLinks, MergePages;
  }

  lemma {:induction false} LeftFresh(pages: seq<Page>, heads: seq<Link>, z: Zone, p: nat, b: nat, d: Damage)
    returns (d': Damage)
    requires Merging(pages, heads, z, p, d) && (d.Intact? || d.Stale?) && p != b && Touchable(pages, heads, p, b, p)
    requires BuddyOf(p, z.live[p]) >= 0 && z.live[p] < |z.lists|
    requires Free(z, b, z.live[p]) && b in Merge(z, p).live && Merge(z, p).live[b] == z.live[p] + 1
    requires Merge(z, p).lists == z.lists[z.live[p] := Without(z.lists[z.live[p]], b)]
    ensures var (pages', heads') := MergePages(pages, heads, p, b, p);
      |pages'| == |pages| && Lists(pages', heads', Merge(z, p), b, d') && !d'.Intact? && !d'.Lost?
  {
    var k := z.live[p];
    assert PageOk(pages[p], z, p, p);
    AbsorbSafe(pages, heads, p, b, p);
    var (pages', heads') := MergePages(pages, heads, p, b, p);
    UnlinkInHand(pages, heads, z, p, d);
    LinkedKept(Unlinked(pages, heads, p).0, pages', heads', z.lists, {});
    var m :| 0 <= m < |z.lists[k]| && z.lists[k][m] == b;
    TilingSeparate(z, |pages|);
    WithoutMembers(z.lists[k], b);
    assert DList(pages', heads'[k], z.lists[k]);
    d' := if m == 0 then Headless(k, b) else Stale(k, z.lists, m);
  }

  // ----- The end

  /** The final insertion, whatever the lists look like. */
  lemma {:induction false} InsertMarks(pages: seq<Page>, heads: seq<Link>, z: Zone, p: nat, d: Damage)
    requires Merging(pages, heads, z, p, d) && !CanMerge(z, p)
    ensures p < |pages| && z.live[p] < |z.lists| && pages[p].order == z.live[p] < |heads|
    ensures InRange(heads[z.live[p]], |pages|)
    ensures var (pages', heads') := Inserted(pages, heads, p); MarksRight(pages', heads', Give(z, p))
  {
    MergingShape(pages, heads, z, p, d);
    InsertKeepsSafe(pages, heads, p);
    GiveOk(z, |pages|, p);
    GiveCovers(z, |pages|, p);
    hide Lists, CanMerge;
    TilesGive(pages, z, p);
    var (pages', heads') := Inserted(pages, heads, p);
    hide Tiling, Covered, Inserted, Give;
    TilesSame(pages, pages', Give(z, p), -1);
  }

  lemma {:induction false} InsertKeepsSafe(pages: seq<Page>, heads: seq<Link>, p: nat)
    requires SafeLinks(pages, heads) && p < |pages| && pages[p].order < |heads| && pages[p].state == Buddy
    ensures var (pages', heads') := Inserted(pages, heads, p);
      SafeLinks(pages', heads') && |heads'| == |heads| && MarksKept(pages, pages', {})
  {
  }

  /** Untouched lists are put in order by the final insertion. */
  lemma {:induction false} InsertIntact(pages: seq<Page>, heads: seq<Link>, z: Zone, p: nat)
    requires Merging(pages, heads, z, p, Intact) && !CanMerge(z, p)
    ensures p < |pages| && z.live[p] < |z.lists| && pages[p].order == z.live[p] < |heads|
    ensures InRange(heads[z.live[p]], |pages|)
    ensures var (pages', heads') := Inserted(pages, heads, p);
      Settled(pages', heads', Give(z, p)) && Agree(pages', heads', Give(z, p).lists)
  {
    MergingShape(pages, heads, z, p, Intact);
    SettledGive(pages, heads, z, p);
    var (pages', heads') := Inserted(pages, heads, p);
    hide Inserted, Merging, Give, Ok;
    LinkedAgree(pages', heads', Give(z, p));
  }

  /** Damaged lists cannot agree with the marks. */
  lemma {:induction false} InsertDamaged(pages: seq<Page>, heads: seq<Link>, z: Zone, p: nat, d: Damage)
    requires Merging(pages, heads, z, p, d) && !CanMerge(z, p) && !d.Intact? && !d.Lost?
    ensures p < |pages| && pages[p].order == z.live[p] < |heads| && InRange(heads[z.live[p]], |pages|)
    ensures var (pages', heads') := Inserted(pages, heads, p); forall lists :: !Agree(pages', heads', lists)
  {
    InsertMarks(pages, heads, z, p, d);
    var o, x, q := DamageShows(pages, heads, z, p, d);
    var (pages', heads') := Inserted(pages, heads, p);
    hide Inserted, Merging, Agree;
    forall lists ensures !Agree(pages', heads', lists) {
      if Agree(pages', heads', lists) {
        LinkStaysOnList(pages', heads', lists, o, x, q);
        assert false;
      }
    }
  }

  /** List `o` leads to page `x`, from its head or from its member `q`. */
  ghost predicate Leads(pages: seq<Page>, heads: seq<Link>, o: nat, x: nat, q: nat) {
    && o < |heads|
    && (heads[o] == Pfn(x)
        || (q < |pages| && pages[q].state == Buddy && pages[q].order == o && pages[q].next == Pfn(x)))
  }

  lemma {:induction false} LinkStaysOnList(pages: seq<Page>, heads: seq<Link>, lists: seq<seq<nat>>, o: nat, x: nat,
                                           q: nat)
    requires Agree(pages, heads, lists) && Leads(pages, heads, o, x, q)
    ensures x < |pages| && pages[x].state == Buddy && pages[x].order == o
  {
    var l := lists[o];
    assert DList(pages, heads[o], l);
    if heads[o] == Pfn(x) {
      assert l[0] == x && x in l;
    } else {
      assert q in l;
      var j :| 0 <= j < |l| && l[j] == q;
      assert pages[l[j]].next == After(l, j);
      assert l[j + 1] == x && x in l;
    }
  }

  /** After the insertion some lower list leads to a page that is not free of that order. */
  lemma {:induction false} DamageShows(pages: seq<Page>, heads: seq<Link>, z: Zone, p: nat, d: Damage)
    returns (o: nat, x: nat, q: nat)
    requires Merging(pages, heads, z, p, d) && !d.Intact? && !d.Lost?
    requires p < |pages| && pages[p].order == z.live[p] < |heads| && InRange(heads[z.live[p]], |pages|)
    ensures var (pages', heads') := Inserted(pages, heads, p);
      Leads(pages', heads', o, x, q) && !(x < |pages'| && pages'[x].state == Buddy && pages'[x].order == o)
  {
    var (pages', heads') := Inserted(pages, heads, p);
    o, q := d.order, p;
    if d.Headless? {
      x := d.page;
      if x < |pages| { assert PageOk(pages[x], z, x, p); }
    } else {
      var l, m := d.lists[o], d.place;
      x, q := p, l[m - 1];
      assert DList(pages, heads[o], l);
      assert pages[l[m - 1]].next == After(l, m - 1) == Pfn(p);
      assert q != p;
      WithoutMembers(l, p);
      assert q in l && q in z.lists[o] && Free(z, q, o);
      assert PageOk(pages[q], z, q, p);
    }
  }

  lemma {:induction false} SettledSafe(pages: seq<Page>, heads: seq<Link>, z: Zone)
    requires Settled(pages, heads, z)
    ensures SafeLinks(pages, heads)
  {
    forall i | 0 <= i < |pages| && pages[i].state == Buddy
      ensures InRange(pages[i].prev, |pages|) && InRange(pages[i].next, |pages|)
    {
      assert PageOk(pages[i], z, i, -1);
      var k := pages[i].order;
      var l := z.lists[k];
      assert DList(pages, heads[k], l);
      var m :| 0 <= m < |l| && l[m] == i;
      assert pages[l[m]].prev == Before(l, m) && pages[l[m]].next == After(l, m);
    }
    forall k | 0 <= k < |heads| ensures InRange(heads[k], |pages|) {
      assert DList(pages, heads[k], z.lists[k]);
    }
  }

  /** Lists that are linked as the zone has them agree with the marks. */
  lemma {:induction false} LinkedAgree(pages: seq<Page>, heads: seq<Link>, z: Zone)
    requires Tiles(pages, z, -1) && Linked(pages, heads, z.lists)
    ensures Agree(pages, heads, z.lists)
  {
    forall k: nat, i: nat | k < |z.lists|
      ensures i in z.lists[k] <==> i < |pages| && pages[i].state == Buddy && pages[i].order == k
    {
      if i in z.lists[k] {
        assert Free(z, i, k);
        OneBlockPerHead(z, |pages|, i, k, 0);
      }
      if i < |pages| { assert PageOk(pages[i], z, i, -1); }
    }
  }

  // ----- The code on values

  datatype Turn = Stop | Went(pages: seq<Page>, heads: seq<Link>, head: nat)

  /** One turn of the merge loop. */
  function MergeTurn(pages: seq<Page>, heads: seq<Link>, p: nat): Turn
    requires p < |pages|
  {
    var k := pages[p].order;
    if AlignmentOrder(p) > k then
      var b := p + Pow2(k);
      if b < |pages| && pages[b].state == Buddy && pages[b].order == k && Touchable(pages, heads, b, p, b) then
        var (pages', heads') := MergePages(pages, heads, b, p, b);
        Went(pages', heads', p)
      else Stop
    else
      var b := p - Pow2(k);
      if 0 <= b && pages[b].state == Buddy && pages[b].order == k && Touchable(pages, heads, p, b, p) then
        var (pages', heads') := MergePages(pages, heads, p, b, p);
        Went(pages', heads', b)
      else Stop
  }

  /** The merge loop, at most `n` turns, and the final insertion. */
  function MergeRaw(pages: seq<Page>, heads: seq<Link>, p: nat, n: nat): (seq<Page>, seq<Link>)
    requires p < |pages|
    decreases n
  {
    var turn := if n > 0 && pages[p].order < MAX_ORDER then MergeTurn(pages, heads, p) else Stop;
    if turn.Went? && turn.head < |turn.pages| then MergeRaw(turn.pages, turn.heads, turn.head, n - 1)
    else if pages[p].order < |heads| && InRange(heads[pages[p].order], |pages|) then Inserted(pages, heads, p)
    else (pages, heads)
  }

  /** free_pages, whatever the lists look like; nothing happens where the code would follow a stray link. */
  function FreeRaw(pages: seq<Page>, heads: seq<Link>, p: nat): (seq<Page>, seq<Link>)
    requires p < |pages|
  {
    if pages[p].state != Allocated then (pages, heads)
    else MergeRaw(pages[p := pages[p].(state := Buddy, prev := Null, next := Null)], heads, p, MAX_ORDER)
  }

  lemma {:induction false} MergeRawStep(pages: seq<Page>, heads: seq<Link>, p: nat, n: nat)
    requires p < |pages| && pages[p].order < MAX_ORDER && n > 0
    ensures var turn := MergeTurn(pages, heads, p);
      turn.Went? && turn.head < |turn.pages| ==>
        MergeRaw(pages, heads, p, n) == MergeRaw(turn.pages, turn.heads, turn.head, n - 1)
  {
    hide MergeTurn;
  }

  lemma {:induction false} MergeRawEnd(pages: seq<Page>, heads: seq<Link>, p: nat, n: nat)
    requires p < |pages| && (pages[p].order >= MAX_ORDER || MergeTurn(pages, heads, p).Stop?)
    requires pages[p].order < |heads| && InRange(heads[pages[p].order], |pages|)
    ensures MergeRaw(pages, heads, p, n) == Inserted(pages, heads, p)
  {
    hide MergeTurn, Inserted;
  }

  // ----- The code on arrays

  /** The state in which the merge loop starts. */
  lemma {:induction false} MergingStart(pages: seq<Page>, heads: seq<Link>, z: Zone, p: nat, intact: bool)
    requires MarksRight(pages, heads, z) && p in z.live && p < |pages| && (intact ==> Settled(pages, heads, z))
    ensures Merging(pages[p := pages[p].(state := Buddy, prev := Null, next := Null)], heads, z, p,
                    if intact then Intact else Lost)
  {
    var pages' := pages[p := pages[p].(state := Buddy, prev := Null, next := Null)];
    TilesMark(pages, pages', z, p, -1, p);
    if intact { WorkingMark(pages, heads, z, p); }
    hide Ok, Tiles, Linked;
  }

  lemma {:induction false} MarksRightAt(pages: seq<Page>, heads: seq<Link>, z: Zone, p: nat)
    requires MarksRight(pages, heads, z) && p < |pages|
    ensures |z.lists| == |heads| == MAX_ORDER + 1 && (pages[p].state == Allocated <==> p in z.live)
    ensures p in z.live ==> z.live[p] == pages[p].order <= MAX_ORDER
  {
    assert PageOk(pages[p], z, p, -1);
    if p in z.live { OneBlockPerHead(z, |pages|, p, z.live[p], 0); }
  }

  lemma {:induction false} SettledMarks(pages: seq<Page>, heads: seq<Link>, z: Zone)
    requires Settled(pages, heads, z) && |heads| == MAX_ORDER + 1
    ensures MarksRight(pages, heads, z)
  {
    SettledSafe(pages, heads, z);
  }

  /** What freeing page `p` needs to know of whether, and where, it merges. */
  lemma {:induction false} MergesLeftStep(z: Zone, p: nat)
    requires p in z.live && z.live[p] <= MAX_ORDER && |z.lists| == MAX_ORDER + 1
    ensures !CanMerge(z, p) ==> !MergesLeft(z, p)
    ensures CanMerge(z, p) && !Aligned(p, z.live[p] + 1) ==> MergesLeft(z, p)
    ensures CanMerge(z, p) && Aligned(p, z.live[p] + 1) ==>
      (MergesLeft(z, p) <==> MergesLeft(Merge(z, p), MergedHead(p, z.live[p])))
  {
  }

  /**
   free_pages as written, from any state whose marks are right, in particular one that earlier left merges have left
   behind. The marks are again right, and the zone they describe is the one after freeing the block. Lists that agreed
   with the marks before agree with them afterwards exactly when no merge went to the left.
   */
  method FreePagesAsWritten(a: BuddyAllocator, page: nat)
    requires a.freeMatrix.Length == MAX_ORDER + 1 && MarksRight(a.memMap[..], a.freeMatrix[..], a.zone)
    requires page < a.memMap.Length
    modifies a, a.memMap, a.freeMatrix
    ensures MarksRight(a.memMap[..], a.freeMatrix[..], a.zone) && a.zone == FreeBlock(old(a.zone), page)
    ensures page !in old(a.zone.live) ==> a.memMap[..] == old(a.memMap[..]) && a.freeMatrix[..] == old(a.freeMatrix[..])
    ensures page in old(a.zone.live) ==> old(a.zone).live[page] <= MAX_ORDER
    ensures old(a.Valid()) && page in old(a.zone.live) ==>
      ((exists lists :: Agree(a.memMap[..], a.freeMatrix[..], lists)) <==> !MergesLeft(old(a.zone), page))
    ensures old(a.Valid()) && (page in old(a.zone.live) ==> !MergesLeft(old(a.zone), page)) ==> a.Valid()
    ensures page < |old(a.memMap[..])|
    ensures (a.memMap[..], a.freeMatrix[..]) == FreeRaw(old(a.memMap[..]), old(a.freeMatrix[..]), page)
  {
    hide Settled, MarksRight, Merging, MergesLeft, MergeAndGive, MergeRaw, MergeTurn, CanMerge, Agree, Inserted, Give;
    ghost var z0, intact := a.zone, Settled(a.memMap[..], a.freeMatrix[..], a.zone);
    MarksRightAt(a.memMap[..], a.freeMatrix[..], a.zone, page);
    FreeBlockCases(a.zone, page);
    if a.memMap[page].state != Allocated { return; }
    MergingStart(a.memMap[..], a.freeMatrix[..], a.zone, page, intact);
    a.memMap[page] := a.memMap[page].(state := Buddy, prev := Null, next := Null);

    var p: nat, merged := page, true;
    ghost var z, d, n: nat := a.zone, if intact then Intact else Lost, MAX_ORDER;
    ghost var start := a.memMap[..];
    while merged && a.memMap[p].order < MAX_ORDER
      invariant p < a.memMap.Length && a.freeMatrix.Length == |z.lists| == MAX_ORDER + 1 && a.zone == z0
      invariant Merging(a.memMap[..], a.freeMatrix[..], z, p, d) && (d.Lost? <==> !intact)
      invariant p in z.live && a.memMap[p].order == z.live[p] <= MAX_ORDER && MAX_ORDER <= n + a.memMap[p].order
      invariant MergeAndGive(z, p) == FreeBlock(z0, page)
      invariant intact ==> (MergesLeft(z0, page) <==> !d.Intact? || MergesLeft(z, p))
      invariant MergeRaw(a.memMap[..], a.freeMatrix[..], p, n) ==
        MergeRaw(start, old(a.freeMatrix[..]), page, MAX_ORDER)
      invariant !merged ==> !CanMerge(z, p) && MergeTurn(a.memMap[..], a.freeMatrix[..], p).Stop?
      decreases merged, MAX_ORDER - a.memMap[p].order
    {
      MergesLeftStep(z, p);
      MergeAndGiveCases(z, p);
      MergeRawStep(a.memMap[..], a.freeMatrix[..], p, n);
      p, merged, z, d := MergeOnceAsWritten(a, p, z, d);
      if merged { n := n - 1; }
    }
    MergeAndGiveCases(z, p);
    NoMergeAtTop(z, p);
    MergesLeftStep(z, p);
    InsertMarks(a.memMap[..], a.freeMatrix[..], z, p, d);
    if d.Intact? { InsertIntact(a.memMap[..], a.freeMatrix[..], z, p); }
    if !d.Intact? && !d.Lost? { InsertDamaged(a.memMap[..], a.freeMatrix[..], z, p, d); }
    MergeRawEnd(a.memMap[..], a.freeMatrix[..], p, n);
    a.InsertFree(p);
    a.zone := Give(z, p);
  }

  lemma {:induction false} MergeLive(z: Zone, p: nat)
    requires p in z.live && z.live[p] < |z.lists| && BuddyOf(p, z.live[p]) >= 0
    ensures var h := MergedHead(p, z.live[p]); h in Merge(z, p).live && Merge(z, p).live[h] == z.live[p] + 1
  {
  }

  lemma {:induction false} NoMergeAtTop(z: Zone, p: nat)
    requires p in z.live
    ensures z.live[p] >= MAX_ORDER ==> !CanMerge(z, p)
  {
  }

  method MergeOnceAsWritten(a: BuddyAllocator, page: nat, ghost z: Zone, ghost d: Damage)
    returns (head: nat, merged: bool, ghost z': Zone, ghost d': Damage)
    requires page < a.memMap.Length && a.freeMatrix.Length == MAX_ORDER + 1
    requires Merging(a.memMap[..], a.freeMatrix[..], z, page, d) && a.memMap[page].order == z.live[page] < MAX_ORDER
    modifies a.memMap, a.freeMatrix
    ensures head < a.memMap.Length && Merging(a.memMap[..], a.freeMatrix[..], z', head, d')
    ensures head in z'.live && a.memMap[head].order == z'.live[head] <= MAX_ORDER && |z'.lists| == MAX_ORDER + 1
    ensures merged == CanMerge(z, page) && (d'.Lost? <==> d.Lost?)
    ensures merged ==>
      z' == Merge(z, page) && head == MergedHead(page, z.live[page]) && z'.live[head] == z.live[page] + 1
    ensures merged ==> (d'.Intact? <==> d.Intact? && Aligned(page, z.live[page] + 1))
    ensures merged ==>
      MergeTurn(old(a.memMap[..]), old(a.freeMatrix[..]), page) == Went(a.memMap[..], a.freeMatrix[..], head)
    ensures !merged ==>
      z' == z && head == page && d' == d && MergeTurn(old(a.memMap[..]), old(a.freeMatrix[..]), page).Stop?
    ensures !merged ==> a.memMap[..] == old(a.memMap[..]) && a.freeMatrix[..] == old(a.freeMatrix[..])
  {
    hide *;
    head, merged, z', d' := page, false, z, d;
    MergingChoice(a.memMap[..], a.freeMatrix[..], z, page, d);
    MergeTurnIs(a.memMap[..], a.freeMatrix[..], page);
    MergeLive(z, page);
    if AlignmentOrder(page) > a.memMap[page].order {
      var buddy := page + Pow2(a.memMap[page].order);
      if buddy < a.memMap.Length && a.memMap[buddy].state == Buddy && a.memMap[buddy].order == a.memMap[page].order {
        MergeReady(a.memMap[..], a.freeMatrix[..], z, page, d);
        d' := RightLists(a.memMap[..], a.freeMatrix[..], z, page, buddy, d);
        a.Absorb(buddy, page, buddy);
        z', merged := Merge(z, page), true;
      }
    } else {
      var buddy := page - Pow2(a.memMap[page].order);
      if a.memMap[buddy].state == Buddy && a.memMap[buddy].order == a.memMap[page].order {
        MergeReady(a.memMap[..], a.freeMatrix[..], z, page, d);
        d' := LeftLists(a.memMap[..], a.freeMatrix[..], z, page, buddy, d);
        a.Absorb(page, buddy, page);
        z', merged, head := Merge(z, page), true, buddy;
      }
    }
    MergingShape(a.memMap[..], a.freeMatrix[..], z', head, d');
  }

  /** One turn, case by case. */
  lemma {:induction false} MergeTurnIs(pages: seq<Page>, heads: seq<Link>, p: nat)
    requires p < |pages|
    ensures var k := pages[p].order; var b := p + Pow2(k); AlignmentOrder(p) > k ==>
      && (!(b < |pages| && pages[b].state == Buddy && pages[b].order == k) ==> MergeTurn(pages, heads, p).Stop?)
      && (b < |pages| && pages[b].state == Buddy && pages[b].order == k && Touchable(pages, heads, b, p, b) ==>
           var (pages', heads') := MergePages(pages, heads, b, p, b);
             MergeTurn(pages, heads, p) == Went(pages', heads', p))
    ensures var k := pages[p].order; var b := p - Pow2(k); AlignmentOrder(p) <= k && 0 <= b ==>
      && (!(pages[b].state == Buddy && pages[b].order == k) ==> MergeTurn(pages, heads, p).Stop?)
      && (pages[b].state == Buddy && pages[b].order == k && Touchable(pages, heads, p, b, p) ==>
           var (pages', heads') := MergePages(pages, heads, p, b, p);
             MergeTurn(pages, heads, p) == Went(pages', heads', b))
  {
    hide MergePages, AlignmentOrder;
  }
}
