/**
 The page array: what the `state` and `order` marks of every page say about the zone, and what the
 `prev`/`next` links and the eleven list heads say about the free lists.
 */
module Pages {
  import opened Arith
  import opened Zones

  datatype State = Reserved | Buddy | Allocated | Tail

  datatype Page = Page(state: State, order: nat, prev: Link, next: Link)

  /**
   The marks of page `i` agree with zone `z`. Page `x`, when it is a page, is the live block an operation
   is still working on: it carries the free mark although it is on no list.
   */
  ghost predicate PageOk(pg: Page, z: Zone, i: nat, x: int) {
    && (forall k: nat :: Free(z, i, k) ==> pg.state == Buddy && pg.order == k)
    && (i in z.live ==> pg.order == z.live[i] && pg.state == if i == x then Buddy else Allocated)
    && (pg.state == Buddy && i != x ==> Free(z, i, pg.order))
    && (pg.state == Allocated ==> i in z.live)
    && (pg.state == Reserved <==> !Covered(z, i))
  }

  ghost predicate Tiles(pages: seq<Page>, z: Zone, x: int) {
    && Tiling(z, |pages|)
    && forall i :: 0 <= i < |pages| ==> PageOk(pages[i], z, i, x)
  }

  predicate SameMark(a: Page, b: Page) {
    a.state == b.state && a.order == b.order
  }

  /** Marks outside `except` are the same. */
  ghost predicate MarksKept(pages: seq<Page>, pages': seq<Page>, except: set<nat>) {
    && |pages'| == |pages|
    && forall i :: 0 <= i < |pages| && i !in except ==> SameMark(pages[i], pages'[i])
  }

  /** The zones agree on what heads page `i`, and on whether `i` is managed. */
  ghost predicate SameAt(z: Zone, z': Zone, i: nat) {
    && (forall k: nat :: Free(z, i, k) <==> Free(z', i, k))
    && (i in z.live <==> i in z'.live)
    && (i in z.live ==> z.live[i] == z'.live[i])
    && (Covered(z, i) <==> Covered(z', i))
  }

  lemma {:induction false} PageOkKept(pg: Page, pg': Page, z: Zone, z': Zone, i: nat, x: int, x': int)
    requires PageOk(pg, z, i, x) && SameMark(pg, pg') && SameAt(z, z', i) && (i == x <==> i == x')
    ensures PageOk(pg', z', i, x')
  {
    assert Free(z, i, pg.order) <==> Free(z', i, pg.order);
  }

  /** Every managed page that heads no block is a tail; exactly the unmanaged pages are reserved. */
  lemma {:induction false} NonHeadsAreTails(pages: seq<Page>, z: Zone, x: int, i: nat)
    requires Tiles(pages, z, x) && i < |pages| && (x == i ==> i in z.live)
    ensures pages[i].state == Tail <==> Covered(z, i) && forall k: nat :: !Block(z, i, k)
    ensures pages[i].state == Reserved <==> !Covered(z, i)
  {
    assert PageOk(pages[i], z, i, x);
    if i in z.live {
      assert Live(z, i, z.live[i]);
      assert Block(z, i, z.live[i]);
    } else if pages[i].state == Buddy {
      assert Free(z, i, pages[i].order);
      assert Block(z, i, pages[i].order);
    }
  }

  lemma {:induction false} TilesTake(pages: seq<Page>, z: Zone, k: nat)
    requires Tiles(pages, z, -1) && k < |z.lists| && z.lists[k] != []
    requires Tiling(Take(z, k), |pages|) && forall i: nat :: Covered(Take(z, k), i) <==> Covered(z, i)
    ensures Tiles(pages, Take(z, k), z.lists[k][0])
  {
    var p, z' := z.lists[k][0], Take(z, k);
    TakeFree(z, |pages|, k);
    forall i | 0 <= i < |pages| ensures PageOk(pages[i], z', i, p) {
      assert PageOk(pages[i], z, i, -1);
      if i != p {
        assert i in z.live <==> i in z'.live;
        PageOkKept(pages[i], pages[i], z, z', i, -1, p);
      } else {
        assert Live(z', p, k) && Free(z, p, k);
      }
    }
  }

  lemma {:induction false} TilesGive(pages: seq<Page>, z: Zone, p: nat)
    requires Tiles(pages, z, p) && p in z.live && z.live[p] <= MAX_ORDER
    requires Tiling(Give(z, p), |pages|) && forall i: nat :: Covered(Give(z, p), i) <==> Covered(z, i)
    ensures Tiles(pages, Give(z, p), -1)
  {
    var z' := Give(z, p);
    GiveFree(z, |pages|, p);
    forall i | 0 <= i < |pages| ensures PageOk(pages[i], z', i, -1) {
      assert PageOk(pages[i], z, i, p);
      if i != p {
        PageOkKept(pages[i], pages[i], z, z', i, p, -1);
      } else {
        forall k: nat ensures !Free(z, p, k) {}
        assert Free(z', p, z.live[p]);
      }
    }
  }

  /** Flipping the mark of a live head between free and allocated starts or ends an operation. */
  lemma {:induction false} TilesMark(pages: seq<Page>, pages': seq<Page>, z: Zone, p: nat, x: int, x': int)
    requires Tiles(pages, z, x) && p in z.live && p < |pages|
    requires (x == -1 && x' == p) || (x == p && x' == -1)
    requires MarksKept(pages, pages', {p}) && pages'[p].order == pages[p].order
    requires pages'[p].state == if x' == p then Buddy else Allocated
    ensures Tiles(pages', z, x')
  {
    forall i | 0 <= i < |pages| ensures PageOk(pages'[i], z, i, x') {
      assert PageOk(pages[i], z, i, x);
      if i != p {
        PageOkKept(pages[i], pages'[i], z, z, i, x, x');
      } else {
        forall k: nat ensures !Free(z, p, k) {}
      }
    }
  }

  lemma {:induction false} TilesSplit(pages: seq<Page>, pages': seq<Page>, z: Zone, p: nat)
    requires Tiles(pages, z, p) && p in z.live && 0 < z.live[p] <= MAX_ORDER
    requires Tiling(Split(z, p), |pages|) && forall i: nat :: Covered(Split(z, p), i) <==> Covered(z, i)
    requires var k := z.live[p] - 1; var b := p + Pow2(k);
      && MarksKept(pages, pages', {p, b}) && b < |pages|
      && pages'[p].state == pages[p].state && pages'[p].order == k
      && pages'[b].state == Buddy && pages'[b].order == k
    ensures Tiles(pages', Split(z, p), p)
  {
    var k := z.live[p] - 1;
    var b := p + Pow2(k);
    var z' := Split(z, p);
    hide Tiling, Covered, Split, PageOk, SameAt;
    forall i | 0 <= i < |pages| ensures PageOk(pages'[i], z', i, p) {
      TilesSplitAt(pages, pages', z, p, i);
    }
  }

  lemma {:induction false} TilesSplitAt(pages: seq<Page>, pages': seq<Page>, z: Zone, p: nat, i: nat)
    requires Tiles(pages, z, p) && p in z.live && 0 < z.live[p] <= MAX_ORDER && i < |pages|
    requires Tiling(Split(z, p), |pages|) && forall i: nat :: Covered(Split(z, p), i) <==> Covered(z, i)
    requires var k := z.live[p] - 1; var b := p + Pow2(k);
      && MarksKept(pages, pages', {p, b}) && b < |pages|
      && pages'[p].state == pages[p].state && pages'[p].order == k
      && pages'[b].state == Buddy && pages'[b].order == k
    ensures PageOk(pages'[i], Split(z, p), i, p)
  {
    var k := z.live[p] - 1;
    var b := p + Pow2(k);
    var z' := Split(z, p);
    assert PageOk(pages[i], z, i, p);
    SplitAtPage(z, |pages|, p, i);
    hide Tiling, Tiles;
    if i == b {
      SplitAtBuddy(pages'[b], z, z', p, b, k);
    } else if i != p {
      PageOkKept(pages[i], pages'[i], z, z', i, p, p);
    }
  }

  /** What a split changes at one page. */
  lemma {:induction false} SplitAtPage(z: Zone, n: nat, p: nat, i: nat)
    requires Tiling(z, n) && p in z.live && 0 < z.live[p] <= MAX_ORDER
    requires Covered(Split(z, p), i) <==> Covered(z, i)
    ensures var k := z.live[p] - 1; var b := p + Pow2(k); var z' := Split(z, p);
      && p in z'.live && z'.live[p] == k && b != p
      && (i == p ==> forall l: nat :: !Free(z', p, l))
      && (i == b ==> forall l: nat :: !Block(z, b, l))
      && (i == b ==> forall l: nat :: Free(z', b, l) <==> Free(z, b, l) || l == k)
      && (i == b ==> forall l: nat :: Live(z', b, l) <==> Live(z, b, l))
      && (i != p && i != b ==> SameAt(z, z', i))
  {
    SplitFree(z, n, p);
  }

  lemma {:induction false} SplitAtBuddy(pg: Page, z: Zone, z': Zone, p: nat, b: nat, k: nat)
    requires pg.state == Buddy && pg.order == k && b != p
    requires forall l: nat :: !Block(z, b, l)
    requires forall l: nat :: Free(z', b, l) <==> Free(z, b, l) || l == k
    requires forall l: nat :: Live(z', b, l) <==> Live(z, b, l)
    ensures PageOk(pg, z', b, p)
  {
    assert forall l: nat :: !Free(z, b, l) by { forall l: nat ensures !Free(z, b, l) { assert !Block(z, b, l); } }
    assert b in z'.live ==> Live(z', b, z'.live[b]) && Block(z, b, z'.live[b]);
    assert Free(z', b, k);
    assert Block(z', b, k) && Within(b, b, k);
    assert Covered(z', b);
  }

  /** The page past the left half of a block being split carries the tail mark. */
  lemma {:induction false} SplitBuddyIsTail(pages: seq<Page>, z: Zone, p: nat)
    requires p in z.live && z.live[p] > 0 && Tiles(pages, z, p)
    ensures var b := p + Pow2(z.live[p] - 1); b < |pages| && pages[b].state == Tail
  {
    OneBlockPerHead(z, |pages|, p, z.live[p], 0);
    SplitFree(z, |pages|, p);
    var b := p + Pow2(z.live[p] - 1);
    assert Block(z, p, z.live[p]) && Within(b, p, z.live[p]);
    assert Covered(z, b);
    NonHeadsAreTails(pages, z, p, b);
  }

  lemma {:induction false} TilesMerge(pages: seq<Page>, pages': seq<Page>, z: Zone, p: nat)
    requires Tiles(pages, z, p) && p in z.live && CanMerge(z, p)
    requires Tiling(Merge(z, p), |pages|) && forall i: nat :: Covered(Merge(z, p), i) <==> Covered(z, i)
    requires var k := z.live[p]; var b := BuddyOf(p, k); var m := MergedHead(p, k); var o := if m == p then b else p;
      && MarksKept(pages, pages', {p, b}) && b < |pages| && p < |pages|
      && pages'[m].state == Buddy && pages'[m].order == k + 1
      && pages'[o].state == Tail
    ensures Tiles(pages', Merge(z, p), MergedHead(p, z.live[p]))
  {
    MergeFree(z, |pages|, p);
    hide Tiling, Covered, Merge, PageOk, SameAt, CanMerge;
    forall i | 0 <= i < |pages| ensures PageOk(pages'[i], Merge(z, p), i, MergedHead(p, z.live[p])) {
      TilesMergeAt(pages, pages', z, p, i);
    }
  }

  lemma {:induction false} TilesMergeAt(pages: seq<Page>, pages': seq<Page>, z: Zone, p: nat, i: nat)
    requires Tiles(pages, z, p) && p in z.live && CanMerge(z, p) && i < |pages|
    requires Tiling(Merge(z, p), |pages|) && forall i: nat :: Covered(Merge(z, p), i) <==> Covered(z, i)
    requires var k := z.live[p]; var b := BuddyOf(p, k); var m := MergedHead(p, k); var o := if m == p then b else p;
      && MarksKept(pages, pages', {p, b}) && b < |pages| && p < |pages|
      && pages'[m].state == Buddy && pages'[m].order == k + 1
      && pages'[o].state == Tail
    ensures PageOk(pages'[i], Merge(z, p), i, MergedHead(p, z.live[p]))
  {
    MergeFree(z, |pages|, p);
    var k := z.live[p];
    var b: nat := BuddyOf(p, k);
    var m := MergedHead(p, k);
    var z' := Merge(z, p);
    assert PageOk(pages[i], z, i, p);
    hide Tiling, Tiles;
    if i == p || i == b {
      assert Block(z, i, k) && Within(i, i, k) && Covered(z, i);
      MergeAtPair(pages'[i], z, z', p, b, m, k, i);
    } else {
      assert SameAt(z, z', i);
      PageOkKept(pages[i], pages'[i], z, z', i, p, m);
    }
  }

  lemma {:induction false} MergeAtPair(pg: Page, z: Zone, z': Zone, p: nat, b: nat, m: nat, k: nat, i: nat)
    requires p in z.live && (forall l: nat :: !Free(z, p, l)) && p != b && (m == p || m == b) && (i == p || i == b)
    requires forall j: nat, l: nat :: Free(z', j, l) <==> Free(z, j, l) && j != b
    requires z'.live == (z.live - {p})[m := k + 1] && b !in z.live && Covered(z', i)
    requires i == m ==> pg.state == Buddy && pg.order == k + 1
    requires i != m ==> pg.state == Tail
    ensures PageOk(pg, z', i, m)
  {
  }

  /** What the merge loop reads in the marks is what the zone says. */
  lemma {:induction false} MergeTest(pages: seq<Page>, z: Zone, p: nat)
    requires p in z.live && Tiles(pages, z, p)
    ensures z.live[p] <= MAX_ORDER && Aligned(p, z.live[p])
    ensures BuddyOf(p, z.live[p]) >= 0 && BuddyOf(p, z.live[p]) != p
    ensures p < |pages| && pages[p].order == z.live[p]
    ensures var k := z.live[p]; var b := BuddyOf(p, k);
      FreeInt(z, b, k) <==> b < |pages| && pages[b].state == Buddy && pages[b].order == k
  {
    var k := z.live[p];
    OneBlockPerHead(z, |pages|, p, k, 0);
    BuddyPair(p, k);
    assert PageOk(pages[p], z, p, p);
    var b := BuddyOf(p, k);
    if b < |pages| {
      assert PageOk(pages[b], z, b, p);
    } else if Free(z, b, k) {
      OneBlockPerHead(z, |pages|, b, k, 0);
    }
  }

  // ----- Links

  function Front(l: seq<nat>): Link {
    if l == [] then Null else Pfn(l[0])
  }

  function Before(l: seq<nat>, j: nat): Link
    requires j < |l|
  {
    if j == 0 then Null else Pfn(l[j - 1])
  }

  function After(l: seq<nat>, j: nat): Link
    requires j < |l|
  {
    if j + 1 == |l| then Null else Pfn(l[j + 1])
  }

  /** The pages of `l`, in order, are a doubly linked list that starts at `h`. */
  ghost predicate DList(pages: seq<Page>, h: Link, l: seq<nat>) {
    && h == Front(l)
    && (forall j :: 0 <= j < |l| ==> l[j] < |pages|)
    && forall j {:trigger pages[l[j]]} :: 0 <= j < |l| ==>
         pages[l[j]].prev == Before(l, j) && pages[l[j]].next == After(l, j)
  }

  ghost predicate Linked(pages: seq<Page>, heads: seq<Link>, lists: seq<seq<nat>>) {
    && |heads| == |lists|
    && forall k :: 0 <= k < |lists| ==> DList(pages, heads[k], lists[k])
  }

  /** No page stands on two lists, nor twice on one. */
  ghost predicate Separate(lists: seq<seq<nat>>) {
    && (forall k :: 0 <= k < |lists| ==> Distinct(lists[k]))
    && (forall k, l, x :: 0 <= k < |lists| && 0 <= l < |lists| && x in lists[k] && x in lists[l] ==> k == l)
  }

  lemma {:induction false} TilingSeparate(z: Zone, n: nat)
    requires Tiling(z, n)
    ensures Separate(z.lists)
  {
    forall k, l, x | 0 <= k < |z.lists| && 0 <= l < |z.lists| && x in z.lists[k] && x in z.lists[l]
      ensures k == l
    {
      assert Free(z, x, k) && Free(z, x, l);
      OneBlockPerHead(z, n, x, k, l);
    }
  }

  /** Only links of pages in `except` differ. */
  ghost predicate LinksKept(pages: seq<Page>, pages': seq<Page>, except: set<nat>) {
    && |pages'| == |pages|
    && forall i :: 0 <= i < |pages| && i !in except ==>
      pages'[i].prev == pages[i].prev && pages'[i].next == pages[i].next
  }

  lemma {:induction false} DListKept(pages: seq<Page>, pages': seq<Page>, h: Link, l: seq<nat>, except: set<nat>)
    requires DList(pages, h, l) && LinksKept(pages, pages', except)
    requires forall x :: x in except ==> x !in l
    ensures DList(pages', h, l)
  {
  }

  // ----- The list primitives on values

  function SetNext(pages: seq<Page>, at: Link, to: Link): seq<Page>
    requires at.Pfn? ==> at.pfn < |pages|
  {
    if at.Null? then pages else pages[at.pfn := pages[at.pfn].(next := to)]
  }

  function SetPrev(pages: seq<Page>, at: Link, to: Link): seq<Page>
    requires at.Pfn? ==> at.pfn < |pages|
  {
    if at.Null? then pages else pages[at.pfn := pages[at.pfn].(prev := to)]
  }

  predicate InRange(at: Link, n: nat) {
    at.Pfn? ==> at.pfn < n
  }

  /** insert_free: page `p` goes to the front of the list of its order and gets the free mark. */
  function Inserted(pages: seq<Page>, heads: seq<Link>, p: nat): (seq<Page>, seq<Link>)
    requires p < |pages| && pages[p].order < |heads| && InRange(heads[pages[p].order], |pages|)
  {
    var k := pages[p].order;
    var linked := pages[p := pages[p].(next := heads[k], prev := Null)];
    var pages' := SetPrev(linked, heads[k], Pfn(p));
    (pages'[p := pages'[p].(state := Buddy)], heads[k := Pfn(p)])
  }

  /** pop_free on a list that is not empty. */
  function Popped(pages: seq<Page>, heads: seq<Link>, k: nat): (seq<Page>, seq<Link>)
    requires k < |heads| && heads[k].Pfn? && heads[k].pfn < |pages| && InRange(pages[heads[k].pfn].next, |pages|)
  {
    var p := heads[k].pfn;
    var pages' := SetPrev(pages, pages[p].next, Null);
    (pages'[p := pages'[p].(next := Null, prev := Null)], heads[k := pages[p].next])
  }

  /** remove_free on a page that is marked free; a page with no links that is not its list's head is left alone. */
  function Unlinked(pages: seq<Page>, heads: seq<Link>, p: nat): (seq<Page>, seq<Link>)
    requires p < |pages| && pages[p].order < |heads|
    requires InRange(pages[p].prev, |pages|) && InRange(pages[p].next, |pages|)
  {
    var k := pages[p].order;
    var pg := pages[p];
    if pg.state != Buddy || (pg.prev.Null? && pg.next.Null? && heads[k] != Pfn(p)) then (pages, heads)
    else
      var pages1 := SetNext(pages, pg.prev, pg.next);
      var heads1 := if pg.prev.Null? then heads[k := pg.next] else heads;
      var pages2 := SetPrev(pages1, pages1[p].next, pages1[p].prev);
      (pages2[p := pages2[p].(next := Null, prev := Null)], heads1)
  }

  lemma {:induction false} InsertLinks(pages: seq<Page>, heads: seq<Link>, lists: seq<seq<nat>>, p: nat)
    requires Linked(pages, heads, lists) && Separate(lists)
    requires p < |pages| && pages[p].order < |lists|
    requires forall k :: 0 <= k < |lists| ==> p !in lists[k]
    ensures InRange(heads[pages[p].order], |pages|)
    ensures var k := pages[p].order; var (pages', heads') := Inserted(pages, heads, p);
      && Linked(pages', heads', lists[k := [p] + lists[k]])
      && MarksKept(pages, pages', {p}) && pages'[p].state == Buddy && pages'[p].order == k
  {
    var k := pages[p].order;
    var l := lists[k];
    assert DList(pages, heads[k], l);
    assert l != [] ==> l[0] in l;
    var (pages', heads') := Inserted(pages, heads, p);
    forall j | 0 <= j < |lists|
      ensures DList(pages', heads'[j], lists[k := [p] + l][j])
    {
      if j == k {
        InsertOne(pages, pages', heads[k], l, p);
      } else {
        var except := if l == [] then {p} else {p, l[0]};
        DListKept(pages, pages', heads[j], lists[j], except);
      }
    }
  }

  lemma {:induction false} InsertOne(pages: seq<Page>, pages': seq<Page>, h: Link, l: seq<nat>, p: nat)
    requires DList(pages, h, l) && Distinct(l) && p !in l && p < |pages| == |pages'|
    requires pages'[p].prev == Null && pages'[p].next == h
    requires l != [] ==> pages'[l[0]].prev == Pfn(p) && pages'[l[0]].next == pages[l[0]].next
    requires forall i :: 0 <= i < |pages| && i != p && (l == [] || i != l[0]) ==>
      pages'[i].prev == pages[i].prev && pages'[i].next == pages[i].next
    ensures DList(pages', Pfn(p), [p] + l)
  {
    var l' := [p] + l;
    forall j | 0 <= j < |l'|
      ensures l'[j] < |pages'| && pages'[l'[j]].prev == Before(l', j) && pages'[l'[j]].next == After(l', j)
    {
      if j > 0 {
        assert l'[j] == l[j - 1];
        assert pages[l[j - 1]].prev == Before(l, j - 1) && pages[l[j - 1]].next == After(l, j - 1);
        assert l[j - 1] in l;
      }
    }
  }

  lemma {:induction false} PopLinks(pages: seq<Page>, heads: seq<Link>, lists: seq<seq<nat>>, k: nat)
    requires Linked(pages, heads, lists) && Separate(lists)
    requires k < |lists| && lists[k] != []
    ensures heads[k] == Pfn(lists[k][0]) && lists[k][0] < |pages| && InRange(pages[lists[k][0]].next, |pages|)
    ensures var (pages', heads') := Popped(pages, heads, k);
      && Linked(pages', heads', lists[k := lists[k][1..]])
      && MarksKept(pages, pages', {})
  {
    var l := lists[k];
    assert DList(pages, heads[k], l);
    assert l[0] in l && (|l| > 1 ==> l[1] in l);
    assert pages[l[0]].next == After(l, 0);
    var (pages', heads') := Popped(pages, heads, k);
    forall j | 0 <= j < |lists|
      ensures DList(pages', heads'[j], lists[k := l[1..]][j])
    {
      if j == k {
        forall m | 0 <= m < |l| - 1
          ensures pages'[l[1..][m]].prev == Before(l[1..], m) && pages'[l[1..][m]].next == After(l[1..], m)
        {
          assert l[1..][m] == l[m + 1];
        }
      } else {
        DListKept(pages, pages', heads[j], lists[j], if |l| > 1 then {l[0], l[1]} else {l[0]});
      }
    }
  }

  lemma {:induction false} WithoutAt(s: seq<nat>, m: nat)
    requires Distinct(s) && m < |s|
    ensures Without(s, s[m]) == s[..m] + s[m + 1..]
  {
    if m > 0 {
      assert s[1..][m - 1] == s[m];
      WithoutAt(s[1..], m - 1);
      assert [s[0]] + (s[1..][..m - 1] + s[1..][m..]) == s[..m] + s[m + 1..];
    }
  }

  /** After `Unlinked`, only the two neighbours of page `p` and `p` itself have other links. */
  ghost predicate UnlinkShape(pages: seq<Page>, pages': seq<Page>, p: nat)
    requires p < |pages|
  {
    && |pages'| == |pages|
    && forall i :: 0 <= i < |pages| && i != p ==>
         && pages'[i].next == (if pages[p].prev == Pfn(i) then pages[p].next else pages[i].next)
         && pages'[i].prev == (if pages[p].next == Pfn(i) then pages[p].prev else pages[i].prev)
  }

  lemma {:induction false} UnlinkedShape(pages: seq<Page>, heads: seq<Link>, p: nat)
    requires p < |pages| && pages[p].order < |heads| && pages[p].state == Buddy
    requires InRange(pages[p].prev, |pages|) && InRange(pages[p].next, |pages|)
    requires pages[p].prev != Pfn(p) && pages[p].next != Pfn(p)
    requires pages[p].prev.Null? && pages[p].next.Null? ==> heads[pages[p].order] == Pfn(p)
    ensures var (pages', heads') := Unlinked(pages, heads, p); var k := pages[p].order;
      && UnlinkShape(pages, pages', p) && MarksKept(pages, pages', {})
      && heads' == if pages[p].prev.Null? then heads[k := pages[p].next] else heads
  {
  }

  lemma {:induction false} UnlinkLinks(pages: seq<Page>, heads: seq<Link>, lists: seq<seq<nat>>, p: nat)
    requires Linked(pages, heads, lists) && Separate(lists)
    requires p < |pages| && pages[p].order < |lists| && pages[p].state == Buddy && p in lists[pages[p].order]
    ensures InRange(pages[p].prev, |pages|) && InRange(pages[p].next, |pages|)
    ensures var k := pages[p].order; var (pages', heads') := Unlinked(pages, heads, p);
      && Linked(pages', heads', lists[k := Without(lists[k], p)])
      && MarksKept(pages, pages', {})
  {
    var k := pages[p].order;
    var l := lists[k];
    var m :| 0 <= m < |l| && l[m] == p;
    assert DList(pages, heads[k], l);
    assert pages[l[m]].prev == Before(l, m) && pages[l[m]].next == After(l, m);
    assert m > 0 ==> l[m - 1] < |pages|;
    assert m + 1 < |l| ==> l[m + 1] < |pages|;
    UnlinkedShape(pages, heads, p);
    var (pages', heads') := Unlinked(pages, heads, p);
    UnlinkAll(pages, pages', heads, heads', lists, k, m);
  }

  lemma {:induction false} UnlinkAll(pages: seq<Page>, pages': seq<Page>, heads: seq<Link>, heads': seq<Link>,
                                     lists: seq<seq<nat>>, k: nat, m: nat)
    requires Linked(pages, heads, lists) && Separate(lists) && k < |lists| && m < |lists[k]|
    requires DList(pages, heads[k], lists[k]) && UnlinkShape(pages, pages', lists[k][m])
    requires heads' == if m == 0 then heads[k := After(lists[k], 0)] else heads
    ensures Linked(pages', heads', lists[k := Without(lists[k], lists[k][m])])
  {
    var l := lists[k];
    WithoutAt(l, m);
    forall j | 0 <= j < |lists|
      ensures DList(pages', heads'[j], lists[k := l[..m] + l[m + 1..]][j])
    {
      if j == k {
        UnlinkOne(pages, pages', heads[k], heads'[k], l, m);
      } else {
        assert forall x :: x in l ==> x !in lists[j];
        UnlinkOther(pages, pages', heads[k], l, m, heads[j], lists[j]);
      }
    }
  }

  lemma {:induction false} UnlinkOther(pages: seq<Page>, pages': seq<Page>, h: Link, l: seq<nat>, m: nat,
                                       g: Link, other: seq<nat>)
    requires DList(pages, h, l) && m < |l| && UnlinkShape(pages, pages', l[m])
    requires DList(pages, g, other) && forall x :: x in l ==> x !in other
    ensures DList(pages', g, other)
  {
    assert pages[l[m]].prev == Before(l, m) && pages[l[m]].next == After(l, m);
    var except := {l[m]} + (if m > 0 then {l[m - 1]} else {}) + (if m + 1 < |l| then {l[m + 1]} else {});
    assert forall x :: x in except ==> x in l;
    DListKept(pages, pages', g, other, except);
  }

  /** The list without its member at place `m`. */
  function Removed(l: seq<nat>, m: nat): (r: seq<nat>)
    requires m < |l|
    ensures |r| == |l| - 1 && forall j :: 0 <= j < |r| ==> r[j] == l[Skip(m, j)]
  {
    l[..m] + l[m + 1..]
  }

  function Skip(m: nat, j: nat): nat { if j < m then j else j + 1 }

  lemma {:induction false} UnlinkOne(pages: seq<Page>, pages': seq<Page>, h: Link, h': Link, l: seq<nat>, m: nat)
    requires DList(pages, h, l) && Distinct(l) && m < |l| && UnlinkShape(pages, pages', l[m])
    requires h' == if m == 0 then After(l, 0) else h
    ensures DList(pages', h', l[..m] + l[m + 1..])
  {
    var r := Removed(l, m);
    assert r == l[..m] + l[m + 1..];
    assert h == Front(l) && h' == Front(r);
    hide UnlinkShape, Distinct, Removed, Before, After;
    forall j | 0 <= j < |r|
      ensures r[j] < |pages'| && pages'[r[j]].prev == Before(r, j) && pages'[r[j]].next == After(r, j)
    {
      UnlinkOneAt(pages, pages', h, l, m, j);
    }
  }

  lemma {:induction false} UnlinkOneAt(pages: seq<Page>, pages': seq<Page>, h: Link, l: seq<nat>, m: nat, j: nat)
    requires DList(pages, h, l) && Distinct(l) && m < |l| && UnlinkShape(pages, pages', l[m]) && j < |l| - 1
    ensures var r := Removed(l, m);
      r[j] < |pages'| && pages'[r[j]].prev == Before(r, j) && pages'[r[j]].next == After(r, j)
  {
    CutNeighbours(l, m, j);
    hide DList, UnlinkShape, Distinct, Removed, Before, After;
    UnlinkedNeighbours(pages, pages', h, l, m, Skip(m, j));
  }


  /** Neighbours in a sequence with place `m` cut out. */
  lemma {:induction false} CutNeighbours(l: seq<nat>, m: nat, j: nat)
    requires m < |l| && j < |l| - 1
    ensures var r, o := Removed(l, m), Skip(m, j);
      && Before(r, j) == (if o == m + 1 then Before(l, m) else Before(l, o))
      && After(r, j) == (if o + 1 == m then After(l, m) else After(l, o))
  {
    hide Removed;
  }

  lemma {:induction false} UnlinkedNeighbours(pages: seq<Page>, pages': seq<Page>, h: Link, l: seq<nat>, m: nat, o: nat)
    requires DList(pages, h, l) && Distinct(l) && m < |l| && o < |l| && o != m && UnlinkShape(pages, pages', l[m])
    ensures l[o] < |pages'|
    ensures pages'[l[o]].prev == if o == m + 1 then Before(l, m) else Before(l, o)
    ensures pages'[l[o]].next == if o + 1 == m then After(l, m) else After(l, o)
  {
    var pg := pages[l[m]];
    assert pg.prev == Before(l, m) && pg.next == After(l, m);
    NeighbourPlace(l, m, o);
    var i := l[o];
    assert i != l[m];
    assert pages'[i].next == (if pg.prev == Pfn(i) then pg.next else pages[i].next);
    assert pages'[i].prev == (if pg.next == Pfn(i) then pg.prev else pages[i].prev);
    assert pages[l[o]].prev == Before(l, o) && pages[l[o]].next == After(l, o);
  }

  lemma {:induction false} NeighbourPlace(l: seq<nat>, m: nat, o: nat)
    requires Distinct(l) && m < |l| && o < |l| && o != m
    ensures Before(l, m) == Pfn(l[o]) <==> o + 1 == m
    ensures After(l, m) == Pfn(l[o]) <==> o == m + 1
  {
    assert m > 0 && l[m - 1] == l[o] ==> o == m - 1;
    assert m + 1 < |l| && l[m + 1] == l[o] ==> o == m + 1;
  }

  /** The links determine the lists: two readings of the same page array agree. */
  lemma {:induction false} ListsUnique(pages: seq<Page>, h: Link, l: seq<nat>, l': seq<nat>)
    requires DList(pages, h, l) && DList(pages, h, l')
    ensures l == l'
  {
    var m := if |l| < |l'| then |l| else |l'|;
    SamePrefix(pages, h, l, l', m);
    if m > 0 {
      assert pages[l[m - 1]].next == After(l, m - 1);
      assert pages[l'[m - 1]].next == After(l', m - 1);
    }
    assert |l| == |l'|;
  }

  lemma {:induction false} SamePrefix(pages: seq<Page>, h: Link, l: seq<nat>, l': seq<nat>, m: nat)
    requires DList(pages, h, l) && DList(pages, h, l') && m <= |l| && m <= |l'|
    ensures forall j :: 0 <= j < m ==> l[j] == l'[j]
    decreases m
  {
    if m > 0 {
      SamePrefix(pages, h, l, l', m - 1);
      if m > 1 {
        assert pages[l[m - 2]].next == After(l, m - 2);
        assert pages[l'[m - 2]].next == After(l', m - 2);
      }
    }
  }
}
