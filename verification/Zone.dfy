/**
 The buddy allocator as a plain machine: eleven free lists of block heads and a map of the
 live (allocated) blocks. No page array and no links; the page array is in module Pages.
 */
module Zones {
  import opened Arith

  const MAX_ORDER: nat := 10

  /** A page, or no page: the result of an allocation, and a link between pages. */
  datatype Link = Null | Pfn(pfn: nat)

  datatype Zone = Zone(lists: seq<seq<nat>>, live: map<nat, nat>)

  predicate Free(z: Zone, i: nat, k: nat) {
    k < |z.lists| && i in z.lists[k]
  }

  predicate Live(z: Zone, i: nat, k: nat) {
    i in z.live && z.live[i] == k
  }

  predicate Block(z: Zone, i: nat, k: nat) {
    Free(z, i, k) || Live(z, i, k)
  }

  predicate Within(i: nat, h: nat, k: nat) {
    h <= i < h + Pow2(k)
  }

  /** Page `i` lies in some block. */
  ghost predicate Covered(z: Zone, i: nat) {
    exists h: nat, k: nat :: Block(z, h, k) && Within(i, h, k)
  }

  /** Page `i` lies in some free block. */
  ghost predicate FreeAt(z: Zone, i: nat) {
    exists h: nat, k: nat :: Free(z, h, k) && Within(i, h, k)
  }

  /** Page `i` lies in some live block. */
  ghost predicate LiveAt(z: Zone, i: nat) {
    exists h: nat, k: nat :: Live(z, h, k) && Within(i, h, k)
  }

  predicate Distinct(s: seq<nat>) {
    forall a, b :: 0 <= a < b < |s| ==> s[a] != s[b]
  }

  /** Blocks of both kinds are aligned, inside `n` pages, and no head lies inside another block. */
  ghost predicate Tiling(z: Zone, n: nat) {
    && |z.lists| == MAX_ORDER + 1
    && (forall k :: 0 <= k < |z.lists| ==> Distinct(z.lists[k]))
    && (forall i: nat, k: nat :: Block(z, i, k) ==> k <= MAX_ORDER && Aligned(i, k) && i + Pow2(k) <= n)
    && (forall i: nat, k: nat, j: nat, l: nat ::
          Block(z, i, k) && Block(z, j, l) && Within(j, i, k) ==> i == j && k == l)
    && (forall i: nat, k: nat :: Free(z, i, k) ==> i !in z.live)
  }

  /** No two buddies below the maximum order are both free. */
  ghost predicate Coalesced(z: Zone) {
    forall i: nat, k: nat {:trigger BuddyOf(i, k)} :: k < MAX_ORDER && Free(z, i, k) ==> !FreeInt(z, BuddyOf(i, k), k)
  }

  predicate FreeInt(z: Zone, i: int, k: nat) {
    i >= 0 && Free(z, i, k)
  }

  ghost predicate Ok(z: Zone, n: nat) {
    Tiling(z, n) && Coalesced(z)
  }

  // ----- The four steps the allocator is made of

  function Without(s: seq<nat>, x: nat): (r: seq<nat>)
  {
    if s == [] then [] else if s[0] == x then s[1..] else [s[0]] + Without(s[1..], x)
  }

  /** The first block of list `k` leaves the list and becomes live. */
  function Take(z: Zone, k: nat): Zone
    requires k < |z.lists| && z.lists[k] != []
  {
    Zone(z.lists[k := z.lists[k][1..]], z.live[z.lists[k][0] := k])
  }

  /** A live block keeps its left half; the right half goes to the front of its list. */
  function Split(z: Zone, p: nat): Zone
    requires p in z.live && 0 < z.live[p] <= |z.lists|
  {
    var k := z.live[p] - 1;
    Zone(z.lists[k := [p + Pow2(k)] + z.lists[k]], z.live[p := k])
  }

  /** A live block absorbs its free buddy; the head of the result is the left one of the two. */
  function Merge(z: Zone, p: nat): Zone
    requires p in z.live && z.live[p] < |z.lists| && BuddyOf(p, z.live[p]) >= 0
  {
    var k := z.live[p];
    var b := BuddyOf(p, k);
    Zone(z.lists[k := Without(z.lists[k], b)], (z.live - {p})[MergedHead(p, k) := k + 1])
  }

  function MergedHead(p: nat, k: nat): (h: nat)
    requires BuddyOf(p, k) >= 0
  {
    if Aligned(p, k + 1) then p else BuddyOf(p, k)
  }

  /** A live block goes to the front of its free list. */
  function Give(z: Zone, p: nat): Zone
    requires p in z.live && z.live[p] < |z.lists|
  {
    var k := z.live[p];
    Zone(z.lists[k := [p] + z.lists[k]], z.live - {p})
  }

  predicate CanMerge(z: Zone, p: nat)
    requires p in z.live
  {
    z.live[p] < MAX_ORDER && FreeInt(z, BuddyOf(p, z.live[p]), z.live[p])
  }

  // ----- Membership facts

  lemma {:induction false} WithoutMembers(s: seq<nat>, x: nat)
    requires Distinct(s)
    ensures Distinct(Without(s, x))
    ensures forall y :: y in Without(s, x) <==> y in s && y != x
  {
    if s != [] {
      assert s == [s[0]] + s[1..];
      if s[0] != x {
        WithoutMembers(s[1..], x);
        assert s[0] !in s[1..];
        PushMembers(Without(s[1..], x), s[0]);
      }
    }
  }

  lemma {:induction false} PushMembers(s: seq<nat>, x: nat)
    requires Distinct(s) && x !in s
    ensures Distinct([x] + s)
    ensures forall y :: y in [x] + s <==> y == x || y in s
  {
  }

  lemma {:induction false} PopMembers(s: seq<nat>)
    requires Distinct(s) && s != []
    ensures Distinct(s[1..])
    ensures forall y :: y in s[1..] <==> y in s && y != s[0]
  {
    assert s == [s[0]] + s[1..];
  }

  lemma {:induction false} OneBlockPerHead(z: Zone, n: nat, p: nat, k: nat, l: nat)
    requires Tiling(z, n) && Block(z, p, k)
    ensures Block(z, p, l) ==> l == k
    ensures k <= MAX_ORDER && Aligned(p, k) && p + Pow2(k) <= n
  {
    assert Within(p, p, k);
  }

  // ----- Each step keeps the tiling and covers the same pages

  lemma {:induction false} TakeFree(z: Zone, n: nat, k: nat)
    requires Tiling(z, n) && k < |z.lists| && z.lists[k] != []
    ensures var p := z.lists[k][0]; var z' := Take(z, k);
      && Free(z, p, k) && Live(z', p, k)
      && (forall i: nat, l: nat :: Free(z', i, l) <==> Free(z, i, l) && i != p)
      && (forall i: nat, l: nat :: i != p ==> (Live(z', i, l) <==> Live(z, i, l)))
      && (forall i: nat, l: nat :: Block(z', i, l) <==> Block(z, i, l))
  {
    var p := z.lists[k][0];
    var z' := Take(z, k);
    PopMembers(z.lists[k]);
    assert Free(z, p, k);
    forall i: nat, l: nat
      ensures Free(z', i, l) <==> Free(z, i, l) && i != p
    {
      if i == p { OneBlockPerHead(z, n, p, k, l); }
    }
    forall i: nat, l: nat
      ensures Block(z', i, l) <==> Block(z, i, l)
    {
      if i == p { OneBlockPerHead(z, n, p, k, l); }
    }
  }

  lemma {:induction false} TakeOk(z: Zone, n: nat, k: nat)
    requires Ok(z, n) && k < |z.lists| && z.lists[k] != []
    ensures Ok(Take(z, k), n)
  {
    TakeFree(z, n, k);
    PopMembers(z.lists[k]);
  }

  lemma {:induction false} GiveFree(z: Zone, n: nat, p: nat)
    requires Tiling(z, n) && p in z.live
    ensures z.live[p] <= MAX_ORDER
    ensures var z' := Give(z, p);
      && (forall i: nat, l: nat :: Free(z', i, l) <==> Free(z, i, l) || (i == p && l == z.live[p]))
      && (forall i: nat, l: nat :: Live(z', i, l) <==> Live(z, i, l) && i != p)
      && (forall i: nat, l: nat :: Block(z', i, l) <==> Block(z, i, l))
  {
    OneBlockPerHead(z, n, p, z.live[p], 0);
  }

  lemma {:induction false} GiveOk(z: Zone, n: nat, p: nat)
    requires Ok(z, n) && p in z.live && !CanMerge(z, p)
    ensures z.live[p] <= MAX_ORDER
    ensures Ok(Give(z, p), n)
  {
    GiveFree(z, n, p);
    var k := z.live[p];
    var z' := Give(z, p);
    assert Live(z, p, k);
    assert !Free(z, p, k);
    PushMembers(z.lists[k], p);
    forall i: nat, l: nat | l < MAX_ORDER && Free(z', i, l)
      ensures !FreeInt(z', BuddyOf(i, l), l)
    {
      assert Block(z, i, l);
      BuddyPair(i, l);
    }
  }

  lemma {:induction false} SplitFree(z: Zone, n: nat, p: nat)
    requires Tiling(z, n) && p in z.live && z.live[p] > 0
    ensures z.live[p] <= MAX_ORDER
    ensures var z' := Split(z, p); var k := z.live[p] - 1; var b := p + Pow2(k);
      && (forall l: nat :: !Block(z, b, l))
      && Aligned(p, k) && Aligned(b, k) && BuddyOf(p, k) == b && BuddyOf(b, k) == p
      && (forall i: nat, l: nat :: Free(z', i, l) <==> Free(z, i, l) || (i == b && l == k))
      && (forall i: nat, l: nat :: Live(z', i, l) <==> if i == p then l == k else Live(z, i, l))
      && (forall i: nat, l: nat ::
            Block(z', i, l) <==> if i == p || i == b then l == k else Block(z, i, l))
  {
    var k := z.live[p] - 1;
    var b := p + Pow2(k);
    assert Live(z, p, k + 1);
    OneBlockPerHead(z, n, p, k + 1, 0);
    AlignedDown(p, k + 1, k);
    BuddyPair(p, k);
    forall l: nat
      ensures !Block(z, b, l)
    {
      assert Within(b, p, k + 1);
    }
    forall i: nat, l: nat
      ensures Block(Split(z, p), i, l) <==> if i == p || i == b then l == k else Block(z, i, l)
    {
      assert !Free(z, p, l) && !Block(z, b, l);
    }
  }

  lemma {:induction false} LiveIsBlock(z: Zone, b: nat)
    ensures b in z.live ==> Block(z, b, z.live[b])
  {
  }

  lemma {:induction false} SplitTiling(z: Zone, n: nat, p: nat)
    requires Tiling(z, n) && p in z.live && z.live[p] > 0
    ensures z.live[p] <= MAX_ORDER
    ensures Tiling(Split(z, p), n)
  {
    SplitFree(z, n, p);
    var k := z.live[p] - 1;
    var b := p + Pow2(k);
    var z' := Split(z, p);
    assert Live(z, p, k + 1);
    assert !Block(z, b, k);
    OneBlockPerHead(z, n, p, k + 1, 0);
    PushMembers(z.lists[k], b);
    LiveIsBlock(z, b);
    assert b !in z.live;
    forall i: nat, s: nat, j: nat, l: nat | Block(z', i, s) && Block(z', j, l) && Within(j, i, s)
      ensures i == j && s == l
    {
      SplitDisjoint(z, n, p, i, s, j, l);
    }
  }

  lemma {:induction false} SplitDisjoint(z: Zone, n: nat, p: nat, i: nat, s: nat, j: nat, l: nat)
    requires Tiling(z, n) && p in z.live && 0 < z.live[p] <= MAX_ORDER
    requires var z' := Split(z, p); Block(z', i, s) && Block(z', j, l) && Within(j, i, s)
    ensures i == j && s == l
  {
    SplitFree(z, n, p);
    var k := z.live[p] - 1;
    var b := p + Pow2(k);
    assert Live(z, p, k + 1);
    var inI, inJ := i == p || i == b, j == p || j == b;
    assert Block(z, p, k + 1);
    assert !inI ==> Block(z, i, s);
    assert !inJ ==> Block(z, j, l);
    // a block outside the one that was split neither holds it nor lies in it
    assert !inI && inJ ==> !Within(p, i, s) && !Within(i, p, k + 1);
    assert inI && !inJ ==> !Within(j, p, k + 1);
  }

  lemma {:induction false} SplitOk(z: Zone, n: nat, p: nat)
    requires Ok(z, n) && p in z.live && z.live[p] > 0
    ensures z.live[p] <= MAX_ORDER
    ensures Ok(Split(z, p), n)
  {
    SplitTiling(z, n, p);
    var z' := Split(z, p);
    hide Tiling, Split;
    forall i: nat, l: nat | l < MAX_ORDER && Free(z', i, l)
      ensures !FreeInt(z', BuddyOf(i, l), l)
    {
      SplitCoalesced(z, n, p, i, l);
    }
  }

  /** The right half of a split block has the left half, which is live, for its buddy. */
  lemma {:induction false} SplitCoalesced(z: Zone, n: nat, p: nat, i: nat, l: nat)
    requires Ok(z, n) && p in z.live && 0 < z.live[p] <= MAX_ORDER && Tiling(Split(z, p), n) && l < MAX_ORDER
    requires Free(Split(z, p), i, l)
    ensures !FreeInt(Split(z, p), BuddyOf(i, l), l)
  {
    SplitFree(z, n, p);
    var z' := Split(z, p);
    OneBlockPerHead(z', n, i, l, l);
    BuddyPair(i, l);
    NotFreeWhenLive(z, n, p, l);
    var k := z.live[p] - 1;
    var b, c := p + Pow2(k), BuddyOf(i, l);
    hide Tiling, Split, Coalesced, BuddyOf, Aligned, Pow2;
    assert !Block(z, b, l);
    if i == b {
      assert l == k && c == p;
    } else {
      CoalescedAt(z, n, i, l);
      assert i != p;
      assert c == b && l == k ==> i == p;
    }
  }

  lemma {:induction false} CoalescedAt(z: Zone, n: nat, i: nat, l: nat)
    requires Ok(z, n) && l < MAX_ORDER && Free(z, i, l)
    ensures !FreeInt(z, BuddyOf(i, l), l)
  {
  }

  lemma {:induction false} NotFreeWhenLive(z: Zone, n: nat, p: nat, l: nat)
    requires Tiling(z, n) && p in z.live
    ensures !Free(z, p, l)
  {
  }

  lemma {:induction false} SplitCovers(z: Zone, n: nat, p: nat, i: nat)
    requires Tiling(z, n) && p in z.live && 0 < z.live[p] <= MAX_ORDER
    ensures Covered(Split(z, p), i) <==> Covered(z, i)
  {
    SplitFree(z, n, p);
    var k := z.live[p] - 1;
    var b := p + Pow2(k);
    var z' := Split(z, p);
    assert Block(z, p, k + 1) && Block(z', p, k) && Block(z', b, k);
    assert Within(i, p, k + 1) <==> Within(i, p, k) || Within(i, b, k);
    if Covered(z, i) {
      var h: nat, l: nat :| Block(z, h, l) && Within(i, h, l);
      OneBlockPerHead(z, n, p, k + 1, l);
      assert h != p ==> Block(z', h, l);
    }
    if Covered(z', i) {
      var h: nat, l: nat :| Block(z', h, l) && Within(i, h, l);
      assert h != p && h != b ==> Block(z, h, l);
    }
  }

  lemma {:induction false} MergeFree(z: Zone, n: nat, p: nat)
    requires Tiling(z, n) && p in z.live && CanMerge(z, p)
    ensures var k := z.live[p]; var b := BuddyOf(p, k); var m := MergedHead(p, k); var z' := Merge(z, p);
      && b >= 0 && b != p && Free(z, b, k) && Aligned(m, k + 1)
      && ((m == p && b == p + Pow2(k)) || (m == b && p == b + Pow2(k)))
      && (forall i: nat, l: nat :: Free(z', i, l) <==> Free(z, i, l) && i != b)
      && (forall i: nat, l: nat :: Live(z', i, l) <==> if i == m then l == k + 1 else Live(z, i, l) && i != p)
      && (forall i: nat, l: nat ::
            Block(z', i, l) <==> if i == m then l == k + 1 else i != p && i != b && Block(z, i, l))
  {
    var k := z.live[p];
    var b := BuddyOf(p, k);
    var z' := Merge(z, p);
    OneBlockPerHead(z, n, p, k, 0);
    BuddyPair(p, k);
    WithoutMembers(z.lists[k], b);
    assert Free(z, b, k);
    forall i: nat, l: nat
      ensures Free(z', i, l) <==> Free(z, i, l) && i != b
    {
      if i == b { OneBlockPerHead(z, n, b, k, l); }
    }
  }

  lemma {:induction false} MergeTiling(z: Zone, n: nat, p: nat)
    requires Tiling(z, n) && p in z.live && CanMerge(z, p)
    ensures BuddyOf(p, z.live[p]) >= 0
    ensures Tiling(Merge(z, p), n)
  {
    MergeFree(z, n, p);
    var k := z.live[p];
    var b: nat := BuddyOf(p, k);
    var z' := Merge(z, p);
    OneBlockPerHead(z, n, p, k, 0);
    OneBlockPerHead(z, n, b, k, 0);
    WithoutMembers(z.lists[k], b);
    forall i: nat, s: nat, j: nat, l: nat | Block(z', i, s) && Block(z', j, l) && Within(j, i, s)
      ensures i == j && s == l
    {
      MergeDisjoint(z, n, p, i, s, j, l);
    }
  }

  lemma {:induction false} MergeDisjoint(z: Zone, n: nat, p: nat, i: nat, s: nat, j: nat, l: nat)
    requires Tiling(z, n) && p in z.live && CanMerge(z, p)
    requires var z' := Merge(z, p); Block(z', i, s) && Block(z', j, l) && Within(j, i, s)
    ensures i == j && s == l
  {
    MergeFree(z, n, p);
    var k := z.live[p];
    var b: nat := BuddyOf(p, k);
    var m := MergedHead(p, k);
    assert Live(z, p, k) && Free(z, b, k);
    assert Block(z, p, k) && Block(z, b, k);
    assert i != m ==> Block(z, i, s);
    assert j != m ==> Block(z, j, l);
    assert i == m && j != m ==> !Within(j, p, k) && !Within(j, b, k);
    assert i != m && j == m ==> !Within(m, i, s);
  }

  lemma {:induction false} MergeOk(z: Zone, n: nat, p: nat)
    requires Ok(z, n) && p in z.live && CanMerge(z, p)
    ensures BuddyOf(p, z.live[p]) >= 0
    ensures Ok(Merge(z, p), n)
  {
    MergeFree(z, n, p);
    MergeTiling(z, n, p);
  }

  lemma {:induction false} MergeCovers(z: Zone, n: nat, p: nat, i: nat)
    requires Tiling(z, n) && p in z.live && CanMerge(z, p)
    ensures Covered(Merge(z, p), i) <==> Covered(z, i)
  {
    MergeFree(z, n, p);
    var k := z.live[p];
    var b: nat := BuddyOf(p, k);
    var m := MergedHead(p, k);
    var z' := Merge(z, p);
    assert Block(z, p, k) && Block(z, b, k) && Block(z', m, k + 1);
    assert Within(i, m, k + 1) <==> Within(i, p, k) || Within(i, b, k);
    if Covered(z, i) {
      var h: nat, l: nat :| Block(z, h, l) && Within(i, h, l);
      OneBlockPerHead(z, n, p, k, l);
      OneBlockPerHead(z, n, b, k, l);
      assert h != p && h != b ==> Block(z', h, l);
    }
    if Covered(z', i) {
      var h: nat, l: nat :| Block(z', h, l) && Within(i, h, l);
      assert h != m ==> Block(z, h, l);
    }
  }

  // ----- Whole operations

  /** The least order from `k` up whose list is not empty, or MAX_ORDER + 1. */
  function FirstNonEmpty(lists: seq<seq<nat>>, k: nat): (i: nat)
    requires |lists| == MAX_ORDER + 1 && k <= MAX_ORDER + 1
    ensures k <= i <= MAX_ORDER + 1
    ensures i <= MAX_ORDER ==> lists[i] != []
    ensures forall j :: k <= j < i ==> lists[j] == []
    decreases MAX_ORDER + 1 - k
  {
    if k > MAX_ORDER || lists[k] != [] then k else FirstNonEmpty(lists, k + 1)
  }

  function SplitTo(z: Zone, p: nat, k: nat): (r: Zone)
    requires p in z.live && k <= z.live[p] <= |z.lists|
    ensures |r.lists| == |z.lists| && r.live == z.live[p := k]
    decreases z.live[p]
  {
    if z.live[p] == k then z else SplitTo(Split(z, p), p, k)
  }

  function Alloc(z: Zone, k: nat): (r: (Zone, Link))
    requires |z.lists| == MAX_ORDER + 1 && k <= MAX_ORDER
  {
    var i := FirstNonEmpty(z.lists, k);
    if i > MAX_ORDER then (z, Null)
    else (SplitTo(Take(z, i), z.lists[i][0], k), Pfn(z.lists[i][0]))
  }

  /** Merge upwards while the buddy is free, then put the result on its list. */
  function MergeAndGive(z: Zone, p: nat): (r: Zone)
    requires p in z.live && z.live[p] <= MAX_ORDER && |z.lists| == MAX_ORDER + 1
    decreases MAX_ORDER - z.live[p]
  {
    if CanMerge(z, p) then MergeAndGive(Merge(z, p), MergedHead(p, z.live[p])) else Give(z, p)
  }

  /** Freeing anything but the head of a live block does nothing. */
  function FreeBlock(z: Zone, p: nat): (r: Zone)
    requires |z.lists| == MAX_ORDER + 1
  {
    if p in z.live && z.live[p] <= MAX_ORDER then MergeAndGive(z, p) else z
  }
}
