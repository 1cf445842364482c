/** e820_sanitize and the search for the last RAM address, with the arrays the code works on. */
module E820 {
  import opened Words
  import opened Arith
  import opened E820Types
  import opened E820Spec
  import opened E820Sweep

  const MAX_ENTRIES: nat := 256

  // ----- Collecting the change points

  function PointsOf(t: seq<Entry>, n: nat): (ps: seq<ChangePoint>)
    requires n <= |t|
    ensures |ps| <= 2 * n
  {
    if n == 0 then []
    else if t[n - 1].size > 0 then PointsOf(t, n - 1) + [StartOf(t, n - 1), EndOf(t, n - 1)]
    else PointsOf(t, n - 1)
  }

  predicate NoDuplicates<T(==)>(s: seq<T>) {
    forall i, j :: 0 <= i < j < |s| ==> s[i] != s[j]
  }

  lemma {:induction false} PointsOfMembers(t: seq<Entry>, n: nat)
    requires n <= |t|
    ensures forall p :: p in PointsOf(t, n) ==> PointOf(t, p) && p.entry < n
  {
    if n > 0 {
      PointsOfMembers(t, n - 1);
      var qs, e := PointsOf(t, n - 1), n - 1;
      if t[e].size > 0 {
        assert forall p :: p in PointsOf(t, n) ==> p in qs || p == StartOf(t, e) || p == EndOf(t, e);
      }
    }
  }

  lemma {:induction false} PointsOfDistinct(t: seq<Entry>, n: nat)
    requires n <= |t|
    ensures NoDuplicates(PointsOf(t, n))
  {
    if n > 0 {
      PointsOfDistinct(t, n - 1);
      PointsOfMembers(t, n - 1);
      var qs, ps, e := PointsOf(t, n - 1), PointsOf(t, n), n - 1;
      forall i, j | 0 <= i < j < |ps| ensures ps[i] != ps[j] {
        if i < |qs| { assert ps[i] == qs[i] && qs[i] in qs; }
        if j < |qs| { assert ps[j] == qs[j]; }
      }
    }
  }

  lemma {:induction false} PointsOfComplete(t: seq<Entry>, n: nat, e: nat)
    requires e < n <= |t| && t[e].size > 0
    ensures StartOf(t, e) in PointsOf(t, n) && EndOf(t, e) in PointsOf(t, n)
    decreases n
  {
    var qs, ps := PointsOf(t, n - 1), PointsOf(t, n);
    if e < n - 1 {
      PointsOfComplete(t, n - 1, e);
    } else {
      assert ps[|qs|] == StartOf(t, e) && ps[|qs| + 1] == EndOf(t, e);
    }
  }

  lemma {:induction false} CountOne<T>(s: seq<T>, x: T)
    requires NoDuplicates(s)
    ensures multiset(s)[x] <= 1
  {
    if s != [] {
      assert s == [s[0]] + s[1..];
      CountOne(s[1..], x);
      assert s[0] !in s[1..];
    }
  }

  lemma {:induction false} OneCount<T>(s: seq<T>, i: nat, j: nat)
    requires i < j < |s| && s[i] == s[j]
    ensures multiset(s)[s[i]] >= 2
  {
    assert s == s[..j] + s[j..];
    assert s[..j][i] == s[i] && s[j..][0] == s[j];
    assert s[i] in multiset(s[..j]) && s[j] in multiset(s[j..]);
  }

  lemma {:induction false} SortedKeys(t: seq<Entry>, ps: seq<ChangePoint>)
    requires KeysSorted(t, ps)
    ensures (forall i :: 0 <= i < |ps| ==> ps[i].entry < |t|) && Sorted(t, ps)
  {
  }

  /** Sorting a permutation of the collected points yields what the sweep needs. */
  lemma {:induction false} SortedPermutation(t: seq<Entry>, ps: seq<ChangePoint>)
    requires multiset(ps) == multiset(PointsOf(t, |t|))
    requires (forall i :: 0 <= i < |ps| ==> ps[i].entry < |t|) && Sorted(t, ps)
    ensures AllPoints(t, ps)
  {
    hide PointsOf, Sorted, PointOf, StartOf, EndOf;
    var qs := PointsOf(t, |t|);
    PointsOfMembers(t, |t|);
    PointsOfDistinct(t, |t|);
    Permuted(ps, qs);
    forall i | 0 <= i < |ps| ensures PointOf(t, ps[i]) {
      assert ps[i] in qs;
    }
    forall e: nat | e < |t| && t[e].size > 0 ensures StartOf(t, e) in ps && EndOf(t, e) in ps {
      PointsOfComplete(t, |t|, e);
    }
  }

  /** A permutation of points that occur once each has the same members, once each. */
  lemma {:induction false} Permuted(ps: seq<ChangePoint>, qs: seq<ChangePoint>)
    requires multiset(ps) == multiset(qs) && NoDuplicates(qs)
    ensures NoDuplicates(ps) && forall x :: x in ps <==> x in qs
  {
    forall x ensures x in ps <==> x in qs {
      assert x in ps <==> x in multiset(ps);
      assert x in qs <==> x in multiset(qs);
    }
    forall i, j | 0 <= i < j < |ps| ensures ps[i] != ps[j] {
      CountOne(qs, ps[i]);
      if ps[i] == ps[j] { OneCount(ps, i, j); }
    }
  }

  // ----- Insertion sort

  ghost predicate KeysSorted(t: seq<Entry>, s: seq<ChangePoint>)
  {
    && (forall i :: 0 <= i < |s| ==> s[i].entry < |t|)
    && forall i, j :: 0 <= i < j < |s| ==> Key(t, s[i]) <= Key(t, s[j])
  }

  /** The sequence with `x` put in at place `k`. */
  function InsertedAt<T>(s: seq<T>, k: nat, x: T): seq<T>
    requires k <= |s|
  {
    s[..k] + [x] + s[k..]
  }

  lemma {:induction false} InsertedAtIs<T>(s: seq<T>, k: nat, x: T, r: seq<T>)
    requires k <= |s| && |r| == |s| + 1 && r[k] == x
    requires forall m :: 0 <= m < k ==> r[m] == s[m]
    requires forall m :: k < m <= |s| ==> r[m] == s[m - 1]
    ensures r == InsertedAt(s, k, x)
  {
  }

  lemma {:induction false} InsertedSorted(t: seq<Entry>, s: seq<ChangePoint>, k: nat, x: ChangePoint)
    requires KeysSorted(t, s) && k <= |s| && x.entry < |t|
    requires k > 0 ==> Key(t, s[k - 1]) <= Key(t, x)
    requires k < |s| ==> Key(t, x) <= Key(t, s[k])
    ensures KeysSorted(t, InsertedAt(s, k, x))
  {
    var r := InsertedAt(s, k, x);
    forall i, j | 0 <= i < j < |r| ensures r[i].entry < |t| && r[j].entry < |t| && Key(t, r[i]) <= Key(t, r[j]) {
      var i', j' := if i < k then i else i - 1, if j < k then j else j - 1;
      assert i != k ==> r[i] == s[i'];
      assert j != k ==> r[j] == s[j'];
      assert i < k && k > 0 ==> Key(t, s[i]) <= Key(t, s[k - 1]);
      assert j > k ==> Key(t, s[k]) <= Key(t, s[j - 1]);
    }
  }

  lemma {:induction false} InsertedMultiset<T>(s: seq<T>, k: nat, x: T)
    requires k <= |s|
    ensures multiset(InsertedAt(s, k, x)) == multiset(s + [x])
  {
    assert s == s[..k] + s[k..];
  }

  /** The elements at `k` up to `i` moved one place up, over the element at `i`. */
  function ShiftedUp<T>(s: seq<T>, k: nat, i: nat): seq<T>
    requires k <= i < |s|
  {
    s[..k + 1] + s[k..i] + s[i + 1..]
  }

  lemma {:induction false} ShiftedUpOnce<T>(s: seq<T>, k: nat, i: nat)
    requires 0 < k <= i < |s|
    ensures |ShiftedUp(s, k, i)| == |s| && ShiftedUp(s, k, i)[k - 1] == s[k - 1]
    ensures ShiftedUp(s, k, i)[k := s[k - 1]] == ShiftedUp(s, k - 1, i)
  {
  }

  /** The inner loop: shift larger points up until the place for the point at `i` is found. */
  method ShiftUp(t: seq<Entry>, a: array<ChangePoint>, i: nat) returns (k: nat)
    requires i < a.Length && forall m :: 0 <= m <= i ==> a[..][m].entry < |t|
    modifies a
    ensures k <= i && a[..] == ShiftedUp(old(a[..]), k, i)
    ensures k < i ==> Key(t, old(a[i])) <= Key(t, old(a[k]))
    ensures k > 0 ==> Key(t, old(a[k - 1])) <= Key(t, old(a[i]))
  {
    ghost var s := a[..];
    var temp := a[i];
    k := i;
    assert ShiftedUp(s, i, i) == s;
    while k > 0 && Compare(t, a[k - 1], temp) >= 0
      invariant k <= i && a[..] == ShiftedUp(s, k, i)
      invariant k > 0 ==> a[k - 1] == s[k - 1]
      invariant k < i ==> Key(t, temp) <= Key(t, s[k])
    {
      CompareIsKeyOrder(t, a[k - 1], temp);
      ShiftedUpOnce(s, k, i);
      if k > 1 { ShiftedUpOnce(s, k - 1, i); }
      hide *;
      a[k] := a[k - 1];
      k := k - 1;
    }
    if k > 0 { CompareIsKeyOrder(t, a[k - 1], temp); }
  }

  method InsertPoint(t: seq<Entry>, a: array<ChangePoint>, i: nat)
    requires i < a.Length && a[i].entry < |t| && KeysSorted(t, a[..i])
    modifies a
    ensures KeysSorted(t, a[..i + 1])
    ensures multiset(a[..i + 1]) == multiset(old(a[..i + 1]))
    ensures a[i + 1..] == old(a[i + 1..])
  {
    ghost var s := a[..];
    assert forall m :: 0 <= m < i ==> a[..i][m] == s[m] && s[m].entry < |t|;
    assert s[..i] == a[..i];
    var temp := a[i];
    var k := ShiftUp(t, a, i);
    hide *;
    a[k] := temp;
    MovedDown(t, s, a[..], k, i);
    assert old(a[..i + 1]) == s[..i + 1];
    assert old(a[i + 1..]) == s[i + 1..];
    assert a[..][..i + 1] == a[..i + 1] && a[..][i + 1..] == a[i + 1..];
  }

  lemma {:induction false} MovedDown(t: seq<Entry>, s: seq<ChangePoint>, r: seq<ChangePoint>, k: nat, i: nat)
    requires k <= i < |s| && r == ShiftedUp(s, k, i)[k := s[i]] && KeysSorted(t, s[..i]) && s[i].entry < |t|
    requires k > 0 ==> s[k - 1].entry < |t| && Key(t, s[k - 1]) <= Key(t, s[i])
    requires k < i ==> s[k].entry < |t| && Key(t, s[i]) <= Key(t, s[k])
    ensures |r| == |s| && KeysSorted(t, r[..i + 1]) && multiset(r[..i + 1]) == multiset(s[..i + 1])
    ensures r[i + 1..] == s[i + 1..]
  {
    var before, after := s[..i + 1], r[..i + 1];
    assert before[..i] == s[..i];
    forall m | k < m < i + 1 ensures after[m] == before[m - 1] {
      assert ShiftedUp(s, k, i)[m] == s[k..i][m - k - 1];
    }
    InsertResult(t, before, after, k);
  }

  /** Moving the last point down to place `k` keeps the points and puts the prefix in order. */
  lemma {:induction false} InsertResult(t: seq<Entry>, before: seq<ChangePoint>, after: seq<ChangePoint>, k: nat)
    requires |before| == |after| > k && before[|before| - 1].entry < |t| && KeysSorted(t, before[..|before| - 1])
    requires after[k] == before[|before| - 1]
    requires forall m :: 0 <= m < k ==> after[m] == before[m]
    requires forall m :: k < m < |before| ==> after[m] == before[m - 1]
    requires k > 0 ==> before[k - 1].entry < |t| && Key(t, before[k - 1]) <= Key(t, before[|before| - 1])
    requires k < |before| - 1 ==> before[k].entry < |t| && Key(t, before[|before| - 1]) <= Key(t, before[k])
    ensures KeysSorted(t, after) && multiset(after) == multiset(before)
  {
    hide *;
    var i := |before| - 1;
    var s, temp := before[..i], before[i];
    InsertedAtIs(s, k, temp, after);
    InsertedSorted(t, s, k, temp);
    InsertedMultiset(s, k, temp);
    assert before == s + [temp];
  }

  method SortPoints(t: seq<Entry>, a: array<ChangePoint>, n: nat)
    requires n <= a.Length && forall i :: 0 <= i < n ==> a[i].entry < |t|
    modifies a
    ensures KeysSorted(t, a[..n])
    ensures multiset(a[..n]) == multiset(old(a[..n]))
  {
    if n < 2 { return; }
    var i := 1;
    while i < n
      invariant 1 <= i <= n
      invariant KeysSorted(t, a[..i])
      invariant multiset(a[..n]) == multiset(old(a[..n]))
      invariant forall m :: 0 <= m < n ==> a[..][m].entry < |t|
    {
      hide *;
      ghost var before := a[..];
      PrefixOf(a, i, n);
      InsertPoint(t, a, i);
      PrefixOf(a, i, n);
      KeepAll(t, before, a[..], i, n);
      i := i + 1;
    }
  }

  lemma {:induction false} PrefixOf(a: array<ChangePoint>, i: nat, n: nat)
    requires i < n <= a.Length
    ensures a[..][..i + 1] == a[..i + 1] && a[..][i + 1..] == a[i + 1..] && a[..][..n] == a[..n]
  {
  }

  lemma {:induction false} KeepAll(t: seq<Entry>, before: seq<ChangePoint>, after: seq<ChangePoint>, i: nat, n: nat)
    requires i < n <= |before| == |after| && forall m :: 0 <= m < n ==> before[m].entry < |t|
    requires multiset(after[..i + 1]) == multiset(before[..i + 1]) && after[i + 1..] == before[i + 1..]
    ensures multiset(after[..n]) == multiset(before[..n])
    ensures forall m :: 0 <= m < n ==> after[m].entry < |t|
  {
    assert after[..n] == after[..i + 1] + after[i + 1..][..n - i - 1];
    assert before[..n] == before[..i + 1] + before[i + 1..][..n - i - 1];
    forall m | 0 <= m < n ensures after[m].entry < |t| {
      assert after[..n][m] in multiset(after[..n]);
      assert after[m] in multiset(before[..n]);
      assert after[m] in before[..n];
    }
  }

  /** The first loop: every entry of positive size contributes its two change points. */
  method CollectPoints(t: seq<Entry>, a: array<ChangePoint>) returns (ok: bool, n: nat)
    requires |t| <= MAX_ENTRIES && a.Length == 2 * MAX_ENTRIES
    modifies a
    ensures ok <==> forall e :: 0 <= e < |t| ==> t[e].End() < WORD
    ensures ok ==> n <= a.Length && a[..n] == PointsOf(t, |t|)
  {
    n := 0;
    for i := 0 to |t|
      invariant n <= 2 * i && a[..n] == PointsOf(t, i)
      invariant forall e :: 0 <= e < i ==> t[e].End() < WORD
    {
      if t[i].addr + t[i].size >= WORD { return false, n; }
      if t[i].size > 0 {
        ghost var before := a[..n];
        a[n] := ChangePoint(t[i].addr, i);
        n := n + 1;
        a[n] := ChangePoint(t[i].addr + t[i].size, i);
        n := n + 1;
        assert a[..n] == before + [StartOf(t, i), EndOf(t, i)];
      }
    }
    ok := true;
  }

  // ----- The overlap list

  ghost function Members(s: seq<nat>): set<nat> {
    set x: nat | x in s
  }

  lemma {:induction false} FewDistinct(s: seq<nat>, n: nat)
    requires NoDuplicates(s) && forall i :: 0 <= i < |s| ==> s[i] < n
    ensures |s| <= n
  {
    DistinctSize(s);
    forall x | x in Members(s) ensures x in Below(n) {}
    SubsetSize(Members(s), Below(n));
  }

  ghost function Below(n: nat): (r: set<nat>)
    ensures |r| == n && forall x: nat :: x in r <==> x < n
  {
    if n == 0 then {} else Below(n - 1) + {n - 1}
  }

  lemma {:induction false} DistinctSize(s: seq<nat>)
    requires NoDuplicates(s)
    ensures |Members(s)| == |s|
  {
    if s != [] {
      DistinctSize(s[1..]);
      assert s == [s[0]] + s[1..];
      assert s[0] !in s[1..];
      assert Members(s) == Members(s[1..]) + {s[0]};
    } else {
      assert Members(s) == {};
    }
  }

  /** Swap removal: the last member takes the place of `e`. */
  function SwapRemoved(s: seq<nat>, e: nat): (r: seq<nat>)
    requires s != []
  {
    seq(|s| - 1, i requires 0 <= i < |s| - 1 => if s[i] == e then s[|s| - 1] else s[i])
  }

  lemma {:induction false} SwapRemovedMembers(s: seq<nat>, e: nat)
    requires NoDuplicates(s) && e in s
    ensures NoDuplicates(SwapRemoved(s, e))
    ensures Members(SwapRemoved(s, e)) == Members(s) - {e}
  {
    var r, last := SwapRemoved(s, e), |s| - 1;
    var k :| 0 <= k < |s| && s[k] == e;
    forall x: nat ensures x in r <==> x in s && x != e {
      if x in s && x != e {
        var i :| 0 <= i < |s| && s[i] == x;
        if i == last { assert r[k] == x; } else { assert r[i] == x; }
      }
      if x in r {
        var i :| 0 <= i < |r| && r[i] == x;
        assert if i == k then x == s[last] else x == s[i];
      }
    }
  }

  method RemoveOverlap(l: array<nat>, k: nat, e: nat)
    requires 0 < k <= l.Length
    modifies l
    ensures l[..k - 1] == SwapRemoved(old(l[..k]), e)
  {
    ghost var s := l[..k];
    var idx := 0;
    while idx < k
      invariant 0 <= idx <= k
      invariant forall m :: 0 <= m < idx ==> l[m] == if s[m] == e then s[k - 1] else s[m]
      invariant forall m :: idx <= m < k ==> l[m] == s[m]
    {
      if l[idx] == e { l[idx] := l[k - 1]; }
      idx := idx + 1;
    }
  }

  method LargestType(t: seq<Entry>, l: array<nat>, k: nat) returns (m: nat)
    requires k <= l.Length && forall i :: 0 <= i < k ==> l[i] < |t|
    ensures m == KindMax(t, Members(l[..k]), |t|)
  {
    m := 0;
    var idx := 0;
    while idx < k
      invariant 0 <= idx <= k
      invariant forall i :: 0 <= i < idx ==> t[l[i]].kind <= m
      invariant m > 0 ==> exists i :: 0 <= i < idx && t[l[i]].kind == m
    {
      if t[l[idx]].kind > m { m := t[l[idx]].kind; }
      idx := idx + 1;
    }
    ghost var s := l[..k];
    assert forall e: nat :: e in Members(s) ==> exists i :: 0 <= i < k && s[i] == e;
    if m > 0 {
      var i :| 0 <= i < k && t[l[i]].kind == m;
      assert s[i] in Members(s);
    }
    KindMaxUnique(t, Members(s), m);
  }

  // ----- The main loop

  class Table {
    const entries: array<Entry>
    var count: nat

    constructor ()
      ensures fresh(entries) && entries.Length == MAX_ENTRIES && count == 0
    {
      entries := new Entry[MAX_ENTRIES](_ => Entry(0, 0, 0));
      count := 0;
    }

    /** The finished entries and the open run, whose start and type already stand in the next slot. */
    ghost predicate Shows(b: Build)
      reads this, entries
    {
      && entries.Length == MAX_ENTRIES && count < MAX_ENTRIES
      && entries[..count] == b.out
      && (b.lastType != 0 ==> entries[count].addr == b.lastAddr && entries[count].kind == b.lastType)
    }

    /** The body of the main loop once the new type is known. Returns true when the table is full. */
    method Change(addr: nat, kind: nat, lastType: nat, lastAddr: nat, ghost b: Build) returns (full: bool)
      requires Shows(b) && kind != lastType && b.lastType == lastType && b.lastAddr == lastAddr
      requires lastType != 0 ==> lastAddr <= addr
      modifies this, entries
      ensures full ==> entries.Length == count == MAX_ENTRIES && entries[..] == Emit(b, addr, kind).out
      ensures !full ==> Shows(Emit(b, addr, kind))
    {
      if lastType != 0 {
        entries[count] := entries[count].(size := addr - lastAddr);
        if entries[count].size != 0 {
          ghost var before := entries[..count];
          count := count + 1;
          assert entries[..count] == before + [entries[count - 1]];
          if count >= MAX_ENTRIES {
            assert entries[..count] == entries[..];
            return true;
          }
        }
      }
      if kind != 0 {
        entries[count] := entries[count].(addr := addr, kind := kind);
      }
      full := false;
    }
  }

  lemma {:induction false} RunStartsBefore(t: seq<Entry>, ps: seq<ChangePoint>, c: nat)
    requires AllPoints(t, ps) && c < |ps|
    ensures var b := Sweep(t, ps, c); b.lastType != 0 ==> b.lastAddr <= ps[c].addr
  {
    SweepOk(t, ps, c);
    SweepStep(t, ps, c, Sweep(t, ps, c));
  }

  /** The overlap list follows the active entries across one change point. */
  method UpdateOverlap(t: seq<Entry>, p: ChangePoint, overlap: array<nat>, k: nat, ghost ps: seq<ChangePoint>,
                       ghost c: nat)
    returns (k': nat)
    requires AllPoints(t, ps) && c < |ps| && p == ps[c] && |t| <= MAX_ENTRIES == overlap.Length
    requires k <= MAX_ENTRIES && NoDuplicates(overlap[..k]) && Members(overlap[..k]) == Active(t, ps, c)
    modifies overlap
    ensures k' <= MAX_ENTRIES && NoDuplicates(overlap[..k']) && Members(overlap[..k']) == Active(t, ps, c + 1)
    ensures forall i :: 0 <= i < k' ==> overlap[i] < |t|
  {
    ghost var l := overlap[..k];
    assert PointOf(t, ps[c]);
    if p.addr == t[p.entry].addr {
      ActiveStart(t, ps, c);
      assert p.entry !in l by { assert p.entry in l ==> p.entry in Members(l); }
      ListFits(t, ps, c + 1, l + [p.entry]);
      overlap[k] := p.entry;
      k' := k + 1;
      assert overlap[..k'] == l + [p.entry];
    } else {
      ActiveEnd(t, ps, c);
      assert p.entry in Members(l);
      SwapRemovedMembers(l, p.entry);
      RemoveOverlap(overlap, k, p.entry);
      k' := k - 1;
    }
    ListFits(t, ps, c + 1, overlap[..k']);
    assert forall i :: 0 <= i < k' ==> overlap[i] == overlap[..k'][i];
  }

  /** A duplicate-free list of active entries is no longer than the table. */
  lemma {:induction false} ListFits(t: seq<Entry>, ps: seq<ChangePoint>, c: nat, l: seq<nat>)
    requires c <= |ps| && NoDuplicates(l) && forall x :: x in l ==> x in Active(t, ps, c)
    ensures |l| <= |t| && forall i :: 0 <= i < |l| ==> l[i] < |t|
  {
    forall i | 0 <= i < |l| ensures l[i] < |t| { assert l[i] in l; }
    FewDistinct(l, |t|);
  }

  /** One change point: update the overlap list, find the type that holds from here, and emit. */
  method SweepTurn(t: seq<Entry>, p: ChangePoint, overlap: array<nat>, k: nat, table: Table, lastType: nat,
                   lastAddr: nat, ghost ps: seq<ChangePoint>, ghost c: nat)
    returns (k': nat, lastType': nat, lastAddr': nat, full: bool)
    requires AllPoints(t, ps) && c < |ps| && p == ps[c] && |t| <= MAX_ENTRIES == overlap.Length
    requires k <= MAX_ENTRIES && NoDuplicates(overlap[..k]) && Members(overlap[..k]) == Active(t, ps, c)
    requires table.Shows(Sweep(t, ps, c)) && lastType == Sweep(t, ps, c).lastType
    requires lastAddr == Sweep(t, ps, c).lastAddr
    modifies overlap, table, table.entries
    ensures k' <= MAX_ENTRIES && NoDuplicates(overlap[..k']) && Members(overlap[..k']) == Active(t, ps, c + 1)
    ensures full ==> table.entries.Length == table.count == MAX_ENTRIES && table.entries[..] == Sweep(t, ps, c + 1).out
    ensures !full ==> table.Shows(Sweep(t, ps, c + 1))
    ensures !full ==> lastType' == Sweep(t, ps, c + 1).lastType && lastAddr' == Sweep(t, ps, c + 1).lastAddr
  {
    RunStartsBefore(t, ps, c);
    lastType', lastAddr', full := lastType, lastAddr, false;
    ghost var b := Sweep(t, ps, c);
    k' := UpdateOverlap(t, p, overlap, k, ps, c);
    assert table.Shows(b);
    var kind := LargestType(t, overlap, k');
    SweepUnfolds(t, ps, c, kind);
    hide AllPoints, Active, Sweep;
    if kind != lastType {
      full := table.Change(p.addr, kind, lastType, lastAddr, b);
      if kind != 0 { lastAddr' := p.addr; }
      lastType' := kind;
    }
  }

  lemma {:induction false} SweepUnfolds(t: seq<Entry>, ps: seq<ChangePoint>, c: nat, kind: nat)
    requires c < |ps| && kind == KindMax(t, Active(t, ps, c + 1), |t|)
    ensures Sweep(t, ps, c + 1) == Emit(Sweep(t, ps, c), ps[c].addr, kind)
  {
  }

  lemma {:induction false} SweepBegins(t: seq<Entry>, ps: seq<ChangePoint>, l: seq<nat>, table: Table)
    requires l == [] && table.count == 0 && table.entries.Length == MAX_ENTRIES
    ensures NoDuplicates(l) && Members(l) == Active(t, ps, 0)
    ensures Sweep(t, ps, 0) == Build([], 0, 0) && table.Shows(Build([], 0, 0))
  {
    ActiveNone(t, ps);
  }

  lemma {:induction false} ShowsFinished(table: Table, b: Build)
    requires table.Shows(b)
    ensures table.count <= MAX_ENTRIES == table.entries.Length && table.entries[..table.count] == FirstEntries(b.out)
  {
  }

  lemma {:induction false} FullPrefix(out: seq<Entry>, full: seq<Entry>)
    requires |out| == MAX_ENTRIES && out <= full
    ensures out == FirstEntries(full)
  {
  }

  /** The main loop over the sorted change points. */
  method SweepPoints(t: seq<Entry>, ps: seq<ChangePoint>, overlap: array<nat>, table: Table)
    requires AllPoints(t, ps) && |t| <= MAX_ENTRIES == overlap.Length
    requires table.count == 0 && table.entries.Length == MAX_ENTRIES
    modifies overlap, table, table.entries
    ensures table.entries.Length == MAX_ENTRIES && table.count <= MAX_ENTRIES
    ensures table.entries[..table.count] == FirstEntries(Sweep(t, ps, |ps|).out)
  {
    hide *;
    var k: nat, lastType: nat, lastAddr: nat, full := 0, 0, 0, false;
    var c: nat := 0;
    SweepBegins(t, ps, overlap[..0], table);
    while c < |ps| && !full
      invariant c <= |ps| && k <= MAX_ENTRIES == overlap.Length && table.entries.Length == MAX_ENTRIES
      invariant NoDuplicates(overlap[..k]) && Members(overlap[..k]) == Active(t, ps, c)
      invariant !full ==> table.Shows(Sweep(t, ps, c))
      invariant !full ==> lastType == Sweep(t, ps, c).lastType && lastAddr == Sweep(t, ps, c).lastAddr
      invariant full ==> table.count == MAX_ENTRIES && table.entries[..] == Sweep(t, ps, c).out
      decreases |ps| - c, !full
    {
      k, lastType, lastAddr, full := SweepTurn(t, ps[c], overlap, k, table, lastType, lastAddr, ps, c);
      c := c + 1;
    }
    SweepGrows(t, ps, c, |ps|);
    if full {
      assert table.entries[..table.count] == table.entries[..];
      FullPrefix(table.entries[..], Sweep(t, ps, |ps|).out);
    } else {
      ShowsFinished(table, Sweep(t, ps, c));
    }
  }

  /**
   e820_sanitize. A table of fewer than two entries is accepted with nothing copied; more than 256 entries,
   or an entry that runs past the end of the address space, is refused.
   */
  method Sanitize(t: seq<Entry>) returns (ok: bool, table: Table)
    ensures fresh(table) && fresh(table.entries) && table.count <= table.entries.Length == MAX_ENTRIES
    ensures |t| < 2 ==> ok && table.count == 0
    ensures |t| >= 2 ==> (ok <==> |t| <= MAX_ENTRIES && forall e :: 0 <= e < |t| ==> t[e].End() < WORD)
    ensures ok && |t| >= 2 ==> exists full ::
      CanonicalFormOf(full, t) && table.entries[..table.count] == FirstEntries(full)
  {
    table := new Table();
    if |t| < 2 { return true, table; }
    if |t| > MAX_ENTRIES { return false, table; }
    ok := SanitizeInto(t, table);
  }

  method SanitizeInto(t: seq<Entry>, table: Table) returns (ok: bool)
    requires |t| <= MAX_ENTRIES == table.entries.Length && table.count == 0
    modifies table, table.entries
    ensures table.count <= MAX_ENTRIES
    ensures ok <==> forall e :: 0 <= e < |t| ==> t[e].End() < WORD
    ensures ok ==> exists full :: CanonicalFormOf(full, t) && table.entries[..table.count] == FirstEntries(full)
  {
    var points := new ChangePoint[2 * MAX_ENTRIES](_ => ChangePoint(0, 0));
    var n: nat;
    ok, n := CollectPoints(t, points);
    if !ok { return; }
    hide *;
    PointsOfMembers(t, |t|);
    ghost var collected := points[..n];
    assert forall i :: 0 <= i < n ==> points[i] == collected[i];
    SortPoints(t, points, n);
    var ps := points[..n];
    SortedKeys(t, ps);
    SortedPermutation(t, ps);
    var overlap := new nat[MAX_ENTRIES](_ => 0);
    SweepPoints(t, ps, overlap, table);
    SweepEnd(t, ps);
  }

  function FirstEntries(full: seq<Entry>): seq<Entry> {
    if |full| < MAX_ENTRIES then full else full[..MAX_ENTRIES]
  }

  /** With fewer than two entries the empty result is right exactly when no entry has both a size and a type. */
  lemma {:induction false} SmallTable(t: seq<Entry>)
    requires |t| < 2
    ensures CanonicalFormOf([], t) <==> forall e :: 0 <= e < |t| ==> t[e].size == 0 || t[e].kind == 0
  {
    if forall e :: 0 <= e < |t| ==> t[e].size == 0 || t[e].kind == 0 {
      forall x ensures TypeAt([], x) == TypeAt(t, x) {
        TypeAtNone([], x);
        KindMaxUnique(t, Holders(t, x), 0);
      }
    } else {
      TypeAtNone([], t[0].addr);
      TypeAtHolder(t, t[0].addr, 0);
    }
  }

  /** The backward scan of e820_init: the end of the last RAM entry, which is the highest RAM address. */
  method LastRam(t: seq<Entry>) returns (last: nat)
    requires SortedDisjoint(t)
    ensures forall e :: 0 <= e < |t| && t[e].kind == TYPE_RAM ==> t[e].End() <= last
    ensures last != 0 ==> exists e :: 0 <= e < |t| && t[e].kind == TYPE_RAM && t[e].End() == last
  {
    last := 0;
    var i := |t|;
    while i > 0
      invariant 0 <= i <= |t| && last == 0
      invariant forall e :: i <= e < |t| ==> t[e].kind != TYPE_RAM
    {
      i := i - 1;
      if t[i].kind == TYPE_RAM {
        last := t[i].addr + t[i].size;
        assert forall e :: 0 <= e < i ==> t[e].End() <= t[i].addr;
        return;
      }
    }
  }
}
