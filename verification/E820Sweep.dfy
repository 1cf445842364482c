/** The sweep over the sorted change points, as a function, and why it yields the canonical form. */
module E820Sweep {
  import opened E820Types
  import opened E820Spec

  /** An address where entry number `entry` starts or ends. */
  datatype ChangePoint = ChangePoint(addr: nat, entry: nat)

  function StartOf(t: seq<Entry>, e: nat): ChangePoint
    requires e < |t|
  {
    ChangePoint(t[e].addr, e)
  }

  function EndOf(t: seq<Entry>, e: nat): ChangePoint
    requires e < |t|
  {
    ChangePoint(t[e].End(), e)
  }

  predicate IsStart(t: seq<Entry>, p: ChangePoint)
    requires p.entry < |t|
  {
    p.addr == t[p.entry].addr
  }

  /** change_point_cmp: by address, and at one address starts before ends. */
  function Compare(t: seq<Entry>, a: ChangePoint, b: ChangePoint): int
    requires a.entry < |t| && b.entry < |t|
  {
    if a.addr != b.addr then (if a.addr > b.addr then 1 else -1)
    else (if IsStart(t, a) then 0 else 1) - (if IsStart(t, b) then 0 else 1)
  }

  /** change_point_cmp orders the points by this key. */
  function Key(t: seq<Entry>, p: ChangePoint): int
    requires p.entry < |t|
  {
    2 * p.addr + if IsStart(t, p) then 0 else 1
  }

  lemma {:induction false} CompareIsKeyOrder(t: seq<Entry>, a: ChangePoint, b: ChangePoint)
    requires a.entry < |t| && b.entry < |t|
    ensures Compare(t, a, b) < 0 <==> Key(t, a) < Key(t, b)
    ensures Compare(t, a, b) == 0 <==> Key(t, a) == Key(t, b)
  {
  }

  ghost predicate PointOf(t: seq<Entry>, p: ChangePoint) {
    p.entry < |t| && t[p.entry].size > 0 && (p == StartOf(t, p.entry) || p == EndOf(t, p.entry))
  }

  ghost predicate Sorted(t: seq<Entry>, ps: seq<ChangePoint>)
    requires forall i :: 0 <= i < |ps| ==> ps[i].entry < |t|
  {
    forall i, j :: 0 <= i < j < |ps| ==> Key(t, ps[i]) <= Key(t, ps[j])
  }

  /** `ps` holds the start and end of every entry of positive size, each once, in order. */
  ghost predicate AllPoints(t: seq<Entry>, ps: seq<ChangePoint>) {
    && (forall i :: 0 <= i < |ps| ==> PointOf(t, ps[i]))
    && (forall i, j :: 0 <= i < j < |ps| ==> ps[i] != ps[j])
    && (forall e: nat :: e < |t| && t[e].size > 0 ==> StartOf(t, e) in ps && EndOf(t, e) in ps)
    && Sorted(t, ps)
  }

  /** The entries that have started but not ended among the first `c` change points. */
  ghost function Active(t: seq<Entry>, ps: seq<ChangePoint>, c: nat): set<nat>
    requires c <= |ps|
  {
    set e: nat | e < |t| && t[e].size > 0 && StartOf(t, e) in ps[..c] && EndOf(t, e) !in ps[..c]
  }

  ghost function TypeAfter(t: seq<Entry>, ps: seq<ChangePoint>, c: nat): nat
    requires c <= |ps|
  {
    KindMax(t, Active(t, ps, c), |t|)
  }

  // ----- How the active set moves

  lemma {:induction false} PrefixGrows(ps: seq<ChangePoint>, c: nat, p: ChangePoint)
    requires c < |ps|
    ensures p in ps[..c + 1] <==> p in ps[..c] || p == ps[c]
  {
    assert ps[..c + 1] == ps[..c] + [ps[c]];
  }

  lemma {:induction false} NotYet(t: seq<Entry>, ps: seq<ChangePoint>, c: nat)
    requires AllPoints(t, ps) && c < |ps|
    ensures ps[c] !in ps[..c]
  {
  }

  /** An entry's start comes before its end. */
  lemma {:induction false} StartFirst(t: seq<Entry>, ps: seq<ChangePoint>, c: nat, e: nat)
    requires AllPoints(t, ps) && c <= |ps| && e < |t| && t[e].size > 0 && EndOf(t, e) in ps[..c]
    ensures StartOf(t, e) in ps[..c]
  {
    var j :| 0 <= j < c && ps[j] == EndOf(t, e);
    var i :| 0 <= i < |ps| && ps[i] == StartOf(t, e);
    assert ps[..c][i] == ps[i];
  }

  lemma {:induction false} ActiveStart(t: seq<Entry>, ps: seq<ChangePoint>, c: nat)
    requires AllPoints(t, ps) && c < |ps| && IsStart(t, ps[c])
    ensures ps[c].entry !in Active(t, ps, c)
    ensures Active(t, ps, c + 1) == Active(t, ps, c) + {ps[c].entry}
  {
    var e := ps[c].entry;
    assert PointOf(t, ps[c]) && ps[c] == StartOf(t, e);
    NotYet(t, ps, c);
    if EndOf(t, e) in ps[..c] { StartFirst(t, ps, c, e); }
    forall x: nat | x < |t| && t[x].size > 0
      ensures x in Active(t, ps, c + 1) <==> x in Active(t, ps, c) || x == e
    {
      PrefixGrows(ps, c, StartOf(t, x));
      PrefixGrows(ps, c, EndOf(t, x));
      assert EndOf(t, x) != ps[c];
    }
    assert forall x :: x in Active(t, ps, c + 1) <==> x in Active(t, ps, c) + {e};
  }

  lemma {:induction false} ActiveEnd(t: seq<Entry>, ps: seq<ChangePoint>, c: nat)
    requires AllPoints(t, ps) && c < |ps| && !IsStart(t, ps[c])
    ensures ps[c].entry in Active(t, ps, c)
    ensures Active(t, ps, c + 1) == Active(t, ps, c) - {ps[c].entry}
  {
    var e := ps[c].entry;
    assert PointOf(t, ps[c]) && ps[c] == EndOf(t, e);
    NotYet(t, ps, c);
    PrefixGrows(ps, c, EndOf(t, e));
    StartFirst(t, ps, c + 1, e);
    PrefixGrows(ps, c, StartOf(t, e));
    forall x: nat | x < |t| && t[x].size > 0
      ensures x in Active(t, ps, c + 1) <==> x in Active(t, ps, c) && x != e
    {
      PrefixGrows(ps, c, StartOf(t, x));
      PrefixGrows(ps, c, EndOf(t, x));
      assert StartOf(t, x) != ps[c];
    }
    assert forall x :: x in Active(t, ps, c + 1) <==> x in Active(t, ps, c) - {e};
  }

  lemma {:induction false} ActiveNone(t: seq<Entry>, ps: seq<ChangePoint>)
    ensures Active(t, ps, 0) == {} && TypeAfter(t, ps, 0) == 0
  {
  }

  /** Between two change points the active entries are exactly the ones that cover the address. */
  lemma {:induction false} ActiveHolds(t: seq<Entry>, ps: seq<ChangePoint>, c: nat, y: nat)
    requires AllPoints(t, ps) && c <= |ps|
    requires forall i :: 0 <= i < c ==> ps[i].addr <= y
    requires forall i :: c <= i < |ps| ==> y < ps[i].addr
    ensures TypeAt(t, y) == TypeAfter(t, ps, c)
  {
    forall e: nat ensures e in Holders(t, y) <==> e in Active(t, ps, c) {
      if e < |t| && t[e].size > 0 {
        PassedIff(t, ps, c, y, StartOf(t, e));
        PassedIff(t, ps, c, y, EndOf(t, e));
      }
    }
    assert Holders(t, y) == Active(t, ps, c);
  }

  lemma {:induction false} PassedIff(t: seq<Entry>, ps: seq<ChangePoint>, c: nat, y: nat, p: ChangePoint)
    requires c <= |ps| && p in ps
    requires forall i :: 0 <= i < c ==> ps[i].addr <= y
    requires forall i :: c <= i < |ps| ==> y < ps[i].addr
    ensures p in ps[..c] <==> p.addr <= y
  {
    var i :| 0 <= i < |ps| && ps[i] == p;
    if i < c { assert ps[..c][i] == p; }
  }

  // ----- Run emission

  /** The table under construction: finished entries, and the type and start of the open run. */
  datatype Build = Build(out: seq<Entry>, lastType: nat, lastAddr: nat)

  /** One change of type at `addr`. Change points come in order, so `addr` is never before the open run. */
  function Emit(b: Build, addr: nat, kind: nat): Build {
    if kind == b.lastType then b
    else
      var out := if b.lastType != 0 && addr > b.lastAddr
                 then b.out + [Entry(b.lastAddr, addr - b.lastAddr, b.lastType)] else b.out;
      Build(out, kind, if kind != 0 then addr else b.lastAddr)
  }

  /** What the finished entries and the open run say about address `y`. */
  ghost function Told(b: Build, y: int): nat {
    if b.lastType != 0 && y >= b.lastAddr then b.lastType else TypeAt(b.out, y)
  }

  /** The finished entries end at or before `upTo`, and before the open run. */
  ghost predicate Placed(b: Build, upTo: nat) {
    && (forall a :: 0 <= a < |b.out| ==> b.out[a].End() <= upTo)
    && (b.lastType != 0 ==> b.lastAddr <= upTo && forall a :: 0 <= a < |b.out| ==> b.out[a].End() <= b.lastAddr)
  }

  /** The open run, too, differs from the entry it touches. */
  ghost predicate OpenDiffers(b: Build) {
    b.lastType != 0 && b.out != [] && b.out[|b.out| - 1].End() == b.lastAddr ==>
      b.out[|b.out| - 1].kind != b.lastType
  }

  /**
   If the last finished entry ends at the current address, the type has since only risen, through an
   entry that starts here, or only fallen, with nothing but ends left to come here.
   */
  ghost predicate Settling(t: seq<Entry>, ps: seq<ChangePoint>, c: nat, b: Build)
    requires 0 < c <= |ps| && ps[c - 1].entry < |t|
  {
    b.out != [] && b.out[|b.out| - 1].End() == ps[c - 1].addr ==>
      var was := b.out[|b.out| - 1].kind;
      || (b.lastType > was && exists e: nat :: e in Active(t, ps, c) && t[e].addr == ps[c - 1].addr && t[e].kind > was)
      || (b.lastType < was && !IsStart(t, ps[c - 1]))
  }

  ghost predicate SweepInv(t: seq<Entry>, ps: seq<ChangePoint>, c: nat, b: Build)
    requires c <= |ps|
  {
    && b.lastType == TypeAfter(t, ps, c)
    && Canonical(b.out) && OpenDiffers(b)
    && (c == 0 ==> b == Build([], 0, 0))
    && (c > 0 ==> Placed(b, ps[c - 1].addr) && ps[c - 1].entry < |t| && Settling(t, ps, c, b))
    && (forall y: nat :: (c < |ps| ==> y < ps[c].addr) ==> Told(b, y) == TypeAt(t, y))
  }

  lemma {:induction false} SweepStart(t: seq<Entry>, ps: seq<ChangePoint>)
    requires AllPoints(t, ps)
    ensures SweepInv(t, ps, 0, Build([], 0, 0))
  {
    ActiveNone(t, ps);
    forall y: nat | |ps| > 0 ==> y < ps[0].addr ensures TypeAt([], y) == TypeAt(t, y) {
      assert forall i :: 0 <= i < |ps| ==> ps[0].addr <= ps[i].addr by {
        forall i | 0 <= i < |ps| ensures ps[0].addr <= ps[i].addr {
          if i > 0 { assert Key(t, ps[0]) <= Key(t, ps[i]); }
        }
      }
      ActiveHolds(t, ps, 0, y);
      TypeAtNone([], y);
    }
  }

  lemma {:induction false} SortedAddrs(t: seq<Entry>, ps: seq<ChangePoint>, i: nat, j: nat)
    requires AllPoints(t, ps) && i <= j < |ps|
    ensures ps[i].addr <= ps[j].addr
    ensures i < j && ps[i].addr == ps[j].addr && !IsStart(t, ps[i]) ==> !IsStart(t, ps[j])
  {
    if i < j { assert Key(t, ps[i]) <= Key(t, ps[j]); }
  }

  /** A start cannot lower the type and an end cannot raise it. */
  lemma {:induction false} TypeMoves(t: seq<Entry>, ps: seq<ChangePoint>, c: nat)
    requires AllPoints(t, ps) && c < |ps|
    ensures var was, now, e := TypeAfter(t, ps, c), TypeAfter(t, ps, c + 1), ps[c].entry;
      && e < |t|
      && (IsStart(t, ps[c]) ==> e in Active(t, ps, c + 1) && now == if t[e].kind > was then t[e].kind else was)
      && (!IsStart(t, ps[c]) ==> now <= was)
  {
    var e := ps[c].entry;
    var s := Active(t, ps, c);
    assert PointOf(t, ps[c]);
    if IsStart(t, ps[c]) {
      ActiveStart(t, ps, c);
      var m := if t[e].kind > KindMax(t, s, |t|) then t[e].kind else KindMax(t, s, |t|);
      assert forall x: nat :: x in s + {e} && x < |t| ==> t[x].kind <= m;
      assert m > 0 ==> exists x: nat :: x in s + {e} && x < |t| && t[x].kind == m by {
        if m > 0 && t[e].kind != m {
          var x: nat :| x in s && x < |t| && t[x].kind == m;
          assert x in s + {e};
        } else {
          assert e in s + {e};
        }
      }
      KindMaxUnique(t, s + {e}, m);
    } else {
      ActiveEnd(t, ps, c);
      var m := KindMax(t, s - {e}, |t|);
      if m > 0 {
        var x: nat :| x in s - {e} && x < |t| && t[x].kind == m;
        assert x in s;
      }
    }
  }

  lemma {:induction false} EmitPlaced(b: Build, upTo: nat, addr: nat, kind: nat)
    requires Placed(b, upTo) && upTo <= addr
    ensures Placed(Emit(b, addr, kind), addr)
  {
  }

  lemma {:induction false} EmitCanonical(b: Build, upTo: nat, addr: nat, kind: nat)
    requires Placed(b, upTo) && upTo <= addr && Canonical(b.out) && OpenDiffers(b)
    ensures Canonical(Emit(b, addr, kind).out)
  {
    hide Canonical;
    if kind != b.lastType && b.lastType != 0 && addr > b.lastAddr {
      AppendCanonical(b.out, Entry(b.lastAddr, addr - b.lastAddr, b.lastType));
    }
  }

  lemma {:induction false} AppendCanonical(t: seq<Entry>, e: Entry)
    requires Canonical(t) && e.size > 0 && e.kind > 0 && forall a :: 0 <= a < |t| ==> t[a].End() <= e.addr
    requires t != [] && t[|t| - 1].End() == e.addr ==> t[|t| - 1].kind != e.kind
    ensures Canonical(t + [e])
  {
    var r := t + [e];
    forall a, b | 0 <= a < b < |r| ensures r[a].End() <= r[b].addr {
      assert r[a] == t[a];
      if b < |t| { assert r[b] == t[b]; }
    }
    forall a | 0 <= a < |r| - 1 && r[a].End() == r[a + 1].addr ensures r[a].kind != r[a + 1].kind {
      assert r[a] == t[a];
      if a + 1 < |t| { assert r[a + 1] == t[a + 1]; }
    }
  }

  lemma {:induction false} TypeAtAppend(t: seq<Entry>, e: Entry, y: int)
    requires SortedDisjoint(t + [e])
    ensures TypeAt(t + [e], y) == if e.Holds(y) then e.kind else TypeAt(t, y)
  {
    var r := t + [e];
    if e.Holds(y) {
      TypeAtHolder(r, y, |t|);
    } else if exists a: nat :: a < |t| && t[a].Holds(y) {
      var a: nat :| a < |t| && t[a].Holds(y);
      assert forall i, j :: 0 <= i < j < |t| ==> r[i] == t[i] && r[j] == t[j];
      TypeAtHolder(r, y, a);
      TypeAtHolder(t, y, a);
    } else {
      TypeAtNone(t, y);
      TypeAtNone(r, y);
    }
  }

  /** Closing and opening runs at `addr` changes nothing below `addr`. */
  lemma {:induction false} CanonicalSorted(t: seq<Entry>)
    requires Canonical(t)
    ensures SortedDisjoint(t)
  {
  }

  lemma {:induction false} EmitTold(b: Build, upTo: nat, addr: nat, kind: nat, y: nat)
    requires Placed(b, upTo) && upTo <= addr && Canonical(b.out) && OpenDiffers(b) && y < addr
    ensures Told(Emit(b, addr, kind), y) == Told(b, y)
  {
    hide Canonical, SortedDisjoint, TypeAt, OpenDiffers;
    EmitCanonical(b, upTo, addr, kind);
    CanonicalSorted(b.out);
    CanonicalSorted(Emit(b, addr, kind).out);
    if kind != b.lastType && b.lastType != 0 && addr > b.lastAddr {
      TypeAtAppend(b.out, Entry(b.lastAddr, addr - b.lastAddr, b.lastType), y);
    }
  }

  lemma {:induction false} EmitNow(b: Build, upTo: nat, addr: nat, kind: nat, y: nat)
    requires Placed(b, upTo) && upTo <= addr <= y
    ensures Told(Emit(b, addr, kind), y) == kind
  {
    EmitPlaced(b, upTo, addr, kind);
    if kind == 0 { TypeAtNone(Emit(b, addr, kind).out, y); }
  }

  /** What the sweep says about addresses up to the next change point. */
  lemma {:induction false} StepTold(t: seq<Entry>, ps: seq<ChangePoint>, c: nat, b: Build, upTo: nat, y: nat)
    requires AllPoints(t, ps) && c < |ps| && Placed(b, upTo) && upTo <= ps[c].addr && Canonical(b.out) && OpenDiffers(b)
    requires y < ps[c].addr ==> Told(b, y) == TypeAt(t, y)
    requires c + 1 < |ps| ==> y < ps[c + 1].addr
    ensures Told(Emit(b, ps[c].addr, TypeAfter(t, ps, c + 1)), y) == TypeAt(t, y)
  {
    var addr, kind := ps[c].addr, TypeAfter(t, ps, c + 1);
    if y < addr {
      EmitTold(b, upTo, addr, kind, y);
    } else {
      forall i | 0 <= i < c + 1 ensures ps[i].addr <= y { SortedAddrs(t, ps, i, c); }
      forall i | c + 1 <= i < |ps| ensures y < ps[i].addr { SortedAddrs(t, ps, c + 1, i); }
      ActiveHolds(t, ps, c + 1, y);
      EmitNow(b, upTo, addr, kind, y);
    }
  }

  /** The rise-or-fall argument carries over one change point. */
  lemma {:induction false} PointAt(t: seq<Entry>, ps: seq<ChangePoint>, c: nat)
    requires AllPoints(t, ps) && c < |ps|
    ensures PointOf(t, ps[c])
  {
  }

  lemma {:induction false} StepSettling(t: seq<Entry>, ps: seq<ChangePoint>, c: nat, b: Build, upTo: nat)
    requires AllPoints(t, ps) && c < |ps| && Placed(b, upTo) && upTo <= ps[c].addr
    requires b.lastType == TypeAfter(t, ps, c)
    requires c == 0 ==> b.out == []
    requires c > 0 ==> upTo == ps[c - 1].addr && ps[c - 1].entry < |t| && Settling(t, ps, c, b)
    ensures ps[c].entry < |t| && Settling(t, ps, c + 1, Emit(b, ps[c].addr, TypeAfter(t, ps, c + 1)))
  {
    hide AllPoints, TypeAfter;
    TypeMoves(t, ps, c);
    PointAt(t, ps, c);
    if c > 0 { SortedAddrs(t, ps, c - 1, c); }
    if c > 0 && b.out != [] && b.out[|b.out| - 1].End() == ps[c].addr == ps[c - 1].addr
      && b.lastType > b.out[|b.out| - 1].kind {
      var g: nat :| g in Active(t, ps, c) && t[g].addr == ps[c].addr && t[g].kind > b.out[|b.out| - 1].kind;
      StillActive(t, ps, c, g);
    }
    hide Active, PointOf;
    SettlingMoves(t, ps, c, b, upTo, TypeAfter(t, ps, c), TypeAfter(t, ps, c + 1));
  }

  lemma {:induction false} SettlingMoves(t: seq<Entry>, ps: seq<ChangePoint>, c: nat, b: Build, upTo: nat, was: nat,
                                         kind: nat)
    requires c < |ps| && Placed(b, upTo) && upTo <= ps[c].addr && b.lastType == was && ps[c].entry < |t|
    requires IsStart(t, ps[c]) ==> ps[c].entry in Active(t, ps, c + 1)
    requires IsStart(t, ps[c]) ==> kind == if t[ps[c].entry].kind > was then t[ps[c].entry].kind else was
    requires !IsStart(t, ps[c]) ==> kind <= was
    requires c == 0 ==> b.out == []
    requires c > 0 ==> upTo == ps[c - 1].addr
    requires c > 0 && b.out != [] && b.out[|b.out| - 1].End() == ps[c].addr == ps[c - 1].addr ==>
      var k := b.out[|b.out| - 1].kind;
      || (was > k && exists g: nat :: g in Active(t, ps, c + 1) && t[g].addr == ps[c].addr && k < t[g].kind <= kind)
      || (was < k && !IsStart(t, ps[c]))
    ensures Settling(t, ps, c + 1, Emit(b, ps[c].addr, kind))
  {
    hide Active;
    var b' := Emit(b, ps[c].addr, kind);
    if b'.out != b.out {
      assert b'.out[|b'.out| - 1].kind == was;
    }
  }

  /** An entry that starts at the current address does not end there. */
  lemma {:induction false} StillActive(t: seq<Entry>, ps: seq<ChangePoint>, c: nat, g: nat)
    requires AllPoints(t, ps) && c < |ps| && g in Active(t, ps, c) && t[g].addr == ps[c].addr
    ensures g in Active(t, ps, c + 1) && t[g].kind <= TypeAfter(t, ps, c + 1)
  {
    assert PointOf(t, ps[c]);
    if IsStart(t, ps[c]) { ActiveStart(t, ps, c); } else { ActiveEnd(t, ps, c); }
  }

  lemma {:induction false} StepOpenDiffers(t: seq<Entry>, ps: seq<ChangePoint>, c: nat, b: Build, b': Build)
    requires c < |ps| && ps[c].entry < |t| && (b.lastType != 0 ==> b.lastAddr <= ps[c].addr)
    requires OpenDiffers(b) && b' == Emit(b, ps[c].addr, b'.lastType) && Settling(t, ps, c + 1, b')
    ensures OpenDiffers(b')
  {
  }

  lemma {:induction false} SweepStep(t: seq<Entry>, ps: seq<ChangePoint>, c: nat, b: Build)
    requires AllPoints(t, ps) && c < |ps| && SweepInv(t, ps, c, b)
    ensures b.lastType != 0 ==> b.lastAddr <= ps[c].addr
    ensures SweepInv(t, ps, c + 1, Emit(b, ps[c].addr, TypeAfter(t, ps, c + 1)))
  {
    hide Canonical, TypeAt, TypeAfter, AllPoints, Settling, OpenDiffers, Told;
    var upTo := if c == 0 then 0 else ps[c - 1].addr;
    if c > 0 { SortedAddrs(t, ps, c - 1, c); }
    assert Placed(b, upTo);
    var kind := TypeAfter(t, ps, c + 1);
    var b' := Emit(b, ps[c].addr, kind);
    assert b'.lastType == kind;
    hide Emit, Placed;
    EmitPlaced(b, upTo, ps[c].addr, kind);
    EmitCanonical(b, upTo, ps[c].addr, kind);
    StepSettling(t, ps, c, b, upTo);
    StepOpenDiffers(t, ps, c, b, b');
    forall y: nat | c + 1 < |ps| ==> y < ps[c + 1].addr ensures Told(b', y) == TypeAt(t, y) {
      StepTold(t, ps, c, b, upTo, y);
    }
  }

  /** The table built from the first `c` change points. */
  ghost function Sweep(t: seq<Entry>, ps: seq<ChangePoint>, c: nat): Build
    requires c <= |ps|
  {
    if c == 0 then Build([], 0, 0)
    else Emit(Sweep(t, ps, c - 1), ps[c - 1].addr, TypeAfter(t, ps, c))
  }

  lemma {:induction false} SweepOk(t: seq<Entry>, ps: seq<ChangePoint>, c: nat)
    requires AllPoints(t, ps) && c <= |ps|
    ensures SweepInv(t, ps, c, Sweep(t, ps, c))
  {
    hide AllPoints, SweepInv, Emit, TypeAfter;
    if c == 0 {
      SweepStart(t, ps);
    } else {
      SweepOk(t, ps, c - 1);
      SweepStep(t, ps, c - 1, Sweep(t, ps, c - 1));
    }
  }

  /** After the last change point nothing is open, so the finished entries are the canonical form. */
  lemma {:induction false} SweepEnd(t: seq<Entry>, ps: seq<ChangePoint>)
    requires AllPoints(t, ps)
    ensures CanonicalFormOf(Sweep(t, ps, |ps|).out, t)
  {
    var b := Sweep(t, ps, |ps|);
    SweepOk(t, ps, |ps|);
    var n := |ps|;
    assert ps[..n] == ps;
    assert Active(t, ps, n) == {};
    forall x ensures TypeAt(b.out, x) == TypeAt(t, x) {
      if x < 0 {
        TypeAtNone(b.out, x);
        TypeAtNone(t, x);
      } else {
        assert Told(b, x) == TypeAt(t, x);
      }
    }
  }

  lemma {:induction false} EmitGrows(b: Build, addr: nat, kind: nat)
    ensures b.out <= Emit(b, addr, kind).out
  {
  }

  lemma {:induction false} SweepGrows(t: seq<Entry>, ps: seq<ChangePoint>, c: nat, d: nat)
    requires c <= d <= |ps|
    ensures Sweep(t, ps, c).out <= Sweep(t, ps, d).out
    decreases d
  {
    hide TypeAfter, Emit;
    if c < d {
      SweepGrows(t, ps, c, d - 1);
      EmitGrows(Sweep(t, ps, d - 1), ps[d - 1].addr, TypeAfter(t, ps, d));
    }
  }
}
