/** What the sanitised memory map means: one type per address, in one canonical form. */
module E820Spec {
  import opened E820Types

  /** The largest kind among the entries of `t` whose index is in `s` and below `n`; 0 if there is none. */
  ghost function KindMax(t: seq<Entry>, s: set<nat>, n: nat): (m: nat)
    requires n <= |t|
    ensures forall e: nat :: e in s && e < n ==> t[e].kind <= m
    ensures m > 0 ==> exists e: nat :: e in s && e < n && t[e].kind == m
  {
    if n == 0 then 0
    else
      var m := KindMax(t, s, n - 1);
      if n - 1 in s && t[n - 1].kind > m then t[n - 1].kind else m
  }

  lemma {:induction false} KindMaxUnique(t: seq<Entry>, s: set<nat>, m: nat)
    requires forall e: nat :: e in s && e < |t| ==> t[e].kind <= m
    requires m > 0 ==> exists e: nat :: e in s && e < |t| && t[e].kind == m
    ensures KindMax(t, s, |t|) == m
  {
  }

  ghost function Holders(t: seq<Entry>, x: int): set<nat> {
    set e: nat | e < |t| && t[e].Holds(x)
  }

  /** The type of address `x`: the maximum type among the entries that cover it, 0 if none does. */
  ghost function TypeAt(t: seq<Entry>, x: int): nat {
    KindMax(t, Holders(t, x), |t|)
  }

  /** Sorted, disjoint, no empty or untyped entries, and touching neighbours differ in type. */
  ghost predicate Canonical(t: seq<Entry>) {
    && SortedDisjoint(t)
    && (forall a :: 0 <= a < |t| ==> t[a].size > 0 && t[a].kind > 0)
    && (forall a :: 0 <= a < |t| - 1 && t[a].End() == t[a + 1].addr ==> t[a].kind != t[a + 1].kind)
  }

  ghost predicate CanonicalFormOf(c: seq<Entry>, t: seq<Entry>) {
    Canonical(c) && forall x :: TypeAt(c, x) == TypeAt(t, x)
  }

  lemma {:induction false} TypeAtHolder(t: seq<Entry>, x: int, a: nat)
    requires SortedDisjoint(t) && a < |t| && t[a].Holds(x)
    ensures TypeAt(t, x) == t[a].kind
  {
    forall e: nat | e in Holders(t, x) ensures e == a {
      assert t[e].Holds(x);
    }
    assert a in Holders(t, x);
    KindMaxUnique(t, Holders(t, x), t[a].kind);
  }

  lemma {:induction false} TypeAtNone(t: seq<Entry>, x: int)
    requires forall e :: 0 <= e < |t| ==> !t[e].Holds(x)
    ensures TypeAt(t, x) == 0
  {
    assert Holders(t, x) == {};
  }

  /** The first entry of a canonical table decides the type at and before its addresses. */
  lemma {:induction false} TypeAtFirst(t: seq<Entry>, x: int)
    requires Canonical(t) && t != []
    ensures x < t[0].addr ==> TypeAt(t, x) == 0
    ensures t[0].addr <= x < t[0].End() ==> TypeAt(t, x) == t[0].kind
    ensures x == t[0].End() ==> TypeAt(t, x) != t[0].kind
    ensures TypeAt(t[1..], x) == if x < t[0].End() then 0 else TypeAt(t, x)
  {
    forall e | 0 <= e < |t| ensures e > 0 ==> t[e].addr >= t[0].End() {
      if e > 0 { assert t[0].End() <= t[e].addr; }
    }
    if t[0].Holds(x) { TypeAtHolder(t, x, 0); }
    if x < t[0].addr { TypeAtNone(t, x); }
    TypeAtTail(t, x);
    if x == t[0].End() {
      if |t| > 1 && t[1].addr == x {
        TypeAtHolder(t, x, 1);
      } else {
        forall e | 0 <= e < |t| ensures !t[e].Holds(x) {
          if e > 1 { assert t[1].End() <= t[e].addr; }
        }
        TypeAtNone(t, x);
      }
    }
  }

  lemma {:induction false} TypeAtTail(t: seq<Entry>, x: int)
    requires SortedDisjoint(t) && t != []
    ensures TypeAt(t[1..], x) == if x < t[0].End() then 0 else TypeAt(t, x)
  {
    hide TypeAt;
    var r := t[1..];
    assert forall i :: 0 <= i < |r| ==> r[i] == t[i + 1];
    if x < t[0].End() {
      forall e | 0 <= e < |r| ensures !r[e].Holds(x) {
        assert r[e] == t[e + 1] && t[0].End() <= t[e + 1].addr;
      }
      TypeAtNone(r, x);
    } else if exists a: nat :: a < |r| && r[a].Holds(x) {
      var a: nat :| a < |r| && r[a].Holds(x);
      TypeAtHolder(r, x, a);
      TypeAtHolder(t, x, a + 1);
    } else {
      TypeAtNone(r, x);
      forall e | 0 <= e < |t| ensures !t[e].Holds(x) {
        if e > 0 { assert r[e - 1] == t[e]; }
      }
      TypeAtNone(t, x);
    }
  }

  lemma {:induction false} CanonicalTail(t: seq<Entry>)
    requires Canonical(t) && t != []
    ensures Canonical(t[1..])
  {
    var r := t[1..];
    assert forall i :: 0 <= i < |r| ==> r[i] == t[i + 1];
  }

  /** A memory map has only one canonical form. */
  lemma {:induction false} CanonicalUnique(a: seq<Entry>, b: seq<Entry>)
    requires Canonical(a) && Canonical(b) && forall x :: TypeAt(a, x) == TypeAt(b, x)
    ensures a == b
    decreases |a|
  {
    hide Canonical, TypeAt;
    EmptyTogether(a, b);
    EmptyTogether(b, a);
    if a != [] {
      FirstNotEarlier(a, b);
      FirstNotEarlier(b, a);
      FirstNotLonger(a, b);
      FirstNotLonger(b, a);
      CanonicalTail(a);
      CanonicalTail(b);
      forall x ensures TypeAt(a[1..], x) == TypeAt(b[1..], x) {
        TypeAtFirst(a, x);
        TypeAtFirst(b, x);
      }
      CanonicalUnique(a[1..], b[1..]);
      assert a == [a[0]] + a[1..] && b == [b[0]] + b[1..];
    }
  }

  lemma {:induction false} EmptyTogether(a: seq<Entry>, b: seq<Entry>)
    requires Canonical(a) && forall x :: TypeAt(a, x) == TypeAt(b, x)
    ensures b == [] ==> a == []
  {
    if a != [] {
      TypeAtFirst(a, a[0].addr);
      assert TypeAt(b, a[0].addr) > 0;
    }
  }

  lemma {:induction false} FirstNotEarlier(a: seq<Entry>, b: seq<Entry>)
    requires Canonical(a) && Canonical(b) && a != [] && b != [] && forall x :: TypeAt(a, x) == TypeAt(b, x)
    ensures b[0].addr <= a[0].addr
  {
    TypeAtFirst(a, a[0].addr);
    TypeAtFirst(b, a[0].addr);
  }

  lemma {:induction false} FirstNotLonger(a: seq<Entry>, b: seq<Entry>)
    requires Canonical(a) && Canonical(b) && a != [] && b != [] && forall x :: TypeAt(a, x) == TypeAt(b, x)
    requires a[0].addr == b[0].addr
    ensures b[0].End() <= a[0].End() && a[0].kind == b[0].kind
  {
    TypeAtFirst(a, a[0].addr);
    TypeAtFirst(b, a[0].addr);
    TypeAtFirst(a, a[0].End());
    TypeAtFirst(b, a[0].End());
  }
}
