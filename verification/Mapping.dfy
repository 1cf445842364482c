/** Mapping as an update of a plain address map: what adding tables and entries does to every translation. */
module Mapping {
  import opened Words
  import opened PageTables
  import opened Rounding

  /** A forest together with the level of each of its tables. */
  datatype Forest = Forest(tables: Tables, level: Levels)

  ghost predicate Ok(f: Forest) {
    WellFormed(f.tables, f.level)
  }

  ghost predicate Root(f: Forest, r: nat) {
    IsRoot(f.tables, f.level, r)
  }

  /** What is being mapped where: address `virt` at `phys` and on from there, with these flag bits, present or not. */
  datatype Request = Request(virt: int, phys: int, other: nat, tops: Tops, present: bool) {
    function Target(w: int): nat { TargetOf(virt, phys, w) }
  }

  /** The pages of `pages` (by number) that root `r` sees through the tables of root `u`. */
  ghost predicate Sees(f: Forest, r: nat, u: nat, w: nat, pages: set<nat>)
    requires r in f.tables && u in f.tables
  {
    w / 0x1000 in pages && Shares(f.tables, r, u, Idx(w, 4))
  }

  /** A range of top-level slots. */
  datatype Tops = Tops(lo: nat, hi: nat) {
    predicate Has(i: int) { lo <= i <= hi }
  }

  /** Nothing but links to fresh tables, in the slots of `tops` of root `u`, is added to the roots. */
  ghost predicate TopKept(f: Forest, f': Forest, u: nat, tops: Tops) {
    && f.tables.Keys <= f'.tables.Keys
    && (forall t :: t in f.tables ==> t in f.level && t in f'.level && f'.level[t] == f.level[t])
    && (forall r :: Root(f, r) && r != u ==> f'.tables[r] == f.tables[r])
    && u in f.tables
    && (forall i :: 0 <= i < ENTRIES ==>
          f'.tables[u][i] == f.tables[u][i]
          || (tops.Has(i) && !f.tables[u][i].flags.present && f'.tables[u][i].addr !in f.tables))
  }

  /** Present entries stay, new tables hang under `u`, and new leaves of `u` are requested ones, over new pages only. */
  ghost predicate Grows(f: Forest, f': Forest, u: nat, m: Request, pages: set<nat>) {
    PresentKept(f, f') && NewLinks(f, f') && NewTables(f, f', u, m.tops) && NewLeaves(f, f', u, m, pages)
  }

  /** New links lead to new tables. */
  ghost predicate NewLinks(f: Forest, f': Forest) {
    forall t, i :: t in f'.tables && t in f'.level && f'.level[t] > 1 && 0 <= i < ENTRIES && IsLink(f'.tables[t][i]) ==>
      (t in f.tables && f.tables[t][i] == f'.tables[t][i]) || f'.tables[t][i].addr !in f.tables
  }

  ghost predicate PresentKept(f: Forest, f': Forest) {
    forall t, i :: t in f.tables && 0 <= i < ENTRIES && f.tables[t][i].flags.present ==>
      t in f'.tables && f'.tables[t][i] == f.tables[t][i]
  }

  /** Table `t` is on the path of some address of `u` in the top-level slots `tops`. */
  ghost predicate Under(f: Forest, u: nat, t: nat, tops: Tops) {
    exists v: nat, l: nat :: v < VIRT_END && 1 <= l <= 4 && Reach(f.tables, u, l, v) == At(t) && tops.Has(Idx(v, 4))
  }

  ghost predicate NewTables(f: Forest, f': Forest, u: nat, tops: Tops) {
    forall t :: t in f'.tables && t !in f.tables ==> Under(f', u, t, tops)
  }

  ghost predicate NewLeaves(f: Forest, f': Forest, u: nat, m: Request, pages: set<nat>) {
    forall v: nat, l: nat, a: nat :: HasLeaf(f'.tables, u, v, l, a) ==>
      HasLeaf(f.tables, u, v, l, a)
        || (l <= 2 && m.present && a == m.Target(v) && a % Span(l) == 0 && SlotPages(v, l) <= pages)
  }

  /**
   Mapping refines a plain update: exactly the addresses of the pages `pages`, from the roots that share the
   tables, now translate to the requested target; they were unmapped before; every other translation stays. A request
   without the present bit writes entries that translate nothing, so then every translation stays.
   */
  ghost predicate Updates(f: Forest, f': Forest, u: nat, m: Request, pages: set<nat>) {
    && Ok(f) && Ok(f') && Root(f, u) && TopKept(f, f', u, m.tops) && Grows(f, f', u, m, pages)
    && (forall q :: q in pages ==> q * 0x1000 < VIRT_END)
    && (forall r: nat, w: nat :: Root(f, r) && w < VIRT_END ==> UpdatedAt(f, f', u, m, pages, r, w))
    && (forall w: nat :: w < VIRT_END ==> WasFree(f, u, pages, w))
  }

  ghost predicate UpdatedAt(f: Forest, f': Forest, u: nat, m: Request, pages: set<nat>, r: nat, w: nat)
    requires r in f.tables && u in f.tables
  {
    if m.present && Sees(f, r, u, w, pages)
    then Translate(f'.tables, r, w) == Mapped(m.Target(w), m.other)
    else Translate(f'.tables, r, w) == Translate(f.tables, r, w)
  }

  ghost predicate WasFree(f: Forest, u: nat, pages: set<nat>, w: nat) {
    w / 0x1000 in pages ==> Translate(f.tables, u, w).Unmapped?
  }

  lemma {:induction false} NoUpdate(f: Forest, u: nat, m: Request)
    requires Ok(f) && Root(f, u)
    ensures Updates(f, f, u, m, {})
  {
  }

  // ----- Composition

  lemma {:induction false} TopKeptTrans(f: Forest, g: Forest, h: Forest, u: nat, tops: Tops)
    requires TopKept(f, g, u, tops) && TopKept(g, h, u, tops)
    ensures TopKept(f, h, u, tops)
  {
    forall r | Root(f, r) && r != u ensures h.tables[r] == f.tables[r] {
      assert Root(g, r);
    }
  }

  /** Adding fresh links to a root does not change which roots share a slot with it. */
  lemma {:induction false} SharesKept(f: Forest, g: Forest, u: nat, r: nat, i: nat, tops: Tops)
    requires Ok(f) && Root(f, u) && Root(f, r) && TopKept(f, g, u, tops) && i < ENTRIES
    ensures Shares(g.tables, r, u, i) <==> Shares(f.tables, r, u, i)
  {
    if r != u {
      assert g.tables[r] == f.tables[r];
      assert IsLink(f.tables[r][i]) ==> f.tables[r][i].addr in f.tables;
    }
  }

  /** Paths through present links stay. */
  lemma {:induction false} ReachKept(f: Forest, g: Forest, u: nat, l: nat, v: nat)
    requires PresentKept(f, g) && f.tables.Keys <= g.tables.Keys && 1 <= l <= 4 && Reach(f.tables, u, l, v).At?
    ensures Reach(g.tables, u, l, v) == Reach(f.tables, u, l, v)
    decreases 4 - l
  {
    if l < 4 { ReachKept(f, g, u, l + 1, v); }
  }

  lemma {:induction false} UnderKept(f: Forest, g: Forest, u: nat, t: nat, tops: Tops)
    requires PresentKept(f, g) && f.tables.Keys <= g.tables.Keys && Under(f, u, t, tops)
    ensures Under(g, u, t, tops)
  {
    var v: nat, l: nat :| v < VIRT_END && 1 <= l <= 4 && Reach(f.tables, u, l, v) == At(t) && tops.Has(Idx(v, 4));
    ReachKept(f, g, u, l, v);
  }

  lemma {:induction false} GrowsTrans(f: Forest, g: Forest, h: Forest, u: nat, m: Request, a: set<nat>, b: set<nat>)
    requires Grows(f, g, u, m, a) && Grows(g, h, u, m, b) && f.tables.Keys <= g.tables.Keys <= h.tables.Keys
    requires forall t :: t in g.tables ==> t in g.level && t in h.level && h.level[t] == g.level[t]
    ensures Grows(f, h, u, m, a + b)
  {
    hide PresentKept, NewTables, NewLeaves, NewLinks;
    PresentTrans(f, g, h);
    LinksTrans(f, g, h);
    NewTablesTrans(f, g, h, u, m.tops);
    NewLeavesTrans(f, g, h, u, m, a, b);
  }

  lemma {:induction false} PresentTrans(f: Forest, g: Forest, h: Forest)
    requires PresentKept(f, g) && PresentKept(g, h)
    ensures PresentKept(f, h)
  {
  }

  lemma {:induction false} LinksTrans(f: Forest, g: Forest, h: Forest)
    requires NewLinks(f, g) && NewLinks(g, h) && f.tables.Keys <= g.tables.Keys
    requires forall t :: t in g.tables ==> t in g.level && t in h.level && h.level[t] == g.level[t]
    ensures NewLinks(f, h)
  {
  }

  lemma {:induction false} NewTablesTrans(f: Forest, g: Forest, h: Forest, u: nat, tops: Tops)
    requires NewTables(f, g, u, tops) && NewTables(g, h, u, tops) && PresentKept(g, h) && g.tables.Keys <= h.tables.Keys
    ensures NewTables(f, h, u, tops)
  {
    hide Under;
    forall t | t in h.tables && t !in f.tables ensures Under(h, u, t, tops) {
      if t in g.tables { UnderKept(g, h, u, t, tops); }
    }
  }

  lemma {:induction false} NewLeavesTrans(f: Forest, g: Forest, h: Forest, u: nat, m: Request, a: set<nat>, b: set<nat>)
    requires NewLeaves(f, g, u, m, a) && NewLeaves(g, h, u, m, b)
    ensures NewLeaves(f, h, u, m, a + b)
  {
    hide HasLeaf, SlotPages;
    assert a <= a + b && b <= a + b;
  }

  lemma {:induction false} UpdatesCompose(f: Forest, g: Forest, h: Forest, u: nat, m: Request, a: set<nat>, b: set<nat>)
    requires Updates(f, g, u, m, a) && Updates(g, h, u, m, b)
    ensures Updates(f, h, u, m, a + b)
    ensures m.present ==> a !! b
  {
    TopKeptTrans(f, g, h, u, m.tops);
    GrowsTrans(f, g, h, u, m, a, b);
    forall r: nat, w: nat | Root(f, r) && w < VIRT_END ensures UpdatedAt(f, h, u, m, a + b, r, w) {
      ComposeAt(f, g, h, u, m, a, b, r, w);
    }
    forall w: nat | w < VIRT_END ensures WasFree(f, u, a + b, w) {
      assert WasFree(f, u, a, w) && WasFree(g, u, b, w) && UpdatedAt(f, g, u, m, a, u, w);
    }
    forall q | m.present && q in a ensures q !in b {
      ApartAt(f, g, u, m, a, b, q);
    }
  }

  lemma {:induction false} ComposeAt(f: Forest, g: Forest, h: Forest, u: nat, m: Request, a: set<nat>, b: set<nat>,
                                     r: nat, w: nat)
    requires Updates(f, g, u, m, a) && Updates(g, h, u, m, b) && Root(f, r) && w < VIRT_END
    ensures UpdatedAt(f, h, u, m, a + b, r, w)
  {
    assert Root(g, r);
    SharesKept(f, g, u, r, Idx(w, 4), m.tops);
    assert UpdatedAt(f, g, u, m, a, r, w) && UpdatedAt(g, h, u, m, b, r, w);
  }

  lemma {:induction false} ApartAt(f: Forest, g: Forest, u: nat, m: Request, a: set<nat>, b: set<nat>, q: nat)
    requires Updates(f, g, u, m, a) && q in a && m.present
    requires forall w: nat :: w < VIRT_END ==> WasFree(g, u, b, w)
    ensures q !in b
  {
    var w := q * 0x1000;
    assert w / 0x1000 == q;
    assert UpdatedAt(f, g, u, m, a, u, w) && WasFree(g, u, b, w);
  }

  // ----- The two elementary steps

  /** A fresh zeroed table linked into an absent entry of the level-`l` table on the path of `v`. */
  function Linked(f: Forest, t: nat, i: nat, l: nat, frame: nat, other: nat): Forest
    requires t in f.tables && i < ENTRIES && l >= 1
  {
    Forest(Put(f.tables, t, i, Pte(frame, Flags(true, false, other)))[frame := ZeroTable()], f.level[frame := l - 1])
  }

  lemma {:induction false} LinkedOk(f: Forest, t: nat, i: nat, l: nat, frame: nat, other: nat)
    requires Ok(f) && t in f.tables && f.level[t] == l && 2 <= l <= 4 && i < ENTRIES
    requires !f.tables[t][i].flags.present && frame !in f.tables
    ensures Ok(Linked(f, t, i, l, frame, other))
  {
    var g := Linked(f, t, i, l, frame, other);
    LinkedLayered(f, t, i, l, frame, other);
    forall x, j, y, k |
      && x in g.tables && y in g.tables && 0 <= j < ENTRIES && 0 <= k < ENTRIES && g.level[x] > 1 && g.level[y] > 1
      && IsLink(g.tables[x][j]) && IsLink(g.tables[y][k]) && g.tables[x][j].addr == g.tables[y][k].addr
      ensures j == k && (x == y || (g.level[x] == 4 && g.level[y] == 4 && j >= KERNEL_HALF))
    {
      LinkSource(f, t, i, l, frame, other, x, j);
      LinkSource(f, t, i, l, frame, other, y, k);
    }
  }

  lemma {:induction false} LinkSource(f: Forest, t: nat, i: nat, l: nat, frame: nat, other: nat, x: nat, j: nat)
    requires Ok(f) && t in f.tables && f.level[t] == l && 2 <= l <= 4 && i < ENTRIES && frame !in f.tables
    requires var g := Linked(f, t, i, l, frame, other);
      x in g.tables && j < ENTRIES && g.level[x] > 1 && IsLink(g.tables[x][j])
    ensures var g := Linked(f, t, i, l, frame, other);
      || (x == t && j == i && g.tables[x][j].addr == frame)
      || (x in f.tables && f.level[x] == g.level[x] && IsLink(f.tables[x][j]) && f.tables[x][j] == g.tables[x][j]
          && g.tables[x][j].addr in f.tables)
  {
  }

  lemma {:induction false} LinkedLayered(f: Forest, t: nat, i: nat, l: nat, frame: nat, other: nat)
    requires Ok(f) && t in f.tables && f.level[t] == l && 2 <= l <= 4 && i < ENTRIES && frame !in f.tables
    ensures Layered(Linked(f, t, i, l, frame, other).tables, Linked(f, t, i, l, frame, other).level)
  {
    var g := Linked(f, t, i, l, frame, other);
    forall x, j | x in g.tables && 0 <= j < ENTRIES && g.level[x] > 1 && IsLink(g.tables[x][j])
      ensures g.tables[x][j].addr in g.tables && g.level[g.tables[x][j].addr] == g.level[x] - 1
    {
      LinkSource(f, t, i, l, frame, other, x, j);
    }
  }

  /** Linking an empty table changes no translation at all. */
  lemma {:induction false} LinkedUpdates(f: Forest, u: nat, v: nat, l: nat, t: nat, frame: nat, other: nat, m: Request)
    requires Ok(f) && Root(f, u) && 2 <= l <= 4 && Reach(f.tables, u, l, v) == At(t) && v < VIRT_END
    requires t in f.tables && f.level[t] == l && !f.tables[t][Idx(v, l)].flags.present && frame !in f.tables
    requires m.tops.Has(Idx(v, 4))
    ensures Updates(f, Linked(f, t, Idx(v, l), l, frame, other), u, m, {})
  {
    var i := Idx(v, l);
    var g := Linked(f, t, i, l, frame, other);
    LinkedOk(f, t, i, l, frame, other);
    forall r: nat, w: nat | Root(f, r) && w < VIRT_END ensures UpdatedAt(f, g, u, m, {}, r, w) {
      LinkedTranslate(f, t, i, l, frame, other, r, w);
    }
    LinkedTop(f, u, v, l, t, frame, other, m.tops);
    LinkedGrows(f, u, v, l, t, frame, other, m);
  }

  /** Below the new table there is nothing; elsewhere paths are as before. */
  lemma {:induction false} LinkedReachBack(f: Forest, u: nat, l: nat, t: nat, i: nat, frame: nat, other: nat, m: nat,
                                           w: nat)
    requires u in f.tables && 2 <= l <= 4 && t in f.tables && i < ENTRIES && frame !in f.tables && 1 <= m <= 4
    ensures var g := Linked(f, t, i, l, frame, other);
      Reach(g.tables, u, m, w).At? ==>
        Reach(g.tables, u, m, w) == Reach(f.tables, u, m, w) || Reach(g.tables, u, m, w) == At(frame)
    decreases 4 - m
  {
    if m < 4 {
      LinkedReachBack(f, u, l, t, i, frame, other, m + 1, w);
      hide Idx;
    }
  }

  lemma {:induction false} LinkedGrows(f: Forest, u: nat, v: nat, l: nat, t: nat, frame: nat, other: nat, m: Request)
    requires Ok(f) && Root(f, u) && 2 <= l <= 4 && Reach(f.tables, u, l, v) == At(t) && v < VIRT_END
    requires t in f.tables && f.level[t] == l && !f.tables[t][Idx(v, l)].flags.present && frame !in f.tables
    requires m.tops.Has(Idx(v, 4))
    ensures Grows(f, Linked(f, t, Idx(v, l), l, frame, other), u, m, {})
  {
    var i := Idx(v, l);
    var g := Linked(f, t, i, l, frame, other);
    LinkedReach(f, u, v, l, t, frame, other);
    LinkedLinks(f, t, i, l, frame, other);
    LinkedLeaves(f, u, l, t, i, frame, other, m);
    hide PresentKept, NewLinks, NewLeaves, Ok, Root, Reach;
    assert Under(g, u, frame, m.tops);
  }

  lemma {:induction false} LinkedLinks(f: Forest, t: nat, i: nat, l: nat, frame: nat, other: nat)
    requires t in f.tables && i < ENTRIES && l >= 1 && !f.tables[t][i].flags.present && frame !in f.tables
    ensures PresentKept(f, Linked(f, t, i, l, frame, other)) && NewLinks(f, Linked(f, t, i, l, frame, other))
  {
  }

  lemma {:induction false} LinkedLeaves(f: Forest, u: nat, l: nat, t: nat, i: nat, frame: nat, other: nat, m: Request)
    requires Ok(f) && Root(f, u) && 2 <= l <= 4 && t in f.tables && f.level[t] == l && i < ENTRIES && frame !in f.tables
    ensures NewLeaves(f, Linked(f, t, i, l, frame, other), u, m, {})
  {
    var g := Linked(f, t, i, l, frame, other);
    forall w: nat, k: nat, a: nat | HasLeaf(g.tables, u, w, k, a) ensures HasLeaf(f.tables, u, w, k, a) {
      LinkedReachBack(f, u, l, t, i, frame, other, k, w);
      ReachLevel(f.tables, f.level, u, k, w);
    }
  }

  lemma {:induction false} LinkedTakenHere(f: Forest, u: nat, l: nat, t: nat, frame: nat, other: nat, w: nat)
    requires Ok(f) && Root(f, u) && 3 <= l <= 4 && Reach(f.tables, u, l, w) == At(t)
    requires t in f.tables && f.level[t] == l && !f.tables[t][Idx(w, l)].flags.present && frame !in f.tables
    ensures Taken(Linked(f, t, Idx(w, l), l, frame, other).tables, u, 4, w) == Taken(f.tables, u, 4, w)
  {
    var g := Linked(f, t, Idx(w, l), l, frame, other);
    LinkedOk(f, t, Idx(w, l), l, frame, other);
    LinkedReach(f, u, w, l, t, frame, other);
    TakenFromReach(g.tables, g.level, u, l - 1, w);
    TakenFromReach(f.tables, f.level, u, l, w);
    hide Ok, Root, Reach, Idx;
  }

  lemma {:induction false} LinkedTaken(f: Forest, u: nat, v: nat, l: nat, t: nat, frame: nat, other: nat, w: nat)
    requires Ok(f) && Root(f, u) && 2 <= l <= 4 && Reach(f.tables, u, l, v) == At(t) && v < VIRT_END && w < VIRT_END
    requires t in f.tables && f.level[t] == l && !f.tables[t][Idx(v, l)].flags.present && frame !in f.tables
    requires l == 2 ==> !SameSlot(v, w, 2)
    ensures Taken(Linked(f, t, Idx(v, l), l, frame, other).tables, u, 4, w) == Taken(f.tables, u, 4, w)
  {
    var i := Idx(v, l);
    var g := Linked(f, t, i, l, frame, other);
    if l == 2 { MeetsIff(f.tables, f.level, u, w, u, v, 2, t); }
    if Meets(f.tables, u, w, t, l, i) {
      LinkedTakenHere(f, u, l, t, frame, other, w);
    } else {
      PutElsewhere(f.tables, g.tables, f.level, t, l, i, Pte(frame, Flags(true, false, other)), u, w);
    }
  }

  lemma {:induction false} LinkedTop(f: Forest, u: nat, v: nat, l: nat, t: nat, frame: nat, other: nat, tops: Tops)
    requires Ok(f) && Root(f, u) && 2 <= l <= 4 && Reach(f.tables, u, l, v) == At(t)
    requires t in f.tables && f.level[t] == l && !f.tables[t][Idx(v, l)].flags.present && frame !in f.tables
    requires tops.Has(Idx(v, 4))
    ensures TopKept(f, Linked(f, t, Idx(v, l), l, frame, other), u, tops)
  {
  }

  lemma {:induction false} LinkedTranslate(f: Forest, t: nat, i: nat, l: nat, frame: nat, other: nat, r: nat, w: nat)
    requires Ok(f) && t in f.tables && f.level[t] == l && 2 <= l <= 4 && i < ENTRIES
    requires !f.tables[t][i].flags.present && frame !in f.tables && Root(f, r)
    ensures Translate(Linked(f, t, i, l, frame, other).tables, r, w) == Translate(f.tables, r, w)
  {
    var g := Linked(f, t, i, l, frame, other);
    var e := Pte(frame, Flags(true, false, other));
    if Meets(f.tables, r, w, t, l, i) {
      WalkFromReach(f.tables, f.level, r, l, w);
      assert Reach(f.tables, r, 4, w) == At(r);
      PutHere(f.tables, g.tables, f.level, t, l, e, r, w, 4);
      assert Walk(g.tables, frame, l - 1, w).Unmapped?;
    } else {
      PutElsewhere(f.tables, g.tables, f.level, t, l, i, e, r, w);
    }
  }

  /** A leaf put into an absent entry of the level-`l` table on the path of `v`. */
  function Leafed(f: Forest, t: nat, i: nat, e: Pte): Forest
    requires t in f.tables && i < ENTRIES
  {
    Forest(Put(f.tables, t, i, e), f.level)
  }

  lemma {:induction false} LeafedOk(f: Forest, t: nat, i: nat, l: nat, e: Pte)
    requires Ok(f) && t in f.tables && f.level[t] == l && 1 <= l <= 3 && i < ENTRIES && (l == 1 || e.flags.large)
    ensures Ok(Leafed(f, t, i, e))
  {
    var g := Leafed(f, t, i, e);
    forall x, j | x in g.tables && 0 <= j < ENTRIES && g.level[x] > 1 && IsLink(g.tables[x][j])
      ensures IsLink(f.tables[x][j]) && g.tables[x][j] == f.tables[x][j]
    {
    }
    assert Layered(g.tables, g.level);
  }

  ghost function SlotPages(v: nat, l: nat): set<nat>
    requires 1 <= l <= 2
  {
    if l == 1 then PageSet(v / 0x1000, 1) else PageSet(v / 0x20_0000 * 512, 512)
  }

  lemma {:induction false} SlotPagesMean(v: nat, w: nat, l: nat)
    requires 1 <= l <= 2
    ensures w / 0x1000 in SlotPages(v, l) <==> SameSlot(v, w, l)
  {
  }

  lemma {:induction false} LeafedUpdates(f: Forest, u: nat, v: nat, l: nat, t: nat, e: Pte, m: Request)
    requires Ok(f) && Root(f, u) && 1 <= l <= 2 && v < VIRT_END && Reach(f.tables, u, l, v) == At(t)
    requires t in f.tables && f.level[t] == l && !f.tables[t][Idx(v, l)].flags.present
    requires e.flags.present == m.present && (l == 1 || e.flags.large) && v % Span(l) == 0
    requires e.addr == m.Target(v) && e.addr % Span(l) == 0 && e.flags.other == m.other
    ensures Updates(f, Leafed(f, t, Idx(v, l), e), u, m, SlotPages(v, l))
  {
    var i, pages := Idx(v, l), SlotPages(v, l);
    var g := Leafed(f, t, i, e);
    LeafedOk(f, t, i, l, e);
    forall r: nat, w: nat | Root(f, r) && w < VIRT_END ensures UpdatedAt(f, g, u, m, pages, r, w) {
      if m.present { LeafedTranslate(f, u, v, l, t, e, r, w); } else { LeafedAbsent(f, l, t, i, e, r, w); }
      SlotPagesMean(v, w, l);
      if SameSlot(v, w, l) { TargetInSlot(m, v, w, l); }
    }
    forall w: nat | w < VIRT_END ensures WasFree(f, u, pages, w) {
      LeafedWasFree(f, u, v, l, t, w);
    }
    SlotPagesFit(v, l);
    LeafedTop(f, u, l, t, i, e, m.tops);
    LeafedGrows(f, u, v, l, t, e, m);
  }

  /** Inside the slot of a leaf targets do not wrap around. */
  lemma {:induction false} TargetInSlot(m: Request, v: nat, w: nat, l: nat)
    requires 1 <= l <= 2 && SameSlot(v, w, l) && v % Span(l) == 0 && m.Target(v) % Span(l) == 0
    ensures w >= v && m.Target(w) == m.Target(v) + (w - v)
  {
    SlotOffset(v, w, l);
    TargetStep(m.virt, m.phys, v, w - v);
    hide TargetOf;
    TargetRoom(m.Target(v), Span(l), w - v);
  }

  lemma {:induction false} TargetRoom(a: nat, s: nat, d: nat)
    requires (s == 0x1000 || s == 0x20_0000) && a < WORD && a % s == 0 && d < s
    ensures (a + d) % WORD == a + d
  {
    if s == 0x1000 { assert a + 0x1000 <= WORD; } else { assert a + 0x20_0000 <= WORD; }
  }

  /** A leaf changes no path. */
  lemma {:induction false} LeafedReach(f: Forest, u: nat, l: nat, t: nat, i: nat, e: Pte, m: nat, w: nat)
    requires Layered(f.tables, f.level) && Root(f, u) && t in f.tables && f.level[t] == l && 1 <= l <= 2 && i < ENTRIES
    requires (l == 1 || e.flags.large) && !f.tables[t][i].flags.present && 1 <= m <= 4
    ensures Reach(Leafed(f, t, i, e).tables, u, m, w) == Reach(f.tables, u, m, w)
    decreases 4 - m
  {
    if m < 4 {
      LeafedReach(f, u, l, t, i, e, m + 1, w);
      ReachLevel(f.tables, f.level, u, m + 1, w);
      hide Layered, Root, Idx;
      var up := Reach(f.tables, u, m + 1, w);
      assert up.At? && up.table == t ==> m + 1 == l;
    }
  }

  lemma {:induction false} LeafedGrows(f: Forest, u: nat, v: nat, l: nat, t: nat, e: Pte, m: Request)
    requires Ok(f) && Root(f, u) && 1 <= l <= 2 && v < VIRT_END && Reach(f.tables, u, l, v) == At(t)
    requires t in f.tables && f.level[t] == l && !f.tables[t][Idx(v, l)].flags.present
    requires (l == 1 || e.flags.large) && v % Span(l) == 0 && e.addr == m.Target(v) && e.addr % Span(l) == 0
    requires e.flags.present == m.present
    ensures Grows(f, Leafed(f, t, Idx(v, l), e), u, m, SlotPages(v, l))
  {
    var g := Leafed(f, t, Idx(v, l), e);
    LeafedLinks(f, t, Idx(v, l), l, e);
    hide PresentKept, NewLinks, Ok, Root, Reach, HasLeaf, Idx, SlotPages;
    forall w: nat, k: nat, a: nat | HasLeaf(g.tables, u, w, k, a)
      ensures HasLeaf(f.tables, u, w, k, a) || (k == l && w == v && a == e.addr && e.flags.present)
    {
      LeafedLeaf(f, u, v, l, t, e, w, k, a);
    }
  }

  lemma {:induction false} LeafedLinks(f: Forest, t: nat, i: nat, l: nat, e: Pte)
    requires t in f.tables && t in f.level && f.level[t] == l && (l == 1 || e.flags.large) && i < ENTRIES
    requires !f.tables[t][i].flags.present
    ensures PresentKept(f, Leafed(f, t, i, e)) && NewLinks(f, Leafed(f, t, i, e))
  {
  }

  lemma {:induction false} LeafedLeaf(f: Forest, u: nat, v: nat, l: nat, t: nat, e: Pte, w: nat, k: nat, a: nat)
    requires Ok(f) && Root(f, u) && 1 <= l <= 2 && v < VIRT_END && Reach(f.tables, u, l, v) == At(t)
    requires t in f.tables && f.level[t] == l && !f.tables[t][Idx(v, l)].flags.present
    requires (l == 1 || e.flags.large) && v % Span(l) == 0 && HasLeaf(Leafed(f, t, Idx(v, l), e).tables, u, w, k, a)
    ensures HasLeaf(f.tables, u, w, k, a) || (k == l && w == v && a == e.addr && e.flags.present)
  {
    LeafedReach(f, u, l, t, Idx(v, l), e, k, w);
    ReachLevel(f.tables, f.level, u, k, w);
    MeetsIff(f.tables, f.level, u, w, u, v, l, t);
    if SameSlot(v, w, l) { SlotOffset(v, w, l); }
    hide Ok, Root, Reach, Idx;
  }

  lemma {:induction false} LeafedTaken(f: Forest, u: nat, v: nat, l: nat, t: nat, e: Pte, w: nat)
    requires Ok(f) && Root(f, u) && 1 <= l <= 2 && v < VIRT_END && w < VIRT_END && Reach(f.tables, u, l, v) == At(t)
    requires t in f.tables && f.level[t] == l && (l == 2 ==> !SameSlot(v, w, 2))
    ensures Taken(Leafed(f, t, Idx(v, l), e).tables, u, 4, w) == Taken(f.tables, u, 4, w)
  {
    var g := Leafed(f, t, Idx(v, l), e);
    if l == 1 {
      TakenAbove(f.tables, g.tables, f.level, u, 4, w);
    } else {
      MeetsIff(f.tables, f.level, u, w, u, v, 2, t);
      PutElsewhere(f.tables, g.tables, f.level, t, l, Idx(v, l), e, u, w);
    }
  }

  lemma {:induction false} LeafedTop(f: Forest, u: nat, l: nat, t: nat, i: nat, e: Pte, tops: Tops)
    requires Ok(f) && Root(f, u) && t in f.tables && f.level[t] == l && 1 <= l <= 3 && i < ENTRIES
    ensures TopKept(f, Leafed(f, t, i, e), u, tops)
  {
  }

  lemma {:induction false} SlotPagesFit(v: nat, l: nat)
    requires 1 <= l <= 2 && v < VIRT_END
    ensures forall q :: q in SlotPages(v, l) ==> q * 0x1000 < VIRT_END
  {
  }

  lemma {:induction false} LeafedWasFree(f: Forest, u: nat, v: nat, l: nat, t: nat, w: nat)
    requires Ok(f) && Root(f, u) && 1 <= l <= 2 && v < VIRT_END && w < VIRT_END && Reach(f.tables, u, l, v) == At(t)
    requires t in f.tables && !f.tables[t][Idx(v, l)].flags.present
    ensures WasFree(f, u, SlotPages(v, l), w)
  {
    SlotPagesMean(v, w, l);
    if SameSlot(v, w, l) {
      MeetsIff(f.tables, f.level, u, w, u, v, l, t);
      WalkFromReach(f.tables, f.level, u, l, w);
    }
  }

  /** An entry that is not present translates nothing, before and after. */
  lemma {:induction false} LeafedAbsent(f: Forest, l: nat, t: nat, i: nat, e: Pte, r: nat, w: nat)
    requires Ok(f) && Root(f, r) && t in f.tables && f.level[t] == l && 1 <= l <= 4 && i < ENTRIES
    requires !f.tables[t][i].flags.present && !e.flags.present
    ensures Translate(Leafed(f, t, i, e).tables, r, w) == Translate(f.tables, r, w)
  {
    var g := Leafed(f, t, i, e);
    if Meets(f.tables, r, w, t, l, i) {
      assert Reach(f.tables, r, 4, w) == At(r);
      WalkFromReach(f.tables, f.level, r, l, w);
      PutHere(f.tables, g.tables, f.level, t, l, e, r, w, 4);
    } else {
      PutElsewhere(f.tables, g.tables, f.level, t, l, i, e, r, w);
    }
  }

  lemma {:induction false} LeafedTranslate(f: Forest, u: nat, v: nat, l: nat, t: nat, e: Pte, r: nat, w: nat)
    requires Ok(f) && Root(f, u) && Root(f, r) && 1 <= l <= 2 && v < VIRT_END && w < VIRT_END
    requires Reach(f.tables, u, l, v) == At(t)
    requires t in f.tables && f.level[t] == l && e.flags.present && (l == 1 || e.flags.large) && v % Span(l) == 0
    ensures var g := Leafed(f, t, Idx(v, l), e);
      if SameSlot(v, w, l) && Shares(f.tables, r, u, Idx(w, 4))
      then w >= v && Translate(g.tables, r, w) == Mapped(e.addr + (w - v), e.flags.other)
      else Translate(g.tables, r, w) == Translate(f.tables, r, w)
  {
    var i := Idx(v, l);
    var g := Leafed(f, t, i, e);
    MeetsIff(f.tables, f.level, r, w, u, v, l, t);
    if SameSlot(v, w, l) {
      SlotUp(v, w, l, 4);
      SlotSplits(v, w, 4);
      SlotOffset(v, w, l);
    }
    if Meets(f.tables, r, w, t, l, i) {
      assert Reach(f.tables, r, 4, w) == At(r);
      PutHere(f.tables, g.tables, f.level, t, l, e, r, w, 4);
    } else {
      PutElsewhere(f.tables, g.tables, f.level, t, l, i, e, r, w);
    }
  }

  lemma {:induction false} SlotOffset(v: nat, w: nat, l: nat)
    requires 1 <= l <= 2 && SameSlot(v, w, l) && v % Span(l) == 0
    ensures w >= v && w % Span(l) == w - v
  {
  }

  // ----- Where the path goes after a step

  /** After linking a table in, the walk of `v` goes on to it. */
  lemma {:induction false} LinkedReach(f: Forest, u: nat, v: nat, l: nat, t: nat, frame: nat, other: nat)
    requires Ok(f) && Root(f, u) && 2 <= l <= 4 && Reach(f.tables, u, l, v) == At(t)
    requires t in f.tables && f.level[t] == l && frame !in f.tables
    ensures Reach(Linked(f, t, Idx(v, l), l, frame, other).tables, u, l - 1, v) == At(frame)
  {
    LinkedReachDown(f, u, v, l, t, frame, other, l);
  }

  lemma {:induction false} LinkedReachDown(f: Forest, u: nat, v: nat, l: nat, t: nat, frame: nat, other: nat, m: nat)
    requires Ok(f) && Root(f, u) && 2 <= l <= m <= 4 && Reach(f.tables, u, l, v) == At(t)
    requires t in f.tables && f.level[t] == l && frame !in f.tables
    ensures var g := Linked(f, t, Idx(v, l), l, frame, other); Reach(g.tables, u, m, v) == Reach(f.tables, u, m, v)
    decreases 4 - m
  {
    if m < 4 {
      LinkedReachDown(f, u, v, l, t, frame, other, m + 1);
      ReachBelow(f.tables, u, m + 1, l, v);
      ReachLevel(f.tables, f.level, u, m + 1, v);
    }
  }

  // ----- Isolation of address spaces

  ghost predicate LowerHalf(pages: set<nat>) {
    forall q :: q in pages ==> q * 0x1000 < VIRT_END / 2
  }

  lemma {:induction false} LowerHalfSlot(w: nat)
    requires w < VIRT_END
    ensures w < VIRT_END / 2 <==> Idx(w, 4) < KERNEL_HALF
  {
  }

  /** Mapping into the lower half of one root changes no translation of any other root. */
  lemma {:induction false} Isolation(f: Forest, f': Forest, u: nat, m: Request, pages: set<nat>, r: nat, w: nat)
    requires Updates(f, f', u, m, pages) && LowerHalf(pages)
    requires Root(f, r) && r != u && w < VIRT_END
    ensures Translate(f'.tables, r, w) == Translate(f.tables, r, w)
  {
    hide Grows, TopKept, Translate, Ok;
    assert UpdatedAt(f, f', u, m, pages, r, w);
    if w / 0x1000 in pages {
      assert w / 0x1000 * 0x1000 < VIRT_END / 2;
      LowerHalfSlot(w);
    }
  }

  /** Root `r` has the same kernel half as the kernel root `k`. */
  ghost predicate Agrees(f: Forest, k: nat, r: nat) {
    k in f.tables && r in f.tables && f.tables[r][KERNEL_HALF..] == f.tables[k][KERNEL_HALF..]
  }

  /** Roots that agree translate every kernel-half address alike. */
  lemma {:induction false} AgreeingRootsTranslateAlike(f: Forest, k: nat, r: nat, w: nat)
    requires Agrees(f, k, r) && VIRT_END / 2 <= w < VIRT_END
    ensures Translate(f.tables, r, w) == Translate(f.tables, k, w)
  {
    LowerHalfSlot(w);
    var i := Idx(w, 4);
    assert f.tables[r][i] == f.tables[r][KERNEL_HALF..][i - KERNEL_HALF];
    assert f.tables[k][i] == f.tables[k][KERNEL_HALF..][i - KERNEL_HALF];
  }

  /** The mapping gives root `u` no new kernel-half top-level entry. */
  ghost predicate AddsNoKernelSlot(f: Forest, f': Forest, u: nat) {
    u in f.tables && u in f'.tables && forall i :: KERNEL_HALF <= i < ENTRIES ==> f'.tables[u][i] == f.tables[u][i]
  }

  /** A mapping whose slots are all in the lower half adds no kernel-half entry. */
  lemma {:induction false} LowerHalfAddsNoKernelSlot(f: Forest, f': Forest, u: nat, m: Request, pages: set<nat>)
    requires Updates(f, f', u, m, pages) && m.tops.hi < KERNEL_HALF
    ensures AddsNoKernelSlot(f, f', u)
  {
  }

  /** Agreement with the kernel survives exactly the mappings that add no kernel-half slot to either side. */
  lemma {:induction false} AgreementKept(f: Forest, f': Forest, u: nat, m: Request, pages: set<nat>, k: nat, r: nat)
    requires Updates(f, f', u, m, pages) && Root(f, k) && Root(f, r) && Agrees(f, k, r)
    ensures r == k || (u != k && u != r) ==> Agrees(f', k, r)
    ensures r != k && (u == k || u == r) ==> (Agrees(f', k, r) <==> AddsNoKernelSlot(f, f', u))
  {
    var o := if u == k then r else k;
    forall i | KERNEL_HALF <= i < ENTRIES
      ensures f.tables[r][i] == f.tables[k][i]
      ensures f.tables[r][KERNEL_HALF..][i - KERNEL_HALF] == f.tables[r][i]
      ensures f.tables[k][KERNEL_HALF..][i - KERNEL_HALF] == f.tables[k][i]
    {
      assert f.tables[r][KERNEL_HALF..][i - KERNEL_HALF] == f.tables[k][KERNEL_HALF..][i - KERNEL_HALF];
    }
    AgreesPointwise(f', k, r);
  }

  lemma {:induction false} AgreesPointwise(f: Forest, k: nat, r: nat)
    requires k in f.tables && r in f.tables
    ensures Agrees(f, k, r) <==> forall i :: KERNEL_HALF <= i < ENTRIES ==> f.tables[r][i] == f.tables[k][i]
  {
    forall i | KERNEL_HALF <= i < ENTRIES
      ensures f.tables[r][KERNEL_HALF..][i - KERNEL_HALF] == f.tables[r][i]
      ensures f.tables[k][KERNEL_HALF..][i - KERNEL_HALF] == f.tables[k][i]
    {
    }
    if forall i :: KERNEL_HALF <= i < ENTRIES ==> f.tables[r][i] == f.tables[k][i] {
      assert f.tables[r][KERNEL_HALF..] == f.tables[k][KERNEL_HALF..];
    }
    if Agrees(f, k, r) {
      forall i | KERNEL_HALF <= i < ENTRIES ensures f.tables[r][i] == f.tables[k][i] {
        assert f.tables[r][KERNEL_HALF..][i - KERNEL_HALF] == f.tables[k][KERNEL_HALF..][i - KERNEL_HALF];
      }
    }
  }
}
