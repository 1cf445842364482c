/** A forest of 512-entry page tables in physical memory, and the translation the hardware walk gives. */
module PageTables {

  const ENTRIES: nat := 512
  const KERNEL_HALF: nat := 256
  /** Virtual addresses are taken by the 48 bits the walk looks at. */
  const VIRT_END: nat := 0x1_0000_0000_0000

  /** Present bit, page-size bit, and all other flag bits of an entry. */
  datatype Flags = Flags(present: bool, large: bool, other: nat)

  /** An entry: the physical address in it (a table or a page) and its flags. */
  datatype Pte = Pte(addr: nat, flags: Flags)

  type Table = t: seq<Pte> | |t| == ENTRIES witness seq(ENTRIES, _ => Pte(0, Flags(false, false, 0)))

  const ZERO: Pte := Pte(0, Flags(false, false, 0))

  /** A freshly cleared table. */
  function ZeroTable(): (t: Table)
    ensures forall i :: 0 <= i < ENTRIES ==> t[i] == ZERO
  {
    seq(ENTRIES, _ => ZERO)
  }

  /** Tables by physical address, and the level (1 = page table .. 4 = PML4) each one is used at. */
  type Tables = map<nat, Table>
  type Levels = map<nat, nat>

  /** Bytes one entry of a level-`l` table stands for. */
  function Span(l: nat): (s: nat)
    requires 1 <= l <= 5
    ensures s > 0
  {
    if l == 1 then 0x1000 else if l == 2 then 0x20_0000 else if l == 3 then 0x4000_0000
    else if l == 4 then 0x80_0000_0000 else 0x1_0000_0000_0000
  }

  function Idx(v: nat, l: nat): (i: nat)
    requires 1 <= l <= 4
    ensures i < ENTRIES
  {
    (v / Span(l)) % ENTRIES
  }

  predicate SameSlot(v: nat, w: nat, l: nat)
    requires 1 <= l <= 5
  {
    v / Span(l) == w / Span(l)
  }

  lemma {:induction false} SlotSplits(v: nat, w: nat, l: nat)
    requires 1 <= l <= 4
    ensures SameSlot(v, w, l) <==> SameSlot(v, w, l + 1) && Idx(v, l) == Idx(w, l)
  {
    IndexSplits(v, l);
    IndexSplits(w, l);
  }

  lemma {:induction false} IndexSplits(v: nat, l: nat)
    requires 1 <= l <= 4
    ensures v / Span(l) == (v / Span(l + 1)) * 512 + Idx(v, l)
  {
    if l == 1 {} else if l == 2 {} else if l == 3 {} else {}
  }

  lemma {:induction false} SlotTop(v: nat, w: nat)
    requires v < VIRT_END && w < VIRT_END
    ensures SameSlot(v, w, 5)
  {
  }

  lemma {:induction false} SlotUp(v: nat, w: nat, l: nat, m: nat)
    requires 1 <= l <= m <= 5 && SameSlot(v, w, l)
    ensures SameSlot(v, w, m)
    decreases m - l
  {
    if l < m {
      SlotSplits(v, w, l);
      SlotUp(v, w, l + 1, m);
    }
  }

  // ----- The walk

  datatype Translation = Unmapped | Mapped(phys: nat, other: nat)

  /** What the walk of `v` from table `t` at level `l` finds. */
  function Walk(tables: Tables, t: nat, l: nat, v: nat): Translation
    requires 1 <= l <= 4
    decreases l
  {
    if t !in tables then Unmapped
    else
      var e := tables[t][Idx(v, l)];
      if !e.flags.present then Unmapped
      else if l == 1 || e.flags.large then Mapped(e.addr + v % Span(l), e.flags.other)
      else Walk(tables, e.addr, l - 1, v)
  }

  function Translate(tables: Tables, root: nat, v: nat): Translation {
    Walk(tables, root, 4, v)
  }

  datatype Spot = NoTable | At(table: nat)

  predicate IsLink(e: Pte) {
    e.flags.present && !e.flags.large
  }

  /** The level-`l` table the walk of `v` from `root` comes to, if it gets that far. */
  function Reach(tables: Tables, root: nat, l: nat, v: nat): Spot
    requires 1 <= l <= 4
    decreases 4 - l
  {
    if l == 4 then At(root)
    else
      var up := Reach(tables, root, l + 1, v);
      if up.NoTable? || up.table !in tables then NoTable
      else
        var e := tables[up.table][Idx(v, l + 1)];
        if IsLink(e) then At(e.addr) else NoTable
  }

  /** The 2 MiB slot of `v` is taken, by a page table or by a larger page. */
  predicate Taken(tables: Tables, t: nat, l: nat, v: nat)
    requires 2 <= l <= 4
    decreases l
  {
    t in tables &&
    var e := tables[t][Idx(v, l)];
    e.flags.present && (l == 2 || e.flags.large || Taken(tables, e.addr, l - 1, v))
  }

  /**
   The walk of `v` from `root` ends in an entry of a level-`l` table that points to the page(s) at `a`; `v` is its
   first address.
   */
  ghost predicate HasLeaf(tables: Tables, root: nat, v: nat, l: nat, a: nat) {
    && 1 <= l <= 3 && v % Span(l) == 0 && v < VIRT_END
    && Reach(tables, root, l, v).At? && Reach(tables, root, l, v).table in tables
    && var e := tables[Reach(tables, root, l, v).table][Idx(v, l)];
      e.flags.present && (l == 1 || e.flags.large) && e.addr == a
  }

  // ----- Well-formed forests

  /** Links go one level down to existing tables; a PML4 entry is never large. */
  ghost predicate Layered(tables: Tables, level: Levels) {
    && level.Keys == tables.Keys
    && (forall t :: t in tables ==> 1 <= level[t] <= 4)
    && (forall t, i :: t in tables && 0 <= i < ENTRIES && level[t] > 1 && IsLink(tables[t][i]) ==>
          tables[t][i].addr in tables && level[tables[t][i].addr] == level[t] - 1)
    && (forall t, i :: t in tables && 0 <= i < ENTRIES && level[t] == 4 ==> !tables[t][i].flags.large)
  }

  /** Two links share a target only as the same kernel-half slot of two PML4s. */
  ghost predicate Unshared(tables: Tables, level: Levels)
    requires Layered(tables, level)
  {
    forall t, i, u, j ::
      && t in tables && u in tables && 0 <= i < ENTRIES && 0 <= j < ENTRIES && level[t] > 1 && level[u] > 1
      && IsLink(tables[t][i]) && IsLink(tables[u][j]) && tables[t][i].addr == tables[u][j].addr
      ==> i == j && (t == u || (level[t] == 4 && level[u] == 4 && i >= KERNEL_HALF))
  }

  ghost predicate WellFormed(tables: Tables, level: Levels) {
    Layered(tables, level) && Unshared(tables, level)
  }

  ghost predicate IsRoot(tables: Tables, level: Levels, r: nat) {
    r in tables && r in level && level[r] == 4
  }

  /** Roots `r` and `u` use the same table below top-level slot `i`. */
  predicate Shares(tables: Tables, r: nat, u: nat, i: nat)
    requires r in tables && u in tables && i < ENTRIES
  {
    r == u || (i >= KERNEL_HALF && IsLink(tables[r][i]) && IsLink(tables[u][i])
               && tables[r][i].addr == tables[u][i].addr)
  }

  lemma {:induction false} ReachLevel(tables: Tables, level: Levels, root: nat, l: nat, v: nat)
    requires Layered(tables, level) && IsRoot(tables, level, root) && 1 <= l <= 4
    ensures var r := Reach(tables, root, l, v); r.At? ==> r.table in tables && level[r.table] == l
    decreases 4 - l
  {
    if l < 4 { ReachLevel(tables, level, root, l + 1, v); }
  }

  /** The rest of the walk is the walk from the table it has come to. */
  lemma {:induction false} WalkFromReach(tables: Tables, level: Levels, root: nat, l: nat, v: nat)
    requires Layered(tables, level) && IsRoot(tables, level, root) && 1 <= l <= 4
    requires Reach(tables, root, l, v).At?
    ensures Translate(tables, root, v) == Walk(tables, Reach(tables, root, l, v).table, l, v)
    decreases 4 - l
  {
    if l < 4 {
      ReachLevel(tables, level, root, l + 1, v);
      WalkFromReach(tables, level, root, l + 1, v);
    }
  }

  lemma {:induction false} TakenFromReach(tables: Tables, level: Levels, root: nat, l: nat, v: nat)
    requires Layered(tables, level) && IsRoot(tables, level, root) && 2 <= l <= 4
    requires Reach(tables, root, l, v).At?
    ensures Taken(tables, root, 4, v) == Taken(tables, Reach(tables, root, l, v).table, l, v)
    decreases 4 - l
  {
    if l < 4 {
      ReachLevel(tables, level, root, l + 1, v);
      TakenFromReach(tables, level, root, l + 1, v);
    }
  }

  /** Only addresses of one slot, from roots that share its top-level table, come to a given table. */
  lemma {:induction false} ReachUnique(tables: Tables, level: Levels, r: nat, w: nat, u: nat, v: nat, l: nat)
    requires WellFormed(tables, level) && IsRoot(tables, level, r) && IsRoot(tables, level, u)
    requires 1 <= l <= 3 && v < VIRT_END && w < VIRT_END
    requires Reach(tables, r, l, w).At? && Reach(tables, r, l, w) == Reach(tables, u, l, v)
    ensures SameSlot(v, w, l + 1) && Shares(tables, r, u, Idx(v, 4))
    decreases 4 - l
  {
    ReachLevel(tables, level, r, l + 1, w);
    ReachLevel(tables, level, u, l + 1, v);
    var p, q := Reach(tables, r, l + 1, w).table, Reach(tables, u, l + 1, v).table;
    assert tables[p][Idx(w, l + 1)].addr == tables[q][Idx(v, l + 1)].addr;
    assert Idx(w, l + 1) == Idx(v, l + 1);
    SlotSplits(v, w, l + 1);
    if l == 3 {
      SlotTop(v, w);
    } else {
      assert p == q;
      ReachUnique(tables, level, r, w, u, v, l + 1);
    }
  }

  lemma {:induction false} ReachShared(tables: Tables, r: nat, w: nat, u: nat, v: nat, l: nat)
    requires r in tables && u in tables && 1 <= l <= 3 && v < VIRT_END && w < VIRT_END
    requires SameSlot(v, w, l + 1) && Shares(tables, r, u, Idx(v, 4))
    ensures Reach(tables, r, l, w) == Reach(tables, u, l, v)
    decreases 4 - l
  {
    SlotSplits(v, w, l + 1);
    if l < 3 { ReachShared(tables, r, w, u, v, l + 1); }
  }

  // ----- Changing one entry

  function Put(tables: Tables, t: nat, i: nat, e: Pte): Tables
    requires t in tables && i < ENTRIES
  {
    tables[t := tables[t][i := e]]
  }

  /** The walk of `w` from `r` looks at entry `i` of table `t`, which is at level `l`. */
  ghost predicate Meets(tables: Tables, r: nat, w: nat, t: nat, l: nat, i: nat)
    requires 1 <= l <= 4
  {
    Reach(tables, r, l, w) == At(t) && Idx(w, l) == i
  }

  lemma {:induction false} MeetsIff(tables: Tables, level: Levels, r: nat, w: nat, u: nat, v: nat, l: nat, t: nat)
    requires WellFormed(tables, level) && IsRoot(tables, level, r) && IsRoot(tables, level, u)
    requires 1 <= l <= 3 && v < VIRT_END && w < VIRT_END && Reach(tables, u, l, v) == At(t)
    ensures Meets(tables, r, w, t, l, Idx(v, l)) <==> SameSlot(v, w, l) && Shares(tables, r, u, Idx(v, 4))
  {
    SlotSplits(v, w, l);
    if Meets(tables, r, w, t, l, Idx(v, l)) {
      ReachUnique(tables, level, r, w, u, v, l);
    }
    if SameSlot(v, w, l) && Shares(tables, r, u, Idx(v, 4)) {
      ReachShared(tables, r, w, u, v, l);
    }
  }

  /** Both forests have the same entries wherever the walk of `w` from `r` looks. */
  ghost predicate SameOnPath(tables: Tables, tables': Tables, r: nat, w: nat) {
    forall l :: 1 <= l <= 4 && Reach(tables, r, l, w).At? && Reach(tables, r, l, w).table in tables ==>
      && Reach(tables, r, l, w).table in tables'
      && tables'[Reach(tables, r, l, w).table][Idx(w, l)] == tables[Reach(tables, r, l, w).table][Idx(w, l)]
  }

  lemma {:induction false} WalkKept(tables: Tables, tables': Tables, level: Levels, r: nat, w: nat, l: nat)
    requires Layered(tables, level) && IsRoot(tables, level, r) && 1 <= l <= 4
    requires SameOnPath(tables, tables', r, w) && Reach(tables, r, l, w).At?
    ensures var t := Reach(tables, r, l, w).table; Walk(tables', t, l, w) == Walk(tables, t, l, w)
    decreases l
  {
    ReachLevel(tables, level, r, l, w);
    var t := Reach(tables, r, l, w).table;
    assert t in tables' && tables'[t][Idx(w, l)] == tables[t][Idx(w, l)];
    var e := tables[t][Idx(w, l)];
    if l > 1 && IsLink(e) {
      assert Reach(tables, r, l - 1, w) == At(e.addr);
      WalkKept(tables, tables', level, r, w, l - 1);
    }
  }

  lemma {:induction false} TranslateKept(tables: Tables, tables': Tables, level: Levels, r: nat, w: nat)
    requires Layered(tables, level) && IsRoot(tables, level, r) && SameOnPath(tables, tables', r, w)
    ensures Translate(tables', r, w) == Translate(tables, r, w)
  {
    assert Reach(tables, r, 4, w) == At(r);
    WalkKept(tables, tables', level, r, w, 4);
  }

  lemma {:induction false} TakenKept(tables: Tables, tables': Tables, level: Levels, r: nat, w: nat, l: nat)
    requires Layered(tables, level) && IsRoot(tables, level, r) && 2 <= l <= 4
    requires SameOnPath(tables, tables', r, w) && Reach(tables, r, l, w).At?
    ensures var t := Reach(tables, r, l, w).table; Taken(tables', t, l, w) == Taken(tables, t, l, w)
    decreases l
  {
    ReachLevel(tables, level, r, l, w);
    var t := Reach(tables, r, l, w).table;
    assert t in tables' && tables'[t][Idx(w, l)] == tables[t][Idx(w, l)];
    var e := tables[t][Idx(w, l)];
    if l > 2 && IsLink(e) {
      assert Reach(tables, r, l - 1, w) == At(e.addr);
      TakenKept(tables, tables', level, r, w, l - 1);
    }
  }

  /** Slots are taken or not by what is in the tables from level 2 up. */
  lemma {:induction false} TakenAbove(tables: Tables, tables': Tables, level: Levels, t: nat, l: nat, w: nat)
    requires Layered(tables, level) && 2 <= l <= 4 && t in tables && level[t] == l
    requires forall x :: x in tables && level[x] >= 2 ==> x in tables' && tables'[x] == tables[x]
    ensures Taken(tables', t, l, w) == Taken(tables, t, l, w)
    decreases l
  {
    var e := tables[t][Idx(w, l)];
    if l > 2 && IsLink(e) { TakenAbove(tables, tables', level, e.addr, l - 1, w); }
  }

  lemma {:induction false} PutOffPath(tables: Tables, tables': Tables, level: Levels, t: nat, l: nat, i: nat, e: Pte,
                                      r: nat, w: nat)
    requires Layered(tables, level) && IsRoot(tables, level, r) && t in tables && level[t] == l && 1 <= l <= 4
    requires i < ENTRIES
    requires tables'.Keys >= tables.Keys && forall x :: x in tables ==> tables'[x] == Put(tables, t, i, e)[x]
    requires !Meets(tables, r, w, t, l, i)
    ensures SameOnPath(tables, tables', r, w)
  {
    forall m | 1 <= m <= 4 && Reach(tables, r, m, w).At? && Reach(tables, r, m, w).table in tables
      ensures Reach(tables, r, m, w).table in tables'
      ensures tables'[Reach(tables, r, m, w).table][Idx(w, m)] == tables[Reach(tables, r, m, w).table][Idx(w, m)]
    {
      ReachLevel(tables, level, r, m, w);
    }
  }

  /** A walk that does not meet the changed entry is not affected. */
  lemma {:induction false} PutElsewhere(tables: Tables, tables': Tables, level: Levels, t: nat, l: nat, i: nat, e: Pte,
                                        r: nat, w: nat)
    requires Layered(tables, level) && IsRoot(tables, level, r) && t in tables && level[t] == l && 1 <= l <= 4
    requires i < ENTRIES
    requires tables'.Keys >= tables.Keys && forall x :: x in tables ==> tables'[x] == Put(tables, t, i, e)[x]
    requires !Meets(tables, r, w, t, l, i)
    ensures Translate(tables', r, w) == Translate(tables, r, w)
    ensures Taken(tables', r, 4, w) == Taken(tables, r, 4, w)
  {
    PutOffPath(tables, tables', level, t, l, i, e, r, w);
    TranslateKept(tables, tables', level, r, w);
    assert Reach(tables, r, 4, w) == At(r);
    TakenKept(tables, tables', level, r, w, 4);
  }

  /** A walk that meets the changed entry gets there as before and then sees the new entry. */
  lemma {:induction false} PutHere(tables: Tables, tables': Tables, level: Levels, t: nat, l: nat, e: Pte, r: nat,
                                   w: nat, m: nat)
    requires Layered(tables, level) && IsRoot(tables, level, r) && t in tables && level[t] == l && 1 <= l <= m <= 4
    requires tables'.Keys >= tables.Keys && forall x :: x in tables ==> tables'[x] == Put(tables, t, Idx(w, l), e)[x]
    requires Reach(tables, r, l, w) == At(t) && Reach(tables, r, m, w).At?
    ensures var s := Reach(tables, r, m, w).table; Walk(tables', s, m, w) == Walk(tables', t, l, w)
    decreases m
  {
    ReachLevel(tables, level, r, m, w);
    var s := Reach(tables, r, m, w).table;
    if m > l {
      ReachBelow(tables, r, m, l, w);
      ReachLevel(tables, level, r, m - 1, w);
      var x := tables[s][Idx(w, m)];
      assert IsLink(x) && Reach(tables, r, m - 1, w) == At(x.addr);
      assert tables'[s] == tables[s];
      PutHere(tables, tables', level, t, l, e, r, w, m - 1);
    }
  }

  /** If the walk gets down to level `l` it also passed every level above. */
  lemma {:induction false} ReachBelow(tables: Tables, root: nat, m: nat, l: nat, v: nat)
    requires 1 <= l <= m <= 4 && Reach(tables, root, l, v).At?
    ensures Reach(tables, root, m, v).At?
    ensures m > l ==> Reach(tables, root, m - 1, v).At?
    decreases m - l
  {
    if l + 1 < m { ReachBelow(tables, root, m, l + 1, v); }
  }
}
