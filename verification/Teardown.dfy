/** What tearing down an address space gives back, and what is left of the forest. */
module Teardown {
  import opened PageTables
  import opened Mapping
  import opened Arith

  /** End of the user half of the address space. */
  const HALF: nat := 0x8000_0000_0000

  /** A page or a table that is given back to the allocator. */
  datatype Item = Frame(addr: nat, large: bool) | TableAt(addr: nat)

  // ----- What the nested loops visit, and how often

  ghost function EntryItems(tables: Tables, e: Pte, l: nat): multiset<Item>
    requires 1 <= l <= 4
    decreases l, 0
  {
    if !e.flags.present then multiset{}
    else if l == 1 then multiset{Frame(e.addr, false)}
    else if l == 2 && e.flags.large then multiset{Frame(e.addr, true)}
    else TableItems(tables, e.addr, l - 1)
  }

  ghost function TableItems(tables: Tables, t: nat, l: nat): multiset<Item>
    requires 1 <= l <= 3
    decreases l, ENTRIES + 2
  {
    if t in tables then Upto(tables, t, l, ENTRIES) + multiset{TableAt(t)} else multiset{}
  }

  ghost function Upto(tables: Tables, t: nat, l: nat, n: nat): multiset<Item>
    requires 1 <= l <= 4 && t in tables && n <= ENTRIES
    decreases l, n + 1
  {
    if n == 0 then multiset{} else Upto(tables, t, l, n - 1) + EntryItems(tables, tables[t][n - 1], l)
  }

  /** Everything in the user half of the space at `u`, and its PML4. */
  ghost function SpaceItems(tables: Tables, u: nat): multiset<Item>
    requires u in tables
  {
    Upto(tables, u, 4, KERNEL_HALF) + multiset{TableAt(u)}
  }

  lemma {:induction false} UptoHas(tables: Tables, t: nat, l: nat, n: nat, x: Item)
    requires 1 <= l <= 4 && t in tables && n <= ENTRIES
    ensures x in Upto(tables, t, l, n) <==> exists i :: 0 <= i < n && x in EntryItems(tables, tables[t][i], l)
    decreases n
  {
    hide EntryItems, TableItems;
    if n > 0 { UptoHas(tables, t, l, n - 1, x); }
  }

  lemma {:induction false} EntryInUpto(tables: Tables, t: nat, l: nat, n: nat, i: nat)
    requires 1 <= l <= 4 && t in tables && i < n <= ENTRIES
    ensures forall x :: x in EntryItems(tables, tables[t][i], l) ==> x in Upto(tables, t, l, n)
  {
    hide EntryItems;
    forall x | x in EntryItems(tables, tables[t][i], l) ensures x in Upto(tables, t, l, n) {
      UptoHas(tables, t, l, n, x);
    }
  }

  // ----- The same said without loops

  /** Table `x` is on the path of a user-half address of `u`. */
  ghost predicate LowTable(tables: Tables, u: nat, x: nat) {
    exists w: nat, k: nat :: w < HALF && 1 <= k <= 3 && Reach(tables, u, k, w) == At(x)
  }

  /** `a` is where a user-half entry of `u` points to. */
  ghost predicate LowFrame(tables: Tables, u: nat, a: nat, large: bool) {
    exists w: nat, k: nat :: w < HALF && HasLeaf(tables, u, w, k, a) && large == (k == 2)
  }

  ghost predicate ItemOf(tables: Tables, u: nat, x: Item) {
    match x
    case Frame(a, large) => LowFrame(tables, u, a, large)
    case TableAt(t) => t == u || LowTable(tables, u, t)
  }

  /** No 1 GiB pages in the user half; the code makes none, and its teardown would take one for a table. */
  ghost predicate NoHuge(tables: Tables, u: nat) {
    forall w: nat, a: nat :: w < HALF ==> !HasLeaf(tables, u, w, 3, a)
  }

  /** Entry `i` of a level-`l` table that `v`, the first address of the table, leads to. */
  function SlotAddr(v: nat, l: nat, i: nat): nat
    requires 1 <= l <= 4
  {
    v + i * Span(l)
  }

  /** `v` is the first address of a slot of its level. */
  predicate Starts(v: nat, l: nat)
    requires 1 <= l <= 5
  {
    v % Span(l) == 0
  }

  lemma {:induction false} SlotAddrIs(v: nat, l: nat, i: nat)
    requires 1 <= l <= 4 && v % Span(l + 1) == 0 && i < ENTRIES && v < VIRT_END
    ensures var w := SlotAddr(v, l, i); SameSlot(v, w, l + 1) && Idx(w, l) == i && w % Span(l) == 0 && w < VIRT_END
  {
    var s := Span(l);
    assert Span(l + 1) == 512 * s;
    SlotOf(v / (512 * s), s, i);
    assert v == v / (512 * s) * (512 * s);
    SlotFits(v, l, i);
  }

  lemma {:induction false} SlotOf(q: nat, s: nat, i: nat)
    requires s > 0 && i < 512
    ensures var w := q * (512 * s) + i * s; w / s == q * 512 + i && w % s == 0 && w / (512 * s) == q && w / s % 512 == i
    ensures q * (512 * s) / (512 * s) == q
  {
    var w := q * (512 * s) + i * s;
    MulStep(i, 512, s);
    DivUnique(w, s, q * 512 + i, 0);
    DivUnique(w, 512 * s, q, i * s);
    DivUnique(q * (512 * s), 512 * s, q, 0);
  }

  lemma {:induction false} SlotFits(v: nat, l: nat, i: nat)
    requires 1 <= l <= 4 && v % Span(l + 1) == 0 && i < ENTRIES && v < VIRT_END
    ensures SlotAddr(v, l, i) < VIRT_END
  {
    if l == 1 {} else if l == 2 {} else if l == 3 {} else {}
  }

  lemma {:induction false} SlotLow(v: nat, w: nat, l: nat)
    requires 1 <= l <= 4 && SameSlot(v, w, l) && v < HALF
    ensures w < HALF
  {
    SlotUp(v, w, l, 4);
  }

  lemma {:induction false} ReachSame(tables: Tables, u: nat, v: nat, w: nat, l: nat)
    requires u in tables && 1 <= l <= 3 && v < VIRT_END && w < VIRT_END && SameSlot(v, w, l + 1)
    ensures Reach(tables, u, l, w) == Reach(tables, u, l, v)
  {
    ReachShared(tables, u, w, u, v, l);
  }

  /** Entry `i` below `v`: what kind of thing it is, in terms of addresses. */
  lemma {:induction false} EntryMeans(f: Forest, u: nat, v: nat, l: nat, t: nat, i: nat)
    requires Layered(f.tables, f.level) && Root(f, u) && 1 <= l <= 3 && Reach(f.tables, u, l, v) == At(t)
    requires t in f.tables
    requires Starts(v, l + 1) && v < HALF && i < ENTRIES && NoHuge(f.tables, u)
    ensures var w, e := SlotAddr(v, l, i), f.tables[t][i];
      && w < HALF && SameSlot(v, w, l + 1)
      && (e.flags.present && (l == 1 || e.flags.large) ==> l <= 2 && HasLeaf(f.tables, u, w, l, e.addr))
      && (e.flags.present && l > 1 && !e.flags.large ==> Reach(f.tables, u, l - 1, w) == At(e.addr) && Starts(w, l))
  {
    SlotAddrIs(v, l, i);
    var w := SlotAddr(v, l, i);
    hide SlotAddr, Idx;
    SlotLow(v, w, l + 1);
    ReachSame(f.tables, u, v, w, l);
    var e := f.tables[t][i];
    assert e.flags.present && (l == 1 || e.flags.large) ==> HasLeaf(f.tables, u, w, l, e.addr);
  }

  /** Whatever is visited below a user-half table belongs to the user half of `u`. */
  lemma {:induction false} VisitedIsOwned(f: Forest, u: nat, v: nat, l: nat, t: nat, x: Item)
    requires Layered(f.tables, f.level) && Root(f, u) && 1 <= l <= 3 && Reach(f.tables, u, l, v) == At(t)
    requires Starts(v, l + 1) && v < HALF && NoHuge(f.tables, u) && x in TableItems(f.tables, t, l)
    ensures ItemOf(f.tables, u, x)
    decreases l
  {
    hide Upto, TableItems, EntryItems, ItemOf, SlotAddr, HasLeaf, Reach, NoHuge, Layered, Root, Starts, IsRoot,
         SameSlot;
    TableCases(f.tables, t, l, x);
    if x == TableAt(t) {
      TableIsOwned(f.tables, u, v, l, t);
    } else {
      var i :| 0 <= i < 512 && x in EntryItems(f.tables, f.tables[t][i], l);
      var e, w := f.tables[t][i], SlotAddr(v, l, i);
      EntryMeans(f, u, v, l, t, i);
      EntryCases(f.tables, e, l, x);
      if l > 1 && !e.flags.large {
        VisitedIsOwned(f, u, w, l - 1, e.addr, x);
      } else {
        FrameIsOwned(f.tables, u, w, l, e.addr);
      }
    }
  }

  lemma {:induction false} TableCases(tables: Tables, t: nat, l: nat, x: Item)
    requires 1 <= l <= 3 && x in TableItems(tables, t, l)
    ensures t in tables
    ensures x == TableAt(t) || exists i :: 0 <= i < 512 && x in EntryItems(tables, tables[t][i], l)
  {
    UptoHas(tables, t, l, ENTRIES, x);
  }

  lemma {:induction false} TableIsOwned(tables: Tables, u: nat, v: nat, l: nat, t: nat)
    requires v < HALF && 1 <= l <= 3 && Reach(tables, u, l, v) == At(t)
    ensures ItemOf(tables, u, TableAt(t))
  {
  }

  lemma {:induction false} FrameIsOwned(tables: Tables, u: nat, v: nat, l: nat, a: nat)
    requires v < HALF && HasLeaf(tables, u, v, l, a)
    ensures ItemOf(tables, u, Frame(a, l == 2))
  {
  }

  lemma {:induction false} EntryCases(tables: Tables, e: Pte, l: nat, x: Item)
    requires 1 <= l <= 3 && x in EntryItems(tables, e, l)
    ensures e.flags.present
    ensures l == 1 || (l == 2 && e.flags.large) ==> x == Frame(e.addr, l == 2)
    ensures l > 1 && !e.flags.large ==> x in TableItems(tables, e.addr, l - 1)
  {
  }

  /** What is visited below a link of a table is visited below the table. */
  lemma {:induction false} BelowLink(tables: Tables, t: nat, l: nat, i: nat, x: Item)
    requires t in tables && 2 <= l <= 3 && i < ENTRIES && IsLink(tables[t][i])
    requires x in TableItems(tables, tables[t][i].addr, l - 1)
    ensures x in TableItems(tables, t, l)
  {
    hide TableItems;
    assert x in EntryItems(tables, tables[t][i], l);
    EntryInUpto(tables, t, l, ENTRIES, i);
    UptoInTable(tables, t, l, x);
  }

  lemma {:induction false} UptoInTable(tables: Tables, t: nat, l: nat, x: Item)
    requires t in tables && 1 <= l <= 3
    ensures x in Upto(tables, t, l, ENTRIES) || x == TableAt(t) ==> x in TableItems(tables, t, l)
  {
    hide Upto;
  }

  /** A path that goes on below level `l` goes through a link. */
  lemma {:induction false} PathLink(f: Forest, u: nat, l: nat, t: nat, w: nat, k: nat)
    requires Layered(f.tables, f.level) && Root(f, u) && 1 <= k < l <= 3 && Reach(f.tables, u, l, w) == At(t)
    requires Reach(f.tables, u, k, w).At?
    ensures t in f.tables && IsLink(f.tables[t][Idx(w, l)])
    ensures Reach(f.tables, u, l - 1, w) == At(f.tables[t][Idx(w, l)].addr)
  {
    ReachLevel(f.tables, f.level, u, l, w);
    ReachBelow(f.tables, u, l, k, w);
    hide Layered, Idx;
  }

  /** A table on the path of `w` is visited. */
  lemma {:induction false} TableIsVisited(f: Forest, u: nat, l: nat, t: nat, w: nat, k: nat, x: nat)
    requires Layered(f.tables, f.level) && Root(f, u) && 1 <= k <= l <= 3 && Reach(f.tables, u, l, w) == At(t)
    requires Reach(f.tables, u, k, w) == At(x)
    ensures TableAt(x) in TableItems(f.tables, t, l)
    decreases l
  {
    hide TableItems, EntryItems, Upto, Reach, Idx, Layered;
    if k < l {
      PathLink(f, u, l, t, w, k);
      var i := Idx(w, l);
      TableIsVisited(f, u, l - 1, f.tables[t][i].addr, w, k, x);
      BelowLink(f.tables, t, l, i, TableAt(x));
    } else {
      ReachLevel(f.tables, f.level, u, l, w);
      UptoInTable(f.tables, t, l, TableAt(x));
    }
  }

  lemma {:induction false} LeafIsVisited(f: Forest, u: nat, l: nat, t: nat, w: nat, k: nat, a: nat)
    requires Layered(f.tables, f.level) && Root(f, u) && 1 <= k <= l <= 3 && k <= 2 && Reach(f.tables, u, l, w) == At(t)
    requires HasLeaf(f.tables, u, w, k, a)
    ensures Frame(a, k == 2) in TableItems(f.tables, t, l)
    decreases l
  {
    hide TableItems, EntryItems, Upto, Reach, Idx, Layered;
    var i := Idx(w, l);
    if k < l {
      PathLink(f, u, l, t, w, k);
      LeafIsVisited(f, u, l - 1, f.tables[t][i].addr, w, k, a);
      BelowLink(f.tables, t, l, i, Frame(a, k == 2));
    } else {
      EntryIs(f.tables, f.tables[t][i], l);
      EntryInUpto(f.tables, t, l, ENTRIES, i);
      UptoInTable(f.tables, t, l, Frame(a, k == 2));
    }
  }

  /** The loops visit exactly what belongs to the user half of the space, and its PML4. */
  lemma {:induction false} SpaceItemsAre(f: Forest, u: nat, x: Item)
    requires Layered(f.tables, f.level) && Root(f, u) && NoHuge(f.tables, u)
    ensures x in SpaceItems(f.tables, u) <==> ItemOf(f.tables, u, x)
  {
    PmlIsOwned(f.tables, u);
    hide Upto, ItemOf, NoHuge, Layered;
    if x != TableAt(u) {
      if x in Upto(f.tables, u, 4, KERNEL_HALF) { VisitedInSpace(f, u, x); }
      if ItemOf(f.tables, u, x) { OwnedIsVisited(f, u, x); }
    }
  }

  lemma {:induction false} VisitedInSpace(f: Forest, u: nat, x: Item)
    requires Layered(f.tables, f.level) && Root(f, u) && NoHuge(f.tables, u) && x in Upto(f.tables, u, 4, KERNEL_HALF)
    ensures ItemOf(f.tables, u, x)
  {
    hide Upto, EntryItems, TableItems, ItemOf, NoHuge, Layered, Reach, SlotAddr, Idx;
    UptoHas(f.tables, u, 4, KERNEL_HALF, x);
    var i :| 0 <= i < KERNEL_HALF && x in EntryItems(f.tables, f.tables[u][i], 4);
    TopSlot(f, u, i);
    TopItems(f.tables, f.tables[u][i]);
    VisitedIsOwned(f, u, SlotAddr(0, 4, i), 3, f.tables[u][i].addr, x);
  }

  lemma {:induction false} PmlIsOwned(tables: Tables, u: nat)
    ensures ItemOf(tables, u, TableAt(u))
  {
  }

  lemma {:induction false} TopItems(tables: Tables, e: Pte)
    ensures EntryItems(tables, e, 4) == if e.flags.present then TableItems(tables, e.addr, 3) else multiset{}
  {
  }

  lemma {:induction false} TopSlot(f: Forest, u: nat, i: nat)
    requires Layered(f.tables, f.level) && Root(f, u) && i < KERNEL_HALF
    ensures var w := SlotAddr(0, 4, i); w < HALF && w % Span(4) == 0 && Idx(w, 4) == i
    ensures f.tables[u][i].flags.present ==>
      Reach(f.tables, u, 3, SlotAddr(0, 4, i)) == At(f.tables[u][i].addr) && f.tables[u][i].addr in f.tables
  {
    SlotAddrIs(0, 4, i);
  }

  lemma {:induction false} OwnedIsVisited(f: Forest, u: nat, x: Item)
    requires Layered(f.tables, f.level) && Root(f, u) && NoHuge(f.tables, u) && ItemOf(f.tables, u, x)
    requires x != TableAt(u)
    ensures x in SpaceItems(f.tables, u)
  {
    hide ItemOf, Upto, TableItems, EntryItems, NoHuge, Reach, Idx, HasLeaf, Layered;
    var w, k := OwnedPath(f.tables, u, x);
    TopPath(f, u, w, k);
    var i := Idx(w, 4);
    var t := f.tables[u][i].addr;
    TopItems(f.tables, f.tables[u][i]);
    EntryInUpto(f.tables, u, 4, KERNEL_HALF, i);
    if x.TableAt? {
      TableIsVisited(f, u, 3, t, w, k, x.addr);
    } else {
      NotHuge(f.tables, u, w, k, x.addr);
      LeafIsVisited(f, u, 3, t, w, k, x.addr);
    }
  }

  /** The address that leads to an item of the space. */
  lemma {:induction false} OwnedPath(tables: Tables, u: nat, x: Item) returns (w: nat, k: nat)
    requires ItemOf(tables, u, x) && x != TableAt(u)
    ensures w < HALF && 1 <= k <= 3 && Reach(tables, u, k, w).At?
    ensures x.TableAt? ==> Reach(tables, u, k, w) == At(x.addr)
    ensures x.Frame? ==> HasLeaf(tables, u, w, k, x.addr) && x.large == (k == 2)
  {
    if x.TableAt? {
      w, k :| w < HALF && 1 <= k <= 3 && Reach(tables, u, k, w) == At(x.addr);
    } else {
      w, k :| w < HALF && HasLeaf(tables, u, w, k, x.addr) && x.large == (k == 2);
    }
  }

  lemma {:induction false} NotHuge(tables: Tables, u: nat, w: nat, k: nat, a: nat)
    requires NoHuge(tables, u) && w < HALF && HasLeaf(tables, u, w, k, a)
    ensures k <= 2
  {
  }

  /** The first step of a path into the user half. */
  lemma {:induction false} TopPath(f: Forest, u: nat, w: nat, k: nat)
    requires Layered(f.tables, f.level) && Root(f, u) && w < HALF && 1 <= k <= 3 && Reach(f.tables, u, k, w).At?
    ensures Idx(w, 4) < KERNEL_HALF && f.tables[u][Idx(w, 4)].flags.present
    ensures Reach(f.tables, u, 3, w) == At(f.tables[u][Idx(w, 4)].addr)
  {
    ReachBelow(f.tables, u, 3, k, w);
    LowerHalfSlot(w);
  }

  // ----- What is left

  /** The forest without the user half of `u` and its PML4. */
  ghost function Rest(f: Forest, u: nat): Forest {
    Forest(map t | t in f.tables && !ItemOf(f.tables, u, TableAt(t)) :: f.tables[t],
           map t | t in f.level && !ItemOf(f.tables, u, TableAt(t)) :: f.level[t])
  }

  /** A link into the user half of `u` comes from there or from its PML4. */
  lemma {:induction false} ParentIsOwned(f: Forest, u: nat, t: nat, i: nat)
    requires Ok(f) && Root(f, u) && t in f.tables && i < ENTRIES && f.level[t] > 1 && IsLink(f.tables[t][i])
    requires ItemOf(f.tables, u, TableAt(f.tables[t][i].addr))
    ensures ItemOf(f.tables, u, TableAt(t))
  {
    var x := f.tables[t][i].addr;
    if x == u { assert false; }
    var w: nat, k: nat :| w < HALF && 1 <= k <= 3 && Reach(f.tables, u, k, w) == At(x);
    LowerHalfSlot(w);
    ReachLevel(f.tables, f.level, u, k + 1, w);
    var p := Reach(f.tables, u, k + 1, w).table;
    assert f.tables[p][Idx(w, k + 1)].addr == x;
    assert t == p;
    if k < 3 { assert LowTable(f.tables, u, t); }
  }

  lemma {:induction false} RestOk(f: Forest, u: nat)
    requires Ok(f) && Root(f, u)
    ensures Ok(Rest(f, u))
  {
    var g := Rest(f, u);
    hide ItemOf;
    forall t, i | t in g.tables && 0 <= i < ENTRIES && g.level[t] > 1 && IsLink(g.tables[t][i])
      ensures g.tables[t][i].addr in g.tables && g.level[g.tables[t][i].addr] == g.level[t] - 1
    {
      if ItemOf(f.tables, u, TableAt(g.tables[t][i].addr)) { ParentIsOwned(f, u, t, i); }
    }
    assert Layered(g.tables, g.level);
  }

  /** Every other address space, the kernel's included, translates as before. */
  lemma {:induction false} RestTranslates(f: Forest, u: nat, r: nat, w: nat)
    requires Ok(f) && Root(f, u) && Root(f, r) && r != u
    ensures Root(Rest(f, u), r) && Translate(Rest(f, u).tables, r, w) == Translate(f.tables, r, w)
  {
    RootNotLow(f, u, r);
    RestOk(f, u);
    RestWalk(f, u, r, 4, w);
  }

  lemma {:induction false} RootNotLow(f: Forest, u: nat, r: nat)
    requires Ok(f) && Root(f, u) && Root(f, r) && r != u
    ensures !ItemOf(f.tables, u, TableAt(r))
  {
    if LowTable(f.tables, u, r) {
      var w: nat, k: nat :| w < HALF && 1 <= k <= 3 && Reach(f.tables, u, k, w) == At(r);
      ReachLevel(f.tables, f.level, u, k, w);
      assert false;
    }
  }

  lemma {:induction false} RestWalk(f: Forest, u: nat, t: nat, l: nat, w: nat)
    requires Ok(f) && Root(f, u) && Ok(Rest(f, u)) && t in Rest(f, u).tables && Rest(f, u).level[t] == l && 1 <= l <= 4
    ensures Walk(Rest(f, u).tables, t, l, w) == Walk(f.tables, t, l, w)
    decreases l
  {
    hide ItemOf;
    var g := Rest(f, u);
    var e := g.tables[t][Idx(w, l)];
    if IsLink(e) && l > 1 {
      RestWalk(f, u, e.addr, l - 1, w);
    }
  }

  // ----- How often tables are visited

  /**
   What is found below entry `i` of the table at level `l` of `v` is on the path of an address in that entry's slot.
   */
  lemma {:induction false} TableBelow(f: Forest, u: nat, v: nat, l: nat, t: nat, x: nat) returns (w: nat, k: nat)
    requires Layered(f.tables, f.level) && Root(f, u) && 1 <= l <= 3 && Reach(f.tables, u, l, v) == At(t)
    requires Starts(v, l + 1) && v < HALF && NoHuge(f.tables, u) && TableAt(x) in TableItems(f.tables, t, l)
    ensures w < HALF && 1 <= k <= l && SameSlot(v, w, l + 1) && Reach(f.tables, u, k, w) == At(x)
    decreases l
  {
    hide Upto, TableItems, EntryItems, ItemOf, SlotAddr, HasLeaf, Reach, NoHuge, Layered, Root, Starts, IsRoot,
         SameSlot;
    TableCases(f.tables, t, l, TableAt(x));
    if x == t {
      w, k := v, l;
      SlotSelf(v, l + 1);
    } else {
      var i :| 0 <= i < 512 && TableAt(x) in EntryItems(f.tables, f.tables[t][i], l);
      var e, s := f.tables[t][i], SlotAddr(v, l, i);
      EntryMeans(f, u, v, l, t, i);
      EntryCases(f.tables, e, l, TableAt(x));
      w, k := TableBelow(f, u, s, l - 1, e.addr, x);
      SlotChain(v, s, w, l);
    }
  }

  lemma {:induction false} SlotSelf(v: nat, l: nat)
    requires 1 <= l <= 5
    ensures SameSlot(v, v, l)
  {
  }

  lemma {:induction false} SlotChain(v: nat, s: nat, w: nat, l: nat)
    requires 1 <= l <= 4 && SameSlot(v, s, l + 1) && SameSlot(s, w, l)
    ensures SameSlot(v, w, l + 1)
  {
    SlotUp(s, w, l, l + 1);
  }

  /** Two entries of one table lead to no common table. */
  lemma {:induction false} EntriesApart(f: Forest, u: nat, v: nat, l: nat, t: nat, i: nat, j: nat, x: nat)
    requires Ok(f) && Root(f, u) && 2 <= l <= 4 && Reach(f.tables, u, l, v) == At(t) && t in f.tables
    requires Starts(v, l + 1) && v < HALF && NoHuge(f.tables, u) && i < j < ENTRIES
    requires l == 4 ==> j < KERNEL_HALF && v == 0
    requires TableAt(x) in EntryItems(f.tables, f.tables[t][i], l)
    ensures TableAt(x) !in EntryItems(f.tables, f.tables[t][j], l)
  {
    hide EntryItems, NoHuge, SlotAddr, Starts;
    if TableAt(x) in EntryItems(f.tables, f.tables[t][j], l) {
      var a, k := EntryTable(f, u, v, l, t, i, x);
      var b, m := EntryTable(f, u, v, l, t, j, x);
      ReachLevel(f.tables, f.level, u, k, a);
      ReachLevel(f.tables, f.level, u, m, b);
      ReachUnique(f.tables, f.level, u, a, u, b, k);
      SlotUp(b, a, k + 1, l);
      SlotsApart(v, l, i, j);
      hide Reach, Ok, Root;
      assert false;
    }
  }

  lemma {:induction false} SlotsApart(v: nat, l: nat, i: nat, j: nat)
    requires 1 <= l <= 4 && Starts(v, l + 1) && i < j
    ensures !SameSlot(SlotAddr(v, l, i), SlotAddr(v, l, j), l)
  {
    SlotNumber(v, l, i);
    SlotNumber(v, l, j);
    hide SlotAddr;
  }

  /** Where a table below entry `i` is: in the slot of that entry. */
  lemma {:induction false} EntryTable(f: Forest, u: nat, v: nat, l: nat, t: nat, i: nat, x: nat)
    returns (w: nat, k: nat)
    requires Layered(f.tables, f.level) && Root(f, u) && 2 <= l <= 4 && Reach(f.tables, u, l, v) == At(t)
    requires t in f.tables
    requires Starts(v, l + 1) && v < HALF && NoHuge(f.tables, u) && i < ENTRIES
    requires l == 4 ==> i < KERNEL_HALF && v == 0
    requires TableAt(x) in EntryItems(f.tables, f.tables[t][i], l)
    ensures w < HALF && 1 <= k < l && SameSlot(SlotAddr(v, l, i), w, l) && Reach(f.tables, u, k, w) == At(x)
  {
    hide *;
    EntryLeads(f, u, v, l, t, i, x);
    w, k := TableBelow(f, u, SlotAddr(v, l, i), l - 1, f.tables[t][i].addr, x);
  }

  /** The entry leads to a table with `x` among its items, on the path of the first address of the entry's slot. */
  lemma {:induction false} EntryLeads(f: Forest, u: nat, v: nat, l: nat, t: nat, i: nat, x: nat)
    requires Layered(f.tables, f.level) && Root(f, u) && 2 <= l <= 4 && Reach(f.tables, u, l, v) == At(t)
    requires t in f.tables
    requires Starts(v, l + 1) && v < HALF && NoHuge(f.tables, u) && i < ENTRIES
    requires l == 4 ==> i < KERNEL_HALF && v == 0
    requires TableAt(x) in EntryItems(f.tables, f.tables[t][i], l)
    ensures var e, s := f.tables[t][i], SlotAddr(v, l, i);
      s < HALF && Starts(s, l) && Reach(f.tables, u, l - 1, s) == At(e.addr)
        && TableAt(x) in TableItems(f.tables, e.addr, l - 1)
  {
    EntryStarts(v, l, i);
    hide EntryItems, TableItems, SlotAddr, Starts, NoHuge, SameSlot;
    if l == 4 {
      TopSlot(f, u, i);
      TopItems(f.tables, f.tables[t][i]);
    } else {
      hide Layered, Root, Reach;
      EntryMeans(f, u, v, l, t, i);
      EntryCases(f.tables, f.tables[t][i], l, TableAt(x));
    }
  }

  lemma {:induction false} EntryStarts(v: nat, l: nat, i: nat)
    requires 1 <= l <= 4 && Starts(v, l + 1) && i < ENTRIES && v < VIRT_END
    ensures Starts(SlotAddr(v, l, i), l)
  {
    SlotAddrIs(v, l, i);
  }

  lemma {:induction false} SlotNumber(v: nat, l: nat, i: nat)
    requires 1 <= l <= 4 && Starts(v, l + 1)
    ensures SlotAddr(v, l, i) / Span(l) == v / Span(l) + i
  {
    var s := Span(l);
    assert Span(l + 1) == 512 * s;
    var q := v / (512 * s);
    assert v == q * (512 * s);
    assert v == (q * 512) * s;
    DivUnique(v, s, q * 512, 0);
    assert SlotAddr(v, l, i) == (q * 512 + i) * s;
    DivUnique(SlotAddr(v, l, i), s, q * 512 + i, 0);
  }

  /** Below a table every table is visited at most once, and the table itself once. */
  lemma {:induction false} TableVisits(f: Forest, u: nat, v: nat, l: nat, t: nat, x: nat)
    requires Ok(f) && Root(f, u) && 1 <= l <= 3 && Reach(f.tables, u, l, v) == At(t)
    requires Starts(v, l + 1) && v < HALF && NoHuge(f.tables, u)
    ensures TableItems(f.tables, t, l)[TableAt(x)] <= 1
    decreases l, ENTRIES + 2
  {
    ReachLevel(f.tables, f.level, u, l, v);
    UptoVisits(f, u, v, l, t, ENTRIES, x);
    if x == t { NotBelowItself(f, u, v, l, t); }
    hide Upto;
  }

  lemma {:induction false} UptoVisits(f: Forest, u: nat, v: nat, l: nat, t: nat, n: nat, x: nat)
    requires Ok(f) && Root(f, u) && 1 <= l <= 4 && Reach(f.tables, u, l, v) == At(t) && t in f.tables
    requires Starts(v, l + 1) && v < HALF && NoHuge(f.tables, u) && n <= ENTRIES
    requires l == 4 ==> n <= KERNEL_HALF && v == 0
    ensures Upto(f.tables, t, l, n)[TableAt(x)] <= 1
    decreases l, n + 1
  {
    hide EntryItems, Upto, NoHuge, Ok, Root, Reach, Starts;
    UptoCount(f.tables, t, l, n, TableAt(x));
    if n > 0 {
      UptoVisits(f, u, v, l, t, n - 1, x);
      EntryVisits(f, u, v, l, t, n - 1, x);
      NotTwice(f, u, v, l, t, n - 1, x);
    }
  }

  lemma {:induction false} UptoCount(tables: Tables, t: nat, l: nat, n: nat, x: Item)
    requires 1 <= l <= 4 && t in tables && n <= ENTRIES
    ensures n == 0 ==> Upto(tables, t, l, n)[x] == 0
    ensures n > 0 ==>
      Upto(tables, t, l, n)[x] == Upto(tables, t, l, n - 1)[x] + EntryItems(tables, tables[t][n - 1], l)[x]
  {
    hide EntryItems;
  }

  /** A table found below an earlier entry is not found below entry `n`. */
  lemma {:induction false} NotTwice(f: Forest, u: nat, v: nat, l: nat, t: nat, n: nat, x: nat)
    requires Ok(f) && Root(f, u) && 1 <= l <= 4 && Reach(f.tables, u, l, v) == At(t) && t in f.tables
    requires Starts(v, l + 1) && v < HALF && NoHuge(f.tables, u) && n < ENTRIES
    requires l == 4 ==> n < KERNEL_HALF && v == 0
    ensures TableAt(x) !in Upto(f.tables, t, l, n) || TableAt(x) !in EntryItems(f.tables, f.tables[t][n], l)
  {
    hide EntryItems, Upto, NoHuge, Ok, Root, Reach, Starts;
    UptoHas(f.tables, t, l, n, TableAt(x));
    if TableAt(x) in Upto(f.tables, t, l, n) {
      var i :| 0 <= i < n && TableAt(x) in EntryItems(f.tables, f.tables[t][i], l);
      if l == 1 { LeafEntry(f.tables, f.tables[t][n], TableAt(x)); } else { EntriesApart(f, u, v, l, t, i, n, x); }
    }
  }

  lemma {:induction false} LeafEntry(tables: Tables, e: Pte, x: Item)
    ensures x in EntryItems(tables, e, 1) ==> x.Frame?
  {
  }

  lemma {:induction false} EntryVisits(f: Forest, u: nat, v: nat, l: nat, t: nat, i: nat, x: nat)
    requires Ok(f) && Root(f, u) && 1 <= l <= 4 && Reach(f.tables, u, l, v) == At(t) && t in f.tables
    requires Starts(v, l + 1) && v < HALF && NoHuge(f.tables, u) && i < ENTRIES
    requires l == 4 ==> i < KERNEL_HALF && v == 0
    ensures EntryItems(f.tables, f.tables[t][i], l)[TableAt(x)] <= 1
    decreases l, 0
  {
    hide EntryItems, TableItems, SlotAddr, Starts, NoHuge, Reach, Ok, Root;
    var e, s := f.tables[t][i], SlotAddr(v, l, i);
    EntryIs(f.tables, e, l);
    if e.flags.present && l > 1 && !(l == 2 && e.flags.large) {
      SubTable(f, u, v, l, t, i);
      TableVisits(f, u, s, l - 1, e.addr, x);
    }
  }

  /** A present entry that is no page leads to the table at the first address of its slot. */
  lemma {:induction false} SubTable(f: Forest, u: nat, v: nat, l: nat, t: nat, i: nat)
    requires Ok(f) && Root(f, u) && 2 <= l <= 4 && Reach(f.tables, u, l, v) == At(t) && t in f.tables
    requires Starts(v, l + 1) && v < HALF && NoHuge(f.tables, u) && i < ENTRIES
    requires l == 4 ==> i < KERNEL_HALF && v == 0
    requires f.tables[t][i].flags.present && !(l == 2 && f.tables[t][i].flags.large)
    ensures var s := SlotAddr(v, l, i);
      s < HALF && Starts(s, l) && Reach(f.tables, u, l - 1, s) == At(f.tables[t][i].addr)
  {
    EntryStarts(v, l, i);
    if l == 4 {
      TopSlot(f, u, i);
    } else {
      EntryMeans(f, u, v, l, t, i);
    }
    hide SlotAddr, Starts, NoHuge, Idx, Ok;
  }

  /** What one entry contributes. */
  lemma {:induction false} EntryIs(tables: Tables, e: Pte, l: nat)
    requires 1 <= l <= 4
    ensures !e.flags.present ==> EntryItems(tables, e, l) == multiset{}
    ensures e.flags.present && l == 1 ==> EntryItems(tables, e, l) == multiset{Frame(e.addr, false)}
    ensures e.flags.present && l == 2 && e.flags.large ==> EntryItems(tables, e, l) == multiset{Frame(e.addr, true)}
    ensures e.flags.present && l > 1 && !(l == 2 && e.flags.large) ==>
      EntryItems(tables, e, l) == TableItems(tables, e.addr, l - 1)
  {
    hide TableItems;
  }

  /** A table is not found below itself. */
  lemma {:induction false} NotBelowItself(f: Forest, u: nat, v: nat, l: nat, t: nat)
    requires Ok(f) && Root(f, u) && 1 <= l <= 3 && Reach(f.tables, u, l, v) == At(t) && t in f.tables
    requires Starts(v, l + 1) && v < HALF && NoHuge(f.tables, u)
    ensures TableAt(t) !in Upto(f.tables, t, l, ENTRIES)
  {
    if TableAt(t) in Upto(f.tables, t, l, ENTRIES) {
      UptoHas(f.tables, t, l, ENTRIES, TableAt(t));
      var i :| 0 <= i < ENTRIES && TableAt(t) in EntryItems(f.tables, f.tables[t][i], l);
      if l == 1 { LeafEntry(f.tables, f.tables[t][i], TableAt(t)); } else {
        var w, k := EntryTable(f, u, v, l, t, i, t);
        ReachLevel(f.tables, f.level, u, k, w);
        ReachLevel(f.tables, f.level, u, l, v);
      }
      assert false;
    }
  }

  /** The loops give every table of the space back at most once, hence, by SpaceItemsAre, exactly once. */
  lemma {:induction false} VisitedOnce(f: Forest, u: nat, x: nat)
    requires Ok(f) && Root(f, u) && NoHuge(f.tables, u)
    ensures SpaceItems(f.tables, u)[TableAt(x)] <= 1
  {
    StartsZero();
    assert Reach(f.tables, u, 4, 0) == At(u);
    hide Upto, Ok, NoHuge, SpaceItems, Reach, Starts;
    UptoVisits(f, u, 0, 4, u, KERNEL_HALF, x);
    PmlNotBelow(f, u);
    SpaceCount(f.tables, u, TableAt(x));
  }

  lemma {:induction false} SpaceCount(tables: Tables, u: nat, x: Item)
    requires u in tables
    ensures SpaceItems(tables, u)[x] == Upto(tables, u, 4, KERNEL_HALF)[x] + if x == TableAt(u) then 1 else 0
  {
    hide Upto;
  }

  lemma {:induction false} StartsZero()
    ensures Starts(0, 5)
  {
  }

  lemma {:induction false} PmlNotBelow(f: Forest, u: nat)
    requires Ok(f) && Root(f, u) && NoHuge(f.tables, u)
    ensures TableAt(u) !in Upto(f.tables, u, 4, KERNEL_HALF)
  {
    StartsZero();
    hide Upto, EntryItems, NoHuge;
    UptoHas(f.tables, u, 4, KERNEL_HALF, TableAt(u));
    if i :| 0 <= i < KERNEL_HALF && TableAt(u) in EntryItems(f.tables, f.tables[u][i], 4) {
      var w, k := EntryTable(f, u, 0, 4, u, i, u);
      ReachLevel(f.tables, f.level, u, k, w);
      assert false;
    }
  }
}
