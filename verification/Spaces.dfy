/** The life of a user address space: made, given blocks, torn down; and what it owns all along. */
module Spaces {
  import opened Arith
  import opened Words
  import opened Rounding
  import opened PageTables
  import opened Mapping
  import opened Teardown
  import opened VmmSteps
  import Zones
  import ZoneTheorems

  // ----- Making a space

  /** A PML4 with an empty user half and the kernel half of `k`. */
  function UserTable(k: Table): (t: Table)
    ensures forall i :: 0 <= i < KERNEL_HALF ==> t[i] == ZERO
    ensures forall i :: KERNEL_HALF <= i < ENTRIES ==> t[i] == k[i]
  {
    ZeroTable()[..KERNEL_HALF] + k[KERNEL_HALF..]
  }

  function WithSpace(f: Forest, k: nat, u: nat): Forest
    requires k in f.tables
  {
    Forest(f.tables[u := UserTable(f.tables[k])], f.level[u := 4])
  }

  lemma {:induction false} WithSpaceOk(f: Forest, k: nat, u: nat)
    requires Ok(f) && Root(f, k) && u !in f.tables
    ensures Ok(WithSpace(f, k, u)) && Root(WithSpace(f, k, u), u) && Root(WithSpace(f, k, u), k)
  {
    var g := WithSpace(f, k, u);
    hide UserTable;
    assert Layered(g.tables, g.level);
  }

  /** The new space has nothing in its user half, the kernel's mappings in the other, and no other space notices. */
  lemma {:induction false} WithSpaceTranslates(f: Forest, k: nat, u: nat, w: nat)
    requires Ok(f) && Root(f, k) && u !in f.tables && w < VIRT_END
    ensures var g := WithSpace(f, k, u);
      && Agrees(g, k, u)
      && Translate(g.tables, u, w) == (if w < HALF then Unmapped else Translate(f.tables, k, w))
      && (forall r: nat :: Root(f, r) ==> Translate(g.tables, r, w) == Translate(f.tables, r, w))
  {
    var g := WithSpace(f, k, u);
    LowerHalfSlot(w);
    AgreesPointwise(g, k, u);
    forall r: nat | Root(f, r) ensures Translate(g.tables, r, w) == Translate(f.tables, r, w) {
      WalkExtended(f, g, r, 4, w);
    }
    if w >= HALF { AgreeingRootsTranslateAlike(g, k, u, w); }
  }

  lemma {:induction false} WalkExtended(f: Forest, g: Forest, t: nat, l: nat, w: nat)
    requires Layered(f.tables, f.level) && t in f.tables && f.level[t] == l && 1 <= l <= 4
    requires forall x :: x in f.tables ==> x in g.tables && g.tables[x] == f.tables[x]
    ensures Walk(g.tables, t, l, w) == Walk(f.tables, t, l, w)
    decreases l
  {
    var e := f.tables[t][Idx(w, l)];
    if l > 1 && IsLink(e) { WalkExtended(f, g, e.addr, l - 1, w); }
  }

  /** A new space owns its PML4 only. */
  lemma {:induction false} WithSpaceItems(f: Forest, k: nat, u: nat, x: Item)
    requires Ok(f) && Root(f, k) && u !in f.tables
    ensures ItemOf(WithSpace(f, k, u).tables, u, x) <==> x == TableAt(u)
  {
    var g := WithSpace(f, k, u);
    forall w: nat, l: nat | w < HALF && 1 <= l <= 3 ensures Reach(g.tables, u, l, w).NoTable? {
      LowerHalfSlot(w);
      assert Reach(g.tables, u, 3, w).NoTable?;
      if Reach(g.tables, u, l, w).At? { ReachBelow(g.tables, u, 3, l, w); }
    }
  }

  // ----- Giving back

  ghost function PagesOf(items: multiset<Item>): set<nat> {
    set x | x in items :: x.addr / 0x1000
  }

  /** Exactly the pages of `items` stopped being live, and the managed pages are the same. */
  ghost predicate Freed(z: Zones.Zone, z': Zones.Zone, items: multiset<Item>) {
    z'.live == z.live - PagesOf(items) && forall i: nat :: Zones.Covered(z', i) <==> Zones.Covered(z, i)
  }

  lemma {:induction false} FreedNothing(z: Zones.Zone)
    ensures Freed(z, z, multiset{})
  {
  }

  lemma {:induction false} FreedMore(z: Zones.Zone, z': Zones.Zone, z'': Zones.Zone, a: multiset<Item>,
                                     b: multiset<Item>)
    requires Freed(z, z', a) && Freed(z', z'', b)
    ensures Freed(z, z'', a + b)
  {
    hide Zones.Covered;
    assert PagesOf(a + b) == PagesOf(a) + PagesOf(b);
  }

  // ----- What a space owns

  ghost predicate OwnsPage(tables: Tables, u: nat, p: nat) {
    exists x :: ItemOf(tables, u, x) && p == x.addr / 0x1000
  }

  /** The space can be torn down: what it would give back are pages the allocator knows, and no other tables. */
  ghost predicate Destroyable(f: Forest, n: nat, u: nat) {
    NoHuge(f.tables, u) && forall x :: ItemOf(f.tables, u, x) ==> ItemKnown(f, n, x)
  }

  ghost predicate ItemKnown(f: Forest, n: nat, x: Item) {
    && x.addr / 0x1000 < n
    && (x.Frame? ==> x.addr / 0x1000 * 0x1000 !in f.tables && (x.large ==> x.addr % 0x20_0000 == 0))
  }

  /**
   One item of a space that owns what it holds: a table in a page of its own, or a page of a live block that is no
   table.
   */
  ghost predicate ItemFine(f: Forest, z: Zones.Zone, x: Item) {
    match x
    case TableAt(t) => Zones.Live(z, t / 0x1000, 0)
    case Frame(a, large) =>
      Zones.LiveAt(z, a / 0x1000) && a / 0x1000 * 0x1000 !in f.tables && (large ==> a % 0x20_0000 == 0)
  }

  ghost predicate OwnsLive(f: Forest, z: Zones.Zone, u: nat) {
    NoHuge(f.tables, u) && forall x :: ItemOf(f.tables, u, x) ==> ItemFine(f, z, x)
  }

  /** Since zone `z0` exactly blocks headed by pages of the space `u` have become live. */
  ghost predicate Session(f: Forest, z: Zones.Zone, u: nat, z0: Zones.Zone) {
    && OwnsLive(f, z, u)
    && (forall i: nat :: Zones.Covered(z, i) <==> Zones.Covered(z0, i))
    && (forall p :: p in z.live && p !in z0.live ==> OwnsPage(f.tables, u, p))
    && (forall p :: p in z0.live ==> p in z.live && z.live[p] == z0.live[p] && !OwnsPage(f.tables, u, p))
  }

  lemma {:induction false} SessionStart(f: Forest, z: Zones.Zone, z': Zones.Zone, k: nat, p: nat)
    requires Ok(f) && Root(f, k) && p * 0x1000 !in f.tables && p !in z.live && z'.live == z.live[p := 0]
    requires forall i: nat :: Zones.Covered(z', i) <==> Zones.Covered(z, i)
    ensures Session(WithSpace(f, k, p * 0x1000), z', p * 0x1000, z)
  {
    var u := p * 0x1000;
    var g := WithSpace(f, k, u);
    assert u / 0x1000 == p;
    forall x ensures ItemOf(g.tables, u, x) <==> x == TableAt(u) { WithSpaceItems(f, k, u, x); }
    NewSpaceNoHuge(f, k, u);
    hide ItemOf, NoHuge, Zones.Covered;
    assert ItemOf(g.tables, u, TableAt(u));
  }

  lemma {:induction false} NewSpaceNoHuge(f: Forest, k: nat, u: nat)
    requires Ok(f) && Root(f, k) && u !in f.tables
    ensures NoHuge(WithSpace(f, k, u).tables, u)
  {
    var g := WithSpace(f, k, u);
    forall w: nat, a: nat | w < HALF ensures !HasLeaf(g.tables, u, w, 3, a) {
      WithSpaceItems(f, k, u, Frame(a, false));
    }
  }

  // ----- Tearing down

  /** A space that owns what it holds can be torn down. */
  lemma {:induction false} OwnsLiveDestroyable(f: Forest, z: Zones.Zone, u: nat, n: nat)
    requires Zones.Ok(z, n) && OwnsLive(f, z, u)
    ensures Destroyable(f, n, u)
  {
    hide ItemOf, NoHuge;
    forall x | ItemOf(f.tables, u, x) ensures x.addr / 0x1000 < n {
      assert ItemFine(f, z, x);
      var p := x.addr / 0x1000;
      if x.TableAt? {
        assert Zones.Block(z, p, 0);
      } else {
        var h: nat, k: nat :| Zones.Live(z, h, k) && Zones.Within(p, h, k);
        assert Zones.Block(z, h, k);
      }
    }
  }

  /** Other tables stay live or unmanaged. */
  lemma {:induction false} RestApart(f: Forest, z: Zones.Zone, z': Zones.Zone, u: nat, n: nat, items: multiset<Item>)
    requires Ok(f) && Root(f, u) && TablesApart(f.tables, z) && Destroyable(f, n, u) && Freed(z, z', items)
    requires forall x :: x in items <==> ItemOf(f.tables, u, x)
    ensures TablesApart(Rest(f, u).tables, z')
  {
    hide ItemOf, Destroyable, Zones.Covered, Ok, Root, PagesOf;
    forall t | t in Rest(f, u).tables ensures t / 0x1000 !in PagesOf(items) {
      TableNotGiven(f, z, u, n, items, t);
    }
  }

  lemma {:induction false} TableNotGiven(f: Forest, z: Zones.Zone, u: nat, n: nat, items: multiset<Item>, t: nat)
    requires Ok(f) && Root(f, u) && TablesApart(f.tables, z) && Destroyable(f, n, u)
    requires t in f.tables && !ItemOf(f.tables, u, TableAt(t)) && forall x :: x in items <==> ItemOf(f.tables, u, x)
    ensures t / 0x1000 !in PagesOf(items)
  {
    forall x | x in items ensures x.addr / 0x1000 != t / 0x1000 {
      OwnedTable(f, u, x);
      hide ItemOf, Ok, Root;
      assert ItemKnown(f, n, x);
      assert t % 0x1000 == 0;
      assert t == t / 0x1000 * 0x1000;
      if x.TableAt? { assert x.addr % 0x1000 == 0 && x.addr == x.addr / 0x1000 * 0x1000; }
    }
  }

  lemma {:induction false} OwnedTable(f: Forest, u: nat, x: Item)
    requires Ok(f) && Root(f, u) && ItemOf(f.tables, u, x)
    ensures x.TableAt? ==> x.addr in f.tables
  {
    if x.TableAt? && x.addr != u {
      var w: nat, k: nat :| w < HALF && 1 <= k <= 3 && Reach(f.tables, u, k, w) == At(x.addr);
      ReachLevel(f.tables, f.level, u, k, w);
    }
  }

  /** Tearing down what was made since `z0` leaves exactly the live blocks and the free pages of `z0`. */
  lemma {:induction false} TeardownRestores(f: Forest, z: Zones.Zone, z': Zones.Zone, u: nat, z0: Zones.Zone,
                                            items: multiset<Item>, n: nat)
    requires Session(f, z, u, z0) && Freed(z, z', items) && Zones.Ok(z', n) && Zones.Ok(z0, n)
    requires forall x :: x in items <==> ItemOf(f.tables, u, x)
    ensures z'.live == z0.live
    ensures forall i: nat :: Zones.FreeAt(z', i) <==> Zones.FreeAt(z0, i)
  {
    assert z'.live == z0.live by {
      hide ItemOf, OwnsLive, Zones.Covered;
      assert forall p :: p in PagesOf(items) <==> OwnsPage(f.tables, u, p);
      assert z'.live.Keys == z0.live.Keys;
    }
    hide ItemOf, OwnsLive, OwnsPage;
    ZoneTheorems.SameLiveSameFree(z0, z', n);
  }

  // ----- Leaves and translations

  /** The first address of the slot of `w`. */
  function Floor(w: nat, l: nat): nat
    requires 1 <= l <= 4
  {
    w / Span(l) * Span(l)
  }

  lemma {:induction false} FloorIs(w: nat, l: nat)
    requires 1 <= l <= 4
    ensures Floor(w, l) <= w && SameSlot(Floor(w, l), w, l) && Floor(w, l) % Span(l) == 0
    ensures w % Span(l) == w - Floor(w, l)
    ensures l <= 3 ==> Idx(Floor(w, l), l) == Idx(w, l) && SameSlot(Floor(w, l), w, l + 1)
  {
    var s := Span(l);
    DivUnique(w / s * s, s, w / s, 0);
    assert w == w / s * s + w % s;
    if l <= 3 { SlotSplits(Floor(w, l), w, l); }
  }

  /** An address that translates lies under a leaf. */
  lemma {:induction false} LeafOfWalk(tables: Tables, level: Levels, u: nat, w: nat, l: nat) returns (k: nat, a: nat)
    requires Layered(tables, level) && IsRoot(tables, level, u) && w < VIRT_END && 1 <= l <= 4
    requires Reach(tables, u, l, w).At? && Walk(tables, Reach(tables, u, l, w).table, l, w).Mapped?
    ensures 1 <= k <= 3 && HasLeaf(tables, u, Floor(w, k), k, a)
    ensures Walk(tables, Reach(tables, u, l, w).table, l, w).phys == a + w % Span(k)
    decreases l
  {
    ReachLevel(tables, level, u, l, w);
    var t := Reach(tables, u, l, w).table;
    var e := tables[t][Idx(w, l)];
    if l == 1 || e.flags.large {
      LeafHere(tables, level, u, w, l, t);
      k, a := l, e.addr;
    } else {
      assert Reach(tables, u, l - 1, w) == At(e.addr);
      hide Reach, Idx, HasLeaf, Floor, Layered;
      k, a := LeafOfWalk(tables, level, u, w, l - 1);
    }
  }

  lemma {:induction false} LeafHere(tables: Tables, level: Levels, u: nat, w: nat, l: nat, t: nat)
    requires Layered(tables, level) && IsRoot(tables, level, u) && w < VIRT_END && 1 <= l <= 4
    requires t in tables && level[t] == l && Reach(tables, u, l, w) == At(t)
    requires var e := tables[t][Idx(w, l)]; e.flags.present && (l == 1 || e.flags.large)
    ensures l <= 3 && HasLeaf(tables, u, Floor(w, l), l, tables[t][Idx(w, l)].addr)
  {
    FloorIs(w, l);
    hide Floor, Idx, SameSlot;
    if l <= 3 { ReachSame(tables, u, w, Floor(w, l), l); }
  }

  /** Everything in the slot of a leaf translates. */
  lemma {:induction false} LeafTranslates(tables: Tables, level: Levels, u: nat, v: nat, l: nat, a: nat, w: nat)
    requires Layered(tables, level) && IsRoot(tables, level, u) && HasLeaf(tables, u, v, l, a) && SameSlot(v, w, l)
    requires w < VIRT_END
    ensures Translate(tables, u, w).Mapped?
  {
    SlotSplits(v, w, l);
    ReachSame(tables, u, v, w, l);
    WalkFromReach(tables, level, u, l, w);
  }

  // ----- How a mapping changes what a space owns

  lemma {:induction false} ItemKept(f: Forest, g: Forest, u: nat, x: Item)
    requires PresentKept(f, g) && f.tables.Keys <= g.tables.Keys && ItemOf(f.tables, u, x)
    ensures ItemOf(g.tables, u, x)
  {
    if x.TableAt? {
      if x.addr != u {
        var w: nat, k: nat :| w < HALF && 1 <= k <= 3 && Reach(f.tables, u, k, w) == At(x.addr);
        ReachKept(f, g, u, k, w);
      }
    } else {
      var w: nat, k: nat :| w < HALF && HasLeaf(f.tables, u, w, k, x.addr) && x.large == (k == 2);
      ReachKept(f, g, u, k, w);
      assert HasLeaf(g.tables, u, w, k, x.addr);
    }
  }

  /** A path of `g` to a table of `f` was there in `f`. */
  lemma {:induction false} ReachBack(f: Forest, g: Forest, u: nat, k: nat, w: nat)
    requires Layered(g.tables, g.level) && Root(g, u) && NewLinks(f, g) && 1 <= k <= 4
    requires Reach(g.tables, u, k, w).At? && Reach(g.tables, u, k, w).table in f.tables
    ensures Reach(f.tables, u, k, w) == Reach(g.tables, u, k, w)
    decreases 4 - k
  {
    if k < 4 {
      ReachLevel(g.tables, g.level, u, k + 1, w);
      ReachBack(f, g, u, k + 1, w);
    }
  }

  lemma {:induction false} TableItemBack(f: Forest, g: Forest, u: nat, t: nat)
    requires Layered(g.tables, g.level) && Root(g, u) && NewLinks(f, g) && ItemOf(g.tables, u, TableAt(t))
    ensures t in g.tables && (t in f.tables ==> ItemOf(f.tables, u, TableAt(t)))
  {
    if t != u {
      var w: nat, k: nat :| w < HALF && 1 <= k <= 3 && Reach(g.tables, u, k, w) == At(t);
      ReachLevel(g.tables, g.level, u, k, w);
      if t in f.tables {
        ReachBack(f, g, u, k, w);
        TableIsOwned(f.tables, u, w, k, t);
      }
    }
  }

  /** A new frame is one of the pages asked for. */
  lemma {:induction false} FrameItemBack(f: Forest, g: Forest, u: nat, m: Request, pages: set<nat>, x: Item)
    returns (w: nat)
    requires NewLeaves(f, g, u, m, pages) && x.Frame? && ItemOf(g.tables, u, x) && !ItemOf(f.tables, u, x)
    ensures w / 0x1000 in pages && x.addr == m.Target(w) && w % 0x1000 == 0 && (x.large ==> x.addr % 0x20_0000 == 0)
  {
    var v: nat, k: nat :| v < HALF && HasLeaf(g.tables, u, v, k, x.addr) && x.large == (k == 2);
    if HasLeaf(f.tables, u, v, k, x.addr) { FrameIsOwned(f.tables, u, v, k, x.addr); }
    w := v;
    SlotHasFirst(v, k);
  }

  lemma {:induction false} SlotHasFirst(v: nat, k: nat)
    requires 1 <= k <= 2 && v % Span(k) == 0
    ensures v / 0x1000 in SlotPages(v, k) && v % 0x1000 == 0
  {
    if k == 2 {
      assert v / 0x20_0000 * 512 == v / 0x1000;
      assert v == v / 0x20_0000 * 512 * 0x1000;
    }
  }

  /** The first page of a fully mapped range is where a leaf starts, so its frame is one the space gives back. */
  lemma {:induction false} FirstPageOwned(f: Forest, g: Forest, u: nat, m: Request, pages: set<nat>, virt: nat)
    requires Updates(f, g, u, m, pages) && m.present && Root(g, u) && virt % 0x1000 == 0 && virt < HALF
    requires virt / 0x1000 in pages && forall q :: q in pages ==> virt / 0x1000 <= q
    ensures OwnsPage(g.tables, u, m.Target(virt) / 0x1000)
  {
    FirstPageSeen(f, g, u, m, pages, virt);
    UpdatesParts(f, g, u, m, pages);
    hide Updates, ItemOf, Root, Layered, Translate, Reach, HasLeaf, SlotPages, Floor, SameSlot, Idx, NewLinks,
         PresentKept, NewTables;
    var k, a := LeafOfSpace(g, u, virt);
    FloorIs(virt, k);
    var v := Floor(virt, k);
    if HasLeaf(f.tables, u, v, k, a) { LeafTranslates(f.tables, f.level, u, v, k, a, virt); }
    SlotHasFirst(v, k);
    SamePageStart(v, virt);
    FrameIsOwned(g.tables, u, v, k, a);
    assert ItemOf(g.tables, u, Frame(a, k == 2));
  }

  lemma {:induction false} SamePageStart(v: nat, w: nat)
    requires v <= w && v % 0x1000 == 0 && w % 0x1000 == 0 && v / 0x1000 >= w / 0x1000
    ensures v == w
  {
  }

  lemma {:induction false} FirstPageSeen(f: Forest, g: Forest, u: nat, m: Request, pages: set<nat>, virt: nat)
    requires Updates(f, g, u, m, pages) && m.present && virt < VIRT_END && virt / 0x1000 in pages
    ensures Layered(f.tables, f.level) && Root(f, u) && Translate(f.tables, u, virt).Unmapped?
    ensures Translate(g.tables, u, virt) == Mapped(m.Target(virt), m.other)
  {
    assert UpdatedAt(f, g, u, m, pages, u, virt) && WasFree(f, u, pages, virt);
  }

  lemma {:induction false} LeafOfSpace(f: Forest, u: nat, w: nat) returns (k: nat, a: nat)
    requires Layered(f.tables, f.level) && Root(f, u) && w < VIRT_END && Translate(f.tables, u, w).Mapped?
    ensures 1 <= k <= 3 && HasLeaf(f.tables, u, Floor(w, k), k, a)
    ensures Translate(f.tables, u, w).phys == a + w % Span(k)
  {
    assert Reach(f.tables, u, 4, w) == At(u);
    k, a := LeafOfWalk(f.tables, f.level, u, w, 4);
  }

  // ----- Mapping a block of its own into a space

  /** Block `p` of order `k` was allocated and then mapped whole at `virt`. */
  ghost predicate BlockMapped(f: Forest, g: Forest, z: Zones.Zone, z1: Zones.Zone, z2: Zones.Zone, u: nat,
                              virt: nat, p: nat, k: nat, m: Request, pages: set<nat>) {
    && Updates(f, g, u, m, pages) && Root(g, u) && p !in z.live && z1.live == z.live[p := k] && Zones.Covered(z, p)
    && GrewByTables(z1.live, z2.live, f.tables, g.tables)
    && (forall i: nat :: Zones.Covered(z2, i) <==> Zones.Covered(z, i))
    && virt % 0x1000 == 0 && virt < HALF && m.tops.hi < KERNEL_HALF && m.present
    && m.Target(virt) == p * 0x1000 && (p + Pow2(k)) * 0x1000 <= WORD && pages == PageSet(virt / 0x1000, Pow2(k))
  }

  /** Live blocks stay live, with their orders. */
  lemma {:induction false} LiveGrows(f: Forest, g: Forest, z: Zones.Zone, z1: Zones.Zone, z2: Zones.Zone, u: nat,
                                     virt: nat, p: nat, k: nat, m: Request, pages: set<nat>)
    requires BlockMapped(f, g, z, z1, z2, u, virt, p, k, m, pages)
    ensures Zones.Live(z2, p, k) && forall h :: h in z.live ==> h in z2.live && z2.live[h] == z.live[h]
  {
    GrewKeeps(z1.live, z2.live, f.tables, g.tables);
    hide Updates, Zones.Covered, Root, GrewByTables;
    assert p in z1.live;
    forall h | h in z.live ensures h in z2.live && z2.live[h] == z.live[h] { assert h in z1.live; }
  }

  lemma {:induction false} GrewKeeps(live: map<nat, nat>, live': map<nat, nat>, tables: Tables, tables': Tables)
    requires GrewByTables(live, live', tables, tables')
    ensures forall h :: h in live ==> h in live' && live'[h] == live[h]
  {
  }

  lemma {:induction false} LiveAtGrows(z: Zones.Zone, z2: Zones.Zone, i: nat)
    requires forall h :: h in z.live ==> h in z2.live && z2.live[h] == z.live[h]
    ensures Zones.LiveAt(z, i) ==> Zones.LiveAt(z2, i)
  {
    if Zones.LiveAt(z, i) {
      var h: nat, l: nat :| Zones.Live(z, h, l) && Zones.Within(i, h, l);
      assert Zones.Live(z2, h, l);
    }
  }

  /** A new table fills a new live block of one page. */
  lemma {:induction false} NewTableLive(f: Forest, g: Forest, z: Zones.Zone, z1: Zones.Zone, z2: Zones.Zone, u: nat,
                                        virt: nat, p: nat, k: nat, m: Request, pages: set<nat>, t: nat)
    requires BlockMapped(f, g, z, z1, z2, u, virt, p, k, m, pages)
    ensures t in g.tables && t !in f.tables ==>
      Zones.Live(z2, t / 0x1000, 0) && t / 0x1000 !in z.live && t / 0x1000 != p
  {
    if t in g.tables && t !in f.tables { NewTablePage(z1.live, z2.live, f.tables, g.tables, t); }
    hide Updates, Zones.Covered, Root, GrewByTables;
  }

  lemma {:induction false} NewTablePage(live: map<nat, nat>, live': map<nat, nat>, tables: Tables, tables': Tables,
                                        t: nat)
    requires GrewByTables(live, live', tables, tables') && t in tables' && t !in tables
    ensures t / 0x1000 !in live && t / 0x1000 in live' && live'[t / 0x1000] == 0
  {
    assert t % 0x1000 == 0 && t / 0x1000 !in live;
    assert t / 0x1000 * 0x1000 == t;
  }

  /** A page of a live block whose head is no table is no table. */
  lemma {:induction false} PageOfBlock(tables: Tables, z: Zones.Zone, n: nat, h: nat, k: nat, q: nat)
    requires Zones.Ok(z, n) && TablesApart(tables, z) && Zones.Live(z, h, k) && Zones.Within(q, h, k)
    requires h * 0x1000 !in tables
    ensures q * 0x1000 !in tables
  {
    assert q * 0x1000 / 0x1000 == q;
    assert Zones.Block(z, h, k);
    assert Zones.Covered(z, q);
    if Zones.Live(z, q, 0) { ZoneTheorems.BlocksMeet(z, n, h, k, q, 0, q); }
  }

  /** The block's head was no table before and is none now. */
  lemma {:induction false} HeadNoTable(f: Forest, g: Forest, z: Zones.Zone, z1: Zones.Zone, z2: Zones.Zone, u: nat,
                                       virt: nat, p: nat, k: nat, m: Request, pages: set<nat>)
    requires BlockMapped(f, g, z, z1, z2, u, virt, p, k, m, pages) && TablesApart(f.tables, z)
    ensures p * 0x1000 !in g.tables
  {
    assert p * 0x1000 / 0x1000 == p;
    NewTableLive(f, g, z, z1, z2, u, virt, p, k, m, pages, p * 0x1000);
    hide Updates, GrewByTables, Root;
    assert p * 0x1000 !in f.tables;
  }

  /** An old frame, in block `h`, does not become a table. */
  lemma {:induction false} OldFrameNoTable(f: Forest, g: Forest, z: Zones.Zone, z1: Zones.Zone, z2: Zones.Zone, u: nat,
                                           virt: nat, p: nat, k: nat, m: Request, pages: set<nat>, n: nat, q: nat)
    requires BlockMapped(f, g, z, z1, z2, u, virt, p, k, m, pages) && TablesApart(f.tables, z)
    requires TablesApart(g.tables, z2)
    requires Zones.Ok(z, n) && Zones.Ok(z2, n) && Zones.LiveAt(z, q) && q * 0x1000 !in f.tables
    ensures q * 0x1000 !in g.tables
  {
    LiveGrows(f, g, z, z1, z2, u, virt, p, k, m, pages);
    var h: nat, l: nat :| Zones.Live(z, h, l) && Zones.Within(q, h, l);
    HeadOfOldFrame(f.tables, z, n, h, l, q);
    assert h * 0x1000 / 0x1000 == h;
    hide BlockMapped;
    NewTableLive(f, g, z, z1, z2, u, virt, p, k, m, pages, h * 0x1000);
    PageOfBlock(g.tables, z2, n, h, l, q);
  }

  lemma {:induction false} HeadOfOldFrame(tables: Tables, z: Zones.Zone, n: nat, h: nat, l: nat, q: nat)
    requires Zones.Ok(z, n) && TablesApart(tables, z) && Zones.Live(z, h, l) && Zones.Within(q, h, l)
    requires q * 0x1000 !in tables
    ensures h * 0x1000 !in tables
  {
    assert h * 0x1000 / 0x1000 == h;
    assert Zones.Block(z, h, l) && Zones.Within(h, h, l);
    assert Zones.Covered(z, h);
    assert Zones.Live(z, h, 0) ==> l == 0 && q == h;
  }

  /** A new frame is a page of the block. */
  lemma {:induction false} NewFrameInBlock(f: Forest, g: Forest, z: Zones.Zone, z1: Zones.Zone, z2: Zones.Zone, u: nat,
                                           virt: nat, p: nat, k: nat, m: Request, pages: set<nat>, x: Item)
    requires BlockMapped(f, g, z, z1, z2, u, virt, p, k, m, pages)
    requires x.Frame? && ItemOf(g.tables, u, x) && !ItemOf(f.tables, u, x)
    ensures Zones.Within(x.addr / 0x1000, p, k) && (x.large ==> x.addr % 0x20_0000 == 0)
  {
    assert NewLeaves(f, g, u, m, pages);
    var w := FrameItemBack(f, g, u, m, pages, x);
    hide Updates, ItemOf, GrewByTables, Zones.Covered, Root, NewLeaves;
    FrameNumber(w, virt, p);
    BlockTarget(m, w, virt, p, k);
  }

  /** Inside the block targets do not wrap around. */
  lemma {:induction false} BlockTarget(m: Request, w: nat, virt: nat, p: nat, k: nat)
    requires m.Target(virt) == p * 0x1000 && (p + Pow2(k)) * 0x1000 <= WORD && w % 0x1000 == 0 && virt % 0x1000 == 0
    requires virt / 0x1000 <= w / 0x1000 < virt / 0x1000 + Pow2(k)
    ensures w >= virt && m.Target(w) == p * 0x1000 + (w - virt)
  {
    assert w == w / 0x1000 * 0x1000 && virt == virt / 0x1000 * 0x1000;
    TargetStep(m.virt, m.phys, virt, w - virt);
    hide TargetOf;
    assert w - virt < Pow2(k) * 0x1000;
    assert (p + Pow2(k)) * 0x1000 == p * 0x1000 + Pow2(k) * 0x1000;
  }

  lemma {:induction false} FrameNumber(w: nat, virt: nat, p: nat)
    requires w % 0x1000 == 0 && virt % 0x1000 == 0 && w / 0x1000 >= virt / 0x1000
    ensures p * 0x1000 + (w - virt) >= 0 && (p * 0x1000 + (w - virt)) / 0x1000 == p + (w / 0x1000 - virt / 0x1000)
  {
    assert w == w / 0x1000 * 0x1000 && virt == virt / 0x1000 * 0x1000;
    assert p * 0x1000 + (w - virt) == (p + (w / 0x1000 - virt / 0x1000)) * 0x1000;
  }

  lemma {:induction false} StillOwnsLive(f: Forest, g: Forest, z: Zones.Zone, z1: Zones.Zone, z2: Zones.Zone, u: nat,
                                            virt: nat, p: nat, k: nat, m: Request, pages: set<nat>, n: nat)
    requires BlockMapped(f, g, z, z1, z2, u, virt, p, k, m, pages) && TablesApart(f.tables, z)
    requires TablesApart(g.tables, z2)
    requires Zones.Ok(z, n) && Zones.Ok(z2, n) && OwnsLive(f, z, u)
    ensures OwnsLive(g, z2, u)
  {
    NoHugeKept(f, g, u, m, pages);
    hide Updates, ItemOf, Zones.Ok, NoHuge;
    forall x | ItemOf(g.tables, u, x) ensures ItemFine(g, z2, x) {
      ItemStillFine(f, g, z, z1, z2, u, virt, p, k, m, pages, n, x);
    }
  }

  lemma {:induction false} NoHugeKept(f: Forest, g: Forest, u: nat, m: Request, pages: set<nat>)
    requires NewLeaves(f, g, u, m, pages) && NoHuge(f.tables, u)
    ensures NoHuge(g.tables, u)
  {
    hide HasLeaf;
  }

  lemma {:induction false} ItemStillFine(f: Forest, g: Forest, z: Zones.Zone, z1: Zones.Zone, z2: Zones.Zone, u: nat,
                                         virt: nat, p: nat, k: nat, m: Request, pages: set<nat>, n: nat, x: Item)
    requires BlockMapped(f, g, z, z1, z2, u, virt, p, k, m, pages) && TablesApart(f.tables, z)
    requires TablesApart(g.tables, z2)
    requires Zones.Ok(z, n) && Zones.Ok(z2, n) && OwnsLive(f, z, u) && ItemOf(g.tables, u, x)
    ensures ItemFine(g, z2, x)
  {
    LiveGrows(f, g, z, z1, z2, u, virt, p, k, m, pages);
    UpdatesParts(f, g, u, m, pages);
    if ItemOf(f.tables, u, x) {
      hide ItemOf, BlockMapped, Zones.Ok, TablesApart;
      assert ItemFine(f, z, x);
      LiveAtGrows(z, z2, x.addr / 0x1000);
      if x.Frame? { OldFrameNoTable(f, g, z, z1, z2, u, virt, p, k, m, pages, n, x.addr / 0x1000); }
    } else if x.TableAt? {
      TableItemBack(f, g, u, x.addr);
      NewTableLive(f, g, z, z1, z2, u, virt, p, k, m, pages, x.addr);
    } else {
      NewFrameInBlock(f, g, z, z1, z2, u, virt, p, k, m, pages, x);
      HeadNoTable(f, g, z, z1, z2, u, virt, p, k, m, pages);
      PageOfBlock(g.tables, z2, n, p, k, x.addr / 0x1000);
    }
  }

  lemma {:induction false} UpdatesParts(f: Forest, g: Forest, u: nat, m: Request, pages: set<nat>)
    requires Updates(f, g, u, m, pages)
    ensures Layered(g.tables, g.level) && Root(g, u) && NewLinks(f, g) && PresentKept(f, g)
    ensures NewTables(f, g, u, m.tops)
    ensures f.tables.Keys <= g.tables.Keys && NewLeaves(f, g, u, m, pages)
  {
  }

  /** What became live is owned: old blocks still, new tables by their paths, the block by its first page. */
  lemma {:induction false} NewLiveOwned(f: Forest, g: Forest, z: Zones.Zone, z1: Zones.Zone, z2: Zones.Zone, u: nat,
                                        virt: nat, p: nat, k: nat, m: Request, pages: set<nat>, z0: Zones.Zone, q: nat)
    requires BlockMapped(f, g, z, z1, z2, u, virt, p, k, m, pages) && Session(f, z, u, z0) && q in z2.live
    requires q !in z0.live
    ensures OwnsPage(g.tables, u, q)
  {
    UpdatesParts(f, g, u, m, pages);
    if q == p {
      PageSetBounds(virt, k, pages);
      FirstPageOwned(f, g, u, m, pages, virt);
      assert p * 0x1000 / 0x1000 == p;
    } else if q in z.live {
      var x :| ItemOf(f.tables, u, x) && q == x.addr / 0x1000;
      ItemKept(f, g, u, x);
    } else {
      hide Updates, Session;
      assert q * 0x1000 in g.tables && q * 0x1000 !in f.tables;
      NewTableOwned(f, g, u, m.tops, q * 0x1000);
      assert q * 0x1000 / 0x1000 == q;
    }
  }

  lemma {:induction false} PageSetBounds(virt: nat, k: nat, pages: set<nat>)
    requires pages == PageSet(virt / 0x1000, Pow2(k))
    ensures virt / 0x1000 in pages && forall q :: q in pages ==> virt / 0x1000 <= q
  {
  }

  lemma {:induction false} NewTableOwned(f: Forest, g: Forest, u: nat, tops: Tops, t: nat)
    requires NewTables(f, g, u, tops) && tops.hi < KERNEL_HALF && t in g.tables && t !in f.tables
    ensures ItemOf(g.tables, u, TableAt(t))
  {
    var v: nat, l: nat :| v < VIRT_END && 1 <= l <= 4 && Reach(g.tables, u, l, v) == At(t) && tops.Has(Idx(v, 4));
    LowerHalfSlot(v);
    if l < 4 { TableIsOwned(g.tables, u, v, l, t); }
  }

  /** Blocks from before the session stay out of the space. */
  lemma {:induction false} OldLiveNotOwned(f: Forest, g: Forest, z: Zones.Zone, z1: Zones.Zone, z2: Zones.Zone, u: nat,
                                           virt: nat, p: nat, k: nat, m: Request, pages: set<nat>, z0: Zones.Zone,
                                           n: nat, q: nat)
    requires BlockMapped(f, g, z, z1, z2, u, virt, p, k, m, pages) && Session(f, z, u, z0) && q in z0.live
    requires Zones.Ok(z2, n)
    ensures !OwnsPage(g.tables, u, q)
  {
    LiveGrows(f, g, z, z1, z2, u, virt, p, k, m, pages);
    UpdatesParts(f, g, u, m, pages);
    forall x | ItemOf(g.tables, u, x) ensures x.addr / 0x1000 != q {
      if ItemOf(f.tables, u, x) {
        hide ItemOf, BlockMapped;
        assert OwnsPage(f.tables, u, x.addr / 0x1000);
      } else if x.TableAt? {
        TableItemBack(f, g, u, x.addr);
        NewTableLive(f, g, z, z1, z2, u, virt, p, k, m, pages, x.addr);
      } else {
        NewFrameInBlock(f, g, z, z1, z2, u, virt, p, k, m, pages, x);
        InsideNotLive(z2, n, p, k, q);
      }
    }
  }

  /** No other live block starts inside a live block. */
  lemma {:induction false} InsideNotLive(z: Zones.Zone, n: nat, p: nat, k: nat, q: nat)
    requires Zones.Ok(z, n) && Zones.Live(z, p, k) && q in z.live && q != p
    ensures !Zones.Within(q, p, k)
  {
    assert Zones.Block(z, p, k) && Zones.Block(z, q, z.live[q]);
  }

  /** Allocating a block and mapping it whole keeps the session going. */
  lemma {:induction false} SessionMap(f: Forest, g: Forest, z: Zones.Zone, z1: Zones.Zone, z2: Zones.Zone, u: nat,
                                      virt: nat, p: nat, k: nat, m: Request, pages: set<nat>, z0: Zones.Zone, n: nat)
    requires BlockMapped(f, g, z, z1, z2, u, virt, p, k, m, pages) && TablesApart(f.tables, z)
    requires TablesApart(g.tables, z2)
    requires Zones.Ok(z, n) && Zones.Ok(z2, n) && Session(f, z, u, z0)
    ensures Session(g, z2, u, z0)
  {
    hide BlockMapped, Zones.Ok, TablesApart, OwnsLive, OwnsPage, Zones.Covered;
    SessionParts(f, z, u, z0);
    StillOwnsLive(f, g, z, z1, z2, u, virt, p, k, m, pages, n);
    LiveGrows(f, g, z, z1, z2, u, virt, p, k, m, pages);
    StillCovers(f, g, z, z1, z2, u, virt, p, k, m, pages);
    forall q | q in z2.live && q !in z0.live ensures OwnsPage(g.tables, u, q) {
      NewLiveOwned(f, g, z, z1, z2, u, virt, p, k, m, pages, z0, q);
    }
    forall q | q in z0.live ensures !OwnsPage(g.tables, u, q) {
      OldLiveNotOwned(f, g, z, z1, z2, u, virt, p, k, m, pages, z0, n, q);
    }
  }

  lemma {:induction false} SessionParts(f: Forest, z: Zones.Zone, u: nat, z0: Zones.Zone)
    requires Session(f, z, u, z0)
    ensures OwnsLive(f, z, u) && forall p :: p in z0.live ==> p in z.live && z.live[p] == z0.live[p]
  {
  }

  lemma {:induction false} StillCovers(f: Forest, g: Forest, z: Zones.Zone, z1: Zones.Zone, z2: Zones.Zone, u: nat,
                                       virt: nat, p: nat, k: nat, m: Request, pages: set<nat>)
    requires BlockMapped(f, g, z, z1, z2, u, virt, p, k, m, pages)
    ensures forall i: nat :: Zones.Covered(z2, i) <==> Zones.Covered(z, i)
  {
  }
}
