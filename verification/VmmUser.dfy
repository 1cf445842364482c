/** vmm_create_user_pml4, vmm_destroy_user_pml4, and a whole life of a user address space. */
module VmmUser {
  import opened Arith
  import opened Words
  import opened Rounding
  import opened PageTables
  import opened Mapping
  import opened Buddy
  import opened BuddyAsWritten
  import opened BuddyRuns
  import opened VmmSteps
  import opened Vmm
  import opened Ranges
  import opened Teardown
  import opened Spaces
  import Zones
  import ZoneTheorems

  /** vmm_create_user_pml4: a cleared page whose upper half is copied, entry by entry, from the kernel's PML4. */
  method CreateUser(mmu: Mmu) returns (r: Zones.Link)
    requires mmu.Valid() && mmu.ready && Root(mmu.Now(), mmu.kernel)
    modifies mmu`tables, mmu`level, mmu.buddy, mmu.buddy.memMap, mmu.buddy.freeMatrix, mmu.pool
    ensures mmu.Valid() && Root(mmu.Now(), mmu.kernel)
    ensures r.Null? ==> mmu.Now() == old(mmu.Now()) && mmu.buddy.zone == old(mmu.buddy.zone)
    ensures r.Null? ==> forall i: nat :: !Zones.FreeAt(mmu.buddy.zone, i)
    ensures r.Pfn? ==> r.pfn * 0x1000 !in old(mmu.tables) && Root(mmu.Now(), r.pfn * 0x1000)
    ensures r.Pfn? ==> mmu.Now() == WithSpace(old(mmu.Now()), mmu.kernel, r.pfn * 0x1000)
    ensures r.Pfn? ==> Session(mmu.Now(), mmu.buddy.zone, r.pfn * 0x1000, old(mmu.buddy.zone))
  {
    hide Session, WithSpace, TablesApart, Zones.FreeAt, Zones.Covered;
    ghost var f, z := mmu.Now(), mmu.buddy.zone;
    r := mmu.AllocFrame();
    if r.Null? { return; }
    var pml4, kern := ZeroTable(), mmu.tables[mmu.kernel];
    for i := 256 to 512
      invariant |pml4| == 512 && forall j :: 0 <= j < 256 ==> pml4[j] == ZERO
      invariant forall j :: 256 <= j < i ==> pml4[j] == kern[j]
    {
      pml4 := pml4[i := kern[i]];
    }
    assert pml4 == UserTable(kern);
    ghost var u := r.pfn * 0x1000;
    WithSpaceOk(f, mmu.kernel, u);
    WithSpaceIs(f, mmu.kernel, u);
    SessionStart(f, z, mmu.buddy.zone, mmu.kernel, r.pfn);
    CreateApart(mmu.tables, mmu.tables[u := pml4], mmu.buddy.zone, r.pfn);
    mmu.tables := mmu.tables[r.pfn * 0x1000 := pml4];
    mmu.level := mmu.level[u := 4];
  }

  lemma {:induction false} WithSpaceIs(f: Forest, k: nat, u: nat)
    requires k in f.tables
    ensures WithSpace(f, k, u) == Forest(f.tables[u := UserTable(f.tables[k])], f.level[u := 4])
  {
  }

  // ----- Destroying

  /** The items are pages the allocator knows, and large pages are aligned. */
  ghost predicate Known(items: multiset<Item>, n: nat) {
    forall x :: x in items ==> x.addr / 0x1000 < n && (x.Frame? && x.large ==> x.addr % 0x20_0000 == 0)
  }

  /** The links of `t` lead to tables. */
  predicate LinksIn(tables: Tables, t: nat)
    requires t in tables
  {
    forall k :: 0 <= k < 512 && IsLink(tables[t][k]) ==> tables[t][k].addr in tables
  }

  /** The present entries of page directory pointer table `t` are links to sound page directories. */
  predicate Sound(tables: Tables, t: nat)
    requires t in tables
  {
    forall j :: 0 <= j < 512 && tables[t][j].flags.present ==>
      tables[t][j].addr in tables && LinksIn(tables, tables[t][j].addr)
  }

  /** The same one level up, for the user half of a PML4. */
  predicate SpaceSound(tables: Tables, u: nat)
    requires u in tables
  {
    forall i :: 0 <= i < 256 && tables[u][i].flags.present ==>
      tables[u][i].addr in tables && Sound(tables, tables[u][i].addr)
  }

  lemma {:induction false} SoundAt(tables: Tables, u: nat, i: nat)
    requires u in tables && SpaceSound(tables, u) && i < 256
    ensures tables[u][i].flags.present ==> tables[u][i].addr in tables && Sound(tables, tables[u][i].addr)
  {
  }

  lemma {:induction false} SpaceIsSound(f: Forest, n: nat, u: nat)
    requires Ok(f) && Root(f, u) && Destroyable(f, n, u)
    ensures SpaceSound(f.tables, u)
  {
    forall i | 0 <= i < 256 && f.tables[u][i].flags.present
      ensures f.tables[u][i].addr in f.tables && Sound(f.tables, f.tables[u][i].addr)
    {
      TopSlot(f, u, i);
      var t := f.tables[u][i].addr;
      forall j | 0 <= j < 512 && f.tables[t][j].flags.present
        ensures f.tables[t][j].addr in f.tables && LinksIn(f.tables, f.tables[t][j].addr)
      {
        EntryMeans(f, u, SlotAddr(0, 4, i), 3, t, j);
      }
    }
  }

  /**
   The allocator while a space is torn down. With `meant` the left buddy is unlinked before it takes a merged block, and
   lists and marks agree; without, free_pages is as written, and the marks are right.
   */
  ghost predicate Usable(buddy: BuddyAllocator, meant: bool)
    reads buddy, buddy.memMap, buddy.freeMatrix
  {
    && buddy.freeMatrix.Length == Zones.MAX_ORDER + 1 && MarksRight(buddy.memMap[..], buddy.freeMatrix[..], buddy.zone)
    && (meant ==> buddy.Valid())
  }

  /** The page at a physical address goes back to the allocator. */
  method FreeItem(buddy: BuddyAllocator, ghost x: Item, addr: nat, meant: bool)
    requires Usable(buddy, meant) && addr == x.addr && addr / 0x1000 < buddy.memMap.Length
    modifies buddy, buddy.memMap, buddy.freeMatrix
    ensures Usable(buddy, meant) && Freed(old(buddy.zone), buddy.zone, multiset{x})
  {
    MarksOk(buddy.memMap[..], buddy.freeMatrix[..], buddy.zone);
    ZoneTheorems.FreeOk(buddy.zone, buddy.memMap.Length, addr / 0x1000);
    hide Settled, MarksRight, Zones.FreeBlock, Zones.Covered, Zones.Ok;
    assert PagesOf(multiset{x}) == {addr / 0x1000};
    if meant {
      buddy.FreePages(addr / 0x1000);
      SettledMarks(buddy.memMap[..], buddy.freeMatrix[..], buddy.zone);
    } else {
      FreePagesAsWritten(buddy, addr / 0x1000);
    }
  }

  lemma {:induction false} SettledOk(pages: seq<Pages.Page>, heads: seq<Zones.Link>, z: Zones.Zone)
    requires Settled(pages, heads, z)
    ensures Zones.Ok(z, |pages|)
  {
  }

  /** One turn of a teardown loop: what it gives back, and that it may. */
  lemma {:induction false} Visit(tables: Tables, t: nat, l: nat, i: nat, limit: nat, n: nat)
    requires 1 <= l <= 4 && t in tables && i < limit <= 512 && Known(Upto(tables, t, l, limit), n)
    ensures var e := tables[t][i]; var next := Upto(tables, t, l, i + 1); var now := Upto(tables, t, l, i);
      && (!e.flags.present ==> next == now)
      && (e.flags.present && l == 1 ==> next == now + multiset{Frame(e.addr, false)} && e.addr / 0x1000 < n)
      && (e.flags.present && l == 2 && e.flags.large ==>
           next == now + multiset{Frame(e.addr, true)} && e.addr / 0x1000 < n && e.addr % 0x20_0000 == 0)
      && (e.flags.present && l > 1 && !(l == 2 && e.flags.large) ==>
           next == now + TableItems(tables, e.addr, l - 1) && Known(TableItems(tables, e.addr, l - 1), n))
  {
    hide TableItems, EntryItems, Upto;
    var e := tables[t][i];
    UptoNext(tables, t, l, i);
    EntryInUpto(tables, t, l, limit, i);
    EntryIs(tables, e, l);
    assert forall x :: x in EntryItems(tables, e, l) ==> x in Upto(tables, t, l, limit);
    assert e.flags.present && l == 1 ==> Frame(e.addr, false) in EntryItems(tables, e, l);
    assert e.flags.present && l == 2 && e.flags.large ==> Frame(e.addr, true) in EntryItems(tables, e, l);
  }

  lemma {:induction false} UptoNext(tables: Tables, t: nat, l: nat, i: nat)
    requires 1 <= l <= 4 && t in tables && i < 512
    ensures Upto(tables, t, l, i + 1) == Upto(tables, t, l, i) + EntryItems(tables, tables[t][i], l)
  {
    hide EntryItems;
  }

  /** The loop over a whole table, and the table itself. */
  lemma {:induction false} Whole(tables: Tables, t: nat, l: nat, n: nat)
    requires 1 <= l <= 3 && t in tables && Known(TableItems(tables, t, l), n)
    ensures TableItems(tables, t, l) == Upto(tables, t, l, 512) + multiset{TableAt(t)}
    ensures Upto(tables, t, l, 0) == multiset{}
    ensures Known(Upto(tables, t, l, 512), n) && t / 0x1000 < n
  {
    hide Upto, EntryItems;
    assert TableAt(t) in TableItems(tables, t, l);
    assert Upto(tables, t, l, 0) == multiset{} by { UptoNone(tables, t, l); }
  }

  lemma {:induction false} WholeSpace(tables: Tables, u: nat, n: nat)
    requires u in tables && Known(SpaceItems(tables, u), n)
    ensures SpaceItems(tables, u) == Upto(tables, u, 4, 256) + multiset{TableAt(u)}
    ensures Upto(tables, u, 4, 0) == multiset{}
    ensures Known(Upto(tables, u, 4, 256), n) && u / 0x1000 < n
  {
    hide Upto, EntryItems, TableItems;
    UptoNone(tables, u, 4);
    assert TableAt(u) in SpaceItems(tables, u);
    forall x | x in Upto(tables, u, 4, 256) ensures x in SpaceItems(tables, u) { }
  }

  lemma {:induction false} UptoNone(tables: Tables, t: nat, l: nat)
    requires 1 <= l <= 4 && t in tables
    ensures Upto(tables, t, l, 0) == multiset{}
  {
  }

  /** The innermost loop: the frames of a page table, then the table. */
  method FreePt(mmu: Mmu, pt: nat, meant: bool) returns (items: multiset<Item>)
    requires Usable(mmu.buddy, meant) && pt in mmu.tables
    requires Known(TableItems(mmu.tables, pt, 1), mmu.buddy.memMap.Length)
    modifies mmu.buddy, mmu.buddy.memMap, mmu.buddy.freeMatrix
    ensures Usable(mmu.buddy, meant) && items == TableItems(mmu.tables, pt, 1)
    ensures Freed(old(mmu.buddy.zone), mmu.buddy.zone, items)
  {
    hide Freed, Usable, Upto, TableItems, Known;
    ghost var z, n := mmu.buddy.zone, mmu.buddy.memMap.Length;
    Whole(mmu.tables, pt, 1, n);
    FreedNothing(z);
    items := multiset{};
    for l := 0 to 512
      invariant Usable(mmu.buddy, meant) && items == Upto(mmu.tables, pt, 1, l) && Freed(z, mmu.buddy.zone, items)
    {
      var e := mmu.tables[pt][l];
      Visit(mmu.tables, pt, 1, l, 512, n);
      if e.flags.present {
        ghost var z' := mmu.buddy.zone;
        FreeItem(mmu.buddy, Frame(e.addr, false), e.addr, meant);
        FreedMore(z, z', mmu.buddy.zone, items, multiset{Frame(e.addr, false)});
        items := items + multiset{Frame(e.addr, false)};
      }
    }
    ghost var z' := mmu.buddy.zone;
    FreeItem(mmu.buddy, TableAt(pt), pt, meant);
    FreedMore(z, z', mmu.buddy.zone, items, multiset{TableAt(pt)});
    items := items + multiset{TableAt(pt)};
  }

  /** The loop over a page directory. Large pages are aligned, so the panic is not reached. */
  method FreePd(mmu: Mmu, pd: nat, meant: bool) returns (items: multiset<Item>)
    requires Usable(mmu.buddy, meant) && pd in mmu.tables
    requires Known(TableItems(mmu.tables, pd, 2), mmu.buddy.memMap.Length)
    requires LinksIn(mmu.tables, pd)
    modifies mmu.buddy, mmu.buddy.memMap, mmu.buddy.freeMatrix
    ensures Usable(mmu.buddy, meant) && items == TableItems(mmu.tables, pd, 2)
    ensures Freed(old(mmu.buddy.zone), mmu.buddy.zone, items)
  {
    hide Freed, Usable, Upto, TableItems, Known;
    ghost var z, n := mmu.buddy.zone, mmu.buddy.memMap.Length;
    Whole(mmu.tables, pd, 2, n);
    FreedNothing(z);
    items := multiset{};
    for k := 0 to 512
      invariant Usable(mmu.buddy, meant) && items == Upto(mmu.tables, pd, 2, k) && Freed(z, mmu.buddy.zone, items)
    {
      var e := mmu.tables[pd][k];
      Visit(mmu.tables, pd, 2, k, 512, n);
      ghost var z' := mmu.buddy.zone;
      if e.flags.present && e.flags.large {
        assert e.addr % 0x20_0000 == 0;
        FreeItem(mmu.buddy, Frame(e.addr, true), e.addr, meant);
        FreedMore(z, z', mmu.buddy.zone, items, multiset{Frame(e.addr, true)});
        items := items + multiset{Frame(e.addr, true)};
      } else if e.flags.present {
        var more := FreePt(mmu, e.addr, meant);
        FreedMore(z, z', mmu.buddy.zone, items, more);
        items := items + more;
      }
    }
    ghost var z' := mmu.buddy.zone;
    FreeItem(mmu.buddy, TableAt(pd), pd, meant);
    FreedMore(z, z', mmu.buddy.zone, items, multiset{TableAt(pd)});
    items := items + multiset{TableAt(pd)};
  }

  /** The loop over a page directory pointer table. */
  method FreePdpt(mmu: Mmu, pdpt: nat, meant: bool) returns (items: multiset<Item>)
    requires Usable(mmu.buddy, meant) && pdpt in mmu.tables
    requires Known(TableItems(mmu.tables, pdpt, 3), mmu.buddy.memMap.Length)
    requires Sound(mmu.tables, pdpt)
    modifies mmu.buddy, mmu.buddy.memMap, mmu.buddy.freeMatrix
    ensures Usable(mmu.buddy, meant) && items == TableItems(mmu.tables, pdpt, 3)
    ensures Freed(old(mmu.buddy.zone), mmu.buddy.zone, items)
  {
    hide Freed, Usable, Upto, TableItems, Known;
    ghost var z, n := mmu.buddy.zone, mmu.buddy.memMap.Length;
    Whole(mmu.tables, pdpt, 3, n);
    FreedNothing(z);
    items := multiset{};
    for j := 0 to 512
      invariant Usable(mmu.buddy, meant) && items == Upto(mmu.tables, pdpt, 3, j) && Freed(z, mmu.buddy.zone, items)
    {
      var e := mmu.tables[pdpt][j];
      Visit(mmu.tables, pdpt, 3, j, 512, n);
      if e.flags.present {
        ghost var z' := mmu.buddy.zone;
        var more := FreePd(mmu, e.addr, meant);
        FreedMore(z, z', mmu.buddy.zone, items, more);
        items := items + more;
      }
    }
    ghost var z' := mmu.buddy.zone;
    FreeItem(mmu.buddy, TableAt(pdpt), pdpt, meant);
    FreedMore(z, z', mmu.buddy.zone, items, multiset{TableAt(pdpt)});
    items := items + multiset{TableAt(pdpt)};
  }

  lemma {:induction false} HalfFits()
    ensures ENTRIES == 512
  {
  }

  /** The loop over the user half of the PML4. */
  method FreeSpace(mmu: Mmu, pml4: nat, meant: bool) returns (items: multiset<Item>)
    requires Usable(mmu.buddy, meant) && pml4 in mmu.tables && SpaceSound(mmu.tables, pml4)
    requires Known(SpaceItems(mmu.tables, pml4), mmu.buddy.memMap.Length)
    modifies mmu.buddy, mmu.buddy.memMap, mmu.buddy.freeMatrix
    ensures Usable(mmu.buddy, meant) && items == SpaceItems(mmu.tables, pml4)
    ensures Freed(old(mmu.buddy.zone), mmu.buddy.zone, items)
  {
    hide *;
    ghost var z := mmu.buddy.zone;
    HalfFits();
    WholeSpace(mmu.tables, pml4, mmu.buddy.memMap.Length);
    FreedNothing(z);
    items := multiset{};
    for i := 0 to 256
      invariant Usable(mmu.buddy, meant) && items == Upto(mmu.tables, pml4, 4, i) && Freed(z, mmu.buddy.zone, items)
    {
      var e := mmu.tables[pml4][i];
      Visit(mmu.tables, pml4, 4, i, 256, mmu.buddy.memMap.Length);
      SoundAt(mmu.tables, pml4, i);
      if e.flags.present {
        ghost var z' := mmu.buddy.zone;
        var more := FreePdpt(mmu, e.addr, meant);
        FreedMore(z, z', mmu.buddy.zone, items, more);
        items := items + more;
      }
    }
    ghost var z' := mmu.buddy.zone;
    FreeItem(mmu.buddy, TableAt(pml4), pml4, meant);
    FreedMore(z, z', mmu.buddy.zone, items, multiset{TableAt(pml4)});
    items := items + multiset{TableAt(pml4)};
  }

  /** The state of the memory management, with lists and marks in agreement (`meant`) or only the marks right. */
  ghost predicate Holds(mmu: Mmu, meant: bool)
    reads mmu, mmu.buddy, mmu.buddy.memMap, mmu.buddy.freeMatrix
  {
    mmu.ready && Ok(mmu.Now()) && Usable(mmu.buddy, meant) && TablesApart(mmu.tables, mmu.buddy.zone)
      && Manages(mmu.buddy.zone, mmu.managed)
  }

  lemma {:induction false} ValidHolds(mmu: Mmu)
    requires mmu.Valid() && mmu.ready
    ensures Holds(mmu, true) && Holds(mmu, false)
  {
    SettledMarks(mmu.buddy.memMap[..], mmu.buddy.freeMatrix[..], mmu.buddy.zone);
  }

  lemma {:induction false} HoldsParts(mmu: Mmu, meant: bool)
    requires Holds(mmu, meant)
    ensures Ok(mmu.Now()) && Zones.Ok(mmu.buddy.zone, mmu.buddy.memMap.Length) && (meant ==> mmu.Valid())
    ensures forall r: nat :: Root(mmu.Now(), r) ==> r in mmu.tables
  {
  }

  /**
   vmm_destroy_user_pml4, as written or with free_pages as meant: the kernel's PML4 is refused. Otherwise exactly the
   items of the space, as read off its user half, are given back, each of its tables once, and exactly its tables leave
   the forest.
   */
  method DestroyUser(mmu: Mmu, pml4: nat, meant: bool) returns (code: int, ghost items: multiset<Item>)
    requires Holds(mmu, meant) && Root(mmu.Now(), pml4)
    requires pml4 != mmu.kernel ==> Destroyable(mmu.Now(), mmu.buddy.memMap.Length, pml4)
    modifies mmu`tables, mmu`level, mmu.buddy, mmu.buddy.memMap, mmu.buddy.freeMatrix, mmu.pool
    ensures Holds(mmu, meant)
    ensures pml4 == mmu.kernel ==> code == -1 && mmu.Now() == old(mmu.Now()) && mmu.buddy.zone == old(mmu.buddy.zone)
    ensures pml4 != mmu.kernel ==> code == 0 && mmu.Now() == Rest(old(mmu.Now()), pml4)
    ensures pml4 != mmu.kernel ==> Freed(old(mmu.buddy.zone), mmu.buddy.zone, items)
    ensures pml4 != mmu.kernel ==> forall x :: x in items <==> ItemOf(old(mmu.tables), pml4, x)
    ensures pml4 != mmu.kernel ==> forall t: nat :: items[TableAt(t)] <= 1
  {
    hide Freed, Usable, Destroyable, TablesApart, Root, Ok, ItemOf, SpaceItems, Rest, Known, SpaceSound, Manages,
         Zones.Ok;
    items := multiset{};
    if pml4 == mmu.kernel { return -1, multiset{}; }
    ghost var f, z, n := mmu.Now(), mmu.buddy.zone, mmu.buddy.memMap.Length;
    SpaceKnown(f, pml4, n);
    SpaceIsSound(f, n, pml4);
    forall t: nat ensures SpaceItems(f.tables, pml4)[TableAt(t)] <= 1 { TableOnce(f, n, pml4, t); }
    var given := FreeSpace(mmu, pml4, meant);
    items := given;
    RestOk(f, pml4);
    RestApart(f, z, mmu.buddy.zone, pml4, n, items);
    RestIs(f, pml4, items);
    FreedManages(z, mmu.buddy.zone, items, mmu.managed);
    mmu.tables := map t | t in mmu.tables && TableAt(t) !in given :: mmu.tables[t];
    mmu.level := Rest(f, pml4).level;
    code := 0;
  }

  lemma {:induction false} TableOnce(f: Forest, n: nat, u: nat, t: nat)
    requires Ok(f) && Root(f, u) && Destroyable(f, n, u)
    ensures u in f.tables && SpaceItems(f.tables, u)[TableAt(t)] <= 1
  {
    VisitedOnce(f, u, t);
  }

  lemma {:induction false} FreedManages(z: Zones.Zone, z': Zones.Zone, items: multiset<Item>, managed: iset<nat>)
    requires Freed(z, z', items) && Manages(z, managed)
    ensures Manages(z', managed)
  {
    hide Zones.Covered;
  }

  lemma {:induction false} RestIs(f: Forest, u: nat, items: multiset<Item>)
    requires forall x :: x in items <==> ItemOf(f.tables, u, x)
    ensures Rest(f, u).tables == map t | t in f.tables && TableAt(t) !in items :: f.tables[t]
  {
    hide ItemOf;
  }

  lemma {:induction false} SpaceKnown(f: Forest, u: nat, n: nat)
    requires Ok(f) && Root(f, u) && Destroyable(f, n, u)
    ensures u in f.tables
    ensures Known(SpaceItems(f.tables, u), n) && forall x :: x in SpaceItems(f.tables, u) <==> ItemOf(f.tables, u, x)
  {
    hide ItemOf, SpaceItems, NoHuge;
    forall x ensures x in SpaceItems(f.tables, u) <==> ItemOf(f.tables, u, x) {
      SpaceItemsAre(f, u, x);
    }
    forall x | x in SpaceItems(f.tables, u)
      ensures x.addr / 0x1000 < n && (x.Frame? && x.large ==> x.addr % 0x20_0000 == 0)
    {
      assert ItemKnown(f, n, x);
    }
  }

  // ----- A whole life

  /** alloc_pages keeps tables apart from the block it hands out. */
  lemma {:induction false} AllocBlock(z: Zones.Zone, n: nat, k: nat, tables: Tables)
    requires Zones.Ok(z, n) && TablesApart(tables, z) && k <= Zones.MAX_ORDER
    ensures var (z', r) := Zones.Alloc(z, k);
      && Zones.Ok(z', n) && TablesApart(tables, z') && (r.Null? ==> z' == z)
      && (r.Pfn? ==>
           r.pfn !in z.live && z'.live == z.live[r.pfn := k] && Zones.Covered(z, r.pfn) && r.pfn + Pow2(k) <= n)
      && (forall i: nat :: Zones.Covered(z', i) <==> Zones.Covered(z, i))
  {
    var (z', r) := Zones.Alloc(z, k);
    ZoneTheorems.AllocOk(z, n, k);
    if r.Pfn? {
      assert Zones.Live(z', r.pfn, k);
      assert Zones.Block(z', r.pfn, k) && Zones.Within(r.pfn, r.pfn, k);
      assert Zones.Covered(z', r.pfn);
    }
  }

  /** Every space but `u` is still there and translates as before. */
  ghost predicate OthersKeep(f: Forest, g: Forest, u: nat) {
    forall r: nat :: Root(f, r) && r != u ==> Root(g, r) && SameSpace(f, g, r)
  }

  ghost predicate SameSpace(f: Forest, g: Forest, r: nat) {
    forall w: nat :: w < VIRT_END ==> Translate(g.tables, r, w) == Translate(f.tables, r, w)
  }

  ghost predicate AllKeep(f: Forest, g: Forest) {
    forall r: nat :: Root(f, r) ==> Root(g, r) && SameSpace(f, g, r)
  }

  lemma {:induction false} OthersAreAll(f: Forest, g: Forest, u: nat)
    requires OthersKeep(f, g, u) && u !in f.tables
    ensures AllKeep(f, g)
  {
  }

  lemma {:induction false} AllKeepSelf(f: Forest)
    ensures AllKeep(f, f)
  {
  }

  lemma {:induction false} OthersKeepSelf(f: Forest, u: nat)
    ensures OthersKeep(f, f, u)
  {
  }

  lemma {:induction false} OthersKeepTrans(f: Forest, g: Forest, h: Forest, u: nat)
    requires OthersKeep(f, g, u) && OthersKeep(g, h, u)
    ensures OthersKeep(f, h, u)
  {
    hide Root, Translate;
  }

  lemma {:induction false} MapKeepsOthers(f: Forest, g: Forest, live: map<nat, nat>, live': map<nat, nat>, u: nat,
                                          virt: nat, phys: nat, size: nat, flags: Flags, pages: set<nat>)
    requires MapsInside(f, g, live, live', u, virt, phys, size, flags, pages) && virt + size <= HALF && virt < HALF
    ensures OthersKeep(f, g, u)
  {
    MapIsIsolated(f, g, live, live', u, virt, phys, size, flags, pages);
    hide Translate, Ok;
  }

  lemma {:induction false} CreateKeepsOthers(f: Forest, k: nat, u: nat)
    requires Ok(f) && Root(f, k) && u !in f.tables
    ensures OthersKeep(f, WithSpace(f, k, u), u)
  {
    var g := WithSpace(f, k, u);
    forall r: nat | Root(f, r) && r != u ensures Root(g, r) && SameSpace(f, g, r) {
      forall w: nat | w < VIRT_END ensures Translate(g.tables, r, w) == Translate(f.tables, r, w) {
        WithSpaceTranslates(f, k, u, w);
      }
    }
  }

  lemma {:induction false} DestroyKeepsOthers(f: Forest, u: nat)
    requires Ok(f) && Root(f, u)
    ensures OthersKeep(f, Rest(f, u), u)
  {
    hide Translate, Rest, Root, Ok;
    forall r: nat | Root(f, r) && r != u ensures Root(Rest(f, u), r) && SameSpace(f, Rest(f, u), r) {
      RestTranslates(f, u, r, 0);
      forall w: nat | w < VIRT_END ensures Translate(Rest(f, u).tables, r, w) == Translate(f.tables, r, w) {
        RestTranslates(f, u, r, w);
      }
    }
  }

  /**
   Allocate a block of 2^order pages and map it at `virt` in the user half; what a task's memory is made of. The space
   goes on owning exactly its own blocks unless the block was allocated and then not mapped whole.
   */
  method MapBlock(mmu: Mmu, pml4: nat, virt: nat, order: nat, flags: Flags, ghost z0: Zones.Zone)
    returns (page: Zones.Link, failed: nat, memory: bool, ghost pages: set<nat>)
    requires mmu.Valid() && mmu.ready && Root(mmu.Now(), pml4) && flags.present && order <= Zones.MAX_ORDER
    requires virt + Pow2(order) * 0x1000 <= HALF && Session(mmu.Now(), mmu.buddy.zone, pml4, z0)
    requires InWords(mmu.buddy.memMap.Length)
    modifies mmu`tables, mmu`level, mmu.buddy, mmu.buddy.memMap, mmu.buddy.freeMatrix, mmu.pool
    ensures mmu.Valid() && Root(mmu.Now(), pml4) && OthersKeep(old(mmu.Now()), mmu.Now(), pml4)
    ensures |old(mmu.buddy.zone).lists| == Zones.MAX_ORDER + 1 && page == Zones.Alloc(old(mmu.buddy.zone), order).1
    ensures page.Null? ==> memory && failed == 0 && mmu.Now() == old(mmu.Now()) && mmu.buddy.zone == old(mmu.buddy.zone)
    ensures page.Pfn? ==>
      MapsInside(old(mmu.Now()), mmu.Now(), old(mmu.buddy.zone.live)[page.pfn := order], mmu.buddy.zone.live,
                                     pml4, virt, page.pfn * 0x1000, Pow2(order) * 0x1000, flags, pages)
    ensures page.Pfn? && memory ==> failed + |pages| * 0x1000 == Pow2(order) * 0x1000
    ensures page.Pfn? && memory && virt % 0x1000 == 0 ==>
      MapsAll(old(mmu.tables), pml4, virt, Pow2(order) * 0x1000, LargeAgree(virt, page.pfn * 0x1000), pages)
    ensures !memory ==> forall i: nat :: !Zones.FreeAt(mmu.buddy.zone, i)
    ensures memory && failed == 0 ==> Session(mmu.Now(), mmu.buddy.zone, pml4, z0)
  {
    hide Session, TablesApart, Manages, Ok, Root, MapsInside, MapsAll, Buddy.Settled, Zones.Ok, Zones.Alloc,
         Zones.Covered, OthersKeep, Effective, InSpace, LargeAgree, Pow2;
    ghost var f, z, n := mmu.Now(), mmu.buddy.zone, mmu.buddy.memMap.Length;
    OthersKeepSelf(f, pml4);
    assert Zones.Ok(z, n) by { SettledOk(mmu.buddy.memMap[..], mmu.buddy.freeMatrix[..], z); }
    AllocBlock(z, n, order, mmu.tables);
    ListsShape(z, n);
    page := mmu.buddy.AllocPages(order);
    ghost var z1 := mmu.buddy.zone;
    SameManaged(z, z1, mmu.managed);
    if page.Null? { return page, 0, true, {}; }
    RootAligned(f, z, pml4);
    LowRange(virt, page.pfn * 0x1000, Pow2(order) * 0x1000);
    BlockInWords(page.pfn, order, n);
    MapsNothing(f, z1.live, pml4, virt, page.pfn * 0x1000, Pow2(order) * 0x1000, flags);
    failed, memory, pages := mmu.Map(Pml4(pml4), virt, page.pfn * 0x1000, Pow2(order) * 0x1000, flags);
    MapKeepsOthers(f, mmu.Now(), z1.live, mmu.buddy.zone.live, pml4, virt, page.pfn * 0x1000, Pow2(order) * 0x1000,
                   flags, pages);
    if memory && failed == 0 {
      assert Zones.Ok(mmu.buddy.zone, n) by {
        SettledOk(mmu.buddy.memMap[..], mmu.buddy.freeMatrix[..], mmu.buddy.zone);
      }
      SameManagedBack(z, mmu.buddy.zone, mmu.managed);
      WholeBlock(f, mmu.Now(), z, z1, mmu.buddy.zone, pml4, virt, page.pfn, order, flags, pages);
      SessionMap(f, mmu.Now(), z, z1, mmu.buddy.zone, pml4, virt, page.pfn, order,
                 RequestFor(virt, page.pfn * 0x1000, Pow2(order) * 0x1000, flags), pages, z0, n);
    }
  }

  lemma {:induction false} ListsShape(z: Zones.Zone, n: nat)
    requires Zones.Ok(z, n)
    ensures |z.lists| == Zones.MAX_ORDER + 1
  {
  }

  lemma {:induction false} SameManaged(z: Zones.Zone, z': Zones.Zone, managed: iset<nat>)
    requires Manages(z, managed) && forall i: nat :: Zones.Covered(z', i) <==> Zones.Covered(z, i)
    ensures Manages(z', managed)
  {
    hide Zones.Covered;
  }

  lemma {:induction false} SameManagedBack(z: Zones.Zone, z': Zones.Zone, managed: iset<nat>)
    requires Manages(z, managed) && Manages(z', managed)
    ensures forall i: nat :: Zones.Covered(z', i) <==> Zones.Covered(z, i)
  {
    hide Zones.Covered;
  }

  /** The memory of `n` pages has 64-bit addresses. */
  predicate InWords(n: nat) { n * 0x1000 <= WORD }

  lemma {:induction false} BlockInWords(p: nat, k: nat, n: nat)
    requires p + Pow2(k) <= n && InWords(n)
    ensures p * 0x1000 < WORD && (p + Pow2(k)) * 0x1000 <= WORD && p * 0x1000 % 0x1000 == 0
  {
    PowPositive(k);
    hide Pow2;
  }

  /** A range of the user half is taken as it is, or not at all. */
  lemma {:induction false} LowRange(virt: nat, phys: nat, size: nat)
    requires virt + size <= HALF
    ensures virt < WORD && size < WORD && InSpace(Effective(virt, phys, size))
    ensures Low(Effective(virt, phys, size)) == Range(virt, phys, if PagesAgree(virt, phys) then size else 0)
  {
    RoundUpIs(virt, 0x1000);
    hide RoundUp, RoundDown, TargetOf, LargeAgree, PagesAgree;
    assert (virt + size) % WORD == virt + size;
  }

  lemma {:induction false} RootAligned(f: Forest, z: Zones.Zone, u: nat)
    requires Root(f, u) && TablesApart(f.tables, z)
    ensures u % 0x1000 == 0
  {
  }

  /** A mapping without failed bytes covers the whole block. */
  lemma {:induction false} WholeBlock(f: Forest, g: Forest, z: Zones.Zone, z1: Zones.Zone, z2: Zones.Zone, u: nat,
                                      virt: nat, p: nat, k: nat, flags: Flags, pages: set<nat>)
    requires MapsInside(f, g, z1.live, z2.live, u, virt, p * 0x1000, Pow2(k) * 0x1000, flags, pages) && Root(g, u)
    requires flags.present && |pages| == Pow2(k) && (virt % 0x1000 != p * 0x1000 % 0x1000 ==> pages == {})
    requires virt + Pow2(k) * 0x1000 <= HALF
    requires p !in z.live && z1.live == z.live[p := k] && Zones.Covered(z, p) && (p + Pow2(k)) * 0x1000 <= WORD
    requires forall i: nat :: Zones.Covered(z2, i) <==> Zones.Covered(z, i)
    ensures BlockMapped(f, g, z, z1, z2, u, virt, p, k, RequestFor(virt, p * 0x1000, Pow2(k) * 0x1000, flags), pages)
  {
    PowPositive(k);
    hide Updates, GrewByTables, Root, Zones.Covered, PageSet, Pow2, Inside, SlotsLeft;
    LowerTops(virt, Pow2(k) * 0x1000);
    assert p * 0x1000 % 0x1000 == 0;
    SmallWord(p * 0x1000);
    AllPages(virt, Pow2(k), pages);
  }

  /** Where to map, and how large a block. */
  datatype Want = Want(virt: nat, order: nat, flags: Flags)

  predicate Legal(w: Want) {
    w.flags.present && w.order <= Zones.MAX_ORDER && w.virt + Pow2(w.order) * 0x1000 <= HALF
  }

  /** The size of the block wanted. */
  function Bytes(w: Want): nat { Pow2(w.order) * 0x1000 }

  predicate Meet(a: Want, b: Want) { a.virt < b.virt + Bytes(b) && b.virt < a.virt + Bytes(a) }

  /** The wants are page-aligned, and no two of them meet. */
  predicate Tidy(wants: seq<Want>) {
    && (forall i :: 0 <= i < |wants| ==> wants[i].virt % 0x1000 == 0)
    && (forall i, j :: 0 <= i < j < |wants| ==> !Meet(wants[i], wants[j]))
  }

  ghost predicate Asked(done: seq<Want>, w: nat) {
    exists i :: 0 <= i < |done| && done[i].virt <= w < done[i].virt + Bytes(done[i])
  }

  ghost predicate Touched(done: seq<Want>, slot: nat) {
    exists i :: 0 <= i < |done| && !SlotOutside(done[i].virt, Bytes(done[i]), slot)
  }

  /** In the user half nothing is mapped, and no 2 MiB slot taken, but where `done` asked for it. */
  ghost predicate Only(tables: Tables, u: nat, done: seq<Want>) {
    forall w: nat :: w < HALF ==>
      (Translate(tables, u, w).Mapped? ==> Asked(done, w)) && (Taken(tables, u, 4, w) ==> Touched(done, w / 0x20_0000))
  }

  lemma {:induction false} OnlyStart(f: Forest, k: nat, u: nat)
    requires Ok(f) && Root(f, k) && u !in f.tables
    ensures Only(WithSpace(f, k, u).tables, u, [])
  {
    forall w: nat | w < HALF
      ensures Translate(WithSpace(f, k, u).tables, u, w).Unmapped? && !Taken(WithSpace(f, k, u).tables, u, 4, w)
    {
      LowerHalfSlot(w);
      WithSpaceTranslates(f, k, u, w);
    }
  }

  lemma {:induction false} OnlyGrows(tables: Tables, u: nat, done: seq<Want>, want: Want)
    requires Only(tables, u, done)
    ensures Only(tables, u, done + [want])
  {
    hide Translate, Taken;
    forall w: nat | w < HALF
      ensures Asked(done, w) ==> Asked(done + [want], w)
      ensures Touched(done, w / 0x20_0000) ==> Touched(done + [want], w / 0x20_0000)
    {
      MoreAsked(done, want, w);
    }
  }

  lemma {:induction false} MoreAsked(done: seq<Want>, want: Want, w: nat)
    ensures Asked(done + [want], w) <==> Asked(done, w) || want.virt <= w < want.virt + Bytes(want)
    ensures Touched(done + [want], w / 0x20_0000) <==>
      Touched(done, w / 0x20_0000) || !SlotOutside(want.virt, Bytes(want), w / 0x20_0000)
  {
    hide Bytes, SlotOutside;
    var more := done + [want];
    assert more[|done|] == want;
    assert forall i :: 0 <= i < |done| ==> more[i] == done[i];
  }

  lemma {:induction false} OnlyMore(f: Forest, g: Forest, live: map<nat, nat>, live': map<nat, nat>, u: nat,
                                    want: Want, phys: nat, pages: set<nat>, done: seq<Want>)
    requires MapsInside(f, g, live, live', u, want.virt, phys, Bytes(want), want.flags, pages)
    requires Only(f.tables, u, done)
    ensures Only(g.tables, u, done + [want])
  {
    hide Bytes, Asked, Touched, Translate, Taken, GrewByTables;
    forall w: nat | w < HALF
      ensures (Translate(g.tables, u, w).Mapped? ==> Asked(done + [want], w))
        && (Taken(g.tables, u, 4, w) ==> Touched(done + [want], w / 0x20_0000))
    {
      MoreAsked(done, want, w);
      MappedInside(f, g, u, RequestFor(want.virt, phys, Bytes(want), want.flags), pages, w);
      if w / 0x1000 in pages { InsideBytes(want.virt, Bytes(want), w); }
    }
  }

  lemma {:induction false} InsideBytes(virt: nat, size: nat, w: nat)
    requires Inside(virt, size, w / 0x1000)
    ensures virt <= w < virt + size
  {
  }

  lemma {:induction false} MappedInside(f: Forest, g: Forest, u: nat, m: Request, pages: set<nat>, w: nat)
    requires Updates(f, g, u, m, pages) && w < HALF
    ensures w / 0x1000 in pages || Translate(g.tables, u, w) == Translate(f.tables, u, w)
  {
    assert UpdatedAt(f, g, u, m, pages, u, w);
  }

  /** A want that meets none of those before it is mapped whole. */
  lemma {:induction false} WholeWant(tables: Tables, u: nat, done: seq<Want>, want: Want, large: bool, pages: set<nat>)
    requires Only(tables, u, done) && MapsAll(tables, u, want.virt, Bytes(want), large, pages) && Legal(want)
    requires want.virt % 0x1000 == 0 && forall i :: 0 <= i < |done| ==> !Meet(done[i], want)
    requires forall q: nat :: q in pages ==> Inside(want.virt, Bytes(want), q)
    ensures |pages| == Pow2(want.order)
  {
    hide Translate, Taken, Only, MapsAll;
    forall q: nat | Inside(want.virt, Bytes(want), q) ensures q in pages {
      PageFits(tables, u, done, want, large, pages, q);
    }
    PagesOfWant(want, pages);
  }

  lemma {:induction false} PageFits(tables: Tables, u: nat, done: seq<Want>, want: Want, large: bool, pages: set<nat>,
                                    q: nat)
    requires Only(tables, u, done) && MapsAll(tables, u, want.virt, Bytes(want), large, pages) && Legal(want)
    requires (forall i :: 0 <= i < |done| ==> !Meet(done[i], want)) && Inside(want.virt, Bytes(want), q)
    ensures q in pages
  {
    hide Translate, Taken, Pow2;
    assert q * 0x1000 < HALF && q * 0x1000 / 0x20_0000 == q / 512;
    if large && SlotInside(want.virt, Bytes(want), q) {
      assert !Touched(done, q / 512) by { hide Bytes; }
    } else {
      assert !Asked(done, q * 0x1000) by { hide Bytes; }
    }
  }

  lemma {:induction false} PagesOfWant(want: Want, pages: set<nat>)
    requires want.virt % 0x1000 == 0 && forall q: nat :: q in pages <==> Inside(want.virt, Bytes(want), q)
    ensures |pages| == Pow2(want.order)
  {
    forall q: nat ensures q in PageSet(want.virt / 0x1000, Pow2(want.order)) <==> q in pages {
      PageOfRange(want.virt, Pow2(want.order), q);
    }
    assert pages == PageSet(want.virt / 0x1000, Pow2(want.order));
  }

  lemma {:induction false} PageOfRange(virt: nat, n: nat, q: nat)
    requires virt % 0x1000 == 0
    ensures virt / 0x1000 <= q < virt / 0x1000 + n <==> Inside(virt, n * 0x1000, q)
  {
  }

  lemma {:induction false} SessionDestroyable(f: Forest, z: Zones.Zone, u: nat, z0: Zones.Zone, n: nat)
    requires Session(f, z, u, z0) && Zones.Ok(z, n)
    ensures Destroyable(f, n, u)
  {
    OwnsLiveDestroyable(f, z, u, n);
  }

  datatype Outcome = Ended | NoMemory | Leaked

  /**
   A space is made, blocks are allocated and mapped into it, and it is torn down, with free_pages as written or as
   meant. Unless a block was mapped in part only, which cannot be if the wants are page-aligned and do not meet, or the
   memory ran out, the marks then say that exactly the pages are
   free that were free before, and exactly the blocks live that were live before; whatever happened, all other spaces,
   the kernel's among them, translate as they did.
   */
  method Life(mmu: Mmu, wants: seq<Want>, meant: bool) returns (outcome: Outcome)
    requires mmu.Valid() && mmu.ready && Root(mmu.Now(), mmu.kernel) && forall i :: 0 <= i < |wants| ==> Legal(wants[i])
    requires InWords(mmu.buddy.memMap.Length)
    modifies mmu`tables, mmu`level, mmu.buddy, mmu.buddy.memMap, mmu.buddy.freeMatrix, mmu.pool
    ensures Holds(mmu, meant) && AllKeep(old(mmu.Now()), mmu.Now())
    ensures outcome.Ended? ==> mmu.buddy.zone.live == old(mmu.buddy.zone.live)
    ensures outcome.Ended? ==> forall i: nat :: Zones.FreeAt(mmu.buddy.zone, i) <==>
      old(Zones.FreeAt(mmu.buddy.zone, i))
    ensures outcome.Ended? ==> forall i: nat :: MarkedFree(mmu.buddy.memMap[..], i) <==>
      old(MarkedFree(mmu.buddy.memMap[..], i))
    ensures outcome.NoMemory? ==> forall i: nat :: !Zones.FreeAt(mmu.buddy.zone, i)
    ensures Tidy(wants) ==> !outcome.Leaked?
  {
    hide Mmu.Valid, Holds, Session, Destroyable, OthersKeep, AllKeep, MapsInside, Zones.Alloc, Rest, WithSpace,
         Zones.FreeAt, Freed, ItemOf, Ok, Zones.Ok, Root, MarkedFree, MapsAll, Only, Tidy, Meet, LargeAgree, Pow2,
         Zones.Covered;
    ghost var f0, z0, n := mmu.Now(), mmu.buddy.zone, mmu.buddy.memMap.Length;
    ValidHolds(mmu);
    HoldsParts(mmu, false);
    MarksOfSpace(mmu, false);
    AllKeepSelf(f0);
    var r := CreateUser(mmu);
    ValidHolds(mmu);
    if r.Null? { return NoMemory; }
    var u := r.pfn * 0x1000;
    CreateKeepsOthers(f0, mmu.kernel, u);
    OthersAreAll(f0, mmu.Now(), u);
    OnlyStart(f0, mmu.kernel, u);
    assert wants[..0] == [];
    for i := 0 to |wants|
      invariant mmu.Valid() && Holds(mmu, meant) && Root(mmu.Now(), u) && Session(mmu.Now(), mmu.buddy.zone, u, z0)
      invariant OthersKeep(f0, mmu.Now(), u) && Only(mmu.tables, u, wants[..i])
    {
      ghost var g, live := mmu.Now(), mmu.buddy.zone.live;
      var page, failed, memory;
      ghost var pages;
      page, failed, memory, pages := MapBlock(mmu, u, wants[i].virt, wants[i].order, wants[i].flags, z0);
      ValidHolds(mmu);
      OthersKeepTrans(f0, g, mmu.Now(), u);
      OthersAreAll(f0, mmu.Now(), u);
      assert wants[..i + 1] == wants[..i] + [wants[i]];
      if page.Null? {
        OnlyGrows(g.tables, u, wants[..i], wants[i]);
      } else {
        OnlyMore(g, mmu.Now(), live[page.pfn := wants[i].order], mmu.buddy.zone.live, u, wants[i], page.pfn * 0x1000,
                 pages, wants[..i]);
      }
      if !memory { return NoMemory; }
      if page.Pfn? && Tidy(wants) {
        MapsInsideOnly(g, mmu.Now(), live[page.pfn := wants[i].order], mmu.buddy.zone.live, u, wants[i],
                       page.pfn * 0x1000, pages);
        TidyAt(wants, i);
        WholeWant(g.tables, u, wants[..i], wants[i], LargeAgree(wants[i].virt, page.pfn * 0x1000), pages);
      }
      if failed > 0 { return Leaked; }
    }
    HoldsParts(mmu, meant);
    SessionDestroyable(mmu.Now(), mmu.buddy.zone, u, z0, n);
    ghost var f, z := mmu.Now(), mmu.buddy.zone;
    DestroyKeepsOthers(f, u);
    var code;
    ghost var items;
    code, items := DestroyUser(mmu, u, meant);
    assert code == 0;
    OthersKeepTrans(f0, f, mmu.Now(), u);
    OthersAreAll(f0, mmu.Now(), u);
    HoldsParts(mmu, meant);
    TeardownRestores(f, z, mmu.buddy.zone, u, z0, items, n);
    MarksOfSpace(mmu, meant);
    outcome := Ended;
  }

  lemma {:induction false} MapsInsideOnly(f: Forest, g: Forest, live: map<nat, nat>, live': map<nat, nat>, u: nat,
                                          want: Want, phys: nat, pages: set<nat>)
    requires MapsInside(f, g, live, live', u, want.virt, phys, Bytes(want), want.flags, pages)
    ensures forall q: nat :: q in pages ==> Inside(want.virt, Bytes(want), q)
  {
    hide Updates, GrewByTables, SlotsLeft;
  }

  lemma {:induction false} TidyAt(wants: seq<Want>, i: nat)
    requires Tidy(wants) && i < |wants|
    ensures wants[i].virt % 0x1000 == 0 && forall j :: 0 <= j < |wants[..i]| ==> !Meet(wants[..i][j], wants[i])
  {
    hide Meet;
  }

  lemma {:induction false} MarksOfSpace(mmu: Mmu, meant: bool)
    requires Holds(mmu, meant)
    ensures forall i: nat :: MarkedFree(mmu.buddy.memMap[..], i) <==> Zones.FreeAt(mmu.buddy.zone, i)
  {
    hide MarkedFree, Zones.FreeAt, MarksRight, Ok, TablesApart, Manages;
    forall i: nat ensures MarkedFree(mmu.buddy.memMap[..], i) <==> Zones.FreeAt(mmu.buddy.zone, i) {
      MarksMean(mmu.buddy.memMap[..], mmu.buddy.freeMatrix[..], mmu.buddy.zone, i);
    }
  }
}
