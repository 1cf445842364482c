/** Building page tables, which are taken from the boot allocator first, and from the buddy allocator later. */
module Vmm {
  import opened Arith
  import opened PageTables
  import opened Mapping
  import opened Words
  import opened Buddy
  import opened Rounding
  import opened Ranges
  import opened VmmSteps
  import Zones
  import Bootmem

  /** What looking for the next table down comes to. */
  datatype Found = Sub(table: nat) | Blocked | Exhausted

  datatype Code = Done | Failed | OutOfMemory

  class Mmu {
    const buddy: BuddyAllocator
    const pool: Bootmem.Pool
    /** The kernel's own PML4. */
    const kernel: nat
    /** Tables come from the buddy allocator; until then from the boot allocator. */
    var ready: bool
    /** The pages the buddy allocator manages: no operation changes which they are. */
    ghost var managed: iset<nat>
    var tables: Tables
    ghost var level: Levels

    ghost function Now(): Forest
      reads `tables, `level
    {
      Forest(tables, level)
    }

    ghost predicate Valid()
      reads this, buddy, buddy.memMap, buddy.freeMatrix, pool
    {
      && Ok(Now()) && TablesClear(tables, ready, buddy.zone, pool.table, pool.poolEnd)
      && (ready ==> buddy.Valid() && Manages(buddy.zone, managed)) && (!ready ==> pool.Valid())
    }

    /** The pages in use, as far as the present source of tables knows. */
    ghost function Live(): map<nat, nat>
      reads `ready, buddy, pool
    {
      if ready then buddy.zone.live else Starts(pool.given)
    }

    /** The present source of tables has none left. */
    ghost predicate Spent()
      reads `ready, buddy, pool
    {
      if ready then forall i: nat :: !Zones.FreeAt(buddy.zone, i)
      else pool.state != Bootmem.Enabled || forall a: nat :: !Bootmem.PageFrom(pool.table, pool.poolEnd, a)
    }

    /** The boot allocator only moves upwards. */
    twostate predicate Onwards()
      reads pool
    {
      old(pool.poolEnd) <= pool.poolEnd && pool.state == old(pool.state)
    }

    /** The state before vmm_use_alloc_pages: tables come from the boot allocator. */
    constructor Early(b: BuddyAllocator, p: Bootmem.Pool, k: nat, t: Tables, ghost l: Levels)
      requires p.Valid() && Ok(Forest(t, l)) && Ahead(t, p.table, p.poolEnd)
      ensures buddy == b && pool == p && kernel == k && tables == t && level == l && !ready && Valid()
    {
      buddy, pool, kernel, tables, level, ready, managed := b, p, k, t, l, false, iset{};
    }

    /** vmm_use_alloc_pages: from here on the buddy allocator is the source of tables. */
    method UseAllocPages()
      requires Valid() && buddy.Valid() && TablesApart(tables, buddy.zone)
      modifies `ready, `managed
      ensures Valid() && ready
    {
      ready := true;
      managed := iset i: nat | Zones.Covered(buddy.zone, i);
    }

    /** __alloc_table: take one page from the present source. */
    method AllocFrame() returns (r: Zones.Link)
      requires Valid()
      modifies buddy, buddy.memMap, buddy.freeMatrix, pool
      ensures Valid() && Onwards()
      ensures r.Null? <==> old(Spent())
      ensures r.Null? ==> Spent() && Live() == old(Live()) && buddy.zone == old(buddy.zone)
      ensures r.Pfn? ==> r.pfn * 0x1000 !in tables && r.pfn !in old(Live())
      ensures r.Pfn? ==> Live() == old(Live())[r.pfn := 0] && TablesClear(tables[r.pfn * 0x1000 := ZeroTable()], ready,
                                                                     buddy.zone, pool.table, pool.poolEnd)
    {
      if ready {
        AllocIsFresh(buddy.zone, buddy.memMap.Length, tables);
        r := buddy.AllocPages(0);
        if r.Pfn? { CreateApart(tables, tables[r.pfn * 0x1000 := ZeroTable()], buddy.zone, r.pfn); }
      } else {
        ghost var from, given := pool.poolEnd, pool.given;
        var page := pool.AllocPage();
        AheadStill(tables, pool.table, from, pool.poolEnd);
        if page == 0 { return Zones.Null; }
        assert Bootmem.PageFrom(pool.table, from, page);
        r := Zones.Pfn(page / 0x1000);
        PoolFresh(pool.table, pool.poolStart, from, given, page);
        StartsMore(given, Bootmem.Range(page, 0x1000));
        AheadMore(tables, tables[page := ZeroTable()], pool.table, pool.poolEnd, page);
      }
    }

    /**
     get_or_create_table: the table below entry `idx` of `table`, made if the entry is empty. `u`, `v` and `l` say
     where in the forest that entry is.
     */
    method GetOrCreateTable(table: nat, idx: nat, ghost u: nat, ghost v: nat, ghost l: nat, ghost m: Request)
      returns (r: Found)
      requires Valid() && Root(Now(), u) && 2 <= l <= 4 && v < VIRT_END && idx == Idx(v, l) && m.tops.Has(Idx(v, 4))
      requires Reach(tables, u, l, v) == At(table)
      modifies `tables, `level, buddy, buddy.memMap, buddy.freeMatrix, pool
      ensures Valid() && Root(Now(), u) && Onwards()
      ensures Partly(old(Now()), Now(), old(Live()), Live(), u, m, {}, v / 0x1000,
                     if l == 2 then 1 else 0)
      ensures r.Sub? ==> Reach(tables, u, l - 1, v) == At(r.table)
      ensures r.Blocked? ==> Translate(tables, u, v).Mapped? && Taken(tables, u, 4, v)
      ensures r.Sub? && table in old(tables) && !old(tables)[table][idx].flags.present ==>
        table in tables && tables[table][idx] == Pte(r.table, Flags(true, false, 6))
      ensures r.Exhausted? ==> Spent()
    {
      EntryAt(Now(), u, v, l, table);
      PartlyStart(Now(), Live(), u, m, v / 0x1000, if l == 2 then 1 else 0);
      var entry := tables[table][idx];
      hide *;
      if entry.flags.present {
        if entry.flags.large { return Blocked; }
        return Sub(entry.addr);
      }
      r := CreateTable(table, idx, u, v, l, m);
    }

    /** The creating half: a cleared page of its own, linked into the empty entry. */
    method CreateTable(table: nat, idx: nat, ghost u: nat, ghost v: nat, ghost l: nat, ghost m: Request)
      returns (r: Found)
      requires Valid() && Root(Now(), u) && 2 <= l <= 4 && v < VIRT_END && idx == Idx(v, l) && m.tops.Has(Idx(v, 4))
      requires Reach(tables, u, l, v) == At(table) && table in tables && table in level && level[table] == l
      requires !tables[table][idx].flags.present
      requires Partly(Now(), Now(), Live(), Live(), u, m, {}, v / 0x1000, if l == 2 then 1 else 0)
      modifies `tables, `level, buddy, buddy.memMap, buddy.freeMatrix, pool
      ensures Valid() && Root(Now(), u) && Onwards() && !r.Blocked?
      ensures Partly(old(Now()), Now(), old(Live()), Live(), u, m, {}, v / 0x1000,
                     if l == 2 then 1 else 0)
      ensures r.Sub? ==> Reach(tables, u, l - 1, v) == At(r.table)
      ensures r.Sub? ==> table in tables && tables[table][idx] == Pte(r.table, Flags(true, false, 6))
      ensures r.Exhausted? ==> Spent()
    {
      hide Ok, Root, Reach, Idx, Partly, TablesClear, Live, Spent, ZeroTable, BuddyAllocator.Valid, Manages,
           Bootmem.Pool.Valid;
      var page := AllocFrame();
      if page.Null? { return Exhausted; }
      CreateStep(Now(), old(Live()), Live(), u, v, l, table, page.pfn, m);
      var frame := page.pfn * 0x1000;
      ClearKeys(tables[frame := ZeroTable()], Linked(Now(), table, idx, l, frame, TABLE_BITS).tables, ready, buddy.zone,
                pool.table, pool.poolEnd);
      tables := tables[frame := ZeroTable()];
      tables := tables[table := tables[table][idx := Pte(frame, Flags(true, false, TABLE_BITS))]];
      level := level[frame := l - 1];
      r := Sub(frame);
    }

    /** get_or_create_pd: down from the PML4 to the level-2 table on the path of `virt`. */
    method GetOrCreatePd(pml4: nat, virt: nat, ghost m: Request) returns (r: Found)
      requires Valid() && Root(Now(), pml4) && virt < VIRT_END && m.tops.Has(Idx(virt, 4))
      modifies `tables, `level, buddy, buddy.memMap, buddy.freeMatrix, pool
      ensures Valid() && Root(Now(), pml4) && Onwards()
      ensures Partly(old(Now()), Now(), old(Live()), Live(), pml4, m, {}, virt / 0x1000, 0)
      ensures r.Sub? ==> Reach(tables, pml4, 2, virt) == At(r.table)
      ensures r.Blocked? ==> Translate(tables, pml4, virt).Mapped? && Taken(tables, pml4, 4, virt)
      ensures r.Exhausted? ==> Spent()
    {
      hide Ok, Root, Partly, Taken, Translate, Valid, Live, Spent, Idx;
      r := GetOrCreateTable(pml4, Idx(virt, 4), pml4, virt, 4, m);
      if !r.Sub? { return; }
      ghost var g, live := Now(), Live();
      r := GetOrCreateTable(r.table, Idx(virt, 3), pml4, virt, 3, m);
      PartlySame(old(Now()), g, Now(), old(Live()), live, Live(), pml4, m, {}, {}, virt / 0x1000, 0);
    }

    /** get_or_create_pt: one level further, to the page table. */
    method GetOrCreatePt(pml4: nat, virt: nat, ghost m: Request) returns (r: Found)
      requires Valid() && Root(Now(), pml4) && virt < VIRT_END && m.tops.Has(Idx(virt, 4))
      modifies `tables, `level, buddy, buddy.memMap, buddy.freeMatrix, pool
      ensures Valid() && Root(Now(), pml4) && Onwards()
      ensures Partly(old(Now()), Now(), old(Live()), Live(), pml4, m, {}, virt / 0x1000, 1)
      ensures r.Sub? ==> Reach(tables, pml4, 1, virt) == At(r.table)
      ensures r.Blocked? ==> Translate(tables, pml4, virt).Mapped?
      ensures r.Exhausted? ==> Spent()
    {
      hide Ok, Root, Partly, Taken, Translate, Valid, Live, Spent, Reach, Idx;
      r := GetOrCreatePd(pml4, virt, m);
      PartlyWiden(old(Now()), Now(), old(Live()), Live(), pml4, m, {}, virt / 0x1000, 0,
                  virt / 0x1000, 1);
      if !r.Sub? { return; }
      ghost var g, live := Now(), Live();
      r := GetOrCreateTable(r.table, Idx(virt, 2), pml4, virt, 2, m);
      PartlySame(old(Now()), g, Now(), old(Live()), live, Live(), pml4, m, {}, {}, virt / 0x1000, 1);
    }

    /**
     set_page without overwriting. It fails exactly when an address is not page-aligned or `virt` already
     translates; when the allocator is exhausted the model stops.
     */
    method SetPage(pml4: nat, virt: nat, phys: nat, flags: Flags, ghost m: Request) returns (code: Code)
      requires Valid() && Root(Now(), pml4) && virt < VIRT_END
      requires m.Target(virt) == phys && m.other == flags.other && m.present == flags.present
      requires m.tops.Has(Idx(virt, 4))
      modifies `tables, `level, buddy, buddy.memMap, buddy.freeMatrix, pool
      ensures Valid() && Root(Now(), pml4) && Onwards()
      ensures Partly(old(Now()), Now(), old(Live()), Live(), pml4, m,
                     if code.Done? then PageSet(virt / 0x1000, 1) else {}, virt / 0x1000, 1)
      ensures code.Done? ==> virt % 0x1000 == 0 && phys % 0x1000 == 0 && old(Translate(tables, pml4, virt)).Unmapped?
      ensures code.Failed? ==> virt % 0x1000 != 0 || phys % 0x1000 != 0 || old(Translate(tables, pml4, virt)).Mapped?
      ensures code.OutOfMemory? ==> Spent()
    {
      hide Ok, Partly, TablesClear, Reach, Translate, Root, PageSet, Idx, Live, Spent, Manages, BuddyAllocator.Valid,
           Bootmem.Pool.Valid;
      if virt % 0x1000 != 0 || phys % 0x1000 != 0 {
        PartlyStart(Now(), Live(), pml4, m, virt / 0x1000, 1);
        return Failed;
      }
      var r := GetOrCreatePt(pml4, virt, m);
      NothingMapped(old(Now()), Now(), old(Live()), Live(), pml4, m, virt / 0x1000, 1, virt);
      if r.Exhausted? { return OutOfMemory; }
      if r.Blocked? { return Failed; }
      EntryAt(Now(), pml4, virt, 1, r.table);
      var idx := Idx(virt, 1);
      if tables[r.table][idx].flags.present { return Failed; }
      ghost var g, live := Now(), Live();
      LeafStep(Now(), Live(), pml4, virt, 1, r.table, Pte(phys, flags), m);
      ClearKeys(tables, tables[r.table := tables[r.table][idx := Pte(phys, flags)]], ready, buddy.zone, pool.table,
                pool.poolEnd);
      tables := tables[r.table := tables[r.table][idx := Pte(phys, flags)]];
      PartlySame(old(Now()), g, Now(), old(Live()), live, live, pml4, m, {}, PageSet(virt / 0x1000, 1),
                 virt / 0x1000, 1);
      code := Done;
    }

    /**
     set_large_page without overwriting. It fails exactly when an address is not 2 MiB-aligned or the slot is taken.
     */
    method SetLargePage(pml4: nat, virt: nat, phys: nat, flags: Flags, ghost m: Request) returns (code: Code)
      requires Valid() && Root(Now(), pml4) && virt < VIRT_END
      requires m.Target(virt) == phys && m.other == flags.other && m.present == flags.present
      requires m.tops.Has(Idx(virt, 4))
      modifies `tables, `level, buddy, buddy.memMap, buddy.freeMatrix, pool
      ensures Valid() && Root(Now(), pml4) && Onwards()
      ensures Partly(old(Now()), Now(), old(Live()), Live(), pml4, m,
                     if code.Done? then PageSet(virt / 0x1000, 512) else {}, virt / 0x1000, 512)
      ensures code.Done? ==> virt % 0x20_0000 == 0 && phys % 0x20_0000 == 0 && !old(Taken(tables, pml4, 4, virt))
      ensures code.Failed? ==> virt % 0x20_0000 != 0 || phys % 0x20_0000 != 0 || old(Taken(tables, pml4, 4, virt))
      ensures code.OutOfMemory? ==> Spent()
    {
      hide Ok, Partly, TablesClear, Reach, Translate, Taken, Root, PageSet, Idx, Live, Spent, Manages,
           BuddyAllocator.Valid, Bootmem.Pool.Valid;
      if virt % 0x20_0000 != 0 || phys % 0x20_0000 != 0 {
        PartlyStart(Now(), Live(), pml4, m, virt / 0x1000, 512);
        return Failed;
      }
      var r := GetOrCreatePd(pml4, virt, m);
      NothingMapped(old(Now()), Now(), old(Live()), Live(), pml4, m, virt / 0x1000, 0, virt);
      PartlyWiden(old(Now()), Now(), old(Live()), Live(), pml4, m, {}, virt / 0x1000, 0,
                  virt / 0x1000, 512);
      if r.Exhausted? { return OutOfMemory; }
      if r.Blocked? { return Failed; }
      EntryAt(Now(), pml4, virt, 2, r.table);
      var idx := Idx(virt, 2);
      if tables[r.table][idx].flags.present { return Failed; }
      ghost var g, live := Now(), Live();
      LeafStep(Now(), Live(), pml4, virt, 2, r.table, Pte(phys, flags.(large := true)), m);
      ClearKeys(tables, tables[r.table := tables[r.table][idx := Pte(phys, flags.(large := true))]], ready, buddy.zone,
                pool.table, pool.poolEnd);
      tables := tables[r.table := tables[r.table][idx := Pte(phys, flags.(large := true))]];
      PartlySame(old(Now()), g, Now(), old(Live()), live, live, pml4, m, {}, PageSet(virt / 0x1000, 512),
                 virt / 0x1000, 512);
      code := Done;
    }

    /**
     set_pages: page by page; the bytes of the pages that could not be set are counted. Misaligned requests are
     refused.
     */
    method SetPages(pml4: nat, virt: nat, phys: nat, size: nat, flags: Flags, ghost m: Request, ghost lo: nat,
                    ghost hi: nat)
      returns (failed: nat, memory: bool, ghost pages: set<nat>)
      requires Valid() && Root(Now(), pml4)
      requires m.Target(virt) == phys && m.other == flags.other && m.present == flags.present
      requires CoversRange(m.tops, virt, size)
      requires lo % 512 == 0 && (virt / 0x1000 + size / 0x1000 <= lo || hi <= virt / 0x1000)
      modifies `tables, `level, buddy, buddy.memMap, buddy.freeMatrix, pool
      ensures Valid() && Root(Now(), pml4) && Onwards()
      ensures Partly(old(Now()), Now(), old(Live()), Live(), pml4, m, pages, virt / 0x1000,
                     size / 0x1000)
      ensures memory || !ready ==> failed + |pages| * 0x1000 == size
      ensures virt % 0x1000 != 0 || phys % 0x1000 != 0 || size % 0x1000 != 0 ==>
        failed == size && pages == {} && tables == old(tables)
      ensures memory && virt % 0x1000 == 0 && phys % 0x1000 == 0 && size % 0x1000 == 0 ==>
        Exactly(old(tables), pml4, pages, virt / 0x1000, size / 0x1000, lo, hi)
      ensures !memory ==> Spent()
    {
      hide Valid, Live, Spent, Partly, Exactly, CoversRange, Ok, Root, PageSet, Translate, Idx, TargetOf,
           Request.Target, Zones.FreeAt;
      failed, memory, pages := 0, true, {};
      ValidOk(this);
      ghost var first := virt / 0x1000;
      PartlyStart(Now(), Live(), pml4, m, first, 0);
      ExactlyNone(tables, pml4, first, lo, hi);
      if virt % 0x1000 != 0 || phys % 0x1000 != 0 || size % 0x1000 != 0 {
        PartlyStart(Now(), Live(), pml4, m, first, size / 0x1000);
        return size, true, {};
      }
      var i, k := 0, 0;
      while i < size
        invariant 0 <= i == k * 0x1000 <= size && Valid() && Root(Now(), pml4) && Onwards()
        invariant Partly(old(Now()), Now(), old(Live()), Live(), pml4, m, pages, first, k)
        invariant failed + |pages| * 0x1000 == i && (memory ==> Exactly(old(tables), pml4, pages, first, k, lo, hi))
        invariant !memory ==> !ready && Spent()
      {
        ghost var g, live := Now(), Live();
        label turn:
        PageTurn(m, virt, phys, size, i, k);
        var code := SetPage(pml4, virt + i, (phys + i) % WORD, flags, m);
        ghost var added := if code.Done? then PageSet(first + k, 1) else {};
        PartlyJoin(old(Now()), g, Now(), old(Live()), live, Live(), pml4, m, pages, added, first, k,
                   1);
        if memory && !code.OutOfMemory? {
          ExactlyOne(g.tables, pml4, added, first + k, lo, hi);
          ExactlyJoin(old(Now()), g, old(Live()), live, pml4, m, pages, added, first, k, 1, lo, hi);
        }
        pages := pages + added;
        if code.OutOfMemory? {
          memory := false;
          if ready {
            PartlyWiden(old(Now()), Now(), old(Live()), Live(), pml4, m, pages, first, k + 1, first,
                        size / 0x1000);
            return failed, false, pages;
          }
        }
        if !code.Done? { failed := failed + 0x1000; }
        SpentStill@turn(this);
        i, k := i + 0x1000, k + 1;
      }
      assert k == size / 0x1000;
    }

    /** set_large_pages: 2 MiB at a time. Misaligned requests are refused. */
    method SetLargePages(pml4: nat, virt: nat, phys: nat, size: nat, flags: Flags, ghost m: Request, ghost lo: nat,
                         ghost hi: nat)
      returns (failed: nat, memory: bool, ghost pages: set<nat>)
      requires Valid() && Root(Now(), pml4)
      requires m.Target(virt) == phys && m.other == flags.other && m.present == flags.present
      requires CoversRange(m.tops, virt, size)
      requires lo % 512 == 0 && lo <= virt / 0x1000 && virt / 0x1000 + size / 0x1000 <= hi
      modifies `tables, `level, buddy, buddy.memMap, buddy.freeMatrix, pool
      ensures Valid() && Root(Now(), pml4) && Onwards()
      ensures Partly(old(Now()), Now(), old(Live()), Live(), pml4, m, pages, virt / 0x1000,
                     size / 0x1000)
      ensures memory || !ready ==> failed + |pages| * 0x1000 == size
      ensures virt % 0x20_0000 != 0 || phys % 0x20_0000 != 0 || size % 0x20_0000 != 0 ==>
        failed == size && pages == {} && tables == old(tables)
      ensures memory && virt % 0x20_0000 == 0 && phys % 0x20_0000 == 0 && size % 0x20_0000 == 0 ==>
        Exactly(old(tables), pml4, pages, virt / 0x1000, size / 0x1000, lo, hi)
      ensures !memory ==> Spent()
    {
      hide Valid, Live, Spent, Partly, Exactly, CoversRange, Ok, Root, PageSet, Taken, Idx, Aligned512, TargetOf,
           Request.Target, Zones.FreeAt;
      ZeroAligned512();
      failed, memory, pages := 0, true, {};
      ValidOk(this);
      ghost var first := virt / 0x1000;
      PartlyStart(Now(), Live(), pml4, m, first, 0);
      ExactlyNone(tables, pml4, first, lo, hi);
      if virt % 0x20_0000 != 0 || phys % 0x20_0000 != 0 || size % 0x20_0000 != 0 {
        PartlyStart(Now(), Live(), pml4, m, first, size / 0x1000);
        return size, true, {};
      }
      var i, n := 0, 0;
      while i < size
        invariant 0 <= i == n * 0x1000 <= size && Aligned512(n) && Valid() && Root(Now(), pml4) && Onwards()
        invariant Partly(old(Now()), Now(), old(Live()), Live(), pml4, m, pages, first, n)
        invariant failed + |pages| * 0x1000 == i && (memory ==> Exactly(old(tables), pml4, pages, first, n, lo, hi))
        invariant !memory ==> !ready && Spent()
      {
        ghost var g, live := Now(), Live();
        label turn:
        LargeTurn(m, virt, phys, size, i, n);
        var code := SetLargePage(pml4, virt + i, (phys + i) % WORD, flags, m);
        ghost var added := if code.Done? then PageSet(first + n, 512) else {};
        PartlyJoin(old(Now()), g, Now(), old(Live()), live, Live(), pml4, m, pages, added, first, n,
                   512);
        if memory && !code.OutOfMemory? {
          ExactlyLarge(g.tables, pml4, added, first + n, lo, hi);
          ExactlyJoin(old(Now()), g, old(Live()), live, pml4, m, pages, added, first, n, 512, lo, hi);
        }
        pages := pages + added;
        if code.OutOfMemory? {
          memory := false;
          if ready {
            PartlyWiden(old(Now()), Now(), old(Live()), Live(), pml4, m, pages, first, n + 512, first,
                        size / 0x1000);
            return failed, false, pages;
          }
        }
        if !code.Done? { failed := failed + 0x20_0000; }
        SpentStill@turn(this);
        i, n := i + 0x20_0000, n + 512;
      }
      assert n == size / 0x1000;
    }

    /**
     The aligned part of set_range: 4 KiB pages up to the first 2 MiB boundary, 2 MiB pages as far as they go,
     4 KiB pages for the rest.
     */
    method SetAligned(pml4: nat, virt: nat, phys: nat, virtEnd: nat, flags: Flags, ghost m: Request)
      returns (failed: nat, memory: bool, ghost pages: set<nat>)
      requires Valid() && Root(Now(), pml4) && m.other == flags.other && m.present == flags.present
      requires virt < virtEnd && PiecesFrom(m, virt, phys, virtEnd)
      modifies `tables, `level, buddy, buddy.memMap, buddy.freeMatrix, pool
      ensures Valid() && Root(Now(), pml4) && Onwards()
      ensures Partly(old(Now()), Now(), old(Live()), Live(), pml4, m, pages,
                     virt % VIRT_END / 0x1000, (virtEnd - virt) / 0x1000)
      ensures memory || !ready ==> failed + |pages| * 0x1000 == virtEnd - virt
      ensures memory ==> Exactly(old(tables), pml4, pages, virt % VIRT_END / 0x1000, (virtEnd - virt) / 0x1000,
                                 RoundUp(virt % VIRT_END, 0x20_0000) / 0x1000,
                                 RoundDown(virt % VIRT_END + (virtEnd - virt), 0x20_0000) / 0x1000)
      ensures !memory ==> Spent()
    {
      hide Valid, Live, Spent, Partly, Exactly, Ok, Root, CoversRange, CutWord, PieceReady, RoundUp, RoundDown,
           PiecesFrom, TargetOf, Request.Target;
      var c := CutWord(virt, phys, virtEnd);
      var v := virt % VIRT_END;
      ghost var lo, hi := RoundUp(v, 0x20_0000) / 0x1000, RoundDown(v + (virtEnd - virt), 0x20_0000) / 0x1000;
      PiecesLow(m, virt, phys, virtEnd);
      ValidOk(this);
      ghost var first := v / 0x1000;
      ghost var f, live := Now(), Live();
      PartlyStart(f, live, pml4, m, first, 0);
      ExactlyNone(tables, pml4, first, lo, hi);
      failed, memory, pages := SetPiece(pml4, v, phys, c.pre, false, flags, m, f, live, {}, first, 0, lo, hi, true);
      ghost var n := c.pre / 0x1000;
      if memory || !ready {
        var more: nat, ok: bool;
        label large:
        more, ok, pages := SetPiece(pml4, c.largeVirt % VIRT_END, c.largePhys, c.largeSize, true, flags, m,
                                    f, live, pages, first, n, lo, hi, memory);
        SpentStill@large(this);
        failed, n, memory := failed + more, n + c.largeSize / 0x1000, memory && ok;
      }
      if memory || !ready {
        var more: nat, ok: bool;
        label last:
        more, ok, pages := SetPiece(pml4, c.posVirt % VIRT_END, c.posPhys, c.pos, false, flags, m,
                                    f, live, pages, first, n, lo, hi, memory);
        SpentStill@last(this);
        failed, n, memory := failed + more, n + c.pos / 0x1000, memory && ok;
      }
      PartlyWiden(f, Now(), live, Live(), pml4, m, pages, first, n, first, (virtEnd - virt) / 0x1000);
    }

    /** One piece, of small or large pages; an empty piece is skipped. What came before, since `f`, is `done`. */
    method SetPiece(pml4: nat, virt: nat, phys: nat, size: nat, large: bool, flags: Flags, ghost m: Request,
                    ghost f: Forest, ghost live: map<nat, nat>, ghost done: set<nat>, ghost first: nat, ghost n: nat,
                    ghost lo: nat, ghost hi: nat, ghost so: bool)
      returns (failed: nat, memory: bool, ghost pages: set<nat>)
      requires Valid() && Root(Now(), pml4) && size % 0x1000 == 0
      requires m.other == flags.other && m.present == flags.present
      requires PieceReady(m, virt, phys, size, large, first, n, lo, hi)
      requires Partly(f, Now(), live, Live(), pml4, m, done, first, n)
      requires so ==> Exactly(f.tables, pml4, done, first, n, lo, hi)
      modifies `tables, `level, buddy, buddy.memMap, buddy.freeMatrix, pool
      ensures Valid() && Root(Now(), pml4) && Onwards()
      ensures Partly(f, Now(), live, Live(), pml4, m, pages, first, n + size / 0x1000)
      ensures memory || !ready ==> failed + |pages| * 0x1000 == |done| * 0x1000 + size
      ensures memory && so ==> Exactly(f.tables, pml4, pages, first, n + size / 0x1000, lo, hi)
      ensures !memory ==> Spent()
    {
      hide Valid, Live, Spent, Partly, Exactly, Ok, Root, CoversRange;
      if size == 0 { return 0, true, done; }
      ghost var g, before := Now(), Live();
      ghost var added;
      PieceFits(m, virt, size);
      if large {
        failed, memory, added := SetLargePages(pml4, virt, phys, size, flags, m, lo, hi);
      } else {
        failed, memory, added := SetPages(pml4, virt, phys, size, flags, m, lo, hi);
      }
      PartlyJoin(f, g, Now(), live, before, Live(), pml4, m, done, added, first, n, size / 0x1000);
      PartlyParts(g, Now(), before, Live(), pml4, m, added, first + n, size / 0x1000);
      if memory && so { ExactlyJoin(f, g, live, before, pml4, m, done, added, first, n, size / 0x1000, lo, hi); }
      pages := done + added;
    }

    /**
     set_range, on 64-bit addresses: mixed page sizes; the parts of a page at either end of the range count as failed.
     Which range that is, with the roundings of the code wrapping around, Effective says.
     */
    method SetRange(pml4: nat, virt: nat, phys: nat, size: nat, flags: Flags)
      returns (failed: nat, memory: bool, ghost pages: set<nat>)
      requires Valid() && Root(Now(), pml4)
      requires virt < WORD && phys < WORD && size < WORD && InSpace(Effective(virt, phys, size))
      modifies `tables, `level, buddy, buddy.memMap, buddy.freeMatrix, pool
      ensures Valid() && Root(Now(), pml4) && Onwards()
      ensures var e := Low(Effective(virt, phys, size));
        && MapsInside(old(Now()), Now(), old(Live()), Live(), pml4, e.virt, e.phys, e.size, flags,
                      pages)
        && (memory && LargeAgree(virt, phys) ==> MapsAll(old(tables), pml4, e.virt, e.size, true, pages))
      ensures memory || !ready ==> failed + |pages| * 0x1000 == size
      ensures !LargeAgree(virt, phys) ==> pages == {} && Now() == old(Now()) && Live() == old(Live())
      ensures !memory ==> Spent()
    {
      hide Valid, Live, Spent, Partly, Exactly, MapsInside, MapsAll, Ok, Root, CoversRange, RoundUp, RoundDown,
           Effective, InSpace, TrimWord, Low, PiecesFrom;
      ghost var e := Low(Effective(virt, phys, size));
      ValidOk(this);
      MapsNothing(Now(), Live(), pml4, e.virt, e.phys, e.size, flags);
      if !LargeAgree(virt, phys) { return size, true, {}; }
      SameResidue(virt, phys);
      var t := TrimWord(virt, size);
      TrimIs(virt, phys, size);
      Trimmed(virt, phys, size, flags);
      if t.start >= t.end {
        NothingInside(tables, pml4, e.virt, e.size, true);
        return size, true, {};
      }
      ghost var f, live, m := Now(), Live(), RequestFor(e.virt, e.phys, e.size, flags);
      failed, memory, pages := SetAligned(pml4, t.start, (phys + t.offset) % WORD, t.end, flags, m);
      MapsWhenPartly(f, Now(), live, Live(), pml4, e.virt, e.phys, e.size, flags, pages);
      if memory { AllWhenExactly(f.tables, pml4, e.virt, e.size, true, pages); }
      failed := failed + t.offset + t.tail;
    }

    /**
     vmm_map on 64-bit addresses: KERN_PML4 stands for the kernel's PML4; a null or misaligned pointer is refused with
     SIZE_MAX, and nothing else is.
     */
    method Map(space: Space, virt: nat, phys: nat, size: nat, flags: Flags)
      returns (failed: nat, memory: bool, ghost pages: set<nat>)
      requires Valid() && virt < WORD && phys < WORD && size < WORD && InSpace(Effective(virt, phys, size))
      requires space == KernPml4 && kernel % 0x1000 == 0 ==> Root(Now(), kernel)
      requires space.Pml4? && space.addr % 0x1000 == 0 ==> Root(Now(), space.addr)
      modifies `tables, `level, buddy, buddy.memMap, buddy.freeMatrix, pool
      ensures Valid() && Onwards()
      ensures space == KernPml4 && kernel % 0x1000 == 0 ==>
        MapCall(old(Now()), Now(), old(Live()), Live(), kernel, virt, phys, size, flags, pages, memory)
      ensures space.Pml4? && space.addr % 0x1000 == 0 ==>
        MapCall(old(Now()), Now(), old(Live()), Live(), space.addr, virt, phys, size, flags, pages, memory)
      ensures space == NullPml4 || (space == KernPml4 && kernel % 0x1000 != 0)
              || (space.Pml4? && space.addr % 0x1000 != 0) ==>
        failed == WORD - 1 && memory && pages == {} && Now() == old(Now()) && Live() == old(Live())
      ensures !(space == NullPml4 || (space == KernPml4 && kernel % 0x1000 != 0)
                || (space.Pml4? && space.addr % 0x1000 != 0)) ==>
        (memory || !ready ==> failed + |pages| * 0x1000 == size) && (!memory ==> Spent())
    {
      hide Valid, Live, Spent, MapCall, Root, Effective, InSpace;
      var pml4 := kernel;
      match space {
        case KernPml4 =>
        case NullPml4 => return SIZE_MAX, true, {};
        case Pml4(addr) => pml4 := addr;
      }
      if pml4 % 0x1000 != 0 { return SIZE_MAX, true, {}; }
      failed, memory, pages := MapInto(pml4, virt, phys, size, flags);
    }

    /**
     The rest of vmm_map. When `virt` and `phys` agree modulo 2 MiB, large pages are used where they fit; when they
     agree only modulo 4 KiB everything goes into 4 KiB pages; otherwise nothing is mapped. The walk looks at the low
     48 bits of an address, and the range set, see Effective, is taken not to cross a multiple of 2^48.
     */
    method MapInto(pml4: nat, virt: nat, phys: nat, size: nat, flags: Flags)
      returns (failed: nat, memory: bool, ghost pages: set<nat>)
      requires Valid() && Root(Now(), pml4)
      requires virt < WORD && phys < WORD && size < WORD && InSpace(Effective(virt, phys, size))
      modifies `tables, `level, buddy, buddy.memMap, buddy.freeMatrix, pool
      ensures Valid() && Root(Now(), pml4) && Onwards()
      ensures MapCall(old(Now()), Now(), old(Live()), Live(), pml4, virt, phys, size, flags, pages, memory)
      ensures memory || !ready ==> failed + |pages| * 0x1000 == size
      ensures !memory ==> Spent()
    {
      hide Valid, Live, Spent, Partly, Exactly, MapsInside, MapsAll, Ok, Root, CoversRange, RoundUp, RoundDown,
           Effective, InSpace, TrimWord, Low;
      if LargeAgree(virt, phys) {
        SameResidue(virt, phys);
        failed, memory, pages := SetRange(pml4, virt, phys, size, flags);
        return;
      }
      ghost var e := Low(Effective(virt, phys, size));
      ValidOk(this);
      MapsNothing(Now(), Live(), pml4, e.virt, e.phys, e.size, flags);
      if !PagesAgree(virt, phys) { return size, true, {}; }
      var t := TrimWord(virt, size);
      TrimIs(virt, phys, size);
      Trimmed(virt, phys, size, flags);
      if t.start >= t.end {
        NothingInside(tables, pml4, e.virt, e.size, false);
        return size, true, {};
      }
      ghost var f, live, m := Now(), Live(), RequestFor(e.virt, e.phys, e.size, flags);
      failed, memory, pages := SetPages(pml4, t.start % VIRT_END, (phys + t.offset) % WORD, t.end - t.start, flags, m,
                                        0, 0);
      MapsWhenPartly(f, Now(), live, Live(), pml4, e.virt, e.phys, e.size, flags, pages);
      if memory { AllWhenExactly(f.tables, pml4, e.virt, e.size, false, pages); }
      failed := failed + t.offset + t.tail;
    }
  }

  /** Nothing that was spent is there again. */
  twostate lemma SpentStill(mmu: Mmu)
    requires old(mmu.ready) == mmu.ready && mmu.Onwards()
    ensures !mmu.ready && old(mmu.Spent()) ==> mmu.Spent()
  {
    ghost var was := old(mmu.pool.poolEnd);
    forall a: nat | Bootmem.PageFrom(mmu.pool.table, mmu.pool.poolEnd, a)
      ensures Bootmem.PageFrom(mmu.pool.table, was, a)
    {
    }
  }

  const SIZE_MAX: nat := WORD - 1

  /** The table argument of the public calls. */
  datatype Space = KernPml4 | NullPml4 | Pml4(addr: nat)

  lemma {:induction false} ValidOk(mmu: Mmu)
    requires mmu.Valid()
    ensures Ok(mmu.Now())
  {
  }

  ghost function RequestFor(virt: nat, phys: nat, size: nat, flags: Flags): Request {
    Request(virt, phys, flags.other, Tops(virt / Span(4), (if size > 0 then virt + size - 1 else virt) / Span(4)),
            flags.present)
  }

  /**
   What a call of vmm_map with table `u` does: the whole pages `pages` of the range, as 64-bit arithmetic takes it, are
   mapped; if there was memory for tables these are all that could be; if the two sides are not in step nothing happens.
   */
  ghost predicate MapCall(f: Forest, g: Forest, live: map<nat, nat>, live': map<nat, nat>, u: nat, virt: nat, phys: nat,
                          size: nat, flags: Flags, pages: set<nat>, memory: bool) {
    var e := Low(Effective(virt, phys, size));
    && Root(g, u) && MapsInside(f, g, live, live', u, e.virt, e.phys, e.size, flags, pages)
    && (memory && PagesAgree(virt, phys) ==> MapsAll(f.tables, u, e.virt, e.size, LargeAgree(virt, phys), pages))
    && (!PagesAgree(virt, phys) ==> pages == {} && g == f && live' == live)
  }

  /** 2 MiB slot number `s` has no byte of the range. */
  predicate SlotOutside(virt: nat, size: nat, s: nat) {
    s * 0x20_0000 + 0x20_0000 <= virt || virt + size <= s * 0x20_0000
  }

  /** Slots that have no byte of the range are taken exactly when they were. */
  ghost predicate SlotsLeft(f: Forest, g: Forest, u: nat, virt: nat, size: nat) {
    forall w: nat :: w < VIRT_END && SlotOutside(virt, size, w / 0x20_0000) ==>
      Taken(g.tables, u, 4, w) == Taken(f.tables, u, 4, w)
  }

  /** Exactly the pages `pages`, all of them wholly inside the range, were mapped as requested. */
  ghost predicate MapsInside(f: Forest, g: Forest, live: map<nat, nat>, live': map<nat, nat>, u: nat,
                             virt: nat, phys: nat, size: nat, flags: Flags, pages: set<nat>) {
    && Updates(f, g, u, RequestFor(virt, phys, size, flags), pages)
    && GrewByTables(live, live', f.tables, g.tables)
    && SlotsLeft(f, g, u, virt, size)
    && forall q: nat :: q in pages ==> Inside(virt, size, q)
  }

  /** The 2 MiB slot of page `q` lies wholly inside the range. */
  predicate SlotInside(virt: nat, size: nat, q: nat) {
    virt <= q / 512 * 0x20_0000 && q / 512 * 0x20_0000 + 0x20_0000 <= virt + size
  }

  /**
   Of the pages wholly inside the range, `pages` are exactly those that were unmapped; where large pages are used,
   those whose whole slot was empty.
   */
  ghost predicate MapsAll(tables: Tables, u: nat, virt: nat, size: nat, large: bool, pages: set<nat>) {
    forall q: nat :: Inside(virt, size, q) ==>
      (q in pages <==>
        if large && SlotInside(virt, size, q) then !Taken(tables, u, 4, q * 0x1000)
        else Translate(tables, u, q * 0x1000).Unmapped?)
  }

  lemma {:induction false} MapsNothing(f: Forest, live: map<nat, nat>, u: nat, virt: nat, phys: nat, size: nat,
                                       flags: Flags)
    requires Ok(f) && Root(f, u)
    ensures MapsInside(f, f, live, live, u, virt, phys, size, flags, {})
  {
    NoUpdate(f, u, RequestFor(virt, phys, size, flags));
    GrewNot(live, f.tables);
  }

  /** The range can be cut into pieces by the code, and its request goes with the low 48 bits of its addresses. */
  ghost predicate PiecesFrom(m: Request, virt: nat, phys: nat, virtEnd: nat) {
    && virt < virtEnd < WORD && virt + 0x20_0000 <= WORD && virt % 0x1000 == 0 && virtEnd % 0x1000 == 0
    && virt % 0x20_0000 == phys % 0x20_0000 && phys < WORD
    && m.Target(virt % VIRT_END) == phys && CoversRange(m.tops, virt % VIRT_END, virtEnd - virt)
  }

  /** The pieces of a range of 64-bit addresses, by the low 48 bits. */
  lemma {:induction false} PiecesLow(m: Request, virt: nat, phys: nat, virtEnd: nat)
    requires PiecesFrom(m, virt, phys, virtEnd)
    ensures var c, v := CutWord(virt, phys, virtEnd), virt % VIRT_END;
      AllReady(m, v, phys, virtEnd - virt, c.(largeVirt := c.largeVirt % VIRT_END, posVirt := c.posVirt % VIRT_END),
               RoundUp(v, 0x20_0000) / 0x1000, RoundDown(v + (virtEnd - virt), 0x20_0000) / 0x1000)
  {
    hide Cut, CutWord, CoversRange, AllReady, RoundUp, RoundDown, TargetOf, Request.Target;
    var v := virt % VIRT_END;
    var base, end := virt - v, v + (virtEnd - virt);
    CutLow(virt, phys, virtEnd);
    Window(virt);
    LowResidues(virt, virtEnd);
    PiecesReady(m, v, phys, end);
    ReadyLow(m, base, v, phys, virtEnd - virt, Cut(v, phys, end), RoundUp(v, 0x20_0000) / 0x1000,
             RoundDown(end, 0x20_0000) / 0x1000);
  }

  lemma {:induction false} ReadyLow(m: Request, base: nat, v: nat, phys: nat, size: nat, d: Pieces, lo: nat, hi: nat)
    requires base % VIRT_END == 0 && AllReady(m, v, phys, size, d, lo, hi)
    ensures AllReady(m, v, phys, size,
                     d.(largeVirt := (base + d.largeVirt) % VIRT_END, posVirt := (base + d.posVirt) % VIRT_END), lo, hi)
  {
    hide PieceReady;
    PieceLow(m, base, d.largeVirt, d.largePhys, d.largeSize, true, v / 0x1000, d.pre / 0x1000, lo, hi);
    PieceLow(m, base, d.posVirt, d.posPhys, d.pos, false, v / 0x1000, d.pre / 0x1000 + d.largeSize / 0x1000, lo, hi);
  }

  /** The pieces computed are the pieces meant of the range moved down to its low 48 bits. */
  lemma {:induction false} CutLow(virt: nat, phys: nat, virtEnd: nat)
    requires virt < virtEnd < WORD && virt + 0x20_0000 <= WORD && virt % 0x20_0000 == phys % 0x20_0000 && phys < WORD
    ensures var v := virt % VIRT_END; var base := virt - v; var d := Cut(v, phys, v + (virtEnd - virt));
      base >= 0 && CutWord(virt, phys, virtEnd) == d.(largeVirt := base + d.largeVirt, posVirt := base + d.posVirt)
  {
    hide Cut, CutWord;
    var v := virt % VIRT_END;
    Window(virt);
    CutIff(virt, phys, virtEnd);
    CutShift(virt - v, v, phys, v + (virtEnd - virt));
  }

  lemma {:induction false} LowResidues(virt: nat, virtEnd: nat)
    requires virt < virtEnd
    ensures virt % VIRT_END % 0x1000 == virt % 0x1000 && virt % VIRT_END % 0x20_0000 == virt % 0x20_0000
    ensures (virt % VIRT_END + (virtEnd - virt)) % 0x1000 == virtEnd % 0x1000
  {
    var v := virt % VIRT_END;
    LowResidue(virt);
    Window(virt);
    SmallResidueSum(virt - v, v + (virtEnd - virt));
  }

  lemma {:induction false} PieceLow(m: Request, base: nat, w: nat, phys: nat, size: nat, large: bool, first: nat,
                                    n: nat, lo: nat, hi: nat)
    requires base % VIRT_END == 0 && PieceReady(m, w, phys, size, large, first, n, lo, hi)
    ensures PieceReady(m, (base + w) % VIRT_END, phys, size, large, first, n, lo, hi)
  {
    if size > 0 { WindowAt(base, w); }
    hide Request.Target;
  }

  /** The effective range, trimmed to whole pages, with the request restricted to them. */
  lemma {:induction false} Trimmed(virt: nat, phys: nat, size: nat, flags: Flags)
    requires virt < WORD && phys < WORD && size < WORD && PagesAgree(virt, phys) && InSpace(Effective(virt, phys, size))
    ensures var e, t := Low(Effective(virt, phys, size)), TrimWord(virt, size);
      var m := RequestFor(e.virt, e.phys, e.size, flags);
      t.start < t.end ==>
        && PieceReady(m, t.start % VIRT_END, (phys + t.offset) % WORD, t.end - t.start, false,
                      t.start % VIRT_END / 0x1000, 0, 0, 0)
        && (LargeAgree(virt, phys) ==> PiecesFrom(m, t.start, (phys + t.offset) % WORD, t.end))
        && (t.end - t.start) % 0x1000 == 0
  {
    hide RoundUp, RoundDown, Effective, TrimWord, TargetOf;
    var e, t := Low(Effective(virt, phys, size)), TrimWord(virt, size);
    var m := RequestFor(e.virt, e.phys, e.size, flags);
    if t.start < t.end {
      var start, end := RoundUp(e.virt, 0x1000), RoundDown(e.virt + e.size, 0x1000);
      TrimIs(virt, phys, size);
      EffectiveAgrees(virt, phys, size);
      RoundUpIs(e.virt, 0x1000);
      RoundDownIs(e.virt + e.size, 0x1000);
      PieceCovered(m, e.virt, e.size, start, end - start);
      DifferencePages(end, start);
      TargetResidue(e.virt, e.phys, start);
      StartsAlike(t.start, t.end, start, end);
    }
  }

  lemma {:induction false} StartsAlike(a: nat, b: nat, start: nat, end: nat)
    requires a < b && a % VIRT_END == start < end && b - a == end - start && start % 0x1000 == 0 && end % 0x1000 == 0
    ensures a % 0x1000 == 0 && b % 0x1000 == 0 && a % 0x20_0000 == start % 0x20_0000
  {
    LowResidue(a);
    Window(a);
    SmallResidueSum(a - start, end);
  }

  lemma {:induction false} MapsWhenPartly(f: Forest, g: Forest, live: map<nat, nat>, live': map<nat, nat>, u: nat,
                                          virt: nat, phys: nat, size: nat, flags: Flags, pages: set<nat>)
    requires var start, end := RoundUp(virt, 0x1000), RoundDown(virt + size, 0x1000);
      start < end && Partly(f, g, live, live', u, RequestFor(virt, phys, size, flags), pages, start / 0x1000,
                            (end - start) / 0x1000)
    ensures MapsInside(f, g, live, live', u, virt, phys, size, flags, pages)
  {
    var start, end := RoundUp(virt, 0x1000), RoundDown(virt + size, 0x1000);
    RoundUpIs(virt, 0x1000);
    RoundDownIs(virt + size, 0x1000);
    hide Updates, GrewByTables, SlotsKept, RoundUp, RoundDown;
    SlotsWhenKept(f, g, u, virt, size, start, end);
    forall q: nat | q in pages ensures Inside(virt, size, q) {
      WholePages(virt, size, q);
    }
  }

  lemma {:induction false} SlotsWhenKept(f: Forest, g: Forest, u: nat, virt: nat, size: nat, start: nat, end: nat)
    requires virt <= start < end <= virt + size && start % 0x1000 == 0 && end % 0x1000 == 0
    requires SlotsKept(f, g, u, start / 0x1000, (end - start) / 0x1000)
    ensures SlotsLeft(f, g, u, virt, size)
  {
    hide Taken;
    assert (end - start) / 0x1000 == end / 0x1000 - start / 0x1000;
    forall w: nat | w < VIRT_END && SlotOutside(virt, size, w / 0x20_0000)
      ensures Apart(w / 0x20_0000, start / 0x1000, (end - start) / 0x1000)
    {
    }
  }

  /** The large part of the trimmed range is the slots wholly inside the range. */
  lemma {:induction false} AllWhenExactly(tables: Tables, u: nat, virt: nat, size: nat, large: bool, pages: set<nat>)
    requires var start, end := RoundUp(virt, 0x1000), RoundDown(virt + size, 0x1000);
      start < end && Exactly(tables, u, pages, start / 0x1000, (end - start) / 0x1000,
                             if large then RoundUp(start, 0x20_0000) / 0x1000 else 0,
                             if large then RoundDown(end, 0x20_0000) / 0x1000 else 0)
    ensures MapsAll(tables, u, virt, size, large, pages)
  {
    hide RoundUp, RoundDown, Translate, Taken;
    forall q: nat | Inside(virt, size, q)
      ensures q in pages <==> if large && SlotInside(virt, size, q) then !Taken(tables, u, 4, q * 0x1000)
                              else Translate(tables, u, q * 0x1000).Unmapped?
    {
      WholePages(virt, size, q);
      if large { WholeSlots(virt, size, q); }
    }
  }

  lemma {:induction false} WholeSlots(virt: nat, size: nat, q: nat)
    requires Inside(virt, size, q)
    ensures var start, end := RoundUp(virt, 0x1000), RoundDown(virt + size, 0x1000);
      RoundUp(start, 0x20_0000) / 0x1000 <= q < RoundDown(end, 0x20_0000) / 0x1000 <==> SlotInside(virt, size, q)
  {
    var start, end := RoundUp(virt, 0x1000), RoundDown(virt + size, 0x1000);
    var slot := q / 512 * 0x20_0000;
    hide RoundUp, RoundDown;
    RoundUpIs(start, 0x20_0000);
    RoundDownIs(end, 0x20_0000);
    SlotBounds(RoundUp(start, 0x20_0000), RoundDown(end, 0x20_0000), q);
    SlotRounded(virt, virt + size, q / 512);
  }

  lemma {:induction false} SlotRounded(v: nat, w: nat, s: nat)
    ensures RoundUp(RoundUp(v, 0x1000), 0x20_0000) <= s * 0x20_0000 <==> v <= s * 0x20_0000
    ensures s * 0x20_0000 + 0x20_0000 <= RoundDown(RoundDown(w, 0x1000), 0x20_0000) <==> s * 0x20_0000 + 0x20_0000 <= w
  {
    var x, y := s * 0x20_0000, (s + 1) * 0x20_0000;
    assert x % 0x20_0000 == 0 && y % 0x20_0000 == 0;
    LargeIsPages(x);
    LargeIsPages(y);
    hide RoundUp, RoundDown;
    RoundedBelow(v, 0, 0x1000, x);
    RoundedBelow(RoundUp(v, 0x1000), 0, 0x20_0000, x);
    RoundedBelow(0, w, 0x1000, y);
    RoundedBelow(0, RoundDown(w, 0x1000), 0x20_0000, y);
  }

  /** Between two multiples of 2 MiB slots lie wholly or not at all. */
  lemma {:induction false} SlotBounds(a: nat, b: nat, q: nat)
    requires a % 0x20_0000 == 0 && b % 0x20_0000 == 0
    ensures a / 0x1000 <= q < b / 0x1000 <==> a <= q / 512 * 0x20_0000 && q / 512 * 0x20_0000 + 0x20_0000 <= b
  {
    assert a / 0x1000 == a / 0x20_0000 * 512 && b / 0x1000 == b / 0x20_0000 * 512;
  }

  lemma {:induction false} NothingInside(tables: Tables, u: nat, virt: nat, size: nat, large: bool)
    requires RoundUp(virt, 0x1000) >= RoundDown(virt + size, 0x1000)
    ensures MapsAll(tables, u, virt, size, large, {})
  {
    hide RoundUp, RoundDown, Translate, Taken, SlotInside;
    forall q: nat ensures !Inside(virt, size, q) {
      WholePages(virt, size, q);
    }
  }

  lemma {:induction false} AllPages(virt: nat, n: nat, pages: set<nat>)
    requires virt % 0x1000 == 0 && |pages| == n && forall q: nat :: q in pages ==> Inside(virt, n * 0x1000, q)
    ensures pages == PageSet(virt / 0x1000, n)
  {
    forall q | q in pages ensures q in PageSet(virt / 0x1000, n) {
      assert Inside(virt, n * 0x1000, q);
    }
    SubsetWhole(pages, PageSet(virt / 0x1000, n));
  }

  // ----- What mapping means for other address spaces

  /** Mapping into the lower half of `u` changes no translation of another root, and gives `u` no kernel-half entry. */
  lemma {:induction false} MapIsIsolated(f: Forest, g: Forest, live: map<nat, nat>, live': map<nat, nat>, u: nat,
                                         virt: nat, phys: nat, size: nat, flags: Flags, pages: set<nat>)
    requires MapsInside(f, g, live, live', u, virt, phys, size, flags, pages) && virt + size <= VIRT_END / 2
    requires virt < VIRT_END / 2
    ensures forall r: nat, w: nat :: Root(f, r) && r != u && w < VIRT_END ==>
      Translate(g.tables, r, w) == Translate(f.tables, r, w)
    ensures AddsNoKernelSlot(f, g, u)
    ensures forall k: nat, r: nat :: Root(f, k) && Root(f, r) && Agrees(f, k, r) ==> Agrees(g, k, r)
  {
    var m := RequestFor(virt, phys, size, flags);
    LowerTops(virt, size);
    LowerHalfAddsNoKernelSlot(f, g, u, m, pages);
    hide Updates, Translate, Root, AddsNoKernelSlot, Agrees;
    forall r: nat, w: nat | Root(f, r) && r != u && w < VIRT_END
      ensures Translate(g.tables, r, w) == Translate(f.tables, r, w)
    {
      Isolation(f, g, u, m, pages, r, w);
    }
    forall k: nat, r: nat | Root(f, k) && Root(f, r) && Agrees(f, k, r) ensures Agrees(g, k, r) {
      AgreementKept(f, g, u, m, pages, k, r);
    }
  }

  lemma {:induction false} LowerTops(virt: nat, size: nat)
    requires virt + size <= VIRT_END / 2 && virt < VIRT_END / 2
    ensures (if size > 0 then virt + size - 1 else virt) / Span(4) < KERNEL_HALF
  {
  }
}
