/** The FAT32 reader: a one-sector cache of the FAT, directory search, path lookup and file reading. */
module Fat {
  import opened Words
  import opened FatDisk

  datatype Cache = Cache(valid: bool, abar: nat, port: nat, lba: nat, fat: nat, fatSectors: nat, sectorNo: nat,
                         entry: Sector)

  predicate SameKey(d: Dev, e: Dev) {
    d.abar == e.abar && d.port == e.port && d.lba == e.lba && d.fat == e.fat && d.fatSectors == e.fatSectors
  }

  /** The cache was filled for a volume with the identification of `dev`. */
  predicate For(cache: Cache, dev: Dev) {
    cache.abar == dev.abar && cache.port == dev.port && cache.lba == dev.lba && cache.fat == dev.fat
      && cache.fatSectors == dev.fatSectors
  }

  /** fat_cache_is_stale */
  predicate Stale(cache: Cache, dev: Dev, sectorNo: nat) {
    !cache.valid || !For(cache, dev) || cache.sectorNo != sectorNo
  }

  /** FAT sector `n` of the volume lies within it. */
  predicate InVolume(dev: Dev, n: nat) { W32(W32(dev.fat + n) + 1) <= dev.sectors }

  /** A valid cache holds the disk sector it claims to hold. */
  predicate Agrees(cache: Cache, disk: Disk) {
    cache.valid ==>
      var at := (cache.abar, cache.port, W32(cache.lba + W32(cache.fat + cache.sectorNo)));
      at in disk && disk[at] == cache.entry
  }

  lemma {:induction false} OneSector(disk: Disk, dev: Dev, lba: nat)
    ensures var at := (dev.abar, dev.port, W32(dev.lba + lba)); var r := ReadSectors(disk, dev, lba, 1);
      if W32(lba + 1) > dev.sectors || at !in disk then r.Bad? else r.Good? && r.value == disk[at]
  {
    hide W32;
    var at := (dev.abar, dev.port, W32(dev.lba + lba));
    assert DiskRead(disk, dev.abar, dev.port, W32(dev.lba + lba) + 1, 0) == Good([]);
    if at in disk { assert disk[at] + [] == disk[at]; }
  }

  /** Volumes that fitted the cache fit it still, unless a larger one with the same identification was looked at. */
  ghost predicate Kept(before: Cache, after: Cache, dev: Dev) {
    forall e :: Fits(before, e) && (SameKey(e, dev) ==> dev.sectors <= e.sectors) ==> Fits(after, e)
  }

  lemma {:induction false} KeptTrans(a: Cache, b: Cache, c: Cache, dev: Dev)
    requires Kept(a, b, dev) && Kept(b, c, dev)
    ensures Kept(a, c, dev)
  {
    hide Fits;
  }

  lemma {:induction false} KeptSelf(a: Cache, b: Cache, dev: Dev)
    requires Kept(a, b, dev) && Fits(a, dev)
    ensures Fits(b, dev)
  {
    hide Fits;
    assert SameKey(dev, dev);
  }

  /** A sector that cannot be fetched gives no direct answer either. */
  lemma {:induction false} DirectOutside(disk: Disk, dev: Dev, c: nat)
    ensures ReadSectors(disk, dev, W32(dev.fat + c / 128), 1).Bad? ==> NextDirect(disk, dev, c) == Bad
  {
  }

  /**
   A hit gives the FAT entry on the disk; it differs from a direct read exactly when the volume is too small for it.
   */
  lemma {:induction false} HitAgrees(cache: Cache, disk: Disk, dev: Dev, c: nat)
    requires Agrees(cache, disk) && !Stale(cache, dev, c / 128)
    ensures InVolume(dev, c / 128) ==> NextDirect(disk, dev, c) == Good(Word(cache.entry, c % 128))
    ensures !InVolume(dev, c / 128) ==> NextDirect(disk, dev, c) == Bad
  {
    OneSector(disk, dev, W32(dev.fat + c / 128));
    hide W32;
  }

  /** No sector of `dev` is cached that lies beyond its end, which one cached for a larger volume could. */
  predicate Fits(cache: Cache, dev: Dev) {
    cache.valid && For(cache, dev) ==> InVolume(dev, cache.sectorNo)
  }

  class Reader {
    const disk: Disk
    var cache: Cache

    ghost predicate Valid()
      reads this
    {
      Agrees(cache, disk)
    }

    constructor (disk: Disk)
      ensures Valid() && this.disk == disk && forall d :: Fits(cache, d)
    {
      this.disk := disk;
      cache := Cache(false, 0, 0, 0, 0, 0, 0, seq(512, _ => 0));
    }

    /** fat_cache_fetch; a read that fails leaves the cache as it was. */
    method Fetch(dev: Dev, sectorNo: nat) returns (ok: bool)
      requires Valid()
      modifies this
      ensures Valid() && (ok <==> ReadSectors(disk, dev, W32(dev.fat + sectorNo), 1).Good?)
      ensures ok ==> !Stale(cache, dev, sectorNo) && InVolume(dev, sectorNo)
      ensures !ok ==> cache == old(cache)
    {
      OneSector(disk, dev, W32(dev.fat + sectorNo));
      hide W32;
      var r := ReadSectors(disk, dev, W32(dev.fat + sectorNo), 1);
      if r.Bad? { return false; }
      cache := Cache(true, dev.abar, dev.port, dev.lba, dev.fat, dev.fatSectors, sectorNo, r.value);
      return true;
    }

    /**
     fat_get_next_cluster, after any lookups on any volumes: the answer is the direct one, except exactly when a
     sector beyond the end of the volume is answered from the cache. That does not happen as long as no larger volume
     with the same identification is looked at.
     */
    method NextCluster(dev: Dev, c: nat) returns (r: Outcome<nat>)
      requires Valid()
      modifies this
      ensures Valid()
      ensures r == NextDirect(disk, dev, c) <==> old(Stale(cache, dev, c / 128)) || InVolume(dev, c / 128)
      ensures old(Fits(cache, dev)) ==> r == NextDirect(disk, dev, c)
      ensures Kept(old(cache), cache, dev)
    {
      hide W32, Word, NextDirect;
      var sectorNo, offset := c / 128, c % 128;
      DirectOutside(disk, dev, c);
      if Stale(cache, dev, sectorNo) {
        var ok := Fetch(dev, sectorNo);
        if !ok { return Bad; }
      }
      HitAgrees(cache, disk, dev, c);
      r := Good(Word(cache.entry, offset));
    }

    /** The loop over the entries of one sector. */
    method SearchSector(s: seq<byte>, target: Name) returns (scan: Scan)
      requires |s| == 512
      ensures scan == ScanList(SectorEntries(s, 0), target)
    {
      var i := 0;
      while i < 16
        invariant 0 <= i <= 16 && ScanList(SectorEntries(s, i), target) == ScanList(SectorEntries(s, 0), target)
      {
        hide EntryAt;
        assert SectorEntries(s, i)[1..] == SectorEntries(s, i + 1);
        scan := ScanEntry(EntryAt(s, i), target);
        if !scan.More? { return; }
        i := i + 1;
      }
      scan := More;
    }

    /** The loop over the sectors of one cluster. */
    method SearchCluster(dev: Dev, lba: nat, target: Name) returns (scan: Scan)
      ensures scan == ScanCluster(disk, dev, lba, 0, target)
    {
      hide ReadSectors, W32, ScanList, SectorEntries;
      var k := 0;
      while k < dev.clusterSectors
        invariant 0 <= k && ScanCluster(disk, dev, lba, k, target) == ScanCluster(disk, dev, lba, 0, target)
        decreases dev.clusterSectors - k
      {
        var r := ReadSectors(disk, dev, W32(lba + k), 1);
        if r.Bad? || |r.value| != 512 { return Failed; }
        scan := SearchSector(r.value, target);
        if !scan.More? { return; }
        k := k + 1;
      }
      scan := More;
    }

    /** fat_file_lookup */
    method FileLookup(dev: Dev, dir: DirEntry, target: Name, ghost n: nat) returns (r: Outcome<DirEntry>)
      requires Valid() && Fits(cache, dev) && LookupEnds(disk, dev, dir, target, n)
      modifies this
      ensures Valid() && Fits(cache, dev) && Kept(old(cache), cache, dev)
      ensures r == Lookup(disk, dev, dir, target, n)
    {
      hide NextDirect, ScanCluster, Valid, Fits, Kept;
      KeptAtFirst(cache, dev);
      if !IsDirectory(dir) { return Bad; }
      var c := dir.cluster;
      ghost var m := n;
      while DataCluster(c)
        invariant Valid() && Fits(cache, dev) && Kept(old(cache), cache, dev)
        invariant SearchEnds(disk, dev, c, target, m)
        invariant ScanChain(disk, dev, c, target, m) == ScanChain(disk, dev, dir.cluster, target, n)
        decreases m
      {
        var scan := SearchCluster(dev, FirstSector(dev, c), target);
        if scan.Found? { return Good(scan.entry); }
        if !scan.More? { return Bad; }
        ghost var before := cache;
        var next := NextCluster(dev, c);
        KeptTrans(old(cache), before, cache, dev);
        KeptSelf(before, cache, dev);
        if next.Bad? { return Bad; }
        c, m := next.value, m - 1;
      }
      return Bad;
    }

    /** fat_path_lookup */
    method PathLookup(dev: Dev, dir: DirEntry, path: seq<byte>, ghost n: nat) returns (r: Outcome<DirEntry>)
      requires Valid() && Fits(cache, dev) && ResolveEnds(disk, dev, dir, Targets(path, 0), n)
      modifies this
      ensures Valid() && Fits(cache, dev) && Kept(old(cache), cache, dev)
      ensures r == Resolve(disk, dev, dir, Targets(path, 0), n)
    {
      hide Valid, NameAt, NextSlash, Lookup, LookupEnds, Targets, Resolve, ResolveEnds, Fits, Kept;
      KeptAtFirst(cache, dev);
      var current, i := dir, 0;
      while i < |path|
        invariant 0 <= i <= |path| && Valid() && Fits(cache, dev) && Kept(old(cache), cache, dev)
        invariant ResolveEnds(disk, dev, current, Targets(path, i), n)
        invariant Resolve(disk, dev, current, Targets(path, i), n) == Resolve(disk, dev, dir, Targets(path, 0), n)
        decreases |path| - i
      {
        var target := ShortNameOf(path, i);
        var j := FindSlash(path, i);
        ghost var rest := Targets(path, if j == |path| then j else j + 1);
        TargetsStep(path, i);
        ResolveStep(disk, dev, current, target, rest, n);
        ghost var before := cache;
        var next := FileLookup(dev, current, target, n);
        KeptTrans(old(cache), before, cache, dev);
        if next.Bad? { return Bad; }
        current := next.value;
        i := if j == |path| then j else j + 1;
      }
      ResolveEnd(disk, dev, current, path, n);
      return Good(current);
    }

    /** fat_read: the bytes put into the caller's buffer. */
    method Read(dev: Dev, path: seq<byte>, ghost n: nat) returns (r: Outcome<seq<byte>>)
      requires Valid() && Fits(cache, dev) && PathEnds(disk, dev, path, n)
      modifies this
      ensures Valid() && Fits(cache, dev) && Kept(old(cache), cache, dev)
      ensures r == ReadPath(disk, dev, path, n)
    {
      hide Valid, Resolve, ResolveEnds, Fits, Kept, Targets, FileData, ReadEnds;
      var file := PathLookup(dev, RootDir(dev), path, n);
      if file.Bad? { return Bad; }
      ghost var before := cache;
      r := ReadChain(dev, file.value.cluster, n);
      KeptTrans(old(cache), before, cache, dev);
    }

    /** The loop of fat_read over the clusters of the file. */
    method ReadChain(dev: Dev, first: nat, ghost n: nat) returns (r: Outcome<seq<byte>>)
      requires Valid() && Fits(cache, dev) && ReadEnds(disk, dev, first, n)
      modifies this
      ensures Valid() && Fits(cache, dev) && Kept(old(cache), cache, dev)
      ensures r == FileData(disk, dev, first, n)
    {
      hide Valid, ClusterAt, NextDirect, Fits, Kept;
      KeptAtFirst(cache, dev);
      var c, data: seq<byte> := first, [];
      ghost var m := n;
      PrependNothing(FileData(disk, dev, first, n));
      while DataCluster(c)
        invariant Valid() && Fits(cache, dev) && Kept(old(cache), cache, dev)
        invariant ReadEnds(disk, dev, c, m) && FileData(disk, dev, first, n) == Prepend(data, FileData(disk, dev, c, m))
        decreases m
      {
        var d := ClusterAt(disk, dev, c);
        if d.Bad? { return Bad; }
        ghost var before := cache;
        var next := NextCluster(dev, c);
        KeptTrans(old(cache), before, cache, dev);
        KeptSelf(before, cache, dev);
        if next.Bad? { return Bad; }
        PrependMore(data, d.value, FileData(disk, dev, next.value, m - 1));
        data := data + d.value;
        c, m := next.value, m - 1;
      }
      assert data + [] == data;
      return Good(data);
    }
  }

  lemma {:induction false} KeptAtFirst(cache: Cache, dev: Dev)
    ensures Kept(cache, cache, dev)
  {
  }

  ghost function Prepend(a: seq<byte>, r: Outcome<seq<byte>>): Outcome<seq<byte>> {
    if r.Bad? then Bad else Good(a + r.value)
  }

  lemma {:induction false} PrependNothing(r: Outcome<seq<byte>>)
    ensures Prepend([], r) == r
  {
    if r.Good? { assert [] + r.value == r.value; }
  }

  lemma {:induction false} PrependMore(a: seq<byte>, b: seq<byte>, r: Outcome<seq<byte>>)
    ensures Prepend(a, Prepend(b, r)) == Prepend(a + b, r)
  {
    if r.Good? { assert a + (b + r.value) == a + b + r.value; }
  }

  lemma {:induction false} TargetsStep(path: seq<byte>, i: nat)
    requires i < |path|
    ensures var j := NextSlash(path, i);
      Targets(path, i) == [NameAt(path, i)] + Targets(path, if j == |path| then j else j + 1)
  {
    hide NameAt, NextSlash;
  }

  lemma {:induction false} ResolveStep(disk: Disk, dev: Dev, dir: DirEntry, target: Name, rest: seq<Name>, n: nat)
    requires ResolveEnds(disk, dev, dir, [target] + rest, n)
    ensures LookupEnds(disk, dev, dir, target, n)
    ensures var next := Lookup(disk, dev, dir, target, n);
      && (next.Bad? ==> Resolve(disk, dev, dir, [target] + rest, n) == Bad)
      && (next.Good? ==> ResolveEnds(disk, dev, next.value, rest, n))
      && (next.Good? ==> Resolve(disk, dev, dir, [target] + rest, n) == Resolve(disk, dev, next.value, rest, n))
  {
    hide Lookup, LookupEnds;
    assert ([target] + rest)[1..] == rest;
  }

  lemma {:induction false} ResolveEnd(disk: Disk, dev: Dev, dir: DirEntry, path: seq<byte>, n: nat)
    ensures ResolveEnds(disk, dev, dir, Targets(path, |path|), n)
    ensures Resolve(disk, dev, dir, Targets(path, |path|), n) == Good(dir)
  {
  }

  /** fat_short_name_to_name_ext, character by character. */
  method ShortNameOf(path: seq<byte>, start: nat) returns (name: Name)
    ensures name == NameAt(path, start)
  {
    var i := if CharAt(path, start) == SLASH then start + 1 else start;
    ghost var from := i;
    var acc: seq<byte> := [];
    while |acc| < 11 && !EndsName(CharAt(path, i))
      invariant |acc| <= 11 && Fill(path, i, acc) == Fill(path, from, [])
      decreases |path| - i
    {
      if path[i] == DOT {
        acc := Field(acc, 8);
      } else {
        acc := acc + [Upper(path[i])];
      }
      i := i + 1;
    }
    name := acc + Blanks(11 - |acc|);
  }

  /** strchr(path, '/') */
  method FindSlash(path: seq<byte>, start: nat) returns (j: nat)
    requires start <= |path|
    ensures j == NextSlash(path, start)
  {
    j := start;
    while j < |path| && path[j] != SLASH
      invariant start <= j <= |path| && NextSlash(path, j) == NextSlash(path, start)
    {
      j := j + 1;
    }
  }

  /** Two volumes that differ only in size: what was cached for the larger is answered for the smaller, too. */
  lemma {:induction false} HitBeyondVolume() returns (cache: Cache, disk: Disk, dev: Dev, c: nat)
    ensures Agrees(cache, disk) && !Stale(cache, dev, c / 128) && NextDirect(disk, dev, c) == Bad
  {
    var s: Sector := seq(512, _ => 0);
    cache := Cache(true, 0, 0, 0, 0, 0, 0, s);
    disk := map[(0, 0, 0) := s];
    dev := Dev(0, 0, 0, 0, 0, 0, 2, 0, 1);
    c := 2;
    HitAgrees(cache, disk, dev, c);
  }
}
