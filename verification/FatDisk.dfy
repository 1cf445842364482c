/** What a FAT32 volume says, read straight from the disk: chains, directories, paths and files. */
module FatDisk {
  import opened Words

  type Sector = s: seq<byte> | |s| == 512 witness seq(512, _ => 0)

  datatype Outcome<T> = Good(value: T) | Bad

  /** A volume: the disk it is on, where it starts there, and where its parts are. */
  datatype Dev = Dev(abar: nat, port: nat, lba: nat, sectors: nat, fat: nat, fatSectors: nat, rootCluster: nat,
                     data: nat, clusterSectors: nat)

  /** Sectors by controller, port and number; a read of any other fails. The disks do not change. */
  type Disk = map<(nat, nat, nat), Sector>

  /** Unsigned 32-bit arithmetic. */
  function W32(x: int): nat { x % U32 }

  function DiskRead(disk: Disk, abar: nat, port: nat, lba: nat, count: nat): Outcome<seq<byte>>
    decreases count
  {
    if count == 0 then Good([])
    else if (abar, port, lba) !in disk then Bad
    else
      var rest := DiskRead(disk, abar, port, lba + 1, count - 1);
      if rest.Bad? then Bad else Good(disk[(abar, port, lba)] + rest.value)
  }

  /** fat_read_sectors: `count` sectors of the volume, unless they reach beyond its end. */
  function ReadSectors(disk: Disk, dev: Dev, lba: nat, count: nat): Outcome<seq<byte>> {
    if W32(lba + count) > dev.sectors then Bad else DiskRead(disk, dev.abar, dev.port, W32(dev.lba + lba), count)
  }

  // ----- Chains

  function Word(s: seq<byte>, i: nat): nat
    requires i < 128 && |s| == 512
  {
    s[4 * i] as int + 0x100 * s[4 * i + 1] as int + 0x1_0000 * s[4 * i + 2] as int + 0x100_0000 * s[4 * i + 3] as int
  }

  /** The FAT entry of cluster `c`, read from the disk. */
  function NextDirect(disk: Disk, dev: Dev, c: nat): Outcome<nat> {
    var r := ReadSectors(disk, dev, W32(dev.fat + c / 128), 1);
    if r.Good? && |r.value| == 512 then Good(Word(r.value, c % 128)) else Bad
  }

  predicate DataCluster(c: nat) { 2 <= c < 0x0FFF_FFF8 }

  /** The chain from `c` comes to its end, or to a FAT entry that cannot be read, within `n` links. */
  predicate Ends(disk: Disk, dev: Dev, c: nat, n: nat)
    decreases n
  {
    DataCluster(c) && NextDirect(disk, dev, c).Good? ==> n > 0 && Ends(disk, dev, NextDirect(disk, dev, c).value, n - 1)
  }

  /** The FAT of the volume has no cycles: every chain ends within `n` links. */
  ghost predicate Acyclic(disk: Disk, dev: Dev, n: nat) {
    forall c: nat :: Ends(disk, dev, c, n)
  }

  function FirstSector(dev: Dev, c: nat): nat { W32(dev.data + W32(c - 2) * dev.clusterSectors) }

  /** Reading the chain from `c` comes to its end, or to something that cannot be read, within `n` links. */
  predicate ReadEnds(disk: Disk, dev: Dev, c: nat, n: nat)
    decreases n
  {
    DataCluster(c) && ClusterAt(disk, dev, c).Good? && NextDirect(disk, dev, c).Good? ==>
      n > 0 && ReadEnds(disk, dev, NextDirect(disk, dev, c).value, n - 1)
  }

  function ClusterAt(disk: Disk, dev: Dev, c: nat): Outcome<seq<byte>> {
    ReadSectors(disk, dev, FirstSector(dev, c), dev.clusterSectors)
  }

  /** The clusters of the chain from `c`, as far as they can be read. */
  function Chain(disk: Disk, dev: Dev, c: nat, n: nat): seq<nat>
    requires ReadEnds(disk, dev, c, n)
    decreases n
  {
    if !DataCluster(c) then []
    else if ClusterAt(disk, dev, c).Bad? || NextDirect(disk, dev, c).Bad? then [c]
    else [c] + Chain(disk, dev, NextDirect(disk, dev, c).value, n - 1)
  }

  /** The data of a chain: what the clusters hold, one after the other, if each of them and each link can be read. */
  function FileData(disk: Disk, dev: Dev, c: nat, n: nat): Outcome<seq<byte>>
    requires ReadEnds(disk, dev, c, n)
    decreases n
  {
    if !DataCluster(c) then Good([])
    else
      var d, next := ClusterAt(disk, dev, c), NextDirect(disk, dev, c);
      if d.Bad? || next.Bad? then Bad
      else
        var rest := FileData(disk, dev, next.value, n - 1);
        if rest.Bad? then Bad else Good(d.value + rest.value)
  }

  function ClusterData(disk: Disk, dev: Dev, c: nat): seq<byte> {
    var d := ClusterAt(disk, dev, c);
    if d.Good? then d.value else []
  }

  function Concat(disk: Disk, dev: Dev, cs: seq<nat>): seq<byte> {
    if cs == [] then [] else ClusterData(disk, dev, cs[0]) + Concat(disk, dev, cs[1..])
  }

  /** Each of the clusters, and the link of each, can be read. */
  predicate AllRead(disk: Disk, dev: Dev, cs: seq<nat>) {
    forall k :: 0 <= k < |cs| ==> ClusterAt(disk, dev, cs[k]).Good? && NextDirect(disk, dev, cs[k]).Good?
  }

  /** A file can be read exactly when all of its chain can, and is the concatenation of the clusters of its chain. */
  lemma {:induction false} FileIsItsClusters(disk: Disk, dev: Dev, c: nat, n: nat)
    requires ReadEnds(disk, dev, c, n)
    ensures FileData(disk, dev, c, n).Good? <==> AllRead(disk, dev, Chain(disk, dev, c, n))
    ensures FileData(disk, dev, c, n).Good? ==>
      FileData(disk, dev, c, n).value == Concat(disk, dev, Chain(disk, dev, c, n))
    decreases n
  {
    hide NextDirect, ClusterAt;
    if DataCluster(c) && ClusterAt(disk, dev, c).Good? && NextDirect(disk, dev, c).Good? {
      var next := NextDirect(disk, dev, c).value;
      FileIsItsClusters(disk, dev, next, n - 1);
      var rest := Chain(disk, dev, next, n - 1);
      assert ([c] + rest)[1..] == rest;
      AllReadMore(disk, dev, c, rest);
    } else if DataCluster(c) {
      assert Chain(disk, dev, c, n)[0] == c;
    }
  }

  lemma {:induction false} AllReadMore(disk: Disk, dev: Dev, c: nat, cs: seq<nat>)
    ensures AllRead(disk, dev, [c] + cs) <==>
      ClusterAt(disk, dev, c).Good? && NextDirect(disk, dev, c).Good? && AllRead(disk, dev, cs)
  {
    hide NextDirect, ClusterAt;
    var more := [c] + cs;
    assert more[0] == c && forall k :: 0 <= k < |cs| ==> cs[k] == more[k + 1];
  }

  /** How many links are allowed for makes no difference. */
  lemma {:induction false} FileDataSame(disk: Disk, dev: Dev, c: nat, n: nat, m: nat)
    requires ReadEnds(disk, dev, c, n) && ReadEnds(disk, dev, c, m)
    ensures FileData(disk, dev, c, n) == FileData(disk, dev, c, m)
    decreases n
  {
    hide NextDirect, ClusterAt;
    if DataCluster(c) && ClusterAt(disk, dev, c).Good? && NextDirect(disk, dev, c).Good? {
      FileDataSame(disk, dev, NextDirect(disk, dev, c).value, n - 1, m - 1);
    }
  }

  // ----- The upper four bits of a FAT entry

  /** An entry without its upper four bits, which are reserved and no part of the cluster number. */
  function Cluster28(e: nat): nat { e % 0x1000_0000 }

  /** An entry that names a cluster, but is taken for the end of the chain because of its upper four bits. */
  predicate Misread(e: nat) { e >= 0x1000_0000 && DataCluster(Cluster28(e)) }

  /** The clusters of the chain from `c`, as far as `n`, with entries taken as they are. */
  function Links(disk: Disk, dev: Dev, c: nat, n: nat): seq<nat>
    decreases n
  {
    if n == 0 || !DataCluster(c) then []
    else [c] + if NextDirect(disk, dev, c).Bad? then [] else Links(disk, dev, NextDirect(disk, dev, c).value, n - 1)
  }

  /** The same with the 28 bits of each entry that count. */
  function Links28(disk: Disk, dev: Dev, c: nat, n: nat): seq<nat>
    decreases n
  {
    var k := Cluster28(c);
    if n == 0 || !DataCluster(k) then []
    else [k] + if NextDirect(disk, dev, k).Bad? then [] else Links28(disk, dev, NextDirect(disk, dev, k).value, n - 1)
  }

  /** One of the first `n` entries of the chain is misread, the one that leads to `c` included. */
  predicate EndsEarly(disk: Disk, dev: Dev, c: nat, n: nat)
    decreases n
  {
    n > 0 && (Misread(c) ||
      (DataCluster(c) && NextDirect(disk, dev, c).Good? && EndsEarly(disk, dev, NextDirect(disk, dev, c).value, n - 1)))
  }

  /** The chain is the one meant, or ends early: that is so exactly when an entry on it is misread. */
  lemma {:induction false} LinksIff(disk: Disk, dev: Dev, c: nat, n: nat)
    ensures Links(disk, dev, c, n) <= Links28(disk, dev, c, n)
    ensures Links(disk, dev, c, n) == Links28(disk, dev, c, n) <==> !EndsEarly(disk, dev, c, n)
    decreases n
  {
    hide NextDirect;
    if n > 0 && DataCluster(c) {
      assert Cluster28(c) == c;
      var next := NextDirect(disk, dev, c);
      if next.Good? {
        LinksIff(disk, dev, next.value, n - 1);
        assert Links(disk, dev, c, n)[1..] == Links(disk, dev, next.value, n - 1);
        assert Links28(disk, dev, c, n)[1..] == Links28(disk, dev, next.value, n - 1);
      }
    }
  }

  lemma {:induction false} ChainIsLinks(disk: Disk, dev: Dev, c: nat, n: nat, m: nat)
    requires ReadEnds(disk, dev, c, n) && FileData(disk, dev, c, n).Good? && n <= m
    ensures Chain(disk, dev, c, n) == Links(disk, dev, c, m)
    decreases n
  {
    hide NextDirect, ClusterAt;
    if DataCluster(c) { ChainIsLinks(disk, dev, NextDirect(disk, dev, c).value, n - 1, m - 1); }
  }

  /** A file that can be read consists of the clusters meant exactly when no entry of its chain is misread. */
  lemma {:induction false} WholeFileIff(disk: Disk, dev: Dev, c: nat, n: nat)
    requires ReadEnds(disk, dev, c, n) && FileData(disk, dev, c, n).Good?
    ensures Chain(disk, dev, c, n) == Links28(disk, dev, c, n + 1) <==> !EndsEarly(disk, dev, c, n + 1)
  {
    ChainIsLinks(disk, dev, c, n, n + 1);
    LinksIff(disk, dev, c, n + 1);
  }

  /** A file of clusters 2 and 5, linked by the entry 0x1000_0005: it is read without its second cluster. */
  lemma {:induction false} EndsEarlyExample() returns (disk: Disk, dev: Dev)
    ensures ReadEnds(disk, dev, 2, 1) && FileData(disk, dev, 2, 1).Good?
    ensures NextDirect(disk, dev, 2) == Good(0x1000_0005)
    ensures Chain(disk, dev, 2, 1) == [2] && Links28(disk, dev, 2, 2) == [2, 5]
  {
    var fat: Sector := seq(512, _ => 0)[8 := 5][11 := 0x10][20 := 0xFF][21 := 0xFF][22 := 0xFF][23 := 0x0F];
    disk := map[(0, 0, 0) := fat, (0, 0, 1) := fat];
    dev := Dev(0, 0, 0, 100, 0, 1, 2, 1, 1);
    assert forall k: nat :: DiskRead(disk, 0, 0, k, 0) == Good([]);
    assert DiskRead(disk, 0, 0, 0, 1) == Good(fat + []) && fat + [] == fat;
    assert NextDirect(disk, dev, 2) == Good(0x1000_0005);
    assert NextDirect(disk, dev, 5) == Good(0x0FFF_FFFF);
    assert DiskRead(disk, 0, 0, 1, 1) == Good(fat + []);
    assert FirstSector(dev, 2) == 1;
    assert ClusterAt(disk, dev, 2).Good?;
    assert !DataCluster(0x1000_0005) && Cluster28(0x1000_0005) == 5;
    assert Links28(disk, dev, 0x1000_0005, 1) == [5];
  }

  // ----- Directories

  type Name = s: seq<byte> | |s| == 11 witness seq(11, _ => 32)

  /** The parts of a directory entry that are used: name and extension, attributes, first cluster. */
  datatype DirEntry = DirEntry(name: Name, attributes: byte, cluster: nat)

  function EntryAt(s: seq<byte>, i: nat): DirEntry
    requires i < 16 && |s| == 512
  {
    var o := 32 * i;
    DirEntry(s[o..o + 11], s[o + 11],
             s[o + 26] as int + 0x100 * s[o + 27] as int + 0x1_0000 * s[o + 20] as int + 0x100_0000 * s[o + 21] as int)
  }

  datatype Scan = Found(entry: DirEntry) | Stopped | Failed | More

  /** A byte read through a plain `char`, which is signed on this target. */
  function AsChar(c: byte): int { if c < 128 then c else c as int - 256 }

  /**
   Entry by entry: the end mark stops the search and long-name entries are passed over. The test for the mark of a
   deleted entry compares a signed character with 0xE5, so it never succeeds; see DeletedIff.
   */
  function ScanEntry(e: DirEntry, target: Name): Scan {
    if e.name[0] == 0 then Stopped
    else if AsChar(e.name[0]) == 0xE5 || e.attributes == 0x0F then More
    else if e.name == target then Found(e)
    else More
  }

  function ScanList(es: seq<DirEntry>, target: Name): Scan {
    if es == [] then More
    else if ScanEntry(es[0], target).More? then ScanList(es[1..], target)
    else ScanEntry(es[0], target)
  }

  lemma {:induction false} ScanAppend(a: seq<DirEntry>, b: seq<DirEntry>, target: Name)
    ensures ScanList(a + b, target) == if ScanList(a, target).More? then ScanList(b, target) else ScanList(a, target)
    decreases |a|
  {
    if a == [] {
      assert a + b == b;
    } else {
      assert (a + b)[1..] == a[1..] + b;
      ScanAppend(a[1..], b, target);
    }
  }

  /** An entry of that name that is no part of a long name. */
  predicate Matches(e: DirEntry, target: Name) { e.name == target && e.attributes != 0x0F }

  /** Entry `k` matches; none before it does, and none of them is the end mark. */
  ghost predicate FirstAtK(es: seq<DirEntry>, target: Name, e: DirEntry, k: nat) {
    && k < |es| && es[k] == e && Matches(e, target)
    && (forall j :: 0 <= j <= k ==> es[j].name[0] != 0) && (forall j :: 0 <= j < k ==> !Matches(es[j], target))
  }

  lemma {:induction false} ScanEntryIs(e: DirEntry, target: Name)
    ensures ScanEntry(e, target).Stopped? <==> e.name[0] == 0
    ensures ScanEntry(e, target).More? <==> e.name[0] != 0 && !Matches(e, target)
    ensures ScanEntry(e, target).Found? <==> e.name[0] != 0 && Matches(e, target)
    ensures ScanEntry(e, target).Found? ==> ScanEntry(e, target).entry == e
  {
  }

  ghost predicate FirstAt(es: seq<DirEntry>, target: Name, e: DirEntry) {
    exists k: nat :: FirstAtK(es, target, e, k)
  }

  lemma {:induction false} FirstShift(es: seq<DirEntry>, target: Name, e: DirEntry)
    requires es != [] && ScanEntry(es[0], target).More?
    ensures FirstAt(es, target, e) <==> FirstAt(es[1..], target, e)
  {
    hide ScanEntry, Matches;
    ScanEntryIs(es[0], target);
    if FirstAt(es, target, e) {
      var k: nat :| FirstAtK(es, target, e, k);
      assert FirstAtK(es[1..], target, e, k - 1);
    }
    if FirstAt(es[1..], target, e) {
      var k: nat :| FirstAtK(es[1..], target, e, k);
      assert forall j :: 0 < j <= k + 1 ==> es[j] == es[1..][j - 1];
      assert FirstAtK(es, target, e, k + 1);
    }
  }

  /** The search finds an entry exactly when it is the first match: nothing before it matches or ends the directory. */
  lemma {:induction false} ScanFindsFirst(es: seq<DirEntry>, target: Name, e: DirEntry)
    ensures ScanList(es, target) == Found(e) <==> FirstAt(es, target, e)
    decreases |es|
  {
    hide ScanEntry, Matches;
    if es == [] {
    } else if ScanEntry(es[0], target).More? {
      ScanFindsFirst(es[1..], target, e);
      FirstShift(es, target, e);
    } else {
      ScanEntryIs(es[0], target);
      if ScanEntry(es[0], target) == Found(e) { assert FirstAtK(es, target, e, 0); }
    }
  }

  /** The search with deleted entries passed over, as meant. */
  function ScanMeant(es: seq<DirEntry>, target: Name): Scan {
    if es == [] then More
    else if es[0].name[0] == 0xE5 || ScanEntry(es[0], target).More? then ScanMeant(es[1..], target)
    else ScanEntry(es[0], target)
  }

  lemma {:induction false} DeletedNeverMatch(es: seq<DirEntry>, target: Name)
    requires target[0] != 0xE5
    ensures ScanMeant(es, target) == ScanList(es, target)
    decreases |es|
  {
    if es != [] {
      DeletedNeverMatch(es[1..], target);
      assert es[0].name[0] == 0xE5 ==> es[0].name != target;
    }
  }

  /** Not passing over deleted entries shows exactly for names that start with the byte 0xE5. */
  lemma {:induction false} DeletedIff(target: Name)
    ensures (forall es :: ScanMeant(es, target) == ScanList(es, target)) <==> target[0] != 0xE5
  {
    if target[0] != 0xE5 {
      forall es ensures ScanMeant(es, target) == ScanList(es, target) { DeletedNeverMatch(es, target); }
    } else {
      var es := DeletedMatches(target);
      assert ScanMeant(es, target) != ScanList(es, target);
    }
  }

  /** A deleted entry of that name is found. */
  lemma {:induction false} DeletedMatches(target: Name) returns (es: seq<DirEntry>)
    requires target[0] == 0xE5
    ensures ScanMeant(es, target) == More && ScanList(es, target).Found?
  {
    es := [DirEntry(target, 0, 2)];
    assert es[1..] == [] && ScanMeant([], target) == More;
    assert AsChar(0xE5) != 0xE5 && ScanEntry(es[0], target) == Found(es[0]);
  }

  function SectorEntries(s: seq<byte>, i: nat): (es: seq<DirEntry>)
    requires |s| == 512 && i <= 16
    decreases 16 - i
  {
    if i == 16 then [] else [EntryAt(s, i)] + SectorEntries(s, i + 1)
  }

  /** Sector by sector through a cluster. */
  function ScanCluster(disk: Disk, dev: Dev, lba: nat, k: nat, target: Name): Scan
    decreases dev.clusterSectors - k
  {
    if k >= dev.clusterSectors then More
    else
      var r := ReadSectors(disk, dev, W32(lba + k), 1);
      if r.Bad? || |r.value| != 512 then Failed
      else
        var scan := ScanList(SectorEntries(r.value, 0), target);
        if scan.More? then ScanCluster(disk, dev, lba, k + 1, target) else scan
  }

  /** The search from cluster `c` on comes to a result within `n` links. */
  predicate SearchEnds(disk: Disk, dev: Dev, c: nat, target: Name, n: nat)
    decreases n
  {
    DataCluster(c) && ScanCluster(disk, dev, FirstSector(dev, c), 0, target).More? && NextDirect(disk, dev, c).Good? ==>
      n > 0 && SearchEnds(disk, dev, NextDirect(disk, dev, c).value, target, n - 1)
  }

  /** Cluster by cluster along the chain of a directory. */
  function ScanChain(disk: Disk, dev: Dev, c: nat, target: Name, n: nat): Outcome<DirEntry>
    requires SearchEnds(disk, dev, c, target, n)
    decreases n
  {
    if !DataCluster(c) then Bad
    else
      match ScanCluster(disk, dev, FirstSector(dev, c), 0, target)
      case Found(e) => Good(e)
      case More =>
        var next := NextDirect(disk, dev, c);
        if next.Bad? then Bad else ScanChain(disk, dev, next.value, target, n - 1)
      case _ => Bad
  }

  lemma {:induction false} ScanChainSame(disk: Disk, dev: Dev, c: nat, target: Name, n: nat, m: nat)
    requires SearchEnds(disk, dev, c, target, n) && SearchEnds(disk, dev, c, target, m)
    ensures ScanChain(disk, dev, c, target, n) == ScanChain(disk, dev, c, target, m)
    decreases n
  {
    hide NextDirect, ScanCluster;
    if DataCluster(c) && ScanCluster(disk, dev, FirstSector(dev, c), 0, target).More?
      && NextDirect(disk, dev, c).Good? {
      ScanChainSame(disk, dev, NextDirect(disk, dev, c).value, target, n - 1, m - 1);
    }
  }

  predicate IsDirectory(e: DirEntry) { e.attributes / 0x10 % 2 == 1 }

  predicate LookupEnds(disk: Disk, dev: Dev, dir: DirEntry, target: Name, n: nat) {
    IsDirectory(dir) ==> SearchEnds(disk, dev, dir.cluster, target, n)
  }

  function Lookup(disk: Disk, dev: Dev, dir: DirEntry, target: Name, n: nat): Outcome<DirEntry>
    requires LookupEnds(disk, dev, dir, target, n)
  {
    if IsDirectory(dir) then ScanChain(disk, dev, dir.cluster, target, n) else Bad
  }

  // ----- A directory as one list

  /** The entries that can be read one after the other, and whether those are all. */
  datatype Listing = Listing(entries: seq<DirEntry>, complete: bool)

  /** Sector `k` of the cluster at `lba`. */
  function SectorAt(disk: Disk, dev: Dev, lba: nat, k: nat): Outcome<seq<DirEntry>> {
    var r := ReadSectors(disk, dev, W32(lba + k), 1);
    if r.Bad? || |r.value| != 512 then Bad else Good(SectorEntries(r.value, 0))
  }

  function ClusterList(disk: Disk, dev: Dev, lba: nat, k: nat): Listing
    decreases dev.clusterSectors - k
  {
    if k >= dev.clusterSectors then Listing([], true)
    else
      var r := SectorAt(disk, dev, lba, k);
      if r.Bad? then Listing([], false)
      else
        var rest := ClusterList(disk, dev, lba, k + 1);
        Listing(r.value + rest.entries, rest.complete)
  }

  /** The entries of a directory, through at most `n` links. */
  function DirList(disk: Disk, dev: Dev, c: nat, n: nat): Listing
    decreases n
  {
    if !DataCluster(c) then Listing([], true)
    else
      var here, next := ClusterList(disk, dev, FirstSector(dev, c), 0), NextDirect(disk, dev, c);
      if !here.complete || next.Bad? || n == 0 then Listing(here.entries, false)
      else
        var rest := DirList(disk, dev, next.value, n - 1);
        Listing(here.entries + rest.entries, rest.complete)
  }

  lemma {:induction false} ClusterSteps(disk: Disk, dev: Dev, lba: nat, k: nat, target: Name)
    requires k < dev.clusterSectors
    ensures var r := SectorAt(disk, dev, lba, k);
      ScanCluster(disk, dev, lba, k, target) ==
        if r.Bad? then Failed
        else if ScanList(r.value, target).More? then ScanCluster(disk, dev, lba, k + 1, target)
        else ScanList(r.value, target)
  {
    hide SectorEntries, ReadSectors, ScanList, W32;
  }

  /** A search that comes to an unreadable sector fails there; until then it is a search of the readable entries. */
  lemma {:induction false} ScanClusterIs(disk: Disk, dev: Dev, lba: nat, k: nat, target: Name)
    ensures var list := ClusterList(disk, dev, lba, k); var scan := ScanList(list.entries, target);
      ScanCluster(disk, dev, lba, k, target) == if scan.More? && !list.complete then Failed else scan
    decreases dev.clusterSectors - k
  {
    if k < dev.clusterSectors {
      ClusterSteps(disk, dev, lba, k, target);
      hide ScanCluster, SectorAt;
      ScanClusterIs(disk, dev, lba, k + 1, target);
      var r := SectorAt(disk, dev, lba, k);
      if r.Good? {
        hide ScanList;
        ScanAppend(r.value, ClusterList(disk, dev, lba, k + 1).entries, target);
      }
    }
  }

  /** A search through sectors and clusters finds what a search through the list of readable entries finds. */
  lemma {:induction false} ScanChainIs(disk: Disk, dev: Dev, c: nat, target: Name, n: nat)
    requires SearchEnds(disk, dev, c, target, n)
    ensures var scan := ScanList(DirList(disk, dev, c, n).entries, target);
      ScanChain(disk, dev, c, target, n) == if scan.Found? then Good(scan.entry) else Bad
    decreases n
  {
    hide ClusterList, ScanCluster, NextDirect, ScanList, FirstSector;
    EmptyScan(target);
    if DataCluster(c) {
      var here, next := ClusterList(disk, dev, FirstSector(dev, c), 0), NextDirect(disk, dev, c);
      ScanClusterIs(disk, dev, FirstSector(dev, c), 0, target);
      NotFailed(here.entries, target);
      if here.complete && next.Good? && n > 0 {
        var rest := DirList(disk, dev, next.value, n - 1).entries;
        ScanAppend(here.entries, rest, target);
        NotFailed(rest, target);
        if ScanCluster(disk, dev, FirstSector(dev, c), 0, target).More? {
          ScanChainIs(disk, dev, next.value, target, n - 1);
        }
      }
    }
  }

  lemma {:induction false} EmptyScan(target: Name)
    ensures ScanList([], target) == More
  {
  }

  lemma {:induction false} NotFailed(es: seq<DirEntry>, target: Name)
    ensures !ScanList(es, target).Failed?
    decreases |es|
  {
    if es != [] { NotFailed(es[1..], target); }
  }

  /**
   Looking a name up gives the first entry of that name among the entries that can be read one after the other, if
   there is one before the end mark; what comes after it, readable or not, does not matter.
   */
  lemma {:induction false} LookupIsFirstMatch(disk: Disk, dev: Dev, dir: DirEntry, target: Name, n: nat, e: DirEntry)
    requires LookupEnds(disk, dev, dir, target, n)
    ensures Lookup(disk, dev, dir, target, n) == Good(e) <==>
      IsDirectory(dir) && FirstAt(DirList(disk, dev, dir.cluster, n).entries, target, e)
  {
    hide ScanList, DirList, ScanChain, FirstAt;
    if IsDirectory(dir) {
      ScanChainIs(disk, dev, dir.cluster, target, n);
      ScanFindsFirst(DirList(disk, dev, dir.cluster, n).entries, target, e);
    }
  }

  // ----- Names

  const SLASH: byte := 47
  const DOT: byte := 46
  const BLANK: byte := 32

  function CharAt(path: seq<byte>, i: nat): byte { if i < |path| then path[i] else 0 }

  function Upper(c: byte): byte { if 97 <= c <= 122 then c - 32 else c }

  /** Exactly the letters a to z change, by 32, and none of them is left. */
  lemma {:induction false} UpperIs(c: byte)
    ensures if 'a' <= c as char <= 'z' then Upper(c) as int + 32 == c as int else Upper(c) == c
    ensures !('a' <= Upper(c) as char <= 'z')
  {
  }

  function Blanks(n: nat): (s: seq<byte>)
    ensures |s| == n && forall i :: 0 <= i < n ==> s[i] == BLANK
  {
    seq(n, _ => BLANK)
  }

  /** `s` cut or filled to `n` characters. */
  function Field(s: seq<byte>, n: nat): (r: seq<byte>)
    ensures |r| == n
  {
    if |s| < n then s + Blanks(n - |s|) else s[..n]
  }

  predicate EndsName(c: byte) { c == 0 || c == SLASH }

  /** The rest of a name, from `i` on, added to the `acc` read so far, and filled to eleven characters. */
  function Fill(path: seq<byte>, i: nat, acc: seq<byte>): (name: Name)
    requires |acc| <= 11
    decreases |path| - i
  {
    if |acc| == 11 || EndsName(CharAt(path, i)) then acc + Blanks(11 - |acc|)
    else if path[i] == DOT then Fill(path, i + 1, Field(acc, 8))
    else Fill(path, i + 1, acc + [Upper(path[i])])
  }

  /** fat_short_name_to_name_ext at position `i` of a path: one leading slash is passed over. */
  function NameAt(path: seq<byte>, i: nat): Name {
    Fill(path, if CharAt(path, i) == SLASH then i + 1 else i, [])
  }

  function UpperAll(s: seq<byte>): (r: seq<byte>)
    ensures |r| == |s| && forall i :: 0 <= i < |s| ==> r[i] == Upper(s[i])
  {
    seq(|s|, i requires 0 <= i < |s| => Upper(s[i]))
  }

  predicate Plain(s: seq<byte>) { forall i :: 0 <= i < |s| ==> !EndsName(s[i]) && s[i] != DOT }

  /** Plain characters are copied in upper case as long as there is room. */
  lemma {:induction false} FillPlain(a: seq<byte>, s: seq<byte>, b: seq<byte>, acc: seq<byte>)
    requires Plain(s) && |acc| + |s| <= 11
    ensures Fill(a + s + b, |a|, acc) == Fill(a + s + b, |a| + |s|, acc + UpperAll(s))
    decreases |s|
  {
    var path := a + s + b;
    if s == [] {
      assert acc + UpperAll(s) == acc;
    } else {
      assert path[|a|] == s[0] && path == (a + [s[0]]) + s[1..] + b;
      FillPlain(a + [s[0]], s[1..], b, acc + [Upper(s[0])]);
      assert acc + [Upper(s[0])] + UpperAll(s[1..]) == acc + UpperAll(s);
    }
  }

  /** With more characters than there is room for the first ones are taken, and the name is complete. */
  lemma {:induction false} FillFull(a: seq<byte>, s: seq<byte>, b: seq<byte>, acc: seq<byte>)
    requires Plain(s) && |acc| <= 11 <= |acc| + |s|
    ensures Fill(a + s + b, |a|, acc) == acc + UpperAll(s[..11 - |acc|])
  {
    var n := 11 - |acc|;
    assert a + s + b == a + s[..n] + (s[n..] + b);
    FillPlain(a, s[..n], s[n..] + b, acc);
    var full := acc + UpperAll(s[..n]);
    assert full + Blanks(0) == full;
  }

  /** Characters at the end of a path fill what is left of a name. */
  lemma {:induction false} FillLast(a: seq<byte>, s: seq<byte>, acc: seq<byte>)
    requires Plain(s) && |acc| <= 11
    ensures Fill(a + s, |a|, acc) == acc + Field(UpperAll(s), 11 - |acc|)
  {
    assert a + s == a + s + [];
    if |acc| + |s| >= 11 {
      FillFull(a, s, [], acc);
      assert UpperAll(s[..11 - |acc|]) == Field(UpperAll(s), 11 - |acc|);
    } else {
      FillPlain(a, s, [], acc);
      assert acc + UpperAll(s) + Blanks(11 - |acc| - |s|) == acc + Field(UpperAll(s), 11 - |acc|);
    }
  }

  /**
   What becomes of any name and extension: cut or filled to eight and three characters, in upper case; but eleven or
   more characters before the dot leave no room for the extension, and without a dot the name runs on into it.
   */
  lemma {:induction false} ShortName(base: seq<byte>, ext: seq<byte>)
    requires Plain(base) && Plain(ext)
    ensures Fill(base + [DOT] + ext, 0, []) ==
      if |base| < 11 then Field(UpperAll(base), 8) + Field(UpperAll(ext), 3) else Field(UpperAll(base), 11)
    ensures Fill(base, 0, []) == Field(UpperAll(base), 11)
  {
    var path := base + [DOT] + ext;
    assert path == [] + base + ([DOT] + ext) && base == [] + base;
    FillLast([], base, []);
    assert [] + Field(UpperAll(base), 11) == Field(UpperAll(base), 11);
    if |base| >= 11 {
      FillFull([], base, [DOT] + ext, []);
      assert [] + UpperAll(base[..11]) == Field(UpperAll(base), 11);
    } else {
      FillPlain([], base, [DOT] + ext, []);
      assert [] + UpperAll(base) == UpperAll(base);
      assert Fill(path, |base|, UpperAll(base)) == Fill(path, |base| + 1, Field(UpperAll(base), 8));
      FillLast(base + [DOT], ext, Field(UpperAll(base), 8));
    }
  }

  // ----- Paths

  /** The next slash from `i` on, or the end. */
  function NextSlash(path: seq<byte>, i: nat): (j: nat)
    requires i <= |path|
    ensures i <= j <= |path| && (j < |path| ==> path[j] == SLASH)
    ensures forall k :: i <= k < j ==> path[k] != SLASH
    decreases |path| - i
  {
    if i == |path| || path[i] == SLASH then i else NextSlash(path, i + 1)
  }

  /** The names that are looked up in turn. */
  function Targets(path: seq<byte>, i: nat): seq<Name>
    requires i <= |path|
    decreases |path| - i
  {
    if i == |path| then []
    else
      var j := NextSlash(path, i);
      [NameAt(path, i)] + if j == |path| then [] else Targets(path, j + 1)
  }

  /** What stands between the slashes; nothing after a final one. */
  function Components(path: seq<byte>, i: nat): seq<seq<byte>>
    requires i <= |path|
    decreases |path| - i
  {
    if i == |path| then []
    else
      var j := NextSlash(path, i);
      [path[i..j]] + if j == |path| then [] else Components(path, j + 1)
  }

  /** The names a path means: those of its components, empty ones passed over. */
  function Wanted(cs: seq<seq<byte>>): seq<Name> {
    if cs == [] then [] else (if cs[0] == [] then [] else [Fill(cs[0], 0, [])]) + Wanted(cs[1..])
  }

  predicate NoneEmpty(cs: seq<seq<byte>>) { forall k :: 0 <= k < |cs| ==> cs[k] != [] }

  /** Components written with slashes between them. */
  function Slashed(cs: seq<seq<byte>>): seq<byte> {
    if cs == [] then [] else if |cs| == 1 then cs[0] else cs[0] + [SLASH] + Slashed(cs[1..])
  }

  /** The components of a path are what was written between slashes, as long as none is empty. */
  lemma {:induction false} ComponentsRoundTrip(pre: seq<byte>, cs: seq<seq<byte>>)
    requires NoneEmpty(cs) && forall k :: 0 <= k < |cs| ==> SLASH !in cs[k]
    ensures Components(pre + Slashed(cs), |pre|) == cs
    decreases |cs|
  {
    var path := pre + Slashed(cs);
    if cs != [] {
      var j := |pre| + |cs[0]|;
      assert forall k :: |pre| <= k < j ==> path[k] == cs[0][k - |pre|];
      assert path[|pre|..j] == cs[0];
      if |cs| == 1 {
        SlashAt(path, |pre|, j);
      } else {
        assert path[j] == SLASH;
        SlashAt(path, |pre|, j);
        assert path == (pre + cs[0] + [SLASH]) + Slashed(cs[1..]);
        ComponentsRoundTrip(pre + cs[0] + [SLASH], cs[1..]);
      }
    }
  }

  lemma {:induction false} SlashAt(path: seq<byte>, i: nat, j: nat)
    requires i <= j <= |path| && (j < |path| ==> path[j] == SLASH) && forall k :: i <= k < j ==> path[k] != SLASH
    ensures NextSlash(path, i) == j
  {
  }

  /** A name is read up to the next slash. */
  lemma {:induction false} FillLocal(path: seq<byte>, i: nat, j: nat, k: nat, acc: seq<byte>)
    requires i <= k <= j <= |path| && |acc| <= 11 && (j < |path| ==> path[j] == SLASH)
    requires forall m :: i <= m < j ==> path[m] != SLASH
    ensures Fill(path, k, acc) == Fill(path[i..j], k - i, acc)
    decreases j - k
  {
    if |acc| < 11 && k < j && !EndsName(path[k]) {
      FillLocal(path, i, j, k + 1, if path[k] == DOT then Field(acc, 8) else acc + [Upper(path[k])]);
    }
  }

  lemma {:induction false} AsMany(path: seq<byte>, i: nat)
    requires i <= |path|
    ensures |Targets(path, i)| == |Components(path, i)|
    decreases |path| - i
  {
    hide NextSlash, NameAt, Targets, Components;
    BothEmpty(path);
    if i < |path| {
      var j := NextSlash(path, i);
      SplitsAlike(path, i);
      if j < |path| { AsMany(path, j + 1); }
    }
  }

  lemma {:induction false} BothEmpty(path: seq<byte>)
    ensures Targets(path, |path|) == [] && Components(path, |path|) == []
  {
  }

  lemma {:induction false} SplitsAlike(path: seq<byte>, i: nat)
    requires i < |path|
    ensures var j := NextSlash(path, i);
      && |Targets(path, i)| == 1 + (if j == |path| then 0 else |Targets(path, j + 1)|)
      && |Components(path, i)| == 1 + (if j == |path| then 0 else |Components(path, j + 1)|)
  {
    hide NextSlash, NameAt;
  }

  lemma {:induction false} WantedAtMost(cs: seq<seq<byte>>)
    ensures |Wanted(cs)| <= |cs| && (|Wanted(cs)| == |cs| <==> NoneEmpty(cs))
    decreases |cs|
  {
    if cs != [] {
      WantedAtMost(cs[1..]);
      assert cs == [cs[0]] + cs[1..];
      assert NoneEmpty(cs) <==> cs[0] != [] && NoneEmpty(cs[1..]);
    }
  }

  lemma {:induction false} TargetsWithoutEmpty(path: seq<byte>, i: nat)
    requires i <= |path| && NoneEmpty(Components(path, i))
    ensures Targets(path, i) == Wanted(Components(path, i))
    decreases |path| - i
  {
    if i < |path| {
      hide Fill, NameAt, NoneEmpty, Wanted, NextSlash;
      var j := NextSlash(path, i);
      var rest := if j == |path| then [] else Components(path, j + 1);
      WantedFirst(path, i, j, rest);
      if j < |path| { TargetsWithoutEmpty(path, j + 1); }
    }
  }

  /** A first component that is not empty is the first name looked up. */
  lemma {:induction false} WantedFirst(path: seq<byte>, i: nat, j: nat, rest: seq<seq<byte>>)
    requires i < |path| && j == NextSlash(path, i) && NoneEmpty([path[i..j]] + rest)
    ensures NoneEmpty(rest) && Wanted([path[i..j]] + rest) == [NameAt(path, i)] + Wanted(rest)
  {
    hide Fill;
    var cs := [path[i..j]] + rest;
    assert cs[0] != [] && cs[1..] == rest;
    FillLocal(path, i, j, i, []);
    assert forall k :: 0 <= k < |rest| ==> rest[k] == cs[k + 1];
  }

  /** The names looked up are the names the path means exactly when no component is empty. */
  lemma {:induction false} TargetsIff(path: seq<byte>)
    ensures Targets(path, 0) == Wanted(Components(path, 0)) <==> NoneEmpty(Components(path, 0))
  {
    AsMany(path, 0);
    WantedAtMost(Components(path, 0));
    if NoneEmpty(Components(path, 0)) { TargetsWithoutEmpty(path, 0); }
  }

  /** After a leading slash the first name is looked up twice. */
  lemma {:induction false} LeadingSlashRepeats(path: seq<byte>)
    requires |path| > 1 && path[0] == SLASH && path[1] != SLASH
    ensures var ts := Targets(path, 0); |ts| >= 2 && ts[0] == ts[1] && !NoneEmpty(Components(path, 0))
  {
    assert NextSlash(path, 0) == 0;
    assert Targets(path, 1)[0] == NameAt(path, 1) == NameAt(path, 0);
    assert Components(path, 0)[0] == [];
  }

  // ----- Resolving a path, reading a file

  /** Every search on the way comes to a result within `n` links. */
  predicate ResolveEnds(disk: Disk, dev: Dev, dir: DirEntry, targets: seq<Name>, n: nat)
    decreases |targets|
  {
    targets != [] ==>
      && LookupEnds(disk, dev, dir, targets[0], n)
      && (Lookup(disk, dev, dir, targets[0], n).Good? ==>
           ResolveEnds(disk, dev, Lookup(disk, dev, dir, targets[0], n).value, targets[1..], n))
  }

  function Resolve(disk: Disk, dev: Dev, dir: DirEntry, targets: seq<Name>, n: nat): Outcome<DirEntry>
    requires ResolveEnds(disk, dev, dir, targets, n)
    decreases |targets|
  {
    if targets == [] then Good(dir)
    else
      var next := Lookup(disk, dev, dir, targets[0], n);
      if next.Bad? then Bad else Resolve(disk, dev, next.value, targets[1..], n)
  }

  const ROOT_NAME: Name := [82, 79, 79, 84, 32, 32, 32, 32, 32, 32, 32]

  function RootDir(dev: Dev): DirEntry { DirEntry(ROOT_NAME, 0x10, W32(dev.rootCluster)) }

  /** Resolving the path and reading the file it leads to come to an end; other chains of the volume do not matter. */
  predicate PathEnds(disk: Disk, dev: Dev, path: seq<byte>, n: nat) {
    && ResolveEnds(disk, dev, RootDir(dev), Targets(path, 0), n)
    && var file := Resolve(disk, dev, RootDir(dev), Targets(path, 0), n);
      file.Good? ==> ReadEnds(disk, dev, file.value.cluster, n)
  }

  /** The data of the file that a path leads to. */
  function ReadPath(disk: Disk, dev: Dev, path: seq<byte>, n: nat): Outcome<seq<byte>>
    requires PathEnds(disk, dev, path, n)
  {
    var file := Resolve(disk, dev, RootDir(dev), Targets(path, 0), n);
    if file.Bad? then Bad else FileData(disk, dev, file.value.cluster, n)
  }

  /** Entry by entry, the next one is the first of its name in the directory before. */
  ghost predicate Trail(disk: Disk, dev: Dev, names: seq<Name>, es: seq<DirEntry>, n: nat) {
    && |es| == |names| + 1
    && forall k :: 0 <= k < |names| ==>
         IsDirectory(es[k]) && FirstAt(DirList(disk, dev, es[k].cluster, n).entries, names[k], es[k + 1])
  }

  /** The names lead from `dir` to `e` exactly if there is such a trail. */
  lemma {:induction false} ResolveIff(disk: Disk, dev: Dev, dir: DirEntry, names: seq<Name>, e: DirEntry, n: nat)
    requires ResolveEnds(disk, dev, dir, names, n)
    ensures Resolve(disk, dev, dir, names, n) == Good(e) <==>
      exists es :: Trail(disk, dev, names, es, n) && es[0] == dir && es[|names|] == e
    decreases |names|
  {
    if Resolve(disk, dev, dir, names, n) == Good(e) { var es := TrailOf(disk, dev, dir, names, e, n); }
    if es :| Trail(disk, dev, names, es, n) && es[0] == dir && es[|names|] == e {
      TrailResolves(disk, dev, names, es, n);
    }
  }

  lemma {:induction false} TrailOf(disk: Disk, dev: Dev, dir: DirEntry, names: seq<Name>, e: DirEntry, n: nat)
    returns (es: seq<DirEntry>)
    requires ResolveEnds(disk, dev, dir, names, n) && Resolve(disk, dev, dir, names, n) == Good(e)
    ensures Trail(disk, dev, names, es, n) && es[0] == dir && es[|names|] == e
    decreases |names|
  {
    hide Lookup, LookupEnds, IsDirectory, FirstAt, DirList;
    if names == [] {
      es := [dir];
    } else {
      var next := Lookup(disk, dev, dir, names[0], n).value;
      LookupIsFirstMatch(disk, dev, dir, names[0], n, next);
      var rest := TrailOf(disk, dev, next, names[1..], e, n);
      es := [dir] + rest;
      forall k | 0 <= k < |names|
        ensures IsDirectory(es[k]) && FirstAt(DirList(disk, dev, es[k].cluster, n).entries, names[k], es[k + 1])
      {
        if k > 0 { assert es[k] == rest[k - 1] && es[k + 1] == rest[k] && names[k] == names[1..][k - 1]; }
      }
    }
  }

  lemma {:induction false} TrailResolves(disk: Disk, dev: Dev, names: seq<Name>, es: seq<DirEntry>, n: nat)
    requires Trail(disk, dev, names, es, n) && ResolveEnds(disk, dev, es[0], names, n)
    ensures Resolve(disk, dev, es[0], names, n) == Good(es[|names|])
    decreases |names|
  {
    hide Lookup, LookupEnds, IsDirectory, FirstAt, DirList;
    if names != [] {
      LookupIsFirstMatch(disk, dev, es[0], names[0], n, es[1]);
      var rest := es[1..];
      forall k | 0 <= k < |names| - 1
        ensures IsDirectory(rest[k])
        ensures FirstAt(DirList(disk, dev, rest[k].cluster, n).entries, names[1..][k], rest[k + 1])
      {
        assert rest[k] == es[k + 1] && rest[k + 1] == es[k + 2] && names[1..][k] == names[k + 1];
      }
      TrailResolves(disk, dev, names[1..], rest, n);
    }
  }

  /**
   Reading a path gives `data` exactly if there is such a trail from the root, all of the chain of its last entry can be
   read, and `data` are the clusters of that chain.
   */
  lemma {:induction false} ReadIff(disk: Disk, dev: Dev, path: seq<byte>, n: nat, data: seq<byte>)
    requires PathEnds(disk, dev, path, n)
    ensures ReadPath(disk, dev, path, n) == Good(data) <==>
      exists es: seq<DirEntry> ::
        && Trail(disk, dev, Targets(path, 0), es, n) && es[0] == RootDir(dev)
        && FileIs(disk, dev, es[|es| - 1].cluster, n, data)
  {
    hide Resolve, ResolveEnds, Targets, FirstAt, IsDirectory, DirList, FileIs, FileData, ReadEnds, RootDir;
    var names := Targets(path, 0);
    var file := Resolve(disk, dev, RootDir(dev), names, n);
    if file.Good? {
      var es := TrailOf(disk, dev, RootDir(dev), names, file.value, n);
      FileIsIff(disk, dev, file.value.cluster, n, data);
    }
    forall es | Trail(disk, dev, names, es, n) && es[0] == RootDir(dev) ensures file == Good(es[|es| - 1]) {
      TrailResolves(disk, dev, names, es, n);
    }
  }

  /** The chain from `c` can be read and holds `data`. */
  ghost predicate FileIs(disk: Disk, dev: Dev, c: nat, n: nat, data: seq<byte>) {
    && ReadEnds(disk, dev, c, n) && AllRead(disk, dev, Chain(disk, dev, c, n))
    && data == Concat(disk, dev, Chain(disk, dev, c, n))
  }

  lemma {:induction false} FileIsIff(disk: Disk, dev: Dev, c: nat, n: nat, data: seq<byte>)
    requires ReadEnds(disk, dev, c, n)
    ensures FileIs(disk, dev, c, n, data) <==> FileData(disk, dev, c, n) == Good(data)
  {
    hide ReadEnds, Chain, AllRead, Concat;
    FileIsItsClusters(disk, dev, c, n);
  }

  lemma {:induction false} ResolveSame(disk: Disk, dev: Dev, dir: DirEntry, targets: seq<Name>, n: nat, m: nat)
    requires ResolveEnds(disk, dev, dir, targets, n) && ResolveEnds(disk, dev, dir, targets, m)
    ensures Resolve(disk, dev, dir, targets, n) == Resolve(disk, dev, dir, targets, m)
    decreases |targets|
  {
    if targets != [] {
      if IsDirectory(dir) { ScanChainSame(disk, dev, dir.cluster, targets[0], n, m); }
      hide ScanChain, SearchEnds;
      if Lookup(disk, dev, dir, targets[0], n).Good? {
        ResolveSame(disk, dev, Lookup(disk, dev, dir, targets[0], n).value, targets[1..], n, m);
      }
    }
  }

  /** What a path leads to does not depend on how many links are allowed for. */
  lemma {:induction false} ReadPathSame(disk: Disk, dev: Dev, path: seq<byte>, n: nat, m: nat)
    requires PathEnds(disk, dev, path, n) && PathEnds(disk, dev, path, m)
    ensures ReadPath(disk, dev, path, n) == ReadPath(disk, dev, path, m)
  {
    ResolveSame(disk, dev, RootDir(dev), Targets(path, 0), n, m);
    var file := Resolve(disk, dev, RootDir(dev), Targets(path, 0), n);
    hide Resolve, ResolveEnds, Targets;
    if file.Good? { FileDataSame(disk, dev, file.value.cluster, n, m); }
  }

  // ----- Volumes without cycles

  lemma {:induction false} EndsSuffice(disk: Disk, dev: Dev, c: nat, target: Name, n: nat)
    requires Ends(disk, dev, c, n)
    ensures SearchEnds(disk, dev, c, target, n) && ReadEnds(disk, dev, c, n)
    decreases n
  {
    hide NextDirect, ScanCluster, ClusterAt;
    if DataCluster(c) && NextDirect(disk, dev, c).Good? {
      EndsSuffice(disk, dev, NextDirect(disk, dev, c).value, target, n - 1);
    }
  }

  lemma {:induction false} AcyclicResolveEnds(disk: Disk, dev: Dev, dir: DirEntry, targets: seq<Name>, n: nat)
    requires Acyclic(disk, dev, n)
    ensures ResolveEnds(disk, dev, dir, targets, n)
    decreases |targets|
  {
    hide SearchEnds, ReadEnds, ScanChain, Ends;
    if targets != [] {
      EndsSuffice(disk, dev, dir.cluster, targets[0], n);
      if Lookup(disk, dev, dir, targets[0], n).Good? {
        AcyclicResolveEnds(disk, dev, Lookup(disk, dev, dir, targets[0], n).value, targets[1..], n);
      }
    }
  }

  /** On a volume without cyclic chains every path can be read to its end. */
  lemma {:induction false} AcyclicPathEnds(disk: Disk, dev: Dev, path: seq<byte>, n: nat)
    requires Acyclic(disk, dev, n)
    ensures PathEnds(disk, dev, path, n)
  {
    AcyclicResolveEnds(disk, dev, RootDir(dev), Targets(path, 0), n);
    var file := Resolve(disk, dev, RootDir(dev), Targets(path, 0), n);
    hide ResolveEnds, Resolve, SearchEnds, ReadEnds, Ends, Targets;
    if file.Good? { EndsSuffice(disk, dev, file.value.cluster, ROOT_NAME, n); }
  }
}
