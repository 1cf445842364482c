/** A FAT32 volume as it is written to a disk, and that the reader reads back what was written. */
module FatImage {
  import opened Arith
  import opened Words
  import opened FatDisk

  // ----- Numbers and tables

  /** A number in `n` bytes, the lowest first. */
  function LittleEndian(v: nat, n: nat): (s: seq<byte>)
    ensures |s| == n
  {
    if n == 0 then [] else [v % 256] + LittleEndian(v / 256, n - 1)
  }

  /** A file allocation table: four bytes for each link. */
  function FatBytes(links: seq<nat>): (s: seq<byte>)
    ensures |s| == 4 * |links|
  {
    if links == [] then [] else FatBytes(links[..|links| - 1]) + LittleEndian(links[|links| - 1], 4)
  }

  lemma {:induction false} FatBytesAt(links: seq<nat>, c: nat)
    requires c < |links|
    ensures FatBytes(links)[4 * c..4 * c + 4] == LittleEndian(links[c], 4)
    decreases |links|
  {
    hide LittleEndian;
    var init := links[..|links| - 1];
    if c < |init| {
      FatBytesAt(init, c);
      assert FatBytes(links)[4 * c..4 * c + 4] == FatBytes(init)[4 * c..4 * c + 4];
    }
  }

  /** Four bytes are read back as the number they were written from. */
  lemma {:induction false} WordRoundTrip(s: seq<byte>, i: nat, v: nat)
    requires |s| == 512 && i < 128 && v < U32 && s[4 * i..4 * i + 4] == LittleEndian(v, 4)
    ensures Word(s, i) == v
  {
    var t := s[4 * i..4 * i + 4];
    assert t[0] == s[4 * i] && t[1] == s[4 * i + 1] && t[2] == s[4 * i + 2] && t[3] == s[4 * i + 3];
    FourBytes(v);
    hide LittleEndian;
    FourDigits(v);
  }

  lemma {:induction false} FourBytes(v: nat)
    ensures LittleEndian(v, 4) == [v % 256, v / 256 % 256, v / 256 / 256 % 256, v / 256 / 256 / 256 % 256]
  {
    assert LittleEndian(v / 256 / 256 / 256 / 256, 0) == [];
    assert LittleEndian(v / 256 / 256 / 256, 1) == [v / 256 / 256 / 256 % 256];
    assert LittleEndian(v / 256 / 256, 2) == [v / 256 / 256 % 256, v / 256 / 256 / 256 % 256];
  }

  lemma {:induction false} FourDigits(v: nat)
    requires v < U32
    ensures v % 256 + 0x100 * (v / 256 % 256) + 0x1_0000 * (v / 256 / 256 % 256)
      + 0x100_0000 * (v / 256 / 256 / 256 % 256) == v
  {
    var a, b, c := v / 256, v / 256 / 256, v / 256 / 256 / 256;
    assert v == 256 * a + v % 256;
    assert a == 256 * b + a % 256;
    assert b == 256 * c + b % 256;
    assert c < 256;
  }

  // ----- Volumes

  /** The link and the contents of each cluster, by number; clusters 0 and 1 have no contents. */
  datatype Volume = Volume(links: seq<nat>, clusters: seq<seq<byte>>)

  /** The parts of the volume fit into it and into 32-bit sector numbers. */
  predicate Shaped(dev: Dev, vol: Volume) {
    && |vol.links| == |vol.clusters| && |vol.links| % 128 == 0 && 2 <= |vol.links| <= U32
    && (forall c :: 0 <= c < |vol.links| ==> vol.links[c] < U32)
    && (forall c :: 2 <= c < |vol.links| ==> |vol.clusters[c]| == dev.clusterSectors * 512)
    && dev.fat + |vol.links| / 128 <= dev.sectors && dev.data + (|vol.links| - 2) * dev.clusterSectors <= dev.sectors
    && dev.lba + dev.sectors < U32
  }

  /** Sector `k` of the table is sector `k` of its bytes. */
  ghost predicate HoldsTable(disk: Disk, dev: Dev, vol: Volume)
    requires Shaped(dev, vol)
  {
    forall k: nat :: k < |vol.links| / 128 ==>
      var at := (dev.abar, dev.port, dev.lba + dev.fat + k);
      at in disk && disk[at] == FatBytes(vol.links)[512 * k..512 * k + 512]
  }

  /** Sector `s` of cluster `c` of the volume is on the disk. */
  ghost predicate HoldsSector(disk: Disk, dev: Dev, vol: Volume, c: nat, s: nat)
    requires Shaped(dev, vol) && 2 <= c < |vol.links| && s < dev.clusterSectors
  {
    var at := (dev.abar, dev.port, dev.lba + dev.data + (c - 2) * dev.clusterSectors + s);
    at in disk && disk[at] == vol.clusters[c][512 * s..512 * s + 512]
  }

  /** The disk holds the volume: its table, and cluster after cluster, from number 2 on, its data. */
  ghost predicate Formatted(disk: Disk, dev: Dev, vol: Volume) {
    && Shaped(dev, vol) && HoldsTable(disk, dev, vol)
    && forall c: nat, s: nat :: 2 <= c < |vol.links| && s < dev.clusterSectors ==> HoldsSector(disk, dev, vol, c, s)
  }

  lemma {:induction false} Small(x: nat)
    requires x < U32
    ensures W32(x) == x
  {
  }

  lemma {:induction false} OneRead(disk: Disk, dev: Dev, lba: nat)
    requires lba < dev.sectors && dev.lba + dev.sectors < U32 && (dev.abar, dev.port, dev.lba + lba) in disk
    ensures var r := ReadSectors(disk, dev, lba, 1); r.Good? && r.value == disk[(dev.abar, dev.port, dev.lba + lba)]
  {
    Small(lba + 1);
    Small(dev.lba + lba);
    hide W32;
    var s := disk[(dev.abar, dev.port, dev.lba + lba)];
    assert DiskRead(disk, dev.abar, dev.port, dev.lba + lba + 1, 0) == Good([]);
    assert s + [] == s;
  }

  /** Every link of the table is read back. */
  lemma {:induction false} LinkRoundTrip(disk: Disk, dev: Dev, vol: Volume, c: nat)
    requires Formatted(disk, dev, vol) && c < |vol.links|
    ensures NextDirect(disk, dev, c) == Good(vol.links[c])
  {
    hide Formatted, FatBytes, LittleEndian, ReadSectors, Word;
    FormattedParts(disk, dev, vol);
    var k, j := c / 128, c % 128;
    var at := (dev.abar, dev.port, dev.lba + dev.fat + k);
    assert k < |vol.links| / 128 && 4 * c == 512 * k + 4 * j;
    Small(dev.fat + k);
    OneRead(disk, dev, dev.fat + k);
    assert at == (dev.abar, dev.port, dev.lba + (dev.fat + k));
    var bytes := FatBytes(vol.links);
    FatBytesAt(vol.links, c);
    assert at in disk && disk[at] == bytes[512 * k..512 * k + 512] by {
      assert HoldsTable(disk, dev, vol) && k < |vol.links| / 128;
    }
    assert bytes[512 * k..512 * k + 512][4 * j..4 * j + 4] == bytes[4 * c..4 * c + 4];
    WordRoundTrip(disk[at], j, vol.links[c]);
  }

  lemma {:induction false} FormattedParts(disk: Disk, dev: Dev, vol: Volume)
    requires Formatted(disk, dev, vol)
    ensures Shaped(dev, vol) && HoldsTable(disk, dev, vol)
  {
  }

  // ----- Clusters

  /** Where cluster `c` starts, and that all its sectors are inside the volume. */
  lemma {:induction false} ClusterPlace(dev: Dev, vol: Volume, c: nat)
    requires Shaped(dev, vol) && 2 <= c < |vol.links|
    ensures var lba := dev.data + (c - 2) * dev.clusterSectors;
      FirstSector(dev, c) == lba && lba + dev.clusterSectors <= dev.sectors
  {
    hide W32;
    var n := dev.clusterSectors;
    MulStep(c - 2, |vol.links| - 2, n);
    Small(c - 2);
    Small(dev.data + (c - 2) * n);
  }

  lemma {:induction false} SectorsRead(disk: Disk, dev: Dev, vol: Volume, c: nat, s: nat)
    requires Formatted(disk, dev, vol) && 2 <= c < |vol.links| && s <= dev.clusterSectors
    ensures |vol.clusters[c]| == dev.clusterSectors * 512
    ensures DiskRead(disk, dev.abar, dev.port, dev.lba + dev.data + (c - 2) * dev.clusterSectors + s,
                     dev.clusterSectors - s)
      == Good(vol.clusters[c][512 * s..])
    decreases dev.clusterSectors - s
  {
    var lba, data := dev.lba + dev.data + (c - 2) * dev.clusterSectors, vol.clusters[c];
    if s < dev.clusterSectors {
      SectorsRead(disk, dev, vol, c, s + 1);
      assert HoldsSector(disk, dev, vol, c, s);
      assert data[512 * s..] == data[512 * s..512 * s + 512] + data[512 * (s + 1)..];
    } else {
      assert data[512 * s..] == [];
    }
  }

  /** Every cluster is read back. */
  lemma {:induction false} ClusterRoundTrip(disk: Disk, dev: Dev, vol: Volume, c: nat)
    requires Formatted(disk, dev, vol) && 2 <= c < |vol.links|
    ensures ClusterAt(disk, dev, c) == Good(vol.clusters[c])
  {
    FormattedParts(disk, dev, vol);
    ClusterPlace(dev, vol, c);
    SectorsRead(disk, dev, vol, c, 0);
    hide FirstSector, DiskRead, Formatted;
    var lba := dev.data + (c - 2) * dev.clusterSectors;
    Small(lba + dev.clusterSectors);
    Small(dev.lba + lba);
    assert vol.clusters[c][0..] == vol.clusters[c];
  }

  // ----- Files

  /** The clusters `cs` are linked one to the next, and the last one to an end mark. */
  predicate Linked(vol: Volume, cs: seq<nat>)
    requires |vol.links| == |vol.clusters|
  {
    && (forall k :: 0 <= k < |cs| ==> 2 <= cs[k] < 0x0FFF_FFF8 && cs[k] < |vol.links|)
    && (forall k :: 0 <= k < |cs| - 1 ==> vol.links[cs[k]] == cs[k + 1])
    && (cs != [] ==> vol.links[cs[|cs| - 1]] >= 0x0FFF_FFF8)
  }

  /** The contents of clusters, one after the other. */
  function Joined(vol: Volume, cs: seq<nat>): seq<byte>
    requires |vol.links| == |vol.clusters| && forall k :: 0 <= k < |cs| ==> cs[k] < |vol.links|
  {
    if cs == [] then [] else vol.clusters[cs[0]] + Joined(vol, cs[1..])
  }

  lemma {:induction false} LinkedRest(vol: Volume, cs: seq<nat>)
    requires |vol.links| == |vol.clusters| && Linked(vol, cs) && cs != []
    ensures Linked(vol, cs[1..]) && DataCluster(cs[0]) && cs[0] < |vol.links|
    ensures if |cs| > 1 then vol.links[cs[0]] == cs[1..][0] else !DataCluster(vol.links[cs[0]])
  {
  }

  /** A file of these clusters is read back, whole and nothing more. */
  lemma {:induction false} FileRoundTrip(disk: Disk, dev: Dev, vol: Volume, cs: seq<nat>, n: nat)
    requires Formatted(disk, dev, vol) && Linked(vol, cs) && cs != [] && |cs| <= n
    ensures ReadEnds(disk, dev, cs[0], n) && Ends(disk, dev, cs[0], n)
    ensures FileData(disk, dev, cs[0], n) == Good(Joined(vol, cs))
    decreases |cs|
  {
    hide Formatted, NextDirect, ClusterAt, Linked;
    FormattedParts(disk, dev, vol);
    LinkedRest(vol, cs);
    LinkedBounds(vol, cs);
    LinkRoundTrip(disk, dev, vol, cs[0]);
    ClusterRoundTrip(disk, dev, vol, cs[0]);
    if |cs| > 1 {
      FileRoundTrip(disk, dev, vol, cs[1..], n - 1);
    } else {
      assert cs[1..] == [] && FileData(disk, dev, vol.links[cs[0]], n - 1) == Good([]);
    }
  }

  lemma {:induction false} LinkedBounds(vol: Volume, cs: seq<nat>)
    requires |vol.links| == |vol.clusters| && Linked(vol, cs)
    ensures forall k :: 0 <= k < |cs| ==> cs[k] < |vol.links|
  {
  }

  // ----- Directories

  /** A directory entry with the parts of it the reader does not use. */
  datatype Record = Record(entry: DirEntry, made: seq<byte>, changed: seq<byte>, size: seq<byte>)

  predicate Sized(r: Record) {
    |r.made| == 8 && |r.changed| == 4 && |r.size| == 4 && r.entry.cluster < U32
  }

  /** The 32 bytes of an entry: name, attributes, dates, high half of the cluster, dates, low half, size. */
  function RecordBytes(r: Record): (s: seq<byte>)
    requires Sized(r)
    ensures |s| == 32
  {
    r.entry.name + [r.entry.attributes] + r.made + LittleEndian(r.entry.cluster / 0x1_0000, 2) + r.changed
    + LittleEndian(r.entry.cluster % 0x1_0000, 2) + r.size
  }

  predicate AllSized(rs: seq<Record>) { forall k :: 0 <= k < |rs| ==> Sized(rs[k]) }

  function DirBytes(rs: seq<Record>): (s: seq<byte>)
    requires AllSized(rs)
    ensures |s| == 32 * |rs|
  {
    if rs == [] then [] else RecordBytes(rs[0]) + DirBytes(rs[1..])
  }

  function EntriesOf(rs: seq<Record>): (es: seq<DirEntry>)
    ensures |es| == |rs| && forall k :: 0 <= k < |rs| ==> es[k] == rs[k].entry
  {
    seq(|rs|, k requires 0 <= k < |rs| => rs[k].entry)
  }

  lemma {:induction false} EntriesCut(rs: seq<Record>, m: nat)
    requires m <= |rs|
    ensures EntriesOf(rs) == EntriesOf(rs[..m]) + EntriesOf(rs[m..])
  {
  }

  lemma {:induction false} DirBytesFrom(rs: seq<Record>, i: nat)
    requires AllSized(rs) && i <= |rs|
    ensures AllSized(rs[i..]) && DirBytes(rs)[32 * i..] == DirBytes(rs[i..])
    decreases i
  {
    hide RecordBytes;
    if i == 0 {
      assert rs[0..] == rs && DirBytes(rs)[0..] == DirBytes(rs);
    } else {
      DirBytesFrom(rs[1..], i - 1);
      assert rs[1..][i - 1..] == rs[i..];
      assert DirBytes(rs)[32 * i..] == DirBytes(rs[1..])[32 * (i - 1)..];
    }
  }

  lemma {:induction false} DirBytesUpto(rs: seq<Record>, j: nat)
    requires AllSized(rs) && j <= |rs|
    ensures AllSized(rs[..j]) && DirBytes(rs)[..32 * j] == DirBytes(rs[..j])
    decreases j
  {
    hide RecordBytes;
    if j > 0 {
      DirBytesUpto(rs[1..], j - 1);
      assert rs[..j][0] == rs[0] && rs[..j][1..] == rs[1..][..j - 1];
      assert DirBytes(rs)[..32 * j] == RecordBytes(rs[0]) + DirBytes(rs[1..])[..32 * (j - 1)];
    }
  }

  lemma {:induction false} TwoBytes(v: nat)
    ensures LittleEndian(v, 2) == [v % 256, v / 256 % 256]
  {
    assert LittleEndian(v / 256 / 256, 0) == [];
    assert LittleEndian(v / 256, 1) == [v / 256 % 256];
  }

  /** The halves of a cluster number come together again. */
  lemma {:induction false} Halves(v: nat)
    requires v < U32
    ensures var lo, hi := v % 0x1_0000, v / 0x1_0000;
      lo % 256 + 0x100 * (lo / 256 % 256) + 0x1_0000 * (hi % 256) + 0x100_0000 * (hi / 256 % 256) == v
  {
    var lo, hi := v % 0x1_0000, v / 0x1_0000;
    assert v == 0x1_0000 * hi + lo && lo < 0x1_0000 && hi < 0x1_0000;
    assert lo == 256 * (lo / 256) + lo % 256 && lo / 256 < 256;
    assert hi == 256 * (hi / 256) + hi % 256 && hi / 256 < 256;
  }

  /** An entry is read back from its 32 bytes. */
  lemma {:induction false} EntryRoundTrip(s: seq<byte>, i: nat, r: Record)
    requires |s| == 512 && i < 16 && Sized(r) && s[32 * i..32 * i + 32] == RecordBytes(r)
    ensures EntryAt(s, i) == r.entry
  {
    var o, t, v := 32 * i, RecordBytes(r), r.entry.cluster;
    var u := s[o..o + 32];
    assert s[o + 11] == u[11] && s[o + 20] == u[20] && s[o + 21] == u[21] && s[o + 26] == u[26] && s[o + 27] == u[27];
    RecordParts(r);
    TwoBytes(v / 0x1_0000);
    TwoBytes(v % 0x1_0000);
    hide RecordBytes, LittleEndian;
    assert s[o..o + 11] == t[..11];
    Halves(v);
  }

  lemma {:induction false} RecordParts(r: Record)
    requires Sized(r)
    ensures var t, hi, lo := RecordBytes(r), LittleEndian(r.entry.cluster / 0x1_0000, 2),
                             LittleEndian(r.entry.cluster % 0x1_0000, 2);
      && t[..11] == r.entry.name && t[11] == r.entry.attributes
      && t[20] == hi[0] && t[21] == hi[1] && t[26] == lo[0] && t[27] == lo[1]
  {
    hide LittleEndian;
  }

  /** The entries of a sector are read back. */
  lemma {:induction false} SectorRoundTrip(s: seq<byte>, rs: seq<Record>, i: nat)
    requires |s| == 512 && |rs| == 16 && AllSized(rs) && s == DirBytes(rs) && i <= 16
    ensures SectorEntries(s, i) == EntriesOf(rs[i..])
    decreases 16 - i
  {
    hide EntryAt, RecordBytes;
    if i < 16 {
      SectorRoundTrip(s, rs, i + 1);
      DirBytesFrom(rs, i);
      assert rs[i..][0] == rs[i] && rs[i..][1..] == rs[i + 1..];
      assert s[32 * i..32 * i + 32] == s[32 * i..][..32] == RecordBytes(rs[i]);
      EntryRoundTrip(s, i, rs[i]);
      assert EntriesOf(rs[i..]) == [rs[i].entry] + EntriesOf(rs[i + 1..]);
    } else {
      assert rs[i..] == [];
    }
  }

  lemma {:induction false} ClusterSector(disk: Disk, dev: Dev, vol: Volume, c: nat, rs: seq<Record>, k: nat)
    requires Formatted(disk, dev, vol) && 2 <= c < |vol.links| && k < dev.clusterSectors && AllSized(rs)
    requires |rs| == 16 * dev.clusterSectors && vol.clusters[c] == DirBytes(rs)
    ensures SectorAt(disk, dev, FirstSector(dev, c), k) == Good(EntriesOf(rs[16 * k..16 * k + 16]))
  {
    hide FirstSector, Formatted, DirBytes, SectorEntries, ReadSectors, HoldsTable;
    FormattedParts(disk, dev, vol);
    ClusterRead(disk, dev, vol, c, k);
    CutSector(vol.clusters[c], rs, k);
    SectorRoundTrip(vol.clusters[c][512 * k..512 * k + 512], rs[16 * k..16 * k + 16], 0);
    assert rs[16 * k..16 * k + 16][0..] == rs[16 * k..16 * k + 16];
  }

  lemma {:induction false} SectorHeld(disk: Disk, dev: Dev, vol: Volume, c: nat, s: nat)
    requires Formatted(disk, dev, vol) && 2 <= c < |vol.links| && s < dev.clusterSectors
    ensures HoldsSector(disk, dev, vol, c, s)
  {
  }

  lemma {:induction false} ClusterRead(disk: Disk, dev: Dev, vol: Volume, c: nat, k: nat)
    requires Formatted(disk, dev, vol) && 2 <= c < |vol.links| && k < dev.clusterSectors
    ensures |vol.clusters[c]| == dev.clusterSectors * 512
    ensures var r := ReadSectors(disk, dev, W32(FirstSector(dev, c) + k), 1);
      r.Good? && r.value == vol.clusters[c][512 * k..512 * k + 512]
  {
    hide FirstSector, Formatted, ReadSectors, W32, HoldsTable;
    FormattedParts(disk, dev, vol);
    SectorHeld(disk, dev, vol, c, k);
    ClusterPlace(dev, vol, c);
    Small(FirstSector(dev, c) + k);
    OneRead(disk, dev, FirstSector(dev, c) + k);
  }

  /** Sector `k` of the bytes of a directory. */
  lemma {:induction false} CutSector(s: seq<byte>, rs: seq<Record>, k: nat)
    requires AllSized(rs) && s == DirBytes(rs) && 16 * k + 16 <= |rs|
    ensures AllSized(rs[16 * k..16 * k + 16]) && s[512 * k..512 * k + 512] == DirBytes(rs[16 * k..16 * k + 16])
  {
    hide DirBytes;
    DirBytesFrom(rs, 16 * k);
    DirBytesUpto(rs[16 * k..], 16);
    assert rs[16 * k..16 * k + 16] == rs[16 * k..][..16];
    assert s[512 * k..512 * k + 512] == s[32 * (16 * k)..][..512];
  }

  /** The entries of a cluster are read back. */
  lemma {:induction false} ClusterListIs(disk: Disk, dev: Dev, vol: Volume, c: nat, rs: seq<Record>, k: nat)
    requires Formatted(disk, dev, vol) && 2 <= c < |vol.links| && k <= dev.clusterSectors && AllSized(rs)
    requires |rs| == 16 * dev.clusterSectors && vol.clusters[c] == DirBytes(rs)
    ensures ClusterList(disk, dev, FirstSector(dev, c), k) == Listing(EntriesOf(rs[16 * k..]), true)
    decreases dev.clusterSectors - k
  {
    hide FirstSector, Formatted, DirBytes, SectorAt, AllSized, EntriesOf;
    if k < dev.clusterSectors {
      ClusterSector(disk, dev, vol, c, rs, k);
      ClusterListIs(disk, dev, vol, c, rs, k + 1);
      EntriesCut(rs[16 * k..], 16);
      assert rs[16 * k..][..16] == rs[16 * k..16 * k + 16] && rs[16 * k..][16..] == rs[16 * (k + 1)..];
    } else {
      assert rs[16 * k..] == [];
    }
  }

  /** The clusters `cs` hold the directory `rs`, which fills them. */
  ghost predicate HoldsDir(dev: Dev, vol: Volume, cs: seq<nat>, rs: seq<Record>)
    requires Shaped(dev, vol)
  {
    && Linked(vol, cs) && cs != [] && AllSized(rs) && |rs| == 16 * dev.clusterSectors * |cs|
    && Joined(vol, cs) == DirBytes(rs)
  }

  lemma {:induction false} HoldsDirRest(dev: Dev, vol: Volume, cs: seq<nat>, rs: seq<Record>)
    requires Shaped(dev, vol) && HoldsDir(dev, vol, cs, rs)
    ensures 16 * dev.clusterSectors <= |rs| && 2 <= cs[0] < |vol.links|
    ensures var m := 16 * dev.clusterSectors;
      && AllSized(rs[..m]) && vol.clusters[cs[0]] == DirBytes(rs[..m])
      && if |cs| > 1 then HoldsDir(dev, vol, cs[1..], rs[m..]) else |rs| == m
  {
    var m := 16 * dev.clusterSectors;
    LinkedRest(vol, cs);
    assert |rs| == m + m * (|cs| - 1);
    DirBytesUpto(rs, m);
    DirBytesFrom(rs, m);
    hide DirBytes;
    var first, rest := vol.clusters[cs[0]], Joined(vol, cs[1..]);
    assert |first| == 32 * m;
    assert Joined(vol, cs)[..32 * m] == first && Joined(vol, cs)[32 * m..] == rest;
  }

  /** The listing read is the directory written. */
  lemma {:induction false} DirRoundTrip(disk: Disk, dev: Dev, vol: Volume, cs: seq<nat>, rs: seq<Record>, n: nat)
    requires Formatted(disk, dev, vol) && HoldsDir(dev, vol, cs, rs) && |cs| <= n
    ensures DirList(disk, dev, cs[0], n) == Listing(EntriesOf(rs), true)
    decreases |cs|
  {
    hide Formatted, NextDirect, ClusterList, FirstSector, DirBytes, HoldsDir, AllSized, EntriesOf, HoldsTable;
    FormattedParts(disk, dev, vol);
    HoldsDirRest(dev, vol, cs, rs);
    HoldsDirLinked(dev, vol, cs, rs);
    LinkedRest(vol, cs);
    LinkRoundTrip(disk, dev, vol, cs[0]);
    var m := 16 * dev.clusterSectors;
    var here, rest := rs[..m], rs[m..];
    ClusterListIs(disk, dev, vol, cs[0], here, 0);
    assert here[0..] == here;
    EntriesCut(rs, m);
    if |cs| > 1 { DirRoundTrip(disk, dev, vol, cs[1..], rest, n - 1); } else { assert rest == []; }
  }

  lemma {:induction false} HoldsDirLinked(dev: Dev, vol: Volume, cs: seq<nat>, rs: seq<Record>)
    requires Shaped(dev, vol) && HoldsDir(dev, vol, cs, rs)
    ensures Linked(vol, cs) && cs != []
  {
  }

  predicate DirectoryBit(attributes: byte) { (attributes as bv8) & 0x10 != 0 }

  lemma {:induction false} DirectoryBitIs(e: DirEntry)
    ensures IsDirectory(e) <==> DirectoryBit(e.attributes)
  {
  }

  /** Looking a name up in a directory gives the first of its entries that has the name. */
  lemma {:induction false} LookupRoundTrip(disk: Disk, dev: Dev, vol: Volume, dir: DirEntry, cs: seq<nat>,
                                           rs: seq<Record>, n: nat, target: Name, e: DirEntry)
    requires Formatted(disk, dev, vol) && HoldsDir(dev, vol, cs, rs) && |cs| <= n
    requires DirectoryBit(dir.attributes) && dir.cluster == cs[0]
    ensures LookupEnds(disk, dev, dir, target, n)
    ensures Lookup(disk, dev, dir, target, n) == Good(e) <==> FirstAt(EntriesOf(rs), target, e)
  {
    hide Formatted, HoldsDir, FirstAt, Lookup, Ends, ReadEnds, SearchEnds, DirList, DirectoryBit;
    FormattedParts(disk, dev, vol);
    HoldsDirLinked(dev, vol, cs, rs);
    FileRoundTrip(disk, dev, vol, cs, n);
    EndsSuffice(disk, dev, cs[0], target, n);
    DirRoundTrip(disk, dev, vol, cs, rs, n);
    DirectoryBitIs(dir);
    LookupIsFirstMatch(disk, dev, dir, target, n, e);
  }

  // ----- Paths

  /** From directory `dir` the names lead, directory by directory, to `e`; no directory takes more than `n` clusters. */
  ghost predicate Leads(dev: Dev, vol: Volume, dir: DirEntry, names: seq<Name>, e: DirEntry, n: nat)
    requires Shaped(dev, vol)
    decreases |names|
  {
    if names == [] then e == dir
    else
      exists cs, rs, next ::
        Enters(dev, vol, dir, names[0], cs, rs, next, n) && Leads(dev, vol, next, names[1..], e, n)
  }

  ghost predicate Enters(dev: Dev, vol: Volume, dir: DirEntry, name: Name, cs: seq<nat>, rs: seq<Record>,
                         next: DirEntry, n: nat)
    requires Shaped(dev, vol)
  {
    && HoldsDir(dev, vol, cs, rs) && |cs| <= n && DirectoryBit(dir.attributes) && dir.cluster == cs[0]
    && FirstAt(EntriesOf(rs), name, next)
  }

  lemma {:induction false} ResolveRoundTrip(disk: Disk, dev: Dev, vol: Volume, dir: DirEntry, names: seq<Name>,
                                            e: DirEntry, n: nat)
    requires Formatted(disk, dev, vol) && Leads(dev, vol, dir, names, e, n)
    ensures ResolveEnds(disk, dev, dir, names, n) && Resolve(disk, dev, dir, names, n) == Good(e)
    decreases |names|
  {
    hide Formatted, FirstAt, Lookup, HoldsDir, LookupEnds, DirectoryBit;
    FormattedParts(disk, dev, vol);
    if names != [] {
      var cs, rs, next :| Enters(dev, vol, dir, names[0], cs, rs, next, n) && Leads(dev, vol, next, names[1..], e, n);
      LookupRoundTrip(disk, dev, vol, dir, cs, rs, n, names[0], next);
      ResolveRoundTrip(disk, dev, vol, next, names[1..], e, n);
    }
  }

  /** A file written to a volume and reached by a path is read back, whole and nothing more. */
  lemma {:induction false} ReadRoundTrip(disk: Disk, dev: Dev, vol: Volume, path: seq<byte>, e: DirEntry, cs: seq<nat>,
                                         n: nat)
    requires Formatted(disk, dev, vol) && Linked(vol, cs) && cs != [] && |cs| <= n && e.cluster == cs[0]
    requires dev.rootCluster < U32
      && Leads(dev, vol, DirEntry(ROOT_NAME, 0x10, dev.rootCluster), Targets(path, 0), e, n)
    ensures PathEnds(disk, dev, path, n) && ReadPath(disk, dev, path, n) == Good(Joined(vol, cs))
  {
    hide Formatted, Leads, Resolve, ResolveEnds, Targets, Linked, FileData, ReadEnds;
    FormattedParts(disk, dev, vol);
    Small(dev.rootCluster);
    ResolveRoundTrip(disk, dev, vol, RootDir(dev), Targets(path, 0), e, n);
    FileRoundTrip(disk, dev, vol, cs, n);
  }
}
