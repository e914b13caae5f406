/** Bytes and little-endian words, as the x86 stores them. */
module Bytes {
  import opened Bits

  type byte = b: int | 0 <= b < 0x100

  function Le16(lo: byte, hi: byte): (w: nat)
    ensures w < 0x1_0000
  {
    lo + 0x100 * hi
  }

  function Low(w: nat): byte { w % 0x100 }
  function High(w: nat): byte { w / 0x100 % 0x100 }

  /** A little-endian number of any length. */
  function Le(b: seq<byte>): nat {
    if b == [] then 0 else b[0] + 0x100 * Le(b[1..])
  }

  /** The n low bytes of a number, lowest first. */
  function LeBytes(x: nat, n: nat): (b: seq<byte>)
    ensures |b| == n
  {
    if n == 0 then [] else [x % 0x100] + LeBytes(x / 0x100, n - 1)
  }

  lemma {:induction false} LeRoundTrip(x: nat, n: nat)
    requires x < Pow2(8 * n)
    ensures Le(LeBytes(x, n)) == x
    decreases n
  {
    if n > 0 {
      var m: nat := n - 1;
      EightBits(8 * m);
      assert 8 * n == 8 * m + 8;
      LeRoundTrip(x / 0x100, m);
    }
  }

  lemma SliceOfSlice<T>(s: seq<T>, a: nat, b: nat, c: nat, d: nat)
    requires a <= b <= |s| && c <= d <= b - a
    ensures s[a..b][c..d] == s[a + c..a + d]
  {
    var l, r := s[a..b][c..d], s[a + c..a + d];
    assert |l| == |r| && forall i :: 0 <= i < |l| ==> l[i] == r[i];
    assert l == r;
  }

  lemma SliceAppend<T>(s: seq<T>, a: nat, b: nat, c: nat)
    requires a <= b <= c <= |s|
    ensures s[a..b] + s[b..c] == s[a..c]
  {
    var l, r := s[a..b] + s[b..c], s[a..c];
    assert |l| == |r| && forall i :: 0 <= i < |l| ==> l[i] == r[i];
    assert l == r;
  }
}

/** The FAT16 volume on the disk: where the tables, the root directory and the data clusters
    lie (fatfs_mount), and what a sector array means as a table, a directory and clusters. */
module FatDisk {
  import opened Bits
  import opened Bytes

  const SECTOR: nat := 512
  const ENTRY: nat := 32

  type Disk = seq<seq<byte>>

  datatype Geometry = Geometry(
    tblStart: nat, tblCnt: nat, tblSectors: nat, rootEntCnt: nat,
    rootStart: nat, dataStart: nat, secPerCluster: nat, clusterBytes: nat, sectors: nat)
  {
    /** The layout computed by fatfs_mount for a volume it accepts: two tables of fewer than
        65536 entries and clusters that fit the one-page buffer. */
    predicate Ok() {
      && tblStart >= 1 && tblCnt == 2 && 1 <= tblSectors <= 255
      && rootEntCnt % 16 == 0
      && rootStart == tblStart + tblSectors * tblCnt
      && dataStart == rootStart + rootEntCnt * 32 / SECTOR
      && secPerCluster in {1, 2, 4, 8}
      && clusterBytes == secPerCluster * SECTOR
    }

    /** Number of table entries: `c_total`. */
    function Total(): nat {
      tblSectors * SECTOR / 2
    }

    /** Sectors that go through the one-sector cache. */
    predicate IsMeta(s: int) {
      tblStart <= s < tblStart + tblSectors || rootStart <= s < dataStart
    }

    function ClusterSector(c: nat): nat
      requires c >= 2
    {
      dataStart + (c - 2) * secPerCluster
    }

    /** The device has the sectors of the cluster. The table may have entries for clusters without
        any, because its size is a whole number of sectors. */
    predicate HasSectors(c: nat)
      requires c >= 2
    {
      ClusterSector(c) + secPerCluster <= sectors
    }
  }

  ghost predicate DiskOk(d: Disk, g: Geometry)
    ensures DiskOk(d, g) ==> g.tblStart + 2 * g.tblSectors == g.rootStart <= g.dataStart <= |d|
  {
    && g.Ok() && |d| == g.sectors && g.dataStart <= |d|
    && (forall s :: 0 <= s < |d| ==> |d[s]| == SECTOR)
  }

  /** Both file allocation tables hold the same sectors. */
  ghost predicate Mirrored(d: Disk, g: Geometry)
    requires DiskOk(d, g)
  {
    forall s {:trigger d[s]} :: g.tblStart <= s < g.tblStart + g.tblSectors ==> d[s] == d[s + g.tblSectors]
  }

  lemma ClusterStarts(g: Geometry, c: nat)
    requires 2 <= c
    ensures g.dataStart <= g.ClusterSector(c)
  {
    ClusterGap(g, 2, c);
  }

  /** Different clusters lie on different sectors. */
  lemma ClusterGap(g: Geometry, a: nat, b: nat)
    requires 2 <= a
    ensures a < b ==> g.ClusterSector(a) + g.secPerCluster <= g.ClusterSector(b)
    ensures a == b ==> g.ClusterSector(a) == g.ClusterSector(b)
  {
    if a < b {
      ScaleStrict(a - 2, b - 2, g.secPerCluster);
    }
  }

  // ---------------------------------------------------------------- abstract view

  function Word(sector: seq<byte>, off: nat): nat
    requires off + 1 < |sector|
  {
    Le16(sector[off], sector[off + 1])
  }

  /** A cluster has an entry exactly if its sector lies in the table. */
  lemma EntryInTable(g: Geometry, c: nat)
    ensures c * 2 / SECTOR < g.tblSectors <==> c < g.Total()
    ensures c * 2 % SECTOR + 1 < SECTOR
  {
  }

  ghost function EntryAt(d: Disk, g: Geometry, c: nat): nat
    requires DiskOk(d, g) && c < g.Total()
  {
    EntryInTable(g, c);
    Word(d[g.tblStart + c * 2 / SECTOR], c * 2 % SECTOR)
  }

  ghost function Table(d: Disk, g: Geometry): (t: seq<nat>)
    requires DiskOk(d, g)
    ensures |t| == g.Total()
    ensures forall c :: 0 <= c < |t| ==> t[c] == EntryAt(d, g, c)
  {
    seq(g.Total(), c requires 0 <= c < g.Total() => EntryAt(d, g, c))
  }

  /** Sector of the root directory that holds entry i, and the entry's offset in it. */
  function EntrySector(i: nat): nat { i * 32 / SECTOR }

  function EntryOff(i: nat): (o: nat)
    ensures o + ENTRY <= SECTOR
  {
    i * 32 % SECTOR
  }

  lemma EntryInRoot(g: Geometry, i: nat)
    requires g.Ok() && i < g.rootEntCnt
    ensures g.rootStart + EntrySector(i) < g.dataStart
  {
  }

  /** Different entries of one sector do not overlap. */
  lemma EntryPlaces(i: nat, k: nat)
    ensures i != k && EntrySector(i) == EntrySector(k) ==>
              EntryOff(i) + ENTRY <= EntryOff(k) || EntryOff(k) + ENTRY <= EntryOff(i)
    ensures i == k ==> EntrySector(i) == EntrySector(k) && EntryOff(i) == EntryOff(k)
  {
    assert i * 32 / SECTOR == i / 16 && i * 32 % SECTOR == 32 * (i % 16);
    assert k * 32 / SECTOR == k / 16 && k * 32 % SECTOR == 32 * (k % 16);
  }

  ghost function DirEntry(d: Disk, g: Geometry, i: nat): (e: seq<byte>)
    requires DiskOk(d, g) && i < g.rootEntCnt
    ensures |e| == ENTRY
  {
    EntryInRoot(g, i);
    d[g.rootStart + EntrySector(i)][EntryOff(i)..EntryOff(i) + ENTRY]
  }

  ghost function Dir(d: Disk, g: Geometry): (t: seq<seq<byte>>)
    requires DiskOk(d, g)
    ensures |t| == g.rootEntCnt
    ensures forall i :: 0 <= i < |t| ==> t[i] == DirEntry(d, g, i)
  {
    seq(g.rootEntCnt, i requires 0 <= i < g.rootEntCnt => DirEntry(d, g, i))
  }

  /** n consecutive sectors as one byte string. */
  function Flat(d: Disk, s: nat, n: nat): seq<byte>
    requires s + n <= |d|
  {
    if n == 0 then [] else Flat(d, s, n - 1) + d[s + n - 1]
  }

  /** The bytes of a cluster; none for a cluster without sectors. */
  ghost function ClusterBytes(d: Disk, g: Geometry, c: nat): seq<byte>
    requires DiskOk(d, g) && 2 <= c < g.Total()
  {
    if g.HasSectors(c) then Flat(d, g.ClusterSector(c), g.secPerCluster) else []
  }

  ghost function Data(d: Disk, g: Geometry): (t: seq<seq<byte>>)
    requires DiskOk(d, g)
    ensures |t| == g.Total()
    ensures forall c :: 2 <= c < |t| ==> t[c] == ClusterBytes(d, g, c)
    ensures forall c :: 2 <= c < |t| ==> |t[c]| == if g.HasSectors(c) then g.clusterBytes else 0
  {
    var t := seq(g.Total(), c requires 0 <= c < g.Total() => if c < 2 then [] else ClusterBytes(d, g, c));
    assert forall c :: 2 <= c < |t| ==> |t[c]| == if g.HasSectors(c) then g.clusterBytes else 0 by {
      forall c | 2 <= c < |t| ensures |t[c]| == if g.HasSectors(c) then g.clusterBytes else 0 {
        if g.HasSectors(c) {
          FlatLength(d, g.ClusterSector(c), g.secPerCluster);
        }
      }
    }
    t
  }

  /** The volume as the file layer sees it. */
  datatype Volume = Volume(tbl: seq<nat>, dir: seq<seq<byte>>, data: seq<seq<byte>>)

  ghost function View(d: Disk, g: Geometry): Volume
    requires DiskOk(d, g)
  {
    Volume(Table(d, g), Dir(d, g), Data(d, g))
  }

  lemma {:induction false} FlatLength(d: Disk, s: nat, n: nat)
    requires s + n <= |d| && forall k :: 0 <= k < |d| ==> |d[k]| == SECTOR
    ensures |Flat(d, s, n)| == n * SECTOR
    decreases n
  {
    if n > 0 {
      FlatLength(d, s, n - 1);
    }
  }

  lemma {:induction false} FlatSame(d: Disk, d': Disk, s: nat, n: nat)
    requires s + n <= |d| && s + n <= |d'|
    requires forall k :: s <= k < s + n ==> d[k] == d'[k]
    ensures Flat(d, s, n) == Flat(d', s, n)
    decreases n
  {
    if n > 0 {
      FlatSame(d, d', s, n - 1);
    }
  }

  // ---------------------------------------------------------------- effect of writes on the view

  ghost predicate SameSectors(d: Disk, d': Disk, lo: nat, hi: nat) {
    |d| == |d'| && forall s :: lo <= s < hi && s < |d| ==> d[s] == d'[s]
  }

  lemma DataUnchanged(d: Disk, d': Disk, g: Geometry)
    requires DiskOk(d, g) && DiskOk(d', g) && SameSectors(d, d', g.dataStart, |d|)
    ensures Data(d, g) == Data(d', g)
  {
    var t, t' := Data(d, g), Data(d', g);
    forall c | 2 <= c < g.Total()
      ensures t[c] == t'[c]
    {
      ClusterStarts(g, c);
      if g.HasSectors(c) {
        FlatSame(d, d', g.ClusterSector(c), g.secPerCluster);
      }
    }
    DataLow(d, g);
    DataLow(d', g);
  }

  lemma DataLow(d: Disk, g: Geometry)
    requires DiskOk(d, g)
    ensures Data(d, g)[0] == [] && Data(d, g)[1] == []
  {
  }

  lemma DirUnchanged(d: Disk, d': Disk, g: Geometry)
    requires DiskOk(d, g) && DiskOk(d', g) && SameSectors(d, d', g.rootStart, g.dataStart)
    ensures Dir(d, g) == Dir(d', g)
  {
    hide EntrySector, EntryOff;
    var t, t' := Dir(d, g), Dir(d', g);
    forall i | 0 <= i < g.rootEntCnt
      ensures t[i] == t'[i]
    {
      EntryInRoot(g, i);
    }
  }

  lemma TableUnchanged(d: Disk, d': Disk, g: Geometry)
    requires DiskOk(d, g) && DiskOk(d', g) && SameSectors(d, d', g.tblStart, g.tblStart + g.tblSectors)
    ensures Table(d, g) == Table(d', g)
  {
    var t, t' := Table(d, g), Table(d', g);
    assert forall c :: 0 <= c < g.Total() ==> t[c] == t'[c];
  }

  /** The sector of table entry c with that entry replaced. */
  function PatchWord(sector: seq<byte>, off: nat, v: nat): (r: seq<byte>)
    requires off + 1 < |sector|
  {
    sector[off := Low(v)][off + 1 := High(v)]
  }

  /** Storing an entry in both tables changes that entry and nothing else. */
  lemma TableStore(d: Disk, d': Disk, g: Geometry, c: nat, v: nat)
    requires DiskOk(d, g) && Mirrored(d, g) && c < g.Total() && v < 0x1_0000
    requires var s := g.tblStart + c * 2 / SECTOR;
             var b := PatchWord(d[s], c * 2 % SECTOR, v);
             d' == d[s := b][s + g.tblSectors := b]
    ensures DiskOk(d', g) && Mirrored(d', g)
    ensures View(d', g) == View(d, g).(tbl := Table(d, g)[c := v])
  {
    var s := g.tblStart + c * 2 / SECTOR;
    MirroredStore(d, d', g, s, PatchWord(d[s], c * 2 % SECTOR, v));
    hide DiskOk, Mirrored, SameSectors, Table, Dir, Data;
    DataUnchanged(d, d', g);
    DirUnchanged(d, d', g);
    TableStoreEntries(d, d', g, c, v);
  }

  lemma MirroredStore(d: Disk, d': Disk, g: Geometry, s: nat, b: seq<byte>)
    requires DiskOk(d, g) && Mirrored(d, g) && |b| == SECTOR
    requires g.tblStart <= s < g.tblStart + g.tblSectors && d' == d[s := b][s + g.tblSectors := b]
    ensures DiskOk(d', g) && Mirrored(d', g) && d'[s] == b
    ensures SameSectors(d, d', g.dataStart, |d|) && SameSectors(d, d', g.rootStart, g.dataStart)
    ensures SameSectors(d, d', g.tblStart, s) && SameSectors(d, d', s + 1, g.tblStart + g.tblSectors)
  {
  }

  lemma TableStoreEntries(d: Disk, d': Disk, g: Geometry, c: nat, v: nat)
    requires DiskOk(d, g) && DiskOk(d', g) && c < g.Total() && v < 0x1_0000
    requires var s := g.tblStart + c * 2 / SECTOR;
             && SameSectors(d, d', g.tblStart, s) && SameSectors(d, d', s + 1, g.tblStart + g.tblSectors)
             && d'[s] == PatchWord(d[s], c * 2 % SECTOR, v)
    ensures Table(d', g) == Table(d, g)[c := v]
  {
    hide DiskOk, Table, PatchWord, SameSectors, Word;
    var t, t' := Table(d, g)[c := v], Table(d', g);
    forall k | 0 <= k < g.Total()
      ensures t'[k] == t[k]
    {
      StoreAt(d, d', g, c, v, k);
    }
  }

  lemma StoreAt(d: Disk, d': Disk, g: Geometry, c: nat, v: nat, k: nat)
    requires DiskOk(d, g) && DiskOk(d', g) && c < g.Total() && v < 0x1_0000 && k < g.Total()
    requires var s := g.tblStart + c * 2 / SECTOR;
             && SameSectors(d, d', g.tblStart, s) && SameSectors(d, d', s + 1, g.tblStart + g.tblSectors)
             && d'[s] == PatchWord(d[s], c * 2 % SECTOR, v)
    ensures EntryAt(d', g, k) == if k == c then v else EntryAt(d, g, k)
  {
    var i, j, o, p := c * 2 / 512, k * 2 / 512, c * 2 % 512, k * 2 % 512;
    EntryInTable(g, k);
    SameEntry(c, k);
    if i == j {
      hide DiskOk;
      WordPatched(d[g.tblStart + i], o, v, p);
    } else {
      hide PatchWord, Word;
      assert d'[g.tblStart + j] == d[g.tblStart + j];
    }
  }

  lemma SameEntry(c: nat, k: nat)
    ensures c * 2 / 512 == k * 2 / 512 && c * 2 % 512 == k * 2 % 512 <==> c == k
    ensures var o, p := c * 2 % 512, k * 2 % 512; p == o || p + 1 < o || o + 1 < p
  {
  }

  lemma WordPatched(sector: seq<byte>, o: nat, v: nat, p: nat)
    requires o + 1 < |sector| && p + 1 < |sector| && v < 0x1_0000 && (p == o || p + 1 < o || o + 1 < p)
    ensures Word(PatchWord(sector, o, v), p) == if p == o then v else Word(sector, p)
  {
  }

  /** A sector with the directory entry at offset off replaced. */
  function PatchEntry(sector: seq<byte>, off: nat, e: seq<byte>): (r: seq<byte>)
    requires |e| == ENTRY && off + ENTRY <= |sector|
    ensures |r| == |sector|
  {
    sector[..off] + e + sector[off + ENTRY..]
  }

  lemma DirStore(d: Disk, d': Disk, g: Geometry, i: nat, e: seq<byte>)
    requires DiskOk(d, g) && Mirrored(d, g) && i < g.rootEntCnt && |e| == ENTRY
    requires var s, o := g.rootStart + EntrySector(i), EntryOff(i);
             s < g.dataStart && d' == d[s := PatchEntry(d[s], o, e)]
    ensures DiskOk(d', g) && Mirrored(d', g)
    ensures View(d', g) == View(d, g).(dir := Dir(d, g)[i := e])
  {
    var s, o := g.rootStart + EntrySector(i), EntryOff(i);
    SectorStore(d, d', g, s, PatchEntry(d[s], o, e));
    hide DiskOk, Mirrored, SameSectors, Table, Dir, Data;
    DataUnchanged(d, d', g);
    TableUnchanged(d, d', g);
    DirStoreEntries(d, d', g, i, e);
  }

  lemma DirStoreEntries(d: Disk, d': Disk, g: Geometry, i: nat, e: seq<byte>)
    requires DiskOk(d, g) && DiskOk(d', g) && i < g.rootEntCnt && |e| == ENTRY
    requires var s, o := g.rootStart + EntrySector(i), EntryOff(i);
             s < g.dataStart && d' == d[s := PatchEntry(d[s], o, e)]
    ensures Dir(d', g) == Dir(d, g)[i := e]
  {
    hide DirEntry;
    var t, t' := Dir(d, g)[i := e], Dir(d', g);
    forall k | 0 <= k < g.rootEntCnt
      ensures t'[k] == t[k]
    {
      DirSlot(d, d', g, i, e, k);
    }
  }

  lemma SectorStore(d: Disk, d': Disk, g: Geometry, s: nat, b: seq<byte>)
    requires DiskOk(d, g) && Mirrored(d, g) && |b| == SECTOR
    requires g.rootStart <= s < g.dataStart && d' == d[s := b]
    ensures DiskOk(d', g) && Mirrored(d', g)
    ensures SameSectors(d, d', g.dataStart, |d|)
    ensures SameSectors(d, d', g.tblStart, g.tblStart + g.tblSectors)
  {
  }

  lemma DirSlot(d: Disk, d': Disk, g: Geometry, i: nat, e: seq<byte>, k: nat)
    requires DiskOk(d, g) && DiskOk(d', g) && i < g.rootEntCnt && k < g.rootEntCnt && |e| == ENTRY
    requires var s, o := g.rootStart + EntrySector(i), EntryOff(i);
             s < g.dataStart && d' == d[s := PatchEntry(d[s], o, e)]
    ensures DirEntry(d', g, k) == if k == i then e else DirEntry(d, g, k)
  {
    hide PatchEntry, EntrySector, EntryOff;
    var s, o := g.rootStart + EntrySector(i), EntryOff(i);
    EntryPlaces(i, k);
    EntryInRoot(g, k);
    if EntrySector(k) == EntrySector(i) {
      PatchedEntry(d[s], o, e, EntryOff(k));
    }
  }

  lemma PatchedEntry(sector: seq<byte>, off: nat, e: seq<byte>, p: nat)
    requires |e| == ENTRY && off + ENTRY <= |sector| && p + ENTRY <= |sector|
    requires p == off || p + ENTRY <= off || off + ENTRY <= p
    ensures PatchEntry(sector, off, e)[p..p + ENTRY] == if p == off then e else sector[p..p + ENTRY]
  {
    var l := PatchEntry(sector, off, e)[p..p + ENTRY];
    var r := if p == off then e else sector[p..p + ENTRY];
    assert |l| == |r| && forall k :: 0 <= k < |l| ==> l[k] == r[k];
    assert l == r;
  }

  /** Writing all sectors of cluster c changes that cluster's bytes and nothing else. */
  lemma ClusterStore(d: Disk, d': Disk, g: Geometry, c: nat, bytes: seq<byte>)
    requires DiskOk(d, g) && Mirrored(d, g) && 2 <= c < g.Total() && DiskOk(d', g) && g.HasSectors(c)
    requires var s := g.ClusterSector(c);
             && s + g.secPerCluster <= |d|
             && SameSectors(d, d', 0, s) && SameSectors(d, d', s + g.secPerCluster, |d|)
             && Flat(d', s, g.secPerCluster) == bytes
    ensures Mirrored(d', g)
    ensures View(d', g) == View(d, g).(data := Data(d, g)[c := bytes])
  {
    ClusterStarts(g, c);
    TableUnchanged(d, d', g);
    DirUnchanged(d, d', g);
    var t, t' := Data(d, g)[c := bytes], Data(d', g);
    forall k | 2 <= k < g.Total()
      ensures t'[k] == t[k]
    {
      ClusterStarts(g, k);
      ClusterGap(g, k, c);
      ClusterGap(g, c, k);
      if k != c && g.HasSectors(k) {
        FlatSame(d, d', g.ClusterSector(k), g.secPerCluster);
      }
    }
    DataLow(d, g);
    DataLow(d', g);
  }

  /** Sectors behind those of all clusters, or of a cluster that the device has not in full, belong to no
      cluster of the volume. */
  lemma ClusterStray(d: Disk, d': Disk, g: Geometry, c: nat)
    requires DiskOk(d, g) && Mirrored(d, g) && c >= 2 && DiskOk(d', g) && (c >= g.Total() || !g.HasSectors(c))
    requires var s := g.ClusterSector(c);
             SameSectors(d, d', 0, s) && SameSectors(d, d', s + g.secPerCluster, |d|)
    ensures Mirrored(d', g) && View(d', g) == View(d, g)
  {
    ClusterStarts(g, c);
    TableUnchanged(d, d', g);
    DirUnchanged(d, d', g);
    var t, t' := Data(d, g), Data(d', g);
    forall k | 2 <= k < g.Total()
      ensures t'[k] == t[k]
    {
      ClusterStarts(g, k);
      ClusterGap(g, k, c);
      ClusterGap(g, c, k);
      if g.HasSectors(k) {
        FlatSame(d, d', g.ClusterSector(k), g.secPerCluster);
      }
    }
    DataLow(d, g);
    DataLow(d', g);
  }

  // ---------------------------------------------------------------- the view, sector by sector

  /** Where fatfs_mount puts the parts of the volume. */
  lemma Layout(g: Geometry)
    requires g.Ok()
    ensures g.rootStart == g.tblStart + 2 * g.tblSectors && g.dataStart == g.rootStart + g.rootEntCnt * 32 / 512
    ensures g.clusterBytes == g.secPerCluster * 512 && g.Total() == g.tblSectors * 256
  {
  }

  /** The sectors of cluster c hold the bytes in order: the cluster numbers start at 2. */
  ghost predicate ClusterIs(d: Disk, g: Geometry, c: nat, bytes: seq<byte>) {
    && |bytes| == g.secPerCluster * 512 && c >= 2
    && forall k :: 0 <= k < |bytes| ==>
         var s := g.dataStart + (c - 2) * g.secPerCluster + k / 512;
         s < |d| && |d[s]| == 512 && d[s][k % 512] == bytes[k]
  }

  /** The 32 bytes of directory entry i. */
  ghost predicate EntryIs(d: Disk, g: Geometry, i: nat, e: seq<byte>) {
    var s, o := g.rootStart + i * 32 / 512, i * 32 % 512;
    && |e| == 32 && s < |d| && |d[s]| == 512 && o + 32 <= 512
    && forall k :: 0 <= k < 32 ==> d[s][o + k] == e[k]
  }

  /** The little-endian word at entry c of the first table. */
  ghost predicate WordIs(d: Disk, g: Geometry, c: nat, v: nat) {
    var s, o := g.tblStart + c * 2 / 512, c * 2 % 512;
    && s < |d| && |d[s]| == 512 && o + 1 < 512
    && var low: int, high: int := d[s][o], d[s][o + 1]; v == low + 0x100 * high
  }

  lemma {:induction false} FlatByte(d: Disk, s: nat, n: nat, k: nat)
    requires s + n <= |d| && k < n * SECTOR && forall x :: 0 <= x < |d| ==> |d[x]| == SECTOR
    ensures |Flat(d, s, n)| == n * SECTOR && Flat(d, s, n)[k] == d[s + k / 512][k % 512]
    decreases n
  {
    FlatLength(d, s, n);
    FlatLength(d, s, n - 1);
    if k < (n - 1) * SECTOR {
      FlatByte(d, s, n - 1, k);
    } else {
      DivModUnique(k, n - 1, k - (n - 1) * SECTOR, SECTOR);
    }
  }

  lemma FlatIs(d: Disk, g: Geometry, c: nat, bytes: seq<byte>)
    requires DiskOk(d, g) && c >= 2 && g.HasSectors(c) && bytes == Flat(d, g.ClusterSector(c), g.secPerCluster)
    ensures ClusterIs(d, g, c, bytes)
  {
    var s := g.ClusterSector(c);
    FlatLength(d, s, g.secPerCluster);
    forall k | 0 <= k < |bytes|
      ensures s + k / 512 < |d| && |d[s + k / 512]| == 512 && d[s + k / 512][k % 512] == bytes[k]
    {
      FlatByte(d, s, g.secPerCluster, k);
    }
  }

  /** The clusters of the volume on the disk. */
  lemma DataIs(d: Disk, g: Geometry, c: nat)
    requires DiskOk(d, g) && 2 <= c < g.Total() && g.HasSectors(c)
    ensures ClusterIs(d, g, c, View(d, g).data[c])
  {
    FlatIs(d, g, c, Data(d, g)[c]);
  }

  /** The directory entries of the volume on the disk. */
  lemma DirIs(d: Disk, g: Geometry, i: nat)
    requires DiskOk(d, g) && i < g.rootEntCnt
    ensures EntryIs(d, g, i, View(d, g).dir[i])
  {
    EntryInRoot(g, i);
  }

  /** The table entries of the volume on the disk. */
  lemma TableIs(d: Disk, g: Geometry, c: nat)
    requires DiskOk(d, g) && c < g.Total()
    ensures WordIs(d, g, c, View(d, g).tbl[c])
  {
    EntryInTable(g, c);
  }

  /** Exactly the sectors of cluster c changed, as far as the device has them, to the bytes. */
  ghost predicate ClusterWritten(d: Disk, d': Disk, g: Geometry, c: nat, bytes: seq<byte>) {
    && |d'| == |d| && c >= 2 && |bytes| == g.secPerCluster * 512
    && forall s :: 0 <= s < |d| ==>
         var t := s - g.dataStart - (c - 2) * g.secPerCluster;
         d'[s] == if 0 <= t < g.secPerCluster then bytes[t * 512..t * 512 + 512] else d[s]
  }

  /** Exactly the 32 bytes of directory entry i changed. */
  ghost predicate EntryWritten(d: Disk, d': Disk, g: Geometry, i: nat, e: seq<byte>) {
    && |d'| == |d| && EntryIs(d', g, i, e)
    && forall s, k :: 0 <= s < |d| && 0 <= k < |d[s]| ==>
         |d'[s]| == |d[s]|
         && (d'[s][k] != d[s][k] ==> s == g.rootStart + i * 32 / 512 && i * 32 % 512 <= k < i * 32 % 512 + 32)
  }

  /** Exactly the two bytes of entry c changed, in both tables. */
  ghost predicate WordWritten(d: Disk, d': Disk, g: Geometry, c: nat, v: nat) {
    && |d'| == |d| && WordIs(d', g, c, v)
    && forall s, k :: 0 <= s < |d| && 0 <= k < |d[s]| ==>
         |d'[s]| == |d[s]|
         && (d'[s][k] != d[s][k] ==>
               && (s == g.tblStart + c * 2 / 512 || s == g.tblStart + g.tblSectors + c * 2 / 512)
               && c * 2 % 512 <= k < c * 2 % 512 + 2)
  }
}
