/** Concrete runs of the driver that go wrong, on a volume with two clusters of data. */
module FatExamples {
  import opened Bytes
  import opened FatTable
  import opened FatDisk
  import opened FatContent
  import opened FatDriver
  import opened FatFile
  import opened FatIO

  const SMALL: Geometry := Geometry(1, 2, 1, 16, 3, 4, 1, 512, 6)

  /** A table sector in which cluster 2 is followed by cluster 3, the last one. */
  function TwoClusters(): (b: seq<byte>)
    ensures |b| == SECTOR
  {
    Blank()[4 := 3][6 := 0xF8][7 := 0xFF]
  }

  function Blank(): (b: seq<byte>)
    ensures |b| == SECTOR
  {
    seq(SECTOR, _ => 0)
  }

  function SmallDisk(): Disk {
    [Blank(), TwoClusters(), TwoClusters(), Blank(), Blank(), Blank()]
  }

  lemma SmallOk()
    ensures DiskOk(SmallDisk(), SMALL) && Mirrored(SmallDisk(), SMALL)
    ensures SMALL.Total() == 256 && SMALL.HasSectors(2) && SMALL.HasSectors(3) && SMALL.clusterBytes == 512
  {
    hide TwoClusters, Blank, DiskOk, Mirrored;
    SmallDiskOk();
  }

  lemma SmallDiskOk()
    ensures DiskOk(SmallDisk(), SMALL) && Mirrored(SmallDisk(), SMALL)
  {
    hide TwoClusters, Blank;
    var d := SmallDisk();
    assert forall s :: 0 <= s < |d| ==> |d[s]| == SECTOR;
  }

  lemma SmallWords()
    ensures Word(TwoClusters(), 4) == 3 && Word(TwoClusters(), 6) == INVALID && Word(TwoClusters(), 8) == FREE
  {
  }

  lemma SmallEntries()
    requires DiskOk(SmallDisk(), SMALL) && SMALL.Total() == 256
    ensures EntryAt(SmallDisk(), SMALL, 2) == Word(TwoClusters(), 4)
    ensures EntryAt(SmallDisk(), SMALL, 3) == Word(TwoClusters(), 6)
    ensures EntryAt(SmallDisk(), SMALL, 4) == Word(TwoClusters(), 8)
  {
    hide TwoClusters, Word, Blank, DiskOk;
    assert SmallDisk()[1] == TwoClusters();
  }

  lemma TwoLinked(t: seq<nat>)
    requires |t| == 256 && t[2] == 3 && t[3] == INVALID
    ensures Links(t, [2, 3], INVALID)
  {
  }

  lemma SmallVolume()
    ensures DiskOk(SmallDisk(), SMALL) && Mirrored(SmallDisk(), SMALL)
    ensures var v := View(SmallDisk(), SMALL);
            && Links(v.tbl, [2, 3], INVALID) && InData(v.data, 512, [2, 3])
            && |v.tbl| == 256 && v.tbl[2] == 3 && v.tbl[3] == INVALID && v.tbl[4] == FREE
  {
    hide Word, TwoClusters, DiskOk, Mirrored, SmallDisk, EntryAt, Links;
    SmallOk();
    SmallWords();
    SmallEntries();
    TwoLinked(View(SmallDisk(), SMALL).tbl);
  }

  lemma SmallFile(fat: Fat, file: File, ch: seq<nat>, text: seq<byte>)
    requires fat.Valid() && fat.g == SMALL && fat.disk == SmallDisk() && ch == [2, 3]
    requires file.size == file.pos == 600 && file.sblk == 2 && file.cblk == 3
    requires InData(fat.Vol().data, 512, ch) && Links(fat.Vol().tbl, ch, INVALID)
    requires text == Contents(fat.Vol().data, 512, ch, 600)
    ensures Readable(fat, file, ch, text) && fat.g.clusterBytes == 512
    ensures ClusterOf(file.pos, fat.g.clusterBytes) == 1 < |ch| && ClusterOf(0, fat.g.clusterBytes) == 0
  {
    assert ClusterOf(600, 512) == 1;
  }

  lemma SmallView(fat: Fat)
    requires fat.Valid() && fat.g == SMALL && fat.disk == SmallDisk()
    ensures Links(fat.Vol().tbl, [2, 3], INVALID) && InData(fat.Vol().data, 512, [2, 3])
  {
    hide Links, InData, SmallDisk, DiskOk, View;
    SmallVolume();
  }

  lemma SmallText(data: seq<seq<byte>>)
    requires InData(data, 512, [2, 3])
    ensures 600 <= |[2, 3]| * 512
  {
  }

  /** A file of 600 bytes in two clusters stands at its end, as after writing it. Seeking to 0 succeeds
      and leaves the second cluster as the current one. */
  method SeekBackFails()
    returns (fat: Fat, file: File, err: int, ghost ch: seq<nat>, ghost text: seq<byte>, ghost before: bool)
    ensures fat.Valid() && before && err == 0 && file.pos == 0 && file.sblk == 2 && file.cblk == 3
    ensures |text| == 600 && !Readable(fat, file, ch, text)
  {
    hide *;
    SmallVolume();
    fat := new Fat(SMALL, SmallDisk());
    file := new File();
    file.size, file.pos, file.sblk, file.cblk := 600, 600, 2, 3;
    ch := [2, 3];
    SmallView(fat);
    SmallText(fat.Vol().data);
    text := Contents(fat.Vol().data, 512, ch, 600);
    assert |text| == 600;
    SmallFile(fat, file, ch, text);
    before := Readable(fat, file, ch, text);
    err := SeekThenReadable(fat, file, 0, ch, text);
  }

  /** The search is bounded by the table alone: on a volume whose table has more entries than the data
      area has clusters, it hands out a cluster that is not on the disk. */
  method AllocPastDisk() returns (fat: Fat, r: nat)
    ensures fat.Valid() && 2 <= r < fat.g.Total() && !fat.g.HasSectors(r)
  {
    hide *;
    SmallVolume();
    fat := new Fat(SMALL, SmallDisk());
    OnSmallWhen(fat);
    SmallFree(fat);
    ghost var t := fat.Vol().tbl;
    r := fat.ClusterAllocFree(1);
    FirstHandedOut(t, fat.Vol().tbl, r);
  }

  /** The volume is as on the small disk. */
  ghost predicate OnSmall(fat: Fat)
    reads fat, fat.buffer
  {
    fat.Valid() && DiskOk(SmallDisk(), SMALL) && fat.Vol() == View(SmallDisk(), SMALL)
  }

  lemma OnSmallWhen(fat: Fat)
    requires fat.Valid() && fat.g == SMALL && fat.disk == SmallDisk()
    ensures OnSmall(fat)
  {
    hide View, SmallDisk, Mirrored;
  }

  lemma OnSmallSame(fat: Fat, v: Volume)
    requires fat.Valid() && v == fat.Vol() && DiskOk(SmallDisk(), SMALL) && v == View(SmallDisk(), SMALL)
    ensures OnSmall(fat)
  {
    hide View, SmallDisk, Mirrored, DiskOk;
  }

  lemma SmallFree(fat: Fat)
    requires OnSmall(fat)
    ensures FreeCount(fat.Vol().tbl) >= 1 && FreeList(fat.Vol().tbl)[0] == 4
    ensures !SMALL.HasSectors(4) && SMALL.Total() == 256
  {
    hide Links, InData, SmallDisk, DiskOk, Mirrored, View;
    SmallVolume();
    FirstFree(fat.Vol().tbl);
  }

  lemma FirstFree(t: seq<nat>)
    requires |t| == 256 && t[2] != FREE && t[3] != FREE && t[4] == FREE
    ensures FreeCount(t) >= 1 && FreeList(t)[0] == 4
  {
    FreeBelowPrefix(t, 5, |t|);
    assert FreeBelow(t, 2) == [] && FreeBelow(t, 3) == [] && FreeBelow(t, 4) == [];
    assert FreeBelow(t, 5) == [4];
  }

  lemma FirstHandedOut(t: seq<nat>, t': seq<nat>, r: nat)
    requires FreeCount(t) >= 1 && FreeList(t)[0] == 4 && AllocResult(t, t', 1, r)
    ensures r == 4
  {
  }

  // ---------------------------------------------------------------- writing behind a full chain

  lemma FullFile(fat: Fat, file: File, ch: seq<nat>, text: seq<byte>)
    requires fat.Valid() && fat.g == SMALL && ch == [2, 3]
    requires file.size == 1024 && file.pos == 0 && file.sblk == file.cblk == 2
    requires InData(fat.Vol().data, 512, ch) && Links(fat.Vol().tbl, ch, INVALID)
    requires text == Contents(fat.Vol().data, 512, ch, 1024)
    ensures Readable(fat, file, ch, text) && fat.g.clusterBytes == 512
  {
    assert ClusterOf(0, 512) == 0;
  }

  lemma FullText(data: seq<seq<byte>>)
    requires InData(data, 512, [2, 3])
    ensures 1024 <= |[2, 3]| * 512
  {
  }

  /** A file of 1024 bytes in two clusters, read to its end. */
  method ReadFullFile() returns (fat: Fat, file: File, ghost ch: seq<nat>, ghost text: seq<byte>)
    ensures fresh(fat) && fresh(fat.buffer) && fresh(file)
    ensures fat.Valid() && fat.g == SMALL && fat.g.clusterBytes == 512 && OnSmall(fat)
    ensures ch == [2, 3] && |text| == 1024 && BehindChain(fat, file, ch, text)
  {
    hide *;
    SmallVolume();
    fat := new Fat(SMALL, SmallDisk());
    file := new File();
    file.size, file.pos, file.sblk, file.cblk := 1024, 0, 2, 2;
    ch := [2, 3];
    SmallView(fat);
    OnSmallWhen(fat);
    ghost var v := fat.Vol();
    OnSmallIs(fat);
    FullText(fat.Vol().data);
    text := Contents(fat.Vol().data, 512, ch, 1024);
    assert |text| == 1024;
    FullFile(fat, file, ch, text);
    var bytes := FatfsRead(fat, file, 1024, ch, text);
    OnSmallSame(fat, v);
    FullSizeIs(ch);
    BehindWhen(fat, file, ch, text);
  }

  lemma OnSmallIs(fat: Fat)
    requires OnSmall(fat)
    ensures DiskOk(SmallDisk(), SMALL) && fat.Vol() == View(SmallDisk(), SMALL)
  {
  }

  lemma FullSizeIs(ch: seq<nat>)
    requires ch == [2, 3]
    ensures ch != [] && |ch| * 512 == 1024
  {
  }

  /** Writing one byte there reports success, and the size passes the chain; no cluster of the volume
      holds the byte. */
  method StrayWrite() returns (fat: Fat, file: File, total: nat, ghost ch: seq<nat>)
    ensures fat.Valid() && total == 1 && ch == [2, 3] && file.size == 1025 > |ch| * fat.g.clusterBytes
    ensures OnSmall(fat)
  {
    hide *;
    ghost var text, ch';
    fat, file, ch, text := ReadFullFile();
    BehindIsAtEnd(fat, file, ch, text);
    OnSmallIs(fat);
    FullSizeIs(ch);
    ghost var v, pos := fat.Vol(), file.pos;
    WriteCases(v.tbl, 512, ch, text, [7]);
    total, ch' := FatfsWrite(fat, file, [7], ch, text);
    StrayedIs(v, fat.Vol(), pos, file, 1);
    OnSmallSame(fat, v);
  }

  /** Writing a whole cluster there reports nothing written, and a cluster is used by no file. */
  method LostCluster() returns (fat: Fat, file: File, total: nat)
    ensures fat.Valid() && total == 0 && file.size == 1024
    ensures |fat.Vol().tbl| > 4 && View(SmallDisk(), SMALL).tbl[4] == FREE && fat.Vol().tbl[4] == INVALID
  {
    hide *;
    ghost var ch, text, ch';
    fat, file, ch, text := ReadFullFile();
    BehindIsAtEnd(fat, file, ch, text);
    SmallFree(fat);
    OnSmallIs(fat);
    SmallVolume();
    FullSizeIs(ch);
    ghost var v := fat.Vol();
    var buf: seq<byte> := seq(512, _ => 7);
    NeededFor(512);
    WriteCases(v.tbl, 512, ch, text, buf);
    total, ch' := FatfsWrite(fat, file, buf, ch, text);
    FirstOrphan(v.tbl, fat.Vol().tbl);
  }

  lemma NeededFor(cb: nat)
    requires cb == 512
    ensures Needed(1024, 512, cb) == 1
  {
  }

  lemma FirstOrphan(t: seq<nat>, t': seq<nat>)
    requires Orphaned(t, t', 1) && FreeList(t)[0] == 4
    ensures |t'| == |t| > 4 && t'[4] == INVALID
  {
    FreePrefix(t, 1);
    assert FreeList(t)[..1] == [4];
    assert [4][0] == 4;
  }
}
