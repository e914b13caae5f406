/** The driver object of the FAT16 file system: the one-sector write-through cache, the two
    mirrored tables, and the cluster allocator and freer that work through them. */
module FatDriver {
  import opened Bits
  import opened Bytes
  import opened FatTable
  import opened FatDisk

  class Fat {
    const g: Geometry
    const buffer: array<byte>
    var currSector: int
    var disk: Disk

    /** The cache holds the sector it names, and it names a table or directory sector. */
    ghost predicate CacheCoherent()
      reads this, buffer
      requires DiskOk(disk, g) && buffer.Length == PAGE
    {
      currSector == -1 || (g.IsMeta(currSector) && buffer[..SECTOR] == disk[currSector])
    }

    ghost predicate Valid()
      reads this, buffer
      ensures Valid() ==> DiskOk(disk, g)
    {
      DiskOk(disk, g) && buffer.Length == PAGE && Mirrored(disk, g) && CacheCoherent()
    }

    ghost function Vol(): Volume
      reads this`disk
      requires DiskOk(disk, g)
    {
      View(disk, g)
    }

    lemma TableSize()
      requires Valid()
      ensures |Vol().tbl| == g.Total() == g.tblSectors * 256 && 2 <= g.Total() < 0x1_0000
    {
    }

    lemma GeometryOk()
      requires Valid()
      ensures g.Ok()
    {
    }

    /** fatfs_mount leaves the boot sector in the buffer and the cache empty. */
    constructor (geometry: Geometry, device: Disk)
      requires DiskOk(device, geometry) && Mirrored(device, geometry)
      ensures Valid() && g == geometry && disk == device && fresh(buffer)
    {
      g := geometry;
      disk := device;
      buffer := new byte[PAGE];
      currSector := -1;
    }

    /** dev_read of cnt sectors into the buffer. The device stops at its end and returns the number of
        sectors moved, which is never negative. */
    method DevReadBuffer(sector: nat, cnt: nat) returns (count: nat)
      requires DiskOk(disk, g) && buffer.Length == PAGE && cnt <= 8
      modifies buffer
      ensures count == Reached(|disk|, sector, cnt)
      ensures sector + cnt <= |disk| ==> buffer[..cnt * SECTOR] == Flat(disk, sector, cnt)
    {
      count := 0;
      while count < cnt && sector + count < |disk|
        invariant count <= cnt && (count > 0 ==> sector + count <= |disk|)
        invariant sector + count <= |disk| ==> buffer[..count * SECTOR] == Flat(disk, sector, count)
      {
        ReadOneSector(sector, count);
        count := count + 1;
      }
    }

    method ReadOneSector(sector: nat, i: nat)
      requires DiskOk(disk, g) && buffer.Length == PAGE && i < 8 && sector + i < |disk|
      requires buffer[..i * SECTOR] == Flat(disk, sector, i)
      modifies buffer
      ensures buffer[..(i + 1) * SECTOR] == Flat(disk, sector, i + 1)
    {
      var src := disk[sector + i];
      forall k | 0 <= k < SECTOR {
        buffer[i * SECTOR + k] := src[k];
      }
      assert buffer[..i * SECTOR] == old(buffer[..i * SECTOR]);
      assert buffer[i * SECTOR..(i + 1) * SECTOR] == src;
      assert buffer[..(i + 1) * SECTOR] == buffer[..i * SECTOR] + buffer[i * SECTOR..(i + 1) * SECTOR];
    }

    /** kernel_memcpy into the buffer. */
    method CopyIn(off: nat, src: seq<byte>)
      requires off + |src| <= buffer.Length
      modifies buffer
      ensures buffer[..] == old(buffer[..])[..off] + src + old(buffer[..])[off + |src|..]
    {
      forall k | 0 <= k < |src| {
        buffer[off + k] := src[k];
      }
    }

    method BreadSector(sector: nat)
      requires Valid() && g.IsMeta(sector)
      modifies this`currSector, buffer
      ensures Valid() && currSector == sector && buffer[..SECTOR] == disk[sector]
    {
      if sector == currSector {
        return;
      }
      var count := DevReadBuffer(sector, 1);
      assert Flat(disk, sector, 1) == Flat(disk, sector, 0) + disk[sector] == disk[sector];
      currSector := sector;
    }

    method BwriteSector(sector: nat)
      requires buffer.Length == PAGE && sector < |disk|
      modifies this`disk
      ensures disk == old(disk)[sector := buffer[..SECTOR]]
    {
      disk := disk[sector := buffer[..SECTOR]];
    }

    method ClusterGetNext(curr: nat) returns (next: nat)
      requires Valid()
      modifies this`currSector, buffer
      ensures Valid()
      ensures next == Next(Vol().tbl, curr)
      ensures if 2 <= curr < 0xFFF8 && curr < g.tblSectors * 256 then WordIs(disk, g, curr, next) else next == 0xFFF8
    {
      hide DiskOk, Mirrored, CacheCoherent, WordIs;
      TableSize();
      EntryInTable(g, curr);
      if !ClusterIsValid(curr) {
        return INVALID;
      }
      var offset := curr * 2;
      var sector := offset / SECTOR;
      var offSector := offset % SECTOR;
      if sector >= g.tblSectors {
        return INVALID;
      }
      BreadSector(g.tblStart + sector);
      CachedEntry(curr);
      TableIs(disk, g, curr);
      next := Le16(buffer[offSector], buffer[offSector + 1]);
    }

    lemma CachedEntry(c: nat)
      requires Valid() && c < g.Total() && currSector == g.tblStart + c * 2 / SECTOR
      ensures c * 2 % SECTOR + 1 < SECTOR <= buffer.Length
      ensures Le16(buffer[c * 2 % SECTOR], buffer[c * 2 % SECTOR + 1]) == Vol().tbl[c]
    {
      var o, b := c * 2 % SECTOR, buffer[..SECTOR];
      assert b[o] == buffer[o] && b[o + 1] == buffer[o + 1];
    }

    /** The result is the C return value: 0 on success, -1 for an invalid cluster, and the
        positive 0xFFF8 when the entry lies past the table. */
    method ClusterSetNext(curr: nat, next: nat) returns (err: int)
      requires Valid() && next < 0x1_0000
      modifies this, buffer
      ensures Valid()
      ensures Vol() == old(Vol()).(tbl := Set(old(Vol()).tbl, curr, next))
      ensures err == if !ClusterIsValid(curr) then -1 else if InTable(old(Vol()).tbl, curr) then 0 else INVALID
      ensures if 2 <= curr < 0xFFF8 && curr < g.tblSectors * 256 then WordWritten(old(disk), disk, g, curr, next)
              else disk == old(disk)
    {
      hide DiskOk, Mirrored, CacheCoherent, WordWritten;
      TableSize();
      EntryInTable(g, curr);
      if !ClusterIsValid(curr) {
        return -1;
      }
      var offset := curr * 2;
      var sector := offset / SECTOR;
      var offSector := offset % SECTOR;
      if sector >= g.tblSectors {
        return INVALID;
      }
      BreadSector(g.tblStart + sector);
      err := StoreEntry(curr, sector, offSector, next);
    }

    /** The second half of cluster_set_next: patch the cached sector, write it to every table. */
    method StoreEntry(ghost curr: nat, sector0: nat, offSector: nat, next: nat) returns (err: int)
      requires Valid() && curr < g.Total() && next < 0x1_0000
      requires sector0 == curr * 2 / SECTOR && offSector == curr * 2 % SECTOR
      requires currSector == g.tblStart + sector0
      modifies this`disk, buffer
      ensures Valid()
      ensures Vol() == old(Vol()).(tbl := old(Vol()).tbl[curr := next])
      ensures err == 0 && WordWritten(old(disk), disk, g, curr, next)
    {
      ghost var d0, s := disk, g.tblStart + sector0;
      buffer[offSector] := Low(next);
      buffer[offSector + 1] := High(next);
      assert buffer[..SECTOR] == PatchWord(d0[s], offSector, next);
      WriteTables(sector0);
      TableStore(d0, disk, g, curr, next);
      WordStored(d0, disk, g, curr, next);
      return 0;
    }

    method WriteTables(sector0: nat)
      requires DiskOk(disk, g) && buffer.Length == PAGE && sector0 < g.tblSectors
      modifies this`disk
      ensures var s := g.tblStart + sector0;
              disk == old(disk)[s := buffer[..SECTOR]][s + g.tblSectors := buffer[..SECTOR]]
    {
      var sector := sector0;
      ghost var s := g.tblStart + sector0;
      ghost var size := |disk|;
      assert g.tblCnt == 2 && s + g.tblSectors < size;
      hide DiskOk;
      var i := 0;
      while i < g.tblCnt
        invariant i <= 2 && |disk| == size
        invariant sector == sector0 + (if i == 0 then 0 else if i == 1 then g.tblSectors else 2 * g.tblSectors)
        invariant disk == if i == 0 then old(disk)
                          else if i == 1 then old(disk)[s := buffer[..SECTOR]]
                          else old(disk)[s := buffer[..SECTOR]][s + g.tblSectors := buffer[..SECTOR]]
      {
        BwriteSector(g.tblStart + sector);
        sector := sector + g.tblSectors;
        i := i + 1;
      }
    }

    /** cluster_free_chain: walks on while the cluster number is valid, freeing each entry. It
        terminates on every table, because each step frees an entry or ends the walk. */
    method ClusterFreeChain(start0: nat)
      requires Valid()
      modifies this, buffer
      ensures Valid()
      ensures Vol() == old(Vol()).(tbl := FreeChain(old(Vol()).tbl, start0))
    {
      hide *;
      var start: nat := start0;
      ghost var v := Vol();
      while ClusterIsValid(start)
        invariant Valid() && Vol() == v.(tbl := Vol().tbl)
        invariant FreeChain(Vol().tbl, start) == FreeChain(v.tbl, start0)
        decreases UsedCount(Vol().tbl), ClusterIsValid(start)
      {
        FreeChainStep(Vol().tbl, start);
        var next := ClusterGetNext(start);
        var err := ClusterSetNext(start, FREE);
        start := next;
      }
      FreeChainStep(Vol().tbl, start);
    }

    /** cluster_alloc_free: first fit from cluster 2 upwards, linking each cluster found to the
        previous one, and undoing the partial chain when the table runs out. */
    method ClusterAllocFree(cnt0: int) returns (r: nat)
      requires Valid()
      modifies this, buffer
      ensures Valid()
      ensures Vol() == old(Vol()).(tbl := Vol().tbl)
      ensures AllocResult(old(Vol()).tbl, Vol().tbl, cnt0, r)
      ensures AllocWords(old(Vol()).tbl, Vol().tbl, cnt0, r)
    {
      hide *;
      TableSize();
      ghost var v0, t0 := Vol(), Vol().tbl;
      BuildStart(t0);
      ghost var t, picked := t0, [];
      var cnt := cnt0;
      var pre: nat, start: nat := INVALID, INVALID;
      var curr: nat := 2;
      while cnt != 0 && curr < g.Total()
        invariant Valid() && Vol() == v0.(tbl := Vol().tbl)
        invariant 2 <= curr <= |t0| == g.Total() && picked == FreeBelow(t0, curr)
        invariant cnt == cnt0 - |picked| && (cnt0 >= 0 ==> cnt >= 0)
        invariant Building(t0, t, picked, start, pre) && t == Vol().tbl
        decreases g.Total() - curr
      {
        cnt, start, pre, picked := AllocProbe(cnt, start, pre, curr, t0, picked);
        curr, t := curr + 1, Vol().tbl;
      }
      BuildEnds(t0, t, picked, start, pre, curr, cnt, cnt0);
      if cnt == 0 {
        var err := ClusterSetNext(pre, INVALID);
        if err == 0 {
          AllocInWords(t0, Vol().tbl, cnt0, start);
          return start;
        }
      }
      ClusterFreeChain(start);
      AllocInWords(t0, Vol().tbl, cnt0, INVALID);
      return INVALID;
    }

    /** One turn of the search: take cluster curr if it is free. */
    method AllocProbe(cnt: int, start: nat, pre: nat, curr: nat, ghost t0: seq<nat>, ghost picked: seq<nat>)
      returns (cnt': int, start': nat, pre': nat, ghost picked': seq<nat>)
      requires Valid() && Building(t0, Vol().tbl, picked, start, pre)
      requires 2 <= curr < |t0| && picked == FreeBelow(t0, curr)
      modifies this, buffer
      ensures Valid() && Vol() == old(Vol()).(tbl := Vol().tbl)
      ensures Building(t0, Vol().tbl, picked', start', pre')
      ensures picked' == FreeBelow(t0, curr + 1) && cnt' + |picked'| == cnt + |picked|
      ensures cnt - 1 <= cnt' <= cnt
    {
      TableSize();
      BuildProbe(t0, Vol().tbl, picked, start, pre, curr);
      cnt', start', pre', picked' := cnt, start, pre, picked;
      var free := ClusterGetNext(curr);
      if free == FREE {
        LinkAfter(pre, curr, t0, picked, start);
        if !ClusterIsValid(start) {
          start' := curr;
        }
        pre' := curr;
        cnt' := cnt - 1;
        picked' := picked + [curr];
      }
    }

    method LinkAfter(pre: nat, curr: nat, ghost t0: seq<nat>, ghost picked: seq<nat>, ghost start: nat)
      requires Valid() && Building(t0, Vol().tbl, picked, start, pre)
      requires InTable(t0, curr) && t0[curr] == FREE && |t0| < 0x1_0000 && curr !in picked
      modifies this, buffer
      ensures Valid() && Vol() == old(Vol()).(tbl := Vol().tbl)
      ensures Building(t0, Vol().tbl, picked + [curr], if picked == [] then curr else start, curr)
    {
      BuildStep(t0, Vol().tbl, picked, start, pre, curr);
      if ClusterIsValid(pre) {
        var err := ClusterSetNext(pre, curr);
      }
    }

    // ---------------------------------------------------------------- data clusters

    /** fatfs_read and fatfs_write drop the cached sector before the buffer holds a data cluster. For
        sectors past the end of the device the buffer keeps what it held. */
    method ReadCluster(c: nat)
      requires Valid() && c >= 2
      modifies this`currSector, buffer
      ensures Valid() && currSector == -1
      ensures c < g.Total() && g.HasSectors(c) ==>
                g.clusterBytes <= PAGE && buffer[..g.clusterBytes] == Vol().data[c]
      ensures g.dataStart + (c - 2) * g.secPerCluster + g.secPerCluster <= |disk| ==>
                g.clusterBytes <= buffer.Length && ClusterIs(disk, g, c, buffer[..g.clusterBytes])
    {
      hide ClusterIs;
      ClusterStarts(g, c);
      ReadingIs(c);
      currSector := -1;
      var count := DevReadBuffer(g.ClusterSector(c), g.secPerCluster);
    }

    lemma ReadingIs(c: nat)
      requires Valid() && c >= 2
      ensures g.HasSectors(c) <==> g.dataStart + (c - 2) * g.secPerCluster + g.secPerCluster <= |disk|
      ensures g.HasSectors(c) ==> ClusterIs(disk, g, c, Flat(disk, g.ClusterSector(c), g.secPerCluster))
    {
      if g.HasSectors(c) {
        FlatIs(disk, g, c, Flat(disk, g.ClusterSector(c), g.secPerCluster));
      }
    }

    /** dev_read of a whole cluster straight into the caller's memory. */
    method ReadClusterDirect(c: nat) returns (bytes: seq<byte>)
      requires Valid() && 2 <= c < g.Total() && g.HasSectors(c)
      ensures bytes == Vol().data[c] && ClusterIs(disk, g, c, bytes)
    {
      hide ClusterIs;
      ClusterStarts(g, c);
      ReadingIs(c);
      bytes := Flat(disk, g.ClusterSector(c), g.secPerCluster);
    }

    /** dev_write of a whole cluster. Without sectors for it, and for a number past the table, no
        cluster of the volume changes. */
    method WriteCluster(c: nat, bytes: seq<byte>)
      requires Valid() && c >= 2 && |bytes| == g.clusterBytes
      modifies this`disk
      ensures Valid()
      ensures Vol() == if c < g.Total() && g.HasSectors(c) then old(Vol()).(data := old(Vol()).data[c := bytes])
                       else old(Vol())
      ensures ClusterWritten(old(disk), disk, g, c, bytes)
    {
      hide ClusterWritten;
      ClusterStarts(g, c);
      ghost var d0 := disk;
      var count := DevWrite(g.ClusterSector(c), g.secPerCluster, bytes);
      WrittenWhen(d0, disk, g, c, bytes);
      if c < g.Total() && g.HasSectors(c) {
        ClusterStore(d0, disk, g, c, bytes);
      } else {
        ClusterStray(d0, disk, g, c);
      }
    }

    /** dev_write of cnt sectors, as far as the device reaches. */
    method DevWrite(sector: nat, cnt: nat, bytes: seq<byte>) returns (count: nat)
      requires DiskOk(disk, g) && g.dataStart <= sector && |bytes| == cnt * SECTOR
      modifies this`disk
      ensures DiskOk(disk, g) && count == Reached(|disk|, sector, cnt)
      ensures SectorsWritten(old(disk), disk, sector, cnt, bytes)
    {
      count := 0;
      while count < cnt && sector + count < |disk|
        invariant count <= cnt && DiskOk(disk, g) && (count > 0 ==> sector + count <= |disk|)
        invariant SectorsWritten(old(disk), disk, sector, count, bytes[..count * SECTOR])
      {
        disk := disk[sector + count := bytes[count * SECTOR..(count + 1) * SECTOR]];
        count := count + 1;
      }
      assert bytes[..cnt * SECTOR] == bytes;
    }

    // ---------------------------------------------------------------- directory entries

    /** read_dir_entry: the buffer offset of the entry, or no entry for an index out of range. */
    method ReadDirEntry(index: int) returns (found: bool, off: nat)
      requires Valid()
      modifies this`currSector, buffer
      ensures Valid()
      ensures found <==> 0 <= index < g.rootEntCnt
      ensures found ==> off + ENTRY <= SECTOR <= buffer.Length && buffer[off..off + ENTRY] == Vol().dir[index]
      ensures found ==> EntryIs(disk, g, index, buffer[off..off + ENTRY])
    {
      hide EntryIs;
      if index < 0 || index >= g.rootEntCnt {
        return false, 0;
      }
      var offset := index * ENTRY;
      EntryInRoot(g, index);
      assert offset / SECTOR == EntrySector(index) && offset % SECTOR == EntryOff(index);
      var sector := g.rootStart + offset / SECTOR;
      BreadSector(sector);
      off := offset % SECTOR;
      SliceOfSlice(buffer[..], 0, SECTOR, off, off + ENTRY);
      DirIs(disk, g, index);
      return true, off;
    }

    /** write_dir_entry */
    method WriteDirEntry(item: seq<byte>, index: int) returns (err: int)
      requires Valid() && |item| == ENTRY
      modifies this, buffer
      ensures Valid()
      ensures err == if 0 <= index < g.rootEntCnt then 0 else -1
      ensures Vol() == if err == 0 then old(Vol()).(dir := old(Vol()).dir[index := item]) else old(Vol())
      ensures if err == 0 then EntryWritten(old(disk), disk, g, index, item) else disk == old(disk)
    {
      hide EntryWritten;
      if index < 0 || index >= g.rootEntCnt {
        return -1;
      }
      var offset := index * ENTRY;
      EntryInRoot(g, index);
      assert offset / SECTOR == EntrySector(index) && offset % SECTOR == EntryOff(index);
      var sector, off := g.rootStart + offset / SECTOR, offset % SECTOR;
      BreadSector(sector);
      ghost var d0 := disk;
      CopyIn(off, item);
      assert buffer[..SECTOR] == PatchEntry(d0[sector], off, item);
      BwriteSector(sector);
      DirStore(d0, disk, g, index, item);
      EntryStored(d0, disk, g, index, item);
      return 0;
    }
  }

  /** The sectors from the given one on, as far as the device has them, hold the bytes now. */
  ghost predicate SectorsWritten(d: Disk, d': Disk, sector: nat, cnt: nat, bytes: seq<byte>) {
    && |d'| == |d| && |bytes| == cnt * SECTOR
    && forall s {:trigger d'[s]} :: 0 <= s < |d| ==>
         d'[s] == if sector <= s < sector + cnt then bytes[(s - sector) * SECTOR..(s - sector + 1) * SECTOR] else d[s]
  }

  lemma {:induction false} SectorsFlat(d: Disk, d': Disk, sector: nat, cnt: nat, bytes: seq<byte>, n: nat)
    requires SectorsWritten(d, d', sector, cnt, bytes) && n <= cnt && sector + n <= |d|
    ensures Flat(d', sector, n) == bytes[..n * SECTOR]
    decreases n
  {
    hide SectorsWritten;
    if n > 0 {
      SectorsFlat(d, d', sector, cnt, bytes, n - 1);
      WrittenSector(d, d', sector, cnt, bytes, n - 1);
      Joined(bytes, (n - 1) * SECTOR, n * SECTOR);
    } else {
      WrittenSize(d, d', sector, cnt, bytes);
    }
  }

  lemma WrittenSize(d: Disk, d': Disk, sector: nat, cnt: nat, bytes: seq<byte>)
    requires SectorsWritten(d, d', sector, cnt, bytes)
    ensures |d'| == |d| && |bytes| == cnt * SECTOR
  {
  }

  lemma WrittenSector(d: Disk, d': Disk, sector: nat, cnt: nat, bytes: seq<byte>, i: nat)
    requires SectorsWritten(d, d', sector, cnt, bytes) && i < cnt && sector + i < |d|
    ensures |d'| == |d| && i * SECTOR < (i + 1) * SECTOR <= |bytes|
    ensures d'[sector + i] == bytes[i * SECTOR..(i + 1) * SECTOR]
  {
  }

  lemma Joined(bytes: seq<byte>, lo: nat, hi: nat)
    requires lo <= hi <= |bytes|
    ensures bytes[..hi] == bytes[..lo] + bytes[lo..hi]
  {
  }

  lemma WrittenWhen(d: Disk, d': Disk, g: Geometry, c: nat, bytes: seq<byte>)
    requires DiskOk(d, g) && c >= 2 && SectorsWritten(d, d', g.ClusterSector(c), g.secPerCluster, bytes)
    ensures ClusterWritten(d, d', g, c, bytes)
    ensures var s := g.ClusterSector(c);
            && SameSectors(d, d', 0, s) && SameSectors(d, d', s + g.secPerCluster, |d|)
            && (g.HasSectors(c) ==> Flat(d', s, g.secPerCluster) == bytes)
  {
    if g.HasSectors(c) {
      SectorsFlat(d, d', g.ClusterSector(c), g.secPerCluster, bytes, g.secPerCluster);
      assert bytes[..g.secPerCluster * SECTOR] == bytes;
    }
  }

  lemma WordStored(d: Disk, d': Disk, g: Geometry, c: nat, v: nat)
    requires DiskOk(d, g) && Mirrored(d, g) && c < g.Total() && v < 0x1_0000
    requires var s, o := g.tblStart + c * 2 / SECTOR, c * 2 % SECTOR;
             s + g.tblSectors < |d| && o + 1 < SECTOR && |d[s]| == SECTOR
             && d' == d[s := PatchWord(d[s], o, v)][s + g.tblSectors := PatchWord(d[s], o, v)]
    ensures WordWritten(d, d', g, c, v)
  {
    EntryInTable(g, c);
    assert Low(v) + 0x100 * High(v) == v;
  }

  lemma EntryStored(d: Disk, d': Disk, g: Geometry, i: nat, e: seq<byte>)
    requires DiskOk(d, g) && i < g.rootEntCnt && |e| == ENTRY
    requires var s := g.rootStart + EntrySector(i);
             s < |d| && |d[s]| == SECTOR && d' == d[s := PatchEntry(d[s], EntryOff(i), e)]
    ensures EntryWritten(d, d', g, i, e)
  {
  }

  /** How many of n sectors from the given one on a device of the size has. */
  function Reached(size: nat, sector: nat, n: nat): nat {
    if sector + n <= size then n else if sector < size then size - sector else 0
  }

  /** All or nothing: the head of a chain of the cnt lowest free clusters, or no change. */
  ghost predicate AllocResult(t: seq<nat>, t': seq<nat>, cnt: int, r: nat) {
    if 0 < cnt <= FreeCount(t) then
      var ch := FreeList(t)[..cnt];
      r == ch[0] && Links(t', ch, INVALID) && SameOutside(t, t', ch)
    else
      r == INVALID && t' == t
  }

  /** The allocator's loop state: picked is linked up, its last entry still reads as free. */
  /** The same in table entries: each cluster taken names the next one, the last one the end mark 0xFFF8,
      and all others keep their entries. */
  ghost predicate AllocWords(t: seq<nat>, t': seq<nat>, cnt: int, r: nat) {
    var f := FreeList(t);
    if 0 < cnt <= |f| then
      && r == f[0] && |t'| == |t|
      && (forall i :: 0 <= i < cnt ==> 2 <= f[i] < |t| && t'[f[i]] == if i == cnt - 1 then 0xFFF8 else f[i + 1])
      && (forall c :: 0 <= c < |t| && c !in f[..cnt] ==> t'[c] == t[c])
    else r == 0xFFF8 && t' == t
  }

  lemma AllocInWords(t: seq<nat>, t': seq<nat>, cnt: int, r: nat)
    requires AllocResult(t, t', cnt, r)
    ensures AllocWords(t, t', cnt, r)
  {
    hide FreeBelow;
    var f := FreeList(t);
    if 0 < cnt <= |f| {
      var ch := f[..cnt];
      forall i | 0 <= i < cnt
        ensures 2 <= f[i] < |t| && t'[f[i]] == if i == cnt - 1 then 0xFFF8 else f[i + 1]
      {
        assert ch[i] == f[i] && InTable(t', ch[i]);
        if i < cnt - 1 {
          assert ch[i + 1] == f[i + 1];
        }
      }
    }
  }

  ghost predicate Building(t0: seq<nat>, t: seq<nat>, picked: seq<nat>, start: nat, pre: nat) {
    && SameOutside(t0, t, picked)
    && AllFree(t0, picked)
    && Links(t, picked, FREE)
    && start == (if picked == [] then INVALID else picked[0])
    && pre == (if picked == [] then INVALID else picked[|picked| - 1])
  }

  lemma BuildStart(t0: seq<nat>)
    requires |t0| < 0x1_0000
    ensures Building(t0, t0, [], INVALID, INVALID)
    ensures |t0| >= 2 ==> FreeBelow(t0, 2) == []
  {
  }

  lemma BuildStep(t0: seq<nat>, t: seq<nat>, picked: seq<nat>, start: nat, pre: nat, curr: nat)
    requires Building(t0, t, picked, start, pre)
    requires InTable(t0, curr) && t0[curr] == FREE && |t0| < 0x1_0000 && curr !in picked
    ensures t[curr] == FREE
    ensures Building(t0, Set(t, pre, curr), picked + [curr], if picked == [] then curr else start, curr)
  {
    var t', p := Set(t, pre, curr), picked + [curr];
    assert forall i :: 0 <= i < |picked| ==> p[i] == picked[i] && p[i] in picked;
    if picked != [] {
      assert pre in picked;
    }
  }

  lemma BuildProbe(t0: seq<nat>, t: seq<nat>, picked: seq<nat>, start: nat, pre: nat, curr: nat)
    requires Building(t0, t, picked, start, pre) && 2 <= curr < |t0| && picked == FreeBelow(t0, curr)
    ensures curr !in picked && t[curr] == t0[curr]
    ensures FreeBelow(t0, curr + 1) == if t0[curr] == FREE then picked + [curr] else picked
  {
    FreeBelowExact(t0, curr);
  }

  lemma BuildSuccess(t0: seq<nat>, t: seq<nat>, picked: seq<nat>, start: nat, pre: nat, curr: nat)
    requires Building(t0, t, picked, start, pre) && curr <= |t0| && picked == FreeBelow(t0, curr)
    ensures picked != [] ==> InTable(t, pre)
    ensures picked != [] ==> AllocResult(t0, Set(t, pre, INVALID), |picked|, start)
  {
    FreeBelowPrefix(t0, curr, |t0|);
    if picked != [] {
      assert pre in picked;
      assert FreeList(t0)[..|picked|] == picked;
    }
  }

  /** The search has ended: what terminating the chain and giving it back make of the table. */
  lemma BuildEnds(t0: seq<nat>, t: seq<nat>, picked: seq<nat>, start: nat, pre: nat, curr: nat, cnt: int, cnt0: int)
    requires Building(t0, t, picked, start, pre) && curr <= |t0| && picked == FreeBelow(t0, curr)
    requires cnt == cnt0 - |picked| && (cnt0 >= 0 ==> cnt >= 0) && (cnt != 0 ==> curr == |t0|)
    ensures 0 != INVALID < 0x1_0000 && FreeChain(t, start) == t0
    ensures if cnt == 0 && picked != [] then
              InTable(t, pre) && ClusterIsValid(pre) && AllocResult(t0, Set(t, pre, INVALID), cnt0, start)
            else AllocResult(t0, t0, cnt0, INVALID)
    ensures picked == [] ==> !InTable(t, pre) && !ClusterIsValid(pre) && Set(t, pre, INVALID) == t
  {
    BuildFailure(t0, t, picked, start, pre);
    if cnt == 0 {
      BuildSuccess(t0, t, picked, start, pre, curr);
    }
  }

  lemma BuildFailure(t0: seq<nat>, t: seq<nat>, picked: seq<nat>, start: nat, pre: nat)
    requires Building(t0, t, picked, start, pre)
    ensures FreeChain(t, start) == t0
  {
    if picked != [] {
      FreeUndoesLink(t0, t, picked, FREE);
    } else {
      assert t == t0;
    }
  }
}
