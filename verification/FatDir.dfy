/** The root directory: opening, closing and unlinking files by their directory entry. */
module FatDir {
  import opened Bits
  import opened Bytes
  import opened FatTable
  import opened FatDisk
  import opened FatDriver
  import opened FatFile
  import opened FatNames

  const NAME_END: byte := 0x00
  const NAME_FREE: byte := 0xE5

  // ---------------------------------------------------------------- the 32-byte entry

  function EntryName(e: seq<byte>): seq<byte>
    requires |e| == ENTRY
  {
    e[..SFN_LEN]
  }

  /** (DIR_FstClusHI << 16) | DIR_FstClusL0 */
  function EntryCluster(e: seq<byte>): nat
    requires |e| == ENTRY
  {
    Le(e[26..28] + e[20..22])
  }

  function EntrySize(e: seq<byte>): nat
    requires |e| == ENTRY
  {
    Le(e[28..32])
  }

  predicate InUse(e: seq<byte>)
    requires |e| == ENTRY
  {
    e[0] != 0x00 && e[0] != 0xE5
  }

  /** The entry with the size and start cluster that fatfs_close stores. */
  function SetFile(e: seq<byte>, size: nat, sblk: nat): (r: seq<byte>)
    requires |e| == ENTRY
    ensures |r| == ENTRY
  {
    var c := LeBytes(sblk, 4);
    e[..20] + c[2..] + e[22..26] + c[..2] + LeBytes(size, 4)
  }

  /** diritem_init: a new empty file; the one byte it leaves unset is a parameter. */
  function NewEntry(name: seq<byte>, unset: byte): (r: seq<byte>)
    requires |name| == SFN_LEN
    ensures |r| == ENTRY
  {
    SetFile(name + [0, 0, unset] + Zeros(18), 0, INVALID)
  }

  /** Reading back what close stored. */
  lemma SetFileRoundTrip(e: seq<byte>, size: nat, sblk: nat)
    requires |e| == ENTRY && size < TWO_32 && sblk < TWO_32
    ensures var r := SetFile(e, size, sblk);
            && EntryName(r) == EntryName(e) && EntryCluster(r) == sblk && EntrySize(r) == size
            && (InUse(r) <==> InUse(e))
  {
    hide Le, LeBytes;
    Powers();
    LeRoundTrip(size, 4);
    LeRoundTrip(sblk, 4);
    var r, c := SetFile(e, size, sblk), LeBytes(sblk, 4);
    assert r[26..28] + r[20..22] == c && r[28..32] == LeBytes(size, 4);
    assert r[..SFN_LEN] == e[..SFN_LEN] && r[0] == e[0];
  }

  /** Start cluster and size as the bytes of the entry, lowest first: the low word of the cluster at 26, the
      high word at 20, the size at 28. */
  ghost predicate EntryNumbers(e: seq<byte>, size: nat, sblk: nat) {
    && |e| == 32
    && sblk == Number(e[26], e[27], e[20], e[21]) && size == Number(e[28], e[29], e[30], e[31])
  }

  function Number(b0: int, b1: int, b2: int, b3: int): int {
    b0 + 0x100 * b1 + 0x1_0000 * b2 + 0x100_0000 * b3
  }

  lemma NumbersAre(e: seq<byte>)
    requires |e| == ENTRY
    ensures EntryNumbers(e, EntrySize(e), EntryCluster(e))
  {
    FourBytes(e[26..28] + e[20..22]);
    FourBytes(e[28..32]);
  }

  lemma FourBytes(b: seq<byte>)
    requires |b| == 4
    ensures Le(b) == Number(b[0], b[1], b[2], b[3])
  {
    assert Le(b) == b[0] + 0x100 * Le(b[1..]);
    assert Le(b[1..]) == b[1] + 0x100 * Le(b[2..]) by {
      assert b[1..][1..] == b[2..];
    }
    assert Le(b[2..]) == b[2] + 0x100 * Le(b[3..]) by {
      assert b[2..][1..] == b[3..];
    }
    assert Le(b[3..]) == b[3] by {
      assert b[3..][1..] == [];
    }
  }

  /** What closing writes: the bytes of start cluster and size at their places, and no other byte. */
  lemma StoredNumbers(e: seq<byte>, size: nat, sblk: nat)
    requires |e| == ENTRY && size < TWO_32 && sblk < TWO_32
    ensures var r := SetFile(e, size, sblk);
            && EntryNumbers(r, size, sblk)
            && forall k :: 0 <= k < 32 && k !in {20, 21, 26, 27, 28, 29, 30, 31} ==> r[k] == e[k]
  {
    hide Le, LeBytes;
    SetFileRoundTrip(e, size, sblk);
    NumbersAre(SetFile(e, size, sblk));
  }

  lemma ClosingStores(e: seq<byte>, size: nat, sblk: nat)
    requires |e| == ENTRY
    ensures ENTRY == 32
    ensures size < 0x1_0000_0000 && sblk < 0x1_0000_0000 ==>
              var r := SetFile(e, size, sblk);
              && EntryNumbers(r, size, sblk)
              && forall k :: 0 <= k < 32 && k !in {20, 21, 26, 27, 28, 29, 30, 31} ==> r[k] == e[k]
  {
    if size < TWO_32 && sblk < TWO_32 {
      StoredNumbers(e, size, sblk);
    }
  }

  /** The bytes of a new entry: the name, the start cluster 0xFFF8, and zeros but for the one byte that is
      left unset. */
  lemma NewEntryBytes(name: seq<byte>, unset: byte)
    requires |name| == 11
    ensures var e := NewEntry(name, unset);
            && |e| == 32 && e[..11] == name && e[13] == unset && e[26] == 0xF8 && e[27] == 0xFF
            && forall k :: 11 <= k < 32 && k !in {13, 26, 27} ==> e[k] == 0
  {
    assert LeBytes(INVALID, 4) == [0xF8, 0xFF, 0, 0];
    assert LeBytes(0, 4) == [0, 0, 0, 0];
  }

  lemma NewEntryFields(name: seq<byte>, unset: byte)
    requires |name| == SFN_LEN
    ensures var e := NewEntry(name, unset);
            EntryName(e) == name && EntryCluster(e) == INVALID && EntrySize(e) == 0
  {
    SetFileRoundTrip(name + [0, 0, unset] + Zeros(18), 0, INVALID);
  }

  // ---------------------------------------------------------------- the scan

  /** The directory scan of fatfs_open from entry i on: the index it ends with and whether the
      name was found there. Without a match it is the entry to create a file in: the end mark, or
      else the last free entry, or else p. */
  ghost function Scan(dir: seq<seq<byte>>, name: seq<byte>, i: nat, p: int): (int, bool)
    requires forall k :: 0 <= k < |dir| ==> |dir[k]| == ENTRY
    decreases |dir| - i
  {
    if i >= |dir| then (p, false)
    else if dir[i][0] == NAME_END then (i, false)
    else if dir[i][0] == NAME_FREE then Scan(dir, name, i + 1, i)
    else if EntryName(dir[i]) == name then (i, true)
    else Scan(dir, name, i + 1, p)
  }

  /** Entry k neither ends the scan nor has the name. */
  predicate Passed(dir: seq<seq<byte>>, name: seq<byte>, k: nat)
    requires k < |dir| && |dir[k]| == ENTRY
  {
    dir[k][0] != 0x00 && (dir[k][0] != 0xE5 ==> dir[k][..11] != name)
  }

  /** What the scan finds: the first entry in use with that name before the end mark; or no such
      entry, and then the first end mark, or the last free entry when there is none. */
  lemma {:induction false} ScanExact(dir: seq<seq<byte>>, name: seq<byte>, i: nat, p: int)
    requires forall k :: 0 <= k < |dir| ==> |dir[k]| == ENTRY
    requires i <= |dir| && -1 <= p < i
    ensures var (r, found) := Scan(dir, name, i, p);
            && p <= r < |dir| && (r < i ==> r == p && !found)
            && (found ==> InUse(dir[r]) && dir[r][..11] == name)
            && (!found && r >= i ==> !InUse(dir[r]))
            && (forall k :: i <= k < r ==> Passed(dir, name, k))
            && (!found && (r < i || dir[r][0] != 0x00) ==>
                  forall k :: i <= k < |dir| && k > r ==> InUse(dir[k]) && Passed(dir, name, k))
    decreases |dir| - i
  {
    if i < |dir| && dir[i][0] != NAME_END {
      if dir[i][0] == NAME_FREE {
        ScanExact(dir, name, i + 1, i);
      } else if EntryName(dir[i]) != name {
        ScanExact(dir, name, i + 1, p);
      }
    }
  }

  /** A file created at the index r that the scan returned is found there by the next scan. */
  lemma {:induction false} ScanFindsCreated(dir: seq<seq<byte>>, name: seq<byte>, i: nat, p: int, q: int, r: nat,
                                        e: seq<byte>)
    requires forall k :: 0 <= k < |dir| ==> |dir[k]| == ENTRY
    requires |e| == ENTRY && InUse(e) && EntryName(e) == name && i <= r < |dir| && -1 <= p < i
    requires Scan(dir, name, i, p) == (r, false)
    ensures Scan(dir[r := e], name, i, q) == (r, true)
    decreases |dir| - i
  {
    ScanExact(dir, name, i, p);
    if i < r {
      if dir[i][0] == NAME_FREE {
        ScanFindsCreated(dir, name, i + 1, i, i, r, e);
      } else {
        ScanFindsCreated(dir, name, i + 1, p, q, r, e);
      }
    }
  }

  /** The scan only looks at names. */
  lemma {:induction false} ScanSameNames(dir: seq<seq<byte>>, dir': seq<seq<byte>>, name: seq<byte>, i: nat, p: int)
    requires |dir'| == |dir|
    requires forall k :: 0 <= k < |dir| ==>
               |dir[k]| == ENTRY && |dir'[k]| == ENTRY && EntryName(dir'[k]) == EntryName(dir[k])
    ensures Scan(dir', name, i, p) == Scan(dir, name, i, p)
    decreases |dir| - i
  {
    if i < |dir| {
      assert dir'[i][0] == EntryName(dir'[i])[0] && dir[i][0] == EntryName(dir[i])[0];
      ScanSameNames(dir, dir', name, i + 1, p);
      ScanSameNames(dir, dir', name, i + 1, i);
    }
  }

  // ---------------------------------------------------------------- operations

  /** diritem_name_match */
  method NameMatch(item: seq<byte>, path: seq<byte>) returns (same: bool)
    requires |item| == ENTRY
    ensures same <==> EntryName(item) == Sfn(path)
  {
    var buf := new byte[SFN_LEN];
    ToSfn(buf, path);
    same := buf[..] == item[..SFN_LEN];
  }

  ghost predicate EntriesOk(dir: seq<seq<byte>>) {
    forall k :: 0 <= k < |dir| ==> |dir[k]| == ENTRY
  }

  /** The scan of the whole directory of a volume. */
  ghost function ScanDir(v: Volume, name: seq<byte>): (int, bool) {
    if EntriesOk(v.dir) then Scan(v.dir, name, 0, -1) else (-1, false)
  }

  lemma DirEntries(fat: Fat)
    requires fat.Valid()
    ensures var dir := fat.Vol().dir;
            && ENTRY == 32 && |dir| == fat.g.rootEntCnt && EntriesOk(dir)
            && forall k :: 0 <= k < |dir| ==> |dir[k]| == ENTRY
  {
  }

  /** The scanning loop that fatfs_open and fatfs_unlink share. */
  method Lookup(fat: Fat, path: seq<byte>) returns (pIndex: int, item: seq<byte>, found: bool)
    requires fat.Valid()
    modifies fat`currSector, fat.buffer
    ensures fat.Valid() && forall k :: 0 <= k < |fat.Vol().dir| ==> |fat.Vol().dir[k]| == ENTRY
    ensures (pIndex, found) == ScanDir(fat.Vol(), Sfn(path))
    ensures found ==> 0 <= pIndex < |fat.Vol().dir| && item == fat.Vol().dir[pIndex]
  {
    hide *;
    DirEntries(fat);
    pIndex, item, found := -1, [], false;
    ghost var v := fat.Vol();
    var i: nat := 0;
    assert ScanDir(v, Sfn(path)) == Scan(v.dir, Sfn(path), 0, -1) by { ScanStart(v, Sfn(path)); }
    while i < fat.g.rootEntCnt
      invariant i <= |v.dir| && fat.Valid() && fat.Vol() == v
      invariant ScanDir(v, Sfn(path)) == Scan(v.dir, Sfn(path), i, pIndex)
    {
      var ok, off := fat.ReadDirEntry(i);
      item := fat.buffer[off..off + ENTRY];
      ScanStep(v.dir, Sfn(path), i, pIndex);
      if item[0] == NAME_END {
        return i, item, false;
      }
      if item[0] == NAME_FREE {
        pIndex := i;
      } else {
        var same := NameMatch(item, path);
        if same {
          return i, item, true;
        }
      }
      i := i + 1;
    }
    ScanStep(v.dir, Sfn(path), i, pIndex);
  }

  lemma ScanStart(v: Volume, name: seq<byte>)
    requires EntriesOk(v.dir)
    ensures ScanDir(v, name) == Scan(v.dir, name, 0, -1)
  {
  }

  lemma ScanStep(dir: seq<seq<byte>>, name: seq<byte>, i: nat, p: int)
    requires forall k :: 0 <= k < |dir| ==> |dir[k]| == ENTRY
    ensures Scan(dir, name, i, p) ==
            if i >= |dir| then (p, false)
            else if dir[i][0] == NAME_END then (i, false)
            else if dir[i][0] == NAME_FREE then Scan(dir, name, i + 1, i)
            else if EntryName(dir[i]) == name then (i, true)
            else Scan(dir, name, i + 1, p)
  {
  }

  /** read_from_diritem */
  method ReadFromDirItem(file: File, item: seq<byte>, index: int)
    requires |item| == ENTRY
    modifies file
    ensures file.size == EntrySize(item) && file.pos == 0 && file.pIndex == index
    ensures file.sblk == file.cblk == EntryCluster(item)
  {
    file.size := EntrySize(item);
    file.pos := 0;
    file.pIndex := index;
    file.sblk := EntryCluster(item);
    file.cblk := file.sblk;
  }

  /** fatfs_open: open an existing file, truncating it on request, or create an empty one. The
      table entry freed for a truncated file is the 16-bit cluster number of its entry. */
  method FatfsOpen(fat: Fat, file: File, path: seq<byte>, trunc: bool, creat: bool, unset: byte) returns (err: int)
    requires fat.Valid()
    modifies fat, fat.buffer, file
    ensures fat.Valid() && forall k :: 0 <= k < |old(fat.Vol()).dir| ==> |old(fat.Vol()).dir[k]| == ENTRY
    ensures var (r, found) := ScanDir(old(fat.Vol()), Sfn(path));
            var v := old(fat.Vol());
            if found then
              && err == 0 && 0 <= r < |v.dir| && file.pIndex == r && file.pos == 0 && file.cblk == file.sblk
              && (if trunc then
                    && file.size == 0 && file.sblk == INVALID
                    && fat.Vol() == v.(tbl := FreeChain(v.tbl, EntryCluster(v.dir[r]) % 0x1_0000))
                  else
                    file.size == EntrySize(v.dir[r]) && file.sblk == EntryCluster(v.dir[r]) && fat.Vol() == v)
            else if creat && 0 <= r < |v.dir| then
              && err == 0 && file.pIndex == r && file.pos == file.size == 0 && file.cblk == file.sblk == INVALID
              && fat.Vol() == v.(dir := v.dir[r := NewEntry(Sfn(path), unset)])
            else
              err == -1 && fat.Vol() == v && unchanged(file)
    ensures var (r, found) := ScanDir(old(fat.Vol()), Sfn(path));
            found && !trunc ==>
              0 <= r < |old(fat.Vol()).dir| && EntryNumbers(old(fat.Vol()).dir[r], file.size, file.sblk)
  {
    hide *;
    DirEntries(fat);
    var pIndex, item, found := Lookup(fat, path);
    if found {
      NumbersAre(item);
      ReadFromDirItem(file, item, pIndex);
      if trunc {
        fat.ClusterFreeChain(file.sblk % 0x1_0000);
        file.sblk := INVALID;
        file.cblk := file.sblk;
        file.size := 0;
      }
      return 0;
    } else if creat {
      item := NewEntry(Sfn(path), unset);
      NewEntryFields(Sfn(path), unset);
      err := fat.WriteDirEntry(item, pIndex);
      if err < 0 {
        return -1;
      }
      ReadFromDirItem(file, item, pIndex);
      return 0;
    }
    return -1;
  }

  /** fatfs_close: store size and start cluster in the file's directory entry. */
  method FatfsClose(fat: Fat, file: File)
    requires fat.Valid()
    modifies fat, fat.buffer
    ensures fat.Valid() && forall k :: 0 <= k < |old(fat.Vol()).dir| ==> |old(fat.Vol()).dir[k]| == ENTRY
    ensures var v, i := old(fat.Vol()), file.pIndex;
            fat.Vol() == if 0 <= i < |v.dir| then v.(dir := v.dir[i := SetFile(v.dir[i], file.size, file.sblk)]) else v
    ensures var v, i := old(fat.Vol()), file.pIndex;
            0 <= i < |v.dir| && file.size < 0x1_0000_0000 && file.sblk < 0x1_0000_0000 ==>
              && |fat.Vol().dir| == |v.dir| && EntryNumbers(fat.Vol().dir[i], file.size, file.sblk)
              && forall k :: 0 <= k < 32 && k !in {20, 21, 26, 27, 28, 29, 30, 31} ==>
                   fat.Vol().dir[i][k] == v.dir[i][k]
  {
    hide *;
    DirEntries(fat);
    var ok, off := fat.ReadDirEntry(file.pIndex);
    if !ok {
      return;
    }
    ClosingStores(fat.buffer[off..off + ENTRY], file.size, file.sblk);
    var item := SetFile(fat.buffer[off..off + ENTRY], file.size, file.sblk);
    var err := fat.WriteDirEntry(item, file.pIndex);
  }

  /** fatfs_unlink: free the chain and clear the entry. */
  method FatfsUnlink(fat: Fat, path: seq<byte>) returns (err: int)
    requires fat.Valid()
    modifies fat, fat.buffer
    ensures fat.Valid() && forall k :: 0 <= k < |old(fat.Vol()).dir| ==> |old(fat.Vol()).dir[k]| == ENTRY
    ensures var (r, found) := ScanDir(old(fat.Vol()), Sfn(path));
            var v := old(fat.Vol());
            if found then
              && err == 0 && 0 <= r < |v.dir|
              && fat.Vol() == v.(tbl := FreeChain(v.tbl, EntryCluster(v.dir[r]) % 0x1_0000),
                                 dir := v.dir[r := Zeros(ENTRY)])
            else
              err == -1 && fat.Vol() == v
  {
    hide *;
    DirEntries(fat);
    var pIndex, item, found := Lookup(fat, path);
    if found {
      var cluster := EntryCluster(item);
      fat.ClusterFreeChain(cluster % 0x1_0000);
      err := fat.WriteDirEntry(Zeros(ENTRY), pIndex);
      return err;
    }
    return -1;
  }
}
