/** fatfs_write, fatfs_read and fatfs_seek. */
module FatIO {
  import opened Bits
  import opened Bytes
  import opened FatTable
  import opened FatDisk
  import opened FatContent
  import opened FatDriver
  import opened FatFile

  lemma ChainInTable(fat: Fat, ch: seq<nat>, end: nat)
    requires fat.Valid() && Links(fat.Vol().tbl, ch, end)
    ensures ClusterSize(fat.g.clusterBytes) && |fat.Vol().data| == fat.g.Total() == |fat.Vol().tbl|
    ensures forall i :: 0 <= i < |ch| ==> 2 <= ch[i] < fat.g.Total()
  {
  }

  /** A cluster with bytes has sectors. */
  lemma ClusterOnDisk(fat: Fat, c: nat)
    requires fat.Valid() && 2 <= c < fat.g.Total()
    ensures |fat.Vol().data| == fat.g.Total()
    ensures |fat.Vol().data[c]| == fat.g.clusterBytes <==> fat.g.HasSectors(c)
  {
    assert fat.g.clusterBytes > 0;
  }

  lemma GrownTwice(t: seq<nat>, t1: seq<nat>, t2: seq<nat>, ch: seq<nat>, ch1: seq<nat>, ch2: seq<nat>, n: nat, m: nat)
    requires Grown(t, t1, ch, ch1, n) && Grown(t1, t2, ch1, ch2, m)
    requires forall c :: c in ch ==> c < |t| && t[c] != FREE
    ensures Grown(t, t2, ch, ch2, n + m)
    ensures FreeList(t1) == FreeList(t)[n..]
  {
    GrownTook(t, t1, ch, ch1, n);
    var f := FreeList(t);
    assert f[..n] + f[n..][..m] == f[..n + m];
    assert ch2 == ch + f[..n + m];
    assert forall c :: c in ch1 ==> c in ch2;
  }

  lemma GrownTook(t: seq<nat>, t': seq<nat>, ch: seq<nat>, ch': seq<nat>, n: nat)
    requires Grown(t, t', ch, ch', n)
    requires forall c :: c in ch ==> c < |t| && t[c] != FREE
    ensures FreeList(t') == FreeList(t)[n..]
  {
    ChainIsUsed(t', ch');
    assert forall c :: c in ch' <==> c in ch || c in FreeList(t)[..n];
    FreeListAfterTake(t, t', n);
  }

  /** The current cluster is none, at a cluster boundary, and less than a cluster is to be written. */
  ghost predicate Stray(fat: Fat, file: File, buf: seq<byte>)
    reads fat, fat.buffer, file
  {
    && fat.Valid() && file.cblk == INVALID && fat.g.clusterBytes > 0
    && file.pos % fat.g.clusterBytes == 0 && 0 < |buf| < fat.g.clusterBytes
  }

  /** The body of the write loop: put the next part of buf into the current cluster. A stray write goes
      to sectors of no cluster. */
  method WriteChunk(fat: Fat, file: File, buf: seq<byte>, ghost stray: bool, ghost ch: seq<nat>, ghost idx: nat,
                    ghost text: seq<byte>)
    returns (currWrite: nat)
    requires fat.Valid() && buf != []
    requires if stray then Stray(fat, file, buf)
             else
               && Links(fat.Vol().tbl, ch, INVALID) && AtCluster(file, fat.g.clusterBytes, ch, idx)
               && Written(fat.Vol().data, fat.g.clusterBytes, ch, idx, file.pos - idx * fat.g.clusterBytes, text)
    modifies fat, fat.buffer, file`size
    ensures fat.Valid() && file.size == old(file.size) + currWrite
    ensures stray ==> currWrite == |buf| && fat.Vol() == old(fat.Vol())
    ensures !stray ==>
              var cb := fat.g.clusterBytes;
              && fat.Vol() == old(fat.Vol()).(data := fat.Vol().data)
              && 0 < currWrite <= |buf| && file.pos + currWrite <= idx * cb + cb
              && (currWrite < |buf| ==> file.pos + currWrite == idx * cb + cb)
              && Written(fat.Vol().data, cb, ch, idx, file.pos - idx * cb + currWrite, text + buf[..currWrite])
              && SameOutsideData(old(fat.Vol()).data, fat.Vol().data, ch)
              && SameLengths(old(fat.Vol()).data, fat.Vol().data)
  {
    hide *;
    if stray {
      StrayFacts(fat, file, buf);
    } else {
      ChunkFacts(fat, file, ch, idx, text);
    }
    ghost var v, data0, cb, off := fat.Vol(), fat.Vol().data, fat.g.clusterBytes, file.pos % fat.g.clusterBytes;
    currWrite := StoreChunk(fat, file.cblk, file.pos % fat.g.clusterBytes, buf);
    PatchedIs(v, fat.Vol(), fat.g, file.cblk, off, buf[..currWrite]);
    if !stray {
      WrittenPatch(data0, cb, ch, idx, off, text, buf[..currWrite]);
      ChunkStored(data0, fat.Vol().data, ch, idx, off, buf[..currWrite]);
    }
    file.size := file.size + currWrite;
  }

  lemma StrayFacts(fat: Fat, file: File, buf: seq<byte>)
    requires Stray(fat, file, buf)
    ensures fat.g.clusterBytes > 0 && file.pos % fat.g.clusterBytes == 0 && 0 < |buf| < fat.g.clusterBytes
    ensures fat.Valid() && file.cblk >= 2 && file.cblk >= fat.g.Total() && !ClusterIsValid(file.cblk)
    ensures Inside(file, fat.g.clusterBytes, |buf|) && |fat.Vol().data| == fat.g.Total()
  {
  }

  lemma ChunkFacts(fat: Fat, file: File, ch: seq<nat>, idx: nat, text: seq<byte>)
    requires fat.Valid() && Links(fat.Vol().tbl, ch, INVALID) && AtCluster(file, fat.g.clusterBytes, ch, idx)
    requires Written(fat.Vol().data, fat.g.clusterBytes, ch, idx, file.pos - idx * fat.g.clusterBytes, text)
    ensures var cb, c := fat.g.clusterBytes, file.cblk;
            && cb > 0 && file.pos % cb == file.pos - idx * cb < cb && Distinct(ch) && idx < |ch| && ch[idx] == c
            && 2 <= c < fat.g.Total() == |fat.Vol().data| && |fat.Vol().data[c]| == cb && fat.g.HasSectors(c)
            && idx * cb <= file.pos
  {
    hide DiskOk, Mirrored, Table, Dir, Data, Concat;
    ChainInTable(fat, ch, INVALID);
    ClusterOnDisk(fat, ch[idx]);
    OffsetInCluster(file.pos, fat.g.clusterBytes, idx);
  }

  lemma ChunkStored(data: seq<seq<byte>>, data': seq<seq<byte>>, ch: seq<nat>, idx: nat, off: nat, part: seq<byte>)
    requires idx < |ch| && ch[idx] < |data| && off + |part| <= |data[ch[idx]]|
    requires data' == data[ch[idx] := Patch(data[ch[idx]], off, part)]
    ensures SameOutsideData(data, data', ch) && SameLengths(data, data')
  {
  }

  /** A whole cluster goes straight to the disk; a part of one is merged into the old bytes. */
  method StoreChunk(fat: Fat, c: nat, clusterOffset: nat, buf: seq<byte>) returns (currWrite: nat)
    requires fat.Valid() && c >= 2 && buf != [] && clusterOffset < fat.g.clusterBytes
    modifies fat, fat.buffer
    ensures fat.Valid()
    ensures currWrite == if clusterOffset + |buf| > fat.g.clusterBytes then fat.g.clusterBytes - clusterOffset
                         else |buf|
    ensures ClusterPatched(old(fat.Vol()), fat.Vol(), fat.g, c, clusterOffset, buf[..currWrite])
  {
    var cb := fat.g.clusterBytes;
    currWrite := |buf|;
    if clusterOffset == 0 && |buf| == cb {
      assert buf[..currWrite] == buf;
      ghost var v := fat.Vol();
      WholePatch(fat, c, buf);
      fat.WriteCluster(c, buf);
    } else {
      if clusterOffset + currWrite > cb {
        currWrite := cb - clusterOffset;
      }
      PatchCluster(fat, c, clusterOffset, buf[..currWrite]);
    }
  }

  /** Byte p of a file with the chain, on the raw disk. */
  ghost predicate StoredAt(d: Disk, g: Geometry, ch: seq<nat>, p: nat, b: byte) {
    var cb := g.secPerCluster * 512;
    && cb > 0
    && var i := p / cb;
       && 0 <= i < |ch|
       && ByteOnDisk(d, g.dataStart + (ch[i] - 2) * g.secPerCluster + p % cb / 512, p % 512, b)
       && ch[i] >= 2
  }

  ghost predicate ByteOnDisk(d: Disk, s: int, k: int, b: byte) {
    0 <= s < |d| && |d[s]| == 512 && 0 <= k < 512 && d[s][k] == b
  }

  /** Every byte of the text lies on the disk where its position and the chain say. */
  ghost predicate StoredText(d: Disk, g: Geometry, ch: seq<nat>, text: seq<byte>) {
    forall p :: 0 <= p < |text| ==> StoredAt(d, g, ch, p, text[p])
  }

  lemma TextStored(fat: Fat, ch: seq<nat>, text: seq<byte>)
    requires fat.Valid() && StartsChain(fat.Vol().tbl, ch, if ch == [] then INVALID else ch[0])
    requires Holds(fat.Vol(), fat.g.clusterBytes, ch, text)
    ensures StoredText(fat.disk, fat.g, ch, text)
  {
    hide DiskOk, Mirrored, Table, Dir, Data, Concat, StoredAt, Fat.Vol;
    forall p | 0 <= p < |text|
      ensures StoredAt(fat.disk, fat.g, ch, p, text[p])
    {
      ByteStored(fat, ch, text, p);
    }
  }

  lemma ByteStored(fat: Fat, ch: seq<nat>, text: seq<byte>, p: nat)
    requires fat.Valid() && Links(fat.Vol().tbl, ch, INVALID)
    requires Holds(fat.Vol(), fat.g.clusterBytes, ch, text) && p < |text|
    ensures StoredAt(fat.disk, fat.g, ch, p, text[p])
  {
    hide DiskOk, Mirrored, Table, Dir, Data, Concat, Contents, ClusterIs, StoredAt, Links;
    var cb := fat.g.clusterBytes;
    ChainInTable(fat, ch, INVALID);
    fat.GeometryOk();
    Layout(fat.g);
    PositionIndex(p, |text|, |ch|, cb);
    var i := ClusterOf(p, cb);
    OffsetIs(p, cb, i);
    ContentsSlice(fat.Vol().data, cb, ch, |text|, i, p % cb, 1);
    ClusterOnDisk(fat, ch[i]);
    DataIs(fat.disk, fat.g, ch[i]);
    OneByte(text, fat.Vol().data[ch[i]], p, p % cb);
    SectorByte(p, fat.g.secPerCluster);
    AtRaw(fat.disk, fat.g, ch, p, cb, i, p % cb, fat.Vol().data[ch[i]]);
  }

  lemma OffsetIs(p: nat, cb: nat, i: nat)
    requires cb > 0 && i == p / cb
    ensures i * cb + p % cb == p && p % cb < cb
  {
  }

  lemma OneByte(text: seq<byte>, bytes: seq<byte>, p: nat, o: nat)
    requires p < |text| && o < |bytes| && text[p..p + 1] == bytes[o..o + 1]
    ensures text[p] == bytes[o]
  {
    assert text[p..p + 1][0] == text[p] && bytes[o..o + 1][0] == bytes[o];
  }

  lemma AtRaw(d: Disk, g: Geometry, ch: seq<nat>, p: nat, cb: nat, i: nat, k: nat, bytes: seq<byte>)
    requires cb == g.secPerCluster * 512 && cb > 0 && i == p / cb && k == p % cb && k % 512 == p % 512
    requires i < |ch| && ch[i] >= 2 && ClusterIs(d, g, ch[i], bytes) && k < |bytes|
    ensures StoredAt(d, g, ch, p, bytes[k])
  {
    hide ClusterIs;
    ClusterByte(d, g, ch[i], bytes, k);
  }

  lemma ClusterByte(d: Disk, g: Geometry, c: nat, bytes: seq<byte>, k: nat)
    requires ClusterIs(d, g, c, bytes) && k < |bytes|
    ensures c >= 2
    ensures var s := g.dataStart + (c - 2) * g.secPerCluster + k / 512;
            s < |d| && |d[s]| == 512 && d[s][k % 512] == bytes[k]
  {
    var b := bytes[k];
  }

  lemma SectorByte(p: nat, n: nat)
    requires n > 0
    ensures p % (n * 512) % 512 == p % 512
  {
    var cb := n * 512;
    var q, r := p / cb, p % cb;
    assert p == q * cb + r;
    assert q * cb == q * n * 512;
    assert p == (q * n + r / 512) * 512 + r % 512;
    DivModUnique(p, q * n + r / 512, r % 512, 512);
  }

  /** Part of the cluster's bytes is replaced; without sectors for it nothing of the volume changes. */
  ghost predicate ClusterPatched(v: Volume, v': Volume, g: Geometry, c: nat, off: nat, part: seq<byte>) {
    if 2 <= c < |v.data| && g.HasSectors(c) then
      |v.data[c]| == g.clusterBytes && off + |part| <= g.clusterBytes
      && v' == v.(data := v.data[c := Patch(v.data[c], off, part)])
    else v' == v
  }

  lemma PatchedIs(v: Volume, v': Volume, g: Geometry, c: nat, off: nat, part: seq<byte>)
    requires ClusterPatched(v, v', g, c, off, part)
    ensures c >= |v.data| ==> v' == v
    ensures 2 <= c < |v.data| && g.HasSectors(c) ==>
              |v.data[c]| == g.clusterBytes && off + |part| <= g.clusterBytes
              && v' == v.(data := v.data[c := Patch(v.data[c], off, part)])
  {
  }

  lemma WholePatch(fat: Fat, c: nat, buf: seq<byte>)
    requires fat.Valid() && c >= 2 && |buf| == fat.g.clusterBytes && |buf| > 0
    ensures |fat.Vol().data| == fat.g.Total()
    ensures c < fat.g.Total() && fat.g.HasSectors(c) ==>
              |fat.Vol().data[c]| == fat.g.clusterBytes && Patch(fat.Vol().data[c], 0, buf) == buf
  {
    if c < fat.g.Total() && fat.g.HasSectors(c) {
      ClusterOnDisk(fat, c);
    }
  }

  /** Read the cluster into the buffer, overwrite part of it, write it back. */
  method PatchCluster(fat: Fat, c: nat, off: nat, part: seq<byte>)
    requires fat.Valid() && c >= 2 && off + |part| <= fat.g.clusterBytes && fat.g.clusterBytes > 0
    modifies fat, fat.buffer
    ensures fat.Valid()
    ensures ClusterPatched(old(fat.Vol()), fat.Vol(), fat.g, c, off, part)
  {
    hide ClusterIs, ClusterWritten;
    var cb := fat.g.clusterBytes;
    BufferSize(fat, c);
    fat.ReadCluster(c);
    ghost var before := fat.buffer[..];
    fat.CopyIn(off, part);
    assert fat.buffer[..cb] == Patch(before[..cb], off, part);
    fat.WriteCluster(c, fat.buffer[..cb]);
  }

  lemma BufferSize(fat: Fat, c: nat)
    requires fat.Valid() && c >= 2
    ensures fat.g.clusterBytes <= fat.buffer.Length && |fat.Vol().data| == fat.g.Total()
    ensures c < fat.g.Total() && fat.g.HasSectors(c) ==> |fat.Vol().data[c]| == fat.g.clusterBytes
  {
  }

  ghost predicate SameOutsideData(d: seq<seq<byte>>, d': seq<seq<byte>>, ch: seq<nat>) {
    |d'| == |d| && forall c :: 0 <= c < |d| && c !in ch ==> d'[c] == d[c]
  }

  /** The open file stands at its end, in the last cluster of its chain. */
  ghost predicate AtEnd(file: File, cb: nat, ch: seq<nat>)
    reads file
  {
    ch != [] && file.pos == file.size && AtCluster(file, cb, ch, |ch| - 1)
  }

  /** The writer's state between two turns of the loop. */
  ghost predicate Writing(fat: Fat, file: File, ch: seq<nat>, idx: nat, text: seq<byte>)
    reads fat, fat.buffer, file
  {
    && fat.Valid() && ch != [] && StartsChain(fat.Vol().tbl, ch, file.sblk)
    && file.pos == file.size == |text|
    && AtCluster(file, fat.g.clusterBytes, ch, idx)
    && Written(fat.Vol().data, fat.g.clusterBytes, ch, idx, file.pos - idx * fat.g.clusterBytes, text)
  }

  /** What the write loop leaves: all bytes stored, and the position at the end unless the last
      byte filled the chain and no free cluster was left. */
  ghost predicate WriteDone(fat: Fat, file: File, t: seq<nat>, ch: seq<nat>, ch': seq<nat>, text: seq<byte>)
    reads fat, fat.buffer, file
  {
    && fat.Valid() && file.size == |text| && Holds(fat.Vol(), fat.g.clusterBytes, ch', text)
    && if |text| < |ch| * fat.g.clusterBytes || FreeCount(t) >= 1 then
         && Grown(t, fat.Vol().tbl, ch, ch', if |text| < |ch| * fat.g.clusterBytes then 0 else 1)
         && AtEnd(file, fat.g.clusterBytes, ch')
       else
         && fat.Vol().tbl == t && ch' == ch && file.pos < file.size
         && ch != [] && AtCluster(file, fat.g.clusterBytes, ch, |ch| - 1)
  }

  /** One turn of the write loop. It leaves the writer inside the chain, or at the end of a chain
      that got one more cluster, or, with no free cluster left, with an unmoved position. */
  method WriteStep(fat: Fat, file: File, buf: seq<byte>, ghost stray: bool, ghost ch: seq<nat>, ghost idx: nat,
                   ghost text: seq<byte>)
    returns (currWrite: nat, err: int, ghost ch': seq<nat>, ghost idx': nat)
    requires fat.Valid() && buf != [] && StartsChain(fat.Vol().tbl, ch, file.sblk)
    requires if stray then Stray(fat, file, buf)
             else
               var k := |ch| * fat.g.clusterBytes;
               && Writing(fat, file, ch, idx, text) && file.pos + |buf| <= k
               && (file.pos + |buf| == k ==> Backed(fat.Vol().tbl, fat.Vol().data, fat.g.clusterBytes, 1))
    modifies fat, fat.buffer, file`size, file`pos, file`cblk, file`sblk
    ensures fat.Valid() && file.sblk == old(file.sblk) && 0 < currWrite <= |buf|
    ensures file.size == old(file.size) + currWrite && fat.Vol().dir == old(fat.Vol()).dir
    ensures stray ==> err == 0 && currWrite == |buf| && Strayed(old(fat.Vol()), fat.Vol(), old(file.pos), file, |buf|)
    ensures !stray ==>
              && SameOutsideData(old(fat.Vol()).data, fat.Vol().data, ch)
              && SameLengths(old(fat.Vol()).data, fat.Vol().data)
    ensures !stray && file.size < |ch| * fat.g.clusterBytes ==>
              && err == 0 && ch' == ch && fat.Vol().tbl == old(fat.Vol()).tbl
              && Writing(fat, file, ch, idx', text + buf[..currWrite])
    ensures !stray && file.size == |ch| * fat.g.clusterBytes ==>
              && currWrite == |buf| && WriteDone(fat, file, old(fat.Vol()).tbl, ch, ch', text + buf)
  {
    hide *;
    ghost var v, cb, k := fat.Vol(), fat.g.clusterBytes, |ch|;
    StepStart(fat, file, buf, stray, ch, idx, text);
    currWrite := WriteChunk(fat, file, buf, stray, ch, idx, text);
    ghost var text', v1 := text + buf[..currWrite], fat.Vol();
    idx' := idx;
    if !stray {
      idx' := ChunkEnds(fat, ch, idx, file.pos + currWrite - idx * cb, text');
      assert currWrite == |buf| ==> buf[..currWrite] == buf;
    }
    AtClusterIs(file, cb, ch, idx);
    InsideIs(file, cb, currWrite);
    err, ch' := MoveFilePos(fat, file, currWrite, true, ch, idx);
    if stray {
      StrayedWhen(v, fat.Vol(), file);
    } else if file.size < k * cb {
      WritingAgain(fat, file, ch, idx', text');
    } else {
      BackedSame(v.tbl, v.data, v1.data, cb, 1);
      HoldsSame(v1, fat.Vol(), cb, ch, text');
      StepEnds(fat, file, v.tbl, ch, ch', text', err);
      StepDone(fat, file, v.tbl, ch, ch', text');
    }
  }

  lemma StepStart(fat: Fat, file: File, buf: seq<byte>, stray: bool, ch: seq<nat>, idx: nat, text: seq<byte>)
    requires if stray then Stray(fat, file, buf) else Writing(fat, file, ch, idx, text)
    ensures fat.g.clusterBytes > 0
    ensures stray ==> file.cblk == INVALID && file.pos % fat.g.clusterBytes + |buf| < fat.g.clusterBytes
    ensures !stray ==>
              var cb := fat.g.clusterBytes;
              && StartsChain(fat.Vol().tbl, ch, file.sblk) && Links(fat.Vol().tbl, ch, INVALID)
              && file.pos == file.size == |text| && AtCluster(file, cb, ch, idx) && idx < |ch| && ch[0] == file.sblk
              && idx * cb <= file.pos < idx * cb + cb && file.cblk == ch[idx]
              && Written(fat.Vol().data, cb, ch, idx, file.pos - idx * cb, text)
              && file.pos % cb == file.pos - idx * cb
  {
    hide DiskOk, Mirrored, Table, Dir, Data, Concat, Links, Written;
    if stray {
      StrayFacts(fat, file, buf);
    } else {
      ClusterSizeOk(fat);
      OffsetInCluster(file.pos, fat.g.clusterBytes, idx);
    }
  }

  lemma AtClusterIs(file: File, cb: nat, ch: seq<nat>, idx: nat)
    ensures AtCluster(file, cb, ch, idx) <==> idx < |ch| && file.cblk == ch[idx] && idx * cb <= file.pos < idx * cb + cb
  {
  }

  /** Where the writer is after a chunk: still in the chain, at its next cluster, or at its end. */
  lemma ChunkEnds(fat: Fat, ch: seq<nat>, idx: nat, off: nat, text: seq<byte>) returns (idx': nat)
    requires fat.Valid() && fat.g.clusterBytes > 0 && off <= fat.g.clusterBytes
    requires Written(fat.Vol().data, fat.g.clusterBytes, ch, idx, off, text)
    ensures var cb := fat.g.clusterBytes;
            && idx < |ch| && |text| == idx * cb + off <= |ch| * cb && Holds(fat.Vol(), cb, ch, text)
            && (off == cb && idx + 1 == |ch| <==> |text| == |ch| * cb)
            && idx' == (if off == cb && idx + 1 < |ch| then idx + 1 else idx)
            && (|text| < |ch| * cb ==>
                  && idx' * cb <= |text| < idx' * cb + cb
                  && Written(fat.Vol().data, cb, ch, idx', |text| - idx' * cb, text))
  {
    hide DiskOk, Mirrored, Table, Dir, Data, Concat;
    var cb := fat.g.clusterBytes;
    WrittenContents(fat.Vol().data, cb, ch, idx, off, text);
    ChainSpan(|ch|, idx, off, cb);
    idx' := idx;
    if off == cb && idx + 1 < |ch| {
      idx' := idx + 1;
      WrittenNext(fat.Vol().data, cb, ch, idx, text);
    }
  }

  lemma WritingAgain(fat: Fat, file: File, ch: seq<nat>, idx: nat, text: seq<byte>)
    requires fat.Valid() && idx < |ch| && file.sblk == ch[0] && Links(fat.Vol().tbl, ch, INVALID)
    requires file.pos == file.size == |text| && file.cblk == ch[idx]
    requires idx * fat.g.clusterBytes <= |text| < idx * fat.g.clusterBytes + fat.g.clusterBytes
    requires Written(fat.Vol().data, fat.g.clusterBytes, ch, idx, |text| - idx * fat.g.clusterBytes, text)
    ensures Writing(fat, file, ch, idx, text)
  {
    hide DiskOk, Mirrored, Table, Dir, Data, Links, Written;
    WritingWhen(fat, file, ch, idx, text);
  }

  lemma StrayedIs(v: Volume, v': Volume, pos: nat, file: File, n: nat)
    requires Strayed(v, v', pos, file, n)
    ensures v' == v && file.pos == pos + n
  {
  }

  lemma StrayedWhen(v: Volume, v': Volume, file: File)
    requires v' == v && file.cblk == INVALID
    ensures forall pos: nat, n: nat :: file.pos == pos + n ==> Strayed(v, v', pos, file, n)
  {
  }

  /** The last byte filled the chain. */
  lemma StepDone(fat: Fat, file: File, t: seq<nat>, ch: seq<nat>, ch': seq<nat>, text: seq<byte>)
    requires fat.Valid() && file.size == |text| == |ch| * fat.g.clusterBytes && ch != [] && fat.g.clusterBytes > 0
    requires Holds(fat.Vol(), fat.g.clusterBytes, ch', text)
    requires if FreeCount(t) >= 1 then
               && Grown(t, fat.Vol().tbl, ch, ch', 1) && |ch'| == |ch| + 1
               && file.pos == file.size && file.cblk == ch'[|ch|]
             else
               var idx, cb := |ch| - 1, fat.g.clusterBytes;
               && fat.Vol().tbl == t && ch' == ch && file.cblk == ch[idx] && idx * cb <= file.pos < idx * cb + cb
    ensures WriteDone(fat, file, t, ch, ch', text)
  {
    hide DiskOk, Mirrored, Table, Dir, Data, Grown, Holds, FreeBelow;
    ChainSpan(|ch|, |ch| - 1, 0, fat.g.clusterBytes);
  }

  /** A stray write moves the position and nothing of the volume. */
  ghost predicate Strayed(v: Volume, v': Volume, pos: nat, file: File, n: nat)
    reads file
  {
    v' == v && file.pos == pos + n && file.cblk == INVALID
  }

  lemma ChainSpan(k: nat, idx: nat, off: nat, cb: nat)
    requires idx < k && off <= cb && cb > 0
    ensures (idx + 1) * cb == idx * cb + cb
    ensures idx * cb + off <= k * cb
    ensures idx * cb + off == k * cb <==> off == cb && idx + 1 == k
  {
    if idx + 1 < k {
      ScaleStrict(idx + 1, k, cb);
    }
  }

  /** The bytes of a volume's chain are the text. */
  ghost predicate Holds(v: Volume, cb: nat, ch: seq<nat>, text: seq<byte>) {
    InData(v.data, cb, ch) && |text| <= |ch| * cb && Contents(v.data, cb, ch, |text|) == text
  }

  lemma StepEnds(fat: Fat, file: File, t: seq<nat>, ch: seq<nat>, ch': seq<nat>, text: seq<byte>, err: int)
    requires fat.Valid() && Holds(fat.Vol(), fat.g.clusterBytes, ch, text)
    requires if err == 0 then Grown(t, fat.Vol().tbl, ch, ch', 1) else ch' == ch
    requires Backed(t, fat.Vol().data, fat.g.clusterBytes, 1)
    ensures Holds(fat.Vol(), fat.g.clusterBytes, ch', text)
    ensures |ch'| == if err == 0 then |ch| + 1 else |ch|
  {
    if err == 0 {
      var c := FreeList(t)[0];
      assert FreeList(t)[..1] == [c] && ch' == ch + [c];
      assert ch'[|ch|] == c;
      ContentsExtend(fat.Vol().data, fat.g.clusterBytes, ch, c, |text|);
    }
  }

  lemma WritingEnds(fat: Fat, file: File, ch: seq<nat>, idx: nat, text: seq<byte>)
    requires Writing(fat, file, ch, idx, text) && Fits(|ch|, |text|, fat.g.clusterBytes)
    ensures WriteDone(fat, file, fat.Vol().tbl, ch, ch, text) && |text| < |ch| * fat.g.clusterBytes
  {
    hide DiskOk, Mirrored, Distinct, FreeBelow, Concat, Table, Dir, Data;
    var cb := fat.g.clusterBytes;
    WrittenContents(fat.Vol().data, cb, ch, idx, file.pos - idx * cb, text);
    LastIndex(|ch|, idx, file.pos, cb);
    assert ch == ch + FreeList(fat.Vol().tbl)[..0];
  }

  lemma LastIndex(k: nat, idx: nat, pos: nat, cb: nat)
    requires idx < k && idx * cb <= pos < idx * cb + cb && k * cb - cb <= pos
    ensures idx == k - 1 && pos < k * cb
  {
    ChainSpan(k, idx, 0, cb);
    if idx + 1 < k {
      ScaleStrict(idx + 1, k, cb);
    }
  }

  /** The loop of fatfs_write: on a chain that expand_file has made long enough, or stray. */
  method WriteLoop(fat: Fat, file: File, buf0: seq<byte>, ghost stray: bool, ghost ch: seq<nat>, ghost idx0: nat,
                   ghost text0: seq<byte>)
    returns (totalWrite: nat, ghost ch': seq<nat>)
    requires fat.Valid() && buf0 != [] && StartsChain(fat.Vol().tbl, ch, file.sblk)
    requires if stray then Stray(fat, file, buf0)
             else
               && Writing(fat, file, ch, idx0, text0) && Fits(|ch|, |text0| + |buf0|, fat.g.clusterBytes)
               && (|text0| + |buf0| == |ch| * fat.g.clusterBytes ==>
                     Backed(fat.Vol().tbl, fat.Vol().data, fat.g.clusterBytes, 1))
    modifies fat, fat.buffer, file`size, file`pos, file`cblk, file`sblk
    ensures fat.Valid() && totalWrite == |buf0| && file.sblk == old(file.sblk)
    ensures SameOutsideData(old(fat.Vol()).data, fat.Vol().data, ch) && SameLengths(old(fat.Vol()).data, fat.Vol().data)
    ensures fat.Vol().dir == old(fat.Vol()).dir
    ensures if stray then
              Strayed(old(fat.Vol()), fat.Vol(), old(file.pos), file, |buf0|) && file.size == old(file.size) + |buf0|
            else WriteDone(fat, file, old(fat.Vol()).tbl, ch, ch', text0 + buf0)
  {
    hide DiskOk, Mirrored, Links, Distinct, Grown, FreeBelow, Concat, Table, Dir, Data, Written, Holds,
      Fat.Valid, AtCluster, StartsChain, AtEnd, SameOutsideData, SameLengths, Backed, Stray;
    var buf, nbytes := buf0, |buf0|;
    totalWrite, ch' := 0, ch;
    ghost var v, text, idx := fat.Vol(), text0, idx0;
    SameOutsideDataTrans(v.data, v.data, v.data, ch);
    while nbytes != 0
      invariant nbytes == |buf| && totalWrite + nbytes == |buf0| && text + buf == text0 + buf0
      invariant fat.Valid() && file.sblk == old(file.sblk) && fat.Vol().dir == v.dir
      invariant SameOutsideData(v.data, fat.Vol().data, ch) && SameLengths(v.data, fat.Vol().data)
      invariant !stray && nbytes != 0 ==> Writing(fat, file, ch, idx, text) && fat.Vol().tbl == v.tbl
      invariant !stray && nbytes == 0 ==> WriteDone(fat, file, v.tbl, ch, ch', text0 + buf0)
      invariant stray && nbytes != 0 ==>
                  Stray(fat, file, buf) && fat.Vol() == v && file.pos == old(file.pos) && file.size == old(file.size)
                  && buf == buf0
      invariant stray && nbytes == 0 ==>
                  Strayed(v, fat.Vol(), old(file.pos), file, |buf0|) && file.size == old(file.size) + |buf0|
    {
      ghost var data := fat.Vol().data;
      BackedLater(v.tbl, v.data, data, fat.g.clusterBytes);
      var currWrite, err;
      currWrite, err, ch', idx := WriteStep(fat, file, buf, stray, ch, idx, text);
      text, buf := text + buf[..currWrite], buf[currWrite..];
      nbytes := nbytes - currWrite;
      totalWrite := totalWrite + currWrite;
      assert text + buf == text0 + buf0;
      if !stray && nbytes == 0 {
        assert text == text0 + buf0;
        if file.size < |ch| * fat.g.clusterBytes {
          WritingEnds(fat, file, ch, idx, text);
        }
      }
      SameOutsideDataTrans(v.data, data, fat.Vol().data, ch);
      if err < 0 {
        return;
      }
    }
  }

  lemma SameOutsideDataTrans(d: seq<seq<byte>>, d1: seq<seq<byte>>, d2: seq<seq<byte>>, ch: seq<nat>)
    ensures SameOutsideData(d, d, ch)
    ensures SameOutsideData(d, d1, ch) && SameOutsideData(d1, d2, ch) ==> SameOutsideData(d, d2, ch)
    ensures SameLengths(d, d) && (SameLengths(d, d1) && SameLengths(d1, d2) ==> SameLengths(d, d2))
  {
  }

  lemma BackedLater(t: seq<nat>, d: seq<seq<byte>>, d': seq<seq<byte>>, cb: nat)
    requires SameLengths(d, d')
    ensures Backed(t, d, cb, 1) ==> Backed(t, d', cb, 1)
  {
  }

  /** An open file that holds text and stands at its end, ready to append. */
  ghost predicate ReadyToAppend(fat: Fat, file: File, ch: seq<nat>, text: seq<byte>)
    reads fat, fat.buffer, file
  {
    && fat.Valid() && file.pos == file.size == |text|
    && StartsChain(fat.Vol().tbl, ch, file.sblk)
    && Holds(fat.Vol(), fat.g.clusterBytes, ch, text)
    && if ch == [] then text == [] && !ClusterIsValid(file.cblk)
       else text != [] && Fits(|ch|, |text|, fat.g.clusterBytes) && AtEnd(file, fat.g.clusterBytes, ch)
  }

  /** The next byte has a cluster: the chain is empty or not full. */
  predicate Roomy(k: nat, size: nat, cb: nat) {
    k == 0 || HasRoom(k, size, cb)
  }

  /** An open file that holds text and stands at its end: ready to append, or on the mark behind a full
      chain. */
  ghost predicate AtItsEnd(fat: Fat, file: File, ch: seq<nat>, text: seq<byte>)
    reads fat, fat.buffer, file
  {
    ReadyToAppend(fat, file, ch, text) || BehindChain(fat, file, ch, text)
  }

  /** The chain is full and the current cluster is its end mark, as after reading to the end. */
  ghost predicate BehindChain(fat: Fat, file: File, ch: seq<nat>, text: seq<byte>)
    reads fat, fat.buffer, file
  {
    && fat.Valid() && file.pos == file.size == |text| && ch != []
    && StartsChain(fat.Vol().tbl, ch, file.sblk)
    && Holds(fat.Vol(), fat.g.clusterBytes, ch, text)
    && |text| == |ch| * fat.g.clusterBytes > 0 && file.cblk == INVALID
  }

  /** After expand_file the write loop can start. */
  lemma WriteStart(fat: Fat, file: File, ch: seq<nat>, ch': seq<nat>, text: seq<byte>)
    requires fat.Valid() && Links(fat.Vol().tbl, ch', INVALID) && ch <= ch' && ch' != []
    requires file.pos == file.size == |text| && Holds(fat.Vol(), fat.g.clusterBytes, ch, text)
    requires file.sblk == ch'[0]
    requires if ch == [] then text == [] && file.cblk == ch'[0] else AtEnd(file, fat.g.clusterBytes, ch)
    requires InData(fat.Vol().data, fat.g.clusterBytes, ch')
    ensures Writing(fat, file, ch', if ch == [] then 0 else |ch| - 1, text)
  {
    hide *;
    var cb, idx := fat.g.clusterBytes, if ch == [] then 0 else |ch| - 1;
    ChainInTable(fat, ch', INVALID);
    ClusterSizePositive(cb);
    StartFacts(file, cb, ch, ch');
    WrittenInLonger(fat.Vol(), cb, ch, ch', text);
    WritingWhen(fat, file, ch', idx, text);
  }

  lemma ClusterSizePositive(cb: nat)
    requires ClusterSize(cb)
    ensures cb > 0
  {
  }

  lemma StartFacts(file: File, cb: nat, ch: seq<nat>, ch': seq<nat>)
    requires ch <= ch' && ch' != [] && cb > 0
    requires if ch == [] then file.pos == 0 && file.cblk == ch'[0] else AtEnd(file, cb, ch)
    ensures AtCluster(file, cb, ch', if ch == [] then 0 else |ch| - 1)
    ensures ch != [] ==> |ch| * cb - cb <= file.pos
  {
    if ch != [] {
      ChainSpan(|ch|, |ch| - 1, 0, cb);
    }
  }

  lemma WritingWhen(fat: Fat, file: File, ch: seq<nat>, idx: nat, text: seq<byte>)
    requires fat.Valid() && ch != [] && file.sblk == ch[0] && Links(fat.Vol().tbl, ch, INVALID)
    requires file.pos == file.size == |text| && AtCluster(file, fat.g.clusterBytes, ch, idx)
    requires idx * fat.g.clusterBytes <= file.pos
    requires Written(fat.Vol().data, fat.g.clusterBytes, ch, idx, file.pos - idx * fat.g.clusterBytes, text)
    ensures Writing(fat, file, ch, idx, text)
  {
    hide DiskOk, Mirrored, Table, Dir, Data, Links, Written;
  }

  lemma WrittenInLonger(v: Volume, cb: nat, ch: seq<nat>, ch': seq<nat>, text: seq<byte>)
    requires InData(v.data, cb, ch') && ch <= ch' && ch' != [] && cb > 0
    requires Holds(v, cb, ch, text) && if ch == [] then text == [] else |ch| * cb - cb <= |text|
    ensures if ch == [] then Written(v.data, cb, ch', 0, 0, text)
            else |ch| * cb - cb == (|ch| - 1) * cb <= |text|
                 && Written(v.data, cb, ch', |ch| - 1, |text| - (|ch| - 1) * cb, text)
  {
    if ch == [] {
      assert ch'[..0] == [];
    } else {
      var i := |ch| - 1;
      ChainSpan(|ch|, i, 0, cb);
      ContentsWritten(v.data, cb, ch, i, |text|);
      assert ch'[i] == ch[i] && ch'[..i] == ch[..i];
    }
  }

  /** How many clusters a chain of k lacks for a file of the size, its next byte included. */
  function Wanted(size: nat, k: nat, cb: nat): nat {
    if cb > 0 && ClustersFor(size, cb) > k then ClustersFor(size, cb) - k else 0
  }

  /** The allocation that fatfs_write makes before the first byte succeeds. */
  ghost predicate Appendable(t: seq<nat>, cb: nat, ch: seq<nat>, text: seq<byte>, buf: seq<byte>) {
    cb > 0 && (buf == [] || Needed(|text|, |buf|, cb) <= FreeCount(t))
  }

  /** The write stores all bytes. */
  ghost predicate Stores(t: seq<nat>, cb: nat, ch: seq<nat>, text: seq<byte>, buf: seq<byte>) {
    Appendable(t, cb, ch, text, buf) && Roomy(|ch|, |text|, cb)
  }

  /** The write at the end of a file does no harm: it has nothing to write, the file has room for one
      more byte, or the clusters for at least one more cluster's worth of bytes are not there. */
  ghost predicate Harmless(t: seq<nat>, cb: nat, ch: seq<nat>, text: seq<byte>, buf: seq<byte>) {
    cb > 0 && (buf == [] || Roomy(|ch|, |text|, cb) || (|buf| >= cb && Needed(|text|, |buf|, cb) > FreeCount(t)))
  }

  /** All bytes are stored. With enough free clusters for the longer file it is ready for more;
      one short of that, the position and the current cluster stay behind the end. */
  ghost predicate Appended(fat: Fat, file: File, t: seq<nat>, ch: seq<nat>, ch': seq<nat>, text: seq<byte>,
                           buf: seq<byte>)
    reads fat, fat.buffer, file
  {
    var cb := fat.g.clusterBytes;
    && fat.Valid() && cb > 0 && |ch| <= |ch'|
    && file.size == |text + buf|
    && StartsChain(fat.Vol().tbl, ch', file.sblk) && Holds(fat.Vol(), cb, ch', text + buf)
    && Grown(t, fat.Vol().tbl, ch, ch', |ch'| - |ch|)
    && if |ch| + FreeCount(t) >= ClustersFor(|text + buf|, cb) then
         |ch'| == ClustersFor(|text + buf|, cb) && ReadyToAppend(fat, file, ch', text + buf)
       else
         && |ch'| == |ch| + FreeCount(t) && file.pos < file.size
         && ch' != [] && Fits(|ch'|, file.size, cb) && AtCluster(file, cb, ch', |ch'| - 1)
  }

  /** fatfs_write on a file that stands at its end. With room for the next byte, either the free
      clusters suffice and the file now holds the old bytes followed by buf, ready for more; or only the
      cluster after a full last one is missing, and the bytes are stored but the position stays behind;
      or nothing happens and 0 is returned. Behind a full chain a short buffer is written to sectors of
      no cluster, and the size grows past the chain; for a longer one the clusters allocated are lost,
      and 0 is returned. */
  method FatfsWrite(fat: Fat, file: File, buf: seq<byte>, ghost ch: seq<nat>, ghost text: seq<byte>)
    returns (total: nat, ghost ch': seq<nat>)
    requires AtItsEnd(fat, file, ch, text) && |text| + |buf| < 0x8000_0000
    requires buf != [] && Roomy(|ch|, |text|, fat.g.clusterBytes) ==>
               Backed(fat.Vol().tbl, fat.Vol().data, fat.g.clusterBytes,
                      Wanted(|text| + |buf|, |ch|, fat.g.clusterBytes))
    modifies fat, fat.buffer, file`size, file`pos, file`cblk, file`sblk
    ensures fat.Valid() && fat.Vol().dir == old(fat.Vol()).dir
    ensures SameOutsideData(old(fat.Vol()).data, fat.Vol().data, ch')
    ensures SameLengths(old(fat.Vol()).data, fat.Vol().data)
    ensures ch' == [] ==> file.sblk == old(file.sblk)
    ensures var t, cb := old(fat.Vol()).tbl, fat.g.clusterBytes;
            if Stores(t, cb, ch, text, buf) then
              total == |buf| && Appended(fat, file, t, ch, ch', text, buf)
            else
              && ch' == ch && file.sblk == old(file.sblk)
              && if Harmless(t, cb, ch, text, buf) then total == 0 && fat.Vol() == old(fat.Vol()) && unchanged(file)
                 else if |buf| < cb then
                   && total == |buf| && Strayed(old(fat.Vol()), fat.Vol(), old(file.pos), file, |buf|)
                   && file.size == old(file.size) + |buf|
                 else
                   && total == 0 && unchanged(file) && fat.Vol() == old(fat.Vol()).(tbl := fat.Vol().tbl)
                   && Orphaned(t, fat.Vol().tbl, Needed(|text|, |buf|, cb))
    ensures Stores(old(fat.Vol()).tbl, fat.g.clusterBytes, ch, text, buf) ==>
              StoredText(fat.disk, fat.g, ch', text + buf)
    ensures buf != [] && (ch == [] || |text| < |ch| * fat.g.clusterBytes) ==>
              var free, cb := FreeCount(old(fat.Vol()).tbl), fat.g.clusterBytes;
              total == if |text| + |buf| <= (|ch| + free) * cb
                          && (ch != [] && |buf| == cb - |text| % cb ==> free >= 1) then |buf| else 0
  {
    hide *;
    EndParts(fat, file, ch, text);
    ghost var v, cb, stray := fat.Vol(), fat.g.clusterBytes, OffChain(file, ch);
    StoresInNumbers(fat, file, ch, text, buf);
    WriteCases(v.tbl, cb, ch, text, buf);
    if stray {
      if buf != [] {
        NeededBehind(|ch|, |text|, |buf|, cb);
      }
    } else {
      ReadyParts(fat, file, ch, text);
      AppendCount(fat, file, ch, text, |buf|);
    }
    if file.pos + |buf| > file.size {
      var incSize := file.pos + |buf| - file.size;
      var err;
      ghost var ch1;
      err, ch1 := ExpandFile(fat, file, incSize, ch);
      if err < 0 {
        return 0, ch;
      }
      ghost var n, t1 := Needed(|text|, |buf|, cb), fat.Vol().tbl;
      if stray {
        GrownNone(v.tbl, t1, ch, ch1);
        StrayWhen(fat, file, buf);
      } else {
        ExpandBacked(v.tbl, t1, v.data, cb, ch, ch1, n, |text| + |buf|);
        HoldsSame(v, fat.Vol(), cb, ch, text);
        WriteReady(fat, file, v.tbl, ch, ch1, n, text);
      }
      total, ch' := WriteLoop(fat, file, buf, stray, ch1, if ch == [] then 0 else |ch| - 1, text);
      if stray {
        ch' := ch;
      } else {
        WriteFinish(fat, file, v.tbl, t1, ch, ch1, ch', n, text + buf);
        WriteDoneParts(fat, file, t1, ch1, ch', text + buf);
        WriteSettled(fat, file, v, ch, ch1, ch', n, text, buf);
        AppendedStored(fat, file, v.tbl, ch, ch', text, buf);
      }
    } else {
      if !stray {
        NothingAppended(fat, file, v, ch, text, buf);
        AppendedStored(fat, file, v.tbl, ch, ch, text, buf);
      }
      return 0, ch;
    }
  }

  /** Reading a file with a full chain to its end leaves it behind the chain. */
  lemma BehindWhen(fat: Fat, file: File, ch: seq<nat>, text: seq<byte>)
    requires Readable(fat, file, ch, text) && file.pos == file.size && ch != []
    requires |text| == |ch| * fat.g.clusterBytes
    ensures BehindChain(fat, file, ch, text)
  {
    hide DiskOk, Mirrored, Table, Dir, Data, Links, InData, Contents;
    var cb := fat.g.clusterBytes;
    DivModUnique(file.pos, |ch|, 0, cb);
    MulAtLeast(|ch|, cb);
  }

  lemma BehindIsAtEnd(fat: Fat, file: File, ch: seq<nat>, text: seq<byte>)
    requires BehindChain(fat, file, ch, text)
    ensures AtItsEnd(fat, file, ch, text)
    ensures fat.Valid() && fat.g.clusterBytes > 0 && file.size == |text| == |ch| * fat.g.clusterBytes > 0
    ensures !Roomy(|ch|, |text|, fat.g.clusterBytes) && ch != []
  {
  }

  lemma AppendedStored(fat: Fat, file: File, t: seq<nat>, ch: seq<nat>, ch': seq<nat>, text: seq<byte>, buf: seq<byte>)
    requires Appended(fat, file, t, ch, ch', text, buf)
    ensures StoredText(fat.disk, fat.g, ch', text + buf)
  {
    hide Fat.Valid, Holds, StoredText, Links, Grown, ReadyToAppend;
    TextStored(fat, ch', text + buf);
  }

  lemma EndParts(fat: Fat, file: File, ch: seq<nat>, text: seq<byte>)
    requires AtItsEnd(fat, file, ch, text)
    ensures fat.Valid() && file.pos == file.size == |text| && fat.g.clusterBytes > 0
    ensures StartsChain(fat.Vol().tbl, ch, file.sblk) && Holds(fat.Vol(), fat.g.clusterBytes, ch, text)
    ensures OffChain(file, ch) <==> !Roomy(|ch|, |text|, fat.g.clusterBytes)
    ensures !OffChain(file, ch) <==> ReadyToAppend(fat, file, ch, text)
    ensures ch != [] ==> file.cblk == ch[|ch| - 1] || !ClusterIsValid(file.cblk)
    ensures OffChain(file, ch) ==> file.cblk == INVALID && |text| == |ch| * fat.g.clusterBytes > 0
    ensures SameLengths(fat.Vol().data, fat.Vol().data) && SameOutsideData(fat.Vol().data, fat.Vol().data, ch)
  {
    hide DiskOk, Mirrored, Table, Dir, Data, Holds;
    ClusterSizeOk(fat);
    if ch != [] && file.cblk == ch[|ch| - 1] {
      ChainSpan(|ch|, |ch| - 1, 0, fat.g.clusterBytes);
    }
  }

  /** In numbers: with room for the next byte all bytes are stored exactly when they fit into the file's and
      the free clusters, where filling the last cluster of a chain to its end takes a free one besides. */
  lemma StoresInNumbers(fat: Fat, file: File, ch: seq<nat>, text: seq<byte>, buf: seq<byte>)
    requires AtItsEnd(fat, file, ch, text)
    ensures fat.g.clusterBytes > 0
    ensures var t, cb := fat.Vol().tbl, fat.g.clusterBytes;
            buf != [] && (ch == [] || |text| < |ch| * cb) ==>
              && (Stores(t, cb, ch, text, buf) <==>
                    |text| + |buf| <= (|ch| + FreeCount(t)) * cb
                    && (ch != [] && |buf| == cb - |text| % cb ==> FreeCount(t) >= 1))
              && Harmless(t, cb, ch, text, buf)
  {
    hide DiskOk, Mirrored, Table, Dir, Data, Links, Holds, FreeBelow, Needed;
    EndParts(fat, file, ch, text);
    var cb := fat.g.clusterBytes;
    if buf != [] && (ch == [] || |text| < |ch| * cb) {
      NeededFree(|ch|, |text|, |buf|, cb, FreeCount(fat.Vol().tbl));
    }
  }

  /** In numbers: when a write behind a full chain does no harm. */
  lemma HarmlessInNumbers(t: seq<nat>, cb: nat, ch: seq<nat>, text: seq<byte>, buf: seq<byte>)
    requires cb > 0 && ch != [] && |text| == |ch| * cb > 0
    ensures Harmless(t, cb, ch, text, buf) <==>
            buf == [] || (|buf| >= cb && (FreeCount(t) == 0 || |buf| - cb > FreeCount(t) * cb))
  {
    hide FreeCount, Needed;
    WriteCases(t, cb, ch, text, buf);
    if |buf| > 0 {
      NeededBehind(|ch|, |text|, |buf|, cb);
      if |buf| > cb {
        LeastUpTo(Needed(|text|, |buf|, cb), |buf| - cb, cb, FreeCount(t));
      }
    }
  }

  lemma WriteCases(t: seq<nat>, cb: nat, ch: seq<nat>, text: seq<byte>, buf: seq<byte>)
    requires cb > 0
    ensures Stores(t, cb, ch, text, buf) <==>
            (buf == [] || Needed(|text|, |buf|, cb) <= FreeCount(t)) && Roomy(|ch|, |text|, cb)
    ensures Harmless(t, cb, ch, text, buf) <==>
            buf == [] || Roomy(|ch|, |text|, cb) || (|buf| >= cb && Needed(|text|, |buf|, cb) > FreeCount(t))
  {
  }

  /** Behind a full chain, expand_file asks for clusters exactly when a whole one is to be written. */
  lemma NeededBehind(k: nat, size: nat, n: nat, cb: nat)
    requires cb > 0 && k > 0 && size == k * cb > 0 && n > 0
    ensures Needed(size, n, cb) == 0 <==> n < cb
    ensures n > cb ==> IsLeast(Needed(size, n, cb), n - cb, cb)
    ensures n == cb ==> Needed(size, n, cb) == 1
    ensures size % cb == 0
  {
    MultipleMod(k, cb);
    if n >= cb {
      CeilBounds(n - cb, cb);
    }
    if n > cb {
      CeilLeast(n - cb, cb);
    }
  }

  lemma GrownNone(t: seq<nat>, t': seq<nat>, ch: seq<nat>, ch': seq<nat>)
    requires Grown(t, t', ch, ch', 0)
    ensures ch' == ch && t' == t
  {
  }

  lemma StrayWhen(fat: Fat, file: File, buf: seq<byte>)
    requires fat.Valid() && file.cblk == INVALID && fat.g.clusterBytes > 0
    requires file.pos % fat.g.clusterBytes == 0 && 0 < |buf| < fat.g.clusterBytes
    ensures Stray(fat, file, buf)
  {
  }

  lemma ReadyParts(fat: Fat, file: File, ch: seq<nat>, text: seq<byte>)
    requires ReadyToAppend(fat, file, ch, text)
    ensures fat.Valid() && file.pos == file.size == |text| && StartsChain(fat.Vol().tbl, ch, file.sblk)
    ensures Holds(fat.Vol(), fat.g.clusterBytes, ch, text) && InData(fat.Vol().data, fat.g.clusterBytes, ch)
    ensures ch != [] ==>
              var cb, idx := fat.g.clusterBytes, |ch| - 1;
              file.sblk == ch[0] && file.cblk == ch[idx] && idx * cb <= file.pos < idx * cb + cb
    ensures ch == [] ==> text == []
    ensures SameLengths(fat.Vol().data, fat.Vol().data) && SameOutsideData(fat.Vol().data, fat.Vol().data, ch)
  {
  }

  lemma HoldsSame(v: Volume, v': Volume, cb: nat, ch: seq<nat>, text: seq<byte>)
    requires Holds(v, cb, ch, text) && v'.data == v.data
    ensures Holds(v', cb, ch, text)
  {
  }

  lemma WriteDoneParts(fat: Fat, file: File, t: seq<nat>, ch: seq<nat>, ch': seq<nat>, text: seq<byte>)
    requires WriteDone(fat, file, t, ch, ch', text)
    ensures fat.Valid() && file.size == |text| && Holds(fat.Vol(), fat.g.clusterBytes, ch', text)
    ensures forall d, d' :: SameOutsideData(d, d', ch) ==> SameOutsideData(d, d', ch')
  {
    hide DiskOk, Mirrored, FreeBelow, Table, Dir, Data, Concat, Links, Fat.Valid, Holds, AtEnd;
    assert forall c :: c in ch ==> c in ch';
  }

  /** The chain after expand_file lies on the disk, and so does the cluster that a write up to its end
      adds. */
  lemma ExpandBacked(t: seq<nat>, t1: seq<nat>, data: seq<seq<byte>>, cb: nat, ch: seq<nat>, ch1: seq<nat>, n: nat,
                     size: nat)
    requires Grown(t, t1, ch, ch1, n) && Links(t, ch, INVALID) && InData(data, cb, ch) && cb > 0
    requires Backed(t, data, cb, Wanted(size, |ch|, cb))
    requires ClustersFor(size, cb) == if size < (|ch| + n) * cb then |ch| + n else |ch| + n + 1
    ensures InData(data, cb, ch1) && |ch1| == |ch| + n
    ensures size == |ch1| * cb ==> Backed(t1, data, cb, 1)
  {
    hide ClustersFor, Links, FreeBelow, SameOutside, Distinct;
    ChainIsUsed(t, ch);
    GrownTook(t, t1, ch, ch1, n);
    BackedRest(t, t1, data, cb, Wanted(size, |ch|, cb), n);
  }

  lemma WriteReady(fat: Fat, file: File, t: seq<nat>, ch: seq<nat>, ch1: seq<nat>, n: nat, text: seq<byte>)
    requires fat.Valid() && Grown(t, fat.Vol().tbl, ch, ch1, n) && |ch| + n > 0
    requires file.pos == file.size == |text| && Holds(fat.Vol(), fat.g.clusterBytes, ch, text)
    requires InData(fat.Vol().data, fat.g.clusterBytes, ch1)
    requires if ch == [] then text == [] && (ch1 != [] ==> file.sblk == file.cblk == ch1[0])
             else
               var cb, idx := fat.g.clusterBytes, |ch| - 1;
               file.sblk == ch[0] && file.cblk == ch[idx] && idx * cb <= file.pos < idx * cb + cb
    ensures Writing(fat, file, ch1, if ch == [] then 0 else |ch| - 1, text) && ch1 != [] && file.sblk == ch1[0]
    ensures StartsChain(fat.Vol().tbl, ch1, file.sblk)
  {
    hide DiskOk, Mirrored, FreeBelow, Table, Dir, Data, Written, Concat, Holds, Writing;
    WriteStart(fat, file, ch, ch1, text);
  }

  lemma WriteSettled(fat: Fat, file: File, v: Volume, ch: seq<nat>, ch1: seq<nat>, ch': seq<nat>, n: nat,
                     text: seq<byte>, buf: seq<byte>)
    requires fat.Valid() && fat.g.clusterBytes > 0 && |ch1| == |ch| + n && ch1 != [] && buf != []
    requires StartsChain(fat.Vol().tbl, ch', file.sblk) && file.size == |text + buf|
    requires Holds(fat.Vol(), fat.g.clusterBytes, ch', text + buf)
    requires var cb := fat.g.clusterBytes;
             ClustersFor(|text + buf|, cb) == if |text + buf| < |ch1| * cb then |ch1| else |ch1| + 1
    requires if |text + buf| < |ch1| * fat.g.clusterBytes || FreeCount(v.tbl) > n then
               && ReadyToAppend(fat, file, ch', text + buf)
               && |ch'| == (if |text + buf| < |ch1| * fat.g.clusterBytes then |ch1| else |ch1| + 1)
               && Grown(v.tbl, fat.Vol().tbl, ch, ch', |ch'| - |ch|)
             else
               && Grown(v.tbl, fat.Vol().tbl, ch, ch', n) && FreeCount(v.tbl) == n
               && ch' == ch1 && file.pos < file.size && AtCluster(file, fat.g.clusterBytes, ch', |ch'| - 1)
               && Fits(|ch1|, |text + buf|, fat.g.clusterBytes)
    requires n <= FreeCount(v.tbl)
    ensures Appended(fat, file, v.tbl, ch, ch', text, buf)
  {
    hide DiskOk, Mirrored, FreeBelow, Table, Dir, Data, Concat, Grown, StartsChain, ReadyToAppend, Holds, ClustersFor;
  }

  lemma NothingAppended(fat: Fat, file: File, v: Volume, ch: seq<nat>, text: seq<byte>, buf: seq<byte>)
    requires ReadyToAppend(fat, file, ch, text) && buf == [] && v == fat.Vol()
    ensures Appended(fat, file, v.tbl, ch, ch, text, buf)
  {
    hide DiskOk, Mirrored, FreeBelow, Table, Dir, Data, Concat;
    assert text + buf == text && ch == ch + FreeList(v.tbl)[..0];
    AppendCount(fat, file, ch, text, 0);
  }

  /** How many clusters a ready file has, and how many appending n bytes takes. */
  lemma AppendCount(fat: Fat, file: File, ch: seq<nat>, text: seq<byte>, n: nat)
    requires ReadyToAppend(fat, file, ch, text)
    ensures var cb := fat.g.clusterBytes;
            && cb > 0 && |ch| == ClustersFor(|text|, cb) && Links(fat.Vol().tbl, ch, INVALID)
            && (n > 0 ==>
                  var k := |ch| + Needed(|text|, n, cb);
                  && k > 0 && Fits(k, |text| + n, cb)
                  && ClustersFor(|text| + n, cb) == if |text| + n < k * cb then k else k + 1)
  {
    hide *;
    var cb := fat.g.clusterBytes;
    ReadyParts(fat, file, ch, text);
    ReadyLinks(fat, file, ch, text);
    ReadyCount(|ch|, |text|, n, cb);
  }

  lemma ReadyLinks(fat: Fat, file: File, ch: seq<nat>, text: seq<byte>)
    requires ReadyToAppend(fat, file, ch, text)
    ensures Links(fat.Vol().tbl, ch, INVALID) && fat.g.clusterBytes > 0
    ensures ch == [] ==> text == []
    ensures ch != [] ==> |text| > 0 && Fits(|ch|, |text|, fat.g.clusterBytes)
    ensures var k, cb := |ch|, fat.g.clusterBytes; ch != [] ==> (k - 1) * cb <= |text| < (k - 1) * cb + cb
  {
    hide DiskOk, Mirrored, Table, Dir, Data, Holds, Fits;
    ClusterSizeOk(fat);
  }

  lemma ReadyCount(k: nat, size: nat, n: nat, cb: nat)
    requires cb > 0 && if k == 0 then size == 0 else size > 0 && Fits(k, size, cb)
    requires k > 0 ==> (k - 1) * cb <= size < (k - 1) * cb + cb
    ensures k == ClustersFor(size, cb)
    ensures n > 0 ==>
              var m := k + Needed(size, n, cb);
              && m > 0 && Fits(m, size + n, cb)
              && ClustersFor(size + n, cb) == if size + n < m * cb then m else m + 1
  {
    hide Needed, Fits;
    if k > 0 {
      ChainSpan(k, k - 1, 0, cb);
      RoomExact(k, size, cb);
    }
    if n > 0 {
      NeededTotal(k, size, n, cb);
    }
  }

  /** Putting expand_file and the write loop together. */
  lemma WriteFinish(fat: Fat, file: File, t: seq<nat>, t1: seq<nat>, ch: seq<nat>, ch1: seq<nat>, ch': seq<nat>, n: nat,
                    text: seq<byte>)
    requires Links(t, ch, INVALID) && Grown(t, t1, ch, ch1, n) && ch1 != []
    requires WriteDone(fat, file, t1, ch1, ch', text)
    requires file.sblk == ch1[0] && text != [] && Fits(|ch1|, |text|, fat.g.clusterBytes)
    ensures StartsChain(fat.Vol().tbl, ch', file.sblk)
    ensures if |text| < |ch1| * fat.g.clusterBytes || FreeCount(t) > n then
              && ReadyToAppend(fat, file, ch', text)
              && |ch'| == (if |text| < |ch1| * fat.g.clusterBytes then |ch1| else |ch1| + 1)
              && Grown(t, fat.Vol().tbl, ch, ch', |ch'| - |ch|)
            else
              && Grown(t, fat.Vol().tbl, ch, ch', n) && FreeCount(t) == n
              && ch' == ch1 && file.pos < file.size && AtCluster(file, fat.g.clusterBytes, ch', |ch'| - 1)
  {
    hide DiskOk, Mirrored, FreeBelow, Table, Dir, Data, Fits;
    ChainIsUsed(t, ch);
    GrownTook(t, t1, ch, ch1, n);
    if |text| < |ch1| * fat.g.clusterBytes || FreeCount(t) > n {
      FinishReady(fat, file, t, t1, ch, ch1, ch', n, text);
    }
  }

  lemma FinishReady(fat: Fat, file: File, t: seq<nat>, t1: seq<nat>, ch: seq<nat>, ch1: seq<nat>, ch': seq<nat>, n: nat,
                    text: seq<byte>)
    requires Links(t, ch, INVALID) && Grown(t, t1, ch, ch1, n) && ch1 != []
    requires WriteDone(fat, file, t1, ch1, ch', text)
    requires file.sblk == ch1[0] && text != [] && Fits(|ch1|, |text|, fat.g.clusterBytes)
    requires |text| < |ch1| * fat.g.clusterBytes || FreeCount(t) > n
    ensures StartsChain(fat.Vol().tbl, ch', file.sblk) && ReadyToAppend(fat, file, ch', text)
    ensures |ch'| == if |text| < |ch1| * fat.g.clusterBytes then |ch1| else |ch1| + 1
    ensures Grown(t, fat.Vol().tbl, ch, ch', |ch'| - |ch|)
  {
    hide DiskOk, Mirrored, FreeBelow, Table, Dir, Data;
    ChainIsUsed(t, ch);
    GrownTook(t, t1, ch, ch1, n);
    var cb := fat.g.clusterBytes;
    if |text| < |ch1| * cb {
      assert ch' == ch1;
    } else {
      GrownTwice(t, t1, fat.Vol().tbl, ch, ch1, ch', n, 1);
      assert |ch'| == |ch1| + 1 && ch'[0] == ch1[0];
      ChainSpan(|ch'|, |ch1|, 0, cb);
    }
  }

  // ---------------------------------------------------------------- reading

  /** An open file that holds text, with its position anywhere in it. */
  ghost predicate Readable(fat: Fat, file: File, ch: seq<nat>, text: seq<byte>)
    reads fat, fat.buffer, file
    ensures Readable(fat, file, ch, text) ==> fat.Valid()
  {
    fat.Valid() && OpenOn(fat.Vol(), fat.g.clusterBytes, file, ch, text)
  }

  ghost predicate OpenOn(v: Volume, cb: nat, file: File, ch: seq<nat>, text: seq<byte>)
    reads file
  {
    && StartsChain(v.tbl, ch, file.sblk) && Holds(v, cb, ch, text)
    && file.pos <= file.size == |text| && Positioned(file, cb, ch)
  }

  /** cblk names the cluster of the position; where the chain has none for it, it is none, and behind a
      chain its end mark. */
  ghost predicate Positioned(file: File, cb: nat, ch: seq<nat>)
    reads file
  {
    && cb > 0
    && if ClusterOf(file.pos, cb) < |ch| then file.cblk == ch[ClusterOf(file.pos, cb)]
       else if ch == [] then !ClusterIsValid(file.cblk) else file.cblk == INVALID
  }

  lemma PositionIndex(pos: nat, size: nat, k: nat, cb: nat)
    requires cb > 0 && pos < size <= k * cb
    ensures var i := ClusterOf(pos, cb); i < k && i * cb <= pos < i * cb + cb
  {
    var i := ClusterOf(pos, cb);
    assert pos == i * cb + pos % cb;
    if i >= k {
      if i > k {
        ScaleStrict(k, i, cb);
      }
    }
  }

  /** The body of the read loop up to the copy into the caller's memory. */
  method ReadChunk(fat: Fat, file: File, nbytes: nat, ghost ch: seq<nat>, ghost idx: nat, ghost text: seq<byte>)
    returns (bytes: seq<byte>)
    requires Readable(fat, file, ch, text) && 0 < nbytes && file.pos + nbytes <= |text|
    requires AtCluster(file, fat.g.clusterBytes, ch, idx)
    modifies fat`currSector, fat.buffer
    ensures Readable(fat, file, ch, text)
    ensures 0 < |bytes| <= nbytes && bytes == text[file.pos..file.pos + |bytes|]
    ensures file.pos + |bytes| <= idx * fat.g.clusterBytes + fat.g.clusterBytes
  {
    hide *;
    ghost var data, cb := fat.Vol().data, fat.g.clusterBytes;
    ReadFacts(fat, file, ch, idx, text);
    bytes := FetchChunk(fat, file.cblk, file.pos % fat.g.clusterBytes, nbytes);
    ContentsSlice(data, cb, ch, |text|, idx, file.pos - idx * cb, |bytes|);
    StillReadable(fat, file, ch, text, fat.Vol());
  }

  lemma ReadFacts(fat: Fat, file: File, ch: seq<nat>, idx: nat, text: seq<byte>)
    requires Readable(fat, file, ch, text) && AtCluster(file, fat.g.clusterBytes, ch, idx)
    ensures var cb := fat.g.clusterBytes;
            var data := fat.Vol().data;
            && cb > 0 && idx < |ch| && file.cblk == ch[idx] && 2 <= file.cblk < fat.g.Total() == |data|
            && |data[file.cblk]| == cb
            && InData(data, cb, ch) && |text| <= |ch| * cb && Contents(data, cb, ch, |text|) == text
            && file.pos % cb == file.pos - idx * cb && idx * cb <= file.pos < idx * cb + cb
            && OpenOn(fat.Vol(), cb, file, ch, text)
  {
    ChainInTable(fat, ch, INVALID);
    OffsetInCluster(file.pos, fat.g.clusterBytes, idx);
  }

  lemma StillReadable(fat: Fat, file: File, ch: seq<nat>, text: seq<byte>, v: Volume)
    requires fat.Valid() && v == fat.Vol() && OpenOn(v, fat.g.clusterBytes, file, ch, text)
    ensures Readable(fat, file, ch, text)
  {
  }

  /** Before the end of the file, cblk is the cluster that holds the byte at the position. */
  lemma CurrentCluster(fat: Fat, file: File, ch: seq<nat>, text: seq<byte>)
    requires Readable(fat, file, ch, text) && file.pos < |text|
    ensures fat.g.clusterBytes > 0 && AtCluster(file, fat.g.clusterBytes, ch, ClusterOf(file.pos, fat.g.clusterBytes))
  {
    PositionIndex(file.pos, |text|, |ch|, fat.g.clusterBytes);
  }

  /** A whole cluster comes straight from the disk, a part of one through the buffer. */
  method FetchChunk(fat: Fat, c: nat, clusterOffset: nat, nbytes: nat) returns (bytes: seq<byte>)
    requires fat.Valid() && 2 <= c < fat.g.Total() && clusterOffset < fat.g.clusterBytes && nbytes > 0
    requires |fat.Vol().data[c]| == fat.g.clusterBytes
    modifies fat`currSector, fat.buffer
    ensures fat.Valid() && |fat.Vol().data[c]| == fat.g.clusterBytes
    ensures var n := if clusterOffset + nbytes > fat.g.clusterBytes then fat.g.clusterBytes - clusterOffset else nbytes;
            bytes == fat.Vol().data[c][clusterOffset..clusterOffset + n]
  {
    hide ClusterIs;
    ClusterOnDisk(fat, c);
    var cb, currRead := fat.g.clusterBytes, nbytes;
    if clusterOffset == 0 && currRead == cb {
      bytes := fat.ReadClusterDirect(c);
    } else {
      if clusterOffset + currRead > cb {
        currRead := cb - clusterOffset;
      }
      fat.ReadCluster(c);
      bytes := fat.buffer[clusterOffset..clusterOffset + currRead];
      SliceOfSlice(fat.buffer[..], 0, cb, clusterOffset, clusterOffset + currRead);
    }
  }

  /** fatfs_read: the next size bytes of the file, or what is left of it. */
  method FatfsRead(fat: Fat, file: File, size: nat, ghost ch: seq<nat>, ghost text: seq<byte>) returns (buf: seq<byte>)
    requires Readable(fat, file, ch, text)
    modifies fat, fat.buffer, file`pos, file`cblk, file`sblk
    ensures Readable(fat, file, ch, text)
    ensures fat.Vol() == old(fat.Vol()) && file.sblk == old(file.sblk)
    ensures var n := if old(file.pos) + size > |text| then |text| - old(file.pos) else size;
            buf == text[old(file.pos)..old(file.pos) + n] && file.pos == old(file.pos) + n
    ensures forall j :: 0 <= j < |buf| ==> StoredAt(old(fat.disk), fat.g, ch, old(file.pos) + j, buf[j])
  {
    hide *;
    ReadableBounds(fat, file, ch, text);
    ReadableStored(fat, file, ch, text);
    ghost var d0 := fat.disk;
    var nbytes := size;
    if file.pos + nbytes > file.size {
      nbytes := file.size - file.pos;
    }
    buf := [];
    ghost var start, v, sblk := file.pos, fat.Vol(), file.sblk;
    ghost var end := start + nbytes;
    assert end == start + (if start + size > |text| then |text| - start else size);
    while nbytes > 0
      invariant fat.Valid() && Readable(fat, file, ch, text) && fat.Vol() == v && file.sblk == sblk
      invariant 0 <= nbytes && start <= file.pos && file.pos + nbytes == end <= |text|
      invariant buf == text[start..file.pos]
    {
      CurrentCluster(fat, file, ch, text);
      ghost var idx := ClusterOf(file.pos, fat.g.clusterBytes);
      var bytes := ReadChunk(fat, file, nbytes, ch, idx, text);
      SliceAppend(text, start, file.pos, file.pos + |bytes|);
      ReadMove(fat, file, |bytes|, ch, idx, text);
      buf := buf + bytes;
      nbytes := nbytes - |bytes|;
    }
    assert file.pos == end;
    StoredPart(d0, fat.g, ch, text, start, buf);
  }

  lemma ReadableStored(fat: Fat, file: File, ch: seq<nat>, text: seq<byte>)
    requires Readable(fat, file, ch, text)
    ensures StoredText(fat.disk, fat.g, ch, text)
  {
    hide Fat.Valid, Holds, StoredText, Links;
    TextStored(fat, ch, text);
  }

  lemma StoredPart(d: Disk, g: Geometry, ch: seq<nat>, text: seq<byte>, start: nat, buf: seq<byte>)
    requires StoredText(d, g, ch, text) && start + |buf| <= |text| && buf == text[start..start + |buf|]
    ensures forall j :: 0 <= j < |buf| ==> StoredAt(d, g, ch, start + j, buf[j])
  {
    hide StoredAt;
    forall j | 0 <= j < |buf|
      ensures StoredAt(d, g, ch, start + j, buf[j])
    {
      assert buf[j] == text[start + j];
    }
  }

  lemma ReadableBounds(fat: Fat, file: File, ch: seq<nat>, text: seq<byte>)
    requires Readable(fat, file, ch, text)
    ensures fat.Valid() && file.pos <= file.size == |text|
  {
  }

  /** A reader's move_file_pos never touches the disk. */
  method ReadMove(fat: Fat, file: File, n: nat, ghost ch: seq<nat>, ghost idx: nat, ghost text: seq<byte>)
    requires Readable(fat, file, ch, text) && 0 < n && file.pos + n <= |text|
    requires AtCluster(file, fat.g.clusterBytes, ch, idx)
    requires file.pos + n <= idx * fat.g.clusterBytes + fat.g.clusterBytes
    modifies fat, fat.buffer, file`pos, file`cblk, file`sblk
    ensures Readable(fat, file, ch, text)
    ensures fat.Vol() == old(fat.Vol()) && file.sblk == old(file.sblk)
    ensures file.pos == old(file.pos) + n
  {
    hide *;
    ghost var cb, p := fat.g.clusterBytes, file.pos + n;
    ReadFacts(fat, file, ch, idx, text);
    ReadableParts(fat, file, ch, text);
    ChainSpan(|ch|, idx, file.pos - idx * cb, cb);
    MoveTarget(p, idx, cb);
    ghost var err, ch' := MoveFilePos(fat, file, n, false, ch, idx);
    MovedReadable(fat, file, ch, text, idx);
  }

  lemma ReadableParts(fat: Fat, file: File, ch: seq<nat>, text: seq<byte>)
    requires Readable(fat, file, ch, text)
    ensures StartsChain(fat.Vol().tbl, ch, file.sblk) && Holds(fat.Vol(), fat.g.clusterBytes, ch, text)
    ensures file.size == |text|
  {
  }

  lemma MoveTarget(p: nat, idx: nat, cb: nat)
    requires cb > 0 && idx * cb <= p <= idx * cb + cb
    ensures ClusterOf(p, cb) == if p < idx * cb + cb then idx else idx + 1
  {
    if p < idx * cb + cb {
      OffsetInCluster(p, cb, idx);
    } else {
      OffsetInCluster(p, cb, idx + 1);
    }
  }

  lemma MovedReadable(fat: Fat, file: File, ch: seq<nat>, text: seq<byte>, idx: nat)
    requires fat.Valid() && StartsChain(fat.Vol().tbl, ch, file.sblk) && Holds(fat.Vol(), fat.g.clusterBytes, ch, text)
    requires file.pos <= file.size == |text| && idx < |ch| && fat.g.clusterBytes > 0
    requires var cb := fat.g.clusterBytes;
             && ClusterOf(file.pos, cb) == (if file.pos < idx * cb + cb then idx else idx + 1)
             && file.cblk == if file.pos < idx * cb + cb then ch[idx]
                             else if idx + 1 < |ch| then ch[idx + 1] else INVALID
    ensures Readable(fat, file, ch, text)
  {
    hide ClusterOf, Holds, StartsChain, Fat.Valid;
  }

  // ---------------------------------------------------------------- seeking

  /** fatfs_seek: walks offset / cluster size entries, starting from the current cluster. */
  method FatfsSeek(fat: Fat, file: File, offset: nat, dir: int, ghost ch: seq<nat>, ghost i: nat) returns (err: int)
    requires fat.Valid() && StartsChain(fat.Vol().tbl, ch, file.sblk)
    requires if i < |ch| then file.cblk == ch[i] else !ClusterIsValid(file.cblk)
    modifies fat`currSector, fat.buffer, file`pos, file`cblk
    ensures fat.Valid() && fat.g.clusterBytes > 0
    ensures var k := ClusterOf(offset, fat.g.clusterBytes);
            if dir != 0 || (k > 0 && i + k >= |ch|) then err == -1 && unchanged(file)
            else err == 0 && file.pos == offset && file.cblk == if k == 0 then old(file.cblk) else ch[i + k]
  {
    hide *;
    SeekFacts(fat, file, ch);
    if dir != 0 {
      return -1;
    }
    var cb := fat.g.clusterBytes;
    var currentCluster: nat, currPos: nat, offsetToMove: nat := file.cblk, 0, offset;
    ghost var v, s: nat := fat.Vol(), 0;
    while offsetToMove != 0
      invariant fat.Valid() && fat.Vol() == v && unchanged(file)
      invariant currPos == s * cb && currPos + offsetToMove == offset
      invariant if i + s < |ch| then currentCluster == ch[i + s] else s == 0 && currentCluster == file.cblk
      decreases offsetToMove
    {
      MultipleMod(s, cb);
      var cOffset := currPos % cb;
      var currMove := offsetToMove;
      if cOffset + currMove < cb {
        currPos := currPos + currMove;
        SeekStop(offset, s, cb);
        break;
      }
      currMove := cb - cOffset;
      currPos := currPos + currMove;
      offsetToMove := offsetToMove - currMove;
      SeekHop(v.tbl, ch, i + s, currentCluster);
      currentCluster := fat.ClusterGetNext(currentCluster);
      assert (s + 1) * cb == s * cb + cb;
      s := s + 1;
      if !ClusterIsValid(currentCluster) {
        SeekShort(offset, s, cb);
        return -1;
      }
    }
    if offsetToMove == 0 {
      SeekStop(offset, s, cb);
    }
    file.pos := currPos;
    file.cblk := currentCluster;
    return 0;
  }

  lemma SeekFacts(fat: Fat, file: File, ch: seq<nat>)
    requires fat.Valid() && StartsChain(fat.Vol().tbl, ch, file.sblk)
    ensures fat.g.clusterBytes > 0 && Links(fat.Vol().tbl, ch, INVALID)
  {
  }

  lemma SeekHop(t: seq<nat>, ch: seq<nat>, j: nat, c: nat)
    requires Links(t, ch, INVALID) && if j < |ch| then c == ch[j] else !ClusterIsValid(c)
    ensures Next(t, c) == if j + 1 < |ch| then ch[j + 1] else INVALID
    ensures ClusterIsValid(Next(t, c)) <==> j + 1 < |ch|
  {
  }

  lemma SeekStop(offset: nat, s: nat, cb: nat)
    requires cb > 0 && s * cb <= offset < s * cb + cb
    ensures ClusterOf(offset, cb) == s
  {
    DivModUnique(offset, s, offset - s * cb, cb);
  }

  lemma SeekShort(offset: nat, s: nat, cb: nat)
    requires cb > 0 && s * cb <= offset
    ensures s <= ClusterOf(offset, cb)
  {
    var q := ClusterOf(offset, cb);
    assert offset == q * cb + offset % cb;
    if q < s {
      ScaleStrict(q, s, cb);
    }
  }

  /** A successful seek leaves a readable position exactly when it started in the first cluster
      and the offset does not lie past the end of the file: the walk counts from the current
      cluster as if that were the first one, and nothing compares the offset with the size. */
  method SeekThenReadable(fat: Fat, file: File, offset: nat, ghost ch: seq<nat>, ghost text: seq<byte>)
    returns (err: int)
    requires Readable(fat, file, ch, text)
    modifies fat`currSector, fat.buffer, file`pos, file`cblk
    ensures fat.Valid() && fat.g.clusterBytes > 0 && fat.Vol() == old(fat.Vol()) && file.size == old(file.size)
    ensures var cb := fat.g.clusterBytes;
            err == 0 <==> ClusterOf(offset, cb) == 0 || ClusterOf(old(file.pos), cb) + ClusterOf(offset, cb) < |ch|
    ensures if err == 0 then
              && file.pos == offset && file.sblk == old(file.sblk)
              && (ClusterOf(offset, fat.g.clusterBytes) == 0 ==> file.cblk == old(file.cblk))
            else err == -1 && unchanged(file)
    ensures Readable(fat, file, ch, text) <==>
            err == 0 ==> ClusterOf(old(file.pos), fat.g.clusterBytes) == 0 && offset <= |text|
  {
    hide *;
    ClusterSizeOk(fat);
    ghost var v, cb, i := fat.Vol(), fat.g.clusterBytes, ClusterOf(file.pos, fat.g.clusterBytes);
    SeekStart(fat, file, ch, text, i);
    err := FatfsSeek(fat, file, offset, 0, ch, i);
    if err == 0 {
      SeekLands(fat, file, ch, text, i, offset);
    } else {
      StillReadable(fat, file, ch, text, v);
    }
  }

  lemma InCluster(pos: nat, cb: nat)
    requires cb > 0
    ensures ClusterOf(pos, cb) * cb <= pos < ClusterOf(pos, cb) * cb + cb
  {
    assert pos == pos / cb * cb + pos % cb;
  }

  lemma SeekStart(fat: Fat, file: File, ch: seq<nat>, text: seq<byte>, i: nat)
    requires Readable(fat, file, ch, text) && fat.g.clusterBytes > 0 && i == ClusterOf(file.pos, fat.g.clusterBytes)
    ensures fat.Valid() && StartsChain(fat.Vol().tbl, ch, file.sblk)
    ensures if i < |ch| then file.cblk == ch[i] else !ClusterIsValid(file.cblk)
    ensures i == 0 || i <= |ch|
    ensures Holds(fat.Vol(), fat.g.clusterBytes, ch, text) && file.size == |text|
    ensures OpenOn(fat.Vol(), fat.g.clusterBytes, file, ch, text)
  {
    hide Fat.Valid, Links, InData, Contents;
    InCluster(file.pos, fat.g.clusterBytes);
    if i > |ch| {
      ScaleStrict(|ch|, i, fat.g.clusterBytes);
    }
  }

  lemma SeekLands(fat: Fat, file: File, ch: seq<nat>, text: seq<byte>, i: nat, offset: nat)
    requires fat.Valid() && StartsChain(fat.Vol().tbl, ch, file.sblk) && Holds(fat.Vol(), fat.g.clusterBytes, ch, text)
    requires file.size == |text| && file.pos == offset && fat.g.clusterBytes > 0
    requires var k := ClusterOf(offset, fat.g.clusterBytes);
             if i + k < |ch| then file.cblk == ch[i + k] else k == 0 && !ClusterIsValid(file.cblk)
    requires i <= |ch|
    ensures Readable(fat, file, ch, text) <==> i == 0 && offset <= |text|
  {
    hide ClusterOf, Holds, Fat.Valid;
    var k := ClusterOf(offset, fat.g.clusterBytes);
    if i + k < |ch| {
      ShiftedChain(ch, i, k);
    } else if ch != [] {
      FirstIsValid(fat.Vol().tbl, ch);
    }
  }

  lemma FirstIsValid(t: seq<nat>, ch: seq<nat>)
    requires Links(t, ch, INVALID) && ch != []
    ensures ClusterIsValid(ch[0])
  {
  }

  lemma ShiftedChain(ch: seq<nat>, i: nat, k: nat)
    requires Distinct(ch) && i + k < |ch|
    ensures ch[i + k] == ch[k] <==> i == 0
  {
  }

  // ---------------------------------------------------------------- clusters past the end of the disk

  /** The clusters that an allocation takes lie on the disk exactly when the last one does. */
  lemma BackedExact(fat: Fat, n: nat)
    requires fat.Valid()
    ensures var f, m := FreeList(fat.Vol().tbl), if n < FreeCount(fat.Vol().tbl) then n else FreeCount(fat.Vol().tbl);
            && (forall i :: 0 <= i < |f| ==> 2 <= f[i] < fat.g.Total())
            && (Backed(fat.Vol().tbl, fat.Vol().data, fat.g.clusterBytes, n) <==> m == 0 || fat.g.HasSectors(f[m - 1]))
  {
    hide *;
    ChainInTable(fat, [], INVALID);
    forall c | 2 <= c < fat.g.Total()
      ensures |fat.Vol().data[c]| == fat.g.clusterBytes <==> fat.g.HasSectors(c)
    {
      ClusterOnDisk(fat, c);
    }
    BackedIff(fat.Vol().tbl, fat.Vol().data, fat.g, n);
  }

  lemma BackedIff(t: seq<nat>, data: seq<seq<byte>>, g: Geometry, n: nat)
    requires |data| == |t| == g.Total()
    requires forall c :: 2 <= c < |t| ==> (|data[c]| == g.clusterBytes <==> g.HasSectors(c))
    ensures var f, m := FreeList(t), if n < FreeCount(t) then n else FreeCount(t);
            && (forall i :: 0 <= i < |f| ==> 2 <= f[i] < g.Total())
            && (Backed(t, data, g.clusterBytes, n) <==> m == 0 || g.HasSectors(f[m - 1]))
  {
    hide Geometry.HasSectors, Geometry.Total, FreeBelow;
    var f := FreeList(t);
    var m := if n < |f| then n else |f|;
    FreeBelowExact(t, |t|);
    assert forall i :: 0 <= i < |f| ==> f[i] in f;
    forall i | 0 <= i < m && g.HasSectors(f[m - 1])
      ensures g.HasSectors(f[i])
    {
      EarlierOnDisk(g, f[i], f[m - 1]);
    }
  }

  lemma EarlierOnDisk(g: Geometry, a: nat, b: nat)
    requires 2 <= a <= b && g.HasSectors(b)
    ensures g.HasSectors(a)
  {
    ClusterGap(g, a, b);
  }
}
