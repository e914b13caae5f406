/** The open files of a volume and the map of its files, on values, and which states no map of files
    explains. */
module FatTracks {
  import opened Bits
  import opened Counting
  import opened Bytes
  import opened FatTable
  import opened FatDisk
  import opened FatContent
  import opened FatDriver
  import opened FatFile
  import opened FatIO
  import opened FatNames
  import opened FatOwner
  import opened FatDir

  /** Size and start cluster that agree with a file. */
  ghost predicate Anchored(r: Rec, size: nat, sblk: nat) {
    && size == |r.text| && sblk < 0x1_0000
    && if r.ch == [] then !ClusterIsValid(sblk) else sblk == r.ch[0]
  }

  /** An open file: its file_t agrees with the file it stands for. */
  ghost predicate HandleOk(file: File, i: nat, cb: nat, r: Rec)
    reads file
  {
    Anchored(r, file.size, file.sblk) && file.pIndex == i && file.pos <= file.size && Positioned(file, cb, r.ch)
  }

  /** The entries in use are the files, and the entry of a file that is not open is up to date. */
  ghost predicate Registered(dir: seq<seq<byte>>, files: map<nat, Rec>, open: set<nat>)
    requires EntriesOk(dir)
  {
    && (forall i :: i in files ==> i < |dir| && InUse(dir[i]))
    && (forall i :: 0 <= i < |dir| && InUse(dir[i]) ==> i in files)
    && (forall i :: i in files && i !in open ==> Anchored(files[i], EntrySize(dir[i]), EntryCluster(dir[i])))
  }

  ghost predicate Tracks(v: Volume, cb: nat, files: map<nat, Rec>, foreign: set<nat>, open: set<nat>) {
    Owned(v, cb, files, foreign) && EntriesOk(v.dir) && Registered(v.dir, files, open)
  }

  // ---------------------------------------------------------------- open files and the driver's view

  lemma HandleReadable(fat: Fat, file: File, i: nat, r: Rec)
    requires fat.Valid() && RecOk(fat.Vol(), fat.g.clusterBytes, r) && HandleOk(file, i, fat.g.clusterBytes, r)
    ensures Readable(fat, file, r.ch, r.text)
  {
  }

  lemma ReadableHandle(fat: Fat, file: File, i: nat, r: Rec)
    requires Readable(fat, file, r.ch, r.text) && file.pIndex == i && file.sblk < 0x1_0000
    ensures HandleOk(file, i, fat.g.clusterBytes, r)
  {
  }

  /** A file at its end can be appended to, or its current cluster is the mark behind its full chain. */
  lemma HandleAtEnd(fat: Fat, file: File, i: nat, r: Rec)
    requires fat.Valid() && RecOk(fat.Vol(), fat.g.clusterBytes, r) && HandleOk(file, i, fat.g.clusterBytes, r)
    requires file.pos == file.size
    ensures AtItsEnd(fat, file, r.ch, r.text)
    ensures CanGrow(r, fat.g.clusterBytes) <==> ReadyToAppend(fat, file, r.ch, r.text)
  {
    hide DiskOk, Mirrored, Table, Dir, Data, Links, InData, Contents;
    var cb := fat.g.clusterBytes;
    if r.ch != [] {
      if CanGrow(r, cb) {
        RoomExact(|r.ch|, |r.text|, cb);
        assert ClusterOf(file.pos, cb) == |r.ch| - 1;
        PositionIndex(file.pos, file.pos + 1, |r.ch|, cb);
      } else {
        DivModUnique(file.pos, |r.ch|, 0, cb);
      }
    }
  }

  /** The chain has the cluster for the next byte: all files but those with a full chain. */
  ghost predicate CanGrow(r: Rec, cb: nat) {
    Roomy(|r.ch|, |r.text|, cb)
  }

  /** After fatfs_write the file is in order again, whatever the write's outcome. */
  lemma AppendedHandle(fat: Fat, file: File, i: nat, t: seq<nat>, ch: seq<nat>, ch': seq<nat>, text: seq<byte>,
                       buf: seq<byte>)
    requires Appended(fat, file, t, ch, ch', text, buf) && file.pIndex == i
    requires ch' == [] ==> file.sblk < 0x1_0000
    ensures var r := Rec(ch', text + buf);
            RecOk(fat.Vol(), fat.g.clusterBytes, r) && HandleOk(file, i, fat.g.clusterBytes, r)
  {
    var cb := fat.g.clusterBytes;
    if ch' != [] {
      OffsetInCluster(file.pos, cb, |ch'| - 1);
    }
  }

  // ---------------------------------------------------------------- what each operation does to the map of files

  lemma OwnedAnyDir(v: Volume, v': Volume, cb: nat, files: map<nat, Rec>, foreign: set<nat>)
    requires Owned(v, cb, files, foreign) && v'.tbl == v.tbl && v'.data == v.data
    ensures Owned(v', cb, files, foreign)
  {
    forall i | i in files
      ensures RecOk(v', cb, files[i])
    {
      assert RecOk(v, cb, files[i]);
    }
  }

  lemma TracksAppend(v: Volume, v': Volume, cb: nat, files: map<nat, Rec>, foreign: set<nat>, open: set<nat>, i: nat,
                     r: Rec, n: nat)
    requires Tracks(v, cb, files, foreign, open) && i in files && i in open && v'.dir == v.dir
    requires Grown(v.tbl, v'.tbl, files[i].ch, r.ch, n) && SameOutsideData(v.data, v'.data, r.ch) && RecOk(v', cb, r)
    ensures Tracks(v', cb, files[i := r], foreign, open)
  {
    hide Owned, Grown, SameOutsideData, RecOk;
    AppendKeeps(v, v', cb, files, foreign, i, r, n);
  }

  /** Freeing by the stored start cluster frees exactly the file's chain. */
  lemma FreeOwned(v: Volume, v': Volume, cb: nat, files: map<nat, Rec>, foreign: set<nat>, i: nat, size: nat, sblk: nat)
    requires Owned(v, cb, files, foreign) && i in files && Anchored(files[i], size, sblk)
    requires v' == v.(tbl := FreeChain(v.tbl, sblk % 0x1_0000))
    ensures Owned(v', cb, files - {i}, foreign) && Owned(v', cb, files[i := Rec([], [])], foreign)
  {
    hide Owned, Complete, Disjoint, Links, Holds;
    var ch := files[i].ch;
    assert Owned(v, cb, files, foreign);
    OwnedLinks(v, cb, files, foreign, i);
    assert sblk % 0x1_0000 == sblk;
    if ch != [] {
      FreeChainOfChain(v.tbl, ch, INVALID);
    } else {
      assert v'.tbl == v.tbl;
    }
    ClearKeeps(v, v', cb, files, foreign, i);
  }

  lemma OwnedLinks(v: Volume, cb: nat, files: map<nat, Rec>, foreign: set<nat>, i: nat)
    requires Owned(v, cb, files, foreign) && i in files
    ensures Links(v.tbl, files[i].ch, INVALID) && RecOk(v, cb, files[i]) && cb > 0
  {
    assert RecOk(v, cb, files[i]);
  }

  lemma TracksTruncate(v: Volume, v': Volume, cb: nat, files: map<nat, Rec>, foreign: set<nat>, open: set<nat>, i: nat)
    requires |v.tbl| >= 2 && Tracks(v, cb, files, foreign, open) && i in files && i !in open
    requires v' == v.(tbl := FreeChain(v.tbl, EntryCluster(v.dir[i]) % 0x1_0000))
    ensures Tracks(v', cb, files[i := Rec([], [])], foreign, open + {i})
    ensures FreeCount(v'.tbl) == FreeCount(v.tbl) + |files[i].ch|
  {
    hide Owned, FreeCount;
    FreeOwned(v, v', cb, files, foreign, i, EntrySize(v.dir[i]), EntryCluster(v.dir[i]));
    ReturnsClusters(v, v', cb, files, foreign, i);
  }

  lemma TracksUnlink(v: Volume, v': Volume, cb: nat, files: map<nat, Rec>, foreign: set<nat>, open: set<nat>, i: nat)
    requires |v.tbl| >= 2 && Tracks(v, cb, files, foreign, open) && i in files && i !in open
    requires v' == v.(tbl := FreeChain(v.tbl, EntryCluster(v.dir[i]) % 0x1_0000), dir := v.dir[i := Zeros(ENTRY)])
    ensures Tracks(v', cb, files - {i}, foreign, open)
    ensures FreeCount(v'.tbl) == FreeCount(v.tbl) + |files[i].ch|
  {
    hide Owned, FreeCount;
    var w := v.(tbl := v'.tbl);
    FreeOwned(v, w, cb, files, foreign, i, EntrySize(v.dir[i]), EntryCluster(v.dir[i]));
    ReturnsClusters(v, w, cb, files, foreign, i);
    OwnedAnyDir(w, v', cb, files - {i}, foreign);
  }

  lemma TracksOpen(v: Volume, cb: nat, files: map<nat, Rec>, foreign: set<nat>, open: set<nat>, i: nat)
    requires Tracks(v, cb, files, foreign, open)
    ensures Tracks(v, cb, files, foreign, open + {i})
  {
    hide Owned;
  }

  lemma TracksCreate(v: Volume, v': Volume, cb: nat, files: map<nat, Rec>, foreign: set<nat>, open: set<nat>, i: nat,
                     e: seq<byte>)
    requires Tracks(v, cb, files, foreign, open) && cb > 0 && i < |v.dir| && !InUse(v.dir[i])
    requires |e| == ENTRY && InUse(e) && v' == v.(dir := v.dir[i := e])
    ensures Tracks(v', cb, files[i := Rec([], [])], foreign, open + {i})
  {
    hide Owned;
    OwnedAnyDir(v, v', cb, files, foreign);
    AddEmpty(v', cb, files, foreign, i);
  }

  lemma TracksClose(v: Volume, v': Volume, cb: nat, files: map<nat, Rec>, foreign: set<nat>, open: set<nat>, i: nat,
                    size: nat, sblk: nat)
    requires Tracks(v, cb, files, foreign, open) && i in files && i in open
    requires Anchored(files[i], size, sblk) && size < 0x1_0000_0000
    requires v' == v.(dir := v.dir[i := SetFile(v.dir[i], size, sblk)])
    ensures Tracks(v', cb, files, foreign, open - {i})
  {
    hide Owned, SetFile;
    OwnedAnyDir(v, v', cb, files, foreign);
    SetFileRoundTrip(v.dir[i], size, sblk);
  }

  /** A tracked file is far smaller than 2^32 bytes. */
  lemma SizeBound(v: Volume, cb: nat, r: Rec)
    requires RecOk(v, cb, r) && cb <= 4096 && |v.tbl| <= 0x1_0000
    ensures |r.text| < 0x1_0000_0000
  {
    hide Holds;
    DistinctBound(r.ch, |v.tbl|);
    assert |r.text| <= |r.ch| * cb;
    ProductBound(|r.ch|, cb);
  }

  lemma ProductBound(k: nat, cb: nat)
    requires k <= 0x1_0000 && cb <= 4096
    ensures k * cb <= 0x1000_0000
  {
    assert k * 4096 - k * cb == k * (4096 - cb) >= 0;
  }

  lemma DistinctBound(ch: seq<nat>, n: nat)
    requires Distinct(ch) && forall i :: 0 <= i < |ch| ==> ch[i] < n
    ensures |ch| <= n
  {
    BelowIs(n);
    DistinctInSet(ch, Below(n));
  }

  // ---------------------------------------------------------------- states that no map of files explains

  /** The open files and the volume agree with the map of files. */
  ghost predicate Consistent(fat: Fat, handles: map<nat, File>, files: map<nat, Rec>, foreign: set<nat>)
    reads fat, fat.buffer, handles.Values
    ensures Consistent(fat, handles, files, foreign) ==>
              fat.Valid() && fat.g.clusterBytes > 0 && EntriesOk(fat.Vol().dir)
  {
    && fat.Valid()
    && (forall i :: i in handles ==> i in files && HandleOk(handles[i], i, fat.g.clusterBytes, files[i]))
    && (forall i, j :: i in handles && j in handles && i != j ==> handles[i] != handles[j])
    && Tracks(fat.Vol(), fat.g.clusterBytes, files, foreign, handles.Keys)
  }

  /** A chain is determined by its first cluster. */
  lemma OneChain(t: seq<nat>, a: seq<nat>, b: seq<nat>)
    requires Links(t, a, INVALID) && Links(t, b, INVALID) && a != [] && b != [] && a[0] == b[0]
    ensures a == b
  {
    SamePrefix(t, a, b, |a| - 1);
    SamePrefix(t, b, a, |b| - 1);
  }

  lemma {:induction false} SamePrefix(t: seq<nat>, a: seq<nat>, b: seq<nat>, k: nat)
    requires Links(t, a, INVALID) && Links(t, b, INVALID) && a != [] && b != [] && a[0] == b[0] && k < |a|
    ensures k < |b| && forall x :: 0 <= x <= k ==> a[x] == b[x]
  {
    if k > 0 {
      SamePrefix(t, a, b, k - 1);
      assert t[a[k - 1]] == a[k] && InTable(t, a[k]);
    }
  }

  /** Start cluster and table determine the chain of a file. */
  lemma OneRec(v: Volume, v': Volume, cb: nat, r: Rec, r': Rec, size: nat, size': nat, sblk: nat)
    requires RecOk(v, cb, r) && RecOk(v', cb, r') && Links(v'.tbl, r.ch, INVALID)
    requires Anchored(r, size, sblk) && Anchored(r', size', sblk)
    ensures r'.ch == r.ch
  {
    hide Holds;
    if r.ch != [] {
      assert ClusterIsValid(r.ch[0]);
    }
    if r'.ch != [] {
      assert ClusterIsValid(r'.ch[0]);
    }
    if r.ch != [] && r'.ch != [] {
      OneChain(v'.tbl, r.ch, r'.ch);
    }
  }

  /** A size beyond the chain fits no file. */
  lemma StrayUnexplained(fat: Fat, handles: map<nat, File>, r: Rec, foreign: set<nat>, i: nat, size: nat,
                         f: map<nat, Rec>)
    requires fat.Valid() && RecOk(fat.Vol(), fat.g.clusterBytes, r) && i in handles
    requires Anchored(r, size, handles[i].sblk) && handles[i].size > |r.ch| * fat.g.clusterBytes
    ensures !Consistent(fat, handles, f, foreign)
  {
    hide DiskOk, Mirrored, Fat.Valid, Fat.Vol, Links, Registered, Complete, Disjoint;
    if Consistent(fat, handles, f, foreign) {
      OneRec(fat.Vol(), fat.Vol(), fat.g.clusterBytes, r, f[i], size, handles[i].size, handles[i].sblk);
    }
  }

  /** An open file that cannot be read at its position belongs to no other file either. */
  lemma SeekUnexplained(fat: Fat, handles: map<nat, File>, r: Rec, foreign: set<nat>, i: nat, f: map<nat, Rec>)
    requires fat.Valid() && RecOk(fat.Vol(), fat.g.clusterBytes, r) && i in handles
    requires Anchored(r, handles[i].size, handles[i].sblk) && !Readable(fat, handles[i], r.ch, r.text)
    ensures !Consistent(fat, handles, f, foreign)
  {
    hide DiskOk, Mirrored, Fat.Valid, Fat.Vol, Links, Registered, Complete, Disjoint, Readable, Contents, InData;
    if Consistent(fat, handles, f, foreign) {
      var file := handles[i];
      OneRec(fat.Vol(), fat.Vol(), fat.g.clusterBytes, r, f[i], file.size, file.size, file.sblk);
      HandleReadable(fat, file, i, f[i]);
    }
  }

  /** Clusters taken from the free ones without hooking them onto a chain belong to no file. */
  lemma OrphanUnexplained(fat: Fat, handles: map<nat, File>, files: map<nat, Rec>, foreign: set<nat>, v: Volume,
                          n: nat, f: map<nat, Rec>)
    requires fat.Valid() && Tracks(v, fat.g.clusterBytes, files, foreign, handles.Keys)
    requires forall i :: i in handles ==> i in files && HandleOk(handles[i], i, fat.g.clusterBytes, files[i])
    requires fat.Vol() == v.(tbl := fat.Vol().tbl) && Orphaned(v.tbl, fat.Vol().tbl, n)
    ensures !Consistent(fat, handles, f, foreign)
  {
    hide DiskOk, Mirrored, Fat.Valid, Fat.Vol, Positioned, FreeBelow;
    if Consistent(fat, handles, f, foreign) {
      var t', c := fat.Vol().tbl, FreeList(v.tbl)[0];
      FreePrefix(v.tbl, n);
      assert FreeList(v.tbl)[..n][0] == c && c in FreeList(v.tbl)[..n];
      ChainIsUsed(t', FreeList(v.tbl)[..n]);
      assert InSome(f, c);
      var j :| j in f && c in f[j].ch;
      SameFileChain(fat, handles, files, foreign, v, n, f, j);
    }
  }

  lemma SameFileChain(fat: Fat, handles: map<nat, File>, files: map<nat, Rec>, foreign: set<nat>, v: Volume,
                      n: nat, f: map<nat, Rec>, j: nat)
    requires fat.Valid() && Tracks(v, fat.g.clusterBytes, files, foreign, handles.Keys)
    requires forall i :: i in handles ==> i in files && HandleOk(handles[i], i, fat.g.clusterBytes, files[i])
    requires fat.Vol() == v.(tbl := fat.Vol().tbl) && Orphaned(v.tbl, fat.Vol().tbl, n)
    requires Consistent(fat, handles, f, foreign) && j in f
    ensures forall c :: c in f[j].ch ==> c < |v.tbl| && v.tbl[c] != FREE
  {
    hide DiskOk, Mirrored, Fat.Valid, Fat.Vol, Positioned, FreeBelow, Complete, Disjoint, Holds;
    FreePrefix(v.tbl, n);
    assert RecOk(v, fat.g.clusterBytes, files[j]);
    ChainIsUsed(v.tbl, files[j].ch);
    LinksSame(v.tbl, fat.Vol().tbl, files[j].ch, FreeList(v.tbl)[..n]);
    assert RecOk(fat.Vol(), fat.g.clusterBytes, f[j]);
    if j in handles {
      OneRec(v, fat.Vol(), fat.g.clusterBytes, files[j], f[j], handles[j].size, handles[j].size, handles[j].sblk);
    } else {
      OneRec(v, fat.Vol(), fat.g.clusterBytes, files[j], f[j], EntrySize(v.dir[j]), EntrySize(v.dir[j]),
             EntryCluster(v.dir[j]));
    }
  }
}
