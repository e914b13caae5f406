/** A mounted volume with its open files. Every operation keeps the ownership invariant and acts on
    the files as on a map from directory entries to byte strings. */
module FatMount {
  import opened Bits
  import opened Counting
  import opened Bytes
  import opened FatTable
  import opened FatDisk
  import opened FatContent
  import opened FatDriver
  import opened FatFile
  import opened FatIO
  import opened FatNames
  import opened FatOwner
  import opened FatDir
  import opened FatTracks

  // ---------------------------------------------------------------- the mounted volume

  /** There are free clusters for the longer file, the one for its next byte included. */
  ghost predicate Enough(t: seq<nat>, cb: nat, r: Rec, buf: seq<byte>) {
    cb > 0 && CanGrow(r, cb) && |r.ch| + FreeCount(t) >= ClustersFor(|r.text + buf|, cb)
  }

  /** All bytes are appended, or none when the clusters asked for are not there; with enough free
      clusters the file can go on growing and clusters are conserved. */
  ghost predicate AppendOutcome(v: Volume, v': Volume, cb: nat, r: Rec, r': Rec, buf: seq<byte>, n: nat, atEnd: bool) {
    && (if Stores(v.tbl, cb, r.ch, r.text, buf) then n == |buf| && r'.text == r.text + buf else n == 0 && r' == r)
    && (Enough(v.tbl, cb, r, buf) ==> n == |buf| && r'.text == r.text + buf && CanGrow(r', cb) && atEnd)
    && Took(v, v', r, r') && v'.dir == v.dir
  }

  /** Only file i changed, and it changed as appending promises. */
  ghost predicate AppendsTo(i: nat, files: map<nat, Rec>, files': map<nat, Rec>, v: Volume, v': Volume, cb: nat,
                            buf: seq<byte>, n: nat, atEnd: bool)
  {
    && i in files && i in files' && files' == files[i := files'[i]]
    && AppendOutcome(v, v', cb, files[i], files'[i], buf, n, atEnd)
  }

  /** The write to file i does no harm. */
  ghost predicate SafeToAppend(v: Volume, cb: nat, files: map<nat, Rec>, i: nat, buf: seq<byte>) {
    i in files && Harmless(v.tbl, cb, files[i].ch, files[i].text, buf)
  }

  /** What a harmful write leaves: a size beyond the chain for bytes that no cluster holds, or clusters
      allocated for nobody. */
  ghost predicate Spoils(v: Volume, v': Volume, cb: nat, files: map<nat, Rec>, handles: map<nat, File>, i: nat,
                         buf: seq<byte>, n: nat)
    reads handles.Values
  {
    && i in files && i in handles
    && var r := files[i];
       if |buf| < cb then n == |buf| && v' == v && handles[i].size == |r.text| + n > |r.ch| * cb
       else
         && n == 0 && v' == v.(tbl := v'.tbl) && handles[i].size == |r.text|
         && cb > 0 && Orphaned(v.tbl, v'.tbl, Needed(|r.text|, |buf|, cb))
  }

  /** The free clusters that a file of the size would take have their bytes on the disk. */
  ghost predicate HasBytesFor(v: Volume, cb: nat, r: Rec, size: nat) {
    Backed(v.tbl, v.data, cb, Wanted(size, |r.ch|, cb))
  }

  /** The clusters that the file gained were the first free ones. */
  ghost predicate Took(v: Volume, v': Volume, r: Rec, r': Rec) {
    && |r.ch| <= |r'.ch| <= |r.ch| + FreeCount(v.tbl)
    && FreeList(v'.tbl) == FreeList(v.tbl)[|r'.ch| - |r.ch|..]
    && SameLengths(v.data, v'.data)
  }

  lemma SpaceIs(v: Volume, cb: nat, r: Rec, size: nat)
    ensures HasBytesFor(v, cb, r, size) <==> Backed(v.tbl, v.data, cb, Wanted(size, |r.ch|, cb))
  {
  }

  lemma OutcomeIs(v: Volume, v': Volume, cb: nat, i: nat, files: map<nat, Rec>, files': map<nat, Rec>,
                  buf: seq<byte>, n: nat, atEnd: bool)
    requires i in files && i in files' && files' == files[i := files'[i]]
    requires var r, r' := files[i], files'[i];
             && (if Stores(v.tbl, cb, r.ch, r.text, buf) then n == |buf| && r'.text == r.text + buf
                 else n == 0 && r' == r)
             && (Enough(v.tbl, cb, r, buf) ==> Stores(v.tbl, cb, r.ch, r.text, buf) && CanGrow(r', cb) && atEnd)
             && Took(v, v', r, r') && v'.dir == v.dir
    ensures AppendsTo(i, files, files', v, v', cb, buf, n, atEnd)
  {
  }

  lemma TookNone(v: Volume, r: Rec)
    ensures Took(v, v, r, r)
  {
  }

  /** Counted from the cluster of the position, the chain has a cluster for the offset, or the offset lies
      in the first one. */
  ghost predicate FoundFrom(r: Rec, cb: nat, pos: nat, offset: nat) {
    cb > 0 && (ClusterOf(offset, cb) == 0 || ClusterOf(pos, cb) + ClusterOf(offset, cb) < |r.ch|)
  }

  lemma FoundIs(r: Rec, cb: nat, pos: nat, offset: nat)
    ensures FoundFrom(r, cb, pos, offset) <==>
            cb > 0 && (ClusterOf(offset, cb) == 0 || ClusterOf(pos, cb) + ClusterOf(offset, cb) < |r.ch|)
  {
  }

  lemma AppendCases(v: Volume, cb: nat, files: map<nat, Rec>, i: nat, r: Rec, buf: seq<byte>)
    requires cb > 0 && i in files && files[i] == r
    ensures SafeToAppend(v, cb, files, i, buf) <==> Harmless(v.tbl, cb, r.ch, r.text, buf)
    ensures Stores(v.tbl, cb, r.ch, r.text, buf) ==> Harmless(v.tbl, cb, r.ch, r.text, buf)
    ensures !Harmless(v.tbl, cb, r.ch, r.text, buf) ==> !CanGrow(r, cb) && buf != []
    ensures Enough(v.tbl, cb, r, buf) ==> CanGrow(r, cb)
    ensures CanGrow(r, cb) <==> Roomy(|r.ch|, |r.text|, cb)
  {
  }

  /** A chain that is not roomy is full. */
  lemma FullSize(v: Volume, cb: nat, r: Rec)
    requires RecOk(v, cb, r) && !CanGrow(r, cb)
    ensures |r.text| == |r.ch| * cb
  {
    hide Links;
  }

  class Mount {
    const fat: Fat
    var handles: map<nat, File>
    ghost var files: map<nat, Rec>
    ghost const foreign: set<nat>

    ghost predicate Valid()
      reads this, fat, fat.buffer, handles.Values
      ensures Valid() ==> fat.Valid() && fat.g.clusterBytes > 0 && EntriesOk(fat.Vol().dir)
    {
      Consistent(fat, handles, files, foreign)
    }

    /** A volume whose files are known, with no file open. */
    constructor (driver: Fat, ghost known: map<nat, Rec>, ghost others: set<nat>)
      requires driver.Valid() && Tracks(driver.Vol(), driver.g.clusterBytes, known, others, {})
      ensures Valid() && fat == driver && files == known && handles == map[] && foreign == others
    {
      hide *;
      fat := driver;
      handles := map[];
      files := known;
      foreign := others;
      new;
      NothingOpen();
    }

    lemma NothingOpen()
      requires fat.Valid() && handles == map[] && Tracks(fat.Vol(), fat.g.clusterBytes, files, foreign, {})
      ensures Valid()
    {
      hide Tracks, DiskOk, Mirrored;
      ClusterSizeOk(fat);
      TracksEntries(fat.Vol(), fat.g.clusterBytes, files, foreign, {});
      assert handles.Keys == {};
    }

    lemma FileRec(i: nat)
      requires Valid() && i in files
      ensures RecOk(fat.Vol(), fat.g.clusterBytes, files[i])
    {
    }

    lemma HandleParts()
      requires Valid()
      ensures fat.Valid() && fat.g.clusterBytes > 0
      ensures Tracks(fat.Vol(), fat.g.clusterBytes, files, foreign, handles.Keys)
      ensures forall i :: i in handles ==> i in files && HandleOk(handles[i], i, fat.g.clusterBytes, files[i])
      ensures forall i, j :: i in handles && j in handles && i != j ==> handles[i] != handles[j]
    {
    }

    lemma StillValid()
      requires fat.Valid() && Tracks(fat.Vol(), fat.g.clusterBytes, files, foreign, handles.Keys)
      requires forall i :: i in handles ==> i in files && HandleOk(handles[i], i, fat.g.clusterBytes, files[i])
      requires forall i, j :: i in handles && j in handles && i != j ==> handles[i] != handles[j]
      ensures Valid()
    {
    }

    /** The open file i stands at its end. */
    ghost predicate StandsAtEnd(i: nat)
      reads this, handles.Values
    {
      i in handles && i in files && handles[i].pos == handles[i].size
    }

    lemma StandsAtEndIs(i: nat)
      ensures StandsAtEnd(i) <==> i in handles && i in files && handles[i].pos == handles[i].size
    {
    }

    /** Appending to an open file that stands at its end. The volume stays in order exactly when the
        write is harmless; then the bytes are added to that file and to no other, or nothing changes
        when the clusters asked for are not there. Otherwise no map of files whatsoever explains the
        state. */
    method Append(i: nat, buf: seq<byte>) returns (n: nat)
      requires Valid() && StandsAtEnd(i) && |files[i].text| + |buf| < 0x8000_0000
      requires buf != [] && CanGrow(files[i], fat.g.clusterBytes) ==>
                 HasBytesFor(fat.Vol(), fat.g.clusterBytes, files[i], |files[i].text| + |buf|)
      modifies this`files, fat, fat.buffer, handles[i]
      ensures fat.Valid()
      ensures Valid() <==> SafeToAppend(old(fat.Vol()), fat.g.clusterBytes, old(files), i, buf)
      ensures Valid() ==>
                AppendsTo(i, old(files), files, old(fat.Vol()), fat.Vol(), fat.g.clusterBytes, buf, n, StandsAtEnd(i))
      ensures !Valid() ==>
                && files == old(files)
                && Spoils(old(fat.Vol()), fat.Vol(), fat.g.clusterBytes, files, handles, i, buf, n)
                && forall f :: !Consistent(fat, handles, f, foreign)
    {
      hide *;
      HandleParts();
      StandsAtEndIs(i);
      ghost var r, v, file, cb := files[i], fat.Vol(), handles[i], fat.g.clusterBytes;
      FileRec(i);
      HandleAtEnd(fat, file, i, r);
      HandleBounds(file, i, cb, r);
      SpaceIs(v, cb, r, |r.text| + |buf|);
      AppendCases(v, cb, files, i, r, buf);
      if CanGrow(r, cb) {
        EnoughStores(fat, file, r.ch, r.text, buf);
      }
      ghost var ch';
      n, ch' := FatfsWrite(fat, handles[i], buf, r.ch, r.text);
      if Stores(v.tbl, cb, r.ch, r.text, buf) {
        AppendedFacts(fat, file, v, r, ch', buf);
        AppendedHandle(fat, file, i, v.tbl, r.ch, ch', r.text, buf);
        TracksAppend(v, fat.Vol(), cb, files, foreign, handles.Keys, i, Rec(ch', r.text + buf), |ch'| - |r.ch|);
        files := files[i := Rec(ch', r.text + buf)];
      } else {
        TookNone(v, r);
        assert files[i := files[i]] == files;
      }
      if Harmless(v.tbl, cb, r.ch, r.text, buf) {
        StandsAtEndIs(i);
        OutcomeIs(v, fat.Vol(), cb, i, old(files), files, buf, n, StandsAtEnd(i));
        StillValid();
      } else {
        if |buf| < cb {
          StrayedIs(v, fat.Vol(), |r.text|, file, |buf|);
        }
        Spoilt(v, i, r, buf, n);
      }
    }

    /** A harmful write leaves a state that no map of files explains. */
    lemma Spoilt(v: Volume, i: nat, r: Rec, buf: seq<byte>, n: nat)
      requires fat.Valid() && i in files && i in handles && files[i] == r && RecOk(v, fat.g.clusterBytes, r)
      requires fat.g.clusterBytes > 0 && !CanGrow(r, fat.g.clusterBytes) && buf != []
      requires if |buf| < fat.g.clusterBytes then
                 && n == |buf| && fat.Vol() == v && handles[i].size == |r.text| + |buf|
                 && Anchored(r, |r.text|, handles[i].sblk)
               else
                 && n == 0 && handles[i].size == |r.text| && fat.Vol() == v.(tbl := fat.Vol().tbl)
                 && Orphaned(v.tbl, fat.Vol().tbl, Needed(|r.text|, |buf|, fat.g.clusterBytes))
                 && Tracks(v, fat.g.clusterBytes, files, foreign, handles.Keys)
                 && forall k :: k in handles ==> k in files && HandleOk(handles[k], k, fat.g.clusterBytes, files[k])
      ensures Spoils(v, fat.Vol(), fat.g.clusterBytes, files, handles, i, buf, n)
      ensures !Valid() && forall f :: !Consistent(fat, handles, f, foreign)
    {
      hide Tracks, HandleOk, Orphaned, Fat.Valid, Fat.Vol, Consistent, DiskOk, Mirrored, Links, Holds;
      FullSize(v, fat.g.clusterBytes, r);
      forall f
        ensures !Consistent(fat, handles, f, foreign)
      {
        if |buf| < fat.g.clusterBytes {
          StrayUnexplained(fat, handles, r, foreign, i, |r.text|, f);
        } else {
          OrphanUnexplained(fat, handles, files, foreign, v, Needed(|r.text|, |buf|, fat.g.clusterBytes), f);
        }
      }
    }

    /** Reading returns the next bytes of that file and changes no file. */
    method Read(i: nat, size: nat) returns (buf: seq<byte>)
      requires Valid() && i in handles
      modifies fat, fat.buffer, handles[i]
      ensures Valid() && handles[i].size == old(handles[i].size) && fat.Vol() == old(fat.Vol())
      ensures var text, p := files[i].text, old(handles[i].pos);
              && p <= |text| && handles[i].pos == p + (if p + size > |text| then |text| - p else size)
              && buf == text[p..handles[i].pos]
    {
      hide DiskOk, Mirrored, Fat.Valid, Fat.Vol, Tracks, HandleOk, RecOk, Readable;
      ghost var r, file := files[i], handles[i];
      FileRec(i);
      HandleReadable(fat, file, i, r);
      HandleBounds(file, i, fat.g.clusterBytes, r);
      buf := FatfsRead(fat, handles[i], size, r.ch, r.text);
      ReadableHandle(fat, file, i, r);
      HandleBounds(file, i, fat.g.clusterBytes, r);
    }

    /** Seeking counts the clusters of the offset from the current one: it fails exactly when the chain
        has no such cluster, and otherwise leaves the volume in order exactly when it started in the
        first cluster and the offset lies in the file. */
    method SeekTo(i: nat, offset: nat) returns (err: int)
      requires Valid() && i in handles
      modifies fat, fat.buffer, handles[i]
      ensures fat.Valid() && fat.g.clusterBytes > 0
      ensures fat.Vol() == old(fat.Vol()) && handles[i].size == old(handles[i].size)
      ensures i in files && (err == 0 <==> FoundFrom(files[i], fat.g.clusterBytes, old(handles[i].pos), offset))
      ensures Valid() <==>
              err == 0 ==> ClusterOf(old(handles[i].pos), fat.g.clusterBytes) == 0 && offset <= |files[i].text|
      ensures handles[i].pos == if err == 0 then offset else old(handles[i].pos)
      ensures !Valid() ==> forall f :: !Consistent(fat, handles, f, foreign)
    {
      hide *;
      HandleParts();
      ghost var r, file, cb := files[i], handles[i], fat.g.clusterBytes;
      FileRec(i);
      HandleReadable(fat, file, i, r);
      HandleBounds(file, i, cb, r);
      FoundIs(r, cb, file.pos, offset);
      err := SeekThenReadable(fat, handles[i], offset, r.ch, r.text);
      SeekSettled(i, r);
    }

    lemma SeekSettled(i: nat, r: Rec)
      requires fat.Valid() && fat.g.clusterBytes > 0 && i in handles && i in files && files[i] == r
      requires Tracks(fat.Vol(), fat.g.clusterBytes, files, foreign, handles.Keys)
      requires forall k :: k in handles && k != i ==>
                 k in files && HandleOk(handles[k], k, fat.g.clusterBytes, files[k])
      requires forall j, k :: j in handles && k in handles && j != k ==> handles[j] != handles[k]
      requires RecOk(fat.Vol(), fat.g.clusterBytes, r) && Anchored(r, handles[i].size, handles[i].sblk)
      requires handles[i].pIndex == i
      ensures Valid() <==> Readable(fat, handles[i], r.ch, r.text)
      ensures !Valid() ==> forall f :: !Consistent(fat, handles, f, foreign)
    {
      hide Tracks, RecOk, Fat.Valid, Fat.Vol, DiskOk, Mirrored, Links, Holds, Readable, HandleOk;
      if Readable(fat, handles[i], r.ch, r.text) {
        ReadableHandle(fat, handles[i], i, r);
      } else {
        forall f
          ensures !Consistent(fat, handles, f, foreign)
        {
          SeekUnexplained(fat, handles, r, foreign, i, f);
        }
      }
    }

    /** Opening by name: the directory entry found gets a file_t at position 0, truncated on
        request; a missing file is created empty on request. */
    method Open(path: seq<byte>, trunc: bool, creat: bool, unset: byte) returns (err: int, i: nat)
      requires Valid()
      requires ScanDir(fat.Vol(), Sfn(path)).0 !in handles && (creat ==> InUse(NewEntry(Sfn(path), unset)))
      modifies this, fat, fat.buffer
      ensures Valid()
      ensures var (r, found) := ScanDir(old(fat.Vol()), Sfn(path));
              if found then
                && err == 0 && i == r && i in old(files)
                && if trunc then
                     && files == old(files)[i := Rec([], [])]
                     && FreeCount(fat.Vol().tbl) == FreeCount(old(fat.Vol()).tbl) + |old(files)[i].ch|
                   else files == old(files) && fat.Vol() == old(fat.Vol())
              else if creat && 0 <= r < |old(fat.Vol()).dir| then
                && err == 0 && i == r && i !in old(files) && files == old(files)[i := Rec([], [])]
                && fat.Vol().tbl == old(fat.Vol()).tbl && fat.Vol().data == old(fat.Vol()).data
              else
                err == -1 && files == old(files) && fat.Vol() == old(fat.Vol())
      ensures if err == 0 then
                && i in handles && fresh(handles[i]) && handles == old(handles)[i := handles[i]]
                && handles[i].pos == 0 && handles[i].cblk == handles[i].sblk
                && ScanDir(fat.Vol(), Sfn(path)) == (i, true)
              else handles == old(handles)
    {
      hide DiskOk, Mirrored, Fat.Valid, Fat.Vol, FreeChain, ScanDir, NewEntry, EntrySize, EntryCluster, Tracks,
        HandleOk, InUse;
      var file := new File();
      ghost var v := fat.Vol();
      fat.TableSize();
      ScanFacts(v, fat.g.clusterBytes, files, foreign, handles.Keys, Sfn(path));
      i := 0;
      err := FatfsOpen(fat, file, path, trunc, creat, unset);
      if err == 0 {
        i := file.pIndex;
        ghost var open := handles.Keys;
        files := OpenedFiles(v, fat.Vol(), fat.g.clusterBytes, files, foreign, open, file, path, trunc, unset, i);
        handles := handles[i := file];
        assert handles.Keys == open + {i};
      }
    }

    /** Closing writes the entry; the file keeps its bytes. */
    method Close(i: nat)
      requires Valid() && i in handles
      modifies this`handles, fat, fat.buffer
      ensures Valid() && handles == old(handles) - {i}
      ensures fat.Vol().tbl == old(fat.Vol()).tbl && fat.Vol().data == old(fat.Vol()).data
      ensures forall name :: ScanDir(fat.Vol(), name) == ScanDir(old(fat.Vol()), name)
    {
      hide DiskOk, Mirrored, Fat.Valid, Fat.Vol, RecOk, Tracks, HandleOk, SetFile;
      ghost var r, file, v := files[i], handles[i], fat.Vol();
      FileRec(i);
      CloseFacts(fat, file, i, r);
      FatfsClose(fat, handles[i]);
      EntryInDir(v, fat.g.clusterBytes, files, foreign, handles.Keys, i);
      ScanAfterClose(v, fat.Vol(), i, file.size, file.sblk);
      TracksClose(v, fat.Vol(), fat.g.clusterBytes, files, foreign, handles.Keys, i, file.size, file.sblk);
      handles := handles - {i};
      assert handles.Keys == old(handles).Keys - {i};
    }

    /** Unlinking a file that is not open removes it and gives its clusters back. */
    method Unlink(path: seq<byte>) returns (err: int)
      requires Valid() && ScanDir(fat.Vol(), Sfn(path)).0 !in handles
      modifies this`files, fat, fat.buffer
      ensures Valid()
      ensures var (r, found) := ScanDir(old(fat.Vol()), Sfn(path));
              if found then
                && err == 0 && r in old(files) && files == old(files) - {r}
                && FreeCount(fat.Vol().tbl) == FreeCount(old(fat.Vol()).tbl) + |old(files)[r].ch|
              else err == -1 && files == old(files) && fat.Vol() == old(fat.Vol())
    {
      hide DiskOk, Mirrored, Fat.Valid, Fat.Vol, RecOk, FreeChain, FreeCount, Scan, ScanDir, EntryCluster, Tracks,
        HandleOk;
      ghost var v := fat.Vol();
      ghost var (r, found) := ScanDir(v, Sfn(path));
      fat.TableSize();
      ScanFacts(v, fat.g.clusterBytes, files, foreign, handles.Keys, Sfn(path));
      err := FatfsUnlink(fat, path);
      if found {
        TracksUnlink(v, fat.Vol(), fat.g.clusterBytes, files, foreign, handles.Keys, r);
        files := files - {r as nat};
      }
    }

    /** File i stands at its end, the name finds it, and there is space for it to grow to the total. */
    ghost predicate Storing(i: nat, path: seq<byte>, total: nat)
      reads this, fat, fat.buffer, handles.Values
      ensures Storing(i, path, total) ==> Valid() && fat.Valid() && i in handles && i in files
    {
      && Valid() && StandsAtEnd(i) && CanGrow(files[i], fat.g.clusterBytes)
      && ScanDir(fat.Vol(), Sfn(path)) == (i, true) && |files[i].text| <= total < 0x8000_0000
      && FreeCount(fat.Vol().tbl) + |files[i].ch| >= ClustersFor(total, fat.g.clusterBytes)
      && HasBytesFor(fat.Vol(), fat.g.clusterBytes, files[i], total)
    }

    lemma StoringParts(i: nat, path: seq<byte>, total: nat)
      requires Storing(i, path, total)
      ensures Valid() && i in handles && i in files && handles[i].pos == handles[i].size
      ensures fat.Valid() && fat.g.clusterBytes > 0 && EntriesOk(fat.Vol().dir)
      ensures ScanDir(fat.Vol(), Sfn(path)) == (i, true)
      ensures |files[i].text| <= total < 0x8000_0000 && CanGrow(files[i], fat.g.clusterBytes)
      ensures FreeCount(fat.Vol().tbl) + |files[i].ch| >= ClustersFor(total, fat.g.clusterBytes)
      ensures HasBytesFor(fat.Vol(), fat.g.clusterBytes, files[i], total)
      ensures RecOk(fat.Vol(), fat.g.clusterBytes, files[i]) && handles[i].size == |files[i].text|
    {
    }

    lemma StoringWhen(i: nat, path: seq<byte>, total: nat)
      requires Valid() && i in handles && i in files && handles[i].pos == handles[i].size
      requires ScanDir(fat.Vol(), Sfn(path)) == (i, true)
      requires |files[i].text| <= total < 0x8000_0000 && CanGrow(files[i], fat.g.clusterBytes)
      requires FreeCount(fat.Vol().tbl) + |files[i].ch| >= ClustersFor(total, fat.g.clusterBytes)
      requires HasBytesFor(fat.Vol(), fat.g.clusterBytes, files[i], total)
      ensures Storing(i, path, total)
    {
    }

    lemma RecIs(i: nat)
      requires Valid() && i in files
      ensures RecOk(fat.Vol(), fat.g.clusterBytes, files[i])
      ensures i in handles ==> handles[i].size == |files[i].text|
    {
    }

    /** One write of a series. */
    method PutBytes(i: nat, path: seq<byte>, bytes: seq<byte>, ghost total: nat)
      requires Storing(i, path, total) && |files[i].text + bytes| <= total
      modifies this`files, fat, fat.buffer, handles[i]
      ensures Storing(i, path, total) && files == old(files)[i := files[i]]
      ensures files[i].text == old(files)[i].text + bytes
      ensures Took(old(fat.Vol()), fat.Vol(), old(files)[i], files[i])
    {
      hide *;
      StoringParts(i, path, total);
      ghost var v, r, cb := fat.Vol(), files[i], fat.g.clusterBytes;
      SpaceForPart(v, cb, r, bytes, total);
      StandsAtEndIs(i);
      AppendCases(v, cb, files, i, r, bytes);
      WriteCases(v.tbl, cb, r.ch, r.text, bytes);
      var n := Append(i, bytes);
      OutcomeWhenEnough(v, fat.Vol(), cb, i, old(files), files, bytes, n, StandsAtEnd(i));
      StandsAtEndIs(i);
      ScanAnyTable(v, fat.Vol(), Sfn(path));
      RecIs(i);
      SpaceLeft(v, fat.Vol(), cb, r, files[i], total);
      StoringWhen(i, path, total);
    }

    /** Closing the file, opening it by its name and seeking to its end. */
    method Reopening(i: nat, path: seq<byte>, ghost total: nat)
      requires Storing(i, path, total)
      modifies this, fat, fat.buffer
      ensures Storing(i, path, total) && files == old(files)
      ensures fresh(handles[i]) && handles == old(handles)[i := handles[i]]
      ensures fat.Vol().tbl == old(fat.Vol()).tbl && fat.Vol().data == old(fat.Vol()).data
    {
      hide *;
      StoringParts(i, path, total);
      ghost var v, r, cb := fat.Vol(), files[i], fat.g.clusterBytes;
      Close(i);
      var err, j := Open(path, false, false, 0);
      RecIs(i);
      EndReached(handles[i], cb, r);
      err := SeekTo(i, handles[i].size);
      SpaceSame(v, fat.Vol(), cb, r, total);
      StoringWhen(i, path, total);
    }

    /** One step of a series. */
    method DoStep(i: nat, path: seq<byte>, step: Step, ghost total: nat)
      requires i in files && Storing(i, path, total) && |files[i].text + StepText(step)| <= total
      modifies this, fat, fat.buffer, handles[i]
      ensures i in files && Storing(i, path, total)
      ensures files == old(files)[i := files[i]] && files[i].text == old(files)[i].text + StepText(step)
      ensures handles == old(handles)[i := handles[i]] && (handles[i] == old(handles)[i] || fresh(handles[i]))
      ensures Took(old(fat.Vol()), fat.Vol(), old(files)[i], files[i])
    {
      hide *;
      ghost var v, r := fat.Vol(), files[i];
      StoringParts(i, path, total);
      StepTextIs(step);
      match step {
        case Put(bytes) =>
          PutBytes(i, path, bytes, total);
        case Reopen =>
          Reopening(i, path, total);
          TookSame(v, fat.Vol(), r);
          assert r.text + [] == r.text;
      }
      StoringParts(i, path, total);
    }

    /** A series of writes, with the file closed and opened again in between. */
    method StoreAll(i: nat, path: seq<byte>, steps: seq<Step>)
      requires i in files && Storing(i, path, |files[i].text + Texts(steps)|)
      modifies this, fat, fat.buffer, handles[i]
      ensures i in files && Storing(i, path, |files[i].text|)
      ensures files == old(files)[i := files[i]] && files[i].text == old(files)[i].text + Texts(steps)
      ensures handles == old(handles)[i := handles[i]] && (handles[i] == old(handles)[i] || fresh(handles[i]))
      ensures Took(old(fat.Vol()), fat.Vol(), old(files)[i], files[i])
    {
      hide *;
      ghost var r, total, v := files[i], |files[i].text + Texts(steps)|, fat.Vol();
      TextsNext(steps, 0, r.text);
      TookNone(v, r);
      var k := 0;
      while k < |steps|
        invariant k <= |steps| && i in files && Storing(i, path, total)
        invariant files == old(files)[i := files[i]] && files[i].text == r.text + Texts(steps[..k])
        invariant handles == old(handles)[i := handles[i]] && (handles[i] == old(handles)[i] || fresh(handles[i]))
        invariant Took(v, fat.Vol(), r, files[i])
      {
        TextsNext(steps, k, r.text);
        ghost var v1, r1 := fat.Vol(), files[i];
        DoStep(i, path, steps[k], total);
        TookTwice(v, v1, fat.Vol(), r, r1, files[i]);
        k := k + 1;
      }
      assert steps[..k] == steps;
    }

    /** A series of reads from the start of an open file. */
    method LoadAll(i: nat, sizes: seq<nat>) returns (out: seq<byte>)
      requires Valid() && i in handles && i in files && handles[i].pos == 0
      modifies fat, fat.buffer, handles[i]
      ensures Valid() && fat.Vol() == old(fat.Vol())
      ensures var text := files[i].text;
              out == if Sum(sizes) >= |text| then text else text[..Sum(sizes)]
    {
      hide DiskOk, Mirrored, Fat.Valid, Fat.Vol, Mount.Valid, Consistent, Sum;
      ghost var text := files[i].text;
      SumNone(sizes);
      out := [];
      var k := 0;
      while k < |sizes|
        invariant k <= |sizes| && Valid() && fat.Vol() == old(fat.Vol())
        invariant handles[i].pos == (if Sum(sizes[..k]) >= |text| then |text| else Sum(sizes[..k])) <= |text|
        invariant out == text[..handles[i].pos]
      {
        SumNext(sizes, k);
        var bytes := Read(i, sizes[k]);
        out := out + bytes;
        k := k + 1;
      }
      assert sizes[..k] == sizes;
    }

    /** Append and read back: any series of writes at the end of a file, with closing, opening by name
        and seeking to the end anywhere between them, and with space enough for all of them; then a last
        write, for which it is enough that its own clusters are there, so that it may fill the volume;
        then reopening by name and reading in any sizes. This yields the file's bytes followed by the
        written ones in order. No other file changes, and the clusters gained are the first free ones. */
    method StoreAndLoad(i: nat, path: seq<byte>, steps: seq<Step>, last: seq<byte>, sizes: seq<nat>)
      returns (out: seq<byte>)
      requires i in files && Storing(i, path, |files[i].text + Texts(steps)|)
      requires SpaceForLast(fat.Vol(), fat.g.clusterBytes, files[i], |files[i].text + Texts(steps)|, |last|)
      modifies this, fat, fat.buffer, handles[i]
      ensures Valid() && i in files && files == old(files)[i := files[i]]
      ensures files[i].text == old(files)[i].text + Texts(steps) + last
      ensures Took(old(fat.Vol()), fat.Vol(), old(files)[i], files[i])
      ensures out == if Sum(sizes) >= |files[i].text| then files[i].text else files[i].text[..Sum(sizes)]
    {
      hide *;
      ghost var v, r, cb := fat.Vol(), files[i], fat.g.clusterBytes;
      StoringParts(i, path, |files[i].text + Texts(steps)|);
      StoreAll(i, path, steps);
      StoringParts(i, path, |files[i].text|);
      StoreLast(i, path, last, v, r);
      ghost var v2, r2 := fat.Vol(), files[i];
      Close(i);
      var err, j := Open(path, false, false, 0);
      TookSame(v2, fat.Vol(), r2);
      TookTwice(v, v2, fat.Vol(), r, r2, r2);
      out := LoadAll(i, sizes);
    }

    /** The last write of a series. */
    method StoreLast(i: nat, path: seq<byte>, last: seq<byte>, ghost v0: Volume, ghost r0: Rec)
      requires i in files && Storing(i, path, |files[i].text|) && Took(v0, fat.Vol(), r0, files[i])
      requires SpaceForLast(v0, fat.g.clusterBytes, r0, |files[i].text|, |last|)
      modifies this`files, fat, fat.buffer, handles[i]
      ensures Valid() && i in files && files == old(files)[i := files[i]] && EntriesOk(fat.Vol().dir)
      ensures files[i].text == old(files)[i].text + last && ScanDir(fat.Vol(), Sfn(path)) == (i, true)
      ensures Took(v0, fat.Vol(), r0, files[i])
    {
      hide *;
      ghost var v1, r1, cb := fat.Vol(), files[i], fat.g.clusterBytes;
      StoringParts(i, path, |files[i].text|);
      LastSpace(v0, v1, cb, r0, r1, last);
      StandsAtEndIs(i);
      AppendCases(v1, cb, files, i, r1, last);
      WriteCases(v1.tbl, cb, r1.ch, r1.text, last);
      var n := Append(i, last);
      OutcomeWhenStores(v1, fat.Vol(), cb, i, old(files), files, last, n, StandsAtEnd(i));
      ScanAnyTable(v1, fat.Vol(), Sfn(path));
      TookTwice(v0, v1, fat.Vol(), r0, r1, files[i]);
    }
  }

  /** After the file has grown to the size, the free clusters suffice for what expand_file asks for the n
      bytes of a last write, and those it takes are on the disk. */
  ghost predicate SpaceForLast(v: Volume, cb: nat, r: Rec, size: nat, n: nat) {
    && cb > 0 && size + n < 0x8000_0000 && HasBytesFor(v, cb, r, size + n)
    && FreeCount(v.tbl) + |r.ch| >= ClustersFor(size, cb) + if n == 0 then 0 else Needed(size, n, cb)
  }

  lemma LastSpace(v: Volume, v': Volume, cb: nat, r: Rec, r': Rec, last: seq<byte>)
    requires SpaceForLast(v, cb, r, |r'.text|, |last|) && Took(v, v', r, r')
    requires RecOk(v', cb, r') && CanGrow(r', cb)
    ensures Stores(v'.tbl, cb, r'.ch, r'.text, last) && |r'.text| + |last| < 0x8000_0000
    ensures HasBytesFor(v', cb, r', |r'.text| + |last|)
  {
    hide FreeCount, FreeList, ClustersFor, Needed, Links, Holds, HasBytesFor, Fits, HasRoom, SameLengths, Took;
    ReadyClusters(v', cb, r');
    TookParts(v, v', r, r');
    TookFree(v, v', r, r');
    SpaceLeft(v, v', cb, r, r', |r'.text| + |last|);
  }

  lemma TookFree(v: Volume, v': Volume, r: Rec, r': Rec)
    requires Took(v, v', r, r')
    ensures FreeCount(v'.tbl) + |r'.ch| == FreeCount(v.tbl) + |r.ch|
  {
  }

  lemma TookSame(v: Volume, v': Volume, r: Rec)
    requires v'.tbl == v.tbl && v'.data == v.data
    ensures Took(v, v', r, r)
  {
  }

  lemma TookTwice(v: Volume, v1: Volume, v2: Volume, r: Rec, r1: Rec, r2: Rec)
    requires Took(v, v1, r, r1) && Took(v1, v2, r1, r2)
    ensures Took(v, v2, r, r2)
  {
    var f, k, m := FreeList(v.tbl), |r1.ch| - |r.ch|, |r2.ch| - |r1.ch|;
    assert f[k..][m..] == f[k + m..];
  }

  lemma OutcomeWhenStores(v: Volume, v': Volume, cb: nat, i: nat, files: map<nat, Rec>, files': map<nat, Rec>,
                          buf: seq<byte>, n: nat, atEnd: bool)
    requires AppendsTo(i, files, files', v, v', cb, buf, n, atEnd) && i in files
    requires Stores(v.tbl, cb, files[i].ch, files[i].text, buf)
    ensures i in files' && files' == files[i := files'[i]] && v'.dir == v.dir
    ensures files'[i].text == files[i].text + buf && Took(v, v', files[i], files'[i])
  {
  }

  /** What a program does with a file that it appends to: write, or close it, open it by name and seek
      to its end. */
  datatype Step = Put(bytes: seq<byte>) | Reopen

  function StepText(step: Step): seq<byte> {
    match step
    case Put(bytes) => bytes
    case Reopen => []
  }

  lemma StepTextIs(step: Step)
    ensures step.Put? ==> StepText(step) == step.bytes
    ensures step.Reopen? ==> StepText(step) == []
  {
  }

  /** The bytes of all writes of a series. */
  ghost function Texts(steps: seq<Step>): seq<byte> {
    if steps == [] then [] else Texts(steps[..|steps| - 1]) + StepText(steps[|steps| - 1])
  }

  lemma {:induction false} TextsNext(steps: seq<Step>, k: nat, before: seq<byte>)
    requires k <= |steps|
    ensures before + Texts(steps[..0]) == before
    ensures |Texts(steps[..k])| <= |Texts(steps)|
    ensures k < |steps| ==>
              && before + Texts(steps[..k + 1]) == before + Texts(steps[..k]) + StepText(steps[k])
              && |before + Texts(steps[..k]) + StepText(steps[k])| <= |before + Texts(steps)|
    decreases |steps| - k
  {
    hide StepText;
    if k < |steps| {
      assert steps[..k + 1][..k] == steps[..k];
      TextsNext(steps, k + 1, before);
    } else {
      assert steps[..k] == steps;
    }
  }

  /** Space for the total is space for the next part. */
  lemma SpaceForPart(v: Volume, cb: nat, r: Rec, buf: seq<byte>, total: nat)
    requires cb > 0 && FreeCount(v.tbl) + |r.ch| >= ClustersFor(total, cb) && |r.text + buf| <= total && CanGrow(r, cb)
    requires HasBytesFor(v, cb, r, total)
    ensures Enough(v.tbl, cb, r, buf) && HasBytesFor(v, cb, r, |r.text| + |buf|)
  {
    hide ClustersFor, FreeCount, FreeList;
    ClustersMonotone(|r.text + buf|, total, cb);
  }

  /** The clusters that a step took are the first of those the total will take. */
  lemma SpaceLeft(v: Volume, v': Volume, cb: nat, r: Rec, r': Rec, total: nat)
    requires HasBytesFor(v, cb, r, total) && Took(v, v', r, r') && cb > 0
    requires CanGrow(r', cb) && RecOk(v', cb, r') && |r'.text| <= total
    ensures HasBytesFor(v', cb, r', total)
  {
    hide *;
    ReadyClusters(v', cb, r');
    ClustersMonotone(|r'.text|, total, cb);
    SpaceIs(v, cb, r, total);
    SpaceIs(v', cb, r', total);
    TookParts(v, v', r, r');
    WantedAfter(total, |r.ch|, |r'.ch|, cb);
    BackedRest(v.tbl, v'.tbl, v.data, cb, Wanted(total, |r.ch|, cb), |r'.ch| - |r.ch|);
    BackedSame(v'.tbl, v.data, v'.data, cb, Wanted(total, |r'.ch|, cb));
  }

  lemma TookParts(v: Volume, v': Volume, r: Rec, r': Rec)
    requires Took(v, v', r, r')
    ensures |r.ch| <= |r'.ch| <= |r.ch| + FreeCount(v.tbl) && FreeCount(v.tbl) == |FreeList(v.tbl)|
    ensures FreeList(v'.tbl) == FreeList(v.tbl)[|r'.ch| - |r.ch|..] && SameLengths(v.data, v'.data)
  {
  }

  lemma WantedAfter(total: nat, k: nat, k': nat, cb: nat)
    requires cb > 0 && k <= k' <= ClustersFor(total, cb)
    ensures k' - k <= Wanted(total, k, cb) && Wanted(total, k', cb) == Wanted(total, k, cb) - (k' - k)
  {
  }

  /** A file that can grow has the clusters for its size and the next byte. */
  lemma ReadyClusters(v: Volume, cb: nat, r: Rec)
    requires RecOk(v, cb, r) && CanGrow(r, cb)
    ensures |r.ch| == ClustersFor(|r.text|, cb)
  {
    hide Links, Holds;
    if r.ch != [] {
      RoomExact(|r.ch|, |r.text|, cb);
    }
  }

  lemma SpaceSame(v: Volume, v': Volume, cb: nat, r: Rec, total: nat)
    requires v'.tbl == v.tbl && v'.data == v.data
    ensures HasBytesFor(v, cb, r, total) ==> HasBytesFor(v', cb, r, total)
  {
  }

  /** From its start, a file that can grow has a cluster for its end. */
  lemma EndReached(file: File, cb: nat, r: Rec)
    requires cb > 0 && CanGrow(r, cb) && (r.ch == [] ==> r.text == []) && file.pos == 0
    requires r.ch != [] ==> Fits(|r.ch|, |r.text|, cb)
    ensures FoundFrom(r, cb, file.pos, |r.text|) && ClusterOf(file.pos, cb) == 0
  {
    SmallMod(0, cb);
    if r.ch != [] {
      RoomExact(|r.ch|, |r.text|, cb);
    }
  }

  lemma OutcomeWhenEnough(v: Volume, v': Volume, cb: nat, i: nat, files: map<nat, Rec>, files': map<nat, Rec>,
                          buf: seq<byte>, n: nat, atEnd: bool)
    requires AppendsTo(i, files, files', v, v', cb, buf, n, atEnd) && Enough(v.tbl, cb, files[i], buf)
    ensures i in files' && files' == files[i := files'[i]] && v'.dir == v.dir
    ensures var r, r' := files[i], files'[i];
            && n == |buf| && r'.text == r.text + buf && CanGrow(r', cb) && atEnd && Took(v, v', r, r')
            && FreeCount(v'.tbl) + |r'.ch| == FreeCount(v.tbl) + |r.ch|
  {
  }

  lemma ClustersMonotone(a: nat, b: nat, cb: nat)
    requires a <= b && cb > 0
    ensures ClustersFor(a, cb) <= ClustersFor(b, cb)
  {
    if a / cb > b / cb {
      ScaleStrict(b / cb, a / cb, cb);
    }
    assert a == a / cb * cb + a % cb && b == b / cb * cb + b % cb;
  }

  /** The files after a successful open. */
  lemma OpenedFiles(v: Volume, v': Volume, cb: nat, files: map<nat, Rec>, foreign: set<nat>, open: set<nat>,
                    file: File, path: seq<byte>, trunc: bool, unset: byte, i: nat)
    returns (files': map<nat, Rec>)
    requires Tracks(v, cb, files, foreign, open) && cb > 0 && i !in open && i < |v.dir|
    requires file.pIndex == i && file.pos == 0 && file.cblk == file.sblk && |v.tbl| >= 2
    requires !ScanDir(v, Sfn(path)).1 ==> InUse(NewEntry(Sfn(path), unset))
    requires var found := ScanDir(v, Sfn(path)).1;
             && ScanDir(v, Sfn(path)).0 == i
             && if found && !trunc then
                  v' == v && file.size == EntrySize(v.dir[i]) && file.sblk == EntryCluster(v.dir[i])
                else
                  && file.size == 0 && file.sblk == INVALID
                  && v' == if found then v.(tbl := FreeChain(v.tbl, EntryCluster(v.dir[i]) % 0x1_0000))
                           else v.(dir := v.dir[i := NewEntry(Sfn(path), unset)])
    ensures Tracks(v', cb, files', foreign, open + {i}) && i in files' && HandleOk(file, i, cb, files'[i])
    ensures EntriesOk(v'.dir) && ScanDir(v', Sfn(path)) == (i, true)
    ensures var found := ScanDir(v, Sfn(path)).1;
            && (found <==> i in files)
            && files' == (if found && !trunc then files else files[i := Rec([], [])])
            && (found && trunc ==> FreeCount(v'.tbl) == FreeCount(v.tbl) + |files[i].ch|)
  {
    hide *;
    TracksEntries(v, cb, files, foreign, open);
    ScanFacts(v, cb, files, foreign, open, Sfn(path));
    var found := ScanDir(v, Sfn(path)).1;
    if found && !trunc {
      TracksOpen(v, cb, files, foreign, open, i);
      OpenedHandle(v, cb, files, foreign, open, file, i);
      return files;
    }
    if found {
      ScanAnyTable(v, v', Sfn(path));
      TracksTruncate(v, v', cb, files, foreign, open, i);
    } else {
      ScanAfterCreate(v, v', cb, files, foreign, open, Sfn(path), i, unset);
      TracksCreate(v, v', cb, files, foreign, open, i, NewEntry(Sfn(path), unset));
    }
    EmptyHandle(file, i, cb);
    files' := files[i := Rec([], [])];
  }

  lemma TracksEntries(v: Volume, cb: nat, files: map<nat, Rec>, foreign: set<nat>, open: set<nat>)
    requires Tracks(v, cb, files, foreign, open)
    ensures EntriesOk(v.dir) && ENTRY == 32
    ensures forall k :: 0 <= k < |v.dir| ==> |v.dir[k]| == ENTRY
  {
  }

  lemma ScanAnyTable(v: Volume, v': Volume, name: seq<byte>)
    requires EntriesOk(v.dir) && v'.dir == v.dir
    ensures ScanDir(v', name) == ScanDir(v, name)
  {
  }

  lemma ScanAfterClose(v: Volume, v': Volume, i: nat, size: nat, sblk: nat)
    requires EntriesOk(v.dir) && i < |v.dir| && size < 0x1_0000_0000 && sblk < 0x1_0000
    requires v' == v.(dir := v.dir[i := SetFile(v.dir[i], size, sblk)])
    ensures EntriesOk(v'.dir) && forall name :: ScanDir(v', name) == ScanDir(v, name)
  {
    hide SetFile;
    SetFileRoundTrip(v.dir[i], size, sblk);
    forall name
      ensures ScanDir(v', name) == ScanDir(v, name)
    {
      ScanSameNames(v.dir, v'.dir, name, 0, -1);
    }
  }

  lemma ScanAfterCreate(v: Volume, v': Volume, cb: nat, files: map<nat, Rec>, foreign: set<nat>, open: set<nat>,
                        name: seq<byte>, i: nat, unset: byte)
    requires Tracks(v, cb, files, foreign, open) && |name| == SFN_LEN && InUse(NewEntry(name, unset))
    requires ScanDir(v, name) == (i, false) && i < |v.dir|
    requires v' == v.(dir := v.dir[i := NewEntry(name, unset)])
    ensures EntriesOk(v'.dir) && ScanDir(v', name) == (i, true)
  {
    hide Owned, NewEntry;
    NewEntryFields(name, unset);
    ScanFindsCreated(v.dir, name, 0, -1, -1, i, NewEntry(name, unset));
  }

  lemma EntryInDir(v: Volume, cb: nat, files: map<nat, Rec>, foreign: set<nat>, open: set<nat>, i: nat)
    requires Tracks(v, cb, files, foreign, open) && i in files
    ensures EntriesOk(v.dir) && i < |v.dir|
  {
  }

  lemma CloseFacts(fat: Fat, file: File, i: nat, r: Rec)
    requires fat.Valid() && RecOk(fat.Vol(), fat.g.clusterBytes, r) && HandleOk(file, i, fat.g.clusterBytes, r)
    ensures file.pIndex == i && Anchored(r, file.size, file.sblk) && file.size < 0x1_0000_0000
  {
    hide Mirrored, Holds, Links;
    SizeBound(fat.Vol(), fat.g.clusterBytes, r);
  }

  /** The scan ends on a file, or on an entry that is none. */
  lemma ScanFacts(v: Volume, cb: nat, files: map<nat, Rec>, foreign: set<nat>, open: set<nat>, name: seq<byte>)
    requires Tracks(v, cb, files, foreign, open)
    ensures forall k :: 0 <= k < |v.dir| ==> |v.dir[k]| == ENTRY
    ensures var (r, found) := ScanDir(v, name);
            && r < |v.dir| && (found ==> 0 <= r && r in files && InUse(v.dir[r]) && EntryName(v.dir[r]) == name)
            && (!found && 0 <= r ==> r !in files && !InUse(v.dir[r]))
  {
    hide Owned, Scan;
    ScanExact(v.dir, name, 0, -1);
  }

  lemma OpenedHandle(v: Volume, cb: nat, files: map<nat, Rec>, foreign: set<nat>, open: set<nat>, file: File, i: nat)
    requires Tracks(v, cb, files, foreign, open) && i in files && i !in open && cb > 0
    requires file.size == EntrySize(v.dir[i]) && file.sblk == file.cblk == EntryCluster(v.dir[i])
    requires file.pIndex == i && file.pos == 0
    ensures HandleOk(file, i, cb, files[i])
  {
    hide Owned;
    SmallMod(0, cb);
  }

  lemma EmptyHandle(file: File, i: nat, cb: nat)
    requires file.size == file.pos == 0 && file.sblk == file.cblk == INVALID && file.pIndex == i && cb > 0
    ensures HandleOk(file, i, cb, Rec([], []))
  {
  }

  lemma HandleBounds(file: File, i: nat, cb: nat, r: Rec)
    requires HandleOk(file, i, cb, r)
    ensures file.pIndex == i && file.sblk < 0x1_0000 && file.pos <= file.size == |r.text|
    ensures Anchored(r, file.size, file.sblk)
  {
  }

  lemma EnoughStores(fat: Fat, file: File, ch: seq<nat>, text: seq<byte>, buf: seq<byte>)
    requires ReadyToAppend(fat, file, ch, text)
    ensures fat.g.clusterBytes > 0
    ensures Enough(fat.Vol().tbl, fat.g.clusterBytes, Rec(ch, text), buf) ==>
              Stores(fat.Vol().tbl, fat.g.clusterBytes, ch, text, buf)
  {
    hide ReadyToAppend, Needed, ClustersFor, FreeCount;
    AppendCount(fat, file, ch, text, |buf|);
    assert |text + buf| == |text| + |buf|;
    if buf == [] {
      assert text + buf == text;
    }
  }

  lemma AppendedFacts(fat: Fat, file: File, v: Volume, r: Rec, ch': seq<nat>, buf: seq<byte>)
    requires Appended(fat, file, v.tbl, r.ch, ch', r.text, buf) && RecOk(v, fat.g.clusterBytes, r)
    requires SameLengths(v.data, fat.Vol().data)
    ensures |r.ch| <= |ch'| && Grown(v.tbl, fat.Vol().tbl, r.ch, ch', |ch'| - |r.ch|)
    ensures Took(v, fat.Vol(), r, Rec(ch', r.text + buf))
    ensures Enough(v.tbl, fat.g.clusterBytes, r, buf) ==>
              file.pos == file.size && CanGrow(Rec(ch', r.text + buf), fat.g.clusterBytes)
  {
    hide DiskOk, Mirrored, Table, Dir, Data, FreeBelow, Links, Holds, Took, SameOutside, Concat, SameLengths;
    GainIsTook(v, fat.Vol(), r, Rec(ch', r.text + buf));
  }

  lemma GainIsTook(v: Volume, v': Volume, r: Rec, r': Rec)
    requires Links(v.tbl, r.ch, INVALID) && |r.ch| <= |r'.ch| && SameLengths(v.data, v'.data)
    requires Grown(v.tbl, v'.tbl, r.ch, r'.ch, |r'.ch| - |r.ch|)
    ensures Took(v, v', r, r')
  {
    hide FreeBelow, SameLengths;
    ChainIsUsed(v.tbl, r.ch);
    GrownTook(v.tbl, v'.tbl, r.ch, r'.ch, |r'.ch| - |r.ch|);
  }
}
