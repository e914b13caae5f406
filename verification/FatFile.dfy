/** Open files of the FAT16 driver: growing the chain, moving the position, reading, writing and
    seeking, stated against the byte string the file holds. */
module FatFile {
  import opened Bits
  import opened Klib
  import opened FatTable
  import opened FatContent
  import opened FatDriver

  /** The fields of file_t that the driver uses. */
  class File {
    var size: nat
    var pos: nat
    var sblk: nat
    var cblk: nat
    var pIndex: int

    constructor ()
      ensures fresh(this)
    {
      size, pos, sblk, cblk, pIndex := 0, 0, INVALID, INVALID, -1;
    }
  }

  /** ch is the (possibly empty) chain that starts at sblk. */
  ghost predicate StartsChain(t: seq<nat>, ch: seq<nat>, sblk: nat) {
    if ch == [] then !ClusterIsValid(sblk) else sblk == ch[0] && Links(t, ch, INVALID)
  }

  /** The chain grew by the n lowest free clusters and no other entry changed. */
  ghost predicate Grown(t: seq<nat>, t': seq<nat>, ch: seq<nat>, ch': seq<nat>, n: nat) {
    && n <= FreeCount(t)
    && ch' == ch + FreeList(t)[..n]
    && Links(t', ch', INVALID)
    && SameOutside(t, t', ch')
    && (n == 0 ==> t' == t)
  }

  lemma ChainIsUsed(t: seq<nat>, ch: seq<nat>)
    requires Links(t, ch, INVALID)
    ensures forall c :: c in ch ==> InTable(t, c) && t[c] != FREE
  {
    forall c | c in ch
      ensures InTable(t, c) && t[c] != FREE
    {
      var i :| 0 <= i < |ch| && ch[i] == c;
      if i < |ch| - 1 {
        assert InTable(t, ch[i + 1]);
      }
    }
  }

  /** Hooking a fresh chain onto the last cluster of a file's chain. */
  lemma LinkTail(t0: seq<nat>, t1: seq<nat>, ch: seq<nat>, new_: seq<nat>)
    requires ch != [] && new_ != [] && Links(t0, ch, INVALID)
    requires Links(t1, new_, INVALID) && SameOutside(t0, t1, new_)
    requires forall c :: c in new_ ==> c < |t0| && t0[c] == FREE
    ensures InTable(t1, ch[|ch| - 1])
    ensures var t2 := Set(t1, ch[|ch| - 1], new_[0]);
            Links(t2, ch + new_, INVALID) && SameOutside(t0, t2, ch + new_)
  {
    ChainIsUsed(t0, ch);
    var last := ch[|ch| - 1];
    var t2, s := Set(t1, last, new_[0]), ch + new_;
    assert forall i :: 0 <= i < |ch| ==> ch[i] in ch;
    assert forall i :: 0 <= i < |new_| ==> new_[i] in new_;
    assert last in ch;
    forall i, j | 0 <= i < |s| - 1 && j == i + 1
      ensures t2[s[i]] == s[j]
    {
      if i < |ch| - 1 {
        assert s[i] == ch[i] && s[j] == ch[j];
      } else if i >= |ch| {
        assert s[i] == new_[i - |ch|] && s[j] == new_[j - |ch|];
      }
    }
    assert s[|s| - 1] == new_[|new_| - 1];
  }

  lemma FreePrefix(t: seq<nat>, n: nat)
    requires n <= FreeCount(t)
    ensures forall c :: c in FreeList(t)[..n] ==> 2 <= c < |t| && t[c] == FREE
  {
    FreeBelowExact(t, |t|);
    assert forall c :: c in FreeList(t)[..n] ==> c in FreeList(t);
  }

  /** The n lowest free clusters are linked up, and no entry of another cluster leads to them. */
  ghost predicate Orphaned(t: seq<nat>, t': seq<nat>, n: nat) {
    && 0 < n <= FreeCount(t)
    && Links(t', FreeList(t)[..n], INVALID)
    && SameOutside(t, t', FreeList(t)[..n])
  }

  /** The file has a chain and its current cluster is none, as after reading a full chain to its end. */
  ghost predicate OffChain(file: File, ch: seq<nat>)
    reads file
  {
    ch != [] && !ClusterIsValid(file.cblk)
  }

  /** expand_file: make room for incr more bytes. Clusters allocated while the current cluster is none
      cannot be hooked onto the chain; they stay allocated and -1 is returned. */
  method ExpandFile(fat: Fat, file: File, incr: nat, ghost ch: seq<nat>) returns (err: int, ghost ch': seq<nat>)
    requires fat.Valid() && 0 < incr < 0x8000_0000
    requires StartsChain(fat.Vol().tbl, ch, file.sblk)
    requires ch != [] ==> file.cblk == ch[|ch| - 1] || !ClusterIsValid(file.cblk)
    modifies fat, fat.buffer, file`sblk, file`cblk
    ensures fat.Valid()
    ensures var n := Needed(file.size, incr, fat.g.clusterBytes);
            var v := old(fat.Vol());
            && fat.Vol() == v.(tbl := fat.Vol().tbl)
            && (if n > FreeCount(v.tbl) then err == -1 && fat.Vol() == v && ch' == ch
                else if n > 0 && old(OffChain(file, ch)) then
                  err == -1 && Orphaned(v.tbl, fat.Vol().tbl, n) && ch' == ch
                else err == 0 && Grown(v.tbl, fat.Vol().tbl, ch, ch', n))
            && if ch == [] && ch' != [] then file.sblk == file.cblk == ch'[0]
               else file.sblk == old(file.sblk) && file.cblk == old(file.cblk)
    ensures err == 0 && ch == [] && file.size == 0 ==> IsLeast(|ch'|, incr, fat.g.clusterBytes)
    ensures var size, cb := file.size, fat.g.clusterBytes;
            err == 0 && 0 < size && |ch| * cb - cb <= size < |ch| * cb ==>
              IsLeast(|ch'| - (if incr == cb - size % cb then 1 else 0), size + incr, cb)
  {
    hide *;
    ClusterSizeOk(fat);
    LengthInNumbers(|ch|, file.size, incr, fat.g.clusterBytes);
    var clusterCnt := ClusterCount(file.size, incr, fat.g.clusterBytes);
    if clusterCnt == 0 {
      GrownByNone(fat.Vol().tbl, ch, file.sblk);
      return 0, ch;
    }
    err, ch' := AttachClusters(fat, file, clusterCnt, ch);
  }

  lemma LengthInNumbers(k: nat, size: nat, incr: nat, cb: nat)
    requires cb > 0 && incr > 0
    ensures k == 0 && size == 0 ==> IsLeast(Needed(size, incr, cb), incr, cb)
    ensures 0 < size && k * cb - cb <= size < k * cb ==>
              IsLeast(k + Needed(size, incr, cb) - (if incr == cb - size % cb then 1 else 0), size + incr, cb)
    ensures forall t, t', ch, ch', n :: Grown(t, t', ch, ch', n) ==> |ch'| == |ch| + n
  {
    if (k == 0 && size == 0) || (0 < size && k * cb - cb <= size < k * cb) {
      NeededLeast(k, size, incr, cb);
    }
  }

  lemma ClusterSizeOk(fat: Fat)
    requires fat.Valid()
    ensures ClusterSize(fat.g.clusterBytes) && fat.g.clusterBytes > 0
  {
  }

  lemma GrownByNone(t: seq<nat>, ch: seq<nat>, sblk: nat)
    requires StartsChain(t, ch, sblk)
    ensures Grown(t, t, ch, ch, 0)
  {
    assert ch == ch + FreeList(t)[..0];
  }

  /** The first half of expand_file: how many clusters to ask for; none when the free part of the
      last cluster is larger than the increment. */
  method ClusterCount(size: nat, incr: nat, cb: nat) returns (cnt: nat)
    requires ClusterSize(cb) && 0 < incr < 0x8000_0000
    ensures cnt == Needed(size, incr, cb)
  {
    if size == 0 && size % cb == 0 {
      Up2Clusters(incr, cb);
      cnt := Up2(incr, cb) / cb;
    } else {
      var cfree := cb - size % cb;
      if cfree > incr {
        return 0;
      }
      Up2Clusters(incr - cfree, cb);
      cnt := Up2(incr - cfree, cb) / cb;
      if cnt == 0 {
        cnt := 1;
      }
    }
  }

  /** The second half of expand_file: allocate, then start or extend the file's chain. */
  method AttachClusters(fat: Fat, file: File, cnt: nat, ghost ch: seq<nat>) returns (err: int, ghost ch': seq<nat>)
    requires fat.Valid() && cnt > 0
    requires StartsChain(fat.Vol().tbl, ch, file.sblk)
    requires ch != [] ==> file.cblk == ch[|ch| - 1] || !ClusterIsValid(file.cblk)
    modifies fat, fat.buffer, file`sblk, file`cblk
    ensures fat.Valid()
    ensures fat.Vol() == old(fat.Vol()).(tbl := fat.Vol().tbl)
    ensures var t := old(fat.Vol()).tbl;
            if cnt > FreeCount(t) then err == -1 && fat.Vol() == old(fat.Vol()) && ch' == ch
            else if old(OffChain(file, ch)) then err == -1 && Orphaned(t, fat.Vol().tbl, cnt) && ch' == ch
            else err == 0 && Grown(t, fat.Vol().tbl, ch, ch', cnt)
    ensures if ch == [] && ch' != [] then file.sblk == file.cblk == ch'[0]
            else file.sblk == old(file.sblk) && file.cblk == old(file.cblk)
  {
    hide *;
    ghost var t := fat.Vol().tbl;
    var start := fat.ClusterAllocFree(cnt);
    ghost var t1, off := fat.Vol().tbl, OffChain(file, ch);
    ghost var new_ := AttachFacts(t, t1, cnt, start, ch, file.sblk);
    OffChainIs(file, t1, ch, start);
    if !ClusterIsValid(start) {
      ch' := ch;
      return -1, ch;
    }
    ch' := ch + new_;
    if !ClusterIsValid(file.sblk) {
      file.sblk := start;
      file.cblk := start;
    } else {
      err := fat.ClusterSetNext(file.cblk, start);
      if off {
        ch' := ch;
      }
      return err, ch';
    }
    return 0, ch';
  }

  lemma OffChainIs(file: File, t: seq<nat>, ch: seq<nat>, start: nat)
    ensures OffChain(file, ch) <==> ch != [] && !ClusterIsValid(file.cblk)
    ensures !ClusterIsValid(file.cblk) ==> Set(t, file.cblk, start) == t && !InTable(t, file.cblk)
  {
  }

  /** The clusters allocated, and what hooking them onto the file's chain gives. */
  lemma AttachFacts(t: seq<nat>, t1: seq<nat>, cnt: nat, start: nat, ch: seq<nat>, sblk: nat) returns (new_: seq<nat>)
    requires AllocResult(t, t1, cnt, start) && cnt > 0 && StartsChain(t, ch, sblk)
    ensures ClusterIsValid(start) <==> cnt <= FreeCount(t)
    ensures !ClusterIsValid(start) ==> t1 == t
    ensures start < 0x1_0000 && (ClusterIsValid(sblk) <==> ch != [])
    ensures ClusterIsValid(start) ==>
              && new_ != [] && new_[0] == start && Orphaned(t, t1, cnt)
              && if ch == [] then Grown(t, t1, ch, ch + new_, cnt)
                 else
                   && ClusterIsValid(ch[|ch| - 1]) && InTable(t1, ch[|ch| - 1])
                   && Grown(t, Set(t1, ch[|ch| - 1], start), ch, ch + new_, cnt)
  {
    new_ := [];
    if cnt <= FreeCount(t) {
      new_ := FreeList(t)[..cnt];
      FreePrefix(t, cnt);
      assert new_[0] in new_ && InTable(t1, new_[0]);
      if ch != [] {
        LinkTail(t, t1, ch, new_);
        assert InTable(t, ch[0]);
      }
    }
  }

  /** The position lies in cluster idx of the chain and cblk names that cluster. */
  ghost predicate AtCluster(file: File, cb: nat, ch: seq<nat>, idx: nat)
    reads file
  {
    idx < |ch| && file.cblk == ch[idx] && idx * cb <= file.pos < idx * cb + cb
  }

  lemma OffsetInCluster(pos: nat, cb: nat, idx: nat)
    requires cb > 0 && idx * cb <= pos < idx * cb + cb
    ensures pos % cb == pos - idx * cb && ClusterOf(pos, cb) == idx
  {
    DivModUnique(pos, idx, pos - idx * cb, cb);
  }

  /** move_file_pos: step over at most the rest of the current cluster. At the end of the chain a
      writer gets one more cluster; a reader is left on the end-of-chain mark. */
  method MoveFilePos(fat: Fat, file: File, move: nat, expand: bool, ghost ch: seq<nat>, ghost idx: nat)
    returns (err: int, ghost ch': seq<nat>)
    requires fat.Valid() && StartsChain(fat.Vol().tbl, ch, file.sblk)
    requires move > 0
    requires !Inside(file, fat.g.clusterBytes, move) ==>
               && AtCluster(file, fat.g.clusterBytes, ch, idx)
               && file.pos + move <= idx * fat.g.clusterBytes + fat.g.clusterBytes
               && (expand && file.pos + move == |ch| * fat.g.clusterBytes ==> file.size == file.pos + move)
    modifies fat, fat.buffer, file`pos, file`cblk, file`sblk
    ensures fat.Valid() && file.sblk == old(file.sblk)
    ensures old(Inside(file, fat.g.clusterBytes, move)) ==>
              err == 0 && fat.Vol() == old(fat.Vol()) && ch' == ch && file.pos == old(file.pos) + move
              && file.cblk == old(file.cblk)
    ensures old(AtCluster(file, fat.g.clusterBytes, ch, idx)) ==>
            var cb := fat.g.clusterBytes;
            var v := old(fat.Vol());
            if old(file.pos) + move < idx * cb + cb || idx + 1 < |ch| || !expand then
              && err == 0 && fat.Vol() == v && ch' == ch && file.pos == old(file.pos) + move
              && file.cblk == if file.pos < idx * cb + cb then ch[idx]
                              else if idx + 1 < |ch| then ch[idx + 1] else INVALID
            else if FreeCount(v.tbl) >= 1 then
              && err == 0 && Grown(v.tbl, fat.Vol().tbl, ch, ch', 1) && fat.Vol() == v.(tbl := fat.Vol().tbl)
              && file.pos == old(file.pos) + move && file.cblk == ch'[|ch|]
            else
              err == -1 && fat.Vol() == v && ch' == ch && file.pos == old(file.pos) && file.cblk == ch[idx]
  {
    hide *;
    ch' := ch;
    ghost var t := fat.Vol().tbl;
    ClusterSizeOk(fat);
    InsideIs(file, fat.g.clusterBytes, move);
    if AtCluster(file, fat.g.clusterBytes, ch, idx) {
      MoveFacts(fat, file, ch, idx);
      OffChainIs(file, t, ch, 0);
    }
    var cOffset := file.pos % fat.g.clusterBytes;
    if cOffset + move >= fat.g.clusterBytes {
      var next := fat.ClusterGetNext(file.cblk);
      if next == INVALID && expand {
        err, ch' := ExpandFile(fat, file, fat.g.clusterBytes, ch);
        if err < 0 {
          return -1, ch';
        }
        GrownByOne(t, fat.Vol().tbl, ch, ch');
        next := fat.ClusterGetNext(file.cblk);
      }
      file.cblk := next;
    }
    file.pos := file.pos + move;
    return 0, ch';
  }

  /** The step stays inside the cluster of the position. */
  ghost predicate Inside(file: File, cb: nat, move: nat)
    reads file
  {
    cb > 0 && file.pos % cb + move < cb
  }

  lemma InsideIs(file: File, cb: nat, move: nat)
    ensures Inside(file, cb, move) <==> cb > 0 && file.pos % cb + move < cb
  {
  }

  lemma MoveFacts(fat: Fat, file: File, ch: seq<nat>, idx: nat)
    requires fat.Valid() && StartsChain(fat.Vol().tbl, ch, file.sblk) && AtCluster(file, fat.g.clusterBytes, ch, idx)
    ensures var cb := fat.g.clusterBytes;
            && 0 < cb < 0x8000_0000 && idx < |ch| && file.cblk == ch[idx] && ClusterIsValid(file.cblk)
            && idx * cb <= file.pos < idx * cb + cb && file.pos % cb == file.pos - idx * cb
            && Next(fat.Vol().tbl, ch[idx]) == (if idx + 1 < |ch| then ch[idx + 1] else INVALID)
            && (idx + 1 < |ch| ==> ch[idx + 1] != INVALID)
            && (idx + 1 == |ch| ==> |ch| * cb == idx * cb + cb && Needed(|ch| * cb, cb, cb) == 1)
  {
    var cb := fat.g.clusterBytes;
    OffsetInCluster(file.pos, cb, idx);
    LastCluster(fat.Vol().tbl, ch, idx);
    if idx + 1 == |ch| {
      NeededAtBoundary(|ch|, cb);
    }
  }

  lemma GrownByOne(t: seq<nat>, t': seq<nat>, ch: seq<nat>, ch': seq<nat>)
    requires Grown(t, t', ch, ch', 1) && ch != []
    ensures |ch'| == |ch| + 1 && ch'[|ch| - 1] == ch[|ch| - 1] && Next(t', ch[|ch| - 1]) == ch'[|ch|]
  {
  }

  lemma LastCluster(t: seq<nat>, ch: seq<nat>, idx: nat)
    requires Links(t, ch, INVALID) && idx < |ch|
    ensures t[ch[idx]] == INVALID <==> idx + 1 == |ch|
  {
    if idx + 1 < |ch| {
      assert InTable(t, ch[idx + 1]);
    }
  }
}
