/** File contents: a chain of clusters read as one byte string, and the cluster arithmetic of
    growing it. */
module FatContent {
  import opened Bits
  import opened Klib
  import opened Bytes
  import opened FatTable

  // ---------------------------------------------------------------- bytes of a chain

  ghost predicate InData(data: seq<seq<byte>>, cb: nat, ch: seq<nat>) {
    forall i :: 0 <= i < |ch| ==> ch[i] < |data| && |data[ch[i]]| == cb
  }

  ghost predicate SameLengths(d: seq<seq<byte>>, d': seq<seq<byte>>) {
    |d'| == |d| && forall c :: 0 <= c < |d| ==> |d'[c]| == |d[c]|
  }

  /** The next n free clusters, as far as there are so many, have their bytes on the disk. */
  ghost predicate Backed(t: seq<nat>, data: seq<seq<byte>>, cb: nat, n: nat) {
    forall i :: 0 <= i < n && i < FreeCount(t) ==> FreeList(t)[i] < |data| && |data[FreeList(t)[i]]| == cb
  }

  lemma BackedSame(t: seq<nat>, data: seq<seq<byte>>, data': seq<seq<byte>>, cb: nat, n: nat)
    requires Backed(t, data, cb, n) && SameLengths(data, data')
    ensures Backed(t, data', cb, n)
  {
  }

  /** Of n backed clusters, k are taken. */
  lemma BackedRest(t: seq<nat>, t': seq<nat>, data: seq<seq<byte>>, cb: nat, n: nat, k: nat)
    requires Backed(t, data, cb, n) && k <= FreeCount(t) && FreeList(t') == FreeList(t)[k..]
    ensures k <= n ==> Backed(t', data, cb, n - k)
    ensures k <= n ==> InData(data, cb, FreeList(t)[..k])
  {
  }

  ghost function Concat(data: seq<seq<byte>>, cb: nat, ch: seq<nat>): (b: seq<byte>)
    requires InData(data, cb, ch)
    ensures |b| == |ch| * cb
  {
    if ch == [] then []
    else
      var n := |ch| - 1;
      assert |ch| * cb == n * cb + cb;
      Concat(data, cb, ch[..n]) + data[ch[n]]
  }

  /** The bytes of a file of the given size stored in the chain. */
  ghost function Contents(data: seq<seq<byte>>, cb: nat, ch: seq<nat>, size: nat): (b: seq<byte>)
    requires InData(data, cb, ch) && size <= |ch| * cb
    ensures |b| == size
  {
    Concat(data, cb, ch)[..size]
  }

  lemma ConcatSnoc(data: seq<seq<byte>>, cb: nat, ch: seq<nat>, c: nat)
    requires InData(data, cb, ch) && c < |data| && |data[c]| == cb
    ensures InData(data, cb, ch + [c]) && Concat(data, cb, ch + [c]) == Concat(data, cb, ch) + data[c]
  {
    var s := ch + [c];
    assert s[..|ch|] == ch && s[|ch|] == c;
  }

  lemma {:induction false} ConcatSame(data: seq<seq<byte>>, data': seq<seq<byte>>, cb: nat, ch: seq<nat>)
    requires InData(data, cb, ch) && |data'| == |data|
    requires forall c :: c in ch && c < |data| ==> data'[c] == data[c]
    ensures InData(data', cb, ch) && Concat(data', cb, ch) == Concat(data, cb, ch)
    decreases |ch|
  {
    if ch != [] {
      ConcatSame(data, data', cb, ch[..|ch| - 1]);
    }
  }

  /** Cluster i of the chain supplies the bytes from i * cb on. */
  lemma {:induction false} ConcatAt(data: seq<seq<byte>>, cb: nat, ch: seq<nat>, i: nat)
    requires InData(data, cb, ch) && i < |ch|
    ensures i * cb + cb <= |ch| * cb
    ensures InData(data, cb, ch[..i]) && Concat(data, cb, ch)[..i * cb] == Concat(data, cb, ch[..i])
    ensures Concat(data, cb, ch)[i * cb..i * cb + cb] == data[ch[i]]
    decreases |ch|
  {
    var n := |ch| - 1;
    assert |ch| * cb == n * cb + cb;
    if i < n {
      ConcatAt(data, cb, ch[..n], i);
      assert ch[..n][..i] == ch[..i];
    }
  }

  /** text is what the chain holds up to offset off of cluster idx. */
  ghost predicate Written(data: seq<seq<byte>>, cb: nat, ch: seq<nat>, idx: nat, off: nat, text: seq<byte>) {
    && InData(data, cb, ch) && idx < |ch| && off <= cb
    && InData(data, cb, ch[..idx])
    && text == Concat(data, cb, ch[..idx]) + data[ch[idx]][..off]
  }

  function Patch(bytes: seq<byte>, off: nat, part: seq<byte>): seq<byte>
    requires off + |part| <= |bytes|
  {
    bytes[..off] + part + bytes[off + |part|..]
  }

  /** Storing the next part in the current cluster extends the text by it. */
  lemma WrittenPatch(data: seq<seq<byte>>, cb: nat, ch: seq<nat>, idx: nat, off: nat, text: seq<byte>, part: seq<byte>)
    requires Written(data, cb, ch, idx, off, text) && Distinct(ch) && off + |part| <= cb
    ensures var data' := data[ch[idx] := Patch(data[ch[idx]], off, part)];
            Written(data', cb, ch, idx, off + |part|, text + part)
  {
    var c := ch[idx];
    var data' := data[c := Patch(data[c], off, part)];
    assert c !in ch[..idx];
    ConcatSame(data, data', cb, ch[..idx]);
    assert data'[c][..off + |part|] == data[c][..off] + part;
  }

  lemma WrittenNext(data: seq<seq<byte>>, cb: nat, ch: seq<nat>, idx: nat, text: seq<byte>)
    requires Written(data, cb, ch, idx, cb, text) && idx + 1 < |ch|
    ensures Written(data, cb, ch, idx + 1, 0, text)
  {
    ConcatSnoc(data, cb, ch[..idx], ch[idx]);
    assert ch[..idx + 1] == ch[..idx] + [ch[idx]];
  }

  lemma WrittenContents(data: seq<seq<byte>>, cb: nat, ch: seq<nat>, idx: nat, off: nat, text: seq<byte>)
    requires Written(data, cb, ch, idx, off, text)
    ensures |text| == idx * cb + off <= |ch| * cb && Contents(data, cb, ch, |text|) == text
  {
    ConcatAt(data, cb, ch, idx);
    var all, p := Concat(data, cb, ch), idx * cb;
    assert all[..p + off] == all[..p] + all[p..p + cb][..off];
  }

  lemma ContentsWritten(data: seq<seq<byte>>, cb: nat, ch: seq<nat>, idx: nat, size: nat)
    requires InData(data, cb, ch) && idx < |ch| && idx * cb <= size <= idx * cb + cb && size <= |ch| * cb
    ensures Written(data, cb, ch, idx, size - idx * cb, Contents(data, cb, ch, size))
  {
    ConcatAt(data, cb, ch, idx);
    var all, p := Concat(data, cb, ch), idx * cb;
    assert all[..size] == all[..p] + all[p..p + cb][..size - p];
  }

  /** A longer chain with the same bytes in its first clusters holds the same text. */
  lemma ContentsExtend(data: seq<seq<byte>>, cb: nat, ch: seq<nat>, c: nat, size: nat)
    requires InData(data, cb, ch) && c < |data| && |data[c]| == cb && size <= |ch| * cb
    ensures InData(data, cb, ch + [c]) && size <= |ch + [c]| * cb
    ensures Contents(data, cb, ch + [c], size) == Contents(data, cb, ch, size)
  {
    ConcatSnoc(data, cb, ch, c);
  }

  /** Part of the text, found in one cluster. */
  lemma ContentsSlice(data: seq<seq<byte>>, cb: nat, ch: seq<nat>, size: nat, idx: nat, off: nat, n: nat)
    requires InData(data, cb, ch) && idx < |ch| && off + n <= cb
    requires idx * cb + off + n <= size <= |ch| * cb
    ensures var p := idx * cb + off;
            Contents(data, cb, ch, size)[p..p + n] == data[ch[idx]][off..off + n]
  {
    ConcatAt(data, cb, ch, idx);
    var all, q := Concat(data, cb, ch), idx * cb;
    assert Contents(data, cb, ch, size) == all[0..size];
    hide *;
    SliceOfSlice(all, q, q + cb, off, off + n);
    SliceOfSlice(all, 0, size, q + off, q + off + n);
  }

  // ---------------------------------------------------------------- cluster counts

  predicate ClusterSize(cb: nat) {
    cb in {512, 1024, 2048, 4096}
  }

  /** The index in its chain of the cluster that holds a position. */
  function ClusterOf(pos: nat, cb: nat): nat
    requires cb > 0
  {
    pos / cb
  }

  /** The number of clusters expand_file asks for. */
  function Needed(size: nat, incr: nat, cb: nat): (n: nat)
    requires cb > 0
  {
    if size == 0 && size % cb == 0 then (incr + cb - 1) / cb
    else
      var cfree := cb - size % cb;
      if cfree > incr then 0
      else
        var n := (incr - cfree + cb - 1) / cb;
        if n == 0 then 1 else n
  }

  lemma Up2Clusters(n: nat, cb: nat)
    requires ClusterSize(cb) && n < 0x8000_0000
    ensures Up2(n, cb) / cb == (n + cb - 1) / cb
  {
    Powers();
    var k := if cb == 512 then 9 else if cb == 1024 then 10 else if cb == 2048 then 11 else 12;
    Up2WithoutWrap(n, k);
    MultipleMod((n + cb - 1) / cb, cb);
  }

  /** A chain of k clusters fits a file of the given size, with no cluster to spare but the one
      that the next byte would go to. */
  predicate Fits(k: nat, size: nat, cb: nat) {
    k * cb - cb <= size <= k * cb
  }

  predicate HasRoom(k: nat, size: nat, cb: nat) {
    size < k * cb
  }

  /** After expand_file the chain fits the grown file. */
  lemma NeededFits(k: nat, size: nat, incr: nat, cb: nat)
    requires cb > 0 && incr > 0
    requires if k == 0 then size == 0 else size > 0 && Fits(k, size, cb) && HasRoom(k, size, cb)
    ensures Fits(k + Needed(size, incr, cb), size + incr, cb)
  {
    var n := Needed(size, incr, cb);
    assert (k + n) * cb == k * cb + n * cb;
    if k == 0 {
      CeilBounds(incr, cb);
    } else {
      RoomExact(k, size, cb);
      var q := size / cb;
      assert size == q * cb + size % cb;
      assert k * cb == q * cb + cb;
      var cfree := cb - size % cb;
      if cfree <= incr {
        CeilBounds(incr - cfree, cb);
      }
    }
  }

  /** m is the least number of clusters that the bytes fit into. */
  predicate IsLeast(m: int, bytes: nat, cb: nat) {
    0 <= m && bytes <= m * cb && (m > 0 ==> (m - 1) * cb < bytes)
  }

  /** After expand_file an empty file has the least number of clusters for its bytes, and so has a file
      with room for one more byte, but for one cluster more exactly when the bytes fill its last one. */
  lemma NeededLeast(k: nat, size: nat, incr: nat, cb: nat)
    requires cb > 0 && incr > 0
    requires if k == 0 then size == 0 else size > 0 && Fits(k, size, cb) && HasRoom(k, size, cb)
    ensures k == 0 ==> IsLeast(Needed(size, incr, cb), incr, cb)
    ensures k > 0 ==>
              IsLeast(k + Needed(size, incr, cb) - (if incr == cb - size % cb then 1 else 0), size + incr, cb)
  {
    var n := Needed(size, incr, cb);
    if k == 0 {
      CeilLeast(incr, cb);
    } else {
      RoomExact(k, size, cb);
      var q, cfree := size / cb, cb - size % cb;
      assert size == q * cb + size % cb && k == q + 1;
      assert k * cb == q * cb + cb && (k - 1) * cb == q * cb;
      if cfree < incr {
        CeilLeast(incr - cfree, cb);
        assert (k + n) * cb == k * cb + n * cb && (k + n - 1) * cb == k * cb + (n - 1) * cb;
      } else if cfree == incr {
        CeilBounds(0, cb);
      }
    }
  }

  lemma CeilLeast(x: nat, cb: nat)
    requires cb > 0 && x > 0
    ensures IsLeast((x + cb - 1) / cb, x, cb) && (x + cb - 1) / cb > 0
  {
    CeilBounds(x, cb);
    var n := (x + cb - 1) / cb;
    assert (n - 1) * cb == n * cb - cb;
  }

  /** In numbers: when the clusters that expand_file asks for are there. */
  lemma NeededFree(k: nat, size: nat, incr: nat, cb: nat, free: nat)
    requires cb > 0 && incr > 0
    requires if k == 0 then size == 0 else size > 0 && Fits(k, size, cb) && HasRoom(k, size, cb)
    ensures Needed(size, incr, cb) <= free <==>
            size + incr <= (k + free) * cb && (k > 0 && incr == cb - size % cb ==> free >= 1)
  {
    NeededLeast(k, size, incr, cb);
    var m := if k > 0 && incr == cb - size % cb then k + Needed(size, incr, cb) - 1 else k + Needed(size, incr, cb);
    LeastUpTo(m, size + incr, cb, k + free);
    if k > 0 && incr == cb - size % cb {
      LastByte(k, size, incr, cb);
    }
  }

  /** Filling the last cluster asks for exactly one more. */
  lemma LastByte(k: nat, size: nat, incr: nat, cb: nat)
    requires cb > 0 && k > 0 && size > 0 && Fits(k, size, cb) && HasRoom(k, size, cb) && incr == cb - size % cb
    ensures Needed(size, incr, cb) == 1 && size + incr == k * cb
  {
    CeilBounds(0, cb);
    RoomExact(k, size, cb);
    var q := size / cb;
    assert size == q * cb + size % cb && k * cb == q * cb + cb;
  }

  lemma LeastUpTo(m: nat, bytes: nat, cb: nat, k: nat)
    requires IsLeast(m, bytes, cb) && cb > 0
    ensures m <= k <==> bytes <= k * cb
  {
    if m <= k {
      assert (k - m) * cb >= 0 && k * cb == m * cb + (k - m) * cb;
    } else {
      assert (m - 1 - k) * cb >= 0 && (m - 1) * cb == k * cb + (m - 1 - k) * cb;
    }
  }

  lemma CeilBounds(x: nat, cb: nat)
    requires cb > 0
    ensures var n := (x + cb - 1) / cb;
            x <= n * cb < x + cb && (x == 0 ==> n == 0) && (x > 0 ==> n > 0)
  {
    var n := (x + cb - 1) / cb;
    assert x + cb - 1 == n * cb + (x + cb - 1) % cb;
    if x == 0 {
      SmallMod(cb - 1, cb);
    }
  }

  /** At a full chain, a request for one cluster's worth of bytes adds exactly one cluster. */
  lemma NeededAtBoundary(k: nat, cb: nat)
    requires ClusterSize(cb) && k > 0
    ensures k * cb > 0 && Needed(k * cb, cb, cb) == 1
  {
    MultipleMod(k, cb);
    MulAtLeast(k, cb);
  }

  /** A chain with room has exactly size / cb + 1 clusters. */
  lemma RoomExact(k: nat, size: nat, cb: nat)
    requires cb > 0 && k > 0 && Fits(k, size, cb) && HasRoom(k, size, cb)
    ensures k == size / cb + 1
  {
    var q := k - 1;
    assert k * cb == q * cb + cb;
    DivModUnique(size, q, size - q * cb, cb);
  }

  /** The clusters of a file that is ready for its next byte: none while it is empty. */
  function ClustersFor(size: nat, cb: nat): nat
    requires cb > 0
  {
    if size == 0 then 0 else size / cb + 1
  }

  /** What expand_file asks for is what the grown file needs, short by the one cluster that
      move_file_pos adds when the last byte fills the chain. */
  lemma NeededTotal(k: nat, size: nat, incr: nat, cb: nat)
    requires cb > 0 && incr > 0
    requires if k == 0 then size == 0 else size > 0 && Fits(k, size, cb) && HasRoom(k, size, cb)
    ensures var n := k + Needed(size, incr, cb);
            && n > 0 && Fits(n, size + incr, cb)
            && ClustersFor(size + incr, cb) == if size + incr < n * cb then n else n + 1
  {
    NeededFits(k, size, incr, cb);
    var n := k + Needed(size, incr, cb);
    if size + incr < n * cb {
      RoomExact(n, size + incr, cb);
    } else {
      MultipleMod(n, cb);
    }
  }
}
