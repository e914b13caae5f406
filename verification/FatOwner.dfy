/** Who owns which cluster: the chains of all files of a volume, kept disjoint and complete by
    every operation, so that no cluster leaks and no two files are cross-linked. */
module FatOwner {
  import opened Bytes
  import opened FatTable
  import opened FatDisk
  import opened FatContent
  import opened FatFile
  import opened FatIO

  /** A file: its clusters and the bytes it holds. */
  datatype Rec = Rec(ch: seq<nat>, text: seq<byte>)

  ghost predicate RecOk(v: Volume, cb: nat, r: Rec) {
    && cb > 0 && Links(v.tbl, r.ch, INVALID) && Holds(v, cb, r.ch, r.text)
    && if r.ch == [] then r.text == [] else r.text != [] && Fits(|r.ch|, |r.text|, cb)
  }

  ghost predicate NoShare(a: seq<nat>, b: seq<nat>) {
    forall c :: c in a ==> c !in b
  }

  ghost predicate Disjoint(files: map<nat, Rec>) {
    forall i, j :: i in files && j in files && i != j ==> NoShare(files[i].ch, files[j].ch)
  }

  ghost predicate InSome(files: map<nat, Rec>, c: nat) {
    exists i :: i in files && c in files[i].ch
  }

  /** The used entries are those of the files' chains and of the clusters that belong to none. */
  ghost predicate Complete(t: seq<nat>, files: map<nat, Rec>, foreign: set<nat>) {
    && (forall c :: c in foreign ==> 2 <= c < |t| && !InSome(files, c))
    && (forall c :: 2 <= c < |t| ==> (t[c] != FREE <==> c in foreign || InSome(files, c)))
  }

  ghost predicate Owned(v: Volume, cb: nat, files: map<nat, Rec>, foreign: set<nat>) {
    && (forall i :: i in files ==> RecOk(v, cb, files[i]))
    && Disjoint(files)
    && Complete(v.tbl, files, foreign)
  }

  // ---------------------------------------------------------------- frame

  lemma LinksSame(t: seq<nat>, t': seq<nat>, ch: seq<nat>, outside: seq<nat>)
    requires Links(t, ch, INVALID) && SameOutside(t, t', outside) && NoShare(outside, ch)
    ensures Links(t', ch, INVALID)
  {
    forall i | 0 <= i < |ch|
      ensures t'[ch[i]] == t[ch[i]]
    {
      assert ch[i] in ch;
    }
  }

  lemma RecSame(v: Volume, v': Volume, cb: nat, r: Rec, outside: seq<nat>)
    requires RecOk(v, cb, r) && NoShare(outside, r.ch)
    requires SameOutside(v.tbl, v'.tbl, outside) && SameOutsideData(v.data, v'.data, outside)
    ensures RecOk(v', cb, r)
  {
    LinksSame(v.tbl, v'.tbl, r.ch, outside);
    ConcatSame(v.data, v'.data, cb, r.ch);
  }

  // ---------------------------------------------------------------- growing one file

  /** The longer chain r has all clusters of file i, and otherwise clusters that were free. */
  ghost predicate Extends(t: seq<nat>, t': seq<nat>, files: map<nat, Rec>, i: nat, r: Rec) {
    && i in files && |t'| == |t|
    && (forall c :: c in r.ch && c !in files[i].ch ==> 2 <= c < |t| && t[c] == FREE)
    && (forall c :: c in r.ch ==> 2 <= c < |t| && t'[c] != FREE)
    && (forall c :: c in files[i].ch ==> c in r.ch)
  }

  lemma GrownExtends(t: seq<nat>, t': seq<nat>, files: map<nat, Rec>, i: nat, r: Rec, n: nat)
    requires i in files && Links(t, files[i].ch, INVALID) && Grown(t, t', files[i].ch, r.ch, n)
    ensures Extends(t, t', files, i, r) && SameOutside(t, t', r.ch)
  {
    FreePrefix(t, n);
    ChainIsUsed(t, files[i].ch);
    ChainIsUsed(t', r.ch);
  }

  /** Growing one file's chain by free clusters keeps every other file as it was. */
  lemma AppendKeeps(v: Volume, v': Volume, cb: nat, files: map<nat, Rec>, foreign: set<nat>, i: nat, r: Rec, n: nat)
    requires Owned(v, cb, files, foreign) && i in files && RecOk(v', cb, r)
    requires Grown(v.tbl, v'.tbl, files[i].ch, r.ch, n) && SameOutsideData(v.data, v'.data, r.ch)
    ensures Owned(v', cb, files[i := r], foreign)
  {
    hide RecOk, Links, Grown, Complete, Disjoint, SameOutside, SameOutsideData, Extends, NoShare;
    RecLinks(v, cb, files[i]);
    GrownExtends(v.tbl, v'.tbl, files, i, r, n);
    GrownDisjoint(v.tbl, v'.tbl, files, foreign, i, r);
    forall j | j in files && j != i
      ensures RecOk(v', cb, files[j])
    {
      RecSame(v, v', cb, files[j], r.ch);
    }
    GrownComplete(v.tbl, v'.tbl, files, foreign, i, r);
  }

  lemma RecLinks(v: Volume, cb: nat, r: Rec)
    requires RecOk(v, cb, r)
    ensures Links(v.tbl, r.ch, INVALID) && cb > 0
  {
  }

  lemma GrownDisjoint(t: seq<nat>, t': seq<nat>, files: map<nat, Rec>, foreign: set<nat>, i: nat, r: Rec)
    requires Disjoint(files) && Complete(t, files, foreign) && i in files
    requires Extends(t, t', files, i, r)
    ensures forall j :: j in files && j != i ==> NoShare(r.ch, files[j].ch) && NoShare(files[j].ch, r.ch)
    ensures Disjoint(files[i := r])
  {
    forall j, c | j in files && j != i && c in files[j].ch
      ensures c !in r.ch
    {
      assert InSome(files, c);
      assert NoShare(files[i].ch, files[j].ch);
    }
  }

  lemma ForeignNotOwned(t: seq<nat>, files: map<nat, Rec>, foreign: set<nat>, i: nat, c: nat)
    requires Complete(t, files, foreign) && c in foreign && i in files
    ensures c !in files[i].ch
  {
    assert c in files[i].ch ==> InSome(files, c);
  }

  lemma GrownComplete(t: seq<nat>, t': seq<nat>, files: map<nat, Rec>, foreign: set<nat>, i: nat, r: Rec)
    requires Complete(t, files, foreign) && Extends(t, t', files, i, r) && SameOutside(t, t', r.ch)
    ensures Complete(t', files[i := r], foreign)
  {
    var files' := files[i := r];
    forall c | 2 <= c < |t|
      ensures InSome(files', c) <==> InSome(files, c) || c in r.ch
    {
      if c in r.ch {
        assert i in files' && c in files'[i].ch;
      }
      if j :| j in files && c in files[j].ch {
        assert j in files' && c in files'[j].ch;
      }
      if j :| j in files' && c in files'[j].ch {
        assert j == i || (j in files && c in files[j].ch);
      }
    }
    forall c | c in foreign
      ensures !InSome(files', c)
    {
      assert t[c] != FREE;
      ForeignNotOwned(t, files, foreign, i, c);
    }
  }

  // ---------------------------------------------------------------- freeing one file's clusters

  /** Freeing the whole chain of one file empties it and keeps every other file as it was. */
  lemma ClearKeeps(v: Volume, v': Volume, cb: nat, files: map<nat, Rec>, foreign: set<nat>, i: nat)
    requires Owned(v, cb, files, foreign) && i in files && v' == v.(tbl := v'.tbl)
    requires SameOutside(v.tbl, v'.tbl, files[i].ch)
    requires forall c :: c in files[i].ch ==> c < |v.tbl| && v'.tbl[c] == FREE
    ensures Owned(v', cb, files - {i}, foreign)
    ensures Owned(v', cb, files[i := Rec([], [])], foreign)
  {
    hide RecOk, Links, Complete, Disjoint, SameOutside, NoShare, SameOutsideData;
    RecLinks(v, cb, files[i]);
    DisjointMinus(files, i);
    SameData(v.data, files[i].ch);
    forall j | j in files && j != i
      ensures RecOk(v', cb, files[j])
    {
      RecSame(v, v', cb, files[j], files[i].ch);
    }
    ClearComplete(v.tbl, v'.tbl, files, foreign, i);
    AddEmpty(v', cb, files - {i}, foreign, i);
    assert (files - {i})[i := Rec([], [])] == files[i := Rec([], [])];
  }

  lemma DisjointMinus(files: map<nat, Rec>, i: nat)
    requires Disjoint(files) && i in files
    ensures Disjoint(files - {i})
    ensures forall j :: j in files && j != i ==> NoShare(files[i].ch, files[j].ch)
  {
  }

  lemma SameData(data: seq<seq<byte>>, ch: seq<nat>)
    ensures SameOutsideData(data, data, ch)
  {
  }

  lemma ClearComplete(t: seq<nat>, t': seq<nat>, files: map<nat, Rec>, foreign: set<nat>, i: nat)
    requires Disjoint(files) && Complete(t, files, foreign) && i in files
    requires SameOutside(t, t', files[i].ch) && forall c :: c in files[i].ch ==> c < |t| && t'[c] == FREE
    ensures Complete(t', files - {i}, foreign)
  {
    var files' := files - {i};
    forall c | 2 <= c < |t|
      ensures InSome(files', c) <==> InSome(files, c) && c !in files[i].ch
    {
      if j :| j in files && c in files[j].ch && j != i {
        assert NoShare(files[i].ch, files[j].ch);
        assert j in files' && c in files'[j].ch;
      }
      if j :| j in files' && c in files'[j].ch {
        assert j in files && c in files[j].ch && NoShare(files[j].ch, files[i].ch);
      }
    }
    forall c | c in foreign
      ensures c !in files[i].ch && !InSome(files', c)
    {
      assert c in files[i].ch ==> InSome(files, c);
    }
  }

  lemma EmptyRec(v: Volume, cb: nat)
    requires cb > 0
    ensures RecOk(v, cb, Rec([], []))
  {
  }

  /** An empty file owns nothing. */
  lemma AddEmpty(v: Volume, cb: nat, files: map<nat, Rec>, foreign: set<nat>, i: nat)
    requires Owned(v, cb, files, foreign) && i !in files && cb > 0
    ensures Owned(v, cb, files[i := Rec([], [])], foreign)
  {
    hide RecOk, Links, Holds;
    var files' := files[i := Rec([], [])];
    EmptyRec(v, cb);
    forall c: nat
      ensures InSome(files', c) <==> InSome(files, c)
    {
      if j :| j in files && c in files[j].ch {
        assert j in files' && c in files'[j].ch;
      }
      if j :| j in files' && c in files'[j].ch {
        assert j in files && c in files[j].ch;
      }
    }
  }

  // ---------------------------------------------------------------- conservation

  ghost function Clusters(files: map<nat, Rec>): set<nat> {
    set i, c | i in files && c in files[i].ch :: c
  }

  lemma {:induction false} FreeAndUsed(t: seq<nat>, used: set<nat>, n: nat)
    requires 2 <= n <= |t| && forall c :: c in used <==> 2 <= c < n && t[c] != FREE
    ensures |FreeBelow(t, n)| + |used| == n - 2
    decreases n
  {
    if n == 2 {
      assert used == {};
    } else if t[n - 1] != FREE {
      FreeAndUsed(t, used - {n - 1}, n - 1);
    } else {
      FreeAndUsed(t, used, n - 1);
    }
  }

  /** Free clusters, clusters of files and clusters that belong to no file add up to the table,
      in every state in which the ownership invariant holds. */
  lemma Conservation(v: Volume, cb: nat, files: map<nat, Rec>, foreign: set<nat>)
    requires Owned(v, cb, files, foreign) && |v.tbl| >= 2
    ensures Clusters(files) !! foreign
    ensures FreeCount(v.tbl) + |Clusters(files)| + |foreign| == |v.tbl| - 2
  {
    var used := Clusters(files) + foreign;
    forall c
      ensures c in used <==> 2 <= c < |v.tbl| && v.tbl[c] != FREE
      ensures c in Clusters(files) ==> InSome(files, c)
    {
      if c in Clusters(files) {
        var i :| i in files && c in files[i].ch;
        ChainIsUsed(v.tbl, files[i].ch);
      }
    }
    FreeAndUsed(v.tbl, used, |v.tbl|);
    assert |used| == |Clusters(files)| + |foreign|;
  }

  lemma {:induction false} DistinctInSet(ch: seq<nat>, s: set<nat>)
    requires Distinct(ch) && forall i :: 0 <= i < |ch| ==> ch[i] in s
    ensures |ch| <= |s|
    ensures (forall c :: c in s ==> c in ch) ==> |ch| == |s|
    decreases |ch|
  {
    if ch != [] {
      var n := |ch| - 1;
      assert ch == ch[..n] + [ch[n]];
      DistinctInSet(ch[..n], s - {ch[n]});
    } else if s != {} {
      var c :| c in s;
    }
  }

  /** A file that gives up its clusters leaves that many more free ones. */
  lemma ReturnsClusters(v: Volume, v': Volume, cb: nat, files: map<nat, Rec>, foreign: set<nat>, i: nat)
    requires Owned(v, cb, files, foreign) && i in files && Owned(v', cb, files - {i}, foreign)
    requires |v'.tbl| == |v.tbl| >= 2
    ensures FreeCount(v'.tbl) == FreeCount(v.tbl) + |files[i].ch|
  {
    hide RecOk, Complete, FreeCount, NoShare, Distinct, Links;
    Conservation(v, cb, files, foreign);
    Conservation(v', cb, files - {i}, foreign);
    assert Owned(v, cb, files, foreign);
    RecLinks(v, cb, files[i]);
    ClustersMinus(files, i);
    LinksDistinct(v.tbl, files[i].ch);
    var own := set c | c in files[i].ch;
    DistinctInSet(files[i].ch, own);
  }

  lemma LinksDistinct(t: seq<nat>, ch: seq<nat>)
    requires Links(t, ch, INVALID)
    ensures Distinct(ch)
  {
  }

  lemma ClustersMinus(files: map<nat, Rec>, i: nat)
    requires Disjoint(files) && i in files
    ensures var own := set c | c in files[i].ch;
            Clusters(files) == Clusters(files - {i}) + own && Clusters(files - {i}) !! own
  {
    var rest, own := Clusters(files - {i}), set c | c in files[i].ch;
    forall c
      ensures c in Clusters(files) <==> c in rest || c in own
      ensures !(c in rest && c in own)
    {
      if c in Clusters(files) {
        var j :| j in files && c in files[j].ch;
        assert j == i || (j in files - {i} && c in (files - {i})[j].ch);
      }
      if c in rest {
        var j :| j in files - {i} && c in (files - {i})[j].ch;
        assert j in files && NoShare(files[i].ch, files[j].ch);
      }
    }
  }
}
