/** The FAT16 allocation table as a sequence of 16-bit entries: reading and writing an entry,
    chains of clusters, and the specification of the allocator and of the chain freer. */
module FatTable {

  const FREE: nat := 0x0000
  const INVALID: nat := 0xFFF8

  predicate ClusterIsValid(c: nat) {
    2 <= c < 0xFFF8
  }

  /** A valid cluster number that has an entry in the table. */
  predicate InTable(t: seq<nat>, c: nat) {
    ClusterIsValid(c) && c < |t|
  }

  function Next(t: seq<nat>, c: nat): nat {
    if InTable(t, c) then t[c] else INVALID
  }

  function Set(t: seq<nat>, c: nat, v: nat): seq<nat> {
    if InTable(t, c) then t[c := v] else t
  }

  // ---------------------------------------------------------------- freeing a chain

  /** The number of entries that are not free: the measure that bounds every chain walk. */
  ghost function UsedCount(t: seq<nat>): nat {
    if t == [] then 0 else UsedCount(t[..|t| - 1]) + (if t[|t| - 1] != FREE then 1 else 0)
  }

  lemma {:induction false} UsedCountSet(t: seq<nat>, c: nat)
    requires c < |t|
    ensures t[c] != FREE ==> UsedCount(t[c := FREE]) == UsedCount(t) - 1
  {
    var n := |t| - 1;
    if c < n {
      UsedCountSet(t[..n], c);
      assert t[c := FREE][..n] == t[..n][c := FREE];
    } else {
      assert t[c := FREE][..n] == t[..n];
    }
  }

  /** What cluster_free_chain makes of the table, step by step. */
  ghost function FreeChain(t: seq<nat>, start: nat): (r: seq<nat>)
    ensures |r| == |t|
    decreases UsedCount(t), ClusterIsValid(start)
  {
    if !ClusterIsValid(start) then t
    else
      if start < |t| then
        UsedCountSet(t, start);
        assert t[start] == FREE ==> t[start := FREE] == t;
        FreeChain(t[start := FREE], t[start])
      else FreeChain(t, INVALID)
  }

  /** One step of the freer, and why the walk ends. */
  lemma FreeChainStep(t: seq<nat>, start: nat)
    ensures FREE < 0x1_0000
    ensures !ClusterIsValid(start) ==> FreeChain(t, start) == t
    ensures ClusterIsValid(start) ==>
              var t', next := Set(t, start, FREE), Next(t, start);
              && FreeChain(t, start) == FreeChain(t', next)
              && (UsedCount(t') < UsedCount(t) || (UsedCount(t') == UsedCount(t) && !ClusterIsValid(next)))
  {
    if InTable(t, start) {
      UsedCountSet(t, start);
      assert t[start] == FREE ==> t[start := FREE] == t;
    }
  }

  /** p follows the entries of t, all inside the table. */
  ghost predicate IsPath(t: seq<nat>, p: seq<nat>) {
    && p != []
    && (forall i :: 0 <= i < |p| ==> InTable(t, p[i]))
    && (forall i, j {:trigger p[i], p[j]} :: 0 <= i < |p| - 1 && j == i + 1 ==> t[p[i]] == p[j])
  }

  ghost predicate PathBetween(t: seq<nat>, p: seq<nat>, s: nat, c: nat) {
    IsPath(t, p) && p[0] == s && p[|p| - 1] == c
  }

  ghost predicate Reaches(t: seq<nat>, s: nat, c: nat) {
    exists p :: PathBetween(t, p, s, c)
  }

  /** On every table, cyclic and corrupt ones included, the freer frees exactly the clusters
      that can be reached from the start. */
  lemma {:induction false} FreeChainExact(t: seq<nat>, start: nat, c: nat)
    requires c < |t|
    ensures FreeChain(t, start)[c] == if Reaches(t, start, c) then 0 else t[c]
    decreases UsedCount(t), ClusterIsValid(start)
  {
    if InTable(t, start) {
      UsedCountSet(t, start);
      assert t[start] == FREE ==> t[start := FREE] == t;
      FreeChainExact(t[start := FREE], t[start], c);
      ReachesStep(t, start, c);
    }
  }

  lemma ReachesStep(t: seq<nat>, s: nat, c: nat)
    requires InTable(t, s)
    ensures Reaches(t, s, c) <==> c == s || Reaches(t[s := FREE], t[s], c)
  {
    if c == s {
      assert PathBetween(t, [s], s, c);
    }
    if Reaches(t[s := FREE], t[s], c) {
      var p :| PathBetween(t[s := FREE], p, t[s], c);
      ExtendPath(t, p, s, c);
    }
    if Reaches(t, s, c) && c != s {
      var p :| PathBetween(t, p, s, c);
      CutPath(t, p, s, c);
    }
  }

  lemma ExtendPath(t: seq<nat>, p: seq<nat>, s: nat, c: nat)
    requires InTable(t, s) && PathBetween(t[s := FREE], p, t[s], c)
    ensures Reaches(t, s, c)
  {
    var q := [s] + p;
    forall i | 0 <= i < |q| - 1
      ensures t[q[i]] == q[i + 1]
    {
      if i > 0 {
        assert t[s := FREE][p[i - 1]] == p[i] && InTable(t, p[i]);
      }
    }
    assert PathBetween(t, q, s, c);
  }

  /** The part of a path after its last visit of s survives freeing s. */
  lemma {:induction false} CutPath(t: seq<nat>, p: seq<nat>, s: nat, c: nat)
    requires InTable(t, s) && PathBetween(t, p, s, c) && c != s
    ensures Reaches(t[s := FREE], t[s], c)
    decreases |p|
  {
    var q := p[1..];
    if k :| 0 <= k < |q| && q[k] == s {
      CutPath(t, q[k..], s, c);
    } else {
      assert PathBetween(t[s := FREE], q, t[s], c);
    }
  }

  // ---------------------------------------------------------------- chains

  ghost predicate Distinct(ch: seq<nat>) {
    forall i, j :: 0 <= i < j < |ch| ==> ch[i] != ch[j]
  }

  /** The entries of ch link it together, ending with the value `end`. */
  ghost predicate Links(t: seq<nat>, ch: seq<nat>, end: nat) {
    && Distinct(ch)
    && (forall i :: 0 <= i < |ch| ==> InTable(t, ch[i]))
    && (forall i, j {:trigger ch[i], ch[j]} :: 0 <= i < |ch| - 1 && j == i + 1 ==> t[ch[i]] == ch[j])
    && (ch != [] ==> t[ch[|ch| - 1]] == end)
  }

  ghost predicate SameOutside(t: seq<nat>, t': seq<nat>, ch: seq<nat>) {
    |t'| == |t| && forall c :: 0 <= c < |t| && c !in ch ==> t'[c] == t[c]
  }

  ghost predicate AllFree(t: seq<nat>, ch: seq<nat>) {
    |t| < 0x1_0000 && forall c :: c in ch ==> InTable(t, c) && t[c] == FREE
  }

  /** The freer turns a proper chain into free entries and touches nothing else. */
  lemma {:induction false} FreeChainOfChain(t: seq<nat>, ch: seq<nat>, end: nat)
    requires Links(t, ch, end) && ch != [] && !ClusterIsValid(end)
    ensures var r := FreeChain(t, ch[0]);
            SameOutside(t, r, ch) && forall c :: c in ch ==> InTable(t, c) && r[c] == FREE
    decreases |ch|
  {
    var t' := t[ch[0] := FREE];
    var rest := ch[1..];
    assert ch == [ch[0]] + rest;
    if rest == [] {
      assert FreeChain(t, ch[0]) == FreeChain(t', end) == t';
    } else {
      assert Links(t', rest, end);
      FreeChainOfChain(t', rest, end);
      assert FreeChain(t, ch[0]) == FreeChain(t', rest[0]);
    }
  }

  /** Undoing a half-built chain restores the table it was built on. */
  lemma FreeUndoesLink(t: seq<nat>, t': seq<nat>, ch: seq<nat>, end: nat)
    requires Links(t', ch, end) && ch != [] && !ClusterIsValid(end)
    requires SameOutside(t, t', ch) && AllFree(t, ch)
    ensures FreeChain(t', ch[0]) == t
  {
    FreeChainOfChain(t', ch, end);
    var r := FreeChain(t', ch[0]);
    forall c | 0 <= c < |t|
      ensures r[c] == t[c]
    {
      if c in ch {
        assert t[c] == FREE;
      }
    }
    assert r == t;
  }

  // ---------------------------------------------------------------- free clusters

  /** The free clusters below n, in ascending order. */
  ghost function FreeBelow(t: seq<nat>, n: nat): (f: seq<nat>)
    requires n <= |t|
  {
    if n <= 2 then []
    else FreeBelow(t, n - 1) + (if t[n - 1] == FREE then [n - 1] else [])
  }

  ghost function FreeList(t: seq<nat>): seq<nat> {
    FreeBelow(t, |t|)
  }

  ghost function FreeCount(t: seq<nat>): nat {
    |FreeList(t)|
  }

  ghost predicate Ascending(s: seq<nat>) {
    forall i, j :: 0 <= i < j < |s| ==> s[i] < s[j]
  }

  lemma {:induction false} FreeBelowExact(t: seq<nat>, n: nat)
    requires n <= |t|
    ensures Ascending(FreeBelow(t, n))
    ensures forall c :: c in FreeBelow(t, n) <==> 2 <= c < n && t[c] == FREE
    decreases n
  {
    if n > 2 {
      FreeBelowExact(t, n - 1);
      var f := FreeBelow(t, n - 1);
      assert forall i :: 0 <= i < |f| ==> f[i] in f;
      forall c
        ensures c in FreeBelow(t, n) <==> 2 <= c < n && t[c] == FREE
      {
        assert c in FreeBelow(t, n) <==> c in FreeBelow(t, n - 1) || (t[n - 1] == FREE && c == n - 1);
      }
    }
  }

  /** The clusters that count as free: entry 0, from cluster 2 on. */
  lemma FreeListIs(t: seq<nat>)
    ensures Ascending(FreeList(t)) && forall c :: c in FreeList(t) <==> 2 <= c < |t| && t[c] == 0
  {
    FreeBelowExact(t, |t|);
  }

  lemma {:induction false} FreeBelowPrefix(t: seq<nat>, m: nat, n: nat)
    requires m <= n <= |t|
    ensures FreeBelow(t, m) <= FreeBelow(t, n)
    decreases n
  {
    if m < n {
      FreeBelowPrefix(t, m, n - 1);
    }
  }

  /** The first k free clusters are the k lowest ones. */
  lemma LowestFree(t: seq<nat>, k: nat, c: nat)
    requires k <= FreeCount(t) && 2 <= c < |t| && t[c] == FREE && c !in FreeList(t)[..k]
    ensures forall x :: x in FreeList(t)[..k] ==> x < c
  {
    FreeBelowExact(t, |t|);
    var f := FreeList(t);
    var i :| 0 <= i < |f| && f[i] == c;
    assert forall j :: 0 <= j < k ==> f[..k][j] == f[j] && f[..k][j] in f[..k];
  }

  /** The k lowest free clusters are in use now, every other entry is as free as before. */
  ghost predicate TookLowest(t: seq<nat>, t': seq<nat>, k: nat) {
    && k <= FreeCount(t) && |t'| == |t|
    && forall c :: 2 <= c < |t| ==> (t'[c] == FREE <==> t[c] == FREE && c !in FreeList(t)[..k])
  }

  /** Taking the k lowest free clusters leaves the others free, in the same order. */
  lemma FreeListAfterTake(t: seq<nat>, t': seq<nat>, k: nat)
    requires TookLowest(t, t', k)
    ensures FreeList(t') == FreeList(t)[k..]
  {
    FreeBelowAfterTake(t, t', k, |t|);
  }

  lemma {:induction false} FreeBelowAfterTake(t: seq<nat>, t': seq<nat>, k: nat, n: nat)
    requires TookLowest(t, t', k) && n <= |t|
    ensures var f := FreeBelow(t, n);
            FreeBelow(t', n) == if |f| <= k then [] else f[k..]
    decreases n
  {
    if n > 2 {
      FreeBelowAfterTake(t, t', k, n - 1);
      FreeBelowRank(t, n, k);
    }
  }

  /** A free cluster is among the k lowest exactly when fewer than k free ones precede it. */
  lemma FreeBelowRank(t: seq<nat>, n: nat, k: nat)
    requires k <= FreeCount(t) && 2 < n <= |t|
    ensures t[n - 1] == FREE ==> (n - 1 in FreeList(t)[..k] <==> |FreeBelow(t, n - 1)| < k)
  {
    var f := FreeList(t);
    FreeBelowExact(t, |t|);
    if t[n - 1] == FREE {
      FreeBelowPrefix(t, n, |t|);
      var i := |FreeBelow(t, n - 1)|;
      assert f[i] == n - 1;
      if i < k {
        assert f[..k][i] == n - 1;
      }
    }
  }
}
