/** The copy of an address space on values. */
module CopyRelation {
  import opened Bits
  import opened Mmu
  import opened PageSpace
  import opened PageSteps
  import opened PageRelations

  const FIRST: nat := USER * 1024
  const LAST: nat := 1024 * 1024

  /** Directory d maps some page below n in directory entry i. */
  ghost predicate HasPage(a: Space, d: int, i: int, n: int) {
    exists w :: i * 1024 <= w < (i + 1) * 1024 && w < n && Present(a.Pte(d, w))
  }

  /** The frames that the copies of the user pages below n take: one for each page and one for the
      table of its first page. */
  ghost function Need(a: Space, d: int, n: nat): nat {
    if n <= FIRST then 0
    else Need(a, d, n - 1)
         + if !Present(a.Pte(d, n - 1)) then 0 else if HasPage(a, d, (n - 1) / 1024, n - 1) then 1 else 2
  }

  /** Page u of c is a copy of page u of d if u < n, and is not mapped otherwise. */
  ghost predicate PageCopied(a: Space, b: Space, d: int, c: int, n: int, u: int) {
    if u < n && Present(a.Pte(d, u)) then
      && Present(b.Pte(c, u)) && b.Pte(c, u) % PAGE == a.Pte(d, u) % 1024
      && Index(b.Pte(c, u)) !in a.owner
      && 0 <= Index(b.Pte(c, u)) < |b.mem| && 0 <= Index(a.Pte(d, u)) < |a.mem|
      && b.mem[Index(b.Pte(c, u))] == a.mem[Index(a.Pte(d, u))]
    else !Present(b.Pte(c, u))
  }

  /** From a to b, the pages of d below n were copied to the new directory c, and nothing that was
      there before changed: no translation, no owner, no content of a page. */
  ghost predicate Copied(a: Space, b: Space, d: int, c: int, n: nat) {
    && |b.mem| == |a.mem| && c !in a.owner && b.IsDir(c)
    && (forall e, u :: a.IsDir(e) && UserPage(u) ==> b.IsDir(e) && b.Pte(e, u) == a.Pte(e, u))
    && (forall u :: UserPage(u) ==> PageCopied(a, b, d, c, n, u))
    && (forall i :: USER <= i < 1024 ==> (Present(b.Ent(c, i)) <==> HasPage(a, d, i, n)))
    && (forall x :: x in a.owner ==> b.Owns(x, a.owner[x]))
    && (forall x :: x in b.owner && x !in a.owner ==> PartOf(b, x, c))
    && (forall x :: x in a.owner && !a.IsDir(x) && !a.IsTable(x) && 0 <= x < |a.mem| ==> b.mem[x] == a.mem[x])
    && |b.owner| == |a.owner| + 1 + Need(a, d, n)
  }

  lemma {:induction false} NeedMono(a: Space, d: int, k: nat, n: nat)
    requires k <= n
    ensures Need(a, d, k) <= Need(a, d, n)
    decreases n
  {
    if k < n {
      NeedMono(a, d, k, n - 1);
    }
  }

  lemma NeedNext(a: Space, d: int, n: nat)
    requires n >= FIRST
    ensures Need(a, d, n + 1) == Need(a, d, n) + if !Present(a.Pte(d, n)) then 0
            else if HasPage(a, d, n / 1024, n) then 1 else 2
    ensures Need(a, d, FIRST) == 0
  {
  }

  lemma HasNext(a: Space, d: int, i: int, n: nat)
    ensures HasPage(a, d, i, n + 1) <==> HasPage(a, d, i, n) || (i == n / 1024 && Present(a.Pte(d, n)))
  {
    hide Space.Pte, Present;
    if i == n / 1024 && Present(a.Pte(d, n)) {
      assert i * 1024 <= n < (i + 1) * 1024;
    }
  }

  /** The state right after memory_create_uvm. */
  lemma CopyStart(a: Space, kdir: seq<nat>, d: int, c: nat, f: Frame)
    requires Wf(a, kdir) && a.IsDir(d) && c < |a.mem| && c !in a.owner && Fresh(f, kdir)
    ensures Copied(a, NewDir(a, c, f), d, c, FIRST)
  {
    hide Wf, Present, Index, Space.Ent, Space.Pte, HasPage, Fresh, Word;
    var b := NewDir(a, c, f);
    NewDirWf(a, kdir, c, f);
    NotPresent();
    NeedNext(a, d, FIRST);
    AddKey(a.owner, c, Dir);
    forall i | USER <= i < 1024
      ensures !Present(b.Ent(c, i)) && !HasPage(a, d, i, FIRST)
    {
      PageIndex(i, 0);
      NewDirPte(a, kdir, c, f, d, i * 1024);
      NoneBelow(a, d, i);
    }
    forall x | x in a.owner && !a.IsDir(x) && !a.IsTable(x) && 0 <= x < |a.mem|
      ensures b.mem[x] == a.mem[x]
    {
    }
  }

  lemma NoneBelow(a: Space, d: int, i: int)
    requires i >= USER
    ensures !HasPage(a, d, i, FIRST)
  {
  }

  /** A page that is not mapped is not copied. */
  lemma CopySkip(a: Space, b: Space, d: int, c: int, n: nat)
    requires Copied(a, b, d, c, n) && n >= FIRST && !Present(a.Pte(d, n))
    ensures Copied(a, b, d, c, n + 1)
  {
    hide Space.Pte, Space.Ent, Present, Index, HasPage, Need, PartOf;
    NeedNext(a, d, n);
    forall i | USER <= i < 1024
      ensures Present(b.Ent(c, i)) <==> HasPage(a, d, i, n + 1)
    {
      HasNext(a, d, i, n);
    }
    forall u | UserPage(u)
      ensures PageCopied(a, b, d, c, n + 1, u)
    {
      assert PageCopied(a, b, d, c, n, u);
    }
  }

  /** The new frame p is allocated, mapped at n of c, and filled from the frame of n of d. */
  lemma CopyPage(a: Space, b: Space, g: Space, kdir: seq<nat>, d: int, c: nat, n: nat, p: nat)
    requires Copied(a, b, d, c, n) && Wf(a, kdir) && Wf(b, kdir) && a.IsDir(d) && UserPage(n) && Present(a.Pte(d, n))
    requires p < |b.mem| && p !in b.owner && Grown(Take(b, p), g, c, n, p, 1, a.Pte(d, n) % 1024) && Wf(g, kdir)
    requires |g.owner| == |Take(b, p).owner| + Missing(Take(b, p), c, n, 1)
    ensures 0 <= Index(a.Pte(d, n)) < |a.mem| && Copied(a, Store(g, p, b.mem[Index(a.Pte(d, n))]), d, c, n + 1)
    ensures Wf(Store(g, p, b.mem[Index(a.Pte(d, n))]), kdir) && b.mem[Index(a.Pte(d, n))] == a.mem[Index(a.Pte(d, n))]
  {
    hide *;
    WfParts(a, kdir);
    SourcePage(a, kdir, d, n);
    CopiedParts(a, b, d, c, n);
    var s := Index(a.Pte(d, n));
    assert b.mem[s] == a.mem[s];
    GrownParts(b, g, c, n, p, a.Pte(d, n) % 1024);
    UserIndex(n);
    var r := Store(g, p, b.mem[s]);
    StoreWf(g, kdir, p, b.mem[s]);
    StoreParts(g, kdir, p, b.mem[s]);
    NeedStep(a, b, d, c, n, p, g);
    CopiedEntries(a, b, g, r, d, c, n, p, kdir);
    CopiedMaps(a, b, g, r, c, n, p, a.Pte(d, n) % 1024);
    forall u | UserPage(u)
      ensures PageCopied(a, r, d, c, n + 1, u)
    {
      CopiedPage(a, b, g, r, kdir, d, c, n, p, u);
    }
    CopiedFrames(a, b, g, r, d, c, n, p);
    MakeCopied(a, r, d, c, n + 1);
  }

  lemma SourcePage(a: Space, kdir: seq<nat>, d: int, n: nat)
    requires Wf(a, kdir) && a.IsDir(d) && UserPage(n) && Present(a.Pte(d, n))
    ensures var s := Index(a.Pte(d, n)); 0 <= s < |a.mem| && s in a.owner && !a.IsDir(s) && !a.IsTable(s) && n >= FIRST
  {
    hide Present, Index, Space.Pte, Space.Ent;
    WalkOwned(a, kdir, d, n);
  }

  lemma CopiedParts(a: Space, b: Space, d: int, c: int, n: nat)
    requires Copied(a, b, d, c, n)
    ensures |b.mem| == |a.mem| && c !in a.owner && b.IsDir(c)
    ensures forall e, u :: a.IsDir(e) && UserPage(u) ==> b.IsDir(e) && b.Pte(e, u) == a.Pte(e, u)
    ensures forall u :: UserPage(u) ==> PageCopied(a, b, d, c, n, u)
    ensures forall i :: USER <= i < 1024 ==> (Present(b.Ent(c, i)) <==> HasPage(a, d, i, n))
    ensures forall x :: x in a.owner ==> b.Owns(x, a.owner[x]) && x in b.owner
    ensures forall x :: x in b.owner && x !in a.owner ==> PartOf(b, x, c)
    ensures forall x :: x in a.owner && !a.IsDir(x) && !a.IsTable(x) && 0 <= x < |a.mem| ==> b.mem[x] == a.mem[x]
    ensures |b.owner| == |a.owner| + 1 + Need(a, d, n)
  {
  }

  lemma MakeCopied(a: Space, b: Space, d: int, c: int, n: nat)
    requires |b.mem| == |a.mem| && c !in a.owner && b.IsDir(c)
    requires forall e, u :: a.IsDir(e) && UserPage(u) ==> b.IsDir(e) && b.Pte(e, u) == a.Pte(e, u)
    requires forall u :: UserPage(u) ==> PageCopied(a, b, d, c, n, u)
    requires forall i :: USER <= i < 1024 ==> (Present(b.Ent(c, i)) <==> HasPage(a, d, i, n))
    requires forall x :: x in a.owner ==> b.Owns(x, a.owner[x])
    requires forall x :: x in b.owner && x !in a.owner ==> PartOf(b, x, c)
    requires forall x :: x in a.owner && !a.IsDir(x) && !a.IsTable(x) && 0 <= x < |a.mem| ==> b.mem[x] == a.mem[x]
    requires |b.owner| == |a.owner| + 1 + Need(a, d, n)
    ensures Copied(a, b, d, c, n)
  {
    hide Space.Pte, Space.Ent, Present, HasPage, Need, PageCopied, PartOf;
  }

  /** Taking p and mapping it at n of c, in one step. */
  lemma GrownParts(b: Space, g: Space, c: nat, n: nat, p: nat, low: nat)
    requires p !in b.owner && p < |b.mem| && Grown(Take(b, p), g, c, n, p, 1, low)
    ensures |g.mem| == |b.mem| && (forall e :: b.IsDir(e) <==> g.IsDir(e)) && g.Owns(p, Page(c, n))
    ensures forall e, u :: b.IsDir(e) && UserPage(u) ==>
              g.Pte(e, u) == if e == c && u == n then Addr(p) + low else b.Pte(e, u)
    ensures forall e, i :: b.IsDir(e) && USER <= i < 1024 ==>
              (Present(g.Ent(e, i)) <==> Present(b.Ent(e, i)) || (e == c && i == n / 1024))
    ensures forall x :: x in b.owner ==> g.Owns(x, b.owner[x])
    ensures forall x :: x in g.owner && x !in b.owner && x != p ==> g.IsTable(x) && g.owner[x].d == c
    ensures forall x :: x in b.owner && !b.IsDir(x) && !b.IsTable(x) && 0 <= x < |b.mem| ==> g.mem[x] == b.mem[x]
    ensures !g.IsDir(p) && !g.IsTable(p)
  {
    hide Space.Pte, Space.Ent, Present, Index, Addr;
    var t := Take(b, p);
    forall e
      ensures b.IsDir(e) <==> g.IsDir(e)
    {
      assert t.IsDir(e) <==> b.IsDir(e);
    }
    SameOwner(b, t);
    SamePte(b, t);
    assert t.Owns(p, Single);
    forall x | x in b.owner
      ensures g.Owns(x, b.owner[x])
    {
      assert t.Owns(x, b.owner[x]);
    }
    forall e, u | b.IsDir(e) && UserPage(u)
      ensures g.Pte(e, u) == if e == c && u == n then Addr(p) + low else b.Pte(e, u)
    {
      assert t.IsDir(e);
    }
    forall e, i | b.IsDir(e) && USER <= i < 1024
      ensures Present(g.Ent(e, i)) <==> Present(b.Ent(e, i)) || (e == c && i == n / 1024)
    {
      assert t.IsDir(e);
      TouchesOne(n, i);
    }
    forall x | x in b.owner && !b.IsDir(x) && !b.IsTable(x) && 0 <= x < |b.mem|
      ensures g.mem[x] == b.mem[x]
    {
      assert !t.IsDir(x) && !t.IsTable(x);
    }
  }

  lemma StoreParts(g: Space, kdir: seq<nat>, p: nat, f: Frame)
    requires Wf(g, kdir) && p < |g.mem| && !g.IsDir(p) && !g.IsTable(p)
    ensures var r := Store(g, p, f);
            && r.owner == g.owner && |r.mem| == |g.mem| && r.mem[p] == f
            && (forall x :: 0 <= x < |g.mem| && x != p ==> r.mem[x] == g.mem[x])
            && (forall e, u :: g.IsDir(e) && UserPage(u) ==> r.Pte(e, u) == g.Pte(e, u))
            && (forall e, i :: g.IsDir(e) ==> r.Ent(e, i) == g.Ent(e, i))
  {
    hide Wf, Space.Ent, Space.Pte, Present, Index;
    EntFrame(g.mem, g.owner, g.owner, p, f);
    SameOwner(g, Space(g.mem, g.owner));
    StoreWf(g, kdir, p, f);
  }

  lemma NeedStep(a: Space, b: Space, d: int, c: nat, n: nat, p: nat, g: Space)
    requires n >= FIRST && UserPage(n) && Present(a.Pte(d, n)) && p !in b.owner
    requires |b.owner| == |a.owner| + 1 + Need(a, d, n) && (Present(b.Ent(c, n / 1024)) <==> HasPage(a, d, n / 1024, n))
    requires |g.owner| == |Take(b, p).owner| + Missing(Take(b, p), c, n, 1)
    ensures |g.owner| == |a.owner| + 1 + Need(a, d, n + 1)
  {
    hide HasPage, Need, Missing, Space.Pte, Space.Ent, Present;
    NeedNext(a, d, n);
    MissingOne(Take(b, p), c, n);
    SameOwner(b, Take(b, p));
    AddKey(b.owner, p, Single);
  }

  lemma CopiedMaps(a: Space, b: Space, g: Space, r: Space, c: nat, n: nat, p: nat, low: nat)
    requires c !in a.owner && r.owner == g.owner && forall e :: b.IsDir(e) <==> g.IsDir(e)
    requires forall e, u :: a.IsDir(e) && UserPage(u) ==> b.IsDir(e) && b.Pte(e, u) == a.Pte(e, u)
    requires forall e, u :: b.IsDir(e) && UserPage(u) ==>
               g.Pte(e, u) == if e == c && u == n then Addr(p) + low else b.Pte(e, u)
    requires forall e, u :: g.IsDir(e) && UserPage(u) ==> r.Pte(e, u) == g.Pte(e, u)
    ensures forall e, u :: a.IsDir(e) && UserPage(u) ==> r.IsDir(e) && r.Pte(e, u) == a.Pte(e, u)
  {
    hide Space.Pte;
  }

  lemma CopiedEntries(a: Space, b: Space, g: Space, r: Space, d: int, c: nat, n: nat, p: nat, kdir: seq<nat>)
    requires UserPage(n) && Present(a.Pte(d, n)) && b.IsDir(c) && g.IsDir(c)
    requires forall i :: USER <= i < 1024 ==> (Present(b.Ent(c, i)) <==> HasPage(a, d, i, n))
    requires forall e, i :: b.IsDir(e) && USER <= i < 1024 ==>
               (Present(g.Ent(e, i)) <==> Present(b.Ent(e, i)) || (e == c && i == n / 1024))
    requires forall e, i :: g.IsDir(e) ==> r.Ent(e, i) == g.Ent(e, i)
    ensures forall i :: USER <= i < 1024 ==> (Present(r.Ent(c, i)) <==> HasPage(a, d, i, n + 1))
  {
    hide HasPage, Space.Pte, Space.Ent, Present;
    forall i | USER <= i < 1024
      ensures Present(r.Ent(c, i)) <==> HasPage(a, d, i, n + 1)
    {
      HasNext(a, d, i, n);
    }
  }

  lemma CopiedPage(a: Space, b: Space, g: Space, r: Space, kdir: seq<nat>, d: int, c: nat, n: nat, p: nat, u: int)
    requires UserPage(u) && UserPage(n) && PageCopied(a, b, d, c, n, u) && Wf(b, kdir) && b.IsDir(c) && g.IsDir(c)
    requires Present(a.Pte(d, n))
    requires |g.mem| == |b.mem| == |r.mem| == |a.mem| && p < |b.mem| && p !in b.owner
    requires forall x :: x in a.owner ==> x in b.owner
    requires g.Pte(c, u) == (if u == n then Addr(p) + a.Pte(d, n) % 1024 else b.Pte(c, u)) && r.Pte(c, u) == g.Pte(c, u)
    requires 0 <= Index(a.Pte(d, n)) < |a.mem| && r.mem[p] == a.mem[Index(a.Pte(d, n))]
    requires forall x :: x in b.owner && !b.IsDir(x) && !b.IsTable(x) && 0 <= x < |b.mem| ==> g.mem[x] == b.mem[x]
    requires forall x :: 0 <= x < |g.mem| && x != p ==> r.mem[x] == g.mem[x]
    ensures PageCopied(a, r, d, c, n + 1, u)
  {
    hide Wf, Space.Pte, Space.Ent, Present, Index, Addr;
    if u == n {
      CopyEntry(p, a.Pte(d, n));
    } else if u < n && Present(a.Pte(d, u)) {
      WalkOwned(b, kdir, c, u);
    }
  }

  lemma CopyEntry(p: nat, e: nat)
    requires Present(e)
    ensures var w := Addr(p) + e % 1024; Present(w) && Index(w) == p && w % PAGE == e % 1024
  {
    IndexOfAddr(p, e % 1024);
    OddEntry(p, e % 1024);
  }

  lemma CopiedFrames(a: Space, b: Space, g: Space, r: Space, d: int, c: nat, n: nat, p: nat)
    requires forall x :: x in a.owner ==> b.Owns(x, a.owner[x])
    requires forall x :: x in b.owner ==> g.Owns(x, b.owner[x])
    requires forall x :: x in b.owner && x !in a.owner ==> PartOf(b, x, c)
    requires forall x :: x in g.owner && x !in b.owner && x != p ==> g.IsTable(x) && g.owner[x].d == c
    requires g.Owns(p, Page(c, n)) && p !in b.owner && r.owner == g.owner && |r.mem| == |g.mem| == |b.mem| == |a.mem|
    requires forall x :: x in a.owner && !a.IsDir(x) && !a.IsTable(x) && 0 <= x < |a.mem| ==> b.mem[x] == a.mem[x]
    requires forall x :: x in b.owner && !b.IsDir(x) && !b.IsTable(x) && 0 <= x < |b.mem| ==> g.mem[x] == b.mem[x]
    requires forall x :: 0 <= x < |g.mem| && x != p ==> r.mem[x] == g.mem[x]
    requires forall e :: b.IsDir(e) <==> g.IsDir(e)
    ensures forall x :: x in a.owner ==> r.Owns(x, a.owner[x])
    ensures forall x :: x in r.owner && x !in a.owner ==> PartOf(r, x, c)
    ensures forall x :: x in a.owner && !a.IsDir(x) && !a.IsTable(x) && 0 <= x < |a.mem| ==> r.mem[x] == a.mem[x]
    ensures b.IsDir(c) ==> r.IsDir(c)
    ensures forall e :: b.IsDir(e) ==> r.IsDir(e) && g.IsDir(e)
  {
    forall x | x in r.owner && x !in a.owner
      ensures PartOf(r, x, c)
    {
      if x in b.owner {
        assert PartOf(b, x, c);
      }
    }
  }

  /** Destroying a copy, finished or not, gives back exactly the frames it took. */
  lemma DestroyCopied(a: Space, b: Space, kdir: seq<nat>, d: int, c: nat, n: nat)
    requires Copied(a, b, d, c, n) && Wf(a, kdir)
    ensures Destroy(b, c).owner == a.owner
  {
    hide Space.Pte, Space.Ent, Present, Index, HasPage, Need, PageCopied;
    forall x | x in a.owner
      ensures !PartOf(b, x, c)
    {
      assert b.Owns(x, a.owner[x]);
      if a.IsTable(x) {
        TableIs(a, kdir, x);
      } else if a.IsPage(x) {
        PageIs(a, kdir, x);
      }
    }
    var r := Destroy(b, c);
    assert forall x :: x in r.owner <==> x in a.owner;
    assert forall x :: x in r.owner ==> r.owner[x] == a.owner[x];
  }

  /** The same with one more frame allocated. */
  lemma DestroyTaken(a: Space, b: Space, kdir: seq<nat>, d: int, c: nat, n: nat, p: nat)
    requires Copied(a, b, d, c, n) && Wf(a, kdir) && p !in b.owner
    ensures Destroy(Take(b, p), c).owner == a.owner[p := Single] && p !in a.owner
  {
    hide Space.Pte, Space.Ent, Present, Index, HasPage, Need, PageCopied, Wf;
    DestroyCopied(a, b, kdir, d, c, n);
    var r, s := Destroy(Take(b, p), c), Destroy(b, c);
    assert b.IsDir(c) && p != c;
    forall x
      ensures x in r.owner <==> x in a.owner || x == p
    {
      assert x in s.owner <==> x in b.owner && !PartOf(b, x, c);
    }
    assert forall x :: x in a.owner ==> b.Owns(x, a.owner[x]);
    assert forall x :: x in r.owner && x != p ==> r.owner[x] == s.owner[x];
  }
}
