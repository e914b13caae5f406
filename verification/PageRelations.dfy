/** What the operations that add mappings do to the whole memory. */
module PageRelations {
  import opened Counting
  import opened Bits
  import opened Mmu
  import opened PageSpace
  import opened PageSteps

  /** Some of the n virtual pages from v on lies in directory entry i. */
  predicate Touches(v: nat, n: nat, i: int) {
    n > 0 && v / 1024 <= i <= (v + n - 1) / 1024
  }

  /** From a to b, directory d maps the n pages from v on to the n frames from q on, with the given
      low bits. Frames q.. change from allocated to mapped; the only new frames are tables of d. No
      other translation, owner or page content changes. */
  ghost predicate Grown(a: Space, b: Space, d: nat, v: nat, q: nat, n: nat, low: nat) {
    && |b.mem| == |a.mem|
    && (forall e :: a.IsDir(e) <==> b.IsDir(e))
    && (forall e, u :: a.IsDir(e) && UserPage(u) ==>
          b.Pte(e, u) == if e == d && v <= u < v + n then Addr(q + (u - v)) + low else a.Pte(e, u))
    && (forall e, i :: a.IsDir(e) && USER <= i < 1024 ==>
          (Present(b.Ent(e, i)) <==> Present(a.Ent(e, i)) || (e == d && Touches(v, n, i))))
    && (forall x :: x in a.owner ==> b.Owns(x, if q <= x < q + n then Page(d, v + (x - q)) else a.owner[x]))
    && (forall x :: x in b.owner && x !in a.owner ==> b.IsTable(x) && b.owner[x].d == d)
    && (forall x :: x in a.owner && !a.IsDir(x) && !a.IsTable(x) && 0 <= x < |a.mem| ==> b.mem[x] == a.mem[x])
  }

  lemma GrownSelf(a: Space, d: nat, v: nat, q: nat, low: nat)
    ensures Grown(a, a, d, v, q, 0, low)
  {
    hide Space.Pte, Space.Ent, Present;
  }

  lemma TouchesNext(v: nat, n: nat, i: int)
    ensures Touches(v, n + 1, i) <==> Touches(v, n, i) || Touches(v + n, 1, i)
    ensures !Touches(v, 0, i)
  {
  }

  lemma GrownNext(a: Space, b: Space, c: Space, d: nat, v: nat, q: nat, n: nat, low: nat)
    requires Grown(a, b, d, v, q, n, low) && Grown(b, c, d, v + n, q + n, 1, low)
    requires forall x :: q <= x <= q + n ==> a.Owns(x, Single)
    ensures Grown(a, c, d, v, q, n + 1, low)
  {
    hide Space.Pte, Space.Ent, Present, Touches, Addr;
    forall e, i | a.IsDir(e) && USER <= i < 1024
      ensures Present(c.Ent(e, i)) <==> Present(a.Ent(e, i)) || (e == d && Touches(v, n + 1, i))
    {
      TouchesNext(v, n, i);
    }
    forall e, u | a.IsDir(e) && UserPage(u)
      ensures c.Pte(e, u) == if e == d && v <= u < v + n + 1 then Addr(q + (u - v)) + low else a.Pte(e, u)
    {
      assert b.IsDir(e);
      assert q + n + (u - (v + n)) == q + (u - v);
    }
    forall x | x in c.owner && x !in a.owner
      ensures c.IsTable(x) && c.owner[x].d == d
    {
      assert a.Owns(q + n, Single);
      assert x in b.owner ==> c.Owns(x, b.owner[x]);
    }
    forall x | x in a.owner && !a.IsDir(x) && !a.IsTable(x) && 0 <= x < |a.mem|
      ensures c.mem[x] == a.mem[x]
    {
      assert b.Owns(x, if q <= x < q + n then Page(d, v + (x - q)) else a.owner[x]);
    }
    forall x | x in a.owner
      ensures c.Owns(x, if q <= x < q + n + 1 then Page(d, v + (x - q)) else a.owner[x])
    {
      assert b.Owns(x, if q <= x < q + n then Page(d, v + (x - q)) else a.owner[x]);
    }
  }

  lemma GrownKernel(a: Space, b: Space, d: nat, v: nat, q: nat, n: nat, low: nat)
    requires Grown(a, b, d, v, q, n, low) && InRange(a) && forall x :: q <= x < q + n ==> !a.Owns(x, Kernel)
    ensures KeepsKernel(a, b)
  {
    hide Space.Pte, Space.Ent, Index, Addr, Present, Touches;
    forall x | a.Owns(x, Kernel)
      ensures b.Owns(x, Kernel) && 0 <= x < |a.mem| == |b.mem| && b.mem[x] == a.mem[x]
    {
    }
  }

  /** A successful memory_create_map as the processor sees it: page v + k goes to frame q + k with the
      given low bits, and every other page of every directory, the kernel's half included, translates
      as before. */
  lemma GrownTranslates(a: Space, b: Space, kdir: seq<nat>, d: nat, v: nat, q: nat, n: nat, low: nat, e: int, u: int)
    requires Grown(a, b, d, v, q, n, low) && Wf(a, kdir) && Wf(b, kdir) && |kdir| == 1024
    requires forall x :: q <= x < q + n ==> a.Owns(x, Single)
    requires a.IsDir(e) && AnyPage(u) && low < PAGE && low % 2 == 1
    ensures Translate(b, e, u) ==
            if e == d && UserPage(u) && v <= u < v + n then Mapped(q + (u - v), low) else Translate(a, e, u)
  {
    hide Wf, Space.Pte, Space.Ent, Index, Addr, Present, Touches, KeepsKernel;
    if KernelPage(u) {
      WfParts(a, kdir);
      forall x | q <= x < q + n
        ensures !a.Owns(x, Kernel)
      {
        assert a.Owns(x, Single);
      }
      GrownKernel(a, b, d, v, q, n, low);
      KernelTranslates(a, b, kdir, e, e, u);
    } else if e == d && v <= u < v + n {
      IndexOfAddr(q + (u - v), low);
      OddEntry(q + (u - v), low);
    }
  }

  /** A new table changes no translation. */
  lemma NewTableGrown(sp: Space, kdir: seq<nat>, d: nat, v: nat, p: nat, q: nat, low: nat)
    requires Wf(sp, kdir) && sp.IsDir(d) && UserPage(v) && !Present(sp.Ent(d, v / 1024)) && p !in sp.owner
    requires d < |sp.mem| && p < |sp.mem| && Addr(p) + TABLE_FLAGS < TWO_32
    ensures var r := NewTable(sp, d, v / 1024, p);
            && |r.mem| == |sp.mem| && r.owner == sp.owner[p := Table(d, v / 1024)]
            && (forall e :: sp.IsDir(e) <==> r.IsDir(e))
            && (forall e, u :: sp.IsDir(e) && UserPage(u) ==> r.Pte(e, u) == sp.Pte(e, u))
            && (forall e, i :: sp.IsDir(e) && USER <= i < 1024 ==>
                (Present(r.Ent(e, i)) <==> Present(sp.Ent(e, i)) || (e == d && i == v / 1024)))
            && (forall x :: x in sp.owner && !sp.IsDir(x) && 0 <= x < |sp.mem| ==> r.mem[x] == sp.mem[x])
  {
    hide Wf, Present, Index, Space.Ent, Space.Pte, NewTable;
    UserIndex(v);
    NewTableOwner(sp, d, v / 1024, p);
    NewTableEnts(sp, d, v / 1024, p);
    NewTableWf(sp, kdir, d, v / 1024, p);
  }

  /** Mapping one page, with the table made before if it was missing. */
  lemma MapGrown(a: Space, sp: Space, kdir: seq<nat>, d: nat, v: nat, q: nat, low: nat)
    requires Mappable(sp, kdir, d, v, q, low)
    requires |sp.mem| == |a.mem| && a.Owns(q, Single)
    requires forall e :: a.IsDir(e) <==> sp.IsDir(e)
    requires forall e, u :: a.IsDir(e) && UserPage(u) ==> sp.Pte(e, u) == a.Pte(e, u)
    requires forall e, i :: a.IsDir(e) && USER <= i < 1024 ==>
               (Present(sp.Ent(e, i)) <==> Present(a.Ent(e, i)) || (e == d && i == v / 1024))
    requires forall x :: x in a.owner ==> sp.Owns(x, a.owner[x])
    requires forall x :: x in sp.owner && x !in a.owner ==> sp.IsTable(x) && sp.owner[x].d == d
    requires forall x :: x in a.owner && !a.IsDir(x) && !a.IsTable(x) && 0 <= x < |a.mem| ==> sp.mem[x] == a.mem[x]
    ensures 0 <= Index(sp.Ent(d, v / 1024)) < |sp.mem|
    ensures Grown(a, Map(sp, d, v, q, low), d, v, q, 1, low)
  {
    hide Wf, Present, Index, Space.Ent, Space.Pte, Map, Touches;
    MapEnts(sp, kdir, d, v, q, low);
    var r := Map(sp, d, v, q, low);
    forall e, u | a.IsDir(e) && UserPage(u)
      ensures r.Pte(e, u) == if e == d && v <= u < v + 1 then Addr(q + (u - v)) + low else a.Pte(e, u)
    {
      MapPte(sp, kdir, d, v, q, low, e, u);
    }
    forall e, i | a.IsDir(e) && USER <= i < 1024
      ensures Present(r.Ent(e, i)) <==> Present(a.Ent(e, i)) || (e == d && Touches(v, 1, i))
    {
      TouchesOne(v, i);
      assert sp.IsDir(e);
    }
  }

  lemma TouchesOne(v: nat, i: int)
    ensures Touches(v, 1, i) <==> i == v / 1024
  {
  }

  /** From a to b, find_pte has made sure that directory entry i of d has a table. */
  ghost predicate TableReady(a: Space, b: Space, d: nat, i: nat) {
    if Present(a.Ent(d, i)) then b == a
    else var p := Index(b.Ent(d, i));
         && 0 <= p < |a.mem| && d < |a.mem| && i < 1024 && p !in a.owner && Present(b.Ent(d, i))
         && Addr(p) + TABLE_FLAGS < TWO_32
         && b == NewTable(a, d, i, p)
  }

  /** find_pte followed by the store of the entry. */
  lemma ReadyGrown(a: Space, sp: Space, kdir: seq<nat>, d: nat, v: nat, q: nat, low: nat)
    requires Wf(a, kdir) && a.IsDir(d) && UserPage(v) && !Present(a.Pte(d, v)) && a.Owns(q, Single)
    requires TableReady(a, sp, d, v / 1024) && Wf(sp, kdir) && low < PAGE && low % 2 == 1 && Addr(q) + low < TWO_32
    requires forall p :: 0 <= p < |a.mem| ==> Addr(p) + TABLE_FLAGS < TWO_32
    ensures Mappable(sp, kdir, d, v, q, low) && 0 <= Index(sp.Ent(d, v / 1024)) < |sp.mem|
    ensures Grown(a, Map(sp, d, v, q, low), d, v, q, 1, low)
    ensures |Map(sp, d, v, q, low).owner| == |a.owner| + Missing(a, d, v, 1)
  {
    hide Wf, Present, Index, Space.Ent, Space.Pte, Map, NewTable, Grown, Touches;
    UserIndex(v);
    var p := Index(sp.Ent(d, v / 1024));
    if Present(a.Ent(d, v / 1024)) {
      MapTable(a, kdir, d, v);
    } else {
      assert 0 <= p < |a.mem|;
      NewTableGrown(a, kdir, d, v, p, q, low);
    }
    MapEnts(sp, kdir, d, v, q, low);
    MapGrown(a, sp, kdir, d, v, q, low);
    MissingOne(a, d, v);
    AddKey(a.owner, p, Table(d, v / 1024));
    AddKey(sp.owner, q, Page(d, v));
  }

  lemma AddKey(o: map<nat, Owner>, p: int, w: Owner)
    requires p >= 0
    ensures |o[p := w]| == |o| + if p in o then 0 else 1
  {
    if p in o {
      assert o[p := w].Keys == o.Keys;
    } else {
      assert o[p := w].Keys == o.Keys + {p};
    }
    assert |o[p := w]| == |o[p := w].Keys| && |o| == |o.Keys|;
  }

  lemma MissingOne(sp: Space, d: int, v: nat)
    ensures Missing(sp, d, v, 1) == if Present(sp.Ent(d, v / 1024)) then 0 else 1
    ensures Missing(sp, d, v, 0) == 0
  {
    assert Missing(sp, d, v, 0) == 0;
  }

  /** The tables that the n pages from v on still need. */
  function Missing(sp: Space, d: int, v: nat, n: nat): nat {
    if n == 0 then 0
    else Missing(sp, d, v, n - 1)
         + if !Present(sp.Ent(d, (v + n - 1) / 1024)) && !Touches(v, n - 1, (v + n - 1) / 1024) then 1 else 0
  }

  lemma {:induction false} MissingMono(sp: Space, d: int, v: nat, k: nat, n: nat)
    requires k <= n
    ensures Missing(sp, d, v, k) <= Missing(sp, d, v, n)
    decreases n
  {
    if k < n {
      MissingMono(sp, d, v, k, n - 1);
    }
  }

  lemma MissingStep(a: Space, b: Space, d: nat, v: nat, q: nat, n: nat, low: nat)
    requires Grown(a, b, d, v, q, n, low) && a.IsDir(d) && UserPage(v + n)
    ensures Missing(a, d, v, n + 1) == Missing(a, d, v, n) + Missing(b, d, v + n, 1)
  {
    hide Space.Pte, Space.Ent, Present, Missing, Touches;
    UserIndex(v + n);
    MissingOne(b, d, v + n);
    MissingNext(a, d, v, n);
  }

  lemma MissingNext(sp: Space, d: int, v: nat, n: nat)
    ensures Missing(sp, d, v, n + 1) == Missing(sp, d, v, n)
            + if !Present(sp.Ent(d, (v + n) / 1024)) && !Touches(v, n, (v + n) / 1024) then 1 else 0
  {
    assert v + (n + 1) - 1 == v + n;
  }

  // ---------------------------------------------------------------- counting frames

  /** All frames are allocated exactly when there are as many owners as frames. */
  lemma FullCount(sp: Space)
    requires InRange(sp)
    ensures |sp.owner| <= |sp.mem|
    ensures |sp.owner| == |sp.mem| <==> forall p :: 0 <= p < |sp.mem| ==> p in sp.owner
  {
    var all := Below(|sp.mem|);
    BelowIs(|sp.mem|);
    assert sp.owner.Keys <= all by {
      forall p: nat | p in sp.owner.Keys
        ensures p in all
      {
        assert p in sp.owner;
      }
    }
    SubsetSize(sp.owner.Keys, all);
    assert |sp.owner| == |sp.owner.Keys|;
    if |sp.owner| == |sp.mem| {
      forall p: nat | p < |sp.mem|
        ensures p in sp.owner
      {
        assert p in all && p in sp.owner.Keys;
      }
    }
    if forall p :: 0 <= p < |sp.mem| ==> p in sp.owner {
      assert all <= sp.owner.Keys by {
        forall p | p in all
          ensures p in sp.owner.Keys
        {
          assert p in sp.owner;
        }
      }
    }
  }

  lemma SubsetSize(a: set<nat>, b: set<nat>)
    requires a <= b
    ensures |a| <= |b| && (|a| == |b| <==> a == b)
  {
    var c := b - a;
    assert b == a + c && a !! c;
    assert |b| == |a| + |c|;
  }
}
