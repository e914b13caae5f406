/** memory_alloc_for_page_dir and sys_sbrk (kernel/core/memory.c). */
module HeapMemory {
  import opened Bits
  import opened Counting
  import Klib
  import opened Mmu
  import opened PageSpace
  import opened PageSteps
  import opened PageRelations
  import opened CopyRelation
  import opened Paging
  import opened DestroyUvm
  import opened CopyUvm

  /** From a to b, directory d got the n pages from v on, with the given low bits, each on a frame
      that was free; the only other new frames are tables of d, and nothing else changed. */
  ghost predicate Populated(a: Space, b: Space, d: nat, v: nat, n: nat, low: nat) {
    && |b.mem| == |a.mem|
    && (forall e :: a.IsDir(e) <==> b.IsDir(e))
    && (forall e, u :: a.IsDir(e) && UserPage(u) ==>
          if e == d && v <= u < v + n then Present(b.Pte(e, u)) && b.Pte(e, u) % PAGE == low
          && Index(b.Pte(e, u)) !in a.owner
          else b.Pte(e, u) == a.Pte(e, u))
    && (forall e, i :: a.IsDir(e) && USER <= i < 1024 ==>
          (Present(b.Ent(e, i)) <==> Present(a.Ent(e, i)) || (e == d && Touches(v, n, i))))
    && (forall x :: x in a.owner ==> b.Owns(x, a.owner[x]))
    && (forall x :: x in b.owner && x !in a.owner ==> PartOf(b, x, d))
    && (forall x :: x in a.owner && !a.IsDir(x) && !a.IsTable(x) && 0 <= x < |a.mem| ==> b.mem[x] == a.mem[x])
    && |b.owner| == |a.owner| + n + Missing(a, d, v, n)
  }

  lemma PopulatedSelf(a: Space, d: nat, v: nat, low: nat)
    ensures Populated(a, a, d, v, 0, low)
  {
    hide Space.Pte, Space.Ent, Present, Index, PartOf;
    MissingOne(a, d, v);
  }

  /** One more page: allocated and mapped. */
  lemma PopulatedNext(a: Space, b: Space, g: Space, d: nat, v: nat, n: nat, p: nat, low: nat)
    requires Populated(a, b, d, v, n, low) && p < |b.mem| && p !in b.owner && a.IsDir(d) && UserPage(v + n)
    requires low < PAGE && low % 2 == 1 && Grown(Take(b, p), g, d, v + n, p, 1, low)
    requires |g.owner| == |Take(b, p).owner| + Missing(Take(b, p), d, v + n, 1)
    ensures Populated(a, g, d, v, n + 1, low)
  {
    hide *;
    MapsGrow(a, b, g, d, v, n, p, low);
    FramesGrow(a, b, g, d, v, n, p, low);
    CountGrows(a, b, g, d, v, n, p, low);
    MakePopulated(a, g, d, v, n + 1, low);
  }

  lemma MapsGrow(a: Space, b: Space, g: Space, d: nat, v: nat, n: nat, p: nat, low: nat)
    requires Populated(a, b, d, v, n, low) && p < |b.mem| && p !in b.owner
    requires low < PAGE && low % 2 == 1 && Grown(Take(b, p), g, d, v + n, p, 1, low)
    ensures forall e :: a.IsDir(e) <==> g.IsDir(e)
    ensures forall e, u :: a.IsDir(e) && UserPage(u) ==>
              if e == d && v <= u < v + (n + 1) then Present(g.Pte(e, u)) && g.Pte(e, u) % PAGE == low
              && Index(g.Pte(e, u)) !in a.owner
              else g.Pte(e, u) == a.Pte(e, u)
    ensures forall e, i :: a.IsDir(e) && USER <= i < 1024 ==>
              (Present(g.Ent(e, i)) <==> Present(a.Ent(e, i)) || (e == d && Touches(v, n + 1, i)))
  {
    hide *;
    GrownParts(b, g, d, v + n, p, low);
    PopulatedParts(a, b, d, v, n, low);
    NextMaps(a, b, g, d, v, n, p, low);
  }

  lemma FramesGrow(a: Space, b: Space, g: Space, d: nat, v: nat, n: nat, p: nat, low: nat)
    requires Populated(a, b, d, v, n, low) && p < |b.mem| && p !in b.owner
    requires Grown(Take(b, p), g, d, v + n, p, 1, low)
    ensures forall x :: x in a.owner ==> g.Owns(x, a.owner[x])
    ensures forall x :: x in g.owner && x !in a.owner ==> PartOf(g, x, d)
    ensures forall x :: x in a.owner && !a.IsDir(x) && !a.IsTable(x) && 0 <= x < |a.mem| ==> g.mem[x] == a.mem[x]
    ensures |g.mem| == |a.mem|
  {
    hide *;
    GrownParts(b, g, d, v + n, p, low);
    PopulatedParts(a, b, d, v, n, low);
    NextFrames(a, b, g, d, v, n, p);
  }

  lemma CountGrows(a: Space, b: Space, g: Space, d: nat, v: nat, n: nat, p: nat, low: nat)
    requires Populated(a, b, d, v, n, low) && p !in b.owner && a.IsDir(d) && UserPage(v + n)
    requires |g.owner| == |Take(b, p).owner| + Missing(Take(b, p), d, v + n, 1)
    ensures |g.owner| == |a.owner| + (n + 1) + Missing(a, d, v, n + 1)
  {
    hide *;
    PopulatedParts(a, b, d, v, n, low);
    NextCount(a, b, g, d, v, n, p);
  }

  lemma PopulatedParts(a: Space, b: Space, d: nat, v: nat, n: nat, low: nat)
    requires Populated(a, b, d, v, n, low)
    ensures |b.mem| == |a.mem| && forall e :: a.IsDir(e) <==> b.IsDir(e)
    ensures forall e, u :: a.IsDir(e) && UserPage(u) ==>
              if e == d && v <= u < v + n then Present(b.Pte(e, u)) && b.Pte(e, u) % PAGE == low
              && Index(b.Pte(e, u)) !in a.owner
              else b.Pte(e, u) == a.Pte(e, u)
    ensures forall e, i :: a.IsDir(e) && USER <= i < 1024 ==>
              (Present(b.Ent(e, i)) <==> Present(a.Ent(e, i)) || (e == d && Touches(v, n, i)))
    ensures forall x :: x in a.owner ==> b.Owns(x, a.owner[x]) && x in b.owner
    ensures forall x :: x in b.owner && x !in a.owner ==> PartOf(b, x, d)
    ensures forall x :: x in a.owner && !a.IsDir(x) && !a.IsTable(x) && 0 <= x < |a.mem| ==> b.mem[x] == a.mem[x]
    ensures |b.owner| == |a.owner| + n + Missing(a, d, v, n)
  {
    hide Space.Pte, Space.Ent, Present, Index, PartOf, Missing, Touches;
  }

  lemma MakePopulated(a: Space, b: Space, d: nat, v: nat, n: nat, low: nat)
    requires |b.mem| == |a.mem| && forall e :: a.IsDir(e) <==> b.IsDir(e)
    requires forall e, u :: a.IsDir(e) && UserPage(u) ==>
               if e == d && v <= u < v + n then Present(b.Pte(e, u)) && b.Pte(e, u) % PAGE == low
               && Index(b.Pte(e, u)) !in a.owner
               else b.Pte(e, u) == a.Pte(e, u)
    requires forall e, i :: a.IsDir(e) && USER <= i < 1024 ==>
               (Present(b.Ent(e, i)) <==> Present(a.Ent(e, i)) || (e == d && Touches(v, n, i)))
    requires forall x :: x in a.owner ==> b.Owns(x, a.owner[x])
    requires forall x :: x in b.owner && x !in a.owner ==> PartOf(b, x, d)
    requires forall x :: x in a.owner && !a.IsDir(x) && !a.IsTable(x) && 0 <= x < |a.mem| ==> b.mem[x] == a.mem[x]
    requires |b.owner| == |a.owner| + n + Missing(a, d, v, n)
    ensures Populated(a, b, d, v, n, low)
  {
    hide Space.Pte, Space.Ent, Present, Index, PartOf, Missing, Touches;
  }

  lemma NextMaps(a: Space, b: Space, g: Space, d: nat, v: nat, n: nat, p: nat, low: nat)
    requires forall e :: a.IsDir(e) <==> b.IsDir(e)
    requires forall e :: b.IsDir(e) <==> g.IsDir(e)
    requires forall e, u :: a.IsDir(e) && UserPage(u) ==>
               if e == d && v <= u < v + n then Present(b.Pte(e, u)) && b.Pte(e, u) % PAGE == low
               && Index(b.Pte(e, u)) !in a.owner
               else b.Pte(e, u) == a.Pte(e, u)
    requires forall e, i :: a.IsDir(e) && USER <= i < 1024 ==>
               (Present(b.Ent(e, i)) <==> Present(a.Ent(e, i)) || (e == d && Touches(v, n, i)))
    requires forall e, u :: b.IsDir(e) && UserPage(u) ==>
               g.Pte(e, u) == if e == d && u == v + n then Addr(p) + low else b.Pte(e, u)
    requires forall e, i :: b.IsDir(e) && USER <= i < 1024 ==>
               (Present(g.Ent(e, i)) <==> Present(b.Ent(e, i)) || (e == d && i == (v + n) / 1024))
    requires low < PAGE && low % 2 == 1 && p !in a.owner
    ensures forall e :: a.IsDir(e) <==> g.IsDir(e)
    ensures forall e, u :: a.IsDir(e) && UserPage(u) ==>
              if e == d && v <= u < v + (n + 1) then Present(g.Pte(e, u)) && g.Pte(e, u) % PAGE == low
              && Index(g.Pte(e, u)) !in a.owner
              else g.Pte(e, u) == a.Pte(e, u)
    ensures forall e, i :: a.IsDir(e) && USER <= i < 1024 ==>
              (Present(g.Ent(e, i)) <==> Present(a.Ent(e, i)) || (e == d && Touches(v, n + 1, i)))
  {
    hide Space.Pte, Space.Ent, Present, Index, Addr, Touches, Space.IsDir;
    IndexOfAddr(p, low);
    OddEntry(p, low);
    forall e, i | a.IsDir(e) && USER <= i < 1024
      ensures Present(g.Ent(e, i)) <==> Present(a.Ent(e, i)) || (e == d && Touches(v, n + 1, i))
    {
      TouchesNext(v, n, i);
      TouchesOne(v + n, i);
    }
  }

  lemma NextFrames(a: Space, b: Space, g: Space, d: nat, v: nat, n: nat, p: nat)
    requires forall x :: x in a.owner ==> b.Owns(x, a.owner[x])
    requires forall x :: x in b.owner ==> g.Owns(x, b.owner[x])
    requires forall x :: x in b.owner && x !in a.owner ==> PartOf(b, x, d)
    requires forall x :: x in g.owner && x !in b.owner && x != p ==> g.IsTable(x) && g.owner[x].d == d
    requires g.Owns(p, Page(d, v + n)) && p !in b.owner && |g.mem| == |b.mem| == |a.mem|
    requires forall x :: x in a.owner && !a.IsDir(x) && !a.IsTable(x) && 0 <= x < |a.mem| ==> b.mem[x] == a.mem[x]
    requires forall x :: x in b.owner && !b.IsDir(x) && !b.IsTable(x) && 0 <= x < |b.mem| ==> g.mem[x] == b.mem[x]
    ensures forall x :: x in a.owner ==> g.Owns(x, a.owner[x])
    ensures forall x :: x in g.owner && x !in a.owner ==> PartOf(g, x, d)
    ensures forall x :: x in a.owner && !a.IsDir(x) && !a.IsTable(x) && 0 <= x < |a.mem| ==> g.mem[x] == a.mem[x]
    ensures p !in a.owner
  {
    forall x | x in g.owner && x !in a.owner
      ensures PartOf(g, x, d)
    {
      if x in b.owner {
        assert PartOf(b, x, d);
      }
    }
  }

  lemma NextCount(a: Space, b: Space, g: Space, d: nat, v: nat, n: nat, p: nat)
    requires a.IsDir(d) && UserPage(v + n) && p !in b.owner
    requires forall e, i :: a.IsDir(e) && USER <= i < 1024 ==>
               (Present(b.Ent(e, i)) <==> Present(a.Ent(e, i)) || (e == d && Touches(v, n, i)))
    requires |b.owner| == |a.owner| + n + Missing(a, d, v, n)
    requires |g.owner| == |Take(b, p).owner| + Missing(Take(b, p), d, v + n, 1)
    ensures |g.owner| == |a.owner| + (n + 1) + Missing(a, d, v, n + 1)
  {
    hide Space.Pte, Space.Ent, Present, Missing, Touches;
    UserIndex(v + n);
    MissingOne(Take(b, p), d, v + n);
    SameOwner(b, Take(b, p));
    MissingNext(a, d, v, n);
    AddKey(b.owner, p, Single);
  }

  /** What the next page needs, seen from the start. */
  lemma NeedNow(a: Space, b: Space, d: nat, v: nat, n: nat, low: nat, p: nat)
    requires Populated(a, b, d, v, n, low) && a.IsDir(d) && UserPage(v + n) && p !in b.owner
    ensures Missing(a, d, v, n + 1) == Missing(a, d, v, n) + Missing(Take(b, p), d, v + n, 1)
    ensures |b.owner| == |a.owner| + n + Missing(a, d, v, n) && |Take(b, p).owner| == |b.owner| + 1
    ensures Missing(Take(b, p), d, v + n, 1) <= 1 && |b.mem| == |a.mem|
  {
    hide Space.Pte, Space.Ent, Present, Missing, Touches, PartOf;
    UserIndex(v + n);
    MissingOne(Take(b, p), d, v + n);
    SameOwner(b, Take(b, p));
    MissingNext(a, d, v, n);
    AddKey(b.owner, p, Single);
  }

  /** The next page, after its frame has been taken: mapped or not as at the start. */
  lemma NextFree(a: Space, b: Space, d: nat, v: nat, n: nat, low: nat, p: nat)
    requires Populated(a, b, d, v, n, low) && a.IsDir(d) && p !in b.owner && UserPage(v + n)
    ensures Take(b, p).IsDir(d) && Take(b, p).Pte(d, v + n) == a.Pte(d, v + n) && Take(b, p).Owns(p, Single)
  {
    hide Space.Pte, Space.Ent, Present, Missing, Touches, PartOf;
    SamePte(b, Take(b, p));
  }

  /** The new pages translate to frames that were free, with the given low bits; every other page of
      every directory, the kernel's half included, translates as before. */
  lemma PopulatedTranslates(a: Space, b: Space, kdir: seq<nat>, d: nat, v: nat, n: nat, low: nat, e: int, u: int)
    requires Populated(a, b, d, v, n, low) && Wf(a, kdir) && Wf(b, kdir) && |kdir| == 1024 && a.IsDir(e) && AnyPage(u)
    ensures if e == d && UserPage(u) && v <= u < v + n then
              && Translate(b, e, u).Mapped? && Translate(b, e, u).frame !in a.owner && Translate(b, e, u).flags == low
            else Translate(b, e, u) == Translate(a, e, u)
  {
    hide Space.Pte, Space.Ent, Present, Index, Missing, Touches, PartOf, Wf;
    WfParts(a, kdir);
    assert b.IsDir(e) && KeepsKernel(a, b);
    if KernelPage(u) {
      KernelTranslates(a, b, kdir, e, e, u);
    }
  }

  lemma CountAt(a: Space, b: Space, d: nat, v: nat, n: nat, low: nat)
    requires Populated(a, b, d, v, n, low)
    ensures |b.owner| == |a.owner| + n + Missing(a, d, v, n) && |b.mem| == |a.mem|
  {
  }

  lemma FreesNothing(m: Memory, vaddr: nat, n: nat, u: seq<bool>)
    requires m.Shape() && 0x8000_0000 <= vaddr < TWO_32 && |u| == m.pages
    ensures Bitmap.Assigned(u, m.FreeIndex(vaddr), n, false) == u
  {
    m.FreeIndexIs(vaddr);
    assert Bitmap.Assigned(u, m.FreeIndex(vaddr), n, false) == u;
  }

  lemma BitsIs(m: Memory, u: seq<bool>, b: Space)
    requires m.Shape() && Wf(b, m.kdir) && b.mem == m.ram[..] && b.owner == m.owner && |u| == m.pages
    requires m.bitmap.Used() == u
    requires forall x :: 0 <= x < m.pages ==> (u[x] <==> x in b.owner)
    ensures m.Valid() && m.View() == b
  {
  }

  /** The number of pages memory_alloc_for_page_dir maps. */
  function PageCount(size: nat): nat
    requires size < TWO_32
  {
    Klib.Up2(size, PAGE) / PAGE
  }

  lemma PageCountIs(size: nat)
    requires size + PAGE - 1 < TWO_32
    ensures PageCount(size) == (size + 4095) / 4096
  {
    Powers();
    Klib.Up2WithoutWrap(size, 12);
    MultipleMod((size + PAGE - 1) / PAGE, PAGE);
  }

  lemma UserStartAddr(v: nat, vaddr: nat)
    requires v == vaddr / PAGE && UserPage(v)
    ensures vaddr >= 0x8000_0000
  {
  }

  lemma NextVaddr(va: nat, v: nat)
    requires va < TWO_32 && va / PAGE == v
    ensures UserPage(v + 1) ==> (va + PAGE) % TWO_32 / PAGE == v + 1
    ensures (va + PAGE) % TWO_32 < TWO_32
  {
    if UserPage(v + 1) {
      assert va + PAGE < TWO_32;
      SmallMod(va + PAGE, TWO_32);
      DivModUnique(va + PAGE, v + 1, va % PAGE, PAGE);
    }
  }

  /** addr_free_page with a user address, as the failing branch of memory_alloc_for_page_dir calls it:
      the index lies beyond the bitmap, so nothing is freed. */
  method FreeByVaddr(m: Memory, vaddr: nat, n: nat)
    requires m.Valid() && vaddr < TWO_32 && UserPage(vaddr / PAGE)
    modifies m.bitmap.bits
    ensures m.Valid() && m.View() == old(m.View()) && m.owner == old(m.owner)
  {
    hide *;
    m.Parts();
    Limits(m);
    MemShape(m);
    UserStartAddr(vaddr / PAGE, vaddr);
    ghost var a, u := m.View(), m.bitmap.Used();
    FreesNothing(m, vaddr, n, u);
    m.ClearBits(vaddr, n);
    BitsIs(m, u, a);
  }

  /** Page k of the range is the first one that is mapped already, and the frames last up to it: the kernel
      takes one more frame and then stops at the assertion of memory_create_map. */
  ghost predicate StopsAt(a: Space, d: int, v: nat, count: nat, pages: nat, k: nat) {
    && k < count && Present(a.Pte(d, v + k)) && NonePresent(a, d, v, k)
    && |a.owner| + k + Missing(a, d, v, k) < pages
  }

  ghost predicate Stops(a: Space, d: int, v: nat, count: nat, pages: nat) {
    exists k: nat :: StopsAt(a, d, v, count, pages, k)
  }

  /** memory_alloc_for_page_dir: when it returns, it returns 0. Then all pages are mapped exactly when the
      frames last; otherwise the pages up to there are mapped, no frame is free any more, and a frame whose
      table could not be made stays allocated: the call that should free it passes a virtual address,
      which lies beyond the bitmap. The kernel stops exactly when a page of the range is mapped already and
      the frames last up to it. */
  method AllocForPageDir(m: Memory, pageDir: nat, vaddr: nat, size: nat, perm: nat)
    returns (r: int, ghost done: nat, ghost z: Space, ghost leaked: int)
    requires m.Valid() && m.View().IsDir(Index(pageDir)) && pageDir == Addr(Index(pageDir)) && vaddr < TWO_32
    requires size < TWO_32 && perm < PAGE
    requires forall u :: vaddr / PAGE <= u < vaddr / PAGE + PageCount(size) ==> UserPage(u)
    modifies m`owner, m.bitmap.bits, m.ram
    ensures m.Valid() && (r == 0 || r == STOPPED)
    ensures r == STOPPED <==> Stops(old(m.View()), Index(pageDir), vaddr / PAGE, PageCount(size), m.pages)
    ensures r == 0 ==>
              && done <= PageCount(size) && NonePresent(old(m.View()), Index(pageDir), vaddr / PAGE, done)
              && Populated(old(m.View()), z, Index(pageDir), vaddr / PAGE, done, Or(perm, PRESENT))
              && m.View() == (if leaked < 0 then z else Take(z, leaked))
              && (leaked >= 0 ==> leaked !in z.owner && done < PageCount(size))
              && (done == PageCount(size) <==>
                  |old(m.owner)| + PageCount(size)
                  + Missing(old(m.View()), Index(pageDir), vaddr / PAGE, PageCount(size)) <= m.pages)
              && (done < PageCount(size) ==> |m.owner| == m.pages)
    ensures r == 0 ==>
              (leaked >= 0 <==>
               exists k: nat :: LosesFrame(old(m.View()), Index(pageDir), vaddr / PAGE, PageCount(size), m.pages, k))
  {
    hide *;
    m.Parts();
    Limits(m);
    MemShape(m);
    ghost var a, d, v, low, count := m.View(), Index(pageDir), vaddr / PAGE, Or(perm, PRESENT), PageCount(size);
    DirIn(a, m.kdir, d);
    m.OddFlags(perm);
    m.Different();
    PopulatedSelf(a, d, v, low);
    PageCountDef(size);
    FullCount(a);
    CountAt(a, a, d, v, 0, low);
    m.NonePresentYet(a, d, v);
    var pageCount := Klib.Up2(size, PAGE) / PAGE;
    var i, va := 0, vaddr;
    leaked := -1;
    while i < pageCount
      invariant 0 <= i <= pageCount && m.Valid() && va < TWO_32
      invariant i < pageCount ==> va / PAGE == v + i
      invariant Populated(a, m.View(), d, v, i, low) && NonePresent(a, d, v, i)
      invariant |m.owner| == |a.owner| + i + Missing(a, d, v, i) <= m.pages
    {
      ghost var b := m.View();
      m.Parts();
      var paddr := m.AllocPage();
      m.Parts();
      if paddr == 0 {
        CountAt(a, b, d, v, i, low);
        MissingMono(a, d, v, i, pageCount);
        NotLost(a, d, v, pageCount, m.pages, i);
        NoStop(a, d, v, pageCount, m.pages, i);
        return 0, i, b, -1;
      }
      ghost var p := Index(paddr);
      var err := MapTaken(m, pageDir, va, paddr, perm, a, b, v, i);
      MissingMono(a, d, v, i + 1, pageCount);
      if err == STOPPED {
        StopHere(a, d, v, pageCount, m.pages, i);
        return STOPPED, i, m.View(), -1;
      }
      if err < 0 {
        FreeByVaddr(m, vaddr, i + 1);
        LostHere(a, d, v, pageCount, m.pages, i);
        NoStop(a, d, v, pageCount, m.pages, i + 1);
        return 0, i, b, p;
      }
      NextVaddr(va, v + i);
      if i + 1 < pageCount {
        assert UserPage(v + i + 1);
      }
      va, i := (va + PAGE) % TWO_32, i + 1;
    }
    NeverLost(a, d, v, pageCount, m.pages);
    NoStop(a, d, v, pageCount, m.pages, pageCount);
    return 0, i, m.View(), -1;
  }

  /** memory_create_map for the frame just taken, as the next page of the range. */
  method MapTaken(m: Memory, pageDir: nat, va: nat, paddr: nat, perm: nat, ghost a: Space, ghost b: Space, ghost v: nat,
                  ghost i: nat)
    returns (err: int)
    requires m.Valid() && a.IsDir(Index(pageDir)) && va < TWO_32 && perm < PAGE && va / PAGE == v + i && UserPage(v + i)
    requires Index(pageDir) >= 0 && Index(paddr) >= 0 && paddr == Addr(Index(paddr))
    requires Index(paddr) < |b.mem| && Index(paddr) !in b.owner && m.View() == Take(b, Index(paddr))
    requires Populated(a, b, Index(pageDir), v, i, Or(perm, PRESENT)) && NonePresent(a, Index(pageDir), v, i)
    requires |b.mem| == m.pages && |b.owner| == |a.owner| + i + Missing(a, Index(pageDir), v, i) < m.pages
    modifies m`owner, m.bitmap.bits, m.ram
    ensures m.Valid() && (err == 0 || err == -1 || err == STOPPED)
    ensures err == STOPPED <==> Present(a.Pte(Index(pageDir), v + i))
    ensures err != STOPPED ==> NonePresent(a, Index(pageDir), v, i + 1)
    ensures err == 0 ==>
              && Populated(a, m.View(), Index(pageDir), v, i + 1, Or(perm, PRESENT))
              && |m.owner| == |a.owner| + i + 1 + Missing(a, Index(pageDir), v, i + 1) <= m.pages
    ensures err == -1 ==>
              && m.View() == old(m.View()) && |m.owner| == |b.owner| + 1 == m.pages
              && Missing(a, Index(pageDir), v, i + 1) == Missing(a, Index(pageDir), v, i) + 1
  {
    hide *;
    ghost var d, p, low, t := Index(pageDir), Index(paddr), Or(perm, PRESENT), m.View();
    m.Parts();
    m.OddFlags(perm);
    m.Different();
    NeedNow(a, b, d, v, i, low, p);
    NextFree(a, b, d, v, i, low, p);
    m.NonePresentNext(a, d, v, i);
    m.NonePresentYet(t, d, v + i);
    m.NonePresentNext(t, d, v + i, 0);
    ghost var k;
    err, k := m.CreateMap(pageDir, va, paddr, 1, perm);
    m.Parts();
    FullCount(m.View());
    if err == 0 {
      PopulatedNext(a, b, m.View(), d, v, i, p, low);
      CountAt(a, m.View(), d, v, i + 1, low);
    }
  }

  /** The first i pages are not mapped, and then the range or the frames are used up. */
  lemma NoStop(a: Space, d: int, v: nat, count: nat, pages: nat, i: nat)
    requires NonePresent(a, d, v, i) && (i == count || |a.owner| + i + Missing(a, d, v, i) >= pages)
    ensures !Stops(a, d, v, count, pages)
  {
    hide Missing, Present, Space.Pte;
    forall k: nat
      ensures !StopsAt(a, d, v, count, pages, k)
    {
      if i <= k {
        MissingMono(a, d, v, i, k);
      }
    }
  }

  lemma StopHere(a: Space, d: int, v: nat, count: nat, pages: nat, k: nat)
    requires k < count && Present(a.Pte(d, v + k)) && NonePresent(a, d, v, k)
    requires |a.owner| + k + Missing(a, d, v, k) < pages
    ensures Stops(a, d, v, count, pages)
  {
    assert StopsAt(a, d, v, count, pages, k);
  }

  /** After k pages exactly one frame is left and the next page needs a table: the frame taken for
      that page is lost. */
  ghost predicate LosesFrame(a: Space, d: int, v: nat, count: nat, pages: nat, k: nat) {
    k < count && |a.owner| + k + Missing(a, d, v, k) + 1 == pages && Missing(a, d, v, k + 1) == Missing(a, d, v, k) + 1
  }

  lemma NotLost(a: Space, d: int, v: nat, count: nat, pages: nat, i: nat)
    requires |a.owner| + i + Missing(a, d, v, i) == pages
    ensures forall k: nat :: !LosesFrame(a, d, v, count, pages, k)
  {
    hide Missing;
    forall k: nat
      ensures !LosesFrame(a, d, v, count, pages, k)
    {
      if k < i {
        MissingMono(a, d, v, k + 1, i);
      } else {
        MissingMono(a, d, v, i, k);
      }
    }
  }

  lemma NeverLost(a: Space, d: int, v: nat, count: nat, pages: nat)
    requires |a.owner| + count + Missing(a, d, v, count) <= pages
    ensures forall k: nat :: !LosesFrame(a, d, v, count, pages, k)
  {
    hide Missing;
    forall k: nat
      ensures !LosesFrame(a, d, v, count, pages, k)
    {
      if k < count {
        MissingMono(a, d, v, k + 1, count);
      }
    }
  }

  lemma LostHere(a: Space, d: int, v: nat, count: nat, pages: nat, k: nat)
    requires k < count && |a.owner| + k + Missing(a, d, v, k) + 1 == pages
    requires Missing(a, d, v, k + 1) == Missing(a, d, v, k) + 1
    ensures exists i: nat :: LosesFrame(a, d, v, count, pages, i)
  {
    assert LosesFrame(a, d, v, count, pages, k);
  }

  lemma PageCountDef(size: nat)
    requires size < TWO_32
    ensures PageCount(size) == Klib.Up2(size, PAGE) / PAGE && PAGE == 4096 && TWO_32 == 0x1_0000_0000
  {
  }

  // ---------------------------------------------------------------- sys_sbrk

  /** The lower end of the stack, MEM_TASK_STACK_TOP - MEM_TASK_STACK_SIZE. */
  const HEAP_LIMIT: nat := 0xE000_0000 - 500 * 4096

  /** The first page at or above an address. */
  function Ceil(addr: nat): nat {
    (addr + PAGE - 1) / PAGE
  }

  /** Every page from the one of the heap start to the rounded up break is mapped and none from there to
      the stack. */
  ghost predicate HeapOk(sp: Space, d: int, start: nat, end: nat) {
    && 0x8000_0000 <= start <= end <= HEAP_LIMIT
    && (forall u :: start / PAGE <= u < Ceil(end) ==> Present(sp.Pte(d, u)))
    && (forall u :: Ceil(end) <= u < HEAP_LIMIT / PAGE ==> !Present(sp.Pte(d, u)))
  }

  /** The frames for moving the break from start to end. */
  function BreakCost(sp: Space, d: int, start: nat, end: nat): nat
    requires start <= end
  {
    CeilMono(start, end);
    Ceil(end) - Ceil(start) + Missing(sp, d, Ceil(start), Ceil(end) - Ceil(start))
  }

  lemma CeilMono(x: nat, y: nat)
    requires x <= y
    ensures Ceil(x) <= Ceil(y)
  {
  }

  /** A break that stays in the page it is in. */
  lemma SamePage(start: nat, incr: nat)
    requires incr == 0 || (start % PAGE != 0 && start % PAGE + incr <= PAGE)
    ensures Ceil(start + incr) == Ceil(start)
  {
    var q, o := start / PAGE, start % PAGE;
    assert start == q * PAGE + o;
    if o > 0 {
      CeilIs(q, o);
      CeilIs(q, o + incr);
    }
  }

  lemma CeilIs(q: nat, o: nat)
    requires 0 < o <= PAGE
    ensures Ceil(q * PAGE + o) == q + 1
  {
    DivModUnique(q * PAGE + o + PAGE - 1, q + 1, o - 1, PAGE);
  }

  /** A break that leaves its page: the pages from the next boundary on are added. */
  lemma NewPages(start: nat, incr: nat, from: nat)
    requires incr > 0 && (start % PAGE != 0 ==> start % PAGE + incr > PAGE)
    requires from == if start % PAGE == 0 then start else start + (PAGE - start % PAGE)
    ensures from <= start + incr && from / PAGE == Ceil(start) <= Ceil(start + incr)
    ensures (start + incr - from + PAGE - 1) / PAGE == Ceil(start + incr) - Ceil(start)
    ensures from % PAGE == 0
  {
    var q, o := start / PAGE, start % PAGE;
    assert start == q * PAGE + o;
    var k := if o == 0 then q else q + 1;
    assert from == k * PAGE;
    MultipleMod(k, PAGE);
    if o > 0 {
      CeilIs(q, o);
    } else {
      DivModUnique(start + PAGE - 1, q, PAGE - 1, PAGE);
    }
    var e := start + incr - from + PAGE - 1;
    var w, s := e / PAGE, e % PAGE;
    assert e == w * PAGE + s;
    assert start + incr + PAGE - 1 == (k + w) * PAGE + s;
    DivModUnique(start + incr + PAGE - 1, k + w, s, PAGE);
  }

  lemma HeapPages(sp: Space, d: int, start: nat, end: nat, incr: nat)
    requires HeapOk(sp, d, start, end) && end + incr <= HEAP_LIMIT
    ensures Ceil(end) <= Ceil(end + incr) <= HEAP_LIMIT / PAGE
    ensures forall u :: Ceil(end) <= u < Ceil(end + incr) ==> UserPage(u) && !Present(sp.Pte(d, u))
    ensures 0x8000_0000 <= start <= end < TWO_32
  {
    hide Present, Space.Pte, Ceil;
    HeapRange(end, incr);
  }

  /** The heap is in order afterwards exactly when all its new pages were mapped. */
  lemma HeapGrows(a: Space, z: Space, b: Space, d: nat, start: nat, end: nat, incr: nat, done: nat, leaked: int)
    requires HeapOk(a, d, start, end) && end + incr <= HEAP_LIMIT && a.IsDir(d) && Ceil(end) <= Ceil(end + incr)
    requires Populated(a, z, d, Ceil(end), done, 7) && done <= Ceil(end + incr) - Ceil(end)
    requires b == if leaked < 0 then z else Take(z, leaked)
    ensures HeapOk(b, d, start, end + incr) <==> done == Ceil(end + incr) - Ceil(end)
  {
    hide Present, Space.Pte, Space.Ent, Missing, Touches, PartOf, Ceil;
    HeapPages(a, d, start, end, incr);
    SamePte(z, b);
    CeilMono(start, end);
    CeilMono(0x8000_0000, start);
    CeilBase();
    FloorCeil(start);
    if done < Ceil(end + incr) - Ceil(end) {
      var u := Ceil(end) + done;
      assert z.Pte(d, u) == a.Pte(d, u) && UserPage(u);
      assert start / PAGE <= u < Ceil(end + incr) && !Present(b.Pte(d, u));
    } else {
      forall u | start / PAGE <= u < Ceil(end + incr)
        ensures Present(b.Pte(d, u))
      {
        assert UserPage(u);
      }
      forall u | Ceil(end + incr) <= u < HEAP_LIMIT / PAGE
        ensures !Present(b.Pte(d, u))
      {
        assert UserPage(u) && z.Pte(d, u) == a.Pte(d, u);
      }
    }
  }

  lemma FloorCeil(x: nat)
    ensures x / PAGE <= Ceil(x)
    ensures x >= 0x8000_0000 ==> x / PAGE >= USER * 1024
  {
  }

  lemma CeilBase()
    ensures Ceil(0x8000_0000) == USER * 1024 && HEAP_LIMIT / PAGE <= 1024 * 1024
  {
  }

  lemma HeapSame(sp: Space, d: int, start: nat, end: nat, end': nat)
    requires HeapOk(sp, d, start, end) && end <= end' <= HEAP_LIMIT && Ceil(end') == Ceil(end)
    ensures HeapOk(sp, d, start, end') && BreakCost(sp, d, end, end') == 0
  {
    hide Present, Space.Pte;
  }

  lemma RwUser()
    ensures Or(Or(1, 4), 2) == 7 == Or(7, PRESENT) && 7 < PAGE
  {
    OrOne(7);
    assert Or(2, 1) == 3;
  }

  lemma CostIs(sp: Space, d: int, start: nat, end: nat)
    requires start <= end && Ceil(start) <= Ceil(end)
    ensures BreakCost(sp, d, start, end)
            == Ceil(end) - Ceil(start) + Missing(sp, d, Ceil(start), Ceil(end) - Ceil(start))
  {
  }

  lemma SmallHeap(start: nat, incr: nat)
    requires start + incr <= HEAP_LIMIT
    ensures start + incr + PAGE < TWO_32 && PAGE == 4096 && TWO_32 == 0x1_0000_0000
    ensures HEAP_LIMIT == 0xE000_0000 - 500 * 4096
  {
  }

  /** A page between the old and the new break is mapped already, and the frames last up to it. */
  ghost predicate BreakStops(sp: Space, d: int, end: nat, incr: nat, pages: nat) {
    CeilMono(end, end + incr);
    Stops(sp, d, Ceil(end), Ceil(end + incr) - Ceil(end), pages)
  }

  lemma StopsIs(sp: Space, d: int, end: nat, incr: nat, pages: nat)
    ensures Ceil(end) <= Ceil(end + incr)
    ensures BreakStops(sp, d, end, incr, pages) <==> Stops(sp, d, Ceil(end), Ceil(end + incr) - Ceil(end), pages)
  {
    hide Stops;
    CeilMono(end, end + incr);
  }

  lemma NoRange(sp: Space, d: int, v: nat, pages: nat)
    ensures !Stops(sp, d, v, 0, pages)
  {
  }

  /** With nothing mapped above the break there is nothing to stop at. */
  lemma HeapNoStop(sp: Space, d: int, start: nat, end: nat, incr: nat, pages: nat)
    requires HeapOk(sp, d, start, end) && end + incr <= HEAP_LIMIT
    ensures !BreakStops(sp, d, end, incr, pages)
  {
    HeapPages(sp, d, start, end, incr);
    hide Present, Space.Pte, Missing, Ceil, HeapOk;
  }

  lemma HeapRange(end: nat, incr: nat)
    requires 0x8000_0000 <= end && end + incr <= HEAP_LIMIT
    ensures Ceil(end) <= Ceil(end + incr) <= HEAP_LIMIT / PAGE
    ensures forall u :: Ceil(end) <= u < Ceil(end + incr) ==> UserPage(u)
    ensures end < TWO_32
  {
    CeilMono(end, end + incr);
    CeilMono(0x8000_0000, end);
    CeilMono(end + incr, HEAP_LIMIT);
    assert Ceil(HEAP_LIMIT) == HEAP_LIMIT / PAGE && Ceil(0x8000_0000) == 0x8000_0000 / PAGE == USER * 1024;
  }

  /** The part of task_t that sys_sbrk uses. */
  class Process {
    const cr3: nat
    var heapStart: nat
    var heapEnd: nat

    constructor (dir: nat, start: nat)
      ensures cr3 == dir && heapStart == heapEnd == start
    {
      cr3, heapStart, heapEnd := dir, start, start;
    }

    ghost predicate Ok(m: Memory)
      reads this, m, m.ram
    {
      m.View().IsDir(Index(cr3)) && cr3 == Addr(Index(cr3)) && HeapOk(m.View(), Index(cr3), heapStart, heapEnd)
    }

    lemma OkParts(m: Memory)
      requires Ok(m)
      ensures m.View().IsDir(Index(cr3)) && Index(cr3) >= 0 && cr3 == Addr(Index(cr3))
      ensures HeapOk(m.View(), Index(cr3), heapStart, heapEnd)
    {
    }

    lemma MakeOk(m: Memory)
      requires m.View().IsDir(Index(cr3)) && cr3 == Addr(Index(cr3))
      ensures Ok(m) <==> HeapOk(m.View(), Index(cr3), heapStart, heapEnd)
    {
    }

    lemma DirStays(a: Space, z: Space, b: Space, d: nat, v: nat, n: nat, leaked: int)
      requires Populated(a, z, d, v, n, 7) && a.IsDir(d) && b == (if leaked < 0 then z else Take(z, leaked))
      requires leaked >= 0 ==> leaked !in z.owner
      ensures b.IsDir(d)
    {
      hide Present, Space.Pte, Space.Ent, Missing, Touches, PartOf;
    }

    /** The process runs on this directory, with its break between heap start and stack. */
    ghost predicate Placed(m: Memory)
      reads this, m, m.ram
    {
      && m.View().IsDir(Index(cr3)) && cr3 == Addr(Index(cr3))
      && 0x8000_0000 <= heapStart <= heapEnd <= HEAP_LIMIT
    }

    lemma PlacedParts(m: Memory)
      requires Placed(m)
      ensures m.View().IsDir(Index(cr3)) && Index(cr3) >= 0 && cr3 == Addr(Index(cr3))
      ensures 0x8000_0000 <= heapStart <= heapEnd <= HEAP_LIMIT
    {
    }

    lemma PlacedWhen(m: Memory)
      requires m.View().IsDir(Index(cr3)) && cr3 == Addr(Index(cr3))
      requires 0x8000_0000 <= heapStart <= heapEnd <= HEAP_LIMIT
      ensures Placed(m)
    {
    }

    lemma OkIsPlaced(m: Memory)
      requires Ok(m)
      ensures Placed(m)
    {
    }

    /** sys_sbrk for incr >= 0 below the stack. The kernel stops at the assertion in memory_create_map
        exactly when a page that the break passes is mapped already and the frames last up to it;
        otherwise the old break is returned and moved. With nothing mapped above the break it never
        stops, and the heap is mapped up to the new break exactly when the frames last. */
    method Sbrk(m: Memory, incr: nat) returns (r: int, stopped: bool, ghost leaked: int)
      requires m.Valid() && Placed(m) && heapEnd + incr <= HEAP_LIMIT && incr < 0x8000_0000
      modifies this, m`owner, m.bitmap.bits, m.ram
      ensures m.Valid()
      ensures stopped <==> BreakStops(old(m.View()), Index(cr3), old(heapEnd), incr, m.pages)
      ensures !stopped ==> r == old(heapEnd)
      ensures heapEnd == (if stopped then old(heapEnd) else old(heapEnd) + incr) && heapStart == old(heapStart)
      ensures old(Ok(m)) ==>
                && !stopped
                && (Ok(m) <==> |old(m.owner)| + BreakCost(old(m.View()), Index(cr3), old(heapEnd), heapEnd) <= m.pages)
                && (Ok(m) ==>
                      && Ceil(old(heapEnd)) <= Ceil(heapEnd)
                      && Populated(old(m.View()), m.View(), Index(cr3), Ceil(old(heapEnd)),
                                   Ceil(heapEnd) - Ceil(old(heapEnd)), 7))
    {
      hide *;
      m.Parts();
      PlacedParts(m);
      ghost var a, d, ok := m.View(), Index(cr3), Ok(m);
      FullCount(a);
      leaked, stopped := -1, false;
      r := heapEnd;
      HeapRange(heapEnd, incr);
      StopsIs(a, d, heapEnd, incr, m.pages);
      if ok {
        OkParts(m);
        HeapPages(a, d, heapStart, heapEnd, incr);
        HeapNoStop(a, d, heapStart, heapEnd, incr, m.pages);
      }
      SmallHeap(heapEnd, incr);
      PopulatedSelf(a, d, Ceil(heapEnd), 7);
      if incr == 0 {
        SamePage(heapEnd, 0);
        NoRange(a, d, Ceil(heapEnd), m.pages);
        if ok {
          HeapSame(a, d, heapStart, heapEnd, heapEnd);
        }
        return;
      }
      var start, end, left := heapEnd, heapEnd + incr, incr;
      var offset := start % PAGE;
      if offset != 0 {
        if offset + incr <= PAGE {
          SamePage(heapEnd, incr);
          NoRange(a, d, Ceil(heapEnd), m.pages);
          if ok {
            HeapSame(a, d, heapStart, heapEnd, end);
          }
          heapEnd := end;
          MakeOk(m);
          return;
        }
        left := left - (PAGE - offset);
        start := start + (PAGE - offset);
      }
      NewPages(heapEnd, incr, start);
      RwUser();
      m.Different();
      if left != 0 {
        PageCountIs(end - start);
        CostIs(a, d, heapEnd, end);
        var err;
        ghost var done, z;
        err, done, z, leaked := AllocForPageDir(m, cr3, start, end - start, Or(Or(1, 4), 2));
        if err == STOPPED {
          return -1, true, leaked;
        }
        if ok {
          HeapGrows(a, z, m.View(), d, heapStart, heapEnd, incr, done, leaked);
          DirStays(a, z, m.View(), d, Ceil(heapEnd), done, leaked);
        }
        if err < 0 {
          return -1, false, leaked;
        }
      }
      heapEnd := end;
      if ok {
        MakeOk(m);
      }
    }

    /** Any series of sys_sbrk calls of the process, as long as the frames last: every call returns
        the break before it, and the heap is mapped up to the sum. */
    method SbrkSeries(m: Memory, incrs: seq<nat>) returns (breaks: seq<int>)
      requires m.Valid() && Ok(m) && heapEnd + Sum(incrs) <= HEAP_LIMIT
      requires forall i :: 0 <= i < |incrs| ==> incrs[i] < 0x8000_0000
      requires |m.owner| + BreakCost(m.View(), Index(cr3), heapEnd, heapEnd + Sum(incrs)) <= m.pages
      modifies this, m`owner, m.bitmap.bits, m.ram
      ensures m.Valid() && Ok(m) && |breaks| == |incrs| && heapStart == old(heapStart)
      ensures heapEnd == old(heapEnd) + Sum(incrs)
      ensures forall i :: 0 <= i < |incrs| ==> breaks[i] == old(heapEnd) + Sum(incrs[..i])
    {
      hide *;
      breaks := [];
      ghost var start := heapEnd;
      ghost var total := Sum(incrs);
      SumNone(incrs);
      var i := 0;
      while i < |incrs|
        invariant 0 <= i <= |incrs| == |breaks| + (|incrs| - i) && m.Valid() && Ok(m) && heapStart == old(heapStart)
        invariant heapEnd == start + Sum(incrs[..i]) && heapEnd <= start + total <= HEAP_LIMIT
        invariant |m.owner| + BreakCost(m.View(), Index(cr3), heapEnd, start + total) <= m.pages
        invariant forall k :: 0 <= k < i ==> breaks[k] == start + Sum(incrs[..k])
      {
        SumNext(incrs, i);
        ghost var a, d, e := m.View(), Index(cr3), heapEnd;
        m.Parts();
        OkParts(m);
        CostSplit(a, d, e, e + incrs[i], start + total);
        var b;
        var stopped;
        ghost var leaked;
        OkIsPlaced(m);
        b, stopped, leaked := Sbrk(m, incrs[i]);
        m.Parts();
        CostAfter(a, m.View(), d, e, heapEnd, start + total);
        breaks := breaks + [b];
        i := i + 1;
      }
      assert incrs[..i] == incrs;
    }
  }

  lemma {:induction false} MissingSplit(a: Space, b: Space, d: nat, v: nat, n: nat, k: nat, low: nat)
    requires Populated(a, b, d, v, n, low) && a.IsDir(d) && (k > 0 ==> UserPage(v) && UserPage(v + n + k - 1))
    ensures Missing(a, d, v, n + k) == Missing(a, d, v, n) + Missing(b, d, v + n, k)
    decreases k
  {
    hide Space.Pte, Space.Ent, Present, Touches, Missing, PartOf;
    if k > 0 {
      var u := v + n + k - 1;
      assert UserPage(u);
      MissingSplit(a, b, d, v, n, k - 1, low);
      UserIndex(u);
      MissingNext(a, d, v, n + k - 1);
      MissingNext(b, d, v + n, k - 1);
      TouchesSplit(v, n, k - 1, u / 1024);
    } else {
      MissingOne(b, d, v + n);
    }
  }

  lemma TouchesSplit(v: nat, n: nat, k: nat, i: int)
    requires i == (v + n + k) / 1024
    ensures Touches(v, n + k, i) <==> Touches(v, n, i) || Touches(v + n, k, i)
  {
  }

  lemma CostSplit(a: Space, d: int, start: nat, mid: nat, end: nat)
    requires start <= mid <= end
    ensures BreakCost(a, d, start, mid) <= BreakCost(a, d, start, end)
  {
    hide Ceil, Missing;
    CeilMono(start, mid);
    CeilMono(mid, end);
    MissingMono(a, d, Ceil(start), Ceil(mid) - Ceil(start), Ceil(end) - Ceil(start));
  }

  /** What is left to pay after a part of the way. */
  lemma CostAfter(a: Space, b: Space, d: nat, start: nat, mid: nat, end: nat)
    requires 0x8000_0000 <= start <= mid <= end <= HEAP_LIMIT && Ceil(start) <= Ceil(mid) && a.IsDir(d)
    requires Populated(a, b, d, Ceil(start), Ceil(mid) - Ceil(start), 7)
    ensures |b.owner| + BreakCost(b, d, mid, end) == |a.owner| + BreakCost(a, d, start, end)
  {
    hide Space.Pte, Space.Ent, Present, Touches, Missing, Ceil, Populated;
    CeilMono(mid, end);
    CeilMono(0x8000_0000, start);
    CeilMono(end, HEAP_LIMIT);
    CeilTop();
    CountAt(a, b, d, Ceil(start), Ceil(mid) - Ceil(start), 7);
    MissingSplit(a, b, d, Ceil(start), Ceil(mid) - Ceil(start), Ceil(end) - Ceil(mid), 7);
    CostIs(a, d, start, end);
    CostIs(b, d, mid, end);
  }

  lemma CeilTop()
    ensures Ceil(HEAP_LIMIT) < 1024 * 1024 && Ceil(0x8000_0000) == USER * 1024 && USER == 512
  {
  }

  // ---------------------------------------------------------------- a break that stops the kernel

  /** The first page above the break is mapped already: moving the break by one byte stops the kernel. */
  method SbrkStops() returns (m: Memory, p: Process, stopped: bool)
    ensures m.Valid() && p.heapStart == p.heapEnd == 0x8000_0000 && stopped
  {
    hide *;
    var dir;
    m, dir := OnePageMemory();
    p := new Process(dir, 0x8000_0000);
    LowBreak();
    p.PlacedWhen(m);
    SizeOf(m);
    FirstStops(m.View(), Index(dir), m.pages);
    var r;
    ghost var leaked;
    r, stopped, leaked := p.Sbrk(m, 1);
  }

  lemma LowBreak()
    ensures 0x8000_0000 < HEAP_LIMIT
  {
  }

  lemma FirstStops(a: Space, d: int, pages: nat)
    requires Present(a.Pte(d, FIRST)) && |a.owner| == 3 && pages == 5
    ensures BreakStops(a, d, 0x8000_0000, 1, pages)
  {
    hide Space.Pte, Present;
    FirstAddr();
    assert Ceil(0x8000_0000) == FIRST && Ceil(0x8000_0001) == FIRST + 1;
    assert StopsAt(a, d, FIRST, 1, pages, 0);
  }
}
