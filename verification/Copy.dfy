/** memory_copy_uvm (kernel/core/memory.c): the copy of an address space for fork. */
module CopyUvm {
  import opened Bits
  import opened Mmu
  import opened PageSpace
  import opened PageSteps
  import opened PageRelations
  import opened CopyRelation
  import opened Paging
  import opened DestroyUvm

  lemma Range(a: Space, kdir: seq<nat>, d: int, v: int)
    requires Wf(a, kdir) && a.IsDir(d) && UserPage(v) && Present(a.Pte(d, v))
    ensures 0 <= Index(a.Pte(d, v)) < |a.mem|
  {
    hide Present, Index, Space.Pte, Space.Ent;
    WalkOwned(a, kdir, d, v);
  }

  lemma PteParts(a: Space, d: int, v: int)
    requires UserPage(v) && Present(a.Pte(d, v))
    ensures USER <= v / 1024 < 1024 && 0 <= v % 1024 < 1024 && v / 1024 * 1024 + v % 1024 == v
    ensures Present(a.Ent(d, v / 1024))
  {
    NotPresent();
    UserIndex(v);
  }

  /** What the processor reads at a mapped user page through the loaded directory. */
  method LoadPage(m: Memory, cr3: nat, vaddr: nat) returns (f: Frame)
    requires m.Valid() && m.View().IsDir(Index(cr3)) && vaddr < TWO_32 && UserPage(vaddr / PAGE)
    requires Present(m.View().Pte(Index(cr3), vaddr / PAGE))
    ensures 0 <= Index(m.View().Pte(Index(cr3), vaddr / PAGE)) < |m.View().mem|
    ensures f == m.View().mem[Index(m.View().Pte(Index(cr3), vaddr / PAGE))]
  {
    hide *;
    m.Parts();
    Limits(m);
    MemShape(m);
    m.IndexIs(cr3);
    ghost var a, v := m.View(), vaddr / PAGE;
    DirIn(a, m.kdir, Index(cr3));
    m.VaddrIs(vaddr);
    PteParts(a, Index(cr3), v);
    Range(a, m.kdir, Index(cr3), v);
    var d := cr3 / PAGE - 256;
    WordsRead(m, a, m.kdir, d, v / 1024, v % 1024);
    var e := Word(m.ram[d], PdeIndex(vaddr));
    m.FrameIndex(e);
    var t := FrameAddr(e) / PAGE - 256;
    var p := Word(m.ram[t], PteIndex(vaddr));
    m.FrameIndex(p);
    f := m.ram[FrameAddr(p) / PAGE - 256];
  }

  lemma PermIs(e: nat)
    requires e < TWO_32 && Present(e)
    ensures Perm(e) == e % 1024 < PAGE && Or(Perm(e), PRESENT) == e % 1024
  {
    hide Or, And;
    EntryField(e);
    OrOne(e % 1024);
    OddLow(e);
  }

  lemma OddLow(e: nat)
    ensures e % 1024 % 2 == e % 2
  {
    var q, r := e / 1024, e % 1024;
    DivModUnique(e, 512 * q + r / 2, r % 2, 2);
  }

  /** c maps nothing at page n yet. */
  lemma ChildFree(a: Space, b: Space, d: int, c: nat, n: nat, p: nat)
    requires Copied(a, b, d, c, n) && UserPage(n) && p !in b.owner
    ensures !Present(Take(b, p).Pte(c, n)) && b.IsDir(c) && Take(b, p).IsDir(c) && Take(b, p).Owns(p, Single)
  {
    hide Present, Space.Pte, Space.Ent, HasPage, Need;
    SamePte(b, Take(b, p));
    assert PageCopied(a, b, d, c, n, n);
  }

  lemma CountCopied(a: Space, b: Space, d: int, c: nat, n: nat)
    requires Copied(a, b, d, c, n) && UserPage(n) && Present(a.Pte(d, n))
    ensures |b.owner| == |a.owner| + 1 + Need(a, d, n)
    ensures Need(a, d, n + 1) == Need(a, d, n) + if HasPage(a, d, n / 1024, n) then 1 else 2
    ensures forall p :: p !in b.owner ==> Missing(Take(b, p), c, n, 1) == if HasPage(a, d, n / 1024, n) then 0 else 1
  {
    hide Present, Space.Pte, Space.Ent, HasPage, Need, Missing;
    UserIndex(n);
    NeedNext(a, d, n);
    forall p: nat
      ensures Missing(Take(b, p), c, n, 1) == if HasPage(a, d, n / 1024, n) then 0 else 1
    {
      MissingOne(Take(b, p), c, n);
      SameOwner(b, Take(b, p));
    }
  }

  /** The parent's page is mapped as it was. */
  lemma ParentSame(a: Space, b: Space, d: int, c: nat, n: nat)
    requires Copied(a, b, d, c, n) && a.IsDir(d)
    ensures b.IsDir(d) && b.IsDir(c) && |b.mem| == |a.mem| && forall u :: UserPage(u) ==> b.Pte(d, u) == a.Pte(d, u)
  {
    hide Present, Space.Pte, Space.Ent, HasPage, Need, PageCopied;
    assert UserPage(FIRST);
    assert b.Owns(d, a.owner[d]);
  }

  lemma TakeSize(b: Space, p: nat)
    requires p !in b.owner
    ensures |Take(b, p).owner| == |b.owner| + 1 && Take(b, p).mem == b.mem
  {
    AddKey(b.owner, p, Single);
  }

  lemma StoreIs(g: Space, p: nat, f: Frame)
    requires p < |g.mem|
    ensures Store(g, p, f).mem == g.mem[p := f] && Store(g, p, f).owner == g.owner
  {
  }

  lemma VaddrPage(n: nat)
    requires UserPage(n)
    ensures n * PAGE < TWO_32 && n * PAGE / PAGE == n && n >= FIRST
  {
    MultipleMod(n, PAGE);
  }

  /** After the new page is mapped, the parent's page is still where it was. */
  lemma SourceAfter(a: Space, b: Space, g: Space, kdir: seq<nat>, d: nat, c: nat, n: nat, p: nat, low: nat)
    requires Copied(a, b, d, c, n) && Wf(a, kdir) && a.IsDir(d) && UserPage(n) && Present(a.Pte(d, n)) && p < |b.mem|
    requires p !in b.owner
    requires Grown(Take(b, p), g, c, n, p, 1, low)
    ensures g.IsDir(d) && g.Pte(d, n) == a.Pte(d, n)
    ensures var s := Index(a.Pte(d, n)); 0 <= s < |a.mem| && |g.mem| == |b.mem| == |a.mem| && g.mem[s] == b.mem[s]
  {
    hide *;
    SourcePage(a, kdir, d, n);
    CopiedParts(a, b, d, c, n);
    GrownParts(b, g, c, n, p, low);
    NotChild(a, c, d);
    SourceOwner(a, b, Index(a.Pte(d, n)));
  }

  lemma NotChild(a: Space, c: nat, d: nat)
    requires c !in a.owner && a.IsDir(d)
    ensures c != d
  {
  }

  lemma SourceOwner(a: Space, b: Space, s: int)
    requires s in a.owner && !a.IsDir(s) && !a.IsTable(s) && b.Owns(s, a.owner[s])
    ensures s in b.owner && !b.IsDir(s) && !b.IsTable(s)
  {
  }

  /** The copy of the contents: the source is read through the loaded directory, the new frame is
      written at its physical address. */
  method FillPage(m: Memory, cr3: nat, page: nat, vaddr: nat, ghost a: Space, ghost b: Space, ghost c: nat,
                  ghost n: nat, ghost perm: nat)
    requires m.Valid() && Wf(a, m.kdir) && Wf(b, m.kdir) && a.IsDir(Index(cr3)) && UserPage(n)
    requires Present(a.Pte(Index(cr3), n))
    requires Copied(a, b, Index(cr3), c, n) && vaddr == n * PAGE && perm == a.Pte(Index(cr3), n) % 1024
    requires var p := Index(page);
             && 0 <= p < |b.mem| && p !in b.owner && Grown(Take(b, p), m.View(), c, n, p, 1, perm)
             && |m.View().owner| == |Take(b, p).owner| + Missing(Take(b, p), c, n, 1)
    modifies m.ram
    ensures m.Valid() && Copied(a, m.View(), Index(cr3), c, n + 1)
  {
    hide *;
    m.Parts();
    MemShape(m);
    VaddrPage(n);
    ghost var g, d, p := m.View(), Index(cr3), Index(page);
    DirIn(a, m.kdir, d);
    SourceAfter(a, b, g, m.kdir, d, c, n, p, perm);
    var f := LoadPage(m, cr3, vaddr);
    CopyPage(a, b, g, m.kdir, d, c, n, p);
    StoreIs(g, p, f);
    m.IndexIs(page);
    m.ram[page / PAGE - 256] := f;
    m.Make(Store(g, p, f));
  }

  /** A new frame for page n of the child: allocated and mapped, or 0. A frame whose table cannot be
      made is left allocated. */
  method MapFresh(m: Memory, toDir: nat, vaddr: nat, perm: nat, ghost a: Space, ghost d: nat, ghost c: nat,
                  ghost n: nat)
    returns (page: nat, ghost leaked: int)
    requires m.Valid() && UserPage(n) && Present(a.Pte(d, n)) && Copied(a, m.View(), d, c, n)
    requires toDir == Addr(c) && c < m.pages && vaddr == n * PAGE && perm == Or(perm, PRESENT) && perm < PAGE
    modifies m`owner, m.bitmap.bits, m.ram
    ensures m.Valid()
    ensures page != 0 <==> |a.owner| + 1 + Need(a, d, n + 1) <= m.pages
    ensures page == 0 ==> leaked >= -1 && (leaked >= 0 ==> leaked !in old(m.View()).owner)
                          && m.View() == if leaked < 0 then old(m.View()) else Take(old(m.View()), leaked)
    ensures page == 0 ==> |a.owner| + 1 + Need(a, d, n) + (if leaked < 0 then 0 else 1) == m.pages
    ensures page == 0 && leaked >= 0 ==> !HasPage(a, d, n / 1024, n)
    ensures page != 0 ==>
              var b, p := old(m.View()), Index(page);
              && 0 <= p < |b.mem| && p !in b.owner && Grown(Take(b, p), m.View(), c, n, p, 1, perm)
              && |m.View().owner| == |Take(b, p).owner| + Missing(Take(b, p), c, n, 1)
  {
    hide *;
    m.Parts();
    Limits(m);
    MemShape(m);
    FullCount(m.View());
    VaddrPage(n);
    ghost var b := m.View();
    CountCopied(a, b, d, c, n);
    DirAddr(c);
    page := m.AllocPage();
    m.Parts();
    if page == 0 {
      return 0, -1;
    }
    ghost var p, t := Index(page), m.View();
    TakeSize(b, p);
    FullCount(t);
    ChildFree(a, b, d, c, n, p);
    MissingOne(t, c, n);
    var e, done := m.CreateMap(toDir, vaddr, page, 1, perm);
    m.Parts();
    if e < 0 {
      return 0, p;
    }
    return page, -1;
  }

  /** The body of the inner loop of memory_copy_uvm for a present entry. */
  method CopyOne(m: Memory, cr3: nat, toDir: nat, vaddr: nat, perm: nat, ghost a: Space, ghost c: nat, ghost n: nat)
    returns (err: int, ghost leaked: int)
    requires m.Valid() && Wf(a, m.kdir) && a.IsDir(Index(cr3)) && UserPage(n) && Present(a.Pte(Index(cr3), n))
    requires Copied(a, m.View(), Index(cr3), c, n) && toDir == Addr(c) && c < m.pages && vaddr == n * PAGE
    requires perm == a.Pte(Index(cr3), n) % 1024 == Or(perm, PRESENT) && perm < PAGE
    modifies m`owner, m.bitmap.bits, m.ram
    ensures m.Valid() && (err == 0 || err == -1)
    ensures err == 0 <==> |a.owner| + 1 + Need(a, Index(cr3), n + 1) <= m.pages
    ensures err == 0 ==> Copied(a, m.View(), Index(cr3), c, n + 1)
    ensures err == -1 ==> leaked >= -1 && (leaked >= 0 ==> leaked !in old(m.View()).owner)
                          && m.View() == if leaked < 0 then old(m.View()) else Take(old(m.View()), leaked)
    ensures err == -1 ==> |a.owner| + 1 + Need(a, Index(cr3), n) + (if leaked < 0 then 0 else 1) == m.pages
    ensures err == -1 && leaked >= 0 ==> !HasPage(a, Index(cr3), n / 1024, n)
  {
    hide *;
    m.Parts();
    DirIn(a, m.kdir, Index(cr3));
    ghost var b := m.View();
    var page;
    page, leaked := MapFresh(m, toDir, vaddr, perm, a, Index(cr3), c, n);
    if page == 0 {
      return -1, leaked;
    }
    FillPage(m, cr3, page, vaddr, a, b, c, n, perm);
    return 0, -1;
  }

  /** Copying stopped at page n of d in state z, with the frame leaked allocated and not mapped if it
      is not negative, because the frames ran out. */
  ghost predicate Stopped(a: Space, b: Space, z: Space, d: nat, c: nat, n: nat, leaked: int, pages: nat) {
    && UserPage(n) && Present(a.Pte(d, n)) && Copied(a, z, d, c, n)
    && leaked >= -1 && (leaked >= 0 ==> leaked !in z.owner && !HasPage(a, d, n / 1024, n))
    && b == (if leaked < 0 then z else Take(z, leaked))
    && |a.owner| + 1 + Need(a, d, n) + (if leaked < 0 then 0 else 1) == pages
    && |a.owner| + 1 + Need(a, d, n + 1) > pages
  }

  /** The parent's table stays the parent's while the copy goes on. */
  lemma ParentTable(a: Space, b: Space, kdir: seq<nat>, d: nat, c: nat, n: nat, i: nat)
    requires Copied(a, b, d, c, n) && a.IsDir(d) && Wf(b, kdir) && USER <= i < 1024 && Present(b.Ent(d, i))
    ensures 0 <= Index(b.Ent(d, i)) && a.Owns(Index(b.Ent(d, i)), Table(d, i))
  {
    hide Present, Index, Space.Pte, Space.Ent, HasPage, Need, PageCopied;
    PageIndex(i, 0);
    ParentSame(a, b, d, c, n);
    WalkOwned(b, kdir, d, i * 1024);
    var t := Index(b.Ent(d, i));
    assert t !in a.owner ==> PartOf(b, t, c);
  }

  lemma TableWords(m: Memory, a: Space, b: Space, d: nat, c: nat, n: nat, i: nat, j: nat, table: nat)
    requires m.Shape() && b.mem == m.ram[..] && Wf(b, m.kdir) && Copied(a, b, d, c, n) && a.IsDir(d)
    requires USER <= i < 1024 && j < 1024 && a.Owns(table, Table(d, i)) && n == i * 1024 + j
    ensures table < m.pages && Word(m.ram[table], j) == a.Pte(d, n) && UserPage(n)
  {
    hide Present, Index, Space.Pte, Space.Ent, HasPage, Need, PageCopied, Word;
    PageIndex(i, j);
    ParentSame(a, b, d, c, n);
    assert b.Owns(table, a.owner[table]);
    TableIs(b, m.kdir, table);
    WordsRead(m, b, m.kdir, d, i, j);
  }

  lemma SkipPage(a: Space, b: Space, d: nat, c: nat, n: nat)
    requires Copied(a, b, d, c, n) && UserPage(n) && !Present(a.Pte(d, n))
    ensures Copied(a, b, d, c, n + 1)
  {
    hide Copied, Present, Space.Pte;
    FirstIs();
    CopySkip(a, b, d, c, n);
  }

  lemma FirstIs()
    ensures FIRST == USER * 1024 && LAST == 1024 * 1024 && USER == 512
  {
  }

  lemma MakeStopped(a: Space, b: Space, z: Space, d: nat, c: nat, n: nat, leaked: int, pages: nat)
    requires UserPage(n) && Present(a.Pte(d, n)) && Copied(a, z, d, c, n)
    requires leaked >= -1 && (leaked >= 0 ==> leaked !in z.owner && !HasPage(a, d, n / 1024, n))
    requires b == (if leaked < 0 then z else Take(z, leaked))
    requires |a.owner| + 1 + Need(a, d, n) + (if leaked < 0 then 0 else 1) == pages
    requires |a.owner| + 1 + Need(a, d, n + 1) > pages
    ensures Stopped(a, b, z, d, c, n, leaked, pages)
  {
  }

  /** The inner loop of memory_copy_uvm. */
  method CopyTable(m: Memory, cr3: nat, toDir: nat, i: nat, table: nat, ghost a: Space, ghost c: nat)
    returns (err: int, ghost leaked: int, ghost z: Space, ghost n: nat)
    requires m.Valid() && Wf(a, m.kdir) && a.IsDir(Index(cr3)) && Index(cr3) >= 0 && toDir == Addr(c) && c < m.pages
    requires USER <= i < 1024 && a.Owns(table, Table(Index(cr3), i)) && Copied(a, m.View(), Index(cr3), c, i * 1024)
    modifies m`owner, m.bitmap.bits, m.ram
    ensures m.Valid() && (err == 0 || err == -1)
    ensures err == 0 ==> Copied(a, m.View(), Index(cr3), c, i * 1024 + 1024)
    ensures err == -1 ==> Stopped(a, m.View(), z, Index(cr3), c, n, leaked, m.pages)
  {
    hide *;
    ghost var d := Index(cr3);
    leaked, z, n := -1, a, i * 1024;
    var j := 0;
    m.Parts();
    MemShape(m);
    while j < 1024
      invariant 0 <= j <= 1024 && m.Valid() && Copied(a, m.View(), d, c, i * 1024 + j)
    {
      m.Parts();
      Limits(m);
      ghost var b := m.View();
      n := i * 1024 + j;
      TableWords(m, a, b, d, c, n, i, j, table);
      var e := Word(m.ram[table], j);
      if Present(e) {
        PermIs(e);
        PageAddrParts(i, j);
        err, leaked := CopyOne(m, cr3, toDir, PageAddr(i, j), Perm(e), a, c, n);
        if err < 0 {
          z := b;
          MakeStopped(a, m.View(), z, d, c, n, leaked, m.pages);
          return;
        }
      } else {
        SkipPage(a, b, d, c, n);
      }
      j := j + 1;
    }
    err := 0;
  }

  lemma {:induction false} SkipEntry(a: Space, b: Space, kdir: seq<nat>, d: nat, c: nat, i: nat, j: nat)
    requires Copied(a, b, d, c, i * 1024 + j) && a.IsDir(d) && USER <= i < 1024 && !Present(b.Ent(d, i)) && j <= 1024
    ensures Copied(a, b, d, c, i * 1024 + 1024)
    decreases 1024 - j
  {
    hide Copied, Present, Space.Pte, Space.Ent;
    if j < 1024 {
      PageIndex(i, j);
      NoPte(b, d, i, j);
      ParentSame(a, b, d, c, i * 1024 + j);
      SkipPage(a, b, d, c, i * 1024 + j);
      SkipEntry(a, b, kdir, d, c, i, j + 1);
    }
  }

  /** Nothing of what was there before has changed. */
  ghost predicate Untouched(a: Space, r: Space) {
    && SameMaps(a, r) && |r.mem| == |a.mem|
    && forall x :: x in a.owner && !a.IsDir(x) && !a.IsTable(x) && 0 <= x < |a.mem| ==> r.mem[x] == a.mem[x]
  }

  lemma StoppedIsDir(a: Space, b: Space, z: Space, d: nat, c: nat, n: nat, leaked: int, pages: nat)
    requires Stopped(a, b, z, d, c, n, leaked, pages)
    ensures b.IsDir(c)
  {
    hide HasPage, Need, Space.Pte, Space.Ent, Present;
  }

  /** Destroying the unfinished copy undoes it, up to the leaked frame. */
  lemma UndoCopy(a: Space, b: Space, z: Space, kdir: seq<nat>, d: nat, c: nat, n: nat, leaked: int, pages: nat)
    requires Stopped(a, b, z, d, c, n, leaked, pages) && Wf(a, kdir) && Wf(b, kdir) && b.IsDir(c)
    ensures Destroy(b, c).owner == if leaked < 0 then a.owner else a.owner[leaked := Single]
    ensures leaked >= 0 ==> leaked !in a.owner
    ensures Untouched(a, Destroy(b, c))
  {
    hide Wf, HasPage, Need, PageCopied, Space.Pte, Space.Ent, Present, Destroy, PartOf;
    if leaked < 0 {
      DestroyCopied(a, z, kdir, d, c, n);
    } else {
      DestroyTaken(a, z, kdir, d, c, n, leaked);
    }
    DestroyWf(b, kdir, c);
    DestroyIs(b, c);
    SamePte(z, b);
    forall e, v | a.IsDir(e) && UserPage(v)
      ensures Destroy(b, c).IsDir(e) && Destroy(b, c).Pte(e, v) == a.Pte(e, v)
    {
      assert z.IsDir(e) && z.Pte(e, v) == a.Pte(e, v);
    }
  }

  /** The copy stops for want of a table, and so leaks a frame, at a page that is the first of its
      table when exactly one frame is left. */
  ghost predicate LeakPoint(a: Space, d: int, n: nat, pages: nat) {
    UserPage(n) && Present(a.Pte(d, n)) && !HasPage(a, d, n / 1024, n) && |a.owner| + 2 + Need(a, d, n) == pages
  }

  lemma LeakIff(a: Space, b: Space, z: Space, d: nat, c: nat, n: nat, leaked: int, pages: nat)
    requires Stopped(a, b, z, d, c, n, leaked, pages)
    ensures leaked >= 0 <==> exists k :: LeakPoint(a, d, k, pages)
    ensures |a.owner| + 1 + Need(a, d, LAST) > pages
  {
    hide HasPage, Need, Copied, Space.Pte, Space.Ent, Present;
    NeedMono(a, d, n + 1, LAST);
    if leaked >= 0 {
      assert LeakPoint(a, d, n, pages);
    } else {
      forall k: nat | LeakPoint(a, d, k, pages)
        ensures false
      {
        FirstIs();
        NeedNext(a, d, k);
        if k >= n {
          NeedMono(a, d, n, k);
        } else {
          NeedMono(a, d, k + 1, n);
        }
      }
    }
  }

  lemma NoLeakWhenFull(a: Space, d: int, pages: nat)
    requires |a.owner| == pages
    ensures forall k :: !LeakPoint(a, d, k, pages)
    ensures |a.owner| + 1 + Need(a, d, LAST) > pages
  {
  }

  lemma UntouchedSelf(a: Space)
    ensures Untouched(a, a)
  {
    hide Space.Pte;
  }

  lemma CopiedCount(a: Space, b: Space, d: nat, c: nat)
    requires Copied(a, b, d, c, LAST) && InRange(b)
    ensures |a.owner| + 1 + Need(a, d, LAST) <= |a.mem|
  {
    hide Need, Space.Pte, Space.Ent, Present, HasPage, PageCopied, PartOf;
    FullCount(b);
  }

  lemma SameBits(m: Memory, u: seq<bool>, o: map<nat, Owner>)
    requires m.Valid() && m.owner == o && |u| == m.pages && forall x :: 0 <= x < m.pages ==> (u[x] <==> x in o)
    ensures m.bitmap.Used() == u
  {
  }

  /** memory_copy_uvm of the loaded address space. It succeeds exactly when the frames last; then the
      child maps exactly the parent's pages, with the same low permission bits and equal contents, on
      frames that were free before. When it fails, everything it took is given back, except for one
      frame if it stopped for want of a table. */
  method CopySpace(m: Memory, pageDir: nat, cr3: nat) returns (r: nat, ghost leaked: int)
    requires m.Valid() && m.View().IsDir(Index(pageDir)) && pageDir == Addr(Index(pageDir)) && cr3 == pageDir
    modifies m`owner, m.bitmap.bits, m.ram
    ensures m.Valid()
    ensures r != 0 <==> |old(m.owner)| + 1 + Need(old(m.View()), Index(pageDir), LAST) <= m.pages
    ensures r != 0 ==>
              Index(r) >= 0 && r == Addr(Index(r)) && Copied(old(m.View()), m.View(), Index(pageDir), Index(r), LAST)
    ensures r == 0 ==> Untouched(old(m.View()), m.View())
    ensures r == 0 ==> (leaked >= 0 ==> leaked !in old(m.owner))
                       && m.owner == if leaked < 0 then old(m.owner) else old(m.owner)[leaked := Single]
    ensures r == 0 ==> (leaked >= 0 <==> exists k :: LeakPoint(old(m.View()), Index(pageDir), k, m.pages))
    ensures r == 0 && leaked < 0 ==> m.bitmap.Used() == old(m.bitmap.Used())
  {
    hide *;
    m.Parts();
    Limits(m);
    MemShape(m);
    FirstIs();
    ghost var a, d, u := m.View(), Index(pageDir), m.bitmap.Used();
    DirIn(a, m.kdir, d);
    leaked := -1;
    var toDir := m.CreateUvm();
    m.Parts();
    if toDir == 0 {
      NoLeakWhenFull(a, d, m.pages);
      UntouchedSelf(a);
      SameBits(m, u, a.owner);
      return 0, -1;
    }
    ghost var c := Index(toDir);
    CopyStart(a, m.kdir, d, c, m.ram[c]);
    m.UserStart();
    m.IndexIs(pageDir);
    var from := pageDir / PAGE - 256;
    var i := PdeIndex(0x8000_0000);
    while i < 1024
      invariant USER <= i <= 1024 && m.Valid() && Copied(a, m.View(), d, c, i * 1024)
    {
      m.Parts();
      Limits(m);
      ghost var b := m.View();
      ParentSame(a, b, d, c, i * 1024);
      WordsRead(m, b, m.kdir, d, i, 0);
      var e := Word(m.ram[from], i);
      if Present(e) {
        ParentTable(a, b, m.kdir, d, c, i * 1024, i);
        IndexWord(e);
        var err;
        ghost var z, n;
        err, leaked, z, n := CopyTable(m, cr3, toDir, i, FrameAddr(e) / PAGE - 256, a, c);
        if err < 0 {
          m.Parts();
          StoppedIsDir(a, m.View(), z, d, c, n, leaked, m.pages);
          LeakIff(a, m.View(), z, d, c, n, leaked, m.pages);
          UndoCopy(a, m.View(), z, m.kdir, d, c, n, leaked, m.pages);
          DestroySpace(m, toDir);
          m.Parts();
          if leaked < 0 {
            SameBits(m, u, a.owner);
          }
          return 0, leaked;
        }
      } else {
        SkipEntry(a, b, m.kdir, d, c, i, 0);
      }
      i := i + 1;
    }
    m.Parts();
    CopiedCount(a, m.View(), d, c);
    DirAddrPositive(c);
    return toDir, -1;
  }

  lemma DirAddrPositive(c: int)
    ensures c >= 0 ==> Addr(c) > 0
  {
  }

  // ---------------------------------------------------------------- a copy that leaks a frame

  /** One user page is mapped, on two frames besides the directory. */
  lemma OnePage(a: Space, d: nat, pages: nat)
    requires |a.owner| == 3 && pages == 5 && Present(a.Pte(d, FIRST))
    ensures exists k :: LeakPoint(a, d, k, pages)
    ensures LeakPoint(a, d, FIRST, pages) && |a.owner| + 1 + Need(a, d, LAST) > pages
  {
    hide Space.Pte, Space.Ent, Present, HasPage, Need;
    FirstIs();
    NoneBelow(a, d, USER);
    NeedNext(a, d, FIRST);
    NeedMono(a, d, FIRST + 1, LAST);
    assert LeakPoint(a, d, FIRST, pages);
  }

  lemma EmptyMemory(m: Memory)
    requires forall p :: p in m.owner <==> p in []
    ensures m.owner == map[] && |m.View().owner| == 0
  {
    assert m.owner == map[];
  }

  lemma FirstAddr()
    ensures 0x8000_0000 / PAGE == FIRST && PAGE == 4096 && TWO_32 > 0x8000_0000 && UserPage(FIRST)
    ensures FIRST / 1024 == USER
  {
  }

  lemma NewDirSize(a: Space, p: nat, f: Frame)
    requires p < |a.mem| && p !in a.owner
    ensures |NewDir(a, p, f).owner| == |a.owner| + 1
  {
    AddKey(a.owner, p, Dir);
  }

  lemma AfterUvm(a: Space, kdir: seq<nat>, p: nat, f: Frame, q: nat)
    requires Wf(a, kdir) && p < |a.mem| && p !in a.owner && Fresh(f, kdir) && q !in NewDir(a, p, f).owner
    ensures var t := Take(NewDir(a, p, f), q);
            && |t.owner| == |a.owner| + 2 && t.IsDir(p) && t.Pte(p, FIRST) == 0 && t.Owns(q, Single) && !Present(0)
            && Missing(t, p, FIRST, 1) == 1
  {
    hide Wf, Present, Index, Space.Pte, Space.Ent, Missing;
    FirstAddr();
    NewDirPte(a, kdir, p, f, p, FIRST);
    MissingOne(Take(NewDir(a, p, f), q), p, FIRST);
    SameOwner(NewDir(a, p, f), Take(NewDir(a, p, f), q));
    NotPresent();
    NewDirWf(a, kdir, p, f);
    AddKey(a.owner, p, Dir);
    AddKey(NewDir(a, p, f).owner, q, Single);
    SamePte(NewDir(a, p, f), Take(NewDir(a, p, f), q));
  }

  lemma OneMapped(t: Space, b: Space, d: nat, q: nat)
    requires Grown(t, b, d, FIRST, q, 1, Or(0, PRESENT)) && t.IsDir(d)
    ensures Present(b.Pte(d, FIRST)) && b.IsDir(d)
  {
    hide Space.Pte, Space.Ent, Present, Addr, Touches;
    FirstAddr();
    OrOne(0);
    OddEntry(q, 1);
  }

  lemma FiveFrames()
    ensures 5 <= MAX_PAGES && USER == 512 && PAGE > 0 && !Present(0)
  {
  }

  lemma SizeOf(m: Memory)
    ensures m.View().owner == m.owner
  {
  }

  /** A memory of five frames, one with a directory and one taken for a page. */
  method DirAndPage() returns (m: Memory, dir: nat, page: nat)
    ensures fresh(m) && fresh(m.ram) && fresh(m.bitmap) && fresh(m.bitmap.bits)
    ensures m.Valid() && m.pages == 5 && |m.owner| == 2
    ensures Index(dir) >= 0 && dir == Addr(Index(dir)) && Index(page) >= 0 && page == Addr(Index(page))
    ensures m.View().IsDir(Index(dir)) && m.View().Owns(Index(page), Single)
    ensures !Present(m.View().Pte(Index(dir), FIRST)) && Missing(m.View(), Index(dir), FIRST, 1) == 1
  {
    hide *;
    FiveFrames();
    FirstAddr();
    m := new Memory(seq(5, _ => ZeroFrame()), seq(1024, _ => 0), []);
    EmptyMemory(m);
    m.Parts();
    ghost var a := m.View();
    dir := m.CreateUvm();
    m.Parts();
    ghost var d, f := Index(dir), m.ram[Index(dir)];
    NewDirSize(a, d, f);
    page := m.AllocPage();
    m.Parts();
    AfterUvm(a, m.kdir, d, f, Index(page));
    SizeOf(m);
  }

  /** A memory of five frames, one with a directory, one with its table and one with its only page. */
  method OnePageMemory() returns (m: Memory, dir: nat)
    ensures fresh(m) && fresh(m.ram) && fresh(m.bitmap) && fresh(m.bitmap.bits)
    ensures m.Valid() && m.pages == 5 && |m.owner| == 3 && Index(dir) >= 0 && dir == Addr(Index(dir))
    ensures m.View().IsDir(Index(dir)) && Present(m.View().Pte(Index(dir), FIRST))
  {
    hide *;
    FiveFrames();
    FirstAddr();
    var page;
    m, dir, page := DirAndPage();
    SizeOf(m);
    ghost var d, t := Index(dir), m.View();
    m.NonePresentYet(t, d, FIRST);
    m.NonePresentNext(t, d, FIRST, 0);
    var err, done := m.CreateMap(dir, 0x8000_0000, page, 1, 0);
    OneMapped(t, m.View(), d, Index(page));
    SizeOf(m);
  }

  /** A copy that leaks: the child's directory and page take the two frames that are left, and none is
      left for its table. */
  method CopyLeaks() returns (m: Memory, r: nat, ghost before: map<nat, Owner>, ghost leaked: int)
    ensures m.Valid() && m.pages == 5 && r == 0 && |before| == 3
    ensures leaked >= 0 && leaked !in before && m.owner == before[leaked := Single]
  {
    hide *;
    var dir;
    m, dir := OnePageMemory();
    SizeOf(m);
    m.Parts();
    OnePage(m.View(), Index(dir), 5);
    before := m.owner;
    r, leaked := CopySpace(m, dir, dir);
  }

  // ---------------------------------------------------------------- what the copy means

  /** A finished copy as the two processes see it: the same user pages are mapped, with the same low
      permission bits and equal contents, on frames that nobody had before and that no other user page
      of any directory uses. */
  lemma CopyIsEqualAndIsolated(a: Space, b: Space, kdir: seq<nat>, d: nat, c: nat, v: nat)
    requires Wf(a, kdir) && Wf(b, kdir) && a.IsDir(d) && Copied(a, b, d, c, LAST) && UserPage(v)
    ensures Translate(b, c, v).Mapped? <==> Translate(a, d, v).Mapped?
    ensures Translate(a, d, v).Mapped? ==>
              var q, p := Translate(b, c, v).frame, Translate(a, d, v).frame;
              && 0 <= q < |b.mem| && 0 <= p < |a.mem| && b.mem[q] == a.mem[p]
              && Translate(b, c, v).flags == Translate(a, d, v).flags % 1024 && q !in a.owner
              && (forall e, u ::
                    b.IsDir(e) && UserPage(u) && Translate(b, e, u).Mapped? && Translate(b, e, u).frame == q ==>
                      e == c && u == v)
  {
    hide Present, Index, Space.Pte, Space.Ent, HasPage, Need, Wf;
    FirstIs();
    assert PageCopied(a, b, d, c, LAST, v);
    LowFlags(a.Pte(d, v));
    if Present(a.Pte(d, v)) {
      WalkOwned(b, kdir, c, v);
      forall e, u | b.IsDir(e) && UserPage(u) && Present(b.Pte(e, u)) && Index(b.Pte(e, u)) == Index(b.Pte(c, v))
        ensures e == c && u == v
      {
        WalkOwned(b, kdir, e, u);
      }
    }
  }

  lemma CopiedDir(a: Space, b: Space, d: nat, c: nat, n: nat, e: int)
    requires Copied(a, b, d, c, n) && a.IsDir(e)
    ensures b.IsDir(e) && b.IsDir(c) && e != c && |b.mem| == |a.mem|
    ensures forall u :: UserPage(u) ==> b.Pte(e, u) == a.Pte(e, u)
  {
    hide Present, Space.Pte, Space.Ent, HasPage, Need, PageCopied, PartOf;
    assert b.Owns(e, a.owner[e]);
  }

  /** The copy leaves every translation of every directory from before, the parent's included, as it
      was, and the child's kernel half is the parent's. */
  lemma CopyKeepsTranslations(a: Space, b: Space, kdir: seq<nat>, d: nat, c: nat, n: nat, e: int, u: int)
    requires Wf(a, kdir) && Wf(b, kdir) && |kdir| == 1024 && a.IsDir(d) && Copied(a, b, d, c, n) && a.IsDir(e)
    requires AnyPage(u)
    ensures Translate(b, e, u) == Translate(a, e, u)
    ensures KernelPage(u) ==> Translate(b, c, u) == Translate(a, d, u)
  {
    hide Present, Index, Space.Pte, Space.Ent, HasPage, Need, Wf, PageCopied, PartOf;
    WfParts(a, kdir);
    CopiedDir(a, b, d, c, n, e);
    assert KeepsKernel(a, b);
    SameEverywhere(a, b, kdir, e, u);
    if KernelPage(u) {
      KernelTranslates(a, b, kdir, d, c, u);
    }
  }

  /** A failed copy leaves them too. */
  lemma FailedCopyKeepsTranslations(a: Space, r: Space, kdir: seq<nat>, leaked: int, e: int, u: int)
    requires Wf(a, kdir) && Wf(r, kdir) && |kdir| == 1024 && Untouched(a, r) && a.IsDir(e) && AnyPage(u)
    requires leaked >= 0 ==> leaked !in a.owner
    requires r.owner == if leaked < 0 then a.owner else a.owner[leaked := Single]
    ensures Translate(r, e, u) == Translate(a, e, u)
  {
    hide Present, Index, Space.Pte, Space.Ent, Wf;
    WfParts(a, kdir);
    assert KeepsKernel(a, r);
    SameEverywhere(a, r, kdir, e, u);
  }

  lemma LowFlags(e: nat)
    ensures e % PAGE % 1024 == e % 1024
  {
    var q, r := e / PAGE, e % PAGE;
    DivModUnique(e, 4 * q + r / 1024, r % 1024, 1024);
  }

  /** Copying and then destroying the copy restores the owners, and so the bitmap, and every
      translation exactly. */
  lemma CopyThenDestroy(a: Space, b: Space, kdir: seq<nat>, d: nat, c: nat)
    requires Wf(a, kdir) && Wf(b, kdir) && |kdir| == 1024 && a.IsDir(d) && Copied(a, b, d, c, LAST)
    ensures Destroy(b, c).owner == a.owner && Wf(Destroy(b, c), kdir)
    ensures forall e, u :: a.IsDir(e) && AnyPage(u) ==> Translate(Destroy(b, c), e, u) == Translate(a, e, u)
  {
    hide Wf, HasPage, Need, PageCopied, Space.Pte, Space.Ent, Present, Index, Destroy, PartOf, Translate, AnyPage;
    DestroyCopied(a, b, kdir, d, c, LAST);
    DestroyWf(b, kdir, c);
    forall e, u | a.IsDir(e) && AnyPage(u)
      ensures Translate(Destroy(b, c), e, u) == Translate(a, e, u)
    {
      CopiedDir(a, b, d, c, LAST, e);
      CopyKeepsTranslations(a, b, kdir, d, c, LAST, e, u);
      DestroyTranslates(b, kdir, c, e, u);
    }
  }
}
