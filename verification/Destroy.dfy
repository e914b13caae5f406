/** memory_destroy_uvm (kernel/core/memory.c): frees the pages, the tables and the directory of an
    address space. */
module DestroyUvm {
  import opened Bits
  import opened Bitmap
  import opened Mmu
  import opened PageSpace
  import opened PageSteps
  import opened Paging

  /** The frames of d freed when the walk has come to entry j of directory entry i. */
  predicate Gone(a: Space, d: nat, i: nat, j: nat, x: int) {
    x in a.owner && match a.owner[x]
                    case Page(e, v) => e == d && v < i * 1024 + j
                    case Table(e, k) => e == d && k < i
                    case _ => false
  }

  ghost predicate LeftIn(u: seq<bool>, a: Space, d: nat, i: nat, j: nat) {
    |u| == |a.mem| && forall x :: 0 <= x < |u| ==> (u[x] <==> x in a.owner && !Gone(a, d, i, j, x))
  }

  lemma ClearPageStep(u: seq<bool>, r: seq<bool>, a: Space, kdir: seq<nat>, d: nat, i: nat, j: nat)
    requires Wf(a, kdir) && a.IsDir(d) && USER <= i < 1024 && j < 1024 && LeftIn(u, a, d, i, j)
    requires var e := a.Pte(d, i * 1024 + j);
             if Present(e) then 0 <= Index(e) && r == Assigned(u, Index(e), 1, false) else r == u
    ensures LeftIn(r, a, d, i, j + 1)
  {
    hide Wf, Present, Index, Space.Pte, Space.Ent, Assigned;
    var v := i * 1024 + j;
    PageIndex(i, j);
    WalkOwned(a, kdir, d, v);
    forall x | 0 <= x < |u|
      ensures r[x] <==> x in a.owner && !Gone(a, d, i, j + 1, x)
    {
      if a.Owns(x, Page(d, v)) {
        PageIs(a, kdir, x);
      }
    }
  }

  lemma ClearTableStep(u: seq<bool>, r: seq<bool>, a: Space, kdir: seq<nat>, d: nat, i: nat)
    requires Wf(a, kdir) && a.IsDir(d) && USER <= i < 1024 && LeftIn(u, a, d, i, 1024)
    requires Present(a.Ent(d, i)) && 0 <= Index(a.Ent(d, i)) && r == Assigned(u, Index(a.Ent(d, i)), 1, false)
    ensures LeftIn(r, a, d, i + 1, 0)
  {
    hide Wf, Present, Index, Space.Pte, Space.Ent, Assigned;
    PageIndex(i, 0);
    WalkOwned(a, kdir, d, i * 1024);
    forall x | 0 <= x < |u|
      ensures r[x] <==> x in a.owner && !Gone(a, d, i + 1, 0, x)
    {
      if a.Owns(x, Table(d, i)) {
        TableIs(a, kdir, x);
      }
    }
  }

  lemma SkipTable(u: seq<bool>, a: Space, kdir: seq<nat>, d: nat, i: nat)
    requires Wf(a, kdir) && a.IsDir(d) && USER <= i < 1024 && LeftIn(u, a, d, i, 0) && !Present(a.Ent(d, i))
    ensures LeftIn(u, a, d, i + 1, 0)
  {
    hide Wf, Present, Index, Space.Ent;
    NotPresent();
    forall x | 0 <= x < |u|
      ensures Gone(a, d, i + 1, 0, x) ==> Gone(a, d, i, 0, x)
    {
      if a.IsPage(x) {
        PageIs(a, kdir, x);
        UserIndex(a.owner[x].v);
      } else if a.IsTable(x) {
        TableIs(a, kdir, x);
      }
    }
  }

  lemma NothingGone(u: seq<bool>, a: Space, kdir: seq<nat>, d: nat)
    requires Wf(a, kdir) && |u| == |a.mem| && forall x :: 0 <= x < |u| ==> (u[x] <==> x in a.owner)
    ensures LeftIn(u, a, d, USER, 0)
  {
    hide Wf, Present, Index, Space.Ent, Space.Pte;
    forall x | 0 <= x < |u|
      ensures !Gone(a, d, USER, 0, x)
    {
      if a.IsPage(x) {
        PageIs(a, kdir, x);
      } else if a.IsTable(x) {
        TableIs(a, kdir, x);
      }
    }
  }

  lemma AllGone(u: seq<bool>, r: seq<bool>, a: Space, kdir: seq<nat>, d: nat)
    requires Wf(a, kdir) && a.IsDir(d) && LeftIn(u, a, d, 1024, 0) && r == Assigned(u, d, 1, false)
    ensures |r| == |a.mem| && forall x :: 0 <= x < |r| ==> (r[x] <==> x in Destroy(a, d).owner)
  {
    hide Wf, Present, Index, Space.Ent, Space.Pte;
    forall x | 0 <= x < |u|
      ensures r[x] <==> x in Destroy(a, d).owner
    {
      if a.IsPage(x) {
        PageIs(a, kdir, x);
      } else if a.IsTable(x) {
        TableIs(a, kdir, x);
      }
    }
  }

  lemma TracksOf(m: Memory, o: map<nat, Owner>)
    requires m.Shape() && forall x :: 0 <= x < m.pages ==> (m.bitmap.Used()[x] <==> x in o)
    ensures m.Tracks(o)
  {
  }

  lemma DestroyIs(a: Space, d: nat)
    ensures Destroy(a, d).mem == a.mem
  {
  }

  /** The words a walk reads. */
  lemma WordsRead(m: Memory, a: Space, kdir: seq<nat>, d: nat, i: nat, j: nat)
    requires m.Shape() && a.mem == m.ram[..] && Wf(a, kdir) && a.IsDir(d) && USER <= i < 1024 && j < 1024
    ensures d < m.pages && Word(m.ram[d], i) == a.Ent(d, i)
    ensures Present(a.Ent(d, i)) ==>
              var t := Index(a.Ent(d, i)); 0 <= t < m.pages && Word(m.ram[t], j) == a.Pte(d, i * 1024 + j)
    ensures Present(a.Ent(d, i)) && Present(a.Pte(d, i * 1024 + j)) ==> Index(a.Pte(d, i * 1024 + j)) >= 0
  {
    hide Present, Index, Word;
    PageIndex(i, j);
    WalkOwned(a, kdir, d, i * 1024 + j);
  }

  lemma IndexWord(entry: nat)
    requires entry < TWO_32
    ensures FrameAddr(entry) / PAGE - 256 == Index(entry) && PAGE == 4096
    ensures Index(entry) >= 0 ==> FrameAddr(entry) < TWO_32
  {
    hide FrameAddr;
    EntryField(entry);
  }

  lemma DirAddr(d: nat)
    requires d < MAX_PAGES
    ensures Addr(d) < TWO_32 && Index(Addr(d)) == d && Addr(d) / PAGE - 256 == d
    ensures (Addr(d) + TWO_32 - 0x10_0000) % TWO_32 / PAGE == d && PAGE == 4096
  {
    IndexOfAddr(d, 0);
  }

  lemma Limits(m: Memory)
    requires m.Valid()
    ensures m.Shape() && m.bitmap.Valid() && |m.bitmap.Used()| == m.pages == |m.View().mem| <= MAX_PAGES && USER == 512
    ensures forall x :: 0 <= x < m.pages ==> (m.bitmap.Used()[x] <==> x in m.View().owner)
    ensures m.View().mem == m.ram[..] && m.View().owner == m.owner
  {
  }

  lemma NoPte(a: Space, d: nat, i: nat, j: nat)
    requires USER <= i < 1024 && j < 1024 && !Present(a.Ent(d, i))
    ensures !Present(a.Pte(d, i * 1024 + j))
  {
    PageIndex(i, j);
  }

  /** The inner loop of memory_destroy_uvm. */
  method FreePages(m: Memory, d: nat, i: nat, table: nat, ghost a: Space)
    requires m.Shape() && a.mem == m.ram[..] && Wf(a, m.kdir) && a.IsDir(d) && USER <= i < 1024
    requires Present(a.Ent(d, i)) && table == Index(a.Ent(d, i)) && LeftIn(m.bitmap.Used(), a, d, i, 0)
    modifies m.bitmap.bits
    ensures LeftIn(m.bitmap.Used(), a, d, i, 1024)
  {
    hide *;
    MemShape(m);
    var j := 0;
    while j < 1024
      invariant 0 <= j <= 1024 && LeftIn(m.bitmap.Used(), a, d, i, j)
    {
      WordsRead(m, a, m.kdir, d, i, j);
      ghost var u := m.bitmap.Used();
      var e := Word(m.ram[table], j);
      if Present(e) {
        IndexWord(e);
        m.FrameBounds(e);
        m.ClearBits(FrameAddr(e), 1);
      }
      ClearPageStep(u, m.bitmap.Used(), a, m.kdir, d, i, j);
      j := j + 1;
    }
  }

  lemma MemShape(m: Memory)
    requires m.Shape()
    ensures m.bitmap.Valid() && m.bitmap.bitCount == m.pages == m.ram.Length <= MAX_PAGES
    ensures USER == 512 && PAGE == 4096
  {
  }

  /** memory_destroy_uvm: exactly the frames of the address space are given back. */
  method DestroySpace(m: Memory, pageDir: nat)
    requires m.Valid() && m.View().IsDir(Index(pageDir)) && pageDir == Addr(Index(pageDir))
    modifies m`owner, m.bitmap.bits
    ensures m.Valid() && m.View() == Destroy(old(m.View()), Index(pageDir))
  {
    hide *;
    m.Parts();
    Limits(m);
    MemShape(m);
    m.UserStart();
    ghost var a := m.View();
    DirIn(a, m.kdir, Index(pageDir));
    m.IndexIs(pageDir);
    var d := pageDir / PAGE - 256;
    DirAddr(d);
    NothingGone(m.bitmap.Used(), a, m.kdir, d);
    var i := PdeIndex(0x8000_0000);
    while i < 1024
      invariant USER <= i <= 1024 && LeftIn(m.bitmap.Used(), a, d, i, 0)
    {
      WordsRead(m, a, m.kdir, d, i, 0);
      var e := Word(m.ram[d], i);
      if Present(e) {
        IndexWord(e);
        FreePages(m, d, i, FrameAddr(e) / PAGE - 256, a);
        ghost var u := m.bitmap.Used();
        m.FrameBounds(e);
        m.ClearBits(FrameAddr(e), 1);
        ClearTableStep(u, m.bitmap.Used(), a, m.kdir, d, i);
      } else {
        SkipTable(m.bitmap.Used(), a, m.kdir, d, i);
      }
      i := i + 1;
    }
    ghost var u := m.bitmap.Used();
    ClearedDir(m, pageDir, d);
    m.ClearBits(pageDir, 1);
    AllGone(u, m.bitmap.Used(), a, m.kdir, d);
    DestroyWf(a, m.kdir, d);
    DestroyIs(a, d);
    m.owner := Destroy(a, d).owner;
    TracksOf(m, m.owner);
    m.Make(Destroy(a, d));
  }

  lemma ClearedDir(m: Memory, addr: nat, d: nat)
    requires d < MAX_PAGES && addr == Addr(d)
    ensures addr < TWO_32 && m.FreeIndex(addr) == d
  {
    DirAddr(d);
  }
}
