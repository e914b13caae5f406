/** memory_get_paddr and memory_copy_uvm_data (kernel/core/memory.c): copying bytes from the loaded
    address space into another one. */
module CopyUvmData {
  import opened Bits
  import opened Bytes
  import opened Mmu
  import opened PageSpace
  import opened PageSteps
  import opened Paging
  import opened DestroyUvm
  import opened CopyUvm

  /** The frame behind an address of d; below MEMORY_TASK_BASE the kernel sees the physical memory. */
  function FrameAt(sp: Space, d: int, addr: nat): int {
    if UserPage(addr / PAGE) then Index(sp.Pte(d, addr / PAGE)) else Index(addr)
  }

  /** The byte at an address of d. */
  function ByteAt(sp: Space, d: int, addr: nat): int {
    if 0 <= FrameAt(sp, d, addr) < |sp.mem| then ByteOf(sp.mem[FrameAt(sp, d, addr)], addr % PAGE) else 0
  }

  /** What the processor sees at an address: the byte of the frame that the address translates to, and
      below 2 GB the physical byte itself. */
  lemma ByteSeen(sp: Space, kdir: seq<nat>, d: int, x: nat)
    requires Wf(sp, kdir) && sp.IsDir(d) && ReadableAt(sp, d, x)
    ensures var t := Translate(sp, d, x / 4096);
            if x >= 0x8000_0000 then
              t.Mapped? && ByteAt(sp, d, x) == PhysByte(sp.mem, 0x10_0000 + 4096 * t.frame + x % 4096) as int
            else ByteAt(sp, d, x) == PhysByte(sp.mem, x) as int
  {
    hide Wf, Index, Space.Ent, Space.Pte, Present, ByteOf, PhysByte;
    ReadFrame(sp, kdir, d, x);
    Parts32(x);
    PhysAt(sp.mem, FrameAt(sp, d, x), x % 4096);
    LowAddress(x);
  }

  lemma LowAddress(x: nat)
    ensures 0x10_0000 + 4096 * Index(x) + x % 4096 == x
  {
  }

  /** The address can be read through d: a user page is mapped, another address lies in the managed
      memory. */
  predicate ReadableAt(sp: Space, d: int, addr: nat) {
    addr < TWO_32 && if UserPage(addr / PAGE) then Present(sp.Pte(d, addr / PAGE)) else 0 <= Index(addr) < |sp.mem|
  }

  predicate MappedAt(sp: Space, d: int, addr: nat) {
    addr < TWO_32 && UserPage(addr / PAGE) && Present(sp.Pte(d, addr / PAGE))
  }

  /** The byte lies in no page of d and in no directory or table. */
  predicate ApartAt(sp: Space, s: int, addr: nat, d: int) {
    var f := FrameAt(sp, s, addr); !(sp.IsPage(f) && sp.owner[f].d == d) && !sp.IsDir(f) && !sp.IsTable(f)
  }

  /** The n bytes from from on can be read through s, the n bytes from to on are mapped in d, and the
      source lies in no page of d. */
  ghost predicate Copyable(sp: Space, d: int, to: nat, s: int, from: nat, n: nat) {
    && (forall x: nat :: from <= x < from + n ==> ReadableAt(sp, s, x) && ApartAt(sp, s, x, d))
    && (forall x: nat :: to <= x < to + n ==> MappedAt(sp, d, x))
  }

  /** A user source in another address space is always apart from the target. */
  lemma OtherSpaceApart(sp: Space, kdir: seq<nat>, s: int, d: int, addr: nat)
    requires Wf(sp, kdir) && sp.IsDir(s) && s != d && MappedAt(sp, s, addr)
    ensures ApartAt(sp, s, addr, d)
  {
    hide Wf, Present, Index, Space.Pte, Space.Ent;
    WalkOwned(sp, kdir, s, addr / PAGE);
  }

  /** From a to b, the first n bytes were copied from from (through s) to to (through d), and no
      other byte of the memory changed. */
  ghost predicate BytesCopied(a: Space, b: Space, d: int, to: nat, s: int, from: nat, n: nat) {
    && b.owner == a.owner && |b.mem| == |a.mem|
    && (forall e, u :: a.IsDir(e) && UserPage(u) ==> b.Pte(e, u) == a.Pte(e, u))
    && (forall x: nat :: to <= x < to + n ==> ByteAt(b, d, x) == ByteAt(a, s, from + (x - to)))
    && (forall x :: 0 <= x < |a.mem| && !a.IsPage(x) ==> b.mem[x] == a.mem[x])
    && (forall x, o :: 0 <= x < |a.mem| && 0 <= o < PAGE && ByteOf(b.mem[x], o) != ByteOf(a.mem[x], o) ==>
        Hit(a, d, to, n, x, o))
  }

  /** Byte o of frame f is one of the n target bytes. */
  ghost predicate Hit(a: Space, d: int, to: nat, n: nat, f: int, o: int) {
    exists x: nat :: to <= x < to + n && f == FrameAt(a, d, x) && o == x % PAGE
  }

  lemma CopiedNone(a: Space, d: int, to: nat, s: int, from: nat)
    ensures BytesCopied(a, a, d, to, s, from, 0)
  {
  }

  /** Different mapped addresses are different bytes of the memory. */
  lemma BytesApart(a: Space, kdir: seq<nat>, d: int, x: nat, y: nat)
    requires Wf(a, kdir) && a.IsDir(d) && MappedAt(a, d, x) && MappedAt(a, d, y) && x != y
    ensures FrameAt(a, d, x) != FrameAt(a, d, y) || x % PAGE != y % PAGE
  {
    hide Wf, Present, Index, Space.Pte, Space.Ent;
    WalkOwned(a, kdir, d, x / PAGE);
    WalkOwned(a, kdir, d, y / PAGE);
    assert x == x / PAGE * PAGE + x % PAGE && y == y / PAGE * PAGE + y % PAGE;
  }

  lemma MappedFrame(a: Space, kdir: seq<nat>, d: int, x: nat)
    requires Wf(a, kdir) && a.IsDir(d) && MappedAt(a, d, x)
    ensures var f := FrameAt(a, d, x); 0 <= f < |a.mem| && a.Owns(f, Page(d, x / PAGE))
  {
    hide Present, Index, Space.Pte, Space.Ent;
    WalkOwned(a, kdir, d, x / PAGE);
  }

  lemma ReadFrame(a: Space, kdir: seq<nat>, s: int, x: nat)
    requires Wf(a, kdir) && a.IsDir(s) && ReadableAt(a, s, x)
    ensures 0 <= FrameAt(a, s, x) < |a.mem|
  {
    hide Present, Index, Space.Pte, Space.Ent;
    if UserPage(x / PAGE) {
      WalkOwned(a, kdir, s, x / PAGE);
    }
  }

  /** The frames behind all addresses stay. */
  lemma FramesStay(a: Space, b: Space, d: int, to: nat, s: int, from: nat, n: nat, e: int, x: nat)
    requires BytesCopied(a, b, d, to, s, from, n) && a.IsDir(e)
    ensures FrameAt(b, e, x) == FrameAt(a, e, x) && (ReadableAt(a, e, x) ==> ReadableAt(b, e, x))
    ensures MappedAt(a, e, x) ==> MappedAt(b, e, x)
  {
    hide Space.Pte, Space.Ent, Present, Index, ByteAt, Hit;
  }

  /** One more byte. */
  lemma NextByte(a: Space, b: Space, kdir: seq<nat>, d: int, to: nat, s: int, from: nat, n: nat, p: nat, c: byte,
                 f: Frame)
    requires Wf(a, kdir) && Wf(b, kdir) && a.IsDir(d) && a.IsDir(s) && BytesCopied(a, b, d, to, s, from, n)
    requires Copyable(a, d, to, s, from, n + 1) && c == ByteAt(b, s, from + n) && p == FrameAt(a, d, to + n)
    requires p < |b.mem| && ByteChanged(b.mem[p], f, (to + n) % PAGE, c)
    ensures BytesCopied(a, Store(b, p, f), d, to, s, from, n + 1) && Wf(Store(b, p, f), kdir)
  {
    hide Wf, Space.Pte, Space.Ent, Present, Index, Hit, Copyable, FrameAt, MappedAt, ReadableAt, ApartAt, ByteAt,
      ByteOf, SetByte;
    CopyableAt(a, d, to, s, from, n + 1, n);
    MappedFrame(a, kdir, d, to + n);
    ReadFrame(a, kdir, s, from + n);
    var o := (to + n) % PAGE;
    var r := Store(b, p, f);
    StoreWf(b, kdir, p, f);
    SourceByte(a, b, kdir, d, to, s, from, n);
    forall x: nat | to <= x < to + (n + 1)
      ensures ByteAt(r, d, x) == ByteAt(a, s, from + (x - to))
    {
      TargetByte(a, b, r, kdir, d, to, s, from, n, x, p, o, c, f);
    }
    forall x, k | 0 <= x < |a.mem| && 0 <= k < PAGE && ByteOf(r.mem[x], k) != ByteOf(a.mem[x], k)
      ensures Hit(a, d, to, n + 1, x, k)
    {
      HitGrows(a, d, to, n, x, k);
      HitLast(a, d, to, n);
    }
    forall e, u | a.IsDir(e) && UserPage(u)
      ensures r.Pte(e, u) == a.Pte(e, u)
    {
      assert b.IsDir(e);
    }
  }

  lemma CopyableAt(a: Space, d: int, to: nat, s: int, from: nat, n: nat, k: nat)
    requires Copyable(a, d, to, s, from, n) && k < n
    ensures MappedAt(a, d, to + k) && ReadableAt(a, s, from + k) && ApartAt(a, s, from + k, d)
    ensures forall x: nat :: to <= x <= to + k ==> MappedAt(a, d, x)
  {
    hide MappedAt, ReadableAt, ApartAt;
  }

  lemma HitGrows(a: Space, d: int, to: nat, n: nat, f: int, o: int)
    ensures Hit(a, d, to, n, f, o) ==> Hit(a, d, to, n + 1, f, o)
  {
    hide FrameAt;
    if Hit(a, d, to, n, f, o) {
      var x: nat :| to <= x < to + n && f == FrameAt(a, d, x) && o == x % PAGE;
      assert to <= x < to + (n + 1);
    }
  }

  lemma HitLast(a: Space, d: int, to: nat, n: nat)
    ensures Hit(a, d, to, n + 1, FrameAt(a, d, to + n), (to + n) % PAGE)
  {
    hide FrameAt;
    assert to <= to + n < to + (n + 1);
  }

  /** The source bytes are not written. */
  lemma SourceByte(a: Space, b: Space, kdir: seq<nat>, d: int, to: nat, s: int, from: nat, n: nat)
    requires BytesCopied(a, b, d, to, s, from, n) && a.IsDir(s) && ApartAt(a, s, from + n, d) && a.IsDir(d)
    requires 0 <= FrameAt(a, s, from + n) < |a.mem|
    requires forall x: nat :: to <= x < to + n ==> MappedAt(a, d, x)
    requires Wf(a, kdir)
    ensures ByteAt(b, s, from + n) == ByteAt(a, s, from + n)
  {
    hide Wf, Space.Pte, Space.Ent, Present, Index, FrameAt, MappedAt, ByteOf;
    FramesStay(a, b, d, to, s, from, n, s, from + n);
    var f, o := FrameAt(a, s, from + n), (from + n) % PAGE;
    if ByteOf(b.mem[f], o) != ByteOf(a.mem[f], o) {
      var x: nat :| to <= x < to + n && f == FrameAt(a, d, x) && o == x % PAGE;
      MappedFrame(a, kdir, d, x);
    }
  }

  lemma TargetByte(a: Space, b: Space, r: Space, kdir: seq<nat>, d: int, to: nat, s: int, from: nat, n: nat, x: nat,
                   p: nat, o: nat, c: byte, f: Frame)
    requires Wf(a, kdir) && Wf(b, kdir) && a.IsDir(d) && BytesCopied(a, b, d, to, s, from, n) && to <= x <= to + n
    requires MappedAt(a, d, x) && MappedAt(a, d, to + n) && p == FrameAt(a, d, to + n) && o == (to + n) % PAGE
    requires p < |b.mem| && r == Store(b, p, f) && ByteChanged(b.mem[p], f, o, c) && c == ByteAt(a, s, from + n)
    requires !b.IsDir(p) && !b.IsTable(p)
    ensures ByteAt(r, d, x) == ByteAt(a, s, from + (x - to))
  {
    hide Wf, Space.Pte, Space.Ent, Present, Index, Hit, ByteOf, SetByte;
    MappedFrame(a, kdir, d, x);
    FramesStay(a, b, d, to, s, from, n, d, x);
    StorePte(b, kdir, p, f, d, x / PAGE);
    var q := FrameAt(a, d, x);
    assert FrameAt(r, d, x) == q;
    if x < to + n {
      BytesApart(a, kdir, d, x, to + n);
      assert ByteAt(b, d, x) == ByteAt(a, s, from + (x - to));
      assert ByteOf(r.mem[q], x % PAGE) == ByteOf(b.mem[q], x % PAGE);
    } else {
      assert q == p && ByteOf(r.mem[p], o) == c;
    }
  }

  // ---------------------------------------------------------------- the functions of memory.c

  lemma PaddrParts(sp: Space, d: int, vaddr: nat)
    requires vaddr < TWO_32
    ensures And(vaddr, PAGE - 1) == vaddr % PAGE && PAGE == 4096
  {
    hide And, Shr;
    AddressParts(vaddr);
  }

  /** memory_get_paddr: 0 without a table, else the frame of the entry, present or not, plus the
      offset. */
  method GetPaddr(m: Memory, pageDir: nat, vaddr: nat) returns (addr: nat)
    requires m.Valid() && m.View().IsDir(Index(pageDir)) && vaddr < TWO_32
    modifies m`owner, m.bitmap.bits, m.ram
    ensures m.Valid() && m.View() == old(m.View())
    ensures addr == if Present(m.View().Ent(Index(pageDir), vaddr / PAGE / 1024))
                    then FrameAddr(m.View().Pte(Index(pageDir), vaddr / PAGE)) + vaddr % PAGE else 0
  {
    hide *;
    m.Parts();
    Limits(m);
    ghost var a, d := m.View(), Index(pageDir);
    PaddrParts(a, d, vaddr);
    DirIn(a, m.kdir, d);
    var table, k := m.FindPte(pageDir, vaddr, false);
    if table == -1 {
      return 0;
    }
    if Present(a.Ent(d, vaddr / PAGE / 1024)) {
      m.ReadyOld(a, m.View(), d, vaddr / PAGE / 1024);
    }
    Limits(m);
    m.PteEntry(a, d, vaddr / PAGE, k, table);
    addr := FrameAddr(Word(m.ram[table], k)) + And(vaddr, PAGE - 1);
  }

  /** For a mapped page that is the physical address of the byte. */
  lemma PaddrMapped(a: Space, kdir: seq<nat>, d: int, x: nat, addr: nat)
    requires Wf(a, kdir) && a.IsDir(d) && MappedAt(a, d, x)
    requires addr == if Present(a.Ent(d, x / PAGE / 1024)) then FrameAddr(a.Pte(d, x / PAGE)) + x % PAGE else 0
    ensures addr == Addr(FrameAt(a, d, x)) + x % PAGE && addr / PAGE - 256 == FrameAt(a, d, x)
    ensures addr % PAGE == x % PAGE
    ensures 0 <= FrameAt(a, d, x) < |a.mem| && addr > 0 && (addr < TWO_32 ==> And(addr, PAGE - 1) == x % PAGE)
  {
    hide Present, Space.Pte, Space.Ent, And, Shr, FrameAddr;
    MappedFrame(a, kdir, d, x);
    WalkOwned(a, kdir, d, x / PAGE);
    var f, e := FrameAt(a, d, x), a.Pte(d, x / PAGE);
    PteWord(a, d, x / PAGE);
    EntryField(e);
    assert FrameAddr(e) == Addr(f);
    IndexOfAddr(f, x % PAGE);
    if addr < TWO_32 {
      AddressParts(addr);
    }
  }

  lemma PteWord(a: Space, d: int, v: int)
    ensures a.Pte(d, v) < TWO_32
  {
  }

  lemma ReadIs(a: Space, s: int, x: nat)
    requires ReadableAt(a, s, x)
    ensures UserPage(x / PAGE) <==> x >= 0x8000_0000
    ensures UserPage(x / PAGE) ==> Present(a.Pte(s, x / PAGE)) && FrameAt(a, s, x) == Index(a.Pte(s, x / PAGE))
    ensures !UserPage(x / PAGE) ==> FrameAt(a, s, x) == x / PAGE - 256 && 0 <= FrameAt(a, s, x) < |a.mem|
    ensures 0 <= FrameAt(a, s, x) < |a.mem| ==> ByteAt(a, s, x) == ByteOf(a.mem[FrameAt(a, s, x)], x % PAGE)
    ensures x < TWO_32 && PAGE == 4096
  {
  }

  /** One byte read by the processor through the loaded directory. */
  method LoadByte(m: Memory, cr3: nat, x: nat) returns (c: byte)
    requires m.Valid() && m.View().IsDir(Index(cr3)) && ReadableAt(m.View(), Index(cr3), x)
    ensures c == ByteAt(m.View(), Index(cr3), x)
  {
    hide *;
    Limits(m);
    m.Parts();
    ReadFrame(m.View(), m.kdir, Index(cr3), x);
    ReadIs(m.View(), Index(cr3), x);
    if x >= 0x8000_0000 {
      var f := LoadPage(m, cr3, x);
      c := ByteOf(f, x % PAGE);
    } else {
      c := ByteOf(m.ram[x / PAGE - 256], x % PAGE);
    }
  }

  lemma SamePageByte(x: nat, k: nat)
    requires x % PAGE + k < PAGE
    ensures (x + k) / PAGE == x / PAGE && (x + k) % PAGE == x % PAGE + k
  {
    DivModUnique(x + k, x / PAGE, x % PAGE + k, PAGE);
  }

  lemma FrameSame(a: Space, d: int, x: nat, k: nat)
    requires x % PAGE + k < PAGE && UserPage(x / PAGE)
    ensures FrameAt(a, d, x + k) == FrameAt(a, d, x) && (x + k) % PAGE == x % PAGE + k
  {
    SamePageByte(x, k);
  }

  /** Copying bytes changes no translation. */
  lemma BytesTranslate(a: Space, b: Space, kdir: seq<nat>, d: int, to: nat, s: int, from: nat, n: nat, e: int, u: int)
    requires Wf(a, kdir) && Wf(b, kdir) && |kdir| == 1024 && BytesCopied(a, b, d, to, s, from, n)
    requires a.IsDir(e) && AnyPage(u)
    ensures Translate(b, e, u) == Translate(a, e, u)
  {
    hide Space.Pte, Space.Ent, Present, Index, Wf, ByteAt, Hit, ByteOf;
    WfParts(a, kdir);
    assert KeepsKernel(a, b);
    SameEverywhere(a, b, kdir, e, u);
  }

  lemma TargetIn(a: Space, kdir: seq<nat>, d: int, x: nat)
    requires Wf(a, kdir) && a.IsDir(d) && MappedAt(a, d, x)
    ensures 0 <= FrameAt(a, d, x) < |a.mem|
  {
    MappedFrame(a, kdir, d, x);
  }

  lemma PartOfCopy(a: Space, d: int, to: nat, s: int, from: nat, n: nat, k: nat)
    requires Copyable(a, d, to, s, from, n) && k <= n
    ensures Copyable(a, d, to, s, from, k)
    ensures k < n ==>
              MappedAt(a, d, to + k) && ReadableAt(a, s, from + k) && UserPage((to + k) / PAGE) && to + k < TWO_32
  {
    if k < n {
      assert MappedAt(a, d, to + k);
    }
  }

  lemma OwnersStay(a: Space, b: Space, d: int, to: nat, s: int, from: nat, n: nat)
    requires BytesCopied(a, b, d, to, s, from, n)
    ensures b.owner == a.owner && |b.mem| == |a.mem| && forall e :: a.IsDir(e) ==> b.IsDir(e)
  {
  }

  /** kernel_memcpy of one chunk: byte after byte, within one target page. */
  method CopyChunk(m: Memory, cr3: nat, toPaddr: nat, n: nat, ghost a: Space, ghost d: int, ghost to: nat, from: nat,
                   ghost done: nat, ghost size: nat)
    requires m.Valid() && done <= from && Wf(a, m.kdir) && a.IsDir(d) && a.IsDir(Index(cr3))
    requires Copyable(a, d, to, Index(cr3), from - done, size)
    requires done + n <= size && done < size && BytesCopied(a, m.View(), d, to, Index(cr3), from - done, done)
    requires (to + done) % PAGE + n <= PAGE && toPaddr / PAGE - 256 == FrameAt(a, d, to + done)
    requires toPaddr % PAGE == (to + done) % PAGE
    modifies m.ram
    ensures m.Valid() && BytesCopied(a, m.View(), d, to, Index(cr3), from - done, done + n)
  {
    hide *;
    ghost var s := Index(cr3);
    ghost var start: nat := from - done;
    ChunkLimits(m);
    var k := 0;
    while k < n
      invariant 0 <= k <= n && m.Valid() && BytesCopied(a, m.View(), d, to, s, start, done + k)
    {
      m.Parts();
      Limits(m);
      ghost var b := m.View();
      PartOfCopy(a, d, to, s, start, size, done);
      PartOfCopy(a, d, to, s, start, size, done + k);
      PartOfCopy(a, d, to, s, start, size, done + k + 1);
      OwnersStay(a, b, d, to, s, start, done + k);
      FramesStay(a, b, d, to, s, start, done + k, s, from + k);
      FrameSame(a, d, to + done, k);
      var c := LoadByte(m, cr3, from + k);
      TargetIn(a, m.kdir, d, to + done);
      var p := toPaddr / PAGE - 256;
      SetByteChanges(m.ram[p], toPaddr % PAGE + k, c);
      var f := SetByte(m.ram[p], toPaddr % PAGE + k, c);
      NextByte(a, b, m.kdir, d, to, s, start, done + k, p, c, f);
      StoreIs(b, p, f);
      m.ram[p] := f;
      m.Make(Store(b, p, f));
      k := k + 1;
    }
  }

  lemma ChunkLimits(m: Memory)
    ensures PAGE == 4096
  {
  }

  lemma InMemory(m: Memory, f: int, o: nat)
    requires m.Valid() && 0 <= f < |m.View().mem| && o < PAGE
    ensures Addr(f) + o < TWO_32
  {
  }

  /** No table covers the address. */
  predicate NoTableAt(sp: Space, d: int, addr: nat) {
    addr < TWO_32 && !Present(sp.Ent(d, addr / PAGE / 1024))
  }

  /** The source can be read and lies in no page of d; each target byte is mapped in d or has no table. */
  ghost predicate Sendable(sp: Space, d: int, to: nat, s: int, from: nat, n: nat) {
    && (forall x: nat :: from <= x < from + n ==> ReadableAt(sp, s, x) && ApartAt(sp, s, x, d))
    && (forall x: nat :: to <= x < to + n ==> MappedAt(sp, d, x) || NoTableAt(sp, d, x))
  }

  lemma SendAt(a: Space, d: int, to: nat, s: int, from: nat, n: nat, k: nat)
    requires Sendable(a, d, to, s, from, n) && k < n
    ensures to + k < TWO_32 && (MappedAt(a, d, to + k) || NoTableAt(a, d, to + k))
  {
    hide ReadableAt, ApartAt;
    assert MappedAt(a, d, to + k) || NoTableAt(a, d, to + k);
  }

  lemma MappedIs(a: Space, d: int, x: nat)
    ensures MappedAt(a, d, x) <==> x < TWO_32 && UserPage(x / PAGE) && Present(a.Pte(d, x / PAGE))
  {
  }

  lemma SendNone(a: Space, d: int, to: nat, s: int, from: nat)
    ensures Copyable(a, d, to, s, from, 0)
  {
  }

  /** The rest of the page is mapped too. */
  lemma SendPage(a: Space, d: int, to: nat, s: int, from: nat, size: nat, done: nat, n: nat)
    requires Sendable(a, d, to, s, from, size) && Copyable(a, d, to, s, from, done) && done + n <= size
    requires n > 0 ==> MappedAt(a, d, to + done) && (to + done) % PAGE + n <= PAGE
    requires to + size <= TWO_32
    ensures Copyable(a, d, to, s, from, done + n)
  {
    hide ReadableAt, ApartAt, MappedAt;
    forall x: nat | to <= x < to + (done + n)
      ensures MappedAt(a, d, x)
    {
      if x >= to + done {
        SamePageByte(to + done, x - (to + done));
        MappedIs(a, d, to + done);
        MappedIs(a, d, x);
      }
    }
  }

  /** memory_get_paddr returns 0 exactly for the bytes without a table. */
  lemma PaddrCases(a: Space, kdir: seq<nat>, d: int, x: nat, addr: nat)
    requires Wf(a, kdir) && a.IsDir(d) && (MappedAt(a, d, x) || NoTableAt(a, d, x))
    requires addr == if Present(a.Ent(d, x / PAGE / 1024)) then FrameAddr(a.Pte(d, x / PAGE)) + x % PAGE else 0
    ensures addr == 0 <==> NoTableAt(a, d, x)
    ensures addr != 0 ==>
              && MappedAt(a, d, x) && addr / PAGE - 256 == FrameAt(a, d, x) && addr % PAGE == x % PAGE
              && addr == Addr(FrameAt(a, d, x)) + x % PAGE && 0 <= FrameAt(a, d, x) < |a.mem|
              && (addr < TWO_32 ==> And(addr, PAGE - 1) == x % PAGE)
  {
    hide Wf, Space.Pte, Space.Ent, Present, Index, FrameAddr, And;
    if !NoTableAt(a, d, x) {
      PaddrMapped(a, kdir, d, x, addr);
    }
  }

  lemma SameTable(a: Space, b: Space, d: int, to: nat, s: int, from: nat, n: nat, x: nat)
    requires BytesCopied(a, b, d, to, s, from, n) && a.IsDir(d)
    ensures NoTableAt(a, d, x) <==> NoTableAt(b, d, x)
    ensures UserPage(x / PAGE) ==> (MappedAt(a, d, x) <==> MappedAt(b, d, x))
    ensures MappedAt(a, d, x) || MappedAt(b, d, x) ==> UserPage(x / PAGE)
  {
    hide Space.Pte, Present, Index, ByteAt, Hit, ByteOf;
    assert !a.IsPage(d);
  }

  /** memory_copy_uvm_data: every byte of the source, read through the loaded directory, arrives at its
      place in the target address space, across page boundaries, up to the first target byte without
      a table, and no other byte of the memory changes; -1 is returned exactly when there is such a
      byte. */
  method CopyData(m: Memory, to: nat, pageDir: nat, cr3: nat, from: nat, size: nat) returns (err: int, ghost done: nat)
    requires m.Valid() && m.View().IsDir(Index(pageDir)) && m.View().IsDir(Index(cr3))
    requires to + size <= TWO_32 && from + size <= TWO_32
    requires Sendable(m.View(), Index(pageDir), to, Index(cr3), from, size)
    modifies m`owner, m.bitmap.bits, m.ram
    ensures m.Valid() && done <= size && err == if done == size then 0 else -1
    ensures Copyable(old(m.View()), Index(pageDir), to, Index(cr3), from, done)
    ensures done < size ==> NoTableAt(old(m.View()), Index(pageDir), to + done)
    ensures BytesCopied(old(m.View()), m.View(), Index(pageDir), to, Index(cr3), from, done)
  {
    hide *;
    m.Parts();
    done := 0;
    ghost var a, d, s := m.View(), Index(pageDir), Index(cr3);
    CopiedNone(a, d, to, s, from);
    SendNone(a, d, to, s, from);
    ChunkLimits(m);
    var left, t, f := size, to, from;
    while left > 0
      invariant m.Valid() && 0 <= left <= size && done == size - left && t == to + done && f == from + done
      invariant BytesCopied(a, m.View(), d, to, s, from, done) && Copyable(a, d, to, s, from, done)
      decreases left
    {
      m.Parts();
      ghost var b := m.View();
      SendAt(a, d, to, s, from, size, done);
      OwnersStay(a, b, d, to, s, from, done);
      FramesStay(a, b, d, to, s, from, done, d, t);
      SameTable(a, b, d, to, s, from, done, t);
      var toPaddr := GetPaddr(m, pageDir, t);
      PaddrCases(b, m.kdir, d, t, toPaddr);
      if toPaddr == 0 {
        return -1, done;
      }
      InMemory(m, FrameAt(b, d, t), t % PAGE);
      var offset := And(toPaddr, PAGE - 1);
      var n := PAGE - offset;
      if n > left {
        n := left;
      }
      SendPage(a, d, to, s, from, size, done, n);
      CopyChunk(m, cr3, toPaddr, n, a, d, to, f, done, done + n);
      left, t, f, done := left - n, t + n, f + n, done + n;
    }
    err := 0;
  }
}
