/** The memory above 1 MB on values: page frames, the words in them, and who owns each frame. */
module PageSpace {
  import opened Bits
  import opened Bytes
  import opened Mmu

  // ---------------------------------------------------------------- frames

  /** A page frame is 1024 words of 32 bits; its bytes are their little-endian digits. */
  type word = w: int | 0 <= w < 0x1_0000_0000

  type Frame = f: seq<word> | |f| == 1024 witness seq(1024, _ => 0)

  function ZeroFrame(): Frame {
    seq(1024, _ => 0)
  }

  function Word(f: Frame, k: nat): (w: nat)
    requires k < 1024
    ensures w < TWO_32
  {
    f[k]
  }

  function SetWord(f: Frame, k: nat, w: nat): Frame
    requires k < 1024 && w < TWO_32
  {
    f[k := w]
  }

  lemma WordSet(f: Frame, k: nat, w: nat, j: nat)
    requires k < 1024 && j < 1024 && w < TWO_32
    ensures Word(SetWord(f, k, w), j) == if j == k then w else Word(f, j)
  {
  }

  lemma WordZero(j: nat)
    requires j < 1024
    ensures Word(ZeroFrame(), j) == 0
  {
  }

  /** Byte k of a word. */
  function Digit(w: nat, k: nat): byte
    decreases k
  {
    if k == 0 then Low(w) else Digit(w / 0x100, k - 1)
  }

  /** w with byte k replaced. */
  function WithDigit(w: nat, k: nat, c: byte): nat
    decreases k
  {
    if k == 0 then w / 0x100 * 0x100 + c else WithDigit(w / 0x100, k - 1, c) * 0x100 + w % 0x100
  }

  lemma {:induction false} DigitSet(w: nat, k: nat, c: byte, j: nat)
    ensures Digit(WithDigit(w, k, c), j) == if j == k then c else Digit(w, j)
    decreases k
  {
    var high, low := if k == 0 then w / 0x100 else WithDigit(w / 0x100, k - 1, c), if k == 0 then c else w % 0x100;
    DivModUnique(WithDigit(w, k, c), high, low, 0x100);
    if k > 0 && j > 0 {
      DigitSet(w / 0x100, k - 1, c, j - 1);
    }
  }

  lemma {:induction false} WithDigitBound(w: nat, k: nat, c: byte, n: nat)
    requires k <= n && w < Pow2(8 * n + 8)
    ensures WithDigit(w, k, c) < Pow2(8 * n + 8)
    decreases k
  {
    EightBits(8 * n);
    assert w / 0x100 < Pow2(8 * n);
    if k > 0 {
      WithDigitBound(w / 0x100, k - 1, c, n - 1);
    }
  }

  /** Byte o of a frame. */
  function ByteOf(f: Frame, o: nat): byte
    requires o < PAGE
  {
    Digit(f[o / 4], o % 4)
  }

  function SetByte(f: Frame, o: nat, c: byte): Frame
    requires o < PAGE
  {
    Powers();
    WithDigitBound(f[o / 4], o % 4, c, 3);
    f[o / 4 := WithDigit(f[o / 4], o % 4, c)]
  }

  /** r is f with byte o set to c. */
  ghost predicate ByteChanged(f: Frame, r: Frame, o: nat, c: byte) {
    forall x :: 0 <= x < PAGE ==> ByteOf(r, x) == if x == o then c else ByteOf(f, x)
  }

  lemma SetByteChanges(f: Frame, o: nat, c: byte)
    requires o < PAGE
    ensures ByteChanged(f, SetByte(f, o, c), o, c)
  {
    hide Digit, WithDigit;
    forall x | 0 <= x < PAGE
      ensures ByteOf(SetByte(f, o, c), x) == if x == o then c else ByteOf(f, x)
    {
      DigitSet(f[o / 4], o % 4, c, x % 4);
      assert x / 4 == o / 4 && x % 4 == o % 4 ==> x == o;
    }
  }

  // ---------------------------------------------------------------- addresses and owners

  /** The directory index of MEMORY_TASK_BASE. */
  const USER: nat := 512

  /** The address of the p-th managed frame: the managed memory starts at 1 MB. */
  function Addr(p: nat): nat {
    0x10_0000 + p * PAGE
  }

  /** The frame an entry points to. */
  function Index(entry: nat): int {
    entry / PAGE - 256
  }

  lemma IndexOfAddr(p: nat, low: nat)
    requires low < PAGE
    ensures Index(Addr(p) + low) == p && (Addr(p) + low) % PAGE == low && Addr(p) % PAGE == 0
  {
    DivModUnique(Addr(p) + low, 256 + p, low, PAGE);
    DivModUnique(Addr(p), 256 + p, 0, PAGE);
  }

  /** What an allocated frame is: a frame of the kernel's own page tables, a page directory, the
      table for the directory entry i of d, the frame of the virtual page v of d, or a frame handed
      out by memory_alloc_page. */
  datatype Owner = Kernel | Dir | Table(d: nat, i: nat) | Page(d: nat, v: nat) | Single

  datatype Space = Space(mem: seq<Frame>, owner: map<nat, Owner>)
  {
    /** The word at an index of a frame; 0 outside the memory. */
    function Ent(p: int, k: int): nat {
      if 0 <= p < |mem| && 0 <= k < 1024 then Word(mem[p], k) else 0
    }

    predicate Owns(p: int, o: Owner) {
      p in owner && owner[p] == o
    }

    predicate IsDir(p: int) {
      p in owner && owner[p] == Dir
    }

    predicate IsTable(p: int) {
      p in owner && owner[p].Table?
    }

    predicate IsPage(p: int) {
      p in owner && owner[p].Page?
    }

    /** The page table entry of virtual page v of directory d; 0 when there is no table. */
    function Pte(d: int, v: int): nat {
      if v >= 0 && Present(Ent(d, v / 1024)) then Ent(Index(Ent(d, v / 1024)), v % 1024) else 0
    }
  }

  /** The hardware translation: frame and low bits of the entry. */
  datatype Mapping = Unmapped | Mapped(frame: int, flags: nat)

  function Translate(sp: Space, d: int, v: int): Mapping {
    var e := sp.Pte(d, v);
    if Present(e) then Mapped(Index(e), e % PAGE) else Unmapped
  }

  predicate UserPage(v: int) {
    USER * 1024 <= v < 1024 * 1024
  }

  // ---------------------------------------------------------------- the ownership invariant

  ghost predicate InRange(sp: Space) {
    forall p :: p in sp.owner ==> 0 <= p < |sp.mem|
  }

  /** A present user entry of a directory points to the table it owns. */
  ghost predicate DirEntries(sp: Space) {
    forall d, i :: sp.IsDir(d) && USER <= i < 1024 && Present(sp.Ent(d, i)) ==>
      sp.Owns(Index(sp.Ent(d, i)), Table(d, i))
  }

  /** A present entry of a table points to the frame of that virtual page. */
  ghost predicate TableEntries(sp: Space) {
    forall t, j :: sp.IsTable(t) && 0 <= j < 1024 && Present(sp.Ent(t, j)) ==>
      sp.Owns(Index(sp.Ent(t, j)), Page(sp.owner[t].d, sp.owner[t].i * 1024 + j))
  }

  /** A table hangs in the directory entry it is owned by. */
  ghost predicate TablesUsed(sp: Space) {
    forall t :: sp.IsTable(t) ==> TableUsed(sp, t)
  }

  ghost predicate TableUsed(sp: Space, t: int)
    requires sp.IsTable(t)
  {
    var d, i := sp.owner[t].d, sp.owner[t].i;
    sp.IsDir(d) && USER <= i < 1024 && Present(sp.Ent(d, i)) && Index(sp.Ent(d, i)) == t
  }

  /** A page frame is mapped at the virtual page it is owned by. */
  ghost predicate PagesUsed(sp: Space) {
    forall q :: sp.IsPage(q) ==> PageUsed(sp, q)
  }

  ghost predicate PageUsed(sp: Space, q: int)
    requires sp.IsPage(q)
  {
    var d, v := sp.owner[q].d, sp.owner[q].v;
    sp.IsDir(d) && UserPage(v) && Present(sp.Pte(d, v)) && Index(sp.Pte(d, v)) == q
  }

  /** Every directory shares the kernel's half. */
  ghost predicate KernelHalf(sp: Space, kdir: seq<nat>) {
    forall d, i :: sp.IsDir(d) && 0 <= i < USER && i < |kdir| ==> sp.Ent(d, i) == kdir[i]
  }

  /** The tables of the kernel's half are frames of the kernel. */
  ghost predicate KernelTables(sp: Space, kdir: seq<nat>) {
    forall i :: 0 <= i < USER && i < |kdir| && Present(kdir[i]) ==> sp.Owns(Index(kdir[i]), Kernel)
  }

  /** Every allocated frame has exactly one owner and is used exactly where its owner says: nothing
      is leaked and no two page tables or user pages share a frame. */
  ghost predicate Wf(sp: Space, kdir: seq<nat>) {
    InRange(sp) && DirEntries(sp) && TableEntries(sp) && TablesUsed(sp) && PagesUsed(sp)
    && KernelHalf(sp, kdir) && KernelTables(sp, kdir)
  }

  lemma WfParts(sp: Space, kdir: seq<nat>)
    requires Wf(sp, kdir)
    ensures InRange(sp) && DirEntries(sp) && TableEntries(sp) && TablesUsed(sp) && PagesUsed(sp)
    && KernelHalf(sp, kdir) && KernelTables(sp, kdir)
  {
  }

  // ---------------------------------------------------------------- a walk of the tables

  lemma UserIndex(v: int)
    requires UserPage(v)
    ensures USER <= v / 1024 < 1024 && 0 <= v % 1024 < 1024 && v == v / 1024 * 1024 + v % 1024
  {
  }

  lemma PageIndex(i: int, j: int)
    requires USER <= i < 1024 && 0 <= j < 1024
    ensures UserPage(i * 1024 + j) && (i * 1024 + j) / 1024 == i && (i * 1024 + j) % 1024 == j
  {
    DivModUnique(i * 1024 + j, i, j, 1024);
  }

  /** The table and the frame a user page goes through belong to its directory. */
  lemma WalkOwned(sp: Space, kdir: seq<nat>, d: int, v: int)
    requires Wf(sp, kdir) && sp.IsDir(d) && UserPage(v)
    ensures Present(sp.Ent(d, v / 1024)) ==> sp.Owns(Index(sp.Ent(d, v / 1024)), Table(d, v / 1024))
    ensures Present(sp.Pte(d, v)) ==> Present(sp.Ent(d, v / 1024)) && sp.Owns(Index(sp.Pte(d, v)), Page(d, v))
  {
    hide TablesUsed, PagesUsed, KernelHalf, InRange, Present, Index;
    UserIndex(v);
    NotPresent();
    if Present(sp.Ent(d, v / 1024)) {
      var t := Index(sp.Ent(d, v / 1024));
      assert sp.Owns(t, Table(d, v / 1024));
      assert sp.IsTable(t);
    }
  }

  lemma NotPresent()
    ensures !Present(0)
  {
  }

  /** Nothing else owns the frame: a page of d at v is the frame v is mapped to. */
  lemma PageIs(sp: Space, kdir: seq<nat>, q: int)
    requires Wf(sp, kdir) && sp.IsPage(q)
    ensures sp.IsDir(sp.owner[q].d) && UserPage(sp.owner[q].v)
    ensures Present(sp.Pte(sp.owner[q].d, sp.owner[q].v)) && Index(sp.Pte(sp.owner[q].d, sp.owner[q].v)) == q
  {
    hide TablesUsed, DirEntries, TableEntries, KernelHalf, InRange, Present, Index;
    assert PageUsed(sp, q);
  }

  lemma TableIs(sp: Space, kdir: seq<nat>, t: int)
    requires Wf(sp, kdir) && sp.IsTable(t)
    ensures var d, i := sp.owner[t].d, sp.owner[t].i;
            sp.IsDir(d) && USER <= i < 1024 && Present(sp.Ent(d, i)) && Index(sp.Ent(d, i)) == t
  {
    hide PagesUsed, DirEntries, TableEntries, KernelHalf, InRange, Present, Index;
    assert TableUsed(sp, t);
  }

  // ---------------------------------------------------------------- the kernel's half

  predicate KernelPage(v: int) {
    0 <= v < USER * 1024
  }

  /** From a to b, the frames of the kernel's tables keep owner and content. */
  ghost predicate KeepsKernel(a: Space, b: Space) {
    forall x :: a.Owns(x, Kernel) ==> b.Owns(x, Kernel) && 0 <= x < |a.mem| == |b.mem| && b.mem[x] == a.mem[x]
  }

  lemma KernelIndex(v: int)
    requires KernelPage(v)
    ensures 0 <= v / 1024 < USER == 512 && 0 <= v % 1024 < 1024
  {
  }

  lemma KernelEntry(a: Space, kdir: seq<nat>, d: int, i: int)
    requires Wf(a, kdir) && a.IsDir(d) && 0 <= i < USER && |kdir| == 1024
    ensures a.Ent(d, i) == kdir[i] && (Present(kdir[i]) ==> a.Owns(Index(kdir[i]), Kernel))
  {
    hide DirEntries, TableEntries, TablesUsed, PagesUsed, InRange, Present, Index, Space.Ent;
    assert a.IsDir(d);
  }

  /** A present entry of a directory points into the memory, in either half. */
  lemma TableInRange(a: Space, kdir: seq<nat>, d: int, i: int)
    requires Wf(a, kdir) && a.IsDir(d) && 0 <= i < 1024 && |kdir| == 1024 && Present(a.Ent(d, i))
    ensures 0 <= Index(a.Ent(d, i)) < |a.mem|
  {
    hide TableEntries, TablesUsed, PagesUsed, Present, Index, Space.Ent;
    if i < USER {
      KernelEntry(a, kdir, d, i);
    }
  }

  lemma SameEnt(a: Space, b: Space, x: int, k: int)
    requires a.Owns(x, Kernel) && KeepsKernel(a, b)
    ensures b.Ent(x, k) == a.Ent(x, k)
  {
    assert b.Owns(x, Kernel);
  }

  /** Every directory, before and after, translates a page of the kernel's half alike. */
  lemma KernelTranslates(a: Space, b: Space, kdir: seq<nat>, d: int, e: int, v: int)
    requires Wf(a, kdir) && Wf(b, kdir) && |kdir| == 1024 && KeepsKernel(a, b)
    requires a.IsDir(d) && b.IsDir(e) && KernelPage(v)
    ensures Translate(b, e, v) == Translate(a, d, v)
  {
    hide Wf, KeepsKernel, Space.Ent, Present, Index;
    KernelIndex(v);
    KernelEntry(a, kdir, d, v / 1024);
    KernelEntry(b, kdir, e, v / 1024);
    if Present(kdir[v / 1024]) {
      SameEnt(a, b, Index(kdir[v / 1024]), v % 1024);
    }
  }

  /** Any page of the 4 GB. */
  predicate AnyPage(v: int) {
    KernelPage(v) || UserPage(v)
  }

  lemma SameEverywhere(a: Space, b: Space, kdir: seq<nat>, e: int, v: int)
    requires Wf(a, kdir) && Wf(b, kdir) && |kdir| == 1024 && KeepsKernel(a, b)
    requires a.IsDir(e) && b.IsDir(e) && AnyPage(v) && (UserPage(v) ==> b.Pte(e, v) == a.Pte(e, v))
    ensures Translate(b, e, v) == Translate(a, e, v)
  {
    hide Wf, KeepsKernel, Space.Pte, Space.Ent, Present, Index;
    if KernelPage(v) {
      KernelTranslates(a, b, kdir, e, e, v);
    }
  }

  // ---------------------------------------------------------------- the tables in bytes

  /** The byte at a physical address; 0 outside the managed memory. */
  function PhysByte(mem: seq<Frame>, a: int): byte {
    if a >= 0x10_0000 && (a - 0x10_0000) / 4096 < |mem| then ByteOf(mem[(a - 0x10_0000) / 4096], a % 4096) else 0
  }

  /** The 32-bit word that the processor loads from a physical address. */
  function PhysWord(mem: seq<Frame>, a: int): int {
    PhysByte(mem, a) as int + 0x100 * PhysByte(mem, a + 1) as int + 0x1_0000 * PhysByte(mem, a + 2) as int
    + 0x100_0000 * PhysByte(mem, a + 3) as int
  }

  /** A word of a frame is made of four bytes, the low one first. */
  lemma WordBytes(f: Frame, k: nat)
    requires k < 1024
    ensures Word(f, k) == ByteOf(f, 4 * k) as int + 0x100 * ByteOf(f, 4 * k + 1) as int
                          + 0x1_0000 * ByteOf(f, 4 * k + 2) as int + 0x100_0000 * ByteOf(f, 4 * k + 3) as int
  {
    var w: nat := f[k];
    assert Digit(w, 3) == Digit(w / 0x100, 2) == Digit(w / 0x100 / 0x100, 1) == Low(w / 0x100 / 0x100 / 0x100);
    assert Digit(w, 2) == Digit(w / 0x100, 1) == Low(w / 0x100 / 0x100);
    assert Digit(w, 1) == Low(w / 0x100);
    WordDigits(w);
  }

  lemma WordDigits(w: nat)
    requires w < 0x1_0000_0000
    ensures w == w % 0x100 + 0x100 * (w / 0x100 % 0x100) + 0x1_0000 * (w / 0x100 / 0x100 % 0x100)
                 + 0x100_0000 * (w / 0x100 / 0x100 / 0x100 % 0x100)
  {
  }

  lemma PhysAt(mem: seq<Frame>, p: nat, o: nat)
    requires p < |mem| && o < 4096
    ensures PhysByte(mem, 0x10_0000 + 4096 * p + o) == ByteOf(mem[p], o)
  {
    hide ByteOf;
    DivModUnique(0x10_0000 + 4096 * p + o, 256 + p, o, 4096);
    DivModUnique(4096 * p + o, p, o, 4096);
  }

  lemma PhysIs(sp: Space, p: nat, k: nat)
    requires p < |sp.mem| && k < 1024
    ensures PhysWord(sp.mem, 0x10_0000 + 4096 * p + 4 * k) == sp.Ent(p, k)
  {
    hide PhysByte, ByteOf, Word;
    WordBytes(sp.mem[p], k);
    var o := 4 * k;
    PhysAt(sp.mem, p, o);
    PhysAt(sp.mem, p, o + 1);
    PhysAt(sp.mem, p, o + 2);
    PhysAt(sp.mem, p, o + 3);
  }

  lemma Parts32(vaddr: nat)
    requires vaddr < 0x1_0000_0000
    ensures vaddr / 4096 / 1024 == vaddr / 0x40_0000 && 0 <= vaddr / 0x40_0000 < 1024
    ensures 0 <= vaddr / 4096 % 1024 < 1024
    ensures UserPage(vaddr / 4096) <==> vaddr >= 0x8000_0000
    ensures AnyPage(vaddr / 4096)
  {
  }

  lemma EntryPlace(e: nat)
    ensures e / 4096 * 4096 == 0x10_0000 + 4096 * Index(e)
    ensures Present(e) <==> e % 2 == 1
  {
  }

  lemma TranslateIs(sp: Space, d: int, v: nat)
    ensures var e := sp.Ent(d, v / 1024);
            var w := sp.Ent(Index(e), v % 1024);
            Translate(sp, d, v) == if Present(e) && Present(w) then Mapped(w / 4096 - 256, w % 4096) else Unmapped
  {
    NotPresent();
  }

  /** The translation is the walk of the processor through the bytes of the memory: the directory entry is
      the word at four times the top ten bits of the address, the table entry the word at four times the
      next ten bits of the frame it names. User pages are those from 2 GB on. */
  lemma WalkInBytes(sp: Space, kdir: seq<nat>, d: nat, vaddr: nat)
    requires Wf(sp, kdir) && |kdir| == 1024 && sp.IsDir(d) && vaddr < 0x1_0000_0000
    ensures var e := PhysWord(sp.mem, 0x10_0000 + 4096 * d + 4 * (vaddr / 0x40_0000));
            var w := PhysWord(sp.mem, e / 4096 * 4096 + 4 * (vaddr / 4096 % 1024));
            Translate(sp, d, vaddr / 4096)
            == if e % 2 == 1 && w % 2 == 1 then Mapped(w / 4096 - 256, w % 4096) else Unmapped
    ensures UserPage(vaddr / 4096) <==> vaddr >= 0x8000_0000
  {
    hide *;
    Parts32(vaddr);
    DirIn(sp, kdir, d);
    PhysIs(sp, d, vaddr / 0x40_0000);
    var e := sp.Ent(d, vaddr / 0x40_0000);
    TranslateIs(sp, d, vaddr / 4096);
    EntryPlace(e);
    if Present(e) {
      TableInRange(sp, kdir, d, vaddr / 0x40_0000);
      PhysIs(sp, Index(e), vaddr / 4096 % 1024);
      EntryPlace(sp.Ent(Index(e), vaddr / 4096 % 1024));
    }
  }

  lemma DirIn(sp: Space, kdir: seq<nat>, d: int)
    requires Wf(sp, kdir) && sp.IsDir(d)
    ensures 0 <= d < |sp.mem|
  {
  }
}
