/** kernel/core/memory.c: the page allocator and the page tables, in place. */
module Paging {
  import opened Bits
  import opened Bitmap
  import opened Mmu
  import opened PageSpace
  import opened PageSteps
  import opened PageRelations

  /** The frames between MEM_EXT_START and MEM_EXT_END, where the kernel sees the physical memory at
      its own addresses. */
  const MAX_PAGES: nat := 126 * 256

  lemma KernelWf(sp: Space, kdir: seq<nat>)
    requires forall p :: p in sp.owner ==> sp.owner[p] == Kernel && 0 <= p < |sp.mem|
    requires forall i :: 0 <= i < USER && i < |kdir| && Present(kdir[i]) ==> Index(kdir[i]) in sp.owner
    ensures Wf(sp, kdir)
  {
  }

  /** What stands for the stop of the kernel at a failed assertion. */
  const STOPPED: int := 1

  /** None of the n pages from v on is mapped. */
  ghost predicate NonePresent(sp: Space, d: int, v: nat, n: nat) {
    forall u :: v <= u < v + n ==> !Present(sp.Pte(d, u))
  }

  class Memory {
    const pages: nat
    const bitmap: BitArray
    const ram: array<Frame>
    const kdir: seq<nat>
    /** Who owns each allocated frame. */
    ghost var owner: map<nat, Owner>

    ghost function View(): Space
      reads this, ram
    {
      Space(ram[..], owner)
    }

    ghost predicate Shape() {
      && bitmap.Valid() && bitmap.bitCount == pages && ram.Length == pages && pages <= MAX_PAGES
      && |kdir| == 1024 && forall i :: 0 <= i < 1024 ==> kdir[i] < TWO_32
    }

    /** The set bits of the bitmap are exactly the frames of o. */
    ghost predicate Tracks(o: map<nat, Owner>)
      requires Shape()
      reads bitmap.bits
    {
      forall p :: 0 <= p < pages ==> (bitmap.Used()[p] <==> p in o)
    }

    ghost predicate Valid()
      reads this, ram, bitmap.bits
    {
      Shape() && Tracks(owner) && Wf(View(), kdir)
    }

    lemma Parts()
      requires Valid()
      ensures Shape() && Tracks(owner) && Wf(View(), kdir) && |View().mem| == pages == ram.Length
      ensures View().owner == owner && View().mem == ram[..] && InRange(View()) && |kdir| == 1024 && bitmap.Valid()
      ensures bitmap.bitCount == pages
    {
    }

    lemma Make(sp: Space)
      requires Shape() && Wf(sp, kdir) && sp.mem == ram[..] && sp.owner == owner
      requires Tracks(owner)
      ensures Valid() && View() == sp
    {
    }

    /** The state after memory_init: the memory has some contents, and the frames of the kernel's own
        page tables are reserved. */
    constructor (contents: seq<Frame>, tables: seq<nat>, reserved: seq<nat>)
      requires |contents| <= MAX_PAGES && |tables| == 1024 && forall i :: 0 <= i < 1024 ==> tables[i] < TWO_32
      requires forall i :: 0 <= i < |reserved| ==> reserved[i] < |contents|
      requires forall i :: 0 <= i < USER && Present(tables[i]) ==> Index(tables[i]) in reserved
      ensures Valid() && pages == |contents| && kdir == tables && fresh(ram) && fresh(bitmap) && fresh(bitmap.bits)
      ensures ram[..] == contents
      ensures forall p :: p in owner <==> p in reserved
      ensures forall p :: p in owner ==> owner[p] == Kernel
    {
      var n := |contents|;
      pages, kdir := n, tables;
      bitmap := new BitArray(n, false);
      ram := new Frame[n](i requires 0 <= i < n => contents[i]);
      owner := map[];
      new;
      var i := 0;
      while i < |reserved|
        invariant 0 <= i <= |reserved|
        invariant forall p :: 0 <= p < n ==> (bitmap.Used()[p] <==> p in reserved[..i])
        modifies bitmap.bits
      {
        bitmap.SetBit(reserved[i], 1, true);
        assert reserved[..i + 1] == reserved[..i] + [reserved[i]];
        i := i + 1;
      }
      assert reserved[..i] == reserved;
      owner := map p | p in reserved :: Kernel;
      forall p | p in owner
        ensures 0 <= p < n && owner[p] == Kernel
      {
        var k :| 0 <= k < |reserved| && reserved[k] == p;
      }
      KernelWf(View(), kdir);
    }

    // -------------------------------------------------------------- pages

    lemma TrackTake(u: seq<bool>, o: map<nat, Owner>, p: nat)
      requires Shape() && |u| == pages && p < pages && bitmap.Used() == Assigned(u, p, 1, true)
      requires forall x :: 0 <= x < pages ==> (u[x] <==> x in o)
      ensures Tracks(o[p := Single])
    {
    }

    lemma TrackFree(u: seq<bool>, o: map<nat, Owner>, p: nat)
      requires Shape() && |u| == pages && bitmap.Used() == Assigned(u, p, 1, false)
      requires forall x :: 0 <= x < pages ==> (u[x] <==> x in o)
      ensures Tracks(o - {p})
    {
    }

    lemma TracksIs()
      requires Shape() && Tracks(owner)
      ensures |bitmap.Used()| == pages && forall x :: 0 <= x < pages ==> (bitmap.Used()[x] <==> x in owner)
    {
    }

    /** addr_alloc_page for one page, which is all the kernel asks for: the lowest free frame, or 0
        exactly when no frame is free. */
    method AllocPage() returns (addr: nat)
      requires Valid()
      modifies this`owner, bitmap.bits
      ensures Valid() && (addr == 0 <==> |old(owner)| == pages)
      ensures addr == 0 ==> View() == old(View())
      ensures addr != 0 ==>
                var p := Index(addr);
                && 0 <= p < pages && addr == Addr(p) && p !in old(owner) && (forall x :: 0 <= x < p ==> x in old(owner))
                && View() == Take(old(View()), p) && addr == 0x10_0000 + 4096 * p
    {
      hide *;
      Parts();
      TracksIs();
      ghost var u, sp := bitmap.Used(), View();
      var index := bitmap.AllocNbits(0, 1);
      OneBit(u, index);
      if index >= 0 {
        SomeFreeIn(u, sp, index);
        TakeWf(sp, kdir, index);
        addr := Addr(index);
        AddrIs(index);
        IndexOfAddr(index, 0);
        TrackTake(u, owner, index);
        owner := owner[index := Single];
        TakeIs(sp, index);
        Make(Take(sp, index));
      } else {
        addr := 0;
        NoneFreeIn(u, sp);
        Make(sp);
      }
    }

    lemma OneBit(u: seq<bool>, r: int)
      requires r == FirstRun(Missed(u, 0), Tested(1))
      ensures r == -1 ==> forall s :: 0 <= s < |u| ==> !Run(u, s, 1)
      ensures r != -1 ==> 0 <= r < |u| && Run(u, r, 1) && forall s :: 0 <= s < r ==> !Run(u, s, 1)
    {
      MissedZero(u);
      FirstRunExact(u, 1, 0);
    }

    lemma AddrIs(p: nat)
      ensures Addr(p) == 0x10_0000 + p * PAGE && PAGE == 4096 && Addr(p) > 0
      ensures p < MAX_PAGES ==> Addr(p) + PAGE <= 0x7F0_0000
    {
    }

    lemma TakeIs(sp: Space, p: nat)
      ensures Take(sp, p).mem == sp.mem && Take(sp, p).owner == sp.owner[p := Single]
    {
    }

    lemma SomeFreeIn(u: seq<bool>, sp: Space, r: nat)
      requires |u| == |sp.mem| == pages && InRange(sp) && (forall x :: 0 <= x < pages ==> (u[x] <==> x in sp.owner))
      requires Run(u, r, 1)
      requires forall s :: 0 <= s < r ==> !Run(u, s, 1)
      ensures r < pages && r !in sp.owner && |sp.owner| < pages && forall x :: 0 <= x < r ==> x in sp.owner
    {
      assert !u[r];
      FullCount(sp);
      forall x | 0 <= x < r
        ensures x in sp.owner
      {
        assert !Run(u, x, 1);
      }
    }

    lemma NoneFreeIn(u: seq<bool>, sp: Space)
      requires |u| == |sp.mem| == pages && InRange(sp) && (forall x :: 0 <= x < pages ==> (u[x] <==> x in sp.owner))
      requires forall s :: 0 <= s < pages ==> !Run(u, s, 1)
      ensures |sp.owner| == pages
    {
      forall p | 0 <= p < pages
        ensures p in sp.owner
      {
        assert !Run(u, p, 1);
      }
      FullCount(sp);
    }

    // -------------------------------------------------------------- tables

    lemma EntIs(d: int, i: int)
      requires Shape() && 0 <= d < pages && 0 <= i < 1024
      ensures View().Ent(d, i) == Word(ram[d], i)
    {
    }

    lemma VaddrIs(vaddr: nat)
      requires vaddr < TWO_32
      ensures PdeIndex(vaddr) == vaddr / PAGE / 1024 < 1024 && PteIndex(vaddr) == vaddr / PAGE % 1024 < 1024
    {
      hide Shr, And;
      AddressParts(vaddr);
      Split(vaddr);
    }

    lemma DirRange(d: int)
      requires Valid() && View().IsDir(d)
      ensures 0 <= d < pages && d in owner && Addr(d) + PAGE < TWO_32 && Index(Addr(d)) == d
    {
      IndexOfAddr(d, 0);
    }

    lemma TableFlags(p: nat)
      requires p < MAX_PAGES
      ensures Or(Or(Or(Addr(p), 1), 2), 4) == Addr(p) + TABLE_FLAGS < TWO_32
    {
      var h := 0x4_0000 + p * 1024;
      assert Addr(p) == 4 * h && TABLE_FLAGS == 7;
      hide *;
      OrOne(4 * h);
      OrOne(2 * h);
      OrOne(h);
      OrHalf(2 * h, 1);
      OrHalf(2 * h + 1, 2);
      OrHalf(h, 1);
      assert 2 * (2 * h) + 1 == 4 * h + 1 && 2 * (2 * h + 1) + 1 == 4 * h + 3;
    }

    lemma OrHalf(x: nat, y: nat)
      ensures Or(2 * x + 1, 2 * y) == 2 * Or(x, y) + 1
    {
      assert (2 * x + 1) / 2 == x && 2 * y / 2 == y;
    }

    lemma NewTableIs(a: Space, d: nat, i: nat, p: nat, m: seq<Frame>)
      requires d < |a.mem| && p < |a.mem| && i < 1024 && p != d && Addr(p) + TABLE_FLAGS < TWO_32
      requires m == a.mem[d := SetWord(a.mem[d], i, Addr(p) + TABLE_FLAGS)][p := ZeroFrame()]
      ensures NewTable(a, d, i, p).mem == m && NewTable(a, d, i, p).owner == a.owner[p := Table(d, i)]
    {
    }

    lemma RetakeTable(o: map<nat, Owner>, p: nat, w: Owner)
      ensures o[p := Single][p := w] == o[p := w]
    {
    }

    lemma TracksSame(o: map<nat, Owner>, r: map<nat, Owner>)
      requires Shape() && Tracks(o) && forall p :: p in o <==> p in r
      ensures Tracks(r)
    {
    }

    /** The part of find_pte that makes a missing table. */
    method AddTable(d: nat, i: nat) returns (ok: bool)
      requires Valid() && View().IsDir(d) && USER <= i < 1024 && !Present(View().Ent(d, i))
      modifies this`owner, bitmap.bits, ram
      ensures Valid() && (ok <==> |old(owner)| < pages)
      ensures if ok then TableReady(old(View()), View(), d, i) else View() == old(View())
      ensures ok ==> EmptyTable(ram[..], d, i, Index(View().Ent(d, i)))
    {
      hide *;
      Parts();
      ghost var a := View();
      DirRange(d);
      FullCount(a);
      var pg := AllocPage();
      Parts();
      if pg == 0 {
        return false;
      }
      IndexIs(pg);
      var p := pg / PAGE - 256;
      TakeIs(a, p);
      AddrIs(p);
      TableFlags(p);
      NewTableWf(a, kdir, d, i, p);
      WordSet(ram[d], i, Addr(p) + TABLE_FLAGS, i);
      ram[d] := SetWord(ram[d], i, Or(Or(Or(pg, 1), 2), 4));
      ram[p] := ZeroFrame();
      owner := owner[p := Table(d, i)];
      NewTableIs(a, d, i, p, ram[..]);
      RetakeTable(a.owner, p, Table(d, i));
      TracksSame(a.owner[p := Single], owner);
      Make(NewTable(a, d, i, p));
      MakeReady(a, d, i, p);
      MakeEmpty(d, i, p);
      return true;
    }

    /** Word i of frame d refers to frame p for reading and writing by any process, and p is all zeros. */
    ghost predicate EmptyTable(mem: seq<Frame>, d: int, i: int, p: int) {
      && 0 <= d < |mem| && 0 <= i < 1024 && 0 <= p < |mem|
      && mem[d][i] as int == 0x10_0000 + 4096 * p + 7 && forall j :: 0 <= j < 1024 ==> mem[p][j] as int == 0
    }

    lemma MakeEmpty(d: int, i: int, p: int)
      requires Shape() && 0 <= d < pages && 0 <= p < pages && p != d && 0 <= i < 1024 && Index(View().Ent(d, i)) == p
      requires Addr(p) + TABLE_FLAGS < TWO_32
      requires ram[p] == ZeroFrame() && Word(ram[d], i) == Addr(p) + TABLE_FLAGS
      ensures EmptyTable(ram[..], d, i, Index(View().Ent(d, i)))
    {
    }

    lemma IndexIs(addr: nat)
      ensures Index(addr) == addr / PAGE - 256
      ensures USER == 512 && PAGE == 4096
    {
    }

    lemma MakeReady(a: Space, d: nat, i: nat, p: nat)
      requires d < |a.mem| && p < |a.mem| && i < 1024 && !Present(a.Ent(d, i)) && p !in a.owner
      requires Addr(p) + TABLE_FLAGS < TWO_32
      requires Present(NewTable(a, d, i, p).Ent(d, i)) && Index(NewTable(a, d, i, p).Ent(d, i)) == p
      ensures TableReady(a, NewTable(a, d, i, p), d, i)
    {
    }

    lemma ReadySame(a: Space, d: nat, i: nat)
      ensures Present(a.Ent(d, i)) ==> TableReady(a, a, d, i)
    {
    }

    lemma ReadyPresent(a: Space, b: Space, d: nat, i: nat)
      requires TableReady(a, b, d, i)
      ensures Present(b.Ent(d, i)) && |b.mem| == |a.mem| && forall e :: a.IsDir(e) ==> b.IsDir(e)
    {
    }

    /** find_pte: the frame and index of the page table entry, or -1. Tables are made for user
        addresses only. */
    method FindPte(pageDir: nat, vaddr: nat, alloc: bool) returns (table: int, k: nat)
      requires Valid() && View().IsDir(Index(pageDir)) && vaddr < TWO_32 && (alloc ==> UserPage(vaddr / PAGE))
      modifies this`owner, bitmap.bits, ram
      ensures Valid()
      ensures table == -1 <==>
              !Present(old(View()).Ent(Index(pageDir), vaddr / PAGE / 1024)) && (!alloc || |old(owner)| == pages)
      ensures table == -1 ==> View() == old(View())
      ensures table != -1 ==>
                && 0 <= table < pages && k == vaddr / PAGE % 1024 < 1024
                && TableReady(old(View()), View(), Index(pageDir), vaddr / PAGE / 1024)
                && table == Index(View().Ent(Index(pageDir), vaddr / PAGE / 1024))
      ensures table != -1 && !Present(old(View()).Ent(Index(pageDir), vaddr / PAGE / 1024)) ==>
                EmptyTable(ram[..], pageDir / 4096 - 256, vaddr / 0x40_0000, table)
    {
      hide *;
      Parts();
      IndexIs(pageDir);
      var d := pageDir / PAGE - 256;
      DirRange(d);
      VaddrIs(vaddr);
      k := PteIndex(vaddr);
      var i := PdeIndex(vaddr);
      EntIs(d, i);
      FullCount(View());
      if !Present(Word(ram[d], i)) {
        if !alloc {
          return -1, k;
        }
        UserIndex(vaddr / PAGE);
        var ok := AddTable(d, i);
        if !ok {
          return -1, k;
        }
        Parts();
        ReadyPresent(old(View()), View(), d, i);
        EntIs(d, i);
      } else {
        ReadySame(View(), d, i);
      }
      TableInRange(View(), kdir, d, i);
      FrameIndex(Word(ram[d], i));
      table := FrameAddr(Word(ram[d], i)) / PAGE - 256;
    }

    lemma FrameIndex(entry: nat)
      requires entry < TWO_32
      ensures FrameAddr(entry) / PAGE - 256 == Index(entry)
    {
      hide FrameAddr;
      EntryField(entry);
    }

    lemma MapIs(a: Space, d: nat, v: nat, q: nat, low: nat, m: seq<Frame>)
      requires 0 <= Index(a.Ent(d, v / 1024)) < |a.mem| && Addr(q) + low < TWO_32
      requires m == a.mem[Index(a.Ent(d, v / 1024)) := SetWord(a.mem[Index(a.Ent(d, v / 1024))], v % 1024,
                                                               Addr(q) + low)]
      ensures Map(a, d, v, q, low).mem == m && Map(a, d, v, q, low).owner == a.owner[q := Page(d, v)]
    {
    }

    lemma OddFlags(perm: nat)
      requires perm < PAGE
      ensures Or(perm, PRESENT) < PAGE && Or(perm, PRESENT) % 2 == 1 && PAGE == 4096
    {
      OrOne(perm);
    }

    lemma AllAddrs()
      requires Shape()
      ensures forall p :: 0 <= p < pages ==> Addr(p) + PAGE < TWO_32 && Addr(p) + TABLE_FLAGS < TWO_32
    {
    }

    /** One turn of the loop of memory_create_map. The kernel stops at its assertion exactly when the
        page is mapped already. */
    method MapOne(pageDir: nat, vaddr: nat, paddr: nat, perm: nat) returns (err: int)
      requires Valid() && View().IsDir(Index(pageDir)) && vaddr < TWO_32 && UserPage(vaddr / PAGE) && perm < PAGE
      requires View().Owns(Index(paddr), Single) && paddr == Addr(Index(paddr))
      modifies this`owner, bitmap.bits, ram
      ensures Valid() && (err == 0 || err == -1 || err == STOPPED)
      ensures err == STOPPED <==> Present(old(View()).Pte(Index(pageDir), vaddr / PAGE))
      ensures err != STOPPED ==>
                (err == 0 <==> |old(owner)| + Missing(old(View()), Index(pageDir), vaddr / PAGE, 1) <= pages)
      ensures err != 0 ==> View() == old(View())
      ensures err == 0 ==>
                && Grown(old(View()), View(), Index(pageDir), vaddr / PAGE, Index(paddr), 1, Or(perm, PRESENT))
                && |owner| == |old(owner)| + Missing(old(View()), Index(pageDir), vaddr / PAGE, 1)
      ensures err == 0 ==> EntryAt(ram[..], pageDir / 4096 - 256, vaddr / 4096, paddr + perm + (1 - perm % 2))
    {
      hide *;
      Parts();
      ghost var a, d, v, q := View(), Index(pageDir), vaddr / PAGE, Index(paddr);
      DirRange(d);
      SingleRange(q);
      OddFlags(perm);
      AllAddrs();
      MissingOne(a, d, v);
      FullCount(a);
      var table, k := FindPte(pageDir, vaddr, true);
      PteHasTable(a, d, v);
      Different();
      if table == -1 {
        return -1;
      }
      Parts();
      ghost var sp := View();
      ReadyPresent(a, sp, d, v / 1024);
      PteEntry(sp, d, v, k, table);
      if Present(a.Pte(d, v)) {
        ReadyStored(a, sp, d, v / 1024);
      } else {
        ReadyGrown(a, sp, kdir, d, v, q, Or(perm, PRESENT));
        MapWf(sp, kdir, d, v, q, Or(perm, PRESENT));
        EntryRoundTripAt(q, perm);
        FreeEntry(sp, kdir, d, v, q, Or(perm, PRESENT));
      }
      if Present(Word(ram[table], k)) {
        return STOPPED;
      }
      ram[table] := SetWord(ram[table], k, Entry(paddr, perm));
      owner := owner[q := Page(d, v)];
      MapIs(sp, d, v, q, Or(perm, PRESENT), ram[..]);
      SingleIn(sp, kdir, d, v, q, Or(perm, PRESENT));
      TracksSame(sp.owner, owner);
      Make(Map(sp, d, v, q, Or(perm, PRESENT)));
      MapPte(sp, kdir, d, v, q, Or(perm, PRESENT), d, v);
      SeenEntry(pageDir, v, paddr, perm);
      return 0;
    }

    /** The table entry that the processor finds for page v is w. */
    ghost predicate EntryAt(mem: seq<Frame>, d: int, v: nat, w: int) {
      && 0 <= d < |mem| && v / 1024 < 1024
      && var e := mem[d][v / 1024] as int;
         && e % 2 == 1 && 0 <= e / 4096 - 256 < |mem|
         && mem[e / 4096 - 256][v % 1024] as int == w
    }

    lemma SeenEntry(pageDir: nat, v: nat, paddr: nat, perm: nat)
      requires Shape() && UserPage(v) && perm < PAGE && Index(paddr) >= 0 && paddr == Addr(Index(paddr))
      requires View().mem == ram[..] && View().Pte(Index(pageDir), v) == paddr + Or(perm, PRESENT)
      ensures EntryAt(ram[..], pageDir / 4096 - 256, v, paddr + perm + (1 - perm % 2))
    {
      hide Or;
      OrOne(perm);
      OddEntry(Index(paddr), Or(perm, PRESENT));
    }

    /** Every page of a mapped range in its table entry. */
    lemma SeenRange(a: Space, pageDir: nat, v: nat, paddr: nat, n: nat, perm: nat)
      requires Shape() && perm < PAGE && Index(paddr) >= 0 && paddr == Addr(Index(paddr)) && View().mem == ram[..]
      requires Index(pageDir) >= 0 && Grown(a, View(), Index(pageDir), v, Index(paddr), n, Or(perm, PRESENT))
      requires a.IsDir(Index(pageDir)) && forall u :: v <= u < v + n ==> UserPage(u)
      ensures forall i :: 0 <= i < n ==>
                EntryAt(ram[..], pageDir / 4096 - 256, v + i, paddr + 4096 * i + perm + (1 - perm % 2))
    {
      hide *;
      forall i | 0 <= i < n
        ensures EntryAt(ram[..], pageDir / 4096 - 256, v + i, paddr + 4096 * i + perm + (1 - perm % 2))
      {
        GrownPte(a, View(), Index(pageDir), v, Index(paddr), n, Or(perm, PRESENT), i);
        FrameOn(Index(paddr), i);
        SeenEntry(pageDir, v + i, paddr + 4096 * i, perm);
      }
    }

    lemma FrameOn(q: nat, i: nat)
      ensures Addr(q + i) == Addr(q) + 4096 * i && Index(Addr(q) + 4096 * i) == q + i
    {
      IndexOfAddr(q + i, 0);
    }

    lemma GrownPte(a: Space, b: Space, d: nat, v: nat, q: nat, n: nat, low: nat, i: nat)
      requires Grown(a, b, d, v, q, n, low) && i < n && a.IsDir(d) && UserPage(v + i)
      ensures b.Pte(d, v + i) == Addr(q + i) + low
    {
      hide Space.Pte, Space.Ent, Present;
    }

    lemma PteHasTable(sp: Space, d: int, v: nat)
      ensures Present(sp.Pte(d, v)) ==> Present(sp.Ent(d, v / 1024))
    {
    }

    lemma ReadyStored(a: Space, b: Space, d: nat, i: nat)
      requires TableReady(a, b, d, i) && Present(a.Ent(d, i))
      ensures b == a
    {
    }

    lemma Different()
      ensures STOPPED != 0 && STOPPED != -1 && STOPPED > 0
    {
    }

    lemma SingleRange(q: int)
      requires Valid() && View().Owns(q, Single)
      ensures 0 <= q < pages && q < MAX_PAGES
    {
    }

    lemma SingleIn(sp: Space, dir: seq<nat>, d: nat, v: nat, q: nat, low: nat)
      requires Mappable(sp, dir, d, v, q, low)
      ensures q in sp.owner && forall p :: p in sp.owner <==> p in sp.owner[q := Page(d, v)]
    {
    }

    lemma EntryRoundTripAt(q: int, perm: nat)
      requires 0 <= q < MAX_PAGES && perm < PAGE
      ensures Entry(Addr(q), perm) == Addr(q) + Or(perm, PRESENT) < TWO_32
    {
      hide Entry, Or;
      IndexOfAddr(q, 0);
      EntryRoundTrip(Addr(q), perm);
    }

    lemma PteEntry(sp: Space, d: int, v: nat, k: nat, table: int)
      requires Shape() && sp.mem == ram[..] && Present(sp.Ent(d, v / 1024)) && table == Index(sp.Ent(d, v / 1024))
      requires k == v % 1024
      requires 0 <= table < pages
      ensures k < 1024 && sp.Pte(d, v) == Word(ram[table], k) && ram[table] == sp.mem[table]
    {
    }

    lemma FreeEntry(sp: Space, dir: seq<nat>, d: nat, v: nat, q: nat, low: nat)
      requires Mappable(sp, dir, d, v, q, low)
      ensures !Present(sp.Pte(d, v))
    {
    }

    lemma NonePresentYet(sp: Space, d: int, v: nat)
      ensures NonePresent(sp, d, v, 0)
    {
    }

    lemma NonePresentNext(sp: Space, d: int, v: nat, n: nat)
      requires NonePresent(sp, d, v, n)
      ensures NonePresent(sp, d, v, n + 1) <==> !Present(sp.Pte(d, v + n))
    {
    }

    lemma NonePresentUpTo(sp: Space, d: int, v: nat, k: nat, n: nat)
      requires k <= n
      ensures NonePresent(sp, d, v, n) ==> NonePresent(sp, d, v, k)
    {
    }

    /** memory_create_map for the n-th page of a range that has been mapped so far: what is mapped
        next is still free. */
    lemma NextPage(a: Space, b: Space, d: nat, v: nat, q: nat, n: nat, low: nat, count: nat)
      requires Grown(a, b, d, v, q, n, low) && n < count && a.IsDir(d)
      requires forall u :: v <= u < v + count ==> UserPage(u)
      requires forall x :: q <= x < q + count ==> a.Owns(x, Single)
      ensures UserPage(v + n) && b.Pte(d, v + n) == a.Pte(d, v + n) && b.Owns(q + n, Single) && b.IsDir(d)
      ensures forall x :: q <= x <= q + n ==> a.Owns(x, Single)
    {
      hide Space.Pte, Present, Space.Ent, Touches;
      assert a.Owns(q + n, Single);
    }

    lemma NextAddr(vaddr: nat, va: nat, v: nat, n: nat)
      requires vaddr < TWO_32 && va < TWO_32 && va / PAGE == v && UserPage(v + 1)
      ensures (va + PAGE) % TWO_32 / PAGE == v + 1
    {
      assert va + PAGE < TWO_32;
      SmallMod(va + PAGE, TWO_32);
      DivModUnique(va + PAGE, v + 1, va % PAGE, PAGE);
    }

    lemma Wraps(va: nat)
      ensures (va + PAGE) % TWO_32 < TWO_32 && PAGE == 4096
    {
    }

    lemma NextFrame(q: nat, n: nat)
      ensures Addr(q + n) + PAGE == Addr(q + n + 1) && Index(Addr(q + n)) == q + n && PAGE == 4096
    {
      IndexOfAddr(q + n, 0);
    }

    /** memory_create_map of a user range: the pages are mapped in order to consecutive frames, up to
        the first page that is mapped already, where the kernel stops at its assertion, or the first table
        that cannot be made; every page is mapped exactly when there is no such page and the frames last
        for the tables that are missing. */
    method CreateMap(pageDir: nat, vaddr: nat, paddr: nat, count: nat, perm: nat) returns (err: int, ghost done: nat)
      requires Valid() && View().IsDir(Index(pageDir)) && vaddr < TWO_32 && perm < PAGE
      requires forall u :: vaddr / PAGE <= u < vaddr / PAGE + count ==> UserPage(u)
      requires Index(paddr) >= 0 && paddr == Addr(Index(paddr))
      requires forall x :: Index(paddr) <= x < Index(paddr) + count ==> View().Owns(x, Single)
      modifies this`owner, bitmap.bits, ram
      ensures Valid() && (err == 0 || err == -1 || err == STOPPED) && done <= count && (err == 0 <==> done == count)
      ensures err == 0 <==>
              && NonePresent(old(View()), Index(pageDir), vaddr / PAGE, count)
              && |old(owner)| + Missing(old(View()), Index(pageDir), vaddr / PAGE, count) <= pages
      ensures NonePresent(old(View()), Index(pageDir), vaddr / PAGE, done)
      ensures done < count ==> (err == STOPPED <==> Present(old(View()).Pte(Index(pageDir), vaddr / PAGE + done)))
      ensures err == -1 ==> |old(owner)| + Missing(old(View()), Index(pageDir), vaddr / PAGE, done + 1) > pages
      ensures Grown(old(View()), View(), Index(pageDir), vaddr / PAGE, Index(paddr), done, Or(perm, PRESENT))
      ensures forall n :: 0 <= n < done ==>
                EntryAt(ram[..], pageDir / 4096 - 256, vaddr / 4096 + n, paddr + 4096 * n + perm + (1 - perm % 2))
      ensures |owner| == |old(owner)| + Missing(old(View()), Index(pageDir), vaddr / PAGE, done) <= pages
      ensures done == 0 ==> View() == old(View())
    {
      hide *;
      Parts();
      ghost var a, d, v, q, low := View(), Index(pageDir), vaddr / PAGE, Index(paddr), Or(perm, PRESENT);
      DirRange(d);
      GrownSelf(a, d, v, q, low);
      MissingOne(a, d, v);
      NonePresentYet(a, d, v);
      Different();
      FullCount(a);
      NextFrame(q, 0);
      var i, va, pa := 0, vaddr, paddr;
      while i < count
        invariant 0 <= i <= count && Valid() && va < TWO_32
        invariant i < count ==> va / PAGE == v + i
        invariant pa == Addr(q + i) && (i == 0 ==> View() == a)
        invariant Grown(a, View(), d, v, q, i, low) && NonePresent(a, d, v, i)
        invariant |owner| == |a.owner| + Missing(a, d, v, i) <= pages
      {
        ghost var b := View();
        NextPage(a, b, d, v, q, i, low, count);
        NextFrame(q, i);
        MissingStep(a, b, d, v, q, i, low);
        Parts();
        var e := MapOne(pageDir, va, pa, perm);
        Parts();
        NonePresentNext(a, d, v, i);
        if e != 0 {
          MissingMono(a, d, v, i + 1, count);
          NonePresentUpTo(a, d, v, i + 1, count);
          SeenRange(a, pageDir, v, paddr, i, perm);
          return e, i;
        }
        GrownNext(a, b, View(), d, v, q, i, low);
        FullCount(View());
        if i + 1 < count {
          NextPage(a, View(), d, v, q, i + 1, low, count);
          NextAddr(vaddr, va, v + i, i);
        }
        Wraps(va);
        va, pa, i := (va + PAGE) % TWO_32, pa + PAGE, i + 1;
      }
      Parts();
      SeenRange(a, pageDir, v, paddr, count, perm);
      return 0, count;
    }

    // -------------------------------------------------------------- directories

    /** A directory in the making: the first i entries are the kernel's, the others are empty. */
    ghost predicate Filled(f: Frame, i: nat) {
      |kdir| == 1024 && forall j :: 0 <= j < 1024 ==> Word(f, j) == if j < i then kdir[j] else 0
    }

    lemma FilledNext(f: Frame, i: nat)
      requires Filled(f, i) && i < 1024 && kdir[i] < TWO_32
      ensures Filled(SetWord(f, i, kdir[i]), i + 1)
    {
      hide Word, SetWord;
      forall j | 0 <= j < 1024
        ensures Word(SetWord(f, i, kdir[i]), j) == if j < i + 1 then kdir[j] else 0
      {
        WordSet(f, i, kdir[i], j);
      }
    }

    lemma FilledZero()
      requires |kdir| == 1024
      ensures Filled(ZeroFrame(), 0)
    {
      hide Word, ZeroFrame;
      forall j | 0 <= j < 1024
        ensures Word(ZeroFrame(), j) == 0
      {
        WordZero(j);
      }
    }

    lemma FilledFresh(f: Frame)
      requires Filled(f, USER)
      ensures Fresh(f, kdir)
    {
    }

    lemma KdirWords()
      requires Shape()
      ensures |kdir| == 1024 && forall i :: 0 <= i < 1024 ==> kdir[i] < TWO_32
    {
    }

    lemma NewDirIs(a: Space, p: nat, f: Frame, m: seq<Frame>)
      requires p < |a.mem| && m == a.mem[p := f]
      ensures NewDir(a, p, f).mem == m && NewDir(a, p, f).owner == a.owner[p := Dir]
    {
    }

    lemma RetakeDir(o: map<nat, Owner>, p: nat)
      ensures o[p := Single][p := Dir] == o[p := Dir]
    {
    }

    /** memory_create_uvm: a new directory with the kernel's half and no user pages, or 0 when no
        frame is free. */
    method CreateUvm() returns (addr: nat)
      requires Valid()
      modifies this`owner, bitmap.bits, ram
      ensures Valid() && (addr == 0 <==> |old(owner)| == pages)
      ensures addr == 0 ==> View() == old(View())
      ensures addr != 0 ==>
                var p := Index(addr);
                && 0 <= p < pages && addr == Addr(p) && p !in old(owner)
                && Fresh(ram[p], kdir) && View() == NewDir(old(View()), p, ram[p])
    {
      hide *;
      Parts();
      ghost var a := View();
      addr := AllocPage();
      Parts();
      if addr == 0 {
        return;
      }
      IndexIs(addr);
      var p := addr / PAGE - 256;
      TakeIs(a, p);
      KdirWords();
      UserStart();
      ram[p] := ZeroFrame();
      FilledZero();
      var i := 0;
      while i < PdeIndex(0x8000_0000)
        invariant 0 <= i <= USER && Filled(ram[p], i)
        invariant ram[..] == a.mem[p := ram[p]]
        modifies ram
      {
        FilledNext(ram[p], i);
        ram[p] := SetWord(ram[p], i, kdir[i]);
        i := i + 1;
      }
      FilledFresh(ram[p]);
      NewDirWf(a, kdir, p, ram[p]);
      NewDirIs(a, p, ram[p], ram[..]);
      RetakeDir(a.owner, p);
      owner := owner[p := Dir];
      TracksSame(a.owner[p := Single], owner);
      Make(NewDir(a, p, ram[p]));
    }

    lemma UserStart()
      ensures PdeIndex(0x8000_0000) == USER == 512
    {
      hide Shr;
      AddressParts(0x8000_0000);
    }

    // -------------------------------------------------------------- freeing

    /** The page index addr_free_page computes, in 32-bit arithmetic. */
    function FreeIndex(addr: nat): nat {
      (addr + TWO_32 - 0x10_0000) % TWO_32 / PAGE
    }

    lemma FreeIndexIs(addr: nat)
      ensures 0x10_0000 <= addr < TWO_32 ==> FreeIndex(addr) == Index(addr)
      ensures 0x8000_0000 <= addr < TWO_32 ==> FreeIndex(addr) > MAX_PAGES
    {
    }

    /** addr_free_page: clears bits, whoever owns the pages. */
    method ClearBits(addr: nat, count: nat)
      requires Shape() && addr < TWO_32
      modifies bitmap.bits
      ensures bitmap.Used() == Assigned(old(bitmap.Used()), FreeIndex(addr), count, false)
    {
      bitmap.SetBit(FreeIndex(addr), count, false);
    }

    lemma ReleaseIs(a: Space, p: nat)
      ensures Release(a, p).mem == a.mem && Release(a, p).owner == a.owner - {p}
    {
    }

    lemma UnmapIs(a: Space, d: nat, v: nat, m: seq<Frame>)
      requires 0 <= Index(a.Ent(d, v / 1024)) < |a.mem|
      requires m == a.mem[Index(a.Ent(d, v / 1024)) := SetWord(a.mem[Index(a.Ent(d, v / 1024))], v % 1024, 0)]
      ensures Unmap(a, d, v).mem == m && Unmap(a, d, v).owner == a.owner - {Index(a.Pte(d, v))}
    {
    }

    /** memory_free_page of a frame from memory_alloc_page. */
    method FreeSingle(addr: nat)
      requires Valid() && 0x10_0000 <= addr < 0x8000_0000 && View().Owns(Index(addr), Single)
      modifies this`owner, bitmap.bits
      ensures Valid() && View() == Release(old(View()), Index(addr))
    {
      hide *;
      Parts();
      TracksIs();
      ghost var a, p := View(), Index(addr);
      FreeIndexIs(addr);
      SingleRange(p);
      Words32();
      ReleaseWf(a, kdir, p);
      ReleaseIs(a, p);
      ghost var u := bitmap.Used();
      ClearBits(addr, 1);
      owner := owner - {p};
      TrackFree(u, a.owner, p);
      Make(Release(a, p));
    }

    lemma Words32()
      ensures TWO_32 == 0x1_0000_0000
    {
    }

    /** memory_free_page of a user page mapped in the current directory. */
    method FreeMapped(cr3: nat, addr: nat)
      requires Valid() && View().IsDir(Index(cr3)) && 0x8000_0000 <= addr < TWO_32
      requires Present(View().Pte(Index(cr3), addr / PAGE))
      modifies this`owner, bitmap.bits, ram
      ensures Valid() && 0 <= Index(old(View()).Ent(Index(cr3), addr / PAGE / 1024)) < |old(View()).mem|
      ensures View() == Unmap(old(View()), Index(cr3), addr / PAGE)
    {
      hide *;
      Parts();
      UserAddr(addr);
      ghost var a, d, v := View(), Index(cr3), addr / PAGE;
      DirRange(d);
      WalkOwned(a, kdir, d, v);
      MapTable(a, kdir, d, v);
      var table, k := FindPte(cr3, addr, false);
      ReadyOld(a, View(), d, v / 1024);
      Parts();
      PteEntry(a, d, v, k, table);
      FrameIndex(Word(ram[table], k));
      UnmapWf(a, kdir, d, v);
      OwnedRange(a, kdir, Index(a.Pte(d, v)), Page(d, v));
      TracksIs();
      ghost var u, q := bitmap.Used(), Index(a.Pte(d, v));
      FrameBounds(Word(ram[table], k));
      ClearBits(FrameAddr(Word(ram[table], k)), 1);
      ram[table] := SetWord(ram[table], k, 0);
      owner := owner - {q};
      TrackFree(u, a.owner, q);
      UnmapIs(a, d, v, ram[..]);
      Make(Unmap(a, d, v));
    }

    lemma UserAddr(addr: nat)
      requires 0x8000_0000 <= addr < TWO_32
      ensures PAGE == 4096 && UserPage(addr / PAGE)
    {
    }

    lemma ReadyOld(a: Space, b: Space, d: nat, i: nat)
      requires TableReady(a, b, d, i) && Present(a.Ent(d, i))
      ensures b == a
    {
    }

    lemma OwnedRange(a: Space, dir: seq<nat>, q: int, o: Owner)
      requires Wf(a, dir) && a.Owns(q, o)
      ensures 0 <= q < |a.mem|
    {
    }

    /** Freeing the frame of an entry clears the bit of that frame. */
    lemma FrameBounds(entry: nat)
      requires entry < TWO_32 && Index(entry) >= 0
      ensures FrameAddr(entry) < TWO_32 && FreeIndex(FrameAddr(entry)) == Index(entry)
    {
      hide FrameAddr;
      EntryField(entry);
      FreeIndexIs(FrameAddr(entry));
    }
  }
}
