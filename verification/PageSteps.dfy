/** The single changes that the memory functions make keep the ownership invariant, and what each
    does to the translations of all directories. */
module PageSteps {
  import opened Bits
  import opened Mmu
  import opened PageSpace

  /** All translations of user pages in the directories of sp are the same in r. */
  ghost predicate SameMaps(sp: Space, r: Space) {
    forall d, v :: sp.IsDir(d) && UserPage(v) ==> r.IsDir(d) && r.Pte(d, v) == sp.Pte(d, v)
  }

  lemma EntSet(mem: seq<Frame>, owner: map<nat, Owner>, owner': map<nat, Owner>, p: nat, k: nat, w: nat)
    requires p < |mem| && k < 1024 && w < TWO_32
    ensures var r := Space(mem[p := SetWord(mem[p], k, w)], owner');
            forall x, j :: r.Ent(x, j) == if x == p && j == k then w else Space(mem, owner).Ent(x, j)
  {
    hide SetWord, Word;
    var f, r, sp := SetWord(mem[p], k, w), Space(mem[p := SetWord(mem[p], k, w)], owner'), Space(mem, owner);
    forall x: int, j: int
      ensures r.Ent(x, j) == if x == p && j == k then w else sp.Ent(x, j)
    {
      if x == p && 0 <= j < 1024 {
        WordSet(mem[p], k, w, j);
        assert r.mem[p] == f;
      }
    }
  }

  lemma EntFrame(mem: seq<Frame>, owner: map<nat, Owner>, owner': map<nat, Owner>, p: nat, f: Frame)
    requires p < |mem|
    ensures var r := Space(mem[p := f], owner');
            && (forall x, j :: x != p ==> r.Ent(x, j) == Space(mem, owner).Ent(x, j))
            && forall j :: 0 <= j < 1024 ==> r.Ent(p, j) == Word(f, j)
  {
  }

  // ---------------------------------------------------------------- frames of memory_alloc_page

  ghost function Take(sp: Space, p: nat): Space {
    sp.(owner := sp.owner[p := Single])
  }

  lemma TakeWf(sp: Space, kdir: seq<nat>, p: nat)
    requires Wf(sp, kdir) && p < |sp.mem| && p !in sp.owner
    ensures Wf(Take(sp, p), kdir) && SameMaps(sp, Take(sp, p))
  {
    hide Present, Index;
    var r := Take(sp, p);
    assert forall x, j :: r.Ent(x, j) == sp.Ent(x, j);
    assert forall d, v :: r.Pte(d, v) == sp.Pte(d, v);
    forall t | r.IsTable(t)
      ensures TableUsed(r, t)
    {
      assert TableUsed(sp, t);
    }
    forall q | r.IsPage(q)
      ensures PageUsed(r, q)
    {
      assert PageUsed(sp, q);
    }
  }

  ghost function Release(sp: Space, p: nat): Space {
    sp.(owner := sp.owner - {p})
  }

  lemma ReleaseWf(sp: Space, kdir: seq<nat>, p: nat)
    requires Wf(sp, kdir) && sp.Owns(p, Single)
    ensures Wf(Release(sp, p), kdir) && SameMaps(sp, Release(sp, p))
  {
    hide Present, Index;
    var r := Release(sp, p);
    assert forall x, j :: r.Ent(x, j) == sp.Ent(x, j);
    assert forall d, v :: r.Pte(d, v) == sp.Pte(d, v);
    forall t | r.IsTable(t)
      ensures TableUsed(r, t)
    {
      assert TableUsed(sp, t);
    }
    forall q | r.IsPage(q)
      ensures PageUsed(r, q)
    {
      assert PageUsed(sp, q);
    }
  }

  /** Writing data to a frame that is no directory and no table. */
  ghost function Store(sp: Space, q: nat, f: Frame): Space
    requires q < |sp.mem|
  {
    sp.(mem := sp.mem[q := f])
  }

  lemma StorePte(sp: Space, kdir: seq<nat>, q: nat, f: Frame, d: int, v: int)
    requires Wf(sp, kdir) && q < |sp.mem| && !sp.IsDir(q) && !sp.IsTable(q) && sp.IsDir(d) && UserPage(v)
    ensures Store(sp, q, f).Pte(d, v) == sp.Pte(d, v) && Store(sp, q, f).Ent(d, v / 1024) == sp.Ent(d, v / 1024)
  {
    hide Present, Index, Wf, Space.Ent;
    EntFrame(sp.mem, sp.owner, sp.owner, q, f);
    WalkOwned(sp, kdir, d, v);
    SameOwner(sp, Space(sp.mem, sp.owner));
  }

  lemma SameOwner(sp: Space, r: Space)
    requires r.mem == sp.mem
    ensures forall x, j :: r.Ent(x, j) == sp.Ent(x, j)
  {
  }

  lemma StoreWf(sp: Space, kdir: seq<nat>, q: nat, f: Frame)
    requires Wf(sp, kdir) && q < |sp.mem| && !sp.IsDir(q) && !sp.IsTable(q)
    ensures Wf(Store(sp, q, f), kdir) && SameMaps(sp, Store(sp, q, f))
  {
    hide Present, Index, Space.Ent, Space.Pte;
    var r := Store(sp, q, f);
    EntFrame(sp.mem, sp.owner, sp.owner, q, f);
    SameOwner(sp, Space(sp.mem, sp.owner));
    forall d, v | sp.IsDir(d) && UserPage(v)
      ensures r.Pte(d, v) == sp.Pte(d, v)
    {
      StorePte(sp, kdir, q, f, d, v);
    }
    forall t | r.IsTable(t)
      ensures TableUsed(r, t)
    {
      assert TableUsed(sp, t);
    }
    forall p | r.IsPage(p)
      ensures PageUsed(r, p)
    {
      assert PageUsed(sp, p);
    }
  }

  // ---------------------------------------------------------------- find_pte with alloc

  const TABLE_FLAGS: nat := 7

  /** A new empty table p for directory entry i of d. */
  ghost function NewTable(sp: Space, d: nat, i: nat, p: nat): Space
    requires d < |sp.mem| && p < |sp.mem| && i < 1024 && Addr(p) + TABLE_FLAGS < TWO_32
  {
    Space(sp.mem[p := ZeroFrame()][d := SetWord(sp.mem[p := ZeroFrame()][d], i, Addr(p) + TABLE_FLAGS)],
          sp.owner[p := Table(d, i)])
  }

  lemma NewTableEnts(sp: Space, d: nat, i: nat, p: nat)
    requires d < |sp.mem| && p < |sp.mem| && i < 1024 && d != p && Addr(p) + TABLE_FLAGS < TWO_32
    ensures var r := NewTable(sp, d, i, p);
            && (forall k :: 0 <= k < 1024 ==> r.Ent(p, k) == 0)
            && forall x, k :: x != p ==> r.Ent(x, k) == if x == d && k == i then Addr(p) + TABLE_FLAGS else sp.Ent(x, k)
    ensures Index(Addr(p) + TABLE_FLAGS) == p && Present(Addr(p) + TABLE_FLAGS)
  {
    hide Space.Ent, Word, SetWord;
    var m := sp.mem[p := ZeroFrame()];
    EntFrame(sp.mem, sp.owner, sp.owner, p, ZeroFrame());
    EntSet(m, sp.owner, sp.owner[p := Table(d, i)], d, i, Addr(p) + TABLE_FLAGS);
    SameOwner(sp, Space(sp.mem, sp.owner));
    forall k | 0 <= k < 1024
      ensures Word(ZeroFrame(), k) == 0
    {
      WordZero(k);
    }
    IndexOfAddr(p, TABLE_FLAGS);
    OddEntry(p, TABLE_FLAGS);
  }

  lemma OddEntry(p: nat, low: nat)
    ensures Present(Addr(p) + low) <==> low % 2 == 1
  {
    DivModUnique(Addr(p) + low, 0x8_0000 + 2048 * p + low / 2, low % 2, 2);
  }

  lemma NewTablePte(sp: Space, kdir: seq<nat>, d: nat, i: nat, p: nat, e: int, v: int)
    requires Wf(sp, kdir) && sp.IsDir(d) && USER <= i < 1024 && !Present(sp.Ent(d, i)) && p !in sp.owner
    requires d < |sp.mem| && p < |sp.mem| && Addr(p) + TABLE_FLAGS < TWO_32 && sp.IsDir(e) && UserPage(v)
    ensures NewTable(sp, d, i, p).Pte(e, v) == sp.Pte(e, v)
  {
    hide Wf, Present, Index, Space.Ent, NewTable;
    NewTableEnts(sp, d, i, p);
    WalkOwned(sp, kdir, e, v);
    UserIndex(v);
  }

  lemma NewTableWf(sp: Space, kdir: seq<nat>, d: nat, i: nat, p: nat)
    requires Wf(sp, kdir) && sp.IsDir(d) && USER <= i < 1024 && !Present(sp.Ent(d, i)) && p !in sp.owner
    requires d < |sp.mem| && p < |sp.mem| && Addr(p) + TABLE_FLAGS < TWO_32
    ensures var r := NewTable(sp, d, i, p);
            Wf(r, kdir) && SameMaps(sp, r) && Present(r.Ent(d, i)) && Index(r.Ent(d, i)) == p && |r.mem| == |sp.mem|
  {
    hide Present, Index, Space.Ent, Space.Pte, NewTable;
    var r := NewTable(sp, d, i, p);
    NewTableEnts(sp, d, i, p);
    NewTableOwner(sp, d, i, p);
    NotPresent();
    forall e, v | sp.IsDir(e) && UserPage(v)
      ensures r.Pte(e, v) == sp.Pte(e, v)
    {
      NewTablePte(sp, kdir, d, i, p, e, v);
    }
    forall t | r.IsTable(t)
      ensures TableUsed(r, t)
    {
      assert t != p ==> TableUsed(sp, t);
    }
    forall q | r.IsPage(q)
      ensures PageUsed(r, q)
    {
      assert PageUsed(sp, q);
    }
  }

  lemma NewTableOwner(sp: Space, d: nat, i: nat, p: nat)
    requires d < |sp.mem| && p < |sp.mem| && i < 1024 && Addr(p) + TABLE_FLAGS < TWO_32
    ensures var r := NewTable(sp, d, i, p); r.owner == sp.owner[p := Table(d, i)] && |r.mem| == |sp.mem|
    ensures forall x :: 0 <= x < |sp.mem| && x != p && x != d ==> NewTable(sp, d, i, p).mem[x] == sp.mem[x]
  {
  }

  // ---------------------------------------------------------------- one entry of memory_create_map

  /** Virtual page v of d goes to frame q: the entry of v gets the address of q and the low bits. */
  ghost function Map(sp: Space, d: nat, v: nat, q: nat, low: nat): Space
    requires 0 <= Index(sp.Ent(d, v / 1024)) < |sp.mem| && Addr(q) + low < TWO_32
  {
    var t := Index(sp.Ent(d, v / 1024));
    Space(sp.mem[t := SetWord(sp.mem[t], v % 1024, Addr(q) + low)], sp.owner[q := Page(d, v)])
  }

  /** v of d can be mapped to q: there is a table, the entry is free and q is not used yet. */
  ghost predicate Mappable(sp: Space, kdir: seq<nat>, d: nat, v: nat, q: nat, low: nat) {
    && Wf(sp, kdir) && sp.IsDir(d) && UserPage(v) && Present(sp.Ent(d, v / 1024)) && !Present(sp.Pte(d, v))
    && sp.Owns(q, Single) && low < PAGE && low % 2 == 1 && Addr(q) + low < TWO_32
  }

  lemma MapTable(sp: Space, kdir: seq<nat>, d: nat, v: nat)
    requires Wf(sp, kdir) && sp.IsDir(d) && UserPage(v) && Present(sp.Ent(d, v / 1024))
    ensures var t := Index(sp.Ent(d, v / 1024)); 0 <= t < |sp.mem| && sp.Owns(t, Table(d, v / 1024))
  {
    hide Present, Index, Space.Ent;
    WalkOwned(sp, kdir, d, v);
  }

  lemma MapEnts(sp: Space, kdir: seq<nat>, d: nat, v: nat, q: nat, low: nat)
    requires Mappable(sp, kdir, d, v, q, low)
    ensures var t := Index(sp.Ent(d, v / 1024));
            && 0 <= t < |sp.mem| && sp.Owns(t, Table(d, v / 1024)) && t != q
            && var r := Map(sp, d, v, q, low);
            && r.owner == sp.owner[q := Page(d, v)] && |r.mem| == |sp.mem|
            && (forall x, k :: r.Ent(x, k) == if x == t && k == v % 1024 then Addr(q) + low else sp.Ent(x, k))
            && forall x :: 0 <= x < |sp.mem| && x != t ==> r.mem[x] == sp.mem[x]
    ensures Index(Addr(q) + low) == q && Present(Addr(q) + low) && (Addr(q) + low) % PAGE == low
  {
    hide Wf, Present, Index, SetWord, Space.Ent;
    MapTable(sp, kdir, d, v);
    var t := Index(sp.Ent(d, v / 1024));
    EntSet(sp.mem, sp.owner, sp.owner[q := Page(d, v)], t, v % 1024, Addr(q) + low);
    SameOwner(sp, Space(sp.mem, sp.owner));
    IndexOfAddr(q, low);
    OddEntry(q, low);
  }

  /** The new entry is seen at v of d and nowhere else. */
  lemma MapPte(sp: Space, kdir: seq<nat>, d: nat, v: nat, q: nat, low: nat, e: int, u: int)
    requires Mappable(sp, kdir, d, v, q, low) && sp.IsDir(e) && UserPage(u)
    ensures 0 <= Index(sp.Ent(d, v / 1024)) < |sp.mem|
    ensures Map(sp, d, v, q, low).Pte(e, u) == if e == d && u == v then Addr(q) + low else sp.Pte(e, u)
    ensures Map(sp, d, v, q, low).Ent(e, u / 1024) == sp.Ent(e, u / 1024)
  {
    hide Wf, Present, Index, Space.Ent, Map;
    MapEnts(sp, kdir, d, v, q, low);
    WalkOwned(sp, kdir, e, u);
    UserIndex(u);
    UserIndex(v);
  }

  lemma MapWf(sp: Space, kdir: seq<nat>, d: nat, v: nat, q: nat, low: nat)
    requires Mappable(sp, kdir, d, v, q, low)
    ensures 0 <= Index(sp.Ent(d, v / 1024)) < |sp.mem| && Wf(Map(sp, d, v, q, low), kdir)
  {
    hide Present, Index, Space.Ent, Space.Pte, Map;
    MapEnts(sp, kdir, d, v, q, low);
    UserIndex(v);
    var r := Map(sp, d, v, q, low);
    forall t | r.IsTable(t)
      ensures TableUsed(r, t)
    {
      assert TableUsed(sp, t);
    }
    forall p | r.IsPage(p)
      ensures PageUsed(r, p)
    {
      assert p != q ==> PageUsed(sp, p);
      MapPte(sp, kdir, d, v, q, low, r.owner[p].d, r.owner[p].v);
    }
    MapTables(sp, r, d, v, q, low);
  }

  lemma MapTables(sp: Space, r: Space, d: nat, v: nat, q: nat, low: nat)
    requires TableEntries(sp) && sp.Owns(q, Single) && r.owner == sp.owner[q := Page(d, v)]
    requires sp.Owns(Index(sp.Ent(d, v / 1024)), Table(d, v / 1024)) && Index(Addr(q) + low) == q
    requires v == v / 1024 * 1024 + v % 1024
    requires forall x, k :: r.Ent(x, k) == if x == Index(sp.Ent(d, v / 1024)) && k == v % 1024 then Addr(q) + low
             else sp.Ent(x, k)
    ensures TableEntries(r)
  {
    hide Present, Index, Space.Ent;
    forall t, j | r.IsTable(t) && 0 <= j < 1024 && Present(r.Ent(t, j))
      ensures r.Owns(Index(r.Ent(t, j)), Page(r.owner[t].d, r.owner[t].i * 1024 + j))
    {
      assert sp.IsTable(t);
    }
  }

  // ---------------------------------------------------------------- memory_free_page of a mapped page

  ghost function Unmap(sp: Space, d: nat, v: nat): Space
    requires 0 <= Index(sp.Ent(d, v / 1024)) < |sp.mem|
  {
    var t := Index(sp.Ent(d, v / 1024));
    Space(sp.mem[t := SetWord(sp.mem[t], v % 1024, 0)], sp.owner - {Index(sp.Pte(d, v))})
  }

  lemma UnmapEnts(sp: Space, kdir: seq<nat>, d: nat, v: nat)
    requires Wf(sp, kdir) && sp.IsDir(d) && UserPage(v) && Present(sp.Pte(d, v))
    ensures var t, q := Index(sp.Ent(d, v / 1024)), Index(sp.Pte(d, v));
            && 0 <= t < |sp.mem| && sp.Owns(t, Table(d, v / 1024)) && sp.Owns(q, Page(d, v))
            && Present(sp.Ent(d, v / 1024))
            && var r := Unmap(sp, d, v);
            && r.owner == sp.owner - {q} && |r.mem| == |sp.mem|
            && forall x, k :: r.Ent(x, k) == if x == t && k == v % 1024 then 0 else sp.Ent(x, k)
  {
    hide Wf, Present, Index, SetWord, Space.Ent;
    WalkOwned(sp, kdir, d, v);
    MapTable(sp, kdir, d, v);
    var t := Index(sp.Ent(d, v / 1024));
    EntSet(sp.mem, sp.owner, sp.owner - {Index(sp.Pte(d, v))}, t, v % 1024, 0);
    SameOwner(sp, Space(sp.mem, sp.owner));
  }

  lemma UnmapPte(sp: Space, kdir: seq<nat>, d: nat, v: nat, e: int, u: int)
    requires Wf(sp, kdir) && sp.IsDir(d) && UserPage(v) && Present(sp.Pte(d, v)) && sp.IsDir(e) && UserPage(u)
    ensures 0 <= Index(sp.Ent(d, v / 1024)) < |sp.mem|
    ensures Unmap(sp, d, v).Pte(e, u) == if e == d && u == v then 0 else sp.Pte(e, u)
    ensures Unmap(sp, d, v).Ent(e, u / 1024) == sp.Ent(e, u / 1024)
  {
    hide Wf, Present, Index, Space.Ent, Unmap;
    UnmapEnts(sp, kdir, d, v);
    WalkOwned(sp, kdir, e, u);
    UserIndex(u);
    UserIndex(v);
  }

  lemma UnmapWf(sp: Space, kdir: seq<nat>, d: nat, v: nat)
    requires Wf(sp, kdir) && sp.IsDir(d) && UserPage(v) && Present(sp.Pte(d, v))
    ensures 0 <= Index(sp.Ent(d, v / 1024)) < |sp.mem| && Wf(Unmap(sp, d, v), kdir)
  {
    hide Present, Index, Space.Ent, Space.Pte, Unmap;
    UnmapEnts(sp, kdir, d, v);
    UserIndex(v);
    NotPresent();
    var r := Unmap(sp, d, v);
    forall t | r.IsTable(t)
      ensures TableUsed(r, t)
    {
      assert TableUsed(sp, t);
    }
    forall p | r.IsPage(p)
      ensures PageUsed(r, p)
    {
      assert PageUsed(sp, p);
      UnmapPte(sp, kdir, d, v, r.owner[p].d, r.owner[p].v);
    }
    UnmapTables(sp, r, d, v);
  }

  lemma UnmapTables(sp: Space, r: Space, d: nat, v: nat)
    requires TableEntries(sp) && sp.Owns(Index(sp.Pte(d, v)), Page(d, v)) && r.owner == sp.owner - {Index(sp.Pte(d, v))}
    requires sp.Owns(Index(sp.Ent(d, v / 1024)), Table(d, v / 1024)) && v / 1024 * 1024 + v % 1024 == v
    requires PagesUsed(sp) && TablesUsed(sp) && !Present(0)
    requires forall x, k :: r.Ent(x, k) == if x == Index(sp.Ent(d, v / 1024)) && k == v % 1024 then 0 else sp.Ent(x, k)
    ensures TableEntries(r)
  {
    hide Present, Index, Space.Ent, Space.Pte, PagesUsed;
    forall t, j | r.IsTable(t) && 0 <= j < 1024 && Present(r.Ent(t, j))
      ensures r.Owns(Index(r.Ent(t, j)), Page(r.owner[t].d, r.owner[t].i * 1024 + j))
    {
      assert sp.IsTable(t) && TableUsed(sp, t);
      var i := sp.owner[t].i;
      PageIndex(i, j);
      assert sp.Owns(Index(sp.Ent(t, j)), Page(sp.owner[t].d, i * 1024 + j));
    }
  }

  // ---------------------------------------------------------------- memory_create_uvm

  ghost function NewDir(sp: Space, p: nat, f: Frame): Space
    requires p < |sp.mem|
  {
    Space(sp.mem[p := f], sp.owner[p := Dir])
  }

  /** The frame of a new directory: the kernel's half and no user entries. */
  ghost predicate Fresh(f: Frame, kdir: seq<nat>) {
    forall i :: 0 <= i < 1024 ==> (i < USER && i < |kdir| ==> Word(f, i) == kdir[i]) && (i >= USER ==> Word(f, i) == 0)
  }

  lemma NewDirPte(sp: Space, kdir: seq<nat>, p: nat, f: Frame, e: int, u: int)
    requires Wf(sp, kdir) && p < |sp.mem| && p !in sp.owner && Fresh(f, kdir) && UserPage(u)
    ensures sp.IsDir(e) ==> NewDir(sp, p, f).Pte(e, u) == sp.Pte(e, u)
    ensures NewDir(sp, p, f).Pte(p, u) == 0 && NewDir(sp, p, f).Ent(p, u / 1024) == 0
  {
    hide Wf, Present, Index, Space.Ent, Word;
    EntFrame(sp.mem, sp.owner, sp.owner[p := Dir], p, f);
    SameOwner(sp, Space(sp.mem, sp.owner));
    UserIndex(u);
    NotPresent();
    if sp.IsDir(e) {
      WalkOwned(sp, kdir, e, u);
    }
  }

  lemma NewDirWf(sp: Space, kdir: seq<nat>, p: nat, f: Frame)
    requires Wf(sp, kdir) && p < |sp.mem| && p !in sp.owner && Fresh(f, kdir)
    ensures Wf(NewDir(sp, p, f), kdir) && SameMaps(sp, NewDir(sp, p, f))
    ensures forall v :: UserPage(v) ==> NewDir(sp, p, f).Pte(p, v) == 0
  {
    hide Present, Index, Space.Ent, Space.Pte, Word;
    EntFrame(sp.mem, sp.owner, sp.owner[p := Dir], p, f);
    SameOwner(sp, Space(sp.mem, sp.owner));
    NotPresent();
    var r := NewDir(sp, p, f);
    forall e, v | sp.IsDir(e) && UserPage(v)
      ensures r.Pte(e, v) == sp.Pte(e, v)
    {
      NewDirPte(sp, kdir, p, f, e, v);
    }
    forall v | UserPage(v)
      ensures r.Pte(p, v) == 0
    {
      NewDirPte(sp, kdir, p, f, p, v);
    }
    forall t | r.IsTable(t)
      ensures TableUsed(r, t)
    {
      assert TableUsed(sp, t);
    }
    forall q | r.IsPage(q)
      ensures PageUsed(r, q)
    {
      assert PageUsed(sp, q);
    }
  }

  // ---------------------------------------------------------------- memory_destroy_uvm

  /** The frames of an address space: its directory, its tables and its pages. */
  predicate PartOf(sp: Space, p: int, d: nat) {
    p == d || (p in sp.owner && ((sp.owner[p].Table? && sp.owner[p].d == d)
                                 || (sp.owner[p].Page? && sp.owner[p].d == d)))
  }

  ghost function Destroy(sp: Space, d: nat): Space {
    sp.(owner := map p | p in sp.owner && !PartOf(sp, p, d) :: sp.owner[p])
  }

  lemma SamePte(sp: Space, r: Space)
    requires r.mem == sp.mem
    ensures forall e, v :: r.Pte(e, v) == sp.Pte(e, v)
  {
  }

  lemma DestroyWf(sp: Space, kdir: seq<nat>, d: nat)
    requires Wf(sp, kdir) && sp.IsDir(d)
    ensures Wf(Destroy(sp, d), kdir)
    ensures forall e :: sp.IsDir(e) && e != d ==> Destroy(sp, d).IsDir(e)
    ensures forall e, v :: Destroy(sp, d).Pte(e, v) == sp.Pte(e, v)
  {
    hide Present, Index, Space.Ent, Space.Pte;
    var r := Destroy(sp, d);
    SameOwner(sp, r);
    SamePte(sp, r);
    forall t | r.IsTable(t)
      ensures TableUsed(r, t)
    {
      assert TableUsed(sp, t);
    }
    forall q | r.IsPage(q)
      ensures PageUsed(r, q)
    {
      assert PageUsed(sp, q);
    }
  }

  // ---------------------------------------------------------------- every page of every directory

  /** memory_create_uvm leaves all translations as they were; the new directory maps no user page and
      the kernel's half like every other directory. */
  lemma NewDirTranslates(sp: Space, kdir: seq<nat>, p: nat, f: Frame, e: int, v: int)
    requires Wf(sp, kdir) && |kdir| == 1024 && p < |sp.mem| && p !in sp.owner && Fresh(f, kdir) && sp.IsDir(e)
    requires AnyPage(v)
    ensures Translate(NewDir(sp, p, f), e, v) == Translate(sp, e, v)
    ensures Translate(NewDir(sp, p, f), p, v) == if KernelPage(v) then Translate(sp, e, v) else Unmapped
  {
    hide Wf, Space.Pte, Space.Ent, Present, Index, Fresh, Word;
    var r := NewDir(sp, p, f);
    NewDirWf(sp, kdir, p, f);
    WfParts(sp, kdir);
    EntFrame(sp.mem, sp.owner, sp.owner[p := Dir], p, f);
    assert KeepsKernel(sp, r);
    SameEverywhere(sp, r, kdir, e, v);
    NotPresent();
    if KernelPage(v) {
      KernelTranslates(sp, r, kdir, e, p, v);
    }
  }

  /** memory_free_page of a mapped page changes that translation only. */
  lemma UnmapTranslates(sp: Space, kdir: seq<nat>, d: nat, v: nat, e: int, u: int)
    requires Wf(sp, kdir) && |kdir| == 1024 && sp.IsDir(d) && UserPage(v) && Present(sp.Pte(d, v)) && sp.IsDir(e)
    requires AnyPage(u)
    ensures 0 <= Index(sp.Ent(d, v / 1024)) < |sp.mem|
    ensures Translate(Unmap(sp, d, v), e, u) == if e == d && u == v then Unmapped else Translate(sp, e, u)
  {
    hide Wf, Space.Pte, Space.Ent, Present, Index;
    UnmapEnts(sp, kdir, d, v);
    UnmapWf(sp, kdir, d, v);
    WfParts(sp, kdir);
    var r := Unmap(sp, d, v);
    assert KeepsKernel(sp, r);
    NotPresent();
    if UserPage(u) {
      UnmapPte(sp, kdir, d, v, e, u);
    } else {
      SameEverywhere(sp, r, kdir, e, u);
    }
  }

  /** Giving back a frame of memory_alloc_page changes no translation. */
  lemma ReleaseTranslates(sp: Space, kdir: seq<nat>, p: nat, e: int, u: int)
    requires Wf(sp, kdir) && |kdir| == 1024 && sp.Owns(p, Single) && sp.IsDir(e) && AnyPage(u)
    ensures Translate(Release(sp, p), e, u) == Translate(sp, e, u)
  {
    hide Wf, Space.Pte, Space.Ent, Present, Index;
    ReleaseWf(sp, kdir, p);
    WfParts(sp, kdir);
    assert KeepsKernel(sp, Release(sp, p));
    SameEverywhere(sp, Release(sp, p), kdir, e, u);
  }

  /** Destroying an address space changes no translation of another directory. */
  lemma DestroyTranslates(sp: Space, kdir: seq<nat>, d: nat, e: int, u: int)
    requires Wf(sp, kdir) && |kdir| == 1024 && sp.IsDir(d) && sp.IsDir(e) && e != d && AnyPage(u)
    ensures Translate(Destroy(sp, d), e, u) == Translate(sp, e, u)
  {
    hide Wf, Space.Pte, Space.Ent, Present, Index;
    DestroyWf(sp, kdir, d);
    WfParts(sp, kdir);
    assert KeepsKernel(sp, Destroy(sp, d));
    SameEverywhere(sp, Destroy(sp, d), kdir, e, u);
  }
}
