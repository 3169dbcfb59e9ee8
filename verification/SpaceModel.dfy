/** An address space on values: its directory and table frames, the entries written into the
    tables, and the flat map from virtual page to translation that they stand for. */
module SpaceModel {
  import opened Words
  import opened FrameModel
  import opened Paging

  const PAGES: nat := 0x10_0000

  /** `tables`: directory index to table frame; `ptes`: virtual page to a non-default table entry. */
  datatype Space = Space(dir: nat, tables: map<nat, nat>, ptes: map<nat, U32>)

  /** The frames an address space is made of; the pages mapped into it are not among them. */
  function Frames(sp: Space): set<nat> { {sp.dir} + sp.tables.Values }

  function EntryOf(sp: Space, v: nat): U32 { if v in sp.ptes then sp.ptes[v] else 0 }

  ghost predicate WellFormed(sp: Space) {
    && sp.dir < MAX_FRAMES
    && (forall i :: i in sp.tables ==> i < ENTRIES && sp.tables[i] < MAX_FRAMES && sp.tables[i] != sp.dir)
    && (forall i, j :: i in sp.tables && j in sp.tables && i != j ==> sp.tables[i] != sp.tables[j])
    && (forall v :: v in sp.ptes ==> v < PAGES && v / 0x400 in sp.tables)
  }

  /** The flat map: what virtual page `v` translates to. */
  ghost function Flat(sp: Space, v: nat): Option<Translation>
    requires WellFormed(sp)
  {
    if v / 0x400 in sp.tables then Translate(TableEntry(sp.tables[v / 0x400]), EntryOf(sp, v)) else None
  }

  // ---- Operations ----

  /** `mmu_create_address_space` given what the allocator answered. */
  function Created(page: U32): Option<Space> {
    if page == 0 then None else Some(Space(page / FRAME_SIZE, map[], map[]))
  }

  ghost predicate Creates(s: Pmm, s': Pmm, r: Option<Space>) {
    exists page: U32 :: Allocates(s, page, s') && r == Created(page)
  }

  /** The page at `virt` takes an entry; the table frame is `table`. */
  function Mapped(sp: Space, phys: U32, virt: U32, flags: U32, table: nat): Space
    requires phys % 0x1000 == 0
  {
    var v := virt / 0x1000;
    sp.(tables := sp.tables[v / 0x400 := table], ptes := sp.ptes[v := PageEntry(phys, flags)])
  }

  /** `mmu_map_page`: misaligned addresses are refused; an existing table takes the entry;
      otherwise a table is allocated first, and if that fails nothing changes. */
  ghost predicate Maps(s: Pmm, sp: Space, phys: U32, virt: U32, flags: U32, s': Pmm, sp': Space, r: U32) {
    var i := virt / 0x1000 / 0x400;
    if phys % 0x1000 != 0 || virt % 0x1000 != 0 then
      s' == s && sp' == sp && r == 0
    else if i in sp.tables then
      s' == s && sp' == Mapped(sp, phys, virt, flags, sp.tables[i]) && r == virt
    else
      exists page: U32 ::
        && Allocates(s, page, s')
        && sp' == (if page == 0 then sp else Mapped(sp, phys, virt, flags, page / FRAME_SIZE))
        && r == (if page == 0 then 0 else virt)
  }

  /** `mmu_unmap_page`. */
  function Unmapped(sp: Space, virt: U32): Space {
    if virt % 0x1000 != 0 then sp else sp.(ptes := sp.ptes - {virt / 0x1000})
  }

  /** `mmu_destroy_address_space`: the tables with directory index below `n` have been freed ... */
  ghost function AfterTables(s: Pmm, sp: Space, n: nat): Pmm {
    if n == 0 then s
    else if n - 1 in sp.tables then Release(AfterTables(s, sp, n - 1), sp.tables[n - 1])
    else AfterTables(s, sp, n - 1)
  }

  /** ... all of them, and then the directory. */
  ghost function Destroyed(s: Pmm, sp: Space): Pmm {
    Release(AfterTables(s, sp, ENTRIES), sp.dir)
  }

  /** Frames `fs`, none of them free, have gone back. */
  ghost predicate Returned(s: Pmm, fs: set<nat>, s': Pmm) {
    && fs !! s.free
    && s' == s.(free := s.free + fs, freeFrames := s'.freeFrames)
    && s'.freeFrames == s.freeFrames + |fs|
  }

  // ---- What the operations do to the flat map ----

  ghost predicate InRange(free: set<nat>) { forall f :: f in free ==> 0 < f < MAX_FRAMES }

  /** The space's frames are not free, so a fresh frame is none of them. */
  ghost predicate Holds(s: Pmm, sp: Space) {
    WellFormed(sp) && Frames(sp) !! s.free && InRange(s.free)
  }

  /** A map request succeeds: aligned, and its table exists or can be allocated. */
  predicate CanMap(s: Pmm, sp: Space, phys: U32, virt: U32) {
    && phys % 0x1000 == 0 && virt % 0x1000 == 0
    && (virt / 0x1000 / 0x400 in sp.tables || (s.freeFrames != 0 && s.free != {}))
  }

  /** Adding a table on a frame of its own keeps the space well formed and its entries as they are. */
  lemma FreshTable(sp: Space, i: nat, t: nat)
    requires WellFormed(sp) && i < ENTRIES && i !in sp.tables && t < MAX_FRAMES && t !in Frames(sp)
    ensures WellFormed(sp.(tables := sp.tables[i := t]))
    ensures forall j :: j in sp.tables ==> sp.tables[j] != t
    ensures forall v :: v in sp.ptes ==> v / 0x400 != i
  {
    forall j | j in sp.tables ensures sp.tables[j] != t { assert sp.tables[j] in sp.tables.Values; }
  }

  lemma ZeroTranslates(pde: U32)
    ensures Translate(pde, 0) == None
  {
  }

  lemma CreateHolds(s: Pmm, page: U32, s': Pmm)
    requires Allocates(s, page, s') && page != 0 && InRange(s.free)
    ensures Holds(s', Created(page).value)
  {
  }

  lemma CreatedFlat(page: U32, v: nat)
    requires page != 0
    ensures WellFormed(Created(page).value) && Flat(Created(page).value, v) == None
  {
  }

  lemma MappedExisting(sp: Space, phys: U32, virt: U32, flags: U32)
    requires WellFormed(sp) && phys % 0x1000 == 0 && virt / 0x1000 / 0x400 in sp.tables
    ensures var sp' := Mapped(sp, phys, virt, flags, sp.tables[virt / 0x1000 / 0x400]);
      WellFormed(sp') && sp'.tables == sp.tables && Frames(sp') == Frames(sp)
  {
    var i := virt / 0x1000 / 0x400;
    assert sp.tables[i := sp.tables[i]] == sp.tables;
  }

  lemma MappedFresh(sp: Space, phys: U32, virt: U32, flags: U32, t: nat)
    requires WellFormed(sp) && phys % 0x1000 == 0 && virt / 0x1000 / 0x400 !in sp.tables
    requires t < MAX_FRAMES && t !in Frames(sp)
    ensures var sp' := Mapped(sp, phys, virt, flags, t);
      WellFormed(sp') && Frames(sp') == Frames(sp) + {t}
  {
    var i := virt / 0x1000 / 0x400;
    FreshTable(sp, i, t);
    TableValues(sp.tables, i, t);
  }

  lemma TableValues(tables: map<nat, nat>, i: nat, t: nat)
    requires i !in tables
    ensures tables[i := t].Values == tables.Values + {t}
  {
    var m := tables[i := t];
    assert m[i] == t;
    forall x | x in tables.Values ensures x in m.Values {
      var j :| j in tables && tables[j] == x;
      assert m[j] == x;
    }
  }

  /** Which frame, if any, a map call added to the space. */
  lemma MapShape(s: Pmm, sp: Space, phys: U32, virt: U32, flags: U32, s': Pmm, sp': Space, r: U32) returns (page: U32)
    requires Holds(s, sp) && Maps(s, sp, phys, virt, flags, s', sp', r)
    ensures sp'.dir == sp.dir
    ensures page == 0 ==> s' == s && sp'.tables == sp.tables
    ensures page != 0 ==> Allocates(s, page, s') && virt / 0x1000 / 0x400 !in sp.tables
    ensures page != 0 ==> sp'.tables == sp.tables[virt / 0x1000 / 0x400 := page / FRAME_SIZE]
  {
    page := 0;
    var i := virt / 0x1000 / 0x400;
    if phys % 0x1000 == 0 && virt % 0x1000 == 0 {
      if i in sp.tables {
        MappedExisting(sp, phys, virt, flags);
      } else {
        page :| Allocates(s, page, s') &&
          sp' == (if page == 0 then sp else Mapped(sp, phys, virt, flags, page / FRAME_SIZE));
      }
    }
  }

  /** A map call either leaves tables alone or adds one fresh frame to the space. */
  lemma MapHolds(s: Pmm, sp: Space, phys: U32, virt: U32, flags: U32, s': Pmm, sp': Space, r: U32)
    requires Holds(s, sp) && Maps(s, sp, phys, virt, flags, s', sp', r)
    ensures Holds(s', sp')
    ensures (s' == s && Frames(sp') == Frames(sp))
      || exists page: U32 :: page != 0 && Allocates(s, page, s') && page / FRAME_SIZE in s.free
           && Frames(sp') == Frames(sp) + {page / FRAME_SIZE}
  {
    var i := virt / 0x1000 / 0x400;
    if phys % 0x1000 == 0 && virt % 0x1000 == 0 {
      if i in sp.tables {
        MappedExisting(sp, phys, virt, flags);
      } else {
        var page: U32 :| Allocates(s, page, s') &&
          sp' == (if page == 0 then sp else Mapped(sp, phys, virt, flags, page / FRAME_SIZE));
        if page != 0 { MappedFresh(sp, phys, virt, flags, page / FRAME_SIZE); }
      }
    }
  }

  /** The two halves of `mmu_map_page`: make sure of the table, giving `sp1`, then write the entry. */
  lemma MapInHalves(s: Pmm, sp: Space, phys: U32, virt: U32, flags: U32, page: U32, s': Pmm, sp1: Space)
    requires phys % 0x1000 == 0 && virt % 0x1000 == 0 && InRange(s.free)
    requires var i := virt / 0x1000 / 0x400;
      if i in sp.tables then s' == s && sp1 == sp
      else page != 0 && Allocates(s, page, s') && sp1 == sp.(tables := sp.tables[i := page / FRAME_SIZE])
    ensures var i := virt / 0x1000 / 0x400;
      && i in sp1.tables && CanMap(s, sp, phys, virt)
      && Maps(s, sp, phys, virt, flags, s', Mapped(sp1, phys, virt, flags, sp1.tables[i]), virt)
  {
    var i := virt / 0x1000 / 0x400;
    if i !in sp.tables {
      var t := page / FRAME_SIZE;
      assert sp.tables[i := t][i := t] == sp.tables[i := t];
      assert Mapped(sp1, phys, virt, flags, t) == Mapped(sp, phys, virt, flags, t);
    }
  }

  lemma MapWithoutTable(s: Pmm, sp: Space, phys: U32, virt: U32, flags: U32, s': Pmm)
    requires phys % 0x1000 == 0 && virt % 0x1000 == 0 && InRange(s.free)
    requires virt / 0x1000 / 0x400 !in sp.tables && Allocates(s, 0, s')
    ensures Maps(s, sp, phys, virt, flags, s', sp, 0) && !CanMap(s, sp, phys, virt)
  {
  }

  /** Writing one entry changes the flat map at that page only, new table or not. */
  lemma MappedFlat(sp: Space, phys: U32, virt: U32, flags: U32, t: nat, v: nat)
    requires WellFormed(sp) && phys % 0x1000 == 0 && t < MAX_FRAMES
    requires var i := virt / 0x1000 / 0x400; i in sp.tables ==> t == sp.tables[i]
    requires WellFormed(Mapped(sp, phys, virt, flags, t))
    ensures Flat(Mapped(sp, phys, virt, flags, t), v) ==
      if v == virt / 0x1000 then Requested(phys, flags) else Flat(sp, v)
  {
    PageEntryTranslates(t, phys, flags);
    ZeroTranslates(TableEntry(t));
  }

  /** A successful map makes the walk of exactly that page yield the given frame with the
      requested rights; a failed one changes no translation. */
  lemma MapFlat(s: Pmm, sp: Space, phys: U32, virt: U32, flags: U32, s': Pmm, sp': Space, r: U32, v: nat)
    requires Holds(s, sp) && Maps(s, sp, phys, virt, flags, s', sp', r)
    ensures Holds(s', sp')
    ensures Flat(sp', v) ==
      if CanMap(s, sp, phys, virt) && v == virt / 0x1000 then Requested(phys, flags) else Flat(sp, v)
    ensures r == if CanMap(s, sp, phys, virt) then virt else 0
  {
    MapHolds(s, sp, phys, virt, flags, s', sp', r);
    var i := virt / 0x1000 / 0x400;
    if CanMap(s, sp, phys, virt) { MappedFlat(sp, phys, virt, flags, sp'.tables[i], v); }
  }

  /** A map that succeeds costs one frame exactly when it needs a new table. */
  lemma MapCost(s: Pmm, sp: Space, phys: U32, virt: U32, flags: U32, s': Pmm, sp': Space, r: U32)
    requires Holds(s, sp) && Maps(s, sp, phys, virt, flags, s', sp', r) && CanMap(s, sp, phys, virt)
    ensures var i := virt / 0x1000 / 0x400;
      && sp'.tables.Keys == sp.tables.Keys + {i}
      && |s'.free| == |s.free| - (if i in sp.tables then 0 else 1)
      && s'.freeFrames == s.freeFrames - (if i in sp.tables then 0 else 1)
  {
  }

  /** Unmapping removes exactly that page. */
  lemma UnmapFlat(s: Pmm, sp: Space, virt: U32, v: nat)
    requires Holds(s, sp)
    ensures Holds(s, Unmapped(sp, virt))
    ensures Flat(Unmapped(sp, virt), v) ==
      if virt % 0x1000 == 0 && v == virt / 0x1000 then None else Flat(sp, v)
  {
    if v / 0x400 in sp.tables { ZeroTranslates(TableEntry(sp.tables[v / 0x400])); }
  }

  // ---- Giving the frames back ----

  /** The tables with directory index below `n`. */
  ghost function TablesBelow(sp: Space, n: nat): set<nat> {
    if n == 0 then {}
    else if n - 1 in sp.tables then TablesBelow(sp, n - 1) + {sp.tables[n - 1]}
    else TablesBelow(sp, n - 1)
  }

  lemma {:induction false} BelowMember(sp: Space, n: nat, x: nat)
    ensures x in TablesBelow(sp, n) <==> exists i :: i in sp.tables && i < n && sp.tables[i] == x
  {
    if n > 0 { BelowMember(sp, n - 1, x); }
  }

  lemma SubsetSize(a: set<nat>, b: set<nat>)
    requires a <= b
    ensures |a| <= |b|
  {
    assert b == a + (b - a);
  }

  lemma ReturnOne(s: Pmm, fs: set<nat>, s': Pmm, f: nat)
    requires Returned(s, fs, s') && f !in fs && f !in s.free && s.freeFrames + |fs| + 1 < 0x1_0000_0000
    ensures Returned(s, fs + {f}, Release(s', f))
  {
    assert (s.free + fs) + {f} == s.free + (fs + {f});
  }

  lemma TablesReturned(s: Pmm, sp: Space, n: nat)
    requires Holds(s, sp) && s.freeFrames + |Frames(sp)| < 0x1_0000_0000
    ensures Returned(s, TablesBelow(sp, n), AfterTables(s, sp, n))
  {
    var i := 0;
    var fs, cur := TablesBelow(sp, 0), AfterTables(s, sp, 0);
    ReturnNone(s);
    while i < n
      invariant i <= n && fs == TablesBelow(sp, i) && cur == AfterTables(s, sp, i) && Returned(s, fs, cur)
    {
      TableReturned(s, sp, i, cur);
      i := i + 1;
      fs, cur := TablesBelow(sp, i), AfterTables(s, sp, i);
    }
  }

  lemma TableReturned(s: Pmm, sp: Space, i: nat, s': Pmm)
    requires Holds(s, sp) && s.freeFrames + |Frames(sp)| < 0x1_0000_0000
    requires Returned(s, TablesBelow(sp, i), s')
    ensures Returned(s, TablesBelow(sp, i + 1), if i in sp.tables then Release(s', sp.tables[i]) else s')
  {
    if i in sp.tables { ReturnNext(s, sp, i, s'); }
  }

  lemma ReturnNone(s: Pmm)
    ensures Returned(s, {}, s)
  {
    assert s.free + {} == s.free;
  }

  lemma ReturnNext(s: Pmm, sp: Space, i: nat, s': Pmm)
    requires Holds(s, sp) && i in sp.tables && s.freeFrames + |Frames(sp)| < 0x1_0000_0000
    requires Returned(s, TablesBelow(sp, i), s')
    ensures Returned(s, TablesBelow(sp, i) + {sp.tables[i]}, Release(s', sp.tables[i]))
  {
    FreshBelow(s, sp, i);
    ReturnOne(s, TablesBelow(sp, i), s', sp.tables[i]);
  }

  /** The next table was not freed before, and the counter has room for it. */
  lemma FreshBelow(s: Pmm, sp: Space, i: nat)
    requires Holds(s, sp) && i in sp.tables
    ensures sp.tables[i] !in TablesBelow(sp, i) && sp.tables[i] !in s.free
    ensures |TablesBelow(sp, i)| + 1 <= |Frames(sp)|
  {
    var t := sp.tables[i];
    assert t in sp.tables.Values && t in Frames(sp);
    BelowMember(sp, i, t);
    forall x | x in TablesBelow(sp, i) ensures x in Frames(sp) {
      BelowMember(sp, i, x);
      assert x in sp.tables.Values;
    }
    SubsetSize(TablesBelow(sp, i) + {t}, Frames(sp));
  }

  lemma AllTables(sp: Space)
    requires WellFormed(sp)
    ensures TablesBelow(sp, ENTRIES) + {sp.dir} == Frames(sp) && sp.dir !in TablesBelow(sp, ENTRIES)
  {
    BelowMember(sp, ENTRIES, sp.dir);
    forall x: nat ensures x in TablesBelow(sp, ENTRIES) <==> x in sp.tables.Values {
      BelowMember(sp, ENTRIES, x);
    }
  }

  /** Destroying a space gives back exactly its frames, each once. */
  lemma DestroyReturns(s: Pmm, sp: Space)
    requires Holds(s, sp) && s.freeFrames + |Frames(sp)| < 0x1_0000_0000
    ensures Returned(s, Frames(sp), Destroyed(s, sp))
  {
    TablesReturned(s, sp, ENTRIES);
    AllTables(sp);
    ReturnOne(s, TablesBelow(sp, ENTRIES), AfterTables(s, sp, ENTRIES), sp.dir);
  }

  // ---- Cached translations ----

  /** Every cached translation is the current one. */
  ghost predicate Agrees(sp: Space, tlb: map<nat, Translation>)
    requires WellFormed(sp)
  {
    forall v :: v in tlb ==> Flat(sp, v) == Some(tlb[v])
  }

  /** What the `invlpg` of `mmu_map_page` leaves cached: it is reached only when the map succeeds. */
  function MapFlush(tlb: map<nat, Translation>, s: Pmm, sp: Space, phys: U32, virt: U32): map<nat, Translation> {
    if CanMap(s, sp, phys, virt) then tlb - {virt / 0x1000} else tlb
  }

  /** The same for `mmu_unmap_page`, which returns early when there is no table. */
  function UnmapFlush(tlb: map<nat, Translation>, sp: Space, virt: U32): map<nat, Translation> {
    if virt % 0x1000 == 0 && virt / 0x1000 / 0x400 in sp.tables then tlb - {virt / 0x1000} else tlb
  }

  lemma MapAgrees(s: Pmm, sp: Space, phys: U32, virt: U32, flags: U32, s': Pmm, sp': Space, r: U32,
                  tlb: map<nat, Translation>)
    requires Holds(s, sp) && Maps(s, sp, phys, virt, flags, s', sp', r) && Agrees(sp, tlb)
    ensures Holds(s', sp') && Agrees(sp', MapFlush(tlb, s, sp, phys, virt))
  {
    MapHolds(s, sp, phys, virt, flags, s', sp', r);
    var tlb' := MapFlush(tlb, s, sp, phys, virt);
    forall v | v in tlb' ensures Flat(sp', v) == Some(tlb'[v]) {
      MapFlat(s, sp, phys, virt, flags, s', sp', r, v);
    }
  }

  lemma MapGoesOn(s: Pmm, sp: Space, phys: U32, virt: U32, flags: U32, s': Pmm, sp': Space, r: U32,
                  tlb: map<nat, Translation>)
    requires Holds(s, sp) && Maps(s, sp, phys, virt, flags, s', sp', r)
    ensures sp'.dir == sp.dir && WellFormed(sp')
    ensures Agrees(sp, tlb) ==> Agrees(sp', MapFlush(tlb, s, sp, phys, virt))
  {
    var page := MapShape(s, sp, phys, virt, flags, s', sp', r);
    MapHolds(s, sp, phys, virt, flags, s', sp', r);
    if Agrees(sp, tlb) { MapAgrees(s, sp, phys, virt, flags, s', sp', r, tlb); }
  }

  lemma UnmapAgrees(s: Pmm, sp: Space, virt: U32, tlb: map<nat, Translation>)
    requires Holds(s, sp) && Agrees(sp, tlb)
    ensures WellFormed(Unmapped(sp, virt)) && Agrees(Unmapped(sp, virt), UnmapFlush(tlb, sp, virt))
  {
    var tlb' := UnmapFlush(tlb, sp, virt);
    UnmapFlat(s, sp, virt, 0);
    forall v | v in tlb' ensures Flat(Unmapped(sp, virt), v) == Some(tlb'[v]) {
      UnmapFlat(s, sp, virt, v);
    }
  }
}
