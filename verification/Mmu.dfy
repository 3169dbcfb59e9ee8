/** Two-level page tables in physical memory, on top of the frame allocator. Every load and store of
    the code goes through the page map once paging is on. */
module Mmu {
  import opened Words
  import opened FrameModel
  import opened FrameAllocator
  import opened Paging
  import opened SpaceModel
  import opened Reachability
  import opened KernelMemory

  /** The handle callers hold; there is one, statically allocated. */
  class PageTable {
    var pdPhys: U32
    constructor () { pdPhys := 0; }
  }

  class PagingUnit {
    const words: array2<U32>  // physical memory: frame, word
    const alloc: Allocator
    const storage: PageTable
    var cr3: U32              // physical address of the directory the processor walks from
    var paging: bool          // CR0.PG
    var tlb: map<nat, Translation>  // translations the processor has cached

    constructor (alloc: Allocator)
      requires alloc.Valid()
      ensures Valid() && this.alloc == alloc && fresh(words) && fresh(storage)
      ensures !paging && tlb == map[]
    {
      words := new U32[MAX_FRAMES, ENTRIES]((_, _) => 0);
      this.alloc := alloc;
      storage := new PageTable();
      cr3, paging, tlb := 0, false, map[];
    }

    /** `flush_tlb_single`: `invlpg` drops the cached translation of one page. */
    method FlushSingle(virt: U32)
      modifies `tlb
      ensures tlb == old(tlb) - {virt / 0x1000}
    {
      tlb := tlb - {virt / 0x1000};
    }

    /** `mmu_switch_address_space`: from now on the processor walks from this directory, and
        loading CR3 drops every cached translation. */
    method SwitchAddressSpace(pt: PageTable?)
      modifies `cr3, `tlb
      ensures cr3 == if pt == null then old(cr3) else pt.pdPhys
      ensures tlb == if pt == null then old(tlb) else map[]
    {
      if pt == null {
        return;
      }
      cr3 := pt.pdPhys;
      tlb := map[];
    }

    /** The processor may cache the walk of any page it translates, at any time. */
    method Fill(v: nat)
      requires Valid() && v < PAGES && Walk(cr3 / 0x1000, v).Some?
      modifies `tlb
      ensures tlb == old(tlb)[v := Walk(cr3 / 0x1000, v).value]
    {
      tlb := tlb[v := Walk(cr3 / 0x1000, v).value];
    }

    ghost predicate Valid() {
      words.Length0 == MAX_FRAMES && words.Length1 == ENTRIES && alloc.Valid()
    }

    /** The walk the processor does for virtual page `v` from the directory in frame `dir`. */
    function Walk(dir: nat, v: nat): Option<Translation>
      requires Valid() && dir < MAX_FRAMES && v < PAGES
      reads words
    {
      var pde := words[dir, v / 0x400];
      if Bit(pde, 0) then Translate(pde, words[pde / 0x1000, v % 0x400]) else None
    }

    /** The directory frame holds an entry for each table and zero elsewhere. */
    ghost predicate DirectoryIs(sp: Space)
      requires Valid() && WellFormed(sp)
      reads words
    {
      forall i {:trigger words[sp.dir, i]} :: 0 <= i < ENTRIES ==>
        words[sp.dir, i] == if i in sp.tables then TableEntry(sp.tables[i]) else 0
    }

    /** Entry `j` of table `i` is the one recorded for that page. */
    ghost predicate EntryIs(sp: Space, i: nat, j: nat)
      requires Valid() && WellFormed(sp) && i in sp.tables && j < ENTRIES
      reads words
    {
      words[sp.tables[i], j] == EntryOf(sp, i * 0x400 + j)
    }

    ghost predicate Shows(sp: Space)
      reads words, storage
    {
      && Valid() && WellFormed(sp)
      && storage.pdPhys == sp.dir * 0x1000
      && DirectoryIs(sp)
      && (forall i, j {:trigger EntryIs(sp, i, j)} :: i in sp.tables && 0 <= j < ENTRIES ==> EntryIs(sp, i, j))
    }

    /** The objects represent the state `k` of a run. */
    ghost predicate Represents(k: Kernel)
      reads `tlb, `cr3, `paging, words, storage, alloc, alloc.bitmap
    {
      && Valid() && alloc.initialized && alloc.Shows(k.pmm)
      && (k.space.Some? ==> Shows(k.space.value))
      && (k.handle.Some? ==> storage.pdPhys == k.handle.value * 0x1000)
      && (k.cr3.Some? ==> cr3 == k.cr3.value * 0x1000)
      && paging == k.paging && tlb == k.tlb
    }

    /** The two-level structure refines the flat map: the walk of every page is its flat lookup. */
    lemma WalkIsFlat(sp: Space, v: nat)
      requires Shows(sp) && v < PAGES
      ensures Walk(sp.dir, v) == Flat(sp, v)
    {
      BitOfZero(0);
      if v / 0x400 in sp.tables {
        assert EntryIs(sp, v / 0x400, v % 0x400);
        TableEntryBits(sp.tables[v / 0x400]);
      }
    }

    // ---- Loads and stores ----

    /** What the processor uses for page `v`: the cached translation, or a walk. */
    function Translated(v: nat): Option<Translation>
      requires Valid() && v < PAGES
      reads `tlb, `cr3, words
    {
      if v in tlb then Some(tlb[v]) else Walk(cr3 / 0x1000, v)
    }

    /** An access by the physical address of frame `f` goes to frame `f`. */
    ghost predicate Reached(f: nat)
      requires Valid()
      reads `tlb, `cr3, `paging, words
    {
      f < PAGES && (paging ==> Translated(f).Some? && Translated(f).value.frame == f)
    }

    /** ... and goes on doing so whatever is written into that frame: the translation is cached or its
        walk does not pass through the frame. */
    ghost predicate Steady(f: nat)
      requires Valid()
      reads `tlb, `cr3, `paging, words
    {
      && Reached(f)
      && (paging && f !in tlb ==> cr3 / 0x1000 != f && words[cr3 / 0x1000, f / 0x400] / 0x1000 != f)
    }

    /** A store to word `i` at the physical address of frame `f`; it faults where there is no
        translation. */
    method Store(f: nat, i: nat, w: U32)
      requires Valid() && f < MAX_FRAMES && i < ENTRIES
      requires paging ==> Translated(f).Some? && Translated(f).value.frame < MAX_FRAMES
      modifies words
      ensures var g := if old(paging) then old(Translated(f)).value.frame else f;
        && words[g, i] == w
        && forall h, k :: 0 <= h < MAX_FRAMES && 0 <= k < ENTRIES && (h != g || k != i) ==>
             words[h, k] == old(words[h, k])
    {
      var g := if paging then Translated(f).value.frame else f;
      words[g, i] := w;
    }

    method Load(f: nat, i: nat) returns (w: U32)
      requires Valid() && f < MAX_FRAMES && i < ENTRIES
      requires paging ==> Translated(f).Some? && Translated(f).value.frame < MAX_FRAMES
      ensures w == words[if paging then Translated(f).value.frame else f, i]
    {
      var g := if paging then Translated(f).value.frame else f;
      w := words[g, i];
    }

    /** The processor works in `sp`, and what it has cached is current. */
    ghost predicate Works(sp: Space)
      requires WellFormed(sp)
      reads `tlb, `cr3, `paging
    {
      paging ==> cr3 == sp.dir * 0x1000 && Agrees(sp, tlb)
    }

    /** Then it reaches the frames that are mapped to themselves. */
    lemma WorksReached(sp: Space, f: nat)
      requires Shows(sp) && Works(sp) && f < PAGES && (paging ==> Reaches(sp, f))
      ensures Reached(f)
    {
      WalkIsFlat(sp, f);
    }

    /** For a frame that is none of the space's own this is steady. */
    lemma WorksSteady(sp: Space, f: nat)
      requires Shows(sp) && Works(sp) && f < PAGES && (paging ==> Reaches(sp, f)) && f !in Frames(sp)
      ensures Steady(f)
    {
      WorksReached(sp, f);
      var i := f / 0x400;
      if paging && f !in tlb {
        TableEntryBits(sp.tables[i]);
        assert sp.tables[i] in sp.tables.Values;
      }
    }

    /** The loop that zeroes a fresh directory. */
    method ZeroFrame(f: nat)
      requires Valid() && f < MAX_FRAMES && Steady(f)
      modifies words
      ensures forall i :: 0 <= i < ENTRIES ==> words[f, i] == 0
      ensures forall g, i :: 0 <= g < MAX_FRAMES && g != f && 0 <= i < ENTRIES ==> words[g, i] == old(words[g, i])
    {
      var i := 0;
      while i < ENTRIES
        invariant 0 <= i <= ENTRIES && Steady(f)
        invariant forall k :: 0 <= k < i ==> words[f, k] == 0
        invariant forall g, k :: 0 <= g < MAX_FRAMES && g != f && 0 <= k < ENTRIES ==> words[g, k] == old(words[g, k])
      {
        Store(f, i, 0);
        i := i + 1;
      }
    }

    /** `mmu_create_address_space`. With paging on, the frame it will be given has to be reachable
        for as long as it is being cleared. */
    method CreateAddressSpace(ghost s: Pmm) returns (pt: PageTable?, ghost s': Pmm, ghost r: Option<Space>)
      requires Valid() && alloc.Shows(s)
      requires paging ==> forall f :: IsLowest(s.free, f) ==> Steady(f)
      modifies words, storage, alloc`freeFrames, alloc.bitmap
      ensures alloc.Shows(s')
      ensures if alloc.initialized then Creates(s, s', r) else s' == s && r.None?
      ensures r.Some? ==> pt == storage && Shows(r.value)
      ensures r.None? ==> pt == null && storage.pdPhys == old(storage.pdPhys)
    {
      var page;
      page, s' := alloc.AllocPage(s);
      r := Created(page);
      if page == 0 {
        return null, s', r;
      }
      ZeroFrame(page / 0x1000);
      storage.pdPhys := page;
      pt := storage;
    }

    /** A word of a frame that is none of the address space's own, such as a stack or a page of a
        caller, is written: no translation changes. */
    method WriteWord(f: nat, i: nat, w: U32, ghost space: Option<Space>)
      requires Valid() && f < MAX_FRAMES && i < ENTRIES && Steady(f)
      requires space.Some? ==> Shows(space.value) && f !in Frames(space.value)
      modifies words
      ensures (space.Some? ==> Shows(space.value)) && Steady(f)
      ensures words[f, i] == w
      ensures forall g, k :: 0 <= g < MAX_FRAMES && 0 <= k < ENTRIES && (g != f || k != i) ==>
        words[g, k] == old(words[g, k])
    {
      Store(f, i, w);
      if space.Some? {
        ghost var sp := space.value;
        forall a, b | a in sp.tables && 0 <= b < ENTRIES ensures EntryIs(sp, a, b) {
          assert old(EntryIs(sp, a, b)) && sp.tables[a] in sp.tables.Values;
        }
      }
    }

    /** One word of an existing table is written: exactly that page's entry changes. */
    method SetEntry(i: nat, j: nat, t: nat, w: U32, ghost sp: Space, ghost sp': Space)
      requires Shows(sp) && i in sp.tables && sp.tables[i] == t && j < ENTRIES && Reached(t)
      requires sp' == sp.(ptes := sp'.ptes) && WellFormed(sp')
      requires forall v: nat :: EntryOf(sp', v) == if v == i * 0x400 + j then w else EntryOf(sp, v)
      modifies words
      ensures Shows(sp')
    {
      Store(t, j, w);
      forall a, b | a in sp.tables && 0 <= b < ENTRIES ensures EntryIs(sp', a, b) {
        assert old(EntryIs(sp, a, b));
      }
    }

    /** Installs the entry of a page whose table exists. */
    method WriteEntry(phys: U32, virt: U32, flags: U32, ghost sp: Space)
      requires Shows(sp) && phys % 0x1000 == 0 && virt / 0x1000 / 0x400 in sp.tables
      requires Reached(sp.dir) && Reached(sp.tables[virt / 0x1000 / 0x400])
      modifies words
      ensures Shows(Mapped(sp, phys, virt, flags, sp.tables[virt / 0x1000 / 0x400]))
    {
      IndexValues(virt);
      var d, i, j := storage.pdPhys / 0x1000, PdIndex(virt), PtIndex(virt);
      var t := TableFrame(d, i, sp);
      MappedExisting(sp, phys, virt, flags);
      SetEntry(i, j, t, PageEntry(phys, flags), sp, Mapped(sp, phys, virt, flags, t));
    }

    /** `PAGE_FRAME` of a present directory entry is the table's frame. */
    method TableFrame(d: nat, i: nat, ghost sp: Space) returns (t: nat)
      requires Shows(sp) && d == sp.dir && i in sp.tables && Reached(d)
      ensures t == sp.tables[i]
    {
      TableEntryBits(sp.tables[i]);
      var pde := Load(d, i);
      t := PageFrame(pde) / 0x1000;
    }

    /** Zeroes a fresh frame and installs it as table `i`. */
    method AddTable(i: nat, page: U32, ghost sp: Space)
      requires Shows(sp) && i < ENTRIES && i !in sp.tables && Works(sp)
      requires page % 0x1000 == 0 && page / 0x1000 !in Frames(sp)
      requires paging ==> Reaches(sp, sp.dir) && Reaches(sp, page / 0x1000)
      modifies words
      ensures Shows(sp.(tables := sp.tables[i := page / 0x1000]))
    {
      var d, f := storage.pdPhys / 0x1000, page / 0x1000;
      WorksSteady(sp, f);
      ZeroTable(f, sp);
      WorksReached(sp, d);
      Install(d, i, f, sp);
    }

    method ZeroTable(f: nat, ghost sp: Space)
      requires Shows(sp) && f < MAX_FRAMES && f !in Frames(sp) && Steady(f)
      modifies words
      ensures Shows(sp) && forall i :: 0 <= i < ENTRIES ==> words[f, i] == 0
    {
      ZeroFrame(f);
      forall a, b | a in sp.tables && 0 <= b < ENTRIES ensures EntryIs(sp, a, b) {
        assert old(EntryIs(sp, a, b)) && sp.tables[a] in sp.tables.Values;
      }
    }

    method Install(d: nat, i: nat, f: nat, ghost sp: Space)
      requires Shows(sp) && d == sp.dir && i < ENTRIES && i !in sp.tables && f < MAX_FRAMES && f !in Frames(sp)
      requires Reached(d) && forall j :: 0 <= j < ENTRIES ==> words[f, j] == 0
      modifies words
      ensures Shows(sp.(tables := sp.tables[i := f]))
    {
      Store(d, i, TableEntry(f));
      ghost var sp' := sp.(tables := sp.tables[i := f]);
      FreshTable(sp, i, f);
      forall a, b | a in sp'.tables && 0 <= b < ENTRIES ensures EntryIs(sp', a, b) {
        if a == i { assert (a * 0x400 + b) / 0x400 == i; } else { assert old(EntryIs(sp, a, b)); }
      }
    }

    /** The first half of `mmu_map_page`: the table of directory index `i` exists, or is
        allocated now, or cannot be. Whatever comes, no translation changes. */
    method EnsureTable(i: nat, ghost s: Pmm, ghost sp: Space)
      returns (page: U32, ok: bool, ghost s': Pmm, ghost sp': Space)
      requires alloc.Shows(s) && alloc.initialized && Shows(sp) && Holds(s, sp) && i < ENTRIES && Works(sp)
      requires paging ==> Reaches(sp, sp.dir)
      requires paging ==> i in sp.tables || forall t :: IsLowest(s.free, t) ==> Reaches(sp, t)
      modifies words, alloc`freeFrames, alloc.bitmap
      ensures alloc.Shows(s') && Shows(sp') && forall v :: Flat(sp', v) == Flat(sp, v)
      ensures if i in sp.tables then ok && s' == s && sp' == sp
              else Allocates(s, page, s') && ok == (page != 0)
                   && sp' == if ok then sp.(tables := sp.tables[i := page / 0x1000]) else sp
    {
      page, ok, s', sp' := 0, true, s, sp;
      PresentBit(sp, i);
      WorksReached(sp, sp.dir);
      var pde := Load(storage.pdPhys / 0x1000, i);
      if And(pde, 1) == 0 {
        page, s' := alloc.AllocPage(s);
        ok := page != 0;
        if ok {
          AddTable(i, page, sp);
          FreshTableFlat(sp, i, page / 0x1000);
          sp' := sp.(tables := sp.tables[i := page / 0x1000]);
        }
      }
    }

    /** `mmu_map_page` past its alignment checks. */
    method MapAligned(phys: U32, virt: U32, flags: U32, ghost s: Pmm, ghost sp: Space)
      returns (r: U32, ghost s': Pmm, ghost sp': Space)
      requires alloc.Shows(s) && alloc.initialized && Shows(sp) && Holds(s, sp) && Works(sp)
      requires phys % 0x1000 == 0 && virt % 0x1000 == 0 && (paging ==> MapReached(s, sp, virt))
      modifies words, `tlb, alloc`freeFrames, alloc.bitmap
      ensures alloc.Shows(s') && Shows(sp') && Maps(s, sp, phys, virt, flags, s', sp', r)
      ensures tlb == MapFlush(old(tlb), s, sp, phys, virt)
    {
      IndexValues(virt);
      var page, ok;
      page, ok, s', sp' := EnsureTable(PdIndex(virt), s, sp);
      if !ok {
        MapWithoutTable(s, sp, phys, virt, flags, s');
        return 0, s', sp';
      }
      MapInHalves(s, sp, phys, virt, flags, page, s', sp');
      EntryIsReached(s, sp, virt, page, sp');
      WriteEntry(phys, virt, flags, sp');
      sp' := Mapped(sp', phys, virt, flags, sp'.tables[virt / 0x1000 / 0x400]);
      FlushSingle(virt);
      r := virt;
    }

    /** Once the table is there, directory and table are still reached. */
    lemma EntryIsReached(s: Pmm, sp: Space, virt: U32, page: U32, sp1: Space)
      requires WellFormed(sp) && Works(sp) && (paging ==> MapReached(s, sp, virt))
      requires Shows(sp1) && sp1.dir == sp.dir && virt / 0x1000 / 0x400 in sp1.tables
      requires forall v :: Flat(sp1, v) == Flat(sp, v)
      requires var i := virt / 0x1000 / 0x400;
        if i in sp.tables then sp1 == sp else IsLowest(s.free, sp1.tables[i])
      ensures Reached(sp1.dir) && Reached(sp1.tables[virt / 0x1000 / 0x400])
    {
      WorksReached(sp1, sp1.dir);
      WorksReached(sp1, sp1.tables[virt / 0x1000 / 0x400]);
    }

    /** `mmu_map_page`: with paging on, its loads and stores go through the address space itself, so
        what it touches has to be mapped to itself. */
    method MapPage(pt: PageTable?, phys: U32, virt: U32, flags: U32, ghost s: Pmm, ghost sp: Space)
      returns (r: U32, ghost s': Pmm, ghost sp': Space)
      requires alloc.Shows(s)
      requires pt != null ==> pt == storage && alloc.initialized && Shows(sp) && Holds(s, sp) && Works(sp)
      requires pt != null && paging && phys % 0x1000 == 0 && virt % 0x1000 == 0 ==> MapReached(s, sp, virt)
      modifies words, `tlb, alloc`freeFrames, alloc.bitmap
      ensures alloc.Shows(s')
      ensures pt == null ==> r == 0 && s' == s && sp' == sp && tlb == old(tlb)
      ensures pt != null ==> Shows(sp') && Works(sp') && Maps(s, sp, phys, virt, flags, s', sp', r)
      ensures pt != null ==> tlb == MapFlush(old(tlb), s, sp, phys, virt)
    {
      r, s', sp' := 0, s, sp;
      if pt == null {
        return;
      }
      AlignedValue(phys);
      AlignedValue(virt);
      if !Aligned(phys) || !Aligned(virt) {
        return;
      }
      r, s', sp' := MapWorking(phys, virt, flags, s, sp);
    }

    /** The processor goes on working in the address space, with a current cache. */
    method MapWorking(phys: U32, virt: U32, flags: U32, ghost s: Pmm, ghost sp: Space)
      returns (r: U32, ghost s': Pmm, ghost sp': Space)
      requires alloc.Shows(s) && alloc.initialized && Shows(sp) && Holds(s, sp) && Works(sp)
      requires phys % 0x1000 == 0 && virt % 0x1000 == 0 && (paging ==> MapReached(s, sp, virt))
      modifies words, `tlb, alloc`freeFrames, alloc.bitmap
      ensures alloc.Shows(s') && Shows(sp') && Works(sp') && Maps(s, sp, phys, virt, flags, s', sp', r)
      ensures tlb == MapFlush(old(tlb), s, sp, phys, virt)
    {
      r, s', sp' := MapAligned(phys, virt, flags, s, sp);
      MapGoesOn(s, sp, phys, virt, flags, s', sp', r, old(tlb));
    }

    /** The present test of the code tells whether the table exists. */
    lemma PresentBit(sp: Space, i: nat)
      requires Shows(sp) && i < ENTRIES
      ensures And(words[sp.dir, i], 1) != 0 <==> i in sp.tables
    {
      if i in sp.tables { TableEntryBits(sp.tables[i]); }
    }

    /** `mmu_unmap_page`. */
    method UnmapPage(pt: PageTable?, virt: U32, ghost s: Pmm, ghost sp: Space)
      requires pt != null ==> pt == storage && Shows(sp) && Holds(s, sp) && Works(sp)
      requires pt != null && paging && virt % 0x1000 == 0 ==> EntryReached(sp, virt)
      modifies words, `tlb
      ensures pt != null ==> Shows(Unmapped(sp, virt)) && Works(Unmapped(sp, virt))
      ensures tlb == if pt != null then UnmapFlush(old(tlb), sp, virt) else old(tlb)
      ensures pt == null ==> forall f, i :: 0 <= f < words.Length0 && 0 <= i < words.Length1 ==>
        words[f, i] == old(words[f, i])
    {
      if pt == null {
        return;
      }
      AlignedValue(virt);
      if !Aligned(virt) {
        return;
      }
      ClearPage(virt, sp);
      if paging { UnmapAgrees(s, sp, virt, old(tlb)); }
    }

    /** `mmu_unmap_page` past its alignment check. */
    method ClearPage(virt: U32, ghost sp: Space)
      requires Shows(sp) && Works(sp) && virt % 0x1000 == 0 && (paging ==> EntryReached(sp, virt))
      modifies words, `tlb
      ensures Shows(Unmapped(sp, virt)) && tlb == UnmapFlush(old(tlb), sp, virt)
    {
      IndexValues(virt);
      var d, i, j := storage.pdPhys / 0x1000, PdIndex(virt), PtIndex(virt);
      PresentBit(sp, i);
      WorksReached(sp, sp.dir);
      var pde := Load(d, i);
      if And(pde, 1) == 0 {
        assert Unmapped(sp, virt).ptes == sp.ptes;
        return;
      }
      WorksReached(sp, sp.tables[i]);
      ClearEntry(d, i, j, virt, sp);
      FlushSingle(virt);
    }

    /** Zeroes the entry of a page whose table exists. */
    method ClearEntry(d: nat, i: nat, j: nat, virt: U32, ghost sp: Space)
      requires Shows(sp) && d == sp.dir && i in sp.tables && j < ENTRIES && Reached(d) && Reached(sp.tables[i])
      requires virt % 0x1000 == 0 && virt / 0x1000 == i * 0x400 + j
      modifies words
      ensures Shows(Unmapped(sp, virt))
    {
      var t := TableFrame(d, i, sp);
      SetEntry(i, j, t, 0, sp, Unmapped(sp, virt));
    }

    /** `mmu_destroy_address_space`: frees every present table, then the directory, which it has to
        reach. */
    method DestroyAddressSpace(pt: PageTable?, ghost s: Pmm, ghost sp: Space)
      requires alloc.Shows(s)
      requires pt != null ==> pt == storage && Shows(sp) && Reached(sp.dir)
      modifies alloc`freeFrames, alloc.bitmap
      ensures alloc.Shows(if pt == null then s else Destroyed(s, sp))
    {
      if pt == null {
        return;
      }
      var d := pt.pdPhys / 0x1000;
      var i := 0;
      while i < ENTRIES
        invariant 0 <= i <= ENTRIES && Shows(sp) && Reached(sp.dir)
        invariant alloc.Shows(AfterTables(s, sp, i))
      {
        PresentBit(sp, i);
        var pde := Load(d, i);
        if And(pde, 1) != 0 {
          TableEntryBits(sp.tables[i]);
          alloc.FreePage(PageFrame(pde), AfterTables(s, sp, i));
        }
        i := i + 1;
        ghost var shown, reached := Shows(sp), Reached(sp.dir);
        assert shown && reached;
      }
      alloc.FreePage(pt.pdPhys, AfterTables(s, sp, ENTRIES));
    }
  }
}
