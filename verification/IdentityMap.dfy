/** The identity map that `mmu_init` builds for the kernel, and what can be reached through it. */
module IdentityMap {
  import opened Words
  import opened FrameModel
  import opened Paging
  import opened SpaceModel
  import opened Reachability
  import opened KernelMemory
  import opened Mmu

  const KERNEL_PAGES: nat := 0x1000      // 16 MB
  const KERNEL_FLAGS: U32 := 3           // present, writable

  /** How many allocations can succeed: there have to be a clear bit and a count. */
  ghost function Available(s: Pmm): nat { Least(|s.free|, s.freeFrames) }

  /** Exactly the pages 1 .. hi - 1 are mapped, each to itself, supervisor and writable. */
  ghost predicate IdentityTo(sp: Space, hi: nat) {
    && WellFormed(sp)
    && forall v :: 0 <= v < PAGES ==>
         Flat(sp, v) == if 1 <= v < hi then Some(Translation(v, true, false, false)) else None
  }

  /** Tables needed for the pages 1 .. hi - 1. */
  function TablesFor(hi: nat): nat { if hi <= 1 then 0 else (hi - 1) / 0x400 + 1 }

  /** Where the loop stops when `n` frames can be had for tables. */
  function PrefixEnd(n: nat): nat {
    if n == 0 then 1 else if n < 4 then n * 0x400 else KERNEL_PAGES
  }

  /** From `s0` to `s` the space took the lowest free frames, the directory first. */
  ghost predicate TookLowest(s0: Pmm, s: Pmm, sp: Space) {
    && Frames(sp) + s.free == s0.free && IsLowest(s0.free, sp.dir)
    && forall f, g :: f in Frames(sp) && g in s.free ==> f < g
  }

  /** The state when the loop has mapped the pages below `v`; before the directory was allocated the
      allocator was in state `s0`, and after it `n` frames could be had. */
  ghost predicate Progress(s0: Pmm, s: Pmm, sp: Space, v: nat, n: nat) {
    && 1 <= v <= KERNEL_PAGES
    && Holds(s, sp) && TookLowest(s0, s, sp)
    && (forall i :: i in sp.tables <==> 0 <= i < TablesFor(v))
    && Available(s) + TablesFor(v) == n && |Frames(sp)| == 1 + TablesFor(v)
    && IdentityTo(sp, v)
  }

  /** Page `v` needs a new table exactly at the first page and at 4 MB boundaries. */
  lemma TablesForNext(v: nat)
    requires 1 <= v < KERNEL_PAGES
    ensures v / 0x400 <= TablesFor(v)
    ensures TablesFor(v + 1) == TablesFor(v) + if v / 0x400 < TablesFor(v) then 0 else 1
    ensures v / 0x400 == TablesFor(v) ==> v == PrefixEnd(TablesFor(v))
  {
  }

  /** One turn of the loop: the page is mapped, or no frame can be had for its table. */
  lemma IdentityStep(s0: Pmm, s: Pmm, sp: Space, virt: U32, v: nat, n: nat, s': Pmm, sp': Space, r: U32)
    requires virt % 0x1000 == 0 && virt / 0x1000 == v < KERNEL_PAGES && Progress(s0, s, sp, v, n)
    requires Maps(s, sp, virt, virt, KERNEL_FLAGS, s', sp', r)
    ensures Progress(s0, s', sp', if r == 0 then PrefixEnd(n) else v + 1, n)
    ensures r == 0 ==> v == PrefixEnd(n) && s' == s && sp' == sp
  {
    MapFlat(s, sp, virt, virt, KERNEL_FLAGS, s', sp', r, 0);
    TablesForNext(v);
    if CanMap(s, sp, virt, virt) {
      assert r == virt && r != 0;
      PageMapped(s0, s, sp, virt, v, n, s', sp', r);
    } else {
      Exhausted(s0, s, sp, v, n);
    }
  }

  /** No table for page `v` and none to be had: this is where the prefix ends. */
  lemma Exhausted(s0: Pmm, s: Pmm, sp: Space, v: nat, n: nat)
    requires v < KERNEL_PAGES && Progress(s0, s, sp, v, n) && v / 0x400 !in sp.tables && Available(s) == 0
    ensures v == PrefixEnd(n)
  {
    TablesForNext(v);
    assert v / 0x400 in sp.tables <==> v / 0x400 < TablesFor(v);
  }

  lemma PageMapped(s0: Pmm, s: Pmm, sp: Space, virt: U32, v: nat, n: nat, s': Pmm, sp': Space, r: U32)
    requires virt % 0x1000 == 0 && virt / 0x1000 == v < KERNEL_PAGES && Progress(s0, s, sp, v, n)
    requires Maps(s, sp, virt, virt, KERNEL_FLAGS, s', sp', r) && CanMap(s, sp, virt, virt) && Holds(s', sp')
    ensures Progress(s0, s', sp', v + 1, n)
  {
    TablesForNext(v);
    IdentityGrows(s, sp, virt, s', sp', r);
    FramesShrink(s, sp, virt, s', sp', r);
    TablesGrow(sp, sp', v);
    TakesLowest(s0, s, sp, virt, s', sp', r);
  }

  lemma FramesShrink(s: Pmm, sp: Space, virt: U32, s': Pmm, sp': Space, r: U32)
    requires Holds(s, sp) && CanMap(s, sp, virt, virt)
    requires Maps(s, sp, virt, virt, KERNEL_FLAGS, s', sp', r)
    ensures sp'.tables.Keys == sp.tables.Keys + {virt / 0x1000 / 0x400}
    ensures Available(s') == Available(s) - if virt / 0x1000 / 0x400 in sp.tables then 0 else 1
  {
    MapCost(s, sp, virt, virt, KERNEL_FLAGS, s', sp', r);
  }

  lemma TakesLowest(s0: Pmm, s: Pmm, sp: Space, virt: U32, s': Pmm, sp': Space, r: U32)
    requires Holds(s, sp) && CanMap(s, sp, virt, virt) && TookLowest(s0, s, sp)
    requires Maps(s, sp, virt, virt, KERNEL_FLAGS, s', sp', r)
    ensures TookLowest(s0, s', sp')
    ensures |Frames(sp')| == |Frames(sp)| + if virt / 0x1000 / 0x400 in sp.tables then 0 else 1
  {
    var i := virt / 0x1000 / 0x400;
    MapAddsTable(s, sp, virt, virt, KERNEL_FLAGS, s', sp', r);
    var page := MapShape(s, sp, virt, virt, KERNEL_FLAGS, s', sp', r);
    var t := sp'.tables[i];
    if i in sp.tables {
      assert t in sp.tables.Values;
      assert Frames(sp') == Frames(sp);
    } else {
      OneMoreLowest(s0, s, sp, t, s', sp');
    }
  }

  lemma OneMoreLowest(s0: Pmm, s: Pmm, sp: Space, t: nat, s': Pmm, sp': Space)
    requires TookLowest(s0, s, sp) && Frames(sp) !! s.free && IsLowest(s.free, t)
    requires Frames(sp') == Frames(sp) + {t} && s'.free == s.free - {t} && sp'.dir == sp.dir
    ensures TookLowest(s0, s', sp') && |Frames(sp')| == |Frames(sp)| + 1
  {
    assert Frames(sp') + s'.free == Frames(sp) + s.free;
  }

  lemma TablesGrow(sp: Space, sp': Space, v: nat)
    requires 1 <= v < KERNEL_PAGES && sp'.tables.Keys == sp.tables.Keys + {v / 0x400}
    requires forall i :: i in sp.tables <==> 0 <= i < TablesFor(v)
    ensures forall i :: i in sp'.tables <==> 0 <= i < TablesFor(v + 1)
  {
    TablesForNext(v);
    forall i: nat ensures i in sp'.tables <==> i in sp.tables || i == v / 0x400 {
      assert i in sp'.tables.Keys <==> i in sp.tables.Keys + {v / 0x400};
    }
  }

  lemma IdentityGrows(s: Pmm, sp: Space, virt: U32, s': Pmm, sp': Space, r: U32)
    requires Holds(s, sp) && 1 <= virt / 0x1000 < KERNEL_PAGES
    requires IdentityTo(sp, virt / 0x1000) && CanMap(s, sp, virt, virt)
    requires Maps(s, sp, virt, virt, KERNEL_FLAGS, s', sp', r)
    ensures IdentityTo(sp', virt / 0x1000 + 1)
  {
    MapFlat(s, sp, virt, virt, KERNEL_FLAGS, s', sp', r, 0);
    SupervisorWritable(virt);
    forall w | 0 <= w < PAGES
      ensures Flat(sp', w) == if 1 <= w < virt / 0x1000 + 1 then Some(Translation(w, true, false, false)) else None
    {
      MapFlat(s, sp, virt, virt, KERNEL_FLAGS, s', sp', r, w);
    }
  }

  // ---- The code, as a run ----

  /** The run `h` from `k0` is building the kernel's map: pages below `v` are done, paging is off. */
  ghost predicate Building(k0: Kernel, h: History, k: Kernel, v: nat, n: nat) {
    h.From(k0) && h.Last() == k && BuildingState(k0, k, v, n)
  }

  ghost predicate BuildingState(k0: Kernel, k: Kernel, v: nat, n: nat) {
    && k.space.Some? && k.handle == Some(k.space.value.dir) && !k.paging && k.cr3 == k0.cr3
    && k.threads == k0.threads && k.held == k0.held
    && Progress(k0.pmm, k.pmm, k.space.value, v, n)
  }

  method MapOne(mmu: PagingUnit, pt: PageTable, virt: U32, ghost k0: Kernel, ghost h: History, ghost k: Kernel,
                ghost v: nat, ghost n: nat)
    returns (r: U32, ghost h': History, ghost k': Kernel)
    requires v < KERNEL_PAGES && virt == v * 0x1000 && Building(k0, h, k, v, n)
    requires mmu.Represents(k) && pt == mmu.storage
    modifies mmu.words, mmu`tlb, mmu.alloc`freeFrames, mmu.alloc.bitmap
    ensures Building(k0, h', k', if r == 0 then PrefixEnd(n) else v + 1, n)
    ensures mmu.Represents(k')
  {
    r, k' := MapEvent(mmu, pt, virt, k);
    h' := BuildingStep(k0, h, k, virt, v, n, r, k');
  }

  method MapEvent(mmu: PagingUnit, pt: PageTable, virt: U32, ghost k: Kernel) returns (r: U32, ghost k': Kernel)
    requires mmu.Represents(k) && pt == mmu.storage && k.space.Some? && Holds(k.pmm, k.space.value) && !k.paging
    modifies mmu.words, mmu`tlb, mmu.alloc`freeFrames, mmu.alloc.bitmap
    ensures mmu.Represents(k') && KStep(k, KEvent.MapPage(virt, virt, KERNEL_FLAGS, r), k')
  {
    ghost var s', sp';
    r, s', sp' := mmu.MapPage(pt, virt, virt, KERNEL_FLAGS, k.pmm, k.space.value);
    MapKeepsDir(k.pmm, k.space.value, virt, virt, KERNEL_FLAGS, s', sp', r);
    k' := k.(pmm := s', space := Some(sp'), tlb := mmu.tlb);
  }

  lemma MapKeepsDir(s: Pmm, sp: Space, phys: U32, virt: U32, flags: U32, s': Pmm, sp': Space, r: U32)
    requires Holds(s, sp) && Maps(s, sp, phys, virt, flags, s', sp', r)
    ensures sp'.dir == sp.dir
  {
    var page := MapShape(s, sp, phys, virt, flags, s', sp', r);
  }

  lemma PageNumber(virt: U32, v: nat)
    requires virt == v * 0x1000
    ensures virt % 0x1000 == 0 && virt / 0x1000 == v
  {
  }

  lemma BuildingStep(k0: Kernel, h: History, k: Kernel, virt: U32, v: nat, n: nat, r: U32, k': Kernel)
    returns (h': History)
    requires v < KERNEL_PAGES && virt == v * 0x1000 && Building(k0, h, k, v, n)
    requires KStep(k, KEvent.MapPage(virt, virt, KERNEL_FLAGS, r), k')
    ensures Building(k0, h', k', if r == 0 then PrefixEnd(n) else v + 1, n)
  {
    PageNumber(virt, v);
    MapKeepsDir(k.pmm, k.space.value, virt, virt, KERNEL_FLAGS, k'.pmm, k'.space.value, r);
    IdentityStep(k0.pmm, k.pmm, k.space.value, virt, v, n, k'.pmm, k'.space.value, r);
    h' := Extend(k0, h, KEvent.MapPage(virt, virt, KERNEL_FLAGS, r), k');
  }

  /** The identity-map loop: it stops at 16 MB, or where no frame could be had for a table. */
  method MapKernel(mmu: PagingUnit, pt: PageTable, ghost k0: Kernel, ghost h: History, ghost k: Kernel, ghost n: nat)
    returns (ghost h': History, ghost k': Kernel)
    requires Building(k0, h, k, 1, n) && mmu.Represents(k) && pt == mmu.storage
    modifies mmu.words, mmu`tlb, mmu.alloc`freeFrames, mmu.alloc.bitmap
    ensures Building(k0, h', k', PrefixEnd(n), n) && mmu.Represents(k')
  {
    ghost var v;
    h', k', v := MapLoop(mmu, pt, k0, h, k, n);
    if v == KERNEL_PAGES { AllMapped(k0, h', k', v, n); }
  }

  method MapLoop(mmu: PagingUnit, pt: PageTable, ghost k0: Kernel, ghost h: History, ghost k: Kernel, ghost n: nat)
    returns (ghost h': History, ghost k': Kernel, ghost v: nat)
    requires Building(k0, h, k, 1, n) && mmu.Represents(k) && pt == mmu.storage
    modifies mmu.words, mmu`tlb, mmu.alloc`freeFrames, mmu.alloc.bitmap
    ensures Building(k0, h', k', v, n)
    ensures mmu.Represents(k')
    ensures v == KERNEL_PAGES || v == PrefixEnd(n)
  {
    h', k', v := h, k, 1;
    var virt: U32 := 0x1000;
    while virt < 0x100_0000
      invariant virt == v * 0x1000 && v <= KERNEL_PAGES
      invariant Building(k0, h', k', v, n)
      invariant mmu.Represents(k')
      decreases KERNEL_PAGES - v
    {
      var r;
      r, h', k' := MapOne(mmu, pt, virt, k0, h', k', v, n);
      if r == 0 {
        v := PrefixEnd(n);
        return;
      }
      virt, v := virt + 0x1000, v + 1;
    }
  }

  lemma AllMapped(k0: Kernel, h: History, k: Kernel, v: nat, n: nat)
    requires Building(k0, h, k, v, n) && v == KERNEL_PAGES
    ensures Building(k0, h, k, PrefixEnd(n), n)
  {
    assert TablesFor(KERNEL_PAGES) == 4;
  }

  lemma EmptyProgress(s: Pmm, s': Pmm, r: Option<Space>)
    requires InRange(s.free) && Creates(s, s', r)
    ensures r.Some? <==> Available(s) != 0
    ensures r.Some? ==> s'.freeFrames == s.freeFrames - 1
    ensures r.Some? ==> Available(s') == Available(s) - 1 && Progress(s, s', r.value, 1, Available(s) - 1)
  {
    var page: U32 :| Allocates(s, page, s') && r == Created(page);
    if page != 0 {
      var sp := r.value;
      CreateHolds(s, page, s');
      forall v | 0 <= v < PAGES ensures Flat(sp, v) == None { CreatedFlat(page, v); }
      OnlyDirectory(sp);
      FirstLowest(s, sp, s');
    }
  }

  lemma FirstLowest(s: Pmm, sp: Space, s': Pmm)
    requires IsLowest(s.free, sp.dir) && s'.free == s.free - {sp.dir} && Frames(sp) == {sp.dir}
    ensures TookLowest(s, s', sp)
  {
    assert Frames(sp) + s'.free == s.free;
    forall f, g | f in Frames(sp) && g in s'.free ensures f < g { assert f == sp.dir && g in s.free; }
  }

  lemma OnlyDirectory(sp: Space)
    requires sp.tables == map[]
    ensures Frames(sp) == {sp.dir} && |Frames(sp)| == 1
  {
    assert sp.tables.Values == {};
    assert Frames(sp) == {sp.dir};
  }

  /** The create, as the first event. */
  lemma CreateEvent(k0: Kernel, s': Pmm, r: Option<Space>) returns (h: History)
    requires k0.space.None? && !k0.paging && InRange(k0.pmm.free) && Creates(k0.pmm, s', r)
    ensures h.From(k0)
    ensures h.Last() == k0.(pmm := s', space := r, handle := if r.Some? then Some(r.value.dir) else k0.handle)
    ensures r.Some? <==> Available(k0.pmm) != 0
    ensures r.Some? ==> Building(k0, h, h.Last(), 1, Available(k0.pmm) - 1)
    ensures r.Some? ==> h.Last().pmm.freeFrames == k0.pmm.freeFrames - 1
  {
    EmptyProgress(k0.pmm, s', r);
    h := Extend(k0, History([k0], []), CreateSpace,
                k0.(pmm := s', space := r, handle := if r.Some? then Some(r.value.dir) else k0.handle));
  }

  /** What `mmu_init` makes of a state without an address space: with `n` frames to be had after the
      directory, the walk of exactly the pages below `PrefixEnd(n)`, without the null page, yields the
      page itself, and the processor walks from the new directory exactly if the counter left a frame
      for tables. */
  ghost predicate Initialised(k0: Kernel, k: Kernel) {
    && Available(k0.pmm) > 0 && k.space.Some? && k.threads == k0.threads && k.held == k0.held
    && Progress(k0.pmm, k.pmm, k.space.value, PrefixEnd(Available(k0.pmm) - 1), Available(k0.pmm) - 1)
    && (if k0.pmm.freeFrames > 1 then k.paging && Loaded(k) && k.tlb == map[] else !k.paging && k.cr3 == k0.cr3)
  }

  /** The same with everything written out: pages from 0x1000 up to 4 MB for each table that could be
      had, at most 16 MB, are mapped to themselves, writable, not for user mode, cached; page 0 and
      every page from there on are not mapped. */
  lemma IdentityWritten(k0: Kernel, k: Kernel, v: nat)
    requires Initialised(k0, k) && v < 0x10_0000
    ensures var n := Least(|k0.pmm.free|, k0.pmm.freeFrames) - 1;
      Flat(k.space.value, v) ==
        if 0x1000 <= v * 0x1000 < Least(n * 0x40_0000, 0x100_0000) then Some(Translation(v, true, false, false))
        else None
  {
    var n := Available(k0.pmm) - 1;
    PrefixBytes(n, v);
  }

  lemma PrefixBytes(n: nat, v: nat)
    ensures 1 <= v < PrefixEnd(n) <==> 0x1000 <= v * 0x1000 < Least(n * 0x40_0000, 0x100_0000)
  {
  }

  /** `mmu_init`, as a run. */
  method MmuInit(mmu: PagingUnit, ghost k0: Kernel) returns (pt: PageTable?, ghost h: History)
    requires mmu.Represents(k0) && k0.space.None? && !k0.paging && InRange(k0.pmm.free)
    modifies mmu.words, mmu`tlb, mmu`cr3, mmu`paging, mmu.storage, mmu.alloc`freeFrames, mmu.alloc.bitmap
    ensures h.From(k0) && mmu.Represents(h.Last())
    ensures pt == null <==> Available(k0.pmm) == 0
    ensures if pt == null then h.Last() == k0 else pt == mmu.storage && Initialised(k0, h.Last())
  {
    ghost var s', r;
    pt, s', r := mmu.CreateAddressSpace(k0.pmm);
    h := CreateEvent(k0, s', r);
    if pt == null {
      return;
    }
    h := MapAndLoad(mmu, pt, k0, h, h.Last(), Available(k0.pmm) - 1);
  }

  method MapAndLoad(mmu: PagingUnit, pt: PageTable, ghost k0: Kernel, ghost h: History, ghost k: Kernel, ghost n: nat)
    returns (ghost h': History)
    requires Building(k0, h, k, 1, n) && mmu.Represents(k) && pt == mmu.storage
    requires Available(k0.pmm) == n + 1 && k.pmm.freeFrames == k0.pmm.freeFrames - 1
    modifies mmu.words, mmu`tlb, mmu`cr3, mmu`paging, mmu.alloc`freeFrames, mmu.alloc.bitmap
    ensures h'.From(k0) && mmu.Represents(h'.Last()) && Initialised(k0, h'.Last())
  {
    if mmu.alloc.freeFrames == 0 {
      NoTables(k0, h, k, n);
      return h;
    }
    ghost var k';
    h', k' := MapKernel(mmu, pt, k0, h, k, n);
    LoadDirectory(mmu, pt, k');
    h' := LoadEvents(k0, h', k', n);
  }

  lemma NoTables(k0: Kernel, h: History, k: Kernel, n: nat)
    requires Building(k0, h, k, 1, n) && Available(k0.pmm) == n + 1
    requires k.pmm.freeFrames == k0.pmm.freeFrames - 1 == 0
    ensures h.From(k0) && Initialised(k0, h.Last())
  {
  }

  /** CR3 and then CR0.PG. */
  method LoadDirectory(mmu: PagingUnit, pt: PageTable, ghost k: Kernel)
    requires mmu.Represents(k) && pt == mmu.storage && k.handle.Some?
    modifies mmu`tlb, mmu`cr3, mmu`paging
    ensures mmu.Represents(k.(cr3 := k.handle, paging := true, tlb := map[]))
  {
    mmu.SwitchAddressSpace(pt);
    mmu.paging := true;
  }

  /** Loading CR3 and setting CR0.PG, as events. */
  lemma LoadEvents(k0: Kernel, h: History, k: Kernel, n: nat) returns (h': History)
    requires Building(k0, h, k, PrefixEnd(n), n) && Available(k0.pmm) == n + 1 && k0.pmm.freeFrames > 1
    ensures h'.From(k0) && Initialised(k0, h'.Last())
    ensures h'.Last() == k.(cr3 := k.handle, paging := true, tlb := map[])
  {
    var h1 := Extend(k0, h, SwitchSpace, k.(cr3 := k.handle, tlb := map[]));
    h' := Extend(k0, h1, EnablePaging, k.(cr3 := k.handle, paging := true, tlb := map[]));
  }

  // ---- Reaching the tables once paging is on ----

  ghost function Below(s: set<nat>, hi: nat): set<nat> { set f | f in s && f < hi }

  /** After `mmu_init` every frame of the address space is mapped to itself in it if and only if
      enough of the frames that were free lie inside the prefix. */
  lemma SelfMappedIff(s0: Pmm, s: Pmm, sp: Space, v: nat, n: nat)
    requires Progress(s0, s, sp, v, n) && InRange(s0.free)
    ensures SelfMapped(sp) <==> |Below(s0.free, v)| >= 1 + TablesFor(v)
  {
    InsideIff(s0, s, sp, v);
    forall f | f in Frames(sp) ensures Reaches(sp, f) <==> f < v {
      assert f in s0.free;
      assert Flat(sp, f) == if 1 <= f < v then Some(Translation(f, true, false, false)) else None;
    }
  }

  /** The lowest frames are inside the prefix exactly if as many free frames are. */
  lemma InsideIff(s0: Pmm, s: Pmm, sp: Space, v: nat)
    requires TookLowest(s0, s, sp)
    ensures (forall f :: f in Frames(sp) ==> f < v) <==> |Below(s0.free, v)| >= |Frames(sp)|
  {
    if forall f :: f in Frames(sp) ==> f < v {
      SubsetSize(Frames(sp), Below(s0.free, v));
    } else {
      var f :| f in Frames(sp) && f >= v;
      assert Below(s0.free, v) <= Frames(sp) - {f};
      SubsetSize(Below(s0.free, v), Frames(sp) - {f});
    }
  }

  /** When no free frame lies below 16 MB `mmu_init` succeeds and turns paging on, but no load or
      store of the code can reach the directory any more: it faults. */
  lemma DirectoryLost(k: Kernel, k': Kernel, i: nat)
    requires Initialised(k, k') && InRange(k.pmm.free) && forall f :: f in k.pmm.free ==> f >= KERNEL_PAGES
    ensures Landing(k'.space.value, k'.space.value.dir, i) == None && !SelfMapped(k'.space.value)
  {
    var sp := k'.space.value;
    assert sp.dir in Frames(sp) && sp.dir in k.pmm.free;
    assert Flat(sp, sp.dir) == None && !Reaches(sp, sp.dir);
  }
}
