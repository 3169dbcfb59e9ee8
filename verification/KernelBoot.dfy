/** From the loader to a working kernel: `pmm_init`, `mmu_init` and what comes after, as runs of the
    ownership machine that start in the boot state. */
module KernelBoot {
  import opened Words
  import opened FrameModel
  import opened FrameRuns
  import opened MemoryMap
  import opened BootMemory
  import opened Paging
  import opened SpaceModel
  import opened Reachability
  import opened KernelMemory
  import opened CacheRuns
  import opened IdentityMap

  /** The state `pmm_init` leaves: nothing is allocated and paging is off. */
  ghost function BootKernel(info: BootInfo, kernelStart: U32, kernelEnd: U32): Kernel
    requires info.Terminates()
  {
    Kernel(Boot(info, kernelStart, kernelEnd), None, None, map[], {}, None, false, map[])
  }

  /** Every boot is the start of a run: what is proved of runs holds whatever the loader passes. */
  lemma BootIsFresh(info: BootInfo, kernelStart: U32, kernelEnd: U32)
    requires info.Terminates()
    ensures Fresh(BootKernel(info, kernelStart, kernelEnd))
  {
    BootBalanced(info, kernelStart, kernelEnd);
  }

  // ---- A run of `mmu_init` ----

  lemma {:induction false} LowestOf(s: set<nat>) returns (f: nat)
    requires s != {}
    ensures IsLowest(s, f)
    decreases |s|
  {
    var x :| x in s;
    var lower := set g | g in s && g < x;
    f := x;
    if lower != {} {
      assert x !in lower && lower < s;
      ProperSize(lower, s);
      f := LowestOf(lower);
    }
    forall g | g in s ensures f <= g { assert g < x ==> g in lower; }
  }

  lemma ProperSize(a: set<nat>, b: set<nat>)
    requires a < b
    ensures |a| < |b|
  {
    assert b == a + (b - a);
    assert b - a != {};
  }

  lemma SomeAllocation(s: Pmm) returns (page: U32, s': Pmm)
    requires InRange(s.free)
    ensures Allocates(s, page, s')
  {
    if s.freeFrames == 0 || s.free == {} {
      page, s' := 0, s;
    } else {
      var f := LowestOf(s.free);
      page := f * FRAME_SIZE;
      InPage(f, 0);
      s' := s.(free := s.free - {f}, freeFrames := s.freeFrames - 1);
    }
  }

  lemma SomeMap(s: Pmm, sp: Space, virt: U32) returns (s': Pmm, sp': Space, r: U32)
    requires InRange(s.free) && virt % 0x1000 == 0
    ensures Maps(s, sp, virt, virt, KERNEL_FLAGS, s', sp', r)
  {
    var i := virt / 0x1000 / 0x400;
    if i in sp.tables {
      s', sp', r := s, Mapped(sp, virt, virt, KERNEL_FLAGS, sp.tables[i]), virt;
    } else {
      var page;
      page, s' := SomeAllocation(s);
      sp' := if page == 0 then sp else Mapped(sp, virt, virt, KERNEL_FLAGS, page / FRAME_SIZE);
      r := if page == 0 then 0 else virt;
    }
  }

  lemma SomeStep(k0: Kernel, h: History, k: Kernel, v: nat, n: nat) returns (r: U32, h': History, k': Kernel)
    requires v < KERNEL_PAGES && Building(k0, h, k, v, n)
    ensures Building(k0, h', k', if r == 0 then PrefixEnd(n) else v + 1, n)
  {
    var virt: U32 := v * 0x1000;
    PageNumber(virt, v);
    var s', sp';
    s', sp', r := SomeMap(k.pmm, k.space.value, virt);
    k' := k.(pmm := s', space := Some(sp'), tlb := MapFlush(k.tlb, k.pmm, k.space.value, virt, virt));
    h' := BuildingStep(k0, h, k, virt, v, n, r, k');
  }

  lemma SomeMaps(k0: Kernel, h: History, k: Kernel, n: nat) returns (h': History, k': Kernel)
    requires Building(k0, h, k, 1, n)
    ensures Building(k0, h', k', PrefixEnd(n), n)
  {
    var v;
    h', k', v := SomeLoop(k0, h, k, n);
    if v == KERNEL_PAGES { AllMapped(k0, h', k', v, n); }
  }

  lemma SomeLoop(k0: Kernel, h: History, k: Kernel, n: nat) returns (h': History, k': Kernel, v: nat)
    requires Building(k0, h, k, 1, n)
    ensures Building(k0, h', k', v, n) && (v == KERNEL_PAGES || v == PrefixEnd(n))
  {
    h', k', v := h, k, 1;
    while v < KERNEL_PAGES
      invariant v <= KERNEL_PAGES && Building(k0, h', k', v, n)
    {
      var r;
      r, h', k' := SomeStep(k0, h', k', v, n);
      if r == 0 { return h', k', PrefixEnd(n); }
      v := v + 1;
    }
  }

  /** From every fresh state with two frames to be had there is the run of `mmu_init`. */
  lemma InitRun(k0: Kernel) returns (h: History)
    requires Fresh(k0) && InRange(k0.pmm.free) && Available(k0.pmm) >= 2
    ensures h.From(k0) && Initialised(k0, h.Last())
  {
    var page, s' := SomeAllocation(k0.pmm);
    h := CreateEvent(k0, s', Created(page));
    var n := Available(k0.pmm) - 1;
    var h1, k1 := SomeMaps(k0, h, h.Last(), n);
    h := LoadEvents(k0, h1, k1, n);
  }

  // ---- A cached translation that outlives its address space ----

  /** From every boot that leaves two frames there is a run of the code - `mmu_init`, a translation
      of page 1 cached, the address space destroyed and another one created - at whose end the new,
      empty address space is loaded and the translation is still cached. */
  lemma StaleAfterRecreate(info: BootInfo, kernelStart: U32, kernelEnd: U32) returns (h: History)
    requires info.Terminates() && Available(Boot(info, kernelStart, kernelEnd)) >= 2
    ensures h.From(BootKernel(info, kernelStart, kernelEnd)) && Fresh(BootKernel(info, kernelStart, kernelEnd))
    ensures Loaded(h.Last()) && h.Last().paging && 1 in h.Last().tlb && !Current(h.Last())
    ensures WellFormed(h.Last().space.value) && Flat(h.Last().space.value, 1) == None
  {
    var k0 := BootKernel(info, kernelStart, kernelEnd);
    BootIsFresh(info, kernelStart, kernelEnd);
    h := InitRun(k0);
    h := CacheAndRecreate(k0, h);
  }

  lemma CacheAndRecreate(k0: Kernel, h: History) returns (h': History)
    requires Fresh(k0) && h.From(k0) && Initialised(k0, h.Last()) && Available(k0.pmm) >= 2
    ensures h'.From(k0) && Loaded(h'.Last()) && h'.Last().paging && 1 in h'.Last().tlb && !Current(h'.Last())
    ensures WellFormed(h'.Last().space.value) && Flat(h'.Last().space.value, 1) == None
  {
    var k := h.Last();
    var t := Translation(1, true, false, false);
    assert Flat(k.space.value, 1) == Some(t);
    var k1 := k.(tlb := map[1 := t]);
    var h1 := Extend(k0, h, Fill(1, t), k1);
    var k2 := k1.(pmm := Destroyed(k1.pmm, k1.space.value), space := None);
    var h2 := Extend(k0, h1, DestroySpace, k2);
    h' := CreateAgain(k0, h2);
    SameDirectory(k0, k1);
    StillCached(k0, h1, h2, h');
  }

  lemma StillCached(k0: Kernel, h1: History, h2: History, h3: History)
    requires Fresh(k0) && h1.From(k0) && h2.From(k0) && h3.From(k0)
    requires h2.es == h1.es + [DestroySpace] && h3.es == h2.es + [CreateSpace] && h1.ks <= h2.ks <= h3.ks
    requires Loaded(h1.Last()) && 1 in h1.Last().tlb
    requires IsLowest(h1.Last().pmm.free + SpaceModel.Frames(h1.Last().space.value), h1.Last().space.value.dir)
    ensures Loaded(h3.Last()) && 1 in h3.Last().tlb && !Current(h3.Last())
    ensures WellFormed(h3.Last().space.value) && Flat(h3.Last().space.value, 1) == None
  {
    var i := |h1.es|;
    assert h3.ks[i] == h1.Last() && h3.es[i] == DestroySpace && h3.es[i + 1] == CreateSpace;
    Recreated(h3.ks, h3.es, i);
    assert 1 !in Translates(h3.Last().space.value);
  }

  /** The directory has the lowest of the frames a destroy makes free. */
  lemma SameDirectory(k0: Kernel, k: Kernel)
    requires k.space.Some? && TookLowest(k0.pmm, k.pmm, k.space.value)
    ensures IsLowest(k.pmm.free + SpaceModel.Frames(k.space.value), k.space.value.dir)
  {
    assert k.pmm.free + SpaceModel.Frames(k.space.value) == k0.pmm.free;
  }

  lemma CreateAgain(k0: Kernel, h: History) returns (h': History)
    requires Fresh(k0) && h.From(k0) && h.Last().space.None?
    ensures h'.From(k0) && h'.es == h.es + [CreateSpace] && |h'.ks| == |h.ks| + 1 && h.ks <= h'.ks
    ensures h'.Last().paging == h.Last().paging
  {
    var k := h.Last();
    RunInRange(k0, h);
    var page, s' := SomeAllocation(k.pmm);
    var r := Created(page);
    h' := Extend(k0, h, CreateSpace,
                 k.(pmm := s', space := r, handle := if r.Some? then Some(r.value.dir) else k.handle));
  }

  lemma RunInRange(k0: Kernel, h: History)
    requires Fresh(k0) && h.From(k0)
    ensures InRange(h.Last().pmm.free)
  {
    var owner := RunTracks(h.ks, h.es, |h.es|);
    FreeBelow(k0.pmm, h.Last().pmm, owner.Keys);
  }

  lemma FreeBelow(start: Pmm, s: Pmm, owned: set<nat>)
    requires Booted(start) && Conserves(start, State(s, owned))
    ensures InRange(s.free) && s.free <= start.free
  {
  }

  // ---- A directory that cannot be reached ----

  /** A loader that reports one region of memory, from 16 MB on. */
  lemma HighMemoryBoot(kernelStart: U32, kernelEnd: U32) returns (info: BootInfo)
    requires kernelEnd <= 0x100_0000
    ensures info.Terminates() && Available(Boot(info, kernelStart, kernelEnd)) >= 2
    ensures forall f :: f in Boot(info, kernelStart, kernelEnd).free ==> f >= KERNEL_PAGES
  {
    var e := Entry(20, 0x100_0000, 0x100_0000, AVAILABLE);
    info := UniformBoot(e, 1);
    CopiesAre(e, 1);
    assert info.Map() == [e];
    OneRegion(info, e, kernelStart, kernelEnd);
  }

  lemma OneRegion(info: BootInfo, e: Entry, kernelStart: U32, kernelEnd: U32)
    requires info.UsesMap() && info.Terminates() && info.Map() == [e] && kernelEnd <= 0x100_0000
    requires e.addr == 0x100_0000 && e.len == 0x100_0000 && e.kind == AVAILABLE
    ensures Available(Boot(info, kernelStart, kernelEnd)) >= 2
    ensures forall f :: f in Boot(info, kernelStart, kernelEnd).free ==> f >= KERNEL_PAGES
  {
    var s := Boot(info, kernelStart, kernelEnd);
    forall f | f in s.free ensures f >= KERNEL_PAGES { BootFreeSet(info, kernelStart, kernelEnd, f); }
    BootFreeSet(info, kernelStart, kernelEnd, KERNEL_PAGES);
    BootFreeSet(info, kernelStart, kernelEnd, KERNEL_PAGES + 1);
    assert e in info.Map() && Inside(KERNEL_PAGES, e) && Inside(KERNEL_PAGES + 1, e);
    var two := {KERNEL_PAGES, KERNEL_PAGES + 1};
    SubsetSize(two, s.free);
    assert |two| == 2;
    assert Sum([e]) == |BootMemory.Frames(e)| by { assert [e][1..] == []; }
    BootCounts([e], kernelStart, kernelEnd);
  }

  /** From that boot `mmu_init` succeeds and turns paging on, and no load or store by which the code
      reaches for the directory gets there: it faults. */
  lemma UnreachableFromBoot(kernelStart: U32, kernelEnd: U32, i: nat) returns (info: BootInfo, h: History)
    requires kernelEnd <= 0x100_0000
    ensures info.Terminates() && h.From(BootKernel(info, kernelStart, kernelEnd)) && Loaded(h.Last()) && h.Last().paging
    ensures WellFormed(h.Last().space.value) && !SelfMapped(h.Last().space.value)
    ensures Landing(h.Last().space.value, h.Last().space.value.dir, i) == None
  {
    info := HighMemoryBoot(kernelStart, kernelEnd);
    var k0 := BootKernel(info, kernelStart, kernelEnd);
    BootIsFresh(info, kernelStart, kernelEnd);
    h := InitRun(k0);
    DirectoryLost(k0, h.Last(), i);
  }
}
