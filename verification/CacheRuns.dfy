/** The translations the processor has cached, over whole runs: when they are those of the live
    address space, and when they are left over from a destroyed one.

    Neither `mmu_create_address_space` nor `mmu_destroy_address_space` flushes anything. */
module CacheRuns {
  import opened Words
  import opened FrameModel
  import opened FrameRuns
  import opened Paging
  import opened SpaceModel
  import opened KernelMemory

  /** The live address space is loaded and every cached translation is what its tables say now. */
  ghost predicate Current(k: Kernel) {
    Loaded(k) && WellFormed(k.space.value) && Agrees(k.space.value, k.tlb)
  }

  /** The page whose cached translation an event drops: the `invlpg` of a map that succeeds, or of
      an unmap that finds a table, or the processor's own choice. */
  function FlushedBy(k: Kernel, e: KEvent): set<nat> {
    match e
    case MapPage(phys, virt, _, _) =>
      if k.space.Some? && CanMap(k.pmm, k.space.value, phys, virt) then {virt / 0x1000} else {}
    case UnmapPage(virt) =>
      if k.space.Some? && virt % 0x1000 == 0 && virt / 0x1000 / 0x400 in k.space.value.tables
      then {virt / 0x1000} else {}
    case Evict(v) => {v}
    case _ => {}
  }

  // ---- One step ----

  /** Of the cached pages exactly `stale` are left over: the tables do not map them at all. The
      others are up to date. */
  ghost predicate LeftOver(k: Kernel, stale: set<nat>) {
    && Loaded(k) && WellFormed(k.space.value) && stale <= k.tlb.Keys
    && (forall v :: v in stale ==> Flat(k.space.value, v) == None)
    && (forall v :: v in k.tlb && v !in stale ==> Flat(k.space.value, v) == Some(k.tlb[v]))
  }

  lemma CurrentIffNoneLeft(k: Kernel, stale: set<nat>)
    requires LeftOver(k, stale)
    ensures Current(k) <==> stale == {}
  {
    if stale != {} {
      var v :| v in stale;
      assert v in k.tlb && Flat(k.space.value, v) == None;
    }
  }

  lemma MapLeftOver(a: Kernel, stale: set<nat>, e: KEvent, b: Kernel)
    requires LeftOver(a, stale) && Holds(a.pmm, a.space.value) && e.MapPage? && KStep(a, e, b)
    ensures LeftOver(b, stale - FlushedBy(a, e))
  {
    var sp, sp' := a.space.value, b.space.value;
    MapHolds(a.pmm, sp, e.phys, e.virt, e.flags, b.pmm, sp', e.result);
    var page := MapShape(a.pmm, sp, e.phys, e.virt, e.flags, b.pmm, sp', e.result);
    forall v | v in b.tlb
      ensures Flat(sp', v) == if v in stale - FlushedBy(a, e) then None else Some(b.tlb[v])
    {
      MapFlat(a.pmm, sp, e.phys, e.virt, e.flags, b.pmm, sp', e.result, v);
    }
  }

  lemma UnmapLeftOver(a: Kernel, stale: set<nat>, e: KEvent, b: Kernel)
    requires LeftOver(a, stale) && Holds(a.pmm, a.space.value) && e.UnmapPage? && KStep(a, e, b)
    ensures LeftOver(b, stale - FlushedBy(a, e))
  {
    UnmapFlat(a.pmm, a.space.value, e.virt, 0);
    forall v | v in b.tlb
      ensures Flat(b.space.value, v) == if v in stale - FlushedBy(a, e) then None else Some(b.tlb[v])
    {
      UnmapFlat(a.pmm, a.space.value, e.virt, v);
    }
  }

  /** Every event but a destroy and a switch leaves stale what was stale, except for the page it
      flushes. */
  lemma StepLeftOver(start: Pmm, a: Kernel, owner: map<nat, Owner>, stale: set<nat>, e: KEvent, b: Kernel)
    requires Booted(start) && Tracks(start, a, owner) && LeftOver(a, stale)
    requires KStep(a, e, b) && !e.DestroySpace? && !e.SwitchSpace?
    ensures LeftOver(b, stale - FlushedBy(a, e))
  {
    SpaceHeld(start, a, owner);
    if e.MapPage? {
      MapLeftOver(a, stale, e, b);
    } else if e.UnmapPage? {
      UnmapLeftOver(a, stale, e, b);
    } else {
      assert b.space == a.space && b.cr3 == a.cr3;
    }
  }

  // ---- Whole runs ----

  /** No destroy and no switch from `i` up to, but not including, `n`. */
  ghost predicate Undisturbed(es: seq<KEvent>, i: nat, n: nat)
    requires n <= |es|
  {
    forall m :: i <= m < n ==> es[m] != DestroySpace && es[m] != SwitchSpace
  }

  /** Some event from `i` up to, but not including, `n` flushed page `v`. */
  ghost predicate Flushed(ks: seq<Kernel>, es: seq<KEvent>, i: nat, n: nat, v: nat)
    requires n <= |es| <= |ks|
  {
    exists m :: i <= m < n && v in FlushedBy(ks[m], es[m])
  }

  /** What is left over at `n` of the pages that were stale at `i`. */
  ghost function Remaining(ks: seq<Kernel>, es: seq<KEvent>, i: nat, n: nat, stale: set<nat>): set<nat>
    requires n <= |es| <= |ks|
  {
    set v | v in stale && !Flushed(ks, es, i, n, v)
  }

  lemma {:induction false} RunLeftOver(ks: seq<Kernel>, es: seq<KEvent>, i: nat, n: nat, stale: set<nat>)
    requires KRun(ks, es) && Fresh(ks[0]) && i <= n < |ks| && Undisturbed(es, i, n) && LeftOver(ks[i], stale)
    ensures LeftOver(ks[n], Remaining(ks, es, i, n, stale))
    decreases n
  {
    if i == n {
      assert Remaining(ks, es, i, n, stale) == stale;
    } else {
      RunLeftOver(ks, es, i, n - 1, stale);
      var before := Remaining(ks, es, i, n - 1, stale);
      var e := es[n - 1];
      var owner := RunTracks(ks, es, n - 1);
      StepLeftOver(ks[0].pmm, ks[n - 1], owner, before, e, ks[n]);
      FlushedOneMore(ks, es, i, n, stale);
    }
  }

  lemma FlushedOneMore(ks: seq<Kernel>, es: seq<KEvent>, i: nat, n: nat, stale: set<nat>)
    requires i < n <= |es| <= |ks|
    ensures Remaining(ks, es, i, n, stale) == Remaining(ks, es, i, n - 1, stale) - FlushedBy(ks[n - 1], es[n - 1])
  {
    var last := FlushedBy(ks[n - 1], es[n - 1]);
    forall v ensures Flushed(ks, es, i, n, v) <==> Flushed(ks, es, i, n - 1, v) || v in last {}
  }

  lemma LastSwitch(es: seq<KEvent>, i: nat, n: nat) returns (last: nat)
    requires i < n <= |es| && es[i] == SwitchSpace && forall m :: i < m < n ==> es[m] != DestroySpace
    ensures i <= last < n && es[last] == SwitchSpace && Undisturbed(es, last + 1, n)
  {
    last := i;
    for m := i + 1 to n
      invariant i <= last < m && es[last] == SwitchSpace && Undisturbed(es, last + 1, m)
    {
      if es[m] == SwitchSpace { last := m; }
    }
  }

  /** TLB agreement: from a switch until the address space is destroyed, whatever is mapped,
      unmapped, allocated and cached in between, every cached translation is what the flat map,
      and so the walk, says now. */
  lemma CacheCurrent(ks: seq<Kernel>, es: seq<KEvent>, i: nat, n: nat)
    requires KRun(ks, es) && Fresh(ks[0]) && i < n < |ks|
    requires es[i] == SwitchSpace && ks[i].space.Some? && forall m :: i < m < n ==> es[m] != DestroySpace
    ensures Current(ks[n])
    decreases n
  {
    var last := LastSwitch(es, i, n);
    SpaceStays(ks, es, i, last);
    Switched(ks, es, last);
    RunLeftOver(ks, es, last + 1, n, {});
    assert Remaining(ks, es, last + 1, n, {}) == {};
    CurrentIffNoneLeft(ks[n], {});
  }

  lemma Switched(ks: seq<Kernel>, es: seq<KEvent>, i: nat)
    requires KRun(ks, es) && Fresh(ks[0]) && i < |es| && es[i] == SwitchSpace && ks[i].space.Some?
    ensures LeftOver(ks[i + 1], {})
  {
    var owner := RunTracks(ks, es, i);
    assert KStep(ks[i], es[i], ks[i + 1]);
  }

  /** A live address space lives until it is destroyed. */
  lemma {:induction false} SpaceStays(ks: seq<Kernel>, es: seq<KEvent>, i: nat, n: nat)
    requires KRun(ks, es) && i <= n < |ks| && ks[i].space.Some?
    requires forall m :: i <= m < n ==> es[m] != DestroySpace
    ensures ks[n].space.Some?
    decreases n
  {
    if i < n {
      SpaceStays(ks, es, i, n - 1);
      var e := es[n - 1];
      assert KStep(ks[n - 1], e, ks[n]);
    }
  }

  /** Without a switch since the create, a processor whose CR3 happens to name the new directory
      still holds every translation it held before, until that very page is flushed. */
  lemma CacheAfterCreate(ks: seq<Kernel>, es: seq<KEvent>, c: nat, n: nat)
    requires KRun(ks, es) && Fresh(ks[0]) && c < n < |ks|
    requires es[c] == CreateSpace && ks[c + 1].space.Some? && Undisturbed(es, c + 1, n) && Loaded(ks[n])
    ensures Current(ks[n]) <==> forall v :: v in ks[c].tlb ==> Flushed(ks, es, c + 1, n, v)
  {
    SameSpace(ks, es, c + 1, n);
    assert KStep(ks[c], es[c], ks[c + 1]);
    var page: U32 :| Allocates(ks[c].pmm, page, ks[c + 1].pmm) && ks[c + 1].space == Created(page);
    CreatedFlat(page, 0);
    var sp := Created(page).value;
    forall v ensures Flat(sp, v) == None { CreatedFlat(page, v); }
    RunLeftOver(ks, es, c + 1, n, ks[c].tlb.Keys);
    CurrentIffNoneLeft(ks[n], Remaining(ks, es, c + 1, n, ks[c].tlb.Keys));
  }

  /** Between destroys and switches the directory and CR3 stay what they are. */
  lemma {:induction false} SameSpace(ks: seq<Kernel>, es: seq<KEvent>, i: nat, n: nat)
    requires KRun(ks, es) && i <= n < |ks| && Undisturbed(es, i, n) && ks[i].space.Some?
    ensures ks[n].space.Some? && ks[n].space.value.dir == ks[i].space.value.dir && ks[n].cr3 == ks[i].cr3
    decreases n
  {
    if i < n {
      SameSpace(ks, es, i, n - 1);
      var e := es[n - 1];
      assert KStep(ks[n - 1], e, ks[n]);
    }
  }

  /** The exact condition in every reachable state that has a live, loaded address space: its
      cached translations are current if and only if CR3 was loaded since the create, or every
      page that was cached at the create has been flushed since. */
  lemma CacheExact(ks: seq<Kernel>, es: seq<KEvent>, n: nat) returns (c: nat)
    requires KRun(ks, es) && Fresh(ks[0]) && n < |ks| && Loaded(ks[n])
    ensures c < n && es[c] == CreateSpace && forall m :: c < m < n ==> es[m] != DestroySpace
    ensures Current(ks[n]) <==>
      || (exists m :: c < m < n && es[m] == SwitchSpace)
      || (forall v :: v in ks[c].tlb ==> Flushed(ks, es, c + 1, n, v))
  {
    c := LastCreate(ks, es, n);
    if m :| c < m < n && es[m] == SwitchSpace {
      SpaceStays(ks, es, c + 1, m);
      CacheCurrent(ks, es, m, n);
    } else {
      CacheAfterCreate(ks, es, c, n);
    }
  }

  /** The create that made the live address space. */
  lemma LastCreate(ks: seq<Kernel>, es: seq<KEvent>, n: nat) returns (c: nat)
    requires KRun(ks, es) && Fresh(ks[0]) && n < |ks| && ks[n].space.Some?
    ensures c < n && es[c] == CreateSpace && ks[c + 1].space.Some?
    ensures forall m :: c < m < n ==> es[m] != DestroySpace
  {
    c := 0;
    for i := 0 to n
      invariant ks[i].space.Some? ==> c < i && es[c] == CreateSpace && ks[c + 1].space.Some?
      invariant ks[i].space.Some? ==> forall m :: c < m < i ==> es[m] != DestroySpace
    {
      var e := es[i];
      assert KStep(ks[i], e, ks[i + 1]);
      if ks[i].space.None? { c := i; }
    }
  }

  // ---- Destroy and create again ----

  /** The pages an address space translates. */
  ghost function Translates(sp: Space): set<nat>
    requires WellFormed(sp)
  {
    set v | 0 <= v < PAGES && Flat(sp, v).Some?
  }

  /** What a destroy followed by a create leaves when the destroyed space was loaded: the new space
      is loaded exactly if the allocator hands the same directory frame out again, that is, if no
      free frame and no table lies below it; and the cached translations are current exactly if,
      moreover, nothing was cached. */
  lemma Recreated(ks: seq<Kernel>, es: seq<KEvent>, i: nat)
    requires KRun(ks, es) && Fresh(ks[0]) && i + 1 < |es| && Loaded(ks[i])
    requires es[i] == DestroySpace && es[i + 1] == CreateSpace
    ensures ks[i + 2].space.Some? && ks[i + 2].tlb == ks[i].tlb
    ensures Loaded(ks[i + 2]) <==> IsLowest(ks[i].pmm.free + Frames(ks[i].space.value), ks[i].space.value.dir)
    ensures Current(ks[i + 2]) <==> Loaded(ks[i + 2]) && ks[i].tlb == map[]
    ensures WellFormed(ks[i + 2].space.value) && Translates(ks[i + 2].space.value) == {}
  {
    var d, c := es[i], es[i + 1];
    var owner := RunTracks(ks, es, i);
    DestroyFrees(ks[0].pmm, ks[i], owner, ks[i + 1]);
    CreateLowest(ks[i + 1], ks[i + 2]);
    if ks[i].tlb != map[] { var v :| v in ks[i].tlb; }
  }

  lemma DestroyFrees(start: Pmm, a: Kernel, owner: map<nat, Owner>, b: Kernel)
    requires Booted(start) && Tracks(start, a, owner) && a.space.Some? && KStep(a, DestroySpace, b)
    ensures b.pmm.free == a.pmm.free + Frames(a.space.value) && b.pmm.freeFrames > 0 && InRange(b.pmm.free)
    ensures b.space == None && b.tlb == a.tlb && b.cr3 == a.cr3
  {
    var sp := a.space.value;
    SpaceHeld(start, a, owner);
    SubsetSize(Frames(sp), owner.Keys);
    DestroyReturns(a.pmm, sp);
    SubsetSize({sp.dir}, Frames(sp));
    FramesInRange(start, a, owner);
  }

  lemma FramesInRange(start: Pmm, a: Kernel, owner: map<nat, Owner>)
    requires Booted(start) && Tracks(start, a, owner)
    ensures forall f :: f in owner ==> 0 < f < MAX_FRAMES
  {
    forall f | f in owner ensures f in start.free { assert f in a.pmm.free + owner.Keys; }
  }

  lemma CreateLowest(b: Kernel, c: Kernel)
    requires KStep(b, CreateSpace, c) && b.pmm.free != {} && b.pmm.freeFrames > 0 && InRange(b.pmm.free)
    ensures c.space.Some? && WellFormed(c.space.value) && c.tlb == b.tlb && c.cr3 == b.cr3
    ensures IsLowest(b.pmm.free, c.space.value.dir)
    ensures forall v :: Flat(c.space.value, v) == None
  {
    var page: U32 :| Allocates(b.pmm, page, c.pmm) && c.space == Created(page);
    assert page != 0;
    var sp := Created(page).value;
    forall v ensures Flat(sp, v) == None { CreatedFlat(page, v); }
  }
}
