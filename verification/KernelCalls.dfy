/** The memory calls of the running kernel as steps of the ownership machine: every call on the
    objects is one `KStep`, so what is proved of runs holds of the bitmap, the words in memory and
    the cached translations. */
module KernelCalls {
  import opened Words
  import opened KernelScheduler
  import opened FrameModel
  import opened FrameRuns
  import opened Paging
  import opened SpaceModel
  import opened Reachability
  import opened Mmu
  import opened KernelMemory
  import opened CacheRuns
  import opened TaskMemory

  /** What the calls rely on: the frames of the address space are not free. */
  ghost predicate Safe(k: Kernel) {
    InRange(k.pmm.free) && (k.space.Some? ==> Holds(k.pmm, k.space.value))
  }

  /** It holds in every reachable state. */
  lemma ReachableSafe(ks: seq<Kernel>, es: seq<KEvent>, n: nat)
    requires KRun(ks, es) && Fresh(ks[0]) && n < |ks|
    ensures Safe(ks[n])
  {
    var owner := RunTracks(ks, es, n);
    if ks[n].space.Some? { SpaceHeld(ks[0].pmm, ks[n], owner); }
  }

  /** No directory and no table: whoever owns the frame may write to it. */
  ghost predicate Private(k: Kernel, f: nat) {
    0 < f < MAX_FRAMES && (k.space.Some? ==> f !in Frames(k.space.value))
  }

  /** In every reachable state control blocks, stacks and held pages are private frames. */
  lemma ReachablePrivate(ks: seq<Kernel>, es: seq<KEvent>, n: nat, o: Owner)
    requires KRun(ks, es) && Fresh(ks[0]) && n < |ks|
    requires Slot(ks[n], o).Some? && !o.Directory? && !o.Table?
    ensures Private(ks[n], Slot(ks[n], o).value)
  {
    var owner := RunTracks(ks, es, n);
    var f := Slot(ks[n], o).value;
    assert f in owner && owner[f] == o;
    OwnedBelow(ks[0].pmm, ks[n], owner, f);
    if ks[n].space.Some? { SpaceHeld(ks[0].pmm, ks[n], owner); }
  }

  lemma OwnedBelow(start: Pmm, k: Kernel, owner: map<nat, Owner>, f: nat)
    requires Booted(start) && Conserves(start, State(k.pmm, owner.Keys)) && f in owner
    ensures 0 < f < MAX_FRAMES
  {
    assert f in k.pmm.free + owner.Keys;
  }

  /** With paging on, the processor works in the live address space and its cache is current. */
  ghost predicate Working(k: Kernel) { k.paging ==> Current(k) }

  class MemoryCalls {
    const mmu: PagingUnit
    const tasks: TaskManager

    constructor (tasks: TaskManager)
      ensures this.tasks == tasks && mmu == tasks.mmu
    {
      this.tasks, mmu := tasks, tasks.mmu;
    }

    /** The objects represent `k`. */
    ghost predicate Shows(k: Kernel)
      reads mmu`tlb, mmu`cr3, mmu`paging, mmu.words, mmu.storage, mmu.alloc, mmu.alloc.bitmap
    {
      tasks.mmu == mmu && mmu.Represents(k)
    }

    /** In the terms of the hardware: when the cached translations are current, each of them is
        what the processor would find by walking from CR3. */
    lemma CachedIsWalked(k: Kernel, v: nat)
      requires Shows(k) && Current(k) && v in mmu.tlb && v < PAGES
      ensures mmu.Walk(mmu.cr3 / 0x1000, v) == Some(mmu.tlb[v])
    {
      mmu.WalkIsFlat(k.space.value, v);
    }

    /** ... and a frame that is mapped to itself and is none of the address space's own can be written
        through its address, however often. */
    lemma MappedIsSteady(k: Kernel, f: nat)
      requires Shows(k) && Working(k) && k.space.Some? && Private(k, f) && (k.paging ==> Reaches(k.space.value, f))
      ensures mmu.Steady(f)
    {
      mmu.WorksSteady(k.space.value, f);
    }

    method CreateSpace(ghost k: Kernel) returns (pt: PageTable?, ghost k': Kernel)
      requires Shows(k) && k.space.None?
      requires k.paging ==> forall f :: IsLowest(k.pmm.free, f) ==> mmu.Steady(f)
      modifies mmu.words, mmu.storage, mmu.alloc`freeFrames, mmu.alloc.bitmap
      ensures Shows(k') && KStep(k, KEvent.CreateSpace, k')
      ensures pt == if k'.space.Some? then mmu.storage else null
    {
      ghost var s', r;
      pt, s', r := mmu.CreateAddressSpace(k.pmm);
      k' := k.(pmm := s', space := r, handle := if r.Some? then Some(r.value.dir) else k.handle);
    }

    method DestroySpace(ghost k: Kernel) returns (ghost k': Kernel)
      requires Shows(k) && Working(k) && k.space.Some? && WellFormed(k.space.value)
      requires k.paging ==> Reaches(k.space.value, k.space.value.dir)
      modifies mmu.alloc`freeFrames, mmu.alloc.bitmap
      ensures Shows(k') && KStep(k, KEvent.DestroySpace, k')
    {
      mmu.WorksReached(k.space.value, k.space.value.dir);
      mmu.DestroyAddressSpace(mmu.storage, k.pmm, k.space.value);
      k' := k.(pmm := Destroyed(k.pmm, k.space.value), space := None);
    }

    /** A switch to the handle, even to one whose address space has been destroyed. */
    method SwitchSpace(ghost k: Kernel) returns (ghost k': Kernel)
      requires Shows(k) && k.handle.Some?
      modifies mmu`cr3, mmu`tlb
      ensures Shows(k') && KStep(k, KEvent.SwitchSpace, k')
    {
      mmu.SwitchAddressSpace(mmu.storage);
      k' := k.(cr3 := k.handle, tlb := map[]);
    }

    /** The processor caches what it finds by walking from CR3, whatever that frame is now. */
    method Fill(v: nat, ghost k: Kernel) returns (ghost k': Kernel)
      requires Shows(k) && k.paging && k.cr3.Some? && v < PAGES && mmu.Walk(mmu.cr3 / 0x1000, v).Some?
      modifies mmu`tlb
      ensures Shows(k') && KStep(k, KEvent.Fill(v, mmu.Walk(mmu.cr3 / 0x1000, v).value), k')
    {
      if Loaded(k) { mmu.WalkIsFlat(k.space.value, v); }
      mmu.Fill(v);
      k' := k.(tlb := mmu.tlb);
    }

    /** ... or drops it again. */
    method Evict(v: nat, ghost k: Kernel) returns (ghost k': Kernel)
      requires Shows(k)
      modifies mmu`tlb
      ensures Shows(k') && KStep(k, KEvent.Evict(v), k')
    {
      mmu.tlb := mmu.tlb - {v};
      k' := k.(tlb := mmu.tlb);
    }

    method MapPage(phys: U32, virt: U32, flags: U32, ghost k: Kernel) returns (r: U32, ghost k': Kernel)
      requires Shows(k) && Safe(k) && Working(k) && k.space.Some? && WellFormed(k.space.value)
      requires k.paging && phys % 0x1000 == 0 && virt % 0x1000 == 0 ==> MapReached(k.pmm, k.space.value, virt)
      modifies mmu.words, mmu`tlb, mmu.alloc`freeFrames, mmu.alloc.bitmap
      ensures Shows(k') && KStep(k, KEvent.MapPage(phys, virt, flags, r), k')
    {
      ghost var s', sp';
      r, s', sp' := mmu.MapPage(mmu.storage, phys, virt, flags, k.pmm, k.space.value);
      ghost var page := MapShape(k.pmm, k.space.value, phys, virt, flags, s', sp', r);
      k' := k.(pmm := s', space := Some(sp'), tlb := mmu.tlb);
    }

    method UnmapPage(virt: U32, ghost k: Kernel) returns (ghost k': Kernel)
      requires Shows(k) && Safe(k) && Working(k) && k.space.Some? && WellFormed(k.space.value)
      requires k.paging && virt % 0x1000 == 0 ==> EntryReached(k.space.value, virt)
      modifies mmu.words, mmu`tlb
      ensures Shows(k') && KStep(k, KEvent.UnmapPage(virt), k')
    {
      mmu.UnmapPage(mmu.storage, virt, k.pmm, k.space.value);
      k' := k.(space := Some(Unmapped(k.space.value, virt)), tlb := mmu.tlb);
    }

    method TakePage(ghost k: Kernel) returns (page: U32, ghost k': Kernel)
      requires Shows(k)
      modifies mmu.alloc`freeFrames, mmu.alloc.bitmap
      ensures Shows(k') && KStep(k, Take(page), k')
    {
      ghost var s';
      page, s' := mmu.alloc.AllocPage(k.pmm);
      k' := k.(pmm := s', held := if page == 0 then k.held else k.held + {page / FRAME_SIZE});
    }

    method GivePage(page: U32, ghost k: Kernel) returns (ghost k': Kernel)
      requires Shows(k) && page / FRAME_SIZE in k.held
      modifies mmu.alloc`freeFrames, mmu.alloc.bitmap
      ensures Shows(k') && KStep(k, Give(page / FRAME_SIZE), k')
    {
      mmu.alloc.FreePage(page, k.pmm);
      k' := k.(pmm := Release(k.pmm, page / FRAME_SIZE), held := k.held - {page / FRAME_SIZE});
    }

    /** `name` is what the run calls the new thread. */
    method CreateThread(entry: U32, arg: U32, priority: U8, ghost k: Kernel, ghost name: nat)
      returns (task: Task?, page: U32, context: Context, ghost made: Option<Thread>, ghost k': Kernel)
      requires Shows(k) && Safe(k) && entry != 0 && name !in k.threads
      requires forall s', r :: Spawns(k.pmm, s', r) && r.Some? ==> mmu.Steady(r.value.stack)
      modifies tasks`nextTaskId, mmu.words, mmu.alloc`freeFrames, mmu.alloc.bitmap
      ensures Shows(k') && KStep(k, KEvent.CreateThread(name, made), k')
      ensures task != null ==> fresh(task) && task.kernelStack != 0 && page == page / FRAME_SIZE * FRAME_SIZE
      ensures made == if task == null then None
                      else Some(Thread(page / FRAME_SIZE, task.kernelStack / FRAME_SIZE))
    {
      ghost var s';
      task, page, context, s', made := tasks.CreateKernelThread(entry, arg, priority, STACK_SIZE, k.pmm, k.space);
      k' := k.(pmm := s', threads := if made.Some? then k.threads[name := made.value] else k.threads);
    }

    method DestroyThread(task: Task, page: U32, ghost k: Kernel, ghost name: nat) returns (ghost k': Kernel)
      requires Shows(k) && name in k.threads
      requires task.kernelStack != 0 && k.threads[name] == Thread(page / FRAME_SIZE, task.kernelStack / FRAME_SIZE)
      modifies mmu.alloc`freeFrames, mmu.alloc.bitmap
      ensures Shows(k') && KStep(k, KEvent.DestroyThread(name), k')
    {
      tasks.DestroyTask(task, page, k.pmm);
      k' := k.(pmm := Reaped(k.pmm, k.threads[name]), threads := k.threads - {name});
    }

    /** Whoever owns a stack, a control block or a page may write to it: no translation and no
        ownership changes. */
    method WriteOwned(f: nat, i: nat, w: U32, ghost k: Kernel)
      requires Shows(k) && Private(k, f) && i < ENTRIES && mmu.Steady(f)
      modifies mmu.words
      ensures Shows(k) && mmu.words[f, i] == w
    {
      mmu.WriteWord(f, i, w, k.space);
    }
  }
}
