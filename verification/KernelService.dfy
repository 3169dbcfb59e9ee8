/** The kernel's memory calls served one after another, from the loader on, with paging on. */
module KernelService {
  import opened Words
  import opened FrameModel
  import opened FrameRuns
  import opened BootMemory
  import opened FrameAllocator
  import opened Paging
  import opened SpaceModel
  import opened Reachability
  import opened KernelScheduler
  import opened KernelMemory
  import opened CacheRuns
  import opened Mmu
  import opened IdentityMap
  import opened TaskMemory
  import opened KernelCalls
  import opened KernelBoot

  /** What callers ask for, and what the processor does in between. */
  datatype Request =
    | Map(phys: U32, virt: U32, flags: U32)
    | Unmap(virt: U32)
    | TakeFrame
    | GiveFrame(page: U32)
    | Spawn(entry: U32, arg: U32, priority: U8)
    | Reap(name: nat)
    | Cache(v: nat)
    | Drop(v: nat)

  /** The request leaves the pages of the kernel's own map, those below `hi`, alone. */
  predicate Outside(r: Request, hi: nat) {
    && (r.Map? ==> r.virt / 0x1000 >= hi)
    && (r.Unmap? ==> r.virt / 0x1000 >= hi)
  }

  /** Requests nothing is done for. */
  ghost predicate Ignored(k: Kernel, r: Request)
    requires k.space.Some? && WellFormed(k.space.value)
  {
    match r
    case GiveFrame(page) => page / FRAME_SIZE !in k.held
    case Spawn(entry, _, _) => entry == 0
    case Reap(name) => name !in k.threads
    case Cache(v) => v >= PAGES || Flat(k.space.value, v).None?
    case _ => false
  }

  /** The event that answers a request. */
  predicate AnswerTo(r: Request, e: KEvent) {
    match r
    case Map(phys, virt, flags) => e.MapPage? && e.phys == phys && e.virt == virt && e.flags == flags
    case Unmap(virt) => e == KEvent.UnmapPage(virt)
    case TakeFrame => e.Take?
    case GiveFrame(page) => e == Give(page / FRAME_SIZE)
    case Spawn(_, _, _) => e.CreateThread?
    case Reap(name) => e == KEvent.DestroyThread(name)
    case Cache(v) => e.Fill? && e.v == v
    case Drop(v) => e == KEvent.Evict(v)
  }

  ghost predicate Answered(h: History, r: Request, h': History) {
    && h.ks != [] && h.Last().space.Some? && WellFormed(h.Last().space.value)
    && if Ignored(h.Last(), r) then h' == h
       else h.ks <= h'.ks && |h'.es| == |h.es| + 1 && h.es <= h'.es && AnswerTo(r, h'.es[|h.es|])
  }

  /** The run answers the requests one by one. */
  ghost predicate AllAnswered(h: History, rs: seq<Request>, h': History)
    decreases |rs|
  {
    if rs == [] then h' == h else exists h1: History :: Answered(h, rs[0], h1) && AllAnswered(h1, rs[1..], h')
  }

  // ---- What is kept ----

  /** The kernel's own map is whole. */
  ghost predicate Whole(sp: Space, hi: nat) {
    WellFormed(sp) && forall f :: 1 <= f < hi ==> Reaches(sp, f)
  }

  /** A start from which all frames lie inside the kernel's map. */
  ghost predicate Starts(k0: Kernel, hi: nat) {
    Fresh(k0) && forall f :: f in k0.pmm.free ==> f < hi
  }

  /** A run with paging on, a current cache and the kernel's map whole. */
  ghost predicate Serving(k0: Kernel, h: History, hi: nat) {
    h.From(k0) && h.Last().paging && Current(h.Last()) && Whole(h.Last().space.value, hi)
  }

  /** So every frame that is free or in use is reachable through its address. */
  lemma AllReached(k0: Kernel, h: History, hi: nat)
    requires Starts(k0, hi) && Serving(k0, h, hi)
    ensures Safe(h.Last()) && SelfMapped(h.Last().space.value)
    ensures forall f :: f in h.Last().pmm.free ==> Reaches(h.Last().space.value, f)
  {
    var k := h.Last();
    var owner := RunTracks(h.ks, h.es, |h.es|);
    ReachableSafe(h.ks, h.es, |h.es|);
    SpaceHeld(k0.pmm, k, owner);
    FreeBelow(k0.pmm, k.pmm, owner.Keys);
    OwnedFromStart(k0.pmm, k.pmm, owner.Keys);
  }

  /** In particular what a map, an unmap or a new stack needs. */
  lemma MapReady(k0: Kernel, h: History, hi: nat, virt: U32)
    requires Starts(k0, hi) && Serving(k0, h, hi)
    ensures var k := h.Last();
      && Safe(k) && Working(k) && EntryReached(k.space.value, virt) && MapReached(k.pmm, k.space.value, virt)
  {
    AllReached(k0, h, hi);
    SelfMappedReaches(h.Last().pmm, h.Last().space.value, virt);
  }

  lemma OwnedFromStart(start: Pmm, s: Pmm, owned: set<nat>)
    requires Booted(start) && Conserves(start, State(s, owned))
    ensures owned <= start.free && 0 !in owned
  {
  }

  /** Every event of a request keeps all of this. */
  lemma ServingStep(k0: Kernel, h: History, hi: nat, e: KEvent, k': Kernel) returns (h': History)
    requires Starts(k0, hi) && Serving(k0, h, hi) && KStep(h.Last(), e, k')
    requires !e.CreateSpace? && !e.DestroySpace? && !e.SwitchSpace? && !e.EnablePaging?
    requires e.MapPage? ==> e.virt / 0x1000 >= hi
    requires e.UnmapPage? ==> e.virt / 0x1000 >= hi
    ensures Serving(k0, h', hi) && h'.Last() == k' && h'.es == h.es + [e] && h.ks <= h'.ks
  {
    var k := h.Last();
    var owner := RunTracks(h.ks, h.es, |h.es|);
    NothingLeftOver(k);
    StepLeftOver(k0.pmm, k, owner, {}, e, k');
    assert {} - FlushedBy(k, e) == {};
    CurrentIffNoneLeft(k', {});
    SpaceHeld(k0.pmm, k, owner);
    StaysWhole(k, hi, e, k');
    h' := Extend(k0, h, e, k');
  }

  /** The same, as the answer to a request. */
  lemma Answer(k0: Kernel, h: History, hi: nat, r: Request, e: KEvent, k': Kernel) returns (h': History)
    requires Starts(k0, hi) && Serving(k0, h, hi) && KStep(h.Last(), e, k')
    requires Outside(r, hi) && AnswerTo(r, e) && !Ignored(h.Last(), r)
    ensures Serving(k0, h', hi) && h'.Last() == k' && Answered(h, r, h')
  {
    h' := ServingStep(k0, h, hi, e, k');
  }

  lemma NothingLeftOver(k: Kernel)
    requires Current(k)
    ensures LeftOver(k, {})
  {
  }

  lemma StaysWhole(k: Kernel, hi: nat, e: KEvent, k': Kernel)
    requires k.space.Some? && Holds(k.pmm, k.space.value) && Whole(k.space.value, hi) && KStep(k, e, k')
    requires !e.CreateSpace? && !e.DestroySpace?
    requires e.MapPage? ==> e.virt / 0x1000 >= hi
    requires e.UnmapPage? ==> e.virt / 0x1000 >= hi
    ensures k'.space.Some? && Whole(k'.space.value, hi)
  {
    if e.MapPage? {
      MapStaysWhole(k.pmm, k.space.value, hi, e.phys, e.virt, e.flags, k'.pmm, k'.space.value, e.result);
    } else if e.UnmapPage? {
      UnmapStaysWhole(k.pmm, k.space.value, hi, e.virt);
    } else {
      assert k'.space == k.space;
    }
  }

  lemma MapStaysWhole(s: Pmm, sp: Space, hi: nat, phys: U32, virt: U32, flags: U32, s': Pmm, sp': Space, r: U32)
    requires Holds(s, sp) && Whole(sp, hi) && Maps(s, sp, phys, virt, flags, s', sp', r) && virt / 0x1000 >= hi
    ensures Whole(sp', hi)
  {
    MapFlat(s, sp, phys, virt, flags, s', sp', r, 0);
    forall f | 1 <= f < hi ensures Reaches(sp', f) {
      assert Reaches(sp, f);
      MapFlat(s, sp, phys, virt, flags, s', sp', r, f);
    }
  }

  lemma UnmapStaysWhole(s: Pmm, sp: Space, hi: nat, virt: U32)
    requires Holds(s, sp) && Whole(sp, hi) && virt / 0x1000 >= hi
    ensures Whole(Unmapped(sp, virt), hi)
  {
    var sp' := Unmapped(sp, virt);
    UnmapFlat(s, sp, virt, 0);
    forall f | 1 <= f < hi ensures Reaches(sp', f) {
      assert Reaches(sp, f);
      UnmapFlat(s, sp, virt, f);
    }
  }

  /** After `mmu_init` the run is of this kind if the frames that were free lie inside the prefix. */
  lemma ServingFromInit(k0: Kernel, h: History, hi: nat)
    requires Starts(k0, hi) && h.From(k0) && Initialised(k0, h.Last())
    requires Available(k0.pmm) >= 2 && hi == PrefixEnd(Available(k0.pmm) - 1)
    ensures Serving(k0, h, hi)
  {
    var sp := h.Last().space.value;
    forall f | 1 <= f < hi ensures Reaches(sp, f) {
      assert Flat(sp, f) == Some(Translation(f, true, false, false));
    }
  }

  // ---- Serving requests ----

  class Server {
    const calls: MemoryCalls
    var held: set<nat>                       // frames handed out
    var threads: map<nat, (Task, U32)>       // control block and its address, by name
    var next: nat                            // the next thread's name
    ghost var h: History

    constructor (calls: MemoryCalls, ghost h: History)
      ensures this.calls == calls && this.h == h && held == {} && threads == map[] && next == 0
    {
      this.calls, this.h, held, threads, next := calls, h, {}, map[], 0;
    }

    /** The server's books are those of the run. */
    ghost predicate Books(k: Kernel)
      reads this
    {
      && held == k.held && threads.Keys == k.threads.Keys
      && forall n :: n in threads ==>
           && n < next && threads[n].0.kernelStack != 0
           && k.threads[n] == Thread(threads[n].1 / FRAME_SIZE, threads[n].0.kernelStack / FRAME_SIZE)
    }

    ghost predicate Valid(k0: Kernel, hi: nat)
      reads this, calls.mmu, calls.mmu.words, calls.mmu.storage, calls.mmu.alloc, calls.mmu.alloc.bitmap
    {
      Serving(k0, h, hi) && Books(h.Last()) && calls.Shows(h.Last())
    }

    method DoMap(phys: U32, virt: U32, flags: U32, ghost k0: Kernel, ghost hi: nat)
      requires Starts(k0, hi) && Valid(k0, hi) && virt / 0x1000 >= hi
      modifies `h, calls.mmu.words, calls.mmu`tlb, calls.mmu.alloc`freeFrames, calls.mmu.alloc.bitmap
      ensures Valid(k0, hi) && Answered(old(h), Map(phys, virt, flags), h)
    {
      MapReady(k0, h, hi, virt);
      ghost var k', r;
      r, k' := calls.MapPage(phys, virt, flags, h.Last());
      h := Answer(k0, h, hi, Map(phys, virt, flags), KEvent.MapPage(phys, virt, flags, r), k');
    }

    method DoUnmap(virt: U32, ghost k0: Kernel, ghost hi: nat)
      requires Starts(k0, hi) && Valid(k0, hi) && virt / 0x1000 >= hi
      modifies `h, calls.mmu.words, calls.mmu`tlb
      ensures Valid(k0, hi) && Answered(old(h), Unmap(virt), h)
    {
      MapReady(k0, h, hi, virt);
      ghost var k' := calls.UnmapPage(virt, h.Last());
      h := Answer(k0, h, hi, Unmap(virt), KEvent.UnmapPage(virt), k');
    }

    method DoTake(ghost k0: Kernel, ghost hi: nat) returns (page: U32)
      requires Starts(k0, hi) && Valid(k0, hi)
      modifies `h, `held, calls.mmu.alloc`freeFrames, calls.mmu.alloc.bitmap
      ensures Valid(k0, hi) && Answered(old(h), TakeFrame, h)
    {
      ghost var k';
      page, k' := calls.TakePage(h.Last());
      h := Answer(k0, h, hi, TakeFrame, Take(page), k');
      if page != 0 {
        held := held + {page / FRAME_SIZE};
      }
    }

    method DoGive(page: U32, ghost k0: Kernel, ghost hi: nat)
      requires Starts(k0, hi) && Valid(k0, hi)
      modifies `h, `held, calls.mmu.alloc`freeFrames, calls.mmu.alloc.bitmap
      ensures Valid(k0, hi) && Answered(old(h), GiveFrame(page), h)
    {
      if page / FRAME_SIZE !in held {
        return;
      }
      ghost var k' := calls.GivePage(page, h.Last());
      h := Answer(k0, h, hi, GiveFrame(page), Give(page / FRAME_SIZE), k');
      held := held - {page / FRAME_SIZE};
    }

    /** The stack a new thread will get can be written. */
    lemma StackSteady(k0: Kernel, hi: nat)
      requires Starts(k0, hi) && Valid(k0, hi)
      ensures Safe(h.Last())
      ensures forall s', r :: Spawns(h.Last().pmm, s', r) && r.Some? ==> calls.mmu.Steady(r.value.stack)
    {
      var k := h.Last();
      AllReached(k0, h, hi);
      forall s', r | Spawns(k.pmm, s', r) && r.Some? ensures calls.mmu.Steady(r.value.stack) {
        StackIsFree(k.pmm, s', r);
        assert Private(k, r.value.stack);
        calls.MappedIsSteady(k, r.value.stack);
      }
    }

    method DoSpawn(entry: U32, arg: U32, priority: U8, ghost k0: Kernel, ghost hi: nat)
      requires Starts(k0, hi) && Valid(k0, hi)
      modifies `h, `threads, `next, calls.tasks`nextTaskId
      modifies calls.mmu.words, calls.mmu.alloc`freeFrames, calls.mmu.alloc.bitmap
      ensures Valid(k0, hi) && Answered(old(h), Spawn(entry, arg, priority), h)
    {
      if entry == 0 {
        return;
      }
      StackSteady(k0, hi);
      var name := next;
      ghost var made, k', k := None, h.Last(), h.Last();
      var task, page, context;
      task, page, context, made, k' := calls.CreateThread(entry, arg, priority, h.Last(), name);
      h := Answer(k0, h, hi, Spawn(entry, arg, priority), KEvent.CreateThread(name, made), k');
      Record(task, page, k, k');
    }

    /** A new thread, if there is one, enters the books. */
    method Record(task: Task?, page: U32, ghost k: Kernel, ghost k': Kernel)
      requires Books(k) && k'.held == k.held && (task != null ==> task.kernelStack != 0)
      requires k'.threads == if task == null then k.threads
                             else k.threads[next := Thread(page / FRAME_SIZE, task.kernelStack / FRAME_SIZE)]
      modifies `threads, `next
      ensures Books(k')
    {
      if task != null {
        threads, next := threads[next := (task, page)], next + 1;
      }
    }

    method DoReap(name: nat, ghost k0: Kernel, ghost hi: nat)
      requires Starts(k0, hi) && Valid(k0, hi)
      modifies `h, `threads, calls.mmu.alloc`freeFrames, calls.mmu.alloc.bitmap
      ensures Valid(k0, hi) && Answered(old(h), Reap(name), h)
    {
      if name !in threads {
        return;
      }
      ghost var k' := calls.DestroyThread(threads[name].0, threads[name].1, h.Last(), name);
      ghost var k := h.Last();
      h := Answer(k0, h, hi, Reap(name), KEvent.DestroyThread(name), k');
      Forget(name, k, k');
    }

    method Forget(name: nat, ghost k: Kernel, ghost k': Kernel)
      requires Books(k) && k'.held == k.held && k'.threads == k.threads - {name}
      modifies `threads
      ensures Books(k')
    {
      threads := threads - {name};
    }

    method DoCache(v: nat, ghost k0: Kernel, ghost hi: nat)
      requires Starts(k0, hi) && Valid(k0, hi)
      modifies `h, calls.mmu`tlb
      ensures Valid(k0, hi) && Answered(old(h), Cache(v), h)
    {
      if v < PAGES { calls.mmu.WalkIsFlat(h.Last().space.value, v); }
      if v >= PAGES || calls.mmu.Walk(calls.mmu.cr3 / 0x1000, v).None? {
        return;
      }
      ghost var t := calls.mmu.Walk(calls.mmu.cr3 / 0x1000, v).value;
      ghost var k' := calls.Fill(v, h.Last());
      h := Answer(k0, h, hi, Cache(v), KEvent.Fill(v, t), k');
    }

    method DoDrop(v: nat, ghost k0: Kernel, ghost hi: nat)
      requires Starts(k0, hi) && Valid(k0, hi)
      modifies `h, calls.mmu`tlb
      ensures Valid(k0, hi) && Answered(old(h), Drop(v), h)
    {
      ghost var k' := calls.Evict(v, h.Last());
      h := Answer(k0, h, hi, Drop(v), KEvent.Evict(v), k');
    }

    method Serve(r: Request, ghost k0: Kernel, ghost hi: nat)
      requires Starts(k0, hi) && Valid(k0, hi) && Outside(r, hi)
      modifies this, calls.tasks`nextTaskId
      modifies calls.mmu.words, calls.mmu`tlb, calls.mmu.alloc`freeFrames, calls.mmu.alloc.bitmap
      ensures Valid(k0, hi) && Answered(old(h), r, h)
    {
      match r
      case Map(phys, virt, flags) => DoMap(phys, virt, flags, k0, hi);
      case Unmap(virt) => DoUnmap(virt, k0, hi);
      case TakeFrame => var _ := DoTake(k0, hi);
      case GiveFrame(page) => DoGive(page, k0, hi);
      case Spawn(entry, arg, priority) => DoSpawn(entry, arg, priority, k0, hi);
      case Reap(name) => DoReap(name, k0, hi);
      case Cache(v) => DoCache(v, k0, hi);
      case Drop(v) => DoDrop(v, k0, hi);
    }

    /** Any requests that leave the kernel's own map alone, in any order: the objects go on
        representing a run in which paging is on, every cached translation is current, and every
        frame the code touches is reached. */
    method ServeAll(rs: seq<Request>, ghost k0: Kernel, ghost hi: nat)
      requires Starts(k0, hi) && Valid(k0, hi) && forall r :: r in rs ==> Outside(r, hi)
      modifies this, calls.tasks`nextTaskId
      modifies calls.mmu.words, calls.mmu`tlb, calls.mmu.alloc`freeFrames, calls.mmu.alloc.bitmap
      ensures Valid(k0, hi) && AllAnswered(old(h), rs, h)
      decreases |rs|
    {
      if |rs| > 0 {
        Serve(rs[0], k0, hi);
        ServeAll(rs[1..], k0, hi);
      }
    }
  }

  /** `pmm_init` on what the loader passed. */
  method PowerOn(info: BootInfo, kernelStart: U32, kernelEnd: U32) returns (mmu: PagingUnit)
    requires info.Terminates()
    ensures fresh(mmu) && fresh(mmu.words) && fresh(mmu.storage) && fresh(mmu.alloc) && fresh(mmu.alloc.bitmap)
    ensures mmu.Represents(BootKernel(info, kernelStart, kernelEnd))
  {
    var alloc := new Allocator();
    alloc.Init(info, kernelStart, kernelEnd);
    mmu := new PagingUnit(alloc);
  }

  /** ... then `mmu_init`. */
  method Bring(info: BootInfo, kernelStart: U32, kernelEnd: U32) returns (mmu: PagingUnit, ghost h: History)
    requires info.Terminates() && Available(Boot(info, kernelStart, kernelEnd)) >= 2
    ensures fresh(mmu) && fresh(mmu.words) && fresh(mmu.storage) && fresh(mmu.alloc) && fresh(mmu.alloc.bitmap)
    ensures var k0 := BootKernel(info, kernelStart, kernelEnd);
      h.From(k0) && Initialised(k0, h.Last()) && mmu.Represents(h.Last())
  {
    mmu := PowerOn(info, kernelStart, kernelEnd);
    BootIsFresh(info, kernelStart, kernelEnd);
    var pt;
    pt, h := MmuInit(mmu, BootKernel(info, kernelStart, kernelEnd));
  }

  /** The whole way: `pmm_init`, `mmu_init`, and any requests. It works for every boot that leaves two
      frames or more, all of them inside the kernel's identity map. */
  method BootAndServe(info: BootInfo, kernelStart: U32, kernelEnd: U32, wrapper: U32, rs: seq<Request>, ghost hi: nat)
    returns (server: Server, ghost h0: History)
    requires info.Terminates() && Available(Boot(info, kernelStart, kernelEnd)) >= 2
    requires hi == PrefixEnd(Available(Boot(info, kernelStart, kernelEnd)) - 1)
    requires forall f :: f in Boot(info, kernelStart, kernelEnd).free ==> f < hi
    requires forall r :: r in rs ==> Outside(r, hi)
    ensures server.Valid(BootKernel(info, kernelStart, kernelEnd), hi)
    ensures h0.From(BootKernel(info, kernelStart, kernelEnd))
    ensures Initialised(BootKernel(info, kernelStart, kernelEnd), h0.Last()) && AllAnswered(h0, rs, server.h)
  {
    ghost var k0 := BootKernel(info, kernelStart, kernelEnd);
    BootIsFresh(info, kernelStart, kernelEnd);
    var mmu;
    mmu, h0 := Bring(info, kernelStart, kernelEnd);
    server := Open(mmu, wrapper, k0, h0, hi);
    server.ServeAll(rs, k0, hi);
  }

  method Open(mmu: PagingUnit, wrapper: U32, ghost k0: Kernel, ghost h: History, ghost hi: nat) returns (server: Server)
    requires Starts(k0, hi) && h.From(k0) && Initialised(k0, h.Last()) && mmu.Represents(h.Last())
    requires Available(k0.pmm) >= 2 && hi == PrefixEnd(Available(k0.pmm) - 1)
    ensures fresh(server) && fresh(server.calls.tasks) && server.calls.mmu == mmu && server.h == h
    ensures server.Valid(k0, hi)
  {
    ServingFromInit(k0, h, hi);
    var tasks := new TaskManager(mmu, wrapper);
    var calls := new MemoryCalls(tasks);
    server := new Server(calls, h);
  }
}
