/** Creation and destruction of kernel threads: the frames they take, the words on a new stack and
    the control block the scheduler is handed. */
module TaskMemory {
  import opened Words
  import opened SchedulerModel
  import opened KernelScheduler
  import opened FrameModel
  import opened Paging
  import opened SpaceModel
  import opened Mmu
  import opened KernelMemory

  const STACK_SIZE: U32 := 4096

  /** The registers a thread starts with. */
  datatype Context = Context(esp: U32, ebp: U32, eip: U32, cs: U32, data: U32, eflags: U32)

  class TaskManager {
    const mmu: PagingUnit
    const wrapper: U32       // address of `task_wrapper`
    var nextTaskId: U32

    constructor (mmu: PagingUnit, wrapper: U32)
      ensures this.mmu == mmu && this.wrapper == wrapper && nextTaskId == 1
    {
      this.mmu, this.wrapper, nextTaskId := mmu, wrapper, 1;
    }

    /** The word of physical memory at an aligned address. */
    ghost function WordAt(a: U32): U32
      requires mmu.Valid()
      reads mmu.words
    {
      mmu.words[a / 0x1000, a % 0x1000 / 4]
    }

    /** What `task_wrapper` finds when it starts at `esp`: a null return address and, as its
        argument, a pointer to the entry point and its argument. */
    ghost predicate Starts(esp: U32, entry: U32, arg: U32)
      requires mmu.Valid() && esp + 12 < 0x1_0000_0000
      reads mmu.words
    {
      WordAt(esp) == 0 && WordAt(esp + 4) == esp + 8 && WordAt(esp + 8) == entry && WordAt(esp + 12) == arg
    }

    /** Lays out the top of a stack in frame `f`; the address space is not disturbed. */
    method PushFrame(f: nat, entry: U32, arg: U32, ghost space: Option<Space>) returns (esp: U32)
      requires mmu.Valid() && f < MAX_FRAMES && mmu.Steady(f)
      requires space.Some? ==> mmu.Shows(space.value) && f !in Frames(space.value)
      modifies mmu.words
      ensures space.Some? ==> mmu.Shows(space.value)
      ensures esp == f * 0x1000 + 0xff0 && Starts(esp, entry, arg)
    {
      mmu.WriteWord(f, 1022, entry, space);
      mmu.WriteWord(f, 1023, arg, space);
      mmu.WriteWord(f, 1021, f * 0x1000 + 0xff8, space);
      mmu.WriteWord(f, 1020, 0, space);
      esp := f * 0x1000 + 0xff0;
    }

    /** The two allocations, the second undone by giving the first back. */
    method TakeFrames(ghost s: Pmm) returns (page: U32, stack: U32, ghost s': Pmm, ghost r: Option<Thread>)
      requires mmu.alloc.Shows(s)
      modifies `nextTaskId, mmu.alloc`freeFrames, mmu.alloc.bitmap
      ensures mmu.alloc.Shows(s') && (stack == 0 <==> r.None?)
      ensures if mmu.alloc.initialized then Spawns(s, s', r) else s' == s && r.None?
      ensures nextTaskId == if page == 0 then old(nextTaskId) else Add32(old(nextTaskId), 1)
      ensures r.Some? ==> page == r.value.control * FRAME_SIZE && stack == r.value.stack * FRAME_SIZE
    {
      stack, r := 0, None;
      page, s' := mmu.alloc.AllocPage(s);
      if page == 0 {
        return;
      }
      ghost var s1 := s';
      nextTaskId := Add32(nextTaskId, 1);
      stack, s' := mmu.alloc.AllocPage(s1);
      if stack == 0 {
        mmu.alloc.FreePage(page, s');
        assert SpawnsStack(s1, page / FRAME_SIZE, Release(s', page / FRAME_SIZE), None);
        s' := Release(s', page / FRAME_SIZE);
        return;
      }
      r := Some(Thread(page / FRAME_SIZE, stack / FRAME_SIZE));
      assert SpawnsStack(s1, page / FRAME_SIZE, s', r);
    }

    /** `task_create_kernel_thread`: refused without an entry point or with another stack size;
        otherwise one frame for the control block and one for the stack, or neither (an id is used
        up as soon as there is a control block). The new thread is READY, in no queue, with its
        stack in the second frame, ready to call the entry point with its argument; with paging on
        that frame has to be reachable. `page` is the control block's address. */
    method CreateKernelThread(entry: U32, arg: U32, priority: U8, stackSize: U32,
                              ghost s: Pmm, ghost space: Option<Space>)
      returns (task: Task?, page: U32, context: Context, ghost s': Pmm, ghost r: Option<Thread>)
      requires mmu.Valid() && mmu.alloc.Shows(s) && InRange(s.free)
      requires space.Some? ==> mmu.Shows(space.value) && Holds(s, space.value)
      requires forall s', r :: Spawns(s, s', r) && r.Some? ==> mmu.Steady(r.value.stack)
      modifies `nextTaskId, mmu.words, mmu.alloc`freeFrames, mmu.alloc.bitmap
      ensures mmu.alloc.Shows(s') && (task == null <==> r.None?)
      ensures space.Some? ==> mmu.Shows(space.value)
      ensures if entry != 0 && stackSize == 4096 && mmu.alloc.initialized then Spawns(s, s', r)
              else s' == s && r.None?
      ensures nextTaskId == if page == 0 then old(nextTaskId) else Add32(old(nextTaskId), 1)
      ensures r.Some? ==>
        && fresh(task) && page == r.value.control * FRAME_SIZE
        && task.Block() == Tcb(old(nextTaskId), priority, r.value.stack * FRAME_SIZE, 4096, Ready, 0, 0)
        && task.next == null && task.prev == null
        && context == Context(r.value.stack * FRAME_SIZE + 0xff0, context.esp, wrapper, 0x08, 0x10, 0x202)
        && Starts(context.esp, entry, arg)
        && task.kernelStack + task.kernelStackSize == context.esp + 16
    {
      task, page, s', r := null, 0, s, None;
      context := Context(0, 0, 0, 0, 0, 0);
      if entry == 0 {
        return;
      }
      if stackSize != STACK_SIZE {
        return;
      }
      var id, stack := nextTaskId, 0;
      page, stack, s', r := TakeFrames(s);
      if stack == 0 {
        return;
      }
      StackIsFree(s, s', r);
      var esp := PushFrame(stack / FRAME_SIZE, entry, arg, space);
      context := Context(esp, esp, wrapper, 0x08, 0x10, 0x202);
      task := new Task(id, priority, stack, stackSize, Ready);
    }

    /** `task_destroy` of a task that is in no queue and not running. */
    method DestroyTask(task: Task?, page: U32, ghost s: Pmm)
      requires mmu.alloc.Shows(s)
      modifies mmu.alloc`freeFrames, mmu.alloc.bitmap
      ensures mmu.alloc.Shows(
        if task == null then s
        else if task.kernelStack == 0 then Release(s, page / FRAME_SIZE)
        else Reaped(s, Thread(page / FRAME_SIZE, task.kernelStack / FRAME_SIZE)))
    {
      if task == null {
        return;
      }
      if task.kernelStack != 0 {
        mmu.alloc.FreePage(task.kernelStack, s);
        mmu.alloc.FreePage(page, Release(s, task.kernelStack / FRAME_SIZE));
      } else {
        mmu.alloc.FreePage(page, s);
      }
    }
  }

  /** The control block has the lowest of the free frames, the stack the next. */
  lemma StackIsFree(s: Pmm, s': Pmm, r: Option<Thread>)
    requires Spawns(s, s', r) && r.Some? && InRange(s.free)
    ensures IsLowest(s.free, r.value.control) && IsLowest(s.free - {r.value.control}, r.value.stack)
    ensures s'.free == s.free - {r.value.control, r.value.stack} && s'.freeFrames == s.freeFrames - 2
  {
    var p: U32, s1: Pmm :| Allocates(s, p, s1) &&
      if p == 0 then s' == s1 && r == None else SpawnsStack(s1, p / FRAME_SIZE, s', r);
    assert s.free - {r.value.control} - {r.value.stack} == s.free - {r.value.control, r.value.stack};
  }
}
