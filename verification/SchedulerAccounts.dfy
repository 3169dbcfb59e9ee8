/** What the scheduler records, and what callers get to see of it: exit codes, ticks, context
    switches, the kernel stack pointer, and the system calls by their numbers. */
module SchedulerAccounts {
  import opened Words
  import opened SchedulerModel
  import opened SchedulerRuns

  // ---- System calls by number ----

  /** 1 exits with the argument as its code, 2 yields, and every other number leaves the scheduler as
      it is. */
  lemma SyscallNumbers<T>(m: Machine<T>, num: U32, arg0: int)
    requires Inv(m) && Legal(m, Syscall(num, arg0))
    ensures num == 1 ==> Legal(m, Exit(arg0)) && Step(m, Syscall(num, arg0)) == Step(m, Exit(arg0))
    ensures num == 2 ==> Step(m, Syscall(num, arg0)) == Step(m, Yield)
    ensures num != 1 && num != 2 ==> Step(m, Syscall(num, arg0)) == m
  {
  }

  /** Exits are not legal for idle, by whichever door. */
  lemma SyscallLegal<T>(m: Machine<T>, num: U32, arg0: int)
    requires Inv(m)
    ensures Legal(m, Syscall(num, arg0)) <==> (num == 1 ==> m.current != m.idle)
  {
  }

  /** Creating adds exactly that control block and queues it last; releasing removes exactly one; an
      interrupt other than the timer's changes nothing. */
  lemma OtherSteps<T>(m: Machine<T>, e: Event<T>)
    requires Inv(m) && Legal(m, e)
    ensures e.Create? ==> Step(m, e) == m.(tasks := m.tasks[e.task := e.tcb], ready := Step(m, e).ready)
    ensures e.Create? ==> Step(m, e).ready[e.tcb.priority] == m.ready[e.tcb.priority] + [e.task]
    ensures e.Create? ==> forall p :: 0 <= p < PRIORITIES && p != e.tcb.priority ==> Step(m, e).ready[p] == m.ready[p]
    ensures e.Destroy? ==> Step(m, e) == m.(tasks := m.tasks - {e.task})
    ensures e.OtherIrq? ==> Step(m, e) == m
  {
  }

  // ---- Exit codes ----

  /** An exit stores the code, and another task runs. */
  lemma ExitStores<T>(m: Machine<T>, code: int)
    requires Inv(m) && Legal(m, Exit(code))
    ensures var m' := Step(m, Exit(code));
      && Inv(m') && m.current in m'.tasks && m'.current != m.current
      && m'.tasks[m.current] == m.tasks[m.current].(state := Zombie, exitCode := code)
  {
    StepKeeps(m, Exit(code));
    MarkExitKeeps(m, code);
    PickIsOther(MarkExit(m, code));
  }

  lemma DeadStep<T>(m: Machine<T>, e: Event<T>, t: T)
    requires Inv(m) && Legal(m, e) && t in m.tasks && m.tasks[t].state == Zombie && t != m.current && e != Destroy(t)
    ensures Inv(Step(m, e)) && t in Step(m, e).tasks && Step(m, e).tasks[t] == m.tasks[t] && t != Step(m, e).current
  {
    StepKeeps(m, e);
    ZombieStep(m, e, t);
    if !e.Create? && !e.Destroy? {
      StepHalves(m, e);
      PickIsOther(Prepare(m, e));
    }
  }

  /** The control block of a task that is dead and gone from the CPU does not change until it is
      released. */
  lemma {:induction false} DeadUnchanged<T>(m: Machine<T>, es: seq<Event<T>>, t: T)
    requires Inv(m) && LegalRun(m, es) && t in m.tasks && m.tasks[t].state == Zombie && t != m.current
    requires Destroy(t) !in es
    ensures t in Run(m, es).tasks && Run(m, es).tasks[t] == m.tasks[t]
    decreases |es|
  {
    if es != [] {
      DeadStep(m, es[0], t);
      DeadUnchanged(Step(m, es[0]), es[1..], t);
    }
  }

  /** So the code a task exits with can be read from its control block, whatever happens in between,
      until the block is released. */
  lemma ExitCodeLasts<T>(m: Machine<T>, code: int, es: seq<Event<T>>)
    requires Inv(m) && LegalRun(m, [Exit(code)] + es) && Destroy(m.current) !in es
    ensures m.current in Run(m, [Exit(code)] + es).tasks
    ensures Run(m, [Exit(code)] + es).tasks[m.current].exitCode == code
  {
    assert ([Exit(code)] + es)[1..] == es;
    ExitStores(m, code);
    DeadUnchanged(Step(m, Exit(code)), es, m.current);
  }

  // ---- Counters ----

  /** Ticks, switches and running time after one step. */
  lemma CountStep<T>(m: Machine<T>, e: Event<T>)
    requires Inv(m) && Legal(m, e)
    ensures Inv(Step(m, e))
    ensures Step(m, e).ticks == if e == Timer then Inc64(m.ticks) else m.ticks
    ensures Step(m, e).switches == if Step(m, e).current != m.current then Inc64(m.switches) else m.switches
  {
    StepKeeps(m, e);
    if !e.Create? && !e.Destroy? {
      StepHalves(m, e);
      PickIsOther(Prepare(m, e));
    }
  }

  lemma ChargeStep<T>(m: Machine<T>, e: Event<T>, t: T)
    requires Inv(m) && Legal(m, e) && t in m.tasks && e != Destroy(t)
    ensures Inv(Step(m, e)) && t in Step(m, e).tasks
    ensures Step(m, e).tasks[t].cpuTicks ==
      if e == Timer && t == m.current then Inc64(m.tasks[t].cpuTicks) else m.tasks[t].cpuTicks
  {
    StepKeeps(m, e);
    if !e.Create? && !e.Destroy? {
      StepHalves(m, e);
      SwitchKeepsTime(Prepare(m, e), t);
    }
  }

  lemma SwitchKeepsTime<T>(m: Machine<T>, t: T)
    requires Consistent(m) && t in m.tasks
    ensures t in Schedule(m).tasks && Schedule(m).tasks[t].cpuTicks == m.tasks[t].cpuTicks
  {
    PickIsOther(m);
  }

  /** How often the running task changed. */
  ghost function Changes<T>(m: Machine<T>, es: seq<Event<T>>): nat
    requires Inv(m) && LegalRun(m, es)
    decreases |es|
  {
    if es == [] then 0
    else
      StepKeeps(m, es[0]);
      (if Step(m, es[0]).current != m.current then 1 else 0) + Changes(Step(m, es[0]), es[1..])
  }

  /** How many timer interrupts found `t` running. */
  ghost function Found<T>(m: Machine<T>, es: seq<Event<T>>, t: T): nat
    requires Inv(m) && LegalRun(m, es)
    decreases |es|
  {
    if es == [] then 0
    else
      StepKeeps(m, es[0]);
      (if es[0] == Timer && m.current == t then 1 else 0) + Found(Step(m, es[0]), es[1..], t)
  }

  /** Over every run the tick count grows by the number of timer interrupts, modulo 2^64, ... */
  lemma {:induction false} TicksAlongRun<T>(m: Machine<T>, es: seq<Event<T>>)
    requires Inv(m) && LegalRun(m, es)
    ensures Run(m, es).ticks == Wrap64(m.ticks + Timers(es))
    decreases |es|
  {
    if es != [] {
      var m' := Step(m, es[0]);
      CountStep(m, es[0]);
      TicksAlongRun(m', es[1..]);
      assert Run(m, es) == Run(m', es[1..]);
      CountOn(m.ticks, m'.ticks, es[0] == Timer, Timers(es[1..]));
    }
  }

  /** ... the switch count by the number of changes of the running task, ... */
  lemma {:induction false} SwitchesAlongRun<T>(m: Machine<T>, es: seq<Event<T>>)
    requires Inv(m) && LegalRun(m, es)
    ensures Run(m, es).switches == Wrap64(m.switches + Changes(m, es))
    decreases |es|
  {
    if es != [] {
      var m' := Step(m, es[0]);
      CountStep(m, es[0]);
      SwitchesAlongRun(m', es[1..]);
      CountOn(m.switches, m'.switches, m'.current != m.current, Changes(m', es[1..]));
    }
  }

  /** ... and a task's running time by the number of timer interrupts that found it running. */
  lemma {:induction false} ChargedAlongRun<T>(m: Machine<T>, es: seq<Event<T>>, t: T)
    requires Inv(m) && LegalRun(m, es) && t in m.tasks && Destroy(t) !in es
    ensures t in Run(m, es).tasks
    ensures Run(m, es).tasks[t].cpuTicks == Wrap64(m.tasks[t].cpuTicks + Found(m, es, t))
    decreases |es|
  {
    if es != [] {
      var m' := Step(m, es[0]);
      ChargeStep(m, es[0], t);
      ChargedAlongRun(m', es[1..], t);
      IncThenAdd(m.tasks[t].cpuTicks, Found(m', es[1..], t));
    }
  }

  // ---- The kernel stack pointer ----

  /** From the first switch on, in every run, TSS.esp0 is the address just past the running task's
      kernel stack. */
  lemma Esp0IsTop<T>(m: Machine<T>, es: seq<Event<T>>)
    requires Inv(m) && LegalRun(m, es) && Esp0Tracks(m)
    requires forall e :: e in es ==> Stacked(e)
    ensures var m' := Run(m, es);
      m'.current != m'.boot ==>
        var cur := m'.tasks[m'.current];
        var top := cur.stack + cur.stackSize;
        m'.esp0 == if top < 0x1_0000_0000 then top else top - 0x1_0000_0000
  {
    Esp0AlongRun(m, es);
  }

  /** A switch loads it from the task it switches to, if that has a stack, and else leaves it. */
  lemma Esp0AfterSwitch<T>(m: Machine<T>)
    requires Consistent(m) && PickNext(m) != m.current
    ensures PickNext(m) in m.tasks
    ensures var next := m.tasks[PickNext(m)];
      var top := next.stack + next.stackSize;
      Schedule(m).esp0 ==
        if next.stack == 0 || next.stackSize == 0 then m.esp0
        else if top < 0x1_0000_0000 then top else top - 0x1_0000_0000
  {
    PickIsOther(m);
  }

  /** Where `scheduler_init` starts: only idle is queued, READY; the boot context has the id 0xFFFFFFFF,
      the lowest priority, no stack, and is dead; every counter is 0. */
  lemma InitIs<T>(idle: T, idleTcb: Tcb, boot: T)
    requires idle != boot && idleTcb.priority == 0
    ensures var m := Init(idle, idleTcb, boot);
      && m.tasks == map[idle := idleTcb.(state := Ready), boot := Tcb(0xFFFF_FFFF, 0, 0, 0, Zombie, 0, 0)]
      && m.current == boot && m.idle == idle && m.boot == boot && !m.needResched
      && m.esp0 == 0 && m.switches == 0 && m.ticks == 0
      && |m.ready| == 256 && m.ready[0] == [idle] && forall p :: 0 < p < 256 ==> m.ready[p] == []
  {
  }
}
