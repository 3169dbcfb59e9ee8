/** Properties of whole runs of the scheduler. */
module SchedulerRuns {
  import opened Words
  import opened SchedulerModel

  // ---- Runs ----

  /** The state `scheduler_init` leaves: the boot context is current and dead, idle is queued. */
  function Init<T>(idle: T, idleTcb: Tcb, boot: T): Machine<T> {
    var bootTcb := Tcb(BOOTSTRAP_ID, IDLE_PRIORITY, 0, 0, Zombie, 0, 0);
    Machine(map[idle := idleTcb.(state := Ready), boot := bootTcb],
            seq(PRIORITIES, p => if p == idleTcb.priority then [idle] else []),
            boot, idle, boot, false, 0, 0, 0)
  }

  lemma InitInv<T>(idle: T, idleTcb: Tcb, boot: T)
    requires idle != boot && idleTcb.priority == IDLE_PRIORITY
    ensures Inv(Init(idle, idleTcb, boot))
  {
    var m := Init(idle, idleTcb, boot);
    forall p | 0 <= p < PRIORITIES ensures QueueSound(m.tasks, m.ready[p], p) {}
    assert idle in m.ready[0];
    forall t | t in m.tasks ensures Accounted(m, t) {}
  }

  ghost predicate LegalRun<T>(m: Machine<T>, es: seq<Event<T>>)
    requires Inv(m)
    decreases |es|
  {
    es == [] || (Legal(m, es[0]) && (StepKeeps(m, es[0]); LegalRun(Step(m, es[0]), es[1..])))
  }

  ghost function Run<T>(m: Machine<T>, es: seq<Event<T>>): (m': Machine<T>)
    requires Inv(m) && LegalRun(m, es)
    ensures Inv(m') && m'.idle == m.idle && m'.boot == m.boot
    decreases |es|
  {
    if es == [] then m else StepKeeps(m, es[0]); Run(Step(m, es[0]), es[1..])
  }

  /** A prefix of a legal run is one, and starts with the same step. */
  lemma {:induction false} Prefix<T>(m: Machine<T>, es: seq<Event<T>>, k: nat)
    requires Inv(m) && LegalRun(m, es) && k <= |es|
    ensures LegalRun(m, es[..k])
    decreases k
  {
    if k > 0 {
      StepKeeps(m, es[0]);
      assert es[..k][1..] == es[1..][..k - 1];
      Prefix(Step(m, es[0]), es[1..], k - 1);
    }
  }

  // ---- No task is lost or duplicated ----

  /** Every place where a task is queued. */
  ghost function Places<T>(m: Machine<T>, t: T): set<(nat, nat)>
    requires |m.ready| == PRIORITIES
  {
    set p: nat, i: nat | p < PRIORITIES && i < |m.ready[p]| && m.ready[p][i] == t :: (p, i)
  }

  lemma PlacesOfReady<T>(m: Machine<T>, t: T)
    requires Inv(m) && t in m.tasks && m.tasks[t].state == Ready
    ensures exists i: nat :: Places(m, t) == {(m.tasks[t].priority, i)}
  {
    var p: nat := m.tasks[t].priority;
    assert Accounted(m, t);
    var i: nat :| i < |m.ready[p]| && m.ready[p][i] == t;
    assert QueueSound(m.tasks, m.ready[p], p);
    forall q: nat, j: nat | q < PRIORITIES && j < |m.ready[q]| && m.ready[q][j] == t
      ensures q == p && j == i
    {
      assert QueueSound(m.tasks, m.ready[q], q);
      assert m.ready[q][j] in m.ready[q];
    }
    assert Places(m, t) == {(p, i)};
  }

  lemma PlacesOfOther<T>(m: Machine<T>, t: T)
    requires Inv(m) && t in m.tasks && m.tasks[t].state != Ready
    ensures Places(m, t) == {}
  {
    forall q: nat, j: nat | q < PRIORITIES && j < |m.ready[q]| ensures m.ready[q][j] != t {
      assert QueueSound(m.tasks, m.ready[q], q);
      assert m.ready[q][j] in m.ready[q];
    }
  }

  /** In every reachable state a task is exactly one of: current and RUNNING, queued in exactly
      one place and READY, or a ZOMBIE that is in no queue. */
  lemma NoTaskLost<T>(m: Machine<T>, es: seq<Event<T>>, t: T)
    requires Inv(m) && LegalRun(m, es) && t in Run(m, es).tasks
    ensures var m' := Run(m, es);
      || (m'.tasks[t].state == Running && t == m'.current && Places(m', t) == {})
      || (m'.tasks[t].state == Ready && t != m'.current && |Places(m', t)| == 1)
      || (m'.tasks[t].state == Zombie && Places(m', t) == {} && (t == m'.current ==> t == m'.boot))
  {
    var m' := Run(m, es);
    assert Accounted(m', t);
    if m'.tasks[t].state == Ready {
      PlacesOfReady(m', t);
    } else {
      PlacesOfOther(m', t);
    }
  }

  /** A task stays known until it is destroyed, so what `NoTaskLost` says holds of it till then. */
  lemma {:induction false} KnownUntilDestroyed<T>(m: Machine<T>, es: seq<Event<T>>, t: T)
    requires Inv(m) && LegalRun(m, es) && t in m.tasks && Destroy(t) !in es
    ensures t in Run(m, es).tasks
    decreases |es|
  {
    if es != [] {
      StepKeeps(m, es[0]);
      KnownStep(m, es[0], t);
      KnownUntilDestroyed(Step(m, es[0]), es[1..], t);
    }
  }

  lemma KnownStep<T>(m: Machine<T>, e: Event<T>, t: T)
    requires Inv(m) && Legal(m, e) && t in m.tasks && e != Destroy(t)
    ensures t in Step(m, e).tasks
  {
    if !e.Create? && !e.Destroy? { StepHalves(m, e); }
  }

  /** Idle is always current or queued; so `scheduler_pick_next` finds a queued task whenever
      anything but a lone idle task asks to be rescheduled. */
  lemma FallbackUnreachable<T>(m: Machine<T>, es: seq<Event<T>>)
    requires Inv(m) && LegalRun(m, es)
    ensures var m' := Run(m, es);
      && (m'.current == m'.idle <==> Places(m', m'.idle) == {})
      && ((forall p :: 0 <= p < PRIORITIES ==> m'.ready[p] == []) ==> m'.current == m'.idle && !Preempts(m'))
  {
    var m' := Run(m, es);
    assert Accounted(m', m'.idle);
    if m'.tasks[m'.idle].state == Ready { PlacesOfReady(m', m'.idle); } else { PlacesOfOther(m', m'.idle); }
  }

  // ---- The dead stay dead ----

  lemma ZombieSchedule<T>(m: Machine<T>, t: T)
    requires Consistent(m) && t in m.tasks && m.tasks[t].state == Zombie
    ensures var m' := Schedule(m);
      t in m'.tasks && m'.tasks[t].state == Zombie && (t == m'.current ==> t == m.current)
  {
    PickIsOther(m);
  }

  lemma ZombieStep<T>(m: Machine<T>, e: Event<T>, t: T)
    requires Inv(m) && Legal(m, e) && t in m.tasks && m.tasks[t].state == Zombie && e != Destroy(t)
    ensures var m' := Step(m, e);
      t in m'.tasks && m'.tasks[t].state == Zombie && (t == m'.current ==> t == m.current)
  {
    if !e.Create? && !e.Destroy? {
      StepHalves(m, e);
      ZombieSchedule(Prepare(m, e), t);
    }
  }

  /** Until its control block is released, a ZOMBIE stays one: it is never queued, and never
      runs unless it is the boot context before the first switch. */
  lemma {:induction false} ZombieForever<T>(m: Machine<T>, es: seq<Event<T>>, t: T)
    requires Inv(m) && LegalRun(m, es) && t in m.tasks && m.tasks[t].state == Zombie
    requires Destroy(t) !in es
    ensures var m' := Run(m, es);
      && t in m'.tasks && m'.tasks[t].state == Zombie && Places(m', t) == {}
      && (t != m.current ==> t != m'.current)
    decreases |es|
  {
    if es == [] {
      PlacesOfOther(m, t);
    } else {
      StepKeeps(m, es[0]);
      ZombieStep(m, es[0], t);
      ZombieForever(Step(m, es[0]), es[1..], t);
    }
  }

  // ---- Who runs after a step ----

  /** No ready task outranks the running one. */
  ghost predicate TopRuns<T>(m: Machine<T>)
    requires Inv(m)
  {
    forall p :: m.tasks[m.current].priority < p < PRIORITIES ==> m.ready[p] == []
  }

  function RunningPriority<T>(m: Machine<T>): U8
    requires m.current in m.tasks
  {
    m.tasks[m.current].priority
  }

  /** `schedule` runs a task of the highest queued priority; whether it outranks everything
      left depends only on the task it put back. */
  lemma ScheduleTop<T>(m: Machine<T>)
    requires Consistent(m)
    ensures Inv(Schedule(m))
    ensures PickNext(m) != m.current ==> RunningPriority(Schedule(m)) == Highest(m.ready)
    ensures TopRuns(Schedule(m)) <==>
      m.tasks[m.current].state == Zombie || Highest(m.ready) >= RunningPriority(m)
  {
    ScheduleKeeps(m);
    PickIsOther(m);
    if PickNext(m) != m.current {
      SwitchTop(m);
      assert Accounted(m, m.current);
      assert Highest(m.ready) < RunningPriority(m) && m.tasks[m.current].state == Running ==>
        Schedule(m).ready[RunningPriority(m)] != [];
    }
  }

  /** Above the priority that was picked only the task that was put back is ready. */
  lemma SwitchTop<T>(m: Machine<T>)
    requires Consistent(m) && PickNext(m) != m.current
    ensures Inv(Schedule(m)) && RunningPriority(Schedule(m)) == Highest(m.ready)
    ensures forall p :: Highest(m.ready) < p < PRIORITIES ==>
      (Schedule(m).ready[p] != [] <==> p == RunningPriority(m) && m.tasks[m.current].state == Running)
  {
    ScheduleKeeps(m);
    PickIsOther(m);
    forall p | Highest(m.ready) < p < PRIORITIES
      ensures Schedule(m).ready[p] != [] <==> p == RunningPriority(m) && m.tasks[m.current].state == Running
    {
      QueueAfter(m, p);
    }
  }

  lemma {:induction false} RunSplit<T>(m: Machine<T>, es: seq<Event<T>>, fs: seq<Event<T>>)
    requires Inv(m) && LegalRun(m, es + fs)
    ensures LegalRun(m, es) && LegalRun(Run(m, es), fs) && Run(m, es + fs) == Run(Run(m, es), fs)
    decreases |es|
  {
    if es == [] {
      assert es + fs == fs;
    } else {
      assert (es + fs)[0] == es[0] && (es + fs)[1..] == es[1..] + fs;
      StepKeeps(m, es[0]);
      RunSplit(Step(m, es[0]), es[1..], fs);
    }
  }

  lemma TimerTop<T>(m: Machine<T>)
    requires Inv(m)
    ensures Inv(Step(m, Timer))
    ensures TopRuns(Step(m, Timer)) && RunningPriority(Step(m, Timer)) >= RunningPriority(m)
  {
    StepKeeps(m, Timer);
    StepHalves(m, Timer);
    if Preempts(m) {
      PickIsOther(Tick(m));
      ScheduleTop(Tick(m));
    }
  }

  /** After every timer interrupt the running task outranks every ready one, the interrupt
      never lowered the running priority, and the reschedule request is consumed. */
  lemma TimerRunsHighest<T>(m: Machine<T>, es: seq<Event<T>>)
    requires Inv(m) && LegalRun(m, es + [Timer])
    ensures LegalRun(m, es)
    ensures var a, b := Run(m, es), Run(m, es + [Timer]);
      TopRuns(b) && RunningPriority(b) >= RunningPriority(a) && !b.needResched
  {
    RunSplit(m, es, [Timer]);
    var a := Run(m, es);
    TimerTop(a);
    assert Run(a, [Timer]) == Run(Step(a, Timer), [Timer][1..]);
  }

  /** A voluntary yield can hand the CPU to a lower priority: exactly when the yielding task
      outranks everything queued. */
  lemma YieldTop<T>(m: Machine<T>)
    requires Inv(m)
    ensures Inv(Step(m, Yield))
    ensures TopRuns(Step(m, Yield)) <==> m.current == m.boot || Highest(m.ready) >= RunningPriority(m)
  {
    ScheduleTop(m);
  }

  /** A run of the code in which a yield hands the CPU to a lower priority: from `scheduler_init`,
      create any thread above the idle priority, let it run, and let it yield. */
  lemma YieldMayLower<T>(idle: T, idleTcb: Tcb, boot: T, t: T, tcb: Tcb)
    requires idle != boot && t != idle && t != boot
    requires idleTcb.priority == IDLE_PRIORITY && tcb.priority > IDLE_PRIORITY && tcb.state == Ready
    ensures Inv(Init(idle, idleTcb, boot)) && LegalRun(Init(idle, idleTcb, boot), [Create(t, tcb), Yield, Yield])
    ensures !TopRuns(Run(Init(idle, idleTcb, boot), [Create(t, tcb), Yield, Yield]))
  {
    var m0 := Init(idle, idleTcb, boot);
    InitInv(idle, idleTcb, boot);
    var m1 := Step(m0, Create(t, tcb));
    StepKeeps(m0, Create(t, tcb));
    FirstYield(m0, m1, t, tcb);
    var m2 := Step(m1, Yield);
    StepKeeps(m1, Yield);
    SecondYield(m2, t);
    var m3 := Step(m2, Yield);
    StepKeeps(m2, Yield);
    RunCons(m2, Yield, []);
    RunCons(m1, Yield, [Yield] + []);
    RunCons(m0, Create(t, tcb), [Yield] + ([Yield] + []));
    assert [Create(t, tcb)] + ([Yield] + ([Yield] + [])) == [Create(t, tcb), Yield, Yield];
  }

  lemma RunCons<T>(m: Machine<T>, e: Event<T>, es: seq<Event<T>>)
    requires Inv(m) && Legal(m, e) && Inv(Step(m, e)) && LegalRun(Step(m, e), es)
    ensures LegalRun(m, [e] + es) && Run(m, [e] + es) == Run(Step(m, e), es)
  {
    assert ([e] + es)[1..] == es;
  }

  /** The boot context gives way to the new thread. */
  lemma FirstYield<T>(m0: Machine<T>, m1: Machine<T>, t: T, tcb: Tcb)
    requires Inv(m0) && Inv(m1) && Legal(m0, Create(t, tcb)) && m1 == Step(m0, Create(t, tcb))
    requires m0.current == m0.boot && tcb.priority > IDLE_PRIORITY
    requires forall p :: 0 < p < PRIORITIES ==> m0.ready[p] == []
    ensures Inv(Step(m1, Yield)) && Step(m1, Yield).current == t
    ensures RunningPriority(Step(m1, Yield)) == tcb.priority
    ensures forall p :: 0 < p < PRIORITIES ==> Step(m1, Yield).ready[p] == []
  {
    StepKeeps(m1, Yield);
    assert m1.ready[tcb.priority] == [t];
    assert forall k :: tcb.priority < k < PRIORITIES ==> m1.ready[k] == m0.ready[k];
    PickIsOther(m1);
    forall p | 0 < p < PRIORITIES ensures Step(m1, Yield).ready[p] == [] { QueueAfter(m1, p); }
  }

  /** A thread that runs alone above idle gives way to idle. */
  lemma SecondYield<T>(m: Machine<T>, t: T)
    requires Inv(m) && m.current == t && t != m.boot && RunningPriority(m) > IDLE_PRIORITY
    requires forall p :: 0 < p < PRIORITIES ==> m.ready[p] == []
    ensures Inv(Step(m, Yield)) && !TopRuns(Step(m, Yield))
  {
    assert Highest(m.ready) == 0;
    YieldTop(m);
  }

  /** An exit always leaves the highest-priority ready task running. */
  lemma ExitTop<T>(m: Machine<T>, code: int)
    requires Inv(m) && Legal(m, Exit(code))
    ensures Inv(Step(m, Exit(code))) && TopRuns(Step(m, Exit(code)))
  {
    MarkExitKeeps(m, code);
    ScheduleTop(MarkExit(m, code));
  }

  // ---- Kernel stack pointer ----

  predicate Stacked<T>(e: Event<T>) { e.Create? ==> e.tcb.HasStack() }

  /** TSS.esp0 is the top of the running task's kernel stack, from the first switch on. */
  ghost predicate Esp0Tracks<T>(m: Machine<T>)
    requires Inv(m)
  {
    && (forall t :: t in m.tasks && t != m.boot ==> m.tasks[t].HasStack())
    && (m.current != m.boot ==> m.esp0 == m.tasks[m.current].StackTop())
  }

  lemma Esp0Schedule<T>(m: Machine<T>)
    requires Consistent(m) && forall t :: t in m.tasks && t != m.boot ==> m.tasks[t].HasStack()
    requires m.current != m.boot ==> m.esp0 == m.tasks[m.current].StackTop()
    ensures Inv(Schedule(m)) && Esp0Tracks(Schedule(m))
  {
    ScheduleKeeps(m);
    PickIsOther(m);
  }

  lemma Esp0Step<T>(m: Machine<T>, e: Event<T>)
    requires Inv(m) && Legal(m, e) && Esp0Tracks(m) && Stacked(e)
    ensures Inv(Step(m, e)) && Esp0Tracks(Step(m, e))
  {
    StepKeeps(m, e);
    if !e.Create? && !e.Destroy? {
      StepHalves(m, e);
      Esp0Schedule(Prepare(m, e));
    }
  }

  lemma {:induction false} Esp0AlongRun<T>(m: Machine<T>, es: seq<Event<T>>)
    requires Inv(m) && LegalRun(m, es) && Esp0Tracks(m)
    requires forall e :: e in es ==> Stacked(e)
    ensures Esp0Tracks(Run(m, es))
    decreases |es|
  {
    if es != [] {
      Esp0Step(m, es[0]);
      Esp0AlongRun(Step(m, es[0]), es[1..]);
    }
  }

  // ---- Bounded wait ----

  /** Task `t` is at position `i` of queue `p`, nothing above `p` is ready and the running task
      does not outrank it. */
  ghost predicate Waits<T>(m: Machine<T>, t: T, p: nat, i: nat) {
    && Inv(m)
    && p < PRIORITIES && i < |m.ready[p]| && m.ready[p][i] == t
    && m.tasks[m.current].priority <= p
    && forall q :: p < q < PRIORITIES ==> m.ready[q] == []
  }

  predicate AtMost<T>(e: Event<T>, p: nat) { e.Create? ==> e.tcb.priority <= p }

  lemma WaitSchedule<T>(m: Machine<T>, t: T, p: nat, i: nat)
    requires Consistent(m) && p < PRIORITIES && i < |m.ready[p]| && m.ready[p][i] == t
    requires m.tasks[m.current].priority <= p && forall q :: p < q < PRIORITIES ==> m.ready[q] == []
    ensures if i == 0 then Schedule(m).current == t else Waits(Schedule(m), t, p, i - 1)
  {
    assert Highest(m.ready) == p;
    PickIsOther(m);
    ScheduleKeeps(m);
    QueueAfter(m, p);
    forall q | p < q < PRIORITIES ensures Schedule(m).ready[q] == [] { QueueAfter(m, q); }
  }

  /** Every event that reschedules, and every timer interrupt does, moves the task one place on. */
  lemma WaitStep<T>(m: Machine<T>, e: Event<T>, t: T, p: nat, i: nat)
    requires Waits(m, t, p, i) && Legal(m, e) && AtMost(e, p)
    ensures e == Timer ==> Reschedules(m, e)
    ensures if Reschedules(m, e)
            then (if i == 0 then Step(m, e).current == t else Waits(Step(m, e), t, p, i - 1))
            else Waits(Step(m, e), t, p, i)
  {
    StepKeeps(m, e);
    assert Highest(m.ready) == p;
    if !e.Create? && !e.Destroy? {
      StepHalves(m, e);
      if Reschedules(m, e) { WaitSchedule(Prepare(m, e), t, p, i); }
    }
  }

  function Timers<T(==)>(es: seq<Event<T>>): nat {
    if es == [] then 0 else (if es[0] == Timer then 1 else 0) + Timers(es[1..])
  }

  /** The first step of a prefix, and the rest of it. */
  lemma PrefixStep<T>(m: Machine<T>, es: seq<Event<T>>, j: nat)
    requires Inv(m) && LegalRun(m, es) && j < |es|
    ensures Legal(m, es[0]) && Inv(Step(m, es[0]))
    ensures LegalRun(m, es[..j + 1]) && LegalRun(Step(m, es[0]), es[1..][..j])
    ensures Run(m, es[..j + 1]) == Run(Step(m, es[0]), es[1..][..j])
    ensures Timers(es[..j + 1]) == Timers(es[1..][..j]) + if es[0] == Timer then 1 else 0
  {
    StepKeeps(m, es[0]);
    Prefix(m, es, j + 1);
    Prefix(Step(m, es[0]), es[1..], j);
    assert es[..j + 1][1..] == es[1..][..j];
  }

  /** Bounded wait: with nothing above `p` becoming ready, a task at position `i` of queue `p` is
      running after at most `i + 1` timer interrupts, whatever else is interleaved. */
  lemma {:induction false} BoundedWait<T>(m: Machine<T>, es: seq<Event<T>>, t: T, p: nat, i: nat) returns (k: nat)
    requires Waits(m, t, p, i) && LegalRun(m, es)
    requires forall e :: e in es ==> AtMost(e, p)
    requires Timers(es) >= i + 1
    ensures 0 < k <= |es| && LegalRun(m, es[..k])
    ensures Run(m, es[..k]).current == t && Timers(es[..k]) <= i + 1
    decreases |es|
  {
    var e := es[0];
    WaitStep(m, e, t, p, i);
    StepKeeps(m, e);
    var m' := Step(m, e);
    if Reschedules(m, e) && i == 0 {
      k := 1;
      PrefixStep(m, es, 0);
    } else {
      var j := BoundedWait(m', es[1..], t, p, if Reschedules(m, e) then i - 1 else i);
      k := j + 1;
      PrefixStep(m, es, j);
    }
  }
}
