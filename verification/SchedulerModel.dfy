/** The scheduler as a state machine over abstract queues.

    One step is one atomic kernel entry: interrupts are off inside `schedule`
    and interrupt gates keep them off inside an IRQ. `T` is the identity of a
    task (its address in the kernel). */
module SchedulerModel {
  import opened Words

  const PRIORITIES: nat := 256
  const IDLE_PRIORITY: U8 := 0
  const BOOTSTRAP_ID: U32 := 0xFFFF_FFFF

  datatype TaskState = Ready | Running | Blocked | Zombie

  /** The part of a task control block the scheduler works with. */
  datatype Tcb = Tcb(id: U32, priority: U8, stack: U32, stackSize: U32,
                     state: TaskState, exitCode: int, cpuTicks: U64)
  {
    predicate HasStack() { stack != 0 && stackSize > 0 }

    function StackTop(): U32 { Add32(stack, stackSize) }
  }

  datatype Machine<T> = Machine(
    tasks: map<T, Tcb>,     // every live task control block
    ready: seq<seq<T>>,     // one FIFO per priority
    current: T,
    idle: T,
    boot: T,                // the context that runs before the first switch
    needResched: bool,
    esp0: U32,              // TSS.esp0
    switches: U64,
    ticks: U64)

  datatype Event<T> =
    | Create(task: T, tcb: Tcb)  // create a thread and enqueue it
    | Destroy(task: T)           // release a dead task's control block
    | Yield
    | Exit(code: int)
    | Timer                      // timer interrupt
    | OtherIrq                   // any other interrupt
    | Syscall(num: U32, arg0: int)

  // ---- Queues ----

  function Append<T>(ready: seq<seq<T>>, p: nat, t: T): (r: seq<seq<T>>)
    requires p < |ready|
    ensures |r| == |ready|
  {
    ready[p := ready[p] + [t]]
  }

  /** Removes the first occurrence. */
  function Without<T(==)>(q: seq<T>, t: T): (r: seq<T>)
    ensures t !in q ==> r == q
  {
    if q == [] then [] else if q[0] == t then q[1..] else [q[0]] + Without(q[1..], t)
  }

  /** The largest index below `n` of a non-empty queue, 0 if there is none. */
  function HighestBelow<T>(ready: seq<seq<T>>, n: nat): (p: nat)
    requires n <= |ready|
    ensures n > 0 ==> p < n
    ensures forall k :: p < k < n ==> ready[k] == []
    ensures p > 0 ==> p < n && ready[p] != []
  {
    if n == 0 then 0
    else if ready[n - 1] != [] then n - 1
    else HighestBelow(ready, n - 1)
  }

  function Highest<T>(ready: seq<seq<T>>): (p: nat)
    requires |ready| == PRIORITIES
    ensures p < PRIORITIES
    ensures forall k :: p < k < PRIORITIES ==> ready[k] == []
    ensures (exists k :: 0 <= k < PRIORITIES && ready[k] != []) ==> ready[p] != []
  {
    HighestBelow(ready, PRIORITIES)
  }

  // ---- Steps ----

  /** The head of the highest non-empty queue, else idle. */
  function PickFrom<T>(ready: seq<seq<T>>, idle: T): T
    requires |ready| == PRIORITIES
  {
    var p := Highest(ready);
    if ready[p] == [] then idle else ready[p][0]
  }

  function PickNext<T>(m: Machine<T>): T
    requires |m.ready| == PRIORITIES
  {
    PickFrom(m.ready, m.idle)
  }

  /** Retires the running task, starts `next`. */
  function SwitchTo<T(==)>(m: Machine<T>, next: T): Machine<T>
    requires |m.ready| == PRIORITIES && m.current in m.tasks && next in m.tasks && next != m.current
  {
    var cur := m.tasks[m.current];
    var nxt := m.tasks[next];
    var cur' := if cur.state == Running then cur.(state := Ready) else cur;
    var ready1 := if cur'.state == Zombie
                  then m.ready[cur.priority := Without(m.ready[cur.priority], m.current)]
                  else m.ready;
    var ready2 := ready1[nxt.priority := Without(ready1[nxt.priority], next)];
    var ready3 := if cur'.state == Ready then Append(ready2, cur.priority, m.current) else ready2;
    m.(tasks := m.tasks[m.current := cur'][next := nxt.(state := Running)],
       ready := ready3,
       current := next,
       needResched := false,
       esp0 := if nxt.HasStack() then nxt.StackTop() else m.esp0,
       switches := Inc64(m.switches))
  }

  function Schedule<T(==)>(m: Machine<T>): Machine<T>
    requires |m.ready| == PRIORITIES && m.current in m.tasks && PickNext(m) in m.tasks
  {
    var next := PickNext(m);
    if next == m.current then m.(needResched := false) else SwitchTo(m, next)
  }

  /** Whether a timer tick asks for a reschedule. */
  predicate Preempts<T>(m: Machine<T>)
    requires |m.ready| == PRIORITIES && m.current in m.tasks
  {
    var p := m.tasks[m.current].priority;
    Highest(m.ready) > p || m.ready[p] != []
  }

  function Tick<T>(m: Machine<T>): Machine<T>
    requires |m.ready| == PRIORITIES && m.current in m.tasks
  {
    var cur := m.tasks[m.current];
    m.(ticks := Inc64(m.ticks),
       tasks := m.tasks[m.current := cur.(cpuTicks := Inc64(cur.cpuTicks))],
       needResched := m.needResched || Preempts(m))
  }

  /** The tail of `irq_handler`: reschedule if the flag is up. */
  function ReschedIfNeeded<T(==)>(m: Machine<T>): Machine<T>
    requires |m.ready| == PRIORITIES && m.current in m.tasks && PickNext(m) in m.tasks
  {
    if m.needResched then Schedule(m) else m
  }

  function MarkExit<T>(m: Machine<T>, code: int): Machine<T>
    requires m.current in m.tasks
  {
    m.(tasks := m.tasks[m.current := m.tasks[m.current].(state := Zombie, exitCode := code)])
  }

  datatype SyscallKind = ExitCall | YieldCall | GetPid | NoSys

  const SYS_EXIT: U32 := 1
  const SYS_YIELD: U32 := 2
  const SYS_GETPID: U32 := 3
  const SYS_SLEEP_US: U32 := 4
  const MAX_SYSCALLS: U32 := 256
  const ENOSYS: int := 38

  /** The dispatch table: unimplemented, reserved and out-of-range numbers, and the sleep stub, fail alike. */
  function Dispatch(num: U32): SyscallKind {
    if num == SYS_EXIT then ExitCall
    else if num == SYS_YIELD then YieldCall
    else if num == SYS_GETPID then GetPid
    else NoSys
  }

  // ---- Invariant ----

  ghost predicate Distinct<T>(q: seq<T>) {
    forall i, j :: 0 <= i < j < |q| ==> q[i] != q[j]
  }

  /** Queue `p` holds distinct READY tasks of priority `p`. */
  ghost predicate QueueSound<T>(tasks: map<T, Tcb>, q: seq<T>, p: nat) {
    && Distinct(q)
    && forall t :: t in q ==> t in tasks && tasks[t].priority == p && tasks[t].state == Ready
  }

  ghost predicate Shape<T>(m: Machine<T>) {
    && |m.ready| == PRIORITIES
    && m.current in m.tasks && m.idle in m.tasks && m.boot in m.tasks
    && forall p :: 0 <= p < PRIORITIES ==> QueueSound(m.tasks, m.ready[p], p)
  }

  /** A READY task is queued, only the current task is RUNNING, and nothing is BLOCKED. */
  ghost predicate Accounted<T>(m: Machine<T>, t: T)
    requires Shape(m) && t in m.tasks
  {
    match m.tasks[t].state
    case Ready => t in m.ready[m.tasks[t].priority]
    case Running => t == m.current
    case Blocked => false
    case Zombie => true
  }

  /** What queues, states and the running task have to do with one another. */
  ghost predicate Consistent<T>(m: Machine<T>) {
    && Shape(m)
    && (forall t :: t in m.tasks ==> Accounted(m, t))
    && m.tasks[m.current].state != Ready
    && m.tasks[m.boot].state == Zombie
    && m.tasks[m.idle].priority == IDLE_PRIORITY
    && m.tasks[m.idle].state != Zombie
  }

  /** What holds between steps. */
  ghost predicate Inv<T>(m: Machine<T>) {
    && Consistent(m)
    && !m.needResched
    && (m.tasks[m.current].state == Running || m.current == m.boot)
  }

  /** Which events can happen: a new task is not already known and is READY, only a dead
      unlinked task is released, and the idle loop never exits. */
  ghost predicate Legal<T>(m: Machine<T>, e: Event<T>)
    requires Inv(m)
  {
    match e
    case Create(t, tcb) => t !in m.tasks && tcb.state == Ready
    case Destroy(t) => t in m.tasks && m.tasks[t].state == Zombie && t != m.current && t != m.boot
    case Exit(_) => m.current != m.idle
    case Syscall(num, _) => Dispatch(num) == ExitCall ==> m.current != m.idle
    case _ => true
  }

  function Step<T(==)>(m: Machine<T>, e: Event<T>): Machine<T>
    requires Inv(m) && Legal(m, e)
  {
    PickInTasks(m);
    match e
    case Create(t, tcb) =>
      m.(tasks := m.tasks[t := tcb], ready := Append(m.ready, tcb.priority, t))
    case Destroy(t) => m.(tasks := m.tasks - {t})
    case Yield => Schedule(m)
    case Exit(code) => PickInTasks(MarkExit(m, code)); Schedule(MarkExit(m, code))
    case Timer => PickInTasks(Tick(m)); ReschedIfNeeded(Tick(m))
    case OtherIrq => ReschedIfNeeded(m)
    case Syscall(num, arg0) =>
      match Dispatch(num)
      case ExitCall => PickInTasks(MarkExit(m, arg0)); Schedule(MarkExit(m, arg0))
      case YieldCall => Schedule(m)
      case GetPid => m
      case NoSys => m
  }

  lemma PickInTasks<T>(m: Machine<T>)
    requires Shape(m)
    ensures PickNext(m) in m.tasks
  {
  }

  // ---- Every step keeps the invariant ----

  lemma WithoutHead<T>(q: seq<T>)
    requires q != []
    ensures Without(q, q[0]) == q[1..]
  {
  }

  /** The running task is never queued, so the picked task is another one unless the
      idle task is alone. */
  lemma PickIsOther<T>(m: Machine<T>)
    requires Consistent(m)
    ensures PickNext(m) == m.current ==> m.current == m.idle && forall p :: 0 <= p < PRIORITIES ==> m.ready[p] == []
    ensures PickNext(m) != m.current ==>
      && m.ready[Highest(m.ready)] != [] && PickNext(m) == m.ready[Highest(m.ready)][0]
      && m.tasks[PickNext(m)].priority == Highest(m.ready)
  {
    var h := Highest(m.ready);
    if m.ready[h] == [] {
      assert m.tasks[m.idle].state != Ready;
      assert m.tasks[m.idle].state == Running;
    } else {
      assert m.ready[h][0] in m.tasks && m.tasks[m.ready[h][0]].state == Ready;
    }
  }

  /** What `schedule` does, in terms of the queues. */
  lemma SwitchEffect<T>(m: Machine<T>)
    requires Consistent(m) && PickNext(m) != m.current
    ensures var h := Highest(m.ready);
            var m' := Schedule(m);
            var popped := m.ready[h := m.ready[h][1..]];
            var cp := m.tasks[m.current].priority;
            && m'.current == m.ready[h][0]
            && m'.ready == if m.tasks[m.current].state == Running then Append(popped, cp, m.current) else popped
  {
    PickIsOther(m);
    var h := Highest(m.ready);
    WithoutHead(m.ready[h]);
    var cp := m.tasks[m.current].priority;
    assert m.current !in m.ready[cp];
    assert m.ready[cp := m.ready[cp]] == m.ready;
  }

  /** The same, queue by queue. */
  lemma QueueAfter<T>(m: Machine<T>, p: nat)
    requires Consistent(m) && PickNext(m) != m.current && p < PRIORITIES
    ensures var m' := Schedule(m);
            && m'.tasks.Keys == m.tasks.Keys
            && |m'.ready| == PRIORITIES
            && m'.ready[p] == (if p == Highest(m.ready) then m.ready[p][1..] else m.ready[p])
                              + (if p == m.tasks[m.current].priority && m.tasks[m.current].state == Running
                                 then [m.current] else [])
  {
    SwitchEffect(m);
  }

  lemma QueueSoundAfter<T>(m: Machine<T>, p: nat)
    requires Consistent(m) && PickNext(m) != m.current && p < PRIORITIES
    ensures var m' := Schedule(m); |m'.ready| == PRIORITIES && QueueSound(m'.tasks, m'.ready[p], p)
  {
    PickIsOther(m);
    QueueAfter(m, p);
    assert QueueSound(m.tasks, m.ready[p], p);
    assert m.current !in m.ready[p];
  }

  lemma ShapeAfter<T>(m: Machine<T>)
    requires Consistent(m) && PickNext(m) != m.current
    ensures Shape(Schedule(m))
  {
    var m' := Schedule(m);
    QueueAfter(m, 0);
    forall p | 0 <= p < PRIORITIES ensures QueueSound(m'.tasks, m'.ready[p], p) { QueueSoundAfter(m, p); }
  }

  lemma AccountedAfter<T>(m: Machine<T>, t: T)
    requires Consistent(m) && PickNext(m) != m.current && t in m.tasks
    requires Shape(Schedule(m)) && t in Schedule(m).tasks
    ensures Accounted(Schedule(m), t)
  {
    PickIsOther(m);
    var p := m.tasks[t].priority;
    QueueAfter(m, p);
    assert Accounted(m, t);
    if t != m.current && t in m.ready[p] && p == Highest(m.ready) && t != m.ready[p][0] {
      var i :| 0 <= i < |m.ready[p]| && m.ready[p][i] == t;
      assert m.ready[p][1..][i - 1] == t;
    }
  }

  lemma ScheduleKeeps<T>(m: Machine<T>)
    requires Consistent(m)
    ensures Inv(Schedule(m))
  {
    PickIsOther(m);
    if PickNext(m) != m.current {
      ShapeAfter(m);
      QueueAfter(m, 0);
      forall t | t in Schedule(m).tasks ensures Accounted(Schedule(m), t) { AccountedAfter(m, t); }
    }
  }

  lemma MarkExitKeeps<T>(m: Machine<T>, code: int)
    requires Inv(m) && m.current != m.idle
    ensures Consistent(MarkExit(m, code))
  {
  }

  lemma TickKeeps<T>(m: Machine<T>)
    requires Inv(m)
    ensures Consistent(Tick(m)) && Tick(m).ready == m.ready
  {
  }

  lemma CreateKeeps<T>(m: Machine<T>, t: T, tcb: Tcb)
    requires Inv(m) && Legal(m, Create(t, tcb))
    ensures Inv(Step(m, Create(t, tcb)))
  {
    var m' := Step(m, Create(t, tcb));
    forall p | 0 <= p < PRIORITIES ensures QueueSound(m'.tasks, m'.ready[p], p) {
      assert QueueSound(m.tasks, m.ready[p], p);
      assert t !in m.ready[p];
    }
    forall x | x in m'.tasks ensures Accounted(m', x) {
      if x != t { assert Accounted(m, x); }
    }
  }

  /** Every legal step keeps the invariant. */
  lemma StepKeeps<T>(m: Machine<T>, e: Event<T>)
    requires Inv(m) && Legal(m, e)
    ensures Inv(Step(m, e))
  {
    match e
    case Create(t, tcb) => CreateKeeps(m, t, tcb);
    case Destroy(t) =>
    case Yield => ScheduleKeeps(m);
    case Exit(code) => MarkExitKeeps(m, code); ScheduleKeeps(MarkExit(m, code));
    case Timer => TickKeeps(m); ScheduleKeeps(Tick(m));
    case OtherIrq =>
    case Syscall(num, arg0) =>
      ScheduleKeeps(m);
      if Dispatch(num) == ExitCall { MarkExitKeeps(m, arg0); ScheduleKeeps(MarkExit(m, arg0)); }
  }

  // ---- The two halves of a step: bookkeeping, then perhaps `schedule` ----

  function Prepare<T>(m: Machine<T>, e: Event<T>): Machine<T>
    requires |m.ready| == PRIORITIES && m.current in m.tasks
  {
    match e
    case Exit(code) => MarkExit(m, code)
    case Timer => Tick(m)
    case Syscall(num, arg0) => if Dispatch(num) == ExitCall then MarkExit(m, arg0) else m
    case _ => m
  }

  predicate Reschedules<T>(m: Machine<T>, e: Event<T>)
    requires |m.ready| == PRIORITIES && m.current in m.tasks
  {
    match e
    case Yield => true
    case Exit(_) => true
    case Timer => Preempts(m)
    case Syscall(num, _) => Dispatch(num) == ExitCall || Dispatch(num) == YieldCall
    case _ => false
  }

  lemma StepHalves<T>(m: Machine<T>, e: Event<T>)
    requires Inv(m) && Legal(m, e) && !e.Create? && !e.Destroy?
    ensures var w := Prepare(m, e);
      && Consistent(w)
      && Step(m, e) == (if Reschedules(m, e) then Schedule(w) else w)
      && w == m.(tasks := w.tasks, ticks := w.ticks, needResched := w.needResched)
      && w.tasks == m.tasks[m.current := w.tasks[m.current]]
      && w.tasks[m.current] == m.tasks[m.current].(state := w.tasks[m.current].state,
           exitCode := w.tasks[m.current].exitCode, cpuTicks := w.tasks[m.current].cpuTicks)
      && (w.tasks[m.current].state == m.tasks[m.current].state || w.tasks[m.current].state == Zombie)
  {
    match e
    case Exit(code) => MarkExitKeeps(m, code);
    case Timer => TickKeeps(m);
    case Syscall(num, arg0) => if Dispatch(num) == ExitCall { MarkExitKeeps(m, arg0); }
    case _ =>
  }
}
