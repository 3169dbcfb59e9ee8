/** The scheduler object driven through whole runs, from `scheduler_init` on. */
module SchedulerEntry {
  import opened SchedulerModel
  import opened SchedulerRuns
  import opened KernelScheduler

  /** The tasks a run creates. */
  ghost function Made(es: seq<Event<Task>>): set<Task> {
    set i | 0 <= i < |es| && es[i].Create? :: es[i].task
  }

  /** An unlinked control block with this content. */
  ghost predicate Blank(t: Task, tcb: Tcb)
    reads t
  {
    t.Block() == tcb && t.next == null && t.prev == null
  }

  /** Each task the run creates is created once and is, until then, the block its event names. */
  ghost predicate Unborn(es: seq<Event<Task>>)
    reads Made(es)
  {
    && (forall i :: 0 <= i < |es| && es[i].Create? ==> Blank(es[i].task, es[i].tcb))
    && (forall i, j :: 0 <= i < j < |es| && es[i].Create? && es[j].Create? ==> es[i].task != es[j].task)
  }

  lemma UnbornTail(es: seq<Event<Task>>)
    requires es != [] && Unborn(es)
    ensures Unborn(es[1..]) && Made(es[1..]) <= Made(es)
    ensures es[0].Create? ==> es[0].task in Made(es) && es[0].task !in Made(es[1..])
  {
    forall t | t in Made(es[1..]) ensures t in Made(es) {
      var i :| 0 <= i < |es| - 1 && es[1..][i].Create? && es[1..][i].task == t;
      assert es[i + 1].task == t;
    }
  }

  /** One kernel entry is one step of the machine. */
  method Enter(s: Scheduler, ghost m: Machine<Task>, e: Event<Task>)
    requires s.Linked() && s.Shows(m) && Inv(m) && Legal(m, e)
    requires e.Create? ==> e.task !in s.known && Blank(e.task, e.tcb)
    modifies s, s.ready, s.bitmap, s.known, if e.Create? then {e.task} else {}
    ensures s.Linked() && s.Shows(Step(m, e))
    ensures s.known <= old(s.known) + if e.Create? then {e.task} else {}
  {
    match e
    case Create(t, tcb) => s.Admit(m, t);
    case Destroy(t) => s.Release(m, t);
    case _ => KernelEntry(s, m, e);
  }

  method KernelEntry(s: Scheduler, ghost m: Machine<Task>, e: Event<Task>)
    requires s.Linked() && s.Shows(m) && Inv(m) && Legal(m, e) && !e.Create? && !e.Destroy?
    modifies s, s.ready, s.bitmap, s.known
    ensures s.Linked() && s.Shows(Step(m, e)) && s.known == old(s.known)
  {
    SameTasks(m, e);
    match e
    case Yield => s.TaskYield(m);
    case Exit(code) => s.TaskExit(m, code);
    case Timer => s.IrqHandler(m, true);
    case OtherIrq => s.IrqHandler(m, false);
    case Syscall(num, arg0) => var _ := s.SyscallHandler(m, num, arg0);
  }

  lemma SameTasks(m: Machine<Task>, e: Event<Task>)
    requires Inv(m) && Legal(m, e) && !e.Create? && !e.Destroy?
    ensures Step(m, e).tasks.Keys == m.tasks.Keys
  {
    StepHalves(m, e);
    PickInTasks(Prepare(m, e));
  }

  /** Over every run the linked queues and the bitmap stay well formed and the fields are those of
      the machine. */
  method Drive(s: Scheduler, ghost m: Machine<Task>, es: seq<Event<Task>>)
    requires s.Linked() && s.Shows(m) && Inv(m) && LegalRun(m, es)
    requires Unborn(es) && Made(es) !! s.known
    modifies s, s.ready, s.bitmap, s.known, Made(es)
    ensures s.Linked() && s.Shows(Run(m, es))
    decreases |es|
  {
    if |es| > 0 {
      UnbornTail(es);
      StepKeeps(m, es[0]);
      ghost var rest := es[1..];
      Enter(s, m, es[0]);
      ghost var unborn := Unborn(rest);
      assert unborn;
      Drive(s, Step(m, es[0]), es[1..]);
    }
  }

  /** The same of every run from `scheduler_init`. */
  method RunFromInit(idle: Task, boot: Task, es: seq<Event<Task>>) returns (s: Scheduler)
    requires idle != boot && idle.next == null && idle.prev == null && idle.priority == IDLE_PRIORITY
    requires boot.id == BOOTSTRAP_ID && boot.priority == IDLE_PRIORITY
    requires boot.kernelStack == 0 && boot.kernelStackSize == 0
    requires Unborn(es) && idle !in Made(es) && boot !in Made(es)
    requires Inv(Init(idle, idle.Block(), boot)) && LegalRun(Init(idle, idle.Block(), boot), es)
    modifies idle, boot, Made(es)
    ensures s.Linked() && s.Shows(Run(Init(idle, old(idle.Block()), boot), es))
  {
    s := Scheduler.SchedulerInit(idle, boot);
    Drive(s, Init(idle, old(idle.Block()), boot), es);
  }
}
