/** First come, first served: the order in which tasks become READY, kept beside a run, is the
    order in which each priority is served. */
module SchedulerOrder {
  import opened SchedulerModel
  import opened SchedulerRuns

  /** A machine with, for each task, the time at which it last became READY. */
  datatype Stamped<T> = Stamped(m: Machine<T>, at: map<T, nat>, clock: nat)

  predicate IsReady<T>(m: Machine<T>, t: T) { t in m.tasks && m.tasks[t].state == Ready }

  /** The next state; a task that is READY in it and was not before gets the time of the step. This
      looks only at states, not at queues. */
  ghost function Restamp<T>(x: Stamped<T>, m': Machine<T>): Stamped<T> {
    Stamped(m',
            map t | t in m'.tasks :: if IsReady(m', t) && !IsReady(x.m, t) then x.clock else Stamp(x, t),
            x.clock + 1)
  }

  ghost function StampStep<T>(x: Stamped<T>, e: Event<T>): Stamped<T>
    requires Inv(x.m) && Legal(x.m, e)
  {
    Restamp(x, Step(x.m, e))
  }

  function Stamp<T>(x: Stamped<T>, t: T): nat { if t in x.at then x.at[t] else 0 }

  ghost predicate QueueInOrder<T>(x: Stamped<T>, q: seq<T>) {
    && (forall t :: t in q ==> Stamp(x, t) < x.clock)
    && (forall i, j :: 0 <= i < j < |q| ==> Stamp(x, q[i]) < Stamp(x, q[j]))
  }

  /** Every queue is in the order of its stamps. */
  ghost predicate InOrder<T>(x: Stamped<T>) {
    |x.m.ready| == PRIORITIES && forall p :: 0 <= p < PRIORITIES ==> QueueInOrder(x, x.m.ready[p])
  }

  /** A queue that lost its head or not, and got a newly READY task at its end or not. */
  lemma OrderAfter<T>(x: Stamped<T>, x': Stamped<T>, q: seq<T>, stay: seq<T>, come: seq<T>)
    requires QueueInOrder(x, q) && (stay == q || (q != [] && stay == q[1..])) && |come| <= 1
    requires x'.clock == x.clock + 1
    requires forall t :: t in stay ==> Stamp(x', t) == Stamp(x, t)
    requires forall t :: t in come ==> Stamp(x', t) == x.clock
    ensures QueueInOrder(x', stay + come)
  {
    assert forall t :: t in stay ==> t in q;
  }

  /** What `schedule` does to a queue: those that stay were READY before, one that comes was not. */
  lemma StayOrCome<T>(w: Machine<T>, p: nat) returns (stay: seq<T>, come: seq<T>)
    requires Consistent(w) && p < PRIORITIES
    ensures Inv(Schedule(w)) && Schedule(w).ready[p] == stay + come && |come| <= 1
    ensures stay == w.ready[p] || (w.ready[p] != [] && stay == w.ready[p][1..])
    ensures forall t :: t in come ==> t == w.current && IsReady(Schedule(w), t)
  {
    ScheduleKeeps(w);
    var q := w.ready[p];
    stay, come := q, [];
    if PickNext(w) != w.current {
      QueueAfter(w, p);
      stay := if p == Highest(w.ready) then q[1..] else q;
      come := if p == w.tasks[w.current].priority && w.tasks[w.current].state == Running then [w.current] else [];
    }
    assert QueueSound(Schedule(w).tasks, stay + come, p);
    assert forall t :: t in come ==> t in stay + come;
  }

  /** `schedule` from `w`, the state the event has prepared. */
  lemma ScheduleOrder<T>(x: Stamped<T>, w: Machine<T>, p: nat)
    requires Consistent(w) && InOrder(x) && p < PRIORITIES && w.ready == x.m.ready
    requires forall t :: IsReady(w, t) <==> IsReady(x.m, t)
    ensures Inv(Schedule(w)) && QueueInOrder(Restamp(x, Schedule(w)), Schedule(w).ready[p])
  {
    var stay, come := StayOrCome(w, p);
    var x' := Restamp(x, Schedule(w));
    assert QueueInOrder(x, w.ready[p]) && QueueSound(w.tasks, w.ready[p], p);
    assert QueueSound(x'.m.tasks, stay + come, p);
    forall t | t in stay ensures Stamp(x', t) == Stamp(x, t) { assert t in w.ready[p] && t in stay + come; }
    OrderAfter(x, x', w.ready[p], stay, come);
  }

  /** An event that does not call `schedule`. */
  lemma QuietOrder<T>(x: Stamped<T>, e: Event<T>, p: nat)
    requires Inv(x.m) && Legal(x.m, e) && InOrder(x) && p < PRIORITIES
    requires e.Create? || e.Destroy? || !Reschedules(x.m, e)
    ensures Inv(Step(x.m, e)) && QueueInOrder(StampStep(x, e), Step(x.m, e).ready[p])
  {
    StepKeeps(x.m, e);
    var q := x.m.ready[p];
    var come := if e.Create? && e.tcb.priority == p then [e.task] else [];
    if !e.Create? && !e.Destroy? { StepHalves(x.m, e); }
    assert Step(x.m, e).ready[p] == q + come;
    OrderAfter(x, StampStep(x, e), q, q, come);
  }

  /** Every step keeps every queue in the order of its stamps. */
  lemma StepOrder<T>(x: Stamped<T>, e: Event<T>)
    requires Inv(x.m) && Legal(x.m, e) && InOrder(x)
    ensures Inv(Step(x.m, e)) && InOrder(StampStep(x, e))
  {
    StepKeeps(x.m, e);
    var m' := Step(x.m, e);
    forall p | 0 <= p < PRIORITIES ensures QueueInOrder(Restamp(x, m'), m'.ready[p]) {
      if e.Create? || e.Destroy? || !Reschedules(x.m, e) {
        QuietOrder(x, e, p);
      } else {
        StepHalves(x.m, e);
        ScheduleOrder(x, Prepare(x.m, e), p);
      }
    }
  }

  ghost function StampRun<T>(x: Stamped<T>, es: seq<Event<T>>): (x': Stamped<T>)
    requires Inv(x.m) && LegalRun(x.m, es)
    ensures x'.m == Run(x.m, es)
    decreases |es|
  {
    if es == [] then x else StepKeeps(x.m, es[0]); StampRun(StampStep(x, es[0]), es[1..])
  }

  lemma {:induction false} RunOrder<T>(x: Stamped<T>, es: seq<Event<T>>)
    requires Inv(x.m) && LegalRun(x.m, es) && InOrder(x)
    ensures InOrder(StampRun(x, es))
    decreases |es|
  {
    if es != [] {
      StepOrder(x, es[0]);
      RunOrder(StampStep(x, es[0]), es[1..]);
    }
  }

  lemma InitOrder<T>(idle: T, idleTcb: Tcb, boot: T)
    ensures InOrder(Stamped(Init(idle, idleTcb, boot), map[idle := 0], 1))
  {
  }

  /** In every run the task picked next is, of all READY tasks, one of the highest priority, and of
      those the one that has been READY the longest. */
  lemma FirstComeFirstServed<T>(x: Stamped<T>, es: seq<Event<T>>, u: T)
    requires Inv(x.m) && LegalRun(x.m, es) && InOrder(x) && IsReady(Run(x.m, es), u)
    ensures var x' := StampRun(x, es);
      var t := PickNext(x'.m);
      && IsReady(x'.m, t) && x'.m.tasks[u].priority <= x'.m.tasks[t].priority
      && (u != t && x'.m.tasks[u].priority == x'.m.tasks[t].priority ==> Stamp(x', t) < Stamp(x', u))
  {
    RunOrder(x, es);
    var x' := StampRun(x, es);
    var p := x'.m.tasks[u].priority;
    var q := x'.m.ready[p];
    assert Accounted(x'.m, u);
    var i :| 0 <= i < |q| && q[i] == u;
    assert QueueInOrder(x', q);
    PickIsOther(x'.m);
  }

  /** The same from `scheduler_init` on. */
  lemma FirstComeFromInit<T>(idle: T, idleTcb: Tcb, boot: T, es: seq<Event<T>>, u: T)
    requires idle != boot && idleTcb.priority == IDLE_PRIORITY
    requires Inv(Init(idle, idleTcb, boot)) && LegalRun(Init(idle, idleTcb, boot), es)
    requires IsReady(Run(Init(idle, idleTcb, boot), es), u)
    ensures var x' := StampRun(Stamped(Init(idle, idleTcb, boot), map[idle := 0], 1), es);
      var t := PickNext(x'.m);
      && IsReady(x'.m, t) && x'.m.tasks[u].priority <= x'.m.tasks[t].priority
      && (u != t && x'.m.tasks[u].priority == x'.m.tasks[t].priority ==> Stamp(x', t) < Stamp(x', u))
  {
    InitOrder(idle, idleTcb, boot);
    FirstComeFirstServed(Stamped(Init(idle, idleTcb, boot), map[idle := 0], 1), es, u);
  }
}
