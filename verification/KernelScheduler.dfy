/** The scheduler's data structures as the kernel keeps them: intrusive doubly linked
    queues, a 256-bit index over them, and the running task. */
module KernelScheduler {
  import opened Words
  import opened SchedulerModel
  import opened SchedulerRuns

  /** `__builtin_clz` restricted to the low `n` bits: the zeros above the highest set bit. */
  function LeadingZeros(w: nat, n: nat): (r: nat)
    ensures r <= n
    ensures r < n ==> Bit(w, n - 1 - r)
    ensures forall i :: n - r <= i < n ==> !Bit(w, i)
  {
    if n == 0 then 0 else if Bit(w, n - 1) then 0 else 1 + LeadingZeros(w, n - 1)
  }

  lemma NonZeroHasTop(w: U32)
    requires w != 0
    ensures LeadingZeros(w, 32) < 32
  {
    Pow2Values();
    var i := SomeBit(w, 32);
  }

  lemma HighestUnique<T>(ready: seq<seq<T>>, p: nat)
    requires |ready| == PRIORITIES && p < PRIORITIES
    requires forall k :: p < k < PRIORITIES ==> ready[k] == []
    requires p == 0 || ready[p] != []
    ensures Highest(ready) == p
  {
  }

  class Task {
    const id: U32
    const priority: U8
    const kernelStack: U32
    const kernelStackSize: U32
    var state: TaskState
    var exitCode: int
    var cpuTimeTicks: U64
    var next: Task?
    var prev: Task?

    /** A control block as the task code fills it in: zeroed, then named fields set. */
    constructor (id: U32, priority: U8, stack: U32, stackSize: U32, state: TaskState)
      ensures this.id == id && this.priority == priority
      ensures kernelStack == stack && kernelStackSize == stackSize && this.state == state
      ensures exitCode == 0 && cpuTimeTicks == 0 && next == null && prev == null
    {
      this.id, this.priority := id, priority;
      kernelStack, kernelStackSize := stack, stackSize;
      this.state, exitCode, cpuTimeTicks, next, prev := state, 0, 0, null, null;
    }

    ghost function Block(): Tcb
      reads `state, `exitCode, `cpuTimeTicks
    {
      Tcb(id, priority, kernelStack, kernelStackSize, state, exitCode, cpuTimeTicks)
    }
  }

  /** `q` is a null-terminated doubly linked list of distinct READY tasks of priority `p`. */
  ghost predicate Chain(q: seq<Task>, p: int)
    reads q`next, q`prev, q`state
  {
    && (forall t :: t in q ==> t.priority == p && t.state == Ready)
    && (forall i {:trigger q[i].prev} :: 0 <= i < |q| ==> q[i].prev == if i == 0 then null else q[i - 1])
    && (forall i {:trigger q[i].next} :: 0 <= i < |q| ==> q[i].next == if i == |q| - 1 then null else q[i + 1])
    && Distinct(q)
  }

  /** `r` is `q` with its element at `i` left out. */
  ghost predicate Omits<T>(r: seq<T>, q: seq<T>, i: nat)
    requires i < |q|
  {
    && |r| == |q| - 1
    && (forall k {:trigger r[k]} :: 0 <= k < i ==> r[k] == q[k])
    && (forall k {:trigger r[k]} :: i <= k < |r| ==> r[k] == q[k + 1])
  }

  lemma OmitsDistinct<T>(r: seq<T>, q: seq<T>, i: nat)
    requires i < |q| && Omits(r, q, i) && Distinct(q)
    ensures Distinct(r) && forall t :: t in r <==> t in q && t != q[i]
  {
    forall t | t in q && t != q[i] ensures t in r {
      var k :| 0 <= k < |q| && q[k] == t;
      assert r[if k < i then k else k - 1] == t;
    }
  }

  /** `Without` leaves out exactly that place of a queue of distinct tasks. */
  lemma {:induction false} WithoutOmits<T>(q: seq<T>, i: nat)
    requires i < |q| && Distinct(q)
    ensures Omits(Without(q, q[i]), q, i)
    decreases i
  {
    if i > 0 {
      assert q[1..][i - 1] == q[i];
      WithoutOmits(q[1..], i - 1);
    }
  }

  lemma InitReady<T>(empty: seq<seq<T>>, idle: T, tcb: Tcb, boot: T)
    requires |empty| == PRIORITIES && tcb.priority == IDLE_PRIORITY
    requires forall p :: 0 <= p < PRIORITIES ==> empty[p] == []
    ensures Append(empty, 0, idle) == Init(idle, tcb, boot).ready
  {
    var r := Init(idle, tcb, boot).ready;
    forall p | 0 <= p < PRIORITIES ensures Append(empty, 0, idle)[p] == r[p] {}
  }

  /** Two lists with the same head agree as far as the links are the same. */
  lemma {:induction false} SameLinks(q: seq<Task>, i: nat, p: int, q': seq<Task>, j: nat)
    requires i < |q| && i < |q'| && Chain(q', p) && q'[0] == q[0] && j <= i
    requires forall k {:trigger q[k]} :: 0 <= k < i ==> q[k].next == q[k + 1]
    ensures q'[j] == q[j]
  {
    if j > 0 {
      SameLinks(q, i, p, q', j - 1);
      assert q'[j - 1].next == q'[j];
    }
  }

  /** A list that follows `q` up to a place whose link is null or points back to itself is no
      longer than that. */
  lemma CutOff(q: seq<Task>, i: nat, p: int, q': seq<Task>)
    requires i < |q| && q' != [] && Chain(q', p) && q'[0] == q[0]
    requires forall k {:trigger q[k]} :: 0 <= k < i ==> q[k].next == q[k + 1]
    requires q[i].next == null || q[i].next == q[i]
    ensures |q'| <= i + 1
  {
    if i < |q'| { SameLinks(q, i, p, q', i); }
  }

  datatype QueueHeader = QueueHeader(head: Task?, tail: Task?, count: nat)

  /** The header and the links of a queue of priority `p` hold `q`. */
  ghost predicate QueueIs(q: seq<Task>, p: int, h: QueueHeader)
    reads q`next, q`prev, q`state
  {
    && h == (if q == [] then QueueHeader(null, null, 0) else QueueHeader(q[0], q[|q| - 1], |q|))
    && Chain(q, p)
  }

  ghost function Removed(queues: seq<seq<Task>>, t: Task): (r: seq<seq<Task>>)
    requires |queues| == PRIORITIES
    ensures t !in queues[t.priority] ==> r == queues
  {
    queues[t.priority := Without(queues[t.priority], t)]
  }

  class Scheduler {
    const ready: array<QueueHeader>
    const bitmap: array<U32>
    const idle: Task
    const boot: Task
    var current: Task
    var needResched: bool
    var contextSwitches: U64
    var ticks: U64
    var esp0: U32
    ghost var queues: seq<seq<Task>>
    ghost var known: set<Task>

    /** The index bit of priority `p` is set. */
    ghost predicate Marked(p: int)
      requires 0 <= p < PRIORITIES && bitmap.Length == 8
      reads bitmap
    {
      Bit(bitmap[p / 32], p % 32)
    }

    ghost predicate Indexed()
      requires |queues| == PRIORITIES && bitmap.Length == 8
      reads `queues, bitmap
    {
      forall p {:trigger Marked(p)} :: 0 <= p < PRIORITIES ==> (Marked(p) <==> queues[p] != [])
    }

    ghost predicate Known(q: seq<Task>)
      reads `known
    {
      forall t :: t in q ==> t in known
    }

    /** All 256 queues are well formed and a task in no queue has null links. */
    ghost predicate Lists()
      reads `queues, `known, ready, known`next, known`prev, known`state
    {
      && ready.Length == PRIORITIES
      && |queues| == PRIORITIES
      && (forall p, t :: 0 <= p < PRIORITIES && t in queues[p] ==> t in known)
      && (forall p {:trigger QueueIs(queues[p], p, ready[p])} ::
            0 <= p < PRIORITIES ==> QueueIs(queues[p], p, ready[p]))
      && (forall t {:trigger t.prev} {:trigger t.next} ::
            t in known && t !in queues[t.priority] ==> t.prev == null && t.next == null)
    }

    /** ... and the bitmap indexes the non-empty ones. */
    ghost predicate Linked()
      reads `queues, `known, ready, bitmap, known`next, known`prev, known`state
    {
      && Lists()
      && idle in known
      && bitmap.Length == 8
      && Indexed()
    }

    /** The fields represent the machine state `m`. */
    ghost predicate Shows(m: Machine<Task>)
      reads this, known`state, known`exitCode, known`cpuTimeTicks
    {
      && m.tasks.Keys == known
      && (forall t :: t in known ==> m.tasks[t] == t.Block())
      && m == Machine(m.tasks, queues, current, idle, boot, needResched, esp0, contextSwitches, ticks)
    }

    /** What zeroing leaves: no queue, no index bit, two tasks with null links. */
    ghost predicate Zeroed()
      reads this, ready, bitmap, known
    {
      && ready.Length == PRIORITIES
      && bitmap.Length == 8 && |queues| == PRIORITIES
      && (forall p :: 0 <= p < PRIORITIES ==> ready[p] == QueueHeader(null, null, 0) && queues[p] == [])
      && (forall w :: 0 <= w < 8 ==> bitmap[w] == 0)
      && current == boot && known == {idle, boot}
      && (forall t :: t in known ==> t.next == null && t.prev == null)
    }

    lemma ZeroedLinked()
      requires Zeroed()
      ensures Linked()
    {
      forall p | 0 <= p < PRIORITIES ensures !Marked(p) { BitOfZero(p % 32); }
    }

    /** The zeroed scheduler with the boot context current. */
    constructor (idle: Task, boot: Task)
      requires idle.next == null && idle.prev == null && boot.next == null && boot.prev == null
      ensures Zeroed() && this.idle == idle && this.boot == boot && fresh(ready) && fresh(bitmap)
      ensures !needResched && contextSwitches == 0 && ticks == 0 && esp0 == 0
    {
      ready := new QueueHeader[PRIORITIES](_ => QueueHeader(null, null, 0));
      bitmap := new U32[8](_ => 0);
      this.idle, this.boot, current := idle, boot, boot;
      needResched, contextSwitches, ticks, esp0 := false, 0, 0, 0;
      queues := seq(PRIORITIES, _ => []);
      known := {boot, idle};
    }

    /** `scheduler_init`: the boot context, a static control block, is current and dead, idle is the
        one queued task. */
    static method SchedulerInit(idle: Task, boot: Task) returns (s: Scheduler)
      requires idle != boot && idle.next == null && idle.prev == null && idle.priority == IDLE_PRIORITY
      requires boot.id == BOOTSTRAP_ID && boot.priority == IDLE_PRIORITY
      requires boot.kernelStack == 0 && boot.kernelStackSize == 0
      modifies idle, boot
      ensures fresh(s) && fresh(s.ready) && fresh(s.bitmap) && s.known == {idle, boot}
      ensures s.Linked() && s.Shows(Init(idle, old(idle.Block()), boot))
    {
      boot.state, boot.exitCode, boot.cpuTimeTicks, boot.next, boot.prev := Zombie, 0, 0, null, null;
      idle.state := Ready;
      s := new Scheduler(idle, boot);
      ghost var empty := s.queues;
      s.ZeroedLinked();
      s.Enqueue(idle);
      InitReady(empty, idle, old(idle.Block()), boot);
    }

    /** Sets the index bit of a priority. */
    method SetPriorityBit(p: U8)
      requires bitmap.Length == 8
      modifies bitmap
      ensures forall k {:trigger Marked(k)} :: 0 <= k < PRIORITIES ==> (Marked(k) <==> k == p || old(Marked(k)))
    {
      Pow2Values();
      var w, b := p / 32, p % 32;
      bitmap[w] := SetBit(32, bitmap[w], b);
      forall k | 0 <= k < PRIORITIES
        ensures Marked(k) <==> k == p || old(Marked(k))
      {
        SetBitBits(32, old(bitmap[w]), b, k % 32);
      }
    }

    method ClearPriorityBit(p: U8)
      requires bitmap.Length == 8
      modifies bitmap
      ensures forall k {:trigger Marked(k)} :: 0 <= k < PRIORITIES ==> (Marked(k) <==> k != p && old(Marked(k)))
    {
      Pow2Values();
      var w, b := p / 32, p % 32;
      bitmap[w] := ClearBit(32, bitmap[w], b);
      forall k | 0 <= k < PRIORITIES
        ensures Marked(k) <==> k != p && old(Marked(k))
      {
        ClearBitBits(32, old(bitmap[w]), b, k % 32);
      }
    }

    /** Work on tasks and headers of priority `p` leaves the other queues alone. */
    twostate lemma OthersKeep(p: int)
      requires old(Lists()) && 0 <= p < PRIORITIES && queues == old(queues) && known == old(known)
      requires OnlyQueue(p)
      requires forall t :: t in known && t.priority != p ==>
        t.prev == old(t.prev) && t.next == old(t.next) && t.state == old(t.state)
      ensures forall k :: 0 <= k < PRIORITIES && k != p ==> QueueIs(queues[k], k, ready[k])
    {
      forall k | 0 <= k < PRIORITIES && k != p ensures QueueIs(queues[k], k, ready[k]) {
        var q := queues[k];
        assert old(QueueIs(q, k, ready[k]));
        assert forall i :: 0 <= i < |q| ==> q[i] in q && q[i] in known && q[i].priority == k;
      }
    }

    /** Only the header of queue `p` has changed. */
    twostate predicate OnlyQueue(p: int)
      requires ready.Length == PRIORITIES
      reads ready
    {
      forall k :: 0 <= k < PRIORITIES && k != p ==> ready[k] == old(ready[k])
    }

    /** The pointer surgery of `scheduler_enqueue`: appends a task that is not in the queue; one that
        is in it already is cut off from what follows it, and no list is left. */
    method LinkTail(p: U8, task: Task, ghost q: seq<Task>)
      requires ready.Length == PRIORITIES
      requires QueueIs(q, p, ready[p])
      requires task.state == Ready && task.priority == p
      modifies ready, q`next, task`next, task`prev
      ensures OnlyQueue(p)
      ensures task !in q ==> QueueIs(q + [task], p, ready[p])
      ensures task in q ==> forall q' :: !QueueIs(q', p, ready[p])
    {
      if ready[p].head == null {
        ready[p] := ready[p].(head := task);
        ready[p] := ready[p].(tail := task);
        task.next := null;
        task.prev := null;
      } else {
        task.prev := ready[p].tail;
        task.next := null;
        ready[p].tail.next := task;
        ready[p] := ready[p].(tail := task);
      }
      ready[p] := ready[p].(count := ready[p].count + 1);
      if task in q {
        ghost var i :| 0 <= i < |q| && q[i] == task;
        forall q' ensures !QueueIs(q', p, ready[p]) {
          if QueueIs(q', p, ready[p]) { CutOff(q, i, p, q'); }
        }
      }
    }

    /** The neighbours of a task, or the header where it has none, skip over it. */
    method SkipOver(p: U8, task: Task, ghost q: seq<Task>, ghost i: nat, ghost r: seq<Task>)
      requires ready.Length == PRIORITIES
      requires QueueIs(q, p, ready[p])
      requires i < |q| && q[i] == task && Omits(r, q, i)
      modifies ready, q`next, q`prev
      ensures OnlyQueue(p) && Chain(r, p) && task !in r
      ensures ready[p] == (if r == [] then QueueHeader(null, null, |q|) else QueueHeader(r[0], r[|r| - 1], |q|))
    {
      OmitsDistinct(r, q, i);
      if task.prev != null {
        task.prev.next := task.next;
      } else {
        ready[p] := ready[p].(head := task.next);
      }
      if task.next != null {
        task.next.prev := task.prev;
      } else {
        ready[p] := ready[p].(tail := task.prev);
      }
    }

    /** The pointer surgery of `scheduler_dequeue`, wherever in its queue the task is. */
    method Unlink(p: U8, task: Task, ghost q: seq<Task>, ghost i: nat, ghost r: seq<Task>)
      requires ready.Length == PRIORITIES
      requires QueueIs(q, p, ready[p])
      requires i < |q| && q[i] == task && Omits(r, q, i)
      modifies ready, q`next, q`prev
      ensures OnlyQueue(p) && QueueIs(r, p, ready[p])
      ensures task.next == null && task.prev == null
    {
      SkipOver(p, task, q, i, r);
      task.next := null;
      task.prev := null;
      ready[p] := ready[p].(count := ready[p].count - 1);
      ghost var chain := Chain(r, p);
      assert chain;
    }

    method AppendTask(task: Task)
      requires Lists() && task in known && task.state == Ready
      modifies this`queues, ready, known`next, known`prev
      ensures if task !in old(queues)[task.priority]
              then Lists() && queues == Append(old(queues), task.priority, task)
              else ready.Length == PRIORITIES && forall q :: !QueueIs(q, task.priority, ready[task.priority])
    {
      var p := task.priority;
      assert QueueIs(queues[p], p, ready[p]);
      LinkTail(p, task, queues[p]);
      if task !in queues[p] {
        OthersKeep(p);
        queues := Append(queues, p, task);
      }
    }

    /** `scheduler_enqueue`: appends a READY task; null and tasks in another state are ignored. It does
        not look whether the task is queued already: if it is, its queue is destroyed. */
    method Enqueue(task: Task?)
      requires Linked()
      requires task != null ==> task in known
      modifies this`queues, ready, bitmap, known`next, known`prev
      ensures if task == null || task.state != Ready then Linked() && queues == old(queues)
              else if task !in old(queues)[task.priority]
              then Linked() && queues == Append(old(queues), task.priority, task)
              else ready.Length == PRIORITIES &&
                   forall q :: Known(q) ==> !QueueIs(q, task.priority, ready[task.priority])
    {
      if task == null || task.state != Ready { return; }
      var p := task.priority;
      AppendTask(task);
      label linked:
      SetPriorityBit(p);
      if task in old(queues)[p] {
        forall q | Known(q) ensures !QueueIs(q, p, ready[p]) {
          assert forall i :: 0 <= i < |q| ==> q[i] in q && q[i] in old@linked(known);
          assert !old@linked(QueueIs(q, p, ready[p]));
        }
      }
    }

    /** The test `scheduler_dequeue` makes tells exactly whether the task is queued. */
    lemma UnlinkedNotQueued(task: Task)
      requires Lists() && task in known && ready[task.priority].head != task && task.prev == null
      ensures task !in queues[task.priority]
    {
      var p := task.priority;
      var q := queues[p];
      assert QueueIs(q, p, ready[p]);
      assert forall i :: 0 <= i < |q| && q[i].prev == null ==> i == 0;
    }

    lemma LinkedQueued(task: Task)
      requires Lists() && task in known
      requires ready[task.priority].head == task || ready[task.priority].tail == task
               || task.prev != null || task.next != null
      ensures task in queues[task.priority]
    {
      var p := task.priority;
      assert QueueIs(queues[p], p, ready[p]);
    }

    method RemoveTask(task: Task)
      requires Lists() && task in known && task in queues[task.priority]
      modifies this`queues, ready, known`next, known`prev
      ensures Lists()
      ensures queues == Removed(old(queues), task)
      ensures ready[task.priority].count == |queues[task.priority]|
    {
      var p := task.priority;
      ghost var q := queues[p];
      assert QueueIs(q, p, ready[p]);
      ghost var i :| 0 <= i < |q| && q[i] == task;
      WithoutOmits(q, i);
      OmitsDistinct(Without(q, task), q, i);
      Unlink(p, task, q, i, Without(q, task));
      OthersKeep(p);
      queues := queues[p := Without(q, task)];
    }

    /** Unlinks a queued task and keeps the index exact. */
    method Extract(task: Task)
      requires Linked() && task in known && task in queues[task.priority]
      modifies this`queues, ready, bitmap, known`next, known`prev
      ensures Linked() && queues == Removed(old(queues), task)
    {
      RemoveTask(task);
      var p := task.priority;
      if ready[p].count == 0 {
        ClearPriorityBit(p);
      }
      assert Indexed();
    }

    /** `scheduler_dequeue`: takes a task out of its queue; a task that is in none is left alone. */
    method Dequeue(task: Task?)
      requires Linked()
      requires task != null ==> task in known
      modifies this`queues, ready, bitmap, known`next, known`prev
      ensures Linked()
      ensures queues == if task == null then old(queues) else Removed(old(queues), task)
    {
      if task == null { return; }
      var p := task.priority;
      assert QueueIs(queues[p], p, ready[p]);
      if ready[p].count == 0 { return; }
      if ready[p].head != task && ready[p].tail != task && task.prev == null && task.next == null {
        UnlinkedNotQueued(task);
        return;
      }
      LinkedQueued(task);
      Extract(task);
    }

    /** `find_highest_priority`: top non-zero word, then count leading zeros. */
    method FindHighestPriority() returns (p: U8)
      requires Linked()
      ensures p == Highest(queues)
    {
      var i := 7;
      while i >= 0
        invariant -1 <= i <= 7
        invariant forall k :: 32 * (i + 1) <= k < PRIORITIES ==> queues[k] == []
      {
        if bitmap[i] != 0 {
          NonZeroHasTop(bitmap[i]);
          var bit := 31 - LeadingZeros(bitmap[i], 32);
          p := i * 32 + bit;
          assert p / 32 == i && p % 32 == bit && Marked(p);
          forall k | p < k < 32 * (i + 1) ensures queues[k] == [] {
            assert k / 32 == i && bit < k % 32 && !Marked(k);
          }
          HighestUnique(queues, p);
          return;
        }
        forall k | 32 * i <= k < 32 * (i + 1) ensures queues[k] == [] {
          BitOfZero(k % 32);
          assert k / 32 == i && !Marked(k);
        }
        i := i - 1;
      }
      p := IDLE_PRIORITY;
      HighestUnique(queues, 0);
    }

    /** `scheduler_pick_next`: the head of the highest non-empty queue, else idle. */
    method PickNextTask() returns (next: Task)
      requires Linked()
      ensures next == PickFrom(queues, idle) && next in known
    {
      var p := FindHighestPriority();
      assert QueueIs(queues[p], p, ready[p]);
      if ready[p].head == null {
        return idle;
      }
      return ready[p].head;
    }

    /** Writing the state of a task that is in no queue disturbs no queue. */
    method SetState(task: Task, state: TaskState)
      requires Linked() && task in known && task !in queues[task.priority]
      modifies task`state
      ensures Linked() && task.state == state
    {
      task.state := state;
      forall p | 0 <= p < PRIORITIES ensures QueueIs(queues[p], p, ready[p]) {
        assert old(QueueIs(queues[p], p, ready[p]));
        assert task !in queues[p];
      }
    }

    /** `schedule`'s treatment of the task it takes the CPU from. */
    method Retire()
      requires Linked() && current in known && current !in queues[current.priority]
      modifies this`queues, ready, bitmap, known`next, known`prev, current`state
      ensures Linked() && queues == old(queues)
      ensures current.state == if old(current.state) == Running then Ready else old(current.state)
    {
      if current.state == Running {
        SetState(current, Ready);
      } else if current.state == Zombie {
        Dequeue(current);
      }
    }

    /** `schedule`'s treatment of the task it gives the CPU to. */
    method Start(next: Task)
      requires Linked() && next in known && next in queues[next.priority]
      modifies this`queues, ready, bitmap, known`next, known`prev, next`state
      ensures Linked() && queues == Removed(old(queues), next) && next.state == Running
    {
      RemovedIsOut(next);
      Dequeue(next);
      SetState(next, Running);
    }

    lemma RemovedIsOut(next: Task)
      requires Lists() && next in queues[next.priority]
      ensures next !in Removed(queues, next)[next.priority]
    {
      var p := next.priority;
      var q := queues[p];
      assert QueueIs(q, p, ready[p]);
      var i :| 0 <= i < |q| && q[i] == next;
      WithoutOmits(q, i);
      OmitsDistinct(Without(q, next), q, i);
    }

    /** The queue work of `schedule`: put the running task away, take `next` out. */
    method Exchange(next: Task)
      requires Linked() && current in known && current !in queues[current.priority]
      requires next in known && next in queues[next.priority] && next != current
      modifies `queues, ready, bitmap, known`next, known`prev, current`state, next`state
      ensures Linked()
      ensures next.Block() == old(next.Block()).(state := Running)
      ensures current.Block() ==
        old(current.Block()).(state := if old(current.state) == Running then Ready else old(current.state))
      ensures forall t :: t in known && t != current && t != next ==> t.Block() == old(t.Block())
      ensures queues == Exchanged(old(queues), current, old(current.state), next)
    {
      Retire();
      Start(next);
      StillOut(old(queues), next, current);
      if current.state == Ready {
        Enqueue(current);
      }
    }

    /** The bookkeeping of `schedule`, up to the context switch itself. */
    method Install(next: Task)
      modifies `current, `needResched, `contextSwitches, `esp0
      ensures current == next && !needResched && contextSwitches == Inc64(old(contextSwitches))
      ensures esp0 == if next.Block().HasStack() then next.Block().StackTop() else old(esp0)
    {
      current := next;
      contextSwitches := Inc64(contextSwitches);
      needResched := false;
      if next.kernelStack != 0 && next.kernelStackSize > 0 {
        esp0 := Add32(next.kernelStack, next.kernelStackSize);
      }
    }

    /** `schedule`, from the point where another task has been picked. */
    method SwitchTo(ghost m: Machine<Task>, next: Task)
      requires Linked() && Shows(m) && current in known && current !in queues[current.priority]
      requires next in known && next in queues[next.priority] && next != current
      modifies `queues, `current, `needResched, `contextSwitches, `esp0,
               ready, bitmap, known`next, known`prev, current`state, next`state
      ensures next in m.tasks && Linked() && Shows(SchedulerModel.SwitchTo(m, next))
    {
      ExchangeIsSwitch(m, next);
      Exchange(next);
      Install(next);
      ghost var linked := Linked();
      assert linked;
    }

    /** `schedule`. */
    method Schedule(ghost m: Machine<Task>)
      requires Linked() && Shows(m) && Consistent(m)
      modifies `queues, `current, `needResched, `contextSwitches, `esp0,
               ready, bitmap, known`next, known`prev, known`state
      ensures Linked() && Shows(SchedulerModel.Schedule(m))
    {
      var next := PickNextTask();
      if current == next {
        needResched := false;
        return;
      }
      PickedIsQueued(m, next);
      SwitchTo(m, next);
    }

    /** The accounting of `scheduler_tick`. */
    method CountTick(ghost m: Machine<Task>)
      requires Linked() && Shows(m) && current in known
      modifies `ticks, current`cpuTimeTicks
      ensures Linked() && Shows(SchedulerModel.Tick(m).(needResched := m.needResched))
    {
      ticks := Inc64(ticks);
      current.cpuTimeTicks := Inc64(current.cpuTimeTicks);
      ghost var linked := Linked();
      assert linked;
    }

    /** `scheduler_tick`. */
    method Tick(ghost m: Machine<Task>) returns (resched: bool)
      requires Linked() && Shows(m) && current in known
      modifies `ticks, `needResched, current`cpuTimeTicks
      ensures Linked() && Shows(SchedulerModel.Tick(m)) && resched == Preempts(m)
    {
      CountTick(m);
      ghost var counted := SchedulerModel.Tick(m).(needResched := m.needResched);
      resched := Outranked(counted);
      if resched {
        RaiseFlag(counted);
      }
      assert SchedulerModel.Tick(m) == if resched then counted.(needResched := true) else counted;
    }

    method RaiseFlag(ghost m: Machine<Task>)
      requires Linked() && Shows(m)
      modifies `needResched
      ensures Linked() && Shows(m.(needResched := true))
    {
      needResched := true;
      ghost var linked := Linked();
      assert linked;
    }

    /** Whether a ready task has a higher priority than the running one, or waits beside it. */
    method Outranked(ghost m: Machine<Task>) returns (yes: bool)
      requires Linked() && Shows(m) && current in known
      ensures yes == Preempts(m)
    {
      var p := current.priority;
      var highest := FindHighestPriority();
      assert QueueIs(queues[p], p, ready[p]);
      yes := highest > p || ready[p].count > 0;
    }

    /** `irq_handler`: the registered handler, which only the timer has, then `schedule` if it
        was asked for. */
    method IrqHandler(ghost m: Machine<Task>, timer: bool)
      requires Linked() && Shows(m) && Inv(m)
      modifies this, ready, bitmap, known
      ensures Linked() && Shows(Step(m, if timer then Timer else OtherIrq))
    {
      InterruptStep(m, timer);
      if timer {
        var _ := Tick(m);
      }
      AfterHandler(if timer then SchedulerModel.Tick(m) else m);
    }

    method AfterHandler(ghost m: Machine<Task>)
      requires Linked() && Shows(m) && Consistent(m)
      modifies this, ready, bitmap, known
      ensures Linked() && Shows(ReschedIfNeeded(m))
    {
      if needResched {
        Schedule(m);
      }
    }

    /** `task_yield`. */
    method TaskYield(ghost m: Machine<Task>)
      requires Linked() && Shows(m) && Inv(m)
      modifies this, ready, bitmap, known
      ensures Linked() && Shows(Step(m, Yield))
    {
      Schedule(m);
    }

    /** `task_exit`. */
    method TaskExit(ghost m: Machine<Task>, code: int)
      requires Linked() && Shows(m) && Inv(m) && Legal(m, Exit(code))
      modifies this, ready, bitmap, known
      ensures Linked() && Shows(Step(m, Exit(code)))
    {
      MarkExitKeeps(m, code);
      MarkCurrent(m, code);
      Schedule(MarkExit(m, code));
    }

    method MarkCurrent(ghost m: Machine<Task>, code: int)
      requires Linked() && Shows(m) && current in known && current !in queues[current.priority]
      modifies current`state, current`exitCode
      ensures Linked() && Shows(MarkExit(m, code))
    {
      SetState(current, Zombie);
      current.exitCode := code;
      ghost var linked := Linked();
      assert linked;
    }

    /** Enqueueing a freshly created thread. */
    method Admit(ghost m: Machine<Task>, task: Task)
      requires Linked() && Shows(m) && Inv(m)
      requires task !in known && task.state == Ready && task.next == null && task.prev == null
      modifies `queues, `known, ready, bitmap, known`next, known`prev, task`next, task`prev
      ensures Linked() && Shows(Step(m, Create(task, task.Block())))
    {
      Learn(m, task);
      Enqueue(task);
    }

    /** A new control block, in no queue. */
    ghost method Learn(m: Machine<Task>, task: Task)
      requires Linked() && Shows(m) && task !in known && task.next == null && task.prev == null
      modifies `known
      ensures Linked() && task !in queues[task.priority]
      ensures known == old(known) + {task} && Shows(m.(tasks := m.tasks[task := task.Block()]))
    {
      assert task !in queues[task.priority];
      known := known + {task};
    }

    /** Releasing a dead task's control block: the scheduler itself is not touched. */
    ghost method Release(m: Machine<Task>, task: Task)
      requires Linked() && Shows(m) && Inv(m) && Legal(m, Destroy(task))
      modifies `known
      ensures Linked() && Shows(Step(m, Destroy(task)))
    {
      known := known - {task};
    }

    /** `syscall_handler`. */
    method SyscallHandler(ghost m: Machine<Task>, num: U32, arg0: int) returns (ret: int)
      requires Linked() && Shows(m) && Inv(m) && Legal(m, Syscall(num, arg0))
      modifies this, ready, bitmap, known
      ensures Linked() && Shows(Step(m, Syscall(num, arg0)))
      ensures num == 2 ==> ret == 0
      ensures num == 3 ==> ret == Signed32(old(current).id)
      ensures num == 0 || num >= 4 ==> ret == -38
    {
      if num >= MAX_SYSCALLS {
        return -ENOSYS;
      }
      if num == SYS_EXIT {
        TaskExit(m, arg0);
        ret := 0;
      } else if num == SYS_YIELD {
        TaskYield(m);
        ret := 0;
      } else if num == SYS_GETPID {
        ret := Signed32(current.id);
      } else {
        ret := -ENOSYS;
      }
    }
  }

  /** The ready queues after `current` in state `was` gave way to `next`. */
  ghost function Exchanged(queues: seq<seq<Task>>, current: Task, was: TaskState, next: Task): seq<seq<Task>>
    requires |queues| == PRIORITIES
  {
    if was == Running || was == Ready then Append(Removed(queues, next), current.priority, current)
    else Removed(queues, next)
  }

  /** An interrupt is its handler's work followed by a conditional `schedule`. */
  lemma InterruptStep(m: Machine<Task>, timer: bool)
    requires Inv(m)
    ensures var w := if timer then SchedulerModel.Tick(m) else m;
      Consistent(w) && Step(m, if timer then Timer else OtherIrq) == ReschedIfNeeded(w)
  {
    TickKeeps(m);
  }

  /** The picked task is queued, the running one is not. */
  lemma PickedIsQueued(m: Machine<Task>, next: Task)
    requires Consistent(m) && next == PickNext(m) && next != m.current
    requires forall t :: t in m.tasks ==> m.tasks[t].priority == t.priority
    ensures m.current !in m.ready[m.current.priority] && next in m.ready[next.priority]
  {
    PickIsOther(m);
  }

  /** The queue work of `schedule` is that of the machine's step. */
  lemma ExchangeIsSwitch(m: Machine<Task>, next: Task)
    requires |m.ready| == PRIORITIES && m.current in m.tasks && next in m.tasks && next != m.current
    requires forall t :: t in m.tasks ==> m.tasks[t].priority == t.priority
    requires m.current !in m.ready[m.current.priority]
    ensures SchedulerModel.SwitchTo(m, next).ready == Exchanged(m.ready, m.current, m.tasks[m.current].state, next)
  {
    assert m.ready[m.current.priority := m.ready[m.current.priority]] == m.ready;
  }

  lemma StillOut(queues: seq<seq<Task>>, next: Task, t: Task)
    requires |queues| == PRIORITIES && t !in queues[t.priority]
    ensures t !in Removed(queues, next)[t.priority]
  {
    if t.priority == next.priority { WithoutSubset(queues[next.priority], next, t); }
  }

  lemma {:induction false} WithoutSubset<T>(q: seq<T>, x: T, t: T)
    requires t !in q
    ensures t !in Without(q, x)
    decreases |q|
  {
    if q != [] && q[0] != x { WithoutSubset(q[1..], x, t); }
  }
}
