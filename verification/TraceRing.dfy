/** The lock-free trace buffer as a protocol between one producer (`trace_event`) and one reader
    (`trace_read`), interleaved at every access to shared memory. Sequential consistency is
    assumed and the producer is not re-entered. */
module TraceRing {
  import opened Words

  const SIZE: nat := 1024   // slots
  const MAX_CPUS: nat := 256
  const EINVAL: int := 22
  const FIELDS: nat := 7    // timestamp, cpu, type, four data words

  /** An event is its fields, in the order they are written. */
  type Event = e: seq<U64> | |e| == FIELDS witness [0, 0, 0, 0, 0, 0, 0]

  /** Where `trace_event` is. */
  datatype Producer =
    | Idle
    | Loaded(e: Event, h: nat)            // head read, tail not yet compared
    | Writing(e: Event, h: nat, k: nat)   // `k` fields of slot `h` written

  /** Where `trace_read` is. */
  datatype Reader =
    | Waiting                             // before the loop test
    | Copying(buf: seq<U64>)              // fields of slot `tail` copied so far

  datatype Ring = Ring(
    slots: seq<seq<U64>>, head: nat, tail: nat, overflow: U32,
    producer: Producer, reader: Reader,
    // history
    accepted: seq<Event>, delivered: seq<Event>, attempts: nat, dropped: nat)

  /** One access to shared memory. */
  datatype Step =
    | Start(e: Event)   // producer reads head
    | Check             // producer reads tail; full means drop
    | Write             // producer writes the next field
    | Commit            // producer advances head
    | Look              // reader compares tail with head
    | Copy              // reader reads the next field
    | Advance           // reader advances tail

  function Next(i: nat): nat { (i + 1) % 1024 }

  predicate Enabled(r: Ring, s: Step) {
    match s
    case Start(_) => r.producer.Idle?
    case Check => r.producer.Loaded?
    case Write => r.producer.Writing? && r.producer.k < FIELDS
    case Commit => r.producer.Writing? && r.producer.k == FIELDS
    case Look => r.reader.Waiting?
    case Copy => r.reader.Copying? && |r.reader.buf| < FIELDS
    case Advance => r.reader.Copying? && |r.reader.buf| == FIELDS
  }

  ghost predicate Sized(r: Ring) {
    && |r.slots| == SIZE && (forall i :: 0 <= i < SIZE ==> |r.slots[i]| == FIELDS)
    && r.head < SIZE && r.tail < SIZE
    && (!r.producer.Idle? ==> r.producer.h < SIZE)
    && (r.producer.Writing? ==> r.producer.k <= FIELDS)
    && (r.reader.Copying? ==> |r.reader.buf| <= FIELDS)
  }

  /** ... and the producer works at the head. */
  ghost predicate Shape(r: Ring) { Sized(r) && (!r.producer.Idle? ==> r.producer.h == r.head) }

  function Apply(r: Ring, s: Step): Ring
    requires Sized(r) && Enabled(r, s)
  {
    match s
    case Start(e) => r.(producer := Loaded(e, r.head), attempts := r.attempts + 1)
    case Check =>
      if Next(r.producer.h) == r.tail
      then r.(producer := Idle, overflow := Add32(r.overflow, 1), dropped := r.dropped + 1)
      else r.(producer := Writing(r.producer.e, r.producer.h, 0))
    case Write =>
      var h, k := r.producer.h, r.producer.k;
      r.(slots := r.slots[h := r.slots[h][k := r.producer.e[k]]], producer := r.producer.(k := k + 1))
    case Commit =>
      r.(head := Next(r.producer.h), producer := Idle, accepted := r.accepted + [r.producer.e])
    case Look => if r.tail != r.head then r.(reader := Copying([])) else r
    case Copy => r.(reader := Copying(r.reader.buf + [r.slots[r.tail][|r.reader.buf|]]))
    case Advance => r.(tail := Next(r.tail), reader := Waiting, delivered := r.delivered + [r.reader.buf])
  }

  /** `trace.head = trace.tail = 0`, overflow 0; slots hold whatever they held. */
  ghost predicate Init(r: Ring) {
    && Shape(r) && r.head == 0 && r.tail == 0 && r.overflow == 0 && r.producer == Idle && r.reader == Waiting
    && r.accepted == [] && r.delivered == [] && r.attempts == 0 && r.dropped == 0
  }

  // ---- Invariant ----

  /** How far the head is ahead of the tail. */
  function Distance(tail: nat, head: nat): nat
    requires tail < SIZE && head < SIZE
  {
    if head >= tail then head - tail else head + SIZE - tail
  }

  /** Number of committed slots not yet read. */
  function Pending(r: Ring): nat
    requires r.head < SIZE && r.tail < SIZE
  {
    Distance(r.tail, r.head)
  }

  /** The slot `i` places after the tail. */
  function At(tail: nat, i: nat): nat { (tail + i) % 1024 }

  ghost predicate Inv(r: Ring) {
    && Shape(r)
    && |r.accepted| == |r.delivered| + Pending(r)
    && r.accepted[..|r.delivered|] == r.delivered
    && (forall i {:trigger At(r.tail, i)} :: 0 <= i < Pending(r) ==>
          r.slots[At(r.tail, i)] == r.accepted[|r.delivered| + i])
    && (r.producer.Writing? ==>
          && Next(r.head) != r.tail
          && r.slots[r.head][..r.producer.k] == r.producer.e[..r.producer.k])
    && (r.reader.Copying? ==> r.head != r.tail && r.reader.buf == r.slots[r.tail][..|r.reader.buf|])
    && r.attempts == |r.accepted| + r.dropped + (if r.producer.Idle? then 0 else 1)
    && r.overflow == Wrap32(r.dropped)
  }

  /** While the reader is copying a slot and the producer is writing one, they are different slots. */
  lemma NoRace(r: Ring)
    requires Inv(r) && r.reader.Copying? && r.producer.Writing?
    ensures r.tail != r.producer.h
  {
  }

  lemma InitInv(r: Ring)
    requires Init(r)
    ensures Inv(r)
  {
  }

  lemma CheckInv(r: Ring)
    requires Inv(r) && r.producer.Loaded?
    ensures Inv(Apply(r, Check))
  {
    WrapAdd(r.dropped, 1);
  }

  lemma WriteInv(r: Ring)
    requires Inv(r) && Enabled(r, Write)
    ensures Inv(Apply(r, Write))
  {
    var r' := Apply(r, Write);
    forall i {:trigger At(r'.tail, i)} | 0 <= i < Pending(r')
      ensures r'.slots[At(r'.tail, i)] == r'.accepted[|r'.delivered| + i]
    {
      assert At(r.tail, i) != r.head;
    }
    var k := r.producer.k;
    assert r'.slots[r.head][..k + 1] == r.slots[r.head][..k] + [r.producer.e[k]];
    assert r.producer.e[..k + 1] == r.producer.e[..k] + [r.producer.e[k]];
  }

  lemma CommitInv(r: Ring)
    requires Inv(r) && Enabled(r, Commit)
    ensures Inv(Apply(r, Commit))
  {
    var r' := Apply(r, Commit);
    assert r.slots[r.head] == r.producer.e;
    forall i {:trigger At(r'.tail, i)} | 0 <= i < Pending(r')
      ensures r'.slots[At(r'.tail, i)] == r'.accepted[|r'.delivered| + i]
    {
      if i == Pending(r) {
        assert At(r.tail, i) == r.head;
      } else {
        assert r.slots[At(r.tail, i)] == r.accepted[|r.delivered| + i];
      }
    }
    assert r'.accepted[..|r'.delivered|] == r.accepted[..|r.delivered|];
  }

  lemma AtNext(tail: nat, i: nat)
    requires tail < SIZE && i < SIZE
    ensures At(Next(tail), i) == At(tail, i + 1)
  {
  }

  lemma OldestIsCopied(r: Ring)
    requires Inv(r) && Enabled(r, Advance)
    ensures |r.delivered| < |r.accepted| && r.reader.buf == r.accepted[|r.delivered|]
    ensures Pending(Apply(r, Advance)) == Pending(r) - 1
  {
    assert At(r.tail, 0) == r.tail;
  }

  lemma AdvanceInv(r: Ring)
    requires Inv(r) && Enabled(r, Advance)
    ensures Inv(Apply(r, Advance))
  {
    var r' := Apply(r, Advance);
    OldestIsCopied(r);
    forall i {:trigger At(r'.tail, i)} | 0 <= i < Pending(r')
      ensures r'.slots[At(r'.tail, i)] == r'.accepted[|r'.delivered| + i]
    {
      AtNext(r.tail, i);
    }
    assert r.accepted[..|r.delivered| + 1] == r.accepted[..|r.delivered|] + [r.accepted[|r.delivered|]];
  }

  lemma CopyInv(r: Ring)
    requires Inv(r) && Enabled(r, Copy)
    ensures Inv(Apply(r, Copy))
  {
    var k := |r.reader.buf|;
    assert r.slots[r.tail][..k + 1] == r.slots[r.tail][..k] + [r.slots[r.tail][k]];
  }

  lemma StepInv(r: Ring, s: Step)
    requires Inv(r) && Enabled(r, s)
    ensures Inv(Apply(r, s))
  {
    match s
    case Start(_) =>
    case Check => CheckInv(r);
    case Write => WriteInv(r);
    case Commit => CommitInv(r);
    case Look =>
    case Copy => CopyInv(r);
    case Advance => AdvanceInv(r);
  }

  // ---- Every interleaving ----

  ghost predicate Run(rs: seq<Ring>, ss: seq<Step>) {
    && |rs| == |ss| + 1
    && Init(rs[0])
    && forall i {:trigger ss[i]} :: 0 <= i < |ss| ==>
         Shape(rs[i]) && Enabled(rs[i], ss[i]) && rs[i + 1] == Apply(rs[i], ss[i])
  }

  lemma {:induction false} RunInv(rs: seq<Ring>, ss: seq<Step>, n: nat)
    requires Run(rs, ss) && n < |rs|
    ensures Inv(rs[n])
  {
    if n == 0 {
      InitInv(rs[0]);
    } else {
      RunInv(rs, ss, n - 1);
      StepInv(rs[n - 1], ss[n - 1]);
    }
  }

  /** Under every interleaving: a slot is never read while it is written; what was read is a
      prefix, in order and untorn, of what was accepted, with at most 1023 events between; and
      every attempt is accepted, dropped and counted (modulo 2^32), or in progress. */
  lemma RingSafe(rs: seq<Ring>, ss: seq<Step>, n: nat)
    requires Run(rs, ss) && n < |rs|
    ensures var r := rs[n];
      && (r.reader.Copying? && r.producer.Writing? ==> r.tail != r.producer.h)
      && r.delivered <= r.accepted
      && |r.accepted| - |r.delivered| <= SIZE - 1
      && r.attempts == |r.accepted| + r.dropped + (if r.producer.Idle? then 0 else 1)
      && r.overflow == Wrap32(r.dropped)
  {
    RunInv(rs, ss, n);
    if rs[n].reader.Copying? && rs[n].producer.Writing? { NoRace(rs[n]); }
  }

  /** An event is dropped only when 1023 events are pending at the moment of the check. */
  lemma DropsOnlyWhenFull(rs: seq<Ring>, ss: seq<Step>, n: nat)
    requires Run(rs, ss) && n < |ss| && ss[n] == Check
    ensures rs[n + 1].dropped > rs[n].dropped <==> Pending(rs[n]) == SIZE - 1
  {
    RunInv(rs, ss, n);
    assert rs[n + 1] == Apply(rs[n], ss[n]);
  }

  // ---- The buffer itself, with no interleaving ----

  /** The slots from `tail` up to `head`, around the end. */
  ghost function Window<T>(s: seq<T>, tail: nat, head: nat): (w: seq<T>)
    requires |s| == SIZE && tail < SIZE && head < SIZE
    ensures |w| == Distance(tail, head)
    ensures forall i :: 0 <= i < |w| ==> w[i] == s[At(tail, i)]
  {
    seq(Distance(tail, head), i requires 0 <= i => s[At(tail, i)])
  }

  lemma WindowFirst<T>(s: seq<T>, tail: nat, head: nat)
    requires |s| == SIZE && tail < SIZE && head < SIZE && tail != head
    ensures Window(s, tail, head) == [s[tail]] + Window(s, Next(tail), head)
  {
    var w, w' := Window(s, tail, head), [s[tail]] + Window(s, Next(tail), head);
    forall i | 0 <= i < |w| ensures w[i] == w'[i] {
      if i > 0 { AtNext(tail, i - 1); }
    }
  }

  lemma WindowAppend<T>(s: seq<T>, tail: nat, head: nat, e: T)
    requires |s| == SIZE && tail < SIZE && head < SIZE && Next(head) != tail
    ensures Window(s[head := e], tail, Next(head)) == Window(s, tail, head) + [e]
  {
    var w, w' := Window(s[head := e], tail, Next(head)), Window(s, tail, head) + [e];
    forall i | 0 <= i < |w| ensures w[i] == w'[i] {
      if i == |w| - 1 { assert At(tail, i) == head; } else { assert At(tail, i) != head; }
    }
  }

  class TraceBuffer {
    const events: array<Event>
    const online: bool
    var head: nat
    var tail: nat
    var overflow: U32

    ghost predicate Valid()
      reads `head, `tail
    {
      events.Length == SIZE && head < SIZE && tail < SIZE
    }

    /** The committed events not yet read, oldest first. */
    ghost function Contents(): seq<Event>
      requires Valid()
      reads `head, `tail, events
    {
      Window(events[..], tail, head)
    }

    constructor (online: bool)
      ensures this.online == online
      ensures Valid() && Contents() == [] && overflow == 0 && fresh(events)
    {
      var blank: Event := [0, 0, 0, 0, 0, 0, 0];
      events := new Event[SIZE](_ => blank);
      this.online := online;
      head, tail, overflow := 0, 0, 0;
    }

    /** `trace_event`: appended, or dropped and counted when 1023 events are waiting. */
    method TraceEvent(e: Event)
      requires Valid()
      modifies `head, `overflow, events
      ensures Valid()
      ensures if |old(Contents())| == SIZE - 1
              then Contents() == old(Contents()) && overflow == Add32(old(overflow), 1)
              else Contents() == old(Contents()) + [e] && overflow == old(overflow)
    {
      var next := (head + 1) % 1024;
      if next == tail {
        overflow := Add32(overflow, 1);
        return;
      }
      WindowAppend(events[..], tail, head, e);
      events[head] := e;
      head := next;
    }

    /** One turn of the read loop. */
    method TakeOldest() returns (e: Event)
      requires Valid() && tail != head
      modifies `tail
      ensures Valid() && old(Contents()) == [e] + Contents()
    {
      e := events[tail];
      WindowFirst(events[..], tail, head);
      tail := (tail + 1) % 1024;
    }

    /** The read loop: up to `count` of the oldest events are taken out, in order. */
    method Drain(count: nat) returns (out: seq<Event>)
      requires Valid()
      modifies `tail
      ensures Valid() && out + Contents() == old(Contents())
      ensures |out| == Least(count, |old(Contents())|)
    {
      out := [];
      while |out| < count && tail != head
        invariant Valid() && |out| <= count
        invariant out + Contents() == old(Contents())
        decreases count - |out|
      {
        var e := TakeOldest();
        assert out + ([e] + Contents()) == (out + [e]) + Contents();
        out := out + [e];
      }
      assert tail == head ==> Contents() == [];
    }
  }

  /** One buffer for each processor. */
  class PerCpu {
    const traces: seq<TraceBuffer>

    constructor (traces: seq<TraceBuffer>)
      ensures this.traces == traces
    {
      this.traces := traces;
    }

    ghost predicate Valid()
      reads traces`head, traces`tail
    {
      && |traces| == MAX_CPUS && (forall i :: 0 <= i < MAX_CPUS ==> traces[i].Valid())
      && (forall i, j :: 0 <= i < j < MAX_CPUS ==> traces[i] != traces[j])
    }

    /** `trace_read`: refused for a processor that does not exist or is offline; otherwise up to
        `count` of the oldest events of that processor, and of no other, are taken out and counted. */
    method TraceRead(cpuId: U32, count: nat) returns (read: int, out: seq<Event>)
      requires Valid()
      modifies traces`tail
      ensures Valid()
      ensures if cpuId >= 256 || !traces[cpuId].online then read == -22 && out == []
              else read == |out| == Least(count, |old(traces[cpuId].Contents())|)
      ensures forall i :: 0 <= i < MAX_CPUS ==>
        (if i == cpuId then out else []) + traces[i].Contents() == old(traces[i].Contents())
    {
      out := [];
      if cpuId >= MAX_CPUS || !traces[cpuId].online {
        return -EINVAL, out;
      }
      out := traces[cpuId].Drain(count);
      read := |out|;
    }
  }
}
