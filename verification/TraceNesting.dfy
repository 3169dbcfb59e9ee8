/** `trace_event` interrupted by `trace_event`: the inner call runs to its end while the outer one is
    somewhere between reading the head and advancing it. */
module TraceNesting {
  import opened Words
  import opened TraceRing

  /** The steps a call has before it. */
  function Remaining(r: Ring): int {
    match r.producer
    case Idle => 0
    case Loaded(_, _) => FIELDS + 2
    case Writing(_, _, k) => FIELDS + 1 - k
  }

  /** The call in progress runs to its end, with no step of the reader in between. */
  ghost function Finish(r: Ring): (r': Ring)
    requires Sized(r)
    ensures Sized(r') && r'.producer.Idle?
    decreases Remaining(r)
  {
    match r.producer
    case Idle => r
    case Loaded(_, _) => Finish(Apply(r, Check))
    case Writing(_, _, k) => if k < FIELDS then Finish(Apply(r, Write)) else Apply(r, Commit)
  }

  /** An interrupt handler traces `e`: a whole call, after which the interrupted one is where it was. */
  ghost function Interrupted(r: Ring, e: Event): Ring
    requires Sized(r)
  {
    Finish(Apply(r.(producer := Idle), Start(e))).(producer := r.producer)
  }

  /** What is left of writing a slot, at once. */
  lemma {:induction false} FinishWriting(r: Ring)
    requires Sized(r) && r.producer.Writing?
    ensures var h, k, e := r.producer.h, r.producer.k, r.producer.e;
      Finish(r) == r.(slots := r.slots[h := r.slots[h][..k] + e[k..]], head := Next(h), producer := Idle,
                      accepted := r.accepted + [e])
    decreases Remaining(r)
  {
    var h, k, e := r.producer.h, r.producer.k, r.producer.e;
    if k < FIELDS {
      var r1 := Apply(r, Write);
      FinishWriting(r1);
      assert r1.slots[h][..k + 1] + e[k + 1..] == r.slots[h][..k] + e[k..];
      assert r1.slots[h := r.slots[h][..k] + e[k..]] == r.slots[h := r.slots[h][..k] + e[k..]];
    } else {
      assert r.slots[h][..k] + e[k..] == r.slots[h];
      assert r.slots[h := r.slots[h]] == r.slots;
    }
  }

  /** A call on its own keeps the ring right. */
  lemma {:induction false} FinishInv(r: Ring)
    requires Inv(r)
    ensures Inv(Finish(r))
    decreases Remaining(r)
  {
    match r.producer
    case Idle =>
    case Loaded(_, _) => StepInv(r, Check); FinishInv(Apply(r, Check));
    case Writing(_, _, k) =>
      if k < FIELDS { StepInv(r, Write); FinishInv(Apply(r, Write)); } else { StepInv(r, Commit); }
  }

  /** What the inner call does: nothing but count a drop when the ring is full, else it takes the slot
      at the head. */
  lemma InnerCall(r: Ring, e: Event)
    requires Sized(r)
    ensures Interrupted(r, e) ==
      if Next(r.head) == r.tail
      then r.(attempts := r.attempts + 1, overflow := Add32(r.overflow, 1), dropped := r.dropped + 1)
      else r.(attempts := r.attempts + 1, slots := r.slots[r.head := e], head := Next(r.head),
              accepted := r.accepted + [e])
  {
    var r1 := Apply(r.(producer := Idle), Start(e));
    var r2 := Apply(r1, Check);
    assert Finish(r1) == Finish(r2);
    if Next(r.head) == r.tail {
      assert Finish(r2) == r2;
    } else {
      FinishWriting(r2);
      assert r2.slots[r.head][..0] + e[0..] == e;
    }
  }

  /** How far the outer call had got with its slot. */
  function Written(r: Ring): nat
    requires Sized(r)
  {
    if r.producer.Writing? then r.producer.k else 0
  }

  /** When the inner call is accepted, both calls have taken the same slot: it holds the inner event's
      first fields and the outer event's last ones, and one event is lost without being counted. */
  lemma SharedSlot(r: Ring, e: Event)
    requires Inv(r) && !r.producer.Idle? && Next(r.head) != r.tail
    ensures var r', k, o := Finish(Interrupted(r, e)), Written(r), r.producer.e;
      && r'.head == Next(r.head) && r'.tail == r.tail && r'.overflow == r.overflow
      && r'.slots == r.slots[r.head := e[..k] + o[k..]]
      && r'.accepted == r.accepted + [e] + [o] && r'.delivered == r.delivered
  {
    InnerCall(r, e);
    var r1 := Interrupted(r, e);
    var r2 := if r.producer.Loaded? then Apply(r1, Check) else r1;
    FinishWriting(r2);
    assert Finish(r1) == Finish(r2);
    var k, o := Written(r), r.producer.e;
    assert r1.slots[r.head] == e;
    assert r1.slots[r.head := e[..k] + o[k..]] == r.slots[r.head := e[..k] + o[k..]];
  }

  /** `trace_event` is safe from an interrupt if and only if it does not interrupt itself, or the ring
      is full at that moment. */
  lemma NestedExactly(r: Ring, e: Event)
    requires Inv(r)
    ensures Inv(Finish(Interrupted(r, e))) <==> r.producer.Idle? || Next(r.head) == r.tail
  {
    InnerCall(r, e);
    if r.producer.Idle? {
      StepInv(r, Start(e));
      FinishInv(Apply(r, Start(e)));
      assert r.(producer := Idle) == r;
    } else if Next(r.head) == r.tail {
      FullInv(r, e);
    } else {
      SharedSlot(r, e);
      var r' := Finish(Interrupted(r, e));
      assert |r'.accepted| == |r.accepted| + 2 && Pending(r') == Pending(r) + 1;
    }
  }

  lemma FullInv(r: Ring, e: Event)
    requires Inv(r) && !r.producer.Idle? && Next(r.head) == r.tail
    ensures Inv(Finish(Interrupted(r, e)))
  {
    InnerCall(r, e);
    var r1 := Interrupted(r, e);
    assert Inv(r1) by {
      assert r1.overflow == Wrap32(r1.dropped) by { WrapAdd(r.dropped, 1); }
    }
    FinishInv(r1);
  }

  /** The smallest run that shows it: the first event ever, interrupted before its first field. */
  lemma FirstEventInterrupted(r: Ring, o: Event, e: Event)
    requires Init(r)
    ensures Inv(Apply(r, Start(o))) && !Inv(Finish(Interrupted(Apply(r, Start(o)), e)))
  {
    InitInv(r);
    StepInv(r, Start(o));
    NestedExactly(Apply(r, Start(o)), e);
  }
}
