/** The physical frame allocator on values: the set of free frames and three counters. */
module FrameModel {
  import opened Words

  const FRAME_SIZE: nat := 4096
  const MAX_FRAMES: nat := 0x10_0000

  datatype Pmm = Pmm(free: set<nat>, freeFrames: U32, total: U32, reserved: U32)

  function Inc32(a: U32): U32 { Add32(a, 1) }

  predicate Within(lo: nat, f: nat, hi: nat) { lo <= f < hi }

  /** The frames `lo <= f < hi`. */
  function Span(lo: nat, hi: nat): (s: set<nat>)
    ensures forall f :: f in s <==> lo <= f < hi
  {
    set f: nat | f < hi && Within(lo, f, hi)
  }

  lemma {:induction false} SpanSize(lo: nat, hi: nat)
    ensures |Span(lo, hi)| == if lo <= hi then hi - lo else 0
    decreases hi
  {
    if lo < hi {
      SpanSize(lo, hi - 1);
      assert Span(lo, hi) == Span(lo, hi - 1) + {hi - 1};
    } else {
      assert Span(lo, hi) == {};
    }
  }

  ghost predicate IsLowest(s: set<nat>, f: nat) {
    f in s && forall g :: g in s ==> f <= g
  }

  // ---- Allocation and release ----

  /** What `pmm_alloc_page` may do: `page` is 0 and nothing changes, or the lowest free frame is taken. */
  ghost predicate Allocates(s: Pmm, page: U32, s': Pmm) {
    if s.freeFrames == 0 || s.free == {} then
      page == 0 && s' == s
    else
      && page % FRAME_SIZE == 0
      && IsLowest(s.free, page / FRAME_SIZE)
      && s' == s.(free := s.free - {page / FRAME_SIZE}, freeFrames := s.freeFrames - 1)
  }

  /** `pmm_free_page` on the frame of an address. */
  function Release(s: Pmm, frame: nat): Pmm {
    if frame in s.free then s
    else s.(free := s.free + {frame}, freeFrames := Inc32(s.freeFrames))
  }
}

/** Every run of allocations and releases. */
module FrameRuns {
  import opened Words
  import opened FrameModel

  datatype Event =
    | Alloc(page: U32)   // an allocation and what it returned
    | Free(frame: nat)

  /** The allocator with the frames its callers hold. */
  datatype State = State(pmm: Pmm, out: set<nat>)

  /** One call; a caller releases only a frame it holds. */
  ghost predicate Step(a: State, e: Event, b: State) {
    match e
    case Alloc(page) =>
      && Allocates(a.pmm, page, b.pmm)
      && b.out == if page == 0 then a.out else a.out + {page / FRAME_SIZE}
    case Free(f) =>
      && f in a.out
      && b == State(Release(a.pmm, f), a.out - {f})
  }

  /** A run is a sequence of states joined by events. */
  ghost predicate Run(states: seq<State>, es: seq<Event>) {
    && |states| == |es| + 1
    && forall i {:trigger es[i]} :: 0 <= i < |es| ==> Step(states[i], es[i], states[i + 1])
  }

  /** What every boot gives: frame 0 is not free and the counters balance. */
  ghost predicate Booted(s: Pmm) {
    && 0 !in s.free && (forall f :: f in s.free ==> f < MAX_FRAMES)
    && s.freeFrames + s.reserved == s.total
  }

  /** A sound start: moreover the counter covers the free set. */
  ghost predicate Sound(s: Pmm) { Booted(s) && |s.free| <= s.freeFrames }

  /** Between `start` and `a`, frames only moved between the free set and their holders. */
  ghost predicate Conserves(start: Pmm, a: State) {
    && a.pmm.free !! a.out
    && a.pmm.free + a.out == start.free
    && a.pmm.freeFrames + |a.out| == start.freeFrames
    && a.pmm.total == start.total && a.pmm.reserved == start.reserved
  }

  lemma AllocConserves(start: Pmm, a: State, page: U32, s': Pmm)
    requires Booted(start) && Conserves(start, a) && Allocates(a.pmm, page, s') && page != 0
    ensures Conserves(start, State(s', a.out + {page / FRAME_SIZE}))
  {
    var f := page / FRAME_SIZE;
    assert f !in a.out;
    assert (a.pmm.free - {f}) + (a.out + {f}) == a.pmm.free + a.out;
  }

  lemma FreeConserves(start: Pmm, a: State, f: nat)
    requires Conserves(start, a) && f in a.out
    ensures Conserves(start, State(Release(a.pmm, f), a.out - {f}))
  {
    assert |a.out| == |a.out - {f}| + 1;
    assert (a.pmm.free + {f}) + (a.out - {f}) == a.pmm.free + a.out;
  }

  lemma StepConserves(start: Pmm, a: State, e: Event, b: State)
    requires Booted(start) && Conserves(start, a) && Step(a, e, b)
    ensures Conserves(start, b)
  {
    match e
    case Alloc(page) =>
      if page != 0 { AllocConserves(start, a, page, b.pmm); }
    case Free(f) =>
      FreeConserves(start, a, f);
  }

  lemma {:induction false} RunConserves(states: seq<State>, es: seq<Event>, k: nat)
    requires Run(states, es) && k < |states|
    requires Booted(states[0].pmm) && states[0].out == {}
    ensures Conserves(states[0].pmm, states[k])
  {
    if k > 0 {
      RunConserves(states, es, k - 1);
      StepConserves(states[0].pmm, states[k - 1], es[k - 1], states[k]);
    }
  }

  /** Whatever the counters say, free and held frames partition what was free at the start. */
  ghost predicate Partition(start: Pmm, a: State) { a.pmm.free !! a.out && a.pmm.free + a.out == start.free }

  lemma {:induction false} RunPartition(states: seq<State>, es: seq<Event>, k: nat)
    requires Run(states, es) && k < |states| && states[0].out == {} && 0 !in states[0].pmm.free
    ensures Partition(states[0].pmm, states[k])
  {
    if k > 0 {
      RunPartition(states, es, k - 1);
      var e := es[k - 1];
      assert Step(states[k - 1], e, states[k]);
      assert states[k].pmm.free + states[k].out == states[k - 1].pmm.free + states[k - 1].out;
    }
  }

  /** What an allocation returns in every run, whatever the counters say: the lowest free frame,
      held by nobody and free since the start; none exactly if none is free or the count is 0. */
  lemma AllocPartition(states: seq<State>, es: seq<Event>, k: nat)
    requires Run(states, es) && k < |es| && es[k].Alloc?
    requires states[0].out == {} && 0 !in states[0].pmm.free
    ensures var page, a := es[k].page, states[k];
      && (page == 0 <==> a.pmm.free == {} || a.pmm.freeFrames == 0)
      && (page != 0 ==>
            && page % FRAME_SIZE == 0 && IsLowest(a.pmm.free, page / FRAME_SIZE)
            && page / FRAME_SIZE !in a.out && page / FRAME_SIZE in states[0].pmm.free)
  {
    RunPartition(states, es, k);
    assert Step(states[k], es[k], states[k + 1]);
  }

  lemma CountCovers(start: Pmm, a: State)
    requires Sound(start) && Conserves(start, a)
    ensures |a.pmm.free| <= a.pmm.freeFrames
  {
    assert |a.pmm.free + a.out| == |a.pmm.free| + |a.out|;
  }

  /** The counters balance in every reachable state, so both `free <= total` assertions hold. */
  lemma CountersBalance(states: seq<State>, es: seq<Event>, k: nat)
    requires Run(states, es) && k < |states|
    requires Booted(states[0].pmm) && states[0].out == {}
    ensures var s := states[k].pmm;
      s.freeFrames + s.reserved + |states[k].out| == s.total && s.freeFrames <= s.total
  {
    RunConserves(states, es, k);
  }

  /** Safety of every allocation in every run: 0 exactly when no frame is free; otherwise the
      address of the lowest free frame, aligned, held by nobody, free since the start, not frame 0. */
  lemma AllocSafe(states: seq<State>, es: seq<Event>, k: nat)
    requires Run(states, es) && k < |es| && es[k].Alloc?
    requires Sound(states[0].pmm) && states[0].out == {}
    ensures var page, a := es[k].page, states[k];
      && (page == 0 <==> a.pmm.free == {})
      && (page != 0 ==>
            && page % FRAME_SIZE == 0
            && IsLowest(a.pmm.free, page / FRAME_SIZE)
            && page / FRAME_SIZE !in a.out
            && page / FRAME_SIZE in states[0].pmm.free)
  {
    RunConserves(states, es, k);
    CountCovers(states[0].pmm, states[k]);
    assert Step(states[k], es[k], states[k + 1]);
  }

  /** Two allocations with no release of the frame between them never return the same page. */
  lemma {:induction false} NeverTwice(states: seq<State>, es: seq<Event>, i: nat, j: nat)
    requires Run(states, es) && i < j < |es|
    requires Booted(states[0].pmm) && states[0].out == {}
    requires es[i].Alloc? && es[i].page != 0 && es[j].Alloc?
    requires forall k :: i < k < j ==> es[k] != Free(es[i].page / FRAME_SIZE)
    ensures es[j].page != es[i].page
  {
    StaysOut(states, es, i, j);
    AllocPartition(states, es, j);
  }

  lemma {:induction false} StaysOut(states: seq<State>, es: seq<Event>, i: nat, j: nat)
    requires Run(states, es) && i < j <= |es|
    requires es[i].Alloc? && es[i].page != 0
    requires forall k :: i < k < j ==> es[k] != Free(es[i].page / FRAME_SIZE)
    ensures es[i].page / FRAME_SIZE in states[j].out
    decreases j
  {
    assert Step(states[j - 1], es[j - 1], states[j]);
    if i + 1 < j { StaysOut(states, es, i, j - 1); }
  }
}
