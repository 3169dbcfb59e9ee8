/** Everything the kernel allocates frames for, over whole runs: page directory, page tables,
    task structures, kernel stacks, and pages callers took for themselves. */
module KernelMemory {
  import opened Words
  import opened FrameModel
  import opened FrameRuns
  import opened Paging
  import opened SpaceModel

  /** The frames of a kernel thread: its control block and its stack. */
  datatype Thread = Thread(control: nat, stack: nat)

  datatype Kernel = Kernel(
    pmm: Pmm,
    space: Option<Space>,               // one handle, so at most one address space
    handle: Option<nat>,                // the directory frame the handle names, even after a destroy
    threads: map<nat, Thread>,          // by a name for the thread
    held: set<nat>,                     // frames taken directly by other callers
    cr3: Option<nat>,                   // the directory frame the processor walks from, once loaded
    paging: bool,                       // CR0.PG
    tlb: map<nat, Translation>)         // translations the processor has cached

  datatype KEvent =
    | CreateSpace
    | DestroySpace
    | SwitchSpace
    | EnablePaging
    | MapPage(phys: U32, virt: U32, flags: U32, result: U32)
    | UnmapPage(virt: U32)
    | CreateThread(id: nat, made: Option<Thread>)
    | DestroyThread(id: nat)
    | Take(page: U32)
    | Give(frame: nat)
    | Fill(v: nat, t: Translation)      // the processor caches a translation
    | Evict(v: nat)                     // ... or drops one

  // ---- Threads ----

  /** The allocations of `task_create_kernel_thread`: a control block, then a stack; if there is
      no frame for the stack the control block goes back. */
  ghost predicate Spawns(s: Pmm, s': Pmm, r: Option<Thread>) {
    exists p: U32, s1: Pmm :: Allocates(s, p, s1) &&
      if p == 0 then s' == s1 && r == None else SpawnsStack(s1, p / FRAME_SIZE, s', r)
  }

  ghost predicate SpawnsStack(s1: Pmm, control: nat, s': Pmm, r: Option<Thread>) {
    exists p: U32, s2: Pmm :: Allocates(s1, p, s2) &&
      if p == 0 then s' == Release(s2, control) && r == None
      else s' == s2 && r == Some(Thread(control, p / FRAME_SIZE))
  }

  /** `task_destroy`: the stack goes back, then the control block. */
  function Reaped(s: Pmm, t: Thread): Pmm { Release(Release(s, t.stack), t.control) }

  // ---- Ownership ----

  /** Everything that can occupy a frame. */
  datatype Owner = Directory | Table(i: nat) | Control(id: nat) | Stack(id: nat) | Held(f: nat)

  /** The frame an owner occupies, if it exists. */
  function Slot(k: Kernel, o: Owner): Option<nat> {
    match o
    case Directory => if k.space.Some? then Some(k.space.value.dir) else None
    case Table(i) => if k.space.Some? && i in k.space.value.tables then Some(k.space.value.tables[i]) else None
    case Control(id) => if id in k.threads then Some(k.threads[id].control) else None
    case Stack(id) => if id in k.threads then Some(k.threads[id].stack) else None
    case Held(f) => if f in k.held then Some(f) else None
  }

  /** `owner` names, for each outstanding frame, the one owner that occupies it, and every owner
      is named: nothing is shared and nothing has leaked. */
  ghost predicate Names(k: Kernel, owner: map<nat, Owner>) {
    && (forall f :: f in owner ==> Slot(k, owner[f]) == Some(f))
    && (forall o :: Slot(k, o).Some? ==> Slot(k, o).value in owner && owner[Slot(k, o).value] == o)
  }

  /** The allocator's state is accounted for by the owners, from the state `start` on. */
  ghost predicate Tracks(start: Pmm, k: Kernel, owner: map<nat, Owner>) {
    && Names(k, owner)
    && Conserves(start, State(k.pmm, owner.Keys))
    && SpaceOk(k)
  }

  ghost predicate SpaceOk(k: Kernel) {
    k.space.Some? ==> WellFormed(k.space.value) && k.handle == Some(k.space.value.dir)
  }

  /** The processor walks from the directory of the live address space. */
  predicate Loaded(k: Kernel) { k.space.Some? && k.cr3 == Some(k.space.value.dir) }

  ghost predicate StepCreateSpace(a: Kernel, b: Kernel) {
    && a.space.None? && Creates(a.pmm, b.pmm, b.space)
    && b == a.(pmm := b.pmm, space := b.space,
               handle := if b.space.Some? then Some(b.space.value.dir) else a.handle)
  }

  ghost predicate StepMap(a: Kernel, phys: U32, virt: U32, flags: U32, r: U32, b: Kernel) {
    && a.space.Some? && b.space.Some?
    && Maps(a.pmm, a.space.value, phys, virt, flags, b.pmm, b.space.value, r)
    && b == a.(pmm := b.pmm, space := b.space, tlb := MapFlush(a.tlb, a.pmm, a.space.value, phys, virt))
  }

  ghost predicate StepCreateThread(a: Kernel, id: nat, r: Option<Thread>, b: Kernel) {
    && id !in a.threads && Spawns(a.pmm, b.pmm, r)
    && b == a.(pmm := b.pmm, threads := if r.Some? then a.threads[id := r.value] else a.threads)
  }

  ghost predicate StepTake(a: Kernel, page: U32, b: Kernel) {
    && Allocates(a.pmm, page, b.pmm)
    && b == a.(pmm := b.pmm, held := if page == 0 then a.held else a.held + {page / FRAME_SIZE})
  }

  ghost predicate KStep(a: Kernel, e: KEvent, b: Kernel) {
    match e
    case CreateSpace => StepCreateSpace(a, b)
    case DestroySpace =>
      a.space.Some? && b == a.(pmm := Destroyed(a.pmm, a.space.value), space := None)
    case SwitchSpace => a.handle.Some? && b == a.(cr3 := a.handle, tlb := map[])
    case EnablePaging => b == a.(paging := true)
    case MapPage(phys, virt, flags, r) => StepMap(a, phys, virt, flags, r, b)
    case UnmapPage(virt) =>
      && a.space.Some?
      && b == a.(space := Some(Unmapped(a.space.value, virt)), tlb := UnmapFlush(a.tlb, a.space.value, virt))
    case CreateThread(id, r) => StepCreateThread(a, id, r, b)
    case DestroyThread(id) =>
      id in a.threads && b == a.(pmm := Reaped(a.pmm, a.threads[id]), threads := a.threads - {id})
    case Take(page) => StepTake(a, page, b)
    case Give(f) => f in a.held && b == a.(pmm := Release(a.pmm, f), held := a.held - {f})
    case Fill(v, t) =>
      && a.paging && a.cr3.Some? && v < PAGES
      && (Loaded(a) ==> WellFormed(a.space.value) && Flat(a.space.value, v) == Some(t))
      && b == a.(tlb := a.tlb[v := t])
    case Evict(v) => b == a.(tlb := a.tlb - {v})
  }

  // ---- Frames in, frames out ----

  lemma TookFrame(start: Pmm, s: Pmm, owned: set<nat>, page: U32, s': Pmm)
    requires Booted(start) && Conserves(start, State(s, owned)) && Allocates(s, page, s')
    ensures page == 0 ==> s' == s
    ensures page != 0 ==> page / FRAME_SIZE in s.free && page / FRAME_SIZE !in owned
    ensures page != 0 ==> Conserves(start, State(s', owned + {page / FRAME_SIZE}))
  {
    if page != 0 { AllocConserves(start, State(s, owned), page, s'); }
  }

  lemma GaveFrame(start: Pmm, s: Pmm, owned: set<nat>, f: nat)
    requires Booted(start) && Conserves(start, State(s, owned)) && f in owned
    ensures Conserves(start, State(Release(s, f), owned - {f}))
  {
    FreeConserves(start, State(s, owned), f);
  }

  /** The allocator's state is a function of who owns what. */
  lemma OwnersDetermine(start: Pmm, s1: Pmm, s2: Pmm, owned: set<nat>)
    requires Conserves(start, State(s1, owned)) && Conserves(start, State(s2, owned))
    ensures s1 == s2
  {
    assert s1.free == start.free - owned && s2.free == start.free - owned;
  }

  /** A thread whose creation fails leaves the allocator exactly as it was. */
  lemma FailedSpawn(start: Pmm, s: Pmm, owned: set<nat>, s': Pmm, r: Option<Thread>)
    requires Booted(start) && Conserves(start, State(s, owned)) && Spawns(s, s', r)
    ensures r.None? ==> s' == s
    ensures r.Some? ==>
      && r.value.control != r.value.stack && r.value.control !in owned && r.value.stack !in owned
      && Conserves(start, State(s', owned + {r.value.control} + {r.value.stack}))
  {
    var p: U32, s1: Pmm :| Allocates(s, p, s1) &&
      if p == 0 then s' == s1 && r == None else SpawnsStack(s1, p / FRAME_SIZE, s', r);
    TookFrame(start, s, owned, p, s1);
    if p != 0 { FailedStack(start, s, s1, owned, p / FRAME_SIZE, s', r); }
  }

  /** The same once the control block has frame `f`. */
  lemma FailedStack(start: Pmm, s: Pmm, s1: Pmm, owned: set<nat>, f: nat, s': Pmm, r: Option<Thread>)
    requires Booted(start) && Conserves(start, State(s, owned)) && Conserves(start, State(s1, owned + {f}))
    requires f !in owned && SpawnsStack(s1, f, s', r)
    ensures r.None? ==> s' == s
    ensures r.Some? ==>
      && r.value.control == f && r.value.stack != f && r.value.stack !in owned
      && Conserves(start, State(s', owned + {f} + {r.value.stack}))
  {
    var q: U32, s2: Pmm :| Allocates(s1, q, s2) &&
      if q == 0 then s' == Release(s2, f) && r == None else s' == s2 && r == Some(Thread(f, q / FRAME_SIZE));
    TookFrame(start, s1, owned + {f}, q, s2);
    if q == 0 {
      GaveFrame(start, s1, owned + {f}, f);
      assert owned + {f} - {f} == owned;
      OwnersDetermine(start, s, s', owned);
    }
  }

  // ---- Every step keeps the books ----

  /** The frames of the space are its owners' frames, none of them free. */
  lemma SpaceHeld(start: Pmm, k: Kernel, owner: map<nat, Owner>)
    requires Booted(start) && Tracks(start, k, owner) && k.space.Some?
    ensures Holds(k.pmm, k.space.value) && Frames(k.space.value) <= owner.Keys
    ensures forall f :: f in owner ==> (f in Frames(k.space.value) <==> owner[f].Directory? || owner[f].Table?)
  {
    var sp := k.space.value;
    assert Slot(k, Directory) == Some(sp.dir);
    forall f | f in sp.tables.Values ensures f in owner && owner[f].Table? {
      var i :| i in sp.tables && sp.tables[i] == f;
      assert Slot(k, Table(i)) == Some(f);
    }
    forall f | f in owner && owner[f].Table? ensures f in sp.tables.Values {
      assert Slot(k, owner[f]) == Some(f);
    }
  }

  /** The same structures on the same frames. */
  lemma NamesSame(a: Kernel, owner: map<nat, Owner>, b: Kernel)
    requires Names(a, owner) && b.threads == a.threads && b.held == a.held && b.space.Some? == a.space.Some?
    requires a.space.Some? ==> b.space.value.dir == a.space.value.dir && b.space.value.tables == a.space.value.tables
    ensures Names(b, owner)
  {
    forall o ensures Slot(b, o) == Slot(a, o) {}
  }

  /** One more owner on a fresh frame. */
  lemma NamesOneMore(a: Kernel, owner: map<nat, Owner>, b: Kernel, f: nat, o: Owner)
    requires Names(a, owner) && f !in owner
    requires Slot(a, o) == None && Slot(b, o) == Some(f)
    requires forall x :: x != o ==> Slot(b, x) == Slot(a, x)
    ensures Names(b, owner[f := o]) && owner[f := o].Keys == owner.Keys + {f}
  {
    forall x | Slot(b, x).Some? ensures Slot(b, x).value in owner[f := o] && owner[f := o][Slot(b, x).value] == x {
      if x != o { assert Slot(a, x).Some?; }
    }
  }

  /** One owner less. */
  lemma NamesOneLess(a: Kernel, owner: map<nat, Owner>, b: Kernel, f: nat)
    requires Names(a, owner) && f in owner && Slot(b, owner[f]) == None
    requires forall x :: x != owner[f] ==> Slot(b, x) == Slot(a, x)
    ensures Names(b, owner - {f}) && (owner - {f}).Keys == owner.Keys - {f}
  {
    forall x | Slot(b, x).Some? ensures Slot(b, x).value in owner - {f} && (owner - {f})[Slot(b, x).value] == x {
      assert Slot(a, x).Some?;
    }
    forall g | g in owner - {f} ensures Slot(b, (owner - {f})[g]) == Some(g) {
      assert Slot(a, owner[g]) == Some(g) && Slot(a, owner[f]) == Some(f);
    }
  }

  // The owner map after each event; `f` is the frame that came or went.

  lemma NamesTake(a: Kernel, owner: map<nat, Owner>, s: Pmm, f: nat)
    requires Names(a, owner) && f !in owner
    ensures var b := a.(pmm := s, held := a.held + {f});
      Names(b, owner[f := Held(f)]) && owner[f := Held(f)].Keys == owner.Keys + {f}
  {
    var b := a.(pmm := s, held := a.held + {f});
    assert Slot(a, Held(f)) == None;
    NamesOneMore(a, owner, b, f, Held(f));
  }

  lemma NamesGive(a: Kernel, owner: map<nat, Owner>, s: Pmm, f: nat)
    requires Names(a, owner) && f in a.held
    ensures f in owner && Names(a.(pmm := s, held := a.held - {f}), owner - {f})
    ensures (owner - {f}).Keys == owner.Keys - {f}
  {
    assert Slot(a, Held(f)) == Some(f);
    NamesOneLess(a, owner, a.(pmm := s, held := a.held - {f}), f);
  }

  lemma NamesCreateSpace(a: Kernel, owner: map<nat, Owner>, s: Pmm, f: nat)
    requires Names(a, owner) && f !in owner && a.space.None?
    ensures var b := a.(pmm := s, space := Some(Space(f, map[], map[])), handle := Some(f));
      Names(b, owner[f := Directory]) && owner[f := Directory].Keys == owner.Keys + {f}
  {
    NamesOneMore(a, owner, a.(pmm := s, space := Some(Space(f, map[], map[])), handle := Some(f)), f, Directory);
  }

  lemma NamesAddTable(a: Kernel, owner: map<nat, Owner>, b: Kernel, i: nat, f: nat)
    requires Names(a, owner) && f !in owner && a.space.Some? && i !in a.space.value.tables
    requires b.space.Some? && b.space.value.dir == a.space.value.dir
    requires b.space.value.tables == a.space.value.tables[i := f]
    requires b.threads == a.threads && b.held == a.held
    ensures Names(b, owner[f := Table(i)]) && owner[f := Table(i)].Keys == owner.Keys + {f}
  {
    NamesOneMore(a, owner, b, f, Table(i));
  }

  lemma NamesCreateThread(a: Kernel, owner: map<nat, Owner>, s: Pmm, id: nat, t: Thread)
    returns (owner': map<nat, Owner>)
    requires Names(a, owner) && id !in a.threads && t.control !in owner && t.stack !in owner && t.control != t.stack
    ensures Names(a.(pmm := s, threads := a.threads[id := t]), owner')
    ensures owner'.Keys == owner.Keys + {t.control} + {t.stack}
  {
    owner' := owner[t.control := Control(id)][t.stack := Stack(id)];
    var b := a.(pmm := s, threads := a.threads[id := t]);
    forall x | Slot(b, x).Some? ensures Slot(b, x).value in owner' && owner'[Slot(b, x).value] == x {
      if x != Control(id) && x != Stack(id) { assert Slot(a, x) == Slot(b, x); }
    }
    forall f | f in owner' ensures Slot(b, owner'[f]) == Some(f) {
      if f != t.control && f != t.stack { assert Slot(a, owner[f]) == Some(f); }
    }
  }

  lemma NamesDestroyThread(a: Kernel, owner: map<nat, Owner>, s: Pmm, id: nat) returns (owner': map<nat, Owner>)
    requires Names(a, owner) && id in a.threads
    ensures var t := a.threads[id];
      && t.stack in owner && t.control in owner && t.control != t.stack
      && Names(a.(pmm := s, threads := a.threads - {id}), owner') && owner'.Keys == owner.Keys - {t.stack} - {t.control}
  {
    var t := a.threads[id];
    assert Slot(a, Control(id)) == Some(t.control) && Slot(a, Stack(id)) == Some(t.stack);
    owner' := owner - {t.stack} - {t.control};
    var b := a.(pmm := s, threads := a.threads - {id});
    forall x | Slot(b, x).Some? ensures Slot(b, x).value in owner' && owner'[Slot(b, x).value] == x {
      assert Slot(a, x) == Slot(b, x);
    }
    forall f | f in owner' ensures Slot(b, owner'[f]) == Some(f) {
      assert Slot(a, owner[f]) == Some(f);
    }
  }

  lemma NamesDestroySpace(a: Kernel, owner: map<nat, Owner>, s: Pmm) returns (owner': map<nat, Owner>)
    requires Names(a, owner) && a.space.Some?
    requires forall f :: f in owner ==> (f in Frames(a.space.value) <==> owner[f].Directory? || owner[f].Table?)
    ensures Names(a.(pmm := s, space := None), owner') && owner'.Keys == owner.Keys - Frames(a.space.value)
  {
    owner' := owner - Frames(a.space.value);
    var b := a.(pmm := s, space := None);
    forall x | Slot(b, x).Some? ensures Slot(b, x).value in owner' && owner'[Slot(b, x).value] == x {
      assert Slot(a, x) == Slot(b, x);
    }
    forall f | f in owner' ensures Slot(b, owner'[f]) == Some(f) {
      assert Slot(a, owner[f]) == Some(f);
    }
  }

  lemma TracksCreateSpace(start: Pmm, a: Kernel, owner: map<nat, Owner>, b: Kernel) returns (owner': map<nat, Owner>)
    requires Booted(start) && Tracks(start, a, owner) && StepCreateSpace(a, b)
    ensures Tracks(start, b, owner')
  {
    var page: U32 :| Allocates(a.pmm, page, b.pmm) && b.space == Created(page);
    owner' := CreatedBooks(start, a, owner, page, b);
  }

  lemma CreatedBooks(start: Pmm, a: Kernel, owner: map<nat, Owner>, page: U32, b: Kernel)
    returns (owner': map<nat, Owner>)
    requires Booted(start) && Names(a, owner) && Conserves(start, State(a.pmm, owner.Keys))
    requires a.space.None? && Allocates(a.pmm, page, b.pmm)
    requires b == a.(pmm := b.pmm, space := Created(page),
                     handle := if page == 0 then a.handle else Some(page / FRAME_SIZE))
    ensures Names(b, owner') && Conserves(start, State(b.pmm, owner'.Keys)) && SpaceOk(b)
  {
    TookFrame(start, a.pmm, owner.Keys, page, b.pmm);
    if page == 0 {
      owner' := owner;
      NamesSame(a, owner, b);
    } else {
      owner' := NewDirectory(a, owner, page / FRAME_SIZE, b);
    }
  }

  lemma NewDirectory(a: Kernel, owner: map<nat, Owner>, f: nat, b: Kernel) returns (owner': map<nat, Owner>)
    requires Names(a, owner) && f !in owner && f < MAX_FRAMES && a.space.None?
    requires b == a.(pmm := b.pmm, space := Some(Space(f, map[], map[])), handle := Some(f))
    ensures Names(b, owner') && owner'.Keys == owner.Keys + {f} && SpaceOk(b)
  {
    NamesCreateSpace(a, owner, b.pmm, f);
    owner' := owner[f := Directory];
  }

  lemma TracksDestroySpace(start: Pmm, a: Kernel, owner: map<nat, Owner>, b: Kernel) returns (owner': map<nat, Owner>)
    requires Booted(start) && Tracks(start, a, owner) && KStep(a, DestroySpace, b)
    ensures Tracks(start, b, owner')
  {
    var sp := a.space.value;
    SpaceHeld(start, a, owner);
    SubsetSize(Frames(sp), owner.Keys);
    DestroyReturns(a.pmm, sp);
    owner' := NamesDestroySpace(a, owner, b.pmm);
    ReturnedConserves(start, a.pmm, owner.Keys, Frames(sp), b.pmm);
  }

  lemma ReturnedConserves(start: Pmm, s: Pmm, owned: set<nat>, fs: set<nat>, s': Pmm)
    requires Conserves(start, State(s, owned)) && fs <= owned && Returned(s, fs, s')
    ensures Conserves(start, State(s', owned - fs))
  {
    assert owned == (owned - fs) + fs;
    assert (s.free + fs) + (owned - fs) == s.free + owned;
  }

  lemma TracksMap(start: Pmm, a: Kernel, owner: map<nat, Owner>, phys: U32, virt: U32, flags: U32, r: U32, b: Kernel)
    returns (owner': map<nat, Owner>)
    requires Booted(start) && Tracks(start, a, owner) && StepMap(a, phys, virt, flags, r, b)
    ensures Tracks(start, b, owner')
  {
    var sp, sp' := a.space.value, b.space.value;
    SpaceHeld(start, a, owner);
    MapHolds(a.pmm, sp, phys, virt, flags, b.pmm, sp', r);
    var page := MapShape(a.pmm, sp, phys, virt, flags, b.pmm, sp', r);
    owner' := MappedBooks(start, a, owner, virt / 0x1000 / 0x400, page, b);
  }

  lemma MappedBooks(start: Pmm, a: Kernel, owner: map<nat, Owner>, i: nat, page: U32, b: Kernel)
    returns (owner': map<nat, Owner>)
    requires Booted(start) && Names(a, owner) && Conserves(start, State(a.pmm, owner.Keys))
    requires a.space.Some? && b.space.Some? && b.space.value.dir == a.space.value.dir
    requires b.threads == a.threads && b.held == a.held
    requires page == 0 ==> b.pmm == a.pmm && b.space.value.tables == a.space.value.tables
    requires page != 0 ==> Allocates(a.pmm, page, b.pmm) && i !in a.space.value.tables
    requires page != 0 ==> b.space.value.tables == a.space.value.tables[i := page / FRAME_SIZE]
    ensures Names(b, owner') && Conserves(start, State(b.pmm, owner'.Keys))
  {
    owner' := owner;
    if page == 0 {
      NamesSame(a, owner, b);
    } else {
      TookFrame(start, a.pmm, owner.Keys, page, b.pmm);
      NamesAddTable(a, owner, b, i, page / FRAME_SIZE);
      owner' := owner[page / FRAME_SIZE := Table(i)];
    }
  }

  lemma TracksUnmap(start: Pmm, a: Kernel, owner: map<nat, Owner>, virt: U32, b: Kernel)
    requires Booted(start) && Tracks(start, a, owner) && KStep(a, UnmapPage(virt), b)
    ensures Tracks(start, b, owner)
  {
    SpaceHeld(start, a, owner);
    UnmapFlat(a.pmm, a.space.value, virt, 0);
    NamesSame(a, owner, b);
  }

  lemma TracksCreateThread(start: Pmm, a: Kernel, owner: map<nat, Owner>, id: nat, r: Option<Thread>, b: Kernel)
    returns (owner': map<nat, Owner>)
    requires Booted(start) && Tracks(start, a, owner) && StepCreateThread(a, id, r, b)
    ensures Tracks(start, b, owner')
    ensures r.None? ==> b == a
  {
    FailedSpawn(start, a.pmm, owner.Keys, b.pmm, r);
    owner' := owner;
    if r.Some? { owner' := NamesCreateThread(a, owner, b.pmm, id, r.value); }
  }

  lemma TracksDestroyThread(start: Pmm, a: Kernel, owner: map<nat, Owner>, id: nat, b: Kernel)
    returns (owner': map<nat, Owner>)
    requires Booted(start) && Tracks(start, a, owner) && KStep(a, DestroyThread(id), b)
    ensures Tracks(start, b, owner')
  {
    var t := a.threads[id];
    owner' := NamesDestroyThread(a, owner, b.pmm, id);
    GaveFrame(start, a.pmm, owner.Keys, t.stack);
    GaveFrame(start, Release(a.pmm, t.stack), owner.Keys - {t.stack}, t.control);
  }

  lemma TracksTake(start: Pmm, a: Kernel, owner: map<nat, Owner>, page: U32, b: Kernel)
    returns (owner': map<nat, Owner>)
    requires Booted(start) && Tracks(start, a, owner) && StepTake(a, page, b)
    ensures Tracks(start, b, owner')
  {
    TookFrame(start, a.pmm, owner.Keys, page, b.pmm);
    owner' := owner;
    if page != 0 {
      NamesTake(a, owner, b.pmm, page / FRAME_SIZE);
      owner' := owner[page / FRAME_SIZE := Held(page / FRAME_SIZE)];
    }
  }

  lemma TracksGive(start: Pmm, a: Kernel, owner: map<nat, Owner>, f: nat, b: Kernel)
    requires Booted(start) && Tracks(start, a, owner) && KStep(a, Give(f), b)
    ensures Tracks(start, b, owner - {f})
  {
    NamesGive(a, owner, b.pmm, f);
    GaveFrame(start, a.pmm, owner.Keys, f);
  }

  lemma TracksCache(start: Pmm, a: Kernel, owner: map<nat, Owner>, e: KEvent, b: Kernel)
    requires Tracks(start, a, owner) && KStep(a, e, b)
    requires e.Fill? || e.Evict? || e.SwitchSpace? || e.EnablePaging?
    ensures Tracks(start, b, owner)
  {
    NamesSame(a, owner, b);
  }

  /** Every event keeps every frame accounted for by exactly one owner. */
  lemma StepTracks(start: Pmm, a: Kernel, owner: map<nat, Owner>, e: KEvent, b: Kernel)
    returns (owner': map<nat, Owner>)
    requires Booted(start) && Tracks(start, a, owner) && KStep(a, e, b)
    ensures Tracks(start, b, owner')
  {
    match e
    case CreateSpace => owner' := TracksCreateSpace(start, a, owner, b);
    case DestroySpace => owner' := TracksDestroySpace(start, a, owner, b);
    case MapPage(phys, virt, flags, r) => owner' := TracksMap(start, a, owner, phys, virt, flags, r, b);
    case UnmapPage(virt) => TracksUnmap(start, a, owner, virt, b); owner' := owner;
    case CreateThread(id, r) => owner' := TracksCreateThread(start, a, owner, id, r, b);
    case DestroyThread(id) => owner' := TracksDestroyThread(start, a, owner, id, b);
    case Take(page) => owner' := TracksTake(start, a, owner, page, b);
    case Give(f) => TracksGive(start, a, owner, f, b); owner' := owner - {f};
    case Fill(_, _) => TracksCache(start, a, owner, e, b); owner' := owner;
    case Evict(_) => TracksCache(start, a, owner, e, b); owner' := owner;
    case SwitchSpace => TracksCache(start, a, owner, e, b); owner' := owner;
    case EnablePaging => TracksCache(start, a, owner, e, b); owner' := owner;
  }

  // ---- Whole runs ----

  ghost predicate KRun(ks: seq<Kernel>, es: seq<KEvent>) {
    && |ks| == |es| + 1
    && forall i {:trigger es[i]} :: 0 <= i < |es| ==> KStep(ks[i], es[i], ks[i + 1])
  }

  /** Nothing allocated yet. */
  ghost predicate Fresh(k: Kernel) {
    Booted(k.pmm) && k.space.None? && k.threads == map[] && k.held == {}
    && k.handle == None && k.cr3 == None && !k.paging && k.tlb == map[]
  }

  /** A run so far. */
  datatype History = History(ks: seq<Kernel>, es: seq<KEvent>)
  {
    ghost predicate From(k0: Kernel) { KRun(ks, es) && ks[0] == k0 }

    function Last(): Kernel
      requires ks != []
    {
      ks[|ks| - 1]
    }
  }

  /** One more event. */
  lemma Extend(k0: Kernel, h: History, e: KEvent, k: Kernel) returns (h': History)
    requires h.From(k0) && KStep(h.Last(), e, k)
    ensures h'.From(k0) && h'.Last() == k && h'.es == h.es + [e] && h'.ks == h.ks + [k]
  {
    h' := History(h.ks + [k], h.es + [e]);
    forall i | 0 <= i < |h'.es| ensures KStep(h'.ks[i], h'.es[i], h'.ks[i + 1]) {
      if i < |h.es| { var before := h.es[i]; }
    }
  }

  lemma FreshTracks(k: Kernel)
    requires Fresh(k)
    ensures Tracks(k.pmm, k, map[])
  {
    var owner: map<nat, Owner> := map[];
    assert owner.Keys == {};
    assert Conserves(k.pmm, State(k.pmm, {}));
  }

  lemma RunTracks(ks: seq<Kernel>, es: seq<KEvent>, n: nat) returns (owner: map<nat, Owner>)
    requires KRun(ks, es) && Fresh(ks[0]) && n < |ks|
    ensures Tracks(ks[0].pmm, ks[n], owner)
  {
    owner := map[];
    FreshTracks(ks[0]);
    for i := 0 to n
      invariant Tracks(ks[0].pmm, ks[i], owner)
    {
      var e := es[i];
      owner := StepTracks(ks[0].pmm, ks[i], owner, e, ks[i + 1]);
    }
  }

  /** In every reachable state two different owners - directory, tables, control blocks, stacks,
      held pages - occupy different frames, and no owner's frame is free. */
  lemma OwnersApart(ks: seq<Kernel>, es: seq<KEvent>, n: nat, o: Owner, o': Owner)
    requires KRun(ks, es) && Fresh(ks[0]) && n < |ks|
    requires Slot(ks[n], o).Some? && Slot(ks[n], o').Some? && o != o'
    ensures Slot(ks[n], o) != Slot(ks[n], o')
    ensures Slot(ks[n], o).value !in ks[n].pmm.free && Slot(ks[n], o).value in ks[0].pmm.free
  {
    var owner := RunTracks(ks, es, n);
  }

  /** No frame leaks: what is neither free nor owned was not free at the start. */
  lemma NothingLeaks(ks: seq<Kernel>, es: seq<KEvent>, n: nat, f: nat)
    requires KRun(ks, es) && Fresh(ks[0]) && n < |ks| && f in ks[0].pmm.free && f !in ks[n].pmm.free
    ensures exists o :: Slot(ks[n], o) == Some(f)
  {
    var owner := RunTracks(ks, es, n);
    assert f in owner.Keys;
    assert Slot(ks[n], owner[f]) == Some(f);
  }

  /** Between any two reachable states with the same owners the frame bitmap and every counter
      are the same. */
  lemma SameOwnersSameFrames(ks: seq<Kernel>, es: seq<KEvent>, i: nat, j: nat)
    requires KRun(ks, es) && Fresh(ks[0]) && i < |ks| && j < |ks|
    requires forall o :: Slot(ks[i], o) == Slot(ks[j], o)
    ensures ks[i].pmm == ks[j].pmm
  {
    var a := RunTracks(ks, es, i);
    var b := RunTracks(ks, es, j);
    assert a.Keys == b.Keys by {
      forall f ensures f in a <==> f in b {
        if f in a { assert Slot(ks[i], a[f]) == Some(f); assert Slot(ks[j], a[f]) == Some(f); }
        if f in b { assert Slot(ks[j], b[f]) == Some(f); assert Slot(ks[i], b[f]) == Some(f); }
      }
    }
    OwnersDetermine(ks[0].pmm, ks[i].pmm, ks[j].pmm, a.Keys);
  }

  /** An event that concerns only the address space and the processor. */
  predicate SpaceEvent(e: KEvent) {
    e.MapPage? || e.UnmapPage? || e.SwitchSpace? || e.EnablePaging? || e.Fill? || e.Evict?
  }

  /** Address-space lifetime: create, any maps and unmaps (failing ones included), switches and
      cache fills, then destroy, leaves the allocator exactly as it was before the create. */
  lemma SpaceLifetime(ks: seq<Kernel>, es: seq<KEvent>, i: nat, j: nat)
    requires KRun(ks, es) && Fresh(ks[0]) && i < j < |es|
    requires es[i] == CreateSpace && es[j] == DestroySpace
    requires forall m :: i < m < j ==> SpaceEvent(es[m])
    ensures ks[j + 1].pmm == ks[i].pmm
  {
    OthersSame(ks, es, i, j);
    assert KStep(ks[i], es[i], ks[i + 1]) && KStep(ks[j], es[j], ks[j + 1]);
    SameOwnersSameFrames(ks, es, i, j + 1);
  }

  lemma {:induction false} OthersSame(ks: seq<Kernel>, es: seq<KEvent>, i: nat, j: nat)
    requires KRun(ks, es) && i < j <= |es| && es[i] == CreateSpace
    requires forall m :: i < m < j ==> SpaceEvent(es[m])
    ensures ks[j].threads == ks[i].threads && ks[j].held == ks[i].held
    decreases j
  {
    assert KStep(ks[j - 1], es[j - 1], ks[j]);
    if i + 1 < j { OthersSame(ks, es, i, j - 1); }
  }

  /** A thread that could not be created leaves the whole state as it was. */
  lemma FailedThread(ks: seq<Kernel>, es: seq<KEvent>, n: nat)
    requires KRun(ks, es) && Fresh(ks[0]) && n < |es| && es[n].CreateThread? && es[n].made.None?
    ensures ks[n + 1] == ks[n]
  {
    var owner := RunTracks(ks, es, n);
    assert KStep(ks[n], es[n], ks[n + 1]);
    var _ := TracksCreateThread(ks[0].pmm, ks[n], owner, es[n].id, None, ks[n + 1]);
  }
}
