/** What `pmm_init` makes of a Multiboot memory map: the frames it frees, the regions it takes
    back, the counters. */
module BootMemory {
  import opened Words
  import opened FrameModel
  import opened FrameRuns
  import opened MemoryMap

  const AVAILABLE: U32 := 1
  const MULTIBOOT_MAGIC: U32 := 0x2BADB002
  const FLAG_MMAP: nat := 0x40
  const FALLBACK_FRAMES: nat := 32768

  datatype MultibootInfo = MultibootInfo(flags: U32, mmapLength: U32, mmapAddr: U32)

  // ---- One entry ----

  /** First frame starting at or after the region, in 64-bit arithmetic. */
  function FrameStart(e: Entry): nat {
    Add64(e.addr, 4095) / 4096
  }

  function FrameEnd(e: Entry): nat {
    Add64(e.addr, e.len) / 4096
  }

  /** The frames an entry frees. */
  function Frames(e: Entry): (s: set<nat>)
    ensures |s| <= MAX_FRAMES
  {
    SpanSize(FrameStart(e), Least(FrameEnd(e), MAX_FRAMES));
    if e.kind == AVAILABLE then Span(FrameStart(e), Least(FrameEnd(e), MAX_FRAMES)) else {}
  }

  /** Frees some frames, counting each of them, whether or not it was free. */
  function MarkFrames(s: Pmm, fs: set<nat>): Pmm
    requires |fs| <= MAX_FRAMES
  {
    s.(free := s.free + fs, freeFrames := Add32(s.freeFrames, |fs|), total := Add32(s.total, |fs|))
  }

  /** The 64-bit sums of an entry do no harm: neither wraps, or what is left of a wrapped sum
      gives the same frames below 4 GB. */
  predicate Harmless(e: Entry) {
    if e.addr + 4095 >= 0x1_0000_0000_0000_0000 then FrameEnd(e) == 0
    else if e.addr + e.len >= 0x1_0000_0000_0000_0000 then FrameStart(e) >= MAX_FRAMES || FrameEnd(e) >= MAX_FRAMES
    else true
  }

  /** A frame lies wholly inside a region. */
  predicate Inside(f: nat, e: Entry) {
    e.addr <= f * FRAME_SIZE && (f + 1) * FRAME_SIZE <= e.addr + e.len
  }

  lemma FramesInside(e: Entry, f: nat)
    requires Harmless(e)
    ensures f in Frames(e) <==> e.kind == AVAILABLE && f < MAX_FRAMES && Inside(f, e)
  {
  }

  /** An available entry frees exactly the frames inside its region if and only if its sums are
      harmless. */
  lemma FramesExact(e: Entry)
    requires e.kind == AVAILABLE
    ensures (forall f: nat :: f in Frames(e) <==> f < MAX_FRAMES && Inside(f, e)) <==> Harmless(e)
  {
    if Harmless(e) {
      forall f: nat ensures f in Frames(e) <==> f < MAX_FRAMES && Inside(f, e) { FramesInside(e, f); }
    } else if e.addr + 4095 >= 0x1_0000_0000_0000_0000 {
      assert 0 in Frames(e) && !Inside(0, e);
    } else {
      var f := MAX_FRAMES - 1;
      assert f !in Frames(e) && Inside(f, e);
    }
  }

  /** A wrap that does harm: an empty region at the top of the address
      space frees every frame. */
  lemma WrapFreesEverything()
    ensures var e := Entry(20, 0xFFFF_FFFF_FFFF_F001, 0, AVAILABLE);
      !Harmless(e) && Frames(e) == Span(0, MAX_FRAMES) && forall f :: !Inside(f, e)
  {
    var e := Entry(20, 0xFFFF_FFFF_FFFF_F001, 0, AVAILABLE);
    assert FrameStart(e) == 0 && FrameEnd(e) > MAX_FRAMES;
  }

  // ---- All entries ----

  function MarkAll(s: Pmm, es: seq<Entry>): Pmm
    decreases |es|
  {
    if es == [] then s else MarkAll(MarkFrames(s, Frames(es[0])), es[1..])
  }

  /** All frames freed by some entry. */
  function Union(es: seq<Entry>): set<nat> {
    if es == [] then {} else Frames(es[0]) + Union(es[1..])
  }

  /** How often a frame was counted, over all entries. */
  function Sum(es: seq<Entry>): nat {
    if es == [] then 0 else |Frames(es[0])| + Sum(es[1..])
  }

  lemma {:induction false} MarkAllFrees(s: Pmm, es: seq<Entry>)
    ensures MarkAll(s, es).free == s.free + Union(es) && MarkAll(s, es).reserved == s.reserved
    decreases |es|
  {
    if es != [] { MarkAllFrees(MarkFrames(s, Frames(es[0])), es[1..]); }
  }

  lemma {:induction false} MarkAllCounts(s: Pmm, es: seq<Entry>)
    ensures MarkAll(s, es).freeFrames == Wrap32(s.freeFrames + Sum(es))
    ensures MarkAll(s, es).total == Wrap32(s.total + Sum(es))
    decreases |es|
  {
    if es != [] {
      var fs := Frames(es[0]);
      MarkAllCounts(MarkFrames(s, fs), es[1..]);
      WrapAdd32(s.freeFrames, |fs|, Sum(es[1..]));
      WrapAdd32(s.total, |fs|, Sum(es[1..]));
    }
  }

  lemma {:induction false} UnionMember(es: seq<Entry>, f: nat)
    ensures f in Union(es) <==> exists e :: e in es && f in Frames(e)
    decreases |es|
  {
    if es != [] {
      UnionMember(es[1..], f);
      assert es == [es[0]] + es[1..];
    }
  }

  /** No two entries free the same frame. */
  ghost predicate Disjoint(es: seq<Entry>) {
    es == [] || (Frames(es[0]) !! Union(es[1..]) && Disjoint(es[1..]))
  }

  /** Counting per entry never undercounts the union, and is exact when nothing is shared. */
  lemma {:induction false} SumCovers(es: seq<Entry>)
    ensures |Union(es)| <= Sum(es)
    ensures |Union(es)| == Sum(es) <==> Disjoint(es)
    decreases |es|
  {
    if es != [] {
      SumCovers(es[1..]);
      var a, b := Frames(es[0]), Union(es[1..]);
      assert |a + b| == |a| + |b| - |a * b|;
      if a * b == {} {
        forall f | f in a ensures f !in b { assert f in b ==> f in a * b; }
      } else {
        var f :| f in a * b;
        assert f in a && f in b;
      }
    }
  }

  // ---- Taking regions back ----

  function ReserveOne(s: Pmm, f: nat): Pmm {
    if f !in s.free then s
    else if f < s.total && s.freeFrames > 0 then
      s.(free := s.free - {f}, freeFrames := s.freeFrames - 1, reserved := Inc32(s.reserved))
    else s.(free := s.free - {f})
  }

  function ReserveSpan(s: Pmm, lo: nat, hi: nat): Pmm
    decreases hi
  {
    if lo < hi then ReserveOne(ReserveSpan(s, lo, hi - 1), hi - 1) else s
  }

  /** End of a reserved region, rounded up, in 32-bit arithmetic. */
  function ReserveEnd(start: U32, size: U32): nat {
    Add32(Add32(start, size), 4095) / 4096
  }

  function Reserve(s: Pmm, start: U32, size: U32): Pmm {
    ReserveSpan(s, start / 4096, ReserveEnd(start, size))
  }

  /** A frame overlaps a region. */
  predicate Overlaps(f: nat, start: nat, end: nat) {
    f * FRAME_SIZE < end && start < (f + 1) * FRAME_SIZE
  }

  /** `pmm_reserve_region` takes back exactly the frames that overlap the region if and only if the
      rounded-up end does not wrap. */
  lemma ReserveExact(start: U32, size: U32)
    ensures (forall f: nat :: f in Span(start / 4096, ReserveEnd(start, size)) <==> Overlaps(f, start, start + size))
      <==> start + size + 4095 < 0x1_0000_0000
  {
    if start + size + 4095 < 0x1_0000_0000 {
      assert ReserveEnd(start, size) == (start + size + 4095) / 4096;
    } else if start + size < 0x1_0000_0000 {
      var f: nat := 0xF_FFFF;
      assert f !in Span(start / 4096, ReserveEnd(start, size)) && Overlaps(f, start, start + size);
    } else {
      var f: nat := start / 4096;
      var end := ReserveEnd(start, size);
      assert end <= f + 1;
      var g := if end <= f then f else f + 1;
      assert g !in Span(f, end) && Overlaps(g, start, start + size);
    }
  }

  /** A wrap that does harm: the last page of the address space cannot be reserved. */
  lemma LastPageNotReserved(s: Pmm)
    ensures Reserve(s, 0xFFFF_F000, 0x1000) == s
  {
    assert ReserveEnd(0xFFFF_F000, 0x1000) == 0;
  }

  /** Free frames taken back whose index is below the frame count: these are counted. */
  ghost function Counted(free: set<nat>, taken: set<nat>, total: nat): set<nat> {
    set f | f in free && f in taken && f < total
  }

  /** Free frames taken back without being counted. */
  ghost function Uncounted(free: set<nat>, taken: set<nat>, total: nat): set<nat> {
    set f | f in free && f in taken && f >= total
  }

  function Monus(a: nat, b: nat): nat { if a >= b then a - b else 0 }

  predicate Balanced(s: Pmm) { s.freeFrames + s.reserved == s.total }

  /** From `s` to `s'` exactly the frames `r` were taken back. */
  ghost predicate TookBack(s: Pmm, r: set<nat>, s': Pmm) {
    && Balanced(s') && s'.total == s.total
    && s'.free == s.free - r
    && s'.freeFrames == Monus(s.freeFrames, |Counted(s.free, r, s.total)|)
  }

  lemma ReserveOneTook(s: Pmm, f: nat)
    requires Balanced(s)
    ensures TookBack(s, {f}, ReserveOne(s, f))
  {
    assert Counted(s.free, {f}, s.total) == if f in s.free && f < s.total then {f} else {};
  }

  lemma TookBackMore(s: Pmm, r1: set<nat>, s1: Pmm, r2: set<nat>, s2: Pmm)
    requires TookBack(s, r1, s1) && TookBack(s1, r2, s2)
    ensures TookBack(s, r1 + r2, s2)
  {
    var c1 := Counted(s.free, r1, s.total);
    var c2 := Counted(s1.free, r2, s.total);
    assert c1 !! c2;
    assert Counted(s.free, r1 + r2, s.total) == c1 + c2;
    assert s.free - (r1 + r2) == (s.free - r1) - r2;
  }

  lemma {:induction false} TookBackSpan(s: Pmm, lo: nat, hi: nat)
    requires Balanced(s)
    ensures TookBack(s, Span(lo, hi), ReserveSpan(s, lo, hi))
    decreases hi
  {
    if lo < hi {
      var s1 := ReserveSpan(s, lo, hi - 1);
      TookBackSpan(s, lo, hi - 1);
      ReserveOneTook(s1, hi - 1);
      TookBackMore(s, Span(lo, hi - 1), s1, {hi - 1}, ReserveOne(s1, hi - 1));
      assert Span(lo, hi) == Span(lo, hi - 1) + {hi - 1};
    } else {
      assert Counted(s.free, Span(lo, hi), s.total) == {};
    }
  }

  /** Taking a region back removes exactly its frames, whatever the counters are. */
  lemma {:induction false} ReserveSpanFree(s: Pmm, lo: nat, hi: nat)
    ensures ReserveSpan(s, lo, hi).free == s.free - Span(lo, hi)
    decreases hi
  {
    if lo < hi { ReserveSpanFree(s, lo, hi - 1); }
  }

  lemma TakenSplits(free: set<nat>, r: set<nat>, total: nat)
    ensures |free - r| + |Counted(free, r, total)| + |Uncounted(free, r, total)| == |free|
  {
    var c, u := Counted(free, r, total), Uncounted(free, r, total);
    assert free == (free - r) + (c + u);
    assert |c + u| == |c| + |u|;
  }

  // ---- The whole of `pmm_init` ----

  const VGA_START: U32 := 0xb8000
  const VGA_SIZE: U32 := 0x8000

  function Sub32(a: U32, b: U32): U32 { if a >= b then a - b else a + 0x1_0000_0000 - b }

  /** The three reserved regions: the null page, the text buffer, the kernel image. */
  function TakeRegions(s: Pmm, kernelStart: U32, kernelEnd: U32): Pmm {
    Reserve(Reserve(Reserve(s, 0, 4096), VGA_START, VGA_SIZE), kernelStart, Sub32(kernelEnd, kernelStart))
  }

  function Taken(kernelStart: U32, kernelEnd: U32): set<nat> {
    Span(0, 1) + Span(0xb8, 0xc0) + Span(kernelStart / 4096, ReserveEnd(kernelStart, Sub32(kernelEnd, kernelStart)))
  }

  function Blank(): Pmm { Pmm({}, 0, 0, 0) }

  /** 128 MB from address 0, when the boot information cannot be used. */
  function Fallback(): Pmm {
    FrameRange(0, FALLBACK_FRAMES)
  }

  function FrameRange(lo: nat, hi: nat): (s: Pmm)
    requires lo <= hi <= MAX_FRAMES
    ensures s == Pmm(Span(lo, hi), hi - lo, hi - lo, 0)
  {
    SpanSize(lo, hi);
    MarkFrames(Blank(), Span(lo, hi))
  }

  /** What the loader passed. */
  datatype BootInfo = BootInfo(magic: U32, addr: U32, mbi: MultibootInfo, mem: Memory)
  {
    predicate UsesMap() {
      magic == MULTIBOOT_MAGIC && addr >= 0x1000 && And(mbi.flags, FLAG_MMAP) != 0
    }

    function MapEnd(): U32 { Add32(mbi.mmapAddr, mbi.mmapLength) }

    /** `pmm_init` terminates; `MemoryMap.HaltsExactly` says on which maps. */
    ghost predicate Terminates() { UsesMap() ==> Halts(mem, mbi.mmapAddr, MapEnd()) }

    ghost function Map(): seq<Entry>
      requires UsesMap() && Terminates()
    {
      Visited(mem, mbi.mmapAddr, MapEnd())
    }

    /** The frame is memory, as far as the loader or the fallback says. */
    ghost predicate Backed(f: nat)
      requires Terminates()
    {
      if UsesMap() then exists e :: e in Map() && e.kind == AVAILABLE && Inside(f, e) else f < FALLBACK_FRAMES
    }

    /** No available entry has harmful sums. */
    ghost predicate AllHarmless()
      requires Terminates()
    {
      UsesMap() ==> forall e :: e in Map() && e.kind == AVAILABLE ==> Harmless(e)
    }
  }

  ghost function Boot(info: BootInfo, kernelStart: U32, kernelEnd: U32): Pmm
    requires info.Terminates()
  {
    TakeRegions(if info.UsesMap() then MarkAll(Blank(), info.Map()) else Fallback(), kernelStart, kernelEnd)
  }

  /** The kernel's region is taken back, as its end does not wrap. */
  predicate KernelFits(kernelEnd: U32) { kernelEnd + 4095 < 0x1_0000_0000 }

  lemma TakenFrames(kernelStart: U32, kernelEnd: U32, f: nat)
    ensures f in Taken(kernelStart, kernelEnd) <==>
      f == 0 || 0xb8 <= f < 0xc0 || (KernelFits(kernelEnd) && Overlaps(f, kernelStart, kernelEnd))
  {
    assert Add32(kernelStart, Sub32(kernelEnd, kernelStart)) == kernelEnd;
    var end := ReserveEnd(kernelStart, Sub32(kernelEnd, kernelStart));
    assert end == if KernelFits(kernelEnd) then (kernelEnd + 4095) / 4096 else 0;
  }

  lemma TakeRegionsFree(s: Pmm, kernelStart: U32, kernelEnd: U32)
    ensures TakeRegions(s, kernelStart, kernelEnd).free == s.free - Taken(kernelStart, kernelEnd)
  {
    var s1 := Reserve(s, 0, 4096);
    var s2 := Reserve(s1, VGA_START, VGA_SIZE);
    ReserveSpanFree(s, 0, 1);
    ReserveSpanFree(s1, 0xb8, 0xc0);
    ReserveSpanFree(s2, kernelStart / 4096, ReserveEnd(kernelStart, Sub32(kernelEnd, kernelStart)));
    assert ReserveEnd(0, 4096) == 1 && ReserveEnd(VGA_START, VGA_SIZE) == 0xc0;
  }

  lemma TakeRegionsCounts(s: Pmm, kernelStart: U32, kernelEnd: U32)
    requires Balanced(s)
    ensures TookBack(s, Taken(kernelStart, kernelEnd), TakeRegions(s, kernelStart, kernelEnd))
  {
    var s1 := Reserve(s, 0, 4096);
    var s2 := Reserve(s1, VGA_START, VGA_SIZE);
    var lo, hi := kernelStart / 4096, ReserveEnd(kernelStart, Sub32(kernelEnd, kernelStart));
    assert ReserveEnd(0, 4096) == 1 && ReserveEnd(VGA_START, VGA_SIZE) == 0xc0;
    TookBackSpan(s, 0, 1);
    TookBackSpan(s1, 0xb8, 0xc0);
    TookBackMore(s, Span(0, 1), s1, Span(0xb8, 0xc0), s2);
    TookBackSpan(s2, lo, hi);
    TookBackMore(s, Span(0, 1) + Span(0xb8, 0xc0), s2, Span(lo, hi), TakeRegions(s, kernelStart, kernelEnd));
  }

  /** After `pmm_init` a frame is free exactly when it is below 4 GB, lies wholly inside an
      AVAILABLE region (or the fallback's 128 MB), and is neither the null page, nor in the VGA
      range, nor overlapping the kernel image, unless the end of that wraps. */
  lemma BootFreeSet(info: BootInfo, kernelStart: U32, kernelEnd: U32, f: nat)
    requires info.Terminates() && info.AllHarmless()
    ensures f in Boot(info, kernelStart, kernelEnd).free <==>
      && f < MAX_FRAMES && info.Backed(f) && f != 0 && !(0xb8 <= f < 0xc0)
      && !(KernelFits(kernelEnd) && Overlaps(f, kernelStart, kernelEnd))
  {
    TakenFrames(kernelStart, kernelEnd, f);
    if info.UsesMap() {
      var es := info.Map();
      MarkAllFrees(Blank(), es);
      TakeRegionsFree(MarkAll(Blank(), es), kernelStart, kernelEnd);
      UnionMember(es, f);
      forall e | e in es ensures f in Frames(e) <==> e.kind == AVAILABLE && f < MAX_FRAMES && Inside(f, e) {
        if e.kind == AVAILABLE { FramesInside(e, f); }
      }
    } else {
      TakeRegionsFree(Fallback(), kernelStart, kernelEnd);
    }
  }

  /** Entry `k` of the map at `start` is read before the walk stops at `end`. */
  ghost predicate Read(mem: Memory, start: U32, end: U32, k: nat) {
    forall j :: 0 <= j <= k ==> At(mem, start, j) < end
  }

  lemma ReadIsVisited(mem: Memory, start: U32, end: U32, k: nat)
    requires Halts(mem, start, end)
    ensures Read(mem, start, end, k) <==> k < |Visited(mem, start, end)|
  {
    VisitedAre(mem, start, end);
  }

  /** The same with everything written out. With magic number 0x2BADB002, an information structure not
      in the first page and bit 6 of its flags set, a frame below 4 GB is free after `pmm_init` exactly
      if it lies wholly inside a region of type 1 among the entries read, and is neither the first
      page, nor between 0xb8000 and 0xc0000, nor overlapping the kernel (whose end must not be in the
      last page); otherwise the first 128 MB take the place of the regions. */
  lemma BootFreeWritten(info: BootInfo, kernelStart: U32, kernelEnd: U32, f: nat)
    requires info.Terminates() && info.AllHarmless()
    ensures f in Boot(info, kernelStart, kernelEnd).free <==>
      && f < 0x10_0000 && f != 0 && !(0xb8000 <= f * 4096 < 0xc0000)
      && !(kernelEnd <= 0xFFFF_F000 && f * 4096 < kernelEnd && kernelStart < (f + 1) * 4096)
      && if info.magic == 0x2BADB002 && info.addr >= 0x1000 && Bit(info.mbi.flags, 6)
         then exists k: nat :: ReadHolds(info, k, f)
         else f * 4096 < 128 * 1024 * 1024
  {
    BootFreeSet(info, kernelStart, kernelEnd, f);
    MapFlagBit(info.mbi.flags);
    if info.UsesMap() { BackedWritten(info, f); }
  }

  /** The entry read at place `k` is a region of type 1 with the frame inside. */
  ghost predicate ReadHolds(info: BootInfo, k: nat, f: nat) {
    && Read(info.mem, info.mbi.mmapAddr, Add32(info.mbi.mmapAddr, info.mbi.mmapLength), k)
    && var e := info.mem(At(info.mem, info.mbi.mmapAddr, k));
       e.kind == 1 && e.addr <= f * 4096 && (f + 1) * 4096 <= e.addr + e.len
  }

  lemma BackedWritten(info: BootInfo, f: nat)
    requires info.UsesMap() && info.Terminates()
    ensures info.Backed(f) <==> exists k: nat :: ReadHolds(info, k, f)
  {
    var start, end := info.mbi.mmapAddr, info.MapEnd();
    VisitedAre(info.mem, start, end);
    if info.Backed(f) {
      var e :| e in info.Map() && e.kind == AVAILABLE && Inside(f, e);
      var k :| 0 <= k < |info.Map()| && info.Map()[k] == e;
      ReadIsVisited(info.mem, start, end, k);
      assert ReadHolds(info, k, f);
    }
    if k: nat :| ReadHolds(info, k, f) {
      ReadIsVisited(info.mem, start, end, k);
      var e := info.Map()[k];
      assert e in info.Map() && e.kind == AVAILABLE && Inside(f, e);
    }
  }

  lemma MapFlagBit(flags: U32)
    ensures And(flags, FLAG_MMAP) != 0 <==> Bit(flags, 6)
  {
    assert Pow2(6) == 64 by { assert Pow2(3) == 8; }
    TestBit(flags, 6);
  }

  lemma {:induction false} UnionBound(es: seq<Entry>, f: nat)
    requires f in Union(es)
    ensures f < MAX_FRAMES
    decreases |es|
  {
    if f !in Frames(es[0]) { UnionBound(es[1..], f); }
  }

  /** The counters after `pmm_init`, for every memory map: they balance; a frame counted once per
      available region is taken off once, if its index is below the total and anything is left. */
  lemma BootCounters(es: seq<Entry>, kernelStart: U32, kernelEnd: U32)
    ensures var s := TakeRegions(MarkAll(Blank(), es), kernelStart, kernelEnd);
      var total, taken := Wrap32(Sum(es)), Taken(kernelStart, kernelEnd);
      && s.total == total && s.freeFrames + s.reserved == total
      && s.free == Union(es) - taken
      && s.freeFrames == Monus(total, |Counted(Union(es), taken, total)|)
  {
    var s := MarkAll(Blank(), es);
    MarkAllFrees(Blank(), es);
    MarkAllCounts(Blank(), es);
    assert s.free == Union(es);
    TakeRegionsCounts(s, kernelStart, kernelEnd);
  }

  /** `free_frames` undercounts the clear bits exactly when the 32-bit total has lost so much that
      it no longer covers the freed frames that it should count, and some of them are left. */
  lemma BootUndercounts(es: seq<Entry>, kernelStart: U32, kernelEnd: U32)
    ensures var s := TakeRegions(MarkAll(Blank(), es), kernelStart, kernelEnd);
      var total, taken := Wrap32(Sum(es)), Taken(kernelStart, kernelEnd);
      s.freeFrames < |s.free| <==>
        total + |Uncounted(Union(es), taken, total)| < |Union(es)| && !(Union(es) <= taken)
  {
    var total, taken := Wrap32(Sum(es)), Taken(kernelStart, kernelEnd);
    var left := Union(es) - taken;
    BootCounters(es, kernelStart, kernelEnd);
    TakenSplits(Union(es), taken, total);
    if Union(es) <= taken { assert left == {}; } else { var f :| f in Union(es) && f !in taken; assert f in left; }
  }

  /** As long as the total does not wrap the start is sound: nothing is undercounted, the counters
      balance, frame 0 is taken. The surplus is exactly the frames counted twice plus the free
      frames taken back with an index not below `total_frames`. */
  lemma BootCounts(es: seq<Entry>, kernelStart: U32, kernelEnd: U32)
    requires Sum(es) < 0x1_0000_0000
    ensures var s := TakeRegions(MarkAll(Blank(), es), kernelStart, kernelEnd);
      && Sound(s)
      && s.total == Sum(es)
      && s.freeFrames - |s.free| ==
           (Sum(es) - |Union(es)|) + |Uncounted(Union(es), Taken(kernelStart, kernelEnd), Sum(es))|
  {
    BootCounters(es, kernelStart, kernelEnd);
    TakenSplits(Union(es), Taken(kernelStart, kernelEnd), Sum(es));
    SumCovers(es);
    forall f | f in Union(es) ensures f < MAX_FRAMES { UnionBound(es, f); }
    assert 0 in Taken(kernelStart, kernelEnd);
  }

  /** `free_frames` is exact, for every memory map, exactly under this condition. */
  lemma BootCountExact(es: seq<Entry>, kernelStart: U32, kernelEnd: U32)
    ensures var s := TakeRegions(MarkAll(Blank(), es), kernelStart, kernelEnd);
      var total, taken := Wrap32(Sum(es)), Taken(kernelStart, kernelEnd);
      s.freeFrames == |s.free| <==>
        if Union(es) <= taken then total <= |Counted(Union(es), taken, total)|
        else total + |Uncounted(Union(es), taken, total)| == |Union(es)|
  {
    var total, taken := Wrap32(Sum(es)), Taken(kernelStart, kernelEnd);
    var left := Union(es) - taken;
    BootCounters(es, kernelStart, kernelEnd);
    TakenSplits(Union(es), taken, total);
    if Union(es) <= taken { assert left == {}; } else { var f :| f in Union(es) && f !in taken; assert f in left; }
  }

  /** When the total does not wrap the condition is: no frame is in two available regions and every
      free frame taken back has an index below the total. */
  lemma BootCountDisjoint(es: seq<Entry>, kernelStart: U32, kernelEnd: U32)
    requires Sum(es) < 0x1_0000_0000
    ensures var s := TakeRegions(MarkAll(Blank(), es), kernelStart, kernelEnd);
      s.freeFrames == |s.free| <==>
        Disjoint(es) && forall f :: f in Union(es) && f in Taken(kernelStart, kernelEnd) ==> f < Sum(es)
  {
    BootCounts(es, kernelStart, kernelEnd);
    SumCovers(es);
    var u := Uncounted(Union(es), Taken(kernelStart, kernelEnd), Sum(es));
    if u != {} { var f :| f in u; assert f in Union(es) && f in Taken(kernelStart, kernelEnd); }
    if u == {} { assert forall f :: f in Union(es) && f in Taken(kernelStart, kernelEnd) ==> f !in u; }
  }

  /** The counters of the boot state balance and frame 0 is taken, for whatever the loader passed. */
  lemma BootBalanced(info: BootInfo, kernelStart: U32, kernelEnd: U32)
    requires info.Terminates()
    ensures var s := Boot(info, kernelStart, kernelEnd);
      s.freeFrames + s.reserved == s.total && 0 !in s.free && forall f :: f in s.free ==> f < MAX_FRAMES
  {
    if info.UsesMap() {
      BootCounters(info.Map(), kernelStart, kernelEnd);
      forall f | f in Union(info.Map()) ensures f < MAX_FRAMES { UnionBound(info.Map(), f); }
      assert 0 in Taken(kernelStart, kernelEnd);
    } else {
      FallbackSound(kernelStart, kernelEnd);
    }
  }

  /** From boot on, over every run of allocations and frees of outstanding pages: a page handed
      out lies wholly in available memory, outside the null page, the VGA range and the kernel
      image, and nobody holds it; and if the boot count covers the free frames, none is handed
      out only when none is free. */
  lemma BootedAllocation(info: BootInfo, kernelStart: U32, kernelEnd: U32, states: seq<State>, es: seq<Event>, k: nat)
    requires info.Terminates() && info.AllHarmless()
    requires Run(states, es) && states[0] == State(Boot(info, kernelStart, kernelEnd), {}) && k < |es| && es[k].Alloc?
    ensures es[k].page != 0 ==>
      var f := es[k].page / FRAME_SIZE;
      && info.Backed(f) && f != 0 && !(0xb8 <= f < 0xc0)
      && !(KernelFits(kernelEnd) && Overlaps(f, kernelStart, kernelEnd))
      && f !in states[k].out
    ensures |states[0].pmm.free| <= states[0].pmm.freeFrames ==> (es[k].page == 0 <==> states[k].pmm.free == {})
  {
    BootBalanced(info, kernelStart, kernelEnd);
    AllocPartition(states, es, k);
    BootFreeSet(info, kernelStart, kernelEnd, es[k].page / FRAME_SIZE);
    if |states[0].pmm.free| <= states[0].pmm.freeFrames { AllocSafe(states, es, k); }
  }

  lemma FallbackSound(kernelStart: U32, kernelEnd: U32)
    ensures var s := TakeRegions(Fallback(), kernelStart, kernelEnd);
      Sound(s) && s.freeFrames == |s.free| && s.total == FALLBACK_FRAMES
  {
    SpanSize(0, FALLBACK_FRAMES);
    TakeRegionsCounts(Fallback(), kernelStart, kernelEnd);
    TakenSplits(Fallback().free, Taken(kernelStart, kernelEnd), FALLBACK_FRAMES);
    assert Uncounted(Fallback().free, Taken(kernelStart, kernelEnd), FALLBACK_FRAMES) == {};
    assert 0 in Taken(kernelStart, kernelEnd);
  }

  // ---- The counter can wrap ----

  lemma {:induction false} CopiesSum(e: Entry, n: nat)
    ensures Sum(Copies(e, n)) == n * |Frames(e)|
    ensures Union(Copies(e, n)) == if n == 0 then {} else Frames(e)
    decreases n
  {
    if n > 0 {
      CopiesSum(e, n - 1);
      assert Copies(e, n)[1..] == Copies(e, n - 1);
      assert n * |Frames(e)| == |Frames(e)| + (n - 1) * |Frames(e)|;
    }
  }

  lemma WholeSize(e: Entry)
    requires e.kind == AVAILABLE && e.addr == 0 && e.len == 0x1_0000_0000
    ensures |Frames(e)| == MAX_FRAMES
  {
    SpanSize(FrameStart(e), Least(FrameEnd(e), MAX_FRAMES));
  }

  /** The total can wrap: 4096 regions that each cover 4 GB leave the 32-bit counters at 0 while
      frames are free, so that no allocation succeeds. */
  lemma CounterWraps(e: Entry, n: nat, kernelStart: U32, kernelEnd: U32)
    requires e.kind == AVAILABLE && e.addr == 0 && e.len == 0x1_0000_0000 && n == 4096
    requires kernelStart >= 2 * FRAME_SIZE
    ensures var s := TakeRegions(MarkAll(Blank(), Copies(e, n)), kernelStart, kernelEnd);
      s.freeFrames == 0 && 1 in s.free
  {
    WholeSize(e);
    CopiesSum(e, n);
    BootCounters(Copies(e, n), kernelStart, kernelEnd);
    assert 1 in Frames(e) && 1 !in Taken(kernelStart, kernelEnd);
  }

  lemma {:induction false} CopiesAre(e: Entry, n: nat)
    ensures |Copies(e, n)| == n && forall x :: x in Copies(e, n) ==> x == e
  {
    if n > 0 { CopiesAre(e, n - 1); }
  }

  lemma MapFlag()
    ensures And(FLAG_MMAP, FLAG_MMAP) != 0
  {
    assert Pow2(6) == 64 by { assert Pow2(3) == 8; }
    TestBit(FLAG_MMAP, 6);
    BitOfPow2(6, 6);
  }

  /** The same as something a loader can pass: a straight map of 4096 entries of 24 bytes each, none
      of them harmful by itself. */
  lemma BootCountWraps(n: nat, kernelStart: U32, kernelEnd: U32) returns (info: BootInfo)
    requires n == 4096 && kernelStart >= 2 * FRAME_SIZE
    ensures info.UsesMap() && Straight(info.mem, info.mbi.mmapAddr, info.MapEnd()) && info.Terminates()
    ensures |info.Map()| == n && info.AllHarmless()
    ensures var s := Boot(info, kernelStart, kernelEnd); s.freeFrames == 0 && 1 in s.free
  {
    var e := Entry(20, 0, 0x1_0000_0000, AVAILABLE);
    info := UniformBoot(e, n);
    CopiesAre(e, n);
    CounterWraps(e, n, kernelStart, kernelEnd);
  }

  /** A loader's map of `n` equal entries. */
  lemma UniformBoot(e: Entry, n: nat) returns (info: BootInfo)
    requires e.size == 20 && 24 * n < 0x1000_0000
    ensures info.UsesMap() && Straight(info.mem, info.mbi.mmapAddr, info.MapEnd()) && info.Terminates()
    ensures info.Map() == Copies(e, n)
  {
    var mem: Memory := (_: U32) => e;
    info := BootInfo(MULTIBOOT_MAGIC, 0x1000, MultibootInfo(FLAG_MMAP, 24 * n, 0x10000), mem);
    MapFlag();
    UniformEntries(mem, e, 0x10000, n);
    VisitedIs(mem, 0x10000, 0x10000 + 24 * n, n);
  }
}
