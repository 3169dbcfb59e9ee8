/** The allocator as the kernel keeps it: one bit per frame in a byte array, and counters. */
module FrameAllocator {
  import opened Words
  import opened FrameModel
  import opened MemoryMap
  import opened BootMemory

  const BITMAP_SIZE: nat := 0x2_0000

  class Allocator {
    const bitmap: array<U8>
    var total: U32
    var freeFrames: U32
    var reserved: U32
    var initialized: bool

    ghost predicate Valid() { bitmap.Length == BITMAP_SIZE }

    /** The bit of frame `f` is set. */
    ghost predicate Used(f: int)
      requires Valid() && 0 <= f < MAX_FRAMES
      reads bitmap
    {
      Bit(bitmap[f / 8], f % 8)
    }

    /** The clear bits are exactly the set `free`. */
    ghost predicate Clear(free: set<nat>)
      requires Valid()
      reads bitmap
    {
      && (forall f :: f in free ==> f < MAX_FRAMES)
      && (forall f {:trigger Used(f)} :: 0 <= f < MAX_FRAMES ==> (Used(f) <==> f !in free))
    }

    ghost predicate Shows(s: Pmm)
      reads `total, `freeFrames, `reserved, bitmap
    {
      && Valid()
      && Clear(s.free)
      && s == Pmm(s.free, freeFrames, total, reserved)
    }

    constructor ()
      ensures Valid() && !initialized && fresh(bitmap)
    {
      bitmap := new U8[BITMAP_SIZE](_ => 0);
      total, freeFrames, reserved, initialized := 0, 0, 0, false;
    }

    method BitmapTest(f: nat) returns (set_: bool)
      requires Valid() && f < MAX_FRAMES
      ensures set_ == Used(f)
    {
      TestBit(bitmap[f / 8], f % 8);
      set_ := And(bitmap[f / 8], Pow2(f % 8)) != 0;
    }

    method BitmapSet(f: nat, ghost free: set<nat>)
      requires Valid() && f < MAX_FRAMES && Clear(free)
      modifies bitmap
      ensures Clear(free - {f})
    {
      Pow2Values();
      ghost var was := bitmap[f / 8];
      bitmap[f / 8] := SetBit(8, bitmap[f / 8], f % 8);
      forall g | 0 <= g < MAX_FRAMES ensures Used(g) <==> g !in free - {f} {
        assert old(Used(g)) <==> g !in free;
        SetBitBits(8, was, f % 8, g % 8);
      }
    }

    method BitmapClear(f: nat, ghost free: set<nat>)
      requires Valid() && f < MAX_FRAMES && Clear(free)
      modifies bitmap
      ensures Clear(free + {f})
    {
      Pow2Values();
      ghost var was := bitmap[f / 8];
      bitmap[f / 8] := ClearBit(8, bitmap[f / 8], f % 8);
      forall g | 0 <= g < MAX_FRAMES ensures Used(g) <==> g !in free + {f} {
        assert old(Used(g)) <==> g !in free;
        ClearBitBits(8, was, f % 8, g % 8);
      }
    }

    /** `bitmap_find_free`: the lowest clear bit, or MAX_FRAMES. */
    method FindFree() returns (f: nat)
      requires Valid()
      ensures f <= MAX_FRAMES
      ensures forall g {:trigger Used(g)} :: 0 <= g < f ==> Used(g)
      ensures f < MAX_FRAMES ==> !Used(f)
    {
      Pow2Values();
      var i := 0;
      while i < BITMAP_SIZE
        invariant 0 <= i <= BITMAP_SIZE
        invariant forall g {:trigger Used(g)} :: 0 <= g < 8 * i ==> Used(g)
      {
        if bitmap[i] != 0xFF {
          var bit := 0;
          while bit < 8
            invariant 0 <= bit <= 8
            invariant forall g {:trigger Used(g)} :: 0 <= g < 8 * i + bit ==> Used(g)
          {
            TestBit(bitmap[i], bit);
            assert (8 * i + bit) / 8 == i && (8 * i + bit) % 8 == bit;
            assert Used(8 * i + bit) <==> Bit(bitmap[i], bit);
            if And(bitmap[i], Pow2(bit)) == 0 {
              return i * 8 + bit;
            }
            bit := bit + 1;
          }
        } else {
          forall g | 8 * i <= g < 8 * (i + 1) ensures Used(g) {
            AllOnes(8, g % 8);
            assert g / 8 == i;
          }
        }
        i := i + 1;
      }
      f := MAX_FRAMES;
    }

    lemma AllUsed(free: set<nat>)
      requires Valid() && Clear(free)
      requires forall f {:trigger Used(f)} :: 0 <= f < MAX_FRAMES ==> Used(f)
      ensures free == {}
    {
      forall f: nat ensures f !in free {
        if f < MAX_FRAMES { assert Used(f); }
      }
    }

    /** `pmm_alloc_page`. */
    method AllocPage(ghost s: Pmm) returns (page: U32, ghost s': Pmm)
      requires Valid() && Shows(s)
      modifies `freeFrames, bitmap
      ensures Shows(s')
      ensures if initialized then Allocates(s, page, s') else page == 0 && s' == s
    {
      s' := s;
      if !initialized {
        return 0, s;
      }
      if freeFrames == 0 {
        return 0, s;
      }
      var frame := FindFree();
      if frame >= MAX_FRAMES {
        AllUsed(s.free);
        return 0, s;
      }
      forall g | g in s.free ensures frame <= g { assert !Used(g); }
      BitmapSet(frame, s.free);
      freeFrames := freeFrames - 1;
      page := frame * 4096;
      s' := s.(free := s.free - {frame}, freeFrames := s.freeFrames - 1);
    }

    /** `pmm_free_page`. */
    method FreePage(page: U32, ghost s: Pmm)
      requires Valid() && Shows(s)
      modifies `freeFrames, bitmap
      ensures Shows(Release(s, page / 4096))
    {
      var frame := page / 4096;
      var set_ := BitmapTest(frame);
      if !set_ {
        return;
      }
      BitmapClear(frame, s.free);
      freeFrames := Inc32(freeFrames);
    }

    /** `pmm_reserve_region`. */
    method ReserveRegion(start: U32, size: U32, ghost s: Pmm)
      requires Valid() && Shows(s)
      modifies `freeFrames, `reserved, bitmap
      ensures Shows(Reserve(s, start, size))
    {
      var frame := start / 4096;
      var end := Add32(Add32(start, size), 4095) / 4096;
      ghost var lo := frame;
      while frame < end
        invariant lo <= frame && (frame <= end || frame == lo)
        invariant Shows(ReserveSpan(s, lo, frame))
      {
        ghost var now := ReserveSpan(s, lo, frame);
        var used := BitmapTest(frame);
        if !used && frame < total {
          if freeFrames > 0 {
            freeFrames := freeFrames - 1;
            reserved := Inc32(reserved);
          }
        }
        BitmapSet(frame, now.free);
        assert frame !in now.free ==> now.free - {frame} == now.free;
        frame := frame + 1;
      }
    }

    /** Marks every frame allocated and clears the counters. */
    method FillBitmap()
      requires Valid()
      modifies `total, `freeFrames, `reserved, bitmap
      ensures Shows(Blank())
    {
      var i := 0;
      while i < BITMAP_SIZE
        invariant 0 <= i <= BITMAP_SIZE
        invariant forall k :: 0 <= k < i ==> bitmap[k] == 0xFF
      {
        bitmap[i] := 0xFF;
        i := i + 1;
      }
      total, freeFrames, reserved := 0, 0, 0;
      Pow2Values();
      forall f | 0 <= f < MAX_FRAMES ensures Used(f) { AllOnes(8, f % 8); }
    }

    /** Frees the frames `lo <= f < hi` that exist, counting each. */
    method FreeRange(lo: nat, hi: nat, ghost s: Pmm)
      requires Valid() && Shows(s)
      modifies `total, `freeFrames, bitmap
      ensures |Span(lo, Least(hi, MAX_FRAMES))| <= MAX_FRAMES
      ensures Shows(MarkFrames(s, Span(lo, Least(hi, MAX_FRAMES))))
    {
      var frame := lo;
      SpanSize(lo, Least(lo, MAX_FRAMES));
      while frame < hi
        invariant lo <= frame && (frame <= hi || frame == lo)
        invariant |Span(lo, Least(frame, MAX_FRAMES))| <= MAX_FRAMES
        invariant Shows(MarkFrames(s, Span(lo, Least(frame, MAX_FRAMES))))
      {
        SpanSize(lo, Least(frame + 1, MAX_FRAMES));
        if frame < MAX_FRAMES {
          MarkNext(s, lo, frame);
          BitmapClear(frame, s.free + Span(lo, frame));
          total := Inc32(total);
          freeFrames := Inc32(freeFrames);
        }
        frame := frame + 1;
      }
      assert hi < lo ==> Span(lo, Least(hi, MAX_FRAMES)) == {} == Span(lo, Least(lo, MAX_FRAMES));
    }

    /** Freeing one more frame. */
    lemma MarkNext(s: Pmm, lo: nat, f: nat)
      requires lo <= f < MAX_FRAMES
      ensures |Span(lo, f)| <= MAX_FRAMES && |Span(lo, f + 1)| <= MAX_FRAMES
      ensures var m := MarkFrames(s, Span(lo, f));
        MarkFrames(s, Span(lo, f + 1)) ==
          m.(free := m.free + {f}, freeFrames := Inc32(m.freeFrames), total := Inc32(m.total))
    {
      SpanSize(lo, f);
      SpanSize(lo, f + 1);
      assert s.free + Span(lo, f + 1) == (s.free + Span(lo, f)) + {f};
    }

    /** One entry of the memory map. */
    method VisitEntry(e: Entry, ghost s: Pmm)
      requires Valid() && Shows(s)
      modifies `total, `freeFrames, bitmap
      ensures Shows(MarkFrames(s, Frames(e)))
    {
      if e.kind == AVAILABLE {
        FreeRange(FrameStart(e), FrameEnd(e), s);
      } else {
        assert s.free + {} == s.free;
      }
    }

    /** The memory-map walk of `pmm_init`, wherever it terminates. */
    method WalkMap(mem: Memory, start: U32, end: U32)
      requires Valid() && Shows(Blank()) && Halts(mem, start, end)
      modifies `total, `freeFrames, bitmap
      ensures Shows(MarkAll(Blank(), Visited(mem, start, end)))
    {
      var a: U32 := start;
      ghost var now, n: nat := Blank(), (var n: nat :| Ends(mem, start, end, n); n);
      VisitedIs(mem, start, end, n);
      while a < end
        invariant Ends(mem, a, end, n) && Shows(now)
        invariant MarkAll(now, Entries(mem, a, end, n)) == MarkAll(Blank(), Visited(mem, start, end))
        decreases n
      {
        var e := mem(a);
        ghost var es := Entries(mem, a, end, n);
        VisitEntry(e, now);
        now := MarkFrames(now, Frames(e));
        a := Add32(Add32(a, e.size), 4);
        n := n - 1;
        assert es[0] == e && es[1..] == Entries(mem, a, end, n);
      }
    }

    /** `pmm_init`. */
    method Init(info: BootInfo, kernelStart: U32, kernelEnd: U32)
      requires Valid() && info.Terminates()
      modifies this, bitmap
      ensures initialized && Shows(Boot(info, kernelStart, kernelEnd))
    {
      FillBitmap();
      ghost var s := Blank();
      if info.magic != MULTIBOOT_MAGIC || info.addr < 0x1000 || And(info.mbi.flags, FLAG_MMAP) == 0 {
        FreeRange(0, FALLBACK_FRAMES, s);
        s := Fallback();
      } else {
        WalkMap(info.mem, info.mbi.mmapAddr, info.MapEnd());
        s := MarkAll(s, info.Map());
      }
      ReserveRegion(0, 4096, s);
      s := Reserve(s, 0, 4096);
      ReserveRegion(VGA_START, VGA_SIZE, s);
      s := Reserve(s, VGA_START, VGA_SIZE);
      ReserveRegion(kernelStart, Sub32(kernelEnd, kernelStart), s);
      initialized := true;
    }
  }
}
