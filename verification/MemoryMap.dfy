/** The memory map a Multiboot loader passes (section 3.3 of the Multiboot Specification 0.6.96)
    and the walk over it, in the 32-bit address arithmetic of the code. */
module MemoryMap {
  import opened Words

  datatype Entry = Entry(size: U32, addr: U64, len: U64, kind: U32)

  /** Memory as the walk reads it: the entry that starts at an address. */
  type Memory = U32 -> Entry

  /** Where the walk goes from `a`: past the entry and its size field. */
  function NextEntry(mem: Memory, a: U32): U32 { Add32(Add32(a, mem(a).size), 4) }

  /** The walk from `a` is over after at most `n` entries. */
  ghost predicate Ends(mem: Memory, a: U32, end: U32, n: nat)
    decreases n
  {
    a >= end || (n > 0 && Ends(mem, NextEntry(mem, a), end, n - 1))
  }

  /** The loop terminates. */
  ghost predicate Halts(mem: Memory, a: U32, end: U32) { exists n: nat :: Ends(mem, a, end, n) }

  ghost function Entries(mem: Memory, a: U32, end: U32, n: nat): seq<Entry>
    decreases n
  {
    if a >= end || n == 0 then [] else [mem(a)] + Entries(mem, NextEntry(mem, a), end, n - 1)
  }

  /** The entries the walk visits. */
  ghost function Visited(mem: Memory, a: U32, end: U32): seq<Entry>
    requires Halts(mem, a, end)
  {
    var n: nat :| Ends(mem, a, end, n);
    Entries(mem, a, end, n)
  }

  lemma {:induction false} EntriesSame(mem: Memory, a: U32, end: U32, n: nat, k: nat)
    requires Ends(mem, a, end, n) && Ends(mem, a, end, k)
    ensures Entries(mem, a, end, n) == Entries(mem, a, end, k)
    decreases n
  {
    if a < end { EntriesSame(mem, NextEntry(mem, a), end, n - 1, k - 1); }
  }

  /** Any number of steps that is enough gives the entries visited. */
  lemma VisitedIs(mem: Memory, a: U32, end: U32, n: nat)
    requires Ends(mem, a, end, n)
    ensures Visited(mem, a, end) == Entries(mem, a, end, n)
  {
    var k: nat :| Ends(mem, a, end, k) && Visited(mem, a, end) == Entries(mem, a, end, k);
    EntriesSame(mem, a, end, n, k);
  }

  /** Following the entry sizes from `a` never wraps the 32-bit address before `end`. */
  ghost predicate Straight(mem: Memory, a: U32, end: U32)
    decreases end - a
  {
    a < end ==>
      && a + mem(a).size + 4 < 0x1_0000_0000
      && Straight(mem, a + mem(a).size + 4, end)
  }

  /** The walk terminates on every map that does not wrap. */
  lemma {:induction false} StraightHalts(mem: Memory, a: U32, end: U32)
    requires Straight(mem, a, end)
    ensures Halts(mem, a, end)
    decreases end - a
  {
    if a < end {
      StraightHalts(mem, a + mem(a).size + 4, end);
      var n: nat :| Ends(mem, a + mem(a).size + 4, end, n);
      assert Ends(mem, a, end, n + 1);
    } else {
      assert Ends(mem, a, end, 0);
    }
  }

  // ---- When the walk ends ----

  /** The address after `k` entries. */
  ghost function At(mem: Memory, a: U32, k: nat): U32 {
    if k == 0 then a else NextEntry(mem, At(mem, a, k - 1))
  }

  lemma {:induction false} AtNext(mem: Memory, a: U32, k: nat)
    ensures At(mem, a, k + 1) == At(mem, NextEntry(mem, a), k)
  {
    if k > 0 { AtNext(mem, a, k - 1); }
  }

  lemma {:induction false} EndOf(mem: Memory, a: U32, end: U32, n: nat) returns (k: nat)
    requires Ends(mem, a, end, n)
    ensures k <= n && At(mem, a, k) >= end
    decreases n
  {
    if a >= end {
      k := 0;
    } else {
      var j := EndOf(mem, NextEntry(mem, a), end, n - 1);
      AtNext(mem, a, j);
      k := j + 1;
    }
  }

  lemma {:induction false} EndsBy(mem: Memory, a: U32, end: U32, n: nat, k: nat)
    requires k <= n && At(mem, a, k) >= end
    ensures Ends(mem, a, end, n)
    decreases n
  {
    if k > 0 {
      AtNext(mem, a, k - 1);
      EndsBy(mem, NextEntry(mem, a), end, n - 1, k - 1);
    }
  }

  /** The walk comes back to an address before it reaches the end. */
  ghost predicate Repeats(mem: Memory, a: U32, end: U32) {
    exists i, j :: 0 <= i < j && At(mem, a, i) == At(mem, a, j) && Within(mem, a, end, j)
  }

  ghost predicate Within(mem: Memory, a: U32, end: U32, j: nat) {
    forall k :: 0 <= k <= j ==> At(mem, a, k) < end
  }

  /** From a repeated address on everything repeats. */
  lemma {:induction false} SameFrom(mem: Memory, a: U32, i: nat, j: nat, m: nat)
    requires At(mem, a, i) == At(mem, a, j)
    ensures At(mem, a, i + m) == At(mem, a, j + m)
  {
    if m > 0 { SameFrom(mem, a, i, j, m - 1); }
  }

  lemma {:induction false} RepeatsForever(mem: Memory, a: U32, end: U32, i: nat, j: nat, k: nat)
    requires i < j && At(mem, a, i) == At(mem, a, j) && Within(mem, a, end, j)
    ensures At(mem, a, k) < end
    decreases k
  {
    if k > j {
      SameFrom(mem, a, i, j, k - j);
      RepeatsForever(mem, a, end, i, j, k - (j - i));
    }
  }

  /** The addresses before entry `k`. */
  ghost function Seen(mem: Memory, a: U32, k: nat): set<nat> {
    if k == 0 then {} else Seen(mem, a, k - 1) + {At(mem, a, k - 1)}
  }

  lemma {:induction false} SeenAt(mem: Memory, a: U32, k: nat, x: nat) returns (i: nat)
    requires x in Seen(mem, a, k)
    ensures i < k && At(mem, a, i) == x
  {
    if x == At(mem, a, k - 1) { i := k - 1; } else { i := SeenAt(mem, a, k - 1, x); }
  }

  /** As long as no address repeats, `k` entries are at `k` addresses. */
  lemma {:induction false} SeenSize(mem: Memory, a: U32, k: nat)
    requires forall i, j :: 0 <= i < j < k ==> At(mem, a, i) != At(mem, a, j)
    ensures |Seen(mem, a, k)| == k
  {
    if k > 0 {
      SeenSize(mem, a, k - 1);
      if At(mem, a, k - 1) in Seen(mem, a, k - 1) { var i := SeenAt(mem, a, k - 1, At(mem, a, k - 1)); }
    }
  }

  lemma {:induction false} BelowSize(s: set<nat>, n: nat)
    requires forall x :: x in s ==> x < n
    ensures |s| <= n
  {
    if n > 0 { BelowSize(s - {n - 1}, n - 1); }
  }

  /** More entries than addresses below the end: one repeats. */
  lemma TooMany(mem: Memory, a: U32, end: U32)
    requires Within(mem, a, end, end)
    ensures Repeats(mem, a, end)
  {
    if forall i, j :: 0 <= i < j < end + 1 ==> At(mem, a, i) != At(mem, a, j) {
      SeenSize(mem, a, end + 1);
      var seen := Seen(mem, a, end + 1);
      forall x | x in seen ensures x < end { var i := SeenAt(mem, a, end + 1, x); }
      BelowSize(seen, end);
    } else {
      var i, j :| 0 <= i < j < end + 1 && At(mem, a, i) == At(mem, a, j);
      assert Within(mem, a, end, j);
    }
  }

  /** The walk ends if and only if it never comes back to an address before the end; and if it ends
      at all it does so within as many entries as there are addresses below the end. */
  lemma HaltsExactly(mem: Memory, a: U32, end: U32)
    ensures Halts(mem, a, end) <==> !Repeats(mem, a, end)
    ensures Halts(mem, a, end) <==> Ends(mem, a, end, end)
  {
    if n: nat :| Ends(mem, a, end, n) {
      var k := EndOf(mem, a, end, n);
      forall i: nat, j: nat | i < j && At(mem, a, i) == At(mem, a, j) ensures !Within(mem, a, end, j) {
        if Within(mem, a, end, j) { RepeatsForever(mem, a, end, i, j, k); }
      }
    }
    if !Ends(mem, a, end, end) {
      forall k | 0 <= k <= end ensures At(mem, a, k) < end {
        if At(mem, a, k) >= end { EndsBy(mem, a, end, end, k); }
      }
      TooMany(mem, a, end);
    }
  }

  /** An entry of size -4 is visited for ever. */
  lemma EndlessWalk(mem: Memory, a: U32, end: U32)
    requires a < end && mem(a).size == 0xFFFF_FFFC
    ensures Repeats(mem, a, end) && !Halts(mem, a, end)
  {
    assert At(mem, a, 0) == a && At(mem, a, 1) == a;
    assert Within(mem, a, end, 1);
    HaltsExactly(mem, a, end);
  }

  /** A map may wrap and still end. */
  lemma WrapsAndEnds(mem: Memory)
    requires mem(0x10).size == 0xFFFF_FFF0 && mem(4).size == 0x100
    ensures !Straight(mem, 0x10, 0x20) && Halts(mem, 0x10, 0x20)
  {
    assert NextEntry(mem, 0x10) == 4 && NextEntry(mem, 4) == 0x108;
    assert Ends(mem, 0x108, 0x20, 0) && Ends(mem, 4, 0x20, 1) && Ends(mem, 0x10, 0x20, 2);
  }

  // ---- Which entries the walk visits ----

  lemma {:induction false} EntriesAre(mem: Memory, a: U32, end: U32, n: nat, k: nat)
    requires Ends(mem, a, end, n) && k < |Entries(mem, a, end, n)|
    ensures At(mem, a, k) < end && Entries(mem, a, end, n)[k] == mem(At(mem, a, k))
    decreases n
  {
    if k > 0 {
      EntriesAre(mem, NextEntry(mem, a), end, n - 1, k - 1);
      AtNext(mem, a, k - 1);
    }
  }

  lemma {:induction false} EntriesStop(mem: Memory, a: U32, end: U32, n: nat)
    requires Ends(mem, a, end, n)
    ensures At(mem, a, |Entries(mem, a, end, n)|) >= end
    decreases n
  {
    if a < end {
      EntriesStop(mem, NextEntry(mem, a), end, n - 1);
      AtNext(mem, a, |Entries(mem, NextEntry(mem, a), end, n - 1)|);
    }
  }

  /** The walk reads the entry at the start address, then the one that many bytes further, and so on:
      entry `k` is read at the address after `k` entries, which is before the end, and it stops at the
      first address that is not. */
  lemma VisitedAre(mem: Memory, a: U32, end: U32)
    requires Halts(mem, a, end)
    ensures At(mem, a, 0) == a
    ensures forall k: nat :: At(mem, a, k + 1) == (At(mem, a, k) + mem(At(mem, a, k)).size + 4) % 0x1_0000_0000
    ensures forall k :: 0 <= k < |Visited(mem, a, end)| ==>
      At(mem, a, k) < end && Visited(mem, a, end)[k] == mem(At(mem, a, k))
    ensures At(mem, a, |Visited(mem, a, end)|) >= end
  {
    var n: nat :| Ends(mem, a, end, n);
    VisitedIs(mem, a, end, n);
    forall k | 0 <= k < |Visited(mem, a, end)|
      ensures At(mem, a, k) < end && Visited(mem, a, end)[k] == mem(At(mem, a, k))
    {
      EntriesAre(mem, a, end, n, k);
    }
    EntriesStop(mem, a, end, n);
    forall k: nat ensures At(mem, a, k + 1) == (At(mem, a, k) + mem(At(mem, a, k)).size + 4) % 0x1_0000_0000 {
      StepAddress(At(mem, a, k), mem(At(mem, a, k)).size);
    }
  }

  lemma StepAddress(a: U32, size: U32)
    ensures Add32(Add32(a, size), 4) == (a + size + 4) % 0x1_0000_0000
  {
  }

  // ---- Maps of equal entries ----

  function Copies(e: Entry, n: nat): seq<Entry> { if n == 0 then [] else [e] + Copies(e, n - 1) }

  /** `n` entries of the usual size 20, one after the other, all alike. */
  lemma {:induction false} UniformEntries(mem: Memory, e: Entry, a: U32, n: nat)
    requires e.size == 20 && a + 24 * n < 0x1_0000_0000 && forall x: U32 :: mem(x) == e
    ensures Straight(mem, a, a + 24 * n) && Ends(mem, a, a + 24 * n, n)
    ensures Entries(mem, a, a + 24 * n, n) == Copies(e, n)
    decreases n
  {
    if n > 0 { UniformEntries(mem, e, a + 24, n - 1); }
  }
}
