/** Page-table entries and the two-level walk (section 4.3 of the Intel SDM Volume 3A), and
    the flat map an address space stands for. */
module Paging {
  import opened Words
  import opened FrameModel

  const ENTRIES: nat := 1024

  // ---- Index macros, alignment and flags, as the code computes them ----

  function PdIndex(virt: U32): nat { And(virt / 0x40_0000, 0x3FF) }

  function PtIndex(virt: U32): nat { And(virt / 0x1000, 0x3FF) }

  function PageFrame(entry: U32): nat { And(entry, 0xFFFF_F000) }

  predicate Aligned(x: U32) { And(x, 0xFFF) == 0 }

  /** `if (flags & (1 << k)) x |= (1 << j)` */
  function CopyFlag(flags: U32, k: nat, x: nat, j: nat): nat {
    if And(flags, Pow2(k)) != 0 then Or(x, Pow2(j)) else x
  }

  /** The generic flags (present, writable, user, no-cache) translated to x86 entry bits. */
  function X86Flags(flags: U32): nat {
    CopyFlag(flags, 3, CopyFlag(flags, 2, CopyFlag(flags, 1, CopyFlag(flags, 0, 0, 0), 1), 2), 4)
  }

  lemma IndexValues(virt: U32)
    ensures PdIndex(virt) == virt / 0x1000 / 0x400 < ENTRIES
    ensures PtIndex(virt) == (virt / 0x1000) % 0x400 < ENTRIES
    ensures virt / 0x1000 == PdIndex(virt) * 0x400 + PtIndex(virt)
  {
    Pow2Values();
    AndLowMask(0, virt / 0x40_0000, 10);
    AndLowMask((virt / 0x1000) / 0x400, (virt / 0x1000) % 0x400, 10);
  }

  lemma AlignedValue(x: U32)
    ensures Aligned(x) <==> x % 0x1000 == 0
  {
    Pow2Values();
    AndLowMask(x / 0x1000, x % 0x1000, 12);
  }

  lemma PageFrameValue(entry: U32)
    ensures PageFrame(entry) == entry - entry % 0x1000
  {
    Pow2Values();
    AndHighMask(entry / 0x1000, entry % 0x1000, 12, 32);
  }

  lemma CopyFlagBits(flags: U32, k: nat, x: nat, j: nat, i: nat)
    requires x < Pow2(5) && j < 5
    ensures CopyFlag(flags, k, x, j) < Pow2(5)
    ensures Bit(CopyFlag(flags, k, x, j), i) == (Bit(x, i) || (i == j && Bit(flags, k)))
  {
    TestBit(flags, k);
    Pow2Mono(j, 5);
    OrBound(x, Pow2(j), 5);
    BitOfOr(x, Pow2(j), i);
    BitOfPow2(j, i);
  }

  /** Bit `i` of the x86 flags comes from one generic flag. */
  lemma X86FlagBits(flags: U32, i: nat)
    ensures X86Flags(flags) < Pow2(5)
    ensures Bit(X86Flags(flags), i) ==
      ((i < 3 && Bit(flags, i)) || (i == 4 && Bit(flags, 3)))
  {
    Pow2Mono(0, 5);
    BitOfZero(i);
    var a := CopyFlag(flags, 0, 0, 0);
    var b := CopyFlag(flags, 1, a, 1);
    var c := CopyFlag(flags, 2, b, 2);
    CopyFlagBits(flags, 0, 0, 0, i);
    CopyFlagBits(flags, 1, a, 1, i);
    CopyFlagBits(flags, 2, b, 2, i);
    CopyFlagBits(flags, 3, c, 4, i);
  }

  // ---- Entries ----

  lemma InPage(q: nat, r: nat)
    requires r < 0x1000
    ensures (q * 0x1000 + r) % 0x1000 == r && (q * 0x1000 + r) / 0x1000 == q
  {
  }

  lemma OrInPage(q: nat, r: nat, b: nat)
    requires r < 0x1000 && b < 0x1000
    ensures Or(q * 0x1000 + r, b) == q * 0x1000 + Or(r, b)
  {
    assert Pow2(12) == 0x1000 by { Pow2Values(); }
    OrLow(q, r, b, 12);
  }

  /** `phys | flags` with `phys` page-aligned. */
  lemma EntryValue(phys: U32, flags: nat)
    requires phys % 0x1000 == 0 && flags < 0x1000
    ensures Or(phys, flags) == phys + flags < 0x1_0000_0000
    ensures PageFrame(Or(phys, flags)) == phys
  {
    var q := phys / 0x1000;
    OrInPage(q, 0, flags);
    InPage(q, flags);
    PageFrameValue(phys + flags);
  }

  /** The low twelve bits of an entry are those of its flags. */
  lemma {:induction false} LowBits(q: nat, r: nat, k: nat, i: nat)
    requires i < k && r < Pow2(k)
    ensures Bit(q * Pow2(k) + r, i) == Bit(r, i)
    decreases k
  {
    Halve(q, r, k);
    if i > 0 { LowBits(q, r / 2, k - 1, i - 1); }
  }

  lemma EntryBits(phys: U32, flags: nat, i: nat)
    requires phys % 0x1000 == 0 && flags < 0x1000 && i < 12
    ensures Bit(Or(phys, flags), i) == Bit(flags, i)
  {
    EntryValue(phys, flags);
    assert Pow2(12) == 0x1000 by { Pow2Values(); }
    LowBits(phys / 0x1000, flags, 12, i);
  }

  datatype Option<T> = None | Some(value: T)

  /** Where a page goes and what may be done with it. */
  datatype Translation = Translation(frame: nat, writable: bool, user: bool, noCache: bool)

  /** What the processor makes of a directory entry and a table entry: both must be present,
      and a right must be granted by both (section 4.6.1 of the Intel SDM Volume 3A). */
  function Translate(pde: U32, pte: U32): Option<Translation> {
    if Bit(pde, 0) && Bit(pte, 0) then
      Some(Translation(pte / 0x1000, Bit(pde, 1) && Bit(pte, 1), Bit(pde, 2) && Bit(pte, 2), Bit(pte, 4)))
    else None
  }

  /** The directory entry the code installs for a table: present, writable, user. */
  function TableEntry(table: nat): (r: U32)
    requires table < MAX_FRAMES
    ensures r == table * 0x1000 + 7
  {
    TableEntryValue(table);
    Or(Or(Or(table * 0x1000, 1), 2), 4)
  }

  lemma TableEntryValue(table: nat)
    ensures Or(Or(Or(table * 0x1000, 1), 2), 4) == table * 0x1000 + 7
  {
    OrInPage(table, 0, 1);
    OrInPage(table, 1, 2);
    OrInPage(table, 3, 4);
    assert Or(1, 2) == 3 && Or(3, 4) == 7;
  }

  lemma TableEntryBits(table: nat)
    requires table < MAX_FRAMES
    ensures Bit(TableEntry(table), 0) && Bit(TableEntry(table), 1) && Bit(TableEntry(table), 2)
    ensures And(TableEntry(table), 1) != 0
    ensures PageFrame(TableEntry(table)) == table * 0x1000
  {
    EntryValue(table * 0x1000, 7);
    EntryBits(table * 0x1000, 7, 0);
    EntryBits(table * 0x1000, 7, 1);
    EntryBits(table * 0x1000, 7, 2);
    assert Pow2(0) == 1;
    TestBit(TableEntry(table), 0);
  }

  /** The table entry the code installs for a page. */
  function PageEntry(phys: U32, flags: U32): U32
    requires phys % 0x1000 == 0
  {
    X86FlagBits(flags, 0);
    Pow2Mono(5, 12);
    Pow2Values();
    EntryValue(phys, X86Flags(flags));
    Or(phys, X86Flags(flags))
  }

  lemma PageEntryBits(phys: U32, flags: U32, i: nat)
    requires phys % 0x1000 == 0 && i < 12
    ensures Bit(PageEntry(phys, flags), i) == ((i < 3 && Bit(flags, i)) || (i == 4 && Bit(flags, 3)))
    ensures PageEntry(phys, flags) / 0x1000 == phys / 0x1000
  {
    X86FlagBits(flags, i);
    Pow2Mono(5, 12);
    Pow2Values();
    EntryValue(phys, X86Flags(flags));
    EntryBits(phys, X86Flags(flags), i);
  }

  /** Under a directory entry of the code's making, a page entry translates to the frame and the
      rights that were asked for, or to nothing if it was not asked to be present. */
  lemma PageEntryTranslates(table: nat, phys: U32, flags: U32)
    requires table < MAX_FRAMES && phys % 0x1000 == 0
    ensures Translate(TableEntry(table), PageEntry(phys, flags)) == Requested(phys, flags)
  {
    TableEntryBits(table);
    PageEntryBits(phys, flags, 0);
    PageEntryBits(phys, flags, 1);
    PageEntryBits(phys, flags, 2);
    PageEntryBits(phys, flags, 4);
  }

  /** What a caller of `mmu_map_page` asks for. */
  function Requested(phys: U32, flags: U32): Option<Translation> {
    if Bit(flags, 0) then Some(Translation(phys / 0x1000, Bit(flags, 1), Bit(flags, 2), Bit(flags, 3))) else None
  }

  /** Present and writable, nothing else. */
  lemma SupervisorWritable(phys: U32)
    ensures Requested(phys, 3) == Some(Translation(phys / 0x1000, true, false, false))
  {
    assert Bit(3, 0) && Bit(3, 1);
    assert !Bit(3, 2) && !Bit(3, 3) by {
      assert Bit(3, 2) == Bit(1, 1) == Bit(0, 0);
      assert Bit(3, 3) == Bit(1, 2) == Bit(0, 1);
    }
  }

  lemma LowBitValues(x: nat)
    ensures Bit(x, 0) == (x % 2 == 1) && Bit(x, 1) == (x / 2 % 2 == 1) && Bit(x, 2) == (x / 4 % 2 == 1)
    ensures Bit(x, 3) == (x / 8 % 2 == 1) && Bit(x, 4) == (x / 16 % 2 == 1)
  {
    assert x / 2 / 2 == x / 4 && x / 2 / 2 / 2 == x / 8 && x / 2 / 2 / 2 / 2 == x / 16;
  }

  /** A caller asks for a present page with flag 1, a writable one with 2, one for user mode with 4, an
      uncached one with 8. */
  lemma RequestedWritten(phys: U32, flags: U32)
    ensures Requested(phys, flags) ==
      if flags % 2 == 0 then None
      else Some(Translation(phys / 0x1000, flags / 2 % 2 == 1, flags / 4 % 2 == 1, flags / 8 % 2 == 1))
  {
    LowBitValues(flags);
  }

  /** The processor takes bit 0 of both entries for present, bit 1 of both for writable, bit 2 of both
      for user mode, bit 4 of the table entry for uncached, and its upper 20 bits for the frame. */
  lemma TranslateWritten(pde: U32, pte: U32)
    ensures Translate(pde, pte) ==
      if pde % 2 == 0 || pte % 2 == 0 then None
      else Some(Translation(pte / 0x1000, pde / 2 % 2 == 1 && pte / 2 % 2 == 1, pde / 4 % 2 == 1 && pte / 4 % 2 == 1,
                            pte / 16 % 2 == 1))
  {
    LowBitValues(pde);
    LowBitValues(pte);
  }
}
