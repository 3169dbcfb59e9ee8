/** Once paging is on, the code's loads and stores go through the page map: it reaches a directory or
    a table by the table's physical address, so that address has to be mapped to itself. */
module Reachability {
  import opened Words
  import opened FrameModel
  import opened Paging
  import opened SpaceModel

  /** The physical word that the linear address `f * 4096 + 4 * i` stands for when the processor
      walks `sp`; none if the access faults. */
  ghost function Landing(sp: Space, f: nat, i: nat): Option<(nat, nat)>
    requires WellFormed(sp)
  {
    match Flat(sp, f)
    case None => None
    case Some(t) => Some((t.frame, i))
  }

  /** The frame is mapped to itself. */
  ghost predicate Reaches(sp: Space, f: nat)
    requires WellFormed(sp)
  {
    Flat(sp, f).Some? && Flat(sp, f).value.frame == f
  }

  lemma LandsIff(sp: Space, f: nat, i: nat)
    requires WellFormed(sp)
    ensures Landing(sp, f, i) == Some((f, i)) <==> Reaches(sp, f)
  {
  }

  /** Every frame an address space is made of is mapped to itself in it. */
  ghost predicate SelfMapped(sp: Space) {
    WellFormed(sp) && forall f :: f in Frames(sp) ==> Reaches(sp, f)
  }

  // ---- The accesses of the calls ----

  /** Directory and table of a page, if it has one, are reached. */
  ghost predicate EntryReached(sp: Space, virt: U32)
    requires WellFormed(sp)
  {
    var i := virt / 0x1000 / 0x400;
    Reaches(sp, sp.dir) && (i in sp.tables ==> Reaches(sp, sp.tables[i]))
  }

  /** Everything a map of the page loads and stores is reached, the table it may have to add
      included. */
  ghost predicate MapReached(s: Pmm, sp: Space, virt: U32)
    requires WellFormed(sp)
  {
    && EntryReached(sp, virt)
    && (virt / 0x1000 / 0x400 in sp.tables || forall t :: IsLowest(s.free, t) ==> Reaches(sp, t))
  }

  /** In a self-mapped space a map reaches what it needs if and only if it needs no new table or the
      next free frame is mapped to itself. */
  lemma SelfMappedReaches(s: Pmm, sp: Space, virt: U32)
    requires SelfMapped(sp)
    ensures EntryReached(sp, virt)
    ensures MapReached(s, sp, virt) <==>
      virt / 0x1000 / 0x400 in sp.tables || forall t :: IsLowest(s.free, t) ==> Reaches(sp, t)
  {
    var i := virt / 0x1000 / 0x400;
    if i in sp.tables { assert sp.tables[i] in sp.tables.Values; }
  }

  /** One store of the code: a word at an index of the frame whose address it uses. */
  datatype Access = Access(frame: nat, index: nat, word: U32)

  /** The stores of a map that adds table `t` for directory index `i`: the table is cleared, entered
      in the directory and given its entry. */
  ghost predicate StoreOfMap(sp: Space, phys: U32, virt: U32, flags: U32, t: nat, added: bool, a: Access)
    requires WellFormed(sp) && t < MAX_FRAMES && phys % 0x1000 == 0
  {
    var i, j := virt / 0x1000 / 0x400, virt / 0x1000 % 0x400;
    || (added && a.frame == t && a.index < ENTRIES && a.word == 0)
    || (added && a == Access(sp.dir, i, TableEntry(t)))
    || a == Access(t, j, PageEntry(phys, flags))
  }

  /** Every store of a map lands on the word it is meant for, before and after the new table is
      entered, if and only if the table, and the directory where it is written, are mapped to
      themselves. */
  lemma MapStoresLand(sp: Space, phys: U32, virt: U32, flags: U32, t: nat, added: bool)
    requires WellFormed(sp) && t < MAX_FRAMES && phys % 0x1000 == 0
    requires var i := virt / 0x1000 / 0x400;
      if added then i !in sp.tables && t !in Frames(sp) else i in sp.tables && t == sp.tables[i]
    ensures (forall a: Access :: StoreOfMap(sp, phys, virt, flags, t, added, a) ==>
              Landing(sp, a.frame, a.index) == Some((a.frame, a.index)))
      <==> Reaches(sp, t) && (added ==> Reaches(sp, sp.dir))
    ensures added ==>
      var sp1 := sp.(tables := sp.tables[virt / 0x1000 / 0x400 := t]);
      WellFormed(sp1) && forall f, i :: Landing(sp1, f, i) == Landing(sp, f, i)
  {
    var i, j := virt / 0x1000 / 0x400, virt / 0x1000 % 0x400;
    assert StoreOfMap(sp, phys, virt, flags, t, added, Access(t, j, PageEntry(phys, flags)));
    if added {
      assert StoreOfMap(sp, phys, virt, flags, t, added, Access(sp.dir, i, TableEntry(t)));
      FreshTableFlat(sp, i, t);
    }
  }

  /** A cleared table translates nothing. */
  lemma FreshTableFlat(sp: Space, i: nat, t: nat)
    requires WellFormed(sp) && i < ENTRIES && i !in sp.tables && t < MAX_FRAMES && t !in Frames(sp)
    ensures var sp1 := sp.(tables := sp.tables[i := t]);
      WellFormed(sp1) && forall v :: Flat(sp1, v) == Flat(sp, v)
  {
    FreshTable(sp, i, t);
    ZeroTranslates(TableEntry(t));
  }

  // ---- What keeps a space self-mapped ----

  /** A map keeps a space self-mapped if and only if it does not map the address of one of its frames
      elsewhere, and the table it adds, if any, is mapped to itself, before or by this very map. */
  lemma MapKeepsSelf(s: Pmm, sp: Space, phys: U32, virt: U32, flags: U32, s': Pmm, sp': Space, r: U32)
    requires Holds(s, sp) && Maps(s, sp, phys, virt, flags, s', sp', r) && CanMap(s, sp, phys, virt) && SelfMapped(sp)
    ensures Holds(s', sp') && virt / 0x1000 / 0x400 in sp'.tables
    ensures SelfMapped(sp') <==>
      var v, t := virt / 0x1000, sp'.tables[virt / 0x1000 / 0x400];
      && (v in Frames(sp) || v == t ==> Bit(flags, 0) && phys == virt)
      && (t !in Frames(sp) && t != v ==> Reaches(sp, t))
  {
    var v, i := virt / 0x1000, virt / 0x1000 / 0x400;
    MapFlat(s, sp, phys, virt, flags, s', sp', r, 0);
    MapAddsTable(s, sp, phys, virt, flags, s', sp', r);
    forall f ensures Flat(sp', f) == if f == v then Requested(phys, flags) else Flat(sp, f) {
      MapFlat(s, sp, phys, virt, flags, s', sp', r, f);
    }
    OneChange(sp, sp', v, sp'.tables[i], Requested(phys, flags));
  }

  lemma OneChange(sp: Space, sp': Space, v: nat, t: nat, now: Option<Translation>)
    requires SelfMapped(sp) && WellFormed(sp') && Frames(sp') == Frames(sp) + {t}
    requires forall f :: Flat(sp', f) == if f == v then now else Flat(sp, f)
    ensures SelfMapped(sp') <==>
      && (v in Frames(sp) || v == t ==> now.Some? && now.value.frame == v)
      && (t !in Frames(sp) && t != v ==> Reaches(sp, t))
  {
    forall f ensures Reaches(sp', f) <==> if f == v then now.Some? && now.value.frame == v else Reaches(sp, f) {}
    assert SelfMapped(sp') ==> t in Frames(sp') && Reaches(sp', t);
  }

  /** The frames after a successful map: those before and the page's table. */
  lemma MapAddsTable(s: Pmm, sp: Space, phys: U32, virt: U32, flags: U32, s': Pmm, sp': Space, r: U32)
    requires Holds(s, sp) && Maps(s, sp, phys, virt, flags, s', sp', r) && CanMap(s, sp, phys, virt)
    ensures var i := virt / 0x1000 / 0x400;
      && i in sp'.tables && Frames(sp') == Frames(sp) + {sp'.tables[i]}
      && (if i in sp.tables then sp'.tables[i] == sp.tables[i] else IsLowest(s.free, sp'.tables[i]))
  {
    var i := virt / 0x1000 / 0x400;
    var page := MapShape(s, sp, phys, virt, flags, s', sp', r);
    if i in sp.tables {
      assert sp.tables[i] in sp.tables.Values;
    } else {
      TableValues(sp.tables, i, page / FRAME_SIZE);
    }
  }

  /** An unmap keeps it if and only if it does not take away the address of one of its frames. */
  lemma UnmapKeepsSelf(s: Pmm, sp: Space, virt: U32)
    requires Holds(s, sp) && SelfMapped(sp)
    ensures Holds(s, Unmapped(sp, virt))
    ensures SelfMapped(Unmapped(sp, virt)) <==> !(virt % 0x1000 == 0 && virt / 0x1000 in Frames(sp))
  {
    UnmapFlat(s, sp, virt, 0);
    var sp' := Unmapped(sp, virt);
    forall f ensures Flat(sp', f) == if virt % 0x1000 == 0 && f == virt / 0x1000 then None else Flat(sp, f) {
      UnmapFlat(s, sp, virt, f);
    }
  }

  /** Mapping the directory's own address elsewhere is accepted, and from then on the code's next
      store into the directory goes to the other frame. */
  lemma DirectoryStrays(s: Pmm, sp: Space, phys: U32, flags: U32, s': Pmm, sp': Space, r: U32, i: nat)
    requires Holds(s, sp) && SelfMapped(sp) && Bit(flags, 0) && phys % 0x1000 == 0 && phys / 0x1000 != sp.dir
    requires Maps(s, sp, phys, sp.dir * 0x1000, flags, s', sp', r)
    ensures CanMap(s, sp, phys, sp.dir * 0x1000)
    ensures Holds(s', sp') && sp'.dir == sp.dir && Landing(sp', sp'.dir, i) == Some((phys / 0x1000, i))
    ensures !SelfMapped(sp')
  {
    var virt: U32 := sp.dir * 0x1000;
    assert Reaches(sp, sp.dir) && virt / 0x1000 == sp.dir;
    MapFlat(s, sp, phys, virt, flags, s', sp', r, sp.dir);
    assert !Reaches(sp', sp'.dir) && sp'.dir in Frames(sp');
  }
}
