/** `vmm_map_page`, `vmm_unmap_page` and `vmm_virt_to_phys` (src/kernel/mm/vmm.c) as functions on
    machines, proved to be the update, removal and lookup of one key of a finite map. */
module VirtualMemory {
  import opened Words
  import opened PageTables
  import opened Walker

  /** `(phys & ~0xFFF) | flags | PAGE_PRESENT` for flags below 0x1000. */
  function LeafEntry(pa: Word, flags: nat): Word
    requires flags < 4096
  {
    pa - pa % 4096 + flags + (1 - flags % 2)
  }

  function MapPage(m: Machine, v: VPage, pa: Word, flags: nat): Machine
    requires Inv(m) && PathClear(m.mem, m.root, v) && flags < 4096
  {
    var (n, r) := Reach(m, Pt(v), true, User(flags));
    if r.None? then n else n.(mem := Store(n.mem, r.value, v.i1, LeafEntry(pa, flags)))
  }

  function UnmapPage(m: Machine, v: VPage): Machine
    requires Inv(m) && PathClear(m.mem, m.root, v)
  {
    var (n, r) := Reach(m, Pt(v), false, false);
    if r.None? || !Present(n.mem[r.value][v.i1]) then n else n.(mem := Store(n.mem, r.value, v.i1, 0))
  }

  /** `(entry & ~0xFFF) | (virt & 0xFFF)`. */
  function PhysicalAddress(e: Word, offset: nat): Word
    requires offset < 4096
  {
    e - e % 4096 + offset
  }

  /** `vmm_virt_to_phys` for the byte at `offset` of the page v. */
  function VirtToPhys(m: Machine, v: VPage, offset: nat): Word
    requires Inv(m) && PathClear(m.mem, m.root, v) && offset < 4096
  {
    var (n, r) := Reach(m, Pt(v), false, false);
    if r.None? || !Present(n.mem[r.value][v.i1]) then 0
    else PhysicalAddress(n.mem[r.value][v.i1], offset)
  }

  // The three operations on any tables, also below 1 GB, where the loader made 2 MB pages.

  function MapAnywhere(m: Machine, v: VPage, pa: Word, flags: nat): Machine
    requires Sound(m) && flags < 4096
  {
    var (n, r) := GetPte(m, v, true, User(flags));
    if r.None? || r.value >= |n.mem| then n else n.(mem := Store(n.mem, r.value, v.i1, LeafEntry(pa, flags)))
  }

  function UnmapAnywhere(m: Machine, v: VPage): Machine
    requires Sound(m)
  {
    var (n, r) := GetPte(m, v, false, false);
    if r.None? || r.value >= |n.mem| || !Present(n.mem[r.value][v.i1]) then n else n.(mem := Store(n.mem, r.value, v.i1, 0))
  }

  function LookupAnywhere(m: Machine, v: VPage, offset: nat): Word
    requires Sound(m) && offset < 4096
  {
    var (n, r) := GetPte(m, v, false, false);
    if r.None? || r.value >= |n.mem| || !Present(n.mem[r.value][v.i1]) then 0
    else PhysicalAddress(n.mem[r.value][v.i1], offset)
  }

  lemma OnClearPath(m: Machine, v: VPage)
    requires Inv(m) && PathClear(m.mem, m.root, v)
    ensures forall pa: Word, flags: nat | flags < 4096 :: MapAnywhere(m, v, pa, flags) == MapPage(m, v, pa, flags)
    ensures UnmapAnywhere(m, v) == UnmapPage(m, v)
    ensures forall offset: nat | offset < 4096 :: LookupAnywhere(m, v, offset) == VirtToPhys(m, v, offset)
  {
    hide GetPte, Reach, PathClear, Inv;
    GetPteIsReach(m, v, true, true);
    GetPteIsReach(m, v, true, false);
    GetPteIsReach(m, v, false, false);
  }

  // ------------------------------------------------------------ the leaf entry

  /** A store to a page table keeps the invariant and every table. */
  lemma LeafStoreKeeps(m: Machine, v: VPage, w: Word)
    requires Inv(m) && TableAt(m.mem, m.root, Pt(v)).Some? && w < PHYSICAL_LIMIT
    requires Present(w) && User(w) ==> UserPath(m.mem, m.root, Pt(v))
    ensures var n := m.(mem := Store(m.mem, TableAt(m.mem, m.root, Pt(v)).value, v.i1, w));
            Inv(n) && TablesGrow(m, n) && SameTables(m.mem, n.mem, m.root)
  {
    var t := TableAt(m.mem, m.root, Pt(v)).value;
    var n := m.(mem := Store(m.mem, t, v.i1, w));
    StoreIsPointUpdate(m.mem, m.root, Pt(v), v.i1, w);
    UserClosedGrowsAtLeaf(m, n, v, w);
    TablesKept(m, n);
    forall q | Depth(q) <= 3
      ensures ClearTo(n.mem, m.root, q) == ClearTo(m.mem, m.root, q)
    {
      ClearToKept(m.mem, n.mem, m.root, Pt(v), v.i1, w, q);
    }
    assert TableOf(m, t);
  }

  lemma UserClosedGrowsAtLeaf(m: Machine, n: Machine, v: VPage, w: Word)
    requires UserClosed(m.mem, m.root) && PointUpdate(m.mem, n.mem, m.root, Pt(v), v.i1, w)
    requires Present(w) && User(w) ==> UserPath(m.mem, m.root, Pt(v))
    ensures UserClosed(n.mem, m.root)
  {
    forall q | Depth(q) <= 3
      ensures UserPath(n.mem, m.root, q) == UserPath(m.mem, m.root, q)
    {
      UserPathAtLeaf(m.mem, n.mem, m.root, Pt(v), v.i1, w, q);
    }
  }

  lemma {:induction false} UserPathAtLeaf(m: Memory, n: Memory, root: nat, p: Path, i: Index, w: Word, q: Path)
    requires PointUpdate(m, n, root, p, i, w) && Depth(p) == 3 && Depth(q) <= 3
    ensures UserPath(n, root, q) == UserPath(m, root, q)
  {
    match q
    case Root =>
    case Child(r, j) => UserPathAtLeaf(m, n, root, p, i, w, r);
  }

  /** A store to a page table replaces the translation of one page. */
  lemma LeafStoreTranslates(m: Machine, v: VPage, w: Word, x: VPage)
    requires Inv(m) && TableAt(m.mem, m.root, Pt(v)).Some? && w < PHYSICAL_LIMIT
    ensures Translate(Store(m.mem, TableAt(m.mem, m.root, Pt(v)).value, v.i1, w), m.root, x) ==
              if x != v then Translate(m.mem, m.root, x)
              else if Present(w) then Some(Leaf(FrameOf(w), w % 4096)) else None
  {
    var n := Store(m.mem, TableAt(m.mem, m.root, Pt(v)).value, v.i1, w);
    StoreIsPointUpdate(m.mem, m.root, Pt(v), v.i1, w);
    EntriesOnPath(m.mem, n, m.root, Pt(v), v.i1, w, x);
    if Pt(x) == Pt(v) && x.i1 == v.i1 {
      assert x == v;
    }
  }

  /** A word split at bit 12. */
  lemma WordFields(high: nat, low: nat)
    requires low < 4096
    ensures var w := high * 4096 + low;
            && w / 4096 == high && w % 4096 == low
            && (User(w) <==> User(low)) && (Large(w) <==> Large(low)) && (Writable(w) <==> Writable(low))
  {
    DivIs(high * 4096 + low, 4096, high);
    LowDigit(high, low, 2, 1024);
    LowDigit(high, low, 4, 512);
    LowDigit(high, low, 0x80, 16);
  }

  lemma LeafEntryFields(pa: Word, flags: nat)
    requires pa < PHYSICAL_LIMIT && flags < 4096
    ensures var w := LeafEntry(pa, flags);
            w < PHYSICAL_LIMIT && Present(w) && FrameOf(w) == pa / 4096 && w % 4096 == flags + (1 - flags % 2)
            && (User(w) <==> User(flags))
  {
    assert LeafEntry(pa, flags) == pa / 4096 * 4096 + (flags + (1 - flags % 2));
    LeafFields(pa / 4096, flags);
  }

  lemma LeafFields(high: nat, flags: nat)
    requires high < 0x100_0000_0000 && flags < 4096
    ensures var low := flags + (1 - flags % 2);
            var w := high * 4096 + low;
            && w < PHYSICAL_LIMIT && Present(w) && FrameOf(w) == high && w % 4096 == low && (User(w) <==> User(flags))
  {
    var low := flags + (1 - flags % 2);
    OddLow(flags);
    WordFields(high, low);
    LowDigit(high, low, 1, 2048);
    DivIs(high, 0x100_0000_0000, 0);
  }

  lemma OddLow(flags: nat)
    requires flags < 4096
    ensures var low := flags + (1 - flags % 2);
            low < 4096 && low % 2 == 1 && low / 4 == flags / 4
  {
    var h := flags / 2;
    assert flags == 2 * h + flags % 2 && h == 2 * (h / 2) + h % 2;
    EvenPlus(h, 1);
    DivIs(flags, 4, h / 2);
    DivIs(2 * h + 1, 4, h / 2);
  }

  // --------------------------------------------------------------- refinement

  predicate Enough(m: Machine, v: VPage) {
    MissingTables(m, Pt(v)) <= FreeFrames(m)
  }

  /** A map, successful or not, keeps the invariant; the frames it takes are exactly the tables it
      adds. */
  lemma MapKeepsInvariant(m: Machine, v: VPage, pa: Word, flags: nat)
    requires Inv(m) && PathClear(m.mem, m.root, v)
    requires pa < PHYSICAL_LIMIT && flags < 4096
    ensures Inv(MapPage(m, v, pa, flags)) && TablesGrow(m, MapPage(m, v, pa, flags))
  {
    var (a, r) := Reach(m, Pt(v), true, User(flags));
    if r.Some? {
      LeafEntryFields(pa, flags);
      LeafStoreKeeps(a, v, LeafEntry(pa, flags));
      TablesGrowTransitive(m, a, MapPage(m, v, pa, flags));
    }
  }

  /** Mapping changes exactly one translation when there are frames for the missing tables, and none
      at all otherwise, although tables may have been linked on the way. */
  lemma MapUpdatesOneKey(m: Machine, v: VPage, pa: Word, flags: nat, x: VPage)
    requires Inv(m) && PathClear(m.mem, m.root, v)
    requires pa < PHYSICAL_LIMIT && flags < 4096
    ensures Translate(MapPage(m, v, pa, flags).mem, m.root, x) ==
              if Enough(m, v) && x == v then Some(Leaf(pa / 4096, flags + (1 - flags % 2)))
              else Translate(m.mem, m.root, x)
  {
    hide Inv, Translate, Reach, User, FrameOf, Present;
    var (a, r) := Reach(m, Pt(v), true, User(flags));
    ReachCounts(m, Pt(v), User(flags));
    if r.Some? {
      LeafEntryFields(pa, flags);
      LeafStoreTranslates(a, v, LeafEntry(pa, flags), x);
    }
  }

  /** A map takes one frame for each missing table when there are enough, otherwise the last free
      frame goes; it leaves the tables off its own way alone. */
  lemma MapCounts(m: Machine, v: VPage, pa: Word, flags: nat)
    requires Inv(m) && PathClear(m.mem, m.root, v)
    requires pa < PHYSICAL_LIMIT && flags < 4096
    ensures var n := MapPage(m, v, pa, flags);
            && FreeFrames(n) == (if Enough(m, v) then FreeFrames(m) - MissingTables(m, Pt(v)) else 0)
            && (Enough(m, v) ==> TableAt(n.mem, m.root, Pt(v)).Some?)
            && (forall q | Depth(q) <= 3 && !OnWay(q, Pt(v)) :: TableAt(n.mem, m.root, q) == TableAt(m.mem, m.root, q))
  {
    hide Inv, Translate;
    var (a, r) := Reach(m, Pt(v), true, User(flags));
    ReachCounts(m, Pt(v), User(flags));
    forall q | Depth(q) <= 3 && !OnWay(q, Pt(v))
      ensures TableAt(a.mem, m.root, q) == TableAt(m.mem, m.root, q)
    {
      ReachElsewhere(m, Pt(v), true, User(flags), q);
    }
    if r.Some? {
      InvIsTree(a);
      LeafEntryFields(pa, flags);
      StoreIsPointUpdate(a.mem, m.root, Pt(v), v.i1, LeafEntry(pa, flags));
    }
  }

  /** A map changes upper-level entries on its own way only. */
  lemma MapKeepsEntry(m: Machine, v: VPage, pa: Word, flags: nat, q: Path, j: Index)
    requires Inv(m) && PathClear(m.mem, m.root, v) && pa < PHYSICAL_LIMIT && flags < 4096
    requires Depth(q) <= 2 && !OnWay(Child(q, j), Pt(v))
    ensures Entry(MapPage(m, v, pa, flags).mem, m.root, q, j) == Entry(m.mem, m.root, q, j)
  {
    hide Entry;
    ReachKeepsEntry(m, Pt(v), true, User(flags), q, j);
    var (a, r) := Reach(m, Pt(v), true, User(flags));
    if r.Some? {
      LeafEntryFields(pa, flags);
      StoreIsPointUpdate(a.mem, m.root, Pt(v), v.i1, LeafEntry(pa, flags));
    }
  }

  /** An unmap changes no upper-level entry. */
  lemma UnmapKeepsEntry(m: Machine, v: VPage, q: Path, j: Index)
    requires Inv(m) && PathClear(m.mem, m.root, v) && Depth(q) <= 2
    ensures Entry(UnmapPage(m, v).mem, m.root, q, j) == Entry(m.mem, m.root, q, j)
  {
    hide Entry;
    ReachReads(m, Pt(v));
    if TableAt(m.mem, m.root, Pt(v)).Some? {
      StoreIsPointUpdate(m.mem, m.root, Pt(v), v.i1, 0);
    }
  }

  lemma NothingGrows(m: Machine)
    ensures TablesGrow(m, m) && SameTables(m.mem, m.mem, m.root)
  {
  }

  /** Unmapping keeps the invariant, every table and every used frame. */
  lemma UnmapKeepsInvariant(m: Machine, v: VPage)
    requires Inv(m) && PathClear(m.mem, m.root, v)
    ensures var n := UnmapPage(m, v);
            Inv(n) && TablesGrow(m, n) && SameTables(m.mem, n.mem, m.root) && n.used == m.used
  {
    hide Inv, TablesGrow, SameTables, Reach, TableAt;
    ReachReads(m, Pt(v));
    NothingGrows(m);
    var r := TableAt(m.mem, m.root, Pt(v));
    if r.Some? {
      LeafStoreKeeps(m, v, 0);
    }
  }

  /** Unmapping removes exactly one translation. */
  lemma UnmapRemovesOneKey(m: Machine, v: VPage, x: VPage)
    requires Inv(m) && PathClear(m.mem, m.root, v)
    ensures Translate(UnmapPage(m, v).mem, m.root, x) == if x == v then None else Translate(m.mem, m.root, x)
  {
    ReachReads(m, Pt(v));
    ClearTranslation(m, v);
    var r := TableAt(m.mem, m.root, Pt(v));
    if r.Some? {
      LeafStoreTranslates(m, v, 0, x);
    }
  }

  /** Unmapping leaves no trace: the entry of the page is 0 afterwards, or was not present. */
  lemma UnmapClearsEntry(m: Machine, v: VPage)
    requires Inv(m) && PathClear(m.mem, m.root, v)
    ensures var e := Entry(m.mem, m.root, Pt(v), v.i1);
            Entry(UnmapPage(m, v).mem, m.root, Pt(v), v.i1) == if Present(e) then 0 else e
  {
    ReachReads(m, Pt(v));
    if TableAt(m.mem, m.root, Pt(v)).Some? && Present(Entry(m.mem, m.root, Pt(v), v.i1)) {
      StoreIsPointUpdate(m.mem, m.root, Pt(v), v.i1, 0);
    }
  }

  /** On a path without large pages the translation is the entry of the page table. */
  lemma ClearTranslation(m: Machine, v: VPage)
    requires Inv(m) && PathClear(m.mem, m.root, v)
    ensures var e := Entry(m.mem, m.root, Pt(v), v.i1);
            Translate(m.mem, m.root, v) == if Present(e) then Some(Leaf(FrameOf(e), e % 4096)) else None
    ensures Entry(m.mem, m.root, Pt(v), v.i1) < PHYSICAL_LIMIT
  {
    PathClearLevels(m.mem, m.root, v);
  }

  lemma PhysicalAddressFields(e: Word, offset: nat)
    requires e < PHYSICAL_LIMIT && offset < 4096
    ensures PhysicalAddress(e, offset) == FrameOf(e) * 4096 + offset
  {
    assert FrameOf(e) == e / 4096;
  }

  /** Lookup returns the frame of the translation plus the page offset, or 0 when there is none. */
  lemma LookupRefinesTranslation(m: Machine, v: VPage, offset: nat)
    requires Inv(m) && PathClear(m.mem, m.root, v) && offset < 4096
    ensures VirtToPhys(m, v, offset) ==
              match Translate(m.mem, m.root, v)
              case None => 0
              case Some(leaf) => leaf.frame * 4096 + offset
  {
    ReachReads(m, Pt(v));
    ClearTranslation(m, v);
    PhysicalAddressFields(Entry(m.mem, m.root, Pt(v), v.i1), offset);
  }

  /** An answer of 0 means "not mapped" except for the first byte of a page mapped to frame 0. */
  lemma ZeroMeansUnmappedExactly(m: Machine, v: VPage, offset: nat)
    requires Inv(m) && PathClear(m.mem, m.root, v) && offset < 4096
    ensures VirtToPhys(m, v, offset) == 0 <==>
            match Translate(m.mem, m.root, v) case None => true case Some(leaf) => leaf.frame == 0 && offset == 0
  {
    LookupRefinesTranslation(m, v, offset);
  }

  // ------------------------------------------------------------- access rights

  /** User access to a page is decided by its own last entry. */
  lemma UserIsLeafBit(m: Machine, v: VPage)
    requires Inv(m)
    ensures UserAccess(m.mem, m.root, v) <==>
            Translate(m.mem, m.root, v).Some? && User(Translate(m.mem, m.root, v).value.flags)
  {
    var e3 := Entry(m.mem, m.root, Pdpt(v), v.i3);
    var e2 := Entry(m.mem, m.root, Pd(v), v.i2);
    var e1 := Entry(m.mem, m.root, Pt(v), v.i1);
    WordFields(e3 / 4096, e3 % 4096);
    WordFields(e2 / 4096, e2 % 4096);
    WordFields(e1 / 4096, e1 % 4096);
    if Translate(m.mem, m.root, v).Some? && User(Translate(m.mem, m.root, v).value.flags) {
      if Large(e3) {
        assert UserPath(m.mem, m.root, Pdpt(v));
      } else if Large(e2) {
        assert UserPath(m.mem, m.root, Pd(v));
        assert UserPath(m.mem, m.root, Pdpt(v));
      } else {
        assert UserPath(m.mem, m.root, Pt(v));
        assert UserPath(m.mem, m.root, Pd(v));
        assert UserPath(m.mem, m.root, Pdpt(v));
      }
    }
  }

  /** Write access to a page is decided by its own last entry, when that is an entry of a page table. */
  lemma WriteIsLeafBit(m: Machine, v: VPage)
    requires Inv(m) && PathClear(m.mem, m.root, v)
    ensures WriteAccess(m.mem, m.root, v) <==>
            Translate(m.mem, m.root, v).Some? && Writable(Translate(m.mem, m.root, v).value.flags)
  {
    PathClearLevels(m.mem, m.root, v);
    var e1 := Entry(m.mem, m.root, Pt(v), v.i1);
    WordFields(e1 / 4096, e1 % 4096);
    assert Depth(Root) == 0;
  }

  /** Mapping a page, user or not, successful or not, changes the access rights of no other page. */
  lemma MapKeepsAccess(m: Machine, v: VPage, pa: Word, flags: nat, x: VPage)
    requires Inv(m) && PathClear(m.mem, m.root, v)
    requires pa < PHYSICAL_LIMIT && flags < 4096 && x != v
    ensures UserAccess(MapPage(m, v, pa, flags).mem, m.root, x) == UserAccess(m.mem, m.root, x)
  {
    MapKeepsInvariant(m, v, pa, flags);
    MapUpdatesOneKey(m, v, pa, flags, x);
    UserIsLeafBit(m, x);
    UserIsLeafBit(MapPage(m, v, pa, flags), x);
  }
}
