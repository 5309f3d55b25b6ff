/** The page-table code of src/kernel/mm/vmm.c on physical memory as an array of frames, proved
    against the functions of Walker and VirtualMemory. */
module KernelMemory {
  import opened Words
  import opened PageTables
  import opened Walker
  import VM = VirtualMemory
  import FrameSets
  import opened FrameAllocator

  const NOT_FFF: nat := TWO_64 - 0x1000 // ~0xFFF

  // ------------------------------------------------------- bit operations on entries

  lemma TestBits(e: Word)
    ensures And(e, PAGE_PRESENT) != 0 <==> Present(e)
    ensures And(e, PAGE_USER) != 0 <==> User(e)
    ensures And(e, NOT_FFF) == e / 4096 * 4096
  {
    BitZero(e);
    BitTwo(e);
    Masks(e);
  }

  lemma AddUserBit(e: Word)
    requires !User(e)
    ensures Or(e, PAGE_USER) == WithUser(e) && WithUser(e) / 4096 == e / 4096
  {
    BitTwo(e);
    EvenQuarter(e);
  }

  /** Adding 4 to a word with bit 2 clear carries nowhere. */
  lemma EvenQuarter(e: Word)
    requires e / 4 % 2 == 0
    ensures e + 4 < TWO_64 && (e + 4) / 4096 == e / 4096
  {
    var a, r := e / 8, e % 8;
    assert e == 8 * a + r;
    DivIs(e, 4, 2 * a + r / 4);
    assert r < 4;
    DivOfDigits(a, r, 512);
    DivOfDigits(a, r + 4, 512);
  }

  lemma NewLinkBits(f: nat, user: bool)
    requires f < IDENTITY_FRAMES
    ensures Or(f * 4096, ParentFlags(user)) == f * 4096 + ParentFlags(user)
    ensures (f * 4096 + ParentFlags(user)) / 4096 == f
  {
    OrPage(f * 4096, ParentFlags(user));
  }

  lemma PageBase(x: Word)
    ensures And(x, NOT_FFF) == x - x % 4096 && (x - x % 4096) % 4096 == 0
    ensures And(x, 0xFFF) == x % 4096
  {
    hide And;
    Masks(x);
    DivIs(x / 4096 * 4096, 4096, x / 4096);
    assert x - x % 4096 == x / 4096 * 4096;
  }

  lemma LeafBits(pa: Word, flags: nat)
    requires flags < 4096
    ensures Or(Or(And(pa, NOT_FFF), flags), PAGE_PRESENT) == VM.LeafEntry(pa, flags)
  {
    hide And, Or;
    PageBase(pa);
    var base := pa - pa % 4096;
    OrPage(base, flags);
    BitZero(base + flags);
    EvenBase(base, flags);
  }

  lemma EvenBase(base: nat, flags: nat)
    requires base % 4096 == 0
    ensures (base + flags) % 2 == flags % 2
  {
    var k := base / 4096;
    assert base == 2 * (2048 * k);
    EvenPlus(2048 * k, flags);
  }

  lemma AddressBits(e: Word, va: Word)
    ensures Or(And(e, NOT_FFF), And(va, 0xFFF)) == VM.PhysicalAddress(e, va % 4096)
  {
    hide And, Or;
    PageBase(e);
    PageBase(va);
    OrPage(e - e % 4096, va % 4096);
  }

  /** `PML4_INDEX`, `PDPT_INDEX`, `PD_INDEX`, `PT_INDEX`. */
  function IndexAt(va: Word, shift: nat): Word
    requires shift > 0
  {
    And(va / shift, 0x1FF)
  }

  lemma IndexBits(va: Word)
    ensures IndexAt(va, 0x80_0000_0000) == PageOf(va).i4
    ensures IndexAt(va, 0x4000_0000) == PageOf(va).i3
    ensures IndexAt(va, 0x20_0000) == PageOf(va).i2
    ensures IndexAt(va, 0x1000) == PageOf(va).i1
  {
    Masks(va / 0x80_0000_0000);
    Masks(va / 0x4000_0000);
    Masks(va / 0x20_0000);
    Masks(va / 0x1000);
  }

  /** `entry & PAGE_PRESENT` */
  method IsPresent(e: Word) returns (b: bool)
    ensures b == Present(e)
  {
    TestBits(e);
    b := And(e, PAGE_PRESENT) != 0;
  }

  /** `entry & PAGE_USER` */
  method IsUser(e: Word) returns (b: bool)
    ensures b == User(e)
  {
    TestBits(e);
    b := And(e, PAGE_USER) != 0;
  }

  /** `entry | PAGE_USER` */
  method OrUser(e: Word) returns (w: Word)
    requires !User(e)
    ensures w == WithUser(e) && w / 4096 == e / 4096
  {
    AddUserBit(e);
    w := Or(e, PAGE_USER);
  }

  /** `phys | parent_flags` */
  method OrParentFlags(phys: nat, parentFlags: nat, ghost f: nat, ghost user: bool) returns (w: Word)
    requires phys == f * 4096 && f < IDENTITY_FRAMES && parentFlags == ParentFlags(user)
    ensures w == f * 4096 + ParentFlags(user) && w / 4096 == f
  {
    NewLinkBits(f, user);
    w := Or(phys, parentFlags);
  }

  /** `entry & ~0xFFF` */
  method BaseAddress(e: Word) returns (a: nat)
    ensures a == e / 4096 * 4096
  {
    TestBits(e);
    a := And(e, NOT_FFF);
  }

  // ------------------------------------------------------------------- the walker

  /** The frame numbers of optional table addresses. */
  function Frames(address: Option<nat>): Option<nat> {
    match address
    case None => None
    case Some(a) => Some(a / 4096)
  }

  class Vmm {
    const mem: array<Frame> // physical memory
    const pmm: Pmm
    var currentPml4Phys: nat

    constructor (mem: array<Frame>, pmm: Pmm, cr3: nat)
      ensures this.mem == mem && this.pmm == pmm && currentPml4Phys == cr3
    {
      this.mem := mem;
      this.pmm := pmm;
      currentPml4Phys := cr3;
    }

    ghost function State(): Machine
      reads this, mem, pmm
    {
      Machine(mem[..], currentPml4Phys / 4096, pmm.used, pmm.totalPages)
    }

    ghost predicate Separate()
      reads pmm
    {
      mem as object != pmm.bitmap
    }

    /** All the page-table code needs; the invariant is not among it. */
    ghost predicate Usable()
      reads this, mem, pmm, pmm.bitmap
    {
      Separate() && pmm.Valid() && Sound(State())
    }

    ghost predicate Valid()
      reads this, mem, pmm, pmm.bitmap
    {
      Separate() && pmm.Valid() && Inv(State())
    }

    /** The invariant holds and no large page lies on the way to `va`. */
    ghost predicate Clear(va: Word)
      reads this, mem, pmm, pmm.bitmap
    {
      Valid() && PathClear(mem[..], currentPml4Phys / 4096, PageOf(va))
    }

    /** Zeroes the frame at a physical address, word by word. */
    method ZeroTable(phys: nat)
      requires phys / 4096 < mem.Length
      modifies mem
      ensures mem[..] == old(mem[..])[phys / 4096 := ZeroFrame()]
    {
      var f := phys / 4096;
      var i := 0;
      while i < 512
        invariant 0 <= i <= 512
        invariant forall j | 0 <= j < i :: mem[f][j] == 0
        invariant forall g | 0 <= g < mem.Length && g != f :: mem[g] == old(mem[g])
      {
        mem[f] := mem[f][i := 0];
        i := i + 1;
      }
      assert mem[f] == ZeroFrame();
    }

    /** `table[index] = w` */
    method StoreEntry(t: nat, index: Index, w: Word)
      requires t < mem.Length
      modifies mem
      ensures mem[..] == Store(old(mem[..]), t, index, w)
    {
      mem[t] := mem[t][index := w];
    }

    /** Takes a frame, clears it and links it below entry `index` of the table in frame t. */
    method CreateTable(t: nat, index: Index, parentFlags: nat, ghost user: bool) returns (phys: nat)
      requires Separate() && pmm.Valid() && t < mem.Length && pmm.totalPages <= mem.Length <= IDENTITY_FRAMES
      requires parentFlags == ParentFlags(user)
      modifies mem, pmm`usedPages, pmm`used, pmm.bitmap
      ensures Separate() && pmm.Valid() && pmm.bitmap == old(pmm.bitmap)
      ensures pmm.used == FrameSets.Alloc(old(pmm.used), pmm.totalPages).0
      ensures phys == 0 ==> FrameSets.Alloc(old(pmm.used), pmm.totalPages).1 == 0 && mem[..] == old(mem[..])
      ensures phys != 0 ==>
                && FrameSets.Alloc(old(pmm.used), pmm.totalPages).1 == phys / 4096 != 0 && phys / 4096 < mem.Length
                && mem[t][index] / 4096 == phys / 4096
                && mem[..] == Linked(old(State()), t, index, phys / 4096, user).mem
    {
      hide Pmm.Valid;
      ghost var f := FrameSets.Alloc(pmm.used, pmm.totalPages).1;
      phys := pmm.AllocPage();
      if phys != 0 {
        assert phys / 4096 == f;
        var w := OrParentFlags(phys, parentFlags, f, user);
        ZeroTable(phys);
        StoreEntry(t, index, w);
      }
    }

    /** One of the three levels of `vmm_get_pte_flags`. */
    method NextTable(table: nat, index: Index, create: bool, flags: Word) returns (next: Option<nat>)
      requires Separate() && pmm.Valid() && table / 4096 < mem.Length && pmm.totalPages <= mem.Length <= IDENTITY_FRAMES
      modifies mem, pmm`usedPages, pmm`used, pmm.bitmap
      ensures Separate() && pmm.Valid() && pmm.bitmap == old(pmm.bitmap)
      ensures State() == Descend(old(State()), table / 4096, index, create, User(flags)).0
      ensures Frames(next) == Descend(old(State()), table / 4096, index, create, User(flags)).1
      ensures next.Some? ==> next.value % 4096 == 0
    {
      hide Pmm.Valid;
      var parentFlags := PAGE_PRESENT + PAGE_WRITE;
      var user := IsUser(flags);
      if user {
        parentFlags := parentFlags + PAGE_USER;
      }
      var t := table / 4096;
      var e := mem[t][index];
      var present := IsPresent(e);
      if !present {
        if !create {
          return None;
        }
        var phys := CreateTable(t, index, parentFlags, user);
        if phys == 0 {
          return None;
        }
      } else {
        var entryUser := IsUser(e);
        if user && !entryUser {
          var w := OrUser(e);
          StoreEntry(t, index, w);
        }
      }
      var base := BaseAddress(mem[t][index]);
      return Some(base);
    }

    /** `vmm_get_pte_flags`: the frame taken for the page table of `va`; the entry is at its PT index. */
    method GetPte(va: Word, create: bool, flags: Word) returns (pt: Option<nat>, index: Index)
      requires Usable() && WalkInside(State(), PageOf(va), create, User(flags))
      modifies mem, pmm`usedPages, pmm`used, pmm.bitmap
      ensures Usable() && pmm.bitmap == old(pmm.bitmap)
      ensures (State(), pt) == Walker.GetPte(old(State()), PageOf(va), create, User(flags))
      ensures index == PageOf(va).i1 && InsideOrNone(State(), pt)
    {
      hide Pmm.Valid, Descend;
      ghost var m, v, user := State(), PageOf(va), User(flags);
      IndexBits(va);
      index := IndexAt(va, 0x1000);
      pt := None;
      var pdpt := NextTable(currentPml4Phys, IndexAt(va, 0x80_0000_0000), create, flags);
      assert (State(), Frames(pdpt)) == Below(m, Some(m.root), v.i4, create, user);
      if pdpt.None? {
        return;
      }
      ghost var a := State();
      var pd := NextTable(pdpt.value, IndexAt(va, 0x4000_0000), create, flags);
      assert (State(), Frames(pd)) == Below(a, Frames(pdpt), v.i3, create, user);
      if pd.None? {
        return;
      }
      var last := NextTable(pd.value, IndexAt(va, 0x20_0000), create, flags);
      pt := Frames(last);
    }

    /** `vmm_map_page`. A map that finds no frame for a table returns without a word. */
    method MapPage(va: Word, pa: Word, flags: Word)
      requires Usable() && WalkInside(State(), PageOf(va), true, User(flags)) && flags < 4096
      modifies mem, pmm`usedPages, pmm`used, pmm.bitmap
      ensures Usable() && pmm.bitmap == old(pmm.bitmap)
      ensures State() == VM.MapAnywhere(old(State()), PageOf(va), pa, flags)
      ensures old(Clear(va)) && pa < PHYSICAL_LIMIT ==> Valid() && State() == VM.MapPage(old(State()), PageOf(va), pa, flags)
    {
      hide Pmm.Valid, PageOf, Walker.GetPte, VM.MapAnywhere, VM.MapPage, Inv;
      MapIsClear(State(), PageOf(va), pa, flags);
      MapMeans(State(), PageOf(va), pa, flags);
      var pt, index := GetPte(va, true, flags);
      if pt.Some? {
        var w := LeafWord(pa, flags);
        StoreEntry(pt.value, index, w);
      }
    }

    /** `vmm_unmap_page` */
    method UnmapPage(va: Word)
      requires Usable() && WalkInside(State(), PageOf(va), false, false)
      modifies mem, pmm`usedPages, pmm`used, pmm.bitmap
      ensures Usable() && pmm.bitmap == old(pmm.bitmap)
      ensures State() == VM.UnmapAnywhere(old(State()), PageOf(va))
      ensures old(Clear(va)) ==> Valid() && State() == VM.UnmapPage(old(State()), PageOf(va))
    {
      hide Pmm.Valid, PageOf, Walker.GetPte, VM.UnmapPage, Inv;
      UnmapIsClear(State(), PageOf(va));
      var pt, index := GetPte(va, false, 0);
      if pt.Some? {
        var present := IsPresent(mem[pt.value][index]);
        if present {
          StoreEntry(pt.value, index, 0);
        }
      }
    }

    /** `vmm_virt_to_phys` */
    method VirtToPhys(va: Word) returns (pa: Word)
      requires Usable() && WalkInside(State(), PageOf(va), false, false)
      modifies mem, pmm`usedPages, pmm`used, pmm.bitmap
      ensures Usable() && pmm.bitmap == old(pmm.bitmap) && State() == old(State())
      ensures pa == VM.LookupAnywhere(State(), PageOf(va), va % 4096)
      ensures old(Clear(va)) ==> Valid() && pa == VM.VirtToPhys(State(), PageOf(va), va % 4096)
    {
      hide Pmm.Valid, PageOf, Walker.GetPte, VM.VirtToPhys, Inv;
      LookupIsClear(State(), PageOf(va), va % 4096);
      var pt, index := GetPte(va, false, 0);
      if pt.None? {
        return 0;
      }
      var e := mem[pt.value][index];
      var present := IsPresent(e);
      if !present {
        return 0;
      }
      AddressBits(e, va);
      return Or(And(e, NOT_FFF), And(va, 0xFFF));
    }
  }

  /** `(phys & ~0xFFF) | flags | PAGE_PRESENT` */
  method LeafWord(pa: Word, flags: Word) returns (w: Word)
    requires flags < 4096
    ensures w == VM.LeafEntry(pa, flags)
  {
    LeafBits(pa, flags);
    w := Or(Or(And(pa, NOT_FFF), flags), PAGE_PRESENT);
  }

  lemma MapMeans(m: Machine, v: VPage, pa: Word, flags: nat)
    requires Sound(m) && flags < 4096
    ensures var (n, r) := GetPte(m, v, true, User(flags));
            VM.MapAnywhere(m, v, pa, flags) ==
              if r.None? || r.value >= |n.mem| then n else n.(mem := Store(n.mem, r.value, v.i1, VM.LeafEntry(pa, flags)))
  {
  }

  lemma MapIsClear(m: Machine, v: VPage, pa: Word, flags: nat)
    requires flags < 4096
    ensures Inv(m) && PathClear(m.mem, m.root, v) && pa < PHYSICAL_LIMIT ==>
              Inv(VM.MapPage(m, v, pa, flags)) && VM.MapAnywhere(m, v, pa, flags) == VM.MapPage(m, v, pa, flags)
  {
    if Inv(m) && PathClear(m.mem, m.root, v) && pa < PHYSICAL_LIMIT {
      VM.MapKeepsInvariant(m, v, pa, flags);
      VM.OnClearPath(m, v);
    }
  }

  lemma UnmapIsClear(m: Machine, v: VPage)
    ensures Inv(m) && PathClear(m.mem, m.root, v) ==>
              Inv(VM.UnmapPage(m, v)) && VM.UnmapAnywhere(m, v) == VM.UnmapPage(m, v)
  {
    if Inv(m) && PathClear(m.mem, m.root, v) {
      VM.UnmapKeepsInvariant(m, v);
      VM.OnClearPath(m, v);
    }
  }

  lemma LookupIsClear(m: Machine, v: VPage, offset: nat)
    requires offset < 4096
    ensures Inv(m) && PathClear(m.mem, m.root, v) ==> VM.LookupAnywhere(m, v, offset) == VM.VirtToPhys(m, v, offset)
  {
    if Inv(m) && PathClear(m.mem, m.root, v) {
      VM.OnClearPath(m, v);
    }
  }
}
