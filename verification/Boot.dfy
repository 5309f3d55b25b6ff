/** The page tables `setup_paging` builds (src/bootloader/new/stage2.asm) and the state in which the
    kernel's memory code starts. */
module Boot {
  import opened Words
  import opened PageTables
  import opened Walker
  import opened VirtualMemory
  import opened LargePages
  import opened Heap
  import opened Ownership

  const BOOT_LINK: nat := 3 // present, writable
  const BOOT_PAGE: nat := 0x83 // present, writable, 2 MB page
  const TWO_MB: nat := 0x20_0000
  const TWO_32: nat := 0x1_0000_0000

  // ------------------------------------------------------- what the loader leaves

  function OneEntry(w: Word): (f: Frame)
    ensures forall i: Index :: f[i] == if i == 0 then w else 0
  {
    ZeroFrame()[0 := w]
  }

  /** The page directory of 512 identity-mapped 2 MB pages. */
  function IdentityPd(): (f: Frame)
    ensures forall i: Index :: f[i] == i * TWO_MB + BOOT_PAGE
  {
    seq(512, i requires 0 <= i < 512 => i * TWO_MB + BOOT_PAGE)
  }

  /** PML4, PDPT and PD in three consecutive frames from `base`. */
  function BootMemory(m: Memory, base: nat): (r: Memory)
    requires 0 < base && base + 2 < |m| <= IDENTITY_FRAMES
    ensures |r| == |m|
  {
    m[base := OneEntry((base + 1) * PAGE_SIZE + BOOT_LINK)]
     [base + 1 := OneEntry((base + 2) * PAGE_SIZE + BOOT_LINK)]
     [base + 2 := IdentityPd()]
  }

  /** `mov [mem], eax`: the low half of a word. */
  function StoreLow(w: Word, eax: nat): Word
    requires eax < TWO_32
  {
    w - w % TWO_32 + eax
  }

  /** `setup_paging`, with the three tables at the page-aligned address base * 4096. */
  method SetupPaging(mem: array<Frame>, base: nat)
    requires 0 < base && base + 2 < mem.Length <= IDENTITY_FRAMES
    modifies mem
    ensures mem[..] == BootMemory(old(mem[..]), base)
  {
    ghost var before := mem[..];
    ClearTables(mem, base);
    OrPage((base + 1) * PAGE_SIZE, BOOT_LINK);
    OrPage((base + 2) * PAGE_SIZE, BOOT_LINK);
    mem[base] := mem[base][0 := StoreLow(mem[base][0], Or((base + 1) * PAGE_SIZE, BOOT_LINK))];
    mem[base + 1] := mem[base + 1][0 := StoreLow(mem[base + 1][0], Or((base + 2) * PAGE_SIZE, BOOT_LINK))];
    assert mem[base] == OneEntry((base + 1) * PAGE_SIZE + BOOT_LINK);
    assert mem[base + 1] == OneEntry((base + 2) * PAGE_SIZE + BOOT_LINK);
    FillPd(mem, base + 2);
    assert mem[..] == BootMemory(before, base);
  }

  /** `rep stosd` over the three tables. */
  method ClearTables(mem: array<Frame>, base: nat)
    requires base + 2 < mem.Length
    modifies mem
    ensures forall f | 0 <= f < mem.Length :: mem[f] == if base <= f < base + 3 then ZeroFrame() else old(mem[f])
  {
    var t := 0;
    while t < 3
      invariant 0 <= t <= 3
      invariant forall f | 0 <= f < mem.Length ::
                  mem[f] == if base <= f < base + t then ZeroFrame() else old(mem[f])
    {
      mem[base + t] := ZeroFrame();
      t := t + 1;
    }
  }

  /** The `.fill_pd` loop over a cleared frame. */
  method FillPd(mem: array<Frame>, pd: nat)
    requires pd < mem.Length && mem[pd] == ZeroFrame()
    modifies mem
    ensures mem[..] == old(mem[..])[pd := IdentityPd()]
  {
    var eax, i := BOOT_PAGE, 0;
    while i < 512
      invariant 0 <= i <= 512 && eax == BOOT_PAGE + i * TWO_MB
      invariant forall f | 0 <= f < mem.Length && f != pd :: mem[f] == old(mem[f])
      invariant forall j: Index :: mem[pd][j] == if j < i then j * TWO_MB + BOOT_PAGE else 0
    {
      mem[pd] := mem[pd][i := StoreLow(mem[pd][i], eax)];
      eax := (eax + TWO_MB) % TWO_32;
      i := i + 1;
    }
    assert mem[pd] == IdentityPd();
  }

  // -------------------------------------------------------------- the boot tree

  /** The machine the kernel finds: the boot tables and whatever `pmm_init` marked used. */
  function BootMachine(m: Memory, base: nat, used: set<nat>, total: nat): Machine
    requires 0 < base && base + 2 < |m| <= IDENTITY_FRAMES
  {
    Machine(BootMemory(m, base), base, used, total)
  }

  lemma BootLinkFields(base: nat)
    requires base < IDENTITY_FRAMES
    ensures var w := base * PAGE_SIZE + BOOT_LINK;
            w < PHYSICAL_LIMIT && Link(w) && Writable(w) && FrameOf(w) == base && !User(w)
  {
    WordFields(base, BOOT_LINK);
    LowDigit(base, BOOT_LINK, 1, 2048);
    DivIs(base, 0x100_0000_0000, 0);
  }

  lemma BootPageFields(i: Index)
    ensures var w := i * TWO_MB + BOOT_PAGE;
            w < PHYSICAL_LIMIT && Present(w) && Large(w) && FrameOf(w) == i * 512 && !User(w) && w % 4096 == BOOT_PAGE
  {
    WordFields(i * 512, BOOT_PAGE);
    LowDigit(i * 512, BOOT_PAGE, 1, 2048);
    DivIs(i * 512, 0x100_0000_0000, 0);
  }

  lemma BootEntries(m: Memory, base: nat, i: Index)
    requires 0 < base && base + 2 < |m| <= IDENTITY_FRAMES
    ensures var b := BootMemory(m, base);
            && TableAt(b, base, Root) == Some(base)
            && Entry(b, base, Root, i) == (if i == 0 then (base + 1) * PAGE_SIZE + BOOT_LINK else 0)
            && TableAt(b, base, Child(Root, 0)) == Some(base + 1)
            && Entry(b, base, Child(Root, 0), i) == (if i == 0 then (base + 2) * PAGE_SIZE + BOOT_LINK else 0)
            && TableAt(b, base, Child(Child(Root, 0), 0)) == Some(base + 2)
            && Entry(b, base, Child(Child(Root, 0), 0), i) == i * TWO_MB + BOOT_PAGE
  {
    var b := BootMemory(m, base);
    BootLinkFields(base + 1);
    BootLinkFields(base + 2);
    assert TableAt(b, base, Root) == Some(base);
    assert Entry(b, base, Root, 0) == (base + 1) * PAGE_SIZE + BOOT_LINK;
    assert TableAt(b, base, Child(Root, 0)) == Some(base + 1);
    assert Entry(b, base, Child(Root, 0), 0) == (base + 2) * PAGE_SIZE + BOOT_LINK;
  }

  /** The boot tree has three tables and no others. */
  lemma {:induction false} BootTableAt(m: Memory, base: nat, q: Path)
    requires 0 < base && base + 2 < |m| <= IDENTITY_FRAMES && Depth(q) <= 3
    ensures TableAt(BootMemory(m, base), base, q) ==
              if q == Root then Some(base)
              else if q == Child(Root, 0) then Some(base + 1)
              else if q == Child(Child(Root, 0), 0) then Some(base + 2)
              else None
  {
    if q.Child? {
      BootTableAt(m, base, q.parent);
      BootEntries(m, base, q.index);
      BootPageFields(q.index);
    }
  }

  lemma BootEntryAt(m: Memory, base: nat, q: Path, i: Index)
    requires 0 < base && base + 2 < |m| <= IDENTITY_FRAMES && Depth(q) <= 3
    ensures Entry(BootMemory(m, base), base, q, i) ==
              if q == Root && i == 0 then (base + 1) * PAGE_SIZE + BOOT_LINK
              else if q == Child(Root, 0) && i == 0 then (base + 2) * PAGE_SIZE + BOOT_LINK
              else if q == Child(Child(Root, 0), 0) then i * TWO_MB + BOOT_PAGE
              else 0
    ensures !User(Entry(BootMemory(m, base), base, q, i))
    ensures Entry(BootMemory(m, base), base, q, i) < PHYSICAL_LIMIT
  {
    BootTableAt(m, base, q);
    BootEntries(m, base, i);
    BootLinkFields(base + 1);
    BootLinkFields(base + 2);
    BootPageFields(i);
  }

  lemma BootTree(m: Memory, base: nat)
    requires 0 < base && base + 2 < |m| <= IDENTITY_FRAMES
    ensures Tree(BootMemory(m, base), base) && UserClosed(BootMemory(m, base), base)
    ensures LinksWritable(BootMemory(m, base), base)
  {
    var b := BootMemory(m, base);
    forall q, i: Index | Depth(q) <= 3
      ensures !User(Entry(b, base, q, i)) && Entry(b, base, q, i) < PHYSICAL_LIMIT
      ensures Link(Entry(b, base, q, i)) ==> FrameOf(Entry(b, base, q, i)) < |b| && Writable(Entry(b, base, q, i))
    {
      BootEntryAt(m, base, q, i);
      BootLinkFields(base + 1);
      BootLinkFields(base + 2);
      BootPageFields(i);
    }
    forall q | Depth(q) <= 3
      ensures TableAt(b, base, q) == if q == Root then Some(base)
                                     else if q == Child(Root, 0) then Some(base + 1)
                                     else if q == Child(Child(Root, 0), 0) then Some(base + 2)
                                     else None
    {
      BootTableAt(m, base, q);
    }
  }

  // ------------------------------------------------------------ identity mapping

  /** Below 1 GB every page translates to itself, so the walker may use physical addresses as
      pointers. */
  ghost predicate Identity(m: Memory, root: nat) {
    forall f: nat | f < IDENTITY_FRAMES :: Translate(m, root, PageOf(f * PAGE_SIZE)) == Some(Leaf(f, BOOT_PAGE))
  }

  lemma LowPage(f: nat)
    requires f < IDENTITY_FRAMES
    ensures PageOf(f * PAGE_SIZE) == VPage(0, 0, f / 512, f % 512)
  {
    var va := f * PAGE_SIZE;
    assert f == 512 * (f / 512) + f % 512;
    DivIs(va, 0x1000, f);
    DivIs(va, 0x20_0000, f / 512);
    DivIs(va, 0x4000_0000, 0);
    DivIs(va, 0x80_0000_0000, 0);
  }

  lemma BootIdentity(m: Memory, base: nat)
    requires 0 < base && base + 2 < |m| <= IDENTITY_FRAMES
    ensures Identity(BootMemory(m, base), base)
  {
    forall f: nat | f < IDENTITY_FRAMES
      ensures Translate(BootMemory(m, base), base, PageOf(f * PAGE_SIZE)) == Some(Leaf(f, BOOT_PAGE))
    {
      LowPage(f);
      BootLowPage(m, base, f / 512, f % 512);
    }
  }

  lemma BootLowPage(m: Memory, base: nat, i2: Index, i1: Index)
    requires 0 < base && base + 2 < |m| <= IDENTITY_FRAMES
    ensures Translate(BootMemory(m, base), base, VPage(0, 0, i2, i1)) == Some(Leaf(i2 * 512 + i1, BOOT_PAGE))
  {
    BootEntries(m, base, 0);
    BootEntries(m, base, i2);
    BootLinkFields(base + 1);
    BootLinkFields(base + 2);
    BootPageFields(i2);
  }

  /** The page directory for the first gigabyte. */
  function LowPd(): (p: Path)
    ensures Depth(p) == 2
  {
    Child(Child(Root, 0), 0)
  }

  /** Its 512 entries are still those of the loader. */
  ghost predicate LowLarge(m: Machine) {
    forall i2: Index :: Entry(m.mem, m.root, LowPd(), i2) == i2 * TWO_MB + BOOT_PAGE
  }

  lemma LowIsLarge(m: Machine, i2: Index, i1: Index)
    requires Inv(m) && LowLarge(m) && i2 * 512 < |m.mem|
    ensures var v := VPage(0, 0, i2, i1);
            && OnLargePage(m, v) && LargeStart(m, v) == i2 * 512 && LargeFrame(m, v) == i2 * 512 + i1
            && !PathClear(m.mem, m.root, v) && Translate(m.mem, m.root, v) == Some(Leaf(i2 * 512 + i1, BOOT_PAGE))
  {
    var v := VPage(0, 0, i2, i1);
    BootPageFields(i2);
    PathClearLevels(m.mem, m.root, v);
    DivIs(i2 * TWO_MB + BOOT_PAGE, 4096, i2 * 512);
    assert Pd(v) == LowPd();
    LargePageTranslates(m, v);
  }

  /** Below 1 GB, where every page translates to itself, `vmm_virt_to_phys` gives the right answer
      exactly when the word at index i1 of the first frame of the 2 MB page is an entry that happens
      to name the same frame (or for address 0, when that word is not present). */
  lemma LowLookupExactly(m: Machine, i2: Index, i1: Index, offset: nat)
    requires Inv(m) && LowLarge(m) && i2 * 512 < |m.mem| && offset < 4096
    ensures LookupAnywhere(m, VPage(0, 0, i2, i1), offset) == (i2 * 512 + i1) * 4096 + offset <==>
            var w := m.mem[i2 * 512][i1];
            if Present(w) then w / 4096 == i2 * 512 + i1 else i2 == 0 && i1 == 0 && offset == 0
  {
    LowIsLarge(m, i2, i1);
    LookupExactly(m, VPage(0, 0, i2, i1), offset);
  }

  /** It does go wrong: where the large page starts with a cleared frame, all of it looks unmapped. */
  lemma LowPageLooksUnmapped(m: Machine, i2: Index, i1: Index, offset: nat)
    requires Inv(m) && LowLarge(m) && i2 * 512 < |m.mem| && offset < 4096 && m.mem[i2 * 512] == ZeroFrame()
    ensures LookupAnywhere(m, VPage(0, 0, i2, i1), offset) == 0
  {
    LowIsLarge(m, i2, i1);
    LargePageEnd(m, VPage(0, 0, i2, i1), false);
  }

  /** A supervisor map below 1 GB is lost: every page goes on translating to itself, whatever lookup
      says afterwards. */
  lemma LowMapIsLost(m: Machine, i2: Index, i1: Index, pa: Word, flags: nat, offset: nat)
    requires Inv(m) && LowLarge(m) && Identity(m.mem, m.root) && i2 * 512 < |m.mem| && !TableOf(m, i2 * 512)
    requires flags < 4096 && !User(flags) && pa < PHYSICAL_LIMIT && offset < 4096
    ensures var n := MapAnywhere(m, VPage(0, 0, i2, i1), pa, flags);
            && Inv(n) && LowLarge(n) && Identity(n.mem, m.root)
            && LookupAnywhere(n, VPage(0, 0, i2, i1), offset) == pa - pa % 4096 + offset
  {
    hide Inv, Translate;
    LowIsLarge(m, i2, i1);
    InvIsTree(m);
    MapOnLargePageIsLost(m, VPage(0, 0, i2, i1), pa, flags, offset);
  }

  /** The three tables on the way to the first gigabyte lie where the loader put them, below 2 MB. */
  predicate LoaderTablesLow(m: Machine) {
    0 < m.root < 512 && TableLow(m, Child(Root, 0)) && TableLow(m, LowPd())
  }

  predicate TableLow(m: Machine, p: Path) {
    TableAt(m.mem, m.root, p).Some? && 0 < TableAt(m.mem, m.root, p).value < 512
  }

  lemma BootTablesLow(m: Memory, base: nat, used: set<nat>, total: nat)
    requires 0 < base && base + 2 < |m| <= IDENTITY_FRAMES && base + 2 < 512
    ensures LoaderTablesLow(BootMachine(m, base, used, total))
  {
    BootEntries(m, base, 0);
  }

  /** No page below 1 GB is translated through a word of the first frame of a 2 MB page. */
  lemma LowNotUsed(m: Machine, i2: Index, i1: Index, x: VPage)
    requires Inv(m) && LowLarge(m) && LoaderTablesLow(m) && i2 * 512 < |m.mem| && x.i4 == 0 && x.i3 == 0
    ensures !UsesWord(m.mem, m.root, x, i2 * 512, i1)
  {
    BootPageFields(x.i2);
    assert Pdpt(x) == Child(Root, 0) && Pd(x) == LowPd();
    assert Entry(m.mem, m.root, LowPd(), x.i2) == x.i2 * TWO_MB + BOOT_PAGE;
    assert TableAt(m.mem, m.root, Root) == Some(m.root);
  }

  /** When `vmm_map_page` does what it was asked to do below 1 GB: exactly when the page is asked to be
      what it already is, the frame of its own address with the flags of the loader's entry (and the
      user bit, when that is what was asked for). */
  lemma LowMapExactly(m: Machine, i2: Index, i1: Index, pa: Word, flags: nat)
    requires Inv(m) && LowLarge(m) && LoaderTablesLow(m) && i2 * 512 < |m.mem|
    requires flags < 4096 && pa < PHYSICAL_LIMIT
    ensures var n := MapAnywhere(m, VPage(0, 0, i2, i1), pa, flags);
            Translate(n.mem, m.root, VPage(0, 0, i2, i1)) == Some(Leaf(pa / 4096, flags + (1 - flags % 2))) <==>
            pa / 4096 == i2 * 512 + i1 && flags + (1 - flags % 2) == BOOT_PAGE + if User(flags) then PAGE_USER else 0
  {
    hide Inv, Translate;
    var v := VPage(0, 0, i2, i1);
    LowIsLarge(m, i2, i1);
    LowNotUsed(m, i2, i1, v);
    MapExactly(m, v, pa, flags);
    LowFlags(m, i2, i1, User(flags));
  }

  lemma LowFlags(m: Machine, i2: Index, i1: Index, user: bool)
    requires LowLarge(m)
    ensures LargeFlags(m, VPage(0, 0, i2, i1), user) == BOOT_PAGE + if user then PAGE_USER else 0
  {
    var e := i2 * TWO_MB + BOOT_PAGE;
    assert Pd(VPage(0, 0, i2, i1)) == LowPd();
    assert Entry(m.mem, m.root, Pd(VPage(0, 0, i2, i1)), i2) == e;
    BootPageFields(i2);
    DivIs(e, 4096, i2 * 512);
    DivIs(e + PAGE_USER, 4096, i2 * 512);
  }

  lemma LowTranslates(m: Machine, i2: Index, i1: Index)
    requires Identity(m.mem, m.root)
    ensures Translate(m.mem, m.root, VPage(0, 0, i2, i1)) == Some(Leaf(i2 * 512 + i1, BOOT_PAGE))
  {
    hide Translate;
    LowPage(i2 * 512 + i1);
  }

  /** No map below 1 GB maps or unmaps any page there: all keep their frames, and only the 2 MB page
      asked for gains the user bit. */
  lemma LowMapKeepsFrames(m: Machine, i2: Index, i1: Index, pa: Word, flags: nat, j2: Index, j1: Index)
    requires Inv(m) && LowLarge(m) && LoaderTablesLow(m) && Identity(m.mem, m.root) && i2 * 512 < |m.mem| && flags < 4096
    ensures var n := MapAnywhere(m, VPage(0, 0, i2, i1), pa, flags);
            Translate(n.mem, m.root, VPage(0, 0, j2, j1)) ==
              Some(Leaf(j2 * 512 + j1, BOOT_PAGE + if User(flags) && j2 == i2 then PAGE_USER else 0))
  {
    hide Inv, Translate, UserAccess, Identity, UsesWord, OnLargePage, LargeFlags, MapAnywhere;
    InvIsTree(m);
    LowIsLarge(m, i2, i1);
    LowTranslates(m, j2, j1);
    LowNotUsed(m, i2, i1, VPage(0, 0, j2, j1));
    MapOnLargePageSpares(m, VPage(0, 0, i2, i1), pa, flags, VPage(0, 0, j2, j1));
    LowFlags(m, i2, i1, User(flags));
  }

  /** `vmm_unmap_page` unmaps nothing below 1 GB. */
  lemma LowUnmapKeepsIdentity(m: Machine, i2: Index, i1: Index)
    requires Inv(m) && LowLarge(m) && LoaderTablesLow(m) && Identity(m.mem, m.root) && i2 * 512 < |m.mem|
    ensures Identity(UnmapAnywhere(m, VPage(0, 0, i2, i1)).mem, m.root)
  {
    hide Inv, Translate, UserAccess, UsesWord;
    InvIsTree(m);
    LowIsLarge(m, i2, i1);
    forall f: nat | f < IDENTITY_FRAMES
      ensures Translate(UnmapAnywhere(m, VPage(0, 0, i2, i1)).mem, m.root, PageOf(f * PAGE_SIZE)) == Some(Leaf(f, BOOT_PAGE))
    {
      LowPage(f);
      LowNotUsed(m, i2, i1, PageOf(f * PAGE_SIZE));
      UnmapOnLargePageSpares(m, VPage(0, 0, i2, i1), PageOf(f * PAGE_SIZE));
    }
  }

  // --------------------------------------------------------------- first state

  /** The upper half starts empty: no large page lies on any path outside PML4 entry 0. */
  ghost predicate HighClear(m: Machine) {
    forall v: VPage | v.i4 != 0 :: PathClear(m.mem, m.root, v)
  }

  lemma BootHighEmpty(m: Memory, base: nat, v: VPage)
    requires 0 < base && base + 2 < |m| <= IDENTITY_FRAMES && v.i4 != 0
    ensures PathClear(BootMemory(m, base), base, v)
    ensures Translate(BootMemory(m, base), base, v) == None
  {
    BootEntryAt(m, base, Root, v.i4);
    BootEntryAt(m, base, Pdpt(v), v.i3);
    BootEntryAt(m, base, Pd(v), v.i2);
    PathClearLevels(BootMemory(m, base), base, v);
  }

  /** After `setup_paging` and `pmm_init` every invariant of the memory code holds, the heap is empty
      and no frame is in client hands. */
  lemma BootReady(m: Memory, base: nat, used: set<nat>, total: nat)
    requires 0 < base && base + 2 < |m| <= IDENTITY_FRAMES && total <= |m|
    requires 0 in used && {base, base + 1, base + 2} <= used && forall f: nat | f in used :: f < total
    ensures var b := BootMachine(m, base, used, total);
            && HeapReady(b) && HighClear(b) && Identity(b.mem, b.root) && LowLarge(b)
            && (forall k: Slot :: !Mapped(b, k))
            && Owned(b, Ledger(used - {base, base + 1, base + 2}, {}, {}))
  {
    var b := BootMachine(m, base, used, total);
    BootTree(m, base);
    BootIdentity(m, base);
    BootTablesAre(m, base, used, total);
    forall v: VPage | v.i4 != 0
      ensures PathClear(b.mem, b.root, v) && Translate(b.mem, b.root, v) == None
    {
      BootHighEmpty(m, base, v);
    }
    forall i2: Index
      ensures Entry(b.mem, b.root, LowPd(), i2) == i2 * TWO_MB + BOOT_PAGE
    {
      BootEntries(m, base, i2);
    }
    assert forall k: Slot :: HeapPage(k).i4 != 0;
    assert forall f: nat :: !HeapFrame(b, f);
  }

  lemma BootTablesAre(m: Memory, base: nat, used: set<nat>, total: nat)
    requires 0 < base && base + 2 < |m| <= IDENTITY_FRAMES && {base, base + 1, base + 2} <= used
    ensures var b := BootMachine(m, base, used, total);
            && TablesUsed(b)
            && forall f: nat :: TableOf(b, f) <==> f in {base, base + 1, base + 2}
  {
    var b := BootMachine(m, base, used, total);
    forall q | Depth(q) <= 3
      ensures TableAt(b.mem, base, q).Some? ==> TableAt(b.mem, base, q).value in {base, base + 1, base + 2}
    {
      BootTableAt(m, base, q);
    }
    BootEntries(m, base, 0);
    assert TableOf(b, base) && TableOf(b, base + 1) && TableOf(b, base + 2);
  }
}
