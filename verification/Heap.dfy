/** The bump allocator of src/kernel/mm/heap.c: what `kmalloc` maps, what it returns, and how many
    frames it needs. */
module Heap {
  import opened Words
  import opened PageTables
  import opened Walker
  import opened VirtualMemory
  import FrameSets

  const HEAP_START: nat := 0xFFFF_8000_0000_0000
  const HEAP_SIZE: nat := 0x100_0000 // 16 MB
  const HEAP_LIMIT: nat := HEAP_START + HEAP_SIZE
  const HEAP_PAGES: nat := 4096
  const HEAP_FLAGS: nat := 3 // PAGE_PRESENT | PAGE_WRITE

  type Slot = k: nat | k < 4096

  /** The k-th page of the heap window. */
  function HeapPage(k: Slot): VPage {
    VPage(256, 0, k / 512, k % 512)
  }

  lemma HeapPageOf(k: Slot, offset: nat)
    requires offset < 4096
    ensures PageOf(HEAP_START + 4096 * k + offset) == HeapPage(k)
  {
    var va := HEAP_START + 4096 * k + offset;
    var low := k % 512;
    assert k == 512 * (k / 512) + low;
    DivIs(va, 0x1000, 0xF_FFF8_0000_0000 + k);
    DivIs(0xF_FFF8_0000_0000 + k, 512, 0x7FF_FC00_0000 + k / 512);
    DivIs(va, 0x20_0000, 0x7FF_FC00_0000 + k / 512);
    DivIs(0x7FF_FC00_0000 + k / 512, 512, 0x3_FFFE_0000);
    DivIs(va, 0x4000_0000, 0x3_FFFE_0000);
    DivIs(va, 0x80_0000_0000, 0x1FF_FF00);
  }

  lemma HeapPagesDistinct(j: Slot, k: Slot)
    requires HeapPage(j) == HeapPage(k)
    ensures j == k
  {
  }

  ghost predicate WindowClear(m: Machine) {
    forall k: Slot :: PathClear(m.mem, m.root, HeapPage(k))
  }

  predicate Mapped(m: Machine, k: Slot) {
    Translate(m.mem, m.root, HeapPage(k)).Some?
  }

  /** No heap page is translated to frame 0, which lookup could not tell from "not mapped". */
  ghost predicate NoNullFrame(m: Machine) {
    forall k: Slot | Mapped(m, k) :: Translate(m.mem, m.root, HeapPage(k)).value.frame != 0
  }

  ghost predicate HeapReady(m: Machine) {
    Inv(m) && WindowClear(m) && NoNullFrame(m)
  }

  // ------------------------------------------------------ one page of the loop

  /** `pmm_alloc_page` as a step on machines. */
  function Take(m: Machine, f: nat): Machine {
    m.(used := m.used + {f})
  }

  /** The frame the allocator would give out next; 0 when there is none. */
  function NextFrame(m: Machine): nat {
    FrameSets.Alloc(m.used, m.total).1
  }

  lemma TakeKeeps(m: Machine)
    requires Inv(m) && NextFrame(m) != 0
    ensures var f := NextFrame(m);
            && f < m.total && f !in m.used && f * 4096 < PHYSICAL_LIMIT
            && FrameSets.Alloc(m.used, m.total) == (m.used + {f}, f)
            && Inv(Take(m, f)) && !TableOf(m, f)
            && FreeFrames(Take(m, f)) == FreeFrames(m) - 1
  {
    FrameSets.AllocTakesLowest(m.used, m.total);
  }

  /** One unmapped page of the loop in `kmalloc`: take a frame, then map v to it. */
  function MapFresh(m: Machine, v: VPage): Machine
    requires Inv(m) && PathClear(m.mem, m.root, v) && NextFrame(m) != 0
  {
    TakeKeeps(m);
    MapPage(Take(m, NextFrame(m)), v, NextFrame(m) * 4096, HEAP_FLAGS)
  }

  /** The map inside MapFresh succeeds: there is a frame for the page and for each missing table. */
  predicate FreshEnough(m: Machine, v: VPage) {
    MissingTables(m, Pt(v)) + 1 <= FreeFrames(m)
  }

  lemma {:induction false} SameMissing(m: Machine, a: Machine, p: Path)
    requires a.mem == m.mem && a.root == m.root
    ensures MissingTables(a, p) == MissingTables(m, p)
  {
    if p.Child? {
      SameMissing(m, a, p.parent);
    }
  }

  lemma TakeThenMap(m: Machine, v: VPage)
    requires Inv(m) && PathClear(m.mem, m.root, v) && NextFrame(m) != 0
    ensures var a := Take(m, NextFrame(m));
            && Inv(a) && PathClear(a.mem, a.root, v) && a.root == m.root
            && NextFrame(m) * 4096 < PHYSICAL_LIMIT && NextFrame(m) * 4096 / 4096 == NextFrame(m)
            && Enough(a, v) == FreshEnough(m, v)
            && MapFresh(m, v) == MapPage(a, v, NextFrame(m) * 4096, HEAP_FLAGS)
  {
    TakeKeeps(m);
    SameMissing(m, Take(m, NextFrame(m)), Pt(v));
  }

  /** Every translation after one page of the loop. */
  lemma MapFreshTranslates(m: Machine, v: VPage, x: VPage)
    requires Inv(m) && PathClear(m.mem, m.root, v) && NextFrame(m) != 0
    ensures Translate(MapFresh(m, v).mem, m.root, x) ==
              if FreshEnough(m, v) && x == v then Some(Leaf(NextFrame(m), HEAP_FLAGS))
              else Translate(m.mem, m.root, x)
  {
    TakeThenMap(m, v);
    MapUpdatesOneKey(Take(m, NextFrame(m)), v, NextFrame(m) * 4096, HEAP_FLAGS, x);
  }

  lemma MapFreshKeeps(m: Machine, v: VPage)
    requires Inv(m) && PathClear(m.mem, m.root, v) && NextFrame(m) != 0
    ensures Inv(MapFresh(m, v)) && TablesGrow(Take(m, NextFrame(m)), MapFresh(m, v))
  {
    TakeThenMap(m, v);
    MapKeepsInvariant(Take(m, NextFrame(m)), v, NextFrame(m) * 4096, HEAP_FLAGS);
  }

  lemma MapFreshCounts(m: Machine, v: VPage)
    requires Inv(m) && PathClear(m.mem, m.root, v) && NextFrame(m) != 0
    ensures var n := MapFresh(m, v);
            && FreeFrames(n) == (if FreshEnough(m, v) then FreeFrames(m) - 1 - MissingTables(m, Pt(v)) else 0)
            && (FreshEnough(m, v) ==> TableAt(n.mem, m.root, Pt(v)).Some?)
            && (forall q | Depth(q) <= 3 && !OnWay(q, Pt(v)) :: TableAt(n.mem, m.root, q) == TableAt(m.mem, m.root, q))
  {
    TakeThenMap(m, v);
    TakeKeeps(m);
    SameMissing(m, Take(m, NextFrame(m)), Pt(v));
    MapCounts(Take(m, NextFrame(m)), v, NextFrame(m) * 4096, HEAP_FLAGS);
  }

  lemma MapFreshKeepsHeap(m: Machine, k: Slot)
    requires HeapReady(m) && NextFrame(m) != 0
    ensures HeapReady(MapFresh(m, HeapPage(k)))
  {
    var v := HeapPage(k);
    var n := MapFresh(m, v);
    TakeKeeps(m);
    MapFreshKeeps(m, v);
    forall j: Slot
      ensures PathClear(n.mem, n.root, HeapPage(j))
      ensures Mapped(n, j) ==> Translate(n.mem, n.root, HeapPage(j)).value.frame != 0
    {
      assert PathClear(m.mem, m.root, HeapPage(j));
      MapFreshTranslates(m, v, HeapPage(j));
    }
  }

  // ------------------------------------------------------------------ the loop

  /** The loop of `kmalloc` over the window pages from k up to `end`; false when it returns NULL. */
  function MapRange(m: Machine, k: nat, end: nat): (r: (Machine, bool))
    requires HeapReady(m) && end <= HEAP_PAGES
    ensures HeapReady(r.0)
    decreases end - k
  {
    if k >= end then (m, true)
    else if VirtToPhys(m, HeapPage(k), 0) != 0 then MapRange(m, k + 1, end)
    else if NextFrame(m) == 0 then (m, false)
    else
      MapFreshKeepsHeap(m, k);
      MapRange(MapFresh(m, HeapPage(k)), k + 1, end)
  }

  lemma LookupTellsMapped(m: Machine, k: Slot)
    requires HeapReady(m)
    ensures VirtToPhys(m, HeapPage(k), 0) != 0 <==> Mapped(m, k)
  {
    LookupRefinesTranslation(m, HeapPage(k), 0);
  }

  /** Whatever the loop does, a page that was mapped keeps its translation, and no page outside the
      window is touched. */
  lemma {:induction false} MapRangeKeepsMappings(m: Machine, k: nat, end: nat, x: VPage)
    requires HeapReady(m) && end <= HEAP_PAGES
    requires Translate(m.mem, m.root, x).Some? || forall j: Slot | k <= j < end :: x != HeapPage(j)
    ensures Translate(MapRange(m, k, end).0.mem, m.root, x) == Translate(m.mem, m.root, x)
    ensures MapRange(m, k, end).0.root == m.root
    decreases end - k
  {
    if k < end {
      LookupTellsMapped(m, k);
      if Mapped(m, k) {
        MapRangeKeepsMappings(m, k + 1, end, x);
      } else if NextFrame(m) != 0 {
        MapFreshTranslates(m, HeapPage(k), x);
        MapFreshKeepsHeap(m, k);
        MapFreshKeeps(m, HeapPage(k));
        MapRangeKeepsMappings(MapFresh(m, HeapPage(k)), k + 1, end, x);
      }
    }
  }

  ghost predicate AllMapped(m: Machine, k: nat, end: nat)
    requires end <= HEAP_PAGES
  {
    forall j: Slot | k <= j < end :: Mapped(m, j)
  }

  /** Pages mapped by an earlier call are reused: a range already mapped costs nothing. */
  lemma {:induction false} MappedRangeIsFree(m: Machine, k: nat, end: nat)
    requires HeapReady(m) && end <= HEAP_PAGES && AllMapped(m, k, end)
    ensures MapRange(m, k, end) == (m, true)
    decreases end - k
  {
    if k < end {
      LookupTellsMapped(m, k);
      MappedRangeIsFree(m, k + 1, end);
    }
  }
}
