/** src/kernel/mm/heap.c on top of the page-table code: the loop of `kmalloc` that maps pages on
    demand, proved against BumpHeap.Kmalloc. */
module KernelHeap {
  import opened Words
  import opened PageTables
  import opened Walker
  import VM = VirtualMemory
  import opened Heap
  import BumpHeap
  import FrameSets
  import opened FrameAllocator
  import opened KernelMemory

  /** `(size + 15) & ~15` */
  lemma RoundUpBits(size: Word)
    ensures And((size + 15) % TWO_64, TWO_64 - 16) == BumpHeap.RoundUp(size)
  {
    Masks((size + 15) % TWO_64);
  }

  /** The first page of the loop. */
  lemma StartPage(ptr: Word)
    requires HEAP_START <= ptr < HEAP_LIMIT
    ensures And(ptr, NOT_FFF) == HEAP_START + 4096 * BumpHeap.FirstSlot(ptr)
  {
    PageBase(ptr);
    PagesAbove(ptr - HEAP_START);
  }

  lemma PagesAbove(d: nat)
    ensures (HEAP_START + d) - (HEAP_START + d) % 4096 == HEAP_START + 4096 * (d / 4096)
  {
    assert HEAP_START % 4096 == 0;
  }

  /** The page at which the loop stops; it never runs when the end lies below the window. */
  lemma EndPageBits(end: Word)
    requires end < HEAP_LIMIT
    ensures var page := And((end + 0xFFF) % TWO_64, NOT_FFF);
            && BumpHeap.EndSlot(end) <= HEAP_PAGES
            && (end > HEAP_START ==> page == HEAP_START + 4096 * BumpHeap.EndSlot(end))
            && (end <= HEAP_START ==> page <= HEAP_START && BumpHeap.EndSlot(end) == 0)
            && page <= HEAP_LIMIT
  {
    hide And;
    PageBase(end + 0xFFF);
    if end > HEAP_START {
      PagesAbove(end - HEAP_START + 0xFFF);
    } else {
      assert end + 0xFFF - (end + 0xFFF) % 4096 <= HEAP_START;
    }
  }

  class Allocator {
    const vmm: Vmm
    var heapCurrentPtr: Word
    var heapTotalAlloc: Word

    ghost function State(): BumpHeap.HeapState
      reads this, vmm, vmm.mem, vmm.pmm
    {
      BumpHeap.HeapState(vmm.State(), heapCurrentPtr, heapTotalAlloc)
    }

    ghost predicate Valid()
      reads this, vmm, vmm.mem, vmm.pmm, vmm.pmm.bitmap
    {
      vmm.Valid() && BumpHeap.HeapOk(State())
    }

    /** `heap_init` */
    constructor (vmm: Vmm)
      requires vmm.Valid() && HeapReady(vmm.State())
      ensures Valid() && this.vmm == vmm
      ensures State() == BumpHeap.HeapState(vmm.State(), HEAP_START, 0)
    {
      this.vmm := vmm;
      heapCurrentPtr := HEAP_START;
      heapTotalAlloc := 0;
    }

    /** One page of the loop in `kmalloc`; false when there is no frame for it. */
    method EnsurePage(page: Word, ghost k: Slot) returns (ok: bool)
      requires vmm.Valid() && HeapReady(vmm.State()) && page == HEAP_START + 4096 * k
      modifies vmm.mem, vmm.pmm`usedPages, vmm.pmm`used, vmm.pmm.bitmap
      ensures vmm.Valid() && HeapReady(vmm.State()) && vmm.pmm.bitmap == old(vmm.pmm.bitmap)
      ensures forall end: nat | k < end <= HEAP_PAGES ::
                MapRange(old(vmm.State()), k, end) == if ok then MapRange(vmm.State(), k + 1, end) else (vmm.State(), false)
    {
      hide Pmm.Valid, Inv, PageOf, TableAt, Pt, VM.MapPage, VM.VirtToPhys, VM.MapAnywhere, VM.LookupAnywhere, WalkInside;
      ghost var m := vmm.State();
      HeapPageOf(k, 0);
      OffsetZero(page, k);
      WindowPage(m, k);
      WalkIsClear(m, HeapPage(k));
      var phys := vmm.VirtToPhys(page);
      if phys != 0 {
        return true;
      }
      TakeFrame(m);
      var frame := vmm.pmm.AllocPage();
      if frame == 0 {
        assert vmm.State() == m;
        return false;
      }
      TakeKeeps(m);
      assert vmm.State() == Take(m, NextFrame(m));
      MapFreshKeepsHeap(m, k);
      TakeThenMap(m, HeapPage(k));
      WalkIsClear(Take(m, NextFrame(m)), HeapPage(k));
      vmm.MapPage(page, frame, PAGE_PRESENT + PAGE_WRITE);
      assert vmm.State() == MapFresh(m, HeapPage(k));
      return true;
    }

    /** The loop of `kmalloc`: maps the pages of the block that are not mapped yet. */
    method MapPages(startPage: Word, endPage: Word, ghost first: nat, ghost last: nat) returns (ok: bool)
      requires vmm.Valid() && HeapReady(vmm.State()) && last <= HEAP_PAGES
      requires startPage == HEAP_START + 4096 * first && endPage <= HEAP_LIMIT
      requires endPage == HEAP_START + 4096 * last || (last == 0 && endPage <= HEAP_START)
      modifies vmm.mem, vmm.pmm`usedPages, vmm.pmm`used, vmm.pmm.bitmap
      ensures vmm.Valid() && vmm.pmm.bitmap == old(vmm.pmm.bitmap)
      ensures (vmm.State(), ok) == MapRange(old(vmm.State()), first, last)
    {
      hide Pmm.Valid, Inv, MapRange;
      var page := startPage;
      ghost var k := first;
      while page < endPage
        invariant vmm.Valid() && HeapReady(vmm.State()) && vmm.pmm.bitmap == old(vmm.pmm.bitmap)
        invariant page == HEAP_START + 4096 * k
        invariant MapRange(old(vmm.State()), first, last) == MapRange(vmm.State(), k, last)
        decreases last - k
      {
        var mapped := EnsurePage(page, k);
        if !mapped {
          return false;
        }
        page := page + 0x1000;
        k := k + 1;
      }
      RangeDone(vmm.State(), k, last);
      return true;
    }

    /** `kmalloc`: the returned address and the whole new state are those of BumpHeap.Kmalloc. */
    method Kmalloc(size: Word) returns (ptr: Word)
      requires Valid()
      modifies this, vmm.mem, vmm.pmm`usedPages, vmm.pmm`used, vmm.pmm.bitmap
      ensures vmm.Valid() && vmm.pmm.bitmap == old(vmm.pmm.bitmap)
      ensures (State(), ptr) == BumpHeap.Kmalloc(old(State()), size)
      ensures BumpHeap.NoWrap(old(heapCurrentPtr), size) ==> Valid()
    {
      hide Pmm.Valid, Inv, And, MapRange, BumpHeap.RoundUp, BumpHeap.FirstSlot, BumpHeap.EndSlot;
      BumpHeap.KmallocBlockIfNoWrap(State(), size);
      if size == 0 {
        return 0;
      }
      RoundUpBits(size);
      var rounded := And((size + 15) % TWO_64, TWO_64 - 16);
      var end := (heapCurrentPtr + rounded) % TWO_64;
      if end >= HEAP_LIMIT {
        return 0;
      }
      StartPage(heapCurrentPtr);
      EndPageBits(end);
      var ok := MapPages(And(heapCurrentPtr, NOT_FFF), And((end + 0xFFF) % TWO_64, NOT_FFF),
                         BumpHeap.FirstSlot(heapCurrentPtr), BumpHeap.EndSlot(end));
      if !ok {
        return 0;
      }
      ptr := heapCurrentPtr;
      heapCurrentPtr := (heapCurrentPtr + rounded) % TWO_64;
      heapTotalAlloc := (heapTotalAlloc + rounded) % TWO_64;
    }

    /** `heap_total_allocated` and `heap_current_size` agree. */
    method Statistics() returns (total: Word, size: Word)
      requires Valid()
      ensures total == size == heapCurrentPtr - HEAP_START
    {
      total := heapTotalAlloc;
      size := heapCurrentPtr - HEAP_START;
    }
  }

  lemma RangeDone(m: Machine, k: nat, end: nat)
    requires HeapReady(m) && end <= HEAP_PAGES && k >= end
    ensures MapRange(m, k, end) == (m, true)
  {
  }

  lemma OffsetZero(page: Word, k: Slot)
    requires page == HEAP_START + 4096 * k
    ensures page % 4096 == 0
  {
  }

  lemma WindowPage(m: Machine, k: Slot)
    requires HeapReady(m)
    ensures PathClear(m.mem, m.root, HeapPage(k))
  {
  }

  /** In the heap window the page-table code meets no large page. */
  lemma WalkIsClear(m: Machine, v: VPage)
    requires Inv(m) && PathClear(m.mem, m.root, v)
    ensures Sound(m) && WalkInside(m, v, false, false) && WalkInside(m, v, true, User(HEAP_FLAGS))
  {
    hide WalkInside, GetPte, Reach;
    GetPteIsReach(m, v, false, false);
    GetPteIsReach(m, v, true, User(HEAP_FLAGS));
  }

  /** What the allocator does to the machine when called from `kmalloc`. */
  lemma TakeFrame(m: Machine)
    requires Inv(m)
    ensures var (used, f) := FrameSets.Alloc(m.used, m.total);
            && f == NextFrame(m)
            && (f == 0 ==> used == m.used)
            && (f != 0 ==> used == m.used + {f} && f * 4096 < PHYSICAL_LIMIT)
  {
    FrameSets.AllocTakesLowest(m.used, m.total);
  }
}
