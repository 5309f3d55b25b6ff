/** `kmalloc` (src/kernel/mm/heap.c) with its 64-bit wrap-around arithmetic, and exactly when a
    non-NULL answer is a block of the heap window. */
module BumpHeap {
  import opened Words
  import opened PageTables
  import opened Walker
  import opened VirtualMemory
  import opened Heap
  import opened HeapCost

  datatype HeapState = HeapState(machine: Machine, ptr: Word, totalAlloc: Word)

  const NULL: nat := 0

  ghost predicate HeapOk(h: HeapState) {
    && HeapReady(h.machine)
    && HEAP_START <= h.ptr < HEAP_LIMIT
    && h.ptr % 16 == 0
    && h.totalAlloc == h.ptr - HEAP_START
  }

  /** `(size + 15) & ~15` in 64 bits. */
  function RoundUp(size: Word): Word {
    (size + 15) % TWO_64 / 16 * 16
  }

  /** `heap_current_ptr + size` in 64 bits. */
  function NewPtr(ptr: Word, size: Word): Word {
    (ptr + RoundUp(size)) % TWO_64
  }

  /** The first window page a block at `ptr` touches. */
  function FirstSlot(ptr: Word): nat
    requires HEAP_START <= ptr
  {
    (ptr - HEAP_START) / 4096
  }

  /** One past the last window page of a block that ends at `end`. */
  function EndSlot(end: Word): nat {
    if end <= HEAP_START then 0 else (end - HEAP_START + 4095) / 4096
  }

  function Kmalloc(h: HeapState, size: Word): (HeapState, nat)
    requires HeapOk(h)
  {
    var end := NewPtr(h.ptr, size);
    if size == 0 || end >= HEAP_LIMIT then (h, NULL)
    else
      var (m, ok) := MapRange(h.machine, FirstSlot(h.ptr), EndSlot(end));
      if ok then (HeapState(m, end, (h.totalAlloc + RoundUp(size)) % TWO_64), h.ptr)
      else (h.(machine := m), NULL)
  }

  /** Neither the rounding nor the limit test of `kmalloc` wraps for this size. */
  predicate NoWrap(ptr: Word, size: Word) {
    size <= TWO_64 - 16 - ptr
  }

  lemma RoundUpBounds(size: Word)
    ensures RoundUp(size) % 16 == 0
    ensures size <= TWO_64 - 16 ==> size <= RoundUp(size) < size + 16
    ensures size > TWO_64 - 16 ==> RoundUp(size) == 0
  {
  }

  /** The pointer arithmetic without wrap-around. */
  lemma PointerMoves(ptr: Word, size: Word)
    requires HEAP_START <= ptr < HEAP_LIMIT && ptr % 16 == 0 && NoWrap(ptr, size)
    ensures var r := RoundUp(size);
            && NewPtr(ptr, size) == ptr + r && size <= r < size + 16 && (ptr + r) % 16 == 0
            && (ptr + r < HEAP_LIMIT ==> (ptr - HEAP_START + r) % TWO_64 == ptr - HEAP_START + r)
  {
    RoundUpBounds(size);
  }

  /** With wrap-around the new pointer never lies above the old one. */
  lemma PointerWraps(ptr: Word, size: Word)
    requires HEAP_START <= ptr < HEAP_LIMIT && ptr % 16 == 0 && !NoWrap(ptr, size)
    ensures NewPtr(ptr, size) <= ptr
  {
    RoundUpBounds(size);
  }

  /** What `kmalloc` stores and returns in either outcome. */
  lemma KmallocShape(h: HeapState, size: Word)
    requires HeapOk(h)
    ensures var (n, p) := Kmalloc(h, size);
            && HeapReady(n.machine)
            && (p == NULL ==> n.ptr == h.ptr && n.totalAlloc == h.totalAlloc)
            && (p != NULL ==> p == h.ptr && n.ptr == NewPtr(h.ptr, size) && n.ptr < HEAP_LIMIT
                              && n.totalAlloc == (h.totalAlloc + RoundUp(size)) % TWO_64)
  {
    hide MapRange, HeapReady, NewPtr, RoundUp, FirstSlot, EndSlot;
  }

  /** A block below the limit: aligned, inside the window, directly above all earlier blocks, and
      the statistics follow the pointer. */
  lemma KmallocBlock(h: HeapState, size: Word)
    requires HeapOk(h) && NoWrap(h.ptr, size)
    ensures var (n, p) := Kmalloc(h, size);
            && HeapOk(n)
            && (p != NULL ==> p == h.ptr && p % 16 == 0 && size <= n.ptr - p < size + 16
                              && HEAP_START <= p && n.ptr < HEAP_LIMIT)
            && (p == NULL ==> n.ptr == h.ptr && n.totalAlloc == h.totalAlloc)
  {
    KmallocShape(h, size);
    BlockArithmetic(h, size, Kmalloc(h, size).0, Kmalloc(h, size).1);
  }

  lemma KmallocBlockIfNoWrap(h: HeapState, size: Word)
    requires HeapOk(h)
    ensures NoWrap(h.ptr, size) ==> HeapOk(Kmalloc(h, size).0)
  {
    if NoWrap(h.ptr, size) {
      KmallocBlock(h, size);
    }
  }

  lemma BlockArithmetic(h: HeapState, size: Word, n: HeapState, p: nat)
    requires HEAP_START <= h.ptr < HEAP_LIMIT && h.ptr % 16 == 0 && h.totalAlloc == h.ptr - HEAP_START
    requires NoWrap(h.ptr, size)
    requires p == NULL ==> n.ptr == h.ptr && n.totalAlloc == h.totalAlloc
    requires p != NULL ==> p == h.ptr && n.ptr == NewPtr(h.ptr, size) && n.ptr < HEAP_LIMIT
                           && n.totalAlloc == (h.totalAlloc + RoundUp(size)) % TWO_64
    ensures HEAP_START <= n.ptr < HEAP_LIMIT && n.ptr % 16 == 0 && n.totalAlloc == n.ptr - HEAP_START
    ensures p != NULL ==> size <= n.ptr - p < size + 16 && n.ptr - p == RoundUp(size)
  {
    PointerMoves(h.ptr, size);
  }

  /** A non-NULL answer has room for the requested bytes exactly when the arithmetic did not wrap;
      a size that wraps passes the limit test and moves the pointer backwards or not at all. */
  lemma KmallocRoomExactly(h: HeapState, size: Word)
    requires HeapOk(h)
    ensures var (n, p) := Kmalloc(h, size);
            p != NULL ==> (p + size <= n.ptr <==> NoWrap(h.ptr, size))
  {
    if NoWrap(h.ptr, size) {
      KmallocBlock(h, size);
    } else {
      PointerWraps(h.ptr, size);
    }
  }

  /** A request whose arithmetic wraps is never refused for its size. */
  lemma WrappedRequestPasses(h: HeapState, size: Word)
    requires HeapOk(h) && !NoWrap(h.ptr, size)
    ensures size != 0 && NewPtr(h.ptr, size) < HEAP_LIMIT
  {
    PointerWraps(h.ptr, size);
  }

  /** In every state there is a wrapping size that is answered: the caller gets the old pointer, nothing
      is mapped for it, and the heap pointer restarts at address 0. */
  lemma WrappedRequestAnswered(h: HeapState)
    requires HeapOk(h)
    ensures var size := TWO_64 - h.ptr;
            var (n, p) := Kmalloc(h, size);
            !NoWrap(h.ptr, size) && p == h.ptr && n.ptr == 0 && n.machine == h.machine && n.totalAlloc == TWO_64 - HEAP_START
  {
    var size := TWO_64 - h.ptr;
    RoundUpBounds(size);
    assert RoundUp(size) == size;
    assert NewPtr(h.ptr, size) == 0;
  }

  /** NULL leaves every translation that existed and every page outside the window as it was. */
  lemma KmallocKeepsMappings(h: HeapState, size: Word, x: VPage)
    requires HeapOk(h)
    requires Translate(h.machine.mem, h.machine.root, x).Some? || forall k: Slot :: x != HeapPage(k)
    ensures Translate(Kmalloc(h, size).0.machine.mem, h.machine.root, x) == Translate(h.machine.mem, h.machine.root, x)
  {
    var end := NewPtr(h.ptr, size);
    if size != 0 && end < HEAP_LIMIT {
      MapRangeKeepsMappings(h.machine, FirstSlot(h.ptr), EndSlot(end), x);
    }
  }

  /** The pages of the loop are exactly those that hold a byte of the block. */
  lemma SlotsHoldBytes(ptr: Word, end: Word, k: Slot)
    requires HEAP_START <= ptr < end
    ensures FirstSlot(ptr) <= k < EndSlot(end) <==> HEAP_START + 4096 * k < end && ptr < HEAP_START + 4096 * k + 4096
  {
    var d, e := ptr - HEAP_START, end - HEAP_START;
    assert 4096 * (d / 4096) <= d < 4096 * (d / 4096) + 4096;
    assert 4096 * ((e + 4095) / 4096) <= e + 4095 < 4096 * ((e + 4095) / 4096) + 4096;
  }

  lemma EndInWindow(end: Word)
    requires end < HEAP_LIMIT
    ensures EndSlot(end) <= HEAP_PAGES
  {
  }

  /** `kmalloc` maps no page that holds no byte of the block. */
  lemma KmallocMapsOnlyTheBlock(h: HeapState, size: Word, k: Slot)
    requires HeapOk(h) && NoWrap(h.ptr, size)
    requires !(HEAP_START + 4096 * k < NewPtr(h.ptr, size) && h.ptr < HEAP_START + 4096 * k + 4096)
    ensures Translate(Kmalloc(h, size).0.machine.mem, h.machine.root, HeapPage(k))
         == Translate(h.machine.mem, h.machine.root, HeapPage(k))
  {
    hide HeapReady, Translate, MapRange, NewPtr, FirstSlot, EndSlot;
    var end := NewPtr(h.ptr, size);
    PointerMoves(h.ptr, size);
    if size != 0 && end < HEAP_LIMIT {
      SlotsHoldBytes(h.ptr, end, k);
      EndInWindow(end);
      forall j: Slot | FirstSlot(h.ptr) <= j < EndSlot(end)
        ensures HeapPage(k) != HeapPage(j)
      {
        if HeapPage(k) == HeapPage(j) {
          HeapPagesDistinct(k, j);
        }
      }
      MapRangeKeepsMappings(h.machine, FirstSlot(h.ptr), EndSlot(end), HeapPage(k));
    }
  }

  /** The frames this call needs, counted beforehand. */
  function Cost(h: HeapState, size: Word): nat
    requires HeapOk(h) && NewPtr(h.ptr, size) < HEAP_LIMIT
  {
    Need(h.machine, FirstSlot(h.ptr), EndSlot(NewPtr(h.ptr, size)))
  }

  /** The frames with which this call would give a non-NULL answer. */
  function AnswerCost(h: HeapState, size: Word): nat
    requires HeapOk(h) && NewPtr(h.ptr, size) < HEAP_LIMIT
  {
    AnswerNeed(h.machine, FirstSlot(h.ptr), EndSlot(NewPtr(h.ptr, size)))
  }

  /** When `kmalloc` returns NULL, for every state and every 64-bit size. */
  lemma KmallocNullExactly(h: HeapState, size: Word)
    requires HeapOk(h)
    ensures Kmalloc(h, size).1 == NULL
            <==> size == 0 || NewPtr(h.ptr, size) >= 0xFFFF_8000_0100_0000 || AnswerCost(h, size) > FreeFrames(h.machine)
  {
    if NewPtr(h.ptr, size) < HEAP_LIMIT {
      RangeAnswers(h.machine, FirstSlot(h.ptr), EndSlot(NewPtr(h.ptr, size)));
    }
  }

  /** Some page of the block that ends at `end` is not mapped. */
  ghost predicate Dangling(m: Machine, ptr: Word, end: Word)
    requires HEAP_START <= ptr && end < HEAP_LIMIT
  {
    !AllMapped(m, FirstSlot(ptr), EndSlot(end))
  }

  /** The three outcomes of a request below the limit, told apart by the number of free frames
      alone: NULL, a pointer to a block with an unmapped page, or a block whose pages are all mapped.
      Short of memory, the call leaves not a single frame free. */
  lemma KmallocOutcome(h: HeapState, size: Word)
    requires HeapOk(h) && size != 0 && NewPtr(h.ptr, size) < HEAP_LIMIT
    ensures var (n, p) := Kmalloc(h, size);
            var free := FreeFrames(h.machine);
            var end := NewPtr(h.ptr, size);
            && (p == NULL <==> free < AnswerCost(h, size))
            && (p != NULL && Dangling(n.machine, h.ptr, end) <==> AnswerCost(h, size) <= free < Cost(h, size))
            && (p != NULL && !Dangling(n.machine, h.ptr, end) <==> Cost(h, size) <= free)
            && FreeFrames(n.machine) == if Cost(h, size) <= free then free - Cost(h, size) else 0
  {
    KmallocNullExactly(h, size);
    RangeFits(h.machine, FirstSlot(h.ptr), EndSlot(NewPtr(h.ptr, size)));
  }

  /** The call is refused or served in full: it does not get a pointer to a page that is not mapped. */
  predicate Served(h: HeapState, size: Word)
    requires HeapOk(h)
  {
    size == 0 || NewPtr(h.ptr, size) >= HEAP_LIMIT || !(AnswerCost(h, size) <= FreeFrames(h.machine) < Cost(h, size))
  }

  /** A request that is answered and served in full: a block with room, all its pages mapped. */
  lemma KmallocServed(h: HeapState, size: Word)
    requires HeapOk(h) && NoWrap(h.ptr, size) && Served(h, size) && Kmalloc(h, size).1 != NULL
    ensures var (n, p) := Kmalloc(h, size);
            && p == h.ptr && HEAP_START <= p && size <= n.ptr - p && n.ptr < HEAP_LIMIT
            && AllMapped(n.machine, FirstSlot(h.ptr), EndSlot(n.ptr))
  {
    KmallocBlock(h, size);
    KmallocShape(h, size);
    KmallocNullExactly(h, size);
    KmallocOutcome(h, size);
    hide HeapOk, Kmalloc, FirstSlot, EndSlot, Cost, AnswerCost, NewPtr, FreeFrames, Mapped, AllMapped;
  }

  /** The middle outcome does occur: with a single free frame the first request on an empty window
      spends it on the page itself, the map fails for lack of tables, and the caller still gets a
      pointer, to a page that is not mapped. */
  lemma KmallocCanReturnUnmappedBlock(h: HeapState)
    requires HeapOk(h) && h.ptr == HEAP_START && FreeFrames(h.machine) == 1
    requires !Mapped(h.machine, 0) && UpperTables(h.machine) > 0
    ensures var (n, p) := Kmalloc(h, 16);
            p == HEAP_START && n.ptr == HEAP_START + 16 && !Mapped(n.machine, 0) && FreeFrames(n.machine) == 0
  {
    var m := h.machine;
    assert NewPtr(h.ptr, 16) == HEAP_START + 16 && EndSlot(HEAP_START + 16) == 1 && FirstSlot(h.ptr) == 0;
    NoFrameLeft(m, 0, 1);
    SlotTables(m, 0);
    FreshPageAtEnd(m, 0, 1);
    MapFreshCounts(m, HeapPage(0));
    assert MapRange(MapFresh(m, HeapPage(0)), 1, 1) == (MapFresh(m, HeapPage(0)), true);
  }
}
