/** The memory part of start-up (src/kernel/main.c) end to end, and what it gives the tasks. */
module KernelStart {
  import opened Words
  import opened PageTables
  import opened Walker
  import opened Heap
  import opened Ownership
  import Boot
  import opened Runs
  import opened FrameAllocator
  import opened KernelMemory
  import opened KernelHeap
  import Scheduler

  /** `setup_paging`, then `pmm_init`, `vmm_init` and `heap_init`: the objects they leave behind are in
      a state from which every run of the memory code keeps its invariants. */
  method Start(mem: array<Frame>, base: nat, entries: seq<MemoryMapEntry>, kernelStart: nat, kernelEnd: nat)
    returns (heap: Allocator, ghost reserved: set<nat>)
    requires 0 < base && base + 2 < RESERVED_PAGES
    requires EntriesFit(entries) && RESERVED_PAGES <= TotalPages(entries) <= mem.Length <= IDENTITY_FRAMES
    requires EndPage(kernelEnd, TotalPages(entries)) <= 8 * BitmapSize(TotalPages(entries))
    modifies mem
    ensures heap.Valid() && heap.vmm.mem == mem
    ensures Good(World(heap.State(), {}, []), Ledger(reserved, {}, {})) && Boot.LoaderTablesLow(heap.vmm.State())
    ensures forall f: nat | f < RESERVED_PAGES && !(base <= f <= base + 2) :: f in reserved
    ensures forall f: nat | f < TotalPages(entries) && kernelStart / PAGE_SIZE <= f < EndPage(kernelEnd, TotalPages(entries)) ::
              f in reserved || base <= f <= base + 2
    ensures heap.vmm.pmm.totalPages == TotalPages(entries) && heap.vmm.pmm.used == reserved + {base, base + 1, base + 2}
    ensures KernelProtected(entries, kernelStart, kernelEnd, heap.vmm.pmm.bitmap.Length, TotalPages(entries), heap.vmm.pmm.used)
  {
    hide Pmm.Valid, Inv, UsedIn, Good, KernelProtected, EndPage;
    ghost var before := mem[..];
    Boot.SetupPaging(mem, base);
    var pmm := new Pmm.Init(entries, kernelStart, kernelEnd);
    var vmm := new Vmm(mem, pmm, base * 4096);
    PagesBelowTotal(pmm);
    Boot.BootReady(before, base, pmm.used, pmm.totalPages);
    BootGood(before, base, pmm.used, pmm.totalPages);
    Boot.BootTablesLow(before, base, pmm.used, pmm.totalPages);
    assert base * 4096 / 4096 == base;
    assert vmm.State() == Boot.BootMachine(before, base, pmm.used, pmm.totalPages);
    heap := new Allocator(vmm);
    reserved := pmm.used - {base, base + 1, base + 2};
  }

  lemma PagesBelowTotal(pmm: Pmm)
    requires pmm.Valid()
    ensures forall f: nat | f in pmm.used :: f < pmm.totalPages
  {
  }

  /** Two tasks whose stacks come from `kmalloc` have their first register frames inside their own
      stacks, 16-aligned and apart from each other, when each stack has room for one frame. */
  lemma FirstFramesApart(w: World, l: Ledger, i: nat, j: nat, size: Word, other: Word)
    requires Good(w, l) && i < j < |w.blocks|
    requires Scheduler.FRAME_SIZE <= size <= w.blocks[i].size && Scheduler.FRAME_SIZE <= other <= w.blocks[j].size
    ensures w.blocks[i].start < TWO_64 && w.blocks[j].start < TWO_64
    ensures var f, g := Scheduler.FrameAddress(w.blocks[i].start, size), Scheduler.FrameAddress(w.blocks[j].start, other);
            && f % 16 == 0 && g % 16 == 0
            && w.blocks[i].start <= f && f + Scheduler.FRAME_SIZE <= w.blocks[i].start + w.blocks[i].size
            && f + Scheduler.FRAME_SIZE <= w.blocks[j].start <= g
            && g + Scheduler.FRAME_SIZE <= w.blocks[j].start + w.blocks[j].size
  {
    BlocksDisjoint(w, l, i, j);
    Scheduler.FirstFrameInside(w.blocks[i].start, size);
    Scheduler.FirstFrameInside(w.blocks[j].start, other);
  }
}
