/** Whole runs of the memory code: any sequence of allocations, frees, maps, unmaps, `kmalloc` calls
    and stores into the heap. */
module Runs {
  import opened Words
  import opened PageTables
  import opened Walker
  import opened VirtualMemory
  import opened Heap
  import opened HeapCost
  import opened BumpHeap
  import opened Ownership
  import opened Boot
  import FrameSets

  datatype Block = Block(start: nat, size: int)

  /** The kernel's memory state, the frames clients hold, and the blocks `kmalloc` has returned. */
  datatype World = World(h: HeapState, client: set<nat>, blocks: seq<Block>)

  datatype Op =
    | OpKmalloc(size: Word)
    | OpAlloc
    | OpFree(frame: nat)
    | OpMap(v: VPage, pa: Word, flags: nat)
    | OpUnmap(v: VPage)
    | OpPoke(k: Slot, i: Index, w: Word)
    | OpWrite(frame: nat, i: Index, w: Word)

  /** Sizes for which the arithmetic of `kmalloc` cannot wrap, whatever the heap pointer. */
  const MAX_REQUEST: nat := TWO_64 - 16 - HEAP_LIMIT

  /** What the kernel asks of the callers of each operation: clients free and write only frames they
      hold, and map neither the identity-mapped first PML4 entry nor the heap window. */
  predicate Allowed(w: World, op: Op) {
    match op
    case OpKmalloc(size) => size <= MAX_REQUEST
    case OpAlloc => true
    case OpFree(f) => f in w.client
    case OpMap(v, pa, flags) => ClientPage(v) && pa < PHYSICAL_LIMIT && flags < 4096
    case OpUnmap(v) => ClientPage(v)
    case OpPoke(k, i, x) => Mapped(w.h.machine, k)
    case OpWrite(f, i, x) => f in w.client
  }

  predicate InWindow(v: VPage) {
    v.i4 == 256 && v.i3 == 0 && v.i2 < 8
  }

  predicate ClientPage(v: VPage) {
    v.i4 != 0 && !InWindow(v)
  }

  lemma WindowIsHeap(k: Slot)
    ensures InWindow(HeapPage(k)) && HeapPage(k).i4 != 0
  {
  }

  /** The state between operations, before anything is said about ownership. */
  ghost predicate Ready(w: World) {
    && HeapOk(w.h)
    && HighClear(w.h.machine)
    && (forall k: Slot | Mapped(w.h.machine, k) :: Translate(w.h.machine.mem, w.h.machine.root, HeapPage(k)).value.frame < |w.h.machine.mem|)
    && forall f | f in w.client :: f < |w.h.machine.mem|
  }

  function StepKmalloc(w: World, size: Word): World
    requires HeapOk(w.h)
  {
    var (h, p) := Kmalloc(w.h, size);
    World(h, w.client, if p == NULL then w.blocks else w.blocks + [Block(p, h.ptr - p)])
  }

  function StepAlloc(w: World): World {
    var f := NextFrame(w.h.machine);
    if f == 0 then w else World(w.h.(machine := Take(w.h.machine, f)), w.client + {f}, w.blocks)
  }

  function WithMachine(w: World, m: Machine): World {
    w.(h := w.h.(machine := m))
  }

  lemma ClientPathClear(m: Machine, v: VPage)
    requires HighClear(m) && ClientPage(v)
    ensures PathClear(m.mem, m.root, v)
  {
  }

  function Step(w: World, op: Op): World
    requires Ready(w) && Allowed(w, op)
  {
    var m := w.h.machine;
    match op
    case OpKmalloc(size) => StepKmalloc(w, size)
    case OpAlloc => StepAlloc(w)
    case OpFree(f) => WithMachine(w, m.(used := FrameSets.Free(m.used, f))).(client := w.client - {f})
    case OpMap(v, pa, flags) => ClientPathClear(m, v); WithMachine(w, MapPage(m, v, pa, flags))
    case OpUnmap(v) => ClientPathClear(m, v); WithMachine(w, UnmapPage(m, v))
    case OpPoke(k, i, x) => WithMachine(w, Poke(m, k, i, x))
    case OpWrite(f, i, x) => WithMachine(w, m.(mem := Store(m.mem, f, i, x)))
  }

  // ------------------------------------------------------------- the invariant

  /** The blocks lie one after the other from HEAP_START to the heap pointer. */
  predicate Tiled(blocks: seq<Block>, end: nat) {
    if blocks == [] then end == HEAP_START
    else
      var last := blocks[|blocks| - 1];
      && last.start + last.size == end
      && last.start % 16 == 0 && last.size > 0
      && HEAP_START <= last.start
      && Tiled(blocks[..|blocks| - 1], last.start)
  }

  /** Everything that holds between any two operations, with the frames accounted for in l. */
  ghost predicate Good(w: World, l: Ledger) {
    && HeapOk(w.h)
    && HighClear(w.h.machine)
    && Identity(w.h.machine.mem, w.h.machine.root)
    && LowLarge(w.h.machine)
    && Owned(w.h.machine, l) && l.client == w.client
    && Tiled(w.blocks, w.h.ptr)
  }

  lemma GoodIsReady(w: World, l: Ledger)
    requires Good(w, l)
    ensures Ready(w)
  {
    var m := w.h.machine;
    forall k: Slot | Mapped(m, k)
      ensures Translate(m.mem, m.root, HeapPage(k)).value.frame < |m.mem|
    {
      var f := Translate(m.mem, m.root, HeapPage(k)).value.frame;
      assert MapsTo(m, k, f);
      assert HeapFrame(m, f);
    }
    forall f | f in w.client
      ensures f < |m.mem|
    {
      assert f in Held(l);
    }
  }

  // ---------------------------------------------- what an operation leaves alone

  /** n is a state the memory code may reach from m by one operation: no page of the heap window and
      no page below 1 GB lost or changed its translation, the 2 MB entries of the loader are untouched,
      no table has moved, and large pages stay where they were. */
  ghost predicate Persists(m: Machine, n: Machine) {
    && n.root == m.root
    && (forall k: Slot | Mapped(m, k) :: Translate(n.mem, m.root, HeapPage(k)) == Translate(m.mem, m.root, HeapPage(k)))
    && (forall v: VPage | v.i4 == 0 :: Translate(n.mem, m.root, v) == Translate(m.mem, m.root, v))
    && (forall j: Index :: Entry(n.mem, m.root, LowPd(), j) == Entry(m.mem, m.root, LowPd(), j))
    && (forall q | Depth(q) <= 3 && TableAt(m.mem, m.root, q).Some? :: TableAt(n.mem, m.root, q) == TableAt(m.mem, m.root, q))
    && (forall q | Depth(q) <= 3 :: ClearTo(n.mem, m.root, q) == ClearTo(m.mem, m.root, q))
  }

  lemma PersistsKeeps(m: Machine, n: Machine)
    requires Persists(m, n) && HighClear(m) && Identity(m.mem, m.root) && LowLarge(m)
    ensures HighClear(n) && Identity(n.mem, n.root) && LowLarge(n)
  {
    forall f: nat | f < IDENTITY_FRAMES
      ensures Translate(n.mem, n.root, PageOf(f * PAGE_SIZE)) == Some(Leaf(f, BOOT_PAGE))
    {
      LowPage(f);
      assert PageOf(f * PAGE_SIZE).i4 == 0;
    }
  }

  lemma PersistsTransitive(a: Machine, b: Machine, c: Machine)
    requires Persists(a, b) && Persists(b, c)
    ensures Persists(a, c)
  {
    forall k: Slot | Mapped(a, k)
      ensures Translate(c.mem, a.root, HeapPage(k)) == Translate(a.mem, a.root, HeapPage(k))
    {
      assert Mapped(b, k);
    }
  }

  lemma {:induction false} RangeClear(m: Machine, k: nat, end: nat, q: Path)
    requires HeapReady(m) && end <= HEAP_PAGES && Depth(q) <= 3
    ensures TableAt(m.mem, m.root, q).Some? ==> TableAt(MapRange(m, k, end).0.mem, m.root, q) == TableAt(m.mem, m.root, q)
    ensures ClearTo(MapRange(m, k, end).0.mem, m.root, q) == ClearTo(m.mem, m.root, q)
    decreases end - k
  {
    if k < end {
      LookupTellsMapped(m, k);
      if Mapped(m, k) {
        RangeClear(m, k + 1, end, q);
      } else if NextFrame(m) != 0 {
        MapFreshKeepsHeap(m, k);
        MapFreshKeeps(m, HeapPage(k));
        RangeClear(MapFresh(m, HeapPage(k)), k + 1, end, q);
      }
    }
  }

  lemma LowNotOnWay(v: VPage, j: Index)
    requires v.i4 != 0
    ensures !OnWay(Child(LowPd(), j), Pt(v))
  {
    NotOnWay(Child(LowPd(), j), Pd(v));
  }

  lemma {:induction false} RangeKeepsLow(m: Machine, k: nat, end: nat, j: Index)
    requires HeapReady(m) && end <= HEAP_PAGES
    ensures Entry(MapRange(m, k, end).0.mem, m.root, LowPd(), j) == Entry(m.mem, m.root, LowPd(), j)
    decreases end - k
  {
    hide Entry;
    if k < end {
      LookupTellsMapped(m, k);
      if Mapped(m, k) {
        RangeKeepsLow(m, k + 1, end, j);
      } else if NextFrame(m) != 0 {
        MapFreshKeepsHeap(m, k);
        MapFreshKeeps(m, HeapPage(k));
        FreshKeepsLow(m, k, j);
        RangeKeepsLow(MapFresh(m, HeapPage(k)), k + 1, end, j);
      }
    }
  }

  lemma FreshKeepsLow(m: Machine, k: Slot, j: Index)
    requires HeapReady(m) && NextFrame(m) != 0
    ensures Entry(MapFresh(m, HeapPage(k)).mem, m.root, LowPd(), j) == Entry(m.mem, m.root, LowPd(), j)
  {
    var a := Take(m, NextFrame(m));
    TakeThenMap(m, HeapPage(k));
    LowNotOnWay(HeapPage(k), j);
    MapKeepsEntry(a, HeapPage(k), NextFrame(m) * 4096, HEAP_FLAGS, LowPd(), j);
  }

  lemma RangePersists(m: Machine, k: nat, end: nat)
    requires HeapReady(m) && end <= HEAP_PAGES
    ensures Persists(m, MapRange(m, k, end).0)
  {
    MapRangeKeepsMappings(m, end, end, HeapPage(0));
    forall v: VPage | v.i4 == 0 || Translate(m.mem, m.root, v).Some?
      ensures Translate(MapRange(m, k, end).0.mem, m.root, v) == Translate(m.mem, m.root, v)
      ensures MapRange(m, k, end).0.root == m.root
    {
      MapRangeKeepsMappings(m, k, end, v);
    }
    assert VPage(0, 0, 0, 0).i4 == 0;
    forall j: Index
      ensures Entry(MapRange(m, k, end).0.mem, m.root, LowPd(), j) == Entry(m.mem, m.root, LowPd(), j)
    {
      RangeKeepsLow(m, k, end, j);
    }
    forall q | Depth(q) <= 3
      ensures TableAt(m.mem, m.root, q).Some? ==> TableAt(MapRange(m, k, end).0.mem, m.root, q) == TableAt(m.mem, m.root, q)
      ensures ClearTo(MapRange(m, k, end).0.mem, m.root, q) == ClearTo(m.mem, m.root, q)
    {
      RangeClear(m, k, end, q);
    }
  }

  lemma MapKeepsLow(m: Machine, v: VPage, pa: Word, flags: nat)
    requires Inv(m) && HighClear(m) && v.i4 != 0 && pa < PHYSICAL_LIMIT && flags < 4096
    ensures PathClear(m.mem, m.root, v)
    ensures forall j: Index :: Entry(MapPage(m, v, pa, flags).mem, m.root, LowPd(), j) == Entry(m.mem, m.root, LowPd(), j)
  {
    assert PathClear(m.mem, m.root, v);
    hide Entry, Inv, MapPage, LowPd;
    forall j: Index
      ensures Entry(MapPage(m, v, pa, flags).mem, m.root, LowPd(), j) == Entry(m.mem, m.root, LowPd(), j)
    {
      LowNotOnWay(v, j);
      MapKeepsEntry(m, v, pa, flags, LowPd(), j);
    }
  }

  lemma MapPersists(m: Machine, v: VPage, pa: Word, flags: nat)
    requires Inv(m) && HighClear(m) && ClientPage(v) && pa < PHYSICAL_LIMIT && flags < 4096
    ensures Persists(m, MapPage(m, v, pa, flags))
  {
    MapKeepsInvariant(m, v, pa, flags);
    forall x: VPage | x != v
      ensures Translate(MapPage(m, v, pa, flags).mem, m.root, x) == Translate(m.mem, m.root, x)
    {
      MapUpdatesOneKey(m, v, pa, flags, x);
    }
    MapKeepsLow(m, v, pa, flags);
    forall k: Slot {
      WindowIsHeap(k);
    }
  }

  lemma UnmapPersists(m: Machine, v: VPage)
    requires Inv(m) && HighClear(m) && ClientPage(v)
    ensures Persists(m, UnmapPage(m, v))
  {
    UnmapKeepsInvariant(m, v);
    forall x: VPage | x != v
      ensures Translate(UnmapPage(m, v).mem, m.root, x) == Translate(m.mem, m.root, x)
    {
      UnmapRemovesOneKey(m, v, x);
    }
    forall j: Index
      ensures Entry(UnmapPage(m, v).mem, m.root, LowPd(), j) == Entry(m.mem, m.root, LowPd(), j)
    {
      UnmapKeepsEntry(m, v, LowPd(), j);
    }
    forall k: Slot {
      WindowIsHeap(k);
    }
  }

  lemma PokePersists(m: Machine, l: Ledger, k: Slot, i: Index, w: Word)
    requires HeapReady(m) && Owned(m, l) && Mapped(m, k)
    requires Translate(m.mem, m.root, HeapPage(k)).value.frame < |m.mem|
    ensures Persists(m, Poke(m, k, i, w))
  {
    PokeKeeps(m, l, k, i, w);
    SameEntriesKeep(m, Poke(m, k, i, w));
  }

  lemma WritePersists(m: Machine, l: Ledger, f: nat, i: Index, w: Word)
    requires HeapReady(m) && Owned(m, l) && f < |m.mem| && f in l.client
    ensures Persists(m, m.(mem := Store(m.mem, f, i, w)))
  {
    assert f in Held(l);
    StoreKeepsOwners(m, l, f, i, w);
    SameEntriesKeep(m, m.(mem := Store(m.mem, f, i, w)));
  }

  lemma KmallocPersists(h: HeapState, size: Word)
    requires HeapOk(h)
    ensures Persists(h.machine, Kmalloc(h, size).0.machine)
  {
    var end := NewPtr(h.ptr, size);
    if size != 0 && end < HEAP_LIMIT {
      RangePersists(h.machine, FirstSlot(h.ptr), EndSlot(end));
    }
  }

  /** No operation changes the translation of a mapped heap page or of a page below 1 GB. */
  lemma StepPersists(w: World, op: Op, l: Ledger)
    requires Good(w, l) && Ready(w) && Allowed(w, op)
    ensures Persists(w.h.machine, Step(w, op).h.machine)
  {
    var m := w.h.machine;
    match op
    case OpKmalloc(size) => KmallocPersists(w.h, size);
    case OpAlloc =>
    case OpFree(f) =>
    case OpMap(v, pa, flags) => MapPersists(m, v, pa, flags);
    case OpUnmap(v) => UnmapPersists(m, v);
    case OpPoke(k, i, x) => PokePersists(m, l, k, i, x);
    case OpWrite(f, i, x) => WritePersists(m, l, f, i, x);
  }

  // ------------------------------------------------------- each operation is safe

  lemma HeapReadyPersists(m: Machine, n: Machine)
    requires HeapReady(m) && Inv(n) && Persists(m, n)
    requires forall k: Slot :: Mapped(n, k) == Mapped(m, k)
    ensures HeapReady(n)
  {
    forall k: Slot
      ensures PathClear(n.mem, n.root, HeapPage(k))
    {
      assert PathClear(m.mem, m.root, HeapPage(k));
    }
  }

  /** `kmalloc` keeps the accounting; frames are lost only when memory runs out. */
  lemma KmallocGood(w: World, size: Word, l: Ledger) returns (l': Ledger)
    requires Good(w, l) && Ready(w) && size <= MAX_REQUEST
    ensures Good(Step(w, OpKmalloc(size)), l')
    ensures l'.reserved == l.reserved && l.lost <= l'.lost
    ensures l'.lost != l.lost ==> FreeFrames(Step(w, OpKmalloc(size)).h.machine) == 0
  {
    KmallocBlock(w.h, size);
    KmallocShape(w.h, size);
    StepPersists(w, OpKmalloc(size), l);
    PersistsKeeps(w.h.machine, Step(w, OpKmalloc(size)).h.machine);
    l' := KmallocOwned(w.h, size, l);
    var (n, p) := Kmalloc(w.h, size);
    if p != NULL {
      assert size != 0;
      var b := Block(p, n.ptr - p);
      assert (w.blocks + [b])[..|w.blocks|] == w.blocks;
    }
  }

  lemma KmallocOwned(h: HeapState, size: Word, l: Ledger) returns (l': Ledger)
    requires HeapOk(h) && Owned(h.machine, l)
    ensures Owned(Kmalloc(h, size).0.machine, l')
    ensures l'.reserved == l.reserved && l'.client == l.client && l.lost <= l'.lost
    ensures l'.lost != l.lost ==> FreeFrames(Kmalloc(h, size).0.machine) == 0
  {
    hide Owned, FreeFrames, NewPtr;
    l' := l;
    var end := NewPtr(h.ptr, size);
    if size != 0 && end < HEAP_LIMIT {
      l' := RangeOwned(h.machine, l, FirstSlot(h.ptr), EndSlot(end));
    }
  }

  lemma AllocGood(w: World, l: Ledger) returns (l': Ledger)
    requires Good(w, l) && Ready(w)
    ensures Good(Step(w, OpAlloc), l') && l'.reserved == l.reserved && l'.lost == l.lost
  {
    var m := w.h.machine;
    var f := NextFrame(m);
    l' := l;
    if f != 0 {
      TakeKeeps(m);
      l' := l.(client := l.client + {f});
      assert f !in Held(l);
      assert Held(l') == Held(l) + {f};
      TakeOwned(m, l, l', f);
      StepPersists(w, OpAlloc, l);
      PersistsKeeps(m, Take(m, f));
      HeapReadyPersists(m, Take(m, f));
    }
  }

  lemma FreeGood(w: World, f: nat, l: Ledger) returns (l': Ledger)
    requires Good(w, l) && Ready(w) && f in w.client
    ensures Good(Step(w, OpFree(f)), l') && l'.reserved == l.reserved && l'.lost == l.lost
  {
    var m := w.h.machine;
    var n := m.(used := FrameSets.Free(m.used, f));
    l' := l.(client := l.client - {f});
    ReleaseOwned(m, l, f);
    StepPersists(w, OpFree(f), l);
    PersistsKeeps(m, n);
    HeapReadyPersists(m, n);
  }

  lemma OutsideWindow(v: VPage)
    requires ClientPage(v)
    ensures forall k: Slot :: v != HeapPage(k)
  {
    forall k: Slot {
      WindowIsHeap(k);
    }
  }

  lemma MapGood(w: World, v: VPage, pa: Word, flags: nat, l: Ledger)
    requires Good(w, l) && Ready(w) && Allowed(w, OpMap(v, pa, flags))
    ensures Good(Step(w, OpMap(v, pa, flags)), l)
  {
    var m := w.h.machine;
    OutsideWindow(v);
    MapKeepsInvariant(m, v, pa, flags);
    MapOutsideOwned(m, l, v, pa, flags);
    MapPersists(m, v, pa, flags);
    PersistsKeeps(m, MapPage(m, v, pa, flags));
    forall k: Slot
      ensures Mapped(MapPage(m, v, pa, flags), k) == Mapped(m, k)
    {
      MapUpdatesOneKey(m, v, pa, flags, HeapPage(k));
    }
    HeapReadyPersists(m, MapPage(m, v, pa, flags));
  }

  lemma UnmapGood(w: World, v: VPage, l: Ledger)
    requires Good(w, l) && Ready(w) && Allowed(w, OpUnmap(v))
    ensures Good(Step(w, OpUnmap(v)), l)
  {
    var m := w.h.machine;
    OutsideWindow(v);
    UnmapKeepsInvariant(m, v);
    UnmapOutsideOwned(m, l, v);
    UnmapPersists(m, v);
    PersistsKeeps(m, UnmapPage(m, v));
    forall k: Slot
      ensures Mapped(UnmapPage(m, v), k) == Mapped(m, k)
    {
      UnmapRemovesOneKey(m, v, HeapPage(k));
    }
    HeapReadyPersists(m, UnmapPage(m, v));
  }

  lemma PokeGood(w: World, k: Slot, i: Index, x: Word, l: Ledger)
    requires Good(w, l) && Ready(w) && Allowed(w, OpPoke(k, i, x))
    ensures Good(Step(w, OpPoke(k, i, x)), l)
  {
    var m := w.h.machine;
    PokeKeeps(m, l, k, i, x);
    PokePersists(m, l, k, i, x);
    PersistsKeeps(m, Poke(m, k, i, x));
  }

  /** A client stores into a frame it holds. */
  lemma WriteGood(w: World, f: nat, i: Index, x: Word, l: Ledger)
    requires Good(w, l) && Ready(w) && Allowed(w, OpWrite(f, i, x))
    ensures Good(Step(w, OpWrite(f, i, x)), l)
  {
    var m := w.h.machine;
    assert f in Held(l);
    StoreKeepsOwners(m, l, f, i, x);
    WritePersists(m, l, f, i, x);
    PersistsKeeps(m, m.(mem := Store(m.mem, f, i, x)));
  }

  /** Every operation keeps every invariant: frames change hands only between the free set, the
      tables, the heap and the clients. */
  lemma StepGood(w: World, op: Op, l: Ledger) returns (l': Ledger)
    requires Good(w, l) && Ready(w) && Allowed(w, op)
    ensures Good(Step(w, op), l')
    ensures l'.reserved == l.reserved && l.lost <= l'.lost
  {
    l' := l;
    match op
    case OpKmalloc(size) => l' := KmallocGood(w, size, l);
    case OpAlloc => l' := AllocGood(w, l);
    case OpFree(f) => l' := FreeGood(w, f, l);
    case OpMap(v, pa, flags) => MapGood(w, v, pa, flags, l);
    case OpUnmap(v) => UnmapGood(w, v, l);
    case OpPoke(k, i, x) => PokeGood(w, k, i, x, l);
    case OpWrite(f, i, x) => WriteGood(w, f, i, x, l);
  }

  // ----------------------------------------------------------------- whole runs

  /** Every operation of the run is one its caller may issue in the state it is issued in. */
  ghost predicate Permitted(w: World, ops: seq<Op>)
    decreases |ops|
  {
    ops != [] ==> Allowed(w, ops[0]) && (Ready(w) ==> Permitted(Step(w, ops[0]), ops[1..]))
  }

  ghost function Run(w: World, ops: seq<Op>): World
    requires Permitted(w, ops)
    decreases |ops|
  {
    if ops == [] || !Ready(w) then w else Run(Step(w, ops[0]), ops[1..])
  }

  /** The run theorem: after any permitted run the used frames are still the disjoint union of
      reserved, table, heap, client and lost frames, the page tables form a tree, the blocks tile
      the used part of the heap, and the first gigabyte is identity-mapped. Whatever heap page was
      mapped at the start still has the same translation. */
  lemma {:induction false} RunGood(w: World, ops: seq<Op>, l: Ledger) returns (l': Ledger)
    requires Good(w, l) && Permitted(w, ops)
    ensures Good(Run(w, ops), l')
    ensures l'.reserved == l.reserved && l.lost <= l'.lost
    ensures Persists(w.h.machine, Run(w, ops).h.machine)
    decreases |ops|
  {
    GoodIsReady(w, l);
    l' := l;
    if ops != [] {
      var next := Step(w, ops[0]);
      StepPersists(w, ops[0], l);
      l' := StepGood(w, ops[0], l);
      var middle := l';
      l' := RunGood(next, ops[1..], middle);
      PersistsTransitive(w.h.machine, next.h.machine, Run(w, ops).h.machine);
    }
  }

  /** The loader's tables stay below 2 MB in every run. */
  lemma LoaderTablesStay(w: World, ops: seq<Op>, l: Ledger)
    requires Good(w, l) && Permitted(w, ops) && LoaderTablesLow(w.h.machine)
    ensures LoaderTablesLow(Run(w, ops).h.machine)
  {
    hide Good, Run;
    var _ := RunGood(w, ops, l);
    assert Depth(Child(Root, 0)) == 1;
  }

  /** Start-up: the state after `setup_paging`, `pmm_init` and `heap_init`. */
  lemma BootGood(m: Memory, base: nat, used: set<nat>, total: nat)
    requires 0 < base && base + 2 < |m| <= IDENTITY_FRAMES && total <= |m|
    requires 0 in used && {base, base + 1, base + 2} <= used && forall f: nat | f in used :: f < total
    ensures Good(World(HeapState(BootMachine(m, base, used, total), HEAP_START, 0), {}, []),
                 Ledger(used - {base, base + 1, base + 2}, {}, {}))
  {
    BootReady(m, base, used, total);
  }

  // ------------------------------------------------------------ what follows

  lemma {:induction false} TiledFrom(blocks: seq<Block>, end: nat, i: nat)
    requires Tiled(blocks, end) && i < |blocks|
    ensures HEAP_START <= blocks[i].start && blocks[i].start % 16 == 0 && blocks[i].size > 0
    ensures blocks[i].start + blocks[i].size <= end
    ensures forall j | 0 <= j < i :: blocks[j].start + blocks[j].size <= blocks[i].start
  {
    var last := |blocks| - 1;
    if i < last {
      TiledFrom(blocks[..last], blocks[last].start, i);
    } else {
      forall j | 0 <= j < i
        ensures blocks[j].start + blocks[j].size <= blocks[i].start
      {
        TiledFrom(blocks[..last], blocks[last].start, j);
      }
    }
  }

  function TotalSize(blocks: seq<Block>): int {
    if blocks == [] then 0 else TotalSize(blocks[..|blocks| - 1]) + blocks[|blocks| - 1].size
  }

  lemma {:induction false} TiledTotal(blocks: seq<Block>, end: nat)
    requires Tiled(blocks, end)
    ensures end == HEAP_START + TotalSize(blocks)
  {
    if blocks != [] {
      TiledTotal(blocks[..|blocks| - 1], blocks[|blocks| - 1].start);
    }
  }

  /** Blocks returned in one run are 16-aligned, inside the 16 MB window and pairwise disjoint, and
      both statistics equal the sum of their sizes. */
  lemma BlocksDisjoint(w: World, l: Ledger, i: nat, j: nat)
    requires Good(w, l) && i < j < |w.blocks|
    ensures w.blocks[i].start + w.blocks[i].size <= w.blocks[j].start
    ensures HEAP_START <= w.blocks[i].start && w.blocks[j].start + w.blocks[j].size < HEAP_LIMIT
    ensures w.blocks[i].start % 16 == 0 && w.blocks[j].start % 16 == 0
    ensures w.h.totalAlloc == w.h.ptr - HEAP_START == TotalSize(w.blocks)
  {
    TiledFrom(w.blocks, w.h.ptr, i);
    TiledFrom(w.blocks, w.h.ptr, j);
    TiledTotal(w.blocks, w.h.ptr);
  }

  /** The walker may use the physical address of every table as a pointer: it is mapped to itself. */
  lemma TablesAreAtTheirAddress(w: World, l: Ledger, t: nat)
    requires Good(w, l) && TableOf(w.h.machine, t)
    ensures Translate(w.h.machine.mem, w.h.machine.root, PageOf(t * PAGE_SIZE)) == Some(Leaf(t, BOOT_PAGE))
    ensures t in w.h.machine.used && t !in Held(l)
  {
  }

  /** A mapped heap page is writable, for the supervisor only, and its frame is neither a page table
      nor in client hands. */
  lemma HeapPageIsPrivate(w: World, l: Ledger, k: Slot)
    requires Good(w, l) && Mapped(w.h.machine, k)
    ensures var m := w.h.machine;
            var leaf := Translate(m.mem, m.root, HeapPage(k)).value;
            && WriteAccess(m.mem, m.root, HeapPage(k)) && !UserAccess(m.mem, m.root, HeapPage(k))
            && !TableOf(m, leaf.frame) && leaf.frame !in w.client && leaf.flags == 3
  {
    var m := w.h.machine;
    UserIsLeafBit(m, HeapPage(k));
    WriteIsLeafBit(m, HeapPage(k));
    var f := Translate(m.mem, m.root, HeapPage(k)).value.frame;
    assert MapsTo(m, k, f);
    assert HeapFrame(m, f);
  }

  /** A block obtained with enough free frames stays mapped through any later run, each page to a
      private frame. */
  lemma BlockStaysMapped(w: World, size: Word, ops: seq<Op>, l: Ledger, k: Slot) returns (l': Ledger)
    requires Good(w, l) && Ready(w) && 0 < size <= MAX_REQUEST && NewPtr(w.h.ptr, size) < HEAP_LIMIT
    requires Cost(w.h, size) <= FreeFrames(w.h.machine)
    requires Permitted(Step(w, OpKmalloc(size)), ops)
    requires FirstSlot(w.h.ptr) <= k < EndSlot(NewPtr(w.h.ptr, size))
    ensures var end := Run(Step(w, OpKmalloc(size)), ops);
            && Good(end, l') && Mapped(end.h.machine, k)
            && WriteAccess(end.h.machine.mem, end.h.machine.root, HeapPage(k))
            && Translate(end.h.machine.mem, end.h.machine.root, HeapPage(k)).value.frame !in end.client
            && !TableOf(end.h.machine, Translate(end.h.machine.mem, end.h.machine.root, HeapPage(k)).value.frame)
  {
    KmallocOutcome(w.h, size);
    KmallocShape(w.h, size);
    var next := Step(w, OpKmalloc(size));
    assert Mapped(next.h.machine, k);
    var middle := StepGood(w, OpKmalloc(size), l);
    l' := RunGood(next, ops, middle);
    HeapPageIsPrivate(Run(next, ops), l', k);
  }
}
