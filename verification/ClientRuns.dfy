/** What a client of the memory code may rely on over whole runs: its mappings, its frames and what it
    wrote into them. */
module ClientRuns {
  import opened Words
  import opened PageTables
  import opened Walker
  import opened VirtualMemory
  import opened Heap
  import opened HeapCost
  import opened BumpHeap
  import opened Ownership
  import opened Boot
  import opened Runs
  import opened HeapWords
  import FrameSets

  // ------------------------------------------------------------------- mappings

  /** The operation maps or unmaps page v. */
  predicate Names(op: Op, v: VPage) {
    (op.OpMap? || op.OpUnmap?) && op.v == v
  }

  lemma ClientPageLookup(w: World, l: Ledger, v: VPage, offset: nat)
    requires Good(w, l) && ClientPage(v) && offset < 4096
    ensures PathClear(w.h.machine.mem, w.h.machine.root, v)
    ensures VirtToPhys(w.h.machine, v, offset) ==
              match Translate(w.h.machine.mem, w.h.machine.root, v)
              case None => 0
              case Some(leaf) => leaf.frame * 4096 + offset
  {
    ClientPathClear(w.h.machine, v);
    LookupRefinesTranslation(w.h.machine, v, offset);
  }

  /** No operation changes the translation of a client page it does not name. */
  lemma StepSparesPage(w: World, op: Op, l: Ledger, v: VPage)
    requires Good(w, l) && Ready(w) && Allowed(w, op) && ClientPage(v) && !Names(op, v)
    ensures Step(w, op).h.machine.root == w.h.machine.root
    ensures Translate(Step(w, op).h.machine.mem, w.h.machine.root, v) == Translate(w.h.machine.mem, w.h.machine.root, v)
  {
    hide Good, Persists, Translate, Step;
    SameRoot(w, op, l);
    match op
    case OpKmalloc(size) =>
      OutsideWindow(v);
      KmallocSparesPage(w, size, v);
    case OpAlloc => EntriesSparePage(w, op, l, v);
    case OpFree(f) => EntriesSparePage(w, op, l, v);
    case OpMap(x, pa, flags) => MapSparesPage(w, x, pa, flags, v);
    case OpUnmap(x) => UnmapSparesPage(w, x, v);
    case OpPoke(k, i, x) => EntriesSparePage(w, op, l, v);
    case OpWrite(f, i, x) => EntriesSparePage(w, op, l, v);
  }

  lemma SameRoot(w: World, op: Op, l: Ledger)
    requires Good(w, l) && Ready(w) && Allowed(w, op)
    ensures Step(w, op).h.machine.root == w.h.machine.root
  {
    hide Good, Step;
    StepPersists(w, op, l);
  }

  lemma KmallocSparesPage(w: World, size: Word, v: VPage)
    requires Ready(w) && Allowed(w, OpKmalloc(size)) && forall k: Slot :: v != HeapPage(k)
    ensures Translate(Step(w, OpKmalloc(size)).h.machine.mem, w.h.machine.root, v) == Translate(w.h.machine.mem, w.h.machine.root, v)
  {
    hide Translate, Kmalloc;
    KmallocKeepsMappings(w.h, size, v);
  }

  lemma MapSparesPage(w: World, x: VPage, pa: Word, flags: nat, v: VPage)
    requires Ready(w) && Allowed(w, OpMap(x, pa, flags)) && v != x
    ensures Translate(Step(w, OpMap(x, pa, flags)).h.machine.mem, w.h.machine.root, v) == Translate(w.h.machine.mem, w.h.machine.root, v)
  {
    hide Translate;
    ClientPathClear(w.h.machine, x);
    MapUpdatesOneKey(w.h.machine, x, pa, flags, v);
  }

  lemma UnmapSparesPage(w: World, x: VPage, v: VPage)
    requires Ready(w) && Allowed(w, OpUnmap(x)) && v != x
    ensures Translate(Step(w, OpUnmap(x)).h.machine.mem, w.h.machine.root, v) == Translate(w.h.machine.mem, w.h.machine.root, v)
  {
    hide Translate;
    ClientPathClear(w.h.machine, x);
    UnmapRemovesOneKey(w.h.machine, x, v);
  }

  /** Operations that touch no table. */
  lemma EntriesSparePage(w: World, op: Op, l: Ledger, v: VPage)
    requires Good(w, l) && Ready(w) && Allowed(w, op) && (op.OpAlloc? || op.OpFree? || op.OpPoke? || op.OpWrite?)
    ensures Translate(Step(w, op).h.machine.mem, w.h.machine.root, v) == Translate(w.h.machine.mem, w.h.machine.root, v)
  {
    hide Translate, Partition;
    var m := w.h.machine;
    match op
    case OpAlloc =>
    case OpFree(f) =>
    case OpPoke(k, i, x) =>
      PokeKeeps(m, l, k, i, x);
      SameEntriesKeep(m, Poke(m, k, i, x));
    case OpWrite(f, i, x) => WrittenEntries(w, f, i, x, l);
  }

  lemma WrittenEntries(w: World, f: nat, i: Index, x: Word, l: Ledger)
    requires Good(w, l) && Ready(w) && f in w.client
    ensures var n := Store(w.h.machine.mem, f, i, x);
            forall v :: Translate(n, w.h.machine.root, v) == Translate(w.h.machine.mem, w.h.machine.root, v)
  {
    hide Translate;
    var m := w.h.machine;
    assert f in Held(l);
    StoreKeepsOwners(m, l, f, i, x);
    SameEntriesKeep(m, m.(mem := Store(m.mem, f, i, x)));
  }

  /** Nor does any run whose operations do not name it. */
  lemma {:induction false} RunSparesPage(w: World, ops: seq<Op>, l: Ledger, v: VPage) returns (l': Ledger)
    requires Good(w, l) && Permitted(w, ops) && ClientPage(v)
    requires forall i | 0 <= i < |ops| :: !Names(ops[i], v)
    ensures Good(Run(w, ops), l')
    ensures Run(w, ops).h.machine.root == w.h.machine.root
    ensures Translate(Run(w, ops).h.machine.mem, w.h.machine.root, v) == Translate(w.h.machine.mem, w.h.machine.root, v)
    decreases |ops|
  {
    hide Good, Allowed, Translate, Step;
    GoodIsReady(w, l);
    l' := l;
    if ops != [] {
      assert !Names(ops[0], v);
      StepSparesPage(w, ops[0], l, v);
      var middle := StepGood(w, ops[0], l);
      assert forall i | 0 <= i < |ops[1..]| :: !Names(ops[1..][i], v);
      l' := RunSparesPage(Step(w, ops[0]), ops[1..], middle, v);
    }
  }

  lemma MapTakesHold(w: World, v: VPage, pa: Word, flags: nat, l: Ledger)
    requires Good(w, l) && Ready(w) && Allowed(w, OpMap(v, pa, flags))
    requires MissingTables(w.h.machine, Pt(v)) <= FreeFrames(w.h.machine)
    ensures var n := Step(w, OpMap(v, pa, flags)).h.machine;
            n.root == w.h.machine.root && Translate(n.mem, n.root, v) == Some(Leaf(pa / 4096, if flags % 2 == 1 then flags else flags + 1))
  {
    hide Translate, TableAt, Good, Reach;
    ClientPathClear(w.h.machine, v);
    MapUpdatesOneKey(w.h.machine, v, pa, flags, v);
    SameRoot(w, OpMap(v, pa, flags), l);
  }

  /** A page mapped while enough frames are free is found at its address by every later lookup, up to
      the next operation that names it, whatever else happens meanwhile. */
  lemma MappingLasts(w: World, v: VPage, pa: Word, flags: nat, ops: seq<Op>, l: Ledger, offset: nat) returns (l': Ledger)
    requires Good(w, l) && Ready(w) && Allowed(w, OpMap(v, pa, flags)) && offset < 4096
    requires MissingTables(w.h.machine, Pt(v)) <= FreeFrames(w.h.machine)
    requires Permitted(Step(w, OpMap(v, pa, flags)), ops)
    requires forall i | 0 <= i < |ops| :: !Names(ops[i], v)
    ensures var end := Run(Step(w, OpMap(v, pa, flags)), ops);
            && Good(end, l') && PathClear(end.h.machine.mem, end.h.machine.root, v)
            && VirtToPhys(end.h.machine, v, offset) == pa - pa % 4096 + offset
            && Translate(end.h.machine.mem, end.h.machine.root, v) == Some(Leaf(pa / 4096, if flags % 2 == 1 then flags else flags + 1))
  {
    hide Translate, Persists, Good, Step, Ready, PathClear, VirtToPhys, TableAt;
    var op := OpMap(v, pa, flags);
    MapTakesHold(w, v, pa, flags, l);
    var middle := StepGood(w, op, l);
    l' := RunSparesPage(Step(w, op), ops, middle, v);
    ClientPageLookup(Run(Step(w, op), ops), l', v, offset);
  }

  /** A page unmapped has no translation until an operation names it again, and lookup answers 0. */
  lemma UnmappedLasts(w: World, v: VPage, ops: seq<Op>, l: Ledger, offset: nat) returns (l': Ledger)
    requires Good(w, l) && Ready(w) && Allowed(w, OpUnmap(v)) && offset < 4096
    requires Permitted(Step(w, OpUnmap(v)), ops)
    requires forall i | 0 <= i < |ops| :: !Names(ops[i], v)
    ensures var end := Run(Step(w, OpUnmap(v)), ops);
            && Good(end, l') && PathClear(end.h.machine.mem, end.h.machine.root, v)
            && Translate(end.h.machine.mem, end.h.machine.root, v) == None
            && VirtToPhys(end.h.machine, v, offset) == 0
  {
    var op := OpUnmap(v);
    ClientPathClear(w.h.machine, v);
    UnmapRemovesOneKey(w.h.machine, v, v);
    StepPersists(w, op, l);
    var middle := StepGood(w, op, l);
    l' := RunSparesPage(Step(w, op), ops, middle, v);
    ClientPageLookup(Run(Step(w, op), ops), l', v, offset);
  }

  // --------------------------------------------------------------------- frames

  /** The operation stores into word i of frame f. */
  predicate Writes(op: Op, f: nat, i: Index) {
    op.OpWrite? && op.frame == f && op.i == i
  }

  /** Without a free frame nothing happens. */
  lemma AllocExhausted(w: World, l: Ledger)
    requires Good(w, l) && Ready(w) && FreeFrames(w.h.machine) == 0
    ensures Step(w, OpAlloc) == w
  {
    hide Good, Ready;
    FramesBelow(w, l);
    FrameSets.AllocTakesLowest(w.h.machine.used, w.h.machine.total);
  }

  lemma FramesBelow(w: World, l: Ledger)
    requires Good(w, l)
    ensures FrameSets.Below(w.h.machine.used, w.h.machine.total) && 0 in w.h.machine.used
  {
  }

  /** A frame that is not in use has no owner. */
  lemma FreeIsNobodys(w: World, l: Ledger, f: nat)
    requires Good(w, l) && f !in w.h.machine.used
    ensures f !in w.client && !TableOf(w.h.machine, f) && forall k: Slot :: !MapsTo(w.h.machine, k, f)
  {
    assert f !in Held(l);
    assert forall k: Slot :: MapsTo(w.h.machine, k, f) ==> HeapFrame(w.h.machine, f);
  }

  /** Allocation hands out the lowest free frame, which is no table, backs no heap page and belongs to
      no client, and nothing else changes. */
  lemma AllocIsNew(w: World, l: Ledger) returns (f: nat)
    requires Good(w, l) && Ready(w) && FreeFrames(w.h.machine) > 0
    ensures var m := w.h.machine;
            && f < m.total && f !in m.used && (forall g: nat | g < m.total && g !in m.used :: f <= g)
            && f !in w.client && !TableOf(m, f) && (forall k: Slot :: !MapsTo(m, k, f))
            && Step(w, OpAlloc) == World(w.h.(machine := m.(used := m.used + {f})), w.client + {f}, w.blocks)
  {
    hide Good, Ready, TableOf, MapsTo;
    FramesBelow(w, l);
    FrameSets.AllocTakesLowest(w.h.machine.used, w.h.machine.total);
    f := NextFrame(w.h.machine);
    FreeIsNobodys(w, l, f);
  }

  /** Giving it back undoes the allocation. */
  lemma AllocThenFree(w: World, l: Ledger) returns (f: nat)
    requires Good(w, l) && Ready(w) && FreeFrames(w.h.machine) > 0
    ensures var n := Step(w, OpAlloc); Ready(n) && f in n.client && f !in w.client && Step(n, OpFree(f)) == w
  {
    f := AllocIsNew(w, l);
    hide Good, Ready, TableOf, MapsTo;
    var n := Step(w, OpAlloc);
    var l' := AllocGood(w, l);
    GoodIsReady(n, l');
    assert w.h.machine.used + {f} - {f} == w.h.machine.used;
    assert w.client + {f} - {f} == w.client;
  }

  /** A frame a client holds stays its own, and a word of it changes only when the client writes it:
      page tables, the heap and other clients never touch it. */
  lemma StepSparesFrame(w: World, op: Op, l: Ledger, f: nat, i: Index)
    requires Good(w, l) && Ready(w) && Allowed(w, op) && f in w.client && op != OpFree(f)
    ensures var n := Step(w, op);
            && f in n.client && f < |w.h.machine.mem| == |n.h.machine.mem|
            && n.h.machine.mem[f][i] == if op.OpWrite? && op.frame == f && op.i == i then op.w else w.h.machine.mem[f][i]
  {
    hide MapPage, UnmapPage, Kmalloc, TableOf, HeapFrame, NextFrame;
    var m := w.h.machine;
    ClientFrameIsData(w, l, f);
    match op
    case OpKmalloc(size) => KmallocSparesFrame(w.h, size, f);
    case OpAlloc =>
    case OpFree(g) =>
    case OpMap(v, pa, flags) => MapSparesFrame(m, v, pa, flags, f);
    case OpUnmap(v) => UnmapSparesFrame(m, v, f);
    case OpPoke(k, j, x) => BackingIsHeap(m, k);
    case OpWrite(g, j, x) =>
  }

  lemma ClientFrameIsData(w: World, l: Ledger, f: nat)
    requires Good(w, l) && f in w.client
    ensures f in w.h.machine.used && !TableOf(w.h.machine, f) && f < |w.h.machine.mem| && !HeapFrame(w.h.machine, f)
  {
    assert f in Held(l);
  }

  lemma BackingIsHeap(m: Machine, k: Slot)
    requires Mapped(m, k)
    ensures HeapFrame(m, Backing(m, k))
  {
    assert MapsTo(m, k, Backing(m, k));
  }

  lemma MapSparesFrame(m: Machine, v: VPage, pa: Word, flags: nat, f: nat)
    requires Inv(m) && HighClear(m) && ClientPage(v) && pa < PHYSICAL_LIMIT && flags < 4096
    requires f in m.used && !TableOf(m, f) && f < |m.mem|
    ensures PathClear(m.mem, m.root, v)
    ensures var n := MapPage(m, v, pa, flags); |n.mem| == |m.mem| && n.mem[f] == m.mem[f]
  {
    hide MapPage, Inv;
    ClientPathClear(m, v);
    MapKeepsInvariant(m, v, pa, flags);
  }

  lemma UnmapSparesFrame(m: Machine, v: VPage, f: nat)
    requires Inv(m) && HighClear(m) && ClientPage(v)
    requires f in m.used && !TableOf(m, f) && f < |m.mem|
    ensures PathClear(m.mem, m.root, v)
    ensures var n := UnmapPage(m, v); |n.mem| == |m.mem| && n.mem[f] == m.mem[f]
  {
    hide UnmapPage, Inv;
    ClientPathClear(m, v);
    UnmapKeepsInvariant(m, v);
  }

  lemma KmallocSparesFrame(h: HeapState, size: Word, f: nat)
    requires HeapOk(h) && f in h.machine.used && !TableOf(h.machine, f) && f < |h.machine.mem|
    ensures var n := Kmalloc(h, size).0.machine; |n.mem| == |h.machine.mem| && n.mem[f] == h.machine.mem[f]
  {
    hide NewPtr;
    var end := NewPtr(h.ptr, size);
    if size != 0 && end < HEAP_LIMIT {
      RangeKeepsFrame(h.machine, FirstSlot(h.ptr), EndSlot(end), f);
    }
  }

  /** Over runs: until the client frees the frame it holds it, no allocation hands it out again, and a
      word it does not write keeps its value. */
  lemma {:induction false} RunSparesFrame(w: World, ops: seq<Op>, l: Ledger, f: nat, i: Index)
    requires Good(w, l) && Permitted(w, ops) && f in w.client
    requires forall k | 0 <= k < |ops| :: ops[k] != OpFree(f) && !Writes(ops[k], f, i)
    ensures var n := Run(w, ops);
            && f in n.client && f < |w.h.machine.mem| == |n.h.machine.mem|
            && n.h.machine.mem[f][i] == w.h.machine.mem[f][i]
    decreases |ops|
  {
    hide Good, Allowed, Step;
    GoodIsReady(w, l);
    if ops == [] {
      assert f < |w.h.machine.mem|;
    } else {
      assert ops[0] != OpFree(f) && !Writes(ops[0], f, i);
      StepSparesFrame(w, ops[0], l, f, i);
      var middle := StepGood(w, ops[0], l);
      assert forall k | 0 <= k < |ops[1..]| :: ops[1..][k] != OpFree(f) && !Writes(ops[1..][k], f, i);
      RunSparesFrame(Step(w, ops[0]), ops[1..], middle, f, i);
    }
  }

  /** What a client stored is what it reads back, after any run in which it neither frees the frame nor
      writes that word. */
  lemma StoredWordLasts(w: World, f: nat, i: Index, x: Word, ops: seq<Op>, l: Ledger)
    requires Good(w, l) && Ready(w) && f in w.client
    requires Permitted(Step(w, OpWrite(f, i, x)), ops)
    requires forall k | 0 <= k < |ops| :: ops[k] != OpFree(f) && !Writes(ops[k], f, i)
    ensures var n := Run(Step(w, OpWrite(f, i, x)), ops); f in n.client && f < |n.h.machine.mem| && n.h.machine.mem[f][i] == x
  {
    var op := OpWrite(f, i, x);
    StepSparesFrame(w, op, l, f, i);
    var middle := StepGood(w, op, l);
    RunSparesFrame(Step(w, op), ops, middle, f, i);
  }

  /** A heap word stored is there after any run without another store to it: neither maps nor `kmalloc`
      nor stores by clients reach it. */
  lemma {:induction false} RunSparesHeapWord(w: World, ops: seq<Op>, l: Ledger, a: nat)
    requires Good(w, l) && Permitted(w, ops) && Readable(w.h.machine, a)
    requires forall k | 0 <= k < |ops| :: !(ops[k].OpPoke? && ops[k].k == SlotOf(a) && ops[k].i == WordOf(a))
    ensures var n := Run(w, ops).h.machine; Readable(n, a) && ReadWord(n, a) == ReadWord(w.h.machine, a)
    decreases |ops|
  {
    hide Good, Allowed, Step, Readable, ReadWord, SlotOf, WordOf, HeapAddress;
    GoodIsReady(w, l);
    if ops != [] {
      var op := ops[0];
      StepSparesHeapWord(w, op, l, a);
      var middle := StepGood(w, op, l);
      RunSparesHeapWord(Step(w, op), ops[1..], middle, a);
    }
  }

  lemma StepSparesHeapWord(w: World, op: Op, l: Ledger, a: nat)
    requires Good(w, l) && Ready(w) && Allowed(w, op) && Readable(w.h.machine, a)
    requires !(op.OpPoke? && op.k == SlotOf(a) && op.i == WordOf(a))
    ensures var n := Step(w, op).h.machine; Readable(n, a) && ReadWord(n, a) == ReadWord(w.h.machine, a)
  {
    hide Good, Readable, ReadWord, Ready, Step;
    if op.OpPoke? {
      PokeIsOneWord(w, l, op.k, op.i, op.w, a);
    } else {
      StepKeepsWords(w, op, l);
    }
  }

  lemma StoredHeapWordLasts(w: World, a: nat, x: Word, ops: seq<Op>, l: Ledger)
    requires Good(w, l) && Ready(w) && Readable(w.h.machine, a)
    requires Permitted(Step(w, OpPoke(SlotOf(a), WordOf(a), x)), ops)
    requires forall k | 0 <= k < |ops| :: !(ops[k].OpPoke? && ops[k].k == SlotOf(a) && ops[k].i == WordOf(a))
    ensures var n := Run(Step(w, OpPoke(SlotOf(a), WordOf(a), x)), ops).h.machine; Readable(n, a) && ReadWord(n, a) == x
  {
    var op := OpPoke(SlotOf(a), WordOf(a), x);
    PokeIsOneWord(w, l, SlotOf(a), WordOf(a), x, a);
    var middle := StepGood(w, op, l);
    RunSparesHeapWord(Step(w, op), ops, middle, a);
  }
}
