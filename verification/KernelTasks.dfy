/** Scheduler and memory together: `task_create` with the blocks `kmalloc` really returns, the register
    frames the stub pushes on the tasks' stacks, and what it finds there when a task runs again. */
module KernelTasks {
  import opened Words
  import opened PageTables
  import opened Walker
  import opened Heap
  import opened HeapCost
  import opened BumpHeap
  import opened Ownership
  import opened Runs
  import opened HeapWords
  import opened InterruptStub
  import Scheduler
  import SchedulerRuns

  const TCB_SIZE: nat := 80 // sizeof(task_t)

  const TIMER_VECTOR: nat := 32

  /** Where a task lives: the block of its stack, and the words of the register frame it will be resumed
      from, when that frame was written on creation or when the task was preempted while RUNNING. */
  datatype Home = Home(block: nat, saved: Option<seq<Word>>)

  datatype Kernel = Kernel(w: World, s: Scheduler.Sched, homes: seq<Home>)

  /** `task_create`: two calls of `kmalloc`, the register frame on the new stack, the new task. */
  ghost function CreateTask(k: Kernel, entry: Word, size: Word): Kernel
    requires HeapOk(k.w.h)
  {
    if |k.s.tasks| >= Scheduler.MAX_TASKS then k
    else
      KmallocBlock(k.w.h, TCB_SIZE);
      var w1 := StepKmalloc(k.w, TCB_SIZE);
      if Kmalloc(k.w.h, TCB_SIZE).1 == NULL then k.(w := w1)
      else
        var w2 := StepKmalloc(w1, size);
        var stack := Kmalloc(w1.h, size).1;
        if stack == NULL then k.(w := w2) else WithTask(k, w2, stack, entry, size)
  }

  /** The frame is written and the task entered in the list. */
  ghost function WithTask(k: Kernel, w: World, stack: Word, entry: Word, size: Word): Kernel
    requires w.blocks != []
  {
    var frame := Scheduler.FrameAddress(stack, size);
    Kernel(if Ready(w) then PutWords(w, frame, FirstFrame(frame, entry)) else w,
           Scheduler.Create(k.s, true, stack, size),
           k.homes + [NewHome(k, |w.blocks| - 1, frame, entry)])
  }

  /** The first task of all is current at once; any other waits for its first resume. */
  function NewHome(k: Kernel, b: nat, frame: Word, entry: Word): Home {
    Home(b, if k.s.current.Some? then Some(FirstFrame(frame, entry)) else None)
  }

  // ---------------------------------------------------------------- the invariant

  /** The pages of block b are mapped. */
  ghost predicate BlockMapped(m: Machine, b: Block) {
    forall k: Slot | HEAP_START <= b.start && b.start - HEAP_START < 4096 * (k + 1) && HEAP_START + 4096 * k < b.start + b.size :: Mapped(m, k)
  }

  /** Task i has a stack of its own, and its saved frame is there, word for word. */
  ghost predicate HomeOk(k: Kernel, i: nat)
    requires i < |k.homes| == |k.s.tasks|
  {
    var h, t := k.homes[i], k.s.tasks[i];
    && h.block < |k.w.blocks|
    && k.w.blocks[h.block].start == t.stackBase
    && Scheduler.FRAME_SIZE <= t.stackSize <= k.w.blocks[h.block].size
    && BlockMapped(k.w.h.machine, k.w.blocks[h.block])
    && (h.saved.Some? ==> SavedIn(k, i))
  }

  ghost predicate SavedIn(k: Kernel, i: nat)
    requires i < |k.homes| == |k.s.tasks| && k.homes[i].saved.Some?
  {
    var t := k.s.tasks[i];
    && k.s.current != Some(i)
    && InsideStack(t, t.regs)
    && |k.homes[i].saved.value| == 26
    && HoldsWords(k.w.h.machine, t.regs, k.homes[i].saved.value)
  }

  /** A register frame at this address lies in the stack of the task. */
  predicate InsideStack(t: Scheduler.Tcb, frame: nat) {
    frame % 8 == 0 && t.stackBase <= frame && frame + Scheduler.FRAME_SIZE <= t.stackBase + t.stackSize
  }

  ghost predicate Homes(k: Kernel) {
    && |k.homes| == |k.s.tasks|
    && (forall i: nat | i < |k.homes| && k.s.tasks[i].pid != 0 :: HomeOk(k, i))
    && (forall i: nat | i < |k.homes| && k.s.tasks[i].pid == 0 :: k.homes[i].saved.None?)
    && (forall i: nat, j: nat | i < j < |k.homes| && k.s.tasks[i].pid != 0 && k.s.tasks[j].pid != 0 ::
          k.homes[i].block < k.homes[j].block)
  }

  ghost predicate KernelGood(k: Kernel, l: Ledger) {
    Good(k.w, l) && Scheduler.Inv(k.s) && Homes(k)
  }

  // ------------------------------------------------------------------- addresses

  /** Every word of a mapped block can be read. */
  lemma BlockReadable(w: World, l: Ledger, b: nat, a: nat)
    requires Good(w, l) && b < |w.blocks| && BlockMapped(w.h.machine, w.blocks[b])
    requires w.blocks[b].start <= a < w.blocks[b].start + w.blocks[b].size && a % 8 == 0
    ensures Readable(w.h.machine, a)
  {
    TiledFrom(w.blocks, w.h.ptr, b);
    var d := a - HEAP_START;
    assert 4096 * (d / 4096) <= d < 4096 * (d / 4096) + 4096;
    assert Mapped(w.h.machine, SlotOf(a));
    MappedIsReadable(w, l, a);
  }

  /** The first frame lies inside the stack's own block, aligned, and away from address 0. */
  lemma FrameInBlock(w: World, l: Ledger, b: nat, size: Word)
    requires Good(w, l) && b < |w.blocks| && Scheduler.FRAME_SIZE <= size <= w.blocks[b].size
    ensures w.blocks[b].start < TWO_64
    ensures var f := Scheduler.FrameAddress(w.blocks[b].start, size);
            f % 8 == 0 && w.blocks[b].start <= f && f + Scheduler.FRAME_SIZE <= w.blocks[b].start + size && f != 0
  {
    BlockInHeap(w, l, b);
    hide Good, Scheduler.FrameAddress;
    Scheduler.FirstFrameInside(w.blocks[b].start, size);
    EighthOfSixteenth(Scheduler.FrameAddress(w.blocks[b].start, size));
  }

  lemma EighthOfSixteenth(f: nat)
    requires f % 16 == 0
    ensures f % 8 == 0
  {
    assert f == 8 * (2 * (f / 16));
  }

  lemma BlockInHeap(w: World, l: Ledger, b: nat)
    requires Good(w, l) && b < |w.blocks|
    ensures var block := w.blocks[b];
            HEAP_START <= block.start && block.start % 16 == 0 && block.size > 0 && block.start + block.size < HEAP_LIMIT < TWO_64
  {
    TiledFrom(w.blocks, w.h.ptr, b);
  }

  // ------------------------------------------------------------------ memory steps

  ghost predicate BlocksGrow(w: World, n: World) {
    |w.blocks| <= |n.blocks| && n.blocks[..|w.blocks|] == w.blocks
  }

  /** The words of every saved frame are as they were. */
  ghost predicate FramesKept(k: Kernel, n: Machine)
    requires |k.homes| == |k.s.tasks|
  {
    forall i: nat | i < |k.homes| && k.homes[i].saved.Some? :: HoldsWords(n, k.s.tasks[i].regs, k.homes[i].saved.value)
  }

  /** A memory step that keeps blocks, heap mappings and saved frames keeps the tasks' homes. */
  lemma HomesKept(k: Kernel, n: World)
    requires Homes(k) && BlocksGrow(k.w, n) && Persists(k.w.h.machine, n.h.machine) && FramesKept(k, n.h.machine)
    ensures Homes(k.(w := n))
  {
    var k' := k.(w := n);
    forall i: nat | i < |k.homes| && k.s.tasks[i].pid != 0
      ensures HomeOk(k', i)
    {
      assert HomeOk(k, i);
      assert n.blocks[k.homes[i].block] == k.w.blocks[k.homes[i].block];
      assert BlockMapped(n.h.machine, k.w.blocks[k.homes[i].block]);
    }
  }

  lemma WordsKeepFrames(k: Kernel, n: Machine)
    requires Homes(k) && KeepsWords(k.w.h.machine, n)
    ensures FramesKept(k, n)
  {
    hide BlockMapped;
    forall i: nat | i < |k.homes| && k.homes[i].saved.Some?
      ensures HoldsWords(n, k.s.tasks[i].regs, k.homes[i].saved.value)
    {
      assert HomeOk(k, i);
    }
  }

  /** The word lies in a saved frame. */
  ghost predicate InSavedFrame(k: Kernel, a: nat) {
    exists i: nat :: i < |k.homes| && i < |k.s.tasks| && k.homes[i].saved.Some?
                     && k.s.tasks[i].regs <= a < k.s.tasks[i].regs + Scheduler.FRAME_SIZE
  }

  /** Memory operations other than task creation and interrupts; only stores into saved frames are
      excluded. A running task has none. */
  ghost predicate MemoryAllowed(k: Kernel, op: Op) {
    && Allowed(k.w, op)
    && (op.OpPoke? ==> !InSavedFrame(k, HEAP_START + 4096 * op.k + 8 * op.i))
  }

  lemma PokeSparesFrame(k: Kernel, l: Ledger, op: Op, a: nat, x: Word)
    requires KernelGood(k, l) && Ready(k.w) && op.OpPoke? && MemoryAllowed(k, op)
    requires InSavedFrame(k, a) && HoldsWord(k.w.h.machine, a, x)
    ensures HoldsWord(Step(k.w, op).h.machine, a, x)
  {
    hide Good, Ready, InSavedFrame, Step, Homes;
    PokeIsOneWord(k.w, l, op.k, op.i, op.w, a);
    AddressOfWord(a);
  }

  lemma PokeKeepsFrames(k: Kernel, l: Ledger, op: Op)
    requires KernelGood(k, l) && Ready(k.w) && op.OpPoke? && MemoryAllowed(k, op)
    requires |k.homes| == |k.s.tasks|
    ensures FramesKept(k, Step(k.w, op).h.machine)
  {
    hide Good, Ready, HoldsWord, Step, Mapped, Scheduler.Inv, BlockMapped;
    var n := Step(k.w, op).h.machine;
    forall i: nat | i < |k.homes| && k.homes[i].saved.Some?
      ensures HoldsWords(n, k.s.tasks[i].regs, k.homes[i].saved.value)
    {
      assert HomeOk(k, i);
      var xs := k.homes[i].saved.value;
      forall j: nat | j < |xs|
        ensures HoldsWord(n, k.s.tasks[i].regs + 8 * j, xs[j])
      {
        assert InSavedFrame(k, k.s.tasks[i].regs + 8 * j);
        PokeSparesFrame(k, l, op, k.s.tasks[i].regs + 8 * j, xs[j]);
      }
    }
  }

  lemma StepGrowsBlocks(w: World, op: Op)
    requires Ready(w) && Allowed(w, op)
    ensures BlocksGrow(w, Step(w, op))
  {
  }

  /** A memory operation between scheduler events. */
  lemma MemoryStepGood(k: Kernel, op: Op, l: Ledger) returns (l': Ledger)
    requires KernelGood(k, l) && Ready(k.w) && MemoryAllowed(k, op)
    ensures KernelGood(k.(w := Step(k.w, op)), l')
  {
    hide Step, Good, Ready, Homes, Persists;
    l' := StepGood(k.w, op, l);
    StepPersists(k.w, op, l);
    StepGrowsBlocks(k.w, op);
    HomesLength(k);
    if op.OpPoke? {
      PokeKeepsFrames(k, l, op);
    } else {
      StepKeepsWords(k.w, op, l);
      WordsKeepFrames(k, Step(k.w, op).h.machine);
    }
    HomesKept(k, Step(k.w, op));
  }

  lemma HomesLength(k: Kernel)
    requires Homes(k)
    ensures |k.homes| == |k.s.tasks|
  {
  }

  // ---------------------------------------------------------------- task creation

  /** A served request that is answered gets a block whose pages are all mapped. */
  lemma ServedBlock(w: World, size: Word, l: Ledger)
    requires Good(w, l) && size <= MAX_REQUEST && Served(w.h, size) && Kmalloc(w.h, size).1 != NULL
    ensures var n := StepKmalloc(w, size);
            var b := Block(w.h.ptr, n.h.ptr - w.h.ptr);
            && Kmalloc(w.h, size).1 == w.h.ptr && n.blocks == w.blocks + [b] && size <= b.size
            && BlockMapped(n.h.machine, b)
  {
    hide Good, Kmalloc, FirstSlot, EndSlot, BlockMapped, Served;
    GoodIsReady(w, l);
    KmallocServed(w.h, size);
    MappedBlock(StepKmalloc(w, size).h.machine, w.h.ptr, StepKmalloc(w, size).h.ptr);
  }

  lemma MappedBlock(m: Machine, start: Word, end: Word)
    requires HEAP_START <= start && end < HEAP_LIMIT && AllMapped(m, FirstSlot(start), EndSlot(end))
    ensures BlockMapped(m, Block(start, end - start))
  {
    hide Mapped, FirstSlot, EndSlot;
    forall k: Slot | start - HEAP_START < 4096 * (k + 1) && HEAP_START + 4096 * k < end
      ensures Mapped(m, k)
    {
      SlotInRange(start, end, k);
    }
  }

  lemma SlotInRange(start: Word, end: Word, k: Slot)
    requires HEAP_START <= start && start - HEAP_START < 4096 * (k + 1) && HEAP_START + 4096 * k < end
    ensures FirstSlot(start) <= k < EndSlot(end)
  {
  }

  /** Block b is the stack of no task with a saved frame. */
  ghost predicate NobodyWaitsIn(k: Kernel, b: nat) {
    forall i: nat | i < |k.homes| && k.homes[i].saved.Some? :: k.homes[i].block != b
  }

  /** A frame written into a block where no task waits leaves all saved frames alone. */
  lemma FrameWritten(k: Kernel, l: Ledger, b: nat, frame: nat, xs: seq<Word>)
    requires KernelGood(k, l) && Ready(k.w) && b < |k.w.blocks| && BlockMapped(k.w.h.machine, k.w.blocks[b])
    requires NobodyWaitsIn(k, b) && |xs| == 26 && frame % 8 == 0
    requires k.w.blocks[b].start <= frame && frame + Scheduler.FRAME_SIZE <= k.w.blocks[b].start + k.w.blocks[b].size
    ensures var n := PutWords(k.w, frame, xs);
            && KernelGood(k.(w := n), l)
            && n == k.w.(h := k.w.h.(machine := n.h.machine))
            && HoldsWords(n.h.machine, frame, xs)
            && BlockMapped(n.h.machine, k.w.blocks[b])
  {
    hide Good, Ready, HoldsWords, Readable, ReadWord, HomeOk, Scheduler.Inv, BlockMapped;
    FrameInReach(k.w, l, b, frame);
    PutWordsHolds(k.w, l, frame, xs);
    var n := PutWords(k.w, frame, xs);
    forall i: nat | i < |k.homes| && k.homes[i].saved.Some?
      ensures HoldsWords(n.h.machine, k.s.tasks[i].regs, k.homes[i].saved.value)
    {
      OtherFrameKept(k, l, n, b, frame, i);
    }
    HomesKept(k, n);
    MappedStays(k.w.h.machine, n.h.machine, k.w.blocks[b]);
  }

  lemma MappedStays(m: Machine, n: Machine, b: Block)
    requires BlockMapped(m, b) && Persists(m, n)
    ensures BlockMapped(n, b)
  {
  }

  lemma FrameInReach(w: World, l: Ledger, b: nat, frame: nat)
    requires Good(w, l) && b < |w.blocks| && BlockMapped(w.h.machine, w.blocks[b]) && frame % 8 == 0
    requires w.blocks[b].start <= frame && frame + Scheduler.FRAME_SIZE <= w.blocks[b].start + w.blocks[b].size
    ensures forall j: nat | j < 26 :: Readable(w.h.machine, frame + 8 * j)
  {
    hide Good, Readable, BlockMapped;
    forall j: nat | j < 26
      ensures Readable(w.h.machine, frame + 8 * j)
    {
      BlockReadable(w, l, b, frame + 8 * j);
    }
  }

  lemma OtherFrameKept(k: Kernel, l: Ledger, n: World, b: nat, frame: nat, i: nat)
    requires KernelGood(k, l) && b < |k.w.blocks|
    requires k.w.blocks[b].start <= frame && frame + Scheduler.FRAME_SIZE <= k.w.blocks[b].start + k.w.blocks[b].size
    requires i < |k.homes| && k.homes[i].saved.Some? && k.homes[i].block != b
    requires forall a: nat | Readable(k.w.h.machine, a) && !(frame <= a < frame + Scheduler.FRAME_SIZE) ::
               Readable(n.h.machine, a) && ReadWord(n.h.machine, a) == ReadWord(k.w.h.machine, a)
    ensures i < |k.s.tasks|
    ensures HoldsWords(n.h.machine, k.s.tasks[i].regs, k.homes[i].saved.value)
  {
    hide Good, Readable, ReadWord;
    assert HomeOk(k, i);
    if k.homes[i].block < b {
      BlocksDisjoint(k.w, l, k.homes[i].block, b);
    } else {
      BlocksDisjoint(k.w, l, b, k.homes[i].block);
    }
  }

  lemma CreateShape(s: Scheduler.Sched, stack: Word, size: Word)
    requires Scheduler.Inv(s) && |s.tasks| < Scheduler.MAX_TASKS && stack != 0 && Scheduler.FrameAddress(stack, size) != 0
    ensures var n := Scheduler.Create(s, true, stack, size);
            var t := n.tasks[|n.tasks| - 1];
            && Scheduler.Inv(n)
            && |n.tasks| == |s.tasks| + 1 && n.tasks[..|s.tasks|] == s.tasks
            && t.pid != 0 && t.stackBase == stack && t.stackSize == size && t.regs == Scheduler.FrameAddress(stack, size)
            && (s.current.Some? ==> n.current == s.current && s.current.value < |s.tasks|)
            && (s.current.None? ==> s.tasks == [])
  {
    Scheduler.ApplySafe(s, Scheduler.EvCreate(true, stack, size));
  }

  /** A new task joins the list with the last block as its stack. */
  lemma AddHome(k: Kernel, l: Ledger, entry: Word, size: Word)
    requires KernelGood(k, l) && |k.s.tasks| < Scheduler.MAX_TASKS && k.w.blocks != []
    requires var b := |k.w.blocks| - 1;
             && Scheduler.FRAME_SIZE <= size <= k.w.blocks[b].size && BlockMapped(k.w.h.machine, k.w.blocks[b])
             && forall i: nat | i < |k.homes| && i < |k.s.tasks| && k.s.tasks[i].pid != 0 :: k.homes[i].block < b
    requires k.w.blocks[|k.w.blocks| - 1].start < TWO_64
    requires var frame := Scheduler.FrameAddress(k.w.blocks[|k.w.blocks| - 1].start, size);
             HoldsWords(k.w.h.machine, frame, FirstFrame(frame, entry))
    ensures var stack := k.w.blocks[|k.w.blocks| - 1].start;
            KernelGood(Kernel(k.w, Scheduler.Create(k.s, true, stack, size),
                              k.homes + [NewHome(k, |k.w.blocks| - 1, Scheduler.FrameAddress(stack, size), entry)]), l)
  {
    hide Good, BlockMapped, HoldsWords, FirstFrame, Scheduler.FrameAddress, Scheduler.Inv, Scheduler.Create;
    var b := |k.w.blocks| - 1;
    var stack := k.w.blocks[b].start;
    FrameInBlock(k.w, l, b, size);
    BlockInHeap(k.w, l, b);
    CreateShape(k.s, stack, size);
    var n := Kernel(k.w, Scheduler.Create(k.s, true, stack, size),
                    k.homes + [NewHome(k, b, Scheduler.FrameAddress(stack, size), entry)]);
    forall i: nat | i < |n.homes| && n.s.tasks[i].pid != 0
      ensures HomeOk(n, i)
    {
      if i < |k.homes| {
        assert n.s.tasks[..|k.s.tasks|][i] == k.s.tasks[i];
        assert HomeOk(k, i);
      }
    }
    assert forall i: nat | i < |k.homes| :: n.s.tasks[i] == n.s.tasks[..|k.s.tasks|][i];
  }

  /** `task_create` keeps everything: the new task's stack is a mapped block of its own that holds the
      frame the task will start from. */
  lemma CreateTaskGood(k: Kernel, entry: Word, size: Word, l: Ledger) returns (l': Ledger)
    requires KernelGood(k, l) && Ready(k.w) && CreateAllowed(k, size)
    ensures KernelGood(CreateTask(k, entry, size), l')
  {
    hide Kmalloc, Served, Homes, Tiled, Owned, PutWords, FirstFrame, Scheduler.Create, Scheduler.FrameAddress;
    l' := l;
    if |k.s.tasks| < Scheduler.MAX_TASKS {
      var k1 := k.(w := StepKmalloc(k.w, TCB_SIZE));
      l' := MemoryStepGood(k, OpKmalloc(TCB_SIZE), l);
      if Kmalloc(k.w.h, TCB_SIZE).1 != NULL {
        var l1 := l';
        l' := StackGood(k1, entry, size, l1);
      }
    }
  }

  /** The second half of `task_create`, with the block of the task structure already there. */
  lemma StackGood(k: Kernel, entry: Word, size: Word, l: Ledger) returns (l': Ledger)
    requires KernelGood(k, l) && |k.s.tasks| < Scheduler.MAX_TASKS
    requires Scheduler.FRAME_SIZE <= size <= MAX_REQUEST && Served(k.w.h, size)
    ensures var w := StepKmalloc(k.w, size);
            var stack := Kmalloc(k.w.h, size).1;
            KernelGood(if stack == NULL then k.(w := w) else WithTask(k, w, stack, entry, size), l')
  {
    hide Good, Served, BlockMapped, HoldsWords, FirstFrame, Scheduler.FrameAddress, Scheduler.Inv, Scheduler.Create, HomeOk, Kmalloc;
    GoodIsReady(k.w, l);
    l' := MemoryStepGood(k, OpKmalloc(size), l);
    var stack := Kmalloc(k.w.h, size).1;
    if stack != NULL {
      ServedBlock(k.w, size, l);
      var k2 := k.(w := StepKmalloc(k.w, size));
      GoodIsReady(k2.w, l');
      NewestBlock(k, k2);
      var b := |k2.w.blocks| - 1;
      FrameInBlock(k2.w, l', b, size);
      var frame := Scheduler.FrameAddress(stack, size);
      FrameWritten(k2, l', b, frame, FirstFrame(frame, entry));
      AddHome(k2.(w := PutWords(k2.w, frame, FirstFrame(frame, entry))), l', entry, size);
    }
  }

  lemma NewestBlock(k: Kernel, n: Kernel)
    requires Homes(k) && n.s == k.s && n.homes == k.homes && |n.w.blocks| == |k.w.blocks| + 1
    ensures forall i: nat | i < |n.homes| && i < |n.s.tasks| && n.s.tasks[i].pid != 0 :: n.homes[i].block < |n.w.blocks| - 1
    ensures NobodyWaitsIn(n, |n.w.blocks| - 1)
  {
    forall i: nat | i < |n.homes| && i < |n.s.tasks| && n.s.tasks[i].pid != 0
      ensures n.homes[i].block < |n.w.blocks| - 1
    {
      assert HomeOk(k, i);
    }
  }

  /** What a block returned by `kmalloc` adds to the run. */
  lemma BlockAdded(w: World, size: Word)
    requires HeapOk(w.h) && size <= MAX_REQUEST && Kmalloc(w.h, size).1 != NULL
    ensures var n := StepKmalloc(w, size);
            && Kmalloc(w.h, size).1 == w.h.ptr && n.client == w.client && HeapOk(n.h)
            && size <= n.h.ptr - w.h.ptr < size + 16 && n.h.ptr % 16 == 0
            && n.blocks == w.blocks + [Block(w.h.ptr, n.h.ptr - w.h.ptr)]
  {
    hide Kmalloc;
    KmallocBlock(w.h, size);
  }

  /** The heap after a `task_create` that succeeds: the block of the 80-byte task structure and, right
      behind it, the stack, 16-aligned and of the size asked for up to the next multiple of 16. */
  lemma CreateTakesTwoBlocks(k: Kernel, entry: Word, size: Word, l: Ledger)
    requires KernelGood(k, l) && Ready(k.w) && CreateAllowed(k, size)
    requires |CreateTask(k, entry, size).s.tasks| > |k.s.tasks|
    ensures var n := CreateTask(k, entry, size);
            var stack := k.w.h.ptr + 80;
            && n.s.tasks[|k.s.tasks|].stackBase == stack && n.w.client == k.w.client
            && size <= n.w.h.ptr - stack < size + 16 && n.w.h.ptr % 16 == 0
            && n.w.blocks == k.w.blocks + [Block(k.w.h.ptr, 80), Block(stack, n.w.h.ptr - stack)]
  {
    hide Good, Kmalloc, StepKmalloc, CreateTask, WithTask, Served, Homes;
    CreateSucceeds(k, entry, size);
    BlockAdded(k.w, TCB_SIZE);
    var w1 := StepKmalloc(k.w, TCB_SIZE);
    BlockAdded(w1, size);
    var w2 := StepKmalloc(w1, size);
    WithTaskAdds(k, w2, w1.h.ptr, entry, size);
    TwoBlocks(k.w.blocks, Block(k.w.h.ptr, 80), Block(w1.h.ptr, w2.h.ptr - w1.h.ptr));
  }

  /** `task_create` adds a task only when both requests are answered. */
  lemma CreateSucceeds(k: Kernel, entry: Word, size: Word)
    requires HeapOk(k.w.h) && CreateAllowed(k, size)
    requires |CreateTask(k, entry, size).s.tasks| > |k.s.tasks|
    ensures |k.s.tasks| < Scheduler.MAX_TASKS && Kmalloc(k.w.h, TCB_SIZE).1 != NULL
    ensures var w1 := StepKmalloc(k.w, TCB_SIZE);
            && HeapOk(w1.h) && Kmalloc(w1.h, size).1 != NULL && StepKmalloc(w1, size).blocks != []
            && CreateTask(k, entry, size) == WithTask(k, StepKmalloc(w1, size), Kmalloc(w1.h, size).1, entry, size)
  {
    hide Kmalloc, WithTask, HeapOk, Served;
  }

  lemma WithTaskAdds(k: Kernel, w: World, stack: Word, entry: Word, size: Word)
    requires w.blocks != [] && |k.s.tasks| < Scheduler.MAX_TASKS && stack != NULL
    ensures var n := WithTask(k, w, stack, entry, size);
            && |n.s.tasks| == |k.s.tasks| + 1 && n.s.tasks[|k.s.tasks|].stackBase == stack
            && n.w.blocks == w.blocks && n.w.client == w.client && n.w.h.ptr == w.h.ptr
  {
    hide Ready, PutWords, FirstFrame, Scheduler.FrameAddress;
    if Ready(w) {
      PutWordsKeepsBlocks(w, Scheduler.FrameAddress(stack, size), FirstFrame(Scheduler.FrameAddress(stack, size), entry));
    }
  }

  lemma TwoBlocks(blocks: seq<Block>, a: Block, b: Block)
    ensures blocks + [a] + [b] == blocks + [a, b]
  {
  }

  /** Stores add no block. */
  lemma {:induction false} PutWordsKeepsBlocks(w: World, a: nat, xs: seq<Word>)
    requires Ready(w)
    ensures var n := PutWords(w, a, xs); n.blocks == w.blocks && n.client == w.client && n.h.ptr == w.h.ptr
    decreases |xs|
  {
    hide Ready;
    if xs != [] {
      var n := PutWord(w, a, xs[0]);
      if Ready(n) {
        PutWordsKeepsBlocks(n, a + 8, xs[1..]);
      }
    }
  }

  /** What `task_create` needs: a stack with room for one frame, and no request that is answered with
      an unmapped page. */
  ghost predicate CreateAllowed(k: Kernel, size: Word)
    requires HeapOk(k.w.h)
  {
    && Scheduler.FRAME_SIZE <= size <= MAX_REQUEST
    && Served(k.w.h, TCB_SIZE)
    && (Kmalloc(k.w.h, TCB_SIZE).1 != NULL ==>
          var h := StepKmalloc(k.w, TCB_SIZE).h; HeapOk(h) && Served(h, size))
  }

  // -------------------------------------------------------------- scheduler events

  /** Sleeping, exiting and switching the scheduler on. */
  function TaskEvent(k: Kernel, e: Scheduler.Event): Kernel
    requires Scheduler.Inv(k.s)
  {
    k.(s := Scheduler.Apply(k.s, e))
  }

  predicate PlainEvent(e: Scheduler.Event) {
    Scheduler.Sane(e) && !e.EvInit? && !e.EvCreate?
  }

  predicate QuietEvent(e: Scheduler.Event) {
    PlainEvent(e) && !e.EvTick?
  }

  lemma StacksStay(s: Scheduler.Sched, e: Scheduler.Event)
    requires Scheduler.Inv(s) && PlainEvent(e)
    ensures var n := Scheduler.Apply(s, e);
            && |n.tasks| == |s.tasks|
            && forall i: nat | i < |s.tasks| ::
                 n.tasks[i].pid == s.tasks[i].pid && n.tasks[i].stackBase == s.tasks[i].stackBase
                 && n.tasks[i].stackSize == s.tasks[i].stackSize
  {
    if e.EvTick? && Scheduler.SwitchDue(s) && |s.tasks| > 0 {
      hide Scheduler.Switch;
      Scheduler.SwitchEffect(Scheduler.CountTick(s), e.regs);
    }
  }

  lemma TaskEventGood(k: Kernel, e: Scheduler.Event, l: Ledger)
    requires KernelGood(k, l) && QuietEvent(e)
    ensures KernelGood(TaskEvent(k, e), l)
  {
    hide Good, Scheduler.Inv, Scheduler.Apply, BlockMapped, HoldsWords;
    var n := TaskEvent(k, e);
    Scheduler.ApplySafe(k.s, e);
    StacksStay(k.s, e);
    QuietKeepsCurrent(k.s, e);
    forall i: nat | i < |n.homes| && n.s.tasks[i].pid != 0
      ensures HomeOk(n, i)
    {
      assert HomeOk(k, i);
      if n.homes[i].saved.Some? {
        Scheduler.FrameKept(k.s, e, i);
      }
    }
  }

  lemma QuietKeepsCurrent(s: Scheduler.Sched, e: Scheduler.Event)
    requires Scheduler.Inv(s) && QuietEvent(e)
    ensures Scheduler.Apply(s, e).current == s.current
  {
  }

  // --------------------------------------------------------------- the timer interrupt

  /** Where the stub's register frame begins: the processor aligns the stack to 16 bytes (Intel SDM
      Vol. 3A, section 6.14.2), then it and the stub push 26 words. */
  function InterruptFrame(rsp: Word): Word {
    (rsp - rsp % 16 + TWO_64 - Scheduler.FRAME_SIZE) % TWO_64
  }

  lemma InterruptFrameAligned(rsp: Word)
    ensures InterruptFrame(rsp) % 16 == 0 && InterruptFrame(rsp) % 8 == 0
    ensures rsp >= 208 + 16 ==> InterruptFrame(rsp) + 208 <= rsp < InterruptFrame(rsp) + 208 + 16
  {
    var a := rsp / 16;
    assert rsp - rsp % 16 == 16 * a;
    var f := if a >= 13 then a - 13 else a + 0x1000_0000_0000_0000 - 13;
    assert InterruptFrame(rsp) == 16 * f;
    EighthOfSixteenth(16 * f);
  }

  /** The running task has a stack in the heap; the idle task runs on the boot stack. */
  predicate OnOwnStack(k: Kernel) {
    k.s.current.Some? && k.s.current.value < |k.s.tasks| && k.s.tasks[k.s.current.value].pid != 0
  }

  /** The interrupt finds room for its frame on the stack of the running task. */
  predicate TickAllowed(k: Kernel, cpu: Cpu) {
    var frame := InterruptFrame(cpu.rsp);
    frame != 0 && (OnOwnStack(k) ==> InsideStack(k.s.tasks[k.s.current.value], frame))
  }

  /** What is on the stack of task i after the interrupt of a processor in the state xs describes. */
  function SavedAfter(k: Kernel, n: Scheduler.Sched, i: nat, xs: seq<Word>): Option<seq<Word>>
    requires i < |k.homes| && i < |k.s.tasks|
  {
    if n.current == Some(i) then None
    else if k.s.current != Some(i) then k.homes[i].saved
    else if k.s.tasks[i].state == Scheduler.RUNNING && k.s.tasks[i].pid != 0 then Some(xs)
    else None
  }

  /** A timer interrupt: the frame is pushed, the scheduler is called, the stub resumes the answer. */
  ghost function TimerTick(k: Kernel, cpu: Cpu): Kernel
    requires Runnable(k)
  {
    var frame := InterruptFrame(cpu.rsp);
    var xs := Enter(cpu, TIMER_VECTOR);
    var n := Scheduler.Tick(k.s, frame).0;
    Kernel(Pushed(k, cpu), n,
           seq(|k.homes|, i requires 0 <= i < |k.homes| => k.homes[i].(saved := SavedAfter(k, n, i, xs))))
  }

  /** Memory after the pushes; the boot stack lies outside the heap window. */
  ghost function Pushed(k: Kernel, cpu: Cpu): World
    requires Runnable(k)
  {
    if OnOwnStack(k) then PutWords(k.w, InterruptFrame(cpu.rsp), Enter(cpu, TIMER_VECTOR)) else k.w
  }

  /** The address the stub resumes from. */
  function Resumed(k: Kernel, cpu: Cpu): Word
    requires k.s.current.Some? ==> k.s.current.value < |k.s.tasks|
  {
    Scheduler.Tick(k.s, InterruptFrame(cpu.rsp)).1
  }

  /** The pushes disturb no saved frame. */
  lemma PushGood(k: Kernel, cpu: Cpu, l: Ledger)
    requires KernelGood(k, l) && Runnable(k) && TickAllowed(k, cpu)
    ensures KernelGood(k.(w := Pushed(k, cpu)), l)
    ensures OnOwnStack(k) ==> HoldsWords(Pushed(k, cpu).h.machine, InterruptFrame(cpu.rsp), Enter(cpu, TIMER_VECTOR))
  {
    if OnOwnStack(k) {
      hide Good, Ready, Scheduler.Inv, BlockMapped, HoldsWords, Enter, InterruptFrame;
      var c := k.s.current.value;
      assert HomeOk(k, c);
      RunnerWaitsNowhere(k, c);
      FrameWritten(k, l, k.homes[c].block, InterruptFrame(cpu.rsp), Enter(cpu, TIMER_VECTOR));
    }
  }

  lemma RunnerWaitsNowhere(k: Kernel, c: nat)
    requires Homes(k) && c < |k.homes| && k.s.current == Some(c) && k.s.tasks[c].pid != 0
    ensures NobodyWaitsIn(k, k.homes[c].block)
  {
    hide BlockMapped, HoldsWords, InsideStack;
    assert HomeOk(k, c);
    forall i: nat | i < |k.homes| && k.homes[i].saved.Some?
      ensures k.homes[i].block != k.homes[c].block
    {
      assert HomeOk(k, i);
    }
  }

  /** The scheduler's part: a task preempted while RUNNING is left with the frame just pushed, any other
      waiting task with the frame it had. */
  lemma TickHomes(k: Kernel, cpu: Cpu, l: Ledger, i: nat)
    requires KernelGood(k, l) && Runnable(k) && TickAllowed(k, cpu) && i < |k.homes| && k.s.tasks[i].pid != 0
    requires OnOwnStack(k) ==> HoldsWords(k.w.h.machine, InterruptFrame(cpu.rsp), Enter(cpu, TIMER_VECTOR))
    ensures var n := TimerTick(k, cpu).(w := k.w);
            |n.homes| == |n.s.tasks| && i < |n.homes| && HomeOk(n, i)
  {
    hide Good, Ready, Scheduler.Inv, BlockMapped, HoldsWords, Enter, InterruptFrame, Scheduler.Tick;
    var frame := InterruptFrame(cpu.rsp);
    var e := Scheduler.EvTick(frame);
    StacksStay(k.s, e);
    assert HomeOk(k, i);
    if k.s.current == Some(i) {
      if Scheduler.Apply(k.s, e).current != Some(i) && k.s.tasks[i].state == Scheduler.RUNNING {
        PreemptedAt(k.s, frame, i);
      }
    } else {
      Scheduler.FrameKept(k.s, e, i);
    }
  }

  lemma PreemptedAt(s: Scheduler.Sched, frame: Word, i: nat)
    requires Scheduler.Inv(s) && i < |s.tasks| && s.current == Some(i) && s.tasks[i].state == Scheduler.RUNNING
    requires frame != 0 && Scheduler.Tick(s, frame).0.current != Some(i)
    ensures var n := Scheduler.Tick(s, frame).0;
            i < |n.tasks| && n.tasks[i].regs == frame
  {
    hide Scheduler.Switch;
    Scheduler.TickResumesChoice(s, frame);
    Scheduler.SwitchEffect(Scheduler.CountTick(s), frame);
    Scheduler.FrameSavedExactly(Scheduler.CountTick(s), frame);
  }

  /** Pushing first and scheduling then is the whole interrupt. */
  lemma PushFirst(k: Kernel, cpu: Cpu)
    requires Runnable(k) && Runnable(k.(w := Pushed(k, cpu)))
    ensures var p := k.(w := Pushed(k, cpu));
            TimerTick(p, cpu).(w := p.w) == TimerTick(k, cpu)
  {
    hide Runnable, Enter, InterruptFrame, Scheduler.Tick;
    var p := k.(w := Pushed(k, cpu));
    assert TimerTick(p, cpu).homes == TimerTick(k, cpu).homes;
  }

  lemma TimerTickGood(k: Kernel, cpu: Cpu, l: Ledger)
    requires KernelGood(k, l) && Runnable(k) && TickAllowed(k, cpu)
    ensures KernelGood(TimerTick(k, cpu), l)
  {
    hide Good, Scheduler.Inv, HomeOk, Enter, InterruptFrame, HoldsWords, Scheduler.Apply, SavedAfter;
    PushGood(k, cpu, l);
    var p := k.(w := Pushed(k, cpu));
    GoodIsRunnable(p, l);
    var n := TimerTick(k, cpu);
    TickIsApply(k.s, InterruptFrame(cpu.rsp));
    Scheduler.ApplySafe(k.s, Scheduler.EvTick(InterruptFrame(cpu.rsp)));
    StacksStay(k.s, Scheduler.EvTick(InterruptFrame(cpu.rsp)));
    PushFirst(k, cpu);
    forall i: nat | i < |n.homes| && n.s.tasks[i].pid != 0
      ensures HomeOk(n, i)
    {
      TickHomes(p, cpu, l, i);
    }
    forall i: nat | i < |n.homes| && n.s.tasks[i].pid == 0
      ensures n.homes[i].saved.None?
    {
      IdleSavesNothing(k, n.s, i, Enter(cpu, TIMER_VECTOR));
    }
  }

  lemma IdleSavesNothing(k: Kernel, n: Scheduler.Sched, i: nat, xs: seq<Word>)
    requires Homes(k) && i < |k.homes| && k.s.tasks[i].pid == 0
    ensures SavedAfter(k, n, i, xs).None?
  {
  }

  lemma TickIsApply(s: Scheduler.Sched, frame: Word)
    requires Scheduler.Inv(s)
    ensures Scheduler.Tick(s, frame).0 == Scheduler.Apply(s, Scheduler.EvTick(frame))
  {
  }

  // -------------------------------------------------------------------- whole runs

  /** `task_init` on a kernel whose memory is up: one block for the idle task. */
  function StartTasks(w: World): Kernel
    requires HeapOk(w.h)
  {
    var ok := Kmalloc(w.h, TCB_SIZE).1 != NULL;
    Kernel(StepKmalloc(w, TCB_SIZE), Scheduler.Init(Scheduler.PowerOn(), ok), if ok then [Home(0, None)] else [])
  }

  lemma StartGood(w: World, l: Ledger) returns (l': Ledger)
    requires Good(w, l)
    ensures KernelGood(StartTasks(w), l')
  {
    hide Good, HeapOk, Kmalloc;
    GoodIsReady(w, l);
    l' := KmallocGood(w, TCB_SIZE, l);
    Scheduler.ApplySafe(Scheduler.PowerOn(), Scheduler.EvInit(Kmalloc(w.h, TCB_SIZE).1 != NULL));
  }

  datatype KernelEvent =
    | OnMemory(op: Op)
    | OnCreate(entry: Word, size: Word)
    | OnTask(e: Scheduler.Event)
    | OnTimer(cpu: Cpu)

  /** What the kernel asks of its callers. */
  ghost predicate KernelAllowed(k: Kernel, ev: KernelEvent)
    requires HeapOk(k.w.h)
  {
    match ev
    case OnMemory(op) => MemoryAllowed(k, op)
    case OnCreate(entry, size) => CreateAllowed(k, size)
    case OnTask(e) => QuietEvent(e)
    case OnTimer(cpu) => TickAllowed(k, cpu)
  }

  ghost predicate Runnable(k: Kernel) {
    Ready(k.w) && Scheduler.Inv(k.s) && |k.homes| == |k.s.tasks|
  }

  ghost function KernelStep(k: Kernel, ev: KernelEvent): Kernel
    requires Runnable(k) && KernelAllowed(k, ev)
  {
    match ev
    case OnMemory(op) => k.(w := Step(k.w, op))
    case OnCreate(entry, size) => CreateTask(k, entry, size)
    case OnTask(e) => TaskEvent(k, e)
    case OnTimer(cpu) => TimerTick(k, cpu)
  }

  lemma KernelStepGood(k: Kernel, ev: KernelEvent, l: Ledger) returns (l': Ledger)
    requires KernelGood(k, l) && Runnable(k) && KernelAllowed(k, ev)
    ensures KernelGood(KernelStep(k, ev), l')
  {
    l' := l;
    match ev
    case OnMemory(op) => l' := MemoryStepGood(k, op, l);
    case OnCreate(entry, size) => l' := CreateTaskGood(k, entry, size, l);
    case OnTask(e) => TaskEventGood(k, e, l);
    case OnTimer(cpu) => TimerTickGood(k, cpu, l);
  }

  ghost predicate KernelPermitted(k: Kernel, evs: seq<KernelEvent>)
    decreases |evs|
  {
    evs != [] && Runnable(k) ==> KernelAllowed(k, evs[0]) && KernelPermitted(KernelStep(k, evs[0]), evs[1..])
  }

  ghost function KernelRun(k: Kernel, evs: seq<KernelEvent>): Kernel
    requires KernelPermitted(k, evs)
    decreases |evs|
  {
    if evs == [] || !Runnable(k) then k else KernelRun(KernelStep(k, evs[0]), evs[1..])
  }

  /** Memory and scheduler in any order: after every permitted run of memory operations, task creations,
      timer interrupts, sleeps and exits, each task still has a mapped stack block of its own, and the
      frame of a task that has never run, or was preempted while RUNNING, is there word for word. */
  lemma {:induction false} KernelRunGood(k: Kernel, evs: seq<KernelEvent>, l: Ledger) returns (l': Ledger)
    requires KernelGood(k, l) && KernelPermitted(k, evs)
    ensures KernelGood(KernelRun(k, evs), l')
    decreases |evs|
  {
    hide KernelGood, KernelStep, KernelAllowed, Runnable;
    l' := l;
    GoodIsRunnable(k, l);
    if evs != [] {
      l' := KernelStepGood(k, evs[0], l);
      var middle := l';
      l' := KernelRunGood(KernelStep(k, evs[0]), evs[1..], middle);
    }
  }

  lemma GoodIsRunnable(k: Kernel, l: Ledger)
    requires KernelGood(k, l)
    ensures Runnable(k)
  {
    GoodIsReady(k.w, l);
  }

  ghost predicate FrameReadable(m: Machine, a: nat) {
    forall j: nat | j < 26 :: Readable(m, a + 8 * j)
  }

  /** The words of a register frame in memory. */
  ghost function FrameAt(m: Machine, a: nat): (f: seq<Word>)
    requires FrameReadable(m, a)
    ensures |f| == 26
  {
    seq(26, j requires 0 <= j < 26 => ReadWord(m, a + 8 * j))
  }

  lemma FrameAtIs(m: Machine, a: nat, xs: seq<Word>)
    requires |xs| == 26 && HoldsWords(m, a, xs)
    ensures FrameReadable(m, a) && FrameAt(m, a) == xs
  {
    hide Readable, ReadWord;
    forall j: nat | j < 26
      ensures Readable(m, a + 8 * j) && ReadWord(m, a + 8 * j) == xs[j]
    {
      assert HoldsWord(m, a + 8 * j, xs[j]);
    }
  }

  /** The timer interrupt that makes a waiting task current hands the stub the address of its saved frame,
      still intact after the pushes of this interrupt. */
  lemma ResumeFindsFrame(k: Kernel, l: Ledger, cpu: Cpu, i: nat)
    requires KernelGood(k, l) && Runnable(k) && TickAllowed(k, cpu)
    requires i < |k.homes| && k.homes[i].saved.Some? && TimerTick(k, cpu).s.current == Some(i)
    ensures var n := TimerTick(k, cpu);
            && Resumed(k, cpu) == k.s.tasks[i].regs
            && FrameReadable(n.w.h.machine, Resumed(k, cpu))
            && FrameAt(n.w.h.machine, Resumed(k, cpu)) == k.homes[i].saved.value
  {
    hide Good, Ready, Scheduler.Inv, BlockMapped, HoldsWords, Enter, InterruptFrame, Scheduler.Tick, FrameReadable, FrameAt;
    PushGood(k, cpu, l);
    var p := k.(w := Pushed(k, cpu));
    assert HomeOk(p, i);
    Scheduler.FrameKept(k.s, Scheduler.EvTick(InterruptFrame(cpu.rsp)), i);
    FrameAtIs(p.w.h.machine, k.s.tasks[i].regs, k.homes[i].saved.value);
  }

  /** The task is not current at any moment of the run. */
  ghost predicate AwayThroughout(k: Kernel, evs: seq<KernelEvent>, i: nat)
    requires KernelPermitted(k, evs)
    decreases |evs|
  {
    k.s.current != Some(i) && (evs != [] && Runnable(k) ==> AwayThroughout(KernelStep(k, evs[0]), evs[1..], i))
  }

  lemma StepKeepsSaved(k: Kernel, ev: KernelEvent, i: nat)
    requires Runnable(k) && KernelAllowed(k, ev) && i < |k.homes|
    requires k.s.current != Some(i) && KernelStep(k, ev).s.current != Some(i)
    ensures i < |KernelStep(k, ev).homes| && KernelStep(k, ev).homes[i] == k.homes[i]
  {
  }

  /** As long as a task waits its saved frame stays the same. */
  lemma {:induction false} SavedStays(k: Kernel, evs: seq<KernelEvent>, l: Ledger, i: nat) returns (l': Ledger)
    requires KernelGood(k, l) && KernelPermitted(k, evs) && AwayThroughout(k, evs, i) && i < |k.homes|
    ensures var n := KernelRun(k, evs);
            KernelGood(n, l') && i < |n.homes| && n.homes[i] == k.homes[i] && n.s.current != Some(i)
    decreases |evs|
  {
    hide KernelGood, KernelStep, KernelAllowed, Runnable;
    l' := l;
    GoodIsRunnable(k, l);
    if evs != [] {
      var next := KernelStep(k, evs[0]);
      assert next.s.current != Some(i);
      StepKeepsSaved(k, evs[0], i);
      l' := KernelStepGood(k, evs[0], l);
      var middle := l';
      l' := SavedStays(next, evs[1..], middle, i);
    }
  }

  /** Whatever happens while a task waits, the stub finds its frame as it was left. */
  lemma WaitingFrameIsFound(k: Kernel, evs: seq<KernelEvent>, l: Ledger, cpu: Cpu, i: nat)
    requires KernelGood(k, l) && KernelPermitted(k, evs) && AwayThroughout(k, evs, i)
    requires i < |k.homes| && k.homes[i].saved.Some?
    requires var n := KernelRun(k, evs); Runnable(n) && TickAllowed(n, cpu) && TimerTick(n, cpu).s.current == Some(i)
    ensures var n := KernelRun(k, evs);
            && FrameReadable(TimerTick(n, cpu).w.h.machine, Resumed(n, cpu))
            && FrameAt(TimerTick(n, cpu).w.h.machine, Resumed(n, cpu)) == k.homes[i].saved.value
  {
    hide KernelGood, Runnable, TickAllowed, TimerTick, FrameReadable, FrameAt;
    var l' := SavedStays(k, evs, l, i);
    ResumeFindsFrame(KernelRun(k, evs), l', cpu, i);
  }

  /** Context switching is transparent in memory: a task preempted while RUNNING in the processor state
      `before` is resumed, after any run in which it was not current, in exactly that state, register for
      register, from the frame the stub reads on its stack. */
  lemma PreemptedTaskContinues(k: Kernel, l: Ledger, before: Cpu, evs: seq<KernelEvent>, cpu: Cpu, i: nat,
                               clobbered: Registers, r: Reg)
    requires KernelGood(k, l) && Runnable(k) && TickAllowed(k, before)
    requires k.s.current == Some(i) && k.s.tasks[i].pid != 0 && k.s.tasks[i].state == Scheduler.RUNNING
    requires KernelPermitted(TimerTick(k, before), evs) && AwayThroughout(TimerTick(k, before), evs, i)
    requires var n := KernelRun(TimerTick(k, before), evs);
             Runnable(n) && TickAllowed(n, cpu) && TimerTick(n, cpu).s.current == Some(i)
    ensures var n := KernelRun(TimerTick(k, before), evs);
            && FrameReadable(TimerTick(n, cpu).w.h.machine, Resumed(n, cpu))
            && SameCpu(Leave(FrameAt(TimerTick(n, cpu).w.h.machine, Resumed(n, cpu)), clobbered), before, r)
  {
    var k1 := TimerTick(k, before);
    TimerTickGood(k, before, l);
    SavedOnSwitch(k, before, evs, i);
    hide KernelGood, Runnable, TickAllowed, TimerTick, FrameReadable, FrameAt, Enter, Leave, Resumed, KernelRun, AwayThroughout, KernelPermitted;
    WaitingFrameIsFound(k1, evs, l, cpu, i);
    StubRestores(before, TIMER_VECTOR, clobbered, r);
  }

  lemma SavedOnSwitch(k: Kernel, before: Cpu, evs: seq<KernelEvent>, i: nat)
    requires Runnable(k) && k.s.current == Some(i) && k.s.tasks[i].pid != 0 && k.s.tasks[i].state == Scheduler.RUNNING
    requires KernelPermitted(TimerTick(k, before), evs) && AwayThroughout(TimerTick(k, before), evs, i)
    ensures i < |TimerTick(k, before).homes| && TimerTick(k, before).homes[i].saved == Some(Enter(before, TIMER_VECTOR))
  {
    hide Enter, Scheduler.Tick, KernelPermitted;
  }

  /** A task created while another one runs waits with its first frame. */
  lemma NewTaskWaits(k: Kernel, entry: Word, size: Word, l: Ledger)
    requires KernelGood(k, l) && Ready(k.w) && k.s.current.Some?
    requires |CreateTask(k, entry, size).s.tasks| > |k.s.tasks|
    ensures var n := CreateTask(k, entry, size);
            var i := |k.s.tasks|;
            && i < |n.homes| && i < |n.s.tasks| && n.s.tasks[i].pid != 0
            && n.homes[i].saved == Some(FirstFrame(n.s.tasks[i].regs, entry)) && n.s.current == k.s.current
            && n.s.tasks[i].state == Scheduler.READY && n.s.tasks[i].stackSize == size && n.s.ticks == k.s.ticks
  {
    hide Good, PutWords, FirstFrame, Scheduler.FrameAddress, Kmalloc;
  }

  /** The processor state in which a new task starts: at its entry point, on its own stack, interrupts on
      and no other flag set, kernel selectors, all registers cleared. */
  predicate StartsAt(c: Cpu, entry: Word, stackPointer: Word, r: Reg) {
    && c.rip == entry && c.rsp == stackPointer && c.gpr(r) == 0 && c.rflags == 0x202
    && c.cs == 0x08 && c.ds == c.es == c.ss == 0x10
  }

  /** The first time a task runs: what the stub finds on its stack starts it at its entry point, with
      interrupts on and all registers cleared, whatever happened since it was created. */
  lemma FirstResumeStartsTask(k: Kernel, l: Ledger, evs: seq<KernelEvent>, cpu: Cpu, i: nat, entry: Word,
                              clobbered: Registers, r: Reg)
    requires KernelGood(k, l) && KernelPermitted(k, evs) && AwayThroughout(k, evs, i)
    requires i < |k.homes| && i < |k.s.tasks| && k.homes[i].saved == Some(FirstFrame(k.s.tasks[i].regs, entry))
    requires var n := KernelRun(k, evs); Runnable(n) && TickAllowed(n, cpu) && TimerTick(n, cpu).s.current == Some(i)
    ensures var n := KernelRun(k, evs);
            && FrameReadable(TimerTick(n, cpu).w.h.machine, Resumed(n, cpu))
            && var c := Leave(FrameAt(TimerTick(n, cpu).w.h.machine, Resumed(n, cpu)), clobbered);
               StartsAt(c, entry, k.s.tasks[i].regs, r)
  {
    hide KernelGood, Runnable, TickAllowed, TimerTick, FrameReadable, FrameAt, FirstFrame, Leave, Resumed, KernelRun, AwayThroughout, KernelPermitted;
    WaitingFrameIsFound(k, evs, l, cpu, i);
    FirstFrameStartsTask(k.s.tasks[i].regs, entry, clobbered, r);
  }

  // ------------------------------------------------------- waiting tasks do run

  /** How many timer interrupts of the run call the scheduler. */
  ghost function KernelSwitches(k: Kernel, evs: seq<KernelEvent>): nat
    requires KernelPermitted(k, evs)
    decreases |evs|
  {
    if evs == [] || !Runnable(k) then 0
    else (if Due(k, evs[0]) then 1 else 0) + KernelSwitches(KernelStep(k, evs[0]), evs[1..])
  }

  predicate Due(k: Kernel, ev: KernelEvent) {
    ev.OnTimer? && Scheduler.SwitchDue(k.s)
  }

  lemma CreateKeepsWaiting(s: Scheduler.Sched, stack: Word, size: Word, j: nat)
    requires Scheduler.Inv(s) && SchedulerRuns.Waiting(s, j)
    ensures var n := Scheduler.Create(s, true, stack, size);
            SchedulerRuns.Waiting(n, j) && SchedulerRuns.Potential(n, j) <= SchedulerRuns.Potential(s, j) && n.ticks == s.ticks
  {
    var n := Scheduler.Create(s, true, stack, size);
    Scheduler.ModStart(s);
    Scheduler.ModStart(n);
  }

  /** One event: the waiting task runs, or it waits on and every call of the scheduler brings it nearer. */
  lemma KernelProgress(k: Kernel, ev: KernelEvent, l: Ledger, j: nat)
    requires KernelGood(k, l) && Runnable(k) && KernelAllowed(k, ev)
    requires SchedulerRuns.Waiting(k.s, j) && k.s.ticks + 1 < TWO_64
    ensures var n := KernelStep(k, ev);
            && n.s.ticks <= k.s.ticks + 1
            && ((Due(k, ev) && n.s.current == Some(j) && j < |n.s.tasks| && n.s.tasks[j].state == Scheduler.RUNNING)
                || (SchedulerRuns.Waiting(n.s, j)
                    && SchedulerRuns.Potential(n.s, j) <= SchedulerRuns.Potential(k.s, j) - if Due(k, ev) then 1 else 0))
  {
    hide Good, Homes, Scheduler.Create, Scheduler.Apply, Scheduler.Tick, CreateTask, SchedulerRuns.Waiting, SchedulerRuns.Potential,
         InterruptFrame, Enter, PutWords, FirstFrame;
    match ev
    case OnMemory(op) =>
    case OnCreate(entry, size) =>
      CreateIsCreate(k, entry, size);
      if CreateTask(k, entry, size).s != k.s {
        var stack: Word :| CreateTask(k, entry, size).s == Scheduler.Create(k.s, true, stack, size);
        CreateKeepsWaiting(k.s, stack, size, j);
      }
    case OnTask(e) => SchedulerRuns.EventProgress(k.s, e, j);
    case OnTimer(cpu) =>
      TickIsApply(k.s, InterruptFrame(cpu.rsp));
      SchedulerRuns.EventProgress(k.s, Scheduler.EvTick(InterruptFrame(cpu.rsp)), j);
  }

  lemma CreateIsCreate(k: Kernel, entry: Word, size: Word)
    requires HeapOk(k.w.h)
    ensures CreateTask(k, entry, size).s == k.s
            || exists stack: Word :: CreateTask(k, entry, size).s == Scheduler.Create(k.s, true, stack, size)
  {
    hide Scheduler.Create, PutWords, FirstFrame;
    KmallocBlock(k.w.h, TCB_SIZE);
    var w1 := StepKmalloc(k.w, TCB_SIZE);
    if |k.s.tasks| < Scheduler.MAX_TASKS && Kmalloc(k.w.h, TCB_SIZE).1 != NULL && Kmalloc(w1.h, size).1 != NULL {
      var stack: Word := Kmalloc(w1.h, size).1;
      assert CreateTask(k, entry, size).s == Scheduler.Create(k.s, true, stack, size);
    }
  }

  /** A task that may run is resumed by one of the timer interrupts of the run; until then it is away. The
      witness is the position of that interrupt. */
  lemma {:induction false} WaitingTaskRuns(k: Kernel, evs: seq<KernelEvent>, l: Ledger, j: nat) returns (p: nat)
    requires KernelGood(k, l) && KernelPermitted(k, evs) && SchedulerRuns.Waiting(k.s, j) && k.s.ticks + |evs| < TWO_64
    requires KernelSwitches(k, evs) > SchedulerRuns.Potential(k.s, j)
    ensures p < |evs| && evs[p].OnTimer? && KernelPermitted(k, evs[..p]) && AwayThroughout(k, evs[..p], j)
    ensures KernelSwitches(k, evs[..p]) <= SchedulerRuns.Potential(k.s, j)
    ensures var n := KernelRun(k, evs[..p]);
            && Runnable(n) && TickAllowed(n, evs[p].cpu)
            && var after := TimerTick(n, evs[p].cpu).s;
               after.current == Some(j) && j < |after.tasks| && after.tasks[j].state == Scheduler.RUNNING
    decreases |evs|
  {
    hide KernelGood, SchedulerRuns.Potential, TimerTick, TickAllowed, Runnable;
    GoodIsRunnable(k, l);
    WaitingIsAway(k, l, j);
    var ev := evs[0];
    KernelProgress(k, ev, l, j);
    if Due(k, ev) && KernelStep(k, ev).s.current == Some(j) {
      p := 0;
      assert evs[..0] == [];
    } else {
      var next := KernelStep(k, ev);
      var l' := KernelStepGood(k, ev, l);
      var rest := WaitingTaskRuns(next, evs[1..], l', j);
      p := rest + 1;
      assert evs[..p][1..] == evs[1..][..rest] && evs[..p][0] == ev;
    }
  }

  lemma WaitingIsAway(k: Kernel, l: Ledger, j: nat)
    requires KernelGood(k, l) && SchedulerRuns.Waiting(k.s, j)
    ensures k.s.current != Some(j) && 0 <= SchedulerRuns.Potential(k.s, j) <= 62
  {
    SchedulerRuns.PotentialBound(k.s, j);
  }

  /** From the call of `task_create` to the first instruction: the new task is resumed by one of the next
      63 timer interrupts that call the scheduler, and what the stub then reads from memory starts it at
      its entry point. */
  lemma CreatedTaskStarts(k: Kernel, entry: Word, size: Word, l: Ledger, evs: seq<KernelEvent>, clobbered: Registers, r: Reg)
    returns (p: nat)
    requires KernelGood(k, l) && Runnable(k) && k.s.current.Some? && CreateAllowed(k, size)
    requires |CreateTask(k, entry, size).s.tasks| > |k.s.tasks|
    requires KernelPermitted(CreateTask(k, entry, size), evs) && k.s.ticks + |evs| < TWO_64
    requires KernelSwitches(CreateTask(k, entry, size), evs) >= 63
    ensures p < |evs| && evs[p].OnTimer? && KernelPermitted(CreateTask(k, entry, size), evs[..p])
    ensures KernelSwitches(CreateTask(k, entry, size), evs[..p]) <= 62
    ensures var n := KernelRun(CreateTask(k, entry, size), evs[..p]);
            && Runnable(n)
            && var after := TimerTick(n, evs[p].cpu);
               && after.s.current == Some(|k.s.tasks|)
               && FrameReadable(after.w.h.machine, Resumed(n, evs[p].cpu))
               && StartsAt(Leave(FrameAt(after.w.h.machine, Resumed(n, evs[p].cpu)), clobbered), entry,
                           CreateTask(k, entry, size).s.tasks[|k.s.tasks|].regs, r)
  {
    var k1 := CreateTask(k, entry, size);
    var i := |k.s.tasks|;
    NewTaskWaits(k, entry, size, l);
    var l1 := CreateTaskGood(k, entry, size, l);
    hide KernelGood, CreateTask, TimerTick, TickAllowed, KernelPermitted, AwayThroughout, KernelRun, KernelSwitches, FrameReadable,
         FrameAt, FirstFrame, Leave, SchedulerRuns.Potential, CreateAllowed;
    WaitingIsAway(k1, l1, i);
    p := WaitingTaskRuns(k1, evs, l1, i);
    FirstResumeStartsTask(k1, l1, evs[..p], evs[p].cpu, i, entry, clobbered, r);
  }

  /** From the interrupt that preempts a RUNNING task to the one that resumes it: one of the next 63 timer
      interrupts that call the scheduler does, and the task goes on in exactly the state it was in. */
  lemma PreemptedTaskRunsAgain(k: Kernel, l: Ledger, before: Cpu, evs: seq<KernelEvent>, i: nat, clobbered: Registers, r: Reg)
    returns (p: nat)
    requires KernelGood(k, l) && Runnable(k) && TickAllowed(k, before)
    requires k.s.current == Some(i) && k.s.tasks[i].pid != 0 && k.s.tasks[i].state == Scheduler.RUNNING
    requires TimerTick(k, before).s.current != Some(i) && k.s.ticks + 1 + |evs| < TWO_64
    requires KernelPermitted(TimerTick(k, before), evs) && KernelSwitches(TimerTick(k, before), evs) >= 63
    ensures p < |evs| && evs[p].OnTimer? && KernelPermitted(TimerTick(k, before), evs[..p])
    ensures KernelSwitches(TimerTick(k, before), evs[..p]) <= 62
    ensures var n := KernelRun(TimerTick(k, before), evs[..p]);
            && Runnable(n)
            && var after := TimerTick(n, evs[p].cpu);
               && after.s.current == Some(i)
               && FrameReadable(after.w.h.machine, Resumed(n, evs[p].cpu))
               && SameCpu(Leave(FrameAt(after.w.h.machine, Resumed(n, evs[p].cpu)), clobbered), before, r)
  {
    var k1 := TimerTick(k, before);
    TimerTickGood(k, before, l);
    PreemptedWaits(k, before, i);
    hide KernelGood, TimerTick, TickAllowed, KernelPermitted, AwayThroughout, KernelRun, KernelSwitches, FrameReadable,
         FrameAt, Enter, Leave, SchedulerRuns.Potential, Runnable;
    WaitingIsAway(k1, l, i);
    p := WaitingTaskRuns(k1, evs, l, i);
    PreemptedTaskContinues(k, l, before, evs[..p], evs[p].cpu, i, clobbered, r);
  }

  /** A task preempted while RUNNING is READY afterwards. */
  lemma PreemptedWaits(k: Kernel, before: Cpu, i: nat)
    requires Runnable(k) && k.s.current == Some(i) && k.s.tasks[i].pid != 0 && k.s.tasks[i].state == Scheduler.RUNNING
    requires InterruptFrame(before.rsp) != 0 && TimerTick(k, before).s.current != Some(i) && k.s.ticks + 1 < TWO_64
    ensures var n := TimerTick(k, before).s;
            SchedulerRuns.Waiting(n, i) && n.tasks[i].state == Scheduler.READY && n.ticks == k.s.ticks + 1
  {
    hide Enter, PutWords, InterruptFrame, Scheduler.Switch;
    Scheduler.TickResumesChoice(k.s, InterruptFrame(before.rsp));
    Scheduler.SwitchExactly(Scheduler.CountTick(k.s), InterruptFrame(before.rsp));
  }

  /** Two processor states agree in everything the stub restores and in the general register r. */
  predicate SameCpu(c: Cpu, d: Cpu, r: Reg) {
    && c.gpr(r) == d.gpr(r) && c.ds == d.ds && c.es == d.es && c.rip == d.rip
    && c.cs == d.cs && c.rflags == d.rflags && c.rsp == d.rsp && c.ss == d.ss
  }

  /** The stacks of two tasks share no byte. */
  lemma StacksApart(k: Kernel, l: Ledger, i: nat, j: nat)
    requires KernelGood(k, l) && i < |k.homes| && j < |k.homes| && i != j
    requires i < |k.s.tasks| && j < |k.s.tasks| && k.s.tasks[i].pid != 0 && k.s.tasks[j].pid != 0
    ensures var t, u := k.s.tasks[i], k.s.tasks[j];
            t.stackBase + t.stackSize <= u.stackBase || u.stackBase + u.stackSize <= t.stackBase
  {
    hide Good;
    assert HomeOk(k, i) && HomeOk(k, j);
    if i < j {
      BlocksDisjoint(k.w, l, k.homes[i].block, k.homes[j].block);
    } else {
      BlocksDisjoint(k.w, l, k.homes[j].block, k.homes[i].block);
    }
  }
}
