/** Every run of the joint model is a run of the scheduler and a run of the memory code, so that what is
    proved about those two holds in it. */
module KernelViews {
  import opened Words
  import opened PageTables
  import opened Walker
  import opened Heap
  import opened BumpHeap
  import opened Ownership
  import opened Runs
  import opened HeapWords
  import opened InterruptStub
  import opened KernelTasks
  import ClientRuns
  import Scheduler
  import SchedulerRuns

  // ------------------------------------------------------------ as the scheduler sees it

  /** The answer of the second `kmalloc` of `task_create`. */
  function StackAnswer(k: Kernel, size: Word): (a: Word)
    requires HeapOk(k.w.h)
  {
    KmallocBlock(k.w.h, TCB_SIZE);
    var w := StepKmalloc(k.w, TCB_SIZE);
    if Kmalloc(w.h, size).1 == NULL then NULL else w.h.ptr
  }

  /** What an event is to the scheduler: the timer interrupt comes with the address of its frame, and
      `task_create` with the answers of `kmalloc`. */
  function SchedulerEvents(k: Kernel, ev: KernelEvent): seq<Scheduler.Event>
    requires HeapOk(k.w.h)
  {
    match ev
    case OnMemory(op) => []
    case OnCreate(entry, size) => [Scheduler.EvCreate(Kmalloc(k.w.h, 80).1 != NULL, StackAnswer(k, size), size)]
    case OnTask(e) => [e]
    case OnTimer(cpu) => [Scheduler.EvTick(InterruptFrame(cpu.rsp))]
  }

  ghost function SchedulerRun(k: Kernel, evs: seq<KernelEvent>): seq<Scheduler.Event>
    requires KernelPermitted(k, evs)
    decreases |evs|
  {
    if evs == [] || !Runnable(k) then [] else SchedulerEvents(k, evs[0]) + SchedulerRun(KernelStep(k, evs[0]), evs[1..])
  }

  lemma StackIsSane(k: Kernel, size: Word, l: Ledger)
    requires KernelGood(k, l) && Scheduler.FRAME_SIZE <= size <= MAX_REQUEST && StackAnswer(k, size) != NULL
    ensures Scheduler.FrameAddress(StackAnswer(k, size), size) != 0
  {
    hide Good, Kmalloc, Scheduler.FrameAddress;
    GoodIsReady(k.w, l);
    KmallocBlock(k.w.h, TCB_SIZE);
    var w := StepKmalloc(k.w, TCB_SIZE);
    BlockAdded(w, size);
    Scheduler.FirstFrameInside(w.h.ptr, size);
  }

  lemma CreateIsEvent(k: Kernel, entry: Word, size: Word)
    requires HeapOk(k.w.h) && CreateAllowed(k, size)
    ensures CreateTask(k, entry, size).s == Scheduler.Create(k.s, Kmalloc(k.w.h, 80).1 != NULL, StackAnswer(k, size), size)
  {
    hide Scheduler.FrameAddress, PutWords, FirstFrame;
    KmallocBlock(k.w.h, TCB_SIZE);
    var w := StepKmalloc(k.w, TCB_SIZE);
    KmallocShape(w.h, size);
  }

  lemma StepIsSchedulerStep(k: Kernel, ev: KernelEvent, l: Ledger)
    requires KernelGood(k, l) && Runnable(k) && KernelAllowed(k, ev)
    ensures SchedulerRuns.Normal(SchedulerEvents(k, ev))
    ensures KernelStep(k, ev).s == SchedulerRuns.After(k.s, SchedulerEvents(k, ev))
  {
    hide Good, Homes, Kmalloc, CreateTask, StackAnswer, Scheduler.Tick, Scheduler.Create, Scheduler.FrameAddress, Scheduler.Inv,
         PutWords, Enter, InterruptFrame, Step;
    match ev
    case OnMemory(op) =>
    case OnCreate(entry, size) =>
      CreateIsEvent(k, entry, size);
      if StackAnswer(k, size) != NULL {
        StackIsSane(k, size, l);
      }
    case OnTask(e) =>
    case OnTimer(cpu) => TickIsApply(k.s, InterruptFrame(cpu.rsp));
  }

  lemma {:induction false} AfterEvents(s: Scheduler.Sched, a: seq<Scheduler.Event>, b: seq<Scheduler.Event>)
    requires Scheduler.Inv(s) && SchedulerRuns.Normal(a) && SchedulerRuns.Normal(b)
    ensures SchedulerRuns.Normal(a + b)
    ensures SchedulerRuns.After(s, a + b) == SchedulerRuns.After(SchedulerRuns.After(s, a), b)
    decreases |a|
  {
    hide Scheduler.Apply, Scheduler.Sane;
    if a == [] {
      assert a + b == b;
    } else {
      Scheduler.ApplySafe(s, a[0]);
      assert (a + b)[1..] == a[1..] + b;
      AfterEvents(Scheduler.Apply(s, a[0]), a[1..], b);
    }
  }

  /** The scheduler's part of a run is a run of the scheduler: waiting bounds, deadlines, the fate of
      ZOMBIEs and transparency hold with the real stacks and interrupt frames. */
  lemma {:induction false} KernelRunIsSchedulerRun(k: Kernel, evs: seq<KernelEvent>, l: Ledger)
    requires KernelGood(k, l) && KernelPermitted(k, evs)
    ensures SchedulerRuns.Normal(SchedulerRun(k, evs))
    ensures KernelRun(k, evs).s == SchedulerRuns.After(k.s, SchedulerRun(k, evs))
    decreases |evs|
  {
    hide KernelStep, KernelAllowed, Good, Homes, Scheduler.Inv, SchedulerRuns.Normal, SchedulerEvents;
    GoodIsRunnable(k, l);
    if evs != [] {
      StepIsSchedulerStep(k, evs[0], l);
      var middle := KernelStepGood(k, evs[0], l);
      KernelRunIsSchedulerRun(KernelStep(k, evs[0]), evs[1..], middle);
      AfterEvents(k.s, SchedulerEvents(k, evs[0]), SchedulerRun(KernelStep(k, evs[0]), evs[1..]));
    } else {
      NoEvents(k.s);
    }
  }

  lemma NoEvents(s: Scheduler.Sched)
    requires Scheduler.Inv(s)
    ensures SchedulerRuns.Normal([]) && SchedulerRuns.After(s, []) == s
  {
  }

  // ---------------------------------------------------------- as the memory code sees it

  /** The stores of PutWords. */
  ghost function Stores(w: World, a: nat, xs: seq<Word>): seq<Op>
    requires Ready(w)
    decreases |xs|
  {
    if xs == [] then []
    else
      var n := PutWord(w, a, xs[0]);
      (if Readable(w.h.machine, a) then [OpPoke(SlotOf(a), WordOf(a), xs[0])] else [])
      + if Ready(n) then Stores(n, a + 8, xs[1..]) else []
  }

  /** What an event is to the memory code: `task_create` is one or two requests and the stores of the
      first frame, the timer interrupt the stores of its frame. */
  ghost function MemoryOps(k: Kernel, ev: KernelEvent): seq<Op>
    requires Runnable(k) && KernelAllowed(k, ev)
  {
    match ev
    case OnMemory(op) => [op]
    case OnCreate(entry, size) =>
      if |k.s.tasks| >= 64 then []
      else if Kmalloc(k.w.h, 80).1 == NULL then [OpKmalloc(80)]
      else [OpKmalloc(80), OpKmalloc(size)] + FrameStores(k, entry, size)
    case OnTask(e) => []
    case OnTimer(cpu) => if OnOwnStack(k) then Stores(k.w, InterruptFrame(cpu.rsp), Enter(cpu, 32)) else []
  }

  ghost function FrameStores(k: Kernel, entry: Word, size: Word): seq<Op>
    requires HeapOk(k.w.h) && CreateAllowed(k, size) && Kmalloc(k.w.h, 80).1 != NULL
  {
    var w := StepKmalloc(StepKmalloc(k.w, 80), size);
    var frame := Scheduler.FrameAddress(StackAnswer(k, size), size);
    if StackAnswer(k, size) == NULL || !Ready(w) then [] else Stores(w, frame, FirstFrame(frame, entry))
  }

  ghost function MemoryRun(k: Kernel, evs: seq<KernelEvent>): seq<Op>
    requires KernelPermitted(k, evs)
    decreases |evs|
  {
    if evs == [] || !Runnable(k) then [] else MemoryOps(k, evs[0]) + MemoryRun(KernelStep(k, evs[0]), evs[1..])
  }

  lemma {:induction false} OpsAfterOps(w: World, a: seq<Op>, b: seq<Op>, l: Ledger)
    requires Good(w, l) && Permitted(w, a) && Permitted(Run(w, a), b)
    ensures Permitted(w, a + b) && Run(w, a + b) == Run(Run(w, a), b)
    decreases |a|
  {
    hide Good, Ready, Allowed, Step;
    GoodIsReady(w, l);
    if a == [] {
      assert a + b == b;
    } else {
      assert (a + b)[1..] == a[1..] + b;
      var middle := StepGood(w, a[0], l);
      OpsAfterOps(Step(w, a[0]), a[1..], b, middle);
    }
  }

  lemma OneOp(w: World, op: Op, rest: seq<Op>)
    requires Ready(w) && Allowed(w, op) && Permitted(Step(w, op), rest)
    ensures Permitted(w, [op] + rest) && Run(w, [op] + rest) == Run(Step(w, op), rest)
  {
    hide Ready, Allowed, Step;
    assert ([op] + rest)[1..] == rest;
  }

  lemma NoOps(w: World)
    ensures Permitted(w, []) && Run(w, []) == w
  {
  }

  lemma {:induction false} StoresAreRun(w: World, l: Ledger, a: nat, xs: seq<Word>)
    requires Good(w, l) && Ready(w)
    ensures Permitted(w, Stores(w, a, xs)) && Run(w, Stores(w, a, xs)) == PutWords(w, a, xs)
    decreases |xs|
  {
    hide Good, Ready, Run, Permitted, Step, Mapped, Backing, SlotOf, WordOf, HeapAddress;
    if xs == [] {
      NoOps(w);
    } else if Readable(w.h.machine, a) {
      PutWordKeeps(w, l, a, xs[0]);
      var n := PutWord(w, a, xs[0]);
      StoresAreRun(n, l, a + 8, xs[1..]);
      OneOp(w, OpPoke(SlotOf(a), WordOf(a), xs[0]), Stores(n, a + 8, xs[1..]));
    } else {
      StoresAreRun(w, l, a + 8, xs[1..]);
      assert Stores(w, a, xs) == Stores(w, a + 8, xs[1..]);
    }
  }

  lemma CreateIsRequests(k: Kernel, entry: Word, size: Word, l: Ledger)
    requires KernelGood(k, l) && Runnable(k) && CreateAllowed(k, size)
    ensures Permitted(k.w, MemoryOps(k, OnCreate(entry, size)))
    ensures CreateTask(k, entry, size).w == Run(k.w, MemoryOps(k, OnCreate(entry, size)))
  {
    hide Good, Run, Permitted, Kmalloc, StepKmalloc, Stores, PutWords, FirstFrame, Scheduler.FrameAddress, Homes, Served, Scheduler.Inv;
    NoOps(k.w);
    var w1 := StepKmalloc(k.w, TCB_SIZE);
    if |k.s.tasks| < Scheduler.MAX_TASKS {
      assert w1 == Step(k.w, OpKmalloc(80));
      var l1 := StepGood(k.w, OpKmalloc(80), l);
      GoodIsReady(w1, l1);
      NoOps(w1);
      OneOp(k.w, OpKmalloc(80), []);
      assert [OpKmalloc(80)] + [] == [OpKmalloc(80)];
      if Kmalloc(k.w.h, TCB_SIZE).1 != NULL {
        var w2 := StepKmalloc(w1, size);
        assert w2 == Step(w1, OpKmalloc(size));
        var l2 := StepGood(w1, OpKmalloc(size), l1);
        GoodIsReady(w2, l2);
        var rest := FrameStores(k, entry, size);
        FrameStoresAreRun(k, w2, entry, size, l2);
        OneOp(w1, OpKmalloc(size), rest);
        OneOp(k.w, OpKmalloc(80), [OpKmalloc(size)] + rest);
        assert [OpKmalloc(80)] + ([OpKmalloc(size)] + rest) == [OpKmalloc(80), OpKmalloc(size)] + rest;
      }
    }
  }

  lemma FrameStoresAreRun(k: Kernel, w: World, entry: Word, size: Word, l: Ledger)
    requires HeapOk(k.w.h) && CreateAllowed(k, size) && |k.s.tasks| < Scheduler.MAX_TASKS && Kmalloc(k.w.h, 80).1 != NULL
    requires w == StepKmalloc(StepKmalloc(k.w, 80), size) && Good(w, l) && Ready(w)
    ensures Permitted(w, FrameStores(k, entry, size)) && Run(w, FrameStores(k, entry, size)) == CreateTask(k, entry, size).w
  {
    hide Good, Ready, Run, Permitted, Stores, PutWords, FirstFrame, Scheduler.FrameAddress, Served, MapRange;
    NoOps(w);
    KmallocBlock(k.w.h, TCB_SIZE);
    var frame := Scheduler.FrameAddress(StackAnswer(k, size), size);
    StoresAreRun(w, l, frame, FirstFrame(frame, entry));
  }

  lemma StepIsMemorySteps(k: Kernel, ev: KernelEvent, l: Ledger)
    requires KernelGood(k, l) && Runnable(k) && KernelAllowed(k, ev)
    ensures Permitted(k.w, MemoryOps(k, ev)) && KernelStep(k, ev).w == Run(k.w, MemoryOps(k, ev))
  {
    hide Good, Ready, Run, Permitted, CreateTask, Stores, PutWords, Homes, Scheduler.Inv, Scheduler.Tick, Scheduler.Apply, Enter, InterruptFrame, Step, CreateAllowed;
    NoOps(k.w);
    match ev
    case OnMemory(op) =>
      NoOps(Step(k.w, op));
      OneOp(k.w, op, []);
      assert [op] + [] == [op];
    case OnCreate(entry, size) => CreateIsRequests(k, entry, size, l);
    case OnTask(e) =>
    case OnTimer(cpu) =>
      if OnOwnStack(k) {
        StoresAreRun(k.w, l, InterruptFrame(cpu.rsp), Enter(cpu, TIMER_VECTOR));
      }
  }

  /** The memory part of a run is a run of the memory code: disjoint blocks, lasting mappings and frames
      that keep what their holders wrote, whatever the scheduler does. */
  lemma {:induction false} KernelRunIsMemoryRun(k: Kernel, evs: seq<KernelEvent>, l: Ledger)
    requires KernelGood(k, l) && KernelPermitted(k, evs)
    ensures Permitted(k.w, MemoryRun(k, evs)) && KernelRun(k, evs).w == Run(k.w, MemoryRun(k, evs))
    decreases |evs|
  {
    hide KernelStep, KernelAllowed, Good, Homes, Scheduler.Inv, MemoryOps, Run, Permitted;
    GoodIsRunnable(k, l);
    if evs != [] {
      StepIsMemorySteps(k, evs[0], l);
      var middle := KernelStepGood(k, evs[0], l);
      KernelRunIsMemoryRun(KernelStep(k, evs[0]), evs[1..], middle);
      OpsAfterOps(k.w, MemoryOps(k, evs[0]), MemoryRun(KernelStep(k, evs[0]), evs[1..]), l);
    } else {
      NoOps(k.w);
    }
  }

  // ------------------------------------------------------------------ what follows

  lemma {:induction false} StoresArePokes(w: World, a: nat, xs: seq<Word>)
    requires Ready(w)
    ensures forall i | 0 <= i < |Stores(w, a, xs)| :: Stores(w, a, xs)[i].OpPoke?
    decreases |xs|
  {
    hide Ready, PutWord, Readable, SlotOf, WordOf;
    if xs != [] {
      var n := PutWord(w, a, xs[0]);
      if Ready(n) {
        StoresArePokes(n, a + 8, xs[1..]);
      }
    }
  }

  /** The only maps, unmaps, frees and frame stores are those of the callers. */
  lemma OtherOps(k: Kernel, ev: KernelEvent)
    requires Runnable(k) && KernelAllowed(k, ev)
    ensures forall i | 0 <= i < |MemoryOps(k, ev)| ::
              var op := MemoryOps(k, ev)[i]; op.OpPoke? || op.OpKmalloc? || ev == OnMemory(op)
  {
    hide Kmalloc, StepKmalloc, Stores, FirstFrame, Enter, Scheduler.FrameAddress, InterruptFrame, Scheduler.Inv, Served, MemoryAllowed;
    match ev
    case OnMemory(op) =>
    case OnCreate(entry, size) =>
      if |k.s.tasks| < 64 && Kmalloc(k.w.h, 80).1 != NULL {
        var w := StepKmalloc(StepKmalloc(k.w, 80), size);
        var frame := Scheduler.FrameAddress(StackAnswer(k, size), size);
        if Ready(w) {
          StoresArePokes(w, frame, FirstFrame(frame, entry));
        }
      }
    case OnTask(e) =>
    case OnTimer(cpu) => StoresArePokes(k.w, InterruptFrame(cpu.rsp), Enter(cpu, 32));
  }

  /** While tasks are created, switched, put to sleep and ended, a client page keeps its translation until
      an operation names it. */
  lemma {:induction false} KernelSparesPage(k: Kernel, evs: seq<KernelEvent>, l: Ledger, v: VPage)
    requires KernelGood(k, l) && KernelPermitted(k, evs) && ClientPage(v)
    requires forall i | 0 <= i < |evs| && evs[i].OnMemory? :: !ClientRuns.Names(evs[i].op, v)
    ensures var m, n := k.w.h.machine, KernelRun(k, evs).w.h.machine;
            n.root == m.root && Translate(n.mem, m.root, v) == Translate(m.mem, m.root, v)
    decreases |evs|
  {
    hide KernelStep, KernelAllowed, Good, Homes, Scheduler.Inv, MemoryOps, Run, Permitted, Translate, ClientRuns.Names;
    GoodIsRunnable(k, l);
    if evs != [] {
      var ops := MemoryOps(k, evs[0]);
      StepIsMemorySteps(k, evs[0], l);
      OtherOps(k, evs[0]);
      forall i | 0 <= i < |ops|
        ensures !ClientRuns.Names(ops[i], v)
      {
        OnlyMapsName(ops[i], v);
      }
      var _ := ClientRuns.RunSparesPage(k.w, ops, l, v);
      var middle := KernelStepGood(k, evs[0], l);
      assert forall i | 0 <= i < |evs[1..]| :: evs[1..][i] == evs[i + 1];
      KernelSparesPage(KernelStep(k, evs[0]), evs[1..], middle, v);
    }
  }

  lemma OnlyMapsName(op: Op, v: VPage)
    ensures op.OpPoke? || op.OpKmalloc? ==> !ClientRuns.Names(op, v)
  {
  }

  /** And a frame stays with its holder, with what was stored there. */
  lemma {:induction false} KernelSparesFrame(k: Kernel, evs: seq<KernelEvent>, l: Ledger, f: nat, i: Index)
    requires KernelGood(k, l) && KernelPermitted(k, evs) && f in k.w.client
    requires forall j | 0 <= j < |evs| && evs[j].OnMemory? :: evs[j].op != OpFree(f) && !ClientRuns.Writes(evs[j].op, f, i)
    ensures var n := KernelRun(k, evs).w;
            && f in n.client && f < |k.w.h.machine.mem| == |n.h.machine.mem|
            && n.h.machine.mem[f][i] == k.w.h.machine.mem[f][i]
    decreases |evs|
  {
    hide KernelStep, KernelAllowed, Good, Homes, Scheduler.Inv, MemoryOps, Run, Permitted, ClientRuns.Writes;
    GoodIsRunnable(k, l);
    if evs != [] {
      var ops := MemoryOps(k, evs[0]);
      StepIsMemorySteps(k, evs[0], l);
      OtherOps(k, evs[0]);
      forall j | 0 <= j < |ops|
        ensures ops[j] != OpFree(f) && !ClientRuns.Writes(ops[j], f, i)
      {
        OnlyClientsWrite(ops[j], f, i);
      }
      ClientRuns.RunSparesFrame(k.w, ops, l, f, i);
      var middle := KernelStepGood(k, evs[0], l);
      assert forall j | 0 <= j < |evs[1..]| :: evs[1..][j] == evs[j + 1];
      KernelSparesFrame(KernelStep(k, evs[0]), evs[1..], middle, f, i);
    }
  }

  lemma OnlyClientsWrite(op: Op, f: nat, i: Index)
    ensures op.OpPoke? || op.OpKmalloc? ==> !ClientRuns.Writes(op, f, i)
  {
  }

  lemma KernelZombieNeverRuns(k: Kernel, evs: seq<KernelEvent>, l: Ledger, i: nat)
    requires KernelGood(k, l) && KernelPermitted(k, evs)
    requires i < |k.s.tasks| && k.s.tasks[i].state == Scheduler.ZOMBIE && k.s.current != Some(i)
    ensures KernelRun(k, evs).s.current != Some(i)
  {
    hide Good, Homes, Scheduler.Inv, KernelRun, KernelPermitted;
    KernelRunIsSchedulerRun(k, evs, l);
    SchedulerRuns.ZombieNeverRuns(k.s, SchedulerRun(k, evs), i);
  }

  /** A task that calls `task_exit` and is switched away from by the next timer interrupt is never
      resumed again. */
  lemma KernelExitIsFinal(k: Kernel, cpu: Cpu, evs: seq<KernelEvent>, l: Ledger, i: nat)
    requires KernelGood(k, l) && Runnable(k) && k.s.current == Some(i) && k.s.ticks + 1 < TWO_64
    requires var k1 := KernelStep(k, OnTask(Scheduler.EvExit));
             && Runnable(k1) && TickAllowed(k1, cpu)
             && KernelStep(k1, OnTimer(cpu)).s.current != Some(i)
             && KernelPermitted(KernelStep(k1, OnTimer(cpu)), evs)
    ensures var k1 := KernelStep(k, OnTask(Scheduler.EvExit));
            KernelRun(KernelStep(k1, OnTimer(cpu)), evs).s.current != Some(i)
  {
    hide Good, Homes, KernelRun, KernelPermitted, InterruptFrame, Scheduler.Tick, Ready, Pushed, SavedAfter;
    Scheduler.ExitExactly(k.s);
    var k1 := KernelStep(k, OnTask(Scheduler.EvExit));
    TaskEventGood(k, Scheduler.EvExit, l);
    TimerTickGood(k1, cpu, l);
    SchedulerRuns.LeftAsItWas(k1.s, InterruptFrame(cpu.rsp), i);
    KernelZombieNeverRuns(TimerTick(k1, cpu), evs, l, i);
  }
}
