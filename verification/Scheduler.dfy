/** The round-robin scheduler of src/kernel/task.c and the timer path through pit.c and isr.c, as
    functions on values. */
module Scheduler {
  import opened Words
  import opened PageTables

  const MAX_TASKS: nat := 64
  const FRAME_SIZE: nat := 208 // sizeof(registers_t)
  const NULL: nat := 0

  datatype TaskState = READY | RUNNING | BLOCKED | SLEEPING | ZOMBIE

  /** A task control block; `regs` is the address of the saved register frame. */
  datatype Tcb = Tcb(pid: nat, state: TaskState, regs: Word, stackBase: Word, stackSize: Word, sleepUntil: Word)

  /** The task list, the index of the running task, and the timer. */
  datatype Sched = Sched(tasks: seq<Tcb>, current: Option<nat>, nextPid: nat, ticks: Word, enabled: bool)

  // ------------------------------------------------------------------ operations

  /** `task_init`; `tcbOk` says whether the TCB of the kernel task could be allocated. */
  function Init(s: Sched, tcbOk: bool): Sched {
    if tcbOk then s.(tasks := [Tcb(0, RUNNING, NULL, 0, 0, 0)], current := Some(0), nextPid := 1)
    else s.(tasks := [], current := None, nextPid := 1)
  }

  /** The address of the first register frame on a new stack. */
  function FrameAddress(stack: Word, size: Word): Word {
    var top := (stack + size) % TWO_64;
    (top - top % 16 + TWO_64 - FRAME_SIZE) % TWO_64
  }

  /** `task_create`; `tcbOk` and `stack` are the answers of the two `kmalloc` calls. */
  function Create(s: Sched, tcbOk: bool, stack: Word, size: Word): Sched {
    if |s.tasks| >= MAX_TASKS || !tcbOk || stack == NULL then s
    else
      var first := s.current.None?;
      var t := Tcb(s.nextPid, if first then RUNNING else READY, FrameAddress(stack, size), stack, size, 0);
      s.(tasks := s.tasks + [t], current := if first then Some(|s.tasks|) else s.current, nextPid := s.nextPid + 1)
  }

  /** A task joins the list as READY; the first of all is then made current. */
  function Enlist(s: Sched, t: Tcb): Sched {
    var listed := s.(tasks := s.tasks + [t], nextPid := s.nextPid + 1);
    if s.current.Some? then listed
    else SetTask(listed, |s.tasks|, t.(state := RUNNING)).(current := Some(|s.tasks|))
  }

  /** `task_create` in the steps of the source. */
  lemma CreateInSteps(s: Sched, tcbOk: bool, stack: Word, size: Word)
    ensures Create(s, tcbOk, stack, size) ==
              if |s.tasks| >= MAX_TASKS || !tcbOk || stack == NULL then s
              else Enlist(s, Tcb(s.nextPid, READY, FrameAddress(stack, size), stack, size, 0))
  {
    var t := Tcb(s.nextPid, READY, FrameAddress(stack, size), stack, size, 0);
    assert (s.tasks + [t])[|s.tasks| := t.(state := RUNNING)] == s.tasks + [t.(state := RUNNING)];
  }

  function SetTask(s: Sched, i: nat, t: Tcb): Sched
    requires i < |s.tasks|
  {
    s.(tasks := s.tasks[i := t])
  }

  /** The running task's frame is stored only while the task is still RUNNING. */
  function Save(s: Sched, regs: Word): (r: Sched)
    requires s.current.Some? ==> s.current.value < |s.tasks|
    ensures |r.tasks| == |s.tasks|
  {
    if s.current.Some? && s.tasks[s.current.value].state == RUNNING then
      SetTask(s, s.current.value, s.tasks[s.current.value].(regs := regs, state := READY))
    else s
  }

  /** A task the search may pick: not the idle task, and ready or due to wake up. */
  predicate Eligible(t: Tcb, ticks: Word) {
    t.pid != 0 && (t.state == READY || (t.state == SLEEPING && ticks >= t.sleepUntil))
  }

  function StartIndex(s: Sched): nat
    requires |s.tasks| > 0
  {
    if s.current.Some? then (s.current.value + 1) % |s.tasks| else 0
  }

  function SlotAt(s: Sched, offset: nat): nat
    requires |s.tasks| > 0
  {
    (StartIndex(s) + offset) % |s.tasks|
  }

  /** The offset of the first eligible task at or after `offset` in search order. */
  function Search(s: Sched, offset: nat): (r: Option<nat>)
    requires |s.tasks| > 0 && offset <= |s.tasks|
    ensures r.Some? ==> offset <= r.value < |s.tasks| && Eligible(s.tasks[SlotAt(s, r.value)], s.ticks)
    ensures forall o | offset <= o < (if r.Some? then r.value else |s.tasks|) :: !Eligible(s.tasks[SlotAt(s, o)], s.ticks)
    decreases |s.tasks| - offset
  {
    if offset == |s.tasks| then None
    else if Eligible(s.tasks[SlotAt(s, offset)], s.ticks) then Some(offset)
    else Search(s, offset + 1)
  }

  /** `task_switch`: the new scheduler state and the frame to resume. */
  function Switch(s: Sched, regs: Word): (Sched, Word)
    requires s.current.Some? ==> s.current.value < |s.tasks|
  {
    if |s.tasks| == 0 then (s, regs)
    else
      var saved := Save(s, regs);
      var found := Search(saved, 0);
      if found.None? then
        (if s.current.Some? then SetTask(saved, s.current.value, saved.tasks[s.current.value].(state := RUNNING)) else saved, regs)
      else
        var j := SlotAt(saved, found.value);
        (SetTask(saved, j, saved.tasks[j].(state := RUNNING)).(current := Some(j)), saved.tasks[j].regs)
  }

  function Sleep(s: Sched, n: Word): Sched
    requires s.current.Some? ==> s.current.value < |s.tasks|
  {
    if s.current.None? then s
    else SetTask(s, s.current.value, s.tasks[s.current.value].(state := SLEEPING, sleepUntil := (s.ticks + n) % TWO_64))
  }

  function Exit(s: Sched): Sched
    requires s.current.Some? ==> s.current.value < |s.tasks|
  {
    if s.current.None? then s
    else SetTask(s, s.current.value, s.tasks[s.current.value].(state := ZOMBIE))
  }

  /** The timer counts one tick; on every tenth, with the scheduler on, it calls the scheduler. */
  predicate SwitchDue(s: Sched) {
    s.enabled && (s.ticks + 1) % TWO_64 % 10 == 0
  }

  function CountTick(s: Sched): Sched {
    s.(ticks := (s.ticks + 1) % TWO_64)
  }

  /** `pit_irq_handler` and the frame `irq_handler` returns to the stub. */
  function Tick(s: Sched, regs: Word): (Sched, Word)
    requires s.current.Some? ==> s.current.value < |s.tasks|
  {
    if SwitchDue(s) then
      var (next, frame) := Switch(CountTick(s), regs);
      var newTaskRegs := if frame != regs then frame else NULL;
      (next, if newTaskRegs != NULL then newTaskRegs else regs)
    else (CountTick(s), regs)
  }

  // ---------------------------------------------------------------------- events

  datatype Event =
    | EvInit(tcbOk: bool)
    | EvCreate(tcbOk: bool, stack: Word, size: Word)
    | EvSleep(n: Word)
    | EvExit
    | EvTick(regs: Word)
    | EvEnable

  function Apply(s: Sched, e: Event): Sched
    requires s.current.Some? ==> s.current.value < |s.tasks|
  {
    match e
    case EvInit(tcbOk) => Init(s, tcbOk)
    case EvCreate(tcbOk, stack, size) => Create(s, tcbOk, stack, size)
    case EvSleep(n) => Sleep(s, n)
    case EvExit => Exit(s)
    case EvTick(regs) => Tick(s, regs).0
    case EvEnable => s.(enabled := true)
  }

  /** Interrupt frames and task frames are real addresses: 208 bytes of stack above address 0. */
  predicate Sane(e: Event) {
    match e
    case EvCreate(_, stack, size) => stack != NULL ==> FrameAddress(stack, size) != NULL
    case EvTick(regs) => regs != NULL
    case _ => true
  }

  // ------------------------------------------------------------------- invariant

  /** 0 when the list starts with the idle task, 1 when its TCB could not be allocated. */
  function PidOffset(s: Sched): int {
    s.nextPid - |s.tasks|
  }

  /** What holds between any two events. */
  ghost predicate Inv(s: Sched) {
    && |s.tasks| <= MAX_TASKS
    && 0 <= PidOffset(s) <= 1
    && (s.current.Some? <==> |s.tasks| > 0)
    && (s.current.Some? ==> s.current.value < |s.tasks|)
    && (|s.tasks| == 0 ==> s.nextPid == 1)
    && (forall i: nat | i < |s.tasks| :: s.tasks[i].pid == i + PidOffset(s))
    && (forall i: nat | i < |s.tasks| && s.tasks[i].state == RUNNING :: s.current == Some(i))
    && (forall i: nat | i < |s.tasks| && s.tasks[i].state == READY :: s.current != Some(i))
    && (forall i: nat | i < |s.tasks| :: s.tasks[i].state != BLOCKED)
    && (forall i: nat | i < |s.tasks| && s.tasks[i].pid != 0 :: s.tasks[i].regs != NULL)
  }

  /** Before `task_init`: no task, and the scheduler switched off. */
  function PowerOn(): (s: Sched)
    ensures Inv(s)
  {
    Sched([], None, 1, 0, false)
  }

  lemma DistinctPids(s: Sched, i: nat, j: nat)
    requires Inv(s) && i < |s.tasks| && j < |s.tasks| && i != j
    ensures s.tasks[i].pid != s.tasks[j].pid
  {
  }

  // -------------------------------------------------------------- what a switch does

  /** Where the search starts and how far a task is from there, in search order. */
  function Distance(s: Sched, j: nat): nat
    requires |s.tasks| > 0 && j < |s.tasks|
  {
    var start := StartIndex(s);
    if j >= start then j - start else j + |s.tasks| - start
  }

  lemma DistanceIsOffset(s: Sched, j: nat)
    requires |s.tasks| > 0 && j < |s.tasks| && (s.current.Some? ==> s.current.value < |s.tasks|)
    ensures Distance(s, j) < |s.tasks| && SlotAt(s, Distance(s, j)) == j
  {
    ModStart(s);
    WrapAdd(StartIndex(s), Distance(s, j), |s.tasks|);
  }

  lemma ModStart(s: Sched)
    requires |s.tasks| > 0 && (s.current.Some? ==> s.current.value < |s.tasks|)
    ensures StartIndex(s) < |s.tasks|
    ensures s.current.Some? ==> StartIndex(s) == if s.current.value + 1 == |s.tasks| then 0 else s.current.value + 1
  {
    if s.current.Some? {
      WrapAdd(s.current.value, 1, |s.tasks|);
    }
  }

  /** Adding less than n to a number below n wraps at most once. */
  lemma WrapAdd(a: nat, b: nat, n: nat)
    requires a < n && b <= n
    ensures (a + b) % n == if a + b < n then a + b else a + b - n
  {
    if a + b < n {
      ModUnique(a + b, n, 0, a + b);
    } else {
      ModUnique(a + b, n, 1, a + b - n);
    }
  }

  lemma OffsetIsDistance(s: Sched, o: nat)
    requires |s.tasks| > 0 && o < |s.tasks| && (s.current.Some? ==> s.current.value < |s.tasks|)
    ensures SlotAt(s, o) < |s.tasks| && Distance(s, SlotAt(s, o)) == o
  {
    ModStart(s);
    WrapAdd(StartIndex(s), o, |s.tasks|);
  }

  /** The index the search picks, if any. */
  function Choice(s: Sched, regs: Word): Option<nat>
    requires |s.tasks| > 0 && (s.current.Some? ==> s.current.value < |s.tasks|)
  {
    match Search(Save(s, regs), 0)
    case None => None
    case Some(o) => Some(SlotAt(Save(s, regs), o))
  }

  /** The state of every task after `task_switch`. */
  lemma SwitchEffect(s: Sched, regs: Word)
    requires Inv(s) && |s.tasks| > 0
    ensures var c := s.current.value;
            var (n, frame) := Switch(s, regs);
            var next := if Choice(s, regs).Some? then Choice(s, regs).value else c;
            && |n.tasks| == |s.tasks| && next < |s.tasks| && n.current == Some(next)
            && n.nextPid == s.nextPid && n.ticks == s.ticks && n.enabled == s.enabled
            && (Choice(s, regs).Some? ==> Eligible(Save(s, regs).tasks[next], s.ticks) && frame == Save(s, regs).tasks[next].regs)
            && (Choice(s, regs).None? ==> frame == regs)
            && forall i: nat | i < |s.tasks| ::
                 n.tasks[i] == if i == next then Save(s, regs).tasks[i].(state := RUNNING) else Save(s, regs).tasks[i]
  {
    if Choice(s, regs).Some? {
      OffsetIsDistance(Save(s, regs), Search(Save(s, regs), 0).value);
    }
  }

  /** No eligible task lies nearer to the search start than the chosen one. */
  lemma ChoiceIsNearest(s: Sched, regs: Word, j: nat)
    requires Inv(s) && |s.tasks| > 0 && j < |s.tasks|
    requires var t := Save(s, regs).tasks[j];
             t.pid != 0 && (t.state == READY || (t.state == SLEEPING && s.ticks >= t.sleepUntil))
    ensures Choice(s, regs).Some? && Choice(s, regs).value < |s.tasks|
    ensures Distance(s, Choice(s, regs).value) <= Distance(s, j)
  {
    var saved := Save(s, regs);
    DistanceIsOffset(saved, j);
    assert Distance(saved, j) == Distance(s, j);
    assert SlotAt(saved, Distance(saved, j)) == j;
    OffsetIsDistance(saved, Search(saved, 0).value);
  }

  /** Task j may run next: it is not the idle task, and it is ready, running now, or due to wake up. */
  predicate MayRun(s: Sched, j: nat)
    requires j < |s.tasks|
  {
    var t := s.tasks[j];
    t.pid != 0 && (t.state == READY || t.state == RUNNING || (t.state == SLEEPING && s.ticks >= t.sleepUntil))
  }

  /** How many places slot j lies ahead of slot c in a cycle of n, slot c itself coming last. */
  function Ahead(c: nat, j: nat, n: nat): int {
    if j > c then j - c else j + n - c
  }

  /** What `task_switch` decides, from the blocks as it finds them: the first task ahead of the current
      one that may run, or the current one when none may. */
  lemma SwitchPicksFirst(s: Sched, regs: Word)
    requires Inv(s) && |s.tasks| > 0
    ensures var c, n := s.current.value, Switch(s, regs).0;
            && n.current.Some? && n.current.value < |s.tasks|
            && (forall j: nat | j < |s.tasks| && MayRun(s, j) ::
                  MayRun(s, n.current.value) && Ahead(c, n.current.value, |s.tasks|) <= Ahead(c, j, |s.tasks|))
            && ((forall j: nat | j < |s.tasks| :: !MayRun(s, j)) ==> n.current == s.current)
  {
    var c, n := s.current.value, Switch(s, regs).0;
    SwitchEffect(s, regs);
    ModStart(s);
    forall j: nat | j < |s.tasks| && MayRun(s, j)
      ensures MayRun(s, n.current.value) && Ahead(c, n.current.value, |s.tasks|) <= Ahead(c, j, |s.tasks|)
    {
      ChoiceIsNearest(s, regs, j);
    }
    if Choice(s, regs).Some? {
      assert MayRun(s, n.current.value);
    }
  }

  /** What `task_switch` leaves behind, block by block: the task it picked is RUNNING; a RUNNING task it
      leaves is READY, with the interrupted frame; every other block, and the rest of the state, is as it
      was. It returns the frame of the task it picked, or the interrupted one for the task interrupted. */
  lemma SwitchExactly(s: Sched, regs: Word)
    requires Inv(s) && |s.tasks| > 0
    ensures var c := s.current.value;
            var (n, frame) := Switch(s, regs);
            && n == s.(tasks := n.tasks, current := n.current) && |n.tasks| == |s.tasks|
            && n.current.Some? && n.current.value < |s.tasks|
            && var next := n.current.value;
               var interrupted := s.tasks[c].state == RUNNING;
               && (forall i: nat | i < |s.tasks| && i != next && i != c :: n.tasks[i] == s.tasks[i])
               && (next != c ==> n.tasks[next] == s.tasks[next].(state := RUNNING) && frame == s.tasks[next].regs)
               && (next != c ==> n.tasks[c] == if interrupted then s.tasks[c].(state := READY, regs := regs) else s.tasks[c])
               && (next == c ==> n.tasks[c] == s.tasks[c].(state := RUNNING, regs := if interrupted then regs else s.tasks[c].regs))
               && (next == c && interrupted ==> frame == regs)
               && (next == c && !interrupted ==> frame == if MayRun(s, c) then s.tasks[c].regs else regs)
  {
    SwitchEffect(s, regs);
    if MayRun(s, s.current.value) {
      ChoiceIsNearest(s, regs, s.current.value);
    }
  }

  /** What `task_create` adds: one block behind the others, READY for the switch, or RUNNING and current
      when it is the first of all; nothing else changes but the next PID. With 64 tasks, nothing is added. */
  lemma CreateExactly(s: Sched, stack: Word, size: Word)
    requires Inv(s) && stack != NULL
    ensures |s.tasks| < 64 ==>
              var n := Create(s, true, stack, size);
              var i := |s.tasks|;
              && n == s.(tasks := n.tasks, current := n.current, nextPid := s.nextPid + 1)
              && |n.tasks| == i + 1 && n.tasks[..i] == s.tasks
              && n.tasks[i].pid == s.nextPid != 0 && n.tasks[i].stackBase == stack && n.tasks[i].stackSize == size
              && n.tasks[i].regs == FrameAddress(stack, size)
              && (s.current.Some? ==> n.tasks[i].state == READY && n.current == s.current)
              && (s.current.None? ==> n.tasks[i].state == RUNNING && n.current == Some(i))
    ensures |s.tasks| >= 64 ==> Create(s, true, stack, size) == s
    ensures Apply(s, EvCreate(true, stack, size)) == Create(s, true, stack, size)
    ensures Create(s, false, stack, size) == Create(s, true, NULL, size) == s
  {
  }

  /** What `task_sleep` does: the current task, and nothing else, sleeps until the tick asked for. */
  lemma SleepExactly(s: Sched, d: Word)
    requires Inv(s) && s.current.Some? && s.ticks + d < TWO_64
    ensures var c, n := s.current.value, Sleep(s, d);
            && n == s.(tasks := n.tasks) && |n.tasks| == |s.tasks|
            && n.tasks[c] == s.tasks[c].(state := SLEEPING, sleepUntil := s.ticks + d)
            && forall i: nat | i < |s.tasks| && i != c :: n.tasks[i] == s.tasks[i]
    ensures Apply(s, EvSleep(d)) == Sleep(s, d)
  {
  }

  /** What `task_exit` does: the current task, and nothing else, becomes a ZOMBIE. */
  lemma ExitExactly(s: Sched)
    requires Inv(s) && s.current.Some?
    ensures var c, n := s.current.value, Exit(s);
            && n == s.(tasks := n.tasks) && |n.tasks| == |s.tasks|
            && n.tasks[c] == s.tasks[c].(state := ZOMBIE)
            && forall i: nat | i < |s.tasks| && i != c :: n.tasks[i] == s.tasks[i]
    ensures Apply(s, EvExit) == Exit(s)
  {
  }

  /** `task_init` starts with the idle task alone, RUNNING in slot 0 under PID 0, or with no task. */
  lemma InitExactly(s: Sched, tcbOk: bool)
    requires Inv(s)
    ensures var n := Init(s, tcbOk);
            && n == s.(tasks := n.tasks, current := n.current, nextPid := 1)
            && (tcbOk ==> |n.tasks| == 1 && n.current == Some(0) && n.tasks[0].pid == 0 && n.tasks[0].state == RUNNING)
            && (!tcbOk ==> n.tasks == [] && n.current == None)
    ensures Apply(s, EvInit(tcbOk)) == Init(s, tcbOk)
  {
  }

  /** The tick counts itself and, unless a switch is due, does nothing else; switching the scheduler on
      does that alone. */
  lemma TimerExactly(s: Sched, regs: Word)
    requires Inv(s) && regs != NULL && s.ticks + 1 < TWO_64
    ensures !(s.enabled && (s.ticks + 1) % 10 == 0) ==> Tick(s, regs) == (s.(ticks := s.ticks + 1), regs)
    ensures s.enabled && (s.ticks + 1) % 10 == 0 ==> Tick(s, regs) == Switch(s.(ticks := s.ticks + 1), regs)
    ensures Apply(s, EvTick(regs)) == Tick(s, regs).0
    ensures Apply(s, EvEnable) == s.(enabled := true)
  {
    TickResumesChoice(s, regs);
  }

  // -------------------------------------------------------------------- safety

  lemma SavedTasks(s: Sched, regs: Word)
    requires Inv(s) && regs != NULL
    ensures forall i: nat | i < |s.tasks| ::
              var t := Save(s, regs).tasks[i];
              && t.pid == s.tasks[i].pid && t.state != RUNNING && t.state != BLOCKED
              && (t.pid != 0 ==> t.regs != NULL)
  {
  }

  lemma SwitchSafe(s: Sched, regs: Word)
    requires Inv(s) && regs != NULL
    ensures Inv(Switch(s, regs).0) && Switch(s, regs).1 != NULL
  {
    if |s.tasks| > 0 {
      SwitchEffect(s, regs);
      SavedTasks(s, regs);
      hide Switch, Choice, Save;
      assert PidOffset(Switch(s, regs).0) == PidOffset(s);
    }
  }

  lemma CreateSafe(s: Sched, tcbOk: bool, stack: Word, size: Word)
    requires Inv(s) && (stack != NULL ==> FrameAddress(stack, size) != NULL)
    ensures Inv(Create(s, tcbOk, stack, size))
  {
    hide FrameAddress;
  }

  lemma SleepExitSafe(s: Sched, n: Word)
    requires Inv(s)
    ensures Inv(Sleep(s, n)) && Inv(Exit(s))
  {
  }

  /** Every event keeps the invariant: every RUNNING task is the current one, PIDs are distinct,
      every task but the idle one has a frame to resume. */
  lemma ApplySafe(s: Sched, e: Event)
    requires Inv(s) && Sane(e)
    ensures Inv(Apply(s, e))
  {
    hide Switch, Choice, Save;
    match e
    case EvInit(_) =>
    case EvCreate(tcbOk, stack, size) => CreateSafe(s, tcbOk, stack, size);
    case EvSleep(n) => SleepExitSafe(s, n);
    case EvExit => SleepExitSafe(s, 0);
    case EvTick(regs) =>
      if SwitchDue(s) {
        SwitchSafe(CountTick(s), regs);
      }
    case EvEnable =>
  }

  /** On a tick `irq_handler` returns exactly what `task_switch` returned, and never NULL. */
  lemma TickResumesChoice(s: Sched, regs: Word)
    requires Inv(s) && regs != NULL
    ensures Tick(s, regs).1 != NULL
    ensures SwitchDue(s) ==> Tick(s, regs) == Switch(CountTick(s), regs)
    ensures !SwitchDue(s) ==> Tick(s, regs) == (CountTick(s), regs)
  {
    if SwitchDue(s) {
      SwitchSafe(CountTick(s), regs);
    }
  }

  /** After each call the current task is RUNNING. */
  lemma SwitchLeavesRunning(s: Sched, regs: Word)
    requires Inv(s) && |s.tasks| > 0
    ensures var n := Switch(s, regs).0; n.current.Some? && n.current.value < |n.tasks| && n.tasks[n.current.value].state == RUNNING
  {
    SwitchEffect(s, regs);
  }

  /** Once left, the idle task is never chosen again. */
  lemma IdleStaysLeft(s: Sched, e: Event)
    requires Inv(s) && Sane(e) && !e.EvInit?
    requires s.current.Some? && s.tasks[s.current.value].pid != 0
    ensures var n := Apply(s, e); n.current.Some? && n.current.value < |n.tasks| && n.tasks[n.current.value].pid != 0
  {
    if e.EvTick? && SwitchDue(s) {
      SwitchEffect(CountTick(s), e.regs);
    }
  }

  /** A ZOMBIE that is not current keeps its TCB and never becomes current again. */
  lemma ZombieStaysDead(s: Sched, e: Event, i: nat)
    requires Inv(s) && Sane(e) && !e.EvInit? && i < |s.tasks|
    requires s.tasks[i].state == ZOMBIE && s.current != Some(i)
    ensures var n := Apply(s, e); i < |n.tasks| && n.tasks[i] == s.tasks[i] && n.current != Some(i)
  {
    if e.EvTick? && SwitchDue(s) {
      SwitchEffect(CountTick(s), e.regs);
    }
  }

  /** A task that is still current although it exited or went to sleep is set RUNNING again by a
      switch exactly when no other task can run and, if it sleeps, exactly then even before its
      deadline. */
  lemma CurrentRevivedExactly(s: Sched, regs: Word)
    requires Inv(s) && |s.tasks| > 0
    requires var t := s.tasks[s.current.value]; t.state == ZOMBIE || (t.state == SLEEPING && s.ticks < t.sleepUntil)
    ensures var c := s.current.value;
            Switch(s, regs).0.current == Some(c) && Switch(s, regs).0.tasks[c].state == RUNNING
            <==> forall j: nat | j < |s.tasks| && j != c :: !Eligible(s.tasks[j], s.ticks)
  {
    var c := s.current.value;
    SwitchEffect(s, regs);
    if j: nat :| j < |s.tasks| && j != c && Eligible(s.tasks[j], s.ticks) {
      ChoiceIsNearest(s, regs, j);
    }
  }

  /** A sleeping task that is not current is resumed by no event before its deadline, and no event
      changes its TCB until a switch resumes it. */
  lemma SleeperWaits(s: Sched, e: Event, i: nat)
    requires Inv(s) && Sane(e) && !e.EvInit? && i < |s.tasks|
    requires s.tasks[i].state == SLEEPING && s.current != Some(i)
    ensures var n := Apply(s, e);
            && i < |n.tasks|
            && ((n.tasks[i] == s.tasks[i] && n.current != Some(i))
                || (e.EvTick? && SwitchDue(s) && n.ticks >= s.tasks[i].sleepUntil && n.current == Some(i)
                    && n.tasks[i] == s.tasks[i].(state := RUNNING)))
  {
    if e.EvTick? && SwitchDue(s) {
      SwitchEffect(CountTick(s), e.regs);
    }
  }

  // ------------------------------------------------------------ context switching

  /** After a switch to another task the frame of the old one is the interrupted frame exactly when
      the task was still RUNNING (or was interrupted at the frame already stored); a task that went
      to sleep or exited first keeps its older frame. */
  lemma FrameSavedExactly(s: Sched, regs: Word)
    requires Inv(s) && |s.tasks| > 0 && Switch(s, regs).0.current != s.current
    ensures var c := s.current.value;
            Switch(s, regs).0.tasks[c].regs == regs <==> s.tasks[c].state == RUNNING || s.tasks[c].regs == regs
  {
    SwitchEffect(s, regs);
  }

  /** No event touches the saved frame of a task that is not current and stays not current. */
  lemma FrameKept(s: Sched, e: Event, i: nat)
    requires Inv(s) && Sane(e) && !e.EvInit? && i < |s.tasks| && s.current != Some(i)
    ensures var n := Apply(s, e); i < |n.tasks| && n.tasks[i].regs == s.tasks[i].regs
    ensures Apply(s, e).current == Some(i) ==> e.EvTick? && Tick(s, e.regs).1 == s.tasks[i].regs
  {
    if e.EvTick? {
      TickResumesChoice(s, e.regs);
      if SwitchDue(s) {
        SwitchEffect(CountTick(s), e.regs);
      }
    }
  }

  lemma AlignDown(a: nat, b: nat, r: nat)
    requires r < 16 && 16 * a + 16 * b + r < TWO_64 && FRAME_SIZE < 16 * a
    ensures FrameAddress(16 * a, 16 * b + r) == 16 * a + 16 * b - FRAME_SIZE
  {
    var top := 16 * a + (16 * b + r);
    assert top % 16 == r;
    assert top % TWO_64 == top;
  }

  /** The first frame of a task is 16-aligned; it lies inside the task's own stack exactly when the
      stack has room for one frame. */
  lemma FirstFrameInside(stack: Word, size: Word)
    requires stack % 16 == 0 && FRAME_SIZE < stack && stack + size < TWO_64
    ensures FrameAddress(stack, size) % 16 == 0 && FrameAddress(stack, size) != NULL
    ensures var f := FrameAddress(stack, size); stack <= f && f + FRAME_SIZE <= stack + size <==> size >= FRAME_SIZE
    ensures var f := FrameAddress(stack, size); f + 208 <= stack + size < f + 208 + 16
  {
    AlignDown(stack / 16, size / 16, size % 16);
    assert 16 * (stack / 16) == stack && 16 * (size / 16) + size % 16 == size;
    assert FRAME_SIZE == 16 * 13;
    assert (16 * (stack / 16 + size / 16 - 13)) % 16 == 0;
  }
}
