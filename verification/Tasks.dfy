/** src/kernel/task.c, pit.c and the IRQ dispatch of isr.c on task objects in a fixed-size list,
    proved against the functions of Scheduler. */
module Tasks {
  import opened Words
  import opened PageTables
  import opened Scheduler

  datatype Handler = NoHandler | TimerHandler | OtherHandler

  class Task {
    var pid: nat
    var state: TaskState
    var regs: Word
    var stackBase: Word
    var stackSize: Word
    var sleepUntil: Word

    constructor (pid: nat, state: TaskState, regs: Word, stackBase: Word, stackSize: Word)
      ensures Value() == Tcb(pid, state, regs, stackBase, stackSize, 0)
    {
      this.pid := pid;
      this.state := state;
      this.regs := regs;
      this.stackBase := stackBase;
      this.stackSize := stackSize;
      sleepUntil := 0;
    }

    ghost function Value(): Tcb
      reads this
    {
      Tcb(pid, state, regs, stackBase, stackSize, sleepUntil)
    }
  }

  ghost function Values(ts: seq<Task>): (v: seq<Tcb>)
    reads ts
    ensures |v| == |ts| && forall i | 0 <= i < |ts| :: v[i] == ts[i].Value()
  {
    seq(|ts|, i requires 0 <= i < |ts| reads ts => ts[i].Value())
  }

  /** The end of the stack, rounded down to 16 bytes, less one register frame. */
  method FrameTop(stack: Word, size: Word) returns (top: Word)
    ensures top == FrameAddress(stack, size)
  {
    top := (stack + size) % TWO_64;
    Masks(top);
    top := And(top, TWO_64 - 16);
    top := (top + TWO_64 - FRAME_SIZE) % TWO_64;
  }

  class TaskSystem {
    const taskList: array<Task?>
    const irqHandlers: array<Handler>
    var taskCount: nat
    var currentTask: Task?
    var nextPid: nat
    var pitTicks: Word
    var schedulerEnabled: bool
    var newTaskRegs: Word
    ghost var tasks: seq<Task> // the used part of taskList
    ghost var at: nat // where currentTask stands in it

    ghost predicate Valid()
      reads this, taskList
    {
      && taskList.Length == MAX_TASKS && irqHandlers.Length == 16
      && taskCount == |tasks| <= MAX_TASKS
      && (forall i | 0 <= i < taskCount :: taskList[i] == tasks[i])
      && (forall i, j | 0 <= i < j < |tasks| :: tasks[i] != tasks[j])
      && (currentTask != null ==> at < |tasks| && tasks[at] == currentTask)
    }

    ghost function State(): Sched
      reads this, tasks
    {
      Sched(Values(tasks), if currentTask == null then None else Some(at), nextPid, pitTicks, schedulerEnabled)
    }

    constructor ()
      ensures Valid() && State() == PowerOn() && fresh(taskList) && fresh(irqHandlers)
      ensures forall i | 0 <= i < 16 :: irqHandlers[i] == NoHandler
    {
      taskList := new Task?[MAX_TASKS](_ => null);
      irqHandlers := new Handler[16](_ => NoHandler);
      taskCount := 0;
      currentTask := null;
      nextPid := 1;
      pitTicks := 0;
      schedulerEnabled := false;
      newTaskRegs := NULL;
      tasks := [];
      at := 0;
    }

    /** Puts a task behind the last one of the list. */
    method Append(t: Task)
      requires Valid() && taskCount < MAX_TASKS && t !in tasks
      modifies this`taskCount, this`tasks, taskList
      ensures Valid() && tasks == old(tasks) + [t] && taskCount == old(taskCount) + 1
    {
      taskList[taskCount] := t;
      taskCount := taskCount + 1;
      tasks := tasks + [t];
    }

    /** `task_init`; `tcbOk` is the answer of `kmalloc`. */
    method Init(tcbOk: bool)
      requires Valid()
      modifies this, taskList
      ensures Valid() && State() == Scheduler.Init(old(State()), tcbOk)
      ensures fresh(set t | t in tasks)
    {
      var i := 0;
      while i < taskList.Length
        invariant 0 <= i <= taskList.Length
        modifies taskList
      {
        taskList[i] := null;
        i := i + 1;
      }
      taskCount := 0;
      tasks := [];
      currentTask := null;
      nextPid := 1;
      if tcbOk {
        var kernelTask := new Task(0, RUNNING, NULL, 0, 0);
        Append(kernelTask);
        currentTask := kernelTask;
        at := 0;
      }
      assert State().tasks == Scheduler.Init(old(State()), tcbOk).tasks;
    }

    /** `task_create`; `tcbOk` and `stack` are the answers of the two `kmalloc` calls. */
    method Create(tcbOk: bool, stack: Word, size: Word) returns (task: Task?)
      requires Valid()
      modifies this, taskList
      ensures Valid() && State() == Scheduler.Create(old(State()), tcbOk, stack, size)
      ensures task != null <==> old(taskCount) < MAX_TASKS && tcbOk && stack != NULL
      ensures task != null ==> fresh(task) && tasks == old(tasks) + [task]
      ensures task == null ==> tasks == old(tasks)
    {
      hide FrameAddress, Values, Scheduler.Create, Scheduler.Enlist;
      CreateInSteps(State(), tcbOk, stack, size);
      if taskCount >= MAX_TASKS || !tcbOk || stack == NULL {
        return null;
      }
      var top := FrameTop(stack, size);
      var t := new Task(nextPid, READY, top, stack, size);
      Enlist(t);
      return t;
    }

    method Enlist(t: Task)
      requires Valid() && taskCount < MAX_TASKS && t !in tasks && t.pid == nextPid && t.state == READY
      modifies this`taskCount, this`tasks, this`nextPid, this`currentTask, this`at, taskList, t`state
      ensures Valid() && tasks == old(tasks) + [t]
      ensures State() == Scheduler.Enlist(old(State()), old(t.Value()))
    {
      hide Values;
      AddTask(t);
      if currentTask == null {
        MakeCurrent(t);
      }
    }

    /** Counts the PID and appends the task. */
    method AddTask(t: Task)
      requires Valid() && taskCount < MAX_TASKS && t !in tasks
      modifies this`taskCount, this`tasks, this`nextPid, taskList
      ensures Valid() && tasks == old(tasks) + [t] && taskCount == old(taskCount) + 1
      ensures State() == old(State()).(tasks := old(State()).tasks + [t.Value()], nextPid := old(nextPid) + 1)
    {
      ghost var before := Values(tasks);
      nextPid := nextPid + 1;
      Append(t);
      assert Values(tasks) == before + [t.Value()];
    }

    /** The first task of all starts as the running one. */
    method MakeCurrent(t: Task)
      requires Valid() && currentTask == null && taskCount > 0 && tasks[taskCount - 1] == t
      modifies this`currentTask, this`at, t`state
      ensures Valid() && currentTask == t
      ensures var before := old(State());
              var last := taskCount - 1;
              State() == SetTask(before, last, old(t.Value()).(state := RUNNING)).(current := Some(last))
    {
      currentTask := t;
      at := taskCount - 1;
      t.state := RUNNING;
      assert State().tasks == SetTask(old(State()), taskCount - 1, old(t.Value()).(state := RUNNING)).tasks;
    }

    /** `task_sleep` */
    method Sleep(n: Word)
      requires Valid()
      modifies tasks
      ensures Valid() && State() == Scheduler.Sleep(old(State()), n)
    {
      if currentTask != null {
        currentTask.state := SLEEPING;
        currentTask.sleepUntil := (pitTicks + n) % TWO_64;
      }
      assert State().tasks == Scheduler.Sleep(old(State()), n).tasks;
    }

    /** `task_exit` */
    method Exit()
      requires Valid()
      modifies tasks
      ensures Valid() && State() == Scheduler.Exit(old(State()))
    {
      if currentTask != null {
        currentTask.state := ZOMBIE;
      }
      assert State().tasks == Scheduler.Exit(old(State())).tasks;
    }

    /** The first step of `task_switch`: the running task's frame is stored. */
    method SaveFrame(regs: Word)
      requires Valid()
      modifies tasks
      ensures Valid() && State() == Save(old(State()), regs)
    {
      if currentTask != null && currentTask.state == RUNNING {
        currentTask.regs := regs;
        currentTask.state := READY;
      }
      assert State().tasks == Save(old(State()), regs).tasks;
    }

    /** The first loop of `task_switch`: where the search starts. */
    method FindStart() returns (start: nat)
      requires Valid() && taskCount > 0
      ensures start == StartIndex(State())
    {
      start := 0;
      var i := 0;
      while i < taskCount
        invariant 0 <= i <= taskCount && start == 0
        invariant currentTask != null ==> i <= at
      {
        if taskList[i] == currentTask {
          start := (i + 1) % taskCount;
          return;
        }
        i := i + 1;
      }
    }

    /** The second loop of `task_switch`: the first task in search order that may run. */
    method FindNext(start: nat) returns (found: Option<nat>)
      requires Valid() && taskCount > 0 && start == StartIndex(State())
      ensures found.Some? ==> found.value < |tasks|
      ensures found == match Search(State(), 0) case None => None case Some(o) => Some(SlotAt(State(), o))
    {
      var i := 0;
      while i < taskCount
        invariant 0 <= i <= taskCount
        invariant Search(State(), 0) == Search(State(), i)
      {
        var idx := (start + i) % taskCount;
        var t := taskList[idx];
        assert t == tasks[idx] && Values(tasks)[idx] == t.Value();
        if t.pid != 0 {
          if t.state == READY {
            return Some(idx);
          }
          if t.state == SLEEPING && pitTicks >= t.sleepUntil {
            return Some(idx);
          }
        }
        i := i + 1;
      }
      return None;
    }

    /** Sets the state of the task in slot j to RUNNING. */
    method Run(t: Task, ghost j: nat)
      requires Valid() && j < taskCount && tasks[j] == t
      modifies tasks
      ensures Valid() && State() == SetTask(old(State()), j, old(State()).tasks[j].(state := RUNNING))
    {
      t.state := RUNNING;
      assert State().tasks == SetTask(old(State()), j, old(State()).tasks[j].(state := RUNNING)).tasks;
    }

    /** `task_switch`. A sleeper that is picked goes straight to RUNNING; the source sets it READY
        on the way. */
    method Switch(currentRegs: Word) returns (regs: Word)
      requires Valid()
      modifies this`currentTask, this`at, tasks
      ensures Valid() && (State(), regs) == Scheduler.Switch(old(State()), currentRegs)
    {
      hide Save, Search, SlotAt, StartIndex, Eligible;
      if taskCount == 0 {
        return currentRegs;
      }
      SaveFrame(currentRegs);
      ghost var saved := State();
      var start := FindStart();
      var found := FindNext(start);
      if found.None? {
        if currentTask != null {
          Run(currentTask, at);
        }
        return currentRegs;
      }
      var next := taskList[found.value];
      Dispatch(next, found.value);
      return next.regs;
    }

    /** The switch to another task: it becomes current and RUNNING. */
    method Dispatch(t: Task, ghost j: nat)
      requires Valid() && j < taskCount && tasks[j] == t
      modifies this`currentTask, this`at, tasks
      ensures Valid()
      ensures State() == SetTask(old(State()), j, old(State()).tasks[j].(state := RUNNING)).(current := Some(j))
      ensures t.regs == old(State()).tasks[j].regs
    {
      ghost var before := State();
      currentTask := t;
      at := j;
      assert State() == before.(current := Some(j));
      Run(t, j);
      assert State().tasks[j] == t.Value();
    }

    /** `pit_enable_scheduler` */
    method EnableScheduler()
      requires Valid()
      modifies this`schedulerEnabled
      ensures Valid() && State() == Apply(old(State()), EvEnable)
    {
      schedulerEnabled := true;
    }

    /** `pit_irq_handler` */
    method PitIrqHandler(regs: Word)
      requires Valid() && newTaskRegs == NULL
      modifies this, tasks
      ensures Valid() && irqHandlers[..] == old(irqHandlers[..]) && tasks == old(tasks)
      ensures (State(), if newTaskRegs != NULL then newTaskRegs else regs) == Tick(old(State()), regs)
    {
      hide Scheduler.Switch;
      pitTicks := (pitTicks + 1) % TWO_64;
      assert State() == CountTick(old(State()));
      if schedulerEnabled && pitTicks % 10 == 0 {
        var next := Switch(regs);
        if next != regs {
          newTaskRegs := next; // irq_set_new_stack
        }
      }
    }

    /** `irq_handler`: the stub passes the vectors 32 to 47. Only the timer handler calls the
        scheduler; the end-of-interrupt port writes are not modelled. */
    method IrqHandler(intNo: nat, regs: Word) returns (resume: Word)
      requires Valid() && 32 <= intNo < 48
      modifies this, tasks
      ensures Valid() && irqHandlers[..] == old(irqHandlers[..]) && tasks == old(tasks)
      ensures (State(), resume) == if old(irqHandlers[intNo - 32]) == TimerHandler then Tick(old(State()), regs) else (old(State()), regs)
    {
      var irq := intNo - 32;
      newTaskRegs := NULL;
      if irqHandlers[irq] == TimerHandler {
        PitIrqHandler(regs);
      }
      return if newTaskRegs != NULL then newTaskRegs else regs;
    }

    /** `irq_install_handler` and `irq_uninstall_handler` ignore numbers outside the table. */
    method InstallHandler(irq: int, handler: Handler)
      requires Valid()
      modifies irqHandlers
      ensures Valid()
      ensures irqHandlers[..] == if 0 <= irq < 16 then old(irqHandlers[..])[irq := handler] else old(irqHandlers[..])
    {
      if 0 <= irq < 16 {
        irqHandlers[irq] := handler;
      }
    }
  }
}
