/** Whole runs of the scheduler: safety, bounded waiting, sleep deadlines and transparent context
    switches over any sequence of events. */
module SchedulerRuns {
  import opened Words
  import opened PageTables
  import opened Scheduler

  /** Events with real frames, and no second `task_init`. */
  predicate Normal(evs: seq<Event>) {
    forall i | 0 <= i < |evs| :: Sane(evs[i]) && !evs[i].EvInit?
  }

  ghost function After(s: Sched, evs: seq<Event>): (n: Sched)
    requires Inv(s) && forall i | 0 <= i < |evs| :: Sane(evs[i])
    ensures Inv(n)
    decreases |evs|
  {
    if evs == [] then s
    else
      ApplySafe(s, evs[0]);
      After(Apply(s, evs[0]), evs[1..])
  }

  /** How many times the run calls `task_switch`. */
  ghost function Switches(s: Sched, evs: seq<Event>): nat
    requires Inv(s) && Normal(evs)
    decreases |evs|
  {
    if evs == [] then 0
    else
      ApplySafe(s, evs[0]);
      (if evs[0].EvTick? && SwitchDue(s) then 1 else 0) + Switches(Apply(s, evs[0]), evs[1..])
  }

  function Ticks(evs: seq<Event>): nat {
    if evs == [] then 0 else (if evs[0].EvTick? then 1 else 0) + Ticks(evs[1..])
  }

  // ------------------------------------------------------------- bounded waiting

  /** A task that a switch may pick, but that is not running. */
  ghost predicate Waiting(s: Sched, j: nat) {
    && j < |s.tasks| && s.current != Some(j) && s.tasks[j].pid != 0
    && (s.tasks[j].state == READY || (s.tasks[j].state == SLEEPING && s.ticks >= s.tasks[j].sleepUntil))
  }

  /** Cyclic distance from the search start, plus room for tasks that may still be created. */
  ghost function Potential(s: Sched, j: nat): int
    requires |s.tasks| > 0 && j < |s.tasks|
  {
    Distance(s, j) + (MAX_TASKS - |s.tasks|)
  }

  /** The current task is farthest from the search start, so nobody else waits more than 62 places. */
  lemma PotentialBound(s: Sched, j: nat)
    requires Inv(s) && Waiting(s, j)
    ensures 0 <= Potential(s, j) <= MAX_TASKS - 2
  {
    ModStart(s);
  }

  /** A switch either runs the waiting task or brings it strictly nearer. */
  lemma SwitchProgress(s: Sched, regs: Word, j: nat)
    requires Inv(s) && Waiting(s, j)
    ensures var n := Switch(s, regs).0;
            && j < |n.tasks|
            && ((n.current == Some(j) && n.tasks[j].state == RUNNING)
                || (Waiting(n, j) && Potential(n, j) < Potential(s, j)))
  {
    SwitchEffect(s, regs);
    ChoiceIsNearest(s, regs, j);
    var n := Switch(s, regs).0;
    var c := Choice(s, regs).value;
    if c != j {
      ModStart(s);
      ModStart(n);
    }
  }

  /** No other event takes the waiting task out of the queue or moves it back, `task_create`
      included. */
  lemma EventKeepsWaiting(s: Sched, e: Event, j: nat)
    requires Inv(s) && Sane(e) && !e.EvInit? && Waiting(s, j) && s.ticks + 1 < TWO_64
    requires !(e.EvTick? && SwitchDue(s))
    ensures Waiting(Apply(s, e), j) && Potential(Apply(s, e), j) <= Potential(s, j)
  {
    var n := Apply(s, e);
    if n.current.Some? {
      ModStart(s);
      ModStart(n);
    }
  }

  lemma TickBound(s: Sched, e: Event)
    requires Inv(s) && !e.EvInit? && s.ticks + 1 < TWO_64
    ensures Apply(s, e).ticks == s.ticks + if e.EvTick? then 1 else 0
    ensures s.enabled ==> Apply(s, e).enabled
  {
    hide Switch;
    if e.EvTick? && SwitchDue(s) {
      SwitchKeepsTimer(CountTick(s), e.regs);
    }
  }

  lemma SwitchKeepsTimer(s: Sched, regs: Word)
    requires Inv(s)
    ensures Switch(s, regs).0.ticks == s.ticks && Switch(s, regs).0.enabled == s.enabled
  {
    if |s.tasks| > 0 {
      SwitchEffect(s, regs);
    }
  }

  lemma WaitingOneTickLater(s: Sched, j: nat)
    requires Inv(s) && Waiting(s, j) && s.ticks + 1 < TWO_64
    ensures Inv(CountTick(s)) && Waiting(CountTick(s), j) && Potential(CountTick(s), j) == Potential(s, j)
  {
  }

  /** One event: the task runs, or it waits on and every switch brings it nearer. */
  lemma EventProgress(s: Sched, e: Event, j: nat)
    requires Inv(s) && Sane(e) && !e.EvInit? && Waiting(s, j) && s.ticks + 1 < TWO_64
    ensures Inv(Apply(s, e)) && Apply(s, e).ticks <= s.ticks + 1
    ensures var n := Apply(s, e);
            var due := e.EvTick? && SwitchDue(s);
            || (due && n.current == Some(j) && j < |n.tasks| && n.tasks[j].state == RUNNING)
            || (Waiting(n, j) && Potential(n, j) <= Potential(s, j) - if due then 1 else 0)
  {
    hide Switch, Create, Sleep, Exit, Distance, Eligible;
    ApplySafe(s, e);
    TickBound(s, e);
    if e.EvTick? && SwitchDue(s) {
      WaitingOneTickLater(s, j);
      SwitchProgress(CountTick(s), e.regs, j);
      TickResumesChoice(s, e.regs);
    } else {
      EventKeepsWaiting(s, e, j);
    }
  }

  /** Prefixes of a run, one event at a time. */
  lemma Prefix(s: Sched, evs: seq<Event>, k: nat)
    requires Inv(s) && Normal(evs) && 0 < k <= |evs|
    ensures Inv(Apply(s, evs[0])) && Normal(evs[1..]) && Normal(evs[..k])
    ensures After(s, evs[..k]) == After(Apply(s, evs[0]), evs[1..][..k - 1])
    ensures Switches(s, evs[..k]) == (if evs[0].EvTick? && SwitchDue(s) then 1 else 0) + Switches(Apply(s, evs[0]), evs[1..][..k - 1])
  {
    hide Apply, SwitchDue;
    ApplySafe(s, evs[0]);
    assert evs[..k][1..] == evs[1..][..k - 1] && evs[..k][0] == evs[0];
  }

  /** Bounded waiting: a task that may run is RUNNING after at most Potential + 1 calls of
      `task_switch`, whatever else happens in between. The witness is the length of the prefix. */
  lemma {:induction false} RunsAfterSwitches(s: Sched, evs: seq<Event>, j: nat) returns (k: nat)
    requires Inv(s) && Normal(evs) && Waiting(s, j) && s.ticks + |evs| < TWO_64
    requires Switches(s, evs) > Potential(s, j)
    ensures k <= |evs| && After(s, evs[..k]).current == Some(j)
    ensures j < |After(s, evs[..k]).tasks| && After(s, evs[..k]).tasks[j].state == RUNNING
    ensures Switches(s, evs[..k]) <= Potential(s, j) + 1
    decreases |evs|
  {
    hide Apply, SwitchDue, Distance;
    PotentialBound(s, j);
    var n := Apply(s, evs[0]);
    EventProgress(s, evs[0], j);
    if evs[0].EvTick? && SwitchDue(s) && n.current == Some(j) {
      k := 1;
      Prefix(s, evs, 1);
    } else {
      var rest := RunsAfterSwitches(n, evs[1..], j);
      k := rest + 1;
      Prefix(s, evs, k);
    }
  }

  /** Every task that may run does run within 63 calls of `task_switch`. */
  lemma BoundedWaiting(s: Sched, evs: seq<Event>, j: nat) returns (k: nat)
    requires Inv(s) && Normal(evs) && s.ticks + |evs| < TWO_64
    requires j < |s.tasks| && s.current != Some(j) && s.tasks[j].pid != 0
    requires s.tasks[j].state == READY || (s.tasks[j].state == SLEEPING && s.ticks >= s.tasks[j].sleepUntil)
    requires Switches(s, evs) >= MAX_TASKS - 1
    ensures k <= |evs| && After(s, evs[..k]).current == Some(j)
    ensures j < |After(s, evs[..k]).tasks| && After(s, evs[..k]).tasks[j].state == RUNNING
    ensures Switches(s, evs[..k]) <= MAX_TASKS - 1
  {
    PotentialBound(s, j);
    k := RunsAfterSwitches(s, evs, j);
  }

  // ------------------------------------------------------------- sleep deadlines

  lemma TenthTick(s: Sched)
    requires s.enabled && s.ticks + 1 < TWO_64
    ensures (s.ticks + 1) / 10 - s.ticks / 10 == if SwitchDue(s) then 1 else 0
  {
  }

  /** With the scheduler on, every tenth tick is a call of `task_switch`. */
  lemma {:induction false} SwitchesPerTicks(s: Sched, evs: seq<Event>)
    requires Inv(s) && Normal(evs) && s.enabled && s.ticks + |evs| < TWO_64
    ensures Switches(s, evs) == (s.ticks + Ticks(evs)) / 10 - s.ticks / 10
    ensures After(s, evs).ticks == s.ticks + Ticks(evs)
    decreases |evs|
  {
    if evs != [] {
      hide Apply, SwitchDue;
      ApplySafe(s, evs[0]);
      TickBound(s, evs[0]);
      TenthTick(s);
      SwitchesPerTicks(Apply(s, evs[0]), evs[1..]);
    }
  }

  /** Any waiting task runs within 630 ticks. */
  lemma RunsWithinTicks(s: Sched, evs: seq<Event>, j: nat) returns (k: nat)
    requires Inv(s) && Normal(evs) && s.enabled && s.ticks + |evs| < TWO_64
    requires j < |s.tasks| && s.current != Some(j) && s.tasks[j].pid != 0
    requires s.tasks[j].state == READY || (s.tasks[j].state == SLEEPING && s.ticks >= s.tasks[j].sleepUntil)
    requires Ticks(evs) >= 630
    ensures k <= |evs| && After(s, evs[..k]).current == Some(j)
    ensures j < |After(s, evs[..k]).tasks| && After(s, evs[..k]).tasks[j].state == RUNNING
    ensures After(s, evs[..k]).ticks <= s.ticks + 630
  {
    PotentialBound(s, j);
    var short := ShortPrefix(evs, 630);
    SwitchesPerTicks(s, evs[..short]);
    k := RunsAfterSwitches(s, evs[..short], j);
    assert evs[..short][..k] == evs[..k];
    TicksMonotone(evs[..short], k);
    SwitchesPerTicks(s, evs[..k]);
  }

  /** The shortest prefix with n ticks. */
  lemma {:induction false} ShortPrefix(evs: seq<Event>, n: nat) returns (k: nat)
    requires Ticks(evs) >= n
    ensures k <= |evs| && Ticks(evs[..k]) == n
    decreases |evs|
  {
    if n == 0 {
      k := 0;
    } else {
      var rest := ShortPrefix(evs[1..], n - if evs[0].EvTick? then 1 else 0);
      k := rest + 1;
      assert evs[..k][1..] == evs[1..][..rest] && evs[..k][0] == evs[0];
    }
  }

  lemma {:induction false} TicksMonotone(evs: seq<Event>, k: nat)
    requires k <= |evs|
    ensures Ticks(evs[..k]) <= Ticks(evs)
    decreases |evs|
  {
    if k > 0 {
      TicksMonotone(evs[1..], k - 1);
      assert evs[..k][1..] == evs[1..][..k - 1];
    }
  }

  /** Until the timer reaches its deadline a sleeping task that is not current stays exactly as it
      is. */
  lemma {:induction false} SleepsUntilDeadline(s: Sched, evs: seq<Event>, j: nat)
    requires Inv(s) && Normal(evs) && s.ticks + |evs| < TWO_64
    requires j < |s.tasks| && s.tasks[j].state == SLEEPING && s.current != Some(j)
    requires s.ticks + Ticks(evs) < s.tasks[j].sleepUntil
    ensures var n := After(s, evs);
            j < |n.tasks| && n.tasks[j] == s.tasks[j] && n.current != Some(j) && n.ticks == s.ticks + Ticks(evs)
    ensures s.enabled ==> After(s, evs).enabled
    decreases |evs|
  {
    if evs != [] {
      ApplySafe(s, evs[0]);
      TickBound(s, evs[0]);
      SleeperWaits(s, evs[0], j);
      SleepsUntilDeadline(Apply(s, evs[0]), evs[1..], j);
    }
  }

  /** A run is the run of its first k events followed by the rest. */
  lemma {:induction false} AfterSplit(s: Sched, evs: seq<Event>, k: nat)
    requires Inv(s) && Normal(evs) && k <= |evs|
    ensures After(s, evs) == After(After(s, evs[..k]), evs[k..])
    decreases |evs|
  {
    hide Apply;
    if k == 0 {
      assert evs[..0] == [] && evs[0..] == evs;
    } else {
      ApplySafe(s, evs[0]);
      AfterSplit(Apply(s, evs[0]), evs[1..], k - 1);
      assert evs[..k][1..] == evs[1..][..k - 1] && evs[..k][0] == evs[0];
      assert evs[k..] == evs[1..][k - 1..];
    }
  }

  lemma {:induction false} TicksSplit(evs: seq<Event>, k: nat)
    requires k <= |evs|
    ensures Ticks(evs) == Ticks(evs[..k]) + Ticks(evs[k..])
    decreases |evs|
  {
    if k == 0 {
      assert evs[..0] == [] && evs[0..] == evs;
    } else {
      TicksSplit(evs[1..], k - 1);
      assert evs[..k][1..] == evs[1..][..k - 1] && evs[..k][0] == evs[0];
      assert evs[k..] == evs[1..][k - 1..];
    }
  }

  /** Sleep deadline: a sleeping task that is not current is never resumed before its deadline, and
      with the scheduler on it is RUNNING at some moment within 630 ticks after it. */
  lemma SleepDeadline(s: Sched, evs: seq<Event>, j: nat) returns (k: nat)
    requires Inv(s) && Normal(evs) && s.enabled && s.ticks + |evs| < TWO_64
    requires j < |s.tasks| && s.tasks[j].pid != 0 && s.tasks[j].state == SLEEPING && s.current != Some(j)
    requires s.ticks <= s.tasks[j].sleepUntil && s.ticks + Ticks(evs) >= s.tasks[j].sleepUntil + 630
    ensures k <= |evs| && After(s, evs[..k]).current == Some(j)
    ensures j < |After(s, evs[..k]).tasks| && After(s, evs[..k]).tasks[j].state == RUNNING
    ensures s.tasks[j].sleepUntil <= After(s, evs[..k]).ticks <= s.tasks[j].sleepUntil + 630
    decreases |evs|
  {
    var wait := s.tasks[j].sleepUntil - s.ticks;
    if wait == 0 {
      k := RunsWithinTicks(s, evs, j);
      SwitchesPerTicks(s, evs[..k]);
    } else {
      var e := evs[0];
      ApplySafe(s, e);
      TickBound(s, e);
      SleeperWaits(s, e, j);
      var n := Apply(s, e);
      if n.current == Some(j) {
        k := 1;
        assert evs[..1][1..] == [] && evs[..1][0] == e;
        assert After(s, evs[..1]) == After(n, []);
      } else {
        var rest := SleepDeadline(n, evs[1..], j);
        k := rest + 1;
        assert evs[..k][1..] == evs[1..][..rest] && evs[..k][0] == e;
      }
    }
  }

  /** `task_sleep` sets the deadline the caller asked for exactly when the sum does not wrap. */
  lemma SleepSetsDeadline(s: Sched, n: Word)
    requires Inv(s) && s.current.Some?
    ensures var t := Sleep(s, n).tasks[s.current.value];
            t.state == SLEEPING && (t.sleepUntil == s.ticks + n <==> s.ticks + n < TWO_64)
  {
  }

  // ------------------------------------------------------ from the call to the effect

  /** A task that another one is switched in for is waiting, and runs again within 63 further calls of
      `task_switch`, whatever happens in between. */
  lemma PreemptedRunsAgain(s: Sched, regs: Word, evs: seq<Event>, i: nat) returns (k: nat)
    requires Inv(s) && regs != NULL && s.current == Some(i) && s.tasks[i].state == RUNNING && s.tasks[i].pid != 0
    requires Inv(Switch(s, regs).0) && Switch(s, regs).0.current != Some(i)
    requires Normal(evs) && s.ticks + |evs| < TWO_64 && Switches(Switch(s, regs).0, evs) >= 63
    ensures var n := Switch(s, regs).0;
            && k <= |evs| && After(n, evs[..k]).current == Some(i)
            && i < |After(n, evs[..k]).tasks| && After(n, evs[..k]).tasks[i].state == RUNNING
            && Switches(n, evs[..k]) <= 63
  {
    SwitchExactly(s, regs);
    k := BoundedWaiting(Switch(s, regs).0, evs, i);
  }

  /** A task just created while another one runs is RUNNING within 63 calls of `task_switch`. */
  lemma CreatedTaskRuns(s: Sched, stack: Word, size: Word, evs: seq<Event>) returns (k: nat)
    requires Inv(s) && s.current.Some? && |s.tasks| < MAX_TASKS && stack != NULL && FrameAddress(stack, size) != NULL
    requires Inv(Create(s, true, stack, size))
    requires Normal(evs) && s.ticks + |evs| < TWO_64 && Switches(Create(s, true, stack, size), evs) >= 63
    ensures var n := Create(s, true, stack, size);
            && k <= |evs| && After(n, evs[..k]).current == Some(|s.tasks|)
            && |s.tasks| < |After(n, evs[..k]).tasks| && After(n, evs[..k]).tasks[|s.tasks|].state == RUNNING
            && Switches(n, evs[..k]) <= 63
  {
    CreateExactly(s, stack, size);
    k := BoundedWaiting(Create(s, true, stack, size), evs, |s.tasks|);
  }

  /** Until the scheduler is switched on no event takes the processor from the current task. */
  lemma {:induction false} SwitchedOffStays(s: Sched, evs: seq<Event>)
    requires Inv(s) && Normal(evs) && !s.enabled && s.current.Some?
    requires forall i | 0 <= i < |evs| :: !evs[i].EvEnable?
    ensures After(s, evs).current == s.current && !After(s, evs).enabled
    decreases |evs|
  {
    if evs != [] {
      ApplySafe(s, evs[0]);
      SwitchedOffStays(Apply(s, evs[0]), evs[1..]);
    }
  }

  /** So from power-on and `task_init` the kernel task runs alone until then. */
  lemma KernelTaskRunsFirst(evs: seq<Event>)
    requires Normal(evs) && forall i | 0 <= i < |evs| :: !evs[i].EvEnable?
    ensures Inv(Apply(PowerOn(), EvInit(true)))
    ensures var n := After(Apply(PowerOn(), EvInit(true)), evs); n.current == Some(0) && n.tasks[0].pid == 0
  {
    var s := Apply(PowerOn(), EvInit(true));
    SwitchedOffStays(s, evs);
    KernelTaskFirst(s, evs);
  }

  /** The first block keeps its PID. */
  lemma {:induction false} KernelTaskFirst(s: Sched, evs: seq<Event>)
    requires Inv(s) && Normal(evs) && |s.tasks| > 0 && s.tasks[0].pid == 0
    ensures |After(s, evs).tasks| > 0 && After(s, evs).tasks[0].pid == 0
    decreases |evs|
  {
    if evs != [] {
      ApplySafe(s, evs[0]);
      PidStays(s, evs[0]);
      KernelTaskFirst(Apply(s, evs[0]), evs[1..]);
    }
  }

  lemma PidStays(s: Sched, e: Event)
    requires Inv(s) && Sane(e) && !e.EvInit? && |s.tasks| > 0
    ensures |Apply(s, e).tasks| > 0 && Apply(s, e).tasks[0].pid == s.tasks[0].pid
  {
    if e.EvTick? {
      TickResumesChoice(s, e.regs);
      SwitchEffect(CountTick(s), e.regs);
    }
  }

  /** The time between a call of the current task and the next switch: other events than that task's own
      calls, and no call of `task_switch`. */
  ghost predicate NoCallNoSwitch(s: Sched, evs: seq<Event>)
    requires Inv(s) && Normal(evs)
  {
    Switches(s, evs) == 0 && forall i | 0 <= i < |evs| :: !evs[i].EvSleep? && !evs[i].EvExit?
  }

  /** Until the next switch the current task and its block stay as its last call left them. */
  lemma {:induction false} CurrentUntilSwitch(s: Sched, evs: seq<Event>, i: nat)
    requires Inv(s) && Normal(evs) && s.current == Some(i) && NoCallNoSwitch(s, evs) && s.ticks + |evs| < TWO_64
    ensures var n := After(s, evs);
            i < |s.tasks| && i < |n.tasks| && n.current == Some(i) && n.tasks[i] == s.tasks[i] && s.ticks <= n.ticks <= s.ticks + |evs|
    decreases |evs|
  {
    if evs != [] {
      var e := evs[0];
      ApplySafe(s, e);
      TickBound(s, e);
      assert !(e.EvTick? && SwitchDue(s));
      CurrentUntilSwitch(Apply(s, e), evs[1..], i);
    }
  }

  /** From the call of `task_sleep(d)` to the wake-up: when the next call of `task_switch` switches away,
      the task runs again no earlier than d ticks after its call, and no later than 630 ticks after that
      moment, or after the switch, when that comes later. */
  lemma SleepCallWakesUp(s: Sched, d: Word, wait: seq<Event>, regs: Word, evs: seq<Event>, i: nat) returns (k: nat)
    requires Inv(s) && s.current == Some(i) && s.tasks[i].pid != 0 && s.ticks + d < TWO_64 && Inv(Sleep(s, d))
    requires Normal(wait) && NoCallNoSwitch(Sleep(s, d), wait) && regs != NULL
    requires s.ticks + |wait| + 1 + |evs| < TWO_64 && Normal(evs)
    requires var n := Tick(After(Sleep(s, d), wait), regs).0;
             && Inv(n) && n.current != Some(i) && n.enabled
             && n.ticks + Ticks(evs) >= s.ticks + d + 630 && Ticks(evs) >= 630
    ensures var n := Tick(After(Sleep(s, d), wait), regs).0;
            && k <= |evs| && After(n, evs[..k]).current == Some(i)
            && i < |After(n, evs[..k]).tasks| && After(n, evs[..k]).tasks[i].state == RUNNING
            && s.ticks + d <= After(n, evs[..k]).ticks
            && (After(n, evs[..k]).ticks <= s.ticks + d + 630 || After(n, evs[..k]).ticks <= n.ticks + 630)
  {
    SleepExactly(s, d);
    var a := After(Sleep(s, d), wait);
    CurrentUntilSwitch(Sleep(s, d), wait, i);
    var n := Tick(a, regs).0;
    LeftAsItWas(a, regs, i);
    if n.ticks <= s.ticks + d {
      k := SleepDeadline(n, evs, i);
    } else {
      k := RunsWithinTicks(n, evs, i);
      SwitchesPerTicks(n, evs[..k]);
    }
  }

  /** A tick that switches away from a task that is no longer RUNNING leaves its block alone. */
  lemma LeftAsItWas(s: Sched, regs: Word, i: nat)
    requires Inv(s) && regs != NULL && s.current == Some(i) && s.tasks[i].state != RUNNING && s.ticks + 1 < TWO_64
    requires Tick(s, regs).0.current != Some(i)
    ensures var n := Tick(s, regs).0; i < |n.tasks| && n.tasks[i] == s.tasks[i] && n.ticks == s.ticks + 1
  {
    hide Tick, Switch, Scheduler.MayRun;
    TimerExactly(s, regs);
    InvLater(s);
    SwitchExactly(s.(ticks := s.ticks + 1), regs);
  }

  lemma InvLater(s: Sched)
    requires Inv(s) && s.ticks + 1 < TWO_64
    ensures Inv(s.(ticks := s.ticks + 1))
  {
  }

  /** From the call of `task_exit` on: once the next switch has gone elsewhere the task never runs again. */
  lemma ExitCallIsFinal(s: Sched, wait: seq<Event>, regs: Word, evs: seq<Event>, i: nat)
    requires Inv(s) && s.current == Some(i) && Inv(Exit(s))
    requires Normal(wait) && NoCallNoSwitch(Exit(s), wait) && regs != NULL && s.ticks + |wait| + 1 < TWO_64 && Normal(evs)
    requires var n := Tick(After(Exit(s), wait), regs).0; Inv(n) && n.current != Some(i)
    ensures var n := After(Tick(After(Exit(s), wait), regs).0, evs);
            n.current != Some(i) && i < |n.tasks| && n.tasks[i].state == ZOMBIE
  {
    ExitExactly(s);
    CurrentUntilSwitch(Exit(s), wait, i);
    LeftAsItWas(After(Exit(s), wait), regs, i);
    ZombieNeverRuns(Tick(After(Exit(s), wait), regs).0, evs, i);
  }

  // ------------------------------------------------------------- tasks left behind

  /** A ZOMBIE that has been switched away from keeps its block and never runs again, in any run. */
  lemma {:induction false} ZombieNeverRuns(s: Sched, evs: seq<Event>, i: nat)
    requires Inv(s) && Normal(evs) && i < |s.tasks| && s.tasks[i].state == ZOMBIE && s.current != Some(i)
    ensures var n := After(s, evs); i < |n.tasks| && n.tasks[i] == s.tasks[i] && n.current != Some(i)
    decreases |evs|
  {
    if evs != [] {
      hide Apply;
      ApplySafe(s, evs[0]);
      ZombieStaysDead(s, evs[0], i);
      ZombieNeverRuns(Apply(s, evs[0]), evs[1..], i);
    }
  }

  /** Once left, the idle task never runs again, in any run. */
  lemma {:induction false} IdleNeverReturns(s: Sched, evs: seq<Event>)
    requires Inv(s) && Normal(evs) && s.current.Some? && s.tasks[s.current.value].pid != 0
    ensures var n := After(s, evs); n.current.Some? && n.current.value < |n.tasks| && n.tasks[n.current.value].pid != 0
    decreases |evs|
  {
    if evs != [] {
      hide Apply;
      ApplySafe(s, evs[0]);
      IdleStaysLeft(s, evs[0]);
      IdleNeverReturns(Apply(s, evs[0]), evs[1..]);
    }
  }

  // --------------------------------------------------------- transparent switches

  /** Task i is not current at any moment of the run. */
  ghost predicate NeverCurrent(s: Sched, evs: seq<Event>, i: nat)
    requires Inv(s) && Normal(evs)
  {
    forall k | 0 <= k <= |evs| :: After(s, evs[..k]).current != Some(i)
  }

  lemma {:induction false} FrameKeptThroughout(s: Sched, evs: seq<Event>, i: nat)
    requires Inv(s) && Normal(evs) && i < |s.tasks| && NeverCurrent(s, evs, i)
    ensures i < |After(s, evs).tasks| && After(s, evs).tasks[i].regs == s.tasks[i].regs
    ensures After(s, evs).current != Some(i)
    decreases |evs|
  {
    assert After(s, evs[..0]) == s;
    assert evs[..|evs|] == evs;
    if evs != [] {
      ApplySafe(s, evs[0]);
      FrameKept(s, evs[0], i);
      var n := Apply(s, evs[0]);
      forall k | 0 <= k <= |evs[1..]|
        ensures After(n, evs[1..][..k]).current != Some(i)
      {
        assert evs[..k + 1][1..] == evs[1..][..k] && evs[..k + 1][0] == evs[0];
        assert After(s, evs[..k + 1]) == After(n, evs[1..][..k]);
      }
      FrameKeptThroughout(n, evs[1..], i);
    }
  }

  /** Transparency: a task that was switched away from at the frame `regs` is resumed, whenever a later
      event makes it current again, at that frame exactly when it was RUNNING (or was interrupted at
      the frame already stored). A task that went to sleep or exited before the switch resumes at its
      older frame. */
  lemma ResumesWhereInterruptedExactly(s: Sched, regs: Word, n: Sched, evs: seq<Event>, e: Event)
    requires Inv(s) && |s.tasks| > 0
    requires Inv(n) && n == Switch(s, regs).0 && n.current != s.current
    requires Normal(evs) && NeverCurrent(n, evs, s.current.value)
    requires Sane(e) && !e.EvInit? && Apply(After(n, evs), e).current == s.current
    ensures var t := s.tasks[s.current.value];
            e.EvTick? && (Tick(After(n, evs), e.regs).1 == regs <==> t.state == RUNNING || t.regs == regs)
  {
    hide Apply, Tick, NeverCurrent;
    var i := s.current.value;
    SwitchEffect(s, regs);
    FrameSavedExactly(s, regs);
    FrameKeptThroughout(n, evs, i);
    FrameKept(After(n, evs), e, i);
  }
}
