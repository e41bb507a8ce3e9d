/** Runs from boot that reach the states in which the kernel's promises fail: none of the
    conditions in the other modules is about states that never occur. */
module Witnesses {
  import opened Basics
  import opened TaskIds
  import opened TaskModel
  import opened TaskSafety
  import opened TaskDeadline
  import opened ReadyRing
  import opened StaleIds
  import opened RingRuns
  import opened SleepTiming
  import DQ = DeltaQueue

  // -------------------------------------------------------------------- building runs

  function Repeat(op: Op, n: nat): (ops: seq<Op>)
    ensures |ops| == n
  {
    if n == 0 then [] else [op] + Repeat(op, n - 1)
  }

  lemma {:induction false} RunConcat(s: Sys, a: seq<Op>, b: seq<Op>)
    ensures Run(s, a + b) == Run(Run(s, a), b)
    ensures EnabledRun(s, a + b) <==> EnabledRun(s, a) && EnabledRun(Run(s, a), b)
    decreases |a|
  {
    hide Apply, Enabled;
    if a == [] {
      assert a + b == b;
    } else {
      assert (a + b)[1..] == a[1..] + b;
      RunConcat(Apply(s, a[0]), a[1..], b);
    }
  }

  /** A run of the operations `ops` that leads from one state to another. */
  ghost predicate Leads(s: Sys, ops: seq<Op>, r: Sys)
  {
    EnabledRun(s, ops) && Run(s, ops) == r
  }

  lemma Reaches(s: Sys, ops: seq<Op>, r: Sys)
    requires Leads(s, ops, r)
    ensures EnabledRun(s, ops) && Run(s, ops) == r
  {
  }

  lemma Then(s: Sys, a: seq<Op>, m: Sys, b: seq<Op>, r: Sys)
    requires Leads(s, a, m) && Leads(m, b, r)
    ensures Leads(s, a + b, r)
  {
    RunConcat(s, a, b);
  }

  lemma Once(s: Sys, op: Op)
    requires Enabled(s, op)
    ensures Leads(s, [op], Apply(s, op))
  {
    hide Apply, Enabled;
    assert [op][1..] == [] && EnabledRun(Apply(s, op), []) && Run(Apply(s, op), []) == Apply(s, op);
  }

  /** A tick with nothing to kill, to reap, to clean up or to wake. */
  lemma QuietTick(s: Sys)
    requires s.sysq == [] && s.tomb == [] && s.reaper == [] && !s.force && DQ.Woken(s.sleep) == []
    ensures Tick(s) ==
            if s.ticks <= 1 then Schedule(s.(sleep := DQ.Tick(s.sleep), ticks := TASK_QUANTUM_TICKS))
            else s.(sleep := DQ.Tick(s.sleep), ticks := s.ticks - 1)
  {
  }

  lemma QuietQueue(d: nat, id: TaskId)
    requires d > 1
    ensures DQ.Woken([DQ.Entry(d, id)]) == [] && DQ.Tick([DQ.Entry(d, id)]) == [DQ.Entry(d - 1, id)]
  {
    var q := [DQ.Entry(d, id)];
    assert DQ.DecrementHead(q) == [DQ.Entry(d - 1, id)];
  }

  // ---------------------------------------------------------------------- many tasks

  function Idle(st: TaskState): Slot
  {
    Slot(Some(Task(st, 0, TASK_QUANTUM_TICKS)), 0)
  }

  function Ids(from: nat, n: nat): (ids: seq<TaskId>)
  {
    seq(n, (i: nat) => TaskId(from + i, 0))
  }

  /** Boot, and `n` tasks spawned. */
  function Crowd(n: nat): Sys
  {
    Sys(
      seq(MAX_TASKS, (i: nat) => if i == 0 then Idle(Running)
                          else if i <= n then Slot(Some(Task(Ready, i, TASK_QUANTUM_TICKS)), 0) else Slot(None, 0)),
      seq(n + 1, (i: nat) => Thread(Active, Some(TaskId(i, 0)))),
      Ids(1, n), IDLE, TASK_QUANTUM_TICKS, false, [], [], [], [])
  }

  lemma BootIsCrowd()
    ensures Boot() == Crowd(0)
  {
    assert Boot().slots == Crowd(0).slots;
    assert Boot().threads == Crowd(0).threads;
  }

  lemma CrowdGrows(n: nat)
    requires n < MAX_TASKS - 1
    ensures Enabled(Crowd(n), SpawnTask) && Apply(Crowd(n), SpawnTask) == Crowd(n + 1)
  {
    var s, r := Crowd(n), Crowd(n + 1);
    FirstFreeIs(s.slots, n + 1);
    var t := Apply(s, SpawnTask);
    assert t.slots == r.slots;
    assert t.threads == r.threads;
    assert t.ready == r.ready;
  }

  lemma FirstFreeIs(slots: seq<Slot>, x: nat)
    requires x < |slots| && slots[x].task.None? && forall y :: 0 <= y < x ==> slots[y].task.Some?
    ensures FirstFree(slots, 0) == x
  {
  }

  lemma {:induction false} CrowdAfter(n: nat, k: nat)
    requires n + k < MAX_TASKS
    ensures Leads(Crowd(n), Repeat(SpawnTask, k), Crowd(n + k))
    decreases k
  {
    hide Apply, Enabled, Crowd;
    if k > 0 {
      CrowdGrows(n);
      CrowdAfter(n + 1, k - 1);
      assert Repeat(SpawnTask, k)[1..] == Repeat(SpawnTask, k - 1);
    }
  }

  /** `n` tasks, of which the first `k` have exited and the next one runs. */
  function Line(n: nat, k: nat): Sys
  {
    Sys(
      seq(MAX_TASKS, (i: nat) => if i == 0 then Idle(Ready)
                          else if i <= k then Slot(Some(Task(Dying, i, TASK_QUANTUM_TICKS)), 0)
                          else if i == k + 1 then Slot(Some(Task(Running, i, TASK_QUANTUM_TICKS)), 0)
                          else if i <= n then Slot(Some(Task(Ready, i, TASK_QUANTUM_TICKS)), 0) else Slot(None, 0)),
      seq(n + 1, (i: nat) => Thread(if 1 <= i <= k then Exiting else Active, Some(TaskId(i, 0)))),
      if k + 1 <= n then Ids(k + 2, n - k - 1) else [],
      TaskId(k + 1, 0), TASK_QUANTUM_TICKS, false, [], Ids(1, k), [], [])
  }

  /** Three ticks use up the quantum of the idle task, the fourth switches. */
  lemma CrowdStarts(n: nat)
    requires 1 <= n < MAX_TASKS
    ensures Leads(Crowd(n), Repeat(TimerTick, 4), Line(n, 0))
  {
    var s := Crowd(n);
    var q := s.(ticks := 1);
    assert DQ.Woken<TaskId>([]) == [] && DQ.Tick<TaskId>([]) == [];
    QuietTick(s);
    QuietTick(s.(ticks := 3));
    QuietTick(s.(ticks := 2));
    QuietTick(q);
    CrowdSwitches(n);
    assert s.(ticks := TASK_QUANTUM_TICKS, sleep := []) == s;
    hide Tick, Crowd, Line;
    FourTicks(s);
    assert s.(ticks := 3) == Tick(s) && s.(ticks := 2) == Tick(Tick(s)) && q == Tick(Tick(Tick(s)));
  }

  lemma FourTicks(s: Sys)
    ensures Leads(s, Repeat(TimerTick, 4), Tick(Tick(Tick(Tick(s)))))
  {
    hide Tick;
    var r := Repeat(TimerTick, 4);
    assert r == [TimerTick, TimerTick, TimerTick, TimerTick];
    assert r[1..] == [TimerTick, TimerTick, TimerTick] && r[1..][1..] == [TimerTick, TimerTick];
    assert r[1..][1..][1..] == [TimerTick] && r[1..][1..][1..][1..] == [];
  }

  lemma CrowdSwitches(n: nat)
    requires 1 <= n < MAX_TASKS
    ensures Schedule(Crowd(n)) == Line(n, 0)
  {
    var s, r := Crowd(n), Line(n, 0);
    assert s.ready[0] == TaskId(1, 0);
    var t := Schedule(s);
    assert t.slots == r.slots;
    assert t.threads == r.threads;
    assert t.ready == r.ready;
    assert t.reaper == r.reaper;
  }

  lemma LineExits(n: nat, k: nat)
    requires k + 1 < n < MAX_TASKS && k < REAPER_QUEUE_SIZE
    ensures Enabled(Line(n, k), Exit) && Apply(Line(n, k), Exit) == Line(n, k + 1)
  {
    var s, r := Line(n, k), Line(n, k + 1);
    var m := MarkDying(s);
    assert m.reaper == r.reaper;
    assert m.threads == r.threads;
    assert m.ready[0] == TaskId(k + 2, 0);
    var t := Schedule(m);
    assert t.slots == r.slots;
    assert t.ready == r.ready;
  }

  lemma {:induction false} LineAfter(n: nat, k: nat, j: nat)
    requires k + j < n < MAX_TASKS && k + j <= REAPER_QUEUE_SIZE
    ensures Leads(Line(n, k), Repeat(Exit, j), Line(n, k + j))
    decreases j
  {
    hide Apply, Enabled, Line;
    if j > 0 {
      LineExits(n, k);
      LineAfter(n, k + 1, j - 1);
      assert Repeat(Exit, j)[1..] == Repeat(Exit, j - 1);
    }
  }

  /** Sixty-five tasks that exit between two ticks: the last one is leaked. */
  lemma LeakIsReachable() returns (ops: seq<Op>)
    ensures EnabledRun(Boot(), ops) && Leaked(Run(Boot(), ops), 65)
  {
    hide Apply, Enabled, Crowd, Line, Leaked, Inv, AllTracked, Boot, Leads, Repeat, Run, EnabledRun;
    BootIsCrowd();
    CrowdAfter(0, 65);
    CrowdStarts(65);
    LineAfter(65, 0, 64);
    var a := Repeat(SpawnTask, 65);
    var b := Repeat(TimerTick, 4);
    var c := Repeat(Exit, 64);
    Then(Boot(), a, Crowd(65), b, Line(65, 0));
    Then(Boot(), a + b, Line(65, 0), c, Line(65, 64));
    var s := Line(65, 64);
    LineIsFull(65);
    BootInv();
    BootTracked();
    Reaches(Boot(), a + b + c, s);
    RunKeepsTracked(Boot(), a + b + c);
    ExitLeaksIff(s);
    Once(s, Exit);
    Then(Boot(), a + b + c, s, [Exit], Apply(s, Exit));
    ops := a + b + c + [Exit];
    Reaches(Boot(), ops, Apply(s, Exit));
  }

  lemma LineIsFull(n: nat)
    ensures var s := Line(n, 64); |s.reaper| == REAPER_QUEUE_SIZE && s.current == TaskId(65, 0) && Enabled(s, Exit)
  {
  }

  /** One task alone, woken between the two halves of blocking: the ready queue is out of
      order. */
  lemma TornIsReachable()
    ensures var ops := Repeat(SpawnTask, 1) + Repeat(TimerTick, 4) + [BeginBlock, WakeTask(TaskId(1, 0)), Yield];
            EnabledRun(Boot(), ops) && !RingInv(Run(Boot(), ops))
  {
    hide Apply, Crowd, Line, Boot, Inv, Repeat, RingInv, Enabled, Leads, Run, EnabledRun, SomebodyWaits;
    BootIsCrowd();
    CrowdAfter(0, 1);
    CrowdStarts(1);
    BootInv();
    AloneOnTheCpu();
    var a, b, c := Repeat(SpawnTask, 1), Repeat(TimerTick, 4), [BeginBlock, WakeTask(TaskId(1, 0)), Yield];
    var s := Line(1, 0);
    Then(Boot(), a, Crowd(1), b, s);
    Reaches(Boot(), a + b, s);
    RunKeeps(Boot(), a + b);
    TornBlockIsHarmlessIff(s, BeginBlock);
    Then(Boot(), a + b, s, c, Run(s, c));
    Reaches(Boot(), a + b + c, Run(s, c));
  }

  lemma AloneOnTheCpu()
    ensures var s := Line(1, 0);
            && RingInv(s) && s.current == TaskId(1, 0) && !SomebodyWaits(s)
            && Leads(s, [BeginBlock, WakeTask(TaskId(1, 0)), Yield], Run(s, [BeginBlock, WakeTask(TaskId(1, 0)), Yield]))
  {
    var s := Line(1, 0);
    assert s.ready == [];
    forall x | 1 <= x < |s.slots| ensures LaneOk(s.slots[x], Lane(s.ready, x)) {
      EmptyLane(x);
    }
    hide Apply;
    var ops := [BeginBlock, WakeTask(TaskId(1, 0)), Yield];
    assert ops[1..] == [WakeTask(TaskId(1, 0)), Yield] && ops[1..][1..] == [Yield] && ops[1..][1..][1..] == [];
  }

  // ------------------------------------------------------------------ a full ready queue

  /** Task 1 is blocked, `n` more are ready, and nobody has the CPU. */
  function Rest(n: nat): Sys
  {
    Sys(
      seq(MAX_TASKS, (i: nat) => if i == 0 then Idle(Ready)
                          else if i == 1 then Slot(Some(Task(Blocked, 1, TASK_QUANTUM_TICKS)), 0)
                          else if i <= n + 1 then Slot(Some(Task(Ready, i, TASK_QUANTUM_TICKS)), 0) else Slot(None, 0)),
      seq(n + 2, (i: nat) => Thread(if i == 1 then Waiting else Active, Some(TaskId(i, 0)))),
      Ids(2, n), IDLE, TASK_QUANTUM_TICKS, false, [], [], [], [])
  }

  lemma LineBlocks()
    ensures Enabled(Line(1, 0), Block) && Apply(Line(1, 0), Block) == Rest(0)
  {
    var s, r := Line(1, 0), Rest(0);
    var m := MarkBlocked(s);
    assert m.slots == r.slots;
    assert m.threads == r.threads;
    assert m.ready == [] == r.ready && m.reaper == [] == r.reaper;
  }

  lemma RestGrows(n: nat)
    requires n < MAX_TASKS - 2
    ensures Enabled(Rest(n), SpawnTask) && Apply(Rest(n), SpawnTask) == Rest(n + 1)
  {
    var s, r := Rest(n), Rest(n + 1);
    FirstFreeIs(s.slots, n + 2);
    var t := Apply(s, SpawnTask);
    assert t.slots == r.slots;
    assert t.threads == r.threads;
    assert t.ready == r.ready;
  }

  lemma {:induction false} RestAfter(n: nat, k: nat)
    requires n + k < MAX_TASKS - 1
    ensures Leads(Rest(n), Repeat(SpawnTask, k), Rest(n + k))
    decreases k
  {
    hide Apply, Enabled, Rest;
    if k > 0 {
      RestGrows(n);
      RestAfter(n + 1, k - 1);
      assert Repeat(SpawnTask, k)[1..] == Repeat(SpawnTask, k - 1);
    }
  }

  /** `s` with tasks 2 and 3, and their threads, in the given states. */
  function Pair(s: Sys, slot2: Slot, slot3: Slot, t2: Thread, t3: Thread): Sys
    requires |s.slots| == MAX_TASKS && |s.threads| == MAX_TASKS
  {
    s.(slots := s.slots[2 := slot2][3 := slot3], threads := s.threads[2 := t2][3 := t3])
  }

  function TaskIn(st: TaskState, x: nat): Slot
  {
    Slot(Some(Task(st, x, TASK_QUANTUM_TICKS)), 0)
  }

  function Condemned(): Sys
  {
    Rest(254).(sysq := [Compress(TaskId(2, 0)), Compress(TaskId(3, 0))])
  }

  function Dead23(): Sys
  {
    Pair(Rest(254), TaskIn(Dead, 2), TaskIn(Dead, 3),
         Thread(Exiting, Some(TaskId(2, 0))), Thread(Exiting, Some(TaskId(3, 0))))
      .(tomb := [TaskId(2, 0), TaskId(3, 0)], ticks := 3)
  }

  function Gone23(): Sys
  {
    Pair(Rest(254), Slot(None, 1), Slot(None, 1), Thread(Gone, None), Thread(Gone, None)).(ticks := 2)
  }

  lemma TwoRequests()
    ensures Leads(Rest(254), [ExitThread(2), ExitThread(3)], Condemned())
  {
    var s := Rest(254);
    assert s.threads[2] == Thread(Active, Some(TaskId(2, 0))) && s.threads[3] == Thread(Active, Some(TaskId(3, 0)));
    var a := Apply(s, ExitThread(2));
    assert a.sysq == [Compress(TaskId(2, 0))];
    var b := Apply(a, ExitThread(3));
    assert b.sysq == Condemned().sysq;
    Once(s, ExitThread(2));
    Once(a, ExitThread(3));
    Then(s, [ExitThread(2)], a, [ExitThread(3)], b);
    assert [ExitThread(2)] + [ExitThread(3)] == [ExitThread(2), ExitThread(3)];
  }

  /** The same two tasks after the kills of the tick, before the reaper. */
  function Dying23(): Sys
  {
    Pair(Rest(254), TaskIn(Dying, 2), TaskIn(Dying, 3),
         Thread(Exiting, Some(TaskId(2, 0))), Thread(Exiting, Some(TaskId(3, 0))))
      .(reaper := [TaskId(2, 0), TaskId(3, 0)], ticks := 3)
  }

  lemma TwoKilled()
    ensures BeforeCleanup(Condemned()) == Dying23()
  {
    var s := Condemned();
    var c := s.(ticks := 3);
    assert DQ.Woken<TaskId>([]) == [] && DQ.Tick<TaskId>([]) == [];
    assert CountTick(TickSleepers(s)) == c;
    CompressRoundTrip(TaskId(2, 0));
    CompressRoundTrip(TaskId(3, 0));
    hide Compress, Expand;
    var k1 := KillTask(c.(sysq := s.sysq[1..]), s.sysq[0]);
    assert k1.sysq == [Compress(TaskId(3, 0))] && k1.sysq[1..] == [] && k1.reaper == [TaskId(2, 0)];
    var k2 := KillTask(k1.(sysq := []), k1.sysq[0]);
    assert k2.reaper == [TaskId(2, 0), TaskId(3, 0)];
    assert DrainSystemTasks(k1) == k2;
    var e := Dying23();
    assert k2.slots == e.slots;
    assert k2.threads == e.threads;
  }

  lemma TwoReaped()
    ensures ReapDyingTasks(Dying23()) == Dead23()
  {
    var s, e := Dying23(), Dead23();
    assert s.reaper[1..] == [TaskId(3, 0)];
    var r1 := ReapOne(s.(reaper := [TaskId(3, 0)]), TaskId(2, 0));
    assert r1.tomb == [TaskId(2, 0)] && r1.reaper[1..] == [];
    var r2 := ReapOne(r1.(reaper := []), TaskId(3, 0));
    assert r2.tomb == e.tomb;
    assert r2.slots == e.slots;
    assert ReapDyingTasks(r1) == r2;
  }

  lemma TwoDie()
    ensures Tick(Condemned()) == Dead23()
  {
    TwoKilled();
    TwoReaped();
    var s := Condemned();
    assert DQ.Woken<TaskId>([]) == [];
    assert TombstoneCleanup(Dying23()) == Dying23();
    assert !SwitchesOnTick(s);
  }

  lemma TwoAreGone()
    ensures Tick(Dead23()) == Gone23()
  {
    var s := Dead23();
    var c := s.(ticks := 2);
    assert DQ.Woken<TaskId>([]) == [] && DQ.Tick<TaskId>([]) == [];
    assert BeforeCleanup(s) == c;
    assert c.tomb[1..] == [TaskId(3, 0)];
    var a := RemoveTask(c.(tomb := [TaskId(3, 0)]), TaskId(2, 0));
    assert a.tomb[1..] == [];
    var b := RemoveTask(a.(tomb := []), TaskId(3, 0));
    assert TombstoneCleanup(c) == b;
    var e := Gone23();
    assert b.slots == e.slots;
    assert b.threads == e.threads;
  }

  /** Two new tasks in the freed slots: their entries join those of the dead. */
  lemma TwoNew()
    ensures var s := Gone23(); var a := Apply(s, SpawnTask); var b := Apply(a, SpawnTask);
            && Enabled(s, SpawnTask) && Enabled(a, SpawnTask)
            && b.ready == Ids(2, 254) + [TaskId(2, 1)] + [TaskId(3, 1)] && b.current == IDLE
            && Live(b.slots, 1) && StateAt(b.slots, 1) == Blocked && IdAt(b.slots, 1) == TaskId(1, 0)
  {
    var s := Gone23();
    FirstFreeIs(s.slots, 2);
    var a := Apply(s, SpawnTask);
    assert a.ready == Ids(2, 254) + [TaskId(2, 1)];
    FirstFreeIs(a.slots, 3);
  }

  /** A blocked task, 254 others, two of which are killed and replaced: the entries of the
      dead still fill the ready queue, and the wake-up strands the task. */
  lemma StrandIsReachable() returns (ops: seq<Op>)
    ensures EnabledRun(Boot(), ops) && Stranded(Run(Boot(), ops), 1)
  {
    hide Apply, Enabled, Crowd, Line, Rest, Condemned, Dead23, Gone23, Boot, Tick;
    BootIsCrowd();
    CrowdAfter(0, 1);
    CrowdStarts(1);
    LineBlocks();
    Once(Line(1, 0), Block);
    RestAfter(0, 254);
    var a, b := Repeat(SpawnTask, 1), Repeat(TimerTick, 4);
    Then(Boot(), a, Crowd(1), b, Line(1, 0));
    Then(Boot(), a + b, Line(1, 0), [Block], Rest(0));
    var c := a + b + [Block];
    Then(Boot(), c, Rest(0), Repeat(SpawnTask, 254), Rest(254));
    var d := c + Repeat(SpawnTask, 254);
    TwoRequests();
    Then(Boot(), d, Rest(254), [ExitThread(2), ExitThread(3)], Condemned());
    var e := d + [ExitThread(2), ExitThread(3)];
    TwoTicks();
    Then(Boot(), e, Condemned(), [TimerTick, TimerTick], Gone23());
    var f := e + [TimerTick, TimerTick];
    TwoNew();
    var s := Gone23();
    var t := Apply(s, SpawnTask);
    Once(s, SpawnTask);
    Once(t, SpawnTask);
    Then(s, [SpawnTask], t, [SpawnTask], Apply(t, SpawnTask));
    Then(Boot(), f, s, [SpawnTask] + [SpawnTask], Apply(t, SpawnTask));
    var full := Apply(t, SpawnTask);
    WakeIntoFull(full);
    Then(Boot(), f + ([SpawnTask] + [SpawnTask]), full, [WakeTask(TaskId(1, 0))], Apply(full, WakeTask(TaskId(1, 0))));
    ops := f + ([SpawnTask] + [SpawnTask]) + [WakeTask(TaskId(1, 0))];
  }

  lemma TwoTicks()
    ensures Leads(Condemned(), [TimerTick, TimerTick], Gone23())
  {
    TwoDie();
    TwoAreGone();
    hide Tick, Condemned, Dead23, Gone23;
    Once(Condemned(), TimerTick);
    Once(Dead23(), TimerTick);
    Then(Condemned(), [TimerTick], Dead23(), [TimerTick], Gone23());
    assert [TimerTick] + [TimerTick] == [TimerTick, TimerTick];
  }

  lemma WakeIntoFull(s: Sys)
    requires s.ready == Ids(2, 254) + [TaskId(2, 1)] + [TaskId(3, 1)] && s.current == IDLE
    requires Live(s.slots, 1) && StateAt(s.slots, 1) == Blocked && IdAt(s.slots, 1) == TaskId(1, 0)
    ensures Stranded(Apply(s, WakeTask(TaskId(1, 0))), 1) && Leads(s, [WakeTask(TaskId(1, 0))], Apply(s, WakeTask(TaskId(1, 0))))
  {
    Once(s, WakeTask(TaskId(1, 0)));
    assert |s.ready| == QUEUE_SIZE;
    assert forall i :: 0 <= i < |s.ready| ==> s.ready[i].slot != 1;
  }

  // ------------------------------------------------------------ one slot, over and over

  const FIRST: TaskId := TaskId(1, 0)

  /** A machine of which only slot 1 is used; the sleep queue holds one entry for the
      first task that had the slot. */
  function One(sl: Slot, threads: seq<Thread>, ready: seq<TaskId>, current: TaskId, ticks: nat, left: nat): Sys
  {
    Sys(
      seq(MAX_TASKS, (i: nat) => if i == 0 then Idle(Ready) else if i == 1 then sl else Slot(None, 0)),
      threads, ready, current, ticks, false, [DQ.Entry(left, FIRST)], [], [], [])
  }

  /** The idle thread, and `t - 1` threads that are gone. */
  function Old(t: nat): seq<Thread>
  {
    seq(t, (i: nat) => if i == 0 then Thread(Active, Some(IDLE)) else Thread(Gone, None))
  }

  function Held(st: TaskState, g: nat, t: nat): Slot
  {
    Slot(Some(Task(st, t, TASK_QUANTUM_TICKS)), g)
  }

  function Owner(st: ThreadState, g: nat, t: nat): seq<Thread>
  {
    Old(t) + [Thread(st, Some(TaskId(1, g)))]
  }

  function Free(g: nat, t: nat, left: nat): Sys
  {
    One(Slot(None, g), Old(t), [], IDLE, 2, left)
  }

  function Fresh(g: nat, t: nat, ticks: nat, left: nat): Sys
  {
    One(Held(Ready, g, t), Owner(Active, g, t), [TaskId(1, g)], IDLE, ticks, left)
  }

  function Running1(g: nat, t: nat, left: nat): Sys
  {
    One(Held(Running, g, t), Owner(Active, g, t), [], TaskId(1, g), TASK_QUANTUM_TICKS, left)
  }

  function Leaving(g: nat, t: nat, left: nat): Sys
  {
    One(Held(Dying, g, t), Owner(Exiting, g, t), [], IDLE, TASK_QUANTUM_TICKS, left).(reaper := [TaskId(1, g)])
  }

  function Left(g: nat, t: nat, left: nat): Sys
  {
    One(Held(Dead, g, t), Owner(Exiting, g, t), [], IDLE, 3, left).(tomb := [TaskId(1, g)])
  }

  lemma FreeSpawns(g: nat, t: nat, left: nat)
    ensures Enabled(Free(g, t, left), SpawnTask) && Apply(Free(g, t, left), SpawnTask) == Fresh(g, t, 2, left)
  {
    var s, r := Free(g, t, left), Fresh(g, t, 2, left);
    FirstFreeIs(s.slots, 1);
    var a := Apply(s, SpawnTask);
    assert a.slots == r.slots;
    assert a.threads == r.threads;
  }

  lemma FreshTicks(g: nat, t: nat, k: nat, left: nat)
    requires 2 <= k <= TASK_QUANTUM_TICKS && left > 1
    ensures Tick(Fresh(g, t, k, left)) == Fresh(g, t, k - 1, left - 1)
  {
    QuietQueue(left, FIRST);
    QuietTick(Fresh(g, t, k, left));
  }

  lemma FreshSwitches(g: nat, t: nat, left: nat)
    requires left > 1
    ensures Tick(Fresh(g, t, 1, left)) == Running1(g, t, left - 1)
  {
    QuietQueue(left, FIRST);
    QuietTick(Fresh(g, t, 1, left));
    var s, r := Fresh(g, t, 4, left - 1), Running1(g, t, left - 1);
    assert s.ready[1..] == [];
    var a := Schedule(s);
    assert a.slots == r.slots;
  }

  lemma {:induction false} FreshRuns(g: nat, t: nat, k: nat, left: nat)
    requires 1 <= k <= TASK_QUANTUM_TICKS && left > k
    ensures Leads(Fresh(g, t, k, left), Repeat(TimerTick, k), Running1(g, t, left - k))
    decreases k
  {
    hide Tick, Fresh, Running1;
    TickOnce(Fresh(g, t, k, left));
    if k == 1 {
      FreshSwitches(g, t, left);
      assert Repeat(TimerTick, 1) == [TimerTick];
    } else {
      FreshTicks(g, t, k, left);
      FreshRuns(g, t, k - 1, left - 1);
      Then(Fresh(g, t, k, left), [TimerTick], Fresh(g, t, k - 1, left - 1), Repeat(TimerTick, k - 1), Running1(g, t, left - k));
    }
  }

  lemma RunningExits(g: nat, t: nat, left: nat)
    ensures Enabled(Running1(g, t, left), Exit) && Apply(Running1(g, t, left), Exit) == Leaving(g, t, left)
  {
    var s, r := Running1(g, t, left), Leaving(g, t, left);
    var m := MarkDying(s);
    assert m.slots == r.slots;
    assert m.threads == r.threads;
    assert m.reaper == r.reaper;
  }

  lemma LeavingTicks(g: nat, t: nat, left: nat)
    requires left > 1
    ensures Tick(Leaving(g, t, left)) == Left(g, t, left - 1)
  {
    QuietQueue(left, FIRST);
    var s, r := Leaving(g, t, left), Left(g, t, left - 1);
    var c := s.(ticks := 3, sleep := [DQ.Entry(left - 1, FIRST)]);
    assert BeforeCleanup(s) == c && TombstoneCleanup(c) == c;
    assert c.reaper[1..] == [];
    var d := ReapOne(c.(reaper := []), TaskId(1, g));
    assert d.slots == r.slots;
    assert d.tomb == r.tomb;
    assert ReapDyingTasks(c) == d;
  }

  lemma LeftTicks(g: nat, t: nat, left: nat)
    requires t >= 1 && left > 1
    ensures Tick(Left(g, t, left)) == Free((g + 1) % GENERATIONS, t + 1, left - 1)
  {
    QuietQueue(left, FIRST);
    var s, r := Left(g, t, left), Free((g + 1) % GENERATIONS, t + 1, left - 1);
    var c := s.(ticks := 2, sleep := [DQ.Entry(left - 1, FIRST)]);
    assert BeforeCleanup(s) == c;
    assert c.tomb[1..] == [];
    var d := RemoveTask(c.(tomb := []), TaskId(1, g));
    assert d.slots == r.slots;
    assert d.threads == r.threads;
    assert TombstoneCleanup(c) == d && ReapDyingTasks(d) == d;
  }

  function Departure(): seq<Op>
  {
    [Exit] + [TimerTick] + [TimerTick]
  }

  function Cycle(): seq<Op>
  {
    [SpawnTask] + Repeat(TimerTick, 2) + Departure()
  }

  lemma Departs(g: nat, t: nat, left: nat)
    requires t >= 1 && left > 2
    ensures Leads(Running1(g, t, left), Departure(), Free((g + 1) % GENERATIONS, t + 1, left - 2))
  {
    RunningExits(g, t, left);
    LeavingTicks(g, t, left);
    LeftTicks(g, t, left - 1);
    hide Apply, Enabled, Running1, Leaving, Left, Free, Tick;
    var s := Running1(g, t, left);
    Once(s, Exit);
    TickOnce(Leaving(g, t, left));
    TickOnce(Left(g, t, left - 1));
    Then(s, [Exit], Leaving(g, t, left), [TimerTick], Left(g, t, left - 1));
    Then(s, [Exit] + [TimerTick], Left(g, t, left - 1), [TimerTick], Free((g + 1) % GENERATIONS, t + 1, left - 2));
  }

  lemma TickOnce(s: Sys)
    ensures Leads(s, [TimerTick], Tick(s))
  {
    hide Tick;
    Once(s, TimerTick);
  }

  lemma CycleLeads(g: nat, t: nat, left: nat)
    requires t >= 1 && left > 4
    ensures Leads(Free(g, t, left), Cycle(), Free((g + 1) % GENERATIONS, t + 1, left - 4))
  {
    FreeSpawns(g, t, left);
    hide Apply, Enabled, Running1, Fresh, Free, Repeat, Departure;
    Once(Free(g, t, left), SpawnTask);
    FreshRuns(g, t, 2, left);
    Departs(g, t, left - 2);
    Then(Free(g, t, left), [SpawnTask], Fresh(g, t, 2, left), Repeat(TimerTick, 2), Running1(g, t, left - 2));
    Then(Free(g, t, left), [SpawnTask] + Repeat(TimerTick, 2), Running1(g, t, left - 2), Departure(),
         Free((g + 1) % GENERATIONS, t + 1, left - 4));
  }

  function Cycles(n: nat): seq<Op>
  {
    if n == 0 then [] else Cycle() + Cycles(n - 1)
  }

  lemma {:induction false} CyclesLead(g: nat, t: nat, left: nat, n: nat)
    requires t >= 1 && left > 4 * n && g < GENERATIONS
    ensures Leads(Free(g, t, left), Cycles(n), Free((g + n) % GENERATIONS, t + n, left - 4 * n))
    decreases n
  {
    hide Apply, Enabled, Free, Cycle;
    if n > 0 {
      CycleLeads(g, t, left);
      CyclesLead((g + 1) % GENERATIONS, t + 1, left - 4, n - 1);
      assert ((g + 1) % GENERATIONS + (n - 1)) % GENERATIONS == (g + n) % GENERATIONS;
      Then(Free(g, t, left), Cycle(), Free((g + 1) % GENERATIONS, t + 1, left - 4), Cycles(n - 1),
           Free((g + n) % GENERATIONS, t + n, left - 4 * n));
    }
  }

  /** The first task: it goes to sleep and is woken by hand at once. */
  function Opening(seconds: nat): seq<Op>
  {
    Repeat(SpawnTask, 1) + Repeat(TimerTick, 4) + [SleepFor(seconds)] + [WakeTask(FIRST)] + Repeat(TimerTick, 4)
  }

  lemma OpeningLeads(seconds: nat, left: nat)
    requires SleepTicks(seconds) == left > 4
    ensures Leads(Boot(), Opening(seconds), Running1(0, 1, left - 4))
  {
    hide Apply, Enabled, Running1, Fresh, Crowd, Line, Boot, Repeat, SleepTicks;
    WokenAtOnce(seconds);
    BootIsCrowd();
    CrowdAfter(0, 1);
    CrowdStarts(1);
    FreshRuns(0, 1, 4, left);
    var a, b := Repeat(SpawnTask, 1), Repeat(TimerTick, 4);
    Then(Boot(), a, Crowd(1), b, Line(1, 0));
    var m := Apply(Line(1, 0), SleepFor(seconds));
    Once(Line(1, 0), SleepFor(seconds));
    Once(m, WakeTask(FIRST));
    Then(Boot(), a + b, Line(1, 0), [SleepFor(seconds)], m);
    Then(Boot(), a + b + [SleepFor(seconds)], m, [WakeTask(FIRST)], Fresh(0, 1, 4, left));
    Then(Boot(), a + b + [SleepFor(seconds)] + [WakeTask(FIRST)], Fresh(0, 1, 4, left), b, Running1(0, 1, left - 4));
  }

  lemma WokenAtOnce(seconds: nat)
    requires SleepTicks(seconds) > 0
    ensures var m := Apply(Line(1, 0), SleepFor(seconds));
            && Enabled(Line(1, 0), SleepFor(seconds)) && Enabled(m, WakeTask(FIRST))
            && Apply(m, WakeTask(FIRST)) == Fresh(0, 1, 4, SleepTicks(seconds))
  {
    var s := Line(1, 0);
    var a := MarkAsleep(s, seconds);
    assert a.sleep == [DQ.Entry(SleepTicks(seconds), FIRST)];
    assert s.ready == [] && s.reaper == [];
    var m := Schedule(a);
    var w, r := Wake(m, FIRST), Fresh(0, 1, 4, SleepTicks(seconds));
    assert w.slots == r.slots;
    assert w.threads == r.threads;
    assert w.ready == r.ready;
  }

  /** A task that was woken early and asks for five more seconds is woken by its old
      entry after two. */
  lemma EarlyWakeIsReachable()
    ensures EnabledRun(Boot(), Opening(2) + [SleepFor(5)])
    ensures Asleep(Run(Boot(), Opening(2) + [SleepFor(5)]), 1, 1996)
  {
    assert SleepTicks(2) == 2000;
    hide Apply, Enabled, Running1, Boot, Opening, Inv, Asleep, Resting, Leads, Run, EnabledRun;
    OpeningLeads(2, 2000);
    BootInv();
    var s := Running1(0, 1, 1996);
    Reaches(Boot(), Opening(2), s);
    RunKeeps(Boot(), Opening(2));
    EntryIsThere();
    SleepCallRests(s, 5);
    AsleepBy(Apply(s, SleepFor(5)), 1, 1996);
    Once(s, SleepFor(5));
    Then(Boot(), Opening(2), s, [SleepFor(5)], Apply(s, SleepFor(5)));
    Reaches(Boot(), Opening(2) + [SleepFor(5)], Apply(s, SleepFor(5)));
  }

  lemma AsleepBy(s: Sys, x: nat, left: nat)
    requires Resting(s, x, Some(left))
    ensures Asleep(s, x, left)
  {
  }

  lemma EntryIsThere()
    ensures var s := Running1(0, 1, 1996);
            && Enabled(s, SleepFor(5)) && s.current == FIRST && DQ.HeadPositive(s.sleep)
            && DueAfterCall(s, 5) == Some(1996)
  {
    var s := Running1(0, 1, 1996);
    assert s.sleep[1..] == [];
    assert DQ.Countdowns(s.sleep, 0) == [DQ.Countdown(FIRST, 1996)];
    assert DQ.Countdowns(s.sleep, 0)[1..] == [];
    assert Due(s, FIRST) == Some(1996);
  }

  /** The first task on the CPU, with `k` ticks of its quantum left. */
  function Busy(k: nat, left: nat): Sys
  {
    Running1(0, 1, left).(ticks := k)
  }

  lemma BusyTicks(k: nat)
    requires k > 1
    ensures Tick(Busy(k, k)) == Busy(k - 1, k - 1)
  {
    QuietQueue(k, FIRST);
    QuietTick(Busy(k, k));
  }

  lemma {:induction false} BusyRuns(k: nat)
    requires k >= 1
    ensures Leads(Busy(k, k), Repeat(TimerTick, k - 1), Busy(1, 1))
  {
    hide Tick, Busy;
    if k > 1 {
      BusyTicks(k);
      TickOnce(Busy(k, k));
      BusyRuns(k - 1);
      Then(Busy(k, k), [TimerTick], Busy(k - 1, k - 1), Repeat(TimerTick, k - 2), Busy(1, 1));
    }
  }

  /** 115964117 seconds are eight ticks. The task is woken early, and its entry falls due
      between the two halves of the next block: the ready queue is out of order. */
  lemma TornTickIsReachable()
    ensures var ops := Opening(115964117) + Repeat(TimerTick, 3) + [BeginBlock, TimerTick, Yield];
            EnabledRun(Boot(), ops) && !RingInv(Run(Boot(), ops))
  {
    var a, b, s := Opening(115964117), Repeat(TimerTick, 3), Busy(1, 1);
    assert SleepTicks(115964117) == 8;
    OpeningLeads(115964117, 8);
    assert Running1(0, 1, 4) == Busy(4, 4);
    BootInv();
    BusyAlone();
    TornTickIsEnabled(s);
    hide Apply, Boot, Inv, Repeat, RingInv, Enabled, Opening, Busy, Running1;
    BusyRuns(4);
    Then(Boot(), a, Busy(4, 4), b, s);
    RunKeeps(Boot(), a + b);
    NobodySurvives(s);
    Then(Boot(), a + b, s, [BeginBlock, TimerTick, Yield], Run(s, [BeginBlock, TimerTick, Yield]));
  }

  lemma BusyAlone()
    ensures var s := Busy(1, 1);
            RingInv(s) && s.current == FIRST && s.ready == [] && s.sleep == [DQ.Entry(1, FIRST)] && s.sysq == []
  {
    var s := Busy(1, 1);
    forall x | 1 <= x < |s.slots| ensures LaneOk(s.slots[x], Lane(s.ready, x)) {
      EmptyLane(x);
    }
  }

  lemma TornTickIsEnabled(s: Sys)
    requires s.current != IDLE
    ensures EnabledRun(s, [BeginBlock, TimerTick, Yield])
  {
    hide Apply;
    var ops := [BeginBlock, TimerTick, Yield];
    assert ops[1..] == [TimerTick, Yield] && ops[1..][1..] == [Yield] && ops[1..][1..][1..] == [];
  }

  lemma NobodySurvives(s: Sys)
    requires Inv(s) && RingInv(s) && s.current == FIRST && s.ready == [] && s.sleep == [DQ.Entry(1, FIRST)] && s.sysq == []
    ensures !RingInv(Run(s, [BeginBlock, TimerTick, Yield]))
  {
    DueNow();
    BlockingKeepsQueues(s);
    hide Inv, RingInv, Apply, SomebodySurvives, AheadSurvives, EveryPlaced, SwitchesOnTick, DQ.Woken, Run;
    OnlyRiser(Apply(s, BeginBlock));
    TornTickIsHarmlessIff(s, BeginBlock);
  }

  lemma BlockingKeepsQueues(s: Sys)
    ensures var a := Apply(s, BeginBlock);
            a.current == s.current && a.ready == s.ready && a.sleep == s.sleep && a.sysq == s.sysq
  {
  }

  lemma DueNow()
    ensures DQ.Woken([DQ.Entry(1, FIRST)]) == [FIRST]
  {
    var q := DQ.DecrementHead([DQ.Entry(1, FIRST)]);
    assert q == [DQ.Entry(0, FIRST)] && q[1..] == [];
    assert DQ.ExpiredIds(q) == [FIRST] + DQ.ExpiredIds(q[1..]);
  }

  lemma OnlyRiser(a: Sys)
    requires a.current == FIRST && a.ready == [] && a.sysq == [] && DQ.Woken(a.sleep) == [FIRST]
    ensures !Named(a, a.current) && !SomebodySurvives(a) && !AheadSurvives(a)
  {
    hide Eligible, RisersBefore;
    forall e | e in RisersBefore(a, FIRST) ensures e in Risers(a) { EarlierIsRiser(a, FIRST, e); }
  }

  /** 2^29 seconds: the task is forgotten. */
  lemma ForgottenIsReachable() returns (ops: seq<Op>)
    ensures EnabledRun(Boot(), ops) && Forgotten(Run(Boot(), ops), 1)
  {
    var s, op := Line(1, 0), SleepFor(0x2000_0000);
    hide Apply, Crowd, Line, Boot, Inv, Forgotten, Repeat, Leads, Run, EnabledRun, Enabled;
    BootIsCrowd();
    CrowdAfter(0, 1);
    CrowdStarts(1);
    BootInv();
    FirstCanSleep(0x2000_0000);
    var a, b := Repeat(SpawnTask, 1), Repeat(TimerTick, 4);
    Then(Boot(), a, Crowd(1), b, s);
    Reaches(Boot(), a + b, s);
    RunKeeps(Boot(), a + b);
    ForgottenIff(s, 0x2000_0000);
    Once(s, op);
    Then(Boot(), a + b, s, [op], Apply(s, op));
    ops := a + b + [op];
    Reaches(Boot(), ops, Apply(s, op));
  }

  lemma FirstCanSleep(seconds: nat)
    ensures var s := Line(1, 0); s.sleep == [] && s.current == FIRST && Enabled(s, SleepFor(seconds))
  {
  }

  predicate Sleepless(ops: seq<Op>)
  {
    forall i :: 0 <= i < |ops| ==> !ops[i].SleepFor? && !ops[i].BeginSleep?
  }

  lemma {:induction false} CyclesAreSleepless(n: nat)
    ensures Sleepless(Cycles(n))
  {
    if n > 0 {
      CyclesAreSleepless(n - 1);
      RepeatIs(TimerTick, 2);
    }
  }

  lemma {:induction false} RepeatIs(op: Op, n: nat)
    ensures forall i :: 0 <= i < n ==> Repeat(op, n)[i] == op
  {
    if n > 0 { RepeatIs(op, n - 1); }
  }

  /** After the entry was made, its slot is recycled 256 times and nobody calls `sleep`
      again. The last task of the slot blocks, and the entry of the first one
      will wake it. */
  lemma AliasIsReachable() returns (before: seq<Op>, after: seq<Op>)
    ensures EnabledRun(Boot(), before + after) && Sleepless(after)
    ensures var s, r := Run(Boot(), before), Run(Boot(), before + after);
            && Live(s.slots, 1) && Live(r.slots, 1) && IdAt(r.slots, 1) == IdAt(s.slots, 1) == FIRST
            && ThreadAt(s.slots, 1) == 1 && ThreadAt(r.slots, 1) == 257
            && Asleep(r, 1, 972)
  {
    hide Apply, Enabled, Running1, Fresh, Free, Boot, Repeat, Departure, Cycles, Opening, Asleep, Sleepless;
    before := Opening(2);
    var c := Departure() + Cycles(255);
    after := c + [SpawnTask] + Repeat(TimerTick, 2) + [Block];
    AliasIsSleepless();
    OpeningLeads(2, 2000);
    FirstHolds();
    var s := Running1(0, 1, 1996);
    Departs(0, 1, 1996);
    CyclesLead(1, 2, 1994, 255);
    Then(s, Departure(), Free(1, 2, 1994), Cycles(255), Free(0, 257, 974));
    FreeSpawns(0, 257, 974);
    Once(Free(0, 257, 974), SpawnTask);
    Then(s, c, Free(0, 257, 974), [SpawnTask], Fresh(0, 257, 2, 974));
    FreshRuns(0, 257, 2, 974);
    Then(s, c + [SpawnTask], Fresh(0, 257, 2, 974), Repeat(TimerTick, 2), Running1(0, 257, 972));
    LastBlocks();
    Once(Running1(0, 257, 972), Block);
    Then(s, c + [SpawnTask] + Repeat(TimerTick, 2), Running1(0, 257, 972), [Block], Apply(Running1(0, 257, 972), Block));
    Then(Boot(), before, s, after, Apply(Running1(0, 257, 972), Block));
  }

  lemma AliasIsSleepless()
    ensures Sleepless(Departure() + Cycles(255) + [SpawnTask] + Repeat(TimerTick, 2) + [Block])
  {
    hide Cycles;
    CyclesAreSleepless(255);
    RepeatIs(TimerTick, 2);
  }

  lemma FirstHolds()
    ensures var s := Running1(0, 1, 1996); Live(s.slots, 1) && IdAt(s.slots, 1) == FIRST && ThreadAt(s.slots, 1) == 1
  {
  }

  lemma LastBlocks()
    ensures var s := Running1(0, 257, 972); var r := Apply(s, Block);
            && Enabled(s, Block) && Live(r.slots, 1) && IdAt(r.slots, 1) == FIRST && ThreadAt(r.slots, 1) == 257
            && Asleep(r, 1, 972)
  {
    var s := Running1(0, 257, 972);
    var m := MarkBlocked(s);
    var r := Schedule(m);
    assert r.slots == m.slots && r.current == IDLE;
    assert r.sleep[1..] == [];
    assert DQ.Countdowns(r.sleep, 0) == [DQ.Countdown(FIRST, 972)];
    assert DQ.Countdowns(r.sleep, 0)[1..] == [];
  }
}
