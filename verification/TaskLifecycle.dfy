/** Consequences of the task invariant for whole runs. */
module TaskLifecycle {
  import opened Basics
  import opened TaskIds
  import opened TaskModel
  import opened TaskSafety
  import DQ = DeltaQueue

  function Rank(st: TaskState): (r: nat)
  {
    match st
    case Dying => 1
    case Dead => 2
    case _ => 0
  }

  /** How one task may look after an operation: its slot is still in the same
      generation and the task has not moved backwards. */
  ghost predicate Forward(before: seq<Slot>, after: seq<Slot>, x: nat)
    requires Live(before, x)
  {
    && Found(after, IdAt(before, x))
    && ThreadAt(after, x) == ThreadAt(before, x)
    && Rank(StateAt(before, x)) <= Rank(StateAt(after, x))
  }

  /** Nobody dies of this operation. */
  ghost predicate NoNewDead(before: seq<Slot>, after: seq<Slot>, x: nat)
    requires Live(before, x) && Live(after, x)
  {
    StateAt(after, x) == Dead ==> StateAt(before, x) == Dead
  }

  // -------------------------------------------------------- the parts of an operation

  lemma ScheduleForward(s: Sys, x: nat)
    requires Core(s) && Live(s.slots, x)
    ensures Forward(s.slots, Schedule(s).slots, x) && NoNewDead(s.slots, Schedule(s).slots, x)
  {
    ScheduleStates(s);
    ScheduleThreads(s);
  }

  lemma ScheduleThreads(s: Sys)
    requires Core(s)
    ensures forall x: nat :: Live(s.slots, x) ==> Live(Schedule(s).slots, x)
    ensures forall x: nat :: Live(s.slots, x) ==> ThreadAt(Schedule(s).slots, x) == ThreadAt(s.slots, x)
  {
    PickNextFacts(s.slots, s.ready);
    var p := PickNext(s.slots, s.ready);
    if p.slots != s.slots {
      SetStateFacts(s.slots, p.next.slot, Running);
    }
    if Requeues(p.slots, s.current) {
      SetStateFacts(p.slots, s.current.slot, Ready);
    }
  }

  lemma {:induction false} WakeAllForward(s: Sys, ids: seq<TaskId>, x: nat)
    requires Core(s) && Live(s.slots, x)
    ensures Forward(s.slots, WakeAll(s, ids).slots, x)
    ensures Doomed(StateAt(s.slots, x)) || StateAt(s.slots, x) == Running || StateAt(s.slots, x) == Ready ==>
              StateAt(WakeAll(s, ids).slots, x) == StateAt(s.slots, x)
    ensures NoNewDead(s.slots, WakeAll(s, ids).slots, x)
    ensures WakeAll(s, ids) == s.(slots := WakeAll(s, ids).slots, threads := WakeAll(s, ids).threads,
                                  ready := WakeAll(s, ids).ready)
    decreases |ids|
  {
    if ids != [] {
      WakeKeeps(s, ids[0]);
      WakeAllForward(Wake(s, ids[0]), ids[1..], x);
    }
  }

  lemma {:induction false} DrainForward(s: Sys, x: nat)
    requires Core(s) && Live(s.slots, x)
    ensures Forward(s.slots, DrainSystemTasks(s).slots, x) && NoNewDead(s.slots, DrainSystemTasks(s).slots, x)
    ensures Doomed(StateAt(s.slots, x)) ==> StateAt(DrainSystemTasks(s).slots, x) == StateAt(s.slots, x)
    decreases |s.sysq|
  {
    if s.sysq != [] {
      var rest := s.(sysq := s.sysq[1..]);
      assert Killable(s.slots, s.sysq[0]);
      assert forall i :: 0 <= i < |rest.sysq| ==> rest.sysq[i] == s.sysq[i + 1];
      KillTaskKeeps(rest, s.sysq[0]);
      SetStateFacts(s.slots, Expand(s.sysq[0]).slot, Dying);
      DrainForward(KillTask(rest, s.sysq[0]), x);
    }
  }

  lemma CleanupStep(s: Sys)
    requires Core(s) && StateAt(s.slots, s.current.slot) != Dead && s.tomb != []
    ensures var n := RemoveTask(s.(tomb := s.tomb[1..]), s.tomb[0]);
            && Core(n) && StateAt(n.slots, n.current.slot) != Dead
            && TombstoneCleanup(s) == TombstoneCleanup(n)
            && n.tomb == s.tomb[1..]
  {
    var rest := s.(tomb := s.tomb[1..]);
    assert forall i :: 0 <= i < |rest.tomb| ==> rest.tomb[i] == s.tomb[i + 1];
    RemoveKeeps(rest, s.tomb[0]);
  }

  /** Later removals do not disturb a slot that is free or a thread that is gone. */
  lemma {:induction false} CleanupLeavesFree(s: Sys, x: nat, t: nat)
    requires Core(s) && StateAt(s.slots, s.current.slot) != Dead
    requires x < |s.slots| && !Live(s.slots, x)
    ensures |TombstoneCleanup(s).slots| == |s.slots| && TombstoneCleanup(s).slots[x] == s.slots[x]
    ensures t < |s.threads| && s.threads[t].task.None? ==>
              t < |TombstoneCleanup(s).threads| && TombstoneCleanup(s).threads[t] == s.threads[t]
    decreases |s.tomb|
  {
    if s.tomb != [] {
      CleanupStep(s);
      CleanupLeavesFree(RemoveTask(s.(tomb := s.tomb[1..]), s.tomb[0]), x, t);
    }
  }

  /** Cleanup frees exactly the slots named in the tombstone queue; the threads of
      the freed tasks are gone and the slots start a new generation. */
  lemma {:induction false} CleanupFrees(s: Sys, x: nat)
    requires Core(s) && StateAt(s.slots, s.current.slot) != Dead && Live(s.slots, x)
    ensures |TombstoneCleanup(s).slots| == |s.slots|
    ensures IdAt(s.slots, x) !in s.tomb ==> TombstoneCleanup(s).slots[x] == s.slots[x]
    ensures IdAt(s.slots, x) in s.tomb ==>
              && TombstoneCleanup(s).slots[x] == Freed(s.slots[x])
              && ThreadAt(s.slots, x) < |TombstoneCleanup(s).threads|
              && TombstoneCleanup(s).threads[ThreadAt(s.slots, x)] == Thread(Gone, None)
    decreases |s.tomb|
  {
    if s.tomb != [] {
      CleanupStep(s);
      var n := RemoveTask(s.(tomb := s.tomb[1..]), s.tomb[0]);
      RemovedSlot(s.(tomb := s.tomb[1..]), s.tomb[0], x);
      hide Core, RemoveTask, Freed;
      if s.tomb[0] == IdAt(s.slots, x) {
        CleanupLeavesFree(n, x, ThreadAt(s.slots, x));
      } else {
        CleanupFrees(n, x);
      }
    }
  }

  lemma RemovedSlot(s: Sys, id: TaskId, x: nat)
    requires Core(s) && Live(s.slots, x) && Found(s.slots, id)
    ensures var r := RemoveTask(s, id);
            && |r.slots| == |s.slots| && |r.threads| == |s.threads| && ThreadAt(s.slots, x) < |s.threads|
            && if id == IdAt(s.slots, x)
               then r.slots[x] == Freed(s.slots[x])
                    && r.threads[ThreadAt(s.slots, x)] == Thread(Gone, None)
               else r.slots[x] == s.slots[x]
  {
  }

  /** Reaping turns the queued dying tasks dead and touches nothing else. */
  lemma {:induction false} ReapForward(s: Sys, x: nat)
    requires ReapingOk(s) && Live(s.slots, x)
    ensures |ReapDyingTasks(s).slots| == |s.slots| && Forward(s.slots, ReapDyingTasks(s).slots, x)
    ensures StateAt(s.slots, x) != Dying ==> StateAt(ReapDyingTasks(s).slots, x) == StateAt(s.slots, x)
    ensures StateAt(s.slots, x) == Dying && IdAt(s.slots, x) in s.reaper ==> StateAt(ReapDyingTasks(s).slots, x) == Dead
    ensures IdAt(s.slots, x) !in s.reaper ==> StateAt(ReapDyingTasks(s).slots, x) == StateAt(s.slots, x)
    decreases |s.reaper|
  {
    if s.reaper != [] {
      ReapStep(s);
      var n := ReapOne(s.(reaper := s.reaper[1..]), s.reaper[0]);
      assert StateAt(s.slots, s.reaper[0].slot) == Dying ==> n.slots == SetState(s.slots, s.reaper[0].slot, Dead);
      ReapForward(n, x);
    }
  }

  lemma ReapStep(s: Sys)
    requires ReapingOk(s) && s.reaper != []
    ensures var n := ReapOne(s.(reaper := s.reaper[1..]), s.reaper[0]);
            ReapingOk(n) && ReapDyingTasks(s) == ReapDyingTasks(n) && n.reaper == s.reaper[1..]
  {
    var rest := s.(reaper := s.reaper[1..]);
    assert rest.(reaper := []) == s.(reaper := []);
    assert forall i :: 0 <= i < |rest.reaper| ==> rest.reaper[i] == s.reaper[i + 1];
    ReapOneKeeps(rest, s.reaper[0]);
  }

  // ----------------------------------------------------------------------- one tick

  /** From the start of a tick to the cleanup: the tombstone queue and the current
      task are untouched, and no task moves backwards or becomes dead. */
  lemma BeforeCleanupForward(s: Sys, x: nat)
    requires Inv(s) && Live(s.slots, x)
    ensures BeforeCleanup(s).tomb == s.tomb && BeforeCleanup(s).current == s.current
    ensures Forward(s.slots, BeforeCleanup(s).slots, x) && NoNewDead(s.slots, BeforeCleanup(s).slots, x)
    ensures Doomed(StateAt(s.slots, x)) ==> StateAt(BeforeCleanup(s).slots, x) == StateAt(s.slots, x)
  {
    var s0 := s.(sleep := DQ.Tick(s.sleep));
    WakeAllKeeps(s0, DQ.Woken(s.sleep));
    WakeAllForward(s0, DQ.Woken(s.sleep), x);
    var c := CountTick(TickSleepers(s));
    DrainForward(c, x);
    DrainKeepsCurrent(c);
  }

  function AfterCleanup(s: Sys): (r: Sys)
  {
    TombstoneCleanup(BeforeCleanup(s))
  }

  lemma AfterCleanupFacts(s: Sys)
    requires Inv(s)
    ensures ReapingOk(AfterCleanup(s)) && AfterCleanup(s).tomb == []
  {
    BeforeCleanupFacts(s);
    CleanupKeeps(BeforeCleanup(s));
    assert Core(AfterCleanup(s).(reaper := []));
  }

  lemma AfterCleanupOnTask(s: Sys, x: nat)
    requires Inv(s) && Live(s.slots, x)
    ensures |AfterCleanup(s).slots| == |s.slots|
    ensures IdAt(s.slots, x) !in s.tomb ==>
              Forward(s.slots, AfterCleanup(s).slots, x) && NoNewDead(s.slots, AfterCleanup(s).slots, x)
    ensures IdAt(s.slots, x) in s.tomb ==>
              && AfterCleanup(s).slots[x] == Freed(s.slots[x])
              && ThreadAt(s.slots, x) < |AfterCleanup(s).threads|
              && AfterCleanup(s).threads[ThreadAt(s.slots, x)] == Thread(Gone, None)
  {
    BeforeCleanupFacts(s);
    BeforeCleanupForward(s, x);
    hide Core, Freed, BeforeCleanup, Inv;
    CleanupFrees(BeforeCleanup(s), x);
  }

  lemma BeforeSwitchOnTask(s: Sys, x: nat)
    requires Inv(s) && Live(s.slots, x)
    ensures |BeforeSwitch(s).slots| == |s.slots|
    ensures IdAt(s.slots, x) !in s.tomb ==> Forward(s.slots, BeforeSwitch(s).slots, x)
    ensures IdAt(s.slots, x) in s.tomb ==>
              && BeforeSwitch(s).slots[x] == Freed(s.slots[x])
              && ThreadAt(s.slots, x) < |BeforeSwitch(s).threads|
              && BeforeSwitch(s).threads[ThreadAt(s.slots, x)] == Thread(Gone, None)
  {
    AfterCleanupFacts(s);
    AfterCleanupOnTask(s, x);
    if IdAt(s.slots, x) in s.tomb {
      ReapLeavesFree(AfterCleanup(s), x);
    } else {
      ReapForward(AfterCleanup(s), x);
    }
  }

  /** What a timer tick does to one task. It is dropped exactly if it stood in the
      tombstone queue when the tick began; it was dead by then, and it is neither
      the task the tick interrupted nor the task the tick resumes. Otherwise it
      keeps its slot and moves forward only. */
  lemma TickOnTask(s: Sys, x: nat)
    requires Inv(s) && Live(s.slots, x)
    ensures |Tick(s).slots| == |s.slots|
    ensures IdAt(s.slots, x) !in s.tomb ==> Forward(s.slots, Tick(s).slots, x)
    ensures IdAt(s.slots, x) in s.tomb ==>
              && StateAt(s.slots, x) == Dead
              && Tick(s).slots[x] == Freed(s.slots[x])
              && ThreadAt(s.slots, x) < |Tick(s).threads|
              && Tick(s).threads[ThreadAt(s.slots, x)] == Thread(Gone, None)
              && s.current != IdAt(s.slots, x)
              && Tick(s).current != IdAt(s.slots, x)
  {
    BeforeSwitchOnTask(s, x);
    BeforeSwitchKeeps(s);
    TickKeeps(s);
    var b := BeforeSwitch(s);
    assert Schedule(b.(force := false)) == Schedule(b).(force := false);
    if IdAt(s.slots, x) in s.tomb {
      ScheduleLeavesFree(b, x);
    } else if SwitchesOnTick(s) {
      ScheduleForward(b, x);
    }
  }

  lemma {:induction false} ReapLeavesFree(s: Sys, x: nat)
    requires ReapingOk(s) && x < |s.slots| && !Live(s.slots, x)
    ensures |ReapDyingTasks(s).slots| == |s.slots| && ReapDyingTasks(s).slots[x] == s.slots[x]
    ensures ReapDyingTasks(s).threads == s.threads
    decreases |s.reaper|
  {
    if s.reaper != [] {
      ReapStep(s);
      ReapLeavesFree(ReapOne(s.(reaper := s.reaper[1..]), s.reaper[0]), x);
    }
  }

  lemma ScheduleLeavesFree(s: Sys, x: nat)
    requires Core(s) && x < |s.slots| && !Live(s.slots, x)
    ensures |Schedule(s).slots| == |s.slots| && Schedule(s).slots[x] == s.slots[x]
  {
    PickNextFacts(s.slots, s.ready);
  }

  // ------------------------------------------------------------ every operation

  /** Operations other than a tick never free a slot and never make a task dead. */
  lemma OtherOpsOnTask(s: Sys, op: Op, x: nat)
    requires Inv(s) && Enabled(s, op) && !op.TimerTick? && Live(s.slots, x)
    ensures Forward(s.slots, Apply(s, op).slots, x) && NoNewDead(s.slots, Apply(s, op).slots, x)
  {
    match op
    case SpawnTask =>
    case WakeTask(id) =>
    case BeginBlock => BlockedForward(s, x);
    case BeginSleep(n) => if n != 0 { AsleepForward(s, n, x); }
    case Yield => ScheduleForward(s, x);
    case Block => BlockedForward(s, x); ScheduleForward(MarkBlocked(s), x);
    case SleepFor(n) =>
      if n == 0 { ScheduleForward(s, x); } else { AsleepForward(s, n, x); ScheduleForward(MarkAsleep(s, n), x); }
    case Exit => DyingForward(s, x);
    case Fault => DyingForward(s, x);
    case ExitThread(t) =>
  }

  lemma BlockedForward(s: Sys, x: nat)
    requires Inv(s) && s.current != IDLE && Live(s.slots, x)
    ensures Inv(MarkBlocked(s))
    ensures Forward(s.slots, MarkBlocked(s).slots, x) && NoNewDead(s.slots, MarkBlocked(s).slots, x)
  {
    MarkBlockedKeeps(s);
    assert SetQuantum(s, s.current) == s;
  }

  lemma AsleepForward(s: Sys, n: nat, x: nat)
    requires Inv(s) && s.current != IDLE && Live(s.slots, x)
    ensures Inv(MarkAsleep(s, n))
    ensures Forward(s.slots, MarkAsleep(s, n).slots, x) && NoNewDead(s.slots, MarkAsleep(s, n).slots, x)
  {
    BlockedForward(s.(sleep := DQ.Insert(s.sleep, s.current, SleepTicks(n))), x);
  }

  lemma DyingForward(s: Sys, x: nat)
    requires Inv(s) && s.current != IDLE && Live(s.slots, x)
    ensures Forward(s.slots, Schedule(MarkDying(s)).slots, x) && NoNewDead(s.slots, Schedule(MarkDying(s)).slots, x)
  {
    MarkDyingKeeps(s);
    var d := MarkDying(s).(force := true);
    assert Schedule(d).slots == Schedule(MarkDying(s)).slots;
    SetStateFacts(s.slots, s.current.slot, Dying);
    ScheduleForward(d, x);
  }

  /** A task that leaves the table during the operation `op`. */
  ghost predicate Dropped(s: Sys, op: Op, x: nat)
  {
    Live(s.slots, x) && !Found(Apply(s, op).slots, IdAt(s.slots, x))
  }

  /** Life cycles are monotone in every operation, and a task can only be dropped by
      a tick that found it dead when it began, while some other task was current
      before and after. */
  lemma StepLifecycle(s: Sys, op: Op, x: nat)
    requires Inv(s) && Enabled(s, op) && Live(s.slots, x)
    ensures Dropped(s, op, x) ==>
              && op.TimerTick?
              && StateAt(s.slots, x) == Dead
              && s.current != IdAt(s.slots, x)
              && Apply(s, op).current != IdAt(s.slots, x)
              && ThreadAt(s.slots, x) < |Apply(s, op).threads|
              && Apply(s, op).threads[ThreadAt(s.slots, x)] == Thread(Gone, None)
    ensures !Dropped(s, op, x) ==> Forward(s.slots, Apply(s, op).slots, x)
    ensures !Dropped(s, op, x) && !op.TimerTick? ==> NoNewDead(s.slots, Apply(s, op).slots, x)
  {
    if op.TimerTick? {
      TickOnTask(s, x);
    } else {
      OtherOpsOnTask(s, op, x);
    }
  }

  // ----------------------------------------------------------------------- runs

  lemma {:induction false} RunSplit(s: Sys, ops: seq<Op>, k: nat)
    requires k < |ops|
    ensures EnabledRun(s, ops) ==> EnabledRun(s, ops[..k]) && Enabled(Run(s, ops[..k]), ops[k])
    ensures Run(s, ops[..k + 1]) == Apply(Run(s, ops[..k]), ops[k])
    decreases k
  {
    if k == 0 {
      assert ops[..1] == [ops[0]] && ops[..1][1..] == [];
    } else {
      RunSplit(Apply(s, ops[0]), ops[1..], k - 1);
      assert ops[..k][1..] == ops[1..][..k - 1] && ops[..k + 1][1..] == ops[1..][..k];
    }
  }

  /** Stack safety, for every run from boot and every operation in it: if a task
      (and with it its stack) is dropped, the operation is a timer tick, the task was
      already dead when that tick began, and it was the current task neither before
      nor after. A task that becomes dead does so during a tick, so one whole tick
      boundary lies in between. */
  lemma CurrentStackIsNeverDropped(ops: seq<Op>, k: nat, x: nat)
    requires EnabledRun(Boot(), ops) && k < |ops|
    requires Live(Run(Boot(), ops[..k]).slots, x)
    ensures var s, s' := Run(Boot(), ops[..k]), Run(Boot(), ops[..k + 1]);
            var id := IdAt(s.slots, x);
            && (!Found(s'.slots, id) ==>
                  ops[k].TimerTick? && StateAt(s.slots, x) == Dead && s.current != id && s'.current != id)
            && (Found(s'.slots, id) && StateAt(s'.slots, x) == Dead && StateAt(s.slots, x) != Dead ==>
                  ops[k].TimerTick? && s'.current != id)
  {
    BootInv();
    RunSplit(Boot(), ops, k);
    RunKeeps(Boot(), ops[..k]);
    var s := Run(Boot(), ops[..k]);
    StepLifecycle(s, ops[k], x);
    StepKeeps(s, ops[k]);
  }

  /** Once doomed, always doomed, until the slot is freed: for every run from boot. */
  lemma LifecycleIsMonotone(ops: seq<Op>, k: nat, x: nat)
    requires EnabledRun(Boot(), ops) && k < |ops|
    requires Live(Run(Boot(), ops[..k]).slots, x)
    ensures var s, s' := Run(Boot(), ops[..k]), Run(Boot(), ops[..k + 1]);
            Found(s'.slots, IdAt(s.slots, x)) ==>
              && (StateAt(s.slots, x) == Dying ==> StateAt(s'.slots, x) == Dying || StateAt(s'.slots, x) == Dead)
              && (StateAt(s.slots, x) == Dead ==> StateAt(s'.slots, x) == Dead)
  {
    hide Apply, Enabled, Boot, Inv;
    BootInv();
    RunSplit(Boot(), ops, k);
    RunKeeps(Boot(), ops[..k]);
    StepLifecycle(Run(Boot(), ops[..k]), ops[k], x);
  }

  /** In every reachable state each thread mirrors its task, or has lost its task
      and is gone. */
  lemma ThreadsMirrorTasks(ops: seq<Op>, t: nat)
    requires EnabledRun(Boot(), ops) && t < |Run(Boot(), ops).threads|
    ensures var s := Run(Boot(), ops);
            if s.threads[t].task.None? then s.threads[t].state == Gone
            else Found(s.slots, s.threads[t].task.value)
                 && match StateAt(s.slots, s.threads[t].task.value.slot)
                    case Ready => s.threads[t].state == Active
                    case Running => s.threads[t].state == Active
                    case Blocked => s.threads[t].state == Waiting
                    case Dying => s.threads[t].state == Exiting
                    case Dead => s.threads[t].state == Exiting
  {
    hide Apply, Enabled, Boot;
    BootInv();
    RunKeeps(Boot(), ops);
  }
}
