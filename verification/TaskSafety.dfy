/** What every operation keeps, and what follows for whole runs: the stack of the
    current task is never dropped, lifecycles only move forward, and threads
    report the state of their tasks. These results hold for every interleaving,
    including interrupts between the two halves of a block or a sleep, and
    whether or not a queue overflows. */
module TaskSafety {
  import opened Basics
  import opened TaskIds
  import opened TaskModel
  import DQ = DeltaQueue

  ghost predicate SlotsOk(slots: seq<Slot>)
  {
    && |slots| == MAX_TASKS
    && (forall x :: 0 <= x < |slots| ==> slots[x].gen < GENERATIONS)
    && (forall x: nat :: Live(slots, x) ==> slots[x].task.value.quantum == TASK_QUANTUM_TICKS)
    && Live(slots, 0) && slots[0].gen == 0 && ThreadAt(slots, 0) == 0
    && (StateAt(slots, 0) == Ready || StateAt(slots, 0) == Running)
  }

  /** Every task has a thread that knows it and mirrors its state; every thread
      either owns a task or is gone. */
  ghost predicate ThreadsOk(slots: seq<Slot>, threads: seq<Thread>)
  {
    && (forall x: nat :: Live(slots, x) ==>
          && ThreadAt(slots, x) < |threads|
          && threads[ThreadAt(slots, x)] == Thread(Mirror(StateAt(slots, x)), Some(IdAt(slots, x))))
    && (forall t :: 0 <= t < |threads| ==>
          if threads[t].task.None? then threads[t].state == Gone
          else Found(slots, threads[t].task.value) && ThreadAt(slots, threads[t].task.value.slot) == t)
  }

  predicate Doomed(st: TaskState)
  {
    st == Dying || st == Dead
  }

  /** The current task exists, is doomed only while a forced switch is pending, and
      is the only task that can be `Running`. */
  ghost predicate CurrentOk(s: Sys)
  {
    && Found(s.slots, s.current)
    && (Doomed(StateAt(s.slots, s.current.slot)) ==> s.force)
    && (forall x: nat :: Live(s.slots, x) && StateAt(s.slots, x) == Running ==> s.current == IdAt(s.slots, x))
  }

  ghost predicate ReaperOk(slots: seq<Slot>, reaper: seq<TaskId>)
  {
    forall i :: 0 <= i < |reaper| ==> Found(slots, reaper[i]) && StateAt(slots, reaper[i].slot) == Dying
  }

  ghost predicate TombOk(slots: seq<Slot>, tomb: seq<TaskId>)
  {
    && (forall i :: 0 <= i < |tomb| ==> Found(slots, tomb[i]) && StateAt(slots, tomb[i].slot) == Dead)
    && (forall i, j :: 0 <= i < j < |tomb| ==> tomb[i] != tomb[j])
  }

  ghost predicate Killable(slots: seq<Slot>, packed: nat)
  {
    && packed < TWO64
    && Found(slots, Expand(packed))
    && Expand(packed).slot != 0
    && StateAt(slots, Expand(packed).slot) != Dead
  }

  ghost predicate SysqOk(slots: seq<Slot>, sysq: seq<nat>)
  {
    forall i :: 0 <= i < |sysq| ==> Killable(slots, sysq[i])
  }

  ghost predicate LengthsOk(s: Sys)
  {
    && |s.ready| <= QUEUE_SIZE
    && |s.reaper| <= REAPER_QUEUE_SIZE
    && |s.tomb| <= TOMBSTONE_QUEUE_SIZE
    && |s.sysq| <= MAX_SYSTEM_TASKS
    && |s.sleep| <= DQ.MAX_SLEEP_ENTRIES
  }

  ghost predicate Core(s: Sys)
  {
    && SlotsOk(s.slots)
    && ThreadsOk(s.slots, s.threads)
    && CurrentOk(s)
    && ReaperOk(s.slots, s.reaper)
    && TombOk(s.slots, s.tomb)
    && SysqOk(s.slots, s.sysq)
    && LengthsOk(s)
    && 1 <= s.ticks <= TASK_QUANTUM_TICKS
  }

  /** The invariant between operations. */
  ghost predicate Inv(s: Sys)
  {
    Core(s) && !s.force
  }

  // --------------------------------------------------------- single-slot changes

  lemma SetStateFacts(slots: seq<Slot>, x: nat, st: TaskState)
    requires Live(slots, x)
    ensures var r := SetState(slots, x, st);
            && |r| == |slots|
            && (forall y: nat :: Live(r, y) <==> Live(slots, y))
            && (forall id :: Found(r, id) <==> Found(slots, id))
            && (forall y :: 0 <= y < |r| ==> IdAt(r, y) == IdAt(slots, y))
            && (forall y: nat :: Live(slots, y) ==> StateAt(r, y) == (if y == x then st else StateAt(slots, y)))
            && (forall y: nat :: Live(slots, y) ==> ThreadAt(r, y) == ThreadAt(slots, y))
            && (forall y: nat :: Live(slots, y) ==> r[y].task.value.quantum == slots[y].task.value.quantum)
  {
  }

  /** Two live slots never share a thread. */
  lemma ThreadsDistinct(slots: seq<Slot>, threads: seq<Thread>, x: nat, y: nat)
    requires ThreadsOk(slots, threads) && Live(slots, x) && Live(slots, y)
    requires ThreadAt(slots, x) == ThreadAt(slots, y)
    ensures x == y
  {
    assert threads[ThreadAt(slots, x)].task == Some(IdAt(slots, x));
  }

  lemma MarkKeepsTables(s: Sys, x: nat, st: TaskState)
    requires SlotsOk(s.slots) && ThreadsOk(s.slots, s.threads)
    requires Live(s.slots, x) && (x == 0 ==> st == Ready || st == Running)
    ensures SlotsOk(Mark(s, x, st).slots) && ThreadsOk(Mark(s, x, st).slots, Mark(s, x, st).threads)
  {
    var r := Mark(s, x, st);
    SetStateFacts(s.slots, x, st);
    forall y: nat | Live(r.slots, y)
      ensures r.threads[ThreadAt(r.slots, y)] == Thread(Mirror(StateAt(r.slots, y)), Some(IdAt(r.slots, y)))
    {
      if y != x && ThreadAt(s.slots, y) == ThreadAt(s.slots, x) {
        ThreadsDistinct(s.slots, s.threads, x, y);
      }
    }
  }

  /** A state change that the thread does not see, between two states with the same
      mirror image. */
  lemma SetStateKeepsTables(slots: seq<Slot>, threads: seq<Thread>, x: nat, st: TaskState)
    requires SlotsOk(slots) && ThreadsOk(slots, threads)
    requires Live(slots, x) && Mirror(StateAt(slots, x)) == Mirror(st)
    requires x == 0 ==> st == Ready || st == Running
    ensures SlotsOk(SetState(slots, x, st)) && ThreadsOk(SetState(slots, x, st), threads)
  {
    SetStateFacts(slots, x, st);
  }

  // ------------------------------------------------------------------- scheduling

  ghost predicate SuffixOf(q: seq<TaskId>, ready: seq<TaskId>)
  {
    |q| <= |ready| && (ready != [] ==> |q| < |ready|) && q == ready[|ready| - |q|..]
  }

  ghost predicate ChosenFrom(slots: seq<Slot>, p: Pick)
  {
    && Found(slots, p.next)
    && ((p.next == IDLE && p.slots == slots)
        || (StateAt(slots, p.next.slot) == Ready && p.slots == SetState(slots, p.next.slot, Running)))
  }

  lemma {:induction false} PickNextSuffix(slots: seq<Slot>, ready: seq<TaskId>)
    ensures SuffixOf(PickNext(slots, ready).ready, ready)
    decreases |ready|
  {
    hide StateAt, SetState;
    if ready != [] && !(Found(slots, ready[0]) && StateAt(slots, ready[0].slot) == Ready) {
      PickNextSuffix(slots, ready[1..]);
      Suffixes(ready, |ready| - 1 - |PickNext(slots, ready[1..]).ready|);
    }
  }

  lemma {:induction false} PickNextChoice(slots: seq<Slot>, ready: seq<TaskId>)
    requires Found(slots, IDLE)
    ensures ChosenFrom(slots, PickNext(slots, ready))
    decreases |ready|
  {
    hide SetState;
    if ready != [] && !(Found(slots, ready[0]) && StateAt(slots, ready[0].slot) == Ready) {
      PickNextChoice(slots, ready[1..]);
    }
  }

  lemma {:induction false} PickNextFacts(slots: seq<Slot>, ready: seq<TaskId>)
    requires SlotsOk(slots)
    ensures SuffixOf(PickNext(slots, ready).ready, ready)
    ensures ChosenFrom(slots, PickNext(slots, ready))
  {
    PickNextSuffix(slots, ready);
    PickNextChoice(slots, ready);
  }

  lemma Suffixes(q: seq<TaskId>, k: nat)
    requires k < |q|
    ensures q[1..][k..] == q[k + 1..]
  {
  }

  /** The switch itself: the incoming task was not doomed, the outgoing one keeps
      its lifecycle state unless it was running. */
  lemma ScheduleKeeps(s: Sys)
    requires Core(s)
    ensures Core(Schedule(s).(force := false))
    ensures Schedule(s).force == s.force
  {
    PickNextFacts(s.slots, s.ready);
    var p := PickNext(s.slots, s.ready);
    var r := Schedule(s);
    if p.slots != s.slots {
      SetStateFacts(s.slots, p.next.slot, Running);
      SetStateKeepsTables(s.slots, s.threads, p.next.slot, Running);
    }
    if Requeues(p.slots, s.current) {
      SetStateFacts(p.slots, s.current.slot, Ready);
      SetStateKeepsTables(p.slots, s.threads, s.current.slot, Ready);
    }
    ScheduleStates(s);
  }

  /** What a switch does to the state of each task. */
  lemma ScheduleStates(s: Sys)
    requires Core(s)
    ensures |Schedule(s).slots| == |s.slots|
    ensures forall x: nat :: Live(Schedule(s).slots, x) <==> Live(s.slots, x)
    ensures forall x :: 0 <= x < |s.slots| ==> IdAt(Schedule(s).slots, x) == IdAt(s.slots, x)
    ensures forall x: nat :: Live(s.slots, x) && (StateAt(s.slots, x) == Blocked || Doomed(StateAt(s.slots, x))) ==>
              StateAt(Schedule(s).slots, x) == StateAt(s.slots, x)
    ensures forall x: nat :: Live(s.slots, x) && StateAt(s.slots, x) == Ready ==>
              StateAt(Schedule(s).slots, x) == Ready
              || (StateAt(Schedule(s).slots, x) == Running && Schedule(s).current == IdAt(s.slots, x))
    ensures forall x: nat :: Live(s.slots, x) && StateAt(s.slots, x) == Running ==> StateAt(Schedule(s).slots, x) == Ready
  {
    PickNextFacts(s.slots, s.ready);
    var p := PickNext(s.slots, s.ready);
    if p.slots != s.slots {
      SetStateFacts(s.slots, p.next.slot, Running);
    }
    if Requeues(p.slots, s.current) {
      SetStateFacts(p.slots, s.current.slot, Ready);
    }
  }

  // -------------------------------------------------------------------- waking up

  lemma WakeKeeps(s: Sys, id: TaskId)
    requires Core(s)
    ensures Core(Wake(s, id))
  {
    if Found(s.slots, id) && StateAt(s.slots, id.slot) == Blocked {
      SetStateFacts(s.slots, id.slot, Ready);
      MarkKeepsTables(s, id.slot, Ready);
    }
  }

  lemma {:induction false} WakeAllKeeps(s: Sys, ids: seq<TaskId>)
    requires Core(s)
    ensures Core(WakeAll(s, ids))
    ensures WakeAll(s, ids).force == s.force
    decreases |ids|
  {
    if ids != [] {
      WakeKeeps(s, ids[0]);
      WakeAllKeeps(Wake(s, ids[0]), ids[1..]);
    }
  }

  // ---------------------------------------------------------------------- dying

  lemma MarkBlockedKeeps(s: Sys)
    requires Inv(s) && s.current != IDLE
    ensures Inv(MarkBlocked(s))
  {
    assert SetQuantum(s, s.current) == s;
    SetStateFacts(s.slots, s.current.slot, Blocked);
    MarkKeepsTables(s, s.current.slot, Blocked);
  }

  /** After `task_exit` has marked the task, only the pending switch is missing. */
  lemma MarkDyingKeeps(s: Sys)
    requires Inv(s) && s.current != IDLE
    ensures Core(MarkDying(s).(force := true))
  {
    SetStateFacts(s.slots, s.current.slot, Dying);
    MarkKeepsTables(s, s.current.slot, Dying);
  }

  lemma KillTaskKeeps(s: Sys, packed: nat)
    requires Core(s) && Killable(s.slots, packed)
    ensures Core(KillTask(s, packed))
  {
    var x := Expand(packed).slot;
    SetStateFacts(s.slots, x, Dying);
    MarkKeepsTables(s, x, Dying);
  }

  lemma {:induction false} DrainKeeps(s: Sys)
    requires Core(s)
    ensures Core(DrainSystemTasks(s)) && DrainSystemTasks(s).sysq == []
    decreases |s.sysq|
  {
    if s.sysq != [] {
      var rest := s.(sysq := s.sysq[1..]);
      assert Killable(s.slots, s.sysq[0]);
      assert forall i :: 0 <= i < |rest.sysq| ==> rest.sysq[i] == s.sysq[i + 1];
      KillTaskKeeps(rest, s.sysq[0]);
      DrainKeeps(KillTask(rest, s.sysq[0]));
    }
  }

  // ------------------------------------------------------------------- tombstones

  /** Removing a task that is neither current, nor dying, nor targeted by a queued
      killer, nor in the rest of the tombstone queue. */
  lemma RemoveKeeps(s: Sys, id: TaskId)
    requires Core(s) && Found(s.slots, id) && StateAt(s.slots, id.slot) == Dead
    requires id != s.current && id !in s.tomb
    ensures Core(RemoveTask(s, id))
  {
    var r := RemoveTask(s, id);
    var t := ThreadAt(s.slots, id.slot);
    forall y: nat | Live(r.slots, y)
      ensures ThreadAt(r.slots, y) < |r.threads|
      ensures r.threads[ThreadAt(r.slots, y)] == Thread(Mirror(StateAt(r.slots, y)), Some(IdAt(r.slots, y)))
    {
      assert Live(s.slots, y) && r.slots[y] == s.slots[y];
      if ThreadAt(s.slots, y) == t {
        ThreadsDistinct(s.slots, s.threads, id.slot, y);
      }
    }
    forall u | 0 <= u < |r.threads| && r.threads[u].task.Some?
      ensures Found(r.slots, r.threads[u].task.value) && ThreadAt(r.slots, r.threads[u].task.value.slot) == u
    {
      assert u != t;
    }
  }

  /** Tombstone cleanup never meets the current task, whatever else is pending. */
  lemma {:induction false} CleanupKeeps(s: Sys)
    requires Core(s) && StateAt(s.slots, s.current.slot) != Dead
    ensures Core(TombstoneCleanup(s)) && TombstoneCleanup(s).tomb == []
    ensures TombstoneCleanup(s).sysq == s.sysq
    decreases |s.tomb|
  {
    if s.tomb != [] {
      var rest := s.(tomb := s.tomb[1..]);
      assert forall i :: 0 <= i < |rest.tomb| ==> rest.tomb[i] == s.tomb[i + 1];
      RemoveKeeps(rest, s.tomb[0]);
      CleanupKeeps(RemoveTask(rest, s.tomb[0]));
    }
  }

  // ----------------------------------------------------------------------- reaping

  /** While the reaper runs, an id that was queued twice is already dead the second
      time. */
  ghost predicate ReapingOk(s: Sys)
  {
    && Core(s.(reaper := []))
    && s.sysq == []
    && forall i :: 0 <= i < |s.reaper| ==>
         Found(s.slots, s.reaper[i]) && s.reaper[i].slot != 0 && Doomed(StateAt(s.slots, s.reaper[i].slot))
  }

  lemma ReapOneKeeps(s: Sys, id: TaskId)
    requires ReapingOk(s) && Found(s.slots, id) && id.slot != 0
    ensures ReapingOk(ReapOne(s, id))
  {
    if StateAt(s.slots, id.slot) == Dying {
      SetStateFacts(s.slots, id.slot, Dead);
      SetStateKeepsTables(s.slots, s.threads, id.slot, Dead);
      var r := ReapOne(s, id);
      forall i | 0 <= i < |r.tomb| ensures Found(r.slots, r.tomb[i]) && StateAt(r.slots, r.tomb[i].slot) == Dead {
        assert r.tomb[i] == id || r.tomb[i] == s.tomb[i];
      }
      assert id !in s.tomb;
    }
  }

  lemma {:induction false} ReapKeeps(s: Sys)
    requires ReapingOk(s)
    ensures Core(ReapDyingTasks(s)) && ReapDyingTasks(s).reaper == []
    decreases |s.reaper|
  {
    if s.reaper == [] {
      assert s == s.(reaper := []);
    } else {
      var rest := s.(reaper := s.reaper[1..]);
      assert rest.(reaper := []) == s.(reaper := []);
      assert forall i :: 0 <= i < |rest.reaper| ==> rest.reaper[i] == s.reaper[i + 1];
      ReapOneKeeps(rest, s.reaper[0]);
      ReapKeeps(ReapOne(rest, s.reaper[0]));
    }
  }

  // -------------------------------------------------------------- every operation

  lemma SpawnKeeps(s: Sys)
    requires Inv(s) && Spawn(s).Started?
    ensures Inv(Spawn(s).sys)
  {
    var x := FirstFree(s.slots, 0);
    var r := Spawn(s).sys;
    forall t | 0 <= t < |r.threads|
      ensures if r.threads[t].task.None? then r.threads[t].state == Gone
              else Found(r.slots, r.threads[t].task.value) && ThreadAt(r.slots, r.threads[t].task.value.slot) == t
    {
      assert t < |s.threads| ==> r.threads[t] == s.threads[t];
    }
    forall y: nat | Live(r.slots, y)
      ensures ThreadAt(r.slots, y) < |r.threads|
      ensures r.threads[ThreadAt(r.slots, y)] == Thread(Mirror(StateAt(r.slots, y)), Some(IdAt(r.slots, y)))
    {
      if y != x {
        assert Live(s.slots, y) && r.slots[y] == s.slots[y];
      }
    }
  }

  /** `Thread::exit` only ever queues a killer for a task that is alive and not yet
      dead; the idle thread is excluded by the caller. */
  lemma RequestExitKeeps(s: Sys, t: nat)
    requires Inv(s) && t != 0
    ensures Inv(RequestExit(s, t))
  {
    var r := RequestExit(s, t);
    if r.sysq != s.sysq {
      var id := s.threads[t].task.value;
      CompressRoundTrip(id);
      assert Killable(s.slots, Compress(id));
      forall i | 0 <= i < |r.sysq| ensures Killable(r.slots, r.sysq[i]) {
        assert i < |s.sysq| ==> r.sysq[i] == s.sysq[i];
      }
    }
  }

  /** The state in which the tombstones are cleaned up: all kills have been done,
      and the current task may be dying, but is not dead. */
  lemma BeforeCleanupFacts(s: Sys)
    requires Inv(s)
    ensures Core(BeforeCleanup(s)) && BeforeCleanup(s).sysq == []
    ensures StateAt(BeforeCleanup(s).slots, BeforeCleanup(s).current.slot) != Dead
  {
    WakeAllKeeps(s.(sleep := DQ.Tick(s.sleep)), DQ.Woken(s.sleep));
    var c := CountTick(TickSleepers(s));
    assert Core(c);
    DrainKeeps(c);
    DrainNeverKillsTheDead(c, c.current.slot);
    DrainKeepsCurrent(c);
  }

  lemma {:induction false} DrainKeepsCurrent(s: Sys)
    ensures DrainSystemTasks(s).current == s.current
    ensures DrainSystemTasks(s).tomb == s.tomb
    decreases |s.sysq|
  {
    if s.sysq != [] {
      DrainKeepsCurrent(KillTask(s.(sysq := s.sysq[1..]), s.sysq[0]));
    }
  }

  /** Draining changes a task only to `Dying`, and only if it was not dead. */
  lemma {:induction false} DrainNeverKillsTheDead(s: Sys, x: nat)
    requires Core(s) && Live(s.slots, x)
    ensures Live(DrainSystemTasks(s).slots, x) && IdAt(DrainSystemTasks(s).slots, x) == IdAt(s.slots, x)
    ensures StateAt(DrainSystemTasks(s).slots, x) == StateAt(s.slots, x)
            || (StateAt(s.slots, x) != Dead && StateAt(DrainSystemTasks(s).slots, x) == Dying)
    decreases |s.sysq|
  {
    if s.sysq != [] {
      var rest := s.(sysq := s.sysq[1..]);
      assert Killable(s.slots, s.sysq[0]);
      assert forall i :: 0 <= i < |rest.sysq| ==> rest.sysq[i] == s.sysq[i + 1];
      KillTaskKeeps(rest, s.sysq[0]);
      SetStateFacts(s.slots, Expand(s.sysq[0]).slot, Dying);
      DrainNeverKillsTheDead(KillTask(rest, s.sysq[0]), x);
    }
  }

  lemma BeforeSwitchKeeps(s: Sys)
    requires Inv(s)
    ensures Core(BeforeSwitch(s))
    ensures BeforeSwitch(s).reaper == []
  {
    BeforeCleanupFacts(s);
    CleanupKeeps(BeforeCleanup(s));
    var c := TombstoneCleanup(BeforeCleanup(s));
    assert Core(c.(reaper := []));
    ReapKeeps(c);
  }

  lemma TickKeeps(s: Sys)
    requires Inv(s)
    ensures Inv(Tick(s))
  {
    BeforeSwitchKeeps(s);
    var b := BeforeSwitch(s);
    if SwitchesOnTick(s) {
      ScheduleKeeps(b);
      assert Schedule(b.(force := false)) == Schedule(b).(force := false);
    }
  }

  lemma StepKeeps(s: Sys, op: Op)
    requires Inv(s) && Enabled(s, op)
    ensures Inv(Apply(s, op))
  {
    match op
    case TimerTick => TickKeeps(s);
    case SpawnTask => if Spawn(s).Started? { SpawnKeeps(s); }
    case WakeTask(id) => WakeKeeps(s, id);
    case BeginBlock => MarkBlockedKeeps(s);
    case BeginSleep(n) => if n != 0 { MarkAsleepKeeps(s, n); }
    case Yield => ScheduleInv(s);
    case Block => MarkBlockedKeeps(s); ScheduleInv(MarkBlocked(s));
    case SleepFor(n) => if n == 0 { ScheduleInv(s); } else { MarkAsleepKeeps(s, n); ScheduleInv(MarkAsleep(s, n)); }
    case Exit => DyingSwitchInv(s);
    case Fault => DyingSwitchInv(s);
    case ExitThread(t) => RequestExitKeeps(s, t);
  }

  lemma ScheduleInv(s: Sys)
    requires Inv(s)
    ensures Inv(Schedule(s))
  {
    ScheduleKeeps(s);
    assert Schedule(s) == Schedule(s).(force := false);
  }

  lemma MarkAsleepKeeps(s: Sys, seconds: nat)
    requires Inv(s) && s.current != IDLE
    ensures Inv(MarkAsleep(s, seconds))
  {
    MarkBlockedKeeps(s.(sleep := DQ.Insert(s.sleep, s.current, SleepTicks(seconds))));
  }

  lemma DyingSwitchInv(s: Sys)
    requires Inv(s) && s.current != IDLE
    ensures Inv(Schedule(MarkDying(s)))
  {
    MarkDyingKeeps(s);
    var d := MarkDying(s).(force := true);
    ScheduleKeeps(d);
    assert Schedule(MarkDying(s)) == Schedule(d).(force := false);
  }

  lemma BootInv()
    ensures Inv(Boot())
  {
  }

  /** Every state of every enabled run satisfies the invariant. */
  lemma {:induction false} RunKeeps(s: Sys, ops: seq<Op>)
    requires Inv(s) && EnabledRun(s, ops)
    ensures Inv(Run(s, ops))
    decreases |ops|
  {
    if ops != [] {
      StepKeeps(s, ops[0]);
      RunKeeps(Apply(s, ops[0]), ops[1..]);
    }
  }
}
