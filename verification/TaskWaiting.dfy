/** Round-robin fairness: how long a ready task waits for the CPU, in every run and
    under every interleaving. */
module TaskWaiting {
  import opened TaskIds
  import opened TaskModel
  import opened TaskSafety
  import opened TaskLifecycle
  import opened TaskDeadline
  import DQ = DeltaQueue

  /** Task `x` is ready, not on the CPU, and stands at index `k` of the ready queue. */
  ghost predicate WaitsAt(s: Sys, x: nat, k: nat)
  {
    && Live(s.slots, x) && StateAt(s.slots, x) == Ready
    && k < |s.ready| && s.ready[k] == IdAt(s.slots, x)
    && s.current != IdAt(s.slots, x)
  }

  /** The task with this id holds the CPU, or has been killed. */
  ghost predicate ServedOrKilled(s: Sys, id: TaskId)
  {
    s.current == id || !Found(s.slots, id) || Doomed(StateAt(s.slots, id.slot))
  }

  function Measure(s: Sys, k: nat): (m: nat)
  {
    TASK_QUANTUM_TICKS * k + s.ticks
  }

  lemma {:induction false} PickReaches(slots: seq<Slot>, ready: seq<TaskId>, k: nat)
    requires SlotsOk(slots) && k < |ready| && Found(slots, ready[k]) && StateAt(slots, ready[k].slot) == Ready
    ensures var p := PickNext(slots, ready);
            && |ready| - |p.ready| <= k + 1
            && (|ready| - |p.ready| == k + 1 ==> p.next == ready[k])
            && Live(slots, p.next.slot) && p.slots == SetState(slots, p.next.slot, Running)
    decreases |ready|
  {
    if !(Found(slots, ready[0]) && StateAt(slots, ready[0].slot) == Ready) {
      PickReaches(slots, ready[1..], k - 1);
    }
  }

  /** A switch moves the waiter at least one place forward and hands out a fresh
      quantum of four ticks. */
  lemma ScheduleServes(s: Sys, x: nat, k: nat)
    requires Core(s) && WaitsAt(s, x, k)
    ensures Schedule(s).current == IdAt(s.slots, x)
            || ((exists j :: 0 <= j < k && WaitsAt(Schedule(s), x, j)) && Schedule(s).ticks == TASK_QUANTUM_TICKS)
  {
    PickReaches(s.slots, s.ready, k);
    PickNextFacts(s.slots, s.ready);
    var p := PickNext(s.slots, s.ready);
    SetStateFacts(s.slots, p.next.slot, Running);
    if Requeues(p.slots, s.current) {
      SetStateFacts(p.slots, s.current.slot, Ready);
    }
    var d := |s.ready| - |p.ready|;
    if p.next != IdAt(s.slots, x) {
      assert p.ready[k - d] == s.ready[k];
      assert Schedule(s).ready[k - d] == s.ready[k];
      assert WaitsAt(Schedule(s), x, k - d);
    }
  }

  lemma {:induction false} WakeAllWaits(s: Sys, ids: seq<TaskId>, x: nat, k: nat)
    requires Core(s) && WaitsAt(s, x, k)
    ensures WaitsAt(WakeAll(s, ids), x, k) && IdAt(WakeAll(s, ids).slots, x) == IdAt(s.slots, x)
    ensures WakeAll(s, ids).ticks == s.ticks && WakeAll(s, ids).current == s.current
    decreases |ids|
  {
    if ids != [] {
      WakeKeeps(s, ids[0]);
      WakeAllWaits(Wake(s, ids[0]), ids[1..], x, k);
    }
  }

  lemma {:induction false} DrainKeepsQueue(s: Sys)
    ensures DrainSystemTasks(s).ready == s.ready && DrainSystemTasks(s).ticks == s.ticks
    decreases |s.sysq|
  {
    if s.sysq != [] {
      DrainKeepsQueue(KillTask(s.(sysq := s.sysq[1..]), s.sysq[0]));
    }
  }

  lemma {:induction false} CleanupKeepsQueue(s: Sys)
    ensures TombstoneCleanup(s).ready == s.ready && TombstoneCleanup(s).ticks == s.ticks
    ensures TombstoneCleanup(s).current == s.current
    decreases |s.tomb|
  {
    if s.tomb != [] {
      CleanupKeepsQueue(RemoveTask(s.(tomb := s.tomb[1..]), s.tomb[0]));
    }
  }

  lemma {:induction false} ReapKeepsQueue(s: Sys)
    ensures ReapDyingTasks(s).ready == s.ready && ReapDyingTasks(s).ticks == s.ticks
    ensures ReapDyingTasks(s).current == s.current
    decreases |s.reaper|
  {
    if s.reaper != [] {
      ReapKeepsQueue(ReapOne(s.(reaper := s.reaper[1..]), s.reaper[0]));
    }
  }

  /** Up to the switch, a tick leaves the current task alone and only appends to the
      ready queue. */
  lemma BeforeSwitchQueue(s: Sys)
    ensures BeforeSwitch(s).ready == TickSleepers(s).ready
    ensures BeforeSwitch(s).ticks == CountTick(TickSleepers(s)).ticks
    ensures BeforeSwitch(s).current == TickSleepers(s).current
  {
    var c := CountTick(TickSleepers(s));
    DrainKeepsQueue(c);
    DrainKeepsCurrent(c);
    CleanupKeepsQueue(BeforeCleanup(s));
    ReapKeepsQueue(TombstoneCleanup(BeforeCleanup(s)));
  }

  /** States that the part of a tick before the switch leaves alone, unless it kills
      the task: a ready task stays ready. */
  lemma BeforeSwitchState(s: Sys, x: nat)
    requires Inv(s) && Live(s.slots, x) && !Doomed(StateAt(s.slots, x))
    ensures Found(BeforeSwitch(s).slots, IdAt(s.slots, x)) && Live(TickSleepers(s).slots, x)
    ensures StateAt(BeforeSwitch(s).slots, x) == StateAt(TickSleepers(s).slots, x)
            || Doomed(StateAt(BeforeSwitch(s).slots, x))
    ensures StateAt(s.slots, x) == Ready || StateAt(s.slots, x) == Running ==>
              StateAt(BeforeSwitch(s).slots, x) == StateAt(s.slots, x) || Doomed(StateAt(BeforeSwitch(s).slots, x))
  {
    var s0 := s.(sleep := DQ.Tick(s.sleep));
    WakeAllKeeps(s0, DQ.Woken(s.sleep));
    WakeAllForward(s0, DQ.Woken(s.sleep), x);
    DrainNeverKillsTheDead(CountTick(TickSleepers(s)), x);
    BeforeCleanupFacts(s);
    BeforeCleanupForward(s, x);
    CleanupFrees(BeforeCleanup(s), x);
    AfterCleanupFacts(s);
    assert IdAt(s.slots, x) !in s.tomb;
    ReapForward(AfterCleanup(s), x);
  }

  lemma TickServes(s: Sys, x: nat, k: nat)
    requires Inv(s) && WaitsAt(s, x, k)
    ensures ServedOrKilled(Tick(s), IdAt(s.slots, x))
            || exists j :: 0 <= j <= k && WaitsAt(Tick(s), x, j) && Measure(Tick(s), j) < Measure(s, k)
                           && IdAt(Tick(s).slots, x) == IdAt(s.slots, x)
  {
    var id := IdAt(s.slots, x);
    WakeAllWaits(s.(sleep := DQ.Tick(s.sleep)), DQ.Woken(s.sleep), x, k);
    BeforeSwitchQueue(s);
    BeforeSwitchState(s, x);
    BeforeSwitchKeeps(s);
    var b := BeforeSwitch(s);
    if Doomed(StateAt(b.slots, x)) {
      ScheduleStates(b);
      assert Schedule(b.(force := false)) == Schedule(b).(force := false);
    } else {
      assert WaitsAt(b, x, k);
      if SwitchesOnTick(s) {
        ScheduleServes(b, x, k);
        ScheduleStates(b);
        assert Schedule(b.(force := false)) == Schedule(b).(force := false);
        if Schedule(b).current != id {
          var j :| 0 <= j < k && WaitsAt(Schedule(b), x, j);
          assert WaitsAt(Tick(s), x, j) && Measure(Tick(s), j) < Measure(s, k);
        }
      } else {
        assert WaitsAt(Tick(s), x, k) && Measure(Tick(s), k) < Measure(s, k);
      }
    }
  }

  /** A voluntary switch, after whatever the current task did to itself. */
  lemma SwitchServes(s: Sys, m: Sys, x: nat, k: nat)
    requires Inv(s) && WaitsAt(s, x, k) && Core(m)
    requires WaitsAt(m, x, k) && IdAt(m.slots, x) == IdAt(s.slots, x) && m.ticks == s.ticks
    ensures ServedOrKilled(Schedule(m), IdAt(s.slots, x))
            || exists j :: 0 <= j <= k && WaitsAt(Schedule(m), x, j) && Measure(Schedule(m), j) < Measure(s, k)
                           && IdAt(Schedule(m).slots, x) == IdAt(s.slots, x)
  {
    ScheduleServes(m, x, k);
    ScheduleStates(m);
    if Schedule(m).current != IdAt(s.slots, x) {
      var j :| 0 <= j < k && WaitsAt(Schedule(m), x, j);
      assert Measure(Schedule(m), j) < Measure(s, k);
    }
  }

  predicate Switches(op: Op)
  {
    op.TimerTick? || op.Yield? || op.Block? || op.SleepFor? || op.Exit? || op.Fault?
  }

  /** Every tick and every voluntary switch strictly lowers the measure of every
      waiter; no operation raises it. */
  lemma StepServes(s: Sys, op: Op, x: nat, k: nat)
    requires Inv(s) && Enabled(s, op) && WaitsAt(s, x, k)
    ensures ServedOrKilled(Apply(s, op), IdAt(s.slots, x))
            || exists j :: 0 <= j <= k && WaitsAt(Apply(s, op), x, j)
                           && Measure(Apply(s, op), j) <= Measure(s, k) - (if Switches(op) then 1 else 0)
                           && IdAt(Apply(s, op).slots, x) == IdAt(s.slots, x)
  {
    match op
    case TimerTick => TickServes(s, x, k);
    case SpawnTask => assert WaitsAt(Apply(s, op), x, k);
    case WakeTask(id) => assert WaitsAt(Apply(s, op), x, k);
    case BeginBlock => assert WaitsAt(Apply(s, op), x, k);
    case BeginSleep(n) => assert WaitsAt(Apply(s, op), x, k);
    case Yield => SwitchServes(s, s, x, k);
    case Block => MarkBlockedKeeps(s); SwitchServes(s, MarkBlocked(s), x, k);
    case SleepFor(n) =>
      if n == 0 { SwitchServes(s, s, x, k); } else { MarkAsleepKeeps(s, n); SwitchServes(s, MarkAsleep(s, n), x, k); }
    case Exit => DyingServes(s, x, k);
    case Fault => DyingServes(s, x, k);
    case ExitThread(t) => assert WaitsAt(Apply(s, op), x, k);
  }

  lemma DyingServes(s: Sys, x: nat, k: nat)
    requires Inv(s) && s.current != IDLE && WaitsAt(s, x, k)
    ensures var r := Schedule(MarkDying(s));
            ServedOrKilled(r, IdAt(s.slots, x))
            || exists j :: 0 <= j <= k && WaitsAt(r, x, j) && Measure(r, j) < Measure(s, k)
                           && IdAt(r.slots, x) == IdAt(s.slots, x)
  {
    MarkDyingKeeps(s);
    var d := MarkDying(s).(force := true);
    SwitchServes(s, d, x, k);
    assert Schedule(d) == Schedule(MarkDying(s)).(force := true);
    if j: nat :| 0 <= j <= k && WaitsAt(Schedule(d), x, j) && Measure(Schedule(d), j) < Measure(s, k)
                 && IdAt(Schedule(d).slots, x) == IdAt(s.slots, x) {
      assert WaitsAt(Schedule(MarkDying(s)), x, j) && Measure(Schedule(MarkDying(s)), j) < Measure(s, k);
    }
  }

  /** Some state along the run, reached after at most `n` ticks, has the task on the
      CPU or killed. */
  ghost predicate ServedWithin(s: Sys, ops: seq<Op>, id: TaskId, n: nat)
    decreases |ops|
  {
    || ServedOrKilled(s, id)
    || (ops != [] && if !ops[0].TimerTick? then ServedWithin(Apply(s, ops[0]), ops[1..], id, n)
                     else 0 < n && ServedWithin(Apply(s, ops[0]), ops[1..], id, n - 1))
  }

  lemma {:induction false} ServedLater(s: Sys, ops: seq<Op>, id: TaskId, n: nat, m: nat)
    requires ServedWithin(s, ops, id, n) && n <= m
    ensures ServedWithin(s, ops, id, m)
    decreases |ops|
  {
    hide Apply;
    if !ServedOrKilled(s, id) {
      var d := if ops[0].TimerTick? then 1 else 0;
      ServedLater(Apply(s, ops[0]), ops[1..], id, n - d, m - d);
    }
  }

  lemma TicksArePositive(s: Sys)
    requires Inv(s)
    ensures 1 <= s.ticks <= TASK_QUANTUM_TICKS
  {
  }

  lemma {:induction false} ServedWithinMeasure(s: Sys, ops: seq<Op>, x: nat, k: nat)
    requires Inv(s) && EnabledRun(s, ops) && WaitsAt(s, x, k) && 1 <= Measure(s, k) <= Ticks(ops)
    ensures ServedWithin(s, ops, IdAt(s.slots, x), Measure(s, k))
    decreases |ops|
  {
    hide Apply, Inv, Enabled;
    var op, s' := ops[0], Apply(s, ops[0]);
    var id := IdAt(s.slots, x);
    StepKeeps(s, op);
    TicksArePositive(s');
    StepServes(s, op, x, k);
    if !ServedOrKilled(s', id) {
      var j :| 0 <= j <= k && WaitsAt(s', x, j) && Measure(s', j) <= Measure(s, k) - (if Switches(op) then 1 else 0)
               && IdAt(s'.slots, x) == id;
      ServedWithinMeasure(s', ops[1..], x, j);
      ServedLater(s', ops[1..], id, Measure(s', j), Measure(s, k) - (if op.TimerTick? then 1 else 0));
    }
  }

  /** Bounded waiting: in every run, a ready task at index `k` of the ready queue gets
      the CPU within `4 * (k + 1)` timer ticks, unless it is killed first. */
  lemma BoundedWaiting(s: Sys, ops: seq<Op>, x: nat, k: nat)
    requires Inv(s) && EnabledRun(s, ops) && WaitsAt(s, x, k) && 4 * (k + 1) <= Ticks(ops)
    ensures ServedWithin(s, ops, IdAt(s.slots, x), 4 * (k + 1))
  {
    ServedWithinMeasure(s, ops, x, k);
    ServedLater(s, ops, IdAt(s.slots, x), Measure(s, k), 4 * (k + 1));
  }
}
