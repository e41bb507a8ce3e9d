/** `sleep` end to end: from the call, through the delta queue and the timer tick,
    to the tick that makes the task ready again. */
module SleepTiming {
  import opened Basics
  import opened TaskIds
  import opened TaskModel
  import opened TaskSafety
  import opened TaskLifecycle
  import opened TaskWaiting
  import DQ = DeltaQueue

  /** What the earliest entry of `id` in the sleep queue has to go; a task that was woken
      early and sleeps again has several. */
  function Due(s: Sys, id: TaskId): (r: Option<nat>)
  {
    DQ.Earliest(DQ.Countdowns(s.sleep, 0), id)
  }

  /** Task `x` is blocked off the CPU, and `due` is its earliest entry in the sleep
      queue, or nothing. */
  ghost predicate Resting(s: Sys, x: nat, due: Option<nat>)
  {
    && Live(s.slots, x) && StateAt(s.slots, x) == Blocked
    && s.current != IdAt(s.slots, x)
    && DQ.HeadPositive(s.sleep)
    && Due(s, IdAt(s.slots, x)) == due
  }

  ghost predicate Asleep(s: Sys, x: nat, left: nat)
  {
    Resting(s, x, Some(left))
  }

  /** Blocked, and no entry that could end it. */
  ghost predicate Forgotten(s: Sys, x: nat)
  {
    Resting(s, x, None)
  }

  lemma {:induction false} WakeAllOn(s: Sys, ids: seq<TaskId>, x: nat)
    requires Core(s) && Live(s.slots, x) && StateAt(s.slots, x) == Blocked
    ensures Live(WakeAll(s, ids).slots, x) && IdAt(WakeAll(s, ids).slots, x) == IdAt(s.slots, x)
    ensures StateAt(WakeAll(s, ids).slots, x) == if IdAt(s.slots, x) in ids then Ready else Blocked
    decreases |ids|
  {
    if ids != [] {
      WakeKeeps(s, ids[0]);
      if ids[0] == IdAt(s.slots, x) {
        WakeAllForward(Wake(s, ids[0]), ids[1..], x);
      } else {
        WakeAllOn(Wake(s, ids[0]), ids[1..], x);
      }
    }
  }

  lemma {:induction false} DrainKeepsSleep(s: Sys)
    ensures DrainSystemTasks(s).sleep == s.sleep
    decreases |s.sysq|
  {
    if s.sysq != [] {
      DrainKeepsSleep(KillTask(s.(sysq := s.sysq[1..]), s.sysq[0]));
    }
  }

  lemma {:induction false} CleanupKeepsSleep(s: Sys)
    ensures TombstoneCleanup(s).sleep == s.sleep
    decreases |s.tomb|
  {
    if s.tomb != [] {
      CleanupKeepsSleep(RemoveTask(s.(tomb := s.tomb[1..]), s.tomb[0]));
    }
  }

  lemma {:induction false} ReapKeepsSleep(s: Sys)
    ensures ReapDyingTasks(s).sleep == s.sleep
    decreases |s.reaper|
  {
    if s.reaper != [] {
      ReapKeepsSleep(ReapOne(s.(reaper := s.reaper[1..]), s.reaper[0]));
    }
  }

  lemma TickSleepQueue(s: Sys)
    requires Inv(s)
    ensures Tick(s).sleep == DQ.Tick(s.sleep)
  {
    var s0 := s.(sleep := DQ.Tick(s.sleep));
    WakeAllForward(s0, DQ.Woken(s.sleep), 0);
    DrainKeepsSleep(CountTick(TickSleepers(s)));
    CleanupKeepsSleep(BeforeCleanup(s));
    ReapKeepsSleep(TombstoneCleanup(BeforeCleanup(s)));
  }

  /** A tick wakes a resting task exactly if its earliest entry ends, unless it kills it. */
  lemma TickOnSleeper(s: Sys, x: nat, due: Option<nat>)
    requires Inv(s) && Resting(s, x, due)
    ensures due.Some? ==> due.value >= 1
    ensures Found(Tick(s).slots, IdAt(s.slots, x))
    ensures Doomed(StateAt(Tick(s).slots, x))
            || if due == Some(1) then StateAt(Tick(s).slots, x) == Ready || StateAt(Tick(s).slots, x) == Running
               else Resting(Tick(s), x, OneLess(due))
  {
    BeforeSwitchOnSleeper(s, x, due);
    TickSleepQueue(s);
    BeforeSwitchKeeps(s);
    var b := BeforeSwitch(s);
    assert Schedule(b.(force := false)) == Schedule(b).(force := false);
    ScheduleStates(b);
    if StateAt(b.slots, x) == Blocked {
      SwitchIsNotTo(b, x);
    }
  }

  function OneLess(due: Option<nat>): (r: Option<nat>)
  {
    if due.Some? && due.value >= 1 then Some(due.value - 1) else due
  }

  /** The queue's side of a tick. */
  lemma QueueOnSleeper(s: Sys, id: TaskId)
    requires DQ.HeadPositive(s.sleep)
    ensures Due(s, id).Some? ==> Due(s, id).value >= 1
    ensures DQ.HeadPositive(DQ.Tick(s.sleep)) && |DQ.Tick(s.sleep)| <= |s.sleep|
    ensures id in DQ.Woken(s.sleep) <==> Due(s, id) == Some(1)
    ensures Due(s, id) != Some(1) ==>
              DQ.Earliest(DQ.Countdowns(DQ.Tick(s.sleep), 0), id) == OneLess(Due(s, id))
  {
    DQ.TickRefines(s.sleep);
    DQ.CountdownsPositive(s.sleep, 0, id);
    DQ.ElapseTracks(DQ.Countdowns(s.sleep, 0), id);
  }

  lemma BeforeSwitchOnSleeper(s: Sys, x: nat, due: Option<nat>)
    requires Inv(s) && Resting(s, x, due)
    ensures due.Some? ==> due.value >= 1
    ensures var b := BeforeSwitch(s);
            && Found(b.slots, IdAt(s.slots, x)) && b.current == s.current
            && (StateAt(b.slots, x) == (if due == Some(1) then Ready else Blocked) || Doomed(StateAt(b.slots, x)))
            && DQ.HeadPositive(DQ.Tick(s.sleep))
            && (due != Some(1) ==>
                  DQ.Earliest(DQ.Countdowns(DQ.Tick(s.sleep), 0), IdAt(s.slots, x)) == OneLess(due))
  {
    hide DQ.Tick, DQ.Woken, DQ.Earliest, DQ.Countdowns, DQ.HeadPositive;
    var s0 := s.(sleep := DQ.Tick(s.sleep));
    QueueOnSleeper(s, IdAt(s.slots, x));
    WakeAllOn(s0, DQ.Woken(s.sleep), x);
    WakeAllForward(s0, DQ.Woken(s.sleep), x);
    BeforeSwitchState(s, x);
    BeforeSwitchQueue(s);
  }

  /** A switch never goes to a task that is not ready. */
  lemma SwitchIsNotTo(s: Sys, x: nat)
    requires Core(s) && 1 <= x && Live(s.slots, x) && StateAt(s.slots, x) != Ready
    ensures Schedule(s).current != IdAt(s.slots, x)
  {
    PickNextFacts(s.slots, s.ready);
  }

  /** Nothing but its own tick, an explicit wake-up or a kill disturbs a sleeper. */
  lemma OtherOpsOnSleeper(s: Sys, op: Op, x: nat, due: Option<nat>)
    requires Inv(s) && Enabled(s, op) && Resting(s, x, due)
    requires !op.TimerTick? && op != WakeTask(IdAt(s.slots, x))
    ensures Resting(Apply(s, op), x, due) && IdAt(Apply(s, op).slots, x) == IdAt(s.slots, x)
  {
    match op
    case BeginSleep(n) => InsertKeepsSleeper(s, n, x, due);
    case Yield => SwitchKeepsSleeper(s, x, due);
    case Block => MarkBlockedKeeps(s); SwitchKeepsSleeper(MarkBlocked(s), x, due);
    case SleepFor(n) =>
      if n == 0 {
        SwitchKeepsSleeper(s, x, due);
      } else {
        InsertKeepsSleeper(s, n, x, due);
        MarkAsleepKeeps(s, n);
        SwitchKeepsSleeper(MarkAsleep(s, n), x, due);
      }
    case Exit => DyingKeepsSleeper(s, x, due);
    case Fault => DyingKeepsSleeper(s, x, due);
    case _ =>
  }

  lemma StepOnSleeper(s: Sys, op: Op, x: nat, due: Option<nat>)
    requires Inv(s) && Enabled(s, op) && Resting(s, x, due) && op != WakeTask(IdAt(s.slots, x))
    ensures due.Some? ==> due.value >= 1
    ensures var s', id := Apply(s, op), IdAt(s.slots, x);
            var next := if op.TimerTick? then OneLess(due) else due;
            && Found(s'.slots, id)
            && (DoomedAt(s', id) || if next == Some(0) then AwakeAt(s', id) else Resting(s', x, next))
  {
    DQ.CountdownsPositive(s.sleep, 0, IdAt(s.slots, x));
    if op.TimerTick? {
      TickOnSleeper(s, x, due);
    } else {
      OtherOpsOnSleeper(s, op, x, due);
    }
  }

  lemma InsertKeepsSleeper(s: Sys, n: nat, x: nat, due: Option<nat>)
    requires Inv(s) && s.current != IDLE && Resting(s, x, due)
    ensures n != 0 ==> Resting(MarkAsleep(s, n), x, due) && IdAt(MarkAsleep(s, n).slots, x) == IdAt(s.slots, x)
  {
    DQ.InsertRefines(s.sleep, s.current, SleepTicks(n));
    DQ.InsertEarliest(s.sleep, s.current, SleepTicks(n), IdAt(s.slots, x));
  }

  lemma SwitchKeepsSleeper(s: Sys, x: nat, due: Option<nat>)
    requires Core(s) && Resting(s, x, due)
    ensures Resting(Schedule(s), x, due) && IdAt(Schedule(s).slots, x) == IdAt(s.slots, x)
  {
    ScheduleStates(s);
    SwitchIsNotTo(s, x);
  }

  lemma DyingKeepsSleeper(s: Sys, x: nat, due: Option<nat>)
    requires Inv(s) && s.current != IDLE && Resting(s, x, due)
    ensures var r := Schedule(MarkDying(s)); Resting(r, x, due) && IdAt(r.slots, x) == IdAt(s.slots, x)
  {
    MarkDyingKeeps(s);
    var d := MarkDying(s).(force := true);
    SwitchKeepsSleeper(d, x, due);
    assert Schedule(d) == Schedule(MarkDying(s)).(force := true);
  }

  predicate AwakeAt(s: Sys, id: TaskId)
  {
    Found(s.slots, id) && (StateAt(s.slots, id.slot) == Ready || StateAt(s.slots, id.slot) == Running)
  }

  predicate DoomedAt(s: Sys, id: TaskId)
  {
    Found(s.slots, id) && Doomed(StateAt(s.slots, id.slot))
  }

  /** The task stays blocked for `left - 1` ticks of the run and is awake right after
      the next one, or is killed before that, or the run ends first. */
  predicate SleepsExactly(s: Sys, ops: seq<Op>, id: TaskId, left: nat)
    decreases |ops|
  {
    || DoomedAt(s, id)
    || if left == 0 then AwakeAt(s, id)
       else
         && Found(s.slots, id) && StateAt(s.slots, id.slot) == Blocked
         && (ops != [] ==>
               SleepsExactly(Apply(s, ops[0]), ops[1..], id, if ops[0].TimerTick? then left - 1 else left))
  }

  /** A sleeper that nobody wakes by hand sleeps until its earliest entry ends, no
      shorter and no longer. */
  lemma {:induction false} SleeperIsOnTime(s: Sys, ops: seq<Op>, x: nat, left: nat)
    requires Inv(s) && EnabledRun(s, ops) && Asleep(s, x, left) && WakeTask(IdAt(s.slots, x)) !in ops
    ensures SleepsExactly(s, ops, IdAt(s.slots, x), left)
    decreases |ops|
  {
    hide Apply, Inv, Enabled, Due;
    AsleepIsPositive(s, x, left);
    if ops != [] {
      var s', id := Apply(s, ops[0]), IdAt(s.slots, x);
      StepKeeps(s, ops[0]);
      StepOnSleeper(s, ops[0], x, Some(left));
      var n := if ops[0].TimerTick? then left - 1 else left;
      if !DoomedAt(s', id) && n != 0 {
        SleeperIsOnTime(s', ops[1..], x, n);
      }
    }
  }

  lemma AsleepIsPositive(s: Sys, x: nat, left: nat)
    requires Asleep(s, x, left)
    ensures 1 <= left
  {
    DQ.CountdownsPositive(s.sleep, 0, IdAt(s.slots, x));
  }

  /** The task is blocked, off the CPU, in every state of the run, until somebody kills
      it. */
  predicate NeverAwake(s: Sys, ops: seq<Op>, id: TaskId)
    decreases |ops|
  {
    || DoomedAt(s, id)
    || (&& Found(s.slots, id) && StateAt(s.slots, id.slot) == Blocked && s.current != id
        && (ops != [] ==> NeverAwake(Apply(s, ops[0]), ops[1..], id)))
  }

  /** A blocked task without an entry is never woken by the clock, in any run. */
  lemma {:induction false} ForgottenNeverWakes(s: Sys, ops: seq<Op>, x: nat)
    requires Inv(s) && EnabledRun(s, ops) && Forgotten(s, x) && WakeTask(IdAt(s.slots, x)) !in ops
    ensures NeverAwake(s, ops, IdAt(s.slots, x))
    decreases |ops|
  {
    hide Apply, Inv, Enabled, Due;
    if ops != [] {
      var s', id := Apply(s, ops[0]), IdAt(s.slots, x);
      StepKeeps(s, ops[0]);
      StepOnSleeper(s, ops[0], x, None);
      if !DoomedAt(s', id) {
        ForgottenNeverWakes(s', ops[1..], x);
      }
    }
  }

  // ----------------------------------------------------------------------- the call

  /** When the caller of `sleep` will be woken: by the new entry, if one is made, or by
      an older one. */
  function DueAfterCall(s: Sys, seconds: nat): (r: Option<nat>)
  {
    DQ.DueAfter(s.sleep, s.current, SleepTicks(seconds))
  }

  /** A sleep of no seconds is a yield: it makes no entry, and its caller stays ready and
      queued. */
  lemma ZeroSleepYields(s: Sys)
    requires Inv(s) && s.current != IDLE && StateAt(s.slots, s.current.slot) == Running
    ensures var r := Apply(s, SleepFor(0));
            && r == Apply(s, Yield) && r.sleep == s.sleep
            && Found(r.slots, s.current) && StateAt(r.slots, s.current.slot) == Ready && s.current in r.ready
  {
    hide PickNext;
    PickNextFacts(s.slots, s.ready);
    ScheduleStates(s);
    var p := PickNext(s.slots, s.ready);
    if p.slots != s.slots { SetStateFacts(s.slots, p.next.slot, Running); }
    assert Requeues(p.slots, s.current) && |p.ready| < QUEUE_SIZE;
    assert Schedule(s).ready[|p.ready|] == s.current;
  }

  /** The call blocks its caller in every case. */
  lemma {:induction false} SleepCallRests(s: Sys, seconds: nat)
    requires Inv(s) && s.current != IDLE && DQ.HeadPositive(s.sleep) && 0 < seconds
    ensures Resting(Apply(s, SleepFor(seconds)), s.current.slot, DueAfterCall(s, seconds))
    ensures IdAt(Apply(s, SleepFor(seconds)).slots, s.current.slot) == s.current
  {
    var m := MarkAsleep(s, seconds);
    DQ.InsertRefines(s.sleep, s.current, SleepTicks(seconds));
    DQ.InsertEarliest(s.sleep, s.current, SleepTicks(seconds), s.current);
    MarkAsleepKeeps(s, seconds);
    MarkedBlocked(s, seconds);
    ScheduleStates(m);
    SwitchIsNotTo(m, s.current.slot);
  }

  /** The caller sleeps `(1000 * seconds) mod 2^32` ticks exactly if that is not zero and
      either an entry is made and no older one is earlier, or an older one happens to end
      then. */
  lemma SleepCallStartsIff(s: Sys, seconds: nat)
    requires Inv(s) && s.current != IDLE && DQ.HeadPositive(s.sleep) && 0 < seconds
    ensures var ticks, older := SleepTicks(seconds), Due(s, s.current);
            Asleep(Apply(s, SleepFor(seconds)), s.current.slot, ticks) <==>
            older == Some(ticks)
            || (ticks != 0 && |s.sleep| < DQ.MAX_SLEEP_ENTRIES && (older.Some? ==> ticks < older.value))
  {
    hide Apply, DQ.Earliest, DQ.Countdowns, SleepTicks;
    SleepCallRests(s, seconds);
  }

  /** The caller is forgotten exactly if it has no older entry and gets no new one: the
      32-bit product is zero, or the queue is full. */
  lemma ForgottenIff(s: Sys, seconds: nat)
    requires Inv(s) && s.current != IDLE && DQ.HeadPositive(s.sleep) && 0 < seconds < TWO32
    ensures Forgotten(Apply(s, SleepFor(seconds)), s.current.slot) <==>
            (forall e :: e in s.sleep ==> e.id != s.current)
            && (seconds % 0x2000_0000 == 0 || |s.sleep| == DQ.MAX_SLEEP_ENTRIES)
  {
    hide Apply;
    SleepCallRests(s, seconds);
    ZeroProductIff(seconds);
    NoEntryIff(s, s.current);
  }

  lemma NoEntryIff(s: Sys, id: TaskId)
    ensures Due(s, id) == None <==> forall e :: e in s.sleep ==> e.id != id
  {
    var a := DQ.Countdowns(s.sleep, 0);
    DQ.CountdownIds(s.sleep, 0);
    DQ.EarliestIsMinimum(a, id);
    if forall i :: 0 <= i < |a| ==> a[i].id != id {
      forall e | e in s.sleep ensures e.id != id {
        var i :| 0 <= i < |s.sleep| && s.sleep[i] == e;
        assert a[i].id == s.sleep[i].id;
      }
    } else {
      var i :| 0 <= i < |a| && a[i].id == id;
      assert s.sleep[i] in s.sleep;
    }
  }

  lemma MarkedBlocked(s: Sys, seconds: nat)
    requires Inv(s)
    ensures var m := MarkAsleep(s, seconds);
            && m.sleep == DQ.Insert(s.sleep, s.current, SleepTicks(seconds)) && m.current == s.current
            && Found(m.slots, s.current) && StateAt(m.slots, s.current.slot) == Blocked
  {
  }

  /** The head of the sleep queue is positive between operations, in every run. */
  lemma {:induction false} RunKeepsHeadPositive(s: Sys, ops: seq<Op>)
    requires Inv(s) && DQ.HeadPositive(s.sleep) && EnabledRun(s, ops)
    ensures DQ.HeadPositive(Run(s, ops).sleep)
    decreases |ops|
  {
    if ops != [] {
      var op := ops[0];
      StepKeeps(s, op);
      if op.TimerTick? {
        TickSleepQueue(s);
        DQ.TickRefines(s.sleep);
      } else if op.SleepFor? || op.BeginSleep? {
        DQ.InsertRefines(s.sleep, s.current, SleepTicks(op.seconds));
      }
      RunKeepsHeadPositive(Apply(s, op), ops[1..]);
    }
  }

  /** The 32-bit product is zero for the multiples of 2^29, and what was meant up to
      4294967 seconds. */
  lemma ZeroProductIff(seconds: nat)
    requires seconds < TWO32
    ensures SleepTicks(seconds) == 0 <==> seconds % 0x2000_0000 == 0
    ensures SleepTicks(seconds) == 1000 * seconds <==> seconds <= 4294967
  {
    if SleepTicks(seconds) == 0 {
      var k := seconds * 1000 / TWO32;
      assert 125 * seconds == 0x2000_0000 * k;
      assert seconds == 0x2000_0000 * (115964117 * k - 27 * seconds);
    }
  }
}
