/** What becomes of ids that outlive their task, and of tasks that fall out of the
    ready queue. */
module StaleIds {
  import opened TaskIds
  import opened TaskModel
  import opened TaskSafety
  import opened TaskLifecycle
  import opened TaskDeadline
  import opened TaskWaiting
  import opened ReadyRing
  import DQ = DeltaQueue

  // ------------------------------------------------------------- recycling of slots

  lemma {:induction false} WakeAllLeavesFree(s: Sys, ids: seq<TaskId>, x: nat)
    requires x < |s.slots| && !Live(s.slots, x)
    ensures |WakeAll(s, ids).slots| == |s.slots| && WakeAll(s, ids).slots[x] == s.slots[x]
    decreases |ids|
  {
    if ids != [] {
      WakeAllLeavesFree(Wake(s, ids[0]), ids[1..], x);
    }
  }

  lemma {:induction false} DrainLeavesFree(s: Sys, x: nat)
    requires x < |s.slots| && !Live(s.slots, x)
    ensures |DrainSystemTasks(s).slots| == |s.slots| && DrainSystemTasks(s).slots[x] == s.slots[x]
    decreases |s.sysq|
  {
    if s.sysq != [] {
      DrainLeavesFree(KillTask(s.(sysq := s.sysq[1..]), s.sysq[0]), x);
    }
  }

  lemma BeforeSwitchLeavesFree(s: Sys, x: nat)
    requires Inv(s) && x < |s.slots| && !Live(s.slots, x)
    ensures x < |TickSleepers(s).slots| && TickSleepers(s).slots[x] == s.slots[x]
    ensures x < |BeforeSwitch(s).slots| && BeforeSwitch(s).slots[x] == s.slots[x]
  {
    WakeAllLeavesFree(s.(sleep := DQ.Tick(s.sleep)), DQ.Woken(s.sleep), x);
    DrainLeavesFree(CountTick(TickSleepers(s)), x);
    BeforeCleanupFacts(s);
    CleanupLeavesFree(BeforeCleanup(s), x, 0);
    AfterCleanupFacts(s);
    ReapLeavesFree(AfterCleanup(s), x);
  }

  lemma TickLeavesFree(s: Sys, x: nat)
    requires Inv(s) && x < |s.slots| && !Live(s.slots, x)
    ensures x < |Tick(s).slots| && Tick(s).slots[x] == s.slots[x]
  {
    hide Schedule, BeforeSwitch;
    BeforeSwitchLeavesFree(s, x);
    BeforeSwitchKeeps(s);
    SwitchIgnoresForce(BeforeSwitch(s));
    ScheduleLeavesFree(BeforeSwitch(s), x);
  }

  /** Only a spawn fills a free slot, and it does so in the generation it finds. */
  lemma StepLeavesFree(s: Sys, op: Op, x: nat)
    requires Inv(s) && Enabled(s, op) && x < |s.slots| && !Live(s.slots, x)
    ensures x < |Apply(s, op).slots| && Apply(s, op).slots[x].gen == s.slots[x].gen
    ensures !op.SpawnTask? ==> !Live(Apply(s, op).slots, x)
  {
    match op
    case TimerTick => TickLeavesFree(s, x);
    case Yield => ScheduleLeavesFree(s, x);
    case Block => MarkBlockedKeeps(s); ScheduleLeavesFree(MarkBlocked(s), x);
    case SleepFor(n) =>
      if n == 0 { ScheduleLeavesFree(s, x); } else { MarkAsleepKeeps(s, n); ScheduleLeavesFree(MarkAsleep(s, n), x); }
    case Exit => DyingLeavesFree(s, x);
    case Fault => DyingLeavesFree(s, x);
    case _ =>
  }

  /** How often the run frees slot `x`. */
  ghost function Drops(s: Sys, ops: seq<Op>, x: nat): (n: nat)
    decreases |ops|
  {
    if ops == [] then 0 else (if Dropped(s, ops[0], x) then 1 else 0) + Drops(Apply(s, ops[0]), ops[1..], x)
  }

  lemma StepGeneration(s: Sys, op: Op, x: nat)
    requires Inv(s) && Enabled(s, op) && x < |s.slots|
    ensures x < |Apply(s, op).slots|
    ensures Apply(s, op).slots[x].gen == if Dropped(s, op, x) then NextGen(s.slots[x].gen) else s.slots[x].gen
  {
    if !Live(s.slots, x) {
      StepLeavesFree(s, op, x);
    } else if op.TimerTick? {
      TickOnTask(s, x);
    } else {
      OtherOpsOnTask(s, op, x);
    }
  }

  function NextGen(g: nat): (r: nat)
  {
    (g + 1) % GENERATIONS
  }

  /** An id resolves at the end of a run exactly if its slot is occupied and was freed
      a multiple of 256 times in between: one recycling makes it stale, and only the
      256th makes it alias a later task. This is the exact reach of an id left in the
      sleep queue. */
  lemma {:induction false} IdResolvesIff(s: Sys, ops: seq<Op>, x: nat)
    requires Inv(s) && EnabledRun(s, ops) && x < |s.slots|
    ensures Found(Run(s, ops).slots, IdAt(s.slots, x))
            <==> Live(Run(s, ops).slots, x) && Drops(s, ops, x) % GENERATIONS == 0
  {
    hide Apply, Enabled, Dropped;
    RunGeneration(s, ops, x);
    RunKeeps(s, ops);
    AdvanceIsModular(s.slots[x].gen, Drops(s, ops, x));
    ModShift(s.slots[x].gen, Drops(s, ops, x));
  }

  /** So an id left over from a task that was dropped is inert for the next 255
      recyclings of its slot, wherever it was kept: waking, reaping and removing it change
      nothing, and killing it only queues it for the reaper. */
  lemma StaleIdIsInert(s: Sys, ops: seq<Op>, x: nat)
    requires Inv(s) && EnabledRun(s, ops) && x < |s.slots| && 0 < Drops(s, ops, x) < GENERATIONS
    ensures var r, id := Run(s, ops), IdAt(s.slots, x);
            && Wake(r, id) == r && ReapOne(r, id) == r && RemoveTask(r, id) == r
            && id.slot < TWO64 && id.gen < GENERATIONS
            && KillTask(r, Compress(id)) == r.(reaper := Push(r.reaper, id, REAPER_QUEUE_SIZE))
  {
    IdResolvesIff(s, ops, x);
    CompressRoundTrip(IdAt(s.slots, x));
  }

  /** The generation after the slot has been freed `n` times. */
  function Advance(g: nat, n: nat): (r: nat)
    decreases n
  {
    if n == 0 then g else Advance(NextGen(g), n - 1)
  }

  lemma {:induction false} AdvanceIsModular(g: nat, n: nat)
    requires g < GENERATIONS
    ensures Advance(g, n) == (g + n) % GENERATIONS
    decreases n
  {
    if n != 0 {
      AdvanceIsModular(NextGen(g), n - 1);
    }
  }

  lemma {:induction false} RunGeneration(s: Sys, ops: seq<Op>, x: nat)
    requires Inv(s) && EnabledRun(s, ops) && x < |s.slots|
    ensures x < |Run(s, ops).slots| && Run(s, ops).slots[x].gen == Advance(s.slots[x].gen, Drops(s, ops, x))
    decreases |ops|
  {
    hide Apply, Inv, Enabled, Dropped;
    if ops != [] {
      var s' := Apply(s, ops[0]);
      StepGeneration(s, ops[0], x);
      StepKeeps(s, ops[0]);
      RunGeneration(s', ops[1..], x);
      assert Drops(s, ops, x) == (if Dropped(s, ops[0], x) then 1 else 0) + Drops(s', ops[1..], x);
    }
  }

  lemma ModShift(g: nat, d: nat)
    requires g < GENERATIONS
    ensures (g + d) % GENERATIONS == g <==> d % GENERATIONS == 0
  {
  }

  // ---------------------------------------------------------- ids in the ready queue

  /** How many entries the operation takes off the head of the ready queue. */
  function Popped(s: Sys): (n: int)
  {
    |s.ready| - |PickNext(s.slots, s.ready).ready|
  }

  function PoppedBy(s: Sys, op: Op): (n: int)
  {
    match op
    case TimerTick => if SwitchesOnTick(s) then Popped(BeforeSwitch(s)) else 0
    case Yield => Popped(s)
    case Block => Popped(MarkBlocked(s))
    case SleepFor(n) => if n == 0 then Popped(s) else Popped(MarkAsleep(s, n))
    case Exit => Popped(MarkDying(s))
    case Fault => Popped(MarkDying(s))
    case _ => 0
  }

  ghost predicate ShiftedBy(before: seq<TaskId>, after: seq<TaskId>, d: int)
  {
    0 <= d <= |before| && before[d..] <= after
  }

  lemma ScheduleShifts(s: Sys)
    requires SlotsOk(s.slots)
    ensures ShiftedBy(s.ready, Schedule(s).ready, Popped(s))
  {
    PickNextFacts(s.slots, s.ready);
  }

  lemma {:induction false} WakeAllShifts(s: Sys, ids: seq<TaskId>)
    ensures s.ready <= WakeAll(s, ids).ready
    decreases |ids|
  {
    if ids != [] {
      WakeAllShifts(Wake(s, ids[0]), ids[1..]);
    }
  }

  lemma TickShifts(s: Sys)
    requires Inv(s)
    ensures PoppedBy(s, TimerTick) <= |s.ready| ==> ShiftedBy(s.ready, Tick(s).ready, PoppedBy(s, TimerTick))
  {
    hide PickNext, Schedule;
    WakeAllShifts(s.(sleep := DQ.Tick(s.sleep)), DQ.Woken(s.sleep));
    BeforeSwitchQueue(s);
    BeforeSwitchKeeps(s);
    ScheduleShifts(BeforeSwitch(s).(force := false));
  }

  /** Every operation takes entries off the head and appends at the tail. */
  lemma StepShifts(s: Sys, op: Op)
    requires Inv(s) && Enabled(s, op)
    ensures PoppedBy(s, op) <= |s.ready| ==> ShiftedBy(s.ready, Apply(s, op).ready, PoppedBy(s, op))
  {
    hide PickNext;
    match op
    case TimerTick => TickShifts(s);
    case Yield => ScheduleShifts(s);
    case Block => MarkBlockedKeeps(s); ScheduleShifts(MarkBlocked(s));
    case SleepFor(n) =>
      if n == 0 { ScheduleShifts(s); } else { MarkAsleepKeeps(s, n); ScheduleShifts(MarkAsleep(s, n)); }
    case Exit => MarkDyingKeeps(s); ScheduleShifts(MarkDying(s));
    case Fault => MarkDyingKeeps(s); ScheduleShifts(MarkDying(s));
    case _ =>
  }

  /** The generation that a free slot is about to hand out is not queued for it. */
  lemma {:induction false} QueuedIdIsNotNext(s: Sys, i: nat)
    requires SlotsOk(s.slots) && LanesOk(s.slots, s.ready) && i < |s.ready| < QUEUE_SIZE
    requires !Live(s.slots, s.ready[i].slot)
    ensures s.ready[i].gen != s.slots[s.ready[i].slot].gen
  {
    var x := s.ready[i].slot;
    var f, j := Lane(s.ready, x), |Lane(s.ready[..i], x)|;
    LaneAt(s.ready, i);
    assert LaneOk(s.slots[x], f);
    GaplessSnoc(f, s.slots[x].gen);
    assert (f + [s.slots[x].gen])[j] == s.ready[i].gen;
    YoungestIsLast(f + [s.slots[x].gen], s.slots[x].gen, j);
  }

  /** A stale id in the ready queue stays stale for as long as it stays queued, even
      though generations wrap after 256 recyclings: it never stands for a later
      occupant of its slot. */
  lemma StaleStaysStale(s: Sys, op: Op, i: nat)
    requires Inv(s) && RingInv(s) && Enabled(s, op)
    requires i < |s.ready| && !Found(s.slots, s.ready[i]) && PoppedBy(s, op) <= i
    ensures 0 <= PoppedBy(s, op) && i - PoppedBy(s, op) < |Apply(s, op).ready|
    ensures Apply(s, op).ready[i - PoppedBy(s, op)] == s.ready[i]
    ensures !Found(Apply(s, op).slots, s.ready[i])
  {
    StepShifts(s, op);
    var id, x, d := s.ready[i], s.ready[i].slot, PoppedBy(s, op);
    assert s.ready[d..][i - d] == id;
    if op.SpawnTask? {
      if Spawn(s).Started? && x == FirstFree(s.slots, 0) {
        QueuedIdIsNotNext(s, i);
      }
    } else if Live(s.slots, x) {
      StepLifecycle(s, op, x);
      if op.TimerTick? {
        TickOnTask(s, x);
      }
    } else {
      StepLeavesFree(s, op, x);
    }
  }

  // --------------------------------------------------------- falling out of the queue

  /** A ready task that is not queued. */
  ghost predicate Unqueued(s: Sys, x: nat)
  {
    1 <= x && Live(s.slots, x) && StateAt(s.slots, x) == Ready && IdAt(s.slots, x) !in s.ready
  }

  /** A ready task that is neither queued nor on the CPU. */
  ghost predicate Stranded(s: Sys, x: nat)
  {
    Unqueued(s, x) && s.current != IdAt(s.slots, x)
  }

  /** A wake-up strands its task exactly if it meets a full ready queue, unless the task
      still holds the CPU. */
  lemma WakeStrandsIffFull(s: Sys, x: nat)
    requires Inv(s) && RingInv(s) && 1 <= x && Live(s.slots, x) && StateAt(s.slots, x) == Blocked
    ensures Stranded(Wake(s, IdAt(s.slots, x)), x) <==> |s.ready| == QUEUE_SIZE && s.current != IdAt(s.slots, x)
  {
    var id := IdAt(s.slots, x);
    SetStateFacts(s.slots, x, Ready);
    BlockedIsNotQueued(s, x);
    if |s.ready| < QUEUE_SIZE {
      assert Wake(s, id).ready[|s.ready|] == id;
    }
  }

  lemma SleepersCount(s: Sys, ids: seq<TaskId>)
    requires Core(s) && ids != []
    ensures var n, wakes := Wake(s, ids[0]), Found(s.slots, ids[0]) && StateAt(s.slots, ids[0].slot) == Blocked;
            && |Sleepers(s.slots, ids)| == |Sleepers(n.slots, ids[1..])| + (if wakes then 1 else 0)
            && |n.ready| == (if wakes && |s.ready| < QUEUE_SIZE then |s.ready| + 1 else |s.ready|)
            && |s.ready| <= QUEUE_SIZE
  {
    hide Sleepers;
    SleepersStep(s, ids);
  }

  lemma NoSleepers(s: Sys)
    requires Core(s)
    ensures Sleepers(s.slots, []) == {} && |s.ready| <= QUEUE_SIZE
  {
  }

  /** Each of them takes one place in the ready queue, as long as there is one. */
  lemma {:induction false} WakeAllFills(s: Sys, ids: seq<TaskId>)
    requires Core(s)
    ensures var n := |s.ready| + |Sleepers(s.slots, ids)|;
            |WakeAll(s, ids).ready| == if n < QUEUE_SIZE then n else QUEUE_SIZE
    decreases |ids|
  {
    hide Core, Sleepers;
    if ids != [] {
      WakeKeeps(s, ids[0]);
      SleepersCount(s, ids);
      WakeAllFills(Wake(s, ids[0]), ids[1..]);
    } else {
      NoSleepers(s);
    }
  }

  lemma {:induction false} WakeAllSplits(s: Sys, a: seq<TaskId>, b: seq<TaskId>)
    ensures WakeAll(s, a + b) == WakeAll(WakeAll(s, a), b)
    decreases |a|
  {
    if a == [] {
      assert a + b == b;
    } else {
      assert (a + b)[1..] == a[1..] + b;
      WakeAllSplits(Wake(s, a[0]), a[1..], b);
    }
  }

  /** A wake-up keeps the ids out of the queue that it does not name. */
  lemma {:induction false} WakeAllDoesNotQueue(s: Sys, ids: seq<TaskId>, id: TaskId)
    requires id !in ids && id !in s.ready
    ensures id !in WakeAll(s, ids).ready
    decreases |ids|
  {
    if ids != [] { WakeAllDoesNotQueue(Wake(s, ids[0]), ids[1..], id); }
  }

  lemma WakeAllQueuesIff(s: Sys, before: seq<TaskId>, after: seq<TaskId>, x: nat)
    requires Core(s) && 1 <= x && Live(s.slots, x) && StateAt(s.slots, x) == Blocked
    requires IdAt(s.slots, x) !in s.ready && IdAt(s.slots, x) !in before
    ensures var w := WakeAll(s, before + [IdAt(s.slots, x)] + after);
            && Core(w) && Live(w.slots, x) && IdAt(w.slots, x) == IdAt(s.slots, x) && w.current == s.current
            && StateAt(w.slots, x) == Ready
            && (IdAt(s.slots, x) in w.ready <==> |s.ready| + |Sleepers(s.slots, before)| < QUEUE_SIZE)
  {
    var id := IdAt(s.slots, x);
    var a := WakeAll(s, before);
    var m := Wake(a, id);
    WakeAllSplits(s, before + [id], after);
    WakeAllSplits(s, before, [id]);
    assert WakeAll(a, [id]) == m by { assert [id][1..] == []; }
    WakeAllKeeps(s, before);
    WakeAllFills(s, before);
    WakeAllDoesNotQueue(s, before, id);
    WakeAllForward(s, before, x);
    StaysBlocked(s, before, x);
    WakeKeeps(a, id);
    SetStateFacts(a.slots, x, Ready);
    WakeAllKeeps(m, after);
    WakeAllForward(m, after, x);
    if |a.ready| < QUEUE_SIZE {
      assert m.ready[|a.ready|] == id;
      WakeAllShifts(m, after);
      assert WakeAll(m, after).ready[|a.ready|] == id;
    } else {
      WakeAllStrands(m, after, x);
    }
  }

  /** Of several sleepers woken in a row, one is stranded exactly if those before it have
      filled the queue, unless it still holds the CPU. */
  lemma WakeAllStrandsIff(s: Sys, before: seq<TaskId>, after: seq<TaskId>, x: nat)
    requires Core(s) && 1 <= x && Live(s.slots, x) && StateAt(s.slots, x) == Blocked
    requires IdAt(s.slots, x) !in s.ready && IdAt(s.slots, x) !in before
    ensures Stranded(WakeAll(s, before + [IdAt(s.slots, x)] + after), x) <==>
            |s.ready| + |Sleepers(s.slots, before)| >= QUEUE_SIZE && s.current != IdAt(s.slots, x)
  {
    hide Core, Sleepers;
    WakeAllQueuesIff(s, before, after, x);
  }

  /** So the sleepers that one tick wakes: unless the same tick kills it, a sleeper is
      stranded exactly if the ready queue and the sleepers woken before it leave no room,
      and the tick does not leave it on the CPU. */
  lemma TickStrandsIff(s: Sys, before: seq<TaskId>, after: seq<TaskId>, x: nat)
    requires Inv(s) && RingInv(s) && 1 <= x && Live(s.slots, x) && StateAt(s.slots, x) == Blocked
    requires DQ.Woken(s.sleep) == before + [IdAt(s.slots, x)] + after && IdAt(s.slots, x) !in before
    ensures Found(Tick(s).slots, IdAt(s.slots, x))
    ensures Doomed(StateAt(Tick(s).slots, x))
            || (Stranded(Tick(s), x) <==>
                  && |s.ready| + |Sleepers(s.slots, before)| >= QUEUE_SIZE
                  && (s.current == IdAt(s.slots, x) ==> SwitchesOnTick(s)))
  {
    hide DQ.Woken, DQ.Tick, Inv, RingInv, Sleepers, Schedule, BeforeSwitch, TickSleepers, Core, SwitchesOnTick;
    var id := IdAt(s.slots, x);
    BeforeSwitchQueuesIff(s, before, after, x);
    var b := BeforeSwitch(s);
    SwitchIgnoresForce(b);
    assert Tick(s) == (if SwitchesOnTick(s) then Schedule(b) else b).(force := false);
    if Doomed(StateAt(b.slots, x)) {
      ScheduleStates(b);
      assert IdAt(Schedule(b).slots, x) == IdAt(b.slots, x) && StateAt(Schedule(b).slots, x) == StateAt(b.slots, x);
    } else if Unqueued(b, x) {
      ScheduleStrands(b, x);
    } else {
      var k :| 0 <= k < |b.ready| && b.ready[k] == id;
      QueuedIsNotStranded(b, x, k);
    }
  }

  lemma BeforeSwitchQueuesIff(s: Sys, before: seq<TaskId>, after: seq<TaskId>, x: nat)
    requires Inv(s) && RingInv(s) && 1 <= x && Live(s.slots, x) && StateAt(s.slots, x) == Blocked
    requires DQ.Woken(s.sleep) == before + [IdAt(s.slots, x)] + after && IdAt(s.slots, x) !in before
    ensures var b, id := BeforeSwitch(s), IdAt(s.slots, x);
            && Core(b) && Found(b.slots, id) && b.current == s.current
            && (Doomed(StateAt(b.slots, x)) || StateAt(b.slots, x) == Ready)
            && (id in b.ready <==> |s.ready| + |Sleepers(s.slots, before)| < QUEUE_SIZE)
  {
    hide DQ.Woken, DQ.Tick, RingInv, Sleepers, BeforeSwitch;
    var s0 := s.(sleep := DQ.Tick(s.sleep));
    BlockedIsNotQueued(s, x);
    TickedIsCore(s);
    hide Core;
    WakeAllQueuesIff(s0, before, after, x);
    BeforeSwitchQueue(s);
    BeforeSwitchState(s, x);
    BeforeSwitchKeeps(s);
  }

  lemma TickedIsCore(s: Sys)
    requires Core(s)
    ensures Core(s.(sleep := DQ.Tick(s.sleep)))
  {
  }

  /** A switch serves a queued task or leaves it queued. */
  lemma QueuedIsNotStranded(s: Sys, x: nat, k: nat)
    requires Core(s) && Live(s.slots, x) && StateAt(s.slots, x) == Ready
    requires k < |s.ready| && s.ready[k] == IdAt(s.slots, x)
    ensures !Stranded(s, x) && !Stranded(Schedule(s), x) && Found(Schedule(s).slots, IdAt(s.slots, x))
  {
    hide PickNext;
    PickReaches(s.slots, s.ready, k);
    PickNextFacts(s.slots, s.ready);
    ScheduleStates(s);
    var p := PickNext(s.slots, s.ready);
    var d := |s.ready| - |p.ready|;
    if d <= k {
      assert p.ready[k - d] == s.ready[k];
      assert Schedule(s).ready[k - d] == s.ready[k];
    }
  }

  lemma BlockedIsNotQueued(s: Sys, x: nat)
    requires RingInv(s) && 1 <= x && Live(s.slots, x) && StateAt(s.slots, x) == Blocked
    ensures IdAt(s.slots, x) !in s.ready
  {
    var id := IdAt(s.slots, x);
    assert LaneOk(s.slots[x], Lane(s.ready, x));
    if id in s.ready {
      var i :| 0 <= i < |s.ready| && s.ready[i] == id;
      LaneAt(s.ready, i);
    }
  }

  lemma {:induction false} PickNeverFinds(slots: seq<Slot>, ready: seq<TaskId>, id: TaskId)
    requires SlotsOk(slots) && id !in ready && id != IDLE
    ensures PickNext(slots, ready).next != id && id !in PickNext(slots, ready).ready
    decreases |ready|
  {
    if ready != [] && !(Found(slots, ready[0]) && StateAt(slots, ready[0].slot) == Ready) {
      PickNeverFinds(slots, ready[1..], id);
    }
  }

  /** Not even a task that held the CPU gets back into the queue by a switch. */
  lemma ScheduleStrands(s: Sys, x: nat)
    requires Core(s) && Unqueued(s, x)
    ensures Stranded(Schedule(s), x) && IdAt(Schedule(s).slots, x) == IdAt(s.slots, x)
  {
    hide PickNext;
    var id := IdAt(s.slots, x);
    PickNeverFinds(s.slots, s.ready, id);
    PickNextFacts(s.slots, s.ready);
    ScheduleStates(s);
    var p := PickNext(s.slots, s.ready);
    if p.slots != s.slots { SetStateFacts(s.slots, p.next.slot, Running); }
    assert Requeues(p.slots, s.current) ==> s.current != id;
  }

  lemma {:induction false} WakeAllStrands(s: Sys, ids: seq<TaskId>, x: nat)
    requires Core(s) && Unqueued(s, x)
    ensures Unqueued(WakeAll(s, ids), x) && IdAt(WakeAll(s, ids).slots, x) == IdAt(s.slots, x)
    ensures WakeAll(s, ids).current == s.current
    decreases |ids|
  {
    if ids != [] {
      WakeKeeps(s, ids[0]);
      WakeAllStrands(Wake(s, ids[0]), ids[1..], x);
    }
  }

  lemma BeforeSwitchStrands(s: Sys, x: nat)
    requires Inv(s) && Unqueued(s, x)
    ensures var b := BeforeSwitch(s);
            && Core(b) && b.current == s.current && Found(b.slots, IdAt(s.slots, x))
            && (Unqueued(b, x) || Doomed(StateAt(b.slots, x)))
  {
    hide DQ.Woken, DQ.Tick, BeforeSwitch;
    TickedIsCore(s);
    WakeAllStrands(s.(sleep := DQ.Tick(s.sleep)), DQ.Woken(s.sleep), x);
    BeforeSwitchQueue(s);
    BeforeSwitchState(s, x);
    BeforeSwitchKeeps(s);
  }

  lemma TickStrands(s: Sys, x: nat)
    requires Inv(s) && Stranded(s, x)
    ensures Found(Tick(s).slots, IdAt(s.slots, x))
    ensures Stranded(Tick(s), x) || Doomed(StateAt(Tick(s).slots, x))
  {
    hide Inv, Core, BeforeSwitch, Schedule;
    BeforeSwitchStrands(s, x);
    var b := BeforeSwitch(s);
    SwitchIgnoresForce(b);
    ScheduleStates(b);
    if Doomed(StateAt(b.slots, x)) {
      assert StateAt(Schedule(b).slots, x) == StateAt(b.slots, x);
      assert IdAt(Schedule(b).slots, x) == IdAt(b.slots, x);
    } else {
      ScheduleStrands(b, x);
    }
  }

  lemma StepStrands(s: Sys, op: Op, x: nat)
    requires Inv(s) && Enabled(s, op) && Stranded(s, x)
    ensures Found(Apply(s, op).slots, IdAt(s.slots, x))
    ensures Stranded(Apply(s, op), x) || Doomed(StateAt(Apply(s, op).slots, x))
  {
    hide Schedule, Tick;
    match op
    case TimerTick => TickStrands(s, x);
    case Yield => ScheduleStrands(s, x);
    case Block => MarkBlockedKeeps(s); ScheduleStrands(MarkBlocked(s), x);
    case SleepFor(n) =>
      if n == 0 { ScheduleStrands(s, x); } else { MarkAsleepKeeps(s, n); ScheduleStrands(MarkAsleep(s, n), x); }
    case Exit => DyingStrands(s, x);
    case Fault => DyingStrands(s, x);
    case _ =>
  }

  lemma DyingStrands(s: Sys, x: nat)
    requires Inv(s) && s.current != IDLE && Stranded(s, x)
    ensures Stranded(Schedule(MarkDying(s)), x) && IdAt(Schedule(MarkDying(s)).slots, x) == IdAt(s.slots, x)
  {
    MarkDyingKeeps(s);
    var d := MarkDying(s).(force := true);
    ScheduleStrands(d, x);
    assert Schedule(d) == Schedule(MarkDying(s)).(force := true);
  }

  /** The task is killed at some point of the run, and is off the CPU until then. */
  ghost predicate KilledBeforeRunning(s: Sys, ops: seq<Op>, id: TaskId)
    decreases |ops|
  {
    && s.current != id && Found(s.slots, id)
    && (Doomed(StateAt(s.slots, id.slot)) || (ops != [] && KilledBeforeRunning(Apply(s, ops[0]), ops[1..], id)))
  }

  /** A stranded task never runs again, in any run: it stays stranded until somebody
      kills it. */
  lemma {:induction false} StrandedNeverRuns(s: Sys, ops: seq<Op>, x: nat)
    requires Inv(s) && EnabledRun(s, ops) && Stranded(s, x)
    ensures Stranded(Run(s, ops), x) || KilledBeforeRunning(s, ops, IdAt(s.slots, x))
    decreases |ops|
  {
    hide Apply, Inv, Enabled;
    if ops != [] {
      var s' := Apply(s, ops[0]);
      StepKeeps(s, ops[0]);
      StepStrands(s, ops[0], x);
      CurrentIsNotDoomed(s');
      if !Doomed(StateAt(s'.slots, x)) {
        StrandedNeverRuns(s', ops[1..], x);
      }
    }
  }
}
