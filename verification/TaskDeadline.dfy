/** How long a dying task stays in the table: until the second tick, or for good. Which
    of the two is decided by whether its reaper entry found room, and can be told from
    the queues alone. */
module TaskDeadline {
  import opened Basics
  import opened TaskIds
  import opened TaskModel
  import opened TaskSafety
  import opened TaskLifecycle
  import DQ = DeltaQueue

  /** Index of the first queued killer that names `id`, or the length of the queue. */
  function FirstNamed(sysq: seq<nat>, id: TaskId): (k: nat)
    ensures k <= |sysq|
  {
    if sysq == [] || (sysq[0] < TWO64 && Expand(sysq[0]) == id) then 0 else 1 + FirstNamed(sysq[1..], id)
  }

  /** A dying task without a reaper entry that will not get one either: no killer for it
      is queued, or the queue will be full when its turn comes. */
  ghost predicate Leaked(s: Sys, x: nat)
  {
    && Live(s.slots, x) && StateAt(s.slots, x) == Dying
    && IdAt(s.slots, x) !in s.reaper
    && (var k := FirstNamed(s.sysq, IdAt(s.slots, x)); k == |s.sysq| || |s.reaper| + k >= REAPER_QUEUE_SIZE)
  }

  ghost predicate Tombed(slots: seq<Slot>, tomb: seq<TaskId>)
  {
    forall x: nat :: Live(slots, x) && StateAt(slots, x) == Dead ==> IdAt(slots, x) in tomb
  }

  /** Every doomed task is in the queue that moves it on, or leaked. */
  ghost predicate AllTracked(s: Sys)
  {
    && Tombed(s.slots, s.tomb)
    && forall x: nat :: Live(s.slots, x) && StateAt(s.slots, x) == Dying ==> IdAt(s.slots, x) in s.reaper || Leaked(s, x)
  }

  // ------------------------------------------------------------- the parts of a tick

  lemma {:induction false} WakeAllTombed(s: Sys, ids: seq<TaskId>)
    requires Core(s) && Tombed(s.slots, s.tomb)
    ensures Tombed(WakeAll(s, ids).slots, s.tomb)
    decreases |ids|
  {
    if ids != [] {
      WakeKeeps(s, ids[0]);
      if Found(s.slots, ids[0]) && StateAt(s.slots, ids[0].slot) == Blocked {
        SetStateFacts(s.slots, ids[0].slot, Ready);
      }
      WakeAllTombed(Wake(s, ids[0]), ids[1..]);
    }
  }

  lemma DrainStep(s: Sys)
    requires Core(s) && s.sysq != []
    ensures var rest := s.(sysq := s.sysq[1..]);
            && Killable(s.slots, s.sysq[0]) && Core(rest) && Core(KillTask(rest, s.sysq[0]))
            && DrainSystemTasks(s) == DrainSystemTasks(KillTask(rest, s.sysq[0]))
            && KillTask(rest, s.sysq[0]).sysq == s.sysq[1..]
            && KillTask(rest, s.sysq[0]).slots == SetState(s.slots, Expand(s.sysq[0]).slot, Dying)
            && KillTask(rest, s.sysq[0]).reaper == Push(s.reaper, Expand(s.sysq[0]), REAPER_QUEUE_SIZE)
  {
    var rest := s.(sysq := s.sysq[1..]);
    assert Killable(s.slots, s.sysq[0]);
    assert forall i :: 0 <= i < |rest.sysq| ==> rest.sysq[i] == s.sysq[i + 1];
    KillTaskKeeps(rest, s.sysq[0]);
  }

  lemma {:induction false} DrainTombed(s: Sys)
    requires Core(s) && Tombed(s.slots, s.tomb)
    ensures Tombed(DrainSystemTasks(s).slots, s.tomb)
    decreases |s.sysq|
  {
    if s.sysq != [] {
      DrainStep(s);
      SetStateFacts(s.slots, Expand(s.sysq[0]).slot, Dying);
      DrainTombed(KillTask(s.(sysq := s.sysq[1..]), s.sysq[0]));
    }
  }

  /** A killer gets its entry exactly if the queue still has room when it runs. */
  lemma {:induction false} DrainQueuesIff(s: Sys, id: TaskId)
    requires Core(s) && id !in s.reaper
    ensures id in DrainSystemTasks(s).reaper <==>
            FirstNamed(s.sysq, id) < |s.sysq| && |s.reaper| + FirstNamed(s.sysq, id) < REAPER_QUEUE_SIZE
    decreases |s.sysq|
  {
    if s.sysq != [] {
      DrainStep(s);
      var n := KillTask(s.(sysq := s.sysq[1..]), s.sysq[0]);
      if Expand(s.sysq[0]) == id && |s.reaper| < REAPER_QUEUE_SIZE {
        assert n.reaper[|s.reaper|] == id;
        DrainKeepsReaper(n, id);
      } else {
        DrainQueuesIff(n, id);
      }
    }
  }

  /** And marks its task in any case. */
  lemma {:induction false} DrainMarks(s: Sys, x: nat)
    requires Core(s) && Live(s.slots, x)
    ensures Live(DrainSystemTasks(s).slots, x) && IdAt(DrainSystemTasks(s).slots, x) == IdAt(s.slots, x)
    ensures StateAt(DrainSystemTasks(s).slots, x) ==
            if FirstNamed(s.sysq, IdAt(s.slots, x)) < |s.sysq| then Dying else StateAt(s.slots, x)
    decreases |s.sysq|
  {
    if s.sysq != [] {
      DrainStep(s);
      SetStateFacts(s.slots, Expand(s.sysq[0]).slot, Dying);
      var n := KillTask(s.(sysq := s.sysq[1..]), s.sysq[0]);
      DrainMarks(n, x);
    }
  }

  lemma {:induction false} CleanupTombed(s: Sys)
    requires Core(s) && StateAt(s.slots, s.current.slot) != Dead && Tombed(s.slots, s.tomb)
    ensures Tombed(TombstoneCleanup(s).slots, [])
    decreases |s.tomb|
  {
    if s.tomb != [] {
      CleanupStep(s);
      var n := RemoveTask(s.(tomb := s.tomb[1..]), s.tomb[0]);
      forall x: nat | Live(n.slots, x) && StateAt(n.slots, x) == Dead ensures IdAt(n.slots, x) in n.tomb {
        assert IdAt(s.slots, x) in s.tomb && IdAt(s.slots, x) != s.tomb[0];
      }
      CleanupTombed(n);
    }
  }

  /** The tombstone queue is empty when the reaper starts and as long as the reaper
      queue, so it never overflows and nothing that dies is forgotten. */
  lemma {:induction false} ReapTombed(s: Sys)
    requires ReapingOk(s) && Tombed(s.slots, s.tomb) && |s.tomb| + |s.reaper| <= TOMBSTONE_QUEUE_SIZE
    ensures Tombed(ReapDyingTasks(s).slots, ReapDyingTasks(s).tomb)
    decreases |s.reaper|
  {
    if s.reaper != [] {
      ReapStep(s);
      var id := s.reaper[0];
      var n := ReapOne(s.(reaper := s.reaper[1..]), id);
      SetStateFacts(s.slots, id.slot, Dead);
      forall x: nat | Live(n.slots, x) && StateAt(n.slots, x) == Dead ensures IdAt(n.slots, x) in n.tomb {
        if x == id.slot {
          assert StateAt(s.slots, x) == Dying ==> n.tomb == s.tomb + [id];
        } else {
          assert forall i :: i in s.tomb ==> i in n.tomb;
        }
      }
      ReapTombed(n);
    }
  }

  lemma BeforeSwitchTombed(s: Sys)
    requires Inv(s) && Tombed(s.slots, s.tomb)
    ensures Tombed(BeforeSwitch(s).slots, BeforeSwitch(s).tomb)
  {
    var s0 := s.(sleep := DQ.Tick(s.sleep));
    WakeAllKeeps(s0, DQ.Woken(s.sleep));
    WakeAllTombed(s0, DQ.Woken(s.sleep));
    WakeAllForward(s0, DQ.Woken(s.sleep), 0);
    var c := CountTick(TickSleepers(s));
    DrainTombed(c);
    DrainKeepsCurrent(c);
    BeforeCleanupFacts(s);
    CleanupTombed(BeforeCleanup(s));
    AfterCleanupFacts(s);
    CleanupKeepsReaper(BeforeCleanup(s));
    ReapTombed(AfterCleanup(s));
  }

  /** After a tick the reaper and system-task queues are empty: whoever is dying then is
      leaked, and everybody dead has a tombstone. */
  lemma TickTracked(s: Sys)
    requires Inv(s) && AllTracked(s)
    ensures AllTracked(Tick(s)) && Tick(s).reaper == [] && Tick(s).sysq == []
  {
    BeforeSwitchTombed(s);
    BeforeSwitchKeeps(s);
    BeforeSwitchSysq(s);
    var b := BeforeSwitch(s);
    ScheduleStates(b);
    assert Schedule(b.(force := false)) == Schedule(b).(force := false);
  }

  lemma BeforeSwitchSysq(s: Sys)
    requires Inv(s)
    ensures BeforeSwitch(s).sysq == [] && BeforeSwitch(s).reaper == []
  {
    BeforeSwitchKeeps(s);
    AfterCleanupFacts(s);
    ReapKeepsSysq(AfterCleanup(s));
  }

  lemma {:induction false} ReapKeepsSysq(s: Sys)
    ensures ReapDyingTasks(s).sysq == s.sysq
    decreases |s.reaper|
  {
    if s.reaper != [] {
      ReapKeepsSysq(ReapOne(s.(reaper := s.reaper[1..]), s.reaper[0]));
    }
  }

  lemma {:induction false} DrainKeepsReaper(s: Sys, id: TaskId)
    requires id in s.reaper
    ensures id in DrainSystemTasks(s).reaper
    decreases |s.sysq|
  {
    if s.sysq != [] {
      DrainKeepsReaper(KillTask(s.(sysq := s.sysq[1..]), s.sysq[0]), id);
    }
  }

  lemma {:induction false} CleanupKeepsReaper(s: Sys)
    ensures TombstoneCleanup(s).reaper == s.reaper
    decreases |s.tomb|
  {
    if s.tomb != [] {
      CleanupKeepsReaper(RemoveTask(s.(tomb := s.tomb[1..]), s.tomb[0]));
    }
  }

  // --------------------------------------------------------------- what a tick leaks

  /** A tick turns a dying task with a reaper entry dead. */
  lemma TickOnDying(s: Sys, x: nat)
    requires Inv(s) && Live(s.slots, x) && IdAt(s.slots, x) !in s.tomb
    ensures Found(Tick(s).slots, IdAt(s.slots, x)) && Live(BeforeCleanup(s).slots, x)
    ensures StateAt(Tick(s).slots, x) == Dying <==>
            StateAt(BeforeCleanup(s).slots, x) == Dying && IdAt(s.slots, x) !in BeforeCleanup(s).reaper
    ensures StateAt(BeforeCleanup(s).slots, x) == Dying && IdAt(s.slots, x) in BeforeCleanup(s).reaper ==>
              StateAt(Tick(s).slots, x) == Dead
  {
    BeforeCleanupFacts(s);
    BeforeCleanupForward(s, x);
    CleanupFrees(BeforeCleanup(s), x);
    CleanupKeepsReaper(BeforeCleanup(s));
    AfterCleanupFacts(s);
    ReapForward(AfterCleanup(s), x);
    BeforeSwitchKeeps(s);
    var b := BeforeSwitch(s);
    assert Schedule(b.(force := false)) == Schedule(b).(force := false);
    ScheduleStates(b);
  }

  /** The state and the reaper entries of a task when the kills of a tick are done. */
  lemma BeforeCleanupOnTask(s: Sys, x: nat)
    requires Inv(s) && Live(s.slots, x)
    ensures var b, id := BeforeCleanup(s), IdAt(s.slots, x);
            var named := FirstNamed(s.sysq, id) < |s.sysq|;
            && Found(b.slots, id)
            && (StateAt(b.slots, x) == Dying <==> named || StateAt(s.slots, x) == Dying)
            && (id in b.reaper <==>
                  id in s.reaper || (named && |s.reaper| + FirstNamed(s.sysq, id) < REAPER_QUEUE_SIZE))
  {
    var id := IdAt(s.slots, x);
    var s0 := s.(sleep := DQ.Tick(s.sleep));
    WakeAllKeeps(s0, DQ.Woken(s.sleep));
    WakeAllForward(s0, DQ.Woken(s.sleep), x);
    WakeNeverKills(s0, DQ.Woken(s.sleep), x);
    var c := CountTick(TickSleepers(s));
    DrainMarks(c, x);
    if id in s.reaper { DrainKeepsReaper(c, id); } else { DrainQueuesIff(c, id); }
  }

  lemma {:induction false} WakeNeverKills(s: Sys, ids: seq<TaskId>, x: nat)
    requires Core(s) && Live(s.slots, x)
    ensures Live(WakeAll(s, ids).slots, x)
    ensures StateAt(WakeAll(s, ids).slots, x) == Dying <==> StateAt(s.slots, x) == Dying
    decreases |ids|
  {
    if ids != [] {
      WakeKeeps(s, ids[0]);
      WakeNeverKills(Wake(s, ids[0]), ids[1..], x);
    }
  }

  /** What the operation leaks: an exit or a fault its own task if the reaper queue is
      full; a tick the task whose killer comes after as many others as fill it. */
  predicate Leaks(s: Sys, op: Op, x: nat)
    requires Live(s.slots, x)
  {
    var id := IdAt(s.slots, x);
    match op
    case Exit => s.current == id && |s.reaper| == REAPER_QUEUE_SIZE
    case Fault => s.current == id && |s.reaper| == REAPER_QUEUE_SIZE
    case TimerTick =>
      && id !in s.reaper
      && FirstNamed(s.sysq, id) < |s.sysq|
      && |s.reaper| + FirstNamed(s.sysq, id) >= REAPER_QUEUE_SIZE
    case _ => false
  }

  lemma TickLeaksIff(s: Sys, x: nat)
    requires Inv(s) && AllTracked(s) && Live(s.slots, x)
    ensures Leaked(Tick(s), x) <==> Leaked(s, x) || Leaks(s, TimerTick, x)
  {
    var id := IdAt(s.slots, x);
    TickTracked(s);
    TickOnTask(s, x);
    BeforeCleanupOnTask(s, x);
    if StateAt(s.slots, x) == Dead { NamedIsNotDead(s, x); }
    if id !in s.tomb {
      TickOnDying(s, x);
    }
  }

  lemma {:induction false} NamedIsNotDead(s: Sys, x: nat)
    requires Inv(s) && Live(s.slots, x) && StateAt(s.slots, x) == Dead
    ensures FirstNamed(s.sysq, IdAt(s.slots, x)) == |s.sysq|
  {
    NotNamed(s.sysq, IdAt(s.slots, x));
  }

  lemma {:induction false} NotNamed(sysq: seq<nat>, id: TaskId)
    requires forall i :: 0 <= i < |sysq| ==> sysq[i] < TWO64 ==> Expand(sysq[i]) != id
    ensures FirstNamed(sysq, id) == |sysq|
  {
    if sysq != [] { NotNamed(sysq[1..], id); }
  }

  // ------------------------------------------------------------ the other operations

  lemma {:induction false} NamedAfterPush(sysq: seq<nat>, packed: nat, id: TaskId)
    requires packed < TWO64 && Expand(packed) != id
    ensures FirstNamed(sysq + [packed], id) == FirstNamed(sysq, id) + (if FirstNamed(sysq, id) == |sysq| then 1 else 0)
  {
    if sysq == [] {
      assert [packed][1..] == [];
    } else {
      assert (sysq + [packed])[1..] == sysq[1..] + [packed];
      NamedAfterPush(sysq[1..], packed, id);
    }
  }

  predicate Dies(op: Op)
  {
    op.Exit? || op.Fault?
  }

  lemma OtherOpsQueues(s: Sys, op: Op)
    requires Inv(s) && Enabled(s, op) && !op.TimerTick?
    ensures Apply(s, op).tomb == s.tomb
    ensures Apply(s, op).reaper == if Dies(op) then Push(s.reaper, s.current, REAPER_QUEUE_SIZE) else s.reaper
    ensures Apply(s, op).sysq == if op.ExitThread? then RequestExit(s, op.thread).sysq else s.sysq
  {
  }

  /** What an operation other than a tick does to the life of task `x`. */
  ghost predicate LifeKept(before: seq<Slot>, after: seq<Slot>, x: nat, dies: bool)
    requires Live(before, x)
  {
    && Live(after, x) && IdAt(after, x) == IdAt(before, x)
    && (StateAt(after, x) == Dying <==> StateAt(before, x) == Dying || dies)
    && (StateAt(after, x) == Dead <==> StateAt(before, x) == Dead)
  }

  lemma ScheduleState(s: Sys, x: nat)
    requires Core(s) && Live(s.slots, x)
    ensures LifeKept(s.slots, Schedule(s).slots, x, false)
  {
    hide Schedule, Core;
    ScheduleStates(s);
  }

  lemma BlockedState(s: Sys, x: nat)
    requires Inv(s) && s.current != IDLE && Live(s.slots, x)
    ensures Inv(MarkBlocked(s)) && LifeKept(s.slots, MarkBlocked(s).slots, x, false)
  {
    MarkBlockedKeeps(s);
    assert SetQuantum(s, s.current) == s;
  }

  lemma AsleepState(s: Sys, n: nat, x: nat)
    requires Inv(s) && s.current != IDLE && Live(s.slots, x)
    ensures Inv(MarkAsleep(s, n)) && LifeKept(s.slots, MarkAsleep(s, n).slots, x, false)
  {
    hide MarkBlocked;
    BlockedState(s.(sleep := DQ.Insert(s.sleep, s.current, SleepTicks(n))), x);
  }

  lemma OtherOpsState(s: Sys, op: Op, x: nat)
    requires Inv(s) && Enabled(s, op) && !op.TimerTick? && Live(s.slots, x)
    ensures Live(Apply(s, op).slots, x) && IdAt(Apply(s, op).slots, x) == IdAt(s.slots, x)
    ensures StateAt(Apply(s, op).slots, x) == Dying <==>
            StateAt(s.slots, x) == Dying || (Dies(op) && s.current == IdAt(s.slots, x))
    ensures StateAt(Apply(s, op).slots, x) == Dead <==> StateAt(s.slots, x) == Dead
  {
    hide Core, Schedule, MarkBlocked, MarkAsleep, MarkDying;
    match op
    case Yield => ScheduleState(s, x);
    case BeginBlock => BlockedState(s, x);
    case BeginSleep(n) => if n != 0 { AsleepState(s, n, x); }
    case Block => BlockedState(s, x); ScheduleState(MarkBlocked(s), x);
    case SleepFor(n) =>
      if n == 0 { ScheduleState(s, x); } else { AsleepState(s, n, x); ScheduleState(MarkAsleep(s, n), x); }
    case Exit => DyingState(s, x);
    case Fault => DyingState(s, x);
    case _ =>
  }

  lemma DyingState(s: Sys, x: nat)
    requires Inv(s) && s.current != IDLE && Live(s.slots, x)
    ensures var r := Schedule(MarkDying(s)).slots;
            && Live(r, x) && IdAt(r, x) == IdAt(s.slots, x)
            && (StateAt(r, x) == Dying <==> StateAt(s.slots, x) == Dying || s.current == IdAt(s.slots, x))
            && (StateAt(r, x) == Dead <==> StateAt(s.slots, x) == Dead)
  {
    MarkDyingKeeps(s);
    SetStateFacts(s.slots, s.current.slot, Dying);
    var d := MarkDying(s).(force := true);
    ScheduleStates(d);
    assert Schedule(d) == Schedule(MarkDying(s)).(force := true);
  }

  /** A request to exit never names a task that is dying. */
  lemma RequestNamesNoDying(s: Sys, t: nat, x: nat)
    requires Inv(s) && Live(s.slots, x) && StateAt(s.slots, x) == Dying
    ensures var q, id := RequestExit(s, t).sysq, IdAt(s.slots, x);
            && |s.sysq| <= |q|
            && FirstNamed(q, id) == if FirstNamed(s.sysq, id) == |s.sysq| then |q| else FirstNamed(s.sysq, id)
  {
    var q, id := RequestExit(s, t).sysq, IdAt(s.slots, x);
    if q != s.sysq {
      var other := s.threads[t].task.value;
      assert other != id;
      CompressRoundTrip(other);
      NamedAfterPush(s.sysq, Compress(other), id);
    }
  }

  lemma OtherOpsLeakIff(s: Sys, op: Op, x: nat)
    requires Inv(s) && Enabled(s, op) && AllTracked(s) && !op.TimerTick? && Live(s.slots, x)
    ensures Leaked(Apply(s, op), x) <==> Leaked(s, x) || Leaks(s, op, x)
    ensures IdAt(s.slots, x) in s.reaper ==> IdAt(s.slots, x) in Apply(s, op).reaper
    ensures Dies(op) && s.current == IdAt(s.slots, x) ==>
              IdAt(s.slots, x) in Apply(s, op).reaper || Leaked(Apply(s, op), x)
  {
    hide Apply;
    OtherOpsQueues(s, op);
    OtherOpsState(s, op, x);
    var id := IdAt(s.slots, x);
    if StateAt(s.slots, x) == Dying {
      if op.ExitThread? { RequestNamesNoDying(s, op.thread, x); }
      CurrentIsNotDying(s);
    } else if Dies(op) && s.current == id {
      ReaperIsDying(s, id);
      if |s.reaper| < REAPER_QUEUE_SIZE {
        assert Apply(s, op).reaper[|s.reaper|] == id;
      }
    }
  }

  lemma CurrentIsNotDying(s: Sys)
    requires Inv(s)
    ensures Found(s.slots, s.current) && StateAt(s.slots, s.current.slot) != Dying
  {
  }

  lemma ReaperIsDying(s: Sys, id: TaskId)
    requires Inv(s) && Found(s.slots, id) && StateAt(s.slots, id.slot) != Dying
    ensures id !in s.reaper
  {
  }

  // ------------------------------------------------------------------ asking to exit

  lemma BeforeSwitchDoomsIff(s: Sys, x: nat)
    requires Inv(s) && Live(s.slots, x) && !Doomed(StateAt(s.slots, x))
    ensures Found(BeforeSwitch(s).slots, IdAt(s.slots, x))
    ensures Doomed(StateAt(BeforeSwitch(s).slots, x)) <==> FirstNamed(s.sysq, IdAt(s.slots, x)) < |s.sysq|
  {
    TombstonesAreDead(s, x);
    BeforeCleanupOnTask(s, x);
    BeforeCleanupForward(s, x);
    BeforeCleanupFacts(s);
    AfterCleanupFacts(s);
    hide Inv, Core, BeforeCleanup, FirstNamed;
    CleanupFrees(BeforeCleanup(s), x);
    ReapForward(AfterCleanup(s), x);
  }

  /** A tick dooms exactly the tasks that a queued killer names. */
  lemma TickDoomsIff(s: Sys, x: nat)
    requires Inv(s) && Live(s.slots, x) && !Doomed(StateAt(s.slots, x))
    ensures Found(Tick(s).slots, IdAt(s.slots, x))
    ensures Doomed(StateAt(Tick(s).slots, x)) <==> FirstNamed(s.sysq, IdAt(s.slots, x)) < |s.sysq|
  {
    hide Inv, Core, BeforeSwitch, Schedule, FirstNamed, SwitchesOnTick;
    var b := BeforeSwitch(s);
    BeforeSwitchDoomsIff(s, x);
    BeforeSwitchKeeps(s);
    SwitchIgnoresForce(b);
    ScheduleState(b, x);
  }

  lemma SwitchIgnoresForce(s: Sys)
    ensures Schedule(s.(force := false)) == Schedule(s).(force := false)
  {
  }

  lemma TombstonesAreDead(s: Sys, x: nat)
    requires Inv(s) && Live(s.slots, x) && !Doomed(StateAt(s.slots, x))
    ensures IdAt(s.slots, x) !in s.tomb
  {
  }

  lemma {:induction false} NamedByPush(sysq: seq<nat>, packed: nat)
    requires packed < TWO64
    ensures FirstNamed(sysq + [packed], Expand(packed)) < |sysq| + 1
  {
    if sysq != [] {
      assert (sysq + [packed])[1..] == sysq[1..] + [packed];
      NamedByPush(sysq[1..], packed);
    }
  }

  /** `Thread::exit` on the thread of a task that is not on its way out yet. The next tick
      dooms the task if and only if the system-task queue had room for the killer or
      already held one: a full queue drops the request without a word. */
  lemma ExitRequestKillsIff(s: Sys, x: nat)
    requires Inv(s) && Live(s.slots, x) && x != 0 && !Doomed(StateAt(s.slots, x))
    ensures var t, id := ThreadAt(s.slots, x), IdAt(s.slots, x);
            var r := Tick(RequestExit(s, t));
            && Enabled(s, ExitThread(t)) && Found(r.slots, id)
            && (Doomed(StateAt(r.slots, x)) <==>
                  |s.sysq| < MAX_SYSTEM_TASKS || FirstNamed(s.sysq, id) < |s.sysq|)
  {
    var t, id := ThreadAt(s.slots, x), IdAt(s.slots, x);
    var q := RequestExit(s, t);
    StepKeeps(s, ExitThread(t));
    assert s.threads[t] == Thread(Mirror(StateAt(s.slots, x)), Some(id));
    CompressRoundTrip(id);
    NamedByPush(s.sysq, Compress(id));
    hide Tick, Compress;
    TickDoomsIff(q, x);
  }

  // ----------------------------------------------------------------- every operation

  /** Exactly when an operation leaks a task. */
  lemma StepLeaksIff(s: Sys, op: Op, x: nat)
    requires Inv(s) && Enabled(s, op) && AllTracked(s) && Live(s.slots, x)
    ensures Leaked(Apply(s, op), x) <==> Leaked(s, x) || Leaks(s, op, x)
  {
    if op.TimerTick? { TickLeaksIff(s, x); } else { OtherOpsLeakIff(s, op, x); }
  }

  /** In particular: an exit leaks its task if and only if the reaper queue is full,
      whether or not a killer for the task is queued already. */
  lemma ExitLeaksIff(s: Sys)
    requires Inv(s) && AllTracked(s) && s.current != IDLE
    ensures Leaked(Apply(s, Exit), s.current.slot) <==> |s.reaper| == REAPER_QUEUE_SIZE
  {
    CurrentIsNotDying(s);
    StepLeaksIff(s, Exit, s.current.slot);
  }

  lemma StepTracked(s: Sys, op: Op)
    requires Inv(s) && Enabled(s, op) && AllTracked(s)
    ensures AllTracked(Apply(s, op))
  {
    if op.TimerTick? {
      TickTracked(s);
    } else {
      OtherOpsQueues(s, op);
      var r := Apply(s, op);
      forall x: nat | Live(r.slots, x)
        ensures StateAt(r.slots, x) == Dead ==> IdAt(r.slots, x) in r.tomb
        ensures StateAt(r.slots, x) == Dying ==> IdAt(r.slots, x) in r.reaper || Leaked(r, x)
      {
        if Live(s.slots, x) {
          OtherOpsState(s, op, x);
          OtherOpsLeakIff(s, op, x);
        } else {
          OtherOpsOnFree(s, op, x);
        }
      }
    }
  }

  lemma OtherOpsOnFree(s: Sys, op: Op, x: nat)
    requires Inv(s) && Enabled(s, op) && !op.TimerTick? && !Live(s.slots, x)
    ensures Live(Apply(s, op).slots, x) ==> !Doomed(StateAt(Apply(s, op).slots, x))
  {
    match op
    case Yield => ScheduleStates(s);
    case Block => MarkBlockedKeeps(s); ScheduleStates(MarkBlocked(s));
    case SleepFor(n) =>
      if n == 0 { ScheduleStates(s); } else { MarkAsleepKeeps(s, n); ScheduleStates(MarkAsleep(s, n)); }
    case Exit => DyingLeavesFree(s, x);
    case Fault => DyingLeavesFree(s, x);
    case _ =>
  }

  lemma DyingLeavesFree(s: Sys, x: nat)
    requires Inv(s) && s.current != IDLE && !Live(s.slots, x)
    ensures !Live(Schedule(MarkDying(s)).slots, x)
    ensures x < |s.slots| ==>
              x < |Schedule(MarkDying(s)).slots| && Schedule(MarkDying(s)).slots[x] == s.slots[x]
  {
    MarkDyingKeeps(s);
    var d := MarkDying(s).(force := true);
    ScheduleStates(d);
    if x < |s.slots| { ScheduleLeavesFree(d, x); }
    assert Schedule(d) == Schedule(MarkDying(s)).(force := true);
  }

  lemma BootTracked()
    ensures AllTracked(Boot())
  {
  }

  /** In every run, whatever overflows. */
  lemma {:induction false} RunKeepsTracked(s: Sys, ops: seq<Op>)
    requires Inv(s) && AllTracked(s) && EnabledRun(s, ops)
    ensures Inv(Run(s, ops)) && AllTracked(Run(s, ops))
    decreases |ops|
  {
    hide Apply, Inv, Enabled, AllTracked;
    if ops != [] {
      StepKeeps(s, ops[0]);
      StepTracked(s, ops[0]);
      RunKeepsTracked(Apply(s, ops[0]), ops[1..]);
    }
  }

  // ------------------------------------------------------------------ the deadline

  /** One tick: the dead are removed, and the dying are dead unless they are leaked. */
  lemma TickMovesOn(s: Sys, x: nat)
    requires Inv(s) && AllTracked(s) && Live(s.slots, x) && Doomed(StateAt(s.slots, x))
    ensures StateAt(s.slots, x) == Dead ==> !Found(Tick(s).slots, IdAt(s.slots, x))
    ensures StateAt(s.slots, x) == Dying ==>
              && Found(Tick(s).slots, IdAt(s.slots, x))
              && StateAt(Tick(s).slots, x) == if Leaked(s, x) then Dying else Dead
  {
    TickOnTask(s, x);
    if StateAt(s.slots, x) == Dying {
      BeforeCleanupOnTask(s, x);
      TickOnDying(s, x);
    }
  }

  /** The number of ticks a doomed task has left. */
  function TicksLeft(st: TaskState): (n: nat)
  {
    if st == Dying then 2 else 1
  }

  /** The same for any operation: only a tick uses up the remaining time. */
  lemma StepMovesOn(s: Sys, op: Op, x: nat)
    requires Inv(s) && Enabled(s, op) && AllTracked(s)
    requires Live(s.slots, x) && Doomed(StateAt(s.slots, x)) && !Leaked(s, x)
    ensures var s', left := Apply(s, op), TicksLeft(StateAt(s.slots, x)) - (if op.TimerTick? then 1 else 0);
            if left == 0 then !Found(s'.slots, IdAt(s.slots, x))
            else && Found(s'.slots, IdAt(s.slots, x)) && Doomed(StateAt(s'.slots, x)) && !Leaked(s', x)
                 && TicksLeft(StateAt(s'.slots, x)) == left
  {
    if op.TimerTick? {
      TickMovesOn(s, x);
    } else {
      OtherOpsState(s, op, x);
      OtherOpsLeakIff(s, op, x);
      CurrentIsNotDoomed(s);
    }
  }

  lemma CurrentIsNotDoomed(s: Sys)
    requires Inv(s)
    ensures Found(s.slots, s.current) && !Doomed(StateAt(s.slots, s.current.slot))
  {
  }

  function Ticks(ops: seq<Op>): (n: nat)
  {
    if ops == [] then 0 else (if ops[0].TimerTick? then 1 else 0) + Ticks(ops[1..])
  }

  /** Some state along the run, reached after at most `n` ticks, no longer holds the
      task `id`. */
  predicate RemovedWithin(s: Sys, ops: seq<Op>, id: TaskId, n: nat)
    decreases |ops|
  {
    || !Found(s.slots, id)
    || (ops != [] && if !ops[0].TimerTick? then RemovedWithin(Apply(s, ops[0]), ops[1..], id, n)
                     else 0 < n && RemovedWithin(Apply(s, ops[0]), ops[1..], id, n - 1))
  }

  lemma {:induction false} TrackedIsRemovedInTime(s: Sys, ops: seq<Op>, x: nat)
    requires Inv(s) && AllTracked(s) && EnabledRun(s, ops)
    requires Live(s.slots, x) && Doomed(StateAt(s.slots, x)) && !Leaked(s, x)
    requires TicksLeft(StateAt(s.slots, x)) <= Ticks(ops)
    ensures RemovedWithin(s, ops, IdAt(s.slots, x), TicksLeft(StateAt(s.slots, x)))
    decreases |ops|
  {
    hide Apply, Inv, Enabled, AllTracked, Leaked;
    var op, s' := ops[0], Apply(s, ops[0]);
    StepKeeps(s, op);
    StepTracked(s, op);
    StepMovesOn(s, op, x);
    if Found(s'.slots, IdAt(s.slots, x)) {
      TrackedIsRemovedInTime(s', ops[1..], x);
    }
  }

  lemma LeakedIsThere(s: Sys, x: nat)
    requires Leaked(s, x)
    ensures Live(s.slots, x) && Found(s.slots, IdAt(s.slots, x)) && StateAt(s.slots, x) == Dying
  {
  }

  lemma StepKeepsLeak(s: Sys, op: Op, x: nat)
    requires Inv(s) && Enabled(s, op) && AllTracked(s) && Leaked(s, x)
    ensures Leaked(Apply(s, op), x) && IdAt(Apply(s, op).slots, x) == IdAt(s.slots, x)
  {
    StepLeaksIff(s, op, x);
    if op.TimerTick? { TickMovesOn(s, x); } else { OtherOpsState(s, op, x); }
  }

  /** A leaked task is never removed, in any run. */
  lemma {:induction false} LeakIsPermanent(s: Sys, ops: seq<Op>, x: nat, n: nat)
    requires Inv(s) && AllTracked(s) && EnabledRun(s, ops) && Leaked(s, x)
    ensures Leaked(Run(s, ops), x) && IdAt(Run(s, ops).slots, x) == IdAt(s.slots, x)
    ensures !RemovedWithin(s, ops, IdAt(s.slots, x), n)
    decreases |ops|
  {
    hide Apply, Inv, Enabled, AllTracked, Leaked;
    LeakedIsThere(s, x);
    if ops != [] {
      StepKeepsLeak(s, ops[0], x);
      StepTracked(s, ops[0]);
      StepKeeps(s, ops[0]);
      LeakedIsThere(Apply(s, ops[0]), x);
      var d := if ops[0].TimerTick? && n > 0 then 1 else 0;
      LeakIsPermanent(Apply(s, ops[0]), ops[1..], x, n - d);
    }
  }

  /** A doomed task leaves the table by the second following tick, a dead one by the
      next, if and only if it is not leaked: in every run, whatever overflows. */
  lemma RemovedInTimeIff(s: Sys, ops: seq<Op>, x: nat)
    requires Inv(s) && AllTracked(s) && EnabledRun(s, ops)
    requires Live(s.slots, x) && Doomed(StateAt(s.slots, x)) && TicksLeft(StateAt(s.slots, x)) <= Ticks(ops)
    ensures RemovedWithin(s, ops, IdAt(s.slots, x), TicksLeft(StateAt(s.slots, x))) <==> !Leaked(s, x)
  {
    hide Apply, Inv, Enabled, AllTracked, Leaked;
    if Leaked(s, x) {
      LeakIsPermanent(s, ops, x, TicksLeft(StateAt(s.slots, x)));
    } else {
      TrackedIsRemovedInTime(s, ops, x);
    }
  }

  /** The same from boot, for every state that a run reaches. */
  lemma RemovedInTimeFromBoot(before: seq<Op>, after: seq<Op>, x: nat)
    requires EnabledRun(Boot(), before) && EnabledRun(Run(Boot(), before), after)
    requires Live(Run(Boot(), before).slots, x) && Doomed(StateAt(Run(Boot(), before).slots, x))
    requires TicksLeft(StateAt(Run(Boot(), before).slots, x)) <= Ticks(after)
    ensures var s := Run(Boot(), before);
            RemovedWithin(s, after, IdAt(s.slots, x), TicksLeft(StateAt(s.slots, x))) <==> !Leaked(s, x)
  {
    hide Apply, Inv, Enabled, AllTracked, Boot, Leaked;
    BootInv();
    BootTracked();
    RunKeepsTracked(Boot(), before);
    RemovedInTimeIff(Run(Boot(), before), after, x);
  }
}
