/** Exactly when the ready queue stays in order, for one operation and for whole runs:
    what a full queue, the kills of a tick, and a wake-up between the two halves of a
    blocking operation do to it. */
module RingRuns {
  import opened TaskIds
  import opened TaskModel
  import opened TaskSafety
  import opened TaskLifecycle
  import opened TaskDeadline
  import opened TaskWaiting
  import opened ReadyRing
  import opened StaleIds
  import DQ = DeltaQueue

  /** The entry can be switched to. */
  predicate Eligible(slots: seq<Slot>, id: TaskId)
  {
    Found(slots, id) && StateAt(slots, id.slot) == Ready
  }

  /** A killer for the task is queued. */
  predicate Named(s: Sys, id: TaskId)
  {
    FirstNamed(s.sysq, id) < |s.sysq|
  }

  // ------------------------------------------------------- a switch from a ready task

  /** Somebody who can run stands in the queue before the first entry for `id`. */
  predicate AheadOf(slots: seq<Slot>, ready: seq<TaskId>, id: TaskId)
  {
    ready != [] && ready[0] != id && (Eligible(slots, ready[0]) || AheadOf(slots, ready[1..], id))
  }

  /** A task that is ready and still holds the CPU leaves it properly exactly if
      somebody else is picked before it. Otherwise the switch picks it, queues it again
      and changes nothing but the order of the queue. */
  lemma SwitchRingIff(s: Sys)
    requires Core(s) && LanesOk(s.slots, s.ready) && s.current != IDLE
    requires StateAt(s.slots, s.current.slot) == Ready
    ensures RingInv(Schedule(s)) <==> AheadOf(s.slots, s.ready, s.current)
    ensures !AheadOf(s.slots, s.ready, s.current) ==> Resumed(s, Schedule(s))
  {
    var c := s.current;
    IdleIsAlone(s);
    LanesOkIff(s.slots, s.ready);
    assert IdAt(s.slots, c.slot) == c;
    if AheadOf(s.slots, s.ready, c) {
      PicksSomebodyElse(s);
    } else {
      PicksItself(s);
    }
  }

  lemma {:induction false} PickIsAhead(slots: seq<Slot>, ready: seq<TaskId>, id: TaskId)
    requires AheadOf(slots, ready, id)
    ensures var p := PickNext(slots, ready);
            p.next != id && Eligible(slots, p.next) && p.slots == SetState(slots, p.next.slot, Running)
    decreases |ready|
  {
    if !Eligible(slots, ready[0]) { PickIsAhead(slots, ready[1..], id); }
  }

  lemma IdleIsAlone(s: Sys)
    requires Core(s)
    ensures Found(s.slots, s.current) && (s.current != IDLE <==> 1 <= s.current.slot) && SlotsOk(s.slots)
  {
  }

  lemma PicksSomebodyElse(s: Sys)
    requires SlotsOk(s.slots) && LanesOk(s.slots, s.ready) && Eligible(s.slots, s.current)
    requires AheadOf(s.slots, s.ready, s.current)
    ensures RingInv(Schedule(s))
  {
    hide PickNext, LanesOk, SlotsOk;
    PickIsAhead(s.slots, s.ready, s.current);
    var p := PickNext(s.slots, s.ready);
    SetStateFacts(s.slots, p.next.slot, Running);
    assert p.next.slot != s.current.slot;
    PickKeepsLanes(s.slots, s.ready);
  }

  /** The state after a switch that picked the outgoing task: the entries up to its own
      are gone and it stands at the end. */
  ghost predicate Resumed(s: Sys, r: Sys)
  {
    && r.slots == s.slots && r.current == s.current
    && LanesOk(r.slots, r.ready)
    && s.current in s.ready && r.ready == s.ready[FirstAt(s.ready, s.current) + 1..] + [s.current]
  }

  lemma {:induction false} PickIsFirst(slots: seq<Slot>, ready: seq<TaskId>, id: TaskId)
    requires id in ready && Eligible(slots, id) && !AheadOf(slots, ready, id)
    ensures PickNext(slots, ready) == Pick(SetState(slots, id.slot, Running), ready[FirstAt(ready, id) + 1..], id)
    decreases |ready|
  {
    if ready[0] != id {
      PickIsFirst(slots, ready[1..], id);
      Suffixes(ready, FirstAt(ready[1..], id) + 1);
    }
  }

  lemma PicksItself(s: Sys)
    requires SlotsOk(s.slots) && LanesOk(s.slots, s.ready) && Eligible(s.slots, s.current)
    requires s.current != IDLE && s.current in s.ready && !AheadOf(s.slots, s.ready, s.current)
    ensures !RingInv(Schedule(s)) && Resumed(s, Schedule(s))
  {
    hide PickNext, AheadOf, SlotsOk, LanesOk;
    var c, p := s.current, PickNext(s.slots, s.ready);
    PickIsFirst(s.slots, s.ready, c);
    PickKeepsLanes(s.slots, s.ready);
    SetStateSlots(s.slots, c.slot);
    QueueIsBounded(s.slots, s.ready);
    RequeueKeepsLanes(p.slots, p.ready, c);
    assert SetState(p.slots, c.slot, Ready) == s.slots;
    assert Schedule(s).ready == p.ready + [c];
  }

  lemma QueueIsBounded(slots: seq<Slot>, ready: seq<TaskId>)
    requires LanesOk(slots, ready)
    ensures |ready| <= QUEUE_SIZE
  {
  }

  lemma SetStateSlots(slots: seq<Slot>, x: nat)
    requires SlotsOk(slots) && Live(slots, x)
    ensures SlotsOk(SetState(slots, x, Running))
  {
  }

  /** Index of the first entry for `id`, or the length of the queue. */
  ghost function FirstAt(q: seq<TaskId>, id: TaskId): (k: nat)
    ensures k <= |q| && id !in q[..k] && (k < |q| <==> id in q)
    ensures k < |q| ==> q[k] == id
  {
    if q == [] || q[0] == id then 0 else
      var k := FirstAt(q[1..], id);
      assert q[..k + 1] == [q[0]] + q[1..][..k];
      k + 1
  }

  // ------------------------------------------------------------ a tick up to its switch

  /** Ready once the sleepers are woken, and not killed by the tick. */
  ghost predicate Survives(s: Sys, id: TaskId)
  {
    Eligible(TickSleepers(s).slots, id) && !Named(s, id)
  }

  lemma KillsOnTask(s: Sys, x: nat)
    requires Inv(s) && Live(s.slots, x)
    ensures var w, k, id := TickSleepers(s), BeforeCleanup(s), IdAt(s.slots, x);
            && Found(w.slots, id) && Found(k.slots, id)
            && StateAt(k.slots, x) == (if Named(s, id) then Dying else StateAt(w.slots, x))
            && (Doomed(StateAt(s.slots, x)) ==> StateAt(w.slots, x) == StateAt(s.slots, x))
  {
    hide DQ.Woken, DQ.Tick;
    var s0 := s.(sleep := DQ.Tick(s.sleep));
    TickedIsCore(s);
    WakeAllKeeps(s0, DQ.Woken(s.sleep));
    WakeAllForward(s0, DQ.Woken(s.sleep), x);
    DrainMarks(CountTick(TickSleepers(s)), x);
  }

  lemma ReadyAfterKills(s: Sys, x: nat)
    requires Inv(s) && Live(s.slots, x) && IdAt(s.slots, x) !in s.tomb
    requires Found(BeforeCleanup(s).slots, IdAt(s.slots, x))
    ensures Eligible(BeforeSwitch(s).slots, IdAt(s.slots, x)) <==> StateAt(BeforeCleanup(s).slots, x) == Ready
  {
    BeforeCleanupFacts(s);
    BeforeCleanupForward(s, x);
    AfterCleanupFacts(s);
    hide Inv, Core, BeforeCleanup;
    CleanupFrees(BeforeCleanup(s), x);
    ReapForward(AfterCleanup(s), x);
  }

  lemma TombstoneIsDead(s: Sys, x: nat)
    requires Inv(s) && Live(s.slots, x) && IdAt(s.slots, x) in s.tomb
    ensures StateAt(s.slots, x) == Dead && !Found(BeforeSwitch(s).slots, IdAt(s.slots, x))
  {
    hide BeforeSwitch;
    BeforeSwitchOnTask(s, x);
  }

  lemma SurvivesOnTask(s: Sys, x: nat)
    requires Inv(s) && Live(s.slots, x)
    ensures Eligible(BeforeSwitch(s).slots, IdAt(s.slots, x)) <==> Survives(s, IdAt(s.slots, x))
  {
    hide Inv, TickSleepers, BeforeCleanup, BeforeSwitch;
    KillsOnTask(s, x);
    if IdAt(s.slots, x) in s.tomb { TombstoneIsDead(s, x); } else { ReadyAfterKills(s, x); }
  }

  /** Whoever can be switched to when the tick decides. */
  lemma SurvivesIff(s: Sys, id: TaskId)
    requires Inv(s)
    ensures Eligible(BeforeSwitch(s).slots, id) <==> Survives(s, id)
  {
    hide Inv, BeforeSwitch, TickSleepers;
    SameTable(s);
    if id.slot < |s.slots| {
      if !Live(s.slots, id.slot) {
        BeforeSwitchLeavesFree(s, id.slot);
      } else if id == IdAt(s.slots, id.slot) {
        SurvivesOnTask(s, id.slot);
      } else {
        StaysAnother(s, id);
      }
    }
  }

  lemma SameTable(s: Sys)
    requires Inv(s)
    ensures |TickSleepers(s).slots| == |BeforeSwitch(s).slots| == |s.slots|
  {
    hide DQ.Woken, DQ.Tick, BeforeSwitch;
    TickedIsCore(s);
    WakeAllKeeps(s.(sleep := DQ.Tick(s.sleep)), DQ.Woken(s.sleep));
    BeforeSwitchKeeps(s);
  }

  lemma StaysAnother(s: Sys, id: TaskId)
    requires Inv(s) && Live(s.slots, id.slot) && id != IdAt(s.slots, id.slot)
    ensures !Found(TickSleepers(s).slots, id) && !Found(BeforeSwitch(s).slots, id)
  {
    hide BeforeSwitch, TickSleepers;
    KillsOnTask(s, id.slot);
    BeforeSwitchOnTask(s, id.slot);
  }

  // ------------------------------------------------------------ the wake-ups of a tick

  lemma {:induction false} WakeAllReadies(s: Sys, ids: seq<TaskId>, id: TaskId)
    requires Core(s)
    ensures Eligible(WakeAll(s, ids).slots, id) <==> Eligible(s.slots, id) || id in Sleepers(s.slots, ids)
    decreases |ids|
  {
    if ids != [] {
      WakeKeeps(s, ids[0]);
      SleepersStep(s, ids);
      if Found(s.slots, ids[0]) && StateAt(s.slots, ids[0].slot) == Blocked { SetStateFacts(s.slots, ids[0].slot, Ready); }
      WakeAllReadies(Wake(s, ids[0]), ids[1..], id);
    }
  }

  /** With room for all, the queue holds the old entries and the woken sleepers. */
  lemma {:induction false} WakeAllContents(s: Sys, ids: seq<TaskId>, id: TaskId)
    requires Core(s) && |s.ready| + |Sleepers(s.slots, ids)| <= QUEUE_SIZE
    ensures id in WakeAll(s, ids).ready <==> id in s.ready || id in Sleepers(s.slots, ids)
    decreases |ids|
  {
    if ids != [] {
      WakeKeeps(s, ids[0]);
      SleepersStep(s, ids);
      var n := Wake(s, ids[0]);
      assert Found(s.slots, ids[0]) && StateAt(s.slots, ids[0].slot) == Blocked ==> n.ready == s.ready + [ids[0]];
      WakeAllContents(n, ids[1..], id);
    }
  }

  /** The tasks that the tick wakes. */
  ghost function Risers(s: Sys): (r: set<TaskId>)
    ensures forall id :: id in r ==> id in DQ.Woken(s.sleep)
  {
    Sleepers(s.slots, DQ.Woken(s.sleep))
  }

  /** Those among them whose turn comes before that of `id`. */
  ghost function RisersBefore(s: Sys, id: TaskId): (r: set<TaskId>)
    ensures id !in r
  {
    Sleepers(s.slots, DQ.Woken(s.sleep)[..FirstAt(DQ.Woken(s.sleep), id)])
  }

  /** Every task that the tick wakes and does not kill finds room in the ready queue. */
  ghost predicate EveryPlaced(s: Sys)
  {
    forall id :: id in Risers(s) && !Named(s, id) ==> |s.ready| + |RisersBefore(s, id)| < QUEUE_SIZE
  }

  lemma RiserFacts(s: Sys, id: TaskId)
    requires Inv(s) && id in Risers(s)
    ensures 1 <= id.slot && Live(s.slots, id.slot) && IdAt(s.slots, id.slot) == id
    ensures StateAt(s.slots, id.slot) == Blocked
  {
  }

  lemma RiserIsPlacedIff(s: Sys, id: TaskId)
    requires Inv(s) && RingInv(s) && id in Risers(s)
    ensures id in TickSleepers(s).ready <==> |s.ready| + |RisersBefore(s, id)| < QUEUE_SIZE
  {
    hide DQ.Woken, DQ.Tick, RingInv;
    RiserFacts(s, id);
    BlockedIsNotQueued(s, id.slot);
    TickedIsCore(s);
    var ids, k := DQ.Woken(s.sleep), FirstAt(DQ.Woken(s.sleep), id);
    assert ids == ids[..k] + [id] + ids[k + 1..];
    WakeAllQueuesIff(s.(sleep := DQ.Tick(s.sleep)), ids[..k], ids[k + 1..], id.slot);
  }

  lemma ReadyAfterWaking(s: Sys, id: TaskId)
    requires Inv(s)
    ensures Eligible(TickSleepers(s).slots, id) <==> Eligible(s.slots, id) || id in Risers(s)
  {
    hide DQ.Woken, DQ.Tick;
    TickedIsCore(s);
    WakeAllReadies(s.(sleep := DQ.Tick(s.sleep)), DQ.Woken(s.sleep), id);
  }

  lemma SurvivorIsQueued(s: Sys, id: TaskId)
    requires Inv(s) && RingInv(s) && EveryPlaced(s) && Survives(s, id) && 1 <= id.slot
    ensures id in TickSleepers(s).ready
  {
    hide DQ.Woken, DQ.Tick;
    ReadyAfterWaking(s, id);
    if id in Risers(s) {
      hide RingInv, Inv;
      RiserIsPlacedIff(s, id);
    } else {
      LanesOkIff(s.slots, s.ready);
      assert id == IdAt(s.slots, id.slot);
      WakeAllShifts(s.(sleep := DQ.Tick(s.sleep)), DQ.Woken(s.sleep));
      var k :| 0 <= k < |s.ready| && s.ready[k] == id;
      assert TickSleepers(s).ready[k] == id;
    }
  }

  /** The queue is in order when the tick decides exactly if everybody was placed. */
  lemma BeforeSwitchLanesIff(s: Sys)
    requires Inv(s) && RingInv(s)
    ensures var b := BeforeSwitch(s); LanesOk(b.slots, b.ready) <==> EveryPlaced(s)
  {
    var b := BeforeSwitch(s);
    LanesOkIff(s.slots, s.ready);
    BeforeSwitchKeepsWeak(s);
    LanesOkIff(b.slots, b.ready);
    BeforeSwitchQueue(s);
    hide Inv, RingInv, LanesOk, LanesWeak, BeforeSwitch, TickSleepers, Risers, RisersBefore, Named, Survives;
    if EveryPlaced(s) {
      forall x: nat | 1 <= x && Live(b.slots, x) && StateAt(b.slots, x) == Ready ensures IdAt(b.slots, x) in b.ready {
        SurvivesIff(s, IdAt(b.slots, x));
        SurvivorIsQueued(s, IdAt(b.slots, x));
      }
    }
    if AllQueued(b.slots, b.ready) {
      forall id | id in Risers(s) && !Named(s, id) ensures |s.ready| + |RisersBefore(s, id)| < QUEUE_SIZE {
        RiserSurvives(s, id);
        assert IdAt(b.slots, id.slot) in b.ready;
        RiserIsPlacedIff(s, id);
      }
    }
  }

  lemma RiserSurvives(s: Sys, id: TaskId)
    requires Inv(s) && id in Risers(s) && !Named(s, id)
    ensures 1 <= id.slot && Eligible(BeforeSwitch(s).slots, id) && Survives(s, id)
  {
    hide BeforeSwitch, TickSleepers;
    RiserFacts(s, id);
    ReadyAfterWaking(s, id);
    SurvivesIff(s, id);
  }

  // ----------------------------------------------------- who comes before the current task

  lemma {:induction false} AheadSplits(slots: seq<Slot>, q: seq<TaskId>, id: TaskId, rest: seq<TaskId>)
    requires id !in q
    ensures AheadOf(slots, q + [id] + rest, id) <==> exists e :: e in q && Eligible(slots, e)
    decreases |q|
  {
    if q != [] {
      assert (q + [id] + rest)[1..] == q[1..] + [id] + rest;
      AheadSplits(slots, q[1..], id, rest);
      if e :| e in q && Eligible(slots, e) {
        assert e == q[0] || e in q[1..];
      }
    } else {
      assert ([] + [id] + rest)[0] == id;
    }
  }

  /** A sleeper for which there is room goes right behind those woken before it. */
  lemma WakeAllAround(s: Sys, before: seq<TaskId>, after: seq<TaskId>, x: nat)
    requires Core(s) && Live(s.slots, x) && StateAt(s.slots, x) == Blocked && IdAt(s.slots, x) !in before
    requires |s.ready| + |Sleepers(s.slots, before)| < QUEUE_SIZE
    ensures WakeAll(s, before).ready + [IdAt(s.slots, x)] <= WakeAll(s, before + [IdAt(s.slots, x)] + after).ready
  {
    hide Core, Sleepers;
    var id, a := IdAt(s.slots, x), WakeAll(s, before);
    WakeAllSplits(s, before + [id], after);
    WakeAllSplits(s, before, [id]);
    assert WakeAll(a, [id]) == Wake(a, id) by { assert [id][1..] == []; }
    WakeAllFills(s, before);
    WakeAllForward(s, before, x);
    StaysBlocked(s, before, x);
    assert Wake(a, id).ready == a.ready + [id];
    WakeAllShifts(Wake(a, id), after);
  }

  /** The queue at the end of the wake-ups, cut at the entry for a task they placed. */
  lemma PlaceOfRiser(s: Sys, id: TaskId) returns (q: seq<TaskId>, rest: seq<TaskId>)
    requires Inv(s) && RingInv(s) && id in Risers(s) && |s.ready| + |RisersBefore(s, id)| < QUEUE_SIZE
    ensures TickSleepers(s).ready == q + [id] + rest && id !in q
    ensures forall e :: e in q <==> e in s.ready || e in RisersBefore(s, id)
  {
    hide DQ.Woken, DQ.Tick, RingInv, WakeAll, Sleepers;
    RiserFacts(s, id);
    BlockedIsNotQueued(s, id.slot);
    TickedIsCore(s);
    hide Inv, Core;
    var s0, ids, k := s.(sleep := DQ.Tick(s.sleep)), DQ.Woken(s.sleep), FirstAt(DQ.Woken(s.sleep), id);
    assert ids == ids[..k] + [id] + ids[k + 1..];
    WakeAllAround(s0, ids[..k], ids[k + 1..], id.slot);
    WakeAllDoesNotQueue(s0, ids[..k], id);
    q := WakeAll(s0, ids[..k]).ready;
    rest := TickSleepers(s).ready[|q| + 1..];
    forall e ensures e in q <==> e in s.ready || e in RisersBefore(s, id) { WakeAllContents(s0, ids[..k], e); }
  }

  /** Somebody comes before the current task and survives the tick: a waiting task, or
      one that the tick wakes earlier. */
  ghost predicate AheadSurvives(s: Sys)
  {
    exists e :: !Named(s, e) && ((e in s.ready && Eligible(s.slots, e)) || e in RisersBefore(s, s.current))
  }

  lemma QueuedSurvivesIff(s: Sys, e: TaskId)
    requires Inv(s) && RingInv(s) && e in s.ready
    ensures Survives(s, e) <==> Eligible(s.slots, e) && !Named(s, e)
  {
    hide TickSleepers;
    ReadyAfterWaking(s, e);
    if e in Risers(s) {
      RiserFacts(s, e);
      BlockedIsNotQueued(s, e.slot);
    }
  }

  lemma EarlierIsRiser(s: Sys, id: TaskId, e: TaskId)
    requires e in RisersBefore(s, id)
    ensures e in Risers(s)
  {
  }

  lemma AheadIff(s: Sys)
    requires Inv(s) && RingInv(s) && s.current in Risers(s)
    requires |s.ready| + |RisersBefore(s, s.current)| < QUEUE_SIZE
    ensures AheadOf(BeforeSwitch(s).slots, BeforeSwitch(s).ready, s.current) <==> AheadSurvives(s)
  {
    hide Inv, RingInv, BeforeSwitch, TickSleepers, Risers, RisersBefore, Named, Survives, Eligible, AheadOf;
    var q, rest := PlaceOfRiser(s, s.current);
    BeforeSwitchQueue(s);
    var b := BeforeSwitch(s);
    AheadSplits(b.slots, q, s.current, rest);
    forall e | e in q ensures Eligible(b.slots, e) <==> Survives(s, e) { SurvivesIff(s, e); }
    forall e | e in s.ready ensures Survives(s, e) <==> Eligible(s.slots, e) && !Named(s, e) { QueuedSurvivesIff(s, e); }
    forall e | e in RisersBefore(s, s.current) ensures Survives(s, e) <==> !Named(s, e) {
      EarlierIsRiser(s, s.current, e);
      RiserSurvivesIff(s, e);
    }
  }

  lemma RiserSurvivesIff(s: Sys, id: TaskId)
    requires Inv(s) && id in Risers(s)
    ensures Survives(s, id) <==> !Named(s, id)
  {
    hide BeforeSwitch, TickSleepers;
    ReadyAfterWaking(s, id);
  }

  // ------------------------------------------------------------------- every operation

  /** Exactly when an operation leaves the ready queue in order. A wake-up needs room and a
      task that has left the CPU. A tick needs room for everybody it wakes and does not
      kill; if it wakes the current task, it must also kill it, or switch away from it. */
  ghost predicate Fits(s: Sys, op: Op)
  {
    match op
    case WakeTask(id) =>
      Found(s.slots, id) && StateAt(s.slots, id.slot) == Blocked ==> |s.ready| < QUEUE_SIZE && id != s.current
    case TimerTick =>
      && EveryPlaced(s)
      && (s.current in Risers(s) ==> Named(s, s.current) || (SwitchesOnTick(s) && AheadSurvives(s)))
    case _ => true
  }

  lemma CurrentBeforeSwitch(s: Sys)
    requires Inv(s) && RingInv(s)
    ensures var b, c := BeforeSwitch(s), s.current;
            && Core(b) && b.current == c && Found(b.slots, c)
            && (c != IDLE ==> (StateAt(b.slots, c.slot) == Ready <==> c in Risers(s) && !Named(s, c)))
            && (c == IDLE ==> c !in Risers(s))
            && (!SwitchesOnTick(s) ==> !Doomed(StateAt(b.slots, c.slot)))
  {
    hide BeforeSwitch, TickSleepers;
    BeforeSwitchKeeps(s);
    BeforeSwitchQueue(s);
    WakesKeepCurrent(s);
    SurvivesIff(s, s.current);
    ReadyAfterWaking(s, s.current);
    if s.current in Risers(s) { RiserFacts(s, s.current); }
  }

  lemma WakesKeepCurrent(s: Sys)
    requires Inv(s)
    ensures TickSleepers(s).current == s.current
  {
    hide DQ.Woken, DQ.Tick;
    TickedIsCore(s);
    WakeAllForward(s.(sleep := DQ.Tick(s.sleep)), DQ.Woken(s.sleep), 0);
  }

  /** A queue that is out of order because somebody is missing stays so. */
  lemma SwitchKeepsDisorder(s: Sys)
    requires Core(s) && LanesWeak(s.slots, s.ready) && !LanesOk(s.slots, s.ready)
    ensures !LanesOk(Schedule(s).slots, Schedule(s).ready) && !RingInv(Schedule(s))
    ensures exists x :: Stranded(Schedule(s), x)
  {
    hide Schedule, Core, LanesOk;
    LanesOkIff(s.slots, s.ready);
    var x: nat :| 1 <= x && Live(s.slots, x) && StateAt(s.slots, x) == Ready && IdAt(s.slots, x) !in s.ready;
    ScheduleStrands(s, x);
    StrandedIsDisorder(Schedule(s), x);
  }

  lemma StrandedIsDisorder(s: Sys, x: nat)
    requires Stranded(s, x)
    ensures !LanesOk(s.slots, s.ready) && !RingInv(s)
  {
    LanesOkIff(s.slots, s.ready);
  }

  lemma TickKeepsRingIff(s: Sys)
    requires Inv(s) && RingInv(s)
    ensures RingInv(Tick(s)) <==> Fits(s, TimerTick)
  {
    var b, c := BeforeSwitch(s), s.current;
    CurrentBeforeSwitch(s);
    BeforeSwitchLanesIff(s);
    LanesOkIff(s.slots, s.ready);
    BeforeSwitchKeepsWeak(s);
    SwitchIgnoresForce(b);
    hide Inv, Core, LanesOk, LanesWeak, BeforeSwitch, TickSleepers, SwitchesOnTick, Schedule, EveryPlaced, Risers, Named, RisersBefore;
    hide AheadSurvives, AheadOf;
    if !SwitchesOnTick(s) {
      assert Tick(s) == b.(force := false);
    } else if !LanesOk(b.slots, b.ready) {
      SwitchKeepsDisorder(b);
    } else if c != IDLE && StateAt(b.slots, c.slot) == Ready {
      assert |s.ready| + |RisersBefore(s, c)| < QUEUE_SIZE by { assert EveryPlaced(s); PlaceOfPlaced(s, c); }
      SwitchRingIff(b);
      AheadIff(s);
    } else {
      ScheduleKeepsRing(b);
    }
  }

  lemma PlaceOfPlaced(s: Sys, id: TaskId)
    requires EveryPlaced(s) && id in Risers(s) && !Named(s, id)
    ensures |s.ready| + |RisersBefore(s, id)| < QUEUE_SIZE
  {
  }

  lemma WakeKeepsRingIff(s: Sys, id: TaskId)
    requires Inv(s) && RingInv(s)
    ensures RingInv(Wake(s, id)) <==> Fits(s, WakeTask(id))
  {
    if Found(s.slots, id) && StateAt(s.slots, id.slot) == Blocked {
      var x := id.slot;
      SetStateFacts(s.slots, x, Ready);
      if |s.ready| < QUEUE_SIZE {
        WakeKeepsLanes(s, id);
      } else {
        assert IdAt(s.slots, x) == id;
        WakeStrandsIffFull(s, x);
        if id != s.current { StrandedIsDisorder(Wake(s, id), x); }
      }
    }
  }

  lemma YieldKeepsRing(s: Sys)
    requires Inv(s) && RingInv(s)
    ensures RingInv(Schedule(s))
  {
    ScheduleKeepsRing(s);
  }

  lemma AsleepKeepsRing(s: Sys, n: nat)
    requires Inv(s) && RingInv(s) && s.current != IDLE
    ensures Inv(MarkAsleep(s, n)) && RingInv(MarkAsleep(s, n))
  {
    MarkAsleepKeeps(s, n);
    var t := s.(sleep := DQ.Insert(s.sleep, s.current, SleepTicks(n)));
    assert RingInv(t) && Inv(t);
    MarkBlockedKeepsLanes(t);
  }

  /** The ready queue stays in order exactly if the operation fits. */
  lemma StepKeepsRingIff(s: Sys, op: Op)
    requires Inv(s) && RingInv(s) && Enabled(s, op)
    ensures RingInv(Apply(s, op)) <==> Fits(s, op)
  {
    hide Inv, RingInv, Schedule, Tick, Wake, MarkBlocked, MarkAsleep, MarkDying;
    match op
    case TimerTick => TickKeepsRingIff(s);
    case SpawnTask => if Spawn(s).Started? { SpawnKeepsRing(s); }
    case WakeTask(id) => WakeKeepsRingIff(s, id);
    case BeginBlock => MarkBlockedKeepsLanes(s);
    case BeginSleep(n) => if n != 0 { AsleepKeepsRing(s, n); }
    case Yield => YieldKeepsRing(s);
    case Block => MarkBlockedKeepsLanes(s); YieldKeepsRing(MarkBlocked(s));
    case SleepFor(n) => if n == 0 { YieldKeepsRing(s); } else { AsleepKeepsRing(s, n); YieldKeepsRing(MarkAsleep(s, n)); }
    case Exit => DyingKeepsRing(s);
    case Fault => DyingKeepsRing(s);
    case ExitThread(t) => ExitThreadKeepsRing(s, t);
  }

  lemma ExitThreadKeepsRing(s: Sys, t: nat)
    requires RingInv(s)
    ensures RingInv(RequestExit(s, t))
  {
  }

  // ------------------------------------------------------------------------------ runs

  ghost predicate FittingRun(s: Sys, ops: seq<Op>)
    decreases |ops|
  {
    ops == [] || (Fits(s, ops[0]) && FittingRun(Apply(s, ops[0]), ops[1..]))
  }

  ghost predicate AlwaysInOrder(s: Sys, ops: seq<Op>)
    decreases |ops|
  {
    RingInv(s) && (ops == [] || AlwaysInOrder(Apply(s, ops[0]), ops[1..]))
  }

  /** A run keeps the ready queue in order throughout exactly if each step fits. */
  lemma {:induction false} RunKeepsRingIff(s: Sys, ops: seq<Op>)
    requires Inv(s) && RingInv(s) && EnabledRun(s, ops)
    ensures AlwaysInOrder(s, ops) <==> FittingRun(s, ops)
    ensures FittingRun(s, ops) ==> Inv(Run(s, ops)) && RingInv(Run(s, ops))
    decreases |ops|
  {
    hide Inv, RingInv, Apply, Enabled, Fits;
    if ops != [] {
      StepKeeps(s, ops[0]);
      StepKeepsRingIff(s, ops[0]);
      if Fits(s, ops[0]) {
        RunKeepsRingIff(Apply(s, ops[0]), ops[1..]);
      } else {
        assert !AlwaysInOrder(Apply(s, ops[0]), ops[1..]);
      }
    }
  }

  // ------------------------------------------------------------------ the current task

  /** First halves of blocking operations. */
  predicate Begins(op: Op)
  {
    op.BeginBlock? || (op.BeginSleep? && op.seconds != 0)
  }

  predicate SwitchesIn(s: Sys, op: Op)
  {
    if op.TimerTick? then SwitchesOnTick(s) else Switches(op)
  }

  /** A first half came after the last switch of the run; `half` is the answer for what
      came before the run. */
  predicate Halfway(s: Sys, ops: seq<Op>, half: bool)
    decreases |ops|
  {
    if ops == [] then half
    else Halfway(Apply(s, ops[0]), ops[1..], Begins(ops[0]) || (half && !SwitchesIn(s, ops[0])))
  }

  /** The current task is running, or blocked if it is halfway through blocking. */
  ghost predicate CurrentIs(s: Sys, half: bool)
  {
    && Found(s.slots, s.current)
    && (if s.current == IDLE then !half else StateAt(s.slots, s.current.slot) == if half then Blocked else Running)
  }

  lemma SwitchRuns(s: Sys)
    requires Core(s) && RingInv(Schedule(s))
    ensures CurrentIs(Schedule(s), false)
  {
    PickNextFacts(s.slots, s.ready);
    ScheduleStates(s);
  }

  lemma BlockedIsHalfway(s: Sys)
    requires Inv(s) && s.current != IDLE
    ensures CurrentIs(MarkBlocked(s), true)
  {
    assert SetQuantum(s, s.current) == s;
    SetStateFacts(s.slots, s.current.slot, Blocked);
  }

  lemma TickCurrent(s: Sys, half: bool)
    requires Inv(s) && RingInv(s) && CurrentIs(s, half) && Fits(s, TimerTick)
    ensures CurrentIs(Tick(s), half && !SwitchesOnTick(s))
  {
    var b, c := BeforeSwitch(s), s.current;
    TickKeepsRingIff(s);
    CurrentBeforeSwitch(s);
    if SwitchesOnTick(s) {
      SwitchIgnoresForce(b);
      hide Core;
      SwitchRuns(b);
    } else {
      BeforeSwitchOf(s);
    }
  }

  /** Up to the switch, a tick changes the state of the current task only by waking or
      killing it. */
  lemma BeforeSwitchOf(s: Sys)
    requires Inv(s) && !Doomed(StateAt(s.slots, s.current.slot))
    ensures var b, c := BeforeSwitch(s), s.current;
            && Found(b.slots, c)
            && (StateAt(b.slots, c.slot) == StateAt(s.slots, c.slot)
                || Doomed(StateAt(b.slots, c.slot)) || StateAt(b.slots, c.slot) == Ready)
  {
    hide DQ.Woken, DQ.Tick, BeforeSwitch;
    var x := s.current.slot;
    TickedIsCore(s);
    BeforeSwitchState(s, x);
    WakeLeavesOrReadies(s.(sleep := DQ.Tick(s.sleep)), DQ.Woken(s.sleep), x);
  }

  lemma {:induction false} WakeLeavesOrReadies(s: Sys, ids: seq<TaskId>, x: nat)
    requires Core(s) && Live(s.slots, x)
    ensures Live(WakeAll(s, ids).slots, x)
    ensures StateAt(WakeAll(s, ids).slots, x) == StateAt(s.slots, x) || StateAt(WakeAll(s, ids).slots, x) == Ready
    decreases |ids|
  {
    if ids != [] {
      WakeKeeps(s, ids[0]);
      WakeLeavesOrReadies(Wake(s, ids[0]), ids[1..], x);
    }
  }

  lemma StepCurrent(s: Sys, op: Op, half: bool)
    requires Inv(s) && RingInv(s) && Enabled(s, op) && Fits(s, op) && CurrentIs(s, half)
    ensures CurrentIs(Apply(s, op), Begins(op) || (half && !SwitchesIn(s, op)))
  {
    StepKeepsRingIff(s, op);
    hide RingInv, Schedule, Tick, Spawn, Wake, Core, SwitchesOnTick, MarkBlocked, MarkDying;
    match op
    case TimerTick => TickCurrent(s, half);
    case Yield => SwitchRuns(s);
    case BeginBlock => BlockedIsHalfway(s);
    case BeginSleep(n) =>
      if n != 0 { BlockedIsHalfway(s.(sleep := DQ.Insert(s.sleep, s.current, SleepTicks(n)))); }
    case Block => MarkBlockedKeeps(s); SwitchRuns(MarkBlocked(s));
    case SleepFor(n) =>
      if n == 0 { SwitchRuns(s); } else { MarkAsleepKeeps(s, n); SwitchRuns(MarkAsleep(s, n)); }
    case Exit => DyingRuns(s);
    case Fault => DyingRuns(s);
    case SpawnTask => SpawnCurrent(s, half);
    case WakeTask(id) => WakeCurrent(s, id, half);
    case ExitThread(t) =>
  }

  lemma SpawnCurrent(s: Sys, half: bool)
    requires CurrentIs(s, half)
    ensures Spawn(s).Started? ==> CurrentIs(Spawn(s).sys, half)
  {
  }

  lemma WakeCurrent(s: Sys, id: TaskId, half: bool)
    requires CurrentIs(s, half) && Fits(s, WakeTask(id)) && Inv(s)
    ensures CurrentIs(Wake(s, id), half)
  {
  }

  lemma DyingRuns(s: Sys)
    requires Inv(s) && s.current != IDLE && RingInv(Schedule(MarkDying(s)))
    ensures CurrentIs(Schedule(MarkDying(s)), false)
  {
    MarkDyingKeeps(s);
    var d := MarkDying(s).(force := true);
    assert Schedule(d) == Schedule(MarkDying(s)).(force := true);
    SwitchRuns(d);
  }

  lemma {:induction false} RunCurrent(s: Sys, ops: seq<Op>, half: bool)
    requires Inv(s) && RingInv(s) && EnabledRun(s, ops) && FittingRun(s, ops) && CurrentIs(s, half)
    ensures CurrentIs(Run(s, ops), Halfway(s, ops, half))
    decreases |ops|
  {
    hide Inv, RingInv, Apply, Enabled, Fits, CurrentIs, SwitchesIn, Begins;
    if ops != [] {
      StepKeeps(s, ops[0]);
      StepKeepsRingIff(s, ops[0]);
      StepCurrent(s, ops[0], half);
      RunCurrent(Apply(s, ops[0]), ops[1..], Begins(ops[0]) || (half && !SwitchesIn(s, ops[0])));
    }
  }

  lemma RunFromBoot(ops: seq<Op>)
    requires EnabledRun(Boot(), ops) && FittingRun(Boot(), ops)
    ensures var s := Run(Boot(), ops); Inv(s) && RingInv(s) && CurrentIs(s, Halfway(Boot(), ops, false))
  {
    hide Inv, RingInv, Apply, Enabled, Fits;
    BootInv();
    BootRing();
    RunKeepsRingIff(Boot(), ops);
    RunCurrent(Boot(), ops, false);
  }

  /** In every state reached by fitting steps, a live task other than idle is queued
      exactly once if it is ready, never if it runs or blocks, at most once if it is
      doomed. It runs exactly if it is current and no first half of blocking came after
      the last switch; the current task is blocked exactly if one did. */
  lemma QueuedExactlyWhenReady(ops: seq<Op>, x: nat)
    requires EnabledRun(Boot(), ops) && FittingRun(Boot(), ops)
    requires 1 <= x && Live(Run(Boot(), ops).slots, x)
    ensures var s := Run(Boot(), ops);
            var n := Occurrences(s.ready, IdAt(s.slots, x));
            && n <= 1
            && (StateAt(s.slots, x) == Ready ==> n == 1)
            && (StateAt(s.slots, x) == Running || StateAt(s.slots, x) == Blocked ==> n == 0)
            && (StateAt(s.slots, x) == Running <==> s.current == IdAt(s.slots, x) && !Halfway(Boot(), ops, false))
            && (s.current == IdAt(s.slots, x) ==> (StateAt(s.slots, x) == Blocked <==> Halfway(Boot(), ops, false)))
  {
    hide Boot, Apply, Enabled, FittingRun;
    RunFromBoot(ops);
    var s := Run(Boot(), ops);
    var f := Lane(s.ready, x);
    assert LaneOk(s.slots[x], f);
    OccurrencesInLane(s.ready, IdAt(s.slots, x));
    YoungestCount(f, s.slots[x].gen);
  }

  predicate WholeOps(ops: seq<Op>)
  {
    forall i :: 0 <= i < |ops| ==> !Begins(ops[i])
  }

  lemma {:induction false} WholeIsNotHalfway(s: Sys, ops: seq<Op>)
    requires WholeOps(ops)
    ensures !Halfway(s, ops, false)
    decreases |ops|
  {
    hide Apply, Begins, SwitchesIn;
    if ops != [] {
      assert forall i :: 0 <= i < |ops[1..]| ==> ops[1..][i] == ops[i + 1];
      WholeIsNotHalfway(Apply(s, ops[0]), ops[1..]);
    }
  }

  /** Where no blocking operation is interrupted, the running task is the current one. */
  lemma RunningIsCurrent(ops: seq<Op>, x: nat)
    requires EnabledRun(Boot(), ops) && FittingRun(Boot(), ops) && WholeOps(ops)
    requires 1 <= x && Live(Run(Boot(), ops).slots, x)
    ensures var s := Run(Boot(), ops); StateAt(s.slots, x) == Running <==> s.current == IdAt(s.slots, x)
  {
    hide Boot, Apply, Enabled, FittingRun, WholeOps;
    QueuedExactlyWhenReady(ops, x);
    WholeIsNotHalfway(Boot(), ops);
  }

  // ------------------------------------------------------------------- torn operations

  /** Some entry of the queue can be switched to. */
  ghost predicate SomebodyWaits(s: Sys)
  {
    exists e :: e in s.ready && Eligible(s.slots, e)
  }

  lemma TornHalf(s: Sys, op: Op)
    requires Inv(s) && RingInv(s) && s.current != IDLE && Begins(op)
    ensures var a := Apply(s, op);
            && Inv(a) && RingInv(a) && a.ready == s.ready && a.current == s.current && s.current !in s.ready
            && Found(a.slots, s.current) && StateAt(a.slots, s.current.slot) == Blocked && 1 <= s.current.slot
            && forall e :: e != s.current ==> (Eligible(a.slots, e) <==> Eligible(s.slots, e))
  {
    var t := if op.BeginSleep? then s.(sleep := DQ.Insert(s.sleep, s.current, SleepTicks(op.seconds))) else s;
    if op.BeginSleep? { MarkAsleepKeeps(s, op.seconds); }
    assert Inv(t);
    MarkBlockedKeepsLanes(t);
    assert SetQuantum(t, t.current) == t;
    SetStateFacts(s.slots, s.current.slot, Blocked);
    var a := Apply(s, op);
    assert IdAt(a.slots, s.current.slot) == s.current;
    BlockedIsNotQueued(a, s.current.slot);
  }

  /** `yield_blocked` and `sleep` drop their lock before they switch. If the wake-up of
      the task arrives in between, the ready queue stays in order if and only if it has
      room and somebody else is waiting. */
  lemma TornBlockIsHarmlessIff(s: Sys, op: Op)
    requires Inv(s) && RingInv(s) && s.current != IDLE && Begins(op)
    ensures RingInv(Run(s, [op, WakeTask(s.current), Yield])) <==> |s.ready| < QUEUE_SIZE && SomebodyWaits(s)
  {
    ThreeOps(s, op, WakeTask(s.current), Yield);
    TornHalf(s, op);
    hide Apply, Inv, RingInv, Schedule;
    var a := Apply(s, op);
    AppliedTwice(a, s.current);
    WokenOnCpu(a);
    forall e | e in s.ready ensures Eligible(a.slots, e) <==> Eligible(s.slots, e) {}
  }

  lemma AppliedTwice(a: Sys, id: TaskId)
    ensures Apply(Apply(a, WakeTask(id)), Yield) == Schedule(Wake(a, id))
  {
  }

  /** Waking a blocked task that holds the CPU, then switching. */
  lemma WokenOnCpu(a: Sys)
    requires Inv(a) && RingInv(a) && a.current != IDLE && 1 <= a.current.slot && a.current !in a.ready
    requires Found(a.slots, a.current) && StateAt(a.slots, a.current.slot) == Blocked
    ensures RingInv(Schedule(Wake(a, a.current))) <==> |a.ready| < QUEUE_SIZE && SomebodyWaits(a)
  {
    var c, b := a.current, Wake(a, a.current);
    WakeKeeps(a, c);
    SetStateFacts(a.slots, c.slot, Ready);
    assert IdAt(b.slots, c.slot) == c;
    if |a.ready| < QUEUE_SIZE {
      WakeKeepsLanes(a, c);
      hide Inv, RingInv, LanesOk, Core, Schedule, AheadOf;
      SwitchRingIff(b);
      AheadSplits(b.slots, a.ready, c, []);
      assert b.ready == a.ready + [c] + [];
      forall e | e in a.ready ensures Eligible(b.slots, e) <==> Eligible(a.slots, e) {}
    } else {
      hide Inv, RingInv, LanesOk, Core, Schedule;
      ScheduleStrands(b, c.slot);
      StrandedIsDisorder(Schedule(b), c.slot);
    }
  }

  lemma ThreeOps(s: Sys, a: Op, b: Op, c: Op)
    ensures Run(s, [a, b, c]) == Apply(Apply(Apply(s, a), b), c)
  {
    hide Apply;
    assert [a, b, c][1..] == [b, c] && [b, c][1..] == [c] && [c][1..] == [];
    assert Run(s, [a, b, c]) == Run(Apply(s, a), [b, c]);
    assert Run(Apply(s, a), [b, c]) == Run(Apply(Apply(s, a), b), [c]);
    assert Run(Apply(Apply(s, a), b), [c]) == Run(Apply(Apply(Apply(s, a), b), c), []);
  }

  /** Somebody other than the current task survives the tick and can run. */
  ghost predicate SomebodySurvives(s: Sys)
  {
    exists e :: e != s.current && !Named(s, e) && ((e in s.ready && Eligible(s.slots, e)) || e in Risers(s))
  }

  /** If the wake-up is made by a timer tick instead, through an older sleep entry of the
      task, the ready queue is in order after the second half if and only if the tick has
      room for everybody it wakes and does not kill, and: it kills the task, or it does not
      switch and somebody who survives it stands before the task, or it switches and
      anybody else survives it. */
  lemma TornTickIsHarmlessIff(s: Sys, op: Op)
    requires Inv(s) && RingInv(s) && s.current != IDLE && Begins(op)
    requires s.current in DQ.Woken(Apply(s, op).sleep)
    ensures var a := Apply(s, op);
            RingInv(Run(s, [op, TimerTick, Yield])) <==>
            && EveryPlaced(a)
            && (Named(a, a.current) || if SwitchesOnTick(a) then SomebodySurvives(a) else AheadSurvives(a))
  {
    ThreeOps(s, op, TimerTick, Yield);
    TornHalf(s, op);
    hide Apply, Inv, RingInv, Schedule, Tick, SwitchesOnTick, AheadSurvives, SomebodySurvives, EveryPlaced, Named, DQ.Woken;
    var a := Apply(s, op);
    TickThenYield(a);
    assert a.current in Risers(a);
    TickThenYieldIff(a);
  }

  lemma TickThenYield(a: Sys)
    ensures Apply(Apply(a, TimerTick), Yield) == Schedule(Tick(a))
  {
    hide Schedule, Tick;
  }

  lemma TickThenYieldIff(s: Sys)
    requires Inv(s) && RingInv(s) && s.current in Risers(s)
    ensures RingInv(Schedule(Tick(s))) <==>
            && EveryPlaced(s)
            && (Named(s, s.current) || if SwitchesOnTick(s) then SomebodySurvives(s) else AheadSurvives(s))
  {
    TickKeeps(s);
    TickKeepsRingIff(s);
    hide Inv, RingInv, Schedule, Tick, SwitchesOnTick, AheadSurvives, SomebodySurvives, EveryPlaced, Named;
    if !EveryPlaced(s) {
      MissingStaysMissing(s);
    } else if Fits(s, TimerTick) {
      YieldKeepsRing(Tick(s));
      if !Named(s, s.current) { AheadIsSomebody(s); }
    } else {
      StillOnCpu(s);
    }
  }

  lemma AheadIsSomebody(s: Sys)
    requires Inv(s) && RingInv(s) && s.current in Risers(s) && AheadSurvives(s)
    ensures SomebodySurvives(s)
  {
    hide DQ.Woken;
    RiserFacts(s, s.current);
    BlockedIsNotQueued(s, s.current.slot);
    var e :| !Named(s, e) && ((e in s.ready && Eligible(s.slots, e)) || e in RisersBefore(s, s.current));
    if e in RisersBefore(s, s.current) { EarlierIsRiser(s, s.current, e); }
    assert e != s.current;
  }

  lemma MissingStaysMissing(s: Sys)
    requires Inv(s) && RingInv(s) && !EveryPlaced(s)
    ensures !RingInv(Schedule(Tick(s)))
  {
    var b := BeforeSwitch(s);
    TickKeeps(s);
    BeforeSwitchKeeps(s);
    BeforeSwitchLanesIff(s);
    LanesOkIff(s.slots, s.ready);
    BeforeSwitchKeepsWeak(s);
    SwitchIgnoresForce(b);
    hide RingInv, LanesOk, LanesWeak, BeforeSwitch, TickSleepers, SwitchesOnTick, Schedule, EveryPlaced, Core;
    if SwitchesOnTick(s) {
      SwitchKeepsDisorder(b);
      var x :| Stranded(Schedule(b), x);
      assert Stranded(Tick(s), x);
      ScheduleStrands(Tick(s), x);
      StrandedIsDisorder(Schedule(Tick(s)), x);
    } else {
      SwitchKeepsDisorder(Tick(s));
    }
  }

  /** The tick has woken the current task and left it, or put it back, on the CPU. */
  lemma StillOnCpu(s: Sys)
    requires Inv(s) && RingInv(s) && s.current in Risers(s) && EveryPlaced(s) && !Named(s, s.current)
    requires !(SwitchesOnTick(s) && AheadSurvives(s))
    ensures RingInv(Schedule(Tick(s))) <==> if SwitchesOnTick(s) then SomebodySurvives(s) else AheadSurvives(s)
  {
    var b, c, t := BeforeSwitch(s), s.current, Tick(s);
    TickKeeps(s);
    CurrentBeforeSwitch(s);
    BeforeSwitchLanesIff(s);
    SwitchIgnoresForce(b);
    PlaceOfPlaced(s, c);
    hide RingInv, LanesOk, BeforeSwitch, TickSleepers, SwitchesOnTick, Schedule, EveryPlaced, Core, Risers, RisersBefore, AheadOf, Named;
    hide AheadSurvives, SomebodySurvives;
    AheadIff(s);
    if SwitchesOnTick(s) {
      SwitchRingIff(b);
      assert t.slots == b.slots && t.current == c;
      SwitchRingIff(t);
      BehindIff(s, b);
    } else {
      SwitchRingIff(t);
    }
  }

  /** The current task is the only one with its entry. */
  lemma OneEntry(slots: seq<Slot>, ready: seq<TaskId>, k: nat)
    requires LanesOk(slots, ready) && k < |ready| && Found(slots, ready[k])
    ensures ready[k] !in ready[k + 1..]
  {
    var rest := ready[k + 1..];
    NothingBehind(slots, ready, k);
    hide LanesOk, Lane;
    if ready[k] in rest {
      var j :| 0 <= j < |rest| && rest[j] == ready[k];
      LaneAt(rest, j);
    }
  }

  lemma NothingBehind(slots: seq<Slot>, ready: seq<TaskId>, k: nat)
    requires LanesOk(slots, ready) && k < |ready| && Found(slots, ready[k])
    ensures Lane(ready[k + 1..], ready[k].slot) == []
  {
    var x, rest := ready[k].slot, ready[k + 1..];
    var f := Lane(ready, x);
    assert LaneOk(slots[x], f);
    QueueIsBounded(slots, ready);
    assert ready[k..][1..] == rest;
    assert Lane(ready[k..], x) == [ready[k].gen] + Lane(rest, x);
    hide LanesOk, Lane, Gapless;
    LaneAt(ready, k);
    YoungestIsLast(f, slots[x].gen, |Lane(ready[..k], x)|);
    LaneConcat(ready[..k], ready[k..], x);
    assert ready == ready[..k] + ready[k..];
  }

  /** With nobody before its entry, a task that went to the end has somebody before it
      exactly if there is anybody else. */
  lemma AheadAfterResuming(slots: seq<Slot>, ready: seq<TaskId>, c: TaskId)
    requires SlotsOk(slots) && LanesOk(slots, ready) && c in ready && Found(slots, c) && !AheadOf(slots, ready, c)
    ensures AheadOf(slots, ready[FirstAt(ready, c) + 1..] + [c], c) <==>
            exists e :: e != c && e in ready && Eligible(slots, e)
  {
    hide AheadOf, LanesOk, SlotsOk, Eligible;
    var k := FirstAt(ready, c);
    var q, rest := ready[..k], ready[k + 1..];
    OneEntry(slots, ready, k);
    assert ready == q + [c] + rest;
    AheadSplits(slots, q, c, rest);
    AheadSplits(slots, rest, c, []);
    assert rest + [c] == rest + [c] + [];
    hide FirstAt;
    assert forall e :: e in ready <==> e in q || e == c || e in rest;
  }

  lemma BehindIff(s: Sys, b: Sys)
    requires Inv(s) && RingInv(s) && EveryPlaced(s) && b == BeforeSwitch(s)
    requires Core(b) && LanesOk(b.slots, b.ready) && b.current == s.current
    requires s.current in b.ready && !AheadOf(b.slots, b.ready, s.current)
    ensures AheadOf(b.slots, b.ready[FirstAt(b.ready, s.current) + 1..] + [s.current], s.current) <==> SomebodySurvives(s)
  {
    hide Inv, RingInv, Core, BeforeSwitch, AheadOf, LanesOk, Risers, Named, Eligible, EveryPlaced, FirstAt;
    IdleIsAlone(b);
    AheadAfterResuming(b.slots, b.ready, s.current);
    forall e ensures e in b.ready && Eligible(b.slots, e) <==>
        !Named(s, e) && ((e in s.ready && Eligible(s.slots, e)) || e in Risers(s)) {
      QueuedSurvivor(s, e);
    }
  }

  /** The survivors in the queue when the tick decides. */
  lemma QueuedSurvivor(s: Sys, e: TaskId)
    requires Inv(s) && RingInv(s) && EveryPlaced(s)
    ensures var b := BeforeSwitch(s);
            e in b.ready && Eligible(b.slots, e) <==>
            !Named(s, e) && ((e in s.ready && Eligible(s.slots, e)) || e in Risers(s))
  {
    SurvivesIff(s, e);
    ReadyAfterWaking(s, e);
    BeforeSwitchQueue(s);
    BeforeSwitchLanesIff(s);
    LanesOkIff(s.slots, s.ready);
    if e in Risers(s) { RiserFacts(s, e); }
    hide Inv, BeforeSwitch, TickSleepers, Risers, Named, Eligible, EveryPlaced, Lane, LanesWeak;
    if Survives(s, e) && 1 <= e.slot { SurvivorIsQueued(s, e); }
    assert Eligible(s.slots, e) && 1 <= e.slot ==> e in s.ready by {
      if Eligible(s.slots, e) && 1 <= e.slot { ReadyIsQueued(s, e); }
    }
  }

  lemma ReadyIsQueued(s: Sys, e: TaskId)
    requires AllQueued(s.slots, s.ready) && Eligible(s.slots, e) && 1 <= e.slot
    ensures e in s.ready
  {
    assert IdAt(s.slots, e.slot) == e;
  }
}
