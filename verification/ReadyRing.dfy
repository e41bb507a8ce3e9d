/** The ready queue. Between operations a task is queued exactly once if it is
    ready and not at all if it runs or blocks. Ids of dead tasks may linger in the
    queue and generations are one byte, yet no lingering id can ever be taken for a
    later occupant of its slot: the queue is exactly as short as a byte is small. */
module ReadyRing {
  import opened TaskIds
  import opened TaskModel
  import opened TaskSafety
  import opened TaskLifecycle
  import opened TaskDeadline
  import DQ = DeltaQueue

  function Cell(id: TaskId, x: nat): (f: seq<nat>)
    ensures |f| <= 1
  {
    if id.slot == x then [id.gen] else []
  }

  /** The generations queued for slot `x`, oldest first. */
  function Lane(ready: seq<TaskId>, x: nat): (f: seq<nat>)
    ensures |f| <= |ready|
  {
    if ready == [] then [] else Cell(ready[0], x) + Lane(ready[1..], x)
  }

  lemma {:induction false} LaneConcat(a: seq<TaskId>, b: seq<TaskId>, x: nat)
    ensures Lane(a + b, x) == Lane(a, x) + Lane(b, x)
  {
    if a == [] {
      assert a + b == b;
    } else {
      LaneConcat(a[1..], b, x);
      assert (a + b)[1..] == a[1..] + b;
      Assoc(Cell(a[0], x), Lane(a[1..], x), Lane(b, x));
    }
  }

  lemma Assoc(a: seq<nat>, b: seq<nat>, c: seq<nat>)
    ensures (a + b) + c == a + (b + c)
  {
  }

  lemma {:induction false} LanePush(ready: seq<TaskId>, id: TaskId, x: nat)
    ensures Lane(ready + [id], x) == Lane(ready, x) + Cell(id, x)
  {
    LaneConcat(ready, [id], x);
    assert [id][1..] == [];
    assert Lane([id], x) == Cell(id, x);
  }

  /** Where a queue entry stands in its lane. */
  lemma {:induction false} LaneAt(ready: seq<TaskId>, i: nat)
    requires i < |ready|
    ensures var f, j := Lane(ready, ready[i].slot), |Lane(ready[..i], ready[i].slot)|;
            j < |f| && f[j] == ready[i].gen
  {
    var x := ready[i].slot;
    LaneConcat(ready[..i], ready[i..], x);
    assert ready == ready[..i] + ready[i..];
  }

  /** The youngest generation of the slot that has been handed out. */
  function Youngest(sl: Slot): (g: nat)
  {
    if sl.task.Some? then sl.gen else (sl.gen + GENERATIONS - 1) % GENERATIONS
  }

  /** A lane is a gapless run of generations that ends with the youngest one. */
  ghost predicate Gapless(f: seq<nat>, youngest: nat)
  {
    forall i :: 0 <= i < |f| ==> f[i] < GENERATIONS && (f[i] + (|f| - 1 - i)) % GENERATIONS == youngest
  }

  ghost predicate Queueing(st: TaskState, f: seq<nat>)
  {
    match st
    case Ready => f != []
    case Running => f == []
    case Blocked => f == []
    case Dying => true
    case Dead => true
  }

  ghost predicate LaneOk(sl: Slot, f: seq<nat>)
  {
    && Gapless(f, Youngest(sl))
    && (sl.task.Some? ==> Queueing(sl.task.value.state, f))
  }

  ghost predicate LanesOk(slots: seq<Slot>, ready: seq<TaskId>)
  {
    && |ready| <= QUEUE_SIZE
    && (forall i :: 0 <= i < |ready| ==> 0 < ready[i].slot < |slots|)
    && (forall x :: 1 <= x < |slots| ==> LaneOk(slots[x], Lane(ready, x)))
  }

  /** The current task is running, or blocked between the two halves of an operation. */
  ghost predicate RingInv(s: Sys)
  {
    && LanesOk(s.slots, s.ready)
    && (s.current != IDLE && Found(s.slots, s.current) ==>
          StateAt(s.slots, s.current.slot) == Running || StateAt(s.slots, s.current.slot) == Blocked)
  }

  /** A lane of at most 256 entries holds the youngest generation once, at its end. */
  lemma YoungestIsLast(f: seq<nat>, youngest: nat, j: nat)
    requires Gapless(f, youngest) && |f| <= GENERATIONS && j < |f|
    ensures f[j] == youngest <==> j == |f| - 1
  {
    var d := |f| - 1 - j;
    assert (f[j] + d) % GENERATIONS == youngest;
  }

  lemma GaplessTail(f: seq<nat>, youngest: nat)
    requires Gapless(f, youngest) && f != []
    ensures Gapless(f[1..], youngest)
  {
    forall i | 0 <= i < |f[1..]| ensures (f[1..][i] + (|f[1..]| - 1 - i)) % GENERATIONS == youngest {
      assert f[1..][i] == f[i + 1];
    }
  }

  /** Handing out the next generation at the tail of the lane. */
  lemma {:induction false} GaplessSnoc(f: seq<nat>, gen: nat)
    requires gen < GENERATIONS && Gapless(f, (gen + GENERATIONS - 1) % GENERATIONS)
    ensures Gapless(f + [gen], gen)
  {
    var r := f + [gen];
    forall i | 0 <= i < |r| ensures r[i] < GENERATIONS && (r[i] + (|r| - 1 - i)) % GENERATIONS == gen {
      if i < |f| {
        assert r[i] == f[i];
        NextModular(f[i] + (|f| - 1 - i), gen);
      }
    }
  }

  lemma NextModular(a: nat, gen: nat)
    requires gen < GENERATIONS && a % GENERATIONS == (gen + GENERATIONS - 1) % GENERATIONS
    ensures (a + 1) % GENERATIONS == gen
  {
    var q := a / GENERATIONS;
    if gen == 0 {
      assert a == GENERATIONS * q + 255 && a + 1 == GENERATIONS * (q + 1);
    } else {
      assert a == GENERATIONS * q + (gen - 1) && a + 1 == GENERATIONS * q + gen;
    }
  }

  /** Dropping the head of the queue. */
  lemma {:induction false} PopKeepsLanes(slots: seq<Slot>, ready: seq<TaskId>)
    requires SlotsOk(slots) && LanesOk(slots, ready) && ready != []
    ensures !(Found(slots, ready[0]) && StateAt(slots, ready[0].slot) == Ready) ==> LanesOk(slots, ready[1..])
    ensures Found(slots, ready[0]) ==> Lane(ready[1..], ready[0].slot) == []
    ensures forall x :: 1 <= x < |slots| && x != ready[0].slot ==> Lane(ready[1..], x) == Lane(ready, x)
  {
    var y := ready[0].slot;
    var f := Lane(ready, y);
    assert f[0] == ready[0].gen && f[1..] == Lane(ready[1..], y);
    assert LaneOk(slots[y], f);
    YoungestIsLast(f, Youngest(slots[y]), 0);
    GaplessTail(f, Youngest(slots[y]));
    forall x | 1 <= x < |slots| && x != y ensures Lane(ready[1..], x) == Lane(ready, x) {
      assert Cell(ready[0], x) == [];
    }
    if !(Found(slots, ready[0]) && StateAt(slots, y) == Ready) {
      assert LaneOk(slots[y], f[1..]);
      assert forall i :: 0 <= i < |ready[1..]| ==> ready[1..][i] == ready[i + 1];
    }
  }

  lemma {:induction false} PickKeepsLanes(slots: seq<Slot>, ready: seq<TaskId>)
    requires SlotsOk(slots) && LanesOk(slots, ready)
    ensures LanesOk(PickNext(slots, ready).slots, PickNext(slots, ready).ready)
    decreases |ready|
  {
    if ready != [] {
      PopKeepsLanes(slots, ready);
      if Found(slots, ready[0]) && StateAt(slots, ready[0].slot) == Ready {
        var r := SetState(slots, ready[0].slot, Running);
        forall x | 1 <= x < |r| ensures LaneOk(r[x], Lane(ready[1..], x)) {
          assert LaneOk(slots[x], Lane(ready, x));
        }
      } else {
        PickKeepsLanes(slots, ready[1..]);
      }
    }
  }

  /** Queueing a task that becomes ready and was not queued. */
  lemma {:induction false} PushKeepsLanes(slots: seq<Slot>, ready: seq<TaskId>, x: nat)
    requires SlotsOk(slots) && LanesOk(slots, ready) && |ready| < QUEUE_SIZE
    requires 1 <= x && Live(slots, x) && (StateAt(slots, x) == Running || StateAt(slots, x) == Blocked)
    ensures LanesOk(SetState(slots, x, Ready), ready + [IdAt(slots, x)])
  {
    var r := SetState(slots, x, Ready);
    forall y | 1 <= y < |r| ensures LaneOk(r[y], Lane(ready + [IdAt(slots, x)], y)) {
      assert LaneOk(slots[y], Lane(ready, y));
      LanePush(ready, IdAt(slots, x), y);
      if y != x {
        assert Lane(ready + [IdAt(slots, x)], y) == Lane(ready, y);
      } else {
        assert Lane(ready + [IdAt(slots, x)], y) == [slots[x].gen];
      }
    }
    var q := ready + [IdAt(slots, x)];
    assert forall i :: 0 <= i < |q| ==> q[i] == if i < |ready| then ready[i] else IdAt(slots, x);
  }

  /** The outgoing task always finds room: at least one entry was popped before it is
      pushed, so the source's "failed to re-enqueue" branch is dead. */
  lemma RequeueAlwaysFits(s: Sys)
    requires Core(s)
    ensures |PickNext(s.slots, s.ready).ready| < QUEUE_SIZE
  {
    PickNextFacts(s.slots, s.ready);
  }

  lemma {:induction false} ScheduleKeepsRing(s: Sys)
    requires Core(s) && LanesOk(s.slots, s.ready)
    requires s.current != IDLE ==> StateAt(s.slots, s.current.slot) != Ready
    ensures RingInv(Schedule(s))
  {
    var p := PickNext(s.slots, s.ready);
    PickNextFacts(s.slots, s.ready);
    PickKeepsLanes(s.slots, s.ready);
    ScheduleStates(s);
    if p.slots != s.slots {
      SetStateFacts(s.slots, p.next.slot, Running);
      SetStateKeepsTables(s.slots, s.threads, p.next.slot, Running);
    }
    RequeueKeepsLanes(p.slots, p.ready, s.current);
  }

  lemma {:induction false} RequeueKeepsLanes(slots: seq<Slot>, ready: seq<TaskId>, outgoing: TaskId)
    requires SlotsOk(slots) && LanesOk(slots, ready) && |ready| < QUEUE_SIZE
    ensures var again := Requeues(slots, outgoing);
            LanesOk(if again then SetState(slots, outgoing.slot, Ready) else slots,
                    if again && outgoing != IDLE then Push(ready, outgoing, QUEUE_SIZE) else ready)
  {
    if Requeues(slots, outgoing) {
      if outgoing == IDLE {
        var r := SetState(slots, 0, Ready);
        forall y | 1 <= y < |r| ensures LaneOk(r[y], Lane(ready, y)) {
          assert r[y] == slots[y];
        }
      } else {
        PushKeepsLanes(slots, ready, outgoing.slot);
      }
    }
  }

  // ---------------------------------------------------------------- the other parts

  /** States may change freely as long as each lane still suits its state. */
  lemma {:induction false} MarkKeepsLanes(slots: seq<Slot>, ready: seq<TaskId>, x: nat, st: TaskState)
    requires SlotsOk(slots) && LanesOk(slots, ready) && 1 <= x && Live(slots, x)
    requires Queueing(st, Lane(ready, x))
    ensures LanesOk(SetState(slots, x, st), ready)
  {
    var r := SetState(slots, x, st);
    forall y | 1 <= y < |r| ensures LaneOk(r[y], Lane(ready, y)) {
      assert LaneOk(slots[y], Lane(ready, y));
    }
  }

  lemma {:induction false} WakeKeepsLanes(s: Sys, id: TaskId)
    requires Core(s) && LanesOk(s.slots, s.ready) && |s.ready| < QUEUE_SIZE
    ensures LanesOk(Wake(s, id).slots, Wake(s, id).ready)
    ensures |Wake(s, id).ready| <= |s.ready| + 1
  {
    if Found(s.slots, id) && StateAt(s.slots, id.slot) == Blocked {
      PushKeepsLanes(s.slots, s.ready, id.slot);
    }
  }

  /** The tasks that a row of wake-ups makes ready. */
  ghost function Sleepers(slots: seq<Slot>, ids: seq<TaskId>): (r: set<TaskId>)
  {
    set id | id in ids && Found(slots, id) && StateAt(slots, id.slot) == Blocked
  }

  lemma SleepersStep(s: Sys, ids: seq<TaskId>)
    requires ids != []
    ensures var n := Wake(s, ids[0]);
            Sleepers(s.slots, ids) ==
            Sleepers(n.slots, ids[1..]) + (if Found(s.slots, ids[0]) && StateAt(s.slots, ids[0].slot) == Blocked
                                           then {ids[0]} else {})
            && ids[0] !in Sleepers(n.slots, ids[1..])
  {
    var n := Wake(s, ids[0]);
    if Found(s.slots, ids[0]) && StateAt(s.slots, ids[0].slot) == Blocked {
      SetStateFacts(s.slots, ids[0].slot, Ready);
    }
    assert forall id :: id in ids <==> id == ids[0] || id in ids[1..];
  }

  lemma {:induction false} StaysBlocked(s: Sys, ids: seq<TaskId>, x: nat)
    requires Core(s) && Live(s.slots, x) && StateAt(s.slots, x) == Blocked && IdAt(s.slots, x) !in ids
    ensures Live(WakeAll(s, ids).slots, x) && StateAt(WakeAll(s, ids).slots, x) == Blocked
    decreases |ids|
  {
    if ids != [] {
      WakeKeeps(s, ids[0]);
      StaysBlocked(Wake(s, ids[0]), ids[1..], x);
    }
  }

  // ------------------------------------------------------------- ready but not queued

  /** The lanes without the demand that a ready task is queued. */
  ghost predicate LaneWeak(sl: Slot, f: seq<nat>)
  {
    && Gapless(f, Youngest(sl))
    && (sl.task.Some? && (sl.task.value.state == Running || sl.task.value.state == Blocked) ==> f == [])
  }

  ghost predicate LanesWeak(slots: seq<Slot>, ready: seq<TaskId>)
  {
    && |ready| <= QUEUE_SIZE
    && (forall i :: 0 <= i < |ready| ==> 0 < ready[i].slot < |slots|)
    && (forall x :: 1 <= x < |slots| ==> LaneWeak(slots[x], Lane(ready, x)))
  }

  /** And that demand on its own. */
  ghost predicate AllQueued(slots: seq<Slot>, ready: seq<TaskId>)
  {
    forall x: nat :: 1 <= x && Live(slots, x) && StateAt(slots, x) == Ready ==> IdAt(slots, x) in ready
  }

  lemma {:induction false} InLane(ready: seq<TaskId>, x: nat, j: nat)
    requires j < |Lane(ready, x)|
    ensures TaskId(x, Lane(ready, x)[j]) in ready
  {
    var c := Cell(ready[0], x);
    if j >= |c| {
      InLane(ready[1..], x, j - |c|);
    }
  }

  lemma LanesOkIff(slots: seq<Slot>, ready: seq<TaskId>)
    ensures LanesOk(slots, ready) <==> LanesWeak(slots, ready) && AllQueued(slots, ready)
  {
    if LanesOk(slots, ready) {
      forall x | 1 <= x < |slots| ensures LaneWeak(slots[x], Lane(ready, x)) {
        assert LaneOk(slots[x], Lane(ready, x));
      }
      forall x: nat | 1 <= x && Live(slots, x) && StateAt(slots, x) == Ready ensures IdAt(slots, x) in ready {
        var f := Lane(ready, x);
        assert LaneOk(slots[x], f);
        InLane(ready, x, |f| - 1);
        assert f[|f| - 1] % GENERATIONS == f[|f| - 1] == slots[x].gen;
      }
    }
    if LanesWeak(slots, ready) && AllQueued(slots, ready) {
      forall x | 1 <= x < |slots| ensures LaneOk(slots[x], Lane(ready, x)) {
        assert LaneWeak(slots[x], Lane(ready, x));
        if slots[x].task.Some? && slots[x].task.value.state == Ready {
          var i :| 0 <= i < |ready| && ready[i] == IdAt(slots, x);
          LaneAt(ready, i);
        }
      }
    }
  }

  /** A state that may stand in any lane. */
  lemma {:induction false} MarkKeepsWeak(slots: seq<Slot>, ready: seq<TaskId>, x: nat, st: TaskState)
    requires LanesWeak(slots, ready) && Live(slots, x) && st != Running && st != Blocked
    ensures LanesWeak(SetState(slots, x, st), ready)
  {
    var r := SetState(slots, x, st);
    forall y | 1 <= y < |r| ensures LaneWeak(r[y], Lane(ready, y)) {
      assert LaneWeak(slots[y], Lane(ready, y));
    }
  }

  lemma {:induction false} WakeKeepsWeak(s: Sys, id: TaskId)
    requires Core(s) && LanesWeak(s.slots, s.ready)
    ensures LanesWeak(Wake(s, id).slots, Wake(s, id).ready)
  {
    if Found(s.slots, id) && StateAt(s.slots, id.slot) == Blocked {
      MarkKeepsWeak(s.slots, s.ready, id.slot, Ready);
      if |s.ready| < QUEUE_SIZE {
        var r, q := SetState(s.slots, id.slot, Ready), s.ready + [id];
        forall y | 1 <= y < |r| ensures LaneWeak(r[y], Lane(q, y)) {
          assert LaneWeak(s.slots[y], Lane(s.ready, y));
          LanePush(s.ready, id, y);
          if y != id.slot { assert Lane(q, y) == Lane(s.ready, y); } else { assert Lane(q, y) == [id.gen]; }
        }
        assert forall i :: 0 <= i < |q| ==> q[i] == if i < |s.ready| then s.ready[i] else id;
      }
    }
  }

  lemma {:induction false} WakeAllKeepsWeak(s: Sys, ids: seq<TaskId>)
    requires Core(s) && LanesWeak(s.slots, s.ready)
    ensures LanesWeak(WakeAll(s, ids).slots, WakeAll(s, ids).ready)
    decreases |ids|
  {
    hide LanesWeak, Core;
    if ids != [] {
      WakeKeeps(s, ids[0]);
      WakeKeepsWeak(s, ids[0]);
      WakeAllKeepsWeak(Wake(s, ids[0]), ids[1..]);
    }
  }

  lemma {:induction false} DrainKeepsWeak(s: Sys)
    requires Core(s) && LanesWeak(s.slots, s.ready)
    ensures LanesWeak(DrainSystemTasks(s).slots, DrainSystemTasks(s).ready)
    decreases |s.sysq|
  {
    hide LanesWeak, Core;
    if s.sysq != [] {
      DrainStep(s);
      MarkKeepsWeak(s.slots, s.ready, Expand(s.sysq[0]).slot, Dying);
      DrainKeepsWeak(KillTask(s.(sysq := s.sysq[1..]), s.sysq[0]));
    }
  }

  /** Freeing a slot starts a new generation, and the old one becomes the youngest
      that was handed out: the lane does not change. */
  lemma {:induction false} RemoveKeepsWeak(s: Sys, id: TaskId)
    requires Core(s) && LanesWeak(s.slots, s.ready) && Found(s.slots, id)
    ensures LanesWeak(RemoveTask(s, id).slots, s.ready)
  {
    var r := RemoveTask(s, id).slots;
    forall y | 1 <= y < |r| ensures LaneWeak(r[y], Lane(s.ready, y)) {
      assert LaneWeak(s.slots[y], Lane(s.ready, y));
      assert y == id.slot ==> Youngest(r[y]) == Youngest(s.slots[y]);
    }
  }

  lemma {:induction false} CleanupKeepsWeak(s: Sys)
    requires Core(s) && StateAt(s.slots, s.current.slot) != Dead && LanesWeak(s.slots, s.ready)
    ensures LanesWeak(TombstoneCleanup(s).slots, TombstoneCleanup(s).ready)
    decreases |s.tomb|
  {
    if s.tomb != [] {
      CleanupStep(s);
      var rest := s.(tomb := s.tomb[1..]);
      assert forall i :: 0 <= i < |rest.tomb| ==> rest.tomb[i] == s.tomb[i + 1];
      RemoveKeepsWeak(rest, s.tomb[0]);
      CleanupKeepsWeak(RemoveTask(rest, s.tomb[0]));
    }
  }

  lemma {:induction false} ReapKeepsWeak(s: Sys)
    requires ReapingOk(s) && LanesWeak(s.slots, s.ready)
    ensures LanesWeak(ReapDyingTasks(s).slots, ReapDyingTasks(s).ready)
    decreases |s.reaper|
  {
    if s.reaper != [] {
      ReapStep(s);
      MarkKeepsWeak(s.slots, s.ready, s.reaper[0].slot, Dead);
      ReapKeepsWeak(ReapOne(s.(reaper := s.reaper[1..]), s.reaper[0]));
    }
  }

  /** Up to the switch a tick may leave tasks ready but unqueued; everything else about
      the lanes it keeps. */
  lemma BeforeSwitchKeepsWeak(s: Sys)
    requires Inv(s) && LanesWeak(s.slots, s.ready)
    ensures LanesWeak(BeforeSwitch(s).slots, BeforeSwitch(s).ready)
  {
    var s0 := s.(sleep := DQ.Tick(s.sleep));
    WakeAllKeeps(s0, DQ.Woken(s.sleep));
    WakeAllKeepsWeak(s0, DQ.Woken(s.sleep));
    DrainKeepsWeak(CountTick(TickSleepers(s)));
    BeforeCleanupFacts(s);
    CleanupKeepsWeak(BeforeCleanup(s));
    AfterCleanupFacts(s);
    ReapKeepsWeak(AfterCleanup(s));
  }

  // ------------------------------------------------------------ the other operations

  lemma {:induction false} SpawnKeepsRing(s: Sys)
    requires Inv(s) && RingInv(s) && Spawn(s).Started?
    ensures RingInv(Spawn(s).sys)
  {
    var r, x := Spawn(s).sys, FirstFree(s.slots, 0);
    var id := IdAt(s.slots, x);
    forall y | 1 <= y < |r.slots| ensures LaneOk(r.slots[y], Lane(r.ready, y)) {
      assert LaneOk(s.slots[y], Lane(s.ready, y));
      LanePush(s.ready, id, y);
      if y == x {
        GaplessSnoc(Lane(s.ready, x), s.slots[x].gen);
      } else {
        assert Lane(r.ready, y) == Lane(s.ready, y);
      }
    }
    assert forall i :: 0 <= i < |r.ready| ==> r.ready[i] == if i < |s.ready| then s.ready[i] else id;
  }

  lemma {:induction false} MarkBlockedKeepsLanes(s: Sys)
    requires Inv(s) && RingInv(s) && s.current != IDLE
    ensures Inv(MarkBlocked(s)) && RingInv(MarkBlocked(s)) && LanesOk(MarkBlocked(s).slots, MarkBlocked(s).ready)
    ensures StateAt(MarkBlocked(s).slots, s.current.slot) == Blocked
  {
    MarkBlockedKeeps(s);
    assert SetQuantum(s, s.current) == s;
    assert LaneOk(s.slots[s.current.slot], Lane(s.ready, s.current.slot));
    MarkKeepsLanes(s.slots, s.ready, s.current.slot, Blocked);
  }

  lemma {:induction false} DyingKeepsRing(s: Sys)
    requires Inv(s) && RingInv(s) && s.current != IDLE
    ensures RingInv(Schedule(MarkDying(s)))
  {
    MarkDyingKeeps(s);
    var d := MarkDying(s).(force := true);
    MarkKeepsLanes(s.slots, s.ready, s.current.slot, Dying);
    ScheduleKeepsRing(d);
    assert Schedule(d) == Schedule(MarkDying(s)).(force := true);
  }

  lemma {:induction false} EmptyLane(x: nat)
    ensures Lane([], x) == []
  {
  }

  lemma {:induction false} BootRing()
    ensures RingInv(Boot())
  {
    forall x | 1 <= x < |Boot().slots| ensures LaneOk(Boot().slots[x], Lane(Boot().ready, x)) {
      EmptyLane(x);
    }
  }

  // ------------------------------------------------------------------ counting entries

  function Occurrences(ready: seq<TaskId>, id: TaskId): (n: nat)
  {
    if ready == [] then 0 else (if ready[0] == id then 1 else 0) + Occurrences(ready[1..], id)
  }

  function Count(f: seq<nat>, g: nat): (n: nat)
  {
    if f == [] then 0 else (if f[0] == g then 1 else 0) + Count(f[1..], g)
  }

  lemma {:induction false} OccurrencesInLane(ready: seq<TaskId>, id: TaskId)
    ensures Occurrences(ready, id) == Count(Lane(ready, id.slot), id.gen)
  {
    if ready != [] {
      OccurrencesInLane(ready[1..], id);
      assert Lane(ready, id.slot) == Cell(ready[0], id.slot) + Lane(ready[1..], id.slot);
      if ready[0].slot == id.slot {
        assert Lane(ready, id.slot)[1..] == Lane(ready[1..], id.slot);
      } else {
        assert Lane(ready, id.slot) == Lane(ready[1..], id.slot);
      }
    }
  }

  lemma {:induction false} YoungestCount(f: seq<nat>, youngest: nat)
    requires Gapless(f, youngest) && |f| <= GENERATIONS
    ensures Count(f, youngest) == if f == [] then 0 else 1
  {
    if f != [] {
      YoungestIsLast(f, youngest, 0);
      GaplessTail(f, youngest);
      YoungestCount(f[1..], youngest);
    }
  }
}
