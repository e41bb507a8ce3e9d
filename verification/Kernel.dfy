/** The scheduler as the kernel runs it: one object whose fields are updated in
    place, with loops over fixed-size rings and the task table. Every method is
    tied to the function of the same name on the value that the fields represent. */
module Kernel {
  import opened Basics
  import opened TaskIds
  import opened RingBuffer
  import M = TaskModel
  import DQ = DeltaQueue

  class Scheduler {
    const slots: array<M.Slot>
    const ready: Ring<TaskId>
    const reaper: Ring<TaskId>
    const tomb: Ring<TaskId>
    const sysq: Ring<nat>
    const sleep: DQ.SleepQueue<TaskId>
    var threads: seq<M.Thread>
    var current: TaskId
    var ticks: nat
    var force: bool

    ghost predicate Valid()
      reads this, slots, ready, reaper, tomb, sysq, sleep, sleep.entries
    {
      && slots.Length == M.MAX_TASKS
      && ready.Valid() && ready.cells.Length == M.QUEUE_SIZE
      && reaper.Valid() && reaper.cells.Length == M.REAPER_QUEUE_SIZE
      && tomb.Valid() && tomb.cells.Length == M.TOMBSTONE_QUEUE_SIZE
      && sysq.Valid() && sysq.cells.Length == M.MAX_SYSTEM_TASKS
      && sleep.Valid()
      && ready != reaper && ready != tomb && reaper != tomb
      && ready.cells != reaper.cells && ready.cells != tomb.cells && reaper.cells != tomb.cells
    }

    /** The value that the fields stand for. */
    ghost function View(): (s: M.Sys)
      requires Valid()
      reads this, slots, ready, ready.cells, reaper, reaper.cells, tomb, tomb.cells, sysq, sysq.cells,
            sleep, sleep.entries
    {
      M.Sys(slots[..], threads, ready.Contents(), current, ticks, force,
            sleep.Queue(), reaper.Contents(), tomb.Contents(), sysq.Contents())
    }

    /** The machine at the start of scheduling: only the idle task, on the CPU. */
    constructor ()
      ensures Valid() && View() == M.Boot()
      ensures fresh(slots) && fresh(ready) && fresh(ready.cells) && fresh(reaper) && fresh(reaper.cells)
      ensures fresh(tomb) && fresh(tomb.cells) && fresh(sysq) && fresh(sysq.cells)
      ensures fresh(sleep) && fresh(sleep.entries)
    {
      hide M.Boot;
      var table := new M.Slot[M.MAX_TASKS](i =>
        if i == 0 then M.Slot(Some(M.Task(M.Running, 0, M.TASK_QUANTUM_TICKS)), 0) else M.Slot(None, 0));
      BootTable(table[..]);
      slots := table;
      var a, b, c := TaskRings();
      ready, reaper, tomb := a, b, c;
      sysq := new Ring(M.MAX_SYSTEM_TASKS, 0);
      sleep := new DQ.SleepQueue();
      threads := [M.Thread(M.Active, Some(IDLE))];
      current, ticks, force := IDLE, M.TASK_QUANTUM_TICKS, false;
    }

    static method TaskRings() returns (ready: Ring<TaskId>, reaper: Ring<TaskId>, tomb: Ring<TaskId>)
      ensures fresh(ready) && fresh(ready.cells) && fresh(reaper) && fresh(reaper.cells) && fresh(tomb) && fresh(tomb.cells)
      ensures ready.Valid() && ready.cells.Length == M.QUEUE_SIZE && ready.Contents() == []
      ensures reaper.Valid() && reaper.cells.Length == M.REAPER_QUEUE_SIZE && reaper.Contents() == []
      ensures tomb.Valid() && tomb.cells.Length == M.TOMBSTONE_QUEUE_SIZE && tomb.Contents() == []
      ensures ready != reaper && ready != tomb && reaper != tomb
      ensures ready.cells != reaper.cells && ready.cells != tomb.cells && reaper.cells != tomb.cells
    {
      ready := new Ring(M.QUEUE_SIZE, IDLE);
      reaper := new Ring(M.REAPER_QUEUE_SIZE, IDLE);
      tomb := new Ring(M.TOMBSTONE_QUEUE_SIZE, IDLE);
    }

    static lemma BootTable(t: seq<M.Slot>)
      requires |t| == M.MAX_TASKS && t[0] == M.Slot(Some(M.Task(M.Running, 0, M.TASK_QUANTUM_TICKS)), 0)
      requires forall i :: 1 <= i < |t| ==> t[i] == M.Slot(None, 0)
      ensures M.Boot() == M.Sys(t, [M.Thread(M.Active, Some(IDLE))], [], IDLE, M.TASK_QUANTUM_TICKS, false, [], [], [], [])
    {
      assert t == M.Boot().slots;
    }

    // ----------------------------------------------------------- the task table

    function Lookup(id: TaskId): (found: bool)
      reads slots
      ensures found <==> M.Found(slots[..], id)
    {
      id.slot < slots.Length && slots[id.slot].task.Some? && slots[id.slot].gen == id.gen
    }

    method SetState(x: nat, st: M.TaskState)
      requires M.Live(slots[..], x)
      modifies slots
      ensures slots[..] == M.SetState(old(slots[..]), x, st)
    {
      slots[x] := slots[x].(task := Some(slots[x].task.value.(state := st)));
    }

    /** Writes a transition to the task and to its thread. */
    method Mark(x: nat, st: M.TaskState)
      requires Valid() && M.Live(slots[..], x)
      modifies this`threads, slots
      ensures Valid() && View() == M.Mark(old(View()), x, st)
    {
      var t := slots[x].task.value.thread;
      if t < |threads| {
        threads := threads[t := threads[t].(state := M.Mirror(st))];
      }
      SetState(x, st);
    }

    method RemoveTask(id: TaskId)
      requires Valid()
      modifies this`threads, slots
      ensures Valid() && View() == M.RemoveTask(old(View()), id)
    {
      if Lookup(id) {
        var t := slots[id.slot].task.value.thread;
        if t < |threads| {
          threads := threads[t := M.Thread(M.Gone, None)];
        }
        slots[id.slot] := M.Freed(slots[id.slot]);
      }
    }

    /** Scans the table for the first free slot. */
    method FindFree() returns (x: nat)
      requires Valid()
      ensures x == M.FirstFree(slots[..], 0) <= slots.Length
    {
      x := 0;
      while x < slots.Length && slots[x].task.Some?
        invariant x <= slots.Length
        invariant M.FirstFree(slots[..], 0) == M.FirstFree(slots[..], x)
      {
        x := x + 1;
      }
    }

    /** `insert_and_queue_task` with the thread that owns the task; `None` when the
        table is full. A full ready queue is the caller's panic. */
    method Spawn() returns (id: Option<TaskId>)
      requires Valid() && !M.Spawn(View()).QueuePanic?
      modifies this`threads, slots, ready, ready.cells
      ensures Valid()
      ensures match M.Spawn(old(View()))
              case Started(s, i) => View() == s && id == Some(i)
              case _ => View() == old(View()) && id == None
    {
      var x := FindFree();
      if x == slots.Length {
        return None;
      }
      var fresh_id := TaskId(x, slots[x].gen);
      slots[x] := slots[x].(task := Some(M.Task(M.Ready, |threads|, M.TASK_QUANTUM_TICKS)));
      threads := threads + [M.Thread(M.Active, Some(fresh_id))];
      var _ := ready.Push(fresh_id);
      return Some(fresh_id);
    }

    // -------------------------------------------------------------- the queues

    method PushReady(id: TaskId)
      requires Valid()
      modifies ready, ready.cells
      ensures Valid() && View() == old(View()).(ready := M.Push(old(View()).ready, id, M.QUEUE_SIZE))
    {
      var _ := ready.Push(id);
    }

    /** `queue_task_reaper`; its failure is only logged. */
    method PushReaper(id: TaskId)
      requires Valid()
      modifies reaper, reaper.cells
      ensures Valid() && View() == old(View()).(reaper := M.Push(old(View()).reaper, id, M.REAPER_QUEUE_SIZE))
    {
      var _ := reaper.Push(id);
    }

    method PopReaper() returns (id: TaskId)
      requires Valid() && 0 < reaper.len
      modifies reaper
      ensures Valid() && old(View()).reaper != [] && id == old(View()).reaper[0]
      ensures View() == old(View()).(reaper := old(View()).reaper[1..]) && reaper.len < old(reaper.len)
    {
      id := reaper.Pop();
    }

    method PushTomb(id: TaskId)
      requires Valid()
      modifies tomb, tomb.cells
      ensures Valid() && View() == old(View()).(tomb := M.Push(old(View()).tomb, id, M.TOMBSTONE_QUEUE_SIZE))
    {
      var _ := tomb.Push(id);
    }

    method PopTomb() returns (id: TaskId)
      requires Valid() && 0 < tomb.len
      modifies tomb
      ensures Valid() && old(View()).tomb != [] && id == old(View()).tomb[0]
      ensures View() == old(View()).(tomb := old(View()).tomb[1..]) && tomb.len < old(tomb.len)
    {
      id := tomb.Pop();
    }

    method PopSystemTask() returns (packed: nat)
      requires Valid() && 0 < sysq.len
      modifies sysq
      ensures Valid() && old(View()).sysq != [] && packed == old(View()).sysq[0]
      ensures View() == old(View()).(sysq := old(View()).sysq[1..]) && sysq.len < old(sysq.len)
    {
      packed := sysq.Pop();
    }

    method PopSleeper() returns (id: TaskId)
      requires Valid() && 0 < sleep.len
      modifies sleep, sleep.entries
      ensures Valid() && old(View()).sleep != [] && id == old(View()).sleep[0].id
      ensures View() == old(View()).(sleep := old(View()).sleep[1..]) && sleep.len < old(sleep.len)
    {
      id := sleep.PopFirst();
    }

    // --------------------------------------------------------------- scheduling

    /** Pops candidates until one is found ready, and marks it running. */
    method PopReady() returns (next: TaskId)
      requires Valid()
      modifies slots, ready
      ensures Valid()
      ensures var p := M.PickNext(old(slots[..]), old(ready.Contents()));
              next == p.next && slots[..] == p.slots && ready.Contents() == p.ready
    {
      ghost var p := M.PickNext(slots[..], ready.Contents());
      while 0 < ready.len
        invariant Valid() && slots[..] == old(slots[..])
        invariant M.PickNext(slots[..], ready.Contents()) == p
        decreases ready.len
      {
        next := ready.Pop();
        if Lookup(next) && slots[next.slot].task.value.state == M.Ready {
          SetState(next.slot, M.Running);
          return;
        }
      }
      next := IDLE;
    }

    /** Puts the outgoing task back in line if it is still running. */
    method RequeueCurrent()
      requires Valid()
      modifies slots, ready, ready.cells
      ensures Valid()
      ensures slots[..] == if M.Requeues(old(slots[..]), current) then M.SetState(old(slots[..]), current.slot, M.Ready)
                           else old(slots[..])
      ensures ready.Contents() == if M.Requeues(old(slots[..]), current) && current != IDLE
                                  then M.Push(old(ready.Contents()), current, M.QUEUE_SIZE)
                                  else old(ready.Contents())
    {
      if Lookup(current) && slots[current.slot].task.value.state == M.Running {
        SetState(current.slot, M.Ready);
        if current != IDLE {
          var _ := ready.Push(current);
        }
      }
    }

    /** Names the incoming task and loads its quantum. */
    method SwitchIn(next: TaskId)
      requires Valid()
      modifies this`current, this`ticks
      ensures Valid()
      ensures View() == old(View()).(
                current := next,
                ticks := if M.Found(slots[..], next) then slots[next.slot].task.value.quantum else old(ticks))
    {
      current := next;
      if Lookup(next) {
        ticks := slots[next.slot].task.value.quantum;
      }
    }

    method Schedule()
      requires Valid()
      modifies this`current, this`ticks, slots, ready, ready.cells
      ensures Valid() && View() == M.Schedule(old(View()))
    {
      ghost var s := View();
      ghost var p := M.PickNext(s.slots, s.ready);
      var next := PopReady();
      assert View() == s.(slots := p.slots, ready := p.ready);
      RequeueCurrent();
      ghost var q := View();
      assert q == s.(slots := q.slots, ready := q.ready);
      SwitchIn(next);
    }

    method Wake(id: TaskId)
      requires Valid()
      modifies this`threads, slots, ready, ready.cells
      ensures Valid() && View() == M.Wake(old(View()), id)
    {
      if Lookup(id) && slots[id.slot].task.value.state == M.Blocked {
        Mark(id.slot, M.Ready);
        PushReady(id);
      }
    }

    /** First half of `yield_blocked`. */
    method MarkBlocked()
      requires Valid()
      modifies this`threads, slots
      ensures Valid() && View() == M.MarkBlocked(old(View()))
    {
      if Lookup(current) {
        slots[current.slot] :=
          slots[current.slot].(task := Some(slots[current.slot].task.value.(quantum := M.TASK_QUANTUM_TICKS)));
        Mark(current.slot, M.Blocked);
      }
    }

    method Sleep(seconds: nat)
      requires Valid()
      modifies this`threads, this`current, this`ticks, slots, ready, ready.cells, sleep, sleep.entries
      ensures Valid()
      ensures View() == if seconds == 0 then M.Schedule(old(View())) else M.Schedule(M.MarkAsleep(old(View()), seconds))
    {
      hide M.Schedule, M.MarkBlocked;
      if seconds != 0 {
        sleep.Add(current, (seconds * 1000) % M.TWO32);
        MarkBlocked();
      }
      Schedule();
    }

    /** `task_exit` and the kill part of `try_kill_current_task`. */
    method ExitCurrent()
      requires Valid()
      modifies this`threads, this`current, this`ticks, slots, ready, ready.cells, reaper, reaper.cells
      ensures Valid() && View() == M.Schedule(M.MarkDying(old(View())))
    {
      if Lookup(current) {
        Mark(current.slot, M.Dying);
        PushReaper(current);
      }
      Schedule();
    }

    // ------------------------------------------------------------ the timer tick

    method WakeSleepers()
      requires Valid()
      modifies this`threads, slots, ready, ready.cells, sleep, sleep.entries
      ensures Valid() && View() == M.TickSleepers(old(View()))
    {
      hide M.WakeAll, M.Wake, DQ.DropExpired, DQ.ExpiredIds;
      sleep.DecrementFirst();
      ghost var d := sleep.Queue();
      ghost var done := M.WakeAll(View().(sleep := DQ.DropExpired(d)), DQ.ExpiredIds(d));
      while 0 < sleep.len && sleep.entries[0].value.delta == 0
        invariant Valid()
        invariant M.WakeAll(View().(sleep := DQ.DropExpired(sleep.Queue())), DQ.ExpiredIds(sleep.Queue())) == done
        decreases sleep.len
      {
        ghost var s := View();
        var id := PopSleeper();
        Wake(id);
        WakeOneMore(s, s.sleep);
      }
      WakeNoMore(View(), sleep.Queue());
    }

    static lemma WakeNoMore(s: M.Sys, q: seq<DQ.Entry<TaskId>>)
      requires s.sleep == q && (q == [] || q[0].delta != 0)
      ensures M.WakeAll(s.(sleep := DQ.DropExpired(q)), DQ.ExpiredIds(q)) == s
    {
    }

    static lemma {:induction false} WakeOneMore(s: M.Sys, q: seq<DQ.Entry<TaskId>>)
      requires q != [] && q[0].delta == 0
      ensures M.WakeAll(s.(sleep := DQ.DropExpired(q)), DQ.ExpiredIds(q))
           == M.WakeAll(M.Wake(s.(sleep := q[1..]), q[0].id).(sleep := DQ.DropExpired(q[1..])), DQ.ExpiredIds(q[1..]))
    {
      assert DQ.ExpiredIds(q)[1..] == DQ.ExpiredIds(q[1..]);
    }

    method KillTask(packed: nat)
      requires Valid()
      modifies this`threads, this`force, slots, reaper, reaper.cells
      ensures Valid() && View() == M.KillTask(old(View()), packed)
    {
      if packed < TWO64 {
        var id := Expand(packed);
        var hit := Lookup(id);
        if hit {
          Mark(id.slot, M.Dying);
        }
        PushReaper(id);
        if hit && id == current {
          force := true;
        }
      }
    }

    method DrainSystemTasks()
      requires Valid()
      modifies this`threads, this`force, slots, reaper, reaper.cells, sysq
      ensures Valid() && View() == M.DrainSystemTasks(old(View()))
    {
      while 0 < sysq.len
        invariant Valid() && M.DrainSystemTasks(View()) == M.DrainSystemTasks(old(View()))
        decreases sysq.len
      {
        var packed := PopSystemTask();
        KillTask(packed);
      }
    }

    method TombstoneCleanup()
      requires Valid()
      modifies this`threads, slots, tomb
      ensures Valid() && View() == M.TombstoneCleanup(old(View()))
    {
      while 0 < tomb.len
        invariant Valid() && M.TombstoneCleanup(View()) == M.TombstoneCleanup(old(View()))
        decreases tomb.len
      {
        var id := PopTomb();
        RemoveTask(id);
      }
    }

    method ReapDyingTasks()
      requires Valid()
      modifies slots, reaper, tomb, tomb.cells
      ensures Valid() && View() == M.ReapDyingTasks(old(View()))
    {
      while 0 < reaper.len
        invariant Valid() && M.ReapDyingTasks(View()) == M.ReapDyingTasks(old(View()))
        decreases reaper.len
      {
        var id := PopReaper();
        ReapOne(id);
      }
    }

    /** Dead from now on, but not dropped before the next tick. */
    method ReapOne(id: TaskId)
      requires Valid()
      modifies slots, tomb, tomb.cells
      ensures Valid() && View() == M.ReapOne(old(View()), id)
    {
      if Lookup(id) && slots[id.slot].task.value.state == M.Dying {
        SetState(id.slot, M.Dead);
        PushTomb(id);
      }
    }

    /** `on_timer_tick`: sleepers first, then the quantum. */
    method CountTick() returns (expired: bool)
      requires Valid()
      modifies this`threads, this`ticks, slots, ready, ready.cells, sleep, sleep.entries
      ensures Valid() && View() == M.CountTick(M.TickSleepers(old(View())))
      ensures expired == M.QuantumExpired(M.TickSleepers(old(View())))
    {
      WakeSleepers();
      expired := ticks <= 1;
      ticks := if expired then M.TASK_QUANTUM_TICKS else ticks - 1;
    }

    /** The three queues that a tick drains, in the order that keeps the freshly dead
        for one more tick. */
    method DrainQueues()
      requires Valid()
      modifies this`threads, this`force, slots, reaper, reaper.cells, tomb, tomb.cells, sysq
      ensures Valid()
      ensures View() == M.ReapDyingTasks(M.TombstoneCleanup(M.DrainSystemTasks(old(View()))))
    {
      DrainSystemTasks();
      TombstoneCleanup();
      ReapDyingTasks();
    }

    /** Reads the force-reschedule flag and clears it. */
    method TakeForce() returns (was: bool)
      requires Valid()
      modifies this`force
      ensures Valid() && was == old(force) && View() == old(View()).(force := false)
    {
      was := force;
      force := false;
    }

    /** The timer interrupt, phase by phase. */
    method TimerTick()
      requires Valid()
      modifies this, slots, ready, ready.cells, reaper, reaper.cells, tomb, tomb.cells, sysq, sleep, sleep.entries
      ensures Valid() && View() == M.Tick(old(View()))
    {
      ghost var s := View();
      var switch := CountTick();
      DrainQueues();
      ghost var b := View();
      assert b == M.BeforeSwitch(s);
      var forced := TakeForce();
      switch := switch || forced;
      if switch {
        Schedule();
      }
    }

    /** `Thread::exit` for thread `t`. */
    method RequestExit(t: nat)
      requires Valid()
      modifies sysq, sysq.cells
      ensures Valid() && View() == M.RequestExit(old(View()), t)
    {
      if t < |threads| && threads[t].state != M.Gone && threads[t].state != M.Exiting && threads[t].task.Some?
         && threads[t].task.value.slot < TWO64 && threads[t].task.value.gen < GENERATIONS {
        var _ := sysq.Push(Compress(threads[t].task.value));
      }
    }
  }
}
