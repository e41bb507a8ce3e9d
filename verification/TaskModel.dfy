/** The task table, the queues around it and every operation that changes them,
    as functions on one value. One CPU; each operation runs with interrupts off
    from its first change to its last. Kernel initialisation has completed, so the
    idle task is never queued. */
module TaskModel {
  import opened Basics
  import opened TaskIds
  import DQ = DeltaQueue

  const MAX_TASKS: nat := 256
  const QUEUE_SIZE: nat := 256
  const REAPER_QUEUE_SIZE: nat := 64
  const TOMBSTONE_QUEUE_SIZE: nat := 64
  const MAX_SYSTEM_TASKS: nat := 32
  const TASK_QUANTUM_TICKS: nat := 4
  const TWO32: nat := 0x1_0000_0000

  datatype TaskState = Ready | Running | Blocked | Dying | Dead

  datatype ThreadState = Active | Waiting | Exiting | Gone

  /** `quantum` is the number of ticks loaded when the task is switched in. */
  datatype Task = Task(state: TaskState, thread: nat, quantum: nat)

  datatype Slot = Slot(task: Option<Task>, gen: nat)

  datatype Thread = Thread(state: ThreadState, task: Option<TaskId>)

  /** `current` is the task the CPU executes; `ticks` what is left of its quantum.
      `sysq` holds the packed arguments of the queued task-killer system tasks.
      Threads are never dropped here; thread 0 belongs to the idle task. */
  datatype Sys = Sys(
    slots: seq<Slot>,
    threads: seq<Thread>,
    ready: seq<TaskId>,
    current: TaskId,
    ticks: nat,
    force: bool,
    sleep: seq<DQ.Entry<TaskId>>,
    reaper: seq<TaskId>,
    tomb: seq<TaskId>,
    sysq: seq<nat>)

  function Push<T>(q: seq<T>, x: T, capacity: nat): seq<T>
  {
    if |q| < capacity then q + [x] else q
  }

  // -------------------------------------------------------------- the task table

  predicate Live(slots: seq<Slot>, x: nat)
  {
    x < |slots| && slots[x].task.Some?
  }

  /** The lookup behind `get_task`: the slot exists, is occupied, and is still in
      the generation the id was issued for. */
  predicate Found(slots: seq<Slot>, id: TaskId)
  {
    Live(slots, id.slot) && slots[id.slot].gen == id.gen
  }

  function IdAt(slots: seq<Slot>, x: nat): (id: TaskId)
    requires x < |slots|
  {
    TaskId(x, slots[x].gen)
  }

  function StateAt(slots: seq<Slot>, x: nat): (st: TaskState)
    requires Live(slots, x)
  {
    slots[x].task.value.state
  }

  function ThreadAt(slots: seq<Slot>, x: nat): (t: nat)
    requires Live(slots, x)
  {
    slots[x].task.value.thread
  }

  function SetState(slots: seq<Slot>, x: nat, st: TaskState): (r: seq<Slot>)
    requires Live(slots, x)
  {
    slots[x := slots[x].(task := Some(slots[x].task.value.(state := st)))]
  }

  /** How the owning thread reports the state of its task. */
  function Mirror(st: TaskState): (t: ThreadState)
  {
    match st
    case Ready => Active
    case Running => Active
    case Blocked => Waiting
    case Dying => Exiting
    case Dead => Exiting
  }

  function SetThreadState(threads: seq<Thread>, t: nat, st: ThreadState): (r: seq<Thread>)
  {
    if t < |threads| then threads[t := threads[t].(state := st)] else threads
  }

  /** A transition that is written to the task and to its thread. */
  function Mark(s: Sys, x: nat, st: TaskState): (r: Sys)
    requires Live(s.slots, x)
  {
    s.(slots := SetState(s.slots, x, st),
       threads := SetThreadState(s.threads, ThreadAt(s.slots, x), Mirror(st)))
  }

  function FirstFree(slots: seq<Slot>, from: nat): (x: nat)
    requires from <= |slots|
    ensures from <= x <= |slots|
    ensures forall y :: from <= y < x ==> slots[y].task.Some?
    ensures x < |slots| ==> slots[x].task.None?
    decreases |slots| - from
  {
    if from == |slots| || slots[from].task.None? then from else FirstFree(slots, from + 1)
  }

  /** The slot after its task was dropped: empty, in the next generation. */
  function Freed(sl: Slot): (r: Slot)
  {
    Slot(None, (sl.gen + 1) % GENERATIONS)
  }

  /** Drops the task with its stack, detaches the thread and starts a new
      generation of the slot. Ids that are not found are ignored. */
  function RemoveTask(s: Sys, id: TaskId): (r: Sys)
  {
    if !Found(s.slots, id) then s
    else
      var t := ThreadAt(s.slots, id.slot);
      s.(slots := s.slots[id.slot := Freed(s.slots[id.slot])],
         threads := if t < |s.threads| then s.threads[t := Thread(Gone, None)] else s.threads)
  }

  // ------------------------------------------------------------------- scheduling

  datatype Pick = Pick(slots: seq<Slot>, ready: seq<TaskId>, next: TaskId)

  /** Pops candidates until one is found `Ready`; an exhausted queue means idle. */
  function PickNext(slots: seq<Slot>, ready: seq<TaskId>): (p: Pick)
  {
    if ready == [] then Pick(slots, [], IDLE)
    else if Found(slots, ready[0]) && StateAt(slots, ready[0].slot) == Ready then
      Pick(SetState(slots, ready[0].slot, Running), ready[1..], ready[0])
    else PickNext(slots, ready[1..])
  }

  /** The outgoing task is re-queued only if nothing took it off `Running`. */
  predicate Requeues(slots: seq<Slot>, outgoing: TaskId)
  {
    Found(slots, outgoing) && StateAt(slots, outgoing.slot) == Running
  }

  function Schedule(s: Sys): (r: Sys)
  {
    var p := PickNext(s.slots, s.ready);
    var again := Requeues(p.slots, s.current);
    var slots := if again then SetState(p.slots, s.current.slot, Ready) else p.slots;
    s.(slots := slots,
       ready := if again && s.current != IDLE then Push(p.ready, s.current, QUEUE_SIZE) else p.ready,
       current := p.next,
       ticks := if Found(slots, p.next) then slots[p.next.slot].task.value.quantum else s.ticks)
  }

  /** Only a blocked task reacts; a full queue leaves it ready but unqueued. */
  function Wake(s: Sys, id: TaskId): (r: Sys)
  {
    if Found(s.slots, id) && StateAt(s.slots, id.slot) == Blocked then
      Mark(s, id.slot, Ready).(ready := Push(s.ready, id, QUEUE_SIZE))
    else s
  }

  datatype Spawned = TableFull | QueuePanic | Started(sys: Sys, id: TaskId)

  /** Takes the first free slot; a full ready queue after that is a panic. */
  function Spawn(s: Sys): (r: Spawned)
  {
    var x := FirstFree(s.slots, 0);
    if x == |s.slots| then TableFull
    else if |s.ready| == QUEUE_SIZE then QueuePanic
    else
      var id := IdAt(s.slots, x);
      Started(
        s.(slots := s.slots[x := s.slots[x].(task := Some(Task(Ready, |s.threads|, TASK_QUANTUM_TICKS)))],
           threads := s.threads + [Thread(Active, Some(id))],
           ready := s.ready + [id]),
        id)
  }

  function SetQuantum(s: Sys, id: TaskId): (r: Sys)
    requires Found(s.slots, id)
  {
    s.(slots := s.slots[id.slot :=
      s.slots[id.slot].(task := Some(s.slots[id.slot].task.value.(quantum := TASK_QUANTUM_TICKS)))])
  }

  /** First half of `yield_blocked`: the current task is blocked but still runs. */
  function MarkBlocked(s: Sys): (r: Sys)
  {
    if Found(s.slots, s.current) then Mark(SetQuantum(s, s.current), s.current.slot, Blocked) else s
  }

  /** `(seconds * 1000) as u64`, the product taken in 32 bits. */
  function SleepTicks(seconds: nat): (t: nat)
  {
    (seconds * 1000) % TWO32
  }

  /** First half of `sleep` for a non-zero duration. */
  function MarkAsleep(s: Sys, seconds: nat): (r: Sys)
  {
    MarkBlocked(s.(sleep := DQ.Insert(s.sleep, s.current, SleepTicks(seconds))))
  }

  /** `task_exit` and `kill_current_task` up to the reschedule. */
  function MarkDying(s: Sys): (r: Sys)
  {
    if Found(s.slots, s.current) then
      Mark(s, s.current.slot, Dying).(reaper := Push(s.reaper, s.current, REAPER_QUEUE_SIZE))
    else s
  }

  /** `Thread::exit`: queue a task killer unless the thread is already on its way
      out. */
  function RequestExit(s: Sys, t: nat): (r: Sys)
  {
    if t < |s.threads| && s.threads[t].state != Gone && s.threads[t].state != Exiting && s.threads[t].task.Some?
       && s.threads[t].task.value.slot < TWO64 && s.threads[t].task.value.gen < GENERATIONS then
      s.(sysq := Push(s.sysq, Compress(s.threads[t].task.value), MAX_SYSTEM_TASKS))
    else s
  }

  // --------------------------------------------------------------- the timer tick

  function WakeAll(s: Sys, ids: seq<TaskId>): (r: Sys)
    decreases |ids|
  {
    if ids == [] then s else WakeAll(Wake(s, ids[0]), ids[1..])
  }

  function TickSleepers(s: Sys): (r: Sys)
  {
    WakeAll(s.(sleep := DQ.Tick(s.sleep)), DQ.Woken(s.sleep))
  }

  predicate QuantumExpired(s: Sys)
  {
    s.ticks <= 1
  }

  function CountTick(s: Sys): (r: Sys)
  {
    s.(ticks := if QuantumExpired(s) then TASK_QUANTUM_TICKS else s.ticks - 1)
  }

  /** Marks the task dying, queues the reaper whether or not the id was found, and
      asks for a reschedule if the victim is the current task. */
  function KillTask(s: Sys, packed: nat): (r: Sys)
  {
    if packed < TWO64 then
      var id := Expand(packed);
      var hit := Found(s.slots, id);
      (if hit then Mark(s, id.slot, Dying) else s).(
        reaper := Push(s.reaper, id, REAPER_QUEUE_SIZE),
        force := s.force || (hit && id == s.current))
    else s
  }

  function DrainSystemTasks(s: Sys): (r: Sys)
    decreases |s.sysq|
  {
    if s.sysq == [] then s else DrainSystemTasks(KillTask(s.(sysq := s.sysq[1..]), s.sysq[0]))
  }

  function TombstoneCleanup(s: Sys): (r: Sys)
    decreases |s.tomb|
  {
    if s.tomb == [] then s else TombstoneCleanup(RemoveTask(s.(tomb := s.tomb[1..]), s.tomb[0]))
  }

  function ReapOne(s: Sys, id: TaskId): (r: Sys)
  {
    if Found(s.slots, id) && StateAt(s.slots, id.slot) == Dying then
      s.(slots := SetState(s.slots, id.slot, Dead), tomb := Push(s.tomb, id, TOMBSTONE_QUEUE_SIZE))
    else s
  }

  function ReapDyingTasks(s: Sys): (r: Sys)
    decreases |s.reaper|
  {
    if s.reaper == [] then s else ReapDyingTasks(ReapOne(s.(reaper := s.reaper[1..]), s.reaper[0]))
  }

  /** The state a tick hands to the tombstone cleanup. */
  function BeforeCleanup(s: Sys): (r: Sys)
  {
    DrainSystemTasks(CountTick(TickSleepers(s)))
  }

  /** Everything up to the decision to reschedule. */
  function BeforeSwitch(s: Sys): (r: Sys)
  {
    ReapDyingTasks(TombstoneCleanup(BeforeCleanup(s)))
  }

  predicate SwitchesOnTick(s: Sys)
  {
    QuantumExpired(TickSleepers(s)) || BeforeSwitch(s).force
  }

  /** The timer interrupt: wake sleepers, count the quantum, drain the system
      tasks, clean up last tick's dead, reap the dying, then switch if needed. */
  function Tick(s: Sys): (r: Sys)
  {
    var b := BeforeSwitch(s).(force := false);
    if SwitchesOnTick(s) then Schedule(b) else b
  }

  // ------------------------------------------------------------------------- runs

  /** `Block`, `SleepFor`, `Exit` and `Fault` include the switch that follows the
      state change. `MarkBlocked`, `MarkAsleep` and `Yield` are the halves in
      between which an interrupt may arrive. */
  datatype Op =
    | TimerTick
    | SpawnTask
    | WakeTask(id: TaskId)
    | BeginBlock
    | BeginSleep(seconds: nat)
    | Yield
    | Block
    | SleepFor(seconds: nat)
    | Exit
    | Fault
    | ExitThread(thread: nat)

  /** When the operation can happen without halting the machine: the idle task
      neither blocks nor dies, and a spawn must not meet a full ready queue. */
  predicate Enabled(s: Sys, op: Op)
  {
    match op
    case SpawnTask => !Spawn(s).QueuePanic?
    case BeginBlock => s.current != IDLE
    case BeginSleep(_) => s.current != IDLE
    case Block => s.current != IDLE
    case SleepFor(_) => s.current != IDLE
    case Exit => s.current != IDLE
    case Fault => s.current != IDLE
    case ExitThread(t) => t != 0
    case _ => true
  }

  function Apply(s: Sys, op: Op): (r: Sys)
  {
    match op
    case TimerTick => Tick(s)
    case SpawnTask => (match Spawn(s) case Started(s', _) => s' case _ => s)
    case WakeTask(id) => Wake(s, id)
    case BeginBlock => MarkBlocked(s)
    case BeginSleep(n) => if n == 0 then s else MarkAsleep(s, n)
    case Yield => Schedule(s)
    case Block => Schedule(MarkBlocked(s))
    case SleepFor(n) => if n == 0 then Schedule(s) else Schedule(MarkAsleep(s, n))
    case Exit => Schedule(MarkDying(s))
    case Fault => Schedule(MarkDying(s))
    case ExitThread(t) => RequestExit(s, t)
  }

  predicate EnabledRun(s: Sys, ops: seq<Op>)
    decreases |ops|
  {
    ops == [] || (Enabled(s, ops[0]) && EnabledRun(Apply(s, ops[0]), ops[1..]))
  }

  function Run(s: Sys, ops: seq<Op>): (r: Sys)
    decreases |ops|
  {
    if ops == [] then s else Run(Apply(s, ops[0]), ops[1..])
  }

  /** The machine when scheduling starts: the idle task runs, everything else is
      empty. */
  function Boot(): (s: Sys)
  {
    Sys(
      [Slot(Some(Task(Running, 0, TASK_QUANTUM_TICKS)), 0)] + seq(MAX_TASKS - 1, _ => Slot(None, 0)),
      [Thread(Active, Some(IDLE))],
      [], IDLE, TASK_QUANTUM_TICKS, false, [], [], [], [])
  }
}
