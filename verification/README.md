# A verified model of the crap-os kernel

This project models, in Dafny 4.11, the parts of the crap-os kernel whose correctness is
spread over many functions, and proves what they guarantee.

* **Tasks.** `TaskModel` is the scheduler as a state machine on values: the slot and
  generation table, the ready ring, the delta sleep queue, the reaper, tombstone and
  system-task queues, the threads and the current task. A step is a timer tick (all
  phases of the handler, in its order), spawn, wake, block, sleep, exit, fault, exit
  request or yield; blocking and sleeping also exist split into their two halves, as the
  code releases its lock in between. `TaskSafety`, `TaskLifecycle`, `TaskDeadline`,
  `TaskWaiting`, `ReadyRing`, `StaleIds`, `RingRuns` and `SleepTiming` prove properties of
  every run; `Witnesses` reaches the states in which promises fail from boot. `Kernel` is
  the code in its own form, a class with rings, arrays and loops, each method of which
  refines the function of `TaskModel` it stands for; `RingBuffer`, `DeltaQueue` and
  `TaskIds` are its parts.
* **Memory.** `MemoryManager` updates page tables and the intrusive frame list in place;
  `Paging`, `PageWords` and `PageRights` hold the theory, the last one as the processor sees
  it. `KernelHeap` is the first-fit allocator on byte memory, nodes and headers included;
  `HeapModel`, `HeapRuns`, `HeapSafety`, `HeapAlignment`, `HeapNodes` and `ByteMemory` hold
  the theory. `BootMemory` is the selection of frames from the firmware's memory map, and
  `BootFrames` hands them over.
* **Loops with laws.** `GaloisField`, `GfMultiply` and `AesGcm`; `Blake2b`; `Base64`,
  `Hex`, `Decimal` and `Phc`.

Everything is stated for one CPU with interrupts off inside a step, after the kernel has
finished its initialisation, and with idle never killed.

The kernel is built without overflow checks, so arithmetic wraps; the model writes the
wrap out where a caller can reach it. Where the code and its own documentation differ, the
model follows the code:

* The documentation of the heap promises aligned data. Only the offset is rounded, not the
  block: `HeapAlignment.AlignedIff` and `HeapAlignment.AlignmentCanFail`.
* A remainder of 1 to 15 bytes is recorded nowhere: `HeapAlignment.UndoneIff`,
  `HeapSafety.WholeAgainIff`, `HeapAlignment.RemainderIsLost`.
* Translation keeps every flag above bit 11, the no-execute bit included:
  `PageWords.TranslationIsExactIff`, `MemoryManager.Manager.UnmapForFree`.
* A task whose reaper entry finds no room is leaked: `TaskDeadline.StepLeaksIff`,
  `TaskDeadline.RemovedInTimeIff`. A wake on a full ready ring strands:
  `StaleIds.WakeStrandsIffFull`, `StaleIds.TickStrandsIff`. A full system-task ring drops a
  request to exit: `TaskDeadline.ExitRequestKillsIff`.
* A wake between the two halves of blocking, by a call or by a tick, can put a task on the
  CPU and in the ring at once: `RingRuns.TornBlockIsHarmlessIff`,
  `RingRuns.TornTickIsHarmlessIff`.
* Old ids come back to life after 256 recyclings of a slot: `StaleIds.IdResolvesIff`; in
  the ready ring that cannot happen: `ReadyRing.YoungestIsLast`.
* A task that is woken early and sleeps again keeps its old entry, which may cut the second
  sleep short: `SleepTiming.SleepCallStartsIff`. Multiples of 2^29 seconds, and a full sleep
  queue, make a sleep endless: `SleepTiming.ForgottenIff`,
  `SleepTiming.ForgottenNeverWakes`.
* The Base64 decoder is documented to refuse more than two padding characters and accepts
  any number: `Base64.TrimmedPads`. Records are documented as unpadded Base64 and are
  padded: `Phc.PhcRoundTrip` is about the padded form.
* The hexadecimal parser refuses what the printer gives for no bytes: `Hex.ParsesIff`.
* The product in the memory-cost comparison wraps: `Phc.MemoryCheckIff`.
* `h_prime` is documented to deliver tau bytes and delivers one for tau = 0:
  `Blake2b.Variable`.

Block cipher, compression function and core password hash are function parameters, as are
the random nonce and salt; the theorems hold for every such function.

## Model

| member | source | states |
|---|---|---|
| `RingBuffer.Ring.Push` | crap_os/src/task_scheduler/scheduler.rs:464-480 | appends at the end of the abstract contents, or refuses exactly when the ring is full; nothing else changes |
| `RingBuffer.Ring.Pop` | crap_os/src/task_scheduler/scheduler.rs:497-507 | delivers and removes the first element of the contents, across the wrap of head and tail |
| `TaskIds.CompressRoundTrip` | crap_os/src/helper_functions.rs:221-246 | unpacking a packed id gives the id back if and only if its slot is below 2^56; then the generation is the top byte |
| `DeltaQueue.InsertRefines` | crap_os/src/task_scheduler/sleep_queue.rs:101-165 | inserting into the delta list is inserting one absolute countdown, in front of the first that is not earlier; no other countdown changes and no delta underflows |
| `DeltaQueue.TickRefines` | crap_os/src/task_scheduler/sleep_queue.rs:186-237 | a tick lowers every absolute countdown by one and wakes exactly those that reach zero, in order; the head delta stays positive |
| `DeltaQueue.InsertKeepsOthers` | crap_os/src/task_scheduler/sleep_queue.rs:101-165 | an insertion puts the new countdown right behind those that end earlier and keeps every other as it is and in its order |
| `DeltaQueue.EarliestIsMinimum` | crap_os/src/task_scheduler/sleep_queue.rs:186-237 | the earliest entry of an id is the minimum over all its entries, of which there may be several |
| `DeltaQueue.WokenByExactlyTheNthTick` | crap_os/src/task_scheduler/sleep_queue.rs:101-237 | an id, however many entries it has, is woken by the tick with which its earliest entry ends and by no earlier one, under every interleaving of other insertions and ticks |
| `DeltaQueue.SleepLastsExactly` | crap_os/src/task_scheduler/sleep_queue.rs:101-237 | the same from the request on: woken when the earlier of the new and the older entries ends; a request for no time or on a full queue makes no entry, and without any entry the id is never woken |
| `DeltaQueue.SleepIsHonouredIff` | crap_os/src/task_scheduler/sleep_queue.rs:101-237 | the n-th tick and no earlier one wakes the id if and only if no older entry of it has fewer to go, and either the queue has room or an older entry ends just then |
| `DeltaQueue.SleepQueue.Add` | crap_os/src/task_scheduler/sleep_queue.rs:101-165 | the walk and the in-place shift compute the model insertion; a full queue drops the request and changes nothing |
| `DeltaQueue.SleepQueue.ShiftRight` | crap_os/src/task_scheduler/sleep_queue.rs:101-165 | the right shift of the entry array opens one cell and keeps all entries in order |
| `DeltaQueue.SleepQueue.PopFirst` | crap_os/src/task_scheduler/sleep_queue.rs:186-237 | the left shift removes the first entry and keeps the others in order |
| `DeltaQueue.SleepQueue.DecrementFirst` | crap_os/src/task_scheduler/sleep_queue.rs:186-237 | only the head delta is lowered |
| `TaskSafety.BootInv` | crap_os/src/task_scheduler/scheduler.rs:569-608 | the state after the idle task was installed satisfies the global invariant |
| `TaskSafety.StepKeeps` | crap_os/src/processor_control/idt.rs:846-888 | every step (tick, spawn, wake, block, sleep, exit, fault, exit request, yield) keeps the invariant over slots, generations, threads, current, reaper, tombstone and system-task queues |
| `TaskSafety.RunKeeps` | crap_os/src/processor_control/idt.rs:846-888 | hence every reachable state satisfies it |
| `TaskSafety.DrainNeverKillsTheDead` | crap_os/src/task_scheduler/scheduler.rs:1027-1066 | the system-task drain turns a task to Dying at most, and never one that is Dead |
| `TaskLifecycle.TickOnTask` | crap_os/src/processor_control/idt.rs:846-888 | a tick removes exactly the tombstoned tasks; each was Dead, is neither the interrupted nor the resumed one, and its thread ends Dead |
| `TaskLifecycle.StepLifecycle` | crap_os/src/task_scheduler/reaper.rs:281-374 | a task disappears only in a tick, only if it was Dead before that tick; only a tick makes a task Dead |
| `TaskLifecycle.CurrentStackIsNeverDropped` | crap_os/src/processor_control/idt.rs:846-888 | in every run from boot: a dropped task is current neither before nor after the drop, and a tick boundary lies between becoming Dead and being dropped |
| `TaskLifecycle.LifecycleIsMonotone` | crap_os/src/task_scheduler/reaper.rs:281-374 | in every run no step takes a task back from Dying or Dead |
| `TaskLifecycle.ThreadsMirrorTasks` | crap_os/src/process_manager/thread.rs:245-261 | in every reachable state each thread is Active, Waiting or Dying exactly as its task is Ready/Running, Blocked, Dying/Dead, and Dead once the task is gone |
| `TaskDeadline.StepTracked` | crap_os/src/task_scheduler/reaper.rs:281-374 | every step keeps, whatever overflows: a Dead task has a tombstone, a Dying one a reaper entry unless it is leaked |
| `TaskDeadline.TickMovesOn` | crap_os/src/task_scheduler/reaper.rs:281-374 | one tick removes the Dead and turns the Dying Dead, except the leaked |
| `TaskDeadline.RemovedInTimeIff` | crap_os/src/processor_control/idt.rs:853-868 | in every run a Dying task is gone by the second following tick, a Dead one by the first, if and only if it is not leaked |
| `TaskDeadline.RemovedInTimeFromBoot` | crap_os/src/processor_control/idt.rs:846-888 | the same for every state that a run from boot reaches |
| `TaskDeadline.DrainQueuesIff` | crap_os/src/task_scheduler/scheduler.rs:1027-1066 | a kill gets its reaper entry if and only if the queue still has room when its turn comes |
| `TaskDeadline.TickLeaksIff` | crap_os/src/processor_control/idt.rs:853-868 | a tick leaks a task if and only if the reaper entries and the kills queued before the first one for it fill the reaper queue |
| `TaskDeadline.StepLeaksIff` | crap_os/src/task_scheduler/reaper.rs:128-145 | for every operation, exactly when it leaks a task: exit and fault on a full reaper queue, ticks as above, nothing else |
| `TaskDeadline.ExitLeaksIff` | crap_os/src/task_scheduler/task.rs:743-786 | an exit leaks its task if and only if the reaper queue is full, whether or not a kill for it is already queued |
| `TaskDeadline.LeakIsPermanent` | crap_os/src/task_scheduler/reaper.rs:281-324 | a leaked task stays Dying, with its stack, and is not removed within any number of ticks of any continuation |
| `TaskDeadline.ExitRequestKillsIff` | crap_os/src/process_manager/thread.rs:245-261 | after an exit request for the thread of a task that is not on its way out, the next tick makes the task Dying or Dead if and only if the system-task ring had room or already held a kill for it |
| `TaskWaiting.StepServes` | crap_os/src/task_scheduler/scheduler.rs:658-845 | every tick and every voluntary switch lowers the measure 4k + ticks left of a queued Ready task, and no step raises it, unless the task is served or killed |
| `TaskWaiting.ServedWithinMeasure` | crap_os/src/task_scheduler/scheduler.rs:876-907 | a Ready task is current or killed within as many ticks as the measure says |
| `TaskWaiting.BoundedWaiting` | crap_os/src/task_scheduler/scheduler.rs:876-907 | a Ready task at index k of the ready ring becomes current within 4(k + 1) ticks unless killed, in every run |
| `ReadyRing.YoungestIsLast` | crap_os/src/task_scheduler/scheduler.rs:350-379 | one-byte generations cannot alias inside a 256-entry ring: only the last entry of a slot can be the live one |
| `ReadyRing.RequeueAlwaysFits` | crap_os/src/task_scheduler/scheduler.rs:688-759 | the outgoing task always finds room after the pops, so the re-enqueue failure branch is dead |
| `StaleIds.IdResolvesIff` | crap_os/src/task_scheduler/scheduler.rs:294-379 | an old id resolves after a run if and only if the slot is occupied and was recycled a multiple of 256 times in between |
| `StaleIds.StaleIdIsInert` | crap_os/src/task_scheduler/scheduler.rs:294-379 | so for the first 255 recyclings waking, reaping and removing an old id change nothing, and killing it only adds its reaper entry |
| `StaleIds.StaleStaysStale` | crap_os/src/task_scheduler/scheduler.rs:294-323 | a stale ready-ring entry stays stale under every step until it is popped |
| `StaleIds.WakeStrandsIffFull` | crap_os/src/task_scheduler/scheduler.rs:974-996 | a wake leaves a task Ready but unqueued if and only if the ring is full and the task is not on the CPU |
| `StaleIds.WakeAllStrandsIff` | crap_os/src/task_scheduler/sleep_queue.rs:186-237 | of several sleepers woken in a row one is stranded if and only if the ring and the sleepers before it leave no room and it is not on the CPU |
| `StaleIds.TickStrandsIff` | crap_os/src/processor_control/idt.rs:846-888 | the same for a whole tick, unless the tick kills the sleeper; one that holds the CPU between two halves is stranded only if the tick switches |
| `StaleIds.StrandedNeverRuns` | crap_os/src/task_scheduler/scheduler.rs:658-845 | such a task never runs again: it stays stranded until something kills it |
| `RingRuns.SwitchRingIff` | crap_os/src/task_scheduler/scheduler.rs:688-759 | a Ready task that still holds the CPU leaves it in order if and only if an entry that can run stands before its own; otherwise the switch picks it again and only the order of the ring changes |
| `RingRuns.BeforeSwitchLanesIff` | crap_os/src/processor_control/idt.rs:846-888 | when a tick decides about the switch the ring is in order if and only if everybody it woke and did not kill found room, counting those woken before |
| `RingRuns.TickKeepsRingIff` | crap_os/src/processor_control/idt.rs:846-888 | a tick keeps the ring in order if and only if that is so and, if it woke the current task, it also kills it or switches to somebody before it who survives the tick |
| `RingRuns.StepKeepsRingIff` | crap_os/src/task_scheduler/scheduler.rs:658-845 | in order means: per slot the generations in the ring are consecutive and end with the youngest, a Ready task has an entry, a Running or Blocked one has none, the current task is Running or Blocked. Exactly which steps keep this, halves of blocking included: all but ticks as above and wakes that meet a full ring or a task on the CPU |
| `RingRuns.RunKeepsRingIff` | crap_os/src/task_scheduler/scheduler.rs:658-845 | a run keeps the ring in order throughout if and only if each step does |
| `RingRuns.QueuedExactlyWhenReady` | crap_os/src/task_scheduler/scheduler.rs:688-759 | in every such run from boot a live id is in the ring exactly once if Ready, never if Running or Blocked, at most once otherwise; a task is Running if and only if it is current and no first half of blocking came after the last switch, and the current task is Blocked if and only if one did |
| `RingRuns.RunningIsCurrent` | crap_os/src/task_scheduler/scheduler.rs:688-759 | where blocking is not interrupted, a task other than idle is Running if and only if it is current |
| `RingRuns.TornBlockIsHarmlessIff` | crap_os/src/task_scheduler/scheduler.rs:923-950 | a `wake` of the task between the two halves of `yield_blocked` or `sleep` leaves the ring in order if and only if the ring has room and somebody else is waiting |
| `RingRuns.TornTickIsHarmlessIff` | crap_os/src/task_scheduler/scheduler.rs:923-950 | a tick in between that wakes the task through a sleep entry leaves the ring in order after the second half if and only if everybody it wakes and does not kill finds room and it kills the task, or does not switch and somebody before the task survives it, or switches and anybody else survives it |
| `SleepTiming.SleepCallRests` | crap_os/src/task_scheduler/scheduler.rs:1130-1180 | a sleep call blocks its caller in every case; it is due with the earlier of the new and an older entry |
| `SleepTiming.ZeroSleepYields` | crap_os/src/task_scheduler/scheduler.rs:1130-1180 | a sleep of zero seconds is a yield: no entry, and the caller is Ready and queued |
| `SleepTiming.SleepCallStartsIff` | crap_os/src/task_scheduler/scheduler.rs:1130-1180 | the caller sleeps its own number of ticks if and only if an entry is made and no older one is earlier, or an older one ends just then |
| `SleepTiming.SleeperIsOnTime` | crap_os/src/task_scheduler/sleep_queue.rs:186-237 | a sleeper, with any number of entries, is Blocked until its earliest one ends and awake right after, in every run without an explicit wake of it |
| `SleepTiming.RunKeepsHeadPositive` | crap_os/src/task_scheduler/sleep_queue.rs:186-237 | the head delta is positive between steps of every run |
| `SleepTiming.ForgottenIff` | crap_os/src/task_scheduler/scheduler.rs:1130-1180 | for a positive duration the caller is left Blocked without an entry if and only if it had none and the seconds are a multiple of 2^29 or the queue is full |
| `SleepTiming.ForgottenNeverWakes` | crap_os/src/task_scheduler/sleep_queue.rs:186-237 | such a task stays Blocked in every run without an explicit wake, until it is killed |
| `SleepTiming.ZeroProductIff` | crap_os/src/task_scheduler/scheduler.rs:1130-1180 | the 32-bit product of seconds and 1000 is zero if and only if seconds is a multiple of 2^29, and exact if and only if seconds <= 4294967 |
| `Witnesses.LeakIsReachable` | crap_os/src/task_scheduler/reaper.rs:128-145 | a run from boot that leaks: sixty-five exits between two ticks |
| `Witnesses.StrandIsReachable` | crap_os/src/task_scheduler/scheduler.rs:974-996 | a run from boot that strands: entries of killed tasks fill the ring |
| `Witnesses.TornIsReachable` | crap_os/src/task_scheduler/scheduler.rs:923-950 | a run from boot in which a torn block breaks the ring |
| `Witnesses.TornTickIsReachable` | crap_os/src/task_scheduler/scheduler.rs:923-950 | a run from boot in which a tick between the halves breaks it, through the entry of a sleep that was cut short |
| `Witnesses.EarlyWakeIsReachable` | crap_os/src/task_scheduler/scheduler.rs:1130-1180 | a run from boot in which an older entry cuts a sleep short |
| `Witnesses.ForgottenIsReachable` | crap_os/src/task_scheduler/scheduler.rs:1130-1180 | a run from boot in which a sleeper is forgotten |
| `Witnesses.AliasIsReachable` | crap_os/src/task_scheduler/scheduler.rs:350-379 | a run from boot with 256 recyclings of one slot, after which the sleep entry of its first task is due for the last one |
| `Kernel.Scheduler.constructor` | crap_os/src/task_scheduler/scheduler.rs:569-608 | the in-place state is the model state after boot |
| `Kernel.Scheduler.FindFree` | crap_os/src/task_scheduler/scheduler.rs:250-278 | finds the first free slot from slot 0 on, or none |
| `Kernel.Scheduler.Spawn` | crap_os/src/task_scheduler/scheduler.rs:625-643 | refines the model spawn: slot, thread, ready entry, id; the error cases change nothing |
| `Kernel.Scheduler.RemoveTask` | crap_os/src/task_scheduler/scheduler.rs:350-379 | empties the slot if the id resolves, and steps its generation |
| `Kernel.Scheduler.PopReady` | crap_os/src/task_scheduler/scheduler.rs:688-721 | the candidate loop delivers the first resolvable Ready id, or idle, and removes exactly the entries before it |
| `Kernel.Scheduler.Schedule` | crap_os/src/task_scheduler/scheduler.rs:658-845 | refines the model switch: pick, requeue the outgoing task, mark the incoming one, restart the quantum |
| `Kernel.Scheduler.Wake` | crap_os/src/task_scheduler/scheduler.rs:974-996 | a Blocked task becomes Ready and is pushed; any other id changes nothing |
| `Kernel.Scheduler.MarkBlocked` | crap_os/src/task_scheduler/scheduler.rs:923-950 | the locked half of `yield_blocked` |
| `Kernel.Scheduler.Sleep` | crap_os/src/task_scheduler/scheduler.rs:1130-1180 | the entry is added and the caller blocked before the switch |
| `Kernel.Scheduler.ExitCurrent` | crap_os/src/task_scheduler/task.rs:743-786 | the current task becomes Dying and is queued for the reaper, then switched away from |
| `Kernel.Scheduler.WakeSleepers` | crap_os/src/task_scheduler/sleep_queue.rs:186-237 | the wake loop of a tick wakes the model list in order |
| `Kernel.Scheduler.KillTask` | crap_os/src/task_scheduler/scheduler.rs:1027-1066 | refines the packed-id kill, with the force flag for the current task |
| `Kernel.Scheduler.DrainSystemTasks` | crap_os/src/system_core/system_task_queue.rs:178-194 | runs the queued kills in order until the ring is empty |
| `Kernel.Scheduler.TombstoneCleanup` | crap_os/src/task_scheduler/reaper.rs:339-374 | removes the tombstoned tasks in order until the ring is empty |
| `Kernel.Scheduler.ReapDyingTasks` | crap_os/src/task_scheduler/reaper.rs:281-324 | moves each Dying task to Dead and to the tombstones, until the ring is empty |
| `Kernel.Scheduler.CountTick` | crap_os/src/task_scheduler/scheduler.rs:876-907 | after the wake loop the quantum counts down; it reports expiry exactly if at most one tick was left, and reloads |
| `Kernel.Scheduler.TimerTick` | crap_os/src/processor_control/idt.rs:846-888 | the whole handler, in its order, refines the model tick |
| `Kernel.Scheduler.RequestExit` | crap_os/src/process_manager/thread.rs:245-261 | queues one kill for the thread unless it is already Dying or Dead; a full ring drops it |
| `PageWords.SamePageIff` | crap_os/src/memory_manager/vmm.rs:113-146 | two addresses have the same four indices if and only if they agree on bits 47 to 12 |
| `PageWords.TranslationIsExactIff` | crap_os/src/memory_manager/vmm.rs:166-207 | the base of a leaf is the mapped frame if and only if the flags carry no bit above the low twelve that the frame lacks |
| `PageWords.NxLeaksIntoTheAddress` | crap_os/src/memory_manager/vmm.rs:205-207 | with the no-execute flag the reported address is never the frame |
| `PageWords.LeafLow` | crap_os/src/memory_manager/vmm.rs:142-145 | the low twelve bits of a written entry are the flags and present |
| `PageWords.LeafBase` | crap_os/src/memory_manager/vmm.rs:142-145 | the other bits are those of the frame and of the flags |
| `Paging.EmptyIffUnneeded` | crap_os/src/memory_manager/vmm.rs:227-234 | a table has no present entry if and only if no mapped page needs it |
| `Paging.NewTable` | crap_os/src/memory_manager/vmm.rs:52-85 | hanging a zeroed frame below a table keeps the tables a tree with no frame shared |
| `Paging.SetLeaf` | crap_os/src/memory_manager/vmm.rs:113-146 | writing a leaf changes the translation of one page only |
| `Paging.ClearLeaf` | crap_os/src/memory_manager/vmm.rs:259-334 | clearing a leaf unmaps one page only |
| `Paging.CutTable` | crap_os/src/memory_manager/vmm.rs:301-330 | cutting off an empty table keeps the tree |
| `Paging.CanonicalAfterMap` | crap_os/src/memory_manager/vmm.rs:113-146 | after mapping, the tables are exactly those that some mapped page needs |
| `Paging.PathUndone` | crap_os/src/memory_manager/vmm.rs:301-330 | the frames of a path, pushed back bottom-up, are the list they were popped from |
| `PageRights.WalkInTree` | crap_os/src/memory_manager/vmm.rs:166-207 | the four entries the processor reads, indexed by bits 47-39, 38-30, 29-21 and 20-12, are those of the tables as far as they exist |
| `PageRights.WritableIff` | crap_os/src/memory_manager/vmm.rs:121-125 | every table is writable, so a page is if and only if its own entry is |
| `PageRights.MappedAs` | crap_os/src/memory_manager/vmm.rs:113-146 | the rights after a mapping, from the entries before it |
| `PageRights.UnmappedAs` | crap_os/src/memory_manager/vmm.rs:259-334 | the entries after an unmapping |
| `MemoryManager.Manager.constructor` | crap_os/src/memory_manager/pmm.rs:60-152 | seeding frame by frame gives a free list in reverse order, and an empty address space |
| `MemoryManager.Manager.PushFree` | crap_os/src/memory_manager/pmm.rs:169-179 | the frame becomes the head; the list grows by it; no other frame is written |
| `MemoryManager.Manager.PopFree` | crap_os/src/memory_manager/pmm.rs:195-213 | delivers the head and leaves the tail; none exactly if the list is empty |
| `MemoryManager.Manager.AllocFrame` | crap_os/src/memory_manager/pmm.rs:195-213 | the frame handed out was free, is in no table and was not handed out before |
| `MemoryManager.Manager.FreeFrame` | crap_os/src/memory_manager/pmm.rs:169-179 | a frame handed out returns to the head; all frames still out keep their contents |
| `MemoryManager.Manager.WriteData` | crap_os/src/memory_manager/pmm.rs:195-213 | whatever an owner writes into its frame leaves free list, tables and translation intact |
| `MemoryManager.Manager.GetOrCreate` | crap_os/src/memory_manager/vmm.rs:52-85 | delivers the child table, creating it from the head of the free list if it is missing; fails exactly if it is missing and the list is empty; a new entry is writable, and open to user mode exactly if asked for, an old one stays as it is, and no other present entry changes |
| `MemoryManager.Manager.MapPage` | crap_os/src/memory_manager/vmm.rs:113-146 | the map of pages changes at one page; exactly the missing tables are taken from the list, top-down; succeeds if and only if there are enough frames. What the processor then reads for the address: it resolves to the frame, is writable if and only if the flags say so, and open to user mode if and only if the flags say so, the tables that were there are, and the missing ones were created for it; all other pages read as before |
| `MemoryManager.Manager.ProcessorAgrees` | crap_os/src/memory_manager/vmm.rs:113-146 | after any operations the processor resolves exactly the mapped pages, to their words, and lets exactly those be written whose word says so |
| `MemoryManager.Manager.Translate` | crap_os/src/memory_manager/vmm.rs:166-207 | agrees with the finite map of mapped pages and with the entries the processor reads |
| `MemoryManager.Manager.IsTableEmpty` | crap_os/src/memory_manager/vmm.rs:227-234 | true exactly if none of the 512 entries is present |
| `MemoryManager.Manager.UnmapPage` | crap_os/src/memory_manager/vmm.rs:259-334 | the page leaves the map and no longer resolves; exactly the tables no page needs return to the list, bottom-up; nothing changes if it was not mapped; all other pages resolve with the same entries as before |
| `MemoryManager.Manager.ReclaimUnneeded` | crap_os/src/memory_manager/vmm.rs:301-330 | one level of the reclamation: the table goes if and only if no mapped page needs it |
| `MemoryManager.Manager.MapThenUnmap` | crap_os/src/memory_manager/vmm.rs:113-334 | mapping and unmapping an unmapped page restores the page map, the tables and the free list as the identical sequence |
| `MemoryManager.Manager.RunOps` | crap_os/src/memory_manager/vmm.rs:113-334 | after any sequence of maps and unmaps the address space is that of the plain finite map, and owned frames are untouched; three frames per operation always suffice |
| `MemoryManager.Manager.UnmapForFree` | crap_os/src/memory_manager/manager.rs:356-369 | for every mapped page: the address that will be freed is the translation, and is the frame if and only if the virtual address is page-aligned and the flags leak nothing |
| `MemoryManager.Manager.UnmapAndFree` | crap_os/src/memory_manager/manager.rs:356-369 | for an aligned address and an owned frame: the page is unmapped and its frame is the new head |
| `BootMemory.OverlapsIff` | crap_os/src/memory_manager/pmm.rs:233-237 | the overlap predicate is true exactly if a byte is shared, or the page starts where the region ends, or holds an empty region |
| `BootMemory.FreedIff` | crap_os/src/memory_manager/pmm.rs:95-152 | a page is freed if and only if it is a non-zero page of a selected descriptor and overlaps no protected region |
| `BootMemory.UsableIff` | crap_os/src/memory_manager/pmm.rs:105-150 | a page is usable if and only if it is not null, shares no byte with a protected region, and neither starts where one ends nor holds an empty one |
| `BootMemory.FreedByKind` | crap_os/src/memory_manager/vmm.rs:815-854 | a page is freed at initialisation if and only if it is usable and conventional, and at the reclamation if and only if it is usable and loader or boot-services memory; no other kind is ever freed |
| `BootMemory.FreedIsDescribed` | crap_os/src/memory_manager/vmm.rs:815-854 | and no page outside the descriptors |
| `BootMemory.FreedIsSafe` | crap_os/src/memory_manager/pmm.rs:95-152 | for a map of disjoint aligned descriptors no page is freed twice, none is null, all are aligned, none shares a byte with a protected region |
| `BootMemory.NoDoubleFree` | crap_os/src/memory_manager/vmm.rs:794-854 | the later reclamation frees no page the boot phase freed |
| `BootMemory.FreePages` | crap_os/src/memory_manager/pmm.rs:95-152 | the nested loops free exactly that sequence of pages |
| `BootFrames.WordsDiffer` | crap_os/src/memory_manager/pmm.rs:169-179 | distinct addresses below 2^64 are distinct words |
| `BootFrames.FrameWord` | crap_os/src/memory_manager/pmm.rs:169-179 | an aligned non-zero address is a frame word |
| `BootFrames.StartManager` | crap_os/src/memory_manager/pmm.rs:60-152 | hence the pages freed at boot are what the frame list may start from |
| `HeapModel.InsertCovers` | crap_os/src/memory_manager/kernel_heap.rs:301-379 | insertion with both merges makes exactly the bytes of the block free, besides those that were |
| `HeapModel.InsertNormal` | crap_os/src/memory_manager/kernel_heap.rs:301-379 | it keeps the list sorted, disjoint and fully coalesced |
| `HeapModel.NormalFormIsUnique` | crap_os/src/memory_manager/kernel_heap.rs:343-378 | a coalesced list is determined by the set of its bytes |
| `HeapModel.CutCovers` | crap_os/src/memory_manager/kernel_heap.rs:472-508 | after an allocation exactly the bytes cut off, and a remainder too small for a node, are no longer free |
| `HeapModel.GivingBackRestoresIff` | crap_os/src/memory_manager/kernel_heap.rs:568-586 | giving the cut block back restores the identical list if and only if the remainder was 0 or at least 16 bytes |
| `HeapRuns.GrowthFits` | crap_os/src/memory_manager/kernel_heap.rs:451-465 | the region just committed, merged or not, fits the request it was committed for |
| `HeapRuns.GrowKeeps` | crap_os/src/memory_manager/kernel_heap.rs:232-277 | growing keeps the heap invariant |
| `HeapRuns.TakeKeeps` | crap_os/src/memory_manager/kernel_heap.rs:472-530 | cutting a block keeps it |
| `HeapRuns.ReleaseKeeps` | crap_os/src/memory_manager/kernel_heap.rs:568-586 | releasing any live block keeps it |
| `HeapSafety.AllocSucceeds` | crap_os/src/memory_manager/kernel_heap.rs:442-537 | an allocation grows at most once and then succeeds; the data area has exactly the requested size |
| `HeapSafety.AllocGrowsLeast` | crap_os/src/memory_manager/kernel_heap.rs:442-465 | an allocation commits nothing if some free block is large enough, and otherwise the least multiple of the page size that holds it and is at least four pages; it is possible if and only if that stays in range |
| `HeapSafety.RunKeeps` | crap_os/src/memory_manager/kernel_heap.rs:442-586 | over every run: free list sorted, coalesced and in range; live blocks disjoint from each other and from it; free + live + lost bytes equal the committed ones |
| `HeapSafety.LiveDataIsPrivate` | crap_os/src/memory_manager/kernel_heap.rs:442-586 | no byte of a live data area belongs to another live block or to a free one |
| `HeapSafety.StepLoses` | crap_os/src/memory_manager/kernel_heap.rs:494-508 | a step loses fewer than 16 bytes, an allocation at most one remainder, a release none |
| `HeapSafety.LostNeverReturns` | crap_os/src/memory_manager/kernel_heap.rs:494-508 | lost bytes never come back, in any run |
| `HeapSafety.WholeAgainIff` | crap_os/src/memory_manager/kernel_heap.rs:343-378 | when everything is released the heap is one block again if and only if nothing was lost |
| `HeapAlignment.UndoneIff` | crap_os/src/memory_manager/kernel_heap.rs:442-586 | releasing an allocation at once restores the free list if and only if no growth was needed and the chosen block left 0 or at least 16 bytes |
| `HeapAlignment.RemainderIsLost` | crap_os/src/memory_manager/kernel_heap.rs:442-586 | 16367 bytes from a fresh four-page heap, released again: one byte is lost for good and the free list is one byte short |
| `HeapAlignment.AlignedIff` | crap_os/src/memory_manager/kernel_heap.rs:410-421 | the data address is aligned if and only if the block that first fit chose starts aligned |
| `HeapAlignment.AlignmentCanFail` | crap_os/src/memory_manager/kernel_heap.rs:396-421 | one byte and then an eight-byte word from a fresh heap: the second address is odd |
| `HeapAlignment.RegularRuns` | crap_os/src/memory_manager/kernel_heap.rs:410-534 | with sizes in multiples of 16 and alignments up to 16 nothing is lost and every address is 16-aligned, in every run |
| `HeapAlignment.RegularRunsEndWhole` | crap_os/src/memory_manager/kernel_heap.rs:343-378 | and releasing everything leaves one single block, however often the heap grew |
| `ByteMemory.WriteThenRead` | crap_os/src/memory_manager/kernel_heap.rs:301-379 | a word reads back what was written; words that do not overlap it are unchanged |
| `HeapNodes.InsertAt` | crap_os/src/memory_manager/kernel_heap.rs:310-378 | splicing at the place of the walk, then merging forward and backward, is the model insertion |
| `HeapNodes.LinkedSpliced` | crap_os/src/memory_manager/kernel_heap.rs:326-341 | the node writes of the splice turn the linked list into the spliced one |
| `HeapNodes.LinkedMerged` | crap_os/src/memory_manager/kernel_heap.rs:343-378 | the two writes of a merge turn it into the merged one |
| `KernelHeap.KernelHeap.constructor` | crap_os/src/memory_manager/kernel_heap.rs:201-208 | an empty heap with nothing committed |
| `KernelHeap.KernelHeap.FindPlace` | crap_os/src/memory_manager/kernel_heap.rs:316-324 | the two-pointer walk stops at the first node not below the block |
| `KernelHeap.KernelHeap.InsertFreeBlock` | crap_os/src/memory_manager/kernel_heap.rs:301-379 | the list in memory becomes the model insertion; bytes outside the block and the free list are untouched |
| `KernelHeap.KernelHeap.Grow` | crap_os/src/memory_manager/kernel_heap.rs:232-277 | refines the model growth; live bytes are untouched |
| `KernelHeap.KernelHeap.FindOrGrow` | crap_os/src/memory_manager/kernel_heap.rs:442-470 | the search loop with restart terminates, grows at most once and delivers the first fit with its predecessor |
| `KernelHeap.KernelHeap.TakeBlock` | crap_os/src/memory_manager/kernel_heap.rs:472-530 | unlinking, returning the remainder and writing header and back-pointer refine the model cut |
| `KernelHeap.KernelHeap.Allocate` | crap_os/src/memory_manager/kernel_heap.rs:442-537 | refines the model allocation and leaves every byte of every live block as it was |
| `KernelHeap.KernelHeap.Deallocate` | crap_os/src/memory_manager/kernel_heap.rs:568-586 | finds the block through the word before the data, refines the model release, leaves every other live byte |
| `KernelHeap.KernelHeap.WriteByte` | crap_os/src/memory_manager/kernel_heap.rs:442-537 | whatever a caller writes into its data area leaves list, headers and back-pointers intact |
| `GaloisField.RingLaws` | crap_os/src/crypto/cipher/aes/aes_gcm.rs:166-215 | the product is commutative, associative and distributive, has unit x^0, and x acts as the shift with reduction |
| `GaloisField.Reduction` | crap_os/src/crypto/cipher/aes/aes_gcm.rs:166-215 | x^128 is x^7 + x^2 + x + 1 |
| `GaloisField.GhashEvaluates` | crap_os/src/crypto/cipher/aes/aes_gcm.rs:106-136 | GHASH is the polynomial with the blocks as coefficients, evaluated at H (section 6.4 of NIST SP 800-38D) |
| `GaloisField.GhashLinear` | crap_os/src/crypto/cipher/aes/aes_gcm.rs:106-136 | GHASH is XOR-linear in state and blocks |
| `GfMultiply.NextTimesX` | crap_os/src/crypto/cipher/aes/aes_gcm.rs:197-206 | the two-word shift with the 0xe1 constant multiplies by x |
| `GfMultiply.Multiply` | crap_os/src/crypto/cipher/aes/aes_gcm.rs:166-215 | the 128-step loop computes the field product of section 6.3 |
| `AesGcm.Inc32Counts` | crap_os/src/crypto/cipher/aes/aes_gcm.rs:247-251 | the low four bytes count modulo 2^32, the other twelve stay |
| `AesGcm.CountersDistinctIff` | crap_os/src/crypto/cipher/aes/aes_gcm.rs:231-251 | mask counter and n data counters are pairwise distinct if and only if n < 2^32 |
| `AesGcm.BytesHashLinear` | crap_os/src/crypto/cipher/aes/aes_gcm.rs:123-136 | the hash of the XOR of two messages of one length is the XOR of their hashes, through block loop and padding |
| `AesGcm.GhashState.Update` | crap_os/src/crypto/cipher/aes/aes_gcm.rs:106-115 | adds the block to the state and multiplies by H |
| `AesGcm.GhashState.UpdateBytes` | crap_os/src/crypto/cipher/aes/aes_gcm.rs:123-136 | hashes whole blocks and a zero-padded rest |
| `AesGcm.ApplyKeystream` | crap_os/src/crypto/cipher/aes/aes_gcm.rs:294-317 | in place, byte i is XORed with byte i mod 16 of the cipher of counter i / 16; nothing before the start changes |
| `AesGcm.ComputeTag` | crap_os/src/crypto/cipher/aes/aes_gcm.rs:339-372 | the loop computes the tag that `AesGcm.TagIsStandard` describes |
| `AesGcm.TagIsStandard` | crap_os/src/crypto/cipher/aes/aes_gcm.rs:339-372 | section 7.1 of SP 800-38D with empty associated data: the tag is the polynomial with the zero-padded ciphertext blocks and the length block as coefficients, at the cipher of the zero block, masked with the cipher of J0 |
| `AesGcm.LengthBlockHolds` | crap_os/src/crypto/cipher/aes/aes_gcm.rs:352-357 | the length block holds eight zero bytes and the number of bits as a big-endian word |
| `AesGcm.FirstCounter` | crap_os/src/crypto/cipher/aes/aes_gcm.rs:231-237 | J0 is the nonce and the number one |
| `AesGcm.ConstantTimeEq` | crap_os/src/crypto/cipher/aes/aes_gcm.rs:391-397 | true if and only if the tags are equal |
| `AesGcm.Encrypt` | crap_os/src/crypto/cipher/aes/aes_gcm.rs:423-456 | tag, nonce, ciphertext |
| `AesGcm.Decrypt` | crap_os/src/crypto/cipher/aes/aes_gcm.rs:482-517 | too short, wrong tag, or the plaintext |
| `AesGcm.OpensWhatWasSealed` | crap_os/src/crypto/cipher/aes/aes_gcm.rs:423-517 | decryption inverts encryption for every cipher, nonce and plaintext |
| `AesGcm.SealedIsStandard` | crap_os/src/crypto/cipher/aes/aes_gcm.rs:423-454 | the message is tag, nonce and ciphertext; ciphertext byte i is plaintext byte i under the cipher of the nonce with counter 2 + i / 16; the tag is over the ciphertext, with counter one |
| `AesGcm.OpensIffSealed` | crap_os/src/crypto/cipher/aes/aes_gcm.rs:482-517 | a message opens to a plaintext if and only if it is the encryption of that plaintext under the nonce it carries; it is too short if and only if it has fewer than 28 bytes |
| `AesGcm.OneTagOnly` | crap_os/src/crypto/cipher/aes/aes_gcm.rs:482-517 | of two messages that differ in the tag only, at most one is accepted |
| `Blake2b.AbsorbedIsStandard` | crap_os/src/crypto/hash/blake2b.rs:170-220 | section 3.3 of RFC 7693: every block but the last goes through the compression function with the bytes up to its end as the counter and without the flag, the last one, filled up with zeros, with the length of the message and with the flag |
| `Blake2b.DigestIsStandard` | crap_os/src/crypto/hash/blake2b.rs:201-223 | byte k of the digest is byte k modulo 8, least significant first, of word k / 8 of the last chaining value |
| `Blake2b.CounterCarries` | crap_os/src/crypto/hash/blake2b.rs:230-235 | the carry of the two-word counter is that of 128-bit addition |
| `Blake2b.State.Update` | crap_os/src/crypto/hash/blake2b.rs:170-192 | going on from the buffer gives, whatever follows, what the whole message gives; a full last block stays in the buffer |
| `Blake2b.State.IncrementCounter` | crap_os/src/crypto/hash/blake2b.rs:230-235 | the counter is the number of bytes modulo 2^128 |
| `Blake2b.State.Finalize` | crap_os/src/crypto/hash/blake2b.rs:201-223 | the digest of everything that was fed |
| `Blake2b.HashPieces` | crap_os/src/crypto/hash/blake2b.rs:170-222 | however a message is cut into pieces, the digest is that of the whole |
| `Blake2b.Keyed` | crap_os/src/crypto/hash/blake2b.rs:117-159 | a key counts as a first block padded with zeros |
| `Blake2b.Variable` | crap_os/src/crypto/hash/blake2b.rs:436-481 | exactly tau bytes if and only if tau >= 1; one byte for tau = 0 |
| `Blake2b.VariableIsStandard` | crap_os/src/crypto/hash/blake2b.rs:436-481 | section 3.3 of RFC 9106: up to 64 bytes one digest of the length word and the input; beyond, bytes 32i to 32i + 31 are the first 32 bytes of the (i + 1)-th chained 64-byte digest and the rest is one digest of the last of them |
| `Blake2b.Rounds` | crap_os/src/crypto/hash/blake2b.rs:452-476 | the tail of a long output has 33 to 64 bytes |
| `Blake2b.HPrime` | crap_os/src/crypto/hash/blake2b.rs:436-481 | the loop computes the chain of section 3.3 of RFC 9106 |
| `Base64.DigitIff` | crap_os/src/helper_functions.rs:458-466 | the alphabet is a bijection between 64 values and 64 characters |
| `Base64.PackedSplit` | crap_os/src/helper_functions.rs:384-396 | the shifts and masks cut three packed bytes into the right sextets |
| `Base64.PackedMerge` | crap_os/src/helper_functions.rs:502-514 | the shifts cut four packed sextets into the right bytes |
| `Base64.BytesReturn` | crap_os/src/helper_functions.rs:375-546 | bytes to sextets and back is the identity |
| `Base64.DecodesBoth` | crap_os/src/helper_functions.rs:375-546 | the decoder inverts the padded and the unpadded encoder on every byte string |
| `Base64.EncodedIsStandard` | crap_os/src/helper_functions.rs:375-445 | section 4 of RFC 4648, letter by letter: the table, the order of the bits, the number of letters, the padding |
| `Base64.DecodedIsStandard` | crap_os/src/helper_functions.rs:488-546 | and back, byte by byte: bits beyond the last whole byte are ignored |
| `Base64.AcceptedIff` | crap_os/src/helper_functions.rs:488-546 | a text decodes if and only if, without trailing padding, it is in the alphabet and its length is not 1 modulo 4 |
| `Base64.TrimmedPads` | crap_os/src/helper_functions.rs:488-492 | any number of padding characters is the same as none |
| `Base64.TrimmedIs` | crap_os/src/helper_functions.rs:488-492 | exactly the padding characters at the end are taken off |
| `Base64.ReencodesIff` | crap_os/src/helper_functions.rs:488-546 | decoding and encoding gives the text without its padding back if and only if the unused bits of its last group are zero |
| `Base64.Encode` | crap_os/src/helper_functions.rs:375-416 | the loop computes the encoding |
| `Base64.EncodePadded` | crap_os/src/helper_functions.rs:431-445 | and pads it to a multiple of four |
| `Base64.Decode` | crap_os/src/helper_functions.rs:488-546 | the loop with early exits computes the decoding |
| `Hex.ParsesIff` | crap_os/src/helper_functions.rs:262-358 | the hexadecimal parser inverts the printer if and only if the byte string is not empty |
| `Hex.ShownDigit` | crap_os/src/helper_functions.rs:262-276 | two upper-case digits for each byte, the high one first |
| `Hex.ParsesUpper` | crap_os/src/helper_functions.rs:278-358 | the case of digits and prefix does not matter |
| `Hex.ParsesOdd` | crap_os/src/helper_functions.rs:319-358 | an odd number of digits is read with a leading zero |
| `Hex.AcceptedIff` | crap_os/src/helper_functions.rs:278-358 | accepted are one or more digits, with or without a prefix |
| `Hex.ToHex` | crap_os/src/helper_functions.rs:262-276 | the loop prints prefix and digits |
| `Hex.FromHex` | crap_os/src/helper_functions.rs:319-358 | prefix, odd digit counts, the empty text and bad digits as in the reference |
| `Decimal.ParsesWhatIsShown` | crap_os/src/crypto/hash/argon2.rs:999-1054 | parsing inverts printing for every 32-bit number |
| `Decimal.ShownIff` | crap_os/src/crypto/hash/argon2.rs:1037-1054 | printing inverts parsing if and only if there is no leading zero |
| `Decimal.NumberDigit` | crap_os/src/crypto/hash/argon2.rs:999-1014 | digit j from the end is the value divided by 10^j, modulo 10 |
| `Decimal.ParsedIff` | crap_os/src/crypto/hash/argon2.rs:999-1014 | accepted are one or more digits with a value of at most 4294967295; a leading zero changes nothing |
| `Decimal.ParseU32` | crap_os/src/crypto/hash/argon2.rs:999-1014 | accepts exactly non-empty digit rows with a value below 2^32 |
| `Decimal.ToText` | crap_os/src/crypto/hash/argon2.rs:1037-1054 | the ten-byte buffer suffices and holds the shortest digits |
| `Phc.PhcRoundTrip` | crap_os/src/crypto/hash/argon2.rs:854-945 | decoding an encoded record gives all five fields back; its text, with padded Base64 |
| `Phc.DecodesAssembled` | crap_os/src/crypto/hash/argon2.rs:913-945 | every text of the right shape decodes to the values of its fields |
| `Phc.AcceptedShape` | crap_os/src/crypto/hash/argon2.rs:913-945 | every accepted text is literally of that shape |
| `Phc.JoinSplit` | crap_os/src/crypto/hash/argon2.rs:917-930 | splitting loses nothing |
| `Phc.MemoryCheckIff` | crap_os/src/crypto/hash/argon2.rs:1094-1108 | the memory comparison is the documented one if and only if eight times the lanes does not wrap, or it fails even for the wrapped product |
| `Phc.MemoryCheckCanFail` | crap_os/src/crypto/hash/argon2.rs:1094-1108 | with 2^29 lanes memory cost 0 passes |
| `Phc.VerifiesIff` | crap_os/src/crypto/hash/argon2.rs:1206-1252 | a stored record accepts a password if and only if the core hash of it, under the stored salt and costs, is the stored one |
| `Phc.HashesIff` | crap_os/src/crypto/hash/argon2.rs:1094-1108 | a password is hashed if and only if the five conditions hold, the product taken in 32 bits; the first that fails is the error; the record decodes to salt, costs and core hash |

## Left out

- RingRuns.QueuedExactlyWhenReady: for runs that keep the ring in order; `RingRuns.RunKeepsRingIff` says which do.
- SleepTiming.SleeperIsOnTime: for runs in which nobody wakes the sleeper by hand.
- TaskModel.Spawn: one step; the source writes the task id into the thread after the task is queued, with interrupts on, so a tick in between may see a thread without its task.
- StaleIds.StaleStaysStale: for the ready ring; ids kept elsewhere follow `StaleIds.IdResolvesIff`.
- MemoryManager.Manager.MapPage: when the frames run out the source panics in the middle of the walk; the model then promises nothing but that owned frames are untouched.
- MemoryManager.Manager.FreeFrame: for a frame that is out; the source does not detect a double free.
- MemoryManager.Manager.UnmapAndFree: for aligned addresses and owned frames; `MemoryManager.Manager.UnmapForFree` has the exact condition.
- KernelHeap.KernelHeap.Grow: within the heap's address range; exceeding it and running out of frames are panics, and the mapping of the new pages is that of `MemoryManager.Manager.MapPage`.
- KernelHeap.KernelHeap.Deallocate: for the address of a live allocation, as `GlobalAlloc` demands.
- HeapRuns.DataOffset: rounds with division, for any positive alignment; the source masks, which is the same for powers of two.
- AesGcm.Encrypt: AES itself, its key schedule and its tables are the parameter `aes`.
- Blake2b.State.Update: the compression function, the parameter block and the initial value are parameters.
- Phc.VerifiesIff: `argon2id_raw` is a parameter; the constant-time comparison is plain equality here, its loop is `AesGcm.ConstantTimeEq`.
- Base64.Decode: text is a sequence of characters, not of UTF-8 bytes; both refuse everything outside the alphabet.
- BootMemory.FreePages: the protected regions are a parameter; `reclaim_boot_memory` passes three, `init` four.
- Context switching, entry stubs, GDT, TSS and IDT loading: assembly and register state; a switch is an update of the current id.
- Spinlocks and per-CPU data: locked sections are atomic steps on one CPU; no claim about several CPUs.
- User address spaces that share the upper half, huge pages, the direct map, TLB invalidation and the higher-half switch.
- Argon2 memory filling, AES rounds, SHA-1, SHA-2, SHA-3, MD5, HMAC: fixed round functions with no law beyond published vectors.
- Loader, ACPI, APIC, HPET, serial, framebuffer, keyboard, hardware entropy: firmware and device access.
