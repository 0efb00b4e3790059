# Gale: kernel objects and the gust mini-OS core, in Dafny

Gale is a Rust port of Zephyr kernel objects together with a small mini-OS, "gust".
This project models the parts of it where correctness is a matter of loops, of several
methods together, or of whole runs, and proves what the code is for.

| file | models |
|---|---|
| `Words.dfy` | machine integers, error codes, 32-bit masks seen as sets of bit numbers |
| `Executor.dfy`, `ExecutorRuns.dfy` | the fixed-priority tickless executor and every trace of calls on it |
| `HealthMonitor.dfy` | fault gates, the failsafe state machine and every sequence of its events |
| `Mpu.dfy` | power-of-two and alignment arithmetic, region validation |
| `RegionTable.dfy` | the per-partition region table, its builder, and every sequence of requests |
| `MpuMachine.dfy` | the ARMv7-M PMSAv7 memory protection unit as a register machine, and the compiler from one partition's slots to register writes |
| `MpuSwitch.dfy` | grants and partition switches interleaved, observed after every single register store |
| `WaitQueue.dfy` | the array wait queue as a stable priority queue |
| `Mutex.dfy`, `Semaphore.dfy`, `CondVarFutex.dfy` | the protocols on top of it |
| `MsgQueue.dfy` | the message-queue ring as a bounded deque |
| `MemDomain.dfy` | memory-domain slot accounting |
| `Ipi.dfy`, `SysTick.dfy` | inter-processor interrupt masks, tick arithmetic |

Objects whose methods update fields are classes here, with arrays and loops where the
Rust has them. Each class stands for a value: `View()` of the executor, the monitor, the
region table, the mutex, the semaphore, the message queue and the memory domain; the
arrivals of the wait queue, and so of the condition variable and the futex, which hold
nothing else that changes; the registers of the device. Each method is proved to move
that value as a step function does, and the results over whole runs are lemmas about
those step functions. For the executor, the monitor, the region table, and the table with
the device, a method `Perform` drives the objects through an arbitrary run and ends in the
value the run function gives. Mutex, semaphore and condition variable are also seen as
runs of calls on their wait queue, so what is proved of such runs holds of them.

Where the code and a promise about it differ, the code is modelled and the difference is
stated:

- Removing the null partition (0, 0) from a memory domain matches a cleared slot, so it
  succeeds and lowers the counter, which the specification takes for the number of
  active slots. `NullRemovalCounterexample` is a concrete case,
  `RemoveKeepsGood` the exact condition for one call, and `CounterDrift` the exact effect
  over every run.
- A task without a timer has deadline `u64::MAX`, and `expire` compares with `<=`, so
  `expire(u64::MAX)` wakes it. `NoTimerCounterexample` is a run that ends so, and
  `NoTimerExpires` says it happens at that instant only.
- `expire` disarms nothing. A driver that calls it whenever the armed instant has been
  reached loses nothing (`TicklessIsTicking`), but after the expiry and a round the alarm
  can still be set for an instant gone by: `StaleAlarm` is such a run, `AlarmAfterRound`
  and `AlarmAfterRearming` say exactly when.
- A message put while a reader waits goes past the buffer. `DeliveryInOrder` proves first
  in, first out over every run in which readers wait only on an empty queue;
  `OvertakenMessage` is a run in which one waits on a non-empty queue and the order
  breaks, and `HandOverKeepsOrder` gives the exact condition for one hand-over.
- `unpend_all`, and so `broadcast` and `reset`, are documented to wake each waiter with
  the given value. The code clears the slots and returns the count; no thread is made
  Ready or given the value. `UnpendAllDropsWaiter` and `ResetDropsWaiter` are concrete
  runs. `CallsConserve` and `Semaphores.WaitersConserved` account for every waiter over
  every run, and the two lemmas `WaitersWokenIff` give the exact condition: each waiter
  is waiting or was woken if and only if no clearing call found it waiting.

What is assumed of the surroundings: one poll of a task returns an arbitrary value
(`poll_task` is a foreign function), and a register store does what section B3.5 of the
ARMv7-M Architecture Reference Manual says (`mpu_write` is one), on a unit with eight
regions. What is said of accesses is said of addresses the unit decides about: the same
section exempts the Private Peripheral Bus, which always uses the default map, and makes
System space, from 0xE0000000 up, execute-never whatever the regions say. Error codes are
those of `src/error.rs`.

## Model

| member | source | states |
|---|---|---|
| `Executor.Tasks.constructor` | src/executor.rs:88-110 | a fresh table: every slot Free without a timer, nothing ready |
| `Executor.Tasks.AdmitTask` | src/executor.rs:115-182 | the first Free slot becomes Pending with the priority asked for, and is not ready; every other slot and every other readiness bit is kept; a full table is left alone and answered with the no-slot value; `SlotIsHistory` says what that makes of a slot over every trace |
| `Executor.Tasks.WakeTask` | src/executor.rs:187-230 | readiness gains exactly this task, and only if it is Pending; any handle value is allowed |
| `Executor.Tasks.IsReady` | src/executor.rs:232-237 | the shifted bit test is membership in the ready set |
| `Executor.Tasks.PickNext` | src/executor.rs:245-283 | a ready slot that precedes every other ready slot by (priority, index), or the slot count exactly when nothing is ready |
| `Executor.Tasks.NextDeadline` | src/executor.rs:288-309 | the exact minimum deadline over Pending slots, attained unless there is no timer |
| `Executor.Tasks.SetTaskDeadline` | src/executor.rs:317-347 | only the deadline of a Pending slot changes |
| `Executor.Tasks.ExpireTasks` | src/executor.rs:369-443 | readiness gains exactly the Pending slots whose deadline has come |
| `Executor.Tasks.ConsumeTask` | src/executor.rs:446-491 | readiness loses exactly this slot |
| `Executor.Tasks.DispatchOne` | src/executor.rs:506-517 | a poll that reports completion retires the slot and changes nothing else |
| `Executor.Tasks.PollRound` | src/executor.rs:533-590 | whatever the polls return, the round ends, dispatches exactly the slots ready at entry, each once, strictly sorted by (priority, index), leaves no bit set, and makes Done exactly those whose poll returned 1 |
| `Executor.OrderUnique` | src/executor.rs:245-283 | the dispatch order of a ready set is unique, so the order of a round is determined by the table |
| `Executor.DispatchState` | src/executor.rs:506-517 | for every table, dispatch order and poll results: a slot is Done after the dispatches if one of its own returned 1, and otherwise what it was |
| `ExecutorRuns.NoLostWakeups` | src/executor.rs:659-681 | in every state reachable by any trace a slot is ready if and only if some wake or expiry was delivered to it while Pending and no later consume or round took it; and then it is Pending |
| `ExecutorRuns.RoundDispatchesOwed` | src/executor.rs:533-590 | a round after any trace dispatches exactly the slots owed a wakeup, in the one possible order |
| `ExecutorRuns.AdmissionOrder` | src/executor.rs:115-182 | over every trace used slots form a prefix, Free slots have no timer, and admissions return 0, 1, 2, ... each once, then the no-slot value |
| `ExecutorRuns.SlotIsHistory` | src/executor.rs:115-590 | over every trace each slot is Free until its admission, Done from the round in which it completed and Pending in between; its priority is the one asked for in that admission; its deadline is the last one set while it was Pending |
| `ExecutorRuns.RoundOrder` | src/executor.rs:245-283 | the dispatch order after every trace: lower admitted priority value first, equal ones in the order of admission |
| `ExecutorRuns.ExpiryIsTickless` | src/executor.rs:364-443 | before the next deadline expiry is the identity; from it on it readies a task armed for exactly that instant |
| `ExecutorRuns.NoTimerExpires` | src/executor.rs:369-443 | a Pending task without a timer that is not ready becomes ready by expiry if and only if the instant is the largest value |
| `ExecutorRuns.NoTimerCounterexample` | src/executor.rs:369-443 | a task admitted and never armed is made ready by expiry at the largest instant |
| `ExecutorRuns.NextDeadlineOf` | src/executor.rs:288-309 | every table has a least Pending deadline, or none is armed |
| `ExecutorRuns.TicklessIsTicking` | src/executor.rs:364-368 | over every interleaving of calls and clock instants, expiring only once the next deadline has been reached leaves the state that expiring at every instant leaves, after each step |
| `ExecutorRuns.OneCallIsEnough` | src/executor.rs:369-443 | one expiry at an instant does the work of one at every instant up to it |
| `ExecutorRuns.AlarmAfterRound` | src/executor.rs:286-590 | after an expiry at any instant and a round, whatever the polls return, the next deadline is later than the instant if and only if every task that was due has completed |
| `ExecutorRuns.AlarmAfterRearming` | src/executor.rs:286-590 | with any re-arming calls after the round, it is later if and only if every task still Pending is armed for a later instant, by its last call or else by its old deadline |
| `ExecutorRuns.StaleAlarm` | src/executor.rs:286-590 | a reachable table whose alarm, after the expiry and the round at instant 5, is still set for 5 |
| `ExecutorRuns.PerformOne` | src/executor.rs:113-590 | each call on the table object is the step of the trace semantics |
| `ExecutorRuns.Perform` | src/executor.rs:113-590 | the table object driven through any trace ends in the value the trace semantics gives |
| `HealthMonitor.VoteIsMajority` | src/health_monitor.rs:215-245 | the two-of-three vote passes if and only if some replica differs from all three by at most the tolerance; symmetric in the replicas; never with a negative tolerance |
| `HealthMonitor.AllClearIsEveryGate` | src/health_monitor.rs:250-311 | all-clear holds if and only if the gate of every fault clears |
| `HealthMonitor.Monitor.constructor` | src/health_monitor.rs:532-543 | a fresh monitor is Normal with three credits and no streak |
| `HealthMonitor.Monitor.Fault` | src/health_monitor.rs:548-579 | a fault moves the monitor as the fault step does and keeps its invariant |
| `HealthMonitor.Monitor.TryRestart` | src/health_monitor.rs:588-620 | accepted exactly when Degraded with a credit and all gates clear; a refusal changes nothing |
| `HealthMonitor.Monitor.Quiet` | src/health_monitor.rs:628-649 | a quiet tick moves the monitor as the quiet step does: streak, refill at the fourth, reset on an unclear tick |
| `HealthMonitor.Monitor.IsFailsafeLatched` | src/health_monitor.rs:653-657 | true exactly in the two latched states |
| `HealthMonitorRuns.RunAppend` | src/health_monitor.rs:866-875 | a run over two event sequences is the second run after the first |
| `HealthMonitorRuns.CapacityConserved` | src/health_monitor.rs:902-932 | over every event sequence: 4 x accepted restarts + capacity left + capacity lost == starting capacity + 3 x all-clear quiet ticks, with the loss of every event named |
| `HealthMonitorRuns.RestartRateBound` | src/health_monitor.rs:980-998 | the long-run rate bound on accepted restarts over every event sequence |
| `HealthMonitorRuns.ChatterBounded` | src/health_monitor.rs:1000-1022 | with no all-clear quiet tick, accepted restarts plus credits left never exceed the starting credits |
| `HealthMonitorRuns.RateBoundAttained` | src/health_monitor.rs:980-998 | for every n a run of n rounds accepts 3n restarts on 4n quiet ticks and meets the bound with equality |
| `HealthMonitorRuns.LatchedForever` | src/health_monitor.rs:764-794 | over every run a latched monitor stays latched, keeps its cause, accepts nothing, and is tripped if and only if it was or a HeartbeatLoss or BudgetOverrun occurred |
| `HealthMonitorRuns.DegradedEscalates` | src/health_monitor.rs:695-753 | without an accepted restart a Degraded monitor latches if and only if as many faults as credits have come, and trips if and only if a tripping fault followed those |
| `HealthMonitorRuns.EscalationExact` | src/health_monitor.rs:746-753 | leaving Normal with r credits: latched if and only if r + 1 faults have come, counting the first; tripped if and only if a tripping fault followed those |
| `HealthMonitorRuns.CauseIsHistory` | src/health_monitor.rs:805-811 | over every run, outside Normal the recorded cause is the fault that most recently ended Normal |
| `HealthMonitorRuns.NoSilentClear` | src/health_monitor.rs:588-620 | every run that returns to Normal contains an accepted restart, in Degraded, whose observation is within every limit and clears every gate |
| `HealthMonitorRuns.RestartExact` | src/health_monitor.rs:588-620 | at every point of every run a restart is accepted if and only if the monitor is Degraded and every measurement is within its limit, in numbers; then only state, credits and streak change, otherwise nothing |
| `HealthMonitorRuns.QuietExact` | src/health_monitor.rs:628-649 | at every point of every run: what a quiet tick does to streak and credits, by the measurements in numbers |
| `HealthMonitorRuns.GateIsItsMeasurement` | src/health_monitor.rs:250-300 | the gate of a fault clears if and only if the observation is within limits when all measurements but that fault's are taken as perfect |
| `HealthMonitorRuns.Perform` | src/health_monitor.rs:832-875 | the monitor object driven through any events ends where the run function ends |
| `Binary.ClearLowestOne` | src/mpu.rs:89-113 | n and n - 1 share no bit if and only if n is a power of two |
| `Binary.MaskIsRemainder` | src/mpu.rs:136-154 | masking with a power of two less one is the remainder |
| `MpuRegions.ValidateIsWellFormed` | src/mpu.rs:136-154 | the bitwise checks accept exactly: size a power of two of at least 32, base a multiple of it, end below 4 GiB |
| `MpuRegions.OverlapIsSharedAddress` | src/mpu.rs:169-182 | for non-empty regions the comparison is true if and only if some address lies in both |
| `MpuRegions.RegionsOverlap` | src/mpu.rs:169-182 | computes that comparison without leaving 32 bits |
| `MpuRegions.DisjointOrNested` | src/mpu.rs:136-182 | any two regions that pass validation share no address or one lies inside the other |
| `MpuRegions.ValidateRegionSet` | src/mpu.rs:207-254 | true if and only if every listed region is well-formed and no two share an address |
| `RegionTable.PartUpdate` | src/mpu_switch.rs:227-252 | writing one flat slot changes that slot of that partition and no other partition |
| `RegionTable.CoversUnique` | src/mpu_switch.rs:975-1001 | at most one slot of a partition contains an address |
| `RegionTable.DisjointIsNoSharedAddress` | src/mpu_switch.rs:732-767 | for non-empty regions the overlap comparison is passed if and only if no address lies in both |
| `RegionTable.RequestWf` | src/mpu_switch.rs:703-731 | the gates on the request alone accept exactly a known partition, a legal permission pair and a well-formed region |
| `RegionTable.TryAddKeepsInv` | src/mpu_switch.rs:457-478 | every request, accepted or not, keeps the table invariant |
| `RegionTable.Regions.constructor` | src/mpu_switch.rs:489-501 | the fresh table has every slot disabled and satisfies the invariant |
| `RegionTable.Regions.CoversAddr` | src/mpu_switch.rs:908-936 | true if and only if an enabled slot of the partition contains the address |
| `RegionTable.Regions.DisjointFromGrants` | src/mpu_switch.rs:732-767 | true if and only if the overlap comparison, which `DisjointIsNoSharedAddress` characterises, is passed against every enabled slot of the partition |
| `RegionTable.Regions.FindFree` | src/mpu_switch.rs:768-866 | the first disabled slot of the partition, or the slot count when all are enabled |
| `RegionTable.Regions.TryAddRegionPerm` | src/mpu_switch.rs:656-866 | accepts exactly when the gates admit the request and a slot is free, which `BuilderExact` states by addresses and numbers; then fills the first free slot, otherwise changes nothing; keeps the invariant |
| `RegionGrants.BuilderExact` | src/mpu_switch.rs:457-501 | after every request sequence the invariant holds, each partition's slots are its grants in order followed by free slots, and the next request is accepted if and only if it is well-formed and of a legal permission pair, in numbers, shares no address with anything granted to its partition, and fewer than eight were |
| `RegionGrants.CoverageIsGrants` | src/mpu_switch.rs:612-628 | an address is covered if and only if some grant of the partition contains it |
| `RegionGrants.CoverageGrowsByRequest` | src/mpu_switch.rs:656-866 | one more request grows coverage by exactly its range in its own partition, and only if admitted |
| `RegionGrants.Perform` | src/mpu_switch.rs:656-866 | the table object fed any requests holds the table the builder function gives |
| `MpuProgram.SizeFieldExact` | src/mpu_switch.rs:370-411 | for every well-formed size, 2 to the power SIZE + 1 is that size |
| `MpuProgram.RasrFields` | src/mpu_switch.rs:330-430 | the emitted RASR decodes to enable, that SIZE and AP, no subregion disabled, no attribute and no execute-never bit |
| `MpuProgram.EncodeSlot` | src/mpu_switch.rs:506-591 | the write for one flat slot: its base and RASR, or zeros when disabled |
| `MpuProgram.ProgramPartition` | src/mpu_switch.rs:506-591 | the ten-write program: disable first, one write per hardware region in order, enable last |
| `MpuProgram.BaseIsPlainRbar` | src/mpu_switch.rs:457-478 | a well-formed base has RBAR's VALID bit clear, so RNR is never overridden |
| `MpuProgram.PlainStores` | src/mpu_switch.rs:114-144 | the three stores of one write set one register pair and nothing else |
| `MpuProgram.HitIsContains` | src/mpu_switch.rs:361-430 | the compiled registers of a slot match an address if and only if the slot contains it |
| `MpuProgram.CompiledPermits` | src/mpu_switch.rs:330-430 | the compiled AP field permits an access if and only if the slot was asked to grant it, privileged and unprivileged, read, write and fetch |
| `MpuProgram.ProgramCorrect` | src/mpu_switch.rs:506-591 | from every register file, however stale, emitting the program leaves the unit on and allowing exactly the accesses the partition's slots permit |
| `MpuSwitch.ApplyProgram` | src/mpu_switch.rs:1022-1032 | the emission loop performs all stores of the program in order |
| `MpuSwitch.SwitchToPartition` | src/mpu_switch.rs:597-604 | after the call the unit is on and enforces exactly the partition's slots of the table |
| `MpuSwitch.OffDuringSwitch` | src/mpu_switch.rs:546-591 | after each store of a switch but the last, from any prior state, the unit is off |
| `MpuSwitch.NeverMixed` | src/mpu_switch.rs:546-604 | over every run of switches that starts with the unit off, at every single register store: it is on exactly after the last store of a switch, and then enforces exactly that switch's map |
| `MpuSwitch.OnlyGrantedAccess` | src/mpu_switch.rs:597-866 | over every interleaving of region requests and switches, at every register store: the unit is on exactly after the last store of a switch, and then an access passes if and only if a request granted to that switch's partition before it covers the address and asked for that access |
| `MpuSwitch.Perform` | src/mpu_switch.rs:597-866 | the table and device objects driven through any operations make the stores that theorem is about |
| `WaitQueues.HeadIsFirstMin` | plain/mutex.rs:118-162 | after any arrivals the head is the earliest of the most urgent, and the rest is the queue of the other arrivals |
| `WaitQueues.SortedIsOrdered` | plain/mutex.rs:139-162 | the queue is in priority order and holds exactly the arrivals |
| `WaitQueues.QueueRefines` | plain/mutex.rs:118-172 | over every sequence of pend, unpend-first and unpend-all the queue gives the replies of a stable priority queue and holds what it holds |
| `WaitQueues.CallsConserve` | plain/mutex.rs:118-172 | over every sequence of calls, for each thread: times it came to wait == times still waiting + times returned woken + times dropped by unpend-all |
| `WaitQueues.WaitersWokenIff` | src/wait_queue.rs:407-416 | each thread that came to wait is waiting or was woken if and only if no unpend-all found it waiting |
| `WaitQueues.UnpendAllDropsWaiter` | src/wait_queue.rs:407-416 | the run in which one thread waits and the queue is cleared: the reply counts it and it is not woken |
| `WaitQueues.LineIsProper` | src/wait_queue.rs:90-110 | over every sequence of calls in which no waiting thread pends again, the queue stays in priority order without repetition |
| `WaitQueues.PlaceInLine` | plain/mutex.rs:118-172 | over every such sequence a waiter neither woken nor cleared away stands exactly at its earlier place, plus one for each more urgent arrival, less one for each service |
| `WaitQueues.TurnComesExactly` | plain/mutex.rs:118-172 | a waiter at place k is woken at exactly the service preceded by k others and one more for each thread that overtook it |
| `WaitQueues.WaitQueue.constructor` | plain/mutex.rs:91-117 | a fresh queue is empty in every slot |
| `WaitQueues.WaitQueue.UnpendFirst` | plain/mutex.rs:118-138 | removes and wakes the earliest of the most urgent threads; slots past the length stay empty |
| `WaitQueues.WaitQueue.Pend` | plain/mutex.rs:139-162 | adds the thread behind its equals, or refuses when full; slots past the length stay empty |
| `WaitQueues.WaitQueue.UnpendAll` | plain/mutex.rs:163-172 | empties every slot, returns how many waited, and drops them: the clearing step of the accounts above |
| `WaitQueues.WaitQueue.ShiftDown` | plain/mutex.rs:118-138 | the in-place shift moves every entry but the first down by one |
| `WaitQueues.WaitQueue.ShiftUp` | plain/mutex.rs:139-162 | the in-place shift opens exactly the insertion slot |
| `WaitQueues.WaitQueue.FindPos` | plain/mutex.rs:139-162 | the insertion slot is before the first less urgent entry |
| `Mutexes.StepKeepsInv` | src/mutex.rs:84-90 | every legal call keeps: an owner exactly while the count is positive, waiters only while owned, waiters Blocked, distinct and never the owner |
| `Mutexes.RunKeepsInv` | src/mutex.rs:84-90 | so does every legal run |
| `Mutexes.CountIsBalance` | plain/mutex.rs:286-365 | in every legal run the count is the owner's acquisitions minus releases since the event by which it took ownership, held ever since |
| `Mutexes.HeldByOwner` | plain/mutex.rs:286-365 | in every legal run the locks a thread holds by the answers given, acquired or handed over and not released, are the count if it is the owner and none otherwise |
| `Mutexes.MutualExclusion` | plain/mutex.rs:286-365 | in every legal run no two threads hold the mutex |
| `Mutexes.AnswersByHolding` | plain/mutex.rs:286-365 | in every legal run a try is refused if and only if another thread holds the mutex; an unlock succeeds if and only if the caller holds it, fails with -22 if and only if nobody does and with -1 if and only if another thread does |
| `Mutexes.HandsOver` | plain/mutex.rs:341-365 | a final unlock hands over to the earliest of the most urgent waiters with count one, and keeps everybody else's place |
| `Mutexes.TurnComesExactly` | plain/mutex.rs:310-365 | over every legal run a waiter at place k is handed the mutex at exactly the hand-over preceded by k others and one more for each thread that overtook it |
| `Mutexes.WaitersConserved` | plain/mutex.rs:310-365 | over every run, for each thread: times blocked == times still waiting + times handed the mutex |
| `Mutexes.LineIs` | plain/mutex.rs:286-365 | the waiters after any run are the wait queue after the calls the run makes on it, in service order |
| `Mutexes.CallsAreEvents` | plain/mutex.rs:310-365 | who joins the queue is who blocks on the mutex, who is woken is who is handed it |
| `Mutexes.Mutex.constructor` | plain/mutex.rs:260-266 | a fresh mutex has no owner, count zero and no waiters |
| `Mutexes.Mutex.TryLock` | plain/mutex.rs:286-300 | acquires exactly when free or already owned by the caller, and counts re-entry |
| `Mutexes.Mutex.LockBlocking` | plain/mutex.rs:310-313 | the caller joins the waiters as Blocked unless the queue is full |
| `Mutexes.Mutex.Unlock` | plain/mutex.rs:341-365 | error for no owner, error for another owner, release, transfer or free, each in exactly its case |
| `Semaphores.RunKeepsInv` | plain/sem.rs:355-439 | every legal run keeps the count within its limit, the limit fixed, waiters only at count zero and all Blocked |
| `Semaphores.PermitsConserved` | plain/sem.rs:355-439 | over every run: initial + gives == count + acquisitions + hand-offs + saturated gives + permits discarded by reset |
| `Semaphores.GiveExact` | plain/sem.rs:355-368 | a give hands over if and only if somebody waits, saturates if and only if nobody does and the count is the limit, and otherwise adds one permit |
| `Semaphores.AnswersByLevel` | plain/sem.rs:355-439 | in every legal run the count is what the answers so far leave; a take is refused if and only if that is zero, a give saturates if and only if it is the limit |
| `Semaphores.WaitersConserved` | plain/sem.rs:355-439 | over every run, for each thread: times waiting at the start + times blocked == times still waiting + times handed a permit + times dropped by a reset |
| `Semaphores.WaitersWokenIff` | plain/sem.rs:429-439 | every thread that waited is waiting or was woken if and only if no reset found it waiting |
| `Semaphores.ResetDropsWaiter` | plain/sem.rs:429-439 | the run in which a thread blocks and the semaphore is reset: it neither waits nor was woken |
| `Semaphores.WaitingIs` | plain/sem.rs:355-439 | the waiters after any run are those left by the calls the run makes on the wait queue |
| `Semaphores.CallsAreEvents` | plain/sem.rs:355-412 | who joins the queue is who blocks on the semaphore, who is woken is who is handed a permit |
| `Semaphores.TurnComesExactly` | plain/sem.rs:355-412 | a waiter at place k is handed a permit at exactly the give preceded by k that found a waiter and one more for each thread that overtook it, if no thread blocks twice and no reset intervenes |
| `Semaphores.GiveServesMostUrgent` | plain/sem.rs:355-368 | a give with waiters wakes the earliest of the most urgent with return value zero and leaves the count alone |
| `Semaphores.Semaphore.constructor` | plain/sem.rs:319-328 | a fresh semaphore has the given count and limit and no waiters |
| `Semaphores.Semaphore.Give` | plain/sem.rs:355-368 | hands over, increments or saturates, in exactly its case |
| `Semaphores.Semaphore.TryTake` | plain/sem.rs:392-399 | takes a permit exactly when there is one |
| `Semaphores.Semaphore.TakeBlocking` | plain/sem.rs:409-412 | the caller joins the waiters as Blocked unless the queue is full |
| `Semaphores.Semaphore.Reset` | plain/sem.rs:435-439 | count zero, the number that waited is returned, and they are dropped: the reset step of the accounts above |
| `Semaphores.InitSemaphore` | plain/sem.rs:319-328 | refuses exactly a zero limit or a count above the limit |
| `Draining.DrainServesInOrder` | plain/mutex.rs:118-138 | n removals return the first n threads in service order, woken, then nothing, and leave the others in their places |
| `CondVars.SignalsEqualBroadcast` | src/condvar.rs:322-331 | as many signals as waiters leave the queue a broadcast leaves, with the same count; the signals wake all of them, in service order |
| `CondVars.SignalsWakeBroadcastDrops` | plain/condvar.rs:285-294 | for each thread: one signal per waiter wakes it as often as it waits, a broadcast wakes it never and drops it that often |
| `CondVars.SameThreadsWokenIff` | src/condvar.rs:322-331 | one signal per waiter and a broadcast wake the same threads if and only if nobody waits |
| `CondVars.CondVar.constructor` | plain/condvar.rs:237-241 | a fresh condition variable has no waiters |
| `CondVars.CondVar.Signal` | plain/condvar.rs:261-267 | one removal: wakes the next thread in service order, or reports an empty queue |
| `CondVars.CondVar.Broadcast` | plain/condvar.rs:292-294 | same remaining queue and same count as one signal per waiter; the clearing step of the wait queue's accounts |
| `CondVars.CondVar.WaitBlocking` | plain/condvar.rs:318-321 | the caller joins the waiters as Blocked unless the queue is full |
| `Futexes.Futex.constructor` | src/futex.rs:164-174 | a fresh futex has the given value and no waiters |
| `Futexes.Futex.Wait` | src/futex.rs:199-234 | blocks exactly when the value is the expected one; a mismatch changes nothing |
| `Futexes.Futex.Wake` | src/futex.rs:265-347 | wakes every waiter if asked for all, at most one otherwise: the result array lists exactly the woken threads in service order, the others keep their places, and both counts are those of the scalar decision |
| `MsgQueues.StepRefines` | src/msgq.rs:212-501 | every operation on the ring is the operation of a bounded deque on its contents, with the same reply |
| `MsgQueues.RingRefinesDeque` | src/msgq.rs:166-501 | for every capacity and every sequence of put, put-front, get, peek-at and purge the ring gives the replies of a bounded deque and holds what it holds |
| `MsgQueues.DecideStepAgrees` | src/msgq.rs:696-949 | the scalar decisions make the index moves of the queue's methods, except that a put to a waiting reader moves no index and hands the message over; on the contents, the step of a bounded deque with hand-over |
| `MsgQueues.DecisionsExact` | src/msgq.rs:696-850 | a put blocks the caller if and only if the queue is full and the caller may wait, and wakes a reader if and only if there is room and one waits; a get blocks if and only if the queue is empty and the caller may wait, and wakes a writer if and only if there is a message and one waits |
| `MsgQueues.DecisionsRefineDeque` | src/msgq.rs:696-949 | whatever the reader-waits, writer-waits and no-wait flags, a caller driven by the scalar decisions is the bounded deque with hand-over, over every sequence of operations |
| `MsgQueues.DecisionsAreMethods` | src/msgq.rs:696-949 | while no reader waits that caller drives the very ring the methods drive |
| `MsgQueues.DeliveryInOrder` | src/msgq.rs:696-949 | over every run of puts, gets and peeks in which readers wait only on an empty queue: messages delivered, by hand-over or get, followed by the ring's contents == the old contents followed by the messages sent |
| `MsgQueues.HandOverKeepsOrder` | src/msgq.rs:696-760 | one hand-over keeps that order if and only if every stored message equals the one handed over |
| `MsgQueues.OvertakenMessage` | src/msgq.rs:696-760 | a run in which a reader waits while a message is stored and gets the later one first |
| `MsgQueues.FillThenDrain` | src/msgq.rs:629-638 | from an empty ring at any position, puts that fit followed by as many gets return the messages in order and leave the ring empty with its indices together |
| `MsgQueues.MsgQ.constructor` | src/msgq.rs:166-201 | a fresh queue has the given sizes, both indices zero and no messages |
| `MsgQueues.InitMsgQ` | src/msgq.rs:166-201 | refuses exactly zero sizes and buffers that do not fit 32 bits; otherwise a fresh queue of the given sizes with both indices zero |
| `MsgQueues.MsgQ.PutMsg` | src/msgq.rs:271-303 | returns the slot to fill and moves the ring as an append does, or refuses when full |
| `MsgQueues.MsgQ.PutFrontMsg` | src/msgq.rs:327-358 | returns the slot to fill and moves the ring as a prepend does, or refuses when full |
| `MsgQueues.MsgQ.GetMsg` | src/msgq.rs:384-416 | returns the old read index, the slot of the front message, and removes it, or refuses when empty |
| `MsgQueues.MsgQ.PeekAt` | src/msgq.rs:440-466 | returns the slot of the i-th message, or refuses exactly beyond the last |
| `MsgQueues.MsgQ.PurgeAll` | src/msgq.rs:486-501 | empties the queue and returns how many messages there were |
| `MemDomains.CountFull` | src/mem_domain.rs:266-331 | pigeonhole: as many active slots as slots if and only if no slot is free |
| `MemDomains.OverlapsIsShared` | src/mem_domain.rs:168-214 | for non-empty partitions the overlap comparison is true if and only if some address lies in both |
| `MemDomains.AddExact` | src/mem_domain.rs:266-331 | refused with -28 if and only if it could be added but sixteen are active, with -22 if and only if it is empty, ends beyond 4 GiB or shares an address with an active partition; otherwise the active partitions gain exactly it |
| `MemDomains.RemoveExact` | src/mem_domain.rs:351-409 | with a positive size: succeeds if and only if an active partition has that start and size, and the active partitions lose exactly it; -2 otherwise |
| `MemDomains.RemoveKeepsGood` | src/mem_domain.rs:351-409 | one removal keeps the counter true if and only if it is not (0, 0) or all sixteen slots are active |
| `MemDomains.NullRemovalCounterexample` | src/mem_domain.rs:387-404 | a concrete domain whose counter the removal of (0, 0) falsifies |
| `MemDomains.AddThenRemove` | src/mem_domain.rs:504-518 | adding and then removing restores the domain exactly and names the same slot |
| `MemDomains.CounterDrift` | src/mem_domain.rs:266-409 | over every run the counter is below the number of active slots by exactly the number of null removals |
| `MemDomains.ReachableGood` | src/mem_domain.rs:138-153 | in every reachable domain the counter is true if and only if no null removal was made; an addition is refused for space exactly when counter and null removals make sixteen |
| `MemDomains.MemDomain.constructor` | src/mem_domain.rs:232-244 | a fresh domain has every slot free |
| `MemDomains.MemDomain.CheckAddPartition` | src/mem_domain.rs:168-214 | true if and only if the partition is valid and overlaps no active one |
| `MemDomains.MemDomain.AddPartition` | src/mem_domain.rs:266-331 | the first free slot is filled, or the domain is unchanged with the error of its case |
| `MemDomains.MemDomain.RemovePartition` | src/mem_domain.rs:351-409 | the first matching slot is cleared, or the domain is unchanged |
| `MemDomains.MemDomain.ContainsAddr` | src/mem_domain.rs:471-490 | true if and only if an active partition contains the address, and then exactly one does |
| `Ipi.ComputeIpiMask` | src/ipi.rs:88-142 | bit i is set if and only if CPU i is present, not the current one, active, allowed by the affinity mask and running a less urgent thread |
| `Ipi.ValidateIpiMask` | src/ipi.rs:149-164 | accepts exactly the masks without the current CPU and without a bit from the maximum up |
| `Ipi.ComputeThenValidate` | src/ipi.rs:88-164 | every computed mask is accepted |
| `SysTick.ElapsedIsSteps` | plain/systick.rs:244-250 | after n steps of the down-counter the result is n modulo the reload value, so it is n if and only if n is below it |
| `SysTick.RefusedIff` | plain/systick.rs:367-388 | an announcement is refused if and only if the cycles not yet announced reach 2^32 ticks |
| `SysTick.NeverDrifts` | plain/systick.rs:367-388 | over every run of announcements from a residue below one tick: none is refused, ticks x cycles-per-tick and residue account for every cycle, and the residue stays below one tick |
| `SysTick.TicksFromPowerUp` | plain/systick.rs:367-388 | from power-up the ticks are the whole ticks of the total and the residue its remainder, however the cycles are split over interrupts |
| `SysTick.DetectsIffWrapped` | plain/systick.rs:317-334 | one reading reports a wrap, and adds a turn to the overflow, if and only if there was at least one wrap since the last reading, for readings shorter than a turn |
| `SysTick.CyclesAccounted` | plain/systick.rs:317-388 | over every run of readings and interrupts, cycle count, overflow and last result account for every step since power-up but those of wraps that fell, beyond the first, between two readings |
| `SysTick.ClockKeepsTime` | plain/systick.rs:317-388 | cycle count and last result are together the number of steps since power-up if and only if never two wraps fell between two readings; the ticks are the whole ticks of the cycle count, and after an interrupt the cycle count is that of the whole turns |
| `SysTick.RunsGoThrough` | plain/systick.rs:317-388 | with a 24-bit reload value, an interrupt at least once in 255 readings and cycles that fit 64 bits, no reading and no announcement breaks a demand of the source |

## Left out

- One-counter kernel objects (fifo, lifo, memory slabs and pools, dynamic threads, kernel heap, stack, timer): each keeps one count between zero and a bound.
- Heap and pipe: the free list and the byte ring are in C, only totals are in Rust.
- Fatal and fault decoding, mailbox, IPC, CPU masks, events, atomics, formatted printing: finite tables and single-branch decisions.
- MMU requests and device initialisation: flag checks and one rounding function; the ordering of device levels is not decided by that code.
- C-side effects (copying messages, rescheduling, timeouts, priority inheritance): not visible in the Rust.
- Scalar lock, unlock, give, take and futex-wait decisions, SysTick cycle and tick conversions, field accessors and the region wrapper with default permissions: each is one comparison or one multiplication on its arguments.
- The Private Peripheral Bus and System space exceptions of the memory protection unit, as said above.
- MPU attributes outside access control (caching, sharing), HFNMIENA, and the memory barriers inside one register write.
- Interrupts between the stores of one partition switch: the store sequence itself is observed after every store, its interleaving with other code is not.
- Reading the SysTick registers: COUNTFLAG is taken to be set exactly when the counter wrapped since the last reading, and VAL as the C driver adjusts it, from the reload value down to 1.
- Thread fields other than identity, priority, state and return value.
- MpuProgram.ProgramPartition: builds the ten-write buffer as a value sequence instead of a stack array; it is local to the call, so no aliasing is lost.
- MpuRegions.ValidateRegionSet: the second overflow test of the pairwise phase is not repeated, because the first phase has already rejected every region it could catch.
- WaitQueues.WaitQueue.UnpendAll: does not promise the documented wake of each thread, because the code drops them; `WaitersWokenIff` gives the condition.
- CondVars.CondVar.Broadcast: does not promise that the waiters are woken, for the same reason; `SignalsWakeBroadcastDrops` states what happens to them and `SameThreadsWokenIff` when the promise holds.
- CondVars.SignalsEqualBroadcast: equates queue and count, not the threads woken, for the same reason.
- Semaphores.Semaphore.Reset: does not promise that the waiters are woken with EAGAIN, for the same reason; `Semaphores.WaitersWokenIff` gives the condition.
- HealthMonitor.Monitor.Fault: the source's ranking and potential functions used for its own step lemmas are not modelled; the run results above replace them.
