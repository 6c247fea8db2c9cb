# Thread-Scheduler core in Dafny

This project models the deterministic core of the Thread-Scheduler library, `libscheduler`.
Worker threads call into the library to run on a simulated CPU (`cpu_me`), to use a simulated
I/O device (`io_me`), to wait on and signal counting semaphores (`P`, `V`), and to finish
(`end_me`). While a worker holds the scheduler lock, the library updates a shared state:

- a table of thread control blocks;
- the per-worker MLFQ metadata;
- a ready queue, an I/O queue and five MLFQ level queues;
- a bank of semaphores;
- the CPU clock and the I/O clock;
- the CPU holder and the I/O holder.

One of three policies decides who runs next:

- **FCFS**: the earliest ready tick wins, ties go to the lower id.
- **SRTF**: the least remaining time among the workers that are ready now wins. When nobody is
  ready, the earliest arrival wins and the clock jumps to it.
- **MLFQ**: the first level with a ready-now member wins, choosing by the FCFS rule within that
  level. When nobody is ready, the earliest ceiled tick wins and the clock jumps to it.

## The modules

- `types.dfy`, module `Types`: the records of `scheduler.h` and the constants `MAX_THREADS`
  (128) and the number of MLFQ levels (5). Timestamps are exact reals. `Ceil` and `Trunc` model
  C's `ceil` and its float-to-int conversion.
- `queue.dfy`, module `Queues`: the 128-slot circular queue as a class over an array, with the
  ghost sequence `Contents`. It covers enqueue, dequeue, peek, the in-place shifting removal
  and the removal of a given id.
- `semaphore.dfy`, module `Semaphores`: one semaphore as a class (its counter and its array of
  waiters), with the updates that `P` and `V` make to it.
- `policy.dfy`, module `Policy`: value-level definitions of what each policy chooses.
  - `ArgMin` is the best-so-far scan over a key, with the id as tie-break.
  - `ReadyNow` is the "ready now" filter.
  - `MlfqPick`, `SrtfSelect`, `MlfqSelect` and `Select` define the choices.
  - Lemmas state each rule as the source promises it.
- `scheduler.dfy`, module `Scheduling`: the `Scheduler` class holding the shared state. It
  contains:
  - `init_scheduler` as its constructor;
  - the two clocks;
  - the three selectors, as loops proved against the functions of `Policy`;
  - the MLFQ level helpers.
- `steps.dfy`, module `Steps`: single updates of the shared state that keep the scheduler
  invariant. Examples are handing the CPU to the selector's choice, joining or leaving the I/O
  queue, and the semaphore halves of `P` and `V`. `Granted`, `SetTcb`, `SetMlfqInfo` and
  `SetCpu` are single-assignment helpers: `Granted` is the `next->state = RUNNING` of a
  hand-over, and the three methods each write one field of the state.
- `interface.dfy`, module `Interface`: the handlers of `interface.c`. Each handler is cut at its
  suspension points (the barrier and the condition waits). Each piece that runs under the lock
  between two suspension points is one method. Its contract states the whole new state in
  terms of the old one.

### How the model differs from the code

- **Ids instead of pointers.** The queues, the semaphores and the holders store worker ids
  where the C code stores control-block pointers. The scheduler invariant keeps
  `tcbs[i].tid == i`, so a comparison of `->tid` in the source becomes a comparison of ids.
- **Policy values.** The policy is a datatype with a fourth value, `Unrecognised`. The driver
  passes whatever integer it was given, and `select_next_thread` answers NULL to an unknown
  policy (`libscheduler/scheduler.c:109-112`).
- **MLFQ selector loops.** `select_next_thread_mlfq` first fills all five temporary queues and
  then scans them. The model fills and tests one level at a time. The two orders make the same
  choice, because filling a level reads nothing that a choice changes.
- **More than one worker marked `Running`.** Under MLFQ a new burst clears the CPU holder
  (`libscheduler/interface.c:49`), and under SRTF every request clears it
  (`libscheduler/interface.c:41`). Neither changes the old holder's state. Several workers can therefore be marked `Running`
  at once, although the comment at `libscheduler/interface.c:76` promises one running
  worker at a time. The model follows the code and keeps no such invariant.
- **Initial `remaining_time`.** `init_scheduler` never sets `remaining_time` (the table comes
  from `malloc`). The model sets it to 0. No handler reads it before `cpu_me` writes it
  (`libscheduler/interface.c:14`).

## Model

| member | source | states |
|---|---|---|
| Types.Ceil | libscheduler/interface.c:18 | the result is the least integer not below the time |
| Types.Trunc | libscheduler/scheduler.c:169 | the float-to-int conversion truncates toward zero, for both signs |
| Queues.FirstIndex | libscheduler/scheduler.c:73-80 | the scan stops at the first occurrence of the id, or at the end when there is none |
| Queues.RemoveFirst | libscheduler/scheduler.c:72-85 | the queue after `dequeue_tid_from_q`: one entry shorter exactly when the id occurs, and holding only entries of the old queue |
| Queues.Pushed | libscheduler/scheduler.c:35-41 | the queue after `enqueue`: the old entries stay in place as a prefix; below capacity exactly the id is added at the tail, and at capacity nothing is added |
| Queues.RemoveFirstCutsFirstIndex | libscheduler/scheduler.c:72-85 | removing an id cuts out exactly the entry at its first occurrence and keeps every other entry in order; an absent id leaves the queue as it is |
| Queues.RemoveFirstMultiset | libscheduler/scheduler.c:72-85 | the removal takes away exactly one copy of the id when there is one, and nothing else |
| Queues.ShiftTowardsHead | libscheduler/scheduler.c:61-66 | after the shift loop, the remaining slots read from the head hold the old contents with the removed position cut out |
| Queues.TidQueue.constructor | libscheduler/scheduler.c:29-33 | a new queue is empty, with front 0, rear -1 and count 0, and satisfies the ring invariant `(rear+1) % 128 == (front+count) % 128` |
| Queues.TidQueue.EntryAt | libscheduler/scheduler.c:121-123 | reading slot `(front+i) % 128` yields the `i`-th entry counted from the head |
| Queues.TidQueue.Enqueue | libscheduler/scheduler.c:35-41 | below capacity, the id is appended at the tail; a full queue is left unchanged; the ring invariant is kept |
| Queues.TidQueue.Dequeue | libscheduler/scheduler.c:43-50 | an empty queue yields None and is unchanged; otherwise the old head is returned and the rest stays in FIFO order |
| Queues.TidQueue.Peek | libscheduler/scheduler.c:52-55 | the result is None exactly for an empty queue, and the head otherwise |
| Queues.TidQueue.DequeueAtIndex | libscheduler/scheduler.c:57-70 | an empty queue yields None and is unchanged; otherwise the entry at that physical slot is returned and removed, the others keep their order, and the ring invariant is kept |
| Queues.TidQueue.DequeueTid | libscheduler/scheduler.c:72-85 | the contents become the old contents with the first occurrence of the id removed; an absent id leaves queue and array untouched |
| Semaphores.LowestIndexIsFirstMinimum | libscheduler/interface.c:260-268 | the strict-comparison scan finds the lowest id, at its first occurrence |
| Semaphores.LowestIndex | libscheduler/interface.c:263-268 | V's scan yields an index into the waiter list; `LowestIndexIsFirstMinimum` states which one |
| Semaphores.LowestIndexUnique | libscheduler/interface.c:263-268 | any index that is minimal and has only larger ids before it is the index the scan finds |
| Semaphores.Semaphore.constructor | libscheduler/init.c:39-41 | a new semaphore has value 0 and no waiters |
| Semaphores.Semaphore.TryAcquire | libscheduler/interface.c:195-196 | a unit is taken exactly when the value is positive; the value drops by exactly one; the waiters are untouched |
| Semaphores.Semaphore.Block | libscheduler/interface.c:219 | the worker is appended to the waiter list and the value is unchanged |
| Semaphores.Semaphore.LowestWaiter | libscheduler/interface.c:258-268 | the result is -1 with no waiters; otherwise it is the index of the lowest waiting id, the earliest among equal ids |
| Semaphores.Semaphore.RemoveWaiterAt | libscheduler/interface.c:274-277 | the waiter at the index is removed and the others keep their order |
| Semaphores.Semaphore.Signal | libscheduler/interface.c:258-292 | with waiters, the lowest-id waiter is removed and returned, the rest keep their order and the value is unchanged; with no waiters, the value goes up by one; "a positive value means nobody waits" is kept |
| Policy.ArgMin | libscheduler/scheduler.c:116-136 | the scan returns nobody exactly for an empty queue, and otherwise a member of the queue |
| Policy.ArgMinIsLeast | libscheduler/scheduler.c:121-131 | no entry of the queue precedes the scan's choice by key and then id |
| Policy.ArgMinUnique | libscheduler/scheduler.c:125-126 | with the id as tie-break the least entry is unique, so a member that nothing precedes is the scan's choice |
| Policy.ArrivalScanStep | libscheduler/scheduler.c:125-130 | one step of the FCFS comparison (earlier tick, or same tick and lower id) updates the choice the same way as extending the scanned prefix |
| Policy.CeilScanStep | libscheduler/scheduler.c:271-274 | one step of the fallback comparison on ceiled ticks updates the choice the same way as extending the scanned prefix |
| Policy.ReadyNowSnoc | libscheduler/scheduler.c:151-152 | a new entry survives the filter exactly when its ready tick is not after the clock |
| Policy.ReadyNow | libscheduler/scheduler.c:147-160 | the filter is no longer than the queue and keeps only valid ids; `ReadyNowMembers` states that it keeps exactly the ready-now members |
| Policy.ReadyNowMembers | libscheduler/scheduler.c:147-160 | the filter keeps exactly the members whose ready tick is not after the clock |
| Policy.ReadyNowEmptyIff | libscheduler/scheduler.c:163 | the filter is empty exactly when no member is ready now |
| Policy.Flatten | libscheduler/scheduler.c:267-276 | the fallback walks exactly the members of all five levels |
| Policy.FlattenEmptyIff | libscheduler/scheduler.c:278-285 | the walk over the levels is empty exactly when every level is empty |
| Policy.MlfqPick | libscheduler/scheduler.c:255-263 | a pick is a valid id found at a level from the starting level on; `MlfqPickIsFirstReadyLevel` and `MlfqPickNoneIffNoneReady` state which one |
| Policy.MlfqPickQueued | libscheduler/scheduler.c:255-261 | the MLFQ pick is a worker queued on one of the levels |
| Policy.MlfqPickIsFirstReadyLevel | libscheduler/scheduler.c:255-263 | the MLFQ pick comes from the lowest level with a ready-now member, and it is that level's FCFS choice among the ready members |
| Policy.MlfqPickNoneIffNoneReady | libscheduler/scheduler.c:255-265 | the main MLFQ rule finds nobody exactly when no level has a ready-now member |
| Policy.ClampLevel | libscheduler/scheduler.c:196-197 | the clamped level lies in [0, 4], equals the level when it is already in range, and is the in-range level nearest to it |
| Policy.SrtfSelect | libscheduler/scheduler.c:139-193 | SRTF chooses nobody exactly for an empty ready queue, otherwise a member of it, and never moves the clock back; `SrtfChoosesShortestReady` states the choice and the clock |
| Policy.MlfqSelect | libscheduler/scheduler.c:237-286 | MLFQ chooses nobody exactly when every level is empty, otherwise a worker queued on some level, and never moves the clock back; `MlfqChoosesFirstReadyLevel` and `MlfqFallsBackToEarliestCeil` state the choice and the clock |
| Policy.Select | libscheduler/scheduler.c:101-113 | a chosen id indexes a control block, selection never moves the clock back, and an unknown policy chooses nobody and keeps the clock |
| Policy.FcfsChoosesEarliest | libscheduler/scheduler.c:115-137 | FCFS returns nobody exactly for an empty queue; otherwise it returns a member that no member precedes by ready tick and then id |
| Policy.SrtfChoosesShortestReady | libscheduler/scheduler.c:139-193 | SRTF returns nobody exactly for an empty queue. With a ready-now member, it returns a ready member with the least remaining time (ties to the lower id) and keeps the clock. Otherwise it returns the FCFS choice and moves the clock to its truncated tick |
| Policy.MlfqChoosesFirstReadyLevel | libscheduler/scheduler.c:243-263 | with a ready-now member on some level, the first such level decides by the FCFS rule among its ready members, and the clock is kept |
| Policy.MlfqFallsBackToEarliestCeil | libscheduler/scheduler.c:265-285 | with nobody ready, MLFQ returns nobody exactly when every level is empty. Otherwise it returns a queued worker with the least ceiled tick (ties to the lower id) over all levels, and moves the clock up to that tick |
| Scheduling.DemotedLevel | libscheduler/scheduler.c:204-205 | demotion moves one level down and stays at the bottom level 4 |
| Scheduling.RecordPick | libscheduler/scheduler.c:258 | after a selection only the picked worker's level may change, to the level it was found at and only under MLFQ; no quantum use changes |
| Scheduling.NewControlBlocks | libscheduler/init.c:16-24 | block `i` has id `i`, is ready, has `last_cpu_remaining == -1` and tick and wake time 0 |
| Scheduling.NewMlfqData | libscheduler/init.c:33-37 | all 128 entries have level 0 and no quantum used |
| Scheduling.NewQueueSet | libscheduler/init.c:25-31 | the ready queue, the I/O queue and the five level queues are empty, valid and pairwise separate |
| Scheduling.NewSemaphores | libscheduler/init.c:39-44 | every semaphore has value 0 and no waiters, and no two share storage |
| Scheduling.FilterStep | libscheduler/scheduler.c:147-160 | each step of the candidate filter keeps the written prefix equal to the ready-now members seen so far |
| Scheduling.FilterDone | libscheduler/scheduler.c:147-160 | at the end of the filter the candidate prefix is the ready-now filter of the whole ready queue |
| Scheduling.Scheduler.constructor | libscheduler/init.c:5-50 | the scheduler invariant holds. Both clocks are 0, and the active count equals the thread count. Every block has its own id, is ready and has `last_cpu_remaining == -1`, so the first CPU request of every worker is a new burst. All queues are empty, all MLFQ data is level 0 with no quantum used, every semaphore is 0 with no waiters, and nobody holds the CPU or the device |
| Scheduling.Scheduler.AdvanceTimeTo | libscheduler/scheduler.c:87-93 | the CPU clock ends at the maximum of its old value and the target, so it never goes back |
| Scheduling.Scheduler.AdvanceIOTimeTo | libscheduler/scheduler.c:95-99 | the I/O clock ends at the maximum of its old value and the target |
| Scheduling.Scheduler.SelectFcfs | libscheduler/scheduler.c:115-137 | the loop returns the FCFS choice of the queue (`ArgMin` on arrival keys) and leaves the queue untouched |
| Scheduling.Scheduler.ReadyCandidates | libscheduler/scheduler.c:146-160 | the first `n` cells of the candidate array are the ready-now members of the ready queue, in queue order |
| Scheduling.Scheduler.ShortestCandidate | libscheduler/scheduler.c:175-189 | the loop returns the candidate with the least remaining time, ties to the lower id |
| Scheduling.Scheduler.SelectSrtf | libscheduler/scheduler.c:139-193 | the choice and the new clock are those of the SRTF rule `SrtfSelect` |
| Scheduling.Scheduler.ReadyMembers | libscheduler/scheduler.c:243-253 | the temporary queue holds the ready-now members of the level, in order |
| Scheduling.Scheduler.FirstReadyPick | libscheduler/scheduler.c:255-263 | the level loop returns the main MLFQ pick `MlfqPick` with its level |
| Scheduling.Scheduler.ScanEarliestCeil | libscheduler/scheduler.c:268-275 | scanning one more level extends the earliest-ceiled-tick search from the levels seen to that level too |
| Scheduling.Scheduler.EarliestCeil | libscheduler/scheduler.c:265-276 | the fallback scan returns the earliest ceiled tick over all levels, ties to the lower id |
| Scheduling.Scheduler.SelectMlfq | libscheduler/scheduler.c:237-286 | the choice and the new clock are those of the MLFQ rule `MlfqSelect`; a ready-now pick records its level in the MLFQ data, and nothing else there changes |
| Scheduling.Scheduler.SelectNext | libscheduler/scheduler.c:101-113 | the selector of the configured policy is run (nobody for an unknown policy); choice and clock are those of `Select` |
| Scheduling.Scheduler.EnqueueLevel | libscheduler/scheduler.c:198 | only the level queue `l` changes, and it gets the id appended |
| Scheduling.Scheduler.DequeueLevel | libscheduler/interface.c:103 | only the level queue `l` changes, and it loses the first occurrence of the id |
| Scheduling.Scheduler.EnqueueMlfq | libscheduler/scheduler.c:195-201 | the id joins the queue of the clamped level, that level is recorded, and the worker becomes ready |
| Scheduling.Scheduler.DemoteMlfq | libscheduler/scheduler.c:203-209 | the worker joins the next lower level (the bottom stays), with that level and a reset quantum recorded, and becomes ready |
| Scheduling.Scheduler.PromoteOnNewBurst | libscheduler/scheduler.c:211-215 | the worker joins level 0 with a reset quantum and becomes ready |
| Steps.Advance | libscheduler/interface.c:85 | `AdvanceTimeTo` lifted to the whole scheduler: the clock ends at the maximum of old value and target, and the scheduler invariant is kept |
| Steps.Retire | libscheduler/interface.c:321 | the active count drops by one |
| Steps.PushReady | libscheduler/interface.c:57 | the ready queue gets the id appended; the levels are untouched |
| Steps.RemoveReady | libscheduler/interface.c:93 | the ready queue loses the first occurrence of the id; the levels are untouched |
| Steps.RemoveFromLevel | libscheduler/interface.c:23 | level `l` loses the first occurrence of the id; the ready queue is untouched |
| Steps.Promote | libscheduler/interface.c:48 | level 0 gets the id, its MLFQ data is reset to level 0, and the worker becomes ready |
| Steps.Demote | libscheduler/interface.c:105 | the worker is re-queued one level lower with a reset quantum |
| Steps.LeaveAndDemote | libscheduler/interface.c:103-105 | the worker leaves its level and joins the next lower one with a reset quantum |
| Steps.Dispatch | libscheduler/interface.c:66-73 | the CPU holder becomes the selector's choice, which is marked running; clock and MLFQ data change as the selector says |
| Steps.JoinIo | libscheduler/interface.c:137-144 | the id is appended to the I/O queue, and an idle device goes to it |
| Steps.LeaveIo | libscheduler/interface.c:166-170 | the head leaves the I/O queue and the new head, if any, holds the device |
| Steps.AdvanceIo | libscheduler/interface.c:163 | `AdvanceIOTimeTo` lifted to the whole scheduler: the I/O clock ends at the maximum of old value and target, and the scheduler invariant is kept |
| Steps.SemTryAcquire | libscheduler/interface.c:195-196 | `Semaphore.TryAcquire` on semaphore `k` lifted to the whole scheduler: the value drops by one exactly when it was positive, the waiters are unchanged, and the scheduler invariant (every waiter a valid id) is kept |
| Steps.SemBlock | libscheduler/interface.c:219 | `Semaphore.Block` on semaphore `k` lifted to the whole scheduler: the worker joins the waiters, the value is unchanged, and the scheduler invariant is kept |
| Steps.SemRelease | libscheduler/interface.c:258-292 | `Semaphore.Signal` on semaphore `k` lifted to the whole scheduler: wake the lowest-id waiter, a valid id, and keep the others in order, or increment when nobody waits; the scheduler invariant is kept |
| Interface.ReleaseCpu | libscheduler/interface.c:126-134 | a worker that holds the CPU hands it to the selector's choice, which is marked running; a worker that does not hold it changes nothing |
| Interface.CpuFinish | libscheduler/interface.c:13-28 | the call returns the ceiled time and sets the remaining time to 0. Under FCFS and SRTF the worker leaves the ready queue, otherwise its current level. The clock is untouched |
| Interface.NoteRequest | libscheduler/interface.c:30-51 | a new burst is detected exactly when the last recorded remaining time is not positive or the new one exceeds it. FCFS stamps the tick on a new burst and drops the CPU if held. SRTF always stamps the tick and drops the CPU. MLFQ, on a new burst, stamps the tick, promotes to level 0 with a reset quantum and drops the CPU |
| Interface.RequeueUnlessHolder | libscheduler/interface.c:53-60 | under FCFS and SRTF a worker that does not hold the CPU is appended to the ready queue and marked ready; otherwise nothing changes |
| Interface.CpuRequest | libscheduler/interface.c:13-60 | a nonzero request before the barrier, stated per policy: the new tick, CPU holder, ready queue, levels and MLFQ data |
| Interface.CpuDispatch | libscheduler/interface.c:64-73 | an idle CPU goes to the selector's choice, which is marked running; a held CPU changes nothing |
| Interface.DemoteOnQuantum | libscheduler/interface.c:102-106 | the worker leaves its level, takes the call time as its ready tick, joins the next lower level with a reset quantum and is marked ready; a CPU holder gives up the CPU |
| Interface.Worked | libscheduler/interface.c:89-90 | one unit of work: the remaining time drops by one when positive and stays when not, is copied into `last_cpu_remaining`, and nothing else changes |
| Interface.BurstContinuesAfterWork | libscheduler/interface.c:30-33 | after a step that leaves work, the next request starts a new burst (`Scheduling.NewBurst`, the test of `libscheduler/interface.c:32` and `libscheduler/interface.c:44`) exactly when it reports more than was left |
| Interface.MlfqWorked | libscheduler/interface.c:94-107 | the MLFQ step relation: the worker's remaining time is that of one unit of work and is remembered, its level stays or drops by one and stays in range, and the CPU holder stays or, if it was this worker, is released |
| Interface.MlfqWork | libscheduler/interface.c:94-108 | the quantum use goes up by one. When the quantum is used up and work remains, the worker leaves its level, takes the call time as its tick, drops one level with a fresh quantum and releases the CPU if held |
| Interface.ClockStep | libscheduler/interface.c:84-88 | the step returns `max(clock, ceil(time)) + 1`, which is also the new clock |
| Interface.FinishStep | libscheduler/interface.c:89-108 | one unit of work, then SRTF removes the worker from the ready queue and MLFQ accounts for the quantum; FCFS changes nothing more |
| Interface.CpuStep | libscheduler/interface.c:84-113 | the granted CPU step returns `max(clock, ceil(time)) + 1`, leaves the clock there, and does the work and policy bookkeeping of `FinishStep` |
| Interface.IoRequest | libscheduler/interface.c:123-144 | a CPU holder hands the CPU on; the worker is marked blocked on I/O and appended to the I/O queue; an idle device goes to it |
| Interface.IoComplete | libscheduler/interface.c:152-170 | the completion is `max(io clock, ceil(time)) + duration` and the I/O clock reaches it; the worker, the head of the I/O queue, leaves it; the next head, if any, holds the device |
| Interface.SemWait | libscheduler/interface.c:188-220 | a positive value is decremented by one and the call returns the ceiled time at once, with the clock advanced to it. Otherwise the value is unchanged, the worker is appended to the waiters and marked blocked, and a CPU holder hands the CPU on |
| Interface.BlockOnSem | libscheduler/interface.c:207-220 | the value is unchanged, the worker is appended to the waiters and marked blocked, and a CPU holder hands the CPU on |
| Interface.SemWaitResume | libscheduler/interface.c:231-238 | after the wake-up the clock advances to the ceiled call time and the call returns the wake time that V stored |
| Interface.SemSignal | libscheduler/interface.c:248-298 | the call returns the ceiled time. With waiters, exactly the lowest-id waiter is removed, given that time as its wake time and marked ready, the others keep their order, and the value is unchanged. With no waiters, the value goes up by one |
| Interface.EndMe | libscheduler/interface.c:301-327 | the worker is terminated and the active count drops by one; if it held the CPU, the selector's choice (over the updated blocks) gets it and is marked running |

## Left out

- Threads and waiting: the scheduler mutex, the condition variables, `barrier_wait`
  (`libscheduler/scheduler.c:288-297`) and the waiting loops of `cpu_me`, `io_me`, `P` and
  `V`. Each handler piece is one atomic update, taken once the wait before it is over. The
  order in which workers get the lock is not modelled.
- The barrier counters `arrived_count` and `blocked_on_p_count`. They only feed the barrier.
- The `mutex` and `cond` fields of each semaphore, and each control block's `cond`.
- V's guard `active_threads - blocked_on_p_count != 1 && global_time < int_time`
  (`libscheduler/interface.c:249-251`). It only decides when V may go on. V's `tid` parameter
  is never used and is left out.
- All `printf` logging, and `main.c` (script parsing, thread creation, the Gantt output).
- `finish_scheduler` (`libscheduler/init.c:52-68`): it only destroys condition variables and
  frees memory.
- IEEE single-precision behaviour of the `float` timestamps (rounding, infinities, NaN): times
  are exact reals. The `FLT_MAX` and `INT_MAX` sentinels of the scans are "no choice yet"
  (`None`) in the model, which agrees with the source for every finite tick below them.
- 32-bit `int` overflow of the clocks and of the sums of `io_me`: integers are unbounded.
- The null dereference of `earliest_thread->tid` at `libscheduler/scheduler.c:271`: with no
  choice yet, it can only be reached when a ceiled tick equals `INT_MAX`. The model takes the
  entry in that case.
- The `arrival_time` field of the control block: nothing in the core reads or writes it.
- `api.h` is not part of this model. `MLFQ_TIME_QUANTUM`, the number of semaphores and the
  policy values are parameters of the constructor (the quanta positive).
- Scheduling.Scheduler.constructor: this requires at most 128 workers. The driver passes the
  script's line count unchecked (`main.c:78`, `main.c:107`). With more workers the source writes
  past the end of `mlfq_data` (`libscheduler/interface.c:96`), and `enqueue` silently drops
  entries once a queue is full (`libscheduler/scheduler.c:36`). The model excludes that case.
- Interface.SemWait, Interface.BlockOnSem, Interface.SemSignal: these require the semaphore id
  to name an existing semaphore (`0 <= sem_id < MAX_NUM_SEM`). The driver passes the script's
  number unchecked (`main.c:247`, `main.c:253`). Outside that range the source reads and writes
  past the fixed `semaphores` array (`libscheduler/scheduler.c:23`,
  `libscheduler/interface.c:192`, `libscheduler/interface.c:256`). The model excludes that case.
- Interface.BlockOnSem, Interface.SemWait: these require a free waiter slot
  (`blocked_count < 128`). The source appends without checking (`libscheduler/interface.c:219`).
- Queues.TidQueue.DequeueAtIndex: this requires the index to be a live slot of the queue. The only caller
  (`dequeue_tid_from_q`) passes one. For any other slot the shift loop would wrap over dead slots.
- Interface.IoRequest, Interface.BlockOnSem, Interface.CpuStep: these run updates that touch
  disjoint parts of the state in a different order from the source (for example, the state is
  set to BLOCKED_IO before the enqueue). The resulting state is the same.
- Interface.IoComplete: this requires the worker to hold the device, which the wait loop at
  `libscheduler/interface.c:147-150` guarantees.
- Interface.SemWaitResume: this does not model the wait itself. It takes the state after V
  has woken the worker.
