// The handlers of libscheduler/interface.c as the atomic updates they make while they hold
// the scheduler lock. Each handler is split at its suspension points (the barrier and the
// condition waits), and each piece between two of them is one method here; the waits
// themselves are not modelled.
module Interface {
  import opened Types
  import opened Queues
  import opened Semaphores
  import opened Policy
  import opened Scheduling
  import opened Steps

  /** A CPU holder that blocks or ends hands the CPU on; anyone else leaves it alone
      (interface.c:126-134, 207-214, 311-319). */
  method ReleaseCpu(s: Scheduler, tid: int)
    requires s.Valid()
    modifies s`globalTime, s`currentCpu, s.mlfqData, s.tcbs
    ensures s.Valid()
    ensures var held := old(s.currentCpu) == Some(tid);
      var sel := Select(s.kind, s.readyQueue.Contents, s.Levels, old(s.tcbs[..]), old(s.globalTime));
      && s.currentCpu == (if held then sel.choice else old(s.currentCpu))
      && s.globalTime == (if held then sel.clock else old(s.globalTime))
      && s.tcbs[..] == (if held then Granted(old(s.tcbs[..]), sel.choice) else old(s.tcbs[..]))
      && s.mlfqData[..] == (if held
           then RecordPick(s.kind, old(s.mlfqData[..]), MlfqPick(s.Levels, old(s.tcbs[..]), old(s.globalTime), 0))
           else old(s.mlfqData[..]))
  {
    if s.currentCpu == Some(tid) {
      Dispatch(s);
    }
  }

  /** The end of a burst in `cpu_me` (interface.c:13-28): the worker records zero
      remaining time and leaves the queue it waits in, the ready queue or its MLFQ
      level; the call returns the ceiled call time and leaves the clock alone. */
  method CpuFinish(s: Scheduler, currentTime: real, tid: int) returns (r: int)
    requires s.Valid() && 0 <= tid < s.threadCount
    modifies s.tcbs, s.readyQueue, s.readyQueue.threads
    modifies s`Levels, s.mlfq[s.mlfqData[tid].level], s.mlfq[s.mlfqData[tid].level].threads
    ensures s.Valid()
    ensures r == Ceil(currentTime)
    ensures s.tcbs[..] == old(s.tcbs[..])[tid := old(s.tcbs[tid]).(remainingTime := 0)]
    ensures s.kind == FCFS || s.kind == SRTF ==>
      && s.readyQueue.Contents == RemoveFirst(old(s.readyQueue.Contents), tid)
      && s.Levels == old(s.Levels)
    ensures s.kind != FCFS && s.kind != SRTF ==>
      var l := s.mlfqData[tid].level;
      && s.readyQueue.Contents == old(s.readyQueue.Contents)
      && s.Levels == old(s.Levels)[l := RemoveFirst(old(s.Levels[l]), tid)]
  {
    SetTcb(s, tid, s.tcbs[tid].(remainingTime := 0));
    if s.kind == FCFS || s.kind == SRTF {
      RemoveReady(s, tid);
    } else {
      RemoveFromLevel(s, s.mlfqData[tid].level, tid);
    }
    r := Ceil(currentTime);
  }

  /** The part of `cpu_me` before the barrier for a worker with work left
      (interface.c:13-14, 30-60): burst detection, the policy's bookkeeping, and for
      FCFS and SRTF the return to the ready queue of a worker not on the CPU. The
      MLFQ branch is the `else` of the source, so it also covers an unknown policy. */
  method CpuRequest(s: Scheduler, currentTime: real, tid: int, remaining: int)
    requires s.Valid() && 0 <= tid < s.threadCount && remaining != 0
    modifies s`currentCpu, s.tcbs, s.readyQueue, s.readyQueue.threads, s`Levels, s.mlfq[0], s.mlfq[0].threads, s.mlfqData
    ensures s.Valid()
    ensures s.kind == FCFS ==>
      var burst := NewBurst(old(s.tcbs[tid].lastCpuRemaining), remaining);
      var keeps := !burst && old(s.currentCpu) == Some(tid);
      && s.currentCpu == (if burst && old(s.currentCpu) == Some(tid) then None else old(s.currentCpu))
      && s.readyQueue.Contents == (if keeps then old(s.readyQueue.Contents)
                                   else Pushed(old(s.readyQueue.Contents), tid))
      && s.tcbs[..] == old(s.tcbs[..])[tid := old(s.tcbs[tid]).(
           remainingTime := remaining,
           readyArrivalTick := if burst then currentTime else old(s.tcbs[tid].readyArrivalTick),
           state := if keeps then old(s.tcbs[tid].state) else Ready)]
      && s.Levels == old(s.Levels) && s.mlfqData[..] == old(s.mlfqData[..])
    ensures s.kind == SRTF ==>
      && s.currentCpu == None
      && s.readyQueue.Contents == Pushed(old(s.readyQueue.Contents), tid)
      && s.tcbs[..] == old(s.tcbs[..])[tid := old(s.tcbs[tid]).(
           remainingTime := remaining, readyArrivalTick := currentTime, state := Ready)]
      && s.Levels == old(s.Levels) && s.mlfqData[..] == old(s.mlfqData[..])
    ensures s.kind != FCFS && s.kind != SRTF ==>
      var burst := NewBurst(old(s.tcbs[tid].lastCpuRemaining), remaining);
      && s.readyQueue.Contents == old(s.readyQueue.Contents)
      && (burst ==>
            && s.currentCpu == None
            && s.Levels == old(s.Levels)[0 := Pushed(old(s.Levels[0]), tid)]
            && s.mlfqData[..] == old(s.mlfqData[..])[tid := MlfqInfo(0, 0)]
            && s.tcbs[..] == old(s.tcbs[..])[tid := old(s.tcbs[tid]).(
                 remainingTime := remaining, readyArrivalTick := currentTime, state := Ready)])
      && (!burst ==>
            && s.currentCpu == old(s.currentCpu)
            && s.Levels == old(s.Levels) && s.mlfqData[..] == old(s.mlfqData[..])
            && s.tcbs[..] == old(s.tcbs[..])[tid := old(s.tcbs[tid]).(remainingTime := remaining)])
  {
    NoteRequest(s, currentTime, tid, remaining);
    RequeueUnlessHolder(s, tid);
  }

  /** The policy bookkeeping of `cpu_me` (interface.c:14, 30-51): the remaining time is
      recorded; a new burst (always, under SRTF) takes the call time as its tick and
      releases the CPU (under FCFS only when this worker held it); under MLFQ a new
      burst also goes back to level 0. */
  method NoteRequest(s: Scheduler, currentTime: real, tid: int, remaining: int)
    requires s.Valid() && 0 <= tid < s.threadCount
    modifies s`currentCpu, s.tcbs, s`Levels, s.mlfq[0], s.mlfq[0].threads, s.mlfqData
    ensures s.Valid()
    ensures s.readyQueue.Contents == old(s.readyQueue.Contents)
    ensures var burst := s.kind == SRTF || NewBurst(old(s.tcbs[tid].lastCpuRemaining), remaining);
      var promoted := s.kind != FCFS && s.kind != SRTF && burst;
      && s.tcbs[..] == old(s.tcbs[..])[tid := old(s.tcbs[tid]).(
           remainingTime := remaining,
           readyArrivalTick := if burst then currentTime else old(s.tcbs[tid].readyArrivalTick),
           state := if promoted then Ready else old(s.tcbs[tid].state))]
      && s.currentCpu == (if burst && (s.kind != FCFS || old(s.currentCpu) == Some(tid)) then None
                          else old(s.currentCpu))
      && s.Levels == (if promoted then old(s.Levels)[0 := Pushed(old(s.Levels[0]), tid)]
                        else old(s.Levels))
      && s.mlfqData[..] == (if promoted then old(s.mlfqData[..])[tid := MlfqInfo(0, 0)]
                            else old(s.mlfqData[..]))
  {
    var burst := NewBurst(s.tcbs[tid].lastCpuRemaining, remaining);
    var t := s.tcbs[tid].(remainingTime := remaining);
    if s.kind == FCFS {
      if burst {
        t := t.(readyArrivalTick := currentTime);
      }
      SetTcb(s, tid, t);
      if burst && s.currentCpu == Some(tid) {
        SetCpu(s, None);
      }
    } else if s.kind == SRTF {
      SetTcb(s, tid, t.(readyArrivalTick := currentTime));
      SetCpu(s, None);
    } else if burst {
      SetTcb(s, tid, t.(readyArrivalTick := currentTime));
      Promote(s, tid);
      SetCpu(s, None);
    } else {
      SetTcb(s, tid, t);
    }
  }

  /** Under FCFS and SRTF a worker not on the CPU goes back into the ready queue
      (interface.c:54-60). */
  method RequeueUnlessHolder(s: Scheduler, tid: int)
    requires s.Valid() && 0 <= tid < s.threadCount
    modifies s.tcbs, s.readyQueue, s.readyQueue.threads
    ensures s.Valid()
    ensures s.Levels == old(s.Levels)
    ensures var back := (s.kind == FCFS || s.kind == SRTF) && s.currentCpu != Some(tid);
      && s.readyQueue.Contents == (if back then Pushed(old(s.readyQueue.Contents), tid)
                                   else old(s.readyQueue.Contents))
      && s.tcbs[..] == (if back then old(s.tcbs[..])[tid := old(s.tcbs[tid]).(state := Ready)]
                        else old(s.tcbs[..]))
  {
    if (s.kind == FCFS || s.kind == SRTF) && s.currentCpu != Some(tid) {
      PushReady(s, tid);
      SetTcb(s, tid, s.tcbs[tid].(state := Ready));
    }
  }

  /** After the barrier of `cpu_me` (interface.c:66-73): an idle CPU is handed to the
      selector's choice. */
  method CpuDispatch(s: Scheduler)
    requires s.Valid()
    modifies s`globalTime, s`currentCpu, s.mlfqData, s.tcbs
    ensures s.Valid()
    ensures var idle := old(s.currentCpu) == None;
      var sel := Select(s.kind, s.readyQueue.Contents, s.Levels, old(s.tcbs[..]), old(s.globalTime));
      && s.currentCpu == (if idle then sel.choice else old(s.currentCpu))
      && s.globalTime == (if idle then sel.clock else old(s.globalTime))
      && s.tcbs[..] == (if idle then Granted(old(s.tcbs[..]), sel.choice) else old(s.tcbs[..]))
      && s.mlfqData[..] == (if idle
           then RecordPick(s.kind, old(s.mlfqData[..]), MlfqPick(s.Levels, old(s.tcbs[..]), old(s.globalTime), 0))
           else old(s.mlfqData[..]))
  {
    if s.currentCpu == None {
      Dispatch(s);
    }
  }

  /** The demotion of a CPU step (interface.c:103-106): the worker leaves its level,
      gets the call time as its tick, is demoted with its quantum reset, and gives up
      the CPU if it held it. */
  method DemoteOnQuantum(s: Scheduler, currentTime: real, tid: int)
    requires s.Valid() && 0 <= tid < s.threadCount
    modifies s`currentCpu, s.tcbs, s.mlfqData
    modifies s`Levels, s.mlfq[s.mlfqData[tid].level], s.mlfq[s.mlfqData[tid].level].threads
    modifies s.mlfq[DemotedLevel(s.mlfqData[tid].level)], s.mlfq[DemotedLevel(s.mlfqData[tid].level)].threads
    ensures s.Valid()
    ensures var level := old(s.mlfqData[tid].level);
      var l := DemotedLevel(level);
      var removed := old(s.Levels)[level := RemoveFirst(old(s.Levels[level]), tid)];
      && s.mlfqData[..] == old(s.mlfqData[..])[tid := MlfqInfo(l, 0)]
      && s.Levels == removed[l := Pushed(removed[l], tid)]
      && s.tcbs[..] == old(s.tcbs[..])[tid := old(s.tcbs[tid]).(readyArrivalTick := currentTime, state := Ready)]
      && s.currentCpu == (if old(s.currentCpu) == Some(tid) then None else old(s.currentCpu))
  {
    ghost var ts := s.tcbs[..];
    var t := s.tcbs[tid].(readyArrivalTick := currentTime);
    SetTcb(s, tid, t);
    LeaveAndDemote(s, tid);
    assert ts[tid := t][tid := t.(state := Ready)] == ts[tid := t.(state := Ready)];
    if s.currentCpu == Some(tid) {
      SetCpu(s, None);
    }
  }

  /** The control block after one unit of work (interface.c:89-90): the remaining time
      drops by one when it is positive, and is remembered for burst detection. */
  function Worked(t: Tcb): (r: Tcb)
    ensures r.tid == t.tid && r.lastCpuRemaining == r.remainingTime <= t.remainingTime
    ensures t.remainingTime > 0 ==> r.remainingTime == t.remainingTime - 1
    ensures t.remainingTime <= 0 ==> r.remainingTime == t.remainingTime
    ensures r.(remainingTime := t.remainingTime, lastCpuRemaining := t.lastCpuRemaining) == t
  {
    var left := if t.remainingTime > 0 then t.remainingTime - 1 else t.remainingTime;
    t.(remainingTime := left, lastCpuRemaining := left)
  }

  /** After a step that leaves work, a request reporting no more than what is left
      continues the burst, and one reporting more starts a new one. */
  lemma BurstContinuesAfterWork(t: Tcb, remaining: int)
    requires t.remainingTime > 1
    ensures var w := Worked(t);
      NewBurst(w.lastCpuRemaining, remaining) <==> remaining > t.remainingTime - 1
  {
  }

  /** The effect of one MLFQ CPU step (interface.c:89-107) on the control blocks, the
      MLFQ metadata, the level queues and the CPU holder: the worker does one unit of
      work and uses one more tick of its quantum; once the quantum is used up and work
      remains, it leaves its level with the call time as its tick, drops one level with
      a fresh quantum, and gives up the CPU if it held it. */
  ghost predicate MlfqWorked(quanta: seq<int>, tid: int, currentTime: real,
    ts: seq<Tcb>, data: seq<MlfqInfo>, levels: seq<seq<int>>, cpu: Option<int>,
    ts': seq<Tcb>, data': seq<MlfqInfo>, levels': seq<seq<int>>, cpu': Option<int>)
    requires 0 <= tid < |ts| && tid < |data| && |levels| == MLFQ_LEVELS && |quanta| == MLFQ_LEVELS
    requires 0 <= data[tid].level <= BOTTOM_LEVEL
    ensures MlfqWorked(quanta, tid, currentTime, ts, data, levels, cpu, ts', data', levels', cpu') ==>
      && |ts'| == |ts| && |data'| == |data| && |levels'| == MLFQ_LEVELS
      && ts'[tid].remainingTime == Worked(ts[tid]).remainingTime
      && ts'[tid].lastCpuRemaining == ts'[tid].remainingTime
      && 0 <= data'[tid].level <= BOTTOM_LEVEL
      && (data'[tid].level == data[tid].level || data'[tid].level == data[tid].level + 1)
      && (cpu' == cpu || (cpu == Some(tid) && cpu' == None))
  {
    var worked := Worked(ts[tid]);
    var info := data[tid];
    var used := info.quantumUsed + 1;
    if used >= quanta[info.level] && worked.remainingTime > 0 then
      var l := DemotedLevel(info.level);
      var removed := levels[info.level := RemoveFirst(levels[info.level], tid)];
      && ts' == ts[tid := worked.(readyArrivalTick := currentTime, state := Ready)]
      && data' == data[tid := MlfqInfo(l, 0)]
      && levels' == removed[l := Pushed(removed[l], tid)]
      && cpu' == (if cpu == Some(tid) then None else cpu)
    else
      && ts' == ts[tid := worked]
      && data' == data[tid := info.(quantumUsed := used)]
      && levels' == levels
      && cpu' == cpu
  }

  /** The MLFQ branch of a CPU step (interface.c:89-107): one unit of work, one more
      quantum tick, and the demotion of a worker that used up its quantum with work
      left. */
  method MlfqWork(s: Scheduler, currentTime: real, tid: int)
    requires s.Valid() && 0 <= tid < s.threadCount
    modifies s`currentCpu, s.tcbs, s.mlfqData
    modifies s`Levels, s.mlfq[s.mlfqData[tid].level], s.mlfq[s.mlfqData[tid].level].threads
    modifies s.mlfq[DemotedLevel(s.mlfqData[tid].level)], s.mlfq[DemotedLevel(s.mlfqData[tid].level)].threads
    ensures s.Valid() && s.readyQueue.Contents == old(s.readyQueue.Contents)
    ensures MlfqWorked(s.quanta, tid, currentTime,
      old(s.tcbs[..]), old(s.mlfqData[..]), old(s.Levels), old(s.currentCpu),
      s.tcbs[..], s.mlfqData[..], s.Levels, s.currentCpu)
  {
    ghost var ts, data := s.tcbs[..], s.mlfqData[..];
    var worked := Worked(s.tcbs[tid]);
    SetTcb(s, tid, worked);
    var info := s.mlfqData[tid];
    var used := info.quantumUsed + 1;
    SetMlfqInfo(s, tid, info.(quantumUsed := used));
    if used >= s.quanta[info.level] && worked.remainingTime > 0 {
      DemoteOnQuantum(s, currentTime, tid);
      assert ts[tid := worked][tid := worked.(readyArrivalTick := currentTime, state := Ready)]
          == ts[tid := worked.(readyArrivalTick := currentTime, state := Ready)];
      assert data[tid := info.(quantumUsed := used)][tid := MlfqInfo(DemotedLevel(info.level), 0)]
          == data[tid := MlfqInfo(DemotedLevel(info.level), 0)];
    }
  }

  /** The clock of a CPU step (interface.c:84-88): to the ceiled call time, then one
      tick beyond, which is the step's result. */
  method ClockStep(s: Scheduler, currentTime: real) returns (ret: int)
    requires s.Valid()
    modifies s`globalTime
    ensures s.Valid()
    ensures ret == Max(old(s.globalTime), Ceil(currentTime)) + 1 && s.globalTime == ret
  {
    Advance(s, Ceil(currentTime));
    ret := s.globalTime + 1;
    Advance(s, ret);
  }

  /** The bookkeeping of a CPU step after the clock (interface.c:89-107): one unit of
      work is done and remembered for burst detection; SRTF takes the worker out of
      the ready queue and MLFQ counts the tick against its quantum. */
  method FinishStep(s: Scheduler, currentTime: real, tid: int)
    requires s.Valid() && 0 <= tid < s.threadCount
    modifies s`currentCpu, s.tcbs, s.readyQueue, s.readyQueue.threads, s.mlfqData
    modifies s`Levels, s.mlfq[s.mlfqData[tid].level], s.mlfq[s.mlfqData[tid].level].threads
    modifies s.mlfq[DemotedLevel(s.mlfqData[tid].level)], s.mlfq[DemotedLevel(s.mlfqData[tid].level)].threads
    ensures s.Valid()
    ensures s.kind == MLFQ ==>
      && s.readyQueue.Contents == old(s.readyQueue.Contents)
      && MlfqWorked(s.quanta, tid, currentTime,
           old(s.tcbs[..]), old(s.mlfqData[..]), old(s.Levels), old(s.currentCpu),
           s.tcbs[..], s.mlfqData[..], s.Levels, s.currentCpu)
    ensures s.kind != MLFQ ==>
      && s.tcbs[..] == old(s.tcbs[..])[tid := Worked(old(s.tcbs[tid]))]
      && s.readyQueue.Contents == (if s.kind == SRTF then RemoveFirst(old(s.readyQueue.Contents), tid)
                                   else old(s.readyQueue.Contents))
      && s.mlfqData[..] == old(s.mlfqData[..]) && s.Levels == old(s.Levels)
      && s.currentCpu == old(s.currentCpu)
  {
    if s.kind == MLFQ {
      MlfqWork(s, currentTime, tid);
    } else {
      SetTcb(s, tid, Worked(s.tcbs[tid]));
      if s.kind == SRTF {
        RemoveReady(s, tid);
      }
    }
  }

  /** The CPU step of `cpu_me` once the worker may run (interface.c:84-113): the clock
      moves to the ceiled call time and one tick beyond, which is returned; one unit of
      work is done and remembered for burst detection; SRTF takes the worker out of
      the ready queue and MLFQ counts the tick against its quantum. */
  method CpuStep(s: Scheduler, currentTime: real, tid: int) returns (ret: int)
    requires s.Valid() && 0 <= tid < s.threadCount
    modifies s`globalTime, s`currentCpu, s.tcbs, s.readyQueue, s.readyQueue.threads, s.mlfqData
    modifies s`Levels, s.mlfq[s.mlfqData[tid].level], s.mlfq[s.mlfqData[tid].level].threads
    modifies s.mlfq[DemotedLevel(s.mlfqData[tid].level)], s.mlfq[DemotedLevel(s.mlfqData[tid].level)].threads
    ensures s.Valid()
    ensures ret == Max(old(s.globalTime), Ceil(currentTime)) + 1 && s.globalTime == ret
    ensures s.kind == MLFQ ==>
      && s.readyQueue.Contents == old(s.readyQueue.Contents)
      && MlfqWorked(s.quanta, tid, currentTime,
           old(s.tcbs[..]), old(s.mlfqData[..]), old(s.Levels), old(s.currentCpu),
           s.tcbs[..], s.mlfqData[..], s.Levels, s.currentCpu)
    ensures s.kind != MLFQ ==>
      && s.tcbs[..] == old(s.tcbs[..])[tid := Worked(old(s.tcbs[tid]))]
      && s.readyQueue.Contents == (if s.kind == SRTF then RemoveFirst(old(s.readyQueue.Contents), tid)
                                   else old(s.readyQueue.Contents))
      && s.mlfqData[..] == old(s.mlfqData[..]) && s.Levels == old(s.Levels)
      && s.currentCpu == old(s.currentCpu)
  {
    FinishStep(s, currentTime, tid);
    ret := ClockStep(s, currentTime);
  }

  /** `io_me` up to the wait for the device (interface.c:123-144): a CPU holder hands
      the CPU on, the worker joins the I/O queue blocked, and an idle device is given
      to it. */
  method IoRequest(s: Scheduler, tid: int)
    requires s.Valid() && 0 <= tid < s.threadCount
    modifies s`globalTime, s`currentCpu, s`currentIo, s.mlfqData, s.tcbs, s.ioQueue, s.ioQueue.threads
    ensures s.Valid()
    ensures var held := old(s.currentCpu) == Some(tid);
      var sel := Select(s.kind, s.readyQueue.Contents, s.Levels, old(s.tcbs[..]), old(s.globalTime));
      && s.currentCpu == (if held then sel.choice else old(s.currentCpu))
      && s.globalTime == (if held then sel.clock else old(s.globalTime))
      && s.tcbs[..] == (if held then Granted(old(s.tcbs[..]), sel.choice) else old(s.tcbs[..]))
                         [tid := old(s.tcbs[tid]).(state := BlockedIO)]
      && s.mlfqData[..] == (if held
           then RecordPick(s.kind, old(s.mlfqData[..]), MlfqPick(s.Levels, old(s.tcbs[..]), old(s.globalTime), 0))
           else old(s.mlfqData[..]))
    ensures s.ioQueue.Contents == Pushed(old(s.ioQueue.Contents), tid)
    ensures s.currentIo == (if old(s.currentIo) == None then Some(tid) else old(s.currentIo))
  {
    ReleaseCpu(s, tid);
    SetTcb(s, tid, s.tcbs[tid].(state := BlockedIO));
    JoinIo(s, tid);
  }

  /** `io_me` once the worker holds the device (interface.c:152-170): the transfer
      starts at the later of the device clock and the ceiled call time and lasts
      `duration`; the worker leaves the head of the I/O queue and the next one in
      line, if any, gets the device. */
  method IoComplete(s: Scheduler, currentTime: real, tid: int, duration: int) returns (completion: int)
    requires s.Valid() && s.currentIo == Some(tid)
    modifies s`globalIOTime, s`currentIo, s.ioQueue, s.ioQueue.threads
    ensures s.Valid()
    ensures completion == Max(old(s.globalIOTime), Ceil(currentTime)) + duration
    ensures s.globalIOTime == Max(old(s.globalIOTime), completion)
    ensures old(s.ioQueue.Contents) != [] && old(s.ioQueue.Contents)[0] == tid
    ensures s.ioQueue.Contents == old(s.ioQueue.Contents)[1..]
    ensures s.currentIo == if s.ioQueue.Contents == [] then None else Some(s.ioQueue.Contents[0])
  {
    var intTime := Ceil(currentTime);
    var start := if s.globalIOTime > intTime then s.globalIOTime else intTime;
    completion := start + duration;
    AdvanceIo(s, completion);
    LeaveIo(s);
  }

  /** P before any wait (interface.c:188-220): a positive counter is decremented, the
      clock moves to the ceiled call time and that time is returned; otherwise a CPU
      holder hands the CPU on and the worker is appended to the waiter list, blocked. */
  method SemWait(s: Scheduler, currentTime: real, tid: int, semId: int) returns (acquired: Option<int>)
    requires s.Valid() && 0 <= tid < s.threadCount && 0 <= semId < |s.semaphores|
    requires s.semaphores[semId].value > 0 || s.semaphores[semId].blockedCount < MAX_THREADS
    modifies s`globalTime, s`currentCpu, s.mlfqData, s.tcbs, s.semaphores[semId],
      s.semaphores[semId].blockedThreads
    ensures s.Valid()
    ensures var m := s.semaphores[semId];
      old(m.value) > 0 ==>
        && acquired == Some(Ceil(currentTime))
        && m.value == old(m.value) - 1 && m.Waiters == old(m.Waiters)
        && s.globalTime == Max(old(s.globalTime), Ceil(currentTime))
        && s.currentCpu == old(s.currentCpu)
        && s.tcbs[..] == old(s.tcbs[..]) && s.mlfqData[..] == old(s.mlfqData[..])
    ensures var m := s.semaphores[semId];
      old(m.value) <= 0 ==>
        var held := old(s.currentCpu) == Some(tid);
        var sel := Select(s.kind, s.readyQueue.Contents, s.Levels, old(s.tcbs[..]), old(s.globalTime));
        && acquired == None
        && m.value == old(m.value) && m.Waiters == old(m.Waiters) + [tid]
        && s.currentCpu == (if held then sel.choice else old(s.currentCpu))
        && s.globalTime == (if held then sel.clock else old(s.globalTime))
        && s.tcbs[..] == (if held then Granted(old(s.tcbs[..]), sel.choice) else old(s.tcbs[..]))
                           [tid := old(s.tcbs[tid]).(state := BlockedSem)]
        && s.mlfqData[..] == (if held
             then RecordPick(s.kind, old(s.mlfqData[..]), MlfqPick(s.Levels, old(s.tcbs[..]), old(s.globalTime), 0))
             else old(s.mlfqData[..]))
  {
    var intTime := Ceil(currentTime);
    var ok := SemTryAcquire(s, semId);
    if ok {
      Advance(s, intTime);
      return Some(intTime);
    }
    BlockOnSem(s, tid, semId);
    acquired := None;
  }

  /** The blocking branch of P (interface.c:207-219): a CPU holder hands the CPU on,
      then the worker is blocked and appended to the waiter list. */
  method BlockOnSem(s: Scheduler, tid: int, semId: int)
    requires s.Valid() && 0 <= tid < s.threadCount && 0 <= semId < |s.semaphores|
    requires s.semaphores[semId].value <= 0 && s.semaphores[semId].blockedCount < MAX_THREADS
    modifies s`globalTime, s`currentCpu, s.mlfqData, s.tcbs, s.semaphores[semId],
      s.semaphores[semId].blockedThreads
    ensures s.Valid()
    ensures var m := s.semaphores[semId];
      var held := old(s.currentCpu) == Some(tid);
      var sel := Select(s.kind, s.readyQueue.Contents, s.Levels, old(s.tcbs[..]), old(s.globalTime));
      && m.value == old(m.value) && m.Waiters == old(m.Waiters) + [tid]
      && s.currentCpu == (if held then sel.choice else old(s.currentCpu))
      && s.globalTime == (if held then sel.clock else old(s.globalTime))
      && s.tcbs[..] == (if held then Granted(old(s.tcbs[..]), sel.choice) else old(s.tcbs[..]))
                         [tid := old(s.tcbs[tid]).(state := BlockedSem)]
      && s.mlfqData[..] == (if held
           then RecordPick(s.kind, old(s.mlfqData[..]), MlfqPick(s.Levels, old(s.tcbs[..]), old(s.globalTime), 0))
           else old(s.mlfqData[..]))
  {
    SemBlock(s, semId, tid);
    ReleaseCpu(s, tid);
    SetTcb(s, tid, s.tcbs[tid].(state := BlockedSem));
  }

  /** P after V has woken the worker (interface.c:231-238): the clock moves to the
      ceiled call time and the wake time V recorded is returned. */
  method SemWaitResume(s: Scheduler, currentTime: real, tid: int) returns (ret: int)
    requires s.Valid() && 0 <= tid < s.threadCount
    modifies s`globalTime
    ensures s.Valid()
    ensures s.globalTime == Max(old(s.globalTime), Ceil(currentTime))
    ensures ret == s.tcbs[tid].wakeTime
  {
    Advance(s, Ceil(currentTime));
    ret := s.tcbs[tid].wakeTime;
  }

  /** V once it may proceed (interface.c:248-298): with waiters, the one with the lowest
      id is removed, the others keeping their order, and made ready with the ceiled
      call time as its wake time; with none, the counter goes up. The ceiled call
      time is returned. */
  method SemSignal(s: Scheduler, currentTime: real, semId: int) returns (ret: int)
    requires s.Valid() && 0 <= semId < |s.semaphores|
    modifies s.tcbs, s.semaphores[semId], s.semaphores[semId].blockedThreads
    ensures s.Valid()
    ensures ret == Ceil(currentTime)
    ensures var m := s.semaphores[semId];
      var w := old(m.Waiters);
      && (w == [] ==> m.value == old(m.value) + 1 && m.Waiters == [] && s.tcbs[..] == old(s.tcbs[..]))
      && (w != [] ==>
            var k := LowestIndex(w);
            && m.value == old(m.value)
            && m.Waiters == w[..k] + w[k + 1..]
            && s.tcbs[..] == old(s.tcbs[..])[w[k] := old(s.tcbs[w[k]]).(wakeTime := ret, state := Ready)])
  {
    ret := Ceil(currentTime);
    var woken := SemRelease(s, semId);
    if woken.Some? {
      SetTcb(s, woken.value, s.tcbs[woken.value].(wakeTime := ret, state := Ready));
    }
  }

  /** `end_me` (interface.c:306-321): the worker terminates, a CPU holder hands the CPU
      on, and one fewer worker is active. */
  method EndMe(s: Scheduler, tid: int)
    requires s.Valid() && 0 <= tid < s.threadCount
    modifies s`globalTime, s`currentCpu, s`activeThreads, s.mlfqData, s.tcbs
    ensures s.Valid()
    ensures s.activeThreads == old(s.activeThreads) - 1
    ensures var held := old(s.currentCpu) == Some(tid);
      var ended := old(s.tcbs[..])[tid := old(s.tcbs[tid]).(state := Terminated)];
      var sel := Select(s.kind, s.readyQueue.Contents, s.Levels, ended, old(s.globalTime));
      && s.currentCpu == (if held then sel.choice else old(s.currentCpu))
      && s.globalTime == (if held then sel.clock else old(s.globalTime))
      && s.tcbs[..] == (if held then Granted(ended, sel.choice) else ended)
      && s.mlfqData[..] == (if held
           then RecordPick(s.kind, old(s.mlfqData[..]), MlfqPick(s.Levels, ended, old(s.globalTime), 0))
           else old(s.mlfqData[..]))
  {
    SetTcb(s, tid, s.tcbs[tid].(state := Terminated));
    ReleaseCpu(s, tid);
    Retire(s);
  }
}
