// Single updates of the scheduler state that the handlers of libscheduler/interface.c are
// built from. Each keeps the scheduler invariant and changes only what its `modifies`
// names.
module Steps {
  import opened Types
  import opened Queues
  import opened Semaphores
  import opened Policy
  import opened Scheduling

  /** The control blocks after the CPU is handed to `choice`: that worker is running. */
  function Granted(ts: seq<Tcb>, choice: Option<int>): seq<Tcb>
    requires choice.Some? ==> 0 <= choice.value < |ts|
  {
    if choice.Some? then ts[choice.value := ts[choice.value].(state := Running)] else ts
  }

  /** Overwrite the control block of `tid` with one that keeps its id. */
  method SetTcb(s: Scheduler, tid: int, t: Tcb)
    requires s.Valid() && 0 <= tid < s.tcbs.Length && t.tid == tid
    modifies s.tcbs
    ensures s.Valid()
    ensures s.tcbs[..] == old(s.tcbs[..])[tid := t] && s.tcbs[tid] == t
  {
    s.tcbs[tid] := t;
  }

  /** Overwrite the MLFQ metadata of `tid` with one whose level is in range. */
  method SetMlfqInfo(s: Scheduler, tid: int, info: MlfqInfo)
    requires s.Valid() && 0 <= tid < MAX_THREADS && 0 <= info.level <= BOTTOM_LEVEL
    modifies s.mlfqData
    ensures s.Valid()
    ensures s.mlfqData[..] == old(s.mlfqData[..])[tid := info] && s.mlfqData[tid] == info
  {
    s.mlfqData[tid] := info;
  }

  /** Set `current_cpu_thread`. */
  method SetCpu(s: Scheduler, holder: Option<int>)
    requires s.Valid() && (holder.Some? ==> 0 <= holder.value < s.tcbs.Length)
    modifies s`currentCpu
    ensures s.Valid() && s.currentCpu == holder
  {
    s.currentCpu := holder;
  }

  /** `advance_time_to`. */
  method Advance(s: Scheduler, target: int)
    requires s.Valid()
    modifies s`globalTime
    ensures s.Valid() && s.globalTime == Max(old(s.globalTime), target)
  {
    s.AdvanceTimeTo(target);
  }

  /** One fewer active worker. */
  method Retire(s: Scheduler)
    requires s.Valid()
    modifies s`activeThreads
    ensures s.Valid() && s.activeThreads == old(s.activeThreads) - 1
  {
    s.activeThreads := s.activeThreads - 1;
  }

  /** `enqueue` on the ready queue; the level queues are untouched. */
  method PushReady(s: Scheduler, tid: int)
    requires s.Valid() && 0 <= tid < s.tcbs.Length
    modifies s.readyQueue, s.readyQueue.threads
    ensures s.Valid()
    ensures s.readyQueue.Contents == Pushed(old(s.readyQueue.Contents), tid)
    ensures s.Levels == old(s.Levels)
  {
    s.readyQueue.Enqueue(tid);
  }

  /** `dequeue_tid_from_q` on the ready queue; the level queues are untouched. */
  method RemoveReady(s: Scheduler, tid: int)
    requires s.Valid()
    modifies s.readyQueue, s.readyQueue.threads
    ensures s.Valid()
    ensures s.readyQueue.Contents == RemoveFirst(old(s.readyQueue.Contents), tid)
    ensures s.Levels == old(s.Levels)
  {
    RemoveFirstInRange(s.readyQueue.Contents, tid, s.tcbs.Length);
    s.readyQueue.DequeueTid(tid);
  }

  /** `dequeue_tid_from_q` on level `l`; the ready queue is untouched. */
  method RemoveFromLevel(s: Scheduler, l: int, tid: int)
    requires s.Valid() && 0 <= l < MLFQ_LEVELS
    modifies s`Levels, s.mlfq[l], s.mlfq[l].threads
    ensures s.Valid()
    ensures s.Levels == old(s.Levels)[l := RemoveFirst(old(s.Levels[l]), tid)]
    ensures s.readyQueue.Contents == old(s.readyQueue.Contents)
  {
    s.DequeueLevel(l, tid);
  }

  /** `promote_on_new_burst`; the ready queue is untouched. */
  method Promote(s: Scheduler, tid: int)
    requires s.Valid() && 0 <= tid < s.threadCount
    modifies s`Levels, s.mlfq[0], s.mlfq[0].threads, s.mlfqData, s.tcbs
    ensures s.Valid()
    ensures s.Levels == old(s.Levels)[0 := Pushed(old(s.Levels[0]), tid)]
    ensures s.mlfqData[..] == old(s.mlfqData[..])[tid := MlfqInfo(0, 0)]
    ensures s.tcbs[..] == old(s.tcbs[..])[tid := old(s.tcbs[tid]).(state := Ready)]
    ensures s.readyQueue.Contents == old(s.readyQueue.Contents)
  {
    s.PromoteOnNewBurst(tid);
  }

  /** `demote_mlfq_thread`; the ready queue is untouched. */
  method Demote(s: Scheduler, tid: int)
    requires s.Valid() && 0 <= tid < s.threadCount
    modifies s`Levels, s.mlfq[DemotedLevel(s.mlfqData[tid].level)], s.mlfq[DemotedLevel(s.mlfqData[tid].level)].threads
    modifies s.mlfqData, s.tcbs
    ensures s.Valid()
    ensures var l := DemotedLevel(old(s.mlfqData[tid].level));
      && s.Levels == old(s.Levels)[l := Pushed(old(s.Levels[l]), tid)]
      && s.mlfqData[..] == old(s.mlfqData[..])[tid := MlfqInfo(l, 0)]
      && s.tcbs[..] == old(s.tcbs[..])[tid := old(s.tcbs[tid]).(state := Ready)]
    ensures s.readyQueue.Contents == old(s.readyQueue.Contents)
  {
    s.DemoteMlfq(tid);
  }

  /** `dequeue_tid_from_q` on the worker's level followed by `demote_mlfq_thread`. */
  method LeaveAndDemote(s: Scheduler, tid: int)
    requires s.Valid() && 0 <= tid < s.threadCount
    modifies s`Levels, s.mlfq[s.mlfqData[tid].level], s.mlfq[s.mlfqData[tid].level].threads
    modifies s.mlfq[DemotedLevel(s.mlfqData[tid].level)], s.mlfq[DemotedLevel(s.mlfqData[tid].level)].threads
    modifies s.mlfqData, s.tcbs
    ensures s.Valid()
    ensures var level := old(s.mlfqData[tid].level);
      var l := DemotedLevel(level);
      var removed := old(s.Levels)[level := RemoveFirst(old(s.Levels[level]), tid)];
      && s.Levels == removed[l := Pushed(removed[l], tid)]
      && s.mlfqData[..] == old(s.mlfqData[..])[tid := MlfqInfo(l, 0)]
      && s.tcbs[..] == old(s.tcbs[..])[tid := old(s.tcbs[tid]).(state := Ready)]
  {
    RemoveFromLevel(s, s.mlfqData[tid].level, tid);
    Demote(s, tid);
  }

  /** The hand-off repeated through interface.c: `current_cpu_thread` becomes the
      selector's choice, which is marked running. */
  method Dispatch(s: Scheduler)
    requires s.Valid()
    modifies s`globalTime, s`currentCpu, s.mlfqData, s.tcbs
    ensures s.Valid()
    ensures var sel := Select(s.kind, s.readyQueue.Contents, s.Levels, old(s.tcbs[..]), old(s.globalTime));
      && s.currentCpu == sel.choice && s.globalTime == sel.clock
      && s.tcbs[..] == Granted(old(s.tcbs[..]), sel.choice)
    ensures s.mlfqData[..] ==
      RecordPick(s.kind, old(s.mlfqData[..]), MlfqPick(s.Levels, old(s.tcbs[..]), old(s.globalTime), 0))
  {
    var next := s.SelectNext();
    SetCpu(s, next);
    if next.Some? {
      SetTcb(s, next.value, s.tcbs[next.value].(state := Running));
    }
  }

  /** `enqueue` on the I/O queue, and an idle device goes to the worker now at its head. */
  method JoinIo(s: Scheduler, tid: int)
    requires s.Valid() && 0 <= tid < s.tcbs.Length
    modifies s`currentIo, s.ioQueue, s.ioQueue.threads
    ensures s.Valid()
    ensures s.ioQueue.Contents == Pushed(old(s.ioQueue.Contents), tid)
    ensures s.currentIo == (if old(s.currentIo) == None then Some(tid) else old(s.currentIo))
  {
    s.ioQueue.Enqueue(tid);
    if s.currentIo == None && s.ioQueue.Peek() == Some(tid) {
      s.currentIo := Some(tid);
    }
  }

  /** The device holder leaves the head of the I/O queue and the next in line, if any,
      gets the device. */
  method LeaveIo(s: Scheduler)
    requires s.Valid()
    modifies s`currentIo, s.ioQueue, s.ioQueue.threads
    ensures s.Valid()
    ensures s.ioQueue.Contents == if old(s.ioQueue.Contents) == [] then [] else old(s.ioQueue.Contents)[1..]
    ensures s.currentIo == if s.ioQueue.Contents == [] then None else Some(s.ioQueue.Contents[0])
  {
    var _ := s.ioQueue.Dequeue();
    s.currentIo := s.ioQueue.Peek();
  }

  /** `advance_IO_time_to`. */
  method AdvanceIo(s: Scheduler, target: int)
    requires s.Valid()
    modifies s`globalIOTime
    ensures s.Valid() && s.globalIOTime == Max(old(s.globalIOTime), target)
  {
    s.AdvanceIOTimeTo(target);
  }

  /** The non-blocking half of P on semaphore `k`. */
  method SemTryAcquire(s: Scheduler, k: int) returns (acquired: bool)
    requires s.Valid() && 0 <= k < |s.semaphores|
    modifies s.semaphores[k]
    ensures s.Valid()
    ensures var m := s.semaphores[k];
      && (acquired <==> old(m.value) > 0)
      && m.value == (if acquired then old(m.value) - 1 else old(m.value))
      && m.Waiters == old(m.Waiters)
  {
    acquired := s.semaphores[k].TryAcquire();
  }

  /** The blocking half of P on semaphore `k`: `tid` joins its waiters. */
  method SemBlock(s: Scheduler, k: int, tid: int)
    requires s.Valid() && 0 <= k < |s.semaphores| && 0 <= tid < s.tcbs.Length
    requires s.semaphores[k].value <= 0 && s.semaphores[k].blockedCount < MAX_THREADS
    modifies s.semaphores[k], s.semaphores[k].blockedThreads
    ensures s.Valid()
    ensures var m := s.semaphores[k];
      m.Waiters == old(m.Waiters) + [tid] && m.value == old(m.value)
  {
    s.semaphores[k].Block(tid);
  }

  /** The semaphore half of V on semaphore `k`. */
  method SemRelease(s: Scheduler, k: int) returns (woken: Option<int>)
    requires s.Valid() && 0 <= k < |s.semaphores|
    modifies s.semaphores[k], s.semaphores[k].blockedThreads
    ensures s.Valid()
    ensures woken.Some? ==> 0 <= woken.value < s.tcbs.Length
    ensures var m := s.semaphores[k];
      var w := old(m.Waiters);
      && (w == [] ==> woken == None && m.value == old(m.value) + 1 && m.Waiters == [])
      && (w != [] ==>
            var i := LowestIndex(w);
            woken == Some(w[i]) && m.Waiters == w[..i] + w[i + 1..] && m.value == old(m.value))
  {
    ghost var w := s.semaphores[k].Waiters;
    woken := s.semaphores[k].Signal();
    ghost var m := s.semaphores[k];
    assert m.Valid();
    if w != [] {
      assert woken.value == w[LowestIndex(w)];
      assert forall j :: 0 <= j < |m.Waiters| ==> m.Waiters[j] in w;
    } else {
      assert m.Waiters == [];
    }
  }
}
