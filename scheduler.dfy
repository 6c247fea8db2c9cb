// The scheduler's shared state (the globals of libscheduler/scheduler.c), its set-up by
// init_scheduler (libscheduler/init.c:5-50), the two clocks, the policy selectors and the
// MLFQ level helpers (libscheduler/scheduler.c:87-215, 237-286).
module Scheduling {
  import opened Types
  import opened Queues
  import opened Semaphores
  import opened Policy

  /** A burst starts when the worker never ran, ran to zero, or reports more work
      than it had left after its previous step. */
  predicate NewBurst(lastCpuRemaining: int, remainingTime: int)
  {
    lastCpuRemaining <= 0 || remainingTime > lastCpuRemaining
  }

  /** The level a demotion moves to: one lower in priority, never below the bottom. */
  function DemotedLevel(level: int): (r: int)
    requires 0 <= level <= BOTTOM_LEVEL
    ensures 0 <= r <= BOTTOM_LEVEL
    ensures level < BOTTOM_LEVEL ==> r == level + 1
    ensures level == BOTTOM_LEVEL ==> r == level
  {
    if level < BOTTOM_LEVEL then level + 1 else level
  }

  /** The control-block table of `init_scheduler`: worker `i` has id `i`, is ready, has
      never run (`last_cpu_remaining == -1`) and has tick and wake time 0. */
  method NewControlBlocks(count: nat) returns (blocks: array<Tcb>)
    ensures blocks.Length == count
    ensures forall i :: 0 <= i < count ==> blocks[i] == Tcb(i, 0, 0.0, -1, 0, Ready)
  {
    blocks := new Tcb[count];
    for i := 0 to count
      invariant forall j :: 0 <= j < i ==> blocks[j] == Tcb(j, 0, 0.0, -1, 0, Ready)
    {
      blocks[i] := Tcb(i, 0, 0.0, -1, 0, Ready);
    }
  }

  /** Removing an id from a queue of valid ids leaves a queue of valid ids. */
  lemma {:induction false} RemoveFirstInRange(q: seq<int>, x: int, n: int)
    requires InRange(q, n)
    ensures InRange(RemoveFirst(q, x), n)
  {
    if q != [] && q[0] != x {
      RemoveFirstInRange(q[1..], x, n);
    }
  }

  /** The metadata after a selection: under MLFQ a ready-now pick records its level. */
  function RecordPick(kind: SchedulerType, data: seq<MlfqInfo>, p: Option<Pick>): (r: seq<MlfqInfo>)
    requires p.Some? ==> 0 <= p.value.tid < |data|
    ensures |r| == |data|
    ensures forall i :: 0 <= i < |data| ==> r[i].quantumUsed == data[i].quantumUsed
    ensures forall i :: 0 <= i < |data| && (p.None? || i != p.value.tid) ==> r[i] == data[i]
    ensures p.Some? ==> r[p.value.tid].level == if kind == MLFQ then p.value.level else data[p.value.tid].level
  {
    if kind == MLFQ && p.Some? then data[p.value.tid := data[p.value.tid].(level := p.value.level)] else data
  }

  /** The MLFQ metadata of `init_scheduler`: level 0 and no quantum used, for every id. */
  method NewMlfqData() returns (data: array<MlfqInfo>)
    ensures data.Length == MAX_THREADS
    ensures forall i :: 0 <= i < MAX_THREADS ==> data[i] == MlfqInfo(0, 0)
  {
    data := new MlfqInfo[MAX_THREADS];
    for i := 0 to MAX_THREADS
      invariant forall j :: 0 <= j < i ==> data[j] == MlfqInfo(0, 0)
    {
      data[i] := MlfqInfo(0, 0);
    }
  }

  /** No two of the ready queue, the I/O queue and the level queues share an object
      or an array. */
  ghost predicate QueuesApart(rq: TidQueue, iq: TidQueue, levels: seq<TidQueue>)
  {
    && rq != iq && rq.threads != iq.threads
    && (forall l :: 0 <= l < |levels| ==>
          && levels[l] != rq && levels[l] != iq
          && levels[l].threads != rq.threads && levels[l].threads != iq.threads)
    && (forall l, m :: 0 <= l < |levels| && 0 <= m < |levels| && l != m ==>
          levels[l] != levels[m] && levels[l].threads != levels[m].threads)
  }

  /** No two semaphores share an object or an array, and none shares an array with
      a queue. */
  ghost predicate SemsApart(sems: seq<Semaphore>, rq: TidQueue, iq: TidQueue, levels: seq<TidQueue>)
  {
    && (forall k :: 0 <= k < |sems| ==>
          sems[k].blockedThreads != rq.threads && sems[k].blockedThreads != iq.threads)
    && (forall k, l :: 0 <= k < |sems| && 0 <= l < |levels| ==>
          sems[k].blockedThreads != levels[l].threads)
    && (forall k, j :: 0 <= k < |sems| && 0 <= j < |sems| && k != j ==>
          sems[k] != sems[j] && sems[k].blockedThreads != sems[j].blockedThreads)
  }

  /** Part-way through the filter of `select_next_thread_srtf`, after `i` entries of
      `q`: the first `n` cells of the candidate buffer `cs` hold the entries so far
      that are ready at `now`. */
  ghost predicate Filtered(q: seq<int>, i: int, ts: seq<Tcb>, now: int, cs: seq<int>, n: int)
  {
    && 0 <= i <= |q| && InRange(q, |ts|)
    && var kept := ReadyNow(q[..i], ts, now);
    && 0 <= n == |kept| <= i && n <= |cs|
    && forall j :: 0 <= j < n ==> cs[j] == kept[j]
  }

  /** One step of the filter: a ready entry is written into the next free cell, any
      other entry is passed over. */
  lemma FilterStep(q: seq<int>, i: int, ts: seq<Tcb>, now: int, cs: seq<int>, n: int)
    requires Filtered(q, i, ts, now, cs, n) && i < |q| && |cs| == MAX_THREADS && |q| <= MAX_THREADS
    ensures ts[q[i]].readyArrivalTick <= now as real ==>
      n < |cs| && Filtered(q, i + 1, ts, now, cs[n := q[i]], n + 1)
    ensures ts[q[i]].readyArrivalTick > now as real ==> Filtered(q, i + 1, ts, now, cs, n)
  {
    assert q[..i + 1] == q[..i] + [q[i]];
    ReadyNowSnoc(q[..i], q[i], ts, now);
  }

  /** At the end of the filter the buffer's prefix is the filtered queue. */
  lemma FilterDone(q: seq<int>, ts: seq<Tcb>, now: int, cs: seq<int>, n: int)
    requires Filtered(q, |q|, ts, now, cs, n)
    ensures 0 <= n <= |cs| && cs[..n] == ReadyNow(q, ts, now)
  {
    assert q[..|q|] == q;
  }

  /** The queues of `init_scheduler`: an empty ready queue, I/O queue and five empty
      level queues. */
  method NewQueueSet() returns (rq: TidQueue, iq: TidQueue, levels: seq<TidQueue>)
    ensures rq.Valid() && rq.Contents == [] && iq.Valid() && iq.Contents == []
    ensures |levels| == MLFQ_LEVELS
    ensures forall m :: 0 <= m < MLFQ_LEVELS ==> levels[m].Valid() && levels[m].Contents == []
    ensures QueuesApart(rq, iq, levels)
  {
    rq := new TidQueue();
    iq := new TidQueue();
    levels := [];
    for l := 0 to MLFQ_LEVELS
      invariant |levels| == l
      invariant forall m :: 0 <= m < l ==>
        fresh(levels[m]) && fresh(levels[m].threads) && levels[m].Valid() && levels[m].Contents == []
      invariant rq.Valid() && rq.Contents == [] && iq.Valid() && iq.Contents == []
      invariant QueuesApart(rq, iq, levels)
    {
      var q := new TidQueue();
      levels := levels + [q];
    }
  }

  /** The semaphores of `init_scheduler`: value 0 and no waiters. */
  method NewSemaphores(n: nat, ghost rq: TidQueue, ghost iq: TidQueue, ghost levels: seq<TidQueue>)
    returns (sems: seq<Semaphore>)
    ensures |sems| == n
    ensures forall j :: 0 <= j < n ==> sems[j].Valid() && sems[j].value == 0 && sems[j].Waiters == []
    ensures SemsApart(sems, rq, iq, levels)
  {
    sems := [];
    for k := 0 to n
      invariant |sems| == k
      invariant forall j :: 0 <= j < k ==>
        && fresh(sems[j]) && fresh(sems[j].blockedThreads)
        && sems[j].Valid() && sems[j].value == 0 && sems[j].Waiters == []
      invariant SemsApart(sems, rq, iq, levels)
    {
      var m := new Semaphore();
      sems := sems + [m];
    }
  }

  class Scheduler {
    const kind: SchedulerType
    /** `MLFQ_TIME_QUANTUM`, one quantum per level. */
    const quanta: seq<int>
    const threadCount: int
    var activeThreads: int
    var globalTime: int
    var globalIOTime: int
    const tcbs: array<Tcb>
    const mlfqData: array<MlfqInfo>
    const readyQueue: TidQueue
    const ioQueue: TidQueue
    const mlfq: seq<TidQueue>
    const semaphores: seq<Semaphore>
    /** `current_cpu_thread` and `current_io_thread` as ids. */
    var currentCpu: Option<int>
    var currentIo: Option<int>
    /** The contents of the five MLFQ level queues, level 0 first. */
    ghost var Levels: seq<seq<int>>

    ghost function MlfqRepr(): set<object>
    {
      (set l | 0 <= l < |mlfq| :: mlfq[l] as object) + (set l | 0 <= l < |mlfq| :: mlfq[l].threads as object)
    }

    ghost function SemRepr(): set<object>
    {
      (set k | 0 <= k < |semaphores| :: semaphores[k] as object)
        + (set k | 0 <= k < |semaphores| :: semaphores[k].blockedThreads as object)
    }

    ghost function Repr(): set<object>
    {
      {this, tcbs, mlfqData, readyQueue, readyQueue.threads, ioQueue, ioQueue.threads}
        + MlfqRepr() + SemRepr()
    }

    /** Sizes fixed at set-up. */
    ghost predicate Shape()
    {
      && |quanta| == MLFQ_LEVELS && (forall l :: 0 <= l < MLFQ_LEVELS ==> quanta[l] > 0)
      && |mlfq| == MLFQ_LEVELS
      && 0 <= threadCount <= MAX_THREADS
      && tcbs.Length == threadCount && mlfqData.Length == MAX_THREADS
    }

    ghost predicate QueuesSeparate()
    {
      QueuesApart(readyQueue, ioQueue, mlfq)
    }

    ghost predicate SemsSeparate()
    {
      SemsApart(semaphores, readyQueue, ioQueue, mlfq)
    }

    /** Each control block sits at its own id and every recorded MLFQ level is in range. */
    ghost predicate TablesValid()
      reads tcbs, mlfqData
    {
      TcbsValid() && LevelDataValid()
    }

    ghost predicate TcbsValid()
      reads tcbs
    {
      forall i :: 0 <= i < tcbs.Length ==> tcbs[i].tid == i
    }

    ghost predicate LevelDataValid()
      reads mlfqData
    {
      forall i :: 0 <= i < mlfqData.Length ==> 0 <= mlfqData[i].level <= BOTTOM_LEVEL
    }

    /** The ready and I/O queues are well formed and hold valid ids. */
    ghost predicate QueuesValid()
      reads readyQueue, readyQueue.threads, ioQueue, ioQueue.threads
    {
      && readyQueue.Valid() && InRange(readyQueue.Contents, tcbs.Length)
      && ioQueue.Valid() && InRange(ioQueue.Contents, tcbs.Length)
    }

    /** The five level queues are well formed and hold valid ids. */
    ghost predicate LevelsValid()
      reads this, MlfqRepr()
    {
      && |mlfq| == MLFQ_LEVELS && |Levels| == MLFQ_LEVELS
      && forall l :: 0 <= l < |mlfq| ==>
        mlfq[l].Valid() && Levels[l] == mlfq[l].Contents && InRange(Levels[l], tcbs.Length)
    }

    /** Every semaphore is well formed and its waiters are valid ids. */
    ghost predicate SemsValid()
      reads SemRepr()
    {
      forall k :: 0 <= k < |semaphores| ==>
        semaphores[k].Valid() && InRange(semaphores[k].Waiters, tcbs.Length)
    }

    /** The CPU holder is a valid id, and the I/O device is held exactly by the head
        of the I/O queue. */
    ghost predicate HoldersValid()
      reads this, ioQueue
    {
      && (currentCpu.Some? ==> 0 <= currentCpu.value < tcbs.Length)
      && currentIo == (if ioQueue.Contents == [] then None else Some(ioQueue.Contents[0]))
    }

    /** The scheduler invariant. */
    ghost predicate Valid()
      reads Repr()
    {
      && Shape() && QueuesSeparate() && SemsSeparate() && TablesValid() && QueuesValid() && LevelsValid()
      && SemsValid() && HoldersValid()
    }

    /** `init_scheduler(type, count)` with the constants of api.h as parameters. */
    constructor (schedulerType: SchedulerType, count: int, mlfqQuanta: seq<int>, semaphoreCount: nat)
      requires 0 <= count <= MAX_THREADS
      requires |mlfqQuanta| == MLFQ_LEVELS && forall l :: 0 <= l < MLFQ_LEVELS ==> mlfqQuanta[l] > 0
      ensures Valid()
      ensures kind == schedulerType && quanta == mlfqQuanta
      ensures threadCount == count && activeThreads == count
      ensures globalTime == 0 && globalIOTime == 0
      ensures forall i :: 0 <= i < count ==>
        && tcbs[i].tid == i && tcbs[i].state == Ready && tcbs[i].lastCpuRemaining == -1
        && tcbs[i].readyArrivalTick == 0.0 && tcbs[i].wakeTime == 0
      ensures forall i, remaining :: 0 <= i < count ==> NewBurst(tcbs[i].lastCpuRemaining, remaining)
      ensures readyQueue.Contents == [] && ioQueue.Contents == []
      ensures forall l :: 0 <= l < MLFQ_LEVELS ==> Levels[l] == []
      ensures forall i :: 0 <= i < MAX_THREADS ==> mlfqData[i] == MlfqInfo(0, 0)
      ensures |semaphores| == semaphoreCount
      ensures forall k :: 0 <= k < semaphoreCount ==>
        semaphores[k].value == 0 && semaphores[k].Waiters == []
      ensures currentCpu == None && currentIo == None
    {
      kind := schedulerType;
      quanta := mlfqQuanta;
      threadCount := count;
      activeThreads := count;
      globalTime := 0;
      globalIOTime := 0;
      var blocks := NewControlBlocks(count);
      tcbs := blocks;
      var rq, iq, levels := NewQueueSet();
      readyQueue, ioQueue, mlfq := rq, iq, levels;
      Levels := seq(MLFQ_LEVELS, _ => []);
      var data := NewMlfqData();
      mlfqData := data;
      var sems := NewSemaphores(semaphoreCount, rq, iq, levels);
      semaphores := sems;
      currentCpu := None;
      currentIo := None;
    }

    /** `advance_time_to`: tick the CPU clock up to `target`; it never goes back. */
    method AdvanceTimeTo(target: int)
      modifies this`globalTime
      ensures globalTime == Max(old(globalTime), target)
    {
      while globalTime < target
        invariant globalTime == old(globalTime) || old(globalTime) < globalTime <= target
        decreases target - globalTime
      {
        globalTime := globalTime + 1;
      }
    }

    /** `advance_IO_time_to`: the same for the I/O clock. */
    method AdvanceIOTimeTo(target: int)
      modifies this`globalIOTime
      ensures globalIOTime == Max(old(globalIOTime), target)
    {
      while globalIOTime < target
        invariant globalIOTime == old(globalIOTime) || old(globalIOTime) < globalIOTime <= target
        decreases target - globalIOTime
      {
        globalIOTime := globalIOTime + 1;
      }
    }

    /** `select_next_thread_fcfs`: the scan for the earliest arrival, ties to the
        lower id; `q` is left as it is. */
    method SelectFcfs(q: TidQueue) returns (r: Option<int>)
      requires q.Valid() && InRange(q.Contents, tcbs.Length)
      ensures r == ArgMin(q.Contents, ArrivalKeys(tcbs[..]))
    {
      if q.count == 0 {
        return None;
      }
      ghost var ts := tcbs[..];
      ghost var scanned: seq<int> := [];
      ghost var best: Option<int> := None;
      var bestIdx := -1;
      var bestTick := 0.0;
      var bestTid := 0;
      for i := 0 to q.count
        invariant scanned == q.Contents[..i] && InRange(scanned, |ts|)
        invariant best == ArgMin(scanned, ArrivalKeys(ts))
        invariant best.None? <==> bestIdx == -1
        invariant best.Some? ==>
          && 0 <= bestIdx < MAX_THREADS && q.threads[bestIdx] == best.value
          && bestTick == ts[best.value].readyArrivalTick && bestTid == ts[best.value].tid
      {
        SlotIsMod(q.front, i);
        var idx := (q.front + i) % MAX_THREADS;
        var t := q.threads[idx];
        assert t == q.Contents[i];
        TakeSnoc(q.Contents, i);
        ArrivalScanStep(scanned, t, ts, best, bestTick, bestTid);
        if bestIdx == -1 || tcbs[t].readyArrivalTick < bestTick
          || (tcbs[t].readyArrivalTick == bestTick && tcbs[t].tid < bestTid)
        {
          bestTick := tcbs[t].readyArrivalTick;
          bestTid := tcbs[t].tid;
          bestIdx := idx;
          best := Some(t);
        }
        scanned := scanned + [t];
      }
      assert q.Contents[..q.count] == q.Contents;
      r := Some(q.threads[bestIdx]);
    }

    /** The filter of `select_next_thread_srtf`: the ready-queue members that are ready
        now, copied in queue order into a fresh candidate array. */
    method ReadyCandidates() returns (candidates: array<int>, n: int)
      requires readyQueue.Valid() && InRange(readyQueue.Contents, tcbs.Length)
      ensures fresh(candidates) && candidates.Length == MAX_THREADS && 0 <= n <= readyQueue.count
      ensures candidates[..n] == ReadyNow(readyQueue.Contents, tcbs[..], globalTime)
    {
      ghost var q := readyQueue.Contents;
      ghost var ts := tcbs[..];
      candidates := new int[MAX_THREADS];
      n := 0;
      for i := 0 to readyQueue.count
        invariant Filtered(q, i, ts, globalTime, candidates[..], n)
      {
        var t := readyQueue.EntryAt(i);
        FilterStep(q, i, ts, globalTime, candidates[..], n);
        if tcbs[t].readyArrivalTick <= globalTime as real {
          ghost var before := candidates[..];
          candidates[n] := t;
          assert candidates[..] == before[n := t];
          n := n + 1;
        }
      }
      FilterDone(q, ts, globalTime, candidates[..], n);
    }

    /** The second scan of `select_next_thread_srtf`: the candidate with the least
        remaining time, ties to the lower id. */
    method ShortestCandidate(candidates: array<int>, n: int) returns (r: Option<int>)
      requires 0 < n <= candidates.Length && InRange(candidates[..n], tcbs.Length)
      ensures r == ArgMin(candidates[..n], RemainingKeys(tcbs[..]))
    {
      ghost var cs := candidates[..n];
      ghost var keys := RemainingKeys(tcbs[..]);
      var bestIdx := -1;
      var bestRemaining := 0;
      var bestTid := 0;
      for i := 0 to n
        invariant bestIdx == -1 <==> i == 0
        invariant 0 < i ==>
          && 0 <= bestIdx < n
          && ArgMin(cs[..i], keys) == Some(cs[bestIdx])
          && keys[cs[bestIdx]] == Key(bestRemaining as real, bestTid)
      {
        var t := candidates[i];
        assert t == cs[i];
        assert cs[..i + 1][..i] == cs[..i];
        if bestIdx == -1 || tcbs[t].remainingTime < bestRemaining
          || (tcbs[t].remainingTime == bestRemaining && tcbs[t].tid < bestTid)
        {
          bestRemaining := tcbs[t].remainingTime;
          bestTid := tcbs[t].tid;
          bestIdx := i;
        }
      }
      assert cs[..n] == cs;
      r := Some(candidates[bestIdx]);
    }

    /** `select_next_thread_srtf`, including its fallback that moves the clock. */
    method SelectSrtf() returns (r: Option<int>)
      requires readyQueue.Valid() && InRange(readyQueue.Contents, tcbs.Length)
      modifies this`globalTime
      ensures var sel := SrtfSelect(readyQueue.Contents, tcbs[..], old(globalTime));
        r == sel.choice && globalTime == sel.clock
    {
      if readyQueue.count == 0 {
        return None;
      }
      var candidates, candidateCount := ReadyCandidates();
      if candidateCount == 0 {
        var earliest := SelectFcfs(readyQueue);
        AdvanceTimeTo(Trunc(tcbs[earliest.value].readyArrivalTick));
        return earliest;
      }
      r := ShortestCandidate(candidates, candidateCount);
    }

    /** The members of `q` that are ready now, copied in order into a fresh queue: one
        of the temporary queues of `select_next_thread_mlfq`. */
    method ReadyMembers(q: TidQueue) returns (temp: TidQueue)
      requires q.Valid() && InRange(q.Contents, tcbs.Length)
      ensures fresh(temp) && fresh(temp.threads) && temp.Valid()
      ensures temp.Contents == ReadyNow(q.Contents, tcbs[..], globalTime)
    {
      ghost var ts := tcbs[..];
      ghost var scanned: seq<int> := [];
      temp := new TidQueue();
      for i := 0 to q.count
        invariant scanned == q.Contents[..i] && InRange(scanned, |ts|)
        invariant fresh(temp) && fresh(temp.threads) && temp.Valid()
        invariant temp.Contents == ReadyNow(scanned, ts, globalTime)
      {
        var t := q.EntryAt(i);
        TakeSnoc(q.Contents, i);
        ReadyNowSnoc(scanned, t, ts, globalTime);
        if tcbs[t].readyArrivalTick <= globalTime as real {
          temp.Enqueue(t);
        }
        scanned := scanned + [t];
      }
      assert q.Contents[..q.count] == q.Contents;
    }

    /** The main rule of `select_next_thread_mlfq`: level by level, the FCFS choice among
        the first level's members that are ready now, with that level. */
    method FirstReadyPick() returns (pick: Option<Pick>)
      requires LevelsValid()
      ensures LevelsInRange(Levels, tcbs.Length)
      ensures pick == MlfqPick(Levels, tcbs[..], globalTime, 0)
    {
      ghost var levels := Levels;
      ghost var ts := tcbs[..];
      for lvl := 0 to MLFQ_LEVELS
        invariant MlfqPick(levels, ts, globalTime, 0) == MlfqPick(levels, ts, globalTime, lvl)
      {
        var temp := ReadyMembers(mlfq[lvl]);
        if temp.count > 0 {
          var next := SelectFcfs(temp);
          return Some(Pick(next.value, lvl));
        }
      }
      return None;
    }

    /** One level of the fallback scan of `select_next_thread_mlfq`: continue the
        search for the earliest ceiled tick, begun over `seen`, through `q`. */
    method ScanEarliestCeil(q: TidQueue, ghost seen: seq<int>, earliest0: Option<int>, tick0: int)
      returns (earliest: Option<int>, earliestTick: int)
      requires q.Valid() && InRange(q.Contents, tcbs.Length) && InRange(seen, tcbs.Length)
      requires earliest0 == ArgMin(seen, CeilArrivalKeys(tcbs[..]))
      requires earliest0.Some? ==> tick0 == Ceil(tcbs[earliest0.value].readyArrivalTick)
      ensures InRange(seen + q.Contents, tcbs.Length)
      ensures earliest == ArgMin(seen + q.Contents, CeilArrivalKeys(tcbs[..]))
      ensures earliest.Some? ==> earliestTick == Ceil(tcbs[earliest.value].readyArrivalTick)
    {
      ghost var ts := tcbs[..];
      ghost var scanned := seen;
      earliest, earliestTick := earliest0, tick0;
      for i := 0 to q.count
        invariant scanned == seen + q.Contents[..i]
        invariant InRange(scanned, tcbs.Length)
        invariant earliest == ArgMin(scanned, CeilArrivalKeys(ts))
        invariant earliest.Some? ==> earliestTick == Ceil(ts[earliest.value].readyArrivalTick)
      {
        var t := q.EntryAt(i);
        PrefixSnoc(seen, q.Contents, i);
        CeilScanStep(scanned, t, ts, earliest, earliestTick);
        var tick := Ceil(tcbs[t].readyArrivalTick);
        if earliest.None? || tick < earliestTick
          || (tick == earliestTick && tcbs[t].tid < tcbs[earliest.value].tid)
        {
          earliestTick := tick;
          earliest := Some(t);
        }
        scanned := scanned + [t];
      }
      assert q.Contents[..q.count] == q.Contents;
    }

    /** The fallback scan of `select_next_thread_mlfq` over all levels: the earliest
        ceiled tick, ties to the lower id. */
    method EarliestCeil() returns (earliest: Option<int>)
      requires LevelsValid()
      ensures InRange(Flatten(Levels), tcbs.Length)
      ensures earliest == ArgMin(Flatten(Levels), CeilArrivalKeys(tcbs[..]))
    {
      ghost var levels := Levels;
      ghost var seen: seq<int> := [];
      var earliestTick := 0;
      earliest := None;
      for lvl := 0 to MLFQ_LEVELS
        invariant seen == Flatten(levels[..lvl]) && InRange(seen, tcbs.Length)
        invariant earliest == ArgMin(seen, CeilArrivalKeys(tcbs[..]))
        invariant earliest.Some? ==> earliestTick == Ceil(tcbs[earliest.value].readyArrivalTick)
      {
        earliest, earliestTick := ScanEarliestCeil(mlfq[lvl], seen, earliest, earliestTick);
        assert levels[..lvl + 1][..lvl] == levels[..lvl];
        seen := seen + mlfq[lvl].Contents;
      }
      assert levels[..MLFQ_LEVELS] == levels;
    }

    /** `select_next_thread_mlfq`: records the level of a ready-now pick in `mlfq_data`;
        otherwise falls back to the earliest ceiled tick and moves the clock there. */
    method SelectMlfq() returns (r: Option<int>)
      requires LevelsValid() && TablesValid() && tcbs.Length <= mlfqData.Length
      modifies this`globalTime, mlfqData
      ensures TablesValid() && LevelsInRange(Levels, tcbs.Length)
      ensures var sel := MlfqSelect(Levels, tcbs[..], old(globalTime));
        r == sel.choice && globalTime == sel.clock
      ensures var p := MlfqPick(Levels, tcbs[..], old(globalTime), 0);
        mlfqData[..] == if p.Some?
          then old(mlfqData[..])[p.value.tid := old(mlfqData[p.value.tid]).(level := p.value.level)]
          else old(mlfqData[..])
    {
      var pick := FirstReadyPick();
      if pick.Some? {
        var next := pick.value.tid;
        mlfqData[next] := mlfqData[next].(level := pick.value.level);
        return Some(next);
      }
      var earliest := EarliestCeil();
      if earliest.Some? {
        AdvanceTimeTo(Ceil(tcbs[earliest.value].readyArrivalTick));
      }
      r := earliest;
    }

    /** `select_next_thread`: the policy's selector; an unknown policy selects nobody. */
    method SelectNext() returns (r: Option<int>)
      requires Shape() && TablesValid() && QueuesValid() && LevelsValid()
      modifies this`globalTime, mlfqData
      ensures TablesValid()
      ensures var sel := Select(kind, readyQueue.Contents, Levels, tcbs[..], old(globalTime));
        r == sel.choice && globalTime == sel.clock
      ensures mlfqData[..] == RecordPick(kind, old(mlfqData[..]), MlfqPick(Levels, tcbs[..], old(globalTime), 0))
    {
      match kind
      case FCFS =>
        r := SelectFcfs(readyQueue);
      case SRTF =>
        r := SelectSrtf();
      case MLFQ =>
        r := SelectMlfq();
      case Unrecognised =>
        r := None;
    }

    /** `enqueue` on the level-`l` queue; the other levels stay as they are. */
    method EnqueueLevel(l: int, tid: int)
      requires Shape() && QueuesSeparate() && LevelsValid()
      requires 0 <= l < MLFQ_LEVELS && 0 <= tid < tcbs.Length
      modifies this`Levels, mlfq[l], mlfq[l].threads
      ensures LevelsValid()
      ensures Levels == old(Levels)[l := Pushed(old(Levels[l]), tid)]
    {
      mlfq[l].Enqueue(tid);
      Levels := Levels[l := mlfq[l].Contents];
    }

    /** `dequeue_tid_from_q` on the level-`l` queue; the other levels stay as they are. */
    method DequeueLevel(l: int, tid: int)
      requires Shape() && QueuesSeparate() && LevelsValid()
      requires 0 <= l < MLFQ_LEVELS
      modifies this`Levels, mlfq[l], mlfq[l].threads
      ensures LevelsValid()
      ensures Levels == old(Levels)[l := RemoveFirst(old(Levels[l]), tid)]
    {
      RemoveFirstInRange(mlfq[l].Contents, tid, tcbs.Length);
      mlfq[l].DequeueTid(tid);
      Levels := Levels[l := mlfq[l].Contents];
    }

    /** `enqueue_mlfq`: clamp the level into range, append to that level's queue,
        record the level and mark the worker ready. */
    method EnqueueMlfq(tid: int, level: int)
      requires Shape() && QueuesSeparate() && TablesValid() && LevelsValid() && 0 <= tid < threadCount
      modifies this`Levels, mlfq[ClampLevel(level)], mlfq[ClampLevel(level)].threads, mlfqData, tcbs
      ensures TablesValid() && LevelsValid()
      ensures var l := ClampLevel(level);
        && Levels == old(Levels)[l := Pushed(old(Levels[l]), tid)]
        && mlfqData[..] == old(mlfqData[..])[tid := old(mlfqData[tid]).(level := l)]
        && tcbs[..] == old(tcbs[..])[tid := old(tcbs[tid]).(state := Ready)]
    {
      var l := level;
      if l < 0 {
        l := 0;
      }
      if l >= MLFQ_LEVELS {
        l := BOTTOM_LEVEL;
      }
      mlfqData[tid] := mlfqData[tid].(level := l);
      tcbs[tid] := tcbs[tid].(state := Ready);
      EnqueueLevel(l, tid);
    }

    /** `demote_mlfq_thread`: re-enqueue one level lower (the bottom level stays) with
        the quantum use reset. */
    method DemoteMlfq(tid: int)
      requires Shape() && QueuesSeparate() && TablesValid() && LevelsValid() && 0 <= tid < threadCount
      modifies this`Levels, mlfq[DemotedLevel(mlfqData[tid].level)], mlfq[DemotedLevel(mlfqData[tid].level)].threads
      modifies mlfqData, tcbs
      ensures TablesValid() && LevelsValid()
      ensures var l := DemotedLevel(old(mlfqData[tid].level));
        && Levels == old(Levels)[l := Pushed(old(Levels[l]), tid)]
        && mlfqData[..] == old(mlfqData[..])[tid := MlfqInfo(l, 0)]
        && tcbs[..] == old(tcbs[..])[tid := old(tcbs[tid]).(state := Ready)]
    {
      var oldLevel := mlfqData[tid].level;
      var newLevel := if oldLevel < BOTTOM_LEVEL then oldLevel + 1 else oldLevel;
      assert ClampLevel(newLevel) == DemotedLevel(oldLevel);
      EnqueueMlfq(tid, newLevel);
      mlfqData[tid] := mlfqData[tid].(quantumUsed := 0);
    }

    /** `promote_on_new_burst`: back to level 0 with the quantum use reset. */
    method PromoteOnNewBurst(tid: int)
      requires Shape() && QueuesSeparate() && TablesValid() && LevelsValid() && 0 <= tid < threadCount
      modifies this`Levels, mlfq[0], mlfq[0].threads, mlfqData, tcbs
      ensures TablesValid() && LevelsValid()
      ensures && Levels == old(Levels)[0 := Pushed(old(Levels[0]), tid)]
              && mlfqData[..] == old(mlfqData[..])[tid := MlfqInfo(0, 0)]
              && tcbs[..] == old(tcbs[..])[tid := old(tcbs[tid]).(state := Ready)]
    {
      mlfqData[tid] := mlfqData[tid].(level := 0, quantumUsed := 0);
      EnqueueMlfq(tid, 0);
    }
  }
}
