// The selection rules of the three policies as functions of the queue contents, the control
// blocks and the clock (libscheduler/scheduler.c:115-286), and the MLFQ level clamp
// (libscheduler/scheduler.c:195-201). The selector methods of the scheduler are proved
// against these definitions.
module Policy {
  import opened Types

  /** Every id in `q` indexes a control block. */
  predicate InRange(q: seq<int>, n: int)
  {
    forall i :: 0 <= i < |q| ==> 0 <= q[i] < n
  }

  /** The ordering key of a candidate: a primary measure, then its id as the tie-break. */
  datatype Key = Key(primary: real, tid: int)

  /** `a` is chosen over `b`: a smaller measure, or the same measure and a smaller id. */
  predicate Precedes(a: Key, b: Key)
  {
    a.primary < b.primary || (a.primary == b.primary && a.tid < b.tid)
  }

  /** FCFS order: earliest `ready_arrival_tick`, then lowest id. */
  function ArrivalKeys(tcbs: seq<Tcb>): (ks: seq<Key>)
    ensures |ks| == |tcbs|
    ensures forall i :: 0 <= i < |tcbs| ==> ks[i] == Key(tcbs[i].readyArrivalTick, tcbs[i].tid)
  {
    seq(|tcbs|, i requires 0 <= i < |tcbs| => Key(tcbs[i].readyArrivalTick, tcbs[i].tid))
  }

  /** SRTF order: least `remaining_time`, then lowest id. */
  function RemainingKeys(tcbs: seq<Tcb>): (ks: seq<Key>)
    ensures |ks| == |tcbs|
    ensures forall i :: 0 <= i < |tcbs| ==> ks[i] == Key(tcbs[i].remainingTime as real, tcbs[i].tid)
  {
    seq(|tcbs|, i requires 0 <= i < |tcbs| => Key(tcbs[i].remainingTime as real, tcbs[i].tid))
  }

  /** Order of the MLFQ fallback: earliest `ceil(ready_arrival_tick)`, then lowest id. */
  function CeilArrivalKeys(tcbs: seq<Tcb>): (ks: seq<Key>)
    ensures |ks| == |tcbs|
    ensures forall i :: 0 <= i < |tcbs| ==> ks[i] == Key(Ceil(tcbs[i].readyArrivalTick) as real, tcbs[i].tid)
  {
    seq(|tcbs|, i requires 0 <= i < |tcbs| => Key(Ceil(tcbs[i].readyArrivalTick) as real, tcbs[i].tid))
  }

  /** The best-so-far scan of the selectors: walk `q` from the head and replace the
      current choice by any entry that strictly precedes it. */
  function ArgMin(q: seq<int>, keys: seq<Key>): (r: Option<int>)
    requires InRange(q, |keys|)
    ensures r == None <==> q == []
    ensures r.Some? ==> r.value in q
  {
    if q == [] then None
    else
      var best := ArgMin(q[..|q| - 1], keys);
      var t := q[|q| - 1];
      if best.None? || Precedes(keys[t], keys[best.value]) then Some(t) else best
  }

  /** The scan's choice is least: no entry of `q` precedes it. */
  lemma {:induction false} ArgMinIsLeast(q: seq<int>, keys: seq<Key>)
    requires InRange(q, |keys|)
    ensures ArgMin(q, keys).Some? ==>
      forall u :: u in q ==> !Precedes(keys[u], keys[ArgMin(q, keys).value])
  {
    if q != [] {
      var init := q[..|q| - 1];
      ArgMinIsLeast(init, keys);
      assert q == init + [q[|q| - 1]];
    }
  }

  /** One step of the scan: the appended entry becomes the choice exactly when it
      precedes the choice so far. */
  lemma ArgMinSnoc(q: seq<int>, t: int, keys: seq<Key>)
    requires InRange(q, |keys|) && 0 <= t < |keys|
    ensures InRange(q + [t], |keys|)
    ensures ArgMin(q + [t], keys) ==
      if ArgMin(q, keys).None? || Precedes(keys[t], keys[ArgMin(q, keys).value]) then Some(t)
      else ArgMin(q, keys)
  {
    assert (q + [t])[..|q|] == q;
  }

  /** One step of the earliest-arrival scan, stated with the tick and id of the choice
      so far in place of its key. */
  lemma ArrivalScanStep(q: seq<int>, t: int, tcbs: seq<Tcb>, best: Option<int>, bestTick: real, bestTid: int)
    requires InRange(q, |tcbs|) && 0 <= t < |tcbs|
    requires best == ArgMin(q, ArrivalKeys(tcbs))
    requires best.Some? ==>
      bestTick == tcbs[best.value].readyArrivalTick && bestTid == tcbs[best.value].tid
    ensures InRange(q + [t], |tcbs|)
    ensures ArgMin(q + [t], ArrivalKeys(tcbs)) ==
      if best.None? || tcbs[t].readyArrivalTick < bestTick
        || (tcbs[t].readyArrivalTick == bestTick && tcbs[t].tid < bestTid)
      then Some(t) else best
  {
    ArgMinSnoc(q, t, ArrivalKeys(tcbs));
  }

  /** One step of the ceiled-tick scan, stated with the ceiled tick of the choice so far
      in place of its key. */
  lemma CeilScanStep(q: seq<int>, t: int, tcbs: seq<Tcb>, best: Option<int>, bestTick: int)
    requires InRange(q, |tcbs|) && 0 <= t < |tcbs|
    requires best == ArgMin(q, CeilArrivalKeys(tcbs))
    requires best.Some? ==> bestTick == Ceil(tcbs[best.value].readyArrivalTick)
    ensures InRange(q + [t], |tcbs|)
    ensures var tick := Ceil(tcbs[t].readyArrivalTick);
      ArgMin(q + [t], CeilArrivalKeys(tcbs)) ==
        if best.None? || tick < bestTick || (tick == bestTick && tcbs[t].tid < tcbs[best.value].tid)
        then Some(t) else best
  {
    ArgMinSnoc(q, t, CeilArrivalKeys(tcbs));
  }

  /** Extending a prefix of `b` by the next element. */
  lemma TakeSnoc(b: seq<int>, i: int)
    requires 0 <= i < |b|
    ensures b[..i + 1] == b[..i] + [b[i]]
  {
  }

  /** Extending a prefix of `b` by one element. */
  lemma PrefixSnoc(a: seq<int>, b: seq<int>, i: int)
    requires 0 <= i < |b|
    ensures a + b[..i + 1] == (a + b[..i]) + [b[i]]
  {
    assert b[..i + 1] == b[..i] + [b[i]];
  }

  /** When every key carries its own id, the least entry is unique, so the two
      properties of `ArgMin` determine its choice. */
  lemma ArgMinUnique(q: seq<int>, keys: seq<Key>, t: int)
    requires InRange(q, |keys|)
    requires forall i :: 0 <= i < |keys| ==> keys[i].tid == i
    requires t in q && forall u :: u in q ==> !Precedes(keys[u], keys[t])
    ensures ArgMin(q, keys) == Some(t)
  {
    ArgMinIsLeast(q, keys);
  }

  /** The entries of `q` that are ready now (`ready_arrival_tick <= now`), in queue order. */
  function ReadyNow(q: seq<int>, tcbs: seq<Tcb>, now: int): (r: seq<int>)
    requires InRange(q, |tcbs|)
    ensures |r| <= |q| && InRange(r, |tcbs|)
  {
    if q == [] then []
    else
      var t := q[|q| - 1];
      ReadyNow(q[..|q| - 1], tcbs, now)
        + (if tcbs[t].readyArrivalTick <= now as real then [t] else [])
  }

  /** One step of the filter: the appended entry is kept exactly when it is ready now. */
  lemma ReadyNowSnoc(q: seq<int>, t: int, tcbs: seq<Tcb>, now: int)
    requires InRange(q, |tcbs|) && 0 <= t < |tcbs|
    ensures InRange(q + [t], |tcbs|)
    ensures ReadyNow(q + [t], tcbs, now) ==
      ReadyNow(q, tcbs, now) + (if tcbs[t].readyArrivalTick <= now as real then [t] else [])
  {
    assert (q + [t])[..|q|] == q;
  }

  /** Exactly the members of `q` that are ready now survive the filter. */
  lemma {:induction false} ReadyNowMembers(q: seq<int>, tcbs: seq<Tcb>, now: int)
    requires InRange(q, |tcbs|)
    ensures forall x :: x in ReadyNow(q, tcbs, now) <==> x in q && tcbs[x].readyArrivalTick <= now as real
  {
    if q != [] {
      var init := q[..|q| - 1];
      ReadyNowMembers(init, tcbs, now);
      assert q == init + [q[|q| - 1]];
    }
  }

  /** The MLFQ level queues one after another, level 0 first. */
  function Flatten(levels: seq<seq<int>>): (r: seq<int>)
    ensures forall x :: x in r <==> exists l :: 0 <= l < |levels| && x in levels[l]
  {
    if levels == [] then []
    else
      var init := levels[..|levels| - 1];
      assert forall l :: 0 <= l < |init| ==> init[l] == levels[l];
      Flatten(init) + levels[|levels| - 1]
  }

  /** Every level queue holds only valid ids. */
  predicate LevelsInRange(levels: seq<seq<int>>, n: int)
  {
    forall l :: 0 <= l < |levels| ==> InRange(levels[l], n)
  }

  lemma FlattenInRange(levels: seq<seq<int>>, n: int)
    requires LevelsInRange(levels, n)
    ensures InRange(Flatten(levels), n)
  {
    var f := Flatten(levels);
    forall i | 0 <= i < |f|
      ensures 0 <= f[i] < n
    {
      assert f[i] in f;
      var l :| 0 <= l < |levels| && f[i] in levels[l];
      var j :| 0 <= j < |levels[l]| && levels[l][j] == f[i];
    }
  }

  /** A worker chosen by MLFQ together with the level it was found at. */
  datatype Pick = Pick(tid: int, level: int)

  /** MLFQ's main rule, from level `from` on: the first level with a member ready now
      wins, and the FCFS rule chooses among that level's ready members. */
  function MlfqPick(levels: seq<seq<int>>, tcbs: seq<Tcb>, now: int, from: nat): (r: Option<Pick>)
    requires LevelsInRange(levels, |tcbs|)
    ensures r.Some? ==> 0 <= r.value.tid < |tcbs| && from <= r.value.level < |levels|
    decreases |levels| - from
  {
    if from >= |levels| then None
    else
      var ready := ReadyNow(levels[from], tcbs, now);
      if ready != [] then Some(Pick(ArgMin(ready, ArrivalKeys(tcbs)).value, from))
      else MlfqPick(levels, tcbs, now, from + 1)
  }

  /** The MLFQ pick comes from the lowest-numbered level, from `from` on, that has a
      member ready now, and is that level's FCFS choice among its ready members. */
  lemma {:induction false} MlfqPickIsFirstReadyLevel(levels: seq<seq<int>>, tcbs: seq<Tcb>, now: int, from: nat)
    requires LevelsInRange(levels, |tcbs|)
    requires MlfqPick(levels, tcbs, now, from).Some?
    ensures var p := MlfqPick(levels, tcbs, now, from).value;
      && from <= p.level < |levels|
      && ReadyNow(levels[p.level], tcbs, now) != []
      && (forall l :: from <= l < p.level ==> ReadyNow(levels[l], tcbs, now) == [])
      && ArgMin(ReadyNow(levels[p.level], tcbs, now), ArrivalKeys(tcbs)) == Some(p.tid)
    decreases |levels| - from
  {
    var ready := ReadyNow(levels[from], tcbs, now);
    if ready == [] {
      var rest := MlfqPick(levels, tcbs, now, from + 1);
      assert MlfqPick(levels, tcbs, now, from) == rest;
      MlfqPickIsFirstReadyLevel(levels, tcbs, now, from + 1);
      var p := rest.value;
      forall l | from <= l < p.level
        ensures ReadyNow(levels[l], tcbs, now) == []
      {
        if l == from {
          assert ReadyNow(levels[l], tcbs, now) == ready;
        }
      }
    }
  }

  /** MLFQ finds no pick exactly when no level from `from` on has a member ready now. */
  lemma {:induction false} MlfqPickNoneIffNoneReady(levels: seq<seq<int>>, tcbs: seq<Tcb>, now: int, from: nat)
    requires LevelsInRange(levels, |tcbs|)
    ensures MlfqPick(levels, tcbs, now, from).None? <==>
      forall l :: from <= l < |levels| ==> ReadyNow(levels[l], tcbs, now) == []
    decreases |levels| - from
  {
    if from < |levels| && ReadyNow(levels[from], tcbs, now) == [] {
      MlfqPickNoneIffNoneReady(levels, tcbs, now, from + 1);
    }
  }

  /** Distance between two levels. */
  function Distance(a: int, b: int): nat
  {
    if a <= b then b - a else a - b
  }

  /** `enqueue_mlfq`'s clamp: the level of [0, 4] nearest to `level`. */
  function ClampLevel(level: int): (r: int)
    ensures 0 <= r <= BOTTOM_LEVEL
    ensures 0 <= level <= BOTTOM_LEVEL ==> r == level
    ensures forall l :: 0 <= l <= BOTTOM_LEVEL ==> Distance(level, r) <= Distance(level, l)
  {
    if level < 0 then 0 else if level >= MLFQ_LEVELS then BOTTOM_LEVEL else level
  }

  /** Some member of `q` is ready now. */
  predicate HasReady(q: seq<int>, tcbs: seq<Tcb>, now: int)
    requires InRange(q, |tcbs|)
  {
    exists u :: u in q && tcbs[u].readyArrivalTick <= now as real
  }

  lemma ReadyNowEmptyIff(q: seq<int>, tcbs: seq<Tcb>, now: int)
    requires InRange(q, |tcbs|)
    ensures ReadyNow(q, tcbs, now) == [] <==> !HasReady(q, tcbs, now)
  {
    ReadyNowMembers(q, tcbs, now);
    var r := ReadyNow(q, tcbs, now);
    if r != [] {
      assert r[0] in r;
    }
  }

  /** A selector's choice (`None` for NULL) and the CPU clock it leaves behind. */
  datatype Selection = Selection(choice: Option<int>, clock: int)

  /** `select_next_thread_srtf`: the SRTF choice among the ready-now members; when
      none is ready, the FCFS choice, with the clock advanced to its truncated tick. */
  function SrtfSelect(q: seq<int>, tcbs: seq<Tcb>, now: int): (r: Selection)
    requires InRange(q, |tcbs|)
    ensures r.choice == None <==> q == []
    ensures r.choice.Some? ==> r.choice.value in q
    ensures r.clock >= now
  {
    if q == [] then Selection(None, now)
    else
      var ready := ReadyNow(q, tcbs, now);
      ReadyNowMembers(q, tcbs, now);
      if ready != [] then Selection(ArgMin(ready, RemainingKeys(tcbs)), now)
      else
        var e := ArgMin(q, ArrivalKeys(tcbs)).value;
        Selection(Some(e), Max(now, Trunc(tcbs[e].readyArrivalTick)))
  }

  /** The MLFQ pick is a worker queued on some level. */
  lemma MlfqPickQueued(levels: seq<seq<int>>, tcbs: seq<Tcb>, now: int)
    requires LevelsInRange(levels, |tcbs|) && MlfqPick(levels, tcbs, now, 0).Some?
    ensures MlfqPick(levels, tcbs, now, 0).value.tid in Flatten(levels)
  {
    MlfqPickIsFirstReadyLevel(levels, tcbs, now, 0);
    var p := MlfqPick(levels, tcbs, now, 0).value;
    ReadyNowMembers(levels[p.level], tcbs, now);
    assert p.tid in levels[p.level];
  }

  /** `select_next_thread_mlfq`: the first level with a ready-now member decides;
      otherwise the earliest ceiled tick over all levels, with the clock advanced to it. */
  function MlfqSelect(levels: seq<seq<int>>, tcbs: seq<Tcb>, now: int): (r: Selection)
    requires LevelsInRange(levels, |tcbs|)
    ensures r.choice == None <==> Flatten(levels) == []
    ensures r.choice.Some? ==> r.choice.value in Flatten(levels)
    ensures r.clock >= now
  {
    var p := MlfqPick(levels, tcbs, now, 0);
    if p.Some? then
      MlfqPickQueued(levels, tcbs, now);
      Selection(Some(p.value.tid), now)
    else
      FlattenInRange(levels, |tcbs|);
      var e := ArgMin(Flatten(levels), CeilArrivalKeys(tcbs));
      if e.Some? then Selection(e, Max(now, Ceil(tcbs[e.value].readyArrivalTick)))
      else Selection(None, now)
  }

  /** `select_next_thread`: dispatch on the policy; an unknown policy selects nobody. */
  function Select(kind: SchedulerType, ready: seq<int>, levels: seq<seq<int>>, tcbs: seq<Tcb>, now: int): (r: Selection)
    requires InRange(ready, |tcbs|) && LevelsInRange(levels, |tcbs|)
    ensures r.choice.Some? ==> 0 <= r.choice.value < |tcbs|
    ensures r.clock >= now
    ensures kind == Unrecognised ==> r == Selection(None, now)
  {
    match kind
    case FCFS => Selection(ArgMin(ready, ArrivalKeys(tcbs)), now)
    case SRTF => SrtfSelect(ready, tcbs, now)
    case MLFQ => MlfqSelect(levels, tcbs, now)
    case Unrecognised => Selection(None, now)
  }

  /** FCFS returns nobody exactly on an empty queue; otherwise a member that no other
      member precedes by arrival tick and then id. */
  lemma FcfsChoosesEarliest(q: seq<int>, tcbs: seq<Tcb>)
    requires InRange(q, |tcbs|)
    ensures var c := ArgMin(q, ArrivalKeys(tcbs));
      && (c == None <==> q == [])
      && (c.Some? ==> c.value in q && forall u :: u in q ==>
            !Precedes(Key(tcbs[u].readyArrivalTick, tcbs[u].tid),
                      Key(tcbs[c.value].readyArrivalTick, tcbs[c.value].tid)))
  {
    ArgMinIsLeast(q, ArrivalKeys(tcbs));
  }

  /** The SRTF rule: nobody exactly on an empty queue; with a member ready now, a ready
      member with the least remaining time (ties to the lower id) and the clock kept;
      otherwise the earliest arrival, with the clock moved forward to its truncated tick. */
  lemma SrtfChoosesShortestReady(q: seq<int>, tcbs: seq<Tcb>, now: int)
    requires InRange(q, |tcbs|)
    ensures var sel := SrtfSelect(q, tcbs, now);
      && (sel.choice == None <==> q == [])
      && (HasReady(q, tcbs, now) ==>
            && sel.clock == now
            && sel.choice.Some?
            && var c := sel.choice.value;
            && c in q && tcbs[c].readyArrivalTick <= now as real
            && forall u :: u in q && tcbs[u].readyArrivalTick <= now as real ==>
                 !Precedes(Key(tcbs[u].remainingTime as real, tcbs[u].tid),
                           Key(tcbs[c].remainingTime as real, tcbs[c].tid)))
      && (q != [] && !HasReady(q, tcbs, now) ==>
            && sel.choice.Some?
            && var c := sel.choice.value;
            && c in q
            && sel.clock == Max(now, Trunc(tcbs[c].readyArrivalTick))
            && forall u :: u in q ==>
                 !Precedes(Key(tcbs[u].readyArrivalTick, tcbs[u].tid),
                           Key(tcbs[c].readyArrivalTick, tcbs[c].tid)))
  {
    var ready := ReadyNow(q, tcbs, now);
    ReadyNowMembers(q, tcbs, now);
    ReadyNowEmptyIff(q, tcbs, now);
    ArgMinIsLeast(ready, RemainingKeys(tcbs));
    ArgMinIsLeast(q, ArrivalKeys(tcbs));
  }

  /** The MLFQ rule when some level has a member ready now: the first such level
      decides, by the FCFS rule among its ready members, and the clock is kept. */
  lemma MlfqChoosesFirstReadyLevel(levels: seq<seq<int>>, tcbs: seq<Tcb>, now: int, level: int)
    requires LevelsInRange(levels, |tcbs|)
    requires 0 <= level < |levels| && HasReady(levels[level], tcbs, now)
    requires forall l :: 0 <= l < level ==> !HasReady(levels[l], tcbs, now)
    ensures var sel := MlfqSelect(levels, tcbs, now);
      && sel.clock == now
      && sel.choice.Some?
      && var c := sel.choice.value;
      && c in levels[level] && tcbs[c].readyArrivalTick <= now as real
      && forall u :: u in levels[level] && tcbs[u].readyArrivalTick <= now as real ==>
           !Precedes(Key(tcbs[u].readyArrivalTick, tcbs[u].tid),
                     Key(tcbs[c].readyArrivalTick, tcbs[c].tid))
  {
    ReadyNowEmptyIff(levels[level], tcbs, now);
    MlfqPickNoneIffNoneReady(levels, tcbs, now, 0);
    MlfqPickIsFirstReadyLevel(levels, tcbs, now, 0);
    var p := MlfqPick(levels, tcbs, now, 0).value;
    ReadyNowEmptyIff(levels[p.level], tcbs, now);
    assert p.level == level;
    var ready := ReadyNow(levels[level], tcbs, now);
    ReadyNowMembers(levels[level], tcbs, now);
    ArgMinIsLeast(ready, ArrivalKeys(tcbs));
  }

  /** The concatenation is empty exactly when every level is. */
  lemma {:induction false} FlattenEmptyIff(levels: seq<seq<int>>)
    ensures Flatten(levels) == [] <==> forall l :: 0 <= l < |levels| ==> levels[l] == []
  {
    if levels != [] {
      var init := levels[..|levels| - 1];
      FlattenEmptyIff(init);
      assert Flatten(levels) == Flatten(init) + levels[|levels| - 1];
      assert forall l :: 0 <= l < |init| ==> init[l] == levels[l];
    }
  }

  /** The MLFQ fallback when no level has a member ready now: nobody exactly when every
      level is empty, otherwise a member of some level with the earliest ceiled tick
      (ties to the lower id) over all levels, and the clock moved forward to that tick. */
  lemma MlfqFallsBackToEarliestCeil(levels: seq<seq<int>>, tcbs: seq<Tcb>, now: int)
    requires LevelsInRange(levels, |tcbs|)
    requires forall l :: 0 <= l < |levels| ==> !HasReady(levels[l], tcbs, now)
    ensures var sel := MlfqSelect(levels, tcbs, now);
      && (sel.choice == None <==> forall l :: 0 <= l < |levels| ==> levels[l] == [])
      && (sel.choice.Some? ==>
            var c := sel.choice.value;
            && (exists l :: 0 <= l < |levels| && c in levels[l])
            && sel.clock == Max(now, Ceil(tcbs[c].readyArrivalTick))
            && forall l, u :: 0 <= l < |levels| && u in levels[l] ==>
                 !Precedes(Key(Ceil(tcbs[u].readyArrivalTick) as real, tcbs[u].tid),
                           Key(Ceil(tcbs[c].readyArrivalTick) as real, tcbs[c].tid)))
      && (sel.choice == None ==> sel.clock == now)
  {
    forall l | 0 <= l < |levels|
      ensures ReadyNow(levels[l], tcbs, now) == []
    {
      ReadyNowEmptyIff(levels[l], tcbs, now);
    }
    MlfqPickNoneIffNoneReady(levels, tcbs, now, 0);
    FlattenInRange(levels, |tcbs|);
    FlattenEmptyIff(levels);
    var flat := Flatten(levels);
    var keys := CeilArrivalKeys(tcbs);
    ArgMinIsLeast(flat, keys);
    var sel := MlfqSelect(levels, tcbs, now);
    assert sel.choice == ArgMin(flat, keys);
    if sel.choice.Some? {
      var c := sel.choice.value;
      assert c in flat;
      forall l, u | 0 <= l < |levels| && u in levels[l]
        ensures !Precedes(keys[u], keys[c])
      {
        assert u in flat;
      }
    }
  }
}
