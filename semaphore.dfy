// One counting semaphore of the semaphore bank (libscheduler/scheduler.h:46-52) and the
// updates P and V make to it (libscheduler/interface.c:195-219, 258-292).
module Semaphores {
  import opened Types

  /** Index of the lowest id in `ws`, the first one when the lowest id repeats:
      the left-to-right scan with a strict comparison that V performs. */
  function LowestIndex(ws: seq<int>): (k: nat)
    requires ws != []
    ensures k < |ws|
    decreases |ws|
  {
    if |ws| == 1 then 0
    else
      var k := LowestIndex(ws[..|ws| - 1]);
      if k < |ws| - 1 && ws[|ws| - 1] < ws[k] then |ws| - 1 else k
  }

  /** The scan finds the first occurrence of the minimum. */
  lemma {:induction false} LowestIndexIsFirstMinimum(ws: seq<int>)
    requires ws != []
    ensures forall j :: 0 <= j < |ws| ==> ws[LowestIndex(ws)] <= ws[j]
    ensures forall j :: 0 <= j < LowestIndex(ws) ==> ws[LowestIndex(ws)] < ws[j]
    decreases |ws|
  {
    if |ws| > 1 {
      var front := ws[..|ws| - 1];
      LowestIndexIsFirstMinimum(front);
      assert forall j :: 0 <= j < |front| ==> front[j] == ws[j];
    }
  }

  /** The first index of the minimum is the only index with both properties. */
  lemma LowestIndexUnique(ws: seq<int>, k: int)
    requires ws != [] && 0 <= k < |ws|
    requires forall j :: 0 <= j < |ws| ==> ws[k] <= ws[j]
    requires forall j :: 0 <= j < k ==> ws[k] < ws[j]
    ensures k == LowestIndex(ws)
  {
    LowestIndexIsFirstMinimum(ws);
    var m := LowestIndex(ws);
    assert ws[k] <= ws[m] && ws[m] <= ws[k];
    assert !(k < m) && !(m < k);
  }

  /** A semaphore: its counter and the list of workers blocked on it, oldest first.
      `Waiters` is the list as a sequence. */
  class Semaphore {
    var value: int
    const blockedThreads: array<int>
    var blockedCount: int
    ghost var Waiters: seq<int>

    /** The counter is never negative, and a positive counter means nobody waits. */
    ghost predicate Valid()
      reads this, blockedThreads
    {
      && blockedThreads.Length == MAX_THREADS
      && 0 <= blockedCount <= MAX_THREADS
      && |Waiters| == blockedCount
      && (forall i :: 0 <= i < blockedCount ==> Waiters[i] == blockedThreads[i])
      && value >= 0
      && (value > 0 ==> blockedCount == 0)
    }

    /** The initial semaphore: value 0 and no waiters. */
    constructor ()
      ensures Valid() && fresh(blockedThreads)
      ensures value == 0 && blockedCount == 0 && Waiters == []
    {
      value := 0;
      blockedThreads := new int[MAX_THREADS];
      blockedCount := 0;
      Waiters := [];
    }

    /** The non-blocking half of P: take one unit when the counter is positive. */
    method TryAcquire() returns (acquired: bool)
      requires Valid()
      modifies this
      ensures Valid()
      ensures acquired <==> old(value) > 0
      ensures value == (if acquired then old(value) - 1 else old(value))
      ensures blockedCount == old(blockedCount) && Waiters == old(Waiters)
    {
      acquired := value > 0;
      if acquired {
        value := value - 1;
      }
    }

    /** The blocking half of P: append `tid` to the waiter list. */
    method Block(tid: int)
      requires Valid()
      requires value <= 0
      requires blockedCount < MAX_THREADS
      modifies this, blockedThreads
      ensures Valid()
      ensures Waiters == old(Waiters) + [tid]
      ensures value == old(value)
    {
      blockedThreads[blockedCount] := tid;
      blockedCount := blockedCount + 1;
      Waiters := Waiters + [tid];
    }

    /** The search loop of V: index of the waiter with the lowest id, the earliest
        blocked one among equal ids; -1 when nobody waits. */
    method LowestWaiter() returns (minIndex: int)
      requires Valid()
      ensures Waiters == [] ==> minIndex == -1
      ensures Waiters != [] ==>
        && 0 <= minIndex < |Waiters|
        && (forall j :: 0 <= j < |Waiters| ==> Waiters[minIndex] <= Waiters[j])
        && (forall j :: 0 <= j < minIndex ==> Waiters[minIndex] < Waiters[j])
    {
      var minTid := 0;
      minIndex := -1;
      for i := 0 to blockedCount
        invariant minIndex == -1 <==> i == 0
        invariant minIndex != -1 ==> minIndex == LowestIndex(Waiters[..i]) && minTid == Waiters[minIndex]
      {
        assert Waiters[..i + 1][..i] == Waiters[..i];
        if minIndex == -1 || blockedThreads[i] < minTid {
          minTid := blockedThreads[i];
          minIndex := i;
        }
      }
      if Waiters != [] {
        assert Waiters[..blockedCount] == Waiters;
        LowestIndexIsFirstMinimum(Waiters);
      }
    }

    /** The removal loop of V: take out the waiter at `k`, shifting the later ones
        down by one so that the rest keep their order. */
    method RemoveWaiterAt(k: int)
      requires Valid()
      requires 0 <= k < blockedCount
      modifies this, blockedThreads
      ensures Valid()
      ensures Waiters == old(Waiters)[..k] + old(Waiters)[k + 1..]
      ensures value == old(value)
    {
      ghost var w := Waiters;
      for i := k to blockedCount - 1
        invariant forall m :: 0 <= m < k ==> blockedThreads[m] == w[m]
        invariant forall m :: k <= m < i ==> blockedThreads[m] == w[m + 1]
        invariant forall m :: i <= m < blockedCount ==> blockedThreads[m] == w[m]
        modifies blockedThreads
      {
        blockedThreads[i] := blockedThreads[i + 1];
      }
      ghost var rest := w[..k] + w[k + 1..];
      assert forall m :: 0 <= m < blockedCount - 1 ==> rest[m] == blockedThreads[m];
      blockedCount := blockedCount - 1;
      Waiters := rest;
    }

    /** V on this semaphore: with waiters, remove the one with the lowest id, keeping
        the others in order, and return it; otherwise increment the counter. */
    method Signal() returns (woken: Option<int>)
      requires Valid()
      modifies this, blockedThreads
      ensures Valid()
      ensures old(Waiters) == [] ==>
        && woken == None
        && value == old(value) + 1
        && Waiters == []
      ensures old(Waiters) != [] ==>
        var k := LowestIndex(old(Waiters));
        && woken == Some(old(Waiters)[k])
        && Waiters == old(Waiters)[..k] + old(Waiters)[k + 1..]
        && value == old(value)
    {
      woken := None;
      if blockedCount > 0 {
        var minIndex := LowestWaiter();
        LowestIndexIsFirstMinimum(Waiters);
        LowestIndexUnique(Waiters, minIndex);
        if minIndex != -1 {
          woken := Some(blockedThreads[minIndex]);
          RemoveWaiterAt(minIndex);
        }
      } else {
        value := value + 1;
      }
    }
  }
}
