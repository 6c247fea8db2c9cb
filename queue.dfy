// The bounded circular FIFO of worker ids (libscheduler/scheduler.c:29-85).
module Queues {
  import opened Types

  /** Physical slot of the `i`-th entry of a circular buffer whose head is at `front`:
      `(front + i) % MAX_THREADS` for the positions of one lap, written without `%`. */
  function Slot(front: int, i: int): int
  {
    if front + i < MAX_THREADS then front + i else front + i - MAX_THREADS
  }

  /** The source computes slots with `%`; within one lap that is `Slot`. */
  lemma SlotIsMod(front: int, i: int)
    requires 0 <= front < MAX_THREADS && 0 <= i < MAX_THREADS
    ensures Slot(front, i) == (front + i) % MAX_THREADS
  {
  }

  /** Distinct logical positions within one lap occupy distinct slots. */
  lemma SlotInjective(front: int, i: int, j: int)
    requires 0 <= front < MAX_THREADS
    requires 0 <= i < MAX_THREADS && 0 <= j < MAX_THREADS && i != j
    ensures Slot(front, i) != Slot(front, j)
  {
  }

  /** Stepping a slot forward by one, with wrap-around, is the slot of the next position. */
  lemma SlotNext(front: int, i: int)
    requires 0 <= front < MAX_THREADS && 0 <= i < MAX_THREADS - 1
    ensures (Slot(front, i) + 1) % MAX_THREADS == Slot(front, i + 1)
  {
  }

  /** Advancing the head by one slot renumbers every later entry one position down. */
  lemma FrontStep(front: int, newFront: int, count: int)
    requires 0 <= front < MAX_THREADS && newFront == (front + 1) % MAX_THREADS
    ensures forall i :: 0 <= i < MAX_THREADS - 1 ==> Slot(newFront, i) == Slot(front, i + 1)
    ensures (newFront + (count - 1)) % MAX_THREADS == (front + count) % MAX_THREADS
  {
  }

  /** Moving `rear` one slot back keeps it just behind the last of `count - 1` entries. */
  lemma RearStepBack(rear: int, front: int, count: int)
    requires -1 <= rear < MAX_THREADS
    requires (rear + 1) % MAX_THREADS == (front + count) % MAX_THREADS
    ensures ((rear - 1 + MAX_THREADS) % MAX_THREADS + 1) % MAX_THREADS == (front + count - 1) % MAX_THREADS
  {
  }

  /** Stepping `rear` forward lands on the slot just after the last entry. */
  lemma RearStepForward(rear: int, front: int, count: int)
    requires -1 <= rear < MAX_THREADS && 0 <= front < MAX_THREADS && 0 <= count < MAX_THREADS
    requires (rear + 1) % MAX_THREADS == (front + count) % MAX_THREADS
    ensures (rear + 1) % MAX_THREADS == Slot(front, count)
    ensures ((rear + 1) % MAX_THREADS + 1) % MAX_THREADS == (front + count + 1) % MAX_THREADS
  {
  }

  /** `s` with its first occurrence of `x` removed; `s` itself when `x` does not occur. */
  function RemoveFirst(s: seq<int>, x: int): (r: seq<int>)
    ensures |r| == if x in s then |s| - 1 else |s|
    ensures forall y :: y in r ==> y in s
  {
    if s == [] then []
    else if s[0] == x then s[1..]
    else [s[0]] + RemoveFirst(s[1..], x)
  }

  /** The contents after `enqueue`: `t` appended, unless the queue is already full. */
  function Pushed(s: seq<int>, t: int): (r: seq<int>)
    ensures |s| < MAX_THREADS ==> |r| == |s| + 1 && r[|s|] == t
    ensures |s| >= MAX_THREADS ==> |r| == |s|
    ensures r[..|s|] == s
  {
    if |s| < MAX_THREADS then s + [t] else s
  }

  /** Index of the first occurrence of `x` in `s`, or `|s|` when there is none. */
  function FirstIndex(s: seq<int>, x: int): (k: nat)
    ensures k <= |s|
    ensures forall i :: 0 <= i < k ==> s[i] != x
    ensures k < |s| ==> s[k] == x
  {
    if s == [] || s[0] == x then 0 else 1 + FirstIndex(s[1..], x)
  }

  /** Removing the first `x` cuts out exactly the entry at its first index and
      keeps every other entry in order; an absent `x` leaves the sequence alone. */
  lemma {:induction false} RemoveFirstCutsFirstIndex(s: seq<int>, x: int)
    ensures FirstIndex(s, x) == |s| ==> RemoveFirst(s, x) == s
    ensures FirstIndex(s, x) < |s| ==>
      RemoveFirst(s, x) == s[..FirstIndex(s, x)] + s[FirstIndex(s, x) + 1..]
  {
    if s != [] && s[0] != x {
      RemoveFirstCutsFirstIndex(s[1..], x);
      var k := FirstIndex(s[1..], x);
      if k < |s| - 1 {
        assert s[..k + 1] == [s[0]] + s[1..][..k];
        assert s[1..][k + 1..] == s[k + 2..];
      } else {
        assert s == [s[0]] + s[1..];
      }
    }
  }

  /** The first `x` is found exactly when `x` occurs at all. */
  lemma FirstIndexFound(s: seq<int>, x: int)
    ensures FirstIndex(s, x) < |s| <==> x in s
  {
  }

  /** Removing the first `x` takes exactly one `x` away when there is one, and nothing else. */
  lemma {:induction false} RemoveFirstMultiset(s: seq<int>, x: int)
    ensures multiset(RemoveFirst(s, x)) == multiset(s) - multiset{x}
  {
    if s != [] {
      assert s == [s[0]] + s[1..];
      if s[0] != x {
        RemoveFirstMultiset(s[1..], x);
        assert multiset(RemoveFirst(s, x)) == multiset{s[0]} + (multiset(s[1..]) - multiset{x});
      }
    }
  }

  /** Part-way through the shift loop of `dequeue_at_index`, at logical position `j`:
      entries before `k` are untouched, those from `k` to `j` hold their successor's
      old value, and the rest are untouched. */
  ghost predicate ShiftedUpTo(cur: seq<int>, orig: seq<int>, front: int, n: int, k: int, j: int)
    requires |cur| == MAX_THREADS && |orig| == MAX_THREADS && 0 <= front < MAX_THREADS
    requires 0 <= k <= j < n <= MAX_THREADS
  {
    && (forall i :: 0 <= i < k ==> cur[Slot(front, i)] == orig[Slot(front, i)])
    && (forall i :: k <= i < j ==> cur[Slot(front, i)] == orig[Slot(front, i + 1)])
    && (forall i :: j <= i < n ==> cur[Slot(front, i)] == orig[Slot(front, i)])
  }

  /** One copy of the shift loop moves the frontier one position on. */
  lemma ShiftStep(cur: seq<int>, orig: seq<int>, front: int, n: int, k: int, j: int)
    requires |cur| == MAX_THREADS && |orig| == MAX_THREADS && 0 <= front < MAX_THREADS
    requires 0 <= k <= j < n - 1 && n <= MAX_THREADS
    requires ShiftedUpTo(cur, orig, front, n, k, j)
    ensures ShiftedUpTo(cur[Slot(front, j) := cur[Slot(front, j + 1)]], orig, front, n, k, j + 1)
  {
    var next := cur[Slot(front, j) := cur[Slot(front, j + 1)]];
    forall i | 0 <= i < n && i != j
      ensures next[Slot(front, i)] == cur[Slot(front, i)]
    {
      SlotInjective(front, i, j);
    }
  }

  /** After the shift, reading the `n - 1` remaining positions from the head gives the
      old contents `c` with position `k` cut out. */
  lemma ShiftedContents(cur: seq<int>, orig: seq<int>, c: seq<int>, front: int, n: int, k: int)
    requires |cur| == MAX_THREADS && |orig| == MAX_THREADS && 0 <= front < MAX_THREADS
    requires 0 <= k < n <= MAX_THREADS && |c| == n
    requires forall i :: 0 <= i < n ==> c[i] == orig[Slot(front, i)]
    requires ShiftedUpTo(cur, orig, front, n, k, n - 1)
    ensures |c[..k] + c[k + 1..]| == n - 1
    ensures forall i :: 0 <= i < n - 1 ==> (c[..k] + c[k + 1..])[i] == cur[Slot(front, i)]
  {
    var rest := c[..k] + c[k + 1..];
    forall i | 0 <= i < n - 1
      ensures rest[i] == cur[Slot(front, i)]
    {
      if i < k {
        assert rest[i] == c[i];
      } else {
        assert rest[i] == c[i + 1];
      }
    }
  }

  /** The shift loop of `dequeue_at_index`: starting at the slot of logical position `k`,
      copy each entry of a ring of `n` entries one slot towards the head, up to the last
      slot. Entries before `k` stay; every later one moves down one position. */
  method ShiftTowardsHead(a: array<int>, front: int, n: int, ghost c: seq<int>, ghost k: int, start: int, last: int)
    requires a.Length == MAX_THREADS && 0 <= front < MAX_THREADS
    requires 0 <= k < n <= MAX_THREADS && |c| == n
    requires forall i :: 0 <= i < n ==> c[i] == a[Slot(front, i)]
    requires start == Slot(front, k) && last == Slot(front, n - 1)
    modifies a
    ensures |c[..k] + c[k + 1..]| == n - 1
    ensures forall i :: 0 <= i < n - 1 ==> (c[..k] + c[k + 1..])[i] == a[Slot(front, i)]
  {
    var idx := start;
    ghost var j := k;
    while idx != last
      invariant k <= j < n && idx == Slot(front, j)
      invariant ShiftedUpTo(a[..], old(a[..]), front, n, k, j)
      decreases n - j
    {
      assert j < n - 1;
      var next := (idx + 1) % MAX_THREADS;
      SlotNext(front, j);
      ShiftStep(a[..], old(a[..]), front, n, k, j);
      ghost var before := a[..];
      a[idx] := a[next];
      assert a[..] == before[idx := before[next]];
      idx := next;
      j := j + 1;
    }
    if j < n - 1 {
      SlotInjective(front, j, n - 1);
    }
    ShiftedContents(a[..], old(a[..]), c, front, n, k);
  }

  /** A queue of worker ids: 128 slots used as a ring, with the `front`, `rear`
      and `count` indices of the source. `Contents` is the queue, head first. */
  class TidQueue {
    const threads: array<int>
    var front: int
    var rear: int
    var count: int
    ghost var Contents: seq<int>

    ghost predicate Valid()
      reads this, threads
    {
      && threads.Length == MAX_THREADS
      && 0 <= front < MAX_THREADS
      && -1 <= rear < MAX_THREADS
      && 0 <= count <= MAX_THREADS
      && (rear + 1) % MAX_THREADS == (front + count) % MAX_THREADS
      && |Contents| == count
      && forall i :: 0 <= i < count ==> Contents[i] == threads[Slot(front, i)]
    }

    /** The entry at logical position `i`, read from slot `(front + i) % MAX_THREADS`
        as the scans of the selectors do. */
    method EntryAt(i: int) returns (t: int)
      requires Valid() && 0 <= i < count
      ensures t == Contents[i]
    {
      SlotIsMod(front, i);
      t := threads[(front + i) % MAX_THREADS];
    }

    /** Allocation followed by `init_queue`. */
    constructor ()
      ensures Valid() && fresh(threads)
      ensures Contents == [] && front == 0 && rear == -1 && count == 0
    {
      threads := new int[MAX_THREADS];
      front, rear, count := 0, -1, 0;
      Contents := [];
    }

    /** Appends `t` at the tail; a full queue silently stays as it is. */
    method Enqueue(t: int)
      requires Valid()
      modifies this, threads
      ensures Valid()
      ensures old(count) < MAX_THREADS ==> Contents == old(Contents) + [t]
      ensures old(count) == MAX_THREADS ==> unchanged(this, threads)
    {
      if count < MAX_THREADS {
        RearStepForward(rear, front, count);
        rear := (rear + 1) % MAX_THREADS;
        threads[rear] := t;
        count := count + 1;
        Contents := Contents + [t];
      }
    }

    /** Removes and returns the head; an empty queue yields `None` and is left alone. */
    method Dequeue() returns (r: Option<int>)
      requires Valid()
      modifies this
      ensures Valid()
      ensures old(count) == 0 ==> r == None && unchanged(this)
      ensures old(count) > 0 ==> r == Some(old(Contents)[0]) && Contents == old(Contents)[1..]
    {
      if count == 0 {
        return None;
      }
      r := Some(threads[front]);
      assert threads[front] == Contents[0];
      FrontStep(front, (front + 1) % MAX_THREADS, count);
      front := (front + 1) % MAX_THREADS;
      count := count - 1;
      Contents := Contents[1..];
    }

    /** The head, without removing it. */
    function Peek(): (r: Option<int>)
      reads this, threads
      requires Valid()
      ensures r == None <==> Contents == []
      ensures r.Some? ==> r.value == Contents[0]
    {
      if count == 0 then None else Some(threads[front])
    }

    /** Logical position of physical slot `p` counted from the head. */
    function Offset(p: int): int
      reads this
    {
      (p - front) % MAX_THREADS
    }

    lemma OffsetOfSlot(i: int)
      requires 0 <= front < MAX_THREADS && 0 <= i < MAX_THREADS
      ensures Offset(Slot(front, i) % MAX_THREADS) == i
    {
    }

    lemma SlotOfOffset(p: int)
      requires 0 <= front < MAX_THREADS && 0 <= p < MAX_THREADS
      ensures 0 <= Offset(p) < MAX_THREADS && Slot(front, Offset(p)) == p
    {
    }

    /** Removes the entry stored at physical slot `absoluteIndex % MAX_THREADS`
        by shifting every later entry one slot towards the head. */
    method DequeueAtIndex(absoluteIndex: int) returns (r: Option<int>)
      requires Valid()
      requires 0 <= absoluteIndex
      requires count > 0 ==> Offset(absoluteIndex % MAX_THREADS) < count
      modifies this, threads
      ensures Valid()
      ensures old(count) == 0 ==> r == None && unchanged(this, threads)
      ensures old(count) > 0 ==>
        var k := old(Offset(absoluteIndex % MAX_THREADS));
        && r == Some(old(Contents)[k])
        && Contents == old(Contents)[..k] + old(Contents)[k + 1..]
    {
      if count == 0 {
        return None;
      }
      var idx := absoluteIndex % MAX_THREADS;
      ghost var k := Offset(idx);
      ghost var c := Contents;
      SlotOfOffset(idx);
      r := Some(threads[idx]);
      var last := (front + count - 1) % MAX_THREADS;
      SlotIsMod(front, count - 1);
      ShiftTowardsHead(threads, front, count, c, k, idx, last);
      ghost var rest := c[..k] + c[k + 1..];
      RearStepBack(rear, front, count);
      rear := (rear - 1 + MAX_THREADS) % MAX_THREADS;
      count := count - 1;
      Contents := rest;
    }

    /** Removes the first entry equal to `tid`; the queue is unchanged when there is none. */
    method DequeueTid(tid: int)
      requires Valid()
      modifies this, threads
      ensures Valid()
      ensures Contents == RemoveFirst(old(Contents), tid)
      ensures tid !in old(Contents) ==> unchanged(this, threads)
    {
      RemoveFirstCutsFirstIndex(Contents, tid);
      FirstIndexFound(Contents, tid);
      var idx := -1;
      var i := 0;
      while i < count
        invariant 0 <= i <= count
        invariant forall m :: 0 <= m < i ==> Contents[m] != tid
        invariant idx == -1
        modifies {}
        decreases count - i
      {
        var pos := (front + i) % MAX_THREADS;
        SlotIsMod(front, i);
        if threads[pos] == tid {
          idx := pos;
          break;
        }
        i := i + 1;
      }
      if idx != -1 {
        assert Contents[i] == tid;
        assert FirstIndex(Contents, tid) == i;
        OffsetOfSlot(i);
        var _ := DequeueAtIndex(idx);
      } else {
        assert tid !in Contents;
      }
    }
  }
}
