// Records and constants shared by the whole scheduler (libscheduler/scheduler.h).
module Types {

  /** Capacity of every wait queue and of every semaphore's waiter list. */
  const MAX_THREADS: int := 128

  /** Number of MLFQ levels; level 0 has the highest priority. */
  const MLFQ_LEVELS: int := 5

  /** The lowest-priority MLFQ level. */
  const BOTTOM_LEVEL: int := 4

  /** A reference that may be NULL: `None` stands for the C null pointer. */
  datatype Option<T> = None | Some(value: T)

  /** Lifecycle state of a worker. */
  datatype ThreadState = Ready | Running | BlockedIO | BlockedSem | Terminated

  /** Thread control block. Timestamps are exact reals, not IEEE floats. */
  datatype Tcb = Tcb(
    tid: int,
    remainingTime: int,
    readyArrivalTick: real,
    lastCpuRemaining: int,
    wakeTime: int,
    state: ThreadState)

  /** Per-worker MLFQ bookkeeping. */
  datatype MlfqInfo = MlfqInfo(level: int, quantumUsed: int)

  /** The scheduling policy. The driver passes whatever integer it was given,
      so a value that is none of the three known policies is possible. */
  datatype SchedulerType = FCFS | SRTF | MLFQ | Unrecognised

  function Max(a: int, b: int): (r: int)
    ensures r >= a && r >= b && (r == a || r == b)
  {
    if a >= b then a else b
  }

  /** C's `ceil` followed by conversion to `int`: the least integer not below `x`. */
  function Ceil(x: real): (r: int)
    ensures x <= r as real < x + 1.0
  {
    -((-x).Floor)
  }

  /** C's implicit float-to-int conversion, which truncates toward zero. */
  function Trunc(x: real): (r: int)
    ensures 0.0 <= x ==> 0 <= r && r as real <= x < r as real + 1.0
    ensures x < 0.0 ==> r <= 0 && r as real - 1.0 < x <= r as real
  {
    if x >= 0.0 then x.Floor else -((-x).Floor)
  }
}
