/** The descriptor table of components/generic_main/select_task.c as a value, with registration and its limit. */
module FdTable {
  import opened Bytes
  import opened Time

  const NUMBER_OF_FDS: nat := 100

  type Fd = fd: nat | fd < NUMBER_OF_FDS

  /** A descriptor's handler (if any), the handler's data, its deadline, and the events watched. */
  datatype Slot = Slot(handler: Option<int>, data: int, deadline: Timeval,
                       readable: bool, writable: bool, exception: bool)
  {
    predicate Watched()
    {
      readable || writable || exception
    }
  }

  const EMPTY := Slot(None, 0, CLEAR, false, false, false)

  datatype Table = Table(slots: seq<Slot>, limit: nat)

  const INITIAL := Table(seq(NUMBER_OF_FDS, _ => EMPTY), 0)

  /** A call of the table's interface, with the time of day it sees. */
  datatype Op =
    | Register(fd: Fd, handler: Option<int>, data: int, readable: bool, writable: bool, exception: bool,
               seconds: nat, now: Timeval)
    | Unregister(fd: Fd)

  function DeadlineOf(seconds: nat, now: Timeval): (r: Timeval)
  {
    if seconds != 0 then Timeval(now.sec + seconds, now.usec) else CLEAR
  }

  /** One more than the highest watched descriptor below n, or 0. */
  function LimitBelow(slots: seq<Slot>, n: nat): (r: nat)
    requires n <= |slots|
    ensures r <= n
    ensures r > 0 ==> slots[r - 1].Watched()
    ensures forall k :: r <= k < n ==> !slots[k].Watched()
  {
    if n == 0 then 0 else if slots[n - 1].Watched() then n else LimitBelow(slots, n - 1)
  }

  function Apply(t: Table, op: Op): (r: Table)
    requires |t.slots| == NUMBER_OF_FDS
    ensures |r.slots| == NUMBER_OF_FDS
  {
    match op
    case Register(fd, handler, data, readable, writable, exception, seconds, now) =>
      Table(t.slots[fd := Slot(handler, data, DeadlineOf(seconds, now), readable, writable, exception)],
            if t.limit < fd + 1 then fd + 1 else t.limit)
    case Unregister(fd) =>
      var slots := t.slots[fd := EMPTY];
      Table(slots, if t.limit == fd + 1 then LimitBelow(slots, fd) else t.limit)
  }

  function ApplyAll(t: Table, ops: seq<Op>): (r: Table)
    requires |t.slots| == NUMBER_OF_FDS
    ensures |r.slots| == NUMBER_OF_FDS
  {
    if ops == [] then t else Apply(ApplyAll(t, ops[..|ops| - 1]), ops[|ops| - 1])
  }

  // The descriptor limit.

  /** Every watched descriptor is below the limit. */
  ghost predicate Bounded(t: Table)
  {
    && |t.slots| == NUMBER_OF_FDS && t.limit <= NUMBER_OF_FDS
    && forall k :: 0 <= k < NUMBER_OF_FDS && t.slots[k].Watched() ==> k < t.limit
  }

  /** The limit is exactly one more than the highest watched descriptor, or 0 when none is watched. */
  ghost predicate Exact(t: Table)
  {
    Bounded(t) && t.limit == LimitBelow(t.slots, NUMBER_OF_FDS)
  }

  lemma ExactIsTopWatched(t: Table)
    requires Bounded(t)
    ensures Exact(t) <==> t.limit == 0 || t.slots[t.limit - 1].Watched()
  {
  }

  /** A registration that watches nothing is the one thing that can spoil the limit, and does unless it is below it. */
  lemma ApplyLimit(t: Table, op: Op)
    requires Bounded(t)
    ensures Bounded(Apply(t, op))
    ensures Exact(t) ==>
      (Exact(Apply(t, op)) <==>
         (op.Register? && !(op.readable || op.writable || op.exception) ==> op.fd + 1 < t.limit))
  {
    ExactIsTopWatched(t);
    ExactIsTopWatched(Apply(t, op));
  }

  predicate AsksForEvents(op: Op)
  {
    op.Register? ==> op.readable || op.writable || op.exception
  }

  /** Over every sequence of calls the limit covers all watched descriptors; exactly, if each registration watches. */
  lemma {:induction false} LimitOverRuns(ops: seq<Op>)
    ensures Bounded(ApplyAll(INITIAL, ops))
    ensures (forall k :: 0 <= k < |ops| ==> AsksForEvents(ops[k])) ==> Exact(ApplyAll(INITIAL, ops))
  {
    if ops == [] {
      assert INITIAL.limit == 0;
    } else {
      var before, last := ops[..|ops| - 1], ops[|ops| - 1];
      LimitOverRuns(before);
      ApplyLimit(ApplyAll(INITIAL, before), last);
      if forall k :: 0 <= k < |ops| ==> AsksForEvents(ops[k]) {
        forall k | 0 <= k < |before| ensures AsksForEvents(before[k]) {
          assert before[k] == ops[k];
        }
      }
    }
  }

  lemma {:induction false} BoundedOverCalls(t: Table, ops: seq<Op>)
    requires Bounded(t)
    ensures Bounded(ApplyAll(t, ops))
  {
    if ops != [] {
      BoundedOverCalls(t, ops[..|ops| - 1]);
      ApplyLimit(ApplyAll(t, ops[..|ops| - 1]), ops[|ops| - 1]);
    }
  }

  /** A call leaves every descriptor but its own alone. */
  lemma {:induction false} OthersUntouched(t: Table, ops: seq<Op>, fd: Fd)
    requires |t.slots| == NUMBER_OF_FDS && forall k :: 0 <= k < |ops| ==> ops[k].fd != fd
    ensures ApplyAll(t, ops).slots[fd] == t.slots[fd]
  {
    if ops != [] {
      OthersUntouched(t, ops[..|ops| - 1], fd);
    }
  }

  // Deadlines stay normal.

  ghost predicate NormalTimes(t: Table)
  {
    forall k :: 0 <= k < |t.slots| ==> Normal(t.slots[k].deadline)
  }

  lemma {:induction false} TimesStayNormal(t: Table, ops: seq<Op>)
    requires |t.slots| == NUMBER_OF_FDS && NormalTimes(t)
    requires forall k :: 0 <= k < |ops| && ops[k].Register? ==> Normal(ops[k].now)
    ensures NormalTimes(ApplyAll(t, ops))
  {
    if ops != [] {
      TimesStayNormal(t, ops[..|ops| - 1]);
    }
  }
}
