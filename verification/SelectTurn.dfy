/** Whom a turn of the select loop serves, and whom it does not (components/generic_main/select_task.c). */
module SelectTurn {
  import opened Bytes
  import opened Dispatch
  import opened FdTable
  import opened SelectTask
  import opened Time

  /** A scan of a sound table at a normal time. */
  ghost predicate Scan(t: Table, isOpen: nat -> bool, now: Timeval, monitored: seq<bool>, wait: Timeval)
  {
    Bounded(t) && NormalTimes(t) && Normal(now) && Scanned(t, isOpen, now, monitored, wait)
  }

  lemma ScanMeans(t: Table, isOpen: nat -> bool, now: Timeval, monitored: seq<bool>, wait: Timeval)
    requires Scan(t, isOpen, now, monitored, wait)
    ensures |t.slots| == |monitored| == NUMBER_OF_FDS && MonitoredAreWatched(t, 0, monitored)
    ensures forall i: Fd :: Normal(t.slots[i].deadline)
    ensures forall i: Fd ::
      monitored[i] <==> Candidate(t, isOpen, i) && forall j :: 0 <= j < i ==> !Expired(t, isOpen, now, j)
  {
  }

  /** Nothing behind an expired descriptor is monitored. */
  lemma BehindExpired(t: Table, isOpen: nat -> bool, now: Timeval, monitored: seq<bool>, wait: Timeval, j: Fd, k: Fd)
    requires Scan(t, isOpen, now, monitored, wait) && j < k && Expired(t, isOpen, now, j)
    ensures |monitored| == NUMBER_OF_FDS && !monitored[k]
  {
    ScanMeans(t, isOpen, now, monitored, wait);
  }

  /** So nothing behind it is called in that turn, ready or not. */
  lemma BehindExpiredWaits(t: Table, isOpen: nat -> bool, now: Timeval, monitored: seq<bool>, wait: Timeval,
                           ready: Ready, handlers: Handlers, j: Fd, k: Fd, log: seq<Entry>)
    requires Scan(t, isOpen, now, monitored, wait) && ready.Valid() && j < k && Expired(t, isOpen, now, j)
    ensures |t.slots| == |monitored| == NUMBER_OF_FDS
    ensures !Called(ReadyPass(Pass(t, log), 0, monitored, ready, now, handlers).log, |log|, k)
    ensures !Called(ZeroPass(Pass(t, log), 0, false, monitored, now, handlers).log, |log|, k)
  {
    ScanMeans(t, isOpen, now, monitored, wait);
    BehindExpired(t, isOpen, now, monitored, wait, j, k);
    hide Scan, ReadyPass, ZeroPass;
    ReadyPassOrderly(Pass(t, log), 0, monitored, ready, now, handlers);
    ZeroPassOrderly(Pass(t, log), 0, false, monitored, now, handlers);
  }

  /** A deadline less than ten milliseconds ahead and not yet passed. */
  ghost predicate AlmostDue(deadline: Timeval, now: Timeval)
  {
    IsSet(deadline) && 0 <= Micros(deadline) - Micros(now) < 10_000
  }

  /** A monitored descriptor is due if it is almost due, or has expired and is the last monitored one. */
  lemma MonitoredDue(t: Table, isOpen: nat -> bool, now: Timeval, monitored: seq<bool>, wait: Timeval, j: Fd)
    requires Scan(t, isOpen, now, monitored, wait) && |t.slots| == |monitored| == NUMBER_OF_FDS && monitored[j]
    ensures Due(t.slots[j].deadline, now) <==>
      AlmostDue(t.slots[j].deadline, now) || Expired(t, isOpen, now, j)
  {
    ScanMeans(t, isOpen, now, monitored, wait);
    DueMicros(t.slots[j].deadline, now);
    hide Due, Scan, Normal;
  }

  /**
   * The flag that is not reset. Of the descriptors that earlier handlers spare, a turn in which nothing was ready
   * calls only those that are due, if and only if no monitored one with a handler that is not due comes after a
   * monitored one whose deadline is less than ten milliseconds ahead. A deadline that has passed does no harm, since
   * nothing behind it is monitored.
   */
  lemma LateFlag(t: Table, isOpen: nat -> bool, now: Timeval, monitored: seq<bool>, wait: Timeval, handlers: Handlers)
    requires Scan(t, isOpen, now, monitored, wait) && |t.slots| == |monitored| == NUMBER_OF_FDS
    ensures var log := ZeroLog(t, monitored, now, handlers);
      (forall fd: Fd :: SparedBefore(log, 0, fd) && Called(log, 0, fd) ==> Due(t.slots[fd].deadline, now))
      <==>
      !exists j: Fd, k: Fd ::
        j < k && monitored[j] && AlmostDue(t.slots[j].deadline, now)
        && monitored[k] && t.slots[k].handler.Some? && !Due(t.slots[k].deadline, now) && SparedBefore(log, 0, k)
  {
    ScanMeans(t, isOpen, now, monitored, wait);
    hide ZeroLog, Due, SparedBefore, Called, Scan, AlmostDue, Bounded, MonitoredAreWatched, Expired;
    assert Bounded(t) by {
      ScanBounded(t, isOpen, now, monitored, wait);
    }
    OnlyDueAreCalled(t, monitored, now, handlers);
    forall j: Fd, k: Fd | j < k && monitored[j] && monitored[k]
      ensures Due(t.slots[j].deadline, now) <==> AlmostDue(t.slots[j].deadline, now)
    {
      MonitoredDue(t, isOpen, now, monitored, wait, j);
      if Expired(t, isOpen, now, j) {
        BehindExpired(t, isOpen, now, monitored, wait, j, k);
      }
    }
  }

  /** With handlers that leave the monitored descriptors still to come alone, the table alone decides. */
  lemma LateFlagTidy(t: Table, isOpen: nat -> bool, now: Timeval, monitored: seq<bool>, wait: Timeval,
                     handlers: Handlers)
    requires Scan(t, isOpen, now, monitored, wait) && |t.slots| == |monitored| == NUMBER_OF_FDS
    requires forall fd: Fd :: monitored[fd] ==> LeaveAlone(handlers, fd)
    ensures
      (forall fd: Fd :: Called(ZeroLog(t, monitored, now, handlers), 0, fd) ==> Due(t.slots[fd].deadline, now))
      <==>
      !exists j: Fd, k: Fd ::
        j < k && monitored[j] && AlmostDue(t.slots[j].deadline, now)
        && monitored[k] && t.slots[k].handler.Some? && !Due(t.slots[k].deadline, now)
  {
    hide ZeroPass, Due, SparedBefore, LeaveAlone, Scan, AlmostDue, Handled;
    var log := ZeroLog(t, monitored, now, handlers);
    ZeroPassOrderly(Pass(t, []), 0, false, monitored, now, handlers);
    ZeroPassHandled(Pass(t, []), 0, false, monitored, now, handlers);
    forall fd: Fd | monitored[fd] ensures SparedBefore(log, 0, fd) {
      LeaveAloneSpares(log, 0, handlers, fd);
    }
    LateFlag(t, isOpen, now, monitored, wait, handlers);
  }

  lemma ScanBounded(t: Table, isOpen: nat -> bool, now: Timeval, monitored: seq<bool>, wait: Timeval)
    requires Scan(t, isOpen, now, monitored, wait)
    ensures Bounded(t) && Normal(now)
  {
  }

  // The wait.

  /** What is due, in microseconds. */
  lemma DueMeans(t: Table, isOpen: nat -> bool, now: Timeval, monitored: seq<bool>, wait: Timeval, j: Fd)
    requires Scan(t, isOpen, now, monitored, wait) && |t.slots| == NUMBER_OF_FDS
    ensures Due(t.slots[j].deadline, now) <==>
      IsSet(t.slots[j].deadline) && Micros(t.slots[j].deadline) - Micros(now) < 10_000
  {
    ScanMeans(t, isOpen, now, monitored, wait);
    DueMicros(t.slots[j].deadline, now);
    hide Due, Normal, Micros;
  }

  /** With an expired descriptor the loop does not wait, and the first such is due. */
  lemma ExpiredDue(t: Table, isOpen: nat -> bool, now: Timeval, monitored: seq<bool>, wait: Timeval, i: nat)
    requires Scan(t, isOpen, now, monitored, wait) && |t.slots| == |monitored| == NUMBER_OF_FDS
    requires Expired(t, isOpen, now, i)
    ensures Micros(wait) == 0 && exists j: Fd :: monitored[j] && Due(t.slots[j].deadline, now)
  {
    ScanMeans(t, isOpen, now, monitored, wait);
    ScanBounded(t, isOpen, now, monitored, wait);
    hide Due;
    assert wait == CLEAR;
    hide Scan, Bounded, Normal;
    var j := FirstExpired(t, isOpen, now, i);
    DueMeans(t, isOpen, now, monitored, wait, j);
    assert monitored[j];
  }

  /** Without one, a monitored descriptor with a deadline has at least the wait left. */
  lemma WaitBounds(t: Table, isOpen: nat -> bool, now: Timeval, monitored: seq<bool>, wait: Timeval, j: Fd)
    requires Scan(t, isOpen, now, monitored, wait) && |t.slots| == |monitored| == NUMBER_OF_FDS
    ensures NoneExpired(t, isOpen, now) && monitored[j] && IsSet(t.slots[j].deadline) ==>
      Micros(wait) <= Micros(t.slots[j].deadline) - Micros(now)
  {
    ScanMeans(t, isOpen, now, monitored, wait);
    ScanLeast(t, isOpen, now, monitored, wait);
    hide Scan, Expired, Micros, Normal, MonitoredAreWatched, NoneExpired, LeastWait;
    if NoneExpired(t, isOpen, now) && monitored[j] && IsSet(t.slots[j].deadline) {
      LeastBounds(t, isOpen, now, wait, j, Micros(t.slots[j].deadline) - Micros(now));
    }
  }

  lemma LeastBounds(t: Table, isOpen: nat -> bool, now: Timeval, wait: Timeval, j: nat, left: int)
    requires LeastWait(t, isOpen, now, wait, t.limit) && j < t.limit && Remaining(t, isOpen, now, j, left)
    ensures Micros(wait) <= left
  {
    hide Remaining, Micros, Normal;
  }

  ghost predicate NoneExpired(t: Table, isOpen: nat -> bool, now: Timeval)
  {
    forall i :: 0 <= i < t.limit ==> !Expired(t, isOpen, now, i)
  }

  lemma ScanLeast(t: Table, isOpen: nat -> bool, now: Timeval, monitored: seq<bool>, wait: Timeval)
    requires Scan(t, isOpen, now, monitored, wait)
    ensures NoneExpired(t, isOpen, now) ==> LeastWait(t, isOpen, now, wait, t.limit)
  {
    hide Expired, LeastWait, MonitoredUpTo, Bounded, NormalTimes;
  }

  /** And a short wait is what a monitored one has left. */
  lemma ShortWait(t: Table, isOpen: nat -> bool, now: Timeval, monitored: seq<bool>, wait: Timeval) returns (j: Fd)
    requires Scan(t, isOpen, now, monitored, wait) && |t.slots| == |monitored| == NUMBER_OF_FDS
    ensures NoneExpired(t, isOpen, now) && Micros(wait) < 10_000 ==>
      && monitored[j] && IsSet(t.slots[j].deadline)
      && Micros(t.slots[j].deadline) - Micros(now) == Micros(wait)
  {
    j := 0;
    ScanMeans(t, isOpen, now, monitored, wait);
    hide Expired;
    if NoneExpired(t, isOpen, now) && Micros(wait) < 10_000 {
      var i :| 0 <= i < t.limit && Remaining(t, isOpen, now, i, Micros(wait));
      j := i;
    }
  }

  /** The loop waits ten milliseconds or more exactly when nothing monitored is due. */
  lemma WaitsUnlessDue(t: Table, isOpen: nat -> bool, now: Timeval, monitored: seq<bool>, wait: Timeval)
    requires Scan(t, isOpen, now, monitored, wait) && |t.slots| == |monitored| == NUMBER_OF_FDS
    ensures Micros(wait) >= 10_000 <==> forall j: Fd :: monitored[j] ==> !Due(t.slots[j].deadline, now)
  {
    hide Scan, Scanned, Due, Expired, Micros, IsSet;
    if i :| 0 <= i < t.limit && Expired(t, isOpen, now, i) {
      ExpiredDue(t, isOpen, now, monitored, wait, i);
    } else {
      assert NoneExpired(t, isOpen, now);
      forall j: Fd | monitored[j] && Micros(wait) >= 10_000 ensures !Due(t.slots[j].deadline, now) {
        DueMeans(t, isOpen, now, monitored, wait, j);
        if IsSet(t.slots[j].deadline) {
          WaitBounds(t, isOpen, now, monitored, wait, j);
        }
      }
      if Micros(wait) < 10_000 {
        var j := ShortWait(t, isOpen, now, monitored, wait);
        DueMeans(t, isOpen, now, monitored, wait, j);
      }
    }
  }

  /** The first expired descriptor up to one that has expired. */
  lemma {:induction false} FirstExpired(t: Table, isOpen: nat -> bool, now: Timeval, i: nat) returns (j: Fd)
    requires Bounded(t) && Expired(t, isOpen, now, i)
    ensures j <= i && Expired(t, isOpen, now, j) && forall k :: 0 <= k < j ==> !Expired(t, isOpen, now, k)
  {
    hide Expired;
    if exists k :: 0 <= k < i && Expired(t, isOpen, now, k) {
      var k :| 0 <= k < i && Expired(t, isOpen, now, k);
      j := FirstExpired(t, isOpen, now, k);
    } else {
      ExpiredIsFd(t, isOpen, now, i);
      j := i;
    }
  }

  lemma ExpiredIsFd(t: Table, isOpen: nat -> bool, now: Timeval, i: nat)
    requires Bounded(t) && Expired(t, isOpen, now, i)
    ensures i < NUMBER_OF_FDS
  {
  }

  /** Where nothing monitored is due, the pass after nothing was ready does nothing. */
  lemma {:induction false} NothingDueNothingDone(
    p: Pass, i: nat, monitored: seq<bool>, now: Timeval, handlers: Handlers)
    requires p.Valid() && |monitored| == NUMBER_OF_FDS
    requires forall j :: i <= j < NUMBER_OF_FDS && monitored[j] ==> !Due(p.table.slots[j].deadline, now)
    ensures ZeroPass(p, i, false, monitored, now, handlers) == p
    decreases NUMBER_OF_FDS - i
  {
    hide Due;
    if i < p.table.limit && i < NUMBER_OF_FDS {
      NothingDueNothingDone(p, i + 1, monitored, now, handlers);
    }
  }

  /**
   * A turn that waits ten milliseconds or more and finds nothing ready calls nobody, whatever the handlers: the time
   * it compares with is from before the wait. The descriptor waited for is served in a later turn.
   */
  lemma NobodyAfterWait(t: Table, isOpen: nat -> bool, now: Timeval, monitored: seq<bool>, wait: Timeval,
                        handlers: Handlers, log: seq<Entry>)
    requires Scan(t, isOpen, now, monitored, wait)
    ensures |t.slots| == |monitored| == NUMBER_OF_FDS
    ensures Micros(wait) >= 10_000 ==> ZeroPass(Pass(t, log), 0, false, monitored, now, handlers) == Pass(t, log)
  {
    ScanMeans(t, isOpen, now, monitored, wait);
    WaitsUnlessDue(t, isOpen, now, monitored, wait);
    hide Due, Scan, ZeroPass, Micros;
    if Micros(wait) >= 10_000 {
      NothingDueNothingDone(Pass(t, log), 0, monitored, now, handlers);
    }
  }

  // Who is served.

  /** A monitored descriptor that is due and has a handler is called in the turn, unless an earlier call changed it. */
  lemma DueIsServed(t: Table, isOpen: nat -> bool, now: Timeval, monitored: seq<bool>, wait: Timeval,
                    ready: Ready, handlers: Handlers, fd: Fd, log: seq<Entry>)
    requires Scan(t, isOpen, now, monitored, wait) && |t.slots| == |monitored| == NUMBER_OF_FDS && ready.Valid()
    requires monitored[fd] && t.slots[fd].handler.Some? && Due(t.slots[fd].deadline, now)
    ensures var all := ReadyPass(Pass(t, log), 0, monitored, ready, now, handlers).log;
      SparedBefore(all, |log|, fd) ==> Called(all, |log|, fd)
    ensures var all := ZeroPass(Pass(t, log), 0, false, monitored, now, handlers).log;
      SparedBefore(all, |log|, fd) ==> Called(all, |log|, fd)
  {
    ScanMeans(t, isOpen, now, monitored, wait);
    ScanBounded(t, isOpen, now, monitored, wait);
    assert AnyDue(t, 0, fd, monitored, now);
    hide Scan, ReadyPass, ZeroPass, Due, Called, SparedBefore, Bounded;
    var p := Pass(t, log);
    if SparedBefore(ReadyPass(p, 0, monitored, ready, now, handlers).log, |log|, fd) {
      ReadyPassCalls(p, 0, monitored, ready, now, handlers, fd);
    }
    if SparedBefore(ZeroPass(p, 0, false, monitored, now, handlers).log, |log|, fd) {
      ZeroPassCalls(p, 0, monitored, now, handlers, fd);
    }
  }

  /** In every turn that dispatches, the first expired open watched descriptor with a handler is called. */
  lemma FirstExpiredIsServed(t: Table, isOpen: nat -> bool, now: Timeval, monitored: seq<bool>, wait: Timeval,
                             ready: Ready, handlers: Handlers, fd: Fd, log: seq<Entry>)
    requires Scan(t, isOpen, now, monitored, wait) && |t.slots| == |monitored| == NUMBER_OF_FDS && ready.Valid()
    requires Expired(t, isOpen, now, fd) && forall j :: 0 <= j < fd ==> !Expired(t, isOpen, now, j)
    requires t.slots[fd].handler.Some?
    ensures var all := ReadyPass(Pass(t, log), 0, monitored, ready, now, handlers).log;
      SparedBefore(all, |log|, fd) ==> Called(all, |log|, fd)
    ensures var all := ZeroPass(Pass(t, log), 0, false, monitored, now, handlers).log;
      SparedBefore(all, |log|, fd) ==> Called(all, |log|, fd)
  {
    ScanMeans(t, isOpen, now, monitored, wait);
    assert monitored[fd];
    MonitoredDue(t, isOpen, now, monitored, wait, fd);
    hide Scan, ReadyPass, ZeroPass, Due, Called, SparedBefore, Expired;
    DueIsServed(t, isOpen, now, monitored, wait, ready, handlers, fd, log);
  }

  // Two descriptors with deadlines.

  const FIRST := Op.Register(0, Some(1), 0, true, false, false, 2, Timeval(1, 5000))
  const SECOND := Op.Register(1, Some(2), 0, true, false, false, 99, Timeval(1, 5000))

  ghost predicate TimedOut(log: seq<Entry>, fd: Fd, deadline: Timeval)
  {
    exists k :: 0 <= k < |log| && TimeoutCall(log[k], fd, deadline)
  }

  /** A call for a timeout of a descriptor that has this deadline just before. */
  ghost predicate TimeoutCall(e: Entry, fd: Fd, deadline: Timeval)
  {
    && e.event.fd == fd && e.event.timeout
    && |e.before.slots| == NUMBER_OF_FDS && e.before.slots[fd].deadline == deadline
  }

  /** The state after registering both. */
  ghost predicate Both(t: Table)
  {
    && Bounded(t) && NormalTimes(t) && t.limit == 2
    && t.slots[0] == Slot(Some(1), 0, Timeval(3, 5000), true, false, false)
    && t.slots[1] == Slot(Some(2), 0, Timeval(100, 5000), true, false, false)
  }

  lemma BothRegistered()
    ensures Both(Apply(Apply(INITIAL, FIRST), SECOND))
  {
    ApplyLimit(INITIAL, FIRST);
    ApplyLimit(Apply(INITIAL, FIRST), SECOND);
  }

  /** Every scan at three seconds monitors both, the first with five milliseconds left, the second with 97 seconds. */
  lemma BothMonitored(t: Table, isOpen: nat -> bool, monitored: seq<bool>, wait: Timeval)
    requires Scan(t, isOpen, Timeval(3, 0), monitored, wait)
    ensures |t.slots| == |monitored| == NUMBER_OF_FDS && MonitoredAreWatched(t, 0, monitored)
    ensures Both(t) && isOpen(0) && isOpen(1) ==>
      monitored[0] && monitored[1] && AnyDue(t, 0, 1, monitored, Timeval(3, 0))
  {
    var now := Timeval(3, 0);
    ScanMeans(t, isOpen, now, monitored, wait);
    if Both(t) && isOpen(0) && isOpen(1) {
      assert !Expired(t, isOpen, now, 0);
      assert monitored[0] && Due(t.slots[0].deadline, now);
    }
  }

  lemma EarlyCall(t: Table, isOpen: nat -> bool, monitored: seq<bool>, wait: Timeval, script: Script)
    requires Scan(t, isOpen, Timeval(3, 0), monitored, wait)
    ensures |t.slots| == |monitored| == NUMBER_OF_FDS
    ensures Both(t) && isOpen(0) && isOpen(1) && (forall k :: script(k) == []) ==>
      TimedOut(ZeroPass(Pass(t, []), 0, false, monitored, Timeval(3, 0), Scripted(script)).log, 1, Timeval(100, 5000))
  {
    var now, handlers := Timeval(3, 0), Scripted(script);
    BothMonitored(t, isOpen, monitored, wait);
    if !(Both(t) && isOpen(0) && isOpen(1) && forall k :: script(k) == []) {
      return;
    }
    assert LeaveAlone(handlers, 1);
    hide ZeroPass, Due, LeaveAlone, Scan, Handled, SparedBefore, AnyDue, Scanned, Orderly, MonitoredAreWatched;
    var p := Pass(t, []);
    var log := ZeroPass(p, 0, false, monitored, now, handlers).log;
    ZeroPassHandled(p, 0, false, monitored, now, handlers);
    ZeroPassOrderly(p, 0, false, monitored, now, handlers);
    LeaveAloneSpares(log, 0, handlers, 1);
    ZeroPassCalls(p, 0, monitored, now, handlers, 1);
    var k :| 0 <= k < |log| && log[k].event.fd == 1;
    ZeroPassFinds(p, 0, false, monitored, now, handlers, k);
    assert TimeoutCall(log[k], 1, Timeval(100, 5000));
  }

  /**
   * In a run of the loop, a descriptor with ninety-seven seconds to go is timed out in a turn that finds nothing
   * ready, because one before it has five milliseconds to go.
   */
  method TimedOutEarly() returns (loop: SelectLoop, now: Timeval, deadline: Timeval)
    ensures now == Timeval(3, 0) && deadline == Timeval(100, 5000) && !Due(deadline, now)
    ensures TimedOut(loop.log, 1, deadline)
  {
    now, deadline := Timeval(3, 0), Timeval(100, 5000);
    assert !Due(deadline, now);
    BothRegistered();
    hide Apply, Due, Both, TimedOut, ZeroPass;
    loop := new SelectLoop();
    loop.Register(0, Some(1), 0, true, false, false, 2, Timeval(1, 5000));
    loop.Register(1, Some(2), 0, true, false, false, 99, Timeval(1, 5000));
    ghost var t := loop.Now();
    var none := seq(NUMBER_OF_FDS, _ => false);
    var script: Script := _ => [];
    var isOpen: nat -> bool := _ => true;
    BothNormal(t);
    assert Normal(now);
    var monitored, wait := loop.Turn(isOpen, now, 0, Ready(none, none, none), script);
    EarlyCall(t, isOpen, monitored, wait, script);
  }

  lemma BothNormal(t: Table)
    requires Both(t)
    ensures Bounded(t) && NormalTimes(t)
  {
  }
}
