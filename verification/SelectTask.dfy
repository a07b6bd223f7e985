/** The select loop's tables, deadline scan and dispatch loops (components/generic_main/select_task.c). */
module SelectTask {
  import opened Bytes
  import opened Dispatch
  import opened FdTable
  import opened Time

  // 365 days.
  const LONGEST_WAIT := Timeval(31_536_000, 0)

  /** What handlers do in a run: the interface calls made by the k-th handler called. */
  type Script = nat -> seq<Op>

  ghost function Scripted(script: Script): (r: Handlers)
  {
    (log: seq<Entry>, e: Event, t: Table) => script(|log|)
  }

  // What the deadline scan computes.

  /** A watched descriptor that is open. */
  ghost predicate Candidate(t: Table, isOpen: nat -> bool, i: nat)
  {
    i < t.limit && i < |t.slots| && t.slots[i].Watched() && isOpen(i)
  }

  ghost predicate Expired(t: Table, isOpen: nat -> bool, now: Timeval, i: nat)
  {
    Candidate(t, isOpen, i) && IsSet(t.slots[i].deadline) && Micros(t.slots[i].deadline) < Micros(now)
  }

  /** The time left for a descriptor that has a deadline. */
  ghost predicate Remaining(t: Table, isOpen: nat -> bool, now: Timeval, i: nat, wait: int)
  {
    Candidate(t, isOpen, i) && IsSet(t.slots[i].deadline) && wait == Micros(t.slots[i].deadline) - Micros(now)
  }

  /** Monitored are the candidates up to and including the first expired one. */
  ghost predicate MonitoredUpTo(t: Table, isOpen: nat -> bool, now: Timeval, monitored: seq<bool>, n: nat)
  {
    |monitored| == NUMBER_OF_FDS &&
    forall i :: 0 <= i < NUMBER_OF_FDS ==>
      (monitored[i] <==> i < n && Candidate(t, isOpen, i) && forall j :: 0 <= j < i ==> !Expired(t, isOpen, now, j))
  }

  /** The wait is the least of the longest wait and the times left of the first n descriptors. */
  ghost predicate LeastWait(t: Table, isOpen: nat -> bool, now: Timeval, wait: Timeval, n: nat)
  {
    && Normal(wait) && Micros(wait) <= 365 * 24 * 60 * 60 * 1_000_000
    && (forall i, left :: 0 <= i < n && Remaining(t, isOpen, now, i, left) ==> Micros(wait) <= left)
    && (wait == Timeval(365 * 24 * 60 * 60, 0) || exists i :: 0 <= i < n && Remaining(t, isOpen, now, i, Micros(wait)))
  }

  /** With an expired descriptor the wait is zero, otherwise it is the least time left, at most the longest wait. */
  ghost predicate Scanned(t: Table, isOpen: nat -> bool, now: Timeval, monitored: seq<bool>, wait: Timeval)
  {
    && MonitoredUpTo(t, isOpen, now, monitored, NUMBER_OF_FDS)
    && if exists i :: 0 <= i < t.limit && Expired(t, isOpen, now, i) then wait == CLEAR
       else LeastWait(t, isOpen, now, wait, t.limit)
  }

  class SelectLoop {
    const handlers: array<Option<int>>
    const data: array<int>
    const timeouts: array<Timeval>
    const readFds: array<bool>
    const writeFds: array<bool>
    const exceptionFds: array<bool>
    var fdLimit: nat
    var calls: nat
    ghost var slots: seq<Slot>
    ghost var log: seq<Entry>

    /** The arrays hold what the slots say. */
    ghost predicate Arrays()
      reads this`slots, handlers, data, timeouts, readFds, writeFds, exceptionFds
    {
      && handlers.Length == data.Length == timeouts.Length == NUMBER_OF_FDS
      && readFds.Length == writeFds.Length == exceptionFds.Length == |slots| == NUMBER_OF_FDS
      && readFds != writeFds && readFds != exceptionFds && writeFds != exceptionFds
      && (forall k :: 0 <= k < NUMBER_OF_FDS ==>
            slots[k] == Slot(handlers[k], data[k], timeouts[k], readFds[k], writeFds[k], exceptionFds[k]))
    }

    ghost predicate Valid()
      reads this, handlers, data, timeouts, readFds, writeFds, exceptionFds
    {
      Arrays() && Bounded(Now()) && calls == |log|
    }

    ghost function Now(): (r: Table)
      reads this`slots, this`fdLimit
    {
      Table(slots, fdLimit)
    }

    ghost function Frame(): (r: set<object>)
    {
      {this, handlers, data, timeouts, readFds, writeFds, exceptionFds}
    }

    constructor ()
      ensures Valid() && Now() == INITIAL && log == [] && fresh(Frame())
    {
      handlers := new Option<int>[NUMBER_OF_FDS](_ => None);
      data := new int[NUMBER_OF_FDS](_ => 0);
      timeouts := new Timeval[NUMBER_OF_FDS](_ => CLEAR);
      readFds := new bool[NUMBER_OF_FDS](_ => false);
      writeFds := new bool[NUMBER_OF_FDS](_ => false);
      exceptionFds := new bool[NUMBER_OF_FDS](_ => false);
      fdLimit, calls, slots, log := 0, 0, INITIAL.slots, [];
    }

    lemma StillBounded(t: Table, fd: Fd, slot: Slot)
      requires Bounded(t) && (slot.Watched() ==> fd < t.limit)
      ensures Bounded(Table(t.slots[fd := slot], t.limit))
    {
    }

    /** Store all of a descriptor's fields. */
    method Store(fd: Fd, handler: Option<int>, d: int, deadline: Timeval,
                 readable: bool, writable: bool, exception: bool)
      requires Valid() && (readable || writable || exception ==> fd < fdLimit)
      modifies Frame()
      ensures Valid() && fdLimit == old(fdLimit) && log == old(log)
      ensures slots == old(slots)[fd := Slot(handler, d, deadline, readable, writable, exception)]
      ensures handlers[..] == old(handlers[..])[fd := handler] && data[..] == old(data[..])[fd := d]
      ensures timeouts[..] == old(timeouts[..])[fd := deadline]
      ensures readFds[..] == old(readFds[..])[fd := readable] && writeFds[..] == old(writeFds[..])[fd := writable]
      ensures exceptionFds[..] == old(exceptionFds[..])[fd := exception]
    {
      StillBounded(Now(), fd, Slot(handler, d, deadline, readable, writable, exception));
      hide Bounded;
      StoreFields(fd, handler, d, deadline);
      StoreEvents(fd, readable, writable, exception);
      slots := slots[fd := Slot(handler, d, deadline, readable, writable, exception)];
    }

    method StoreFields(fd: Fd, handler: Option<int>, d: int, deadline: Timeval)
      requires handlers.Length == data.Length == timeouts.Length == NUMBER_OF_FDS
      modifies handlers, data, timeouts
      ensures handlers[..] == old(handlers[..])[fd := handler] && data[..] == old(data[..])[fd := d]
      ensures timeouts[..] == old(timeouts[..])[fd := deadline]
    {
      data[fd] := d;
      timeouts[fd] := deadline;
      handlers[fd] := handler;
    }

    method StoreEvents(fd: Fd, readable: bool, writable: bool, exception: bool)
      requires readFds.Length == writeFds.Length == exceptionFds.Length == NUMBER_OF_FDS
      requires readFds != writeFds && readFds != exceptionFds && writeFds != exceptionFds
      modifies readFds, writeFds, exceptionFds
      ensures readFds[..] == old(readFds[..])[fd := readable] && writeFds[..] == old(writeFds[..])[fd := writable]
      ensures exceptionFds[..] == old(exceptionFds[..])[fd := exception]
    {
      readFds[fd] := readable;
      writeFds[fd] := writable;
      exceptionFds[fd] := exception;
    }

    method Register(fd: Fd, handler: Option<int>, d: int, readable: bool, writable: bool, exception: bool,
                    seconds: nat, now: Timeval)
      requires Valid()
      modifies Frame()
      ensures Valid() && log == old(log)
      ensures Now() == Apply(old(Now()), Op.Register(fd, handler, d, readable, writable, exception, seconds, now))
      ensures handlers[..] == old(handlers[..])[fd := handler] && data[..] == old(data[..])[fd := d]
      ensures timeouts[..] ==
        old(timeouts[..])[fd := if seconds == 0 then Timeval(0, 0) else Timeval(now.sec + seconds, now.usec)]
      ensures readFds[..] == old(readFds[..])[fd := readable] && writeFds[..] == old(writeFds[..])[fd := writable]
      ensures exceptionFds[..] == old(exceptionFds[..])[fd := exception]
      ensures fdLimit == if old(fdLimit) > fd then old(fdLimit) else fd + 1
    {
      if fdLimit < fd + 1 {
        fdLimit := fd + 1;
      }
      var t := CLEAR;
      if seconds != 0 {
        t := Timeval(now.sec + seconds, now.usec);
      }
      Store(fd, handler, d, t, readable, writable, exception);
    }

    method Unregister(fd: Fd)
      requires Valid()
      modifies Frame()
      ensures Valid() && log == old(log)
      ensures Now() == Apply(old(Now()), Op.Unregister(fd))
      ensures handlers[..] == old(handlers[..])[fd := None] && data[..] == old(data[..])[fd := 0]
      ensures timeouts[..] == old(timeouts[..])[fd := Timeval(0, 0)]
      ensures readFds[..] == old(readFds[..])[fd := false] && writeFds[..] == old(writeFds[..])[fd := false]
      ensures exceptionFds[..] == old(exceptionFds[..])[fd := false]
    {
      ApplyLimit(Now(), Op.Unregister(fd));
      hide Bounded;
      Store(fd, None, 0, CLEAR, false, false, false);
      if fdLimit == fd + 1 {
        LowerLimit(fd);
      }
    }

    /** One more than the highest descriptor below fd that is still in a set, or 0. */
    method LowerLimit(fd: Fd)
      requires Arrays() && |slots| == NUMBER_OF_FDS
      modifies this`fdLimit
      ensures fdLimit == LimitBelow(slots, fd)
    {
      var i: int := fd - 1;
      ghost var limit := LimitBelow(slots, fd);
      while i >= 0 && !(readFds[i] || writeFds[i] || exceptionFds[i])
        invariant -1 <= i < fd && LimitBelow(slots, i + 1) == limit
      {
        i := i - 1;
      }
      fdLimit := i + 1;
    }

    /** The interface calls a handler makes. */
    method Perform(ops: seq<Op>)
      requires Valid()
      modifies Frame()
      ensures Valid() && log == old(log) && Now() == ApplyAll(old(Now()), ops)
    {
      for k := 0 to |ops|
        invariant Valid() && log == old(log) && Now() == ApplyAll(old(Now()), ops[..k])
      {
        assert ops[..k + 1][..k] == ops[..k];
        match ops[k] {
          case Register(fd, handler, d, r, w, x, seconds, now) => Register(fd, handler, d, r, w, x, seconds, now);
          case Unregister(fd) => Unregister(fd);
        }
      }
      assert ops[..|ops|] == ops;
    }

    /** Scan the deadlines before select(): which descriptors to monitor and how long to wait. */
    method Scan(isOpen: nat -> bool, now: Timeval) returns (monitored: seq<bool>, wait: Timeval)
      requires Valid() && NormalTimes(Now()) && Normal(now)
      ensures Scanned(Now(), isOpen, now, monitored, wait)
    {
      wait := LONGEST_WAIT;
      monitored := seq(NUMBER_OF_FDS, _ => false);
      ghost var t := Now();
      for i := 0 to fdLimit
        invariant MonitoredUpTo(t, isOpen, now, monitored, i)
        invariant forall j :: 0 <= j < i ==> !Expired(t, isOpen, now, j)
        invariant LeastWait(t, isOpen, now, wait, i)
      {
        if readFds[i] || writeFds[i] || exceptionFds[i] {
          if !isOpen(i) {
            continue;
          }
          monitored := monitored[i := true];
          var deadline := timeouts[i];
          if IsSet(deadline) {
            MicrosAgree(deadline, now);
            if Less(deadline, now) {
              assert Expired(t, isOpen, now, i);
              wait := CLEAR;
              return;
            }
            var when := Sub(deadline, now);
            assert Remaining(t, isOpen, now, i, Micros(when));
            MicrosAgree(when, wait);
            if Less(when, wait) {
              wait := when;
            }
          }
        }
      }
    }

    /** Call a handler, which may register and unregister descriptors. */
    method CallHandler(e: Event, ghost before: Table, script: Script)
      requires Valid() && |before.slots| == NUMBER_OF_FDS
      modifies Frame()
      ensures Valid()
      ensures Pass(Now(), log) == Call(Pass(before, old(log)), e, old(Now()), Scripted(script))
    {
      ghost var entered := Now();
      Perform(script(calls));
      calls := calls + 1;
      log := log + [Entry(e, before, entered, Now())];
    }

    /** Dispatch after select() found descriptors ready. */
    method DispatchReady(monitored: seq<bool>, ready: Ready, now: Timeval, script: Script)
      requires Valid() && ready.Valid() && |monitored| == NUMBER_OF_FDS
      modifies Frame()
      ensures Valid()
      ensures Pass(Now(), log) == ReadyPass(Pass(old(Now()), old(log)), 0, monitored, ready, now, Scripted(script))
    {
      ghost var all := ReadyPass(Pass(Now(), log), 0, monitored, ready, now, Scripted(script));
      var i := 0;
      hide Arrays, Bounded, ReadyStep;
      Sizes();
      while i < fdLimit
        invariant Valid() && i <= NUMBER_OF_FDS && fdLimit <= NUMBER_OF_FDS && |slots| == NUMBER_OF_FDS
        invariant all == ReadyPass(Pass(Now(), log), i, monitored, ready, now, Scripted(script))
        decreases NUMBER_OF_FDS - i
      {
        if monitored[i] {
          DispatchOne(i, ready, now, script);
          Sizes();
        }
        i := i + 1;
      }
    }

    lemma Sizes()
      requires Valid()
      ensures fdLimit <= NUMBER_OF_FDS && |slots| == NUMBER_OF_FDS
    {
    }

    method DispatchOne(fd: Fd, ready: Ready, now: Timeval, script: Script)
      requires Valid() && ready.Valid()
      modifies Frame()
      ensures Valid()
      ensures Pass(Now(), log) == ReadyStep(Pass(old(Now()), old(log)), fd, ready, now, Scripted(script))
    {
      var timeout := false;
      var t := timeouts[fd];
      if IsSet(t) {
        if Less(t, now) {
          timeout := true;
        } else {
          var remaining := Sub(t, now);
          if remaining.sec == 0 && remaining.usec < 10_000 {
            timeout := true;
          }
        }
      }
      if ready.readable[fd] || ready.writable[fd] || ready.exception[fd] || timeout {
        ghost var before := Now();
        var handler, d := handlers[fd], data[fd];
        if timeout {
          Unregister(fd);
        }
        if handler.Some? {
          CallHandler(Event(fd, handler.value, d, ready.readable[fd], ready.writable[fd], ready.exception[fd], timeout),
                      before, script);
        }
      }
    }

    /** Dispatch after select() ran out of time. The flag for lateness is not reset between descriptors. */
    method DispatchZero(monitored: seq<bool>, now: Timeval, script: Script)
      requires Valid() && |monitored| == NUMBER_OF_FDS
      modifies Frame()
      ensures Valid()
      ensures Pass(Now(), log) == ZeroPass(Pass(old(Now()), old(log)), 0, false, monitored, now, Scripted(script))
    {
      ghost var all := ZeroPass(Pass(Now(), log), 0, false, monitored, now, Scripted(script));
      var timeout := false;
      var i := 0;
      while i < fdLimit
        invariant Valid() && i <= NUMBER_OF_FDS
        invariant all == ZeroPass(Pass(Now(), log), i, timeout, monitored, now, Scripted(script))
        decreases NUMBER_OF_FDS - i
      {
        if monitored[i] {
          var t := timeouts[i];
          if IsSet(t) {
            if Less(t, now) {
              timeout := true;
            } else {
              var remaining := Sub(t, now);
              if remaining.sec == 0 && remaining.usec < 10_000 {
                timeout := true;
              }
            }
          }
          TimeOutOne(i, timeout, script);
        }
        i := i + 1;
      }
    }

    method TimeOutOne(fd: Fd, timeout: bool, script: Script)
      requires Valid()
      modifies Frame()
      ensures Valid()
      ensures Pass(Now(), log) == ZeroStep(Pass(old(Now()), old(log)), fd, timeout, Scripted(script))
    {
      if timeout {
        ghost var before := Now();
        var handler, d := handlers[fd], data[fd];
        Unregister(fd);
        if handler.Some? {
          CallHandler(Event(fd, handler.value, d, false, false, false, true), before, script);
        }
      }
    }

    /**
     * One turn of the loop: scan, wait, dispatch. `found` and `ready` are what select() reports. Every handler
     * called in the turn is called once, for a descriptor that was monitored, with what was current then. The time
     * is that before the wait.
     */
    method Turn(isOpen: nat -> bool, now: Timeval, found: int, ready: Ready, script: Script)
      returns (monitored: seq<bool>, wait: Timeval)
      requires Valid() && NormalTimes(Now()) && Normal(now) && ready.Valid()
      modifies Frame()
      ensures Valid() && Scanned(old(Now()), isOpen, now, monitored, wait)
      ensures old(log) <= log && Orderly(log, |old(log)|, 0, monitored)
      ensures found > 0 ==> Reported(log, |old(log)|, ready, now)
      ensures found > 0 ==>
        Pass(Now(), log) == ReadyPass(Pass(old(Now()), old(log)), 0, monitored, ready, now, Scripted(script))
      ensures found == 0 ==>
        Pass(Now(), log) == ZeroPass(Pass(old(Now()), old(log)), 0, false, monitored, now, Scripted(script))
      ensures found < 0 ==> log == old(log) && Now() == old(Now())
    {
      monitored, wait := Scan(isOpen, now);
      ghost var t := Now();
      assert |monitored| == NUMBER_OF_FDS;
      hide Arrays, Bounded, Scanned, Orderly, Reported, ReadyPass, ZeroPass, NormalTimes;
      assert Scanned(t, isOpen, now, monitored, wait);
      Dispatch(monitored, now, found, ready, script);
    }

    /** What the turn does after select(). */
    method Dispatch(monitored: seq<bool>, now: Timeval, found: int, ready: Ready, script: Script)
      requires Valid() && ready.Valid() && |monitored| == NUMBER_OF_FDS
      modifies Frame()
      ensures Valid() && old(log) <= log && Orderly(log, |old(log)|, 0, monitored)
      ensures found > 0 ==> Reported(log, |old(log)|, ready, now)
      ensures found > 0 ==>
        Pass(Now(), log) == ReadyPass(Pass(old(Now()), old(log)), 0, monitored, ready, now, Scripted(script))
      ensures found == 0 ==>
        Pass(Now(), log) == ZeroPass(Pass(old(Now()), old(log)), 0, false, monitored, now, Scripted(script))
      ensures found < 0 ==> log == old(log) && Now() == old(Now())
    {
      Sizes();
      hide Arrays, Bounded, Orderly, Reported, ReadyPass, ZeroPass;
      if found > 0 {
        ReadyPassOrderly(Pass(Now(), log), 0, monitored, ready, now, Scripted(script));
        DispatchReady(monitored, ready, now, script);
      } else if found == 0 {
        ZeroPassOrderly(Pass(Now(), log), 0, false, monitored, now, Scripted(script));
        DispatchZero(monitored, now, script);
      } else {
        NoneOrderly(log, monitored);
      }
    }

    lemma NoneOrderly(log: seq<Entry>, monitored: seq<bool>)
      requires |monitored| == NUMBER_OF_FDS
      ensures Orderly(log, |log|, 0, monitored)
    {
    }
  }
}
