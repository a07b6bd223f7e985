/**
 * One pass of the select loop's dispatcher over the descriptors, for arbitrary handlers that register and
 * unregister descriptors while they run (components/generic_main/select_task.c).
 */
module Dispatch {
  import opened Bytes
  import opened FdTable
  import opened Time

  /** A handler being called. */
  datatype Event = Event(fd: Fd, handler: int, data: int,
                         readable: bool, writable: bool, exception: bool, timeout: bool)

  /** A call made, with the table just before it, when the handler is entered, and when it returns. */
  datatype Entry = Entry(event: Event, before: Table, entered: Table, after: Table)

  /** Handlers are any function of the calls made so far, the call at hand and the table they find. */
  type Handlers = (seq<Entry>, Event, Table) -> seq<Op>

  /** What select() left set. */
  datatype Ready = Ready(readable: seq<bool>, writable: seq<bool>, exception: seq<bool>)
  {
    predicate Valid()
    {
      |readable| == NUMBER_OF_FDS && |writable| == NUMBER_OF_FDS && |exception| == NUMBER_OF_FDS
    }
  }

  datatype Pass = Pass(table: Table, log: seq<Entry>)
  {
    predicate Valid()
    {
      |table.slots| == NUMBER_OF_FDS
    }
  }

  function Call(p: Pass, e: Event, entered: Table, handlers: Handlers): (r: Pass)
    requires p.Valid() && |entered.slots| == NUMBER_OF_FDS
    ensures r.Valid()
  {
    var after := ApplyAll(entered, handlers(p.log, e, entered));
    Pass(after, p.log + [Entry(e, p.table, entered, after)])
  }

  // Select reported ready descriptors.

  function ReadyStep(p: Pass, fd: Fd, ready: Ready, now: Timeval, handlers: Handlers): (r: Pass)
    requires p.Valid() && ready.Valid()
    ensures r.Valid()
  {
    var slot := p.table.slots[fd];
    var timeout := Due(slot.deadline, now);
    if !(ready.readable[fd] || ready.writable[fd] || ready.exception[fd] || timeout) then p
    else
      var entered := if timeout then Apply(p.table, Unregister(fd)) else p.table;
      if slot.handler.None? then Pass(entered, p.log)
      else
        Call(p, Event(fd, slot.handler.value, slot.data, ready.readable[fd], ready.writable[fd], ready.exception[fd],
                      timeout), entered, handlers)
  }

  /** The pass from descriptor i on; the limit is looked at afresh before each descriptor. */
  function ReadyPass(p: Pass, i: nat, monitored: seq<bool>, ready: Ready, now: Timeval, handlers: Handlers): (r: Pass)
    requires p.Valid() && ready.Valid() && |monitored| == NUMBER_OF_FDS
    ensures r.Valid()
    decreases NUMBER_OF_FDS - i
  {
    if i >= p.table.limit || i >= NUMBER_OF_FDS then p
    else
      var q := if monitored[i] then ReadyStep(p, i, ready, now, handlers) else p;
      ReadyPass(q, i + 1, monitored, ready, now, handlers)
  }

  // Select reported nothing ready. Once one descriptor is late, all later ones are treated as late.

  function ZeroStep(p: Pass, fd: Fd, late: bool, handlers: Handlers): (r: Pass)
    requires p.Valid()
    ensures r.Valid()
  {
    if !late then p
    else
      var slot, entered := p.table.slots[fd], Apply(p.table, Unregister(fd));
      if slot.handler.None? then Pass(entered, p.log)
      else Call(p, Event(fd, slot.handler.value, slot.data, false, false, false, true), entered, handlers)
  }

  function ZeroPass(p: Pass, i: nat, late: bool, monitored: seq<bool>, now: Timeval, handlers: Handlers): (r: Pass)
    requires p.Valid() && |monitored| == NUMBER_OF_FDS
    ensures r.Valid()
    decreases NUMBER_OF_FDS - i
  {
    if i >= p.table.limit || i >= NUMBER_OF_FDS then p
    else if !monitored[i] then ZeroPass(p, i + 1, late, monitored, now, handlers)
    else
      var late' := late || Due(p.table.slots[i].deadline, now);
      ZeroPass(ZeroStep(p, i, late', handlers), i + 1, late', monitored, now, handlers)
  }

  // What every call made in a pass satisfies.

  /**
   * The call is made with the handler and data current just before it; a descriptor that timed out is
   * unregistered before its handler is entered, and nothing else changed by then.
   */
  ghost predicate Current(e: Entry)
  {
    && |e.before.slots| == NUMBER_OF_FDS
    && var slot := e.before.slots[e.event.fd];
       && slot.handler == Some(e.event.handler) && slot.data == e.event.data
       && e.entered == if e.event.timeout then Apply(e.before, Unregister(e.event.fd)) else e.before
  }

  /** Calls of a pass, from the start-th on: in ascending order, to monitored descriptors not below i, and current. */
  ghost predicate Orderly(log: seq<Entry>, start: nat, i: nat, monitored: seq<bool>)
    requires |monitored| == NUMBER_OF_FDS
  {
    && (forall k :: start <= k < |log| ==> i <= log[k].event.fd && monitored[log[k].event.fd] && Current(log[k]))
    && (forall j, k :: start <= j < k < |log| ==> log[j].event.fd < log[k].event.fd)
  }

  /** A call of the ready pass reports exactly what select left set and whether the deadline was reached. */
  ghost predicate Reported(log: seq<Entry>, start: nat, ready: Ready, now: Timeval)
    requires ready.Valid()
  {
    forall k :: start <= k < |log| ==>
      var e := log[k].event;
      && |log[k].before.slots| == NUMBER_OF_FDS
      && e.readable == ready.readable[e.fd] && e.writable == ready.writable[e.fd]
      && e.exception == ready.exception[e.fd]
      && e.timeout == Due(log[k].before.slots[e.fd].deadline, now)
      && (e.readable || e.writable || e.exception || e.timeout)
  }

  lemma OrderlyCons(first: seq<Entry>, all: seq<Entry>, start: nat, i: nat, monitored: seq<bool>)
    requires |monitored| == NUMBER_OF_FDS && start <= |first| <= start + 1 && first <= all
    requires Orderly(first, start, i, monitored) && Orderly(all, |first|, i + 1, monitored)
    requires |first| > start ==> first[start].event.fd == i
    ensures Orderly(all, start, i, monitored)
  {
  }

  /** The call, if any, that one descriptor's turn adds. */
  ghost predicate OneCall(first: seq<Entry>, all: seq<Entry>, i: Fd, monitored: seq<bool>)
    requires |monitored| == NUMBER_OF_FDS
  {
    first <= all && |all| <= |first| + 1 && (|all| > |first| ==> all[|first|].event.fd == i)
    && Orderly(all, |first|, i, monitored)
  }

  lemma ReadyStepCall(p: Pass, i: Fd, monitored: seq<bool>, ready: Ready, now: Timeval, handlers: Handlers)
    requires p.Valid() && ready.Valid() && |monitored| == NUMBER_OF_FDS && monitored[i]
    ensures var q := ReadyStep(p, i, ready, now, handlers);
      OneCall(p.log, q.log, i, monitored) && Reported(q.log, |p.log|, ready, now)
  {
    hide Due, Apply, ApplyAll;
  }

  lemma ZeroStepCall(p: Pass, i: Fd, late: bool, monitored: seq<bool>, handlers: Handlers)
    requires p.Valid() && |monitored| == NUMBER_OF_FDS && monitored[i]
    ensures var q := ZeroStep(p, i, late, handlers);
      OneCall(p.log, q.log, i, monitored) && (|q.log| > |p.log| ==> q.log[|p.log|].event.timeout)
  {
    hide Apply, ApplyAll;
  }

  /** In a ready pass a descriptor is called at most once, only if monitored, with what is current, and as reported. */
  lemma {:induction false} ReadyPassOrderly(
    p: Pass, i: nat, monitored: seq<bool>, ready: Ready, now: Timeval, handlers: Handlers)
    requires p.Valid() && ready.Valid() && |monitored| == NUMBER_OF_FDS
    ensures var r := ReadyPass(p, i, monitored, ready, now, handlers);
      p.log <= r.log && Orderly(r.log, |p.log|, i, monitored) && Reported(r.log, |p.log|, ready, now)
    decreases NUMBER_OF_FDS - i
  {
    hide ReadyStep, Due, Current;
    if i < p.table.limit && i < NUMBER_OF_FDS {
      var q := if monitored[i] then ReadyStep(p, i, ready, now, handlers) else p;
      if monitored[i] {
        ReadyStepCall(p, i, monitored, ready, now, handlers);
      }
      var r := ReadyPass(q, i + 1, monitored, ready, now, handlers);
      ReadyPassOrderly(q, i + 1, monitored, ready, now, handlers);
      OrderlyCons(q.log, r.log, |p.log|, i, monitored);
    }
  }

  lemma {:induction false} ZeroPassOrderly(
    p: Pass, i: nat, late: bool, monitored: seq<bool>, now: Timeval, handlers: Handlers)
    requires p.Valid() && |monitored| == NUMBER_OF_FDS
    ensures var r := ZeroPass(p, i, late, monitored, now, handlers);
      p.log <= r.log && Orderly(r.log, |p.log|, i, monitored)
      && forall k :: |p.log| <= k < |r.log| ==> r.log[k].event.timeout
    decreases NUMBER_OF_FDS - i
  {
    hide ZeroStep, Due, Current;
    if i < p.table.limit && i < NUMBER_OF_FDS {
      if !monitored[i] {
        ZeroPassOrderly(p, i + 1, late, monitored, now, handlers);
      } else {
        var late' := late || Due(p.table.slots[i].deadline, now);
        var q := ZeroStep(p, i, late', handlers);
        ZeroStepCall(p, i, late', monitored, handlers);
        ZeroPassOrderly(q, i + 1, late', monitored, now, handlers);
        OrderlyCons(q.log, ZeroPass(q, i + 1, late', monitored, now, handlers).log, |p.log|, i, monitored);
      }
    }
  }

  // What a pass does to a descriptor it has dispatched.

  /** A call whose handler left fd as it found it. */
  ghost predicate Spares(e: Entry, fd: Fd)
  {
    |e.entered.slots| == |e.after.slots| == NUMBER_OF_FDS && e.after.slots[fd] == e.entered.slots[fd]
  }

  /** No call from the start-th on changed fd. */
  ghost predicate SparedFrom(log: seq<Entry>, start: nat, fd: Fd)
  {
    forall k :: start <= k < |log| ==> Spares(log[k], fd)
  }

  lemma SparedFirst(first: seq<Entry>, all: seq<Entry>, start: nat, fd: Fd)
    requires first <= all && start <= |first| && SparedFrom(all, start, fd)
    ensures SparedFrom(first, start, fd) && SparedFrom(all, |first|, fd)
    ensures start < |first| ==> Spares(first[start], fd)
  {
  }

  /** Between two handlers the dispatcher touches no descriptor before the one at hand. */
  lemma {:induction false} ReadyPassKeeps(
    p: Pass, i: nat, monitored: seq<bool>, ready: Ready, now: Timeval, handlers: Handlers, fd: Fd)
    requires p.Valid() && ready.Valid() && |monitored| == NUMBER_OF_FDS && fd < i
    requires SparedFrom(ReadyPass(p, i, monitored, ready, now, handlers).log, |p.log|, fd)
    ensures ReadyPass(p, i, monitored, ready, now, handlers).table.slots[fd] == p.table.slots[fd]
    decreases NUMBER_OF_FDS - i
  {
    if i < p.table.limit && i < NUMBER_OF_FDS {
      var q := if monitored[i] then ReadyStep(p, i, ready, now, handlers) else p;
      ReadyPassOrderly(q, i + 1, monitored, ready, now, handlers);
      SparedFirst(q.log, ReadyPass(q, i + 1, monitored, ready, now, handlers).log, |p.log|, fd);
      ReadyPassKeeps(q, i + 1, monitored, ready, now, handlers, fd);
    }
  }

  lemma {:induction false} ZeroPassKeeps(
    p: Pass, i: nat, late: bool, monitored: seq<bool>, now: Timeval, handlers: Handlers, fd: Fd)
    requires p.Valid() && |monitored| == NUMBER_OF_FDS && fd < i
    requires SparedFrom(ZeroPass(p, i, late, monitored, now, handlers).log, |p.log|, fd)
    ensures ZeroPass(p, i, late, monitored, now, handlers).table.slots[fd] == p.table.slots[fd]
    decreases NUMBER_OF_FDS - i
  {
    if i < p.table.limit && i < NUMBER_OF_FDS {
      if monitored[i] {
        var late' := late || Due(p.table.slots[i].deadline, now);
        var q := ZeroStep(p, i, late', handlers);
        ZeroPassOrderly(q, i + 1, late', monitored, now, handlers);
        SparedFirst(q.log, ZeroPass(q, i + 1, late', monitored, now, handlers).log, |p.log|, fd);
        ZeroPassKeeps(q, i + 1, late', monitored, now, handlers, fd);
      } else {
        ZeroPassKeeps(p, i + 1, late, monitored, now, handlers, fd);
      }
    }
  }

  /**
   * What a descriptor's handler leaves in its own slot, in particular a re-registration, is there when the pass
   * ends, unless the handler of another descriptor changed it later.
   */
  lemma {:induction false} DispatchedSurvives(
    p: Pass, i: nat, monitored: seq<bool>, ready: Ready, now: Timeval, handlers: Handlers, k: nat)
    requires p.Valid() && ready.Valid() && |monitored| == NUMBER_OF_FDS
    requires |p.log| <= k < |ReadyPass(p, i, monitored, ready, now, handlers).log|
    requires var log := ReadyPass(p, i, monitored, ready, now, handlers).log; SparedFrom(log, k + 1, log[k].event.fd)
    ensures var r := ReadyPass(p, i, monitored, ready, now, handlers);
      |r.log[k].after.slots| == NUMBER_OF_FDS
      && r.table.slots[r.log[k].event.fd] == r.log[k].after.slots[r.log[k].event.fd]
    decreases NUMBER_OF_FDS - i
  {
    hide Due, Apply, ApplyAll, Spares, Current;
    var q := if monitored[i] then ReadyStep(p, i, ready, now, handlers) else p;
    ReadyPassOrderly(q, i + 1, monitored, ready, now, handlers);
    if k < |q.log| {
      ReadyPassKeeps(q, i + 1, monitored, ready, now, handlers, i);
    } else {
      DispatchedSurvives(q, i + 1, monitored, ready, now, handlers, k);
    }
  }

  /** The same when nothing was ready. */
  lemma {:induction false} TimedOutSurvives(
    p: Pass, i: nat, late: bool, monitored: seq<bool>, now: Timeval, handlers: Handlers, k: nat)
    requires p.Valid() && |monitored| == NUMBER_OF_FDS
    requires |p.log| <= k < |ZeroPass(p, i, late, monitored, now, handlers).log|
    requires var log := ZeroPass(p, i, late, monitored, now, handlers).log; SparedFrom(log, k + 1, log[k].event.fd)
    ensures var r := ZeroPass(p, i, late, monitored, now, handlers);
      |r.log[k].after.slots| == NUMBER_OF_FDS
      && r.table.slots[r.log[k].event.fd] == r.log[k].after.slots[r.log[k].event.fd]
    decreases NUMBER_OF_FDS - i
  {
    hide Due, Apply, ApplyAll, Spares, Current;
    var late' := if monitored[i] then late || Due(p.table.slots[i].deadline, now) else late;
    var q := if monitored[i] then ZeroStep(p, i, late', handlers) else p;
    ZeroPassOrderly(q, i + 1, late', monitored, now, handlers);
    if k < |q.log| {
      ZeroPassKeeps(q, i + 1, late', monitored, now, handlers, i);
    } else {
      TimedOutSurvives(q, i + 1, late', monitored, now, handlers, k);
    }
  }

  // Who is called. Handlers may do as they please; a statement about a descriptor is about runs in which the handlers
  // called before its turn left it alone.

  ghost predicate Called(log: seq<Entry>, start: nat, fd: Fd)
  {
    exists k :: start <= k < |log| && log[k].event.fd == fd
  }

  /** No call made before fd's turn, from the start-th on, changed fd. */
  ghost predicate SparedBefore(log: seq<Entry>, start: nat, fd: Fd)
  {
    forall k :: start <= k < |log| && log[k].event.fd < fd ==> Spares(log[k], fd)
  }

  lemma SparedLater(first: seq<Entry>, all: seq<Entry>, start: nat, fd: Fd)
    requires first <= all && start <= |first| && SparedBefore(all, start, fd)
    ensures SparedBefore(all, |first|, fd)
    ensures start < |first| && first[start].event.fd < fd ==> Spares(first[start], fd)
  {
  }

  lemma CalledAfter(log: seq<Entry>, start: nat, mid: nat, fd: Fd)
    requires start <= mid <= |log| && forall k :: start <= k < mid ==> log[k].event.fd != fd
    ensures Called(log, start, fd) <==> Called(log, mid, fd)
  {
  }

  /** One descriptor's turn of the ready pass, as others see it. */
  lemma ReadyStepOthers(p: Pass, i: Fd, ready: Ready, now: Timeval, handlers: Handlers, fd: Fd)
    requires p.Valid() && ready.Valid() && Bounded(p.table)
    ensures var q := ReadyStep(p, i, ready, now, handlers);
      && Bounded(q.table)
      && (fd != i && (|q.log| > |p.log| ==> Spares(q.log[|p.log|], fd)) ==> q.table.slots[fd] == p.table.slots[fd])
      && (|q.log| > |p.log| <==>
            p.table.slots[i].handler.Some?
            && (ready.readable[i] || ready.writable[i] || ready.exception[i] || Due(p.table.slots[i].deadline, now)))
  {
    hide Due;
    var slot := p.table.slots[i];
    var timeout := Due(slot.deadline, now);
    var entered := if timeout then Apply(p.table, Unregister(i)) else p.table;
    ApplyLimit(p.table, Unregister(i));
    if slot.handler.Some? {
      BoundedOverCalls(entered, handlers(p.log,
        Event(i, slot.handler.value, slot.data, ready.readable[i], ready.writable[i], ready.exception[i], timeout),
        entered));
    }
    hide Bounded, ApplyAll;
  }

  /** A watched descriptor is called in a ready pass exactly if it is monitored, has a handler, and is ready or due. */
  lemma {:induction false} ReadyPassCalls(
    p: Pass, i: nat, monitored: seq<bool>, ready: Ready, now: Timeval, handlers: Handlers, fd: Fd)
    requires p.Valid() && ready.Valid() && |monitored| == NUMBER_OF_FDS && Bounded(p.table) && i <= fd
    requires SparedBefore(ReadyPass(p, i, monitored, ready, now, handlers).log, |p.log|, fd)
    requires monitored[fd] ==> p.table.slots[fd].Watched()
    ensures Called(ReadyPass(p, i, monitored, ready, now, handlers).log, |p.log|, fd) <==>
      monitored[fd] && p.table.slots[fd].handler.Some?
      && (ready.readable[fd] || ready.writable[fd] || ready.exception[fd] || Due(p.table.slots[fd].deadline, now))
    decreases NUMBER_OF_FDS - i
  {
    hide ReadyStep, Due, Spares, Current;
    var r := ReadyPass(p, i, monitored, ready, now, handlers);
    if i < p.table.limit {
      var q := if monitored[i] then ReadyStep(p, i, ready, now, handlers) else p;
      if monitored[i] {
        ReadyStepOthers(p, i, ready, now, handlers, fd);
        ReadyStepCall(p, i, monitored, ready, now, handlers);
      }
      ReadyPassOrderly(q, i + 1, monitored, ready, now, handlers);
      SparedLater(q.log, r.log, |p.log|, fd);
      if i < fd {
        ReadyPassCalls(q, i + 1, monitored, ready, now, handlers, fd);
        CalledAfter(r.log, |p.log|, |q.log|, fd);
      } else if |q.log| > |p.log| {
        assert r.log[|p.log|] == q.log[|p.log|];
      }
    }
  }

  /** A call for a descriptor that earlier handlers spared finds the slot that was there when the pass began. */
  lemma {:induction false} ReadyPassFinds(
    p: Pass, i: nat, monitored: seq<bool>, ready: Ready, now: Timeval, handlers: Handlers, k: nat)
    requires p.Valid() && ready.Valid() && |monitored| == NUMBER_OF_FDS && Bounded(p.table)
    requires |p.log| <= k < |ReadyPass(p, i, monitored, ready, now, handlers).log|
    requires var log := ReadyPass(p, i, monitored, ready, now, handlers).log;
      SparedBefore(log, |p.log|, log[k].event.fd)
    ensures var e := ReadyPass(p, i, monitored, ready, now, handlers).log[k];
      |e.before.slots| == NUMBER_OF_FDS && e.before.slots[e.event.fd] == p.table.slots[e.event.fd]
    decreases NUMBER_OF_FDS - i
  {
    hide ReadyStep, Due, Spares, Current;
    var r := ReadyPass(p, i, monitored, ready, now, handlers);
    var q := if monitored[i] then ReadyStep(p, i, ready, now, handlers) else p;
    if monitored[i] {
      ReadyStepCall(p, i, monitored, ready, now, handlers);
      ReadyStepBefore(p, i, ready, now, handlers);
      ReadyStepOthers(p, i, ready, now, handlers, r.log[k].event.fd);
    }
    ReadyPassOrderly(q, i + 1, monitored, ready, now, handlers);
    SparedLater(q.log, r.log, |p.log|, r.log[k].event.fd);
    if k >= |q.log| {
      ReadyPassFinds(q, i + 1, monitored, ready, now, handlers, k);
    }
  }

  lemma ReadyStepBefore(p: Pass, i: Fd, ready: Ready, now: Timeval, handlers: Handlers)
    requires p.Valid() && ready.Valid()
    ensures var q := ReadyStep(p, i, ready, now, handlers); |q.log| > |p.log| ==> q.log[|p.log|].before == p.table
  {
    hide Due, Apply, ApplyAll;
  }

  lemma {:induction false} ZeroPassFinds(
    p: Pass, i: nat, late: bool, monitored: seq<bool>, now: Timeval, handlers: Handlers, k: nat)
    requires p.Valid() && |monitored| == NUMBER_OF_FDS && Bounded(p.table)
    requires |p.log| <= k < |ZeroPass(p, i, late, monitored, now, handlers).log|
    requires var log := ZeroPass(p, i, late, monitored, now, handlers).log;
      SparedBefore(log, |p.log|, log[k].event.fd)
    ensures var e := ZeroPass(p, i, late, monitored, now, handlers).log[k];
      |e.before.slots| == NUMBER_OF_FDS && e.before.slots[e.event.fd] == p.table.slots[e.event.fd]
    decreases NUMBER_OF_FDS - i
  {
    hide ZeroStep, Due, Spares, Current;
    var r := ZeroPass(p, i, late, monitored, now, handlers);
    var late' := if monitored[i] then late || Due(p.table.slots[i].deadline, now) else late;
    var q := if monitored[i] then ZeroStep(p, i, late', handlers) else p;
    if monitored[i] {
      ZeroStepCall(p, i, late', monitored, handlers);
      ZeroStepBefore(p, i, late', handlers);
      if late' {
        LateStepOthers(p, i, handlers, r.log[k].event.fd);
      }
    }
    ZeroPassOrderly(q, i + 1, late', monitored, now, handlers);
    SparedLater(q.log, r.log, |p.log|, r.log[k].event.fd);
    if k >= |q.log| {
      ZeroPassFinds(q, i + 1, late', monitored, now, handlers, k);
    }
  }

  lemma ZeroStepBefore(p: Pass, i: Fd, late: bool, handlers: Handlers)
    requires p.Valid()
    ensures var q := ZeroStep(p, i, late, handlers);
      (|q.log| > |p.log| ==> q.log[|p.log|].before == p.table) && (!late ==> q == p)
  {
    hide Apply, ApplyAll;
  }

  ghost predicate AnyDue(t: Table, from: nat, to: nat, monitored: seq<bool>, now: Timeval)
    requires |t.slots| == NUMBER_OF_FDS && |monitored| == NUMBER_OF_FDS && to < NUMBER_OF_FDS
  {
    exists j :: from <= j <= to && monitored[j] && Due(t.slots[j].deadline, now)
  }

  ghost predicate MonitoredAreWatched(t: Table, from: nat, monitored: seq<bool>)
    requires |t.slots| == NUMBER_OF_FDS && |monitored| == NUMBER_OF_FDS
  {
    forall fd :: from <= fd < NUMBER_OF_FDS && monitored[fd] ==> t.slots[fd].Watched()
  }

  /** One descriptor's turn of the zero-ready pass, once one was late, as others see it. */
  lemma LateStepOthers(p: Pass, i: Fd, handlers: Handlers, fd: Fd)
    requires p.Valid() && Bounded(p.table)
    ensures var q := ZeroStep(p, i, true, handlers);
      && Bounded(q.table)
      && (fd != i && (|q.log| > |p.log| ==> Spares(q.log[|p.log|], fd)) ==> q.table.slots[fd] == p.table.slots[fd])
      && (|q.log| > |p.log| <==> p.table.slots[i].handler.Some?)
  {
    var slot, entered := p.table.slots[i], Apply(p.table, Unregister(i));
    ApplyLimit(p.table, Unregister(i));
    if slot.handler.Some? {
      BoundedOverCalls(entered,
        handlers(p.log, Event(i, slot.handler.value, slot.data, false, false, false, true), entered));
    }
    hide Bounded, ApplyAll;
  }

  /** Once a descriptor was late, every later monitored one with a handler is called. */
  lemma {:induction false} LatePassCalls(
    p: Pass, i: nat, monitored: seq<bool>, now: Timeval, handlers: Handlers, fd: Fd)
    requires p.Valid() && |monitored| == NUMBER_OF_FDS && Bounded(p.table) && i <= fd
    requires SparedBefore(ZeroPass(p, i, true, monitored, now, handlers).log, |p.log|, fd)
    requires monitored[fd] ==> p.table.slots[fd].Watched()
    ensures Called(ZeroPass(p, i, true, monitored, now, handlers).log, |p.log|, fd) <==>
      monitored[fd] && p.table.slots[fd].handler.Some?
    decreases NUMBER_OF_FDS - i
  {
    hide ZeroStep, Due, Spares, Current;
    var r := ZeroPass(p, i, true, monitored, now, handlers);
    if i < p.table.limit {
      var q := if monitored[i] then ZeroStep(p, i, true, handlers) else p;
      if monitored[i] {
        LateStepOthers(p, i, handlers, fd);
        ZeroStepCall(p, i, true, monitored, handlers);
      }
      ZeroPassOrderly(q, i + 1, true, monitored, now, handlers);
      SparedLater(q.log, r.log, |p.log|, fd);
      if i < fd {
        LatePassCalls(q, i + 1, monitored, now, handlers, fd);
        CalledAfter(r.log, |p.log|, |q.log|, fd);
      } else if |q.log| > |p.log| {
        assert r.log[|p.log|] == q.log[|p.log|];
      }
    }
  }

  lemma AnyDueNext(t: Table, i: Fd, to: Fd, monitored: seq<bool>, now: Timeval)
    requires |t.slots| == NUMBER_OF_FDS && |monitored| == NUMBER_OF_FDS && i <= to
    ensures AnyDue(t, i, to, monitored, now) <==>
      (monitored[i] && Due(t.slots[i].deadline, now)) || AnyDue(t, i + 1, to, monitored, now)
  {
    hide Due;
  }

  /** When nothing was ready, a monitored descriptor is called exactly if it, or a monitored one before it, is due. */
  lemma {:induction false} ZeroPassCalls(
    p: Pass, i: nat, monitored: seq<bool>, now: Timeval, handlers: Handlers, fd: Fd)
    requires p.Valid() && |monitored| == NUMBER_OF_FDS && Bounded(p.table) && i <= fd
    requires MonitoredAreWatched(p.table, i, monitored)
    requires SparedBefore(ZeroPass(p, i, false, monitored, now, handlers).log, |p.log|, fd)
    ensures Called(ZeroPass(p, i, false, monitored, now, handlers).log, |p.log|, fd) <==>
      monitored[fd] && p.table.slots[fd].handler.Some? && AnyDue(p.table, i, fd, monitored, now)
    decreases NUMBER_OF_FDS - i
  {
    AnyDueNext(p.table, i, fd, monitored, now);
    hide Due, Spares, AnyDue;
    if i >= p.table.limit {
      NothingDueAbove(p.table, i, fd, monitored, now);
    } else if monitored[i] && Due(p.table.slots[i].deadline, now) {
      assert ZeroPass(p, i, false, monitored, now, handlers) == ZeroPass(p, i, true, monitored, now, handlers);
      LatePassCalls(p, i, monitored, now, handlers, fd);
    } else if i < fd {
      ZeroPassCalls(p, i + 1, monitored, now, handlers, fd);
    } else {
      ZeroPassOrderly(p, i + 1, false, monitored, now, handlers);
      NothingDueAbove(p.table, i + 1, fd, monitored, now);
    }
  }

  /** Nothing is due in an empty range or at the limit and beyond. */
  lemma NothingDueAbove(t: Table, i: nat, to: Fd, monitored: seq<bool>, now: Timeval)
    requires Bounded(t) && |monitored| == NUMBER_OF_FDS && MonitoredAreWatched(t, i, monitored)
    requires i >= t.limit || i > to
    ensures !AnyDue(t, i, to, monitored, now)
  {
    hide Due;
  }

  /** What is called for a descriptor in the pass over a table when nothing was ready. */
  ghost function ZeroLog(t: Table, monitored: seq<bool>, now: Timeval, handlers: Handlers): (r: seq<Entry>)
    requires |t.slots| == NUMBER_OF_FDS && |monitored| == NUMBER_OF_FDS
  {
    ZeroPass(Pass(t, []), 0, false, monitored, now, handlers).log
  }

  /**
   * Of the descriptors that earlier handlers spare, only due ones are called in the pass when nothing was ready, if
   * and only if no monitored one with a handler that is not due comes after a monitored one that is.
   */
  lemma OnlyDueAreCalled(t: Table, monitored: seq<bool>, now: Timeval, handlers: Handlers)
    requires |monitored| == NUMBER_OF_FDS && Bounded(t) && MonitoredAreWatched(t, 0, monitored)
    ensures var log := ZeroLog(t, monitored, now, handlers);
      (forall fd: Fd :: SparedBefore(log, 0, fd) && Called(log, 0, fd) ==> Due(t.slots[fd].deadline, now))
      <==>
      (forall j: Fd, k: Fd ::
         (j < k && monitored[j] && Due(t.slots[j].deadline, now)
          && monitored[k] && t.slots[k].handler.Some? && SparedBefore(log, 0, k))
         ==> Due(t.slots[k].deadline, now))
  {
    hide ZeroPass, Due, Called, SparedBefore;
    var log := ZeroLog(t, monitored, now, handlers);
    forall fd: Fd | SparedBefore(log, 0, fd)
      ensures Called(log, 0, fd) <==>
        monitored[fd] && t.slots[fd].handler.Some? && AnyDue(t, 0, fd, monitored, now)
    {
      ZeroPassCalls(Pass(t, []), 0, monitored, now, handlers, fd);
    }
  }

  // Which handlers spare a descriptor, whatever the run.

  /** After each call from the start-th on, the table is what the handler made of the one it found. */
  ghost predicate Handled(log: seq<Entry>, start: nat, handlers: Handlers)
  {
    forall k :: start <= k < |log| ==>
      && |log[k].entered.slots| == NUMBER_OF_FDS
      && log[k].after == ApplyAll(log[k].entered, handlers(log[..k], log[k].event, log[k].entered))
  }

  lemma HandledCons(first: seq<Entry>, all: seq<Entry>, start: nat, handlers: Handlers)
    requires start <= |first| && first <= all && Handled(first, start, handlers) && Handled(all, |first|, handlers)
    ensures Handled(all, start, handlers)
  {
    hide ApplyAll;
    forall k | start <= k < |first| ensures all[..k] == first[..k] && all[k] == first[k] {
    }
  }

  lemma CallHandled(p: Pass, e: Event, entered: Table, handlers: Handlers)
    requires p.Valid() && |entered.slots| == NUMBER_OF_FDS
    ensures Handled(Call(p, e, entered, handlers).log, |p.log|, handlers)
  {
    hide ApplyAll;
    assert Call(p, e, entered, handlers).log[..|p.log|] == p.log;
  }

  lemma {:induction false} ReadyPassHandled(
    p: Pass, i: nat, monitored: seq<bool>, ready: Ready, now: Timeval, handlers: Handlers)
    requires p.Valid() && ready.Valid() && |monitored| == NUMBER_OF_FDS
    ensures Handled(ReadyPass(p, i, monitored, ready, now, handlers).log, |p.log|, handlers)
    decreases NUMBER_OF_FDS - i
  {
    hide Handled, Due, Apply, Call;
    if i < p.table.limit && i < NUMBER_OF_FDS {
      var q := if monitored[i] then ReadyStep(p, i, ready, now, handlers) else p;
      ReadyPassHandled(q, i + 1, monitored, ready, now, handlers);
      ReadyPassOrderly(q, i + 1, monitored, ready, now, handlers);
      if monitored[i] {
        ReadyStepHandled(p, i, ready, now, handlers);
        ReadyStepCall(p, i, monitored, ready, now, handlers);
        HandledCons(q.log, ReadyPass(q, i + 1, monitored, ready, now, handlers).log, |p.log|, handlers);
      }
    } else {
      NoneHandled(p.log, handlers);
    }
  }

  lemma NoneHandled(log: seq<Entry>, handlers: Handlers)
    ensures Handled(log, |log|, handlers)
  {
  }

  lemma ReadyStepHandled(p: Pass, i: Fd, ready: Ready, now: Timeval, handlers: Handlers)
    requires p.Valid() && ready.Valid()
    ensures Handled(ReadyStep(p, i, ready, now, handlers).log, |p.log|, handlers)
  {
    hide Due, Handled, Call, Apply;
    NoneHandled(p.log, handlers);
    var slot := p.table.slots[i];
    if slot.handler.Some? {
      var timeout := Due(slot.deadline, now);
      CallHandled(p, Event(i, slot.handler.value, slot.data, ready.readable[i], ready.writable[i], ready.exception[i],
                           timeout),
                  if timeout then Apply(p.table, Unregister(i)) else p.table, handlers);
    }
  }

  lemma ZeroStepHandled(p: Pass, i: Fd, late: bool, handlers: Handlers)
    requires p.Valid()
    ensures Handled(ZeroStep(p, i, late, handlers).log, |p.log|, handlers)
  {
    hide Handled, Call, Apply;
    NoneHandled(p.log, handlers);
    var slot := p.table.slots[i];
    if slot.handler.Some? {
      CallHandled(p, Event(i, slot.handler.value, slot.data, false, false, false, true),
                  Apply(p.table, Unregister(i)), handlers);
    }
  }

  lemma {:induction false} ZeroPassHandled(
    p: Pass, i: nat, late: bool, monitored: seq<bool>, now: Timeval, handlers: Handlers)
    requires p.Valid() && |monitored| == NUMBER_OF_FDS
    ensures Handled(ZeroPass(p, i, late, monitored, now, handlers).log, |p.log|, handlers)
    decreases NUMBER_OF_FDS - i
  {
    hide Handled, Due, ZeroStep;
    if i < p.table.limit && i < NUMBER_OF_FDS {
      if monitored[i] {
        var late' := late || Due(p.table.slots[i].deadline, now);
        var q := ZeroStep(p, i, late', handlers);
        ZeroPassHandled(q, i + 1, late', monitored, now, handlers);
        ZeroPassOrderly(q, i + 1, late', monitored, now, handlers);
        ZeroStepHandled(p, i, late', handlers);
        ZeroStepCall(p, i, late', monitored, handlers);
        HandledCons(q.log, ZeroPass(q, i + 1, late', monitored, now, handlers).log, |p.log|, handlers);
      } else {
        ZeroPassHandled(p, i + 1, late, monitored, now, handlers);
      }
    } else {
      NoneHandled(p.log, handlers);
    }
  }

  /** No handler of a descriptor before fd registers or unregisters fd. */
  ghost predicate LeaveAlone(handlers: Handlers, fd: Fd)
  {
    forall log, e: Event, t :: e.fd < fd ==> forall op :: op in handlers(log, e, t) ==> op.fd != fd
  }

  /** In every run such handlers spare fd. */
  lemma LeaveAloneSpares(log: seq<Entry>, start: nat, handlers: Handlers, fd: Fd)
    requires Handled(log, start, handlers) && LeaveAlone(handlers, fd)
    ensures SparedBefore(log, start, fd)
  {
    forall k | start <= k < |log| && log[k].event.fd < fd ensures Spares(log[k], fd) {
      OthersUntouched(log[k].entered, handlers(log[..k], log[k].event, log[k].entered), fd);
    }
  }
}
