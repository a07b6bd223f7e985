/** One STUN request and its retries (gm_stun, stun_send and stun_receive in components/generic_main/stun.c). */
module StunRun {
  import opened Bytes
  import opened FdTable
  import opened StunPacket
  import opened Time

  // The handler stun_receive, and the run record given to it as data.
  const STUN_RECEIVE: int := 1
  const RUN: int := 1

  const TRIES: nat := 5

  /** What the after callback is told. */
  datatype Report = Report(success: bool, address: Option<Address>)

  /** What becomes of an attempt to send a request. */
  datatype SendResult = Unresolved | NoSocket | NotSent | Sent(fd: Fd)

  /** What the dispatcher and recvfrom() hand to stun_receive; m is the receive buffer. */
  datatype Arrival = Arrival(readable: bool, writable: bool, exception: bool, timeout: bool,
                             m: seq<byte>, received: int)

  datatype Event =
    | Send(result: SendResult, now: Timeval)
    | Receive(fd: Fd, arrival: Arrival)
    | Stop
    | Other(op: Op)

  /**
   * The run record, the static socket and the descriptor table; how often stun_send is queued with the record, how
   * many requests were attempted, what was reported, and how often the record was freed.
   */
  datatype State = State(
    table: Table,
    sock: Option<Fd>,
    tries: nat,
    notify: bool,
    address: Option<Address>,
    queued: nat,
    attempts: nat,
    reports: seq<Report>,
    freed: nat)

  /** After gm_stun. */
  function Initial(table: Table, notify: bool): (r: State)
  {
    State(table, None, 0, notify, None, 1, 0, [], 0)
  }

  function Closed(s: State, fd: Fd): (r: State)
    requires |s.table.slots| == NUMBER_OF_FDS
  {
    s.(table := Apply(s.table, Op.Unregister(fd)), sock := None)
  }

  function Finish(s: State, success: bool): (r: State)
  {
    s.(reports := if s.notify then s.reports + [Report(success, s.address)] else s.reports, freed := s.freed + 1)
  }

  /** Whether a reply came and was accepted. */
  predicate Good(a: Arrival)
  {
    a.readable && a.received >= 22 && |a.m| >= 20 && Process(a.m, a.received).verdict.Accepted?
  }

  /** What parsing a reply stores in the caller's address, also when it is rejected later on. */
  function Stored(a: Arrival, address: Option<Address>): (r: Option<Address>)
  {
    if a.readable && a.received >= 22 && |a.m| >= 20 && Process(a.m, a.received).found.address.Some? then
      Process(a.m, a.received).found.address
    else address
  }

  function AfterSend(s: State, result: SendResult, now: Timeval): (r: State)
    requires |s.table.slots| == NUMBER_OF_FDS && s.queued > 0
  {
    var t := s.(queued := s.queued - 1, attempts := s.attempts + 1);
    match result
    case Unresolved => t
    case NoSocket => t.(sock := None)
    case NotSent => t.(sock := None)
    case Sent(fd) =>
      t.(sock := Some(fd), table := Apply(s.table, Op.Register(fd, Some(STUN_RECEIVE), RUN, true, false, true, 5, now)))
  }

  function AfterReceive(s: State, fd: Fd, a: Arrival): (r: State)
    requires |s.table.slots| == NUMBER_OF_FDS
  {
    var t := if a.readable then Closed(s, fd).(address := Stored(a, s.address)) else s;
    if Good(a) then Finish(Closed(t, fd), true)
    else
      var u := if a.timeout || a.exception then Closed(t, fd) else t;
      if u.tries >= TRIES then Finish(u, false) else u.(tries := u.tries + 1, queued := u.queued + 1)
  }

  function AfterStop(s: State): (r: State)
    requires |s.table.slots| == NUMBER_OF_FDS
  {
    if s.sock.Some? then Closed(s, s.sock.value) else s
  }

  /** The dispatcher unregisters a descriptor that timed out before it calls the handler. */
  function Dispatched(s: State, fd: Fd, timeout: bool): (r: State)
    requires |s.table.slots| == NUMBER_OF_FDS
  {
    if timeout then s.(table := Apply(s.table, Op.Unregister(fd))) else s
  }

  /** Whether stun_receive may be called for a descriptor, with the run record. */
  ghost predicate Reaches(table: Table, fd: nat)
  {
    fd < |table.slots| && table.slots[fd].handler == Some(STUN_RECEIVE)
  }

  /**
   * What can happen: stun_send runs when queued; stun_receive is called through the table, for events that were
   * watched or for a timeout; anybody stops the client; other code uses other descriptors and handlers.
   */
  ghost predicate Enabled(s: State, e: Event)
    requires |s.table.slots| == NUMBER_OF_FDS
  {
    match e
    case Send(_, _) => s.queued > 0
    case Receive(fd, a) =>
      && Reaches(s.table, fd)
      && (a.readable || a.writable || a.exception || a.timeout)
      && (a.readable ==> s.table.slots[fd].readable) && (a.writable ==> s.table.slots[fd].writable)
      && (a.exception ==> s.table.slots[fd].exception)
    case Stop => true
    case Other(op) =>
      && s.sock != Some(op.fd) && (op.Register? ==> op.handler != Some(STUN_RECEIVE))
  }

  function Step(s: State, e: Event): (r: State)
    requires |s.table.slots| == NUMBER_OF_FDS && (e.Send? ==> s.queued > 0)
    ensures |r.table.slots| == NUMBER_OF_FDS
  {
    match e
    case Send(result, now) => AfterSend(s, result, now)
    case Receive(fd, a) => AfterReceive(Dispatched(s, fd, a.timeout), fd, a)
    case Stop => AfterStop(s)
    case Other(op) => s.(table := Apply(s.table, op))
  }

  // Runs.

  ghost predicate Legal(s: State, events: seq<Event>)
    requires |s.table.slots| == NUMBER_OF_FDS
    decreases |events|
  {
    events == [] || (Enabled(s, events[0]) && Legal(Step(s, events[0]), events[1..]))
  }

  ghost function Run(s: State, events: seq<Event>): (r: State)
    requires |s.table.slots| == NUMBER_OF_FDS && Legal(s, events)
    ensures |r.table.slots| == NUMBER_OF_FDS
    decreases |events|
  {
    if events == [] then s else Run(Step(s, events[0]), events[1..])
  }

  /** In every reachable state. */
  ghost predicate Inv(s: State)
  {
    && |s.table.slots| == NUMBER_OF_FDS
    && (forall fd: nat :: Reaches(s.table, fd) ==>
          && s.sock == Some(fd) && s.table.slots[fd].data == RUN
          && s.table.slots[fd].readable && !s.table.slots[fd].writable && s.table.slots[fd].exception)
    && (s.sock.Some? ==> Reaches(s.table, s.sock.value) && s.queued == 0 && s.freed == 0)
    && s.queued + s.freed <= 1
    && s.attempts + s.queued == s.tries + 1 && s.tries <= TRIES
    && |s.reports| == (if s.notify then s.freed else 0)
    && (s.reports != [] && !s.reports[0].success ==> s.tries == TRIES)
  }

  ghost predicate Quiet(table: Table)
  {
    |table.slots| == NUMBER_OF_FDS && forall fd: nat :: !Reaches(table, fd)
  }

  /** Unregistering makes a descriptor unreachable, and no other one reachable. */
  lemma UnregisterReaches(table: Table, fd: Fd)
    requires |table.slots| == NUMBER_OF_FDS
    ensures forall k: nat :: Reaches(Apply(table, Op.Unregister(fd)), k) ==> Reaches(table, k) && k != fd
  {
    hide LimitBelow;
  }

  lemma ReceiveQuiets(s: State, fd: Fd, a: Arrival)
    requires Inv(s) && Enabled(s, Receive(fd, a))
    ensures Quiet(Step(s, Receive(fd, a)).table) && Step(s, Receive(fd, a)).sock == None
  {
    hide Apply, Reaches, Stored, Good;
    assert s.sock == Some(fd) && !a.writable;
    UnregisterReaches(s.table, fd);
    var d := Dispatched(s, fd, a.timeout);
    UnregisterReaches(d.table, fd);
    var t := if a.readable then Closed(d, fd) else d;
    UnregisterReaches(t.table, fd);
  }

  lemma ReceiveKeeps(s: State, fd: Fd, a: Arrival)
    requires Inv(s) && Enabled(s, Receive(fd, a))
    ensures Inv(Step(s, Receive(fd, a)))
  {
    ReceiveQuiets(s, fd, a);
    hide Apply, Reaches, Stored, Good;
  }

  lemma OtherKeeps(s: State, op: Op)
    requires Inv(s) && Enabled(s, Other(op))
    ensures Inv(Step(s, Other(op)))
  {
    hide LimitBelow;
  }

  lemma StopKeeps(s: State)
    requires Inv(s)
    ensures Inv(Step(s, Stop))
  {
    if s.sock.Some? {
      UnregisterReaches(s.table, s.sock.value);
    }
    hide Apply, Reaches;
  }

  lemma SendKeeps(s: State, result: SendResult, now: Timeval)
    requires Inv(s) && Enabled(s, Send(result, now))
    ensures Inv(Step(s, Send(result, now)))
  {
    hide LimitBelow;
  }

  lemma StepKeeps(s: State, e: Event)
    requires Inv(s) && Enabled(s, e)
    ensures Inv(Step(s, e))
  {
    hide *;
    match e
    case Send(result, now) => SendKeeps(s, result, now);
    case Receive(fd, a) => ReceiveKeeps(s, fd, a);
    case Stop => StopKeeps(s);
    case Other(op) => OtherKeeps(s, op);
  }

  // The run record is always in one place: queued, registered, freed or lost.

  /** An event that loses the record: a request that was not sent, or a stop while waiting for the reply. */
  ghost predicate Loses(s: State, e: Event)
  {
    (e.Send? && !e.result.Sent?) || (e.Stop? && s.sock.Some?)
  }

  /** How many of the events lose the record. */
  ghost function Losses(s: State, events: seq<Event>): (r: nat)
    requires |s.table.slots| == NUMBER_OF_FDS && Legal(s, events)
    decreases |events|
  {
    if events == [] then 0
    else (if Loses(s, events[0]) then 1 else 0) + Losses(Step(s, events[0]), events[1..])
  }

  function Owners(s: State): (r: nat)
  {
    s.queued + s.freed + if s.sock.Some? then 1 else 0
  }

  /** The sends and receives still to come, at most. */
  function Left(s: State): (r: int)
  {
    2 * (TRIES - s.tries) + 2 * s.queued + if s.sock.Some? then 1 else 0
  }

  function Turns(events: seq<Event>): (r: nat)
  {
    if events == [] then 0 else (if events[0].Send? || events[0].Receive? then 1 else 0) + Turns(events[1..])
  }

  lemma ReceiveAccounts(s: State, fd: Fd, a: Arrival)
    requires Inv(s) && Enabled(s, Receive(fd, a))
    ensures var t := Step(s, Receive(fd, a)); Owners(t) == Owners(s) && Left(t) < Left(s)
  {
    ReceiveQuiets(s, fd, a);
    hide Reaches, Apply, Stored, Good;
    assert s.sock == Some(fd);
  }

  lemma StepAccounts(s: State, e: Event)
    requires Inv(s) && Enabled(s, e)
    ensures Owners(Step(s, e)) + (if Loses(s, e) then 1 else 0) == Owners(s)
    ensures Left(Step(s, e)) + (if e.Send? || e.Receive? then 1 else 0) <= Left(s)
  {
    hide Reaches, Apply, AfterReceive;
    match e
    case Send(result, now) =>
      assert s.queued == 1 && s.sock == None;
    case Receive(fd, a) =>
      ReceiveAccounts(s, fd, a);
    case Stop =>
    case Other(op) =>
  }

  /** Over every run: the invariant is kept, the record has one owner or was lost once, and the turns are bounded. */
  lemma {:induction false} RunKeeps(s: State, events: seq<Event>)
    requires Inv(s) && Legal(s, events)
    ensures Inv(Run(s, events))
    ensures Owners(Run(s, events)) + Losses(s, events) == Owners(s)
    ensures Left(Run(s, events)) + Turns(events) <= Left(s)
    decreases |events|
  {
    if events != [] {
      assert Enabled(s, events[0]) && Legal(Step(s, events[0]), events[1..]);
      hide Inv, Owners, Left, Loses, Step, Enabled;
      StepKeeps(s, events[0]);
      StepAccounts(s, events[0]);
      RunKeeps(Step(s, events[0]), events[1..]);
    }
  }

  /**
   * Every run of one request, with any failures, replies, timeouts and stops between: at most six attempts and one
   * report, the record freed at most once and out of reach then, and a failure reported only after six attempts.
   */
  lemma OneRequest(table: Table, notify: bool, events: seq<Event>)
    requires Quiet(table) && Legal(Initial(table, notify), events)
    ensures var s := Run(Initial(table, notify), events);
      && s.attempts <= 6 && s.freed <= 1 && |s.reports| == (if notify then s.freed else 0)
      && (s.freed == 1 ==> s.queued == 0 && Quiet(s.table))
      && (s.reports != [] && !s.reports[0].success ==> s.attempts == 6)
      && Turns(events) <= 12
  {
    var s := Initial(table, notify);
    NotifyStays(s, events);
    hide Legal, Run, Turns, Reaches;
    RunKeeps(s, events);
  }

  /** When nothing is queued or awaited any more, the callback was called exactly if no event lost the record. */
  lemma FinishedUnlessLost(table: Table, notify: bool, events: seq<Event>)
    requires Quiet(table) && Legal(Initial(table, notify), events)
    ensures var s := Run(Initial(table, notify), events);
      && Losses(Initial(table, notify), events) <= 1
      && (s.queued == 0 && Quiet(s.table) ==>
            (s.freed == 1 <==> Losses(Initial(table, notify), events) == 0))
  {
    var s := Initial(table, notify);
    hide Legal, Run, Losses;
    RunKeeps(s, events);
  }

  // What each event does, in the terms of the run record and the callback.

  /** A request that is sent waits five seconds for a reply, watched for reading and exceptions. */
  lemma SentIsWatched(s: State, fd: Fd, now: Timeval)
    requires Inv(s) && s.queued > 0
    ensures var t := Step(s, Send(Sent(fd), now));
      && t.table.slots[fd] == Slot(Some(STUN_RECEIVE), RUN, Timeval(now.sec + 5, now.usec), true, false, true)
      && t.sock == Some(fd) && t.queued == 0 && t.attempts == s.attempts + 1 && t.tries == s.tries
      && t.reports == s.reports && t.freed == s.freed
  {
  }

  /** An accepted reply is reported with its address, and the record is freed. */
  lemma AcceptedIsReported(s: State, fd: Fd, a: Arrival)
    requires Inv(s) && Enabled(s, Receive(fd, a)) && a.readable && a.received >= 22 && |a.m| >= 20
    requires Process(a.m, a.received).verdict.Accepted?
    ensures var t := Step(s, Receive(fd, a));
      && t.freed == s.freed + 1 && t.queued == 0 && Quiet(t.table) && t.attempts == s.attempts
      && t.reports
         == if s.notify then s.reports + [Report(true, Process(a.m, a.received).found.address)] else s.reports
  {
    AcceptedAddress(a.m, a.received);
    ReceiveQuiets(s, fd, a);
    hide Apply, Process;
  }

  /** Any other event of the socket is one try: another request is queued, or after the sixth failure is reported. */
  lemma OtherwiseIsRetried(s: State, fd: Fd, a: Arrival)
    requires Inv(s) && Enabled(s, Receive(fd, a))
    requires !(a.readable && a.received >= 22 && |a.m| >= 20 && Process(a.m, a.received).verdict.Accepted?)
    ensures var t := Step(s, Receive(fd, a));
      && Quiet(t.table) && t.attempts == s.attempts
      && t.address == (if a.readable && a.received >= 22 && |a.m| >= 20
                          && Process(a.m, a.received).found.address.Some?
                       then Process(a.m, a.received).found.address else s.address)
      && if s.tries < 5 then t.tries == s.tries + 1 && t.queued == 1 && t.freed == s.freed && t.reports == s.reports
         else
           && t.queued == 0 && t.freed == s.freed + 1
           && t.reports == if s.notify then s.reports + [Report(false, t.address)] else s.reports
  {
    ReceiveQuiets(s, fd, a);
    hide Apply, Process;
  }

  /** Once the record is freed nothing is sent, reported or freed any more. */
  lemma {:induction false} FreedIsOver(s: State, events: seq<Event>)
    requires Inv(s) && s.freed == 1 && Legal(s, events)
    ensures var t := Run(s, events);
      t.freed == 1 && t.attempts == s.attempts && t.reports == s.reports && t.queued == 0
    ensures forall k :: 0 <= k < |events| ==> events[k].Stop? || events[k].Other?
    decreases |events|
  {
    if events != [] {
      var e, next := events[0], Step(s, events[0]);
      assert Enabled(s, e) && Legal(next, events[1..]);
      StepKeeps(s, e);
      FreedStep(s, e);
      hide Inv, Step, Enabled;
      FreedIsOver(next, events[1..]);
      assert forall k :: 0 < k < |events| ==> events[k] == events[1..][k - 1];
    }
  }

  lemma FreedStep(s: State, e: Event)
    requires Inv(s) && s.freed == 1 && Enabled(s, e)
    ensures e.Stop? || e.Other?
    ensures var t := Step(s, e); t.freed == 1 && t.attempts == s.attempts && t.reports == s.reports && t.queued == 0
  {
    hide Apply;
  }

  /** An event that brings an accepted reply. */
  ghost predicate Brings(e: Event)
  {
    e.Receive? && e.arrival.readable && e.arrival.received >= 22 && |e.arrival.m| >= 20
    && Process(e.arrival.m, e.arrival.received).verdict.Accepted?
  }

  /** An accepted reply in a run is what the run ends with. */
  lemma {:induction false} BroughtIsReported(s: State, events: seq<Event>, k: nat)
    requires Inv(s) && s.reports == [] && Legal(s, events) && k < |events| && Brings(events[k])
    ensures var t, a := Run(s, events), events[k].arrival;
      t.freed == 1 && t.reports == if s.notify then [Report(true, Process(a.m, a.received).found.address)] else []
    decreases |events|
  {
    var e, next := events[0], Step(s, events[0]);
    assert Enabled(s, e) && Legal(next, events[1..]);
    StepKeeps(s, e);
    FreedAtMostOnce(s);
    if k == 0 {
      AcceptedIsReported(s, e.fd, e.arrival);
      FreedAtMostOnce(next);
      hide Inv, Step, Enabled, Brings, Process, Quiet;
      FreedIsOver(next, events[1..]);
    } else {
      assert events[1..][k - 1] == events[k];
      if next.freed == 1 {
        FreedIsOver(next, events[1..]);
        assert false;
      }
      StepSilent(s, e);
      hide Inv, Step, Enabled, Brings, Process;
      BroughtIsReported(next, events[1..], k - 1);
    }
  }

  lemma FreedAtMostOnce(s: State)
    requires Inv(s)
    ensures s.freed <= 1
  {
  }

  /** An event that does not free the record reports nothing. */
  lemma StepSilent(s: State, e: Event)
    requires Inv(s) && Enabled(s, e) && Step(s, e).freed == 0
    ensures s.freed == 0 && Step(s, e).reports == s.reports && Step(s, e).notify == s.notify
  {
    hide Apply, Good, Stored;
  }

  /** Success is reported exactly in the runs in which an accepted reply arrives. */
  lemma SuccessExactly(table: Table, events: seq<Event>)
    requires Quiet(table) && Legal(Initial(table, true), events)
    ensures var reports := Run(Initial(table, true), events).reports;
      reports != [] && reports[0].success <==> exists k :: 0 <= k < |events| && Brings(events[k])
  {
    var s := Initial(table, true);
    assert Inv(s);
    hide Inv, Legal, Run, Process;
    var reports := Run(s, events).reports;
    if reports != [] && reports[0].success {
      SuccessIsAccepted(s, events);
      var k :| 0 <= k < |events| && Answered(events[k], reports);
      assert Brings(events[k]);
    }
    if k :| 0 <= k < |events| && Brings(events[k]) {
      BroughtIsReported(s, events, k);
    }
  }

  /** A request that cannot be sent ends the run: nothing is queued or awaited, nothing is freed or reported. */
  lemma UnsentIsLost(table: Table, now: Timeval)
    requires Quiet(table)
    ensures var s, events := Initial(table, true), [Send(Unresolved, now)];
      && Legal(s, events) && Losses(s, events) == 1
      && var end := Run(s, events);
         end.queued == 0 && Quiet(end.table) && end.freed == 0 && end.reports == []
  {
    var s, e := Initial(table, true), Send(Unresolved, now);
    var none: seq<Event> := [];
    assert [e][1..] == none;
    assert Enabled(s, e) && Legal(Step(s, e), none);
    assert Run(s, [e]) == Run(Step(s, e), none) == Step(s, e);
    assert Losses(s, [e]) == 1 + Losses(Step(s, e), none);
  }

  lemma {:induction false} NotifyStays(s: State, events: seq<Event>)
    requires |s.table.slots| == NUMBER_OF_FDS && Legal(s, events)
    ensures Run(s, events).notify == s.notify
    decreases |events|
  {
    if events != [] {
      assert Step(s, events[0]).notify == s.notify by {
        hide Apply, Good, Stored;
      }
      hide Step, Enabled;
      NotifyStays(Step(s, events[0]), events[1..]);
    }
  }

  /** The only report is of success, with the address in an accepted reply that arrived. */
  ghost predicate Answered(e: Event, reports: seq<Report>)
  {
    && e.Receive? && Good(e.arrival)
    && reports == [Report(true, Process(e.arrival.m, e.arrival.received).found.address)]
  }

  /** Success is reported only for an accepted reply, with the address it holds. */
  lemma {:induction false} SuccessIsAccepted(s: State, events: seq<Event>)
    requires Inv(s) && s.reports == [] && Legal(s, events)
    requires Run(s, events).reports != [] && Run(s, events).reports[0].success
    ensures exists k :: 0 <= k < |events| && Answered(events[k], Run(s, events).reports)
    decreases |events|
  {
    if events != [] {
      var e, next := events[0], Step(s, events[0]);
      assert Enabled(s, e) && Legal(next, events[1..]);
      StepKeeps(s, e);
      hide Inv, Enabled;
      if next.reports == [] {
        hide Step, Answered;
        SuccessIsAccepted(next, events[1..]);
        var k :| 0 <= k < |events[1..]| && Answered(events[1..][k], Run(next, events[1..]).reports);
        assert events[k + 1] == events[1..][k];
      } else {
        StepReports(s, e);
        hide Step, Answered;
        ReportsStay(next, events[1..]);
      }
    }
  }

  lemma StepReports(s: State, e: Event)
    requires |s.table.slots| == NUMBER_OF_FDS && Enabled(s, e) && s.reports == [] && Step(s, e).reports != []
    ensures |Step(s, e).reports| == 1
    ensures Step(s, e).reports[0].success ==> Answered(e, Step(s, e).reports)
  {
    if e.Receive? && Good(e.arrival) {
      AcceptedAddress(e.arrival.m, e.arrival.received);
    }
    hide Apply, Process;
  }

  lemma {:induction false} ReportsStay(s: State, events: seq<Event>)
    requires Inv(s) && s.reports != [] && Legal(s, events)
    ensures Run(s, events).reports == s.reports
    decreases |events|
  {
    if events != [] {
      var next := Step(s, events[0]);
      assert Enabled(s, events[0]) && Legal(next, events[1..]);
      StepKeeps(s, events[0]);
      assert next.reports == s.reports by {
        hide Apply, Good, Stored;
      }
      hide Inv, Step, Enabled;
      ReportsStay(next, events[1..]);
    }
  }
}
