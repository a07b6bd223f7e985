/** The STUN client's handlers over the select loop's tables (components/generic_main/stun.c). */
module StunClient {
  import opened Bytes
  import opened FdTable
  import opened SelectTask
  import opened StunPacket
  import opened StunRun
  import opened Time

  /** The run record and the static socket. What is queued, reported and freed is counted. */
  class Client {
    const loop: SelectLoop
    const notify: bool
    var stunSock: Option<Fd>
    var tries: nat
    var address: Option<Address>
    var queued: nat
    var attempts: nat
    var reports: seq<Report>
    var freed: nat

    ghost predicate Valid()
      reads this, loop, loop.Frame()
    {
      loop.Valid()
    }

    ghost function Frame(): (r: set<object>)
    {
      {this} + loop.Frame()
    }

    ghost function Now(): (r: State)
      reads this, loop
    {
      State(loop.Now(), stunSock, tries, notify, address, queued, attempts, reports, freed)
    }

    /** gm_stun: a new run record, with the first request queued. */
    constructor (select: SelectLoop, after: bool)
      requires select.Valid()
      ensures Valid() && loop == select && Now() == Initial(select.Now(), after)
    {
      loop, notify := select, after;
      stunSock, tries, address, queued, attempts, reports, freed := None, 0, None, 1, 0, [], 0;
    }

    /** stun_send, taken from the queue. */
    method StunSend(result: SendResult, now: Timeval)
      requires Valid() && queued > 0
      modifies Frame()
      ensures Valid() && Now() == Step(old(Now()), Send(result, now))
    {
      queued, attempts := queued - 1, attempts + 1;
      match result {
        case Unresolved =>
        case NoSocket =>
          stunSock := None;
        case NotSent =>
          stunSock := None;
        case Sent(fd) =>
          stunSock := Some(fd);
          loop.Register(fd, Some(STUN_RECEIVE), RUN, true, false, true, 5, now);
      }
    }

    /** receive_stun_response: whatever came, the socket is unregistered and closed. */
    method ReceiveStunResponse(fd: Fd, m: array<byte>, received: int) returns (status: int)
      requires Valid() && m.Length >= 20 && m !in Frame()
      modifies Frame()
      ensures Valid()
      ensures var outcome := Process(m[..], received);
        && status == (if received >= 22 && outcome.verdict.Accepted? then 0 else -1)
        && Now() == Closed(old(Now()), fd).(address :=
             if received >= 22 && outcome.found.address.Some? then outcome.found.address else old(address))
    {
      status := -1;
      if received >= 22 {
        var outcome := ProcessReceivedPacket(m, received);
        if outcome.found.address.Some? {
          address := outcome.found.address;
        }
        if outcome.verdict.Accepted? {
          status := 0;
        }
      }
      Close(fd);
    }

    method Close(fd: Fd)
      requires Valid()
      modifies Frame()
      ensures Valid() && Now() == Closed(old(Now()), fd)
    {
      loop.Unregister(fd);
      stunSock := None;
    }

    /** Call the after callback, if there is one, and free the record. */
    method Complete(success: bool)
      requires Valid()
      modifies this
      ensures Valid() && Now() == Finish(old(Now()), success)
    {
      if notify {
        reports := reports + [Report(success, address)];
      }
      freed := freed + 1;
    }

    /** stun_receive, called by the dispatcher. */
    method StunReceive(fd: Fd, readable: bool, writable: bool, exception: bool, timeout: bool,
                       m: array<byte>, received: int)
      requires Valid() && m.Length >= 20 && m !in Frame()
      modifies Frame()
      ensures Valid()
      ensures Now() ==
        AfterReceive(old(Now()), fd, Arrival(readable, writable, exception, timeout, m[..], received))
    {
      hide Process, Apply, Closed, Finish;
      if readable {
        var status := ReceiveStunResponse(fd, m, received);
        if status == 0 {
          Close(fd);
          Complete(true);
          return;
        }
      }
      if timeout || exception {
        Close(fd);
      }
      if tries >= TRIES {
        Complete(false);
        return;
      }
      tries, queued := tries + 1, queued + 1;
    }

    /** gm_stun_stop. */
    method StunStop()
      requires Valid()
      modifies Frame()
      ensures Valid() && Now() == Step(old(Now()), Stop)
    {
      if stunSock.Some? {
        Close(stunSock.value);
      }
    }
  }
}
