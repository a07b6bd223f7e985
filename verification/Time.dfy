/** The <sys/time.h> arithmetic on pairs of seconds and microseconds, for components/generic_main/select_task.c. */
module Time {

  datatype Timeval = Timeval(sec: int, usec: int)

  const CLEAR := Timeval(0, 0)

  predicate Normal(t: Timeval)
  {
    0 <= t.usec < 1_000_000
  }

  function Micros(t: Timeval): (r: int)
  {
    t.sec * 1_000_000 + t.usec
  }

  predicate IsSet(t: Timeval)
  {
    t.sec != 0 || t.usec != 0
  }

  predicate Less(a: Timeval, b: Timeval)
  {
    if a.sec == b.sec then a.usec < b.usec else a.sec < b.sec
  }

  function Sub(a: Timeval, b: Timeval): (r: Timeval)
  {
    if a.usec < b.usec then Timeval(a.sec - b.sec - 1, a.usec - b.usec + 1_000_000)
    else Timeval(a.sec - b.sec, a.usec - b.usec)
  }

  /** On normal pairs the field-wise operations are comparison and subtraction of total microseconds. */
  lemma MicrosAgree(a: Timeval, b: Timeval)
    requires Normal(a) && Normal(b)
    ensures Less(a, b) <==> Micros(a) < Micros(b)
    ensures Normal(Sub(a, b)) && Micros(Sub(a, b)) == Micros(a) - Micros(b)
  {
  }

  /** The dispatcher treats a deadline as reached once less than ten milliseconds remain. */
  predicate Due(t: Timeval, now: Timeval)
  {
    IsSet(t) && (Less(t, now) || (Sub(t, now).sec == 0 && Sub(t, now).usec < 10_000))
  }

  lemma DueMicros(t: Timeval, now: Timeval)
    requires Normal(t) && Normal(now)
    ensures Due(t, now) <==> IsSet(t) && Micros(t) < Micros(now) + 10_000
  {
    MicrosAgree(t, now);
  }
}
