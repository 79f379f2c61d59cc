/** Times of the event loop: seconds and microseconds, as wba_evloop.c adds, subtracts and
    compares them. */
module Timevals {

  const MILLION := 1_000_000

  datatype Timeval = Timeval(sec: int, usec: int)

  predicate Normal(t: Timeval) { 0 <= t.usec < MILLION }

  function Micros(t: Timeval): int { t.sec * MILLION + t.usec }

  /** Carries once, which is enough for normalised times. */
  function TimeAdd(a: Timeval, b: Timeval): (r: Timeval)
    ensures Micros(r) == Micros(a) + Micros(b)
    ensures Normal(a) && Normal(b) ==> Normal(r)
  {
    var t := Timeval(a.sec + b.sec, a.usec + b.usec);
    if t.usec >= MILLION then Timeval(t.sec + 1, t.usec - MILLION) else t
  }

  /** Borrows once, which is enough for normalised times. */
  function TimeSub(a: Timeval, b: Timeval): (r: Timeval)
    ensures Micros(r) == Micros(a) - Micros(b)
    ensures Normal(a) && Normal(b) ==> Normal(r)
  {
    var t := Timeval(a.sec - b.sec, a.usec - b.usec);
    if t.usec < 0 then Timeval(t.sec - 1, t.usec + MILLION) else t
  }

  function TimeCmp(a: Timeval, b: Timeval): (r: int)
    ensures r == 0 <==> a == b
    ensures Normal(a) && Normal(b) ==> (r < 0 <==> Micros(a) < Micros(b)) && (r > 0 <==> Micros(a) > Micros(b))
  {
    if a.sec != b.sec then (if a.sec > b.sec then 1 else -1)
    else if a.usec != b.usec then (if a.usec > b.usec then 1 else -1)
    else 0
  }

  /** a is not later than b, in the order of TimeCmp (for any times, normalised or not). */
  predicate NotLater(a: Timeval, b: Timeval) { TimeCmp(a, b) <= 0 }

  lemma NotLaterTransitive(a: Timeval, b: Timeval, c: Timeval)
    requires NotLater(a, b) && NotLater(b, c)
    ensures NotLater(a, c)
  {
  }
}
