/**
 Timespec arithmetic of the luna-service2 clock helpers, which the activity
 roster, the timed wait and the timer source are built on.

 `Nanos` is the meaning of a timespec. The contracts below say that each helper
 computes on meanings, and on which timespecs it does so.
 */
module Clock {

  const NSEC_PER_SEC: int := 1_000_000_000
  const NSEC_PER_MSEC: int := 1_000_000

  datatype Timespec = Timespec(sec: int, nsec: int) {
    predicate Normal() {
      0 <= nsec < NSEC_PER_SEC
    }

    function Nanos(): int {
      sec * NSEC_PER_SEC + nsec
    }
  }

  /** What the clock itself reads: always normal. */
  type Instant = t: Timespec | t.Normal() witness Timespec(0, 0)

  /** Carries at most once, so a nanosecond field that is too large stays so. */
  function Accum(sum: Timespec, b: Timespec): (r: Timespec)
    ensures r.Nanos() == sum.Nanos() + b.Nanos()
    ensures sum.Normal() && b.Normal() ==> r.Normal()
  {
    var sec, nsec := sum.sec + b.sec, sum.nsec + b.nsec;
    if nsec >= NSEC_PER_SEC then Timespec(sec + 1, nsec - NSEC_PER_SEC) else Timespec(sec, nsec)
  }

  /** The timespec of a millisecond count, as ClockAccumMs and WaitObjectWait build it. */
  function OfMs(ms: nat): (r: Timespec)
    ensures r.Normal() && r.Nanos() == ms * NSEC_PER_MSEC
  {
    Timespec(ms / 1000, (ms % 1000) * NSEC_PER_MSEC)
  }

  predicate IsGreater(a: Timespec, b: Timespec) {
    a.sec > b.sec || (a.sec == b.sec && a.nsec > b.nsec)
  }

  function Diff(a: Timespec, b: Timespec): (r: Timespec)
    ensures r.Nanos() == a.Nanos() - b.Nanos()
    ensures a.Normal() && b.Normal() ==> r.Normal()
  {
    var sec, nsec := a.sec - b.sec, a.nsec - b.nsec;
    if nsec < 0 then Timespec(sec - 1, nsec + NSEC_PER_SEC) else Timespec(sec, nsec)
  }

  /** Whole milliseconds of a normal timespec. */
  function GetMs(t: Timespec): (ms: int)
    requires t.Normal()
    ensures ms * NSEC_PER_MSEC <= t.Nanos() < (ms + 1) * NSEC_PER_MSEC
  {
    t.sec * 1000 + t.nsec / NSEC_PER_MSEC
  }

  /** The field-wise comparison is the comparison of meanings exactly on normal timespecs. */
  lemma GreaterIsOrder(a: Timespec, b: Timespec)
    requires a.Normal() && b.Normal()
    ensures IsGreater(a, b) <==> a.Nanos() > b.Nanos()
  {
  }
}
