/**
 The re-arming timer source of src/utils/timersource.c.

 Every method takes the reading of the monotonic clock (microseconds) that the
 source makes on entry, so a run is a sequence of calls with growing readings.
 */
module TimerSource {

  type Guint = x: int | 0 <= x < 0x1_0000_0000
  const G_MAXINT: int := 0x7fff_ffff

  /** The interval in force: a zero interval is floored at one millisecond. */
  function FlooredMs(intervalMs: nat): nat {
    if intervalMs == 0 then 1 else intervalMs
  }

  /** The instant an arming at nowUs is due at. */
  function Expiration(nowUs: nat, intervalMs: nat, granularityMs: nat): int {
    var exact := nowUs + FlooredMs(intervalMs) * 1000;
    if granularityMs == 0 then exact
    else
      var gran := granularityMs * 1000;
      var remainder := exact % gran;
      exact - remainder + (if remainder >= gran / 4 then gran else 0)
  }

  /** Rounding lands on a multiple of the granularity, at most a quarter early and three quarters late. */
  lemma RearmWindow(nowUs: nat, intervalMs: nat, granularityMs: nat)
    requires granularityMs > 0
    ensures var gran := granularityMs * 1000;
            var exact := nowUs + FlooredMs(intervalMs) * 1000;
            var due := Expiration(nowUs, intervalMs, granularityMs);
            && due % gran == 0
            && exact - gran / 4 < due <= exact + 3 * gran / 4
            && nowUs - gran / 4 < due
  {
    var gran := granularityMs * 1000;
    var exact := nowUs + FlooredMs(intervalMs) * 1000;
    var q := exact / gran;
    assert exact == q * gran + exact % gran;
    MultipleHasNoRemainder(q, gran);
    MultipleHasNoRemainder(q + 1, gran);
    assert (q + 1) * gran == q * gran + gran;
    assert gran / 4 == 250 * granularityMs;
  }

  lemma SmallRemainder(x: nat, gran: int)
    requires x < gran
    ensures x % gran == x
  {
  }

  lemma MultipleHasNoRemainder(q: int, gran: int)
    requires gran > 0
    ensures (q * gran) % gran == 0
  {
    var d := q - (q * gran) / gran;
    assert d * gran == (q * gran) % gran;
    assert d >= 1 ==> d * gran >= gran;
    assert d <= -1 ==> d * gran <= -gran;
  }

  /**
   The timer never re-arms itself to an instant that has already come, at any
   clock reading, exactly when a quarter of the granularity does not exceed the
   interval.
   */
  lemma StrictlyAhead(intervalMs: nat, granularityMs: nat)
    ensures (forall nowUs: nat :: Expiration(nowUs, intervalMs, granularityMs) > nowUs)
            <==> 4 * FlooredMs(intervalMs) >= granularityMs
  {
    if granularityMs > 0 {
      var gran := granularityMs * 1000;
      if 4 * FlooredMs(intervalMs) >= granularityMs {
        forall nowUs: nat ensures Expiration(nowUs, intervalMs, granularityMs) > nowUs {
          RearmWindow(nowUs, intervalMs, granularityMs);
          assert gran / 4 == 250 * granularityMs;
        }
      } else {
        var exact := FlooredMs(intervalMs) * 1000;
        assert gran / 4 == 250 * granularityMs;
        SmallRemainder(exact, gran);
        assert Expiration(0, intervalMs, granularityMs) == 0;
      }
    }
  }

  class Source {
    var expirationUs: int
    var intervalMs: Guint
    const granularityMs: Guint

    constructor (intervalMs: Guint, granularityMs: Guint, nowUs: nat)
      ensures this.intervalMs == intervalMs && this.granularityMs == granularityMs
      ensures expirationUs == Expiration(nowUs, intervalMs, granularityMs)
    {
      this.intervalMs := intervalMs;
      this.granularityMs := granularityMs;
      new;
      SetExpiration(nowUs);
    }

    /** Interval and granularity in the 32-bit unsigned arithmetic of the original. */
    constructor Seconds(intervalSec: Guint, nowUs: nat)
      ensures intervalMs == (1000 * intervalSec) % 0x1_0000_0000 && granularityMs == 1000
      ensures expirationUs == Expiration(nowUs, intervalMs, 1000)
    {
      this.intervalMs := (1000 * intervalSec) % 0x1_0000_0000;
      this.granularityMs := 1000;
      new;
      SetExpiration(nowUs);
    }

    method SetExpiration(nowUs: nat)
      modifies this`expirationUs
      ensures expirationUs == Expiration(nowUs, intervalMs, granularityMs)
      ensures var exact := nowUs + (if intervalMs == 0 then 1000 else intervalMs * 1000);
              var gran := granularityMs * 1000;
              if granularityMs == 0 then expirationUs == exact
              else expirationUs % gran == 0 && exact - gran / 4 < expirationUs <= exact + 3 * gran / 4
    {
      if granularityMs > 0 {
        RearmWindow(nowUs, intervalMs, granularityMs);
      }
      var interval: int := intervalMs;
      if interval == 0 {
        interval := 1;
      }
      expirationUs := nowUs + interval * 1000;
      if granularityMs != 0 {
        var gran := granularityMs * 1000;
        var remainder := expirationUs % gran;
        if remainder >= gran / 4 {
          expirationUs := expirationUs + gran;
        }
        expirationUs := expirationUs - remainder;
      }
    }

    /**
     Ready exactly when due, so prepare and check agree; otherwise a timeout of
     at least one millisecond which, unless clamped, ends within the first
     millisecond in which the source is due.
     */
    method Prepare(nowUs: nat) returns (ready: bool, timeoutMs: int)
      ensures ready <==> expirationUs <= nowUs
      ensures ready ==> timeoutMs == 0
      ensures !ready ==> 1 <= timeoutMs <= G_MAXINT
      ensures !ready && timeoutMs < G_MAXINT ==> expirationUs <= nowUs + timeoutMs * 1000 < expirationUs + 1000
      ensures !ready && timeoutMs == G_MAXINT ==> nowUs + timeoutMs * 1000 < expirationUs + 1000
    {
      var remainingUs := expirationUs - nowUs;
      if remainingUs <= 0 {
        return true, 0;
      }
      var msec := (remainingUs + 999) / 1000;
      if msec > G_MAXINT {
        msec := G_MAXINT;
      }
      return false, msec;
    }

    method Check(nowUs: nat) returns (ready: bool)
      ensures ready <==> expirationUs <= nowUs
    {
      ready := expirationUs <= nowUs;
    }

    /**
     Runs the callback, which may set a new interval, and re-arms at the clock
     reading after it unless the callback ends the source.
     */
    method Dispatch(callback: Callback, nowUs: nat, afterUs: nat) returns (keep: bool)
      requires nowUs <= afterUs
      modifies this
      ensures keep == callback.again
      ensures intervalMs == if callback.newIntervalMs >= 0 then callback.newIntervalMs % 0x1_0000_0000
                            else old(intervalMs)
      ensures keep ==> expirationUs == Expiration(afterUs, intervalMs, granularityMs)
    {
      if callback.newIntervalMs >= 0 {
        SetInterval(callback.newIntervalMs % 0x1_0000_0000, nowUs);
      }
      if callback.again {
        SetExpiration(afterUs);
        return true;
      }
      return false;
    }

    method SetInterval(intervalMs: Guint, nowUs: nat)
      modifies this
      ensures this.intervalMs == intervalMs
      ensures expirationUs == Expiration(nowUs, intervalMs, granularityMs)
    {
      this.intervalMs := intervalMs;
      SetExpiration(nowUs);
    }

    method SetIntervalSeconds(intervalSec: Guint, nowUs: nat)
      modifies this
      ensures intervalMs == (intervalSec * 1000) % 0x1_0000_0000
      ensures intervalSec <= 7 * 24 * 60 * 60 ==> intervalMs == intervalSec * 1000
      ensures expirationUs == Expiration(nowUs, intervalMs, granularityMs)
    {
      SetInterval((intervalSec * 1000) % 0x1_0000_0000, nowUs);
    }

    method FireNow(nowUs: nat)
      modifies this`expirationUs
      ensures expirationUs == nowUs
    {
      expirationUs := nowUs;
    }

    method IsOverdue(graceUs: int, nowUs: nat) returns (overdue: bool)
      ensures overdue <==> nowUs - expirationUs > graceUs
      ensures overdue && graceUs >= 0 ==> expirationUs < nowUs
    {
      overdue := nowUs > expirationUs + graceUs;
    }
  }

  /** What a dispatched callback does to its source; a negative interval leaves it alone. */
  datatype Callback = Callback(again: bool, newIntervalMs: int)

  /** One dispatch after another, each following an arming made no earlier than the dispatch before it. */
  ghost predicate DispatchRun(dispatchedAtUs: seq<nat>, armedAtUs: seq<nat>, intervalMs: nat, granularityMs: nat) {
    && |dispatchedAtUs| == |armedAtUs| + 1
    && forall k :: 0 <= k < |armedAtUs| ==>
         && dispatchedAtUs[k] <= armedAtUs[k]
         && Expiration(armedAtUs[k], intervalMs, granularityMs) <= dispatchedAtUs[k + 1]
  }

  /**
   A source that is always continued and never fired by hand cannot be
   dispatched more often than once per floored interval less a quarter of the
   granularity, over runs of any length.
   */
  lemma {:induction false} DispatchesAreSpaced(dispatchedAtUs: seq<nat>, armedAtUs: seq<nat>,
                                               intervalMs: nat, granularityMs: nat)
    requires DispatchRun(dispatchedAtUs, armedAtUs, intervalMs, granularityMs)
    ensures var n := |armedAtUs|;
            dispatchedAtUs[n] >= dispatchedAtUs[0] + n * (FlooredMs(intervalMs) * 1000 - granularityMs * 250)
  {
    var n := |armedAtUs|;
    if n > 0 {
      DispatchesAreSpaced(dispatchedAtUs[..n], armedAtUs[..n - 1], intervalMs, granularityMs);
      if granularityMs > 0 {
        RearmWindow(armedAtUs[n - 1], intervalMs, granularityMs);
      }
      var gap := FlooredMs(intervalMs) * 1000 - granularityMs * 250;
      assert dispatchedAtUs[n] >= dispatchedAtUs[n - 1] + gap;
      assert n * gap == (n - 1) * gap + gap;
    }
  }
}
