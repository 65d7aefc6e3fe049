/**
 The idle check of src/pwrevents/suspend.c: the periodic callback that decides
 whether to trigger a suspend, over the roster, the retry policy and its own
 timer source.
 */
module IdleCheck {
  import opened Clock
  import opened Wrappers
  import Activity
  import Kernel
  import Retry
  import TimerSource

  /** wait_idle_ms and wait_alarms_s. */
  datatype Config = Config(waitIdleMs: int, waitAlarmsS: int)

  /**
   What the check reads besides its own objects. The three clock readings are of
   the same monotonic clock, in order.
   */
  datatype Reading = Reading(
    inhibited: bool, displayOn: bool, suspendActive: bool,
    nextWakeS: Option<int>,     // seconds until the next wakeup timeout
    first: Instant, second: Instant, nowUs: nat)

  /** A wakeup timeout is about to fire. */
  predicate AlarmNear(cfg: Config, r: Reading) {
    r.nextWakeS.Some? && 0 <= r.nextWakeS.value <= cfg.waitAlarmsS
  }

  predicate AllExpired(roster: seq<Activity.Activity>, now: Instant) {
    forall a :: a in roster ==> now.Nanos() > a.end.Nanos()
  }

  class Checker {
    const cfg: Config
    const activities: Activity.Roster
    const retry: Retry.RetryPolicy
    const timer: TimerSource.Source

    constructor (cfg: Config, activities: Activity.Roster, retry: Retry.RetryPolicy, timer: TimerSource.Source)
      ensures this.cfg == cfg && this.activities == activities && this.retry == retry && this.timer == timer
    {
      this.cfg, this.activities, this.retry, this.timer := cfg, activities, retry, timer;
    }

    /** Zero or less means now, keeping the configured poll interval for the next re-arming. */
    method ScheduleIdleCheck(intervalMs: int, nowUs: nat)
      requires 0 <= cfg.waitIdleMs < 0x8000_0000 && intervalMs < 0x8000_0000
      modifies timer
      ensures timer.intervalMs == if intervalMs <= 0 then cfg.waitIdleMs else intervalMs
      ensures timer.expirationUs == if intervalMs <= 0 then nowUs
                                    else TimerSource.Expiration(nowUs, intervalMs, timer.granularityMs)
    {
      if intervalMs <= 0 {
        timer.SetInterval(cfg.waitIdleMs, nowUs);
        timer.FireNow(nowUs);
      } else {
        timer.SetInterval(intervalMs, nowUs);
      }
    }

    /**
     Triggers exactly when no shutdown has begun, the display is off, the hold is
     over, no activity is unexpired, no wakeup timeout is about to fire and the
     suspend policy is on. Expired activities lose their wakelocks whatever the
     display does, and a poll with the display off comes back no earlier than
     the hold and the longest activity allow.
     */
    method Check(r: Reading) returns (triggered: bool)
      requires activities.Ordered()
      requires 0 < cfg.waitIdleMs < 0x8000_0000
      requires retry.noSuspendBeforeUs - r.nowUs < 0x7fff_ffff * 1000
      requires r.first.Nanos() <= r.second.Nanos()
      requires activities.latestStart <= r.first.Nanos()
      modifies activities`roster, activities.kernel, timer
      ensures activities.Ordered() && (old(activities.Mirrored()) ==> activities.Mirrored())
      ensures triggered <==>
                && !r.inhibited && !r.displayOn && r.nowUs >= retry.noSuspendBeforeUs
                && (forall a :: a in old(activities.roster) ==> r.second.Nanos() > a.end.Nanos())
                && !(r.nextWakeS.Some? && 0 <= r.nextWakeS.value <= cfg.waitAlarmsS) && r.suspendActive
      ensures !r.inhibited ==> forall a :: a in activities.roster ==> !Activity.IsExpired(a, r.first)
      ensures forall a :: a in old(activities.roster) && !Activity.IsExpired(a, r.second) ==> a in activities.roster
      ensures r.inhibited || r.displayOn ==> unchanged(timer)
      ensures !r.inhibited && !r.displayOn ==>
                && timer.intervalMs >= cfg.waitIdleMs
                && r.nowUs + timer.intervalMs * 1000 >= retry.noSuspendBeforeUs
                && (forall a :: a in activities.roster ==>
                      a.end.Nanos() - r.second.Nanos() < (timer.intervalMs + 1) * NSEC_PER_MSEC)
                && timer.expirationUs == TimerSource.Expiration(r.nowUs, timer.intervalMs, timer.granularityMs)
                && (|| timer.intervalMs == cfg.waitIdleMs
                    || r.nowUs + timer.intervalMs * 1000 < retry.noSuspendBeforeUs + 1000
                    || exists a :: a in activities.roster
                                   && timer.intervalMs * NSEC_PER_MSEC <= a.end.Nanos() - r.second.Nanos())
    {
      triggered := false;
      if r.inhibited {
        return;
      }
      activities.RemoveExpired(r.first);
      OnlyUnexpired(old(activities.roster), r.first, r.second);
      if r.displayOn {
        return;
      }
      var open, nextIdleMs := retry.IdleGate(r.nowUs);
      if open {
        var idle := activities.CanSleep(r.second);
        activities.RemoveExpired(r.second);
        OnlyUnexpired(Activity.Unexpired(old(activities.roster), r.first), r.first, r.second);
        if !AlarmNear(cfg, r) {
          if r.suspendActive && idle {
            triggered := true;
          }
        }
      }
      Reschedule(nextIdleMs, r.second, r.nowUs);
    }

    /** Comes back after the poll interval, the longest activity or the hold, whichever is longest. */
    method Reschedule(nextIdleMs: int, now: Instant, nowUs: nat)
      requires activities.Ordered() && activities.latestStart <= now.Nanos()
      requires 0 < cfg.waitIdleMs < 0x8000_0000 && nextIdleMs < 0x8000_0000
      modifies timer
      ensures timer.intervalMs >= cfg.waitIdleMs && timer.intervalMs >= nextIdleMs
      ensures || timer.intervalMs == cfg.waitIdleMs || timer.intervalMs == nextIdleMs
              || exists a :: a in activities.roster
                             && timer.intervalMs * NSEC_PER_MSEC <= a.end.Nanos() - now.Nanos()
      ensures forall a :: a in activities.roster ==>
                a.end.Nanos() - now.Nanos() < (timer.intervalMs + 1) * NSEC_PER_MSEC
      ensures timer.expirationUs == TimerSource.Expiration(nowUs, timer.intervalMs, timer.granularityMs)
    {
      var waitMs := cfg.waitIdleMs;
      var maxMs := activities.GetMaxDuration(now);
      if maxMs > waitMs {
        waitMs := maxMs;
      }
      if nextIdleMs > waitMs {
        waitMs := nextIdleMs;
      }
      LimitedDuration(activities.roster, activities.latestStart, now, maxMs);
      ScheduleIdleCheck(waitMs, nowUs);
      Remaining(activities.roster, now, maxMs);
    }
  }

  /** Dropping entries by an earlier reading changes nothing about who is unexpired at a later one. */
  lemma OnlyUnexpired(roster: seq<Activity.Activity>, first: Instant, second: Instant)
    requires first.Nanos() <= second.Nanos()
    ensures forall a :: a in roster && !Activity.IsExpired(a, second) ==> a in Activity.Unexpired(roster, first)
    ensures AllExpired(roster, second) <==> AllExpired(Activity.Unexpired(roster, first), second)
    ensures forall a :: a in Activity.Unexpired(roster, second) ==> !Activity.IsExpired(a, first)
  {
  }

  /** No entry has more than the duration limit left to run. */
  lemma LimitedDuration(roster: seq<Activity.Activity>, latest: int, now: Instant, ms: int)
    requires Activity.Bounded(roster, latest) && latest <= now.Nanos()
    requires ms != 0 ==>
               exists a :: a in Activity.Unexpired(roster, now) && ms * NSEC_PER_MSEC <= a.end.Nanos() - now.Nanos()
    ensures ms <= Activity.MAX_DURATION_MS
  {
  }

  lemma Remaining(roster: seq<Activity.Activity>, now: Instant, ms: int)
    requires Activity.Unexpired(roster, now) != [] ==>
               forall a :: a in Activity.Unexpired(roster, now) ==>
                 a.end.Nanos() - now.Nanos() < (ms + 1) * NSEC_PER_MSEC
    requires Activity.Unexpired(roster, now) == [] ==> ms == 0
    ensures forall a :: a in roster ==> a.end.Nanos() - now.Nanos() < (ms + 1) * NSEC_PER_MSEC || ms < 0
  {
  }
}
