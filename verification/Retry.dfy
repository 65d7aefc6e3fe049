/**
 The retry policy of src/pwrevents/suspend.c: the exponential back-off after
 attempts the kernel refuses, and the "not before" hold that the idle check
 honours.

 `Apply` says what an event does to the policy in closed form, `RetryPolicy` is
 the original's step-by-step code proved against it, and the run lemmas bound
 how early the idle check may start an attempt.
 */
module Retry {

  /** after_resume_idle_ms and max_retry_backoff_ms. */
  datatype Config = Config(baseMs: int, capMs: int)

  function Min(a: int, b: int): int {
    if a <= b then a else b
  }

  function Max(a: int, b: int): int {
    if a >= b then a else b
  }

  /** The cap in force: never below the base. */
  function Cap(cfg: Config): int {
    Max(cfg.capMs, cfg.baseMs)
  }

  function Pow2(k: nat): (p: nat)
    ensures p >= 1
  {
    if k == 0 then 1 else 2 * Pow2(k - 1)
  }

  /** The closed form: the delay the next refusal imposes after a streak of refusals. */
  function Stored(cfg: Config, streak: nat): int {
    Min(cfg.baseMs * Pow2(streak), Cap(cfg))
  }

  /** Doubling from the base, cut at the cap or, should that be smaller, at the base. */
  lemma StoredIs(cfg: Config, streak: nat)
    ensures Pow2(0) == 1 && Pow2(streak + 1) == 2 * Pow2(streak)
    ensures var exact := cfg.baseMs * Pow2(streak);
            var cap := if cfg.capMs >= cfg.baseMs then cfg.capMs else cfg.baseMs;
            Stored(cfg, streak) == if exact <= cap then exact else cap
  {
  }

  /** C integer division, which truncates toward zero. */
  function TruncDiv(a: int, b: int): int
    requires b > 0
  {
    if a >= 0 then a / b else -((-a) / b)
  }

  /** The arithmetic of one refusal, from the stored delay to (imposed delay, next stored delay). */
  function Refusal(cfg: Config, storedMs: int): (int, int) {
    var delayMs := Min(Max(storedMs, cfg.baseMs), Cap(cfg));
    (delayMs, if delayMs > TruncDiv(Cap(cfg), 2) then Cap(cfg) else delayMs * 2)
  }

  lemma StoredInRange(cfg: Config, streak: nat)
    requires cfg.baseMs >= 0
    ensures cfg.baseMs <= Stored(cfg, streak) <= Cap(cfg)
  {
    PowerStep(cfg.baseMs, streak);
  }

  /** The arithmetic of a refusal on a delay cut at the cap: the same delay, then twice as much cut at the cap. */
  lemma RefusalDoubles(cfg: Config, exact: int)
    requires 0 <= cfg.baseMs <= exact
    ensures Refusal(cfg, Min(exact, Cap(cfg))) == (Min(exact, Cap(cfg)), Min(2 * exact, Cap(cfg)))
  {
  }

  lemma PowerStep(base: int, k: nat)
    ensures base * Pow2(k + 1) == 2 * (base * Pow2(k))
    ensures base >= 0 ==> base <= base * Pow2(k)
  {
    var p := Pow2(k);
    assert base * (2 * p) == 2 * (base * p);
    assert base * p == base * (p - 1) + base;
  }

  /** A refusal imposes the closed form of the streak so far and stores that of the next. */
  lemma DoublesUpToCap(cfg: Config, streak: nat)
    requires cfg.baseMs >= 0
    ensures Refusal(cfg, Stored(cfg, streak)) == (Stored(cfg, streak), Stored(cfg, streak + 1))
    ensures Stored(cfg, streak) <= Stored(cfg, streak + 1)
  {
    PowerStep(cfg.baseMs, streak);
    RefusalDoubles(cfg, cfg.baseMs * Pow2(streak));
  }

  lemma {:induction false} StoredGrows(cfg: Config, a: nat, b: nat)
    requires cfg.baseMs >= 0 && a <= b
    ensures Stored(cfg, a) <= Stored(cfg, b)
  {
    if a < b {
      StoredGrows(cfg, a, b - 1);
      StoredInRange(cfg, b - 1);
      DoublesUpToCap(cfg, b - 1);
    }
  }

  /** What is stored after so many refusals in a row, by the arithmetic of the code. */
  function AfterRefusals(cfg: Config, count: nat): int {
    if count == 0 then cfg.baseMs else Refusal(cfg, AfterRefusals(cfg, count - 1)).1
  }

  /** The code computes the closed form for every streak exactly when the base is not negative. */
  lemma ClosedFormExactly(cfg: Config)
    ensures (forall count: nat :: AfterRefusals(cfg, count) == Stored(cfg, count)) <==> cfg.baseMs >= 0
  {
    if cfg.baseMs >= 0 {
      forall count: nat ensures AfterRefusals(cfg, count) == Stored(cfg, count) {
        ClosedFormHolds(cfg, count);
      }
    } else {
      assert Pow2(2) == 4 by {
        assert Pow2(1) == 2;
      }
      assert AfterRefusals(cfg, 1) == 2 * cfg.baseMs;
      assert AfterRefusals(cfg, 2) == 2 * cfg.baseMs != Stored(cfg, 2);
    }
  }

  lemma {:induction false} ClosedFormHolds(cfg: Config, count: nat)
    requires cfg.baseMs >= 0
    ensures AfterRefusals(cfg, count) == Stored(cfg, count)
  {
    if count > 0 {
      ClosedFormHolds(cfg, count - 1);
      StoredInRange(cfg, count - 1);
      DoublesUpToCap(cfg, count - 1);
    }
  }

  // ---------------------------------------------------------------- the policy

  datatype Policy = Policy(notBeforeUs: int, backoffMs: int, streak: nat)

  /**
   Events in the order their stores land; each carries the clock reading it was
   computed from. A reset and a back-off take several accesses: the last three
   events are their halves, for when something else comes in between.
   */
  datatype Event =
    | Refused(clockUs: int)    // the kernel refused an attempt
    | Aborted(clockUs: int)    // the pass ended in AbortSuspend
    | Resumed(clockUs: int)    // the pass ended in KernelResume or ActivityResume
    | Reset(clockUs: int)      // a wake-worthy event on any thread
    | Exchanged(clockUs: int)  // the exchange of a Reset whose other stores come later
    | HoldStored(clockUs: int) // the last store of a Reset whose exchange came earlier
    | LateRefusal(clockUs: int, loadedMs: int) // the stores of a Refused that loaded its delay earlier

  predicate Whole(e: Event) {
    !e.Exchanged? && !e.LateRefusal?
  }

  ghost predicate Consistent(cfg: Config, p: Policy) {
    cfg.baseMs >= 0 && p.backoffMs == Stored(cfg, p.streak)
  }

  /** What the code stores, by the arithmetic of the code. */
  function Apply(cfg: Config, p: Policy, e: Event): Policy {
    match e
    case Refused(now) => RefusedFrom(cfg, p, now, p.backoffMs)
    case Aborted(now) =>
      if TruncDiv(p.notBeforeUs - now, 1000) > cfg.baseMs then p
      else p.(notBeforeUs := now + cfg.baseMs * 1000)
    case Resumed(now) => Policy(now + cfg.baseMs * 1000, cfg.baseMs, 0)
    case Reset(now) =>
      Policy(if p.backoffMs == cfg.baseMs then p.notBeforeUs else now + cfg.baseMs * 1000, cfg.baseMs, 0)
    case Exchanged(_) => p.(backoffMs := cfg.baseMs)
    case HoldStored(now) => p.(notBeforeUs := now + cfg.baseMs * 1000)
    case LateRefusal(now, loadedMs) => RefusedFrom(cfg, p, now, loadedMs)
  }

  function RefusedFrom(cfg: Config, p: Policy, now: int, loadedMs: int): Policy {
    var (delayMs, nextMs) := Refusal(cfg, loadedMs);
    Policy(now + delayMs * 1000, nextMs, p.streak + 1)
  }

  function Run(cfg: Config, p: Policy, events: seq<Event>): Policy {
    if events == [] then p else Apply(cfg, Run(cfg, p, events[..|events| - 1]), events[|events| - 1])
  }

  predicate MayTrigger(p: Policy, nowUs: int) {
    nowUs >= p.notBeforeUs
  }

  lemma ConsistentStep(cfg: Config, p: Policy, e: Event)
    requires Consistent(cfg, p) && Whole(e)
    ensures Consistent(cfg, Apply(cfg, p, e))
    ensures e.Refused? ==> Apply(cfg, p, e).notBeforeUs == e.clockUs + Stored(cfg, p.streak) * 1000
  {
    StoredInRange(cfg, p.streak);
    DoublesUpToCap(cfg, p.streak);
    assert cfg.baseMs * Pow2(0) == cfg.baseMs;
  }

  /** The back-off the code computes is the closed form of the streak, as long as no reset comes inside a back-off. */
  lemma {:induction false} ConsistentAlways(cfg: Config, p: Policy, events: seq<Event>)
    requires Consistent(cfg, p) && forall e :: e in events ==> Whole(e)
    ensures Consistent(cfg, Run(cfg, p, events))
  {
    if events != [] {
      var n := |events| - 1;
      ConsistentAlways(cfg, p, events[..n]);
      assert events[n] in events;
      ConsistentStep(cfg, Run(cfg, p, events[..n]), events[n]);
    }
  }

  /**
   After an abort or a resume no idle check triggers within the base interval,
   whatever is stored at that moment and whatever follows - refusals, aborts,
   resumes and resets, also with the stores of one in the middle of another -
   provided nothing works from a clock reading older than that abort or resume.
   */
  lemma AwakeForBaseInterval(cfg: Config, p: Policy, wake: Event, events: seq<Event>, triggerUs: int)
    requires cfg.baseMs >= 0
    requires wake.Aborted? || wake.Resumed?
    requires forall e :: e in events ==> e.clockUs >= wake.clockUs
    requires MayTrigger(Run(cfg, Apply(cfg, p, wake), events), triggerUs)
    ensures triggerUs >= wake.clockUs + cfg.baseMs * 1000
  {
    HoldStaysAhead(cfg, Apply(cfg, p, wake), wake.clockUs, events);
  }

  lemma {:induction false} HoldStaysAhead(cfg: Config, p: Policy, wakeUs: int, events: seq<Event>)
    requires cfg.baseMs >= 0
    requires p.notBeforeUs >= wakeUs + cfg.baseMs * 1000
    requires forall e :: e in events ==> e.clockUs >= wakeUs
    ensures Run(cfg, p, events).notBeforeUs >= wakeUs + cfg.baseMs * 1000
  {
    if events != [] {
      HoldStaysAhead(cfg, p, wakeUs, events[..|events| - 1]);
      assert events[|events| - 1] in events;
    }
  }

  /**
   SuspendHoldOff reads the clock and stores in two steps. A reset whose store
   lands after a resume keeps the base interval exactly when it read the clock
   after that resume.
   */
  lemma StaleReadingBreaksInterval(cfg: Config, p: Policy, resumeUs: int, readUs: int)
    ensures NoTriggerBefore(Run(cfg, p, [Resumed(resumeUs), HoldStored(readUs)]), resumeUs + cfg.baseMs * 1000)
            <==> readUs >= resumeUs
  {
    var events := [Resumed(resumeUs), HoldStored(readUs)];
    var after := Run(cfg, p, events);
    assert after == Apply(cfg, Run(cfg, p, events[..1]), HoldStored(readUs));
    assert MayTrigger(after, readUs + cfg.baseMs * 1000);
  }

  ghost predicate NoTriggerBefore(p: Policy, us: int) {
    forall t :: MayTrigger(p, t) ==> t >= us
  }

  ghost predicate InOrder(fromUs: int, events: seq<Event>) {
    && (forall i :: 0 <= i < |events| ==> events[i].clockUs >= fromUs)
    && (forall i, j :: 0 <= i < j < |events| ==> events[i].clockUs <= events[j].clockUs)
  }

  /**
   Without a reset, an attempt refused with the closed form's delay is not
   retried by the idle check before that delay, less than a millisecond of
   truncation apart, however many aborted or refused cycles follow.
   */
  lemma RefusalHoldsItsDelay(cfg: Config, p: Policy, refusedUs: int, events: seq<Event>, triggerUs: int)
    requires Consistent(cfg, p)
    requires InOrder(refusedUs, events)
    requires forall e :: e in events ==> e.Aborted? || e.Refused?
    requires MayTrigger(Run(cfg, Apply(cfg, p, Refused(refusedUs)), events), triggerUs)
    ensures triggerUs > refusedUs + Stored(cfg, p.streak) * 1000 - 1000
  {
    var refused := Apply(cfg, p, Refused(refusedUs));
    StoredGrows(cfg, p.streak, p.streak + 1);
    ConsistentStep(cfg, p, Refused(refusedUs));
    HoldKeepsDelay(cfg, refused, refusedUs, Stored(cfg, p.streak), events);
  }

  lemma {:induction false} HoldKeepsDelay(cfg: Config, p: Policy, refusedUs: int, delayMs: int, events: seq<Event>)
    requires Consistent(cfg, p) && p.backoffMs >= delayMs
    requires p.notBeforeUs == refusedUs + delayMs * 1000
    requires InOrder(refusedUs, events)
    requires forall e :: e in events ==> e.Aborted? || e.Refused?
    ensures var r := Run(cfg, p, events);
            var due := refusedUs + delayMs * 1000;
            && Consistent(cfg, r) && r.backoffMs >= delayMs
            && (r.notBeforeUs >= due
                || (events != [] && due - 1000 < r.notBeforeUs <= events[|events| - 1].clockUs + cfg.baseMs * 1000))
  {
    if events != [] {
      var before := events[..|events| - 1];
      HoldKeepsDelay(cfg, p, refusedUs, delayMs, before);
      var e := events[|events| - 1];
      assert e in events;
      StoredGrows(cfg, Run(cfg, p, before).streak, Run(cfg, p, before).streak + 1);
      ConsistentStep(cfg, Run(cfg, p, before), e);
      if before != [] {
        assert before[|before| - 1] == events[|events| - 2];
      }
    }
  }

  /** A stored delay of the base alone means that the hold is no longer than the base interval. */
  ghost predicate Settled(cfg: Config, p: Policy, us: int) {
    p.backoffMs == cfg.baseMs ==> p.notBeforeUs <= us + cfg.baseMs * 1000
  }

  lemma {:induction false} StaysSettled(cfg: Config, p: Policy, events: seq<Event>, fromUs: int, untilUs: int)
    requires cfg.baseMs >= 0 && Settled(cfg, p, fromUs) && fromUs <= untilUs
    requires forall e :: e in events ==> Whole(e) && e.clockUs <= untilUs
    ensures Settled(cfg, Run(cfg, p, events), untilUs)
  {
    if events != [] {
      var n := |events| - 1;
      assert events[n] in events;
      StaysSettled(cfg, p, events[..n], fromUs, untilUs);
    }
  }

  /**
   What a wake-worthy event is for: whatever was refused or aborted before it, and however
   long the hold then was, the idle check may trigger one base interval later at the latest.
   */
  lemma ResetEndsHold(cfg: Config, p: Policy, events: seq<Event>, fromUs: int, last: Event, triggerUs: int)
    requires cfg.baseMs >= 0 && Settled(cfg, p, fromUs) && fromUs <= last.clockUs
    requires forall e :: e in events ==> Whole(e) && e.clockUs <= last.clockUs
    requires last.Reset? || last.Resumed?
    requires triggerUs >= last.clockUs + cfg.baseMs * 1000
    ensures MayTrigger(Apply(cfg, Run(cfg, p, events), last), triggerUs)
  {
    StaysSettled(cfg, p, events, fromUs, last.clockUs);
  }

  class RetryPolicy {
    const cfg: Config
    var noSuspendBeforeUs: int
    var retryBackoffMs: int
    var refusalStreak: nat

    ghost function View(): Policy
      reads this
    {
      Policy(noSuspendBeforeUs, retryBackoffMs, refusalStreak)
    }

    ghost predicate Valid()
      reads this
    {
      Consistent(cfg, View())
    }

    constructor (cfg: Config)
      ensures this.cfg == cfg && View() == Policy(0, cfg.baseMs, 0)
      ensures cfg.baseMs >= 0 ==> Valid()
    {
      this.cfg := cfg;
      noSuspendBeforeUs, retryBackoffMs, refusalStreak := 0, cfg.baseMs, 0;
    }

    method HoldOff(delayMs: int, nowUs: int)
      modifies this`noSuspendBeforeUs
      ensures noSuspendBeforeUs == nowUs + delayMs * 1000
    {
      noSuspendBeforeUs := nowUs + delayMs * 1000;
    }

    /** Whatever was stored, the closed form holds afterwards. */
    method ResetRetry(nowUs: int)
      modifies this
      ensures View() == Apply(cfg, old(View()), Reset(nowUs))
      ensures cfg.baseMs >= 0 ==> Valid()
      ensures retryBackoffMs == cfg.baseMs && refusalStreak == 0
      ensures noSuspendBeforeUs == if old(retryBackoffMs) != cfg.baseMs then nowUs + cfg.baseMs * 1000
                                   else old(noSuspendBeforeUs)
    {
      var previousMs := retryBackoffMs;
      retryBackoffMs := cfg.baseMs;
      refusalStreak := 0;
      if previousMs != cfg.baseMs {
        HoldOff(cfg.baseMs, nowUs);
      }
      assert cfg.baseMs * Pow2(0) == cfg.baseMs;
    }

    /**
     From any stored delay the delay imposed is between base and cap; from the closed form
     it is the closed form. Doubling only happens at or below half the cap, so nothing
     computed exceeds the cap.
     */
    method BackOff(nowUs: int) returns (delayMs: int)
      modifies this
      ensures View() == Apply(cfg, old(View()), Refused(nowUs))
      ensures cfg.baseMs <= delayMs <= Cap(cfg) && noSuspendBeforeUs == nowUs + delayMs * 1000
      ensures old(Valid()) ==> Valid() && delayMs == Stored(cfg, old(refusalStreak))
      ensures old(retryBackoffMs) >= cfg.baseMs && old(retryBackoffMs) <= Cap(cfg) ==> delayMs == old(retryBackoffMs)
      ensures cfg.baseMs >= 0 ==> retryBackoffMs == if 2 * delayMs <= Cap(cfg) then 2 * delayMs else Cap(cfg)
      ensures refusalStreak == old(refusalStreak) + 1
    {
      if Valid() {
        StoredInRange(cfg, refusalStreak);
        DoublesUpToCap(cfg, refusalStreak);
        ConsistentStep(cfg, View(), Refused(nowUs));
      }
      var capMs := cfg.capMs;
      delayMs := retryBackoffMs;
      if delayMs < cfg.baseMs {
        delayMs := cfg.baseMs;
      }
      if capMs < cfg.baseMs {
        capMs := cfg.baseMs;
      }
      if delayMs > capMs {
        delayMs := capMs;
      }
      var nextMs;
      if delayMs > TruncDiv(capMs, 2) {
        nextMs := capMs;
      } else {
        nextMs := delayMs * 2;
        assert delayMs >= 0 ==> nextMs <= capMs;
      }
      retryBackoffMs := nextMs;
      refusalStreak := refusalStreak + 1;
      HoldOff(delayMs, nowUs);
    }

    /** The hold StateAbortSuspend leaves behind, and the delay of the idle check it schedules. */
    method HoldAfterAbort(nowUs: int) returns (delayMs: int)
      modifies this`noSuspendBeforeUs
      ensures View() == Apply(cfg, old(View()), Aborted(nowUs))
      ensures cfg.baseMs >= 0 ==> nowUs + delayMs * 1000 <= noSuspendBeforeUs < nowUs + delayMs * 1000 + 1000
      ensures old(Valid()) ==> Valid()
      ensures cfg.baseMs >= 0 && old(noSuspendBeforeUs) >= nowUs + (cfg.baseMs + 1) * 1000 ==>
                noSuspendBeforeUs == old(noSuspendBeforeUs)
      ensures cfg.baseMs >= 0 && old(noSuspendBeforeUs) < nowUs + (cfg.baseMs + 1) * 1000 ==>
                noSuspendBeforeUs == nowUs + cfg.baseMs * 1000
    {
      var holdUs := noSuspendBeforeUs - nowUs;
      delayMs := cfg.baseMs;
      if TruncDiv(holdUs, 1000) > delayMs {
        delayMs := TruncDiv(holdUs, 1000);
      } else {
        HoldOff(delayMs, nowUs);
      }
    }

    /** The hold _stateResume leaves behind: the streak is over, whatever it was. */
    method HoldAfterResume(resetUs: int, nowUs: int)
      modifies this
      ensures View() == Apply(cfg, old(View()), Resumed(nowUs))
      ensures cfg.baseMs >= 0 ==> Valid()
      ensures retryBackoffMs == cfg.baseMs && refusalStreak == 0 && noSuspendBeforeUs == nowUs + cfg.baseMs * 1000
    {
      ResetRetry(resetUs);
      HoldOff(cfg.baseMs, nowUs);
    }

    /** The idle check's gate: wait for the hold, and otherwise come back in the first millisecond after it. */
    method IdleGate(nowUs: int) returns (open: bool, nextIdleMs: int)
      ensures open <==> nowUs >= noSuspendBeforeUs
      ensures open <==> MayTrigger(View(), nowUs)
      ensures open ==> nextIdleMs == 0
      ensures !open ==> noSuspendBeforeUs <= nowUs + nextIdleMs * 1000 < noSuspendBeforeUs + 1000
    {
      if nowUs >= noSuspendBeforeUs {
        return true, 0;
      }
      return false, TruncDiv(noSuspendBeforeUs - nowUs + 999, 1000);
    }
  }

  // ------------------------------------------- resets between single atomic accesses

  /** The atomic accesses to the two counters: three by SuspendRetryBackOff, two by SuspendRetryReset. */
  datatype Access = LoadBackoff | StoreNext | IncrementStreak | ExchangeBase | ZeroStreak

  datatype Counters = Counters(backoffMs: int, streak: nat, loadedMs: int)

  function Touch(cfg: Config, c: Counters, a: Access): Counters {
    match a
    case LoadBackoff => c.(loadedMs := c.backoffMs)
    case StoreNext => c.(backoffMs := Refusal(cfg, c.loadedMs).1)
    case IncrementStreak => c.(streak := c.streak + 1)
    case ExchangeBase => c.(backoffMs := cfg.baseMs)
    case ZeroStreak => c.(streak := 0)
  }

  function TouchAll(cfg: Config, c: Counters, accesses: seq<Access>): Counters
    decreases |accesses|
  {
    if accesses == [] then c else TouchAll(cfg, Touch(cfg, c, accesses[0]), accesses[1..])
  }

  /** Whatever the interleaving, the stored delay stays between the base and the cap. */
  lemma {:induction false} BackoffBoundedUnderInterleaving(cfg: Config, c: Counters, accesses: seq<Access>)
    requires cfg.baseMs >= 0
    requires cfg.baseMs <= c.backoffMs <= Cap(cfg) && cfg.baseMs <= c.loadedMs <= Cap(cfg)
    ensures cfg.baseMs <= TouchAll(cfg, c, accesses).backoffMs <= Cap(cfg)
    decreases |accesses|
  {
    if accesses != [] {
      BackoffBoundedUnderInterleaving(cfg, Touch(cfg, c, accesses[0]), accesses[1..]);
    }
  }

  const BACK_OFF: seq<Access> := [LoadBackoff, StoreNext, IncrementStreak]

  /**
   Every way a reset can come into a back-off: its exchange after the first x
   accesses of the back-off, its zeroing of the streak after the first y.
   */
  function Interleaved(x: nat, y: nat): seq<Access>
    requires x <= y <= 3
  {
    BACK_OFF[..x] + [ExchangeBase] + BACK_OFF[x..y] + [ZeroStreak] + BACK_OFF[y..]
  }

  /** The streak whose delay is left stored, and the streak left beside it. */
  function DelayLeft(x: nat, streak: nat): nat {
    if x == 0 then 1 else if x == 1 then streak + 1 else 0
  }

  function StreakLeft(y: nat): nat {
    if y == 3 then 0 else 1
  }

  lemma {:induction false} TouchAppend(cfg: Config, c: Counters, a: seq<Access>, b: seq<Access>)
    ensures TouchAll(cfg, c, a + b) == TouchAll(cfg, TouchAll(cfg, c, a), b)
    decreases |a|
  {
    if a == [] {
      assert a + b == b;
    } else {
      assert (a + b)[1..] == a[1..] + b;
      TouchAppend(cfg, Touch(cfg, c, a[0]), a[1..], b);
    }
  }

  lemma TouchFive(cfg: Config, c: Counters, a: seq<Access>)
    requires |a| == 5
    ensures TouchAll(cfg, c, a)
            == Touch(cfg, Touch(cfg, Touch(cfg, Touch(cfg, Touch(cfg, c, a[0]), a[1]), a[2]), a[3]), a[4])
  {
    TouchAppend(cfg, c, a[..1], a[1..]);
    assert a == a[..1] + a[1..] && a[1..] == a[1..2] + a[2..];
    assert a[2..] == a[2..3] + a[3..] && a[3..] == a[3..4] + a[4..];
    var c1 := Touch(cfg, c, a[0]);
    var c2 := Touch(cfg, c1, a[1]);
    TouchAppend(cfg, c1, a[1..2], a[2..]);
    TouchAppend(cfg, c2, a[2..3], a[3..]);
    TouchAppend(cfg, Touch(cfg, c2, a[2]), a[3..4], a[4..]);
  }

  lemma InterleavedLeaves(cfg: Config, c: Counters, x: nat, y: nat)
    requires x <= y <= 3 && cfg.baseMs >= 0 && c.backoffMs == Stored(cfg, c.streak)
    ensures var after := TouchAll(cfg, c, Interleaved(x, y));
            after.streak == StreakLeft(y) && after.backoffMs == Stored(cfg, DelayLeft(x, c.streak))
  {
    assert Stored(cfg, 0) == cfg.baseMs by {
      assert cfg.baseMs * Pow2(0) == cfg.baseMs;
    }
    DoublesUpToCap(cfg, 0);
    DoublesUpToCap(cfg, c.streak);
    AccessesLeave(cfg, c, x, y);
  }

  /** The same without the closed form: which delay the store has doubled, if the exchange has not undone it. */
  lemma AccessesLeave(cfg: Config, c: Counters, x: nat, y: nat)
    requires x <= y <= 3
    ensures var after := TouchAll(cfg, c, Interleaved(x, y));
            && after.streak == StreakLeft(y)
            && after.backoffMs == if x == 0 then Refusal(cfg, cfg.baseMs).1
                                  else if x == 1 then Refusal(cfg, c.backoffMs).1
                                  else cfg.baseMs
  {
    TouchFive(cfg, c, Interleaved(x, y));
  }

  /** Two streaks have the same delay exactly when the base is zero or the shorter one has reached the cap. */
  lemma SameDelay(cfg: Config, a: nat, b: nat)
    requires cfg.baseMs >= 0 && a < b
    ensures Stored(cfg, a) == Stored(cfg, b) <==> cfg.baseMs == 0 || cfg.baseMs * Pow2(a) >= Cap(cfg)
  {
    StoredGrows(cfg, a + 1, b);
    StoredInRange(cfg, a);
    StoredInRange(cfg, b);
    PowerStep(cfg.baseMs, a);
    assert cfg.baseMs > 0 ==> cfg.baseMs * Pow2(a) > 0;
  }

  /**
   A reset interleaved with a back-off leaves the closed form exactly when the two are
   ordered alike on both counters - the exchange before the load and the zeroing before
   the increment, or the exchange after the store and the zeroing after the increment -
   or the two delays concerned coincide: the exchange came between the load and the
   store of a first refusal, the base is zero, or both delays are at the cap.
   */
  lemma InterleavedResetExactly(cfg: Config, c: Counters, x: nat, y: nat)
    requires x <= y <= 3 && cfg.baseMs >= 0 && c.backoffMs == Stored(cfg, c.streak)
    ensures var after := TouchAll(cfg, c, Interleaved(x, y));
            after.backoffMs == Stored(cfg, after.streak)
            <==> || (x == 0 && y < 3)
                 || (x >= 2 && y == 3)
                 || (x == 1 && y < 3 && c.streak == 0)
                 || cfg.baseMs == 0
                 || cfg.baseMs * Pow2(Min(DelayLeft(x, c.streak), StreakLeft(y))) >= Cap(cfg)
  {
    InterleavedLeaves(cfg, c, x, y);
    var a, b := DelayLeft(x, c.streak), StreakLeft(y);
    if a < b {
      SameDelay(cfg, a, b);
    } else if b < a {
      SameDelay(cfg, b, a);
    }
  }
}
