/**
 How late a timeout can fire while the machine is awake: the table of
 src/alarms/timeout_alarm.c armed through the timer source of
 src/utils/timersource.c.

 Boot-time and wall clock run fixed amounts ahead of the monotonic one, so no clock is
 ever set, but their seconds change at different moments. Handlers take no time. The
 suspend thread may re-arm the timer, ahead of a suspend, at any moment, without
 waking the main loop from a poll it has already begun.
 */
module Lateness {
  import opened Wrappers
  import opened ReferenceTime
  import opened TimeoutTable
  import TimerSource

  const SECOND_US: int := 1_000_000

  /** A poll returns less than a millisecond after the expiration it was begun for. */
  const POLL_SLACK_US: int := 1000

  /**
   nowUs reads the monotonic clock; the boot-time clock is aheadUs ahead of it and the
   wall clock leadUs ahead of that. dueUs is the expiration of the timer, pollUs what it
   was when the main loop began its poll.
   */
  datatype State = State(nowUs: nat, aheadUs: nat, leadUs: int, offset: int, rows: Rows, dueUs: int, pollUs: int) {
    function BootUs(): nat {
      nowUs + aheadUs
    }

    function WallUs(): int {
      BootUs() + leadUs
    }

    function Reading(): Clocks {
      Clocks(WallUs() / SECOND_US, Some(BootUs() / SECOND_US))
    }

    /** The reference time, which an update sets to the wall second and re-arming takes as it is. */
    function Now(): int {
      BootUs() / SECOND_US + offset
    }

    /** How far past its expiry a row is, by the wall clock. */
    function LatenessUs(r: Row): int {
      WallUs() - r.expiry * SECOND_US
    }

    ghost function Armed(): State {
      this.(dueUs := TimerSource.Expiration(nowUs, TimerSecs(rows, Now()) * 1000, 1000))
    }

    ghost function Refreshed(rows: Rows): State {
      var t := Updated(Table(offset, rows, []), Reading());
      var s := this.(offset := t.offset, rows := t.rows).Armed();
      s.(pollUs := s.dueUs)
    }
  }

  datatype Action =
    | Tick(untilUs: nat)
    | Poll                 // the poll ends with the timer not due, and another begins
    | Fire
    | Set(key: nat, row: Row)
    | Clear(app: string, name: string, publicBus: bool)
    | PreArm               // queue_next_wakeup on the suspend thread

  ghost predicate Enabled(s: State, a: Action) {
    match a
    case Tick(untilUs) => s.nowUs <= untilUs && (untilUs == s.nowUs || untilUs < s.pollUs + POLL_SLACK_US)
    case Poll => s.nowUs < s.dueUs
    case Set(key, row) => key !in s.rows
    case _ => true
  }

  ghost function Do(s: State, a: Action): State {
    match a
    case Tick(untilUs) => s.(nowUs := untilUs)
    case Poll => s.(pollUs := s.dueUs)
    case Fire => s.Refreshed(s.rows)
    case Set(key, row) => s.Refreshed(Without(s.rows, row.app, row.key, row.publicBus)[key := row])
    case Clear(app, name, publicBus) =>
      if Without(s.rows, app, name, publicBus) == s.rows then s
      else s.Refreshed(Without(s.rows, app, name, publicBus))
    case PreArm => s.Armed()
  }

  /** The rows the timer follows: the wakeup rows, and every row while there is no wakeup row. */
  ghost predicate Followed(rows: Rows, k: nat) {
    k in rows && (rows[k].wakeup || forall l :: l in rows ==> !rows[l].wakeup)
  }

  ghost predicate Overdue(s: State) {
    exists k :: Followed(s.rows, k) && s.rows[k].expiry <= s.Now()
  }

  // --------------------------------------------------- what one arming is good for

  /** How far the timer's granularity moves an arming by whole seconds: to the second before or after. */
  function RoundingUs(nowUs: nat): int {
    var phase := nowUs % SECOND_US;
    if phase >= 250_000 then SECOND_US - phase else -phase
  }

  lemma WholeSeconds(nowUs: nat, secs: nat)
    requires secs >= 1
    ensures TimerSource.Expiration(nowUs, secs * 1000, 1000) == nowUs + secs * SECOND_US + RoundingUs(nowUs)
    ensures nowUs < TimerSource.Expiration(nowUs, secs * 1000, 1000)
  {
    assert TimerSource.FlooredMs(secs * 1000) == secs * 1000;
    AddingSeconds(nowUs, secs);
  }

  lemma AddingSeconds(nowUs: nat, secs: nat)
    ensures (nowUs + secs * 1000 * 1000) % SECOND_US == nowUs % SECOND_US
  {
    var q := nowUs / SECOND_US;
    assert nowUs + secs * 1000 * 1000 == (q + secs) * SECOND_US + nowUs % SECOND_US;
  }

  /**
   How late, at worst, re-arming now makes the timer for an expiry that lies the armed
   interval ahead of the reference time: the distance the reference time lags behind the
   wall clock, the rounding and the slack of the poll.
   */
  function WorstUs(s: State): int {
    s.WallUs() - s.Now() * SECOND_US + RoundingUs(s.nowUs) + POLL_SLACK_US - 1
  }

  /** The guard of a re-arm: the interval fits every followed row, overdue or not, within the limit. */
  ghost predicate Safe(s: State, limitUs: int) {
    forall k :: Followed(s.rows, k) ==>
      WorstUs(s) + (TimerSecs(s.rows, s.Now()) + s.Now() - s.rows[k].expiry) * SECOND_US < limitUs
  }

  /** Every row the timer follows is reached by the timer, and by the poll under way, within the limit. */
  ghost predicate InTime(s: State, us: int, limitUs: int) {
    forall k :: Followed(s.rows, k) ==>
      us + POLL_SLACK_US - 1 + s.aheadUs + s.leadUs - s.rows[k].expiry * SECOND_US < limitUs
  }

  lemma ArmedInTimeExactly(s: State, limitUs: int)
    ensures InTime(s.Armed(), s.Armed().dueUs, limitUs) <==> Safe(s, limitUs)
  {
    var secs := TimerSecs(s.rows, s.Now());
    WholeSeconds(s.nowUs, secs);
    assert s.Armed().dueUs == s.nowUs + secs * SECOND_US + RoundingUs(s.nowUs);
    forall k | Followed(s.rows, k)
      ensures s.Armed().dueUs + POLL_SLACK_US - 1 + s.aheadUs + s.leadUs - s.rows[k].expiry * SECOND_US
              == WorstUs(s) + (secs + s.Now() - s.rows[k].expiry) * SECOND_US
    {
    }
  }

  /** The interval never exceeds the time to a followed row that is still to come. */
  lemma FollowsEarliest(rows: Rows, now: int, k: nat)
    requires Followed(rows, k) && rows[k].expiry > now
    ensures TimerSecs(rows, now) <= rows[k].expiry - now
  {
    var e := rows[k].expiry;
    assert e in Expiries(rows, now, false);
    if rows[k].wakeup {
      assert e in Expiries(rows, now, true);
    } else {
      assert forall x :: x !in Expiries(rows, now, true);
      var least := Least(Expiries(rows, now, true));
      assert least.None?;
    }
  }

  /** With nothing overdue that it follows, a re-arm is good for its worst case, however many rows there are. */
  lemma NothingOverdueIsSafe(s: State, limitUs: int)
    requires !Overdue(s) && WorstUs(s) < limitUs
    ensures Safe(s, limitUs)
  {
    forall k | Followed(s.rows, k)
      ensures WorstUs(s) + (TimerSecs(s.rows, s.Now()) + s.Now() - s.rows[k].expiry) * SECOND_US < limitUs
    {
      FollowsEarliest(s.rows, s.Now(), k);
    }
  }

  /** The row the timer is armed for, next and within a week. */
  ghost predicate Next(s: State, k: nat) {
    Followed(s.rows, k) && s.rows[k].expiry - s.Now() == TimerSecs(s.rows, s.Now())
  }

  /** With nothing overdue and the next row within a week, the clocks alone decide. */
  lemma NothingOverdueExactly(s: State, k: nat, limitUs: int)
    requires !Overdue(s) && Next(s, k)
    ensures Safe(s, limitUs) <==> WorstUs(s) < limitUs
  {
    if WorstUs(s) < limitUs {
      NothingOverdueIsSafe(s, limitUs);
    }
  }

  /** While the reference time is not behind the wall second the worst case is under 1.751 seconds. */
  lemma WorstInPhase(s: State)
    ensures s.Now() >= s.WallUs() / SECOND_US ==> WorstUs(s) < 1_751_000
    ensures s.Now() >= s.WallUs() / SECOND_US - 1 ==> WorstUs(s) < 2_751_000
    ensures s.Now() <= s.WallUs() / SECOND_US ==> WorstUs(s) >= -250_000 + POLL_SLACK_US
  {
  }

  /**
   Over an overdue followed row, k being the oldest, what counts is the interval together
   with the seconds the row is overdue. In phase a re-arm keeps two seconds for one second
   exactly when its worst case is under a second, for two exactly when it is negative, and
   for three never; only a reference time that runs ahead can allow for three.
   */
  lemma OverdueExactly(s: State, k: nat)
    requires Followed(s.rows, k) && s.rows[k].expiry <= s.Now()
    requires forall l :: Followed(s.rows, l) ==> s.rows[k].expiry <= s.rows[l].expiry
    requires s.Now() <= s.WallUs() / SECOND_US + 1
    ensures Safe(s, 2 * SECOND_US) <==>
            match TimerSecs(s.rows, s.Now()) + s.Now() - s.rows[k].expiry
            case 1 => WorstUs(s) < SECOND_US
            case 2 => WorstUs(s) < 0
            case 3 => WorstUs(s) < -SECOND_US
            case _ => false
    ensures s.Now() <= s.WallUs() / SECOND_US ==> WorstUs(s) >= -SECOND_US
  {
    WorstInPhase(s);
    var secs := TimerSecs(s.rows, s.Now()) + s.Now() - s.rows[k].expiry;
    assert Safe(s, 2 * SECOND_US) <==> WorstUs(s) + secs * SECOND_US < 2 * SECOND_US;
  }

  // ----------------------------------------------------------------- whole runs

  /** Runs whose re-arms all meet the guard. */
  ghost predicate SafeRuns(s: State, actions: seq<Action>, limitUs: int)
    decreases |actions|
  {
    actions == [] || (&& Enabled(s, actions[0])
                      && (actions[0].PreArm? ==> Safe(s, limitUs))
                      && SafeRuns(Do(s, actions[0]), actions[1..], limitUs))
  }

  ghost function Exec(s: State, actions: seq<Action>): State
    decreases |actions|
  {
    if actions == [] then s else Exec(Do(s, actions[0]), actions[1..])
  }

  /** Timer and poll are in time for every followed row, and the reference time is that of a recent update. */
  ghost predicate Inv(s: State, limitUs: int) {
    && s.nowUs < s.pollUs + POLL_SLACK_US
    && s.WallUs() >= 0
    && InTime(s, s.dueUs, limitUs) && InTime(s, s.pollUs, limitUs)
    && s.leadUs / SECOND_US <= s.offset <= s.leadUs / SECOND_US + 1
  }

  /** An update sets the reference time to the wall second, whatever it was, and leaves nothing due. */
  lemma UpdateSetsReference(s: State, rows: Rows)
    requires s.WallUs() >= 0
    ensures var t := Updated(Table(s.offset, rows, []), s.Reading());
            && t.offset == s.WallUs() / SECOND_US - s.BootUs() / SECOND_US
            && forall k :: k in t.rows ==> t.rows[k].expiry > s.WallUs() / SECOND_US
  {
  }

  lemma PhasesDiffer(bootUs: nat, leadUs: int)
    ensures leadUs / SECOND_US <= (bootUs + leadUs) / SECOND_US - bootUs / SECOND_US <= leadUs / SECOND_US + 1
  {
  }

  lemma RefreshIsInTime(s: State, rows: Rows, limitUs: int)
    requires s.WallUs() >= 0 && limitUs >= 1_751_000
    ensures Inv(s.Refreshed(rows), limitUs)
  {
    var t := Updated(Table(s.offset, rows, []), s.Reading());
    var u := s.(offset := t.offset, rows := t.rows);
    UpdateSetsReference(s, rows);
    PhasesDiffer(s.BootUs(), s.leadUs);
    assert u.Now() == u.WallUs() / SECOND_US && !Overdue(u);
    WorstInPhase(u);
    NothingOverdueIsSafe(u, limitUs);
    ArmedInTimeExactly(u, limitUs);
    WholeSeconds(u.nowUs, TimerSecs(u.rows, u.Now()));
  }

  lemma StepKeepsInv(s: State, a: Action, limitUs: int)
    requires Inv(s, limitUs) && Enabled(s, a) && limitUs >= 1_751_000
    ensures a.PreArm? || Inv(Do(s, a), limitUs)
    ensures a.PreArm? ==> (Inv(Do(s, a), limitUs) <==> Safe(s, limitUs))
  {
    match a {
      case Tick(_) =>
      case Poll =>
      case PreArm => ArmedInTimeExactly(s, limitUs);
      case Fire => RefreshIsInTime(s, s.rows, limitUs);
      case Set(key, row) =>
        RefreshIsInTime(s, Without(s.rows, row.app, row.key, row.publicBus)[key := row], limitUs);
      case Clear(app, name, publicBus) => RefreshIsInTime(s, Without(s.rows, app, name, publicBus), limitUs);
    }
  }

  lemma {:induction false} InvHolds(s: State, actions: seq<Action>, limitUs: int)
    requires Inv(s, limitUs) && SafeRuns(s, actions, limitUs) && limitUs >= 1_751_000
    ensures Inv(Exec(s, actions), limitUs)
    decreases |actions|
  {
    if actions != [] {
      StepKeepsInv(s, actions[0], limitUs);
      InvHolds(Do(s, actions[0]), actions[1..], limitUs);
    }
  }

  /**
   At every phase of the clocks, however the timer rounds and however far ahead the
   expiries are: for any limit from 1.751 seconds on, and so for two seconds, no row the
   timer follows is ever that late, in runs whose re-arms meet the guard for it.
   */
  lemma FiredInTime(s: State, actions: seq<Action>, limitUs: int)
    requires Inv(s, limitUs) && SafeRuns(s, actions, limitUs) && limitUs >= 1_751_000
    ensures var after := Exec(s, actions);
            forall k :: k in after.rows
                        && (after.rows[k].wakeup || forall l :: l in after.rows ==> !after.rows[l].wakeup) ==>
              after.nowUs + after.aheadUs + after.leadUs - after.rows[k].expiry * 1_000_000 < limitUs
  {
    InvHolds(s, actions, limitUs);
    var after := Exec(s, actions);
    assert forall k :: Followed(after.rows, k)
             <==> k in after.rows && (after.rows[k].wakeup || forall l :: l in after.rows ==> !after.rows[l].wakeup);
  }

  /** The updates of a run that take a step of minus one second for a failed reading. */
  ghost function MinusOne(s: State, a: Action): nat {
    match a
    case Fire => Lost(s.offset, s.Reading())
    case Set(_, _) => Lost(s.offset, s.Reading())
    case Clear(app, name, publicBus) =>
      if Without(s.rows, app, name, publicBus) == s.rows then 0 else Lost(s.offset, s.Reading())
    case _ => 0
  }

  ghost function MinusOnes(s: State, actions: seq<Action>): nat
    decreases |actions|
  {
    if actions == [] then 0 else MinusOne(s, actions[0]) + MinusOnes(Do(s, actions[0]), actions[1..])
  }

  predicate Inserts(a: Action, k: nat) {
    a.Set? && a.key == k
  }

  lemma StepMovesRow(s: State, a: Action, k: nat)
    requires k in Do(s, a).rows && !Inserts(a, k)
    ensures k in s.rows && SameRow(s.rows[k], s.offset, Do(s, a).rows[k], Do(s, a).offset, MinusOne(s, a))
  {
    match a {
      case Fire => UpdateMovesRow(Table(s.offset, s.rows, []), s.Reading(), k);
      case Set(key, row) =>
        var rows := Without(s.rows, row.app, row.key, row.publicBus)[key := row];
        UpdateMovesRow(Table(s.offset, rows, []), s.Reading(), k);
      case Clear(app, name, publicBus) =>
        if Without(s.rows, app, name, publicBus) != s.rows {
          UpdateMovesRow(Table(s.offset, Without(s.rows, app, name, publicBus), []), s.Reading(), k);
        }
      case _ =>
    }
  }

  lemma {:induction false} RunMovesRow(s: State, actions: seq<Action>, k: nat)
    requires k in Exec(s, actions).rows && forall a :: a in actions ==> !Inserts(a, k)
    ensures k in s.rows
    ensures SameRow(s.rows[k], s.offset, Exec(s, actions).rows[k], Exec(s, actions).offset, MinusOnes(s, actions))
    decreases |actions|
  {
    if actions != [] {
      assert actions[0] in actions;
      RunMovesRow(Do(s, actions[0]), actions[1..], k);
      StepMovesRow(s, actions[0], k);
    }
  }

  /**
   Measured against the instant of the boot clock that a relative row was set for, it can
   be later than that: by a second for each step of minus one since then, and by less than
   one for the phase of the clocks.
   */
  lemma RelativeFiredInTime(s: State, actions: seq<Action>, k: nat, limitUs: int)
    requires Inv(s, limitUs) && SafeRuns(s, actions, limitUs) && limitUs >= 1_751_000
    requires Followed(Exec(s, actions).rows, k) && forall a :: a in actions ==> !Inserts(a, k)
    ensures k in s.rows
    ensures !s.rows[k].calendar ==>
              Exec(s, actions).BootUs() - (s.rows[k].expiry - s.offset) * SECOND_US
              < limitUs + (MinusOnes(s, actions) + 1) * SECOND_US
  {
    InvHolds(s, actions, limitUs);
    RunMovesRow(s, actions, k);
  }

  ghost predicate NoPreArm(s: State, actions: seq<Action>)
    decreases |actions|
  {
    actions == [] || (Enabled(s, actions[0]) && !actions[0].PreArm? && NoPreArm(Do(s, actions[0]), actions[1..]))
  }

  /** Without re-arms from the suspend thread no phase of the clocks makes a followed row 1.751 seconds late. */
  lemma {:induction false} NoPreArmIsSafe(s: State, actions: seq<Action>, limitUs: int)
    requires NoPreArm(s, actions)
    ensures SafeRuns(s, actions, limitUs)
    decreases |actions|
  {
    if actions != [] {
      NoPreArmIsSafe(Do(s, actions[0]), actions[1..], limitUs);
    }
  }

  /** Runs that re-arm only while no followed row is overdue by the reference time. */
  ghost predicate OrderlyRuns(s: State, actions: seq<Action>)
    decreases |actions|
  {
    actions == [] || (&& Enabled(s, actions[0])
                      && (actions[0].PreArm? ==> !Overdue(s))
                      && OrderlyRuns(Do(s, actions[0]), actions[1..]))
  }

  /** In these the reference time, at most a second behind, costs at most another second. */
  lemma {:induction false} OrderlyIsSafe(s: State, actions: seq<Action>)
    requires Inv(s, 2_751_000) && OrderlyRuns(s, actions)
    ensures SafeRuns(s, actions, 2_751_000)
    decreases |actions|
  {
    if actions != [] {
      if actions[0].PreArm? {
        PhasesDiffer(s.BootUs(), s.leadUs);
        WorstInPhase(s);
        NothingOverdueIsSafe(s, 2_751_000);
      }
      StepKeepsInv(s, actions[0], 2_751_000);
      OrderlyIsSafe(Do(s, actions[0]), actions[1..]);
    }
  }

  lemma OrderlyFiredInTime(s: State, actions: seq<Action>)
    requires Inv(s, 2_751_000) && OrderlyRuns(s, actions)
    ensures var after := Exec(s, actions);
            forall k :: Followed(after.rows, k) ==> after.LatenessUs(after.rows[k]) < 2_751_000
  {
    OrderlyIsSafe(s, actions);
    FiredInTime(s, actions, 2_751_000);
  }

  /** Waiting for the timer as it is armed now: the main loop polls for it, and the poll takes its time. */
  ghost function Waited(s: State, untilUs: nat): State {
    Do(Do(s, Poll), Tick(untilUs))
  }

  /**
   For any row, whether the timer follows it or not, and whatever has been armed before: it
   stays within the limit until the timer as re-armed now fires exactly when the interval
   fits it.
   */
  lemma AnyRowExactly(s: State, k: nat, limitUs: int)
    requires k in s.rows
    ensures (forall untilUs: nat | Enabled(Do(s.Armed(), Poll), Tick(untilUs)) ::
               Waited(s.Armed(), untilUs).LatenessUs(s.rows[k]) < limitUs)
            <==> WorstUs(s) + (TimerSecs(s.rows, s.Now()) + s.Now() - s.rows[k].expiry) * SECOND_US < limitUs
  {
    var armed := s.Armed();
    WholeSeconds(s.nowUs, TimerSecs(s.rows, s.Now()));
    var last := armed.dueUs + POLL_SLACK_US - 1;
    assert Enabled(Do(armed, Poll), Tick(last));
    assert Waited(armed, last).LatenessUs(s.rows[k])
        == WorstUs(s) + (TimerSecs(s.rows, s.Now()) + s.Now() - s.rows[k].expiry) * SECOND_US;
    forall untilUs: nat | Enabled(Do(armed, Poll), Tick(untilUs))
      ensures Waited(armed, untilUs).LatenessUs(s.rows[k]) <= Waited(armed, last).LatenessUs(s.rows[k])
    {
    }
  }

  /**
   The guard is exact. A re-arm that meets it leaves every followed row in time until
   the timer fires; after one that does not, the poll may return when a followed row is
   the limit late, or later, and has still not fired.
   */
  lemma ReArmExactly(s: State, limitUs: int)
    ensures var armed := Do(s, PreArm);
            && Enabled(armed, Poll)
            && (Safe(s, limitUs) <==>
                forall k | Followed(s.rows, k) ::
                  forall untilUs: nat | Enabled(Do(armed, Poll), Tick(untilUs)) ::
                    Waited(armed, untilUs).LatenessUs(s.rows[k]) < limitUs)
  {
    WholeSeconds(s.nowUs, TimerSecs(s.rows, s.Now()));
    forall k | Followed(s.rows, k)
      ensures (forall untilUs: nat | Enabled(Do(s.Armed(), Poll), Tick(untilUs)) ::
                 Waited(s.Armed(), untilUs).LatenessUs(s.rows[k]) < limitUs)
              <==> WorstUs(s) + (TimerSecs(s.rows, s.Now()) + s.Now() - s.rows[k].expiry) * SECOND_US < limitUs
    {
      AnyRowExactly(s, k, limitUs);
    }
  }

  /** Start-up updates and arms the timer, so runs may begin at any table and any offset. */
  lemma StartsInTime(s: State)
    requires s.WallUs() >= 0
    ensures Inv(s.Refreshed(s.rows), 1_751_000)
  {
    RefreshIsInTime(s, s.rows, 1_751_000);
  }

  /**
   None of this holds because time stood still: in every reachable state the main loop
   can go on, and after at most one step of it time passes.
   */
  lemma TimeGoesOn(s: State)
    requires s.WallUs() >= 0 && s.nowUs < s.pollUs + POLL_SLACK_US
    ensures var t := if s.dueUs <= s.nowUs then Do(s, Fire) else Do(s, Poll);
            && (s.dueUs <= s.nowUs || Enabled(s, Poll))
            && t.nowUs == s.nowUs && Enabled(t, Tick(s.nowUs + 1))
  {
    if s.dueUs <= s.nowUs {
      RefreshIsInTime(s, s.rows, 1_751_000);
      var t := Updated(Table(s.offset, s.rows, []), s.Reading());
      var u := s.(offset := t.offset, rows := t.rows);
      WholeSeconds(u.nowUs, TimerSecs(u.rows, u.Now()));
    }
  }

  // -------------------------------------------------------------------- examples

  function Example(wakeup: bool, expiry: int): Row {
    Row("app", if expiry == 1 then "first" else "second", false, wakeup, true, expiry, Call("", "", "", 0))
  }

  /** From a whole second the timer is due on the second the earliest wakeup row expires. */
  lemma ArmedFor(s: State, k: nat)
    requires s.nowUs % SECOND_US == 0 && s.aheadUs == 0 && s.offset == 0
    requires k in s.rows && s.rows[k].wakeup && 1 <= s.rows[k].expiry - s.Now() <= MAX_WAKEUP_SECS
    requires forall l :: l in s.rows && s.rows[l].wakeup && s.rows[l].expiry > s.Now() ==>
               s.rows[k].expiry <= s.rows[l].expiry
    ensures s.Armed().dueUs == s.rows[k].expiry * SECOND_US
  {
    var e := s.rows[k].expiry;
    assert e in Expiries(s.rows, s.Now(), true);
    LeastIsUnique(Some(e), Expiries(s.rows, s.Now(), true));
    WholeSeconds(s.nowUs, e - s.Now());
  }

  /**
   Re-arming ahead of a suspend looks only at rows still to come. When the machine then
   does not go down, a wakeup row that had come due, but had not fired yet, waits for
   the next one: for any time up to a week.
   */
  lemma PreArmForgetsOverdueRow(lateSecs: int)
    requires 1 <= lateSecs < MAX_WAKEUP_SECS
    ensures var rows := map[0 := Example(true, 1), 1 := Example(true, lateSecs + 1)];
            var s := State(0, 0, 0, 0, rows, SECOND_US, SECOND_US);
            var armed := Do(Do(s, Tick(SECOND_US)), PreArm);
            var late := Waited(armed, (lateSecs + 1) * SECOND_US);
            && s == s.Refreshed(rows) && Enabled(s, Tick(SECOND_US))
            && Enabled(armed, Poll) && Enabled(Do(armed, Poll), Tick((lateSecs + 1) * SECOND_US))
            && 0 in late.rows && late.LatenessUs(late.rows[0]) == lateSecs * SECOND_US
  {
    var rows: Rows := map[0 := Example(true, 1), 1 := Example(true, lateSecs + 1)];
    var s := State(0, 0, 0, 0, rows, SECOND_US, SECOND_US);
    FirstRowArmed(s, lateSecs);
    LaterRowArmed(Do(s, Tick(SECOND_US)), lateSecs);
  }

  lemma FirstRowArmed(s: State, lateSecs: int)
    requires 1 <= lateSecs < MAX_WAKEUP_SECS
    requires s == State(0, 0, 0, 0, s.rows, SECOND_US, SECOND_US)
    requires s.rows == map[0 := Example(true, 1), 1 := Example(true, lateSecs + 1)]
    ensures s.Refreshed(s.rows) == s
  {
    ArmedFor(s, 0);
    NothingToUpdate(s);
  }

  /** A second on, the first row is due and the timer is armed for the other. */
  lemma LaterRowArmed(s: State, lateSecs: int)
    requires 1 <= lateSecs < MAX_WAKEUP_SECS
    requires s == State(SECOND_US, 0, 0, 0, s.rows, SECOND_US, SECOND_US)
    requires s.rows == map[0 := Example(true, 1), 1 := Example(true, lateSecs + 1)]
    ensures s.Armed() == s.(dueUs := (lateSecs + 1) * SECOND_US)
  {
    ArmedFor(s, 1);
  }

  /** With the clocks in phase and nothing due an update only arms the timer. */
  lemma NothingToUpdate(s: State)
    requires s.aheadUs == s.leadUs == s.offset == 0 && s.pollUs == s.Armed().dueUs
    requires forall k :: k in s.rows ==> s.rows[k].expiry > s.Now()
    ensures s.Refreshed(s.rows) == s.Armed()
  {
    assert Updated(Table(0, s.rows, []), s.Reading()) == Table(0, s.rows, []);
  }

  /**
   With nothing overdue, too, a re-arm can break two seconds, when the wall clock has
   turned to another second than the boot-time clock since the last update.
   */
  lemma LaggingReArmIsLate()
    ensures var rows := map[0 := Example(true, 12)];
            var s := State(1_400_000, 650_000, 900_000, 0, rows, 12 * SECOND_US, 12 * SECOND_US);
            var t := Do(s, Tick(2_250_000));
            && s == s.Refreshed(rows) && Inv(s, 1_751_000) && Enabled(s, Tick(2_250_000))
            && !Overdue(t) && WorstUs(t) == 2_550_999 && !Safe(t, 2 * SECOND_US)
  {
    var rows: Rows := map[0 := Example(true, 12)];
    var s := State(1_400_000, 650_000, 900_000, 0, rows, 12 * SECOND_US, 12 * SECOND_US);
    RefreshedAsIs(s);
    RefreshIsInTime(s, rows, 1_751_000);
    var t := Do(s, Tick(2_250_000));
    SoleRowIsNext(t);
    NothingOverdueExactly(t, 0, 2 * SECOND_US);
  }

  lemma SoleRowIsNext(s: State)
    requires s.rows == map[0 := Example(true, 12)] && s.Now() == 2
    ensures Next(s, 0) && !Overdue(s)
  {
    assert 12 in Expiries(s.rows, 2, true);
    LeastIsUnique(Some(12), Expiries(s.rows, 2, true));
  }

  lemma RefreshedAsIs(s: State)
    requires s.rows == map[0 := Example(true, 12)]
    requires s == State(1_400_000, 650_000, 900_000, 0, s.rows, 12 * SECOND_US, 12 * SECOND_US)
    ensures s == s.Refreshed(s.rows)
  {
    assert Updated(Table(0, s.rows, []), s.Reading()) == Table(0, s.rows, []);
    SoleRowIsNext(s);
    WholeSeconds(s.nowUs, 10);
  }

  /** A pending wakeup row takes the timer from every other row: these may be late by any time up to a week. */
  lemma OtherRowsWait(lateSecs: int)
    requires 1 <= lateSecs < MAX_WAKEUP_SECS
    ensures var rows := map[0 := Example(false, 1), 1 := Example(true, lateSecs + 1)];
            var due := (lateSecs + 1) * SECOND_US;
            var s := State(0, 0, 0, 0, rows, due, due);
            var late := Do(s, Tick(due));
            && s == s.Refreshed(rows) && Enabled(s, Tick(due))
            && 0 in late.rows && late.LatenessUs(late.rows[0]) == lateSecs * SECOND_US
  {
    var rows: Rows := map[0 := Example(false, 1), 1 := Example(true, lateSecs + 1)];
    var due := (lateSecs + 1) * SECOND_US;
    var s := State(0, 0, 0, 0, rows, due, due);
    ArmedFor(s, 1);
    NothingToUpdate(s);
  }
}
