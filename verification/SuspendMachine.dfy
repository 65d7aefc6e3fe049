/**
 The suspend state machine of src/pwrevents/suspend.c.

 Whatever another thread, the clients or the kernel decide during a pass is an
 `Env` chosen in advance; every state is visited at most once per pass, so
 quantifying over it covers every behaviour of the environment. `PassTrace` is
 the closed form of what a pass broadcasts and attempts, `Machine` the
 original's table of state functions proved against it.
 */
module SuspendMachine {

  datatype PowerState =
    | On | OnIdle | SuspendRequest | PrepareSuspend | Sleep
    | KernelResume | ActivityResume | AbortSuspend | Last

  datatype PowerEvent = NoEvent | ForceSuspend | IdleEvent

  datatype ResumeType = ByKernel | ByActivity | ByAbort

  datatype Outcome = Approved | TimedOut | Refused

  /** What one voting round finds: approval before waiting, a timeout, approval at the end. */
  datatype Votes = Votes(approvedAtOnce: bool, timesOut: bool, approvedAfter: bool) {
    function Result(): Outcome {
      if !approvedAtOnce && timesOut then Outcome.TimedOut
      else if approvedAfter then Approved
      else Refused
    }
  }

  datatype Env = Env(
    canSleepWhenIdle: bool,   // MachineCanSleep in OnIdle
    request: Votes,
    prepare: Votes,
    refusalStreak: nat,
    activitiesClear: bool,    // no unexpired activity when StateSleep looks
    canSleepNow: bool,        // MachineCanSleep in StateSleep
    inhibited: bool,          // the shutdown flag
    armed: bool,              // queue_next_wakeup
    goesDown: bool)           // what MachineSleep returns

  datatype Entry =
    | SuspendRequestSent
    | RequestRound(outcome: Outcome)
    | PrepareSuspendSent
    | PrepareRound(outcome: Outcome)
    | SuspendedSent
    | MachineSlept(wentDown: bool, frozen: bool)
    | BackedOff
    | ResumeSent(kind: ResumeType)

  // ------------------------------------------------------------ closed form

  predicate Asks(trigger: PowerEvent, env: Env) {
    trigger.ForceSuspend? || (trigger.IdleEvent? && env.canSleepWhenIdle)
  }

  predicate Prepares(trigger: PowerEvent, env: Env) {
    Asks(trigger, env) && !env.request.Result().Refused?
  }

  predicate Tries(trigger: PowerEvent, env: Env) {
    Prepares(trigger, env) && !env.prepare.Result().Refused?
  }

  /** A forced pass overrides the charger and the activities, nothing else. */
  predicate Attempts(trigger: PowerEvent, env: Env) {
    && Tries(trigger, env)
    && (trigger.ForceSuspend? || (env.activitiesClear && env.canSleepNow))
    && !env.inhibited && env.armed
  }

  function Resumes(trigger: PowerEvent, env: Env): ResumeType {
    if Attempts(trigger, env) && env.goesDown then ByKernel
    else if Tries(trigger, env) && !trigger.ForceSuspend? && !env.activitiesClear then ByActivity
    else ByAbort
  }

  function Attempt(wakelocks: bool, trigger: PowerEvent, env: Env): seq<Entry> {
    if !Attempts(trigger, env) then []
    else [MachineSlept(env.goesDown, !wakelocks && !trigger.ForceSuspend?)] + if env.goesDown then [] else [BackedOff]
  }

  function FirstRound(env: Env): seq<Entry> {
    [SuspendRequestSent, RequestRound(env.request.Result())]
  }

  function SecondRound(env: Env): seq<Entry> {
    [PrepareSuspendSent, PrepareRound(env.prepare.Result())]
  }

  /** Everything a pass does up to its resume. */
  function BeforeResume(wakelocks: bool, trigger: PowerEvent, env: Env): seq<Entry> {
    (if Asks(trigger, env) then FirstRound(env) else [])
    + (if Prepares(trigger, env) then SecondRound(env) else [])
    + (if Tries(trigger, env) && env.refusalStreak == 0 then [SuspendedSent] else [])
    + Attempt(wakelocks, trigger, env)
  }

  function PassTrace(wakelocks: bool, trigger: PowerEvent, env: Env): seq<Entry> {
    BeforeResume(wakelocks, trigger, env)
    + if Prepares(trigger, env) then [ResumeSent(Resumes(trigger, env))] else []
  }

  // --------------------------------------- what listeners can rely on, over whole runs

  /** Only these come between a prepareSuspend and its resume. */
  predicate InsideCycle(e: Entry) {
    e.PrepareRound? || e.SuspendedSent? || e.MachineSlept? || e.BackedOff?
  }

  /** Nothing else, at most one attempt, and a kernel resume exactly when the kernel went down. */
  ghost predicate CycleBody(body: seq<Entry>, kind: ResumeType) {
    && (forall k :: 0 <= k < |body| ==> InsideCycle(body[k]))
    && (forall k, l :: 0 <= k < l < |body| && body[k].MachineSlept? ==> !body[l].MachineSlept?)
    && (kind.ByKernel? <==> exists k :: 0 <= k < |body| && body[k].MachineSlept? && body[k].wentDown)
  }

  /** The prepareSuspend at i is answered by the resume at j. */
  ghost predicate Answers(t: seq<Entry>, i: int, j: int) {
    && 0 <= i < j < |t| && t[i].PrepareSuspendSent? && t[j].ResumeSent?
    && CycleBody(t[i + 1..j], t[j].kind)
  }

  /** Every prepareSuspend has its resume and every resume its prepareSuspend. */
  ghost predicate Matched(t: seq<Entry>) {
    && (forall i :: 0 <= i < |t| && t[i].PrepareSuspendSent? ==> Answered(t, i))
    && (forall j :: 0 <= j < |t| && t[j].ResumeSent? ==> Answering(t, j))
  }

  ghost predicate Answered(t: seq<Entry>, i: int) {
    exists j :: Answers(t, i, j)
  }

  ghost predicate Answering(t: seq<Entry>, j: int) {
    exists i :: Answers(t, i, j)
  }

  /** The attempt at k directly follows two rounds that each ended in approval or in a timeout. */
  ghost predicate Justified(t: seq<Entry>, k: int) {
    0 <= k < |t| && var last := if k > 0 && t[k - 1].SuspendedSent? then k - 1 else k;
    && last >= 4
    && t[last - 4].SuspendRequestSent?
    && t[last - 3].RequestRound? && !t[last - 3].outcome.Refused?
    && t[last - 2].PrepareSuspendSent?
    && t[last - 1].PrepareRound? && !t[last - 1].outcome.Refused?
  }

  ghost predicate AttemptsJustified(t: seq<Entry>) {
    forall k :: 0 <= k < |t| && t[k].MachineSlept? ==> Justified(t, k)
  }

  /** What follows prepareSuspend in a pass, up to the resume. */
  function Body(wakelocks: bool, trigger: PowerEvent, env: Env): seq<Entry> {
    [PrepareRound(env.prepare.Result())]
    + (if Tries(trigger, env) && env.refusalStreak == 0 then [SuspendedSent] else [])
    + Attempt(wakelocks, trigger, env)
  }

  lemma BodyIsCycle(wakelocks: bool, trigger: PowerEvent, env: Env)
    ensures CycleBody(Body(wakelocks, trigger, env), Resumes(trigger, env))
  {
    var body := Body(wakelocks, trigger, env);
    if Attempts(trigger, env) && env.goesDown {
      assert body[|body| - 1] == MachineSlept(true, !wakelocks && !trigger.ForceSuspend?);
    }
  }

  lemma PassIsMatched(wakelocks: bool, trigger: PowerEvent, env: Env)
    ensures Matched(PassTrace(wakelocks, trigger, env))
  {
    if Prepares(trigger, env) {
      var body := Body(wakelocks, trigger, env);
      BodyIsCycle(wakelocks, trigger, env);
      CycleIsMatched(FirstRound(env), body, Resumes(trigger, env));
      assert PassTrace(wakelocks, trigger, env)
          == FirstRound(env) + [PrepareSuspendSent] + body + [ResumeSent(Resumes(trigger, env))];
    }
  }

  lemma CycleIsMatched(first: seq<Entry>, body: seq<Entry>, kind: ResumeType)
    requires forall e :: e in first ==> !e.PrepareSuspendSent? && !e.ResumeSent?
    requires CycleBody(body, kind)
    ensures Matched(first + [PrepareSuspendSent] + body + [ResumeSent(kind)])
  {
    var t := first + [PrepareSuspendSent] + body + [ResumeSent(kind)];
    var i, j := |first|, |t| - 1;
    assert t[i + 1..j] == body;
    assert Answers(t, i, j);
    forall k | 0 <= k < |t| && k != i && k != j ensures !t[k].PrepareSuspendSent? && !t[k].ResumeSent? {
      if k > i {
        assert t[k] == body[k - i - 1];
      }
    }
  }

  lemma PassIsJustified(wakelocks: bool, trigger: PowerEvent, env: Env)
    ensures AttemptsJustified(PassTrace(wakelocks, trigger, env))
  {
  }

  /** A round times out when none approved at once and the wait ran out; a timeout or approval lets the pass through. */
  lemma RoundSays(v: Votes)
    ensures v.Result().TimedOut? <==> !v.approvedAtOnce && v.timesOut
    ensures !v.Result().Refused? <==> (!v.approvedAtOnce && v.timesOut) || v.approvedAfter
  {
  }

  /**
   What the rounds find decides how far a pass gets: suspendRequest goes out when the
   trigger is forced or the machine may sleep, prepareSuspend when the first round then
   timed out or approved, and from there one resume is certain.
   */
  lemma SignalsExactlyWhen(wakelocks: bool, trigger: PowerEvent, env: Env)
    ensures var t := PassTrace(wakelocks, trigger, env);
            var asked := trigger.ForceSuspend? || (trigger.IdleEvent? && env.canSleepWhenIdle);
            var through := (!env.request.approvedAtOnce && env.request.timesOut) || env.request.approvedAfter;
            && (SuspendRequestSent in t <==> asked)
            && (PrepareSuspendSent in t <==> asked && through)
            && ((exists kind :: ResumeSent(kind) in t) <==> asked && through)
  {
    var t := PassTrace(wakelocks, trigger, env);
    if Asks(trigger, env) {
      assert t[0] == SuspendRequestSent;
    }
    if Prepares(trigger, env) {
      assert t[2] == PrepareSuspendSent;
      assert t[|t| - 1] == ResumeSent(Resumes(trigger, env));
    }
  }

  /** Each round that is held ends as its votes say. */
  lemma RoundsEndAs(wakelocks: bool, trigger: PowerEvent, env: Env, o: Outcome)
    ensures var t := PassTrace(wakelocks, trigger, env);
            && (RequestRound(o) in t <==> SuspendRequestSent in t && EndsAs(env.request, o))
            && (PrepareRound(o) in t <==> PrepareSuspendSent in t && EndsAs(env.prepare, o))
  {
    var t := PassTrace(wakelocks, trigger, env);
    if Asks(trigger, env) {
      assert t[0] == SuspendRequestSent && t[1] == RequestRound(env.request.Result());
    }
    if Prepares(trigger, env) {
      assert t[2] == PrepareSuspendSent && t[3] == PrepareRound(env.prepare.Result());
    }
  }

  predicate EndsAs(v: Votes, o: Outcome) {
    match o
    case TimedOut => !v.approvedAtOnce && v.timesOut
    case Approved => v.approvedAfter && (v.approvedAtOnce || !v.timesOut)
    case Refused => !v.approvedAfter && (v.approvedAtOnce || !v.timesOut)
  }

  /** The pass reaches StateSleep: it was asked for, and each round timed out or approved. */
  predicate ReachesSleep(trigger: PowerEvent, env: Env) {
    && (trigger.ForceSuspend? || (trigger.IdleEvent? && env.canSleepWhenIdle))
    && ((!env.request.approvedAtOnce && env.request.timesOut) || env.request.approvedAfter)
    && ((!env.prepare.approvedAtOnce && env.prepare.timesOut) || env.prepare.approvedAfter)
  }

  /**
   The kernel is asked exactly when both rounds let the pass through, no shutdown has
   begun, the wakeup alarm is armed, and the trigger was forced or nothing was running
   and the charger was off; activities are frozen over it exactly in an unforced pass
   without wakelocks. A refusal, and nothing else, backs off.
   */
  lemma SleepsExactlyWhen(wakelocks: bool, trigger: PowerEvent, env: Env, wentDown: bool, frozen: bool)
    ensures var t := PassTrace(wakelocks, trigger, env);
            var asked := && ReachesSleep(trigger, env) && !env.inhibited && env.armed
                         && (trigger.ForceSuspend? || (env.activitiesClear && env.canSleepNow));
            && (MachineSlept(wentDown, frozen) in t <==>
                  asked && wentDown == env.goesDown && frozen == (!wakelocks && !trigger.ForceSuspend?))
            && (BackedOff in t <==> asked && !env.goesDown)
  {
    var attempt := Attempt(wakelocks, trigger, env);
    if Attempts(trigger, env) {
      var t := PassTrace(wakelocks, trigger, env);
      TriedTrace(wakelocks, trigger, env, []);
      var at := |BeforeResume(wakelocks, trigger, env)| - |attempt|;
      assert t[at] == attempt[0];
      assert !env.goesDown ==> t[at + 1] == BackedOff;
    }
  }

  /**
   "suspended" goes out in StateSleep unless the last attempt was refused. The resume
   says kernel when the kernel went down, activity when an unforced pass found one in
   StateSleep, and abort in every other case.
   */
  lemma SaysExactlyWhy(wakelocks: bool, trigger: PowerEvent, env: Env, kind: ResumeType)
    ensures var t := PassTrace(wakelocks, trigger, env);
            && (SuspendedSent in t <==> ReachesSleep(trigger, env) && env.refusalStreak == 0)
            && (ResumeSent(kind) in t ==>
                  match kind
                  case ByKernel => exists frozen :: MachineSlept(true, frozen) in t
                  case ByActivity => ReachesSleep(trigger, env) && !trigger.ForceSuspend? && !env.activitiesClear
                  case ByAbort => && (forall frozen :: MachineSlept(true, frozen) !in t)
                                  && (ReachesSleep(trigger, env) ==> trigger.ForceSuspend? || env.activitiesClear))
  {
    var t := PassTrace(wakelocks, trigger, env);
    if Tries(trigger, env) {
      TriedTrace(wakelocks, trigger, env, []);
      assert env.refusalStreak == 0 ==> t[4] == SuspendedSent;
    }
    SleepsExactlyWhen(wakelocks, trigger, env, true, true);
    SleepsExactlyWhen(wakelocks, trigger, env, true, false);
  }

  lemma AnswersInRun(run: seq<Entry>, pass: seq<Entry>, i: int, j: int)
    requires Answers(run, i, j)
    ensures Answers(run + pass, i, j)
  {
    assert (run + pass)[i + 1..j] == run[i + 1..j];
  }

  lemma AnswersInPass(run: seq<Entry>, pass: seq<Entry>, i: int, j: int)
    requires Answers(pass, i, j)
    ensures Answers(run + pass, i + |run|, j + |run|)
  {
    assert (run + pass)[i + |run| + 1..j + |run|] == pass[i + 1..j];
  }

  lemma AnsweredLater(run: seq<Entry>, pass: seq<Entry>, i: int)
    requires if i < |run| then Answered(run, i) else Answered(pass, i - |run|)
    ensures Answered(run + pass, i)
  {
    if i < |run| {
      var j :| Answers(run, i, j);
      AnswersInRun(run, pass, i, j);
    } else {
      var j :| Answers(pass, i - |run|, j);
      AnswersInPass(run, pass, i - |run|, j);
    }
  }

  lemma AnsweringLater(run: seq<Entry>, pass: seq<Entry>, j: int)
    requires if j < |run| then Answering(run, j) else Answering(pass, j - |run|)
    ensures Answering(run + pass, j)
  {
    if j < |run| {
      var i :| Answers(run, i, j);
      AnswersInRun(run, pass, i, j);
    } else {
      var i :| Answers(pass, i, j - |run|);
      AnswersInPass(run, pass, i, j - |run|);
    }
  }

  /** One pass after another: matching and justification survive concatenation, so they hold of whole runs. */
  lemma RunsStayMatched(run: seq<Entry>, pass: seq<Entry>)
    requires Matched(run) && Matched(pass)
    ensures Matched(run + pass)
  {
    var t := run + pass;
    forall i | 0 <= i < |t| && t[i].PrepareSuspendSent? ensures Answered(t, i) {
      AnsweredLater(run, pass, i);
    }
    forall j | 0 <= j < |t| && t[j].ResumeSent? ensures Answering(t, j) {
      AnsweringLater(run, pass, j);
    }
  }

  lemma RunsStayJustified(run: seq<Entry>, pass: seq<Entry>)
    requires AttemptsJustified(run) && AttemptsJustified(pass)
    ensures AttemptsJustified(run + pass)
  {
    var t := run + pass;
    forall k | 0 <= k < |t| && t[k].MachineSlept? ensures Justified(t, k) {
      if k < |run| {
        assert Justified(run, k);
      } else {
        assert Justified(pass, k - |run|);
        assert forall m :: |run| <= m <= k ==> t[m] == pass[m - |run|];
      }
    }
  }

  lemma TriedTrace(wakelocks: bool, trigger: PowerEvent, env: Env, before: seq<Entry>)
    requires Tries(trigger, env)
    ensures before + BeforeResume(wakelocks, trigger, env)
            == before + FirstRound(env) + SecondRound(env)
               + (if env.refusalStreak == 0 then [SuspendedSent] else [])
               + Attempt(wakelocks, trigger, env)
  {
  }

  // ---------------------------------------------------------------- the code

  class Machine {
    const wakelocks: bool
    var state: PowerState
    var event: PowerEvent
    var forced: bool
    var frozen: bool
    var trace: seq<Entry>

    /** Between passes: On, nothing pending, nothing frozen, and a run that listeners can rely on. */
    ghost predicate Valid()
      reads this
    {
      && state.On? && event.NoEvent? && !forced && !frozen
      && Matched(trace) && AttemptsJustified(trace)
    }

    constructor (wakelocks: bool)
      ensures Valid() && this.wakelocks == wakelocks && trace == []
    {
      this.wakelocks := wakelocks;
      state, event, forced, frozen, trace := On, NoEvent, false, false, [];
    }

    /** What has been done of the pass on entry to each state, and why the pass is there. */
    ghost predicate At(at: PowerState, trigger: PowerEvent, env: Env, before: seq<Entry>)
      reads this
    {
      var full := PassTrace(wakelocks, trigger, env);
      var toCome := BeforeResume(wakelocks, trigger, env);
      && (at.On? ==> event == trigger || event.NoEvent?)
      && (!at.On? ==> event.NoEvent?)
      && (!at.On? && !at.KernelResume? && !at.ActivityResume? && !at.AbortSuspend? && !at.Last? ==>
            forced == trigger.ForceSuspend?)
      && (at.KernelResume? || at.ActivityResume? ==> !forced)
      && !frozen
      && match at
         case On => if event.NoEvent? then trace == before + full
                    else trace == before
         case OnIdle => trigger.IdleEvent? && trace == before
         case SuspendRequest => Asks(trigger, env) && trace == before
         case PrepareSuspend => Prepares(trigger, env) && trace == before + FirstRound(env)
         case Sleep => Tries(trigger, env) && trace == before + FirstRound(env) + SecondRound(env)
         case KernelResume => Prepares(trigger, env) && Resumes(trigger, env).ByKernel? && trace == before + toCome
         case ActivityResume => Prepares(trigger, env) && Resumes(trigger, env).ByActivity? && trace == before + toCome
         case AbortSuspend => Prepares(trigger, env) && Resumes(trigger, env).ByAbort? && trace == before + toCome
         case Last => !forced && trace == before + full
    }

    method StateOn(ghost trigger: PowerEvent, ghost env: Env, ghost before: seq<Entry>) returns (next: PowerState)
      requires At(On, trigger, env, before)
      modifies this
      ensures unchanged(`state) && !next.On? && At(next, trigger, env, before)
      ensures next.Last? <==> old(event).NoEvent?
    {
      match event {
        case ForceSuspend => next := SuspendRequest;
        case IdleEvent => next := OnIdle;
        case NoEvent => next := Last;
      }
      forced := event.ForceSuspend?;
      event := NoEvent;
    }

    method StateOnIdle(ghost trigger: PowerEvent, env: Env, ghost before: seq<Entry>) returns (next: PowerState)
      requires At(OnIdle, trigger, env, before)
      ensures At(next, trigger, env, before) && (next.On? || next.SuspendRequest?)
    {
      if !env.canSleepWhenIdle {
        return On;
      }
      return SuspendRequest;
    }

    method StateSuspendRequest(ghost trigger: PowerEvent, env: Env, ghost before: seq<Entry>) returns (next: PowerState)
      requires At(SuspendRequest, trigger, env, before)
      modifies this`trace
      ensures At(next, trigger, env, before) && (next.On? || next.PrepareSuspend?)
    {
      trace := trace + [SuspendRequestSent];
      var timeout := false;
      if !env.request.approvedAtOnce {
        timeout := env.request.timesOut;
      }
      if timeout {
        trace := trace + [RequestRound(Outcome.TimedOut)];
        next := PrepareSuspend;
      } else if env.request.approvedAfter {
        trace := trace + [RequestRound(Approved)];
        next := PrepareSuspend;
      } else {
        trace := trace + [RequestRound(Refused)];
        next := On;
      }
    }

    method StatePrepareSuspend(ghost trigger: PowerEvent, env: Env, ghost before: seq<Entry>) returns (next: PowerState)
      requires At(PrepareSuspend, trigger, env, before)
      modifies this`trace
      ensures At(next, trigger, env, before) && (next.Sleep? || next.AbortSuspend?)
    {
      trace := trace + [PrepareSuspendSent];
      var timeout := false;
      if !env.prepare.approvedAtOnce {
        timeout := env.prepare.timesOut;
      }
      if timeout {
        trace := trace + [PrepareRound(Outcome.TimedOut)];
        next := Sleep;
      } else if env.prepare.approvedAfter {
        trace := trace + [PrepareRound(Approved)];
        next := Sleep;
      } else {
        trace := trace + [PrepareRound(Refused)];
        next := AbortSuspend;
      }
    }

    /** Looks for activities, and without wakelocks freezes them when there is none. */
    method CheckActivitiesActive(env: Env) returns (clear: bool)
      modifies this`frozen
      ensures clear == env.activitiesClear
      ensures frozen == (old(frozen) || (clear && !wakelocks))
    {
      clear := env.activitiesClear;
      if !wakelocks && clear {
        frozen := true;
      }
    }

    method StateSleep(ghost trigger: PowerEvent, env: Env, ghost before: seq<Entry>) returns (next: PowerState)
      requires At(Sleep, trigger, env, before)
      modifies this`trace, this`frozen, this`forced
      ensures At(next, trigger, env, before) && (next.KernelResume? || next.ActivityResume? || next.AbortSuspend?)
      ensures !forced
    {
      next := AbortSuspend;
      var refused := false;
      if env.refusalStreak == 0 {
        trace := trace + [SuspendedSent];
      }
      ghost var announced := trace;
      var clear := true;
      if !forced {
        clear := CheckActivitiesActive(env);
      }
      if !clear {
        next := ActivityResume;
      } else if !forced && !env.canSleepNow {
      } else if env.inhibited {
      } else if !env.armed {
      } else {
        trace := trace + [MachineSlept(env.goesDown, frozen)];
        if env.goesDown {
          next := KernelResume;
        } else {
          refused := true;
        }
      }
      if !next.ActivityResume? {
        frozen := false;
      }
      forced := false;
      if refused {
        trace := trace + [BackedOff];
      }
      assert trace == announced + Attempt(wakelocks, trigger, env);
      TriedTrace(wakelocks, trigger, env, before);
    }

    method StateResume(kind: ResumeType, ghost trigger: PowerEvent, ghost env: Env, ghost before: seq<Entry>)
      returns (next: PowerState)
      requires kind.ByKernel? ==> At(KernelResume, trigger, env, before)
      requires kind.ByActivity? ==> At(ActivityResume, trigger, env, before)
      requires kind.ByAbort? ==> At(AbortSuspend, trigger, env, before)
      modifies this`trace, this`frozen
      ensures next.On? && At(next, trigger, env, before)
    {
      if !wakelocks {
        frozen := false;
      }
      trace := trace + [ResumeSent(kind)];
      return On;
    }

    /** How many states the rest of the pass can still visit. */
    static function Ahead(at: PowerState, event: PowerEvent): nat {
      match at
      case On => if event.NoEvent? then 1 else 7
      case OnIdle => 6
      case SuspendRequest => 5
      case PrepareSuspend => 4
      case Sleep => 3
      case KernelResume => 2
      case ActivityResume => 2
      case AbortSuspend => 2
      case Last => 0
    }

    /**
     Runs the machine to completion. Whatever the trigger and the environment, it
     stops back in On with nothing pending, forced or frozen, and what it has
     broadcast and attempted is the closed form.
     */
    method SuspendStateUpdate(trigger: PowerEvent, env: Env)
      requires Valid()
      modifies this
      ensures Valid()
      ensures trace == old(trace) + PassTrace(wakelocks, trigger, env)
    {
      ghost var before := trace;
      event := trigger;
      assert trigger.NoEvent? ==> before + PassTrace(wakelocks, trigger, env) == before;
      var next := On;
      while !next.Last?
        invariant state == if next.Last? then On else next
        invariant At(next, trigger, env, before)
        decreases Ahead(next, event)
      {
        match state {
          case On => next := StateOn(trigger, env, before);
          case OnIdle => next := StateOnIdle(trigger, env, before);
          case SuspendRequest => next := StateSuspendRequest(trigger, env, before);
          case PrepareSuspend => next := StatePrepareSuspend(trigger, env, before);
          case Sleep => next := StateSleep(trigger, env, before);
          case KernelResume => next := StateResume(ByKernel, trigger, env, before);
          case ActivityResume => next := StateResume(ByActivity, trigger, env, before);
          case AbortSuspend => next := StateResume(ByAbort, trigger, env, before);
        }
        if !next.Last? {
          state := next;
        }
      }
      PassIsMatched(wakelocks, trigger, env);
      PassIsJustified(wakelocks, trigger, env);
      RunsStayMatched(before, PassTrace(wakelocks, trigger, env));
      RunsStayJustified(before, PassTrace(wakelocks, trigger, env));
    }
  }
}
