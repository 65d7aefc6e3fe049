/**
 The main loop and the suspend thread interleaved: activity starts and stops,
 their kernel wakelocks, freeze and thaw, expiry, the shutdown inhibitor, and
 StateSleep up to the kernel going down.

 One action is one atomic step: a mutex-protected region, an atomic load or
 store, or one sysfs write. While the kernel is down no thread runs. The kernel
 does not go down while any wakelock is held.
 */
module PowerSystem {
  import opened Clock
  import opened Kernel
  import Activity

  /** The main loop between the atomic steps of a handler. Times are in nanoseconds. */
  datatype Main =
    | Idle
    | StartUnlock(id: string, durationMs: nat)  // old entry removed, its lock still to be released
    | StartInsert(id: string, durationMs: nat)
    | StartLock(id: string, end: int)           // entry inserted, lock still to be taken
    | StopUnlock(id: string)
    | ShutdownWrite                             // flag set, lock still to be taken

  /** The suspend thread inside StateSleep; forced is the trigger of the cycle. */
  datatype Suspend =
    | Outside
    | Sampled(forced: bool, sampled: int)       // sTimeOnSuspended read, activities not yet checked
    | Charger(forced: bool)
    | Inhibitor(forced: bool)
    | Arm(forced: bool)
    | Call(forced: bool)                        // about to call MachineSleep
    | Down(forced: bool)                        // the kernel is suspended
    | Thaw(forced: bool)

  /**
   `accepted` maps each activity whose start returned true, and that has been
   neither stopped nor started again since, to its end. `sleepsAfterFlag` counts
   MachineSleep calls made with the shutdown flag set, `downAfterLock` records a
   suspend with the shutdown lock written, `overtaken` that an expiry pass
   removed the very entry whose lock the main loop was about to take.
   */
  datatype State = State(
    wakelocks: bool, now: int,
    roster: map<string, int>, frozen: bool, held: set<Lock>, shutdownFlag: bool,
    main: Main, suspend: Suspend,
    accepted: map<string, int>, sleepsAfterFlag: nat, downAfterLock: bool, overtaken: bool)

  datatype Action =
    | Tick(ns: nat)
    | StartRemove(id: string, durationMs: nat) | StopRemove(id: string) | WriteUnlock | Insert | WriteLock
    | WriteClient(id: string, take: bool)
    | SetShutdownFlag | WriteShutdown
    | Expire(at: int)
    | BeginSleep(forced: bool) | CheckActivities | CheckCharger(can: bool) | CheckInhibitor | ArmAlarm(armed: bool)
    | MachineSleep(willing: bool) | Wake | ThawActivities

  predicate Enabled(s: State, a: Action) {
    if s.suspend.Down? then a.Wake?
    else match a
      case Tick(_) => true
      case StartRemove(_, _) => s.main.Idle?
      case StopRemove(_) => s.main.Idle?
      case WriteUnlock => s.main.StartUnlock? || s.main.StopUnlock?
      case Insert => s.main.StartInsert?
      case WriteLock => s.main.StartLock?
      case WriteClient(_, _) => s.main.Idle?
      case SetShutdownFlag => s.main.Idle?
      case WriteShutdown => s.main.ShutdownWrite?
      case Expire(at) => s.suspend.Outside? && at <= s.now
      case BeginSleep(_) => s.suspend.Outside?
      case CheckActivities => s.suspend.Sampled?
      case CheckCharger(_) => s.suspend.Charger?
      case CheckInhibitor => s.suspend.Inhibitor?
      case ArmAlarm(_) => s.suspend.Arm?
      case MachineSleep(_) => s.suspend.Call?
      case Wake => false
      case ThawActivities => s.suspend.Thaw?
  }

  function Taken(s: State, l: Lock): set<Lock> {
    if s.wakelocks then s.held + {l} else s.held
  }

  function Released(s: State, ls: set<Lock>): set<Lock> {
    if s.wakelocks then s.held - ls else s.held
  }

  function ActivityLocks(ids: set<string>): set<Lock> {
    set id | id in ids :: ActivityLock(id)
  }

  function ExpiredAt(roster: map<string, int>, at: int): set<string> {
    set id | id in roster && at > roster[id]
  }

  function Do(s: State, a: Action): State
    requires Enabled(s, a)
  {
    match a
    case Tick(ns) => s.(now := s.now + ns)
    case StartRemove(id, durationMs) =>
      s.(roster := s.roster - {id}, accepted := s.accepted - {id},
         main := if id in s.roster then StartUnlock(id, durationMs) else StartInsert(id, durationMs))
    case StopRemove(id) =>
      s.(roster := s.roster - {id}, accepted := s.accepted - {id},
         main := if id in s.roster then StopUnlock(id) else Idle)
    case WriteUnlock =>
      s.(held := Released(s, {ActivityLock(s.main.id)}),
         main := if s.main.StartUnlock? then StartInsert(s.main.id, s.main.durationMs) else Idle)
    case Insert =>
      var end := s.now + Activity.Clamp(s.main.durationMs) * NSEC_PER_MSEC;
      if s.frozen then s.(main := Idle)
      else s.(roster := s.roster[s.main.id := end], main := StartLock(s.main.id, end))
    case WriteLock =>
      s.(held := Taken(s, ActivityLock(s.main.id)), accepted := s.accepted[s.main.id := s.main.end], main := Idle)
    case WriteClient(id, take) =>
      s.(held := if take then Taken(s, ClientLock(id)) else Released(s, {ClientLock(id)}))
    case SetShutdownFlag =>
      s.(shutdownFlag := true, main := if !s.shutdownFlag && s.wakelocks then ShutdownWrite else Idle)
    case WriteShutdown => s.(held := Taken(s, ShutdownLock), main := Idle)
    case Expire(at) =>
      var gone := ExpiredAt(s.roster, at);
      s.(roster := s.roster - gone, held := Released(s, ActivityLocks(gone)),
         overtaken := s.overtaken || (s.main.StartLock? && s.main.id in gone))
    case BeginSleep(forced) => s.(suspend := Sampled(forced, s.now))
    case CheckActivities =>
      if s.suspend.forced then s.(suspend := Charger(true))
      else if ExpiredAt(s.roster, s.suspend.sampled) != s.roster.Keys then s.(suspend := Outside)
      else s.(suspend := Charger(false), frozen := s.frozen || !s.wakelocks)
    case CheckCharger(can) =>
      s.(suspend := if s.suspend.forced || can then Inhibitor(s.suspend.forced) else Thaw(s.suspend.forced))
    case CheckInhibitor =>
      s.(suspend := if s.shutdownFlag then Thaw(s.suspend.forced) else Arm(s.suspend.forced))
    case ArmAlarm(armed) =>
      s.(suspend := if armed then Call(s.suspend.forced) else Thaw(s.suspend.forced))
    case MachineSleep(willing) =>
      var goes := willing && s.held == {};
      s.(suspend := if goes then Down(s.suspend.forced) else Thaw(s.suspend.forced),
         sleepsAfterFlag := s.sleepsAfterFlag + if s.shutdownFlag then 1 else 0,
         downAfterLock := s.downAfterLock || (goes && s.wakelocks && s.shutdownFlag && !s.main.ShutdownWrite?))
    case Wake => s.(suspend := Thaw(s.suspend.forced))
    case ThawActivities => s.(frozen := false, suspend := Outside)
  }

  predicate Runs(s: State, actions: seq<Action>)
    decreases |actions|
  {
    actions == [] || (Enabled(s, actions[0]) && Runs(Do(s, actions[0]), actions[1..]))
  }

  function Exec(s: State, actions: seq<Action>): State
    requires Runs(s, actions)
    decreases |actions|
  {
    if actions == [] then s else Exec(Do(s, actions[0]), actions[1..])
  }

  predicate Initial(s: State) {
    && s.roster == map[] && s.accepted == map[] && s.held == {} && !s.frozen && !s.shutdownFlag
    && s.main.Idle? && s.suspend.Outside?
    && s.sleepsAfterFlag == 0 && !s.downAfterLock && !s.overtaken
  }

  // ------------------------------------------------------------- invariants

  predicate Busy(m: Main, id: string) {
    (m.StartUnlock? || m.StartInsert? || m.StartLock? || m.StopUnlock?) && m.id == id
  }

  predicate PastCheck(p: Suspend) {
    p.Charger? || p.Inhibitor? || p.Arm? || p.Call? || p.Down?
  }

  /** An entry somebody was promised is in the roster, with its lock, until it expires. */
  ghost predicate PromisesKept(s: State) {
    && (forall id :: id in s.accepted ==> !Busy(s.main, id))
    && (forall id :: id in s.accepted && s.accepted[id] >= s.now ==>
          id in s.roster && s.roster[id] == s.accepted[id] && (s.wakelocks ==> ActivityLock(id) in s.held))
    && (s.main.StartLock? && s.main.end >= s.now ==> s.main.id in s.roster && s.roster[s.main.id] == s.main.end)
  }

  /** Only an unforced sleep on a machine without wakelocks freezes, and only over expired entries. */
  ghost predicate FreezeSound(s: State) {
    && (s.suspend.Sampled? ==> s.suspend.sampled <= s.now)
    && (s.frozen ==> forall id :: id in s.roster ==> s.roster[id] < s.now)
    && (s.frozen ==> !s.wakelocks && (PastCheck(s.suspend) || s.suspend.Thaw?))
    && (!s.wakelocks && PastCheck(s.suspend) && !s.suspend.forced ==> s.frozen)
  }

  ghost predicate KernelSound(s: State) {
    s.suspend.Down? ==> s.held == {}
  }

  ghost predicate ShutdownSound(s: State) {
    && s.sleepsAfterFlag + (if s.shutdownFlag && (s.suspend.Arm? || s.suspend.Call?) then 1 else 0) <= 1
    && (!s.shutdownFlag ==> s.sleepsAfterFlag == 0)
    && (s.main.ShutdownWrite? ==> s.shutdownFlag)
    && (s.wakelocks && s.shutdownFlag && !s.main.ShutdownWrite? ==> ShutdownLock in s.held)
    && !s.downAfterLock
  }

  /** Entries have their locks; locks have their entries unless an expiry pass overtook a start. */
  ghost predicate MirrorSound(s: State) {
    && (!s.wakelocks ==> s.held == {})
    && (s.main.StartUnlock? || s.main.StartInsert? || s.main.StopUnlock? ==> s.main.id !in s.roster)
    && (s.wakelocks ==> forall id :: id in s.roster && !(s.main.StartLock? && s.main.id == id) ==>
          ActivityLock(id) in s.held)
    && (!s.overtaken ==> forall id :: ActivityLock(id) in s.held ==>
          id in s.roster || ((s.main.StartUnlock? || s.main.StopUnlock?) && s.main.id == id))
    && (!s.overtaken && s.main.StartLock? ==> s.main.id in s.roster)
  }

  ghost predicate Inv(s: State) {
    PromisesKept(s) && FreezeSound(s) && KernelSound(s) && ShutdownSound(s) && MirrorSound(s)
  }

  /** The actions of a start, a stop or a shutdown on the main loop. */
  predicate ByMain(a: Action) {
    || a.StartRemove? || a.StopRemove? || a.WriteUnlock? || a.Insert? || a.WriteLock?
    || a.WriteClient? || a.SetShutdownFlag? || a.WriteShutdown?
  }

  lemma PromisesMainStep(s: State, a: Action)
    requires Inv(s) && Enabled(s, a) && ByMain(a)
    ensures PromisesKept(Do(s, a))
  {
  }

  lemma PromisesSuspendStep(s: State, a: Action)
    requires Inv(s) && Enabled(s, a) && !ByMain(a)
    ensures PromisesKept(Do(s, a))
  {
  }

  lemma ShutdownMainStep(s: State, a: Action)
    requires Inv(s) && Enabled(s, a) && ByMain(a)
    ensures ShutdownSound(Do(s, a))
  {
  }

  lemma ShutdownSuspendStep(s: State, a: Action)
    requires Inv(s) && Enabled(s, a) && !ByMain(a)
    ensures ShutdownSound(Do(s, a))
  {
  }

  lemma MirrorMainStep(s: State, a: Action)
    requires Inv(s) && Enabled(s, a) && ByMain(a)
    ensures MirrorSound(Do(s, a))
  {
  }

  lemma MirrorSuspendStep(s: State, a: Action)
    requires Inv(s) && Enabled(s, a) && !ByMain(a)
    ensures MirrorSound(Do(s, a))
  {
  }

  lemma FreezeMainStep(s: State, a: Action)
    requires Inv(s) && Enabled(s, a) && ByMain(a)
    ensures FreezeSound(Do(s, a)) && KernelSound(Do(s, a))
  {
  }

  lemma FreezeSuspendStep(s: State, a: Action)
    requires Inv(s) && Enabled(s, a) && !ByMain(a) && !a.CheckActivities?
    ensures FreezeSound(Do(s, a)) && KernelSound(Do(s, a))
  {
  }

  /** Activities expired at the earlier reading are expired now. */
  lemma FreezeCheckStep(s: State)
    requires Inv(s) && Enabled(s, CheckActivities)
    ensures FreezeSound(Do(s, CheckActivities)) && KernelSound(Do(s, CheckActivities))
  {
    assert forall id :: id in ExpiredAt(s.roster, s.suspend.sampled) ==> s.roster[id] < s.now;
  }

  lemma StepKeepsInv(s: State, a: Action)
    requires Inv(s) && Enabled(s, a)
    ensures Inv(Do(s, a)) && Do(s, a).wakelocks == s.wakelocks
  {
    if ByMain(a) {
      FreezeMainStep(s, a);
      PromisesMainStep(s, a);
      ShutdownMainStep(s, a);
      MirrorMainStep(s, a);
    } else {
      if a.CheckActivities? {
        FreezeCheckStep(s);
      } else {
        FreezeSuspendStep(s, a);
      }
      PromisesSuspendStep(s, a);
      ShutdownSuspendStep(s, a);
      MirrorSuspendStep(s, a);
    }
  }

  lemma {:induction false} InvHolds(s: State, actions: seq<Action>)
    requires Inv(s) && Runs(s, actions)
    ensures Inv(Exec(s, actions)) && Exec(s, actions).wakelocks == s.wakelocks
    decreases |actions|
  {
    if actions != [] {
      StepKeepsInv(s, actions[0]);
      InvHolds(Do(s, actions[0]), actions[1..]);
    }
  }

  // ----------------------------------------------------------- main results

  /**
   Under every interleaving: while the kernel is down, every activity whose start
   returned true and that has not been stopped has expired - always on a machine
   with wakelocks, and in every cycle that was not forced on one without.
   */
  lemma NeverDownOverActivity(s: State, actions: seq<Action>)
    requires Initial(s) && Runs(s, actions)
    ensures var end := Exec(s, actions);
            end.suspend.Down? && (end.wakelocks || !end.suspend.forced) ==>
              forall id :: id in end.accepted ==> end.accepted[id] < end.now
  {
    InvHolds(s, actions);
  }

  /** A start has inserted its entry, or has returned, and the activity has not been stopped or started again. */
  predicate Promised(s: State, id: string, end: int) {
    s.main == StartLock(id, end) || (id in s.accepted && s.accepted[id] == end)
  }

  lemma PromiseStays(s: State, a: Action, id: string, end: int)
    requires Inv(s) && Promised(s, id, end) && Enabled(s, a)
    requires !((a.StartRemove? || a.StopRemove?) && a.id == id)
    ensures Promised(Do(s, a), id, end)
  {
  }

  lemma {:induction false} PromiseStaysOverRuns(s: State, actions: seq<Action>, id: string, end: int)
    requires Inv(s) && Promised(s, id, end) && Runs(s, actions)
    requires forall a :: a in actions ==> !((a.StartRemove? || a.StopRemove?) && a.id == id)
    ensures Promised(Exec(s, actions), id, end)
    ensures id in s.accepted || (exists a :: a in actions && a.WriteLock?) ==> id in Exec(s, actions).accepted
    ensures Inv(Exec(s, actions)) && Exec(s, actions).wakelocks == s.wakelocks
    decreases |actions|
  {
    if actions != [] {
      assert actions[0] in actions;
      PromiseStays(s, actions[0], id, end);
      StepKeepsInv(s, actions[0]);
      var next := Do(s, actions[0]);
      if actions[0].WriteLock? || id in s.accepted {
        AcceptedStays(s, actions[0], id, end);
      } else {
        assert (exists a :: a in actions && a.WriteLock?) ==> exists a :: a in actions[1..] && a.WriteLock?;
      }
      PromiseStaysOverRuns(next, actions[1..], id, end);
    }
  }

  lemma AcceptedStays(s: State, a: Action, id: string, end: int)
    requires Inv(s) && Promised(s, id, end) && Enabled(s, a) && (a.WriteLock? || id in s.accepted)
    requires !((a.StartRemove? || a.StopRemove?) && a.id == id)
    ensures id in Do(s, a).accepted
  {
  }

  /**
   In terms of the request: once an activity has been inserted for so many milliseconds,
   and its start has returned, the kernel is never down before that time is over, or
   fifteen minutes if it asked for more, unless it is stopped or started again - always on
   a machine with wakelocks, and in every cycle that was not forced on one without.
   */
  lemma NeverDownBeforeItsTime(s: State, before: seq<Action>, actions: seq<Action>, id: string, durationMs: nat)
    requires Initial(s) && Runs(s, before)
    requires var t := Exec(s, before);
             && t.main == StartInsert(id, durationMs) && !t.frozen && Enabled(t, Insert) && Runs(Do(t, Insert), actions)
    requires (forall a :: a in actions ==> !((a.StartRemove? || a.StopRemove?) && a.id == id))
    requires exists a :: a in actions && a.WriteLock?
    ensures var start := Exec(s, before).now;
            var end := Exec(Do(Exec(s, before), Insert), actions);
            end.suspend.Down? && (end.wakelocks || !end.suspend.forced) ==>
              end.now > start + (if durationMs <= 900_000 then durationMs else 900_000) * 1_000_000
  {
    InvHolds(s, before);
    var t := Exec(s, before);
    var until := t.now + (if durationMs <= 900_000 then durationMs else 900_000) * 1_000_000;
    StepKeepsInv(t, Insert);
    assert Do(t, Insert).main == StartLock(id, until);
    PromiseStaysOverRuns(Do(t, Insert), actions, id, until);
    var end := Exec(Do(t, Insert), actions);
    if end.suspend.Down? && (end.wakelocks || !end.suspend.forced) {
      DownIsOver(end, id);
    }
  }

  /** The invariants leave no accepted activity unexpired under a kernel that is down. */
  lemma DownIsOver(s: State, id: string)
    requires Inv(s) && s.suspend.Down? && (s.wakelocks || !s.suspend.forced) && id in s.accepted
    ensures s.accepted[id] < s.now
  {
  }

  /**
   Once the shutdown flag is set MachineSleep is called at most once more, and on
   a machine with wakelocks the kernel never goes down again after the shutdown
   lock has been written.
   */
  lemma ShutdownStopsSuspends(s: State, actions: seq<Action>)
    requires Initial(s) && Runs(s, actions)
    ensures Exec(s, actions).sleepsAfterFlag <= 1 && !Exec(s, actions).downAfterLock
  {
    InvHolds(s, actions);
  }

  function SleepCalls(actions: seq<Action>): nat {
    if actions == [] then 0 else (if actions[0].MachineSleep? then 1 else 0) + SleepCalls(actions[1..])
  }

  /** Counted on the run itself: after the flag one call at most, and none goes down once the shutdown lock is held. */
  lemma {:induction false} OneCallAfterFlag(s: State, actions: seq<Action>)
    requires Inv(s) && Runs(s, actions) && s.shutdownFlag
    ensures SleepCalls(actions) <= if s.suspend.Arm? || s.suspend.Call? then 1 else 0
    ensures s.wakelocks && ShutdownLock in s.held && !s.suspend.Down? ==> !Exec(s, actions).suspend.Down?
    decreases |actions|
  {
    if actions != [] {
      StepKeepsInv(s, actions[0]);
      if ByMain(actions[0]) {
        FlagMainStep(s, actions[0]);
      } else {
        FlagSuspendStep(s, actions[0]);
        CallSuspendStep(s, actions[0]);
        if ShutdownLock in s.held && !s.suspend.Down? {
          ShutdownLockStep(s, actions[0]);
        }
      }
      OneCallAfterFlag(Do(s, actions[0]), actions[1..]);
    }
  }

  /**
   The first initiate leaves no second attempt, and on a machine with wakelocks the
   lock write is next on the main thread and ends every suspend for good.
   */
  lemma ShutdownTakesEffect(s: State, actions: seq<Action>)
    requires Inv(s) && Enabled(s, SetShutdownFlag) && !s.shutdownFlag && Runs(Do(s, SetShutdownFlag), actions)
    ensures SleepCalls(actions) <= if s.suspend.Arm? || s.suspend.Call? then 1 else 0
    ensures s.wakelocks ==> Do(s, SetShutdownFlag).main == ShutdownWrite
    ensures forall i | 0 <= i < |actions| && s.wakelocks && actions[i] == WriteShutdown
              :: !Exec(Do(s, SetShutdownFlag), actions).suspend.Down?
  {
    StepKeepsInv(s, SetShutdownFlag);
    OneCallAfterFlag(Do(s, SetShutdownFlag), actions);
    if s.wakelocks && WriteShutdown in actions {
      WrittenLockIsFinal(Do(s, SetShutdownFlag), actions);
    }
  }

  lemma {:induction false} WrittenLockIsFinal(s: State, actions: seq<Action>)
    requires Inv(s) && s.wakelocks && s.shutdownFlag && Runs(s, actions) && WriteShutdown in actions
    ensures !Exec(s, actions).suspend.Down?
    decreases |actions|
  {
    var a := actions[0];
    StepKeepsInv(s, a);
    if a == WriteShutdown {
      assert ShutdownLock in Do(s, a).held;
      OneCallAfterFlag(Do(s, a), actions[1..]);
    } else {
      if ByMain(a) {
        FlagMainStep(s, a);
      } else {
        FlagSuspendStep(s, a);
      }
      assert actions == [a] + actions[1..];
      WrittenLockIsFinal(Do(s, a), actions[1..]);
    }
  }

  lemma FlagMainStep(s: State, a: Action)
    requires Enabled(s, a) && s.shutdownFlag && ByMain(a)
    ensures var t := Do(s, a);
            && t.shutdownFlag && t.wakelocks == s.wakelocks && t.suspend == s.suspend
            && (ShutdownLock in s.held ==> ShutdownLock in t.held)
  {
  }

  lemma FlagSuspendStep(s: State, a: Action)
    requires Enabled(s, a) && s.shutdownFlag && !ByMain(a)
    ensures Do(s, a).shutdownFlag && Do(s, a).wakelocks == s.wakelocks
  {
  }

  lemma CallSuspendStep(s: State, a: Action)
    requires Enabled(s, a) && s.shutdownFlag && !ByMain(a)
    ensures Do(s, a).suspend.Arm? || Do(s, a).suspend.Call? ==> (s.suspend.Arm? || s.suspend.Call?) && !a.MachineSleep?
    ensures a.MachineSleep? ==> s.suspend.Call?
  {
    if a.Tick? || a.Expire? {
      assert Do(s, a).suspend == s.suspend;
    } else if a.BeginSleep? {
      assert Do(s, a).suspend.Sampled?;
    } else if a.CheckActivities? {
      assert Do(s, a).suspend.Charger? || Do(s, a).suspend.Outside?;
    }
  }

  lemma ShutdownLockStep(s: State, a: Action)
    requires Enabled(s, a) && !ByMain(a) && ShutdownLock in s.held && !s.suspend.Down?
    ensures ShutdownLock in Do(s, a).held && !Do(s, a).suspend.Down?
  {
    if a.Expire? {
      assert ShutdownLock !in ActivityLocks(ExpiredAt(s.roster, a.at));
    }
  }

  /** The look for activities, and the rest of an attempt, with nothing of the main loop in between. */
  function Looked(s: State, forced: bool): State
    requires s.suspend.Outside?
  {
    Do(Do(s, BeginSleep(forced)), CheckActivities)
  }

  function Tried(s: State, can: bool, armed: bool, willing: bool): State
    requires s.suspend.Charger?
  {
    var charged := Do(s, CheckCharger(can));
    if charged.suspend.Thaw? then charged else Called(charged, armed, willing)
  }

  function Called(s: State, armed: bool, willing: bool): State
    requires s.suspend.Inhibitor?
  {
    var inhibited := Do(s, CheckInhibitor);
    if inhibited.suspend.Thaw? then inhibited
    else
      var ready := Do(inhibited, ArmAlarm(armed));
      if ready.suspend.Thaw? then ready else Do(ready, MachineSleep(willing))
  }

  lemma AllExpired(roster: map<string, int>, at: int)
    ensures ExpiredAt(roster, at) == roster.Keys <==> forall id :: id in roster ==> roster[id] < at
  {
    if ExpiredAt(roster, at) == roster.Keys {
      forall id | id in roster ensures roster[id] < at {
        assert id in ExpiredAt(roster, at);
      }
    }
  }

  lemma LooksExactly(s: State, forced: bool)
    requires s.suspend.Outside?
    ensures var t := Looked(s, forced);
            && t.held == s.held && t.shutdownFlag == s.shutdownFlag
            && if forced || forall id :: id in s.roster ==> s.roster[id] < s.now then t.suspend == Charger(forced)
               else t.suspend.Outside?
  {
    AllExpired(s.roster, s.now);
  }

  lemma CallsExactly(s: State, armed: bool, willing: bool)
    requires s.suspend.Inhibitor?
    ensures Called(s, armed, willing).suspend.Down? <==> !s.shutdownFlag && armed && willing && s.held == {}
  {
  }

  lemma TriesExactly(s: State, can: bool, armed: bool, willing: bool)
    requires s.suspend.Charger?
    ensures Tried(s, can, armed, willing).suspend.Down?
            <==> (s.suspend.forced || can) && !s.shutdownFlag && armed && willing && s.held == {}
  {
    var charged := Do(s, CheckCharger(can));
    if charged.suspend.Inhibitor? {
      CallsExactly(charged, armed, willing);
    }
  }

  /**
   The machine does sleep: an attempt takes the kernel down exactly when it was forced or
   every activity has expired and the charger allows it, no shutdown has begun, the alarm
   is armed, the kernel is willing, and no wakelock is held.
   */
  lemma GoesDownExactly(s: State, forced: bool, can: bool, armed: bool, willing: bool)
    requires s.suspend.Outside?
    ensures var looked := Looked(s, forced);
            (looked.suspend.Charger? && Tried(looked, can, armed, willing).suspend.Down?)
            <==> && (forced || (can && forall id :: id in s.roster ==> s.roster[id] < s.now))
                 && !s.shutdownFlag && armed && willing && s.held == {}
  {
    LooksExactly(s, forced);
    var looked := Looked(s, forced);
    if looked.suspend.Charger? {
      TriesExactly(looked, can, armed, willing);
    }
  }

  /**
   Between handlers every roster entry has its kernel lock, and no other activity
   lock is held unless an expiry pass ever overtook a start.
   */
  lemma LocksMirrorRoster(s: State, actions: seq<Action>)
    requires Initial(s) && Runs(s, actions) && Exec(s, actions).main.Idle? && s.wakelocks
    ensures var end := Exec(s, actions);
            && (forall id :: id in end.roster ==> ActivityLock(id) in end.held)
            && (!end.overtaken ==> forall id :: ActivityLock(id) in end.held ==> id in end.roster)
  {
    InvHolds(s, actions);
  }

  /**
   An expiry pass between the insert and the lock write of a start leaves a lock without
   an entry exactly when it looks at a time after the end of the new activity.
   */
  lemma LeakExactly(s: State, at: int)
    requires Inv(s) && s.wakelocks && !s.overtaken && s.main.StartLock? && Enabled(s, Expire(at))
    ensures s.main.id in s.roster
    ensures var id, after := s.main.id, Do(Do(s, Expire(at)), WriteLock);
            (ActivityLock(id) in after.held && id !in after.roster) <==> at > s.roster[id]
  {
  }

  /** A lock no entry stands for, with no handler at work on it. */
  predicate Leaked(s: State, id: string) {
    s.wakelocks && ActivityLock(id) in s.held && id !in s.roster && !Busy(s.main, id)
  }

  lemma LeakSurvivesMainStep(s: State, a: Action, id: string)
    requires Leaked(s, id) && Enabled(s, a) && ByMain(a) && !(a.StartRemove? && a.id == id)
    ensures Leaked(Do(s, a), id) && Do(s, a).suspend == s.suspend
  {
  }

  lemma LeakSurvivesSuspendStep(s: State, a: Action, id: string)
    requires Leaked(s, id) && Enabled(s, a) && !ByMain(a)
    ensures Leaked(Do(s, a), id) && (!s.suspend.Down? ==> !Do(s, a).suspend.Down?)
  {
  }

  /**
   Until that activity is started again the lock stays, whatever is started, stopped or
   expired, and no suspend succeeds.
   */
  lemma {:induction false} LeakStays(s: State, actions: seq<Action>, id: string)
    requires Leaked(s, id) && Runs(s, actions)
    requires forall a :: a in actions ==> !(a.StartRemove? && a.id == id)
    ensures Leaked(Exec(s, actions), id)
    ensures !s.suspend.Down? ==> !Exec(s, actions).suspend.Down?
    decreases |actions|
  {
    if actions != [] {
      assert actions[0] in actions;
      if ByMain(actions[0]) {
        LeakSurvivesMainStep(s, actions[0], id);
      } else {
        LeakSurvivesSuspendStep(s, actions[0], id);
      }
      LeakStays(Do(s, actions[0]), actions[1..], id);
    }
  }

  /** Starting it again gives the lock an entry, and then a stop or an expiry pass releases it. */
  lemma RestartEndsLeak(s: State, id: string, durationMs: nat, ns: nat)
    requires Inv(s) && Leaked(s, id) && s.main.Idle? && !s.suspend.Down?
    ensures var end := s.now + Activity.Clamp(durationMs) * NSEC_PER_MSEC;
            var started := Do(Do(Do(s, StartRemove(id, durationMs)), Insert), WriteLock);
            && id in started.roster && started.roster[id] == end && ActivityLock(id) in started.held
            && ActivityLock(id) !in Do(Do(started, StopRemove(id)), WriteUnlock).held
            && var later := Do(started, Tick(ns));
               later.suspend.Outside? && later.now > end ==> ActivityLock(id) !in Do(later, Expire(later.now)).held
  {
  }

  /**
   An activity shorter than the gap between the insert and the lock write does it:
   stopping it finds no entry to release.
   */
  lemma OvertakenStartLeaksLock(s: State)
    requires Initial(s) && s.wakelocks
    ensures var actions := [StartRemove("a", 1), Insert, Tick(2 * NSEC_PER_MSEC), Expire(s.now + 2 * NSEC_PER_MSEC),
                            WriteLock, StopRemove("a")];
            && Runs(s, actions)
            && Leaked(Exec(s, actions), "a") && Exec(s, actions).main.Idle?
  {
    var a := [StartRemove("a", 1), Insert, Tick(2 * NSEC_PER_MSEC), Expire(s.now + 2 * NSEC_PER_MSEC),
              WriteLock, StopRemove("a")];
    var s3 := Do(Do(Do(s, a[0]), a[1]), a[2]);
    StartInserts(s, 1, 2 * NSEC_PER_MSEC);
    var s6 := Do(Do(Do(s3, a[3]), a[4]), a[5]);
    Unroll3(s3, a[3..], s6);
    Unroll3(s, a, s6);
  }

  lemma StartInserts(s: State, durationMs: nat, ns: nat)
    requires Initial(s)
    ensures var t := Do(Do(Do(s, StartRemove("a", durationMs)), Insert), Tick(ns));
            var end := s.now + Activity.Clamp(durationMs) * NSEC_PER_MSEC;
            t == s.(roster := map["a" := end], main := StartLock("a", end), now := s.now + ns)
  {
  }

  lemma Unroll3(s: State, actions: seq<Action>, end: State)
    requires |actions| >= 3 && Enabled(s, actions[0])
    requires Enabled(Do(s, actions[0]), actions[1]) && Enabled(Do(Do(s, actions[0]), actions[1]), actions[2])
    requires var t := Do(Do(Do(s, actions[0]), actions[1]), actions[2]);
             Runs(t, actions[3..]) && Exec(t, actions[3..]) == end
    ensures Runs(s, actions) && Exec(s, actions) == end
  {
    assert actions[1..][1..][1..] == actions[3..];
    assert actions[1..][1..][0] == actions[2];
    var s1 := Do(s, actions[0]);
    var s2 := Do(s1, actions[1]);
    Unroll(s2, actions[1..][1..], end);
    Unroll(s1, actions[1..], end);
    Unroll(s, actions, end);
  }

  lemma Unroll(s: State, actions: seq<Action>, end: State)
    requires actions != [] && Enabled(s, actions[0])
    requires Runs(Do(s, actions[0]), actions[1..]) && Exec(Do(s, actions[0]), actions[1..]) == end
    ensures Runs(s, actions) && Exec(s, actions) == end
  {
  }

  // ------------------------------------- the roster of the steps is that of the code

  /** m tells of each activity in the code's roster when it ends, and of no other. */
  ghost predicate Represents(m: map<string, int>, roster: seq<Activity.Activity>) {
    && (forall id :: id in m <==> Activity.HasId(roster, id))
    && (forall i :: 0 <= i < |roster| ==> roster[i].id in m && m[roster[i].id] == roster[i].end.Nanos())
  }

  lemma EntriesSuffice(m: map<string, int>, roster: seq<Activity.Activity>)
    requires forall id :: id in m <==> Activity.HasId(roster, id)
    requires forall a :: a in roster ==> a.id in m && m[a.id] == a.end.Nanos()
    ensures Represents(m, roster)
  {
    forall i | 0 <= i < |roster| ensures roster[i].id in m && m[roster[i].id] == roster[i].end.Nanos() {
      assert roster[i] in roster;
    }
  }

  lemma RemovedRepresents(m: map<string, int>, before: seq<Activity.Activity>, after: seq<Activity.Activity>,
                          id: string)
    requires Represents(m, before) && Activity.UniqueIds(before) && Activity.Removed(before, after, id)
    ensures Represents(m - {id}, after)
  {
    Activity.RemovedIds(before, after, id);
    forall a | a in after ensures a in before && a.id != id {
      var i :| 0 <= i < |after| && after[i] == a;
      assert Activity.HasId(after, a.id);
    }
    EntriesSuffice(m - {id}, after);
  }

  lemma InsertedRepresents(m: map<string, int>, before: seq<Activity.Activity>, after: seq<Activity.Activity>,
                           a: Activity.Activity)
    requires Represents(m, before) && Activity.UniqueIds(before) && !Activity.HasId(before, a.id)
    requires Activity.Inserted(before, after, a)
    ensures Represents(m[a.id := a.end.Nanos()], after)
  {
    Activity.InsertedIds(before, after, a);
    forall b | b in after ensures b == a || (b in before && b.id != a.id) {
      if b in before {
        assert exists i :: 0 <= i < |before| && before[i].id == b.id;
      }
    }
    EntriesSuffice(m[a.id := a.end.Nanos()], after);
  }

  lemma UnexpiredRepresents(m: map<string, int>, roster: seq<Activity.Activity>, now: Instant)
    requires Represents(m, roster) && Activity.UniqueIds(roster)
    ensures Represents(m - ExpiredAt(m, now.Nanos()), Activity.Unexpired(roster, now))
    ensures ExpiredAt(m, now.Nanos()) == m.Keys <==> forall a :: a in roster ==> now.Nanos() > a.end.Nanos()
  {
    var rest := m - ExpiredAt(m, now.Nanos());
    var unexpired := Activity.Unexpired(roster, now);
    forall a | a in roster
      ensures a.id in m && m[a.id] == a.end.Nanos() && (a in unexpired <==> a.id in rest)
    {
      Activity.ExpiredMeans(a, now);
      var i :| 0 <= i < |roster| && roster[i] == a;
    }
    forall id ensures id in rest <==> Activity.HasId(unexpired, id) {
      if id in rest {
        var i :| 0 <= i < |roster| && roster[i].id == id;
        assert roster[i] in unexpired;
      }
      if Activity.HasId(unexpired, id) {
        var i :| 0 <= i < |unexpired| && unexpired[i].id == id;
        assert unexpired[i] in roster;
      }
    }
    EntriesSuffice(rest, unexpired);
    if ExpiredAt(m, now.Nanos()) == m.Keys {
      forall a | a in roster ensures now.Nanos() > a.end.Nanos() {
        assert a.id in m.Keys;
      }
    }
    if forall a :: a in roster ==> now.Nanos() > a.end.Nanos() {
      forall id | id in m ensures id in ExpiredAt(m, now.Nanos()) {
        var i :| 0 <= i < |roster| && roster[i].id == id;
        assert roster[i] in roster;
      }
    }
  }

  /** StartRemove and StopRemove leave what _activity_remove_id does, and go on to unlock exactly what it took out. */
  lemma RemoveIsStep(s: State, a: Action, before: seq<Activity.Activity>, after: seq<Activity.Activity>)
    requires Enabled(s, a) && (a.StartRemove? || a.StopRemove?)
    requires Represents(s.roster, before) && Activity.UniqueIds(before) && Activity.Removed(before, after, a.id)
    ensures Represents(Do(s, a).roster, after)
    ensures var main := Do(s, a).main;
            if Activity.HasId(before, a.id) then (main.StartUnlock? || main.StopUnlock?) && main.id == a.id
            else main.StartInsert? || main.Idle?
  {
    RemovedRepresents(s.roster, before, after, a.id);
  }

  /** Insert leaves what _activity_insert does, for as long as was asked; nothing while frozen. */
  lemma InsertIsStep(s: State, now: Instant, before: seq<Activity.Activity>, after: seq<Activity.Activity>)
    requires Enabled(s, Insert) && now.Nanos() == s.now
    requires Represents(s.roster, before) && Activity.UniqueIds(before) && !Activity.HasId(before, s.main.id)
    requires if s.frozen then after == before
             else Activity.Inserted(before, after, Activity.NewActivity(s.main.id, s.main.durationMs, now))
    ensures Represents(Do(s, Insert).roster, after)
  {
    if !s.frozen {
      InsertedRepresents(s.roster, before, after, Activity.NewActivity(s.main.id, s.main.durationMs, now));
    }
  }

  /** Expire leaves what PwrEventActivityRemoveExpired does, and no lock of what it took out. */
  lemma ExpireIsStep(s: State, now: Instant, roster: seq<Activity.Activity>)
    requires Enabled(s, Expire(now.Nanos())) && Represents(s.roster, roster) && Activity.UniqueIds(roster)
    ensures var t := Do(s, Expire(now.Nanos()));
            && Represents(t.roster, Activity.Unexpired(roster, now))
            && forall l: Lock :: l in t.held <==>
                 l in s.held && !(s.wakelocks && l.ActivityLock? && l.id in s.roster && l.id !in t.roster)
  {
    UnexpiredRepresents(s.roster, roster, now);
  }

  /**
   CheckActivities goes on exactly when forced or PwrEventActivityCanSleep would let it, and
   freezes without wakelocks.
   */
  lemma CheckIsStep(s: State, sampled: Instant, roster: seq<Activity.Activity>)
    requires Enabled(s, CheckActivities) && sampled.Nanos() == s.suspend.sampled
    requires Represents(s.roster, roster) && Activity.UniqueIds(roster)
    ensures var t := Do(s, CheckActivities);
            var clear := forall a :: a in roster ==> sampled.Nanos() > a.end.Nanos();
            && (t.suspend.Charger? <==> s.suspend.forced || clear)
            && t.frozen == (s.frozen || (!s.suspend.forced && clear && !s.wakelocks))
  {
    UnexpiredRepresents(s.roster, roster, sampled);
  }
}
