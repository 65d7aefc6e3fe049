/**
 How the suspend thread waits for the votes of a round: the mutex and condition
 variable of src/utils/wait.c between StateSuspendRequest or StatePrepareSuspend
 on one side and the vote callbacks of the main loop on the other.

 One action is one step of one thread. The main loop updates the counters
 without the mutex and takes it only to signal.
 */
module VoteWait {
  import opened Clients
  import opened Clock

  /** Where a wait of so many milliseconds ends; a negative wait has no end. */
  datatype Deadline = Never | At(time: Timespec)

  /**
   The absolute deadline is normal, so the timed wait never fails on it, and it
   is exactly so many milliseconds away.
   */
  function WaitDeadline(now: Timespec, ms: int): (d: Deadline)
    ensures d.Never? <==> ms < 0
    ensures d.At? ==> d.time.Nanos() == now.Nanos() + ms * NSEC_PER_MSEC
    ensures d.At? && now.Normal() ==> d.time.Normal()
  {
    if ms < 0 then Never else At(Accum(now, OfMs(ms)))
  }

  datatype Waiter =
    | Outside               // before WaitObjectLock
    | Locked                // holds the mutex, round not begun
    | Begun                 // votes forgotten (first round) and the request broadcast
    | Undecided             // saw no approval; about to wait, still holds the mutex
    | Waiting               // inside the timed wait, mutex released
    | Woken | TimedOut      // wait over, mutex not taken back yet
    | Finished(timeout: bool)

  /** `cast` says that a decisive vote of this round is behind the signal, and can still be heard. */
  datatype Voter =
    | Idle
    | MustSignal(cast: bool)     // counters updated, signal still to come
    | Signalling(cast: bool)     // holds the mutex, about to signal
    | Signalled                   // about to unlock

  datatype Holder = Nobody | SuspendThread | MainLoop

  /**
   `decided`: a decisive vote of this round is on its way or signalled, whose voter did
   not take the mutex before the suspend thread did. `heard`: the signal of such a vote
   came before the deadline. `waited`: the suspend thread saw no approval and waited.
   `tookLate` and `inTime` record of the last voter whether it took the mutex after the
   suspend thread had, and whether it signalled before the deadline.
   */
  datatype State = State(
    round: Round, table: Table, mutex: Holder, waiter: Waiter, voter: Voter,
    decided: bool, heard: bool, waited: bool, tookLate: bool, inTime: bool)

  datatype Action =
    | Lock | Begin | Ask | Wait | Expire | Resume                   // suspend thread and its clock
    | CastVote(uid: string, ack: bool) | Other(op: Op) | StaleSignal // main loop
    | TakeMutex | Signal | GiveMutex

  predicate InRound(w: Waiter) {
    w.Begun? || w.Undecided? || w.Waiting? || w.Woken? || w.TimedOut?
  }

  /**
   Votes of this round: the first round forgets what came before it began, the second
   counts every vote since then, also one cast before the suspend thread has got as far.
   */
  predicate Counts(s: State) {
    InRound(s.waiter) || (s.round.PrepareSuspend? && !s.waiter.Finished?)
  }

  predicate Decisive(s: State, uid: string, ack: bool) {
    uid in s.table.clients && (!ack || Approves(Step(s.table, Cast(uid, s.round, ack)), s.round))
  }

  predicate Enabled(s: State, a: Action) {
    match a
    case Lock => s.waiter.Outside? && s.mutex.Nobody?
    case Begin => s.waiter.Locked?
    case Ask => s.waiter.Begun?
    case Wait => s.waiter.Undecided?
    case Expire => s.waiter.Waiting?
    case Resume => (s.waiter.Woken? || s.waiter.TimedOut?) && s.mutex.Nobody?
    case CastVote(_, _) => s.voter.Idle?
    case Other(op) => s.voter.Idle? && !op.VoteInit? && !(op.Cast? && op.round == s.round)
    case StaleSignal => s.voter.Idle?
    case TakeMutex => s.voter.MustSignal? && s.mutex.Nobody?
    case Signal => s.voter.Signalling?
    case GiveMutex => s.voter.Signalled?
  }

  function Do(s: State, a: Action): State
    requires Enabled(s, a)
  {
    match a
    case Lock => s.(mutex := SuspendThread, waiter := Locked)
    case Begin => s.(waiter := Begun, table := if s.round.SuspendRequest? then Step(s.table, VoteInit) else s.table)
    case Ask =>
      if Approves(s.table, s.round) then s.(waiter := Finished(false), mutex := Nobody) else s.(waiter := Undecided)
    case Wait => s.(waiter := Waiting, mutex := Nobody, waited := true)
    case Expire => s.(waiter := TimedOut)
    case Resume => s.(waiter := Finished(s.waiter.TimedOut?))
    case CastVote(uid, ack) =>
      var decisive := Decisive(s, uid, ack);
      s.(table := Step(s.table, Cast(uid, s.round, ack)),
         voter := if decisive then MustSignal(Counts(s)) else Idle,
         decided := s.decided || (decisive && Counts(s)))
    case Other(op) => s.(table := Step(s.table, op))
    case StaleSignal => s.(voter := MustSignal(false))
    case TakeMutex =>
      var late := !s.waiter.Outside?;
      s.(voter := Signalling(s.voter.cast && late), mutex := MainLoop, decided := s.decided && late, tookLate := late)
    case Signal =>
      var expired := s.waiter.TimedOut? || s.waiter == Finished(true);
      s.(voter := Signalled,
         waiter := if s.waiter.Waiting? then Woken else s.waiter,
         heard := s.heard || (s.voter.cast && !expired), inTime := !expired)
    case GiveMutex => s.(voter := Idle, mutex := Nobody)
  }

  predicate Runs(s: State, actions: seq<Action>)
    decreases |actions|
  {
    actions == [] || (Enabled(s, actions[0]) && Runs(Do(s, actions[0]), actions[1..]))
  }

  function Exec(s: State, actions: seq<Action>): State
    requires Runs(s, actions)
    decreases |actions|
  {
    if actions == [] then s else Exec(Do(s, actions[0]), actions[1..])
  }

  predicate Initial(s: State) {
    s.mutex.Nobody? && s.waiter.Outside? && s.voter.Idle? && !s.decided && !s.heard && !s.waited
  }

  predicate HoldsMutex(w: Waiter) {
    w.Locked? || w.Begun? || w.Undecided?
  }

  /** A decisive vote of this round whose signal is still to come. */
  predicate SignalPending(v: Voter) {
    (v.MustSignal? || v.Signalling?) && v.cast
  }

  predicate Inv(s: State) {
    && (s.mutex.SuspendThread? <==> HoldsMutex(s.waiter))
    && (s.mutex.MainLoop? <==> s.voter.Signalling? || s.voter.Signalled?)
    && (SignalPending(s.voter) ==> s.decided)
    && (s.voter.Signalling? && s.voter.cast ==> !s.waiter.Outside?)
    && (s.decided && !SignalPending(s.voter) ==> s.waiter.Woken? || s.waiter.TimedOut? || s.waiter.Finished?)
    && (s.waited ==> s.waiter.Waiting? || s.waiter.Woken? || s.waiter.TimedOut? || s.waiter.Finished?)
    && (s.heard ==> s.waiter.Woken? || s.waiter == Finished(false))
  }

  lemma StepKeepsInv(s: State, a: Action)
    requires Inv(s) && Enabled(s, a)
    ensures Inv(Do(s, a))
  {
  }

  lemma {:induction false} InvHolds(s: State, actions: seq<Action>)
    requires Inv(s) && Runs(s, actions)
    ensures Inv(Exec(s, actions))
    decreases |actions|
  {
    if actions != [] {
      StepKeepsInv(s, actions[0]);
      InvHolds(Do(s, actions[0]), actions[1..]);
    }
  }

  /**
   No lost wakeup, under every interleaving: once a NACK or a completing ACK of the
   round has been cast - in the second round also before the suspend thread has taken
   the mutex, unless the voter takes it first - the suspend thread is waiting only
   while the signal for it is still on its way; and when that signal comes before the
   deadline the round does not end in a timeout.
   */
  lemma NoLostWakeup(s: State, actions: seq<Action>)
    requires Initial(s) && Runs(s, actions)
    ensures var end := Exec(s, actions);
            && (end.decided && end.waiter.Waiting? ==> SignalPending(end.voter))
            && (end.heard ==> end.waiter != Finished(true) && !end.waiter.TimedOut? && !end.waiter.Waiting?)
  {
    InvHolds(s, actions);
  }

  /** A round that is approved when the suspend thread looks ends there, without a wait; any other waits. */
  lemma AsksExactly(s: State)
    requires Enabled(s, Ask)
    ensures var count := s.table.Of(s.round);
            var after := Do(s, Ask);
            if count.acks >= count.expected then after.waiter == Finished(false) && after.mutex.Nobody?
            else after.waiter.Undecided? && after.mutex == s.mutex && Do(after, Wait).waiter.Waiting?
  {
  }

  lemma {:induction false} DecidedAtOnceStays(s: State, actions: seq<Action>)
    requires s.waiter == Finished(false) && Runs(s, actions)
    ensures Exec(s, actions).waiter == Finished(false) && Exec(s, actions).waited == s.waited
    decreases |actions|
  {
    if actions != [] {
      DecidedAtOnceStays(Do(s, actions[0]), actions[1..]);
    }
  }

  /** A wait ends in a timeout exactly when it is the deadline that ends it, and otherwise when a signal comes. */
  lemma WaitEndsAs(s: State, a: Action)
    requires s.waiter.Waiting? && Enabled(s, a)
    ensures Do(s, a).waiter == (if a.Expire? then TimedOut else if a.Signal? then Woken else Waiting)
    ensures a.Expire? ==> Do(s, a).waiter.TimedOut?
  {
  }

  predicate AtRest(s: State) {
    (s.waiter.Finished? || s.waiter.Waiting?) && s.voter.Idle?
  }

  /** The two threads never wait for each other: some step other than the deadline is possible until both are done. */
  lemma NeverStuck(s: State, actions: seq<Action>)
    requires Initial(s) && Runs(s, actions)
    ensures var end := Exec(s, actions);
            AtRest(end) || exists a :: Enabled(end, a) && !a.Expire? && !a.CastVote? && !a.Other? && !a.StaleSignal?
  {
    InvHolds(s, actions);
    var end := Exec(s, actions);
    var next := match end.voter
      case MustSignal(_) =>
        if end.mutex.Nobody? then TakeMutex
        else if end.waiter.Locked? then Begin else if end.waiter.Begun? then Ask else Wait
      case Signalling(_) => Signal
      case Signalled => GiveMutex
      case Idle => match end.waiter
                   case Outside => Lock
                   case Locked => Begin
                   case Begun => Ask
                   case Undecided => Wait
                   case _ => Resume;
    if !AtRest(end) {
      assert Enabled(end, next);
    }
  }

  /** No signal but the one under way. */
  predicate OnlySignal(actions: seq<Action>) {
    forall a :: a in actions ==> !a.CastVote? && !a.StaleSignal?
  }

  /** One vote cast before the wait, and what has become of its signal. */
  predicate OneVote(s: State) {
    && (s.voter.MustSignal? ==> !s.waiter.Woken? && (s.waited && s.waiter.Finished? ==> s.waiter.timeout))
    && (s.voter.Signalling? ==>
          && s.tookLate == !s.waiter.Outside?
          && !s.waiter.Locked? && !s.waiter.Begun? && !s.waiter.Undecided? && !s.waiter.Woken?
          && (s.waited && s.waiter.Finished? ==> s.waiter.timeout))
    && (s.voter.Signalled? || s.voter.Idle? ==>
          && (s.tookLate ==> s.waiter.Woken? || s.waiter.TimedOut? || s.waiter.Finished?)
          && (s.tookLate && s.inTime ==> s.waiter.Woken? || s.waiter == Finished(false))
          && (!(s.tookLate && s.inTime) ==> !s.waiter.Woken? && (s.waited && s.waiter.Finished? ==> s.waiter.timeout)))
  }

  lemma OneVoteStep(s: State, a: Action)
    requires Inv(s) && OneVote(s) && Enabled(s, a) && !a.CastVote? && !a.StaleSignal?
    ensures OneVote(Do(s, a))
  {
  }

  lemma {:induction false} OneVoteHolds(s: State, actions: seq<Action>)
    requires Inv(s) && OneVote(s) && Runs(s, actions) && OnlySignal(actions)
    ensures OneVote(Exec(s, actions))
    decreases |actions|
  {
    if actions != [] {
      assert actions[0] in actions;
      StepKeepsInv(s, actions[0]);
      OneVoteStep(s, actions[0]);
      OneVoteHolds(Do(s, actions[0]), actions[1..]);
    }
  }

  /**
   Which votes are heard: wherever the suspend thread is when a decisive vote is cast,
   if it then waits, the vote's signal ends that wait before the deadline exactly when
   the voter takes the mutex after the suspend thread has taken it, and signals before
   the deadline. A second-round NACK whose voter was faster is never heard.
   */
  lemma HeardExactly(s: State, vote: Action, actions: seq<Action>)
    requires Inv(s) && Enabled(s, vote) && vote.CastVote? && Decisive(s, vote.uid, vote.ack)
    requires !s.waiter.Woken? && !s.waiter.Finished?
    requires Runs(Do(s, vote), actions) && OnlySignal(actions)
    ensures var end := Exec(Do(s, vote), actions);
            end.waited && end.waiter.Finished? && end.voter.Idle? ==>
              (end.waiter == Finished(false) <==> end.tookLate && end.inTime)
  {
    StepKeepsInv(s, vote);
    OneVoteHolds(Do(s, vote), actions);
  }

  /**
   The lock matters: a vote for the second round whose voter takes the mutex first can
   signal nobody, and its NACK is then waited out until the deadline, whatever the table.
   */
  lemma EarlyNackIsNotHeard(table: Table, uid: string)
    requires uid in table.clients && !Approves(table, PrepareSuspend)
    ensures var s := State(PrepareSuspend, table, Nobody, Outside, Idle, false, false, false, false, false);
            var actions := [CastVote(uid, false), TakeMutex, Signal, GiveMutex, Lock, Begin, Ask, Wait];
            && Initial(s) && Runs(s, actions)
            && var end := Exec(s, actions);
               end.waiter.Waiting? && end.voter.Idle? && end.table == Step(table, Cast(uid, PrepareSuspend, false))
  {
    var s := State(PrepareSuspend, table, Nobody, Outside, Idle, false, false, false, false, false);
    var a := [CastVote(uid, false), TakeMutex, Signal, GiveMutex, Lock, Begin, Ask, Wait];
    var s1 := Do(s, a[0]);
    var s2 := Do(s1, a[1]);
    var s3 := Do(s2, a[2]);
    var s4 := Do(s3, a[3]);
    var s5 := Do(s4, a[4]);
    var s6 := Do(s5, a[5]);
    var s7 := Do(s6, a[6]);
    var s8 := Do(s7, a[7]);
    Unroll(s7, a[7..], s8);
    Unroll(s6, a[6..], s8);
    Unroll(s5, a[5..], s8);
    Unroll(s4, a[4..], s8);
    Unroll(s3, a[3..], s8);
    Unroll(s2, a[2..], s8);
    Unroll(s1, a[1..], s8);
    Unroll(s, a, s8);
  }

  lemma Unroll(s: State, actions: seq<Action>, end: State)
    requires actions != [] && Enabled(s, actions[0])
    requires Runs(Do(s, actions[0]), actions[1..]) && Exec(Do(s, actions[0]), actions[1..]) == end
    ensures Runs(s, actions) && Exec(s, actions) == end
  {
  }
}
