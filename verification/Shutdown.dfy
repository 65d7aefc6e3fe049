/**
 The two-tiered shutdown sequence of src/pwrevents/shutdown.c, with its timers,
 its voting clients and the forced machineOff / machineReboot path.

 `Settle` says where one event takes the sequence once the dispatcher has come to
 rest; `Sequence` is the original's dispatcher and state functions proved
 against it.
 */
module Shutdown {
  import opened Wrappers

  datatype State = Idle | Apps | AppsProcess | Services | ServicesProcess | Action {
    function Rank(): nat {
      match this
      case Idle => 0
      case Apps => 1
      case AppsProcess => 2
      case Services => 3
      case ServicesProcess => 4
      case Action => 5
    }
  }

  datatype EventId = NoEvent | Init | Ack | Timeout

  datatype Forced = NotForced | Off | Reboot

  datatype Reply = NoRsp | Acked

  datatype Client = Client(name: string, reply: Reply)

  // ------------------------------------------------ where an event takes it

  /** The sequence at rest: state, ACKs counted, and whether the forced action has just been run. */
  datatype Rest = Rest(state: State, acks: nat, ran: bool)

  /** The applications are done: force at once, or ask the services unless there is none. */
  function AppsDone(acks: nat, services: nat, forced: Forced): Rest {
    if !forced.NotForced? then Rest(Idle, acks, true)
    else if services == 0 then Rest(Action, 0, false)
    else Rest(ServicesProcess, 0, false)
  }

  function Settle(state: State, acks: nat, e: EventId, apps: nat, services: nat, forced: Forced): Rest {
    var counted := if e.Ack? then acks + 1 else acks;
    match state
    case Idle =>
      if !e.Init? then Rest(Idle, acks, false)
      else if apps == 0 then AppsDone(0, services, forced)
      else Rest(AppsProcess, 0, false)
    case AppsProcess =>
      if counted >= apps || e.Timeout? then AppsDone(counted, services, forced)
      else Rest(AppsProcess, counted, false)
    case ServicesProcess =>
      if counted >= services || e.Timeout? then Rest(Action, counted, false)
      else Rest(ServicesProcess, counted, false)
    case _ => Rest(state, acks, false)
  }

  /** One event and the table sizes it finds; clients come and go freely between events. */
  datatype Stimulus = Stimulus(event: EventId, apps: nat, services: nat)

  function SettleAll(r: Rest, run: seq<Stimulus>): Rest
    decreases |run|
  {
    if run == [] then r
    else SettleAll(Settle(r.state, r.acks, run[0].event, run[0].apps, run[0].services, NotForced), run[1..])
  }

  function Timeouts(run: seq<Stimulus>): nat {
    if run == [] then 0 else (if run[0].event.Timeout? then 1 else 0) + Timeouts(run[1..])
  }

  /**
   A graceful sequence never goes back, and takes at most one timeout for the
   applications and one for the services, whatever ACKs arrive - duplicated,
   from the wrong table or missing - and whoever registers or leaves meanwhile.
   */
  lemma {:induction false} TwoTimeoutsSuffice(r: Rest, run: seq<Stimulus>)
    requires r.state.AppsProcess? || r.state.ServicesProcess? || r.state.Action?
    ensures var end := SettleAll(r, run).state;
            && end.Rank() >= r.state.Rank()
            && (end.AppsProcess? || end.ServicesProcess? || end.Action?)
            && (Timeouts(run) >= 1 ==> !end.AppsProcess?)
            && (Timeouts(run) >= 2 || (Timeouts(run) >= 1 && r.state.ServicesProcess?) ==> end.Action?)
    decreases |run|
  {
    if run != [] {
      TwoTimeoutsSuffice(Settle(r.state, r.acks, run[0].event, run[0].apps, run[0].services, NotForced), run[1..]);
    }
  }

  lemma InitiateReachesAction(apps: nat, services: nat, acks: nat, run: seq<Stimulus>)
    requires Timeouts(run) >= 2
    ensures SettleAll(Settle(Idle, acks, Init, apps, services, NotForced), run).state.Action?
  {
    TwoTimeoutsSuffice(Settle(Idle, acks, Init, apps, services, NotForced), run);
  }

  /** Without timeouts, as many ACKs as there are clients are enough, and fewer are not. */
  lemma {:induction false} AcksCarryApps(r: Rest, run: seq<Stimulus>, apps: nat)
    requires r.state.AppsProcess? && r.acks < apps
    requires forall s :: s in run ==> s.event.Ack? && s.apps == apps
    ensures |run| < apps - r.acks ==> SettleAll(r, run) == Rest(AppsProcess, r.acks + |run|, r.ran && run == [])
    ensures |run| >= apps - r.acks ==> SettleAll(r, run).state.Rank() > AppsProcess.Rank()
    decreases |run|
  {
    if run != [] {
      var next := Settle(r.state, r.acks, run[0].event, run[0].apps, run[0].services, NotForced);
      if next.state.AppsProcess? {
        AcksCarryApps(next, run[1..], apps);
      } else {
        TwoTimeoutsSuffice(next, run[1..]);
      }
    }
  }

  function AckCount(run: seq<Stimulus>): nat {
    if run == [] then 0 else (if run[0].event.Ack? then 1 else 0) + AckCount(run[1..])
  }

  /** The services tier: without timeouts it takes as many ACKs as there are services, and fewer are not enough. */
  lemma {:induction false} AcksCarryServices(r: Rest, run: seq<Stimulus>, services: nat)
    requires r.state.ServicesProcess? && r.acks < services
    requires forall s :: s in run ==> !s.event.Timeout? && s.services == services
    ensures var end := SettleAll(r, run);
            if r.acks + AckCount(run) < services
            then end.state.ServicesProcess? && end.acks == r.acks + AckCount(run)
            else end.state.Action?
    decreases |run|
  {
    if run != [] {
      var next := Settle(r.state, r.acks, run[0].event, run[0].apps, run[0].services, NotForced);
      assert run[0] in run;
      if next.state.ServicesProcess? {
        AcksCarryServices(next, run[1..], services);
      } else {
        ActionStays(next, run[1..]);
      }
    }
  }

  lemma {:induction false} ActionStays(r: Rest, run: seq<Stimulus>)
    requires r.state.Action?
    ensures SettleAll(r, run).state.Action?
    decreases |run|
  {
    if run != [] {
      ActionStays(Settle(r.state, r.acks, run[0].event, run[0].apps, run[0].services, NotForced), run[1..]);
    }
  }

  /** Both tiers from the first: the ACKs of all applications, then of all services, and nothing less. */
  lemma {:induction false} AcksCarryBoth(r: Rest, run: seq<Stimulus>, apps: nat, services: nat)
    requires r.state.AppsProcess? && r.acks < apps && services > 0
    requires forall s :: s in run ==> !s.event.Timeout? && s.apps == apps && s.services == services
    ensures var end, acks := SettleAll(r, run), r.acks + AckCount(run);
            if acks < apps then end.state.AppsProcess? && end.acks == acks
            else if acks < apps + services then end.state.ServicesProcess? && end.acks == acks - apps
            else end.state.Action?
    decreases |run|
  {
    if run != [] {
      var next := Settle(r.state, r.acks, run[0].event, run[0].apps, run[0].services, NotForced);
      assert run[0] in run;
      if next.state.AppsProcess? {
        AcksCarryBoth(next, run[1..], apps, services);
      } else {
        AcksCarryServices(next, run[1..], services);
      }
    }
  }

  /**
   From Idle, with applications and services registered and none coming or going, a
   graceful sequence without timeouts is in Action exactly when as many ACKs as there are
   clients in both tables have arrived.
   */
  lemma ActionTakesEveryone(acks: nat, run: seq<Stimulus>, apps: nat, services: nat)
    requires apps > 0 && services > 0
    requires forall s :: s in run ==> !s.event.Timeout? && s.apps == apps && s.services == services
    ensures SettleAll(Settle(Idle, acks, Init, apps, services, NotForced), run).state.Action?
            <==> AckCount(run) >= apps + services
  {
    AcksCarryBoth(Settle(Idle, acks, Init, apps, services, NotForced), run, apps, services);
  }

  /**
   Every forced request has been performed, or is the one waiting; together with
   its kind, none is lost, doubled or turned into the other.
   */
  ghost predicate Conserved(requested: seq<Forced>, performed: seq<Forced>, waiting: Forced) {
    && multiset(requested) == multiset(performed) + (if waiting.NotForced? then multiset{} else multiset{waiting})
    && NotForced !in requested
  }

  lemma ConservedSteps(requested: seq<Forced>, performed: seq<Forced>, waiting: Forced, action: Forced)
    requires Conserved(requested, performed, waiting) && !action.NotForced?
    ensures !waiting.NotForced? ==> Conserved(requested, performed + [waiting], NotForced)
    ensures Conserved(requested + [action], performed + [action], waiting)
    ensures waiting.NotForced? ==> Conserved(requested + [action], performed, action)
  {
  }

  // ---------------------------------------------------------------- the code

  /** The call to answer, if there is one. */
  function Pending(message: Option<nat>): seq<nat> {
    if message.Some? then [message.value] else []
  }

  /** Clients are being waited for. */
  predicate Waits(s: State) {
    s.AppsProcess? || s.ServicesProcess?
  }

  /** What a dispatch set out with, and where it is to end. */
  datatype Plan = Plan(goal: Rest, apps: nat, services: nat, forced: Forced, performed: seq<Forced>,
                       message: Option<nat>, answered: seq<nat>, inhibited: bool, delivering: nat)

  /** From each state the dispatcher passes through, what is left to happen leads to the goal. */
  predicate Heading(state: State, acks: nat, e: EventId, plan: Plan) {
    && (!plan.forced.NotForced? ==> state.Rank() <= AppsProcess.Rank())
    && match state
       case Apps =>
         plan.goal == if plan.apps == 0 then AppsDone(0, plan.services, plan.forced) else Rest(AppsProcess, 0, false)
       case Services => plan.goal == AppsDone(acks, plan.services, NotForced)
       case _ => plan.goal == Settle(state, acks, e, plan.apps, plan.services, plan.forced)
  }

  class Sequence {
    var state: State
    var applications: map<string, Client>
    var services: map<string, Client>
    var numAck: nat
    var numNack: nat
    var timeoutId: nat
    var live: set<nat>             // sources attached to the main loop
    var nextId: nat
    var forcedAction: Forced
    var message: Option<nat>       // the initiate call still to be answered
    var answered: seq<nat>
    var suspendInhibited: bool
    var performed: seq<Forced>     // nyx actions, in order
    ghost var requested: seq<Forced>

    ghost predicate Attached()
      reads this`live, this`nextId
    {
      nextId > 0 && forall id :: id in live ==> 0 < id < nextId
    }

    /** While in `at` its own timer is attached; no other is, but the one being delivered (0 for none). */
    ghost predicate TimersOf(at: State, delivering: nat)
      reads this`live, this`nextId, this`timeoutId
    {
      && Attached()
      && (Waits(at) ==> timeoutId in live)
      && (forall id :: id in live ==> id == delivering || (Waits(at) && id == timeoutId))
    }

    /** At rest between events, apart from a timer whose callback has not returned yet. */
    ghost predicate AtRest(delivering: nat)
      reads this
    {
      && (state.Idle? || state.Action? || Waits(state))
      && numNack == 0
      && TimersOf(state, delivering) && (Waits(state) ==> timeoutId != delivering)
      && (!forcedAction.NotForced? ==> state.AppsProcess?)
      && (state.Action? ==> message.None?)
    }

    /**
     Between events: no NACK has been counted, a waiting forced action is waiting for
     the applications, forced requests are conserved, and exactly one timer is
     attached while clients are waited for and none otherwise.
     */
    ghost predicate Valid()
      reads this
    {
      && AtRest(0)
      && Conserved(requested, performed, forcedAction)
      && (!forcedAction.NotForced? || !state.Idle? || performed != [] ==> suspendInhibited)
    }

    lemma OneTimer()
      requires Valid()
      ensures live == if Waits(state) then {timeoutId} else {}
    {
    }

    constructor ()
      ensures Valid() && state.Idle? && performed == [] == requested && applications == map[] == services
    {
      state, applications, services := Idle, map[], map[];
      numAck, numNack, timeoutId, live, nextId := 0, 0, 0, {}, 1;
      forcedAction, message, answered, suspendInhibited, performed := NotForced, None, [], false, [];
      requested := [];
    }

    method AddTimeout()
      requires Attached()
      modifies this`live, this`nextId, this`timeoutId
      ensures Attached() && timeoutId == old(nextId) && live == old(live) + {timeoutId}
    {
      timeoutId := nextId;
      nextId := nextId + 1;
      live := live + {timeoutId};
    }

    /** Removing a source that is no longer attached would be an error. */
    method RemoveSource(id: nat)
      requires id in live
      modifies this`live
      ensures live == old(live) - {id}
    {
      live := live - {id};
    }

    /** 1 ready, 0 not ready, -1 someone nacked. */
    method Readiness(clients: map<string, Client>) returns (r: int)
      ensures r == if numNack != 0 then -1 else if numAck >= |clients| then 1 else 0
    {
      if numNack == 0 {
        return if numAck >= |clients| then 1 else 0;
      }
      return -1;
    }

    static function Mark(table: map<string, Client>, uid: string, reply: Reply): (r: map<string, Client>)
      ensures r.Keys == table.Keys && |r| == |table|
    {
      if uid in table then
        assert table[uid := table[uid].(reply := reply)].Keys == table.Keys;
        table[uid := table[uid].(reply := reply)]
      else table
    }

    /** The client of an ACK is marked in whichever table it was looked up in; its ACK counts in any case. */
    method ClientVote(uid: string, service: bool)
      modifies this`applications, this`services, this`numAck
      ensures numAck == old(numAck) + 1
      ensures applications == if service then old(applications) else Mark(old(applications), uid, Acked)
      ensures services == if service then Mark(old(services), uid, Acked) else old(services)
    {
      if service {
        services := Mark(services, uid, Acked);
      } else {
        applications := Mark(applications, uid, Acked);
      }
      numAck := numAck + 1;
    }

    method VoteInit()
      modifies this`applications, this`services, this`numAck, this`numNack
      ensures numAck == 0 && numNack == 0
      ensures applications == map uid | uid in old(applications) :: old(applications)[uid].(reply := NoRsp)
      ensures services == map uid | uid in old(services) :: old(services)[uid].(reply := NoRsp)
      ensures |applications| == |old(applications)| && |services| == |old(services)|
    {
      applications := map uid | uid in applications :: applications[uid].(reply := NoRsp);
      services := map uid | uid in services :: services[uid].(reply := NoRsp);
      numAck, numNack := 0, 0;
      assert applications.Keys == old(applications).Keys && services.Keys == old(services).Keys;
    }

    /** Puts the machine back to idle by hand, ahead of the dispatcher's monotonicity assertion. */
    method ForcedActionRun()
      modifies this`forcedAction, this`state, this`performed, this`suspendInhibited
      ensures forcedAction.NotForced? && state.Idle? && suspendInhibited
      ensures performed == old(performed) + [old(forcedAction)]
    {
      var action := forcedAction;
      forcedAction := NotForced;
      state := Idle;
      MachineForce(action);
    }

    method MachineForce(action: Forced)
      modifies this`performed, this`suspendInhibited
      ensures performed == old(performed) + [action] && suspendInhibited
    {
      suspendInhibited := true;
      performed := performed + [action];
    }

    /**
     The dispatcher's loop, about to enter `at`: on course for the plan's goal while
     running, and there once stopped; the timers those of `at`.
     */
    ghost predicate OnCourse(at: State, running: bool, id: EventId, plan: Plan)
      reads this
    {
      && numNack == 0 && TimersOf(at, plan.delivering) && plan.delivering < nextId
      && |applications| == plan.apps && |services| == plan.services
      && (plan.inhibited ==> suspendInhibited)
      && (if running
          then && performed == plan.performed && forcedAction == plan.forced
               && message == plan.message && answered == plan.answered
               && Heading(at, numAck, id, plan)
               && (Waits(at) ==> (timeoutId == plan.delivering <==> id.Timeout?))
          else && at == plan.goal.state && numAck == plan.goal.acks
               && performed == (if plan.goal.ran then plan.performed + [plan.forced] else plan.performed)
               && forcedAction == (if plan.goal.ran then NotForced else plan.forced)
               && (if at.Action? then message.None? && answered == plan.answered + Pending(plan.message)
                   else message == plan.message && answered == plan.answered)
               && (Waits(at) ==> timeoutId != plan.delivering))
    }

    method StateIdle(id: EventId, ghost plan: Plan) returns (running: bool, next: State)
      requires state.Idle? && OnCourse(state, true, id, plan)
      modifies this`applications, this`services, this`numAck, this`numNack
      ensures OnCourse(next, running, id, plan)
      ensures next.Rank() >= state.Rank() && (running ==> next.Rank() > state.Rank())
    {
      next := state;
      match id {
        case Init =>
          VoteInit();
          next := Apps;
          return true, next;
        case _ =>
          return false, next;
      }
    }

    method StateApps(ghost on: EventId, ghost plan: Plan) returns (running: bool, id: EventId, next: State)
      requires state.Apps? && OnCourse(state, true, on, plan)
      modifies this`numAck, this`numNack, this`live, this`nextId, this`timeoutId
      ensures OnCourse(next, running, id, plan) && next.Rank() > state.Rank()
    {
      numAck, numNack := 0, 0;
      AddTimeout();
      return true, NoEvent, AppsProcess;
    }

    /** What the event itself contributes: an ACK is counted, and a timeout overrides the count. */
    method TakeEvent(id: EventId, uid: string, service: bool, ghost plan: Plan) returns (timeout: bool)
      requires Waits(state) && OnCourse(state, true, id, plan)
      modifies this`applications, this`services, this`numAck
      ensures timeout == id.Timeout? && numAck == old(numAck) + if id.Ack? then 1 else 0
      ensures OnCourse(state, true, if id.Timeout? then Timeout else NoEvent, plan)
    {
      timeout := false;
      match id {
        case Ack => ClientVote(uid, service);
        case Timeout => timeout := true;
        case _ =>
      }
    }

    method StateAppsProcess(id: EventId, uid: string, service: bool, ghost plan: Plan)
      returns (running: bool, next: State)
      requires state.AppsProcess? && OnCourse(state, true, id, plan)
      modifies this
      ensures OnCourse(next, running, id, plan)
      ensures next.Rank() >= state.Rank() && (running ==> next.Rank() > old(state).Rank())
      ensures requested == old(requested)
    {
      var timeout := TakeEvent(id, uid, service, plan);
      var readiness := Readiness(applications);
      if !forcedAction.NotForced? && readiness < 0 {
        readiness := 0;
      }
      if readiness > 0 || timeout {
        running, next := AppsFinished(id, plan);
        return;
      } else if readiness < 0 {
        return false, Idle;
      }
      return false, AppsProcess;
    }

    method AppsFinished(id: EventId, ghost plan: Plan) returns (running: bool, next: State)
      requires state.AppsProcess? && numNack == 0
      requires OnCourse(state, true, if id.Timeout? then Timeout else NoEvent, plan)
      requires numAck >= |applications| || id.Timeout?
      modifies this`timeoutId, this`live, this`forcedAction, this`state, this`performed, this`suspendInhibited
      ensures OnCourse(next, running, id, plan)
      ensures next.Rank() >= state.Rank() && (running ==> next.Rank() > AppsProcess.Rank())
    {
      if !id.Timeout? {
        RemoveSource(timeoutId);
      }
      timeoutId := 0;
      if !forcedAction.NotForced? {
        ForcedActionRun();
        return false, Idle;
      }
      return true, Services;
    }

    method StateServices(ghost on: EventId, ghost plan: Plan) returns (running: bool, id: EventId, next: State)
      requires state.Services? && OnCourse(state, true, on, plan)
      modifies this`numAck, this`numNack, this`live, this`nextId, this`timeoutId
      ensures OnCourse(next, running, id, plan) && next.Rank() > state.Rank()
    {
      numAck, numNack := 0, 0;
      AddTimeout();
      return true, NoEvent, ServicesProcess;
    }

    method StateServicesProcess(id: EventId, uid: string, service: bool, ghost plan: Plan)
      returns (running: bool, next: State)
      requires state.ServicesProcess? && OnCourse(state, true, id, plan)
      modifies this`applications, this`services, this`numAck, this`live
      ensures OnCourse(next, running, id, plan)
      ensures next.Rank() >= state.Rank() && (running ==> next.Rank() > state.Rank())
    {
      var timeout := TakeEvent(id, uid, service, plan);
      var readiness := Readiness(services);
      if readiness > 0 || timeout {
        next := Action;
        RemoveSource(timeoutId);
        return true, next;
      } else if readiness < 0 {
        return false, Idle;
      }
      return false, ServicesProcess;
    }

    method StateAction(ghost on: EventId, ghost plan: Plan) returns (running: bool, next: State)
      requires state.Action? && OnCourse(state, true, on, plan)
      modifies this`message, this`answered
      ensures !running && next.Action? && OnCourse(next, running, NoEvent, plan)
    {
      next := state;
      if message.Some? {
        answered := answered + [message.value];
        message := None;
      }
      running := false;
    }

    /**
     One turn of the dispatcher. The assertion is the original's: a state function
     never moves the sequence backwards, for the forced path has reset the current
     state before it returns.
     */
    method Turn(event: EventId, uid: string, service: bool, ghost plan: Plan) returns (running: bool, id: EventId)
      requires OnCourse(state, true, event, plan)
      modifies this
      ensures OnCourse(state, running, id, plan) && requested == old(requested)
      ensures running ==> state.Rank() > old(state).Rank()
    {
      var next;
      if Waits(state) {
        running, next := TurnWaiting(event, uid, service, plan);
        id := event;
      } else {
        running, id, next := TurnEntering(event, plan);
      }
      assert next.Rank() >= state.Rank();
      state := next;
    }

    method TurnWaiting(id: EventId, uid: string, service: bool, ghost plan: Plan) returns (running: bool, next: State)
      requires Waits(state) && OnCourse(state, true, id, plan)
      modifies this
      ensures OnCourse(next, running, id, plan) && requested == old(requested)
      ensures next.Rank() >= state.Rank() && (running ==> next.Rank() > old(state).Rank())
    {
      match state {
        case AppsProcess => running, next := StateAppsProcess(id, uid, service, plan);
        case ServicesProcess => running, next := StateServicesProcess(id, uid, service, plan);
      }
    }

    method TurnEntering(event: EventId, ghost plan: Plan) returns (running: bool, id: EventId, next: State)
      requires !Waits(state) && OnCourse(state, true, event, plan)
      modifies this
      ensures OnCourse(next, running, id, plan) && requested == old(requested)
      ensures next.Rank() >= state.Rank() && (running ==> next.Rank() > old(state).Rank())
    {
      id := event;
      match state {
        case Idle => running, next := StateIdle(event, plan);
        case Apps => running, id, next := StateApps(event, plan);
        case Services => running, id, next := StateServices(event, plan);
        case Action => running, next := StateAction(event, plan);
      }
    }

    /** Runs the state functions until one says stop. */
    method Dispatch(event: EventId, uid: string, service: bool, ghost delivering: nat)
      requires numNack == 0 && (state.Idle? || state.Action? || Waits(state))
      requires TimersOf(state, delivering)
      requires !forcedAction.NotForced? ==> state.AppsProcess? || (state.Idle? && event.Init?)
      requires if event.Timeout? then Waits(state) && delivering == timeoutId else delivering == 0
      modifies this
      ensures AtRest(delivering)
      ensures var goal := Settle(old(state), old(numAck), event,
                                 |old(applications)|, |old(services)|, old(forcedAction));
              && state == goal.state && numAck == goal.acks
              && performed == (if goal.ran then old(performed) + [old(forcedAction)] else old(performed))
              && forcedAction == (if goal.ran then NotForced else old(forcedAction))
      ensures if state.Action? then answered == old(answered) + Pending(old(message))
              else message == old(message) && answered == old(answered)
      ensures |applications| == |old(applications)| && |services| == |old(services)|
      ensures requested == old(requested) && (old(suspendInhibited) ==> suspendInhibited)
    {
      var id := event;
      var running := true;
      ghost var plan := Plan(Settle(state, numAck, event, |applications|, |services|, forcedAction),
                             |applications|, |services|, forcedAction, performed,
                             message, answered, suspendInhibited, delivering);
      while running
        invariant OnCourse(state, running, id, plan)
        invariant requested == old(requested)
        decreases if running then 6 - state.Rank() else 0
      {
        running, id := Turn(id, uid, service, plan);
      }
    }

    // ------------------------------------------------------------ bus and timer

    /** A second initiate replaces the call to answer; in Action it is answered at once. */
    method InitiateShutdown(call: nat)
      requires Valid()
      modifies this
      ensures Valid() && suspendInhibited
      ensures state == Settle(old(state), old(numAck), Init,
                              |old(applications)|, |old(services)|, old(forcedAction)).state
      ensures if state.Action? then answered == old(answered) + [call]
              else message == Some(call) && answered == old(answered)
      ensures requested == old(requested)
      ensures old(state).Idle? && old(applications) != map[] ==> state.AppsProcess? && numAck == 0
      ensures old(state).Idle? && old(applications) == map[] && old(forcedAction).NotForced? ==>
                numAck == 0 && state == if old(services) == map[] then Action else ServicesProcess
    {
      suspendInhibited := true;
      message := Some(call);
      Dispatch(Init, "", false, 0);
    }

    /** An ACK counts once a client of that id is found; nothing checks that it is the first one. */
    method ClientAck(uid: string, service: bool) returns (found: bool)
      requires Valid()
      modifies this
      ensures Valid() && requested == old(requested)
      ensures found == (uid in if service then old(services) else old(applications))
      ensures found ==> var goal := Settle(old(state), old(numAck), Ack,
                                           |old(applications)|, |old(services)|, old(forcedAction));
                        state == goal.state && numAck == goal.acks
      ensures !found ==> unchanged(this)
      ensures found && old(state).AppsProcess? ==>
                if old(numAck) + 1 < |old(applications)| then state.AppsProcess? && numAck == old(numAck) + 1
                else if !old(forcedAction).NotForced?
                then state.Idle? && performed == old(performed) + [old(forcedAction)]
                else numAck == 0 && state == if old(services) == map[] then Action else ServicesProcess
      ensures found && old(state).ServicesProcess? ==>
                && numAck == old(numAck) + 1
                && state == if old(numAck) + 1 < |old(services)| then ServicesProcess else Action
    {
      if uid !in (if service then services else applications) {
        return false;
      }
      Dispatch(Ack, uid, service, 0);
      return true;
    }

    /** The 15 second timer: whatever is waiting does not wait any longer. */
    method TimerFires(id: nat)
      requires Valid() && id in live
      modifies this
      ensures Valid() && requested == old(requested)
      ensures !old(forcedAction).NotForced? ==> performed == old(performed) + [old(forcedAction)] && state.Idle?
      ensures old(forcedAction).NotForced? ==> state.Rank() > old(state).Rank() && performed == old(performed)
      ensures old(state).ServicesProcess? ==> state.Action? && answered == old(answered) + Pending(old(message))
      ensures old(state).AppsProcess? && old(forcedAction).NotForced? ==>
                numAck == 0 && state == if old(services) == map[] then Action else ServicesProcess
    {
      Dispatch(Timeout, "", false, id);
      live := live - {id};
    }

    /**
     machineOff and machineReboot: at once when a sequence or another forced action
     is in flight or no application is registered, otherwise after the
     applications have been told.
     */
    method ForceMachine(action: Forced)
      requires Valid() && !action.NotForced?
      modifies this
      ensures Valid() && suspendInhibited
      ensures requested == old(requested) + [action]
      ensures var waits := old(state).Idle? && old(applications) != map[];
              if waits then forcedAction == action && state.AppsProcess? && performed == old(performed)
              else performed == old(performed) + [action] && state == old(state) && forcedAction == old(forcedAction)
    {
      ConservedSteps(requested, performed, forcedAction, action);
      suspendInhibited := true;
      requested := requested + [action];
      if !state.Idle? || !forcedAction.NotForced? || |applications| == 0 {
        MachineForce(action);
        return;
      }
      NotifyFirst(action);
    }

    method NotifyFirst(action: Forced)
      requires AtRest(0) && state.Idle? && forcedAction.NotForced? && |applications| > 0 && !action.NotForced?
      modifies this
      ensures AtRest(0) && state.AppsProcess? && forcedAction == action
      ensures performed == old(performed) && requested == old(requested)
      ensures old(suspendInhibited) ==> suspendInhibited
    {
      forcedAction := action;
      Dispatch(Init, "", false, 0);
    }

    method Register(uid: string, name: string, service: bool)
      requires Valid()
      modifies this`applications, this`services
      ensures Valid()
      ensures applications == if service then old(applications) else old(applications)[uid := Client(name, NoRsp)]
      ensures services == if service then old(services)[uid := Client(name, NoRsp)] else old(services)
    {
      if service {
        services := services[uid := Client(name, NoRsp)];
      } else {
        applications := applications[uid := Client(name, NoRsp)];
      }
    }

    /** Whoever leaves is no longer waited for, but the sequence only looks again at its next event. */
    method CancelRegistration(uid: string)
      requires Valid()
      modifies this`applications, this`services
      ensures Valid() && applications == old(applications) - {uid} && services == old(services) - {uid}
      ensures state == old(state) && numAck == old(numAck) && live == old(live)
    {
      applications := applications - {uid};
      services := services - {uid};
    }

    /** Some client of that name, whichever the table yields first. */
    static method FindByName(table: map<string, Client>, name: string) returns (found: Option<string>)
      ensures found.Some? ==> found.value in table && table[found.value].name == name
      ensures found.None? ==> forall uid :: uid in table ==> table[uid].name != name
    {
      var todo := table.Keys;
      while todo != {}
        invariant todo <= table.Keys
        invariant forall uid :: uid in table && uid !in todo ==> table[uid].name != name
      {
        var uid :| uid in todo;
        if table[uid].name == name {
          return Some(uid);
        }
        todo := todo - {uid};
      }
      return None;
    }

    /**
     Cancelling by name looks the name up in both tables but removes from the
     services only: an application stays registered, and stays waited for.
     */
    method CancelByName(name: string)
      requires Valid()
      modifies this`services
      ensures Valid() && applications == old(applications)
      ensures forall uid :: uid in services ==> uid in old(services) && services[uid] == old(services)[uid]
      ensures forall uid :: uid in old(services) && uid !in services ==>
                old(services)[uid].name == name || (uid in applications && applications[uid].name == name)
      ensures (exists uid :: uid in old(services) && old(services)[uid].name == name) ==>
                exists uid :: uid in old(services) && uid !in services
    {
      var application := FindByName(applications, name);
      if application.Some? {
        services := services - {application.value};
      }
      var service := FindByName(services, name);
      if service.Some? {
        services := services - {service.value};
        assert service.value in old(services) && service.value !in services;
      }
    }
  }
}
