/** The legacy wake lock clients of src/pwrevents/suspend_ipc.c. */
module WakeLockClients {
  import opened Kernel

  datatype Client = Client(token: string, held: bool)

  class Registry {
    var clients: map<string, Client>
    const kernel: WakeLocks

    /** A client's kernel lock is held exactly while the client is registered and has asked for it. */
    ghost predicate Valid()
      reads this, kernel
    {
      forall id :: ClientLock(id) in kernel.held <==> kernel.supported && id in clients && clients[id].held
    }

    twostate predicate OthersUntouched()
      reads this, kernel
    {
      forall l: Lock :: !l.ClientLock? ==> (l in kernel.held <==> l in old(kernel.held))
    }

    constructor (kernel: WakeLocks)
      requires forall id :: ClientLock(id) !in kernel.held
      ensures Valid() && this.kernel == kernel && clients == map[]
    {
      clients, this.kernel := map[], kernel;
    }

    /** Removing an entry frees it, and freeing a client that holds its lock releases the lock. */
    method Remove(id: string)
      requires Valid()
      modifies this`clients, kernel
      ensures Valid() && OthersUntouched()
      ensures clients == old(clients) - {id}
    {
      if id in clients && clients[id].held {
        kernel.Release(ClientLock(id));
      }
      clients := clients - {id};
    }

    /** Registering again starts over: a lock held under the old registration is dropped. */
    method Register(id: string, token: string, reg: bool) returns (accepted: bool)
      requires Valid()
      modifies this`clients, kernel
      ensures Valid() && OthersUntouched()
      ensures accepted <==> id != ""
      ensures clients == if !accepted then old(clients)
                         else if reg then old(clients)[id := Client(token, false)]
                         else old(clients) - {id}
    {
      if id == "" {
        return false;
      }
      Remove(id);
      if reg {
        clients := clients[id := Client(token, false)];
        assert clients == old(clients)[id := Client(token, false)];
      }
      return true;
    }

    /** A caller that drops off the bus loses every client it registered, and their locks. */
    method CancelByToken(token: string)
      requires Valid()
      modifies this`clients, kernel
      ensures Valid() && OthersUntouched()
      ensures clients == map id | id in old(clients) && old(clients)[id].token != token :: old(clients)[id]
    {
      var todo := clients.Keys;
      while todo != {}
        invariant Valid() && OthersUntouched()
        invariant todo <= clients.Keys
        invariant clients == map id | id in old(clients) && (id in todo || old(clients)[id].token != token) ::
                               old(clients)[id]
      {
        var id :| id in todo;
        todo := todo - {id};
        if clients[id].token == token {
          Remove(id);
        }
      }
    }

    method SetWakeLock(id: string, isWakeup: bool) returns (found: bool)
      requires Valid()
      modifies this`clients, kernel
      ensures Valid() && OthersUntouched()
      ensures found == (id in old(clients))
      ensures clients == if found then old(clients)[id := old(clients)[id].(held := isWakeup)] else old(clients)
    {
      if id !in clients {
        return false;
      }
      if isWakeup && !clients[id].held {
        kernel.Take(ClientLock(id));
        clients := clients[id := clients[id].(held := true)];
      } else if !isWakeup && clients[id].held {
        kernel.Release(ClientLock(id));
        clients := clients[id := clients[id].(held := false)];
      }
      return true;
    }
  }
}

/**
 All the users of the kernel's wakelocks together: the activity roster, the
 legacy clients and the shutdown inhibitor. Handlers are atomic here.
 */
module PowerLocks {
  import opened Clock
  import opened Kernel
  import Activity
  import WakeLockClients

  datatype Event =
    | StartActivity(id: string, durationMs: nat)
    | StopActivity(id: string)
    | ExpireActivities
    | FreezeActivities
    | ThawActivities
    | RegisterClient(id: string, token: string, reg: bool)
    | CancelClients(token: string)
    | SetClientLock(id: string, isWakeup: bool)
    | InhibitForShutdown

  /** An event and the clock reading its handler makes. */
  datatype Timed = Timed(event: Event, now: Instant)

  ghost predicate ClockNeverGoesBack(events: seq<Timed>, from: int) {
    && (forall i :: 0 <= i < |events| ==> from <= events[i].now.Nanos())
    && (forall i, j :: 0 <= i < j < |events| ==> events[i].now.Nanos() <= events[j].now.Nanos())
  }

  class Daemon {
    const kernel: WakeLocks
    const activities: Activity.Roster
    const clients: WakeLockClients.Registry
    var shutdownInProgress: bool

    /** What the tables of the daemon say should be held. */
    ghost function Wanted(): set<Lock>
      reads this, activities, clients
    {
      (set a | a in activities.roster :: ActivityLock(a.id))
      + (set id | id in clients.clients && clients.clients[id].held :: ClientLock(id))
      + (if shutdownInProgress then {ShutdownLock} else {})
    }

    ghost predicate Valid()
      reads this, kernel, activities, clients
    {
      && activities.kernel == kernel && clients.kernel == kernel
      && activities.Valid() && clients.Valid()
      && (ShutdownLock in kernel.held <==> kernel.supported && shutdownInProgress)
    }

    constructor (supported: bool)
      ensures Valid() && fresh(kernel) && fresh(activities) && fresh(clients)
      ensures kernel.supported == supported && Wanted() == {}
    {
      var k := new WakeLocks(supported);
      var a := new Activity.Roster(k);
      var c := new WakeLockClients.Registry(k);
      kernel, activities, clients, shutdownInProgress := k, a, c, false;
    }

    /** The kernel holds exactly the locks the tables ask for, or none on a machine without them. */
    lemma HeldIsWanted()
      requires Valid()
      ensures kernel.held == if kernel.supported then Wanted() else {}
    {
      forall l: Lock ensures l in kernel.held <==> kernel.supported && l in Wanted() {
        match l
        case ActivityLock(id) =>
          if Activity.HasId(activities.roster, id) {
            var i :| 0 <= i < |activities.roster| && activities.roster[i].id == id;
            assert activities.roster[i] in activities.roster;
          }
        case ClientLock(id) =>
        case ShutdownLock =>
      }
    }

    method Inhibit()
      requires Valid()
      modifies this`shutdownInProgress, kernel
      ensures Valid() && shutdownInProgress
      ensures forall l :: l in old(kernel.held) ==> l in kernel.held
    {
      if shutdownInProgress {
        return;
      }
      shutdownInProgress := true;
      kernel.Take(ShutdownLock);
    }

    /** What one event does to the tables, each handler to its own. */
    twostate predicate Does(event: Event, now: Instant)
      reads this, activities, clients
    {
      && (event.StartActivity? ==>
            Activity.Roster.Started(old(activities.roster), activities.roster, event.id, event.durationMs, now,
                                    !old(activities.frozen)))
      && (event.StopActivity? ==> Activity.Removed(old(activities.roster), activities.roster, event.id))
      && (event.ExpireActivities? ==> activities.roster == Activity.Unexpired(old(activities.roster), now))
      && (!event.StartActivity? && !event.StopActivity? && !event.ExpireActivities? ==>
            activities.roster == old(activities.roster))
      && activities.frozen == (if event.ThawActivities? then false
                               else if event.FreezeActivities?
                               then old(activities.frozen)
                                    || forall a :: a in old(activities.roster) ==> now.Nanos() > a.end.Nanos()
                               else old(activities.frozen))
      && clients.clients == ClientsAfter(old(clients.clients), event)
      && shutdownInProgress == (old(shutdownInProgress) || event.InhibitForShutdown?)
    }

    static function ClientsAfter(table: map<string, WakeLockClients.Client>, event: Event)
      : map<string, WakeLockClients.Client>
    {
      match event
      case RegisterClient(id, token, reg) =>
        if id == "" then table
        else if reg then table[id := WakeLockClients.Client(token, false)] else table - {id}
      case CancelClients(token) => map id | id in table && table[id].token != token :: table[id]
      case SetClientLock(id, isWakeup) => if id in table then table[id := table[id].(held := isWakeup)] else table
      case _ => table
    }

    method Handle(event: Event, now: Instant)
      requires Valid() && activities.latestStart <= now.Nanos()
      modifies this`shutdownInProgress, kernel, activities, clients
      ensures Valid() && activities.latestStart <= now.Nanos()
      ensures Does(event, now)
    {
      match event
      case StartActivity(id, durationMs) =>
        var started := activities.Start(id, durationMs, now);
      case StopActivity(id) =>
        activities.Stop(id);
      case ExpireActivities =>
        activities.RemoveExpired(now);
      case FreezeActivities =>
        var clear := activities.Freeze(now);
      case ThawActivities =>
        activities.Thaw();
      case RegisterClient(id, token, reg) =>
        var accepted := clients.Register(id, token, reg);
      case CancelClients(token) =>
        clients.CancelByToken(token);
      case SetClientLock(id, isWakeup) =>
        var found := clients.SetWakeLock(id, isWakeup);
      case InhibitForShutdown =>
        Inhibit();
    }

    /**
     Over any run of handlers - registrations repeated, clients cancelled,
     activities replaced, expired or refused while frozen - the kernel's lock set
     is what the tables ask for, and a shutdown lock once taken is never released.
     */
    method HandleAll(events: seq<Timed>)
      requires Valid() && ClockNeverGoesBack(events, activities.latestStart)
      modifies this`shutdownInProgress, kernel, activities, clients
      ensures Valid()
      ensures kernel.held == if kernel.supported then Wanted() else {}
      ensures old(shutdownInProgress) ==> shutdownInProgress
    {
      for k := 0 to |events|
        invariant Valid()
        invariant k < |events| ==> activities.latestStart <= events[k].now.Nanos()
        invariant old(shutdownInProgress) ==> shutdownInProgress
      {
        Handle(events[k].event, events[k].now);
      }
      HeldIsWanted();
    }
  }
}
