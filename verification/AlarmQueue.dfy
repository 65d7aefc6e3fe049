/** The legacy alarm queue of src/alarms/alarm.c, sorted by expiry. */
module AlarmQueue {

  datatype Alarm = Alarm(id: nat, key: string, calendar: bool, expiry: int, service: string)

  predicate Sorted(queue: seq<Alarm>) {
    forall i, j :: 0 <= i < j < |queue| ==> queue[i].expiry <= queue[j].expiry
  }

  predicate IdsDistinct(queue: seq<Alarm>) {
    forall i, j :: 0 <= i < j < |queue| ==> queue[i].id != queue[j].id
  }

  /** The alarms not due yet, in order. */
  function StillPending(queue: seq<Alarm>, now: int): seq<Alarm> {
    if queue == [] then []
    else (if queue[0].expiry > now then [queue[0]] else []) + StillPending(queue[1..], now)
  }

  function Due(queue: seq<Alarm>, now: int): seq<Alarm> {
    if queue == [] then []
    else (if queue[0].expiry <= now then [queue[0]] else []) + Due(queue[1..], now)
  }

  lemma {:induction false} SplitMembers(queue: seq<Alarm>, now: int)
    ensures forall a :: a in StillPending(queue, now) <==> a in queue && a.expiry > now
    ensures forall a :: a in Due(queue, now) <==> a in queue && a.expiry <= now
  {
    if queue != [] {
      SplitMembers(queue[1..], now);
      assert queue == [queue[0]] + queue[1..];
    }
  }

  lemma {:induction false} SplitConserves(queue: seq<Alarm>, now: int)
    ensures multiset(queue) == multiset(StillPending(queue, now)) + multiset(Due(queue, now))
  {
    if queue != [] {
      SplitConserves(queue[1..], now);
      assert queue == [queue[0]] + queue[1..];
    }
  }

  /** Nothing is lost and nothing fires early or twice: what was there is queued still or has just been notified. */
  ghost predicate Conserves(before: seq<Alarm>, after: seq<Alarm>, notified: seq<Alarm>, now: int) {
    && multiset(before) == multiset(after) + multiset(notified)
    && (forall a :: a in after ==> a.expiry > now)
    && (forall a :: a in notified ==> a.expiry <= now)
  }

  /** A queue is sorted exactly when its tail is and its head is due no later. */
  lemma ConsSorted(a: Alarm, queue: seq<Alarm>)
    ensures Sorted([a] + queue) <==> Sorted(queue) && forall b :: b in queue ==> a.expiry <= b.expiry
  {
    var all := [a] + queue;
    assert forall i :: 0 < i < |all| ==> all[i] == queue[i - 1];
    if Sorted(all) {
      forall i, j | 0 <= i < j < |queue| ensures queue[i].expiry <= queue[j].expiry {
        assert all[i + 1].expiry <= all[j + 1].expiry;
      }
      forall b | b in queue ensures a.expiry <= b.expiry {
        var i :| 0 <= i < |queue| && queue[i] == b;
        assert all[0].expiry <= all[i + 1].expiry;
      }
    }
  }

  lemma ConsIds(a: Alarm, queue: seq<Alarm>)
    ensures IdsDistinct([a] + queue) <==> IdsDistinct(queue) && forall b :: b in queue ==> a.id != b.id
  {
    var all := [a] + queue;
    assert forall i :: 0 < i < |all| ==> all[i] == queue[i - 1];
    if IdsDistinct(all) {
      forall i, j | 0 <= i < j < |queue| ensures queue[i].id != queue[j].id {
        assert all[i + 1].id != all[j + 1].id;
      }
      forall b | b in queue ensures a.id != b.id {
        var i :| 0 <= i < |queue| && queue[i] == b;
        assert all[0].id != all[i + 1].id;
      }
    }
  }

  lemma {:induction false} PendingSnoc(queue: seq<Alarm>, x: Alarm, now: int)
    ensures StillPending(queue + [x], now) == StillPending(queue, now) + (if x.expiry > now then [x] else [])
  {
    var all, last := queue + [x], if x.expiry > now then [x] else [];
    if queue == [] {
      assert all == [x] && all[1..] == [];
    } else {
      var first := if queue[0].expiry > now then [queue[0]] else [];
      assert all[0] == queue[0] && all[1..] == queue[1..] + [x];
      PendingSnoc(queue[1..], x, now);
      assert first + (StillPending(queue[1..], now) + last) == (first + StillPending(queue[1..], now)) + last;
    }
  }

  lemma {:induction false} DueSnoc(queue: seq<Alarm>, x: Alarm, now: int)
    ensures Due(queue + [x], now) == Due(queue, now) + (if x.expiry <= now then [x] else [])
  {
    var all, last := queue + [x], if x.expiry <= now then [x] else [];
    if queue == [] {
      assert all == [x] && all[1..] == [];
    } else {
      var first := if queue[0].expiry <= now then [queue[0]] else [];
      assert all[0] == queue[0] && all[1..] == queue[1..] + [x];
      DueSnoc(queue[1..], x, now);
      assert first + (Due(queue[1..], now) + last) == (first + Due(queue[1..], now)) + last;
    }
  }

  lemma {:induction false} PendingKeepsShape(queue: seq<Alarm>, now: int)
    ensures Sorted(queue) ==> Sorted(StillPending(queue, now))
    ensures IdsDistinct(queue) ==> IdsDistinct(StillPending(queue, now))
  {
    if queue != [] {
      assert queue == [queue[0]] + queue[1..];
      PendingKeepsShape(queue[1..], now);
      SplitMembers(queue[1..], now);
      ConsSorted(queue[0], queue[1..]);
      ConsSorted(queue[0], StillPending(queue[1..], now));
      ConsIds(queue[0], queue[1..]);
      ConsIds(queue[0], StillPending(queue[1..], now));
    }
  }

  /** A place for the alarm that keeps the queue sorted: after every alarm due no later. */
  function Insert(queue: seq<Alarm>, a: Alarm): seq<Alarm> {
    if queue == [] || a.expiry < queue[0].expiry then [a] + queue
    else [queue[0]] + Insert(queue[1..], a)
  }

  lemma {:induction false} InsertAdds(queue: seq<Alarm>, a: Alarm)
    ensures multiset(Insert(queue, a)) == multiset(queue) + multiset{a}
    ensures forall b :: b in Insert(queue, a) <==> b in queue || b == a
  {
    if queue != [] && a.expiry >= queue[0].expiry {
      assert queue == [queue[0]] + queue[1..];
      InsertAdds(queue[1..], a);
    }
  }

  lemma {:induction false} InsertSorts(queue: seq<Alarm>, a: Alarm)
    requires Sorted(queue)
    ensures Sorted(Insert(queue, a))
  {
    if queue != [] {
      assert queue == [queue[0]] + queue[1..];
      ConsSorted(queue[0], queue[1..]);
      if a.expiry < queue[0].expiry {
        ConsSorted(a, queue);
      } else {
        InsertSorts(queue[1..], a);
        InsertAdds(queue[1..], a);
        ConsSorted(queue[0], Insert(queue[1..], a));
      }
    }
  }

  function Sort(queue: seq<Alarm>): seq<Alarm> {
    if queue == [] then [] else Insert(Sort(queue[..|queue| - 1]), queue[|queue| - 1])
  }

  lemma {:induction false} SortSorts(queue: seq<Alarm>)
    ensures Sorted(Sort(queue)) && multiset(Sort(queue)) == multiset(queue)
  {
    if queue != [] {
      var n := |queue| - 1;
      assert queue == queue[..n] + [queue[n]];
      SortSorts(queue[..n]);
      InsertAdds(Sort(queue[..n]), queue[n]);
      InsertSorts(Sort(queue[..n]), queue[n]);
    }
  }

  lemma SameMembers(a: seq<Alarm>, b: seq<Alarm>)
    requires multiset(a) == multiset(b)
    ensures forall x :: x in a <==> x in b
  {
    forall x ensures x in a <==> x in b {
      assert x in a <==> x in multiset(a);
    }
  }

  function ShiftOne(a: Alarm, delta: int): Alarm {
    if a.calendar then a else a.(expiry := a.expiry + delta)
  }

  function ShiftAll(queue: seq<Alarm>, delta: int): (r: seq<Alarm>)
    ensures |r| == |queue| && forall i :: 0 <= i < |queue| ==> r[i] == ShiftOne(queue[i], delta)
  {
    seq(|queue|, i requires 0 <= i < |queue| => ShiftOne(queue[i], delta))
  }

  /** How a clock step leaves the queue: relative alarms move with the clock, and the order is restored. */
  function Recalculated(queue: seq<Alarm>, delta: int): seq<Alarm> {
    if delta == 0 then queue else Sort(ShiftAll(queue, delta))
  }

  lemma RecalculatedMembers(queue: seq<Alarm>, delta: int)
    ensures forall b :: b in Recalculated(queue, delta) <==> exists a :: a in queue && b == ShiftOne(a, delta)
    ensures Sorted(queue) ==> Sorted(Recalculated(queue, delta))
  {
    var moved := ShiftAll(queue, delta);
    forall b ensures b in moved <==> exists a :: a in queue && b == ShiftOne(a, delta) {
      if b in moved {
        var i :| 0 <= i < |moved| && moved[i] == b;
        assert queue[i] in queue;
      }
      if a :| a in queue && b == ShiftOne(a, delta) {
        var i :| 0 <= i < |queue| && queue[i] == a;
        assert moved[i] == b;
      }
    }
    if delta == 0 {
      assert moved == queue;
    } else {
      SortSorts(moved);
      SameMembers(Sort(moved), moved);
    }
  }

  /** What is queued after a clock step was queued before it. */
  lemma QueuedBefore(queue: seq<Alarm>, delta: int, now: int, moved: Alarm) returns (a: Alarm)
    requires moved in StillPending(Recalculated(queue, delta), now)
    ensures a in queue && moved == ShiftOne(a, delta) && moved.expiry > now
  {
    SplitMembers(Recalculated(queue, delta), now);
    RecalculatedMembers(queue, delta);
    a :| a in queue && moved == ShiftOne(a, delta);
  }

  /** And what is not due after it stays queued. */
  lemma QueuedAfter(queue: seq<Alarm>, a: Alarm, delta: int, now: int)
    requires a in queue && ShiftOne(a, delta).expiry > now
    ensures ShiftOne(a, delta) in StillPending(Recalculated(queue, delta), now)
  {
    RecalculatedMembers(queue, delta);
    SplitMembers(Recalculated(queue, delta), now);
  }

  /** Identities survive too, for moving an alarm does not change its id. */
  lemma RecalculatedIds(queue: seq<Alarm>, delta: int)
    requires IdsDistinct(queue)
    ensures IdsDistinct(Recalculated(queue, delta))
  {
    if delta != 0 {
      var moved := ShiftAll(queue, delta);
      assert IdsDistinct(moved);
      SortSorts(moved);
      PermutationKeepsIds(moved, Sort(moved));
    }
  }

  lemma PermutationKeepsIds(a: seq<Alarm>, b: seq<Alarm>)
    requires multiset(a) == multiset(b) && IdsDistinct(a)
    ensures IdsDistinct(b)
  {
    forall i, j | 0 <= i < j < |b| ensures b[i].id != b[j].id {
      assert b == b[..i] + [b[i]] + b[i + 1..j] + [b[j]] + b[j + 1..];
      var pair := multiset{b[i], b[j]};
      assert multiset(b) == multiset(b[..i]) + multiset{b[i]} + multiset(b[i + 1..j])
                            + multiset{b[j]} + multiset(b[j + 1..]);
      assert pair <= multiset(a);
      if b[i] == b[j] {
        OnceOnly(a, b[i]);
      } else {
        assert b[i] in multiset(a) && b[j] in multiset(a);
        var k :| 0 <= k < |a| && a[k] == b[i];
        var l :| 0 <= l < |a| && a[l] == b[j];
      }
    }
  }

  lemma {:induction false} OnceOnly(a: seq<Alarm>, x: Alarm)
    requires IdsDistinct(a)
    ensures multiset(a)[x] <= 1
  {
    if a != [] {
      assert a == [a[0]] + a[1..];
      OnceOnly(a[1..], x);
      ConsIds(a[0], a[1..]);
      assert a[0] == x ==> x !in a[1..];
    }
  }

  class Queue {
    var alarms: seq<Alarm>
    var seqId: nat
    var notified: seq<Alarm>

    /** Sorted, with distinct ids all below the next one to be given out. */
    predicate Valid()
      reads this
    {
      Sorted(alarms) && IdsDistinct(alarms) && forall a :: a in alarms ==> a.id < seqId
    }

    constructor ()
      ensures Valid() && alarms == [] && seqId == 0 && notified == []
    {
      alarms, seqId, notified := [], 0, [];
    }

    method RecalculateAlarms(delta: int)
      requires Valid()
      modifies this`alarms
      ensures Valid() && alarms == Recalculated(old(alarms), delta)
      ensures multiset(alarms) == multiset(ShiftAll(old(alarms), delta))
    {
      if delta != 0 {
        var k := 0;
        while k < |alarms|
          invariant 0 <= k <= |alarms| == |old(alarms)|
          invariant forall i :: 0 <= i < |alarms| ==>
                      alarms[i] == if i < k then ShiftOne(old(alarms)[i], delta) else old(alarms)[i]
        {
          if !alarms[k].calendar {
            alarms := alarms[k := alarms[k].(expiry := alarms[k].expiry + delta)];
          }
          k := k + 1;
        }
        assert alarms == ShiftAll(old(alarms), delta);
        SortSorts(alarms);
        alarms := Sort(alarms);
      }
      RecalculatedIds(old(alarms), delta);
      RecalculatedMembers(old(alarms), delta);
      assert delta == 0 ==> ShiftAll(old(alarms), delta) == old(alarms);
    }

    /** Fires every alarm that is due, wherever it is in the queue, and keeps the others. */
    method NotifyAlarms(now: int)
      requires Valid()
      modifies this`alarms, this`notified
      ensures Valid() && alarms == StillPending(old(alarms), now)
      ensures notified == old(notified) + Due(old(alarms), now)
      ensures Conserves(old(alarms), alarms, notified[|old(notified)|..], now)
    {
      PendingKeepsShape(alarms, now);
      SplitConserves(alarms, now);
      SplitMembers(alarms, now);
      var kept, due := Walk(now);
      assert (notified + due)[|notified|..] == due;
      alarms := kept;
      notified := notified + due;
    }

    method Walk(now: int) returns (kept: seq<Alarm>, due: seq<Alarm>)
      ensures kept == StillPending(alarms, now) && due == Due(alarms, now)
    {
      var k := 0;
      kept, due := [], [];
      while k < |alarms|
        invariant 0 <= k <= |alarms|
        invariant kept == StillPending(alarms[..k], now) && due == Due(alarms[..k], now)
      {
        assert alarms[..k + 1] == alarms[..k] + [alarms[k]];
        PendingSnoc(alarms[..k], alarms[k], now);
        DueSnoc(alarms[..k], alarms[k], now);
        if alarms[k].expiry <= now {
          due := due + [alarms[k]];
        } else {
          kept := kept + [alarms[k]];
        }
        k := k + 1;
      }
      assert alarms[..k] == alarms;
    }

    method UpdateAlarmsDelta(delta: int, now: int)
      requires Valid()
      modifies this`alarms, this`notified
      ensures Valid() && alarms == StillPending(Recalculated(old(alarms), delta), now)
      ensures notified == old(notified) + Due(Recalculated(old(alarms), delta), now)
      ensures Conserves(ShiftAll(old(alarms), delta), alarms, notified[|old(notified)|..], now)
    {
      assert delta == 0 ==> ShiftAll(alarms, delta) == alarms;
      if delta != 0 {
        RecalculateAlarms(delta);
      }
      NotifyAlarms(now);
    }

    /** A new alarm gets an id never given out before; one that is due already fires at once. */
    method QueueNew(key: string, calendar: bool, expiry: int, service: string, subscribed: bool, now: int)
      returns (added: bool, id: nat)
      requires Valid()
      modifies this
      ensures Valid() && added == subscribed
      ensures id == old(seqId) && seqId == id + 1
      ensures forall a :: a in old(alarms) ==> a.id != id
      ensures alarms == if added
                        then StillPending(Insert(old(alarms), Alarm(id, key, calendar, expiry, service)), now)
                        else old(alarms)
      ensures old(notified) <= notified
      ensures if added
              then Conserves(old(alarms) + [Alarm(id, key, calendar, expiry, service)], alarms,
                             notified[|old(notified)|..], now)
              else notified == old(notified)
    {
      id := seqId;
      seqId := seqId + 1;
      added := QueueAdd(id, key, calendar, expiry, service, subscribed, now);
    }

    /** Fails, without a trace, when the caller's subscription fails. */
    method QueueAdd(id: nat, key: string, calendar: bool, expiry: int, service: string, subscribed: bool, now: int)
      returns (added: bool)
      requires Valid() && forall a :: a in alarms ==> a.id != id
      modifies this
      ensures Valid() && added == subscribed
      ensures seqId == if added && id >= old(seqId) then id + 1 else old(seqId)
      ensures alarms == if added
                        then StillPending(Insert(old(alarms), Alarm(id, key, calendar, expiry, service)), now)
                        else old(alarms)
      ensures old(notified) <= notified
      ensures if added
              then Conserves(old(alarms) + [Alarm(id, key, calendar, expiry, service)], alarms,
                             notified[|old(notified)|..], now)
              else notified == old(notified)
    {
      if !subscribed {
        return false;
      }
      var a := Alarm(id, key, calendar, expiry, service);
      if id >= seqId {
        seqId := id + 1;
      }
      InsertKeepsIds(alarms, a);
      InsertSorts(alarms, a);
      InsertAdds(alarms, a);
      alarms := Insert(alarms, a);
      assert ShiftAll(alarms, 0) == alarms;
      UpdateAlarmsDelta(0, now);
      return true;
    }
  }

  lemma InsertKeepsIds(queue: seq<Alarm>, a: Alarm)
    requires IdsDistinct(queue) && forall b :: b in queue ==> b.id != a.id
    ensures IdsDistinct(Insert(queue, a))
  {
    ConsIds(a, queue);
    InsertAdds(queue, a);
    PermutationKeepsIds([a] + queue, Insert(queue, a));
  }
}
