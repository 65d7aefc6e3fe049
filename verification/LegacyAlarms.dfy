/**
 The legacy alarm calls of src/alarms/alarm.c, which keep each alarm twice: in the
 queue, and as a private wakeup row of the timeout table.
 */
module LegacyAlarms {
  import opened Wrappers
  import opened ReferenceTime
  import opened TimeoutTable
  import AlarmQueue
  import TimerSource

  type Alarm = AlarmQueue.Alarm

  const SLEEP: string := "com.palm.sleep"

  function Decimal(n: nat): string {
    if n < 10 then [Digit(n)] else Decimal(n / 10) + [Digit(n % 10)]
  }

  function Digit(d: nat): (c: char)
    requires d < 10
    ensures c != '-'
    ensures forall e: nat :: e < 10 && "0123456789"[e] == c ==> e == d
  {
    "0123456789"[d]
  }

  function LegacyKey(key: string, id: nat): string {
    key + "-" + Decimal(id)
  }

  lemma {:induction false} DecimalHasNoDash(n: nat)
    ensures |Decimal(n)| > 0 && forall c :: c in Decimal(n) ==> c != '-'
  {
    if n >= 10 {
      DecimalHasNoDash(n / 10);
    }
  }

  lemma {:induction false} DecimalIsInjective(m: nat, n: nat)
    requires Decimal(m) == Decimal(n)
    ensures m == n
  {
    DecimalHasNoDash(m / 10);
    DecimalHasNoDash(n / 10);
    var a, b := Decimal(m), Decimal(n);
    assert a[|a| - 1] == Digit(m % 10) && b[|b| - 1] == Digit(n % 10);
    assert m % 10 == n % 10;
    if m >= 10 {
      assert n >= 10;
      assert Decimal(m / 10) == a[..|a| - 1] && Decimal(n / 10) == b[..|b| - 1];
      DecimalIsInjective(m / 10, n / 10);
    }
  }

  /** The dash before the id is the last one. */
  lemma LastDash(key: string, id: nat, i: nat)
    requires |key| < i < |LegacyKey(key, id)|
    ensures LegacyKey(key, id)[i] != '-'
  {
    DecimalHasNoDash(id);
    var c := Decimal(id)[i - |key| - 1];
    assert c in Decimal(id);
    assert LegacyKey(key, id)[i] == c;
  }

  /** Whatever the callers' keys, dashes included, two alarms never share a row. */
  lemma LegacyKeysDiffer(key: string, id: nat, other: string, otherId: nat)
    requires LegacyKey(key, id) == LegacyKey(other, otherId)
    ensures id == otherId && key == other
  {
    var k := LegacyKey(key, id);
    assert k[|key|] == '-' && k[|other|] == '-';
    if |key| < |other| {
      LastDash(key, id, |other|);
    } else if |other| < |key| {
      LastDash(other, otherId, |key|);
    } else {
      assert k[|key| + 1..] == Decimal(id) && k[|other| + 1..] == Decimal(otherId);
      DecimalIsInjective(id, otherId);
      assert key == k[..|key|] && other == k[..|other|];
    }
  }

  function LegacyRow(key: string, id: nat, calendar: bool, expiry: int): Row {
    Row(SLEEP, LegacyKey(key, id), false, true, calendar, expiry,
        Call("luna://com.palm.sleep/time/internalAlarmFired", "{}", "", 0))
  }

  /** What makes the row do the alarm's work: it wakes the machine at the alarm's expiry, and calls sleepd itself. */
  predicate WakesFor(r: Row, a: Alarm) {
    && r.app == "com.palm.sleep" && r.key == a.key + "-" + Decimal(a.id) && !r.publicBus
    && r.wakeup && r.calendar == a.calendar && r.expiry == a.expiry
    && r.call.uri == "luna://com.palm.sleep/time/internalAlarmFired"
  }

  ghost function SetRow(t: Table, newKey: nat, row: Row, c: Clocks): Table {
    Updated(t.(rows := Without(t.rows, row.app, row.key, row.publicBus)[newKey := row]), c)
  }

  ghost predicate Present(rows: Rows, app: string, key: string, publicBus: bool) {
    exists k :: k in rows && Same(rows[k], app, key, publicBus)
  }

  ghost function ClearRow(t: Table, app: string, key: string, publicBus: bool, c: Clocks): Table {
    if Present(t.rows, app, key, publicBus)
    then Updated(t.(rows := Without(t.rows, app, key, publicBus)), c)
    else t
  }

  /** The new alarm queued, whatever is due dropped from the queue, and nothing written to the table yet. */
  function Queued(t: Table, a: Alarm, c: Clocks): Table {
    t.(queue := AlarmQueue.StillPending(AlarmQueue.Insert(t.queue, a), RefTime(t.offset, c)))
  }

  ghost function Added(t: Table, a: Alarm, newKey: nat, c: Clocks): Table {
    SetRow(Queued(t, a, c), newKey, LegacyRow(a.key, a.id, a.calendar, a.expiry), c)
  }

  /** The queue without the alarms of that id. */
  function DropId(queue: seq<Alarm>, id: nat): seq<Alarm> {
    if queue == [] then []
    else if queue[0].id == id then DropId(queue[1..], id)
    else [queue[0]] + DropId(queue[1..], id)
  }

  predicate HasId(queue: seq<Alarm>, id: nat) {
    exists i :: 0 <= i < |queue| && queue[i].id == id
  }

  function KeyOf(queue: seq<Alarm>, id: nat): string
    requires HasId(queue, id)
  {
    if queue[0].id == id then queue[0].key else KeyOf(queue[1..], id)
  }

  ghost function Removed(t: Table, id: nat, c: Clocks): Table {
    if !HasId(t.queue, id) then t
    else
      var cleared := ClearRow(t, SLEEP, LegacyKey(KeyOf(t.queue, id), id), false, c);
      cleared.(queue := DropId(cleared.queue, id))
  }

  /** An update leaves the alarm queued. */
  predicate Survives(t: Table, a: Alarm, c: Clocks) {
    Propagates(t.offset, c) ==>
      AlarmQueue.ShiftOne(a, Reported(t.offset, c)).expiry > RefTime(t.offset + Moved(t.offset, c), c)
  }

  /**
   The queue is walked while the update that clearing the row brings may fire alarms: the
   walk stands at the alarm of that id and is to go on at the next one, so these two have
   to survive it.
   */
  ghost predicate Walkable(t: Table, id: nat, c: Clocks) {
    HasId(t.queue, id) && Present(t.rows, SLEEP, LegacyKey(KeyOf(t.queue, id), id), false) ==>
      forall i :: 0 <= i < |t.queue| && AtHand(t.queue, id, i) ==> Survives(t, t.queue[i], c)
  }

  predicate AtHand(queue: seq<Alarm>, id: nat, i: nat)
    requires i < |queue|
  {
    queue[i].id == id || (i > 0 && queue[i - 1].id == id)
  }

  lemma SurvivorStays(t: Table, a: Alarm, c: Clocks)
    requires a in t.queue && Survives(t, a, c)
    ensures HasId(Updated(t, c).queue, a.id)
  {
    if Propagates(t.offset, c) {
      var delta := Reported(t.offset, c);
      AlarmQueue.QueuedAfter(t.queue, a, delta, RefTime(t.offset + Moved(t.offset, c), c));
      MemberHasId(Updated(t, c).queue, AlarmQueue.ShiftOne(a, delta));
    } else {
      MemberHasId(t.queue, a);
    }
  }

  lemma MemberHasId(queue: seq<Alarm>, a: Alarm)
    requires a in queue
    ensures HasId(queue, a.id)
  {
    var i :| 0 <= i < |queue| && queue[i] == a;
  }

  lemma ClearingKeepsAlarm(t: Table, id: nat, i: nat, c: Clocks)
    requires i < |t.queue| && t.queue[i].id == id && HasId(t.queue, id) && Walkable(t, id, c)
    ensures HasId(ClearRow(t, SLEEP, LegacyKey(KeyOf(t.queue, id), id), false, c).queue, id)
  {
    var without := t.(rows := Without(t.rows, SLEEP, LegacyKey(KeyOf(t.queue, id), id), false));
    assert AtHand(t.queue, id, i);
    if Present(t.rows, SLEEP, LegacyKey(KeyOf(t.queue, id), id), false) {
      SurvivorStays(without, t.queue[i], c);
    }
  }

  lemma {:induction false} DropMembers(queue: seq<Alarm>, id: nat)
    ensures forall a :: a in DropId(queue, id) <==> a in queue && a.id != id
  {
    if queue != [] {
      DropMembers(queue[1..], id);
      assert queue == [queue[0]] + queue[1..];
    }
  }

  lemma {:induction false} DropKeepsShape(queue: seq<Alarm>, id: nat)
    requires AlarmQueue.Sorted(queue) && AlarmQueue.IdsDistinct(queue)
    ensures AlarmQueue.Sorted(DropId(queue, id)) && AlarmQueue.IdsDistinct(DropId(queue, id))
  {
    if queue != [] {
      var rest := DropId(queue[1..], id);
      assert queue == [queue[0]] + queue[1..];
      AlarmQueue.ConsSorted(queue[0], queue[1..]);
      AlarmQueue.ConsIds(queue[0], queue[1..]);
      DropKeepsShape(queue[1..], id);
      DropMembers(queue[1..], id);
      AlarmQueue.ConsSorted(queue[0], rest);
      AlarmQueue.ConsIds(queue[0], rest);
    }
  }

  /** Ids are distinct, so at most one alarm is dropped. */
  lemma {:induction false} DropAt(queue: seq<Alarm>, i: nat, id: nat)
    requires i < |queue| && forall j :: 0 <= j < |queue| ==> (queue[j].id == id <==> j == i)
    ensures DropId(queue, id) == queue[..i] + queue[i + 1..]
  {
    if i == 0 {
      DropNone(queue[1..], id);
      assert queue[..0] + queue[1..] == queue[1..];
    } else {
      DropAt(queue[1..], i - 1, id);
      SplitTail(queue, i);
    }
  }

  lemma SplitTail(queue: seq<Alarm>, i: nat)
    requires 0 < i < |queue|
    ensures [queue[0]] + (queue[1..][..i - 1] + queue[1..][i..]) == queue[..i] + queue[i + 1..]
  {
  }

  lemma {:induction false} KeyAt(queue: seq<Alarm>, i: nat)
    requires i < |queue| && AlarmQueue.IdsDistinct(queue)
    ensures HasId(queue, queue[i].id) && KeyOf(queue, queue[i].id) == queue[i].key
  {
    if i > 0 {
      assert queue == [queue[0]] + queue[1..];
      AlarmQueue.ConsIds(queue[0], queue[1..]);
      KeyAt(queue[1..], i - 1);
    }
  }

  lemma {:induction false} DropNone(queue: seq<Alarm>, id: nat)
    requires !HasId(queue, id)
    ensures DropId(queue, id) == queue
  {
    if queue != [] {
      assert queue[0].id != id;
      assert forall i :: 0 <= i < |queue[1..]| ==> queue[1..][i] == queue[i + 1];
      DropNone(queue[1..], id);
    }
  }

  datatype Reply = Malformed | Failed | AlarmId(id: nat)

  class Alarms {
    const timeouts: Timeouts

    constructor (timeouts: Timeouts)
      ensures this.timeouts == timeouts
    {
      this.timeouts := timeouts;
    }

    /** Queue first, then the row: the reply carries an id never used before, which a failure uses up too. */
    method AddAt(key: string, calendar: bool, expiry: int, service: string, subscribed: bool,
                 newKey: nat, c: Clocks, nowUs: nat, nyx: Nyx)
      returns (reply: Reply)
      requires timeouts.Valid() && newKey !in timeouts.rows
      modifies timeouts, timeouts.clock, timeouts.timer, timeouts.legacy
      ensures timeouts.Valid() && timeouts.legacy.seqId == old(timeouts.legacy.seqId) + 1
      ensures reply == if subscribed then AlarmId(old(timeouts.legacy.seqId)) else Failed
      ensures timeouts.View() ==
              if subscribed
              then Added(old(timeouts.View()),
                         AlarmQueue.Alarm(old(timeouts.legacy.seqId), key, calendar, expiry, service), newKey, c)
              else old(timeouts.View())
      ensures old(timeouts.fired) <= timeouts.fired
      ensures reply.AlarmId? ==>
                var r := LegacyRow(key, reply.id, calendar, expiry);
                && WakesFor(r, AlarmQueue.Alarm(reply.id, key, calendar, expiry, service))
                && LandsOrFires(Landed(r, old(timeouts.clock.clockToReference), c), newKey, timeouts.rows,
                                timeouts.fired[|old(timeouts.fired)|..], RefTime(timeouts.clock.clockToReference, c))
    {
      var added, id := timeouts.legacy.QueueNew(key, calendar, expiry, service, subscribed,
                                                RefTime(timeouts.clock.clockToReference, c));
      if !added {
        return Failed;
      }
      var ok := timeouts.TimeoutSet(newKey, LegacyRow(key, id, calendar, expiry), c, nowUs, nyx);
      return AlarmId(id);
    }

    /** The expiry of a relative alarm: that far after the reference time, at most 24:59:59. */
    function RelativeExpiry(hour: int, min: int, sec: int, c: Clocks): (due: Option<int>)
      reads timeouts.clock
      ensures due.Some? <==> 0 <= hour <= 24 && 0 <= min <= 59 && 0 <= sec <= 59
      ensures due.Some? ==>
                due.value == RefTime(timeouts.clock.clockToReference, c) + 3600 * hour + 60 * min + sec
    {
      if hour < 0 || hour > 24 || min < 0 || min > 59 || sec < 0 || sec > 59 then None
      else Some(RefTime(timeouts.clock.clockToReference, c) + sec + min * 60 + hour * 60 * 60)
    }

    method AlarmAdd(key: string, hour: int, min: int, sec: int, service: string, subscribed: bool,
                    newKey: nat, c: Clocks, nowUs: nat, nyx: Nyx)
      returns (reply: Reply)
      requires timeouts.Valid() && newKey !in timeouts.rows
      modifies timeouts, timeouts.clock, timeouts.timer, timeouts.legacy
      ensures timeouts.Valid()
      ensures var due := old(RelativeExpiry(hour, min, sec, c));
              && (reply.Malformed? <==> due.None?)
              && (reply.Failed? <==> due.Some? && !subscribed)
              && (reply.AlarmId? ==> reply.id == old(timeouts.legacy.seqId))
              && timeouts.View() ==
                 if reply.AlarmId?
                 then Added(old(timeouts.View()), AlarmQueue.Alarm(reply.id, key, false, due.value, service), newKey, c)
                 else old(timeouts.View())
    {
      var due := RelativeExpiry(hour, min, sec, c);
      if due.None? {
        return Malformed;
      }
      reply := AddAt(key, false, due.value, service, subscribed, newKey, c, nowUs, nyx);
    }

    method Find(id: nat) returns (i: nat)
      ensures i <= |timeouts.legacy.alarms|
      ensures if HasId(timeouts.legacy.alarms, id)
              then i < |timeouts.legacy.alarms| && timeouts.legacy.alarms[i].id == id
              else i == |timeouts.legacy.alarms|
    {
      var alarms := timeouts.legacy.alarms;
      i := 0;
      while i < |alarms| && alarms[i].id != id
        invariant 0 <= i <= |alarms|
        invariant forall j :: 0 <= j < i ==> alarms[j].id != id
      {
        i := i + 1;
      }
    }

    /** Clears the row of the alarm of that id, there is one at most, then takes it off the queue. */
    method AlarmRemove(id: nat, c: Clocks, nowUs: nat, nyx: Nyx) returns (found: bool)
      requires timeouts.Valid() && Walkable(timeouts.View(), id, c)
      modifies timeouts, timeouts.clock, timeouts.timer, timeouts.legacy
      ensures timeouts.Valid() && timeouts.legacy.seqId == old(timeouts.legacy.seqId)
      ensures found <==> HasId(old(timeouts.legacy.alarms), id)
      ensures timeouts.View() == Removed(old(timeouts.View()), id, c)
      ensures !HasId(timeouts.legacy.alarms, id)
    {
      var legacy := timeouts.legacy;
      var i := Find(id);
      if i == |legacy.alarms| {
        return false;
      }
      ghost var t := timeouts.View();
      KeyAt(legacy.alarms, i);
      ClearingKeepsAlarm(t, id, i, c);
      var cleared := timeouts.TimeoutClear(SLEEP, LegacyKey(legacy.alarms[i].key, id), false, c, nowUs, nyx);
      Drop(id);
      return true;
    }

    method Drop(id: nat)
      requires timeouts.legacy.Valid() && HasId(timeouts.legacy.alarms, id)
      modifies timeouts.legacy`alarms
      ensures timeouts.legacy.Valid() && !HasId(timeouts.legacy.alarms, id)
      ensures timeouts.legacy.alarms == DropId(old(timeouts.legacy.alarms), id)
    {
      var legacy := timeouts.legacy;
      var i := Find(id);
      DropAt(legacy.alarms, i, id);
      DropMembers(legacy.alarms, id);
      DropKeepsShape(legacy.alarms, id);
      legacy.alarms := legacy.alarms[..i] + legacy.alarms[i + 1..];
      assert forall j :: 0 <= j < |legacy.alarms| ==> legacy.alarms[j] in legacy.alarms;
    }
  }
}
