/**
 The timeout table of src/alarms/timeout_alarm.c.

 The SQL table is a map from primary key to row, statements succeed, and one
 handler sees one second of each clock. `Updated` says what an update makes of the
 clock, the table and the legacy queue, `Timeouts` is the original's code proved
 against it.
 */
module TimeoutTable {
  import opened Wrappers
  import opened ReferenceTime
  import AlarmQueue
  import TimerSource

  /** What is called when a timeout fires. */
  datatype Call = Call(uri: string, params: string, activityId: string, activityMs: int)

  datatype Row = Row(app: string, key: string, publicBus: bool, wakeup: bool, calendar: bool, expiry: int, call: Call)

  type Rows = map<nat, Row>

  datatype Table = Table(offset: int, rows: Rows, queue: seq<AlarmQueue.Alarm>)

  const MAX_WAKEUP_SECS: int := 7 * 24 * 60 * 60
  const IDLE_SECS: int := 60 * 60

  predicate Same(r: Row, app: string, key: string, publicBus: bool) {
    r.app == app && r.key == key && r.publicBus == publicBus
  }

  function Without(rows: Rows, app: string, key: string, publicBus: bool): Rows {
    map k | k in rows && !Same(rows[k], app, key, publicBus) :: rows[k]
  }

  /** At most one row per (app_id, key, bus). */
  ghost predicate OneRowEach(rows: Rows) {
    forall k, l :: k in rows && l in rows && Same(rows[k], rows[l].app, rows[l].key, rows[l].publicBus) ==> k == l
  }

  function ShiftRow(r: Row, delta: int): Row {
    if r.calendar then r else r.(expiry := r.expiry + delta)
  }

  function Shift(rows: Rows, delta: int): Rows {
    map k | k in rows :: ShiftRow(rows[k], delta)
  }

  function NotDue(rows: Rows, now: int): Rows {
    map k | k in rows && rows[k].expiry > now :: rows[k]
  }

  function DueKeys(rows: Rows, now: int): set<nat> {
    set k | k in rows && rows[k].expiry <= now
  }

  /** A clock step is passed on unless it looks like a failed reading. */
  predicate Propagates(offset: int, c: Clocks) {
    Reported(offset, c) != INVALID_TIME && Reported(offset, c) != 0
  }

  /** The clock step alone: the offset always follows, the rows and the queue only when it is passed on. */
  function Stepped(t: Table, c: Clocks): Table {
    var offset := t.offset + Moved(t.offset, c);
    if !Propagates(t.offset, c) then t.(offset := offset)
    else Table(offset, Shift(t.rows, Reported(t.offset, c)),
               AlarmQueue.StillPending(AlarmQueue.Recalculated(t.queue, Reported(t.offset, c)), RefTime(offset, c)))
  }

  /** An update: follow the clock, then fire and drop what is due. */
  function Updated(t: Table, c: Clocks): Table {
    var stepped := Stepped(t, c);
    stepped.(rows := NotDue(stepped.rows, RefTime(stepped.offset, c)))
  }

  /** The due rows, each once, by expiry. Rows due at the same second may come in any order. */
  ghost predicate IsFiringOrder(order: seq<nat>, rows: Rows, now: int) {
    && (forall k :: k in order <==> k in rows && rows[k].expiry <= now)
    && (forall i, j :: 0 <= i < j < |order| ==> order[i] != order[j])
    && (forall i, j :: 0 <= i < j < |order| && order[i] in rows && order[j] in rows ==>
          rows[order[i]].expiry <= rows[order[j]].expiry)
  }

  function RowsOf(order: seq<nat>, rows: Rows): seq<Row>
    requires forall k :: k in order ==> k in rows
  {
    seq(|order|, i requires 0 <= i < |order| => rows[order[i]])
  }

  ghost function Pick(keys: set<nat>): (k: nat)
    requires keys != {}
    ensures k in keys
  {
    var k :| k in keys;
    k
  }

  /** The rows of a table, as many times as they occur. */
  ghost function Bag(rows: Rows): multiset<Row> {
    BagOf(rows, rows.Keys)
  }

  ghost function BagOf(rows: Rows, keys: set<nat>): multiset<Row>
    requires keys <= rows.Keys
  {
    if keys == {} then multiset{}
    else
      var k := Pick(keys);
      multiset{rows[k]} + BagOf(rows, keys - {k})
  }

  /** Whichever row is taken out first. */
  lemma {:induction false} BagTakesKey(rows: Rows, keys: set<nat>, k: nat)
    requires k in keys && keys <= rows.Keys
    ensures BagOf(rows, keys) == multiset{rows[k]} + BagOf(rows, keys - {k})
    decreases keys
  {
    var first := Pick(keys);
    if first != k {
      BagTakesKey(rows, keys - {first}, k);
      BagTakesKey(rows, keys - {k}, first);
      assert keys - {first} - {k} == keys - {k} - {first};
    }
  }

  lemma {:induction false} BagSame(a: Rows, b: Rows, keys: set<nat>)
    requires keys <= a.Keys && keys <= b.Keys
    requires forall k :: k in keys ==> a[k] == b[k]
    ensures BagOf(a, keys) == BagOf(b, keys)
    decreases keys
  {
    if keys != {} {
      BagSame(a, b, keys - {Pick(keys)});
    }
  }

  lemma BagTakes(rows: Rows, k: nat)
    requires k in rows
    ensures Bag(rows) == multiset{rows[k]} + Bag(rows - {k})
  {
    BagTakesKey(rows, rows.Keys, k);
    BagSame(rows, rows - {k}, rows.Keys - {k});
    assert (rows - {k}).Keys == rows.Keys - {k};
  }

  /** Firing is conservation: what was in the table is still there or has been fired, once, and by expiry. */
  ghost predicate FiredExactly(before: Rows, after: Rows, fired: seq<Row>, now: int) {
    && Bag(before) == Bag(after) + multiset(fired)
    && (forall k :: k in after ==> k in before && after[k] == before[k] && after[k].expiry > now)
    && (forall r :: r in fired ==> r.expiry <= now)
    && (forall i, j :: 0 <= i < j < |fired| ==> fired[i].expiry <= fired[j].expiry)
  }

  /** The expiries still to come, of all rows or of the wakeup rows. */
  function Expiries(rows: Rows, now: int, wakeupOnly: bool): set<int> {
    set k | k in rows && rows[k].expiry > now && (wakeupOnly ==> rows[k].wakeup) :: rows[k].expiry
  }

  ghost predicate IsLeast(e: Option<int>, s: set<int>) {
    if e.None? then (forall x :: x !in s) else e.value in s && forall x :: x in s ==> e.value <= x
  }

  ghost function Least(s: set<int>): (e: Option<int>)
    ensures IsLeast(e, s)
  {
    if forall x :: x !in s then None
    else
      var x :| x in s;
      var rest := Least(s - {x});
      assert forall y :: y in s ==> y == x || y in s - {x};
      if rest.Some? && rest.value < x then rest else Some(x)
  }

  function Clamp(secs: int): int {
    if secs < 1 then 1 else if secs > MAX_WAKEUP_SECS then MAX_WAKEUP_SECS else secs
  }

  /** The timer follows the next wakeup row, without one the next row, without any it looks again in an hour. */
  ghost function TimerSecs(rows: Rows, now: int): (secs: int)
    ensures 1 <= secs <= MAX_WAKEUP_SECS
  {
    match Least(Expiries(rows, now, true))
    case Some(e) => Clamp(e - now)
    case None =>
      match Least(Expiries(rows, now, false))
      case Some(e) => Clamp(e - now)
      case None => IDLE_SECS
  }

  /** The table once the first n of the order have been fired and deleted. */
  function Rest(order: seq<nat>, rows: Rows, n: nat): Rows
    requires n <= |order|
  {
    map k | k in rows && k !in order[..n] :: rows[k]
  }

  lemma RestShrinks(order: seq<nat>, rows: Rows, n: nat)
    requires n < |order| && order[n] in rows && forall i, j :: 0 <= i < j < |order| ==> order[i] != order[j]
    ensures order[n] in Rest(order, rows, n) && Rest(order, rows, n)[order[n]] == rows[order[n]]
    ensures Rest(order, rows, n + 1) == Rest(order, rows, n) - {order[n]}
  {
    assert order[..n + 1] == order[..n] + [order[n]];
  }

  lemma RestOfAll(order: seq<nat>, rows: Rows, now: int)
    requires IsFiringOrder(order, rows, now)
    ensures Rest(order, rows, |order|) == NotDue(rows, now)
    ensures Bag(rows) == Bag(NotDue(rows, now)) + multiset(RowsOf(order, rows))
  {
    assert order[..|order|] == order;
    assert Rest(order, rows, |order|) == NotDue(rows, now);
    RestConserves(order, rows, |order|);
    assert RowsOf(order, rows)[..|order|] == RowsOf(order, rows);
  }

  lemma RestStep(order: seq<nat>, rows: Rows, n: nat)
    requires n < |order| && order[n] in rows && forall i, j :: 0 <= i < j < |order| ==> order[i] != order[j]
    ensures Bag(Rest(order, rows, n)) == multiset{rows[order[n]]} + Bag(Rest(order, rows, n + 1))
  {
    RestShrinks(order, rows, n);
    BagTakes(Rest(order, rows, n), order[n]);
  }

  lemma {:induction false} RestConserves(order: seq<nat>, rows: Rows, n: nat)
    requires n <= |order| && forall k :: k in order ==> k in rows
    requires forall i, j :: 0 <= i < j < |order| ==> order[i] != order[j]
    ensures Bag(rows) == Bag(Rest(order, rows, n)) + multiset(RowsOf(order, rows)[..n])
  {
    if n == 0 {
      assert Rest(order, rows, 0) == rows;
    } else {
      assert order[n - 1] in order;
      RestConserves(order, rows, n - 1);
      RestStep(order, rows, n - 1);
      var fired := RowsOf(order, rows);
      assert fired[..n] == fired[..n - 1] + [fired[n - 1]];
    }
  }

  lemma OrderFires(order: seq<nat>, rows: Rows, now: int)
    requires IsFiringOrder(order, rows, now)
    ensures var fired := RowsOf(order, rows);
            && (forall r :: r in fired ==> r.expiry <= now)
            && (forall i, j :: 0 <= i < j < |fired| ==> fired[i].expiry <= fired[j].expiry)
  {
    forall i | 0 <= i < |order| ensures order[i] in rows && rows[order[i]].expiry <= now {
      assert order[i] in order;
    }
  }

  /** How the platform answers a request to set its RTC alarm. */
  datatype Nyx = Accepts | NotImplemented | Refuses

  class Timeouts {
    var rows: Rows
    var fired: seq<Row>
    var rtcAlarm: Option<int>              // wall-clock second armed
    const clock: ReferenceClock
    const timer: TimerSource.Source
    const legacy: AlarmQueue.Queue

    ghost function View(): Table
      reads this, clock, legacy
    {
      Table(clock.clockToReference, rows, legacy.alarms)
    }

    ghost predicate Valid()
      reads this, legacy
    {
      OneRowEach(rows) && legacy.Valid()
    }

    constructor (clock: ReferenceClock, timer: TimerSource.Source, legacy: AlarmQueue.Queue)
      requires legacy.Valid()
      ensures Valid() && rows == map[] && this.clock == clock && this.timer == timer && this.legacy == legacy
    {
      rows, fired, rtcAlarm := map[], [], None;
      this.clock, this.timer, this.legacy := clock, timer, legacy;
    }

    /** Relative rows move with the clock, calendar rows stay, one UPDATE at a time. */
    method RecalculateTimeouts(delta: int)
      modifies this`rows
      ensures rows == Shift(old(rows), delta)
    {
      if delta != 0 {
        var todo := set k | k in rows && !rows[k].calendar;
        while todo != {}
          invariant todo <= rows.Keys == old(rows).Keys
          invariant forall k :: k in todo ==> !old(rows)[k].calendar
          invariant forall k :: k in rows ==>
                      rows[k] == if k in todo then old(rows)[k] else ShiftRow(old(rows)[k], delta)
        {
          var k :| k in todo;
          rows := rows[k := rows[k].(expiry := rows[k].expiry + delta)];
          todo := todo - {k};
        }
      }
    }

    /** ORDER BY expiry over the due rows. */
    method SelectDue(now: int) returns (order: seq<nat>)
      ensures IsFiringOrder(order, rows, now)
    {
      var todo := DueKeys(rows, now);
      order := [];
      while todo != {}
        invariant todo <= DueKeys(rows, now)
        invariant forall k :: k in order <==> k in DueKeys(rows, now) - todo
        invariant forall i, j :: 0 <= i < j < |order| ==> order[i] != order[j]
        invariant forall i, j :: 0 <= i < j < |order| && order[i] in rows && order[j] in rows ==>
                    rows[order[i]].expiry <= rows[order[j]].expiry
        invariant forall k, l :: k in order && k in rows && l in todo ==> rows[k].expiry <= rows[l].expiry
      {
        var first := Earliest(todo);
        order := order + [first];
        todo := todo - {first};
      }
    }

    method Earliest(keys: set<nat>) returns (first: nat)
      requires keys != {} && keys <= rows.Keys
      ensures first in keys && forall k :: k in keys ==> rows[first].expiry <= rows[k].expiry
    {
      first :| first in keys;
      var todo := keys - {first};
      while todo != {}
        invariant todo <= keys && first in keys
        invariant forall k :: k in keys - todo ==> rows[first].expiry <= rows[k].expiry
      {
        var k :| k in todo;
        if rows[k].expiry < rows[first].expiry {
          first := k;
        }
        todo := todo - {k};
      }
    }

    /** Fires the due rows in expiry order, deleting each as it goes. */
    method ExpireTimeouts(c: Clocks)
      modifies this`rows, this`fired
      ensures var now := RefTime(clock.clockToReference, c);
              && rows == NotDue(old(rows), now)
              && (exists order :: IsFiringOrder(order, old(rows), now)
                                  && fired == old(fired) + RowsOf(order, old(rows)))
              && old(fired) <= fired
              && FiredExactly(old(rows), rows, fired[|old(fired)|..], now)
    {
      var now := RefTime(clock.clockToReference, c);
      var order := SelectDue(now);
      ghost var was := rows;
      var k := 0;
      while k < |order|
        invariant 0 <= k <= |order|
        invariant rows == Rest(order, was, k)
        invariant fired == old(fired) + RowsOf(order, was)[..k]
      {
        RestShrinks(order, was, k);
        fired := fired + [rows[order[k]]];
        rows := rows - {order[k]};
        k := k + 1;
      }
      assert RowsOf(order, was)[..k] == RowsOf(order, was);
      RestOfAll(order, was, now);
      OrderFires(order, was, now);
      assert fired[|old(fired)|..] == RowsOf(order, was);
    }

    /** ORDER BY expiry LIMIT 1 over the rows still to come. */
    method NextExpiry(now: int, wakeupOnly: bool) returns (e: Option<int>)
      ensures IsLeast(e, Expiries(rows, now, wakeupOnly)) && IsNext(e, rows, now, wakeupOnly)
    {
      e := None;
      var todo := rows.Keys;
      while todo != {}
        invariant todo <= rows.Keys
        invariant e.Some? ==> e.value in Expiries(rows, now, wakeupOnly)
        invariant forall k :: k in rows && k !in todo && rows[k].expiry > now && (wakeupOnly ==> rows[k].wakeup) ==>
                    e.Some? && e.value <= rows[k].expiry
      {
        var k :| k in todo;
        todo := todo - {k};
        var r := rows[k];
        if r.expiry > now && (wakeupOnly ==> r.wakeup) && (e.None? || r.expiry < e.value) {
          e := Some(r.expiry);
          assert r.expiry in Expiries(rows, now, wakeupOnly);
        }
      }
      LeastIsUnique(e, Expiries(rows, now, wakeupOnly));
      LeastIsNext(rows, now, wakeupOnly);
    }

    method GetNextWakeup(c: Clocks) returns (e: Option<int>)
      ensures IsNext(e, rows, RefTime(clock.clockToReference, c), true)
    {
      e := NextExpiry(RefTime(clock.clockToReference, c), true);
    }

    /** Zero clears the alarm. A platform without RTC alarms is no reason to stay awake; one that refuses is. */
    method RtcArm(expiry: int, now: int, c: Clocks, nyx: Nyx) returns (ok: bool)
      modifies this`rtcAlarm
      ensures ok <==> !nyx.Refuses?
      ensures nyx.Accepts? ==> rtcAlarm == if expiry == 0 then None else Some(c.wall + (expiry - now))
      ensures !nyx.Accepts? ==> rtcAlarm == old(rtcAlarm)
    {
      var wall := 0;
      if expiry != 0 {
        wall := c.wall + (expiry - now);
      }
      if nyx.Accepts? {
        rtcAlarm := if expiry != 0 then Some(wall) else None;
        return true;
      }
      return nyx.NotImplemented?;
    }

    /** The RTC is armed for the next wakeup row, or cleared; the timer follows TimerSecs. */
    method QueueNextTimeout(c: Clocks, nowUs: nat, nyx: Nyx) returns (ok: bool)
      modifies this`rtcAlarm, timer
      ensures ok <==> !nyx.Refuses?
      ensures var now := RefTime(clock.clockToReference, c);
              var next := Least(Expiries(rows, now, true));
              && timer.intervalMs == TimerSecs(rows, now) * 1000
              && timer.expirationUs == TimerSource.Expiration(nowUs, TimerSecs(rows, now) * 1000, timer.granularityMs)
              && (nyx.Accepts? ==>
                    rtcAlarm == if next.None? || next.value == 0 then None else Some(c.wall + (next.value - now)))
    {
      var now := RefTime(clock.clockToReference, c);
      var wakeup := NextExpiry(now, true);
      LeastIsUnique(wakeup, Expiries(rows, now, true));
      if wakeup.None? {
        ok := RtcArm(0, now, c, nyx);
      } else {
        ok := RtcArm(wakeup.value, now, c, nyx);
        timer.SetIntervalSeconds(ClampSecs(wakeup.value - now), nowUs);
        return;
      }
      var next := NextExpiry(now, false);
      LeastIsUnique(next, Expiries(rows, now, false));
      if next.None? {
        timer.SetIntervalSeconds(60 * 60, nowUs);
      } else {
        timer.SetIntervalSeconds(ClampSecs(next.value - now), nowUs);
      }
    }

    static function ClampSecs(secs: int): (r: TimerSource.Guint)
      ensures r == Clamp(secs) && 1 <= r <= MAX_WAKEUP_SECS
    {
      Clamp(secs)
    }

    /** Ahead of a suspend. Without a table there is nothing to arm and no reason to stay awake. */
    method QueueNextWakeup(disabled: bool, c: Clocks, nowUs: nat, nyx: Nyx) returns (ok: bool)
      modifies this`rtcAlarm, timer
      ensures ok <==> disabled || !nyx.Refuses?
      ensures disabled ==> rtcAlarm == old(rtcAlarm)
      ensures !disabled && nyx.Accepts? ==>
                var now := RefTime(clock.clockToReference, c);
                var next := Least(Expiries(rows, now, true));
                (rtcAlarm.None? <==> next.None? || next.value == 0)
                && forall k :: rtcAlarm.Some? && k in rows && rows[k].wakeup && rows[k].expiry > now ==>
                     rtcAlarm.value <= c.wall + (rows[k].expiry - now)
    {
      if disabled {
        return true;
      }
      ok := QueueNextTimeout(c, nowUs, nyx);
      ghost var now := RefTime(clock.clockToReference, c);
      forall k | k in rows && rows[k].wakeup && rows[k].expiry > now
        ensures rows[k].expiry in Expiries(rows, now, true)
      {
      }
    }

    /** Follows the clock, fires what is due in order, keeps the rest, and arms the timer and the RTC for it. */
    method UpdateTimeouts(c: Clocks, nowUs: nat, nyx: Nyx)
      requires Valid()
      modifies this, clock, timer, legacy
      ensures Valid()
      ensures View() == Updated(old(View()), c)
      ensures var stepped := Stepped(old(View()), c);
              && (exists order :: IsFiringOrder(order, stepped.rows, RefTime(stepped.offset, c))
                                  && fired == old(fired) + RowsOf(order, stepped.rows))
              && old(fired) <= fired
              && FiredExactly(stepped.rows, rows, fired[|old(fired)|..], RefTime(stepped.offset, c))
      ensures var now := RefTime(clock.clockToReference, c);
              var next := Least(Expiries(rows, now, true));
              && timer.intervalMs == TimerSecs(rows, now) * 1000
              && timer.expirationUs == TimerSource.Expiration(nowUs, TimerSecs(rows, now) * 1000, timer.granularityMs)
              && (nyx.Accepts? ==>
                    rtcAlarm == if next.None? || next.value == 0 then None else Some(c.wall + (next.value - now)))
      ensures legacy.seqId == old(legacy.seqId)
    {
      UpdateKeepsOneRow(View(), c);
      FollowClock(c);
      ExpireTimeouts(c);
      var ok := QueueNextTimeout(c, nowUs, nyx);
    }

    /** The first half of an update: the clock step, passed on to the rows and to the legacy alarms. */
    method FollowClock(c: Clocks)
      requires legacy.Valid()
      modifies this`rows, clock, legacy
      ensures legacy.Valid() && legacy.seqId == old(legacy.seqId)
      ensures View() == Stepped(old(View()), c)
      ensures old(legacy.notified) <= legacy.notified
      ensures var moved := Moved(old(clock.clockToReference), c);
              if moved == 0 || moved == -1 then legacy.notified == old(legacy.notified)
              else AlarmQueue.Conserves(AlarmQueue.ShiftAll(old(legacy.alarms), moved), legacy.alarms,
                                        legacy.notified[|old(legacy.notified)|..], RefTime(clock.clockToReference, c))
    {
      var delta := clock.Update(c);
      if delta != INVALID_TIME && delta != 0 {
        RecalculateTimeouts(delta);
        legacy.UpdateAlarmsDelta(delta, RefTime(clock.clockToReference, c));
      }
    }

    method Delete(app: string, key: string, publicBus: bool) returns (changed: bool)
      modifies this`rows
      ensures rows == Without(old(rows), app, key, publicBus)
      ensures changed <==> exists k :: k in old(rows) && Same(old(rows)[k], app, key, publicBus)
    {
      ghost var was := rows;
      var kept := Without(rows, app, key, publicBus);
      changed := kept.Keys != rows.Keys;
      if changed {
        assert exists k :: k in was && k !in kept;
      }
      rows := kept;
    }

    /** Replaces the row of that identity; newKey is the primary key the database picks. */
    method TimeoutSet(newKey: nat, row: Row, c: Clocks, nowUs: nat, nyx: Nyx) returns (ok: bool)
      requires Valid() && newKey !in rows
      modifies this, clock, timer, legacy
      ensures Valid() && ok
      ensures View() ==
              Updated(old(View()).(rows := Without(old(rows), row.app, row.key, row.publicBus)[newKey := row]), c)
      ensures legacy.seqId == old(legacy.seqId)
      ensures old(fired) <= fired
      ensures LandsOrFires(Landed(row, old(clock.clockToReference), c), newKey, rows, fired[|old(fired)|..],
                           RefTime(clock.clockToReference, c))
    {
      var changed := Delete(row.app, row.key, row.publicBus);
      SetKeepsOneRow(old(rows), newKey, row);
      rows := rows[newKey := row];
      ghost var t := View();
      ghost var was := fired;
      UpdateTimeouts(c, nowUs, nyx);
      SetLands(t, c, newKey, rows, fired[|was|..]);
      return true;
    }

    /** Reports whether there was such a row, and reschedules only then. */
    method TimeoutClear(app: string, key: string, publicBus: bool, c: Clocks, nowUs: nat, nyx: Nyx)
      returns (found: bool)
      requires Valid()
      modifies this, clock, timer, legacy
      ensures Valid()
      ensures found <==> exists k :: k in old(rows) && Same(old(rows)[k], app, key, publicBus)
      ensures View() == if found
                        then Updated(old(View()).(rows := Without(old(rows), app, key, publicBus)), c)
                        else old(View())
      ensures legacy.seqId == old(legacy.seqId)
    {
      found := Delete(app, key, publicBus);
      assert OneRowEach(rows);
      if found {
        UpdateTimeouts(c, nowUs, nyx);
      } else {
        assert rows == old(rows);
      }
    }
  }

  // ------------------------------------------------------------ what clock steps keep

  /** What no clock step should change: the wall time of a calendar entry, the boot-clock time of a relative one. */
  function Stamp(calendar: bool, expiry: int, offset: int): int {
    if calendar then expiry else expiry - offset
  }

  /** The second a relative entry loses when a step of minus one second is taken for a failed reading. */
  function Lost(offset: int, c: Clocks): nat {
    if Moved(offset, c) == -1 then 1 else 0
  }

  /** The same row later on, its stamp later by that many seconds if it is relative. */
  predicate SameRow(r: Row, offset: int, r': Row, offset': int, late: int) {
    && r' == r.(expiry := r'.expiry)
    && Stamp(r'.calendar, r'.expiry, offset') == Stamp(r.calendar, r.expiry, offset) + if r.calendar then 0 else late
  }

  /** A row the update finds is left in the table, or fired. */
  lemma RowStaysOrFires(t: Table, c: Clocks, k: nat, after: Rows, fired: seq<Row>)
    requires k in t.rows && after == Updated(t, c).rows
    requires var stepped := Stepped(t, c);
             exists order :: IsFiringOrder(order, stepped.rows, RefTime(stepped.offset, c))
                             && fired == RowsOf(order, stepped.rows)
    ensures var stepped := Stepped(t, c);
            if stepped.rows[k].expiry > RefTime(stepped.offset, c) then k in after && after[k] == stepped.rows[k]
            else stepped.rows[k] in fired
  {
    var stepped := Stepped(t, c);
    var now := RefTime(stepped.offset, c);
    var order :| IsFiringOrder(order, stepped.rows, now) && fired == RowsOf(order, stepped.rows);
    if stepped.rows[k].expiry <= now {
      assert k in order;
      var i :| 0 <= i < |order| && order[i] == k;
      assert fired[i] == stepped.rows[k];
    }
  }

  /** A row as the clock step of its own update leaves it: a relative one moves along with a step passed on. */
  function Landed(row: Row, offset: int, c: Clocks): Row {
    if row.calendar || Moved(offset, c) == -1 then row else row.(expiry := row.expiry + Moved(offset, c))
  }

  /** In the table when still to come, and otherwise fired. */
  predicate LandsOrFires(row: Row, k: nat, rows: Rows, fired: seq<Row>, now: int) {
    if row.expiry > now then k in rows && rows[k] == row else row in fired
  }

  lemma SetLands(t: Table, c: Clocks, k: nat, after: Rows, fired: seq<Row>)
    requires k in t.rows && after == Updated(t, c).rows
    requires var stepped := Stepped(t, c);
             exists order :: IsFiringOrder(order, stepped.rows, RefTime(stepped.offset, c))
                             && fired == RowsOf(order, stepped.rows)
    ensures LandsOrFires(Landed(t.rows[k], t.offset, c), k, after, fired, RefTime(Updated(t, c).offset, c))
  {
    RowStaysOrFires(t, c, k, after, fired);
    assert Stepped(t, c).rows[k] == Landed(t.rows[k], t.offset, c);
  }

  /** The clock step before it keeps every row, moves the relative ones and nothing else about any. */
  lemma StepKeepsRows(t: Table, c: Clocks)
    ensures var after := Stepped(t, c);
            && after.rows.Keys == t.rows.Keys
            && forall k :: k in t.rows ==> SameRow(t.rows[k], t.offset, after.rows[k], after.offset, Lost(t.offset, c))
  {
  }

  /** Setting or clearing takes out the rows of that application, key and bus, and no other. */
  lemma WithoutExactly(rows: Rows, app: string, key: string, publicBus: bool)
    ensures forall k :: k in Without(rows, app, key, publicBus)
              <==> k in rows && !(rows[k].app == app && rows[k].key == key && rows[k].publicBus == publicBus)
    ensures forall k :: k in Without(rows, app, key, publicBus) ==> Without(rows, app, key, publicBus)[k] == rows[k]
  {
  }

  lemma UpdateMovesRow(t: Table, c: Clocks, k: nat)
    requires k in Updated(t, c).rows
    ensures k in t.rows && SameRow(t.rows[k], t.offset, Updated(t, c).rows[k], Updated(t, c).offset, Lost(t.offset, c))
  {
  }

  /** A row still to come, and a wakeup row if it is to be one. */
  predicate ToCome(rows: Rows, k: nat, now: int, wakeupOnly: bool) {
    k in rows && rows[k].expiry > now && (wakeupOnly ==> rows[k].wakeup)
  }

  /** The next expiry is that of a row still to come which none precedes. */
  ghost predicate IsNext(e: Option<int>, rows: Rows, now: int, wakeupOnly: bool) {
    && (e.None? <==> forall k :: !ToCome(rows, k, now, wakeupOnly))
    && (e.Some? ==> exists k :: ToCome(rows, k, now, wakeupOnly) && rows[k].expiry == e.value)
    && (e.Some? ==> forall k :: ToCome(rows, k, now, wakeupOnly) ==> e.value <= rows[k].expiry)
  }

  lemma LeastIsNext(rows: Rows, now: int, wakeupOnly: bool)
    ensures IsNext(Least(Expiries(rows, now, wakeupOnly)), rows, now, wakeupOnly)
  {
    var s := Expiries(rows, now, wakeupOnly);
    var e := Least(s);
    forall k | ToCome(rows, k, now, wakeupOnly) ensures rows[k].expiry in s {
    }
    if e.Some? {
      assert e.value in s;
      var k :| k in rows && rows[k].expiry == e.value && e.value > now && (wakeupOnly ==> rows[k].wakeup);
      assert ToCome(rows, k, now, wakeupOnly);
    } else {
      assert forall x :: x !in s;
    }
  }

  /**
   The timer is set for the next wakeup row, for want of one for the next row, a week away
   at most, and for an hour when nothing is to come.
   */
  lemma TimerSecsExactly(rows: Rows, now: int, e: Option<int>, f: Option<int>)
    requires IsNext(e, rows, now, true) && IsNext(f, rows, now, false)
    ensures TimerSecs(rows, now) ==
            if e.Some? then (if e.value - now > 604_800 then 604_800 else e.value - now)
            else if f.Some? then (if f.value - now > 604_800 then 604_800 else f.value - now)
            else 3_600
  {
    LeastIsNext(rows, now, true);
    LeastIsNext(rows, now, false);
    NextIsUnique(e, Least(Expiries(rows, now, true)), rows, now, true);
    NextIsUnique(f, Least(Expiries(rows, now, false)), rows, now, false);
  }

  lemma NextIsUnique(e: Option<int>, f: Option<int>, rows: Rows, now: int, wakeupOnly: bool)
    requires IsNext(e, rows, now, wakeupOnly) && IsNext(f, rows, now, wakeupOnly)
    ensures e == f
    ensures e.Some? ==> e.value > now
  {
  }

  lemma LeastIsUnique(e: Option<int>, s: set<int>)
    requires IsLeast(e, s)
    ensures e == Least(s)
  {
    var least := Least(s);
    assert IsLeast(least, s);
    if least.None? {
      assert forall x :: x !in s;
      assert e.None?;
    } else {
      assert least.value in s;
      assert e.Some?;
      assert e.value <= least.value;
    }
  }

  lemma UpdateKeepsOneRow(t: Table, c: Clocks)
    requires OneRowEach(t.rows)
    ensures OneRowEach(Updated(t, c).rows)
  {
  }

  lemma SetKeepsOneRow(rows: Rows, newKey: nat, row: Row)
    requires OneRowEach(rows)
    ensures OneRowEach(Without(rows, row.app, row.key, row.publicBus)[newKey := row])
  {
  }
}
