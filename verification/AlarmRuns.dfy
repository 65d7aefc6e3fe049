/**
 Runs of the alarm scheduler: timeouts set and cleared over the bus, legacy alarms
 added and removed, updates from the timer or the RTC, and the messages by which a
 fired legacy row tells sleepd to look at its queue.
 */
module AlarmRuns {
  import opened Wrappers
  import opened ReferenceTime
  import opened TimeoutTable
  import opened LegacyAlarms
  import AlarmQueue
  import Iteration

  /**
   messages counts the internalAlarmFired calls in flight, boot is the last reading of
   the boot-time clock, updated the reference time the last update left: the wall second
   it read, if it could.
   */
  datatype State = State(t: Table, seqId: nat, messages: nat, boot: int, updated: int)

  /** Every action reads the clocks once. */
  datatype Action =
    | Update(c: Clocks)
    | BusSet(newKey: nat, row: Row, c: Clocks)
    | BusClear(app: string, name: string, publicBus: bool, c: Clocks)
    | AlarmAdd(key: string, calendar: bool, expiry: int, service: string, subscribed: bool, newKey: nat, c: Clocks)
    | AlarmRemove(id: nat, c: Clocks)
    | Deliver(c: Clocks)

  /** No client is sleepd itself, and a removal does not have its place in the queue fired away. */
  ghost predicate Enabled(s: State, a: Action) {
    match a
    case Update(_) => true
    case BusSet(newKey, row, _) => newKey !in s.t.rows && row.app != SLEEP
    case BusClear(app, _, _, _) => app != SLEEP
    case AlarmAdd(_, _, _, _, _, newKey, _) => newKey !in s.t.rows
    case AlarmRemove(id, c) => Walkable(s.t, id, c)
    case Deliver(_) => s.messages > 0
  }

  function NewAlarm(s: State, a: Action): Alarm
    requires a.AlarmAdd?
  {
    AlarmQueue.Alarm(s.seqId, a.key, a.calendar, a.expiry, a.service)
  }

  /** What an action leaves for the update that ends it; none if it ends without one. */
  ghost function BeforeUpdate(s: State, a: Action): Option<Table> {
    match a
    case Update(_) => Some(s.t)
    case BusSet(newKey, row, _) =>
      Some(s.t.(rows := Without(s.t.rows, row.app, row.key, row.publicBus)[newKey := row]))
    case BusClear(app, name, publicBus, _) => Cleared(s.t, app, name, publicBus)
    case AlarmAdd(_, _, _, _, subscribed, newKey, c) =>
      if !subscribed then None
      else
        var alarm := NewAlarm(s, a);
        var row := LegacyRow(alarm.key, alarm.id, alarm.calendar, alarm.expiry);
        var queued := Queued(s.t, alarm, c);
        Some(queued.(rows := Without(s.t.rows, row.app, row.key, row.publicBus)[newKey := row]))
    case AlarmRemove(id, _) =>
      if HasId(s.t.queue, id) then Cleared(s.t, SLEEP, LegacyKey(KeyOf(s.t.queue, id), id), false) else None
    case Deliver(_) => None
  }

  ghost function Cleared(t: Table, app: string, name: string, publicBus: bool): Option<Table> {
    if Present(t.rows, app, name, publicBus)
    then Some(t.(rows := Without(t.rows, app, name, publicBus)))
    else None
  }

  /** The legacy rows an update fires, each of which sends a message. */
  ghost function LegacyFired(t: Table, c: Clocks): set<nat> {
    var stepped := Stepped(t, c);
    set k | k in stepped.rows && stepped.rows[k].expiry <= RefTime(stepped.offset, c) && stepped.rows[k].app == SLEEP
  }

  ghost function Messages(t: Table, c: Clocks): nat {
    |LegacyFired(t, c)|
  }

  ghost function Settled(s: State, a: Action): State {
    var before := BeforeUpdate(s, a);
    var s' := s.(boot := if a.c.boot.Some? then a.c.boot.value else s.boot);
    if before.None? then s'
    else
      var t := Updated(before.value, a.c);
      s'.(t := t, messages := s.messages + Messages(before.value, a.c), updated := RefTime(t.offset, a.c))
  }

  ghost function Do(s: State, a: Action): State {
    var s' := Settled(s, a);
    match a
    case AlarmAdd(_, _, _, _, _, _, _) => s'.(seqId := s.seqId + 1)
    case AlarmRemove(id, _) => s'.(t := s'.t.(queue := DropId(s'.t.queue, id)))
    case Deliver(c) => s'.(t := s'.t.(queue := AlarmQueue.StillPending(s'.t.queue, RefTime(s'.t.offset, c))),
                          messages := if s.messages == 0 then 0 else s.messages - 1)
    case _ => s'
  }

  ghost predicate Runs(s: State, actions: seq<Action>)
    decreases |actions|
  {
    actions == [] || (Enabled(s, actions[0]) && Runs(Do(s, actions[0]), actions[1..]))
  }

  ghost function Exec(s: State, actions: seq<Action>): State
    decreases |actions|
  {
    if actions == [] then s else Exec(Do(s, actions[0]), actions[1..])
  }

  /** These runs are what the methods do, to the table and the queue, and to the next id. */
  lemma DoIsTheCode(s: State, a: Action)
    requires Enabled(s, a)
    ensures Do(s, a).t == match a
              case Update(c) => Updated(s.t, c)
              case BusSet(newKey, row, c) => SetRow(s.t, newKey, row, c)
              case BusClear(app, name, publicBus, c) => ClearRow(s.t, app, name, publicBus, c)
              case AlarmAdd(_, _, _, _, subscribed, newKey, c) =>
                if subscribed then Added(s.t, NewAlarm(s, a), newKey, c) else s.t
              case AlarmRemove(id, c) => Removed(s.t, id, c)
              case Deliver(c) => s.t.(queue := AlarmQueue.StillPending(s.t.queue, RefTime(s.t.offset, c)))
    ensures Do(s, a).seqId == s.seqId + if a.AlarmAdd? then 1 else 0
  {
    if a.AlarmRemove? && !HasId(s.t.queue, a.id) {
      DropNone(s.t.queue, a.id);
    }
  }

  /** The calls to sleepd itself among the rows fired. */
  function CallsToSelf(fired: seq<Row>): nat {
    if fired == [] then 0
    else CallsToSelf(fired[..|fired| - 1]) + if fired[|fired| - 1].app == SLEEP then 1 else 0
  }

  /** And to the messages in flight: one more for each legacy row the update fires, in whatever order. */
  lemma MessagesAreCalls(t: Table, c: Clocks, order: seq<nat>)
    requires var stepped := Stepped(t, c);
             IsFiringOrder(order, stepped.rows, RefTime(stepped.offset, c))
    ensures (forall k :: k in order ==> k in Stepped(t, c).rows)
            && CallsToSelf(RowsOf(order, Stepped(t, c).rows)) == Messages(t, c)
  {
    var rows := Stepped(t, c).rows;
    var now := RefTime(Stepped(t, c).offset, c);
    assert forall k :: k in order ==> k in DueKeys(rows, now);
    CallsCounted(order, rows);
    assert SelfKeys(order, rows) == LegacyFired(t, c) by {
      assert forall k :: k in LegacyFired(t, c) ==> k in DueKeys(rows, now);
    }
  }

  function SelfKeys(order: seq<nat>, rows: Rows): set<nat> {
    set k | k in order && k in rows && rows[k].app == SLEEP
  }

  lemma {:induction false} CallsCounted(order: seq<nat>, rows: Rows)
    requires forall k :: k in order ==> k in rows
    requires forall i, j :: 0 <= i < j < |order| ==> order[i] != order[j]
    ensures CallsToSelf(RowsOf(order, rows)) == |SelfKeys(order, rows)|
  {
    if order == [] {
      assert SelfKeys(order, rows) == {};
    } else {
      var n := |order| - 1;
      var before, last := order[..n], order[n];
      CallsCounted(before, rows);
      assert RowsOf(order, rows)[..n] == RowsOf(before, rows);
      LastKey(before, last, rows);
      assert order == before + [last];
    }
  }

  lemma LastKey(before: seq<nat>, last: nat, rows: Rows)
    requires last in rows && last !in before
    ensures |SelfKeys(before + [last], rows)| == |SelfKeys(before, rows)| + if rows[last].app == SLEEP then 1 else 0
  {
    var more := if rows[last].app == SLEEP then {last} else {};
    assert SelfKeys(before + [last], rows) == SelfKeys(before, rows) + more;
  }

  // --- Conservation over clock steps -------------------------------------------------

  predicate SameAlarm(a: Alarm, offset: int, a': Alarm, offset': int, late: int) {
    && a' == a.(expiry := a'.expiry)
    && Stamp(a'.calendar, a'.expiry, offset') == Stamp(a.calendar, a.expiry, offset) + if a.calendar then 0 else late
  }

  ghost predicate WasQueued(queue: seq<Alarm>, offset: int, a: Alarm, offset': int, late: int) {
    exists b :: b in queue && SameAlarm(b, offset, a, offset', late)
  }

  lemma UpdateMovesAlarm(t: Table, c: Clocks, a: Alarm)
    requires a in Updated(t, c).queue
    ensures WasQueued(t.queue, t.offset, a, Updated(t, c).offset, Lost(t.offset, c))
  {
    if Propagates(t.offset, c) {
      PassedOnMovesAlarm(t, c, a);
    } else {
      assert a in t.queue && SameAlarm(a, t.offset, a, t.offset + Moved(t.offset, c), Lost(t.offset, c));
    }
  }

  lemma PassedOnMovesAlarm(t: Table, c: Clocks, a: Alarm)
    requires Propagates(t.offset, c) && a in Updated(t, c).queue
    ensures WasQueued(t.queue, t.offset, a, Updated(t, c).offset, 0)
  {
    var delta := Reported(t.offset, c);
    assert Updated(t, c).offset == t.offset + delta;
    StepMovesAlarm(t.queue, t.offset, delta, RefTime(t.offset + delta, c), a);
  }

  lemma StepMovesAlarm(queue: seq<Alarm>, offset: int, delta: int, now: int, a: Alarm)
    requires a in AlarmQueue.StillPending(AlarmQueue.Recalculated(queue, delta), now)
    ensures WasQueued(queue, offset, a, offset + delta, 0)
  {
    var b := AlarmQueue.QueuedBefore(queue, delta, now, a);
    assert SameAlarm(b, offset, a, offset + delta, 0);
  }

  /** The steps of minus one second that the updates of a run see. */
  ghost function MinusOne(s: State, a: Action): nat {
    if BeforeUpdate(s, a).Some? then Lost(s.t.offset, a.c) else 0
  }

  ghost function MinusOnes(s: State, actions: seq<Action>): nat
    decreases |actions|
  {
    if actions == [] then 0 else MinusOne(s, actions[0]) + MinusOnes(Do(s, actions[0]), actions[1..])
  }

  predicate Inserts(a: Action, k: nat) {
    (a.BusSet? || a.AlarmAdd?) && a.newKey == k
  }

  lemma ActionMovesRow(s: State, a: Action, k: nat)
    requires Enabled(s, a) && k in Do(s, a).t.rows && !Inserts(a, k)
    ensures k in s.t.rows && SameRow(s.t.rows[k], s.t.offset, Do(s, a).t.rows[k], Do(s, a).t.offset, MinusOne(s, a))
  {
    var before := BeforeUpdate(s, a);
    if before.Some? {
      UpdateMovesRow(before.value, a.c, k);
    }
  }

  lemma QueuedMembers(t: Table, alarm: Alarm, c: Clocks)
    ensures forall a :: a in Queued(t, alarm, c).queue
              <==> (a in t.queue || a == alarm) && a.expiry > RefTime(t.offset, c)
  {
    AlarmQueue.SplitMembers(AlarmQueue.Insert(t.queue, alarm), RefTime(t.offset, c));
    AlarmQueue.InsertAdds(t.queue, alarm);
  }

  lemma SettledMovesAlarm(s: State, a: Action, alarm: Alarm)
    requires Enabled(s, a) && alarm in Settled(s, a).t.queue && alarm.id < s.seqId
    ensures WasQueued(s.t.queue, s.t.offset, alarm, Settled(s, a).t.offset, MinusOne(s, a))
  {
    var before := BeforeUpdate(s, a);
    if before.None? {
      assert SameAlarm(alarm, s.t.offset, alarm, s.t.offset, 0);
    } else {
      UpdateMovesAlarm(before.value, a.c, alarm);
      var b :| b in before.value.queue && SameAlarm(b, s.t.offset, alarm, Settled(s, a).t.offset, MinusOne(s, a));
      if a.AlarmAdd? {
        QueuedMembers(s.t, NewAlarm(s, a), a.c);
      }
    }
  }

  lemma ActionMovesAlarm(s: State, a: Action, alarm: Alarm)
    requires Enabled(s, a) && alarm in Do(s, a).t.queue && alarm.id < s.seqId
    ensures WasQueued(s.t.queue, s.t.offset, alarm, Do(s, a).t.offset, MinusOne(s, a))
  {
    var settled := Settled(s, a);
    if a.AlarmRemove? {
      DropMembers(settled.t.queue, a.id);
    } else if a.Deliver? {
      AlarmQueue.SplitMembers(settled.t.queue, RefTime(settled.t.offset, a.c));
    }
    SettledMovesAlarm(s, a, alarm);
  }

  /**
   From its insertion on a pending calendar row keeps its expiry, and a relative row its
   time on the boot clock but for one second more for each update that saw a step of
   minus one, over runs of any clock steps.
   */
  lemma {:induction false} RowsMoveExactly(s: State, actions: seq<Action>, k: nat)
    requires Runs(s, actions)
    requires k in Exec(s, actions).t.rows && forall a :: a in actions ==> !Inserts(a, k)
    ensures k in s.t.rows
    ensures var end := Exec(s, actions).t;
            SameRow(s.t.rows[k], s.t.offset, end.rows[k], end.offset, MinusOnes(s, actions))
    decreases |actions|
  {
    if actions != [] {
      assert actions[0] in actions;
      RowsMoveExactly(Do(s, actions[0]), actions[1..], k);
      ActionMovesRow(s, actions[0], k);
    }
  }

  /** So its remaining time is conserved exactly when no update of the run saw such a step. */
  lemma RowsConservedExactly(s: State, actions: seq<Action>, k: nat)
    requires Runs(s, actions)
    requires k in Exec(s, actions).t.rows && forall a :: a in actions ==> !Inserts(a, k)
    ensures k in s.t.rows
    ensures var r, r' := s.t.rows[k], Exec(s, actions).t.rows[k];
            Stamp(r.calendar, r.expiry, s.t.offset) == Stamp(r'.calendar, r'.expiry, Exec(s, actions).t.offset)
            <==> r.calendar || MinusOnes(s, actions) == 0
  {
    RowsMoveExactly(s, actions, k);
  }

  /** The same for a queued alarm. Ids are never reused, so every alarm with an older id was queued at the start. */
  lemma {:induction false} AlarmsMoveExactly(s: State, actions: seq<Action>, alarm: Alarm)
    requires Runs(s, actions)
    requires alarm in Exec(s, actions).t.queue && alarm.id < s.seqId
    ensures WasQueued(s.t.queue, s.t.offset, alarm, Exec(s, actions).t.offset, MinusOnes(s, actions))
    decreases |actions|
  {
    if actions == [] {
      assert SameAlarm(alarm, s.t.offset, alarm, s.t.offset, 0);
    } else {
      var s1, late := Do(s, actions[0]), MinusOnes(Do(s, actions[0]), actions[1..]);
      AlarmsMoveExactly(s1, actions[1..], alarm);
      var b :| b in s1.t.queue && SameAlarm(b, s1.t.offset, alarm, Exec(s, actions).t.offset, late);
      ActionMovesAlarm(s, actions[0], b);
      var b' :| b' in s.t.queue && SameAlarm(b', s.t.offset, b, s1.t.offset, MinusOne(s, actions[0]));
      assert SameAlarm(b', s.t.offset, alarm, Exec(s, actions).t.offset, MinusOne(s, actions[0]) + late);
    }
  }

  /**
   The readings of a wall clock half a second ahead of the boot-time clock, both
   running at the same rate, at a number of half seconds after boot.
   */
  function HalfAhead(halfSeconds: nat): Clocks {
    Clocks((halfSeconds + 1) / 2, Some(halfSeconds / 2))
  }

  ghost function TwoUpdates(t: Table, halfSeconds: nat): Table {
    Updated(Updated(t, HalfAhead(halfSeconds)), HalfAhead(halfSeconds + 1))
  }

  function DueAt(row: Row, expiry: int): Table {
    Table(0, map[0 := row.(expiry := expiry)], [])
  }

  /** The wall clock seems to jump ahead, and the relative row moves along; then to fall back, and the row stays. */
  lemma ASecondIsLost(row: Row, n: nat)
    requires !row.calendar
    ensures TwoUpdates(DueAt(row, n + 1), 2 * n + 1) == DueAt(row, n + 2)
  {
    var t := DueAt(row, n + 1);
    assert HalfAhead(2 * n + 1) == Clocks(n + 1, Some(n)) && HalfAhead(2 * n + 2) == Clocks(n + 1, Some(n + 1));
    assert Shift(t.rows, 1) == map[0 := row.(expiry := n + 2)];
    assert AlarmQueue.Recalculated([], 1) == [];
    assert Updated(t, HalfAhead(2 * n + 1)) == Table(1, map[0 := row.(expiry := n + 2)], []);
  }

  /** The two updates of a second, given the seconds before it. */
  ghost function NextSecond(t: Table, seconds: nat): Table {
    TwoUpdates(t, 2 * seconds + 1)
  }

  ghost predicate IsNextSecond(step: (Table, nat) -> Table) {
    forall t: Table, i: nat {:trigger NextSecond(t, i)} :: step(t, i) == NextSecond(t, i)
  }

  lemma SecondFollows(row: Row, step: (Table, nat) -> Table, trace: nat -> Table, i: nat)
    requires !row.calendar && IsNextSecond(step)
    requires trace(i) == DueAt(row, i + 1) && trace(i + 1) == DueAt(row, i + 2)
    ensures Iteration.Follows(step, trace, i)
  {
    ASecondIsLost(row, i);
    assert step(DueAt(row, i + 1), i) == NextSecond(DueAt(row, i + 1), i);
  }

  /**
   Steps of minus one second come about with no one setting a clock, for whole seconds
   of the two clocks change at different moments. Of two updates half a second apart
   the first finds the wall clock a second ahead, the next finds it back again; the
   first moves the relative rows, the second does not. With two updates a second a
   relative row due in a second never fires.
   */
  lemma PhaseShiftPostponesRelativeRows(row: Row, step: (Table, nat) -> Table, n: nat)
    requires !row.calendar && IsNextSecond(step)
    ensures Iteration.Iterate(step, DueAt(row, 1), n) == DueAt(row, n + 1)
  {
    var trace := (i: nat) => DueAt(row, i + 1);
    forall i: nat ensures Iteration.Follows(step, trace, i) {
      SecondFollows(row, step, trace, i);
    }
    Iteration.IterateFollows(step, trace, n);
  }

  // --- The queue and the table agree -------------------------------------------------

  ghost predicate HasRow(rows: Rows, a: Alarm) {
    exists k :: k in rows && rows[k] == LegacyRow(a.key, a.id, a.calendar, a.expiry)
  }

  /** Every queued alarm, but one about to go, has its row, or is due already with a message on the way. */
  ghost predicate Agrees(t: Table, now: int, messages: nat, leaving: set<nat>) {
    forall a :: a in t.queue && a.id !in leaving ==> HasRow(t.rows, a) || (a.expiry <= now && messages > 0)
  }

  ghost predicate Shaped(queue: seq<Alarm>, seqId: nat) {
    AlarmQueue.Sorted(queue) && AlarmQueue.IdsDistinct(queue) && forall a :: a in queue ==> a.id < seqId
  }

  /** The reference time of the last readings. */
  function Now(s: State): int {
    s.boot + s.t.offset
  }

  /** One row per identity, a queue in order with fresh ids, and both in agreement at that reference time. */
  ghost predicate Inv(s: State, now: int) {
    && OneRowEach(s.t.rows)
    && Shaped(s.t.queue, s.seqId)
    && Agrees(s.t, now, s.messages, {})
  }

  /** A row of the stepped table either survives the update or sends a message. */
  lemma RowSurvivesOrFires(t: Table, c: Clocks, a: Alarm)
    requires HasRow(Stepped(t, c).rows, a)
    ensures var now := RefTime(Stepped(t, c).offset, c);
            if a.expiry > now then HasRow(Updated(t, c).rows, a) else Messages(t, c) > 0
  {
    var stepped := Stepped(t, c);
    var now := RefTime(stepped.offset, c);
    var k :| k in stepped.rows && stepped.rows[k] == LegacyRow(a.key, a.id, a.calendar, a.expiry);
    if a.expiry > now {
      assert k in NotDue(stepped.rows, now);
    } else {
      assert k in LegacyFired(t, c);
    }
  }

  lemma ShiftKeepsRow(rows: Rows, a: Alarm, delta: int)
    requires HasRow(rows, a)
    ensures HasRow(Shift(rows, delta), AlarmQueue.ShiftOne(a, delta))
  {
    var k :| k in rows && rows[k] == LegacyRow(a.key, a.id, a.calendar, a.expiry);
    var b := AlarmQueue.ShiftOne(a, delta);
    assert Shift(rows, delta)[k] == LegacyRow(b.key, b.id, b.calendar, b.expiry);
  }

  /**
   The guard of an update: the alarms that have fired their rows, and that the clock step
   does not move along, are due still when it is done.
   */
  ghost predicate Keeps(t: Table, c: Clocks, leaving: set<nat>) {
    forall a :: a in t.queue && a.id !in leaving && !HasRow(t.rows, a) && (a.calendar || Moved(t.offset, c) == -1) ==>
      a.expiry <= RefTime(t.offset + Moved(t.offset, c), c)
  }

  lemma KeptAgrees(t: Table, c: Clocks, now: int, messages: nat, leaving: set<nat>, a': Alarm)
    requires Agrees(t, now, messages, leaving) && c.boot.Some? && now <= RefTime(t.offset, c)
    requires Keeps(t, c, leaving) && a' in Updated(t, c).queue && a'.id !in leaving
    ensures || HasRow(Updated(t, c).rows, a')
            || (a'.expiry <= RefTime(Updated(t, c).offset, c) && messages + Messages(t, c) > 0)
  {
    if Propagates(t.offset, c) {
      var delta := Reported(t.offset, c);
      var a := AlarmQueue.QueuedBefore(t.queue, delta, RefTime(Stepped(t, c).offset, c), a');
      assert HasRow(t.rows, a);
      ShiftKeepsRow(t.rows, a, delta);
      RowSurvivesOrFires(t, c, a');
    } else if HasRow(t.rows, a') {
      RowSurvivesOrFires(t, c, a');
    }
  }

  lemma AgreedIsKept(t: Table, c: Clocks, messages: nat, leaving: set<nat>, a: Alarm)
    requires Agrees(Updated(t, c), RefTime(Updated(t, c).offset, c), messages, leaving)
    requires a in t.queue && a.id !in leaving && !HasRow(t.rows, a) && (a.calendar || Moved(t.offset, c) == -1)
    ensures a.expiry <= RefTime(t.offset + Moved(t.offset, c), c)
  {
    var now := RefTime(t.offset + Moved(t.offset, c), c);
    if a.expiry > now {
      if Propagates(t.offset, c) {
        AlarmQueue.QueuedAfter(t.queue, a, Reported(t.offset, c), now);
      }
      assert a in Updated(t, c).queue;
      RowWasThere(t, c, a);
    }
  }

  lemma RowWasThere(t: Table, c: Clocks, a: Alarm)
    requires HasRow(Updated(t, c).rows, a) && (a.calendar || !Propagates(t.offset, c))
    ensures HasRow(t.rows, a)
  {
    var k :| k in Updated(t, c).rows && Updated(t, c).rows[k] == LegacyRow(a.key, a.id, a.calendar, a.expiry);
    assert t.rows[k] == LegacyRow(a.key, a.id, a.calendar, a.expiry);
  }

  /** After an update queue and table agree exactly when it met the guard, whatever the clock step. */
  lemma UpdateAgreesExactly(t: Table, c: Clocks, now: int, messages: nat, leaving: set<nat>)
    requires Agrees(t, now, messages, leaving) && c.boot.Some? && now <= RefTime(t.offset, c)
    ensures Agrees(Updated(t, c), RefTime(Updated(t, c).offset, c), messages + Messages(t, c), leaving)
            <==> Keeps(t, c, leaving)
  {
    if Keeps(t, c, leaving) {
      forall a | a in Updated(t, c).queue && a.id !in leaving
        ensures || HasRow(Updated(t, c).rows, a)
                || (a.expiry <= RefTime(Updated(t, c).offset, c) && messages + Messages(t, c) > 0)
      {
        KeptAgrees(t, c, now, messages, leaving, a);
      }
    }
    if Agrees(Updated(t, c), RefTime(Updated(t, c).offset, c), messages + Messages(t, c), leaving) {
      forall a | a in t.queue && a.id !in leaving && !HasRow(t.rows, a) && (a.calendar || Moved(t.offset, c) == -1)
        ensures a.expiry <= RefTime(t.offset + Moved(t.offset, c), c)
      {
        AgreedIsKept(t, c, messages + Messages(t, c), leaving, a);
      }
    }
  }

  /** Taking another identity out of the table leaves an alarm its row. */
  lemma OtherRowsStay(rows: Rows, a: Alarm, app: string, name: string, publicBus: bool)
    requires HasRow(rows, a) && !Same(LegacyRow(a.key, a.id, a.calendar, a.expiry), app, name, publicBus)
    ensures HasRow(Without(rows, app, name, publicBus), a)
  {
    var k :| k in rows && rows[k] == LegacyRow(a.key, a.id, a.calendar, a.expiry);
    assert k in Without(rows, app, name, publicBus);
  }

  lemma NewRowsStay(rows: Rows, a: Alarm, newKey: nat, row: Row)
    requires HasRow(rows, a) && newKey !in rows
    ensures HasRow(rows[newKey := row], a)
  {
    var k :| k in rows && rows[k] == LegacyRow(a.key, a.id, a.calendar, a.expiry);
    assert k in rows[newKey := row];
  }

  function Leaving(a: Action): set<nat> {
    if a.AlarmRemove? then {a.id} else {}
  }

  /** What an action leaves for its update agrees as the state did, but for the alarm it is to remove. */
  lemma PreparedAgrees(s: State, a: Action, now: int)
    requires Inv(s, now) && Enabled(s, a) && now <= RefTime(s.t.offset, a.c) && BeforeUpdate(s, a).Some?
    ensures var before := BeforeUpdate(s, a).value;
            OneRowEach(before.rows) && before.offset == s.t.offset && Agrees(before, now, s.messages, Leaving(a))
  {
    var before := BeforeUpdate(s, a).value;
    match a {
      case Update(_) =>
      case BusSet(newKey, row, _) =>
        SetKeepsOneRow(s.t.rows, newKey, row);
        forall x | x in s.t.queue && HasRow(s.t.rows, x) ensures HasRow(before.rows, x) {
          OtherRowsStay(s.t.rows, x, row.app, row.key, row.publicBus);
          NewRowsStay(Without(s.t.rows, row.app, row.key, row.publicBus), x, newKey, row);
        }
      case BusClear(app, name, publicBus, _) =>
        forall x | x in s.t.queue && HasRow(s.t.rows, x) ensures HasRow(before.rows, x) {
          OtherRowsStay(s.t.rows, x, app, name, publicBus);
        }
      case AlarmAdd(_, _, _, _, _, _, _) => AddAgrees(s, a, now);
      case AlarmRemove(id, _) => RemoveAgrees(s, a, now);
      case Deliver(_) =>
    }
  }

  lemma AddAgrees(s: State, a: Action, now: int)
    requires Inv(s, now) && Enabled(s, a) && now <= RefTime(s.t.offset, a.c) && a.AlarmAdd? && a.subscribed
    ensures var before := BeforeUpdate(s, a).value;
            OneRowEach(before.rows) && forall x :: x in before.queue ==> HasRow(before.rows, x)
  {
    var before := BeforeUpdate(s, a).value;
    var alarm := NewAlarm(s, a);
    var row := LegacyRow(alarm.key, alarm.id, alarm.calendar, alarm.expiry);
    SetKeepsOneRow(s.t.rows, a.newKey, row);
    QueuedMembers(s.t, alarm, a.c);
    forall x | x in before.queue ensures HasRow(before.rows, x) {
      if x == alarm {
        assert before.rows[a.newKey] == row;
      } else {
        assert HasRow(s.t.rows, x);
        if LegacyKey(x.key, x.id) == row.key {
          LegacyKeysDiffer(x.key, x.id, alarm.key, alarm.id);
        }
        OtherRowsStay(s.t.rows, x, row.app, row.key, row.publicBus);
        NewRowsStay(Without(s.t.rows, row.app, row.key, row.publicBus), x, a.newKey, row);
      }
    }
  }

  lemma RemoveAgrees(s: State, a: Action, now: int)
    requires Inv(s, now) && a.AlarmRemove? && BeforeUpdate(s, a).Some?
    ensures var before := BeforeUpdate(s, a).value;
            && OneRowEach(before.rows)
            && forall x :: x in s.t.queue && x.id != a.id && HasRow(s.t.rows, x) ==> HasRow(before.rows, x)
  {
    var key := KeyOf(s.t.queue, a.id);
    forall x | x in s.t.queue && x.id != a.id && HasRow(s.t.rows, x) ensures HasRow(BeforeUpdate(s, a).value.rows, x) {
      if LegacyKey(x.key, x.id) == LegacyKey(key, a.id) {
        LegacyKeysDiffer(x.key, x.id, key, a.id);
      }
      OtherRowsStay(s.t.rows, x, SLEEP, LegacyKey(key, a.id), false);
    }
  }

  lemma PendingShaped(queue: seq<Alarm>, now: int, seqId: nat)
    requires Shaped(queue, seqId)
    ensures Shaped(AlarmQueue.StillPending(queue, now), seqId)
  {
    AlarmQueue.PendingKeepsShape(queue, now);
    AlarmQueue.SplitMembers(queue, now);
  }

  lemma UpdateShaped(t: Table, c: Clocks, seqId: nat)
    requires Shaped(t.queue, seqId)
    ensures Shaped(Updated(t, c).queue, seqId)
  {
    if Propagates(t.offset, c) {
      var delta := Reported(t.offset, c);
      AlarmQueue.RecalculatedMembers(t.queue, delta);
      AlarmQueue.RecalculatedIds(t.queue, delta);
      PendingShaped(AlarmQueue.Recalculated(t.queue, delta), RefTime(Updated(t, c).offset, c), seqId);
    }
  }

  lemma AddShaped(t: Table, alarm: Alarm, c: Clocks)
    requires Shaped(t.queue, alarm.id)
    ensures Shaped(Queued(t, alarm, c).queue, alarm.id + 1)
  {
    AlarmQueue.InsertKeepsIds(t.queue, alarm);
    AlarmQueue.InsertSorts(t.queue, alarm);
    AlarmQueue.InsertAdds(t.queue, alarm);
    PendingShaped(AlarmQueue.Insert(t.queue, alarm), RefTime(t.offset, c), alarm.id + 1);
  }

  lemma StepKeepsShape(s: State, a: Action)
    requires Shaped(s.t.queue, s.seqId)
    ensures Shaped(Do(s, a).t.queue, Do(s, a).seqId)
  {
    var before := BeforeUpdate(s, a);
    var seqId := Do(s, a).seqId;
    if a.AlarmAdd? && a.subscribed {
      AddShaped(s.t, NewAlarm(s, a), a.c);
    }
    if before.Some? {
      UpdateShaped(before.value, a.c, seqId);
    }
    var settled := Settled(s, a).t;
    assert Shaped(settled.queue, seqId);
    if a.AlarmRemove? {
      DropMembers(settled.queue, a.id);
      DropKeepsShape(settled.queue, a.id);
    } else if a.Deliver? {
      PendingShaped(settled.queue, RefTime(settled.offset, a.c), seqId);
    }
  }

  ghost predicate Guard(s: State, a: Action) {
    BeforeUpdate(s, a).Some? ==> Keeps(BeforeUpdate(s, a).value, a.c, Leaving(a))
  }

  lemma UpdatingAgreesExactly(s: State, a: Action, now: int)
    requires Inv(s, now) && Enabled(s, a) && BeforeUpdate(s, a).Some?
    requires a.c.boot.Some? && now <= RefTime(s.t.offset, a.c)
    ensures Inv(Do(s, a), Now(Do(s, a))) <==> Guard(s, a)
  {
    var before := BeforeUpdate(s, a).value;
    StepKeepsShape(s, a);
    PreparedAgrees(s, a, now);
    UpdateKeepsOneRow(before, a.c);
    UpdateAgreesExactly(before, a.c, now, s.messages, Leaving(a));
    if a.AlarmRemove? {
      DropMembers(Updated(before, a.c).queue, a.id);
    }
  }

  /** What ends without an update can only shorten the queue, and a delivered message drops whatever is due. */
  lemma QuietAgrees(s: State, a: Action, now: int)
    requires Inv(s, now) && Enabled(s, a) && BeforeUpdate(s, a).None?
    requires a.c.boot.Some? && now <= RefTime(s.t.offset, a.c)
    ensures Inv(Do(s, a), now)
  {
    StepKeepsShape(s, a);
    if a.AlarmRemove? {
      DropMembers(s.t.queue, a.id);
    } else if a.Deliver? {
      AlarmQueue.SplitMembers(s.t.queue, RefTime(s.t.offset, a.c));
    }
  }

  /** The boot-time clock can be read and does not run backwards. */
  ghost predicate BootRuns(s: State, actions: seq<Action>)
    decreases |actions|
  {
    actions == [] || (&& Enabled(s, actions[0])
                      && actions[0].c.boot.Some? && actions[0].c.boot.value >= s.boot
                      && BootRuns(Do(s, actions[0]), actions[1..]))
  }

  ghost predicate GuardedRuns(s: State, actions: seq<Action>)
    decreases |actions|
  {
    actions == [] || (Guard(s, actions[0]) && GuardedRuns(Do(s, actions[0]), actions[1..]))
  }

  ghost predicate AlwaysAgree(s: State, actions: seq<Action>)
    decreases |actions|
  {
    Inv(s, Now(s)) && (actions == [] || AlwaysAgree(Do(s, actions[0]), actions[1..]))
  }

  /** Over runs of any clock steps queue and table agree all the way exactly when every update meets its guard. */
  lemma {:induction false} QueueAgreesExactly(s: State, actions: seq<Action>)
    requires Inv(s, Now(s)) && BootRuns(s, actions)
    ensures AlwaysAgree(s, actions) <==> GuardedRuns(s, actions)
    decreases |actions|
  {
    if actions != [] {
      var next := Do(s, actions[0]);
      if BeforeUpdate(s, actions[0]).Some? {
        UpdatingAgreesExactly(s, actions[0], Now(s));
      } else {
        QuietAgrees(s, actions[0], Now(s));
      }
      if Inv(next, Now(next)) {
        QueueAgreesExactly(next, actions[1..]);
      }
    }
  }

  /** Nor does the wall clock run backwards: an update that can read it finds no earlier second than the last did. */
  ghost predicate Forward(s: State, a: Action) {
    && a.c.boot.Some? && a.c.boot.value >= s.boot
    && (BeforeUpdate(s, a).Some? && a.c.wall != INVALID_TIME ==> a.c.wall >= s.updated)
  }

  ghost predicate ForwardRuns(s: State, actions: seq<Action>)
    decreases |actions|
  {
    actions == [] || (Enabled(s, actions[0]) && Forward(s, actions[0]) && ForwardRuns(Do(s, actions[0]), actions[1..]))
  }

  lemma ForwardStep(s: State, a: Action)
    requires Inv(s, s.updated) && s.updated <= Now(s) && Enabled(s, a) && Forward(s, a)
    ensures Inv(Do(s, a), Do(s, a).updated) && Do(s, a).updated <= Now(Do(s, a))
  {
    if BeforeUpdate(s, a).Some? {
      PreparedAgrees(s, a, s.updated);
      UpdatingAgreesExactly(s, a, s.updated);
    } else {
      QuietAgrees(s, a, s.updated);
    }
  }

  lemma {:induction false} ForwardKeepsAgreement(s: State, actions: seq<Action>)
    requires Inv(s, s.updated) && s.updated <= Now(s) && ForwardRuns(s, actions)
    ensures Inv(Exec(s, actions), Now(Exec(s, actions)))
    decreases |actions|
  {
    if actions != [] {
      ForwardStep(s, actions[0]);
      ForwardKeepsAgreement(Do(s, actions[0]), actions[1..]);
    }
  }

  /**
   From an empty queue on, whatever is set, cleared, added, removed, fired or delivered,
   however far the clock is set forward and whatever the phases of the two clocks make of
   it: ids are fresh, the queue is sorted, there is one row per identity, and every queued
   alarm has its row with its expiry and its kind, or is due with a message in flight.
   */
  lemma QueueAgreesWithTable(s: State, actions: seq<Action>)
    requires Inv(s, s.updated) && s.updated <= Now(s) && ForwardRuns(s, actions)
    ensures var end := Exec(s, actions);
            var queue, rows := end.t.queue, end.t.rows;
            && (forall a :: a in queue ==>
                  && a.id < end.seqId
                  && ((exists k :: k in rows && WakesFor(rows[k], a))
                      || (a.expiry <= end.boot + end.t.offset && end.messages > 0)))
            && (forall i, j :: 0 <= i < j < |queue| ==>
                  queue[i].expiry <= queue[j].expiry && queue[i].id != queue[j].id)
            && (forall k, l :: k in rows && l in rows && k != l ==>
                  rows[k].app != rows[l].app || rows[k].key != rows[l].key || rows[k].publicBus != rows[l].publicBus)
  {
    ForwardKeepsAgreement(s, actions);
    var end := Exec(s, actions);
    forall a | a in end.t.queue && HasRow(end.t.rows, a)
      ensures exists k :: k in end.t.rows && WakesFor(end.t.rows[k], a)
    {
      var k :| k in end.t.rows && end.t.rows[k] == LegacyRow(a.key, a.id, a.calendar, a.expiry);
      assert WakesFor(end.t.rows[k], a);
    }
  }

  /** Starting from an empty queue, whatever rows an earlier life of the daemon left. */
  lemma StartsAgreed(t: Table, boot: int)
    requires t.queue == [] && OneRowEach(t.rows)
    ensures var s := State(t, 0, 0, boot, boot + t.offset);
            Inv(s, s.updated) && s.updated == Now(s)
  {
  }

  /**
   A clock set back between the firing of the row and the delivery of its message
   leaves an alarm in the queue with nothing to fire it: no row, and no message.
   */
  lemma BackwardStepStrandsAlarm()
    ensures var alarm := AlarmQueue.Alarm(0, "key", true, 10, "");
            var s := State(Table(0, map[0 := LegacyRow("key", 0, true, 10)], [alarm]), 1, 0, 0, 0);
            var fired := Do(s, Update(Clocks(10, Some(10))));
            var back := Do(fired, Update(Clocks(5, Some(10))));
            var after := Do(back, Deliver(Clocks(5, Some(10))));
            && Inv(s, Now(s)) && fired.messages == 1
            && after.t == Table(-5, map[], [alarm]) && after.messages == 0
  {
    var alarm := AlarmQueue.Alarm(0, "key", true, 10, "");
    var row := LegacyRow("key", 0, true, 10);
    var s := State(Table(0, map[0 := row], [alarm]), 1, 0, 0, 0);
    SoleAlarmAgrees(s, row, alarm);
    RowFires(row, alarm);
    UpdateIs(s, Clocks(10, Some(10)));
    AlarmStays(alarm);
    var fired := State(Table(0, map[], [alarm]), 1, 1, 10, 10);
    UpdateIs(fired, Clocks(5, Some(10)));
    NothingToDeliver(State(Table(-5, map[], [alarm]), 1, 1, 10, 5), alarm);
  }

  lemma UpdateIs(s: State, c: Clocks)
    requires c.boot.Some?
    ensures var t := Updated(s.t, c);
            Do(s, Update(c)) == State(t, s.seqId, s.messages + Messages(s.t, c), c.boot.value, RefTime(t.offset, c))
  {
  }

  lemma NothingToDeliver(s: State, alarm: Alarm)
    requires s.t == Table(-5, map[], [alarm]) && s.messages == 1 && alarm.calendar && alarm.expiry == 10
    ensures Do(s, Deliver(Clocks(5, Some(10)))).t == s.t && Do(s, Deliver(Clocks(5, Some(10)))).messages == 0
  {
    SoleAlarm(alarm);
  }

  lemma SoleAlarmAgrees(s: State, row: Row, alarm: Alarm)
    requires s.t == Table(0, map[0 := row], [alarm]) && alarm.id < s.seqId
    requires row == LegacyRow(alarm.key, alarm.id, alarm.calendar, alarm.expiry)
    ensures Inv(s, Now(s))
  {
    assert s.t.rows[0] == row;
    assert HasRow(s.t.rows, alarm);
  }

  lemma RowFires(row: Row, alarm: Alarm)
    requires row.calendar && row.expiry == 10 && row.app == SLEEP
    ensures Updated(Table(0, map[0 := row], [alarm]), Clocks(10, Some(10))) == Table(0, map[], [alarm])
    ensures Messages(Table(0, map[0 := row], [alarm]), Clocks(10, Some(10))) == 1
  {
    assert LegacyFired(Table(0, map[0 := row], [alarm]), Clocks(10, Some(10))) == {0};
  }

  lemma AlarmStays(alarm: Alarm)
    requires alarm.calendar && alarm.expiry == 10
    ensures Updated(Table(0, map[], [alarm]), Clocks(5, Some(10))) == Table(-5, map[], [alarm])
    ensures Messages(Table(0, map[], [alarm]), Clocks(5, Some(10))) == 0
  {
    SoleAlarm(alarm);
    assert Shift(map[], -5) == map[];
    assert LegacyFired(Table(0, map[], [alarm]), Clocks(5, Some(10))) == {};
  }

  lemma SoleAlarm(alarm: Alarm)
    requires alarm.calendar && alarm.expiry == 10
    ensures AlarmQueue.StillPending(AlarmQueue.Recalculated([alarm], -5), 5) == [alarm]
    ensures AlarmQueue.StillPending([alarm], 5) == [alarm]
  {
    var moved := AlarmQueue.ShiftAll([alarm], -5);
    assert moved == [alarm];
    AlarmQueue.SortSorts(moved);
    var sorted := AlarmQueue.Sort(moved);
    assert multiset(sorted) == multiset{alarm} && |sorted| == |multiset(sorted)|;
    assert sorted[0] in multiset(sorted);
    assert sorted == [alarm];
  }
}
