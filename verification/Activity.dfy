/**
 The activity roster of src/pwrevents/activity.c: a queue sorted by end time,
 mirrored into kernel wakelocks, that can be frozen against new entries.

 Every method is one handler on the main loop or one mutex-protected pass of the
 suspend thread, run to completion; module PowerSystem interleaves them.
 */
module Activity {
  import opened Clock
  import opened Kernel
  import opened Wrappers

  const MAX_DURATION_MS: nat := 15 * 60 * 1000

  datatype Activity = Activity(id: string, start: Instant, end: Instant, durationMs: nat)

  function Clamp(durationMs: nat): nat {
    if durationMs >= MAX_DURATION_MS then MAX_DURATION_MS else durationMs
  }

  /** Ends exactly the clamped duration after it starts. */
  function NewActivity(id: string, durationMs: nat, now: Instant): (a: Activity)
    ensures a.id == id && a.start == now
    ensures a.end.Nanos() == now.Nanos() + Clamp(durationMs) * NSEC_PER_MSEC
  {
    Activity(id, now, Accum(now, OfMs(Clamp(durationMs))), Clamp(durationMs))
  }

  /** The code's test: strictly past the end. */
  predicate IsExpired(a: Activity, now: Instant) {
    IsGreater(now, a.end)
  }

  lemma ExpiredMeans(a: Activity, now: Instant)
    ensures IsExpired(a, now) <==> now.Nanos() > a.end.Nanos()
  {
  }

  predicate HasId(roster: seq<Activity>, id: string) {
    exists i :: 0 <= i < |roster| && roster[i].id == id
  }

  predicate Sorted(roster: seq<Activity>) {
    forall i, j :: 0 <= i < j < |roster| ==> roster[i].end.Nanos() <= roster[j].end.Nanos()
  }

  predicate UniqueIds(roster: seq<Activity>) {
    forall i, j :: 0 <= i < j < |roster| ==> roster[i].id != roster[j].id
  }

  /** Every entry ends within the limit of its start, and none started after `latest`. */
  predicate Bounded(roster: seq<Activity>, latest: int) {
    forall a :: a in roster ==>
      a.start.Nanos() <= latest && a.end.Nanos() <= a.start.Nanos() + MAX_DURATION_MS * NSEC_PER_MSEC
  }

  /** The entries not expired, in order. */
  function Unexpired(roster: seq<Activity>, now: Instant): (r: seq<Activity>)
    ensures forall a :: a in r <==> a in roster && !IsExpired(a, now)
  {
    if roster == [] then []
    else if IsExpired(roster[0], now) then Unexpired(roster[1..], now)
    else
      assert roster == [roster[0]] + roster[1..];
      [roster[0]] + Unexpired(roster[1..], now)
  }

  /** In a sorted roster the expired entries are a prefix, so a pass may stop at the first entry that is not. */
  lemma {:induction false} ExpiredIsPrefix(roster: seq<Activity>, k: nat, now: Instant)
    requires Sorted(roster) && k <= |roster|
    requires forall i :: 0 <= i < k ==> IsExpired(roster[i], now)
    requires k < |roster| ==> !IsExpired(roster[k], now)
    ensures Unexpired(roster, now) == roster[k..]
    decreases |roster|
  {
    if k > 0 {
      ExpiredIsPrefix(roster[1..], k - 1, now);
      assert roster[1..][k - 1..] == roster[k..];
    } else if roster != [] {
      if |roster| > 1 {
        ExpiredMeans(roster[0], now);
        ExpiredMeans(roster[1], now);
      }
      ExpiredIsPrefix(roster[1..], 0, now);
    }
  }

  lemma NoneUnexpired(roster: seq<Activity>, now: Instant)
    requires forall i :: 0 <= i < |roster| ==> IsExpired(roster[i], now)
    ensures Unexpired(roster, now) == []
  {
  }

  /** The outermost unexpired entry of a sorted roster has the extreme end time. */
  lemma EndIsExtreme(roster: seq<Activity>, k: nat, now: Instant, getMax: bool)
    requires Sorted(roster) && k < |roster| && !IsExpired(roster[k], now)
    requires forall i :: 0 <= i < |roster| && (if getMax then k < i else i < k) ==> IsExpired(roster[i], now)
    ensures roster[k] in Unexpired(roster, now)
    ensures forall a :: a in Unexpired(roster, now) ==>
              if getMax then a.end.Nanos() <= roster[k].end.Nanos() else roster[k].end.Nanos() <= a.end.Nanos()
  {
  }

  /** Once the limit has passed since the last start, every entry has expired. */
  lemma AllExpireInTime(roster: seq<Activity>, latest: int, now: Instant)
    requires Bounded(roster, latest) && now.Nanos() > latest + MAX_DURATION_MS * NSEC_PER_MSEC
    ensures Unexpired(roster, now) == []
  {
  }

  /** after is before with a placed after every entry that ends no later and before every entry that ends later. */
  ghost predicate Inserted(before: seq<Activity>, after: seq<Activity>, a: Activity) {
    exists k :: 0 <= k <= |before| && InsertedAt(before, after, a, k)
  }

  ghost predicate InsertedAt(before: seq<Activity>, after: seq<Activity>, a: Activity, k: nat)
    requires k <= |before|
  {
    && after == before[..k] + [a] + before[k..]
    && (forall i :: 0 <= i < k ==> before[i].end.Nanos() <= a.end.Nanos())
    && (forall i :: k <= i < |before| ==> before[i].end.Nanos() > a.end.Nanos())
  }

  /** after is before without its entry for id, if it has one. */
  ghost predicate Removed(before: seq<Activity>, after: seq<Activity>, id: string) {
    if HasId(before, id)
    then exists k :: 0 <= k < |before| && before[k].id == id && after == before[..k] + before[k + 1..]
    else after == before
  }

  /** Taking out entry k leaves every other entry, one place to the left from k on. */
  lemma WithoutEntry(before: seq<Activity>, k: nat)
    requires UniqueIds(before) && k < |before|
    ensures var after := before[..k] + before[k + 1..];
            UniqueIds(after) && forall x :: HasId(after, x) <==> HasId(before, x) && x != before[k].id
  {
    var after := before[..k] + before[k + 1..];
    assert forall i :: 0 <= i < |after| ==> after[i] == before[if i < k then i else i + 1];
    forall x ensures HasId(after, x) <==> HasId(before, x) && x != before[k].id {
      if HasId(after, x) {
        var i :| 0 <= i < |after| && after[i].id == x;
        assert before[if i < k then i else i + 1].id == x;
      }
      if HasId(before, x) && x != before[k].id {
        var i :| 0 <= i < |before| && before[i].id == x;
        assert after[if i < k then i else i - 1].id == x;
      }
    }
  }

  lemma RemovedIds(before: seq<Activity>, after: seq<Activity>, id: string)
    requires UniqueIds(before) && Removed(before, after, id)
    ensures UniqueIds(after)
    ensures forall x :: HasId(after, x) <==> HasId(before, x) && x != id
  {
    if HasId(before, id) {
      var k :| 0 <= k < |before| && before[k].id == id && after == before[..k] + before[k + 1..];
      WithoutEntry(before, k);
    }
  }

  /** Putting a at place k keeps every entry, one place to the right from k on. */
  lemma WithEntry(before: seq<Activity>, a: Activity, k: nat)
    requires UniqueIds(before) && !HasId(before, a.id) && k <= |before|
    ensures var after := before[..k] + [a] + before[k..];
            UniqueIds(after) && forall x :: HasId(after, x) <==> HasId(before, x) || x == a.id
  {
    var after := before[..k] + [a] + before[k..];
    assert forall i :: 0 <= i < |after| ==>
      after[i] == if i < k then before[i] else if i == k then a else before[i - 1];
    forall x ensures HasId(after, x) <==> HasId(before, x) || x == a.id {
      if HasId(after, x) && x != a.id {
        var i :| 0 <= i < |after| && after[i].id == x;
        assert before[if i < k then i else i - 1].id == x;
      }
      if HasId(before, x) {
        var i :| 0 <= i < |before| && before[i].id == x;
        assert after[if i < k then i else i + 1].id == x;
      }
      assert after[k].id == a.id;
    }
  }

  lemma InsertedIds(before: seq<Activity>, after: seq<Activity>, a: Activity)
    requires UniqueIds(before) && !HasId(before, a.id) && Inserted(before, after, a)
    ensures UniqueIds(after)
    ensures forall x :: HasId(after, x) <==> HasId(before, x) || x == a.id
  {
    var k :| 0 <= k <= |before| && InsertedAt(before, after, a, k);
    WithEntry(before, a, k);
  }

  class Roster {
    var roster: seq<Activity>
    var frozen: bool
    const kernel: WakeLocks
    ghost var latestStart: int

    /** Sorted, one entry per id, durations bounded. */
    ghost predicate Ordered()
      reads this
    {
      Sorted(roster) && UniqueIds(roster) && Bounded(roster, latestStart)
    }

    /** And exactly the entries' wakelocks held. */
    ghost predicate Valid()
      reads this, kernel
    {
      Ordered() && Mirrored()
    }

    ghost predicate Mirrored()
      reads this, kernel
    {
      forall id :: ActivityLock(id) in kernel.held <==> kernel.supported && HasId(roster, id)
    }

    /** Locks of other owners are left alone. */
    twostate predicate OthersUntouched()
      reads this, kernel
    {
      forall l: Lock :: !l.ActivityLock? ==> (l in kernel.held <==> l in old(kernel.held))
    }

    constructor (kernel: WakeLocks)
      requires forall id :: ActivityLock(id) !in kernel.held
      ensures Valid() && this.kernel == kernel && roster == [] && !frozen
    {
      roster, frozen, this.kernel := [], false, kernel;
      latestStart := 0;
    }

    /** g_queue_insert_sorted with the roster's comparison: walk past every entry that does not end later. */
    method InsertSorted(a: Activity)
      requires Sorted(roster)
      modifies this`roster
      ensures Sorted(roster) && Inserted(old(roster), roster, a)
    {
      var k := 0;
      while k < |roster| && !IsGreater(roster[k].end, a.end)
        invariant 0 <= k <= |roster| && roster == old(roster)
        invariant forall i :: 0 <= i < k ==> roster[i].end.Nanos() <= a.end.Nanos()
      {
        GreaterIsOrder(roster[k].end, a.end);
        k := k + 1;
      }
      if k < |roster| {
        GreaterIsOrder(roster[k].end, a.end);
      }
      roster := roster[..k] + [a] + roster[k..];
      assert InsertedAt(old(roster), roster, a, k);
    }

    method RemoveId(id: string) returns (removed: Option<Activity>)
      modifies this`roster
      ensures Removed(old(roster), roster, id)
      ensures removed.Some? <==> HasId(old(roster), id)
      ensures removed.Some? ==> removed.value.id == id && removed.value in old(roster)
      ensures forall a :: a in roster ==> a in old(roster)
      ensures old(Sorted(roster)) ==> Sorted(roster)
    {
      var k := 0;
      while k < |roster|
        invariant 0 <= k <= |roster| && roster == old(roster)
        invariant forall i :: 0 <= i < k ==> roster[i].id != id
      {
        if roster[k].id == id {
          removed := Some(roster[k]);
          roster := roster[..k] + roster[k + 1..];
          return;
        }
        k := k + 1;
      }
      return None;
    }

    method Stop(id: string)
      requires Valid()
      modifies this`roster, kernel
      ensures Valid() && OthersUntouched()
      ensures Removed(old(roster), roster, id)
    {
      var removed := RemoveId(id);
      RemovedIds(old(roster), roster, id);
      if removed.Some? {
        kernel.Release(ActivityLock(removed.value.id));
      }
    }

    /** Adds nothing while frozen. */
    method Insert(id: string, durationMs: nat, now: Instant) returns (inserted: bool)
      requires Sorted(roster) && UniqueIds(roster) && Bounded(roster, latestStart)
      requires !HasId(roster, id) && latestStart <= now.Nanos()
      modifies this`roster, this`latestStart
      ensures Sorted(roster) && UniqueIds(roster) && Bounded(roster, latestStart)
      ensures inserted == !frozen && latestStart <= now.Nanos()
      ensures !inserted ==> roster == old(roster)
      ensures inserted ==> Inserted(old(roster), roster, NewActivity(id, durationMs, now))
      ensures inserted ==> forall x :: HasId(roster, x) <==> HasId(old(roster), x) || x == id
    {
      if frozen {
        return false;
      }
      var a := NewActivity(id, durationMs, now);
      InsertSorted(a);
      latestStart := now.Nanos();
      InsertedIds(old(roster), roster, a);
      return true;
    }

    /**
     Replaces the entry of that id. While frozen the old entry goes all the same
     and nothing is added, and no wakelock is taken that nothing could release.
     */
    method Start(id: string, durationMs: nat, now: Instant) returns (started: bool)
      requires Valid() && latestStart <= now.Nanos()
      modifies this, kernel
      ensures Valid() && OthersUntouched()
      ensures started == !old(frozen) && frozen == old(frozen) && latestStart <= now.Nanos()
      ensures Started(old(roster), roster, id, durationMs, now, started)
      ensures started ==> HasId(roster, id) && (kernel.supported ==> ActivityLock(id) in kernel.held)
      ensures started ==>
                exists i :: 0 <= i < |roster| && roster[i].id == id && roster[i].start == now
                            && roster[i].end.Nanos() == now.Nanos()
                               + (if durationMs <= 900_000 then durationMs else 900_000) * 1_000_000
    {
      Stop(id);
      ghost var rest := roster;
      RemovedIds(old(roster), rest, id);
      started := Insert(id, durationMs, now);
      if !started {
        return;
      }
      kernel.Take(ActivityLock(id));
      ghost var a := NewActivity(id, durationMs, now);
      ghost var k :| 0 <= k <= |rest| && InsertedAt(rest, roster, a, k);
      assert roster[k] == a;
    }

    static ghost predicate Started(before: seq<Activity>, after: seq<Activity>, id: string, durationMs: nat,
                                   now: Instant, started: bool) {
      exists rest :: Removed(before, rest, id)
                     && if started then Inserted(rest, after, NewActivity(id, durationMs, now)) else after == rest
    }

    /** Stops the entry at the head: its wakelock goes with it. */
    method StopHead()
      requires Ordered() && roster != []
      modifies this`roster, kernel
      ensures Ordered() && OthersUntouched() && (old(Mirrored()) ==> Mirrored())
      ensures roster == old(roster)[1..]
    {
      WithoutEntry(roster, 0);
      assert roster[1..] == roster[..0] + roster[0 + 1..];
      kernel.Release(ActivityLock(roster[0].id));
      roster := roster[1..];
    }

    /** The early exit loses nothing: exactly the expired entries go, each with its wakelock. */
    method RemoveExpired(now: Instant)
      requires Ordered()
      modifies this`roster, kernel
      ensures Ordered() && OthersUntouched() && (old(Mirrored()) ==> Mirrored())
      ensures roster == Unexpired(old(roster), now)
      ensures now.Nanos() > latestStart + MAX_DURATION_MS * NSEC_PER_MSEC ==> roster == []
    {
      ghost var k := 0;
      while roster != [] && IsExpired(roster[0], now)
        invariant 0 <= k <= |old(roster)| && roster == old(roster)[k..]
        invariant forall i :: 0 <= i < k ==> IsExpired(old(roster)[i], now)
        invariant Ordered() && OthersUntouched() && (old(Mirrored()) ==> Mirrored())
        decreases |roster|
      {
        StopHead();
        k := k + 1;
      }
      ExpiredIsPrefix(old(roster), k, now);
      if now.Nanos() > latestStart + MAX_DURATION_MS * NSEC_PER_MSEC {
        AllExpireInTime(old(roster), latestStart, now);
      }
    }

    /** The first entry not expired from either end of the queue: the least or the greatest end time there is. */
    method Obtain(now: Instant, getMax: bool) returns (found: Option<Activity>)
      requires Sorted(roster)
      ensures found.None? <==> Unexpired(roster, now) == []
      ensures found.Some? ==> found.value in Unexpired(roster, now)
      ensures found.Some? ==> forall a :: a in Unexpired(roster, now) ==>
                if getMax then a.end.Nanos() <= found.value.end.Nanos() else found.value.end.Nanos() <= a.end.Nanos()
    {
      var iter: int := if getMax then |roster| - 1 else 0;
      while 0 <= iter < |roster|
        invariant -1 <= iter <= |roster|
        invariant getMax ==> forall i :: iter < i < |roster| ==> IsExpired(roster[i], now)
        invariant !getMax ==> forall i :: 0 <= i < iter && i < |roster| ==> IsExpired(roster[i], now)
        invariant !getMax ==> iter >= 0
        invariant getMax ==> iter < |roster|
        decreases if getMax then iter + 1 else |roster| - iter
      {
        if !IsExpired(roster[iter], now) {
          EndIsExtreme(roster, iter, now, getMax);
          return Some(roster[iter]);
        }
        iter := if getMax then iter - 1 else iter + 1;
      }
      NoneUnexpired(roster, now);
      return None;
    }

    method CanSleep(now: Instant) returns (can: bool)
      requires Sorted(roster)
      ensures can <==> forall a :: a in roster ==> now.Nanos() > a.end.Nanos()
    {
      var first := Obtain(now, false);
      forall a | a in roster ensures IsExpired(a, now) <==> now.Nanos() > a.end.Nanos() {
        ExpiredMeans(a, now);
      }
      can := first.None?;
    }

    /** Whole milliseconds until the last unexpired entry ends. */
    method GetMaxDuration(now: Instant) returns (ms: int)
      requires Sorted(roster)
      ensures Unexpired(roster, now) == [] ==> ms == 0
      ensures Unexpired(roster, now) != [] ==>
                && (exists a :: a in Unexpired(roster, now) && ms * NSEC_PER_MSEC <= a.end.Nanos() - now.Nanos())
                && (forall a :: a in Unexpired(roster, now) ==> a.end.Nanos() - now.Nanos() < (ms + 1) * NSEC_PER_MSEC)
    {
      var last := Obtain(now, true);
      if last.None? {
        return 0;
      }
      ms := GetMs(Diff(last.value.end, now));
    }

    method Count(from: Instant) returns (count: nat)
      ensures count == |Unexpired(roster, from)|
    {
      count := 0;
      var k := |roster|;
      assert roster[k..] == [];
      while k > 0
        invariant 0 <= k <= |roster|
        invariant count == |Unexpired(roster[k..], from)|
      {
        k := k - 1;
        assert roster[k..][1..] == roster[k + 1..];
        if !IsGreater(from, roster[k].end) {
          count := count + 1;
        }
      }
      assert roster[0..] == roster;
    }

    /** Freezes exactly when no entry is unexpired; from then on nothing is added until the thaw. */
    method Freeze(now: Instant) returns (clear: bool)
      requires Valid()
      modifies this`frozen
      ensures clear <==> forall a :: a in roster ==> now.Nanos() > a.end.Nanos()
      ensures frozen == (old(frozen) || clear)
    {
      clear := CanSleep(now);
      if clear {
        frozen := true;
      }
    }

    method Thaw()
      modifies this`frozen
      ensures !frozen
    {
      frozen := false;
    }
  }
}
