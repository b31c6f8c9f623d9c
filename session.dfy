/**
 The session state of the application (src/App.jsx): the in-memory
 `habits` and `logs` lists, the `loading` and `isLocked` flags, and the
 handlers that sequence store calls and reassign those lists. The
 optimistic toggle of the `logs` list is a pure function beside the class.
 The `confirm` dialog is a boolean input; the clock is the day `today`,
 the milliseconds `msIntoDay` elapsed in it, and the timestamp `now`.
 */
module Session {

  import opened Wrappers
  import opened Store
  import opened HabitForm
  import Analytics

  // ---------------------------------------------------------------------
  // The optimistic toggle of the in-memory log list

  predicate Matches(l: Log, habitId: string, date: string) {
    l.habitId == habitId && l.date == date
  }

  /** `logs.some(...)`: whether the list has a log of `habitId` on `date`. */
  predicate IsCompleted(logs: seq<Log>, habitId: string, date: string) {
    exists i :: 0 <= i < |logs| && Matches(logs[i], habitId, date)
  }

  /** `logs.filter(...)`: the list without the logs of `habitId` on `date`. */
  function Without(logs: seq<Log>, habitId: string, date: string): (r: seq<Log>)
    ensures |r| <= |logs|
  {
    if logs == [] then []
    else (if Matches(logs[0], habitId, date) then [] else [logs[0]]) + Without(logs[1..], habitId, date)
  }

  /** The filter keeps exactly the logs that do not match the pair. */
  lemma {:induction false} WithoutMembers(logs: seq<Log>, habitId: string, date: string)
    ensures forall l :: l in Without(logs, habitId, date) <==> l in logs && !Matches(l, habitId, date)
  {
    if logs != [] {
      WithoutMembers(logs[1..], habitId, date);
      assert logs == [logs[0]] + logs[1..];
    }
  }

  /** The filter works element by element, so the logs it keeps stay in their order. */
  lemma {:induction false} WithoutAppend(a: seq<Log>, b: seq<Log>, habitId: string, date: string)
    ensures Without(a + b, habitId, date) == Without(a, habitId, date) + Without(b, habitId, date)
  {
    if a == [] {
      assert a + b == b;
    } else {
      var t := a[1..];
      assert (a + b)[0] == a[0] && (a + b)[1..] == t + b;
      WithoutAppend(t, b, habitId, date);
      if Matches(a[0], habitId, date) {
        assert Without(a + b, habitId, date) == Without(t + b, habitId, date);
        assert Without(a, habitId, date) == Without(t, habitId, date);
      } else {
        assert Without(a + b, habitId, date) == [a[0]] + Without(t + b, habitId, date);
        assert Without(a, habitId, date) == [a[0]] + Without(t, habitId, date);
      }
    }
  }

  /** A list with no matching log passes the filter unchanged. */
  lemma {:induction false} WithoutNoMatch(logs: seq<Log>, habitId: string, date: string)
    requires !IsCompleted(logs, habitId, date)
    ensures Without(logs, habitId, date) == logs
  {
    if logs != [] {
      var tail := logs[1..];
      assert !Matches(logs[0], habitId, date);
      WithoutNoMatch(tail, habitId, date);
      assert logs == [logs[0]] + tail;
    }
  }

  /** The entry the optimistic update appends. */
  function OptimisticEntry(habitId: string, date: string): Log {
    Log(LogKey(habitId, date), habitId, date, None)
  }

  /** The list `handleToggle` shows before the store answers. */
  function OptimisticToggle(logs: seq<Log>, habitId: string, date: string): seq<Log> {
    if IsCompleted(logs, habitId, date) then Without(logs, habitId, date)
    else logs + [OptimisticEntry(habitId, date)]
  }

  /** A completed pair loses exactly its matching logs; an open pair gains exactly one entry at the end. */
  lemma OptimisticShape(logs: seq<Log>, habitId: string, date: string)
    ensures var r := OptimisticToggle(logs, habitId, date);
            if IsCompleted(logs, habitId, date) then
              |r| < |logs| && forall l :: l in r <==> l in logs && !Matches(l, habitId, date)
            else
              |r| == |logs| + 1 && r[..|logs|] == logs && r[|logs|].id == LogKey(habitId, date)
              && Matches(r[|logs|], habitId, date)
  {
    var r := OptimisticToggle(logs, habitId, date);
    if IsCompleted(logs, habitId, date) {
      WithoutMembers(logs, habitId, date);
      var i :| 0 <= i < |logs| && Matches(logs[i], habitId, date);
      assert logs[i] !in r;
      if |r| == |logs| {
        WithoutSameLength(logs, habitId, date);
        assert false;
      }
    } else {
      assert r[..|logs|] == logs;
    }
  }

  lemma {:induction false} WithoutSameLength(logs: seq<Log>, habitId: string, date: string)
    requires |Without(logs, habitId, date)| == |logs|
    ensures Without(logs, habitId, date) == logs
  {
    if logs != [] {
      WithoutSameLength(logs[1..], habitId, date);
    }
  }

  /** The optimistic update flips completion of its own pair and keeps every other pair's. */
  lemma OptimisticFlips(logs: seq<Log>, habitId: string, date: string, h: string, d: string)
    ensures IsCompleted(OptimisticToggle(logs, habitId, date), h, d)
        <==> (if h == habitId && d == date then !IsCompleted(logs, h, d) else IsCompleted(logs, h, d))
  {
    var r := OptimisticToggle(logs, habitId, date);
    if IsCompleted(logs, habitId, date) {
      WithoutMembers(logs, habitId, date);
      if IsCompleted(r, h, d) {
        var i :| 0 <= i < |r| && Matches(r[i], h, d);
        assert r[i] in logs;
      }
      if (h != habitId || d != date) && IsCompleted(logs, h, d) {
        var i :| 0 <= i < |logs| && Matches(logs[i], h, d);
        assert logs[i] in r;
      }
    } else {
      if IsCompleted(logs, h, d) {
        var i :| 0 <= i < |logs| && Matches(logs[i], h, d);
        assert r[i] == logs[i];
      }
      if h == habitId && d == date {
        assert Matches(r[|logs|], h, d);
      }
    }
  }

  /** A list that mirrors the store agrees with it on completion. */
  lemma MirrorCompletion(logs: seq<Log>, stored: map<string, Log>, h: string, d: string)
    requires Lists(logs, stored, LogId)
    ensures IsCompleted(logs, h, d) <==> Completed(stored, h, d)
  {
    if IsCompleted(logs, h, d) {
      var i :| 0 <= i < |logs| && Matches(logs[i], h, d);
      assert LogId(logs[i]) in stored;
    }
    if Completed(stored, h, d) {
      var k :| k in stored && stored[k].habitId == h && stored[k].date == d;
      var i :| 0 <= i < |logs| && LogId(logs[i]) == k;
    }
  }

  /**
   If the list mirrored the store, the optimistic list and the toggled store
   agree on the completion of every pair (dates being fixed-width keys).
   */
  lemma OptimisticAgreesWithStore(logs: seq<Log>, stored: map<string, Log>, habitId: string, date: string,
                                  now: string, h: string, d: string)
    requires Lists(logs, stored, LogId) && KeyedLogs(stored)
    requires forall k :: k in stored ==> |stored[k].date| == |date|
    requires |d| == |date|
    ensures IsCompleted(OptimisticToggle(logs, habitId, date), h, d)
        <==> Completed(ToggleLogs(stored, habitId, date, now), h, d)
  {
    OptimisticFlips(logs, habitId, date, h, d);
    MirrorCompletion(logs, stored, h, d);
    ToggleCompletion(stored, habitId, date, now, h, d);
  }

  /** A list of the pruned logs holds no log the prune would remove. */
  lemma PrunedListNotExpired(logs: seq<Log>, pruned: map<string, Log>, today: int, msIntoDay: nat)
    requires Lists(logs, pruned, LogId)
    requires forall k :: k in pruned ==> !Expired(pruned[k].date, today, msIntoDay)
    ensures forall i :: 0 <= i < |logs| ==> !Expired(logs[i].date, today, msIntoDay)
  {
    forall i | 0 <= i < |logs|
      ensures !Expired(logs[i].date, today, msIntoDay)
    {
      assert LogId(logs[i]) in pruned;
    }
  }

  /** A list loaded from a keyed store holds at most one log per (habit, date). */
  lemma LoadedOnePerPair(logs: seq<Log>, stored: map<string, Log>)
    requires Lists(logs, stored, LogId) && KeyedLogs(stored)
    ensures Analytics.OnePerPair(logs)
  {
    forall i, j | 0 <= i < j < |logs|
      ensures !(logs[i].habitId == logs[j].habitId && logs[i].date == logs[j].date)
    {
      assert LogId(logs[i]) in stored && LogId(logs[j]) in stored;
      assert LogId(logs[i]) != LogId(logs[j]);
    }
  }

  // ---------------------------------------------------------------------
  // The App component's state and handlers

  class App {
    const store: HabitStore
    var habits: seq<Habit>
    var logs: seq<Log>
    var loading: bool
    var isLocked: bool

    ghost predicate Valid()
      reads this, store
    {
      store.Valid()
    }

    /** The lists show the store's records, each once. */
    ghost predicate Synced()
      reads this, store
    {
      Lists(habits, store.habits, HabitId) && Lists(logs, store.logs, LogId)
    }

    /** The initial state: empty lists, loading and locked. */
    constructor (store: HabitStore)
      requires store.Valid()
      ensures Valid() && this.store == store
      ensures habits == [] && logs == [] && loading && isLocked
    {
      this.store := store;
      habits := [];
      logs := [];
      loading := true;
      isLocked := true;
    }

    /** `refreshData`: prunes, then reads the habits and the logs. */
    method RefreshData(today: int, msIntoDay: nat)
      requires Valid() && msIntoDay < MsPerDay
      modifies this`habits, this`logs, store
      ensures Valid() && Synced() && store.IsOpen()
      ensures store.habits == old(store.habits)
      ensures store.logs == PruneLogs(old(store.logs), today, msIntoDay)
      ensures forall i :: 0 <= i < |logs| ==> !Expired(logs[i].date, today, msIntoDay)
      ensures loading == old(loading) && isLocked == old(isLocked)
    {
      store.CleanupOldLogs(today, msIntoDay);
      ghost var pruned := store.logs;
      ReloadHabits();
      ReloadLogs();
      PrunedListNotExpired(logs, pruned, today, msIntoDay);
    }

    /** `setHabits(await getHabits())`. */
    method ReloadHabits()
      requires Valid()
      modifies this`habits, store
      ensures Valid() && store.IsOpen()
      ensures store.habits == old(store.habits) && store.logs == old(store.logs)
      ensures Lists(habits, store.habits, HabitId)
    {
      var h := store.GetHabits();
      habits := h;
    }

    /** `setLogs(await getLogs())`. */
    method ReloadLogs()
      requires Valid()
      modifies this`logs, store
      ensures Valid() && store.IsOpen()
      ensures store.habits == old(store.habits) && store.logs == old(store.logs)
      ensures Lists(logs, store.logs, LogId)
    {
      var l := store.GetLogs();
      logs := l;
    }

    /** The mount effect: open the store, refresh, stop loading. */
    method Start(today: int, msIntoDay: nat)
      requires Valid() && msIntoDay < MsPerDay
      modifies this`habits, this`logs, this`loading, store
      ensures Valid() && Synced() && store.IsOpen() && !loading
      ensures store.habits == old(store.habits)
      ensures store.logs == PruneLogs(old(store.logs), today, msIntoDay)
      ensures isLocked == old(isLocked)
    {
      store.Open();
      RefreshData(today, msIntoDay);
      loading := false;
    }

    /** `onUnlock` of the lock screen. */
    method Unlock()
      modifies this`isLocked
      ensures !isLocked
    {
      isLocked := false;
    }

    /** `handleAddHabit`: upserts the habit, then refreshes. */
    method HandleAddHabit(habit: Habit, today: int, msIntoDay: nat)
      requires Valid() && msIntoDay < MsPerDay
      requires WellFormedHabit(habit)
      modifies this`habits, this`logs, store
      ensures Valid() && Synced()
      ensures store.habits == old(store.habits)[habit.id := habit]
      ensures store.logs == PruneLogs(old(store.logs), today, msIntoDay)
      ensures loading == old(loading) && isLocked == old(isLocked)
    {
      store.AddHabit(habit);
      RefreshData(today, msIntoDay);
    }

    /** The optimistic half of `handleToggle`. */
    method ApplyOptimisticToggle(habitId: string, dateStr: string)
      modifies this`logs
      ensures logs == OptimisticToggle(old(logs), habitId, dateStr)
    {
      var completed := exists i :: 0 <= i < |logs| && Matches(logs[i], habitId, dateStr);
      if completed {
        logs := Without(logs, habitId, dateStr);
      } else {
        logs := logs + [OptimisticEntry(habitId, dateStr)];
      }
    }

    /** `handleToggle`: optimistic update, store toggle, then the store's logs replace the list. */
    method HandleToggle(habitId: string, dateStr: string, now: string)
      requires Valid()
      modifies this`logs, store
      ensures Valid()
      ensures store.logs == ToggleLogs(old(store.logs), habitId, dateStr, now)
      ensures store.habits == old(store.habits)
      ensures Lists(logs, store.logs, LogId)
    {
      ApplyOptimisticToggle(habitId, dateStr);
      var _ := store.ToggleHabitDate(habitId, dateStr, now);
      ReloadLogs();
    }

    /** `handleDelete`: when confirmed, deletes the habit (its logs stay) and refreshes; otherwise nothing. */
    method HandleDelete(id: string, confirmed: bool, today: int, msIntoDay: nat)
      requires Valid() && msIntoDay < MsPerDay
      modifies this`habits, this`logs, store
      ensures Valid()
      ensures !confirmed ==> store.habits == old(store.habits) && store.logs == old(store.logs)
                             && habits == old(habits) && logs == old(logs)
      ensures confirmed ==> Synced() && store.habits == old(store.habits) - {id}
                            && store.logs == PruneLogs(old(store.logs), today, msIntoDay)
      ensures loading == old(loading) && isLocked == old(isLocked)
    {
      if confirmed {
        store.DeleteHabit(id);
        RefreshData(today, msIntoDay);
      }
    }
  }
}
