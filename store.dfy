/**
 The local database of the tracker (src/lib/db.js): two object stores,
 `habits` keyed by the habit's `id` and `logs` keyed by the composite
 string `habitId + "_" + date`. Each exported function of the source is a
 method of `HabitStore`; every one first opens the database, as the source
 awaits `initDB()` first. Asynchrony is dropped: each call runs to
 completion before the next one starts.
 */
module Store {

  import opened Wrappers
  import Dates

  datatype Habit = Habit(id: string, name: string, createdAt: string)

  /** A completion record; `completedAt` is absent in the optimistic copies the session builds. */
  datatype Log = Log(id: string, habitId: string, date: string, completedAt: Option<string>)

  const DbVersion: nat := 1
  const HabitsStoreName: string := "habits"
  const LogsStoreName: string := "logs"

  /** The composite key of the log of `habitId` on `date`. */
  function LogKey(habitId: string, date: string): (key: string)
    ensures |key| == |habitId| + 1 + |date|
    ensures key[..|habitId|] == habitId && key[|habitId|] == '_' && key[|habitId| + 1..] == date
  {
    habitId + "_" + date
  }

  /** With a fixed-width date, a key determines its (habit, date) pair. */
  lemma LogKeyInjective(h1: string, d1: string, h2: string, d2: string)
    requires |d1| == |d2|
    ensures LogKey(h1, d1) == LogKey(h2, d2) <==> h1 == h2 && d1 == d2
  {
    if LogKey(h1, d1) == LogKey(h2, d2) {
      var k := LogKey(h1, d1);
      assert |h1| == |h2|;
      assert h1 == k[..|h1|] && h2 == k[..|h2|];
    }
  }

  /** Without the fixed width the key is ambiguous: two different pairs share one key. */
  lemma LogKeyCollision()
    ensures LogKey("a_b", "c") == LogKey("a", "b_c")
  {
  }

  function HabitId(h: Habit): string { h.id }
  function LogId(l: Log): string { l.id }

  /** `r` lists every record of `m` exactly once, each under its own key. */
  ghost predicate Lists<V>(r: seq<V>, m: map<string, V>, key: V -> string) {
    && |r| == |m|
    && (forall i :: 0 <= i < |r| ==> key(r[i]) in m && m[key(r[i])] == r[i])
    && (forall i, j :: 0 <= i < j < |r| ==> key(r[i]) != key(r[j]))
    && (forall k :: k in m ==> exists i :: 0 <= i < |r| && key(r[i]) == k)
  }

  /** `getAll`: the records of a store, each once (the store's key order is not modelled). */
  method ListAll<V>(m: map<string, V>, key: V -> string) returns (r: seq<V>)
    requires forall k :: k in m ==> key(m[k]) == k
    ensures Lists(r, m, key)
  {
    r := [];
    var pending := m.Keys;
    while pending != {}
      invariant pending <= m.Keys
      invariant |r| + |pending| == |m.Keys|
      invariant forall i :: 0 <= i < |r| ==> key(r[i]) in m.Keys - pending && m[key(r[i])] == r[i]
      invariant forall i, j :: 0 <= i < j < |r| ==> key(r[i]) != key(r[j])
      invariant forall k :: k in m.Keys - pending ==> exists i :: 0 <= i < |r| && key(r[i]) == k
      decreases pending
    {
      var k :| k in pending;
      ghost var prev, prevPending := r, pending;
      r := r + [m[k]];
      pending := pending - {k};
      assert key(r[|prev|]) == k;
      forall k' | k' in m.Keys - pending
        ensures exists i :: 0 <= i < |r| && key(r[i]) == k'
      {
        if k' != k {
          assert k' in m.Keys - prevPending;
          var i :| 0 <= i < |prev| && key(prev[i]) == k';
          assert r[i] == prev[i];
        }
      }
    }
    assert m.Keys - pending == m.Keys;
  }

  /** Every log sits under its own key, which is built from its habit and date. */
  ghost predicate KeyedLogs(logs: map<string, Log>) {
    forall k :: k in logs ==> logs[k].id == k && k == LogKey(logs[k].habitId, logs[k].date)
  }

  /** Whether the store holds a log of `habitId` on `date`. */
  ghost predicate Completed(logs: map<string, Log>, habitId: string, date: string) {
    exists k :: k in logs && logs[k].habitId == habitId && logs[k].date == date
  }

  /** The logs after `toggleHabitDate(habitId, date)` at time `now`. */
  function ToggleLogs(logs: map<string, Log>, habitId: string, date: string, now: string): map<string, Log> {
    var key := LogKey(habitId, date);
    if key in logs then logs - {key}
    else logs[key := Log(key, habitId, date, Some(now))]
  }

  /**
   Whether `new Date(date) < cutoff`, the cutoff being the current instant
   moved 40 days back: `date` is read as the midnight that starts its day,
   the cutoff lies `msIntoDay` milliseconds into day `today - 40`. A date
   that does not parse is an invalid Date, and comparing it gives false.
   */
  predicate Expired(date: string, today: int, msIntoDay: nat) {
    match Dates.ParseDate(date)
    case None => false
    case Some(d) => d < today - 40 || (d == today - 40 && msIntoDay > 0)
  }

  /** The logs `cleanupOldLogs` leaves. */
  function PruneLogs(logs: map<string, Log>, today: int, msIntoDay: nat): map<string, Log> {
    map k | k in logs && !Expired(logs[k].date, today, msIntoDay) :: logs[k]
  }

  const MsPerDay: nat := 86400000

  /**
   `Expired` is the comparison of instants in milliseconds: the log's
   midnight against the current instant moved back 40 days.
   */
  lemma ExpiredIsBeforeCutoff(date: string, today: int, msIntoDay: nat)
    requires msIntoDay < MsPerDay
    ensures Expired(date, today, msIntoDay) <==>
              Dates.ParseDate(date).Some?
              && Dates.ParseDate(date).value * MsPerDay < (today - 40) * MsPerDay + msIntoDay
  {
    if Dates.ParseDate(date).Some? {
      var d := Dates.ParseDate(date).value;
      var e := d - (today - 40);
      assert d * MsPerDay == (today - 40) * MsPerDay + e * MsPerDay;
      if e < 0 {
        assert e * MsPerDay <= 0 - MsPerDay as int;
      } else if e > 0 {
        assert e * MsPerDay >= MsPerDay;
      }
    }
  }

  class HabitStore {
    var version: nat
    var storeNames: set<string>
    var habits: map<string, Habit>
    var logs: map<string, Log>

    ghost predicate Valid()
      reads this
    {
      && version <= DbVersion
      && (version == DbVersion ==> HabitsStoreName in storeNames && LogsStoreName in storeNames)
      && (HabitsStoreName !in storeNames ==> habits == map[])
      && (LogsStoreName !in storeNames ==> logs == map[])
      && (forall k :: k in habits ==> habits[k].id == k)
      && KeyedLogs(logs)
    }

    ghost predicate IsOpen()
      reads this
    {
      version == DbVersion
    }

    /** A database that has never been opened. */
    constructor ()
      ensures Valid() && !IsOpen()
      ensures storeNames == {} && habits == map[] && logs == map[]
    {
      version := 0;
      storeNames := {};
      habits := map[];
      logs := map[];
    }

    /** `initDB`: the upgrade runs on a first open and creates each missing store. */
    method Open()
      requires Valid()
      modifies this
      ensures Valid() && IsOpen()
      ensures old(IsOpen()) ==> storeNames == old(storeNames)
      ensures storeNames == old(storeNames) + {HabitsStoreName, LogsStoreName}
      ensures habits == old(habits) && logs == old(logs)
    {
      if version < DbVersion {
        if HabitsStoreName !in storeNames {
          storeNames := storeNames + {HabitsStoreName};
        }
        if LogsStoreName !in storeNames {
          storeNames := storeNames + {LogsStoreName};
        }
        version := DbVersion;
      }
    }

    /** `addHabit`: an upsert by `id`. */
    method AddHabit(habit: Habit)
      requires Valid()
      modifies this
      ensures Valid() && IsOpen()
      ensures habits == old(habits)[habit.id := habit]
      ensures logs == old(logs)
    {
      Open();
      habits := habits[habit.id := habit];
    }

    /** `getHabits`. */
    method GetHabits() returns (r: seq<Habit>)
      requires Valid()
      modifies this
      ensures Valid() && IsOpen()
      ensures habits == old(habits) && logs == old(logs)
      ensures Lists(r, habits, HabitId)
    {
      Open();
      r := ListAll(habits, HabitId);
    }

    /** `deleteHabit`: removes the habit record only; its logs stay behind. */
    method DeleteHabit(id: string)
      requires Valid()
      modifies this
      ensures Valid() && IsOpen()
      ensures habits == old(habits) - {id}
      ensures logs == old(logs)
    {
      Open();
      habits := habits - {id};
    }

    /** `toggleHabitDate`: deletes the log under the key if there is one, else adds it; returns whether it was added. */
    method ToggleHabitDate(habitId: string, date: string, now: string) returns (added: bool)
      requires Valid()
      modifies this
      ensures Valid() && IsOpen()
      ensures added == (LogKey(habitId, date) !in old(logs))
      ensures added == (LogKey(habitId, date) in logs)
      ensures logs == ToggleLogs(old(logs), habitId, date, now)
      ensures habits == old(habits)
    {
      Open();
      var id := LogKey(habitId, date);
      if id in logs {
        logs := logs - {id};
        added := false;
      } else {
        logs := logs[id := Log(id, habitId, date, Some(now))];
        added := true;
      }
    }

    /** `getLogs`. */
    method GetLogs() returns (r: seq<Log>)
      requires Valid()
      modifies this
      ensures Valid() && IsOpen()
      ensures habits == old(habits) && logs == old(logs)
      ensures Lists(r, logs, LogId)
    {
      Open();
      r := ListAll(logs, LogId);
    }

    /**
     `cleanupOldLogs`: reads all logs, then deletes each one dated before
     the cutoff. The clock is the day `today` and the time `msIntoDay`
     already elapsed in it.
     */
    method CleanupOldLogs(today: int, msIntoDay: nat)
      requires Valid()
      requires msIntoDay < MsPerDay
      modifies this
      ensures Valid() && IsOpen()
      ensures logs == PruneLogs(old(logs), today, msIntoDay)
      ensures habits == old(habits)
    {
      Open();
      var snapshot := ListAll(logs, LogId);
      ghost var before := logs;
      DeleteExpired(snapshot, today, msIntoDay);
      PruneBySnapshot(before, logs, snapshot, today, msIntoDay);
      PruneKeepsKeyed(before, today, msIntoDay);
    }

    /** The read-write transaction of `cleanupOldLogs`: one delete per expired log of the snapshot. */
    method DeleteExpired(snapshot: seq<Log>, today: int, msIntoDay: nat)
      modifies this`logs
      ensures logs == old(logs) - ExpiredIds(snapshot, today, msIntoDay)
    {
      for i := 0 to |snapshot|
        invariant logs == old(logs) - ExpiredIds(snapshot[..i], today, msIntoDay)
      {
        var log := snapshot[i];
        ghost var done := ExpiredIds(snapshot[..i], today, msIntoDay);
        assert snapshot[..i + 1][..i] == snapshot[..i];
        assert ExpiredIds(snapshot[..i + 1], today, msIntoDay)
            == done + (if Expired(log.date, today, msIntoDay) then {log.id} else {});
        if Expired(log.date, today, msIntoDay) {
          logs := logs - {log.id};
          RemoveOneMore(old(logs), done, log.id);
        }
      }
      assert snapshot[..|snapshot|] == snapshot;
    }
  }

  // ---------------------------------------------------------------------
  // Properties of the store's operations

  /** After a toggle the key is present exactly when it was absent before. */
  lemma ToggleFlips(logs: map<string, Log>, habitId: string, date: string, now: string)
    ensures LogKey(habitId, date) in ToggleLogs(logs, habitId, date, now) <==> LogKey(habitId, date) !in logs
  {
  }

  /** A toggle touches the entry under its own key and no other. */
  lemma ToggleFrames(logs: map<string, Log>, habitId: string, date: string, now: string, k: string)
    requires k != LogKey(habitId, date)
    ensures k in ToggleLogs(logs, habitId, date, now) <==> k in logs
    ensures k in logs ==> ToggleLogs(logs, habitId, date, now)[k] == logs[k]
  {
  }

  /** An added log records the habit, the date and the time of the toggle under the composite key. */
  lemma ToggleAddsRecord(logs: map<string, Log>, habitId: string, date: string, now: string)
    requires LogKey(habitId, date) !in logs
    ensures ToggleLogs(logs, habitId, date, now)[LogKey(habitId, date)]
         == Log(LogKey(habitId, date), habitId, date, Some(now))
  {
  }

  /** Toggling twice restores the key set; from an absent key, it restores the whole store. */
  lemma ToggleTwice(logs: map<string, Log>, habitId: string, date: string, now1: string, now2: string)
    ensures ToggleLogs(ToggleLogs(logs, habitId, date, now1), habitId, date, now2).Keys == logs.Keys
    ensures LogKey(habitId, date) !in logs ==>
              ToggleLogs(ToggleLogs(logs, habitId, date, now1), habitId, date, now2) == logs
  {
    var key := LogKey(habitId, date);
    var twice := ToggleLogs(ToggleLogs(logs, habitId, date, now1), habitId, date, now2);
    if key !in logs {
      assert twice.Keys == logs.Keys;
    }
  }

  /** A toggle keeps every log under the key built from its own habit and date. */
  lemma ToggleKeepsKeyed(logs: map<string, Log>, habitId: string, date: string, now: string)
    requires KeyedLogs(logs)
    ensures KeyedLogs(ToggleLogs(logs, habitId, date, now))
  {
  }

  /** In a keyed store, completion of a pair is presence of its key: at most one log per (habit, date). */
  lemma CompletedIsKeyPresent(logs: map<string, Log>, habitId: string, date: string)
    requires KeyedLogs(logs)
    requires forall k :: k in logs ==> |logs[k].date| == |date|
    ensures Completed(logs, habitId, date) <==> LogKey(habitId, date) in logs
  {
    var key := LogKey(habitId, date);
    if key in logs {
      LogKeyInjective(logs[key].habitId, logs[key].date, habitId, date);
    }
  }

  /** Two logs of one keyed store with the same habit and date are the same log. */
  lemma OneLogPerPair(logs: map<string, Log>, k1: string, k2: string)
    requires KeyedLogs(logs) && k1 in logs && k2 in logs
    requires logs[k1].habitId == logs[k2].habitId && logs[k1].date == logs[k2].date
    ensures k1 == k2
  {
  }

  /** Toggling one pair flips its completion and keeps every other pair's, for fixed-width dates. */
  lemma ToggleCompletion(logs: map<string, Log>, habitId: string, date: string, now: string, h: string, d: string)
    requires KeyedLogs(logs)
    requires forall k :: k in logs ==> |logs[k].date| == |date|
    requires |d| == |date|
    ensures Completed(ToggleLogs(logs, habitId, date, now), h, d)
        <==> (if h == habitId && d == date then !Completed(logs, h, d) else Completed(logs, h, d))
  {
    var after := ToggleLogs(logs, habitId, date, now);
    ToggleKeepsKeyed(logs, habitId, date, now);
    CompletedIsKeyPresent(logs, h, d);
    CompletedIsKeyPresent(after, h, d);
    LogKeyInjective(h, d, habitId, date);
  }

  /** The prune only deletes: what it keeps is unchanged. */
  lemma PruneOnlyDeletes(logs: map<string, Log>, today: int, msIntoDay: nat)
    ensures PruneLogs(logs, today, msIntoDay).Keys <= logs.Keys
    ensures forall k :: k in PruneLogs(logs, today, msIntoDay) ==> PruneLogs(logs, today, msIntoDay)[k] == logs[k]
  {
  }

  /** Logs dated inside the window (or not parseable) are kept; logs dated more than 40 days back are removed. */
  lemma PruneByDate(logs: map<string, Log>, today: int, msIntoDay: nat, k: string)
    requires k in logs
    ensures Dates.ParseDate(logs[k].date).None? ==> k in PruneLogs(logs, today, msIntoDay)
    ensures Dates.ParseDate(logs[k].date).Some? ==>
              (Dates.ParseDate(logs[k].date).value >= today - 39 ==> k in PruneLogs(logs, today, msIntoDay))
    ensures Dates.ParseDate(logs[k].date).Some? ==>
              (Dates.ParseDate(logs[k].date).value < today - 40 ==> k !in PruneLogs(logs, today, msIntoDay))
    ensures Dates.ParseDate(logs[k].date).Some? ==>
              (Dates.ParseDate(logs[k].date).value == today - 40 ==> (k in PruneLogs(logs, today, msIntoDay) <==> msIntoDay == 0))
  {
  }

  /** The key of a window day survives the prune. */
  lemma PruneKeepsWindow(logs: map<string, Log>, today: int, msIntoDay: nat, k: string, j: int)
    requires Dates.WindowInKeyRange(today) && 0 <= j < Dates.WindowLength
    requires k in logs && logs[k].date == Dates.WindowKeys(today)[j]
    ensures k in PruneLogs(logs, today, msIntoDay)
  {
    Dates.ParseFormatDate(Dates.Window(today)[j]);
  }

  /** A log dated 41 days back is gone after the prune. */
  lemma PruneRemovesDay41(logs: map<string, Log>, today: int, msIntoDay: nat, k: string)
    requires Dates.InKeyRange(today - 41)
    requires k in logs && logs[k].date == Dates.FormatDate(today - 41)
    ensures k !in PruneLogs(logs, today, msIntoDay)
  {
    Dates.ParseFormatDate(today - 41);
  }

  /** A second prune at the same instant deletes nothing more. */
  lemma PruneIdempotent(logs: map<string, Log>, today: int, msIntoDay: nat)
    ensures PruneLogs(PruneLogs(logs, today, msIntoDay), today, msIntoDay) == PruneLogs(logs, today, msIntoDay)
  {
  }

  /** After a prune at any time but midnight, no prune later that day deletes anything more. */
  lemma PruneLaterSameDay(logs: map<string, Log>, today: int, first: nat, later: nat)
    requires first > 0
    ensures PruneLogs(PruneLogs(logs, today, first), today, later) == PruneLogs(logs, today, first)
  {
  }

  /**
   A prune at exactly midnight keeps a log dated 40 days back, and a prune
   later the same day removes it: a second prune that day is not always a no-op.
   */
  lemma MidnightThenLater(logs: map<string, Log>, today: int, later: nat, k: string)
    requires Dates.InKeyRange(today - 40) && later > 0
    requires k in logs && logs[k].date == Dates.FormatDate(today - 40)
    ensures k in PruneLogs(logs, today, 0)
    ensures k !in PruneLogs(PruneLogs(logs, today, 0), today, later)
  {
    Dates.ParseFormatDate(today - 40);
  }

  lemma RemoveOneMore(m: map<string, Log>, gone: set<string>, k: string)
    ensures (m - gone) - {k} == m - (gone + {k})
  {
  }

  /** The ids of the expired logs of a list. */
  function ExpiredIds(s: seq<Log>, today: int, msIntoDay: nat): set<string> {
    if s == [] then {}
    else
      var last := s[|s| - 1];
      ExpiredIds(s[..|s| - 1], today, msIntoDay) + (if Expired(last.date, today, msIntoDay) then {last.id} else {})
  }

  lemma {:induction false} ExpiredIdsMembers(s: seq<Log>, today: int, msIntoDay: nat, k: string)
    ensures k in ExpiredIds(s, today, msIntoDay)
        <==> exists j :: 0 <= j < |s| && s[j].id == k && Expired(s[j].date, today, msIntoDay)
  {
    if s != [] {
      var init := s[..|s| - 1];
      ExpiredIdsMembers(init, today, msIntoDay, k);
      if k in ExpiredIds(init, today, msIntoDay) {
        var j :| 0 <= j < |init| && init[j].id == k && Expired(init[j].date, today, msIntoDay);
        assert s[j] == init[j];
      }
      if exists j :: 0 <= j < |s| && s[j].id == k && Expired(s[j].date, today, msIntoDay) {
        var j :| 0 <= j < |s| && s[j].id == k && Expired(s[j].date, today, msIntoDay);
        if j < |init| {
          assert init[j] == s[j];
        }
      }
    }
  }

  /** Deleting the expired entries of a listing of `before`, one by one, yields the prune of `before`. */
  lemma PruneBySnapshot(before: map<string, Log>, after: map<string, Log>, snapshot: seq<Log>, today: int, msIntoDay: nat)
    requires Lists(snapshot, before, LogId)
    requires after == before - ExpiredIds(snapshot, today, msIntoDay)
    ensures after == PruneLogs(before, today, msIntoDay)
  {
    forall k | k in before
      ensures k in after <==> !Expired(before[k].date, today, msIntoDay)
    {
      var j :| 0 <= j < |snapshot| && LogId(snapshot[j]) == k;
      ExpiredIdsMembers(snapshot, today, msIntoDay, k);
      if k !in after {
        var j' :| 0 <= j' < |snapshot| && snapshot[j'].id == k && Expired(snapshot[j'].date, today, msIntoDay);
        assert LogId(snapshot[j']) == k;
      }
    }
  }

  /** The prune keeps the store keyed. */
  lemma PruneKeepsKeyed(logs: map<string, Log>, today: int, msIntoDay: nat)
    requires KeyedLogs(logs)
    ensures KeyedLogs(PruneLogs(logs, today, msIntoDay))
  {
  }
}
