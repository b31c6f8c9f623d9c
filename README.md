# Habit tracker data layer, in Dafny

A model of the logic of a browser habit tracker. Users define habits and tick
them off day by day on a rolling 40-day grid. The app keeps two local object
stores, `habits` and `logs`. A log is keyed by `habitId + "_" + date`, and
`date` is a `YYYY-MM-DD` key. Old logs are pruned when a session starts. The
app shows per-day completion percentages and a plain-text password gate.

Modules, one per source file:

- `Dates` (`dates.dfy`) covers `src/lib/utils.js`. A day is an integer day
  number, 0 being 1970-01-01. The key is the proleptic Gregorian
  `YYYY-MM-DD` rendering: the `full-date` of section 5.6 of RFC 3339, the
  extended calendar-date form of ISO 8601. It comes with its parser,
  round-trip and injectivity lemmas, and the 40-day window.
- `Store` (`store.dfy`) covers `src/lib/db.js`. The class `HabitStore` holds
  the two object stores as `map` fields, plus the database version and the
  set of store names. Each exported function is a method of it. The spec
  functions `ToggleLogs` and `PruneLogs` carry the lemmas about toggling and
  pruning.
- `Analytics` (`analytics.dfy`) covers `src/components/Analytics.jsx`: the
  chart data, today's score, the average and the two counters, all as pure
  functions.
- `HabitForm` (`habit_form.dfy`) covers the submit rule of
  `src/components/AddHabitModal.jsx`: names are trimmed as
  `String.prototype.trim` trims them, and a habit is made only from a
  non-empty trimmed name.
- `Session` (`session.dfy`) covers `src/App.jsx`. The class `App` holds the
  in-memory `habits` and `logs` lists and the handlers. The optimistic toggle
  is a pure function, proved to agree with the store.
- `Lock` (`lock.dfy`) covers `src/components/LockScreen.jsx`: the class
  `LockScreen` and the pure branch function `SubmitOutcome`.
- `Wrappers` (`wrappers.dfy`) holds the `Option` datatype.

Inputs that stand in for the environment:

- The clock is three inputs: `today` (a day number), `msIntoDay` (the
  milliseconds already gone in that day) and `now` (the timestamp string
  stored in `completedAt`).
- The `confirm` dialog is the boolean `confirmed`.
- `crypto.randomUUID()` is the `id` argument.
- `localStorage` is the `slot` field of `LockScreen`.

## Model

| member | source | states |
|---|---|---|
| `Dates.FromOrdinal` | src/lib/utils.js:21 | every day up to 9999-12-31 has one valid calendar date, and that date maps back to the same day |
| `Dates.OrdinalRoundTrip` | src/lib/utils.js:21 | the date-to-day mapping is a bijection onto the range; each valid date maps back to itself |
| `Dates.EpochIsUnixEpoch` | src/lib/utils.js:21 | day 0 is 1970-01-01, the epoch `Date` counts from |
| `Dates.FieldsOfRender` | src/lib/utils.js:21 | reading the fields of a zero-padded rendering gives back the year, month and day rendered |
| `Dates.RenderOfFields` | src/lib/utils.js:21 | a string of the key's shape is the rendering of its own fields |
| `Dates.FormatCivil` | src/lib/utils.js:21 | the key is 10 characters: four digits, `-`, two digits, `-`, two digits |
| `Dates.ParseFormatCivil` | src/lib/utils.js:21 | parsing a rendered date gives that date |
| `Dates.FormatParseCivil` | src/lib/utils.js:21 | only canonical keys parse: a string that parses is the rendering of its result |
| `Dates.FormatDate` | src/lib/utils.js:19-21 | `formatDate` gives a 10-character key with `-` at positions 4 and 7 |
| `Dates.ParseFormatDate` | src/lib/db.js:68 | parsing a day's key gives back the day, as the prune assumes |
| `Dates.FormatParseDate` | src/lib/db.js:68 | every key that parses is the key of the day it parses to |
| `Dates.FormatDateInjective` | src/lib/utils.js:21 | two days have equal keys if and only if they are the same day |
| `Dates.ParseDate` | src/lib/db.js:68 | `new Date(log.date)` as a day number: a strict `YYYY-MM-DD` key naming a real date gives its day, anything else gives `None` (an invalid date) |
| `Dates.Weekday` | src/components/Analytics.jsx:18 | the day of the week, 0 for Sunday, always below 7 |
| `Dates.WeekdaySteps` | src/components/Analytics.jsx:18 | 1970-01-01 is a Thursday, each day is the weekday after the day before, and weekdays repeat every 7 days |
| `Dates.DayOfMonth` | src/components/Analytics.jsx:17 | `getDate()` is a day of the month, from 1 to 31 |
| `Dates.Window` | src/lib/utils.js:8-18 | the days of `getLast40Days`, oldest first; the list always has 40 entries |
| `Dates.Last40Days` | src/lib/utils.js:8-18 | the loop pushes 40 days, today minus 39 down to today minus 0, oldest first |
| `Dates.WindowShape` | src/lib/utils.js:11-14 | the window has 40 days, starts 39 days ago, ends today, and steps by one day |
| `Dates.WindowIncreasing` | src/lib/utils.js:11-15 | the window is strictly increasing |
| `Dates.WindowKeys` | src/lib/utils.js:21 | the window's 40 keys, each 10 characters long |
| `Dates.WindowKeysDistinct` | src/lib/utils.js:11-21 | the 40 keys of the window are pairwise distinct |
| `Store.LogKey` | src/lib/db.js:40 | the key is the habit id, then `_`, then the date |
| `Store.LogKeyInjective` | src/lib/db.js:13 | with equal-length dates, equal keys mean equal (habit, date) pairs |
| `Store.LogKeyCollision` | src/lib/db.js:40 | with dates of different lengths, two different pairs can share one key |
| `Store.ListAll` | src/lib/db.js:26 | `getAll` lists every record once, each under its own key |
| `Store.HabitStore.constructor` | src/lib/db.js:6-7 | a database never opened has no stores and no records |
| `Store.HabitStore.Open` | src/lib/db.js:6-17 | opening creates the `habits` and `logs` stores only if absent; records are untouched and later opens change nothing |
| `Store.HabitStore.AddHabit` | src/lib/db.js:19-22 | an upsert by `id`; logs are unchanged |
| `Store.HabitStore.GetHabits` | src/lib/db.js:24-27 | lists the habits, changing nothing |
| `Store.HabitStore.DeleteHabit` | src/lib/db.js:29-35 | removes only the habit record; its logs stay as orphans |
| `Store.HabitStore.ToggleHabitDate` | src/lib/db.js:37-50 | deletes the log under the key if present, else inserts `{id, habitId, date, completedAt}`; returns whether the key is now present; habits are unchanged |
| `Store.HabitStore.GetLogs` | src/lib/db.js:52-55 | lists the logs, changing nothing |
| `Store.HabitStore.CleanupOldLogs` | src/lib/db.js:57-74 | the logs become exactly those whose date is not before the cutoff; habits are unchanged |
| `Store.HabitStore.DeleteExpired` | src/lib/db.js:64-73 | the transaction deletes exactly the expired logs of the snapshot |
| `Store.PruneBySnapshot` | src/lib/db.js:59-72 | deleting the snapshot's expired entries leaves the same logs as the prune |
| `Store.ToggleFlips` | src/lib/db.js:43-48 | after a toggle the key is present exactly when it was absent before |
| `Store.ToggleFrames` | src/lib/db.js:40-48 | a toggle changes no entry under any other key |
| `Store.ToggleAddsRecord` | src/lib/db.js:47 | an inserted log is `{id, habitId, date, completedAt: now}` under the composite key |
| `Store.ToggleTwice` | src/lib/db.js:41-48 | two toggles restore the key set; if the key was absent, they restore the whole store |
| `Store.ToggleKeepsKeyed` | src/lib/db.js:40-47 | after a toggle, every log is still keyed by its own habit and date |
| `Store.CompletedIsKeyPresent` | src/lib/db.js:38-41 | with fixed-width dates, a (habit, date) pair has a log if and only if its key is present |
| `Store.OneLogPerPair` | src/lib/db.js:13 | in a keyed store, two logs with the same habit and date are one log |
| `Store.ToggleCompletion` | src/lib/db.js:37-50 | a toggle flips the completion of its own pair and keeps every other pair's |
| `Store.ToggleLogs` | src/lib/db.js:40-48 | the logs after `toggleHabitDate`: the entry under `${habitId}_${date}` is deleted if present, else `{id, habitId, date, completedAt: now}` is stored under it |
| `Store.Expired` | src/lib/db.js:68-69 | whether the prune deletes a log: its date does not parse gives false; otherwise the log's midnight is before the instant 40 days back (a day more than 40 back always, a day exactly 40 back unless it is midnight) |
| `Store.ExpiredIsBeforeCutoff` | src/lib/db.js:60-69 | `Expired` holds exactly when the date parses and its midnight, in milliseconds, is before the current instant moved back 40 days |
| `Store.PruneLogs` | src/lib/db.js:57-74 | the logs `cleanupOldLogs` leaves: every log that is not expired, unchanged, and no other |
| `Store.PruneOnlyDeletes` | src/lib/db.js:67-71 | the prune only deletes; every log it keeps is unchanged |
| `Store.PruneByDate` | src/lib/db.js:60-71 | logs in the 40-day window and logs with unparseable dates are kept; logs dated more than 40 days back are removed; a log dated exactly 40 days back is kept if and only if the prune runs at midnight |
| `Store.PruneKeepsWindow` | src/lib/db.js:60-71 | a log dated with any window day's key survives the prune |
| `Store.PruneRemovesDay41` | src/lib/db.js:60-71 | a log dated 41 days before today is removed |
| `Store.PruneIdempotent` | src/lib/db.js:57-74 | a second prune at the same instant deletes nothing more |
| `Store.PruneLaterSameDay` | src/lib/db.js:60-71 | after a prune at any time but midnight, no prune later that day deletes anything more |
| `Store.MidnightThenLater` | src/lib/db.js:60-71 | a prune at exactly midnight keeps a log dated 40 days back, and a later prune that day removes it |
| `Store.PruneKeepsKeyed` | src/lib/db.js:67-71 | after the prune, every log is still keyed by its own habit and date |
| `Analytics.RoundHalfUp` | src/components/Analytics.jsx:13 | `Math.round` of a non-negative fraction: the nearest integer, halves rounded up |
| `Analytics.CountOn` | src/components/Analytics.jsx:11 | a day's count is at most the number of logs |
| `Analytics.MaxScore` | src/components/Analytics.jsx:25 | the largest score of the points, reached by one of them |
| `Analytics.Score` | src/components/Analytics.jsx:12-13 | with no habits the score is 0; otherwise it is the integer nearest to 100 × count / habits, halves rounded up |
| `Analytics.DayPoint` | src/components/Analytics.jsx:9-20 | one day's point: its key, its day of month, its short English weekday label and its score |
| `Analytics.CurrentScore` | src/components/Analytics.jsx:24 | the last point's score, 0 when there are no points |
| `Analytics.AverageScore` | src/components/Analytics.jsx:25 | the rounded mean of the scores, 0 when there are no points |
| `Analytics.Data` | src/components/Analytics.jsx:7-22 | one point per window day, in window order; each point's date is that day's key and its score is round(100 × count / habits), or 0 with no habits |
| `Analytics.Summarize` | src/components/Analytics.jsx:24-34 | today's score is that of today's key; the average is at most the largest score; Active Habits is `habits.length`; Total Checks is `logs.length` |
| `Analytics.RoundHalfUpAtMost` | src/components/Analytics.jsx:13 | rounding never goes above a bound that the exact fraction respects |
| `Analytics.RoundHalfUpZero` | src/components/Analytics.jsx:25 | round(0 / n) is 0 |
| `Analytics.CountOnAppend` | src/components/Analytics.jsx:11 | counts add up over concatenated lists |
| `Analytics.OrphanCounted` | src/components/Analytics.jsx:11 | a log counts toward its day whatever its habit, orphans included |
| `Analytics.HabitIds` | src/components/Analytics.jsx:12 | the set of habit ids has at most as many elements as the habit list |
| `Analytics.HabitsOn` | src/components/Analytics.jsx:11 | the set of habits with a log on the day holds exactly the habit ids of that day's logs |
| `Analytics.CountIsHabitsDone` | src/components/Analytics.jsx:11 | with one log per pair, the day's count is the number of distinct habits done that day |
| `Analytics.ScoresAtMost100` | src/components/Analytics.jsx:11-13 | if every log references an existing habit and there is one log per pair, every score is at most 100 |
| `Analytics.OrphansOverflow` | src/components/Analytics.jsx:11-13 | without those conditions a score passes 100: one habit plus an orphaned log on the same day scores 200 |
| `Analytics.NoHabitsAllZero` | src/components/Analytics.jsx:13 | with no habits, all 40 scores, today's score and the average are 0 |
| `Analytics.CurrentIsToday` | src/components/Analytics.jsx:24 | `currentScore` is the score of today's key |
| `Analytics.TodayIsLastKey` | src/lib/utils.js:11-14 | the last key of the window is today's key |
| `Analytics.SumAtMost` | src/components/Analytics.jsx:25 | the sum of scores is at most the bound times the number of points |
| `Analytics.AverageAtMostMax` | src/components/Analytics.jsx:25 | the average never exceeds the largest score |
| `Analytics.AllZeroAverage` | src/components/Analytics.jsx:25 | if all scores are 0, the average is 0 |
| `Analytics.OneHabitDoneToday` | src/components/Analytics.jsx:24-34 | one habit, done today: today's score is 100 and Total Checks is 1 |
| `Analytics.HalfDoneToday` | src/components/Analytics.jsx:13 | two habits and one done today: today's score is 50 |
| `HabitForm.Trim` | src/components/AddHabitModal.jsx:9-12 | the trimmed name is a contiguous part of the name with only white space cut before and after it, and it neither starts nor ends with white space |
| `HabitForm.TrimStartDrops` | src/components/AddHabitModal.jsx:9-12 | trimming the start drops a prefix made only of white space |
| `HabitForm.TrimEndKeeps` | src/components/AddHabitModal.jsx:9-12 | trimming the end keeps a prefix, dropping only white space after it |
| `HabitForm.TrimSpan` | src/components/AddHabitModal.jsx:9-12 | trimming both ends keeps a middle slice and removes only white space around it |
| `HabitForm.TrimIdempotent` | src/components/AddHabitModal.jsx:12 | trimming a trimmed name changes nothing |
| `HabitForm.HabitFromForm` | src/components/AddHabitModal.jsx:7-17 | the form yields a habit exactly when the trimmed name is non-empty; the habit has the trimmed name and the given id |
| `Session.IsCompleted` | src/App.jsx:45 | `logs.some(...)`: some log in the list has this habit and this date |
| `Session.Without` | src/App.jsx:47 | `prev.filter(...)`: the list without the logs of the pair, never longer than the list |
| `Session.OptimisticToggle` | src/App.jsx:44-50 | a completed pair loses its matching logs; otherwise `{id: ${habitId}_${dateStr}, habitId, date}` is appended |
| `Session.WithoutMembers` | src/App.jsx:47 | the filter keeps exactly the logs that do not match the pair |
| `Session.WithoutAppend` | src/App.jsx:47 | the filter works element by element, so kept logs stay in order |
| `Session.WithoutNoMatch` | src/App.jsx:47 | a list with no matching log passes the filter unchanged |
| `Session.OptimisticShape` | src/App.jsx:45-49 | for a completed pair, only its matching entries are removed; otherwise one entry with id `${habitId}_${dateStr}` is appended and the rest is untouched |
| `Session.OptimisticFlips` | src/App.jsx:45-49 | the optimistic update flips completion of its own pair and keeps every other pair's |
| `Session.MirrorCompletion` | src/App.jsx:45 | a list that lists the store agrees with the store on the completion of every pair |
| `Session.OptimisticAgreesWithStore` | src/App.jsx:45-53 | if the list mirrored the store, the optimistic list agrees with the toggled store on every pair with a fixed-width date |
| `Session.LoadedOnePerPair` | src/App.jsx:27-29 | logs loaded from the store hold at most one log per (habit, date) |
| `Session.App.constructor` | src/App.jsx:18-22 | the first state: empty lists, loading and locked |
| `Session.App.RefreshData` | src/App.jsx:24-30 | prunes, then loads both lists from the store, so no loaded log is one the prune would remove |
| `Session.App.ReloadHabits` | src/App.jsx:26-28 | the habit list becomes a listing of the store's habits; the store is unchanged |
| `Session.App.ReloadLogs` | src/App.jsx:27-29 | the log list becomes a listing of the store's logs; the store is unchanged |
| `Session.PrunedListNotExpired` | src/App.jsx:25-29 | a listing of pruned logs holds no log the prune would remove |
| `Session.App.Start` | src/App.jsx:32-36 | the mount effect opens the store, refreshes, then clears `loading` |
| `Session.App.Unlock` | src/App.jsx:75 | the lock screen's callback clears `isLocked` |
| `Session.App.HandleAddHabit` | src/App.jsx:38-41 | for a well-formed habit, upserts it and then refreshes |
| `Session.App.ApplyOptimisticToggle` | src/App.jsx:44-50 | the list becomes the optimistic toggle of the old list |
| `Session.App.HandleToggle` | src/App.jsx:43-57 | the store is toggled, then the list is replaced by the store's logs; habits are unchanged |
| `Session.App.HandleDelete` | src/App.jsx:59-64 | nothing changes unless confirmed; if confirmed, the habit is deleted (its logs stay) and the session refreshes |
| `Lock.AdoptSaved` | src/components/LockScreen.jsx:9-14 | a saved password is adopted only if it is non-empty |
| `Lock.SubmitOutcome` | src/components/LockScreen.jsx:18-32 | the branch `handleSubmit` takes: empty input is ignored; with no password one is created; a matching input unlocks; any other is rejected |
| `Lock.StoredAfter` | src/components/LockScreen.jsx:20-23 | the stored password after a submission: the input when a password is created, else unchanged |
| `Lock.EmptyIsIgnored` | src/components/LockScreen.jsx:18 | an empty submission does nothing and leaves the password as it was |
| `Lock.FirstSubmissionSets` | src/components/LockScreen.jsx:20-24 | with no password stored, a non-empty submission becomes the password and unlocks |
| `Lock.UnlockIffMatches` | src/components/LockScreen.jsx:26-32 | with a password stored, a submission unlocks if and only if it equals the password exactly, and is rejected otherwise |
| `Lock.PasswordNeverOverwritten` | src/components/LockScreen.jsx:20-33 | once stored, the password is never replaced |
| `Lock.LockScreen.constructor` | src/components/LockScreen.jsx:5-7 | the first render: empty input, no stored password, no error |
| `Lock.LockScreen.LoadStoredPassword` | src/components/LockScreen.jsx:9-14 | the mount effect adopts the slot's value if it is non-empty; otherwise nothing changes |
| `Lock.LockScreen.ChangeInput` | src/components/LockScreen.jsx:63-66 | typing stores the input and clears the error |
| `Lock.LockScreen.HandleSubmit` | src/components/LockScreen.jsx:16-34 | empty input: nothing happens. No password: saves the input in the slot and unlocks. Match: unlocks. Mismatch: sets the error, with the stored password unchanged |

## Left out

- IndexedDB (`idb`) and `localStorage` are modelled as fields that the methods update directly. Storage failures (store unavailable, quota exceeded) are not modelled. Neither are a newer database version (`VersionError`) or blocked upgrades.
- Asynchrony, multi-tab races and the midnight race in `getLast40Days` are not modelled. Each call runs to completion before the next starts. The optimistic list is a separate step of `HandleToggle`.
- Time zones are not modelled. `toISOString()` gives the UTC day while `getLast40Days` works in local days, and `new Date(log.date)` reads a key as UTC midnight. All days here are on one timeline, and daylight-saving shifts under `setDate` are ignored.
- `Dates.FormatDate`: covers years 0000 to 9999 only. Beyond that, `toISOString` writes a signed six-digit year or throws, and that form is not modelled.
- `Dates.ParseDate`: accepts only strict `YYYY-MM-DD` strings naming a real date. Other strings the JavaScript date parser takes (a bare year, a date-time, lenient day overflow) count as invalid, so the prune keeps those logs. All keys the app writes are strict.
- `Store.ListAll`: `getAll` returns records in key order; the model promises each record exactly once, in an unspecified order. The same holds for `Store.HabitStore.GetHabits` and `Store.HabitStore.GetLogs`.
- `Analytics.RoundHalfUp`: `Math.round((c / h) * 100)` runs in floating point. The model rounds the exact fraction instead, and can differ by one where the double lands just below a half (e.g. 29 of 200 habits).
- The 2-second `setTimeout` that clears the error flag, the shake effect, charts, animations, scrolling, weekend styling and `cn` are rendering only.
- `src/components/HabitGrid.jsx` is only rendering. Its `isCompleted` is the same test as `Session.IsCompleted`.
- The password is stored and compared as plain text. Nothing here makes a cryptographic claim.
