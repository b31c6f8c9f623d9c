/**
 The analytics dashboard's numbers (src/components/Analytics.jsx): one
 point per window day with the percentage of habits completed that day,
 today's score, the 40-day average, and the habit and check counts.
 `Math.round` of the floating-point percentage is modelled as exact
 round-half-up on rationals.
 */
module Analytics {

  import Dates
  import opened Wrappers
  import opened Store

  /** One point of the chart: the day's key, its day of month, its weekday label and its score. */
  datatype Point = Point(date: string, day: int, weekday: string, score: nat)

  /** The four stat cards. */
  datatype Summary = Summary(todayScore: nat, averageScore: nat, activeHabits: nat, totalChecks: nat)

  /** `Math.round(num / den)`: the integer nearest to `num / den`, halves rounded up. */
  function RoundHalfUp(num: nat, den: nat): (r: nat)
    requires den > 0
    ensures 2 * den * r <= 2 * num + den < 2 * den * (r + 1)
  {
    (2 * num + den) / (2 * den)
  }

  /** Number of logs dated `date`, whichever habit they belong to. */
  function CountOn(logs: seq<Log>, date: string): (n: nat)
    ensures n <= |logs|
  {
    if logs == [] then 0
    else (if logs[0].date == date then 1 else 0) + CountOn(logs[1..], date)
  }

  /** A day's percentage: `round(100 * count / habitCount)`, or 0 when there are no habits. */
  function Score(count: nat, habitCount: nat): (r: nat)
    ensures habitCount == 0 ==> r == 0
    ensures habitCount > 0 ==> 2 * habitCount * r <= 200 * count + habitCount < 2 * habitCount * (r + 1)
  {
    if habitCount > 0 then RoundHalfUp(100 * count, habitCount) else 0
  }

  const WeekdayLabels: seq<string> := ["Sun", "Mon", "Tue", "Wed", "Thu", "Fri", "Sat"]

  /** The chart point of one window day. */
  function DayPoint(habits: seq<Habit>, logs: seq<Log>, day: int): Point
    requires Dates.InKeyRange(day)
  {
    var key := Dates.FormatDate(day);
    Point(key, Dates.DayOfMonth(day), WeekdayLabels[Dates.Weekday(day)], Score(CountOn(logs, key), |habits|))
  }

  /** The `data` of the chart: one point per day of the window ending `today`, oldest first. */
  function Data(habits: seq<Habit>, logs: seq<Log>, today: int): (data: seq<Point>)
    requires Dates.WindowInKeyRange(today)
    ensures |data| == Dates.WindowLength
    ensures forall k :: 0 <= k < |data| ==>
              data[k].date == Dates.WindowKeys(today)[k]
              && data[k].score == Score(CountOn(logs, data[k].date), |habits|)
  {
    seq(Dates.WindowLength, k requires 0 <= k < Dates.WindowLength => DayPoint(habits, logs, Dates.Window(today)[k]))
  }

  /** `currentScore`: the last point's score, 0 when there is none. */
  function CurrentScore(data: seq<Point>): nat {
    if |data| > 0 then data[|data| - 1].score else 0
  }

  function SumScores(data: seq<Point>): nat {
    if data == [] then 0 else data[0].score + SumScores(data[1..])
  }

  function MaxScore(data: seq<Point>): (m: nat)
    ensures forall k :: 0 <= k < |data| ==> data[k].score <= m
    ensures data != [] ==> exists k :: 0 <= k < |data| && data[k].score == m
  {
    if data == [] then 0
    else
      var rest := MaxScore(data[1..]);
      assert forall k :: 1 <= k < |data| ==> data[k] == data[1..][k - 1];
      if data[0].score >= rest then data[0].score else rest
  }

  /** `averageScore`: the rounded mean score; 0 when there are no points (`NaN || 0`). */
  function AverageScore(data: seq<Point>): nat {
    if |data| == 0 then 0 else RoundHalfUp(SumScores(data), |data|)
  }

  /** The stat cards for the window ending `today`. */
  function Summarize(habits: seq<Habit>, logs: seq<Log>, today: int): (s: Summary)
    requires Dates.WindowInKeyRange(today)
    ensures s.todayScore == Score(CountOn(logs, Dates.FormatDate(today)), |habits|)
    ensures s.averageScore <= MaxScore(Data(habits, logs, today))
    ensures s.activeHabits == |habits| && s.totalChecks == |logs|
  {
    var data := Data(habits, logs, today);
    AverageAtMostMax(data);
    Summary(CurrentScore(data), AverageScore(data), |habits|, |logs|)
  }

  // ---------------------------------------------------------------------
  // Rounding

  /** Rounding never exceeds a bound that the exact quotient respects. */
  lemma RoundHalfUpAtMost(num: nat, den: nat, bound: nat)
    requires den > 0 && num <= bound * den
    ensures RoundHalfUp(num, den) <= bound
  {
    var r := RoundHalfUp(num, den);
    assert 2 * den * r < 2 * den * (bound + 1) by {
      assert 2 * num <= 2 * bound * den;
    }
    MulCancel(2 * den, r, bound + 1);
  }

  lemma MulCancel(c: nat, x: nat, y: nat)
    requires c > 0 && c * x < c * y
    ensures x < y
  {
  }

  lemma RoundHalfUpZero(den: nat)
    requires den > 0
    ensures RoundHalfUp(0, den) == 0
  {
    var r := RoundHalfUp(0, den);
    MulCancel(2 * den, r, 1);
  }

  // ---------------------------------------------------------------------
  // Counting

  /** Counts add up over concatenation, so an extra log on a day counts whatever its habit. */
  lemma {:induction false} CountOnAppend(a: seq<Log>, b: seq<Log>, date: string)
    ensures CountOn(a + b, date) == CountOn(a, date) + CountOn(b, date)
  {
    if a != [] {
      assert a + b != [] && (a + b)[0] == a[0] && (a + b)[1..] == a[1..] + b;
      CountOnAppend(a[1..], b, date);
      assert CountOn(a + b, date) == (if a[0].date == date then 1 else 0) + CountOn(a[1..] + b, date);
    } else {
      assert a + b == b;
    }
  }

  /** An orphaned log (its habit deleted) is counted like any other. */
  lemma OrphanCounted(logs: seq<Log>, orphan: Log)
    ensures CountOn(logs + [orphan], orphan.date) == CountOn(logs, orphan.date) + 1
  {
    CountOnAppend(logs, [orphan], orphan.date);
  }

  /** Each log references an existing habit. */
  ghost predicate ReferencesHabits(habits: seq<Habit>, logs: seq<Log>) {
    forall i :: 0 <= i < |logs| ==> exists j :: 0 <= j < |habits| && habits[j].id == logs[i].habitId
  }

  /** No two logs of the list are for the same habit and date. */
  ghost predicate OnePerPair(logs: seq<Log>) {
    forall i, j :: 0 <= i < j < |logs| ==> !(logs[i].habitId == logs[j].habitId && logs[i].date == logs[j].date)
  }

  function HabitIds(habits: seq<Habit>): (ids: set<string>)
    ensures |ids| <= |habits|
    ensures forall x :: x in ids <==> exists j :: 0 <= j < |habits| && habits[j].id == x
  {
    if habits == [] then {}
    else
      var rest := HabitIds(habits[1..]);
      assert forall j :: 1 <= j < |habits| ==> habits[j] == habits[1..][j - 1];
      {habits[0].id} + rest
  }

  /** The habits that have a log dated `date`. */
  function HabitsOn(logs: seq<Log>, date: string): (ids: set<string>)
    ensures forall x :: x in ids <==> exists i :: 0 <= i < |logs| && logs[i].date == date && logs[i].habitId == x
  {
    if logs == [] then {}
    else
      var rest := HabitsOn(logs[1..], date);
      assert forall i :: 1 <= i < |logs| ==> logs[i] == logs[1..][i - 1];
      (if logs[0].date == date then {logs[0].habitId} else {}) + rest
  }

  /** With one log per pair, the day's count is the number of distinct habits done that day. */
  lemma {:induction false} CountIsHabitsDone(logs: seq<Log>, date: string)
    requires OnePerPair(logs)
    ensures |HabitsOn(logs, date)| == CountOn(logs, date)
  {
    if logs != [] {
      var rest := logs[1..];
      assert forall i, j :: 0 <= i < j < |rest| ==> rest[i] == logs[i + 1] && rest[j] == logs[j + 1];
      CountIsHabitsDone(rest, date);
    }
  }

  lemma SubsetSmaller(a: set<string>, b: set<string>)
    requires a <= b
    ensures |a| <= |b|
  {
    assert b == a + (b - a);
  }

  /** If each log references an existing habit and there is one log per pair, every score is at most 100. */
  lemma ScoresAtMost100(habits: seq<Habit>, logs: seq<Log>, today: int)
    requires Dates.WindowInKeyRange(today)
    requires ReferencesHabits(habits, logs) && OnePerPair(logs)
    ensures forall k :: 0 <= k < Dates.WindowLength ==> Data(habits, logs, today)[k].score <= 100
  {
    var data := Data(habits, logs, today);
    forall k | 0 <= k < Dates.WindowLength
      ensures data[k].score <= 100
    {
      var date := data[k].date;
      CountIsHabitsDone(logs, date);
      SubsetSmaller(HabitsOn(logs, date), HabitIds(habits));
      if |habits| > 0 {
        RoundHalfUpAtMost(100 * CountOn(logs, date), |habits|, 100);
      }
    }
  }

  /** Without those conditions a score can pass 100: one habit, two logs today, one of them orphaned. */
  lemma OrphansOverflow(today: int, h: Habit, orphanId: string)
    requires Dates.WindowInKeyRange(today) && orphanId != h.id
    ensures var key := Dates.FormatDate(today);
            var logs := [Log(LogKey(h.id, key), h.id, key, None), Log(LogKey(orphanId, key), orphanId, key, None)];
            CurrentScore(Data([h], logs, today)) == 200
  {
    var key := Dates.FormatDate(today);
    var logs := [Log(LogKey(h.id, key), h.id, key, None), Log(LogKey(orphanId, key), orphanId, key, None)];
    assert CountOn(logs, key) == 2 by {
      assert logs[1..][1..] == [];
    }
    CurrentIsToday([h], logs, today);
  }

  // ---------------------------------------------------------------------
  // Window scores and summary

  /** With no habits, every score, today's score and the average are 0. */
  lemma NoHabitsAllZero(logs: seq<Log>, today: int)
    requires Dates.WindowInKeyRange(today)
    ensures forall k :: 0 <= k < Dates.WindowLength ==> Data([], logs, today)[k].score == 0
    ensures CurrentScore(Data([], logs, today)) == 0
    ensures AverageScore(Data([], logs, today)) == 0
  {
    var data := Data([], logs, today);
    AllZeroAverage(data);
  }

  /** `currentScore` is the score of today's key. */
  lemma CurrentIsToday(habits: seq<Habit>, logs: seq<Log>, today: int)
    requires Dates.WindowInKeyRange(today)
    ensures CurrentScore(Data(habits, logs, today)) == Score(CountOn(logs, Dates.FormatDate(today)), |habits|)
  {
    TodayIsLastKey(today);
  }

  lemma TodayIsLastKey(today: int)
    requires Dates.WindowInKeyRange(today)
    ensures Dates.WindowKeys(today)[Dates.WindowLength - 1] == Dates.FormatDate(today)
  {
    assert Dates.Window(today)[Dates.WindowLength - 1] == today;
  }

  lemma {:induction false} SumAtMost(data: seq<Point>, bound: nat)
    requires forall k :: 0 <= k < |data| ==> data[k].score <= bound
    ensures SumScores(data) <= bound * |data|
  {
    if data != [] {
      assert forall k :: 0 <= k < |data[1..]| ==> data[1..][k] == data[k + 1];
      SumAtMost(data[1..], bound);
    }
  }

  /** The average never exceeds the largest score. */
  lemma AverageAtMostMax(data: seq<Point>)
    ensures AverageScore(data) <= MaxScore(data)
  {
    if |data| > 0 {
      SumAtMost(data, MaxScore(data));
      RoundHalfUpAtMost(SumScores(data), |data|, MaxScore(data));
    }
  }

  /** All scores 0 gives average 0. */
  lemma AllZeroAverage(data: seq<Point>)
    requires forall k :: 0 <= k < |data| ==> data[k].score == 0
    ensures AverageScore(data) == 0
  {
    if |data| > 0 {
      SumAtMost(data, 0);
      RoundHalfUpZero(|data|);
    }
  }

  /** One habit, done today: today's score is 100 and there is one check. */
  lemma OneHabitDoneToday(h: Habit, today: int)
    requires Dates.WindowInKeyRange(today)
    ensures var key := Dates.FormatDate(today);
            var s := Summarize([h], [Log(LogKey(h.id, key), h.id, key, None)], today);
            s.todayScore == 100 && s.totalChecks == 1
  {
  }

  /** Two habits, one done today: today's score is 50. */
  lemma HalfDoneToday(h1: Habit, h2: Habit, today: int)
    requires Dates.WindowInKeyRange(today)
    ensures var key := Dates.FormatDate(today);
            Summarize([h1, h2], [Log(LogKey(h1.id, key), h1.id, key, None)], today).todayScore == 50
  {
  }
}
