/** The two statistics endpoints of the habit tracker, with the database
    queries and the JSON responses peeled off: `getDashboard` (account-wide
    statistics over the active habits) and `getHabitProgress` (statistics of
    one habit). The query results are inputs; the wall clock is one instant
    `nowMs`, whose UTC day is "today". */
module Dashboard {
  import opened Calendar
  import opened Streaks
  import opened Wrappers

  type HabitId = nat

  /** A stored completion: habit `habitId` was done on `completedDate`. */
  datatype Log = Log(habitId: HabitId, completedDate: Day)

  /** One entry of the dashboard's weekly chart. */
  datatype DayProgress = DayProgress(date: Day, completed: nat, total: nat)

  datatype DashboardStats = DashboardStats(
    totalHabits: nat,
    completedToday: nat,
    completionPercentageToday: nat,
    currentStreak: nat,
    longestStreak: nat,
    totalCompletions: nat,
    weeklyProgress: seq<DayProgress>)

  /** The statistics returned when the user has no active habit. */
  const NoHabitStats := DashboardStats(0, 0, 0, 0, 0, 0, [])

  /** The habit document as far as the statistics use it. */
  datatype Habit = Habit(id: HabitId, createdAtMs: int)

  /** One entry of a habit's weekly chart. */
  datatype DayDone = DayDone(date: Day, completed: bool)

  datatype HabitProgress = HabitProgress(
    totalCompletions: nat,
    currentStreak: nat,
    daysSinceCreation: int,
    completionRate: int,
    weeklyProgress: seq<DayDone>,
    allCompletedDates: seq<Day>)

  /** The 404 answer of `getHabitProgress`. */
  datatype ProgressError = HabitNotFound

  // ---------------------------------------------------------------------
  // Pure pieces

  /** `logs.map((l) => l.completedDate)`: the dates of the logs, in log
      order, so a day occurs in it exactly when some log is dated that day. */
  function DatesOf(logs: seq<Log>): (r: seq<Day>)
    ensures |r| == |logs|
    ensures forall i :: 0 <= i < |logs| ==> r[i] == logs[i].completedDate
    ensures forall d :: d in r <==> exists l :: l in logs && l.completedDate == d
  {
    var r := seq(|logs|, i requires 0 <= i < |logs| => logs[i].completedDate);
    assert forall i :: 0 <= i < |logs| ==> logs[i] in logs && r[i] == logs[i].completedDate;
    assert forall l :: l in logs ==> l.completedDate in r by {
      forall l | l in logs ensures l.completedDate in r {
        var i :| 0 <= i < |logs| && logs[i] == l;
        assert r[i] == l.completedDate;
      }
    }
    r
  }

  /** The habits with at least one log on `date`, each counted once
      (`new Set(dayLogs.map(...)).size`). */
  function HabitsDoneOn(logs: seq<Log>, date: Day): set<HabitId> {
    set l | l in logs && l.completedDate == date :: l.habitId
  }

  /** The number of distinct habits with a log on `date`: zero exactly when
      no log is dated `date`. */
  function DistinctHabitsOn(logs: seq<Log>, date: Day): (n: nat)
    ensures n == 0 <==> forall l :: l in logs ==> l.completedDate != date
  {
    var done := HabitsDoneOn(logs, date);
    assert forall l :: l in logs && l.completedDate == date ==> l.habitId in done;
    |done|
  }

  /** `Math.round(part / whole * 100)` in exact arithmetic: the percentage
      nearest to `part / whole`, halves rounded up. */
  function RoundPercent(part: nat, whole: nat): (r: nat)
    requires whole > 0
    ensures 2 * whole * r <= 200 * part + whole < 2 * whole * (r + 1)
    ensures part <= whole ==> r <= 100
  {
    var num, den := 200 * part + whole, 2 * whole;
    QuotientAtLeast(num, den, 101);
    num / den
  }

  /** A quotient reaches `c` exactly when the dividend reaches `c` times
      the divisor. */
  lemma QuotientAtLeast(a: nat, b: nat, c: nat)
    requires b > 0
    ensures b * (a / b) <= a < b * (a / b + 1)
    ensures a / b >= c <==> a >= b * c
  {
    var q := a / b;
    if q >= c {
      MulMonotone(b, c, q);
    } else {
      MulMonotone(b, q + 1, c);
    }
  }

  /** Multiplying by a positive number preserves order. */
  lemma MulMonotone(b: nat, x: nat, y: nat)
    requires b > 0 && x <= y
    ensures b * x <= b * y
  {
  }

  /** `Math.max(1, Math.floor((now - createdAt) / 86400000) + 1)`: the
      number of started 24-hour periods since the habit was created, at
      least 1. */
  function DaysSinceCreation(createdAtMs: int, nowMs: int): (d: int)
    ensures d >= 1
    ensures nowMs < createdAtMs ==> d == 1
    ensures createdAtMs <= nowMs ==> MsPerDay * (d - 1) <= nowMs - createdAtMs < MsPerDay * d
  {
    var elapsed := (nowMs - createdAtMs) / MsPerDay + 1;
    if elapsed > 1 then elapsed else 1
  }

  /** `Math.min(Math.round(total / days * 100), 100)`: the completion rate
      as displayed, the nearest percentage capped at 100. */
  function CompletionRate(totalCompletions: nat, daysSinceCreation: int): (r: nat)
    requires daysSinceCreation >= 1
    ensures r <= 100
    ensures r == 100 <==> 200 * totalCompletions + daysSinceCreation >= 200 * daysSinceCreation
    ensures r < 100 ==> r == RoundPercent(totalCompletions, daysSinceCreation)
  {
    var rate := RoundPercent(totalCompletions, daysSinceCreation);
    QuotientAtLeast(200 * totalCompletions + daysSinceCreation, 2 * daysSinceCreation, 100);
    if rate < 100 then rate else 100
  }

  // ---------------------------------------------------------------------
  // getDashboard

  /** The dashboard's weekly chart: the seven days ending today, oldest
      first, each with its distinct-habit count. */
  function WeeklyCounts(recentLogs: seq<Log>, today: Day, totalHabits: nat): (w: seq<DayProgress>)
    ensures |w| == 7 && w[6].date == today
    ensures forall j :: 0 < j < 7 ==> w[j].date == w[j - 1].date + 1
    ensures forall j :: 0 <= j < 7 ==>
      w[j].completed == |HabitsDoneOn(recentLogs, w[j].date)| && w[j].total == totalHabits
  {
    var w := seq(7, j requires 0 <= j < 7 =>
      DayProgress(today - 6 + j, DistinctHabitsOn(recentLogs, today - 6 + j), totalHabits));
    assert forall j :: 0 <= j < 7 ==>
      w[j].date == today - 6 + j && w[j].completed == |HabitsDoneOn(recentLogs, today - 6 + j)|
    by {
      forall j | 0 <= j < 7
        ensures w[j].date == today - 6 + j && w[j].completed == |HabitsDoneOn(recentLogs, today - 6 + j)|
      {
        assert w[j].completed == DistinctHabitsOn(recentLogs, today - 6 + j);
      }
    }
    w
  }

  /** The statistics of `getDashboard` for the active habits `habits`, the
      logs `recentLogs` of the last seven days and all logs `allLogs` of
      those habits, on day `today`. */
  function Stats(habits: seq<HabitId>, recentLogs: seq<Log>, allLogs: seq<Log>, today: Day): (r: DashboardStats)
    ensures r.totalHabits == |habits|
    ensures |habits| == 0 <==> r == NoHabitStats
    ensures |habits| > 0 ==>
      r.totalCompletions == |allLogs| && |r.weeklyProgress| == 7 &&
      r.completedToday == |HabitsDoneOn(recentLogs, today)| &&
      r.currentStreak <= r.longestStreak
  {
    if |habits| == 0 then NoHabitStats
    else
      var completedToday := DistinctHabitsOn(recentLogs, today);
      var datesDesc := DistinctDescending(DatesOf(allLogs));
      CurrentStreakAtMostLongest(datesDesc, today);
      DashboardStats(
        |habits|,
        completedToday,
        RoundPercent(completedToday, |habits|),
        CurrentStreak(datesDesc, today),
        Longest(Reversed(datesDesc)),
        |allLogs|,
        WeeklyCounts(recentLogs, today, |habits|))
  }

  /** `getDashboard`, step by step as the controller runs it. */
  method GetDashboard(habits: seq<HabitId>, recentLogs: seq<Log>, allLogs: seq<Log>, nowMs: int)
    returns (stats: DashboardStats)
    ensures stats == Stats(habits, recentLogs, allLogs, DayOfInstant(nowMs))
  {
    var totalHabits := |habits|;
    if totalHabits == 0 {
      return NoHabitStats;
    }

    var last7Days := LastNDays(DayOfInstant(nowMs), 7);
    var today := last7Days[0];

    var completedToday := DistinctHabitsOn(recentLogs, today);
    var completionPercentageToday := RoundPercent(completedToday, totalHabits);

    var window := new Day[7](j requires 0 <= j < 7 => last7Days[j]);
    ReverseInPlace(window);
    var chronological := window[..];
    var weeklyProgress := seq(7, j requires 0 <= j < 7 =>
      DayProgress(chronological[j], DistinctHabitsOn(recentLogs, chronological[j]), totalHabits));
    assert weeklyProgress == WeeklyCounts(recentLogs, today, totalHabits);

    var uniqueDatesDesc := DistinctDescending(DatesOf(allLogs));
    var currentStreak := CalculateStreak(uniqueDatesDesc, DayOfInstant(nowMs));
    var totalCompletions := |allLogs|;

    var allDatesAsc := Reversed(uniqueDatesDesc);
    var longestStreak := LongestStreak(allDatesAsc);

    stats := DashboardStats(totalHabits, completedToday, completionPercentageToday,
      currentStreak, longestStreak, totalCompletions, weeklyProgress);
  }

  // ---------------------------------------------------------------------
  // getHabitProgress

  /** The habit's weekly chart: the seven days ending today, oldest first,
      each flagged when it is among the completed dates. */
  function WeeklyFlags(dates: seq<Day>, today: Day): (w: seq<DayDone>)
    ensures |w| == 7 && w[6].date == today
    ensures forall j :: 0 < j < 7 ==> w[j].date == w[j - 1].date + 1
    ensures forall j :: 0 <= j < 7 ==> (w[j].completed <==> w[j].date in dates)
  {
    seq(7, j requires 0 <= j < 7 => DayDone(today - 6 + j, today - 6 + j in dates))
  }

  /** The statistics of `getHabitProgress` for a habit created at
      `createdAtMs` whose logs, most recent first, are `logs`. */
  function Progress(logs: seq<Log>, createdAtMs: int, nowMs: int): (p: HabitProgress)
    ensures p.totalCompletions == |logs| && p.allCompletedDates == DatesOf(logs)
    ensures p.daysSinceCreation >= 1 && p.completionRate <= 100
    ensures p.currentStreak <= p.totalCompletions
    ensures |p.weeklyProgress| == 7 && p.weeklyProgress[6].date == DayOfInstant(nowMs)
  {
    var today := DayOfInstant(nowMs);
    var dates := DatesOf(logs);
    var days := DaysSinceCreation(createdAtMs, nowMs);
    HabitProgress(
      |logs|,
      CurrentStreak(dates, today),
      days,
      CompletionRate(|logs|, days),
      WeeklyFlags(dates, today),
      dates)
  }

  /** `getHabitProgress`: 404 when the habit lookup found nothing, otherwise
      the habit's statistics. */
  method GetHabitProgress(habit: Option<Habit>, logs: seq<Log>, nowMs: int)
    returns (r: Result<HabitProgress, ProgressError>)
    ensures habit.None? ==> r == Failure(HabitNotFound)
    ensures habit.Some? ==> r == Success(Progress(logs, habit.value.createdAtMs, nowMs))
  {
    if habit.None? {
      return Failure(HabitNotFound);
    }
    var totalCompletions := |logs|;

    var datesDesc := DatesOf(logs);
    var currentStreak := CalculateStreak(datesDesc, DayOfInstant(nowMs));

    var daysSinceCreation := DaysSinceCreation(habit.value.createdAtMs, nowMs);
    var completionRate := RoundPercent(totalCompletions, daysSinceCreation);

    var last7Days := LastNDays(DayOfInstant(nowMs), 7);
    var logsSet := DaySet(datesDesc);
    var window := new Day[7](j requires 0 <= j < 7 => last7Days[j]);
    ReverseInPlace(window);
    var chronological := window[..];
    var weeklyProgress := seq(7, j requires 0 <= j < 7 =>
      DayDone(chronological[j], chronological[j] in logsSet));
    assert weeklyProgress == WeeklyFlags(datesDesc, DayOfInstant(nowMs));

    var allCompletedDates := datesDesc;
    var cappedRate := if completionRate < 100 then completionRate else 100;
    r := Success(HabitProgress(totalCompletions, currentStreak, daysSinceCreation,
      cappedRate, weeklyProgress, allCompletedDates));
  }

  // ---------------------------------------------------------------------
  // Properties of the dashboard

  /** With no active habit every counter is zero and the chart is empty;
      otherwise the chart has seven entries, oldest first, ending today,
      each counting the distinct habits done that day out of all habits,
      the last one agreeing with `completedToday`, and `totalCompletions`
      counts every log. */
  lemma StatsShape(habits: seq<HabitId>, recentLogs: seq<Log>, allLogs: seq<Log>, today: Day)
    ensures var s := Stats(habits, recentLogs, allLogs, today);
      |habits| == 0 ==>
        s.totalHabits == 0 && s.completedToday == 0 && s.completionPercentageToday == 0 &&
        s.currentStreak == 0 && s.longestStreak == 0 && s.totalCompletions == 0 &&
        s.weeklyProgress == []
    ensures var s := Stats(habits, recentLogs, allLogs, today);
      |habits| > 0 ==>
        s.totalHabits == |habits| && s.totalCompletions == |allLogs| &&
        |s.weeklyProgress| == 7 &&
        s.weeklyProgress[6].date == today &&
        s.weeklyProgress[6].completed == s.completedToday &&
        (forall j :: 0 <= j < 7 ==>
          s.weeklyProgress[j].completed == |HabitsDoneOn(recentLogs, s.weeklyProgress[j].date)| &&
          s.weeklyProgress[j].total == |habits|) &&
        (forall j :: 0 < j < 7 ==>
          s.weeklyProgress[j].date == s.weeklyProgress[j - 1].date + 1)
  {
    var s := Stats(habits, recentLogs, allLogs, today);
    if |habits| > 0 {
      var w := WeeklyCounts(recentLogs, today, |habits|);
      assert s.weeklyProgress == w;
      assert s.completedToday == DistinctHabitsOn(recentLogs, today);
      forall j | 0 <= j < 7
        ensures w[j] == DayProgress(today - 6 + j, DistinctHabitsOn(recentLogs, today - 6 + j), |habits|)
      {
      }
    } else {
      assert s == NoHabitStats;
    }
  }

  /** Counting habits is bounded by the habits the logs belong to. */
  lemma DistinctHabitsAtMost(habits: seq<HabitId>, logs: seq<Log>, date: Day)
    requires forall l :: l in logs ==> l.habitId in habits
    ensures DistinctHabitsOn(logs, date) <= |habits|
  {
    SubsetCard(HabitsDoneOn(logs, date), set h | h in habits);
    SetOfSeqCard(habits);
  }

  /** When the recent logs belong to the active habits, `completedToday`
      and every daily count lie between 0 and the number of habits, and the
      percentage lies between 0 and 100. */
  lemma CompletedTodayWithinHabits(habits: seq<HabitId>, recentLogs: seq<Log>, allLogs: seq<Log>, today: Day)
    requires forall l :: l in recentLogs ==> l.habitId in habits
    ensures var s := Stats(habits, recentLogs, allLogs, today);
      s.completedToday <= s.totalHabits && s.completionPercentageToday <= 100 &&
      forall j :: 0 <= j < |s.weeklyProgress| ==>
        s.weeklyProgress[j].completed <= s.weeklyProgress[j].total
  {
    var s := Stats(habits, recentLogs, allLogs, today);
    if |habits| > 0 {
      DistinctHabitsAtMost(habits, recentLogs, today);
      forall j | 0 <= j < 7 ensures s.weeklyProgress[j].completed <= s.weeklyProgress[j].total {
        DistinctHabitsAtMost(habits, recentLogs, today - 6 + j);
      }
    }
  }

  /** Two habits, one of them done today: 1 completed, 50 percent; a second
      log of the same habit on the same day does not count twice. */
  lemma HalfDoneExample(a: HabitId, b: HabitId, allLogs: seq<Log>, today: Day)
    requires a != b
    ensures var s := Stats([a, b], [Log(a, today)], allLogs, today);
      s.completedToday == 1 && s.completionPercentageToday == 50
    ensures var s := Stats([a, b], [Log(a, today), Log(a, today)], allLogs, today);
      s.completedToday == 1 && s.completionPercentageToday == 50
  {
    assert HabitsDoneOn([Log(a, today)], today) == {a};
    assert HabitsDoneOn([Log(a, today), Log(a, today)], today) == {a};
  }

  /** The current streak never exceeds the longest streak, the longest
      streak never exceeds the number of distinct completion days, and
      those never exceed the raw number of logs. */
  lemma StreaksBounded(habits: seq<HabitId>, recentLogs: seq<Log>, allLogs: seq<Log>, today: Day)
    ensures var s := Stats(habits, recentLogs, allLogs, today);
      s.currentStreak <= s.longestStreak &&
      (|habits| > 0 ==> s.longestStreak <= |DaySet(DatesOf(allLogs))| <= s.totalCompletions)
  {
    if |habits| > 0 {
      var dates := DatesOf(allLogs);
      var desc := DistinctDescending(dates);
      CurrentStreakAtMostLongest(desc, today);
      LongestIsLongestRun(Reversed(desc));
      DistinctDescendingCount(dates);
      SetOfSeqCard(dates);
    }
  }

  /** The account-wide current streak counts the days, back from today,
      on which at least one habit was done: with no log dated after today,
      every one of the `currentStreak` days ending today has a log and the
      day before them has none. So the streak is 0 unless some habit is done
      today. */
  lemma CurrentStreakIsRunEndingToday(habits: seq<HabitId>, recentLogs: seq<Log>, allLogs: seq<Log>, today: Day)
    requires |habits| > 0
    requires forall l :: l in allLogs ==> l.completedDate <= today
    ensures var s := Stats(habits, recentLogs, allLogs, today);
      DaysRun(DaySet(DatesOf(allLogs)), today - s.currentStreak + 1, s.currentStreak) &&
      today - s.currentStreak !in DaySet(DatesOf(allLogs))
  {
    var dates := DatesOf(allLogs);
    var desc := DistinctDescending(dates);
    forall i | 0 <= i < |desc| ensures desc[i] <= today {
      assert desc[i] in dates;
    }
    StreakIsRunEndingToday(desc, today);
    var k := CurrentStreak(desc, today);
    forall d | today - k + 1 <= d < today - k + 1 + k ensures d in DaySet(DatesOf(allLogs)) {
      assert d in desc;
      assert d in DaySet(dates);
    }
    assert today - k !in DaySet(dates);
  }

  /** The account-wide longest streak is the length of the longest stretch
      of consecutive calendar days on each of which some habit was done. */
  lemma LongestStreakIsLongestRunOfDays(habits: seq<HabitId>, recentLogs: seq<Log>, allLogs: seq<Log>, today: Day)
    requires |habits| > 0
    ensures var s := Stats(habits, recentLogs, allLogs, today);
      (|allLogs| > 0 ==>
        (s.longestStreak > 0 && exists start :: DaysRun(DaySet(DatesOf(allLogs)), start, s.longestStreak))) &&
      (forall start, len: nat :: DaysRun(DaySet(DatesOf(allLogs)), start, len) ==> len <= s.longestStreak)
  {
    var dates := DatesOf(allLogs);
    if |allLogs| > 0 {
      LongestRunOfDaysExists(dates);
    }
    forall start, len: nat | DaysRun(DaySet(DatesOf(allLogs)), start, len)
      ensures len <= Stats(habits, recentLogs, allLogs, today).longestStreak
    {
      LongestRunOfDaysIsMaximal(dates, start, len);
    }
  }

  /** Duplicate logs (the same habit twice on one day, which the store's
      unique index normally rules out) change only the raw
      `totalCompletions`: distinct-habit counts and both streaks are
      computed on de-duplicated data. */
  lemma DuplicateLogCountsOnlyOnce(habits: seq<HabitId>, recentLogs: seq<Log>, allLogs: seq<Log>, today: Day, l: Log)
    requires |habits| > 0
    requires l in recentLogs && l in allLogs
    ensures var s := Stats(habits, recentLogs, allLogs, today);
      Stats(habits, recentLogs + [l], allLogs + [l], today) ==
        s.(totalCompletions := s.totalCompletions + 1)
  {
    forall d ensures DistinctHabitsOn(recentLogs + [l], d) == DistinctHabitsOn(recentLogs, d) {
      assert HabitsDoneOn(recentLogs + [l], d) == HabitsDoneOn(recentLogs, d);
    }
    assert WeeklyCounts(recentLogs + [l], today, |habits|) == WeeklyCounts(recentLogs, today, |habits|);
    DuplicateLogSameDays(allLogs, l);
    DistinctDescendingBySet(DatesOf(allLogs + [l]), DatesOf(allLogs));
  }

  lemma DuplicateLogSameDays(logs: seq<Log>, l: Log)
    requires l in logs
    ensures forall x :: x in DatesOf(logs + [l]) <==> x in DatesOf(logs)
  {
    var dates, dates' := DatesOf(logs), DatesOf(logs + [l]);
    forall x ensures x in dates' <==> x in dates {
      if x in dates' {
        var i :| 0 <= i < |dates'| && dates'[i] == x;
        if i == |logs| {
          var k :| 0 <= k < |logs| && logs[k] == l;
          assert dates[k] == x;
        } else {
          assert dates[i] == x;
        }
      }
      if x in dates {
        var i :| 0 <= i < |dates| && dates[i] == x;
        assert dates'[i] == x;
      }
    }
  }

  /** The streaks depend only on the set of days with a log. */
  lemma StreaksDependOnlyOnDays(habits: seq<HabitId>, recentLogs: seq<Log>, allLogs: seq<Log>, allLogs': seq<Log>, today: Day)
    requires DaySet(DatesOf(allLogs)) == DaySet(DatesOf(allLogs'))
    ensures var s := Stats(habits, recentLogs, allLogs, today);
      var s' := Stats(habits, recentLogs, allLogs', today);
      s.currentStreak == s'.currentStreak && s.longestStreak == s'.longestStreak
  {
    var dates, dates' := DatesOf(allLogs), DatesOf(allLogs');
    forall x ensures x in dates <==> x in dates' {
      assert x in dates <==> x in DaySet(dates);
      assert x in dates' <==> x in DaySet(dates');
    }
    DistinctDescendingBySet(dates, dates');
  }

  // ---------------------------------------------------------------------
  // Properties of a habit's progress

  /** A habit's progress: at least one day since creation, a rate between
      0 and 100, a current streak no longer than the number of logs, and a
      seven-day chart, oldest first and ending today, whose flags say
      exactly which of those days have a log. */
  lemma ProgressShape(logs: seq<Log>, createdAtMs: int, nowMs: int)
    ensures var p := Progress(logs, createdAtMs, nowMs);
      var today := DayOfInstant(nowMs);
      p.daysSinceCreation >= 1 && 0 <= p.completionRate <= 100 &&
      p.totalCompletions == |logs| && p.currentStreak <= p.totalCompletions &&
      p.allCompletedDates == DatesOf(logs) &&
      |p.weeklyProgress| == 7 && p.weeklyProgress[6].date == today &&
      (forall j :: 0 < j < 7 ==> p.weeklyProgress[j].date == p.weeklyProgress[j - 1].date + 1) &&
      (forall j :: 0 <= j < 7 ==>
        (p.weeklyProgress[j].completed <==> p.weeklyProgress[j].date in DaySet(DatesOf(logs))))
  {
  }

  /** With the logs most recent first and one log per day (the store's
      sort and unique index), and none after today, the habit's current
      streak is the run of logged days that ends today. */
  lemma HabitStreakIsRunEndingToday(logs: seq<Log>, createdAtMs: int, nowMs: int)
    requires StrictlyDescending(DatesOf(logs))
    requires forall l :: l in logs ==> l.completedDate <= DayOfInstant(nowMs)
    ensures var p := Progress(logs, createdAtMs, nowMs);
      var today := DayOfInstant(nowMs);
      DaysRun(DaySet(DatesOf(logs)), today - p.currentStreak + 1, p.currentStreak) &&
      today - p.currentStreak !in DaySet(DatesOf(logs))
  {
    var today := DayOfInstant(nowMs);
    var dates := DatesOf(logs);
    forall i | 0 <= i < |dates| ensures dates[i] <= today {
      assert logs[i] in logs;
    }
    StreakIsRunEndingToday(dates, today);
    var k := CurrentStreak(dates, today);
    forall d | today - k + 1 <= d < today - k + 1 + k ensures d in DaySet(DatesOf(logs)) {
      assert d in DaySet(dates);
    }
    assert today - k !in DaySet(dates);
  }

  /** A habit created less than a day ago and done today: one day since
      creation, a rate of 100 and a streak of 1. */
  lemma NewHabitDoneTodayExample(h: HabitId, createdAtMs: int, nowMs: int)
    requires createdAtMs <= nowMs < createdAtMs + MsPerDay
    ensures var p := Progress([Log(h, DayOfInstant(nowMs))], createdAtMs, nowMs);
      p.daysSinceCreation == 1 && p.completionRate == 100 &&
      p.currentStreak == 1 && p.totalCompletions == 1
  {
    var today := DayOfInstant(nowMs);
    assert DatesOf([Log(h, today)]) == [today];
    assert CurrentStreak([today], today) == 1 by {
      assert [today][1..] == [];
    }
  }

  /** More logs than days since creation (dirty data, or several started
      24-hour periods in one calendar day) reach the 100 cap. */
  lemma RateCappedAt100(logs: seq<Log>, createdAtMs: int, nowMs: int)
    requires |logs| >= DaysSinceCreation(createdAtMs, nowMs)
    ensures Progress(logs, createdAtMs, nowMs).completionRate == 100
  {
  }

  /** The rate reaches the cap on clean data too: `daysSinceCreation` counts
      started 24-hour periods, not calendar days, so a habit created just
      before midnight (UTC) and done on that day and on the next, one log
      per day, has 2 logs over 1 day since creation: 200 before the cap. */
  lemma CapReachedWithOneLogPerDay(h: HabitId)
    ensures var createdAtMs, nowMs := MsPerDay - 1, MsPerDay;
      var logs := [Log(h, DayOfInstant(nowMs)), Log(h, DayOfInstant(createdAtMs))];
      StrictlyDescending(DatesOf(logs)) &&
      DaysSinceCreation(createdAtMs, nowMs) == 1 &&
      RoundPercent(|logs|, 1) == 200 &&
      Progress(logs, createdAtMs, nowMs).completionRate == 100
  {
    var logs := [Log(h, DayOfInstant(MsPerDay)), Log(h, DayOfInstant(MsPerDay - 1))];
    assert DatesOf(logs) == [UnixEpochDay + 1, UnixEpochDay];
  }

  // ---------------------------------------------------------------------
  // Counting helpers

  lemma {:induction false} SetOfSeqCard<T>(s: seq<T>)
    ensures |set x | x in s| <= |s|
  {
    if s != [] {
      SetOfSeqCard(s[1..]);
      assert (set x | x in s) == {s[0]} + (set x | x in s[1..]);
    }
  }

  lemma SubsetCard<T>(a: set<T>, b: set<T>)
    requires a <= b
    ensures |a| <= |b|
  {
    assert b == a + (b - a);
  }
}
