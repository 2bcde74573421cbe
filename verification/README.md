# Habit tracker statistics engine, in Dafny

This project models the streak and aggregation engine of a habit tracker. The
engine is the statistics code of `src/controllers/dashboardController.js`:

- `getLastNDays` produces the trailing window of calendar days.
- `calculateStreak` computes the current streak, anchored at today.
- A scan inside `getDashboard` computes the longest run of consecutive days.
- `getDashboard` assembles the account-wide statistics: distinct habits done
  today, the rounded percentage, the seven-day chart and the raw completion
  count.
- `getHabitProgress` assembles one habit's statistics: the streak, days since
  creation, the capped completion rate and the seven-day flags.

The database queries and the JSON responses are peeled off. Query results
become input sequences, and the wall clock becomes one parameter `nowMs`,
whose UTC day is "today".

Modules:

- `Calendar` (calendar.dfy): the day arithmetic. A day is an integer day
  number, with day 0 on 0001-01-01 in the proleptic Gregorian calendar. The
  module converts day numbers to and from (year, month, day) triples. It
  proves that the calendar predecessor and successor are `-1` and `+1`
  across month, year and leap-day boundaries, and that day numbers order
  dates exactly as the triples do. It also maps a millisecond instant to its
  UTC day.
- `DateFormat` (dateformat.dfy): the stored `YYYY-MM-DD` strings. It proves
  three things, so the engine can work on day numbers for every date string
  the API writes:
  - string equality (`===`, `Set` membership) is date equality;
  - the string order of `localeCompare` on these fixed-width strings is
    calendar order;
  - reading a string back gives the same date.
- `Streaks` (streaks.dfy): the loops of the controller, as methods with
  loop invariants, each proved equal to a specification function. The
  module then proves what those functions mean in calendar terms.
  - `LastNDays` pushes one day per iteration.
  - `CalculateStreak` has the early `break`.
  - `LongestStreak` carries `tempStreak` and `longestStreak`.
  - `ReverseInPlace` is `Array.prototype.reverse` on an array.
  - `DistinctDescending` is the `[...new Set(dates)].sort(...)` step.
- `Dashboard` (dashboard.dfy): the two endpoints.
  - `GetDashboard` and `GetHabitProgress` follow the controller statement
    by statement. They are proved to return the pure statistics `Stats` and
    `Progress` (or the 404 answer, as a `Result`).
  - Lemmas state what those statistics promise: bounds, the shape of the
    weekly charts, streaks as runs of calendar days, and insensitivity to
    duplicate logs.

`Math.round(a / b * 100)` is modelled in exact integer arithmetic as
`(200a + b) div 2b`, the nearest percentage with halves rounded up.

The `Math.min(completionRate, 100)` cap at
`src/controllers/dashboardController.js:204` is reached on clean data too.
`daysSinceCreation` (lines 175-178) counts started 24-hour periods since
`createdAt`, not calendar days. So a habit created just before midnight UTC
and done on that day and the next, one log per day, has 2 logs over 1 day:
200 before the cap (`Dashboard.CapReachedWithOneLogPerDay`).

## Model

| member | source | states |
|---|---|---|
| `Calendar.ToDayNumber` | src/controllers/dashboardController.js:116-117 | the day number of a valid date lies inside that date's own month and own year, counted from 0001-01-01 |
| `Calendar.PrevDate` | src/controllers/dashboardController.js:33-35 | the day before a valid date is a valid date whose day number is one less (same month, end of the previous month, or December 31st of the previous year) |
| `Calendar.NextDate` | src/controllers/dashboardController.js:116-119 | the day after a valid date is a valid date whose day number is one more: the meaning of a difference of exactly one day |
| `Calendar.FromDayNumber` | src/controllers/dashboardController.js:14 | every day number names a valid calendar date whose day number is that number |
| `Calendar.DayNumberOrder` | src/controllers/dashboardController.js:99-102 | two valid dates have the same day number exactly when they are the same date, and a smaller one exactly when the first comes earlier in (year, month, day) order |
| `Calendar.DateRoundTrip` | src/controllers/dashboardController.js:116-117 | converting a valid date to its day number and back gives the date again |
| `Calendar.PrevDateIsMinusOne` | src/controllers/dashboardController.js:12-13 | stepping one calendar day back or forward is subtracting or adding one to the day number |
| `Calendar.DayOfInstant` | src/controllers/dashboardController.js:26 | the UTC day of an instant: the instant lies in the 24 hours that start at that day's midnight |
| `Calendar.EpochDays` | src/controllers/dashboardController.js:26 | day 0 is 0001-01-01 and 1970-01-01, where instants start, is day 719162 |
| `Calendar.BoundaryExamples` | src/controllers/dashboardController.js:33-35 | the day before 2024-03-01 is 2024-02-29, before 2023-03-01 it is 2023-02-28, and before 2024-01-01 it is 2023-12-31 |
| `DateFormat.LexLess` | src/controllers/dashboardController.js:100-102 | character-by-character string order, as `localeCompare` orders these strings; a string is never below itself |
| `DateFormat.Format` | src/models/HabitLog.js:17-22 | a date of years 0000 to 9999 is written as ten characters with dashes at positions 4 and 7 |
| `DateFormat.FormatOrder` | src/controllers/dashboardController.js:100-102 | the string order of two formatted dates is their calendar order |
| `DateFormat.FormatInjective` | src/controllers/dashboardController.js:99 | two formatted dates are equal strings exactly when they are the same date |
| `DateFormat.FormatMatchesDayNumbers` | src/controllers/dashboardController.js:99-102 | comparing stored strings gives the same answers as comparing day numbers, for equality and for order |
| `DateFormat.Parse` | src/models/HabitLog.js:21 | a string parses only when it has the `DDDD-DD-DD` shape and names a valid date, and then formatting that date gives the string back |
| `DateFormat.ParseFormat` | src/controllers/dashboardController.js:116-117 | reading back a formatted date gives the date |
| `Streaks.LastNDays` | src/controllers/dashboardController.js:9-17 | the window has exactly `n` days and element `i` is today minus `i` days |
| `Streaks.LastNDaysShape` | src/controllers/dashboardController.js:9-16 | the window starts at today, is strictly descending, and each day is the calendar predecessor of the day before it in the window |
| `Streaks.ReverseInPlace` | src/controllers/dashboardController.js:91 | the array afterwards holds its old contents back to front |
| `Streaks.CurrentStreak` | src/controllers/dashboardController.js:23-41 | the streak `k` is at most the number of dates, the first `k` dates are today, today - 1, ..., and date `k`, if any, breaks that pattern |
| `Streaks.CalculateStreak` | src/controllers/dashboardController.js:23-41 | the loop with its early `break` returns `CurrentStreak`: 0 for no dates or when the first date is not today, and never more than the number of dates |
| `Streaks.StreakIsRunEndingToday` | src/controllers/dashboardController.js:27-39 | over strictly descending dates none after today, every day of the last `k` days ending today is present and the day before them is not |
| `Streaks.RunEndingAt` | src/controllers/dashboardController.js:112-124 | `tempStreak` after looking at date `i` is between 1 and `i + 1` and is the length of a run of consecutive days ending at `i` |
| `Streaks.RunEndingAtIsMaximal` | src/controllers/dashboardController.js:112-124 | no run of consecutive days ending at date `i` is longer than `tempStreak` there |
| `Streaks.LongestUpTo` | src/controllers/dashboardController.js:109-126 | `longestStreak` after `n` dates is at most `n` and at least 1 once a date has been seen |
| `Streaks.LongestUpToIsMaximal` | src/controllers/dashboardController.js:109-126 | no run within the first `n` dates is longer than `longestStreak` after `n` dates |
| `Streaks.LongestUpToIsAchieved` | src/controllers/dashboardController.js:109-126 | some run within the first `n` dates has exactly the length `longestStreak` after `n` dates |
| `Streaks.Longest` | src/controllers/dashboardController.js:108-126 | the longest streak over the ascending dates: at most the number of dates and at least 1 when there is one |
| `Streaks.LongestIsLongestRun` | src/controllers/dashboardController.js:108-126 | the longest streak is the length of a run that occurs, no run is longer, it is 0 exactly for no dates, 1 for one date, and never more than the number of dates |
| `Streaks.LongestStreak` | src/controllers/dashboardController.js:108-126 | the scan returns `Longest`: 0 exactly for no dates, the length of a run that occurs, and at least the length of every run |
| `Streaks.CurrentStreakAtMostLongest` | src/controllers/dashboardController.js:99-126 | over the same dates, the current streak never exceeds the longest streak |
| `Streaks.InsertDescending` | src/controllers/dashboardController.js:99-102 | adding a date to strictly descending dates keeps them strictly descending and adds exactly that date, once |
| `Streaks.DistinctDescending` | src/controllers/dashboardController.js:99-102 | the unique dates, sorted most recent first: strictly descending, with exactly the dates of the input |
| `Streaks.DistinctDescendingCount` | src/controllers/dashboardController.js:99-102 | the unique dates hold one entry per distinct date |
| `Streaks.DescendingUnique` | src/controllers/dashboardController.js:100-102 | two strictly descending sequences with the same dates are equal, so the sort has one possible result |
| `Streaks.DistinctDescendingBySet` | src/controllers/dashboardController.js:99-102 | the unique sorted dates depend only on the set of dates |
| `Streaks.LongestRunOfDaysExists` | src/controllers/dashboardController.js:108-126 | when there is a date, some stretch of `Longest` consecutive calendar days all have a completion |
| `Streaks.LongestRunOfDaysIsMaximal` | src/controllers/dashboardController.js:108-126 | no stretch of consecutive calendar days that all have a completion is longer than `Longest` |
| `Streaks.CurrentStreakExamples` | src/controllers/dashboardController.js:23-41 | completions today, yesterday and the day before give 3; yesterday and the day before without today give 0; no dates give 0 |
| `Streaks.LongestExamples` | src/controllers/dashboardController.js:108-126 | days D, D+1, D+2, D+5, D+6 give a longest streak of 3; one day gives 1; no day gives 0 |
| `Streaks.LeapDayWindow` | src/controllers/dashboardController.js:9-16 | the three-day window ending on 2024-03-01 holds 2024-02-29 and 2024-02-28 |
| `Dashboard.DatesOf` | src/controllers/dashboardController.js:171 | the dates of the logs in log order, one per log; a day occurs exactly when some log is dated that day |
| `Dashboard.DistinctHabitsOn` | src/controllers/dashboardController.js:85-86 | the number of distinct habits done on a day is 0 exactly when no log is dated that day |
| `Dashboard.RoundPercent` | src/controllers/dashboardController.js:87-88 | the result is the percentage nearest to `part / whole`, halves rounded up, and at most 100 when `part <= whole` |
| `Dashboard.DaysSinceCreation` | src/controllers/dashboardController.js:175-178 | at least 1; exactly 1 when the creation time is in the future; otherwise the number of started 24-hour periods since creation |
| `Dashboard.CompletionRate` | src/controllers/dashboardController.js:204 | at most 100; exactly 100 when the rounded rate reaches 100; otherwise the rounded rate of line 179 |
| `Dashboard.WeeklyCounts` | src/controllers/dashboardController.js:91-95 | seven entries on consecutive days ending today, each with the number of distinct habits done that day and the number of habits |
| `Dashboard.Stats` | src/controllers/dashboardController.js:56-126 | `totalHabits` is the number of habits; the all-zero answer exactly when there are none; otherwise all logs counted, a seven-day chart, the distinct habits done today, and a current streak no longer than the longest |
| `Dashboard.WeeklyFlags` | src/controllers/dashboardController.js:182-187 | seven entries on consecutive days ending today, each flagged exactly when that day is among the completed dates |
| `Dashboard.Progress` | src/controllers/dashboardController.js:168-190 | all logs counted and listed in order, at least one day since creation, a rate of at most 100, a streak of at most the number of logs, and a seven-day chart ending today |
| `Dashboard.GetDashboard` | src/controllers/dashboardController.js:50-143 | the endpoint, step by step, returns `Stats` for the habits, the recent logs, all logs and the UTC day of `nowMs` |
| `Dashboard.GetHabitProgress` | src/controllers/dashboardController.js:150-212 | the 404 answer when the habit is missing, otherwise `Progress` of the habit's logs, creation time and `nowMs` |
| `Dashboard.StatsShape` | src/controllers/dashboardController.js:58-106 | no habits give all-zero counters and an empty chart; otherwise the chart has 7 consecutive days ending today, each with its distinct-habit count out of all habits, the last agreeing with `completedToday`, and `totalCompletions` is the raw number of logs |
| `Dashboard.DistinctHabitsAtMost` | src/controllers/dashboardController.js:85-86 | when the logs belong to the habits, the distinct habits done on a day are at most the number of habits |
| `Dashboard.CompletedTodayWithinHabits` | src/controllers/dashboardController.js:85-95 | when the recent logs belong to the active habits, `completedToday` and every daily count are at most the number of habits and the percentage is at most 100 |
| `Dashboard.HalfDoneExample` | src/controllers/dashboardController.js:85-88 | two habits with one done today give 1 completed and 50 percent, with or without a duplicate log |
| `Dashboard.StreaksBounded` | src/controllers/dashboardController.js:99-126 | current streak <= longest streak <= distinct completion days <= `totalCompletions` |
| `Dashboard.CurrentStreakIsRunEndingToday` | src/controllers/dashboardController.js:97-103 | with no log after today, every one of the `currentStreak` days ending today has a log and the day before them has none |
| `Dashboard.LongestStreakIsLongestRunOfDays` | src/controllers/dashboardController.js:108-126 | `longestStreak` is the length of the longest stretch of consecutive calendar days each with a log: one such stretch exists and none is longer |
| `Dashboard.DuplicateLogCountsOnlyOnce` | src/controllers/dashboardController.js:85-106 | a repeated log changes only `totalCompletions`: counts, percentage, chart and both streaks stay the same |
| `Dashboard.DuplicateLogSameDays` | src/controllers/dashboardController.js:99 | a repeated log adds no new date |
| `Dashboard.StreaksDependOnlyOnDays` | src/controllers/dashboardController.js:99-126 | two log histories with the same set of days have the same current and longest streaks |
| `Dashboard.ProgressShape` | src/controllers/dashboardController.js:168-190 | at least one day since creation, a rate between 0 and 100, a streak at most the number of logs, all completed dates in log order, and 7 consecutive days ending today flagged exactly when they have a log |
| `Dashboard.HabitStreakIsRunEndingToday` | src/controllers/dashboardController.js:163-172 | with the logs most recent first, one per day, and none after today, the habit's streak is the run of logged days ending today |
| `Dashboard.NewHabitDoneTodayExample` | src/controllers/dashboardController.js:168-179 | a habit created less than 24 hours ago and done today has 1 day since creation, a rate of 100 and a streak of 1 |
| `Dashboard.RateCappedAt100` | src/controllers/dashboardController.js:204 | at least as many logs as days since creation give a displayed rate of exactly 100 |
| `Dashboard.CapReachedWithOneLogPerDay` | src/controllers/dashboardController.js:175-179 | one log per calendar day can still give a raw rate of 200, which the cap brings to 100 |

## Left out

- The database queries (`Habit.find`, `Habit.findOne`, `HabitLog.find`) and the `res.status().json` responses. Their results are the inputs `habits`, `recentLogs`, `allLogs`, `habit` and `logs`.
- The store's guarantees are hypotheses of the lemmas that need them, not facts of the methods. These are the descending `.sort({ completedDate: -1 })` of a habit's logs, the one-log-per-habit-per-day unique index (src/models/HabitLog.js:28), and the absence of logs dated after today (logs are created only for the current day, src/controllers/trackingController.js:24).
- `recentLogs` is taken as given. The `$in: last7Days` filter of the query is not modelled. The counts only look at the seven window days anyway.
- Dashboard.GetDashboard, Dashboard.GetHabitProgress: the source reads the clock several times (`new Date()` in every `getLastNDays` iteration and in `calculateStreak`, and `Date.now()`). The model reads it once, as `nowMs`, so a request that straddles midnight is not modelled.
- Streaks.LastNDays: the mix of local-time `setDate` and UTC `toISOString` is modelled as pure calendar-day subtraction. A daylight-saving change inside the window, which can make the local and UTC days disagree, is not modelled.
- Streaks.CalculateStreak: likewise the step from `expected` to the day before (lines 33-35) is modelled as day-number subtraction, not as the local-time `setDate` on a UTC-parsed date. On a server whose zone observes daylight saving, that step can skip a day at a fall-back change. In America/New_York, `expected` goes from 2024-11-04 to 2024-11-02, so a streak of 3 running through 2024-11-03 is reported as 1 by the source. The model reports 3.
- DateFormat.Parse: stored dates are assumed to name a calendar day, because only `completeHabit` writes them, from `toISOString` (src/controllers/trackingController.js:24). The schema pattern at src/models/HabitLog.js:21 also admits shape-valid strings that name no day, such as 2024-02-30, and `new Date` rolls those over (2024-02-30 reads as 2024-03-01). `Parse` returns `None` for them, and a `Log` cannot hold them, so histories containing such strings are not modelled.
- Dashboard.RoundPercent: rounds the exact value `part / whole * 100`, so exact halves round up. The source computes `(part / whole) * 100` in IEEE double arithmetic, whose product can land just below .5 and round down: 23 of 40 gives 57.49999999999999 and so 57 in the source, but 58 in the model (likewise 29 of 200, 57 of 200, 113 of 200). Floating-point rounding is not modelled.
- Dashboard.CompletionRate: inherits the same difference through `RoundPercent`: 23 completions over 40 days give 57 in the source and 58 in the model.
- The millisecond difference divided by 86400000 at line 118 is modelled as day-number subtraction. Both operands are UTC midnights, so the quotient is a whole number of days.
- `localeCompare` is modelled as plain character-by-character order on the fixed-width strings. Locale collation rules are not modelled.
- Dates before year 0000 or after 9999, which `toISOString` writes with a sign and six digits, are outside `DateFormat.Format`.
- The habit fields returned beside the progress (`id`, `title`, `description`, `createdAt`) are not part of `HabitProgress`. They are copied unchanged from the lookup.
- The `try`/`catch` forwarding of database errors to `next(err)` is not modelled.
- Authentication, the habit and tracking controllers, validation middleware, routes and server start-up are not part of this model.
