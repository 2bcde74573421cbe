/** The helpers of the dashboard controller: the trailing window of days, the
    current streak anchored at today, the longest run of consecutive days,
    and the distinct-and-sorted view of a bag of completion dates. Days are
    day numbers (module Calendar), so "one calendar day earlier" is `- 1`. */
module Streaks {
  import opened Calendar

  // ---------------------------------------------------------------------
  // Orderings of day sequences

  predicate StrictlyDescending(s: seq<Day>) {
    forall i, j :: 0 <= i < j < |s| ==> s[i] > s[j]
  }

  predicate StrictlyAscending(s: seq<Day>) {
    forall i, j :: 0 <= i < j < |s| ==> s[i] < s[j]
  }

  /** `s` read back to front. */
  function Reversed<T>(s: seq<T>): (r: seq<T>)
    ensures |r| == |s|
    ensures forall i :: 0 <= i < |s| ==> r[i] == s[|s| - 1 - i]
  {
    seq(|s|, i requires 0 <= i < |s| => s[|s| - 1 - i])
  }

  lemma ReversedDescending(s: seq<Day>)
    requires StrictlyDescending(s)
    ensures StrictlyAscending(Reversed(s))
  {
  }

  // ---------------------------------------------------------------------
  // getLastNDays

  /** The last `n` calendar days, most recent first: element `i` is `today`
      minus `i` days. */
  method LastNDays(today: Day, n: nat) returns (days: seq<Day>)
    ensures |days| == n
    ensures forall i :: 0 <= i < n ==> days[i] == today - i
  {
    days := [];
    var i := 0;
    while i < n
      invariant 0 <= i <= n
      invariant |days| == i
      invariant forall k :: 0 <= k < i ==> days[k] == today - k
    {
      days := days + [today - i];
      i := i + 1;
    }
  }

  /** The window starts at today, runs strictly downwards, and each day is
      the calendar predecessor of the one before it. */
  lemma LastNDaysShape(days: seq<Day>, today: Day)
    requires forall i :: 0 <= i < |days| ==> days[i] == today - i
    ensures |days| > 0 ==> days[0] == today
    ensures StrictlyDescending(days)
    ensures forall i :: 0 < i < |days| ==>
      FromDayNumber(days[i]) == PrevDate(FromDayNumber(days[i - 1]))
  {
    forall i | 0 < i < |days|
      ensures FromDayNumber(days[i]) == PrevDate(FromDayNumber(days[i - 1]))
    {
      var d := days[i - 1];
      assert days[i] == d - 1;
      PrevDateIsMinusOne(d);
    }
  }

  /** `Array.prototype.reverse`: reverses `a` in place. */
  method ReverseInPlace<T>(a: array<T>)
    modifies a
    ensures a[..] == Reversed(old(a[..]))
  {
    var lo, hi := 0, a.Length - 1;
    while lo < hi
      invariant 0 <= lo <= a.Length && hi == a.Length - 1 - lo
      invariant forall k :: 0 <= k < lo || hi < k < a.Length ==> a[k] == old(a[a.Length - 1 - k])
      invariant forall k :: lo <= k <= hi ==> a[k] == old(a[k])
    {
      a[lo], a[hi] := a[hi], a[lo];
      lo, hi := lo + 1, hi - 1;
    }
  }

  // ---------------------------------------------------------------------
  // calculateStreak

  /** The current streak: the length of the longest prefix of `datesDesc`
      that reads today, today - 1, today - 2, ... The walk is anchored at
      today, so it is 0 whenever the first date is not today. */
  function CurrentStreak(datesDesc: seq<Day>, today: Day): (k: nat)
    ensures k <= |datesDesc|
    ensures forall i :: 0 <= i < k ==> datesDesc[i] == today - i
    ensures k < |datesDesc| ==> datesDesc[k] != today - k
  {
    if |datesDesc| == 0 || datesDesc[0] != today then 0
    else 1 + CurrentStreak(datesDesc[1..], today - 1)
  }

  /** `calculateStreak`: walks the dates from the most recent, expecting
      today first and one day earlier after every match; stops at the
      first mismatch. */
  method CalculateStreak(datesDesc: seq<Day>, today: Day) returns (streak: nat)
    ensures streak == CurrentStreak(datesDesc, today)
    ensures |datesDesc| == 0 || datesDesc[0] != today ==> streak == 0
    ensures streak <= |datesDesc|
  {
    if |datesDesc| == 0 {
      return 0;
    }
    streak := 0;
    var expected := today;
    var i := 0;
    while i < |datesDesc|
      invariant 0 <= i <= |datesDesc|
      invariant streak == i && expected == today - i
      invariant forall k :: 0 <= k < i ==> datesDesc[k] == today - k
    {
      if datesDesc[i] == expected {
        streak := streak + 1;
        expected := expected - 1;
      } else {
        break;
      }
      i := i + 1;
    }
  }

  /** Over the strictly descending unique dates of a history with no date
      after today, the current streak is the length of the run of completed
      days that ends today: today - i is completed for every i below it and
      the day just before the run is not. */
  lemma StreakIsRunEndingToday(datesDesc: seq<Day>, today: Day)
    requires StrictlyDescending(datesDesc)
    requires forall i :: 0 <= i < |datesDesc| ==> datesDesc[i] <= today
    ensures var k := CurrentStreak(datesDesc, today);
      (forall d :: today - k < d <= today ==> d in datesDesc) && today - k !in datesDesc
  {
    var k := CurrentStreak(datesDesc, today);
    forall d | today - k < d <= today ensures d in datesDesc {
      assert datesDesc[today - d] == d;
    }
  }

  // ---------------------------------------------------------------------
  // Longest streak

  /** `s[lo..hi]` is a non-empty run of consecutive days: each element is
      exactly one day after the one before it. */
  predicate IsRun(s: seq<Day>, lo: int, hi: int) {
    0 <= lo < hi <= |s| && forall k :: lo < k < hi ==> s[k] == s[k - 1] + 1
  }

  /** A run of `len` days starting at index `lo`. */
  predicate RunAt(s: seq<Day>, lo: int, len: int) {
    IsRun(s, lo, lo + len)
  }

  /** The length of the longest run that ends at index `i`: the value of
      `tempStreak` after the scan has looked at `s[i]`. */
  function RunEndingAt(s: seq<Day>, i: nat): (r: nat)
    requires i < |s|
    ensures 1 <= r <= i + 1
    ensures IsRun(s, i + 1 - r, i + 1)
  {
    if i == 0 then 1
    else if s[i] == s[i - 1] + 1 then RunEndingAt(s, i - 1) + 1
    else 1
  }

  lemma {:induction false} RunEndingAtIsMaximal(s: seq<Day>, i: nat, lo: nat)
    requires i < |s| && IsRun(s, lo, i + 1)
    ensures i + 1 - lo <= RunEndingAt(s, i)
  {
    if lo < i {
      assert s[i] == s[i - 1] + 1;
      RunEndingAtIsMaximal(s, i - 1, lo);
    }
  }

  /** The longest run within the first `n` days: `longestStreak` after the
      scan has looked at `s[..n]`. */
  function LongestUpTo(s: seq<Day>, n: nat): (r: nat)
    requires n <= |s|
    ensures r <= n
    ensures n > 0 ==> 1 <= r
  {
    if n == 0 then 0
    else
      var prev := LongestUpTo(s, n - 1);
      var run := RunEndingAt(s, n - 1);
      if run > prev then run else prev
  }

  /** The longest run of consecutive days in `s`. */
  function Longest(s: seq<Day>): (r: nat)
    ensures r <= |s|
    ensures |s| > 0 ==> 1 <= r
  {
    LongestUpTo(s, |s|)
  }

  lemma {:induction false} LongestUpToIsMaximal(s: seq<Day>, n: nat, lo: int, hi: int)
    requires n <= |s| && IsRun(s, lo, hi) && hi <= n
    ensures hi - lo <= LongestUpTo(s, n)
  {
    if hi == n {
      RunEndingAtIsMaximal(s, n - 1, lo);
    } else {
      LongestUpToIsMaximal(s, n - 1, lo, hi);
    }
  }

  lemma {:induction false} LongestUpToIsAchieved(s: seq<Day>, n: nat)
    requires 0 < n <= |s|
    ensures exists lo :: RunAt(s, lo, LongestUpTo(s, n))
  {
    var run := RunEndingAt(s, n - 1);
    if n == 1 || run > LongestUpTo(s, n - 1) {
      assert LongestUpTo(s, n) == run;
      assert RunAt(s, n - run, run);
    } else {
      LongestUpToIsAchieved(s, n - 1);
      var lo :| RunAt(s, lo, LongestUpTo(s, n - 1));
      assert RunAt(s, lo, LongestUpTo(s, n));
    }
  }

  /** `Longest` is the length of a run that occurs in `s`, no run in `s` is
      longer, it is 0 only for no dates, and 1 for a single date. */
  lemma LongestIsLongestRun(s: seq<Day>)
    ensures Longest(s) <= |s|
    ensures |s| == 0 <==> Longest(s) == 0
    ensures |s| == 1 ==> Longest(s) == 1
    ensures |s| > 0 ==> exists lo :: RunAt(s, lo, Longest(s))
    ensures forall lo, hi :: IsRun(s, lo, hi) ==> hi - lo <= Longest(s)
  {
    if |s| > 0 {
      LongestUpToIsAchieved(s, |s|);
    }
    forall lo, hi | IsRun(s, lo, hi) ensures hi - lo <= Longest(s) {
      LongestUpToIsMaximal(s, |s|, lo, hi);
    }
  }

  /** The longest-streak scan of `getDashboard` over the ascending unique
      dates: `tempStreak` counts the run ending at the current date and
      restarts at 1 whenever the gap to the previous date is not exactly one
      day; `longestStreak` keeps the maximum. */
  method LongestStreak(datesAsc: seq<Day>) returns (longestStreak: nat)
    ensures longestStreak == Longest(datesAsc)
    ensures |datesAsc| == 0 <==> longestStreak == 0
    ensures |datesAsc| > 0 ==> exists lo :: RunAt(datesAsc, lo, longestStreak)
    ensures forall lo, hi :: IsRun(datesAsc, lo, hi) ==> hi - lo <= longestStreak
  {
    longestStreak := 0;
    var tempStreak := 0;
    var i := 0;
    while i < |datesAsc|
      invariant 0 <= i <= |datesAsc|
      invariant longestStreak == LongestUpTo(datesAsc, i)
      invariant i > 0 ==> tempStreak == RunEndingAt(datesAsc, i - 1)
    {
      if i == 0 {
        tempStreak := 1;
      } else {
        var diff := datesAsc[i] - datesAsc[i - 1];
        if diff == 1 {
          tempStreak := tempStreak + 1;
        } else {
          tempStreak := 1;
        }
      }
      if tempStreak > longestStreak {
        longestStreak := tempStreak;
      }
      i := i + 1;
    }
    LongestIsLongestRun(datesAsc);
  }

  /** Over the same dates read in both directions, the current streak never
      exceeds the longest streak: the days of the current streak form a run
      at the end of the ascending order. */
  lemma {:induction false} CurrentStreakAtMostLongest(datesDesc: seq<Day>, today: Day)
    ensures CurrentStreak(datesDesc, today) <= Longest(Reversed(datesDesc))
  {
    var k := CurrentStreak(datesDesc, today);
    var asc := Reversed(datesDesc);
    var n := |datesDesc|;
    if k > 0 {
      assert IsRun(asc, n - k, n) by {
        forall j | n - k < j < n ensures asc[j] == asc[j - 1] + 1 {
          assert asc[j] == datesDesc[n - 1 - j] == today - (n - 1 - j);
          assert asc[j - 1] == datesDesc[n - j] == today - (n - j);
        }
      }
      LongestIsLongestRun(asc);
    }
  }

  // ---------------------------------------------------------------------
  // Distinct, sorted dates: `[...new Set(dates)].sort(...)`

  /** Inserts `x` into a strictly descending sequence, keeping it strictly
      descending and dropping `x` if it is already there. */
  function InsertDescending(x: Day, s: seq<Day>): (r: seq<Day>)
    requires StrictlyDescending(s)
    ensures StrictlyDescending(r)
    ensures forall y :: y in r <==> y == x || y in s
    ensures |r| <= |s| + 1
  {
    if s == [] then [x]
    else if x == s[0] then s
    else if x > s[0] then [x] + s
    else
      var rest := InsertDescending(x, s[1..]);
      HeadIsGreatest(s);
      PrependDescending(s[0], rest);
      assert s == [s[0]] + s[1..];
      [s[0]] + rest
  }

  /** The head of a strictly descending sequence is above everything after
      it. */
  lemma HeadIsGreatest(s: seq<Day>)
    requires StrictlyDescending(s) && s != []
    ensures forall y :: y in s[1..] ==> y in s && y < s[0]
    ensures forall y :: y in s && y != s[0] ==> y in s[1..]
    ensures forall y :: y in s ==> y <= s[0]
  {
    forall y | y in s[1..] ensures y in s && y < s[0] {
      var j :| 0 <= j < |s[1..]| && s[1..][j] == y;
      assert s[j + 1] == y;
    }
    forall y | y in s && y != s[0] ensures y in s[1..] {
      var j :| 0 <= j < |s| && s[j] == y;
      assert s[1..][j - 1] == y;
    }
  }

  /** Putting a day above everything in a strictly descending sequence in
      front keeps it strictly descending. */
  lemma PrependDescending(x: Day, s: seq<Day>)
    requires StrictlyDescending(s)
    requires forall y :: y in s ==> y < x
    ensures StrictlyDescending([x] + s)
  {
    var r := [x] + s;
    forall i, j | 0 <= i < j < |r| ensures r[i] > r[j] {
      assert r[j] == s[j - 1] && s[j - 1] in s;
      if i > 0 {
        assert r[i] == s[i - 1];
      }
    }
  }

  /** The distinct dates of `dates`, most recent first. */
  function DistinctDescending(dates: seq<Day>): (r: seq<Day>)
    ensures StrictlyDescending(r)
    ensures forall y :: y in r <==> y in dates
  {
    if dates == [] then []
    else InsertDescending(dates[0], DistinctDescending(dates[1..]))
  }

  /** A sequence without repetitions has as many elements as its set. */
  lemma {:induction false} DescendingCardinality(s: seq<Day>)
    requires StrictlyDescending(s)
    ensures |set x | x in s| == |s|
  {
    if s != [] {
      DescendingCardinality(s[1..]);
      assert (set x | x in s) == {s[0]} + (set x | x in s[1..]);
    }
  }

  /** The distinct dates are exactly the set of dates, one entry each. */
  lemma DistinctDescendingCount(dates: seq<Day>)
    ensures |DistinctDescending(dates)| == |set x | x in dates|
  {
    var r := DistinctDescending(dates);
    DescendingCardinality(r);
    assert (set x | x in r) == (set x | x in dates);
  }

  /** Two sequences with the same elements are empty together. */
  lemma EmptyTogether(a: seq<Day>, b: seq<Day>)
    requires forall x :: x in a <==> x in b
    ensures a == [] <==> b == []
  {
    if a != [] {
      var y := a[0];
      assert y in a;
      assert y in a <==> y in b;
    }
    if b != [] {
      var y := b[0];
      assert y in b;
      assert y in a <==> y in b;
    }
  }

  /** Two non-empty strictly descending sequences with the same elements
      share their head, and then their tails have the same elements. */
  lemma SameHeadSameTail(a: seq<Day>, b: seq<Day>)
    requires StrictlyDescending(a) && StrictlyDescending(b) && a != [] && b != []
    requires forall x :: x in a <==> x in b
    ensures a[0] == b[0]
    ensures forall x :: x in a[1..] <==> x in b[1..]
  {
    HeadIsGreatest(a);
    HeadIsGreatest(b);
    assert a[0] in a && b[0] in b;
    assert a[0] <= b[0] && b[0] <= a[0];
  }

  /** Two strictly descending sequences with the same elements are equal:
      the sorted distinct dates depend only on the set of dates. */
  lemma {:induction false} DescendingUnique(a: seq<Day>, b: seq<Day>)
    requires StrictlyDescending(a) && StrictlyDescending(b)
    requires forall x :: x in a <==> x in b
    ensures a == b
  {
    EmptyTogether(a, b);
    if a != [] {
      SameHeadSameTail(a, b);
      DescendingUnique(a[1..], b[1..]);
      assert a == [a[0]] + a[1..];
      assert b == [b[0]] + b[1..];
    }
  }

  /** The distinct dates are the same for any two histories with the same
      set of dates. */
  lemma DistinctDescendingBySet(dates: seq<Day>, dates': seq<Day>)
    requires forall x :: x in dates <==> x in dates'
    ensures DistinctDescending(dates) == DistinctDescending(dates')
  {
    DescendingUnique(DistinctDescending(dates), DistinctDescending(dates'));
  }

  // ---------------------------------------------------------------------
  // The streaks in calendar terms

  /** The set of days of a history. */
  function DaySet(dates: seq<Day>): set<Day> {
    set x | x in dates
  }

  /** Every day from `start` to `start + len - 1` is in `days`. */
  ghost predicate DaysRun(days: set<Day>, start: Day, len: nat) {
    forall d :: start <= d < start + len ==> d in days
  }

  /** Inside a run, the value at index `lo + t` is `t` days after the first. */
  lemma {:induction false} RunValues(s: seq<Day>, lo: int, hi: int, t: nat)
    requires IsRun(s, lo, hi) && lo + t < hi
    ensures s[lo + t] == s[lo] + t
  {
    if t > 0 {
      RunValues(s, lo, hi, t - 1);
    }
  }

  /** In strictly ascending dates holding every day from `start` to
      `start + t`, the `t` entries after `start` are exactly those days. */
  lemma {:induction false} AscendingFollowsDays(asc: seq<Day>, lo: int, start: Day, t: nat)
    requires StrictlyAscending(asc)
    requires 0 <= lo < |asc| && asc[lo] == start
    requires forall d :: start <= d <= start + t ==> d in asc
    ensures lo + t < |asc| && asc[lo + t] == start + t
  {
    if t > 0 {
      AscendingFollowsDays(asc, lo, start, t - 1);
      assert start + t in asc;
      var m :| 0 <= m < |asc| && asc[m] == start + t;
      assert lo + t - 1 < m;
      assert asc[lo + t] <= asc[m];
    }
  }

  /** The ascending distinct dates hold exactly the dates of the history. */
  lemma AscendingHasDates(dates: seq<Day>)
    ensures StrictlyAscending(Reversed(DistinctDescending(dates)))
    ensures forall x :: x in Reversed(DistinctDescending(dates)) <==> x in dates
  {
    var desc := DistinctDescending(dates);
    var asc := Reversed(desc);
    ReversedDescending(desc);
    forall x ensures x in asc <==> x in desc {
      if x in desc {
        var i :| 0 <= i < |desc| && desc[i] == x;
        assert asc[|desc| - 1 - i] == x;
      }
    }
  }

  /** A run of `len` entries starting at index `lo` holds every day from
      its first day on for `len` days. */
  lemma RunCoversDays(s: seq<Day>, lo: int, len: int)
    requires RunAt(s, lo, len)
    ensures forall d :: s[lo] <= d < s[lo] + len ==> d in s
  {
    forall d | s[lo] <= d < s[lo] + len ensures d in s {
      RunValues(s, lo, lo + len, d - s[lo]);
    }
  }

  /** Some stretch of `Longest` consecutive calendar days all have a
      completion (when there is any completion at all). */
  lemma LongestRunOfDaysExists(dates: seq<Day>)
    requires |dates| > 0
    ensures var asc := Reversed(DistinctDescending(dates));
      Longest(asc) > 0 && exists start :: DaysRun(DaySet(dates), start, Longest(asc))
  {
    var asc := Reversed(DistinctDescending(dates));
    var longest := Longest(asc);
    AscendingHasDates(dates);
    LongestIsLongestRun(asc);
    var lo :| RunAt(asc, lo, longest);
    RunCoversDays(asc, lo, longest);
    assert DaysRun(DaySet(dates), asc[lo], longest);
  }

  /** Strictly ascending dates that hold every day of a stretch hold it as
      a run of entries. */
  lemma AscendingRunOfDays(asc: seq<Day>, start: Day, len: nat)
    requires StrictlyAscending(asc) && len > 0
    requires forall d :: start <= d <= start + (len - 1) ==> d in asc
    ensures exists lo :: RunAt(asc, lo, len)
  {
    assert start in asc;
    var lo :| 0 <= lo < |asc| && asc[lo] == start;
    AscendingFollowsDays(asc, lo, start, len - 1);
    forall k | lo < k < lo + len ensures asc[k] == asc[k - 1] + 1 {
      AscendingFollowsDays(asc, lo, start, k - lo);
      AscendingFollowsDays(asc, lo, start, k - 1 - lo);
    }
    assert RunAt(asc, lo, len);
  }

  /** No stretch of consecutive calendar days that all have a completion is
      longer than `Longest`. */
  lemma LongestRunOfDaysIsMaximal(dates: seq<Day>, start: Day, len: nat)
    requires DaysRun(DaySet(dates), start, len)
    ensures len <= Longest(Reversed(DistinctDescending(dates)))
  {
    var asc := Reversed(DistinctDescending(dates));
    AscendingHasDates(dates);
    if len > 0 {
      forall d | start <= d <= start + (len - 1) ensures d in asc {
        assert d in DaySet(dates);
      }
      AscendingRunOfDays(asc, start, len);
      LongestIsLongestRun(asc);
    }
  }

  // ---------------------------------------------------------------------
  // Worked examples

  /** Completions today, yesterday and the day before give a streak of 3;
      yesterday and the day before without today give 0; none give 0. */
  lemma CurrentStreakExamples(today: Day)
    ensures CurrentStreak([today, today - 1, today - 2], today) == 3
    ensures CurrentStreak([today - 1, today - 2], today) == 0
    ensures CurrentStreak([], today) == 0
  {
    assert [today, today - 1, today - 2][1..] == [today - 1, today - 2];
    assert [today - 1, today - 2][1..] == [today - 2];
  }

  /** Days D, D+1, D+2, D+5, D+6 have a longest streak of 3; a single day
      has 1 and no day has 0. */
  lemma LongestExamples(d: Day)
    ensures Longest([d, d + 1, d + 2, d + 5, d + 6]) == 3
    ensures Longest([d]) == 1
    ensures Longest([]) == 0
  {
    var s := [d, d + 1, d + 2, d + 5, d + 6];
    assert RunEndingAt(s, 0) == 1;
    assert RunEndingAt(s, 1) == 2;
    assert RunEndingAt(s, 2) == 3;
    assert RunEndingAt(s, 3) == 1;
    assert RunEndingAt(s, 4) == 2;
    assert LongestUpTo(s, 1) == 1;
    assert LongestUpTo(s, 2) == 2;
    assert LongestUpTo(s, 3) == 3;
    assert LongestUpTo(s, 4) == 3;
    assert LongestUpTo(s, 5) == 3;
  }

  /** The three-day window ending on 2024-03-01 crosses the leap day. */
  lemma LeapDayWindow(days: seq<Day>, today: Day)
    requires |days| == 3 && forall i :: 0 <= i < 3 ==> days[i] == today - i
    ensures FromDayNumber(today) == Date(2024, 3, 1) ==>
      FromDayNumber(days[1]) == Date(2024, 2, 29) && FromDayNumber(days[2]) == Date(2024, 2, 28)
  {
    BoundaryExamples(today);
  }
}
