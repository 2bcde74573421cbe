/** Calendar-day arithmetic behind the `YYYY-MM-DD` identifiers of the habit
    tracker: a day is a count of days since 0001-01-01 in the proleptic
    Gregorian calendar, and this module converts between that count and a
    (year, month, day) triple, steps one calendar day back or forward, and
    maps a millisecond instant to its UTC day. */
module Calendar {

  /** A calendar day, counted from 0001-01-01 (day 0). */
  type Day = int

  datatype Date = Date(year: int, month: int, day: int)

  /** `1000 * 60 * 60 * 24`, the divisor of the source's day-difference checks. */
  const MsPerDay: int := 86400000

  /** The day number of 1970-01-01, where millisecond instants start. */
  const UnixEpochDay: Day := 719162

  predicate IsLeapYear(y: int) {
    y % 4 == 0 && (y % 100 != 0 || y % 400 == 0)
  }

  function DaysInYear(y: int): int {
    if IsLeapYear(y) then 366 else 365
  }

  function DaysInMonth(y: int, m: int): (n: int)
    requires 1 <= m <= 12
    ensures 28 <= n <= 31
    ensures n == 29 <==> m == 2 && IsLeapYear(y)
  {
    if m == 2 then (if IsLeapYear(y) then 29 else 28)
    else if m == 4 || m == 6 || m == 9 || m == 11 then 30
    else 31
  }

  predicate ValidDate(d: Date) {
    1 <= d.month <= 12 && 1 <= d.day <= DaysInMonth(d.year, d.month)
  }

  /** Lexicographic order on (year, month, day): the order of the fixed-width
      `YYYY-MM-DD` strings. */
  predicate DateBefore(a: Date, b: Date) {
    a.year < b.year ||
    (a.year == b.year && (a.month < b.month || (a.month == b.month && a.day < b.day)))
  }

  /** Days from 0001-01-01 to January 1st of year `y`. */
  function DaysBeforeYear(y: int): int {
    var p := y - 1;
    365 * p + p / 4 - p / 100 + p / 400
  }

  /** Days from January 1st of year `y` to the first day of month `m`
      (`m == 13` stands for the first day of the next year). */
  function DaysBeforeMonth(y: int, m: int): int
    requires 1 <= m <= 13
  {
    var common :=
      if m == 1 then 0 else if m == 2 then 31 else if m == 3 then 59
      else if m == 4 then 90 else if m == 5 then 120 else if m == 6 then 151
      else if m == 7 then 181 else if m == 8 then 212 else if m == 9 then 243
      else if m == 10 then 273 else if m == 11 then 304 else if m == 12 then 334
      else 365;
    if m > 2 && IsLeapYear(y) then common + 1 else common
  }

  /** The day number of a valid date: what `new Date('YYYY-MM-DD')` counts
      in whole days. It lies inside the date's own month and own year. */
  function ToDayNumber(d: Date): (n: Day)
    requires ValidDate(d)
    ensures DaysBeforeYear(d.year) + DaysBeforeMonth(d.year, d.month) <= n
    ensures n < DaysBeforeYear(d.year) + DaysBeforeMonth(d.year, d.month + 1)
    ensures DaysBeforeYear(d.year) <= n < DaysBeforeYear(d.year + 1)
  {
    MonthStep(d.year, d.month);
    DaysBeforeMonthMonotone(d.year, d.month + 1, 13);
    YearStep(d.year);
    DaysBeforeYear(d.year) + DaysBeforeMonth(d.year, d.month) + d.day - 1
  }

  /** One year further on adds exactly the length of that year. */
  lemma YearStep(y: int)
    ensures DaysBeforeYear(y + 1) == DaysBeforeYear(y) + DaysInYear(y)
  {
    DivStep(y, 4);
    DivStep(y, 100);
    DivStep(y, 400);
  }

  /** Going from `y - 1` to `y` raises `y / k` exactly when `k` divides `y`. */
  lemma DivStep(y: int, k: int)
    requires k > 0
    ensures y / k - (y - 1) / k == (if y % k == 0 then 1 else 0)
  {
    var q, r := y / k, y % k;
    if r == 0 {
      DivUnique(y - 1, k, q - 1, k - 1);
    } else {
      DivUnique(y - 1, k, q, r - 1);
    }
  }

  /** Euclidean division has one quotient. */
  lemma DivUnique(n: int, k: int, q: int, r: int)
    requires k > 0 && 0 <= r < k && n == k * q + r
    ensures n / k == q
  {
    var q' := n / k;
    assert k * (q - q') == n % k - r;
    ScaleBounds(k, q - q');
  }

  /** A non-zero multiple of `k` is at least `k` away from zero. */
  lemma {:induction false} ScaleBounds(k: int, m: int)
    requires k > 0
    ensures m >= 1 ==> k * m >= k
    ensures m <= -1 ==> k * m <= -k
    decreases if m < 0 then -m else m
  {
    if m > 1 {
      ScaleBounds(k, m - 1);
      assert k * m == k * (m - 1) + k;
    } else if m < -1 {
      ScaleBounds(k, m + 1);
      assert k * m == k * (m + 1) - k;
    }
  }

  /** One month further on adds exactly the length of that month, and the
      twelve months make up the year. */
  lemma MonthStep(y: int, m: int)
    requires 1 <= m <= 12
    ensures DaysBeforeMonth(y, m + 1) == DaysBeforeMonth(y, m) + DaysInMonth(y, m)
    ensures DaysBeforeMonth(y, 13) == DaysInYear(y)
  {
  }

  lemma DaysBeforeMonthMonotone(y: int, m: int, m': int)
    requires 1 <= m <= m' <= 13
    ensures DaysBeforeMonth(y, m) <= DaysBeforeMonth(y, m')
  {
  }

  lemma DaysBeforeYearMonotone(y: int, y': int)
    requires y <= y'
    ensures DaysBeforeYear(y) <= DaysBeforeYear(y')
  {
  }

  /** The day before `d`: the same month while `d.day > 1`, otherwise the last
      day of the previous month, rolling over into December 31st of the
      previous year. */
  function PrevDate(d: Date): (r: Date)
    requires ValidDate(d)
    ensures ValidDate(r)
    ensures ToDayNumber(r) == ToDayNumber(d) - 1
  {
    if d.day > 1 then
      Date(d.year, d.month, d.day - 1)
    else if d.month > 1 then
      MonthStep(d.year, d.month - 1);
      Date(d.year, d.month - 1, DaysInMonth(d.year, d.month - 1))
    else
      YearStep(d.year - 1);
      MonthStep(d.year - 1, 12);
      Date(d.year - 1, 12, 31)
  }

  /** The day after `d`. */
  function NextDate(d: Date): (r: Date)
    requires ValidDate(d)
    ensures ValidDate(r)
    ensures ToDayNumber(r) == ToDayNumber(d) + 1
  {
    if d.day < DaysInMonth(d.year, d.month) then
      Date(d.year, d.month, d.day + 1)
    else if d.month < 12 then
      MonthStep(d.year, d.month);
      Date(d.year, d.month + 1, 1)
    else
      YearStep(d.year);
      MonthStep(d.year, 12);
      Date(d.year + 1, 1, 1)
  }

  /** The calendar date of day number `n`, reached by stepping from
      0001-01-01 one day at a time. */
  function FromDayNumber(n: Day): (d: Date)
    ensures ValidDate(d)
    ensures ToDayNumber(d) == n
    decreases if n < 0 then -n else n
  {
    if n == 0 then Date(1, 1, 1)
    else if n > 0 then NextDate(FromDayNumber(n - 1))
    else PrevDate(FromDayNumber(n + 1))
  }

  /** Day numbers follow the order of the dates. */
  lemma DayNumberMonotone(a: Date, b: Date)
    requires ValidDate(a) && ValidDate(b)
    requires DateBefore(a, b)
    ensures ToDayNumber(a) < ToDayNumber(b)
  {
    if a.year < b.year {
      DaysBeforeYearMonotone(a.year + 1, b.year);
    } else if a.month < b.month {
      DaysBeforeMonthMonotone(a.year, a.month + 1, b.month);
    }
  }

  /** Two valid dates share a day number only when they are the same date,
      and day numbers order dates exactly as the triples (and so the
      `YYYY-MM-DD` strings) do. */
  lemma DayNumberOrder(a: Date, b: Date)
    requires ValidDate(a) && ValidDate(b)
    ensures ToDayNumber(a) == ToDayNumber(b) <==> a == b
    ensures ToDayNumber(a) < ToDayNumber(b) <==> DateBefore(a, b)
  {
    if DateBefore(a, b) {
      DayNumberMonotone(a, b);
    } else if DateBefore(b, a) {
      DayNumberMonotone(b, a);
    }
  }

  /** Converting a valid date to its number and back gives the date again. */
  lemma DateRoundTrip(d: Date)
    requires ValidDate(d)
    ensures FromDayNumber(ToDayNumber(d)) == d
  {
    DayNumberOrder(FromDayNumber(ToDayNumber(d)), d);
  }

  /** Subtracting one from a day number is the calendar's previous day:
      what `setDate(getDate() - 1)` does to a date. */
  lemma PrevDateIsMinusOne(n: Day)
    ensures FromDayNumber(n - 1) == PrevDate(FromDayNumber(n))
    ensures FromDayNumber(n + 1) == NextDate(FromDayNumber(n))
  {
    DayNumberOrder(FromDayNumber(n - 1), PrevDate(FromDayNumber(n)));
    DayNumberOrder(FromDayNumber(n + 1), NextDate(FromDayNumber(n)));
  }

  /** The UTC calendar day of an instant given in milliseconds since
      1970-01-01T00:00:00Z (the date part of `toISOString()`). Division
      rounds toward minus infinity, as the calendar does for instants before
      1970. */
  function DayOfInstant(ms: int): (n: Day)
    ensures MsPerDay * (n - UnixEpochDay) <= ms < MsPerDay * (n - UnixEpochDay + 1)
  {
    ms / MsPerDay + UnixEpochDay
  }

  /** Day 0 is 0001-01-01 and `UnixEpochDay` is 1970-01-01. */
  lemma EpochDays()
    ensures ToDayNumber(Date(1, 1, 1)) == 0
    ensures ToDayNumber(Date(1970, 1, 1)) == UnixEpochDay
  {
  }

  /** Month and leap-year boundaries: stepping back from March 1st reaches
      February 29th in a leap year and February 28th in a common year, and
      stepping back from January 1st reaches December 31st. */
  lemma BoundaryExamples(n: Day)
    ensures FromDayNumber(n) == Date(2024, 3, 1) ==>
      FromDayNumber(n - 1) == Date(2024, 2, 29) && FromDayNumber(n - 2) == Date(2024, 2, 28)
    ensures FromDayNumber(n) == Date(2023, 3, 1) ==>
      FromDayNumber(n - 1) == Date(2023, 2, 28) && FromDayNumber(n - 2) == Date(2023, 2, 27)
    ensures FromDayNumber(n) == Date(2024, 1, 1) ==> FromDayNumber(n - 1) == Date(2023, 12, 31)
  {
    PrevDateIsMinusOne(n);
    PrevDateIsMinusOne(n - 1);
  }
}
