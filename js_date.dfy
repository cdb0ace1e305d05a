/** The calendar arithmetic of ECMAScript `Date` (section 21.4.1 of
    ECMA-262) and the three-argument constructor `new Date(y, m, d)`,
    with the local time zone taken to be UTC. A time value is a whole
    number of milliseconds; `None` is the `NaN` of an Invalid Date. */
module JsDate {

  import opened Wrappers

  const MsPerDay := 86400000
  /** The largest magnitude `TimeClip` accepts: 8.64e15 ms, 1e8 days. */
  const MaxTimeValue := 8640000000000000

  /** `DaysInYear(y)`: 366 in a Gregorian leap year, 365 otherwise. */
  function DaysInYear(y: int): int
  {
    if y % 4 != 0 then 365
    else if y % 100 != 0 then 366
    else if y % 400 != 0 then 365
    else 366
  }

  predicate InLeapYear(y: int)
  {
    DaysInYear(y) == 366
  }

  /** `DayFromYear(y)`: the day number of the first day of year `y`
      (1 January 1970 is day 0). Dafny's `/` floors for a positive
      divisor, as the standard's `floor` does. */
  function DayFromYear(y: int): int
  {
    365 * (y - 1970) + (y - 1969) / 4 - (y - 1901) / 100 + (y - 1601) / 400
  }

  /** The number of days in month `mn` (0 for January) of year `y`. */
  function DaysInMonth(y: int, mn: int): int
    requires 0 <= mn < 12
  {
    if mn == 1 then (if InLeapYear(y) then 29 else 28)
    else if mn == 3 || mn == 5 || mn == 8 || mn == 10 then 30
    else 31
  }

  /** The number of days of year `y` before month `mn` begins. */
  function DaysBeforeMonth(y: int, mn: int): int
    requires 0 <= mn < 12
  {
    [0, 31, 59, 90, 120, 151, 181, 212, 243, 273, 304, 334][mn]
      + (if mn >= 2 && InLeapYear(y) then 1 else 0)
  }

  /** `MakeDay(year, month, date)`: a month outside 0..11 carries into the
      year and a date outside the month carries into the next or previous
      months. */
  function MakeDay(year: int, month: int, date: int): int
  {
    var ym := year + month / 12;
    var mn := month % 12;
    DayFromYear(ym) + DaysBeforeMonth(ym, mn) + date - 1
  }

  /** `MakeDate(day, 0)`: midnight of a day number, in milliseconds. */
  function MakeDate(day: int): int
  {
    day * MsPerDay
  }

  /** `TimeClip(t)`: time values beyond 8.64e15 ms either side of the
      epoch are `NaN`. */
  function TimeClip(t: int): (r: Option<int>)
    ensures r.Some? <==> -MaxTimeValue <= t <= MaxTimeValue
    ensures r.Some? ==> r.value == t
  {
    if t < -MaxTimeValue || t > MaxTimeValue then None else Some(t)
  }

  /** The year `new Date` uses for a written year: 0 to 99 stand for
      1900 to 1999. */
  function FullYear(y: int): int
  {
    if 0 <= y <= 99 then 1900 + y else y
  }

  /** `new Date(year, month, date)`, with `None` for a `NaN` argument. */
  function NewDate(year: Option<int>, month: Option<int>, date: Option<int>): Option<int>
  {
    if year.None? || month.None? || date.None? then None
    else
      TimeClip(MakeDate(MakeDay(FullYear(year.value), month.value, date.value)))
  }

  /** The relational `>=` on two `Date` objects: a comparison of their time
      values, false when either is `NaN`. */
  predicate DateAtLeast(a: Option<int>, b: Option<int>)
  {
    a.Some? && b.Some? && a.value >= b.value
  }

  // ---------------------------------------------------------------------
  // Calendar facts

  /** A calendar date with a 1-based month, as written `DD/MM/YYYY`. */
  datatype CalendarDate = CalendarDate(year: int, month: int, day: int)

  /** A real day of the proleptic Gregorian calendar. */
  predicate ValidDate(c: CalendarDate)
  {
    1 <= c.month <= 12 && 1 <= c.day <= DaysInMonth(c.year, c.month - 1)
  }

  /** The day number of a calendar date, as `new Date` computes it. */
  function DayNumber(c: CalendarDate): int
  {
    MakeDay(c.year, c.month - 1, c.day)
  }

  /** `a` is on or before `b`: (year, month, day) compared in that order. */
  predicate OnOrBefore(a: CalendarDate, b: CalendarDate)
  {
    || a.year < b.year
    || (a.year == b.year && a.month < b.month)
    || (a.year == b.year && a.month == b.month && a.day <= b.day)
  }

  /** The calendar day after `c`. */
  function NextDay(c: CalendarDate): CalendarDate
    requires ValidDate(c)
  {
    if c.day < DaysInMonth(c.year, c.month - 1) then CalendarDate(c.year, c.month, c.day + 1)
    else if c.month < 12 then CalendarDate(c.year, c.month + 1, 1)
    else CalendarDate(c.year + 1, 1, 1)
  }

  /** The first day of the next year follows the last day of this one. */
  lemma DayFromYearStep(y: int)
    ensures DayFromYear(y + 1) == DayFromYear(y) + DaysInYear(y)
  {
    FloorStep(y - 1969, 4);
    FloorStep(y - 1901, 100);
    FloorStep(y - 1601, 400);
  }

  /** `floor((a + 1) / k)` exceeds `floor(a / k)` exactly when `k`
      divides `a + 1`. */
  lemma FloorStep(a: int, k: int)
    requires k == 4 || k == 100 || k == 400
    ensures (a + 1) / k == a / k + (if (a + 1) % k == 0 then 1 else 0)
  {
  }

  /** Years are in order: every day of year `y1` comes before the first
      day of any later year. */
  lemma {:induction false} DayFromYearOrder(y1: int, y2: int)
    requires y1 < y2
    ensures DayFromYear(y1) + DaysInYear(y1) <= DayFromYear(y2)
    decreases y2 - y1
  {
    DayFromYearStep(y1);
    if y1 + 1 < y2 {
      DayFromYearOrder(y1 + 1, y2);
    }
  }

  /** The months of a year in order, filling the year exactly. */
  lemma MonthOrder(y: int, m1: int, m2: int)
    requires 0 <= m1 < m2 < 12
    ensures DaysBeforeMonth(y, m1) + DaysInMonth(y, m1) <= DaysBeforeMonth(y, m2)
  {
  }

  lemma MonthsFillYear(y: int, mn: int)
    requires 0 <= mn < 12
    ensures 0 <= DaysBeforeMonth(y, mn)
    ensures DaysBeforeMonth(y, mn) + DaysInMonth(y, mn) <= DaysInYear(y)
  {
  }

  /** A valid date lies in its year. */
  lemma DayNumberInYear(c: CalendarDate)
    requires ValidDate(c)
    ensures DayFromYear(c.year) <= DayNumber(c) < DayFromYear(c.year) + DaysInYear(c.year)
  {
    MakeDayWithinYear(c.year, c.month - 1, c.day);
    MonthsFillYear(c.year, c.month - 1);
  }

  /** A date in an earlier year has a smaller day number. */
  lemma DayNumberEarlierYear(a: CalendarDate, b: CalendarDate)
    requires ValidDate(a) && ValidDate(b) && a.year < b.year
    ensures DayNumber(a) < DayNumber(b)
  {
    DayNumberInYear(a);
    DayNumberInYear(b);
    DayFromYearOrder(a.year, b.year);
  }

  /** A date in an earlier month of the same year has a smaller day number. */
  lemma DayNumberEarlierMonth(a: CalendarDate, b: CalendarDate)
    requires ValidDate(a) && ValidDate(b) && a.year == b.year && a.month < b.month
    ensures DayNumber(a) < DayNumber(b)
  {
    MakeDayWithinYear(a.year, a.month - 1, a.day);
    MakeDayWithinYear(b.year, b.month - 1, b.day);
    MonthOrder(a.year, a.month - 1, b.month - 1);
  }

  /** A month from 0 to 11 does not carry into the year. */
  lemma MakeDayWithinYear(y: int, mn: int, d: int)
    requires 0 <= mn < 12
    ensures MakeDay(y, mn, d) == DayFromYear(y) + DaysBeforeMonth(y, mn) + d - 1
  {
    assert mn / 12 == 0 && mn % 12 == mn;
  }

  /** A strictly earlier date has a strictly smaller day number. */
  lemma DayNumberStrict(a: CalendarDate, b: CalendarDate)
    requires ValidDate(a) && ValidDate(b)
    requires OnOrBefore(a, b) && a != b
    ensures DayNumber(a) < DayNumber(b)
  {
    if a.year < b.year {
      DayNumberEarlierYear(a, b);
    } else if a.month < b.month {
      DayNumberEarlierMonth(a, b);
    }
  }

  /** On valid dates, the day number `new Date` computes orders dates
      exactly as the (year, month, day) comparison does. */
  lemma DayNumberOrder(a: CalendarDate, b: CalendarDate)
    requires ValidDate(a) && ValidDate(b)
    ensures DayNumber(a) <= DayNumber(b) <==> OnOrBefore(a, b)
  {
    if a == b {
    } else if OnOrBefore(a, b) {
      DayNumberStrict(a, b);
    } else {
      DayNumberStrict(b, a);
    }
  }

  /** `NextDay` gives a valid date whose day number is one more. */
  lemma NextDayNumber(c: CalendarDate)
    requires ValidDate(c)
    ensures ValidDate(NextDay(c))
    ensures DayNumber(NextDay(c)) == DayNumber(c) + 1
  {
    if c.day < DaysInMonth(c.year, c.month - 1) {
    } else if c.month < 12 {
      NextDayNewMonth(c);
    } else {
      NextDayNewYear(c);
    }
  }

  lemma NextDayNewMonth(c: CalendarDate)
    requires ValidDate(c) && c.day == DaysInMonth(c.year, c.month - 1) && c.month < 12
    ensures DayNumber(CalendarDate(c.year, c.month + 1, 1)) == DayNumber(c) + 1
  {
    MakeDayWithinYear(c.year, c.month - 1, c.day);
    MakeDayWithinYear(c.year, c.month, 1);
    MonthStep(c.year, c.month - 1);
  }

  /** Each month begins where the one before it ends. */
  lemma MonthStep(y: int, mn: int)
    requires 0 <= mn < 11
    ensures DaysBeforeMonth(y, mn + 1) == DaysBeforeMonth(y, mn) + DaysInMonth(y, mn)
  {
  }

  lemma NextDayNewYear(c: CalendarDate)
    requires ValidDate(c) && c.day == DaysInMonth(c.year, c.month - 1) && c.month == 12
    ensures DayNumber(CalendarDate(c.year + 1, 1, 1)) == DayNumber(c) + 1
  {
    MakeDayWithinYear(c.year, 11, c.day);
    MakeDayWithinYear(c.year + 1, 0, 1);
    DayFromYearStep(c.year);
  }

  /** The dates whose day number fits `TimeClip` include every date from
      year 100 to year 200000. */
  predicate InModelledRange(c: CalendarDate)
  {
    100 <= c.year <= 200000
  }

  /** For a valid date from year 100 to 200000, `new Date(w, mn, d)` with
      `w` the year as written, `mn` the 0-based month and `d` the day is
      midnight of its day number: nothing is clipped. */
  lemma NewDateOfValid(w: int, mn: int, d: int, c: CalendarDate)
    requires ValidDate(c) && InModelledRange(c)
    requires FullYear(w) == c.year && mn == c.month - 1 && d == c.day
    ensures NewDate(Some(w), Some(mn), Some(d)) == Some(DayNumber(c) * MsPerDay)
  {
    NewDateOfDay(w, mn, d, c);
    DayNumberBounded(c);
    MidnightInRange(DayNumber(c));
  }

  lemma NewDateOfDay(w: int, mn: int, d: int, c: CalendarDate)
    requires FullYear(w) == c.year && mn == c.month - 1 && d == c.day
    ensures NewDate(Some(w), Some(mn), Some(d)) == TimeClip(MakeDate(DayNumber(c)))
  {
  }

  /** The day number of a date from year 100 to 200000 is at most 1e8
      days from the epoch. */
  lemma DayNumberBounded(c: CalendarDate)
    requires ValidDate(c) && InModelledRange(c)
    ensures -100000000 <= DayNumber(c) <= 100000000
  {
    DayNumberInYear(c);
    DayFromYearOrder(100, c.year + 1);
    if c.year + 1 < 200001 {
      DayFromYearOrder(c.year + 1, 200001);
    }
    assert DayFromYear(100) > -100000000;
    assert DayFromYear(200001) < 100000000;
  }

  /** Midnight of a day within 1e8 days of the epoch is not clipped. */
  lemma MidnightInRange(day: int)
    requires -100000000 <= day <= 100000000
    ensures TimeClip(MakeDate(day)) == Some(day * MsPerDay)
  {
  }

}
