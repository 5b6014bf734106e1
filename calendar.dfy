/**
 * Calendar arithmetic of statistiques.js on plain (year, month, day) triples
 * in the proleptic Gregorian calendar: month lengths, the normalising
 * `Date` constructor, `setUTCDate` day shifts, the weekday, the ISO 8601
 * week number of `getWeekNumber`, the previous-month range of
 * `setLastMonth` and the zero-padded `YYYY-MM-DD` text used as date keys.
 */
module Calendar {

  import opened Wrappers
  import opened Text

  /** A calendar date; `month` counts 1..12 (JavaScript's getMonth() + 1). */
  datatype Date = Date(year: int, month: int, day: int)

  predicate IsLeapYear(y: int) {
    y % 4 == 0 && (y % 100 != 0 || y % 400 == 0)
  }

  function YearLength(y: int): int {
    if IsLeapYear(y) then 366 else 365
  }

  function DaysInMonth(y: int, m: int): (n: int)
    requires 1 <= m <= 12
    ensures 28 <= n <= 31
  {
    if m == 2 then (if IsLeapYear(y) then 29 else 28)
    else if m == 4 || m == 6 || m == 9 || m == 11 then 30
    else 31
  }

  predicate ValidDate(d: Date) {
    1 <= d.month <= 12 && 1 <= d.day <= DaysInMonth(d.year, d.month)
  }

  /** A date that exists in the calendar, as the store's `Date` column holds them. */
  type CalendarDate = d: Date | ValidDate(d) witness Date(2000, 1, 1)

  /** Days from 0001-01-01 to January 1 of year `y` (negative before year 1). */
  function DaysBeforeYear(y: int): int {
    var p := y - 1;
    365 * p + p / 4 - p / 100 + p / 400
  }

  /** Days from January 1 to the first of month `m` of year `y`. */
  function DaysBeforeMonth(y: int, m: int): int
    requires 1 <= m <= 12
  {
    [0, 31, 59, 90, 120, 151, 181, 212, 243, 273, 304, 334][m - 1]
      + (if m > 2 && IsLeapYear(y) then 1 else 0)
  }

  /**
   * Days since 0001-01-01, which is day 0 and a Monday. Two UTC midnights
   * differ by 86400000 ms times the difference of their day numbers.
   */
  function DayNumber(d: Date): int
    requires 1 <= d.month <= 12
  {
    DaysBeforeYear(d.year) + DaysBeforeMonth(d.year, d.month) + d.day - 1
  }

  lemma DivStep(p: int)
    ensures (p + 1) / 4 - p / 4 == (if (p + 1) % 4 == 0 then 1 else 0)
    ensures (p + 1) / 100 - p / 100 == (if (p + 1) % 100 == 0 then 1 else 0)
    ensures (p + 1) / 400 - p / 400 == (if (p + 1) % 400 == 0 then 1 else 0)
  {
  }

  /** A year divisible by 400 is divisible by 100, and one divisible by 100 by 4. */
  lemma LeapDivisors(y: int)
    ensures y % 400 == 0 ==> y % 100 == 0
    ensures y % 100 == 0 ==> y % 4 == 0
  {
    if y % 400 == 0 {
      var q := y / 400;
      assert y == 100 * (4 * q);
      assert y / 100 == 4 * q;
    }
    if y % 100 == 0 {
      var q := y / 100;
      assert y == 4 * (25 * q);
      assert y / 4 == 25 * q;
    }
  }

  /** A year has 365 days, 366 in a leap year. */
  lemma YearLengthStep(y: int)
    ensures DaysBeforeYear(y + 1) == DaysBeforeYear(y) + YearLength(y)
  {
    var p := y - 1;
    DivStep(p);
    LeapDivisors(y);
    assert p + 1 == y;
    assert DaysBeforeYear(y + 1) == DaysBeforeYear(y) + 365 + (y / 4 - p / 4) - (y / 100 - p / 100) + (y / 400 - p / 400);
  }

  /** The month table and the month lengths agree. */
  lemma MonthStep(y: int, m: int)
    requires 1 <= m <= 12
    ensures m < 12 ==> DaysBeforeMonth(y, m + 1) == DaysBeforeMonth(y, m) + DaysInMonth(y, m)
    ensures m == 12 ==> DaysBeforeMonth(y, m) + DaysInMonth(y, m) == YearLength(y)
  {
  }

  /** The day after `d`: the next day of the month, or the first of the next month or year. */
  function NextDay(d: Date): (r: Date)
    requires ValidDate(d)
    ensures ValidDate(r) && DayNumber(r) == DayNumber(d) + 1
  {
    MonthStep(d.year, d.month);
    YearLengthStep(d.year);
    if d.day < DaysInMonth(d.year, d.month) then Date(d.year, d.month, d.day + 1)
    else if d.month < 12 then Date(d.year, d.month + 1, 1)
    else Date(d.year + 1, 1, 1)
  }

  /** The last day of month `m` is the eve of the first of month `m + 1`. */
  lemma MonthEndIsEve(y: int, m: int)
    requires 1 <= m < 12
    ensures DayNumber(Date(y, m, DaysInMonth(y, m))) + 1 == DayNumber(Date(y, m + 1, 1))
  {
    MonthStep(y, m);
  }

  /** December 31 is the eve of the next January 1. */
  lemma YearEndIsEve(y: int)
    ensures DayNumber(Date(y, 12, 31)) + 1 == DayNumber(Date(y + 1, 1, 1))
  {
    MonthStep(y, 12);
    YearLengthStep(y);
  }

  /** The day before `d`: the previous day of the month, or the last of the previous month or year. */
  function PrevDay(d: Date): (r: Date)
    requires ValidDate(d)
    ensures ValidDate(r) && DayNumber(r) + 1 == DayNumber(d)
  {
    if d.day > 1 then Date(d.year, d.month, d.day - 1)
    else if d.month > 1 then
      MonthEndIsEve(d.year, d.month - 1);
      Date(d.year, d.month - 1, DaysInMonth(d.year, d.month - 1))
    else
      YearEndIsEve(d.year - 1);
      Date(d.year - 1, 12, 31)
  }

  /**
   * `d` moved by `k` days with month and year carried, as `setUTCDate(getUTCDate() + k)`
   * and the `Date` constructor normalise an out-of-range day of the month.
   */
  function AddDays(d: Date, k: int): (r: Date)
    requires ValidDate(d)
    ensures ValidDate(r) && DayNumber(r) == DayNumber(d) + k
    decreases if k < 0 then -k else k
  {
    if k == 0 then d
    else if k > 0 then AddDays(NextDay(d), k - 1)
    else AddDays(PrevDay(d), k + 1)
  }

  /**
   * `new Date(year, monthIndex, day)` (ECMAScript MakeDay): the month index is
   * 0-based and carried into the year, then the day is counted from the first
   * of that month, so day 0 is the last day of the month before.
   */
  function MakeDate(year: int, monthIndex: int, day: int): Date {
    AddDays(Date(year + monthIndex / 12, monthIndex % 12 + 1, 1), day - 1)
  }

  /** The month length as statistiques.js:111 reads it: day 0 of the following month. */
  function DaysInMonthViaDate(year: int, month: int): int {
    MakeDate(year, month, 0).day
  }

  lemma {:induction false} DateDayZeroIsMonthEnd(y: int, m: int)
    requires 1 <= m <= 12
    ensures MakeDate(y, m, 0) == Date(y, m, DaysInMonth(y, m))
    ensures DaysInMonthViaDate(y, m) == DaysInMonth(y, m)
  {
    var first := Date(y + m / 12, m % 12 + 1, 1);
    assert AddDays(first, -1) == AddDays(PrevDay(first), 0) == PrevDay(first);
  }

  /** 0 for Sunday .. 6 for Saturday, as `getUTCDay()`. */
  function UtcDay(d: Date): int
    requires 1 <= d.month <= 12
  {
    (DayNumber(d) + 1) % 7
  }

  /** 1 for Monday .. 7 for Sunday: `getUTCDay() || 7` (statistiques.js:148). */
  function IsoWeekday(d: Date): (w: int)
    requires 1 <= d.month <= 12
    ensures 1 <= w <= 7 && w == DayNumber(d) % 7 + 1
  {
    if UtcDay(d) == 0 then 7 else UtcDay(d)
  }

  /**
   * 1970-01-01 is a Thursday, as ECMAScript's `WeekDay(t) = (Day(t) + 4) mod 7`
   * has it, which fixes the weekday of every other day.
   */
  lemma EpochWeekday()
    ensures IsoWeekday(Date(1970, 1, 1)) == 4
    ensures UtcDay(Date(1970, 1, 1)) == 4
  {
  }

  /** `Math.ceil(a / b)` for a positive divisor. */
  function CeilDiv(a: int, b: int): int
    requires 0 < b
  {
    -((-a) / b)
  }

  /** The Thursday of the Monday-to-Sunday week holding `d` (statistiques.js:149). */
  function WeekThursday(d: Date): (t: Date)
    requires ValidDate(d)
    ensures ValidDate(t)
  {
    AddDays(d, 4 - IsoWeekday(d))
  }

  /**
   * `getWeekNumber` (statistiques.js:146-152): move to the Thursday of the
   * week, then count whole weeks from January 1 of that Thursday's year.
   */
  function WeekNumber(d: Date): (w: int)
    requires ValidDate(d)
    ensures 1 <= w <= 53
  {
    var thursday := WeekThursday(d);
    var yearStart := Date(thursday.year, 1, 1);
    DayOfYearBounds(thursday);
    CeilDiv((DayNumber(thursday) - DayNumber(yearStart)) + 1, 7)
  }

  /** Every valid date lies inside its own year. */
  lemma DayOfYearBounds(d: Date)
    requires ValidDate(d)
    ensures DaysBeforeYear(d.year) <= DayNumber(d) < DaysBeforeYear(d.year + 1)
  {
    MonthStep(d.year, d.month);
    YearLengthStep(d.year);
    if d.month < 12 {
      MonthTableBound(d.year, d.month + 1);
    }
  }

  lemma MonthTableBound(y: int, m: int)
    requires 1 <= m <= 12
    ensures DaysBeforeMonth(y, m) + DaysInMonth(y, m) <= YearLength(y)
  {
  }

  lemma {:induction false} DaysBeforeYearMonotone(a: int, b: int)
    requires a <= b
    ensures DaysBeforeYear(a) <= DaysBeforeYear(b)
    decreases b - a
  {
    if a < b {
      DaysBeforeYearMonotone(a, b - 1);
      YearLengthStep(b - 1);
    }
  }

  /** Earlier months of a year end before later months begin. */
  lemma MonthsOrdered(y: int, m: int, n: int)
    requires 1 <= m < n <= 12
    ensures DaysBeforeMonth(y, m) + DaysInMonth(y, m) <= DaysBeforeMonth(y, n)
  {
  }

  /** Distinct valid dates have distinct day numbers. */
  lemma DayNumberInjective(a: Date, b: Date)
    requires ValidDate(a) && ValidDate(b)
    requires DayNumber(a) == DayNumber(b)
    ensures a == b
  {
    DayOfYearBounds(a);
    YearOfDayNumber(b, a.year);
    if a.month < b.month {
      MonthsOrdered(a.year, a.month, b.month);
    } else if b.month < a.month {
      MonthsOrdered(a.year, b.month, a.month);
    }
  }

  /** The week number is read off the Thursday alone. */
  lemma WeekNumberOfThursday(d: Date)
    requires ValidDate(d)
    ensures var t := WeekThursday(d);
      DaysBeforeYear(t.year) <= DayNumber(t) < DaysBeforeYear(t.year + 1)
      && WeekNumber(d) == (DayNumber(t) - DaysBeforeYear(t.year)) / 7 + 1
  {
    DayOfYearBounds(WeekThursday(d));
  }

  /** A valid date whose day number falls inside year `y` is a date of year `y`. */
  lemma YearOfDayNumber(d: Date, y: int)
    requires ValidDate(d)
    requires DaysBeforeYear(y) <= DayNumber(d) < DaysBeforeYear(y + 1)
    ensures d.year == y
  {
    DayOfYearBounds(d);
    if d.year < y {
      DaysBeforeYearMonotone(d.year + 1, y);
    } else if d.year > y {
      DaysBeforeYearMonotone(y + 1, d.year);
    }
  }

  /** January 4 always lies in week 1. */
  lemma Jan4IsInWeekOne(y: int)
    ensures WeekNumber(Date(y, 1, 4)) == 1
  {
    var d := Date(y, 1, 4);
    var t := WeekThursday(d);
    ThursdayNumber(d);
    YearLengthStep(y);
    YearOfDayNumber(t, y);
    WeekNumberOfThursday(d);
  }

  /** The Thursday of the week holding `d`, as a day number. */
  lemma ThursdayNumber(d: Date)
    requires ValidDate(d)
    ensures DayNumber(WeekThursday(d)) == DayNumber(d) + 3 - DayNumber(d) % 7
  {
  }

  lemma SameWeekArithmetic(m: int, n: int)
    requires m % 7 == 0 && m <= n <= m + 6
    ensures n + 3 - n % 7 == m + 3
  {
  }

  /** The seven days from a Monday to the following Sunday share one week number. */
  lemma SameWeekSameNumber(monday: Date, d: Date)
    requires ValidDate(monday) && ValidDate(d)
    requires IsoWeekday(monday) == 1
    requires DayNumber(monday) <= DayNumber(d) <= DayNumber(monday) + 6
    ensures WeekNumber(d) == WeekNumber(monday)
  {
    ThursdayNumber(monday);
    ThursdayNumber(d);
    SameWeekArithmetic(DayNumber(monday), DayNumber(d));
    DayNumberInjective(WeekThursday(d), WeekThursday(monday));
  }

  /** The Monday of ISO week 1 of year `y`: the Monday of the week holding January 4. */
  function WeekOneMonday(y: int): int {
    var jan4 := Date(y, 1, 4);
    DayNumber(jan4) - (IsoWeekday(jan4) - 1)
  }

  /**
   * The ISO 8601 week date: with the week-numbering year taken as the year of the
   * Thursday, `d` is day IsoWeekday(d) of week WeekNumber(d) counted from the
   * Monday of the week that holds January 4.
   */
  lemma WeekNumberIsIsoWeek(d: Date)
    requires ValidDate(d)
    ensures var isoYear := WeekThursday(d).year;
      DayNumber(d) - WeekOneMonday(isoYear) == 7 * (WeekNumber(d) - 1) + (IsoWeekday(d) - 1)
  {
    var t := WeekThursday(d);
    var y := t.year;
    WeekNumberOfThursday(d);
    ThursdayNumber(d);
    var jan4 := Date(y, 1, 4);
    assert DayNumber(jan4) == DaysBeforeYear(y) + 3;
    IsoWeekArithmetic(DayNumber(d), DayNumber(t), DaysBeforeYear(y), IsoWeekday(d), IsoWeekday(jan4));
  }

  /**
   * The arithmetic of WeekNumberIsIsoWeek over plain integers: `n` the date, `t` its
   * Thursday, `y0` January 1 of the Thursday's year, `wd` and `wd4` the weekdays of
   * the date and of January 4.
   */
  lemma IsoWeekArithmetic(n: int, t: int, y0: int, wd: int, wd4: int)
    requires wd == n % 7 + 1 && t == n + 3 - n % 7
    requires wd4 == (y0 + 3) % 7 + 1
    requires y0 <= t
    ensures n - ((y0 + 3) - (wd4 - 1)) == 7 * ((t - y0) / 7) + (wd - 1)
  {
    var x := t - y0;
    assert t % 7 == 3;
    assert x % 7 == 7 - wd4;
  }

  /** The month before that of `today`, rolling January back to December. */
  function PreviousMonth(today: Date): (int, int) {
    if today.month == 1 then (today.year - 1, 12) else (today.year, today.month - 1)
  }

  /**
   * `setLastMonth` (statistiques.js:256-257): `new Date(y, getMonth() - 1, 1)` and
   * `new Date(y, getMonth(), 0)`, where getMonth() is `today.month - 1`.
   */
  function LastMonthDates(today: Date): (Date, Date) {
    (MakeDate(today.year, today.month - 2, 1), MakeDate(today.year, today.month - 1, 0))
  }

  /** The two `YYYY-MM-DD` strings of `setLastMonth` (statistiques.js:259-260). */
  function LastMonthRange(today: Date): (string, string) {
    var (start, end) := LastMonthDates(today);
    (FormatDate(start), FormatDate(end))
  }

  /** Day 1 of a month index is the first of the month it carries into. */
  lemma MakeDateFirst(year: int, monthIndex: int)
    ensures MakeDate(year, monthIndex, 1) == Date(year + monthIndex / 12, monthIndex % 12 + 1, 1)
  {
  }

  /** Day 0 of a month index is the eve of the first of the month it carries into. */
  lemma MakeDateDayZero(year: int, monthIndex: int)
    ensures ValidDate(Date(year + monthIndex / 12, monthIndex % 12 + 1, 1))
    ensures MakeDate(year, monthIndex, 0) == PrevDay(Date(year + monthIndex / 12, monthIndex % 12 + 1, 1))
  {
    var first := Date(year + monthIndex / 12, monthIndex % 12 + 1, 1);
    assert AddDays(first, -1) == AddDays(PrevDay(first), 0);
  }

  /**
   * The range is the whole preceding calendar month: it starts on day 1,
   * ends on the month's last day, and that day is the eve of the first of
   * today's month.
   */
  lemma LastMonthDatesArePreviousMonth(today: Date)
    requires ValidDate(today)
    ensures var (py, pm) := PreviousMonth(today);
      && 1 <= pm <= 12
      && LastMonthDates(today) == (Date(py, pm, 1), Date(py, pm, DaysInMonth(py, pm)))
      && DayNumber(LastMonthDates(today).1) + 1 == DayNumber(Date(today.year, today.month, 1))
  {
    LastMonthStart(today);
    LastMonthEnd(today);
    var first := Date(today.year, today.month, 1);
    var (py, pm) := PreviousMonth(today);
    if today.month == 1 {
      assert PrevDay(first) == Date(py, 12, 31);
      assert DaysInMonth(py, 12) == 31;
    } else {
      assert PrevDay(first) == Date(py, pm, DaysInMonth(py, pm));
    }
  }

  /** `new Date(y, getMonth() - 1, 1)` is the first of the previous month. */
  lemma LastMonthStart(today: Date)
    requires ValidDate(today)
    ensures LastMonthDates(today).0 == Date(PreviousMonth(today).0, PreviousMonth(today).1, 1)
  {
    MakeDateFirst(today.year, today.month - 2);
    if today.month == 1 {
      assert (today.month - 2) / 12 == -1 && (today.month - 2) % 12 == 11;
    } else {
      assert (today.month - 2) / 12 == 0 && (today.month - 2) % 12 == today.month - 2;
    }
  }

  /** `new Date(y, getMonth(), 0)` is the eve of the first of today's month. */
  lemma LastMonthEnd(today: Date)
    requires ValidDate(today)
    ensures LastMonthDates(today).1 == PrevDay(Date(today.year, today.month, 1))
  {
    var mi := today.month - 1;
    assert mi / 12 == 0 && mi % 12 == mi;
    MakeDateDayZero(today.year, mi);
    assert LastMonthDates(today).1 == MakeDate(today.year, mi, 0);
  }

  /** Both ends of the `setLastMonth` range are the zero-padded text of those two days. */
  lemma LastMonthRangeReadsBack(today: Date)
    requires ValidDate(today)
    ensures var (py, pm) := PreviousMonth(today);
      && 1 <= pm <= 12
      && ParseDate(LastMonthRange(today).0) == Some(Date(py, pm, 1))
      && ParseDate(LastMonthRange(today).1) == Some(Date(py, pm, DaysInMonth(py, pm)))
      && (1000 <= py <= 9999 ==> |LastMonthRange(today).0| == 10 && |LastMonthRange(today).1| == 10)
  {
    var (py, pm) := PreviousMonth(today);
    LastMonthDatesArePreviousMonth(today);
    ParseFormatDate(Date(py, pm, 1));
    ParseFormatDate(Date(py, pm, DaysInMonth(py, pm)));
  }

  /**
   * A date as zero-padded text: `${year}-${String(month).padStart(2, '0')}-${String(day).padStart(2, '0')}`
   * (statistiques.js:116, 259-260).
   */
  function FormatDate(d: Date): string
    requires ValidDate(d)
  {
    IntToString(d.year) + "-" + PadStart2(NatToString(d.month)) + "-" + PadStart2(NatToString(d.day))
  }

  /** Reads text in the shape FormatDate writes: a year, then two-digit month and day fields. */
  function ParseDate(s: string): Option<Date> {
    if |s| < 7 || s[|s| - 3] != '-' || s[|s| - 6] != '-' then None
    else
      var y, mm, dd := s[..|s| - 6], s[|s| - 5..|s| - 3], s[|s| - 2..];
      if !AllDigits(mm) || !AllDigits(dd) then None
      else match ParseInt(y)
        case None => None
        case Some(year) => Some(Date(year, ParseNat(mm), ParseNat(dd)))
  }

  /** Where the fields of `year-mm-dd` text sit, counted from its end. */
  lemma DateTextFields(y: string, mm: string, dd: string)
    requires |mm| == 2 && |dd| == 2
    ensures var s := y + "-" + mm + "-" + dd;
      && |s| == |y| + 6 && s[|s| - 3] == '-' && s[|s| - 6] == '-'
      && s[..|s| - 6] == y && s[|s| - 5..|s| - 3] == mm && s[|s| - 2..] == dd
  {
    var s := y + "-" + mm + "-" + dd;
    assert s == y + ("-" + mm + "-" + dd);
  }

  /** Formatting loses nothing: the text reads back as the date; years 1000..9999 give ten characters. */
  lemma ParseFormatDate(d: Date)
    requires ValidDate(d)
    ensures ParseDate(FormatDate(d)) == Some(d)
    ensures 1000 <= d.year <= 9999 ==> |FormatDate(d)| == 10
  {
    var mm := PadStart2(NatToString(d.month));
    var dd := PadStart2(NatToString(d.day));
    PadStart2RoundTrip(d.month);
    PadStart2RoundTrip(d.day);
    ParseIntToString(d.year);
    DateTextFields(IntToString(d.year), mm, dd);
  }

  lemma FormatDateInjective(a: Date, b: Date)
    requires ValidDate(a) && ValidDate(b)
    requires FormatDate(a) == FormatDate(b)
    ensures a == b
  {
    ParseFormatDate(a);
    ParseFormatDate(b);
  }
}
