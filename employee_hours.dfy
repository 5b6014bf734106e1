/**
 * The hours report of one employee for one month (statistiques.js:94-159):
 * hours per day, hours per ISO week and the month's total, over the rows
 * the store already returned for that employee and month.
 */
module EmployeeHours {

  import opened Wrappers
  import opened Text
  import opened Calendar
  import opened JsObject

  /**
   * A row as `fetchEmployeeStats` selects it: its `Date` column as the store
   * returns it (`YYYY-MM-DD` text) and its `nombre_heures`, which may be null.
   */
  datatype HourEvent = HourEvent(date: string, hours: Option<real>)

  /** `if (event.nombre_heures)`: null, undefined and 0 are skipped. */
  predicate HasHours(e: HourEvent) {
    e.hours.Some? && e.hours.value != 0.0
  }

  /** `event.nombre_heures || 0`. */
  function HoursOrZero(e: HourEvent): real {
    if HasHours(e) then e.hours.value else 0.0
  }

  /** `new Date(event.Date)` (statistiques.js:136): the calendar date the text names, if any. */
  function RowDate(e: HourEvent): Option<CalendarDate> {
    match ParseDate(e.date)
    case Some(d) => if ValidDate(d) then Some(d) else None
    case None => None
  }

  /** `calculateMonthlyTotal` (statistiques.js:155-159): the fold `total + (nombre_heures || 0)`. */
  function MonthlyTotal(data: seq<HourEvent>): real {
    if data == [] then 0.0 else MonthlyTotal(data[..|data| - 1]) + HoursOrZero(data[|data| - 1])
  }

  /** Reference: the hours of the events whose `Date` is `date`. */
  function HoursOn(data: seq<HourEvent>, date: string): real {
    if data == [] then 0.0
    else
      var e := data[|data| - 1];
      HoursOn(data[..|data| - 1], date) + (if e.date == date then HoursOrZero(e) else 0.0)
  }

  /** Whether row `e` names a date of ISO week `w`. */
  predicate InWeek(e: HourEvent, w: int) {
    RowDate(e).Some? && WeekNumber(RowDate(e).value) == w
  }

  /** Reference: the hours of the events whose ISO week number is `w`. */
  function WeekHours(data: seq<HourEvent>, w: int): real {
    if data == [] then 0.0
    else
      var e := data[|data| - 1];
      WeekHours(data[..|data| - 1], w) + (if InWeek(e, w) then HoursOrZero(e) else 0.0)
  }

  /** The keys seeded by statistiques.js:115-118, day 1 to the last day of the month, in order. */
  function MonthKeys(year: int, month: int): (ks: seq<string>)
    requires 1 <= month <= 12
    ensures |ks| == DaysInMonth(year, month)
  {
    seq(DaysInMonth(year, month), i requires 0 <= i < DaysInMonth(year, month) => FormatDate(Date(year, month, i + 1)))
  }

  /** `S${weekNumber}` (statistiques.js:137). */
  function WeekKey(w: int): string {
    "S" + IntToString(w)
  }

  /** The day key of a row, `event.Date` (statistiques.js:123). */
  function DayKey(e: HourEvent): string {
    e.date
  }

  /**
   * The week key of a row (statistiques.js:136-137). Text that names no date
   * gives an invalid `Date`, whose week number is NaN.
   */
  function WeekKeyOf(e: HourEvent): string {
    match RowDate(e)
    case Some(d) => WeekKey(WeekNumber(d))
    case None => "SNaN"
  }

  /** The pairs statistiques.js:121-125 adds to the day table, in row order. */
  function DayPairs(data: seq<HourEvent>): seq<(string, real)> {
    Contributions(data, DayKey, HoursOrZero, HasHours)
  }

  /** The pairs statistiques.js:134-140 adds to the week table, in row order. */
  function WeekPairs(data: seq<HourEvent>): seq<(string, real)> {
    Contributions(data, WeekKeyOf, HoursOrZero, HasHours)
  }

  lemma WeekKeyInjective(a: int, b: int)
    requires WeekKey(a) == WeekKey(b)
    ensures a == b
  {
    assert WeekKey(a)[1..] == IntToString(a);
    assert WeekKey(b)[1..] == IntToString(b);
    ParseIntToString(a);
    ParseIntToString(b);
  }

  /** An invalid date's key `SNaN` is no week's key: a number's text starts with `-` or a digit. */
  lemma NaNKeyIsNoWeek(w: int)
    ensures WeekKey(w) != "SNaN"
  {
    assert WeekKey(w)[1] == IntToString(w)[0];
    if w >= 0 {
      assert IsDigit(NatToString(w)[0]);
    }
  }

  /** The row's week key is `S<w>` exactly when its date lies in week `w`. */
  lemma WeekKeyOfIsWeek(e: HourEvent, w: int)
    ensures WeekKeyOf(e) == WeekKey(w) <==> InWeek(e, w)
  {
    match RowDate(e)
    case Some(d) =>
      if WeekKeyOf(e) == WeekKey(w) {
        WeekKeyInjective(WeekNumber(d), w);
      }
    case None =>
      NaNKeyIsNoWeek(w);
  }

  /** A row whose text is the key of a calendar date reads back as that date. */
  lemma RowDateOfKey(e: HourEvent, d: CalendarDate)
    requires e.date == FormatDate(d)
    ensures RowDate(e) == Some(d)
  {
    ParseFormatDate(d);
  }

  /** A date with no row that has hours keeps 0 hours. */
  lemma {:induction false} HoursOnWithoutEvents(data: seq<HourEvent>, date: string)
    requires forall e :: e in data && HasHours(e) ==> e.date != date
    ensures HoursOn(data, date) == 0.0
  {
    if data != [] {
      assert data[|data| - 1] in data;
      assert forall e :: e in data[..|data| - 1] ==> e in data;
      HoursOnWithoutEvents(data[..|data| - 1], date);
    }
  }

  /** All hours go somewhere: whatever the key, the pairs add up to the monthly total. */
  lemma {:induction false} PairsSumToMonthlyTotal(data: seq<HourEvent>, key: HourEvent -> string)
    ensures SumAll(Contributions(data, key, HoursOrZero, HasHours)) == MonthlyTotal(data)
  {
    if data != [] {
      var init := data[..|data| - 1];
      var e := data[|data| - 1];
      PairsSumToMonthlyTotal(init, key);
      ConcatSums(Contributions(init, key, HoursOrZero, HasHours), Contribution(e, key, HoursOrZero, HasHours), "");
      assert SumAll(Contribution(e, key, HoursOrZero, HasHours)) == HoursOrZero(e) by {
        if HasHours(e) {
          assert SumAll([(key(e), HoursOrZero(e))]) == SumAll([]) + HoursOrZero(e);
        }
      }
    }
  }

  /** The total of a date's key is the hours of the rows with that date. */
  lemma {:induction false} DayPairsFor(data: seq<HourEvent>, date: string)
    ensures SumFor(DayPairs(data), date) == HoursOn(data, date)
  {
    if data != [] {
      var init := data[..|data| - 1];
      var e := data[|data| - 1];
      var c := Contribution(e, DayKey, HoursOrZero, HasHours);
      DayPairsFor(init, date);
      ConcatSums(DayPairs(init), c, date);
      if HasHours(e) {
        assert SumFor(c, date) == SumFor([], date) + (if e.date == date then e.hours.value else 0.0);
      }
    }
  }

  /** The total of a week's key is the week's hours: week keys of different numbers differ. */
  lemma {:induction false} WeekPairsFor(data: seq<HourEvent>, w: int)
    ensures SumFor(WeekPairs(data), WeekKey(w)) == WeekHours(data, w)
  {
    if data != [] {
      var init := data[..|data| - 1];
      var e := data[|data| - 1];
      var c := Contribution(e, WeekKeyOf, HoursOrZero, HasHours);
      WeekPairsFor(init, w);
      ConcatSums(WeekPairs(init), c, WeekKey(w));
      WeekKeyOfIsWeek(e, w);
      if HasHours(e) {
        assert SumFor(c, WeekKey(w)) == SumFor([], WeekKey(w)) + (if WeekKeyOf(e) == WeekKey(w) then e.hours.value else 0.0);
      }
    }
  }

  /** Every row of the employee carries the key of a day of the requested month. */
  ghost predicate InMonth(data: seq<HourEvent>, year: int, month: int)
    requires 1 <= month <= 12
  {
    forall e :: e in data ==> e.date in MonthKeys(year, month)
  }

  /** An object holding 0 under each of `keys`, in that order. */
  function ZeroDays(keys: seq<string>): Dict<real> {
    Dict(keys, map k | k in keys :: 0.0)
  }

  /** Seeding one more, new, key appends it at 0. */
  lemma ZeroDaysSnoc(keys: seq<string>, k: string)
    requires k !in keys
    ensures ZeroDays(keys).Set(k, 0.0) == ZeroDays(keys + [k])
  {
    var m := map x | x in keys :: 0.0;
    assert m[k := 0.0] == map x | x in keys + [k] :: 0.0;
  }

  /** Seeding the next of `keys`, when new, extends the seeded prefix by one. */
  lemma ZeroDaysStep(keys: seq<string>, n: int, t: Dict<real>, t': Dict<real>)
    requires 0 <= n < |keys| && keys[n] !in keys[..n]
    requires t == ZeroDays(keys[..n]) && t' == t.Set(keys[n], 0.0)
    ensures t' == ZeroDays(keys[..n + 1])
  {
    ZeroDaysSnoc(keys[..n], keys[n]);
    assert keys[..n + 1] == keys[..n] + [keys[n]];
  }

  /** The object statistiques.js:112-118 holds after seeding `n` days: days 1..n at 0, in day order. */
  function SeedDays(year: int, month: int, n: nat): Dict<real>
    requires 1 <= month <= 12 && n <= DaysInMonth(year, month)
  {
    ZeroDays(MonthKeys(year, month)[..n])
  }

  /** The seeded object of the whole month. */
  function ZeroMonth(year: int, month: int): Dict<real>
    requires 1 <= month <= 12
  {
    ZeroDays(MonthKeys(year, month))
  }

  /** The key of day `n` differs from the keys of the days before it. */
  lemma MonthKeyFresh(year: int, month: int, n: int)
    requires 1 <= month <= 12 && 1 <= n <= DaysInMonth(year, month)
    ensures MonthKeys(year, month)[n - 1] == FormatDate(Date(year, month, n))
    ensures MonthKeys(year, month)[n - 1] !in MonthKeys(year, month)[..n - 1]
  {
    var keys := MonthKeys(year, month);
    forall i | 0 <= i < n - 1 ensures keys[i] != keys[n - 1] {
      if keys[i] == keys[n - 1] {
        FormatDateInjective(Date(year, month, i + 1), Date(year, month, n));
      }
    }
  }

  /** The keys of different days of the month differ. */
  lemma MonthKeysNoDup(year: int, month: int)
    requires 1 <= month <= 12
    ensures NoDup(MonthKeys(year, month))
  {
    var keys := MonthKeys(year, month);
    forall i, j | 0 <= i < j < |keys| ensures keys[i] != keys[j] {
      var a, b := Date(year, month, i + 1), Date(year, month, j + 1);
      assert ValidDate(a) && ValidDate(b) && a != b;
      assert keys[i] == FormatDate(a) && keys[j] == FormatDate(b);
      if FormatDate(a) == FormatDate(b) {
        FormatDateInjective(a, b);
      }
    }
  }

  /** The seeded month: its keys are the month's day keys in order, every value 0. */
  lemma ZeroMonthSpec(year: int, month: int)
    requires 1 <= month <= 12
    ensures ZeroMonth(year, month).Valid()
    ensures ZeroMonth(year, month).keys == MonthKeys(year, month)
    ensures forall k :: k in ZeroMonth(year, month).vals ==> ZeroMonth(year, month).vals[k] == 0.0
  {
    MonthKeysNoDup(year, month);
  }

  /** The object `calculateHoursByDay` returns: the seeded month plus every row's hours under its date. */
  function DayTable(data: seq<HourEvent>, year: int, month: int): Dict<real>
    requires 1 <= month <= 12
  {
    Tally(ZeroMonth(year, month), DayPairs(data))
  }

  /** The object `calculateHoursByWeek` returns: every row's hours under its week key. */
  function WeekTable(data: seq<HourEvent>): Dict<real> {
    Tally(Empty(), WeekPairs(data))
  }

  /** The dates of the rows that have hours. */
  function HourDates(data: seq<HourEvent>): set<string> {
    set e | e in data && HasHours(e) :: e.date
  }

  /**
   * Dense coverage (statistiques.js:111-118): the day table starts with one key
   * per day of the month, in day order, and besides those holds exactly the
   * dates of the rows with hours; when every row lies in the month, the month's
   * days are its only keys.
   */
  lemma DayTableKeys(data: seq<HourEvent>, year: int, month: int)
    requires 1 <= month <= 12
    ensures var t := DayTable(data, year, month);
      && t.Valid()
      && |t.keys| >= DaysInMonth(year, month)
      && t.keys[..DaysInMonth(year, month)] == MonthKeys(year, month)
      && t.vals.Keys == (set k | k in MonthKeys(year, month)) + HourDates(data)
      && (InMonth(data, year, month) ==> t.keys == MonthKeys(year, month))
  {
    var seed := ZeroMonth(year, month);
    var pairs := DayPairs(data);
    ZeroMonthSpec(year, month);
    TallyKeys(seed, pairs);
    TallyOrder(seed, pairs);
    ContributionsKeys(data, DayKey, HoursOrZero, HasHours);
    if InMonth(data, year, month) {
      TallyNoNewKeys(seed, pairs);
    }
  }

  /**
   * Per-day values (statistiques.js:121-125): each day of the month carries the
   * hours of its rows, 0 when it has none.
   */
  lemma DayTableValues(data: seq<HourEvent>, year: int, month: int)
    requires 1 <= month <= 12
    ensures forall k :: k in MonthKeys(year, month) ==>
      k in DayTable(data, year, month).vals && DayTable(data, year, month).vals[k] == HoursOn(data, k)
  {
    var seed := ZeroMonth(year, month);
    var pairs := DayPairs(data);
    ZeroMonthSpec(year, month);
    TallyKeys(seed, pairs);
    forall k | k in MonthKeys(year, month)
      ensures k in Tally(seed, pairs).vals && Tally(seed, pairs).vals[k] == HoursOn(data, k)
    {
      TallyValue(seed, pairs, k);
      DayPairsFor(data, k);
    }
  }

  /** Every row's date key carries the hours of that date, also for a row outside the month. */
  lemma DayTableRowValues(data: seq<HourEvent>, year: int, month: int)
    requires 1 <= month <= 12
    ensures forall e :: e in data ==> DayTable(data, year, month).GetOr(e.date, 0.0) == HoursOn(data, e.date)
  {
    var seed := ZeroMonth(year, month);
    var pairs := DayPairs(data);
    ZeroMonthSpec(year, month);
    forall e | e in data
      ensures Tally(seed, pairs).GetOr(e.date, 0.0) == HoursOn(data, e.date)
    {
      TallyValue(seed, pairs, e.date);
      DayPairsFor(data, e.date);
    }
  }

  /** Sum conservation: the values of the day table add up to the monthly total. */
  lemma DayTableSum(data: seq<HourEvent>, year: int, month: int)
    requires 1 <= month <= 12
    ensures DayTable(data, year, month).Valid()
    ensures SumValues(DayTable(data, year, month)) == MonthlyTotal(data)
  {
    var seed := ZeroMonth(year, month);
    ZeroMonthSpec(year, month);
    TallySum(seed, DayPairs(data));
    PairsSumToMonthlyTotal(data, DayKey);
    SumOverZero(seed.keys, seed.vals);
  }

  /**
   * Sparse week keys (statistiques.js:134-139): `S<n>` is a key exactly when some
   * row with hours lies in week n; the only other key is `SNaN`, present exactly
   * when some row with hours has a date text that names no date.
   */
  lemma WeekTableKeys(data: seq<HourEvent>)
    ensures WeekTable(data).Valid()
    ensures forall w :: WeekKey(w) in WeekTable(data).vals <==> exists e :: e in data && HasHours(e) && InWeek(e, w)
    ensures "SNaN" in WeekTable(data).vals <==> exists e :: e in data && HasHours(e) && RowDate(e).None?
    ensures forall k :: k in WeekTable(data).vals ==> k == "SNaN" || exists w :: 1 <= w <= 53 && k == WeekKey(w)
  {
    TallyKeys(Empty(), WeekPairs(data));
    ContributionsKeys(data, WeekKeyOf, HoursOrZero, HasHours);
    var t := WeekTable(data);
    assert t.vals.Keys == set e | e in data && HasHours(e) :: WeekKeyOf(e);
    forall w ensures WeekKey(w) in t.vals <==> exists e :: e in data && HasHours(e) && InWeek(e, w) {
      if WeekKey(w) in t.vals {
        var e :| e in data && HasHours(e) && WeekKeyOf(e) == WeekKey(w);
        WeekKeyOfIsWeek(e, w);
      }
      if e :| e in data && HasHours(e) && InWeek(e, w) {
        WeekKeyOfIsWeek(e, w);
      }
    }
    if "SNaN" in t.vals {
      var e :| e in data && HasHours(e) && WeekKeyOf(e) == "SNaN";
      if RowDate(e).Some? {
        NaNKeyIsNoWeek(WeekNumber(RowDate(e).value));
      }
    }
    forall k | k in t.vals ensures k == "SNaN" || exists w :: 1 <= w <= 53 && k == WeekKey(w) {
      var e :| e in data && HasHours(e) && WeekKeyOf(e) == k;
      if RowDate(e).Some? {
        assert 1 <= WeekNumber(RowDate(e).value) <= 53;
      }
    }
  }

  /** Week values: each week number maps to the hours of its rows; the values add up to the monthly total. */
  lemma WeekTableValues(data: seq<HourEvent>)
    ensures WeekTable(data).Valid()
    ensures forall w :: WeekTable(data).GetOr(WeekKey(w), 0.0) == WeekHours(data, w)
    ensures SumValues(WeekTable(data)) == MonthlyTotal(data)
  {
    var none: Dict<real> := Empty();
    var pairs := WeekPairs(data);
    TallySum(none, pairs);
    PairsSumToMonthlyTotal(data, WeekKeyOf);
    assert SumValues(none) == 0.0;
    forall w ensures Tally(none, pairs).GetOr(WeekKey(w), 0.0) == WeekHours(data, w) {
      TallyValue(none, pairs, WeekKey(w));
      WeekPairsFor(data, w);
    }
  }

  /** One seeding step of statistiques.js:115-118: day `day` enters at 0. */
  lemma SeedStep(year: int, month: int, day: int, t: Dict<real>, t': Dict<real>)
    requires 1 <= month <= 12 && 1 <= day <= DaysInMonth(year, month)
    requires t == SeedDays(year, month, day - 1)
    requires t' == t.Set(FormatDate(Date(year, month, day)), 0.0)
    ensures t' == SeedDays(year, month, day)
  {
    MonthKeyFresh(year, month, day);
    ZeroDaysStep(MonthKeys(year, month), day - 1, t, t');
  }

  /**
   * The seeding half of `calculateHoursByDay` (statistiques.js:111-118): the
   * month's length from `new Date(year, month, 0)`, then one zero entry per day,
   * in day order.
   */
  method SeedMonth(year: int, month: int) returns (hoursByDay: Dict<real>)
    requires 1 <= month <= 12
    ensures hoursByDay == ZeroMonth(year, month)
  {
    var daysInMonth := DaysInMonthViaDate(year, month);
    DateDayZeroIsMonthEnd(year, month);
    hoursByDay := Empty();
    var day := 1;
    while day <= daysInMonth
      invariant 1 <= day <= daysInMonth + 1
      invariant hoursByDay == SeedDays(year, month, day - 1)
    {
      ghost var prev := hoursByDay;
      var dateStr := FormatDate(Date(year, month, day));
      hoursByDay := hoursByDay.Set(dateStr, 0.0);
      SeedStep(year, month, day, prev, hoursByDay);
      day := day + 1;
    }
    assert MonthKeys(year, month)[..daysInMonth] == MonthKeys(year, month);
  }

  /**
   * `calculateHoursByDay` (statistiques.js:110-128): the seeded month, then each
   * row with hours adds them under its date key.
   */
  method HoursByDay(data: seq<HourEvent>, year: int, month: int) returns (hoursByDay: Dict<real>)
    requires 1 <= month <= 12
    ensures hoursByDay == DayTable(data, year, month)
  {
    hoursByDay := SeedMonth(year, month);
    hoursByDay := Accumulate(hoursByDay, data, DayKey, HoursOrZero, HasHours);
  }

  /**
   * `calculateHoursByWeek` (statistiques.js:131-143): each row with hours adds
   * them under the key `S<week number>`; weeks without hours get no key.
   */
  method HoursByWeek(data: seq<HourEvent>) returns (weeks: Dict<real>)
    ensures weeks == WeekTable(data)
  {
    weeks := Accumulate(Empty(), data, WeekKeyOf, HoursOrZero, HasHours);
  }
}
