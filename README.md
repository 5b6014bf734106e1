# Employee statistics and access codes, modelled in Dafny

This project models the logic of two pages of a small company web site.

* **The statistics page (`statistiques.js`).**
  * For one employee and month it builds hours per day, hours per ISO week and the month's total.
  * For a date range it builds the total amount, the number of events per employee, the spend per client and the ten best clients.
  * The "last month" shortcut computes the range's two dates and writes them as `YYYY-MM-DD` text.
* **The access-code page (`config.js`).**
  * It shows the stored `pageCodes` object as one editable (name, code) row per entry, followed by one empty row.
  * Saving turns the rows back into an object.
  * Deleting removes a row unless it is the `"Chef"` row.

Modules, one per concern:

| module | file | what it holds |
|---|---|---|
| `Wrappers` | wrappers.dfy | `Option` |
| `Text` | text.dfy | `String(n)`, `padStart(2, '0')` and reading digits back |
| `Calendar` | calendar.dfy | proleptic Gregorian dates as `(year, month, day)` with a day count; the `Date` constructor's month/day carry; `getWeekNumber`; `setLastMonth`; `YYYY-MM-DD` text |
| `JsObject` | js_object.dfy | a JavaScript object as its key insertion order (`keys`) plus a `map`; `obj[k] = v`; `Object.entries`; the `acc[k] = (acc[k] \|\| 0) + v` pass over a row list (`Accumulate`) and its specification `Tally` |
| `EmployeeHours` | employee_hours.dfy | `calculateHoursByDay`, `calculateHoursByWeek` and `calculateMonthlyTotal` |
| `ClientStats` | client_stats.dfy | the reductions inside `fetchStats` |
| `Ranking` | ranking.dfy | `Object.entries(...).sort((a, b) => b[1] - a[1]).slice(0, 10)` |
| `AccessCodes` | access_codes.dfy | `trim`, the default codes, and the page as a class `ConfigPage` with its rows and the stored object |

**How the code is shaped in the model.**
* Loops that fill an object in place are methods with loop invariants. Each is proved equal to a function of its inputs, and the properties are lemmas about that function. These loops are:
  * the day seeding of `calculateHoursByDay`;
  * the four `forEach`/`reduce` passes that bump `acc[k]`, which share one generic method, `JsObject.Accumulate`;
  * the row loops of `saveConfigurations` and `loadPageCodes`.
* The access-code page is a class whose methods change its `rows` and `stored` fields.
* Pure folds and expressions are functions: `calculateMonthlyTotal`, `totalAmount`, `getWeekNumber`, the ranking and the date text.

**What the code does and does not do.**
* Week keys are sparse. A key is `"S"` followed by the ISO week number, and it exists only for weeks that received hours. There are no Monday-anchored week buckets.
* An event whose `Date` text names no calendar date falls under the key `"SNaN"`.
* The day table's keys are the seeded `YYYY-MM-DD` keys, followed by any other raw `Date` text of an event with hours.
* `statistiques.js` has no previous-period comparison, percentage change or weekday histogram, so the model has none either.

Numbers (`nombre_heures`, `Prix`, counts) are JavaScript numbers. The model treats them as exact `real`s.

## Model

| member | source | states |
|---|---|---|
| Calendar.DaysInMonth | statistiques.js:111 | a month has 28 to 31 days |
| Calendar.DateDayZeroIsMonthEnd | statistiques.js:111 | `new Date(year, month, 0)` is the last day of month `month`, so the day count read from it is the Gregorian month length |
| Calendar.NextDay | statistiques.js:149 | the following day is a valid date one day count later (month and year carry) |
| Calendar.PrevDay | statistiques.js:257 | the preceding day is a valid date one day count earlier (month and year borrow) |
| Calendar.AddDays | statistiques.js:149 | moving by `k` days, as `setUTCDate` normalises, gives a valid date exactly `k` days away |
| Calendar.MakeDateFirst | statistiques.js:256 | `new Date(y, mi, 1)` is day 1 of the month index `mi` carried into the year |
| Calendar.MakeDateDayZero | statistiques.js:257 | `new Date(y, mi, 0)` is the eve of the first of month index `mi` |
| Calendar.IsoWeekday | statistiques.js:148 | `getUTCDay() \|\| 7` is 1 (Monday) to 7 (Sunday), one step per day |
| Calendar.WeekNumber | statistiques.js:146-152 | the week number is between 1 and 53 |
| Calendar.WeekNumberOfThursday | statistiques.js:149-151 | the moved day lies in its own year, and the result counts whole weeks from January 1 of that year |
| Calendar.Jan4IsInWeekOne | statistiques.js:146-152 | January 4 of every year is in week 1 |
| Calendar.SameWeekSameNumber | statistiques.js:146-152 | every day from a Monday to the following Sunday has the Monday's week number |
| Calendar.WeekNumberIsIsoWeek | statistiques.js:146-152 | a date is `7 * (week - 1) + (weekday - 1)` days after the Monday of week 1 of its ISO year, which is the week-calendar definition of ISO 8601 |
| Calendar.DayNumberInjective | statistiques.js:151 | different valid dates have different day counts, so day differences are exact |
| Calendar.LastMonthDatesArePreviousMonth | statistiques.js:256-257 | the range runs from day 1 to the last day of the preceding month (January goes back to December of the previous year), and its last day is the eve of the first of the current month |
| Calendar.LastMonthStart | statistiques.js:256 | the start is day 1 of the preceding month |
| Calendar.LastMonthEnd | statistiques.js:257 | the end is the eve of the first of the current month |
| Calendar.LastMonthRangeReadsBack | statistiques.js:259-260 | both strings read back as those two dates, and for four-digit years both are ten characters long |
| Calendar.ParseFormatDate | statistiques.js:116 | a day key reads back as its date, and is ten characters long for four-digit years |
| Calendar.FormatDateInjective | statistiques.js:116 | different dates get different day keys |
| Text.NatToString | statistiques.js:116 | `String(n)` is a non-empty run of digits whose length matches the number's magnitude |
| Text.NatToStringNoLeadingZero | statistiques.js:116 | `String(n)` of a positive number has no leading zero, for every `n` |
| Text.ParseNatToString | statistiques.js:116 | the digits of `String(n)` read back as `n` |
| Text.ParseIntToString | statistiques.js:259 | `String(n)` of any integer, minus sign included, reads back as `n` |
| Text.PadStart2RoundTrip | statistiques.js:116 | `padStart(2, '0')` of 1..99 is two digits that read back as the number |
| Text.NatToStringInjective | statistiques.js:116 | different numbers have different decimal text |
| JsObject.Dict.SetSpec | statistiques.js:123 | `obj[k] = v` keeps the keys distinct, sets `k` to `v`, keeps a present key's place and puts a new key last |
| JsObject.Dict.Entries | statistiques.js:238 | `Object.entries` lists every key in insertion order with its value |
| JsObject.LiteralValid | config.js:2-14 | an object literal has distinct keys, exactly the property names it lists |
| JsObject.Accumulate | statistiques.js:121-125 | the pass `acc[key(r)] = (acc[key(r)] \|\| 0) + amount(r)` over the rows that count ends equal to `Tally` of the rows' contributions |
| JsObject.TallyKeys | statistiques.js:228-231 | the pass keeps the object well formed, and its keys are the start keys plus those of the contributions |
| JsObject.TallyValue | statistiques.js:233-236 | each key's value is its start value plus the sum of the amounts for it |
| JsObject.TallySum | statistiques.js:233-236 | the values' sum grows by exactly the sum of all amounts |
| JsObject.TallyFirstSeen | statistiques.js:233-236 | from `{}`, the keys appear in the order they are first met |
| JsObject.FirstSeenOrder | statistiques.js:233-236 | of two first-seen keys, the earlier one occurs in the rows before the later one does |
| JsObject.ContributionsKeys | statistiques.js:121-125 | the keys the pass touches are exactly the keys of the rows that count |
| EmployeeHours.MonthKeys | statistiques.js:115-118 | one seeded key per day of the month |
| EmployeeHours.MonthKeysNoDup | statistiques.js:115-118 | the seeded keys are distinct |
| EmployeeHours.MonthKeyFresh | statistiques.js:116 | the key of day `n` is its `YYYY-MM-DD` text, and it differs from the keys of earlier days |
| EmployeeHours.ZeroMonthSpec | statistiques.js:111-118 | the seeded object has the month's day keys in ascending day order, each 0 |
| EmployeeHours.SeedMonth | statistiques.js:111-118 | the seeding loop builds exactly that object |
| EmployeeHours.HoursByDay | statistiques.js:110-128 | `calculateHoursByDay` returns the seeded month with every row's hours added under its `Date` |
| EmployeeHours.DayTableKeys | statistiques.js:110-128 | the day table starts with every day of the month in order, and its keys are those days plus the dates of events with hours; with every event inside the month it has exactly the month's days |
| EmployeeHours.DayTableValues | statistiques.js:121-125 | each day of the month holds the sum of the truthy hours of the events on that day |
| EmployeeHours.DayTableRowValues | statistiques.js:121-125 | the entry for any event's `Date` holds the hours of the events with that `Date` |
| EmployeeHours.HoursOnWithoutEvents | statistiques.js:121-125 | a day with no event with hours sums to 0, so it keeps its seeded 0 |
| EmployeeHours.DayTableSum | statistiques.js:110-128 | the day values add up to the monthly total |
| EmployeeHours.PairsSumToMonthlyTotal | statistiques.js:155-159 | the amounts a pass adds (falsy hours skipped) add up to `calculateMonthlyTotal` |
| EmployeeHours.DayPairsFor | statistiques.js:121-125 | the amounts added under a date add up to that date's hours |
| EmployeeHours.WeekPairsFor | statistiques.js:134-140 | the amounts added under `S<w>` add up to the hours of week `w` |
| EmployeeHours.HoursByWeek | statistiques.js:131-143 | `calculateHoursByWeek` returns every row's hours added under its week key |
| EmployeeHours.WeekTableKeys | statistiques.js:131-143 | key `S<w>` exists if and only if some event with hours lies in ISO week `w`; `SNaN` exists if and only if some event with hours names no date; no other key exists, and every `w` is 1..53 |
| EmployeeHours.WeekTableValues | statistiques.js:131-143 | each week's value is the sum of that week's hours, and the values add up to the monthly total |
| EmployeeHours.WeekKeyOfIsWeek | statistiques.js:136-137 | an event's week key is `S<w>` if and only if its date lies in week `w` |
| EmployeeHours.WeekKeyInjective | statistiques.js:137 | different week numbers give different keys |
| EmployeeHours.NaNKeyIsNoWeek | statistiques.js:137 | `SNaN` is the key of no week number |
| EmployeeHours.RowDateOfKey | statistiques.js:136 | the text of a day key reads as that date |
| ClientStats.PersonPairsSum | statistiques.js:228-231 | the counts added by `eventsByPerson` add up to the number of rows |
| ClientStats.ClientPairsSum | statistiques.js:233-236 | the amounts added by `spendingByClient` add up to `totalAmount` |
| ClientStats.PersonPairsFor | statistiques.js:228-231 | the counts added for a person add up to that person's number of rows |
| ClientStats.ClientPairsFor | statistiques.js:233-236 | the amounts added for a client add up to that client's `Prix` total |
| ClientStats.EventsByPerson | statistiques.js:228-231 | the reduction builds the `eventsByPerson` object |
| ClientStats.EventsByPersonSpec | statistiques.js:228-231 | one key per employee named in the rows, in first-seen order, each holding that employee's row count |
| ClientStats.EventCountsSumToRows | statistiques.js:228-231 | the counts add up to the number of rows |
| ClientStats.SpendingByClient | statistiques.js:233-236 | the reduction builds the `spendingByClient` object |
| ClientStats.SpendingByClientSpec | statistiques.js:233-236 | one key per client named in the rows, in first-seen order, each holding that client's `Prix` total |
| ClientStats.TotalIsSpendingSum | statistiques.js:227-236 | `totalAmount` is the sum of the `spendingByClient` values |
| ClientStats.TopClientsFromRows | statistiques.js:238-240 | each top entry is a client named in the rows, paired with that client's `Prix` total |
| ClientStats.TopClientsTiesFirstSeen | statistiques.js:238-240 | of two top clients with equal spend, the one listed first appears in the rows before the other |
| Ranking.Insert | statistiques.js:239 | inserting a position adds exactly one in-range position |
| Ranking.SortPositions | statistiques.js:239 | the sort yields one in-range position per entry |
| Ranking.InsertSpec | statistiques.js:239 | insertion into an ordered list keeps it ordered and adds exactly the new position |
| Ranking.SortPositionsSpec | statistiques.js:239 | the stable descending sort is a permutation of the positions, ordered by spend and then by original position |
| Ranking.TopClientsAt | statistiques.js:238-240 | entry `i` of `topClients` is the entry at sorted position `i` |
| Ranking.TopClientsLength | statistiques.js:240 | `topClients` has `min(10, number of clients)` entries |
| Ranking.TopClientsGenuine | statistiques.js:238-240 | every entry is a client of the object with its own spend, and no client appears twice |
| Ranking.TopClientsDescending | statistiques.js:239 | spends never increase along `topClients` |
| Ranking.TopClientsComplete | statistiques.js:238-240 | no client left out spends more than any client kept |
| Ranking.TopClientsTies | statistiques.js:239 | clients with equal spend keep the order of the object's keys (the sort is stable) |
| EmployeeHours.HasHours | statistiques.js:122 | the truthiness test `if (event.nombre_heures)`: null and 0 are skipped; `DayTableValues` and `WeekTableKeys` state what it lets through |
| EmployeeHours.HoursOrZero | statistiques.js:157 | `event.nombre_heures \|\| 0`; `PairsSumToMonthlyTotal` states that the passes add exactly these amounts |
| EmployeeHours.MonthlyTotal | statistiques.js:155-159 | `calculateMonthlyTotal`, the fold `total + (nombre_heures \|\| 0)`; `PairsSumToMonthlyTotal`, `DayTableSum` and `WeekTableValues` state that the day and week tables add up to it |
| EmployeeHours.RowDate | statistiques.js:136 | `new Date(event.Date)` as a calendar date or none; `RowDateOfKey` states that a day key reads as its date |
| EmployeeHours.WeekKeyOf | statistiques.js:136-137 | the key `S${weekNumber}` of a row, `SNaN` for text that names no date; `WeekKeyOfIsWeek` and `NaNKeyIsNoWeek` state which rows share a key |
| EmployeeHours.DayTable | statistiques.js:110-128 | the object `calculateHoursByDay` returns; `DayTableKeys`, `DayTableValues` and `DayTableSum` state its keys, values and total |
| EmployeeHours.WeekTable | statistiques.js:131-143 | the object `calculateHoursByWeek` returns; `WeekTableKeys` and `WeekTableValues` state its keys, values and total |
| ClientStats.TotalAmount | statistiques.js:227 | `totalAmount`, the fold `sum + row.Prix`; `TotalIsSpendingSum` states that it equals the sum of the spend per client |
| ClientStats.PersonTable | statistiques.js:228-231 | `eventsByPerson` is a well-formed object; `EventsByPersonSpec` states its keys, order and counts |
| ClientStats.SpendTable | statistiques.js:233-236 | `spendingByClient` is a well-formed object; `SpendingByClientSpec` states its keys, order and totals |
| Ranking.SortedEntries | statistiques.js:239 | the entries in the order of the stable descending sort; `SortPositionsSpec` states that the order is a permutation by spend and then by position |
| Ranking.Slice | statistiques.js:240 | `.slice(0, n)`; `TopClientsLength` states the resulting length |
| Ranking.TopClients | statistiques.js:238-240 | `topClients`; `TopClientsLength`, `TopClientsGenuine`, `TopClientsDescending`, `TopClientsComplete` and `TopClientsTies` state its properties |
| Calendar.MakeDate | statistiques.js:256-257 | `new Date(y, mi, d)` with month and day carry; `MakeDateFirst`, `MakeDateDayZero` and `DateDayZeroIsMonthEnd` state the two uses the code makes of it |
| Calendar.DaysInMonthViaDate | statistiques.js:111 | `new Date(year, month, 0).getDate()`; `DateDayZeroIsMonthEnd` states that it is the Gregorian month length |
| Calendar.UtcDay | statistiques.js:148 | `getUTCDay()`, 0 for Sunday; `EpochWeekday` pins it to ECMAScript's weekday of 1970-01-01 |
| Calendar.EpochWeekday | statistiques.js:148 | 1970-01-01 is a Thursday (`getUTCDay()` 4, ISO weekday 4), as `WeekDay(t) = (Day(t) + 4) mod 7` gives |
| Calendar.WeekThursday | statistiques.js:149 | `d.setUTCDate(d.getUTCDate() + 4 - dayNum)`, a valid date; `ThursdayNumber` states that it is the Thursday of the date's Monday-to-Sunday week |
| Calendar.CeilDiv | statistiques.js:151 | `Math.ceil(a / b)`; `WeekNumberOfThursday` states what it yields for the week count |
| Calendar.LastMonthDates | statistiques.js:256-257 | the two `Date`s of `setLastMonth`; `LastMonthDatesArePreviousMonth` states that they are the first and last day of the preceding month |
| Calendar.LastMonthRange | statistiques.js:259-260 | the two formatted strings; `LastMonthRangeReadsBack` states that they read back as those dates |
| Calendar.FormatDate | statistiques.js:116 | the zero-padded `YYYY-MM-DD` text; `ParseFormatDate` and `FormatDateInjective` state that it reads back and is injective |
| Text.IntToString | statistiques.js:259 | `String(n)` with a minus sign for negatives; `ParseIntToString` states that it reads back |
| Text.PadStart2 | statistiques.js:116 | `padStart(2, '0')`; `PadStart2RoundTrip` states its length and value for 1..99 |
| JsObject.Dict.GetOr | statistiques.js:123 | `acc[k] \|\| 0` for a value that is absent or a number; `TallyValue` states the values it reads |
| JsObject.Dict.Set | statistiques.js:123 | `obj[k] = v`; `SetSpec` states its keys, order and values |
| JsObject.Tally | statistiques.js:121-125 | the object after the pass, as a function of the pairs it adds; `TallyKeys`, `TallyValue`, `TallySum` and `TallyFirstSeen` state its keys, values, total and key order |
| AccessCodes.Trim | config.js:65-66 | `value.trim()`; `TrimSpec`, `TrimTrimmed`, `TrimIdempotent` and `TrimEmpty` state what it removes |
| AccessCodes.Record | config.js:68-70 | one pass of the `forEach`: a complete row sets its trimmed name to its trimmed code; `PageCodesSnoc` and `LastRowWins` use it |
| AccessCodes.PageCodes | config.js:64-71 | `newPageCodes` after the loop; `SavedKeys`, `PageCodesKeys`, `LastRowWins` and `SavedCodesTrimmed` state its keys, order and values |
| AccessCodes.StoredCodes | config.js:18 | `JSON.parse(localStorage.getItem('pageCodes')) \|\| defaultPageCodes`; `DefaultCodes` states the fallback |
| AccessCodes.TrimStartSpec | config.js:65 | trimming the start removes exactly the leading white space |
| AccessCodes.TrimEndSpec | config.js:65 | trimming the end removes exactly the trailing white space |
| AccessCodes.TrimSpec | config.js:65-66 | `trim()` is the middle part of the text between its leading and trailing white space, and has no white space at either end |
| AccessCodes.TrimTrimmed | config.js:65-66 | text with no white space at either end is left unchanged |
| AccessCodes.TrimIdempotent | config.js:65-66 | trimming twice is trimming once |
| AccessCodes.TrimEmpty | config.js:68 | a trimmed input is empty if and only if it is all white space |
| AccessCodes.PageCodesSnoc | config.js:64-71 | saving one more row is one more pass of the loop |
| AccessCodes.SavedNamesSpec | config.js:64-71 | a name is saved if and only if some row has that trimmed name and both trimmed inputs are non-empty |
| AccessCodes.PageCodesKeys | config.js:64-71 | the saved object is well formed, its keys are exactly the saved names, and they come in first-seen order |
| AccessCodes.SavedKeys | config.js:64-71 | the saved keys are exactly the trimmed names of the rows whose trimmed name and code are both non-empty |
| AccessCodes.LastRowWins | config.js:64-70 | a complete row that no later row saves under the same name has its trimmed code stored under its name |
| AccessCodes.LastSavedAt | config.js:64-70 | every saved name has a last row that saves it |
| AccessCodes.SavedCodesTrimmed | config.js:65-69 | the stored names and codes are non-empty and trimmed |
| AccessCodes.EntriesSaveSame | config.js:64-71 | saving the entries of a trimmed object gives back that object |
| AccessCodes.ReloadSavesSame | config.js:22-39 | saving the rows shown for a trimmed object, empty row included, stores that same object |
| AccessCodes.SaveIsIdempotent | config.js:60-77 | saving, reloading and saving again stores the same object |
| AccessCodes.Delete | config.js:80-91 | the `"Chef"` row stays; any other row is removed and the rest keep their order |
| AccessCodes.ChefRowsSurvive | config.js:84-88 | every row named `"Chef"` survives a deletion |
| AccessCodes.ChefSavedAfterDelete | config.js:80-91 | if the rows save a `"Chef"` code, they still do after a deletion |
| AccessCodes.DefaultCodes | config.js:2-14 | the defaults are a well-formed object whose `"Chef"` code is `"2024"` |
| AccessCodes.CollectCodes | config.js:61-71 | the loop builds exactly the object the rows save |
| AccessCodes.ConfigPage.constructor | config.js:96-97 | the page starts with one row per stored entry (the defaults when nothing is stored) and one empty row |
| AccessCodes.ConfigPage.LoadPageCodes | config.js:17-40 | the rows become the stored entries in key order plus one empty row, so there are entries + 1 rows |
| AccessCodes.ConfigPage.AddEmptyEntry | config.js:43-57 | one empty row is appended |
| AccessCodes.ConfigPage.SaveConfigurations | config.js:60-77 | the object the rows save is stored, and the page is reloaded from it |
| AccessCodes.ConfigPage.DeleteEntry | config.js:80-91 | the rows become `Delete` of the old rows, and the stored object is untouched |

## Left out

- The Supabase queries (`loadEmployees`, `fetchEmployeeStats`, `fetchStats`) are network I/O. The aggregations take the returned rows as a parameter, and the query error path is not modelled.
- The DOM is not modelled. This covers the HTML the display functions build, `alert`, event listeners, the `changesMade` flag, and the disabled state of the `"Chef"` name input and delete button. The rows of the access-code page are a list of (name, code) pairs, and a delete names the row by its index.
- AccessCodes.ReloadSavesSame and AccessCodes.SaveIsIdempotent assume that names and codes contain no `"` and no `&`. config.js:29 and config.js:31 put the raw text into `value="..."` without escaping. A `"` cuts the value at the quote when the page is reloaded, and `&amp;`-style text is decoded. For example, saving `a"b` reloads as `a`, and the next save stores `a`. The model's rows hold the text as it was stored.
- The lemmas about the objects assume that no key is an `Object.prototype` property name (`"toString"`, `"constructor"`, `"__proto__"`, and so on). For `"toString"` or `"constructor"`, `acc[k] || 0` reads the inherited function, so the sum becomes a string. For `"__proto__"`, the assignment sets the prototype and the key never appears. JsObject.TallyValue, ClientStats.EventsByPersonSpec, ClientStats.SpendingByClientSpec, ClientStats.TotalIsSpendingSum, EmployeeHours.WeekTableValues, EmployeeHours.DayTableValues and AccessCodes.SavedKeys are stated for plain keys only.
- `localStorage` and JSON are storage I/O. The stored object is an `Option`, where `None` means nothing is stored and gives the default codes. JSON round-tripping is taken to preserve the object.
- `toFixed`, `toLocaleDateString('fr-FR')` and the month-name table are presentation formatting.
- Timezones are not modelled. `new Date(event.Date)` parses the text as UTC and reads local fields. The `toISOString()` ranges (`setLastWeek`, `setLast30Days`, the month range of the employee report) depend on the host timezone. The model reads the date's calendar fields directly, and those ranges are not modelled.
- `RowDate` reads any `<integer>-MM-DD` text. It treats a day outside the month, such as `2024-02-30`, as no date (week key `SNaN`). Engines differ on `new Date` for such text and for shapes other than `YYYY-MM-DD`.
- The `Date` constructor maps years 0 to 99 to 1900 to 1999. The model treats every year as itself.
- Numbers are exact reals. Floating-point rounding of the sums is not modelled.
- A null `Prix` or `Nom` is not modelled. `Prix` is always a number and `Nom` is always text.
- Integer-like object keys (a client named `"123"`) are enumerated first in JavaScript. The model keeps plain insertion order for every key.
- `calculateHoursByDay` gets `month` as text and pads it with `padStart`. The model takes the month as the number 1..12 and pads its decimal text.
- git_push.py and script.js are not part of this model.
