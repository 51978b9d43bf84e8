# Sports-card release calendar: date logic

This project models the date arithmetic of the sports-card release calendar component. The
component comes in two variants, `src/Sportscalendar.jsx` (JSX markup) and
`src/SportsCalendar.jsx` (`React.createElement` markup). Their logic is identical line for line:

| operation | Sportscalendar.jsx | SportsCalendar.jsx |
|---|---|---|
| `getDaysInMonth` | 77-98 | 63-82 |
| `getReleasesForDate` | 100-105 | 84-89 |
| `navigateMonth` | 107-111 | 91-95 |
| `getRarityColor` / `getSportColor` | 113-130 | 97-114 |
| month filter + sort | 240-245 | 200-205 |
| header month name | 72-75 | 58-61, 131 |

So one Dafny module, `SportsCardCalendar`, models both variants. The rows below cite whichever
file has the lines that fit best.

The project has four modules:

- `Gregorian` (gregorian.dfy): proleptic Gregorian day arithmetic. It uses the abstract
  operations of ECMA-262 section 21.4.1: DayFromYear, MakeDay and WeekDay.
  - `NormalizeDay` and `Normalize` give the broken-down date of an out-of-range
    (year, month, day). They are proved to be the unique valid date with MakeDay's day number.
  - This covers the "day 0 of next month" idiom and `setMonth` overflow.
- `JsDate` (jsdate.dfy): the part of the `Date` object the component uses.
  - The `(year, monthIndex, day)` constructor, including MakeFullYear's reading of years 0-99
    as 1900-1999.
  - `getFullYear`, `getMonth`, `getDate` and `getDay`.
  - `setMonth`, both as a function and as the method of a mutable `DateObject`.
  - The time value that `a.date - b.date` subtracts.
  - `toDateString` equality, modelled as equality of calendar days.
- `Sequences` (sequences.dfy): `Array.prototype.filter` and a stable sort by an integer key.
  ECMA-262 section 23.1.3.30 requires `Array.prototype.sort` to be stable.
- `SportsCardCalendar` (calendar.dfy): the component's operations. The React state
  `currentDate` is passed in as a value, and navigation returns the new value.

`getDaysInMonth` and `navigateMonth` change things step by step, so they are modelled as methods:
- `GetDaysInMonth` has the two push loops.
- `NavigateMonth` copies a `DateObject` and calls `SetMonth` on it.

The filters, the sort and the colour switches are modelled as functions.

## Model

| member | source | states |
|---|---|---|
| `Gregorian.LeapYearIffLongYear` | src/Sportscalendar.jsx:81-82 | a year has 366 days under the standard's DayFromYear formula exactly when it is a Gregorian leap year (divisible by 4, and not by 100 unless also by 400) |
| `Gregorian.DayFromYearStep` | src/Sportscalendar.jsx:81 | DayFromYear(y + 1) is DayFromYear(y) plus the length of year y |
| `Gregorian.DayFromYearMonotone` | src/Sportscalendar.jsx:81 | the first days of later years come after the whole of every earlier year |
| `Gregorian.MonthLengths` | src/Sportscalendar.jsx:81-82 | February has 29 days in leap years and 28 otherwise; every other month has 30 or 31 |
| `Gregorian.NextMonthStep` | src/Sportscalendar.jsx:81 | the 1st of the next month, December to January of the next year included, is the month's length after this month's 1st |
| `Gregorian.DayNumberOrder` | src/Sportscalendar.jsx:245 | for valid dates, day numbers compare exactly as year/month/day compare lexicographically, and are equal only for equal dates |
| `Gregorian.DayNumberInjective` | src/Sportscalendar.jsx:103 | distinct valid dates have distinct day numbers |
| `Gregorian.NormalizeDay` | src/Sportscalendar.jsx:81 | moving an out-of-range day across month boundaries always ends in a valid date |
| `Gregorian.NormalizeDayKeepsDayNumber` | src/Sportscalendar.jsx:81 | that normalised date has the day number of the original (year, month, day) |
| `Gregorian.NormalizeKeepsMakeDay` | src/SportsCalendar.jsx:67 | the normalised date of any (year, month, day) has the standard's MakeDay day number |
| `Gregorian.NormalizeIsUnique` | src/SportsCalendar.jsx:67 | it is the only valid date with that day number, so it is the date that the getters read back |
| `Gregorian.DayZeroOfNextMonth` | src/Sportscalendar.jsx:81-82 | day 0 of month m + 1 is the last day of month m, with December rolling into next year's January |
| `Gregorian.MakeDayOutcome` | src/Sportscalendar.jsx:109 | MakeDay for day 1..31 is that day of the target month when the month is long enough; otherwise it is day 1..3 of the following month |
| `Gregorian.WeekDayOfDay` | src/Sportscalendar.jsx:83 | the weekday of day d is the weekday of the 1st advanced by d - 1, mod 7 |
| `Gregorian.Epoch` | src/Sportscalendar.jsx:83 | 1 January 1970 is day number 0 and a Thursday |
| `JsDate.NewDateDay` | src/Sportscalendar.jsx:80-81 | `new Date(y, m, d)` falls on MakeDay's day for any fields, the year read through MakeFullYear |
| `JsDate.NewDateInRange` | src/Sportscalendar.jsx:94 | `new Date(y, m, d)` with in-range fields is local midnight of exactly (y, m, d) |
| `JsDate.WithMonthDay` | src/Sportscalendar.jsx:109 | `setMonth(m)` moves to MakeDay of the kept year, the new month and the kept day of the month |
| `JsDate.WithMonthAndDateFirst` | src/Sportscalendar.jsx:109 | `setMonth(m, 1)` lands on the 1st of the folded target month |
| `JsDate.TimeValueOrder` | src/Sportscalendar.jsx:245 | time values order Dates by calendar day and then by time of day, and are equal only for equal Dates |
| `JsDate.SameDateStringIsSameDay` | src/Sportscalendar.jsx:103 | equal date strings mean equal day numbers floor(t / msPerDay) of the time values |
| `JsDate.DateObject.SetMonth` | src/Sportscalendar.jsx:109 | the object's Date becomes `setMonth`'s result on its old value |
| `Sequences.Filter` | src/Sportscalendar.jsx:102 | the result is a subsequence of the input that holds exactly the elements satisfying the predicate, with their multiplicities |
| `Sequences.FilterCongruent` | src/Sportscalendar.jsx:102-104 | two predicates that agree on every element give the same filter |
| `Sequences.InsertBy` | src/Sportscalendar.jsx:245 | inserting into a sorted sequence keeps it sorted and adds exactly the one element |
| `Sequences.SortBy` | src/Sportscalendar.jsx:245 | the sort result is non-decreasing in the key and a permutation of the input |
| `Sequences.SortByStable` | src/Sportscalendar.jsx:245 | elements with equal keys keep their input order |
| `SportsCardCalendar.MonthName` | src/SportsCalendar.jsx:131 | the header's month name is always one of the twelve names, because getMonth is in 0..11 |
| `SportsCardCalendar.MonthNameIdentifiesMonth` | src/SportsCalendar.jsx:58-61 | two dates show the same month name exactly when they have the same month |
| `SportsCardCalendar.FirstWeekDay` | src/Sportscalendar.jsx:83 | the number of leading empty cells is a weekday, 0..6 |
| `SportsCardCalendar.GetDaysInMonth` | src/Sportscalendar.jsx:77-98 | the two push loops build exactly the month grid of the date's month, for the year that `new Date` reads |
| `SportsCardCalendar.GridParameters` | src/SportsCalendar.jsx:66-69 | `new Date(year, month + 1, 0).getDate()` is the month length, and `getDay()` of the 1st is the grid offset |
| `SportsCardCalendar.MonthGridShape` | src/SportsCalendar.jsx:71-81 | grid length = weekday of the 1st + days in month, so 28..37 cells; a cell is empty exactly when it comes before the 1st |
| `SportsCardCalendar.August2025Grid` | src/SportsCalendar.jsx:63-82 | August 2025 starts on a Friday, so its grid has 5 empty cells and 36 cells in all |
| `SportsCardCalendar.MonthGridDay` | src/Sportscalendar.jsx:93-95 | day d of the month is in cell offset + d - 1, at local midnight |
| `SportsCardCalendar.MonthGridWeekdays` | src/Sportscalendar.jsx:179-188 | the date in cell i falls on weekday i mod 7, which is the weekday the header of column i mod 7 names |
| `SportsCardCalendar.MonthGridChronological` | src/SportsCalendar.jsx:77-79 | every grid date lies in the requested month and year, and the dates strictly increase |
| `SportsCardCalendar.MonthGridCovers` | src/Sportscalendar.jsx:188-189 | a Date matches a grid cell exactly when it falls in the grid's month, and then it matches only one cell |
| `SportsCardCalendar.TodayHighlightedOnce` | src/Sportscalendar.jsx:190 | for one reading of the clock, at most one cell is highlighted as today, and one is exactly when today is in the shown month |
| `SportsCardCalendar.ReleasesForDate` | src/Sportscalendar.jsx:100-105 | an empty cell has no releases; otherwise the result is the in-order subsequence of the releases on the cell's calendar day, with their multiplicities |
| `SportsCardCalendar.ReleasesForDateIgnoresTime` | src/SportsCalendar.jsx:84-89 | only the calendar day of the argument matters, not its time of day |
| `SportsCardCalendar.MonthReleases` | src/Sportscalendar.jsx:240-245 | the month list holds exactly the releases with the current month and year, with their multiplicities, in non-decreasing time value |
| `SportsCardCalendar.MonthReleasesByDate` | src/SportsCalendar.jsx:205 | no listed release has an earlier calendar day than one listed before it; on the same day, time of day does not decrease |
| `SportsCardCalendar.MonthReleasesStable` | src/SportsCalendar.jsx:200-205 | releases at the same instant keep their order in the release list |
| `SportsCardCalendar.GridShowsMonthReleases` | src/SportsCalendar.jsx:200-204 | a release is in the month list exactly when some grid cell of the month shows it, and no release is shown in two cells |
| `SportsCardCalendar.TargetMonth` | src/Sportscalendar.jsx:109 | the month that `getMonth() + direction` folds to is always a month index 0..11 |
| `SportsCardCalendar.TargetMonthSteps` | src/Sportscalendar.jsx:109 | +1 is the next month and -1 the previous one, with the year rolling over from December to January and from January to December |
| `SportsCardCalendar.NavigateMonth` | src/Sportscalendar.jsx:107-111 | the new date keeps the time of day and lands on MakeDay of the kept year, the shifted month and the kept day of the month |
| `SportsCardCalendar.NavigateMonthOutcome` | src/SportsCalendar.jsx:91-95 | that is the same day of the target month when the target month is long enough; otherwise the overflow lands on day 1..3 of the month after |
| `SportsCardCalendar.NavigateMonthSkipsFebruary` | src/SportsCalendar.jsx:93 | from 31 January 2025, "next month" shows 3 March 2025, not February |
| `SportsCardCalendar.NavigateMonthFixed` | src/SportsCalendar.jsx:93 | corrected navigation with `setMonth(m + direction, 1)` always lands on the 1st of the target month |
| `SportsCardCalendar.TargetMonthAdditive` | src/SportsCalendar.jsx:93 | moving by a months and then by b months is moving by a + b months |
| `SportsCardCalendar.FixedNavigationRoundTrip` | src/SportsCalendar.jsx:91-95 | with the corrected navigation, "next" then "previous" returns to the month shown before |
| `SportsCardCalendar.RarityColor` | src/Sportscalendar.jsx:113-120 | "high", "medium" and "low" map to their class strings; every other input maps to the grey default |
| `SportsCardCalendar.SportColor` | src/SportsCalendar.jsx:106-114 | the four listed sports map to their colours; every other input maps to grey |
| `SportsCardCalendar.ColorsDistinguishKeys` | src/SportsCalendar.jsx:97-114 | two inputs share a colour only when they are the same listed key or both unlisted |

## Left out

- Rendering: the JSX / `React.createElement` markup, the Tailwind classes outside the two lookup tables, the icons and the legend. These are presentation only.
- React state: `useState` / `setCurrentDate` are not modelled. The current date is an explicit parameter, and navigation returns the new date.
- The system clock: the `new Date()` of the initial state, the "Today" button and the today highlight's own `new Date()` are not modelled. "Today" is a parameter of `IsToday` / `TodayHighlightedOnce`.
- TodayHighlightedOnce: the source reads the clock (`new Date()`) once per cell while rendering, so a render that crosses midnight can highlight two cells, or none when the month changes. The lemma assumes a single reading of the clock shared by all cells.
- Time zones and daylight saving: local time is taken as the time line itself, with no offset. `toLocaleDateString` formatting is left out. `toDateString` is modelled only as equality of calendar days, not as text.
- TimeClip: the standard's limit of 8.64e15 ms on time values, beyond which a Date is invalid, is not modelled. Integers are unbounded, so every (year, month, day) is a valid Date here.
- The hard-coded sample release arrays: the release list is an arbitrary input sequence.
- The unused `selectedView` state in src/Sportscalendar.jsx.
- webpack.config.js (build configuration) and src/index.js (DOM mounting and the global namespace).
- CSV or hosted-table fetching, grouping by date with name ordering, pagination, pre-order dates and the loading/error state machine do not appear in the two component files, so they are not modelled.
- `GridShowsMonthReleases`: holds for years outside 0-99. For years 0-99, `new Date(year, …)` builds the grid of 1900 + year, while the month filter compares the raw year. So there the grid and the list show different months, which `GetDaysInMonth`'s contract states.

## Findings

| source | as written | input that shows it | evidently intended | confidence | as-written member | corrected member |
|---|---|---|---|---|---|---|
| src/Sportscalendar.jsx:109 (also src/SportsCalendar.jsx:93) | `setMonth(getMonth() + direction)` keeps the day of the month, so a day missing from the target month overflows into the month after it | current date 31 January 2025, direction +1: the result is 3 March 2025 and February is skipped | the neighbouring month is shown, e.g. by setting the day to 1 together with the month | high (not executed) | `SportsCardCalendar.NavigateMonthSkipsFebruary` | `SportsCardCalendar.NavigateMonthFixed` |
