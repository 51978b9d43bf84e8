/** The part of the JavaScript Date object the calendar uses (ECMA-262 section 21.4): the
    constructor from year, month and day, the local-time getters, setMonth, the time value
    that `a.date - b.date` subtracts, and the day comparison that toDateString equality
    performs. Local time is taken as the time line itself (no time-zone offset). */
module JsDate {
  import opened Gregorian

  const MsPerDay: int := 86400000

  /** The broken-down local time of a Date: its calendar day and the milliseconds into it. */
  datatype DateValue = DateValue(ymd: CivilDate, ms: int) {
    predicate Valid() {
      ymd.Valid() && 0 <= ms < MsPerDay
    }
  }

  /** A Date object holding a valid time value; its fields are always in range. */
  type Date = t: DateValue | t.Valid() witness DateValue(CivilDate(1970, 0, 1), 0)

  function GetFullYear(t: Date): int {
    t.ymd.year
  }

  function GetMonth(t: Date): (m: int)
    ensures 0 <= m < 12
  {
    t.ymd.month
  }

  function GetDate(t: Date): (d: int)
    ensures 1 <= d <= DaysInMonth(GetFullYear(t), GetMonth(t)) <= 31
  {
    t.ymd.day
  }

  /** getDay: 0 = Sunday .. 6 = Saturday. */
  function GetDay(t: Date): (w: int)
    ensures 0 <= w < 7
  {
    WeekDay(DayNumberOf(t.ymd))
  }

  /** The time value (MakeDate of the day number and the time within the day). */
  function TimeValue(t: Date): int {
    DayNumberOf(t.ymd) * MsPerDay + t.ms
  }

  /** MakeFullYear: the constructor reads a year from 0 to 99 as 1900 plus that year. */
  function MakeFullYear(year: int): int {
    if 0 <= year <= 99 then 1900 + year else year
  }

  /** `new Date(year, monthIndex, day)`: local midnight of the day MakeDay gives. */
  function NewDate(year: int, monthIndex: int, day: int): (t: Date)
    ensures t.ms == 0
  {
    DateValue(Normalize(MakeFullYear(year), monthIndex, day), 0)
  }

  /** The constructed Date falls on the day MakeDay gives for the fields, whatever their range. */
  lemma NewDateDay(year: int, monthIndex: int, day: int)
    ensures DayNumberOf(NewDate(year, monthIndex, day).ymd) == MakeDay(MakeFullYear(year), monthIndex, day)
  {
    NormalizeKeepsMakeDay(MakeFullYear(year), monthIndex, day);
  }

  /** The Date that `setMonth(month, date)` leaves: year and time of day kept, month and day
      replaced and normalised. */
  function WithMonthAndDate(t: Date, month: int, date: int): (u: Date)
    ensures u.ms == t.ms
  {
    DateValue(Normalize(GetFullYear(t), month, date), t.ms)
  }

  /** `setMonth(month, date)` moves to the day MakeDay gives for the kept year and the new
      month and date. */
  lemma WithMonthAndDateDay(t: Date, month: int, date: int)
    ensures DayNumberOf(WithMonthAndDate(t, month, date).ymd) == MakeDay(GetFullYear(t), month, date)
  {
    NormalizeKeepsMakeDay(GetFullYear(t), month, date);
  }

  /** The Date that `setMonth(month)` leaves: the day of the month is kept as well. */
  function WithMonth(t: Date, month: int): (u: Date)
    ensures u.ms == t.ms
  {
    WithMonthAndDate(t, month, GetDate(t))
  }

  /** `setMonth(month)` moves to the day MakeDay gives for the kept year and day of the month. */
  lemma WithMonthDay(t: Date, month: int)
    ensures DayNumberOf(WithMonth(t, month).ymd) == MakeDay(GetFullYear(t), month, GetDate(t))
  {
    WithMonthAndDateDay(t, month, GetDate(t));
  }

  /** `a.toDateString() === b.toDateString()`: the two Dates fall on the same local day. */
  predicate SameDateString(a: Date, b: Date) {
    a.ymd == b.ymd
  }

  /** Comparing time values compares the dates chronologically, then the time of day. */
  lemma TimeValueOrder(a: Date, b: Date)
    ensures TimeValue(a) < TimeValue(b) <==> a.ymd.Before(b.ymd) || (a.ymd == b.ymd && a.ms < b.ms)
    ensures TimeValue(a) == TimeValue(b) <==> a == b
  {
    DayNumberOrder(a.ymd, b.ymd);
    var da, db := DayNumberOf(a.ymd), DayNumberOf(b.ymd);
    if da < db {
      assert da * MsPerDay + MsPerDay <= db * MsPerDay;
    } else if db < da {
      assert db * MsPerDay + MsPerDay <= da * MsPerDay;
    }
  }

  /** Two Dates print the same date string exactly when their time values fall in the same
      day (the standard's Day(t) = floor(t / msPerDay)). */
  lemma SameDateStringIsSameDay(a: Date, b: Date)
    ensures SameDateString(a, b) <==> TimeValue(a) / MsPerDay == TimeValue(b) / MsPerDay
  {
    DayNumberOrder(a.ymd, b.ymd);
    DayOfTimeValue(a);
    DayOfTimeValue(b);
  }

  lemma DayOfTimeValue(t: Date)
    ensures TimeValue(t) / MsPerDay == DayNumberOf(t.ymd)
  {
  }

  /** `new Date(year, monthIndex, day)` with fields in range is local midnight of that day,
      in the year MakeFullYear reads. */
  lemma NewDateInRange(year: int, monthIndex: int, day: int)
    requires CivilDate(MakeFullYear(year), monthIndex, day).Valid()
    ensures NewDate(year, monthIndex, day) == DateValue(CivilDate(MakeFullYear(year), monthIndex, day), 0)
  {
    NormalizeValid(CivilDate(MakeFullYear(year), monthIndex, day));
  }

  /** `setMonth(month, 1)` lands on the 1st of the target month. */
  lemma WithMonthAndDateFirst(t: Date, month: int)
    ensures WithMonthAndDate(t, month, 1).ymd == CivilDate(GetFullYear(t) + month / 12, month % 12, 1)
  {
    assert Normalize(GetFullYear(t), month, 1) == NormalizeDay(GetFullYear(t) + month / 12, month % 12, 1);
  }

  /** A mutable Date object, as the month navigation copies and updates one. */
  class DateObject {
    var value: Date

    /** `new Date(t)`: a copy holding the same time value. */
    constructor (t: Date)
      ensures value == t
    {
      value := t;
    }

    /** `setMonth(month)`. */
    method SetMonth(month: int)
      modifies this
      ensures value == WithMonth(old(value), month)
    {
      value := WithMonth(value, month);
    }

    /** `setMonth(month, date)`. */
    method SetMonthAndDate(month: int, date: int)
      modifies this
      ensures value == WithMonthAndDate(old(value), month, date)
    {
      value := WithMonthAndDate(value, month, date);
    }
  }
}
