/** Proleptic Gregorian day arithmetic as the abstract operations of ECMA-262 section 21.4.1
    (Overview of Date Objects and Definitions of Abstract Operations) define it. Months are 0-based (0 = January) as in
    JavaScript, days of the month are 1-based, and a day number counts days from
    1 January 1970. */
module Gregorian {

  /** Leap years of the Gregorian calendar (the case split of the standard's DaysInYear). */
  predicate IsLeapYear(y: int) {
    y % 4 == 0 && (y % 100 != 0 || y % 400 == 0)
  }

  function DaysInYear(y: int): int {
    if IsLeapYear(y) then 366 else 365
  }

  /** Length of month m (0..11) of year y, the table behind MonthFromTime and DateFromTime. */
  function DaysInMonth(y: int, m: int): int
    requires 0 <= m < 12
  {
    if m == 1 then (if IsLeapYear(y) then 29 else 28)
    else if m == 3 || m == 5 || m == 8 || m == 10 then 30
    else 31
  }

  /** Number of days of year y before the first of month m; m == 12 gives the whole year.
      These are the bounds of DayWithinYear that MonthFromTime compares against. */
  function DaysBeforeMonth(y: int, m: int): int
    requires 0 <= m <= 12
  {
    var table := [0, 31, 59, 90, 120, 151, 181, 212, 243, 273, 304, 334, 365];
    table[m] + (if m >= 2 && IsLeapYear(y) then 1 else 0)
  }

  /** The standard's DayFromYear: the day number of 1 January of year y. Dafny's
      division by a positive constant is floor division, as the standard's formula needs. */
  function DayFromYear(y: int): int {
    365 * (y - 1970) + (y - 1969) / 4 - (y - 1901) / 100 + (y - 1601) / 400
  }

  /** A calendar day as the broken-down fields of a time value. */
  datatype CivilDate = CivilDate(year: int, month: int, day: int) {
    predicate Valid() {
      0 <= month < 12 && 1 <= day <= DaysInMonth(year, month)
    }

    /** Strict chronological order on broken-down dates: year, then month, then day. */
    predicate Before(other: CivilDate) {
      year < other.year
      || (year == other.year && month < other.month)
      || (year == other.year && month == other.month && day < other.day)
    }
  }

  /** The day number of day d (any integer) counted from the first of month m of year y. */
  function DayNumber(y: int, m: int, d: int): int
    requires 0 <= m < 12
  {
    DayFromYear(y) + DaysBeforeMonth(y, m) + d - 1
  }

  function DayNumberOf(c: CivilDate): int
    requires 0 <= c.month < 12
  {
    DayNumber(c.year, c.month, c.day)
  }

  /** The standard's MakeDay(year, month, date) on integer arguments: the month is
      folded into the year by floor division, then the date is counted from that month's 1st. */
  function MakeDay(year: int, month: int, date: int): int {
    DayNumber(year + month / 12, month % 12, date)
  }

  /** The standard's WeekDay: 0 = Sunday .. 6 = Saturday; 1 January 1970 was a Thursday. */
  function WeekDay(dayNumber: int): (w: int)
    ensures 0 <= w < 7
  {
    (dayNumber + 4) % 7
  }

  /** The month that follows month m of year y. */
  function NextMonth(y: int, m: int): (r: (int, int))
    requires 0 <= m < 12
    ensures 0 <= r.1 < 12
  {
    if m == 11 then (y + 1, 0) else (y, m + 1)
  }

  /** The month that precedes month m of year y. */
  function PrevMonth(y: int, m: int): (r: (int, int))
    requires 0 <= m < 12
    ensures 0 <= r.1 < 12
  {
    if m == 0 then (y - 1, 11) else (y, m - 1)
  }

  // ---------------------------------------------------------------------------------------
  // The year and month lengths agree with the standard's DayFromYear formula.

  /** One year after another: DayFromYear advances by exactly DaysInYear. */
  lemma DayFromYearStep(y: int)
    ensures DayFromYear(y + 1) == DayFromYear(y) + DaysInYear(y)
  {
    QuadrennialStep(y);
    CenturyStep(y);
    QuadricentennialStep(y);
    LeapDivisibility(y);
    assert DayFromYear(y + 1) - DayFromYear(y)
        == 365 + ((y - 1968) / 4 - (y - 1969) / 4) - ((y - 1900) / 100 - (y - 1901) / 100)
           + ((y - 1600) / 400 - (y - 1601) / 400);
  }

  lemma LeapDivisibility(y: int)
    ensures y % 400 == 0 ==> y % 100 == 0
    ensures y % 100 == 0 ==> y % 4 == 0
  {
    var c, q := y / 100, y / 400;
    assert y == 100 * c + y % 100 && 0 <= y % 100 < 100;
    assert y == 400 * q + y % 400 && 0 <= y % 400 < 400;
    if y % 400 == 0 {
      assert y % 100 == 100 * (4 * q - c);
    }
    if y % 100 == 0 {
      assert y == 4 * (25 * c);
    }
  }

  /** The three floor-division terms of DayFromYear each rise by one exactly after a year
      divisible by their divisor. */
  lemma QuadrennialStep(y: int)
    ensures (y - 1968) / 4 - (y - 1969) / 4 == if y % 4 == 0 then 1 else 0
  {
    var q, r := (y - 1969) / 4, (y - 1969) % 4;
    assert y - 1969 == 4 * q + r;
    if r == 3 {
      assert y - 1968 == 4 * (q + 1) && y == 4 * (q + 493);
    } else {
      assert y - 1968 == 4 * q + (r + 1) && y == 4 * (q + 492) + (r + 1);
    }
  }

  lemma CenturyStep(y: int)
    ensures (y - 1900) / 100 - (y - 1901) / 100 == if y % 100 == 0 then 1 else 0
  {
    var q, r := (y - 1901) / 100, (y - 1901) % 100;
    assert y - 1901 == 100 * q + r;
    if r == 99 {
      assert y - 1900 == 100 * (q + 1) && y == 100 * (q + 20);
    } else {
      assert y - 1900 == 100 * q + (r + 1) && y == 100 * (q + 19) + (r + 1);
    }
  }

  lemma QuadricentennialStep(y: int)
    ensures (y - 1600) / 400 - (y - 1601) / 400 == if y % 400 == 0 then 1 else 0
  {
    var q, r := (y - 1601) / 400, (y - 1601) % 400;
    assert y - 1601 == 400 * q + r;
    if r == 399 {
      assert y - 1600 == 400 * (q + 1) && y == 400 * (q + 5);
    } else {
      assert y - 1600 == 400 * q + (r + 1) && y == 400 * (q + 4) + (r + 1);
    }
  }

  /** A year is a leap year exactly when the standard's formula gives it 366 days. */
  lemma LeapYearIffLongYear(y: int)
    ensures IsLeapYear(y) <==> DayFromYear(y + 1) - DayFromYear(y) == 366
    ensures !IsLeapYear(y) <==> DayFromYear(y + 1) - DayFromYear(y) == 365
  {
    DayFromYearStep(y);
  }

  /** DayFromYear is strictly increasing. */
  lemma {:induction false} DayFromYearMonotone(y: int, z: int)
    requires y < z
    ensures DayFromYear(y) + DaysInYear(y) <= DayFromYear(z)
    decreases z - y
  {
    DayFromYearStep(y);
    if y + 1 < z {
      DayFromYearMonotone(y + 1, z);
    }
  }

  /** Month lengths add up to the month boundaries, and the months fill the year. */
  lemma MonthBoundaries(y: int, m: int)
    requires 0 <= m < 12
    ensures DaysBeforeMonth(y, m + 1) == DaysBeforeMonth(y, m) + DaysInMonth(y, m)
    ensures DaysBeforeMonth(y, 12) == DaysInYear(y)
  {
  }

  /** Month lengths as the Gregorian calendar has them: February has 29 days in a leap year
      and 28 otherwise, every other month 30 or 31. */
  lemma MonthLengths(y: int, m: int)
    requires 0 <= m < 12
    ensures m == 1 ==> (DaysInMonth(y, m) == 29 <==> IsLeapYear(y))
    ensures m == 1 ==> 28 <= DaysInMonth(y, m) <= 29
    ensures m != 1 ==> DaysInMonth(y, m) == 30 || DaysInMonth(y, m) == 31
  {
  }

  /** The first day of the following month comes exactly DaysInMonth days after the first
      of this month, across the December/January boundary too. */
  lemma NextMonthStep(y: int, m: int)
    requires 0 <= m < 12
    ensures DayNumber(NextMonth(y, m).0, NextMonth(y, m).1, 1) == DayNumber(y, m, 1) + DaysInMonth(y, m)
  {
    MonthBoundaries(y, m);
    if m == 11 {
      DayFromYearStep(y);
    }
  }

  /** The last day of the month comes before the first of the next year. */
  lemma DayNumberWithinYear(c: CivilDate)
    requires c.Valid()
    ensures DayFromYear(c.year) <= DayNumberOf(c) < DayFromYear(c.year) + DaysInYear(c.year)
  {
    MonthBoundaries(c.year, c.month);
    MonthBoundariesMonotone(c.year, c.month + 1, 12);
  }

  lemma {:induction false} MonthBoundariesMonotone(y: int, m: int, n: int)
    requires 0 <= m <= n <= 12
    ensures DaysBeforeMonth(y, m) <= DaysBeforeMonth(y, n)
    decreases n - m
  {
    if m < n {
      MonthBoundaries(y, m);
      MonthBoundariesMonotone(y, m + 1, n);
    }
  }

  // ---------------------------------------------------------------------------------------
  // Day numbers order broken-down dates.

  /** Chronological order of valid dates is the order of their day numbers. */
  lemma DayNumberStrictlyMonotone(a: CivilDate, b: CivilDate)
    requires a.Valid() && b.Valid() && a.Before(b)
    ensures DayNumberOf(a) < DayNumberOf(b)
  {
    if a.year < b.year {
      DayNumberWithinYear(a);
      DayNumberWithinYear(b);
      DayFromYearMonotone(a.year, b.year);
    } else if a.month < b.month {
      MonthBoundaries(a.year, a.month);
      MonthBoundariesMonotone(a.year, a.month + 1, b.month);
    }
  }

  /** Distinct valid dates have distinct day numbers. */
  lemma DayNumberInjective(a: CivilDate, b: CivilDate)
    requires a.Valid() && b.Valid() && DayNumberOf(a) == DayNumberOf(b)
    ensures a == b
  {
    if a.Before(b) {
      DayNumberStrictlyMonotone(a, b);
    } else if b.Before(a) {
      DayNumberStrictlyMonotone(b, a);
    }
  }

  /** Day numbers compare exactly as the dates do. */
  lemma DayNumberOrder(a: CivilDate, b: CivilDate)
    requires a.Valid() && b.Valid()
    ensures DayNumberOf(a) < DayNumberOf(b) <==> a.Before(b)
    ensures DayNumberOf(a) == DayNumberOf(b) <==> a == b
  {
    if a.Before(b) {
      DayNumberStrictlyMonotone(a, b);
    } else if b.Before(a) {
      DayNumberStrictlyMonotone(b, a);
    } else {
      assert a == b;
    }
  }

  // ---------------------------------------------------------------------------------------
  // Normalisation of out-of-range fields, as the Date constructor and setMonth perform it.

  /** Moves day d of month m of year y into range by stepping whole months back or forward.
      The result is the valid date with the same day number. */
  function NormalizeDay(y: int, m: int, d: int): (c: CivilDate)
    requires 0 <= m < 12
    ensures c.Valid()
    decreases if d < 1 then 1 - d else 0, d
  {
    if d < 1 then
      var p := PrevMonth(y, m);
      NormalizeDay(p.0, p.1, d + DaysInMonth(p.0, p.1))
    else if d > DaysInMonth(y, m) then
      var n := NextMonth(y, m);
      NormalizeDay(n.0, n.1, d - DaysInMonth(y, m))
    else
      CivilDate(y, m, d)
  }

  /** Each step of NormalizeDay re-counts the same day from a neighbouring month, so the
      normalised date has the day number of the original fields. */
  lemma {:induction false} NormalizeDayKeepsDayNumber(y: int, m: int, d: int)
    requires 0 <= m < 12
    ensures DayNumberOf(NormalizeDay(y, m, d)) == DayNumber(y, m, d)
    decreases if d < 1 then 1 - d else 0, d
  {
    if d < 1 {
      var p := PrevMonth(y, m);
      MonthShift(y, m, d);
      NormalizeDayKeepsDayNumber(p.0, p.1, d + DaysInMonth(p.0, p.1));
    } else if d > DaysInMonth(y, m) {
      var n := NextMonth(y, m);
      MonthShift(y, m, d);
      NormalizeDayKeepsDayNumber(n.0, n.1, d - DaysInMonth(y, m));
    }
  }

  /** Counting day d from the previous or the next month instead gives the same day number. */
  lemma MonthShift(y: int, m: int, d: int)
    requires 0 <= m < 12
    ensures var p := PrevMonth(y, m);
            DayNumber(p.0, p.1, d + DaysInMonth(p.0, p.1)) == DayNumber(y, m, d)
    ensures var n := NextMonth(y, m);
            DayNumber(n.0, n.1, d - DaysInMonth(y, m)) == DayNumber(y, m, d)
  {
    var p := PrevMonth(y, m);
    assert NextMonth(p.0, p.1) == (y, m);
    NextMonthStep(p.0, p.1);
    NextMonthStep(y, m);
  }

  /** A day of the month past the month's end, by at most three days, is that many days
      into the next month. */
  lemma OverflowIntoNextMonth(y: int, m: int, d: int)
    requires 0 <= m < 12 && DaysInMonth(y, m) < d <= 31
    ensures var n := NextMonth(y, m);
            var c := CivilDate(n.0, n.1, d - DaysInMonth(y, m));
            c.Valid() && 1 <= c.day <= 3 && DayNumberOf(c) == DayNumber(y, m, d)
  {
    MonthShift(y, m, d);
  }

  /** The broken-down date of MakeDay(year, month, date): month overflow is folded into the
      year, then day overflow into the month. */
  function Normalize(year: int, month: int, date: int): (c: CivilDate)
    ensures c.Valid()
  {
    NormalizeDay(year + month / 12, month % 12, date)
  }

  /** The normalised date has MakeDay's day number. */
  lemma NormalizeKeepsMakeDay(year: int, month: int, date: int)
    ensures DayNumberOf(Normalize(year, month, date)) == MakeDay(year, month, date)
  {
    NormalizeDayKeepsDayNumber(year + month / 12, month % 12, date);
  }

  /** Normalize yields the one valid date whose day number is MakeDay's, so it is the date
      that the standard's YearFromTime, MonthFromTime and DateFromTime read back. */
  lemma NormalizeIsUnique(year: int, month: int, date: int, c: CivilDate)
    requires c.Valid() && DayNumberOf(c) == MakeDay(year, month, date)
    ensures Normalize(year, month, date) == c
  {
    NormalizeKeepsMakeDay(year, month, date);
    DayNumberInjective(Normalize(year, month, date), c);
  }

  /** Normalising fields that are already in range changes nothing. */
  lemma NormalizeValid(c: CivilDate)
    requires c.Valid()
    ensures Normalize(c.year, c.month, c.day) == c
  {
    assert c.month / 12 == 0 && c.month % 12 == c.month;
  }

  /** "Day 0 of the next month" is the last day of this month. The month index m may lie
      outside 0..11 and is folded into the year first, so for December (m == 11) the next
      month is January of the following year. */
  lemma DayZeroOfNextMonth(y: int, m: int)
    ensures var y', m' := y + m / 12, m % 12;
            Normalize(y, m + 1, 0) == CivilDate(y', m', DaysInMonth(y', m'))
  {
    var y', m' := y + m / 12, m % 12;
    var n := NextMonth(y', m');
    FoldNextMonth(y, m);
    assert PrevMonth(n.0, n.1) == (y', m');
    assert Normalize(y, m + 1, 0) == NormalizeDay(n.0, n.1, 0);
    assert NormalizeDay(n.0, n.1, 0) == NormalizeDay(y', m', DaysInMonth(y', m'));
    assert NormalizeDay(y', m', DaysInMonth(y', m')) == CivilDate(y', m', DaysInMonth(y', m'));
  }

  /** The valid date with MakeDay's day number for a day d from 1 to 31: day d of the folded
      month when that month has d days, and otherwise the overflow counted into the month
      after it. */
  lemma MakeDayOutcome(year: int, month: int, d: int, c: CivilDate)
    requires 1 <= d <= 31 && c.Valid() && DayNumberOf(c) == MakeDay(year, month, d)
    ensures var y, m := year + month / 12, month % 12;
            d <= DaysInMonth(y, m) ==> c == CivilDate(y, m, d)
    ensures var y, m := year + month / 12, month % 12;
            var n := NextMonth(y, m);
            d > DaysInMonth(y, m) ==> c == CivilDate(n.0, n.1, d - DaysInMonth(y, m)) && 1 <= c.day <= 3
  {
    var y, m := year + month / 12, month % 12;
    if d <= DaysInMonth(y, m) {
      DayNumberInjective(c, CivilDate(y, m, d));
    } else {
      var n := NextMonth(y, m);
      OverflowIntoNextMonth(y, m, d);
      DayNumberInjective(c, CivilDate(n.0, n.1, d - DaysInMonth(y, m)));
    }
  }

  /** Folding month index m + 1 into the year gives the month after the folded m. */
  lemma FoldNextMonth(y: int, m: int)
    ensures (y + (m + 1) / 12, (m + 1) % 12) == NextMonth(y + m / 12, m % 12)
  {
  }

  /** Weekdays advance by one per day of the month. */
  lemma WeekDayOfDay(y: int, m: int, d: int)
    requires 0 <= m < 12
    ensures WeekDay(DayNumber(y, m, d)) == (WeekDay(DayNumber(y, m, 1)) + d - 1) % 7
  {
    WeekDayShift(DayNumber(y, m, 1), d - 1);
  }

  /** WeekDay(n + k) is k days on from WeekDay(n), modulo 7. */
  lemma WeekDayShift(n: int, k: int)
    ensures WeekDay(n + k) == (WeekDay(n) + k) % 7
  {
    var q := (n + 4) / 7;
    assert n + 4 == 7 * q + WeekDay(n);
    assert n + k + 4 == 7 * q + (WeekDay(n) + k);
  }

  /** 1 January 1970 is day 0 and a Thursday. */
  lemma Epoch()
    ensures DayNumber(1970, 0, 1) == 0 && WeekDay(0) == 4
  {
    assert 1 / 4 == 0 && -69 / 100 == -1 && 369 / 400 == 0;
  }
}
