/** The date logic of the sports-card release calendar component: the month grid, the
    per-day release lookup, the "this month" list, month navigation and the two colour
    lookup tables. The component's "current date" state is passed in and returned. */
module SportsCardCalendar {
  import opened Gregorian
  import opened JsDate
  import opened Sequences

  datatype Option<T> = None | Some(value: T)

  /** One card release as the component's release list holds it. */
  datatype Release = Release(
    id: int,
    date: Date,
    title: string,
    brand: string,
    sport: string,
    boxType: string,
    price: string,
    image: string,
    rarity: string,
    popularity: int)

  const MonthNames: seq<string> := [
    "January", "February", "March", "April", "May", "June",
    "July", "August", "September", "October", "November", "December"]

  /** Column headers of the seven-column grid; column k lists weekday k. */
  const WeekdayHeaders: seq<string> := ["Sun", "Mon", "Tue", "Wed", "Thu", "Fri", "Sat"]

  /** The header's month name, `monthNames[currentDate.getMonth()]`. */
  function MonthName(current: Date): (name: string)
    ensures name in MonthNames
  {
    MonthNames[GetMonth(current)]
  }

  /** Each month has its own name in the header. */
  lemma MonthNameIdentifiesMonth(a: Date, b: Date)
    ensures MonthName(a) == MonthName(b) <==> GetMonth(a) == GetMonth(b)
  {
    if GetMonth(a) != GetMonth(b) {
      var i, j := GetMonth(a), GetMonth(b);
      assert MonthNames[i] != MonthNames[j] by {
        assert |MonthNames[i]| != |MonthNames[j]| || MonthNames[i][0] != MonthNames[j][0]
          || MonthNames[i][1] != MonthNames[j][1] || MonthNames[i][2] != MonthNames[j][2];
      }
    }
  }

  // ---------------------------------------------------------------------------------------
  // The month grid.

  /** Weekday of the 1st of month m of year y: the number of empty cells before it. */
  function FirstWeekDay(y: int, m: int): (w: int)
    requires 0 <= m < 12
    ensures 0 <= w < 7
  {
    WeekDay(DayNumber(y, m, 1))
  }

  /** The grid of month m of year y: an empty cell per weekday before the 1st, then local
      midnight of each day of the month in turn. */
  function MonthGrid(y: int, m: int): seq<Option<Date>>
    requires 0 <= m < 12
  {
    seq(FirstWeekDay(y, m), _ => None)
      + seq(DaysInMonth(y, m), (i: int) requires 0 <= i < DaysInMonth(y, m) =>
          var d: Date := DateValue(CivilDate(y, m, i + 1), 0); Some(d))
  }

  /** getDaysInMonth: finds the weekday of the 1st and the month length (as day 0 of the next
      month), then pushes the empty cells and one Date per day. The year is the one
      `new Date(year, month, day)` reads, which differs from the current year only for
      years 0 to 99. */
  method GetDaysInMonth(date: Date) returns (days: seq<Option<Date>>)
    ensures days == MonthGrid(MakeFullYear(GetFullYear(date)), GetMonth(date))
  {
    var year := GetFullYear(date);
    var month := GetMonth(date);
    var firstDay := NewDate(year, month, 1);
    var lastDay := NewDate(year, month + 1, 0);
    var daysInMonth := GetDate(lastDay);
    var startingDayOfWeek := GetDay(firstDay);

    ghost var y := MakeFullYear(year);
    GridParameters(year, month);

    days := [];
    var i := 0;
    while i < startingDayOfWeek
      invariant 0 <= i <= startingDayOfWeek
      invariant |days| == i
      invariant forall k :: 0 <= k < i ==> days[k] == None
    {
      days := days + [None];
      i := i + 1;
    }

    var day := 1;
    while day <= daysInMonth
      invariant 1 <= day <= daysInMonth + 1
      invariant |days| == startingDayOfWeek + day - 1
      invariant forall k :: 0 <= k < startingDayOfWeek ==> days[k] == None
      invariant forall k :: startingDayOfWeek <= k < |days| ==>
                  days[k].Some? && days[k].value == DateValue(CivilDate(y, month, k - startingDayOfWeek + 1), 0)
    {
      NewDateInRange(year, month, day);
      days := days + [Some(NewDate(year, month, day))];
      day := day + 1;
    }

    MonthGridFromCells(y, month, days);
  }

  /** A sequence with the grid's empty cells and the grid's dates in the grid's positions is
      the grid. */
  lemma MonthGridFromCells(y: int, m: int, days: seq<Option<Date>>)
    requires 0 <= m < 12
    requires |days| == FirstWeekDay(y, m) + DaysInMonth(y, m)
    requires forall k :: 0 <= k < FirstWeekDay(y, m) ==> days[k] == None
    requires forall k :: FirstWeekDay(y, m) <= k < |days| ==>
               days[k].Some? && days[k].value == DateValue(CivilDate(y, m, k - FirstWeekDay(y, m) + 1), 0)
    ensures days == MonthGrid(y, m)
  {
    var grid := MonthGrid(y, m);
    MonthGridShape(y, m);
    forall k | 0 <= k < |days| ensures days[k] == grid[k] {
      if k >= FirstWeekDay(y, m) {
        MonthGridDay(y, m, k - FirstWeekDay(y, m) + 1);
      }
    }
  }

  /** The two facts getDaysInMonth computes: day 0 of the next month is the month's last day,
      and the weekday of the 1st is the grid's offset. */
  lemma GridParameters(year: int, month: int)
    requires 0 <= month < 12
    ensures GetDate(NewDate(year, month + 1, 0)) == DaysInMonth(MakeFullYear(year), month)
    ensures GetDay(NewDate(year, month, 1)) == FirstWeekDay(MakeFullYear(year), month)
  {
    assert month / 12 == 0 && month % 12 == month;
    DayZeroOfNextMonth(MakeFullYear(year), month);
    NewDateInRange(year, month, 1);
  }

  /** The grid has one cell per weekday before the 1st plus one per day, so 28 to 37 cells;
      exactly the leading FirstWeekDay cells are empty. */
  lemma MonthGridShape(y: int, m: int)
    requires 0 <= m < 12
    ensures var g := MonthGrid(y, m);
            |g| == FirstWeekDay(y, m) + DaysInMonth(y, m)
            && 28 <= |g| <= 37
            && forall i :: 0 <= i < |g| ==> (g[i].None? <==> i < FirstWeekDay(y, m))
  {
  }

  /** August 2025, the month of the sample releases, starts on a Friday: five empty cells
      and 31 days make 36 cells. */
  lemma August2025Grid()
    ensures FirstWeekDay(2025, 7) == 5 && |MonthGrid(2025, 7)| == 36
  {
  }

  /** Day d of the month sits in cell FirstWeekDay + d - 1, at local midnight. */
  lemma MonthGridDay(y: int, m: int, d: int)
    requires 0 <= m < 12 && 1 <= d <= DaysInMonth(y, m)
    ensures var g := MonthGrid(y, m);
            FirstWeekDay(y, m) + d - 1 < |g|
            && g[FirstWeekDay(y, m) + d - 1].Some?
            && g[FirstWeekDay(y, m) + d - 1].value == DateValue(CivilDate(y, m, d), 0)
  {
  }

  /** The date in cell i falls on weekday i mod 7. The seven-column grid puts cell i in
      column i mod 7, which is headed WeekdayHeaders[i % 7]. */
  lemma MonthGridWeekdays(y: int, m: int, i: int)
    requires 0 <= m < 12
    requires 0 <= i < |MonthGrid(y, m)| && MonthGrid(y, m)[i].Some?
    ensures GetDay(MonthGrid(y, m)[i].value) == i % 7
  {
    var off := FirstWeekDay(y, m);
    var d := i - off + 1;
    assert MonthGrid(y, m)[i].value.ymd == CivilDate(y, m, d);
    WeekDayOfDay(y, m, d);
  }

  /** The dates of the grid lie in the requested month and strictly increase. */
  lemma MonthGridChronological(y: int, m: int, i: int, j: int)
    requires 0 <= m < 12
    requires 0 <= i < j < |MonthGrid(y, m)|
    requires MonthGrid(y, m)[i].Some? && MonthGrid(y, m)[j].Some?
    ensures var a, b := MonthGrid(y, m)[i].value, MonthGrid(y, m)[j].value;
            GetFullYear(a) == GetFullYear(b) == y && GetMonth(a) == GetMonth(b) == m
            && a.ymd.Before(b.ymd) && TimeValue(a) < TimeValue(b)
  {
    var a, b := MonthGrid(y, m)[i].value, MonthGrid(y, m)[j].value;
    TimeValueOrder(a, b);
  }

  /** A Date has a cell in the grid exactly when it falls in the grid's month, and then in
      exactly one cell. */
  lemma MonthGridCovers(y: int, m: int, t: Date)
    requires 0 <= m < 12
    ensures var g := MonthGrid(y, m);
            (exists i :: 0 <= i < |g| && g[i].Some? && SameDateString(g[i].value, t))
              <==> (GetFullYear(t) == y && GetMonth(t) == m)
    ensures var g := MonthGrid(y, m);
            forall i, j ::
              (0 <= i < |g| && 0 <= j < |g| && g[i].Some? && g[j].Some?
               && SameDateString(g[i].value, t) && SameDateString(g[j].value, t)) ==> i == j
  {
    var g := MonthGrid(y, m);
    if GetFullYear(t) == y && GetMonth(t) == m {
      MonthGridDay(y, m, GetDate(t));
      var i := FirstWeekDay(y, m) + GetDate(t) - 1;
      assert g[i].Some? && SameDateString(g[i].value, t);
    }
  }

  /** The cell highlighted as today (`date.toDateString() === today.toDateString()`). */
  predicate IsToday(cell: Option<Date>, today: Date) {
    cell.Some? && SameDateString(cell.value, today)
  }

  /** At most one cell is highlighted, and one is exactly when today is in the grid's month. */
  lemma TodayHighlightedOnce(y: int, m: int, today: Date)
    requires 0 <= m < 12
    ensures var g := MonthGrid(y, m);
            (exists i :: 0 <= i < |g| && IsToday(g[i], today)) <==> (GetFullYear(today) == y && GetMonth(today) == m)
    ensures var g := MonthGrid(y, m);
            forall i, j :: 0 <= i < |g| && 0 <= j < |g| && IsToday(g[i], today) && IsToday(g[j], today) ==> i == j
  {
    MonthGridCovers(y, m, today);
  }

  // ---------------------------------------------------------------------------------------
  // Releases of one day and of the current month.

  /** getReleasesForDate: nothing for an empty cell, otherwise the releases on the cell's
      calendar day in list order. */
  function ReleasesForDate(releases: seq<Release>, cell: Option<Date>): (r: seq<Release>)
    ensures cell.None? ==> r == []
    ensures cell.Some? ==> IsSubsequence(r, releases)
    ensures cell.Some? ==> forall x | x in r :: x in releases && SameDateString(x.date, cell.value)
    ensures cell.Some? ==> forall x | x in releases ::
              multiset(r)[x] == if SameDateString(x.date, cell.value) then multiset(releases)[x] else 0
  {
    match cell
    case None => []
    case Some(date) => Filter(releases, (x: Release) => SameDateString(x.date, date))
  }

  /** Only the calendar day of the cell matters, not its time of day. */
  lemma ReleasesForDateIgnoresTime(releases: seq<Release>, a: Date, b: Date)
    requires SameDateString(a, b)
    ensures ReleasesForDate(releases, Some(a)) == ReleasesForDate(releases, Some(b))
  {
    FilterCongruent(releases, (x: Release) => SameDateString(x.date, a), (x: Release) => SameDateString(x.date, b));
  }

  /** The release's month and year are those of the current date. */
  predicate InMonthOf(r: Release, current: Date) {
    GetMonth(r.date) == GetMonth(current) && GetFullYear(r.date) == GetFullYear(current)
  }

  /** The sort key: the time value that `a.date - b.date` subtracts. */
  function ReleaseTime(r: Release): int {
    TimeValue(r.date)
  }

  /** The "this month" list: the current month's releases, stably sorted by time value. */
  function MonthReleases(releases: seq<Release>, current: Date): (r: seq<Release>)
    ensures forall x | x in r :: x in releases && InMonthOf(x, current)
    ensures forall x | x in releases :: multiset(r)[x] == if InMonthOf(x, current) then multiset(releases)[x] else 0
    ensures forall i, j :: 0 <= i < j < |r| ==> ReleaseTime(r[i]) <= ReleaseTime(r[j])
  {
    var inMonth := Filter(releases, (x: Release) => InMonthOf(x, current));
    var r := SortBy(inMonth, ReleaseTime);
    assert forall x | x in r :: x in inMonth by {
      forall x | x in r ensures x in inMonth {
        assert x in multiset(r);
      }
    }
    r
  }

  /** The list is in calendar order: no release precedes an earlier-listed one by date. */
  lemma MonthReleasesByDate(releases: seq<Release>, current: Date, i: int, j: int)
    requires 0 <= i < j < |MonthReleases(releases, current)|
    ensures var r := MonthReleases(releases, current);
            !r[j].date.ymd.Before(r[i].date.ymd)
            && (r[i].date.ymd == r[j].date.ymd ==> r[i].date.ms <= r[j].date.ms)
  {
    var r := MonthReleases(releases, current);
    TimeValueOrder(r[j].date, r[i].date);
  }

  /** Releases at the same instant keep their list order (the sort is stable). */
  lemma MonthReleasesStable(releases: seq<Release>, current: Date, k: int)
    ensures WithKey(MonthReleases(releases, current), ReleaseTime, k)
         == WithKey(Filter(releases, (x: Release) => InMonthOf(x, current)), ReleaseTime, k)
  {
    SortByStable(Filter(releases, (x: Release) => InMonthOf(x, current)), ReleaseTime, k);
  }

  /** The grid and the month list show the same releases: a release is listed for the month
      exactly when one grid cell shows it, and no release is shown in two cells. */
  lemma GridShowsMonthReleases(releases: seq<Release>, current: Date)
    requires !(0 <= GetFullYear(current) <= 99)
    ensures var g := MonthGrid(MakeFullYear(GetFullYear(current)), GetMonth(current));
            forall x | x in releases ::
              (x in MonthReleases(releases, current)) <==> (exists i :: 0 <= i < |g| && x in ReleasesForDate(releases, g[i]))
    ensures var g := MonthGrid(MakeFullYear(GetFullYear(current)), GetMonth(current));
            forall x, i, j | x in releases && 0 <= i < |g| && 0 <= j < |g| ::
              x in ReleasesForDate(releases, g[i]) && x in ReleasesForDate(releases, g[j]) ==> i == j
  {
    var g := MonthGrid(GetFullYear(current), GetMonth(current));
    forall x | x in releases
      ensures (x in MonthReleases(releases, current)) <==> (exists i :: 0 <= i < |g| && x in ReleasesForDate(releases, g[i]))
    {
      ReleaseInGrid(releases, current, x);
    }
    forall x, i, j | x in releases && 0 <= i < |g| && 0 <= j < |g|
                     && x in ReleasesForDate(releases, g[i]) && x in ReleasesForDate(releases, g[j])
      ensures i == j
    {
      ReleaseInOneCell(releases, current, x, i, j);
    }
  }

  /** A release shown in two cells of the month's grid is shown in one. */
  lemma ReleaseInOneCell(releases: seq<Release>, current: Date, x: Release, i: int, j: int)
    requires x in releases
    requires var g := MonthGrid(GetFullYear(current), GetMonth(current));
             0 <= i < |g| && 0 <= j < |g| && x in ReleasesForDate(releases, g[i]) && x in ReleasesForDate(releases, g[j])
    ensures i == j
  {
    MonthGridCovers(GetFullYear(current), GetMonth(current), x.date);
  }

  /** One release: it is in the month list exactly when some cell of the month's grid shows it. */
  lemma ReleaseInGrid(releases: seq<Release>, current: Date, x: Release)
    requires x in releases
    ensures var g := MonthGrid(GetFullYear(current), GetMonth(current));
            (x in MonthReleases(releases, current)) <==> (exists i :: 0 <= i < |g| && x in ReleasesForDate(releases, g[i]))
  {
    if InMonthOf(x, current) {
      InMonthReleaseInGrid(releases, current, x);
    } else {
      OtherMonthReleaseNotInGrid(releases, current, x);
    }
  }

  lemma InMonthReleaseInGrid(releases: seq<Release>, current: Date, x: Release)
    requires x in releases && InMonthOf(x, current)
    ensures var g := MonthGrid(GetFullYear(current), GetMonth(current));
            x in MonthReleases(releases, current) && exists i :: 0 <= i < |g| && x in ReleasesForDate(releases, g[i])
  {
    var y, m := GetFullYear(current), GetMonth(current);
    var g := MonthGrid(y, m);
    MonthGridDay(y, m, GetDate(x.date));
    var i := FirstWeekDay(y, m) + GetDate(x.date) - 1;
    assert SameDateString(x.date, g[i].value);
    assert x in multiset(ReleasesForDate(releases, g[i]));
    assert x in multiset(MonthReleases(releases, current));
  }

  lemma OtherMonthReleaseNotInGrid(releases: seq<Release>, current: Date, x: Release)
    requires x in releases && !InMonthOf(x, current)
    ensures var g := MonthGrid(GetFullYear(current), GetMonth(current));
            x !in MonthReleases(releases, current) && forall i :: 0 <= i < |g| ==> x !in ReleasesForDate(releases, g[i])
  {
    var y, m := GetFullYear(current), GetMonth(current);
    var g := MonthGrid(y, m);
    forall i | 0 <= i < |g| ensures x !in ReleasesForDate(releases, g[i]) {
      if g[i].Some? {
        MonthGridCovers(y, m, x.date);
      }
    }
    assert x !in multiset(MonthReleases(releases, current));
  }

  // ---------------------------------------------------------------------------------------
  // Month navigation.

  /** The year and month index that `setMonth(getMonth() + direction)` aims at. */
  function TargetMonth(current: Date, direction: int): (ym: (int, int))
    ensures 0 <= ym.1 < 12
  {
    (GetFullYear(current) + (GetMonth(current) + direction) / 12, (GetMonth(current) + direction) % 12)
  }

  /** One step forward or back is the next or previous month, with the year rolling over
      between December and January. */
  lemma TargetMonthSteps(current: Date)
    ensures TargetMonth(current, 1) == NextMonth(GetFullYear(current), GetMonth(current))
    ensures TargetMonth(current, -1) == PrevMonth(GetFullYear(current), GetMonth(current))
  {
  }

  /** navigateMonth: copies the current Date and calls setMonth(getMonth() + direction). The
      new Date keeps the time of day and has the day number MakeDay gives for the kept
      year and day of the month. */
  method NavigateMonth(currentDate: Date, direction: int) returns (next: Date)
    ensures next.ms == currentDate.ms
    ensures DayNumberOf(next.ymd) == MakeDay(GetFullYear(currentDate), GetMonth(currentDate) + direction, GetDate(currentDate))
  {
    var newDate := new DateObject(currentDate);
    newDate.SetMonth(GetMonth(currentDate) + direction);
    next := newDate.value;
    WithMonthDay(currentDate, GetMonth(currentDate) + direction);
  }

  /** What navigateMonth leaves: the target month with the same day when that month is long
      enough, and otherwise the overflow days counted into the month after it. */
  lemma NavigateMonthOutcome(current: Date, direction: int, next: Date)
    requires next.ms == current.ms
    requires DayNumberOf(next.ymd) == MakeDay(GetFullYear(current), GetMonth(current) + direction, GetDate(current))
    ensures var (ty, tm) := TargetMonth(current, direction);
            GetDate(current) <= DaysInMonth(ty, tm) ==> next.ymd == CivilDate(ty, tm, GetDate(current))
    ensures var (ty, tm) := TargetMonth(current, direction);
            var (ny, nm) := NextMonth(ty, tm);
            GetDate(current) > DaysInMonth(ty, tm) ==>
              next.ymd == CivilDate(ny, nm, GetDate(current) - DaysInMonth(ty, tm))
              && 1 <= GetDate(next) <= 3
  {
    MakeDayOutcome(GetFullYear(current), GetMonth(current) + direction, GetDate(current), next.ymd);
  }

  /** From 31 January 2025 the "next month" button shows March: setMonth(1) on the 31st
      overflows February 2025 by three days. */
  lemma NavigateMonthSkipsFebruary(current: Date, next: Date)
    requires current.ymd == CivilDate(2025, 0, 31)
    requires next.ms == current.ms
    requires DayNumberOf(next.ymd) == MakeDay(GetFullYear(current), GetMonth(current) + 1, GetDate(current))
    ensures next.ymd == CivilDate(2025, 2, 3)
    ensures GetMonth(next) != NextMonth(GetFullYear(current), GetMonth(current)).1
  {
    assert TargetMonth(current, 1) == (2025, 1);
    assert DaysInMonth(2025, 1) == 28;
    NavigateMonthOutcome(current, 1, next);
  }

  /** Month navigation that always lands in the neighbouring month: the day of the month is
      set to the 1st together with the month (`setMonth(getMonth() + direction, 1)`), so no
      day can overflow the target month. */
  method NavigateMonthFixed(currentDate: Date, direction: int) returns (next: Date)
    ensures next.ms == currentDate.ms
    ensures (GetFullYear(next), GetMonth(next)) == TargetMonth(currentDate, direction)
    ensures GetDate(next) == 1
  {
    var newDate := new DateObject(currentDate);
    newDate.SetMonthAndDate(GetMonth(currentDate) + direction, 1);
    next := newDate.value;
    WithMonthAndDateFirst(currentDate, GetMonth(currentDate) + direction);
  }

  /** Target months compose: moving by a and then by b is moving by a + b. */
  lemma TargetMonthAdditive(current: Date, a: int, moved: Date, b: int)
    requires (GetFullYear(moved), GetMonth(moved)) == TargetMonth(current, a)
    ensures TargetMonth(moved, b) == TargetMonth(current, a + b)
  {
    var m := GetMonth(current) + a;
    var q, r := m / 12, m % 12;
    assert m == 12 * q + r;
    assert GetMonth(moved) + b == r + b;
    assert m + b == 12 * q + (r + b);
    var q', r' := (r + b) / 12, (r + b) % 12;
    assert r + b == 12 * q' + r';
    assert m + b == 12 * (q + q') + r';
    assert (m + b) / 12 == q + q' && (m + b) % 12 == r';
  }

  /** With the fixed navigation, "next" then "previous" returns to the month shown before. */
  lemma FixedNavigationRoundTrip(current: Date, forward: Date, back: Date)
    requires (GetFullYear(forward), GetMonth(forward)) == TargetMonth(current, 1)
    requires (GetFullYear(back), GetMonth(back)) == TargetMonth(forward, -1)
    ensures GetFullYear(back) == GetFullYear(current) && GetMonth(back) == GetMonth(current)
  {
    TargetMonthAdditive(current, 1, forward, -1);
  }

  // ---------------------------------------------------------------------------------------
  // Colour lookup tables.

  const RarityColors: map<string, string> := map[
    "high" := "bg-red-100 border-red-300 text-red-800",
    "medium" := "bg-yellow-100 border-yellow-300 text-yellow-800",
    "low" := "bg-green-100 border-green-300 text-green-800"]

  const DefaultRarityColor: string := "bg-gray-100 border-gray-300 text-gray-800"

  /** getRarityColor: the listed rarities have their own class string, anything else grey. */
  function RarityColor(rarity: string): (cls: string)
    ensures rarity in RarityColors ==> cls == RarityColors[rarity]
    ensures rarity !in RarityColors ==> cls == DefaultRarityColor
  {
    match rarity
    case "high" => "bg-red-100 border-red-300 text-red-800"
    case "medium" => "bg-yellow-100 border-yellow-300 text-yellow-800"
    case "low" => "bg-green-100 border-green-300 text-green-800"
    case _ => DefaultRarityColor
  }

  const SportColors: map<string, string> := map[
    "Football" := "bg-orange-500",
    "Basketball" := "bg-purple-500",
    "Baseball" := "bg-blue-500",
    "Hockey" := "bg-red-500"]

  const DefaultSportColor: string := "bg-gray-500"

  /** getSportColor: the four listed sports have their own class string, anything else grey. */
  function SportColor(sport: string): (cls: string)
    ensures sport in SportColors ==> cls == SportColors[sport]
    ensures sport !in SportColors ==> cls == DefaultSportColor
  {
    match sport
    case "Football" => "bg-orange-500"
    case "Basketball" => "bg-purple-500"
    case "Baseball" => "bg-blue-500"
    case "Hockey" => "bg-red-500"
    case _ => DefaultSportColor
  }

  /** The colours tell the listed keys apart: two inputs share a colour only when they are
      the same listed key or both unlisted. */
  lemma ColorsDistinguishKeys(a: string, b: string)
    ensures RarityColor(a) == RarityColor(b) <==> a == b || (a !in RarityColors && b !in RarityColors)
    ensures SportColor(a) == SportColor(b) <==> a == b || (a !in SportColors && b !in SportColors)
  {
  }
}
