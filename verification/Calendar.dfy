/** Civil dates as JavaScript's Date keeps them, time of day and time zones aside. */
module CivilDates {
  /** `month` counts from 0, `day` from 1. */
  datatype Date = Date(year: int, month: int, day: int) {
    predicate Valid() {
      0 <= month < 12 && 1 <= day <= DaysInMonth(year, month)
    }
  }

  const DAYS_IN_MONTH := [31, 28, 31, 30, 31, 30, 31, 31, 30, 31, 30, 31]

  predicate IsLeap(year: int) {
    year % 4 == 0 && (year % 100 != 0 || year % 400 == 0)
  }

  /** `getDaysInMonth` */
  function DaysInMonth(year: int, month: int): (n: int)
    requires 0 <= month < 12
    ensures 28 <= n <= 31
  {
    if month == 1 && IsLeap(year) then 29 else DAYS_IN_MONTH[month]
  }

  /** April, June, September and November have 30 days, February 28 or in a leap year 29, the others 31. */
  lemma MonthLengths(year: int, month: int)
    requires 0 <= month < 12
    ensures DaysInMonth(year, month)
         == if month == 3 || month == 5 || month == 8 || month == 10 then 30
            else if month != 1 then 31
            else if year % 400 == 0 || (year % 4 == 0 && year % 100 != 0) then 29
            else 28
  {
    FourCenturies(year);
  }

  lemma FourCenturies(year: int)
    ensures year % 400 == 0 ==> year % 4 == 0
  {
    if year % 400 == 0 {
      var q := year / 400;
      assert year == 4 * (100 * q);
    }
  }

  /** The months from March on as they repeat after five: an independent count of the days before each. */
  lemma {:induction false} DaysBeforeMonthCounts(year: int, month: int)
    requires 2 <= month < 12
    ensures DaysBeforeMonth(year, month) == 31 + DaysInMonth(year, 1) + (153 * (month - 2) + 2) / 5
    decreases month
  {
    if month > 2 {
      DaysBeforeMonthCounts(year, month - 1);
    } else {
      assert DaysBeforeMonth(year, 1) == DaysBeforeMonth(year, 0) + 31;
    }
  }

  function DaysBeforeYear(year: int): int {
    365 * year + (year - 1) / 4 - (year - 1) / 100 + (year - 1) / 400
  }

  function DaysBeforeMonth(year: int, month: int): int
    requires 0 <= month <= 12
    decreases month
  {
    if month == 0 then 0 else DaysBeforeMonth(year, month - 1) + DaysInMonth(year, month - 1)
  }

  /** The number of the day in an unbroken count of days. */
  function DayNumber(d: Date): int
    requires d.Valid()
  {
    DaysBeforeYear(d.year) + DaysBeforeMonth(d.year, d.month) + d.day
  }

  /** `getDay()`: 0 for Sunday to 6 for Saturday. */
  function Weekday(n: int): (w: int)
    ensures 0 <= w < 7
  {
    (n + 6) % 7
  }

  /** An anchor to the calendar of the world: January 1 of 1970 was a Thursday. */
  lemma EpochIsThursday()
    ensures Weekday(DayNumber(Date(1970, 0, 1))) == 4
  {
  }

  lemma MonthStarts(year: int)
    ensures DaysBeforeMonth(year, 12) == if IsLeap(year) then 366 else 365
  {
    var march := 31 + DaysInMonth(year, 1);
    assert DaysBeforeMonth(year, 1) == 31;
    assert DaysBeforeMonth(year, 2) == march;
    assert DaysBeforeMonth(year, 3) == march + 31;
    assert DaysBeforeMonth(year, 4) == march + 61;
    assert DaysBeforeMonth(year, 5) == march + 92;
    assert DaysBeforeMonth(year, 6) == march + 122;
    assert DaysBeforeMonth(year, 7) == march + 153;
    assert DaysBeforeMonth(year, 8) == march + 184;
    assert DaysBeforeMonth(year, 9) == march + 214;
    assert DaysBeforeMonth(year, 10) == march + 245;
    assert DaysBeforeMonth(year, 11) == march + 275;
  }

  lemma YearLength(year: int)
    ensures DaysBeforeYear(year + 1) - DaysBeforeYear(year) == if IsLeap(year) then 366 else 365
    ensures DaysBeforeMonth(year, 12) == if IsLeap(year) then 366 else 365
  {
    MonthStarts(year);
    QuotientStep(year, 4);
    QuotientStep(year, 100);
    QuotientStep(year, 400);
  }

  lemma QuotientStep(year: int, k: int)
    requires k == 4 || k == 100 || k == 400
    ensures year / k - (year - 1) / k == if year % k == 0 then 1 else 0
  {
  }

  lemma {:induction false} MonthsGrow(year: int, a: int, b: int)
    requires 0 <= a < b <= 12
    ensures DaysBeforeMonth(year, a) + DaysInMonth(year, a) <= DaysBeforeMonth(year, b)
    decreases b
  {
    if a < b - 1 {
      MonthsGrow(year, a, b - 1);
    }
  }

  lemma {:induction false} YearsGrow(a: int, b: int)
    requires a < b
    ensures DaysBeforeYear(a) + 365 <= DaysBeforeYear(a + 1) <= DaysBeforeYear(b)
    decreases b - a
  {
    YearLength(a);
    if a + 1 < b {
      YearsGrow(a + 1, b);
    }
  }

  /** A date lies within its year's span of day numbers. */
  lemma WithinYear(d: Date)
    requires d.Valid()
    ensures DaysBeforeYear(d.year) < DayNumber(d) <= DaysBeforeYear(d.year + 1)
  {
    YearLength(d.year);
    MonthsGrow(d.year, d.month, 12);
    if d.month > 0 {
      MonthsGrow(d.year, 0, d.month);
    }
  }

  /** The day number determines the date. */
  lemma DayNumberInjective(d: Date, e: Date)
    requires d.Valid() && e.Valid() && DayNumber(d) == DayNumber(e)
    ensures d == e
  {
    WithinYear(d);
    WithinYear(e);
    if d.year < e.year {
      YearsGrow(d.year, e.year);
    } else if e.year < d.year {
      YearsGrow(e.year, d.year);
    } else if d.month < e.month {
      MonthsGrow(d.year, d.month, e.month);
    } else if e.month < d.month {
      MonthsGrow(d.year, e.month, d.month);
    }
  }

  function NextMonth(d: Date): Date {
    if d.month < 11 then Date(d.year, d.month + 1, 1) else Date(d.year + 1, 0, 1)
  }

  function PreviousMonth(d: Date): Date {
    if d.month > 0 then Date(d.year, d.month - 1, 1) else Date(d.year - 1, 11, 1)
  }

  /** `setDate(k)`: a day before the first or past the last of the month moves to other months. */
  function SetDate(d: Date, k: int): (r: Date)
    requires d.Valid()
    ensures r.Valid()
    decreases k < 1, if k < 1 then 1 - k else k
  {
    if k < 1 then
      var p := PreviousMonth(d);
      SetDate(p, k + DaysInMonth(p.year, p.month))
    else if k > DaysInMonth(d.year, d.month) then
      SetDate(NextMonth(d), k - DaysInMonth(d.year, d.month))
    else d.(day := k)
  }

  lemma MonthStart(d: Date)
    requires d.Valid()
    ensures DayNumber(NextMonth(d)) == DayNumber(d.(day := 1)) + DaysInMonth(d.year, d.month)
  {
    if d.month == 11 {
      YearLength(d.year);
    }
  }

  /** Whatever the argument, `setDate` lands that many days after the end of the month before. */
  lemma {:induction false} SetDateNumber(d: Date, k: int)
    requires d.Valid()
    ensures DayNumber(SetDate(d, k)) == DayNumber(d) - d.day + k
    decreases k < 1, if k < 1 then 1 - k else k
  {
    if k < 1 {
      var p := PreviousMonth(d);
      MonthStart(p);
      assert NextMonth(p) == d.(day := 1);
      SetDateNumber(p, k + DaysInMonth(p.year, p.month));
    } else if k > DaysInMonth(d.year, d.month) {
      MonthStart(d);
      SetDateNumber(NextMonth(d), k - DaysInMonth(d.year, d.month));
    }
  }
}

/** Week numbers as section 2.2.10 of ISO 8601:2004 defines them. */
module IsoWeeks {
  import opened CivilDates

  /** The Monday of the week a day lies in. */
  function MondayOf(n: int): (m: int)
    ensures m <= n < m + 7
  {
    n - (n + 5) % 7
  }

  /** The first Thursday on or after a day. */
  function ThursdayFrom(n: int): (t: int)
    ensures n <= t < n + 7
  {
    n + (5 - n) % 7
  }

  lemma WeekdaysFound(n: int)
    ensures Weekday(MondayOf(n)) == 1 && Weekday(ThursdayFrom(n)) == 4
  {
  }

  /** The Monday of week 1: the week that holds the first Thursday of the year. */
  function FirstMonday(year: int): int {
    MondayOf(ThursdayFrom(DaysBeforeYear(year) + 1))
  }

  /** Mondays `monday` that are week `week` of a year with first Monday `first`, the next year's being `next`. */
  predicate IsWeek(monday: int, first: int, next: int, week: int) {
    week >= 1 && monday == first + 7 * (week - 1) && monday < next
  }

  /** Day `n` is in week `week` of ISO year `year`: that many weeks from week 1, and before the next year's. */
  predicate InIsoWeek(n: int, year: int, week: int) {
    IsWeek(MondayOf(n), FirstMonday(year), FirstMonday(year + 1), week)
  }

  lemma WeeksApart(a: int, b: int) returns (q: int)
    requires Weekday(a) == Weekday(b)
    ensures a - b == 7 * q
  {
    q := (a + 6) / 7 - (b + 6) / 7;
  }

  lemma MondayOfThursday(n: int)
    requires Weekday(n) == 4
    ensures MondayOf(n) == n - 3
  {
  }

  /** The first Monday in terms of the first Thursday. */
  lemma FirstMondayIs(year: int)
    ensures FirstMonday(year) == ThursdayFrom(DaysBeforeYear(year) + 1) - 3 && Weekday(FirstMonday(year)) == 1
  {
    WeekdaysFound(DaysBeforeYear(year) + 1);
    MondayOfThursday(ThursdayFrom(DaysBeforeYear(year) + 1));
    WeekdaysFound(ThursdayFrom(DaysBeforeYear(year) + 1));
  }

  /** A week belongs to the year its Thursday lies in. */
  lemma ThursdayDecides(thursday: int, year: int)
    requires Weekday(thursday) == 4 && DaysBeforeYear(year) < thursday <= DaysBeforeYear(year + 1)
    ensures var week := (thursday - DaysBeforeYear(year) - 1) / 7 + 1;
            InIsoWeek(thursday, year, week) && 1 <= week <= 53
  {
    YearLength(year);
    MondayOfThursday(thursday);
    var first := FirstThursday(year);
    var next := FirstThursday(year + 1);
    var q := ThursdaysApart(thursday, first);
    CountWeeks(thursday, DaysBeforeYear(year), DaysBeforeYear(year + 1), first, next, q);
  }

  lemma FirstThursday(year: int) returns (first: int)
    ensures DaysBeforeYear(year) < first <= DaysBeforeYear(year) + 7
    ensures Weekday(first) == 4 && FirstMonday(year) == first - 3
  {
    first := ThursdayFrom(DaysBeforeYear(year) + 1);
    WeekdaysFound(DaysBeforeYear(year) + 1);
    MondayOfThursday(first);
  }

  lemma ThursdaysApart(a: int, b: int) returns (q: int)
    requires Weekday(a) == 4 && Weekday(b) == 4
    ensures a - b == 7 * q
  {
    q := WeeksApart(a, b);
  }

  lemma CountWeeks(thursday: int, before: int, end: int, first: int, next: int, q: int)
    requires before < thursday <= end <= before + 366 && before < first <= before + 7 && end < next
    requires thursday - first == 7 * q
    ensures var week := (thursday - before - 1) / 7 + 1;
            IsWeek(thursday - 3, first - 3, next - 3, week) && 1 <= week <= 53
  {
    QuotientBySeven(first - before - 1, q);
  }

  lemma QuotientBySeven(r: int, q: int)
    requires 0 <= r < 7
    ensures (r + 7 * q) / 7 == q
  {
  }

  lemma FirstMondaysGrow(a: int, b: int)
    requires a < b
    ensures FirstMonday(a) < FirstMonday(b)
  {
    YearsGrow(a, b);
    FirstMondayIs(a);
    FirstMondayIs(b);
  }

  /** The ISO year and week of a day are unique. */
  lemma IsoWeekUnique(n: int, year: int, week: int, year': int, week': int)
    requires InIsoWeek(n, year, week) && InIsoWeek(n, year', week')
    ensures year == year' && week == week'
  {
    if year < year' {
      if year + 1 < year' {
        FirstMondaysGrow(year + 1, year');
      }
    } else if year' < year {
      if year' + 1 < year {
        FirstMondaysGrow(year' + 1, year);
      }
    }
  }

  /** The next week has the next number, or is week 1 of the next year. */
  lemma NextWeek(n: int, year: int, week: int, year': int, week': int)
    requires InIsoWeek(n, year, week) && InIsoWeek(n + 7, year', week')
    ensures (year' == year && week' == week + 1) || (year' == year + 1 && week' == 1)
  {
    var next, weekThere := WeekAfter(n, year, week);
    IsoWeekUnique(n + 7, next, weekThere, year', week');
  }

  lemma WeekAfterMonday(monday: int, first: int, next: int, afterNext: int, week: int, q: int)
    requires IsWeek(monday, first, next, week) && next < afterNext && next - monday == 7 * q
    ensures IsWeek(monday + 7, first, next, week + 1) || IsWeek(monday + 7, next, afterNext, 1)
  {
  }

  lemma WeekAfter(n: int, year: int, week: int) returns (next: int, weekThere: int)
    requires InIsoWeek(n, year, week)
    ensures InIsoWeek(n + 7, next, weekThere)
    ensures (next == year && weekThere == week + 1) || (next == year + 1 && weekThere == 1)
  {
    MondayMoves(n);
    FirstMondaysGrow(year + 1, year + 2);
    FirstMondayIs(year + 1);
    WeekdaysFound(n);
    var q := WeeksApart(FirstMonday(year + 1), MondayOf(n));
    WeekAfterMonday(MondayOf(n), FirstMonday(year), FirstMonday(year + 1), FirstMonday(year + 2), week, q);
    if MondayOf(n) + 7 < FirstMonday(year + 1) {
      next, weekThere := year, week + 1;
    } else {
      next, weekThere := year + 1, 1;
    }
  }

  lemma MondayMoves(n: int)
    ensures MondayOf(n + 7) == MondayOf(n) + 7
  {
  }

  /** `getDay() || 7` */
  function IsoWeekday(n: int): (day: int)
    ensures 1 <= day <= 7
  {
    if Weekday(n) == 0 then 7 else Weekday(n)
  }

  /** The Thursday of the week of any day, as the code finds it. */
  lemma ThursdayOfWeek(n: int)
    ensures var thursday := n + 4 - IsoWeekday(n);
            Weekday(thursday) == 4 && MondayOf(thursday) == MondayOf(n)
  {
    var q, w := (n + 6) / 7, Weekday(n);
    if w == 0 {
      Remainder(q - 1, 4);
      Remainder(q - 1, 6);
      Remainder(q - 1, 3);
    } else {
      Remainder(q, 4);
      Remainder(q, w - 1);
      Remainder(q, 3);
    }
  }

  lemma Remainder(q: int, r: int)
    requires 0 <= r < 7
    ensures (7 * q + r) % 7 == r
  {
  }

  /** The number of the ISO week of a day, whatever the year it counts in. */
  ghost predicate HasIsoWeek(n: int, week: int) {
    exists year :: InIsoWeek(n, year, week)
  }

  /** Seven days on, the number goes up by one or starts again. */
  lemma NextWeekNumber(n: int, week: int, week': int)
    requires HasIsoWeek(n, week) && HasIsoWeek(n + 7, week')
    ensures week' == week + 1 || week' == 1
  {
    var year :| InIsoWeek(n, year, week);
    var year' :| InIsoWeek(n + 7, year', week');
    NextWeek(n, year, week, year', week');
  }

  /** `getISO8601WeekNumber` */
  method GetIso8601WeekNumber(date: Date) returns (week: int)
    requires date.Valid()
    ensures HasIsoWeek(DayNumber(date), week) && 1 <= week <= 53
  {
    var checkDate := SetDate(date, date.day + 4 - IsoWeekday(DayNumber(date)));
    SetDateNumber(date, date.day + 4 - IsoWeekday(DayNumber(date)));
    WeekOfThursday(checkDate, DayNumber(date));
    FirstOfJanuary(checkDate);
    var time := DayNumber(checkDate);
    checkDate := Date(checkDate.year, 0, checkDate.day);
    checkDate := SetDate(checkDate, 1);
    week := (time - DayNumber(checkDate)) / 7 + 1;
  }

  lemma FirstOfJanuary(date: Date)
    requires date.Valid()
    ensures Date(date.year, 0, date.day).Valid()
    ensures SetDate(Date(date.year, 0, date.day), 1) == Date(date.year, 0, 1)
  {
  }

  lemma WeekOfThursday(thursday: Date, n: int)
    requires thursday.Valid() && DayNumber(thursday) == n + 4 - IsoWeekday(n)
    ensures var week := (DayNumber(thursday) - DayNumber(Date(thursday.year, 0, 1))) / 7 + 1;
            HasIsoWeek(n, week) && 1 <= week <= 53
  {
    ThursdayOfWeek(n);
    WithinYear(thursday);
    ThursdayDecides(DayNumber(thursday), thursday.year);
    assert InIsoWeek(n, thursday.year, (DayNumber(thursday) - DayNumber(Date(thursday.year, 0, 1))) / 7 + 1);
  }
}

/** The month view of the day picker. */
module DayPicker {
  import opened CivilDates
  import opened IsoWeeks

  /** `secondary`: the day is shown but not of the month. */
  datatype Cell = Cell(date: Date, secondary: bool)

  /** Consecutive days. */
  ghost predicate Consecutive(dates: seq<Date>, first: int) {
    forall i :: 0 <= i < |dates| ==> dates[i].Valid() && DayNumber(dates[i]) == first + i
  }

  method GetDates(startDate: Date, n: nat) returns (dates: seq<Date>)
    requires startDate.Valid()
    ensures |dates| == n && Consecutive(dates, DayNumber(startDate))
  {
    var current := startDate;
    dates := [];
    while |dates| < n
      invariant |dates| <= n && Consecutive(dates, DayNumber(startDate))
      invariant current.Valid() && DayNumber(current) == DayNumber(startDate) + |dates|
    {
      dates := dates + [current];
      SetDateNumber(current, current.day + 1);
      current := SetDate(current, current.day + 1);
    }
  }

  /** The first cell: the starting day of the week that holds the first of the month. */
  method FirstDate(year: int, month: int, startingDay: int) returns (firstDate: Date)
    requires 0 <= month < 12 && 0 <= startingDay < 7
    ensures firstDate.Valid()
    ensures Weekday(DayNumber(firstDate)) == startingDay
    ensures DayNumber(Date(year, month, 1)) - 7 < DayNumber(firstDate) <= DayNumber(Date(year, month, 1))
  {
    var firstDayOfMonth := Date(year, month, 1);
    var difference := startingDay - Weekday(DayNumber(firstDayOfMonth));
    var numDisplayedFromPreviousMonth := if difference > 0 then 7 - difference else -difference;
    firstDate := firstDayOfMonth;
    if numDisplayedFromPreviousMonth > 0 {
      SetDateNumber(firstDate, -numDisplayedFromPreviousMonth + 1);
      firstDate := SetDate(firstDate, -numDisplayedFromPreviousMonth + 1);
    }
    WeekdayBack(DayNumber(firstDayOfMonth), numDisplayedFromPreviousMonth, startingDay);
  }

  lemma WeekdayBack(n: int, back: int, startingDay: int)
    requires 0 <= startingDay < 7
    requires var difference := startingDay - Weekday(n); back == if difference > 0 then 7 - difference else -difference
    ensures 0 <= back < 7 && Weekday(n - back) == startingDay
  {
  }

  /** A cell of the view is in the month exactly when its month has the same name. */
  lemma SameMonthSameYear(d: Date, year: int, month: int)
    requires d.Valid() && 0 <= month < 12 && d.month == month
    requires DayNumber(Date(year, month, 1)) - 7 < DayNumber(d) < DayNumber(Date(year, month, 1)) + 42
    ensures d.year == year
  {
    WithinYear(d);
    WithinYear(Date(year, month, 1));
    if d.year < year {
      YearsGrow(d.year, year);
      SameMonthStarts(d.year, year, month);
    } else if d.year > year {
      YearsGrow(year, d.year);
      SameMonthStarts(year, d.year, month);
    }
  }

  lemma {:induction false} SameMonthStarts(a: int, b: int, month: int)
    requires 0 <= month <= 12
    ensures -1 <= DaysBeforeMonth(b, month) - DaysBeforeMonth(a, month) <= 1
    ensures month <= 1 ==> DaysBeforeMonth(b, month) == DaysBeforeMonth(a, month)
    ensures month >= 2 ==>
              DaysBeforeMonth(b, month) - DaysBeforeMonth(a, month) == DaysInMonth(b, 1) - DaysInMonth(a, 1)
    decreases month
  {
    if month > 0 {
      SameMonthStarts(a, b, month - 1);
    }
  }

  /** Six weeks of consecutive days. */
  ghost predicate SixWeeks(days: seq<Cell>) {
    && |days| == 42 && days[0].date.Valid()
    && forall i :: 0 <= i < 42 ==> days[i].date.Valid() && DayNumber(days[i].date) == DayNumber(days[0].date) + i
  }

  /** What the view shows: six weeks from the starting day on, holding each day of the month once. */
  ghost predicate ShowsMonth(days: seq<Cell>, year: int, month: int, startingDay: int)
    requires 0 <= month < 12
  {
    && SixWeeks(days) && Weekday(DayNumber(days[0].date)) == startingDay
    && (forall i :: 0 <= i < 42 ==>
          (days[i].secondary <==> !(days[i].date.year == year && days[i].date.month == month)))
    && (forall day :: 1 <= day <= DaysInMonth(year, month) ==> ShownOnce(days, Date(year, month, day)))
  }

  ghost predicate ShownOnce(days: seq<Cell>, date: Date) {
    exists i :: 0 <= i < |days| && days[i].date == date
                && forall j :: 0 <= j < |days| && j != i ==> days[j].date != date
  }

  /** The first part of `_refreshView`: the cells of the month. */
  method MonthCells(year: int, month: int, startingDay: int) returns (days: seq<Cell>)
    requires 0 <= month < 12 && 0 <= startingDay < 7
    ensures ShowsMonth(days, year, month, startingDay)
  {
    var firstDate := FirstDate(year, month, startingDay);
    var dates := GetDates(firstDate, 42);
    days := [];
    for i := 0 to 42
      invariant |days| == i
      invariant forall j :: 0 <= j < i ==> days[j] == Cell(dates[j], dates[j].month != month)
    {
      days := days + [Cell(dates[i], dates[i].month != month)];
    }
    assert days[0].date == dates[0] && DayNumber(dates[0]) == DayNumber(firstDate);
    MonthShown(days, year, month, startingDay);
  }

  function ThursdayIndex(startingDay: int): (t: int)
    requires 0 <= startingDay < 7
    ensures 0 <= t < 7
  {
    (4 + 7 - startingDay) % 7
  }

  /** The Thursday of row `r` lies in the ISO week with this number. */
  ghost predicate RowHasWeek(days: seq<Cell>, r: int, startingDay: int, week: int)
    requires SixWeeks(days) && 0 <= r < 6 && 0 <= startingDay < 7
  {
    var thursday := DayNumber(days[7 * r + ThursdayIndex(startingDay)].date);
    Weekday(thursday) == 4 && 1 <= week <= 53 && HasIsoWeek(thursday, week)
  }

  /** The second part of `_refreshView`: the number of each row of seven cells. */
  method WeekNumbers(days: seq<Cell>, startingDay: int) returns (weekNumbers: seq<int>)
    requires SixWeeks(days) && 0 <= startingDay < 7 && Weekday(DayNumber(days[0].date)) == startingDay
    ensures |weekNumbers| == 6 && forall r :: 0 <= r < 6 ==> RowHasWeek(days, r, startingDay, weekNumbers[r])
  {
    var thursdayIndex := ThursdayIndex(startingDay);
    weekNumbers := [];
    for curWeek := 0 to 6
      invariant |weekNumbers| == curWeek
      invariant forall r :: 0 <= r < curWeek ==> RowHasWeek(days, r, startingDay, weekNumbers[r])
    {
      RowThursday(days, startingDay, curWeek);
      var thursday := days[7 * curWeek + thursdayIndex].date;
      var week := GetIso8601WeekNumber(thursday);
      weekNumbers := weekNumbers + [week];
    }
  }

  lemma RowThursday(days: seq<Cell>, startingDay: int, r: int)
    requires SixWeeks(days) && 0 <= startingDay < 7 && Weekday(DayNumber(days[0].date)) == startingDay && 0 <= r < 6
    ensures var thursday := days[7 * r + ThursdayIndex(startingDay)].date;
            thursday.Valid() && Weekday(DayNumber(thursday)) == 4
  {
    ThursdayColumn(DayNumber(days[0].date), startingDay, r);
  }

  lemma ThursdayColumn(first: int, startingDay: int, r: int)
    requires 0 <= startingDay < 7 && Weekday(first) == startingDay
    ensures Weekday(first + (7 * r + ThursdayIndex(startingDay))) == 4
  {
  }

  /** `_refreshView`: the cells of the month of the active date, and the number of each week row. */
  method RefreshView(activeDate: Date, startingDay: int) returns (days: seq<Cell>, weekNumbers: seq<int>)
    requires activeDate.Valid() && 0 <= startingDay < 7
    ensures ShowsMonth(days, activeDate.year, activeDate.month, startingDay)
    ensures |weekNumbers| == 6
    ensures forall r :: 0 <= r < 6 ==> RowHasWeek(days, r, startingDay, weekNumbers[r])
    ensures forall r :: 0 <= r < 5 ==> weekNumbers[r + 1] == weekNumbers[r] + 1 || weekNumbers[r + 1] == 1
  {
    days := MonthCells(activeDate.year, activeDate.month, startingDay);
    weekNumbers := WeekNumbers(days, startingDay);
    forall r | 0 <= r < 5 ensures weekNumbers[r + 1] == weekNumbers[r] + 1 || weekNumbers[r + 1] == 1 {
      RowsFollow(days, r, startingDay, weekNumbers[r], weekNumbers[r + 1]);
    }
  }

  lemma RowsFollow(days: seq<Cell>, r: int, startingDay: int, week: int, week': int)
    requires SixWeeks(days) && 0 <= r < 5 && 0 <= startingDay < 7
    requires RowHasWeek(days, r, startingDay, week) && RowHasWeek(days, r + 1, startingDay, week')
    ensures week' == week + 1 || week' == 1
  {
    var t := ThursdayIndex(startingDay);
    var thursday := DayNumber(days[7 * r + t].date);
    assert DayNumber(days[7 * (r + 1) + t].date) == thursday + 7;
    NextWeekNumber(thursday, week, week');
  }

  lemma MonthShown(days: seq<Cell>, year: int, month: int, startingDay: int)
    requires 0 <= month < 12 && SixWeeks(days)
    requires forall i :: 0 <= i < 42 ==> days[i].secondary == (days[i].date.month != month)
    requires Weekday(DayNumber(days[0].date)) == startingDay
    requires DayNumber(Date(year, month, 1)) - 7 < DayNumber(days[0].date) <= DayNumber(Date(year, month, 1))
    ensures ShowsMonth(days, year, month, startingDay)
  {
    forall i | 0 <= i < 42 && days[i].date.month == month ensures days[i].date.year == year {
      SameMonthSameYear(days[i].date, year, month);
    }
    forall day | 1 <= day <= DaysInMonth(year, month) ensures ShownOnce(days, Date(year, month, day)) {
      var date := Date(year, month, day);
      var i := DayNumber(date) - DayNumber(days[0].date);
      DayNumberInjective(days[i].date, date);
      assert forall j :: 0 <= j < 42 && j != i ==> DayNumber(days[j].date) != DayNumber(date);
    }
  }
}
