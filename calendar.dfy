/**
 * The proleptic Gregorian calendar as Go's `time` package computes it, reduced
 * to what the scheduler uses: month lengths, a day number, `AddDate`
 * normalisation and the weekday.  Time of day and time zones are not modelled.
 */
module Calendar {

  /** A calendar day. */
  datatype Date = Date(year: int, month: int, day: int)

  predicate IsLeapYear(y: int) {
    y % 4 == 0 && (y % 100 != 0 || y % 400 == 0)
  }

  function DaysInMonth(y: int, m: int): (n: int)
    requires 1 <= m <= 12
    ensures 28 <= n <= 31
  {
    if m == 2 then (if IsLeapYear(y) then 29 else 28)
    else if m == 4 || m == 6 || m == 9 || m == 11 then 30
    else 31
  }

  /** A real calendar day: the only kind of date a Go `time.Time` holds. */
  predicate ValidDate(d: Date) {
    1 <= d.month <= 12 && 1 <= d.day <= DaysInMonth(d.year, d.month)
  }

  function YearLength(y: int): int {
    if IsLeapYear(y) then 366 else 365
  }

  /** Days of year `y` before the first of month `m`. */
  function DaysBeforeMonth(y: int, m: int): int
    requires 1 <= m <= 12
  {
    var common :=
      match m
      case 1 => 0
      case 2 => 31
      case 3 => 59
      case 4 => 90
      case 5 => 120
      case 6 => 151
      case 7 => 181
      case 8 => 212
      case 9 => 243
      case 10 => 273
      case 11 => 304
      case _ => 334;
    common + if m > 2 && IsLeapYear(y) then 1 else 0
  }

  /** Day number of January 1 of year `y`, counted year by year from January 1
      of year 0, which is day 0. */
  function YearStart(y: int): int
    decreases if y < 0 then -y else y
  {
    if y == 0 then 0
    else if y > 0 then YearStart(y - 1) + YearLength(y - 1)
    else YearStart(y + 1) - YearLength(y)
  }

  function DayNumber(d: Date): int
    requires 1 <= d.month <= 12
  {
    YearStart(d.year) + DaysBeforeMonth(d.year, d.month) + d.day - 1
  }

  lemma YearStartStep(y: int)
    ensures YearStart(y + 1) == YearStart(y) + YearLength(y)
  {
  }

  /** Leap years in [0, y) for y >= 0, by the Gregorian rule; floor division
      keeps the count consistent for negative years. */
  function LeapYearsBefore(y: int): int {
    (y + 3) / 4 - (y + 99) / 100 + (y + 399) / 400
  }

  lemma LeapYearsBeforeStep(y: int)
    ensures LeapYearsBefore(y + 1) == LeapYearsBefore(y) + (if IsLeapYear(y) then 1 else 0)
  {
    assert (y + 4) / 4 == (y + 3) / 4 + (if y % 4 == 0 then 1 else 0);
    assert (y + 100) / 100 == (y + 99) / 100 + (if y % 100 == 0 then 1 else 0);
    assert (y + 400) / 400 == (y + 399) / 400 + (if y % 400 == 0 then 1 else 0);
  }

  /** The closed form of the year-by-year count: 365 days a year plus one per
      leap year before `y`. */
  lemma {:induction false} YearStartClosedForm(y: int)
    ensures YearStart(y) == 365 * y + LeapYearsBefore(y)
    decreases if y < 0 then -y else y
  {
    if y > 0 {
      YearStartClosedForm(y - 1);
      LeapYearsBeforeStep(y - 1);
    } else if y < 0 {
      YearStartClosedForm(y + 1);
      LeapYearsBeforeStep(y);
    }
  }

  lemma DaysBeforeNextMonth(y: int, m: int)
    requires 1 <= m < 12
    ensures DaysBeforeMonth(y, m + 1) == DaysBeforeMonth(y, m) + DaysInMonth(y, m)
  {
  }

  lemma DaysBeforeMonthGrows(y: int, m1: int, m2: int)
    requires 1 <= m1 < m2 <= 12
    ensures DaysBeforeMonth(y, m1) + DaysInMonth(y, m1) <= DaysBeforeMonth(y, m2)
  {
  }

  lemma {:induction false} YearStartGrows(y1: int, y2: int)
    requires y1 < y2
    ensures YearStart(y1) + YearLength(y1) <= YearStart(y2)
    decreases y2 - y1
  {
    YearStartStep(y2 - 1);
    if y1 < y2 - 1 {
      YearStartGrows(y1, y2 - 1);
    }
  }

  /** The day after `d`, stepping over month and year ends. */
  function NextDay(d: Date): (r: Date)
    requires ValidDate(d)
    ensures ValidDate(r) && DayNumber(r) == DayNumber(d) + 1
  {
    if d.day < DaysInMonth(d.year, d.month) then Date(d.year, d.month, d.day + 1)
    else if d.month < 12 then Date(d.year, d.month + 1, 1)
    else YearStartStep(d.year); Date(d.year + 1, 1, 1)
  }

  /** `t.AddDate(0, 0, n)` for n >= 0: n steps of one day. */
  function AddDays(d: Date, n: nat): (r: Date)
    requires ValidDate(d)
    ensures ValidDate(r) && DayNumber(r) == DayNumber(d) + n
    decreases n
  {
    if n == 0 then d else AddDays(NextDay(d), n - 1)
  }

  /** Lexicographic order of (year, month, day): the order of the calendar. */
  predicate Precedes(a: Date, b: Date) {
    a.year < b.year
    || (a.year == b.year && (a.month < b.month || (a.month == b.month && a.day < b.day)))
  }

  /** The same month and day one year later is 365 or 366 day numbers on. */
  lemma SameDayNextYear(y: int, m: int, d: int)
    requires 1 <= m <= 12
    ensures 365 <= DayNumber(Date(y + 1, m, d)) - DayNumber(Date(y, m, d)) <= 366
  {
    YearStartStep(y);
    assert IsLeapYear(y + 1) ==> !IsLeapYear(y);
  }

  /** Any month and day every year has comes round within 366 days after `d`. */
  lemma NextOccurrence(d: Date, month: int, day: int) returns (t: Date)
    requires ValidDate(d) && 1 <= month <= 12 && 1 <= day <= 28
    ensures ValidDate(t) && t.month == month && t.day == day
    ensures DayNumber(d) < DayNumber(t) <= DayNumber(d) + 366
  {
    t := Date(d.year, month, day);
    DayNumberWithinYear(d);
    DayNumberWithinYear(t);
    if DayNumber(t) <= DayNumber(d) {
      SameDayNextYear(d.year, month, day);
      YearStartStep(d.year);
      t := Date(d.year + 1, month, day);
      DayNumberWithinYear(t);
    }
  }

  lemma DayNumberWithinYear(d: Date)
    requires ValidDate(d)
    ensures YearStart(d.year) <= DayNumber(d) < YearStart(d.year) + YearLength(d.year)
  {
    if d.month < 12 {
      DaysBeforeMonthGrows(d.year, d.month, 12);
    }
  }

  /** Day numbers follow the calendar order. */
  lemma DayNumberFollowsCalendar(a: Date, b: Date)
    requires ValidDate(a) && ValidDate(b)
    ensures Precedes(a, b) <==> DayNumber(a) < DayNumber(b)
    ensures a == b <==> DayNumber(a) == DayNumber(b)
  {
    DayNumberWithinYear(a);
    DayNumberWithinYear(b);
    if a.year < b.year {
      YearStartGrows(a.year, b.year);
    } else if b.year < a.year {
      YearStartGrows(b.year, a.year);
    } else if a.month < b.month {
      DaysBeforeMonthGrows(a.year, a.month, b.month);
    } else if b.month < a.month {
      DaysBeforeMonthGrows(a.year, b.month, a.month);
    }
  }

  /** Adding days in two steps is adding their sum. */
  lemma AddDaysAdditive(d: Date, m: nat, n: nat)
    requires ValidDate(d)
    ensures AddDays(AddDays(d, m), n) == AddDays(d, m + n)
  {
    DayNumberFollowsCalendar(AddDays(AddDays(d, m), n), AddDays(d, m + n));
  }

  /** `t.AddDate(years, months, 0)`: normalise the month into the year, then add
      day - 1 days to the first of that month, so an overflowing day rolls
      into the next month. */
  function AddYearsMonths(d: Date, years: int, months: int): (r: Date)
    requires ValidDate(d)
    ensures ValidDate(r)
  {
    var total := (d.year + years) * 12 + (d.month - 1) + months;
    AddDays(Date(total / 12, total % 12 + 1, 1), d.day - 1)
  }

  /** Year of the month reached by `AddDate(years, months, 0)` before day overflow. */
  function TargetYear(d: Date, years: int, months: int): int {
    ((d.year + years) * 12 + (d.month - 1) + months) / 12
  }

  /** Month reached by `AddDate(years, months, 0)` before day overflow. */
  function TargetMonth(d: Date, years: int, months: int): (m: int)
    ensures 1 <= m <= 12
  {
    ((d.year + years) * 12 + (d.month - 1) + months) % 12 + 1
  }

  /** `AddDate(years, months, 0)` keeps the day when the target month has it, and
      otherwise lands day - DaysInMonth days into the following month. */
  lemma AddYearsMonthsNormalises(d: Date, years: int, months: int)
    requires ValidDate(d)
    ensures var ty, tm := TargetYear(d, years, months), TargetMonth(d, years, months);
            var dim := DaysInMonth(ty, tm);
            AddYearsMonths(d, years, months)
            == if d.day <= dim then Date(ty, tm, d.day)
               else if tm < 12 then Date(ty, tm + 1, d.day - dim)
               else Date(ty + 1, 1, d.day - dim)
  {
    var ty, tm := TargetYear(d, years, months), TargetMonth(d, years, months);
    var dim := DaysInMonth(ty, tm);
    var r := AddYearsMonths(d, years, months);
    if d.day <= dim {
      DayNumberFollowsCalendar(r, Date(ty, tm, d.day));
    } else if tm < 12 {
      DaysBeforeNextMonth(ty, tm);
      DayNumberFollowsCalendar(r, Date(ty, tm + 1, d.day - dim));
    } else {
      YearStartStep(ty);
      DayNumberFollowsCalendar(r, Date(ty + 1, 1, d.day - dim));
    }
  }

  /** The weekday of day number `n` as `time.Weekday` numbers it, 0 being
      Sunday: day 0, January 1 of year 0, was a Saturday. */
  function WeekdayOfDayNumber(n: int): (w: int)
    ensures 0 <= w < 7
  {
    (n + 6) % 7
  }

  /** `time.Weekday`. */
  function GoWeekday(d: Date): (w: int)
    requires 1 <= d.month <= 12
    ensures 0 <= w < 7
  {
    WeekdayOfDayNumber(DayNumber(d))
  }

  /** January 1, 2024 was a Monday. */
  lemma GoWeekdayKnownDate()
    ensures GoWeekday(Date(2024, 1, 1)) == 1
  {
    YearStartClosedForm(2024);
    assert DayNumber(Date(2024, 1, 1)) == 739251;
  }
}
