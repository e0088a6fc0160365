/**
 * The storage layer's own recurrence helper and search parsing, from
 * pkg/db/task.go: an interval rule ("d N", "w N", "m N", "y N") makes one
 * jump from the task's current date, whatever the present day; a search
 * string is either a `dd.mm.yyyy` date, a text pattern, or nothing.
 * The SQL the search feeds is not modelled, only the choice of filter.
 */
module DbTask {
  import opened Base
  import opened Calendar
  import opened GoText
  import opened DateFormat

  /** The `Task` record: the handlers write its fields in place. */
  class Task {
    var id: int
    var date: string
    var title: string
    var comment: string
    var repeat: string

    constructor(id: int, date: string, title: string, comment: string, repeat: string)
      ensures this.id == id && this.date == date && this.title == title
      ensures this.comment == comment && this.repeat == repeat
    {
      this.id := id;
      this.date := date;
      this.title := title;
      this.comment := comment;
      this.repeat := repeat;
    }
  }

  // ---------------------------------------------------------------------------
  // Interval rules

  datatype Unit = Days | Weeks | Months | Years

  /** The errors of the legacy `NextDate`, one per `fmt.Errorf` of the source. */
  datatype LegacyError =
    | EmptyRule
    | InvalidCurrentDate
    | InvalidRuleFormat
    | UnsupportedRule(family: string)
    | InvalidInterval(unit: Unit)
    | IntervalNotPositive(unit: Unit)

  /** The count check every family repeats: an integer, and positive.  There is
      no upper bound. */
  function ParseInterval(interval: string, unit: Unit): (r: Result<int, LegacyError>)
    ensures r.Ok? <==> Atoi(interval).Some? && Atoi(interval).value > 0
    ensures r.Ok? ==> r.value == Atoi(interval).value
    ensures Atoi(interval).None? ==> r == Err(InvalidInterval(unit))
    ensures Atoi(interval).Some? && Atoi(interval).value <= 0 ==> r == Err(IntervalNotPositive(unit))
  {
    match Atoi(interval)
    case None => Err(InvalidInterval(unit))
    case Some(n) => if n <= 0 then Err(IntervalNotPositive(unit)) else Ok(n)
  }

  /** A date formatted as the result of a jump of exactly `n` days from `d`. */
  ghost predicate DaysLater(d: Date, n: int, s: string)
    requires ValidDate(d)
  {
    exists e :: ValidDate(e) && DayNumber(e) == DayNumber(d) + n && s == FormatYmd(e)
  }

  /** `dailyRepeat`: one jump of N days from the current date. */
  function DailyRepeat(current: Date, interval: string): (r: Result<string, LegacyError>)
    requires ValidDate(current)
    ensures match ParseInterval(interval, Days)
            case Err(e) => r == Err(e)
            case Ok(n) => r.Ok? && DaysLater(current, n, r.value)
  {
    match ParseInterval(interval, Days)
    case Err(e) => Err(e)
    case Ok(n) => Ok(FormatYmd(AddDays(current, n)))
  }

  /** `weeklyRepeat`: one jump of 7 * N days from the current date. */
  function WeeklyRepeat(current: Date, interval: string): (r: Result<string, LegacyError>)
    requires ValidDate(current)
    ensures match ParseInterval(interval, Weeks)
            case Err(e) => r == Err(e)
            case Ok(n) => r.Ok? && DaysLater(current, 7 * n, r.value)
  {
    match ParseInterval(interval, Weeks)
    case Err(e) => Err(e)
    case Ok(n) => Ok(FormatYmd(AddDays(current, 7 * n)))
  }

  /** `time.Date(y, m + 1, 0)`: day 0 of the next month normalises to the last
      day of month `m`. */
  function LastDayOfMonth(d: Date): (r: Date)
    requires ValidDate(d)
    ensures ValidDate(r) && r.year == d.year && r.month == d.month
    ensures forall e :: ValidDate(e) && e.year == d.year && e.month == d.month ==> e.day <= r.day
  {
    Date(d.year, d.month, DaysInMonth(d.year, d.month))
  }

  /** `monthlyRepeat`: `AddDate(0, N, 0)`, then, when that changed the day of the
      month, the last day of the month the normalised date fell in. */
  function MonthlyRepeat(current: Date, interval: string): (r: Result<string, LegacyError>)
    requires ValidDate(current)
    ensures match ParseInterval(interval, Months)
            case Err(e) => r == Err(e)
            case Ok(n) =>
              var ty, tm := TargetYear(current, 0, n), TargetMonth(current, 0, n);
              r.Ok? && r.value == FormatYmd(
                if current.day <= DaysInMonth(ty, tm) then Date(ty, tm, current.day)
                else if tm < 12 then Date(ty, tm + 1, DaysInMonth(ty, tm + 1))
                else Date(ty + 1, 1, 31))
  {
    match ParseInterval(interval, Months)
    case Err(e) => Err(e)
    case Ok(n) =>
      AddYearsMonthsNormalises(current, 0, n);
      var next := AddYearsMonths(current, 0, n);
      var next := if current.day != next.day then LastDayOfMonth(next) else next;
      Ok(FormatYmd(next))
  }

  /** `yearlyRepeat`: `AddDate(N, 0, 0)`, which keeps the month and day unless
      the day is February 29 and the target year is not leap, giving March 1. */
  function YearlyRepeat(current: Date, interval: string): (r: Result<string, LegacyError>)
    requires ValidDate(current)
    ensures match ParseInterval(interval, Years)
            case Err(e) => r == Err(e)
            case Ok(n) =>
              r.Ok? && r.value == FormatYmd(
                if current.day <= DaysInMonth(current.year + n, current.month)
                then Date(current.year + n, current.month, current.day)
                else Date(current.year + n, 3, 1))
  {
    match ParseInterval(interval, Years)
    case Err(e) => Err(e)
    case Ok(n) =>
      assert TargetYear(current, n, 0) == current.year + n && TargetMonth(current, n, 0) == current.month;
      AddYearsMonthsNormalises(current, n, 0);
      Ok(FormatYmd(AddYearsMonths(current, n, 0)))
  }

  /** The legacy `NextDate`: the empty rule first, then the date, then at least
      two tokens; the first token picks the family and only the second is read. */
  function NextDate(currentDate: string, rule: string): (r: Result<string, LegacyError>)
    ensures rule == "" ==> r == Err(EmptyRule)
    ensures rule != "" && ParseYmd(currentDate).None? ==> r == Err(InvalidCurrentDate)
    ensures rule != "" && ParseYmd(currentDate).Some? && |Fields(rule)| < 2 ==> r == Err(InvalidRuleFormat)
    ensures rule != "" && ParseYmd(currentDate).Some? && |Fields(rule)| >= 2 ==>
              var family := Fields(rule)[0];
              (family !in ["d", "w", "m", "y"] <==> r == Err(UnsupportedRule(family)))
    ensures rule != "" && ParseYmd(currentDate).Some? && |Fields(rule)| >= 2 ==>
              var family, count, current := Fields(rule)[0], Fields(rule)[1], ParseYmd(currentDate).value;
              (family == "d" ==> r == DailyRepeat(current, count))
              && (family == "w" ==> r == WeeklyRepeat(current, count))
              && (family == "m" ==> r == MonthlyRepeat(current, count))
              && (family == "y" ==> r == YearlyRepeat(current, count))
  {
    if rule == "" then Err(EmptyRule)
    else match ParseYmd(currentDate)
      case None => Err(InvalidCurrentDate)
      case Some(current) =>
        var parts := Fields(rule);
        if |parts| < 2 then Err(InvalidRuleFormat)
        else if parts[0] == "d" then DailyRepeat(current, parts[1])
        else if parts[0] == "w" then WeeklyRepeat(current, parts[1])
        else if parts[0] == "m" then MonthlyRepeat(current, parts[1])
        else if parts[0] == "y" then YearlyRepeat(current, parts[1])
        else Err(UnsupportedRule(parts[0]))
  }

  // ---------------------------------------------------------------------------
  // Search

  /** `isDateSearch`: the string parses with the layout "02.01.2006", that is,
      it is a real date of years 0 to 9999 written as `dd.mm.yyyy`. */
  function IsDateSearch(s: string): (r: bool)
    ensures r <==> exists d :: ValidDate(d) && 0 <= d.year <= 9999 && FormatDmy(d) == s
  {
    DmyAcceptsExactly(s);
    ParseDmy(s).Some?
  }

  /** `parseSearchDate`: a `dd.mm.yyyy` date rewritten as `yyyymmdd`. */
  function ParseSearchDate(s: string): (r: Option<string>)
    ensures r.Some? <==> IsDateSearch(s)
    ensures r.Some? ==> |s| == 10 && r.value == s[6..] + s[3..5] + s[..2]
    ensures r.Some? ==> ParseYmd(r.value) == ParseDmy(s)
  {
    match ParseDmy(s)
    case None => None
    case Some(d) => DmyToYmd(s); FormatParseRoundTrip(d); Some(FormatYmd(d))
  }

  /** The filter `Tasks` adds to its query. */
  datatype TaskFilter = ByDate(date: string) | ByText(pattern: string) | NoFilter

  /** The only error the branch choice of `Tasks` can raise. */
  datatype SearchError = InvalidSearchDate

  /** The search-branch choice of `Tasks`: a date first, then a non-empty text,
      else no filter. */
  function SearchFilter(search: string): (r: Result<TaskFilter, SearchError>)
    ensures r.Ok?
    ensures IsDateSearch(search) ==> r.value == ByDate(search[6..] + search[3..5] + search[..2])
    ensures !IsDateSearch(search) && search != "" ==> r.value == ByText("%" + ToLower(search) + "%")
    ensures search == "" ==> r.value == NoFilter
  {
    if IsDateSearch(search) then
      match ParseSearchDate(search)
      case None => Err(InvalidSearchDate)
      case Some(date) => Ok(ByDate(date))
    else if search != "" then Ok(ByText("%" + ToLower(search) + "%"))
    else Ok(NoFilter)
  }

  // ---------------------------------------------------------------------------
  // Properties

  /** Once there are two tokens, the rest of the rule is never read. */
  lemma ExtraTokensIgnored(currentDate: string, rule1: string, rule2: string)
    requires rule1 != "" && rule2 != ""
    requires |Fields(rule1)| >= 2 && |Fields(rule2)| >= 2
    requires Fields(rule1)[..2] == Fields(rule2)[..2]
    ensures NextDate(currentDate, rule1) == NextDate(currentDate, rule2)
  {
    assert Fields(rule1)[0] == Fields(rule1)[..2][0] && Fields(rule1)[1] == Fields(rule1)[..2][1];
    assert Fields(rule2)[0] == Fields(rule2)[..2][0] && Fields(rule2)[1] == Fields(rule2)[..2][1];
  }

  /** A yearly rule needs its count: a bare "y" is rejected. */
  lemma BareYearlyRejected(currentDate: string)
    requires ParseYmd(currentDate).Some?
    ensures NextDate(currentDate, "y") == Err(InvalidRuleFormat)
  {
    assert Word("y") == "y";
    assert "y"[1..] == [];
    assert Fields("y") == ["y"];
  }

  /** Counts have no upper bound, unlike the 400-day limit of the evaluator. */
  lemma NoUpperBound(current: Date)
    requires ValidDate(current)
    ensures DailyRepeat(current, "401").Ok?
  {
    assert "401"[..2] == "40" && "40"[..1] == "4";
    assert DigitsValue("401") == 401;
    AtoiDigits("401");
  }

  /** A count that parses to zero or less is refused for every family. */
  lemma NonPositiveRefused(current: Date, interval: string)
    requires ValidDate(current) && Atoi(interval).Some? && Atoi(interval).value <= 0
    ensures DailyRepeat(current, interval) == Err(IntervalNotPositive(Days))
    ensures WeeklyRepeat(current, interval) == Err(IntervalNotPositive(Weeks))
    ensures MonthlyRepeat(current, interval) == Err(IntervalNotPositive(Months))
    ensures YearlyRepeat(current, interval) == Err(IntervalNotPositive(Years))
  {
  }

  /** A count that is not an integer is refused for every family. */
  lemma NonIntegerRefused(current: Date, interval: string)
    requires ValidDate(current) && Atoi(interval).None?
    ensures DailyRepeat(current, interval) == Err(InvalidInterval(Days))
    ensures WeeklyRepeat(current, interval) == Err(InvalidInterval(Weeks))
    ensures MonthlyRepeat(current, interval) == Err(InvalidInterval(Months))
    ensures YearlyRepeat(current, interval) == Err(InvalidInterval(Years))
  {
  }

  /** The daily jump lands strictly after the current date. */
  lemma DailyRepeatMovesForward(current: Date, interval: string)
    requires ValidDate(current) && DailyRepeat(current, interval).Ok?
    ensures exists e :: ValidDate(e) && DayNumber(e) > DayNumber(current)
                        && DailyRepeat(current, interval).value == FormatYmd(e)
  {
  }

  /** January 31 plus one month: `AddDate` lands in early March, the day
      changed, and the result is March 31 (for 2023, "20230331"), not the end
      of February. */
  lemma MonthlyOverflowExample(y: int)
    ensures MonthlyRepeat(Date(y, 1, 31), "1") == Ok(FormatYmd(Date(y, 3, 31)))
  {
    AtoiDigits("1");
    assert ParseInterval("1", Months) == Ok(1);
    assert TargetYear(Date(y, 1, 31), 0, 1) == y && TargetMonth(Date(y, 1, 31), 0, 1) == 2;
  }

  /** February 29 plus one year is March 1. */
  lemma YearlyLeapDayExample(current: Date)
    requires ValidDate(current) && current.month == 2 && current.day == 29
    ensures YearlyRepeat(current, "1") == Ok(FormatYmd(Date(current.year + 1, 3, 1)))
  {
    AtoiDigits("1");
    assert ParseInterval("1", Years) == Ok(1);
    assert IsLeapYear(current.year) && !IsLeapYear(current.year + 1);
  }
}
