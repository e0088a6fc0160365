/**
 * The recurrence evaluator of pkg/api/nextdate.go.  `NextDate` parses a rule
 * string ("d N", "y", "w list", "m days [months]") and steps a date cursor
 * forward from the anchor until it lands strictly after `now` on a day the
 * rule accepts.
 *
 * The monthly loop of the source has no bound and never ends for rules no day
 * can meet ("m 31 4"); here it is given a step budget `fuel`, and `Diverges`
 * is the outcome that stands for the endless loop.
 */
module ApiNextDate {
  import opened Base
  import opened Calendar
  import opened GoText
  import opened DateFormat

  /** Largest interval of a daily rule. */
  const MaxDays: int := 400

  /** The sentinel errors of the evaluator; `InvalidDate` is the wrapped parse error. */
  datatype RuleError =
    | EmptyRepeat
    | InvalidDate
    | InvalidFormat
    | InvalidDay
    | InvalidMonth
    | InvalidWeekday
    | MaxDaysExceeded
    | UnsupportedRule

  /** A formatted next date, an error, or the monthly loop still running when the
      step budget ran out. */
  datatype Outcome = Next(date: string) | Failed(error: RuleError) | Diverges

  // ---------------------------------------------------------------------------
  // Date predicates

  /** `afterNow`: `date.After(now)` for a date at midnight and `now` on a calendar
      day, i.e. a strictly later day. */
  predicate AfterNow(date: Date, now: Date)
    requires ValidDate(date) && ValidDate(now)
  {
    DayNumber(date) > DayNumber(now)
  }

  lemma AfterNowIsCalendarOrder(date: Date, now: Date)
    requires ValidDate(date) && ValidDate(now)
    ensures AfterNow(date, now) <==> Precedes(now, date)
  {
    DayNumberFollowsCalendar(now, date);
  }

  /** `isLastDayOfMonth`: the next day is in another month. */
  predicate IsLastDayOfMonth(date: Date)
    requires ValidDate(date)
  {
    AddDays(date, 1).month != date.month
  }

  /** `isPenultimateDayOfMonth`: the day after next is in another month. */
  predicate IsPenultimateDayOfMonth(date: Date)
    requires ValidDate(date)
  {
    AddDays(date, 2).month != date.month
  }

  lemma LastDayOfMonthIff(date: Date)
    requires ValidDate(date)
    ensures IsLastDayOfMonth(date) <==> date.day == DaysInMonth(date.year, date.month)
  {
    assert AddDays(date, 1) == NextDay(date);
  }

  /** The "penultimate" test also holds on the last day of the month. */
  lemma PenultimateDayOfMonthIff(date: Date)
    requires ValidDate(date)
    ensures IsPenultimateDayOfMonth(date) <==> date.day >= DaysInMonth(date.year, date.month) - 1
  {
    assert AddDays(date, 2) == AddDays(NextDay(date), 1) == NextDay(NextDay(date));
  }

  /** handleWeeklyRule's renumbering of `time.Weekday`: Sunday 0 becomes 7, so
      Monday is 1 and Sunday 7. */
  function IsoOf(g: int): int {
    if g == 0 then 7 else g
  }

  function IsoWeekday(date: Date): (w: int)
    requires ValidDate(date)
    ensures 1 <= w <= 7
  {
    IsoOf(GoWeekday(date))
  }

  /** Consecutive days run through the weekdays in order, Sunday followed by Monday. */
  lemma IsoWeekdayNextDay(date: Date)
    requires ValidDate(date)
    ensures IsoWeekday(NextDay(date)) == IsoWeekday(date) % 7 + 1
  {
    WeekdayOfNumberStep(DayNumber(date));
  }

  /** The weekday numbering of day numbers `n` and `n + 1`. */
  lemma WeekdayOfNumberStep(n: int)
    ensures IsoOf(WeekdayOfDayNumber(n + 1)) == IsoOf(WeekdayOfDayNumber(n)) % 7 + 1
  {
  }

  /** Seven consecutive day numbers contain every weekday. */
  lemma WeekdayWithinAWeek(lo: int, w: int) returns (x: int)
    requires 1 <= w <= 7
    ensures lo <= x <= lo + 6
    ensures IsoOf(WeekdayOfDayNumber(x)) == w
  {
    var a := (lo + 6) % 7;
    var off := (w % 7 - a + 7) % 7;
    x := lo + off;
    assert (x + 6) % 7 == (a + off) % 7;
  }

  // ---------------------------------------------------------------------------
  // Rule lists

  /** `strconv.Atoi(t)` succeeds with a value in [lo, hi]. */
  predicate IntInRange(t: string, lo: int, hi: int) {
    Atoi(t).Some? && lo <= Atoi(t).value <= hi
  }

  predicate AllInRange(items: seq<string>, lo: int, hi: int) {
    forall i :: 0 <= i < |items| ==> IntInRange(items[i], lo, hi)
  }

  /** The integers the items of a comma list parse to. */
  function TokenValues(items: seq<string>): set<int> {
    if items == [] then {}
    else
      TokenValues(items[..|items| - 1])
      + match Atoi(items[|items| - 1]) case Some(v) => {v} case None => {}
  }

  /** A one-item list gives the value of its item. */
  lemma TokenValuesSingle(t: string)
    requires Atoi(t).Some?
    ensures TokenValues([t]) == {Atoi(t).value}
  {
    assert [t][..0] == [];
  }

  /** An integer is a value of the list when some item parses to it, and only then. */
  lemma {:induction false} TokenValueMember(items: seq<string>, x: int)
    ensures x in TokenValues(items) <==> exists i :: 0 <= i < |items| && Atoi(items[i]) == Some(x)
  {
    if items != [] {
      var init, last := items[..|items| - 1], items[|items| - 1];
      TokenValueMember(init, x);
      assert x in TokenValues(items) <==> x in TokenValues(init) || Atoi(last) == Some(x);
      if x in TokenValues(init) {
        var i :| 0 <= i < |init| && Atoi(init[i]) == Some(x);
        assert items[i] == init[i];
      } else if Atoi(last) != Some(x) {
        forall i | 0 <= i < |items|
          ensures Atoi(items[i]) != Some(x)
        {
          if i < |init| {
            assert init[i] == items[i];
          }
        }
      }
    }
  }

  /** The values are exactly the integers some item parses to. */
  lemma TokenValuesMembers(items: seq<string>)
    ensures forall x :: x in TokenValues(items) <==> exists i :: 0 <= i < |items| && Atoi(items[i]) == Some(x)
  {
    forall x {
      TokenValueMember(items, x);
    }
  }

  /** A list that parses in range gives a non-empty set of values in range. */
  lemma {:induction false} TokenValuesInRange(items: seq<string>, lo: int, hi: int)
    requires AllInRange(items, lo, hi)
    ensures forall x :: x in TokenValues(items) ==> lo <= x <= hi
    ensures items != [] ==> Atoi(items[|items| - 1]).value in TokenValues(items)
  {
    if items != [] {
      TokenValuesInRange(items[..|items| - 1], lo, hi);
      assert Atoi(items[|items| - 1]).value in TokenValues(items);
    }
  }

  /** The loop of handleWeeklyRule and of parseMonths: every item must parse to
      an integer in [lo, hi], else the error `e`; the values are collected. */
  method CollectInts(items: seq<string>, lo: int, hi: int, e: RuleError) returns (r: Result<set<int>, RuleError>)
    ensures r.Ok? <==> AllInRange(items, lo, hi)
    ensures r.Ok? ==> r.value == TokenValues(items)
    ensures r.Err? ==> r.error == e
  {
    var values: set<int> := {};
    var i := 0;
    while i < |items|
      invariant 0 <= i <= |items|
      invariant forall j :: 0 <= j < i ==> IntInRange(items[j], lo, hi)
      invariant values == TokenValues(items[..i])
    {
      var value := Atoi(items[i]);
      if value.None? || value.value < lo || value.value > hi {
        return Err(e);
      }
      values := values + {value.value};
      assert items[..i + 1][..i] == items[..i];
      i := i + 1;
    }
    assert items[..i] == items;
    return Ok(values);
  }

  /** "-1" and "-2" are integers to `strconv.Atoi`. */
  lemma SentinelsAreIntegers()
    ensures Atoi("-1") == Some(-1) && Atoi("-2") == Some(-2)
  {
    AtoiNegative("1");
    assert "-" + "1" == "-1";
    AtoiNegative("2");
    assert "-" + "2" == "-2";
  }

  /** The loop of parseDays.  Its branches for "-1" and "-2" sit behind a failed
      `strconv.Atoi`, which accepts both strings, so they never run. */
  method CollectDays(items: seq<string>) returns (r: Result<set<int>, RuleError>)
    ensures r.Ok? <==> AllInRange(items, 1, 31)
    ensures r.Ok? ==> r.value == TokenValues(items)
    ensures r.Err? ==> r.error == InvalidDay
  {
    var days: set<int> := {};
    SentinelsAreIntegers();
    var i := 0;
    while i < |items|
      invariant 0 <= i <= |items|
      invariant forall j :: 0 <= j < i ==> IntInRange(items[j], 1, 31)
      invariant days == TokenValues(items[..i])
    {
      var item := items[i];
      var day := Atoi(item);
      if day.None? {
        if item == "-1" {
          days := days + {-1};
        } else if item == "-2" {
          days := days + {-2};
        } else {
          return Err(InvalidDay);
        }
      } else if day.value < 1 || day.value > 31 {
        return Err(InvalidDay);
      } else {
        days := days + {day.value};
      }
      assert items[..i + 1][..i] == items[..i];
      i := i + 1;
    }
    assert items[..i] == items;
    return Ok(days);
  }

  /** The weekday list of handleWeeklyRule: integers 1 to 7, else `InvalidWeekday`. */
  method ParseWeekdays(list: string) returns (r: Result<set<int>, RuleError>)
    ensures r.Ok? <==> AllInRange(Split(list, ','), 1, 7)
    ensures r.Ok? ==> r.value == TokenValues(Split(list, ','))
    ensures r.Err? ==> r.error == InvalidWeekday
  {
    r := CollectInts(Split(list, ','), 1, 7, InvalidWeekday);
  }

  /** `parseDays`: integers 1 to 31, else `InvalidDay`. */
  method ParseDays(list: string) returns (r: Result<set<int>, RuleError>)
    ensures r.Ok? <==> AllInRange(Split(list, ','), 1, 31)
    ensures r.Ok? ==> r.value == TokenValues(Split(list, ','))
    ensures r.Err? ==> r.error == InvalidDay
  {
    r := CollectDays(Split(list, ','));
  }

  /** `parseMonths`: integers 1 to 12, else `InvalidMonth`. */
  method ParseMonths(list: string) returns (r: Result<set<int>, RuleError>)
    ensures r.Ok? <==> AllInRange(Split(list, ','), 1, 12)
    ensures r.Ok? ==> r.value == TokenValues(Split(list, ','))
    ensures r.Err? ==> r.error == InvalidMonth
  {
    r := CollectInts(Split(list, ','), 1, 12, InvalidMonth);
  }

  // ---------------------------------------------------------------------------
  // What each rule accepts

  /** The day test of the day-by-day loops: a weekday set, or a day set with an
      optional month set (`nil` in the source when no third token is given). */
  datatype DayFilter =
    | OnWeekdays(weekdays: set<int>)
    | OnMonthDays(days: set<int>, months: Option<set<int>>)

  predicate Accepts(f: DayFilter, d: Date)
    requires ValidDate(d)
  {
    match f
    case OnWeekdays(weekdays) => IsoWeekday(d) in weekdays
    case OnMonthDays(days, months) =>
      (-1 in days && IsLastDayOfMonth(d))
      || (-2 in days && IsPenultimateDayOfMonth(d))
      || ((months.None? || d.month in months.value) && d.day in days)
  }

  /** A day the loop stops on: strictly after `now` and accepted. */
  predicate Hit(now: Date, f: DayFilter, d: Date)
    requires ValidDate(now) && ValidDate(d)
  {
    AfterNow(d, now) && Accepts(f, d)
  }

  /** Day `k` after the anchor is the first hit. */
  ghost predicate FirstHit(now: Date, anchor: Date, f: DayFilter, k: nat)
    requires ValidDate(now) && ValidDate(anchor)
  {
    k >= 1 && Hit(now, f, AddDays(anchor, k))
    && forall j :: 1 <= j < k ==> !Hit(now, f, AddDays(anchor, j))
  }

  /** The anchor after `k` steps of `AddDate(0, 0, n)`. */
  function Jumps(d: Date, n: nat, k: nat): (r: Date)
    requires ValidDate(d)
    ensures ValidDate(r)
  {
    if k == 0 then d else AddDays(Jumps(d, n, k - 1), n)
  }

  /** `k` jumps of `n` days move the date `k * n` days on. */
  lemma {:induction false} JumpsDayNumber(d: Date, n: nat, k: nat)
    requires ValidDate(d)
    ensures DayNumber(Jumps(d, n, k)) == DayNumber(d) + k * n
  {
    if k > 0 {
      JumpsDayNumber(d, n, k - 1);
      assert (k - 1) * n + n == k * n;
    }
  }

  /** One more jump moves `n` days on. */
  lemma JumpStep(d: Date, n: nat, k: nat)
    requires ValidDate(d)
    ensures Jumps(d, n, k + 1) == AddDays(Jumps(d, n, k), n)
    ensures DayNumber(Jumps(d, n, k + 1)) == DayNumber(Jumps(d, n, k)) + n
  {
  }

  /** The daily loop has made `k` jumps to `next` without passing `now` before. */
  ghost predicate DailyProgress(now: Date, anchor: Date, n: nat, k: nat, next: Date)
    requires ValidDate(now) && ValidDate(anchor)
  {
    k >= 1 && next == Jumps(anchor, n, k) && (k == 1 || !AfterNow(Jumps(anchor, n, k - 1), now))
  }

  /** A jump from a date not after `now` keeps the loop's progress. */
  lemma DailyProgressStep(now: Date, anchor: Date, n: nat, k: nat, next: Date)
    requires ValidDate(now) && ValidDate(anchor) && ValidDate(next)
    requires DailyProgress(now, anchor, n, k, next) && !AfterNow(next, now)
    ensures DailyProgress(now, anchor, n, k + 1, AddDays(next, n))
  {
    JumpStep(anchor, n, k);
  }

  /** Jump `k` of `n` days is the first one strictly after `now`. */
  ghost predicate DailyJump(now: Date, anchor: Date, n: nat, k: nat)
    requires ValidDate(now) && ValidDate(anchor)
  {
    k >= 1 && AfterNow(Jumps(anchor, n, k), now)
    && (k == 1 || !AfterNow(Jumps(anchor, n, k - 1), now))
  }

  /** `AddDate(1, 0, 0)`: the same month a year on, an overflowing day rolling
      into March. */
  function NextYear(d: Date): (r: Date)
    requires ValidDate(d)
    ensures ValidDate(r) && r.year >= d.year + 1
  {
    var dim := DaysInMonth(d.year + 1, d.month);
    if d.day <= dim then Date(d.year + 1, d.month, d.day)
    else Date(d.year + 1, d.month + 1, d.day - dim)
  }

  /** `NextYear` is Go's `AddDate(1, 0, 0)` and moves the date forward. */
  lemma NextYearIsAddDate(d: Date)
    requires ValidDate(d)
    ensures NextYear(d) == AddYearsMonths(d, 1, 0)
    ensures DayNumber(NextYear(d)) > DayNumber(d)
  {
    assert TargetYear(d, 1, 0) == d.year + 1 && TargetMonth(d, 1, 0) == d.month;
    AddYearsMonthsNormalises(d, 1, 0);
    DayNumberFollowsCalendar(d, NextYear(d));
  }

  /** The anchor after `k` steps of `AddDate(1, 0, 0)`, each applied to the
      already normalised date. */
  function YearsLater(d: Date, k: nat): (r: Date)
    requires ValidDate(d)
    ensures ValidDate(r)
  {
    if k == 0 then d else NextYear(YearsLater(d, k - 1))
  }

  /** Step `k` of the yearly loop is the first one strictly after `now`. */
  ghost predicate YearlyJump(now: Date, anchor: Date, k: nat)
    requires ValidDate(now) && ValidDate(anchor)
  {
    k >= 1 && AfterNow(YearsLater(anchor, k), now)
    && (k == 1 || !AfterNow(YearsLater(anchor, k - 1), now))
  }

  // ---------------------------------------------------------------------------
  // What each handler returns

  ghost predicate DailyContract(now: Date, anchor: Date, parts: seq<string>, r: Outcome)
    requires ValidDate(now) && ValidDate(anchor)
  {
    if |parts| != 2 || Atoi(parts[1]).None? then r == Failed(InvalidFormat)
    else if Atoi(parts[1]).value <= 0 || Atoi(parts[1]).value > MaxDays then r == Failed(MaxDaysExceeded)
    else
      exists k: nat :: DailyJump(now, anchor, Atoi(parts[1]).value, k)
                    && r == Next(FormatYmd(Jumps(anchor, Atoi(parts[1]).value, k)))
  }

  ghost predicate YearlyContract(now: Date, anchor: Date, r: Outcome)
    requires ValidDate(now) && ValidDate(anchor)
  {
    exists k: nat :: YearlyJump(now, anchor, k) && r == Next(FormatYmd(YearsLater(anchor, k)))
  }

  ghost predicate WeeklyContract(now: Date, anchor: Date, parts: seq<string>, r: Outcome)
    requires ValidDate(now) && ValidDate(anchor)
  {
    if |parts| != 2 then r == Failed(InvalidFormat)
    else if !AllInRange(Split(parts[1], ','), 1, 7) then r == Failed(InvalidWeekday)
    else
      exists k: nat :: FirstHit(now, anchor, OnWeekdays(TokenValues(Split(parts[1], ','))), k)
                    && r == Next(FormatYmd(AddDays(anchor, k)))
  }

  /** The day filter a well-formed monthly rule builds. */
  function MonthlyFilter(parts: seq<string>): DayFilter
    requires 2 <= |parts| <= 3
  {
    OnMonthDays(TokenValues(Split(parts[1], ',')),
                if |parts| == 3 then Some(TokenValues(Split(parts[2], ','))) else None)
  }

  /** A day-by-day walk of at most `fuel` steps: the first hit, or `Diverges`
      when none of the `fuel` days after the anchor is a hit. */
  ghost predicate BoundedWalk(now: Date, anchor: Date, f: DayFilter, fuel: nat, r: Outcome)
    requires ValidDate(now) && ValidDate(anchor)
  {
    (r == Diverges && forall j :: 1 <= j <= fuel ==> !Hit(now, f, AddDays(anchor, j)))
    || exists k: nat :: k <= fuel && FirstHit(now, anchor, f, k) && r == Next(FormatYmd(AddDays(anchor, k)))
  }

  ghost predicate MonthlyContract(now: Date, anchor: Date, parts: seq<string>, fuel: nat, r: Outcome)
    requires ValidDate(now) && ValidDate(anchor)
  {
    if |parts| < 2 || |parts| > 3 then r == Failed(InvalidFormat)
    else if !AllInRange(Split(parts[1], ','), 1, 31) then r == Failed(InvalidDay)
    else if |parts| == 3 && !AllInRange(Split(parts[2], ','), 1, 12) then r == Failed(InvalidMonth)
    else BoundedWalk(now, anchor, MonthlyFilter(parts), fuel, r)
  }

  /** The dispatch on the first token of the rule. */
  ghost predicate RuleContract(now: Date, anchor: Date, parts: seq<string>, fuel: nat, r: Outcome)
    requires ValidDate(now) && ValidDate(anchor)
  {
    if |parts| == 0 then r == Failed(InvalidFormat)
    else if parts[0] == "d" then DailyContract(now, anchor, parts, r)
    else if parts[0] == "y" then YearlyContract(now, anchor, r)
    else if parts[0] == "w" then WeeklyContract(now, anchor, parts, r)
    else if parts[0] == "m" then MonthlyContract(now, anchor, parts, fuel, r)
    else r == Failed(UnsupportedRule)
  }

  // ---------------------------------------------------------------------------
  // The evaluator

  method NextDate(now: Date, dateStr: string, repeat: string, fuel: nat) returns (r: Outcome)
    requires ValidDate(now)
    ensures repeat == "" ==> r == Failed(EmptyRepeat)
    ensures repeat != "" && ParseYmd(dateStr).None? ==> r == Failed(InvalidDate)
    ensures repeat != "" && ParseYmd(dateStr).Some? ==>
              RuleContract(now, ParseYmd(dateStr).value, Fields(repeat), fuel, r)
  {
    if repeat == "" {
      return Failed(EmptyRepeat);
    }
    var parsed := ParseYmd(dateStr);
    if parsed.None? {
      return Failed(InvalidDate);
    }
    var date := parsed.value;
    var parts := Fields(repeat);
    if |parts| == 0 {
      return Failed(InvalidFormat);
    }
    if parts[0] == "d" {
      r := HandleDailyRule(now, date, parts);
    } else if parts[0] == "y" {
      var next := HandleYearlyRule(now, date);
      r := Next(next);
    } else if parts[0] == "w" {
      r := HandleWeeklyRule(now, date, parts);
    } else if parts[0] == "m" {
      r := HandleMonthlyRule(now, date, parts, fuel);
    } else {
      r := Failed(UnsupportedRule);
    }
  }

  method HandleDailyRule(now: Date, date: Date, parts: seq<string>) returns (r: Outcome)
    requires ValidDate(now) && ValidDate(date)
    ensures DailyContract(now, date, parts, r)
  {
    if |parts| != 2 {
      return Failed(InvalidFormat);
    }
    var parsed := Atoi(parts[1]);
    if parsed.None? {
      return Failed(InvalidFormat);
    }
    if parsed.value <= 0 || parsed.value > MaxDays {
      return Failed(MaxDaysExceeded);
    }
    var days: nat := parsed.value;
    var next := DailySteps(now, date, days);
    return Next(FormatYmd(next));
  }

  /** The loop of handleDailyRule: jump `days` days at a time until the date is
      strictly after `now`. */
  method DailySteps(now: Date, date: Date, days: nat) returns (next: Date)
    requires ValidDate(now) && ValidDate(date) && days >= 1
    ensures exists k: nat :: DailyJump(now, date, days, k) && next == Jumps(date, days, k)
  {
    next := AddDays(date, days);
    ghost var k: nat := 1;
    while !AfterNow(next, now)
      invariant DailyProgress(now, date, days, k, next)
      decreases DayNumber(now) - DayNumber(next)
    {
      DailyProgressStep(now, date, days, k, next);
      next := AddDays(next, days);
      k := k + 1;
    }
    assert DailyJump(now, date, days, k);
  }

  method HandleYearlyRule(now: Date, date: Date) returns (r: string)
    requires ValidDate(now) && ValidDate(date)
    ensures YearlyContract(now, date, Next(r))
  {
    var next := NextYear(date);
    ghost var k: nat := 1;
    while !AfterNow(next, now)
      invariant k >= 1 && next == YearsLater(date, k)
      invariant k == 1 || !AfterNow(YearsLater(date, k - 1), now)
      decreases DayNumber(now) - DayNumber(next)
    {
      NextYearIsAddDate(next);
      next := NextYear(next);
      k := k + 1;
    }
    assert YearlyJump(now, date, k);
    return FormatYmd(next);
  }

  method HandleWeeklyRule(now: Date, date: Date, parts: seq<string>) returns (r: Outcome)
    requires ValidDate(now) && ValidDate(date)
    ensures WeeklyContract(now, date, parts, r)
  {
    if |parts| != 2 {
      return Failed(InvalidFormat);
    }
    var parsed := ParseWeekdays(parts[1]);
    if parsed.Err? {
      return Failed(parsed.error);
    }
    var weekdays := parsed.value;
    TokenValuesInRange(Split(parts[1], ','), 1, 7);
    var next := WeeklySteps(now, date, weekdays);
    return Next(FormatYmd(next));
  }

  /** Some day after both the anchor and `now` has a weekday of the (non-empty)
      set, and the first such day comes within a week after the later of the two. */
  lemma WeekdayHitWithin(now: Date, date: Date, weekdays: set<int>) returns (j: nat)
    requires ValidDate(now) && ValidDate(date)
    requires (exists w :: w in weekdays) && forall w :: w in weekdays ==> 1 <= w <= 7
    ensures j >= 1 && Hit(now, OnWeekdays(weekdays), AddDays(date, j))
    ensures DayNumber(date) + j <= (if DayNumber(now) > DayNumber(date) then DayNumber(now) else DayNumber(date)) + 7
  {
    var lo := (if DayNumber(now) > DayNumber(date) then DayNumber(now) else DayNumber(date)) + 1;
    var w :| w in weekdays;
    var x := WeekdayWithinAWeek(lo, w);
    j := x - DayNumber(date);
    assert DayNumber(AddDays(date, j)) == x;
  }

  /** The loop of handleWeeklyRule: one day at a time until a day strictly after
      `now` has a weekday of the set.  It ends within a week. */
  method WeeklySteps(now: Date, date: Date, weekdays: set<int>) returns (next: Date)
    requires ValidDate(now) && ValidDate(date)
    requires (exists w :: w in weekdays) && forall w :: w in weekdays ==> 1 <= w <= 7
    ensures exists k: nat :: FirstHit(now, date, OnWeekdays(weekdays), k) && next == AddDays(date, k)
  {
    ghost var bound := WeekdayHitWithin(now, date, weekdays);
    next := AddDays(date, 1);
    ghost var k: nat := 1;
    while !(AfterNow(next, now) && IsoWeekday(next) in weekdays)
      invariant 1 <= k <= bound && next == AddDays(date, k)
      invariant forall j :: 1 <= j < k ==> !Hit(now, OnWeekdays(weekdays), AddDays(date, j))
      decreases bound - k
    {
      WalkPassesDay(now, date, OnWeekdays(weekdays), k);
      next := AddDays(next, 1);
      k := k + 1;
    }
    assert FirstHit(now, date, OnWeekdays(weekdays), k);
  }

  method HandleMonthlyRule(now: Date, date: Date, parts: seq<string>, fuel: nat) returns (r: Outcome)
    requires ValidDate(now) && ValidDate(date)
    ensures MonthlyContract(now, date, parts, fuel, r)
  {
    if |parts| < 2 || |parts| > 3 {
      return Failed(InvalidFormat);
    }
    var parsedDays := ParseDays(parts[1]);
    if parsedDays.Err? {
      return Failed(parsedDays.error);
    }
    var days := parsedDays.value;
    var months: Option<set<int>> := None;
    if |parts| == 3 {
      var parsedMonths := ParseMonths(parts[2]);
      if parsedMonths.Err? {
        return Failed(parsedMonths.error);
      }
      months := Some(parsedMonths.value);
    }
    assert MonthlyFilter(parts) == OnMonthDays(days, months);
    r := MonthlySteps(now, date, days, months, fuel);
  }

  /** Step `k <= fuel` of a walk with no earlier hit is a hit: the walk's outcome. */
  lemma WalkStopsAt(now: Date, anchor: Date, f: DayFilter, fuel: nat, k: nat)
    requires ValidDate(now) && ValidDate(anchor) && 1 <= k <= fuel
    requires forall j :: 1 <= j < k ==> !Hit(now, f, AddDays(anchor, j))
    requires Hit(now, f, AddDays(anchor, k))
    ensures BoundedWalk(now, anchor, f, fuel, Next(FormatYmd(AddDays(anchor, k))))
  {
    assert FirstHit(now, anchor, f, k);
  }

  /** A day that is no hit extends the run of misses by one, and the next day
      is one step further. */
  lemma WalkPassesDay(now: Date, anchor: Date, f: DayFilter, k: nat)
    requires ValidDate(now) && ValidDate(anchor) && k >= 1
    requires forall j :: 1 <= j < k ==> !Hit(now, f, AddDays(anchor, j))
    requires !Hit(now, f, AddDays(anchor, k))
    ensures forall j :: 1 <= j < k + 1 ==> !Hit(now, f, AddDays(anchor, j))
    ensures AddDays(AddDays(anchor, k), 1) == AddDays(anchor, k + 1)
  {
    AddDaysAdditive(anchor, k, 1);
  }

  /** The day tests of handleMonthlyRule's loop, in the order of the source:
      the last day, the day before it, then the day and month lists. */
  method MonthlyDayTest(next: Date, days: set<int>, months: Option<set<int>>) returns (matches: bool)
    requires ValidDate(next)
    ensures matches <==> (-1 in days && next.day == DaysInMonth(next.year, next.month))
                         || (-2 in days && next.day >= DaysInMonth(next.year, next.month) - 1)
                         || ((months.None? || next.month in months.value) && next.day in days)
    ensures matches == Accepts(OnMonthDays(days, months), next)
  {
    LastDayOfMonthIff(next);
    PenultimateDayOfMonthIff(next);
    if -1 in days && IsLastDayOfMonth(next) {
      return true;
    }
    if -2 in days && IsPenultimateDayOfMonth(next) {
      return true;
    }
    if (months.None? || next.month in months.value) && next.day in days {
      return true;
    }
    return false;
  }

  /** The loop of handleMonthlyRule, with at most `fuel` steps. */
  method MonthlySteps(now: Date, date: Date, days: set<int>, months: Option<set<int>>, fuel: nat)
    returns (r: Outcome)
    requires ValidDate(now) && ValidDate(date)
    ensures BoundedWalk(now, date, OnMonthDays(days, months), fuel, r)
  {
    ghost var f := OnMonthDays(days, months);
    var next := AddDays(date, 1);
    var k: nat := 1;
    while k <= fuel
      invariant 1 <= k <= fuel + 1 && next == AddDays(date, k)
      invariant forall j :: 1 <= j < k ==> !Hit(now, f, AddDays(date, j))
    {
      var hit := false;
      if AfterNow(next, now) {
        hit := MonthlyDayTest(next, days, months);
      }
      if hit {
        WalkStopsAt(now, date, f, fuel, k);
        return Next(FormatYmd(next));
      }
      WalkPassesDay(now, date, f, k);
      next := AddDays(next, 1);
      k := k + 1;
    }
    return Diverges;
  }

  // ---------------------------------------------------------------------------
  // Properties of the rules

  /** Jumps never move backwards. */
  lemma {:induction false} JumpsGrow(d: Date, n: nat, i: nat, j: nat)
    requires ValidDate(d) && i <= j
    ensures DayNumber(Jumps(d, n, i)) <= DayNumber(Jumps(d, n, j))
    decreases j - i
  {
    if i < j {
      JumpsGrow(d, n, i, j - 1);
    }
  }

  /** The daily result is the least jump past `now`: every earlier jump is on or
      before `now`, and the jump count is therefore unique. */
  lemma DailyJumpIsLeast(now: Date, anchor: Date, n: nat, k: nat)
    requires ValidDate(now) && ValidDate(anchor) && DailyJump(now, anchor, n, k)
    ensures forall j :: 1 <= j < k ==> !AfterNow(Jumps(anchor, n, j), now)
  {
    forall j | 1 <= j < k
      ensures !AfterNow(Jumps(anchor, n, j), now)
    {
      JumpsGrow(anchor, n, j, k - 1);
    }
  }

  lemma DailyJumpUnique(now: Date, anchor: Date, n: nat, k1: nat, k2: nat)
    requires ValidDate(now) && ValidDate(anchor)
    requires DailyJump(now, anchor, n, k1) && DailyJump(now, anchor, n, k2)
    ensures k1 == k2
  {
    DailyJumpIsLeast(now, anchor, n, k1);
    DailyJumpIsLeast(now, anchor, n, k2);
  }

  /** A daily rule always jumps at least once: the result is `k * n` days after
      the anchor for some k >= 1, so strictly after it, even when the anchor is
      already after `now`. */
  lemma DailyResultAfterAnchor(now: Date, anchor: Date, n: nat, k: nat)
    requires ValidDate(now) && ValidDate(anchor) && n >= 1 && DailyJump(now, anchor, n, k)
    ensures DayNumber(Jumps(anchor, n, k)) == DayNumber(anchor) + k * n
    ensures DayNumber(Jumps(anchor, n, k)) > DayNumber(anchor)
    ensures AfterNow(Jumps(anchor, n, k), now)
  {
    JumpsDayNumber(anchor, n, k);
    JumpsGrow(anchor, n, 1, k);
  }

  /** Each yearly step moves the date forward. */
  lemma YearsLaterStep(d: Date, k: nat)
    requires ValidDate(d) && k >= 1
    ensures DayNumber(YearsLater(d, k - 1)) < DayNumber(YearsLater(d, k))
  {
    NextYearIsAddDate(YearsLater(d, k - 1));
  }

  lemma {:induction false} YearsLaterGrow(d: Date, i: nat, j: nat)
    requires ValidDate(d) && i < j
    ensures DayNumber(YearsLater(d, i)) < DayNumber(YearsLater(d, j))
    decreases j - i
  {
    YearsLaterStep(d, j);
    if i < j - 1 {
      YearsLaterGrow(d, i, j - 1);
    }
  }

  lemma YearsLaterNoLater(d: Date, i: nat, j: nat)
    requires ValidDate(d) && i <= j
    ensures DayNumber(YearsLater(d, i)) <= DayNumber(YearsLater(d, j))
  {
    if i < j {
      YearsLaterGrow(d, i, j);
    }
  }

  /** The yearly result is the least step past `now`, and after the anchor. */
  lemma YearlyJumpIsLeast(now: Date, anchor: Date, k: nat)
    requires ValidDate(now) && ValidDate(anchor) && YearlyJump(now, anchor, k)
    ensures forall j :: 1 <= j < k ==> !AfterNow(YearsLater(anchor, j), now)
    ensures DayNumber(YearsLater(anchor, k)) > DayNumber(anchor)
  {
    if k > 1 {
      forall j | 1 <= j < k
        ensures !AfterNow(YearsLater(anchor, j), now)
      {
        YearsLaterNoLater(anchor, j, k - 1);
      }
    }
    YearsLaterGrow(anchor, 0, k);
  }

  /** Stepping `k + 1` years is one step, then `k` more from there. */
  lemma {:induction false} YearsLaterShift(d: Date, k: nat)
    requires ValidDate(d)
    ensures YearsLater(d, k + 1) == YearsLater(YearsLater(d, 1), k)
  {
    if k > 0 {
      YearsLaterShift(d, k - 1);
    }
  }

  /** A day that every year's month has stays put under the yearly steps. */
  lemma {:induction false} YearsLaterKeepsCommonDay(y: int, month: int, day: int, k: nat)
    requires 1 <= month <= 12 && 1 <= day <= 28
    ensures YearsLater(Date(y, month, day), k) == Date(y + k, month, day)
  {
    if k > 0 {
      YearsLaterKeepsCommonDay(y, month, day, k - 1);
    }
  }

  /** `AddDate(1, 0, 0)` on February 29 gives March 1, and later steps start from
      there: the yearly rule of a leap-day anchor drifts to March 1 for good. */
  lemma LeapDayDrifts(y: int, k: nat)
    requires IsLeapYear(y)
    ensures YearsLater(Date(y, 2, 29), 1) == Date(y + 1, 3, 1)
    ensures YearsLater(Date(y, 2, 29), k + 1) == Date(y + 1 + k, 3, 1)
  {
    assert !IsLeapYear(y + 1);
    YearsLaterShift(Date(y, 2, 29), k);
    YearsLaterKeepsCommonDay(y + 1, 3, 1, k);
  }

  /** The first hit of a day-by-day walk is unique. */
  lemma FirstHitUnique(now: Date, anchor: Date, f: DayFilter, k1: nat, k2: nat)
    requires ValidDate(now) && ValidDate(anchor)
    requires FirstHit(now, anchor, f, k1) && FirstHit(now, anchor, f, k2)
    ensures k1 == k2
  {
  }

  /** The first hit is strictly after both `now` and the anchor. */
  lemma FirstHitAfterBoth(now: Date, anchor: Date, f: DayFilter, k: nat)
    requires ValidDate(now) && ValidDate(anchor) && FirstHit(now, anchor, f, k)
    ensures DayNumber(AddDays(anchor, k)) > DayNumber(now)
    ensures DayNumber(AddDays(anchor, k)) == DayNumber(anchor) + k > DayNumber(anchor)
  {
  }

  /** A weekly rule stops within a week after the later of `now` and the anchor. */
  lemma WeeklyWithinAWeek(now: Date, anchor: Date, weekdays: set<int>, k: nat)
    requires ValidDate(now) && ValidDate(anchor)
    requires (exists w :: w in weekdays) && forall w :: w in weekdays ==> 1 <= w <= 7
    requires FirstHit(now, anchor, OnWeekdays(weekdays), k)
    ensures DayNumber(AddDays(anchor, k)) <= (if DayNumber(now) > DayNumber(anchor) then DayNumber(now) else DayNumber(anchor)) + 7
  {
    var j := WeekdayHitWithin(now, anchor, weekdays);
    assert k <= j;
  }

  /** A parsed day list holds neither sentinel. */
  lemma ParsedDaysExcludeSentinels(items: seq<string>)
    requires AllInRange(items, 1, 31)
    ensures -1 !in TokenValues(items) && -2 !in TokenValues(items)
  {
    TokenValuesInRange(items, 1, 31);
  }

  /** For every monthly rule that parses, the last-day and penultimate-day tests
      are dead: a date matches exactly when its day is in the day list and,
      when a month list is given, its month is in it. */
  lemma MonthlyAcceptsPlainTest(parts: seq<string>, d: Date)
    requires 2 <= |parts| <= 3 && AllInRange(Split(parts[1], ','), 1, 31) && ValidDate(d)
    ensures Accepts(MonthlyFilter(parts), d)
            <==> (|parts| == 2 || d.month in TokenValues(Split(parts[2], ',')))
                 && d.day in TokenValues(Split(parts[1], ','))
  {
    ParsedDaysExcludeSentinels(Split(parts[1], ','));
  }

  /** `m -1` is rejected: "-1" is an integer, and out of range. */
  lemma MinusOneIsInvalidDay(now: Date, anchor: Date, fuel: nat, r: Outcome)
    requires ValidDate(now) && ValidDate(anchor)
    requires MonthlyContract(now, anchor, ["m", "-1"], fuel, r)
    ensures r == Failed(InvalidDay)
  {
    SentinelsAreIntegers();
    assert Split("-1", ',') == ["-1"];
  }

  /** `m 31 4` names a day April never has: no date matches, so the walk never
      stops, whatever the budget. */
  lemma NoThirtyFirstOfApril(now: Date, anchor: Date, fuel: nat, r: Outcome)
    requires ValidDate(now) && ValidDate(anchor)
    requires MonthlyContract(now, anchor, ["m", "31", "4"], fuel, r)
    ensures forall d :: ValidDate(d) ==> !Accepts(MonthlyFilter(["m", "31", "4"]), d)
    ensures r == Diverges
  {
    ThirtyFirstOfAprilParses();
    forall d | ValidDate(d)
      ensures !Accepts(MonthlyFilter(["m", "31", "4"]), d)
    {
      assert d.month == 4 ==> d.day <= 30;
    }
  }

  /** The lists of `m 31 4` parse to {31} and {4}. */
  lemma ThirtyFirstOfAprilParses()
    ensures AllInRange(Split("31", ','), 1, 31) && AllInRange(Split("4", ','), 1, 12)
    ensures MonthlyFilter(["m", "31", "4"]) == OnMonthDays({31}, Some({4}))
  {
    assert Split("31", ',') == ["31"];
    assert Split("4", ',') == ["4"];
    assert "31"[..1] == "3" && DigitsValue("31") == 31;
    AtoiDigits("31");
    AtoiDigits("4");
    TokenValuesSingle("31");
    TokenValuesSingle("4");
  }

  /** A walk whose budget reaches some accepted day after both `now` and the
      anchor does not diverge. */
  lemma WalkReachesHit(now: Date, anchor: Date, f: DayFilter, target: Date, fuel: nat, r: Outcome)
    requires ValidDate(now) && ValidDate(anchor) && ValidDate(target)
    requires Hit(now, f, target) && DayNumber(target) > DayNumber(anchor)
    requires fuel >= DayNumber(target) - DayNumber(anchor)
    requires BoundedWalk(now, anchor, f, fuel, r)
    ensures r.Next?
  {
    var j: nat := DayNumber(target) - DayNumber(anchor);
    DayNumberFollowsCalendar(AddDays(anchor, j), target);
    assert Hit(now, f, AddDays(anchor, j));
  }

  /** A monthly rule naming a day that every year's month has stops within a
      year (366 days) after the later of `now` and the anchor, given that budget. */
  lemma MonthlyRuleEnds(now: Date, anchor: Date, parts: seq<string>, month: int, day: int, fuel: nat, r: Outcome)
    requires ValidDate(now) && ValidDate(anchor) && 2 <= |parts| <= 3
    requires AllInRange(Split(parts[1], ','), 1, 31)
    requires 1 <= month <= 12 && 1 <= day <= 28 && day in TokenValues(Split(parts[1], ','))
    requires |parts| == 3 ==> month in TokenValues(Split(parts[2], ','))
    requires var later := if DayNumber(now) > DayNumber(anchor) then DayNumber(now) else DayNumber(anchor);
             fuel >= later - DayNumber(anchor) + 366
    requires BoundedWalk(now, anchor, MonthlyFilter(parts), fuel, r)
    ensures r.Next?
  {
    var latest := if DayNumber(now) > DayNumber(anchor) then now else anchor;
    var target := NextOccurrence(latest, month, day);
    AfterNowIsCalendarOrder(target, now);
    MonthlyAcceptsPlainTest(parts, target);
    WalkReachesHit(now, anchor, MonthlyFilter(parts), target, fuel, r);
  }

  /** A yearly rule reads no token after "y": whatever follows, the outcomes
      allowed are the same. */
  lemma YearlyIgnoresExtraTokens(now: Date, anchor: Date, parts1: seq<string>, parts2: seq<string>, fuel: nat, r: Outcome)
    requires ValidDate(now) && ValidDate(anchor)
    requires |parts1| >= 1 && |parts2| >= 1 && parts1[0] == "y" && parts2[0] == "y"
    ensures RuleContract(now, anchor, parts1, fuel, r) <==> RuleContract(now, anchor, parts2, fuel, r)
    ensures RuleContract(now, anchor, parts1, fuel, r) ==> r.Next?
  {
  }

  /** Whatever the rule, a date the evaluator returns lies strictly after `now`. */
  lemma NextIsAfterNow(now: Date, anchor: Date, parts: seq<string>, fuel: nat, r: Outcome)
    requires ValidDate(now) && ValidDate(anchor)
    requires RuleContract(now, anchor, parts, fuel, r) && r.Next?
    ensures exists d :: ValidDate(d) && AfterNow(d, now) && r.date == FormatYmd(d)
  {
    if parts[0] == "d" {
      var n := Atoi(parts[1]).value;
      var k: nat :| DailyJump(now, anchor, n, k) && r == Next(FormatYmd(Jumps(anchor, n, k)));
      assert AfterNow(Jumps(anchor, n, k), now);
    } else if parts[0] == "y" {
      var k: nat :| YearlyJump(now, anchor, k) && r == Next(FormatYmd(YearsLater(anchor, k)));
      assert AfterNow(YearsLater(anchor, k), now);
    } else if parts[0] == "w" {
      var f := OnWeekdays(TokenValues(Split(parts[1], ',')));
      var k: nat :| FirstHit(now, anchor, f, k) && r == Next(FormatYmd(AddDays(anchor, k)));
      assert AfterNow(AddDays(anchor, k), now);
    } else {
      var k: nat :| k <= fuel && FirstHit(now, anchor, MonthlyFilter(parts), k)
                    && r == Next(FormatYmd(AddDays(anchor, k)));
      assert AfterNow(AddDays(anchor, k), now);
    }
  }
}
