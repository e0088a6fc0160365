# Recurring-task dates of the scheduler, in Dafny

The scheduler stores tasks with a date (`YYYYMMDD`), a title, a comment and a
repeat rule. This project models the three places where dates are computed:

- **The recurrence evaluator** (`pkg/api/nextdate.go`). `NextDate(now, date, repeat)`
  parses a rule: `d N`, `y`, `w list` or `m days [months]`. It then steps a date
  cursor forward from the anchor date until the cursor is strictly after `now`
  and the rule accepts it. The result is the cursor formatted `YYYYMMDD`, or one
  of the evaluator's sentinel errors.
- **The storage layer's interval rule** (`pkg/db/task.go`). A second, older
  `NextDate` makes one jump of N days, weeks, months or years from the task's
  date. The same file turns a `dd.mm.yyyy` search into `yyyymmdd` and chooses
  the filter of the task listing.
- **Date normalisation of a new task** (`pkg/api/addtask.go`).
  `processTaskDate` rewrites the task's date in place. `today` and the empty
  date become today's date. A past date moves to the rule's next occurrence,
  or to today when the task has no rule. Today and later dates are kept.

The modules are:

- `Base`: `Option` and `Result`.
- `Calendar`: the proleptic Gregorian calendar as Go's `time` package computes
  it. It covers day numbers, `AddDate` normalisation and the weekday.
- `GoText`: the Go library string functions the code calls, namely
  `strings.Fields`, `strings.Split`, `strconv.Atoi`, `strings.EqualFold` and
  `strings.ToLower`.
- `DateFormat`: the two layouts `20060102` and `02.01.2006`.
- `ApiNextDate`, `DbTask` and `ApiAddTask`: the three source files above.

The rule parsers and the stepping loops are methods with `while` loops and
invariants, as in the source. Each stepping loop is proved against a
specification predicate (`DailyContract`, `YearlyContract`, `WeeklyContract`,
`MonthlyContract`). Those predicates state the result as "the first jump, or the
first day, strictly after `now` that the rule accepts", and lemmas prove the
properties of those specifications. The list-collecting loops (`CollectInts`,
`CollectDays`) are proved against `AllInRange`, which says when every item
parses in range, and `TokenValues`, the set of values the items parse to. `processTaskDate` is the module-level
method `ApiAddTask.ProcessTaskDate`. It takes a `DbTask.Task` object and may
modify only that task's `date` field.

## Model

| member | source | states |
|---|---|---|
| `Calendar.NextDay` | pkg/api/nextdate.go:138 | `AddDate(0, 0, 1)` gives a real date whose day number is one more |
| `Calendar.AddDays` | pkg/api/nextdate.go:70 | `AddDate(0, 0, n)` gives a real date exactly `n` day numbers later |
| `Calendar.DayNumberFollowsCalendar` | pkg/api/addtask.go:102 | day numbers order dates as (year, month, day) does, and equal day numbers mean the same date |
| `Calendar.AddDaysAdditive` | pkg/api/nextdate.go:138 | stepping `m` days and then `n` days is stepping `m + n` days |
| `Calendar.YearStartClosedForm` | pkg/api/nextdate.go:81 | the year-by-year day count equals 365 days a year plus one per Gregorian leap year |
| `Calendar.AddYearsMonthsNormalises` | pkg/db/task.go:229 | `AddDate(y, m, 0)` keeps the day when the target month has it; otherwise it rolls the excess days into the next month |
| `Calendar.GoWeekdayKnownDate` | pkg/api/nextdate.go:106 | the weekday numbering agrees with Go's: January 1, 2024 is Monday (1) |
| `GoText.FieldsJoin` | pkg/api/nextdate.go:36 | `strings.Fields` splits non-empty space-free words joined by single spaces back into exactly those words, in order |
| `GoText.FieldsEmptyIffBlank` | pkg/api/nextdate.go:36-39 | `strings.Fields` returns no token exactly when the rule is all white space |
| `GoText.JoinSplit` | pkg/api/nextdate.go:95 | `strings.Split` loses nothing: joining the pieces with the separator gives the string back, and no piece holds a comma |
| `GoText.Atoi` | pkg/api/nextdate.go:60 | `strconv.Atoi` succeeds only with a value that fits in 64 bits |
| `GoText.AtoiNegative` | pkg/api/nextdate.go:172-174 | a minus sign followed by digits is an integer to `strconv.Atoi`, so "-1" parses |
| `GoText.ToLower` | pkg/db/task.go:37 | lower-casing keeps the length and lowers each letter |
| `GoText.EqualFold` | pkg/api/addtask.go:82 | two strings are equal up to case exactly when their lower-cased forms are equal |
| `DateFormat.DateIfReal` | pkg/api/nextdate.go:31 | `time.Parse` accepts a year, month and day exactly when they name a real date |
| `DateFormat.ParseYmd` | pkg/api/nextdate.go:31-34 | an accepted `YYYYMMDD` string denotes a real date of years 0 to 9999 |
| `DateFormat.ParseDmy` | pkg/db/task.go:83 | an accepted `dd.mm.yyyy` string denotes a real date of years 0 to 9999 |
| `DateFormat.DmyAccepts` | pkg/db/task.go:83 | every real date of years 0 to 9999, written `dd.mm.yyyy`, is accepted and parses to that date |
| `DateFormat.DmyWritesBack` | pkg/db/task.go:83 | every accepted `dd.mm.yyyy` string is exactly how its date is written |
| `DateFormat.DmyAcceptsExactly` | pkg/db/task.go:83 | the layout `02.01.2006` accepts a string if and only if it is a real date of years 0 to 9999 written `dd.mm.yyyy` |
| `DateFormat.FormatParseRoundTrip` | pkg/api/nextdate.go:76 | a date of years 0 to 9999 formats to eight digits that parse back to it |
| `DateFormat.ParseFormatRoundTrip` | pkg/api/addtask.go:96 | every accepted `YYYYMMDD` string is exactly the format of its date |
| `DateFormat.DmyToYmd` | pkg/db/task.go:88-94 | a `dd.mm.yyyy` date formats as `yyyymmdd` by moving its digit groups |
| `ApiNextDate.AfterNowIsCalendarOrder` | pkg/api/nextdate.go:157-159 | `afterNow` holds exactly when the date is a later calendar day than `now` |
| `ApiNextDate.LastDayOfMonthIff` | pkg/api/nextdate.go:161-163 | `isLastDayOfMonth` holds exactly on the month's last day |
| `ApiNextDate.PenultimateDayOfMonthIff` | pkg/api/nextdate.go:165-167 | `isPenultimateDayOfMonth` holds on the last two days of the month, so also on the last day |
| `ApiNextDate.IsoWeekday` | pkg/api/nextdate.go:106-109 | the renumbered weekday is always in 1..7 |
| `ApiNextDate.IsoWeekdayNextDay` | pkg/api/nextdate.go:104-109 | consecutive days run through 1..7 in order, with Sunday (7) followed by Monday (1) |
| `ApiNextDate.WeekdayWithinAWeek` | pkg/api/nextdate.go:103-114 | any seven consecutive days contain every weekday |
| `ApiNextDate.TokenValueMember` | pkg/api/nextdate.go:95-101 | an integer is among the collected values exactly when some item of the list parses to it |
| `ApiNextDate.TokenValuesMembers` | pkg/api/nextdate.go:95-101 | the collected set is exactly the set of integers the items parse to |
| `ApiNextDate.TokenValuesInRange` | pkg/api/nextdate.go:95-101 | a list whose items all parse in range gives values in range and holds the value of its last item |
| `ApiNextDate.CollectInts` | pkg/api/nextdate.go:95-101 | the item loop fails with the given error exactly when some item is not an integer in range; otherwise it returns the set of the items' values |
| `ApiNextDate.SentinelsAreIntegers` | pkg/api/nextdate.go:172-180 | `strconv.Atoi` accepts "-1" and "-2" |
| `ApiNextDate.CollectDays` | pkg/api/nextdate.go:171-188 | `parseDays`' loop, sentinel branches included, succeeds exactly when every item is an integer in 1..31, and then returns their set |
| `ApiNextDate.ParseWeekdays` | pkg/api/nextdate.go:94-101 | the weekday list succeeds exactly when every comma item is an integer in 1..7, else `InvalidWeekday` |
| `ApiNextDate.ParseDays` | pkg/api/nextdate.go:169-190 | `parseDays` succeeds exactly when every comma item is an integer in 1..31, else `InvalidDay` |
| `ApiNextDate.ParseMonths` | pkg/api/nextdate.go:192-202 | `parseMonths` succeeds exactly when every comma item is an integer in 1..12, else `InvalidMonth` |
| `ApiNextDate.JumpsDayNumber` | pkg/api/nextdate.go:69-74 | `k` daily jumps of `n` days move the anchor `k * n` days on |
| `ApiNextDate.NextYearIsAddDate` | pkg/api/nextdate.go:81 | the closed-form yearly step is `AddDate(1, 0, 0)` and always moves forward |
| `ApiNextDate.NextDate` | pkg/api/nextdate.go:26-53 | the empty rule fails before the date is read; a bad date fails next; otherwise the outcome is the one the rule's family allows, or `UnsupportedRule` |
| `ApiNextDate.HandleDailyRule` | pkg/api/nextdate.go:55-77 | wrong token count or a non-integer count gives `InvalidFormat`; a count outside 1..400 gives `MaxDaysExceeded`; otherwise the result is the first jump strictly after `now` |
| `ApiNextDate.DailySteps` | pkg/api/nextdate.go:69-74 | the loop stops at jump `k >= 1`, the first jump strictly after `now` |
| `ApiNextDate.HandleYearlyRule` | pkg/api/nextdate.go:79-87 | the result is the first yearly step strictly after `now`, each step applied to the already normalised date |
| `ApiNextDate.HandleWeeklyRule` | pkg/api/nextdate.go:89-117 | wrong token count gives `InvalidFormat`; a bad list gives `InvalidWeekday`; otherwise the result is the first day after the anchor that is strictly after `now` and has a listed weekday |
| `ApiNextDate.WeekdayHitWithin` | pkg/api/nextdate.go:103-114 | the weekly loop has a day to stop on, within seven days of the later of `now` and the anchor |
| `ApiNextDate.WeeklySteps` | pkg/api/nextdate.go:103-114 | the loop returns the first day that is strictly after `now` with a listed weekday |
| `ApiNextDate.HandleMonthlyRule` | pkg/api/nextdate.go:119-155 | wrong token count gives `InvalidFormat`; a bad day list gives `InvalidDay`; a bad month list gives `InvalidMonth`; otherwise the result is the first accepted day strictly after `now`, or `Diverges` |
| `ApiNextDate.WalkStopsAt` | pkg/api/nextdate.go:137-154 | a hit after only misses is the walk's result |
| `ApiNextDate.WalkPassesDay` | pkg/api/nextdate.go:137-138 | a miss extends the run of misses by one day |
| `ApiNextDate.MonthlyDayTest` | pkg/api/nextdate.go:139-152 | a day matches if and only if it is the last day of its month and -1 is listed, or one of the last two days and -2 is listed, or its day is listed and its month is allowed; this is the monthly filter |
| `ApiNextDate.MonthlySteps` | pkg/api/nextdate.go:137-154 | within `fuel` days the loop returns the first hit, and returns `Diverges` only when none of those days is a hit |
| `ApiNextDate.JumpsGrow` | pkg/api/nextdate.go:69-74 | later jumps are never earlier |
| `ApiNextDate.DailyJumpIsLeast` | pkg/api/nextdate.go:69-74 | every jump before the result is on or before `now` |
| `ApiNextDate.DailyJumpUnique` | pkg/api/nextdate.go:69-74 | the number of jumps taken is determined by `now`, the anchor and `N` |
| `ApiNextDate.DailyResultAfterAnchor` | pkg/api/nextdate.go:69-76 | the daily result is the anchor plus `k * N` days for some `k >= 1`, so strictly after the anchor even when the anchor is already after `now` |
| `ApiNextDate.YearsLaterStep` | pkg/api/nextdate.go:80-85 | each yearly step moves the date forward |
| `ApiNextDate.YearsLaterGrow` | pkg/api/nextdate.go:80-85 | yearly steps strictly increase |
| `ApiNextDate.YearlyJumpIsLeast` | pkg/api/nextdate.go:79-87 | every yearly step before the result is on or before `now`, and the result is after the anchor |
| `ApiNextDate.YearsLaterShift` | pkg/api/nextdate.go:80-85 | `k + 1` yearly steps are one step followed by `k` steps from there |
| `ApiNextDate.YearsLaterKeepsCommonDay` | pkg/api/nextdate.go:81 | a day of the month up to 28 is kept by every yearly step |
| `ApiNextDate.LeapDayDrifts` | pkg/api/nextdate.go:81 | for every leap year, February 29 steps to March 1 of the next year, and every later yearly step stays on March 1 |
| `ApiNextDate.FirstHitUnique` | pkg/api/nextdate.go:103-114 | the day a day-by-day loop stops on is unique |
| `ApiNextDate.FirstHitAfterBoth` | pkg/api/nextdate.go:104-105 | that day is strictly after both `now` and the anchor |
| `ApiNextDate.WeeklyWithinAWeek` | pkg/api/nextdate.go:103-114 | a weekly result is at most seven days after the later of `now` and the anchor |
| `ApiNextDate.ParsedDaysExcludeSentinels` | pkg/api/nextdate.go:169-190 | a parsed day set never holds -1 or -2 |
| `ApiNextDate.MonthlyAcceptsPlainTest` | pkg/api/nextdate.go:143-152 | for every rule that parses, the last-day and penultimate-day tests are dead; a day is accepted exactly when its day, and its month when a month list is given, are listed |
| `ApiNextDate.MinusOneIsInvalidDay` | pkg/api/nextdate.go:184-186 | `m -1` fails with `InvalidDay` |
| `ApiNextDate.NoThirtyFirstOfApril` | pkg/api/nextdate.go:137-154 | `m 31 4` accepts no date, so its loop never ends |
| `ApiNextDate.ThirtyFirstOfAprilParses` | pkg/api/nextdate.go:124-135 | the lists of `m 31 4` parse to {31} and {4} |
| `ApiNextDate.WalkReachesHit` | pkg/api/nextdate.go:137-154 | a budget reaching an accepted day after `now` and the anchor means the walk ends |
| `Calendar.NextOccurrence` | pkg/api/nextdate.go:137-154 | a month and a day up to 28 come round strictly after any date and at most 366 days later |
| `ApiNextDate.MonthlyRuleEnds` | pkg/api/nextdate.go:137-154 | a monthly rule listing a day up to 28 in a listed month ends within 366 days after the later of `now` and the anchor |
| `ApiNextDate.YearlyIgnoresExtraTokens` | pkg/api/nextdate.go:44-45 | tokens after `y` change nothing, and a yearly rule always yields a date |
| `ApiNextDate.NextIsAfterNow` | pkg/api/nextdate.go:26-53 | every date the evaluator returns is strictly after `now` |
| `DbTask.Task.constructor` | pkg/db/task.go:11-17 | a task holds the five fields it is given |
| `DbTask.ParseInterval` | pkg/db/task.go:196-202 | a count is accepted exactly when it is an integer above zero; a non-integer and a non-positive count give distinct errors |
| `DbTask.DailyRepeat` | pkg/db/task.go:195-204 | the result is exactly `N` days after the current date, from one jump; errors pass through |
| `DbTask.WeeklyRepeat` | pkg/db/task.go:207-216 | the result is exactly `7 * N` days after the current date, from one jump |
| `DbTask.LastDayOfMonth` | pkg/db/task.go:234 | day 0 of the next month is the month's last day: no day of that month is later |
| `DbTask.MonthlyRepeat` | pkg/db/task.go:219-238 | the same day `N` months on when the target month has it; otherwise the last day of the month after the target month |
| `DbTask.YearlyRepeat` | pkg/db/task.go:241-250 | the same month and day `N` years on, except that February 29 in a common year becomes March 1 |
| `DbTask.NextDate` | pkg/db/task.go:165-192 | an empty rule, then a bad date, then fewer than two tokens fail in that order; a first token other than d, w, m or y fails; d, w, m and y hand the current date and the second token to the daily, weekly, monthly and yearly repeat |
| `DbTask.IsDateSearch` | pkg/db/task.go:82-85 | a search is a date search if and only if it is a real date of years 0 to 9999 written `dd.mm.yyyy` |
| `DbTask.ParseSearchDate` | pkg/db/task.go:82-94 | the search converts exactly when it is a `dd.mm.yyyy` date; the result moves the digit groups and parses back to the same date |
| `DbTask.SearchFilter` | pkg/db/task.go:23-51 | a date search is used first, then a non-empty text with pattern `%lowercase%`, and no filter for the empty search; no error is ever returned |
| `DbTask.ExtraTokensIgnored` | pkg/db/task.go:175-191 | rules that agree in their first two tokens give the same result |
| `DbTask.BareYearlyRejected` | pkg/db/task.go:176-178 | a bare `y` is rejected as too short |
| `DbTask.NoUpperBound` | pkg/db/task.go:195-203 | a 401-day interval is accepted: there is no upper bound |
| `DbTask.NonPositiveRefused` | pkg/db/task.go:195-248 | a count of zero or less is refused by every family |
| `DbTask.NonIntegerRefused` | pkg/db/task.go:195-248 | a count that is not an integer is refused by every family |
| `DbTask.DailyRepeatMovesForward` | pkg/db/task.go:203 | an accepted daily jump lands strictly after the current date |
| `DbTask.MonthlyOverflowExample` | pkg/db/task.go:229-235 | January 31 plus one month is March 31 (for 2023, "20230331"), not the end of February |
| `DbTask.YearlyLeapDayExample` | pkg/db/task.go:249 | February 29 plus one year is March 1 |
| `ApiAddTask.IsSameDay` | pkg/api/addtask.go:120-124 | comparing year, month and day is comparing day numbers |
| `ApiAddTask.PastDayIff` | pkg/api/addtask.go:101-102 | "before now and not the same day" means an earlier calendar day, whatever the time of day of `now` |
| `ApiAddTask.RescheduledNotPast` | pkg/api/addtask.go:104-108 | a date taken from the evaluator is not before today |
| `ApiAddTask.ProcessTaskDate` | pkg/api/addtask.go:76-118 | `today` in any ASCII case, or empty, becomes today. An unparseable date is an error and is kept. A past date takes the evaluator's result, or keeps the date and returns its error. A past date without a rule becomes today. Today or later is kept and the rule is not read. Only `date` is written, and on success it is never in the past |

## Left out

- HTTP handlers, routing, JSON, logging, the SQL queries and row scanning of
  `Tasks`, authentication and start-up. They are I/O around the modelled logic.
- Time zones. In the evaluator, `now` is the calendar day of the reference
  instant. A parsed date is midnight, so `date.After(now)` holds exactly when
  the date is a later day, whatever the time of day.
- `ApiAddTask.ProcessTaskDate` keeps the time of day of `now` (`Instant.sinceMidnight`),
  because `date.Before(now)` reads it.
- `ApiNextDate.MonthlySteps`, `ApiNextDate.HandleMonthlyRule` and `ApiNextDate.NextDate`
  run the monthly loop for at most `fuel` days. The source loop has no bound
  and never ends for rules such as `m 31 4` or `m 30 2`. `Diverges` stands for
  that endless loop, and `ApiAddTask.ProcessTaskDate` reports it as `RuleDiverges`.
- `DbTask.WeeklyRepeat`, `DbTask.DailyRepeat`, `DbTask.MonthlyRepeat`,
  `DbTask.YearlyRepeat` and `DbTask.DailyRepeatMovesForward`: `7 * N` and the
  `AddDate` counts (pkg/db/task.go:203, 215, 229, 249) are unbounded integers
  here. Go would wrap very large ones at 64 bits, so a huge count could move a
  date backwards there.
- Dates outside Go's time range are not modelled. `FormatYmd` of a year above
  9999 writes more than four digits, as Go does, but no round trip is claimed
  for such years.
- `GoText.EqualFold` and `GoText.ToLower` fold ASCII letters only. Go folds all
  of Unicode.
- `time.Parse` is modelled for the two fixed layouts only. Its error texts are
  not modelled.
- Error messages are constructors (`RuleError`, `LegacyError`, `DateError`),
  not strings. The `fmt.Errorf` wrapping of the parse error in `NextDate`
  becomes `InvalidDate`.
- `DbTask.SearchFilter`: the error branch after `isDateSearch` succeeds cannot
  run, because the string is parsed the same way twice. It is kept as written.

## Behaviour of the code worth knowing

- `handleYearlyRule` steps with `AddDate(1, 0, 0)` (pkg/api/nextdate.go:81). In
  a common year Go normalises February 29 to March 1, and every later step
  starts from March 1 (`LeapDayDrifts`).
- `parseDays` checks for "-1" and "-2" only when `strconv.Atoi` has failed
  (pkg/api/nextdate.go:172-186). `Atoi` accepts both strings, so those branches
  never run. `-1` then fails the range check with `InvalidDay`
  (`MinusOneIsInvalidDay`), and the last-day and penultimate-day tests of the
  monthly filter never accept a day (`MonthlyAcceptsPlainTest`).
- `monthlyRepeat` handles an overflowing day with
  `time.Date(year, month + 1, 0)` of the normalised date
  (pkg/db/task.go:229-235). That is the last day of the month after the target
  month, while the comment at pkg/db/task.go:231-232 says the last day of the
  target month. January 31 plus one month gives March 31
  (`MonthlyOverflowExample`).
