/**
 * The date normalisation of pkg/api/addtask.go, run on a task before it is
 * stored: "today" and the empty date become today's date, an unparseable date
 * is an error, a past date moves to the next occurrence of its rule (or to
 * today when there is no rule), and today or a later date stays as it is.
 */
module ApiAddTask {
  import opened Base
  import opened Calendar
  import opened GoText
  import opened DateFormat
  import opened ApiNextDate
  import DbTask

  /** `time.Now().UTC()`: a calendar day and how far into it the clock is. */
  datatype Instant = Instant(day: Date, sinceMidnight: nat)

  /** `date.Before(now)` for a date that `time.Parse` put at midnight. */
  predicate Before(date: Date, now: Instant) {
    Precedes(date, now.day) || (date == now.day && now.sinceMidnight > 0)
  }

  /** `isSameDay`: year, month and day agree, i.e. the same day number. */
  function IsSameDay(a: Date, b: Date): (r: bool)
    requires ValidDate(a) && ValidDate(b)
    ensures r <==> DayNumber(a) == DayNumber(b)
  {
    DayNumberFollowsCalendar(a, b);
    a.year == b.year && a.month == b.month && a.day == b.day
  }

  /** The past-date test of `processTaskDate`: a strictly earlier day, whatever
      the time of day of `now`; today is not in the past. */
  lemma PastDayIff(date: Date, now: Instant)
    requires ValidDate(date) && ValidDate(now.day)
    ensures Before(date, now) && !IsSameDay(date, now.day) <==> DayNumber(date) < DayNumber(now.day)
    ensures Before(date, now) && !IsSameDay(date, now.day) <==> Precedes(date, now.day)
  {
    DayNumberFollowsCalendar(date, now.day);
  }

  /** The errors `processTaskDate` returns: its own parse error, an error of
      the evaluator passed through, or the evaluator's monthly loop not ending
      (the source then never returns). */
  datatype DateError = InvalidDateFormat | RuleFailed(error: RuleError) | RuleDiverges

  /** How the evaluator's outcome settles the task: a date is stored, an error
      leaves the date as it was. */
  predicate Settles(r: Outcome, before: string, after: string, err: Option<DateError>) {
    match r
    case Next(s) => err == None && after == s
    case Failed(e) => err == Some(RuleFailed(e)) && after == before
    case Diverges => err == Some(RuleDiverges) && after == before
  }

  /** A date the evaluator returns is not before today. */
  lemma RescheduledNotPast(now: Date, anchor: Date, parts: seq<string>, fuel: nat, r: Outcome)
    requires ValidDate(now) && ValidDate(anchor)
    requires RuleContract(now, anchor, parts, fuel, r) && r.Next?
    ensures exists d :: ValidDate(d) && r.date == FormatYmd(d) && !Precedes(d, now)
  {
    NextIsAfterNow(now, anchor, parts, fuel, r);
    var d :| ValidDate(d) && AfterNow(d, now) && r.date == FormatYmd(d);
    DayNumberFollowsCalendar(d, now);
  }

  /** `processTaskDate`: rewrites `task.Date` in place and reports an error. */
  method ProcessTaskDate(task: DbTask.Task, now: Instant, fuel: nat) returns (err: Option<DateError>)
    requires ValidDate(now.day)
    modifies task`date
    ensures EqualFold(old(task.date), "today") || old(task.date) == "" ==>
              err == None && task.date == FormatYmd(now.day)
    ensures !EqualFold(old(task.date), "today") && old(task.date) != "" && ParseYmd(old(task.date)).None? ==>
              err == Some(InvalidDateFormat) && task.date == old(task.date)
    ensures !EqualFold(old(task.date), "today") && old(task.date) != "" && ParseYmd(old(task.date)).Some? ==>
              var date := ParseYmd(old(task.date)).value;
              if !Precedes(date, now.day) then err == None && task.date == old(task.date)
              else if task.repeat == "" then err == None && task.date == FormatYmd(now.day)
              else exists r :: RuleContract(now.day, date, Fields(task.repeat), fuel, r)
                               && Settles(r, old(task.date), task.date, err)
    ensures err == None ==> exists d :: ValidDate(d) && task.date == FormatYmd(d) && !Precedes(d, now.day)
  {
    if EqualFold(task.date, "today") {
      task.date := FormatYmd(now.day);
      return None;
    }
    if task.date == "" {
      task.date := FormatYmd(now.day);
      return None;
    }
    var parsed := ParseYmd(task.date);
    if parsed.None? {
      return Some(InvalidDateFormat);
    }
    var date := parsed.value;
    PastDayIff(date, now);
    if Before(date, now) && !IsSameDay(date, now.day) {
      if task.repeat != "" {
        var r := ApiNextDate.NextDate(now.day, task.date, task.repeat, fuel);
        match r
        case Next(next) =>
          RescheduledNotPast(now.day, date, Fields(task.repeat), fuel, r);
          task.date := next;
          err := None;
        case Failed(e) =>
          err := Some(RuleFailed(e));
        case Diverges =>
          err := Some(RuleDiverges);
      } else {
        task.date := FormatYmd(now.day);
        err := None;
      }
    } else {
      ParseFormatRoundTrip(task.date);
      err := None;
    }
  }
}
