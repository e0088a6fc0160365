/**
 * The two fixed date layouts the scheduler parses with `time.Parse`
 * ("20060102" and "02.01.2006") and the one it formats with `Time.Format`
 * ("20060102").  Parsing demands fixed-width digits and a day that exists
 * in its month.
 */
module DateFormat {
  import opened Base
  import opened Calendar
  import opened GoText

  function DateIfReal(year: int, month: int, day: int): (r: Option<Date>)
    ensures r.Some? <==> ValidDate(Date(year, month, day))
    ensures r.Some? ==> r.value == Date(year, month, day)
  {
    if 1 <= month <= 12 && 1 <= day <= DaysInMonth(year, month) then Some(Date(year, month, day)) else None
  }

  /** `time.Parse("20060102", s)`. */
  function ParseYmd(s: string): (r: Option<Date>)
    ensures r.Some? ==> ValidDate(r.value) && 0 <= r.value.year <= 9999
  {
    if |s| != 8 || !AllDigits(s) then None
    else
      assert AllDigits(s[..4]) && AllDigits(s[4..6]) && AllDigits(s[6..]);
      DigitsValueBound(s[..4]);
      DateIfReal(DigitsValue(s[..4]), DigitsValue(s[4..6]), DigitsValue(s[6..]))
  }

  /** `time.Parse("02.01.2006", s)`. */
  function ParseDmy(s: string): (r: Option<Date>)
    ensures r.Some? ==> ValidDate(r.value) && 0 <= r.value.year <= 9999
  {
    if |s| != 10 || s[2] != '.' || s[5] != '.' then None
    else if !AllDigits(s[..2]) || !AllDigits(s[3..5]) || !AllDigits(s[6..]) then None
    else DigitsValueBound(s[6..]); DateIfReal(DigitsValue(s[6..]), DigitsValue(s[3..5]), DigitsValue(s[..2]))
  }

  /** `t.Format("20060102")`: the year padded to four digits (with a sign when
      negative), then two-digit month and day. */
  function FormatYmd(d: Date): string
    requires ValidDate(d)
  {
    (if d.year < 0 then "-" + Pad(-d.year, 4) else Pad(d.year, 4)) + Pad(d.month, 2) + Pad(d.day, 2)
  }

  /** A date of years 0 to 9999 formats to eight digits that parse back to it. */
  lemma FormatParseRoundTrip(d: Date)
    requires ValidDate(d) && 0 <= d.year <= 9999
    ensures |FormatYmd(d)| == 8 && AllDigits(FormatYmd(d))
    ensures ParseYmd(FormatYmd(d)) == Some(d)
  {
    PadValue(d.year, 4);
    PadValue(d.month, 2);
    PadValue(d.day, 2);
    var s := FormatYmd(d);
    assert s[..4] == Pad(d.year, 4);
    assert s[4..6] == Pad(d.month, 2);
    assert s[6..] == Pad(d.day, 2);
  }

  /** Every string `time.Parse` accepts is exactly how its date is formatted back. */
  lemma ParseFormatRoundTrip(s: string)
    requires ParseYmd(s).Some?
    ensures FormatYmd(ParseYmd(s).value) == s
  {
    var d := ParseYmd(s).value;
    assert AllDigits(s[..4]) && AllDigits(s[4..6]) && AllDigits(s[6..]);
    PadDigitsValue(s[..4]);
    PadDigitsValue(s[4..6]);
    PadDigitsValue(s[6..]);
    assert s == s[..4] + s[4..6] + s[6..];
  }

  /** The text the layout "02.01.2006" gives a date of a non-negative year. */
  function FormatDmy(d: Date): string
    requires ValidDate(d) && 0 <= d.year
  {
    Pad(d.day, 2) + "." + Pad(d.month, 2) + "." + Pad(d.year, 4)
  }

  /** Every real date of years 0 to 9999, written as `dd.mm.yyyy`, is accepted. */
  lemma DmyAccepts(d: Date)
    requires ValidDate(d) && 0 <= d.year <= 9999
    ensures ParseDmy(FormatDmy(d)) == Some(d)
  {
    PadValue(d.day, 2);
    PadValue(d.month, 2);
    PadValue(d.year, 4);
    var s := FormatDmy(d);
    assert s[..2] == Pad(d.day, 2);
    assert s[3..5] == Pad(d.month, 2);
    assert s[6..] == Pad(d.year, 4);
  }

  /** Every accepted `dd.mm.yyyy` string is exactly how its date is written. */
  lemma DmyWritesBack(s: string)
    requires ParseDmy(s).Some?
    ensures FormatDmy(ParseDmy(s).value) == s
  {
    PadDigitsValue(s[..2]);
    PadDigitsValue(s[3..5]);
    PadDigitsValue(s[6..]);
    assert s == s[..2] + [s[2]] + s[3..5] + [s[5]] + s[6..];
  }

  /** The strings "02.01.2006" accepts are exactly the written dates of years 0 to 9999. */
  lemma DmyAcceptsExactly(s: string)
    ensures ParseDmy(s).Some? <==> exists d :: ValidDate(d) && 0 <= d.year <= 9999 && FormatDmy(d) == s
  {
    if ParseDmy(s).Some? {
      DmyWritesBack(s);
    }
    if exists d :: ValidDate(d) && 0 <= d.year <= 9999 && FormatDmy(d) == s {
      var d :| ValidDate(d) && 0 <= d.year <= 9999 && FormatDmy(d) == s;
      DmyAccepts(d);
    }
  }

  /** A `dd.mm.yyyy` date formats as `yyyymmdd` by moving its digit groups. */
  lemma DmyToYmd(s: string)
    requires ParseDmy(s).Some?
    ensures FormatYmd(ParseDmy(s).value) == s[6..] + s[3..5] + s[..2]
  {
    PadDigitsValue(s[6..]);
    PadDigitsValue(s[3..5]);
    PadDigitsValue(s[..2]);
  }
}
