/**
 * Calendar dates and the strict year-month-day reader that
 * `pd.to_datetime(..., format="%Y-%m-%d", errors="coerce")` applies.
 */
module Calendar {
  import opened Wrappers
  import opened Numerals

  datatype CalendarDate = CalendarDate(year: int, month: int, day: int)

  /** Gregorian leap years. */
  predicate IsLeapYear(y: int) {
    y % 4 == 0 && (y % 100 != 0 || y % 400 == 0)
  }

  function DaysInMonth(y: int, m: int): (n: int)
    requires 1 <= m <= 12
    ensures 28 <= n <= 31
  {
    if m == 2 then (if IsLeapYear(y) then 29 else 28)
    else if m == 4 || m == 6 || m == 9 || m == 11 then 30
    else 31
  }

  /** The date exists in the Gregorian calendar. */
  predicate ValidDate(d: CalendarDate) {
    1 <= d.month <= 12 && 1 <= d.day <= DaysInMonth(d.year, d.month)
  }

  /** `a` is the same day as `b` or an earlier one. */
  predicate NotAfter(a: CalendarDate, b: CalendarDate) {
    || a.year < b.year
    || (a.year == b.year && a.month < b.month)
    || (a.year == b.year && a.month == b.month && a.day <= b.day)
  }

  /**
   * pandas timestamps count nanoseconds in 64 bits: the first midnight they can hold is
   * that of 1677-09-22 and the last that of 2262-04-11. A date outside is coerced to NaT.
   */
  const FirstTimestampDate := CalendarDate(1677, 9, 22)
  const LastTimestampDate := CalendarDate(2262, 4, 11)

  predicate InTimestampRange(d: CalendarDate) {
    NotAfter(FirstTimestampDate, d) && NotAfter(d, LastTimestampDate)
  }

  /**
   * `%Y-%m-%d`: four year digits, '-', a month of one or two digits, '-', a day of
   * one or two digits and nothing else; the date must exist and fit a timestamp.
   */
  function ParseIsoDate(s: string): (r: Option<CalendarDate>)
    ensures r.Some? ==> ValidDate(r.value) && InTimestampRange(r.value)
    ensures r.Some? ==> |s| >= 8 && AllDigits(s[..4]) && s[4] == '-'
  {
    if |s| < 5 || !AllDigits(s[..4]) || s[4] != '-' then None
    else
      var rest := s[5..];
      var k := IndexOf(rest, '-');
      if k == |rest| then None
      else
        var mm, dd := rest[..k], rest[k + 1..];
        if 1 <= |mm| <= 2 && 1 <= |dd| <= 2 && AllDigits(mm) && AllDigits(dd) then
          var d := CalendarDate(Value(s[..4]), Value(mm), Value(dd));
          if ValidDate(d) && InTimestampRange(d) then Some(d) else None
        else None
  }

  /** The zero-padded `YYYY-MM-DD` text of a date that a timestamp can hold. */
  function FormatIsoDate(d: CalendarDate): (s: string)
    requires ValidDate(d) && InTimestampRange(d)
    ensures |s| == 10
  {
    Digits(d.year, 4) + "-" + Digits(d.month, 2) + "-" + Digits(d.day, 2)
  }

  /** Every date a timestamp can hold is read back from its zero-padded text. */
  lemma ParseIsoDateRoundTrip(d: CalendarDate)
    requires ValidDate(d) && InTimestampRange(d)
    ensures ParseIsoDate(FormatIsoDate(d)) == Some(d)
  {
    var y, m, dd := Digits(d.year, 4), Digits(d.month, 2), Digits(d.day, 2);
    var s := FormatIsoDate(d);
    assert s == y + ("-" + (m + "-" + dd));
    assert s[..4] == y && s[4] == '-';
    var rest := s[5..];
    assert rest == m + ("-" + dd);
    IndexOfAfterDigits(m, "-" + dd, '-');
    assert IndexOf(rest, '-') == 2;
    assert rest[..2] == m && rest[3..] == dd;
  }

  /**
   * Four year digits, '-', a month of one or two digits, '-' and a day of one or two
   * digits are read as that date when it exists and fits a timestamp, and as nothing otherwise.
   */
  lemma ParseIsoDateFields(y: string, m: string, dd: string)
    requires |y| == 4 && AllDigits(y) && 1 <= |m| <= 2 && AllDigits(m) && 1 <= |dd| <= 2 && AllDigits(dd)
    ensures var d := CalendarDate(Value(y), Value(m), Value(dd));
      ParseIsoDate(y + "-" + m + "-" + dd) == if ValidDate(d) && InTimestampRange(d) then Some(d) else None
  {
    var s := y + "-" + m + "-" + dd;
    DateCut(y, m, dd);
    MonthDayCut(m, dd);
    var rest := s[5..];
    assert rest[..IndexOf(rest, '-')] == m && rest[IndexOf(rest, '-') + 1..] == dd;
  }

  /** The year and its '-' are the first five characters of the text. */
  lemma DateCut(y: string, m: string, dd: string)
    requires |y| == 4
    ensures var s := y + "-" + m + "-" + dd;
      |s| >= 5 && s[..4] == y && s[4] == '-' && s[5..] == m + "-" + dd
  {
    var s := y + "-" + m + "-" + dd;
    assert s == y + ("-" + (m + "-" + dd));
  }

  /** Month digits, '-' and the day are cut apart at the first '-'. */
  lemma MonthDayCut(m: string, dd: string)
    requires AllDigits(m)
    ensures var rest := m + "-" + dd;
      && IndexOf(rest, '-') == |m| && rest[..|m|] == m && rest[|m| + 1..] == dd
  {
    assert m + "-" + dd == m + ("-" + dd);
    IndexOfAfterDigits(m, "-" + dd, '-');
  }

  /** Every text read as a date has that form, and gives the date its three fields spell. */
  lemma ParseIsoDateShape(s: string) returns (m: string, dd: string)
    requires ParseIsoDate(s).Some?
    ensures 1 <= |m| <= 2 && AllDigits(m) && 1 <= |dd| <= 2 && AllDigits(dd)
    ensures |s| >= 8 && AllDigits(s[..4]) && s == s[..4] + "-" + m + "-" + dd
    ensures ParseIsoDate(s) == Some(CalendarDate(Value(s[..4]), Value(m), Value(dd)))
  {
    var rest := s[5..];
    var k := IndexOf(rest, '-');
    m, dd := rest[..k], rest[k + 1..];
    assert rest == m + "-" + dd;
    assert s == s[..4] + "-" + rest;
  }

  /** Month and day need no zero padding: "2024-3-1" is the first of March 2024. */
  lemma UnpaddedDate()
    ensures ParseIsoDate("2024-3-1") == Some(CalendarDate(2024, 3, 1))
  {
    YearValue();
    assert Value("3") == 3 && Value("1") == 1 by {
      assert "3"[..0] == [] && "1"[..0] == [];
    }
    var d := CalendarDate(2024, 3, 1);
    assert ValidDate(d) && InTimestampRange(d);
    ParseIsoDateFields("2024", "3", "1");
    assert "2024" + "-" + "3" + "-" + "1" == "2024-3-1";
  }

  /** The digits of the year in `UnpaddedDate`, read one at a time. */
  lemma YearValue()
    ensures Value("2024") == 2024
  {
    assert "2"[..0] == [];
    assert Value("2") == 2;
    assert "20"[..1] == "2";
    assert Value("20") == 20;
    assert "202"[..2] == "20";
    assert Value("202") == 202;
    assert "2024"[..3] == "202";
  }

  /** Nothing may follow the day: "2024-03-11x" is not a date. */
  lemma TrailingTextRejected()
    ensures ParseIsoDate("2024-03-11x") == None
  {
    var rest := "2024-03-11x"[5..];
    assert rest == "03" + ("-" + "11x");
    IndexOfAfterDigits("03", "-" + "11x", '-');
  }

  /** Day-first text such as `11/03/2024` is not a `%Y-%m-%d` date. */
  lemma DayFirstRejected()
    ensures ParseIsoDate("11/03/2024") == None
  {
    assert !IsDigit("11/03/2024"[2]);
  }
}
