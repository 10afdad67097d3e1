/** The weekday rules for the latest bookable date of a place. A date
    string is read with Go's layout `2006-01-02` (the full-date form of
    section 5.6 of RFC 3339 with a four-digit year); a string that does
    not parse gives Go's zero time, 0001-01-01. The weekday is computed
    with the formula of Appendix B of RFC 3339. */
module Dates {
  import opened Wrappers

  datatype Date = Date(year: int, month: int, day: int)

  /** Go's `time.Weekday`, in its order: Sunday is 0. */
  datatype Weekday = Sunday | Monday | Tuesday | Wednesday | Thursday | Friday | Saturday

  /** Go's zero `time.Time`, which a failed parse returns. */
  const ZeroTime := Date(1, 1, 1)

  predicate IsLeap(y: int) {
    y % 4 == 0 && (y % 100 != 0 || y % 400 == 0)
  }

  /** The number of days of month `m` of year `y`. */
  function DaysIn(m: int, y: int): (n: int)
    requires 1 <= m <= 12
    ensures 28 <= n <= 31
    ensures m == 2 ==> (n == 29 <==> IsLeap(y))
  {
    if m == 2 then (if IsLeap(y) then 29 else 28)
    else if m == 4 || m == 6 || m == 9 || m == 11 then 30
    else 31
  }

  /** A calendar date a four-digit layout can hold. */
  predicate WellFormed(d: Date) {
    0 <= d.year <= 9999 && 1 <= d.month <= 12 && 1 <= d.day <= DaysIn(d.month, d.year)
  }

  // ----- Reading and writing the layout -----

  predicate IsDigit(c: char) {
    '0' <= c <= '9'
  }

  function DigitValue(c: char): (n: nat)
    requires IsDigit(c)
    ensures n <= 9
  {
    c as int - '0' as int
  }

  function DigitChar(n: nat): (c: char)
    requires n <= 9
    ensures IsDigit(c) && DigitValue(c) == n
  {
    ('0' as int + n) as char
  }

  /** The digits of `s[i..i + w]`, all of which must be digits. */
  predicate DigitsAt(s: string, i: nat, w: nat) {
    i + w <= |s| && forall k :: i <= k < i + w ==> IsDigit(s[k])
  }

  function Num2(s: string, i: nat): (n: nat)
    requires DigitsAt(s, i, 2)
    ensures n <= 99
  {
    10 * DigitValue(s[i]) + DigitValue(s[i + 1])
  }

  function Num4(s: string, i: nat): (n: nat)
    requires DigitsAt(s, i, 4)
    ensures n <= 9999
  {
    100 * Num2(s, i) + Num2(s, i + 2)
  }

  /** `n` written with exactly two digits. */
  function Pad2(n: nat): (s: string)
    requires n <= 99
    ensures |s| == 2 && DigitsAt(s, 0, 2) && Num2(s, 0) == n
  {
    [DigitChar(n / 10), DigitChar(n % 10)]
  }

  /** `n` written with exactly four digits. */
  function Pad4(n: nat): (s: string)
    requires n <= 9999
    ensures |s| == 4 && DigitsAt(s, 0, 4) && Num4(s, 0) == n
  {
    var s := Pad2(n / 100) + Pad2(n % 100);
    assert Num2(s, 0) == n / 100 && Num2(s, 2) == n % 100;
    s
  }

  /** The date in the layout `2006-01-02`. */
  function Format(d: Date): (s: string)
    requires WellFormed(d)
    ensures |s| == 10
  {
    Pad4(d.year) + "-" + Pad2(d.month) + "-" + Pad2(d.day)
  }

  /** The shape Go's parser demands: four digits, a dash, two digits, a
      dash, two digits, and nothing after. */
  predicate Shaped(s: string) {
    |s| == 10 && DigitsAt(s, 0, 4) && s[4] == '-' && DigitsAt(s, 5, 2) && s[7] == '-' && DigitsAt(s, 8, 2)
  }

  /** Two digit strings with the same value are the same string. */
  lemma Num2Injective(s: string, i: nat, t: string, j: nat)
    requires DigitsAt(s, i, 2) && DigitsAt(t, j, 2) && Num2(s, i) == Num2(t, j)
    ensures s[i] == t[j] && s[i + 1] == t[j + 1]
  {
    assert DigitValue(s[i]) == Num2(s, i) / 10 && DigitValue(t[j]) == Num2(t, j) / 10;
  }

  /** A shaped string naming a real day is the text of that day. */
  lemma ShapedFormatsBack(s: string)
    requires Shaped(s) && 1 <= Num2(s, 5) <= 12 && 1 <= Num2(s, 8) <= DaysIn(Num2(s, 5), Num4(s, 0))
    ensures Format(Date(Num4(s, 0), Num2(s, 5), Num2(s, 8))) == s
  {
    var y := Num4(s, 0);
    var t := Format(Date(y, Num2(s, 5), Num2(s, 8)));
    Num2Injective(s, 0, t, 0);
    Num2Injective(s, 2, Pad4(y), 2);
    Num2Injective(s, 5, t, 5);
    Num2Injective(s, 8, t, 8);
    assert t == s;
  }

  /** `time.Parse("2006-01-02", s)`: the date when `s` has the layout's
      shape and names a real day (month 1 to 12, day within the month),
      and nothing otherwise. */
  function Parse(s: string): (r: Option<Date>)
    ensures r.Some? ==> WellFormed(r.value) && Format(r.value) == s
    ensures r.Some? <==> Shaped(s) && 1 <= Num2(s, 5) <= 12 && 1 <= Num2(s, 8) <= DaysIn(Num2(s, 5), Num4(s, 0))
  {
    if !Shaped(s) then None
    else
      var y, m, d := Num4(s, 0), Num2(s, 5), Num2(s, 8);
      if 1 <= m <= 12 && 1 <= d <= DaysIn(m, y) then
        ShapedFormatsBack(s);
        Some(Date(y, m, d))
      else None
  }

  /** Every date the layout can hold is read back from its text. */
  lemma FormatParse(d: Date)
    requires WellFormed(d)
    ensures Parse(Format(d)) == Some(d)
  {
    var s := Format(d);
    assert Shaped(s);
    assert Num4(s, 0) == d.year by {
      assert s[..4] == Pad4(d.year);
    }
    assert Num2(s, 5) == d.month && Num2(s, 8) == d.day;
  }

  /** `parseDate`: the parsed date, or Go's zero time when parsing fails. */
  function ParseDate(s: string): (d: Date)
    ensures WellFormed(d)
    ensures Parse(s).Some? ==> d == Parse(s).value
    ensures Parse(s).None? ==> d == ZeroTime
  {
    match Parse(s)
    case Some(d) => d
    case None => ZeroTime
  }

  // ----- Weekdays -----

  function WeekdayFromIndex(i: int): Weekday
    requires 0 <= i < 7
  {
    [Sunday, Monday, Tuesday, Wednesday, Thursday, Friday, Saturday][i]
  }

  /** The sum of Appendix B of RFC 3339 before its final `% 7`: months are
      counted from March so that February is last, and the year is split
      into century and year of century. Dafny's `/` and `%` round down,
      which keeps the formula right before year 1 as well. */
  function DayCount(d: Date): int {
    var m := if d.month - 2 < 1 then d.month - 2 + 12 else d.month - 2;
    var y := if d.month - 2 < 1 then d.year - 1 else d.year;
    var cent := y / 100;
    var yy := y % 100;
    (26 * m - 2) / 10 + d.day + yy + yy / 4 + cent / 4 + 5 * cent
  }

  /** The day of the week of a date. */
  function WeekdayOf(d: Date): Weekday {
    WeekdayFromIndex(DayCount(d) % 7)
  }

  /** `convertDateToDayOfWeek`: the weekday of the parsed date, and
      Monday, the weekday of the zero time, for text that does not parse. */
  function DayOfWeek(s: string): (w: Weekday)
    ensures Parse(s).Some? ==> w == WeekdayOf(Parse(s).value)
    ensures Parse(s).None? ==> w == Monday
  {
    ZeroTimeIsMonday();
    WeekdayOf(ParseDate(s))
  }

  /** `validCityDate`: city offices book any day except at weekends. */
  predicate ValidCityDate(s: string) {
    DayOfWeek(s) != Saturday && DayOfWeek(s) != Sunday
  }

  /** `validDepartmentDate`: heads of department receive on Tuesdays and
      Thursdays only. */
  predicate ValidDepartmentDate(s: string) {
    DayOfWeek(s) == Tuesday || DayOfWeek(s) == Thursday
  }

  /** Each rule holds exactly on its days, stated over the parsed date. */
  lemma RulesByWeekday(s: string)
    ensures ValidCityDate(s) <==> WeekdayOf(ParseDate(s)) in {Monday, Tuesday, Wednesday, Thursday, Friday}
    ensures ValidDepartmentDate(s) <==> WeekdayOf(ParseDate(s)) in {Tuesday, Thursday}
  {
  }

  /** A date a department accepts is one a city office accepts. */
  lemma DepartmentDateIsCityDate(s: string)
    requires ValidDepartmentDate(s)
    ensures ValidCityDate(s)
  {
  }

  /** The zero time is a Monday. */
  lemma ZeroTimeIsMonday()
    ensures WeekdayOf(ZeroTime) == Monday
  {
    assert DayCount(ZeroTime) == 29;
  }

  /** A string that does not parse counts as a Monday: it passes the city
      rule and fails the department rule. */
  lemma UnparsableIsMonday(s: string)
    requires Parse(s).None?
    ensures DayOfWeek(s) == Monday
    ensures ValidCityDate(s) && !ValidDepartmentDate(s)
  {
  }

  /** The text of a date of July 2017. */
  lemma July2017Text(day: nat, text: string)
    requires 10 <= day <= 31 && text == "2017-07-" + Pad2(day)
    ensures Parse(text) == Some(Date(2017, 7, day))
  {
    var d := Date(2017, 7, day);
    FormatParse(d);
    assert Pad2(20) == "20" && Pad2(17) == "17" && Pad2(7) == "07";
    assert Pad4(2017) == "2017";
    assert Format(d) == text;
  }

  /** 2017-07-20, a date of the queue's tests, is a Thursday, which both
      rules accept. */
  lemma SampleThursday()
    ensures DayOfWeek("2017-07-20") == Thursday
    ensures ValidCityDate("2017-07-20") && ValidDepartmentDate("2017-07-20")
  {
    assert Pad2(20) == "20";
    July2017Text(20, "2017-07-20");
    assert DayCount(Date(2017, 7, 20)) == 158;
  }

  /** 2017-07-23, another date of the queue's tests, is a Sunday, which
      both rules reject. */
  lemma SampleSunday()
    ensures DayOfWeek("2017-07-23") == Sunday
    ensures !ValidCityDate("2017-07-23") && !ValidDepartmentDate("2017-07-23")
  {
    assert Pad2(23) == "23";
    July2017Text(23, "2017-07-23");
    assert DayCount(Date(2017, 7, 23)) == 161;
  }

  // ----- The weekday formula against the calendar -----

  /** The day after `d`. */
  function NextDay(d: Date): (n: Date)
    requires 1 <= d.month <= 12 && 1 <= d.day <= DaysIn(d.month, d.year)
    ensures 1 <= n.month <= 12 && 1 <= n.day <= DaysIn(n.month, n.year)
  {
    if d.day < DaysIn(d.month, d.year) then Date(d.year, d.month, d.day + 1)
    else if d.month < 12 then Date(d.year, d.month + 1, 1)
    else Date(d.year + 1, 1, 1)
  }

  /** The year part of the formula. */
  function YearPart(y: int): int {
    y % 100 + (y % 100) / 4 + (y / 100) / 4 + 5 * (y / 100)
  }

  /** Dividing a year by 4 or by 400 through its century split. */
  lemma CenturySplit(c: int, r: int)
    requires 0 <= r < 100
    ensures (100 * c + r) / 4 == 25 * c + r / 4
    ensures (100 * c + r) / 100 == c
    ensures (100 * c + r) / 400 == c / 4
  {
    var t := r / 4;
    assert 100 * c + r == 4 * (25 * c + t) + (r - 4 * t);
    var u := c / 4;
    assert 100 * c + r == 400 * u + (100 * (c - 4 * u) + r);
  }

  /** Adding whole weeks does not change the weekday. */
  lemma AddWeeks(a: int, k: int)
    ensures (a + 7 * k) % 7 == a % 7
  {
    var q, r := a / 7, a % 7;
    assert a + 7 * k == 7 * (q + k) + r;
  }

  /** Splitting at the century gives, up to whole weeks, the usual count
      of a year plus its leap days. */
  lemma YearPartLeapDays(y: int)
    ensures y + y / 4 - y / 100 + y / 400 == YearPart(y) + 7 * (17 * (y / 100))
  {
    var c, r := y / 100, y % 100;
    assert y == 100 * c + r;
    CenturySplit(c, r);
  }

  /** From one year to the next the count of years and leap days grows by
      one, and by one more when the new year is a leap year. */
  lemma LeapDaysStep(y: int)
    ensures (y + y / 4 - y / 100 + y / 400) - ((y - 1) + (y - 1) / 4 - (y - 1) / 100 + (y - 1) / 400)
      == if IsLeap(y) then 2 else 1
  {
    assert y / 4 - (y - 1) / 4 == if y % 4 == 0 then 1 else 0;
    assert y / 100 - (y - 1) / 100 == if y % 100 == 0 then 1 else 0;
    assert y / 400 - (y - 1) / 400 == if y % 400 == 0 then 1 else 0;
    if y % 100 == 0 {
      assert y % 4 == 0;
    }
    if y % 400 == 0 {
      assert y % 100 == 0;
    }
  }

  /** The month term of the formula, months counted from March. */
  function MonthPart(m: int): int {
    (26 * m - 2) / 10
  }

  /** The formula split into its month, day and year parts. */
  lemma DayCountParts(d: Date)
    ensures d.month <= 2 ==> DayCount(d) == MonthPart(d.month + 10) + d.day + YearPart(d.year - 1)
    ensures d.month > 2 ==> DayCount(d) == MonthPart(d.month - 2) + d.day + YearPart(d.year)
  {
  }

  /** Across the end of a month other than February, the month term grows
      by the length of that month less four weeks. */
  lemma MonthPartStep(m: int)
    requires 1 <= m <= 12 && m != 2
    ensures m == 1 ==> MonthPart(12) - MonthPart(11) == DaysIn(1, 0) - 28
    ensures m == 12 ==> MonthPart(11) - MonthPart(10) == DaysIn(12, 0) - 28
    ensures 3 <= m <= 11 ==> MonthPart(m - 1) - MonthPart(m - 2) == DaysIn(m, 0) - 28
  {
  }

  /** The counts of the last day of February and of March 1. */
  lemma FebruaryCounts(y: int)
    ensures DayCount(Date(y, 2, DaysIn(2, y))) == 31 + DaysIn(2, y) + YearPart(y - 1)
    ensures DayCount(Date(y, 3, 1)) == 3 + YearPart(y)
  {
    DayCountParts(Date(y, 2, DaysIn(2, y)));
    DayCountParts(Date(y, 3, 1));
  }

  /** The year part grows by one, or two into a leap year, up to whole
      weeks. */
  lemma YearPartDiff(y: int)
    ensures YearPart(y) - YearPart(y - 1)
      == (if IsLeap(y) then 2 else 1) - 7 * (17 * (y / 100 - (y - 1) / 100))
  {
    YearPartLeapDays(y);
    YearPartLeapDays(y - 1);
    LeapDaysStep(y);
  }

  /** The end of February of year `y` is followed by March 1 on the next
      weekday. */
  lemma EndOfFebruary(y: int)
    ensures DayCount(Date(y, 3, 1)) % 7 == (DayCount(Date(y, 2, DaysIn(2, y))) + 1) % 7
  {
    var a, b := DayCount(Date(y, 2, DaysIn(2, y))), DayCount(Date(y, 3, 1));
    FebruaryCounts(y);
    YearPartDiff(y);
    var centuries := y / 100 - (y - 1) / 100;
    assert b == a + 1 + 7 * (-8 - 17 * centuries);
    AddWeeks(a + 1, -8 - 17 * centuries);
  }

  /** Inside a month the count grows by one from day to day. */
  lemma WithinMonth(d: Date)
    requires 1 <= d.month <= 12 && 1 <= d.day < DaysIn(d.month, d.year)
    ensures DayCount(NextDay(d)) == DayCount(d) + 1
  {
    DayCountParts(d);
    DayCountParts(NextDay(d));
  }

  /** Across the end of a month other than February the count grows by
      one less four weeks. */
  lemma MonthEndCount(d: Date)
    requires 1 <= d.month <= 12 && d.month != 2 && d.day == DaysIn(d.month, d.year)
    ensures DayCount(NextDay(d)) == DayCount(d) + 1 - 28
  {
    MonthPartStep(d.month);
    assert DaysIn(d.month, d.year) == DaysIn(d.month, 0);
    if d.month == 1 {
      assert NextDay(d) == Date(d.year, 2, 1);
      DayCountParts(d);
      DayCountParts(Date(d.year, 2, 1));
    } else if d.month == 12 {
      assert NextDay(d) == Date(d.year + 1, 1, 1);
      DayCountParts(d);
      DayCountParts(Date(d.year + 1, 1, 1));
    } else {
      assert NextDay(d) == Date(d.year, d.month + 1, 1);
      DayCountParts(d);
      DayCountParts(Date(d.year, d.month + 1, 1));
    }
  }

  /** The last day of a month other than February is followed by the
      first of the next month on the next weekday. */
  lemma EndOfOtherMonth(d: Date)
    requires 1 <= d.month <= 12 && d.month != 2 && d.day == DaysIn(d.month, d.year)
    ensures DayCount(NextDay(d)) % 7 == (DayCount(d) + 1) % 7
  {
    MonthEndCount(d);
    AddWeeks(DayCount(d) + 1, -4);
  }

  /** The weekday formula agrees with the calendar: the day after any date
      falls on the next weekday. */
  lemma NextDayIsNextWeekday(d: Date)
    requires 1 <= d.month <= 12 && 1 <= d.day <= DaysIn(d.month, d.year)
    ensures DayCount(NextDay(d)) % 7 == (DayCount(d) + 1) % 7
  {
    if d.day < DaysIn(d.month, d.year) {
      WithinMonth(d);
    } else if d.month == 2 {
      EndOfFebruary(d.year);
    } else {
      EndOfOtherMonth(d);
    }
  }
}
