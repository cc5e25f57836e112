/**
 * The `DateUtils` helpers of src/utils/repeatUtils.ts and the JavaScript
 * `Date` operations they are built from, on naive calendar dates.
 */
module DateUtils {
  import opened Types
  import opened Calendar
  import opened Text

  /**
   * `new Date(Date.UTC(year, month, day))`: month and day may lie outside
   * their ranges and are carried over, so day 0 is the last day of the month
   * before and a day past the end of a month rolls into the next one.
   * `Date.UTC` also reads a year from 0 to 99 as 1900 to 1999; that mapping
   * is not part of this model, which takes every year as written.
   */
  function CreateUTCDate(year: int, month: int, day: int): (r: CalDate)
    ensures DayNumber(r) == MonthStart(12 * year + month) + day - 1
  {
    Roll(12 * year + month, day)
  }

  /** An existing day is left as it is. */
  lemma CreateUTCDateExisting(year: int, month: int, day: int)
    requires 0 <= month < 12 && 1 <= day <= DaysInMonth(year, month)
    ensures CreateUTCDate(year, month, day) == Date(year, month, day)
  {
    hide MonthStart;
    var mi := 12 * year + month;
    MonthIndexOf(year, month);
    assert MonthLength(mi) == DaysInMonth(year, month);
    RollInMonth(mi, day);
    assert DateIn(mi, day) == Date(year, month, day);
  }

  /** `Date.UTC(y, m + 1, 0)` is the last day of month `m` of year `y`. */
  lemma {:induction false} CreateUTCDateDayZero(year: int, month: int)
    requires 0 <= month < 12
    ensures CreateUTCDate(year, month + 1, 0) == Date(year, month, DaysInMonth(year, month))
  {
    RollDayZero(12 * year + month + 1);
    MonthIndexOf(year, month);
  }

  /** A day 1 .. 28 past the end of a month lands in the next month. */
  lemma CreateUTCDateSpill(year: int, month: int, day: int)
    requires MonthLength(12 * year + month) < day <= MonthLength(12 * year + month) + 28
    ensures CreateUTCDate(year, month, day) == DateIn(12 * year + month + 1, day - MonthLength(12 * year + month))
  {
    RollIntoNext(12 * year + month, day);
  }

  /** `d.setDate(day)`. */
  function SetDate(d: CalDate, day: int): CalDate {
    CreateUTCDate(d.year, d.month, day)
  }

  /** `d.setMonth(month)`: keeps the day, which may spill into the month after. */
  function SetMonth(d: CalDate, month: int): CalDate {
    CreateUTCDate(d.year, month, d.day)
  }

  /** `d.setFullYear(year)`: keeps month and day, so February 29 may become March 1. */
  function SetFullYear(d: CalDate, year: int): CalDate {
    CreateUTCDate(year, d.month, d.day)
  }

  /** `d.setDate(d.getDate() + n)`: exactly `n` days later. */
  function AddDays(d: CalDate, n: int): (r: CalDate)
    ensures DayNumber(r) == DayNumber(d) + n
    ensures Weekday(r) == (Weekday(d) + n) % 7
  {
    hide MonthStart, Weekday, MonthLength, DaysInMonth, Roll, DateIn, CreateUTCDate;
    var r := CreateUTCDate(d.year, d.month, d.day + n);
    assert DayNumber(r) == DayNumber(d) + n;
    WeekdayShift(d, r);
    r
  }

  /** `DateUtils.findFirstAndLastDay(year, month)`: first and last day of that month. */
  function FindFirstAndLastDay(year: int, month: int): (r: (CalDate, CalDate))
    ensures MonthIndex(r.0) == 12 * year + month && r.0.day == 1
    ensures MonthIndex(r.1) == 12 * year + month && r.1.day == MonthLength(12 * year + month)
  {
    RollInMonth(12 * year + month, 1);
    RollDayZero(12 * year + month + 1);
    (CreateUTCDate(year, month, 1), CreateUTCDate(year, month + 1, 0))
  }

  /** The two days `findFirstAndLastDay` builds, by name. */
  lemma FirstAndLastDayAre(year: int, month: int)
    ensures FindFirstAndLastDay(year, month) == (CreateUTCDate(year, month, 1), CreateUTCDate(year, month + 1, 0))
  {
    hide MonthStart, MonthLength, DayNumber, Weekday, DaysInMonth, Roll, CreateUTCDate;
  }

  /**
   * `DateUtils.findLastWeekday(date, weekday)`: the last day of `date`'s
   * month that falls on `weekday`; a week later is already the next month.
   */
  function FindLastWeekday(date: CalDate, weekday: int): (r: CalDate)
    requires 0 <= weekday < 7
    ensures MonthIndex(r) == MonthIndex(date)
    ensures Weekday(r) == weekday
    ensures r.day + 7 > MonthLength(MonthIndex(date))
  {
    hide MonthStart, MonthLength, DayNumber, Weekday, DaysInMonth, Roll, CreateUTCDate, FindFirstAndLastDay;
    var lastDay := FindFirstAndLastDay(date.year, date.month).1;
    var r := LastWeekdayFrom(lastDay, weekday);
    LastWeekdayFacts(lastDay, weekday, (Weekday(lastDay) - weekday + 7) % 7, r);
    r
  }

  /** The body of `findLastWeekday`: step back from the month's last day to the nearest `weekday`. */
  function LastWeekdayFrom(lastDay: CalDate, weekday: int): CalDate {
    CreateUTCDate(lastDay.year, lastDay.month, lastDay.day - (Weekday(lastDay) - weekday + 7) % 7)
  }

  /** `findLastWeekday` spelled out: back from day 0 of the next month to the nearest `weekday`. */
  lemma FindLastWeekdayInline(date: CalDate, weekday: int)
    requires 0 <= weekday < 7
    ensures var lastDay := CreateUTCDate(date.year, date.month + 1, 0);
            FindLastWeekday(date, weekday) == LastWeekdayFrom(lastDay, weekday)
  {
    hide MonthStart, MonthLength, DayNumber, Weekday, DaysInMonth, Roll, CreateUTCDate, LastWeekdayFrom, FindFirstAndLastDay;
    FirstAndLastDayAre(date.year, date.month);
  }

  lemma LastWeekdayFacts(lastDay: CalDate, weekday: int, dayOffset: int, r: CalDate)
    requires 0 <= weekday < 7 && lastDay.day == MonthLength(MonthIndex(lastDay))
    requires dayOffset == (Weekday(lastDay) - weekday + 7) % 7
    requires r == CreateUTCDate(lastDay.year, lastDay.month, lastDay.day - dayOffset)
    ensures MonthIndex(r) == MonthIndex(lastDay) && r.day == lastDay.day - dayOffset && r.day + 7 > lastDay.day
    ensures Weekday(r) == weekday
  {
    hide MonthStart;
    var mi := MonthIndex(lastDay);
    assert 0 <= dayOffset < 7;
    RollInMonth(mi, lastDay.day - dayOffset);
    WeekdayInMonth(lastDay, r, -dayOffset);
    var w := Weekday(lastDay);
    if w >= weekday {
      assert dayOffset == w - weekday;
    } else {
      assert dayOffset == w - weekday + 7;
    }
  }

  /** `String(year)`, with a minus sign for years before 0. */
  function YearString(year: int): string {
    if year >= 0 then NatToString(year) else "-" + NatToString(-year)
  }

  /** `DateUtils.generateFormattedDate(date)`: `YYYY-MM-DD`, month and day zero-padded. */
  function GenerateFormattedDate(date: CalDate): string {
    YearString(date.year) + "-" + PadStart2(NatToString(date.month + 1))
      + "-" + PadStart2(NatToString(date.day))
  }

  /**
   * `new Date(s)` for a date-only string: three dash-separated decimal
   * fields, a year of one or more digits, then a month and a day two
   * digits wide, naming a day that exists. Anything else is an invalid
   * date.
   */
  function ParseDate(s: string): Option<CalDate>
  {
    var parts := Split(s, '-');
    if |parts| == 3 && |parts[0]| >= 1 && |parts[1]| == 2 && |parts[2]| == 2
       && AllDigits(parts[0]) && AllDigits(parts[1]) && AllDigits(parts[2]) then
      var year, month, day := DigitsValue(parts[0]), DigitsValue(parts[1]), DigitsValue(parts[2]);
      if 1 <= month <= 12 && 1 <= day <= DaysInMonth(year, month - 1) then
        Some(Date(year, month - 1, day))
      else None
    else None
  }

  /** `DateUtils.initializeDate(s)`: parse, then rebuild the same day at midnight. */
  function InitializeDate(s: string): (r: Option<CalDate>)
    ensures r == ParseDate(s)
  {
    match ParseDate(s)
    case None => None
    case Some(d) =>
      CreateUTCDateExisting(d.year, d.month, d.day);
      Some(CreateUTCDate(d.year, d.month, d.day))
  }

  /**
   * `DateUtils.isValidDateFormat(s)`: the string parses and the parsed date
   * has the year, month and day written in it.
   */
  predicate IsValidDateFormat(s: string) {
    ParseDate(s).Some?
  }

  /** A formatted date of a year from 0 on parses back to itself. */
  lemma FormatParseRoundTrip(d: CalDate)
    requires d.year >= 0
    ensures ParseDate(GenerateFormattedDate(d)) == Some(d)
  {
    hide NatToString, PadStart2;
    var y := NatToString(d.year);
    var m := PadStart2(NatToString(d.month + 1));
    var dd := PadStart2(NatToString(d.day));
    NatToStringRoundTrip(d.year);
    PadStart2RoundTrip(d.month + 1);
    PadStart2RoundTrip(d.day);
    assert GenerateFormattedDate(d) == y + ['-'] + (m + ['-'] + dd);
    SplitThree(y, m, dd);
  }

  /** Three digit strings joined by dashes split back into those three. */
  lemma SplitThree(a: string, b: string, c: string)
    requires AllDigits(a) && AllDigits(b) && AllDigits(c)
    ensures Split(a + ['-'] + (b + ['-'] + c), '-') == [a, b, c]
  {
    DigitsHaveNoSeparator(a, '-');
    DigitsHaveNoSeparator(b, '-');
    DigitsHaveNoSeparator(c, '-');
    SplitAfterPiece(a, '-', b + ['-'] + c);
    SplitAfterPiece(b, '-', c);
    SplitNoSeparator(c, '-');
  }

  /**
   * The format check at repeatUtils.ts:39 and :161, under `ParseDate`'s
   * reading, passes exactly for the dates of years 0 and later: an earlier
   * year is written with a leading minus, which the dash-separated reading
   * cannot take. For years 1000 to 9999 the formatted string is an ISO date
   * and this is what `new Date` does; outside them the string is not ISO
   * (`999-03-05`), what `new Date` makes of it depends on the engine, and
   * the statement is the model's reading.
   */
  lemma FormattedDateValid(d: CalDate)
    ensures IsValidDateFormat(GenerateFormattedDate(d)) <==> d.year >= 0
  {
    if d.year >= 0 {
      FormatParseRoundTrip(d);
    } else {
      var s := GenerateFormattedDate(d);
      var rest := NatToString(-d.year) + "-" + PadStart2(NatToString(d.month + 1))
        + "-" + PadStart2(NatToString(d.day));
      assert s == [] + ['-'] + rest;
      SplitAfterPiece([], '-', rest);
      assert Split(s, '-')[0] == "";
    }
  }
}
