/**
 * `generateRepeatEvents`, `findNextValidDate` and `createEventWithRepeat`
 * of src/utils/repeatUtils.ts, statement by statement: the cursor loop and
 * one method per branch of its body, each proved to do what `RepeatRules`
 * says a pass does.
 */
module RepeatEvents {
  import opened Types
  import opened Calendar
  import opened DateUtils
  import opened RepeatRules

  /**
   * `findNextValidDate(currentDate, years, interval)`: the first of the
   * years `currentDate`'s year + interval, + 2 interval, ... up to its year
   * + `years` in which its month has its day, at that month and day; `None`
   * when there is none. Every call passes the generator's interval, which
   * is at least 1. A smaller interval is modelled only where the loop does
   * not run at all (the target year comes before the first year tried) and
   * the result is `None`; otherwise such a loop would try the same or
   * earlier years, which no caller asks for.
   */
  method FindNextValidDate(currentDate: CalDate, years: int, interval: int) returns (r: Option<CalDate>)
    requires interval >= 1 || years < interval
    ensures interval >= 1 ==>
              r == FirstValidYear(currentDate.year + interval, currentDate.month, currentDate.day,
                                  currentDate.year + years, interval)
    ensures interval < 1 ==> r.None?
  {
    hide MonthStart, MonthLength, DayNumber, Weekday, DaysInMonth, Roll;
    var targetYear := currentDate.year + years;
    var month := currentDate.month;
    var day := currentDate.day;
    if interval < 1 {
      return None;
    }
    var year := currentDate.year + interval;
    while year <= targetYear
      invariant FirstValidYear(currentDate.year + interval, month, day, targetYear, interval)
                == FirstValidYear(year, month, day, targetYear, interval)
      decreases targetYear - year
    {
      var nextDate := CreateUTCDate(year, month, day);
      CreateUTCDateExact(year, month, day);
      if nextDate.year == year && nextDate.month == month && nextDate.day == day {
        return Some(nextDate);
      }
      year := year + interval;
    }
    return None;
  }

  /** `Date.UTC(year, month, day)` reads back its own year, month and day exactly when that day exists. */
  lemma CreateUTCDateExact(year: int, month: int, day: int)
    requires 0 <= month < 12 && 1 <= day
    ensures var d := CreateUTCDate(year, month, day);
            (d.year == year && d.month == month && d.day == day) <==> day <= DaysInMonth(year, month)
    ensures day <= DaysInMonth(year, month) ==> CreateUTCDate(year, month, day) == Date(year, month, day)
  {
    if day <= DaysInMonth(year, month) {
      CreateUTCDateExisting(year, month, day);
    }
  }

  /** `createEventWithRepeat(baseEvent, date, repeatType, interval, endDate)`. */
  function CreateEventWithRepeat(baseEvent: Event, date: CalDate, repeatType: RepeatType, interval: int, endDate: string): (e: Event)
    ensures e.(date := baseEvent.date, repeat := baseEvent.repeat) == baseEvent
    ensures e.repeat == RepeatInfo(repeatType, interval, Some(endDate), None, None)
    ensures e.date == GenerateFormattedDate(date)
    ensures date.year >= 0 ==> ParseDate(e.date) == Some(date)
  {
    var e := baseEvent.(date := GenerateFormattedDate(date),
                        repeat := RepeatInfo(repeatType, interval, Some(endDate), None, None));
    if date.year >= 0 then
      FormatParseRoundTrip(date);
      e
    else
      e
  }

  /** The month the cursor lands in `interval` months on, split as the source splits it. */
  lemma MonthsAhead(c: CalDate, interval: int)
    requires interval >= 1
    ensures var newMonth := c.month + interval;
            12 * (c.year + newMonth / 12) + newMonth % 12 == MonthIndex(c) + interval
            && 0 <= newMonth % 12 < 12
  {
  }

  /** A date built from another date's year and month lies in that date's month. */
  lemma OnOwnMonth(d: CalDate, day: int)
    ensures CreateUTCDate(d.year, d.month, day) == Roll(MonthIndex(d), day)
  {
    hide MonthStart, MonthLength, DayNumber, Weekday, DaysInMonth, Roll;
  }

  /**
   * The `n`-th `w`-day counted from the first one: inside the month when the
   * month holds it, otherwise in the month after.
   */
  lemma NthWeekdayRoll(mi: int, w: int, n: int)
    requires 0 <= w < 7 && 1 <= n <= 5
    ensures var d := Roll(mi, FirstWeekdayDay(mi, w) + 7 * (n - 1));
            var t := NthWeekdayIn(mi, w, n);
            (t.Some? ==> MonthIndex(d) == mi && d == t.value)
            && (t.None? ==> MonthIndex(d) == mi + 1)
  {
    hide MonthStart, Weekday, DaysInMonth, DayNumber;
    var f := FirstWeekdayDay(mi, w);
    var day := f + 7 * (n - 1);
    if day <= MonthLength(mi) {
      RollInMonth(mi, day);
    } else {
      RollIntoNext(mi, day);
    }
  }

  /** Two dates in the same or consecutive months share their month field exactly when they share the month. */
  lemma SameMonthField(a: CalDate, b: CalDate)
    requires MonthIndex(b) == MonthIndex(a) || MonthIndex(b) == MonthIndex(a) + 1
    ensures a.month == b.month <==> MonthIndex(a) == MonthIndex(b)
  {
    if MonthIndex(b) == MonthIndex(a) + 1 {
      NextMonthDiffers(a, b);
    }
  }

  /** The first day of a month, and the first `w`-day in it, as the source computes them. */
  lemma FirstOccurrence(mi: int, w: int, first: CalDate)
    requires 0 <= w < 7 && first == FirstOfMonth(mi)
    ensures 1 + (w - Weekday(first) + 7) % 7 == FirstWeekdayDay(mi, w)
  {
    hide MonthStart, MonthLength, DayNumber, DaysInMonth, Weekday, DateIn, FirstOfMonth;
  }

  /** Monthly `exact` (src/utils/repeatUtils.ts:37-57). */
  method MonthlyExactStep(r: Rule, c: CalDate) returns (emitted: seq<CalDate>, next: CalDate)
    requires r.interval >= 1
    ensures Pass(emitted, next) == MonthlyPass(r, Exact, c)
  {
    hide MonthStart, MonthLength, DayNumber, Weekday, DaysInMonth, FindLastWeekday, FirstValidYear, NthWeekdayIn, FirstWeekdayDay, Roll,
      FirstOfMonth, LastOfMonth, DateIn, AddDays, Stop, SetDate, SetMonth, SetFullYear, FindFirstAndLastDay,
      IsValidDateFormat, GenerateFormattedDate, ParseDate;
    emitted := [];
    FormattedDateValid(c);
    if IsValidDateFormat(GenerateFormattedDate(c)) {
      emitted := emitted + [c];
    }
    // newMonth is positive, so Math.floor and JavaScript's % agree with / and %
    var newMonth := c.month + r.interval;
    var newYear := c.year + newMonth / 12;
    var normalizedMonth := newMonth % 12;
    MonthsAhead(c, r.interval);
    var target := MonthIndex(c) + r.interval;

    var targetDate := r.base.day;
    var lastDayOfMonth := CreateUTCDate(newYear, normalizedMonth + 1, 0).day;
    RollDayZero(target + 1);
    var nextDate := CreateUTCDate(newYear, normalizedMonth, targetDate);
    if lastDayOfMonth >= targetDate {
      RollInMonth(target, targetDate);
    }
    if lastDayOfMonth >= targetDate && DayNumber(nextDate) <= DayNumber(r.end) {
      emitted := emitted + [nextDate];
    }
    next := CreateUTCDate(newYear, normalizedMonth + 1, targetDate);
  }

  /** Monthly `lastDay` (src/utils/repeatUtils.ts:59-76). */
  method MonthlyLastDayStep(r: Rule, c: CalDate) returns (emitted: seq<CalDate>, next: CalDate)
    requires r.interval >= 1
    ensures Pass(emitted, next) == MonthlyPass(r, LastDay, c)
  {
    hide MonthStart, MonthLength, DayNumber, Weekday, DaysInMonth, FindLastWeekday, FirstValidYear, NthWeekdayIn, FirstWeekdayDay, Roll;
    var monthLastDay := CreateUTCDate(c.year, c.month + 1, 0).day;
    RollDayZero(MonthIndex(c) + 1);
    emitted := [];
    if c.day == monthLastDay {
      emitted := emitted + [c];
    }
    var newMonth := c.month + r.interval;
    var newYear := c.year + newMonth / 12;
    var normalizedMonth := newMonth % 12;
    MonthsAhead(c, r.interval);
    next := CreateUTCDate(newYear, normalizedMonth + 1, 0);
    RollDayZero(MonthIndex(c) + r.interval + 1);
  }

  /** Monthly `lastWeekday` (src/utils/repeatUtils.ts:77-92). */
  method MonthlyLastWeekdayStep(r: Rule, c: CalDate) returns (emitted: seq<CalDate>, next: CalDate)
    requires r.interval >= 1
    ensures Pass(emitted, next) == MonthlyPass(r, LastWeekday, c)
  {
    hide MonthStart, MonthLength, DayNumber, Weekday, DaysInMonth, FindLastWeekday, FirstValidYear, NthWeekdayIn, FirstWeekdayDay, Roll;
    var originalWeekday := Weekday(r.base);
    var lastWeekdayOfMonth := FindLastWeekday(c, originalWeekday);
    emitted := [];
    if DayNumber(lastWeekdayOfMonth) <= DayNumber(r.end) {
      emitted := emitted + [lastWeekdayOfMonth];
    }
    next := CreateUTCDate(lastWeekdayOfMonth.year, lastWeekdayOfMonth.month + r.interval, 1);
    RollInMonth(MonthIndex(c) + r.interval, 1);
  }

  /** Monthly `nthWeekday` (src/utils/repeatUtils.ts:93-141), the cursor moved as literally as the source moves it. */
  method MonthlyNthWeekdayStep(r: Rule, c: CalDate) returns (emitted: seq<CalDate>, next: CalDate)
    requires r.interval >= 1
    ensures Pass(emitted, next) == MonthlyPass(r, NthWeekday, c)
  {
    hide MonthStart, MonthLength, DayNumber, Weekday, DaysInMonth, FindLastWeekday, FirstValidYear, NthWeekdayIn,
      FirstWeekdayDay, Roll, CreateUTCDate, SetDate, SetMonth, SetFullYear, DateIn, LastOfMonth, AddDays, Stop,
      FindFirstAndLastDay;
    var k, mi := r.interval, MonthIndex(c);
    var targetWeekday := Weekday(r.base);
    var weekNumberInMonth := WeekOfMonth(r.base.day);   // Math.ceil(day / 7)
    ghost var t := NthWeekdayIn(mi, targetWeekday, weekNumberInMonth);

    var (monthFirstDay, _) := FindFirstAndLastDay(c.year, c.month);
    FirstAndLastDayAre(c.year, c.month);
    OnOwnMonth(c, 1);
    RollInMonth(mi, 1);
    FirstOccurrence(mi, targetWeekday, monthFirstDay);
    var weekdayOffset := (targetWeekday - Weekday(monthFirstDay) + 7) % 7;
    var firstOccurrenceOfWeekday := CreateUTCDate(monthFirstDay.year, monthFirstDay.month, monthFirstDay.day + weekdayOffset);
    ghost var f := FirstWeekdayDay(mi, targetWeekday);
    OnOwnMonth(monthFirstDay, 1 + weekdayOffset);
    RollInMonth(mi, f);
    assert firstOccurrenceOfWeekday == DateIn(mi, f);

    var targetDateInMonth := CreateUTCDate(firstOccurrenceOfWeekday.year, firstOccurrenceOfWeekday.month,
                                           firstOccurrenceOfWeekday.day + (weekNumberInMonth - 1) * 7);
    OnOwnMonth(firstOccurrenceOfWeekday, f + 7 * (weekNumberInMonth - 1));
    NthWeekdayRoll(mi, targetWeekday, weekNumberInMonth);
    SameMonthField(firstOccurrenceOfWeekday, targetDateInMonth);

    var iterationDate;
    emitted := [];
    if targetDateInMonth.month == firstOccurrenceOfWeekday.month {
      emitted := emitted + [targetDateInMonth];
      iterationDate := targetDateInMonth;
    } else {
      iterationDate := firstOccurrenceOfWeekday;
    }
    assert emitted == if t.Some? then [t.value] else [];
    ghost var anchor := if t.Some? then t.value.day else f;
    assert MonthIndex(iterationDate) == mi && iterationDate.day == anchor;
    next := NthWeekdayCursor(r, iterationDate);
  }

  /** `d.setDate(day)` and `d.setMonth(d.getMonth() + k)` as rolls from the date's own month. */
  lemma SettersRoll(d: CalDate, day: int, k: int)
    ensures SetDate(d, day) == Roll(MonthIndex(d), day)
    ensures SetMonth(d, d.month + k) == Roll(MonthIndex(d) + k, d.day)
  {
    hide MonthStart, MonthLength, DayNumber, Weekday, DaysInMonth, Roll, DateIn, FirstOfMonth, FirstWeekdayDay,
      NthWeekdayIn, FindLastWeekday, FirstValidYear, LastOfMonth, AddDays;
    assert SetDate(d, day) == CreateUTCDate(d.year, d.month, day);
    assert SetMonth(d, d.month + k) == CreateUTCDate(d.year, d.month + k, d.day);
  }

  /**
   * The second half of monthly `nthWeekday` (src/utils/repeatUtils.ts:115-139):
   * from the anchor date, `interval` months on to the first of that month, and
   * from there the `n`-th base weekday `interval` months further, or the first
   * of that month when it has none.
   */
  method NthWeekdayCursor(r: Rule, anchor: CalDate) returns (next: CalDate)
    requires r.interval >= 1
    ensures var k, mi := r.interval, MonthIndex(anchor);
            var m1 := mi + k + (if anchor.day > MonthLength(mi + k) then 1 else 0);
            var u := NthWeekdayIn(m1 + k, BaseWeekday(r), BaseWeek(r));
            next == if u.Some? then u.value else FirstOfMonth(m1 + k)
  {
    hide MonthStart, MonthLength, DayNumber, Weekday, DaysInMonth, FindLastWeekday, FirstValidYear, NthWeekdayIn,
      FirstWeekdayDay, Roll, CreateUTCDate, SetDate, SetMonth, DateIn, FirstOfMonth;
    var k := r.interval;
    var targetWeekday := Weekday(r.base);
    ghost var mi := MonthIndex(anchor);
    ghost var m1 := mi + k + (if anchor.day > MonthLength(mi + k) then 1 else 0);
    var iterationDate := anchor;
    MonthAheadFirst(iterationDate, k);
    iterationDate := SetMonth(iterationDate, iterationDate.month + k);
    iterationDate := SetDate(iterationDate, 1);
    assert iterationDate == FirstOfMonth(m1);

    var nextDate := iterationDate;
    MonthAheadFirst(nextDate, k);
    nextDate := SetMonth(nextDate, nextDate.month + k);
    nextDate := SetDate(nextDate, 1);
    assert nextDate == FirstOfMonth(m1 + k);

    var targetWeekNumber := WeekOfMonth(r.base.day);   // Math.ceil(day / 7)
    var dayOffset := (targetWeekday - Weekday(nextDate) + 7) % 7;
    var firstTargetDay := SetDate(nextDate, 1 + dayOffset);
    var targetDay := SetDate(firstTargetDay, firstTargetDay.day + (targetWeekNumber - 1) * 7);
    WeekByWeek(m1 + k, targetWeekday, targetWeekNumber, nextDate);
    ghost var u := NthWeekdayIn(m1 + k, BaseWeekday(r), BaseWeek(r));

    if targetDay.month == nextDate.month {
      next := targetDay;
      assert u.Some? && next == u.value;
    } else {
      MonthAheadFirst(iterationDate, k);
      iterationDate := SetMonth(iterationDate, iterationDate.month + k);
      iterationDate := SetDate(iterationDate, 1);
      next := iterationDate;
      assert u.None? && next == FirstOfMonth(m1 + k);
    }
  }

  /**
   * From the first of month `mi`, on to the first `w`-day and from that day
   * `n - 1` weeks further: the `n`-th `w`-day when the month holds one,
   * otherwise a day of the month after.
   */
  lemma WeekByWeek(mi: int, w: int, n: int, first: CalDate)
    requires 0 <= w < 7 && 1 <= n <= 5 && first == FirstOfMonth(mi)
    ensures var a := SetDate(first, 1 + (w - Weekday(first) + 7) % 7);
            var d := SetDate(a, a.day + (n - 1) * 7);
            var u := NthWeekdayIn(mi, w, n);
            (d.month == first.month <==> u.Some?) && (u.Some? ==> d == u.value)
  {
    hide MonthStart, MonthLength, DayNumber, Weekday, DaysInMonth, FindLastWeekday, FirstValidYear, NthWeekdayIn,
      FirstWeekdayDay, Roll, DateIn, FirstOfMonth, CreateUTCDate, SetDate, SetMonth, SetFullYear, Stop, AddDays;
    var f := FirstWeekdayDay(mi, w);
    var a := SetDate(first, 1 + (w - Weekday(first) + 7) % 7);
    assert a == DateIn(mi, f) by {
      FirstOccurrence(mi, w, first);
      SettersRoll(first, 1 + (w - Weekday(first) + 7) % 7, 0);
      RollInMonth(mi, f);
    }
    var d := SetDate(a, a.day + (n - 1) * 7);
    SettersRoll(a, f + (n - 1) * 7, 0);
    NthWeekdayRoll(mi, w, n);
    SameMonthField(first, d);
  }

  /** `d.setMonth(d.getMonth() + k); d.setDate(1)`: the first of the month `k` on, or one further when the day spilled over. */
  lemma MonthAheadFirst(d: CalDate, k: int)
    ensures var m := MonthIndex(d) + k + (if d.day > MonthLength(MonthIndex(d) + k) then 1 else 0);
            MonthIndex(SetMonth(d, d.month + k)) == m
            && SetDate(SetMonth(d, d.month + k), 1) == FirstOfMonth(m)
  {
    hide MonthStart, MonthLength, DayNumber, Weekday, DaysInMonth, Roll, CreateUTCDate, SetDate, SetMonth;
    var m := MonthIndex(d) + k + (if d.day > MonthLength(MonthIndex(d) + k) then 1 else 0);
    SettersRoll(d, 1, k);
    MonthSpill(MonthIndex(d) + k, d.day);
    SettersRoll(SetMonth(d, d.month + k), 1, k);
    RollInMonth(m, 1);
  }

  /** A day of a month, moved into a month with at least 28 days, stays there or spills one month on. */
  lemma MonthSpill(mi: int, day: int)
    requires 1 <= day <= 31
    ensures day <= MonthLength(mi) ==> Roll(mi, day) == DateIn(mi, day)
    ensures day > MonthLength(mi) ==> MonthIndex(Roll(mi, day)) == mi + 1
  {
    if day <= MonthLength(mi) {
      RollInMonth(mi, day);
    } else {
      RollIntoNext(mi, day);
    }
  }

  /** One monthly pass, by pattern (src/utils/repeatUtils.ts:32-153). */
  method MonthlyStep(r: Rule, p: RepeatPattern, c: CalDate) returns (emitted: seq<CalDate>, next: CalDate)
    requires r.interval >= 1
    ensures Pass(emitted, next) == MonthlyPass(r, p, c)
  {
    match p
    case Exact => emitted, next := MonthlyExactStep(r, c);
    case LastDay => emitted, next := MonthlyLastDayStep(r, c);
    case LastWeekday => emitted, next := MonthlyLastWeekdayStep(r, c);
    case NthWeekday => emitted, next := MonthlyNthWeekdayStep(r, c);
  }

  /** Yearly `exact` (src/utils/repeatUtils.ts:159-176). */
  method YearlyExactStep(r: Rule, c: CalDate) returns (emitted: seq<CalDate>, next: CalDate)
    requires r.interval >= 1
    ensures Pass(emitted, next) == YearlyPass(r, Exact, c)
  {
    hide MonthStart, MonthLength, DayNumber, Weekday, DaysInMonth, FindLastWeekday, FirstValidYear, NthWeekdayIn, FirstWeekdayDay, Roll,
      FirstOfMonth, LastOfMonth, DateIn, AddDays, Stop, SetDate, SetMonth, SetFullYear, FindFirstAndLastDay,
      IsValidDateFormat, GenerateFormattedDate, ParseDate;
    emitted := [];
    FormattedDateValid(c);
    if IsValidDateFormat(GenerateFormattedDate(c)) {
      emitted := emitted + [c];
    }
    var nextDate := c;
    var diffYear := r.end.year - c.year;
    var nextValidDate := FindNextValidDate(nextDate, diffYear, r.interval);
    next := OrStop(r, nextValidDate);
  }

  /** Yearly `lastDay` (src/utils/repeatUtils.ts:177-197). */
  method YearlyLastDayStep(r: Rule, c: CalDate) returns (emitted: seq<CalDate>, next: CalDate)
    requires r.interval >= 1
    ensures Pass(emitted, next) == YearlyPass(r, LastDay, c)
  {
    hide MonthStart, MonthLength, DayNumber, Weekday, DaysInMonth, FindLastWeekday, FirstValidYear, NthWeekdayIn,
      FirstWeekdayDay, Roll, FindFirstAndLastDay, Stop, AddDays;
    var originalMonth := r.base.month;
    var lastDayDate := CreateUTCDate(c.year, originalMonth + 1, 0);
    RollDayZero(12 * c.year + originalMonth + 1);
    ghost var l := LastOfMonth(12 * c.year + r.base.month);
    assert lastDayDate == l;
    emitted := [];
    if DayNumber(lastDayDate) <= DayNumber(r.end) {
      emitted := emitted + [lastDayDate];
    }
    var nextDate := c;
    var diffYear := r.end.year - c.year;
    var nextValidDate := FindNextValidDate(nextDate, diffYear, r.interval);
    next := OrStop(r, nextValidDate);
    assert next == OrStop(r, FirstValidYear(c.year + r.interval, c.month, c.day, r.end.year, r.interval));
    assert YearlyPass(r, LastDay, c).next == next;
    assert YearlyPass(r, LastDay, c).emitted == emitted;
  }

  /** Yearly `lastWeekday` (src/utils/repeatUtils.ts:198-230). */
  method YearlyLastWeekdayStep(r: Rule, c: CalDate) returns (emitted: seq<CalDate>, next: CalDate)
    requires r.interval >= 1 && c.month == r.base.month
    ensures Pass(emitted, next) == YearlyPass(r, LastWeekday, c)
  {
    hide MonthStart, MonthLength, DayNumber, Weekday, DaysInMonth, FindLastWeekday, FirstValidYear, NthWeekdayIn,
      FirstWeekdayDay, Roll, CreateUTCDate, SetDate, FindFirstAndLastDay, Stop, AddDays;
    var originalMonth := r.base.month;
    var targetWeekday := Weekday(r.base);
    var lastDay := CreateUTCDate(c.year, originalMonth + 1, 0);
    // the branch repeats the arithmetic of `findLastWeekday` inline
    var lastWeekday := LastWeekdayFrom(lastDay, targetWeekday);
    FindLastWeekdayInline(c, targetWeekday);
    emitted := [];
    if DayNumber(lastWeekday) <= DayNumber(r.end) {
      emitted := emitted + [lastWeekday];
    }
    var iterationDate := SetDate(lastWeekday, 1);
    FirstOfSameMonth(lastWeekday);
    var nextDate := iterationDate;
    var diffYear := r.end.year - iterationDate.year;
    var nextValidDate := FindNextValidDate(nextDate, diffYear, r.interval);
    FirstDayYear(c.year + r.interval, c.month, r.end.year, r.interval);
    next := OrStop(r, nextValidDate);
  }

  /** `d.setDate(1)`: the first of `d`'s own month. */
  lemma FirstOfSameMonth(d: CalDate)
    ensures SetDate(d, 1) == Date(d.year, d.month, 1)
  {
    hide MonthStart, MonthLength, DayNumber, Weekday, DaysInMonth, Roll, CreateUTCDate;
    SettersRoll(d, 1, 0);
    RollInMonth(MonthIndex(d), 1);
    MonthIndexParts(SetDate(d, 1), d.year, d.month);
  }

  /** Every month has a day 1, so the year search finds the first stepped year, if any is left. */
  lemma FirstDayYear(year: int, month: int, last: int, step: int)
    requires 0 <= month < 12 && step >= 1
    ensures FirstValidYear(year, month, 1, last, step)
            == if year <= last then Some(Date(year, month, 1)) else None
  {
  }

  /** `setFullYear` then `setMonth` back to the same month: the same month of the new year. */
  lemma YearOnSameMonth(c: CalDate, year: int)
    ensures MonthIndex(SetMonth(SetFullYear(c, year), c.month)) == 12 * year + c.month
  {
    hide MonthStart, DayNumber;
    MonthIndexOf(year, c.month);
    if c.day <= DaysInMonth(year, c.month) {
      CreateUTCDateExisting(year, c.month, c.day);
      CreateUTCDateExisting(year, c.month, c.day);
    } else {
      // only February 29 is missing from some years; it becomes March 1
      assert c.month == 1 && c.day == 29;
      RollIntoNext(12 * year + 1, 29);
      var d := SetFullYear(c, year);
      MonthIndexParts(d, year, 2);
      RollInMonth(12 * year + 1, 1);
    }
  }

  /** Yearly `nthWeekday` (src/utils/repeatUtils.ts:231-263). */
  method YearlyNthWeekdayStep(r: Rule, c: CalDate) returns (emitted: seq<CalDate>, next: CalDate)
    requires r.interval >= 1 && c.month == r.base.month
    ensures Pass(emitted, next) == YearlyPass(r, NthWeekday, c)
  {
    hide MonthStart, MonthLength, DayNumber, Weekday, DaysInMonth, FindLastWeekday, FirstValidYear, NthWeekdayIn,
      FirstWeekdayDay, Roll, DateIn, FirstOfMonth, CreateUTCDate, SetDate, SetMonth, SetFullYear, Stop, AddDays,
      YearlyPass, OrStop;
    var originalWeekday := Weekday(r.base);
    var originalWeekNumber := WeekOfMonth(r.base.day);
    var currentWeekNumber := WeekOfMonth(c.day);
    emitted := [];
    if Weekday(c) == originalWeekday && currentWeekNumber == originalWeekNumber {
      emitted := emitted + [c];
    }
    next := YearNthWeekdayCursor(r, c);
    YearlyNthWeekdayPass(r, c);
  }

  /** The yearly `nthWeekday` pass, unfolded. */
  lemma YearlyNthWeekdayPass(r: Rule, c: CalDate)
    requires r.interval >= 1
    ensures YearlyPass(r, NthWeekday, c)
            == Pass(if Weekday(c) == BaseWeekday(r) && WeekOfMonth(c.day) == BaseWeek(r) then [c] else [],
                    OrStop(r, NthWeekdayIn(12 * (c.year + r.interval) + r.base.month, BaseWeekday(r), BaseWeek(r))))
  {
    hide MonthStart, MonthLength, DayNumber, Weekday, DaysInMonth, FindLastWeekday, FirstValidYear, NthWeekdayIn,
      FirstWeekdayDay, Roll, DateIn, FirstOfMonth, CreateUTCDate, SetDate, SetMonth, SetFullYear, Stop, AddDays,
      OrStop, LastOfMonth;
  }

  /**
   * The second half of yearly `nthWeekday` (src/utils/repeatUtils.ts:242-262):
   * the same week and weekday in the base month `interval` years on, or the
   * stop date when that month has no such day.
   */
  method YearNthWeekdayCursor(r: Rule, c: CalDate) returns (next: CalDate)
    requires r.interval >= 1 && c.month == r.base.month
    ensures next == OrStop(r, NthWeekdayIn(12 * (c.year + r.interval) + r.base.month, BaseWeekday(r), BaseWeek(r)))
  {
    hide MonthStart, MonthLength, DayNumber, Weekday, DaysInMonth, FindLastWeekday, FirstValidYear, NthWeekdayIn,
      FirstWeekdayDay, Roll, DateIn, FirstOfMonth, CreateUTCDate, SetDate, SetMonth, SetFullYear, Stop, AddDays,
      YearlyPass, MonthlyPass;
    var nextDate := SetFullYear(c, c.year + r.interval);
    var targetMonth := r.base.month;
    var targetWeekday := Weekday(r.base);
    var targetWeekNumber := WeekOfMonth(r.base.day);
    ghost var mi := 12 * (c.year + r.interval) + targetMonth;
    nextDate := SetMonth(nextDate, targetMonth);
    nextDate := SetDate(nextDate, 1);
    YearAheadFirst(c, r.interval);
    ghost var monthStart := nextDate;
    MonthIndexParts(monthStart, c.year + r.interval, targetMonth);

    var dayOffset := (targetWeekday - Weekday(nextDate) + 7) % 7;
    nextDate := SetDate(nextDate, 1 + dayOffset + (targetWeekNumber - 1) * 7);
    NthFromFirst(mi, targetWeekday, targetWeekNumber, monthStart);

    if nextDate.month != targetMonth {
      next := Stop(r);
    } else {
      next := nextDate;
    }
  }

  /** `setFullYear`, `setMonth` back to the same month, `setDate(1)`: the first of that month `k` years on. */
  lemma YearAheadFirst(c: CalDate, k: int)
    ensures SetDate(SetMonth(SetFullYear(c, c.year + k), c.month), 1) == FirstOfMonth(12 * (c.year + k) + c.month)
  {
    hide MonthStart, MonthLength, DayNumber, Weekday, DaysInMonth, FindLastWeekday, FirstValidYear, NthWeekdayIn,
      FirstWeekdayDay, Roll, DateIn, CreateUTCDate, SetDate, SetMonth, SetFullYear, Stop, AddDays;
    var moved := SetMonth(SetFullYear(c, c.year + k), c.month);
    YearOnSameMonth(c, c.year + k);
    SettersRoll(moved, 1, 0);
    RollInMonth(12 * (c.year + k) + c.month, 1);
  }

  /**
   * From the first of month `mi`, on to the first `w`-day and `n - 1` weeks
   * further: the `n`-th `w`-day when the month holds one, otherwise a day of
   * the month after.
   */
  lemma NthFromFirst(mi: int, w: int, n: int, first: CalDate)
    requires 0 <= w < 7 && 1 <= n <= 5 && first == FirstOfMonth(mi)
    ensures var d := SetDate(first, 1 + (w - Weekday(first) + 7) % 7 + (n - 1) * 7);
            var u := NthWeekdayIn(mi, w, n);
            (d.month == first.month <==> u.Some?) && (u.Some? ==> d == u.value)
  {
    hide MonthStart, MonthLength, DayNumber, Weekday, DaysInMonth, FindLastWeekday, FirstValidYear, NthWeekdayIn,
      FirstWeekdayDay, Roll, DateIn, FirstOfMonth, CreateUTCDate, SetDate, SetMonth, SetFullYear, Stop, AddDays;
    var d := SetDate(first, 1 + (w - Weekday(first) + 7) % 7 + (n - 1) * 7);
    FirstOccurrence(mi, w, first);
    SettersRoll(first, 1 + (w - Weekday(first) + 7) % 7 + (n - 1) * 7, 0);
    NthWeekdayRoll(mi, w, n);
    SameMonthField(first, d);
  }

  /** One yearly pass with the cursor in the base month (src/utils/repeatUtils.ts:157-273). */
  method YearlyStep(r: Rule, p: RepeatPattern, c: CalDate) returns (emitted: seq<CalDate>, next: CalDate)
    requires r.interval >= 1 && c.month == r.base.month
    ensures Pass(emitted, next) == YearlyPass(r, p, c)
  {
    match p
    case Exact => emitted, next := YearlyExactStep(r, c);
    case LastDay => emitted, next := YearlyLastDayStep(r, c);
    case LastWeekday => emitted, next := YearlyLastWeekdayStep(r, c);
    case NthWeekday => emitted, next := YearlyNthWeekdayStep(r, c);
  }

  /** One pass of the loop body (src/utils/repeatUtils.ts:26-277), in the source's branch order. */
  method Advance(r: Rule, c: CalDate) returns (emitted: seq<CalDate>, next: CalDate)
    requires r.interval >= 1
    ensures Pass(emitted, next) == Step(r, c)
  {
    if r.kind == Daily {
      emitted := [c];
      next := AddDays(c, r.interval);
    } else if r.kind == Weekly {
      emitted := [c];
      next := AddDays(c, 7 * r.interval);
    } else if r.kind == Monthly && r.pattern.Some? {
      emitted, next := MonthlyStep(r, r.pattern.value, c);
    } else if r.kind == Yearly && r.pattern.Some? {
      if c.month == r.base.month {
        emitted, next := YearlyStep(r, r.pattern.value, c);
      } else {
        emitted, next := [], c;
      }
    } else {
      emitted, next := [c], c;
    }
  }

  /** The events `addEventToList` pushes for the given dates, in order. */
  function EventsOn(baseEvent: Event, repeatType: RepeatType, interval: int, endDate: string, dates: seq<CalDate>): (events: seq<Event>)
    ensures |events| == |dates|
    ensures forall i :: 0 <= i < |dates| ==>
              events[i] == CreateEventWithRepeat(baseEvent, dates[i], repeatType, interval, endDate)
  {
    if |dates| == 0 then []
    else [CreateEventWithRepeat(baseEvent, dates[0], repeatType, interval, endDate)]
         + EventsOn(baseEvent, repeatType, interval, endDate, dates[1..])
  }

  /** Pushing the dates of two passes is pushing the dates of both. */
  lemma {:induction false} EventsOnAppend(baseEvent: Event, repeatType: RepeatType, interval: int, endDate: string, a: seq<CalDate>, b: seq<CalDate>)
    ensures EventsOn(baseEvent, repeatType, interval, endDate, a + b)
            == EventsOn(baseEvent, repeatType, interval, endDate, a) + EventsOn(baseEvent, repeatType, interval, endDate, b)
  {
    hide CreateEventWithRepeat, GenerateFormattedDate, ParseDate;
    var lhs := EventsOn(baseEvent, repeatType, interval, endDate, a + b);
    var rhs := EventsOn(baseEvent, repeatType, interval, endDate, a) + EventsOn(baseEvent, repeatType, interval, endDate, b);
    assert forall i :: 0 <= i < |lhs| ==> lhs[i] == rhs[i] by {
      forall i | 0 <= i < |lhs|
        ensures lhs[i] == rhs[i]
      {
        if i < |a| {
          assert (a + b)[i] == a[i];
        } else {
          assert (a + b)[i] == b[i - |a|];
        }
      }
    }
  }

  /** One turn of the loop moves the cursor forward, keeps the invariant, and keeps the events built so far a prefix. */
  lemma LoopTurn(baseEvent: Event, repeatType: RepeatType, interval: int, endDate: string, r: Rule, c: CalDate,
                 built: seq<Event>, emitted: seq<CalDate>, next: CalDate)
    requires WellFormed(r) && Invariant(r, c) && DayNumber(c) <= DayNumber(r.end)
    requires Pass(emitted, next) == Step(r, c)
    ensures DayNumber(c) < DayNumber(next) && Invariant(r, next)
    ensures built + EventsOn(baseEvent, repeatType, interval, endDate, emitted)
              + EventsOn(baseEvent, repeatType, interval, endDate, RunFrom(r, next))
            == built + EventsOn(baseEvent, repeatType, interval, endDate, RunFrom(r, c))
  {
    hide MonthStart, MonthLength, Weekday, DaysInMonth, Step, Invariant, RunFrom, EventsOn, CreateEventWithRepeat,
      DayNumber, Roll, CreateUTCDate, AddDays, Stop, FindLastWeekday, FindFirstAndLastDay, MonthlyPass, YearlyPass,
      Shape, StrictlyIncreasing;
    RunFromStep(r, c);
    EventsOnAppend(baseEvent, repeatType, interval, endDate, emitted, RunFrom(r, next));
  }

  /** The base date and end date read from the request; `None` when either is not a date. */
  function ReadRule(baseEvent: Event, repeatType: RepeatType, interval: int, endDate: string, repeatPattern: Option<RepeatPattern>): Option<Rule>
  {
    var start, end := InitializeDate(baseEvent.date), InitializeDate(endDate);
    if start.Some? && end.Some? then Some(Rule(start.value, end.value, repeatType, interval, repeatPattern))
    else None
  }

  /**
   * What the callers must ensure: whenever the loop runs at all, the
   * interval is positive and the type and pattern pick a branch that moves
   * the cursor. Otherwise the source loops forever.
   */
  predicate Terminates(baseEvent: Event, repeatType: RepeatType, interval: int, endDate: string, repeatPattern: Option<RepeatPattern>)
  {
    var rule := ReadRule(baseEvent, repeatType, interval, endDate, repeatPattern);
    rule.Some? && DayNumber(rule.value.base) <= DayNumber(rule.value.end) ==> WellFormed(rule.value)
  }

  /** The dates the loop emits for a rule: none when the base date is after the end date. */
  function Occurrences(r: Rule): (dates: seq<CalDate>)
    requires DayNumber(r.base) <= DayNumber(r.end) ==> WellFormed(r)
    ensures StrictlyIncreasing(dates)
    ensures forall x :: x in dates ==> DayNumber(r.base) <= DayNumber(x) <= DayNumber(r.end)
    ensures WellFormed(r) ==> forall x :: x in dates ==> Shape(r, x)
  {
    if DayNumber(r.base) > DayNumber(r.end) then []
    else
      BaseInvariant(r);
      RunFrom(r, r.base)
  }

  /** The list the loop builds, before the count is applied. */
  function Expansion(baseEvent: Event, repeatType: RepeatType, interval: int, endDate: string, repeatPattern: Option<RepeatPattern>): seq<Event>
    requires Terminates(baseEvent, repeatType, interval, endDate, repeatPattern)
  {
    match ReadRule(baseEvent, repeatType, interval, endDate, repeatPattern)
    case None => []
    case Some(r) => EventsOn(baseEvent, repeatType, interval, endDate, Occurrences(r))
  }

  /**
   * `if (options?.endCount) return generatedEvents.slice(0, endCount)`: an
   * absent or zero count keeps the list; a positive one keeps at most that
   * many from the front; a negative one drops that many from the back.
   */
  function ApplyEndCount(events: seq<Event>, endCount: Option<int>): (r: seq<Event>)
    ensures endCount.None? || endCount == Some(0) ==> r == events
    ensures endCount.Some? && endCount.value > 0 ==>
              |r| == (if endCount.value < |events| then endCount.value else |events|)
    ensures endCount.Some? && endCount.value < 0 ==>
              |r| == (if |events| + endCount.value > 0 then |events| + endCount.value else 0)
    ensures r == events[..|r|]
  {
    match endCount
    case None => events
    case Some(n) =>
      if n == 0 then events
      else if n > 0 then events[..if n < |events| then n else |events|]
      else events[..if |events| + n > 0 then |events| + n else 0]
  }

  /**
   * `generateRepeatEvents(options)`: from the base date, pass after pass
   * until the cursor passes the end date, then the count. A base date or
   * end date that is not a date makes the loop condition false at once.
   */
  method GenerateRepeatEvents(baseEvent: Event, repeatType: RepeatType, interval: int, endDate: string,
                              repeatPattern: Option<RepeatPattern>, endCount: Option<int>) returns (events: seq<Event>)
    requires Terminates(baseEvent, repeatType, interval, endDate, repeatPattern)
    ensures events == ApplyEndCount(Expansion(baseEvent, repeatType, interval, endDate, repeatPattern), endCount)
  {
    hide MonthStart, MonthLength, Weekday, DaysInMonth, Step, Invariant, RunFrom, EventsOn, CreateEventWithRepeat,
      DayNumber, Roll, CreateUTCDate, AddDays, Stop, FindLastWeekday, FindFirstAndLastDay, MonthlyPass, YearlyPass,
      Shape, StrictlyIncreasing, InitializeDate;
    var generatedEvents: seq<Event> := [];
    var eventStartDate := InitializeDate(baseEvent.date);
    var eventEndDate := InitializeDate(endDate);
    if eventStartDate.Some? && eventEndDate.Some? {
      var r := Rule(eventStartDate.value, eventEndDate.value, repeatType, interval, repeatPattern);
      assert ReadRule(baseEvent, repeatType, interval, endDate, repeatPattern) == Some(r);
      var iterationDate := eventStartDate.value;
      ghost var all := Occurrences(r);
      if WellFormed(r) {
        BaseInvariant(r);
        RunFromStep(r, iterationDate);
        assert all == RunFrom(r, iterationDate);
      }
      while DayNumber(iterationDate) <= DayNumber(r.end)
        invariant DayNumber(iterationDate) <= DayNumber(r.end) ==> WellFormed(r)
        invariant WellFormed(r) ==> Invariant(r, iterationDate)
        invariant WellFormed(r) ==>
                    generatedEvents + EventsOn(baseEvent, repeatType, interval, endDate, RunFrom(r, iterationDate))
                    == EventsOn(baseEvent, repeatType, interval, endDate, all)
        invariant !WellFormed(r) ==> generatedEvents == [] && all == []
        decreases DayNumber(r.end) - DayNumber(iterationDate)
      {
        var emitted, next := Advance(r, iterationDate);
        LoopTurn(baseEvent, repeatType, interval, endDate, r, iterationDate, generatedEvents, emitted, next);
        generatedEvents := generatedEvents + EventsOn(baseEvent, repeatType, interval, endDate, emitted);
        iterationDate := next;
      }
      assert EventsOn(baseEvent, repeatType, interval, endDate, []) == [];
      if WellFormed(r) {
        RunFromStep(r, iterationDate);
        assert generatedEvents == EventsOn(baseEvent, repeatType, interval, endDate, all);
      }
      assert generatedEvents == Expansion(baseEvent, repeatType, interval, endDate, repeatPattern);
    } else {
      assert ReadRule(baseEvent, repeatType, interval, endDate, repeatPattern).None?;
    }
    events := ApplyEndCount(generatedEvents, endCount);
  }
}
