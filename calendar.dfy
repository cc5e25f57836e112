/**
 * Gregorian calendar arithmetic underneath JavaScript's `Date`, reduced to
 * naive calendar days: a date is a (year, month, day) triple with the month
 * numbered 0..11 as `Date.prototype.getMonth` numbers it, and the instant
 * order of dates is the order of their day numbers.
 */
module Calendar {
  import opened Types

  /** The proleptic Gregorian leap-year rule that `Date` uses for every year. */
  predicate IsLeapYear(y: int) {
    y % 4 == 0 && (y % 100 != 0 || y % 400 == 0)
  }

  function DaysInYear(y: int): int {
    if IsLeapYear(y) then 366 else 365
  }

  /** Number of days of month `m` (0 = January) of year `y`. */
  function DaysInMonth(y: int, m: int): (n: int)
    requires 0 <= m < 12
    ensures 28 <= n <= 31
    ensures n == 29 <==> m == 1 && IsLeapYear(y)
  {
    if m == 1 then (if IsLeapYear(y) then 29 else 28)
    else if m == 3 || m == 5 || m == 8 || m == 10 then 30
    else 31
  }

  /** A calendar date as the getters `getFullYear`, `getMonth`, `getDate` see it. */
  datatype Date = Date(year: int, month: int, day: int)

  predicate ValidDate(d: Date) {
    0 <= d.month < 12 && 1 <= d.day <= DaysInMonth(d.year, d.month)
  }

  /** Every `Date` value the program can hold names an existing day. */
  type CalDate = d: Date | ValidDate(d) witness Date(1970, 0, 1)

  /** Absolute month number: month `m` of year `y` is `12 * y + m`. */
  function MonthIndex(d: Date): int {
    12 * d.year + d.month
  }

  /** Length of the month with absolute number `mi`. */
  function MonthLength(mi: int): (n: int)
    ensures 28 <= n <= 31
  {
    DaysInMonth(mi / 12, mi % 12)
  }

  /** Leap years among the years 0 .. y-1 (negative for y < 0). */
  function LeapYearsBefore(y: int): int {
    (y + 3) / 4 - (y + 99) / 100 + (y + 399) / 400
  }

  /** Days from 0000-01-01 to January 1st of year `y`. */
  function DaysBeforeYear(y: int): int {
    365 * y + LeapYearsBefore(y)
  }

  /** Days from January 1st to the first day of month `m` of year `y`. */
  function DaysBeforeMonth(y: int, m: int): int
    requires 0 <= m < 12
  {
    var common :=
      if m == 0 then 0 else if m == 1 then 31 else if m == 2 then 59
      else if m == 3 then 90 else if m == 4 then 120 else if m == 5 then 151
      else if m == 6 then 181 else if m == 7 then 212 else if m == 8 then 243
      else if m == 9 then 273 else if m == 10 then 304 else 334;
    common + (if m >= 2 && IsLeapYear(y) then 1 else 0)
  }

  /** Day number of the first day of absolute month `mi`. */
  function MonthStart(mi: int): int {
    DaysBeforeYear(mi / 12) + DaysBeforeMonth(mi / 12, mi % 12)
  }

  /** Days since 0000-01-01; two dates compare as their instants do. */
  function DayNumber(d: CalDate): int {
    MonthStart(MonthIndex(d)) + d.day - 1
  }

  /** `Date.prototype.getDay`: 0 = Sunday .. 6 = Saturday (0000-01-01 was a Saturday). */
  function Weekday(d: CalDate): (w: int)
    ensures 0 <= w < 7
  {
    (DayNumber(d) + 6) % 7
  }

  /** `Math.ceil(day / 7)`: which occurrence of its weekday a day of the month is. */
  function WeekOfMonth(day: int): int {
    (day + 6) / 7
  }

  lemma FloorStep(a: int, k: int)
    requires k > 0
    ensures (a + 1) / k == a / k + (if (a + 1) % k == 0 then 1 else 0)
  {
    var q, r := a / k, a % k;
    assert a == k * q + r && 0 <= r < k;
    if r == k - 1 {
      assert a + 1 == k * (q + 1) + 0;
      DivModUnique(a + 1, k, q + 1, 0);
    } else {
      assert a + 1 == k * q + (r + 1);
      DivModUnique(a + 1, k, q, r + 1);
    }
  }

  lemma DivModUnique(a: int, k: int, q: int, r: int)
    requires k > 0 && 0 <= r < k && a == k * q + r
    ensures a / k == q && a % k == r
  {
    var q', r' := a / k, a % k;
    assert a == k * q' + r' && 0 <= r' < k;
    if q' > q {
      assert k * q' >= k * (q + 1) by { MulMono(k, q + 1, q'); }
    } else if q' < q {
      assert k * q >= k * (q' + 1) by { MulMono(k, q' + 1, q); }
    }
  }

  lemma MulMono(k: int, x: int, y: int)
    requires k > 0 && x <= y
    ensures k * x <= k * y
  {
    assert k * y - k * x == k * (y - x);
  }

  /** A year adds exactly its own length to the running day count. */
  lemma YearStep(y: int)
    ensures DaysBeforeYear(y + 1) == DaysBeforeYear(y) + DaysInYear(y)
  {
    FloorStep(y + 3, 4);
    FloorStep(y + 99, 100);
    FloorStep(y + 399, 400);
    ModPeriod(y, 4);
    ModPeriod(y, 100);
    ModPeriod(y, 400);
    if y % 100 == 0 {
      DivModUnique(y, 4, 25 * (y / 100), 0);
    }
    if y % 400 == 0 {
      DivModUnique(y, 100, 4 * (y / 400), 0);
    }
  }

  lemma ModPeriod(y: int, k: int)
    requires k > 0
    ensures ((y + k) % k == 0) == (y % k == 0)
  {
    DivModUnique(y + k, k, y / k + 1, y % k);
  }

  /** A month adds exactly its own length to the running day count. */
  lemma MonthStartStep(mi: int)
    ensures MonthStart(mi + 1) == MonthStart(mi) + MonthLength(mi)
  {
    var y, m := mi / 12, mi % 12;
    if m < 11 {
      DivModUnique(mi + 1, 12, y, m + 1);
    } else {
      DivModUnique(mi + 1, 12, y + 1, 0);
      YearStep(y);
    }
  }

  /** Every month has at least 28 days, so month starts grow at least that fast. */
  lemma {:induction false} MonthStartMono(i: int, j: int)
    requires i <= j
    ensures MonthStart(i) + 28 * (j - i) <= MonthStart(j)
    decreases j - i
  {
    hide MonthStart, MonthLength;
    if i < j {
      MonthStartMono(i, j - 1);
      MonthStartStep(j - 1);
    }
  }

  lemma MonthIndexOf(y: int, m: int)
    requires 0 <= m < 12
    ensures (12 * y + m) / 12 == y && (12 * y + m) % 12 == m
  {
    DivModUnique(12 * y + m, 12, y, m);
  }

  /** A date's day number lies inside its own month. */
  lemma DayNumberInMonth(d: CalDate)
    ensures MonthStart(MonthIndex(d)) <= DayNumber(d) < MonthStart(MonthIndex(d) + 1)
    ensures MonthLength(MonthIndex(d)) == DaysInMonth(d.year, d.month)
  {
    MonthIndexOf(d.year, d.month);
    MonthStartStep(MonthIndex(d));
  }

  /** Dates in earlier months come earlier. */
  lemma MonthOrder(a: CalDate, b: CalDate)
    requires MonthIndex(a) < MonthIndex(b)
    ensures DayNumber(a) < DayNumber(b)
  {
    DayNumberInMonth(a);
    DayNumberInMonth(b);
    MonthStartMono(MonthIndex(a) + 1, MonthIndex(b));
  }

  /** Day numbers identify dates: no two dates share an instant. */
  lemma DayNumberInjective(a: CalDate, b: CalDate)
    requires DayNumber(a) == DayNumber(b)
    ensures a == b
  {
    hide MonthStart, MonthLength, DaysInMonth;
    if MonthIndex(a) < MonthIndex(b) {
      MonthOrder(a, b);
    } else if MonthIndex(b) < MonthIndex(a) {
      MonthOrder(b, a);
    } else {
      MonthIndexParts(b, a.year, a.month);
    }
  }

  /** The date `d` days into absolute month `mi` (day 1 is the first). */
  function DateIn(mi: int, d: int): (r: CalDate)
    requires 1 <= d <= MonthLength(mi)
    ensures MonthIndex(r) == mi && r.day == d
  {
    Date(mi / 12, mi % 12, d)
  }

  /**
   * `Date.UTC` normalisation on an absolute month: day 0 is the last day of
   * the month before, a day past the month's end rolls into the next one.
   */
  function Roll(mi: int, d: int): (r: CalDate)
    ensures DayNumber(r) == MonthStart(mi) + d - 1
    decreases if d < 1 then 32 - d else d
  {
    if d < 1 then
      MonthStartStep(mi - 1);
      Roll(mi - 1, d + MonthLength(mi - 1))
    else if d > MonthLength(mi) then
      MonthStartStep(mi);
      Roll(mi + 1, d - MonthLength(mi))
    else
      DateIn(mi, d)
  }

  lemma RollInMonth(mi: int, d: int)
    requires 1 <= d <= MonthLength(mi)
    ensures Roll(mi, d) == DateIn(mi, d) && MonthIndex(Roll(mi, d)) == mi
  {
  }

  lemma RollIntoNext(mi: int, d: int)
    requires MonthLength(mi) < d <= MonthLength(mi) + 28
    ensures Roll(mi, d) == DateIn(mi + 1, d - MonthLength(mi))
    ensures MonthIndex(Roll(mi, d)) == mi + 1
  {
    assert MonthLength(mi + 1) >= 28;
  }

  lemma RollDayZero(mi: int)
    ensures Roll(mi, 0) == DateIn(mi - 1, MonthLength(mi - 1))
    ensures MonthIndex(Roll(mi, 0)) == mi - 1
  {
  }

  /** The first day of absolute month `mi`. */
  function FirstOfMonth(mi: int): (r: CalDate)
    ensures MonthIndex(r) == mi && r.day == 1
  {
    DateIn(mi, 1)
  }

  /** The last day of absolute month `mi`. */
  function LastOfMonth(mi: int): (r: CalDate)
    ensures MonthIndex(r) == mi && r.day == MonthLength(mi)
  {
    DateIn(mi, MonthLength(mi))
  }

  /** Weekdays advance by one a day. */
  lemma WeekdayInMonth(d: CalDate, e: CalDate, delta: int)
    requires MonthIndex(d) == MonthIndex(e) && e.day == d.day + delta
    ensures Weekday(e) == (Weekday(d) + delta) % 7
  {
    ModShift(DayNumber(d) + 6, delta);
  }

  /** Moving a date on by some days moves its weekday on by as many, modulo 7. */
  lemma WeekdayShift(a: CalDate, b: CalDate)
    ensures Weekday(b) == (Weekday(a) + (DayNumber(b) - DayNumber(a))) % 7
  {
    hide MonthStart;
    ModShift(DayNumber(a) + 6, DayNumber(b) - DayNumber(a));
  }

  lemma ModShift(a: int, k: int)
    ensures (a + k) % 7 == (a % 7 + k) % 7
  {
    DivModUnique(a, 7, a / 7, a % 7);
    var q := (a % 7 + k) / 7;
    var r := (a % 7 + k) % 7;
    assert a % 7 + k == 7 * q + r;
    DivModUnique(a + k, 7, a / 7 + q, r);
  }

  /** Two dates in the same absolute month with the same month number split it the same way. */
  lemma MonthIndexParts(d: CalDate, y: int, m: int)
    requires 0 <= m < 12 && MonthIndex(d) == 12 * y + m
    ensures d.year == y && d.month == m
  {
    MonthIndexOf(y, m);
    MonthIndexOf(d.year, d.month);
  }

  /** Consecutive months never share a month number. */
  lemma NextMonthDiffers(a: CalDate, b: CalDate)
    requires MonthIndex(b) == MonthIndex(a) + 1
    ensures a.month != b.month
  {
    MonthIndexOf(a.year, a.month);
    MonthIndexOf(b.year, b.month);
    if a.month < 11 {
      MonthIndexOf(a.year, a.month + 1);
    } else {
      MonthIndexOf(a.year + 1, 0);
    }
  }

  /** A date is the day of its own month that carries its day number. */
  lemma DateInOwnMonth(d: CalDate)
    ensures d.day <= MonthLength(MonthIndex(d)) && DateIn(MonthIndex(d), d.day) == d
  {
    MonthIndexOf(d.year, d.month);
  }

  /** Adding `(w - x + 7) % 7` to weekday `x` reaches weekday `w`. */
  lemma ShiftToWeekday(x: int, w: int)
    requires 0 <= x < 7 && 0 <= w < 7
    ensures 0 <= (w - x + 7) % 7 < 7 && (x + (w - x + 7) % 7) % 7 == w
  {
    if w >= x {
      DivModUnique(w - x + 7, 7, 1, w - x);
    } else {
      DivModUnique(w - x + 7, 7, 0, w - x + 7);
      DivModUnique(w + 7, 7, 1, w);
    }
  }

  /** Whole weeks do not change the weekday. */
  lemma WeeksKeepWeekday(w: int, j: int)
    requires 0 <= w < 7
    ensures (w + 7 * j) % 7 == w
  {
    DivModUnique(w + 7 * j, 7, j, w);
  }

  /** Two days of a month share a weekday only a whole number of weeks apart. */
  lemma SameWeekdayGap(w: int, delta: int)
    requires 0 <= w < 7 && (w + delta) % 7 == w
    ensures delta == 7 * (delta / 7)
  {
    var q, r := delta / 7, delta % 7;
    assert delta == 7 * q + r && 0 <= r < 7;
    if w + r >= 7 {
      DivModUnique(w + delta, 7, q + 1, w + r - 7);
    } else {
      DivModUnique(w + delta, 7, q, w + r);
    }
  }

  /** Day of the month of the first `w`-day in absolute month `mi`. */
  function FirstWeekdayDay(mi: int, w: int): (day: int)
    requires 0 <= w < 7
    ensures 1 <= day <= 7 && Weekday(DateIn(mi, day)) == w
  {
    hide MonthStart, MonthLength, DayNumber, DaysInMonth, Weekday, DateIn, FirstOfMonth;
    var offset := (w - Weekday(FirstOfMonth(mi)) + 7) % 7;
    FirstWeekdayOffset(mi, w);
    1 + offset
  }

  lemma FirstWeekdayOffset(mi: int, w: int)
    requires 0 <= w < 7
    ensures var offset := (w - Weekday(FirstOfMonth(mi)) + 7) % 7;
            0 <= offset < 7 && Weekday(DateIn(mi, 1 + offset)) == w
  {
    hide MonthStart, MonthLength, DayNumber, DaysInMonth, Weekday, DateIn, FirstOfMonth;
    var f := FirstOfMonth(mi);
    var x := Weekday(f);
    var offset := (w - x + 7) % 7;
    ShiftToWeekday(x, w);
    WeekdayInMonth(f, DateIn(mi, 1 + offset), offset);
  }

  /**
   * The `n`-th `w`-day of absolute month `mi`: `None` when the month is too
   * short to hold it (a fifth occurrence, or 1 + offset + 7(n-1) past its end).
   */
  function NthWeekdayIn(mi: int, w: int, n: int): (r: Option<CalDate>)
    requires 0 <= w < 7 && n >= 1
    ensures r.Some? ==> MonthIndex(r.value) == mi && Weekday(r.value) == w && WeekOfMonth(r.value.day) == n
  {
    var f := FirstWeekdayDay(mi, w);
    var day := f + 7 * (n - 1);
    if day <= MonthLength(mi) then
      NthOccurrence(mi, w, n, f, day);
      Some(DateIn(mi, day))
    else
      None
  }

  lemma NthOccurrence(mi: int, w: int, n: int, f: int, day: int)
    requires 0 <= w < 7 && n >= 1 && 1 <= f <= 7 && Weekday(DateIn(mi, f)) == w
    requires day == f + 7 * (n - 1) && day <= MonthLength(mi)
    ensures Weekday(DateIn(mi, day)) == w && WeekOfMonth(day) == n
  {
    hide MonthStart, MonthLength, DayNumber, Weekday;
    WeekdayInMonth(DateIn(mi, f), DateIn(mi, day), 7 * (n - 1));
    WeeksKeepWeekday(w, n - 1);
    DivModUnique(day + 6, 7, n, f - 1);
  }

  /**
   * `NthWeekdayIn` finds exactly the day of the month that has weekday `w`
   * and is its `n`-th occurrence, and finds nothing when no such day exists.
   */
  lemma NthWeekdayInExact(mi: int, w: int, n: int, d: CalDate)
    requires 0 <= w < 7 && n >= 1 && MonthIndex(d) == mi
    ensures Weekday(d) == w && WeekOfMonth(d.day) == n <==> NthWeekdayIn(mi, w, n) == Some(d)
  {
    hide MonthStart, MonthLength, DayNumber, DaysInMonth, Weekday, FirstWeekdayDay, FirstOfMonth, DateIn, NthWeekdayIn;
    if Weekday(d) == w && WeekOfMonth(d.day) == n {
      NthWeekdayFound(mi, w, n, d);
    }
  }

  lemma NthWeekdayFound(mi: int, w: int, n: int, d: CalDate)
    requires 0 <= w < 7 && n >= 1 && MonthIndex(d) == mi
    requires Weekday(d) == w && WeekOfMonth(d.day) == n
    ensures NthWeekdayIn(mi, w, n) == Some(d)
  {
    hide MonthStart, MonthLength, DaysInMonth, IsLeapYear, DayNumber, Weekday, DateIn, FirstOfMonth, NthWeekdayIn;
    var f := FirstWeekdayDay(mi, w);
    WeekdayInMonth(DateIn(mi, f), d, d.day - f);
    WeeksFromFirst(w, f, d.day, n);
    DateInOwnMonth(d);
    NthWeekdayAt(mi, w, n, d.day);
  }

  /** The day `n - 1` weeks after the first `w`-day, when the month has it, is what `NthWeekdayIn` finds. */
  lemma NthWeekdayAt(mi: int, w: int, n: int, day: int)
    requires 0 <= w < 7 && n >= 1 && day == FirstWeekdayDay(mi, w) + 7 * (n - 1) && day <= MonthLength(mi)
    ensures NthWeekdayIn(mi, w, n) == Some(DateIn(mi, day))
  {
    hide MonthStart, MonthLength, DaysInMonth, IsLeapYear, DayNumber, Weekday, DateIn, FirstOfMonth, FirstWeekdayDay;
  }

  /** A day with the weekday of day `f` (one of days 1 .. 7) in its `n`-th week is `n - 1` weeks after `f`. */
  lemma WeeksFromFirst(w: int, f: int, day: int, n: int)
    requires 0 <= w < 7 && 1 <= f <= 7
    requires (w + (day - f)) % 7 == w && WeekOfMonth(day) == n
    ensures day == f + 7 * (n - 1)
  {
    SameWeekdayGap(w, day - f);
    var q := (day - f) / 7;
    assert day == f + 7 * q;
    DivModUnique(day + 6, 7, q + 1, f - 1);
  }
}
