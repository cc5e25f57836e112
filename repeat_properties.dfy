/**
 * What the expansion of src/utils/repeatUtils.ts promises about whole runs
 * of the loop: daily and weekly runs step evenly, yearly `exact` runs hit
 * exactly the stepped years that have the base day, a yearly `nthWeekday`
 * run stops at the first year without the occurrence, the fallback branch
 * never moves, and every generated event is the base event on a new date.
 */
module RepeatProperties {
  import opened Types
  import opened Calendar
  import opened DateUtils
  import opened RepeatRules
  import opened RepeatEvents

  /**
   * Daily and weekly runs: the `i`-th date is `i` steps of `k` days after
   * the cursor, and one more step would pass the end date.
   */
  lemma {:induction false} EvenSteps(r: Rule, c: CalDate, k: int)
    requires WellFormed(r) && Invariant(r, c)
    requires (r.kind == Daily && k == r.interval) || (r.kind == Weekly && k == 7 * r.interval)
    ensures var s := RunFrom(r, c);
            (forall i :: 0 <= i < |s| ==> DayNumber(s[i]) == DayNumber(c) + i * k)
            && DayNumber(c) + |s| * k > DayNumber(r.end)
    decreases DayNumber(r.end) - DayNumber(c)
  {
    hide MonthStart, MonthLength, Weekday, DaysInMonth, Invariant, RunFrom, Roll, CreateUTCDate, MonthlyPass, YearlyPass,
      DayNumber, Shape, StrictlyIncreasing, AddDays;
    RunFromStep(r, c);
    if DayNumber(c) <= DayNumber(r.end) {
      var next := Step(r, c).next;
      assert Step(r, c) == Pass([c], AddDays(c, k));
      EvenSteps(r, next, k);
      var s, rest := RunFrom(r, c), RunFrom(r, next);
      assert s == [c] + rest;
      OneMoreStep(c, rest, k);
    }
  }

  /** Putting `c` in front of dates spaced `k` apart from `k` days after `c` keeps them spaced `k` apart. */
  lemma OneMoreStep(c: CalDate, rest: seq<CalDate>, k: int)
    requires forall i :: 0 <= i < |rest| ==> DayNumber(rest[i]) == DayNumber(c) + k + i * k
    ensures var s := [c] + rest;
            (forall i :: 0 <= i < |s| ==> DayNumber(s[i]) == DayNumber(c) + i * k)
            && DayNumber(c) + k + |rest| * k == DayNumber(c) + |s| * k
  {
    hide DayNumber;
    var s := [c] + rest;
    forall i | 0 <= i < |s|
      ensures DayNumber(s[i]) == DayNumber(c) + i * k
    {
      if i > 0 {
        assert s[i] == rest[i - 1];
        assert (i - 1) * k + k == i * k;
      }
    }
    assert |rest| * k + k == |s| * k;
  }

  /**
   * `generateRepeatEvents` with `daily` or `weekly`: the dates start at the
   * base date and go up by exactly `interval` or `7 * interval` days, up to
   * the last such date not after the end date.
   */
  lemma DailyWeeklyDates(r: Rule, k: int)
    requires r.interval >= 1 && DayNumber(r.base) <= DayNumber(r.end)
    requires (r.kind == Daily && k == r.interval) || (r.kind == Weekly && k == 7 * r.interval)
    ensures var s := Occurrences(r);
            |s| >= 1 && s[0] == r.base
            && (forall i :: 0 <= i < |s| ==> DayNumber(s[i]) == DayNumber(r.base) + i * k)
            && DayNumber(s[|s| - 1]) <= DayNumber(r.end) < DayNumber(s[|s| - 1]) + k
  {
    hide MonthStart, MonthLength, Weekday, DaysInMonth, Invariant, RunFrom, Roll, CreateUTCDate, MonthlyPass, YearlyPass,
      Step, Shape, StrictlyIncreasing, AddDays, Stop, FindLastWeekday, NthWeekdayIn, FirstValidYear;
    BaseInvariant(r);
    EvenSteps(r, r.base, k);
    var s := Occurrences(r);
    assert s == RunFrom(r, r.base);
    assert |s| != 0;
    assert DayNumber(s[0]) == DayNumber(r.base) + 0 * k;
    DayNumberInjective(s[0], r.base);
    assert s[|s| - 1] in s;
    assert (|s| - 1) * k + k == |s| * k;
  }

  /** Of the years `from`, `from + step`, ..., those after `b` (one of them) are stepped to from `b`. */
  lemma StridesFrom(a: int, b: int, y: int, step: int)
    requires step >= 1 && Strides(a, b, step) && Strides(a, y, step) && b <= y
    ensures Strides(b, y, step)
  {
    StridesIsMultiple(a, b, step);
    StridesIsMultiple(a, y, step);
    var p, q := (y - a) / step, (b - a) / step;
    assert y - b == step * (p - q);
    DivModUnique(y - b, step, p - q, 0);
    StridesIsMultiple(b, y, step);
  }

  /** The same month and day of a later year come later. */
  lemma LaterYear(x: CalDate, y: CalDate)
    requires x.month == y.month && x.day == y.day && x.year < y.year
    ensures DayNumber(x) < DayNumber(y)
  {
    MonthOrder(x, y);
  }

  /**
   * A yearly `exact` run from cursor `c` holds every date with the base
   * month and day in a year stepped to from `c`'s year, up to the end date.
   */
  lemma {:induction false} YearlyExactReaches(r: Rule, c: CalDate, x: CalDate)
    requires WellFormed(r) && r.kind == Yearly && r.pattern == Some(Exact) && Invariant(r, c)
    requires c.month == r.base.month && c.day == r.base.day && c.year >= 0
    requires x.month == r.base.month && x.day == r.base.day
    requires Strides(c.year, x.year, r.interval) && DayNumber(x) <= DayNumber(r.end)
    ensures x in RunFrom(r, c)
    decreases DayNumber(r.end) - DayNumber(c)
  {
    hide MonthStart, MonthLength, Weekday, DaysInMonth, Invariant, RunFrom, Roll, CreateUTCDate, MonthlyPass, Stop,
      DayNumber, Shape, StrictlyIncreasing, FindLastWeekday, NthWeekdayIn, AddDays, FirstValidYear;
    StridesNotBefore(c.year, x.year, r.interval);
    if x.year == c.year {
      assert x == c;
    } else {
      LaterYear(c, x);
    }
    RunFromStep(r, c);
    var k := r.interval;
    var found := FirstValidYear(c.year + k, c.month, c.day, r.end.year, k);
    assert Step(r, c) == Pass([c], OrStop(r, found));
    if x.year != c.year {
      assert Strides(c.year + k, x.year, k);
      assert x.year <= r.end.year by {
        if x.year > r.end.year {
          MonthOrder(r.end, x);
        }
      }
      assert x.day <= DaysInMonth(x.year, x.month);
      var v := found.value;
      assert v.year <= x.year;
      StridesFrom(c.year + k, v.year, x.year, k);
      StridesNotBefore(c.year + k, v.year, k);
      if v.year < x.year {
        LaterYear(v, x);
      }
      YearlyExactReaches(r, v, x);
    }
  }

  /**
   * Yearly `exact` from a base date in year 0 or later: the dates are
   * exactly the base month and day in the years base year, + interval,
   * + 2 interval, ... that have that day, up to the end date.
   */
  lemma YearlyExactDates(r: Rule, x: CalDate)
    requires r.interval >= 1 && r.kind == Yearly && r.pattern == Some(Exact) && r.base.year >= 0
    ensures x in Occurrences(r) <==>
              x.month == r.base.month && x.day == r.base.day && Strides(r.base.year, x.year, r.interval)
              && DayNumber(x) <= DayNumber(r.end)
  {
    hide MonthStart, MonthLength, Weekday, DaysInMonth, Invariant, RunFrom, Roll, CreateUTCDate, MonthlyPass, YearlyPass;
    if x.month == r.base.month && x.day == r.base.day && Strides(r.base.year, x.year, r.interval)
       && DayNumber(x) <= DayNumber(r.end) {
      StridesNotBefore(r.base.year, x.year, r.interval);
      if x.year > r.base.year {
        LaterYear(r.base, x);
      } else {
        assert x == r.base;
      }
      BaseInvariant(r);
      YearlyExactReaches(r, r.base, x);
    }
  }

  /** February 29 repeated yearly: every date is a February 29, and every stepped leap year up to the end date has one. */
  lemma LeapDayYears(r: Rule, y: int)
    requires r.interval >= 1 && r.kind == Yearly && r.pattern == Some(Exact) && r.base.year >= 0
    requires r.base.month == 1 && r.base.day == 29
    ensures forall x :: x in Occurrences(r) ==> x.month == 1 && x.day == 29 && IsLeapYear(x.year)
    ensures IsLeapYear(y) && Strides(r.base.year, y, r.interval) && DayNumber(Date(y, 1, 29)) <= DayNumber(r.end)
            ==> Date(y, 1, 29) in Occurrences(r)
  {
    hide MonthStart, MonthLength, Weekday, Invariant, RunFrom, Roll, CreateUTCDate, MonthlyPass, YearlyPass;
    forall x | x in Occurrences(r)
      ensures x.month == 1 && x.day == 29 && IsLeapYear(x.year)
    {
      YearlyExactDates(r, x);
    }
    if IsLeapYear(y) && Strides(r.base.year, y, r.interval) && DayNumber(Date(y, 1, 29)) <= DayNumber(r.end) {
      YearlyExactDates(r, Date(y, 1, 29));
    }
  }

  /**
   * Yearly `nthWeekday`: when the stepped year has no such occurrence in
   * the base month, the pass moves the cursor past the end date and the
   * run ends with this pass.
   */
  lemma YearlyNthWeekdayStops(r: Rule, c: CalDate)
    requires WellFormed(r) && r.kind == Yearly && r.pattern == Some(NthWeekday) && Invariant(r, c)
    requires DayNumber(c) <= DayNumber(r.end)
    requires NthWeekdayIn(12 * (c.year + r.interval) + r.base.month, BaseWeekday(r), BaseWeek(r)).None?
    ensures RunFrom(r, c) == YearlyPass(r, NthWeekday, c).emitted
  {
    hide MonthStart, MonthLength, Weekday, DaysInMonth, RunFrom, Roll, CreateUTCDate, MonthlyPass, NthWeekdayIn,
      FindLastWeekday, FirstValidYear, AddDays;
    RunFromStep(r, c);
    assert Step(r, c).next == Stop(r);
    RunFromStep(r, Stop(r));
  }

  /** The cursor after `n` passes of the loop body. */
  function Passes(r: Rule, c: CalDate, n: nat): CalDate
    requires r.interval >= 1
    decreases n
  {
    hide MonthStart, MonthLength, Weekday, DaysInMonth, DayNumber, Step, MonthlyPass, YearlyPass, AddDays;
    if n == 0 then c else Passes(r, Step(r, c).next, n - 1)
  }

  /**
   * The last branch of the loop body (no repeat, or monthly or yearly
   * without a pattern) emits the cursor and leaves it in place, so the loop
   * never reaches the end date: the source loops forever.
   */
  lemma {:induction false} FallbackNeverAdvances(r: Rule, c: CalDate, n: nat)
    requires r.interval >= 1 && !Handled(r.kind, r.pattern)
    ensures Step(r, c) == Pass([c], c)
    ensures Passes(r, c, n) == c
  {
    hide MonthlyPass, YearlyPass, AddDays;
    if n > 0 {
      FallbackNeverAdvances(r, c, n - 1);
    }
  }

  /**
   * Monthly `exact` with an interval of 0, which the form can pass when the
   * interval field is cleared: a pass on the base day pushes the cursor
   * twice (once as itself, once as the date 0 months on) and still moves
   * the cursor forward, to the base day of the next month. So the source
   * ends, with every date doubled; the rule is outside `WellFormed`, whose
   * runs emit strictly increasing dates.
   */
  lemma MonthlyExactZeroInterval(r: Rule, c: CalDate)
    requires r.kind == Monthly && r.pattern == Some(Exact) && r.interval == 0
    requires c.day == r.base.day && c.year >= 0 && DayNumber(c) <= DayNumber(r.end)
    ensures MonthlyPass(r, Exact, c).emitted == [c, c]
    ensures DayNumber(c) < DayNumber(MonthlyPass(r, Exact, c).next)
    ensures !WellFormed(r) && !StrictlyIncreasing(MonthlyPass(r, Exact, c).emitted)
  {
    hide MonthStart, MonthLength, DayNumber, Weekday, DaysInMonth, Roll, DateIn, CreateUTCDate, AddDays,
      FindLastWeekday, NthWeekdayIn, FirstWeekdayDay, FirstOfMonth, LastOfMonth;
    var mi := MonthIndex(c);
    DateInOwnMonth(c);
    DayNumberInMonth(c);
    assert DateIn(mi + r.interval, r.base.day) == c;
    var p := MonthlyPass(r, Exact, c);
    assert p.emitted == [c] + [c];
    assert p.next == Roll(mi + 1, c.day);
    assert p.emitted[0] == p.emitted[1];
  }

  /**
   * Every generated event is the base event with only its date and repeat
   * settings replaced; the repeat settings are the type, the interval and
   * the end date, with the pattern and the end mode dropped.
   */
  lemma ExpansionKeepsEvent(baseEvent: Event, repeatType: RepeatType, interval: int, endDate: string,
                            repeatPattern: Option<RepeatPattern>, e: Event)
    requires Terminates(baseEvent, repeatType, interval, endDate, repeatPattern)
    requires e in Expansion(baseEvent, repeatType, interval, endDate, repeatPattern)
    ensures e.(date := baseEvent.date, repeat := baseEvent.repeat) == baseEvent
    ensures e.repeat == RepeatInfo(repeatType, interval, Some(endDate), None, None)
  {
    hide CreateEventWithRepeat, Occurrences, InitializeDate;
    var r := ReadRule(baseEvent, repeatType, interval, endDate, repeatPattern).value;
    var dates := Occurrences(r);
    var events := Expansion(baseEvent, repeatType, interval, endDate, repeatPattern);
    var i :| 0 <= i < |events| && events[i] == e;
    assert e == CreateEventWithRepeat(baseEvent, dates[i], repeatType, interval, endDate);
  }
}
