/**
 * What one pass of the `while` loop of `generateRepeatEvents`
 * (src/utils/repeatUtils.ts:25-278) does, stated on calendar dates: which
 * dates it emits and where it leaves the cursor, per repeat type and
 * pattern. `RunFrom` strings the passes together up to the end date.
 */
module RepeatRules {
  import opened Types
  import opened Calendar
  import opened DateUtils

  /** One expansion request, with its start and end dates already read. */
  datatype Rule = Rule(
    base: CalDate,
    end: CalDate,
    kind: RepeatType,
    interval: int,
    pattern: Option<RepeatPattern>)

  /** The dates one pass emits, in order, and the cursor it leaves behind. */
  datatype Pass = Pass(emitted: seq<CalDate>, next: CalDate)

  /**
   * The combinations that reach a branch which moves the cursor: daily and
   * weekly whatever the pattern, monthly and yearly only with a pattern.
   */
  predicate Handled(kind: RepeatType, pattern: Option<RepeatPattern>) {
    kind == Daily || kind == Weekly || ((kind == Monthly || kind == Yearly) && pattern.Some?)
  }

  /** What the callers of the generator guarantee before it loops. */
  predicate WellFormed(r: Rule) {
    r.interval >= 1 && Handled(r.kind, r.pattern)
  }

  /** The cursor the yearly branches set to give up: one step past the end date. */
  function Stop(r: Rule): (c: CalDate)
    ensures DayNumber(c) == DayNumber(r.end) + 1
  {
    AddDays(r.end, 1)
  }

  /** The year search gives up by moving the cursor just past the end date. */
  function OrStop(r: Rule, found: Option<CalDate>): CalDate {
    if found.Some? then found.value else Stop(r)
  }

  /** The base date's weekday and which occurrence of it in its month the base date is. */
  function BaseWeekday(r: Rule): (w: int)
    ensures 0 <= w < 7
  {
    Weekday(r.base)
  }

  function BaseWeek(r: Rule): (n: int)
    ensures 1 <= n <= 5
  {
    WeekOfMonth(r.base.day)
  }

  /** `y` is one of the years `from`, `from + step`, `from + 2 * step`, ... */
  predicate Strides(from: int, y: int, step: int)
    requires step >= 1
    decreases y - from
  {
    y == from || (y >= from + step && Strides(from + step, y, step))
  }

  /** The years reached by stepping are those a whole number of steps on. */
  lemma {:induction false} StridesIsMultiple(from: int, y: int, step: int)
    requires step >= 1
    ensures Strides(from, y, step) <==> y >= from && (y - from) % step == 0
    decreases y - from
  {
    if y >= from + step {
      StridesIsMultiple(from + step, y, step);
      DivModUnique(y - from, step, (y - from - step) / step + 1, (y - from - step) % step);
    } else if y > from {
      DivModUnique(y - from, step, 0, y - from);
    }
  }

  lemma {:induction false} StridesNotBefore(from: int, y: int, step: int)
    requires step >= 1 && Strides(from, y, step)
    ensures y >= from
    decreases y - from
  {
    if y != from {
      StridesNotBefore(from + step, y, step);
    }
  }

  /** Stepping on from a year reached by stepping reaches years stepping reaches. */
  lemma {:induction false} StridesTrans(a: int, b: int, c: int, step: int)
    requires step >= 1 && Strides(a, b, step) && Strides(b, c, step)
    ensures Strides(a, c, step)
    decreases b - a
  {
    if b != a {
      StridesTrans(a + step, b, c, step);
      StridesNotBefore(a + step, b, step);
      StridesNotBefore(b, c, step);
    }
  }

  /**
   * The years `year`, `year + step`, ... up to `last`, and the first of them
   * in which month `month` has a day `day`; `None` when none of them has.
   */
  function FirstValidYear(year: int, month: int, day: int, last: int, step: int): (r: Option<CalDate>)
    requires 0 <= month < 12 && 1 <= day && step >= 1
    ensures r.Some? ==> r.value.month == month && r.value.day == day
    ensures r.Some? ==> r.value.year <= last && Strides(year, r.value.year, step)
    ensures forall y :: Strides(year, y, step) && y <= last && (r.None? || y < r.value.year) ==>
              day > DaysInMonth(y, month)
    decreases last - year
  {
    if year > last then
      assert forall y :: Strides(year, y, step) ==> y >= year by {
        forall y | Strides(year, y, step) ensures y >= year { StridesNotBefore(year, y, step); }
      }
      None
    else if day <= DaysInMonth(year, month) then
      assert forall y :: Strides(year, y, step) && y < year ==> false by {
        forall y | Strides(year, y, step) ensures y >= year { StridesNotBefore(year, y, step); }
      }
      Some(Date(year, month, day))
    else
      var r := FirstValidYear(year + step, month, day, last, step);
      if r.Some? then StridesNotBefore(year + step, r.value.year, step); r else r
  }

  /** One monthly pass (src/utils/repeatUtils.ts:32-153), by pattern. */
  function MonthlyPass(r: Rule, p: RepeatPattern, c: CalDate): Pass {
    var mi, k := MonthIndex(c), r.interval;
    match p
    case Exact =>
      // the cursor, if its formatted date reads back; then the base day
      // `interval` months on, if that month has it and the end allows it;
      // then the base day one month further, rolled over if too long
      var target := mi + k;
      var own := if c.year >= 0 then [c] else [];
      var follow :=
        if r.base.day <= MonthLength(target) && DayNumber(DateIn(target, r.base.day)) <= DayNumber(r.end)
        then [DateIn(target, r.base.day)] else [];
      Pass(own + follow, Roll(target + 1, r.base.day))
    case LastDay =>
      Pass(if c.day == MonthLength(mi) then [c] else [], LastOfMonth(mi + k))
    case LastWeekday =>
      var l := FindLastWeekday(c, BaseWeekday(r));
      Pass(if DayNumber(l) <= DayNumber(r.end) then [l] else [], FirstOfMonth(mi + k))
    case NthWeekday =>
      // the occurrence in the cursor's month (or the first such weekday)
      // moved `interval` months, spilling one month further when that month
      // is too short, and from there `interval` months more
      var w, n := BaseWeekday(r), BaseWeek(r);
      var t := NthWeekdayIn(mi, w, n);
      var anchor := if t.Some? then t.value.day else FirstWeekdayDay(mi, w);
      var m1 := mi + k + (if anchor > MonthLength(mi + k) then 1 else 0);
      var m2 := m1 + k;
      var u := NthWeekdayIn(m2, w, n);
      Pass(if t.Some? then [t.value] else [], if u.Some? then u.value else FirstOfMonth(m2))
  }

  /** One yearly pass with the cursor in the base month (src/utils/repeatUtils.ts:157-273). */
  function YearlyPass(r: Rule, p: RepeatPattern, c: CalDate): Pass
    requires r.interval >= 1
  {
    var k := r.interval;
    match p
    case Exact =>
      Pass(if c.year >= 0 then [c] else [],
           OrStop(r, FirstValidYear(c.year + k, c.month, c.day, r.end.year, k)))
    case LastDay =>
      var l := LastOfMonth(12 * c.year + r.base.month);
      Pass(if DayNumber(l) <= DayNumber(r.end) then [l] else [],
           OrStop(r, FirstValidYear(c.year + k, c.month, c.day, r.end.year, k)))
    case LastWeekday =>
      var l := FindLastWeekday(c, BaseWeekday(r));
      Pass(if DayNumber(l) <= DayNumber(r.end) then [l] else [],
           if c.year + k <= r.end.year then Date(c.year + k, c.month, 1) else Stop(r))
    case NthWeekday =>
      Pass(if Weekday(c) == BaseWeekday(r) && WeekOfMonth(c.day) == BaseWeek(r) then [c] else [],
           OrStop(r, NthWeekdayIn(12 * (c.year + k) + r.base.month, BaseWeekday(r), BaseWeek(r))))
  }

  /**
   * One pass of the loop at cursor `c`. The last branch of the source (no
   * repeat, or monthly or yearly without a pattern) emits the cursor and
   * leaves it where it is; a yearly cursor outside the base month is left
   * alone too.
   */
  function Step(r: Rule, c: CalDate): Pass
    requires r.interval >= 1
  {
    match r.kind
    case Daily => Pass([c], AddDays(c, r.interval))
    case Weekly => Pass([c], AddDays(c, 7 * r.interval))
    case Monthly => if r.pattern.Some? then MonthlyPass(r, r.pattern.value, c) else Pass([c], c)
    case Yearly =>
      if r.pattern.None? then Pass([c], c)
      else if c.month == r.base.month then YearlyPass(r, r.pattern.value, c)
      else Pass([], c)
    case NoRepeat => Pass([c], c)
  }

  /** The day-of-month rule every emitted date of a pattern obeys. */
  predicate PatternDay(r: Rule, p: RepeatPattern, x: CalDate) {
    match p
    case Exact =>
      x.day == r.base.day
      || (r.kind == Monthly && x.day == r.base.day - MonthLength(MonthIndex(x) - 1))
    case LastDay => x.day == MonthLength(MonthIndex(x))
    case LastWeekday => Weekday(x) == BaseWeekday(r) && x.day + 7 > MonthLength(MonthIndex(x))
    case NthWeekday => Weekday(x) == BaseWeekday(r) && WeekOfMonth(x.day) == BaseWeek(r)
  }

  /**
   * What every emitted date looks like: weekly dates keep the base weekday;
   * monthly dates obey the pattern's day rule (for `exact`, the base day or
   * its roll-over into the month after a short one); yearly dates lie in
   * the base month, a whole number of intervals after the base year, and
   * obey the pattern's day rule.
   */
  predicate Shape(r: Rule, x: CalDate)
    requires r.interval >= 1
  {
    match r.kind
    case Weekly => Weekday(x) == BaseWeekday(r)
    case Monthly => r.pattern.Some? ==> PatternDay(r, r.pattern.value, x)
    case Yearly =>
      r.pattern.Some? ==>
        x.month == r.base.month && Strides(r.base.year, x.year, r.interval)
        && PatternDay(r, r.pattern.value, x)
    case _ => true
  }

  /** What the cursor itself obeys, beyond the shape of the dates. */
  predicate CursorDay(r: Rule, p: RepeatPattern, c: CalDate) {
    match p
    case Exact => PatternDay(r, Exact, c)
    case LastDay => true
    case LastWeekday => c.day == 1 || Weekday(c) == BaseWeekday(r)
    case NthWeekday =>
      r.kind == Monthly ==>
        var t := NthWeekdayIn(MonthIndex(c), BaseWeekday(r), BaseWeek(r));
        t.None? || t.value == c
  }

  /** The loop invariant on the cursor, for as long as it has not passed the end date. */
  predicate Invariant(r: Rule, c: CalDate)
    requires r.interval >= 1
  {
    DayNumber(c) <= DayNumber(r.end) ==>
      match r.kind
      case Weekly => Weekday(c) == BaseWeekday(r)
      case Monthly => r.pattern.Some? ==> CursorDay(r, r.pattern.value, c)
      case Yearly =>
        r.pattern.Some? ==>
          c.month == r.base.month && Strides(r.base.year, c.year, r.interval)
          && CursorDay(r, r.pattern.value, c)
      case _ => true
  }

  predicate StrictlyIncreasing(dates: seq<CalDate>) {
    forall i, j :: 0 <= i < j < |dates| ==> DayNumber(dates[i]) < DayNumber(dates[j])
  }

  /**
   * A pass fits: the cursor moves strictly forward and keeps the invariant,
   * and the emitted dates increase, lie between the old cursor and the new
   * one, do not pass the end date, and have the rule's shape.
   */
  predicate PassFits(r: Rule, c: CalDate, p: Pass)
    requires r.interval >= 1
  {
    DayNumber(c) < DayNumber(p.next) && Invariant(r, p.next)
    && StrictlyIncreasing(p.emitted)
    && forall x :: x in p.emitted ==>
         DayNumber(c) <= DayNumber(x) < DayNumber(p.next) && DayNumber(x) <= DayNumber(r.end) && Shape(r, x)
  }

  /** The loop starts in a state that satisfies its invariant. */
  lemma BaseInvariant(r: Rule)
    requires r.interval >= 1
    ensures Invariant(r, r.base)
  {
    hide MonthStart, MonthLength, Weekday, DaysInMonth;
    if r.kind == Monthly && r.pattern == Some(NthWeekday) {
      NthWeekdayInExact(MonthIndex(r.base), BaseWeekday(r), BaseWeek(r), r.base);
    }
  }

  /** The last `w`-day of a month does not come before a cursor on day 1 or on a `w`-day. */
  lemma LastWeekdayNotBefore(c: CalDate, w: int)
    requires 0 <= w < 7 && (c.day == 1 || Weekday(c) == w)
    ensures DayNumber(c) <= DayNumber(FindLastWeekday(c, w))
  {
    hide MonthStart, MonthLength, Weekday, DaysInMonth, FindLastWeekday, Roll, CreateUTCDate, DateIn, FirstOfMonth;
    var l := FindLastWeekday(c, w);
    if c.day != 1 {
      WeekdayInMonth(c, l, l.day - c.day);
      SameWeekdayGap(w, l.day - c.day);
      DayNumberInMonth(c);
    }
  }

  lemma MonthlyExactFits(r: Rule, c: CalDate)
    requires WellFormed(r) && r.kind == Monthly && r.pattern == Some(Exact)
    requires Invariant(r, c) && DayNumber(c) <= DayNumber(r.end)
    ensures PassFits(r, c, MonthlyPass(r, Exact, c))
  {
    hide MonthStart, MonthLength, Weekday, DaysInMonth, DayNumber, Roll, FindLastWeekday, NthWeekdayIn, FirstWeekdayDay,
      FirstValidYear, AddDays, Stop, YearlyPass;
    var target, bd := MonthIndex(c) + r.interval, r.base.day;
    var p := MonthlyPass(r, Exact, c);
    if bd <= MonthLength(target + 1) {
      RollInMonth(target + 1, bd);
    } else {
      RollIntoNext(target + 1, bd);
    }
    MonthOrder(c, p.next);
    if bd <= MonthLength(target) {
      MonthOrder(c, DateIn(target, bd));
      MonthOrder(DateIn(target, bd), p.next);
    }
  }

  lemma DailyFits(r: Rule, c: CalDate)
    requires WellFormed(r) && r.kind == Daily && DayNumber(c) <= DayNumber(r.end)
    ensures PassFits(r, c, Step(r, c))
  {
    hide PassFits, Weekday, AddDays;
    FitsOne(r, c, Step(r, c), c);
  }

  lemma WeeklyFits(r: Rule, c: CalDate)
    requires WellFormed(r) && r.kind == Weekly && Invariant(r, c) && DayNumber(c) <= DayNumber(r.end)
    ensures PassFits(r, c, Step(r, c))
  {
    hide PassFits, Weekday, AddDays;
    WeeksKeepWeekday(Weekday(c), r.interval);
    FitsOne(r, c, Step(r, c), c);
  }

  /** A pass that emits at most the one date `x` fits once its parts do. */
  lemma FitsOne(r: Rule, c: CalDate, p: Pass, x: CalDate)
    requires r.interval >= 1
    requires DayNumber(c) < DayNumber(p.next) && Invariant(r, p.next)
    requires p.emitted == [] || p.emitted == [x]
    requires p.emitted == [x] ==>
               DayNumber(c) <= DayNumber(x) < DayNumber(p.next) && DayNumber(x) <= DayNumber(r.end) && Shape(r, x)
    ensures PassFits(r, c, p)
  {
  }

  lemma MonthlyLastDayFits(r: Rule, c: CalDate)
    requires WellFormed(r) && r.kind == Monthly && r.pattern == Some(LastDay)
    requires DayNumber(c) <= DayNumber(r.end)
    ensures PassFits(r, c, MonthlyPass(r, LastDay, c))
  {
    hide PassFits, MonthStart, MonthLength, Weekday, DaysInMonth, LastOfMonth;
    var p := MonthlyPass(r, LastDay, c);
    MonthOrder(c, p.next);
    FitsOne(r, c, p, c);
  }

  lemma MonthlyLastWeekdayFits(r: Rule, c: CalDate)
    requires WellFormed(r) && r.kind == Monthly && r.pattern == Some(LastWeekday)
    requires Invariant(r, c) && DayNumber(c) <= DayNumber(r.end)
    ensures PassFits(r, c, MonthlyPass(r, LastWeekday, c))
  {
    hide PassFits, MonthStart, MonthLength, Weekday, DaysInMonth, FindLastWeekday, FirstOfMonth;
    var p := MonthlyPass(r, LastWeekday, c);
    var l := FindLastWeekday(c, BaseWeekday(r));
    LastWeekdayNotBefore(c, BaseWeekday(r));
    MonthOrder(l, p.next);
    FitsOne(r, c, p, l);
  }

  lemma MonthlyNthWeekdayFits(r: Rule, c: CalDate)
    requires WellFormed(r) && r.kind == Monthly && r.pattern == Some(NthWeekday)
    requires Invariant(r, c) && DayNumber(c) <= DayNumber(r.end)
    ensures PassFits(r, c, MonthlyPass(r, NthWeekday, c))
  {
    hide PassFits, MonthStart, MonthLength, Weekday, DaysInMonth, NthWeekdayIn, FirstWeekdayDay, FirstOfMonth;
    var p := MonthlyPass(r, NthWeekday, c);
    MonthOrder(c, p.next);
    FitsOne(r, c, p, c);
  }

  /** A yearly cursor moved to `v` by the year search keeps the invariant. */
  lemma YearlyFoundFits(r: Rule, c: CalDate, v: CalDate)
    requires WellFormed(r) && r.kind == Yearly && r.pattern.Some?
    requires c.month == r.base.month && Strides(r.base.year, c.year, r.interval)
    requires v.month == c.month && Strides(c.year + r.interval, v.year, r.interval)
    ensures DayNumber(c) < DayNumber(v) && Strides(r.base.year, v.year, r.interval)
  {
    hide MonthStart, MonthLength, Weekday, DaysInMonth;
    StridesNotBefore(c.year + r.interval, v.year, r.interval);
    MonthOrder(c, v);
    StridesTrans(r.base.year, c.year, v.year, r.interval);
  }

  lemma YearlyExactFits(r: Rule, c: CalDate)
    requires WellFormed(r) && r.kind == Yearly && r.pattern == Some(Exact)
    requires Invariant(r, c) && DayNumber(c) <= DayNumber(r.end)
    ensures PassFits(r, c, YearlyPass(r, Exact, c))
  {
    hide PassFits, MonthStart, MonthLength, Weekday, DaysInMonth, FirstValidYear;
    var p := YearlyPass(r, Exact, c);
    var found := FirstValidYear(c.year + r.interval, c.month, c.day, r.end.year, r.interval);
    if found.Some? {
      YearlyFoundFits(r, c, found.value);
    }
    FitsOne(r, c, p, c);
  }

  lemma YearlyLastDayFits(r: Rule, c: CalDate)
    requires WellFormed(r) && r.kind == Yearly && r.pattern == Some(LastDay)
    requires Invariant(r, c) && DayNumber(c) <= DayNumber(r.end)
    ensures PassFits(r, c, YearlyPass(r, LastDay, c))
  {
    hide PassFits, MonthStart, MonthLength, Weekday, DaysInMonth, FirstValidYear, LastOfMonth;
    var p := YearlyPass(r, LastDay, c);
    var l := LastOfMonth(12 * c.year + r.base.month);
    MonthIndexParts(l, c.year, r.base.month);
    DayNumberInMonth(c);
    var found := FirstValidYear(c.year + r.interval, c.month, c.day, r.end.year, r.interval);
    if found.Some? {
      YearlyFoundFits(r, c, found.value);
      MonthOrder(l, found.value);
    }
    FitsOne(r, c, p, l);
  }

  lemma YearlyLastWeekdayFits(r: Rule, c: CalDate)
    requires WellFormed(r) && r.kind == Yearly && r.pattern == Some(LastWeekday)
    requires Invariant(r, c) && DayNumber(c) <= DayNumber(r.end)
    ensures PassFits(r, c, YearlyPass(r, LastWeekday, c))
  {
    hide PassFits, MonthStart, MonthLength, Weekday, DaysInMonth, FindLastWeekday;
    var p := YearlyPass(r, LastWeekday, c);
    var l := FindLastWeekday(c, BaseWeekday(r));
    LastWeekdayNotBefore(c, BaseWeekday(r));
    MonthIndexParts(l, c.year, c.month);
    if c.year + r.interval <= r.end.year {
      YearlyFoundFits(r, c, p.next);
      MonthOrder(l, p.next);
    }
    FitsOne(r, c, p, l);
  }

  lemma YearlyNthWeekdayFits(r: Rule, c: CalDate)
    requires WellFormed(r) && r.kind == Yearly && r.pattern == Some(NthWeekday)
    requires Invariant(r, c) && DayNumber(c) <= DayNumber(r.end)
    ensures PassFits(r, c, YearlyPass(r, NthWeekday, c))
  {
    hide PassFits, MonthStart, MonthLength, Weekday, DaysInMonth, NthWeekdayIn, WeekOfMonth, DayNumber, Roll,
      FindLastWeekday, FirstWeekdayDay, FirstValidYear, Stop, MonthlyPass;
    var p := YearlyPass(r, NthWeekday, c);
    var found := NthWeekdayIn(12 * (c.year + r.interval) + r.base.month, BaseWeekday(r), BaseWeek(r));
    if found.Some? {
      MonthIndexParts(found.value, c.year + r.interval, r.base.month);
      YearlyFoundFits(r, c, found.value);
      assert p.next == found.value;
    } else {
      assert p.next == Stop(r);
    }
    assert Invariant(r, p.next);
    FitsOne(r, c, p, c);
  }

  /** Every pass of a well-formed rule fits, so the loop moves forward and keeps its invariant. */
  lemma StepFits(r: Rule, c: CalDate)
    requires WellFormed(r) && Invariant(r, c) && DayNumber(c) <= DayNumber(r.end)
    ensures PassFits(r, c, Step(r, c))
  {
    hide PassFits, MonthlyPass, YearlyPass, MonthStart, MonthLength, Weekday, DaysInMonth, AddDays;
    match r.kind
    case Daily => DailyFits(r, c);
    case Weekly => WeeklyFits(r, c);
    case Monthly =>
      match r.pattern.value {
        case Exact => MonthlyExactFits(r, c);
        case LastDay => MonthlyLastDayFits(r, c);
        case LastWeekday => MonthlyLastWeekdayFits(r, c);
        case NthWeekday => MonthlyNthWeekdayFits(r, c);
      }
    case Yearly =>
      match r.pattern.value {
        case Exact => YearlyExactFits(r, c);
        case LastDay => YearlyLastDayFits(r, c);
        case LastWeekday => YearlyLastWeekdayFits(r, c);
        case NthWeekday => YearlyNthWeekdayFits(r, c);
      }
  }

  lemma JoinIncreasing(a: seq<CalDate>, b: seq<CalDate>, pivot: int)
    requires StrictlyIncreasing(a) && StrictlyIncreasing(b)
    requires forall x :: x in a ==> DayNumber(x) < pivot
    requires forall x :: x in b ==> pivot <= DayNumber(x)
    ensures StrictlyIncreasing(a + b)
  {
    hide MonthStart, MonthLength, Weekday, DaysInMonth;
    forall i, j | 0 <= i < j < |a + b|
      ensures DayNumber((a + b)[i]) < DayNumber((a + b)[j])
    {
      if j < |a| {
      } else if i < |a| {
        assert a[i] in a && b[j - |a|] in b;
      } else {
        assert (a + b)[i] == b[i - |a|] && (a + b)[j] == b[j - |a|];
      }
    }
  }

  /**
   * The dates the loop emits from cursor `c` on: they increase strictly,
   * lie between `c` and the end date, and have the rule's shape.
   */
  function RunFrom(r: Rule, c: CalDate): (dates: seq<CalDate>)
    requires WellFormed(r) && Invariant(r, c)
    ensures StrictlyIncreasing(dates)
    ensures forall x :: x in dates ==>
              DayNumber(c) <= DayNumber(x) <= DayNumber(r.end) && Shape(r, x)
    decreases DayNumber(r.end) - DayNumber(c)
  {
    if DayNumber(c) > DayNumber(r.end) then []
    else
      var p := Step(r, c);
      StepFits(r, c);
      var rest := RunFrom(r, p.next);
      JoinIncreasing(p.emitted, rest, DayNumber(p.next));
      p.emitted + rest
  }

  /** One turn of the loop: the run from `c` is this pass's dates, then the run from the next cursor. */
  lemma RunFromStep(r: Rule, c: CalDate)
    requires WellFormed(r) && Invariant(r, c)
    ensures DayNumber(c) > DayNumber(r.end) ==> RunFrom(r, c) == []
    ensures DayNumber(c) <= DayNumber(r.end) ==>
              var p := Step(r, c);
              DayNumber(c) < DayNumber(p.next) && Invariant(r, p.next)
              && RunFrom(r, c) == p.emitted + RunFrom(r, p.next)
  {
    hide MonthStart, MonthLength, Weekday, DaysInMonth, Step, Invariant;
    if DayNumber(c) <= DayNumber(r.end) {
      StepFits(r, c);
    }
  }
}
