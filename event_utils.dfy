/**
 * The search and view filter of src/utils/eventUtils.ts that decides which
 * events the calendar and the event list show.
 */
module EventUtils {
  import opened Types
  import opened Calendar
  import opened DateUtils

  /** `toLowerCase` on one character: the Latin capitals A-Z become small letters. */
  function LowerChar(c: char): (l: char)
    ensures !('A' <= l <= 'Z')
    ensures !('A' <= c <= 'Z') ==> l == c
    ensures 'A' <= c <= 'Z' ==> l as int == c as int + 32
  {
    if 'A' <= c <= 'Z' then (c as int + 32) as char else c
  }

  /** `s.toLowerCase()`, character by character. */
  function Lower(s: string): (r: string)
    ensures |r| == |s| && forall i :: 0 <= i < |s| ==> r[i] == LowerChar(s[i])
  {
    if |s| == 0 then "" else [LowerChar(s[0])] + Lower(s[1..])
  }

  /** Lowering twice is lowering once. */
  lemma LowerIdempotent(s: string)
    ensures Lower(Lower(s)) == Lower(s)
  {
    assert forall i :: 0 <= i < |s| ==> LowerChar(LowerChar(s[i])) == LowerChar(s[i]);
  }

  /** `t` occurs in `s` starting at position `i`. */
  predicate OccursAt(s: string, t: string, i: int) {
    0 <= i <= |s| - |t| && s[i..i + |t|] == t
  }

  /** `t` occurs somewhere in `s`. */
  ghost predicate Occurs(s: string, t: string) {
    exists i :: OccursAt(s, t, i)
  }

  /** `s.includes(t)`: tries position 0, then the rest of `s`. */
  function Includes(s: string, t: string): (b: bool)
    ensures b <==> Occurs(s, t)
    decreases |s|
  {
    if |t| <= |s| && s[..|t|] == t then
      assert OccursAt(s, t, 0);
      true
    else if |s| == 0 then
      false
    else
      OccurrencesAfterFirst(s, t);
      Includes(s[1..], t)
  }

  /** Away from position 0, the occurrences in `s` are those in `s[1..]`, one place on. */
  lemma OccurrencesAfterFirst(s: string, t: string)
    requires |s| > 0 && !OccursAt(s, t, 0)
    ensures Occurs(s, t) <==> Occurs(s[1..], t)
  {
    if i :| OccursAt(s, t, i) {
      assert s[1..][i - 1..i - 1 + |t|] == s[i..i + |t|];
      assert OccursAt(s[1..], t, i - 1);
    }
    if i :| OccursAt(s[1..], t, i) {
      assert s[1..][i..i + |t|] == s[i + 1..i + 1 + |t|];
      assert OccursAt(s, t, i + 1);
    }
  }

  /** `containsTerm(target, term)`: the lowered term occurs in the lowered target. */
  function ContainsTerm(target: string, term: string): (b: bool)
    ensures b <==> Occurs(Lower(target), Lower(term))
  {
    Includes(Lower(target), Lower(term))
  }

  /**
   * The match ignores case on either side, and the empty term is found in
   * every target.
   */
  lemma ContainsTermIgnoresCase(target: string, term: string)
    ensures ContainsTerm(target, term) == ContainsTerm(Lower(target), term)
    ensures ContainsTerm(target, term) == ContainsTerm(target, Lower(term))
    ensures ContainsTerm(target, "")
  {
    LowerIdempotent(target);
    LowerIdempotent(term);
    assert OccursAt(Lower(target), Lower(""), 0);
  }

  /** `a` is `b` with some elements left out, the rest kept in their order. */
  predicate IsSubsequence<T(==)>(a: seq<T>, b: seq<T>)
    decreases |b|
  {
    |a| == 0
    || (|b| > 0 && ((a[0] == b[0] && IsSubsequence(a[1..], b[1..])) || IsSubsequence(a, b[1..])))
  }

  /** `s.filter(p)`. */
  function Filter<T(!new)>(s: seq<T>, p: T -> bool): (r: seq<T>)
    ensures |r| <= |s|
    ensures forall x :: x in r <==> x in s && p(x)
  {
    if |s| == 0 then []
    else (if p(s[0]) then [s[0]] else []) + Filter(s[1..], p)
  }

  /** What a filter keeps is a subsequence of its input. */
  lemma {:induction false} FilterIsSubsequence<T(!new)>(s: seq<T>, p: T -> bool)
    ensures IsSubsequence(Filter(s, p), s)
  {
    if |s| > 0 {
      FilterIsSubsequence(s[1..], p);
      var r := Filter(s, p);
      if p(s[0]) {
        assert r[0] == s[0] && r[1..] == Filter(s[1..], p);
      } else {
        assert r == Filter(s[1..], p);
      }
    }
  }

  /** Filtering a concatenation filters each part in turn. */
  lemma {:induction false} FilterAppend<T(!new)>(a: seq<T>, b: seq<T>, p: T -> bool)
    ensures Filter(a + b, p) == Filter(a, p) + Filter(b, p)
  {
    if |a| > 0 {
      var head := if p(a[0]) then [a[0]] else [];
      FilterAppend(a[1..], b, p);
      assert (a + b)[0] == a[0] && (a + b)[1..] == a[1..] + b;
      calc {
        Filter(a + b, p);
        head + Filter(a[1..] + b, p);
        head + (Filter(a[1..], p) + Filter(b, p));
        (head + Filter(a[1..], p)) + Filter(b, p);
      }
    } else {
      assert a + b == b;
    }
  }

  /** Both callbacks hold. */
  function Both<T>(p: T -> bool, q: T -> bool): T -> bool {
    x => p(x) && q(x)
  }

  /** Two filters in a row are one filter by both callbacks. */
  lemma {:induction false} FilterFilter<T(!new)>(s: seq<T>, p: T -> bool, q: T -> bool)
    ensures Filter(Filter(s, p), q) == Filter(s, Both(p, q))
  {
    if |s| > 0 {
      var head := if p(s[0]) then [s[0]] else [];
      FilterFilter(s[1..], p, q);
      FilterAppend(head, Filter(s[1..], p), q);
    }
  }

  /** Callbacks that agree on every element filter alike. */
  lemma {:induction false} FilterAgrees<T(!new)>(s: seq<T>, p: T -> bool, q: T -> bool)
    requires forall x :: x in s ==> p(x) == q(x)
    ensures Filter(s, p) == Filter(s, q)
  {
    if |s| > 0 {
      FilterAgrees(s[1..], p, q);
    }
  }

  /** A filter that every element passes changes nothing. */
  lemma {:induction false} FilterKeepsAll<T(!new)>(s: seq<T>, p: T -> bool)
    requires forall x :: x in s ==> p(x)
    ensures Filter(s, p) == s
  {
    if |s| > 0 {
      FilterKeepsAll(s[1..], p);
    }
  }

  /** The fields `searchEvents` looks in. */
  predicate MatchesTerm(e: Event, term: string) {
    ContainsTerm(e.title, term) || ContainsTerm(e.description, term) || ContainsTerm(e.location, term)
  }

  /** The callback `searchEvents` hands to `filter`. */
  function Matching(term: string): Event -> bool {
    e => MatchesTerm(e, term)
  }

  /** `searchEvents(events, term)`. */
  function SearchEvents(events: seq<Event>, term: string): (r: seq<Event>)
    ensures forall e :: e in r <==> e in events && MatchesTerm(e, term)
  {
    Filter(events, Matching(term))
  }

  /** The search keeps the order of the events, and an empty term keeps them all. */
  lemma SearchEventsKeepsOrder(events: seq<Event>, term: string)
    ensures IsSubsequence(SearchEvents(events, term), events)
    ensures term == "" ==> SearchEvents(events, term) == events
  {
    FilterIsSubsequence(events, Matching(term));
    if term == "" {
      forall e | e in events
        ensures Matching(term)(e)
      {
        ContainsTermIgnoresCase(e.title, term);
      }
      FilterKeepsAll(events, Matching(term));
    }
  }

  /** `isDateInRange(date, start, end)`: inclusive at both ends, so empty when start is after end. */
  predicate IsDateInRange(date: CalDate, start: CalDate, end: CalDate) {
    DayNumber(start) <= DayNumber(date) <= DayNumber(end)
  }

  /** An event whose date lies in the range; a date that does not read as one never does. */
  predicate DatedWithin(e: Event, start: CalDate, end: CalDate) {
    var d := ParseDate(e.date);
    d.Some? && IsDateInRange(d.value, start, end)
  }

  /** The callback `filterEventsByDateRange` hands to `filter`. */
  function Within(start: CalDate, end: CalDate): Event -> bool {
    e => DatedWithin(e, start, end)
  }

  /** `filterEventsByDateRange(events, start, end)`. */
  function FilterEventsByDateRange(events: seq<Event>, start: CalDate, end: CalDate): (r: seq<Event>)
    ensures forall e :: e in r <==> e in events && DatedWithin(e, start, end)
  {
    Filter(events, Within(start, end))
  }

  /** `getWeekDates(date)`: the Sunday-to-Saturday week that holds `date`. */
  function GetWeekDates(date: CalDate): (week: seq<CalDate>)
    ensures |week| == 7
    ensures DayNumber(week[0]) == DayNumber(date) - Weekday(date)
    ensures forall k :: 0 <= k < 7 ==> Weekday(week[k]) == k && DayNumber(week[k]) == DayNumber(week[0]) + k
  {
    hide *;
    SundayOf(date);
    WeekFrom(AddDays(date, -Weekday(date)))
  }

  /** Going back as many days as the weekday number lands on a Sunday. */
  lemma SundayOf(date: CalDate)
    ensures Weekday(AddDays(date, -Weekday(date))) == 0
  {
    hide *;
  }

  /** The seven days from a Sunday on. */
  function WeekFrom(sunday: CalDate): (week: seq<CalDate>)
    requires Weekday(sunday) == 0
    ensures |week| == 7
    ensures forall k :: 0 <= k < 7 ==> Weekday(week[k]) == k && DayNumber(week[k]) == DayNumber(sunday) + k
  {
    hide *;
    WeekFromSunday(sunday);
    seq(7, (k: int) => AddDays(sunday, k))
  }

  /** The k-th day after a Sunday falls on weekday k. */
  lemma WeekFromSunday(sunday: CalDate)
    requires Weekday(sunday) == 0
    ensures forall k :: 0 <= k < 7 ==> Weekday(AddDays(sunday, k)) == k
  {
    hide *;
    forall k | 0 <= k < 7
      ensures Weekday(AddDays(sunday, k)) == k
    {
      assert Weekday(AddDays(sunday, k)) == k % 7;
    }
  }

  /** An event dated in the week, Sunday to Saturday, that holds `date`. */
  predicate InWeekOf(e: Event, date: CalDate) {
    var d := ParseDate(e.date);
    var sunday := DayNumber(date) - Weekday(date);
    d.Some? && sunday <= DayNumber(d.value) <= sunday + 6
  }

  /** `filterEventsByDateRangeAtWeek(events, currentDate)`. */
  function FilterEventsByDateRangeAtWeek(events: seq<Event>, currentDate: CalDate): (r: seq<Event>)
    ensures forall e :: e in r <==> e in events && InWeekOf(e, currentDate)
  {
    var weekDates := GetWeekDates(currentDate);
    FilterEventsByDateRange(events, weekDates[0], weekDates[6])
  }

  /** An event dated in the same month of the same year as `date`. */
  predicate InMonthOf(e: Event, date: CalDate) {
    var d := ParseDate(e.date);
    d.Some? && d.value.year == date.year && d.value.month == date.month
  }

  /** The two ends of `filterEventsByDateRangeAtMonth`'s range: the 1st and the last day of the month. */
  function MonthRange(date: CalDate): (range: (CalDate, CalDate))
    ensures MonthIndex(range.0) == MonthIndex(date) && range.0.day == 1
    ensures MonthIndex(range.1) == MonthIndex(date) && range.1.day == MonthLength(MonthIndex(date))
  {
    hide MonthStart;
    MonthIndexOf(date.year, date.month);
    (CreateUTCDate(date.year, date.month, 1), CreateUTCDate(date.year, date.month + 1, 0))
  }

  /** The first and last day of a month bound exactly the dates of that month. */
  lemma MonthBounds(d: CalDate, date: CalDate)
    ensures IsDateInRange(d, MonthRange(date).0, MonthRange(date).1)
            <==> d.year == date.year && d.month == date.month
  {
    hide MonthStart;
    var (first, last) := MonthRange(date);
    var mi := MonthIndex(date);
    DayNumberInMonth(d);
    DayNumberInMonth(first);
    DayNumberInMonth(last);
    if MonthIndex(d) < mi {
      MonthOrder(d, first);
    } else if MonthIndex(d) > mi {
      MonthOrder(last, d);
    } else {
      MonthIndexParts(d, date.year, date.month);
    }
  }

  /** The month view's range holds exactly the events of that month. */
  lemma MonthViewIsMonth(date: CalDate)
    ensures forall e :: DatedWithin(e, MonthRange(date).0, MonthRange(date).1) <==> InMonthOf(e, date)
  {
    forall e
      ensures DatedWithin(e, MonthRange(date).0, MonthRange(date).1) <==> InMonthOf(e, date)
    {
      if ParseDate(e.date).Some? {
        MonthBounds(ParseDate(e.date).value, date);
      }
    }
  }

  /**
   * `filterEventsByDateRangeAtMonth(events, currentDate)`: from the 1st to
   * the last day of the month (its 23:59:59 end takes in that whole day).
   */
  function FilterEventsByDateRangeAtMonth(events: seq<Event>, currentDate: CalDate): (r: seq<Event>)
    ensures forall e :: e in r <==> e in events && InMonthOf(e, currentDate)
  {
    var range := MonthRange(currentDate);
    MonthViewIsMonth(currentDate);
    FilterEventsByDateRange(events, range.0, range.1)
  }

  /** The two calendar views. */
  datatype View = Week | Month

  /** An event the given view of `date` shows. */
  predicate InView(e: Event, date: CalDate, view: View) {
    match view
    case Week => InWeekOf(e, date)
    case Month => InMonthOf(e, date)
  }

  /** `getFilteredEvents(events, searchTerm, currentDate, view)`: search first, then the view's dates. */
  function GetFilteredEvents(events: seq<Event>, searchTerm: string, currentDate: CalDate, view: View): (r: seq<Event>)
    ensures forall e :: e in r <==> e in events && MatchesTerm(e, searchTerm) && InView(e, currentDate, view)
  {
    var searchedEvents := SearchEvents(events, searchTerm);
    match view
    case Week => FilterEventsByDateRangeAtWeek(searchedEvents, currentDate)
    case Month => FilterEventsByDateRangeAtMonth(searchedEvents, currentDate)
  }

  /** The callback of the one filter the view amounts to. */
  function Shown(searchTerm: string, currentDate: CalDate, view: View): Event -> bool {
    e => MatchesTerm(e, searchTerm) && InView(e, currentDate, view)
  }

  /**
   * The view is one filter over the input, "matches the term and lies in
   * the view", so it keeps the input's order and is a subsequence of it.
   */
  lemma GetFilteredEventsIsOneFilter(events: seq<Event>, searchTerm: string, currentDate: CalDate, view: View)
    ensures GetFilteredEvents(events, searchTerm, currentDate, view) == Filter(events, Shown(searchTerm, currentDate, view))
    ensures IsSubsequence(GetFilteredEvents(events, searchTerm, currentDate, view), events)
  {
    hide ParseDate, MonthStart, DayNumber, Weekday, Filter, MatchesTerm;
    var week := GetWeekDates(currentDate);
    var range := MonthRange(currentDate);
    var within := if view == Week then Within(week[0], week[6]) else Within(range.0, range.1);
    FilterFilter(events, Matching(searchTerm), within);
    MonthViewIsMonth(currentDate);
    FilterAgrees(events, Both(Matching(searchTerm), within), Shown(searchTerm, currentDate, view));
    FilterIsSubsequence(events, Shown(searchTerm, currentDate, view));
  }

  /** An empty search term leaves only the view's own filter. */
  lemma GetFilteredEventsEmptyTerm(events: seq<Event>, currentDate: CalDate, view: View)
    ensures forall e :: e in GetFilteredEvents(events, "", currentDate, view) <==> e in events && InView(e, currentDate, view)
  {
    forall e | e in events
      ensures MatchesTerm(e, "")
    {
      ContainsTermIgnoresCase(e.title, "");
    }
  }
}
