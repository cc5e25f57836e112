# Recurring events, search filter and time check of the calendar app

This project models three pieces of the calendar application's utility layer:

- **The recurring-event expander.** `generateRepeatEvents` in `src/utils/repeatUtils.ts` takes a base event, a repeat type, an interval, an inclusive end date, an optional pattern and an optional count. It returns the concrete occurrences. The model also covers its helpers:
  - `findNextValidDate`;
  - `createEventWithRepeat`;
  - the `DateUtils` date helpers.
- **The search-and-view filter.** `getFilteredEvents` and its helpers live in `src/utils/eventUtils.ts`. The filter first keeps events whose title, description or location contains the search term, ignoring case. It then keeps those dated in the week or month on show.
- **The start/end time check.** `getTimeErrorMessage` in `src/utils/timeValidation.ts` is the check the event form runs on a start and end time.

Modules:

- `Types` (types.dfy) holds the records of `src/types.ts`.
- `Calendar` (calendar.dfy) holds the proleptic Gregorian calendar. Dates are naive `(year, month 0-11, day)` values. Each date has a day number, and its weekday is taken from that number, with 0 meaning Sunday. `Roll` is the normalising constructor that `Date.UTC` applies: day 0 means the last day of the previous month, and a day past the month's end rolls forward. `NthWeekdayIn` gives the n-th occurrence of a weekday in a month.
- `Text` (text.dfy) holds the decimal formatting, two-digit padding and `split('-')` used by the date strings.
- `DateUtils` (date_utils.dfy) holds the `DateUtils` object of repeatUtils.ts. It adds the date setters (`setDate`, `setMonth`, `setFullYear`) and the reading of a `YYYY-MM-DD` string.
- `RepeatRules` (repeat_rules.dfy) describes, as functions, what one pass of the expander's `while` loop emits and where it leaves the cursor, per type and pattern. `RunFrom` strings passes together up to the end date. The invariant the loop keeps, and the shape every emitted date has, are proved pass by pass.
- `RepeatEvents` (repeat_events.dfy) is the imperative expander:
  - one method per branch of the loop body, each proved equal to the pass function;
  - `FindNextValidDate` with its year loop;
  - `GenerateRepeatEvents` with the cursor loop, proved to build the events of `RunFrom` and then apply the count.
- `RepeatProperties` (repeat_properties.dfy) holds what the generated list looks like as a whole:
  - the even spacing of daily and weekly dates;
  - the exact set of yearly `exact` dates, with Feb 29 as the leap-year case;
  - the yearly `nthWeekday` stop;
  - the fallback branch that never advances;
  - every event being a copy of the base event.
- `EventUtils` (event_utils.dfy) holds the search and the week and month filters.
- `TimeValidation` (time_validation.dfy) holds the time check.

## Model

| member | source | states |
|---|---|---|
| Calendar.DaysInMonth | src/utils/repeatUtils.ts:48 | a month has 28 to 31 days, and 29 exactly for February of a leap year |
| Calendar.Roll | src/utils/repeatUtils.ts:331-333 | `Date.UTC(y, m, d)` lands `d - 1` days after the first of month `12y + m`, whatever `d` is |
| Calendar.RollInMonth | src/utils/repeatUtils.ts:331-333 | a day that exists in the month is kept as it is |
| Calendar.RollIntoNext | src/utils/repeatUtils.ts:118-119 | a day past the month's end (up to 28 more) spills into the next month at day minus month length |
| Calendar.RollDayZero | src/utils/repeatUtils.ts:354 | day 0 is the last day of the previous month |
| Calendar.DayNumberInjective | src/utils/repeatUtils.ts:25 | two dates with the same day number are the same date, so comparing dates by day number is comparing them |
| Calendar.MonthOrder | src/utils/repeatUtils.ts:25 | a date of an earlier month comes before any date of a later month |
| Calendar.WeekdayShift | src/utils/repeatUtils.ts:98 | the weekday moves forward by the difference in day numbers, modulo 7 |
| Calendar.WeekdayInMonth | src/utils/repeatUtils.ts:98 | within a month, moving `delta` days moves the weekday by `delta` modulo 7 |
| Calendar.FirstWeekdayDay | src/utils/repeatUtils.ts:98-103 | the first occurrence of a weekday in a month falls on day 1 to 7 and has that weekday |
| Calendar.FirstWeekdayOffset | src/utils/repeatUtils.ts:98 | `(w - firstDay.getDay() + 7) % 7` days after the 1st is the weekday `w` |
| Calendar.NthWeekdayIn | src/utils/repeatUtils.ts:105-111 | a date it returns lies in the month, has the weekday, and is in week `ceil(day / 7)` of the month |
| Calendar.NthWeekdayInExact | src/utils/repeatUtils.ts:93-112 | a date of the month is the n-th occurrence of weekday `w` iff `NthWeekdayIn` returns it |
| Calendar.NthOccurrence | src/utils/repeatUtils.ts:105-109 | the first occurrence plus `7(n-1)` days, inside the month, has the weekday and is in week n |
| Calendar.WeeksFromFirst | src/utils/repeatUtils.ts:108 | a day with the same weekday as the first occurrence, in week n, is `7(n-1)` days after it |
| DateUtils.CreateUTCDate | src/utils/repeatUtils.ts:331-333 | the created date's day number is the first of month `12 * year + month` plus `day - 1` |
| DateUtils.CreateUTCDateExisting | src/utils/repeatUtils.ts:331-333 | an existing year, month and day come back unchanged |
| DateUtils.CreateUTCDateDayZero | src/utils/repeatUtils.ts:63 | `createUTCDate(y, m + 1, 0)` is the last day of month `m` of `y` |
| DateUtils.CreateUTCDateSpill | src/utils/repeatUtils.ts:118-119 | a day up to 28 past the month's end lands in the next month |
| DateUtils.AddDays | src/utils/repeatUtils.ts:28 | adding `n` days adds `n` to the day number and moves the weekday by `n` modulo 7 |
| DateUtils.FindFirstAndLastDay | src/utils/repeatUtils.ts:352-356 | the pair is day 1 and the last day of the month |
| DateUtils.FindLastWeekday | src/utils/repeatUtils.ts:358-366 | the result lies in the date's month, has the target weekday, and is the last such day, since a week later leaves the month |
| DateUtils.FindLastWeekdayInline | src/utils/repeatUtils.ts:199-211 | the inlined computation of the yearly `lastWeekday` branch equals `findLastWeekday` |
| DateUtils.LastWeekdayFacts | src/utils/repeatUtils.ts:360-365 | stepping back `(lastDay.getDay() - w + 7) % 7` days from the last day stays in the month and lands on weekday `w` |
| DateUtils.InitializeDate | src/utils/repeatUtils.ts:326-329 | rebuilding the parsed date through `createUTCDate` yields the parsed date itself |
| DateUtils.FormatParseRoundTrip | src/utils/repeatUtils.ts:335-340 | a formatted date of a year from 0 on parses back to the same date |
| DateUtils.FormattedDateValid | src/utils/repeatUtils.ts:342-350 | `isValidDateFormat(generateFormattedDate(d))` holds exactly when the year is 0 or later |
| DateUtils.SplitThree | src/utils/repeatUtils.ts:343 | three digit strings joined by dashes split back into those three strings |
| Text.NatToStringRoundTrip | src/utils/repeatUtils.ts:337-338 | reading the decimal digits of `String(n)` gives back `n` |
| Text.PadStart2RoundTrip | src/utils/repeatUtils.ts:337-338 | `padStart(2, '0')` of a number below 100 is two digits that read back as that number |
| Text.NatToString | src/utils/repeatUtils.ts:337 | the decimal form is non-empty and all digits, and a single digit exactly below 10 |
| Text.PadStart2 | src/utils/repeatUtils.ts:337-338 | a string of two or more characters is kept as it is; a shorter one gets `'0'`s on the left up to two characters |
| Text.Split | src/utils/repeatUtils.ts:343 | splitting yields at least one piece |
| Text.SplitNoSeparator | src/utils/repeatUtils.ts:343 | a string without the separator splits into itself alone |
| Text.SplitAfterPiece | src/utils/repeatUtils.ts:343 | a separator-free piece followed by the separator is split off as the first piece |
| RepeatRules.Stop | src/utils/repeatUtils.ts:170 | the give-up cursor is one day past the end date, so the loop ends |
| RepeatRules.BaseWeek | src/utils/repeatUtils.ts:95 | `ceil(baseDay / 7)` lies between 1 and 5 |
| RepeatRules.StridesIsMultiple | src/utils/repeatUtils.ts:292 | the years the loop visits are those a non-negative multiple of the interval after the first |
| RepeatRules.StridesTrans | src/utils/repeatUtils.ts:292 | a stride of a stride is a stride from the first year |
| RepeatRules.FirstValidYear | src/utils/repeatUtils.ts:287-305 | the result has the month and day and a stepped year up to the last; every stepped year before it, or every one when `None`, lacks that day |
| RepeatRules.BaseInvariant | src/utils/repeatUtils.ts:15-17 | the loop invariant holds at the base date |
| RepeatRules.LastWeekdayNotBefore | src/utils/repeatUtils.ts:80-83 | from a cursor on day 1 or on the target weekday, the month's last such weekday is not earlier |
| RepeatRules.DailyFits | src/utils/repeatUtils.ts:26-28 | a daily pass emits the cursor and moves forward, keeping the invariant |
| RepeatRules.WeeklyFits | src/utils/repeatUtils.ts:29-31 | a weekly pass emits a date with the base weekday and moves forward keeping it |
| RepeatRules.MonthlyExactFits | src/utils/repeatUtils.ts:37-58 | a monthly `exact` pass emits increasing dates, not past the end, each on the base day or its roll-over, and moves the cursor forward |
| RepeatRules.MonthlyLastDayFits | src/utils/repeatUtils.ts:59-77 | a monthly `lastDay` pass emits only last days of months and moves forward |
| RepeatRules.MonthlyLastWeekdayFits | src/utils/repeatUtils.ts:78-92 | a monthly `lastWeekday` pass emits only the last base weekday of a month, not past the end, and moves forward |
| RepeatRules.MonthlyNthWeekdayFits | src/utils/repeatUtils.ts:93-142 | a monthly `nthWeekday` pass emits only the n-th base weekday of a month and moves forward to such a day or a month without one |
| RepeatRules.YearlyFoundFits | src/utils/repeatUtils.ts:167-174 | a year found by `findNextValidDate` is later and still a stride from the base year |
| RepeatRules.YearlyExactFits | src/utils/repeatUtils.ts:159-176 | a yearly `exact` pass emits the base month and day in a stepped year and moves forward |
| RepeatRules.YearlyLastDayFits | src/utils/repeatUtils.ts:177-198 | a yearly `lastDay` pass emits the base month's last day in a stepped year, not past the end |
| RepeatRules.YearlyLastWeekdayFits | src/utils/repeatUtils.ts:199-231 | a yearly `lastWeekday` pass emits the base month's last base weekday in a stepped year |
| RepeatRules.YearlyNthWeekdayFits | src/utils/repeatUtils.ts:232-264 | a yearly `nthWeekday` pass emits only the n-th base weekday of the base month and moves to the next stepped year's, or stops |
| RepeatRules.StepFits | src/utils/repeatUtils.ts:25-277 | under the callers' precondition every pass moves the cursor strictly forward, keeps the invariant, and emits increasing dates of the rule's shape between the old and new cursor and not past the end |
| RepeatRules.RunFrom | src/utils/repeatUtils.ts:25-278 | the dates the loop emits from a cursor increase strictly, lie between the cursor and the end date, and have the rule's shape |
| RepeatRules.RunFromStep | src/utils/repeatUtils.ts:25-278 | past the end nothing is emitted; otherwise the run is this pass's dates followed by the run from the next cursor |
| RepeatEvents.FindNextValidDate | src/utils/repeatUtils.ts:287-305 | the loop over years returns the first stepped year, up to the target year, in which the month has the day, else `None` |
| RepeatEvents.CreateUTCDateExact | src/utils/repeatUtils.ts:295-299 | `createUTCDate(y, m, d)` reads back as `y, m, d` exactly when month `m` of `y` has day `d` |
| RepeatEvents.CreateEventWithRepeat | src/utils/repeatUtils.ts:307-323 | the event is the base event apart from date and repeat; repeat is exactly `{type, interval, endDate}`; the date is the `YYYY-MM-DD` string of `generateFormattedDate`, which reads back as the date for years from 0 on |
| RepeatEvents.MonthlyExactStep | src/utils/repeatUtils.ts:37-58 | the `exact` branch emits and moves exactly as `MonthlyPass` says |
| RepeatEvents.MonthlyLastDayStep | src/utils/repeatUtils.ts:59-77 | the `lastDay` branch emits and moves exactly as `MonthlyPass` says |
| RepeatEvents.MonthlyLastWeekdayStep | src/utils/repeatUtils.ts:78-92 | the `lastWeekday` branch emits and moves exactly as `MonthlyPass` says |
| RepeatEvents.MonthlyNthWeekdayStep | src/utils/repeatUtils.ts:93-142 | the `nthWeekday` branch emits and moves exactly as `MonthlyPass` says |
| RepeatEvents.NthWeekdayCursor | src/utils/repeatUtils.ts:118-140 | the double look-ahead of the monthly `nthWeekday` branch lands on the n-th weekday two intervals on (one month later still if the first move spilled), or on the 1st of that month when it has none |
| RepeatEvents.MonthAheadFirst | src/utils/repeatUtils.ts:118-119 | `setMonth(+k)` then `setDate(1)` lands on the 1st of month +k, or of month +k+1 when the day does not exist there |
| RepeatEvents.WeekByWeek | src/utils/repeatUtils.ts:128-135 | the first target weekday plus `(n-1)` weeks stays in the month exactly when the n-th occurrence exists, and is it |
| RepeatEvents.NthWeekdayRoll | src/utils/repeatUtils.ts:105-111 | the target date stays in the month exactly when the n-th occurrence exists, otherwise it lands in the next month |
| RepeatEvents.SameMonthField | src/utils/repeatUtils.ts:111 | for dates at most one month apart, comparing `getMonth()` is comparing months |
| RepeatEvents.MonthlyStep | src/utils/repeatUtils.ts:36-153 | the monthly `switch` does what `MonthlyPass` says for every pattern |
| RepeatEvents.YearlyExactStep | src/utils/repeatUtils.ts:159-176 | the yearly `exact` branch emits and moves exactly as `YearlyPass` says |
| RepeatEvents.YearlyLastDayStep | src/utils/repeatUtils.ts:177-198 | the yearly `lastDay` branch emits and moves exactly as `YearlyPass` says |
| RepeatEvents.YearlyLastWeekdayStep | src/utils/repeatUtils.ts:199-231 | the yearly `lastWeekday` branch emits and moves exactly as `YearlyPass` says |
| RepeatEvents.YearOnSameMonth | src/utils/repeatUtils.ts:245-251 | `setFullYear` then `setMonth` back to the month lands in that month of the new year |
| RepeatEvents.YearlyNthWeekdayStep | src/utils/repeatUtils.ts:232-264 | the yearly `nthWeekday` branch emits and moves exactly as `YearlyPass` says |
| RepeatEvents.YearNthWeekdayCursor | src/utils/repeatUtils.ts:244-262 | the next cursor is the n-th base weekday of the base month `interval` years on, or the stop cursor when there is none |
| RepeatEvents.NthFromFirst | src/utils/repeatUtils.ts:254-255 | `setDate(1 + offset + 7(n-1))` from the 1st is the n-th occurrence when it exists, and leaves the month otherwise |
| RepeatEvents.YearlyStep | src/utils/repeatUtils.ts:158-273 | the yearly `switch` does what `YearlyPass` says for every pattern |
| RepeatEvents.Advance | src/utils/repeatUtils.ts:26-277 | one pass of the loop body does what `Step` says |
| RepeatEvents.EventsOn | src/utils/repeatUtils.ts:19-23 | one event per date, in order, each made by `createEventWithRepeat` |
| RepeatEvents.EventsOnAppend | src/utils/repeatUtils.ts:19-23 | pushing two batches of dates is pushing their concatenation |
| RepeatEvents.LoopTurn | src/utils/repeatUtils.ts:25-278 | a turn moves the cursor forward, keeps the invariant, and keeps the built list a prefix of the final one |
| RepeatEvents.Occurrences | src/utils/repeatUtils.ts:25-278 | the emitted dates increase strictly, lie between the base date and the end date, and have the rule's shape |
| RepeatEvents.ApplyEndCount | src/utils/repeatUtils.ts:280-284 | an absent or zero count keeps the list; a positive count keeps the first `min(count, n)` events; a negative one drops that many from the back; the result is always a prefix |
| RepeatEvents.GenerateRepeatEvents | src/utils/repeatUtils.ts:12-285 | the cursor loop builds exactly the events of the emitted dates, then applies the count |
| RepeatProperties.EvenSteps | src/utils/repeatUtils.ts:25-31 | from a cursor, daily and weekly dates are spaced exactly `interval` or `7 * interval` days apart, and the next one would pass the end |
| RepeatProperties.DailyWeeklyDates | src/utils/repeatUtils.ts:25-31 | daily and weekly expansions start at the base date, step by exactly `interval` or `7 * interval` days, and the last date is within one step of the end date |
| RepeatProperties.YearlyExactReaches | src/utils/repeatUtils.ts:159-176 | every stepped year whose base month has the base day, up to the end, is emitted |
| RepeatProperties.YearlyExactDates | src/utils/repeatUtils.ts:159-176 | a date is a yearly `exact` occurrence iff it has the base month and day, a stepped year, and is not after the end date |
| RepeatProperties.LeapDayYears | src/utils/repeatUtils.ts:287-305 | a Feb 29 base yields Feb 29 of leap years only, and every stepped leap year up to the end |
| RepeatProperties.YearlyNthWeekdayStops | src/utils/repeatUtils.ts:254-260 | when the next stepped year lacks the n-th weekday, generation stops after the current pass |
| RepeatProperties.FallbackNeverAdvances | src/utils/repeatUtils.ts:275-277 | outside the handled combinations a pass emits the cursor and leaves it where it is, however many passes run |
| RepeatProperties.MonthlyExactZeroInterval | src/utils/repeatUtils.ts:37-58 | with interval 0, a monthly `exact` pass on the base day pushes the cursor twice and still moves it forward, so the source ends with doubled dates; such a rule is outside the handled inputs |
| RepeatProperties.ExpansionKeepsEvent | src/utils/repeatUtils.ts:307-323 | every generated event equals the base event except date and repeat, and repeat is `{type, interval, endDate}` without pattern or repeatEnd |
| EventUtils.LowerChar | src/utils/eventUtils.ts:12 | the result is not an upper-case letter; upper-case letters move to lower case, everything else stays |
| EventUtils.Lower | src/utils/eventUtils.ts:12 | lowering keeps the length and lowers each character |
| EventUtils.LowerIdempotent | src/utils/eventUtils.ts:12 | lowering twice is lowering once |
| EventUtils.Includes | src/utils/eventUtils.ts:12 | `includes` holds iff the term occurs at some position |
| EventUtils.OccurrencesAfterFirst | src/utils/eventUtils.ts:12 | when the term is not at position 0 it occurs iff it occurs in the rest |
| EventUtils.ContainsTerm | src/utils/eventUtils.ts:11-13 | holds iff the lowered term occurs in the lowered target |
| EventUtils.ContainsTermIgnoresCase | src/utils/eventUtils.ts:11-13 | lowering either argument first changes nothing, and the empty term is always contained |
| EventUtils.Filter | src/utils/eventUtils.ts:5-8 | `filter` keeps exactly the elements satisfying the callback |
| EventUtils.FilterIsSubsequence | src/utils/eventUtils.ts:16-19 | a filter keeps its input's order |
| EventUtils.FilterAppend | src/utils/eventUtils.ts:16-19 | filtering a concatenation filters each part |
| EventUtils.FilterFilter | src/utils/eventUtils.ts:39-47 | filtering twice is filtering once by both callbacks |
| EventUtils.FilterAgrees | src/utils/eventUtils.ts:16-19 | callbacks that agree on the input filter it alike |
| EventUtils.FilterKeepsAll | src/utils/eventUtils.ts:16-19 | a callback true on every element keeps the whole list |
| EventUtils.SearchEvents | src/utils/eventUtils.ts:15-20 | keeps exactly the events whose title, description or location contains the term |
| EventUtils.SearchEventsKeepsOrder | src/utils/eventUtils.ts:15-20 | the search keeps input order, and an empty term keeps every event |
| EventUtils.FilterEventsByDateRange | src/utils/eventUtils.ts:4-9 | keeps exactly the events whose date lies in the inclusive range |
| EventUtils.GetWeekDates | src/__tests__/unit/easy.dateUtils.spec.ts:36-123 | seven consecutive days from the Sunday on or before the date, day k on weekday k |
| EventUtils.SundayOf | src/__tests__/unit/easy.dateUtils.spec.ts:36-123 | going back as many days as the weekday number lands on a Sunday |
| EventUtils.WeekFrom | src/__tests__/unit/easy.dateUtils.spec.ts:36-123 | the seven days from a Sunday, day k on weekday k |
| EventUtils.WeekFromSunday | src/__tests__/unit/easy.dateUtils.spec.ts:36-123 | the k-th day after a Sunday falls on weekday k |
| EventUtils.FilterEventsByDateRangeAtWeek | src/utils/eventUtils.ts:22-25 | keeps exactly the events dated from the Sunday to the Saturday of the current week, across month ends |
| EventUtils.MonthRange | src/utils/eventUtils.ts:28-29 | the range runs from day 1 to the last day of the current month |
| EventUtils.MonthBounds | src/utils/eventUtils.ts:27-31 | a date lies in that range iff it has the current year and month |
| EventUtils.MonthViewIsMonth | src/utils/eventUtils.ts:27-31 | the month range keeps an event iff it is dated in the current month |
| EventUtils.FilterEventsByDateRangeAtMonth | src/utils/eventUtils.ts:27-31 | keeps exactly the events dated in the current month of the current year |
| EventUtils.GetFilteredEvents | src/utils/eventUtils.ts:33-50 | keeps exactly the events that match the search term and lie in the week or month on show |
| EventUtils.GetFilteredEventsIsOneFilter | src/utils/eventUtils.ts:33-50 | the search-then-view filter is one order-preserving filter, so the result is a subsequence of the input |
| EventUtils.GetFilteredEventsEmptyTerm | src/utils/eventUtils.ts:39-47 | with an empty search term only the view filter applies |
| TimeValidation.StringLessIrreflexive | src/utils/timeValidation.ts:13 | no string is below itself, so equal times are an error |
| TimeValidation.StringLessTotal | src/utils/timeValidation.ts:13 | of two different strings exactly one is below the other |
| TimeValidation.GetTimeErrorMessage | src/utils/timeValidation.ts:6-21 | the two errors are set together; they are set iff both times are non-empty and start is not below end as strings; when set they are the two fixed messages |
| TimeValidation.ClockTimeOrder | src/utils/timeValidation.ts:13 | for zero-padded `HH:MM` strings, string order is chronological order |
| TimeValidation.ClockTimeErrors | src/utils/timeValidation.ts:13-18 | for `HH:MM` times, both errors are set iff the start is not earlier than the end |

## Left out

- Time zones are not modelled, so local and UTC getters are the same. The source builds dates with `Date.UTC` and reads them with local getters. Every date here is a naive calendar day; in a time zone west of UTC the source's getters can read the previous day.
- Timestamps and the time of day are not modelled. The yearly "give up" cursor `eventEndDate.getTime() + 1` (repeatUtils.ts:170) is the day after the end date, which has the same effect on the `<=` loop condition.
- A date string is read as three dash-separated digit fields: a year of one or more digits, then a two-digit month and a two-digit day naming a day that exists. Other strings, including days a month lacks such as `2033-02-29`, read as no date. JavaScript's `Date` parsing of other strings, and of years written with fewer or more than four digits, is engine-dependent; `ParseDate` is the model's reading.
- Years before 0 are formatted with a leading minus, as `String(year)` does. `DateUtils.FormattedDateValid` shows such a date fails `isValidDateFormat`; six-digit extended years are not modelled.
- Calendar.Roll: `Date.UTC` reads a year from 0 to 99 as 1900 to 1999; `Roll` takes the month index as given, so dates built in those years differ from the source's.
- DateUtils.CreateUTCDate: does not model `Date.UTC`'s mapping of years 0 to 99 to 1900 to 1999; every year is taken as written. The date setters, which do not map years, are unaffected.
- DateUtils.InitializeDate: in the source, rebuilding a parsed date of a year 0 to 99 through `Date.UTC` moves it to 1900 to 1999 (`0050-03-01` becomes 1950-03-01); the model keeps the parsed date.
- RepeatEvents.CreateUTCDateExact: in the source the read-back fails for every year 0 to 99, because `Date.UTC` yields a 19xx date; the model's read-back succeeds whenever the day exists.
- RepeatEvents.FindNextValidDate: for years 0 to 99 the source's read-back fails and the year is skipped; the model does not capture this, for the same reason.
- RepeatProperties.YearlyExactDates: requires a base year of 0 or later; earlier base dates fail the format check and are not emitted.
- RepeatProperties.LeapDayYears: requires a base year of 0 or later, for the same reason.
- RepeatEvents.GenerateRepeatEvents: requires that, whenever the loop runs, the interval is at least 1 and the type and pattern reach a branch that moves the cursor. Without a pattern for monthly or yearly, or with no repeat type, the source never terminates (repeatUtils.ts:275-277); `RepeatProperties.FallbackNeverAdvances` states that case. An interval of 0 or below leaves the cursor in place or moves it back in every branch but one, and the source again never ends. The exception is monthly `exact` with interval 0, which the form passes when the interval field is cleared. There the source does end, pushing each base-day date twice. `RepeatProperties.MonthlyExactZeroInterval` states one such pass, but the expansion does not cover this input, because its runs are strictly increasing.
- Rule.interval is an integer. The source takes the interval as a JavaScript number, so a fractional interval such as `1.5` can reach the expander. The source then mixes fractional month arithmetic (`Math.floor(newMonth / 12)`, `newMonth % 12`) with the truncation done by `setDate` and `Date.UTC`. Fractional intervals are not modelled.
- The count is modelled as an optional integer. A non-integer `endCount` and JavaScript truthiness of `NaN` are not modelled.
- The default branches of the monthly and yearly `switch` (repeatUtils.ts:143-152, 266-272) are unreachable: the pattern is one of the four named values. They are not modelled.
- `toLowerCase` is modelled on ASCII letters only. Unicode case mapping is a table lookup the model does not carry.
- String comparison is on Dafny characters, not UTF-16 code units. They agree on the `HH:MM` strings the form produces.
- `getWeekDates` and `isDateInRange` are specified from their unit tests. `src/utils/dateUtils.ts` is not part of this model. The week runs from Sunday to Saturday, and `isDateInRange` is inclusive at both ends.
- The month view's end at 23:59:59 of the last day is the last day: times of day are not modelled.
- The `console.log` in timeValidation.ts:7 is I/O and is not modelled.
- The duplicate legacy expander in eventUtils.ts:52-411 is not modelled; the app and tests use the one in repeatUtils.ts.
- The overlap checker, React components, hooks and HTTP mocks are not modelled: they are UI, state plumbing and network I/O.
- Mutation of the `Date` cursor object through its setters is modelled as reassigning an immutable date value. No other reference to the cursor exists, so there is no aliasing to capture.
