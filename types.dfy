/**
 * The records the calendar application passes around (src/types.ts).
 */
module Types {

  /** An optional value: an absent field, `undefined` or `null`. */
  datatype Option<+T> = None | Some(value: T)

  /** How an event repeats. */
  datatype RepeatType = NoRepeat | Daily | Weekly | Monthly | Yearly

  /** Which day within a target month or year a monthly or yearly rule picks. */
  datatype RepeatPattern = Exact | NthWeekday | LastWeekday | LastDay

  /** How the form says a repetition ends. */
  datatype RepeatEnd = Never | EndDate | EndCount

  /** The `repeat` field of an event. */
  datatype RepeatInfo = RepeatInfo(
    kind: RepeatType,
    interval: int,
    endDate: Option<string>,
    pattern: Option<RepeatPattern>,
    repeatEnd: Option<RepeatEnd>)

  /**
   * A calendar event. Dates are `YYYY-MM-DD` strings and times `HH:MM`
   * strings, as the application stores them; `notificationTime` is in minutes.
   */
  datatype Event = Event(
    id: Option<string>,
    title: string,
    date: string,
    startTime: string,
    endTime: string,
    description: string,
    location: string,
    category: string,
    repeat: RepeatInfo,
    notificationTime: int)
}
