/**
 * `getTimeErrorMessage` of src/utils/timeValidation.ts: the check the event
 * form runs whenever the start or end time changes.
 */
module TimeValidation {
  import opened Types
  import opened Text

  /** Both error slots of the form; `None` is `null`. */
  datatype TimeValidationResult = TimeValidationResult(
    startTimeError: Option<string>,
    endTimeError: Option<string>)

  const StartTimeMessage: string := "시작 시간은 종료 시간보다 빨라야 합니다."
  const EndTimeMessage: string := "종료 시간은 시작 시간보다 늦어야 합니다."

  /**
   * JavaScript's `a < b` on two strings: the first differing character
   * decides by its code; a proper prefix comes first.
   */
  function StringLess(a: string, b: string): bool
    decreases |a|
  {
    if |b| == 0 then false
    else if |a| == 0 then true
    else if a[0] != b[0] then a[0] < b[0]
    else StringLess(a[1..], b[1..])
  }

  /** No string comes before itself, so equal times fail the check. */
  lemma {:induction false} StringLessIrreflexive(a: string)
    ensures !StringLess(a, a)
    decreases |a|
  {
    if |a| > 0 {
      StringLessIrreflexive(a[1..]);
    }
  }

  /** Of two different strings exactly one comes first. */
  lemma {:induction false} StringLessTotal(a: string, b: string)
    ensures a != b ==> (StringLess(a, b) <==> !StringLess(b, a))
    decreases |a|
  {
    if a != b && |a| > 0 && |b| > 0 && a[0] == b[0] {
      StringLessTotal(a[1..], b[1..]);
      assert a == [a[0]] + a[1..] && b == [b[0]] + b[1..];
    }
  }

  /**
   * `getTimeErrorMessage(start, end)`: no errors while either field is
   * empty; both messages once the start does not come before the end as a
   * string; otherwise no errors. The console logging is left out.
   */
  function GetTimeErrorMessage(start: string, end: string): (r: TimeValidationResult)
    ensures r.startTimeError.Some? <==> r.endTimeError.Some?
    ensures r.startTimeError.Some? <==> start != "" && end != "" && !StringLess(start, end)
    ensures r.startTimeError.Some? ==>
              r.startTimeError.value == StartTimeMessage && r.endTimeError.value == EndTimeMessage
  {
    if start == "" || end == "" then
      TimeValidationResult(None, None)
    else if !StringLess(start, end) then
      TimeValidationResult(Some(StartTimeMessage), Some(EndTimeMessage))
    else
      TimeValidationResult(None, None)
  }

  /** An `HH:MM` value of the time inputs: two digits, a colon, minutes 00 to 59. */
  predicate IsClockTime(s: string) {
    |s| == 5 && IsDigit(s[0]) && IsDigit(s[1]) && s[2] == ':'
    && '0' <= s[3] <= '5' && IsDigit(s[4])
  }

  /** Minutes since midnight written by a clock time. */
  function Minutes(s: string): (m: int)
    requires IsClockTime(s)
    ensures 0 <= m
  {
    60 * (10 * DigitValue(s[0]) + DigitValue(s[1])) + 10 * DigitValue(s[3]) + DigitValue(s[4])
  }

  /**
   * On clock times, the string order the check uses is the order of the
   * times themselves, which is what its messages speak of.
   */
  lemma ClockTimeOrder(a: string, b: string)
    requires IsClockTime(a) && IsClockTime(b)
    ensures StringLess(a, b) <==> Minutes(a) < Minutes(b)
  {
    var a2, b2 := a[1..][1..], b[1..][1..];
    var a4, b4 := a2[1..][1..], b2[1..][1..];
    assert StringLess(a, b) == if a[0] != b[0] then a[0] < b[0] else StringLess(a[1..], b[1..]);
    assert StringLess(a[1..], b[1..]) == if a[1] != b[1] then a[1] < b[1] else StringLess(a2, b2);
    assert StringLess(a2, b2) == StringLess(a2[1..], b2[1..]);
    assert StringLess(a2[1..], b2[1..]) == if a[3] != b[3] then a[3] < b[3] else StringLess(a4, b4);
    assert StringLess(a4, b4) == (a[4] < b[4]) by {
      assert a4 == [a[4]] && b4 == [b[4]];
    }
  }

  /**
   * For two clock times, the form shows both errors exactly when the start
   * is not earlier than the end, equal times included.
   */
  lemma ClockTimeErrors(start: string, end: string)
    requires IsClockTime(start) && IsClockTime(end)
    ensures GetTimeErrorMessage(start, end).startTimeError.Some? <==> Minutes(start) >= Minutes(end)
    ensures GetTimeErrorMessage(start, end).endTimeError.Some? <==> Minutes(start) >= Minutes(end)
  {
    ClockTimeOrder(start, end);
  }
}
