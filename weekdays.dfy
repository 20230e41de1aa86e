/** The `Weekday` enumeration and `parse_weekday`. */
module Weekdays {
  import opened Wrappers
  import opened Errors

  /** `class Weekday(enum.IntEnum)`. */
  datatype Weekday = Monday | Tuesday | Wednesday | Thursday | Friday | Saturday | Sunday

  /** The integer value of each enumeration member: Monday is 0, Sunday is 6. */
  function Index(d: Weekday): (i: nat)
    ensures i < 7
  {
    match d
    case Monday => 0
    case Tuesday => 1
    case Wednesday => 2
    case Thursday => 3
    case Friday => 4
    case Saturday => 5
    case Sunday => 6
  }

  /** Distinct members have distinct values, so comparing values orders the days. */
  lemma IndexInjective(a: Weekday, b: Weekday)
    ensures Index(a) == Index(b) ==> a == b
  {
  }

  /** The three-letter token accepted for a day. */
  function Abbrev(d: Weekday): string
  {
    match d
    case Monday => "Mon"
    case Tuesday => "Tue"
    case Wednesday => "Wed"
    case Thursday => "Thu"
    case Friday => "Fri"
    case Saturday => "Sat"
    case Sunday => "Sun"
  }

  /** The full-name token accepted for a day. */
  function FullName(d: Weekday): string
  {
    match d
    case Monday => "Monday"
    case Tuesday => "Tuesday"
    case Wednesday => "Wednesday"
    case Thursday => "Thursday"
    case Friday => "Friday"
    case Saturday => "Saturday"
    case Sunday => "Sunday"
  }

  /** `s` is one of the fourteen tokens that name a day. */
  ghost predicate IsWeekdayToken(s: string)
  {
    exists d: Weekday :: s == Abbrev(d) || s == FullName(d)
  }

  /**
   * `parse_weekday`: a token names the day it abbreviates or spells out; any
   * other string is rejected with the token in the failure.
   */
  function ParseWeekday(s: string): (r: Result<Weekday, Error>)
    ensures r.Ok? ==> s == Abbrev(r.value) || s == FullName(r.value)
    ensures r.Ok? <==> IsWeekdayToken(s)
    ensures r.Err? ==> r.error == InvalidWeekday(s)
  {
    match s
    case "Mon" | "Monday" => Ok(Monday)
    case "Tue" | "Tuesday" => Ok(Tuesday)
    case "Wed" | "Wednesday" => Ok(Wednesday)
    case "Thu" | "Thursday" => Ok(Thursday)
    case "Fri" | "Friday" => Ok(Friday)
    case "Sat" | "Saturday" => Ok(Saturday)
    case "Sun" | "Sunday" => Ok(Sunday)
    case _ => Err(InvalidWeekday(s))
  }

  /** Each day's two tokens parse back to that day. */
  lemma ParseWeekdayRoundTrip(d: Weekday)
    ensures ParseWeekday(Abbrev(d)) == Ok(d)
    ensures ParseWeekday(FullName(d)) == Ok(d)
  {
    match d
    case Monday =>
    case Tuesday =>
    case Wednesday =>
    case Thursday =>
    case Friday =>
    case Saturday =>
    case Sunday =>
  }
}
