/**
 * The parts of the JavaScript `Date` object the core relies on, made explicit.
 *
 * A calendar day is an integer: the number of days since 1970-01-01 in the
 * local calendar of the process. Rendering a day with
 * `Date.prototype.toDateString` (section 21.4.4.35 of ECMA-262) and reading a
 * string back with `new Date(s)` are left abstract: they are the two function
 * fields of a `Calendar`, and `Coherent` states the only facts about them the
 * proofs use.
 */
module Calendar {
  import opened Wrappers

  /** What `new Date(s).toDateString()` yields when `new Date(s)` is not a valid date. */
  const InvalidDate: string := "Invalid Date"

  /** The milliseconds in a day, the divisor of the day-gap computation. */
  const MsPerDay: int := 1000 * 60 * 60 * 24

  datatype Calendar = Calendar(
    /** `toDateString()` of a valid date on that local day */
    dayStr: int -> string,
    /** the local day of `new Date(s)`, or None when that date is invalid */
    dayOf: string -> Option<int>)

  /**
   * Reading back a rendered day gives that day, a rendered day is never the
   * empty string, and the invalid-date text does not parse. These make
   * `dayStr` injective and keep every rendered day distinct from `InvalidDate`.
   */
  ghost predicate Coherent(cal: Calendar)
  {
    && (forall d :: cal.dayOf(cal.dayStr(d)) == Some(d))
    && (forall d :: cal.dayStr(d) != "")
    && cal.dayOf(InvalidDate) == None
  }

  /** `new Date(x).toDateString()` where `x` denotes the local day `d`, or an invalid date. */
  function DateText(cal: Calendar, d: Option<int>): (r: string)
    ensures d.None? ==> r == InvalidDate
  {
    match d
    case Some(day) => cal.dayStr(day)
    case None => InvalidDate
  }

  /**
   * `Math.floor((new Date(later) - new Date(earlier)) / 86400000)` for two
   * `toDateString` texts, each of which parses to local midnight. None is
   * JavaScript's NaN (one of the two is an invalid date). Every local day is
   * taken to be exactly `MsPerDay` long, so the quotient is the difference of
   * the day numbers.
   */
  function DayGap(cal: Calendar, earlier: string, later: string): (r: Option<int>)
    ensures r.Some? <==> cal.dayOf(earlier).Some? && cal.dayOf(later).Some?
  {
    match (cal.dayOf(earlier), cal.dayOf(later))
    case (Some(e), Some(l)) => Some((l * MsPerDay - e * MsPerDay) / MsPerDay)
    case _ => None
  }

  /** `Date.prototype.getDay` of a local day: 0 is Sunday; day 0 (1970-01-01) was a Thursday. */
  function Weekday(day: int): (r: int)
    ensures 0 <= r < 7
  {
    (day + 4) % 7
  }

  /** The weekday advances by one, modulo 7, from one day to the next. */
  lemma WeekdayNext(day: int)
    ensures Weekday(day + 1) == (Weekday(day) + 1) % 7
  {
  }

  lemma DayStrInjective(cal: Calendar, a: int, b: int)
    requires Coherent(cal)
    ensures cal.dayStr(a) == cal.dayStr(b) <==> a == b
  {
    assert cal.dayOf(cal.dayStr(a)) == Some(a);
    assert cal.dayOf(cal.dayStr(b)) == Some(b);
  }

  /** A rendered day is never the invalid-date text. */
  lemma DayStrIsValid(cal: Calendar, d: int)
    requires Coherent(cal)
    ensures cal.dayStr(d) != InvalidDate
  {
    assert cal.dayOf(cal.dayStr(d)) == Some(d);
  }

  /** The gap between two rendered days is the difference of their day numbers. */
  lemma DayGapOfRenderedDays(cal: Calendar, e: int, l: int)
    requires Coherent(cal)
    ensures DayGap(cal, cal.dayStr(e), cal.dayStr(l)) == Some(l - e)
  {
    assert cal.dayOf(cal.dayStr(e)) == Some(e);
    assert cal.dayOf(cal.dayStr(l)) == Some(l);
    assert l * MsPerDay - e * MsPerDay == (l - e) * MsPerDay;
  }
}
