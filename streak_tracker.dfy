/**
 * The streak panel: the streak count, the last-seven-days projection of the
 * completion dates, and the labels it shows. The spring animation of the
 * counter is not modelled.
 */
module StreakTracker {
  import opened Wrappers
  import opened Calendar

  /** The body of the streak response, as the client receives it. */
  datatype StreakData = StreakData(currentStreak: int, lastCompletedDate: Option<string>, completedDates: seq<string>)

  /** A server call that was rejected. */
  datatype Failure = Failure

  /** The weekday initials, Monday first. */
  const DayLabels: seq<string> := ["M", "T", "W", "T", "F", "S", "S"]

  /** The day shown at position `index` of the window: six days ago at 0, today at 6. */
  function WindowDay(today: int, index: int): (d: int)
    ensures index == 6 ==> d == today
    ensures index < 6 ==> d < today
  {
    today - (6 - index)
  }

  /** The window runs in calendar order: each position is the day after the one before it. */
  lemma WindowDayConsecutive(today: int, index: int)
    ensures WindowDay(today, index + 1) == WindowDay(today, index) + 1
  {
  }

  /**
   * The `for` loop of `loadStreak`: seven flags, oldest day first, each true
   * exactly when that day's `toDateString` text is among the completion
   * dates; how often a date occurs does not matter.
   */
  method LastSevenDays(cal: Calendar, today: int, completedDates: seq<string>) returns (days: seq<bool>)
    ensures |days| == 7
    ensures forall k :: 0 <= k < 7 ==> (days[k] <==> cal.dayStr(WindowDay(today, k)) in completedDates)
  {
    var completedSet := set s | s in completedDates;
    days := [];
    var i := 6;
    while i >= 0
      invariant -1 <= i <= 6
      invariant |days| == 6 - i
      invariant forall k :: 0 <= k < |days| ==> (days[k] <==> cal.dayStr(WindowDay(today, k)) in completedSet)
    {
      var dateStr := cal.dayStr(today - i);
      days := days + [dateStr in completedSet];
      i := i - 1;
    }
  }

  /** `getDayLabel`'s index into the labels: Sunday (0) goes to 6, any other weekday `w` to `w - 1`. */
  function DayLabelIndex(today: int, index: int): (r: int)
    ensures 0 <= r < |DayLabels|
    ensures r == (Weekday(WindowDay(today, index)) + 6) % 7
  {
    var day := Weekday(WindowDay(today, index));
    if day == 0 then 6 else day - 1
  }

  /** `getDayLabel(index)`. */
  function DayLabel(today: int, index: int): (r: string)
    ensures r in DayLabels
  {
    DayLabels[DayLabelIndex(today, index)]
  }

  /** Neighbouring positions show neighbouring weekdays, so the window shows each weekday once. */
  lemma DayLabelIndexNext(today: int, index: int)
    ensures DayLabelIndex(today, index + 1) == (DayLabelIndex(today, index) + 1) % 7
  {
    WeekdayNext(WindowDay(today, index));
  }

  /** The unit after the count: "Day" exactly for a streak of 1. */
  function StreakUnit(currentStreak: int): (r: string)
    ensures r == "Day" <==> currentStreak == 1
    ensures r == "Day" || r == "Days"
  {
    if currentStreak == 1 then "Day" else "Days"
  }

  /** The line under the week: completed only when today's flag exists and is set. */
  function TodayIndicator(completedDays: seq<bool>): (r: string)
    ensures r == "\U{2713} Today completed" <==> |completedDays| > 6 && completedDays[6]
    ensures r == "\U{2713} Today completed" || r == "Today"
  {
    if |completedDays| > 6 && completedDays[6] then "\U{2713} Today completed" else "Today"
  }

  class Tracker {
    var completedDays: seq<bool>
    var currentStreak: int

    constructor ()
      ensures completedDays == [] && currentStreak == 0
    {
      completedDays := [];
      currentStreak := 0;
    }

    /**
     * The effect that runs `loadStreak`: nothing without a user id or when
     * the fetch fails; otherwise the streak count and the seven flags are
     * replaced.
     */
    method LoadStreak(cal: Calendar, today: int, userId: Option<string>, fetched: Result<StreakData, Failure>)
      modifies this
      ensures !Truthy(userId) || fetched.Err? ==>
                completedDays == old(completedDays) && currentStreak == old(currentStreak)
      ensures Truthy(userId) && fetched.Ok? ==>
                && currentStreak == fetched.value.currentStreak
                && |completedDays| == 7
                && forall k :: 0 <= k < 7 ==>
                     (completedDays[k] <==> cal.dayStr(WindowDay(today, k)) in fetched.value.completedDates)
    {
      if !Truthy(userId) {
        return;
      }
      if fetched.Err? {
        return;
      }
      var data := fetched.value;
      currentStreak := data.currentStreak;
      var daysResult := LastSevenDays(cal, today, data.completedDates);
      completedDays := daysResult;
    }
  }
}
