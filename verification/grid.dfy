/**
  The month grid of the calendar component: every day from the Sunday on or
  before the 1st of the month to the Saturday on or after its last day.

  Days are integer day numbers and day 0 is a Sunday, so the weekday of day
  `d` is `d % 7` with 0 for Sunday and 6 for Saturday, the order of the
  grid's header row.  The month is given by the day number of its 1st and its
  length.
 */
module Grid {
  import opened Events

  const DaysPerWeek: int := 7

  /** 0 = Sunday, ..., 6 = Saturday (Euclidean remainder, also before day 0). */
  function Weekday(d: int): int {
    d % DaysPerWeek
  }

  /** The Sunday on or before day `d`. */
  function WeekStart(d: int): int {
    d - Weekday(d)
  }

  /** The Saturday on or after day `d`. */
  function WeekEnd(d: int): int {
    d + (6 - Weekday(d))
  }

  /** The arithmetic of the padded month: its span, ends and length. */
  lemma GridSpan(first: int, length: int)
    requires 28 <= length <= 31
    ensures var n := WeekEnd(first + length - 1) - WeekStart(first) + 1;
            28 <= n <= 42 && n % DaysPerWeek == 0
    ensures Weekday(WeekStart(first)) == 0 && Weekday(WeekEnd(first + length - 1)) == 6
    ensures first - DaysPerWeek < WeekStart(first) <= first
    ensures first + length - 1 <= WeekEnd(first + length - 1) < first + length - 1 + DaysPerWeek
  {
  }

  /**
    The cells of the grid for the month whose 1st is day `first` and which
    has `length` days: consecutive days from the Sunday on or before the 1st
    to the Saturday on or after the last day.
   */
  function CalendarDays(first: int, length: int): (days: seq<int>)
    requires 28 <= length <= 31
    ensures 28 <= |days| <= 42 && |days| % DaysPerWeek == 0
    ensures forall i :: 0 <= i < |days| ==> days[i] == days[0] + i
    ensures Weekday(days[0]) == 0 && Weekday(days[|days| - 1]) == 6
    ensures first - DaysPerWeek < days[0] <= first
    ensures first + length - 1 <= days[|days| - 1] < first + length - 1 + DaysPerWeek
    ensures forall d :: first <= d < first + length ==> d in days
    ensures forall i, j :: 0 <= i < j < |days| ==> days[i] < days[j]
  {
    var start := WeekStart(first);
    var end := WeekEnd(first + length - 1);
    GridSpan(first, length);
    var days := seq(end - start + 1, i => start + i);
    assert days[0] == start && days[|days| - 1] == end;
    assert forall d :: first <= d < first + length ==> d in days by {
      forall d | first <= d < first + length
        ensures d in days
      {
        assert days[d - start] == d;
      }
    }
    days
  }

  /** The source's loop: step one day at a time from the grid's Sunday to its Saturday. */
  method GenerateCalendarDays(first: int, length: int) returns (days: seq<int>)
    requires 28 <= length <= 31
    ensures days == CalendarDays(first, length)
  {
    var startOfCalendar := WeekStart(first);
    var endOfCalendar := WeekEnd(first + length - 1);
    GridSpan(first, length);
    days := [];
    var day := startOfCalendar;
    while day <= endOfCalendar
      invariant startOfCalendar <= day <= endOfCalendar + 1
      invariant |days| == day - startOfCalendar
      invariant forall i :: 0 <= i < |days| ==> days[i] == startOfCalendar + i
    {
      days := days + [day];
      day := day + 1;
    }
  }

  /** An event is listed in the cell of day `d` exactly when it is stored, visible and starts on `d`. */
  lemma InCellOfDay(events: seq<Event>, mode: FilterMode, now: int, d: int, e: Event)
    ensures e in EventsForDate(events, mode, now, Midnight(d)) <==> e in events && Visible(mode, now, e) && Day(e.start) == d
  {
    DayOfMidnight(d);
  }

  /**
    On the grid of a month, a visible event whose day lies in the grid is
    listed in exactly one cell: the cell of its own day.
   */
  lemma EventInExactlyOneCell(first: int, length: int, events: seq<Event>, mode: FilterMode, now: int, e: Event)
    requires 28 <= length <= 31
    requires e in events && Visible(mode, now, e)
    requires Day(e.start) in CalendarDays(first, length)
    ensures var days := CalendarDays(first, length);
            exists i :: 0 <= i < |days| && e in EventsForDate(events, mode, now, Midnight(days[i]))
    ensures var days := CalendarDays(first, length);
            forall i, j ::
              (&& 0 <= i < |days| && 0 <= j < |days|
               && e in EventsForDate(events, mode, now, Midnight(days[i]))
               && e in EventsForDate(events, mode, now, Midnight(days[j]))) ==> i == j
  {
    var days := CalendarDays(first, length);
    var k :| 0 <= k < |days| && days[k] == Day(e.start);
    InCellOfDay(events, mode, now, days[k], e);
    forall i | 0 <= i < |days| && e in EventsForDate(events, mode, now, Midnight(days[i]))
      ensures i == k
    {
      InCellOfDay(events, mode, now, days[i], e);
    }
  }
}
