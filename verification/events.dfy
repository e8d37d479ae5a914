/**
  The event store and the filter/query engine of the calendar component:
  the event record, the `all | past | upcoming` filter against a reference
  "now", and the per-day query the grid cells and the date-click handler use.

  Time is an integer count of minutes on the local clock; the calendar day of
  a timestamp is its floor division by the minutes of a day, so two
  timestamps fall on the same day exactly when the source's
  `format('YYYY-MM-DD')` strings agree.
 */
module Events {
  import opened Seqs

  const MinutesPerHour: int := 60
  const MinutesPerDay: int := 1440

  /** A stored event; `end` is fixed at creation and only `title` is ever edited. */
  datatype Event = Event(id: nat, title: string, location: string, start: int, end: int)

  /** The filter buttons' three modes. */
  datatype FilterMode = All | Past | Upcoming

  /** Calendar day number of a timestamp (floor division, also for times before day 0). */
  function Day(t: int): int {
    t / MinutesPerDay
  }

  /** The timestamp of midnight at the start of day `d`. */
  function Midnight(d: int): int {
    d * MinutesPerDay
  }

  predicate SameDay(a: int, b: int) {
    Day(a) == Day(b)
  }

  /** Whether `e` passes the filter `mode` at reference time `now`; both comparisons are strict. */
  predicate Visible(mode: FilterMode, now: int, e: Event) {
    match mode
    case All => true
    case Past => e.start < now
    case Upcoming => e.start > now
  }

  /** Whether `e` is listed in the grid cell of the day of `date` under `mode` at `now`. */
  predicate OnDate(mode: FilterMode, now: int, date: int, e: Event) {
    Visible(mode, now, e) && SameDay(e.start, date)
  }

  /** The events shown under the active filter, in store order. */
  function FilteredEvents(events: seq<Event>, mode: FilterMode, now: int): (r: seq<Event>)
    ensures mode == All ==> r == events
    ensures IsSubsequence(r, events)
    ensures forall e :: e in r <==> e in events && Visible(mode, now, e)
    ensures forall e :: multiset(r)[e] == if Visible(mode, now, e) then multiset(events)[e] else 0
  {
    match mode
    case Past => Filter(events, (e: Event) => Visible(Past, now, e))
    case Upcoming => Filter(events, (e: Event) => Visible(Upcoming, now, e))
    case All =>
      SubsequenceReflexive(events);
      events
  }

  /** The filtered events whose start falls on the calendar day of `date`, in store order. */
  function EventsForDate(events: seq<Event>, mode: FilterMode, now: int, date: int): (r: seq<Event>)
    ensures IsSubsequence(r, FilteredEvents(events, mode, now))
    ensures forall e :: e in r <==> e in events && OnDate(mode, now, date, e)
    ensures forall e :: multiset(r)[e] == if OnDate(mode, now, date, e) then multiset(events)[e] else 0
  {
    Filter(FilteredEvents(events, mode, now), (e: Event) => SameDay(e.start, date))
  }

  /** The midnight of a day lies on that day. */
  lemma DayOfMidnight(d: int)
    ensures Day(Midnight(d)) == d
  {
  }

  /** Whatever the mode, the filtered list is the store filtered by visibility. */
  lemma FilteredIsFilter(events: seq<Event>, mode: FilterMode, now: int, visible: Event -> bool)
    requires forall e :: visible(e) == Visible(mode, now, e)
    ensures FilteredEvents(events, mode, now) == Filter(events, visible)
  {
    match mode
    case All => FilterKeepsAll(events, visible);
    case Past => FilterCongruent(events, visible, (e: Event) => Visible(Past, now, e));
    case Upcoming => FilterCongruent(events, visible, (e: Event) => Visible(Upcoming, now, e));
  }

  /**
    Under every mode the filtered list is determined by its characterisation:
    any subsequence of the store that keeps exactly the visible events, each
    as often as the store holds it, is the filtered list.
   */
  lemma FilteredEventsUnique(events: seq<Event>, mode: FilterMode, now: int, r: seq<Event>)
    requires IsSubsequence(r, events)
    requires forall e :: e in r ==> Visible(mode, now, e)
    requires forall e :: Visible(mode, now, e) ==> multiset(r)[e] == multiset(events)[e]
    ensures r == FilteredEvents(events, mode, now)
  {
    var visible := (e: Event) => Visible(mode, now, e);
    FilterUnique(events, visible, r);
    FilteredIsFilter(events, mode, now, visible);
  }

  /**
    `past` and `upcoming` never share an event, and together with the events
    starting exactly at `now` they make up the whole store, multiplicities
    included.
   */
  lemma PastUpcomingPartition(events: seq<Event>, now: int)
    ensures forall e :: !(e in FilteredEvents(events, Past, now) && e in FilteredEvents(events, Upcoming, now))
    ensures multiset(FilteredEvents(events, Past, now)) + multiset(FilteredEvents(events, Upcoming, now))
            + multiset(Filter(events, (e: Event) => e.start == now)) == multiset(events)
  {
    var past := FilteredEvents(events, Past, now);
    var upcoming := FilteredEvents(events, Upcoming, now);
    var atNow := Filter(events, (e: Event) => e.start == now);
    forall e
      ensures (multiset(past) + multiset(upcoming) + multiset(atNow))[e] == multiset(events)[e]
    {
      assert multiset(past)[e] == if e.start < now then multiset(events)[e] else 0;
      assert multiset(upcoming)[e] == if e.start > now then multiset(events)[e] else 0;
      assert multiset(atNow)[e] == if e.start == now then multiset(events)[e] else 0;
    }
    assert multiset(past) + multiset(upcoming) + multiset(atNow) == multiset(events);
  }

  /** The per-day query depends on the day of `date` only, not on its time of day. */
  lemma EventsForDateIgnoresTime(events: seq<Event>, mode: FilterMode, now: int, d1: int, d2: int)
    requires SameDay(d1, d2)
    ensures EventsForDate(events, mode, now, d1) == EventsForDate(events, mode, now, d2)
  {
    FilterCongruent(FilteredEvents(events, mode, now), (e: Event) => SameDay(e.start, d1), (e: Event) => SameDay(e.start, d2));
  }

  /** The per-day query is the store filtered once by "visible and on that day". */
  lemma EventsForDateIsFilter(events: seq<Event>, mode: FilterMode, now: int, date: int, onDate: Event -> bool)
    requires forall e :: onDate(e) == OnDate(mode, now, date, e)
    ensures EventsForDate(events, mode, now, date) == Filter(events, onDate)
  {
    var visible := (e: Event) => Visible(mode, now, e);
    FilteredIsFilter(events, mode, now, visible);
    FilterFilter(events, visible, (e: Event) => SameDay(e.start, date), onDate);
  }

  /**
    The first event listed for a day is the earliest one in store order that
    passes the filter and starts on that day.
   */
  lemma EventsForDateHead(events: seq<Event>, mode: FilterMode, now: int, date: int)
    requires |EventsForDate(events, mode, now, date)| > 0
    ensures exists i :: 0 <= i < |events| && EventsForDate(events, mode, now, date)[0] == events[i]
                        && OnDate(mode, now, date, events[i])
                        && forall j :: 0 <= j < i ==> !OnDate(mode, now, date, events[j])
  {
    var onDate := (e: Event) => OnDate(mode, now, date, e);
    EventsForDateIsFilter(events, mode, now, date, onDate);
    FilterHeadIsFirst(events, onDate);
    var i :| 0 <= i < |events| && Filter(events, onDate)[0] == events[i] && onDate(events[i])
             && forall j :: 0 <= j < i ==> !onDate(events[j]);
    forall j | 0 <= j < i
      ensures !OnDate(mode, now, date, events[j])
    {
      assert !onDate(events[j]);
    }
    assert EventsForDate(events, mode, now, date)[0] == events[i] && OnDate(mode, now, date, events[i]);
  }

  /** The store with every event of id `id` dropped (the delete handler's filter). */
  function WithoutId(events: seq<Event>, id: nat): (r: seq<Event>)
    ensures IsSubsequence(r, events)
    ensures forall e :: e in r <==> e in events && e.id != id
    ensures forall e: Event :: e.id != id ==> multiset(r)[e] == multiset(events)[e]
    ensures forall e: Event :: e.id == id ==> multiset(r)[e] == 0
  {
    Filter(events, (e: Event) => e.id != id)
  }

  /**
    The store with the title of every event of id `id` replaced by `title`
    (the edit handler's map); every other field and every other event is kept.
   */
  function Retitle(events: seq<Event>, id: nat, title: string): (r: seq<Event>)
    ensures |r| == |events|
    ensures forall i :: 0 <= i < |events| ==>
              && r[i].id == events[i].id
              && r[i].location == events[i].location
              && r[i].start == events[i].start
              && r[i].end == events[i].end
    ensures forall i :: 0 <= i < |events| ==>
              r[i].title == if events[i].id == id then title else events[i].title
  {
    if |events| == 0 then []
    else
      var e := events[0];
      [if e.id == id then e.(title := title) else e] + Retitle(events[1..], id, title)
  }

  /** Retitling an id and then dropping it leaves what dropping it alone leaves. */
  lemma {:induction false} RetitleThenRemove(events: seq<Event>, id: nat, title: string)
    ensures WithoutId(Retitle(events, id, title), id) == WithoutId(events, id)
    decreases |events|
  {
    if |events| > 0 {
      var r := Retitle(events, id, title);
      assert r[1..] == Retitle(events[1..], id, title);
      RetitleThenRemove(events[1..], id, title);
    }
  }
}
