/**
  The interaction controller of the calendar component: the selection state
  (a pending creation slot and a selected event, the two `null`-able state
  hooks) and one pure transition per handler.  The text the handlers read
  from the form inputs, the new event's id (the source's `Date.now()`), the
  active filter and the current time are parameters.
 */
module Selection {
  import opened Wrappers
  import opened Seqs
  import opened Events

  /** A candidate start/end pair for an event not yet created. */
  datatype Slot = Slot(start: int, end: int)

  /**
    The store plus the two selection hooks: a set `selectedDate` means the
    creation dialog is open, a set `selectedEvent` the edit/delete dialog.
   */
  datatype State = State(events: seq<Event>, selectedDate: Option<Slot>, selectedEvent: Option<Event>)

  /** The state the component mounts with: no events, nothing selected. */
  function Initial(): State {
    State([], None, None)
  }

  /** At most one dialog is open. */
  predicate AtMostOneSelected(s: State) {
    !(s.selectedDate.Some? && s.selectedEvent.Some?)
  }

  /**
    A stored event as the handlers build it: a non-empty title (saving and
    editing refuse the empty one) and an end one hour after its start (the
    slot of a day click, copied at creation and never edited).
   */
  predicate ValidEvent(e: Event) {
    e.title != "" && e.end == e.start + MinutesPerHour
  }

  /**
    At most one dialog is open, the event being edited is a stored one, every
    stored event is valid, and a pending slot lasts one hour.
   */
  predicate WellFormed(s: State) {
    && AtMostOneSelected(s)
    && (s.selectedEvent.Some? ==> s.selectedEvent.value in s.events)
    && (forall e :: e in s.events ==> ValidEvent(e))
    && (s.selectedDate.Some? ==> s.selectedDate.value.end == s.selectedDate.value.start + MinutesPerHour)
  }

  /** `events[i]` is the earliest stored event listed in the cell of the day of `date`. */
  predicate FirstOnDate(events: seq<Event>, mode: FilterMode, now: int, date: int, i: int) {
    && 0 <= i < |events|
    && OnDate(mode, now, date, events[i])
    && forall j :: 0 <= j < i ==> !OnDate(mode, now, date, events[j])
  }

  /**
    Clicking a day: open the first event listed for it under the active
    filter, or, when none is listed, a one-hour creation slot starting at the
    clicked time.
   */
  function HandleDateClick(s: State, date: int, mode: FilterMode, now: int): (r: State)
    ensures r.events == s.events
    ensures r.selectedDate.Some? != r.selectedEvent.Some?
    ensures r.selectedEvent.Some? <==> exists e :: e in s.events && OnDate(mode, now, date, e)
    ensures r.selectedEvent.Some? ==>
              exists i :: FirstOnDate(s.events, mode, now, date, i) && r.selectedEvent.value == s.events[i]
    ensures r.selectedDate.Some? ==>
              r.selectedDate.value.start == date && r.selectedDate.value.end == date + MinutesPerHour
  {
    var forDate := EventsForDate(s.events, mode, now, date);
    if |forDate| > 0 then
      EventsForDateHead(s.events, mode, now, date);
      State(s.events, None, Some(forDate[0]))
    else
      State(s.events, Some(Slot(date, date + MinutesPerHour)), None)
  }

  /** Clicking an event marker inside a day cell opens that event, and the day click does not fire. */
  function SelectEvent(s: State, e: Event): (r: State)
    ensures r.events == s.events
    ensures r.selectedEvent == Some(e) && r.selectedDate.None?
  {
    State(s.events, None, Some(e))
  }

  /**
    Clicking the `index`-th marker of the cell of the day of `date`.  The
    cell lists the events for that day, so the opened event is a stored one
    that passes the filter and starts on that day.  An index past the end of
    the cell names no marker, and then nothing happens.
   */
  function ClickMarker(s: State, date: int, mode: FilterMode, now: int, index: nat): (r: State)
    ensures r.events == s.events
    ensures index >= |EventsForDate(s.events, mode, now, date)| ==> r == s
    ensures index < |EventsForDate(s.events, mode, now, date)| ==>
              r == SelectEvent(s, EventsForDate(s.events, mode, now, date)[index])
    ensures index < |EventsForDate(s.events, mode, now, date)| ==>
              && r.selectedDate.None? && r.selectedEvent.Some?
              && r.selectedEvent.value in s.events
              && OnDate(mode, now, date, r.selectedEvent.value)
  {
    var cell := EventsForDate(s.events, mode, now, date);
    if index < |cell| then
      assert cell[index] in cell;
      SelectEvent(s, cell[index])
    else
      s
  }

  /** The creation dialog's Cancel button discards the pending slot. */
  function CancelCreate(s: State): (r: State)
    ensures r.events == s.events && r.selectedEvent == s.selectedEvent
    ensures r.selectedDate.None?
  {
    s.(selectedDate := None)
  }

  /**
    The creation dialog's Save button: with a non-empty title and a pending
    slot, append one event built from the slot and close the dialog;
    otherwise nothing happens.
   */
  function CreateEvent(s: State, title: string, location: string, id: nat): (r: State)
    ensures title == "" || s.selectedDate.None? ==> r == s
    ensures title != "" && s.selectedDate.Some? ==>
              && |r.events| == |s.events| + 1
              && r.events[..|s.events|] == s.events
              && var added := r.events[|s.events|];
                 && added.id == id && added.title == title && added.location == location
                 && added.start == s.selectedDate.value.start && added.end == s.selectedDate.value.end
    ensures title != "" && s.selectedDate.Some? ==>
              r.selectedDate.None? && r.selectedEvent == s.selectedEvent
  {
    if title != "" && s.selectedDate.Some? then
      var slot := s.selectedDate.value;
      var added := Event(id, title, location, slot.start, slot.end);
      State(s.events + [added], None, s.selectedEvent)
    else
      s
  }

  /**
    The edit dialog's Edit button: with a non-empty title and a selected
    event, retitle every stored event carrying the selected id and close the
    dialog; otherwise nothing happens.
   */
  function EditEvent(s: State, title: string): (r: State)
    ensures title == "" || s.selectedEvent.None? ==> r == s
    ensures title != "" && s.selectedEvent.Some? ==>
              && |r.events| == |s.events|
              && (forall i :: 0 <= i < |s.events| ==>
                    && r.events[i].id == s.events[i].id
                    && r.events[i].location == s.events[i].location
                    && r.events[i].start == s.events[i].start
                    && r.events[i].end == s.events[i].end
                    && r.events[i].title ==
                         if s.events[i].id == s.selectedEvent.value.id then title else s.events[i].title)
              && r.selectedEvent.None? && r.selectedDate == s.selectedDate
  {
    if title != "" && s.selectedEvent.Some? then
      State(Retitle(s.events, s.selectedEvent.value.id, title), s.selectedDate, None)
    else
      s
  }

  /**
    The edit dialog's Delete button: with a selected event, drop every stored
    event carrying its id, keeping the order of the rest, and close the
    dialog; otherwise nothing happens.
   */
  function DeleteEvent(s: State): (r: State)
    ensures s.selectedEvent.None? ==> r == s
    ensures s.selectedEvent.Some? ==>
              && IsSubsequence(r.events, s.events)
              && (forall e :: e in r.events <==> e in s.events && e.id != s.selectedEvent.value.id)
              && (forall e: Event :: e.id != s.selectedEvent.value.id ==> multiset(r.events)[e] == multiset(s.events)[e])
              && r.selectedEvent.None? && r.selectedDate == s.selectedDate
  {
    if s.selectedEvent.Some? then
      State(WithoutId(s.events, s.selectedEvent.value.id), s.selectedDate, None)
    else
      s
  }

  /** Deleting the same id a second time leaves the store as the first deletion left it. */
  lemma DeleteAgainRemovesNothing(s: State, again: State)
    requires s.selectedEvent.Some?
    requires again.events == DeleteEvent(s).events
    requires again.selectedEvent.Some? && again.selectedEvent.value.id == s.selectedEvent.value.id
    ensures DeleteEvent(again).events == DeleteEvent(s).events
  {
    FilterKeepsAll(again.events, (e: Event) => e.id != s.selectedEvent.value.id);
  }

  /**
    Creating an event under a fresh id, opening it from its marker and
    deleting it gives back the store it was created in, with no dialog open.
   */
  lemma CreateThenDeleteRestores(s: State, title: string, location: string, id: nat)
    requires title != "" && s.selectedDate.Some?
    requires forall e :: e in s.events ==> e.id != id
    ensures var created := CreateEvent(s, title, location, id);
            var shown := SelectEvent(created, created.events[|created.events| - 1]);
            DeleteEvent(shown) == State(s.events, None, None)
  {
    var created := CreateEvent(s, title, location, id);
    var added := created.events[|s.events|];
    assert created.events == s.events + [added];
    FilterAppend(s.events, [added], (e: Event) => e.id != id);
    FilterKeepsAll(s.events, (e: Event) => e.id != id);
  }

  /**
    Editing the selected event and then deleting it (reopened by the same id)
    ends in the state that deleting it straight away ends in.
   */
  lemma EditThenDeleteSameAsDelete(s: State, title: string)
    requires title != "" && s.selectedEvent.Some?
    ensures DeleteEvent(EditEvent(s, title).(selectedEvent := s.selectedEvent)) == DeleteEvent(s)
  {
    RetitleThenRemove(s.events, s.selectedEvent.value.id, title);
  }

  /** Editing again with the same title, for the same id, changes nothing more. */
  lemma EditIdempotent(s: State, title: string)
    requires title != "" && s.selectedEvent.Some?
    ensures EditEvent(EditEvent(s, title).(selectedEvent := s.selectedEvent), title) == EditEvent(s, title)
  {
  }

  /** One user action on the calendar page, as the handlers receive it. */
  datatype Action =
    | DateClick(day: int, mode: FilterMode, now: int)                 // click on a grid cell
    | MarkerClick(day: int, mode: FilterMode, now: int, index: nat)   // click on the index-th marker of a cell
    | Cancel                                                           // Cancel in the creation dialog
    | Save(title: string, location: string, id: nat)                   // Save in the creation dialog
    | Edit(title: string)                                              // Edit in the edit dialog
    | Delete                                                           // Delete in the edit dialog

  /** The state after one action; grid cells stand for the midnight of their day. */
  function Step(s: State, a: Action): State {
    match a
    case DateClick(day, mode, now) => HandleDateClick(s, Midnight(day), mode, now)
    case MarkerClick(day, mode, now, index) => ClickMarker(s, Midnight(day), mode, now, index)
    case Cancel => CancelCreate(s)
    case Save(title, location, id) => CreateEvent(s, title, location, id)
    case Edit(title) => EditEvent(s, title)
    case Delete => DeleteEvent(s)
  }

  /** The state after a sequence of actions, applied in order. */
  function Run(s: State, actions: seq<Action>): State
    decreases |actions|
  {
    if |actions| == 0 then s else Run(Step(s, actions[0]), actions[1..])
  }

  /** A day click opens a stored event or a one-hour slot, never both. */
  lemma DateClickKeepsWellFormed(s: State, date: int, mode: FilterMode, now: int)
    requires WellFormed(s)
    ensures WellFormed(HandleDateClick(s, date, mode, now))
  {
    var r := HandleDateClick(s, date, mode, now);
    if r.selectedEvent.Some? {
      var i :| FirstOnDate(s.events, mode, now, date, i) && r.selectedEvent.value == s.events[i];
    }
  }

  /**
    Saving needs the creation dialog, so no event is being edited; the new
    event has a non-empty title and the one-hour span of the slot.
   */
  lemma SaveKeepsWellFormed(s: State, title: string, location: string, id: nat)
    requires WellFormed(s)
    ensures WellFormed(CreateEvent(s, title, location, id))
  {
    var r := CreateEvent(s, title, location, id);
    if title != "" && s.selectedDate.Some? {
      var added := r.events[|s.events|];
      assert r.events == s.events + [added];
      forall e | e in r.events
        ensures ValidEvent(e)
      {
        if e != added {
          assert e in s.events;
        }
      }
    }
  }

  /** Editing keeps every span and writes a non-empty title, then closes the dialog. */
  lemma EditKeepsWellFormed(s: State, title: string)
    requires WellFormed(s)
    ensures WellFormed(EditEvent(s, title))
  {
    var r := EditEvent(s, title);
    if title != "" && s.selectedEvent.Some? {
      forall e | e in r.events
        ensures ValidEvent(e)
      {
        var i :| 0 <= i < |r.events| && r.events[i] == e;
        assert s.events[i] in s.events;
      }
    }
  }

  /** Deleting only drops stored events and closes the dialog. */
  lemma DeleteKeepsWellFormed(s: State)
    requires WellFormed(s)
    ensures WellFormed(DeleteEvent(s))
  {
  }

  /**
    Every action keeps at most one dialog open, the edited event a stored
    one, every stored event valid and the pending slot one hour long.
   */
  lemma StepKeepsWellFormed(s: State, a: Action)
    requires WellFormed(s)
    ensures WellFormed(Step(s, a))
  {
    match a
    case DateClick(day, mode, now) => DateClickKeepsWellFormed(s, Midnight(day), mode, now);
    case MarkerClick(day, mode, now, index) =>
    case Cancel =>
    case Save(title, location, id) => SaveKeepsWellFormed(s, title, location, id);
    case Edit(title) => EditKeepsWellFormed(s, title);
    case Delete => DeleteKeepsWellFormed(s);
  }

  /** From the initial state, or any well-formed one, every run of actions stays well-formed. */
  lemma {:induction false} RunKeepsWellFormed(s: State, actions: seq<Action>)
    requires WellFormed(s)
    ensures WellFormed(Run(s, actions))
    decreases |actions|
  {
    if |actions| > 0 {
      StepKeepsWellFormed(s, actions[0]);
      RunKeepsWellFormed(Step(s, actions[0]), actions[1..]);
    }
  }

  /**
    In particular no sequence of clicks from the mounted state opens both
    dialogs, and every event it stores has a title and lasts one hour.
   */
  lemma {:induction false} ReachableStatesWellFormed(actions: seq<Action>)
    ensures AtMostOneSelected(Run(Initial(), actions))
    ensures forall e :: e in Run(Initial(), actions).events ==> e.title != "" && e.end == e.start + MinutesPerHour
  {
    RunKeepsWellFormed(Initial(), actions);
  }
}
