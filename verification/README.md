# Event tracker calendar — Dafny model

A model of the logic behind the event tracker's single React component,
`src/components/App.js`: a month calendar on which a user creates, opens,
retitles and deletes events, with an `all | past | upcoming` filter.

The component's core is pure once its inputs are made explicit, and the
model keeps it that way:

- `Events` (events.dfy) — the event record and the filter/query engine. It
  has the `all | past | upcoming` filter (`getFilteredEvents`) and the
  per-day query (`getEventsForDate`). It also has the two store updates the
  edit and delete handlers apply (`map` that retitles, `filter` that drops an
  id).
- `Selection` (selection.dfy) — the interaction controller. The state is
  the store plus the two `null`-able selection hooks (`selectedDate`,
  `selectedEvent`). Each handler is a pure transition: date click, event
  marker click, Cancel, Save (`createEvent`), Edit (`editEvent`) and
  Delete (`deleteEvent`). An `Action`/`Run` replay of handler calls shows
  that no sequence of clicks opens both dialogs at once.
- `Grid` (grid.dfy) — `generateCalendarDays`: the days from the Sunday on
  or before the 1st of the month to the Saturday on or after its last day.
- `Seqs` (seqs.dfy) — `Array.prototype.filter` as an order-preserving
  filter. Its result is also characterised independently: it is the
  subsequence that keeps exactly the matching elements, each with its
  multiplicity.
- `Wrappers` (wrappers.dfy) — `Option`, standing for the source's `null`.

Conventions of the model:

- Timestamps are integer minutes on the local clock.
- The calendar day of a timestamp `t` is `t / 1440` (floor division). Two
  timestamps therefore share a day exactly when their `YYYY-MM-DD` renderings
  agree.
- Grid days are integer day numbers, and day 0 is a Sunday, so the weekday
  of day `d` is `d % 7` (0 = Sunday, as in the header row). A grid cell
  stands for the midnight of its day.
- The component reads some values from outside its logic. These become
  parameters:
  - the current time (`moment()`);
  - the new event's id (`Date.now()`);
  - the active filter;
  - the text of the title and location inputs.

## Model

| member | source | states |
|---|---|---|
| Seqs.Filter | src/components/App.js:18-20 | The result is a subsequence of the input. It holds exactly the input's matching elements, each as often as the input holds it. |
| Seqs.FilterUnique | src/components/App.js:18-20 | That characterisation determines the filter result: any subsequence meeting it equals the filter's output. |
| Events.FilteredEvents | src/components/App.js:14-23 | Under `all` the store comes back unchanged. Under `past` the result is the order-preserving subsequence of events starting strictly before now. Under `upcoming` it is the one starting strictly after now. Multiplicities are kept. |
| Events.FilteredEventsUnique | src/components/App.js:14-23 | For every mode, the filtered list is the only subsequence of the store that keeps exactly the visible events with their multiplicity. |
| Events.PastUpcomingPartition | src/components/App.js:17-20 | `past` and `upcoming` share no event. Together with the events starting exactly at now, they make up the store as a multiset. |
| Events.EventsForDate | src/components/App.js:27-31 | The result is a subsequence of the current filter's result. It holds exactly the stored events that are visible and start on the day of the date, with their multiplicity. |
| Events.EventsForDateIgnoresTime | src/components/App.js:28-30 | Two dates on the same calendar day give the same per-day list, whatever their time of day. |
| Events.EventsForDateHead | src/components/App.js:35-38 | The first event listed for a day is the earliest one in store order that is visible and starts on that day. |
| Events.Retitle | src/components/App.js:76-78 | The length is kept. Each event keeps its id, location, start and end. Only events with the given id take the new title. |
| Events.WithoutId | src/components/App.js:86 | The result is an order-preserving subsequence of the store. It holds exactly the events with a different id, with unchanged multiplicity, and none with the given id. |
| Events.RetitleThenRemove | src/components/App.js:76-86 | Retitling an id and then dropping it leaves the same store as dropping it alone. |
| Selection.HandleDateClick | src/components/App.js:34-45 | The store is unchanged and exactly one selection is set afterwards. An event is selected iff some stored event is visible and starts on that day. The selected event is the earliest such event in store order. Otherwise the slot runs from the clicked time to one hour later. |
| Selection.SelectEvent | src/components/App.js:180-184 | Clicking a marker selects that event and clears the pending slot. The store is unchanged. |
| Selection.ClickMarker | src/components/App.js:175-184 | Clicking the index-th marker of a day's cell selects exactly the index-th event listed for that day and clears the slot. The store is unchanged. That event is a stored event that is visible and starts on that day. An index past the end of the cell changes nothing. |
| Selection.CancelCreate | src/components/App.js:216 | Cancel drops the pending slot. The store and the selected event are unchanged. |
| Selection.CreateEvent | src/components/App.js:48-68 | With a non-empty title and a pending slot, the new store is the old one plus one event at the end. That event has the given id, title and location and the slot's start and end. The slot is cleared. With an empty title or no slot the state is unchanged. |
| Selection.EditEvent | src/components/App.js:71-81 | With a non-empty title and a selection, the store keeps its length. Every event keeps its id, location, start and end. Exactly the events with the selected id take the new title. The selection is cleared. Otherwise the state is unchanged. |
| Selection.DeleteEvent | src/components/App.js:84-89 | With a selection, the new store is an order-preserving subsequence of the old one. It holds exactly the events with a different id, with unchanged multiplicity. The selection is cleared. Without a selection nothing changes. |
| Selection.DeleteAgainRemovesNothing | src/components/App.js:84-89 | Deleting the same id a second time leaves the store as the first deletion left it. |
| Selection.CreateThenDeleteRestores | src/components/App.js:48-89 | Take a fresh id. Creating an event with it, opening that event from its marker and deleting it gives back the original store, with no dialog open. |
| Selection.EditThenDeleteSameAsDelete | src/components/App.js:71-89 | Editing the selected event and then deleting it ends in the same state as deleting it directly. |
| Selection.EditIdempotent | src/components/App.js:75-78 | A second edit of the same id with the same title changes nothing. |
| Selection.StepKeepsWellFormed | src/components/App.js:34-89 | Every handler keeps four facts. At most one dialog is open. The event being edited is a stored one. Every stored event has a non-empty title and ends one hour after its start. A pending slot lasts one hour. |
| Selection.RunKeepsWellFormed | src/components/App.js:34-89 | Those four facts hold after every sequence of handler calls from a state where they hold. |
| Selection.ReachableStatesWellFormed | src/components/App.js:7-10 | From the mounted state (no events, nothing selected), no sequence of clicks opens both dialogs. Every event stored along the way has a non-empty title and lasts one hour. |
| Grid.CalendarDays | src/components/App.js:92-107 | The grid is consecutive days. The first is a Sunday no more than six days before the 1st, and the last is a Saturday no more than six days after the month's last day. The length is a multiple of 7 between 28 and 42. The days strictly increase, and every day of the month appears, so each appears exactly once. |
| Grid.GenerateCalendarDays | src/components/App.js:98-106 | The day-by-day loop from the grid's Sunday to its Saturday emits exactly `Grid.CalendarDays`. |
| Grid.EventInExactlyOneCell | src/components/App.js:163-175 | On the grid of a month, a visible event whose day lies in the grid is listed in exactly one cell: the cell of its own day. |

## Left out

- Rendering is left out as presentation:
  - the JSX;
  - CSS classes;
  - the marker colour (`getEventColor`, lines 109-113);
  - the `other-month` and `today` cell flags (lines 165-166).
- The filter buttons (lines 120-142) only set the filter hook. The filter
  mode is a parameter of the date and marker clicks instead of a field of the
  state.
- Month navigation (lines 146-150) is left out because it relies on
  moment.js month arithmetic. The grid takes the day number of the month's
  1st and the month's length (28 to 31) as given, without reimplementing the
  Gregorian calendar.
- moment.js details are left out:
  - time zones and daylight saving time;
  - the locale-dependent week start, assumed to be Sunday as in the header at
    line 158;
  - millisecond precision — timestamps here are whole minutes, so two
    instants within the same minute compare as equal.
- Reading the inputs with `document.querySelector` (lines 49-52, 72-73) is
  left out as DOM access. The text becomes a parameter, with a missing input
  read as the empty string as `|| ''` does. Clearing the inputs after a save
  (lines 65-66) is also DOM work and is not modelled.
- The clock is left out: `now` and the new id are parameters. Id uniqueness
  is neither assumed nor claimed, because two saves in the same millisecond
  would share an id and nothing prevents that. The lemmas that need a fresh
  id require it explicitly.
- Create, edit and delete report no errors. An empty title or a missing
  selection makes them a silent no-op (lines 54, 75, 85), and so it does in
  the model.
- The selection is two independent nullable hooks (lines 9-10), not a single
  tagged value. `Selection.RunKeepsWellFormed` proves that at most one of
  them is set.
