# react-drag-calendar: the week layout and the drag rules, in Dafny

This project models the logic of a small React calendar widget. The widget
shows a month as four weeks of seven day cells. Events are bars across those
cells, and their start and end handles can be dragged to other days.

The model has four modules:

- `Types` (`types.dfy`): the item kinds `Event`, `Start` and `End`; the
  `CalendarEvent` record (`id`, `start`, `end`, `duration`, all integers); a
  grid slot, which holds an event or `null`; and the four cell components a
  slot can render as.
- `Schedule` (`schedule.dfy`): the week layout of `src/Schedule.tsx`.
  - `RowEvents` is the week filter.
  - `FindRow`, `Fill` and `PlaceEvent` state what one `findRowForEvent` call
    does to the grid, as functions on values.
  - `WeekRows` is the `reduce` that places the week's events one by one.
  - The class `EventGrid` keeps the grid the way the source does: a
    dictionary from row index to a seven-slot array. Its method
    `SearchRow` runs the source's tail recursion as a loop.
    `FindRowForEvent` then creates the missing row and overwrites slots in
    place, and is proved equal to `PlaceEvent`. The source creates a
    missing row before it tests it; a missing row is always the last one
    tried, and a fresh row always passes, so testing first and creating
    afterwards gives the same grid. `EventsRow` filters the events and then runs the
    reduction over a fresh grid.
- `Cell` (`cell.dfy`): the drop target of `src/components/Cell.tsx`. It
  covers the `accept` list, `canDrop` and `drop`. `src/Schedule.tsx` renders
  its own older `Cell` instead (line 191), which has no `canDrop`; that cell
  is `Schedule.LegacyCellDrop`.
- `EventItem` (`event_item.dfy`): `src/components/EventItem.tsx`. It covers
  how a slot renders and at which pixel offsets, the two drag handles, and
  what a handle's drag-`end` handler reports.

The layout keeps two quirks of the code, on purpose:

- The fill length comes from the `duration` field, not from `end - start`.
- Only an event's two boundary slots are tested before it is placed.
  `Schedule.LaterEventOverwritesEarlier` shows the result: a later event
  can overwrite an earlier one entirely, and two events that share days
  can share a row.

The widget is sometimes described as working differently. This model
follows the code in each case:

- No sort by duration happens before placement. Events are placed in
  filtered input order, and `Schedule.InputOrderDecidesRows` shows that
  the order changes the result.
- Rows are not free of overlap, and not every selected event stays visible
  in the grid.
- Out-of-week boundaries are not clamped. For an event with a boundary
  outside the week, the search never finds a row: each further call adds
  one more empty row and calls itself again. Engines without proper tail
  calls, such as V8 and SpiderMonkey, then overflow the stack, and the
  `RangeError` is thrown out of the render of `EventsRow`. Such events are
  therefore a precondition; see "Left out".

## Model

| member | source | states |
|---|---|---|
| `Schedule.LegacyRenderCellEvents` | src/Schedule.tsx:152-166 | a null slot gives the placeholder; an event gives a start handle exactly on its start day, an end handle exactly on an end day that is not its start day, and a bar on every other day; a handle carries the slot's event |
| `Schedule.IsDayInInterval` | src/Schedule.tsx:199-201 | a day is in the interval exactly when it lies between `start` and `end`, both ends included: every such day is in it, both ends of a non-empty interval are, and no day outside is |
| `Schedule.InWeek` | src/Schedule.tsx:212-217 | an event passes the filter test exactly when its start or its end lies in the week: one with only one boundary in the week passes, one lying wholly in the week passes, and one that starts before the week and ends after it fails |
| `Schedule.LegacyCellDrop` | src/Schedule.tsx:115-150 | the cell that `Schedule.tsx` renders takes every START or END drag, with no gate, and its drop result is the cell's own position; it refuses `Event` |
| `Schedule.LegacyCellTakesRefusedDrop` | src/Schedule.tsx:115-150 | that cell takes a start drag to day 5 of an event on days 2-4, which the `canDrop` of `components/Cell.tsx` refuses and which would leave the event starting after it ends |
| `Schedule.RowEvents` | src/Schedule.tsx:212-217 | every kept event starts or ends inside `[startWeek, endWeek]`, both ends inclusive; the result is no longer than the input |
| `Schedule.RowEventsMembers` | src/Schedule.tsx:199-217 | an event is kept if and only if it is in the input and its start or its end lies in the week |
| `Schedule.RowEventsAppend` | src/Schedule.tsx:212-217 | the filter keeps input order: filtering `a + b` gives the filtered `a` followed by the filtered `b` |
| `Schedule.RowEventsIdempotent` | src/Schedule.tsx:212-217 | filtering the filtered events changes nothing |
| `Schedule.StraddlingEventDropped` | src/Schedule.tsx:212-217 | an event that starts before the week and ends after it is never selected |
| `Schedule.EmptyRow` | src/Schedule.tsx:229 | a created row has seven slots, all null |
| `Schedule.Fits` | src/Schedule.tsx:231-234 | a row accepts the event exactly when both boundary offsets index the row and both slots there are null |
| `Schedule.Fill` | src/Schedule.tsx:237-239 | the filled row keeps its length; slots `offset .. offset + duration` hold the event and every other slot is unchanged |
| `Schedule.FitsReadsOnlyBoundaries` | src/Schedule.tsx:231-234 | whether a row accepts an event depends only on the slots at `start - startWeek` and `end - startWeek` |
| `Schedule.OutOfWeekNeverFits` | src/Schedule.tsx:231-235 | if a boundary offset is outside `0..6`, that slot reads `undefined`, which is not `null`; no existing or fresh row accepts the event, so the search never finds a row |
| `Schedule.FindRow` | src/Schedule.tsx:223-236 | the chosen row is the lowest row at or after the starting row whose two boundary slots are null; a missing row counts as seven nulls; the search stops by `|g|`, the first row that does not exist yet |
| `Schedule.PlaceEvent` | src/Schedule.tsx:223-241 | exactly slots `start - startWeek .. start - startWeek + duration` of the chosen row become the event; every other row and slot is unchanged; at most one row is added, and only when no existing row accepts; every row keeps seven slots |
| `Schedule.WeekRows` | src/Schedule.tsx:243-246 | the reduction from `{}` gives seven-slot rows, at most one row per event, and at least one row when there is an event |
| `Schedule.DisjointPlacementStep` | src/Schedule.tsx:228-239 | placing an event that shares no day with the events already in row 0 puts it in row 0 on exactly the days it spans, and every earlier event keeps exactly its own days |
| `Schedule.DisjointLastEventJoinsRowZero` | src/Schedule.tsx:243-246 | if the events before the last one lie in row 0, each on exactly its own days, then so does the whole layout after the last disjoint event is placed |
| `Schedule.DisjointEventsShareRowZero` | src/Schedule.tsx:223-246 | events that share no day, and whose `duration` is `end - start`, all land in row 0; every occupied slot holds an event spanning that day, and every event occupies every day it spans |
| `Schedule.DisjointEventsAllShown` | src/Schedule.tsx:223-246 | for such events, slot `k` of row 0 holds event `i` if and only if event `i` spans day `k`, so no event is lost |
| `Schedule.LiveSampleFirstWeek` | src/Schedule.tsx:72-77 | for the `events` array as it runs, with only event 3 live, the week 0-6 filter keeps nothing and `EventsRow` builds the empty grid `{}` |
| `Schedule.LiveSampleSecondWeek` | src/Schedule.tsx:72-77 | for the live array, the week 7-13 grid is one row in which event 3 fills days 2 to 4 |
| `Schedule.SampleFirstWeekFilter` | src/Schedule.tsx:72-77 | for the four events written at lines 73-76, three of them commented out, the week 0-6 filter keeps events 1, 2 and 4, in that order |
| `Schedule.SampleSecondWeekFilter` | src/Schedule.tsx:72-77 | for the four written events, three of them commented out, the week 7-13 filter keeps only event 3 |
| `Schedule.FirstWeekRows` | src/Schedule.tsx:237-239 | of the four written events (three commented out), event 2 (days 4-5, `duration` 2) lands in row 1 and fills days 4 to 6; event 4 shares row 1 |
| `Schedule.SampleFirstWeek` | src/Schedule.tsx:203-246 | the exact two-row grid `EventsRow` would build for the first week if all four events written at lines 73-76 were live; three of them are commented out |
| `Schedule.SecondWeekRows` | src/Schedule.tsx:243-246 | event 3 alone fills days 2 to 4 of row 0 of the second week |
| `Schedule.SampleSecondWeek` | src/Schedule.tsx:203-246 | the exact one-row grid `EventsRow` builds for the second week from the four written events, three of them commented out; it is the same as for the live array |
| `Schedule.LaterEventOverwritesEarlier` | src/Schedule.tsx:231-239 | an event on days 0-6 placed after one on days 2-4 goes into the same row and overwrites it; the earlier event is left in no slot |
| `Schedule.InputOrderDecidesRows` | src/Schedule.tsx:243-246 | the same two events need one row in one order and two rows in the other |
| `Schedule.EventGrid.constructor` | src/Schedule.tsx:243-246 | the reduction starts from an empty grid |
| `Schedule.EventGrid.CreateRow` | src/Schedule.tsx:228-230 | a missing row is added under the next key as seven nulls; existing keys keep their arrays |
| `Schedule.EventGrid.FillRow` | src/Schedule.tsx:237-239 | the loop writes the event into the fill slots of one row array, in place; nothing else changes |
| `Schedule.EventGrid.SearchRow` | src/Schedule.tsx:223-236 | the search run as a loop over the arrays returns exactly the row `FindRow` chooses, and changes nothing |
| `Schedule.EventGrid.FindRowForEvent` | src/Schedule.tsx:223-241 | it returns the row `FindRow` chooses and leaves the grid equal to `PlaceEvent` of the old grid; row keys stay `0 .. n-1`; old rows keep their arrays and any new array is fresh |
| `Schedule.ReduceStep` | src/Schedule.tsx:243-246 | the `reduce` callback, `findRowForEvent` on the next event, turns the grid of the first `n` events into the grid of the first `n + 1`, in place; any object it adds is fresh |
| `Schedule.ReduceWeekRows` | src/Schedule.tsx:243-246 | threading one mutable grid through the events in order yields `WeekRows` of those events |
| `Schedule.EventsRow` | src/Schedule.tsx:203-246 | the grid built for a week is `WeekRows` of the filtered events |
| `Cell.Accept` | src/components/Cell.tsx:23 | a cell accepts START and END drags and does not accept `Event` |
| `Cell.Drop` | src/components/Cell.tsx:24-26 | the drop result carries the cell's own position, unchanged |
| `Cell.CanDrop` | src/components/Cell.tsx:27-36 | a drop is allowed only for kinds in `accept`; it is allowed exactly when the drag is a start or end drag and moving that boundary to the cell leaves start strictly before end |
| `Cell.CanDropCases` | src/components/Cell.tsx:27-36 | START may drop if and only if `position < item.end`; END if and only if `position > item.start`; any other kind is refused |
| `EventItem.RenderCellEvents` | src/components/EventItem.tsx:104-130 | a null slot gives the placeholder; an event gives a start handle on its start day (tested first), an end handle on its end day otherwise, and a bar on any other day; every kind sits at `left = cellIndex * 80` and `top = (rowIndex + 1) * 24` |
| `EventItem.RenderAgreesWithLegacy` | src/Schedule.tsx:152-166 | the older `renderCellEvents` picks the same component for every slot and date |
| `EventItem.ZeroLengthEventShowsStartOnly` | src/components/EventItem.tsx:117-126 | an event with `start == end` gets a start handle on that day, and no day shows it as an end handle |
| `EventItem.MountHandle` | src/components/EventItem.tsx:30-102 | outside a `ScheduleContext` a handle throws; inside it, a start cell registers a START drag and an end cell an END drag, of that cell's event and at that cell's offsets |
| `EventItem.DragEnd` | src/components/EventItem.tsx:47-52 | `onEventChange(item, kind, position)` is called exactly when there is a drop result, with the handle's event and kind and the result's position; otherwise nothing is called (lines 84-89 are the same handler for END) |
| `EventItem.AllowedDropKeepsStartBeforeEnd` | src/components/Cell.tsx:27-36 | a handle dropped on a cell that allows it reports that cell's position for its own boundary, and the moved event starts strictly before it ends |
| `EventItem.PlacedEventRendering` | src/components/EventItem.tsx:104-130 | right after placement, the event's row shows a start handle at its start day, an end handle at its end day when the fill reaches it, and a bar on every other filled day |

## Left out

- The React component tree, `useState` and `useContext` plumbing, the react-dnd hooks and providers, styled-components CSS, the `isOver` highlight, and `console.log`. These are UI and library wrappers with no logic to model.
- `webpack.config.js`: build configuration.
- The body of `onEventChange` and the `ScheduleContext` value, and so any update of the event list. `src/components/EventItem.tsx` imports `ScheduleContext` from `src/Schedule.tsx` and calls `onEventChange` as a member of its value; that file does not define `ScheduleContext`, and it never calls `setEvents`. `EventItem.DragEnd` records the call's arguments as a value. `Cell.MovedBoundary` is only a way to state what the drop gate guarantees.
- The older `EventItemStart` and `EventItemEnd` in `src/Schedule.tsx` (79-113). They register the same drags as the handles of `src/components/EventItem.tsx`, and their `end` handlers only log. The older `renderCellEvents` is modelled as `Schedule.LegacyRenderCellEvents`, and the older `Cell` (115-150), which is the drop target `src/Schedule.tsx` renders at line 191, as `Schedule.LegacyCellDrop`. Its `isOver` highlight and logging are not modelled.
- EventItem.AllowedDropKeepsStartBeforeEnd: holds for the gated cell of `src/components/Cell.tsx`. The cell that `src/Schedule.tsx` renders has no gate, so there a drop can leave an event starting after it ends (`Schedule.LegacyCellTakesRefusedDrop`).
- EventItem.PlacedEventRendering: passes the row index as a number. The only row mapping in `src/Schedule.tsx` (line 250) takes it from `Object.entries`, which yields string keys, and no caller of `EventRowCell` in `src/components/EventItem.tsx` is part of this model; the lemma assumes the index reaches `top = (rowIndex + 1) * 24` as a number.
- The `if (!rowEvents) return null` branch in `src/Schedule.tsx`. An array is always truthy, so the branch is never taken.
- The mapping of `weekRows` to elements (`Object.entries`, lines 248-262). Only its cell date rule, `startWeek + cellIndex`, is used, in `EventItem.PlacedEventRendering`.
- JavaScript numbers are doubles. They are modelled as unbounded integers, because the code uses only small day indices and pixel offsets.
- Schedule.EventGrid.FindRowForEvent: requires both boundary offsets of the event to be in `0..6`. Otherwise the source never finds a row (see `Schedule.OutOfWeekNeverFits`): it adds empty rows until the engine's stack overflows and throws a `RangeError`.
- Schedule.EventGrid.FindRowForEvent: also requires `start - startWeek + duration <= 6`, because a longer fill would grow the JavaScript array past seven slots, which a fixed seven-slot array cannot show.
- Schedule.EventGrid.SearchRow: requires both boundary offsets of the event to be in `0..6`, for the same reason. The stack overflow is not modelled.
- Schedule.FindRow: requires both boundary offsets of the event to be in `0..6`, for the same reason.
- Schedule.PlaceEvent: requires both boundary offsets to be in `0..6` and `start - startWeek + duration <= 6`, as `FindRowForEvent` does.
- Schedule.WeekRows: requires every event to meet the two conditions of `PlaceEvent`.
- Schedule.ReduceWeekRows: requires every event to meet the two conditions of `PlaceEvent`.
- Schedule.ReduceStep: requires every event to meet the two conditions of `PlaceEvent`.
- Schedule.EventsRow: requires the same two conditions of every event the filter selects. On any selected event that crosses a week boundary, the source throws the stack-overflow `RangeError` described above.
- EventItem.MountHandle: the two handle components are one function of the cell kind, because they differ only in the drag kind they register.
