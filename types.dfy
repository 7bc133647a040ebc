/** The shared vocabulary of the calendar: drag item kinds, events, grid
    slots, and the four kinds of cell that a grid slot renders as. */
module Types {

  datatype Option<+T> = None | Some(value: T)

  /** The drag-and-drop item kinds. Only `Start` and `End` are ever dragged;
      `Event` exists in the enumeration but no component produces it. */
  datatype ItemType = Event | Start | End

  /** A calendar event. `start` and `end` are absolute day indices; `duration`
      is stored separately and is not checked against `end - start`. */
  datatype CalendarEvent = CalendarEvent(id: int, start: int, end: int, duration: int)

  /** One day slot of a grid row: an event, or JavaScript's `null`. */
  type Slot = Option<CalendarEvent>

  /** The contents of one grid row, one slot per day of the week. */
  type Row = seq<Slot>

  /** A week grid as a value: row `k` of the grid is element `k`. */
  type Rows = seq<Row>

  /** Number of day slots in a grid row (`Array(7)`). */
  const DaysInWeek: int := 7

  /** What a grid cell renders as. */
  datatype CellKind =
    | EmptyCellItem
    | EventItemStart(event: CalendarEvent)
    | EventItemEnd(event: CalendarEvent)
    | EventCellItem
}
