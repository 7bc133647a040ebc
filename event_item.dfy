/** The cell contents of `src/components/EventItem.tsx`: which component a
    grid slot renders as and where, the start and end drag handles, and what
    a handle reports when its drag ends. */
module EventItem {
  import opened Types
  import Cell
  import Schedule

  /** Width of a day cell and height of a grid row, in pixels. */
  const CellWidth: int := 80
  const RowHeight: int := 24

  /** A rendered cell: the component chosen and its `left` and `top` offsets. */
  datatype CellItem = CellItem(kind: CellKind, left: int, top: int)

  /** `renderCellEvents(event, date, cellIndex, rowIndex)`: an empty slot is
      the placeholder; an event is a start handle on its start day (checked
      first), an end handle on its end day, and a bar on any other day.
      Every kind sits `cellIndex` cells right and `rowIndex + 1` rows down. */
  function RenderCellEvents(slot: Slot, date: int, cellIndex: int, rowIndex: int): (c: CellItem)
    ensures c.left == cellIndex * CellWidth && c.top == (rowIndex + 1) * RowHeight
    ensures c.kind == EmptyCellItem <==> slot == None
    ensures c.kind.EventItemStart? <==> (slot.Some? && slot.value.start == date)
    ensures c.kind.EventItemEnd? <==> (slot.Some? && slot.value.start != date && slot.value.end == date)
    ensures c.kind == EventCellItem <==> (slot.Some? && slot.value.start != date && slot.value.end != date)
    ensures (c.kind.EventItemStart? || c.kind.EventItemEnd?) ==> slot == Some(c.kind.event)
  {
    var left, top := cellIndex * CellWidth, (rowIndex + 1) * RowHeight;
    if slot == None then CellItem(EmptyCellItem, left, top)
    else if slot.value.start == date then CellItem(EventItemStart(slot.value), left, top)
    else if slot.value.end == date then CellItem(EventItemEnd(slot.value), left, top)
    else CellItem(EventCellItem, left, top)
  }

  /** The copy in `Schedule` picks the same component. */
  lemma RenderAgreesWithLegacy(slot: Slot, date: int, cellIndex: int, rowIndex: int)
    ensures RenderCellEvents(slot, date, cellIndex, rowIndex).kind == Schedule.LegacyRenderCellEvents(slot, date)
  {
  }

  /** A zero-length event on its day shows only a start handle. */
  lemma ZeroLengthEventShowsStartOnly(e: CalendarEvent, cellIndex: int, rowIndex: int)
    requires e.start == e.end
    ensures RenderCellEvents(Some(e), e.start, cellIndex, rowIndex).kind == EventItemStart(e)
    ensures forall date :: !RenderCellEvents(Some(e), date, cellIndex, rowIndex).kind.EventItemEnd?
  {
  }

  /** A mounted drag handle: the drag kind and item given to `useDrag`, and
      the button's offsets. */
  datatype DragHandle = DragHandle(kind: ItemType, item: CalendarEvent, left: int, top: int)

  datatype RenderError = NotInScheduleContext

  datatype Result<T> = Ok(value: T) | Err(error: RenderError)

  /** `EventItemStart` and `EventItemEnd`, which differ only in the drag kind
      they register: outside a `ScheduleContext` they throw; inside it they
      make the event draggable by the boundary the cell shows. */
  function MountHandle(inScheduleContext: bool, c: CellItem): (r: Result<DragHandle>)
    requires c.kind.EventItemStart? || c.kind.EventItemEnd?
    ensures r.Err? <==> !inScheduleContext
    ensures r.Ok? ==> r.value.item == c.kind.event && r.value.left == c.left && r.value.top == c.top
    ensures r.Ok? ==> (r.value.kind == Start <==> c.kind.EventItemStart?)
    ensures r.Ok? ==> (r.value.kind == End <==> c.kind.EventItemEnd?)
  {
    if !inScheduleContext then Err(NotInScheduleContext)
    else
      var kind := if c.kind.EventItemStart? then Start else End;
      Ok(DragHandle(kind, c.kind.event, c.left, c.top))
  }

  /** The arguments of one `context.onEventChange` call. */
  datatype EventChange = EventChange(item: CalendarEvent, kind: ItemType, position: int)

  /** The drag's `end` handler: with a drop result, one `onEventChange` of
      the dragged event, the handle's kind and the drop position; without
      one (the drag ended outside any cell, or on a refusing cell), none. */
  function DragEnd(h: DragHandle, dropResult: Option<Cell.DropResult>): (call: Option<EventChange>)
    ensures call.Some? <==> dropResult.Some?
    ensures call.Some? ==>
      call.value.item == h.item && call.value.kind == h.kind && call.value.position == dropResult.value.position
  {
    match dropResult
    case Some(result) => Some(EventChange(h.item, h.kind, result.position))
    case None => None
  }

  /** A boundary drag from a rendered handle onto a cell that allows it
      reports that cell's position for that boundary of that event, and
      moving the boundary there leaves the event starting before it ends. */
  lemma AllowedDropKeepsStartBeforeEnd(c: CellItem, position: int)
    requires c.kind.EventItemStart? || c.kind.EventItemEnd?
    requires var h := MountHandle(true, c).value; Cell.CanDrop(position, h.kind, h.item)
    ensures var h := MountHandle(true, c).value;
      && DragEnd(h, Some(Cell.Drop(position, h.item))) == Some(EventChange(c.kind.event, h.kind, position))
      && Cell.MovedBoundary(c.kind.event, h.kind, position).start < Cell.MovedBoundary(c.kind.event, h.kind, position).end
  {
  }

  /** How the placed event renders in its row (cell `i` shows day
      `startWeek + i`): a start handle on its start day, an end handle on
      its end day when the fill reaches it, and a bar on every other filled
      day. */
  lemma PlacedEventRendering(g: Rows, e: CalendarEvent, startWeek: int)
    requires Schedule.WellFormed(g) && Schedule.Placeable(e, startWeek) && e.duration >= 0
    ensures var r := Schedule.FindRow(g, e, startWeek, 0);
      var row := Schedule.PlaceEvent(g, e, startWeek)[r];
      var s := e.start - startWeek;
      && RenderCellEvents(row[s], startWeek + s, s, r) == CellItem(EventItemStart(e), s * CellWidth, (r + 1) * RowHeight)
      && (e.start < e.end <= e.start + e.duration ==>
            var t := e.end - startWeek;
            RenderCellEvents(row[t], startWeek + t, t, r).kind == EventItemEnd(e))
      && (forall i :: s < i <= s + e.duration && i != e.end - startWeek ==>
            RenderCellEvents(row[i], startWeek + i, i, r).kind == EventCellItem)
  {
  }
}
