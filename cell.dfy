/** The drop target of `src/components/Cell.tsx`: which drags a day cell
    accepts, whether a given drag may drop on it, and what a drop yields. */
module Cell {
  import opened Types

  /** `accept`: a cell takes start and end drags, and refuses `Event`. */
  function Accept(): (kinds: seq<ItemType>)
    ensures Start in kinds && End in kinds && Event !in kinds
  {
    [Start, End]
  }

  /** The non-null `CellDropResult`. */
  datatype DropResult = DropResult(position: int)

  /** `drop`: the result is the cell's own position, whatever was dropped. */
  function Drop(position: int, item: CalendarEvent): (r: DropResult)
    ensures r.position == position
  {
    DropResult(position)
  }

  /** The event as it reads once the dragged boundary is set to `position`
      (a plain `Event` drag moves nothing). Used to state what the drop gate
      guarantees; the update the application then performs is not part of
      this model. */
  function MovedBoundary(e: CalendarEvent, kind: ItemType, position: int): CalendarEvent
  {
    match kind
    case Start => e.(start := position)
    case End => e.(end := position)
    case Event => e
  }

  /** `canDrop`: a cell takes a start handle only before the event's end and
      an end handle only after its start; so a drop is allowed exactly when
      the drag is a boundary drag and moving that boundary to the cell
      leaves the event starting strictly before it ends. */
  function CanDrop(position: int, kind: ItemType, item: CalendarEvent): (ok: bool)
    ensures ok ==> kind in Accept()
    ensures ok <==> (kind != Event &&
      MovedBoundary(item, kind, position).start < MovedBoundary(item, kind, position).end)
  {
    match kind
    case Start => position < item.end
    case End => position > item.start
    case Event => false
  }

  /** The three arms of the `switch`. */
  lemma CanDropCases(position: int, item: CalendarEvent)
    ensures CanDrop(position, Start, item) <==> position < item.end
    ensures CanDrop(position, End, item) <==> position > item.start
    ensures !CanDrop(position, Event, item)
  {
  }
}
