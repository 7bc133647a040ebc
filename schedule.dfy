/** The week layout of `src/Schedule.tsx`: the week filter, the greedy
    first-fit row search `findRowForEvent`, and the `reduce` that packs the
    filtered events of one week into a grid of seven-slot rows. */
module Schedule {
  import opened Types
  import Cell

  /** The older `renderCellEvents` at lines 152-166, which picks the cell
      component without computing any offsets. */
  function LegacyRenderCellEvents(slot: Slot, date: int): (k: CellKind)
    ensures k == EmptyCellItem <==> slot == None
    ensures k.EventItemStart? <==> (slot.Some? && slot.value.start == date)
    ensures k.EventItemEnd? <==> (slot.Some? && slot.value.start != date && slot.value.end == date)
    ensures k == EventCellItem <==> (slot.Some? && slot.value.start != date && slot.value.end != date)
    ensures (k.EventItemStart? || k.EventItemEnd?) ==> slot == Some(k.event)
  {
    if slot == None then EmptyCellItem
    else if slot.value.start == date then EventItemStart(slot.value)
    else if slot.value.end == date then EventItemEnd(slot.value)
    else EventCellItem
  }

  /** The older `Cell` at lines 115-150, which is the drop target that
      lines 191 and 295 render: it accepts the same kinds as the cell in
      `components/Cell.tsx` but has no `canDrop`, so every accepted drag
      drops, and its `drop` returns the cell's position. */
  function LegacyCellDrop(position: int, kind: ItemType): (r: Option<Cell.DropResult>)
    ensures r.Some? <==> kind != Event
    ensures r.Some? ==> kind in Cell.Accept()
    ensures r.Some? ==> r.value.position == position
  {
    match kind
    case Start => Some(Cell.DropResult(position))
    case End => Some(Cell.DropResult(position))
    case Event => None
  }

  /** The rendered cell takes a drop that the gate of `components/Cell.tsx`
      refuses: moving the start of an event on days 2-4 to day 5, which
      would leave it starting after it ends. */
  lemma LegacyCellTakesRefusedDrop()
    ensures var e := CalendarEvent(1, 2, 4, 2);
      && !Cell.CanDrop(5, Start, e)
      && LegacyCellDrop(5, Start) == Some(Cell.DropResult(5))
      && Cell.MovedBoundary(e, Start, 5).start > Cell.MovedBoundary(e, Start, 5).end
  {
  }

  // ---------------------------------------------------------------------
  // The week filter
  // ---------------------------------------------------------------------

  /** `isDayInInterval`: both ends of the interval are inclusive, and no
      day outside it, nor any day of an empty interval, is in it. */
  function IsDayInInterval(day: int, start: int, end: int): (b: bool)
    ensures start <= day <= end ==> b
    ensures start <= end && (day == start || day == end) ==> b
    ensures b ==> start <= day <= end
  {
    day >= start && day <= end
  }

  /** The `events.filter` test: the event starts or ends inside the week.
      An event that lies wholly in the week passes; one that starts before
      the week and ends after it does not. */
  function InWeek(e: CalendarEvent, startWeek: int, endWeek: int): (b: bool)
    ensures (startWeek <= e.start <= endWeek || startWeek <= e.end <= endWeek) ==> b
    ensures startWeek <= e.start <= e.end <= endWeek ==> b
    ensures e.start < startWeek && endWeek < e.end ==> !b
    ensures b ==> (startWeek <= e.start <= endWeek) || (startWeek <= e.end <= endWeek)
  {
    IsDayInInterval(e.start, startWeek, endWeek) || IsDayInInterval(e.end, startWeek, endWeek)
  }

  /** `rowEvents`: the events of the week, in input order. */
  function RowEvents(events: seq<CalendarEvent>, startWeek: int, endWeek: int): (r: seq<CalendarEvent>)
    ensures |r| <= |events|
    ensures forall i :: 0 <= i < |r| ==>
      (startWeek <= r[i].start <= endWeek) || (startWeek <= r[i].end <= endWeek)
  {
    if events == [] then []
    else
      (if InWeek(events[0], startWeek, endWeek) then [events[0]] else [])
      + RowEvents(events[1..], startWeek, endWeek)
  }

  /** The filter keeps exactly the events that start or end in the week. */
  lemma {:induction false} RowEventsMembers(events: seq<CalendarEvent>, startWeek: int, endWeek: int)
    ensures forall e :: e in RowEvents(events, startWeek, endWeek) <==> e in events && InWeek(e, startWeek, endWeek)
  {
    if events != [] {
      RowEventsMembers(events[1..], startWeek, endWeek);
      assert events == [events[0]] + events[1..];
    }
  }

  /** The filter keeps input order: filtering a concatenation is the
      concatenation of the filtered parts. */
  lemma {:induction false} RowEventsAppend(a: seq<CalendarEvent>, b: seq<CalendarEvent>, startWeek: int, endWeek: int)
    ensures RowEvents(a + b, startWeek, endWeek) == RowEvents(a, startWeek, endWeek) + RowEvents(b, startWeek, endWeek)
  {
    if a == [] {
      assert a + b == b;
    } else {
      assert (a + b)[0] == a[0];
      assert (a + b)[1..] == a[1..] + b;
      RowEventsAppend(a[1..], b, startWeek, endWeek);
    }
  }

  /** Filtering twice is filtering once. */
  lemma {:induction false} RowEventsIdempotent(events: seq<CalendarEvent>, startWeek: int, endWeek: int)
    ensures RowEvents(RowEvents(events, startWeek, endWeek), startWeek, endWeek) == RowEvents(events, startWeek, endWeek)
  {
    if events != [] {
      var head := if InWeek(events[0], startWeek, endWeek) then [events[0]] else [];
      var tail := RowEvents(events[1..], startWeek, endWeek);
      RowEventsAppend(head, tail, startWeek, endWeek);
      RowEventsIdempotent(events[1..], startWeek, endWeek);
      if head != [] {
        assert head[1..] == [];
      }
    }
  }

  /** An event that starts before the week and ends after it is dropped,
      although it covers every day of the week. */
  lemma StraddlingEventDropped(events: seq<CalendarEvent>, e: CalendarEvent, startWeek: int, endWeek: int)
    requires e.start < startWeek && endWeek < e.end
    ensures e !in RowEvents(events, startWeek, endWeek)
  {
    RowEventsMembers(events, startWeek, endWeek);
  }

  // ---------------------------------------------------------------------
  // The row search as a specification on values
  // ---------------------------------------------------------------------

  /** A freshly created row: `Array(7).fill(null)`. */
  function EmptyRow(): (r: Row)
    ensures |r| == DaysInWeek && forall i :: 0 <= i < |r| ==> r[i] == None
  {
    [None, None, None, None, None, None, None]
  }

  /** Reading `row[i]` in JavaScript: `Some(slot)` when `i` indexes the row,
      `None` for the `undefined` that any other index reads. */
  function Read(row: Row, i: int): Option<Slot>
  {
    if 0 <= i < |row| then Some(row[i]) else None
  }

  /** The row accepts the event when the slots of both its boundary days
      read exactly `null` (the negation of the test at lines 231-234). */
  function Fits(row: Row, e: CalendarEvent, startWeek: int): (b: bool)
    ensures b <==> (&& 0 <= e.start - startWeek < |row| && row[e.start - startWeek] == None
                    && 0 <= e.end - startWeek < |row| && row[e.end - startWeek] == None)
  {
    Read(row, e.start - startWeek) == Some(None) && Read(row, e.end - startWeek) == Some(None)
  }

  /** The boundary test looks at the two boundary slots and at nothing else. */
  lemma FitsReadsOnlyBoundaries(r1: Row, r2: Row, e: CalendarEvent, startWeek: int)
    requires Read(r1, e.start - startWeek) == Read(r2, e.start - startWeek)
    requires Read(r1, e.end - startWeek) == Read(r2, e.end - startWeek)
    ensures Fits(r1, e, startWeek) <==> Fits(r2, e, startWeek)
  {
  }

  /** A boundary outside the week reads `undefined`, which is never `null`,
      so no row, existing or fresh, ever accepts such an event: the search
      never finds a row, and each further call adds one more empty row. */
  lemma OutOfWeekNeverFits(g: Rows, e: CalendarEvent, startWeek: int)
    requires WellFormed(g)
    requires !BoundariesInWeek(e, startWeek)
    ensures forall k :: 0 <= k < |g| ==> !Fits(g[k], e, startWeek)
    ensures !Fits(EmptyRow(), e, startWeek)
  {
  }

  /** Every row of the grid has seven slots. */
  predicate WellFormed(g: Rows)
  {
    forall k :: 0 <= k < |g| ==> |g[k]| == DaysInWeek
  }

  /** Both boundaries lie in the week: the row search then ends, at the
      latest on the fresh row it creates. */
  predicate BoundariesInWeek(e: CalendarEvent, startWeek: int)
  {
    && 0 <= e.start - startWeek < DaysInWeek
    && 0 <= e.end - startWeek < DaysInWeek
  }

  /** The event can be placed without the search failing or the fill
      writing past the seventh slot: both boundaries lie in the week and the
      fill `start - startWeek .. start - startWeek + duration` stays in it. */
  predicate Placeable(e: CalendarEvent, startWeek: int)
  {
    && BoundariesInWeek(e, startWeek)
    && e.start - startWeek + e.duration < DaysInWeek
  }

  /** `grid[row]`, with a missing row read as the seven nulls it is created as. */
  function RowAt(g: Rows, row: nat): Row
  {
    if row < |g| then g[row] else EmptyRow()
  }

  /** `findRowForEvent(event, grid, row)`'s choice of row: the first row from
      `row` on that accepts the event. A row past the last one is fresh and
      always accepts a placeable event, so the search ends at `|g|` at the
      latest. */
  function FindRow(g: Rows, e: CalendarEvent, startWeek: int, row: nat): (r: nat)
    requires WellFormed(g) && BoundariesInWeek(e, startWeek) && row <= |g|
    decreases |g| - row
    ensures row <= r <= |g|
    ensures Fits(RowAt(g, r), e, startWeek)
    ensures forall k :: row <= k < r ==> !Fits(g[k], e, startWeek)
  {
    if Fits(RowAt(g, row), e, startWeek) then row
    else FindRow(g, e, startWeek, row + 1)
  }

  /** Slot `i` of `row` after the fill of `e` from `offset`. */
  function FilledSlot(row: Row, e: CalendarEvent, offset: int, i: int): Slot
    requires 0 <= i < |row|
  {
    if offset <= i <= offset + e.duration then Some(e) else row[i]
  }

  /** The `for` loop at lines 237-239: slots `offset .. offset + duration`
      receive the event (none when `duration` is negative). */
  function Fill(row: Row, e: CalendarEvent, offset: int): (r: Row)
    requires 0 <= offset && offset + e.duration < |row|
    ensures |r| == |row|
    ensures forall i :: offset <= i <= offset + e.duration ==> r[i] == Some(e)
    ensures forall i :: 0 <= i < |row| && !(offset <= i <= offset + e.duration) ==> r[i] == row[i]
  {
    seq(|row|, i requires 0 <= i < |row| => FilledSlot(row, e, offset, i))
  }

  /** A filled seven-slot row, slot by slot. */
  lemma FillSeven(row: Row, e: CalendarEvent, offset: int)
    requires |row| == DaysInWeek && 0 <= offset && offset + e.duration < DaysInWeek
    ensures Fill(row, e, offset) ==
      [ FilledSlot(row, e, offset, 0), FilledSlot(row, e, offset, 1), FilledSlot(row, e, offset, 2),
        FilledSlot(row, e, offset, 3), FilledSlot(row, e, offset, 4), FilledSlot(row, e, offset, 5),
        FilledSlot(row, e, offset, 6) ]
  {
  }

  /** One call `findRowForEvent(event, grid)`: the event goes into the lowest
      row whose boundary slots are null; exactly the fill slots of that row
      change; a new row is added only when no existing row accepts. */
  function PlaceEvent(g: Rows, e: CalendarEvent, startWeek: int): (g': Rows)
    requires WellFormed(g) && Placeable(e, startWeek)
    ensures WellFormed(g')
    ensures |g'| == |g| || (|g'| == |g| + 1 && forall k :: 0 <= k < |g| ==> !Fits(g[k], e, startWeek))
    ensures var r := FindRow(g, e, startWeek, 0);
      && r < |g'|
      && (forall k :: 0 <= k < |g'| && k != r ==> g'[k] == g[k])
      && (forall i :: 0 <= i < DaysInWeek ==>
            g'[r][i] == if e.start - startWeek <= i <= e.start - startWeek + e.duration
                        then Some(e) else RowAt(g, r)[i])
  {
    var r := FindRow(g, e, startWeek, 0);
    var filled := Fill(RowAt(g, r), e, e.start - startWeek);
    if r < |g| then g[r := filled] else g + [filled]
  }

  /** The events of `es` can all be placed. */
  predicate AllPlaceable(es: seq<CalendarEvent>, startWeek: int)
  {
    forall i :: 0 <= i < |es| ==> Placeable(es[i], startWeek)
  }

  /** `weekRows`: the `reduce` over the week's events, from the empty grid,
      placing the events one at a time in their given order (no sorting). */
  function WeekRows(es: seq<CalendarEvent>, startWeek: int): (g: Rows)
    requires AllPlaceable(es, startWeek)
    decreases |es|
    ensures WellFormed(g)
    ensures |g| <= |es|
    ensures es != [] ==> |g| >= 1
  {
    if es == [] then []
    else PlaceEvent(WeekRows(es[..|es| - 1], startWeek), es[|es| - 1], startWeek)
  }

  /** Every event of the week can be placed. */
  lemma RowEventsPlaceable(events: seq<CalendarEvent>, startWeek: int, endWeek: int)
    requires WeekPlaceable(events, startWeek, endWeek)
    ensures AllPlaceable(RowEvents(events, startWeek, endWeek), startWeek)
  {
  }

  /** The `reduce` after `n + 1` events is one more placement after `n`. */
  lemma WeekRowsStep(es: seq<CalendarEvent>, n: nat, startWeek: int)
    requires AllPlaceable(es, startWeek) && n < |es|
    ensures AllPlaceable(es[..n], startWeek) && AllPlaceable(es[..n + 1], startWeek)
    ensures WeekRows(es[..n + 1], startWeek) == PlaceEvent(WeekRows(es[..n], startWeek), es[n], startWeek)
  {
    assert es[..n + 1][..n] == es[..n];
  }

  /** What `EventsRow` lays out for one week. */
  function EventsRowLayout(events: seq<CalendarEvent>, startWeek: int, endWeek: int): Rows
    requires WeekPlaceable(events, startWeek, endWeek)
  {
    RowEventsPlaceable(events, startWeek, endWeek);
    WeekRows(RowEvents(events, startWeek, endWeek), startWeek)
  }

  /** Every event the filter selects can be placed. */
  predicate WeekPlaceable(events: seq<CalendarEvent>, startWeek: int, endWeek: int)
  {
    forall e :: e in events && InWeek(e, startWeek, endWeek) ==> Placeable(e, startWeek)
  }

  // ---------------------------------------------------------------------
  // Properties of the packed week
  // ---------------------------------------------------------------------

  /** Day offset `k` of the week lies between the boundaries of `e`. */
  predicate Spans(e: CalendarEvent, startWeek: int, k: int)
  {
    e.start - startWeek <= k <= e.end - startWeek
  }

  /** The grid is a single row 0 (none when there are no events), slot `k`
      of which holds an event of `es` spanning day `k` when it is occupied,
      and holds event `es[i]` on every day that `es[i]` spans. */
  ghost predicate RowZeroExact(g: Rows, es: seq<CalendarEvent>, startWeek: int)
    requires WellFormed(g)
  {
    && |g| <= 1
    && (es != [] ==> |g| == 1)
    && (|g| == 1 ==> forall k :: 0 <= k < DaysInWeek && g[0][k] != None ==>
          exists i :: 0 <= i < |es| && g[0][k] == Some(es[i]) && Spans(es[i], startWeek, k))
    && (|g| == 1 ==> forall i, k :: 0 <= i < |es| && 0 <= k < DaysInWeek && Spans(es[i], startWeek, k) ==>
          g[0][k] == Some(es[i]))
  }

  /** Events whose stored duration is their length and that share no day. */
  predicate DisjointConsistent(es: seq<CalendarEvent>)
  {
    && (forall i :: 0 <= i < |es| ==> es[i].start <= es[i].end && es[i].duration == es[i].end - es[i].start)
    && (forall i, j :: 0 <= i < j < |es| ==> es[i].end < es[j].start || es[j].end < es[i].start)
  }

  /** Placing an event that shares no day with the events already placed
      keeps everything in row 0, writes it on exactly the days it spans,
      and leaves every earlier event on its own days. */
  lemma DisjointPlacementStep(g: Rows, placed: seq<CalendarEvent>, e: CalendarEvent, startWeek: int)
    requires WellFormed(g) && Placeable(e, startWeek) && RowZeroExact(g, placed, startWeek)
    requires e.start <= e.end && e.duration == e.end - e.start
    requires forall i :: 0 <= i < |placed| ==> placed[i].end < e.start || e.end < placed[i].start
    ensures RowZeroExact(PlaceEvent(g, e, startWeek), placed + [e], startWeek)
  {
    var s, t := e.start - startWeek, e.end - startWeek;
    if |g| == 1 {
      forall k | k == s || k == t
        ensures g[0][k] == None
      {
        if g[0][k] != None {
          assert false;
        }
      }
      assert Fits(g[0], e, startWeek);
    }
    assert FindRow(g, e, startWeek, 0) == 0;
    var g' := PlaceEvent(g, e, startWeek);
    var all := placed + [e];
    forall k | 0 <= k < DaysInWeek && g'[0][k] != None
      ensures exists i :: 0 <= i < |all| && g'[0][k] == Some(all[i]) && Spans(all[i], startWeek, k)
    {
      if s <= k <= t {
        assert all[|placed|] == e;
      } else {
        var i :| 0 <= i < |placed| && g[0][k] == Some(placed[i]) && Spans(placed[i], startWeek, k);
        assert all[i] == placed[i];
      }
    }
    forall i, k | 0 <= i < |all| && 0 <= k < DaysInWeek && Spans(all[i], startWeek, k)
      ensures g'[0][k] == Some(all[i])
    {
      if i < |placed| {
        assert all[i] == placed[i];
      }
    }
  }

  /** Dropping the last event keeps the events placeable and disjoint, and
      the last event shares no day with the others. */
  lemma DisjointPrefix(es: seq<CalendarEvent>, startWeek: int)
    requires es != [] && AllPlaceable(es, startWeek) && DisjointConsistent(es)
    ensures var n := |es| - 1;
      && AllPlaceable(es[..n], startWeek) && DisjointConsistent(es[..n])
      && es[..n] + [es[n]] == es
      && Placeable(es[n], startWeek)
      && es[n].start <= es[n].end && es[n].duration == es[n].end - es[n].start
      && forall i :: 0 <= i < n ==> es[..n][i].end < es[n].start || es[n].end < es[..n][i].start
  {
  }

  /** One more disjoint event keeps the layout in row 0: the induction step
      of `DisjointEventsShareRowZero`. */
  lemma DisjointLastEventJoinsRowZero(es: seq<CalendarEvent>, startWeek: int)
    requires es != [] && AllPlaceable(es, startWeek) && DisjointConsistent(es)
    requires AllPlaceable(es[..|es| - 1], startWeek)
    requires RowZeroExact(WeekRows(es[..|es| - 1], startWeek), es[..|es| - 1], startWeek)
    ensures RowZeroExact(WeekRows(es, startWeek), es, startWeek)
  {
    var n := |es| - 1;
    var init := es[..n];
    DisjointPrefix(es, startWeek);
    DisjointPlacementStep(WeekRows(init, startWeek), init, es[n], startWeek);
    assert WeekRows(es, startWeek) == PlaceEvent(WeekRows(init, startWeek), es[n], startWeek);
  }

  /** Events that share no day (and whose durations are their lengths) all
      land in row 0, each on exactly the days it spans. */
  lemma {:induction false} DisjointEventsShareRowZero(es: seq<CalendarEvent>, startWeek: int)
    requires AllPlaceable(es, startWeek) && DisjointConsistent(es)
    ensures |WeekRows(es, startWeek)| <= 1
    ensures RowZeroExact(WeekRows(es, startWeek), es, startWeek)
    decreases |es|
  {
    if es != [] {
      DisjointPrefix(es, startWeek);
      DisjointEventsShareRowZero(es[..|es| - 1], startWeek);
      DisjointLastEventJoinsRowZero(es, startWeek);
    }
  }

  /** No disjoint event is lost: slot `k` of row 0 holds event `es[i]` if
      and only if `es[i]` spans day `k`. */
  lemma DisjointEventsAllShown(es: seq<CalendarEvent>, startWeek: int)
    requires AllPlaceable(es, startWeek) && DisjointConsistent(es) && es != []
    ensures |WeekRows(es, startWeek)| == 1
    ensures forall i, k :: 0 <= i < |es| && 0 <= k < DaysInWeek ==>
      (WeekRows(es, startWeek)[0][k] == Some(es[i]) <==> Spans(es[i], startWeek, k))
  {
    DisjointEventsShareRowZero(es, startWeek);
    var row := WeekRows(es, startWeek)[0];
    forall i, k | 0 <= i < |es| && 0 <= k < DaysInWeek && row[k] == Some(es[i])
      ensures Spans(es[i], startWeek, k)
    {
      var j :| 0 <= j < |es| && row[k] == Some(es[j]) && Spans(es[j], startWeek, k);
    }
  }

  /** Creating the chosen row when it is missing, then filling it, is
      `PlaceEvent`. */
  lemma GrowThenFill(g: Rows, e: CalendarEvent, startWeek: int, g': Rows)
    requires WellFormed(g) && Placeable(e, startWeek)
    requires var r := FindRow(g, e, startWeek, 0);
      var grown := if r < |g| then g else g + [EmptyRow()];
      g' == grown[r := Fill(RowAt(g, r), e, e.start - startWeek)]
    ensures g' == PlaceEvent(g, e, startWeek)
  {
  }

  // ---------------------------------------------------------------------
  // Worked layouts
  // ---------------------------------------------------------------------

  /** The sample events at lines 73-76 (three of them commented out there). */
  function SampleEvents(): seq<CalendarEvent>
  {
    [ CalendarEvent(1, 0, 5, 5), CalendarEvent(2, 4, 5, 2),
      CalendarEvent(4, 0, 2, 2), CalendarEvent(3, 9, 11, 2) ]
  }

  /** The `events` array as it stands at lines 73-76: only event 3 is live,
      the other three are commented out. */
  function LiveEvents(): seq<CalendarEvent>
  {
    [CalendarEvent(3, 9, 11, 2)]
  }

  /** With only event 3 live, the first week selects nothing and its grid
      is the empty `{}`. */
  lemma LiveSampleFirstWeek()
    ensures WeekPlaceable(LiveEvents(), 0, 6)
    ensures RowEvents(LiveEvents(), 0, 6) == []
    ensures EventsRowLayout(LiveEvents(), 0, 6) == []
  {
    assert LiveEvents()[1..] == [];
  }

  /** With only event 3 live, the second week is the one row that event 3
      fills on days 2 to 4. */
  lemma LiveSampleSecondWeek()
    ensures WeekPlaceable(LiveEvents(), 7, 13)
    ensures var e3 := LiveEvents()[0];
      EventsRowLayout(LiveEvents(), 7, 13) == [[None, None, Some(e3), Some(e3), Some(e3), None, None]]
  {
    assert LiveEvents()[1..] == [];
    assert RowEvents(LiveEvents(), 7, 13) == LiveEvents() == SampleEvents()[3..];
    SecondWeekRows();
  }

  /** The week 0-6 filter keeps the first three written sample events. */
  lemma SampleFirstWeekFilter()
    ensures var es := SampleEvents(); RowEvents(es, 0, 6) == es[..3]
  {
    var es := SampleEvents();
    var tail := es[3..];
    assert tail[1..] == [];
    assert RowEvents(tail, 0, 6) == [];
    var mid := es[2..];
    assert mid[1..] == tail;
    assert RowEvents(mid, 0, 6) == [es[2]];
    var mid2 := es[1..];
    assert mid2[1..] == mid;
    assert RowEvents(mid2, 0, 6) == [es[1], es[2]];
    assert es[1..] == mid2;
  }

  /** The week 7-13 filter keeps only event 3, the last sample event. */
  lemma SampleSecondWeekFilter()
    ensures var es := SampleEvents(); RowEvents(es, 7, 13) == es[3..]
  {
    var es := SampleEvents();
    var tail := es[3..];
    assert tail[1..] == [];
    assert RowEvents(tail, 7, 13) == tail;
    var mid := es[2..];
    assert mid[1..] == tail;
    assert RowEvents(mid, 7, 13) == tail;
    var mid2 := es[1..];
    assert mid2[1..] == mid;
    assert RowEvents(mid2, 7, 13) == tail;
    assert es[1..] == mid2;
  }

  /** Every sample event that touches week 0-6 or week 7-13 lies in it. */
  lemma SampleWeeksPlaceable()
    ensures WeekPlaceable(SampleEvents(), 0, 6) && WeekPlaceable(SampleEvents(), 7, 13)
  {
  }

  /** The first week of the sample: event 1 takes row 0; event 2 finds days
      4 and 5 taken there and goes to row 1, where its fill, driven by
      `duration` 2 rather than by `end - start` 1, runs on to day 6; event 4
      finds day 0 taken in row 0 and shares row 1 with event 2. */
  lemma SampleFirstWeek()
    ensures WeekPlaceable(SampleEvents(), 0, 6)
    ensures var e1, e2, e4 := SampleEvents()[0], SampleEvents()[1], SampleEvents()[2];
      EventsRowLayout(SampleEvents(), 0, 6) ==
        [ [Some(e1), Some(e1), Some(e1), Some(e1), Some(e1), Some(e1), None],
          [Some(e4), Some(e4), Some(e4), None, Some(e2), Some(e2), Some(e2)] ]
  {
    SampleWeeksPlaceable();
    SampleFirstWeekFilter();
    FirstWeekRows();
  }

  lemma FirstWeekRows()
    ensures var e1, e2, e4 := SampleEvents()[0], SampleEvents()[1], SampleEvents()[2];
      WeekRows(SampleEvents()[..3], 0) ==
        [ [Some(e1), Some(e1), Some(e1), Some(e1), Some(e1), Some(e1), None],
          [Some(e4), Some(e4), Some(e4), None, Some(e2), Some(e2), Some(e2)] ]
  {
    var e1, e2, e4 := CalendarEvent(1, 0, 5, 5), CalendarEvent(2, 4, 5, 2), CalendarEvent(4, 0, 2, 2);
    assert SampleEvents()[..3] == [e1, e2, e4];
    var g1 := WeekRows([e1], 0);
    assert g1 == [[Some(e1), Some(e1), Some(e1), Some(e1), Some(e1), Some(e1), None]] by {
      assert [e1][..0] == [];
      assert FindRow([], e1, 0, 0) == 0;
      FillSeven(EmptyRow(), e1, 0);
    }
    var g2 := WeekRows([e1, e2], 0);
    assert g2 == g1 + [[None, None, None, None, Some(e2), Some(e2), Some(e2)]] by {
      assert [e1, e2][..1] == [e1];
      assert FindRow(g1, e2, 0, 0) == 1;
      FillSeven(EmptyRow(), e2, 4);
    }
    assert [e1, e2, e4][..2] == [e1, e2];
    assert FindRow(g2, e4, 0, 0) == 1;
    FillSeven(g2[1], e4, 0);
  }

  /** The second week of the sample holds event 3 alone, in row 0. */
  lemma SampleSecondWeek()
    ensures WeekPlaceable(SampleEvents(), 7, 13)
    ensures var e3 := SampleEvents()[3];
      EventsRowLayout(SampleEvents(), 7, 13) == [[None, None, Some(e3), Some(e3), Some(e3), None, None]]
  {
    SampleWeeksPlaceable();
    SampleSecondWeekFilter();
    SecondWeekRows();
  }

  lemma SecondWeekRows()
    ensures var e3 := SampleEvents()[3];
      WeekRows(SampleEvents()[3..], 7) == [[None, None, Some(e3), Some(e3), Some(e3), None, None]]
  {
    var e3 := CalendarEvent(3, 9, 11, 2);
    assert SampleEvents()[3..] == [e3];
    assert [e3][..0] == [];
    assert FindRow([], e3, 7, 0) == 0;
    FillSeven(EmptyRow(), e3, 2);
  }

  /** Only boundary slots are tested, so a later event whose boundaries are
      free overwrites the middle of an earlier one: here event 1 disappears
      from the grid entirely, and two events that share days share a row. */
  lemma LaterEventOverwritesEarlier()
    ensures var a, b := CalendarEvent(1, 2, 4, 2), CalendarEvent(2, 0, 6, 6);
      && WeekRows([a, b], 0) == [[Some(b), Some(b), Some(b), Some(b), Some(b), Some(b), Some(b)]]
      && (forall k, i :: 0 <= k < |WeekRows([a, b], 0)| && 0 <= i < DaysInWeek ==> WeekRows([a, b], 0)[k][i] != Some(a))
  {
    var a, b := CalendarEvent(1, 2, 4, 2), CalendarEvent(2, 0, 6, 6);
    assert FindRow([], a, 0, 0) == 0;
    FillSeven(EmptyRow(), a, 2);
    var g1 := WeekRows([a], 0);
    assert g1 == [[None, None, Some(a), Some(a), Some(a), None, None]];
    assert [a, b][..1] == [a];
    assert Fits(g1[0], b, 0);
    assert FindRow(g1, b, 0, 0) == 0;
    FillSeven(g1[0], b, 0);
  }

  /** There is no sorting step: the same two events packed in the other
      order need two rows instead of one. */
  lemma InputOrderDecidesRows()
    ensures var a, b := CalendarEvent(1, 2, 4, 2), CalendarEvent(2, 0, 6, 6);
      |WeekRows([a, b], 0)| == 1 && |WeekRows([b, a], 0)| == 2
  {
  }

  // ---------------------------------------------------------------------
  // The grid as the source keeps it: a dictionary of seven-slot arrays
  // that `findRowForEvent` extends and overwrites in place
  // ---------------------------------------------------------------------

  /** `EventGrid`: row index to a seven-slot array. `Contents` is the grid
      as a value, row `k` being `Contents[k]`. */
  class EventGrid {
    var grid: map<int, array<Slot>>
    ghost var Contents: Rows
    ghost var Repr: set<object>

    /** Row keys are exactly `0 .. |Contents| - 1`, every row has seven
        slots, and no two keys share an array. */
    ghost predicate Valid()
      reads this, Repr
    {
      && this in Repr
      && (forall k :: k in grid <==> 0 <= k < |Contents|)
      && (forall k :: k in grid ==> grid[k] in Repr && grid[k].Length == DaysInWeek && grid[k][..] == Contents[k])
      && (forall i, j :: i in grid && j in grid && i != j ==> grid[i] != grid[j])
    }

    /** The `{}` that the `reduce` starts from. */
    constructor ()
      ensures Valid() && fresh(Repr) && Contents == [] && grid == map[]
    {
      grid := map[];
      Contents := [];
      Repr := {this};
    }

    /** `grid[row] = Array(7).fill(null)`, for the first missing row. */
    method CreateRow(row: nat)
      requires Valid() && row == |Contents|
      modifies this
      ensures Valid()
      ensures Contents == old(Contents) + [EmptyRow()]
      ensures grid.Keys == old(grid.Keys) + {row}
      ensures forall k :: k in old(grid) ==> grid[k] == old(grid[k])
      ensures fresh(grid[row]) && Repr == old(Repr) + {grid[row]}
    {
      var created := new Slot[DaysInWeek](_ => None);
      assert created[..] == EmptyRow();
      grid := grid[row := created];
      Contents := Contents + [created[..]];
      Repr := Repr + {created};
    }

    /** The `for` loop at lines 237-239: `grid[row][i + offset] = event` for
        `i` from 0 to `duration` inclusive. */
    method FillRow(row: nat, event: CalendarEvent, offset: int)
      requires Valid() && row in grid
      requires 0 <= offset && offset + event.duration < DaysInWeek
      modifies this`Contents, grid[row]
      ensures Valid() && grid == old(grid)
      ensures Contents == old(Contents)[row := Fill(old(Contents)[row], event, offset)]
    {
      var lane := grid[row];
      ghost var before := lane[..];
      var i := 0;
      while i <= event.duration
        modifies lane
        invariant if event.duration >= 0 then 0 <= i <= event.duration + 1 else i == 0
        invariant forall j :: 0 <= j < DaysInWeek ==>
          lane[j] == if offset <= j < offset + i then Some(event) else before[j]
      {
        lane[offset + i] := Some(event);
        i := i + 1;
      }
      ghost var filled := Fill(before, event, offset);
      forall j | 0 <= j < DaysInWeek
        ensures lane[j] == filled[j]
      {
        assert filled[j] == if offset <= j <= offset + event.duration then Some(event) else before[j];
      }
      assert lane[..] == filled;
      Contents := Contents[row := lane[..]];
    }

    /** The row search of `findRowForEvent`, its tail recursion on `row + 1`
        run as a loop: rows are tried from 0 on, and the first row that is
        missing or has null at both boundary slots is the answer. */
    method SearchRow(event: CalendarEvent, startWeek: int) returns (row: nat)
      requires Valid() && BoundariesInWeek(event, startWeek)
      ensures row == FindRow(Contents, event, startWeek, 0)
    {
      var s, t := event.start - startWeek, event.end - startWeek;
      row := 0;
      while row in grid && (grid[row][s] != None || grid[row][t] != None)
        invariant row <= |Contents|
        invariant FindRow(Contents, event, startWeek, row) == FindRow(Contents, event, startWeek, 0)
        decreases |Contents| - row
      {
        row := row + 1;
      }
      if row < |Contents| {
        assert Fits(Contents[row], event, startWeek);
      }
    }

    /** `findRowForEvent(event, grid)`: the row search, then a missing row
        is created as seven nulls and the event is written into the chosen
        row. Existing rows keep their arrays. The source returns `grid`,
        the very object it was given, which here is `this`; the method
        returns the chosen row index instead. */
    method FindRowForEvent(event: CalendarEvent, startWeek: int) returns (row: nat)
      requires Valid() && Placeable(event, startWeek)
      modifies Repr
      ensures Valid() && (forall o :: o in Repr ==> o in old(Repr) || fresh(o))
      ensures row == FindRow(old(Contents), event, startWeek, 0)
      ensures Contents == PlaceEvent(old(Contents), event, startWeek)
      ensures forall k :: k in old(grid) ==> k in grid && grid[k] == old(grid[k])
    {
      row := SearchRow(event, startWeek);
      ghost var g := Contents;
      if row !in grid {
        CreateRow(row);
      }
      ghost var grown := Contents;
      assert grown == if row < |g| then g else g + [EmptyRow()];
      assert grown[row] == RowAt(g, row);
      FillRow(row, event, event.start - startWeek);
      assert Contents == grown[row := Fill(RowAt(g, row), event, event.start - startWeek)];
      GrowThenFill(g, event, startWeek, Contents);
    }
  }

  /** The callback of the `reduce` at lines 243-246, `(res, event) =>
      findRowForEvent(event, res)`, applied to the next event `es[n]`: the
      grid of the first `n` events becomes the grid of the first `n + 1`. */
  method ReduceStep(weekRows: EventGrid, es: seq<CalendarEvent>, n: nat, startWeek: int)
    requires AllPlaceable(es, startWeek) && n < |es|
    requires weekRows.Valid() && AllPlaceable(es[..n], startWeek)
    requires weekRows.Contents == WeekRows(es[..n], startWeek)
    modifies weekRows.Repr
    ensures weekRows.Valid() && (forall o :: o in weekRows.Repr ==> o in old(weekRows.Repr) || fresh(o))
    ensures AllPlaceable(es[..n + 1], startWeek)
    ensures weekRows.Contents == WeekRows(es[..n + 1], startWeek)
  {
    WeekRowsStep(es, n, startWeek);
    var _ := weekRows.FindRowForEvent(es[n], startWeek);
  }

  /** The `reduce` at lines 243-246: each event, in order, is placed by
      `findRowForEvent` into one grid that starts as `{}`. */
  method ReduceWeekRows(rowEvents: seq<CalendarEvent>, startWeek: int) returns (weekRows: EventGrid)
    requires AllPlaceable(rowEvents, startWeek)
    ensures weekRows.Valid() && fresh(weekRows.Repr)
    ensures weekRows.Contents == WeekRows(rowEvents, startWeek)
  {
    weekRows := new EventGrid();
    for n := 0 to |rowEvents|
      invariant fresh(weekRows.Repr) && weekRows.Valid()
      invariant AllPlaceable(rowEvents[..n], startWeek)
      invariant weekRows.Contents == WeekRows(rowEvents[..n], startWeek)
    {
      ReduceStep(weekRows, rowEvents, n, startWeek);
    }
    assert rowEvents[..|rowEvents|] == rowEvents;
  }

  /** `EventsRow`'s layout: the week's events, filtered, then reduced. */
  method EventsRow(startWeek: int, endWeek: int, events: seq<CalendarEvent>) returns (weekRows: EventGrid)
    requires WeekPlaceable(events, startWeek, endWeek)
    ensures weekRows.Valid() && fresh(weekRows.Repr)
    ensures weekRows.Contents == EventsRowLayout(events, startWeek, endWeek)
  {
    var rowEvents := RowEvents(events, startWeek, endWeek);
    RowEventsPlaceable(events, startWeek, endWeek);
    weekRows := ReduceWeekRows(rowEvents, startWeek);
  }
}
