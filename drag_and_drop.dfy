/** The drag-and-drop hook: one slot holding the event being dragged. A drop
    moves the event so that it starts exactly at the drop target, and hands
    the moved event to the update callback, here the method's result. */
module DragAndDrop {
  import opened JsDate
  import opened Types
  import Cal

  /** handleDrop's updated event: the delta is measured from the event's own
      start, so the event starts at the target and keeps its duration; no
      other field changes. */
  function Retimed(event: CalendarEvent, targetDate: Date): (r: CalendarEvent)
    ensures r.start == targetDate
    ensures r.end.ms - r.start.ms == event.end.ms - event.start.ms
    ensures r.(start := event.start, end := event.end) == event
  {
    var sourceDate := event.start;
    var timeDiff := targetDate.ms - sourceDate.ms;
    Cal.Shifted(event, timeDiff)
  }

  /** Retiming to the event's own start changes nothing, and retiming twice
      is retiming to the last target. */
  lemma RetimedIdentityAndLast(event: CalendarEvent, t1: Date, t2: Date)
    ensures Retimed(event, event.start) == event
    ensures Retimed(Retimed(event, t1), t2) == Retimed(event, t2)
  {
  }

  class DragState {
    /** The event being dragged, None when no drag is in progress. */
    var draggedEvent: Option<CalendarEvent>

    constructor()
      ensures draggedEvent == None
    {
      draggedEvent := None;
    }

    /** handleDragStart: the slot holds the event, whatever it held before. */
    method HandleDragStart(event: CalendarEvent)
      modifies this
      ensures draggedEvent == Some(event)
    {
      draggedEvent := Some(event);
    }

    /** handleDrop: with an empty slot nothing happens and no update is made;
        otherwise the dragged event, retimed to the target, is the update
        and the slot is emptied. */
    method HandleDrop(targetDate: Date) returns (update: Option<CalendarEvent>)
      modifies this
      ensures old(draggedEvent).None? ==> update == None && draggedEvent == None
      ensures old(draggedEvent).Some? ==>
        update == Some(Retimed(old(draggedEvent).value, targetDate)) && draggedEvent == None
    {
      if draggedEvent.None? {
        return None;
      }
      var e := draggedEvent.value;
      update := Some(Retimed(e, targetDate));
      draggedEvent := None;
    }

    /** handleDragEnd: the slot is emptied and no update is made. */
    method HandleDragEnd()
      modifies this
      ensures draggedEvent == None
    {
      draggedEvent := None;
    }
  }
}
