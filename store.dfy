/** The calendar store (the useCalendar hook): the list of events, the
    selected date and the view, with operations that each replace one of
    them. The new values come from the pure list operations below. */
module Store {
  import opened JsDate
  import opened Types
  import opened DateUtils

  /** The ids of a list of events, in order. */
  function Ids(es: seq<CalendarEvent>): (r: seq<string>)
    ensures |r| == |es|
    ensures forall i :: 0 <= i < |es| ==> r[i] == es[i].id
  {
    if es == [] then [] else [es[0].id] + Ids(es[1..])
  }

  /** No id occurs twice. */
  predicate UniqueIds(es: seq<CalendarEvent>) {
    forall i, j :: 0 <= i < j < |es| ==> es[i].id != es[j].id
  }

  // ---------------------------------------------------------------- add

  /** addEvent's new list: the event appended with the fresh id in place of
      whatever id it carried. */
  function Added(es: seq<CalendarEvent>, event: CalendarEvent, freshId: string): seq<CalendarEvent> {
    es + [event.(id := freshId)]
  }

  /** Adding keeps every earlier event in place, appends exactly one event,
      and that event is the given one under the fresh id. */
  lemma AddedShape(es: seq<CalendarEvent>, event: CalendarEvent, freshId: string)
    ensures |Added(es, event, freshId)| == |es| + 1
    ensures Added(es, event, freshId)[..|es|] == es
    ensures var last := Added(es, event, freshId)[|es|];
      last.id == freshId && last.(id := event.id) == event
  {
  }

  /** With a fresh id that is not yet in use, ids stay unique. */
  lemma AddedKeepsUnique(es: seq<CalendarEvent>, event: CalendarEvent, freshId: string)
    requires UniqueIds(es) && freshId !in Ids(es)
    ensures UniqueIds(Added(es, event, freshId))
  {
    var r := Added(es, event, freshId);
    forall i, j | 0 <= i < j < |r|
      ensures r[i].id != r[j].id
    {
      if j == |es| {
        assert Ids(es)[i] == r[i].id;
      }
    }
  }

  // ------------------------------------------------------------- update

  /** updateEvent's new list: every event whose id matches is replaced by
      the given one. */
  function Updated(es: seq<CalendarEvent>, event: CalendarEvent): seq<CalendarEvent> {
    if es == [] then []
    else [if es[0].id == event.id then event else es[0]] + Updated(es[1..], event)
  }

  /** Updating keeps the length and the order: position i holds the given
      event when the id at i matches, and the old event otherwise. */
  lemma {:induction false} UpdatedPointwise(es: seq<CalendarEvent>, event: CalendarEvent)
    ensures |Updated(es, event)| == |es|
    ensures forall i :: 0 <= i < |es| ==>
      Updated(es, event)[i] == if es[i].id == event.id then event else es[i]
  {
    if es != [] {
      UpdatedPointwise(es[1..], event);
      var r := Updated(es, event);
      forall i | 0 < i < |es|
        ensures r[i] == if es[i].id == event.id then event else es[i]
      {
        assert r[i] == Updated(es[1..], event)[i - 1];
        assert es[1..][i - 1] == es[i];
      }
    }
  }

  /** Updating changes no id, so it cannot break their uniqueness. */
  lemma UpdatedIds(es: seq<CalendarEvent>, event: CalendarEvent)
    ensures Ids(Updated(es, event)) == Ids(es)
    ensures UniqueIds(es) ==> UniqueIds(Updated(es, event))
  {
    UpdatedPointwise(es, event);
  }

  /** An id that is not in the list leaves it as it was. */
  lemma UpdatedUnknownId(es: seq<CalendarEvent>, event: CalendarEvent)
    requires event.id !in Ids(es)
    ensures Updated(es, event) == es
  {
    UpdatedPointwise(es, event);
    var r := Updated(es, event);
    forall i | 0 <= i < |es|
      ensures r[i] == es[i]
    {
      assert Ids(es)[i] == es[i].id;
    }
  }

  /** With unique ids, updating the id stored at i replaces that one event
      and no other. */
  lemma UpdatedUniqueAt(es: seq<CalendarEvent>, event: CalendarEvent, i: int)
    requires UniqueIds(es) && 0 <= i < |es| && es[i].id == event.id
    ensures Updated(es, event) == es[i := event]
  {
    UpdatedPointwise(es, event);
  }

  /** A known id makes the given event part of the list. */
  lemma UpdatedKnownId(es: seq<CalendarEvent>, event: CalendarEvent)
    requires event.id in Ids(es)
    ensures event in Updated(es, event)
  {
    UpdatedPointwise(es, event);
    var i :| 0 <= i < |es| && Ids(es)[i] == event.id;
    assert Updated(es, event)[i] == event;
  }

  // ------------------------------------------------------------- delete

  /** deleteEvent's new list: the events whose id differs, in order. */
  function Deleted(es: seq<CalendarEvent>, eventId: string): seq<CalendarEvent> {
    if es == [] then []
    else (if es[0].id != eventId then [es[0]] else []) + Deleted(es[1..], eventId)
  }

  /** An event survives a delete exactly when it was there and has another id. */
  lemma {:induction false} DeletedMembers(es: seq<CalendarEvent>, eventId: string)
    ensures forall x :: x in Deleted(es, eventId) <==> x in es && x.id != eventId
  {
    if es != [] {
      DeletedMembers(es[1..], eventId);
      assert es == [es[0]] + es[1..];
    }
  }

  /** The survivors keep their relative order: deleting from a concatenation
      deletes from each part. */
  lemma {:induction false} DeletedAppend(a: seq<CalendarEvent>, b: seq<CalendarEvent>, eventId: string)
    ensures Deleted(a + b, eventId) == Deleted(a, eventId) + Deleted(b, eventId)
  {
    if a == [] {
      assert a + b == b;
    } else {
      assert (a + b)[1..] == a[1..] + b;
      DeletedAppend(a[1..], b, eventId);
    }
  }

  /** Deleting an id that is not in the list changes nothing. */
  lemma {:induction false} DeletedUnknownId(es: seq<CalendarEvent>, eventId: string)
    requires eventId !in Ids(es)
    ensures Deleted(es, eventId) == es
  {
    if es != [] {
      assert Ids(es)[0] == es[0].id;
      assert eventId !in Ids(es[1..]) by {
        forall k | 0 <= k < |es| - 1
          ensures Ids(es[1..])[k] != eventId
        {
          assert Ids(es[1..])[k] == es[k + 1].id == Ids(es)[k + 1];
        }
      }
      DeletedUnknownId(es[1..], eventId);
      assert es == [es[0]] + es[1..];
    }
  }

  /** A list is its part before i, its event at i and its part after i. */
  lemma SplitAt(es: seq<CalendarEvent>, i: int)
    requires 0 <= i < |es|
    ensures es == es[..i] + [es[i]] + es[i + 1..]
  {
  }

  /** Deleting the id stored at i, when it occurs neither before nor after
      i, removes that one event and keeps the others in order. */
  lemma DeletedOnlyAt(es: seq<CalendarEvent>, i: int)
    requires 0 <= i < |es| && es[i].id !in Ids(es[..i]) && es[i].id !in Ids(es[i + 1..])
    ensures Deleted(es, es[i].id) == es[..i] + es[i + 1..]
  {
    var before, x, after := es[..i], es[i], es[i + 1..];
    var head := before + [x];
    SplitAt(es, i);
    DeletedAppend(head, after, x.id);
    DeletedAppend(before, [x], x.id);
    assert Deleted([x], x.id) == [] by {
      assert [x][1..] == [];
    }
    DeletedUnknownId(before, x.id);
    DeletedUnknownId(after, x.id);
    assert Deleted(head, x.id) == before by {
      assert before + [] == before;
    }
  }

  /** With unique ids, the id stored at i occurs neither before nor after i. */
  lemma UniqueAt(es: seq<CalendarEvent>, i: int)
    requires UniqueIds(es) && 0 <= i < |es|
    ensures es[i].id !in Ids(es[..i]) && es[i].id !in Ids(es[i + 1..])
  {
    var before, after := es[..i], es[i + 1..];
    forall k | 0 <= k < |before|
      ensures Ids(before)[k] != es[i].id
    {
      assert before[k] == es[k];
    }
    forall k | 0 <= k < |after|
      ensures Ids(after)[k] != es[i].id
    {
      assert after[k] == es[i + 1 + k];
    }
  }

  /** With unique ids, deleting the id stored at i removes that one event
      and keeps the others in order. */
  lemma DeletedUniqueAt(es: seq<CalendarEvent>, i: int)
    requires UniqueIds(es) && 0 <= i < |es|
    ensures Deleted(es, es[i].id) == es[..i] + es[i + 1..]
  {
    UniqueAt(es, i);
    DeletedOnlyAt(es, i);
  }

  /** Deleting twice is deleting once. */
  lemma DeletedIdempotent(es: seq<CalendarEvent>, eventId: string)
    ensures Deleted(Deleted(es, eventId), eventId) == Deleted(es, eventId)
  {
    var r := Deleted(es, eventId);
    DeletedMembers(es, eventId);
    forall k | 0 <= k < |r|
      ensures Ids(r)[k] != eventId
    {
      assert r[k] in r;
    }
    DeletedUnknownId(r, eventId);
  }

  /** The events that survive a delete were all there before, in order; so a
      delete keeps unique ids unique. */
  lemma {:induction false} DeletedKeepsUnique(es: seq<CalendarEvent>, eventId: string)
    requires UniqueIds(es)
    ensures UniqueIds(Deleted(es, eventId))
  {
    if es != [] {
      var tail := es[1..];
      assert UniqueIds(tail) by {
        forall i, j | 0 <= i < j < |tail|
          ensures tail[i].id != tail[j].id
        {
          assert tail[i] == es[i + 1] && tail[j] == es[j + 1];
        }
      }
      DeletedKeepsUnique(tail, eventId);
      DeletedMembers(tail, eventId);
      var rest := Deleted(tail, eventId);
      assert Deleted(es, eventId) == (if es[0].id != eventId then [es[0]] else []) + rest;
      forall k | 0 <= k < |rest|
        ensures rest[k].id != es[0].id
      {
        assert rest[k] in tail;
        var j :| 0 <= j < |tail| && tail[j] == rest[k];
        assert es[j + 1] == rest[k];
      }
    }
  }

  // -------------------------------------------------------------- query

  /** getEventsForDay's filter: the events that start on the local day of
      `date`, in stored order. The end of an event plays no part. */
  function EventsOnDay(es: seq<CalendarEvent>, date: Date): seq<CalendarEvent> {
    if es == [] then []
    else (if IsSameDay(es[0].start, date) then [es[0]] else []) + EventsOnDay(es[1..], date)
  }

  /** An event is listed for a day exactly when it is stored and starts on
      that day, whatever its end and its time of day. */
  lemma {:induction false} EventsOnDayMembers(es: seq<CalendarEvent>, date: Date)
    ensures forall x :: x in EventsOnDay(es, date) <==> x in es && Day(x.start) == Day(date)
  {
    if es != [] {
      EventsOnDayMembers(es[1..], date);
      IsSameDayIffSameDayNumber(es[0].start, date);
      assert es == [es[0]] + es[1..];
    }
  }

  /** The listing keeps stored order: listing a concatenation lists each part. */
  lemma {:induction false} EventsOnDayAppend(a: seq<CalendarEvent>, b: seq<CalendarEvent>, date: Date)
    ensures EventsOnDay(a + b, date) == EventsOnDay(a, date) + EventsOnDay(b, date)
  {
    if a == [] {
      assert a + b == b;
    } else {
      assert (a + b)[1..] == a[1..] + b;
      EventsOnDayAppend(a[1..], b, date);
    }
  }

  /** After an add, a day lists what it listed before and, when the new
      event starts on that day, the new event once more at the end. */
  lemma AddedThenListed(es: seq<CalendarEvent>, event: CalendarEvent, freshId: string, date: Date)
    ensures EventsOnDay(Added(es, event, freshId), date)
      == EventsOnDay(es, date) + (if Day(event.start) == Day(date) then [event.(id := freshId)] else [])
  {
    EventsOnDayAppend(es, [event.(id := freshId)], date);
    IsSameDayIffSameDayNumber(event.start, date);
  }

  // -------------------------------------------------------------- store

  /** The store's state, held in three fields that the operations replace. */
  class CalendarStore {
    var events: seq<CalendarEvent>
    var selectedDate: Date
    var view: View

    /** The initial state: no events, today selected, month view. */
    constructor(now: Date)
      ensures State() == CalendarState([], now, MonthView)
      ensures Valid()
    {
      events := [];
      selectedDate := now;
      view := MonthView;
    }

    /** The whole state as one value. */
    function State(): CalendarState
      reads this
    {
      CalendarState(events, selectedDate, view)
    }

    /** The store never holds two events with one id. */
    predicate Valid()
      reads this
    {
      UniqueIds(events)
    }

    method AddEvent(event: CalendarEvent, freshId: string)
      modifies this
      ensures State() == old(State()).(events := Added(old(events), event, freshId))
      ensures old(Valid()) && freshId !in Ids(old(events)) ==> Valid()
    {
      if Valid() && freshId !in Ids(events) {
        AddedKeepsUnique(events, event, freshId);
      }
      events := Added(events, event, freshId);
    }

    method UpdateEvent(event: CalendarEvent)
      modifies this
      ensures State() == old(State()).(events := Updated(old(events), event))
      ensures old(Valid()) ==> Valid()
      ensures old(Valid()) ==> forall i :: 0 <= i < |old(events)| && old(events)[i].id == event.id ==>
        events == old(events)[i := event]
    {
      UpdatedIds(events, event);
      if Valid() {
        forall i | 0 <= i < |events| && events[i].id == event.id
          ensures Updated(events, event) == events[i := event]
        {
          UpdatedUniqueAt(events, event, i);
        }
      }
      events := Updated(events, event);
    }

    method DeleteEvent(eventId: string)
      modifies this
      ensures State() == old(State()).(events := Deleted(old(events), eventId))
      ensures old(Valid()) ==> Valid()
      ensures old(Valid()) ==> forall i :: 0 <= i < |old(events)| && old(events)[i].id == eventId ==>
        events == old(events)[..i] + old(events)[i + 1..]
    {
      if Valid() {
        DeletedKeepsUnique(events, eventId);
        forall i | 0 <= i < |events| && events[i].id == eventId
          ensures Deleted(events, eventId) == events[..i] + events[i + 1..]
        {
          DeletedUniqueAt(events, i);
        }
      }
      events := Deleted(events, eventId);
    }

    /** getEventsForDay: the stored events starting on date's local day. */
    function GetEventsForDay(date: Date): (r: seq<CalendarEvent>)
      reads this
      ensures forall x :: x in r <==> x in events && Day(x.start) == Day(date)
    {
      EventsOnDayMembers(events, date);
      EventsOnDay(events, date)
    }

    method SetSelectedDate(date: Date)
      modifies this
      ensures State() == old(State()).(selectedDate := date)
    {
      selectedDate := date;
    }

    method SetView(v: View)
      modifies this
      ensures State() == old(State()).(view := v)
    {
      view := v;
    }
  }
}
