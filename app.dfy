/** The application shell: whether the event dialog is open and which event
    it edits, and the handlers that route the dialog's results to the store. */
module App {
  import opened JsDate
  import opened Types
  import opened Store
  import EventForm

  class AppState {
    var isEventFormOpen: bool
    var selectedEvent: Option<CalendarEvent>
    const store: CalendarStore

    /** The dialog starts closed with nothing selected. */
    constructor(store: CalendarStore)
      ensures isEventFormOpen == false && selectedEvent == None && this.store == store
    {
      isEventFormOpen := false;
      selectedEvent := None;
      this.store := store;
    }

    /** handleAddEvent: open the dialog for a new event. */
    method HandleAddEvent()
      modifies this
      ensures selectedEvent == None && isEventFormOpen
    {
      selectedEvent := None;
      isEventFormOpen := true;
    }

    /** handleEditEvent: open the dialog on the given event. */
    method HandleEditEvent(event: CalendarEvent)
      modifies this
      ensures selectedEvent == Some(event) && isEventFormOpen
    {
      selectedEvent := Some(event);
      isEventFormOpen := true;
    }

    /** handleEventSubmit: with a selection the store updates the event,
        otherwise it adds it under the store's fresh id; never both. The
        dialog closes and the selection stays. */
    method HandleEventSubmit(event: CalendarEvent, freshId: string)
      modifies this, store
      ensures selectedEvent.Some? ==> store.events == Updated(old(store.events), event)
      ensures selectedEvent.None? ==> store.events == Added(old(store.events), event, freshId)
      ensures store.selectedDate == old(store.selectedDate) && store.view == old(store.view)
      ensures !isEventFormOpen && selectedEvent == old(selectedEvent)
    {
      if selectedEvent.Some? {
        store.UpdateEvent(event);
      } else {
        store.AddEvent(event, freshId);
      }
      isEventFormOpen := false;
    }

    /** handleEventDelete: with a selection, delete every event with its id
        and close the dialog; without one, change nothing. */
    method HandleEventDelete()
      modifies this, store
      ensures old(selectedEvent).Some? ==>
        store.events == Deleted(old(store.events), old(selectedEvent).value.id) && !isEventFormOpen
      ensures old(selectedEvent).None? ==>
        store.events == old(store.events) && isEventFormOpen == old(isEventFormOpen)
      ensures store.selectedDate == old(store.selectedDate) && store.view == old(store.view)
      ensures selectedEvent == old(selectedEvent)
    {
      if selectedEvent.Some? {
        store.DeleteEvent(selectedEvent.value.id);
        isEventFormOpen := false;
      }
    }

    /** The dialog's onClose. */
    method CloseForm()
      modifies this
      ensures !isEventFormOpen && selectedEvent == old(selectedEvent)
    {
      isEventFormOpen := false;
    }

    /** The dialog's submit as wired here: the form's handler runs on its
        values with the selected event, hands the result to
        handleEventSubmit and then to onClose. An empty title submits
        nothing. */
    method SubmitForm(form: EventForm.FormState, formFreshId: string, storeFreshId: string)
      modifies this, store
      ensures var r := form.Submit(old(selectedEvent), formFreshId);
        (r.None? ==> store.events == old(store.events) && isEventFormOpen == old(isEventFormOpen))
        && (r.Some? && old(selectedEvent).Some? ==> store.events == Updated(old(store.events), r.value))
        && (r.Some? && old(selectedEvent).None? ==> store.events == Added(old(store.events), r.value, storeFreshId))
        && (r.Some? ==> !isEventFormOpen)
      ensures selectedEvent == old(selectedEvent)
      ensures store.selectedDate == old(store.selectedDate) && store.view == old(store.view)
    {
      var r := form.Submit(selectedEvent, formFreshId);
      if r.Some? {
        HandleEventSubmit(r.value, storeFreshId);
        CloseForm();
      }
    }

    /** The events listed beside the calendar: the store's events on the
        selected date. */
    function SideListEvents(): (r: seq<CalendarEvent>)
      reads this, store
      ensures forall x :: x in r <==> x in store.events && Day(x.start) == Day(store.selectedDate)
    {
      store.GetEventsForDay(store.selectedDate)
    }

    /** A delete handler is passed to the dialog only while an event is selected. */
    predicate DeleteOffered()
      reads this
    {
      selectedEvent.Some?
    }

    /** The dialog's delete button: shown exactly while an event is
        selected, since the dialog is given that event and the handler
        together. */
    predicate DeleteButtonShown()
      reads this
      ensures DeleteButtonShown() <==> selectedEvent.Some?
    {
      EventForm.DeleteShown(selectedEvent, DeleteOffered())
    }
  }

  /** Editing an event with a non-empty id and submitting the form's values
      replaces that stored event (every event with its id) by those values
      under the same id, and touches no other event. */
  lemma EditSubmitReplaces(es: seq<CalendarEvent>, selected: CalendarEvent, values: EventForm.FormValues, freshId: string)
    requires selected.id != ""
    ensures var submitted := EventForm.SubmittedEvent(values, Some(selected), freshId);
      var r := Updated(es, submitted);
      submitted.id == selected.id && |r| == |es|
      && forall i :: 0 <= i < |es| ==>
        r[i] == if es[i].id == selected.id then submitted else es[i]
  {
    UpdatedPointwise(es, EventForm.SubmittedEvent(values, Some(selected), freshId));
  }
}
