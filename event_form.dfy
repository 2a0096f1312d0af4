/** The event dialog's form: its default values, the two effects that
    reload it, and the submit handler that picks the event id. The form
    library's field bookkeeping is reduced to one record of values. */
module EventForm {
  import opened JsDate
  import opened Types

  /** The values the form holds: every field of an event except its id. */
  datatype FormValues = FormValues(
    title: string,
    description: Option<string>,
    start: Date,
    end: Date,
    color: Option<string>,
    isAllDay: Option<bool>)

  const DefaultColor: string := "#3b82f6"

  /** getDefaultTimes: copies of `date` set to 09:00:00 and 10:00:00 on its
      own day, each keeping date's milliseconds; the end is one hour after
      the start. */
  function GetDefaultTimes(date: Date): (r: (Date, Date))
    ensures Day(r.0) == Day(date) && Day(r.1) == Day(date)
    ensures TimeInDay(r.0) == 9 * MsPerHour + date.ms % MsPerSecond
    ensures TimeInDay(r.1) == 10 * MsPerHour + date.ms % MsPerSecond
    ensures r.1.ms - r.0.ms == MsPerHour
  {
    SetHoursParts(date, 9, 0, 0);
    SetHoursParts(date, 10, 0, 0);
    var start := SetHours(date, 9, 0, 0);
    var end := SetHours(date, 10, 0, 0);
    (start, end)
  }

  /** The draft of a new event on `date`: empty title and description, the
      default times, the default colour, not all-day. */
  function NewDraft(date: Date): FormValues {
    var times := GetDefaultTimes(date);
    FormValues("", Some(""), times.0, times.1, Some(DefaultColor), Some(false))
  }

  /** The form values of an existing event. */
  function ValuesOf(event: CalendarEvent): FormValues {
    FormValues(event.title, event.description, event.start, event.end, event.color, event.isAllDay)
  }

  /** The values the form starts with: the event being edited, otherwise a
      new draft on the default date, or on `now` when there is none. */
  function InitialValues(event: Option<CalendarEvent>, defaultDate: Option<Date>, now: Date): FormValues {
    if event.Some? then ValuesOf(event.value)
    else NewDraft(if defaultDate.Some? then defaultDate.value else now)
  }

  /** onSubmitForm's event: the form's values under the edited event's id,
      or under a fresh id for a new event (or an edited one whose id is empty). */
  function SubmittedEvent(data: FormValues, event: Option<CalendarEvent>, freshId: string): (r: CalendarEvent)
    ensures event.Some? && event.value.id != "" ==> r.id == event.value.id
    ensures event.None? || event.value.id == "" ==> r.id == freshId
    ensures ValuesOf(r) == data
  {
    var id := if event.Some? && event.value.id != "" then event.value.id else freshId;
    CalendarEvent(id, data.title, data.description, data.start, data.end, data.color, data.isAllDay)
  }

  /** Submitting an unchanged edit gives back the edited event. */
  lemma SubmitUnchangedEdit(event: CalendarEvent, freshId: string)
    requires event.id != ""
    ensures SubmittedEvent(ValuesOf(event), Some(event), freshId) == event
  {
  }

  /** The delete button is shown only when an event is being edited and a
      delete handler was given. */
  predicate DeleteShown(event: Option<CalendarEvent>, onDeleteGiven: bool) {
    event.Some? && onDeleteGiven
  }

  /** The form's state. */
  class FormState {
    var values: FormValues

    /** The form with its initial values. */
    constructor(event: Option<CalendarEvent>, defaultDate: Option<Date>, now: Date)
      ensures values == InitialValues(event, defaultDate, now)
    {
      values := InitialValues(event, defaultDate, now);
    }

    /** The effect run when the default date changes: for a new event in an
        open form, move start and end to the default times of that date. */
    method SyncDefaultDate(event: Option<CalendarEvent>, defaultDate: Option<Date>, isOpen: bool)
      modifies this
      ensures event.None? && defaultDate.Some? && isOpen ==>
        var times := GetDefaultTimes(defaultDate.value);
        values == old(values).(start := times.0, end := times.1)
      ensures !(event.None? && defaultDate.Some? && isOpen) ==> values == old(values)
    {
      if event.None? && defaultDate.Some? && isOpen {
        var times := GetDefaultTimes(defaultDate.value);
        values := values.(start := times.0, end := times.1);
      }
    }

    /** The effect run on opening: reload the edited event, or else a new
        draft on the default date; with neither, keep the values. */
    method ResetOnOpen(event: Option<CalendarEvent>, defaultDate: Option<Date>, isOpen: bool)
      modifies this
      ensures isOpen && event.Some? ==> values == ValuesOf(event.value)
      ensures isOpen && event.None? && defaultDate.Some? ==> values == NewDraft(defaultDate.value)
      ensures !isOpen || (event.None? && defaultDate.None?) ==> values == old(values)
    {
      if isOpen {
        if event.Some? {
          values := ValuesOf(event.value);
        } else if defaultDate.Some? {
          values := NewDraft(defaultDate.value);
        }
      }
    }

    /** The colour picker's change handler. */
    method SetColor(color: string)
      modifies this
      ensures values == old(values).(color := Some(color))
    {
      values := values.(color := Some(color));
    }

    /** handleSubmit(onSubmitForm): an empty title fails the required-field
        check and nothing is submitted; otherwise the event to hand to
        onSubmit, after which the form is closed. Submitting leaves the
        values as they are. */
    function Submit(event: Option<CalendarEvent>, freshId: string): (r: Option<CalendarEvent>)
      reads this
      ensures r.None? <==> values.title == ""
      ensures r.Some? ==> ValuesOf(r.value) == values
    {
      if values.title == "" then None else Some(SubmittedEvent(values, event, freshId))
    }
  }
}
