/** The shapes shared by the calendar: events, the persisted calendar state,
    a rendered grid cell and a drag payload. */
module Types {
  import opened JsDate

  datatype Option<+T> = None | Some(value: T)

  /** An event. The optional fields are None when absent (undefined). `start`
      and `end` are held as Dates; the store's persisted text form of them
      is not part of this model. */
  datatype CalendarEvent = CalendarEvent(
    id: string,
    title: string,
    description: Option<string>,
    start: Date,
    end: Date,
    color: Option<string>,
    isAllDay: Option<bool>)

  /** One cell of the month grid. */
  datatype CalendarDay = CalendarDay(
    date: Date,
    events: seq<CalendarEvent>,
    isCurrentMonth: bool,
    isToday: bool)

  /** The calendar view: exactly one of month, week and day. */
  datatype View = MonthView | WeekView | DayView

  /** The whole persisted calendar state. */
  datatype CalendarState = CalendarState(
    events: seq<CalendarEvent>,
    selectedDate: Date,
    view: View)

  /** An event together with the grid day it is dragged from. */
  datatype DraggedEvent = DraggedEvent(event: CalendarEvent, sourceDate: Date)
}
