# Chronos calendar — a verified Dafny model of its core

Chronos is a single-page month calendar. It shows a month grid with a
weather forecast and holidays on each day. Events can be created, edited,
deleted and dragged from one day to another, and the event list can be
exported as CSV. This project models the logic under that interface and
proves properties of it:

- **Dates.** The calendar arithmetic that the JavaScript `Date` built-in does
  for every getter and constructor the application calls: proleptic
  Gregorian day counting (`Civil`), and the parts of `Date` itself
  (`JsDate`): `new Date(y, m, d)` with month and day overflow and the
  two-digit-year rule, and the local getters, `setHours` and `toISOString`.
  A `Date` is held as its local wall-clock milliseconds under a fixed UTC
  offset with no daylight-saving changes.
- **Date utilities** (`DateUtils`): `getDaysInMonth`, `getCalendarDays` (the
  month grid) and `isSameDay`.
- **Event store** (`Store`): the calendar hook with its `events`,
  `selectedDate` and `view`. It is a class whose methods replace those
  fields. The new lists come from pure `Added`, `Updated`, `Deleted` and
  `EventsOnDay`.
- **Calendar view** (`Cal`): month navigation, the weekend and
  current-month flags, the events of each cell, and the drop handler that
  moves an event from one cell to another.
- **Drag hook** (`DragAndDrop`): the `draggedEvent` slot and its three
  handlers.
- **Event form** (`EventForm`): default times, the new-event draft, the two
  effects that reload the form, and the id chosen on submit.
- **Application shell** (`App`): the dialog's `isEventFormOpen` and
  `selectedEvent`, and the handlers that route a submit to update or add.
- **CSV export** (`ExportCsv`): the header, one line per event, and each
  cell wrapped in double quotes with nothing escaped.
- **Date keys** (`DateKeys`, `Holidays`, `Weather`): the unpadded
  `year-(month+1)-day` key, the constant holiday table, and the weather
  table that a loop fills day by day.

Calls the model cannot see become parameters:

- `crypto.randomUUID` becomes a `freshId` argument.
- `Math.random` becomes a sequence `draws` of reals in [0, 1), consumed two
  per day.
- `new Date()` becomes `now` or `today`.
- The local zone becomes `utcOffsetMs` (local time = UTC + offset).

Three behaviours of the code that a reader might expect to be otherwise:

- **Grid size.** The month grid is not a fixed 42 cells. It has weekday(1st)
  + n + 6 − weekday(last) cells, which is 28, 35 or 42
  (`DateUtils.CalendarGridWeeks`).
- **Unknown ids.** Updating or deleting an id that is not stored is a silent
  no-op. There is no "not found" error (`Store.UpdatedUnknownId`,
  `Store.DeletedUnknownId`).
- **Adding.** The store never rejects an event. Only the form's
  required-title rule stops an empty title, and it stops it before the store
  is reached (`EventForm.FormState.Submit`).

Behaviours of the code that the contracts make visible:

- **Years 0 to 99.** `new Date(y, m, d)` reads years 0 to 99 as 1900 to
  1999.
  - Navigation from such a year jumps into the 1900s. So "next, then
    previous" returns to the same month only outside those years
    (`Cal.NextThenPrevious`).
  - The weather keys keep the year as written while the grid is built in
    19xx. So no cell of such a month shows weather (`Weather.GridWeather`).
- **Month flag.** The current-month flag compares only the month index, not
  the year (`Cal.CurrentMonthIgnoresYear`).
- **CSV quotes.** The CSV does not escape quotes. Two different events can
  produce the same file (`ExportCsv.ExportIsAmbiguous`). When no cell holds a
  quote or a newline, the file determines every cell
  (`ExportCsv.ExportDeterminesCells`).

## Model

| member | source | states |
|---|---|---|
| Civil.DaysInMonth | src/utils/dateUtils.ts:4 | a month has 28 to 31 days, and 29 exactly for February of a leap year |
| Civil.CivilRoundTrip | src/utils/dateUtils.ts:6 | every valid year, month and day is the calendar date of its own day number (day numbers and dates correspond one to one) |
| Civil.MonthStartStep | src/utils/dateUtils.ts:17 | month starts with overflowing month indexes abut: month m + 1 starts right after month m's last day, across year ends too |
| JsDate.NewDateYmd | src/utils/dateUtils.ts:6 | `new Date(y, m, d)` for an in-range day is local midnight of exactly that date, with the month normalised and the year carried |
| JsDate.NewDate | src/utils/dateUtils.ts:6 | `new Date(y, m, d)`: month and day overflow carried, years 0 to 99 read as 1900 to 1999; specified by JsDate.NewDateYmd |
| JsDate.SameYmdIffSameDay | src/utils/dateUtils.ts:29-33 | two Dates have the same local year, month and day exactly when they fall on the same local day number |
| JsDate.LocalYmdDay | src/utils/dateUtils.ts:29-33 | a Date's local year, month and day rebuild its local day number, so the three getters together lose only the time of day |
| JsDate.GetFullYear | src/utils/dateUtils.ts:2 | `getFullYear`, the local year; specified by JsDate.LocalYmdDay and JsDate.SameYmdIffSameDay |
| JsDate.GetMonth | src/utils/dateUtils.ts:3 | `getMonth`, the local month from 0 to 11; specified by JsDate.LocalYmdDay and JsDate.SameYmdIffSameDay |
| JsDate.GetDate | src/utils/dateUtils.ts:4 | `getDate`, the local day of the month, from 1 to the month's length; specified by JsDate.LocalYmdDay and DateUtils.DayZeroIsLastDay |
| JsDate.GetDay | src/utils/dateUtils.ts:13-14 | `getDay`, the local weekday from 0 (Sunday) to 6; specified by DateUtils.CalendarGridWeekdays |
| JsDate.SetHoursParts | src/components/EventForm.tsx:30 | `setHours(h, min, s)` with a time that fits in the day keeps the day and sets the time of day to h:min:s plus the old milliseconds |
| JsDate.SetHours | src/components/EventForm.tsx:30 | `setHours(h, min, s)` on the date's local day, milliseconds kept; specified by JsDate.SetHoursParts |
| JsDate.IsoDateInjective | src/components/ExportButton.tsx:26-27 | for four-digit years the ISO date text determines the year, month and day |
| JsDate.IsoTimeInjective | src/components/ExportButton.tsx:26-27 | the HH:mm:ss.sss text determines its four fields |
| JsDate.IsoTextInjective | src/components/ExportButton.tsx:26-27 | the full ISO text of a date with a four-digit year and a time of day determines both |
| JsDate.UtcTextInjective | src/components/ExportButton.tsx:26-27 | between the years 0 and 9999, two UTC times have the same `toISOString` text exactly when they are equal |
| JsDate.ToIsoString | src/components/ExportButton.tsx:26-27 | the ISO rendering of a time holds no newline, double quote or comma |
| Decimal.FixedDigitsValue | src/components/ExportButton.tsx:26-27 | a number below 10^width reads back from its fixed-width, zero-padded digits |
| Decimal.NatToStringInjective | src/hooks/useHolidays.ts:16 | different numbers have different decimal texts |
| Decimal.IntToStringInjective | src/hooks/useHolidays.ts:16 | different integers, negative ones included, have different texts |
| DateUtils.DayZeroIsLastDay | src/utils/dateUtils.ts:4 | `new Date(y, m + 1, 0)` is the last day of month m, so its `getDate()` is the Gregorian length of the month |
| DateUtils.MonthDaysDates | src/utils/dateUtils.ts:1-7 | `getDaysInMonth` has one entry per day of the month's Gregorian length; entry i is midnight of day i + 1 of that year and month; the entries strictly ascend |
| DateUtils.MonthDays | src/utils/dateUtils.ts:3-6 | the days of one year and month; specified by DateUtils.MonthDaysDates and DateUtils.MonthDaysLayout |
| DateUtils.GetDaysInMonth | src/utils/dateUtils.ts:1-7 | `getDaysInMonth` on the date's local year and month; specified by DateUtils.MonthDaysDates |
| DateUtils.MonthDaysLayout | src/utils/dateUtils.ts:6 | the month's days are the local midnights of consecutive day numbers from the 1st |
| DateUtils.Reverse | src/utils/dateUtils.ts:18 | `reverse` keeps the length and puts element i at position length − 1 − i |
| DateUtils.LeadingDays | src/utils/dateUtils.ts:13 | the number of leading cells is the weekday of the 1st, between 0 and 6 |
| DateUtils.TrailingDays | src/utils/dateUtils.ts:14 | the number of trailing cells is 6 minus the weekday of the last day, between 0 and 6 |
| DateUtils.PreviousMonthDaysRun | src/utils/dateUtils.ts:16-18 | there are weekday(1st) leading days: those just before the 1st, in ascending order |
| DateUtils.PreviousMonthDays | src/utils/dateUtils.ts:16-18 | the leading days, built backwards from day 0 and reversed; specified by DateUtils.PreviousMonthDaysRun and DateUtils.CalendarGridLeading |
| DateUtils.NextMonthDaysCount | src/utils/dateUtils.ts:22 | there are 6 − weekday(last day) trailing days |
| DateUtils.NextMonthDaysRun | src/utils/dateUtils.ts:22-24 | the trailing days are the days right after the month's last day, in order |
| DateUtils.NextMonthDays | src/utils/dateUtils.ts:22-24 | the trailing days, days 1, 2, … of the following month; specified by DateUtils.NextMonthDaysCount and DateUtils.NextMonthDaysRun |
| DateUtils.CalendarGridLayout | src/utils/dateUtils.ts:9-27 | the grid has weekday(1st) + n + 6 − weekday(last) cells, and cell i is midnight of the grid's first day plus i |
| DateUtils.CalendarGrid | src/utils/dateUtils.ts:12-26 | the grid of one year and month; specified by DateUtils.CalendarGridLayout, CalendarGridWeeks and CalendarGridMonthBlock |
| DateUtils.GetCalendarDays | src/utils/dateUtils.ts:9-27 | `getCalendarDays` on the date's local year and month; specified by DateUtils.CalendarGridLayout |
| DateUtils.CalendarGridLength | src/utils/dateUtils.ts:13-26 | the grid's length is leading plus month plus trailing days |
| DateUtils.PaddedMonthWeeks | src/utils/dateUtils.ts:13-22 | padding a run of 28 to 31 days back to a Sunday and on to a Saturday gives 28, 35 or 42 days |
| DateUtils.CalendarGridWeeks | src/utils/dateUtils.ts:13-26 | the grid's length is a multiple of 7 and one of 28, 35 and 42 |
| DateUtils.CalendarGridContiguous | src/utils/dateUtils.ts:16-26 | every cell is a local midnight, each cell is the day after the one before (across month and year ends), and the cells strictly ascend |
| DateUtils.CalendarGridWeekdays | src/utils/dateUtils.ts:13-24 | cell i falls on weekday i mod 7, so the first cell is a Sunday and the last a Saturday |
| DateUtils.CalendarGridMonthBlock | src/utils/dateUtils.ts:20-26 | the whole month appears as one block, equal to `getDaysInMonth`, from index weekday(1st) |
| DateUtils.CalendarGridLeading | src/utils/dateUtils.ts:16-18 | the leading cells are the last weekday(1st) days of the previous month, ascending; January borrows December of the year before |
| DateUtils.CalendarGridTrailing | src/utils/dateUtils.ts:22-24 | the trailing cells are days 1, 2, … of the following month; December continues into January of the year after |
| DateUtils.CalendarGridMonthDates | src/utils/dateUtils.ts:20 | the cells of the month block are days 1 to n of the month itself |
| DateUtils.PreviousMonthAbuts | src/utils/dateUtils.ts:17 | month m starts the day after the previous month's last day, January after December of the year before |
| DateUtils.FollowingMonthAbuts | src/utils/dateUtils.ts:23 | the following month starts the day after month m's last day, December followed by January of the next year |
| DateUtils.IsSameDayIffSameDayNumber | src/utils/dateUtils.ts:29-33 | `isSameDay` holds exactly when two Dates share a local day number, whatever their times of day |
| DateUtils.IsSameDayEquivalence | src/utils/dateUtils.ts:29-33 | `isSameDay` is reflexive, symmetric and transitive |
| DateUtils.IsSameDay | src/utils/dateUtils.ts:29-33 | `isSameDay` compares local year, month and day; specified by DateUtils.IsSameDayIffSameDayNumber |
| Store.AddedShape | src/hooks/dummy.ts:15-20 | adding appends exactly one event, keeps the earlier ones in place, and the new one is the given event under the fresh id |
| Store.AddedKeepsUnique | src/hooks/dummy.ts:18 | with unique ids and a fresh id not in use, ids stay unique after an add |
| Store.UpdatedPointwise | src/hooks/dummy.ts:22-27 | updating keeps length and order; position i holds the given event when its id matches and the old event otherwise |
| Store.UpdatedIds | src/hooks/dummy.ts:25 | updating changes no id, so unique ids stay unique |
| Store.UpdatedUnknownId | src/hooks/dummy.ts:25 | updating with an id that is not stored leaves the list unchanged, with no error |
| Store.UpdatedKnownId | src/hooks/dummy.ts:25 | updating with a stored id puts the given event in the list |
| Store.DeletedMembers | src/hooks/dummy.ts:29-34 | an event survives a delete exactly when it was stored and has another id |
| Store.DeletedAppend | src/hooks/dummy.ts:32 | deleting from a concatenation deletes from each part, so survivors keep their order |
| Store.DeletedUnknownId | src/hooks/dummy.ts:32 | deleting an id that is not stored changes nothing |
| Store.DeletedIdempotent | src/hooks/dummy.ts:29-34 | deleting twice is deleting once |
| Store.DeletedKeepsUnique | src/hooks/dummy.ts:32 | a delete keeps unique ids unique |
| Store.EventsOnDayMembers | src/hooks/dummy.ts:36-40 | an event is listed for a day exactly when it is stored and starts on that local day; its end plays no part |
| Store.EventsOnDayAppend | src/hooks/dummy.ts:37-39 | listing a concatenation lists each part, so the listing keeps stored order |
| Store.AddedThenListed | src/hooks/dummy.ts:15-40 | after an add, a day lists what it listed before, plus the new event at the end when it starts on that day |
| Store.UpdatedUniqueAt | src/hooks/dummy.ts:22-27 | with unique ids, updating the id stored at position i replaces that one event and no other |
| Store.DeletedOnlyAt | src/hooks/dummy.ts:29-34 | deleting an id that occurs only at position i removes that one event and keeps the rest in order |
| Store.DeletedUniqueAt | src/hooks/dummy.ts:29-34 | with unique ids, deleting the id stored at position i removes exactly that event, so one fewer remains |
| Store.Added | src/hooks/dummy.ts:15-20 | `addEvent`'s new list; specified by Store.AddedShape |
| Store.Updated | src/hooks/dummy.ts:22-27 | `updateEvent`'s new list; specified by Store.UpdatedPointwise |
| Store.Deleted | src/hooks/dummy.ts:29-34 | `deleteEvent`'s new list; specified by Store.DeletedMembers and Store.DeletedAppend |
| Store.EventsOnDay | src/hooks/dummy.ts:36-40 | `getEventsForDay`'s filter; specified by Store.EventsOnDayMembers and Store.EventsOnDayAppend |
| Store.CalendarStore.constructor | src/hooks/dummy.ts:6-10 | the initial state is `CalendarState([], now, MonthView)`: no events, today selected and the month view, and its ids are (trivially) unique |
| Store.CalendarStore.State | src/types/index.ts:18-22 | the store's three fields as one `CalendarState` value; the constructor and every operation that changes the store state their new state through it |
| Store.CalendarStore.AddEvent | src/hooks/dummy.ts:15-20 | the events become `Added(old events, event, freshId)`; the selected date and view are unchanged; unique ids stay unique given an unused fresh id |
| Store.CalendarStore.UpdateEvent | src/hooks/dummy.ts:22-27 | the events become `Updated(old events, event)`; the other fields are unchanged; unique ids stay unique, and then an update of a stored id replaces exactly that one event |
| Store.CalendarStore.DeleteEvent | src/hooks/dummy.ts:29-34 | the events become `Deleted(old events, id)`; the other fields are unchanged; unique ids stay unique, and then a delete of a stored id removes exactly that one event |
| Store.CalendarStore.GetEventsForDay | src/hooks/dummy.ts:36-40 | the result holds exactly the stored events that start on the date's local day |
| Store.CalendarStore.SetSelectedDate | src/hooks/dummy.ts:42-47 | only the selected date changes, to the given date |
| Store.CalendarStore.SetView | src/hooks/dummy.ts:49-51 | only the view changes, to the given view |
| Cal.MonthBeforeFirst | src/components/cal.tsx:32 | `new Date(y, m − 1, 1)` is midnight of the 1st of the month before m, January rolling back to December of the year before |
| Cal.MonthAfterFirst | src/components/cal.tsx:37 | `new Date(y, m + 1, 1)` is midnight of the 1st of the month after m, December rolling on to January of the year after |
| Cal.PreviousMonthTarget | src/components/cal.tsx:31-34 | the previous-month button selects local midnight of the 1st of the month before |
| Cal.NextMonthTarget | src/components/cal.tsx:36-39 | the next-month button selects local midnight of the 1st of the month after |
| Cal.HandlePreviousMonth | src/components/cal.tsx:31-34 | the previous-month target; specified by Cal.PreviousMonthTarget |
| Cal.HandleNextMonth | src/components/cal.tsx:36-39 | the next-month target; specified by Cal.NextMonthTarget |
| Cal.NextThenPrevious | src/components/cal.tsx:31-39 | next then previous lands on the 1st of the original month, for years outside 0..99 that do not roll into them |
| Cal.PreviousThenNext | src/components/cal.tsx:31-39 | previous then next lands on the 1st of the original month, under the same proviso |
| Cal.WeekendColumns | src/components/cal.tsx:45-48 | on the grid, `isWeekend` holds exactly for the first and last column (Sunday and Saturday) |
| Cal.IsWeekend | src/components/cal.tsx:45-48 | Sunday or Saturday by `getDay`; specified by Cal.WeekendColumns |
| Cal.CurrentMonthBlock | src/components/cal.tsx:81 | a cell is flagged as in the current month exactly when it lies in the month block |
| Cal.CurrentMonthIgnoresYear | src/components/cal.tsx:81 | the flag compares only the month: January 2023 counts as the current month when January 2024 is selected |
| Cal.IsCurrentMonth | src/components/cal.tsx:81 | the month-only comparison; specified by Cal.CurrentMonthBlock and Cal.CurrentMonthIgnoresYear |
| Cal.CellEvents | src/components/cal.tsx:41-43 | an event is shown in cell i exactly when its start falls on that cell's day |
| Cal.GetDayEvents | src/components/cal.tsx:41-43 | `getDayEvents`; specified by Cal.CellEvents |
| Cal.EventInOneCell | src/components/cal.tsx:79-80 | no event is shown in two cells |
| Cal.TodayInOneCell | src/components/cal.tsx:82 | at most one cell is flagged as today |
| Cal.Cells | src/components/cal.tsx:79-86 | what each grid cell shows: its date, its events, the current-month flag and the today flag; specified by Cal.CellEvents, Cal.EventInOneCell, Cal.TodayInOneCell and Cal.CurrentMonthBlock |
| Cal.OnDrop | src/components/cal.tsx:99-120 | a drop whose payload does not parse passes nothing on; otherwise start and end both move by target − source, so the duration is kept, and every other field, the id included, is copied |
| Cal.DropBetweenCells | src/components/cal.tsx:107-113 | between two grid cells (midnights) a drop moves start and end by the whole days between the cells and keeps their times of day |
| Cal.ShiftByDays | src/components/cal.tsx:112-113 | moving a time by k whole days moves its day by k and keeps its time of day |
| Cal.DropOnSource | src/components/cal.tsx:108-113 | dropping an event on its own source cell gives back the same event |
| Cal.DropAndBack | src/components/cal.tsx:108-113 | a drop from d1 to d2 followed by one from d2 to d1 restores the event |
| Cal.Shifted | src/components/cal.tsx:110-114 | the dropped event with start and end moved by one difference; specified by Cal.OnDrop and Cal.DropBetweenCells |
| DragAndDrop.Retimed | src/hooks/useDragAndDrop.ts:14-23 | the moved event starts exactly at the target, keeps its duration and changes no other field |
| DragAndDrop.RetimedIdentityAndLast | src/hooks/useDragAndDrop.ts:15-21 | retiming to the event's own start changes nothing, and retiming twice is retiming to the last target |
| DragAndDrop.DragState.constructor | src/hooks/useDragAndDrop.ts:5 | the slot starts empty |
| DragAndDrop.DragState.HandleDragStart | src/hooks/useDragAndDrop.ts:7-9 | the slot holds the given event, whatever it held |
| DragAndDrop.DragState.HandleDrop | src/hooks/useDragAndDrop.ts:11-27 | with an empty slot there is no update; otherwise the update is the dragged event retimed to the target; either way the slot ends empty |
| DragAndDrop.DragState.HandleDragEnd | src/hooks/useDragAndDrop.ts:29-31 | the slot is emptied |
| EventForm.GetDefaultTimes | src/components/EventForm.tsx:28-35 | start is 09:00:00 and end 10:00:00 on the given date's day, both keeping its milliseconds; the end is one hour after the start |
| EventForm.NewDraft | src/components/EventForm.tsx:38-44 | the new-event defaults; specified through EventForm.FormState.ResetOnOpen and EventForm.GetDefaultTimes |
| EventForm.InitialValues | src/components/EventForm.tsx:37-45 | the form's default values; specified through EventForm.FormState.constructor |
| EventForm.DeleteShown | src/components/EventForm.tsx:143 | the delete button's condition; specified through App.AppState.DeleteButtonShown |
| EventForm.SubmittedEvent | src/components/EventForm.tsx:77-81 | the submitted event carries the form's values under the edited event's id, or under the fresh id for a new event or an empty id |
| EventForm.SubmitUnchangedEdit | src/components/EventForm.tsx:77-81 | submitting an unchanged edit gives back the edited event |
| EventForm.FormState.constructor | src/components/EventForm.tsx:37-45 | the form starts with the edited event's values, or a new draft on the default date (or now) |
| EventForm.FormState.SyncDefaultDate | src/components/EventForm.tsx:48-54 | for a new event in an open form with a default date, start and end move to that date's default times; otherwise nothing changes |
| EventForm.FormState.ResetOnOpen | src/components/EventForm.tsx:57-73 | on opening, the form reloads the edited event, or else the new draft for the default date; with neither it keeps its values |
| EventForm.FormState.SetColor | src/components/EventForm.tsx:135 | the colour picker sets the colour and nothing else |
| EventForm.FormState.Submit | src/components/EventForm.tsx:77-83 | an empty title submits nothing (the required rule); otherwise the submitted event carries exactly the form's values |
| App.AppState.constructor | src/App.tsx:21-22 | the dialog starts closed with no event selected |
| App.AppState.HandleAddEvent | src/App.tsx:24-27 | the selection is cleared and the dialog opens |
| App.AppState.HandleEditEvent | src/App.tsx:29-32 | the event is selected and the dialog opens |
| App.AppState.HandleEventSubmit | src/App.tsx:34-41 | with a selection the store updates the event, otherwise it adds it, never both; the dialog closes and the selection stays |
| App.AppState.HandleEventDelete | src/App.tsx:43-48 | with a selection every event with its id is deleted and the dialog closes; without one nothing changes; the selection stays |
| App.AppState.CloseForm | src/App.tsx:84 | the dialog closes and the selection stays |
| App.AppState.SubmitForm | src/App.tsx:80-85 | the form's submit reaches the store as an update or an add according to the selection, or not at all for an empty title; the selection, selected date and view are unchanged |
| App.AppState.SideListEvents | src/App.tsx:74 | the side list holds exactly the stored events starting on the selected date's day |
| App.AppState.DeleteOffered | src/App.tsx:86 | whether the dialog is given a delete handler; specified through App.AppState.DeleteButtonShown |
| App.AppState.DeleteButtonShown | src/App.tsx:86 | the dialog shows its delete button exactly while an event is selected |
| App.EditSubmitReplaces | src/App.tsx:34-41 | editing an event with an id and submitting replaces every stored event with that id by the submitted values under the same id, and nothing else |
| DateKeys.DateKeyOfInjective | src/hooks/useHolidays.ts:16 | the key determines the year, the month and the day it was made from |
| DateKeys.DateKeySameDay | src/hooks/useHolidays.ts:16 | two Dates share a key exactly when they fall on the same local day, whatever their times of day |
| DateKeys.DateKeyOf | src/hooks/useHolidays.ts:16 | the `year-month-day` key text; specified by DateKeys.DateKeyOfInjective |
| DateKeys.DateKey | src/hooks/useHolidays.ts:16 | a Date's key from its local fields; specified by DateKeys.DateKeySameDay |
| DateKeys.LookUp | src/hooks/useHolidays.ts:15-18 | lookup of a Date's key in a table; specified by Holidays.HolidayState.IsHoliday and Weather.MonthWeatherLookUp |
| Holidays.TableKeys | src/hooks/useHolidays.ts:7-12 | the table's four keys are the keys of 25 and 31 December, 1 January and 4 July 2024 |
| Holidays.LookUpMatchesHolidayOn | src/hooks/useHolidays.ts:15-18 | with the table installed, a Date is a holiday exactly on those four dates, under their names, whatever its time of day |
| Holidays.NoHolidayOutside2024 | src/hooks/useHolidays.ts:7-12 | no date outside 2024 is a holiday |
| Holidays.HolidayOn | src/hooks/useHolidays.ts:7-12 | the four holidays by date; specified by Holidays.LookUpMatchesHolidayOn |
| Holidays.HolidayState.constructor | src/hooks/useHolidays.ts:4 | the table starts empty |
| Holidays.HolidayState.LoadHolidays | src/hooks/useHolidays.ts:6-13 | the effect installs the fixed table whatever the selected date |
| Holidays.HolidayState.IsHoliday | src/hooks/useHolidays.ts:15-18 | the lookup finds a name exactly when the date's key is in the table, and finds the entry under it |
| Weather.DayWeather | src/hooks/useWeather.ts:17-20 | a day's forecast has one of the six conditions and a whole temperature from 10 to 39 |
| Weather.BuildWeather | src/hooks/useWeather.ts:11-24 | the effect's table is the forecast of exactly the days of the selected month |
| Weather.FillMonth | src/hooks/useWeather.ts:16-21 | the loop's table has exactly the keys of days 1 to daysInMonth, each with that day's forecast |
| Weather.ExtendTable | src/hooks/useWeather.ts:17 | one more iteration extends the table of days 1 to n to days 1 to n + 1 |
| Weather.FreshDayKey | src/hooks/useWeather.ts:17 | a later day's key is none of the earlier days' keys, so no entry is overwritten |
| Weather.MonthWeatherBounds | src/hooks/useWeather.ts:19 | every temperature in a month's table is from 10 to 39 |
| Weather.MonthWeatherLookUp | src/hooks/useWeather.ts:26-29 | `getWeather` finds a forecast exactly for Dates in the table's year and month, and finds that day's forecast |
| Weather.GridWeather | src/hooks/useWeather.ts:12-28 | on the month grid a cell shows weather exactly when it lies in the month block, in no cell at all for years 0 to 99; leading and trailing cells never do |
| Weather.WeatherState.constructor | src/hooks/useWeather.ts:9 | the table starts empty |
| Weather.WeatherState.Rebuild | src/hooks/useWeather.ts:11-24 | the new month's forecast replaces the whole table |
| Weather.WeatherState.GetWeather | src/hooks/useWeather.ts:26-29 | the lookup finds a forecast exactly when the date's key is in the table, and finds the entry under it |
| ExportCsv.AllDayText | src/components/ExportButton.tsx:29 | the all-day cell is "true" exactly when `isAllDay` is present and true |
| ExportCsv.RowCells | src/components/ExportButton.tsx:23-30 | an event gives six cells, as many as the header |
| ExportCsv.SplitJoin | src/components/ExportButton.tsx:31-33 | splitting a join on a separator that no part holds gives back the parts |
| ExportCsv.CsvLineNoNewline | src/components/ExportButton.tsx:32 | a line of cells without newlines has no newline |
| ExportCsv.RowCellsOneLine | src/components/ExportButton.tsx:23-30 | when an event's title, description and colour hold no newline, none of its row's cells does |
| ExportCsv.LinesNoNewline | src/components/ExportButton.tsx:31-33 | when no event's text holds a newline, no line of the file does |
| ExportCsv.ExportLines | src/components/ExportButton.tsx:31-33 | for events whose text holds no newline the file splits on newlines into exactly the header line and one line per event, in order, with nothing after the last |
| ExportCsv.CsvContent | src/components/ExportButton.tsx:31-33 | the file text; specified by ExportCsv.ExportLines and ExportCsv.ExportDeterminesCells |
| ExportCsv.CsvLineInjective | src/components/ExportButton.tsx:32 | a line of cells holding neither a newline nor a double quote determines its cells |
| ExportCsv.ExportDeterminesCells | src/components/ExportButton.tsx:22-33 | for events whose text holds neither a newline nor a double quote, the file determines the number of events and every cell of every event |
| ExportCsv.QuoteAcrossCells | src/components/ExportButton.tsx:32 | with no quote escaping, text `","` inside a cell reads the same as a cell boundary |
| ExportCsv.ExportIsAmbiguous | src/components/ExportButton.tsx:23-32 | two events that differ in title and description can export the same file |

## Left out

- The JSON export branch and the download plumbing (Blob, object URL,
  anchor click) of the export button: library and DOM calls with no logic
  to state.
- `formatDate`, `toLocaleString` and `toLocaleTimeString`: locale
  formatting.
- Time zones and daylight-saving changes: the local zone is a fixed offset,
  so grid cells are exactly one day apart.
- Persistence through `useLocalStorage`, which is not part of this model.
  The store keeps `start`, `end` and `selectedDate` as Dates. Their text
  form, and reading that text back with `new Date(string)`, are not
  modelled, so `Date | string` is modelled as `Date`.
- React scheduling (`useState`, `useEffect`, `useCallback`): each
  `setState(prev => …)` is a direct field update, and each effect is a
  method the caller runs when its dependencies change.
- react-hook-form internals: the form is one record of values. Its
  validation is reduced to the required title.
- `JSON.parse` of the drag payload: the parsed payload is a parameter, and
  a parse failure is `None`.
- Randomness: `crypto.randomUUID` is a fresh-id parameter. `Math.random` is
  a sequence of reals in [0, 1), and the model computes with them exactly,
  whereas `Math.floor(Math.random() * n)` is evaluated in IEEE doubles; the
  set of weather tables that can arise is the same either way. `Weather.BuildWeather` and
  `Weather.WeatherState.Rebuild` require two draws per day of the month,
  because the hook draws that many.
- The rendering (JSX, class names, the event list, colour picker, floating
  date, weather icon and draggable-event components): presentation only.
- `toISOString`'s RangeError for times outside its range: years are
  unbounded in the model.
- JsDate.UtcTextInjective: stated for the UTC time a local time renders
  from, not for the local time and the offset together. For a fixed offset,
  distinct local times give distinct UTC times.
- Cal.NextThenPrevious and Cal.PreviousThenNext: they require years whose
  navigation does not pass through 0..99, because in those years the
  `Date` constructor jumps into the 1900s and the round trip does not hold.
- Store.CalendarStore.GetEventsForDay and App.AppState.SideListEvents:
  their contracts state which events are listed. The stored order of the
  listing is stated by Store.EventsOnDayAppend about the `EventsOnDay`
  filter they return.
