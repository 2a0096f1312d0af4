/** The month calendar view: month navigation, the per-cell flags and event
    lists of the grid, and the drop handler that reschedules an event onto
    another cell. What the view renders is not modelled; the values it
    passes to its callbacks are. */
module Cal {
  import opened Civil
  import opened JsDate
  import opened Types
  import opened DateUtils
  import opened Store

  // --------------------------------------------------------- navigation

  /** handlePreviousMonth's new date: the 1st of the month before. */
  function HandlePreviousMonth(selectedDate: Date): Date {
    NewDate(GetFullYear(selectedDate), GetMonth(selectedDate) - 1, 1)
  }

  /** handleNextMonth's new date: the 1st of the month after. */
  function HandleNextMonth(selectedDate: Date): Date {
    NewDate(GetFullYear(selectedDate), GetMonth(selectedDate) + 1, 1)
  }

  /** new Date(y, m - 1, 1) is local midnight of the 1st of the month before
      month m, January rolling back to December of the year before. */
  lemma MonthBeforeFirst(y: int, m: int)
    requires 0 <= m < 12
    ensures LocalYmd(NewDate(y, m - 1, 1)) == PreviousMonth(EffectiveYear(y), m)
    ensures TimeInDay(NewDate(y, m - 1, 1)) == 0
  {
    var p := PreviousMonth(EffectiveYear(y), m);
    assert MonthStart(EffectiveYear(y), m - 1) == DayIndex(p.year, p.month, 1) by {
      if m == 0 {
        assert (m - 1) / 12 == -1 && (m - 1) % 12 == 11;
      } else {
        assert (m - 1) / 12 == 0 && (m - 1) % 12 == m - 1;
      }
    }
    CivilRoundTrip(p.year, p.month, 1);
  }

  /** new Date(y, m + 1, 1) is local midnight of the 1st of the month after
      month m, December rolling on to January of the year after. */
  lemma MonthAfterFirst(y: int, m: int)
    requires 0 <= m < 12
    ensures LocalYmd(NewDate(y, m + 1, 1)) == FollowingMonth(EffectiveYear(y), m)
    ensures TimeInDay(NewDate(y, m + 1, 1)) == 0
  {
    var q := FollowingMonth(EffectiveYear(y), m);
    assert MonthStart(EffectiveYear(y), m + 1) == DayIndex(q.year, q.month, 1) by {
      if m == 11 {
        assert (m + 1) / 12 == 1 && (m + 1) % 12 == 0;
      } else {
        assert (m + 1) / 12 == 0 && (m + 1) % 12 == m + 1;
      }
    }
    CivilRoundTrip(q.year, q.month, 1);
  }

  /** The previous-month button lands on local midnight of the 1st of the
      month before (years 0..99 read as 1900..1999). */
  lemma PreviousMonthTarget(selectedDate: Date)
    ensures var y, m := EffectiveYear(GetFullYear(selectedDate)), GetMonth(selectedDate);
      LocalYmd(HandlePreviousMonth(selectedDate)) == PreviousMonth(y, m)
      && TimeInDay(HandlePreviousMonth(selectedDate)) == 0
  {
    MonthBeforeFirst(GetFullYear(selectedDate), GetMonth(selectedDate));
  }

  /** The next-month button lands on local midnight of the 1st of the month
      after (years 0..99 read as 1900..1999). */
  lemma NextMonthTarget(selectedDate: Date)
    ensures var y, m := EffectiveYear(GetFullYear(selectedDate)), GetMonth(selectedDate);
      LocalYmd(HandleNextMonth(selectedDate)) == FollowingMonth(y, m)
      && TimeInDay(HandleNextMonth(selectedDate)) == 0
  {
    MonthAfterFirst(GetFullYear(selectedDate), GetMonth(selectedDate));
  }

  /** Next then previous lands on the 1st of the original month, as long as
      neither year involved is one the Date constructor reads as 19xx. */
  lemma NextThenPrevious(selectedDate: Date)
    requires var y := GetFullYear(selectedDate);
      !(0 <= y <= 99) && !(y == -1 && GetMonth(selectedDate) == 11)
    ensures LocalYmd(HandlePreviousMonth(HandleNextMonth(selectedDate)))
      == Ymd(GetFullYear(selectedDate), GetMonth(selectedDate), 1)
  {
    NextMonthTarget(selectedDate);
    PreviousMonthTarget(HandleNextMonth(selectedDate));
  }

  /** Previous then next lands on the 1st of the original month, under the
      same proviso. */
  lemma PreviousThenNext(selectedDate: Date)
    requires var y := GetFullYear(selectedDate);
      !(0 <= y <= 99) && !(y == 100 && GetMonth(selectedDate) == 0)
    ensures LocalYmd(HandleNextMonth(HandlePreviousMonth(selectedDate)))
      == Ymd(GetFullYear(selectedDate), GetMonth(selectedDate), 1)
  {
    PreviousMonthTarget(selectedDate);
    NextMonthTarget(HandlePreviousMonth(selectedDate));
  }

  // ------------------------------------------------------- cell flags

  /** isWeekend: Sunday or Saturday. */
  predicate IsWeekend(date: Date) {
    var day := GetDay(date);
    day == 0 || day == 6
  }

  /** isCurrentMonth for one cell: the cell's month index equals the selected
      date's. The year is not compared. */
  predicate IsCurrentMonth(date: Date, selectedDate: Date) {
    GetMonth(date) == GetMonth(selectedDate)
  }

  /** On the grid, the weekend cells are exactly the first and last column. */
  lemma WeekendColumns(selectedDate: Date, i: int)
    requires 0 <= i < |GetCalendarDays(selectedDate)|
    ensures IsWeekend(GetCalendarDays(selectedDate)[i]) <==> i % 7 == 0 || i % 7 == 6
  {
    CalendarGridWeekdays(GetFullYear(selectedDate), GetMonth(selectedDate));
  }

  /** On the grid, a cell is flagged as in the current month exactly when it
      lies in the month block; leading and trailing cells never are. */
  lemma CurrentMonthBlock(selectedDate: Date, i: int)
    requires 0 <= i < |GetCalendarDays(selectedDate)|
    ensures var y, m := GetFullYear(selectedDate), GetMonth(selectedDate);
      IsCurrentMonth(GetCalendarDays(selectedDate)[i], selectedDate)
      <==> LeadingDays(y, m) <= i < LeadingDays(y, m) + MonthLen(y, m)
  {
    var y, m := GetFullYear(selectedDate), GetMonth(selectedDate);
    var s, n := LeadingDays(y, m), MonthLen(y, m);
    var r := CalendarGrid(y, m);
    if i < s {
      CalendarGridLeading(y, m);
      assert GetMonth(r[i]) == PreviousMonth(EffectiveYear(y), m).month;
    } else if i < s + n {
      CalendarGridMonthDates(y, m);
      assert GetMonth(r[i]) == m;
    } else {
      CalendarGridTrailing(y, m);
      assert GetMonth(r[i]) == FollowingMonth(EffectiveYear(y), m).month;
    }
  }

  /** The month flag ignores the year: the 1st of January of two different
      years count as the same month. */
  lemma CurrentMonthIgnoresYear()
    ensures GetFullYear(NewDate(2023, 0, 1)) != GetFullYear(NewDate(2024, 0, 1))
    ensures IsCurrentMonth(NewDate(2023, 0, 1), NewDate(2024, 0, 1))
  {
    NewDateYmd(2023, 0, 1);
    NewDateYmd(2024, 0, 1);
  }

  // ------------------------------------------------------------- cells

  /** getDayEvents: the events starting on the cell's local day. */
  function GetDayEvents(events: seq<CalendarEvent>, date: Date): seq<CalendarEvent> {
    EventsOnDay(events, date)
  }

  /** What the grid computes for each cell: its date, its events, whether it
      is in the current month and whether it is today. */
  function Cells(selectedDate: Date, events: seq<CalendarEvent>, today: Date): seq<CalendarDay> {
    var calendarDays := GetCalendarDays(selectedDate);
    seq(|calendarDays|, index requires 0 <= index < |calendarDays| =>
      var date := calendarDays[index];
      CalendarDay(date, GetDayEvents(events, date), IsCurrentMonth(date, selectedDate), IsSameDay(date, today)))
  }

  /** An event is shown in cell i exactly when its start falls on that
      cell's day; so it is shown in at most one cell, and in exactly one
      when its start day is on the grid. */
  lemma CellEvents(selectedDate: Date, events: seq<CalendarEvent>, today: Date, e: CalendarEvent, i: int)
    requires e in events && 0 <= i < |GetCalendarDays(selectedDate)|
    ensures |Cells(selectedDate, events, today)| == |GetCalendarDays(selectedDate)|
    ensures e in Cells(selectedDate, events, today)[i].events
      <==> Day(e.start) == GridStart(GetFullYear(selectedDate), GetMonth(selectedDate)) + i
  {
    var y, m := GetFullYear(selectedDate), GetMonth(selectedDate);
    CalendarGridLayout(y, m);
    var date := GetCalendarDays(selectedDate)[i];
    assert Cells(selectedDate, events, today)[i].events == EventsOnDay(events, date);
    EventsOnDayMembers(events, date);
  }

  /** No event is shown in two cells. */
  lemma EventInOneCell(selectedDate: Date, events: seq<CalendarEvent>, today: Date, e: CalendarEvent, i: int, j: int)
    requires e in events
    requires 0 <= i < |GetCalendarDays(selectedDate)| && 0 <= j < |GetCalendarDays(selectedDate)|
    requires e in Cells(selectedDate, events, today)[i].events
    requires e in Cells(selectedDate, events, today)[j].events
    ensures i == j
  {
    CellEvents(selectedDate, events, today, e, i);
    CellEvents(selectedDate, events, today, e, j);
  }

  /** At most one cell is flagged as today. */
  lemma TodayInOneCell(selectedDate: Date, events: seq<CalendarEvent>, today: Date, i: int, j: int)
    requires 0 <= i < |GetCalendarDays(selectedDate)| && 0 <= j < |GetCalendarDays(selectedDate)|
    requires Cells(selectedDate, events, today)[i].isToday
    requires Cells(selectedDate, events, today)[j].isToday
    ensures i == j
  {
    var y, m := GetFullYear(selectedDate), GetMonth(selectedDate);
    CalendarGridLayout(y, m);
    var r := GetCalendarDays(selectedDate);
    IsSameDayIffSameDayNumber(r[i], today);
    IsSameDayIffSameDayNumber(r[j], today);
  }

  // --------------------------------------------------------------- drop

  /** The event moved by delta milliseconds: start and end shift together
      and every other field is copied. */
  function Shifted(event: CalendarEvent, delta: int): CalendarEvent {
    event.(start := Date(event.start.ms + delta), end := Date(event.end.ms + delta))
  }

  /** The drop handler of a cell: with a payload it passes on the dragged
      event moved by the distance from its source cell to this cell, so
      start and end move together and no other field changes; when the
      payload does not parse, nothing is passed on. */
  function OnDrop(payload: Option<DraggedEvent>, date: Date): (r: Option<CalendarEvent>)
    ensures r.Some? <==> payload.Some?
    ensures r.Some? ==>
      var event := payload.value.event;
      r.value.start.ms - event.start.ms == date.ms - payload.value.sourceDate.ms
      && r.value.end.ms - r.value.start.ms == event.end.ms - event.start.ms
      && r.value.(start := event.start, end := event.end) == event
  {
    match payload
    case None => None
    case Some(dragData) =>
      var timeDiff := date.ms - dragData.sourceDate.ms;
      Some(Shifted(dragData.event, timeDiff))
  }

  /** Between grid cells (local midnights) a drop moves an event by whole
      days: the days between the cells, at the same time of day. */
  lemma DropBetweenCells(event: CalendarEvent, sourceDate: Date, date: Date)
    requires TimeInDay(sourceDate) == 0 && TimeInDay(date) == 0
    ensures var r := OnDrop(Some(DraggedEvent(event, sourceDate)), date).value;
      Day(r.start) == Day(event.start) + (Day(date) - Day(sourceDate))
      && TimeInDay(r.start) == TimeInDay(event.start)
      && Day(r.end) == Day(event.end) + (Day(date) - Day(sourceDate))
      && TimeInDay(r.end) == TimeInDay(event.end)
  {
    var k := Day(date) - Day(sourceDate);
    assert date.ms - sourceDate.ms == k * MsPerDay;
    ShiftByDays(event.start, k);
    ShiftByDays(event.end, k);
  }

  /** Moving a time by k whole days moves its day by k and keeps its time of day. */
  lemma ShiftByDays(t: Date, k: int)
    ensures Day(Date(t.ms + k * MsPerDay)) == Day(t) + k
    ensures TimeInDay(Date(t.ms + k * MsPerDay)) == TimeInDay(t)
  {
    var q, r := t.ms / MsPerDay, t.ms % MsPerDay;
    assert t.ms + k * MsPerDay == (q + k) * MsPerDay + r;
  }

  /** Dropping an event back on its own cell passes it on unchanged. */
  lemma DropOnSource(event: CalendarEvent, sourceDate: Date)
    ensures OnDrop(Some(DraggedEvent(event, sourceDate)), sourceDate) == Some(event)
  {
  }

  /** Dragging from d1 to d2 and back from d2 to d1 restores the event. */
  lemma DropAndBack(event: CalendarEvent, d1: Date, d2: Date)
    ensures var moved := OnDrop(Some(DraggedEvent(event, d1)), d2).value;
      OnDrop(Some(DraggedEvent(moved, d2)), d1) == Some(event)
  {
  }
}
