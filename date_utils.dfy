/** The month helpers of the calendar: the days of a month, the month grid
    with its leading and trailing days, and same-day comparison. */
module DateUtils {
  import opened Civil
  import opened JsDate

  /** The day number of the 1st of month `month` of `year`, as the Date
      constructor reads the year, and the length of that month. */
  function MonthFirst(year: int, month: int): int {
    MonthStart(EffectiveYear(year), month)
  }

  function MonthLen(year: int, month: int): (n: int)
    requires 0 <= month < 12
    ensures 28 <= n <= 31
  {
    DaysInMonth(EffectiveYear(year), month)
  }

  /** The month after `month` starts right after its last day, as the Date
      constructor counts. */
  lemma NextMonthFirst(year: int, month: int)
    requires 0 <= month < 12
    ensures MonthStart(EffectiveYear(year), month + 1) == MonthFirst(year, month) + MonthLen(year, month)
  {
    MonthStartStep(EffectiveYear(year), month);
    assert month / 12 == 0 && month % 12 == month;
  }

  /** Day 0 of the following month is the last day of this one. */
  lemma DayZeroDay(year: int, month: int)
    requires 0 <= month < 12
    ensures Day(NewDate(year, month + 1, 0)) == MonthFirst(year, month) + MonthLen(year, month) - 1
  {
    NextMonthFirst(year, month);
  }

  /** The length of a month, read as the source reads it: the day of the
      month of day 0 of the following month is the month's Gregorian length. */
  lemma DayZeroIsLastDay(year: int, month: int)
    requires 0 <= month < 12
    ensures LocalYmd(NewDate(year, month + 1, 0)) == Ymd(EffectiveYear(year), month, MonthLen(year, month))
    ensures GetDate(NewDate(year, month + 1, 0)) == DaysInMonth(EffectiveYear(year), month)
  {
    var ey := EffectiveYear(year);
    var len := MonthLen(year, month);
    DayZeroDay(year, month);
    assert month / 12 == 0 && month % 12 == month;
    assert MonthFirst(year, month) + len - 1 == DayIndex(ey, month, len);
    CivilRoundTrip(ey, month, len);
  }

  /** getDaysInMonth once it has read the year and month of its argument. */
  function MonthDays(year: int, month: int): seq<Date>
    requires 0 <= month < 12
  {
    var daysInMonth := GetDate(NewDate(year, month + 1, 0));
    seq(daysInMonth, i => NewDate(year, month, i + 1))
  }

  /** getDaysInMonth(date). */
  function GetDaysInMonth(date: Date): seq<Date> {
    MonthDays(GetFullYear(date), GetMonth(date))
  }

  /** The days of the month are local midnights of consecutive day numbers
      from the 1st, one per day of the month. */
  lemma MonthDaysLayout(year: int, month: int)
    requires 0 <= month < 12
    ensures |MonthDays(year, month)| == MonthLen(year, month)
    ensures forall i :: 0 <= i < |MonthDays(year, month)| ==>
      MonthDays(year, month)[i] == Midnight(MonthFirst(year, month) + i)
  {
    DayZeroIsLastDay(year, month);
  }

  /** The days of the month are days 1..n of that year and month, n being the
      month's Gregorian length, in strictly ascending order. */
  lemma MonthDaysDates(year: int, month: int)
    requires 0 <= month < 12
    ensures |MonthDays(year, month)| == DaysInMonth(EffectiveYear(year), month)
    ensures forall i :: 0 <= i < |MonthDays(year, month)| ==>
      LocalYmd(MonthDays(year, month)[i]) == Ymd(EffectiveYear(year), month, i + 1)
      && TimeInDay(MonthDays(year, month)[i]) == 0
    ensures forall i, j :: 0 <= i < j < |MonthDays(year, month)| ==>
      MonthDays(year, month)[i].ms < MonthDays(year, month)[j].ms
  {
    MonthDaysLayout(year, month);
    MonthFirstIndex(year, month);
    RunDates(MonthDays(year, month), MonthFirst(year, month), 0, MonthLen(year, month), EffectiveYear(year), month, 1);
  }

  /** The 1st of the month is day 1 of that month of the year the Date
      constructor reads. */
  lemma MonthFirstIndex(year: int, month: int)
    requires 0 <= month < 12
    ensures MonthFirst(year, month) == DayIndex(EffectiveYear(year), month, 1)
  {
    assert month / 12 == 0 && month % 12 == month;
  }

  /** Array.prototype.reverse applied to a fresh array. */
  function Reverse<T>(s: seq<T>): (r: seq<T>)
    ensures |r| == |s|
    ensures forall i :: 0 <= i < |s| ==> r[i] == s[|s| - 1 - i]
  {
    if s == [] then [] else Reverse(s[1..]) + [s[0]]
  }

  /** getCalendarDays' leading days: the days before the 1st back to a
      Sunday, built counting backwards and then reversed. */
  function PreviousMonthDays(year: int, month: int): seq<Date> {
    var firstDayOfMonth := NewDate(year, month, 1);
    var startingDayOfWeek := GetDay(firstDayOfMonth);
    Reverse(seq(startingDayOfWeek, i => NewDate(year, month, -i)))
  }

  /** getCalendarDays' trailing days: the days after the month's last day up
      to a Saturday. */
  function NextMonthDays(year: int, month: int): seq<Date> {
    var lastDayOfMonth := NewDate(year, month + 1, 0);
    var endingDayOfWeek := GetDay(lastDayOfMonth);
    seq(6 - endingDayOfWeek, i => NewDate(year, month + 1, i + 1))
  }

  /** getCalendarDays once it has read the year and month of its argument:
      the leading days, the whole month, and the trailing days. */
  function CalendarGrid(year: int, month: int): seq<Date>
    requires 0 <= month < 12
  {
    PreviousMonthDays(year, month) + MonthDays(year, month) + NextMonthDays(year, month)
  }

  /** getCalendarDays(date). */
  function GetCalendarDays(date: Date): seq<Date> {
    CalendarGrid(GetFullYear(date), GetMonth(date))
  }

  /** The number of leading cells: the weekday of the 1st. */
  function LeadingDays(year: int, month: int): (s: int)
    ensures 0 <= s < 7
  {
    Weekday(MonthFirst(year, month))
  }

  /** The day number of the first cell. */
  function GridStart(year: int, month: int): int {
    MonthFirst(year, month) - LeadingDays(year, month)
  }

  /** The number of trailing cells: the days after the month's last day up
      to a Saturday. */
  function TrailingDays(year: int, month: int): (t: int)
    requires 0 <= month < 12
    ensures 0 <= t < 7
  {
    6 - Weekday(MonthFirst(year, month) + MonthLen(year, month) - 1)
  }

  /** The leading days, the month, and the trailing days. */
  function GridLength(year: int, month: int): int
    requires 0 <= month < 12
  {
    LeadingDays(year, month) + MonthLen(year, month) + TrailingDays(year, month)
  }

  /** The leading days are the weekday(1st) days before the 1st, ascending. */
  lemma PreviousMonthDaysRun(year: int, month: int)
    requires 0 <= month < 12
    ensures |PreviousMonthDays(year, month)| == LeadingDays(year, month)
    ensures forall i :: 0 <= i < |PreviousMonthDays(year, month)| ==>
      PreviousMonthDays(year, month)[i] == Midnight(GridStart(year, month) + i)
  {
    var f := MonthFirst(year, month);
    assert month / 12 == 0 && month % 12 == month;
    var s := GetDay(NewDate(year, month, 1));
    assert s == Weekday(f);
    var tmp := seq(s, i => NewDate(year, month, -i));
    var prev := Reverse(tmp);
    assert prev == PreviousMonthDays(year, month);
    forall i | 0 <= i < s
      ensures prev[i] == Midnight(f - s + i)
    {
      assert prev[i] == tmp[s - 1 - i];
      assert tmp[s - 1 - i] == Midnight(f - (s - 1 - i) - 1);
    }
  }

  /** There are TrailingDays trailing days. */
  lemma NextMonthDaysCount(year: int, month: int)
    requires 0 <= month < 12
    ensures |NextMonthDays(year, month)| == TrailingDays(year, month)
  {
    DayZeroDay(year, month);
  }

  /** The trailing days are the days right after the month's last day. */
  lemma NextMonthDaysRun(year: int, month: int)
    requires 0 <= month < 12
    ensures forall j :: 0 <= j < |NextMonthDays(year, month)| ==>
      NextMonthDays(year, month)[j] == Midnight(MonthFirst(year, month) + MonthLen(year, month) + j)
  {
    var start := MonthFirst(year, month) + MonthLen(year, month);
    assert MonthStart(EffectiveYear(year), month + 1) == start by {
      NextMonthFirst(year, month);
    }
    var next := NextMonthDays(year, month);
    forall j | 0 <= j < |next|
      ensures next[j] == Midnight(start + j)
    {
      assert next[j] == NewDate(year, month + 1, j + 1);
    }
  }

  /** Cell i is local midnight of day GridStart + i, and there are
      weekday(1st) + n + 6 - weekday(last) cells. */
  lemma CalendarGridLayout(year: int, month: int)
    requires 0 <= month < 12
    ensures |CalendarGrid(year, month)| == GridLength(year, month)
    ensures forall i :: 0 <= i < |CalendarGrid(year, month)| ==>
      CalendarGrid(year, month)[i] == Midnight(GridStart(year, month) + i)
  {
    PreviousMonthDaysRun(year, month);
    MonthDaysLayout(year, month);
    NextMonthDaysCount(year, month);
    NextMonthDaysRun(year, month);
    ThreeRuns(PreviousMonthDays(year, month), MonthDays(year, month), NextMonthDays(year, month), GridStart(year, month));
  }

  /** Three runs of consecutive local midnights, each starting where the one
      before ends, make one run. */
  lemma ThreeRuns(a: seq<Date>, b: seq<Date>, c: seq<Date>, g: int)
    requires forall i :: 0 <= i < |a| ==> a[i] == Midnight(g + i)
    requires forall i :: 0 <= i < |b| ==> b[i] == Midnight(g + |a| + i)
    requires forall i :: 0 <= i < |c| ==> c[i] == Midnight(g + |a| + |b| + i)
    ensures forall i :: 0 <= i < |a + b + c| ==> (a + b + c)[i] == Midnight(g + i)
  {
    var r := a + b + c;
    forall i | 0 <= i < |r|
      ensures r[i] == Midnight(g + i)
    {
      if i < |a| {
        assert r[i] == a[i];
      } else if i < |a| + |b| {
        assert r[i] == b[i - |a|];
      } else {
        assert r[i] == c[i - |a| - |b|];
      }
    }
  }

  /** There are GridLength cells. */
  lemma CalendarGridLength(year: int, month: int)
    requires 0 <= month < 12
    ensures |CalendarGrid(year, month)| == GridLength(year, month)
  {
    DayZeroIsLastDay(year, month);
    NextMonthDaysCount(year, month);
  }

  /** The day count behind CalendarGridWeeks: n days from day f, padded back
      to a Sunday and on to a Saturday. */
  lemma PaddedMonthWeeks(f: int, n: int)
    requires 28 <= n <= 31
    ensures var len := Weekday(f) + n + 6 - Weekday(f + n - 1);
      len % 7 == 0 && len in {28, 35, 42}
  {
    var w := Weekday(f);
    assert Weekday(f + n - 1) == (w + n - 1) % 7;
  }

  /** The grid is whole weeks: four, five or six of them. */
  lemma CalendarGridWeeks(year: int, month: int)
    requires 0 <= month < 12
    ensures |CalendarGrid(year, month)| % 7 == 0
    ensures |CalendarGrid(year, month)| in {28, 35, 42}
  {
    CalendarGridLength(year, month);
    PaddedMonthWeeks(MonthFirst(year, month), MonthLen(year, month));
    assert GridLength(year, month) == Weekday(MonthFirst(year, month)) + MonthLen(year, month)
      + 6 - Weekday(MonthFirst(year, month) + MonthLen(year, month) - 1);
  }

  /** Every cell is local midnight one day after the cell before it, so the
      cells strictly ascend with no gaps and no repeats, across month and
      year boundaries. */
  lemma CalendarGridContiguous(year: int, month: int)
    requires 0 <= month < 12
    ensures forall i :: 0 <= i < |CalendarGrid(year, month)| ==> TimeInDay(CalendarGrid(year, month)[i]) == 0
    ensures forall i :: 0 <= i < |CalendarGrid(year, month)| - 1 ==>
      Day(CalendarGrid(year, month)[i + 1]) == Day(CalendarGrid(year, month)[i]) + 1
    ensures forall i, j :: 0 <= i < j < |CalendarGrid(year, month)| ==>
      CalendarGrid(year, month)[i].ms < CalendarGrid(year, month)[j].ms
  {
    CalendarGridLayout(year, month);
  }

  /** Going back weekday(f) days from day f lands on a Sunday. */
  lemma SundayOnOrBefore(f: int)
    ensures Weekday(f - Weekday(f)) == 0
  {
    var q, w := (f + 4) / 7, (f + 4) % 7;
    assert f + 4 == 7 * q + w;
    assert f - w + 4 == 7 * q;
  }

  /** Counting on from a Sunday, day g + i is weekday i mod 7. */
  lemma WeekdayFromSunday(g: int, i: int)
    requires Weekday(g) == 0 && 0 <= i
    ensures Weekday(g + i) == i % 7
  {
  }

  /** A run of whole weeks of local midnights from a Sunday: cell i is
      weekday i mod 7, so the run starts on a Sunday and ends on a Saturday. */
  lemma WeekRunWeekdays(r: seq<Date>, g: int)
    requires Weekday(g) == 0 && |r| in {28, 35, 42}
    requires forall i :: 0 <= i < |r| ==> r[i] == Midnight(g + i)
    ensures forall i :: 0 <= i < |r| ==> GetDay(r[i]) == i % 7
    ensures GetDay(r[0]) == 0 && GetDay(r[|r| - 1]) == 6
  {
    forall i | 0 <= i < |r|
      ensures GetDay(r[i]) == i % 7
    {
      WeekdayFromSunday(g, i);
    }
    var last := |r| - 1;
    assert GetDay(r[last]) == last % 7;
    assert last == 27 || last == 34 || last == 41;
  }

  /** Cell i falls on weekday i mod 7: the grid starts on a Sunday and ends on a Saturday. */
  lemma CalendarGridWeekdays(year: int, month: int)
    requires 0 <= month < 12
    ensures forall i :: 0 <= i < |CalendarGrid(year, month)| ==> GetDay(CalendarGrid(year, month)[i]) == i % 7
    ensures GetDay(CalendarGrid(year, month)[0]) == 0
    ensures GetDay(CalendarGrid(year, month)[|CalendarGrid(year, month)| - 1]) == 6
  {
    CalendarGridLayout(year, month);
    CalendarGridWeeks(year, month);
    SundayOnOrBefore(MonthFirst(year, month));
    WeekRunWeekdays(CalendarGrid(year, month), GridStart(year, month));
  }

  /** The whole month is one block starting at index weekday(1st). */
  lemma CalendarGridMonthBlock(year: int, month: int)
    requires 0 <= month < 12
    ensures var s := LeadingDays(year, month);
      s + MonthLen(year, month) <= |CalendarGrid(year, month)|
      && CalendarGrid(year, month)[s..s + MonthLen(year, month)] == MonthDays(year, month)
  {
    CalendarGridLayout(year, month);
    MonthDaysLayout(year, month);
  }

  /** The month before month m of year y, January rolling back to December. */
  function PreviousMonth(y: int, m: int): (r: Ymd)
    requires 0 <= m < 12
    ensures 0 <= r.month < 12 && r.day == 1
  {
    if m == 0 then Ymd(y - 1, 11, 1) else Ymd(y, m - 1, 1)
  }

  /** The month after month m of year y, December rolling over to January. */
  function FollowingMonth(y: int, m: int): (r: Ymd)
    requires 0 <= m < 12
    ensures 0 <= r.month < 12 && r.day == 1
  {
    if m == 11 then Ymd(y + 1, 0, 1) else Ymd(y, m + 1, 1)
  }

  /** Month m of year y starts right after the previous month's last day. */
  lemma PreviousMonthAbuts(y: int, m: int)
    requires 0 <= m < 12
    ensures var p := PreviousMonth(y, m);
      MonthStart(y, m) == DayIndex(p.year, p.month, 1) + DaysInMonth(p.year, p.month)
  {
    if m == 0 {
      MonthStartStep(y, -1);
    } else {
      MonthStartStep(y, m - 1);
      assert (m - 1) / 12 == 0 && (m - 1) % 12 == m - 1;
      assert m / 12 == 0 && m % 12 == m;
    }
  }

  /** The month after month m of year y starts right after its last day. */
  lemma FollowingMonthAbuts(y: int, m: int)
    requires 0 <= m < 12
    ensures var q := FollowingMonth(y, m);
      DayIndex(q.year, q.month, 1) == MonthStart(y, m) + DaysInMonth(y, m)
  {
    MonthStartStep(y, m);
    assert m / 12 == 0 && m % 12 == m;
    if m == 11 {
      assert (m + 1) / 12 == 1 && (m + 1) % 12 == 0;
      assert MonthStart(y, m + 1) == DayIndex(y + 1, 0, 1);
    } else {
      assert (m + 1) / 12 == 0 && (m + 1) % 12 == m + 1;
      assert MonthStart(y, m + 1) == DayIndex(y, m + 1, 1);
    }
  }

  /** Cells lo..hi of a run of local midnights from day g, where cell lo is
      day d0 of month m of year y, are the following days of that month. */
  lemma RunDates(r: seq<Date>, g: int, lo: int, hi: int, y: int, m: int, d0: int)
    requires forall i :: 0 <= i < |r| ==> r[i] == Midnight(g + i)
    requires 0 <= lo <= hi <= |r| && 0 <= m < 12
    requires 1 <= d0 && d0 + (hi - lo) - 1 <= DaysInMonth(y, m)
    requires DayIndex(y, m, d0) == g + lo
    ensures forall i :: lo <= i < hi ==> LocalYmd(r[i]) == Ymd(y, m, d0 + i - lo)
  {
    forall i | lo <= i < hi
      ensures LocalYmd(r[i]) == Ymd(y, m, d0 + i - lo)
    {
      assert Day(r[i]) == DayIndex(y, m, d0 + i - lo);
      CivilRoundTrip(y, m, d0 + i - lo);
    }
  }

  /** The leading cells are the last weekday(1st) days of the previous month,
      ascending; January borrows from December of the year before. */
  lemma CalendarGridLeading(year: int, month: int)
    requires 0 <= month < 12
    ensures var s := LeadingDays(year, month);
      var p := PreviousMonth(EffectiveYear(year), month);
      forall i :: 0 <= i < s ==>
        LocalYmd(CalendarGrid(year, month)[i]) == Ymd(p.year, p.month, DaysInMonth(p.year, p.month) - s + 1 + i)
  {
    CalendarGridLayout(year, month);
    var r := CalendarGrid(year, month);
    var s := LeadingDays(year, month);
    var p := PreviousMonth(EffectiveYear(year), month);
    var len := DaysInMonth(p.year, p.month);
    PreviousMonthAbuts(EffectiveYear(year), month);
    assert |r| == s + MonthLen(year, month) + TrailingDays(year, month);
    RunDates(r, GridStart(year, month), 0, s, p.year, p.month, len - s + 1);
  }

  /** The trailing cells are the first days of the next month, in order;
      December continues into January of the year after. */
  lemma CalendarGridTrailing(year: int, month: int)
    requires 0 <= month < 12
    ensures var k := LeadingDays(year, month) + MonthLen(year, month);
      var q := FollowingMonth(EffectiveYear(year), month);
      forall j :: k <= j < |CalendarGrid(year, month)| ==>
        LocalYmd(CalendarGrid(year, month)[j]) == Ymd(q.year, q.month, j - k + 1)
  {
    CalendarGridLayout(year, month);
    var r := CalendarGrid(year, month);
    var n := MonthLen(year, month);
    var k := LeadingDays(year, month) + n;
    var q := FollowingMonth(EffectiveYear(year), month);
    FollowingMonthAbuts(EffectiveYear(year), month);
    assert |r| == k + TrailingDays(year, month);
    RunDates(r, GridStart(year, month), k, |r|, q.year, q.month, 1);
  }

  /** The cells of the month block are days 1..n of the month itself. */
  lemma CalendarGridMonthDates(year: int, month: int)
    requires 0 <= month < 12
    ensures LeadingDays(year, month) + MonthLen(year, month) <= |CalendarGrid(year, month)|
    ensures var s := LeadingDays(year, month);
      forall i :: s <= i < s + MonthLen(year, month) ==>
        LocalYmd(CalendarGrid(year, month)[i]) == Ymd(EffectiveYear(year), month, i - s + 1)
  {
    CalendarGridLayout(year, month);
    var r := CalendarGrid(year, month);
    var n := MonthLen(year, month);
    var s := LeadingDays(year, month);
    assert |r| == s + n + TrailingDays(year, month);
    MonthFirstIndex(year, month);
    RunDates(r, GridStart(year, month), s, s + n, EffectiveYear(year), month, 1);
  }

  /** isSameDay: equal local year, month and day of the month. */
  predicate IsSameDay(date1: Date, date2: Date) {
    GetFullYear(date1) == GetFullYear(date2)
    && GetMonth(date1) == GetMonth(date2)
    && GetDate(date1) == GetDate(date2)
  }

  /** Two Dates are the same day exactly when they share a local day number,
      whatever their times of day. */
  lemma IsSameDayIffSameDayNumber(a: Date, b: Date)
    ensures IsSameDay(a, b) <==> Day(a) == Day(b)
  {
    SameYmdIffSameDay(a, b);
  }

  /** isSameDay is an equivalence relation. */
  lemma IsSameDayEquivalence(a: Date, b: Date, c: Date)
    ensures IsSameDay(a, a)
    ensures IsSameDay(a, b) ==> IsSameDay(b, a)
    ensures IsSameDay(a, b) && IsSameDay(b, c) ==> IsSameDay(a, c)
  {
  }
}
