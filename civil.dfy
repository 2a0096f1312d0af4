/** Proleptic Gregorian calendar arithmetic: the day counting that the
    JavaScript Date built-in performs underneath every getter and constructor
    the calendar calls. Days are counted from 1970-01-01 (day 0); months are
    0-based as in JavaScript (January = 0). */
module Civil {

  /** Milliseconds in one day. */
  const MsPerDay: int := 86400000

  /** Days from 0000-01-01 to 1970-01-01. */
  const EpochDays: int := 719528

  /** A calendar date: year, 0-based month, 1-based day of the month. */
  datatype Ymd = Ymd(year: int, month: int, day: int)

  predicate IsLeapYear(y: int) {
    y % 4 == 0 && (y % 100 != 0 || y % 400 == 0)
  }

  function YearLength(y: int): int {
    if IsLeapYear(y) then 366 else 365
  }

  /** The length of month m of year y, by the usual rule
      (thirty days hath September, April, June and November). */
  function DaysInMonth(y: int, m: int): (n: int)
    requires 0 <= m < 12
    ensures 28 <= n <= 31
    ensures n == 29 <==> m == 1 && IsLeapYear(y)
  {
    if m == 1 then (if IsLeapYear(y) then 29 else 28)
    else if m == 3 || m == 5 || m == 8 || m == 10 then 30
    else 31
  }

  predicate ValidYmd(c: Ymd) {
    0 <= c.month < 12 && 1 <= c.day <= DaysInMonth(c.year, c.month)
  }

  /** Days before the 1st of each month of a common year; entry 12 is the year. */
  const CommonYearStarts: seq<int> := [0, 31, 59, 90, 120, 151, 181, 212, 243, 273, 304, 334, 365]

  /** Days of year y before the 1st of month m (m == 12 gives the whole year). */
  function DaysBeforeMonth(y: int, m: int): int
    requires 0 <= m <= 12
  {
    CommonYearStarts[m] + (if m >= 2 && IsLeapYear(y) then 1 else 0)
  }

  /** Days from 0000-01-01 to the 1st of January of year y (negative for
      y < 0): 365 per year plus one per leap year in between. */
  function DaysBeforeYear(y: int): int {
    365 * y + (y + 3) / 4 - (y + 99) / 100 + (y + 399) / 400
  }

  /** The day number (days since 1970-01-01) of day d of month m of year y;
      d is not range-checked, so d == 0 is the last day of the month before. */
  function DayIndex(y: int, m: int, d: int): int
    requires 0 <= m < 12
  {
    DaysBeforeYear(y) - EpochDays + DaysBeforeMonth(y, m) + d - 1
  }

  /** The weekday of a day number, 0 = Sunday (1970-01-01 was a Thursday). */
  function Weekday(n: int): (w: int)
    ensures 0 <= w < 7
  {
    (n + 4) % 7
  }

  lemma EpochIsDaysBefore1970()
    ensures DaysBeforeYear(1970) == EpochDays
  {
  }

  lemma MonthStep(y: int, m: int)
    requires 0 <= m < 12
    ensures DaysBeforeMonth(y, m + 1) == DaysBeforeMonth(y, m) + DaysInMonth(y, m)
  {
  }

  lemma MultipleOf400(q: int)
    ensures (400 * q) % 100 == 0
  {
    assert 400 * q == 100 * (4 * q) + 0;
  }

  lemma MultipleOf100(q: int)
    ensures (100 * q) % 4 == 0
  {
    assert 100 * q == 4 * (25 * q) + 0;
  }

  /** A multiple of 400 is a multiple of 100, and a multiple of 100 one of 4. */
  lemma DivisorsNest(y: int)
    ensures y % 400 == 0 ==> y % 100 == 0
    ensures y % 100 == 0 ==> y % 4 == 0
  {
    MultipleOf400(y / 400);
    MultipleOf100(y / 100);
  }

  lemma YearStep(y: int)
    ensures DaysBeforeYear(y + 1) == DaysBeforeYear(y) + YearLength(y)
  {
    var a := if y % 4 == 0 then 1 else 0;
    var b := if y % 100 == 0 then 1 else 0;
    var c := if y % 400 == 0 then 1 else 0;
    assert (y + 1 + 3) / 4 == (y + 3) / 4 + a;
    assert (y + 1 + 99) / 100 == (y + 99) / 100 + b;
    assert (y + 1 + 399) / 400 == (y + 399) / 400 + c;
    DivisorsNest(y);
    assert YearLength(y) == 365 + a - b + c;
  }

  lemma {:induction false} DaysBeforeYearMonotone(a: int, b: int)
    requires a < b
    ensures DaysBeforeYear(a) + 365 <= DaysBeforeYear(b)
    decreases b - a
  {
    YearStep(b - 1);
    if a < b - 1 {
      DaysBeforeYearMonotone(a, b - 1);
    }
  }

  /** The year that contains day number n. */
  function YearOf(n: int): (y: int)
    ensures DaysBeforeYear(y) - EpochDays <= n < DaysBeforeYear(y + 1) - EpochDays
  {
    var z := n + EpochDays;
    var y0 := (400 * z) / 146097;
    if z < DaysBeforeYear(y0) then y0 - 1
    else if z < DaysBeforeYear(y0 + 1) then y0
    else y0 + 1
  }

  /** The month of year y that holds day-of-year doy (0-based), searched from m. */
  function MonthFrom(y: int, doy: int, m: int): (r: int)
    requires 0 <= m < 12 && DaysBeforeMonth(y, m) <= doy < DaysBeforeMonth(y, 12)
    ensures m <= r < 12 && DaysBeforeMonth(y, r) <= doy < DaysBeforeMonth(y, r + 1)
    decreases 12 - m
  {
    if doy < DaysBeforeMonth(y, m + 1) then m else MonthFrom(y, doy, m + 1)
  }

  /** The calendar date of day number n: the one valid date whose day
      number is n. */
  function CivilFromDays(n: int): (c: Ymd)
    ensures ValidYmd(c)
    ensures DayIndex(c.year, c.month, c.day) == n
  {
    CivilExists(n);
    CivilUniqueAll();
    var c :| ValidYmd(c) && DayIndex(c.year, c.month, c.day) == n;
    c
  }

  /** Every day number has a calendar date, found by locating its year and
      then its month within that year. */
  lemma CivilExists(n: int)
    ensures exists c :: ValidYmd(c) && DayIndex(c.year, c.month, c.day) == n
  {
    var y := YearOf(n);
    var doy := n - (DaysBeforeYear(y) - EpochDays);
    YearStep(y);
    var m := MonthFrom(y, doy, 0);
    MonthStep(y, m);
    var c := Ymd(y, m, doy - DaysBeforeMonth(y, m) + 1);
    assert ValidYmd(c) && DayIndex(c.year, c.month, c.day) == n;
  }

  /** No two valid dates share a day number. */
  lemma CivilUnique(c1: Ymd, c2: Ymd)
    requires ValidYmd(c1) && ValidYmd(c2)
    requires DayIndex(c1.year, c1.month, c1.day) == DayIndex(c2.year, c2.month, c2.day)
    ensures c1 == c2
  {
    var n := DayIndex(c1.year, c1.month, c1.day);
    WithinYear(c1);
    WithinYear(c2);
    YearUnique(c1.year, c2.year, n + EpochDays);
    MonthUnique(c1.year, c1.month, c2.month, n - (DaysBeforeYear(c1.year) - EpochDays));
  }

  lemma CivilUniqueAll()
    ensures forall c1: Ymd, c2: Ymd ::
      ValidYmd(c1) && ValidYmd(c2) && DayIndex(c1.year, c1.month, c1.day) == DayIndex(c2.year, c2.month, c2.day)
      ==> c1 == c2
  {
    forall c1: Ymd, c2: Ymd |
      ValidYmd(c1) && ValidYmd(c2) && DayIndex(c1.year, c1.month, c1.day) == DayIndex(c2.year, c2.month, c2.day)
      ensures c1 == c2
    {
      CivilUnique(c1, c2);
    }
  }

  /** A valid date lies inside its own year. */
  lemma WithinYear(c: Ymd)
    requires ValidYmd(c)
    ensures DaysBeforeYear(c.year) - EpochDays <= DayIndex(c.year, c.month, c.day)
    ensures DayIndex(c.year, c.month, c.day) < DaysBeforeYear(c.year + 1) - EpochDays
    ensures DaysBeforeMonth(c.year, c.month) <= DayIndex(c.year, c.month, c.day) - (DaysBeforeYear(c.year) - EpochDays)
    ensures DayIndex(c.year, c.month, c.day) - (DaysBeforeYear(c.year) - EpochDays) < DaysBeforeMonth(c.year, c.month + 1)
  {
    MonthStep(c.year, c.month);
    MonthsOrdered(c.year, c.month, 12);
    YearStep(c.year);
  }

  /** Only one year contains a given day. */
  lemma YearUnique(y1: int, y2: int, z: int)
    requires DaysBeforeYear(y1) <= z < DaysBeforeYear(y1 + 1)
    requires DaysBeforeYear(y2) <= z < DaysBeforeYear(y2 + 1)
    ensures y1 == y2
  {
    if y1 + 1 < y2 {
      DaysBeforeYearMonotone(y1 + 1, y2);
    } else if y2 + 1 < y1 {
      DaysBeforeYearMonotone(y2 + 1, y1);
    }
  }

  /** Only one month of a year contains a given day of the year. */
  lemma MonthUnique(y: int, m1: int, m2: int, doy: int)
    requires 0 <= m1 < 12 && 0 <= m2 < 12
    requires DaysBeforeMonth(y, m1) <= doy < DaysBeforeMonth(y, m1 + 1)
    requires DaysBeforeMonth(y, m2) <= doy < DaysBeforeMonth(y, m2 + 1)
    ensures m1 == m2
  {
    if m1 < m2 {
      MonthsOrdered(y, m1, m2);
    } else if m2 < m1 {
      MonthsOrdered(y, m2, m1);
    }
  }

  /** Day numbers and valid calendar dates are in one-to-one correspondence. */
  lemma CivilRoundTrip(y: int, m: int, d: int)
    requires ValidYmd(Ymd(y, m, d))
    ensures CivilFromDays(DayIndex(y, m, d)) == Ymd(y, m, d)
  {
    CivilUnique(CivilFromDays(DayIndex(y, m, d)), Ymd(y, m, d));
  }

  /** Month starts are strictly increasing within a year. */
  lemma MonthsOrdered(y: int, a: int, b: int)
    requires 0 <= a < b <= 12
    ensures DaysBeforeMonth(y, a + 1) <= DaysBeforeMonth(y, b)
  {
  }

  /** Day numbers with the same calendar date are equal. */
  lemma CivilInjective(n1: int, n2: int)
    requires CivilFromDays(n1) == CivilFromDays(n2)
    ensures n1 == n2
  {
  }

  /** The start of month m of year y, where m may lie outside 0..11 and
      overflows into neighbouring years (ECMAScript MakeDay). */
  function MonthStart(y: int, m: int): int {
    DayIndex(y + m / 12, m % 12, 1)
  }

  /** Consecutive months abut: the next month starts right after the last
      day of this one, across year boundaries too. */
  lemma MonthStartStep(y: int, m: int)
    ensures MonthStart(y, m + 1) == MonthStart(y, m) + DaysInMonth(y + m / 12, m % 12)
  {
    var yy := y + m / 12;
    MonthStep(yy, m % 12);
    if m % 12 == 11 {
      assert (m + 1) / 12 == m / 12 + 1 && (m + 1) % 12 == 0;
      YearStep(yy);
    } else {
      assert (m + 1) / 12 == m / 12 && (m + 1) % 12 == m % 12 + 1;
    }
  }
}
