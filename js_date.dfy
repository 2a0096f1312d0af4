/** The part of the JavaScript Date built-in that the calendar uses: the
    Date(year, month, day) constructor with its overflow normalisation, the
    local getters, setHours and toISOString. The local zone is a fixed offset
    from UTC with no daylight-saving changes. */
module JsDate {
  import opened Civil
  import opened Decimal

  /** A Date, held as its time value counted in LOCAL wall-clock milliseconds
      since 1970-01-01T00:00 local time. Under a fixed offset the UTC time value
      (what getTime returns) is this minus the offset, so differences of
      getTime values are differences of ms. */
  datatype Date = Date(ms: int)

  const MsPerHour: int := 3600000
  const MsPerMinute: int := 60000
  const MsPerSecond: int := 1000

  /** The local day number of t. */
  function Day(t: Date): int {
    t.ms / MsPerDay
  }

  /** The milliseconds elapsed since local midnight. */
  function TimeInDay(t: Date): (r: int)
    ensures 0 <= r < MsPerDay
  {
    t.ms % MsPerDay
  }

  /** The local calendar date of t. */
  function LocalYmd(t: Date): (c: Ymd)
    ensures ValidYmd(c)
  {
    CivilFromDays(Day(t))
  }

  function GetFullYear(t: Date): int {
    LocalYmd(t).year
  }

  function GetMonth(t: Date): (m: int)
    ensures 0 <= m < 12
  {
    LocalYmd(t).month
  }

  function GetDate(t: Date): (d: int)
    ensures 1 <= d <= DaysInMonth(GetFullYear(t), GetMonth(t))
  {
    LocalYmd(t).day
  }

  /** The weekday, 0 = Sunday. */
  function GetDay(t: Date): (w: int)
    ensures 0 <= w < 7
  {
    Weekday(Day(t))
  }

  /** Local midnight at the start of day number n. */
  function Midnight(n: int): (t: Date)
    ensures Day(t) == n && TimeInDay(t) == 0
  {
    Date(n * MsPerDay)
  }

  /** The Date constructor takes a year argument between 0 and 99 as 1900
      plus that year. */
  function EffectiveYear(y: int): (r: int)
    ensures r < 0 || 100 <= r
  {
    if 0 <= y <= 99 then 1900 + y else y
  }

  /** new Date(y, m, d): local midnight of day d of month m of year y, where
      out-of-range months and days roll over into neighbouring months and years. */
  function NewDate(y: int, m: int, d: int): Date {
    Midnight(MonthStart(EffectiveYear(y), m) + d - 1)
  }

  /** t.setHours(h, min, s) on a copy of t: the same local day at h:min:s,
      keeping t's milliseconds. */
  function SetHours(t: Date, h: int, min: int, s: int): Date {
    Date(Day(t) * MsPerDay + h * MsPerHour + min * MsPerMinute + s * MsPerSecond + t.ms % MsPerSecond)
  }

  /** setHours with a time of day that fits in the day keeps the day and
      sets the time of day to h:min:s plus t's milliseconds. */
  lemma SetHoursParts(t: Date, h: int, min: int, s: int)
    requires 0 <= h * MsPerHour + min * MsPerMinute + s * MsPerSecond <= MsPerDay - MsPerSecond
    ensures Day(SetHours(t, h, min, s)) == Day(t)
    ensures TimeInDay(SetHours(t, h, min, s)) == h * MsPerHour + min * MsPerMinute + s * MsPerSecond + t.ms % MsPerSecond
  {
    var r := h * MsPerHour + min * MsPerMinute + s * MsPerSecond + t.ms % MsPerSecond;
    assert 0 <= r < MsPerDay;
    assert SetHours(t, h, min, s).ms == Day(t) * MsPerDay + r;
  }

  /** new Date(y, m, d) for an in-range day falls on exactly that calendar date
      (the month normalised into 0..11, the year adjusted by the overflow). */
  lemma NewDateYmd(y: int, m: int, d: int)
    requires 1 <= d <= DaysInMonth(EffectiveYear(y) + m / 12, m % 12)
    ensures LocalYmd(NewDate(y, m, d)) == Ymd(EffectiveYear(y) + m / 12, m % 12, d)
    ensures TimeInDay(NewDate(y, m, d)) == 0
  {
    CivilRoundTrip(EffectiveYear(y) + m / 12, m % 12, d);
  }

  /** Two Dates fall on the same local calendar date exactly when they fall
      on the same local day number. */
  lemma SameYmdIffSameDay(a: Date, b: Date)
    ensures LocalYmd(a) == LocalYmd(b) <==> Day(a) == Day(b)
  {
    if LocalYmd(a) == LocalYmd(b) {
      CivilInjective(Day(a), Day(b));
    }
  }

  /** The number of a Date's local day; as a check of the rule, a Date's
      year, month and day rebuild its day number. */
  lemma LocalYmdDay(t: Date)
    ensures DayIndex(GetFullYear(t), GetMonth(t), GetDate(t)) == Day(t)
  {
  }

  /** The ECMAScript ISO year: four digits for 0..9999, otherwise a sign
      and six digits. */
  function IsoYear(y: int): (r: string)
    ensures '\n' !in r && '"' !in r && ',' !in r
  {
    if 0 <= y <= 9999 then FixedDigits(y, 4)
    else if y < 0 then "-" + FixedDigits(-y, 6)
    else "+" + FixedDigits(y, 6)
  }

  /** YYYY-MM-DD for a calendar date. */
  function IsoDate(c: Ymd): (r: string)
    requires ValidYmd(c)
    ensures '\n' !in r && '"' !in r && ',' !in r
  {
    IsoYear(c.year) + "-" + FixedDigits(c.month + 1, 2) + "-" + FixedDigits(c.day, 2)
  }

  /** HH:mm:ss.sss for hours, minutes, seconds and milliseconds. */
  function IsoTime(h: nat, min: nat, s: nat, ms: nat): (r: string)
    ensures '\n' !in r && '"' !in r && ',' !in r
  {
    FixedDigits(h, 2) + ":" + FixedDigits(min, 2) + ":" + FixedDigits(s, 2) + "." + FixedDigits(ms, 3)
  }

  /** YYYY-MM-DDTHH:mm:ss.sssZ for a calendar date c and a time of day tod
      in milliseconds. */
  function IsoText(c: Ymd, tod: int): (r: string)
    requires ValidYmd(c) && 0 <= tod < MsPerDay
    ensures '\n' !in r && '"' !in r && ',' !in r
  {
    IsoDate(c) + "T" + IsoTime(tod / MsPerHour, tod / MsPerMinute % 60, tod / MsPerSecond % 60, tod % MsPerSecond) + "Z"
  }

  /** The ISO text of a UTC time u (held, like a local one, as its
      wall-clock milliseconds). */
  function UtcText(u: Date): (r: string)
    ensures '\n' !in r && '"' !in r && ',' !in r
  {
    IsoText(LocalYmd(u), TimeInDay(u))
  }

  /** t.toISOString() with the local zone utcOffsetMs ahead of UTC: the UTC
      calendar date and time of day of t. */
  function ToIsoString(t: Date, utcOffsetMs: int): (r: string)
    ensures '\n' !in r && '"' !in r && ',' !in r
  {
    UtcText(Date(t.ms - utcOffsetMs))
  }

  /** The fields of a date with a four-digit year sit at fixed places in
      its ISO text. */
  lemma IsoDateParts(c: Ymd)
    requires ValidYmd(c) && 0 <= c.year <= 9999
    ensures |IsoDate(c)| == 10
    ensures IsoDate(c)[..4] == FixedDigits(c.year, 4)
    ensures IsoDate(c)[5..7] == FixedDigits(c.month + 1, 2)
    ensures IsoDate(c)[8..] == FixedDigits(c.day, 2)
  {
  }

  /** A date with a four-digit year reads back from its ISO text. */
  lemma IsoDateInjective(c1: Ymd, c2: Ymd)
    requires ValidYmd(c1) && 0 <= c1.year <= 9999
    requires ValidYmd(c2) && 0 <= c2.year <= 9999
    requires IsoDate(c1) == IsoDate(c2)
    ensures c1 == c2
  {
    IsoDateParts(c1);
    IsoDateParts(c2);
    assert Pow10(2) == 100 && Pow10(4) == 10000;
    FixedDigitsValue(c1.year, 4);
    FixedDigitsValue(c2.year, 4);
    FixedDigitsValue(c1.month + 1, 2);
    FixedDigitsValue(c2.month + 1, 2);
    FixedDigitsValue(c1.day, 2);
    FixedDigitsValue(c2.day, 2);
  }

  /** The fields of a time of day sit at fixed places in its ISO text. */
  lemma IsoTimeParts(h: nat, min: nat, s: nat, ms: nat)
    ensures |IsoTime(h, min, s, ms)| == 12
    ensures IsoTime(h, min, s, ms)[..2] == FixedDigits(h, 2)
    ensures IsoTime(h, min, s, ms)[3..5] == FixedDigits(min, 2)
    ensures IsoTime(h, min, s, ms)[6..8] == FixedDigits(s, 2)
    ensures IsoTime(h, min, s, ms)[9..] == FixedDigits(ms, 3)
  {
  }

  /** Hours, minutes, seconds and milliseconds below 100, 100, 100 and
      1000 read back from their ISO text. */
  lemma IsoTimeInjective(h1: nat, min1: nat, s1: nat, ms1: nat, h2: nat, min2: nat, s2: nat, ms2: nat)
    requires h1 < 100 && min1 < 100 && s1 < 100 && ms1 < 1000
    requires h2 < 100 && min2 < 100 && s2 < 100 && ms2 < 1000
    requires IsoTime(h1, min1, s1, ms1) == IsoTime(h2, min2, s2, ms2)
    ensures h1 == h2 && min1 == min2 && s1 == s2 && ms1 == ms2
  {
    IsoTimeParts(h1, min1, s1, ms1);
    IsoTimeParts(h2, min2, s2, ms2);
    assert Pow10(2) == 100 && Pow10(3) == 1000;
    FixedDigitsValue(h1, 2);
    FixedDigitsValue(h2, 2);
    FixedDigitsValue(min1, 2);
    FixedDigitsValue(min2, 2);
    FixedDigitsValue(s1, 2);
    FixedDigitsValue(s2, 2);
    FixedDigitsValue(ms1, 3);
    FixedDigitsValue(ms2, 3);
  }

  /** A time of day is its hours, minutes, seconds and milliseconds. */
  lemma TimeFields(tod: int)
    requires 0 <= tod < MsPerDay
    ensures tod / MsPerHour < 24
    ensures tod == tod / MsPerHour * MsPerHour + tod / MsPerMinute % 60 * MsPerMinute
      + tod / MsPerSecond % 60 * MsPerSecond + tod % MsPerSecond
  {
    var sec := tod / 1000;
    var min := sec / 60;
    assert tod == 1000 * sec + tod % 1000;
    assert sec == 60 * min + sec % 60;
    assert tod == 60000 * min + (1000 * (sec % 60) + tod % 1000);
    assert tod / 60000 == min;
    assert min == 60 * (min / 60) + min % 60;
    assert tod == 3600000 * (min / 60) + (60000 * (min % 60) + 1000 * (sec % 60) + tod % 1000);
    assert tod / 3600000 == min / 60;
  }

  /** The date and the time of day sit at fixed places in the ISO text. */
  lemma IsoTextParts(c: Ymd, tod: int)
    requires ValidYmd(c) && 0 <= c.year <= 9999 && 0 <= tod < MsPerDay
    ensures IsoText(c, tod)[..10] == IsoDate(c)
    ensures IsoText(c, tod)[11..23]
      == IsoTime(tod / MsPerHour, tod / MsPerMinute % 60, tod / MsPerSecond % 60, tod % MsPerSecond)
  {
    IsoDateParts(c);
    IsoTimeParts(tod / MsPerHour, tod / MsPerMinute % 60, tod / MsPerSecond % 60, tod % MsPerSecond);
  }

  /** The ISO text of a date with a four-digit year and a time of day
      determines both. */
  lemma IsoTextInjective(c1: Ymd, tod1: int, c2: Ymd, tod2: int)
    requires ValidYmd(c1) && 0 <= c1.year <= 9999 && 0 <= tod1 < MsPerDay
    requires ValidYmd(c2) && 0 <= c2.year <= 9999 && 0 <= tod2 < MsPerDay
    requires IsoText(c1, tod1) == IsoText(c2, tod2)
    ensures c1 == c2 && tod1 == tod2
  {
    TimeFields(tod1);
    TimeFields(tod2);
    IsoTextParts(c1, tod1);
    IsoTextParts(c2, tod2);
    IsoDateInjective(c1, c2);
    IsoTimeInjective(tod1 / MsPerHour, tod1 / MsPerMinute % 60, tod1 / MsPerSecond % 60, tod1 % MsPerSecond,
                     tod2 / MsPerHour, tod2 / MsPerMinute % 60, tod2 / MsPerSecond % 60, tod2 % MsPerSecond);
  }

  /** A Date is fixed by its calendar date and its time of day. */
  lemma SameDateAndTime(u1: Date, u2: Date)
    requires LocalYmd(u1) == LocalYmd(u2) && TimeInDay(u1) == TimeInDay(u2)
    ensures u1 == u2
  {
    SameYmdIffSameDay(u1, u2);
    assert u1.ms == Day(u1) * MsPerDay + TimeInDay(u1);
    assert u2.ms == Day(u2) * MsPerDay + TimeInDay(u2);
  }

  /** Between the years 0 and 9999 the ISO text of a UTC time tells it
      apart from every other. */
  lemma UtcTextInjective(u1: Date, u2: Date)
    requires 0 <= LocalYmd(u1).year <= 9999 && 0 <= LocalYmd(u2).year <= 9999
    ensures UtcText(u1) == UtcText(u2) <==> u1 == u2
  {
    if UtcText(u1) == UtcText(u2) {
      IsoTextInjective(LocalYmd(u1), TimeInDay(u1), LocalYmd(u2), TimeInDay(u2));
      SameDateAndTime(u1, u2);
    }
  }
}
