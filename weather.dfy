/** The weather hook: a made-up forecast for every day of the selected month,
    filed under the same date keys the holiday table uses. The random draws
    the hook makes are a parameter: a sequence of numbers in [0, 1), consumed
    two per day in the order the hook makes them (condition, then
    temperature). */
module Weather {
  import opened Civil
  import opened JsDate
  import opened Types
  import opened DateUtils
  import opened DateKeys

  datatype Condition = Clear | Cloudy | Rain | Snow | Storm | Wind

  /** The hook's list of conditions, in its order. */
  const Conditions: seq<Condition> := [Clear, Cloudy, Rain, Snow, Storm, Wind]

  datatype WeatherData = WeatherData(condition: Condition, temperature: int)

  /** What Math.random can return. */
  predicate RandomDraws(draws: seq<real>) {
    forall i :: 0 <= i < |draws| ==> 0.0 <= draws[i] < 1.0
  }

  /** The forecast of day `day` (1-based) built from its two draws: a
      condition picked uniformly by index and a whole temperature from 10
      to 39. */
  function DayWeather(draws: seq<real>, day: int): (r: WeatherData)
    requires RandomDraws(draws) && 1 <= day && 2 * day <= |draws|
    ensures r.condition in Conditions
    ensures 10 <= r.temperature <= 39
  {
    var c := draws[2 * (day - 1)];
    var t := draws[2 * (day - 1) + 1];
    WeatherData(Conditions[(c * 6.0).Floor], (t * 30.0).Floor + 10)
  }

  /** The keys of `table` are exactly those of days 1 to n of month `month`
      of year `year`. */
  ghost predicate HasDayKeys<V>(table: map<string, V>, year: int, month: nat, n: int) {
    forall k :: k in table <==> exists d :: 1 <= d <= n && k == DateKeyOf(year, month, d)
  }

  /** `table` is the forecast of days 1 to n of month `month` of year
      `year` made from `draws`: exactly those days' keys, each with that
      day's forecast. */
  ghost predicate IsWeatherTable(table: map<string, WeatherData>, year: int, month: nat, n: int, draws: seq<real>) {
    RandomDraws(draws) && 2 * n <= |draws|
    && HasDayKeys(table, year, month, n)
    && (forall d :: 1 <= d <= n ==>
          DateKeyOf(year, month, d) in table && table[DateKeyOf(year, month, d)] == DayWeather(draws, d))
  }

  /** The forecast of the whole of month `month` of year `year`, the month's
      length counted as the Date constructor counts it. */
  ghost predicate IsMonthWeather(table: map<string, WeatherData>, year: int, month: int, draws: seq<real>)
    requires 0 <= month < 12
  {
    IsWeatherTable(table, year, month, MonthLen(year, month), draws)
  }

  /** The hook's effect: one entry per day of the selected month, keyed by
      the selected date's year and month and the loop's day. */
  method BuildWeather(selectedDate: Date, draws: seq<real>) returns (weather: map<string, WeatherData>)
    requires RandomDraws(draws)
    requires 2 * MonthLen(GetFullYear(selectedDate), GetMonth(selectedDate)) <= |draws|
    ensures IsMonthWeather(weather, GetFullYear(selectedDate), GetMonth(selectedDate), draws)
  {
    var year, month := GetFullYear(selectedDate), GetMonth(selectedDate);
    var daysInMonth := GetDate(NewDate(year, month + 1, 0));
    DayZeroIsLastDay(year, month);
    weather := FillMonth(year, month, daysInMonth, draws);
  }

  /** The effect's loop over days 1 to daysInMonth; day d's forecast is made
      from draws 2(d - 1) and 2(d - 1) + 1. */
  method FillMonth(year: int, month: nat, daysInMonth: nat, draws: seq<real>) returns (weather: map<string, WeatherData>)
    requires RandomDraws(draws) && 2 * daysInMonth <= |draws|
    ensures IsWeatherTable(weather, year, month, daysInMonth, draws)
  {
    weather := map[];
    var day := 1;
    while day <= daysInMonth
      invariant 1 <= day <= daysInMonth + 1
      invariant IsWeatherTable(weather, year, month, day - 1, draws)
    {
      ExtendTable(weather, year, month, day - 1, draws);
      weather := weather[DateKeyOf(year, month, day) := DayWeather(draws, day)];
      day := day + 1;
    }
  }

  /** Day n + 1's key is none of days 1 to n's. */
  lemma FreshDayKey(year: int, month: nat, n: nat)
    ensures forall d :: 1 <= d <= n ==> DateKeyOf(year, month, d) != DateKeyOf(year, month, n + 1)
  {
    forall d | 1 <= d <= n
      ensures DateKeyOf(year, month, d) != DateKeyOf(year, month, n + 1)
    {
      if DateKeyOf(year, month, d) == DateKeyOf(year, month, n + 1) {
        DateKeyOfInjective(year, month, d, year, month, n + 1);
      }
    }
  }

  /** Adding day n + 1's key to the keys of days 1 to n gives the keys of
      days 1 to n + 1. */
  lemma ExtendDayKeys<V>(table: map<string, V>, year: int, month: nat, n: nat, v: V)
    requires HasDayKeys(table, year, month, n)
    ensures HasDayKeys(table[DateKeyOf(year, month, n + 1) := v], year, month, n + 1)
  {
  }

  /** Adding day n + 1's forecast under its key to the table of days 1 to n
      gives the table of days 1 to n + 1. */
  lemma ExtendTable(table: map<string, WeatherData>, year: int, month: nat, n: nat, draws: seq<real>)
    requires IsWeatherTable(table, year, month, n, draws) && 2 * (n + 1) <= |draws|
    ensures IsWeatherTable(table[DateKeyOf(year, month, n + 1) := DayWeather(draws, n + 1)], year, month, n + 1, draws)
  {
    FreshDayKey(year, month, n);
    ExtendDayKeys(table, year, month, n, DayWeather(draws, n + 1));
  }

  /** Every forecast in a month's table has a temperature from 10 to 39. */
  lemma MonthWeatherBounds(table: map<string, WeatherData>, year: int, month: int, draws: seq<real>)
    requires 0 <= month < 12 && IsMonthWeather(table, year, month, draws)
    ensures forall k :: k in table ==> 10 <= table[k].temperature <= 39
  {
    forall k | k in table
      ensures 10 <= table[k].temperature <= 39
    {
      var d :| 1 <= d <= MonthLen(year, month) && k == DateKeyOf(year, month, d);
      assert table[k] == DayWeather(draws, d);
    }
  }

  /** getWeather on a month's table finds a forecast exactly for the Dates
      that fall, by their local getters, in that year and month on a day the
      table covers, and finds that day's forecast. */
  lemma MonthWeatherLookUp(table: map<string, WeatherData>, year: int, month: int, draws: seq<real>, date: Date)
    requires 0 <= month < 12 && IsMonthWeather(table, year, month, draws)
    ensures LookUp(table, date).Some?
      <==> GetFullYear(date) == year && GetMonth(date) == month && GetDate(date) <= MonthLen(year, month)
    ensures LookUp(table, date).Some? ==> LookUp(table, date).value == DayWeather(draws, GetDate(date))
  {
    var k := DateKey(date);
    if k in table {
      var d :| 1 <= d <= MonthLen(year, month) && k == DateKeyOf(year, month, d);
      DateKeyOfInjective(GetFullYear(date), GetMonth(date), GetDate(date), year, month, d);
    }
  }

  /** On the month grid of the selected date, with the forecast of the
      selected month: a cell shows weather exactly when it lies in the month
      block, except that no cell does in years 0 to 99, whose grid the Date
      constructor puts in 1900 to 1999 while the keys keep the year as
      written. */
  lemma GridWeather(selectedDate: Date, table: map<string, WeatherData>, draws: seq<real>, i: int)
    requires IsMonthWeather(table, GetFullYear(selectedDate), GetMonth(selectedDate), draws)
    requires 0 <= i < |GetCalendarDays(selectedDate)|
    ensures var y, m := GetFullYear(selectedDate), GetMonth(selectedDate);
      LookUp(table, GetCalendarDays(selectedDate)[i]).Some?
      <==> !(0 <= y <= 99) && LeadingDays(y, m) <= i < LeadingDays(y, m) + MonthLen(y, m)
  {
    var y, m := GetFullYear(selectedDate), GetMonth(selectedDate);
    var s, n := LeadingDays(y, m), MonthLen(y, m);
    var r := CalendarGrid(y, m);
    MonthWeatherLookUp(table, y, m, draws, r[i]);
    if i < s {
      CalendarGridLeading(y, m);
      assert GetMonth(r[i]) == PreviousMonth(EffectiveYear(y), m).month;
    } else if i < s + n {
      CalendarGridMonthDates(y, m);
      assert LocalYmd(r[i]) == Ymd(EffectiveYear(y), m, i - s + 1);
    } else {
      CalendarGridTrailing(y, m);
      assert GetMonth(r[i]) == FollowingMonth(EffectiveYear(y), m).month;
    }
  }

  class WeatherState {
    var weatherData: map<string, WeatherData>

    /** Before the effect has run the table is empty. */
    constructor()
      ensures weatherData == map[]
    {
      weatherData := map[];
    }

    /** The effect, run whenever the selected month or year changes: the new
        month's forecast replaces the whole table. */
    method Rebuild(selectedDate: Date, draws: seq<real>)
      requires RandomDraws(draws)
      requires 2 * MonthLen(GetFullYear(selectedDate), GetMonth(selectedDate)) <= |draws|
      modifies this
      ensures IsMonthWeather(weatherData, GetFullYear(selectedDate), GetMonth(selectedDate), draws)
    {
      weatherData := BuildWeather(selectedDate, draws);
    }

    /** getWeather: the forecast under the date's key, None when there is none. */
    function GetWeather(date: Date): (r: Option<WeatherData>)
      reads this
      ensures r.Some? <==> DateKey(date) in weatherData
      ensures r.Some? ==> r.value == weatherData[DateKey(date)]
    {
      LookUp(weatherData, date)
    }
  }
}
