/** The holiday hook: a table from date keys to holiday names, empty until
    the hook's effect fills in four fixed dates of 2024, and a lookup by a
    Date's local year, month and day. */
module Holidays {
  import opened Civil
  import opened JsDate
  import opened Types
  import opened Decimal
  import opened DateKeys

  /** The table the effect installs, whatever the selected date. */
  const HolidayTable: map<string, string> := map[
    "2024-12-25" := "Christmas Day",
    "2024-12-31" := "New Year's Eve",
    "2024-1-1" := "New Year's Day",
    "2024-7-4" := "Independence Day"]

  /** The holiday on a calendar date, written out date by date (months
      0-based): the reference the table lookup is proved against. */
  function HolidayOn(c: Ymd): Option<string> {
    if c == Ymd(2024, 11, 25) then Some("Christmas Day")
    else if c == Ymd(2024, 11, 31) then Some("New Year's Eve")
    else if c == Ymd(2024, 0, 1) then Some("New Year's Day")
    else if c == Ymd(2024, 6, 4) then Some("Independence Day")
    else None
  }

  /** The four keys of the table are the keys of the four dates. */
  lemma TableKeys()
    ensures DateKeyOf(2024, 11, 25) == "2024-12-25"
    ensures DateKeyOf(2024, 11, 31) == "2024-12-31"
    ensures DateKeyOf(2024, 0, 1) == "2024-1-1"
    ensures DateKeyOf(2024, 6, 4) == "2024-7-4"
  {
    assert NatToString(2024) == "2024" by {
      assert NatToString(2) == "2";
      assert NatToString(20) == NatToString(2) + "0";
      assert NatToString(202) == NatToString(20) + "2";
      assert NatToString(2024) == NatToString(202) + "4";
    }
    assert NatToString(12) == "12" by {
      assert NatToString(12) == NatToString(1) + "2";
    }
    assert NatToString(25) == "25" by {
      assert NatToString(25) == NatToString(2) + "5";
    }
    assert NatToString(31) == "31" by {
      assert NatToString(31) == NatToString(3) + "1";
    }
  }

  /** With the effect's table installed, a Date is a holiday exactly on the
      four listed calendar dates, under their names, whatever its time of day. */
  lemma LookUpMatchesHolidayOn(date: Date)
    ensures LookUp(HolidayTable, date) == HolidayOn(LocalYmd(date))
  {
    var c := LocalYmd(date);
    TableKeys();
    var k := DateKey(date);
    if k == "2024-12-25" {
      DateKeyOfInjective(c.year, c.month, c.day, 2024, 11, 25);
    } else if k == "2024-12-31" {
      DateKeyOfInjective(c.year, c.month, c.day, 2024, 11, 31);
    } else if k == "2024-1-1" {
      DateKeyOfInjective(c.year, c.month, c.day, 2024, 0, 1);
    } else if k == "2024-7-4" {
      DateKeyOfInjective(c.year, c.month, c.day, 2024, 6, 4);
    }
  }

  /** No holiday falls outside 2024. */
  lemma NoHolidayOutside2024(date: Date)
    requires GetFullYear(date) != 2024
    ensures LookUp(HolidayTable, date) == None
  {
    LookUpMatchesHolidayOn(date);
  }

  class HolidayState {
    var holidays: map<string, string>

    /** Before the effect has run the table is empty. */
    constructor()
      ensures holidays == map[]
    {
      holidays := map[];
    }

    /** The effect, run whenever the selected month or year changes: the
        fixed table replaces whatever was there. */
    method LoadHolidays(selectedDate: Date)
      modifies this
      ensures holidays == HolidayTable
    {
      holidays := HolidayTable;
    }

    /** isHoliday: the name under the date's key, None when there is none. */
    function IsHoliday(date: Date): (r: Option<string>)
      reads this
      ensures r.Some? <==> DateKey(date) in holidays
      ensures r.Some? ==> r.value == holidays[DateKey(date)]
    {
      LookUp(holidays, date)
    }
  }
}
