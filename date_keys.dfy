/** The text key under which the holiday and weather tables file a day:
    year, 1-based month and day of the month, unpadded, joined by '-'. */
module DateKeys {
  import opened JsDate
  import opened Decimal
  import opened Types

  /** `${year}-${month + 1}-${day}` for a month index and a day number. */
  function DateKeyOf(year: int, month: nat, day: nat): string {
    IntToString(year) + "-" + NatToString(month + 1) + "-" + NatToString(day)
  }

  /** The key of a Date's local year, month and day. */
  function DateKey(date: Date): string {
    DateKeyOf(GetFullYear(date), GetMonth(date), GetDate(date))
  }

  /** A table lookup by a Date's key: the entry when there is one, as
      indexing a JavaScript record with a missing key gives undefined. */
  function LookUp<V>(table: map<string, V>, date: Date): Option<V> {
    var dateKey := DateKey(date);
    if dateKey in table then Some(table[dateKey]) else None
  }

  /** Splitting at the last separator: when neither tail holds the
      separator, equal joins have equal heads and equal tails. */
  lemma SplitAtLast(a: string, b: string, c: string, d: string)
    requires '-' !in b && '-' !in d
    requires a + "-" + b == c + "-" + d
    ensures a == c && b == d
  {
    var s := a + "-" + b;
    assert s[|s| - 1 - |b|] == '-';
    assert s[|s| - 1 - |d|] == '-';
    assert b == s[|s| - |b|..];
    assert d == s[|s| - |d|..];
    assert a == s[..|a|];
    assert c == s[..|c|];
  }

  lemma NoDash(n: nat)
    ensures '-' !in NatToString(n)
  {
  }

  /** Different days have different keys: the key determines the year, the
      month and the day it was made from. */
  lemma DateKeyOfInjective(y1: int, m1: nat, d1: nat, y2: int, m2: nat, d2: nat)
    requires DateKeyOf(y1, m1, d1) == DateKeyOf(y2, m2, d2)
    ensures y1 == y2 && m1 == m2 && d1 == d2
  {
    NoDash(m1 + 1);
    NoDash(m2 + 1);
    NoDash(d1);
    NoDash(d2);
    SplitAtLast(IntToString(y1) + "-" + NatToString(m1 + 1), NatToString(d1),
                IntToString(y2) + "-" + NatToString(m2 + 1), NatToString(d2));
    SplitAtLast(IntToString(y1), NatToString(m1 + 1), IntToString(y2), NatToString(m2 + 1));
    IntToStringInjective(y1, y2);
    NatToStringInjective(m1 + 1, m2 + 1);
    NatToStringInjective(d1, d2);
  }

  /** Two Dates share a key exactly when they fall on the same local day,
      whatever their times of day. */
  lemma DateKeySameDay(a: Date, b: Date)
    ensures DateKey(a) == DateKey(b) <==> Day(a) == Day(b)
  {
    if DateKey(a) == DateKey(b) {
      DateKeyOfInjective(GetFullYear(a), GetMonth(a), GetDate(a), GetFullYear(b), GetMonth(b), GetDate(b));
    }
    SameYmdIffSameDay(a, b);
  }
}
