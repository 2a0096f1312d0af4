/** The CSV export: a header line and one line per event, every cell wrapped
    in double quotes, cells joined by commas and lines by newlines. Quotes
    and newlines inside a cell are written as they are. */
module ExportCsv {
  import opened JsDate
  import opened Types

  /** Array.prototype.join: the parts with sep between neighbours. */
  function Join(parts: seq<string>, sep: string): string {
    if |parts| == 0 then ""
    else if |parts| == 1 then parts[0]
    else parts[0] + sep + Join(parts[1..], sep)
  }

  /** The index of the first c in s. */
  function FirstIndexOf(s: string, c: char): (i: nat)
    requires c in s
    ensures i < |s| && s[i] == c && c !in s[..i]
  {
    if s[0] == c then 0 else FirstIndexOf(s[1..], c) + 1
  }

  /** String.prototype.split on one character: the pieces between the
      occurrences of c, so a string without c is one piece. */
  function Split(s: string, c: char): (r: seq<string>)
    ensures |r| >= 1
    decreases |s|
  {
    if c in s then
      var i := FirstIndexOf(s, c);
      [s[..i]] + Split(s[i + 1..], c)
    else [s]
  }

  /** The template literal `"${cell}"`. */
  function Quote(cell: string): string {
    "\"" + cell + "\""
  }

  function QuoteAll(cells: seq<string>): (r: seq<string>)
    ensures |r| == |cells|
  {
    if cells == [] then [] else [Quote(cells[0])] + QuoteAll(cells[1..])
  }

  /** One line of the file: the quoted cells joined by commas. */
  function CsvLine(cells: seq<string>): string {
    Join(QuoteAll(cells), ",")
  }

  const Headers: seq<string> := ["Title", "Description", "Start", "End", "Color", "All Day"]

  /** `event.description || ''`: a missing description is empty. */
  function DescriptionText(description: Option<string>): string {
    match description
    case None => ""
    case Some(d) => d
  }

  /** A missing colour is interpolated as the text "undefined". */
  function ColorText(color: Option<string>): string {
    match color
    case None => "undefined"
    case Some(c) => c
  }

  /** `event.isAllDay ? 'true' : 'false'`: only a present true is "true". */
  function AllDayText(isAllDay: Option<bool>): (r: string)
    ensures r == "true" <==> isAllDay == Some(true)
    ensures '\n' !in r && '"' !in r && ',' !in r
  {
    if isAllDay == Some(true) then "true" else "false"
  }

  /** The six cells of an event: its text, then its times (UTC ISO strings)
      and its style. */
  function RowCells(event: CalendarEvent, utcOffsetMs: int): (r: seq<string>)
    ensures |r| == |Headers|
  {
    [event.title, DescriptionText(event.description)] + TimeAndStyleCells(event, utcOffsetMs)
  }

  /** The last four cells of an event's line. */
  function TimeAndStyleCells(event: CalendarEvent, utcOffsetMs: int): (r: seq<string>)
    ensures |r| == 4
  {
    [ToIsoString(event.start, utcOffsetMs), ToIsoString(event.end, utcOffsetMs),
     ColorText(event.color), AllDayText(event.isAllDay)]
  }

  /** `events.map(...)`: one line per event, in order. */
  function Rows(events: seq<CalendarEvent>, utcOffsetMs: int): seq<string> {
    seq(|events|, i requires 0 <= i < |events| => CsvLine(RowCells(events[i], utcOffsetMs)))
  }

  /** The exported text: the header line, then the event lines, with no
      newline after the last. */
  function CsvContent(events: seq<CalendarEvent>, utcOffsetMs: int): string {
    Join([CsvLine(Headers)] + Rows(events, utcOffsetMs), "\n")
  }

  // ------------------------------------------------------------ lines

  /** Neither a newline nor a double quote. */
  predicate Plain(s: string) {
    '\n' !in s && '"' !in s
  }

  /** The text fields an event contributes are plain. */
  predicate PlainEvent(event: CalendarEvent) {
    Plain(event.title) && Plain(DescriptionText(event.description)) && Plain(ColorText(event.color))
  }

  /** Every cell is plain. */
  predicate PlainCells(cells: seq<string>) {
    forall k :: 0 <= k < |cells| ==> Plain(cells[k])
  }

  /** The text fields an event contributes hold no newline. */
  predicate OneLineEvent(event: CalendarEvent) {
    '\n' !in event.title && '\n' !in DescriptionText(event.description) && '\n' !in ColorText(event.color)
  }

  /** No cell holds a newline. */
  predicate OneLineCells(cells: seq<string>) {
    forall k :: 0 <= k < |cells| ==> '\n' !in cells[k]
  }

  /** A plain event is a one-line event. */
  lemma PlainEventOneLine(events: seq<CalendarEvent>)
    requires forall i :: 0 <= i < |events| ==> PlainEvent(events[i])
    ensures forall i :: 0 <= i < |events| ==> OneLineEvent(events[i])
  {
    forall i | 0 <= i < |events|
      ensures OneLineEvent(events[i])
    {
      assert PlainEvent(events[i]);
    }
  }

  lemma HeadersOneLine()
    ensures OneLineCells(Headers)
  {
    forall k | 0 <= k < |Headers|
      ensures '\n' !in Headers[k]
    {
    }
  }

  /** Every cell of a one-line event's line is free of newlines. */
  lemma RowCellsOneLine(event: CalendarEvent, utcOffsetMs: int)
    requires OneLineEvent(event)
    ensures OneLineCells(RowCells(event, utcOffsetMs))
  {
  }

  /** The time and style cells are plain whenever the colour is. */
  lemma TimeAndStyleCellsPlain(event: CalendarEvent, utcOffsetMs: int)
    requires Plain(ColorText(event.color))
    ensures PlainCells(TimeAndStyleCells(event, utcOffsetMs))
  {
  }

  /** Every cell of a plain event's line is plain. */
  lemma RowCellsPlain(event: CalendarEvent, utcOffsetMs: int)
    requires PlainEvent(event)
    ensures PlainCells(RowCells(event, utcOffsetMs))
  {
    TimeAndStyleCellsPlain(event, utcOffsetMs);
  }

  /** A line of cells free of newlines has no newline. */
  lemma {:induction false} CsvLineNoNewline(cells: seq<string>)
    requires OneLineCells(cells)
    ensures '\n' !in CsvLine(cells)
  {
    if cells != [] {
      CsvLineUnfold(cells);
      assert '\n' !in Quote(cells[0]) by {
        assert '\n' !in cells[0];
      }
      if |cells| > 1 {
        CsvLineNoNewline(cells[1..]);
      }
    }
  }

  /** Splitting at the first c. */
  lemma SplitFirst(a: string, b: string, c: char)
    requires c !in a
    ensures Split(a + [c] + b, c) == [a] + Split(b, c)
  {
    var s := a + [c] + b;
    assert s[|a|] == c;
    var i := FirstIndexOf(s, c);
    assert s[..i] == a;
    assert s[i + 1..] == b;
  }

  /** Splitting a join undoes it when no part holds the separator. */
  lemma {:induction false} SplitJoin(parts: seq<string>, c: char)
    requires |parts| >= 1
    requires forall i :: 0 <= i < |parts| ==> c !in parts[i]
    ensures Split(Join(parts, [c]), c) == parts
  {
    if |parts| > 1 {
      SplitJoin(parts[1..], c);
      SplitFirst(parts[0], Join(parts[1..], [c]), c);
      assert parts[0] + [c] + Join(parts[1..], [c]) == Join(parts, [c]);
      assert parts == [parts[0]] + parts[1..];
    }
  }

  /** The lines of the file: the header line, then one per event. */
  function Lines(events: seq<CalendarEvent>, utcOffsetMs: int): (r: seq<string>)
    ensures |r| == |events| + 1
  {
    [CsvLine(Headers)] + Rows(events, utcOffsetMs)
  }

  /** A one-line event's line has no newline. */
  lemma RowNoNewline(events: seq<CalendarEvent>, utcOffsetMs: int, i: int)
    requires 0 <= i < |events| && OneLineEvent(events[i])
    ensures '\n' !in Rows(events, utcOffsetMs)[i]
  {
    RowCellsOneLine(events[i], utcOffsetMs);
    CsvLineNoNewline(RowCells(events[i], utcOffsetMs));
  }

  /** A character in none of the parts is in no part of the parts with a
      head put in front, when the head is free of it too. */
  lemma ConsAvoids(head: string, parts: seq<string>, c: char)
    requires c !in head && forall i :: 0 <= i < |parts| ==> c !in parts[i]
    ensures forall i :: 0 <= i < |[head] + parts| ==> c !in ([head] + parts)[i]
  {
  }

  /** When no event's text holds a newline, no line holds a newline. */
  lemma LinesNoNewline(events: seq<CalendarEvent>, utcOffsetMs: int)
    requires forall i :: 0 <= i < |events| ==> OneLineEvent(events[i])
    ensures forall i :: 0 <= i < |events| + 1 ==> '\n' !in Lines(events, utcOffsetMs)[i]
  {
    HeadersOneLine();
    CsvLineNoNewline(Headers);
    forall i | 0 <= i < |events|
      ensures '\n' !in Rows(events, utcOffsetMs)[i]
    {
      RowNoNewline(events, utcOffsetMs, i);
    }
    ConsAvoids(CsvLine(Headers), Rows(events, utcOffsetMs), '\n');
  }

  /** When no event's text holds a newline, the file splits on newlines
      into exactly the header line followed by one line per event, in
      order. */
  lemma ExportLines(events: seq<CalendarEvent>, utcOffsetMs: int)
    requires forall i :: 0 <= i < |events| ==> OneLineEvent(events[i])
    ensures Split(CsvContent(events, utcOffsetMs), '\n') == Lines(events, utcOffsetMs)
    ensures |Split(CsvContent(events, utcOffsetMs), '\n')| == |events| + 1
    ensures Split(CsvContent(events, utcOffsetMs), '\n')[0] == CsvLine(Headers)
  {
    LinesNoNewline(events, utcOffsetMs);
    SplitJoin(Lines(events, utcOffsetMs), '\n');
  }

  // ------------------------------------------------------------ cells

  /** A cell free of quotes ends at the first quote after the opening one. */
  lemma QuotedPrefix(x: string, y: string, z1: string, z2: string)
    requires '"' !in x && '"' !in y
    requires Quote(x) + z1 == Quote(y) + z2
    ensures x == y && z1 == z2
  {
    var s := Quote(x) + z1;
    assert s[1 + |x|] == '"';
    assert s[1 + |y|] == '"';
    assert x == s[1..1 + |x|];
    assert y == s[1..1 + |y|];
    assert z1 == s[2 + |x|..];
    assert z2 == s[2 + |y|..];
  }

  lemma CsvLineUnfold(cells: seq<string>)
    requires |cells| >= 1
    ensures CsvLine(cells) == Quote(cells[0]) + (if |cells| == 1 then "" else "," + CsvLine(cells[1..]))
  {
    if |cells| > 1 {
      assert QuoteAll(cells)[1..] == QuoteAll(cells[1..]);
    }
  }

  /** Two equal lines of cells free of quotes start with the same cell and
      continue with equal lines of the remaining cells, or both end. */
  lemma CsvLineHeads(a: seq<string>, b: seq<string>)
    requires |a| >= 1 && |b| >= 1 && '"' !in a[0] && '"' !in b[0]
    requires CsvLine(a) == CsvLine(b)
    ensures a[0] == b[0] && (|a| == 1 <==> |b| == 1)
    ensures |a| > 1 ==> CsvLine(a[1..]) == CsvLine(b[1..])
  {
    CsvLineUnfold(a);
    CsvLineUnfold(b);
    var ra := if |a| == 1 then "" else "," + CsvLine(a[1..]);
    var rb := if |b| == 1 then "" else "," + CsvLine(b[1..]);
    QuotedPrefix(a[0], b[0], ra, rb);
    if |a| > 1 && |b| > 1 {
      assert CsvLine(a[1..]) == ra[1..] == rb[1..] == CsvLine(b[1..]);
    }
  }

  /** A line determines its cells when no cell holds a double quote. */
  lemma {:induction false} CsvLineInjective(a: seq<string>, b: seq<string>)
    requires PlainCells(a) && PlainCells(b)
    requires CsvLine(a) == CsvLine(b)
    ensures a == b
  {
    if a != [] && b != [] {
      assert Plain(a[0]) && Plain(b[0]);
      CsvLineHeads(a, b);
      if |a| > 1 {
        CsvLineInjective(a[1..], b[1..]);
        assert a == [a[0]] + a[1..];
        assert b == [b[0]] + b[1..];
      }
    } else if a != [] {
      CsvLineUnfold(a);
    } else if b != [] {
      CsvLineUnfold(b);
    }
  }

  /** For events whose text holds no newline and no double quote, the file
      determines the number of events and every cell of every event. */
  lemma ExportDeterminesCells(e1: seq<CalendarEvent>, e2: seq<CalendarEvent>, utcOffsetMs: int)
    requires forall i :: 0 <= i < |e1| ==> PlainEvent(e1[i])
    requires forall i :: 0 <= i < |e2| ==> PlainEvent(e2[i])
    requires CsvContent(e1, utcOffsetMs) == CsvContent(e2, utcOffsetMs)
    ensures |e1| == |e2|
    ensures forall i :: 0 <= i < |e1| ==> RowCells(e1[i], utcOffsetMs) == RowCells(e2[i], utcOffsetMs)
  {
    PlainEventOneLine(e1);
    PlainEventOneLine(e2);
    ExportLines(e1, utcOffsetMs);
    ExportLines(e2, utcOffsetMs);
    var l1, l2 := Lines(e1, utcOffsetMs), Lines(e2, utcOffsetMs);
    forall i | 0 <= i < |e1|
      ensures RowCells(e1[i], utcOffsetMs) == RowCells(e2[i], utcOffsetMs)
    {
      assert l1[i + 1] == Rows(e1, utcOffsetMs)[i];
      assert l2[i + 1] == Rows(e2, utcOffsetMs)[i];
      RowCellsPlain(e1[i], utcOffsetMs);
      RowCellsPlain(e2[i], utcOffsetMs);
      CsvLineInjective(RowCells(e1[i], utcOffsetMs), RowCells(e2[i], utcOffsetMs));
    }
  }

  /** The line of two cells and a tail. */
  lemma PairLine(p: string, q: string, tail: seq<string>)
    ensures CsvLine([p, q] + tail) == Quote(p) + "," + Quote(q) + (if tail == [] then "" else "," + CsvLine(tail))
  {
    var cells := [p, q] + tail;
    CsvLineUnfold(cells);
    assert cells[1..] == [q] + tail;
    CsvLineUnfold(cells[1..]);
    assert cells[1..][1..] == tail;
  }

  /** The quoted text of two neighbouring cells is unchanged when `","`
      moves from the end of the first to the start of the second. */
  lemma QuoteShift(x: string, y: string, z: string)
    ensures Quote(x + "\",\"" + y) + "," + Quote(z) == Quote(x) + "," + Quote(y + "\",\"" + z)
  {
    assert Quote(x + "\",\"" + y) + "," + Quote(z) == "\"" + x + "\",\"" + y + "\",\"" + z + "\"";
    assert Quote(x) + "," + Quote(y + "\",\"" + z) == "\"" + x + "\",\"" + y + "\",\"" + z + "\"";
  }

  /** Without quote escaping, a quote in a cell is ambiguous: the text
      `","` can move across a cell boundary and leave the line unchanged. */
  lemma QuoteAcrossCells(x: string, y: string, z: string, tail: seq<string>)
    ensures CsvLine([x + "\",\"" + y, z] + tail) == CsvLine([x, y + "\",\"" + z] + tail)
  {
    PairLine(x + "\",\"" + y, z, tail);
    PairLine(x, y + "\",\"" + z, tail);
    QuoteShift(x, y, z);
  }

  /** So two events that differ only in title and description can export
      the same file: any title x + `","` + y with description z, and title x
      with description y + `","` + z. */
  lemma ExportIsAmbiguous(event: CalendarEvent, x: string, y: string, z: string, utcOffsetMs: int)
    ensures var e1 := event.(title := x + "\",\"" + y, description := Some(z));
      var e2 := event.(title := x, description := Some(y + "\",\"" + z));
      e1 != e2 && CsvContent([e1], utcOffsetMs) == CsvContent([e2], utcOffsetMs)
  {
    var e1 := event.(title := x + "\",\"" + y, description := Some(z));
    var e2 := event.(title := x, description := Some(y + "\",\"" + z));
    assert |e1.title| != |e2.title|;
    var tail := TimeAndStyleCells(event, utcOffsetMs);
    QuoteAcrossCells(x, y, z, tail);
    assert RowCells(e1, utcOffsetMs) == [x + "\",\"" + y, z] + tail;
    assert RowCells(e2, utcOffsetMs) == [x, y + "\",\"" + z] + tail;
    SameLine(e1, e2, utcOffsetMs);
  }

  lemma SameLine(a: CalendarEvent, b: CalendarEvent, utcOffsetMs: int)
    requires CsvLine(RowCells(a, utcOffsetMs)) == CsvLine(RowCells(b, utcOffsetMs))
    ensures CsvContent([a], utcOffsetMs) == CsvContent([b], utcOffsetMs)
  {
    SingletonsEqual(Rows([a], utcOffsetMs), Rows([b], utcOffsetMs));
  }

  lemma SingletonsEqual(s: seq<string>, t: seq<string>)
    requires |s| == 1 && |t| == 1 && s[0] == t[0]
    ensures s == t
  {
  }
}
