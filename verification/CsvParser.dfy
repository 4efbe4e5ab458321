/**
 The CSV parser of examples/csv_fdw.js, its printers, and the by-name mapping of
 fields to columns.
 */
module CsvParser {
  import opened JsStrings
  import opened Options
  import opened Sequences

  const LF: CodeUnit := 10
  const CR: CodeUnit := 13

  type Fields = seq<JsString>

  // ----- the parser

  /** The variables of the parsing loop, but for its position. */
  datatype State = State(rows: seq<Fields>, row: Fields, field: JsString, inQuotes: bool)

  const INITIAL: State := State([], [], [], false)

  /** The delimiter and the quote, both strings as the options give them. */
  datatype Dialect = Dialect(delimiter: JsString, quotechar: JsString)

  function EndField(st: State): State {
    st.(row := st.row + [st.field], field := [])
  }

  function EndRow(st: State): State {
    var ended := EndField(st);
    ended.(rows := ended.rows + [ended.row], row := [])
  }

  /** One round of the loop at the front of `s`, and how many code units it takes. */
  function Round(d: Dialect, s: JsString, st: State): (r: (State, nat))
    requires s != []
    ensures 1 <= r.1 <= |s|
  {
    var isQuote := d.quotechar == [s[0]];
    if st.inQuotes then
      if isQuote then
        if |s| > 1 && [s[1]] == d.quotechar then (st.(field := st.field + d.quotechar), 2)
        else (st.(inQuotes := false), 1)
      else (st.(field := st.field + [s[0]]), 1)
    else if isQuote && st.field == [] then (st.(inQuotes := true), 1)
    else if d.delimiter == [s[0]] then (EndField(st), 1)
    else if s[0] == CR then (EndRow(st), if |s| > 1 && s[1] == LF then 2 else 1)
    else if s[0] == LF then (EndRow(st), 1)
    else (st.(field := st.field + [s[0]]), 1)
  }

  function Run(d: Dialect, s: JsString, st: State): State
    decreases |s|
  {
    if s == [] then st
    else
      var r := Round(d, s, st);
      Run(d, s[r.1..], r.0)
  }

  /** The last row, if the text does not end in a row separator. */
  function Flush(st: State): seq<Fields> {
    if st.field != [] || st.row != [] then EndRow(st).rows else st.rows
  }

  function Parse(d: Dialect, text: JsString): seq<Fields> {
    Flush(Run(d, text, INITIAL))
  }

  method ParseCsv(text: JsString, delimiter: JsString, quotechar: JsString) returns (rows: seq<Fields>)
    ensures rows == Parse(Dialect(delimiter, quotechar), text)
  {
    hide Run;
    ghost var d := Dialect(delimiter, quotechar);
    rows := [];
    var row: Fields, field: JsString, inQuotes := [], [], false;
    var i := 0;
    RunAt(d, text, 0, INITIAL);
    while i < |text|
      invariant 0 <= i <= |text|
      invariant Run(d, text, INITIAL) == Run(d, text[i..], State(rows, row, field, inQuotes))
    {
      RunAt(d, text, i, State(rows, row, field, inQuotes));
      var c := text[i];
      if inQuotes {
        if [c] == quotechar {
          if i + 1 < |text| && [text[i + 1]] == quotechar {
            field := field + quotechar;
            i := i + 2;
          } else {
            inQuotes := false;
            i := i + 1;
          }
        } else {
          field := field + [c];
          i := i + 1;
        }
        continue;
      }
      if [c] == quotechar && |field| == 0 {
        inQuotes := true;
        i := i + 1;
      } else if [c] == delimiter {
        row, field := row + [field], [];
        i := i + 1;
      } else if c == CR {
        if i + 1 < |text| && text[i + 1] == LF {
          i := i + 1;
        }
        rows, row, field := rows + [row + [field]], [], [];
        i := i + 1;
      } else if c == LF {
        rows, row, field := rows + [row + [field]], [], [];
        i := i + 1;
      } else {
        field := field + [c];
        i := i + 1;
      }
    }
    RunAt(d, text, i, State(rows, row, field, inQuotes));
    if |field| > 0 || |row| > 0 {
      rows := rows + [row + [field]];
    }
  }

  lemma RunAt(d: Dialect, text: JsString, i: nat, st: State)
    requires i <= |text|
    ensures i == 0 ==> text[i..] == text
    ensures i == |text| ==> Run(d, text[i..], st) == st
    ensures i < |text| ==>
      var r := Round(d, text[i..], st);
      text[i..][0] == text[i] && (i + 1 < |text| ==> text[i..][1] == text[i + 1])
      && Run(d, text[i..], st) == Run(d, text[i + r.1..], r.0)
  {
    if i < |text| {
      var r := Round(d, text[i..], st);
      assert text[i..][r.1..] == text[i + r.1..];
    }
  }

  // ----- printing

  /** A field as written: between quotes with its quotes doubled, or as it is. */
  datatype Cell = Quoted(value: JsString) | Bare(value: JsString)

  datatype Ending = EndLf | EndCrLf | EndCr

  /** The delimiter and the quote are distinct single characters, neither of them a line end. */
  predicate Proper(d: Dialect) {
    && |d.delimiter| == 1 && |d.quotechar| == 1 && d.delimiter != d.quotechar
    && d.delimiter != [CR] && d.delimiter != [LF] && d.quotechar != [CR] && d.quotechar != [LF]
  }

  predicate Plain(d: Dialect, c: CodeUnit) {
    [c] != d.delimiter && c != CR && c != LF
  }

  /** A bare field has no delimiter or line end in it and does not start with a quote. */
  predicate Writable(d: Dialect, cell: Cell) {
    cell.Bare? ==>
      && (forall i :: 0 <= i < |cell.value| ==> Plain(d, cell.value[i]))
      && (cell.value != [] ==> [cell.value[0]] != d.quotechar)
  }

  function PrintCell(d: Dialect, cell: Cell): JsString {
    match cell
    case Quoted(v) => d.quotechar + Doubled(v, d.quotechar) + d.quotechar
    case Bare(v) => v
  }

  function PrintEnding(e: Ending): JsString {
    match e
    case EndLf => [LF]
    case EndCrLf => [CR, LF]
    case EndCr => [CR]
  }

  lemma EndingsAre()
    ensures PrintEnding(EndLf) == Ascii("\n") && PrintEnding(EndCr) == Ascii("\r")
    ensures PrintEnding(EndCrLf) == Ascii("\r\n")
  {
  }

  /** Cells with delimiters between them. */
  function PrintCells(d: Dialect, cells: seq<Cell>): JsString
    requires cells != []
  {
    if |cells| == 1 then PrintCell(d, cells[0])
    else PrintCell(d, cells[0]) + d.delimiter + PrintCells(d, cells[1..])
  }

  datatype Line = Line(cells: seq<Cell>, ending: Ending)

  function PrintLines(d: Dialect, lines: seq<Line>): JsString
    requires forall i :: 0 <= i < |lines| ==> lines[i].cells != []
  {
    if lines == [] then []
    else PrintCells(d, lines[0].cells) + PrintEnding(lines[0].ending) + PrintLines(d, lines[1..])
  }

  function Values(cells: seq<Cell>): Fields {
    seq(|cells|, i requires 0 <= i < |cells| => cells[i].value)
  }

  function AllValues(lines: seq<Line>): seq<Fields> {
    seq(|lines|, i requires 0 <= i < |lines| => Values(lines[i].cells))
  }

  /** A line that prints as its line feed alone; after a lone CR it would be taken for the rest of CR LF. */
  predicate IsBareLf(line: Line) {
    line.cells == [Bare([])] && line.ending == EndLf
  }

  predicate PrintableLines(d: Dialect, lines: seq<Line>) {
    && (forall i :: 0 <= i < |lines| ==> lines[i].cells != [])
    && (forall i, j :: 0 <= i < |lines| && 0 <= j < |lines[i].cells| ==> Writable(d, lines[i].cells[j]))
    && (forall i :: 0 <= i < |lines| - 1 && lines[i].ending == EndCr ==> !IsBareLf(lines[i + 1]))
  }

  // ----- the parser undoes the printers

  lemma RunRound(d: Dialect, s: JsString, st: State, k: nat, rest: JsString, st': State)
    requires s != [] && k <= |s| && s[k..] == rest && Round(d, s, st) == (st', k)
    ensures Run(d, s, st) == Run(d, rest, st')
  {
  }

  /** Inside quotes the doubled text is read back, up to a quote that is not followed by another. */
  lemma {:induction false} RunDoubled(d: Dialect, v: JsString, rest: JsString, st: State)
    requires Proper(d) && st.inQuotes
    requires rest == [] || [rest[0]] != d.quotechar
    ensures Run(d, Doubled(v, d.quotechar) + d.quotechar + rest, st)
       == Run(d, rest, st.(field := st.field + v, inQuotes := false))
    decreases |v|
  {
    hide Run;
    var q := d.quotechar[0];
    assert d.quotechar == [q];
    var s := Doubled(v, d.quotechar) + d.quotechar + rest;
    if v == [] {
      assert s == [q] + rest;
      RunRound(d, s, st, 1, rest, st.(inQuotes := false));
      assert st.field + v == st.field;
    } else {
      var tail := Doubled(v[1..], d.quotechar) + d.quotechar + rest;
      var k := if v[0] == q then 2 else 1;
      assert s[k..] == tail;
      assert s[0] == v[0];
      var next := st.(field := st.field + [v[0]]);
      RunRound(d, s, st, k, tail, next);
      RunDoubled(d, v[1..], rest, next);
      assert st.field + [v[0]] + v[1..] == st.field + v;
    }
  }

  lemma {:induction false} RunBare(d: Dialect, v: JsString, rest: JsString, st: State)
    requires Proper(d) && !st.inQuotes
    requires forall i :: 0 <= i < |v| ==> Plain(d, v[i])
    requires v == [] || st.field != [] || [v[0]] != d.quotechar
    ensures Run(d, v + rest, st) == Run(d, rest, st.(field := st.field + v))
    decreases |v|
  {
    hide Run;
    if v == [] {
      assert v + rest == rest && st.field + v == st.field;
    } else {
      var next := st.(field := st.field + [v[0]]);
      assert (v + rest)[1..] == v[1..] + rest;
      RunRound(d, v + rest, st, 1, v[1..] + rest, next);
      RunBare(d, v[1..], rest, next);
      assert st.field + [v[0]] + v[1..] == st.field + v;
    }
  }

  lemma RunCell(d: Dialect, cell: Cell, rest: JsString, st: State)
    requires Proper(d) && Writable(d, cell) && !st.inQuotes && st.field == []
    requires rest == [] || [rest[0]] != d.quotechar
    ensures Run(d, PrintCell(d, cell) + rest, st) == Run(d, rest, st.(field := cell.value))
  {
    hide Run, Doubled;
    assert [] + cell.value == cell.value;
    match cell
    case Bare(v) =>
      RunBare(d, v, rest, st);
    case Quoted(v) =>
      var q := d.quotechar[0];
      assert d.quotechar == [q];
      var tail := Doubled(v, d.quotechar) + d.quotechar + rest;
      assert PrintCell(d, cell) + rest == [q] + tail;
      RunRound(d, [q] + tail, st, 1, tail, st.(inQuotes := true));
      RunDoubled(d, v, rest, st.(inQuotes := true));
  }

  /** The state just before a row's last field is ended. */
  function AtLast(st: State, row: Fields): State
    requires row != []
  {
    st.(row := row[..|row| - 1], field := row[|row| - 1])
  }

  lemma EndingAtLast(st: State, row: Fields)
    requires row != [] && st.row == [] && st.field == []
    ensures EndRow(AtLast(st, row)) == st.(rows := st.rows + [row])
    ensures Flush(AtLast(st, row)) == if row == [[]] then st.rows else st.rows + [row]
  {
    assert row[..|row| - 1] + [row[|row| - 1]] == row;
    if row[..|row| - 1] == [] && row[|row| - 1] == [] {
      assert row == [[]];
    }
  }

  lemma {:induction false} RunCells(d: Dialect, cells: seq<Cell>, rest: JsString, st: State)
    requires Proper(d) && cells != [] && (forall i :: 0 <= i < |cells| ==> Writable(d, cells[i]))
    requires !st.inQuotes && st.field == []
    requires rest == [] || [rest[0]] != d.quotechar
    ensures Run(d, PrintCells(d, cells) + rest, st) == Run(d, rest, AtLast(st, st.row + Values(cells)))
    decreases |cells|
  {
    hide Run, PrintCell, Writable;
    var all := st.row + Values(cells);
    if |cells| == 1 {
      RunCell(d, cells[0], rest, st);
      assert all[..|all| - 1] == st.row;
    } else {
      var tail := PrintCells(d, cells[1..]) + rest;
      assert PrintCells(d, cells) + rest == PrintCell(d, cells[0]) + (d.delimiter + tail);
      RunCell(d, cells[0], d.delimiter + tail, st);
      var ended := st.(field := cells[0].value);
      assert (d.delimiter + tail)[1..] == tail;
      RunRound(d, d.delimiter + tail, ended, 1, tail, EndField(ended));
      RunCells(d, cells[1..], rest, EndField(ended));
      assert EndField(ended).row + Values(cells[1..]) == all;
    }
  }

  lemma RunEnding(d: Dialect, e: Ending, rest: JsString, st: State)
    requires Proper(d) && !st.inQuotes
    requires e == EndCr ==> rest == [] || rest[0] != LF
    ensures Run(d, PrintEnding(e) + rest, st) == Run(d, rest, EndRow(st))
  {
    hide Run;
    var s := PrintEnding(e) + rest;
    assert s[|PrintEnding(e)|..] == rest;
    assert d.quotechar != [s[0]] && d.delimiter != [s[0]];
    RunRound(d, s, st, |PrintEnding(e)|, rest, EndRow(st));
  }

  /** A printed line starts with a line feed only if it is a bare one. */
  lemma LineStart(d: Dialect, line: Line, rest: JsString)
    requires Proper(d) && line.cells != [] && (forall i :: 0 <= i < |line.cells| ==> Writable(d, line.cells[i]))
    ensures var s := PrintCells(d, line.cells) + PrintEnding(line.ending) + rest;
            s != [] && (s[0] == LF ==> IsBareLf(line))
  {
    hide Doubled;
    var s := PrintCells(d, line.cells) + PrintEnding(line.ending) + rest;
    var cell := line.cells[0];
    if cell.Quoted? {
      assert s[0] == d.quotechar[0];
    } else if cell.value != [] {
      assert Plain(d, cell.value[0]);
      assert s[0] == cell.value[0];
    } else if |line.cells| > 1 {
      assert s[0] == d.delimiter[0];
    } else {
      assert PrintCells(d, line.cells) == [];
      assert line.cells == [cell];
      assert s[0] == PrintEnding(line.ending)[0];
    }
  }

  predicate PrintableLine(d: Dialect, line: Line) {
    line.cells != [] && forall i :: 0 <= i < |line.cells| ==> Writable(d, line.cells[i])
  }

  lemma RegroupLine(a: JsString, b: JsString, c: JsString)
    ensures a + b + c == a + (b + c)
  {
  }

  lemma EndingStart(d: Dialect, e: Ending, rest: JsString)
    requires Proper(d)
    ensures PrintEnding(e) + rest != [] && [(PrintEnding(e) + rest)[0]] != d.quotechar
  {
  }

  lemma AtLastOutside(st: State, row: Fields)
    requires row != []
    ensures AtLast(st, row).inQuotes == st.inQuotes
  {
  }

  lemma {:induction false} RunLine(d: Dialect, line: Line, rest: JsString, st: State)
    requires Proper(d) && PrintableLine(d, line) && st.row == [] && st.field == [] && !st.inQuotes
    requires line.ending == EndCr ==> rest == [] || rest[0] != LF
    ensures Run(d, PrintCells(d, line.cells) + PrintEnding(line.ending) + rest, st)
         == Run(d, rest, st.(rows := st.rows + [Values(line.cells)]))
  {
    hide Run, PrintCells, Writable, AtLast, EndRow, PrintEnding;
    var e := PrintEnding(line.ending);
    RegroupLine(PrintCells(d, line.cells), e, rest);
    EndingStart(d, line.ending, rest);
    RunCells(d, line.cells, e + rest, st);
    var row := Values(line.cells);
    assert st.row + row == row;
    EndingAtLast(st, row);
    AtLastOutside(st, row);
    RunEnding(d, line.ending, rest, AtLast(st, row));
  }

  lemma FirstLine(d: Dialect, lines: seq<Line>, rest: JsString)
    requires lines != [] && forall i :: 0 <= i < |lines| ==> lines[i].cells != []
    ensures PrintLines(d, lines) + rest
         == PrintCells(d, lines[0].cells) + PrintEnding(lines[0].ending) + (PrintLines(d, lines[1..]) + rest)
  {
    hide PrintCells, PrintEnding;
    RegroupLine(PrintCells(d, lines[0].cells) + PrintEnding(lines[0].ending), PrintLines(d, lines[1..]), rest);
  }

  lemma NoLines(d: Dialect, rest: JsString)
    ensures PrintLines(d, []) + rest == rest
  {
  }

  lemma AllValuesStep(rows: seq<Fields>, lines: seq<Line>)
    ensures lines == [] ==> rows + AllValues(lines) == rows
    ensures lines != [] ==> rows + AllValues(lines) == rows + [Values(lines[0].cells)] + AllValues(lines[1..])
  {
  }

  lemma {:induction false} RunLines(d: Dialect, lines: seq<Line>, rest: JsString, st: State)
    requires Proper(d) && PrintableLines(d, lines) && st.row == [] && st.field == [] && !st.inQuotes
    requires lines != [] && lines[|lines| - 1].ending == EndCr ==> rest == [] || rest[0] != LF
    ensures Run(d, PrintLines(d, lines) + rest, st) == Run(d, rest, st.(rows := st.rows + AllValues(lines)))
    decreases |lines|
  {
    hide Run, PrintCells, PrintLines, Writable, Values, AllValues, PrintEnding, IsBareLf;
    AllValuesStep(st.rows, lines);
    if lines == [] {
      NoLines(d, rest);
    } else {
      var tail := PrintLines(d, lines[1..]) + rest;
      FirstLine(d, lines, rest);
      if |lines| == 1 {
        NoLines(d, rest);
        assert lines[1..] == [];
      } else {
        FirstLine(d, lines[1..], rest);
        LineStart(d, lines[1], PrintLines(d, lines[1..][1..]) + rest);
      }
      RunLine(d, lines[0], tail, st);
      var next := st.(rows := st.rows + [Values(lines[0].cells)]);
      RunLines(d, lines[1..], rest, next);
    }
  }

  /** Parsing gives back any rows, over any characters, however their fields are quoted and their lines ended. */
  lemma ParsePrinted(d: Dialect, lines: seq<Line>)
    requires Proper(d) && PrintableLines(d, lines)
    ensures Parse(d, PrintLines(d, lines)) == AllValues(lines)
  {
    RunLines(d, lines, [], INITIAL);
    assert PrintLines(d, lines) + [] == PrintLines(d, lines);
    assert [] + AllValues(lines) == AllValues(lines);
  }

  /** A last line without an end is read too, unless it is a single empty field. */
  lemma ParseUnterminated(d: Dialect, lines: seq<Line>, last: seq<Cell>)
    requires Proper(d) && PrintableLines(d, lines) && PrintableLine(d, Line(last, EndLf))
    ensures var rows := Parse(d, PrintLines(d, lines) + PrintCells(d, last));
            && (rows == AllValues(lines) + [Values(last)] <==> Values(last) != [[]])
            && (Values(last) == [[]] ==> rows == AllValues(lines))
  {
    hide Run, PrintLines, PrintCells, Writable, AtLast, Flush, Values, AllValues, PrintableLines;
    var st := INITIAL.(rows := AllValues(lines));
    var row := Values(last);
    assert INITIAL.rows + AllValues(lines) == AllValues(lines);
    FirstOfCells(d, last);
    RunLines(d, lines, PrintCells(d, last), INITIAL);
    assert row != [] by { ValuesCount(last); }
    assert st.row + row == row;
    RunCells(d, last, [], st);
    assert PrintCells(d, last) + [] == PrintCells(d, last);
    RunNothing(d, AtLast(st, row));
    EndingAtLast(st, row);
  }

  /** Inside quotes that are never closed the doubled text is read to its end. */
  lemma {:induction false} RunOpen(d: Dialect, v: JsString, st: State)
    requires Proper(d) && st.inQuotes
    ensures Run(d, Doubled(v, d.quotechar), st) == st.(field := st.field + v)
    decreases |v|
  {
    hide Run;
    var q := d.quotechar[0];
    assert d.quotechar == [q];
    var s := Doubled(v, d.quotechar);
    if v == [] {
      RunNothing(d, st);
      assert st.field + v == st.field;
    } else {
      var tail := Doubled(v[1..], d.quotechar);
      var k := if v[0] == q then 2 else 1;
      assert s[k..] == tail && s[0] == v[0];
      var next := st.(field := st.field + [v[0]]);
      RunRound(d, s, st, k, tail, next);
      RunOpen(d, v[1..], next);
      assert st.field + [v[0]] + v[1..] == st.field + v;
    }
  }

  /** The fields of a row before its last, each with its delimiter. */
  function PrintFront(d: Dialect, front: seq<Cell>): JsString {
    if front == [] then [] else PrintCells(d, front) + d.delimiter
  }

  lemma {:induction false} RunFront(d: Dialect, front: seq<Cell>, rest: JsString, st: State)
    requires Proper(d) && (forall i :: 0 <= i < |front| ==> Writable(d, front[i]))
    requires !st.inQuotes && st.field == [] && st.row == []
    ensures Run(d, PrintFront(d, front) + rest, st) == Run(d, rest, st.(row := Values(front)))
  {
    hide Run, PrintCells, Writable;
    if front == [] {
      assert PrintFront(d, front) + rest == rest;
    } else {
      var row := Values(front);
      assert PrintFront(d, front) + rest == PrintCells(d, front) + (d.delimiter + rest);
      assert st.row + row == row;
      RunCells(d, front, d.delimiter + rest, st);
      assert (d.delimiter + rest)[1..] == rest;
      RunRound(d, d.delimiter + rest, AtLast(st, row), 1, rest, EndField(AtLast(st, row)));
      assert row[..|row| - 1] + [row[|row| - 1]] == row;
    }
  }

  /** A quote that is open at the end of the text is closed out: its field is the last of the last row. */
  lemma {:induction false} ParseOpenQuote(d: Dialect, lines: seq<Line>, front: seq<Cell>, v: JsString)
    requires Proper(d) && PrintableLines(d, lines) && forall i :: 0 <= i < |front| ==> Writable(d, front[i])
    ensures Parse(d, PrintLines(d, lines) + (PrintFront(d, front) + (d.quotechar + Doubled(v, d.quotechar))))
         == AllValues(lines) + if front == [] && v == [] then [] else [Values(front) + [v]]
  {
    hide Run, PrintLines, Writable, Values, AllValues, PrintableLines, PrintCells, Doubled;
    var open := d.quotechar + Doubled(v, d.quotechar);
    var st := INITIAL.(rows := AllValues(lines));
    assert INITIAL.rows + AllValues(lines) == AllValues(lines);
    FrontStart(d, front, open);
    RunLines(d, lines, PrintFront(d, front) + open, INITIAL);
    RunFront(d, front, open, st);
    var inRow := st.(row := Values(front));
    assert open[1..] == Doubled(v, d.quotechar) && [open[0]] == d.quotechar;
    RunRound(d, open, inRow, 1, Doubled(v, d.quotechar), inRow.(inQuotes := true));
    RunOpen(d, v, inRow.(inQuotes := true));
    assert inRow.field + v == v;
    ValuesCount(front);
  }

  lemma FrontStart(d: Dialect, front: seq<Cell>, open: JsString)
    requires Proper(d) && (forall i :: 0 <= i < |front| ==> Writable(d, front[i]))
    requires open != [] && [open[0]] == d.quotechar
    ensures PrintFront(d, front) + open != [] && (PrintFront(d, front) + open)[0] != LF
  {
    hide PrintCells, Writable;
    if front != [] {
      FirstOfCells(d, front);
    }
  }

  /** A column of two values, the second an empty field in quotes without a line end: it is lost. */
  lemma {:induction false} LastEmptyFieldIsLost()
    ensures Parse(Dialect(Ascii(","), Ascii("\"")), Ascii("a") + [LF] + Ascii("\"\"")) == [[Ascii("a")]]
  {
    hide Run, Flush, AllValues;
    var d := Dialect(Ascii(","), Ascii("\""));
    var line, last := Line([Bare(Ascii("a"))], EndLf), [Quoted([])];
    SmallLine(d, line, last);
    assert Values(last) == [[]];
    ParseUnterminated(d, [line], last);
    OneLine(line);
  }

  lemma OneLine(line: Line)
    ensures AllValues([line]) == [Values(line.cells)]
  {
  }

  lemma SmallLine(d: Dialect, line: Line, last: seq<Cell>)
    requires d == Dialect(Ascii(","), Ascii("\"")) && line == Line([Bare(Ascii("a"))], EndLf)
    requires last == [Quoted([])]
    ensures Proper(d) && PrintableLines(d, [line]) && PrintableLine(d, Line(last, EndLf))
    ensures PrintLines(d, [line]) + PrintCells(d, last) == Ascii("a") + [LF] + Ascii("\"\"")
    ensures Values(line.cells) == [Ascii("a")]
  {
    assert Ascii(",")[0] == 44 && Ascii("\"")[0] == 34 && Ascii("a")[0] == 97;
    assert [line][1..] == [];
    assert PrintLines(d, [line]) == Ascii("a") + [LF];
    assert PrintCells(d, last) == Ascii("\"\"");
  }

  lemma ValuesCount(cells: seq<Cell>)
    ensures |Values(cells)| == |cells|
  {
  }

  lemma RunNothing(d: Dialect, st: State)
    ensures Run(d, [], st) == st
  {
  }

  lemma FirstOfCells(d: Dialect, cells: seq<Cell>)
    requires Proper(d) && cells != [] && forall i :: 0 <= i < |cells| ==> Writable(d, cells[i])
    ensures var s := PrintCells(d, cells); s != [] ==> s[0] != LF
  {
    hide Doubled;
    var s, cell := PrintCells(d, cells), cells[0];
    if cell.Quoted? {
      assert s[0] == d.quotechar[0];
    } else if cell.value != [] {
      assert Plain(d, cell.value[0]);
      assert s[0] == cell.value[0];
    } else if |cells| > 1 {
      assert s[0] == d.delimiter[0];
    }
  }

  // ----- normal form

  /** Every field quoted, every line ended with `e`. */
  function QuoteAll(rows: seq<Fields>, e: Ending): seq<Line> {
    seq(|rows|, i requires 0 <= i < |rows| =>
      Line(seq(|rows[i]|, j requires 0 <= j < |rows[i]| => Quoted(rows[i][j])), e))
  }

  predicate NonEmptyRows(rows: seq<Fields>) {
    forall i :: 0 <= i < |rows| ==> rows[i] != []
  }

  lemma QuoteAllPrintable(d: Dialect, rows: seq<Fields>, e: Ending)
    requires NonEmptyRows(rows)
    ensures PrintableLines(d, QuoteAll(rows, e)) && AllValues(QuoteAll(rows, e)) == rows
  {
    var lines := QuoteAll(rows, e);
    forall i | 0 <= i < |rows|
      ensures lines[i].cells != [] && !IsBareLf(lines[i]) && Values(lines[i].cells) == rows[i]
    {
      assert lines[i].cells[0].Quoted?;
    }
  }

  lemma {:induction false} RowsHaveFields(d: Dialect, s: JsString, st: State)
    requires NonEmptyRows(st.rows)
    ensures NonEmptyRows(Run(d, s, st).rows)
    decreases |s|
  {
    if s != [] {
      var r := Round(d, s, st);
      RowsHaveFields(d, s[r.1..], r.0);
    }
  }

  /** For every text, well-formed or not: printing what was parsed and parsing again gives the same rows. */
  lemma ParseIsNormalForm(d: Dialect, text: JsString, e: Ending)
    requires Proper(d)
    ensures NonEmptyRows(Parse(d, text))
    ensures PrintableLines(d, QuoteAll(Parse(d, text), e))
    ensures Parse(d, PrintLines(d, QuoteAll(Parse(d, text), e))) == Parse(d, text)
  {
    RowsHaveFields(d, text, INITIAL);
    var rows := Parse(d, text);
    QuoteAllPrintable(d, rows, e);
    ParsePrinted(d, QuoteAll(rows, e));
  }

  // ----- fields to columns

  type Record = map<JsString, JsString>

  /** The last position of a name in the header, among the fields a row has. */
  function LastIndex(names: Fields, name: JsString, k: nat): (i: int)
    requires k <= |names|
    ensures i == -1 || (0 <= i < k && names[i] == name)
    ensures forall j :: 0 <= j < k && names[j] == name ==> j <= i
  {
    if k == 0 then -1 else if names[k - 1] == name then k - 1 else LastIndex(names, name, k - 1)
  }

  lemma LastIndexExists(names: Fields, name: JsString, k: nat, j: nat)
    requires j < k <= |names| && names[j] == name
    ensures LastIndex(names, name, k) >= j
  {
  }

  lemma LastIndexNext(names: Fields, name: JsString, k: nat)
    requires k < |names|
    ensures LastIndex(names, name, k + 1) == if names[k] == name then k else LastIndex(names, name, k)
  {
  }

  /** Each name among the first `k` holds the field of its last occurrence there. */
  ghost predicate Holding(row: Record, names: Fields, raw: Fields, k: nat)
    requires k <= |names| && k <= |raw|
  {
    && (forall name: JsString :: name in row <==> LastIndex(names, name, k) >= 0)
    && forall name: JsString :: name in row ==> row[name] == raw[LastIndex(names, name, k)]
  }

  /** What `execute` makes of a raw row: each column gets the field under its own name. */
  ghost predicate IsRecordOf(row: Record, names: Fields, raw: Fields) {
    Holding(row, names, raw, Min(|names|, |raw|))
  }

  lemma HoldingNothing(names: Fields, raw: Fields)
    ensures Holding(map[], names, raw, 0)
  {
  }

  lemma HoldingNext(row: Record, names: Fields, raw: Fields, k: nat)
    requires k < |names| && k < |raw| && Holding(row, names, raw, k)
    ensures Holding(row[names[k] := raw[k]], names, raw, k + 1)
  {
    var next, n := row[names[k] := raw[k]], k + 1;
    forall name: JsString
      ensures name in next <==> LastIndex(names, name, n) >= 0
      ensures name in next ==> next[name] == raw[LastIndex(names, name, n)]
    {
      LastIndexNext(names, name, k);
      assert name in row <==> LastIndex(names, name, k) >= 0;
    }
  }

  /** The object the inner loop of `execute` fills: the first `k` fields under their names. */
  function Filled(names: Fields, raw: Fields, k: nat): Record
    requires k <= |names| && k <= |raw|
  {
    if k == 0 then map[] else Filled(names, raw, k - 1)[names[k - 1] := raw[k - 1]]
  }

  function RecordOf(names: Fields, raw: Fields): Record {
    Filled(names, raw, Min(|names|, |raw|))
  }

  lemma {:induction false} FilledHolds(names: Fields, raw: Fields, k: nat)
    requires k <= |names| && k <= |raw|
    ensures Holding(Filled(names, raw, k), names, raw, k)
  {
    hide Holding;
    if k == 0 {
      HoldingNothing(names, raw);
    } else {
      FilledHolds(names, raw, k - 1);
      HoldingNext(Filled(names, raw, k - 1), names, raw, k - 1);
    }
  }

  method FillRow(fieldNames: Fields, raw: Fields) returns (row: Record)
    ensures row == RecordOf(fieldNames, raw) && IsRecordOf(row, fieldNames, raw)
  {
    hide Holding;
    row := map[];
    var j: nat := 0;
    while j < |fieldNames| && j < |raw|
      invariant j <= |fieldNames| && j <= |raw|
      invariant row == Filled(fieldNames, raw, j)
    {
      row := row[fieldNames[j] := raw[j]];
      j := j + 1;
    }
    FilledHolds(fieldNames, raw, j);
  }

  // ----- execute

  /** `rows[i]`; `None` is `undefined`. */
  function RowAt(rows: seq<Fields>, i: int): Option<Fields> {
    if 0 <= i < |rows| then Some(rows[i]) else None
  }

  /** The names of the fields: those of the header row, if there is one, or the given ones. */
  function FieldNames(rows: seq<Fields>, skipRows: Option<int>, header: bool, fileColumns: Fields): Fields {
    if !header then fileColumns
    else if skipRows.Some? && RowAt(rows, skipRows.value).Some? then rows[skipRows.value]
    else []
  }

  /** Where the rows of data start; `None` is NaN, from which no row is reached. */
  function DataStart(skipRows: Option<int>, header: bool): Option<int> {
    if skipRows.Some? && header then Some(skipRows.value + 1) else skipRows
  }

  /** A row that is not there gives an object without properties, if there are no names to look for. */
  function RecordAt(names: Fields, raw: Option<Fields>): Record {
    if raw.Some? then RecordOf(names, raw.value) else map[]
  }

  function RecordsFrom(names: Fields, rows: seq<Fields>, start: int, count: nat): seq<Record> {
    seq(count, k requires 0 <= k < count => RecordAt(names, RowAt(rows, start + k)))
  }

  function CountFrom(rows: seq<Fields>, start: int): nat {
    if start < |rows| then |rows| - start else 0
  }

  /** What execute() yields; `None` is the TypeError of looking into a row before the first. */
  function Executed(rows: seq<Fields>, names: Fields, start: Option<int>, keep: Record -> bool): Option<seq<Record>> {
    if start.None? then Some([])
    else if start.value < 0 && names != [] then None
    else Some(Filter(RecordsFrom(names, rows, start.value, CountFrom(rows, start.value)), keep))
  }

  /** `skipRows` is what parseInt made of the option. */
  method Execute(text: JsString, d: Dialect, skipRows: Option<int>, header: bool, fileColumns: Fields,
                 keep: Record -> bool)
    returns (out: Option<seq<Record>>)
    ensures var rows := Parse(d, text);
            out == Executed(rows, FieldNames(rows, skipRows, header, fileColumns), DataStart(skipRows, header), keep)
    ensures skipRows == None ==> out == Some([])
  {
    var rows := ParseCsv(text, d.delimiter, d.quotechar);
    hide Parse, IsRecordOf, RecordOf, Filter;
    var start := skipRows;
    var fieldNames := fileColumns;
    if header {
      var names := if start.Some? then RowAt(rows, start.value) else None;
      fieldNames := if names.Some? then names.value else [];
      start := if start.Some? then Some(start.value + 1) else None;
    }
    if start.None? {
      return Some([]);
    }
    var yielded: seq<Record> := [];
    FilterNothing(keep);
    ghost var first := start.value;
    assert RecordsFrom(fieldNames, rows, first, 0) == [];
    var i := start.value;
    while i < |rows|
      invariant first <= i <= first + CountFrom(rows, first)
      invariant i > first && first < 0 ==> fieldNames == []
      invariant yielded == Filter(RecordsFrom(fieldNames, rows, first, i - first), keep)
    {
      var raw := RowAt(rows, i);
      if raw.None? && |fieldNames| > 0 {
        return None;
      }
      var row := map[];
      if raw.Some? {
        row := FillRow(fieldNames, raw.value);
      }
      NextRecord(fieldNames, rows, first, i - first);
      FilterSnoc(RecordsFrom(fieldNames, rows, first, i - first), row, keep);
      if keep(row) {
        yielded := yielded + [row];
      }
      i := i + 1;
    }
    out := Some(yielded);
  }

  lemma NextRecord(names: Fields, rows: seq<Fields>, start: int, k: nat)
    ensures RecordsFrom(names, rows, start, k + 1)
         == RecordsFrom(names, rows, start, k) + [RecordAt(names, RowAt(rows, start + k))]
  {
  }

  lemma FilterNothing(keep: Record -> bool)
    ensures Filter([], keep) == []
  {
  }

  /** A negative skipRows: with a header objects without properties, without one an error at the first row. */
  lemma {:induction false} NegativeSkip(rows: seq<Fields>, skip: int, fileColumns: Fields, keep: Record -> bool)
    requires skip < 0 && fileColumns != []
    ensures var names := FieldNames(rows, Some(skip), true, fileColumns);
            Executed(rows, names, DataStart(Some(skip), true), keep)
            == Some(Filter(seq(|rows| - skip - 1, _ => map[]), keep))
    ensures var names := FieldNames(rows, Some(skip), false, fileColumns);
            Executed(rows, names, DataStart(Some(skip), false), keep) == None
  {
    hide Filter;
    var records := RecordsFrom([], rows, skip + 1, CountFrom(rows, skip + 1));
    forall k | 0 <= k < |records|
      ensures records[k] == map[]
    {
      assert records[k] == RecordAt([], RowAt(rows, skip + 1 + k));
    }
    assert records == seq(|rows| - skip - 1, _ => map[]);
  }

  lemma {:induction false} RecordsAre(names: Fields, rows: seq<Fields>, start: nat)
    requires start <= |rows|
    ensures var records := RecordsFrom(names, rows, start, CountFrom(rows, start));
            && |records| == |rows| - start
            && forall k :: 0 <= k < |records| ==> IsRecordOf(records[k], names, rows[start + k])
  {
    hide Holding, Filled;
    var records := RecordsFrom(names, rows, start, CountFrom(rows, start));
    forall k | 0 <= k < |records|
      ensures IsRecordOf(records[k], names, rows[start + k])
    {
      assert records[k] == RecordOf(names, rows[start + k]);
      FilledHolds(names, rows[start + k], Min(|names|, |rows[start + k]|));
    }
  }

  /** One record for each line of data under the names, in order, if it passes the filter. */
  ghost predicate AreRecordsOf(out: seq<Record>, names: Fields, data: seq<Line>, keep: Record -> bool) {
    exists records: seq<Record> ::
      && out == Filter(records, keep) && |records| == |data|
      && forall k :: 0 <= k < |data| ==> IsRecordOf(records[k], names, Values(data[k].cells))
  }

  /**
   Of a printed file the lines to skip are skipped, the header's fields are the names, if there is a
   header, and each line of data is one record under these names, in order, if it passes the filter.
   */
  method ExecutePrinted(text: JsString, d: Dialect, skipRows: nat, header: bool, fileColumns: Fields,
                        keep: Record -> bool, ghost skipped: seq<Line>, ghost headerLine: Line, ghost data: seq<Line>)
    returns (out: Option<seq<Record>>)
    requires skipRows == |skipped| && Proper(d)
    requires var lines := skipped + (if header then [headerLine] else []) + data;
             PrintableLines(d, lines) && text == PrintLines(d, lines)
    ensures out.Some?
    ensures AreRecordsOf(out.value, if header then Values(headerLine.cells) else fileColumns, data, keep)
  {
    hide Parse, PrintLines, PrintableLines, IsRecordOf, Values, RecordsFrom, Proper;
    ghost var lines := skipped + (if header then [headerLine] else []) + data;
    ghost var first := skipRows + if header then 1 else 0;
    ParsePrinted(d, lines);
    ghost var rows := AllValues(lines);
    assert header ==> lines[skipRows] == headerLine;
    ghost var names := if header then Values(headerLine.cells) else fileColumns;
    RecordsAre(names, rows, first);
    ghost var records := RecordsFrom(names, rows, first, CountFrom(rows, first));
    assert forall k :: 0 <= k < |data| ==> rows[first + k] == Values(data[k].cells);
    out := Execute(text, d, Some(skipRows), header, fileColumns, keep);
    assert out.value == Filter(records, keep);
  }

  /** With distinct names in the header a column reads the field in its own place, whatever columns are wanted. */
  lemma ByNameMapping(row: Record, names: Fields, raw: Fields, j: nat)
    requires IsRecordOf(row, names, raw) && j < |names| && j < |raw|
    requires forall a, b :: 0 <= a < b < |names| ==> names[a] != names[b]
    ensures names[j] in row && row[names[j]] == raw[j]
  {
    hide LastIndex;
    LastIndexExists(names, names[j], Min(|names|, |raw|), j);
    var last := LastIndex(names, names[j], Min(|names|, |raw|));
    assert last >= j && names[last] == names[j];
  }
}
