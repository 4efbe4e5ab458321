/**
 The extended-query exchange of examples/pgwire.js: what query() sends, and how
 it reads one response cycle from the stream.
 */
module PgQuery {
  import opened Options
  import opened JsStrings
  import opened Utf8
  import opened PgWire

  // ----- rows

  datatype Cell = Null | Text(s: JsString)

  type Row = map<JsString, Cell>

  /** `columns[i]` as a property name: past the end it is the string "undefined". */
  function ColumnName(columns: seq<JsString>, i: nat): JsString {
    if i < |columns| then columns[i] else Ascii("undefined")
  }

  // ----- RowDescription

  function Columns(body: Bytes, offset: nat, count: nat): Option<seq<JsString>>
    decreases count
  {
    if count == 0 then Some([])
    else
      match ReadCString(body, offset)
      case Unterminated => None
      case CString(name, next) =>
        match Columns(body, next + 18, count - 1)
        case None => None
        case Some(names) => Some([name] + names)
  }

  /** `None` when the source's search for a terminator never ends. */
  method ParseRowDescription(body: Bytes) returns (columns: Option<seq<JsString>>)
    ensures columns == Columns(body, 2, ReadInt16(body, 0))
  {
    hide ReadCString;
    var count := ReadInt16(body, 0);
    var names := [];
    var offset: nat := 2;
    PrependNone(Columns(body, 2, count));
    for i := 0 to count
      invariant Columns(body, 2, count) == Prepend(names, Columns(body, offset, count - i))
    {
      var r := BodyReadCString(body, offset);
      if r.Unterminated? {
        return None;
      }
      PrependStep(names, r.value, Columns(body, r.next + 18, count - i - 1));
      offset := r.next + 18;
      names := names + [r.value];
    }
    assert names + [] == names;
    columns := Some(names);
  }

  function Prepend(names: seq<JsString>, rest: Option<seq<JsString>>): Option<seq<JsString>> {
    match rest
    case None => None
    case Some(more) => Some(names + more)
  }

  lemma PrependNone(rest: Option<seq<JsString>>)
    ensures Prepend([], rest) == rest
  {
    if rest.Some? {
      assert [] + rest.value == rest.value;
    }
  }

  lemma PrependStep(names: seq<JsString>, name: JsString, rest: Option<seq<JsString>>)
    ensures Prepend(names, Prepend([name], rest)) == Prepend(names + [name], rest)
  {
    if rest.Some? {
      assert names + ([name] + rest.value) == names + [name] + rest.value;
    }
  }

  /** RowDescription by section 55.7 of the PostgreSQL manual; `fields` are the 18 bytes after each name. */
  function ColumnBytes(names: seq<JsString>, fields: seq<Bytes>): Bytes
    requires |fields| == |names|
  {
    if names == [] then [] else CStringBytes(names[0]) + fields[0] + ColumnBytes(names[1..], fields[1..])
  }

  function RowDescriptionBytes(names: seq<JsString>, fields: seq<Bytes>): Bytes
    requires |fields| == |names|
  {
    Int16Bytes(|names|) + ColumnBytes(names, fields)
  }

  /** One column entry: its name is read and the offset moves to the next entry. */
  lemma ColumnEntry(body: Bytes, offset: nat, name: JsString, field: Bytes, rest: Bytes, all: Bytes)
    requires 0 !in name && |field| == 18 && all == CStringBytes(name) + field + rest
    requires BytesAt(body, offset, all)
    ensures ReadCString(body, offset).CString? && ReadCString(body, offset).value == name
    ensures BytesAt(body, ReadCString(body, offset).next + 18, rest)
  {
    var head := CStringBytes(name);
    hide CStringBytes, ReadCString, BytesAt;
    assert all == head + (field + rest);
    BytesAtParts(body, offset, head, field + rest, all);
    CStringRoundTrip(body, offset, name);
    BytesAtParts(body, offset + |head|, field, rest, field + rest);
  }

  lemma {:induction false} ColumnsRoundTrip(body: Bytes, offset: nat, names: seq<JsString>, fields: seq<Bytes>)
    requires |fields| == |names| && forall i :: 0 <= i < |names| ==> 0 !in names[i] && |fields[i]| == 18
    requires BytesAt(body, offset, ColumnBytes(names, fields))
    ensures Columns(body, offset, |names|) == Some(names)
    decreases |names|
  {
    hide CStringBytes, ReadCString, BytesAt;
    if names != [] {
      ColumnEntry(body, offset, names[0], fields[0], ColumnBytes(names[1..], fields[1..]), ColumnBytes(names, fields));
      ColumnsRoundTrip(body, ReadCString(body, offset).next + 18, names[1..], fields[1..]);
      assert names == [names[0]] + names[1..];
    }
  }

  lemma BytesAtParts(body: Bytes, offset: nat, a: Bytes, b: Bytes, all: Bytes)
    requires all == a + b && BytesAt(body, offset, all)
    ensures BytesAt(body, offset, a) && BytesAt(body, offset + |a|, b)
  {
    assert forall k :: 0 <= k < |a| ==> all[k] == a[k];
    forall k | 0 <= k < |b|
      ensures body[offset + |a| + k] == b[k]
    {
      assert all[|a| + k] == b[k];
      assert body[offset + (|a| + k)] == all[|a| + k];
    }
  }

  lemma BytesAtZero(body: Bytes)
    ensures BytesAt(body, 0, body)
  {
  }

  lemma RowDescriptionRoundTrip(names: seq<JsString>, fields: seq<Bytes>)
    requires |fields| == |names| < 0x1_0000
    requires forall i :: 0 <= i < |names| ==> 0 !in names[i] && |fields[i]| == 18
    ensures var body := RowDescriptionBytes(names, fields);
            Columns(body, 2, ReadInt16(body, 0)) == Some(names)
  {
    hide Int16Bytes, ReadInt16, ColumnBytes;
    var body := RowDescriptionBytes(names, fields);
    BytesAtZero(body);
    TwoBytes(|names|);
    BytesAtParts(body, 0, Int16Bytes(|names|), ColumnBytes(names, fields), body);
    ReadWrittenInt16(body, 0, |names|);
    ColumnsRoundTrip(body, 2, names, fields);
  }

  lemma TwoBytes(n: int)
    ensures |Int16Bytes(n)| == 2
  {
  }

  lemma FourBytes(n: int)
    ensures |Int32Bytes(n)| == 4
  {
  }

  // ----- DataRow

  /** How a length word is read: bodyReadInt32 is unsigned, the protocol's Int32 is signed. */
  datatype LengthWord = Unsigned | Signed

  function WireLength(body: Bytes, offset: int, word: LengthWord): int {
    var n := ReadInt32(body, offset);
    if word.Signed? && n >= 0x8000_0000 then n - 0x1_0000_0000 else n
  }

  /** The length the source compares with -1. */
  lemma UnsignedLength(body: Bytes, offset: int)
    ensures 0 <= WireLength(body, offset, Unsigned) < 0x1_0000_0000
  {
  }

  /** `utf8Decode(body, start, start + len)`; a start before the body is only reached with length 0. */
  function TextAt(body: Bytes, start: int, len: int): JsString {
    if start < 0 || len <= 0 then [] else DecodeRange(body, start, start + len)
  }

  method DecodeText(body: Bytes, start: int, len: int) returns (s: JsString)
    ensures s == TextAt(body, start, len)
  {
    if start < 0 || len <= 0 {
      return [];
    }
    s := Utf8Decode(body, start, start + len);
  }

  datatype Cells = Cells(cells: seq<Cell>, end: int)

  /** The values of a DataRow body, with the source's test for a length of -1. */
  function ReadCells(body: Bytes, offset: int, count: nat, word: LengthWord): Cells
    decreases count
  {
    if count == 0 then Cells([], offset)
    else
      var len := WireLength(body, offset, word);
      if len == -1 then
        var rest := ReadCells(body, offset + 4, count - 1, word);
        Cells([Null] + rest.cells, rest.end)
      else
        var rest := ReadCells(body, offset + 4 + len, count - 1, word);
        Cells([Text(TextAt(body, offset + 4, len))] + rest.cells, rest.end)
  }

  /** The row object: `row[columns[i]] = cells[i]`, in order. */
  function RowOf(columns: seq<JsString>, cells: seq<Cell>): Row {
    if cells == [] then map[]
    else RowOf(columns, cells[..|cells| - 1])[ColumnName(columns, |cells| - 1) := cells[|cells| - 1]]
  }

  function CellsOf(body: Bytes, word: LengthWord): seq<Cell> {
    ReadCells(body, 2, ReadInt16(body, 0), word).cells
  }

  /** `None` is the TypeError of indexing `columns` while it is still null. */
  function DataRow(body: Bytes, columns: Option<seq<JsString>>): Option<Row> {
    if columns.None? && ReadInt16(body, 0) > 0 then None
    else Some(RowOf(if columns.Some? then columns.value else [], CellsOf(body, Unsigned)))
  }

  lemma RowOfSnoc(columns: seq<JsString>, cells: seq<Cell>, c: Cell)
    ensures RowOf(columns, cells + [c]) == RowOf(columns, cells)[ColumnName(columns, |cells|) := c]
  {
    assert (cells + [c])[..|cells|] == cells;
  }

  lemma CellsStep(before: seq<Cell>, body: Bytes, offset: int, count: nat)
    requires count > 0
    ensures var len := WireLength(body, offset, Unsigned);
            var cell := if len == -1 then Null else Text(TextAt(body, offset + 4, len));
            var next := if len == -1 then offset + 4 else offset + 4 + len;
            before + ReadCells(body, offset, count, Unsigned).cells
            == (before + [cell]) + ReadCells(body, next, count - 1, Unsigned).cells
  {
    hide WireLength, TextAt;
  }

  method ParseDataRow(body: Bytes, columns: Option<seq<JsString>>) returns (r: Option<Row>)
    ensures r == DataRow(body, columns)
  {
    hide ColumnName, TextAt, RowOf, ReadCells, WireLength;
    var count := ReadInt16(body, 0);
    var offset: int := 2;
    var row: Row := map[];
    if count > 0 && columns.None? {
      return None;
    }
    var names := if columns.Some? then columns.value else [];
    ghost var cells: seq<Cell> := [];
    NoCells(names, body, 2);
    for i := 0 to count
      invariant |cells| == i && row == RowOf(names, cells)
      invariant CellsOf(body, Unsigned) == cells + ReadCells(body, offset, count - i, Unsigned).cells
    {
      CellsStep(cells, body, offset, count - i);
      var len := WireLength(body, offset, Unsigned);
      offset := offset + 4;
      if len == -1 {
        RowOfSnoc(names, cells, Null);
        row := row[ColumnName(names, i) := Null];
        cells := cells + [Null];
      } else {
        var text := DecodeText(body, offset, len);
        RowOfSnoc(names, cells, Text(text));
        row := row[ColumnName(names, i) := Text(text)];
        cells := cells + [Text(text)];
        offset := offset + len;
      }
    }
    NoCells(names, body, offset);
    assert cells + [] == cells;
    r := Some(row);
  }

  lemma NoCells(columns: seq<JsString>, body: Bytes, offset: int)
    ensures RowOf(columns, []) == map[] && ReadCells(body, offset, 0, Unsigned).cells == []
    ensures [] + CellsOf(body, Unsigned) == CellsOf(body, Unsigned)
  {
  }

  /** The test for -1 never succeeds on an unsigned length: no SQL NULL comes out, whatever the server sends. */
  lemma {:induction false} NeverNull(body: Bytes, offset: int, count: nat)
    ensures Null !in ReadCells(body, offset, count, Unsigned).cells
    decreases count
  {
    hide WireLength, TextAt;
    if count > 0 {
      UnsignedLength(body, offset);
      NeverNull(body, offset + 4 + WireLength(body, offset, Unsigned), count - 1);
    }
  }

  /** A value by section 55.7: its length and its text, or length -1 for NULL. */
  function CellBytes(c: Cell): Bytes {
    match c
    case Null => Int32Bytes(-1)
    case Text(s) => Int32Bytes(|Encode(s)|) + Encode(s)
  }

  function AllCellBytes(cells: seq<Cell>): Bytes {
    if cells == [] then [] else CellBytes(cells[0]) + AllCellBytes(cells[1..])
  }

  function DataRowBytes(cells: seq<Cell>): Bytes {
    Int16Bytes(|cells|) + AllCellBytes(cells)
  }

  /** Lengths fit the signed 32-bit word of the protocol. */
  predicate Fits(cells: seq<Cell>) {
    |cells| < 0x1_0000 && forall i :: 0 <= i < |cells| && cells[i].Text? ==> |Encode(cells[i].s)| < 0x8000_0000
  }

  /** The values come back in order, NULL too if the length is read as the protocol means it. */
  lemma {:induction false} CellsRoundTrip(body: Bytes, offset: nat, cells: seq<Cell>, word: LengthWord)
    requires BytesAt(body, offset, AllCellBytes(cells)) && Fits(cells)
    requires word.Signed? || Null !in cells
    ensures ReadCells(body, offset, |cells|, word) == Cells(cells, offset + |AllCellBytes(cells)|)
    decreases |cells|
  {
    hide CellBytes, TextAt, Encode, WireLength;
    if cells != [] {
      var head, rest := CellBytes(cells[0]), AllCellBytes(cells[1..]);
      BytesAtParts(body, offset, head, rest, AllCellBytes(cells));
      OneCell(body, offset, cells[0], word);
      hide BytesAt;
      CellsRoundTrip(body, offset + |head|, cells[1..], word);
      assert cells == [cells[0]] + cells[1..];
    }
  }

  lemma OneCell(body: Bytes, offset: nat, c: Cell, word: LengthWord)
    requires BytesAt(body, offset, CellBytes(c)) && (c.Text? ==> |Encode(c.s)| < 0x8000_0000)
    ensures c.Null? ==> WireLength(body, offset, Signed) == -1 && |CellBytes(c)| == 4
    ensures c.Text? ==>
      var len := WireLength(body, offset, word);
      && len >= 0 && |CellBytes(c)| == 4 + len && TextAt(body, offset + 4, len) == c.s
  {
    hide Encode, Int32Bytes, ReadInt32, DecodeRange;
    match c
    case Null =>
      FourBytes(-1);
      ReadWrittenInt32(body, offset, -1);
    case Text(s) =>
      var e := Encode(s);
      FourBytes(|e|);
      BytesAtParts(body, offset, Int32Bytes(|e|), e, CellBytes(c));
      ReadWrittenInt32(body, offset, |e|);
      DecodeEncode(body, offset + 4, s);
      if |e| == 0 {
        NothingDecodes(body, offset + 4);
      }
  }

  lemma NothingDecodes(body: Bytes, i: nat)
    ensures DecodeRange(body, i, i) == []
  {
  }

  predicate Distinct(names: seq<JsString>) {
    forall i, j :: 0 <= i < j < |names| ==> names[i] != names[j]
  }

  lemma {:induction false} RowOfAt(columns: seq<JsString>, cells: seq<Cell>, i: nat)
    requires i < |cells| <= |columns| && Distinct(columns)
    ensures columns[i] in RowOf(columns, cells) && RowOf(columns, cells)[columns[i]] == cells[i]
    decreases |cells|
  {
    if i < |cells| - 1 {
      RowOfAt(columns, cells[..|cells| - 1], i);
    }
  }

  /** The values of a row come back, with the offset at the body's end, once the length is read as signed. */
  lemma {:induction false} DataRowRoundTrip(cells: seq<Cell>, word: LengthWord)
    requires Fits(cells) && (word.Signed? || Null !in cells)
    ensures var body := DataRowBytes(cells);
            ReadCells(body, 2, ReadInt16(body, 0), word) == Cells(cells, |body|)
  {
    hide Int16Bytes, ReadInt16, AllCellBytes;
    var body := DataRowBytes(cells);
    BytesAtZero(body);
    TwoBytes(|cells|);
    BytesAtParts(body, 0, Int16Bytes(|cells|), AllCellBytes(cells), body);
    ReadWrittenInt16(body, 0, |cells|);
    CellsRoundTrip(body, 2, cells, word);
  }

  /** The source as written returns the row the server sent exactly when no value is NULL. */
  lemma {:induction false} DataRowExactlyWithoutNull(columns: seq<JsString>, cells: seq<Cell>)
    requires Fits(cells) && |columns| == |cells| && Distinct(columns)
    ensures DataRow(DataRowBytes(cells), Some(columns)) == Some(RowOf(columns, cells)) <==> Null !in cells
  {
    hide ReadCells, ReadInt16, DataRowBytes, RowOf;
    var body := DataRowBytes(cells);
    if Null !in cells {
      DataRowRoundTrip(cells, Unsigned);
    } else {
      var i :| 0 <= i < |cells| && cells[i] == Null;
      CountIs(cells);
      var read := CellsOf(body, Unsigned);
      CellsLength(body, 2, |cells|);
      NeverNull(body, 2, |cells|);
      RowOfAt(columns, cells, i);
      RowOfAt(columns, read, i);
      assert read[i] in read;
    }
  }

  lemma CountIs(cells: seq<Cell>)
    requires |cells| < 0x1_0000
    ensures ReadInt16(DataRowBytes(cells), 0) == |cells|
  {
    hide Int16Bytes, ReadInt16, AllCellBytes;
    var body := DataRowBytes(cells);
    BytesAtZero(body);
    TwoBytes(|cells|);
    BytesAtParts(body, 0, Int16Bytes(|cells|), AllCellBytes(cells), body);
    ReadWrittenInt16(body, 0, |cells|);
  }

  lemma {:induction false} CellsLength(body: Bytes, offset: int, count: nat)
    ensures |ReadCells(body, offset, count, Unsigned).cells| == count
    decreases count
  {
    hide WireLength, TextAt;
    if count > 0 {
      UnsignedLength(body, offset);
      CellsLength(body, offset + 4 + WireLength(body, offset, Unsigned), count - 1);
    }
  }
}
