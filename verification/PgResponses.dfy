/**
 Responses from end to end: what query() returns for the messages a server sends
 for a result set, and the text of an error.
 */
module PgResponses {
  import opened Options
  import opened Sequences
  import opened JsStrings
  import opened JsNumbers
  import opened Utf8
  import opened PgWire
  import opened PgQuery
  import opened PgSession
  import opened PgRequests

  // ----- answers

  datatype Description = Description(names: seq<JsString>, fields: seq<Bytes>)

  /**
   A server's answer to one statement: the columns with their 18 bytes of type information, if it gives
   rows, the rows, and a command tag with or without a count.
   */
  datatype Answer = Answer(columns: Option<Description>, table: seq<seq<Cell>>, prefix: JsString, count: Option<nat>)

  function TagOf(r: Answer): JsString {
    match r.count
    case Some(n) => r.prefix + Numeral(n, Radix.Decimal)
    case None => r.prefix
  }

  function Names(r: Answer): seq<JsString> {
    if r.columns.Some? then r.columns.value.names else []
  }

  predicate Described(d: Description) {
    && |d.fields| == |d.names| < 0x1_0000
    && forall i :: 0 <= i < |d.names| ==> 0 !in d.names[i] && |d.fields[i]| == 18
  }

  /** Names and tag without U+0000, counts and lengths within their words, no NULL. */
  predicate Presentable(r: Answer) {
    && (if r.columns.Some? then Described(r.columns.value) else r.table == [])
    && (forall i :: 0 <= i < |r.table| ==> Fits(r.table[i]) && Null !in r.table[i] && |r.table[i]| == |Names(r)|)
    && r.prefix != [] && !IsDigit(r.prefix[|r.prefix| - 1], Radix.Decimal) && 0 !in r.prefix
  }

  function DataRows(table: seq<seq<Cell>>): seq<Message> {
    if table == [] then [] else [Message('D' as int, DataRowBytes(table[0]))] + DataRows(table[1..])
  }

  /** ParseComplete, BindComplete, RowDescription or NoData, the DataRows and CommandComplete. */
  function Messages(r: Answer): seq<Message>
    requires Presentable(r)
  {
    [Message('1' as int, []), Message('2' as int, []), ShapeMessage(r)] + DataRows(r.table)
    + [Message('C' as int, CStringBytes(TagOf(r)))]
  }

  function ShapeMessage(r: Answer): Message
    requires Presentable(r)
  {
    match r.columns
    case Some(d) => Message('T' as int, RowDescriptionBytes(d.names, d.fields))
    case None => Message('n' as int, [])
  }

  /** Section 55.2.7: notices, parameter changes and notifications may come at any time. */
  predicate IsAsynchronous(m: Message) {
    m.tag == 'N' as int || m.tag == 'S' as int || m.tag == 'A' as int
  }

  function Synchronous(msgs: seq<Message>): seq<Message> {
    Filter(msgs, m => !IsAsynchronous(m))
  }

  /** The messages of an answer, with asynchronous ones anywhere between them. */
  predicate Carries(msgs: seq<Message>, r: Answer) {
    && Presentable(r) && Synchronous(msgs) == Messages(r)
    && forall i :: 0 <= i < |msgs| ==> Sendable(msgs[i])
  }

  /** A row object: its properties are the columns, and each holds the value under the last column of its name. */
  ghost predicate IsRow(row: Row, names: seq<JsString>, cells: seq<Cell>) {
    && |cells| == |names|
    && (forall name :: name in row <==> name in names)
    && forall j :: 0 <= j < |names| && (forall k :: j < k < |names| ==> names[k] != names[j]) ==>
         row[names[j]] == cells[j]
  }

  /** What query() is to return for an answer. */
  ghost predicate IsResult(result: Result, r: Answer) {
    && result.Rows? && |result.rows| == |r.table|
    && (forall i :: 0 <= i < |r.table| ==> IsRow(result.rows[i], Names(r), r.table[i]))
    && result.rowCount == (if r.count.Some? then r.count.value else |r.table|)
    && result.command == Some(TagOf(r))
  }

  // ----- reading an answer

  function RowObjects(names: seq<JsString>, table: seq<seq<Cell>>): seq<Row> {
    if table == [] then [] else [RowOf(names, table[0])] + RowObjects(names, table[1..])
  }

  lemma {:induction false} ProgressedAppend(a: seq<Message>, b: seq<Message>, p: Progress)
    requires Progressed(a, p).Continue?
    ensures Progressed(a + b, p) == Progressed(b, Progressed(a, p).p)
    decreases |a|
  {
    hide OnMessage;
    if a == [] {
      assert a + b == b;
    } else {
      assert (a + b)[1..] == a[1..] + b;
      ProgressedAppend(a[1..], b, OnMessage(a[0], p).p);
    }
  }

  lemma {:induction false} DataRowProgress(names: seq<JsString>, cells: seq<Cell>, p: Progress)
    requires p.columns == Some(names) && Fits(cells) && Null !in cells
    ensures OnMessage(Message('D' as int, DataRowBytes(cells)), p)
         == Continue(p.(rows := p.rows + [RowOf(names, cells)]))
  {
    hide DataRowBytes, ReadCells, ReadInt16, RowOf;
    DataRowRoundTrip(cells, Unsigned);
  }

  /** A row with values before any RowDescription is a TypeError, as `columns` is still null. */
  lemma {:induction false} RowNeedsColumns(cells: seq<Cell>, p: Progress)
    requires p.columns == None && 0 < |cells| < 0x1_0000
    ensures OnMessage(Message('D' as int, DataRowBytes(cells)), p) == Stop(TypeError)
  {
    hide DataRowBytes, ReadCells, ReadInt16, RowOf;
    CountIs(cells);
  }

  lemma ProgressedCons(m: Message, rest: seq<Message>, p: Progress)
    requires OnMessage(m, p).Continue?
    ensures Progressed([m] + rest, p) == Progressed(rest, OnMessage(m, p).p)
  {
    hide OnMessage;
    assert ([m] + rest)[1..] == rest;
  }

  lemma {:induction false} DataRowsProgress(names: seq<JsString>, table: seq<seq<Cell>>, p: Progress)
    requires p.columns == Some(names)
    requires forall i :: 0 <= i < |table| ==> Fits(table[i]) && Null !in table[i]
    ensures Progressed(DataRows(table), p) == Continue(p.(rows := p.rows + RowObjects(names, table)))
    decreases |table|
  {
    hide DataRowBytes, RowOf, OnMessage, Fits, DataRows, RowObjects, Progressed;
    FirstRow(names, table, p);
    if table != [] {
      DataRowProgress(names, table[0], p);
      ProgressedCons(Message('D' as int, DataRowBytes(table[0])), DataRows(table[1..]), p);
      DataRowsProgress(names, table[1..], p.(rows := p.rows + [RowOf(names, table[0])]));
    }
  }

  lemma FirstRow(names: seq<JsString>, table: seq<seq<Cell>>, p: Progress)
    ensures table == [] ==> Progressed(DataRows(table), p) == Continue(p) && p.rows + RowObjects(names, table) == p.rows
    ensures table != [] ==>
      && DataRows(table) == [Message('D' as int, DataRowBytes(table[0]))] + DataRows(table[1..])
      && p.rows + [RowOf(names, table[0])] + RowObjects(names, table[1..]) == p.rows + RowObjects(names, table)
  {
    hide DataRowBytes, RowOf, OnMessage;
  }

  lemma {:induction false} TrailingDigitsIs(prefix: JsString, digits: JsString)
    requires AllDigits(digits, Radix.Decimal)
    requires prefix != [] && !IsDigit(prefix[|prefix| - 1], Radix.Decimal)
    ensures TrailingDigits(prefix + digits) == |prefix|
    decreases |digits|
  {
    var tag := prefix + digits;
    if digits == [] {
      assert tag == prefix;
    } else {
      assert tag[..|tag| - 1] == prefix + digits[..|digits| - 1];
      TrailingDigitsIs(prefix, digits[..|digits| - 1]);
    }
  }

  lemma CommandProgress(r: Answer, p: Progress)
    requires Presentable(r)
    ensures OnMessage(Message('C' as int, CStringBytes(TagOf(r))), p)
         == Continue(p.(command := Some(TagOf(r)),
                        rowCount := if r.count.Some? then r.count.value else |p.rows|))
  {
    hide Numeral, NumeralValue, CStringBytes, ReadCString, TrailingDigits, IsDigit;
    var tag := TagOf(r);
    var digits := if r.count.Some? then Numeral(r.count.value, Radix.Decimal) else [];
    if r.count.Some? {
      NumeralRoundTrip(r.count.value, Radix.Decimal);
    }
    assert tag == r.prefix + digits;
    TrailingDigitsIs(r.prefix, digits);
    assert tag[|r.prefix|..] == digits;
    ZeroIsNoDigit();
    DigitsLack(digits, Radix.Decimal, 0);
    BytesAtZero(CStringBytes(tag));
    CStringRoundTrip(CStringBytes(tag), 0, tag);
  }

  lemma ZeroIsNoDigit()
    ensures !IsDigit(0, Radix.Decimal)
  {
  }

  lemma {:induction false} OpeningProgress(r: Answer)
    requires Presentable(r)
    ensures Progressed([Message('1' as int, []), Message('2' as int, []), ShapeMessage(r)], START)
         == Continue(START.(columns := if r.columns.Some? then Some(Names(r)) else None))
  {
    hide RowDescriptionBytes, ReadInt16, Columns, Fits;
    var a, b, c := Message('1' as int, []), Message('2' as int, []), ShapeMessage(r);
    if r.columns.Some? {
      RowDescriptionRoundTrip(r.columns.value.names, r.columns.value.fields);
    }
    assert [a, b, c][1..] == [b, c] && [b, c][1..] == [c];
    LastProgress(c, START);
  }

  lemma LastProgress(m: Message, p: Progress)
    requires OnMessage(m, p).Continue?
    ensures Progressed([m], p) == OnMessage(m, p)
  {
    hide OnMessage;
    assert [m][1..] == [];
  }

  /** Where an answer's messages leave the reading loop. */
  function Final(r: Answer): Progress {
    Progress(if r.columns.Some? then Some(Names(r)) else None, RowObjects(Names(r), r.table),
             if r.count.Some? then r.count.value else |RowObjects(Names(r), r.table)|, Some(TagOf(r)))
  }

  lemma {:induction false} AnswerProgress(r: Answer)
    requires Presentable(r)
    ensures Progressed(Messages(r), START) == Continue(Final(r))
  {
    hide TagOf, CStringBytes, DataRows, RowObjects, ShapeMessage, Described, IsDigit, OnMessage, Progressed;
    var open := [Message('1' as int, []), Message('2' as int, []), ShapeMessage(r)];
    var close := Message('C' as int, CStringBytes(TagOf(r)));
    var p := START.(columns := if r.columns.Some? then Some(Names(r)) else None);
    OpeningProgress(r);
    ProgressedAppend(open, DataRows(r.table), START);
    if r.columns.Some? {
      DataRowsProgress(Names(r), r.table, p);
    } else {
      NoRows(Names(r), p);
    }
    assert START.rows + RowObjects(Names(r), r.table) == RowObjects(Names(r), r.table);
    ProgressedAppend(open + DataRows(r.table), [close], START);
    CommandProgress(r, p.(rows := RowObjects(Names(r), r.table)));
    LastProgress(close, p.(rows := RowObjects(Names(r), r.table)));
  }

  lemma NoRows(names: seq<JsString>, p: Progress)
    ensures Progressed(DataRows([]), p) == Continue(p) && RowObjects(names, []) == []
  {
  }

  /** Asynchronous messages change nothing. */
  lemma {:induction false} ProgressedSynchronous(msgs: seq<Message>, p: Progress)
    ensures Progressed(msgs, p) == Progressed(Synchronous(msgs), p)
    decreases |msgs|
  {
    if msgs != [] {
      var m := msgs[0];
      if IsAsynchronous(m) {
        assert Synchronous(msgs) == Synchronous(msgs[1..]);
        assert OnMessage(m, p) == Continue(p);
        ProgressedSynchronous(msgs[1..], p);
      } else {
        assert Synchronous(msgs) == [m] + Synchronous(msgs[1..]);
        assert Synchronous(msgs)[1..] == Synchronous(msgs[1..]);
        hide OnMessage;
        if OnMessage(m, p).Continue? {
          ProgressedSynchronous(msgs[1..], OnMessage(m, p).p);
        }
      }
    }
  }

  lemma {:induction false} DataRowsPlain(table: seq<seq<Cell>>)
    ensures forall m :: m in DataRows(table) ==> IsPlain(m)
  {
    hide DataRowBytes;
    if table != [] {
      DataRowsPlain(table[1..]);
    }
  }

  lemma {:induction false} CarriesPlain(msgs: seq<Message>, r: Answer)
    requires Carries(msgs, r)
    ensures AllPlain(msgs)
  {
    hide DataRowBytes, Sendable, Filter, TagOf, CStringBytes, DataRows, RowDescriptionBytes, Described, IsDigit;
    DataRowsPlain(r.table);
    FilterMembers(msgs, m => !IsAsynchronous(m));
    forall i | 0 <= i < |msgs|
      ensures IsPlain(msgs[i])
    {
      assert msgs[i] in msgs;
      assert IsAsynchronous(msgs[i]) || msgs[i] in Messages(r);
    }
  }

  lemma NextColumn(row: Row, names: seq<JsString>, cells: seq<Cell>, name: JsString, c: Cell)
    requires IsRow(row, names, cells)
    ensures IsRow(row[name := c], names + [name], cells + [c])
  {
    var all, values := names + [name], cells + [c];
    forall j | 0 <= j < |all| && forall k :: j < k < |all| ==> all[k] != all[j]
      ensures row[name := c][all[j]] == values[j]
    {
      if j < |names| {
        assert all[|names|] != all[j];
        assert forall k :: j < k < |names| ==> all[k] == names[k];
      }
    }
    assert forall x :: x in all <==> x in names || x == name;
  }

  lemma {:induction false} RowOfIsRow(names: seq<JsString>, cells: seq<Cell>)
    requires |cells| <= |names|
    ensures IsRow(RowOf(names, cells), names[..|cells|], cells)
    decreases |cells|
  {
    hide IsRow;
    if cells == [] {
      NoColumns();
      assert names[..0] == [];
    } else {
      var k := |cells| - 1;
      RowOfIsRow(names, cells[..k]);
      NextColumn(RowOf(names, cells[..k]), names[..k], cells[..k], names[k], cells[k]);
      assert names[..|cells|] == names[..k] + [names[k]] && cells == cells[..k] + [cells[k]];
    }
  }

  lemma NoColumns()
    ensures IsRow(map[], [], [])
  {
  }

  lemma {:induction false} RowObjectsAreRows(names: seq<JsString>, table: seq<seq<Cell>>)
    requires forall i :: 0 <= i < |table| ==> |table[i]| == |names|
    ensures |RowObjects(names, table)| == |table|
    ensures forall i :: 0 <= i < |table| ==> IsRow(RowObjects(names, table)[i], names, table[i])
    decreases |table|
  {
    hide RowOf, IsRow;
    if table != [] {
      RowOfIsRow(names, table[0]);
      assert names[..|names|] == names;
      RowObjectsAreRows(names, table[1..]);
    }
  }

  lemma {:induction false} FinalIsResult(r: Answer)
    requires Presentable(r)
    ensures var p := Final(r);
            IsResult(Rows(p.rows, p.rowCount, p.command), r)
  {
    hide RowObjects, TagOf, IsRow, IsDigit, Described, Fits;
    RowObjectsAreRows(Names(r), r.table);
  }

  /** An answer's messages make a well-formed cycle, which reads as that answer. */
  lemma {:induction false} AnswerCycle(msgs: seq<Message>, r: Answer, ready: Message)
    requires Carries(msgs, r) && ready.tag == 'Z' as int && Sendable(ready)
    ensures var c := Cycle(msgs, None, [], ready); WellFormed(c) && IsResult(CycleResult(c), r)
  {
    hide Progressed, Messages, Presentable, Sendable, Final, IsResult, AllPlain;
    CarriesPlain(msgs, r);
    ProgressedSynchronous(msgs, START);
    AnswerProgress(r);
    FinalIsResult(r);
    assert AllPlain([]) by { NothingIsPlain(); }
  }

  lemma NothingIsPlain()
    ensures AllPlain([])
  {
  }

  // ----- errors

  /** A field of an ErrorResponse (section 55.8 of the PostgreSQL 16 manual): its code and its bytes. */
  datatype RawField = RawField(code: Byte, bytes: Bytes)

  predicate ValidField(f: RawField) {
    f.code != 0 && 0 !in f.bytes
  }

  function FieldBytes(f: RawField): Bytes {
    [f.code] + f.bytes + [0]
  }

  function FieldsBytes(fields: seq<RawField>): Bytes {
    if fields == [] then [0] else FieldBytes(fields[0]) + FieldsBytes(fields[1..])
  }

  predicate ValidFields(fields: seq<RawField>) {
    forall i :: 0 <= i < |fields| ==> ValidField(fields[i])
  }

  /** A list of fields with its final zero, and perhaps more. */
  ghost predicate StartsWithFields(s: Bytes) {
    exists fields: seq<RawField>, rest: Bytes :: ValidFields(fields) && s == FieldsBytes(fields) + rest
  }

  lemma {:induction false} ReadsField(body: Bytes, offset: nat, f: RawField, rest: Bytes)
    requires ValidField(f) && offset <= |body| && body[offset..] == FieldBytes(f) + rest
    ensures offset + 2 + |f.bytes| <= |body| && body[offset] == f.code
    ensures ZeroAfter(body, offset + 1) == Some(offset + 1 + |f.bytes|)
    ensures body[offset + 2 + |f.bytes|..] == rest
  {
    var s, end := body[offset..], offset + 1 + |f.bytes|;
    assert s[0] == f.code && s[1 + |f.bytes|] == 0;
    forall k | offset + 1 <= k < end
      ensures body[k] != 0
    {
      assert body[k] == s[k - offset] == f.bytes[k - offset - 1];
    }
    ZeroAfterIs(body, offset + 1, end);
    assert s[2 + |f.bytes|..] == rest;
  }

  lemma {:induction false} FieldsAreRead(body: Bytes, offset: nat, fields: seq<RawField>, rest: Bytes,
                                         message: JsString)
    requires ValidFields(fields) && offset <= |body| && body[offset..] == FieldsBytes(fields) + rest
    ensures ErrorMessage(body, offset, message).Some?
    decreases |fields|
  {
    hide ZeroAfter, DecodeRange, FieldBytes;
    if fields == [] {
      assert body[offset..][0] == 0;
    } else {
      var f := fields[0];
      assert body[offset..] == FieldBytes(f) + (FieldsBytes(fields[1..]) + rest);
      assert ValidField(f);
      ReadsField(body, offset, f, FieldsBytes(fields[1..]) + rest);
      var next := offset + 2 + |f.bytes|;
      var value := DecodeRange(body, offset + 1, next - 1);
      FieldsAreRead(body, next, fields[1..], rest, if f.code == FIELD_MESSAGE then value else message);
    }
  }

  lemma {:induction false} ReadIsFields(body: Bytes, offset: nat, message: JsString)
    requires offset <= |body| && ErrorMessage(body, offset, message).Some?
    ensures StartsWithFields(body[offset..])
    decreases |body| - offset
  {
    hide ZeroAfter, DecodeRange, FieldBytes, StartsWithFields;
    if body[offset] == 0 {
      NoFields(body, offset);
    } else {
      ZeroAfterExactly(body, offset + 1);
      var end := ZeroAfter(body, offset + 1).value;
      var value := DecodeRange(body, offset + 1, end);
      ReadIsFields(body, end + 1, if body[offset] == FIELD_MESSAGE then value else message);
      var f := RawField(body[offset], body[offset + 1..end]);
      FieldSlice(body, offset, end);
      FieldInFront(f, body[end + 1..]);
    }
  }

  lemma NoFields(body: Bytes, offset: nat)
    requires offset < |body| && body[offset] == 0
    ensures StartsWithFields(body[offset..])
  {
    assert FieldsBytes([]) + body[offset + 1..] == body[offset..];
    assert ValidFields([]);
  }

  lemma FieldSlice(body: Bytes, offset: nat, end: nat)
    requires offset < end < |body| && body[end] == 0 && forall k :: offset + 1 <= k < end ==> body[k] != 0
    ensures 0 !in body[offset + 1..end]
    ensures body[offset..] == FieldBytes(RawField(body[offset], body[offset + 1..end])) + body[end + 1..]
  {
  }

  lemma FieldInFront(f: RawField, tail: Bytes)
    requires ValidField(f) && StartsWithFields(tail)
    ensures StartsWithFields(FieldBytes(f) + tail)
  {
    hide FieldBytes;
    var fields: seq<RawField>, rest: Bytes :| ValidFields(fields) && tail == FieldsBytes(fields) + rest;
    assert ([f] + fields)[1..] == fields;
    assert ValidFields([f] + fields);
    assert FieldBytes(f) + tail == FieldsBytes([f] + fields) + rest;
  }

  /**
   The source's search for the message ends exactly on a body that starts with complete fields and
   their final zero.
   */
  lemma {:induction false} ErrorTextEnds(body: Bytes)
    ensures ErrorText(body).Some? <==> StartsWithFields(body)
  {
    assert body[0..] == body;
    if ErrorText(body).Some? {
      ReadIsFields(body, 0, UNKNOWN_ERROR);
    }
    if StartsWithFields(body) {
      var fields: seq<RawField>, rest: Bytes :| ValidFields(fields) && body == FieldsBytes(fields) + rest;
      FieldsAreRead(body, 0, fields, rest, UNKNOWN_ERROR);
    }
  }

  /** "M" with neither text nor zero after it: the search never ends. */
  lemma {:induction false} UnterminatedErrorNeverEnds()
    ensures ErrorText([FIELD_MESSAGE]) == None
  {
  }

  /** A field with its text. */
  datatype ErrorField = ErrorField(code: Byte, value: JsString)

  function Encoded(fields: seq<ErrorField>): seq<RawField> {
    seq(|fields|, i requires 0 <= i < |fields| => RawField(fields[i].code, Encode(fields[i].value)))
  }

  /** The value of the last M field. */
  function LastMessage(fields: seq<ErrorField>, default: JsString): JsString {
    if fields == [] then default
    else LastMessage(fields[1..], if fields[0].code == 'M' as int then fields[0].value else default)
  }

  lemma {:induction false} MessageIsRead(body: Bytes, offset: nat, fields: seq<ErrorField>, rest: Bytes,
                                         message: JsString)
    requires forall i :: 0 <= i < |fields| ==> fields[i].code != 0 && 0 !in fields[i].value
    requires offset <= |body| && body[offset..] == FieldsBytes(Encoded(fields)) + rest
    ensures ErrorMessage(body, offset, message) == Some(LastMessage(fields, message))
    decreases |fields|
  {
    hide ZeroAfter, DecodeRange, Encode, FieldBytes;
    if fields == [] {
      assert body[offset..][0] == 0;
    } else {
      var f, raw := fields[0], Encoded(fields)[0];
      var tail := FieldsBytes(Encoded(fields[1..])) + rest;
      assert Encoded(fields)[1..] == Encoded(fields[1..]);
      assert body[offset..] == FieldBytes(raw) + tail;
      ZeroByteIsNul(f.value);
      ReadsField(body, offset, raw, tail);
      ValueIsRead(body, offset, f, tail);
      var next := offset + 2 + |raw.bytes|;
      MessageIsRead(body, next, fields[1..], rest, if f.code == 'M' as int then f.value else message);
    }
  }

  lemma {:induction false} ValueIsRead(body: Bytes, offset: nat, f: ErrorField, tail: Bytes)
    requires offset <= |body| && body[offset..] == FieldBytes(RawField(f.code, Encode(f.value))) + tail
    ensures DecodeRange(body, offset + 1, offset + 1 + |Encode(f.value)|) == f.value
  {
    hide DecodeRange, Encode;
    var e := Encode(f.value);
    forall k | 0 <= k < |e|
      ensures offset + 1 + k < |body| && body[offset + 1 + k] == e[k]
    {
      assert body[offset..][1 + k] == e[k];
    }
    DecodeEncode(body, offset + 1, f.value);
  }

  /** Every error response gives the text of its last M field, or "unknown error" if it has none. */
  lemma {:induction false} ErrorTextIsMessage(fields: seq<ErrorField>)
    requires forall i :: 0 <= i < |fields| ==> fields[i].code != 0 && 0 !in fields[i].value
    ensures ErrorText(FieldsBytes(Encoded(fields))) == Some(LastMessage(fields, Ascii("unknown error")))
  {
    hide ErrorMessage, FieldsBytes, Encoded;
    var body := FieldsBytes(Encoded(fields));
    assert body[0..] == body + [];
    MessageIsRead(body, 0, fields, [], UNKNOWN_ERROR);
  }

  // ----- queries

  predicate ValidErrorFields(fields: seq<ErrorField>) {
    forall i :: 0 <= i < |fields| ==> fields[i].code != 0 && 0 !in fields[i].value
  }

  function ErrorResponse(fields: seq<ErrorField>): Message {
    Message('E' as int, FieldsBytes(Encoded(fields)))
  }

  /**
   What the query of a cycle is to give: the answer that the server's messages carry, or the text of the
   error that ended them.
   */
  ghost predicate Answers(result: Result, c: Cycle) {
    && (forall r: Answer :: c.error.None? && Carries(c.before, r) ==> IsResult(result, r))
    && (forall fields: seq<ErrorField> :: ValidErrorFields(fields) && c.error == Some(ErrorResponse(fields)) ==>
          result == ServerError(LastMessage(fields, Ascii("unknown error"))))
  }

  lemma {:induction false} ErrorResultIs(fields: seq<ErrorField>)
    requires ValidErrorFields(fields)
    ensures ErrorResult(ErrorResponse(fields).body) == ServerError(LastMessage(fields, Ascii("unknown error")))
  {
    hide FieldsBytes, Encoded, ErrorText, LastMessage;
    ErrorTextIsMessage(fields);
  }

  lemma {:induction false} CycleIsAnswered(c: Cycle)
    requires WellFormed(c)
    ensures Answers(CycleResult(c), c)
  {
    hide Carries, IsResult, ErrorResult, ErrorResponse, Progressed, LastMessage, Sendable;
    forall r: Answer | c.error.None? && Carries(c.before, r)
      ensures IsResult(CycleResult(c), r)
    {
      AnswerCycle(c.before, r, c.ready);
      assert c == Cycle(c.before, None, [], c.ready);
    }
    forall fields: seq<ErrorField> | ValidErrorFields(fields) && c.error == Some(ErrorResponse(fields))
      ensures CycleResult(c) == ServerError(LastMessage(fields, Ascii("unknown error")))
    {
      ErrorResultIs(fields);
    }
  }

  /** A well-formed cycle is read to its ReadyForQuery, however it is chunked, and answered by its own messages. */
  lemma {:induction false} CycleIsRead(c: Cycle, w: Wire, rest: Bytes)
    requires WellFormed(c) && Stream(w) == AllBytes(CycleMessages(c)) + rest
    ensures Answers(Respond(w, START).result, c) && Stream(Respond(w, START).wire) == rest
  {
    hide WellFormed, CycleResult, Answers, Respond, CycleMessages, AllBytes, Stream;
    CycleIsAnswered(c);
    RespondReadsOneCycle(c, w, rest);
  }

  /**
   A query returns the very rows, count and tag the server encoded, however the bytes arrive and whatever
   notices come in between, and leaves the stream at what follows.
   */
  method QueryResultSet(conn: PgConnection, sql: JsString, params: seq<Parameter>,
                        ghost msgs: seq<Message>, ghost r: Answer, ghost ready: Message, ghost rest: Bytes)
    returns (result: Result)
    requires conn.Valid()
    requires Carries(msgs, r) && ready.tag == 'Z' as int && Sendable(ready)
    requires conn.reader.Unread() == AllBytes(msgs + [ready]) + rest
    modifies conn.reader`buf, conn.sock`incoming, conn.sock`sent
    ensures IsResult(result, r) && conn.reader.Unread() == rest
    ensures conn.sock.sent == old(conn.sock.sent) + AllBytes(RequestMessages(sql, params))
  {
    hide Carries, WellFormed, CycleResult, Respond, RequestBytes, RequestMessages, Stream, AllBytes, Sendable, IsResult;
    var c := Cycle(msgs, None, [], ready);
    AnswerCycle(msgs, r, ready);
    assert CycleMessages(c) == msgs + [ready];
    RespondReadsOneCycle(c, conn.reader.View(), rest);
    RequestIsMessages(sql, params);
    result := conn.Query(sql, params);
  }

  /** A query the server ends with an error throws the error's text, after reading up to ReadyForQuery. */
  method QueryError(conn: PgConnection, sql: JsString, params: seq<Parameter>,
                    ghost c: Cycle, ghost fields: seq<ErrorField>, ghost rest: Bytes)
    returns (result: Result)
    requires conn.Valid()
    requires WellFormed(c) && ValidErrorFields(fields) && c.error == Some(ErrorResponse(fields))
    requires conn.reader.Unread() == AllBytes(CycleMessages(c)) + rest
    modifies conn.reader`buf, conn.sock`incoming, conn.sock`sent
    ensures result == ServerError(LastMessage(fields, Ascii("unknown error"))) && conn.reader.Unread() == rest
    ensures conn.sock.sent == old(conn.sock.sent) + AllBytes(RequestMessages(sql, params))
  {
    hide WellFormed, CycleResult, Respond, CycleMessages, RequestBytes, RequestMessages, Stream, AllBytes, LastMessage;
    CycleIsAnswered(c);
    RespondReadsOneCycle(c, conn.reader.View(), rest);
    RequestIsMessages(sql, params);
    result := conn.Query(sql, params);
  }

  function AllCycleBytes(cycles: seq<Cycle>): Bytes {
    if cycles == [] then [] else AllBytes(CycleMessages(cycles[0])) + AllCycleBytes(cycles[1..])
  }

  datatype Request = Request(sql: JsString, params: seq<Parameter>)

  /**
   A session: however the server's bytes are cut into chunks, the k-th query
   returns the answer, or throws the error, of the k-th cycle.
   */
  method RunQueries(conn: PgConnection, requests: seq<Request>, ghost cycles: seq<Cycle>, ghost rest: Bytes)
    returns (results: seq<Result>)
    requires conn.Valid()
    requires |cycles| == |requests| && forall i :: 0 <= i < |cycles| ==> WellFormed(cycles[i])
    requires conn.reader.Unread() == AllCycleBytes(cycles) + rest
    modifies conn.reader`buf, conn.sock`incoming, conn.sock`sent
    ensures |results| == |requests|
    ensures forall i :: 0 <= i < |results| ==> Answers(results[i], cycles[i])
    ensures conn.reader.Unread() == rest
  {
    hide WellFormed, CycleResult, Answers, Respond, CycleMessages, RequestBytes, Stream;
    results := [];
    assert cycles[0..] == cycles;
    for k := 0 to |requests|
      invariant conn.Valid()
      invariant |results| == k
      invariant forall i :: 0 <= i < k ==> Answers(results[i], cycles[i])
      invariant conn.reader.Unread() == AllCycleBytes(cycles[k..]) + rest
    {
      ghost var tail := AllCycleBytes(cycles[k + 1..]) + rest;
      assert cycles[k..][1..] == cycles[k + 1..];
      assert AllCycleBytes(cycles[k..]) + rest == AllBytes(CycleMessages(cycles[k])) + tail;
      CycleIsRead(cycles[k], conn.reader.View(), tail);
      var result := conn.Query(requests[k].sql, requests[k].params);
      results := results + [result];
    }
    assert AllCycleBytes(cycles[|cycles|..]) + rest == rest;
  }

  // ----- connections that end early

  lemma {:induction false} CutIsClosed(w: Wire, m: Message, n: nat)
    requires Sendable(m) && n < |MessageBytes(m)| && Stream(w) == MessageBytes(m)[..n]
    ensures TakeMessage(w).got == None
  {
    hide TakeMessage, MessageBytes, Stream, Parse;
    ParseCut(m, n);
    TakeMessageIsParse(w);
  }

  lemma FrontOf(a: Bytes, b: Bytes, n: nat)
    requires n <= |a + b|
    ensures (a + b)[..n] == if n < |a| then a[..n] else a + b[..n - |a|]
  {
  }

  lemma {:induction false} DrainCut(w: Wire, msgs: seq<Message>, ready: Message, n: nat, onReady: Result)
    requires AllPlain(msgs) && Sendable(ready) && n < |AllBytes(msgs + [ready])|
    requires Stream(w) == AllBytes(msgs + [ready])[..n]
    ensures Drain(w, onReady).result == ConnectionClosed
    decreases |msgs|
  {
    hide MessageBytes, TakeMessage, Stream, Sendable;
    var all := msgs + [ready];
    FrontOf(MessageBytes(all[0]), AllBytes(all[1..]), n);
    if msgs == [] {
      OneMessage(ready);
      CutIsClosed(w, ready, n);
    } else if n < |MessageBytes(all[0])| {
      CutIsClosed(w, all[0], n);
    } else {
      assert all[1..] == msgs[1..] + [ready];
      assert IsPlain(msgs[0]);
      TakesFront(w, msgs[0], AllBytes(all[1..])[..n - |MessageBytes(msgs[0])|]);
      DrainCut(TakeMessage(w).wire, msgs[1..], ready, n - |MessageBytes(msgs[0])|, onReady);
    }
  }

  lemma {:induction false} RespondCut(w: Wire, c: Cycle, n: nat, p: Progress)
    requires AllPlain(c.before) && AllPlain(c.after) && Progressed(c.before, p).Continue?
    requires c.error.Some? ==> c.error.value.tag == 'E' as int && Sendable(c.error.value)
    requires c.error.None? ==> c.after == []
    requires Sendable(c.ready) && n < |AllBytes(CycleMessages(c))| && Stream(w) == AllBytes(CycleMessages(c))[..n]
    ensures Respond(w, p).result == ConnectionClosed
    decreases |c.before|
  {
    hide MessageBytes, TakeMessage, Stream, Sendable, OnMessage, Drain, ErrorResult;
    var all := CycleMessages(c);
    FrontOf(MessageBytes(all[0]), AllBytes(all[1..]), n);
    var k := n - |MessageBytes(all[0])|;
    if c.before == [] && c.error.None? {
      assert all == [c.ready];
      OneMessage(c.ready);
      CutIsClosed(w, c.ready, n);
    } else if k < 0 {
      FirstIsSendable(c);
      CutIsClosed(w, all[0], n);
    } else if c.before != [] {
      var c' := c.(before := c.before[1..]);
      assert all[1..] == CycleMessages(c');
      assert IsPlain(c.before[0]) && Sendable(c.before[0]);
      TakesFront(w, all[0], AllBytes(all[1..])[..k]);
      RespondCut(TakeMessage(w).wire, c', k, OnMessage(c.before[0], p).p);
    } else {
      assert all[1..] == c.after + [c.ready];
      TakesFront(w, all[0], AllBytes(all[1..])[..k]);
      DrainCut(TakeMessage(w).wire, c.after, c.ready, k, ErrorResult(c.error.value.body));
    }
  }

  lemma FirstIsSendable(c: Cycle)
    requires AllPlain(c.before) && (c.error.Some? ==> Sendable(c.error.value)) && Sendable(c.ready)
    requires c.error.None? ==> c.after == []
    ensures Sendable(CycleMessages(c)[0])
  {
    hide Sendable;
  }

  /** A connection that ends anywhere inside a cycle ends the query in the closed error: no rows are returned. */
  method QueryCut(conn: PgConnection, sql: JsString, params: seq<Parameter>, ghost c: Cycle, ghost n: nat)
    returns (result: Result)
    requires conn.Valid() && WellFormed(c) && n < |AllBytes(CycleMessages(c))|
    requires conn.reader.Unread() == AllBytes(CycleMessages(c))[..n]
    modifies conn.reader`buf, conn.sock`incoming, conn.sock`sent
    ensures result == ConnectionClosed
  {
    hide Respond, CycleMessages, RequestBytes, Stream, AllBytes, Progressed, Sendable, AllPlain;
    RespondCut(conn.reader.View(), c, n, START);
    result := conn.Query(sql, params);
  }

  lemma {:induction false} DrainError(w: Wire, msgs: seq<Message>, fields: seq<ErrorField>, rest: Bytes,
                                      onReady: Result)
    requires AllPlain(msgs) && ValidErrorFields(fields) && Sendable(ErrorResponse(fields))
    requires Stream(w) == AllBytes(msgs) + (MessageBytes(ErrorResponse(fields)) + rest)
    ensures Drain(w, onReady).result == ServerError(LastMessage(fields, Ascii("unknown error")))
    ensures Stream(Drain(w, onReady).wire) == rest
    decreases |msgs|
  {
    hide MessageBytes, TakeMessage, Stream, Sendable, FieldsBytes, Encoded, LastMessage, ErrorResult;
    var last := ErrorResponse(fields);
    if msgs == [] {
      assert AllBytes(msgs) + (MessageBytes(last) + rest) == MessageBytes(last) + rest;
      TakesFront(w, last, rest);
      ErrorResultIs(fields);
    } else {
      var tail := AllBytes(msgs[1..]) + (MessageBytes(last) + rest);
      assert AllBytes(msgs) + (MessageBytes(last) + rest) == MessageBytes(msgs[0]) + tail;
      assert IsPlain(msgs[0]);
      TakesFront(w, msgs[0], tail);
      DrainError(TakeMessage(w).wire, msgs[1..], fields, rest, onReady);
    }
  }

  /** A second error before ReadyForQuery, as from a server that shuts down, is the one thrown. */
  lemma {:induction false} SecondErrorIsThrown(w: Wire, before: seq<Message>, first: Message, after: seq<Message>,
                                               fields: seq<ErrorField>, rest: Bytes)
    requires AllPlain(before) && AllPlain(after) && Progressed(before, START).Continue?
    requires first.tag == 'E' as int && Sendable(first) && ValidErrorFields(fields) && Sendable(ErrorResponse(fields))
    requires Stream(w)
          == AllBytes(before) + (MessageBytes(first) + (AllBytes(after) + (MessageBytes(ErrorResponse(fields)) + rest)))
    ensures Respond(w, START).result == ServerError(LastMessage(fields, Ascii("unknown error")))
    ensures Stream(Respond(w, START).wire) == rest
  {
    hide MessageBytes, TakeMessage, Stream, Sendable, OnMessage, Drain, LastMessage, ErrorResult, Skip, AllPlain;
    var tail := AllBytes(after) + (MessageBytes(ErrorResponse(fields)) + rest);
    RespondPlain(w, before, MessageBytes(first) + tail, START);
    var w' := Skip(w, |before|);
    TakesFront(w', first, tail);
    DrainError(TakeMessage(w').wire, after, fields, rest, ErrorResult(first.body));
  }
}
