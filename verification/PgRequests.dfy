/**
 The five messages of query() (examples/pgwire.js), read back as a server reads
 them by section 55.7 of the PostgreSQL 16 manual.
 */
module PgRequests {
  import opened Options
  import opened JsStrings
  import opened Utf8
  import opened PgWire
  import opened PgQuery
  import opened PgSession

  // ----- Bind

  function ParameterCells(params: seq<Parameter>): seq<Cell> {
    seq(|params|, i requires 0 <= i < |params| => ParameterCell(params[i]))
  }

  lemma {:induction false} ParameterBytesAreCells(params: seq<Parameter>)
    ensures ParameterBytes(params) == AllCellBytes(ParameterCells(params))
    decreases |params|
  {
    hide CellBytes;
    if params != [] {
      var front, last := params[..|params| - 1], ParameterCell(params[|params| - 1]);
      ParameterBytesAreCells(front);
      assert ParameterCells(params) == ParameterCells(front) + [last];
      CellBytesAppend(ParameterCells(front), last);
    }
  }

  lemma {:induction false} CellBytesAppend(cells: seq<Cell>, c: Cell)
    ensures AllCellBytes(cells + [c]) == AllCellBytes(cells) + CellBytes(c)
    decreases |cells|
  {
    hide CellBytes;
    if cells == [] {
      assert cells + [c] == [c] && [c][1..] == [];
    } else {
      assert (cells + [c])[1..] == cells[1..] + [c];
      CellBytesAppend(cells[1..], c);
    }
  }

  lemma RegroupSix(a: Bytes, b: Bytes, c: Bytes, d: Bytes, e: Bytes, f: Bytes)
    ensures a + b + c + d + e + f == a + (b + (c + (d + (e + f))))
  {
  }

  lemma {:induction false} BindShape(params: seq<Parameter>)
    ensures BindBody(params)
         == [0] + ([0] + (Int16Bytes(0) + (Int16Bytes(|params|) + (ParameterBytes(params) + Int16Bytes(0)))))
  {
    assert CStringBytes([]) == [0];
    hide Int16Bytes, CStringBytes, ParameterBytes;
    RegroupSix([0], [0], Int16Bytes(0), Int16Bytes(|params|), ParameterBytes(params), Int16Bytes(0));
  }

  /** Where the parts of a Bind body stand. */
  lemma BindParts(params: seq<Parameter>)
    ensures var body, values := BindBody(params), ParameterBytes(params);
            && |body| == 8 + |values|
            && BytesAt(body, 0, [0]) && BytesAt(body, 1, [0])
            && BytesAt(body, 2, Int16Bytes(0)) && BytesAt(body, 4, Int16Bytes(|params|))
            && BytesAt(body, 6, values) && BytesAt(body, 6 + |values|, Int16Bytes(0))
  {
    var body, values := BindBody(params), ParameterBytes(params);
    TwoBytes(0);
    TwoBytes(|params|);
    BindShape(params);
    hide Int16Bytes, ParameterBytes, BytesAt, BindBody;
    var tail := values + Int16Bytes(0);
    var middle := Int16Bytes(|params|) + tail;
    BytesAtZero(body);
    BytesAtParts(body, 0, [0], [0] + (Int16Bytes(0) + middle), body);
    BytesAtParts(body, 1, [0], Int16Bytes(0) + middle, [0] + (Int16Bytes(0) + middle));
    BytesAtParts(body, 2, Int16Bytes(0), middle, Int16Bytes(0) + middle);
    BytesAtParts(body, 4, Int16Bytes(|params|), tail, middle);
    BytesAtParts(body, 6, values, Int16Bytes(0), tail);
  }

  lemma EmptyCString(body: Bytes, offset: nat)
    requires BytesAt(body, offset, [0])
    ensures ReadCString(body, offset) == CString([], offset + 1)
  {
    assert CStringBytes([]) == [0];
    CStringRoundTrip(body, offset, []);
  }

  /** A server reading the Bind body finds the unnamed portal and statement, text formats, and every parameter. */
  lemma {:induction false} BindRoundTrip(params: seq<Parameter>)
    requires Fits(ParameterCells(params))
    ensures var body := BindBody(params);
            && ReadCString(body, 0) == CString([], 1) && ReadCString(body, 1) == CString([], 2)
            && ReadInt16(body, 2) == 0 && ReadInt16(body, 4) == |params|
            && ReadCells(body, 6, |params|, Signed) == Cells(ParameterCells(params), |body| - 2)
            && ReadInt16(body, |body| - 2) == 0
  {
    hide AllCellBytes, ReadCells, Int16Bytes, ReadInt16, ReadCString, ParameterBytes, BytesAt, BindBody;
    var body := BindBody(params);
    BindParts(params);
    ParameterBytesAreCells(params);
    EmptyCString(body, 0);
    EmptyCString(body, 1);
    ReadWrittenInt16(body, 2, 0);
    ReadWrittenInt16(body, 4, |params|);
    ReadWrittenInt16(body, |body| - 2, 0);
    CellsRoundTrip(body, 6, ParameterCells(params), Signed);
  }

  /** The count of parameters is sent modulo 65536. */
  lemma BindCount(params: seq<Parameter>)
    ensures ReadInt16(BindBody(params), 4) == |params| % 0x1_0000
    ensures ReadInt16(BindBody(params), 4) == |params| <==> |params| < 0x1_0000
  {
    hide ReadInt16, Int16Bytes, ParameterBytes, BindBody;
    BindParts(params);
    SixteenBits(BindBody(params), 4, |params|);
  }

  lemma SixteenBits(body: Bytes, offset: nat, n: nat)
    requires BytesAt(body, offset, Int16Bytes(n))
    ensures ReadInt16(body, offset) == n % 0x1_0000
  {
    hide BytesAt;
    FirstTwo(body, offset, Int16Bytes(n));
    TwoByteValue(n);
  }

  lemma FirstTwo(body: Bytes, offset: nat, b: Bytes)
    requires |b| == 2 && BytesAt(body, offset, b)
    ensures offset + 2 <= |body| && body[offset] == b[0] && body[offset + 1] == b[1]
  {
    assert body[offset + 0] == b[0];
  }

  lemma TwoByteValue(n: nat)
    ensures n / 0x100 % 0x100 * 0x100 + n % 0x100 == n % 0x1_0000
  {
    var q := n / 0x100;
    var low := q % 0x100 * 0x100 + n % 0x100;
    assert n == q / 0x100 * 0x1_0000 + low && 0 <= low < 0x1_0000;
  }

  // ----- all five messages

  /** What a message of a client says. */
  datatype Asked =
    | Prepare(statement: JsString, sql: JsString, types: nat)
    | Bound(portal: JsString, statement: JsString, formats: nat, values: Cells, resultFormats: nat)
    | Describe(kind: char, name: JsString)
    | Execute(portal: JsString, limit: nat)
    | Sync
    | NotUnderstood

  /** A message without format codes and parameter types, as query() sends them, read to its last byte. */
  function ReadAsked(m: Message): Asked {
    if m.tag == 'P' as int then
      match ReadCString(m.body, 0)
      case Unterminated => NotUnderstood
      case CString(statement, k) =>
        (match ReadCString(m.body, k)
         case Unterminated => NotUnderstood
         case CString(sql, e) =>
           if e + 2 == |m.body| then Prepare(statement, sql, ReadInt16(m.body, e)) else NotUnderstood)
    else if m.tag == 'B' as int then
      match ReadCString(m.body, 0)
      case Unterminated => NotUnderstood
      case CString(portal, k) =>
        (match ReadCString(m.body, k)
         case Unterminated => NotUnderstood
         case CString(statement, e) =>
           var values := ReadCells(m.body, e + 4, ReadInt16(m.body, e + 2), Signed);
           if values.end + 2 == |m.body|
           then Bound(portal, statement, ReadInt16(m.body, e), values, ReadInt16(m.body, values.end))
           else NotUnderstood)
    else if m.tag == 'D' as int then
      match ReadCString(m.body, 1)
      case Unterminated => NotUnderstood
      case CString(name, k) =>
        if k == |m.body| then Describe(if ByteAt(m.body, 0) == 'P' as int then 'P' else 'S', name) else NotUnderstood
    else if m.tag == 'E' as int then
      match ReadCString(m.body, 0)
      case Unterminated => NotUnderstood
      case CString(portal, k) =>
        if k + 4 == |m.body| then Execute(portal, ReadInt32(m.body, k)) else NotUnderstood
    else if m.tag == 'S' as int && m.body == [] then Sync
    else NotUnderstood
  }

  function RequestMessages(sql: JsString, params: seq<Parameter>): seq<Message> {
    [Message('P' as int, ParseBody(sql)),
     Message('B' as int, BindBody(params)),
     Message('D' as int, ['P' as int] + CStringBytes([])),
     Message('E' as int, CStringBytes([]) + Int32Bytes(0)),
     Message('S' as int, [])]
  }

  lemma RequestIsMessages(sql: JsString, params: seq<Parameter>)
    ensures RequestBytes(sql, params) == AllBytes(RequestMessages(sql, params))
  {
    hide ParseBody, BindBody, CStringBytes, Int32Bytes, Framed, MessageBytes, AllBytes;
    var msgs := RequestMessages(sql, params);
    forall i | 0 <= i < 5
      ensures Framed(Some(msgs[i].tag), msgs[i].body) == MessageBytes(msgs[i])
    {
      FramedIsMessage(msgs[i].tag, msgs[i].body);
    }
    FiveMessages(msgs[0], msgs[1], msgs[2], msgs[3], msgs[4]);
  }

  lemma FiveMessages(a: Message, b: Message, c: Message, d: Message, e: Message)
    ensures AllBytes([a, b, c, d, e])
         == MessageBytes(a) + MessageBytes(b) + MessageBytes(c) + MessageBytes(d) + MessageBytes(e)
  {
    hide MessageBytes, AllBytes;
    OneMessage(a);
    OneMessage(b);
    OneMessage(c);
    OneMessage(d);
    OneMessage(e);
    AllBytesAppend([a], [b]);
    AllBytesAppend([a, b], [c]);
    AllBytesAppend([a, b, c], [d]);
    AllBytesAppend([a, b, c, d], [e]);
    assert [a] + [b] == [a, b] && [a, b] + [c] == [a, b, c] && [a, b, c] + [d] == [a, b, c, d];
    assert [a, b, c, d] + [e] == [a, b, c, d, e];
  }

  lemma {:induction false} ParseIsRead(sql: JsString)
    requires 0 !in sql
    ensures ReadAsked(Message('P' as int, ParseBody(sql))) == Prepare([], sql, 0)
  {
    hide Encode, ReadCString, ReadInt16, Int16Bytes, CStringBytes, BytesAt;
    var body, s := ParseBody(sql), CStringBytes(sql);
    NothingWritten();
    TwoBytes(0);
    BytesAtZero(body);
    assert body == [0] + (s + Int16Bytes(0));
    BytesAtParts(body, 0, [0], s + Int16Bytes(0), body);
    BytesAtParts(body, 1, s, Int16Bytes(0), s + Int16Bytes(0));
    EmptyCString(body, 0);
    CStringRoundTrip(body, 1, sql);
    ReadWrittenInt16(body, 1 + |s|, 0);
  }

  lemma NothingWritten()
    ensures CStringBytes([]) == [0]
  {
  }

  lemma {:induction false} BindIsRead(params: seq<Parameter>)
    requires Fits(ParameterCells(params))
    ensures var m := Message('B' as int, BindBody(params));
            ReadAsked(m) == Bound([], [], 0, Cells(ParameterCells(params), |m.body| - 2), 0)
  {
    hide Encode, ReadCString, ReadInt16, ReadCells, Int16Bytes, CStringBytes, BytesAt, BindBody, ParameterBytes;
    BindRoundTrip(params);
  }

  lemma {:induction false} DescribeIsRead()
    ensures ReadAsked(Message('D' as int, ['P' as int] + CStringBytes([]))) == Describe('P', [])
  {
    hide Encode, ReadCString, CStringBytes;
    NothingWritten();
    EmptyCString(['P' as int, 0], 1);
    assert ['P' as int] + [0] == ['P' as int, 0];
  }

  lemma {:induction false} ExecuteIsRead()
    ensures ReadAsked(Message('E' as int, CStringBytes([]) + Int32Bytes(0))) == Execute([], 0)
  {
    hide Encode, ReadCString, CStringBytes, ReadInt32, Int32Bytes, BytesAt;
    NothingWritten();
    FourBytes(0);
    var body := [0] + Int32Bytes(0);
    BytesAtZero(body);
    BytesAtParts(body, 0, [0], Int32Bytes(0), body);
    EmptyCString(body, 0);
    ReadWrittenInt32(body, 1, 0);
  }

  /** A server reads: prepare the SQL, bind the parameters, describe the portal, run it without a row limit, sync. */
  lemma {:induction false} RequestIsRead(sql: JsString, params: seq<Parameter>)
    requires 0 !in sql && Fits(ParameterCells(params))
    ensures var msgs := RequestMessages(sql, params);
            && RequestBytes(sql, params) == AllBytes(msgs) && |msgs| == 5
            && ReadAsked(msgs[0]) == Prepare([], sql, 0)
            && ReadAsked(msgs[1]) == Bound([], [], 0, Cells(ParameterCells(params), |msgs[1].body| - 2), 0)
            && ReadAsked(msgs[2]) == Describe('P', [])
            && ReadAsked(msgs[3]) == Execute([], 0)
            && ReadAsked(msgs[4]) == Sync
    ensures |ParameterCells(params)| == |params|
    ensures forall i :: 0 <= i < |params| ==>
              ParameterCells(params)[i] == match params[i] case Some(s) => Text(s) case None => Null
  {
    hide ParseBody, BindBody, CStringBytes, Int32Bytes, AllBytes, RequestBytes, ReadCString, ReadCells, ReadInt16,
         ReadInt32;
    RequestIsMessages(sql, params);
    ParseIsRead(sql);
    BindIsRead(params);
    DescribeIsRead();
    ExecuteIsRead();
  }
}
