/**
 query() on a connection (examples/pgwire.js): the five messages it sends, its
 reading loop, and the theorem that the k-th query reads the k-th response.
 */
module PgSession {
  import opened Options
  import opened JsStrings
  import opened JsNumbers
  import opened Utf8
  import opened PgWire
  import opened PgQuery

  const TAG_PARSE_COMPLETE: Byte := 49 // '1'
  const TAG_BIND_COMPLETE: Byte := 50 // '2'
  const TAG_COMMAND_COMPLETE: Byte := 67 // 'C'
  const TAG_DATA_ROW: Byte := 68 // 'D'
  const TAG_ERROR: Byte := 69 // 'E'
  const TAG_ROW_DESCRIPTION: Byte := 84 // 'T'
  const TAG_READY: Byte := 90 // 'Z'
  const FIELD_MESSAGE: Byte := 77 // 'M'

  // ----- what is sent

  /** A parameter as text; `None` is null or undefined. */
  type Parameter = Option<JsString>

  function ParameterCell(p: Parameter): Cell {
    if p.Some? then Text(p.value) else Null
  }

  function ParameterBytes(params: seq<Parameter>): Bytes {
    if params == [] then []
    else ParameterBytes(params[..|params| - 1]) + CellBytes(ParameterCell(params[|params| - 1]))
  }

  function ParseBody(sql: JsString): Bytes {
    CStringBytes([]) + CStringBytes(sql) + Int16Bytes(0)
  }

  function BindBody(params: seq<Parameter>): Bytes {
    CStringBytes([]) + CStringBytes([]) + Int16Bytes(0) + Int16Bytes(|params|) + ParameterBytes(params) + Int16Bytes(0)
  }

  function RequestBytes(sql: JsString, params: seq<Parameter>): Bytes {
    Framed(Some(80), ParseBody(sql))
    + Framed(Some(66), BindBody(params))
    + Framed(Some(68), [80] + CStringBytes([]))
    + Framed(Some(69), CStringBytes([]) + Int32Bytes(0))
    + Framed(Some(83), [])
  }

  method WriteParse(sql: JsString) returns (body: Bytes)
    ensures body == ParseBody(sql)
  {
    var w := new MsgWriter();
    w.Cstr([]);
    w.Cstr(sql);
    w.I16(0);
    body := w.bytes;
  }

  method WriteParameter(w: MsgWriter, p: Parameter)
    modifies w
    ensures w.bytes == old(w.bytes) + CellBytes(ParameterCell(p))
  {
    hide Int32Bytes, Encode;
    if p.None? {
      w.I32(-1);
    } else {
      var bytes := Utf8Encode(p.value);
      ghost var before := w.bytes;
      w.I32(|bytes|);
      w.Raw(bytes);
      assert before + Int32Bytes(|bytes|) + bytes == before + (Int32Bytes(|bytes|) + bytes);
    }
  }

  method WriteBind(params: seq<Parameter>) returns (body: Bytes)
    ensures body == BindBody(params)
  {
    hide CStringBytes, Int16Bytes, CellBytes;
    var w := new MsgWriter();
    w.Cstr([]);
    w.Cstr([]);
    w.I16(0);
    w.I16(|params|);
    ghost var head := w.bytes;
    for i := 0 to |params|
      invariant fresh(w) && w.bytes == head + ParameterBytes(params[..i])
    {
      assert params[..i + 1][..i] == params[..i];
      assert head + (ParameterBytes(params[..i]) + CellBytes(ParameterCell(params[i])))
          == (head + ParameterBytes(params[..i])) + CellBytes(ParameterCell(params[i]));
      WriteParameter(w, params[i]);
    }
    assert params[..|params|] == params;
    w.I16(0);
    body := w.bytes;
    assert body == head + ParameterBytes(params) + Int16Bytes(0);
  }

  method WriteDescribe() returns (body: Bytes)
    ensures body == [80] + CStringBytes([])
  {
    hide CStringBytes;
    var w := new MsgWriter();
    w.U8(80);
    w.Cstr([]);
    body := w.bytes;
  }

  method WriteExecute() returns (body: Bytes)
    ensures body == CStringBytes([]) + Int32Bytes(0)
  {
    hide CStringBytes, Int32Bytes;
    var w := new MsgWriter();
    w.Cstr([]);
    w.I32(0);
    body := w.bytes;
  }

  // ----- errors and command tags

  /** The 'M' field of an ErrorResponse; `None` when the source's search never ends. */
  function ErrorMessage(body: Bytes, offset: nat, message: JsString): Option<JsString>
    decreases |body| - offset
  {
    if offset >= |body| then None
    else if body[offset] == 0 then Some(message)
    else
      match ReadCString(body, offset + 1)
      case Unterminated => None
      case CString(value, next) =>
        if next <= offset then None
        else ErrorMessage(body, next, if body[offset] == FIELD_MESSAGE then value else message)
  }

  const UNKNOWN_ERROR: JsString := Ascii("unknown error")

  function ErrorText(body: Bytes): Option<JsString> {
    ErrorMessage(body, 0, UNKNOWN_ERROR)
  }

  method PgError(body: Bytes) returns (message: Option<JsString>)
    ensures message == ErrorText(body)
  {
    hide ReadCString;
    var text := UNKNOWN_ERROR;
    var offset: nat := 0;
    while offset < |body| && body[offset] != 0
      invariant ErrorMessage(body, offset, text) == ErrorText(body)
      decreases |body| - offset
    {
      var r := BodyReadCString(body, offset + 1);
      if r.Unterminated? || r.next <= offset {
        return None;
      }
      if body[offset] == FIELD_MESSAGE {
        text := r.value;
      }
      offset := r.next;
    }
    if offset >= |body| {
      return None;
    }
    message := Some(text);
  }

  /** Where the digits at the end of a command tag start. */
  function TrailingDigits(tag: JsString): (k: nat)
    ensures k <= |tag|
    ensures AllDigits(tag[k..], Radix.Decimal)
    ensures k > 0 ==> !IsDigit(tag[k - 1], Radix.Decimal)
  {
    if tag != [] && IsDigit(tag[|tag| - 1], Radix.Decimal) then
      var k := TrailingDigits(tag[..|tag| - 1]);
      assert tag[k..] == tag[..|tag| - 1][k..] + [tag[|tag| - 1]];
      k
    else
      assert tag[|tag|..] == [];
      |tag|
  }

  /** The row count of a command tag such as "SELECT 3", or the number of rows read if it has none. */
  function CountOf(tag: JsString, rows: nat): nat {
    var k := TrailingDigits(tag);
    if k < |tag| then NumeralValue(tag[k..], Radix.Decimal) else rows
  }

  // ----- what is read

  datatype Progress = Progress(columns: Option<seq<JsString>>, rows: seq<Row>, rowCount: nat, command: Option<JsString>)

  const START: Progress := Progress(None, [], 0, None)

  datatype Result =
    | Rows(rows: seq<Row>, rowCount: nat, command: Option<JsString>)
    | ServerError(message: JsString)
    | ConnectionClosed
    | TypeError // a DataRow before any RowDescription
    | NeverEnds // a string without a terminator

  /** How one message other than an error or ReadyForQuery changes the progress, or ends the query. */
  datatype Step = Continue(p: Progress) | Stop(r: Result)

  function OnMessage(m: Message, p: Progress): Step {
    if m.tag == TAG_PARSE_COMPLETE || m.tag == TAG_BIND_COMPLETE then Continue(p)
    else if m.tag == TAG_ROW_DESCRIPTION then
      match Columns(m.body, 2, ReadInt16(m.body, 0))
      case Some(names) => Continue(p.(columns := Some(names)))
      case None => Stop(NeverEnds)
    else if m.tag == TAG_DATA_ROW then
      match DataRow(m.body, p.columns)
      case Some(row) => Continue(p.(rows := p.rows + [row]))
      case None => Stop(TypeError)
    else if m.tag == TAG_COMMAND_COMPLETE then
      match ReadCString(m.body, 0)
      case CString(value, _) => Continue(p.(command := Some(value), rowCount := CountOf(value, |p.rows|)))
      case Unterminated => Stop(NeverEnds)
    else Continue(p)
  }

  method HandleMessage(m: Message, p: Progress) returns (step: Step)
    requires m.tag != TAG_ERROR && m.tag != TAG_READY
    ensures step == OnMessage(m, p)
  {
    if m.tag == TAG_PARSE_COMPLETE || m.tag == TAG_BIND_COMPLETE {
      return Continue(p);
    } else if m.tag == TAG_ROW_DESCRIPTION {
      var columns := ParseRowDescription(m.body);
      return if columns.Some? then Continue(p.(columns := columns)) else Stop(NeverEnds);
    } else if m.tag == TAG_DATA_ROW {
      var row := ParseDataRow(m.body, p.columns);
      return if row.Some? then Continue(p.(rows := p.rows + [row.value])) else Stop(TypeError);
    } else if m.tag == TAG_COMMAND_COMPLETE {
      var tag := BodyReadCString(m.body, 0);
      if tag.Unterminated? {
        return Stop(NeverEnds);
      }
      return Continue(p.(command := Some(tag.value), rowCount := CountOf(tag.value, |p.rows|)));
    }
    step := Continue(p);
  }

  datatype Response = Response(result: Result, wire: Wire)

  function ErrorResult(body: Bytes): Result {
    match ErrorText(body)
    case Some(message) => ServerError(message)
    case None => NeverEnds
  }

  /** `_drainToReady` after an error: `onReady` is what is thrown once ReadyForQuery has been read. */
  function Drain(w: Wire, onReady: Result): Response
    decreases |Stream(w)|
  {
    var t := TakeMessage(w);
    TakeMessageShrinks(w);
    match t.got
    case None => Response(ConnectionClosed, t.wire)
    case Some(m) =>
      if m.tag == TAG_READY then Response(onReady, t.wire)
      else if m.tag == TAG_ERROR then Response(ErrorResult(m.body), t.wire)
      else Drain(t.wire, onReady)
  }

  /** The reading loop of query(). */
  function Respond(w: Wire, p: Progress): Response
    decreases |Stream(w)|
  {
    var t := TakeMessage(w);
    TakeMessageShrinks(w);
    match t.got
    case None => Response(ConnectionClosed, t.wire)
    case Some(m) =>
      if m.tag == TAG_READY then Response(Rows(p.rows, p.rowCount, p.command), t.wire)
      else if m.tag == TAG_ERROR then Drain(t.wire, ErrorResult(m.body))
      else
        match OnMessage(m, p)
        case Stop(r) => Response(r, t.wire)
        case Continue(p') => Respond(t.wire, p')
  }

  class PgConnection {
    const sock: Socket
    const reader: SocketReader

    constructor (sock: Socket)
      requires sock.Valid()
      ensures this.sock == sock && reader.sock == sock && reader.buf == [] && fresh(reader)
    {
      this.sock := sock;
      reader := new SocketReader(sock);
    }

    predicate Valid()
      reads sock
    {
      reader.sock == sock && sock.Valid()
    }

    method DrainToReady(onReady: Result) returns (result: Result)
      requires Valid()
      modifies reader`buf, sock`incoming
      ensures Valid()
      ensures Response(result, reader.View()) == Drain(old(reader.View()), onReady)
    {
      hide TakeMessage, ErrorText, Stream;
      while true
        invariant Valid()
        invariant Drain(old(reader.View()), onReady) == Drain(reader.View(), onReady)
        decreases |Stream(reader.View())|
      {
        TakeMessageShrinks(reader.View());
        var m := reader.ReadMessage();
        if m.None? {
          return ConnectionClosed;
        }
        if m.value.tag == TAG_READY {
          return onReady;
        } else if m.value.tag == TAG_ERROR {
          var message := PgError(m.value.body);
          return if message.Some? then ServerError(message.value) else NeverEnds;
        }
      }
    }

    method ReadResponse() returns (result: Result)
      requires Valid()
      modifies reader`buf, sock`incoming
      ensures Valid()
      ensures Response(result, reader.View()) == Respond(old(reader.View()), START)
    {
      hide TakeMessage, ErrorText, OnMessage, Drain, Stream;
      var p := START;
      while true
        invariant Valid()
        invariant Respond(old(reader.View()), START) == Respond(reader.View(), p)
        decreases |Stream(reader.View())|
      {
        TakeMessageShrinks(reader.View());
        var m := reader.ReadMessage();
        if m.None? {
          return ConnectionClosed;
        }
        if m.value.tag == TAG_READY {
          return Rows(p.rows, p.rowCount, p.command);
        } else if m.value.tag == TAG_ERROR {
          var message := PgError(m.value.body);
          result := DrainToReady(if message.Some? then ServerError(message.value) else NeverEnds);
          return;
        }
        var step := HandleMessage(m.value, p);
        if step.Stop? {
          return step.r;
        }
        p := step.p;
      }
    }

    method Query(sql: JsString, params: seq<Parameter>) returns (result: Result)
      requires Valid()
      modifies reader`buf, sock`incoming, sock`sent
      ensures Valid()
      ensures sock.sent == old(sock.sent) + RequestBytes(sql, params)
      ensures Response(result, reader.View()) == Respond(old(reader.View()), START)
    {
      hide Respond;
      SendRequest(sql, params);
      result := ReadResponse();
    }

    method SendRequest(sql: JsString, params: seq<Parameter>)
      modifies sock`sent
      ensures sock.sent == old(sock.sent) + RequestBytes(sql, params)
    {
      hide Framed, ParseBody, BindBody, CStringBytes, Int32Bytes;
      ghost var before := sock.sent;
      var parse := WriteParse(sql);
      var m1 := BuildMessage(Some(80), parse);
      sock.Send(m1);
      var bind := WriteBind(params);
      var m2 := BuildMessage(Some(66), bind);
      sock.Send(m2);
      var describe := WriteDescribe();
      var m3 := BuildMessage(Some(68), describe);
      sock.Send(m3);
      var execute := WriteExecute();
      var m4 := BuildMessage(Some(69), execute);
      sock.Send(m4);
      var m5 := BuildMessage(Some(83), []);
      sock.Send(m5);
      assert before + m1 + m2 + m3 + m4 + m5 == before + (m1 + m2 + m3 + m4 + m5);
    }
  }

  // ----- response cycles

  predicate IsPlain(m: Message) {
    m.tag != 'Z' as int && m.tag != 'E' as int
  }

  /** What a server answers to one request: messages up to and with ReadyForQuery, at most one of them an error. */
  datatype Cycle = Cycle(before: seq<Message>, error: Option<Message>, after: seq<Message>, ready: Message)

  function CycleMessages(c: Cycle): seq<Message> {
    c.before + (if c.error.Some? then [c.error.value] else []) + c.after + [c.ready]
  }

  predicate AllPlain(msgs: seq<Message>) {
    forall i :: 0 <= i < |msgs| ==> IsPlain(msgs[i]) && Sendable(msgs[i])
  }

  /** The result of the messages of one cycle alone. */
  function Progressed(msgs: seq<Message>, p: Progress): Step {
    if msgs == [] then Continue(p)
    else
      match OnMessage(msgs[0], p)
      case Continue(p') => Progressed(msgs[1..], p')
      case Stop(r) => Stop(r)
  }

  function CycleResult(c: Cycle): Result {
    match Progressed(c.before, START)
    case Stop(r) => r
    case Continue(p) => if c.error.Some? then ErrorResult(c.error.value.body) else Rows(p.rows, p.rowCount, p.command)
  }

  /**
   A cycle by section 55.2.3 of the PostgreSQL manual: without an error nothing
   comes after `before` but ReadyForQuery, and bodies are complete.
   */
  predicate WellFormed(c: Cycle) {
    && AllPlain(c.before) && AllPlain(c.after)
    && (c.error.Some? ==> c.error.value.tag == 'E' as int && Sendable(c.error.value))
    && (c.error.None? ==> c.after == [])
    && c.ready.tag == 'Z' as int && Sendable(c.ready)
    && Progressed(c.before, START).Continue?
  }

  lemma {:induction false} AllBytesAppend(a: seq<Message>, b: seq<Message>)
    ensures AllBytes(a + b) == AllBytes(a) + AllBytes(b)
    decreases |a|
  {
    hide MessageBytes;
    if a == [] {
      assert a + b == b;
    } else {
      assert (a + b)[1..] == a[1..] + b;
      AllBytesAppend(a[1..], b);
      assert MessageBytes(a[0]) + (AllBytes(a[1..]) + AllBytes(b))
         == MessageBytes(a[0]) + AllBytes(a[1..]) + AllBytes(b);
    }
  }

  /** The wire after `k` messages. */
  function Skip(w: Wire, k: nat): Wire
    decreases k
  {
    if k == 0 then w else Skip(TakeMessage(w).wire, k - 1)
  }

  lemma {:induction false} RespondPlain(w: Wire, msgs: seq<Message>, rest: Bytes, p: Progress)
    requires AllPlain(msgs) && Progressed(msgs, p).Continue? && Stream(w) == AllBytes(msgs) + rest
    ensures Respond(w, p) == Respond(Skip(w, |msgs|), Progressed(msgs, p).p)
    ensures Stream(Skip(w, |msgs|)) == rest
    decreases |msgs|
  {
    hide MessageBytes, TakeMessage, OnMessage, Stream, Sendable;
    if msgs == [] {
      assert AllBytes(msgs) + rest == rest;
    } else {
      var tail := AllBytes(msgs[1..]) + rest;
      assert AllBytes(msgs) + rest == MessageBytes(msgs[0]) + tail;
      assert IsPlain(msgs[0]);
      TakesFront(w, msgs[0], tail);
      RespondPlain(TakeMessage(w).wire, msgs[1..], rest, OnMessage(msgs[0], p).p);
    }
  }

  lemma {:induction false} DrainPlain(w: Wire, msgs: seq<Message>, ready: Message, rest: Bytes, onReady: Result)
    requires AllPlain(msgs) && ready.tag == TAG_READY && Sendable(ready)
    requires Stream(w) == AllBytes(msgs) + (MessageBytes(ready) + rest)
    ensures Drain(w, onReady).result == onReady && Stream(Drain(w, onReady).wire) == rest
    decreases |msgs|
  {
    hide MessageBytes, TakeMessage, Stream, Sendable;
    if msgs == [] {
      assert AllBytes(msgs) + (MessageBytes(ready) + rest) == MessageBytes(ready) + rest;
      TakesFront(w, ready, rest);
    } else {
      var tail := AllBytes(msgs[1..]) + (MessageBytes(ready) + rest);
      assert AllBytes(msgs) + (MessageBytes(ready) + rest) == MessageBytes(msgs[0]) + tail;
      assert IsPlain(msgs[0]);
      TakesFront(w, msgs[0], tail);
      DrainPlain(TakeMessage(w).wire, msgs[1..], ready, rest, onReady);
    }
  }

  function ErrorPart(c: Cycle): Bytes {
    if c.error.Some? then MessageBytes(c.error.value) else []
  }

  lemma Regroup(a: Bytes, b: Bytes, c: Bytes, d: Bytes, rest: Bytes)
    ensures a + b + c + d + rest == a + (b + (c + (d + rest)))
  {
  }

  lemma CycleBytes(c: Cycle, rest: Bytes)
    ensures AllBytes(CycleMessages(c)) + rest
         == AllBytes(c.before) + (ErrorPart(c) + (AllBytes(c.after) + (MessageBytes(c.ready) + rest)))
  {
    var e := if c.error.Some? then [c.error.value] else [];
    OneMessage(c.ready);
    assert AllBytes(e) == ErrorPart(c) by {
      if c.error.Some? {
        OneMessage(c.error.value);
      }
    }
    hide MessageBytes, AllBytes;
    AllBytesAppend(c.before + e + c.after, [c.ready]);
    AllBytesAppend(c.before + e, c.after);
    AllBytesAppend(c.before, e);
    Regroup(AllBytes(c.before), ErrorPart(c), AllBytes(c.after), MessageBytes(c.ready), rest);
  }

  lemma OneMessage(m: Message)
    ensures AllBytes([m]) == MessageBytes(m)
  {
    assert [m][1..] == [];
    assert MessageBytes(m) + [] == MessageBytes(m);
  }

  /** One query reads one cycle, to its ReadyForQuery, whatever follows and however it is cut into chunks. */
  lemma {:induction false} RespondReadsOneCycle(c: Cycle, w: Wire, rest: Bytes)
    requires WellFormed(c) && Stream(w) == AllBytes(CycleMessages(c)) + rest
    ensures Respond(w, START).result == CycleResult(c) && Stream(Respond(w, START).wire) == rest
  {
    hide MessageBytes, TakeMessage, OnMessage, CycleMessages, ErrorText, Stream, Sendable, AllPlain, Drain, Skip;
    CycleBytes(c, rest);
    var p := Progressed(c.before, START).p;
    var ready := MessageBytes(c.ready) + rest;
    var tail := AllBytes(c.after) + ready;
    RespondPlain(w, c.before, ErrorPart(c) + tail, START);
    var w' := Skip(w, |c.before|);
    if c.error.Some? {
      TakesFront(w', c.error.value, tail);
      DrainPlain(TakeMessage(w').wire, c.after, c.ready, rest, ErrorResult(c.error.value.body));
    } else {
      assert ErrorPart(c) + tail == ready;
      TakesFront(w', c.ready, rest);
    }
  }
}
