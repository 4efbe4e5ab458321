/**
 Messages on the wire (examples/pgwire.js): writing them, and reading them back
 from a socket that delivers bytes in chunks of any size.
 */
module PgWire {
  import opened Options
  import opened Sequences
  import opened JsStrings
  import opened Utf8

  // ----- integers on the wire

  /** `i16`: the two low bytes of `n`, high byte first. */
  function Int16Bytes(n: int): Bytes {
    [n / 0x100 % 0x100, n % 0x100]
  }

  /** `i32`: the four bytes of `n` as a 32-bit word; a negative `n` is written in two's complement. */
  function Int32Bytes(n: int): Bytes {
    [n / 0x100_0000 % 0x100, n / 0x1_0000 % 0x100, n / 0x100 % 0x100, n % 0x100]
  }

  function Uint32Of(a: Byte, b: Byte, c: Byte, d: Byte): nat {
    a * 0x100_0000 + b * 0x1_0000 + c * 0x100 + d
  }

  /** A read outside an array is `undefined`, which the shifts turn into 0. */
  function ByteAt(body: Bytes, i: int): Byte {
    if 0 <= i < |body| then body[i] else 0
  }

  /** `bodyReadInt32`: unsigned, because of the final `>>> 0`. */
  function ReadInt32(body: Bytes, offset: int): nat {
    Uint32Of(ByteAt(body, offset), ByteAt(body, offset + 1), ByteAt(body, offset + 2), ByteAt(body, offset + 3))
  }

  function ReadInt16(body: Bytes, offset: int): nat {
    ByteAt(body, offset) * 0x100 + ByteAt(body, offset + 1)
  }

  lemma {:induction false} Int32RoundTrip(n: int)
    requires -0x8000_0000 <= n < 0x1_0000_0000
    ensures var b := Int32Bytes(n);
            Uint32Of(b[0], b[1], b[2], b[3]) == if n < 0 then n + 0x1_0000_0000 else n
  {
    var a, b, c: int := n / 0x100, n / 0x1_0000, n / 0x100_0000;
    assert n == a * 0x100 + n % 0x100;
    assert a == b * 0x100 + a % 0x100;
    assert b == c * 0x100 + b % 0x100;
    if n < 0 {
      assert c % 0x100 == c + 0x100;
    } else {
      assert c % 0x100 == c;
    }
  }

  lemma ReadWrittenInt32(body: Bytes, offset: nat, n: int)
    requires -0x8000_0000 <= n < 0x1_0000_0000 && BytesAt(body, offset, Int32Bytes(n))
    ensures ReadInt32(body, offset) == if n < 0 then n + 0x1_0000_0000 else n
  {
    var b := Int32Bytes(n);
    assert body[offset + 0] == b[0] && body[offset + 1] == b[1] && body[offset + 2] == b[2] && body[offset + 3] == b[3];
    Int32RoundTrip(n);
  }

  lemma ReadWrittenInt16(body: Bytes, offset: nat, n: int)
    requires 0 <= n < 0x1_0000 && BytesAt(body, offset, Int16Bytes(n))
    ensures ReadInt16(body, offset) == n
  {
    var b := Int16Bytes(n);
    assert body[offset + 0] == b[0] && body[offset + 1] == b[1];
  }

  /** Network byte order: the first byte counts most. */
  function NetworkValue(b: Bytes): nat {
    if b == [] then 0 else NetworkValue(b[..|b| - 1]) * 256 + b[|b| - 1]
  }

  lemma LastByteCounts(b: Bytes, x: Byte)
    ensures NetworkValue(b + [x]) == NetworkValue(b) * 256 + x
  {
    assert (b + [x])[..|b|] == b;
  }

  lemma TwoByteValue(a: Byte, b: Byte)
    ensures NetworkValue([a, b]) == a * 256 + b
  {
    LastByteCounts([], a);
    LastByteCounts([a], b);
    assert [] + [a] == [a] && [a] + [b] == [a, b];
  }

  lemma FourByteValue(a: Byte, b: Byte, c: Byte, d: Byte)
    ensures NetworkValue([a, b, c, d]) == Uint32Of(a, b, c, d)
  {
    hide NetworkValue;
    TwoByteValue(a, b);
    LastByteCounts([a, b], c);
    LastByteCounts([a, b, c], d);
    assert [a, b] + [c] == [a, b, c] && [a, b, c] + [d] == [a, b, c, d];
  }

  /** Words are sent in network order, a negative number as its two's complement. */
  lemma {:induction false} Int32IsNetworkOrder(n: int)
    requires -0x8000_0000 <= n < 0x1_0000_0000
    ensures |Int32Bytes(n)| == 4
    ensures NetworkValue(Int32Bytes(n)) == if n < 0 then n + 0x1_0000_0000 else n
  {
    Int32RoundTrip(n);
    var b := Int32Bytes(n);
    hide Int32Bytes, Uint32Of;
    FourByteValue(b[0], b[1], b[2], b[3]);
    assert b == [b[0], b[1], b[2], b[3]];
  }

  lemma {:induction false} Int16IsNetworkOrder(n: nat)
    requires n < 0x1_0000
    ensures |Int16Bytes(n)| == 2 && NetworkValue(Int16Bytes(n)) == n
  {
    TwoByteValue(n / 0x100 % 0x100, n % 0x100);
  }

  /** And read in it. */
  lemma {:induction false} ReadsNetworkOrder(body: Bytes, offset: nat)
    ensures offset + 4 <= |body| ==> ReadInt32(body, offset) == NetworkValue(body[offset..offset + 4])
    ensures offset + 2 <= |body| ==> ReadInt16(body, offset) == NetworkValue(body[offset..offset + 2])
  {
    if offset + 2 <= |body| {
      TwoByteValue(body[offset], body[offset + 1]);
      assert body[offset..offset + 2] == [body[offset], body[offset + 1]];
    }
    if offset + 4 <= |body| {
      FourByteValue(body[offset], body[offset + 1], body[offset + 2], body[offset + 3]);
      assert body[offset..offset + 4] == [body[offset], body[offset + 1], body[offset + 2], body[offset + 3]];
    }
  }

  // ----- zero-terminated strings

  datatype CString = CString(value: JsString, next: nat) | Unterminated

  /** The first zero byte at or after `offset`. */
  function ZeroAfter(body: Bytes, offset: nat): Option<nat>
    decreases |body| - offset
  {
    if offset >= |body| then None
    else if body[offset] == 0 then Some(offset)
    else ZeroAfter(body, offset + 1)
  }

  function ReadCString(body: Bytes, offset: nat): CString {
    match ZeroAfter(body, offset)
    case Some(end) => CString(DecodeRange(body, offset, end), end + 1)
    case None => Unterminated
  }

  /** `bodyReadCString`; the source's loop never ends on a body without a terminator, which is `Unterminated` here. */
  method BodyReadCString(body: Bytes, offset: nat) returns (r: CString)
    ensures r == ReadCString(body, offset)
  {
    var end := offset;
    while end < |body| && body[end] != 0
      invariant offset <= end
      invariant ZeroAfter(body, offset) == ZeroAfter(body, end)
      decreases |body| - end
    {
      end := end + 1;
    }
    if end >= |body| {
      return Unterminated;
    }
    var value := Utf8Decode(body, offset, end);
    r := CString(value, end + 1);
  }

  /** The search fails, and in the source never ends, exactly when no zero byte is left. */
  lemma {:induction false} ZeroAfterExactly(body: Bytes, offset: nat)
    ensures ZeroAfter(body, offset).None? <==> forall k :: offset <= k < |body| ==> body[k] != 0
    ensures var z := ZeroAfter(body, offset);
            z.Some? ==>
              offset <= z.value < |body| && body[z.value] == 0 && forall k :: offset <= k < z.value ==> body[k] != 0
    decreases |body| - offset
  {
    if offset < |body| && body[offset] != 0 {
      ZeroAfterExactly(body, offset + 1);
    }
  }

  lemma {:induction false} UnterminatedExactly(body: Bytes, offset: nat)
    ensures ReadCString(body, offset).Unterminated? <==> forall k :: offset <= k < |body| ==> body[k] != 0
  {
    hide DecodeRange;
    ZeroAfterExactly(body, offset);
  }

  /** "A" without a terminator. */
  lemma {:induction false} UnterminatedString()
    ensures ReadCString([65], 0).Unterminated?
  {
    UnterminatedExactly([65], 0);
  }

  function CStringBytes(s: JsString): Bytes {
    Encode(s) + [0]
  }

  lemma {:induction false} ZeroAfterIs(body: Bytes, offset: nat, end: nat)
    requires offset <= end < |body| && body[end] == 0
    requires forall k :: offset <= k < end ==> body[k] != 0
    ensures ZeroAfter(body, offset) == Some(end)
    decreases end - offset
  {
    if offset < end {
      ZeroAfterIs(body, offset + 1, end);
    }
  }

  /** A string without U+0000 written with `cstr` is read back, and the offset moves just past it. */
  lemma CStringRoundTrip(body: Bytes, offset: nat, s: JsString)
    requires 0 !in s && BytesAt(body, offset, CStringBytes(s))
    ensures ReadCString(body, offset) == CString(s, offset + |CStringBytes(s)|)
  {
    hide Encode, DecodeRange;
    var e := Encode(s);
    ZeroByteIsNul(s);
    assert CStringBytes(s)[|e|] == 0 && body[offset + |e|] == 0;
    forall k | 0 <= k < |e|
      ensures body[offset + k] == e[k]
    {
      assert CStringBytes(s)[k] == e[k];
    }
    forall k | offset <= k < offset + |e|
      ensures body[k] != 0
    {
      assert body[offset + (k - offset)] == e[k - offset];
      assert e[k - offset] in e;
    }
    ZeroAfterIs(body, offset, offset + |e|);
    DecodeEncode(body, offset, s);
  }

  // ----- writing

  class MsgWriter {
    var bytes: Bytes

    constructor ()
      ensures bytes == []
    {
      bytes := [];
    }

    method U8(n: int)
      modifies this
      ensures bytes == old(bytes) + [n % 0x100]
    {
      bytes := bytes + [n % 0x100];
    }

    method I16(n: int)
      modifies this
      ensures bytes == old(bytes) + Int16Bytes(n)
    {
      bytes := bytes + [n / 0x100 % 0x100, n % 0x100];
    }

    method I32(n: int)
      modifies this
      ensures bytes == old(bytes) + Int32Bytes(n)
    {
      bytes := bytes + [n / 0x100_0000 % 0x100, n / 0x1_0000 % 0x100, n / 0x100 % 0x100, n % 0x100];
    }

    method Cstr(s: JsString)
      modifies this
      ensures bytes == old(bytes) + CStringBytes(s)
    {
      var encoded := Utf8Encode(s);
      for i := 0 to |encoded|
        invariant bytes == old(bytes) + encoded[..i]
      {
        bytes := bytes + [encoded[i]];
      }
      bytes := bytes + [0];
      assert encoded[..|encoded|] == encoded;
      assert old(bytes) + encoded + [0] == old(bytes) + (encoded + [0]);
    }

    method Raw(arr: Bytes)
      modifies this
      ensures bytes == old(bytes) + arr
    {
      for i := 0 to |arr|
        invariant bytes == old(bytes) + arr[..i]
      {
        bytes := bytes + [arr[i]];
      }
      assert arr[..|arr|] == arr;
    }
  }

  /** A message: its type byte, if it has one, its length with the length word itself, its body. */
  function Framed(tag: Option<CodeUnit>, body: Bytes): Bytes {
    (if tag.Some? then [tag.value % 0x100] else []) + Int32Bytes(|body| + 4) + body
  }

  method BuildMessage(tag: Option<CodeUnit>, body: Bytes) returns (message: Bytes)
    ensures message == Framed(tag, body)
  {
    var out := new MsgWriter();
    if tag.Some? {
      out.U8(tag.value);
    }
    out.I32(|body| + 4);
    out.Raw(body);
    message := out.bytes;
  }

  // ----- the socket

  /** A connection: the chunks still to arrive before the server closes it, and what was sent. */
  class Socket {
    var incoming: seq<Bytes>
    var sent: Bytes

    predicate Valid()
      reads this
    {
      forall i :: 0 <= i < |incoming| ==> incoming[i] != []
    }

    /** The next chunk; empty once the connection is closed. */
    method Recv() returns (chunk: Bytes)
      requires Valid()
      modifies this`incoming
      ensures Valid()
      ensures old(incoming) == [] ==> chunk == [] && incoming == []
      ensures old(incoming) != [] ==> chunk == old(incoming)[0] && chunk != [] && incoming == old(incoming)[1..]
    {
      if incoming == [] {
        return [];
      }
      chunk := incoming[0];
      incoming := incoming[1..];
    }

    method Send(bytes: Bytes)
      modifies this`sent
      ensures sent == old(sent) + bytes
    {
      sent := sent + bytes;
    }
  }

  // ----- reading

  /** `slice(0, n)` and `slice(n)`: a negative index counts from the end. */
  function SliceTo(b: Bytes, n: int): Bytes {
    if n < 0 then b[..if |b| + n < 0 then 0 else |b| + n] else b[..Min(n, |b|)]
  }

  function SliceFrom(b: Bytes, n: int): Bytes {
    if n < 0 then b[if |b| + n < 0 then 0 else |b| + n..] else b[Min(n, |b|)..]
  }

  datatype Message = Message(tag: Byte, body: Bytes)

  datatype Parsed =
    | Complete(message: Message, rest: Bytes)
    | Cut(left: Bytes) // the connection ends first; `left` is what stays buffered
    | BadLength // a length word below 4

  /** The message at the front of a byte stream. */
  function Parse(stream: Bytes): (r: Parsed)
    ensures r.Complete? ==> |r.rest| < |stream|
  {
    if |stream| < 1 then Cut(stream)
    else if |stream| < 5 then Cut(stream[1..])
    else
      var len := Uint32Of(stream[1], stream[2], stream[3], stream[4]);
      if len < 4 then BadLength
      else if |stream| < len + 1 then Cut(stream[5..])
      else Complete(Message(stream[0], stream[5..len + 1]), stream[len + 1..])
  }

  // ----- reading, chunk by chunk

  /** What the reader has buffered and the chunks it has not received yet. */
  datatype Wire = Wire(buf: Bytes, chunks: seq<Bytes>)

  /** Everything received or still to arrive that has not been consumed. */
  function Stream(w: Wire): Bytes {
    w.buf + Concat(w.chunks)
  }

  /** `_fill`: chunks are received until there are enough bytes, or no more chunks. */
  function Filled(w: Wire, need: int): (r: Wire)
    ensures Stream(r) == Stream(w)
    ensures |r.buf| >= need || r.chunks == []
    decreases |w.chunks|
  {
    if |w.buf| >= need || w.chunks == [] then w
    else
      var next := Wire(w.buf + w.chunks[0], w.chunks[1..]);
      assert Stream(next) == Stream(w);
      Filled(next, need)
  }

  /** What was read, and the wire after it; `None` is the "connection closed by server" error. */
  datatype Taken<T> = Taken(got: Option<T>, wire: Wire)

  /** `readBytes`: with a negative count, what slice makes of it. */
  function TakeBytes(w: Wire, n: int): Taken<Bytes> {
    var f := Filled(w, n);
    if |f.buf| < n then Taken(None, f)
    else Taken(Some(SliceTo(f.buf, n)), Wire(SliceFrom(f.buf, n), f.chunks))
  }

  /** For a count that is not negative only the stream matters, not how it is cut. */
  lemma TakeIsStream(w: Wire, n: nat)
    ensures var t := TakeBytes(w, n);
            if n <= |Stream(w)| then t.got == Some(Stream(w)[..n]) && Stream(t.wire) == Stream(w)[n..]
            else t.got == None && Stream(t.wire) == Stream(w)
  {
    var f := Filled(w, n);
    if |f.buf| >= n {
      assert Stream(w)[..n] == f.buf[..n];
      assert Stream(w)[n..] == f.buf[n..] + Concat(f.chunks);
    } else {
      assert Concat(f.chunks) == [];
    }
  }

  /** A negative count, as slice reads it, leaves that many bytes at the buffer's end and takes those before. */
  lemma NegativeCount(w: Wire, n: int)
    requires n < 0
    ensures var t := TakeBytes(w, n);
            && t.got.Some? && t.got.value + t.wire.buf == w.buf && t.wire.chunks == w.chunks
            && |t.wire.buf| == if -n < |w.buf| then -n else |w.buf|
  {
  }

  lemma TakeNeverGrows(w: Wire, n: int)
    ensures |Stream(TakeBytes(w, n).wire)| <= |Stream(w)|
    ensures n <= 0 ==> TakeBytes(w, n).got.Some?
  {
  }

  function LengthOf(b: Bytes): nat
    requires |b| == 4
  {
    Uint32Of(b[0], b[1], b[2], b[3])
  }

  lemma TakenCount(w: Wire)
    ensures TakeBytes(w, 4).got.Some? ==> |TakeBytes(w, 4).got.value| == 4
    ensures TakeBytes(w, 1).got.Some? ==> |TakeBytes(w, 1).got.value| == 1
  {
  }

  /** `readMessage`, on every input: a length word below 4 makes a negative count. */
  function TakeMessage(w: Wire): Taken<Message> {
    var tag := TakeBytes(w, 1);
    if tag.got.None? then Taken(None, tag.wire)
    else
      var len := TakeBytes(tag.wire, 4);
      if len.got.None? then Taken(None, len.wire)
      else
        TakenCount(w);
        TakenCount(tag.wire);
        var n: int := LengthOf(len.got.value);
        var body := TakeBytes(len.wire, n - 4);
        if body.got.None? then Taken(None, body.wire)
        else Taken(Some(Message(tag.got.value[0], body.got.value)), body.wire)
  }

  lemma TakeMessageShrinks(w: Wire)
    ensures TakeMessage(w).got.Some? ==> |Stream(TakeMessage(w).wire)| < |Stream(w)|
    ensures |Stream(TakeMessage(w).wire)| <= |Stream(w)|
  {
    hide Filled, SliceTo, SliceFrom, TakeBytes, Stream, LengthOf;
    var tag := TakeBytes(w, 1);
    TakeIsStream(w, 1);
    TakenCount(w);
    if tag.got.Some? {
      var len := TakeBytes(tag.wire, 4);
      TakeNeverGrows(tag.wire, 4);
      TakenCount(tag.wire);
      if len.got.Some? {
        var n: int := LengthOf(len.got.value);
        TakeNeverGrows(len.wire, n - 4);
      }
    }
  }

  /** Unless the length word is below 4, a message is read as the stream says, however it is cut into chunks. */
  lemma TakeMessageIsParse(w: Wire)
    ensures var p, t := Parse(Stream(w)), TakeMessage(w);
            && (p.Complete? ==> t.got == Some(p.message) && Stream(t.wire) == p.rest)
            && (p.Cut? ==> t.got == None && Stream(t.wire) == p.left)
            && (p.BadLength? ==> t.got.Some?)
  {
    hide Filled, SliceTo, SliceFrom, TakeBytes, Stream, Uint32Of;
    var s := Stream(w);
    var tag := TakeBytes(w, 1);
    TakeIsStream(w, 1);
    TakenCount(w);
    if tag.got.Some? {
      var len := TakeBytes(tag.wire, 4);
      TakeIsStream(tag.wire, 4);
      TakenCount(tag.wire);
      if len.got.Some? {
        var n: int := LengthOf(len.got.value);
        FourAt(s);
        if n >= 4 {
          TakeIsStream(len.wire, n - 4);
          BodyAt(s, n);
        } else {
          TakeNeverGrows(len.wire, n - 4);
        }
      } else {
        assert |s| < 5;
      }
    }
  }

  lemma FourAt(s: Bytes)
    requires |s| >= 5
    ensures LengthOf(s[1..][..4]) == Uint32Of(s[1], s[2], s[3], s[4]) && s[..1][0] == s[0] && s[1..][4..] == s[5..]
  {
  }

  lemma BodyAt(s: Bytes, n: nat)
    requires |s| >= 5 && n >= 4
    ensures n - 4 <= |s[5..]| ==> s[5..][..n - 4] == s[5..n + 1] && s[5..][n - 4..] == s[n + 1..]
  {
  }

  class SocketReader {
    const sock: Socket
    var buf: Bytes

    constructor (sock: Socket)
      ensures this.sock == sock && buf == []
    {
      this.sock := sock;
      buf := [];
    }

    function View(): Wire
      reads this, sock
    {
      Wire(buf, sock.incoming)
    }

    function Unread(): Bytes
      reads this, sock
    {
      Stream(View())
    }

    method Fill(need: int) returns (ok: bool)
      requires sock.Valid()
      modifies this`buf, sock`incoming
      ensures sock.Valid()
      ensures View() == Filled(old(View()), need)
      ensures ok == (|buf| >= need)
    {
      while |buf| < need
        invariant sock.Valid()
        invariant Filled(View(), need) == Filled(old(View()), need)
        decreases |sock.incoming|
      {
        var chunk := sock.Recv();
        if chunk == [] {
          return false;
        }
        buf := buf + chunk;
      }
      ok := true;
    }

    method ReadBytes(n: int) returns (r: Option<Bytes>)
      requires sock.Valid()
      modifies this`buf, sock`incoming
      ensures sock.Valid()
      ensures Taken(r, View()) == TakeBytes(old(View()), n)
    {
      var ok := Fill(n);
      if !ok {
        return None;
      }
      var out := SliceTo(buf, n);
      buf := SliceFrom(buf, n);
      r := Some(out);
    }

    /** `None` is the "connection closed by server" error. */
    method ReadMessage() returns (r: Option<Message>)
      requires sock.Valid()
      modifies this`buf, sock`incoming
      ensures sock.Valid()
      ensures Taken(r, View()) == TakeMessage(old(View()))
    {
      hide TakeBytes, Uint32Of;
      TakenCount(View());
      var tag := ReadBytes(1);
      if tag.None? {
        return None;
      }
      TakenCount(View());
      var lenBytes := ReadBytes(4);
      if lenBytes.None? {
        return None;
      }
      var len: int := LengthOf(lenBytes.value);
      var body := ReadBytes(len - 4);
      if body.None? {
        return None;
      }
      r := Some(Message(tag.value[0], body.value));
    }
  }

  // ----- framing

  /** The bytes of a message with a type byte. */
  function MessageBytes(m: Message): Bytes {
    [m.tag] + Int32Bytes(|m.body| + 4) + m.body
  }

  predicate Sendable(m: Message) {
    |m.body| + 4 < 0x1_0000_0000
  }

  function AllBytes(msgs: seq<Message>): Bytes {
    if msgs == [] then [] else MessageBytes(msgs[0]) + AllBytes(msgs[1..])
  }

  lemma FramedIsMessage(tag: Byte, body: Bytes)
    ensures Framed(Some(tag), body) == MessageBytes(Message(tag, body))
  {
  }

  lemma {:induction false} ParseMessageBytes(m: Message, rest: Bytes)
    requires Sendable(m)
    ensures Parse(MessageBytes(m) + rest) == Complete(m, rest)
  {
    hide Int32Bytes, Uint32Of;
    var stream, len := MessageBytes(m) + rest, Int32Bytes(|m.body| + 4);
    LengthWord(|m.body| + 4);
    assert stream[1] == len[0] && stream[2] == len[1] && stream[3] == len[2] && stream[4] == len[3];
    assert stream[5..|m.body| + 5] == m.body;
    assert stream[|m.body| + 5..] == rest;
  }

  /** A message at the front of the stream is the one that is read. */
  lemma TakesFront(w: Wire, m: Message, rest: Bytes)
    requires Sendable(m) && Stream(w) == MessageBytes(m) + rest
    ensures TakeMessage(w).got == Some(m) && Stream(TakeMessage(w).wire) == rest
  {
    hide Parse, MessageBytes, TakeMessage, Stream;
    ParseMessageBytes(m, rest);
    TakeMessageIsParse(w);
  }

  lemma LengthWord(n: nat)
    requires n < 0x1_0000_0000
    ensures |Int32Bytes(n)| == 4
    ensures Uint32Of(Int32Bytes(n)[0], Int32Bytes(n)[1], Int32Bytes(n)[2], Int32Bytes(n)[3]) == n
  {
    Int32RoundTrip(n);
  }

  /** A stream that stops before the end of a message never parses to one. */
  lemma {:induction false} ParseCut(m: Message, k: nat)
    requires Sendable(m) && k < |MessageBytes(m)|
    ensures Parse(MessageBytes(m)[..k]).Cut?
  {
    hide Int32Bytes, Uint32Of;
    var stream, len := MessageBytes(m)[..k], Int32Bytes(|m.body| + 4);
    LengthWord(|m.body| + 4);
    if k >= 5 {
      assert stream[1] == len[0] && stream[2] == len[1] && stream[3] == len[2] && stream[4] == len[3];
    }
  }

  /** Nothing, or a message cut short. */
  predicate IsCut(b: Bytes, m: Message) {
    Sendable(m) && |b| < |MessageBytes(m)| && b == MessageBytes(m)[..|b|]
  }

  /**
   Reading until the connection closes gives exactly the messages that were
   sent, however their bytes were cut into chunks; a last message that is cut
   short ends in the closed error.
   */
  method ReadUntilClosed(reader: SocketReader, ghost msgs: seq<Message>, ghost cut: Bytes, ghost last: Message)
    returns (out: seq<Message>)
    requires reader.sock.Valid()
    requires forall i :: 0 <= i < |msgs| ==> Sendable(msgs[i])
    requires IsCut(cut, last)
    requires reader.Unread() == AllBytes(msgs) + cut
    modifies reader`buf, reader.sock`incoming
    ensures out == msgs
  {
    hide Parse, IsCut, MessageBytes, Sendable, Stream, TakeMessage;
    out := [];
    ghost var k := 0;
    assert msgs[0..] == msgs;
    while true
      invariant reader.sock.Valid()
      invariant k <= |msgs| && out == msgs[..k]
      invariant reader.Unread() == AllBytes(msgs[k..]) + cut
      decreases |msgs| - k
    {
      TakeMessageIsParse(reader.View());
      if k < |msgs| {
        assert msgs[k..][1..] == msgs[k + 1..];
        assert AllBytes(msgs[k..]) + cut == MessageBytes(msgs[k]) + (AllBytes(msgs[k + 1..]) + cut);
        ParseMessageBytes(msgs[k], AllBytes(msgs[k + 1..]) + cut);
      } else {
        assert AllBytes(msgs[k..]) + cut == cut;
        CutParses(cut, last);
      }
      var m := reader.ReadMessage();
      if m.None? {
        return;
      }
      out := out + [m.value];
      k := k + 1;
    }
  }

  lemma {:induction false} CutParses(cut: Bytes, last: Message)
    requires IsCut(cut, last)
    ensures Parse(cut).Cut?
  {
    ParseCut(last, |cut|);
  }
}
