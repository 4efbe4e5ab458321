/**
 The SCRAM message exchange: `scramAuth` of examples/pgwire.js as a client, and
 beside it a server written from section 3 of RFC 5802.
 */
module ScramExchange {
  import opened Options
  import opened JsStrings
  import opened JsNumbers
  import opened PgWire
  import opened Scram
  import Utf8
  import Base64

  const COMMA: CodeUnit := 44
  const EQUALS: CodeUnit := 61
  const ATTRIBUTE_R: CodeUnit := 114
  const ATTRIBUTE_S: CodeUnit := 115
  const ATTRIBUTE_I: CodeUnit := 105
  const ATTRIBUTE_V: CodeUnit := 118

  const TAG_AUTHENTICATION: Byte := 82 // 'R'
  const TAG_PASSWORD: Byte := 112 // 'p'

  // ----- attributes

  /** `[^,]*` from `k` on. */
  function UpToComma(s: JsString, k: nat): JsString
    requires k <= |s|
  {
    var end := IndexOf(s, [COMMA], k);
    if end == -1 then s[k..] else s[k..end]
  }

  /** `/x=([^,]*)/`: the value after the first "x=" anywhere in the text. */
  function Attribute(s: JsString, name: CodeUnit): Option<JsString> {
    var k := IndexOf(s, [name, EQUALS], 0);
    if k == -1 then None else Some(UpToComma(s, k + 2))
  }

  predicate CountAt(s: JsString, k: int) {
    0 <= k && k + 2 < |s| && s[k] == ATTRIBUTE_I && s[k + 1] == EQUALS && IsDigit(s[k + 2], Decimal)
  }

  /** The first "i=" with a digit after it. */
  function CountPlace(s: JsString, from: nat): (k: int)
    ensures k == -1 || (from <= k && CountAt(s, k))
    ensures forall j :: from <= j && (k == -1 || j < k) ==> !CountAt(s, j)
    decreases |s| - from
  {
    if from + 2 >= |s| then -1 else if CountAt(s, from) then from else CountPlace(s, from + 1)
  }

  /** `/i=(\d+)/` and `parseInt` of what it matches. */
  function CountAttribute(s: JsString): Option<int> {
    var k := CountPlace(s, 0);
    if k == -1 then None
    else
      var digits := s[k + 2..][..DigitRun(s[k + 2..], Decimal)];
      ParseInt(digits, Decimal)
  }

  // ----- the client

  function ClientFirstBare(nonce: JsString): JsString {
    Ascii("n=,r=") + nonce
  }

  const GS2_HEADER: JsString := Ascii("n,,")

  function InitialResponse(nonce: JsString): Bytes {
    var resp := GS2_HEADER + ClientFirstBare(nonce);
    CStringBytes(Ascii("SCRAM-SHA-256")) + Int32Bytes(|resp|) + Utf8.Encode(resp)
  }

  function WithoutProof(combinedNonce: JsString): JsString {
    Ascii("c=") + Base64.Encode(Utf8.Encode(GS2_HEADER)) + Ascii(",r=") + combinedNonce
  }

  function AuthMessage(bare: JsString, serverFirst: JsString, withoutProof: JsString): JsString {
    bare + [COMMA] + serverFirst + [COMMA] + withoutProof
  }

  datatype Failure =
    | ConnectionClosed
    | ExpectedContinue
    | MalformedServerFirst
    | ForeignNonce
    | ExpectedFinal
    | BadServerSignature

  /** What the client makes of a server-first message. */
  datatype Reply = Reply(text: JsString, expected: JsString) | Refused(why: Failure)

  function Salted(c: Crypto, password: JsString, salt: Bytes, count: nat): Digest {
    Hi(c, Utf8.Encode(password), salt, AtLeastOne(count))
  }

  const CLIENT_KEY_LABEL: Bytes := Utf8.Encode(Ascii("Client Key"))

  function ClientKey(c: Crypto, salted: Digest): Digest {
    c.hmac(salted, CLIENT_KEY_LABEL)
  }

  function ServerKey(c: Crypto, salted: Digest): Digest {
    c.hmac(salted, Utf8.Encode(Ascii("Server Key")))
  }

  function Proven(c: Crypto, salted: Digest, authMessage: JsString, withoutProof: JsString): Reply {
    var key := ClientKey(c, salted);
    var proof := Xor(key, c.hmac(c.hash(key), Utf8.Encode(authMessage)));
    Reply(withoutProof + Ascii(",p=") + Base64.Encode(proof),
          Base64.Encode(c.hmac(ServerKey(c, salted), Utf8.Encode(authMessage))))
  }

  function ClientReply(c: Crypto, password: JsString, nonce: JsString, serverFirst: JsString): Reply {
    var r, s := Attribute(serverFirst, ATTRIBUTE_R), Attribute(serverFirst, ATTRIBUTE_S);
    var i := CountAttribute(serverFirst);
    if r.None? || s.None? || i.None? then Refused(MalformedServerFirst)
    else if IndexOf(r.value, nonce, 0) != 0 then Refused(ForeignNonce)
    else
      var withoutProof := WithoutProof(r.value);
      var count := if i.value < 0 then 0 else i.value;
      Proven(c, Salted(c, password, Base64.Decode(s.value), count),
             AuthMessage(ClientFirstBare(nonce), serverFirst, withoutProof), withoutProof)
  }

  /** `bytesToStr(body.slice(4))`. */
  function Text(body: Bytes): JsString {
    Utf8.DecodeRange(Drop(body, 4), 0, |Drop(body, 4)|)
  }

  predicate IsAuthentication(m: Message, code: nat) {
    m.tag == TAG_AUTHENTICATION && ReadInt32(m.body, 0) == code
  }

  /** What the client sends, how it ends (`None` is success) and what it leaves on the wire. */
  datatype Exchanged = Exchanged(sent: Bytes, failure: Option<Failure>, wire: Wire)

  datatype Finished = Finished(failure: Option<Failure>, wire: Wire)

  /** From the AuthenticationSASLFinal message on. */
  function Finish(expected: JsString, w: Wire): Finished {
    var t := TakeMessage(w);
    match t.got
    case None => Finished(Some(ConnectionClosed), t.wire)
    case Some(m) =>
      if !IsAuthentication(m, 12) then Finished(Some(ExpectedFinal), t.wire)
      else if Attribute(Text(m.body), ATTRIBUTE_V) != Some(expected) then Finished(Some(BadServerSignature), t.wire)
      else Finished(None, t.wire)
  }

  function Exchange(c: Crypto, password: JsString, nonce: JsString, w: Wire): Exchanged {
    var initial := Framed(Some(TAG_PASSWORD), InitialResponse(nonce));
    var t := TakeMessage(w);
    match t.got
    case None => Exchanged(initial, Some(ConnectionClosed), t.wire)
    case Some(m) =>
      if !IsAuthentication(m, 11) then Exchanged(initial, Some(ExpectedContinue), t.wire)
      else
        match ClientReply(c, password, nonce, Text(m.body))
        case Refused(why) => Exchanged(initial, Some(why), t.wire)
        case Reply(text, expected) =>
          var end := Finish(expected, t.wire);
          Exchanged(initial + Framed(Some(TAG_PASSWORD), Utf8.Encode(text)), end.failure, end.wire)
  }

  method ComputeReply(c: Crypto, password: JsString, nonce: JsString, serverFirst: JsString) returns (reply: Reply)
    ensures reply == ClientReply(c, password, nonce, serverFirst)
  {
    hide Attribute, CountAttribute, IndexOf, Hi, Xor, Ascii, Base64.Encode, Base64.Decode, Utf8.Encode;
    var r, s := Attribute(serverFirst, ATTRIBUTE_R), Attribute(serverFirst, ATTRIBUTE_S);
    var i := CountAttribute(serverFirst);
    if r.None? || s.None? || i.None? {
      return Refused(MalformedServerFirst);
    }
    var salt := Base64.Base64Decode(s.value);
    if IndexOf(r.value, nonce, 0) != 0 {
      return Refused(ForeignNonce);
    }
    var passwordBytes := Utf8.Utf8Encode(password);
    var salted := Pbkdf2(c, passwordBytes, salt, if i.value < 0 then 0 else i.value);
    var clientKeyLabel := Utf8.Utf8Encode(Ascii("Client Key"));
    var clientKey := c.hmac(salted, clientKeyLabel);
    var storedKey := c.hash(clientKey);
    var header := Utf8.Utf8Encode(GS2_HEADER);
    var binding := Base64.Base64Encode(header);
    var withoutProof := Ascii("c=") + binding + Ascii(",r=") + r.value;
    var authMessage := ClientFirstBare(nonce) + [COMMA] + serverFirst + [COMMA] + withoutProof;
    var authBytes := Utf8.Utf8Encode(authMessage);
    var clientSignature := c.hmac(storedKey, authBytes);
    var clientProof := XorBytes(clientKey, clientSignature);
    var proof := Base64.Base64Encode(clientProof);
    var serverKeyLabel := Utf8.Utf8Encode(Ascii("Server Key"));
    var serverKey := c.hmac(salted, serverKeyLabel);
    var serverSignature := c.hmac(serverKey, authBytes);
    var expected := Base64.Base64Encode(serverSignature);
    reply := Reply(withoutProof + Ascii(",p=") + proof, expected);
  }

  method SendInitial(sock: Socket, nonce: JsString)
    modifies sock`sent
    ensures sock.sent == old(sock.sent) + Framed(Some(TAG_PASSWORD), InitialResponse(nonce))
  {
    hide CStringBytes, Utf8.Encode, Int32Bytes, Framed;
    var w := new MsgWriter();
    w.Cstr(Ascii("SCRAM-SHA-256"));
    var resp := GS2_HEADER + ClientFirstBare(nonce);
    w.I32(|resp|);
    var encoded := Utf8.Utf8Encode(resp);
    w.Raw(encoded);
    assert w.bytes == InitialResponse(nonce);
    var message := BuildMessage(Some(TAG_PASSWORD), w.bytes);
    sock.Send(message);
  }

  /** `None` is success. The server's messages may arrive in chunks of any size. */
  method ScramAuth(sock: Socket, reader: SocketReader, c: Crypto, password: JsString, nonce: JsString)
    returns (failure: Option<Failure>)
    requires sock.Valid() && reader.sock == sock
    modifies reader`buf, sock`incoming, sock`sent
    ensures sock.Valid()
    ensures var e := Exchange(c, password, nonce, old(reader.View()));
            sock.sent == old(sock.sent) + e.sent && failure == e.failure && reader.View() == e.wire
  {
    hide TakeMessage, ClientReply, InitialResponse, Framed, Text, ReadInt32, Finish;
    SendInitial(sock, nonce);
    var cont := reader.ReadMessage();
    if cont.None? {
      return Some(ConnectionClosed);
    }
    if cont.value.tag != TAG_AUTHENTICATION || ReadInt32(cont.value.body, 0) != 11 {
      return Some(ExpectedContinue);
    }
    var firstBytes := Drop(cont.value.body, 4);
    var serverFirst := Utf8.Utf8Decode(firstBytes, 0, |firstBytes|);
    assert serverFirst == Text(cont.value.body) by { TextIs(cont.value.body); }
    var reply := ComputeReply(c, password, nonce, serverFirst);
    if reply.Refused? {
      return Some(reply.why);
    }
    SendFinal(sock, reply.text);
    failure := ReadFinal(reader, reply.expected);
    RegroupSent(old(sock.sent), Framed(Some(TAG_PASSWORD), InitialResponse(nonce)),
                Framed(Some(TAG_PASSWORD), Utf8.Encode(reply.text)));
  }

  lemma RegroupSent(a: Bytes, b: Bytes, c: Bytes)
    ensures a + b + c == a + (b + c)
  {
  }

  method SendFinal(sock: Socket, text: JsString)
    modifies sock`sent
    ensures sock.sent == old(sock.sent) + Framed(Some(TAG_PASSWORD), Utf8.Encode(text))
  {
    hide Utf8.Encode, Framed;
    var final := Utf8.Utf8Encode(text);
    var message := BuildMessage(Some(TAG_PASSWORD), final);
    sock.Send(message);
  }

  lemma TextIs(body: Bytes)
    ensures Text(body) == Utf8.DecodeRange(Drop(body, 4), 0, |Drop(body, 4)|)
  {
  }

  method ReadFinal(reader: SocketReader, expected: JsString) returns (failure: Option<Failure>)
    requires reader.sock.Valid()
    modifies reader`buf, reader.sock`incoming
    ensures reader.sock.Valid()
    ensures Finished(failure, reader.View()) == Finish(expected, old(reader.View()))
  {
    hide TakeMessage, Attribute, ReadInt32;
    var final := reader.ReadMessage();
    if final.None? {
      return Some(ConnectionClosed);
    }
    if final.value.tag != TAG_AUTHENTICATION || ReadInt32(final.value.body, 0) != 12 {
      return Some(ExpectedFinal);
    }
    var finalBytes := Drop(final.value.body, 4);
    var serverFinal := Utf8.Utf8Decode(finalBytes, 0, |finalBytes|);
    var v := Attribute(serverFinal, ATTRIBUTE_V);
    failure := if v == Some(expected) then None else Some(BadServerSignature);
  }
}
