/**
 A SCRAM server written from RFC 5802, and the theorem that the client of
 examples/pgwire.js and this server accept each other. The server forms its keys
 and the text it authenticates itself.
 */
module ScramServer {
  import opened Options
  import opened JsStrings
  import opened JsNumbers
  import opened PgWire
  import opened Scram
  import opened ScramExchange
  import Utf8
  import Base64

  // ----- the server

  /** What a server keeps of a password (section 3 of RFC 5802). */
  datatype Record = Record(salt: Bytes, count: nat, storedKey: Digest, serverKey: Digest)

  /** SASLprep (RFC 4013) stands behind Normalize; nothing is assumed of it. */
  type Normalization = JsString -> JsString

  /** U1 := HMAC(str, salt + INT(1)), Uk := HMAC(str, Uk-1), from section 2.2 of RFC 5802. */
  function RfcU(c: Crypto, str: Bytes, salt: Bytes, k: nat): Digest
    requires k >= 1
  {
    if k == 1 then c.hmac(str, salt + [0, 0, 0, 1]) else c.hmac(str, RfcU(c, str, salt, k - 1))
  }

  /** U1 XOR ... XOR Ui */
  function RfcHi(c: Crypto, str: Bytes, salt: Bytes, i: nat): Digest
    requires i >= 1
  {
    if i == 1 then RfcU(c, str, salt, 1) else Xor(RfcHi(c, str, salt, i - 1), RfcU(c, str, salt, i))
  }

  const RFC_CLIENT_KEY: JsString := Ascii("Client Key")
  const RFC_SERVER_KEY: JsString := Ascii("Server Key")

  /** SaltedPassword := Hi(Normalize(password), salt, i), and the keys that follow from it. */
  function Register(c: Crypto, normalize: Normalization, password: JsString, salt: Bytes, count: nat): Record
    requires count >= 1
  {
    var salted := RfcHi(c, Utf8.Encode(normalize(password)), salt, count);
    Record(salt, count, c.hash(c.hmac(salted, Utf8.Encode(RFC_CLIENT_KEY))),
           c.hmac(salted, Utf8.Encode(RFC_SERVER_KEY)))
  }

  /** client-first-message-bare, for a client that leaves the name to the startup message. */
  function RfcFirstBare(nonce: JsString): JsString {
    Ascii("n=,r=") + nonce
  }

  /** client-final-message-without-proof, for the GS2 header "n,,". */
  function RfcWithoutProof(combinedNonce: JsString): JsString {
    Ascii("c=biws,r=") + combinedNonce
  }

  /** AuthMessage of section 3 of RFC 5802. */
  function RfcAuthMessage(clientFirstBare: JsString, serverFirst: JsString, clientFinalWithoutProof: JsString): JsString
  {
    clientFirstBare + Ascii(",") + serverFirst + Ascii(",") + clientFinalWithoutProof
  }

  function BeforeComma(s: JsString): JsString {
    if s == [] || s[0] == ',' as int then [] else [s[0]] + BeforeComma(s[1..])
  }

  datatype Initial = Initial(bare: JsString, nonce: JsString)

  /** A SASLInitialResponse body: the mechanism, the length of the response, the response. */
  function ReadInitial(body: Bytes): Option<Initial> {
    match ReadCString(body, 0)
    case Unterminated => None
    case CString(mechanism, next) =>
      if mechanism != Ascii("SCRAM-SHA-256") || next + 4 + ReadInt32(body, next) != |body| then None
      else
        var text := Utf8.DecodeRange(body, next + 4, |body|);
        if !MatchesAt(text, Ascii("n,,n=,r="), 0) then None
        else Some(Initial(text[3..], BeforeComma(text[8..])))
  }

  /** server-first-message; `extensions` is empty or starts with a comma. */
  function ServerFirst(combinedNonce: JsString, record: Record, extensions: JsString): JsString {
    Ascii("r=") + combinedNonce + Ascii(",s=") + Base64.Encode(record.salt)
    + Ascii(",i=") + (Numeral(record.count, Decimal) + extensions)
  }

  /** The ClientKey in a proof, given what the server knows. */
  function Recovered(c: Crypto, record: Record, authMessage: JsString, proof: Digest): Digest {
    Xor(proof, c.hmac(record.storedKey, Utf8.Encode(authMessage)))
  }

  /** The server's check of a client-final-message; the ServerSignature if it accepts. */
  function Verify(c: Crypto, record: Record, bare: JsString, serverFirst: JsString, combinedNonce: JsString,
                  final: JsString): Option<Digest>
  {
    var p := IndexOf(final, Ascii(",p="), 0);
    if p == -1 then None
    else
      var withoutProof, proof := final[..p], Base64.Decode(final[p + 3..]);
      if withoutProof != RfcWithoutProof(combinedNonce) || |proof| != 32 then None
      else
        var authMessage := RfcAuthMessage(bare, serverFirst, withoutProof);
        if c.hash(Recovered(c, record, authMessage, proof)) != record.storedKey then None
        else Some(c.hmac(record.serverKey, Utf8.Encode(authMessage)))
  }

  lemma {:induction false} RfcUIsU(c: Crypto, str: Bytes, salt: Bytes, k: nat)
    requires k >= 1
    ensures RfcU(c, str, salt, k) == U(c, str, salt, k)
  {
    assert Int32Bytes(1) == [0, 0, 0, 1];
    if k > 1 {
      RfcUIsU(c, str, salt, k - 1);
    }
  }

  lemma {:induction false} RfcHiIsHi(c: Crypto, str: Bytes, salt: Bytes, i: nat)
    requires i >= 1
    ensures RfcHi(c, str, salt, i) == Hi(c, str, salt, i)
  {
    hide Xor;
    RfcUIsU(c, str, salt, i);
    if i > 1 {
      RfcHiIsHi(c, str, salt, i - 1);
      HiStep(c, str, salt, i - 1);
    }
  }

  /** The server's keys are those the client computes from the normalized password. */
  lemma RegisterIs(c: Crypto, normalize: Normalization, password: JsString, salt: Bytes, count: nat)
    requires count >= 1
    ensures var salted := Hi(c, Utf8.Encode(normalize(password)), salt, count);
            Register(c, normalize, password, salt, count)
            == Record(salt, count, c.hash(ClientKey(c, salted)), ServerKey(c, salted))
  {
    hide Hi, RfcHi, Utf8.Encode;
    RfcHiIsHi(c, Utf8.Encode(normalize(password)), salt, count);
  }

  /** Both sides authenticate the same text. */
  lemma AuthMessageIs(nonce: JsString, serverFirst: JsString, n: JsString)
    ensures WithoutProof(n) == RfcWithoutProof(n)
    ensures AuthMessage(ClientFirstBare(nonce), serverFirst, WithoutProof(n))
         == RfcAuthMessage(RfcFirstBare(nonce), serverFirst, RfcWithoutProof(n))
  {
    WithoutProofIs(n);
    assert Ascii(",") == [COMMA];
  }

  // ----- finding the attributes

  predicate PairAt(s: JsString, c: CodeUnit, j: int) {
    0 <= j && j + 1 < |s| && s[j] == c && s[j + 1] == EQUALS
  }

  lemma PairMatches(s: JsString, c: CodeUnit)
    ensures forall j :: MatchesAt(s, [c, EQUALS], j) <==> PairAt(s, c, j)
  {
    forall j
      ensures MatchesAt(s, [c, EQUALS], j) <==> PairAt(s, c, j)
    {
      if 0 <= j && j + 2 <= |s| {
        assert s[j..j + 2] == [s[j], s[j + 1]];
      }
    }
  }

  lemma UpToCommaIs(s: JsString, k: nat, v: JsString)
    requires k + |v| <= |s| && s[k..k + |v|] == v && COMMA !in v
    requires k + |v| < |s| ==> s[k + |v|] == COMMA
    ensures UpToComma(s, k) == v
  {
    forall j | k <= j < k + |v|
      ensures !MatchesAt(s, [COMMA], j)
    {
      assert s[j] == s[k..k + |v|][j - k];
      assert s[j..j + 1] == [s[j]];
    }
    if k + |v| < |s| {
      assert s[k + |v|..k + |v| + 1] == [COMMA];
      IndexOfIs(s, [COMMA], k, k + |v|);
    } else {
      assert IndexOf(s, [COMMA], k) == -1;
      assert s[k..] == s[k..k + |v|];
    }
  }

  /** r=`n`,s=`b`,i=`t` */
  predicate Laid(s: JsString, n: JsString, b: JsString, t: JsString) {
    && |s| == |n| + |b| + |t| + 8
    && s[0] == ATTRIBUTE_R && s[1] == EQUALS && s[2..2 + |n|] == n
    && s[2 + |n|] == COMMA && s[3 + |n|] == ATTRIBUTE_S && s[4 + |n|] == EQUALS && s[5 + |n|..5 + |n| + |b|] == b
    && s[5 + |n| + |b|] == COMMA && s[6 + |n| + |b|] == ATTRIBUTE_I && s[7 + |n| + |b|] == EQUALS
    && s[8 + |n| + |b|..] == t
  }

  lemma ConcatIsLaid(s: JsString, n: JsString, b: JsString, t: JsString)
    requires s == [ATTRIBUTE_R, EQUALS] + n + [COMMA, ATTRIBUTE_S, EQUALS] + b + [COMMA, ATTRIBUTE_I, EQUALS] + t
    ensures Laid(s, n, b, t)
  {
  }

  lemma LaidUnits(s: JsString, n: JsString, b: JsString, t: JsString)
    requires Laid(s, n, b, t)
    ensures forall j :: 2 <= j < 2 + |n| ==> s[j] == n[j - 2]
    ensures forall j :: 5 + |n| <= j < 5 + |n| + |b| ==> s[j] == b[j - 5 - |n|]
    ensures t != [] ==> s[8 + |n| + |b|] == t[0]
  {
    assert forall j :: 2 <= j < 2 + |n| ==> s[j] == s[2..2 + |n|][j - 2];
    assert forall j :: 5 + |n| <= j < 5 + |n| + |b| ==> s[j] == s[5 + |n|..5 + |n| + |b|][j - 5 - |n|];
    assert t != [] ==> s[8 + |n| + |b|..][0] == t[0];
  }

  lemma NonceFound(s: JsString, n: JsString, b: JsString, t: JsString)
    requires Laid(s, n, b, t) && COMMA !in n
    ensures Attribute(s, ATTRIBUTE_R) == Some(n)
  {
    PairMatches(s, ATTRIBUTE_R);
    assert PairAt(s, ATTRIBUTE_R, 0);
    IndexOfIs(s, [ATTRIBUTE_R, EQUALS], 0, 0);
    UpToCommaIs(s, 2, n);
  }

  /** The search for "s=" stops at the real attribute exactly when the nonce holds no "s=". */
  lemma SaltPlace(s: JsString, n: JsString, b: JsString, t: JsString)
    requires Laid(s, n, b, t)
    ensures IndexOf(s, [ATTRIBUTE_S, EQUALS], 0) == 3 + |n| <==> !exists j :: PairAt(n, ATTRIBUTE_S, j)
  {
    PairMatches(s, ATTRIBUTE_S);
    LaidUnits(s, n, b, t);
    assert PairAt(s, ATTRIBUTE_S, 3 + |n|);
    if j :| PairAt(n, ATTRIBUTE_S, j) {
      assert PairAt(s, ATTRIBUTE_S, j + 2);
    } else {
      forall j | 0 <= j < 3 + |n|
        ensures !PairAt(s, ATTRIBUTE_S, j)
      {
        if 2 <= j < 2 + |n| {
          assert !PairAt(n, ATTRIBUTE_S, j - 2);
        }
      }
      IndexOfIs(s, [ATTRIBUTE_S, EQUALS], 0, 3 + |n|);
    }
  }

  /** The salt read is the one sent, unless the nonce holds an "s=" with something else after it. */
  lemma SaltFound(s: JsString, n: JsString, b: JsString, t: JsString)
    requires Laid(s, n, b, t) && COMMA !in b && COMMA !in n
    ensures var j := IndexOf(n, [ATTRIBUTE_S, EQUALS], 0);
            Attribute(s, ATTRIBUTE_S) == Some(if j == -1 then b else n[j + 2..])
    ensures var j := IndexOf(n, [ATTRIBUTE_S, EQUALS], 0);
            Attribute(s, ATTRIBUTE_S) == Some(b) <==> j == -1 || n[j + 2..] == b
  {
    hide IndexOf, UpToComma;
    var j := IndexOf(n, [ATTRIBUTE_S, EQUALS], 0);
    PairMatches(n, ATTRIBUTE_S);
    SaltPlace(s, n, b, t);
    if j == -1 {
      UpToCommaIs(s, 5 + |n|, b);
    } else {
      FirstPairInNonce(s, n, b, t, j);
      assert s[j + 4..2 + |n|] == n[j + 2..];
      UpToCommaIs(s, j + 4, n[j + 2..]);
    }
  }

  lemma FirstPairInNonce(s: JsString, n: JsString, b: JsString, t: JsString, j: nat)
    requires Laid(s, n, b, t) && j == IndexOf(n, [ATTRIBUTE_S, EQUALS], 0)
    ensures IndexOf(s, [ATTRIBUTE_S, EQUALS], 0) == j + 2 && j + 2 <= |n|
  {
    PairMatches(n, ATTRIBUTE_S);
    PairMatches(s, ATTRIBUTE_S);
    LaidUnits(s, n, b, t);
    assert PairAt(n, ATTRIBUTE_S, j) && PairAt(s, ATTRIBUTE_S, j + 2);
    forall i | 0 <= i < j + 2
      ensures !PairAt(s, ATTRIBUTE_S, i)
    {
      if i >= 2 {
        assert !PairAt(n, ATTRIBUTE_S, i - 2);
      }
    }
    IndexOfIs(s, [ATTRIBUTE_S, EQUALS], 0, j + 2);
  }

  /** An equals sign is only followed by another. */
  predicate EqualsAtEnd(b: JsString) {
    forall j :: 0 <= j && j + 1 < |b| && b[j] == EQUALS ==> b[j + 1] == EQUALS
  }

  lemma CountPlaceIs(s: JsString, from: nat, k: nat)
    requires from <= k && CountAt(s, k) && forall j :: from <= j < k ==> !CountAt(s, j)
    ensures CountPlace(s, from) == k
  {
  }

  /** The search for "i=" and a digit stops at the real attribute exactly when the nonce holds no such text. */
  lemma IterationsPlace(s: JsString, n: JsString, b: JsString, t: JsString)
    requires Laid(s, n, b, t) && EqualsAtEnd(b) && t != [] && IsDigit(t[0], Decimal)
    ensures CountPlace(s, 0) == 6 + |n| + |b| <==> !exists j :: CountAt(n, j)
  {
    LaidUnits(s, n, b, t);
    assert CountAt(s, 6 + |n| + |b|);
    if j :| CountAt(n, j) {
      assert CountAt(s, j + 2);
    } else {
      forall j | 0 <= j < 6 + |n| + |b|
        ensures !CountAt(s, j)
      {
        if 2 <= j < 2 + |n| {
          assert !CountAt(n, j - 2);
        }
      }
      CountPlaceIs(s, 0, 6 + |n| + |b|);
    }
  }

  /** The count read is the one sent, unless the nonce holds an "i=" and digits that say something else. */
  lemma CountFound(s: JsString, n: JsString, b: JsString, count: nat, extensions: JsString)
    requires Laid(s, n, b, Numeral(count, Decimal) + extensions) && EqualsAtEnd(b) && COMMA !in n
    requires extensions == [] || extensions[0] == COMMA
    ensures CountAttribute(s) == if CountAttribute(n).Some? then CountAttribute(n) else Some(count)
    ensures CountAttribute(s) == Some(count) <==> CountAttribute(n) == None || CountAttribute(n) == Some(count)
    ensures CountAttribute(n) == None <==> CountPlace(n, 0) == -1
  {
    hide ParseInt, Numeral, NumeralValue, CountPlace;
    var digits := Numeral(count, Decimal);
    var t := digits + extensions;
    NumeralRoundTrip(count, Decimal);
    assert t[0] == digits[0];
    NoneOrFirst(n);
    if CountPlace(n, 0) == -1 {
      IterationsPlace(s, n, b, t);
      DigitRunIs(digits, extensions, Decimal);
      assert t[..|digits|] == digits;
      ParseIntRoundTrip(count, Decimal, []);
      assert digits + [] == digits;
    } else {
      CountInNonce(s, n, b, t);
    }
  }

  lemma NoneOrFirst(n: JsString)
    ensures CountPlace(n, 0) == -1 <==> !exists j :: CountAt(n, j)
    ensures CountPlace(n, 0) == -1 <==> CountAttribute(n) == None
  {
    hide ParseInt;
    var k := CountPlace(n, 0);
    if k != -1 {
      var rest := n[k + 2..];
      var digits := rest[..DigitRun(rest, Decimal)];
      assert IsDigit(rest[0], Decimal) && digits != [];
      ParseIntDigits(digits, Decimal, []);
      assert digits + [] == digits;
    }
  }

  /** An "i=" in the nonce is what the client reads: the nonce ends in a comma, which is no digit. */
  lemma CountInNonce(s: JsString, n: JsString, b: JsString, t: JsString)
    requires Laid(s, n, b, t) && CountPlace(n, 0) != -1
    ensures CountAttribute(s) == CountAttribute(n)
  {
    hide ParseInt, CountPlace, Laid, DigitRun;
    var k := CountPlace(n, 0);
    CountPlaceFacts(n);
    SamePlace(s, n, b, t, k);
    AfterPlace(s, n, b, t, k);
    var rest, after := n[k + 2..], s[2 + |n|..];
    RunStops(rest, after);
    DigitRunFits(rest);
    Prefix(rest, after, DigitRun(rest, Decimal));
  }

  lemma DigitRunFits(s: JsString)
    ensures DigitRun(s, Decimal) <= |s|
  {
  }

  lemma SamePlace(s: JsString, n: JsString, b: JsString, t: JsString, k: nat)
    requires Laid(s, n, b, t) && CountAt(n, k) && forall j :: 0 <= j < k ==> !CountAt(n, j)
    ensures CountPlace(s, 0) == k + 2
  {
    hide CountPlace;
    LaidUnits(s, n, b, t);
    assert CountAt(s, k + 2);
    forall j | 0 <= j < k + 2
      ensures !CountAt(s, j)
    {
      if j >= 2 {
        assert !CountAt(n, j - 2);
      }
    }
    CountPlaceIs(s, 0, k + 2);
  }

  lemma CountPlaceFacts(n: JsString)
    ensures var k := CountPlace(n, 0);
            k != -1 ==> 0 <= k && CountAt(n, k) && forall j :: 0 <= j < k ==> !CountAt(n, j)
  {
  }

  lemma {:induction false} RunStops(a: JsString, b: JsString)
    requires b != [] && !IsDigit(b[0], Decimal)
    ensures DigitRun(a + b, Decimal) == DigitRun(a, Decimal)
    decreases |a|
  {
    hide IsDigit;
    if a == [] {
      assert a + b == b;
    } else {
      assert (a + b)[1..] == a[1..] + b;
      RunStops(a[1..], b);
    }
  }

  lemma AfterPlace(s: JsString, n: JsString, b: JsString, t: JsString, k: nat)
    requires Laid(s, n, b, t) && k + 2 <= |n|
    ensures s[k + 4..] == n[k + 2..] + s[2 + |n|..] && s[2 + |n|..] != [] && s[2 + |n|..][0] == COMMA
  {
    assert s[k + 4..2 + |n|] == n[k + 2..];
  }

  lemma Prefix(a: JsString, b: JsString, k: nat)
    requires k <= |a|
    ensures (a + b)[..k] == a[..k]
  {
  }

  // ----- base64 inside the messages

  lemma {:induction false} CanonicalShape(b: JsString)
    requires Base64.Canonical(b)
    ensures COMMA !in b && EqualsAtEnd(b)
    decreases |b|
  {
    if |b| >= 4 && Base64.IsLetter(b[2]) && Base64.IsLetter(b[3]) {
      CanonicalShape(b[4..]);
      assert b == b[..4] + b[4..];
    }
  }

  lemma EncodedShape(bytes: Bytes)
    ensures COMMA !in Base64.Encode(bytes) && EqualsAtEnd(Base64.Encode(bytes))
  {
    Base64.EncodedIsCanonical(bytes);
    CanonicalShape(Base64.Encode(bytes));
  }

  lemma {:induction false} AsciiIsItself(s: JsString)
    requires forall i :: 0 <= i < |s| ==> s[i] < 128
    ensures Utf8.Encode(s) == s
  {
    if s != [] {
      AsciiIsItself(s[1..]);
    }
  }

  /** Section 5.1 of RFC 5802: the GS2 header "n,," in base64. */
  lemma HeaderIsBiws()
    ensures Base64.Encode(Utf8.Encode(GS2_HEADER)) == Ascii("biws")
  {
    hide Utf8.Encode, Base64.Field, Base64.Word, Base64.Letter;
    AsciiIsItself(GS2_HEADER);
    var b: Bytes := [110, 44, 44];
    assert GS2_HEADER == b;
    HeaderGroup();
    assert b[3..] == [];
    assert Base64.Encode(b) == Base64.EncodeThree(110, 44, 44);
  }

  lemma HeaderGroup()
    ensures Base64.EncodeThree(110, 44, 44) == Ascii("biws")
  {
    assert Base64.Word(110, 44, 44) == 7220268;
  }

  // ----- client and server together

  /** The client's nonce is of base64 letters, as `randomNonce` makes it; the server's has no comma. */
  predicate NonceShape(nonce: JsString, serverNonce: JsString) {
    (forall i :: 0 <= i < |nonce| ==> Base64.IsLetter(nonce[i])) && COMMA !in serverNonce
  }

  /** The salt the client decodes from a server-first-message with that nonce and salt. */
  function SaltRead(n: JsString, salt: Bytes): Bytes {
    var j := IndexOf(n, [ATTRIBUTE_S, EQUALS], 0);
    if j == -1 then salt else Base64.Decode(n[j + 2..])
  }

  /** The count it reads. */
  function CountRead(n: JsString, count: nat): nat {
    match CountAttribute(n)
    case Some(v) => if v < 0 then 0 else v
    case None => count
  }

  /** The client reads the server's salt and iterates as often as the server. */
  predicate Usable(nonce: JsString, serverNonce: JsString, salt: Bytes, count: nat) {
    && NonceShape(nonce, serverNonce)
    && SaltRead(nonce + serverNonce, salt) == salt
    && AtLeastOne(CountRead(nonce + serverNonce, count)) == count
  }

  lemma LettersAreAscii(nonce: JsString)
    requires forall i :: 0 <= i < |nonce| ==> Base64.IsLetter(nonce[i])
    ensures COMMA !in nonce && EQUALS !in nonce && 0 !in nonce
    ensures forall i :: 0 <= i < |nonce| ==> nonce[i] < 128
  {
  }

  lemma Literals()
    ensures Ascii("r=") == [ATTRIBUTE_R, EQUALS] && Ascii(",s=") == [COMMA, ATTRIBUTE_S, EQUALS]
    ensures Ascii(",i=") == [COMMA, ATTRIBUTE_I, EQUALS] && Ascii("v=") == [ATTRIBUTE_V, EQUALS]
    ensures Ascii(",p=") == [COMMA, 112, EQUALS]
  {
  }

  lemma {:induction false} ServerFirstIsLaid(n: JsString, record: Record, extensions: JsString)
    ensures Laid(ServerFirst(n, record, extensions), n, Base64.Encode(record.salt),
                 Numeral(record.count, Decimal) + extensions)
  {
    hide Ascii, Base64.Encode, Numeral, Laid;
    Literals();
    ConcatIsLaid(ServerFirst(n, record, extensions), n, Base64.Encode(record.salt),
                 Numeral(record.count, Decimal) + extensions);
  }

  lemma StartsWithNonce(nonce: JsString, serverNonce: JsString)
    ensures IndexOf(nonce + serverNonce, nonce, 0) == 0
  {
    assert (nonce + serverNonce)[0..|nonce|] == nonce;
  }

  /** What the client answers: with the nonce the server wrote, and the salt and count it finds. */
  lemma {:induction false} ClientReadsServerFirst(c: Crypto, password: JsString, nonce: JsString, serverNonce: JsString,
                               record: Record, extensions: JsString)
    requires NonceShape(nonce, serverNonce) && (extensions == [] || extensions[0] == COMMA)
    ensures var n := nonce + serverNonce;
            var first := ServerFirst(n, record, extensions);
            ClientReply(c, password, nonce, first)
            == Proven(c, Salted(c, password, SaltRead(n, record.salt), CountRead(n, record.count)),
                      AuthMessage(ClientFirstBare(nonce), first, WithoutProof(n)), WithoutProof(n))
  {
    hide Laid, Attribute, CountAttribute, EqualsAtEnd, Proven, Salted, AuthMessage, WithoutProof, ServerFirst,
         IndexOf, Base64.Encode, Base64.Decode, PairAt, CountAt;
    var n := nonce + serverNonce;
    var first, b := ServerFirst(n, record, extensions), Base64.Encode(record.salt);
    LettersAreAscii(nonce);
    EncodedShape(record.salt);
    ServerFirstIsLaid(n, record, extensions);
    NonceFound(first, n, b, Numeral(record.count, Decimal) + extensions);
    SaltFound(first, n, b, Numeral(record.count, Decimal) + extensions);
    CountFound(first, n, b, record.count, extensions);
    Base64.DecodeEncode(record.salt);
    StartsWithNonce(nonce, serverNonce);
  }

  /** The proof is where the server looks for it. */
  lemma ProofPlace(withoutProof: JsString, n: JsString, proof: JsString)
    requires withoutProof == RfcWithoutProof(n) && COMMA !in n
    ensures var final := withoutProof + Ascii(",p=") + proof;
            IndexOf(final, Ascii(",p="), 0) == |withoutProof|
            && final[..|withoutProof|] == withoutProof && final[|withoutProof| + 3..] == proof
  {
    var pat := Ascii(",p=");
    var final, k := withoutProof + pat + proof, |withoutProof|;
    assert final[k..k + 3] == pat;
    forall j | 0 <= j < k
      ensures !MatchesAt(final, pat, j)
    {
      if j + 3 <= |final| {
        assert final[j] == withoutProof[j];
        assert pat[0] == COMMA;
        if j >= 9 {
          assert withoutProof[j] == n[j - 9];
        } else if j == 6 {
          assert final[7] == withoutProof[7];
          assert final[j..j + 3][1] == final[7];
          assert pat[1] == 112;
        } else {
          assert withoutProof[j] == Ascii("c=biws,r=")[j];
        }
        assert final[j..j + 3][0] == final[j];
      }
    }
    IndexOfIs(final, pat, 0, k);
  }

  /** Undoing the client's masking gives back its key. */
  lemma ProofIsAccepted(c: Crypto, key: Digest, record: Record, authMessage: JsString)
    requires record.storedKey == c.hash(key)
    ensures Recovered(c, record, authMessage, Xor(key, c.hmac(c.hash(key), Utf8.Encode(authMessage)))) == key
  {
    hide Xor, Utf8.Encode;
    XorTwice(key, c.hmac(c.hash(key), Utf8.Encode(authMessage)));
  }

  /** The client's answer to an honest server. */
  function HonestReply(c: Crypto, password: JsString, nonce: JsString, serverNonce: JsString, record: Record,
                       extensions: JsString): Reply
  {
    ClientReply(c, password, nonce, ServerFirst(nonce + serverNonce, record, extensions))
  }

  /** The message both sides authenticate. */
  function HonestMessage(nonce: JsString, serverNonce: JsString, record: Record, extensions: JsString): JsString {
    RfcAuthMessage(RfcFirstBare(nonce), ServerFirst(nonce + serverNonce, record, extensions),
                   RfcWithoutProof(nonce + serverNonce))
  }

  function HonestVerdict(c: Crypto, nonce: JsString, serverNonce: JsString, record: Record, extensions: JsString,
                         final: JsString): Option<Digest>
  {
    Verify(c, record, RfcFirstBare(nonce), ServerFirst(nonce + serverNonce, record, extensions),
           nonce + serverNonce, final)
  }

  function ClientProof(c: Crypto, key: Digest, authMessage: JsString): Digest {
    Xor(key, c.hmac(c.hash(key), Utf8.Encode(authMessage)))
  }

  /** The server's verdict on the client's answer comes down to the key it recovers from the proof. */
  lemma {:induction false} VerdictIs(c: Crypto, password: JsString, nonce: JsString, serverNonce: JsString,
                                     record: Record, extensions: JsString)
    requires NonceShape(nonce, serverNonce) && (extensions == [] || extensions[0] == COMMA)
    ensures var reply := HonestReply(c, password, nonce, serverNonce, record, extensions);
            var n := nonce + serverNonce;
            var salted := Salted(c, password, SaltRead(n, record.salt), CountRead(n, record.count));
            var authMessage := HonestMessage(nonce, serverNonce, record, extensions);
            var proof := ClientProof(c, ClientKey(c, salted), authMessage);
            && reply.Reply?
            && reply.expected == Base64.Encode(c.hmac(ServerKey(c, salted), Utf8.Encode(authMessage)))
            && HonestVerdict(c, nonce, serverNonce, record, extensions, reply.text)
            == if c.hash(Recovered(c, record, authMessage, proof)) != record.storedKey then None
               else Some(c.hmac(record.serverKey, Utf8.Encode(authMessage)))
  {
    hide Xor, Utf8.Encode, ServerFirst, ClientReply, NonceShape, SaltRead, CountRead, Ascii, IndexOf, Recovered,
         AuthMessage, RfcAuthMessage, RfcFirstBare, RfcWithoutProof, WithoutProof, ClientFirstBare, Base64.Encode,
         Base64.Decode, ClientKey, ServerKey, Salted;
    var n := nonce + serverNonce;
    var without := WithoutProof(n);
    ClientReadsServerFirst(c, password, nonce, serverNonce, record, extensions);
    NonceHasNoComma(nonce, serverNonce);
    AuthMessageIs(nonce, ServerFirst(n, record, extensions), n);
    var salted := Salted(c, password, SaltRead(n, record.salt), CountRead(n, record.count));
    var authMessage := HonestMessage(nonce, serverNonce, record, extensions);
    var proof := ClientProof(c, ClientKey(c, salted), authMessage);
    ProofPlace(without, n, Base64.Encode(proof));
    Base64.DecodeEncode(proof);
  }

  /**
   A server that registered the password accepts the client, with the signature
   the client expects, if normalization leaves the password as it is.
   */
  lemma {:induction false} ServerAccepts(c: Crypto, normalize: Normalization, password: JsString, salt: Bytes,
                                         count: nat, nonce: JsString, serverNonce: JsString, extensions: JsString)
    requires count >= 1 && Usable(nonce, serverNonce, salt, count) && (extensions == [] || extensions[0] == COMMA)
    requires normalize(password) == password
    ensures var record := Register(c, normalize, password, salt, count);
            var reply := HonestReply(c, password, nonce, serverNonce, record, extensions);
            && reply.Reply?
            && var verdict := HonestVerdict(c, nonce, serverNonce, record, extensions, reply.text);
               verdict.Some? && reply.expected == Base64.Encode(verdict.value)
  {
    hide Xor, Hi, Utf8.Encode, SaltRead, CountRead, NonceShape, Recovered, Base64.Encode, ClientKey, ServerKey,
         HonestReply, HonestVerdict, HonestMessage;
    var record := Register(c, normalize, password, salt, count);
    RegisterIs(c, normalize, password, salt, count);
    VerdictIs(c, password, nonce, serverNonce, record, extensions);
    var salted := Salted(c, password, salt, count);
    ProofIsAccepted(c, ClientKey(c, salted), record, HonestMessage(nonce, serverNonce, record, extensions));
  }

  lemma NonceHasNoComma(nonce: JsString, serverNonce: JsString)
    requires NonceShape(nonce, serverNonce)
    ensures COMMA !in nonce + serverNonce
  {
    LettersAreAscii(nonce);
  }

  lemma WithoutProofIs(n: JsString)
    ensures WithoutProof(n) == RfcWithoutProof(n)
  {
    hide Base64.Encode, Utf8.Encode;
    HeaderIsBiws();
    assert Ascii("c=") + Ascii("biws") + Ascii(",r=") == Ascii("c=biws,r=");
  }

  /** The server reads the client's first message: the header, the bare message and the nonce in it. */
  lemma {:induction false} InitialRoundTrip(nonce: JsString)
    requires (forall i :: 0 <= i < |nonce| ==> Base64.IsLetter(nonce[i])) && |nonce| < 0x7fff_0000
    ensures ReadInitial(InitialResponse(nonce)) == Some(Initial(RfcFirstBare(nonce), nonce))
  {
    hide Utf8.Encode, Utf8.DecodeRange, ReadInt32, Int32Bytes, CStringBytes, ReadCString, IndexOf, BeforeComma;
    var mechanism := Ascii("SCRAM-SHA-256");
    var resp := GS2_HEADER + ClientFirstBare(nonce);
    var body := InitialResponse(nonce);
    var a, len := CStringBytes(mechanism), Int32Bytes(|resp|);
    LettersAreAscii(nonce);
    AsciiIsItself(resp);
    FourBytesOf(|resp|);
    InitialParts(body, a, len, resp);
    CStringRoundTrip(body, 0, mechanism);
    ReadWrittenInt32(body, |a|, |resp|);
    Utf8.DecodeEncode(body, |a| + 4, resp);
    NonceInResponse(nonce, resp);
  }

  lemma FourBytesOf(n: int)
    ensures |Int32Bytes(n)| == 4
  {
  }

  lemma InitialParts(body: Bytes, a: Bytes, b: Bytes, d: Bytes)
    requires body == a + b + d
    ensures Utf8.BytesAt(body, 0, a) && Utf8.BytesAt(body, |a|, b) && Utf8.BytesAt(body, |a| + |b|, d)
  {
  }

  lemma NonceInResponse(nonce: JsString, resp: JsString)
    requires resp == GS2_HEADER + ClientFirstBare(nonce) && COMMA !in nonce
    ensures MatchesAt(resp, Ascii("n,,n=,r="), 0) && resp[3..] == RfcFirstBare(nonce) && BeforeComma(resp[8..]) == nonce
  {
    assert resp[0..8] == Ascii("n,,n=,r=");
    assert resp[8..] == nonce;
    NoCommaBefore(nonce);
  }

  lemma {:induction false} NoCommaBefore(s: JsString)
    requires COMMA !in s
    ensures BeforeComma(s) == s
  {
    if s != [] {
      NoCommaBefore(s[1..]);
    }
  }

  // ----- the whole exchange

  /** An authentication message of the server: a code and a text. */
  function Authentication(code: nat, text: JsString): Message {
    Message('R' as int, Int32Bytes(code) + Utf8.Encode(text))
  }

  lemma AuthenticationRoundTrip(code: nat, text: JsString)
    requires code < 0x1_0000_0000
    ensures var m := Authentication(code, text); IsAuthentication(m, code) && Text(m.body) == text
  {
    hide Utf8.Encode, Utf8.DecodeRange, ReadInt32, Int32Bytes;
    var m := Authentication(code, text);
    FourBytesOf(code);
    assert Utf8.BytesAt(m.body, 0, Int32Bytes(code));
    ReadWrittenInt32(m.body, 0, code);
    assert Drop(m.body, 4) == Utf8.Encode(text);
    Utf8.DecodeEncode(Utf8.Encode(text), 0, text);
  }

  /** server-final-message */
  function ServerFinal(signature: Digest): JsString {
    Ascii("v=") + Base64.Encode(signature)
  }

  lemma {:induction false} SignatureFound(signature: Digest)
    ensures Attribute(ServerFinal(signature), ATTRIBUTE_V) == Some(Base64.Encode(signature))
  {
    hide Base64.Encode, IndexOf, UpToComma;
    var b, s := Base64.Encode(signature), ServerFinal(signature);
    EncodedShape(signature);
    assert s[2..2 + |b|] == b;
    PairMatches(s, ATTRIBUTE_V);
    assert PairAt(s, ATTRIBUTE_V, 0);
    IndexOfIs(s, [ATTRIBUTE_V, EQUALS], 0, 0);
    UpToCommaIs(s, 2, b);
  }

  /** What the server sends in the course of an exchange; nothing more once its check of the client fails. */
  function ServerStream(c: Crypto, record: Record, nonce: JsString, serverNonce: JsString, extensions: JsString,
                        final: JsString): Bytes
  {
    var n := nonce + serverNonce;
    var first := ServerFirst(n, record, extensions);
    MessageBytes(Authentication(11, first))
    + match Verify(c, record, RfcFirstBare(nonce), first, n, final)
      case Some(signature) => MessageBytes(Authentication(12, ServerFinal(signature)))
      case None => []
  }

  lemma {:induction false} FinalIsSendable(signature: Digest)
    ensures Sendable(Authentication(12, ServerFinal(signature)))
  {
    hide Utf8.Encode, Base64.Encode;
    var b := Base64.Encode(signature);
    EncodedLength(signature);
    Base64.EncodedIsCanonical(signature);
    CanonicalIsAscii(b);
    AsciiIsItself(ServerFinal(signature));
    FourBytesOf(12);
  }

  lemma {:induction false} EncodedLength(bytes: Bytes)
    ensures |Base64.Encode(bytes)| <= 2 * |bytes| + 4
    decreases |bytes|
  {
    if |bytes| >= 3 {
      EncodedLength(bytes[3..]);
    }
  }

  lemma {:induction false} CanonicalIsAscii(b: JsString)
    requires Base64.Canonical(b)
    ensures forall i :: 0 <= i < |b| ==> b[i] < 128
    decreases |b|
  {
    if |b| >= 4 && Base64.IsLetter(b[2]) && Base64.IsLetter(b[3]) {
      CanonicalIsAscii(b[4..]);
      assert b == b[..4] + b[4..];
    }
  }

  /** Client and server of the same password accept each other, and nothing is left over or read beyond the exchange. */
  lemma {:induction false} Completeness(c: Crypto, normalize: Normalization, password: JsString, salt: Bytes,
                                        count: nat, nonce: JsString, serverNonce: JsString, extensions: JsString,
                                        w: Wire, rest: Bytes)
    requires count >= 1 && Usable(nonce, serverNonce, salt, count) && (extensions == [] || extensions[0] == COMMA)
    requires normalize(password) == password
    requires var record := Register(c, normalize, password, salt, count);
             Sendable(Authentication(11, ServerFirst(nonce + serverNonce, record, extensions)))
    requires var record := Register(c, normalize, password, salt, count);
             var reply := HonestReply(c, password, nonce, serverNonce, record, extensions);
             reply.Reply? ==> Stream(w) == ServerStream(c, record, nonce, serverNonce, extensions, reply.text) + rest
    ensures var record := Register(c, normalize, password, salt, count);
            var reply := HonestReply(c, password, nonce, serverNonce, record, extensions);
            var e := Exchange(c, password, nonce, w);
            && reply.Reply?
            && e.sent == MessageBytes(Message('p' as int, InitialResponse(nonce)))
                         + MessageBytes(Message('p' as int, Utf8.Encode(reply.text)))
            && e.failure == None && Stream(e.wire) == rest
  {
    hide Verify, Usable, ServerFirst, ServerFinal, ClientReply, Authentication, IsAuthentication, Text, MessageBytes,
         TakeMessage,
         Stream, Attribute, InitialResponse, Register, Framed, Sendable, Base64.Encode, Utf8.Encode, RfcFirstBare;
    var record, n := Register(c, normalize, password, salt, count), nonce + serverNonce;
    var first := ServerFirst(n, record, extensions);
    ServerAccepts(c, normalize, password, salt, count, nonce, serverNonce, extensions);
    var reply := HonestReply(c, password, nonce, serverNonce, record, extensions);
    var signature := Verify(c, record, RfcFirstBare(nonce), first, n, reply.text).value;
    var m1, m2 := Authentication(11, first), Authentication(12, ServerFinal(signature));
    RegroupThree(MessageBytes(m1), MessageBytes(m2), rest);
    TakesFront(w, m1, MessageBytes(m2) + rest);
    AuthenticationRoundTrip(11, first);
    FinalIsSendable(signature);
    TakesFront(TakeMessage(w).wire, m2, rest);
    AuthenticationRoundTrip(12, ServerFinal(signature));
    SignatureFound(signature);
    FramedIsMessage(TAG_PASSWORD, InitialResponse(nonce));
    FramedIsMessage(TAG_PASSWORD, Utf8.Encode(reply.text));
  }

  /** The signature of a server with this record. */
  function Signature(c: Crypto, record: Record, nonce: JsString, serverNonce: JsString, extensions: JsString): Digest {
    c.hmac(record.serverKey, Utf8.Encode(HonestMessage(nonce, serverNonce, record, extensions)))
  }

  /** After the first message the outcome hangs on the second. */
  lemma {:induction false} SecondDecides(c: Crypto, normalize: Normalization, password: JsString, salt: Bytes,
                                         count: nat, nonce: JsString, serverNonce: JsString, extensions: JsString,
                                         w: Wire, second: Message, rest: Bytes)
    requires count >= 1 && Usable(nonce, serverNonce, salt, count) && (extensions == [] || extensions[0] == COMMA)
    requires normalize(password) == password && Sendable(second)
    requires var record := Register(c, normalize, password, salt, count);
             var first := Authentication(11, ServerFirst(nonce + serverNonce, record, extensions));
             Sendable(first) && Stream(w) == MessageBytes(first) + MessageBytes(second) + rest
    ensures var record := Register(c, normalize, password, salt, count);
            var signature := Base64.Encode(Signature(c, record, nonce, serverNonce, extensions));
            Exchange(c, password, nonce, w).failure
            == if second.tag != 'R' as int || ReadInt32(second.body, 0) != 12 then Some(ExpectedFinal)
               else if Attribute(Text(second.body), ATTRIBUTE_V) != Some(signature) then Some(BadServerSignature)
               else None
  {
    hide Usable, ServerFirst, ClientReply, Authentication, ReadInt32, Text, MessageBytes, TakeMessage, Stream,
         Attribute, InitialResponse, Register, Framed, Sendable, Base64.Encode, Utf8.Encode, HonestMessage, Recovered;
    var record, n := Register(c, normalize, password, salt, count), nonce + serverNonce;
    var first := Authentication(11, ServerFirst(n, record, extensions));
    VerdictFor(c, normalize, password, salt, count, nonce, serverNonce, extensions);
    RegroupThree(MessageBytes(first), MessageBytes(second), rest);
    TakesFront(w, first, MessageBytes(second) + rest);
    AuthenticationRoundTrip(11, ServerFirst(n, record, extensions));
    TakesFront(TakeMessage(w).wire, second, rest);
  }

  lemma {:induction false} VerdictFor(c: Crypto, normalize: Normalization, password: JsString, salt: Bytes,
                                      count: nat, nonce: JsString, serverNonce: JsString, extensions: JsString)
    requires count >= 1 && Usable(nonce, serverNonce, salt, count) && (extensions == [] || extensions[0] == COMMA)
    requires normalize(password) == password
    ensures var record := Register(c, normalize, password, salt, count);
            var reply := HonestReply(c, password, nonce, serverNonce, record, extensions);
            reply.Reply? && reply.expected == Base64.Encode(Signature(c, record, nonce, serverNonce, extensions))
  {
    hide Xor, Hi, Utf8.Encode, SaltRead, CountRead, NonceShape, Recovered, Base64.Encode, ClientKey, ServerKey,
         HonestReply, HonestVerdict, HonestMessage;
    RegisterIs(c, normalize, password, salt, count);
    VerdictIs(c, password, nonce, serverNonce, Register(c, normalize, password, salt, count), extensions);
  }

  /** The client is content exactly with the signature of a server that holds its password's ServerKey. */
  lemma {:induction false} SignatureIsChecked(c: Crypto, normalize: Normalization, password: JsString, salt: Bytes,
                                              count: nat, nonce: JsString, serverNonce: JsString,
                                              extensions: JsString, w: Wire, signature: Digest, rest: Bytes)
    requires count >= 1 && Usable(nonce, serverNonce, salt, count) && (extensions == [] || extensions[0] == COMMA)
    requires normalize(password) == password
    requires var record := Register(c, normalize, password, salt, count);
             var first := Authentication(11, ServerFirst(nonce + serverNonce, record, extensions));
             && Sendable(first)
             && Stream(w) == MessageBytes(first) + MessageBytes(Authentication(12, ServerFinal(signature))) + rest
    ensures var record := Register(c, normalize, password, salt, count);
            Exchange(c, password, nonce, w).failure
            == if signature == Signature(c, record, nonce, serverNonce, extensions) then None
               else Some(BadServerSignature)
  {
    hide Usable, ServerFirst, ServerFinal, Authentication, ReadInt32, Text, MessageBytes, Stream, Attribute,
         Register, Sendable, Base64.Encode, Base64.Decode, Exchange, Signature;
    var record := Register(c, normalize, password, salt, count);
    FinalIsSendable(signature);
    SecondDecides(c, normalize, password, salt, count, nonce, serverNonce, extensions, w,
                  Authentication(12, ServerFinal(signature)), rest);
    AuthenticationRoundTrip(12, ServerFinal(signature));
    SignatureFound(signature);
    Base64.DecodeEncode(signature);
    Base64.DecodeEncode(Signature(c, record, nonce, serverNonce, extensions));
  }

  /** Anything but AuthenticationSASLContinue in answer to the first message ends the exchange. */
  lemma {:induction false} FirstDecides(c: Crypto, password: JsString, nonce: JsString, w: Wire, first: Message,
                                        rest: Bytes)
    requires Sendable(first) && Stream(w) == MessageBytes(first) + rest
    requires first.tag != 'R' as int || ReadInt32(first.body, 0) != 11
    ensures Exchange(c, password, nonce, w).failure == Some(ExpectedContinue)
    ensures Exchange(c, password, nonce, w).sent == MessageBytes(Message('p' as int, InitialResponse(nonce)))
  {
    hide ClientReply, ReadInt32, Text, MessageBytes, TakeMessage, Stream, InitialResponse, Framed, Sendable;
    TakesFront(w, first, rest);
    FramedIsMessage('p' as int, InitialResponse(nonce));
  }

  lemma NoPair(s: JsString, c: CodeUnit)
    requires forall j :: !PairAt(s, c, j)
    ensures Attribute(s, c) == None
  {
    hide IndexOf, UpToComma;
    PairMatches(s, c);
  }

  /** A message without a nonce, a salt or a count is refused. */
  lemma {:induction false} MalformedIsRefused(c: Crypto, password: JsString, nonce: JsString, first: JsString)
    requires (forall j :: !PairAt(first, ATTRIBUTE_R, j)) || (forall j :: !PairAt(first, ATTRIBUTE_S, j))
      || (forall j :: !CountAt(first, j))
    ensures ClientReply(c, password, nonce, first) == Refused(MalformedServerFirst)
  {
    hide Attribute, CountAttribute, PairAt, CountAt, IndexOf;
    if forall j :: !PairAt(first, ATTRIBUTE_R, j) {
      NoPair(first, ATTRIBUTE_R);
    } else if forall j :: !PairAt(first, ATTRIBUTE_S, j) {
      NoPair(first, ATTRIBUTE_S);
    } else {
      NoneOrFirst(first);
    }
  }

  /** A combined nonce that does not begin with the client's own is refused; any other is answered. */
  lemma {:induction false} ForeignNonceIsRefused(c: Crypto, password: JsString, nonce: JsString, n: JsString,
                                                 record: Record, extensions: JsString)
    requires COMMA !in n && (extensions == [] || extensions[0] == COMMA)
    ensures var reply := ClientReply(c, password, nonce, ServerFirst(n, record, extensions));
            if nonce <= n then reply.Reply? else reply == Refused(ForeignNonce)
  {
    hide Laid, Attribute, CountAttribute, EqualsAtEnd, Xor, Utf8.Encode, Salted, AuthMessage, WithoutProof, ServerFirst,
         Base64.Encode, Base64.Decode, PairAt, CountAt, IndexOf;
    var first, b := ServerFirst(n, record, extensions), Base64.Encode(record.salt);
    EncodedShape(record.salt);
    ServerFirstIsLaid(n, record, extensions);
    NonceFound(first, n, b, Numeral(record.count, Decimal) + extensions);
    SaltFound(first, n, b, Numeral(record.count, Decimal) + extensions);
    CountFound(first, n, b, record.count, extensions);
    StartsExactly(n, nonce);
  }

  lemma StartsExactly(n: JsString, nonce: JsString)
    ensures IndexOf(n, nonce, 0) == 0 <==> nonce <= n
  {
    if |nonce| <= |n| {
      assert n[0..0 + |nonce|] == n[..|nonce|];
    }
    assert MatchesAt(n, nonce, 0) <==> nonce <= n;
  }

  lemma RegroupThree(a: Bytes, b: Bytes, c: Bytes)
    ensures a + b + c == a + (b + c)
  {
  }

  /** The same of the running client, whatever the chunks in which the server's messages arrive. */
  method LogIn(sock: Socket, reader: SocketReader, c: Crypto, password: JsString, nonce: JsString,
               ghost normalize: Normalization, ghost salt: Bytes, ghost count: nat, ghost serverNonce: JsString,
               ghost extensions: JsString, ghost rest: Bytes)
    returns (failure: Option<Failure>)
    requires sock.Valid() && reader.sock == sock
    requires count >= 1 && Usable(nonce, serverNonce, salt, count) && (extensions == [] || extensions[0] == COMMA)
    requires normalize(password) == password
    requires var record := Register(c, normalize, password, salt, count);
             Sendable(Authentication(11, ServerFirst(nonce + serverNonce, record, extensions)))
    requires var record := Register(c, normalize, password, salt, count);
             var reply := HonestReply(c, password, nonce, serverNonce, record, extensions);
             reply.Reply? ==>
               reader.Unread() == ServerStream(c, record, nonce, serverNonce, extensions, reply.text) + rest
    modifies reader`buf, sock`incoming, sock`sent
    ensures sock.Valid() && failure == None && reader.Unread() == rest
  {
    hide Exchange, Usable, ServerStream, HonestReply, Register, ServerFirst, Sendable, Stream;
    Completeness(c, normalize, password, salt, count, nonce, serverNonce, extensions, reader.View(), rest);
    failure := ScramAuth(sock, reader, c, password, nonce);
  }
}
