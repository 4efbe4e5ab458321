/**
 When a server of RFC 5802 accepts the client of examples/pgwire.js under every
 hash and HMAC, and functions under which it does not.
 */
module ScramAcceptance {
  import opened Options
  import opened JsStrings
  import opened JsNumbers
  import opened PgWire
  import opened Scram
  import opened ScramExchange
  import opened ScramServer
  import Utf8
  import Base64

  // ----- functions that tell keys apart

  /** Thirty-two times the same byte. */
  function Fill(b: Byte): Digest {
    seq(32, _ => b)
  }

  function KeyHash(p: Bytes): Digest {
    if p == Fill(3) then Fill(4) else Fill(3)
  }

  function OtherHash(p: Bytes): Digest {
    if p == Fill(2) then Fill(5) else Fill(2)
  }

  function RefusingHmac(p: Bytes, answer: Bytes -> Digest, key: Bytes, data: Bytes): Digest {
    if data == CLIENT_KEY_LABEL then (if key != [] && key[0] == 1 then Fill(1) else Fill(0))
    else if key == p then answer(data)
    else Fill(0)
  }

  function RefusingHash(p: Bytes, b: Bytes): Digest {
    if b == Fill(1) then KeyHash(p) else OtherHash(p)
  }

  /**
   An HMAC that under the password bytes `p` gives the given answers, and whose
   client keys show whether the salted password starts with 1.
   */
  function Refusing(p: Bytes, answer: Bytes -> Digest): Crypto {
    Crypto((key: Bytes, data: Bytes) => RefusingHmac(p, answer, key, data), (b: Bytes) => RefusingHash(p, b))
  }

  lemma FillsDiffer(a: Byte, b: Byte)
    requires a != b
    ensures Fill(a) != Fill(b)
  {
    assert Fill(a)[0] != Fill(b)[0];
  }

  /** The two hashes differ from each other and from the password, and neither starts with 1. */
  lemma HashesDiffer(p: Bytes)
    ensures KeyHash(p) != OtherHash(p) && KeyHash(p) != p && OtherHash(p) != p
    ensures KeyHash(p)[0] != 1 && OtherHash(p)[0] != 1
  {
    forall a: Byte, b: Byte | a != b
      ensures Fill(a) != Fill(b)
    {
      FillsDiffer(a, b);
    }
  }

  lemma {:induction false} XorBitsZero(a: nat, n: nat)
    requires a < Pow2(n)
    ensures XorBits(a, 0, n) == a
  {
    if n > 0 {
      XorBitsZero(a / 2, n - 1);
    }
  }

  lemma XorWithZero(b: Byte)
    ensures XorByte(b, 0) == b
  {
    assert Pow2(8) == 256;
    XorBitsZero(b, 8);
  }

  lemma XorWithZeros(d: Digest)
    ensures Xor(d, Fill(0)) == d
  {
    forall i | 0 <= i < 32
      ensures XorByte(d[i], 0) == d[i]
    {
      XorWithZero(d[i]);
    }
  }

  lemma LabelEnds()
    ensures |CLIENT_KEY_LABEL| == 10 && CLIENT_KEY_LABEL[9] == 'y' as int
  {
    hide Utf8.Encode;
    AsciiIsItself(Ascii("Client Key"));
  }

  /** The input of U1 ends in 0, 1: it is neither the label nor a digest that ends otherwise. */
  lemma FirstEnds(salt: Bytes)
    ensures var first := salt + Int32Bytes(1);
            && |first| >= 4 && first[|first| - 1] == 1 && first[|first| - 2] == 0
            && first != CLIENT_KEY_LABEL && first != Fill(0) && first != Fill(1)
  {
    hide CLIENT_KEY_LABEL;
    LabelEnds();
    assert Int32Bytes(1) == [0, 0, 0, 1];
    assert Fill(0)[31] == 0 && Fill(1)[30] == 1;
  }

  lemma DigestIsNoLabel(d: Digest)
    ensures d != CLIENT_KEY_LABEL
  {
    LabelEnds();
  }

  /** Salted passwords of which just one starts with 1 make the server refuse the proof. */
  lemma {:induction false} OneKeyIsRefused(p: Bytes, answer: Bytes -> Digest, mine: Digest, theirs: Digest,
                                           record: Record,
                                           authMessage: JsString)
    requires (mine[0] == 1) != (theirs[0] == 1)
    requires record.storedKey == Refusing(p, answer).hash(ClientKey(Refusing(p, answer), theirs))
    ensures var c := Refusing(p, answer);
            c.hash(Recovered(c, record, authMessage, ClientProof(c, ClientKey(c, mine), authMessage)))
              != record.storedKey
  {
    hide Xor, Utf8.Encode, KeyHash, OtherHash, CLIENT_KEY_LABEL, Fill;
    var c := Refusing(p, answer);
    var key, auth := ClientKey(c, mine), Utf8.Encode(authMessage);
    HashesDiffer(p);
    FillsDiffer(0, 1);
    assert c.hmac(c.hash(key), auth) == Fill(0);
    assert c.hmac(record.storedKey, auth) == Fill(0);
    XorWithZeros(key);
  }

  // ----- another password or another salt

  /** U1 of one password and salt is all ones, everything else zeros. */
  function FirstOnly(first: Bytes): Bytes -> Digest {
    (data: Bytes) => if data == first then Fill(1) else Fill(0)
  }

  lemma {:induction false} FirstOnlyHi(p: Bytes, first: Bytes, q: Bytes, salt: Bytes, i: nat)
    requires i >= 1 && first != Fill(0) && first != Fill(1)
    ensures Hi(Refusing(p, FirstOnly(first)), q, salt, i)
         == if q == p && salt + Int32Bytes(1) == first then Fill(1) else Fill(0)
  {
    hide Xor, CLIENT_KEY_LABEL, Int32Bytes, Fill;
    var c := Refusing(p, FirstOnly(first));
    FirstEnds(salt);
    if i == 1 {
      assert U(c, q, salt, 1) == if q == p && salt + Int32Bytes(1) == first then Fill(1) else Fill(0);
    } else {
      FirstOnlyHi(p, first, q, salt, i - 1);
      HiStep(c, q, salt, i - 1);
      FirstOnlyU(p, first, q, salt, i);
      XorWithZeros(Fill(0));
      XorWithZeros(Fill(1));
    }
  }

  lemma {:induction false} FirstOnlyU(p: Bytes, first: Bytes, q: Bytes, salt: Bytes, k: nat)
    requires k >= 2 && first != Fill(0) && first != Fill(1)
    ensures U(Refusing(p, FirstOnly(first)), q, salt, k) == Fill(0)
  {
    hide CLIENT_KEY_LABEL, Int32Bytes, Fill;
    var u := U(Refusing(p, FirstOnly(first)), q, salt, k - 1);
    FirstEnds(salt);
    if k > 2 {
      FirstOnlyU(p, first, q, salt, k - 1);
    }
    assert u == Fill(0) || u == Fill(1);
    DigestIsNoLabel(u);
  }

  // ----- another count

  function Digits(k: nat, n: nat): (r: Bytes)
    ensures |r| == n
  {
    if n == 0 then [] else Digits(k / 256, n - 1) + [k % 256]
  }

  function Pow256(n: nat): nat {
    if n == 0 then 1 else 256 * Pow256(n - 1)
  }

  lemma {:induction false} DigitsRoundTrip(k: nat, n: nat)
    requires k < Pow256(n)
    ensures NetworkValue(Digits(k, n)) == k
  {
    if n > 0 {
      DigitsRoundTrip(k / 256, n - 1);
      assert Digits(k, n)[..n - 1] == Digits(k / 256, n - 1);
    }
  }

  /** What parseInt and the protocol can hold exactly. */
  const MAX_COUNT: nat := 0x20_0000_0000_0000

  lemma CountFits(k: nat)
    requires k <= MAX_COUNT
    ensures k < Pow256(7)
  {
    assert Pow256(1) == 256 && Pow256(2) == 0x1_0000 && Pow256(3) == 0x100_0000 && Pow256(4) == 0x1_0000_0000;
  }

  /** The k-th U: it counts, and starts with 1 only for k == mark. It ends in 7, unlike the input of U1. */
  function Counter(k: nat, mark: nat): Digest {
    [if k == mark then 1 else 0] + Digits(k, 7) + seq(23, _ => 0) + [7]
  }

  function CountOn(first: Bytes, mark: nat): Bytes -> Digest {
    (data: Bytes) =>
      if data == first then Counter(1, mark)
      else if |data| == 32 then Counter(NetworkValue(data[1..8]) + 1, mark)
      else Fill(0)
  }

  lemma CounterCounts(k: nat, mark: nat, salt: Bytes)
    requires k <= MAX_COUNT
    ensures NetworkValue(Counter(k, mark)[1..8]) == k
    ensures Counter(k, mark) != salt + Int32Bytes(1)
    ensures Counter(k, mark)[0] == if k == mark then 1 else 0
  {
    hide NetworkValue, CLIENT_KEY_LABEL;
    CountFits(k);
    DigitsRoundTrip(k, 7);
    var d := Counter(k, mark);
    assert d[1..8] == Digits(k, 7);
    assert d[31] == 7;
    FirstEnds(salt);
  }

  lemma {:induction false} CounterU(p: Bytes, salt: Bytes, mark: nat, k: nat)
    requires 1 <= k <= MAX_COUNT
    ensures U(Refusing(p, CountOn(salt + Int32Bytes(1), mark)), p, salt, k) == Counter(k, mark)
  {
    hide CLIENT_KEY_LABEL, Int32Bytes, Counter, NetworkValue;
    FirstEnds(salt);
    if k > 1 {
      CounterU(p, salt, mark, k - 1);
      CounterCounts(k - 1, mark, salt);
      DigestIsNoLabel(Counter(k - 1, mark));
    }
  }

  /** The exclusive or of the Us starts with 1 exactly from the mark on. */
  lemma {:induction false} CounterHi(p: Bytes, salt: Bytes, mark: nat, k: nat)
    requires 1 <= k <= MAX_COUNT && mark >= 1
    ensures Hi(Refusing(p, CountOn(salt + Int32Bytes(1), mark)), p, salt, k)[0] == if k >= mark then 1 else 0
    decreases k
  {
    hide CLIENT_KEY_LABEL, Int32Bytes, Counter, XorByte, RefusingHmac;
    var c := Refusing(p, CountOn(salt + Int32Bytes(1), mark));
    CounterU(p, salt, mark, k);
    CounterCounts(k, mark, salt);
    if k > 1 {
      CounterHi(p, salt, mark, k - 1);
      HiStep(c, p, salt, k - 1);
      XorWithZero(0);
      XorWithZero(1);
      ZeroXorOne();
    } else {
      assert Hi(c, p, salt, 1) == U(c, p, salt, 1);
    }
  }

  lemma ZeroXorOne()
    ensures XorByte(0, 1) == 1
  {
    assert XorBits(0, 0, 7) == 0 by { XorBitsZero(0, 7); }
  }

  // ----- acceptance

  predicate Accepted(c: Crypto, normalize: Normalization, password: JsString, salt: Bytes, count: nat,
                     nonce: JsString, serverNonce: JsString, extensions: JsString)
    requires count >= 1
  {
    var record := Register(c, normalize, password, salt, count);
    var reply := HonestReply(c, password, nonce, serverNonce, record, extensions);
    reply.Reply? && HonestVerdict(c, nonce, serverNonce, record, extensions, reply.text).Some?
  }

  /** Two passwords with the same bytes are the same. */
  lemma EncodingIsFaithful(a: JsString, b: JsString)
    requires Utf8.Encode(a) == Utf8.Encode(b)
    ensures a == b
  {
    hide Utf8.Encode, Utf8.DecodeRange;
    Utf8.DecodeEncode(Utf8.Encode(a), 0, a);
    Utf8.DecodeEncode(Utf8.Encode(b), 0, b);
  }

  /** Functions under which the salted passwords differ in whether they start with 1 refuse the client. */
  lemma {:induction false} Refuses(answer: Bytes -> Digest, normalize: Normalization, password: JsString,
                                   salt: Bytes, count: nat, nonce: JsString, serverNonce: JsString,
                                   extensions: JsString)
    requires count >= 1 && NonceShape(nonce, serverNonce) && (extensions == [] || extensions[0] == COMMA)
    requires var c := Refusing(Utf8.Encode(password), answer);
             var n := nonce + serverNonce;
             (Salted(c, password, SaltRead(n, salt), CountRead(n, count))[0] == 1)
             != (Hi(c, Utf8.Encode(normalize(password)), salt, count)[0] == 1)
    ensures !Accepted(Refusing(Utf8.Encode(password), answer), normalize, password, salt, count,
                      nonce, serverNonce, extensions)
  {
    hide Xor, Hi, Utf8.Encode, NonceShape, SaltRead, CountRead, HonestReply, HonestVerdict, HonestMessage, Refusing,
         Salted, Recovered, ClientProof, ClientKey, ServerKey;
    var c := Refusing(Utf8.Encode(password), answer);
    var record, n := Register(c, normalize, password, salt, count), nonce + serverNonce;
    RegisterIs(c, normalize, password, salt, count);
    VerdictIs(c, password, nonce, serverNonce, record, extensions);
    OneKeyIsRefused(Utf8.Encode(password), answer, Salted(c, password, SaltRead(n, salt), CountRead(n, count)),
                    Hi(c, Utf8.Encode(normalize(password)), salt, count), record,
                    HonestMessage(nonce, serverNonce, record, extensions));
  }

  /** With another password or another salt on the two sides. */
  lemma {:induction false} OtherInputIsRefused(normalize: Normalization, password: JsString, salt: Bytes, count: nat,
                                               nonce: JsString, serverNonce: JsString, extensions: JsString)
    requires count >= 1 && NonceShape(nonce, serverNonce) && (extensions == [] || extensions[0] == COMMA)
    requires normalize(password) != password || SaltRead(nonce + serverNonce, salt) != salt
    ensures exists c: Crypto :: !Accepted(c, normalize, password, salt, count, nonce, serverNonce, extensions)
  {
    hide Hi, Utf8.Encode, NonceShape, SaltRead, CountRead, Refusing, Accepted, Int32Bytes, FirstOnly;
    var p, q, read := Utf8.Encode(password), Utf8.Encode(normalize(password)), SaltRead(nonce + serverNonce, salt);
    var first := read + Int32Bytes(1);
    FirstEnds(read);
    if p == q {
      EncodingIsFaithful(password, normalize(password));
      SameEnds(read, salt, Int32Bytes(1));
    }
    FirstOnlyHi(p, first, p, read, AtLeastOne(CountRead(nonce + serverNonce, count)));
    FirstOnlyHi(p, first, q, salt, count);
    Refuses(FirstOnly(first), normalize, password, salt, count, nonce, serverNonce, extensions);
  }

  lemma SameEnds(a: Bytes, b: Bytes, end: Bytes)
    ensures a + end == b + end ==> a == b
  {
    if a + end == b + end {
      assert (a + end)[..|a|] == a && (b + end)[..|b|] == b;
    }
  }

  /** With the same password and salt but another count. */
  lemma {:induction false} OtherCountIsRefused(normalize: Normalization, password: JsString, salt: Bytes, count: nat,
                                               nonce: JsString, serverNonce: JsString, extensions: JsString)
    requires count >= 1 && NonceShape(nonce, serverNonce) && (extensions == [] || extensions[0] == COMMA)
    requires normalize(password) == password && SaltRead(nonce + serverNonce, salt) == salt
    requires AtLeastOne(CountRead(nonce + serverNonce, count)) != count
    requires count <= MAX_COUNT && CountRead(nonce + serverNonce, count) <= MAX_COUNT
    ensures exists c: Crypto :: !Accepted(c, normalize, password, salt, count, nonce, serverNonce, extensions)
  {
    hide Hi, Utf8.Encode, NonceShape, SaltRead, CountRead, Refusing, Accepted, Int32Bytes, CountOn;
    var p, mine := Utf8.Encode(password), AtLeastOne(CountRead(nonce + serverNonce, count));
    var mark := if mine < count then count else mine;
    CounterHi(p, salt, mark, mine);
    CounterHi(p, salt, mark, count);
    Refuses(CountOn(salt + Int32Bytes(1), mark), normalize, password, salt, count, nonce, serverNonce, extensions);
  }

  /**
   The client is accepted whatever the hash and HMAC exactly when normalization
   leaves its password as it is and it reads the salt and the count that were sent.
   */
  lemma {:induction false} AcceptedExactly(normalize: Normalization, password: JsString, salt: Bytes, count: nat,
                                           nonce: JsString, serverNonce: JsString, extensions: JsString)
    requires count >= 1 && NonceShape(nonce, serverNonce) && (extensions == [] || extensions[0] == COMMA)
    requires count <= MAX_COUNT && CountRead(nonce + serverNonce, count) <= MAX_COUNT
    ensures (forall c: Crypto :: Accepted(c, normalize, password, salt, count, nonce, serverNonce, extensions))
       <==> normalize(password) == password && Usable(nonce, serverNonce, salt, count)
  {
    hide NonceShape, SaltRead, CountRead, HonestReply, HonestVerdict, Register;
    if normalize(password) != password || SaltRead(nonce + serverNonce, salt) != salt {
      OtherInputIsRefused(normalize, password, salt, count, nonce, serverNonce, extensions);
    } else if AtLeastOne(CountRead(nonce + serverNonce, count)) != count {
      OtherCountIsRefused(normalize, password, salt, count, nonce, serverNonce, extensions);
    } else {
      forall c: Crypto
        ensures Accepted(c, normalize, password, salt, count, nonce, serverNonce, extensions)
      {
        ServerAccepts(c, normalize, password, salt, count, nonce, serverNonce, extensions);
      }
    }
  }

  /** SASLprep turns U+00AA, the feminine ordinal indicator, into "a"; a server that does may refuse this client. */
  lemma {:induction false} OrdinalCanBeRefused(normalize: Normalization, salt: Bytes, count: nat,
                                               nonce: JsString, serverNonce: JsString, extensions: JsString)
    requires count >= 1 && NonceShape(nonce, serverNonce) && (extensions == [] || extensions[0] == COMMA)
    requires normalize([0xaa]) == Ascii("a")
    ensures exists c: Crypto :: !Accepted(c, normalize, [0xaa], salt, count, nonce, serverNonce, extensions)
  {
    hide NonceShape, Accepted;
    assert Ascii("a")[0] == 'a' as int;
    OtherInputIsRefused(normalize, [0xaa], salt, count, nonce, serverNonce, extensions);
  }

  // ----- nonces that mislead the client

  lemma {:induction false} PairInNonce(nonce: JsString, c: CodeUnit, tail: JsString)
    requires NonceShape(nonce, []) && c != EQUALS
    ensures IndexOf(nonce + ([c, EQUALS] + tail), [c, EQUALS], 0) == |nonce|
  {
    var n := nonce + ([c, EQUALS] + tail);
    LettersAreAscii(nonce);
    PairMatches(n, c);
    assert PairAt(n, c, |nonce|);
    forall j | 0 <= j < |nonce|
      ensures !PairAt(n, c, j)
    {
      assert n[j + 1] != EQUALS;
    }
    IndexOfIs(n, [c, EQUALS], 0, |nonce|);
  }

  lemma OneLetterDecodes()
    ensures Base64.Decode(Ascii("x")) == []
  {
    var x: JsString := Ascii("x");
    assert Base64.Unpadded(x) == x;
    assert Base64.Sextets(x[1..]) == [];
  }

  /** A server nonce "s=x": the client answers, with a key salted with nothing. */
  lemma {:induction false} NonceHidesSalt(c: Crypto, password: JsString, nonce: JsString, record: Record)
    requires NonceShape(nonce, []) && record.salt != []
    ensures var n := nonce + Ascii("s=x");
            var first := ServerFirst(n, record, []);
            var auth := AuthMessage(ClientFirstBare(nonce), first, WithoutProof(n));
            && SaltRead(n, record.salt) == [] != record.salt
            && ClientReply(c, password, nonce, first)
            == Proven(c, Salted(c, password, [], record.count), auth, WithoutProof(n))
  {
    hide ClientReply, Proven, Salted, ServerFirst, Base64.Decode, IndexOf, CountAttribute;
    var n := nonce + Ascii("s=x");
    assert Ascii("s=x") == [ATTRIBUTE_S, EQUALS] + Ascii("x");
    PairInNonce(nonce, ATTRIBUTE_S, Ascii("x"));
    assert n[|nonce| + 2..] == Ascii("x");
    OneLetterDecodes();
    NoCountInNonce(nonce);
    assert COMMA !in Ascii("s=x");
    ClientReadsServerFirst(c, password, nonce, Ascii("s=x"), record, []);
  }

  lemma {:induction false} NoCountInNonce(nonce: JsString)
    requires NonceShape(nonce, [])
    ensures CountAttribute(nonce + Ascii("s=x")) == None
  {
    hide CountAttribute, CountPlace;
    var n := nonce + Ascii("s=x");
    LettersAreAscii(nonce);
    forall j
      ensures !CountAt(n, j)
    {
      if 0 <= j && j + 2 < |n| {
        assert j + 1 < |nonce| ==> n[j + 1] != EQUALS;
        assert n[|nonce|] == ATTRIBUTE_S && n[|nonce| + 2] == 'x' as int;
      }
    }
    NoneOrFirst(n);
  }

  /** A server nonce "i=9": the client answers, with a key of nine iterations. */
  lemma {:induction false} NonceHidesCount(c: Crypto, password: JsString, nonce: JsString, record: Record)
    requires NonceShape(nonce, []) && record.count != 9
    ensures var n := nonce + Ascii("i=9");
            var first := ServerFirst(n, record, []);
            var auth := AuthMessage(ClientFirstBare(nonce), first, WithoutProof(n));
            && CountRead(n, record.count) == 9 != record.count
            && ClientReply(c, password, nonce, first)
            == Proven(c, Salted(c, password, record.salt, 9), auth, WithoutProof(n))
  {
    hide ClientReply, Proven, Salted, ServerFirst, CountAttribute;
    var n := nonce + Ascii("i=9");
    NineInNonce(nonce);
    NoSaltInNonce(nonce);
    assert COMMA !in Ascii("i=9");
    ClientReadsServerFirst(c, password, nonce, Ascii("i=9"), record, []);
  }

  lemma {:induction false} NoSaltInNonce(nonce: JsString)
    requires NonceShape(nonce, [])
    ensures IndexOf(nonce + Ascii("i=9"), [ATTRIBUTE_S, EQUALS], 0) == -1
  {
    hide IndexOf;
    var n := nonce + Ascii("i=9");
    LettersAreAscii(nonce);
    PairMatches(n, ATTRIBUTE_S);
    forall j
      ensures !PairAt(n, ATTRIBUTE_S, j)
    {
      if 0 <= j && j + 1 < |n| {
        assert j + 1 < |nonce| ==> n[j + 1] != EQUALS;
        assert n[|nonce|] == ATTRIBUTE_I;
      }
    }
    NoPairNoIndex(n);
  }

  lemma NoPairNoIndex(n: JsString)
    requires forall j :: !PairAt(n, ATTRIBUTE_S, j)
    ensures IndexOf(n, [ATTRIBUTE_S, EQUALS], 0) == -1
  {
    PairMatches(n, ATTRIBUTE_S);
  }

  lemma {:induction false} NineInNonce(nonce: JsString)
    requires NonceShape(nonce, [])
    ensures CountAttribute(nonce + Ascii("i=9")) == Some(9)
  {
    hide ParseInt, CountPlace;
    var n, k := nonce + Ascii("i=9"), |nonce|;
    LettersAreAscii(nonce);
    assert n[k] == ATTRIBUTE_I && n[k + 1] == EQUALS && n[k + 2] == 57;
    assert CountAt(n, k);
    forall j | 0 <= j < k
      ensures !CountAt(n, j)
    {
      assert n[j + 1] != EQUALS;
    }
    CountPlaceIs(n, 0, k);
    var nine: JsString := [57];
    assert n[k + 2..] == nine;
    OneDigit(nine);
  }

  lemma OneDigit(nine: JsString)
    requires nine == [57]
    ensures DigitRun(nine, Decimal) == 1 && nine[..1] == nine && ParseInt(nine, Decimal) == Some(9)
  {
    hide ParseInt;
    ParseIntDigits(nine, Decimal, []);
    assert nine + [] == nine && nine[..0] == [];
    assert NumeralValue([], Decimal) == 0;
  }
}
