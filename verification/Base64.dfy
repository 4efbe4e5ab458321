/**
 The base64 codec of examples/pgwire.js. The decoder's accumulator is a 32-bit
 integer that is never masked; it is followed here bit for bit through its
 wrap-arounds.
 */
module Base64 {
  import opened Options
  import opened JsStrings

  const PAD: CodeUnit := 61

  type Sextet = v: int | 0 <= v < 64

  /** `B64_CHARS[v]`. */
  function Letter(v: Sextet): CodeUnit {
    if v < 26 then 65 + v else if v < 52 then 71 + v else if v < 62 then v - 4 else if v == 62 then 43 else 47
  }

  /** `B64_CHARS.indexOf(c)`, or `None` for -1. */
  function LetterValue(c: CodeUnit): Option<Sextet> {
    if 65 <= c <= 90 then Some(c - 65)
    else if 97 <= c <= 122 then Some(c - 71)
    else if 48 <= c <= 57 then Some(c + 4)
    else if c == 43 then Some(62)
    else if c == 47 then Some(63)
    else None
  }

  lemma LetterInverse(v: Sextet, c: CodeUnit)
    ensures Letter(v) == c <==> LetterValue(c) == Some(v)
    ensures Letter(v) != PAD
  {
  }

  // ----- encoding

  function Word(a: Byte, b: Byte, c: Byte): nat {
    a * 0x10000 + b * 0x100 + c
  }

  function Field(n: nat, k: nat): Sextet
    requires k < 4
  {
    if k == 0 then n / 0x40000 % 64 else if k == 1 then n / 0x1000 % 64 else if k == 2 then n / 0x40 % 64 else n % 64
  }

  function EncodeThree(a: Byte, b: Byte, c: Byte): JsString {
    var n := Word(a, b, c);
    [Letter(Field(n, 0)), Letter(Field(n, 1)), Letter(Field(n, 2)), Letter(Field(n, 3))]
  }

  function EncodeRest(bytes: Bytes): JsString
    requires |bytes| < 3
  {
    if |bytes| == 1 then
      var n := Word(bytes[0], 0, 0);
      [Letter(Field(n, 0)), Letter(Field(n, 1)), PAD, PAD]
    else if |bytes| == 2 then
      var n := Word(bytes[0], bytes[1], 0);
      [Letter(Field(n, 0)), Letter(Field(n, 1)), Letter(Field(n, 2)), PAD]
    else []
  }

  function Encode(bytes: Bytes): JsString {
    if |bytes| >= 3 then EncodeThree(bytes[0], bytes[1], bytes[2]) + Encode(bytes[3..]) else EncodeRest(bytes)
  }

  method Base64Encode(bytes: Bytes) returns (out: JsString)
    ensures out == Encode(bytes)
  {
    hide EncodeThree, EncodeRest;
    out := [];
    var i := 0;
    assert bytes[0..] == bytes;
    while i + 2 < |bytes|
      invariant 0 <= i <= |bytes|
      invariant out + Encode(bytes[i..]) == Encode(bytes)
    {
      ghost var rest := bytes[i..];
      assert rest[3..] == bytes[i + 3..];
      var group := EncodeThree(bytes[i], bytes[i + 1], bytes[i + 2]);
      assert out + (group + Encode(bytes[i + 3..])) == (out + group) + Encode(bytes[i + 3..]);
      out := out + group;
      i := i + 3;
    }
    out := out + EncodeRest(bytes[i..]);
  }

  // ----- decoding: the exact bit stream

  type PendingBits = k: int | k == 0 || k == 2 || k == 4 || k == 6

  function Pow2(bits: PendingBits): nat {
    if bits == 0 then 1 else if bits == 2 then 4 else if bits == 4 then 16 else 64
  }

  lemma PendingFits(pending: nat, v: Sextet, bits: PendingBits)
    requires bits > 0 && pending < Pow2(bits)
    ensures 0 <= (pending * 64 + v) / Pow2(bits - 2) < 256
    ensures 0 <= (pending * 64 + v) % Pow2(bits - 2) < Pow2(bits - 2)
  {
  }

  /** The bytes of a sextet stream, with `pending` the value of the `bits` bits not yet output. */
  function Stream(vs: seq<Sextet>, pending: nat, bits: PendingBits): Bytes
    requires pending < Pow2(bits)
    decreases |vs|
  {
    if vs == [] then []
    else
      var n := pending * 64 + vs[0];
      if bits == 0 then Stream(vs[1..], n, 6)
      else
        PendingFits(pending, vs[0], bits);
        [n / Pow2(bits - 2)] + Stream(vs[1..], n % Pow2(bits - 2), bits - 2)
  }

  function Unpadded(s: JsString): JsString {
    if s != [] && s[|s| - 1] == PAD then Unpadded(s[..|s| - 1]) else s
  }

  /** The sextets of the letters in `s`; other characters are skipped. */
  function Sextets(s: JsString): seq<Sextet> {
    if s == [] then []
    else (match LetterValue(s[0]) case Some(v) => [v] case None => []) + Sextets(s[1..])
  }

  function Decode(s: JsString): Bytes {
    Stream(Sextets(Unpadded(s)), 0, 0)
  }

  // ----- decoding: the 32-bit accumulator

  type Int32 = n: int | -0x8000_0000 <= n < 0x8000_0000

  function ToInt32(n: int): Int32 {
    (n + 0x8000_0000) % 0x1_0000_0000 - 0x8000_0000
  }

  /** `(buffer << 6) | v`: the shift wraps at 32 bits and leaves six zeros for `v`. */
  function PushSextet(buffer: Int32, v: Sextet): int {
    ToInt32(buffer * 64) + v
  }

  /** `(buffer >> bits) & 0xff`, the shift keeping the sign. */
  function TopByte(buffer: Int32, bits: PendingBits): Byte {
    buffer / Pow2(bits) % 256
  }

  /** The low `bits` bits of the accumulator: the ones still to be output. */
  function Pending(buffer: int, bits: PendingBits): (r: nat)
    ensures r < Pow2(bits)
  {
    if bits == 0 then 0 else if bits == 2 then buffer % 4 else if bits == 4 then buffer % 16 else buffer % 64
  }

  lemma ShiftedBy(buffer: Int32, v: Sextet) returns (wraps: int)
    ensures PushSextet(buffer, v) == buffer * 64 + v - wraps * 0x1_0000_0000
    ensures -0x8000_0000 <= PushSextet(buffer, v) < 0x8000_0000
  {
    wraps := (buffer * 64 + 0x8000_0000) / 0x1_0000_0000;
    var low := (buffer * 64 + 0x8000_0000) % 0x1_0000_0000;
    var sixtyFours := low / 64;
    assert low == sixtyFours * 64 by {
      assert low == 64 * (buffer + 0x200_0000 - wraps * 0x400_0000);
    }
    assert low <= 0x1_0000_0000 - 64;
  }

  lemma LowBits2(b: int, n: nat, j: int)
    requires n < 0x100 && b == n + 0x100 * j
    ensures b % 256 == n
  {
  }

  lemma LowBits4(b: int, n: nat, j: int)
    requires n < 0x400 && b == n + 0x400 * j
    ensures b / 4 % 256 == n / 4 && b % 4 == n % 4
  {
    assert b / 4 == n / 4 + 256 * j;
  }

  lemma LowBits6(b: int, n: nat, j: int)
    requires n < 0x1000 && b == n + 0x1000 * j
    ensures b / 16 % 256 == n / 16 && b % 16 == n % 16
  {
    assert b / 16 == n / 16 + 256 * j;
  }

  /** Whatever the shift loses, the pending bits and the next output byte are those of the exact stream. */
  lemma {:induction false} PushKeepsPending(buffer: Int32, v: Sextet, bits: PendingBits)
    ensures -0x8000_0000 <= PushSextet(buffer, v) < 0x8000_0000
    ensures bits == 0 ==> Pending(PushSextet(buffer, v), 6) == v
    ensures bits > 0 ==>
      var n := Pending(buffer, bits) * 64 + v;
      TopByte(PushSextet(buffer, v), bits - 2) == n / Pow2(bits - 2)
      && Pending(PushSextet(buffer, v), bits - 2) == n % Pow2(bits - 2)
  {
    var wraps := ShiftedBy(buffer, v);
    PushedBits(buffer, v, PushSextet(buffer, v), wraps, bits);
  }

  lemma {:induction false} PushedBits(buffer: Int32, v: Sextet, b: Int32, wraps: int, bits: PendingBits)
    requires b == buffer * 64 + v - wraps * 0x1_0000_0000
    ensures bits == 0 ==> Pending(b, 6) == v
    ensures bits > 0 ==>
      var n := Pending(buffer, bits) * 64 + v;
      TopByte(b, bits - 2) == n / Pow2(bits - 2) && Pending(b, bits - 2) == n % Pow2(bits - 2)
  {
    if bits == 0 {
      assert b == v + 64 * (buffer - wraps * 0x400_0000);
    } else if bits == 2 {
      LowBits2(b, buffer % 4 * 64 + v, buffer / 4 - wraps * 0x100_0000);
    } else if bits == 4 {
      LowBits4(b, buffer % 16 * 64 + v, buffer / 16 - wraps * 0x40_0000);
    } else {
      LowBits6(b, buffer % 64 * 64 + v, buffer / 64 - wraps * 0x10_0000);
    }
  }

  lemma {:induction false} StreamStep(bytes: Bytes, v: Sextet, rest: seq<Sextet>, buffer: Int32, bits: PendingBits)
    ensures -0x8000_0000 <= PushSextet(buffer, v) < 0x8000_0000
    ensures var b := PushSextet(buffer, v);
            bytes + Stream([v] + rest, Pending(buffer, bits), bits)
            == if bits == 0 then bytes + Stream(rest, Pending(b, 6), 6)
               else (bytes + [TopByte(b, bits - 2)]) + Stream(rest, Pending(b, bits - 2), bits - 2)
  {
    hide PushSextet, TopByte, Pending;
    PushKeepsPending(buffer, v, bits);
    assert ([v] + rest)[1..] == rest;
  }

  method Base64Decode(str: JsString) returns (bytes: Bytes)
    ensures bytes == Decode(str)
  {
    hide LetterValue, PushSextet, TopByte, Unpadded, Pow2, Stream;
    var clean := Unpadded(str);
    bytes := [];
    var buffer: Int32 := 0;
    var bits: int := 0;
    assert clean[0..] == clean;
    for i := 0 to |clean|
      invariant bits == 0 || bits == 2 || bits == 4 || bits == 6
      invariant bytes + Stream(Sextets(clean[i..]), Pending(buffer, bits), bits) == Decode(str)
    {
      assert clean[i..][1..] == clean[i + 1..];
      var v := LetterValue(clean[i]);
      if v.None? {
        assert Sextets(clean[i..]) == Sextets(clean[i + 1..]);
        continue;
      }
      StreamStep(bytes, v.value, Sextets(clean[i + 1..]), buffer, bits);
      buffer := PushSextet(buffer, v.value);
      bits := bits + 6;
      if bits >= 8 {
        bits := bits - 8;
        bytes := bytes + [TopByte(buffer, bits)];
      }
    }
    EmptyStream(Pending(buffer, bits), bits);
    assert Sextets(clean[|clean|..]) == [];
  }

  lemma EmptyStream(pending: nat, bits: PendingBits)
    requires pending < Pow2(bits)
    ensures Stream([], pending, bits) == []
  {
  }

  // ----- round trips

  /** Section 4 of RFC 4648: the sextets of a byte sequence. */
  function SextetsOf(bytes: Bytes): seq<Sextet> {
    if |bytes| >= 3 then
      var n := Word(bytes[0], bytes[1], bytes[2]);
      [Field(n, 0), Field(n, 1), Field(n, 2), Field(n, 3)] + SextetsOf(bytes[3..])
    else if |bytes| == 2 then
      var n := Word(bytes[0], bytes[1], 0);
      [Field(n, 0), Field(n, 1), Field(n, 2)]
    else if |bytes| == 1 then
      var n := Word(bytes[0], 0, 0);
      [Field(n, 0), Field(n, 1)]
    else []
  }

  lemma Divided(q: int, r: int)
    requires 0 <= r < 64
    ensures (q * 64 + r) / 64 == q && (q * 64 + r) % 64 == r
  {
  }

  lemma DividedTwice(n: nat)
    ensures n / 0x1000 == n / 0x40 / 0x40 && n / 0x40000 == n / 0x40 / 0x40 / 0x40
  {
  }

  lemma FieldsOfSum(x: Sextet, y: Sextet, z: Sextet, w: Sextet)
    ensures var n := x * 0x40000 + y * 0x1000 + z * 0x40 + w;
            Field(n, 0) == x && Field(n, 1) == y && Field(n, 2) == z && Field(n, 3) == w
  {
    var n := x * 0x40000 + y * 0x1000 + z * 0x40 + w;
    Divided(x * 0x1000 + y * 0x40 + z, w);
    Divided(x * 0x40 + y, z);
    Divided(x, y);
    DividedTwice(n);
  }

  /** The sum of four sextets in their places; `FieldsOfSum` takes it apart. */
  function Sum(x: int, y: int, z: int, w: int): int {
    x * 0x40000 + y * 0x1000 + z * 0x40 + w
  }

  lemma {:induction false} WordFields(a: Byte, b: Byte, c: Byte)
    ensures var n := Word(a, b, c);
            var x, y, z, w := Field(n, 0), Field(n, 1), Field(n, 2), Field(n, 3);
            && (x * 64 + y) / 16 == a && (x * 64 + y) % 16 == b / 16
            && (b / 16 * 64 + z) / 4 == b && (b / 16 * 64 + z) % 4 == c / 64
            && c / 64 * 64 + w == c
            && (b == 0 && c == 0 ==> y % 16 == 0) && (c == 0 ==> z % 4 == 0)
  {
    var x: int, y: int, z: int, w: int := a / 4, a % 4 * 16 + b / 16, b % 16 * 4 + c / 64, c % 64;
    assert Word(a, b, c) == Sum(x, y, z, w);
    FieldsOfSum(x, y, z, w);
    assert x * 64 + y == a * 16 + b / 16;
    assert b / 16 * 64 + z == b * 4 + c / 64;
  }

  /** The three bytes of four sextets. */
  function Three(x: Sextet, y: Sextet, z: Sextet, w: Sextet): (r: Bytes)
    ensures |r| == 3
  {
    [(x * 64 + y) / 16, ((x * 64 + y) % 16 * 64 + z) / 4, ((x * 64 + y) % 16 * 64 + z) % 4 * 64 + w]
  }

  /** Four sextets with no bits pending give three bytes and leave none pending. */
  lemma StreamFour(x: Sextet, y: Sextet, z: Sextet, w: Sextet, rest: seq<Sextet>)
    ensures Stream([x, y, z, w] + rest, 0, 0) == Three(x, y, z, w) + Stream(rest, 0, 0)
  {
    hide Stream;
    var p := (x * 64 + y) % 16;
    var q := (p * 64 + z) % 4;
    StreamOne(w, rest, q, 2);
    StreamOne(z, [w] + rest, p, 4);
    StreamOne(y, [z, w] + rest, x, 6);
    StreamOne(x, [y, z, w] + rest, 0, 0);
    assert [x] + ([y, z, w] + rest) == [x, y, z, w] + rest;
    assert [y] + ([z, w] + rest) == [y, z, w] + rest;
    assert [z] + ([w] + rest) == [z, w] + rest;
    var tail := Stream(rest, 0, 0);
    var t := Three(x, y, z, w);
    assert t + tail == [t[0]] + ([t[1]] + ([t[2]] + tail));
  }

  lemma StreamOne(v: Sextet, rest: seq<Sextet>, pending: nat, bits: PendingBits)
    requires pending < Pow2(bits)
    ensures bits == 0 ==> Stream([v] + rest, pending, bits) == Stream(rest, v, 6)
    ensures bits > 0 ==>
      var n := pending * 64 + v;
      n / Pow2(bits - 2) < 256
      && Stream([v] + rest, pending, bits) == [n / Pow2(bits - 2)] + Stream(rest, n % Pow2(bits - 2), bits - 2)
  {
    assert ([v] + rest)[1..] == rest;
    if bits > 0 {
      PendingFits(pending, v, bits);
    }
  }

  lemma StreamThree(x: Sextet, y: Sextet, z: Sextet)
    ensures Stream([x, y, z], 0, 0) == [(x * 64 + y) / 16, ((x * 64 + y) % 16 * 64 + z) / 4]
  {
    var p := (x * 64 + y) % 16;
    StreamOne(z, [], p, 4);
    StreamOne(y, [z], x, 6);
    StreamOne(x, [y, z], 0, 0);
    assert [x] + [y, z] == [x, y, z] && [y] + [z] == [y, z] && [z] + [] == [z];
    EmptyStream((p * 64 + z) % 4, 2);
  }

  lemma StreamTwo(x: Sextet, y: Sextet)
    ensures Stream([x, y], 0, 0) == [(x * 64 + y) / 16]
  {
    StreamOne(y, [], x, 6);
    StreamOne(x, [y], 0, 0);
    assert [x] + [y] == [x, y] && [y] + [] == [y];
    EmptyStream((x * 64 + y) % 16, 4);
  }

  lemma {:induction false} StreamOfSextets(bytes: Bytes)
    ensures Stream(SextetsOf(bytes), 0, 0) == bytes
    decreases |bytes|
  {
    hide Field, Word;
    if |bytes| >= 3 {
      WordFields(bytes[0], bytes[1], bytes[2]);
      var n := Word(bytes[0], bytes[1], bytes[2]);
      StreamFour(Field(n, 0), Field(n, 1), Field(n, 2), Field(n, 3), SextetsOf(bytes[3..]));
      StreamOfSextets(bytes[3..]);
      assert bytes == [bytes[0], bytes[1], bytes[2]] + bytes[3..];
    } else if |bytes| == 2 {
      WordFields(bytes[0], bytes[1], 0);
      var n := Word(bytes[0], bytes[1], 0);
      StreamThree(Field(n, 0), Field(n, 1), Field(n, 2));
      assert bytes == [bytes[0], bytes[1]];
    } else if |bytes| == 1 {
      WordFields(bytes[0], 0, 0);
      var n := Word(bytes[0], 0, 0);
      StreamTwo(Field(n, 0), Field(n, 1));
      assert bytes == [bytes[0]];
    } else {
      EmptyStream(0, 0);
    }
  }

  function Letters(vs: seq<Sextet>): JsString {
    if vs == [] then [] else [Letter(vs[0])] + Letters(vs[1..])
  }

  function Padding(k: nat): JsString {
    if k % 3 == 1 then [PAD, PAD] else if k % 3 == 2 then [PAD] else []
  }

  lemma {:induction false} SextetsOfLetters(vs: seq<Sextet>)
    ensures Sextets(Letters(vs)) == vs
    ensures |Letters(vs)| == |vs| && (forall i :: 0 <= i < |vs| ==> Letters(vs)[i] == Letter(vs[i]))
  {
    if vs != [] {
      LetterInverse(vs[0], Letter(vs[0]));
      SextetsOfLetters(vs[1..]);
      assert Letters(vs)[1..] == Letters(vs[1..]);
    }
  }

  lemma {:induction false} LettersAppend(a: seq<Sextet>, b: seq<Sextet>)
    ensures Letters(a + b) == Letters(a) + Letters(b)
    decreases |a|
  {
    if a == [] {
      assert a + b == b;
    } else {
      assert (a + b)[1..] == a[1..] + b;
      LettersAppend(a[1..], b);
    }
  }

  lemma {:induction false} EncodeIsLetters(bytes: Bytes)
    ensures Encode(bytes) == Letters(SextetsOf(bytes)) + Padding(|bytes|)
    decreases |bytes|
  {
    hide Field, Word, Letter, Letters, EncodeRest;
    if |bytes| >= 3 {
      var n := Word(bytes[0], bytes[1], bytes[2]);
      var four := [Field(n, 0), Field(n, 1), Field(n, 2), Field(n, 3)];
      var rest := SextetsOf(bytes[3..]);
      EncodeIsLetters(bytes[3..]);
      LettersAppend(four, rest);
      FewLetters(four);
      assert Letters(four) + (Letters(rest) + Padding(|bytes|)) == (Letters(four) + Letters(rest)) + Padding(|bytes|);
    } else {
      RestIsLetters(bytes);
    }
  }

  lemma {:induction false} RestIsLetters(bytes: Bytes)
    requires |bytes| < 3
    ensures EncodeRest(bytes) == Letters(SextetsOf(bytes)) + Padding(|bytes|)
  {
    hide Field, Word, Letter;
    if |bytes| == 1 {
      var n := Word(bytes[0], 0, 0);
      PaddedTwo(Field(n, 0), Field(n, 1));
    } else if |bytes| == 2 {
      var n := Word(bytes[0], bytes[1], 0);
      PaddedThree(Field(n, 0), Field(n, 1), Field(n, 2));
    }
  }

  lemma PaddedTwo(x: Sextet, y: Sextet)
    ensures [Letter(x), Letter(y), PAD, PAD] == Letters([x, y]) + [PAD, PAD]
  {
    hide Letter, Letters;
    FewLetters([x, y]);
  }

  lemma PaddedThree(x: Sextet, y: Sextet, z: Sextet)
    ensures [Letter(x), Letter(y), Letter(z), PAD] == Letters([x, y, z]) + [PAD]
  {
    hide Letter, Letters;
    FewLetters([x, y, z]);
  }

  lemma FewLetters(vs: seq<Sextet>)
    requires |vs| <= 4
    ensures |vs| == 0 ==> Letters(vs) == []
    ensures |vs| == 2 ==> Letters(vs) == [Letter(vs[0]), Letter(vs[1])]
    ensures |vs| == 3 ==> Letters(vs) == [Letter(vs[0]), Letter(vs[1]), Letter(vs[2])]
    ensures |vs| == 4 ==> Letters(vs) == [Letter(vs[0]), Letter(vs[1]), Letter(vs[2]), Letter(vs[3])]
  {
    SextetsOfLetters(vs);
  }

  lemma UnpaddedIs(s: JsString, pad: JsString)
    requires s == [] || s[|s| - 1] != PAD
    requires forall i :: 0 <= i < |pad| ==> pad[i] == PAD
    ensures Unpadded(s + pad) == s
    decreases |pad|
  {
    if pad == [] {
      assert s + pad == s;
    } else {
      assert (s + pad)[..|s + pad| - 1] == s + pad[..|pad| - 1];
      UnpaddedIs(s, pad[..|pad| - 1]);
    }
  }

  lemma DecodeOfLetters(vs: seq<Sextet>, pad: JsString)
    requires forall i :: 0 <= i < |pad| ==> pad[i] == PAD
    ensures Decode(Letters(vs) + pad) == Stream(vs, 0, 0)
  {
    hide Letter, Stream;
    SextetsOfLetters(vs);
    if vs != [] {
      LetterInverse(vs[|vs| - 1], Letter(vs[|vs| - 1]));
    }
    UnpaddedIs(Letters(vs), pad);
  }

  /** Every byte sequence survives encoding and decoding. */
  lemma {:induction false} DecodeEncode(bytes: Bytes)
    ensures Decode(Encode(bytes)) == bytes
  {
    EncodeIsLetters(bytes);
    DecodeOfLetters(SextetsOf(bytes), Padding(|bytes|));
    StreamOfSextets(bytes);
  }

  lemma {:induction false} SextetsAppend(a: JsString, b: JsString)
    ensures Sextets(a + b) == Sextets(a) + Sextets(b)
    decreases |a|
  {
    hide LetterValue;
    if a == [] {
      assert a + b == b;
    } else {
      assert (a + b)[1..] == a[1..] + b;
      SextetsAppend(a[1..], b);
    }
  }

  /** Characters that are no letters, such as line ends, are skipped. */
  lemma {:induction false} OthersAreSkipped(a: JsString, c: CodeUnit, b: JsString)
    requires !IsLetter(c) && b != [] && b[|b| - 1] != PAD
    ensures Decode(a + [c] + b) == Decode(a + b)
  {
    hide LetterValue, Stream;
    var s, t := a + [c] + b, a + b;
    assert s[|s| - 1] == b[|b| - 1] && t[|t| - 1] == b[|b| - 1];
    assert Unpadded(s) == s && Unpadded(t) == t;
    assert [c][1..] == [];
    assert Sextets([c]) == [];
    hide Sextets, Unpadded;
    SextetsAppend(a + [c], b);
    SextetsAppend(a, [c]);
    SextetsAppend(a, b);
    assert Sextets(a) + [] == Sextets(a);
  }

  // ----- RFC 4648

  /** Table 1 of RFC 4648. */
  function TableLetter(v: Sextet): CodeUnit {
    if v < 26 then 'A' as int + v
    else if v < 52 then 'a' as int + (v - 26)
    else if v < 62 then '0' as int + (v - 52)
    else if v == 62 then '+' as int
    else '/' as int
  }

  /** The bits of a byte, the highest first. */
  function BitOf(b: Byte, p: nat): nat
    requires p < 8
  {
    if p == 0 then b / 128
    else if p == 1 then b / 64 % 2
    else if p == 2 then b / 32 % 2
    else if p == 3 then b / 16 % 2
    else if p == 4 then b / 8 % 2
    else if p == 5 then b / 4 % 2
    else if p == 6 then b / 2 % 2
    else b % 2
  }

  /** The bits of a byte sequence, with zeros added on the right. */
  function BitAt(bytes: Bytes, j: nat): nat {
    if j / 8 < |bytes| then BitOf(bytes[j / 8], j % 8) else 0
  }

  /** Bits 6k to 6k + 5 as a number. */
  function SixBits(bytes: Bytes, k: nat): nat {
    32 * BitAt(bytes, 6 * k) + 16 * BitAt(bytes, 6 * k + 1) + 8 * BitAt(bytes, 6 * k + 2)
    + 4 * BitAt(bytes, 6 * k + 3) + 2 * BitAt(bytes, 6 * k + 4) + BitAt(bytes, 6 * k + 5)
  }

  lemma Halving(b: Byte)
    ensures b / 4 == b / 2 / 2 && b / 8 == b / 4 / 2 && b / 16 == b / 8 / 2
    ensures b / 32 == b / 16 / 2 && b / 64 == b / 32 / 2 && b / 128 == b / 64 / 2
  {
  }

  lemma Half(n: int)
    ensures n == 2 * (n / 2) + n % 2
  {
  }

  lemma Quotients(b: Byte)
    ensures b / 128 < 2
    ensures b == 4 * (b / 4) + b % 4 && b == 16 * (b / 16) + b % 16 && b == 64 * (b / 64) + b % 64
  {
  }

  lemma PartsOfByte(b: Byte)
    ensures b / 4 == 32 * BitOf(b, 0) + 16 * BitOf(b, 1) + 8 * BitOf(b, 2) + 4 * BitOf(b, 3) + 2 * BitOf(b, 4)
                     + BitOf(b, 5)
    ensures b % 4 == 2 * BitOf(b, 6) + BitOf(b, 7)
    ensures b / 16 == 8 * BitOf(b, 0) + 4 * BitOf(b, 1) + 2 * BitOf(b, 2) + BitOf(b, 3)
    ensures b % 16 == 8 * BitOf(b, 4) + 4 * BitOf(b, 5) + 2 * BitOf(b, 6) + BitOf(b, 7)
    ensures b / 64 == 2 * BitOf(b, 0) + BitOf(b, 1)
    ensures b % 64 == 32 * BitOf(b, 2) + 16 * BitOf(b, 3) + 8 * BitOf(b, 4) + 4 * BitOf(b, 5) + 2 * BitOf(b, 6)
                      + BitOf(b, 7)
  {
    Halving(b);
    Quotients(b);
    var h1, h2, h3, h4, h5, h6, h7 := b / 2, b / 4, b / 8, b / 16, b / 32, b / 64, b / 128;
    Bits(b, h1, h2, h3, h4, h5, h6, h7);
    Half(b);
    Half(h1);
    Half(h2);
    Half(h3);
    Half(h4);
    Half(h5);
    Half(h6);
    hide BitOf;
  }

  lemma Bits(b: Byte, h1: int, h2: int, h3: int, h4: int, h5: int, h6: int, h7: int)
    requires h1 == b / 2 && h2 == b / 4 && h3 == b / 8 && h4 == b / 16 && h5 == b / 32 && h6 == b / 64 && h7 == b / 128
    ensures BitOf(b, 0) == h7 && BitOf(b, 1) == h6 % 2 && BitOf(b, 2) == h5 % 2 && BitOf(b, 3) == h4 % 2
    ensures BitOf(b, 4) == h3 % 2 && BitOf(b, 5) == h2 % 2 && BitOf(b, 6) == h1 % 2 && BitOf(b, 7) == b % 2
  {
  }

  lemma FieldsOfBytes(a: Byte, b: Byte, c: Byte)
    ensures var n := Word(a, b, c);
            && Field(n, 0) == a / 4 && Field(n, 1) == a % 4 * 16 + b / 16
            && Field(n, 2) == b % 16 * 4 + c / 64 && Field(n, 3) == c % 64
  {
    hide Field;
    assert Word(a, b, c) == Sum(a / 4, a % 4 * 16 + b / 16, b % 16 * 4 + c / 64, c % 64);
    FieldsOfSum(a / 4, a % 4 * 16 + b / 16, b % 16 * 4 + c / 64, c % 64);
  }

  function ByteOrZero(bytes: Bytes, i: nat): Byte {
    if i < |bytes| then bytes[i] else 0
  }

  lemma BitIs(bytes: Bytes, i: nat, p: nat)
    requires p < 8
    ensures BitAt(bytes, 8 * i + p) == BitOf(ByteOrZero(bytes, i), p)
  {
    assert (8 * i + p) / 8 == i && (8 * i + p) % 8 == p;
  }

  lemma {:induction false} FirstSixBits(bytes: Bytes, k: nat)
    requires k < 4
    ensures Field(Word(ByteOrZero(bytes, 0), ByteOrZero(bytes, 1), ByteOrZero(bytes, 2)), k) == SixBits(bytes, k)
  {
    hide Field, Word, BitOf, BitAt;
    var a, b, c := ByteOrZero(bytes, 0), ByteOrZero(bytes, 1), ByteOrZero(bytes, 2);
    FieldsOfBytes(a, b, c);
    PartsOfByte(a);
    PartsOfByte(b);
    PartsOfByte(c);
    forall p: nat | p < 8
      ensures BitAt(bytes, p) == BitOf(a, p) && BitAt(bytes, p + 8) == BitOf(b, p)
      ensures BitAt(bytes, p + 16) == BitOf(c, p)
    {
      BitIs(bytes, 0, p);
      BitIs(bytes, 1, p);
      BitIs(bytes, 2, p);
    }
    if k == 0 {
    } else if k == 1 {
      assert BitAt(bytes, 0 + 8) == BitOf(b, 0) && BitAt(bytes, 1 + 8) == BitOf(b, 1);
      assert BitAt(bytes, 2 + 8) == BitOf(b, 2) && BitAt(bytes, 3 + 8) == BitOf(b, 3);
    } else if k == 2 {
      assert BitAt(bytes, 4 + 8) == BitOf(b, 4) && BitAt(bytes, 5 + 8) == BitOf(b, 5);
      assert BitAt(bytes, 6 + 8) == BitOf(b, 6) && BitAt(bytes, 7 + 8) == BitOf(b, 7);
      assert BitAt(bytes, 0 + 16) == BitOf(c, 0) && BitAt(bytes, 1 + 16) == BitOf(c, 1);
    } else {
      assert BitAt(bytes, 2 + 16) == BitOf(c, 2) && BitAt(bytes, 3 + 16) == BitOf(c, 3);
      assert BitAt(bytes, 4 + 16) == BitOf(c, 4) && BitAt(bytes, 5 + 16) == BitOf(c, 5);
      assert BitAt(bytes, 6 + 16) == BitOf(c, 6) && BitAt(bytes, 7 + 16) == BitOf(c, 7);
    }
  }

  lemma LaterBit(bytes: Bytes, j: nat)
    requires |bytes| >= 3
    ensures BitAt(bytes, j + 24) == BitAt(bytes[3..], j)
  {
    hide BitOf;
    assert (j + 24) / 8 == j / 8 + 3 && (j + 24) % 8 == j % 8;
  }

  lemma LaterSixBits(bytes: Bytes, k: nat)
    requires |bytes| >= 3
    ensures SixBits(bytes, k + 4) == SixBits(bytes[3..], k)
  {
    hide BitAt;
    var j := 6 * k;
    LaterBit(bytes, j);
    LaterBit(bytes, j + 1);
    LaterBit(bytes, j + 2);
    LaterBit(bytes, j + 3);
    LaterBit(bytes, j + 4);
    LaterBit(bytes, j + 5);
  }

  /** What stands at place `k` of the base64 form. */
  function LetterAt(bytes: Bytes, k: nat): CodeUnit {
    if 6 * k >= 8 * |bytes| then '=' as int else if SixBits(bytes, k) < 64 then TableLetter(SixBits(bytes, k)) else 0
  }

  lemma FirstLetter(bytes: Bytes, k: nat)
    requires k < 4
    ensures var v := Field(Word(ByteOrZero(bytes, 0), ByteOrZero(bytes, 1), ByteOrZero(bytes, 2)), k);
            6 * k < 8 * |bytes| ==> Letter(v) == LetterAt(bytes, k)
  {
    hide Field, Word, SixBits, ByteOrZero;
    FirstSixBits(bytes, k);
  }

  lemma FirstLetters(bytes: Bytes, k: nat)
    requires bytes != [] && k < 4
    ensures |bytes| >= 3 ==> EncodeThree(bytes[0], bytes[1], bytes[2])[k] == LetterAt(bytes, k)
    ensures |bytes| < 3 ==> |EncodeRest(bytes)| == 4 && EncodeRest(bytes)[k] == LetterAt(bytes, k)
  {
    hide Field, Word, SixBits, Letter;
    FirstLetter(bytes, k);
  }

  lemma LaterLetter(bytes: Bytes, k: nat)
    requires |bytes| >= 3
    ensures LetterAt(bytes, k + 4) == LetterAt(bytes[3..], k)
  {
    hide SixBits, TableLetter;
    LaterSixBits(bytes, k);
  }

  lemma {:induction false} EncodedLength(bytes: Bytes)
    ensures |Encode(bytes)| == (|bytes| + 2) / 3 * 4
    decreases |bytes|
  {
    hide EncodeThree, EncodeRest;
    if |bytes| >= 3 {
      EncodedLength(bytes[3..]);
      FourLetters(bytes[0], bytes[1], bytes[2]);
    } else {
      RestLength(bytes);
    }
  }

  lemma RestLength(bytes: Bytes)
    requires |bytes| < 3
    ensures |EncodeRest(bytes)| == if bytes == [] then 0 else 4
  {
  }

  lemma FourLetters(a: Byte, b: Byte, c: Byte)
    ensures |EncodeThree(a, b, c)| == 4
  {
  }

  /** Section 4 of RFC 4648: a letter of the table for every six bits, then padding to a multiple of four. */
  lemma {:induction false} EncodeIsRfc4648(bytes: Bytes, k: nat)
    requires k < (|bytes| + 2) / 3 * 4
    ensures |Encode(bytes)| == (|bytes| + 2) / 3 * 4
    ensures Encode(bytes)[k] == LetterAt(bytes, k)
    decreases |bytes|
  {
    hide EncodeRest, EncodeThree, LetterAt;
    EncodedLength(bytes);
    if |bytes| < 3 {
      FirstLetters(bytes, k);
    } else {
      EncodeFront(bytes, bytes[3..]);
      FourLetters(bytes[0], bytes[1], bytes[2]);
      hide Encode;
      if k < 4 {
        FirstLetters(bytes, k);
      } else {
        EncodeIsRfc4648(bytes[3..], k - 4);
        LaterLetter(bytes, k - 4);
      }
    }
  }

  // ----- canonical texts

  predicate IsLetter(c: CodeUnit) {
    LetterValue(c).Some?
  }

  /** Sections 3.5 and 4 of RFC 4648: groups of four, padded at the end only, with zero bits under the padding. */
  predicate Canonical(s: JsString) {
    if s == [] then true
    else if |s| < 4 || !IsLetter(s[0]) || !IsLetter(s[1]) then false
    else if IsLetter(s[2]) && IsLetter(s[3]) then Canonical(s[4..])
    else if IsLetter(s[2]) then |s| == 4 && s[3] == PAD && LetterValue(s[2]).value % 4 == 0
    else |s| == 4 && s[2] == PAD && s[3] == PAD && LetterValue(s[1]).value % 16 == 0
  }

  lemma {:induction false} EncodedIsCanonical(bytes: Bytes)
    ensures Canonical(Encode(bytes))
    decreases |bytes|
  {
    hide Field, Word, LetterValue, Letter;
    if |bytes| >= 3 {
      var n := Word(bytes[0], bytes[1], bytes[2]);
      forall k: nat | k < 4
        ensures LetterValue(Letter(Field(n, k))) == Some(Field(n, k))
      {
        LetterInverse(Field(n, k), Letter(Field(n, k)));
      }
      var group := EncodeThree(bytes[0], bytes[1], bytes[2]);
      assert Encode(bytes)[4..] == Encode(bytes[3..]);
      EncodedIsCanonical(bytes[3..]);
    } else if |bytes| > 0 {
      var b := if |bytes| == 2 then bytes[1] else 0;
      var n := Word(bytes[0], b, 0);
      WordFields(bytes[0], b, 0);
      PadIsNoLetter();
      forall k: nat | k < 4
        ensures LetterValue(Letter(Field(n, k))) == Some(Field(n, k))
      {
        LetterInverse(Field(n, k), Letter(Field(n, k)));
      }
    }
  }

  lemma PadIsNoLetter()
    ensures LetterValue(PAD) == None
  {
  }

  /** Three bytes put together are the four sextets they came from. */
  lemma {:induction false} GroupRoundTrip(x: Sextet, y: Sextet, z: Sextet, w: Sextet)
    ensures var t := Three(x, y, z, w);
            var n := Word(t[0], t[1], t[2]);
            Field(n, 0) == x && Field(n, 1) == y && Field(n, 2) == z && Field(n, 3) == w
  {
    hide Field;
    var p: int, q: int := (x * 64 + y) % 16, ((x * 64 + y) % 16 * 64 + z) % 4;
    var a: int, b: int, c: int := (x * 64 + y) / 16, (p * 64 + z) / 4, q * 64 + w;
    assert x * 64 + y == a * 16 + p;
    assert p * 64 + z == b * 4 + q;
    assert a * 0x10000 + b * 0x100 + c == Sum(x, y, z, w);
    FieldsOfSum(x, y, z, w);
  }

  /** The bytes under the padding of a canonical group are zero. */
  lemma PaddedGroup(x: Sextet, y: Sextet, z: Sextet)
    ensures z % 4 == 0 ==> Three(x, y, z, 0)[2] == 0
    ensures y % 16 == 0 ==> Three(x, y, 0, 0)[1] == 0 && Three(x, y, 0, 0)[2] == 0
  {
    assert x * 64 + y == 16 * (x * 4) + y && (x * 64 + y) % 16 == y % 16;
    assert ((x * 64 + y) % 16 * 64 + z) % 4 == z % 4;
  }

  lemma {:induction false} EncodeDecodeCanonical(s: JsString)
    requires Canonical(s)
    ensures Encode(Decode(s)) == s
    decreases |s|
  {
    hide Field, Word, Letter, LetterValue, Stream;
    if s == [] {
      EmptyStream(0, 0);
    } else {
      PadIsNoLetter();
      var x, y := LetterValue(s[0]).value, LetterValue(s[1]).value;
      LetterInverse(x, s[0]);
      LetterInverse(y, s[1]);
      if IsLetter(s[2]) && IsLetter(s[3]) {
        FullGroup(s);
        EncodeDecodeCanonical(s[4..]);
      } else if IsLetter(s[2]) {
        var z := LetterValue(s[2]).value;
        LetterInverse(z, s[2]);
        GroupRoundTrip(x, y, z, 0);
        PaddedGroup(x, y, z);
        FewLetters([x, y, z]);
        StreamThree(x, y, z);
        DecodeOfLetters([x, y, z], [PAD]);
        assert s == [s[0], s[1], s[2]] + [PAD];
      } else {
        GroupRoundTrip(x, y, 0, 0);
        PaddedGroup(x, y, 0);
        FewLetters([x, y]);
        StreamTwo(x, y);
        DecodeOfLetters([x, y], [PAD, PAD]);
        assert s == [s[0], s[1]] + [PAD, PAD];
      }
    }
  }

  /** A canonical text after a full group, as letters and padding. */
  lemma SplitCanonical(s: JsString, four: seq<Sextet>) returns (vs: seq<Sextet>, pad: JsString)
    requires |s| >= 4 && Letters(four) == s[..4] && Canonical(s[4..])
    ensures s[4..] == Letters(vs) + pad && s == Letters(four + vs) + pad
    ensures forall i :: 0 <= i < |pad| ==> pad[i] == PAD
  {
    hide Letters, CanonicalSextets, CanonicalPad, Canonical;
    CanonicalIsLetters(s[4..]);
    vs, pad := CanonicalSextets(s[4..]), CanonicalPad(s[4..]);
    PadIsPad(s[4..]);
    LettersAppend(four, vs);
    assert (Letters(four) + Letters(vs)) + pad == Letters(four) + (Letters(vs) + pad);
    assert s == s[..4] + s[4..];
  }

  /** A full group in front of a canonical text is decoded by itself. */
  lemma DecodeFullGroup(s: JsString, x: Sextet, y: Sextet, z: Sextet, w: Sextet)
    requires |s| >= 4 && Letters([x, y, z, w]) == s[..4] && Canonical(s[4..])
    ensures Decode(s) == Three(x, y, z, w) + Decode(s[4..])
  {
    hide Stream, Decode, Canonical, Three, Letters;
    var vs, pad := SplitCanonical(s, [x, y, z, w]);
    DecodeOfLetters([x, y, z, w] + vs, pad);
    DecodeOfLetters(vs, pad);
    StreamFour(x, y, z, w, vs);
  }

  lemma PadIsPad(s: JsString)
    ensures forall i :: 0 <= i < |CanonicalPad(s)| ==> CanonicalPad(s)[i] == PAD
  {
  }

  lemma {:induction false} FullGroup(s: JsString)
    requires Canonical(s) && |s| >= 4 && IsLetter(s[0]) && IsLetter(s[1]) && IsLetter(s[2]) && IsLetter(s[3])
    ensures Encode(Decode(s)) == s[..4] + Encode(Decode(s[4..]))
  {
    var x, y := LetterValue(s[0]).value, LetterValue(s[1]).value;
    var z, w := LetterValue(s[2]).value, LetterValue(s[3]).value;
    LetterInverse(x, s[0]);
    LetterInverse(y, s[1]);
    LetterInverse(z, s[2]);
    LetterInverse(w, s[3]);
    hide Field, Word, Letter, LetterValue, Encode, Decode, Three;
    FewLetters([x, y, z, w]);
    assert s[..4] == [s[0], s[1], s[2], s[3]];
    DecodeFullGroup(s, x, y, z, w);
    GroupRoundTrip(x, y, z, w);
    var bytes := Decode(s);
    assert bytes[3..] == Decode(s[4..]) && bytes[..3] == Three(x, y, z, w);
    EncodeFront(bytes, Decode(s[4..]));
    assert EncodeThree(bytes[0], bytes[1], bytes[2]) == s[..4];
  }

  lemma EncodeFront(bytes: Bytes, rest: Bytes)
    requires |bytes| >= 3 && bytes[3..] == rest
    ensures Encode(bytes) == EncodeThree(bytes[0], bytes[1], bytes[2]) + Encode(rest)
  {
  }

  function CanonicalPad(s: JsString): JsString {
    if |s| >= 2 && s[|s| - 2] == PAD then [PAD, PAD] else if |s| >= 1 && s[|s| - 1] == PAD then [PAD] else []
  }

  function CanonicalSextets(s: JsString): seq<Sextet> {
    if |s| >= |CanonicalPad(s)| then Sextets(s[..|s| - |CanonicalPad(s)|]) else []
  }

  lemma {:induction false} CanonicalIsLetters(s: JsString)
    requires Canonical(s)
    ensures s == Letters(CanonicalSextets(s)) + CanonicalPad(s)
    decreases |s|
  {
    hide Letter, LetterValue;
    var front := s[..|s| - |CanonicalPad(s)|];
    FrontIsLetters(s);
    LettersOfSextets(front);
    assert s == front + CanonicalPad(s);
  }

  lemma {:induction false} FrontIsLetters(s: JsString)
    requires Canonical(s)
    ensures |CanonicalPad(s)| <= |s| && s == s[..|s| - |CanonicalPad(s)|] + CanonicalPad(s)
    ensures forall i :: 0 <= i < |s| - |CanonicalPad(s)| ==> IsLetter(s[i])
    decreases |s|
  {
    hide LetterValue;
    PadIsNoLetter();
    if |s| > 4 {
      var t := s[4..];
      FrontIsLetters(t);
      assert CanonicalPad(s) == CanonicalPad(t);
      assert forall i :: 4 <= i < |s| ==> s[i] == t[i - 4];
    }
  }

  lemma {:induction false} LettersOfSextets(s: JsString)
    requires forall i :: 0 <= i < |s| ==> IsLetter(s[i])
    ensures Letters(Sextets(s)) == s
    decreases |s|
  {
    if s != [] {
      LetterInverse(LetterValue(s[0]).value, s[0]);
      LettersOfSextets(s[1..]);
      assert Sextets(s)[1..] == Sextets(s[1..]);
      assert s == [s[0]] + s[1..];
    }
  }

  /** A text is its own re-encoding exactly when it is canonical. */
  lemma {:induction false} EncodeDecode(s: JsString)
    ensures Encode(Decode(s)) == s <==> Canonical(s)
  {
    EncodedIsCanonical(Decode(s));
    if Canonical(s) {
      EncodeDecodeCanonical(s);
    }
  }
}
