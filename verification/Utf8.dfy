/**
 The UTF-8 codec of examples/pgwire.js, from UTF-16 code units to bytes and
 back. Shifts and masks of the source are divisions and remainders here, and an
 or of disjoint bit fields is a sum.
 */
module Utf8 {
  import opened JsStrings

  predicate IsHigh(c: CodeUnit) {
    0xd800 <= c <= 0xdbff
  }

  predicate IsLow(c: CodeUnit) {
    0xdc00 <= c <= 0xdfff
  }

  // ----- encoding

  predicate StartsPair(s: JsString) {
    |s| >= 2 && IsHigh(s[0]) && IsLow(s[1])
  }

  type CodePoint = c: int | 0 <= c < 0x110000

  /** The code point of a surrogate pair. */
  function PairCode(high: int, low: int): int {
    0x10000 + (high - 0xd800) * 1024 + (low - 0xdc00)
  }

  /** The code point encoded next: a surrogate pair's, or the unit itself, lone surrogates included. */
  function NextCode(s: JsString): CodePoint
    requires s != []
  {
    if StartsPair(s) then PairCode(s[0], s[1]) else s[0]
  }

  function NextLength(s: JsString): (k: nat)
    requires s != []
    ensures 1 <= k <= |s|
  {
    if StartsPair(s) then 2 else 1
  }

  function EncodeCode(code: CodePoint): Bytes {
    if code < 0x80 then [code]
    else if code < 0x800 then [0xc0 + code / 0x40, 0x80 + code % 0x40]
    else if code < 0x10000 then [0xe0 + code / 0x1000, 0x80 + code / 0x40 % 0x40, 0x80 + code % 0x40]
    else [0xf0 + code / 0x40000, 0x80 + code / 0x1000 % 0x40, 0x80 + code / 0x40 % 0x40, 0x80 + code % 0x40]
  }

  function Encode(s: JsString): Bytes {
    if s == [] then [] else EncodeCode(NextCode(s)) + Encode(s[NextLength(s)..])
  }

  lemma EncodeStep(bytes: Bytes, s: JsString, i: nat)
    requires i < |s|
    ensures bytes + Encode(s[i..])
         == (bytes + EncodeCode(NextCode(s[i..]))) + Encode(s[i + NextLength(s[i..])..])
  {
    hide EncodeCode, NextCode;
    var k := NextLength(s[i..]);
    assert s[i..][k..] == s[i + k..];
  }

  method Utf8Encode(str: JsString) returns (bytes: Bytes)
    ensures bytes == Encode(str)
  {
    hide EncodeCode, Encode, PairCode;
    bytes := [];
    var i := 0;
    assert str[0..] == str;
    while i < |str|
      invariant 0 <= i <= |str|
      invariant bytes + Encode(str[i..]) == Encode(str)
    {
      EncodeStep(bytes, str, i);
      var code: CodePoint := str[i];
      var width := 1;
      if 0xd800 <= str[i] <= 0xdbff && i + 1 < |str| {
        var low := str[i + 1];
        if 0xdc00 <= low <= 0xdfff {
          PairCodeIsCodePoint(str[i], low);
          code := PairCode(str[i], low);
          width := 2;
        }
      }
      bytes := bytes + EncodeCode(code);
      i := i + width;
    }
    EncodeNothing(str);
  }

  lemma PairCodeIsCodePoint(high: int, low: int)
    requires 0xd800 <= high <= 0xdbff && 0xdc00 <= low <= 0xdfff
    ensures 0x10000 <= PairCode(high, low) < 0x110000
  {
  }

  lemma EncodeNothing(s: JsString)
    ensures Encode(s[|s|..]) == []
  {
  }

  // ----- decoding

  /** The low six bits of a byte read at `i`; a read past the array's end is `undefined`, which masks to 0. */
  function Low6(u8: Bytes, i: nat): nat {
    if i < |u8| then u8[i] % 0x40 else 0
  }

  datatype Decoded = Decoded(units: JsString, width: nat)

  /** One round of the decoding loop; past the array's end every comparison with `undefined` fails. */
  function DecodeOne(u8: Bytes, i: nat): (r: Decoded)
    ensures 1 <= r.width <= 4
  {
    if i < |u8| && u8[i] < 0x80 then Decoded([u8[i]], 1)
    else if i < |u8| && 0xc0 <= u8[i] < 0xe0 then
      Decoded([u8[i] % 0x20 * 0x40 + Low6(u8, i + 1)], 2)
    else if i < |u8| && 0xe0 <= u8[i] < 0xf0 then
      Decoded([u8[i] % 0x10 * 0x1000 + Low6(u8, i + 1) * 0x40 + Low6(u8, i + 2)], 3)
    else
      var lead := if i < |u8| then u8[i] % 8 else 0;
      var above := lead * 0x40000 + Low6(u8, i + 1) * 0x1000 + Low6(u8, i + 2) * 0x40 + Low6(u8, i + 3) - 0x10000;
      Decoded([(0xd800 + above / 1024) % 0x10000, 0xdc00 + above % 1024], 4)
  }

  function DecodeRange(u8: Bytes, i: nat, end: nat): JsString
    decreases end - i
  {
    if i >= end then [] else DecodeOne(u8, i).units + DecodeRange(u8, i + DecodeOne(u8, i).width, end)
  }

  method Utf8Decode(u8: Bytes, start: nat, end: nat) returns (s: JsString)
    ensures s == DecodeRange(u8, start, end)
  {
    hide DecodeOne;
    s := [];
    var i := start;
    while i < end
      invariant s + DecodeRange(u8, i, end) == DecodeRange(u8, start, end)
      decreases end - i
    {
      var one := DecodeOne(u8, i);
      assert s + (one.units + DecodeRange(u8, i + one.width, end))
         == s + one.units + DecodeRange(u8, i + one.width, end);
      s := s + one.units;
      i := i + one.width;
    }
  }

  // ----- round trip

  predicate BytesAt(u8: Bytes, i: nat, bytes: Bytes) {
    i + |bytes| <= |u8| && forall k :: 0 <= k < |bytes| ==> u8[i + k] == bytes[k]
  }

  /** The code units a code point is decoded to. */
  function UnitsOf(code: CodePoint): JsString {
    if code < 0x10000 then [code]
    else [0xd800 + (code - 0x10000) / 1024, 0xdc00 + (code - 0x10000) % 1024]
  }

  lemma UnitsOfNext(s: JsString)
    requires s != []
    ensures UnitsOf(NextCode(s)) == s[..NextLength(s)]
  {
    if StartsPair(s) {
      var high: int, low: int := s[0] - 0xd800, s[1] - 0xdc00;
      assert NextCode(s) - 0x10000 == high * 1024 + low;
      assert s[..2] == [s[0], s[1]];
    } else {
      assert s[..1] == [s[0]];
    }
  }

  /** A code point is the sum of its six-bit fields. */
  lemma Fields(code: CodePoint)
    ensures code == code / 0x40 * 0x40 + code % 0x40
    ensures code / 0x40 == code / 0x1000 * 0x40 + code / 0x40 % 0x40
    ensures code / 0x1000 == code / 0x40000 * 0x40 + code / 0x1000 % 0x40
    ensures code < 0x800 ==> code / 0x40 < 0x20
    ensures code < 0x10000 ==> code / 0x1000 < 0x10
    ensures code / 0x40000 < 8
  {
  }

  lemma DecodeShort(u8: Bytes, i: nat, code: CodePoint)
    requires code < 0x800 && BytesAt(u8, i, EncodeCode(code))
    ensures DecodeOne(u8, i) == Decoded(UnitsOf(code), |EncodeCode(code)|)
  {
    var bytes := EncodeCode(code);
    assert u8[i + 0] == bytes[0];
    if code >= 0x80 {
      assert u8[i + 1] == bytes[1];
      Fields(code);
      assert bytes[0] % 0x20 == code / 0x40;
    }
  }

  lemma DecodeThree(u8: Bytes, i: nat, code: CodePoint)
    requires 0x800 <= code < 0x10000 && BytesAt(u8, i, EncodeCode(code))
    ensures DecodeOne(u8, i) == Decoded(UnitsOf(code), |EncodeCode(code)|)
  {
    var bytes := EncodeCode(code);
    assert u8[i + 0] == bytes[0] && u8[i + 1] == bytes[1] && u8[i + 2] == bytes[2];
    Fields(code);
    assert bytes[0] % 0x10 == code / 0x1000;
    assert Low6(u8, i + 1) == code / 0x40 % 0x40 && Low6(u8, i + 2) == code % 0x40;
  }

  lemma {:induction false} DecodeFields(u8: Bytes, i: nat, a: int, b: int, c: int, d: int)
    requires i + 4 <= |u8| && 0 <= a < 8 && 0 <= b < 0x40 && 0 <= c < 0x40 && 0 <= d < 0x40
    requires u8[i] == 0xf0 + a && u8[i + 1] == 0x80 + b && u8[i + 2] == 0x80 + c && u8[i + 3] == 0x80 + d
    requires 0x10000 <= a * 0x40000 + b * 0x1000 + c * 0x40 + d < 0x110000
    ensures DecodeOne(u8, i) == Decoded(UnitsOf(a * 0x40000 + b * 0x1000 + c * 0x40 + d), 4)
  {
    assert u8[i] % 8 == a;
    assert Low6(u8, i + 1) == b && Low6(u8, i + 2) == c && Low6(u8, i + 3) == d;
  }

  lemma DecodeFour(u8: Bytes, i: nat, code: CodePoint)
    requires 0x10000 <= code && BytesAt(u8, i, EncodeCode(code))
    ensures DecodeOne(u8, i) == Decoded(UnitsOf(code), |EncodeCode(code)|)
  {
    hide DecodeOne, UnitsOf;
    var bytes := EncodeCode(code);
    assert u8[i + 0] == bytes[0] && u8[i + 1] == bytes[1] && u8[i + 2] == bytes[2] && u8[i + 3] == bytes[3];
    Fields(code);
    DecodeFields(u8, i, code / 0x40000, code / 0x1000 % 0x40, code / 0x40 % 0x40, code % 0x40);
  }

  lemma DecodeEncodedCode(u8: Bytes, i: nat, s: JsString)
    requires s != [] && BytesAt(u8, i, EncodeCode(NextCode(s)))
    ensures DecodeOne(u8, i) == Decoded(s[..NextLength(s)], |EncodeCode(NextCode(s))|)
  {
    hide EncodeCode, DecodeOne, UnitsOf, NextCode, BytesAt;
    var code := NextCode(s);
    UnitsOfNext(s);
    if code < 0x800 {
      DecodeShort(u8, i, code);
    } else if code < 0x10000 {
      DecodeThree(u8, i, code);
    } else {
      DecodeFour(u8, i, code);
    }
  }

  /** Decoding gives back every string that was encoded, wherever its bytes stand. */
  lemma {:induction false} DecodeEncode(u8: Bytes, i: nat, s: JsString)
    requires BytesAt(u8, i, Encode(s))
    ensures DecodeRange(u8, i, i + |Encode(s)|) == s
    decreases |s|
  {
    hide EncodeCode, DecodeOne;
    if s != [] {
      var head, rest := EncodeCode(NextCode(s)), s[NextLength(s)..];
      assert Encode(s) == head + Encode(rest);
      forall k | 0 <= k < |head|
        ensures u8[i + k] == head[k]
      {
        assert Encode(s)[k] == head[k];
      }
      forall k | 0 <= k < |Encode(rest)|
        ensures u8[i + |head| + k] == Encode(rest)[k]
      {
        assert Encode(s)[|head| + k] == Encode(rest)[k];
      }
      DecodeEncodedCode(u8, i, s);
      DecodeEncode(u8, i + |head|, rest);
      assert s == s[..NextLength(s)] + rest;
      NonEmpty(NextCode(s));
    }
  }

  lemma NonEmpty(code: CodePoint)
    ensures EncodeCode(code) != []
  {
  }

  // ----- RFC 3629

  predicate IsContinuation(b: Byte) {
    0x80 <= b <= 0xbf
  }

  /** The bits a byte carries below its marker. */
  function Payload(b: int, marker: int): int {
    b - marker
  }

  /** Section 3 of RFC 3629: the shortest form whose marked bytes carry the bits of the code point. */
  predicate IsSequenceFor(b: Bytes, code: CodePoint) {
    if |b| == 1 then b[0] <= 0x7f && code == b[0]
    else if |b| == 2 then
      && 0xc0 <= b[0] <= 0xdf && IsContinuation(b[1])
      && 0x80 <= code == Payload(b[0], 0xc0) * 0x40 + Payload(b[1], 0x80)
    else if |b| == 3 then
      && 0xe0 <= b[0] <= 0xef && IsContinuation(b[1]) && IsContinuation(b[2])
      && 0x800 <= code == Payload(b[0], 0xe0) * 0x1000 + Payload(b[1], 0x80) * 0x40 + Payload(b[2], 0x80)
    else
      && |b| == 4 && 0xf0 <= b[0] <= 0xf7 && IsContinuation(b[1]) && IsContinuation(b[2]) && IsContinuation(b[3])
      && 0x10000 <= code == Payload(b[0], 0xf0) * 0x40000 + Payload(b[1], 0x80) * 0x1000
                           + Payload(b[2], 0x80) * 0x40 + Payload(b[3], 0x80)
  }

  lemma {:induction false} SequenceIsUnique(b: Bytes, c: Bytes, code: CodePoint)
    requires IsSequenceFor(b, code) && IsSequenceFor(c, code)
    ensures b == c
  {
    if |b| == 1 {
      assert b == [b[0]] && c == [c[0]];
    } else if |b| == 2 {
      assert b == [b[0], b[1]] && c == [c[0], c[1]];
    } else if |b| == 3 {
      assert b == [b[0], b[1], b[2]] && c == [c[0], c[1], c[2]];
    } else {
      assert b == [b[0], b[1], b[2], b[3]] && c == [c[0], c[1], c[2], c[3]];
    }
  }

  /** The bytes of a code point are its one RFC 3629 sequence. */
  lemma {:induction false} EncodeCodeIsRfc3629(b: Bytes, code: CodePoint)
    ensures b == EncodeCode(code) <==> IsSequenceFor(b, code)
  {
    EncodedIsSequence(code);
    hide EncodeCode, IsSequenceFor;
    if IsSequenceFor(b, code) {
      SequenceIsUnique(b, EncodeCode(code), code);
    }
  }

  lemma {:induction false} EncodedIsSequence(code: CodePoint)
    ensures IsSequenceFor(EncodeCode(code), code)
  {
    Fields(code);
  }

  /** Section 2.1 of RFC 2781: the ten low bits of the two units, put together, are the code point less 0x10000. */
  lemma {:induction false} PairIsUtf16(high: CodeUnit, low: CodeUnit)
    requires IsHigh(high) && IsLow(low)
    ensures PairCode(high, low) - 0x10000 == high % 0x400 * 0x400 + low % 0x400
  {
    assert high == 0xd800 + high % 0x400;
    assert low == 0xdc00 + low % 0x400;
  }

  predicate WellFormedUtf16(s: JsString) {
    if s == [] then true
    else if StartsPair(s) then WellFormedUtf16(s[2..])
    else !IsHigh(s[0]) && !IsLow(s[0]) && WellFormedUtf16(s[1..])
  }

  /** The length of the character at the front by the grammar of section 4 of RFC 3629; 0 if there is none. */
  function CharacterLength(b: Bytes): (k: nat)
    ensures k <= |b|
  {
    if b == [] then 0
    else if b[0] <= 0x7f then 1
    else if |b| >= 2 && 0xc2 <= b[0] <= 0xdf && IsContinuation(b[1]) then 2
    else if |b| >= 3 && 0xe0 <= b[0] <= 0xef && IsContinuation(b[1]) && IsContinuation(b[2])
            && (b[0] == 0xe0 ==> b[1] >= 0xa0) && (b[0] == 0xed ==> b[1] <= 0x9f) then 3
    else if |b| >= 4 && 0xf0 <= b[0] <= 0xf4 && IsContinuation(b[1]) && IsContinuation(b[2]) && IsContinuation(b[3])
            && (b[0] == 0xf0 ==> b[1] >= 0x90) && (b[0] == 0xf4 ==> b[1] <= 0x8f) then 4
    else 0
  }

  predicate IsUtf8(b: Bytes) {
    b == [] || (CharacterLength(b) > 0 && IsUtf8(b[CharacterLength(b)..]))
  }

  lemma ShortCharacter(code: CodePoint, rest: Bytes)
    requires code < 0x800
    ensures CharacterLength(EncodeCode(code) + rest) == |EncodeCode(code)|
  {
    var e := EncodeCode(code);
    var b := e + rest;
    assert b[0] == e[0];
    if code >= 0x80 {
      assert b[1] == e[1];
    }
  }

  lemma ThreeByteCharacter(code: CodePoint, rest: Bytes)
    requires 0x800 <= code < 0x10000
    ensures CharacterLength(EncodeCode(code) + rest) == if 0xd800 <= code <= 0xdfff then 0 else 3
  {
    var e := EncodeCode(code);
    var b := e + rest;
    assert b[0] == e[0] && b[1] == e[1] && b[2] == e[2];
    Fields(code);
  }

  lemma FourByteCharacter(code: CodePoint, rest: Bytes)
    requires 0x10000 <= code
    ensures CharacterLength(EncodeCode(code) + rest) == 4
  {
    var e := EncodeCode(code);
    var b := e + rest;
    assert b[0] == e[0] && b[1] == e[1] && b[2] == e[2] && b[3] == e[3];
    Fields(code);
  }

  lemma EncodedCharacter(code: CodePoint, rest: Bytes)
    ensures CharacterLength(EncodeCode(code) + rest)
         == if 0xd800 <= code <= 0xdfff then 0 else |EncodeCode(code)|
  {
    hide CharacterLength;
    if code < 0x800 {
      ShortCharacter(code, rest);
    } else if code < 0x10000 {
      ThreeByteCharacter(code, rest);
    } else {
      FourByteCharacter(code, rest);
    }
  }

  /** The bytes are valid UTF-8 exactly when the string has no lone surrogate. */
  lemma {:induction false} ValidExactlyWhenWellFormed(s: JsString)
    ensures IsUtf8(Encode(s)) <==> WellFormedUtf16(s)
    decreases |s|
  {
    hide EncodeCode, CharacterLength;
    if s != [] {
      var head, rest := EncodeCode(NextCode(s)), s[NextLength(s)..];
      EncodedCharacter(NextCode(s), Encode(rest));
      NonEmpty(NextCode(s));
      assert (head + Encode(rest))[|head|..] == Encode(rest);
      ValidExactlyWhenWellFormed(rest);
    }
  }

  /** A zero byte stands for U+0000 and nothing else. */
  lemma {:induction false} ZeroByteIsNul(s: JsString)
    ensures 0 in Encode(s) <==> 0 in s
    decreases |s|
  {
    if s != [] {
      var rest := s[NextLength(s)..];
      ZeroByteIsNul(rest);
      assert s == s[..NextLength(s)] + rest;
      assert 0 in s <==> 0 in s[..NextLength(s)] || 0 in rest;
      ZeroInCode(s);
    }
  }

  lemma ZeroInCode(s: JsString)
    requires s != []
    ensures 0 in EncodeCode(NextCode(s)) <==> 0 in s[..NextLength(s)]
  {
    var head := s[..NextLength(s)];
    assert head[0] == s[0];
    if StartsPair(s) {
      assert head == [s[0], s[1]];
    } else {
      assert head == [s[0]];
    }
  }
}
