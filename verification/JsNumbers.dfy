/** Decimal and hexadecimal numerals: what `String(n)` prints and `parseInt` reads. */
module JsNumbers {
  import opened Options
  import opened JsStrings

  datatype Radix = Decimal | Hexadecimal {
    function Times(n: nat): nat { if Decimal? then n * 10 else n * 16 }
    function Quotient(n: nat): nat { if Decimal? then n / 10 else n / 16 }
    function Remainder(n: nat): nat { if Decimal? then n % 10 else n % 16 }
  }

  function DigitUnit(d: nat): CodeUnit
    requires d < 16
  {
    if d < 10 then 48 + d else 87 + d
  }

  /** The value of a digit character in any radix up to 16, if it is one. */
  function DigitValue(c: CodeUnit): Option<nat> {
    if 48 <= c <= 57 then Some(c - 48)
    else if 97 <= c <= 102 then Some(c - 87)
    else if 65 <= c <= 70 then Some(c - 55)
    else None
  }

  predicate IsDigit(c: CodeUnit, radix: Radix) {
    DigitValue(c).Some? && (radix.Decimal? ==> DigitValue(c).value < 10)
  }

  predicate AllDigits(s: JsString, radix: Radix) {
    forall i :: 0 <= i < |s| ==> IsDigit(s[i], radix)
  }

  function Numeral(n: nat, radix: Radix): JsString {
    if radix.Quotient(n) == 0 then [DigitUnit(radix.Remainder(n))]
    else Numeral(radix.Quotient(n), radix) + [DigitUnit(radix.Remainder(n))]
  }

  function NumeralValue(s: JsString, radix: Radix): nat
    requires AllDigits(s, radix)
  {
    if s == [] then 0
    else
      assert IsDigit(s[|s| - 1], radix);
      radix.Times(NumeralValue(s[..|s| - 1], radix)) + DigitValue(s[|s| - 1]).value
  }

  function DigitRun(s: JsString, radix: Radix): (k: nat)
    ensures k <= |s|
    ensures AllDigits(s[..k], radix)
    ensures k < |s| ==> !IsDigit(s[k], radix)
  {
    if s != [] && IsDigit(s[0], radix) then
      assert s[..1 + DigitRun(s[1..], radix)] == [s[0]] + s[1..][..DigitRun(s[1..], radix)];
      1 + DigitRun(s[1..], radix)
    else 0
  }

  predicate IsWhitespace(c: CodeUnit) {
    9 <= c <= 13 || c == 32 || c == 160 || c == 0x1680 || 0x2000 <= c <= 0x200a
    || c == 0x2028 || c == 0x2029 || c == 0x202f || c == 0x205f || c == 0x3000 || c == 0xfeff
  }

  function TrimStart(s: JsString): JsString {
    if s != [] && IsWhitespace(s[0]) then TrimStart(s[1..]) else s
  }

  const PLUS: CodeUnit := 43
  const MINUS: CodeUnit := 45

  /** The digits at the front of `s`, or NaN if there are none. */
  function LeadingNumber(s: JsString, radix: Radix): Option<nat> {
    var k := DigitRun(s, radix);
    if k == 0 then None else Some(NumeralValue(s[..k], radix))
  }

  function SkipHexPrefix(s: JsString): JsString {
    if |s| >= 2 && s[0] == 48 && (s[1] == 120 || s[1] == 88) then s[2..] else s
  }

  function Negate(n: Option<int>): Option<int> {
    match n
    case Some(v) => Some(-v)
    case None => None
  }

  /** `parseInt(s, radix)` for radix 10 or 16, with `None` for NaN. */
  function ParseInt(s: JsString, radix: Radix): Option<int> {
    var t := TrimStart(s);
    var digits := if t != [] && (t[0] == PLUS || t[0] == MINUS) then t[1..] else t;
    var n := LeadingNumber(if radix.Hexadecimal? then SkipHexPrefix(digits) else digits, radix);
    if t != [] && t[0] == MINUS then Negate(n) else n
  }

  lemma {:induction false} NumeralRoundTrip(n: nat, radix: Radix)
    ensures Numeral(n, radix) != []
    ensures AllDigits(Numeral(n, radix), radix)
    ensures NumeralValue(Numeral(n, radix), radix) == n
  {
    var s := Numeral(n, radix);
    if radix.Quotient(n) == 0 {
      assert s[..|s| - 1] == [];
    } else {
      NumeralRoundTrip(radix.Quotient(n), radix);
      assert s[..|s| - 1] == Numeral(radix.Quotient(n), radix);
    }
  }

  /** The digits are those of the usual alphabet, in either case. */
  lemma DigitValueExactly(c: CodeUnit, v: nat)
    ensures DigitValue(c) == Some(v)
       <==> v < 16 && (c == Ascii("0123456789abcdef")[v] || c == Ascii("0123456789ABCDEF")[v])
  {
    var lower, upper := "0123456789abcdef", "0123456789ABCDEF";
    if v < 16 {
      assert lower[v] as int == if v < 10 then 48 + v else 87 + v;
      assert upper[v] as int == if v < 10 then 48 + v else 55 + v;
    }
  }

  function Power(base: nat, k: nat): nat {
    if k == 0 then 1 else base * Power(base, k - 1)
  }

  /** Positional notation: a digit counts as often as the base says for the digits that follow it. */
  lemma {:induction false} FirstDigitCounts(c: CodeUnit, s: JsString, radix: Radix)
    requires AllDigits(s, radix) && IsDigit(c, radix)
    ensures AllDigits([c] + s, radix)
    ensures NumeralValue([c] + s, radix)
         == DigitValue(c).value * Power(if radix == Decimal then 10 else 16, |s|) + NumeralValue(s, radix)
    decreases |s|
  {
    hide DigitValue;
    var t := [c] + s;
    if s == [] {
      assert t[..0] == [];
    } else {
      var init := s[..|s| - 1];
      assert t[..|t| - 1] == [c] + init;
      FirstDigitCounts(c, init, radix);
      Distribute(radix, DigitValue(c).value, Power(if radix == Decimal then 10 else 16, |s| - 1),
                 NumeralValue(init, radix));
    }
  }

  lemma Distribute(radix: Radix, v: nat, p: nat, n: nat)
    ensures radix.Times(v * p + n) == v * ((if radix == Decimal then 10 else 16) * p) + radix.Times(n)
  {
    if radix == Decimal {
      assert v * (10 * p) == 10 * (v * p);
    } else {
      assert v * (16 * p) == 16 * (v * p);
    }
  }

  lemma DigitsLack(digits: JsString, radix: Radix, c: CodeUnit)
    requires AllDigits(digits, radix) && !IsDigit(c, radix)
    ensures c !in digits
  {
  }

  lemma {:induction false} DigitRunIs(s: JsString, t: JsString, radix: Radix)
    requires AllDigits(s, radix)
    requires t == [] || !IsDigit(t[0], radix)
    ensures DigitRun(s + t, radix) == |s|
  {
    if s == [] {
      assert s + t == t;
    } else {
      assert (s + t)[1..] == s[1..] + t;
      DigitRunIs(s[1..], t, radix);
    }
  }

  /** `parseInt` reads any run of digits, in either case and with any leading zeros. */
  lemma ParseIntDigits(digits: JsString, radix: Radix, rest: JsString)
    requires digits != [] && AllDigits(digits, radix)
    requires rest == [] || (!IsDigit(rest[0], radix) && rest[0] != 120 && rest[0] != 88)
    ensures ParseInt(digits + rest, radix) == Some(NumeralValue(digits, radix))
  {
    hide NumeralValue;
    var t := digits + rest;
    DigitRunIs(digits, rest, radix);
    assert t[..|digits|] == digits;
    assert IsDigit(digits[0], radix) && t[0] == digits[0];
    assert TrimStart(t) == t;
    if |digits| >= 2 {
      assert IsDigit(digits[1], radix) && t[1] == digits[1];
    } else if rest != [] {
      assert t[1] == rest[0];
    }
    assert SkipHexPrefix(t) == t;
  }

  /** `parseInt` reads back a printed number, whatever other text follows it. */
  lemma ParseIntRoundTrip(n: nat, radix: Radix, rest: JsString)
    requires rest == [] || (!IsDigit(rest[0], radix) && rest[0] != 120 && rest[0] != 88)
    ensures ParseInt(Numeral(n, radix) + rest, radix) == Some(n)
  {
    hide ParseInt, Numeral, NumeralValue;
    NumeralRoundTrip(n, radix);
    ParseIntDigits(Numeral(n, radix), radix, rest);
  }
}
