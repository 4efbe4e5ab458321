/**
 The lexical layer of the XML row extractor (examples/xml_fdw.js): names, tags,
 entities and the step from one piece of markup to the next. Each index loop of
 the source is a method proved against a function on the unread suffix.
 */
module XmlScanner {
  import opened Options
  import opened JsStrings
  import opened JsNumbers

  const DOUBLE_QUOTE: CodeUnit := 34
  const HASH: CodeUnit := 35
  const AMPERSAND: CodeUnit := 38
  const SINGLE_QUOTE: CodeUnit := 39
  const SLASH: CodeUnit := 47
  const SEMICOLON: CodeUnit := 59
  const LESS: CodeUnit := 60
  const GREATER: CodeUnit := 62
  const BANG: CodeUnit := 33
  const QUESTION: CodeUnit := 63

  const COMMENT_OPEN: JsString := [LESS, BANG, MINUS, MINUS]
  const COMMENT_CLOSE: JsString := [MINUS, MINUS, GREATER]
  const CDATA_NAME: JsString := [91, 67, 68, 65, 84, 65, 91] // [CDATA[
  const CDATA_OPEN: JsString := [LESS, BANG] + CDATA_NAME
  const CDATA_CLOSE: JsString := [93, 93, GREATER] // ]]>
  const PI_CLOSE: JsString := [QUESTION, GREATER]

  // ----- names

  predicate IsNameStart(c: CodeUnit) {
    65 <= c <= 90 || 97 <= c <= 122 || c == 95 || c == 58
  }

  predicate IsNameUnit(c: CodeUnit) {
    IsNameStart(c) || 48 <= c <= 57 || c == 45 || c == 46
  }

  function NameRun(s: JsString): (k: nat)
    ensures k <= |s|
  {
    if s != [] && IsNameUnit(s[0]) then 1 + NameRun(s[1..]) else 0
  }

  /** The length of the name at the front of `s`; 0 when there is none. */
  function NameLength(s: JsString): (k: nat)
    ensures k <= |s|
  {
    if s != [] && IsNameStart(s[0]) then 1 + NameRun(s[1..]) else 0
  }

  method ReadName(text: JsString, start: nat) returns (name: JsString, next: nat)
    requires start <= |text|
    ensures next == start + NameLength(text[start..])
    ensures name == text[start..next]
  {
    var i := start;
    if i < |text| && IsNameStart(text[i]) {
      i := i + 1;
      assert text[start..][1..] == text[i..];
      while i < |text| && IsNameUnit(text[i])
        invariant start < i <= |text|
        invariant NameLength(text[start..]) == i - start + NameRun(text[i..])
      {
        assert text[i..][1..] == text[i + 1..];
        i := i + 1;
      }
    }
    name, next := text[start..i], i;
  }

  // ----- the end of a start tag

  datatype TagEnd = TagEnd(selfClosing: bool, next: nat)

  /**
   Where the tag ends, counted from just past its name. An unterminated quote
   makes it one past the end of the text.
   */
  function FindTagEnd(s: JsString): (r: TagEnd)
    ensures r.next <= |s| + 1
    ensures r.selfClosing ==> r.next <= |s|
  {
    if s == [] then TagEnd(false, 0)
    else if s[0] == GREATER then TagEnd(false, 1)
    else if s[0] == SLASH && |s| > 1 && s[1] == GREATER then TagEnd(true, 2)
    else if s[0] == DOUBLE_QUOTE || s[0] == SINGLE_QUOTE then
      var close := IndexOf(s, [s[0]], 1);
      if close == -1 then TagEnd(false, |s| + 1) else Shift(FindTagEnd(s[close + 1..]), close + 1)
    else Shift(FindTagEnd(s[1..]), 1)
  }

  function Shift(e: TagEnd, k: nat): TagEnd {
    e.(next := e.next + k)
  }

  /** `FindTagEnd` seen from position `i` of the whole text. */
  function TagEndAt(text: JsString, i: nat): TagEnd {
    Shift(FindTagEnd(Drop(text, i)), i)
  }

  predicate IsQuote(c: CodeUnit) {
    c == DOUBLE_QUOTE || c == SINGLE_QUOTE
  }

  lemma TagEndStep(text: JsString, i: nat)
    requires i < |text| && !IsQuote(text[i])
    ensures TagEndAt(text, i)
         == if text[i] == GREATER then TagEnd(false, i + 1)
            else if text[i] == SLASH && i + 1 < |text| && text[i + 1] == GREATER then TagEnd(true, i + 2)
            else TagEndAt(text, i + 1)
  {
    assert text[i..][1..] == text[i + 1..];
  }

  lemma TagEndQuote(text: JsString, i: nat, close: nat)
    requires i < close <= |text| && IsQuote(text[i])
    requires forall j :: i < j < close ==> text[j] != text[i]
    requires close < |text| ==> text[close] == text[i]
    ensures TagEndAt(text, i) == TagEndAt(text, close + 1)
  {
    var s, pat := text[i..], [text[i]];
    var k := IndexOf(s, pat, 1);
    forall j | 1 <= j < |s|
      ensures MatchesAt(s, pat, j) == (text[i + j] == text[i])
    {
      assert s[j..j + 1] == [text[i + j]];
    }
    if close < |text| {
      assert MatchesAt(s, pat, close - i);
      assert k == close - i;
      assert s[k + 1..] == text[close + 1..];
    } else {
      assert k == -1;
    }
  }

  lemma TagEndPast(text: JsString, i: nat)
    requires i >= |text|
    ensures TagEndAt(text, i) == TagEnd(false, i)
  {
  }

  method SkipToTagEnd(text: JsString, start: nat) returns (selfClosing: bool, next: nat)
    requires start <= |text|
    ensures TagEnd(selfClosing, next) == TagEndAt(text, start)
    ensures next <= |text| + 1
  {
    hide TagEndAt;
    var i := start;
    selfClosing := false;
    while i < |text|
      invariant start <= i <= |text| + 1
      invariant TagEndAt(text, start) == TagEndAt(text, i)
      decreases |text| + 1 - i
    {
      var c := text[i];
      if c == GREATER {
        TagEndStep(text, i);
        return false, i + 1;
      } else if c == SLASH && i + 1 < |text| && text[i + 1] == GREATER {
        TagEndStep(text, i);
        return true, i + 2;
      } else if IsQuote(c) {
        var k := i + 1;
        while k < |text| && text[k] != c
          invariant i < k <= |text|
          invariant forall j :: i < j < k ==> text[j] != c
        {
          k := k + 1;
        }
        TagEndQuote(text, i, k);
        i := k + 1;
      } else {
        TagEndStep(text, i);
        i := i + 1;
      }
    }
    TagEndPast(text, i);
    next := i;
  }

  // ----- entities

  /** What the text between '&' and ';' stands for, if anything. */
  function DecodeEntity(entity: JsString): Option<CodeUnit> {
    if entity == Ascii("amp") then Some(AMPERSAND)
    else if entity == Ascii("lt") then Some(LESS)
    else if entity == Ascii("gt") then Some(GREATER)
    else if entity == Ascii("quot") then Some(DOUBLE_QUOTE)
    else if entity == Ascii("apos") then Some(SINGLE_QUOTE)
    else if entity != [] && entity[0] == HASH then
      var isHex := |entity| > 1 && (entity[1] == 120 || entity[1] == 88);
      match if isHex then ParseInt(entity[2..], Hexadecimal) else ParseInt(entity[1..], JsNumbers.Decimal)
      case Some(code) => Some(code % 0x10000) // String.fromCharCode keeps 16 bits
      case None => None
    else None
  }

  function Decode(s: JsString): JsString {
    if s == [] then []
    else if s[0] != AMPERSAND then [s[0]] + Decode(s[1..])
    else
      var semi := IndexOf(s, [SEMICOLON], 1);
      if semi == -1 then [s[0]] + Decode(s[1..])
      else
        match DecodeEntity(s[1..semi])
        case Some(c) => [c] + Decode(s[semi + 1..])
        case None => [s[0]] + Decode(s[1..])
  }

  lemma {:induction false} DecodeWithoutEntities(s: JsString)
    requires IndexOf(s, [AMPERSAND], 0) == -1
    ensures Decode(s) == s
  {
    if s != [] {
      assert !MatchesAt(s, [AMPERSAND], 0);
      assert s[0..1] == [s[0]];
      IndexOfSuffix(s, [AMPERSAND], 1, 0);
      DecodeWithoutEntities(s[1..]);
    }
  }

  function DecodeAt(s: JsString, i: nat): JsString
    requires i <= |s|
  {
    Decode(s[i..])
  }

  lemma DecodeStep(s: JsString, i: nat, semi: int, out: JsString)
    requires i < |s| && semi == IndexOf(s, [SEMICOLON], i + 1)
    ensures out + DecodeAt(s, i)
         == if s[i] == AMPERSAND && semi != -1 && DecodeEntity(s[i + 1..semi]).Some?
            then (out + [DecodeEntity(s[i + 1..semi]).value]) + DecodeAt(s, semi + 1)
            else (out + [s[i]]) + DecodeAt(s, i + 1)
  {
    hide DecodeEntity;
    var t := s[i..];
    assert t[1..] == s[i + 1..];
    IndexOfSuffix(s, [SEMICOLON], i, 1);
    if semi != -1 {
      assert t[1..semi - i] == s[i + 1..semi];
      assert t[semi - i + 1..] == s[semi + 1..];
    }
  }

  method DecodeEntities(s: JsString) returns (out: JsString)
    ensures out == Decode(s)
  {
    hide DecodeEntity, Decode, IndexOf;
    if IndexOf(s, [AMPERSAND], 0) == -1 {
      DecodeWithoutEntities(s);
      return s;
    }
    out := [];
    var i := 0;
    assert s[0..] == s;
    while i < |s|
      invariant 0 <= i <= |s|
      invariant Decode(s) == out + DecodeAt(s, i)
    {
      var c := s[i];
      var semi := IndexOf(s, [SEMICOLON], i + 1);
      DecodeStep(s, i, semi, out);
      if c != AMPERSAND {
        out := out + [c];
        i := i + 1;
        continue;
      }
      if semi == -1 {
        out := out + [c];
        i := i + 1;
        continue;
      }
      var decoded := DecodeEntity(s[i + 1..semi]);
      if decoded.Some? {
        out := out + [decoded.value];
        i := semi + 1;
      } else {
        out := out + [c];
        i := i + 1;
      }
    }
    DecodeEmpty(s);
  }

  lemma DecodeEmpty(s: JsString)
    ensures DecodeAt(s, |s|) == []
  {
  }

  // ----- one piece of markup

  datatype Token =
    | Text(str: JsString, literal: bool)
    | StartTag(name: JsString, selfClosing: bool)
    | EndTag(name: JsString)
    | Skipped

  datatype Lexed = Lexed(token: Token, next: nat)

  /** Where the scan continues after a match of `pat` at `k`, or at the end if there is none. */
  function After(s: JsString, k: int, pat: JsString): int {
    if k == -1 then |s| else k + |pat|
  }

  function UpTo(s: JsString, k: int): int {
    if k == -1 then |s| else k
  }

  function LexText(s: JsString): (r: Lexed)
    requires s != [] && s[0] != LESS
    ensures 0 < r.next <= |s|
  {
    var end := UpTo(s, IndexOf(s, [LESS], 0));
    assert !MatchesAt(s, [LESS], 0);
    Lexed(Text(s[..end], false), end)
  }

  /** A comment, processing instruction or declaration: everything up to `close` is skipped. */
  function LexSkipped(s: JsString, from: nat, close: JsString): (r: Lexed)
    requires 0 < from <= |s|
    ensures 0 < r.next <= |s|
  {
    Lexed(Skipped, After(s, IndexOf(s, close, from), close))
  }

  function LexCData(s: JsString): (r: Lexed)
    requires 9 <= |s|
    ensures 0 < r.next <= |s|
  {
    var end := IndexOf(s, CDATA_CLOSE, 9);
    Lexed(Text(s[9..UpTo(s, end)], true), After(s, end, CDATA_CLOSE))
  }

  function LexEndTag(s: JsString): (r: Lexed)
    requires 2 <= |s|
    ensures 0 < r.next <= |s|
  {
    var k := 2 + NameLength(s[2..]);
    Lexed(EndTag(s[2..k]), After(s, IndexOf(s, [GREATER], k), [GREATER]))
  }

  function LexStartTag(s: JsString): (r: Lexed)
    requires 1 <= |s|
    ensures 0 < r.next <= |s| + 1
  {
    var k := 1 + NameLength(s[1..]);
    var end := TagEndAt(s, k);
    Lexed(StartTag(s[1..k], end.selfClosing), end.next)
  }

  /** The piece of markup at the front of `s`. */
  function Lex(s: JsString): (r: Lexed)
    requires s != []
    ensures 0 < r.next <= |s| + 1
  {
    if s[0] != LESS then LexText(s)
    else if MatchesAt(s, COMMENT_OPEN, 0) then LexSkipped(s, 4, COMMENT_CLOSE)
    else if MatchesAt(s, CDATA_OPEN, 0) then LexCData(s)
    else if |s| > 1 && s[1] == QUESTION then LexSkipped(s, 2, PI_CLOSE)
    else if |s| > 1 && s[1] == BANG then LexSkipped(s, 2, [GREATER])
    else if |s| > 1 && s[1] == SLASH then LexEndTag(s)
    else LexStartTag(s)
  }

  function Later(r: Lexed, i: nat): Lexed {
    r.(next := r.next + i)
  }

  method ReadText(text: JsString, i: nat) returns (r: Lexed)
    requires i < |text| && text[i] != LESS
    ensures r == Later(LexText(text[i..]), i)
  {
    hide MatchesAt;
    IndexOfSuffix(text, [LESS], i, 0);
    var end := UpTo(text, IndexOf(text, [LESS], i));
    r := Lexed(Text(text[i..end], false), end);
    assert text[i..][..end - i] == text[i..end];
  }

  method ReadSkipped(text: JsString, i: nat, from: nat, close: JsString) returns (r: Lexed)
    requires 0 < from && i + from <= |text|
    ensures r == Later(LexSkipped(text[i..], from, close), i)
  {
    hide MatchesAt;
    IndexOfSuffix(text, close, i, from);
    r := Lexed(Skipped, After(text, IndexOf(text, close, i + from), close));
  }

  method ReadCData(text: JsString, i: nat) returns (r: Lexed)
    requires i + 9 <= |text|
    ensures r == Later(LexCData(text[i..]), i)
  {
    hide MatchesAt;
    IndexOfSuffix(text, CDATA_CLOSE, i, 9);
    var end := IndexOf(text, CDATA_CLOSE, i + 9);
    r := Lexed(Text(text[i + 9..UpTo(text, end)], true), After(text, end, CDATA_CLOSE));
    assert text[i..][9..UpTo(text, end) - i] == text[i + 9..UpTo(text, end)];
  }

  method ReadEndTag(text: JsString, i: nat) returns (r: Lexed)
    requires i + 2 <= |text|
    ensures r == Later(LexEndTag(text[i..]), i)
  {
    hide MatchesAt, NameLength;
    assert text[i..][2..] == text[i + 2..];
    var name, k := ReadName(text, i + 2);
    IndexOfSuffix(text, [GREATER], i, k - i);
    r := Lexed(EndTag(name), After(text, IndexOf(text, [GREATER], k), [GREATER]));
    assert text[i..][2..k - i] == name;
  }

  method ReadStartTag(text: JsString, i: nat) returns (r: Lexed)
    requires i + 1 <= |text|
    ensures r == Later(LexStartTag(text[i..]), i)
  {
    hide NameLength, FindTagEnd;
    assert text[i..][1..] == text[i + 1..];
    var name, k := ReadName(text, i + 1);
    var selfClosing, next := SkipToTagEnd(text, k);
    assert text[i..][k - i..] == text[k..];
    r := Lexed(StartTag(name, selfClosing), next);
    assert text[i..][1..k - i] == name;
  }

  lemma MatchInSuffix(text: JsString, i: nat, pat: JsString)
    requires i <= |text|
    ensures MatchesAt(text, pat, i) == MatchesAt(text[i..], pat, 0)
  {
    if i + |pat| <= |text| {
      assert text[i..][0..|pat|] == text[i..i + |pat|];
    }
  }

  /** One round of the scan loop at `i`: which handler is called, and where `i` moves. */
  method ReadToken(text: JsString, i: nat) returns (r: Lexed)
    requires i < |text|
    ensures r == Later(Lex(text[i..]), i)
  {
    hide MatchesAt, LexText, LexSkipped, LexCData, LexEndTag, LexStartTag;
    MatchInSuffix(text, i, COMMENT_OPEN);
    MatchInSuffix(text, i, CDATA_OPEN);
    var hasNext := i + 1 < |text|;
    if text[i] != LESS {
      r := ReadText(text, i);
    } else if MatchesAt(text, COMMENT_OPEN, i) {
      MatchFits(text, COMMENT_OPEN, i);
      r := ReadSkipped(text, i, 4, COMMENT_CLOSE);
    } else if MatchesAt(text, CDATA_OPEN, i) {
      MatchFits(text, CDATA_OPEN, i);
      r := ReadCData(text, i);
    } else if hasNext && text[i + 1] == QUESTION {
      r := ReadSkipped(text, i, 2, PI_CLOSE);
    } else if hasNext && text[i + 1] == BANG {
      r := ReadSkipped(text, i, 2, [GREATER]);
    } else if hasNext && text[i + 1] == SLASH {
      r := ReadEndTag(text, i);
    } else {
      r := ReadStartTag(text, i);
    }
  }

  lemma MatchFits(text: JsString, pat: JsString, i: nat)
    requires MatchesAt(text, pat, i)
    ensures i + |pat| <= |text|
  {
  }
}
