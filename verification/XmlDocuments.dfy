/**
 XML documents as trees, their printed text, and what the extractor of
 examples/xml_fdw.js means on them. The single-pass scan of the printed text
 has that meaning as its effect, for every document.
 */
module XmlDocuments {
  import opened Options
  import opened JsStrings
  import opened JsNumbers
  import opened XmlScanner
  import opened XmlRows
  import Utf8

  /**
   A piece of text: a code unit written as itself, one of the five characters
   with a predefined entity, or a numeric reference to any code point, with its
   digits as they are written (section 4.1 of XML 1.0).
   */
  datatype Piece =
    | Raw(c: CodeUnit)
    | Named(c: CodeUnit)
    | Reference(radix: Radix, digits: JsString)

  /** How a document is read: as the code does, or as XML 1.0 says. */
  datatype Reading = AsCoded | AsXml

  const CR: CodeUnit := 13
  const LF: CodeUnit := 10

  /** The inside of a tag after its name: ordinary characters and quoted values. */
  datatype TagItem =
    | Bare(c: CodeUnit)
    | Quoted(quote: CodeUnit, value: JsString)

  /** A tag: the ASCII name the scanner reads, and everything else up to the closing bracket. */
  datatype Tag = Tag(name: JsString, items: seq<TagItem>)

  /** A sequence of sibling nodes. `pad` is what the end tag holds after its name. */
  datatype Forest =
    | Empty
    | Character(piece: Piece, rest: Forest)
    | CData(content: JsString, rest: Forest)
    | Comment(content: JsString, rest: Forest)
    | Instruction(content: JsString, rest: Forest)
    | Declaration(content: JsString, rest: Forest)
    | SelfClosed(tag: Tag, rest: Forest)
    | Element(tag: Tag, children: Forest, pad: JsString, rest: Forest)

  // ----- well-formedness

  predicate Lacks(s: JsString, pat: JsString) {
    IndexOf(s, pat, 0) == -1
  }

  predicate ValidPiece(p: Piece) {
    match p
    case Raw(c) => c != LESS && c != AMPERSAND
    case Named(c) => EntityName(c) != []
    case Reference(radix, digits) =>
      digits != [] && AllDigits(digits, radix) && NumeralValue(digits, radix) < 0x110000
  }

  predicate ValidItem(item: TagItem) {
    match item
    case Bare(c) => c != GREATER && c != SLASH && !IsQuote(c)
    case Quoted(q, v) => IsQuote(q) && q !in v
  }

  /** `name` is all the scanner reads of a name that is followed by `s`. */
  predicate NameStops(name: JsString, s: JsString) {
    && (name != [] ==> IsNameStart(name[0]))
    && (forall i :: 0 <= i < |name| ==> IsNameUnit(name[i]))
    && s != []
    && (if name == [] then !IsNameStart(s[0]) else !IsNameUnit(s[0]))
  }

  predicate ValidTag(tag: Tag) {
    && (forall i :: 0 <= i < |tag.items| ==> ValidItem(tag.items[i]))
    && NameStops(tag.name, PrintItems(tag.items) + [GREATER])
    && (tag.name == [] ==>
          tag.items != [] && PrintItems(tag.items)[..1] != [BANG] && PrintItems(tag.items)[..1] != [QUESTION])
  }

  predicate WellFormed(f: Forest) {
    match f
    case Empty => true
    case Character(p, rest) => ValidPiece(p) && WellFormed(rest)
    case CData(s, rest) => Lacks(s, CDATA_CLOSE) && WellFormed(rest)
    case Comment(s, rest) => Lacks(s, COMMENT_CLOSE) && WellFormed(rest)
    case Instruction(s, rest) => Lacks(s, PI_CLOSE) && WellFormed(rest)
    case Declaration(s, rest) =>
      Lacks(s, [GREATER]) && !([MINUS, MINUS] <= s) && !(CDATA_NAME <= s) && WellFormed(rest)
    case SelfClosed(tag, rest) => ValidTag(tag) && WellFormed(rest)
    case Element(tag, children, pad, rest) =>
      && ValidTag(tag) && NameStops(tag.name, pad + [GREATER]) && GREATER !in pad
      && WellFormed(children) && WellFormed(rest)
  }

  /** The markup of sections 2 and 4 of XML 1.0. */
  lemma MarkupIsXml()
    ensures COMMENT_OPEN == Ascii("<!--") && COMMENT_CLOSE == Ascii("-->")
    ensures CDATA_OPEN == Ascii("<![CDATA[") && CDATA_CLOSE == Ascii("]]>")
    ensures [LESS, QUESTION] == Ascii("<?") && PI_CLOSE == Ascii("?>") && [LESS, BANG] == Ascii("<!")
    ensures [LESS, SLASH] == Ascii("</") && [SLASH, GREATER] == Ascii("/>")
    ensures [AMPERSAND, HASH, SEMICOLON] == Ascii("&#;") && ReferencePrefix(Radix.Hexadecimal) == Ascii("#x")
    ensures forall c :: IsQuote(c) <==> c == '"' as int || c == '\'' as int
  {
  }

  // ----- printing

  function EntityName(c: CodeUnit): JsString {
    if c == AMPERSAND then Ascii("amp")
    else if c == LESS then Ascii("lt")
    else if c == GREATER then Ascii("gt")
    else if c == DOUBLE_QUOTE then Ascii("quot")
    else if c == SINGLE_QUOTE then Ascii("apos")
    else []
  }

  function ReferencePrefix(radix: Radix): JsString {
    if radix.Decimal? then [HASH] else [HASH, 120]
  }

  function EntityBody(p: Piece): JsString
    requires !p.Raw?
  {
    match p
    case Named(c) => EntityName(c)
    case Reference(radix, digits) => ReferencePrefix(radix) + digits
  }

  function PrintPiece(p: Piece): JsString {
    if p.Raw? then [p.c] else [AMPERSAND] + EntityBody(p) + [SEMICOLON]
  }

  function PrintItem(item: TagItem): JsString {
    match item
    case Bare(c) => [c]
    case Quoted(q, v) => [q] + v + [q]
  }

  function PrintItems(items: seq<TagItem>): JsString {
    if items == [] then [] else PrintItem(items[0]) + PrintItems(items[1..])
  }

  function PrintOpen(tag: Tag): JsString {
    [LESS] + tag.name + PrintItems(tag.items)
  }

  function PrintClose(name: JsString, pad: JsString): JsString {
    [LESS, SLASH] + name + pad + [GREATER]
  }

  function Print(f: Forest): JsString {
    match f
    case Empty => []
    case Character(p, rest) => PrintPiece(p) + Print(rest)
    case CData(s, rest) => CDATA_OPEN + s + CDATA_CLOSE + Print(rest)
    case Comment(s, rest) => COMMENT_OPEN + s + COMMENT_CLOSE + Print(rest)
    case Instruction(s, rest) => [LESS, QUESTION] + s + PI_CLOSE + Print(rest)
    case Declaration(s, rest) => [LESS, BANG] + s + [GREATER] + Print(rest)
    case SelfClosed(tag, rest) => PrintOpen(tag) + [SLASH, GREATER] + Print(rest)
    case Element(tag, children, pad, rest) =>
      PrintOpen(tag) + [GREATER] + Print(children) + PrintClose(tag.name, pad) + Print(rest)
  }

  // ----- meaning

  /** The character a piece stands for; 0 for a reference that is not valid. */
  function CodeOf(p: Piece): Utf8.CodePoint {
    match p
    case Raw(c) => c
    case Named(c) => c
    case Reference(radix, digits) =>
      if AllDigits(digits, radix) && NumeralValue(digits, radix) < 0x110000 then NumeralValue(digits, radix) else 0
  }

  /** A character beyond the 16 bits that String.fromCharCode keeps. */
  predicate Beyond(p: Piece) {
    CodeOf(p) >= 0x10000
  }

  /** The unit the code puts for a piece. */
  function CodedUnit(p: Piece): CodeUnit {
    CodeOf(p) % 0x10000
  }

  /** Section 2.11 of XML 1.0: CR LF, and a CR that no LF follows, each become one LF. */
  function NormalizedLines(s: JsString): JsString {
    if s == [] then []
    else if s[0] != CR then [s[0]] + NormalizedLines(s[1..])
    else (if |s| > 1 && s[1] == LF then [] else [LF]) + NormalizedLines(s[1..])
  }

  /**
   A piece as XML reads it. A CR written as itself is part of a line end; an LF
   can only follow it as the next piece, for anything else starts with '<' or '&'.
   */
  function XmlUnits(p: Piece, rest: Forest): JsString {
    if p != Raw(CR) then Utf8.UnitsOf(CodeOf(p))
    else if rest.Character? && rest.piece == Raw(LF) then []
    else [LF]
  }

  function UnitsOf(reading: Reading, p: Piece, rest: Forest): JsString {
    if reading.AsCoded? then [CodedUnit(p)] else XmlUnits(p, rest)
  }

  function ContentOf(reading: Reading, s: JsString): JsString {
    if reading.AsCoded? then s else NormalizedLines(s)
  }

  predicate IsXmlSpace(c: CodeUnit) {
    c == 32 || c == 9 || c == CR || c == LF
  }

  /** What follows the ASCII part of a name: in XML it goes on to white space or the tag's end. */
  function NameTail(items: seq<TagItem>): JsString {
    if items == [] || !items[0].Bare? || IsXmlSpace(items[0].c) then [] else [items[0].c] + NameTail(items[1..])
  }

  function NameOf(reading: Reading, tag: Tag): JsString {
    if reading.AsCoded? then tag.name else tag.name + NameTail(tag.items)
  }

  /** The text of a captured column: all character data below it, markup dropped. */
  function TextOf(reading: Reading, f: Forest): JsString {
    match f
    case Empty => []
    case Character(p, rest) => UnitsOf(reading, p, rest) + TextOf(reading, rest)
    case CData(s, rest) => ContentOf(reading, s) + TextOf(reading, rest)
    case Element(_, children, _, rest) => TextOf(reading, children) + TextOf(reading, rest)
    case _ => TextOf(reading, f.rest)
  }

  /** A captured element: a column and the content it is set from. */
  datatype Capture = Capture(column: JsString, content: Forest)

  /**
   What a row element's content captures, in document order. Columns are found
   at any depth, but not inside another column or a nested row element.
   */
  function Captures(reading: Reading, target: Target, f: Forest): seq<Capture> {
    match f
    case Empty => []
    case SelfClosed(tag, rest) =>
      var name := NameOf(reading, tag);
      (if name != target.elemTag && name in target.columns then [Capture(name, Empty)] else [])
      + Captures(reading, target, rest)
    case Element(tag, children, _, rest) =>
      var name := NameOf(reading, tag);
      (if name == target.elemTag then []
       else if name in target.columns then [Capture(name, children)]
       else Captures(reading, target, children))
      + Captures(reading, target, rest)
    case _ => Captures(reading, target, f.rest)
  }

  /** The row after the captures: of two for the same column the later one stays. */
  function Assign(reading: Reading, row: Row, captures: seq<Capture>): Row
    decreases captures
  {
    if captures == [] then row
    else Assign(reading, row[captures[0].column := TextOf(reading, captures[0].content)], captures[1..])
  }

  function ColumnsOf(reading: Reading, target: Target, f: Forest, row: Row): Row {
    Assign(reading, row, Captures(reading, target, f))
  }

  /** One row for each outermost row element, in document order. */
  function RowsOf(reading: Reading, target: Target, f: Forest): seq<Row> {
    match f
    case Empty => []
    case SelfClosed(tag, rest) =>
      (if NameOf(reading, tag) == target.elemTag then [map[]] else []) + RowsOf(reading, target, rest)
    case Element(tag, children, _, rest) =>
      (if NameOf(reading, tag) == target.elemTag then [ColumnsOf(reading, target, children, map[])]
       else RowsOf(reading, target, children))
      + RowsOf(reading, target, rest)
    case _ => RowsOf(reading, target, f.rest)
  }

  /** What a balanced forest does to the scanner, by where it stands. */
  function Effect(target: Target, f: Forest, st: State): State
    requires Valid(st) && st.rootSeen >= 0
  {
    if st.activeColumn.Some? then st.(activeText := st.activeText + TextOf(AsCoded, f))
    else if st.rootSeen == 0 then st.(rows := st.rows + RowsOf(AsCoded, target, f))
    else if st.rootSeen == 1 then st.(currentRow := Some(ColumnsOf(AsCoded, target, f, st.currentRow.value)))
    else st
  }

  // ----- text

  /** What the code makes of an entity or reference: the low 16 bits of the character's code. */
  lemma EntityRoundTrip(p: Piece)
    requires ValidPiece(p) && !p.Raw?
    ensures DecodeEntity(EntityBody(p)) == Some(CodedUnit(p))
    ensures SEMICOLON !in EntityBody(p) && LESS !in EntityBody(p)
  {
    match p
    case Named(c) =>
      assert Ascii("lt")[0] == 'l' as int && Ascii("gt")[0] == 'g' as int;
      assert Ascii("quot")[0] == 'q' as int && Ascii("apos")[0] == 'a' as int;
    case Reference(radix, digits) =>
      NumeralEntity(digits, radix);
  }

  lemma NumeralEntity(digits: JsString, radix: Radix)
    requires digits != [] && AllDigits(digits, radix)
    ensures var e := ReferencePrefix(radix) + digits;
            DecodeEntity(e) == Some(NumeralValue(digits, radix) % 0x10000) && SEMICOLON !in e && LESS !in e
  {
    hide ParseInt, NumeralValue;
    var prefix := ReferencePrefix(radix);
    var e := prefix + digits;
    ParseIntDigits(digits, radix, []);
    assert digits + [] == digits;
    assert e[|prefix|..] == digits;
    assert IsDigit(digits[0], radix);
    assert e[0] == HASH;
    DigitsLack(digits, radix, SEMICOLON);
    DigitsLack(digits, radix, LESS);
  }

  /** The code also takes a capital X. */
  lemma CapitalX(digits: JsString)
    requires digits != [] && AllDigits(digits, Radix.Hexadecimal)
    ensures DecodeEntity(Ascii("#X") + digits) == Some(NumeralValue(digits, Radix.Hexadecimal) % 0x10000)
  {
    hide ParseInt, NumeralValue;
    var e := Ascii("#X") + digits;
    ParseIntDigits(digits, Radix.Hexadecimal, []);
    assert digits + [] == digits && e[2..] == digits;
    assert e[0] == HASH && e[1] == 88;
  }

  lemma {:induction false} DecodePiece(p: Piece, s: JsString)
    requires ValidPiece(p)
    ensures Decode(PrintPiece(p) + s) == [CodedUnit(p)] + Decode(s)
    ensures LESS !in PrintPiece(p)
  {
    hide DecodeEntity, EntityBody, NumeralValue, IndexOf, EntityName;
    var t := PrintPiece(p) + s;
    if p.Raw? {
      assert t[1..] == s;
    } else {
      EntityRoundTrip(p);
      var body := EntityBody(p);
      var k := 1 + |body|;
      assert t[1..k] == body && t[k + 1..] == s && t[k] == SEMICOLON;
      FirstUnit(t, SEMICOLON, 1, k);
    }
  }

  lemma {:induction false} DecodeBare(a: JsString, s: JsString)
    requires AMPERSAND !in a
    ensures Decode(a + s) == a + Decode(s)
    decreases |a|
  {
    hide DecodeEntity;
    if a == [] {
      assert a + s == s;
    } else {
      assert (a + s)[1..] == a[1..] + s;
      DecodeBare(a[1..], s);
      assert a == [a[0]] + a[1..];
    }
  }

  predicate IsPredefined(name: JsString) {
    name == Ascii("amp") || name == Ascii("lt") || name == Ascii("gt") || name == Ascii("quot") || name == Ascii("apos")
  }

  /** An unknown entity is left as it is written, and so is an ampersand that no semicolon follows. */
  lemma {:induction false} UnknownIsLeft(name: JsString, s: JsString)
    requires !IsPredefined(name) && (name != [] ==> name[0] != '#' as int)
    requires AMPERSAND !in name && SEMICOLON !in name
    ensures Decode([AMPERSAND] + name + [SEMICOLON] + s) == [AMPERSAND] + name + [SEMICOLON] + Decode(s)
    ensures SEMICOLON !in s ==> Decode([AMPERSAND] + s) == [AMPERSAND] + Decode(s)
  {
    hide IndexOf, Ascii, IsPredefined;
    var rest := name + [SEMICOLON];
    var t, k := [AMPERSAND] + name + [SEMICOLON] + s, 1 + |name|;
    assert t[k] == SEMICOLON && t[1..k] == name && t[1..] == rest + s;
    FirstUnit(t, SEMICOLON, 1, k);
    UnknownIsNone(name);
    hide DecodeEntity;
    assert Decode(t) == [AMPERSAND] + Decode(rest + s);
    DecodeBare(rest, s);
    assert [AMPERSAND] + (rest + Decode(s)) == [AMPERSAND] + name + [SEMICOLON] + Decode(s);
    if SEMICOLON !in s {
      NotFound([AMPERSAND] + s, SEMICOLON);
      assert ([AMPERSAND] + s)[1..] == s;
    }
  }

  lemma UnknownIsNone(name: JsString)
    requires !IsPredefined(name) && (name != [] ==> name[0] != '#' as int)
    ensures DecodeEntity(name) == None
  {
    hide Ascii, ParseInt;
  }

  lemma NotFound(s: JsString, c: CodeUnit)
    requires c !in s
    ensures IndexOf(s, [c], 1) == -1
  {
    forall j
      ensures !MatchesAt(s, [c], j)
    {
      if 0 <= j < |s| {
        assert s[j..j + 1] == [s[j]];
      }
    }
  }

  /** A piece is decoded to its character exactly when that fits 16 bits. */
  lemma {:induction false} DecodesRight(p: Piece)
    requires ValidPiece(p)
    ensures Decode(PrintPiece(p)) == Utf8.UnitsOf(CodeOf(p)) <==> !Beyond(p)
  {
    hide Decode, PrintPiece;
    DecodePiece(p, []);
    assert PrintPiece(p) + [] == PrintPiece(p);
    EmptyDecodes();
  }

  lemma EmptyDecodes()
    ensures Decode([]) == []
  {
  }

  lemma NextDigit(n: nat, front: JsString)
    requires n >= 10 && Numeral(n / 10, Radix.Decimal) == front
    ensures Numeral(n, Radix.Decimal) == front + [48 + n % 10]
  {
  }

  lemma SmileyDigits()
    ensures Numeral(128512, Radix.Decimal) == [49, 50, 56, 53, 49, 50]
  {
    assert Numeral(1, Radix.Decimal) == [49];
    hide Numeral;
    NextDigit(12, [49]);
    NextDigit(128, [49, 50]);
    NextDigit(1285, [49, 50, 56]);
    NextDigit(12851, [49, 50, 56, 53]);
    NextDigit(128512, [49, 50, 56, 53, 49]);
  }

  /** `&#128512;`, a smiling face, becomes U+F600. */
  lemma {:induction false} SmileyIsCut()
    ensures Decode(Ascii("&#128512;")) == [0xf600] && Utf8.UnitsOf(128512) == [0xd83d, 0xde00]
  {
    hide Numeral, NumeralValue, Decode;
    var digits := Numeral(128512, Radix.Decimal);
    SmileyDigits();
    NumeralRoundTrip(128512, Radix.Decimal);
    var p := Reference(Radix.Decimal, digits);
    assert PrintPiece(p) == Ascii("&#128512;");
    DecodePiece(p, []);
    EmptyDecodes();
    assert PrintPiece(p) + [] == PrintPiece(p);
  }

  /** A single character is found where it first stands. */
  lemma FirstUnit(s: JsString, c: CodeUnit, from: nat, k: nat)
    requires from <= k < |s| && s[k] == c
    requires forall j :: from <= j < k ==> s[j] != c
    ensures IndexOf(s, [c], from) == k
  {
    assert s[k..k + 1] == [c];
    forall j | from <= j < k
      ensures !MatchesAt(s, [c], j)
    {
      assert s[j..j + 1] == [s[j]];
    }
    IndexOfIs(s, [c], from, k);
  }

  /** Text up to the next '<'. */
  function TextRun(s: JsString): (e: nat)
    ensures e <= |s|
  {
    UpTo(s, IndexOf(s, [LESS], 0))
  }

  lemma {:induction false} TextRunExtends(a: JsString, s: JsString)
    requires LESS !in a
    ensures TextRun(a + s) == |a| + TextRun(s)
  {
    var t := a + s;
    var k := IndexOf(s, [LESS], 0);
    if k != -1 {
      assert s[k..k + 1][0] == LESS;
      forall j | 0 <= j < |a| + k
        ensures t[j] != LESS
      {
        if j >= |a| {
          assert !MatchesAt(s, [LESS], j - |a|);
          assert s[j - |a|..j - |a| + 1] == [s[j - |a|]];
        }
      }
      FirstUnit(t, LESS, 0, |a| + k);
    } else {
      var k' := IndexOf(t, [LESS], 0);
      if k' != -1 {
        assert t[k'..k' + 1][0] == LESS;
        assert s[k' - |a|..k' - |a| + 1] == [LESS];
        assert MatchesAt(s, [LESS], k' - |a|);
      }
    }
  }

  lemma ScanText(target: Target, s: JsString, st: State)
    requires Valid(st)
    ensures Scan(target, s, st)
         == Scan(target, s[TextRun(s)..], OnText(st, s[..TextRun(s)], false))
  {
    hide Lex, LexStartTag, LexEndTag, LexCData, LexSkipped, DecodeEntity;
    if s == [] {
    } else if s[0] == LESS {
      assert s[0..1] == [LESS];
      assert MatchesAt(s, [LESS], 0);
      assert TextRun(s) == 0;
      assert s[0..] == s && s[..0] == [] && Decode([]) == [];
      assert st.activeText + [] == st.activeText;
    } else {
      LexOnText(s);
    }
  }

  lemma LexOnText(s: JsString)
    requires s != [] && s[0] != LESS
    ensures Lex(s) == Lexed(Text(s[..TextRun(s)], false), TextRun(s))
  {
  }

  /** Scanning one printed character adds it to an open capture, whatever follows. */
  lemma ScanPiece(target: Target, p: Piece, s: JsString, st: State)
    requires ValidPiece(p) && Valid(st)
    ensures Scan(target, PrintPiece(p) + s, st) == Scan(target, s, OnText(st, [CodedUnit(p)], true))
  {
    hide Scan, PrintPiece, Decode, IndexOf, CodeOf;
    var units := [CodedUnit(p)];
    var a, e := PrintPiece(p), TextRun(s);
    var t := a + s;
    DecodePiece(p, s[..e]);
    TextRunExtends(a, s);
    ScanText(target, t, st);
    ScanText(target, s, OnText(st, units, true));
    assert t[..|a| + e] == a + s[..e];
    assert t[|a| + e..] == s[e..];
    assert st.activeText + (units + Decode(s[..e])) == st.activeText + units + Decode(s[..e]);
  }

  // ----- markup

  lemma FindClose(before: JsString, s: JsString, close: JsString, after: JsString)
    requires close != [] && close[|close| - 1] == GREATER
    requires forall i :: 0 <= i < |close| - 1 ==> close[i] != GREATER
    requires Lacks(s, close)
    ensures IndexOf(before + s + close + after, close, |before|) == |before| + |s|
  {
    var t, k := before + s + close + after, |before| + |s|;
    assert t[k..k + |close|] == close;
    forall j | |before| <= j < k
      ensures !MatchesAt(t, close, j)
    {
      var last := j + |close| - 1;
      if last < k {
        assert t[j..j + |close|] == s[j - |before|..j - |before| + |close|];
        assert !MatchesAt(s, close, j - |before|);
      } else {
        assert t[last] == t[k..k + |close|][last - k] == close[last - k];
        Mismatch(t, close, j, |close| - 1);
      }
    }
    IndexOfIs(t, close, |before|, k);
  }

  lemma ScanToken(target: Target, t: JsString, token: Token, k: nat, rest: JsString, st: State)
    requires Valid(st) && t != []
    requires Lex(t) == Lexed(token, k) && k <= |t| && t[k..] == rest
    ensures Scan(target, t, st) == Scan(target, rest, OnToken(target, st, token))
  {
    hide Lex;
  }

  /** Comments, instructions and declarations leave the state alone. */
  lemma {:induction false} ScanSkipped(target: Target, open: JsString, s: JsString, close: JsString, after: JsString,
                                       st: State)
    requires Valid(st)
    requires close != [] && close[|close| - 1] == GREATER
    requires forall i :: 0 <= i < |close| - 1 ==> close[i] != GREATER
    requires Lacks(s, close) && open != []
    requires Lex(open + s + close + after) == LexSkipped(open + s + close + after, |open|, close)
    ensures Scan(target, open + s + close + after, st) == Scan(target, after, st)
  {
    hide Lex, Scan;
    FindClose(open, s, close, after);
    var t := open + s + close + after;
    assert t[|open| + |s| + |close|..] == after;
    ScanToken(target, t, Skipped, |open| + |s| + |close|, after, st);
  }

  lemma LexComment(s: JsString, after: JsString)
    ensures var t := COMMENT_OPEN + s + COMMENT_CLOSE + after; Lex(t) == LexSkipped(t, 4, COMMENT_CLOSE)
  {
    hide LexSkipped;
    var t := COMMENT_OPEN + s + COMMENT_CLOSE + after;
    assert t[0..4] == COMMENT_OPEN;
  }

  lemma LexInstruction(s: JsString, after: JsString)
    ensures var t := [LESS, QUESTION] + s + PI_CLOSE + after; Lex(t) == LexSkipped(t, 2, PI_CLOSE)
  {
    hide LexSkipped, LexCData;
    var t := [LESS, QUESTION] + s + PI_CLOSE + after;
    assert t[0] == LESS && t[1] == QUESTION;
    Mismatch(t, COMMENT_OPEN, 0, 1);
    Mismatch(t, CDATA_OPEN, 0, 1);
  }

  lemma Mismatch(t: JsString, pat: JsString, at: nat, k: nat)
    requires k < |pat| && at + k < |t| && t[at + k] != pat[k]
    ensures !MatchesAt(t, pat, at)
  {
    if at + |pat| <= |t| {
      assert t[at..at + |pat|][k] == t[at + k];
    }
  }

  lemma LexDeclaration(s: JsString, after: JsString)
    requires Lacks(s, [GREATER]) && !([MINUS, MINUS] <= s) && !(CDATA_NAME <= s)
    ensures var t := [LESS, BANG] + s + [GREATER] + after; Lex(t) == LexSkipped(t, 2, [GREATER])
  {
    hide LexSkipped, LexCData;
    var t := [LESS, BANG] + s + [GREATER] + after;
    assert t[0] == LESS && t[1] == BANG;
    DeclarationOpens(s, after, [MINUS, MINUS]);
    DeclarationOpens(s, after, CDATA_NAME);
    assert COMMENT_OPEN == [LESS, BANG] + [MINUS, MINUS];
  }

  lemma DeclarationOpens(s: JsString, after: JsString, name: JsString)
    requires GREATER !in name && !(name <= s)
    ensures !MatchesAt([LESS, BANG] + s + [GREATER] + after, [LESS, BANG] + name, 0)
  {
    var t, pat := [LESS, BANG] + s + [GREATER] + after, [LESS, BANG] + name;
    if |pat| <= |t| {
      assert pat[2..] == name;
      if |name| <= |s| {
        assert t[0..|pat|][2..] == s[..|name|];
      } else {
        assert t[0..|pat|][2 + |s|] == GREATER;
      }
    }
  }

  lemma {:induction false} ScanCData(target: Target, s: JsString, after: JsString, st: State)
    requires Valid(st) && Lacks(s, CDATA_CLOSE)
    ensures Scan(target, CDATA_OPEN + s + CDATA_CLOSE + after, st) == Scan(target, after, OnText(st, s, true))
  {
    hide Scan;
    var t := CDATA_OPEN + s + CDATA_CLOSE + after;
    FindClose(CDATA_OPEN, s, CDATA_CLOSE, after);
    LexCDataSection(t);
    assert t[9..9 + |s|] == s;
    assert t[9 + |s| + 3..] == after;
    ScanToken(target, t, Text(s, true), 9 + |s| + 3, after, st);
  }

  lemma LexCDataSection(t: JsString)
    requires CDATA_OPEN <= t
    ensures Lex(t) == LexCData(t)
  {
    hide LexCData, LexSkipped;
    assert t[0..9] == CDATA_OPEN;
    assert t[2] == CDATA_OPEN[2];
    Mismatch(t, COMMENT_OPEN, 0, 2);
  }

  lemma ScanComment(target: Target, s: JsString, after: JsString, st: State)
    requires Valid(st) && Lacks(s, COMMENT_CLOSE)
    ensures Scan(target, COMMENT_OPEN + s + COMMENT_CLOSE + after, st) == Scan(target, after, st)
  {
    hide Scan, Lex;
    LexComment(s, after);
    ScanSkipped(target, COMMENT_OPEN, s, COMMENT_CLOSE, after, st);
  }

  lemma {:induction false} ScanInstruction(target: Target, s: JsString, after: JsString, st: State)
    requires Valid(st) && Lacks(s, PI_CLOSE)
    ensures Scan(target, [LESS, QUESTION] + s + PI_CLOSE + after, st) == Scan(target, after, st)
  {
    hide Scan, Lex;
    LexInstruction(s, after);
    ScanSkipped(target, [LESS, QUESTION], s, PI_CLOSE, after, st);
  }

  lemma {:induction false} ScanDeclaration(target: Target, s: JsString, after: JsString, st: State)
    requires Valid(st) && Lacks(s, [GREATER]) && !([MINUS, MINUS] <= s) && !(CDATA_NAME <= s)
    ensures Scan(target, [LESS, BANG] + s + [GREATER] + after, st) == Scan(target, after, st)
  {
    hide Scan, Lex;
    LexDeclaration(s, after);
    ScanSkipped(target, [LESS, BANG], s, [GREATER], after, st);
  }

  // ----- tags

  lemma NameLengthIs(name: JsString, s: JsString)
    requires NameStops(name, s)
    ensures NameLength(name + s) == |name|
  {
    if name == [] {
      assert name + s == s;
    } else {
      NameRunIs(name[1..], s);
      assert (name + s)[1..] == name[1..] + s;
    }
  }

  lemma {:induction false} NameRunIs(name: JsString, s: JsString)
    requires forall i :: 0 <= i < |name| ==> IsNameUnit(name[i])
    requires s != [] && !IsNameUnit(s[0])
    ensures NameRun(name + s) == |name|
    decreases |name|
  {
    hide IsNameUnit;
    if name == [] {
      assert name + s == s;
    } else {
      NameRunIs(name[1..], s);
      assert (name + s)[1..] == name[1..] + s;
    }
  }

  /** Attributes are skipped whatever their quoted values hold. */
  lemma {:induction false} TagEndIs(items: seq<TagItem>, selfClosing: bool, after: JsString)
    requires forall i :: 0 <= i < |items| ==> ValidItem(items[i])
    ensures FindTagEnd(PrintItems(items) + Bracket(selfClosing) + after)
         == TagEnd(selfClosing, |PrintItems(items)| + |Bracket(selfClosing)|)
    decreases |items|
  {
    hide IndexOf, PrintItem, ValidItem;
    var s := PrintItems(items) + Bracket(selfClosing) + after;
    if items != [] {
      var tail := PrintItems(items[1..]) + Bracket(selfClosing) + after;
      TagEndIs(items[1..], selfClosing, after);
      TagEndItem(items[0], tail);
      assert s == PrintItem(items[0]) + tail;
    }
  }

  lemma {:induction false} TagEndItem(item: TagItem, tail: JsString)
    requires ValidItem(item)
    ensures FindTagEnd(PrintItem(item) + tail) == Shift(FindTagEnd(tail), |PrintItem(item)|)
  {
    hide IndexOf;
    var s := PrintItem(item) + tail;
    match item
    case Bare(c) =>
      assert s[1..] == tail;
    case Quoted(q, v) =>
      var k := 1 + |v|;
      assert s[0] == q && s[k] == q && s[k + 1..] == tail;
      assert forall j :: 1 <= j < k ==> s[j] == v[j - 1];
      FirstUnit(s, q, 1, k);
  }

  function Bracket(selfClosing: bool): JsString {
    if selfClosing then [SLASH, GREATER] else [GREATER]
  }

  lemma {:induction false} LexPrintedOpen(tag: Tag, selfClosing: bool, after: JsString)
    requires ValidTag(tag)
    ensures Lex(PrintOpen(tag) + Bracket(selfClosing) + after)
         == Lexed(StartTag(tag.name, selfClosing), |PrintOpen(tag)| + |Bracket(selfClosing)|)
  {
    hide NameLength, FindTagEnd, PrintItems, ValidTag, NameStops, Lex, IndexOf;
    var tail := PrintItems(tag.items) + Bracket(selfClosing) + after;
    var t := PrintOpen(tag) + Bracket(selfClosing) + after;
    var k := 1 + |tag.name|;
    assert t[1..] == tag.name + tail && t[1..k] == tag.name && t[k..] == tail;
    OpenStops(tag, selfClosing, after);
    assert t[1] == (tag.name + tail)[0];
    NameLengthIs(tag.name, tail);
    ItemsValid(tag);
    TagEndIs(tag.items, selfClosing, after);
    LexOpen(t);
  }

  lemma ItemsValid(tag: Tag)
    requires ValidTag(tag)
    ensures forall i :: 0 <= i < |tag.items| ==> ValidItem(tag.items[i])
  {
  }

  lemma {:induction false} ScanOpen(target: Target, tag: Tag, selfClosing: bool, after: JsString, st: State)
    requires Valid(st) && ValidTag(tag)
    ensures Scan(target, PrintOpen(tag) + Bracket(selfClosing) + after, st)
         == Scan(target, after, OnStart(target, st, tag.name, selfClosing))
  {
    hide Scan, OnStart, Lex, PrintOpen, ValidTag;
    var t, end := PrintOpen(tag) + Bracket(selfClosing) + after, |PrintOpen(tag)| + |Bracket(selfClosing)|;
    LexPrintedOpen(tag, selfClosing, after);
    assert t[end..] == after;
    ScanToken(target, t, StartTag(tag.name, selfClosing), end, after, st);
  }

  /** What follows '<' in a printed tag starts no other kind of markup. */
  lemma OpenStops(tag: Tag, selfClosing: bool, after: JsString)
    requires ValidTag(tag)
    ensures var tail := PrintItems(tag.items) + Bracket(selfClosing) + after;
            NameStops(tag.name, tail)
            && (tag.name + tail)[0] != BANG && (tag.name + tail)[0] != QUESTION && (tag.name + tail)[0] != SLASH
  {
    hide IndexOf;
    var items := PrintItems(tag.items);
    var tail := items + Bracket(selfClosing) + after;
    if tag.items == [] {
      assert tail[0] == Bracket(selfClosing)[0];
      assert (items + [GREATER])[0] == GREATER;
    } else {
      assert ValidItem(tag.items[0]);
      assert items != [] && items[0] == PrintItem(tag.items[0])[0];
      assert items[..1] == [items[0]];
      assert tail[0] == items[0] == (items + [GREATER])[0];
    }
  }

  lemma LexOpen(t: JsString)
    requires |t| >= 2 && t[0] == LESS && t[1] != BANG && t[1] != QUESTION && t[1] != SLASH
    ensures Lex(t) == LexStartTag(t)
  {
    hide LexStartTag, LexCData, LexSkipped, LexEndTag;
    Mismatch(t, COMMENT_OPEN, 0, 1);
    Mismatch(t, CDATA_OPEN, 0, 1);
  }

  lemma {:induction false} ScanClose(target: Target, name: JsString, pad: JsString, after: JsString, st: State)
    requires Valid(st) && NameStops(name, pad + [GREATER]) && GREATER !in pad
    ensures Scan(target, PrintClose(name, pad) + after, st) == Scan(target, after, OnEnd(target, st, name))
  {
    hide Scan, OnEnd, NameLength;
    var t, k := PrintClose(name, pad) + after, 2 + |name|;
    var tail := pad + [GREATER] + after;
    assert t[2..] == name + tail && t[2..k] == name;
    assert tail[0] == (pad + [GREATER])[0];
    NameLengthIs(name, tail);
    var end := k + |pad|;
    assert t[end] == GREATER;
    FirstUnit(t, GREATER, k, end);
    LexClose(t);
    assert t[end + 1..] == after;
    ScanToken(target, t, EndTag(name), end + 1, after, st);
  }

  lemma LexClose(t: JsString)
    requires |t| >= 2 && t[0] == LESS && t[1] == SLASH
    ensures Lex(t) == LexEndTag(t)
  {
    hide LexStartTag, LexCData, LexSkipped, LexEndTag;
    Mismatch(t, COMMENT_OPEN, 0, 1);
    Mismatch(t, CDATA_OPEN, 0, 1);
  }

  // ----- the main theorem

  lemma {:induction false} AssignAppend(reading: Reading, row: Row, a: seq<Capture>, b: seq<Capture>)
    ensures Assign(reading, row, a + b) == Assign(reading, Assign(reading, row, a), b)
    decreases a
  {
    if a == [] {
      assert a + b == b;
    } else {
      assert (a + b)[1..] == a[1..] + b;
      AssignAppend(reading, row[a[0].column := TextOf(reading, a[0].content)], a[1..], b);
    }
  }

  /** The effects of an element's parts add up to the effect of the element. */
  lemma {:induction false} ElementEffect(target: Target, f: Forest, st: State)
    requires Valid(st) && st.rootSeen >= 0 && f.Element?
    ensures var st1 := OnStart(target, st, f.tag.name, false);
            st1.rootSeen >= 0
            && var st2 := OnEnd(target, Effect(target, f.children, st1), f.tag.name);
               st2.rootSeen >= 0 && Effect(target, f.rest, st2) == Effect(target, f, st)
  {
    var st1 := OnStart(target, st, f.tag.name, false);
    var st2 := OnEnd(target, Effect(target, f.children, st1), f.tag.name);
    if st.activeColumn.Some? {
      var a, b, c := st.activeText, TextOf(AsCoded, f.children), TextOf(AsCoded, f.rest);
      assert a + b + c == a + (b + c);
    } else if st.rootSeen == 0 {
      var a, b, c := st.rows, RowsOf(AsCoded, target, f.children), RowsOf(AsCoded, target, f.rest);
      assert a + b + c == a + (b + c);
      var row := [ColumnsOf(AsCoded, target, f.children, map[])];
      assert a + row + c == a + (row + c);
    } else if st.rootSeen == 1 {
      assert [] + TextOf(AsCoded, f.children) == TextOf(AsCoded, f.children);
      var row, c := st.currentRow.value, Captures(AsCoded, target, f.rest);
      AssignAppend(AsCoded, row, Captures(AsCoded, target, f.children), c);
      AssignAppend(AsCoded, row, [Capture(f.tag.name, f.children)], c);
      AssignAppend(AsCoded, row, [], c);
    }
  }

  lemma {:induction false} SelfClosedEffect(target: Target, f: Forest, st: State)
    requires Valid(st) && st.rootSeen >= 0 && f.SelfClosed?
    ensures var st1 := OnStart(target, st, f.tag.name, true);
            st1.rootSeen >= 0 && Effect(target, f.rest, st1) == Effect(target, f, st)
  {
    if st.activeColumn.None? && st.rootSeen == 0 {
      var a, b := st.rows, RowsOf(AsCoded, target, f.rest);
      assert a + [map[]] + b == a + ([map[]] + b);
      assert [] + b == b;
    } else if st.activeColumn.None? && st.rootSeen == 1 {
      var row, c := st.currentRow.value, Captures(AsCoded, target, f.rest);
      AssignAppend(AsCoded, row, [Capture(f.tag.name, Empty)], c);
      AssignAppend(AsCoded, row, [], c);
    }
  }

  lemma {:induction false} CharacterDataEffect(target: Target, data: JsString, f: Forest, st: State)
    requires Valid(st) && st.rootSeen >= 0
    requires (f.Character? && data == [CodedUnit(f.piece)]) || (f.CData? && data == f.content)
    ensures OnText(st, data, true).rootSeen >= 0
    ensures Effect(target, f.rest, OnText(st, data, true)) == Effect(target, f, st)
  {
    var rest := TextOf(AsCoded, f.rest);
    assert st.activeText + data + rest == st.activeText + (data + rest);
  }

  /**
   For every document, scanning its printed text has the document's effect and
   then scans on: the control state is left as it was found.
   */
  lemma {:induction false} ScanForest(target: Target, f: Forest, after: JsString, st: State)
    requires WellFormed(f) && Valid(st) && st.rootSeen >= 0
    ensures Scan(target, Print(f) + after, st) == Scan(target, after, Effect(target, f, st))
    decreases f
  {
    hide Scan, Effect, Lex, ValidPiece, ValidTag, PrintPiece, PrintOpen, PrintClose, NameStops, OnText, OnStart,
         IndexOf;
    var t := Print(f) + after;
    match f
    case Empty =>
      EmptyEffect(target, st);
      assert t == after;
    case Character(p, rest) =>
      assert t == PrintPiece(p) + (Print(rest) + after);
      ScanPiece(target, p, Print(rest) + after, st);
      CharacterDataEffect(target, [CodedUnit(p)], f, st);
      ScanForest(target, rest, after, OnText(st, [CodedUnit(p)], true));
    case CData(s, rest) =>
      assert t == CDATA_OPEN + s + CDATA_CLOSE + (Print(rest) + after);
      ScanCData(target, s, Print(rest) + after, st);
      CharacterDataEffect(target, s, f, st);
      ScanForest(target, rest, after, OnText(st, s, true));
    case Comment(s, rest) =>
      ScanComment(target, s, Print(rest) + after, st);
      assert t == COMMENT_OPEN + s + COMMENT_CLOSE + (Print(rest) + after);
      ScanForest(target, rest, after, st);
      SkippedEffect(target, f, st);
    case Instruction(s, rest) =>
      ScanInstruction(target, s, Print(rest) + after, st);
      assert t == [LESS, QUESTION] + s + PI_CLOSE + (Print(rest) + after);
      ScanForest(target, rest, after, st);
      SkippedEffect(target, f, st);
    case Declaration(s, rest) =>
      ScanDeclaration(target, s, Print(rest) + after, st);
      assert t == [LESS, BANG] + s + [GREATER] + (Print(rest) + after);
      ScanForest(target, rest, after, st);
      SkippedEffect(target, f, st);
    case SelfClosed(tag, rest) =>
      assert t == PrintOpen(tag) + Bracket(true) + (Print(rest) + after);
      ScanOpen(target, tag, true, Print(rest) + after, st);
      SelfClosedEffect(target, f, st);
      ScanForest(target, rest, after, OnStart(target, st, tag.name, true));
    case Element(tag, children, pad, rest) =>
      ScanElement(target, f, after, st);
  }

  lemma {:induction false} ScanElement(target: Target, f: Forest, after: JsString, st: State)
    requires WellFormed(f) && Valid(st) && st.rootSeen >= 0 && f.Element?
    ensures Scan(target, Print(f) + after, st) == Scan(target, after, Effect(target, f, st))
    decreases f, 0
  {
    hide Scan, Effect, ValidTag, PrintOpen, PrintClose, NameStops, OnStart, OnEnd, IndexOf;
    var name := f.tag.name;
    var tail := Print(f.rest) + after;
    var middle := PrintClose(name, f.pad) + tail;
    assert Print(f) + after == PrintOpen(f.tag) + Bracket(false) + (Print(f.children) + middle);
    ElementEffect(target, f, st);
    ScanOpen(target, f.tag, false, Print(f.children) + middle, st);
    var st1 := OnStart(target, st, name, false);
    ScanForest(target, f.children, middle, st1);
    var st2 := Effect(target, f.children, st1);
    EffectValid(target, f.children, st1);
    ScanClose(target, name, f.pad, tail, st2);
    ScanForest(target, f.rest, after, OnEnd(target, st2, name));
  }

  lemma EmptyEffect(target: Target, st: State)
    requires Valid(st) && st.rootSeen >= 0
    ensures Effect(target, Empty, st) == st
  {
    assert st.activeText + [] == st.activeText && st.rows + [] == st.rows;
  }

  lemma SkippedEffect(target: Target, f: Forest, st: State)
    requires Valid(st) && st.rootSeen >= 0
    requires f.Comment? || f.Instruction? || f.Declaration?
    ensures Effect(target, f, st) == Effect(target, f.rest, st)
  {
  }

  lemma EffectValid(target: Target, f: Forest, st: State)
    requires Valid(st) && st.rootSeen >= 0
    ensures Valid(Effect(target, f, st)) && Effect(target, f, st).rootSeen >= 0
  {
  }
}
