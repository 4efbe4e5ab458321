/**
 The rows of a document: the extractor of examples/xml_fdw.js finds those of the
 tree, and when these are the rows that XML, or the module's own description,
 would have.
 */
module XmlExtraction {
  import opened Options
  import opened Sequences
  import opened ColumnMaps
  import opened JsStrings
  import opened XmlScanner
  import opened XmlRows
  import opened XmlDocuments

  // ----- documents

  /** The contents of the outermost row elements, in document order. */
  function RowElements(reading: Reading, target: Target, f: Forest): seq<Forest> {
    match f
    case Empty => []
    case SelfClosed(tag, rest) =>
      (if NameOf(reading, tag) == target.elemTag then [Empty] else []) + RowElements(reading, target, rest)
    case Element(tag, children, _, rest) =>
      (if NameOf(reading, tag) == target.elemTag then [children] else RowElements(reading, target, children))
      + RowElements(reading, target, rest)
    case _ => RowElements(reading, target, f.rest)
  }

  /** The row of each row element. */
  function ElementRows(reading: Reading, target: Target, es: seq<Forest>): seq<Row> {
    seq(|es|, i requires 0 <= i < |es| => ColumnsOf(reading, target, es[i], map[]))
  }

  lemma ElementRowsAppend(reading: Reading, target: Target, a: seq<Forest>, b: seq<Forest>)
    ensures ElementRows(reading, target, a + b) == ElementRows(reading, target, a) + ElementRows(reading, target, b)
  {
    hide ColumnsOf;
  }

  lemma ElementRowsOne(reading: Reading, target: Target, e: Forest)
    ensures ElementRows(reading, target, []) == []
      && ElementRows(reading, target, [e]) == [ColumnsOf(reading, target, e, map[])]
  {
    hide ColumnsOf;
  }

  lemma {:induction false} RowsAreElements(reading: Reading, target: Target, f: Forest)
    ensures RowsOf(reading, target, f) == ElementRows(reading, target, RowElements(reading, target, f))
  {
    hide ColumnsOf, ElementRows;
    ElementRowsOne(reading, target, Empty);
    match f
    case Empty =>
    case SelfClosed(tag, rest) =>
      RowsAreElements(reading, target, rest);
      NothingCaptured(reading, target);
      var own := if NameOf(reading, tag) == target.elemTag then [Empty] else [];
      ElementRowsAppend(reading, target, own, RowElements(reading, target, rest));
    case Element(tag, children, _, rest) =>
      RowsAreElements(reading, target, rest);
      RowsAreElements(reading, target, children);
      ElementRowsOne(reading, target, children);
      var own := if NameOf(reading, tag) == target.elemTag then [children] else RowElements(reading, target, children);
      ElementRowsAppend(reading, target, own, RowElements(reading, target, rest));
    case _ =>
      RowsAreElements(reading, target, f.rest);
  }

  lemma NothingCaptured(reading: Reading, target: Target)
    ensures ColumnsOf(reading, target, Empty, map[]) == map[]
  {
  }

  /** The content a column ends up with: that of its last capture. */
  function LastContent(captures: seq<Capture>, column: JsString): Option<Forest> {
    if captures == [] then None
    else if captures[|captures| - 1].column == column then Some(captures[|captures| - 1].content)
    else LastContent(captures[..|captures| - 1], column)
  }

  lemma {:induction false} AssignIsLast(reading: Reading, captures: seq<Capture>, column: JsString)
    ensures var row := Assign(reading, map[], captures);
            column in row <==> LastContent(captures, column).Some?
    ensures var row := Assign(reading, map[], captures);
            column in row ==> row[column] == TextOf(reading, LastContent(captures, column).value)
    decreases |captures|
  {
    hide TextOf;
    if captures != [] {
      var front, last := captures[..|captures| - 1], captures[|captures| - 1];
      assert captures == front + [last];
      AssignAppend(reading, map[], front, [last]);
      AssignIsLast(reading, front, column);
    }
  }

  // ----- names

  /** The code, which reads the ASCII part of a name, takes the tag for what XML takes it for. */
  predicate NameRight(target: Target, tag: Tag) {
    var coded, meant := NameOf(AsCoded, tag), NameOf(AsXml, tag);
    && (coded == target.elemTag <==> meant == target.elemTag)
    && (coded in target.columns || meant in target.columns ==> coded == meant)
  }

  predicate NamesRight(target: Target, f: Forest) {
    match f
    case Empty => true
    case SelfClosed(tag, rest) => NameRight(target, tag) && NamesRight(target, rest)
    case Element(tag, children, _, rest) =>
      NameRight(target, tag) && NamesRight(target, children) && NamesRight(target, rest)
    case _ => NamesRight(target, f.rest)
  }

  /** Exactly then its start means the same to the handlers, whatever the state. */
  lemma {:induction false} NameRightExactly(target: Target, tag: Tag)
    ensures NameRight(target, tag)
       <==> forall st, selfClosing :: Valid(st) ==>
              OnStart(target, st, NameOf(AsCoded, tag), selfClosing)
                == OnStart(target, st, NameOf(AsXml, tag), selfClosing)
  {
    hide NameOf;
    var inRow := State([], 1, Some(map[]), None, 0, []);
    assert Valid(inRow);
    if !NameRight(target, tag) {
      assert OnStart(target, inRow, NameOf(AsCoded, tag), false) != OnStart(target, inRow, NameOf(AsXml, tag), false);
    }
  }

  /** Production [4] of section 2.3 of XML 1.0, as far as it is ASCII. */
  predicate IsAsciiStart(c: CodeUnit) {
    || c == ':' as int || c == '_' as int || 'A' as int <= c <= 'Z' as int || 'a' as int <= c <= 'z' as int
  }

  /** Production [4a]. */
  predicate IsAsciiNameChar(c: CodeUnit) {
    IsAsciiStart(c) || c == '-' as int || c == '.' as int || '0' as int <= c <= '9' as int
  }

  predicate IsAsciiName(name: JsString) {
    name != [] && IsAsciiStart(name[0]) && forall i :: 0 <= i < |name| ==> IsAsciiNameChar(name[i])
  }

  /** A name in ASCII is read whole. */
  lemma {:induction false} AsciiNameIsRead(tag: Tag)
    requires ValidTag(tag) && IsAsciiName(NameOf(AsXml, tag))
    ensures NameOf(AsCoded, tag) == NameOf(AsXml, tag)
  {
    var tail := NameTail(tag.items);
    if tail != [] {
      assert NameOf(AsXml, tag)[|tag.name|] == tail[0];
      TailStarts(tag.items);
    }
  }

  lemma TailStarts(items: seq<TagItem>)
    requires NameTail(items) != []
    ensures (PrintItems(items) + [GREATER])[0] == NameTail(items)[0]
  {
  }

  /** All element names of `f`, as XML reads them, are in ASCII. */
  predicate AsciiNames(f: Forest) {
    match f
    case Empty => true
    case SelfClosed(tag, rest) => IsAsciiName(NameOf(AsXml, tag)) && AsciiNames(rest)
    case Element(tag, children, _, rest) =>
      IsAsciiName(NameOf(AsXml, tag)) && AsciiNames(children) && AsciiNames(rest)
    case _ => AsciiNames(f.rest)
  }

  /** In such a document no tag is taken for another. */
  lemma {:induction false} AsciiNamesAreRight(target: Target, f: Forest)
    requires WellFormed(f) && AsciiNames(f)
    ensures NamesRight(target, f)
  {
    hide NameOf, ValidTag, IsAsciiName;
    match f
    case Empty =>
    case SelfClosed(tag, rest) =>
      AsciiNameIsRead(tag);
      AsciiNamesAreRight(target, rest);
    case Element(tag, children, _, rest) =>
      AsciiNameIsRead(tag);
      AsciiNamesAreRight(target, children);
      AsciiNamesAreRight(target, rest);
    case _ =>
      AsciiNamesAreRight(target, f.rest);
  }

  /** A tag of an ASCII name, then nothing or white space and attributes. */
  predicate IsAsciiTag(tag: Tag) {
    && IsAsciiName(tag.name)
    && (tag.items != [] ==> tag.items[0].Bare? && IsXmlSpace(tag.items[0].c))
    && forall i :: 0 <= i < |tag.items| ==>
         match tag.items[i]
         case Bare(c) => c != '>' as int && c != '/' as int && c != '"' as int && c != '\'' as int
         case Quoted(q, value) => (q == '"' as int || q == '\'' as int) && q !in value
  }

  /** Such a tag is valid, and both readings take it by its name. */
  lemma {:induction false} AsciiTagIsValid(tag: Tag)
    requires IsAsciiTag(tag)
    ensures ValidTag(tag) && NameOf(AsCoded, tag) == NameOf(AsXml, tag) == tag.name
  {
    forall i | 0 <= i < |tag.items|
      ensures ValidItem(tag.items[i])
    {
    }
    if tag.items == [] {
      assert PrintItems(tag.items) == [];
    } else {
      assert PrintItems(tag.items)[0] == tag.items[0].c;
    }
  }

  lemma {:induction false} SameStructure(target: Target, f: Forest)
    requires NamesRight(target, f)
    ensures Captures(AsCoded, target, f) == Captures(AsXml, target, f)
    ensures RowElements(AsCoded, target, f) == RowElements(AsXml, target, f)
    ensures forall e :: e in RowElements(AsCoded, target, f) ==> NamesRight(target, e)
  {
    hide NameOf;
    match f
    case Empty =>
    case SelfClosed(_, rest) =>
      SameStructure(target, rest);
    case Element(_, children, _, rest) =>
      SameStructure(target, children);
      SameStructure(target, rest);
    case _ =>
      SameStructure(target, f.rest);
  }

  // ----- text

  /** The text of `f` has no reference beyond 16 bits, and no CR written as itself. */
  predicate Basic(f: Forest) {
    match f
    case Empty => true
    case Character(p, rest) => !Beyond(p) && p != Raw(CR) && Basic(rest)
    case CData(s, rest) => CR !in s && Basic(rest)
    case Element(_, children, _, rest) => Basic(children) && Basic(rest)
    case _ => Basic(f.rest)
  }

  /** No CR in the text of `f` is written as itself. */
  predicate NoRawCr(f: Forest) {
    match f
    case Empty => true
    case Character(p, rest) => p != Raw(CR) && NoRawCr(rest)
    case CData(s, rest) => CR !in s && NoRawCr(rest)
    case Element(_, children, _, rest) => NoRawCr(children) && NoRawCr(rest)
    case _ => NoRawCr(f.rest)
  }

  function Crs(s: JsString): nat {
    multiset(s)[CR]
  }

  lemma CrsOfSum(a: JsString, b: JsString)
    ensures Crs(a + b) == Crs(a) + Crs(b)
  {
  }

  lemma {:induction false} LinesHaveNoCr(s: JsString)
    ensures CR !in NormalizedLines(s) && Crs(NormalizedLines(s)) == 0
    ensures CR in s <==> Crs(s) > 0
    ensures CR !in s ==> NormalizedLines(s) == s
  {
    if s != [] {
      LinesHaveNoCr(s[1..]);
      assert s == [s[0]] + s[1..];
    }
  }

  /** Reading a piece as XML never adds a CR, and takes one away if it is written as itself. */
  lemma CrsOfPiece(p: Piece, rest: Forest)
    ensures Crs(UnitsOf(AsCoded, p, rest)) >= Crs(UnitsOf(AsXml, p, rest))
    ensures p == Raw(CR) ==> Crs(UnitsOf(AsCoded, p, rest)) > Crs(UnitsOf(AsXml, p, rest))
  {
  }

  lemma {:induction false} CrsCompare(f: Forest)
    ensures Crs(TextOf(AsCoded, f)) >= Crs(TextOf(AsXml, f))
    ensures Crs(TextOf(AsCoded, f)) == Crs(TextOf(AsXml, f)) ==> NoRawCr(f)
  {
    hide UnitsOf, Crs, NormalizedLines;
    match f
    case Empty =>
    case Character(p, rest) =>
      CrsCompare(rest);
      CrsOfPiece(p, rest);
      CrsOfSum(UnitsOf(AsCoded, p, rest), TextOf(AsCoded, rest));
      CrsOfSum(UnitsOf(AsXml, p, rest), TextOf(AsXml, rest));
    case CData(s, rest) =>
      CrsCompare(rest);
      LinesHaveNoCr(s);
      CrsOfSum(s, TextOf(AsCoded, rest));
      CrsOfSum(NormalizedLines(s), TextOf(AsXml, rest));
    case Element(_, children, _, rest) =>
      CrsCompare(children);
      CrsCompare(rest);
      CrsOfSum(TextOf(AsCoded, children), TextOf(AsCoded, rest));
      CrsOfSum(TextOf(AsXml, children), TextOf(AsXml, rest));
    case _ =>
      CrsCompare(f.rest);
  }

  /** Without raw CRs each character beyond 16 bits loses a unit, and no other difference can make up for it. */
  lemma {:induction false} LengthsCompare(f: Forest)
    requires NoRawCr(f)
    ensures |TextOf(AsCoded, f)| <= |TextOf(AsXml, f)|
    ensures |TextOf(AsCoded, f)| == |TextOf(AsXml, f)| ==> Basic(f)
    ensures Basic(f) ==> TextOf(AsCoded, f) == TextOf(AsXml, f)
  {
    hide UnitsOf, NormalizedLines, Beyond;
    match f
    case Empty =>
    case Character(p, rest) =>
      LengthsCompare(rest);
      UnitsDiffer(p, rest);
    case CData(s, rest) =>
      LengthsCompare(rest);
      LinesHaveNoCr(s);
    case Element(_, children, _, rest) =>
      LengthsCompare(children);
      LengthsCompare(rest);
    case _ =>
      LengthsCompare(f.rest);
  }

  lemma UnitsDiffer(p: Piece, rest: Forest)
    requires p != Raw(CR)
    ensures Beyond(p) ==> |UnitsOf(AsXml, p, rest)| == 2
    ensures !Beyond(p) ==> UnitsOf(AsXml, p, rest) == UnitsOf(AsCoded, p, rest)
    ensures |UnitsOf(AsCoded, p, rest)| == 1
  {
  }

  lemma {:induction false} BasicHasNoRawCr(f: Forest)
    ensures Basic(f) ==> NoRawCr(f)
  {
    match f
    case Empty =>
    case Element(_, children, _, rest) =>
      BasicHasNoRawCr(children);
      BasicHasNoRawCr(rest);
    case _ =>
      BasicHasNoRawCr(f.rest);
  }

  /** The code's text is XML's exactly when nothing in it is cut and no line end holds a CR. */
  lemma {:induction false} TextIsRight(f: Forest)
    ensures TextOf(AsCoded, f) == TextOf(AsXml, f) <==> Basic(f)
  {
    hide TextOf, Basic, NoRawCr;
    CrsCompare(f);
    BasicHasNoRawCr(f);
    if NoRawCr(f) {
      LengthsCompare(f);
    }
  }

  /** What XmlUnits goes by: within an element the unit printed after a piece is an LF only for such a piece. */
  lemma {:induction false} LineFeedFollows(rest: Forest)
    requires WellFormed(rest)
    ensures (Print(rest) + [LESS])[0] == LF <==> rest.Character? && rest.piece == Raw(LF)
  {
    hide IndexOf;
    match rest
    case Character(p, _) =>
      assert Print(rest)[0] == PrintPiece(p)[0];
    case CData(_, _) =>
      assert Print(rest)[0] == CDATA_OPEN[0];
    case Comment(_, _) =>
      assert Print(rest)[0] == COMMENT_OPEN[0];
    case Element(tag, _, _, _) =>
      assert Print(rest)[0] == PrintOpen(tag)[0];
    case SelfClosed(tag, _) =>
      assert Print(rest)[0] == PrintOpen(tag)[0];
    case _ =>
  }

  // ----- rows

  /** In every row, the text each column ends up with is basic. */
  ghost predicate RowsBasic(target: Target, f: Forest) {
    var es := RowElements(AsCoded, target, f);
    forall i, column :: 0 <= i < |es| ==> BasicColumn(target, es[i], column)
  }

  ghost predicate BasicColumn(target: Target, e: Forest, column: JsString) {
    var content := LastContent(Captures(AsCoded, target, e), column);
    content.Some? ==> Basic(content.value)
  }

  lemma ColumnIsRight(target: Target, e: Forest, column: JsString)
    requires NamesRight(target, e)
    ensures var coded, meant := ColumnsOf(AsCoded, target, e, map[]), ColumnsOf(AsXml, target, e, map[]);
            && (column in coded <==> column in meant)
            && (BasicColumn(target, e, column) <==> column !in coded || coded[column] == meant[column])
  {
    hide TextOf, Basic, Captures, NamesRight;
    SameStructure(target, e);
    var captures := Captures(AsCoded, target, e);
    AssignIsLast(AsCoded, captures, column);
    AssignIsLast(AsXml, captures, column);
    var content := LastContent(captures, column);
    if content.Some? {
      TextIsRight(content.value);
    }
  }

  /**
   The rows the code finds are those of the document as XML reads it exactly when
   their columns are basic, given that no name is taken for another.
   */
  lemma {:induction false} RowsAreRight(target: Target, f: Forest)
    requires NamesRight(target, f)
    ensures RowsOf(AsCoded, target, f) == RowsOf(AsXml, target, f) <==> RowsBasic(target, f)
  {
    hide ColumnsOf, BasicColumn, RowElements, RowsOf, NamesRight;
    var es, coded, meant := RowElements(AsCoded, target, f), RowsOf(AsCoded, target, f), RowsOf(AsXml, target, f);
    SameStructure(target, f);
    RowsAreElements(AsCoded, target, f);
    RowsAreElements(AsXml, target, f);
    forall i, column | 0 <= i < |es|
      ensures column in coded[i] <==> column in meant[i]
      ensures BasicColumn(target, es[i], column) <==> column !in coded[i] || coded[i][column] == meant[i][column]
    {
      assert es[i] in es;
      ColumnIsRight(target, es[i], column);
    }
    if RowsBasic(target, f) {
      forall i | 0 <= i < |es|
        ensures coded[i] == meant[i]
      {
        assert forall column :: BasicColumn(target, es[i], column);
      }
    }
  }

  lemma ScanEnd(target: Target, st: State)
    requires Valid(st)
    ensures Scan(target, [], st) == st
  {
  }

  /**
   Extracting rows from the text of any document gives the document's rows as the
   code reads it. If no name is taken for another, these are the rows as XML reads
   the document exactly when no column's text is cut or holds a raw CR.
   */
  lemma {:induction false} ScanDocument(target: Target, f: Forest)
    requires WellFormed(f)
    ensures Scan(target, Print(f), INITIAL) == INITIAL.(rows := RowsOf(AsCoded, target, f))
    ensures NamesRight(target, f) ==>
      (Scan(target, Print(f), INITIAL).rows == RowsOf(AsXml, target, f) <==> RowsBasic(target, f))
  {
    hide Scan, Print, WellFormed, RowsOf, RowsBasic, NamesRight;
    ScanForest(target, f, [], INITIAL);
    ScanEnd(target, Effect(target, f, INITIAL));
    assert Print(f) + [] == Print(f);
    assert [] + RowsOf(AsCoded, target, f) == RowsOf(AsCoded, target, f);
    if NamesRight(target, f) {
      RowsAreRight(target, f);
    }
  }

  // ----- markup that is never closed

  lemma LexRest(s: JsString, close: JsString, from: nat)
    requires 0 < from <= |s| && IndexOf(s[from..], close, 0) == -1
    ensures IndexOf(s, close, from) == -1
  {
    IndexOfSuffix(s, close, from, 0);
  }

  /** A comment, instruction or declaration that is not closed swallows the rest; a CDATA section is the rest. */
  lemma {:induction false} UnclosedIsRest(target: Target, s: JsString, st: State)
    requires Valid(st)
    ensures Lacks(s, COMMENT_CLOSE) ==> Scan(target, COMMENT_OPEN + s, st) == st
    ensures Lacks(s, PI_CLOSE) ==> Scan(target, [LESS, QUESTION] + s, st) == st
    ensures var after := if st.activeColumn.Some? then st.(activeText := st.activeText + s) else st;
            Lacks(s, CDATA_CLOSE) ==> Scan(target, CDATA_OPEN + s, st) == after
  {
    hide IndexOf, Lex;
    UnclosedToken(s);
    ScanEnd(target, st);
    ScanEnd(target, OnText(st, s, true));
  }

  lemma {:induction false} UnclosedToken(s: JsString)
    ensures Lacks(s, COMMENT_CLOSE) ==> Lex(COMMENT_OPEN + s) == Lexed(Skipped, |COMMENT_OPEN + s|)
    ensures Lacks(s, PI_CLOSE) ==> Lex([LESS, QUESTION] + s) == Lexed(Skipped, 2 + |s|)
    ensures Lacks(s, CDATA_CLOSE) ==> Lex(CDATA_OPEN + s) == Lexed(Text(s, true), |CDATA_OPEN + s|)
  {
    hide IndexOf;
    var a, b, c := COMMENT_OPEN + s, [LESS, QUESTION] + s, CDATA_OPEN + s;
    assert a[4..] == s && b[2..] == s && c[9..] == s;
    assert a[0..4] == COMMENT_OPEN && c[0..9] == CDATA_OPEN && b[1] == QUESTION && c[2] == 91;
    if Lacks(s, COMMENT_CLOSE) {
      LexRest(a, COMMENT_CLOSE, 4);
    }
    if Lacks(s, PI_CLOSE) {
      LexRest(b, PI_CLOSE, 2);
      assert !MatchesAt(b, COMMENT_OPEN, 0) && !MatchesAt(b, CDATA_OPEN, 0) by {
        assert |b| >= 4 ==> b[0..4][1] == QUESTION;
        assert |b| >= 9 ==> b[0..9][1] == QUESTION;
      }
    }
    if Lacks(s, CDATA_CLOSE) {
      LexRest(c, CDATA_CLOSE, 9);
      assert c[9..|c|] == s;
      assert !MatchesAt(c, COMMENT_OPEN, 0) by {
        assert c[0..4][2] == 91;
      }
    }
  }

  // ----- documents the code and XML read differently

  /** A row element `r` with one column element. */
  function OneColumn(tag: Tag, text: Forest): Forest {
    Element(Tag([114], []), Element(tag, text, PadOf(tag.items), Empty), [], Empty)
  }

  /** The end tag repeats what follows the ASCII part of the name. */
  function PadOf(items: seq<TagItem>): JsString {
    NameTail(items)
  }

  lemma OneColumnRow(reading: Reading, tag: Tag, text: Forest)
    requires NameOf(reading, tag) != [114]
    ensures NameOf(reading, tag) == [97] ==>
      RowsOf(reading, Target([114], {[97]}), OneColumn(tag, text)) == [map[[97] := TextOf(reading, text)]]
    ensures NameOf(reading, tag) != [97] && text == Character(Raw(49), Empty) ==>
      RowsOf(reading, Target([114], {[97]}), OneColumn(tag, text)) == [map[]]
  {
    hide TextOf, Assign;
    var target := Target([114], {[97]});
    var inner := Element(tag, text, PadOf(tag.items), Empty);
    assert NameOf(reading, Tag([114], [])) == [114];
    if NameOf(reading, tag) == [97] {
      assert Captures(reading, target, inner) == [Capture([97], text)];
      AssignOne(reading, Capture([97], text));
    } else if text == Character(Raw(49), Empty) {
      assert Captures(reading, target, inner) == [];
      AssignNone(reading);
    }
  }

  lemma AssignNone(reading: Reading)
    ensures Assign(reading, map[], []) == map[]
  {
  }

  lemma AssignOne(reading: Reading, c: Capture)
    ensures Assign(reading, map[], [c]) == map[c.column := TextOf(reading, c.content)]
  {
    hide TextOf;
    var row: Row := map[];
    assert [c][1..] == [];
    assert row[c.column := TextOf(reading, c.content)] == map[c.column := TextOf(reading, c.content)];
  }

  /** `<r><a>CR LF</a></r>`: the code keeps both units, XML has one LF. */
  lemma {:induction false} LineEndIsKept()
    ensures var f := OneColumn(Tag([97], []), Character(Raw(CR), Character(Raw(LF), Empty)));
            && WellFormed(f) && NamesRight(Target([114], {[97]}), f)
            && RowsOf(AsCoded, Target([114], {[97]}), f) == [map[[97] := [CR, LF]]]
            && RowsOf(AsXml, Target([114], {[97]}), f) == [map[[97] := [LF]]]
  {
    var end := Character(Raw(LF), Empty);
    var text, tag := Character(Raw(CR), end), Tag([97], []);
    assert NameTail([]) == [];
    assert WellFormed(text);
    assert TextOf(AsCoded, end) == [LF] && TextOf(AsXml, end) == [LF];
    assert TextOf(AsCoded, text) == [CR, LF] && TextOf(AsXml, text) == [LF];
    assert WellFormed(Element(tag, text, [], Empty));
    hide TextOf;
    OneColumnRow(AsCoded, tag, text);
    OneColumnRow(AsXml, tag, text);
  }

  /** A column element named "a" and U+00E9: the code takes it for the column `a`. */
  lemma {:induction false} NameIsCut()
    ensures var f := OneColumn(Tag([97], [Bare(0xe9)]), Character(Raw(49), Empty));
            && WellFormed(f)
            && RowsOf(AsCoded, Target([114], {[97]}), f) == [map[[97] := [49]]]
            && RowsOf(AsXml, Target([114], {[97]}), f) == [map[]]
  {
    var text, tag := Character(Raw(49), Empty), Tag([97], [Bare(0xe9)]);
    assert NameTail([]) == [] && [Bare(0xe9)][1..] == [];
    assert NameTail(tag.items) == [0xe9];
    assert PrintItems(tag.items) == [0xe9] by {
      assert PrintItems([]) == [];
    }
    assert TextOf(AsCoded, text) == [49];
    assert WellFormed(text);
    assert WellFormed(Element(tag, text, [0xe9], Empty));
    OneColumnRow(AsCoded, tag, text);
    OneColumnRow(AsXml, tag, text);
  }

  // ----- the direct-child reading of the header comment

  /** The captures of direct children only. */
  function DirectCaptures(reading: Reading, target: Target, f: Forest): seq<Capture> {
    match f
    case Empty => []
    case SelfClosed(tag, rest) =>
      var name := NameOf(reading, tag);
      (if name != target.elemTag && name in target.columns then [Capture(name, Empty)] else [])
      + DirectCaptures(reading, target, rest)
    case Element(tag, children, _, rest) =>
      var name := NameOf(reading, tag);
      (if name != target.elemTag && name in target.columns then [Capture(name, children)] else [])
      + DirectCaptures(reading, target, rest)
    case _ => DirectCaptures(reading, target, f.rest)
  }

  /** No element of `f`, nested row elements apart, has a column's name. */
  predicate ColumnFree(reading: Reading, target: Target, f: Forest) {
    match f
    case Empty => true
    case SelfClosed(tag, rest) =>
      var name := NameOf(reading, tag);
      (name == target.elemTag || name !in target.columns) && ColumnFree(reading, target, rest)
    case Element(tag, children, _, rest) =>
      var name := NameOf(reading, tag);
      && (name != target.elemTag ==> name !in target.columns && ColumnFree(reading, target, children))
      && ColumnFree(reading, target, rest)
    case _ => ColumnFree(reading, target, f.rest)
  }

  /** Every child that is neither a row element nor a column is free of columns. */
  predicate OnlyDirectColumns(reading: Reading, target: Target, f: Forest) {
    match f
    case Empty => true
    case Element(tag, children, _, rest) =>
      var name := NameOf(reading, tag);
      && (name != target.elemTag && name !in target.columns ==> ColumnFree(reading, target, children))
      && OnlyDirectColumns(reading, target, rest)
    case _ => OnlyDirectColumns(reading, target, f.rest)
  }

  lemma {:induction false} ColumnFreeCaptures(reading: Reading, target: Target, f: Forest)
    ensures ColumnFree(reading, target, f) <==> Captures(reading, target, f) == []
  {
    match f
    case Empty =>
    case Element(tag, children, _, rest) =>
      ColumnFreeCaptures(reading, target, children);
      ColumnFreeCaptures(reading, target, rest);
    case _ =>
      ColumnFreeCaptures(reading, target, f.rest);
  }

  /** Only direct children are captured exactly when the other children hold no columns. */
  lemma {:induction false} DirectChildrenOnly(reading: Reading, target: Target, f: Forest)
    ensures |Captures(reading, target, f)| >= |DirectCaptures(reading, target, f)|
    ensures Captures(reading, target, f) == DirectCaptures(reading, target, f)
       <==> OnlyDirectColumns(reading, target, f)
  {
    match f
    case Empty =>
    case Element(tag, children, _, rest) =>
      DirectChildrenOnly(reading, target, rest);
      ColumnFreeCaptures(reading, target, children);
      var c, d := Captures(reading, target, f), DirectCaptures(reading, target, f);
      if NameOf(reading, tag) != target.elemTag && NameOf(reading, tag) !in target.columns {
        assert |c| == |Captures(reading, target, children)| + |Captures(reading, target, rest)|;
        assert [] + DirectCaptures(reading, target, rest) == DirectCaptures(reading, target, rest);
        assert [] + Captures(reading, target, rest) == Captures(reading, target, rest);
      } else {
        CancelFront(reading, target, f);
      }
    case SelfClosed(_, rest) =>
      DirectChildrenOnly(reading, target, rest);
      CancelFront(reading, target, f);
    case _ =>
      DirectChildrenOnly(reading, target, f.rest);
  }

  /** The rows the header comment describes. */
  function DirectRowsOf(reading: Reading, target: Target, f: Forest): seq<Row> {
    var es := RowElements(reading, target, f);
    seq(|es|, i requires 0 <= i < |es| => Assign(reading, map[], DirectCaptures(reading, target, es[i])))
  }

  /** A column of a row element ends up with the same text when only direct children count. */
  predicate SameColumn(reading: Reading, target: Target, e: Forest, column: JsString) {
    var any := LastContent(Captures(reading, target, e), column);
    var direct := LastContent(DirectCaptures(reading, target, e), column);
    && (any.Some? <==> direct.Some?)
    && (any.Some? ==> TextOf(reading, any.value) == TextOf(reading, direct.value))
  }

  lemma RowIsDirect(reading: Reading, target: Target, e: Forest)
    ensures ColumnsOf(reading, target, e, map[]) == Assign(reading, map[], DirectCaptures(reading, target, e))
       <==> forall column :: SameColumn(reading, target, e, column)
  {
    hide Assign, Captures, DirectCaptures, TextOf, LastContent;
    forall column
      ensures var any := ColumnsOf(reading, target, e, map[]);
              var direct := Assign(reading, map[], DirectCaptures(reading, target, e));
              SameColumn(reading, target, e, column)
              <==> (column in any <==> column in direct) && (column in any ==> any[column] == direct[column])
    {
      AssignIsLast(reading, Captures(reading, target, e), column);
      AssignIsLast(reading, DirectCaptures(reading, target, e), column);
    }
  }

  /**
   The rows are those of direct children exactly when no column of a row element
   gets another text from deeper down; so they are if only direct children have
   columns' names.
   */
  lemma {:induction false} RowsAreDirect(reading: Reading, target: Target, f: Forest)
    ensures RowsOf(reading, target, f) == DirectRowsOf(reading, target, f)
       <==> forall i, column :: 0 <= i < |RowElements(reading, target, f)| ==>
              SameColumn(reading, target, RowElements(reading, target, f)[i], column)
    ensures (forall i :: 0 <= i < |RowElements(reading, target, f)| ==>
               OnlyDirectColumns(reading, target, RowElements(reading, target, f)[i]))
      ==> RowsOf(reading, target, f) == DirectRowsOf(reading, target, f)
  {
    hide RowsOf, RowElements, SameColumn, Assign, Captures, DirectCaptures, OnlyDirectColumns;
    var es := RowElements(reading, target, f);
    RowsAreElements(reading, target, f);
    forall i | 0 <= i < |es|
      ensures ColumnsOf(reading, target, es[i], map[]) == Assign(reading, map[], DirectCaptures(reading, target, es[i]))
         <==> forall column :: SameColumn(reading, target, es[i], column)
      ensures OnlyDirectColumns(reading, target, es[i]) ==>
        ColumnsOf(reading, target, es[i], map[]) == Assign(reading, map[], DirectCaptures(reading, target, es[i]))
    {
      RowIsDirect(reading, target, es[i]);
      DirectChildrenOnly(reading, target, es[i]);
    }
    assert RowsOf(reading, target, f) == DirectRowsOf(reading, target, f) <==>
      forall i :: 0 <= i < |es| ==>
        ColumnsOf(reading, target, es[i], map[]) == Assign(reading, map[], DirectCaptures(reading, target, es[i])) by {
      if RowsOf(reading, target, f) == DirectRowsOf(reading, target, f) {
        forall i | 0 <= i < |es|
          ensures ColumnsOf(reading, target, es[i], map[])
             == Assign(reading, map[], DirectCaptures(reading, target, es[i]))
        {
          assert RowsOf(reading, target, f)[i] == DirectRowsOf(reading, target, f)[i];
        }
      }
    }
  }

  lemma CancelFront(reading: Reading, target: Target, f: Forest)
    requires f.SelfClosed?
      || (f.Element? && (NameOf(reading, f.tag) == target.elemTag || NameOf(reading, f.tag) in target.columns))
    ensures |Captures(reading, target, f)| - |Captures(reading, target, f.rest)|
       == |DirectCaptures(reading, target, f)| - |DirectCaptures(reading, target, f.rest)|
    ensures Captures(reading, target, f) == DirectCaptures(reading, target, f)
       <==> Captures(reading, target, f.rest) == DirectCaptures(reading, target, f.rest)
  {
    var c, d := Captures(reading, target, f), DirectCaptures(reading, target, f);
    var k := |c| - |Captures(reading, target, f.rest)|;
    assert c[k..] == Captures(reading, target, f.rest) && d[k..] == DirectCaptures(reading, target, f.rest);
    assert c[..k] == d[..k];
    assert c == c[..k] + c[k..] && d == d[..k] + d[k..];
  }

  /** `<r><x><a>1</a></x></r>`: the grandchild `a` is captured. */
  lemma {:induction false} GrandchildIsCaptured()
    ensures var tag := (name: CodeUnit) => Tag([name], []);
            var inner := Element(tag(97), Character(Raw(49), Empty), [], Empty);
            var doc := Element(tag(114), Element(tag(120), inner, [], Empty), [], Empty);
            WellFormed(doc)
            && Scan(Target([114], {[97]}), Print(doc), INITIAL).rows == [map[[97] := [49]]]
  {
    hide Scan, Print, Lex;
    var target := Target([114], {[97]});
    var text := Character(Raw(49), Empty);
    var inner := Element(Tag([97], []), text, [], Empty);
    var middle := Element(Tag([120], []), inner, [], Empty);
    var doc := Element(Tag([114], []), middle, [], Empty);
    assert TextOf(AsCoded, text) == [49];
    assert Captures(AsCoded, target, inner) == [Capture([97], text)];
    assert Captures(AsCoded, target, middle) == [Capture([97], text)];
    assert WellFormed(inner) && WellFormed(middle);
    ScanDocument(target, doc);
  }

  /** Where all names are in ASCII, the rows are XML's exactly when no column's text is cut or holds a raw CR. */
  lemma {:induction false} ScanAsciiDocument(target: Target, f: Forest)
    requires WellFormed(f) && AsciiNames(f)
    ensures Scan(target, Print(f), INITIAL).rows == RowsOf(AsXml, target, f) <==> RowsBasic(target, f)
  {
    hide Scan, Print, WellFormed, RowsOf, RowsBasic, NamesRight, AsciiNames;
    AsciiNamesAreRight(target, f);
    ScanDocument(target, f);
  }

  /** The names a scan looks for are those the wanted columns are mapped to. */
  ghost predicate IsTargetFor(target: Target, elemTag: JsString, columns: seq<JsString>, columnMap: ColumnMap) {
    && target.elemTag == elemTag
    && forall name :: name in target.columns <==> exists c :: c in columns && MapsTo(columnMap, c, name)
  }

  /** A row under its local names: each wanted column has what its remote name has, or is undefined. */
  ghost predicate IsLocalRow(local: LocalRow, row: Row, columns: seq<JsString>, columnMap: ColumnMap) {
    && (forall c :: c in local <==> c in columns)
    && forall c, name :: c in columns && MapsTo(columnMap, c, name) ==>
         local[c] == if name in row then Some(row[name]) else None
  }

  lemma ToLocalIs(row: Row, columns: seq<JsString>, columnMap: ColumnMap)
    ensures IsLocalRow(ToLocal(row, columns, columnMap), row, columns, columnMap)
  {
    hide RemoteName, MapsTo;
    forall c, name | c in columns && MapsTo(columnMap, c, name)
      ensures ToLocal(row, columns, columnMap)[c] == if name in row then Some(row[name]) else None
    {
      RemoteNameIs(columnMap, c, name);
    }
  }

  lemma TargetIs(target: Target, elemTag: JsString, columns: seq<JsString>, columnMap: ColumnMap)
    requires IsTargetFor(target, elemTag, columns, columnMap)
    ensures target == Target(elemTag, set c | c in columns :: RemoteName(columnMap, c))
  {
    hide RemoteName, MapsTo;
    forall name
      ensures name in target.columns <==> name in set c | c in columns :: RemoteName(columnMap, c)
    {
      forall c | c in columns
        ensures name == RemoteName(columnMap, c) <==> MapsTo(columnMap, c, name)
      {
        RemoteNameIs(columnMap, c, name);
      }
    }
  }

  /**
   The rows the module yields for a document: one for each row of the tree that passes the filter, in
   order, with the tree's values under the wanted local names.
   */
  lemma {:induction false} ExecuteDocument(f: Forest, elemTag: JsString, columns: seq<JsString>, columnMap: ColumnMap,
                                           keep: LocalRow -> bool, target: Target)
    returns (locals: seq<LocalRow>)
    requires WellFormed(f) && IsTargetFor(target, elemTag, columns, columnMap)
    ensures Execute(Print(f), elemTag, columns, columnMap, keep) == Filter(locals, keep)
    ensures var rows := RowsOf(AsCoded, target, f);
            |locals| == |rows| && forall i :: 0 <= i < |rows| ==> IsLocalRow(locals[i], rows[i], columns, columnMap)
    ensures AsciiNames(f) ==> (RowsOf(AsCoded, target, f) == RowsOf(AsXml, target, f) <==> RowsBasic(target, f))
  {
    hide Scan, Print, WellFormed, RowsOf, RowsBasic, NamesRight, AsciiNames, ToLocal, IsLocalRow, IsTargetFor;
    TargetIs(target, elemTag, columns, columnMap);
    ScanDocument(target, f);
    locals := Translated(RowsOf(AsCoded, target, f), columns, columnMap);
    forall i | 0 <= i < |locals|
      ensures IsLocalRow(locals[i], RowsOf(AsCoded, target, f)[i], columns, columnMap)
    {
      ToLocalIs(RowsOf(AsCoded, target, f)[i], columns, columnMap);
    }
    if AsciiNames(f) {
      AsciiNamesAreRight(target, f);
    }
  }
}
