/** The tokens of the texts examples/remote_pg_fdw.js builds. */
module RemoteSqlLexing {
  import opened Options
  import opened JsStrings
  import opened Sequences
  import opened JsNumbers
  import opened SqlReader
  import opened RemoteSql

  // ----- what may follow what

  /** The text is over or goes on with a space, a parenthesis or a comma. */
  predicate Loose(rest: JsString) {
    rest == [] || rest[0] == SPACE || rest[0] == LPAREN || rest[0] == RPAREN || rest[0] == SqlReader.COMMA
  }

  /** `text` is read as `toks` when a loose text follows it. */
  ghost predicate Lexes(text: JsString, toks: seq<Token>) {
    forall rest: JsString :: Loose(rest) ==> Lex(text + rest) == toks + Lex(rest)
  }

  /** `text` is read as `toks` whatever follows it. */
  ghost predicate Leads(text: JsString, toks: seq<Token>) {
    forall rest: JsString :: Lex(text + rest) == toks + Lex(rest)
  }

  lemma {:induction false} LexesAlone(text: JsString, toks: seq<Token>)
    requires Lexes(text, toks)
    ensures Lex(text) == toks
  {
    assert Loose([]) && text + [] == text;
    assert Lex(text + []) == toks + Lex([]);
  }

  /** A head, then a text. */
  lemma LexesAfter(head: JsString, headToks: seq<Token>, text: JsString, toks: seq<Token>)
    requires Leads(head, headToks) && Lexes(text, toks)
    ensures Lexes(head + text, headToks + toks)
  {
    hide Lex, Loose;
    forall rest: JsString | Loose(rest)
      ensures Lex(head + text + rest) == headToks + toks + Lex(rest)
    {
      assert head + text + rest == head + (text + rest);
      assert headToks + toks + Lex(rest) == headToks + (toks + Lex(rest));
    }
  }

  lemma LeadsAfter(head: JsString, headToks: seq<Token>, text: JsString, toks: seq<Token>)
    requires Leads(head, headToks) && Leads(text, toks)
    ensures Leads(head + text, headToks + toks)
  {
    hide Lex;
    forall rest: JsString
      ensures Lex(head + text + rest) == headToks + toks + Lex(rest)
    {
      assert head + text + rest == head + (text + rest);
      assert headToks + toks + Lex(rest) == headToks + (toks + Lex(rest));
    }
  }

  /** A text, then one that starts loosely. */
  lemma LexesBefore(text: JsString, toks: seq<Token>, tail: JsString, tailToks: seq<Token>)
    requires Lexes(text, toks) && Lexes(tail, tailToks) && Loose(tail)
    ensures Lexes(text + tail, toks + tailToks)
  {
    hide Lex;
    forall rest: JsString | Loose(rest)
      ensures Lex(text + tail + rest) == toks + tailToks + Lex(rest)
    {
      assert text + tail + rest == text + (tail + rest);
      assert Loose(tail + rest);
      assert toks + tailToks + Lex(rest) == toks + (tailToks + Lex(rest));
    }
  }

  /** A text followed by something that starts loosely no longer minds what comes next. */
  lemma LeadsBefore(text: JsString, toks: seq<Token>, tail: JsString, tailToks: seq<Token>)
    requires Lexes(text, toks) && Leads(tail, tailToks) && Loose(tail) && tail != []
    ensures Leads(text + tail, toks + tailToks)
  {
    hide Lex;
    forall rest: JsString
      ensures Lex(text + tail + rest) == toks + tailToks + Lex(rest)
    {
      assert text + tail + rest == text + (tail + rest);
      assert Loose(tail + rest);
      assert toks + tailToks + Lex(rest) == toks + (tailToks + Lex(rest));
    }
  }

  // ----- single tokens

  lemma LexNext(s: JsString, toks: seq<Token>, k: nat, rest: JsString)
    requires s != [] && NextToken(s).length == k && s[k..] == rest
    requires toks == if NextToken(s).token.Some? then [NextToken(s).token.value] else []
    ensures Lex(s) == toks + Lex(rest)
  {
  }

  lemma SpaceLeads()
    ensures Leads([SPACE], [])
  {
    hide Lex;
    forall rest: JsString
      ensures Lex([SPACE] + rest) == [] + Lex(rest)
    {
      assert ([SPACE] + rest)[1..] == rest;
      LexNext([SPACE] + rest, [], 1, rest);
    }
  }

  lemma MarkLeads(c: CodeUnit)
    requires c == LPAREN || c == RPAREN || c == SqlReader.COMMA
    ensures Leads([c], [Mark(c)])
  {
    hide Lex, WordRun, OperatorRun;
    forall rest: JsString
      ensures Lex([c] + rest) == [Mark(c)] + Lex(rest)
    {
      assert ([c] + rest)[1..] == rest;
      LexNext([c] + rest, [Mark(c)], 1, rest);
    }
  }

  predicate AllLetters(s: JsString) {
    forall i :: 0 <= i < |s| ==> IsLetter(s[i])
  }

  lemma {:induction false} WordRunIs(s: JsString, rest: JsString)
    requires AllLetters(s) && (rest == [] || !IsLetter(rest[0]))
    ensures WordRun(s + rest) == |s|
  {
    if s == [] {
      assert s + rest == rest;
    } else {
      assert (s + rest)[1..] == s[1..] + rest;
      WordRunIs(s[1..], rest);
    }
  }

  lemma WordLexes(s: JsString)
    requires s != [] && AllLetters(s)
    ensures Lexes(s, [Word(s)])
  {
    hide Lex, WordRun, OperatorRun, Quoted;
    forall rest: JsString | Loose(rest)
      ensures Lex(s + rest) == [Word(s)] + Lex(rest)
    {
      WordRunIs(s, rest);
      assert (s + rest)[..|s|] == s && (s + rest)[|s|..] == rest && (s + rest)[0] == s[0];
      LexNext(s + rest, [Word(s)], |s|, rest);
    }
  }

  /** Operator signs among which no comment starts. */
  predicate AllSigns(s: JsString) {
    && (forall i :: 0 <= i < |s| ==> IsSign(s[i]))
    && (forall i :: 0 <= i && i + 1 < |s| ==> !StartsComment(s[i], s[i + 1]))
  }

  lemma {:induction false} OperatorRunIs(s: JsString, rest: JsString)
    requires AllSigns(s) && (rest == [] || !IsSign(rest[0]))
    ensures OperatorRun(s + rest) == |s|
    decreases |s|
  {
    if s == [] {
      assert s + rest == rest;
    } else {
      assert (s + rest)[1..] == s[1..] + rest;
      assert AllSigns(s[1..]);
      OperatorRunIs(s[1..], rest);
      if |s| > 1 {
        assert (s + rest)[1] == s[1];
      } else if rest != [] {
        assert (s + rest)[1] == rest[0];
      }
    }
  }

  lemma OperatorLexes(s: JsString)
    requires s != [] && AllSigns(s)
    ensures Lexes(s, [Operator(s)])
  {
    hide Lex, WordRun, OperatorRun, Quoted;
    forall rest: JsString | Loose(rest)
      ensures Lex(s + rest) == [Operator(s)] + Lex(rest)
    {
      OperatorRunIs(s, rest);
      assert (s + rest)[..|s|] == s && (s + rest)[|s|..] == rest && (s + rest)[0] == s[0];
      assert IsSign(s[0]);
      LexNext(s + rest, [Operator(s)], |s|, rest);
    }
  }

  lemma PlaceholderLexes(n: nat)
    ensures Lexes(Placeholder(n), [Param(n)])
  {
    hide Lex, WordRun, OperatorRun, Quoted, Numeral, NumeralValue, DigitRun;
    var digits := Numeral(n, Decimal);
    NumeralRoundTrip(n, Decimal);
    forall rest: JsString | Loose(rest)
      ensures Lex(Placeholder(n) + rest) == [Param(n)] + Lex(rest)
    {
      var s := Placeholder(n) + rest;
      assert s[1..] == digits + rest;
      DigitRunIs(digits, rest, Decimal);
      assert s[1..][..|digits|] == digits;
      assert s[1 + |digits|..] == rest;
      LexNext(s, [Param(n)], 1 + |digits|, rest);
    }
  }

  lemma {:induction false} QuotedDoubled(name: JsString, rest: JsString)
    requires rest == [] || rest[0] != QUOTE
    ensures Quoted(Doubled(name, [QUOTE]) + [QUOTE] + rest) == Quotation(name, |Doubled(name, [QUOTE])| + 1)
    decreases |name|
  {
    var s := Doubled(name, [QUOTE]) + [QUOTE] + rest;
    if name == [] {
      assert s == [QUOTE] + rest;
    } else {
      var tail := Doubled(name[1..], [QUOTE]) + [QUOTE] + rest;
      var k := if name[0] == QUOTE then 2 else 1;
      assert s[k..] == tail;
      assert s[0] == name[0];
      QuotedDoubled(name[1..], rest);
      assert [name[0]] + name[1..] == name;
    }
  }

  /** The lexer recovers every name from quoteIdent. */
  lemma QuoteIdentLexes(name: JsString)
    requires IsName(name)
    ensures Lexes(QuoteIdent(name), [Name(name)])
  {
    hide Lex, Quoted, Doubled;
    forall rest: JsString | Loose(rest)
      ensures Lex(QuoteIdent(name) + rest) == [Name(name)] + Lex(rest)
    {
      var s := QuoteIdent(name) + rest;
      QuotedDoubled(name, rest);
      assert s[1..] == Doubled(name, [QUOTE]) + [QUOTE] + rest;
      assert s[|Doubled(name, [QUOTE])| + 2..] == rest;
      LexNext(s, [Name(name)], |Doubled(name, [QUOTE])| + 2, rest);
    }
  }

  /** What quoteIdent gives is one identifier exactly for a name that SQL can delimit at all. */
  lemma {:induction false} QuoteIdentExactly(name: JsString)
    ensures Lex(QuoteIdent(name)) == [Name(name)] <==> IsName(name)
  {
    hide Lex, Quoted, Doubled;
    if IsName(name) {
      QuoteIdentLexes(name);
      LexesAlone(QuoteIdent(name), [Name(name)]);
    } else {
      var s := QuoteIdent(name);
      QuotedDoubled(name, []);
      assert s[1..] == Doubled(name, [QUOTE]) + [QUOTE] + [];
      assert s[0] == QUOTE && NextToken(s) == Lexed(Some(Mark(QUOTE)), 1);
      LexNext(s, [Mark(QUOTE)], 1, s[1..]);
      assert Lex(s)[0] == Mark(QUOTE);
    }
  }

  // ----- key words and separators

  lemma KeyWordLexes(s: string)
    requires s != "" && forall i :: 0 <= i < |s| ==> 'A' <= s[i] <= 'Z'
    ensures Lexes(Ascii(s), [KeyWord(s)])
  {
    hide Lexes;
    WordLexes(Ascii(s));
  }

  /** A key word and a space after it. */
  lemma KeyWordLeads(s: string)
    requires s != "" && forall i :: 0 <= i < |s| ==> 'A' <= s[i] <= 'Z'
    ensures Leads(Ascii(s) + [SPACE], [KeyWord(s)])
  {
    hide Leads, Lexes;
    KeyWordLexes(s);
    SpaceLeads();
    LeadsBefore(Ascii(s), [KeyWord(s)], [SPACE], []);
    assert [KeyWord(s)] + [] == [KeyWord(s)];
  }

  /** A key word with a space on either side. */
  lemma KeyWordBetween(s: string)
    requires s != "" && forall i :: 0 <= i < |s| ==> 'A' <= s[i] <= 'Z'
    ensures Leads([SPACE] + Ascii(s) + [SPACE], [KeyWord(s)])
  {
    hide Leads;
    KeyWordLeads(s);
    SpaceLeads();
    LeadsAfter([SPACE], [], Ascii(s) + [SPACE], [KeyWord(s)]);
    assert [SPACE] + (Ascii(s) + [SPACE]) == [SPACE] + Ascii(s) + [SPACE];
    assert [] + [KeyWord(s)] == [KeyWord(s)];
  }

  lemma CommaBetween()
    ensures Leads(Ascii(", "), [Mark(SqlReader.COMMA)])
  {
    hide Leads;
    MarkLeads(SqlReader.COMMA);
    SpaceLeads();
    LeadsAfter([SqlReader.COMMA], [Mark(SqlReader.COMMA)], [SPACE], []);
    assert Ascii(", ") == [SqlReader.COMMA] + [SPACE];
    assert [Mark(SqlReader.COMMA)] + [] == [Mark(SqlReader.COMMA)];
  }

  /** Texts joined by a separator that starts loosely are read one after the other. */
  lemma {:induction false} JoinLexes(texts: seq<JsString>, toks: seq<seq<Token>>, sep: JsString, sepToks: seq<Token>)
    requires |texts| == |toks| && forall i :: 0 <= i < |texts| ==> Lexes(texts[i], toks[i])
    requires Leads(sep, sepToks) && sep != [] && Loose(sep)
    ensures Lexes(Join(texts, sep), Join(toks, sepToks))
    decreases |texts|
  {
    hide Leads, Loose;
    if texts == [] {
      assert forall rest: JsString :: [] + rest == rest && [] + Lex(rest) == Lex(rest);
    } else if |texts| > 1 {
      hide Lexes;
      JoinLexes(texts[1..], toks[1..], sep, sepToks);
      LeadsBefore(texts[0], toks[0], sep, sepToks);
      LexesAfter(texts[0] + sep, toks[0] + sepToks, Join(texts[1..], sep), Join(toks[1..], sepToks));
    }
  }
}
