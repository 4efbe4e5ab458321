/**
 What the statements of examples/remote_pg_fdw.js mean: read back with their
 parameters, they give the tables, columns, conditions and values they were
 built from.
 */
module RemoteSqlMeaning {
  import opened Options
  import opened Sequences
  import opened ColumnMaps
  import opened JsStrings
  import opened SqlReader
  import opened RemoteSql
  import opened RemoteSqlLexing

  const COMMA_MARK: Token := Mark(SqlReader.COMMA)

  // ----- reading what is shown

  function Shown<T>(show: T -> seq<Token>, xs: seq<T>): seq<seq<Token>> {
    seq(|xs|, i requires 0 <= i < |xs| => show(xs[i]))
  }

  lemma {:induction false} ReadShown<T>(item: seq<Token> -> Option<Read<T>>, show: T -> seq<Token>, sep: Token,
                                        xs: seq<T>, rest: seq<Token>)
    requires xs != [] && (rest == [] || rest[0] != sep)
    requires forall x, r :: x in xs ==> item(show(x) + r) == Some(Read(x, r))
    ensures ReadList(item, sep, Join(Shown(show, xs), [sep]) + rest) == Some(Read(xs, rest))
    decreases |xs|
  {
    var toks := Join(Shown(show, xs), [sep]) + rest;
    if |xs| == 1 {
      assert toks == show(xs[0]) + rest;
      assert xs[0] in xs;
      assert xs == [xs[0]];
    } else {
      var others := Join(Shown(show, xs[1..]), [sep]) + rest;
      assert Shown(show, xs)[1..] == Shown(show, xs[1..]);
      assert toks == show(xs[0]) + ([sep] + others);
      assert xs[0] in xs;
      assert item(toks) == Some(Read(xs[0], [sep] + others));
      assert ([sep] + others)[1..] == others;
      ReadShown(item, show, sep, xs[1..], rest);
      assert xs == [xs[0]] + xs[1..];
    }
  }

  function ShownClause<T>(head: seq<Token>, show: T -> seq<Token>, sep: Token, xs: seq<T>): seq<Token> {
    if xs == [] then [] else head + Join(Shown(show, xs), [sep])
  }

  lemma ReadShownClause<T>(head: seq<Token>, item: seq<Token> -> Option<Read<T>>, show: T -> seq<Token>, sep: Token,
                           xs: seq<T>, rest: seq<Token>)
    requires (rest == [] || rest[0] != sep) && !Starts(rest, head)
    requires forall x, r :: x in xs ==> item(show(x) + r) == Some(Read(x, r))
    ensures ReadClause(head, item, sep, ShownClause(head, show, sep, xs) + rest) == Some(Read(xs, rest))
  {
    hide ReadList;
    var toks := ShownClause(head, show, sep, xs) + rest;
    if xs == [] {
      assert toks == rest;
    } else {
      var list := Join(Shown(show, xs), [sep]) + rest;
      assert toks == head + list;
      assert toks[..|head|] == head && toks[|head|..] == list;
      ReadShown(item, show, sep, xs, rest);
    }
  }

  function ShownList<T>(show: T -> seq<Token>, xs: seq<T>): seq<Token> {
    [Mark(LPAREN)] + Join(Shown(show, xs), [COMMA_MARK]) + [Mark(RPAREN)]
  }

  lemma ReadShownList<T>(item: seq<Token> -> Option<Read<T>>, show: T -> seq<Token>, xs: seq<T>, rest: seq<Token>)
    requires xs != []
    requires forall x, r :: x in xs ==> item(show(x) + r) == Some(Read(x, r))
    ensures ReadParenthesised(item, ShownList(show, xs) + rest) == Some(Read(xs, rest))
  {
    hide ReadList, Join;
    var toks := ShownList(show, xs) + rest;
    assert toks[1..] == Join(Shown(show, xs), [COMMA_MARK]) + ([Mark(RPAREN)] + rest);
    assert ([Mark(RPAREN)] + rest)[1..] == rest && ([Mark(RPAREN)] + rest)[..1] == [Mark(RPAREN)];
    assert toks[..1] == [Mark(LPAREN)];
    ReadShown(item, show, COMMA_MARK, xs, [Mark(RPAREN)] + rest);
  }

  // ----- the parts of statements

  /** The operators fdw.c pushes down. */
  predicate IsOperator(op: JsString) {
    op == EQ || op == Ascii("<>") || op == Ascii("<") || op == Ascii("<=") || op == Ascii(">") || op == Ascii(">=")
  }

  lemma OperatorsAreSigns(op: JsString)
    requires IsOperator(op)
    ensures op != [] && AllSigns(op)
  {
    assert Ascii("<")[0] == 60 && Ascii(">")[0] == 62 && EQ[0] == 61;
    assert Ascii("<>")[0] == 60 && Ascii("<>")[1] == 62;
    assert Ascii("<=")[0] == 60 && Ascii("<=")[1] == 61;
    assert Ascii(">=")[0] == 62 && Ascii(">=")[1] == 61;
  }

  function ShowName(name: JsString): seq<Token> {
    [Name(name)]
  }

  function ShowParam(n: nat): seq<Token> {
    [Param(n)]
  }

  function ShowItem(item: Item<nat>): seq<Token> {
    [Name(item.name), Operator(item.op), Param(item.value)]
  }

  function ShowColumn(c: Column): seq<Token> {
    [Name(c.remote), KeyWord("AS"), Name(c.alias)]
  }

  function ShowOrdering(o: Ordering): seq<Token> {
    [Name(o.name), KeyWord(if o.desc then "DESC" else "ASC"), KeyWord("NULLS"),
     KeyWord(if o.nullsFirst then "FIRST" else "LAST")]
  }

  function ShowTuple(ns: seq<nat>): seq<Token> {
    ShownList(ShowParam, ns)
  }

  lemma ReadsBack()
    ensures forall x, r :: ReadName(ShowName(x) + r) == Some(Read(x, r))
    ensures forall x: nat, r: seq<Token> :: ReadParam(ShowParam(x) + r) == Some(Read(x, r))
    ensures forall x: Item<nat>, r: seq<Token> :: ReadItem(ShowItem(x) + r) == Some(Read(x, r))
    ensures forall x, r :: ReadColumn(ShowColumn(x) + r) == Some(Read(x, r))
  {
    hide Ascii;
  }

  lemma AssignmentReadsBack(x: Item<nat>, r: seq<Token>)
    requires x.op == EQ
    ensures ReadAssignment(ShowItem(x) + r) == Some(Read(x, r))
  {
  }

  lemma OrderingReadsBack()
    ensures forall x, r :: ReadOrdering(ShowOrdering(x) + r) == Some(Read(x, r))
  {
    KeyWordsDiffer();
    hide Ascii;
  }

  lemma KeyWordsDiffer()
    ensures KeyWord("ASC") != KeyWord("DESC") && KeyWord("FIRST") != KeyWord("LAST")
    ensures KeyWord("WHERE") != KeyWord("ORDER") && KeyWord("WHERE") != KeyWord("RETURNING")
    ensures KeyWord("AND") != KeyWord("ORDER") && KeyWord("AND") != KeyWord("RETURNING")
    ensures KeyWord("SELECT") != KeyWord("INSERT") && KeyWord("SELECT") != KeyWord("UPDATE")
    ensures KeyWord("SELECT") != KeyWord("DELETE") && KeyWord("INSERT") != KeyWord("UPDATE")
    ensures KeyWord("INSERT") != KeyWord("DELETE") && KeyWord("UPDATE") != KeyWord("DELETE")
  {
    hide KeyWord;
    Differ("ASC", "DESC");
    Differ("FIRST", "LAST");
    Differ("WHERE", "ORDER");
    Differ("WHERE", "RETURNING");
    Differ("AND", "ORDER");
    Differ("AND", "RETURNING");
    Differ("SELECT", "INSERT");
    Differ("SELECT", "UPDATE");
    Differ("SELECT", "DELETE");
    Differ("INSERT", "UPDATE");
    Differ("INSERT", "DELETE");
    Differ("UPDATE", "DELETE");
  }

  lemma Differ(a: string, b: string)
    requires forall i :: 0 <= i < |a| ==> a[i] < 128 as char
    requires forall i :: 0 <= i < |b| ==> b[i] < 128 as char
    requires a != "" && b != "" && a[0] != b[0]
    ensures KeyWord(a) != KeyWord(b)
  {
    assert Ascii(a)[0] != Ascii(b)[0];
  }

  // ----- what they are read as

  lemma SpaceBetween(a: JsString, ta: seq<Token>, b: JsString, tb: seq<Token>)
    requires Lexes(a, ta) && Lexes(b, tb)
    ensures Lexes(a + Ascii(" ") + b, ta + tb)
  {
    hide Lexes, Leads;
    SpaceLeads();
    assert Ascii(" ") == [SPACE];
    LexesAfter([SPACE], [], b, tb);
    assert [] + tb == tb;
    LexesBefore(a, ta, [SPACE] + b, tb);
    assert a + ([SPACE] + b) == a + [SPACE] + b;
  }

  lemma ConditionLexes(m: ColumnMap, q: Qual, n: nat)
    requires IsOperator(q.operator) && IsName(RemoteName(m, q.column))
    ensures Lexes(ConditionText(m, q, n), ShowItem(Item(RemoteName(m, q.column), q.operator, n)))
  {
    hide Lexes, QuoteIdent, Placeholder, Ascii, IsOperator, IsName, AllSigns;
    var name := RemoteName(m, q.column);
    QuoteIdentLexes(name);
    OperatorsAreSigns(q.operator);
    OperatorLexes(q.operator);
    PlaceholderLexes(n);
    SpaceBetween(QuoteIdent(name), [Name(name)], q.operator, [Operator(q.operator)]);
    SpaceBetween(QuoteIdent(name) + Ascii(" ") + q.operator, [Name(name)] + [Operator(q.operator)], Placeholder(n),
                 [Param(n)]);
    assert [Name(name)] + [Operator(q.operator)] + [Param(n)] == ShowItem(Item(name, q.operator, n));
  }

  lemma AssignmentLexes(name: JsString, n: nat)
    requires IsName(name)
    ensures Lexes(AssignmentText(name, n), ShowItem(Item(name, EQ, n)))
  {
    hide RemoteName;
    assert IsOperator(EQ);
    assert RemoteName(map[], name) == name by { NoMapping(name); }
    ConditionLexes(map[], Qual(name, EQ, None), n);
    assert Ascii(" = ") == Ascii(" ") + EQ + Ascii(" ");
    assert AssignmentText(name, n) == ConditionText(map[], Qual(name, EQ, None), n);
  }

  lemma NoMapping(name: JsString)
    ensures RemoteName(map[], name) == name
  {
  }

  lemma ColumnLexes(m: ColumnMap, c: JsString)
    requires IsName(RemoteName(m, c)) && IsName(c)
    ensures Lexes(ColumnText(m, c), ShowColumn(Column(RemoteName(m, c), c)))
  {
    hide Lexes, QuoteIdent, Ascii, Leads;
    var remote := RemoteName(m, c);
    QuoteIdentLexes(remote);
    QuoteIdentLexes(c);
    KeyWordLexes("AS");
    SpaceBetween(QuoteIdent(remote), [Name(remote)], Ascii("AS"), [KeyWord("AS")]);
    SpaceBetween(QuoteIdent(remote) + Ascii(" ") + Ascii("AS"), [Name(remote)] + [KeyWord("AS")], QuoteIdent(c),
                 [Name(c)]);
    AsIsSplit();
    assert ColumnText(m, c) == QuoteIdent(remote) + Ascii(" ") + Ascii("AS") + Ascii(" ") + QuoteIdent(c);
    assert [Name(remote)] + [KeyWord("AS")] + [Name(c)] == ShowColumn(Column(remote, c));
  }

  lemma AsIsSplit()
    ensures Ascii(" AS ") == Ascii(" ") + Ascii("AS") + Ascii(" ")
  {
  }

  lemma OrderingLexes(m: ColumnMap, key: SortKey)
    requires IsName(RemoteName(m, key.column))
    ensures Lexes(OrderingText(m, key), ShowOrdering(Ordering(RemoteName(m, key.column), key.desc, key.nullsFirst)))
  {
    hide Lexes, QuoteIdent, Ascii;
    var name := RemoteName(m, key.column);
    var direction, place := if key.desc then "DESC" else "ASC", if key.nullsFirst then "FIRST" else "LAST";
    QuoteIdentLexes(name);
    KeyWordLexes(direction);
    KeyWordLexes("NULLS");
    KeyWordLexes(place);
    var a := QuoteIdent(name) + Ascii(" ") + Ascii(direction);
    SpaceBetween(QuoteIdent(name), [Name(name)], Ascii(direction), [KeyWord(direction)]);
    SpaceBetween(a, [Name(name)] + [KeyWord(direction)], Ascii("NULLS"), [KeyWord("NULLS")]);
    SpaceBetween(a + Ascii(" ") + Ascii("NULLS"), [Name(name)] + [KeyWord(direction)] + [KeyWord("NULLS")],
                 Ascii(place), [KeyWord(place)]);
    NullsIsSplit();
    RegroupNulls(a + Ascii(" "), Ascii("NULLS"), Ascii(" "), Ascii(place));
    FourTokens(Name(name), KeyWord(direction), KeyWord("NULLS"), KeyWord(place));
  }

  lemma RegroupNulls(a: JsString, b: JsString, c: JsString, d: JsString)
    ensures a + b + c + d == a + (b + c + d)
  {
  }

  lemma FourTokens(a: Token, b: Token, c: Token, d: Token)
    ensures [a] + [b] + [c] + [d] == [a, b, c, d]
  {
  }

  lemma NullsIsSplit()
    ensures Ascii("NULLS FIRST") == Ascii("NULLS") + Ascii(" ") + Ascii("FIRST")
    ensures Ascii("NULLS LAST") == Ascii("NULLS") + Ascii(" ") + Ascii("LAST")
  {
  }

  // ----- lists and clauses

  /** Texts that are each read as their item, joined by commas. */
  lemma CommaListLexes<T>(texts: seq<JsString>, show: T -> seq<Token>, xs: seq<T>)
    requires |texts| == |xs| && forall i :: 0 <= i < |xs| ==> Lexes(texts[i], show(xs[i]))
    ensures Lexes(Join(texts, Ascii(", ")), Join(Shown(show, xs), [COMMA_MARK]))
  {
    hide Lexes, Leads, Join;
    CommaBetween();
    JoinLexes(texts, Shown(show, xs), Ascii(", "), [COMMA_MARK]);
  }

  /** The conditions, with the numbers of their parameters. */
  function Conditions(quals: seq<Qual>, m: ColumnMap): seq<Item<Parameter>> {
    seq(|quals|, i requires 0 <= i < |quals| => Item(RemoteName(m, quals[i].column), quals[i].operator, quals[i].value))
  }

  /** Quals as fdw.c makes them: supported operators, and remote names that SQL can delimit. */
  predicate ValidQuals(quals: seq<Qual>, m: ColumnMap) {
    forall i :: 0 <= i < |quals| ==> IsOperator(quals[i].operator) && IsName(RemoteName(m, quals[i].column))
  }

  predicate ValidKeys(keys: seq<SortKey>, m: ColumnMap) {
    forall i :: 0 <= i < |keys| ==> IsName(RemoteName(m, keys[i].column))
  }

  function WhereToks(items: seq<Item<nat>>): seq<Token> {
    ShownClause([KeyWord("WHERE")], ShowItem, KeyWord("AND"), items)
  }

  lemma NothingLexes()
    ensures Lexes([], [])
  {
    assert forall rest: JsString :: [] + rest == rest && [] + Lex(rest) == Lex(rest);
  }

  lemma WhereLexes(quals: seq<Qual>, m: ColumnMap, offset: nat)
    requires ValidQuals(quals, m)
    ensures Lexes(WhereText(quals, m, offset), WhereToks(NumberItems(Conditions(quals, m), offset)))
    ensures Loose(WhereText(quals, m, offset))
  {
    hide Lexes, Leads, Join, ConditionText, IsOperator, IsName;
    var items := NumberItems(Conditions(quals, m), offset);
    if quals == [] {
      NothingLexes();
    } else {
      forall i | 0 <= i < |quals|
        ensures Lexes(ConditionTexts(quals, m, offset)[i], ShowItem(items[i]))
      {
        ConditionLexes(m, quals[i], offset + i + 1);
      }
      KeyWordBetween("AND");
      KeyWordBetween("WHERE");
      assert Ascii(" AND ") == [SPACE] + Ascii("AND") + [SPACE]
        && Ascii(" WHERE ") == [SPACE] + Ascii("WHERE") + [SPACE];
      JoinLexes(ConditionTexts(quals, m, offset), Shown(ShowItem, items), Ascii(" AND "), [KeyWord("AND")]);
      LexesAfter(Ascii(" WHERE "), [KeyWord("WHERE")], Join(ConditionTexts(quals, m, offset), Ascii(" AND ")),
                 Join(Shown(ShowItem, items), [KeyWord("AND")]));
    }
  }

  /** The end of a statement, or a key word other than WHERE and AND. */
  predicate AfterWhere(rest: seq<Token>) {
    rest == [] || rest[0] == KeyWord("ORDER") || rest[0] == KeyWord("RETURNING")
  }

  lemma ReadWhereToks(items: seq<Item<nat>>, rest: seq<Token>)
    requires AfterWhere(rest)
    ensures ReadWhere(WhereToks(items) + rest) == Some(Read(items, rest))
  {
    hide ReadItem, ShowItem, ReadClause, ShownClause, ReadList;
    KeyWordsDiffer();
    ReadsBack();
    assert !Starts(rest, [KeyWord("WHERE")]) by {
      if rest != [] {
        assert rest[..1][0] == rest[0];
      }
    }
    ReadShownClause([KeyWord("WHERE")], ReadItem, ShowItem, KeyWord("AND"), items, rest);
  }

  function Orderings(keys: seq<SortKey>, m: ColumnMap): seq<Ordering> {
    seq(|keys|, i requires 0 <= i < |keys| => Ordering(RemoteName(m, keys[i].column), keys[i].desc, keys[i].nullsFirst))
  }

  function OrderToks(os: seq<Ordering>): seq<Token> {
    ShownClause([KeyWord("ORDER"), KeyWord("BY")], ShowOrdering, COMMA_MARK, os)
  }

  lemma OrderByLexes(keys: seq<SortKey>, m: ColumnMap)
    requires ValidKeys(keys, m)
    ensures Lexes(OrderByText(keys, m), OrderToks(Orderings(keys, m))) && Loose(OrderByText(keys, m))
  {
    hide Lexes, Leads, Join, OrderingText, IsName;
    var os := Orderings(keys, m);
    if keys == [] {
      NothingLexes();
    } else {
      var texts := seq(|keys|, i requires 0 <= i < |keys| => OrderingText(m, keys[i]));
      forall i | 0 <= i < |keys|
        ensures Lexes(texts[i], ShowOrdering(os[i]))
      {
        OrderingLexes(m, keys[i]);
      }
      CommaListLexes(texts, ShowOrdering, os);
      OrderByHead();
      LexesAfter(Ascii(" ORDER BY "), [KeyWord("ORDER"), KeyWord("BY")], Join(texts, Ascii(", ")),
                 Join(Shown(ShowOrdering, os), [COMMA_MARK]));
    }
  }

  lemma OrderByHead()
    ensures Leads(Ascii(" ORDER BY "), [KeyWord("ORDER"), KeyWord("BY")])
  {
    hide Leads;
    KeyWordBetween("ORDER");
    KeyWordLeads("BY");
    LeadsAfter([SPACE] + Ascii("ORDER") + [SPACE], [KeyWord("ORDER")], Ascii("BY") + [SPACE], [KeyWord("BY")]);
    assert Ascii(" ORDER BY ") == [SPACE] + Ascii("ORDER") + [SPACE] + (Ascii("BY") + [SPACE]);
    assert [KeyWord("ORDER")] + [KeyWord("BY")] == [KeyWord("ORDER"), KeyWord("BY")];
  }

  lemma ReadOrderToks(os: seq<Ordering>)
    ensures ReadClause([KeyWord("ORDER"), KeyWord("BY")], ReadOrdering, COMMA_MARK, OrderToks(os)) == Some(Read(os, []))
  {
    hide ReadOrdering, ShowOrdering, ReadClause, ShownClause;
    OrderingReadsBack();
    ReadShownClause([KeyWord("ORDER"), KeyWord("BY")], ReadOrdering, ShowOrdering, COMMA_MARK, os, []);
    assert OrderToks(os) + [] == OrderToks(os);
  }
}
