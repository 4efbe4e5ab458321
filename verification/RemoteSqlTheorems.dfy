/** Every statement of examples/remote_pg_fdw.js, read back with its parameters, is the one that was meant. */
module RemoteSqlTheorems {
  import opened Options
  import opened Sequences
  import opened ColumnMaps
  import opened JsStrings
  import opened SqlReader
  import opened RemoteSql
  import opened RemoteSqlLexing
  import opened RemoteSqlMeaning

  // ----- texts

  lemma Phrases()
    ensures Leads(Ascii("SELECT "), [KeyWord("SELECT")])
    ensures Leads(Ascii(" FROM "), [KeyWord("FROM")])
    ensures Leads(Ascii("UPDATE "), [KeyWord("UPDATE")])
    ensures Leads(Ascii(" SET "), [KeyWord("SET")])
    ensures Leads(Ascii(" WHERE "), [KeyWord("WHERE")])
  {
    hide Leads;
    KeyWordLeads("SELECT");
    KeyWordBetween("FROM");
    KeyWordLeads("UPDATE");
    KeyWordBetween("SET");
    KeyWordBetween("WHERE");
    assert Ascii("SELECT ") == Ascii("SELECT") + [SPACE] && Ascii(" FROM ") == [SPACE] + Ascii("FROM") + [SPACE];
    assert Ascii("UPDATE ") == Ascii("UPDATE") + [SPACE] && Ascii(" SET ") == [SPACE] + Ascii("SET") + [SPACE];
    assert Ascii(" WHERE ") == [SPACE] + Ascii("WHERE") + [SPACE];
  }

  lemma TwoWords(a: string, b: string)
    requires a != "" && forall i :: 0 <= i < |a| ==> 'A' <= a[i] <= 'Z'
    requires b != "" && forall i :: 0 <= i < |b| ==> 'A' <= b[i] <= 'Z'
    ensures Leads(Ascii(a) + [SPACE] + (Ascii(b) + [SPACE]), [KeyWord(a), KeyWord(b)])
  {
    hide Leads;
    KeyWordLeads(a);
    KeyWordLeads(b);
    LeadsAfter(Ascii(a) + [SPACE], [KeyWord(a)], Ascii(b) + [SPACE], [KeyWord(b)]);
    assert [KeyWord(a)] + [KeyWord(b)] == [KeyWord(a), KeyWord(b)];
  }

  lemma LongPhrases()
    ensures Leads(Ascii("INSERT INTO "), [KeyWord("INSERT"), KeyWord("INTO")])
    ensures Leads(Ascii("DELETE FROM "), [KeyWord("DELETE"), KeyWord("FROM")])
  {
    hide Leads;
    TwoWords("INSERT", "INTO");
    TwoWords("DELETE", "FROM");
    assert Ascii("INSERT INTO ") == Ascii("INSERT") + [SPACE] + (Ascii("INTO") + [SPACE]);
    assert Ascii("DELETE FROM ") == Ascii("DELETE") + [SPACE] + (Ascii("FROM") + [SPACE]);
  }

  const RETURNING_TOKS: seq<Token> := [KeyWord("RETURNING"), STAR]

  lemma StarIsSign()
    ensures AllSigns(Ascii("*")) && Ascii("*") != []
  {
    assert Ascii("*")[0] == 42;
  }

  lemma ReturningLexes()
    ensures Lexes(Ascii(" RETURNING *"), RETURNING_TOKS) && Loose(Ascii(" RETURNING *"))
  {
    hide Lexes, Leads;
    KeyWordBetween("RETURNING");
    StarIsSign();
    OperatorLexes(Ascii("*"));
    LexesAfter([SPACE] + Ascii("RETURNING") + [SPACE], [KeyWord("RETURNING")], Ascii("*"), [STAR]);
    assert Ascii(" RETURNING *") == [SPACE] + Ascii("RETURNING") + [SPACE] + Ascii("*");
    assert [KeyWord("RETURNING")] + [STAR] == RETURNING_TOKS;
  }

  // ----- DELETE

  lemma DeleteLexes(table: JsString, quals: seq<Qual>)
    requires IsName(table) && ValidQuals(quals, map[])
    ensures Lexes(DeleteText(table, quals),
                  [KeyWord("DELETE"), KeyWord("FROM"), Name(table)]
                    + WhereToks(NumberItems(Conditions(quals, map[]), 0)))
  {
    hide Lexes, Leads, Loose, WhereText, QuoteIdent, Ascii, ValidQuals, WhereToks;
    LongPhrases();
    QuoteIdentLexes(table);
    WhereLexes(quals, map[], 0);
    LexesAfter(Ascii("DELETE FROM "), [KeyWord("DELETE"), KeyWord("FROM")], QuoteIdent(table), [Name(table)]);
    assert [KeyWord("DELETE"), KeyWord("FROM")] + [Name(table)] == [KeyWord("DELETE"), KeyWord("FROM"), Name(table)];
    LexesBefore(Ascii("DELETE FROM ") + QuoteIdent(table), [KeyWord("DELETE"), KeyWord("FROM"), Name(table)],
                WhereText(quals, map[], 0), WhereToks(NumberItems(Conditions(quals, map[]), 0)));
  }

  /** The statement at the head of some tokens. */
  lemma ReadHead(toks: seq<Token>)
    ensures ReadStatement([KeyWord("SELECT")] + toks) == ReadSelect(toks)
    ensures ReadStatement([KeyWord("INSERT"), KeyWord("INTO")] + toks) == ReadInsert(toks)
    ensures ReadStatement([KeyWord("UPDATE")] + toks) == ReadUpdate(toks)
    ensures ReadStatement([KeyWord("DELETE"), KeyWord("FROM")] + toks) == ReadDelete(toks)
  {
    hide ReadSelect, ReadInsert, ReadUpdate, ReadDelete, Ascii;
    KeyWordsDiffer();
    DropHead([KeyWord("SELECT")], toks);
    DropHead([KeyWord("INSERT"), KeyWord("INTO")], toks);
    DropHead([KeyWord("UPDATE")], toks);
    DropHead([KeyWord("DELETE"), KeyWord("FROM")], toks);
    FirstOf([KeyWord("INSERT"), KeyWord("INTO")] + toks);
    FirstOf([KeyWord("UPDATE")] + toks);
    FirstOf([KeyWord("DELETE"), KeyWord("FROM")] + toks);
  }

  lemma DropHead(head: seq<Token>, toks: seq<Token>)
    ensures Starts(head + toks, head) && (head + toks)[|head|..] == toks
  {
  }

  /** What tokens start with says what is first. */
  lemma FirstOf(toks: seq<Token>)
    ensures forall t: Token, others: seq<Token> :: Starts(toks, [t] + others) ==> toks != [] && toks[0] == t
    ensures forall t: Token :: Starts(toks, [t]) ==> toks != [] && toks[0] == t
    ensures forall t: Token, u: Token :: Starts(toks, [t, u]) ==> toks != [] && toks[0] == t
  {
    assert forall t: Token, others: seq<Token> :: Starts(toks, [t] + others) ==> toks[..|[t] + others|][0] == toks[0];
    assert forall t: Token :: Starts(toks, [t]) ==> toks[..1][0] == toks[0];
    assert forall t: Token, u: Token :: Starts(toks, [t, u]) ==> toks[..2][0] == toks[0];
  }

  lemma ReadTable(table: JsString, rest: seq<Token>)
    ensures ReadName([Name(table)] + rest) == Some(Read(table, rest))
  {
  }

  /** `deleteWhere` deletes by exactly the quals it was given. */
  lemma DeleteMeans(table: JsString, quals: seq<Qual>)
    requires IsName(table) && ValidQuals(quals, map[])
    ensures Means(DeleteText(table, quals), QualValues(quals), Statement.Delete(table, Conditions(quals, map[])))
  {
    hide Lexes, Lex, ReadStatement, ReadWhere, WhereToks, Ascii, DeleteText, ValidQuals;
    var items := NumberItems(Conditions(quals, map[]), 0);
    DeleteLexes(table, quals);
    var toks := [KeyWord("DELETE"), KeyWord("FROM"), Name(table)] + WhereToks(items);
    LexesAlone(DeleteText(table, quals), toks);
    assert toks == [KeyWord("DELETE"), KeyWord("FROM")] + ([Name(table)] + WhereToks(items));
    ReadHead([Name(table)] + WhereToks(items));
    ReadTable(table, WhereToks(items));
    ReadWhereToks(items, []);
    assert WhereToks(items) + [] == WhereToks(items);
    assert ItemValues(Conditions(quals, map[])) == QualValues(quals);
  }

  // ----- UPDATE

  /** A row as assignments. */
  function Assignments(row: Record): seq<Item<Parameter>> {
    seq(|row|, i requires 0 <= i < |row| => Item(row[i].name, EQ, row[i].value))
  }

  predicate ValidNames(names: seq<JsString>) {
    forall i :: 0 <= i < |names| ==> IsName(names[i])
  }

  predicate ValidEntries(row: Record) {
    forall i :: 0 <= i < |row| ==> IsName(row[i].name)
  }

  function UpdateToks(table: JsString, sets: seq<Item<nat>>, rest: seq<Token>): seq<Token> {
    [KeyWord("UPDATE")] + ([Name(table)] + ([KeyWord("SET")] + (Join(Shown(ShowItem, sets), [COMMA_MARK]) + rest)))
  }

  lemma SetLexes(row: Record)
    requires ValidEntries(row)
    ensures Lexes(SetText(row), Join(Shown(ShowItem, NumberItems(Assignments(row), 0)), [COMMA_MARK]))
  {
    hide Lexes, Join, AssignmentText, ShowItem, IsName;
    var texts := seq(|row|, i requires 0 <= i < |row| => AssignmentText(row[i].name, i + 1));
    var items := NumberItems(Assignments(row), 0);
    forall i | 0 <= i < |row|
      ensures Lexes(texts[i], ShowItem(items[i]))
    {
      AssignmentLexes(row[i].name, i + 1);
    }
    CommaListLexes(texts, ShowItem, items);
  }

  lemma UpdateLexes(table: JsString, row: Record, where: JsString, whereToks: seq<Token>)
    requires Lexes(where, whereToks) && Loose(where) && IsName(table) && ValidEntries(row)
    ensures Lexes(UpdateText(table, row, where), UpdateToks(table, NumberItems(Assignments(row), 0), whereToks))
  {
    hide Lexes, Leads, QuoteIdent, SetText, Join, Ascii, NumberItems, Assignments, Shown;
    Phrases();
    QuoteIdentLexes(table);
    SetLexes(row);
    var list := Join(Shown(ShowItem, NumberItems(Assignments(row), 0)), [COMMA_MARK]);
    var head := Ascii("UPDATE ") + QuoteIdent(table);
    LexesAfter(Ascii("UPDATE "), [KeyWord("UPDATE")], QuoteIdent(table), [Name(table)]);
    SetIsLoose();
    LeadsBefore(head, [KeyWord("UPDATE")] + [Name(table)], Ascii(" SET "), [KeyWord("SET")]);
    LexesAfter(head + Ascii(" SET "), [KeyWord("UPDATE")] + [Name(table)] + [KeyWord("SET")], SetText(row), list);
    LexesBefore(head + Ascii(" SET ") + SetText(row), [KeyWord("UPDATE")] + [Name(table)] + [KeyWord("SET")] + list,
                where, whereToks);
    Nested([KeyWord("UPDATE")], [Name(table)], [KeyWord("SET")], list, whereToks);
  }

  lemma Nested<T>(a: seq<T>, b: seq<T>, c: seq<T>, d: seq<T>, e: seq<T>)
    ensures a + b + c + d + e == a + (b + (c + (d + e)))
  {
  }

  lemma SetIsLoose()
    ensures Loose(Ascii(" SET ")) && Loose(Ascii(" FROM ")) && Loose(Ascii(" WHERE "))
    ensures Ascii(" SET ") != [] && Ascii(" FROM ") != [] && Ascii(" WHERE ") != []
  {
  }

  lemma {:induction false} ReadAssignments(sets: seq<Item<nat>>, rest: seq<Token>)
    requires sets != [] && forall i :: 0 <= i < |sets| ==> sets[i].op == EQ
    requires rest == [] || rest[0] != COMMA_MARK
    ensures ReadList(ReadAssignment, COMMA_MARK, Join(Shown(ShowItem, sets), [COMMA_MARK]) + rest)
       == Some(Read(sets, rest))
  {
    hide ReadAssignment, ShowItem, ReadList;
    forall x: Item<nat>, r: seq<Token> | x in sets
      ensures ReadAssignment(ShowItem(x) + r) == Some(Read(x, r))
    {
      AssignmentReadsBack(x, r);
    }
    ReadShown(ReadAssignment, ShowItem, COMMA_MARK, sets, rest);
  }

  /** The start of WHERE or RETURNING, or nothing: no assignment starts there. */
  lemma NoAssignments(rest: seq<Token>)
    requires rest == [] || rest[0].Word?
    ensures ReadList(ReadAssignment, COMMA_MARK, rest) == None
  {
  }

  lemma ReadUpdateToks(table: JsString, sets: seq<Item<nat>>, where: seq<Item<nat>>, tail: seq<Token>)
    requires (forall i :: 0 <= i < |sets| ==> sets[i].op == EQ) && Ends(tail)
    ensures ReadStatement(UpdateToks(table, sets, WhereToks(where) + tail))
         == if sets == [] then None else Some(Statement.Update(table, sets, where))
  {
    hide ReadStatement, ReadList, ReadWhere, Shown, Ascii;
    var rest := WhereToks(where) + tail;
    var list := Join(Shown(ShowItem, sets), [COMMA_MARK]) + rest;
    WhereStart(where, tail);
    ReadHead([Name(table)] + ([KeyWord("SET")] + list));
    ReadTable(table, [KeyWord("SET")] + list);
    DropHead([KeyWord("SET")], list);
    if sets == [] {
      assert Shown(ShowItem, sets) == [] by { NoneShown(ShowItem); }
      assert list == rest;
      NoAssignments(rest);
    } else {
      ReadAssignments(sets, rest);
      ReadWhereToks(where, tail);
    }
  }

  lemma NoneShown<T>(show: T -> seq<Token>)
    ensures Shown(show, []) == []
  {
  }

  lemma WhereStart(where: seq<Item<nat>>, tail: seq<Token>)
    requires Ends(tail)
    ensures var rest := WhereToks(where) + tail; rest == [] || rest[0].Word?
    ensures AfterWhere(tail)
  {
  }

  /** `updateWhere`: the SET values, then the WHERE values; with nothing to set the text is no statement. */
  lemma {:induction false} UpdateWhereMeans(table: JsString, quals: seq<Qual>, values: Record)
    requires IsName(table) && ValidEntries(values) && ValidQuals(quals, map[])
    ensures var sql := UpdateText(table, values, WhereText(quals, map[], |values|));
            if values == [] then ReadStatement(Lex(sql)) == None
            else Means(sql, EntryValues(values) + QualValues(quals),
                       Statement.Update(table, Assignments(values), Conditions(quals, map[])))
  {
    hide Lexes, Loose, Lex, ReadStatement, WhereToks, UpdateToks, UpdateText, WhereText, ValidQuals;
    var sql := UpdateText(table, values, WhereText(quals, map[], |values|));
    var where, sets := NumberItems(Conditions(quals, map[]), |values|), NumberItems(Assignments(values), 0);
    WhereLexes(quals, map[], |values|);
    UpdateLexes(table, values, WhereText(quals, map[], |values|), WhereToks(where));
    LexesAlone(sql, UpdateToks(table, sets, WhereToks(where)));
    assert WhereToks(where) + [] == WhereToks(where);
    ReadUpdateToks(table, sets, where, []);
    assert ItemValues(Assignments(values)) == EntryValues(values);
    assert ItemValues(Conditions(quals, map[])) == QualValues(quals);
  }

  lemma OneConditionLexes(name: JsString, n: nat)
    requires IsName(name)
    ensures Lexes(Ascii(" WHERE ") + AssignmentText(name, n), WhereToks([Item(name, EQ, n)]))
    ensures Loose(Ascii(" WHERE ") + AssignmentText(name, n))
  {
    hide Lexes, Leads, AssignmentText, ShowItem;
    Phrases();
    AssignmentLexes(name, n);
    LexesAfter(Ascii(" WHERE "), [KeyWord("WHERE")], AssignmentText(name, n), ShowItem(Item(name, EQ, n)));
    assert Shown(ShowItem, [Item(name, EQ, n)]) == [ShowItem(Item(name, EQ, n))];
  }

  /**
   `update`: the row is assigned where the row-id column has the given id; with an empty row the text
   is no statement.
   */
  lemma {:induction false} UpdateMeans(table: JsString, rowIdColumn: JsString, rowId: Parameter, row: Record)
    requires IsName(table) && IsName(rowIdColumn) && ValidEntries(row)
    ensures var q := UpdateQuery(table, rowIdColumn, rowId, row);
            if row == [] then ReadStatement(Lex(q.sql)) == None
            else Means(q.sql, q.params, Statement.Update(table, Assignments(row), [Item(rowIdColumn, EQ, rowId)]))
    ensures GivesRows(UpdateQuery(table, rowIdColumn, rowId, row).sql)
  {
    hide Lexes, Loose, Lex, ReadStatement, WhereToks, UpdateToks, AssignmentText, SetText, Ascii, QuoteIdent, Ends;
    var q := UpdateQuery(table, rowIdColumn, rowId, row);
    var where: seq<Item<nat>> := [Item(rowIdColumn, EQ, |row| + 1)];
    var sets := NumberItems(Assignments(row), 0);
    var condition, returning := Ascii(" WHERE ") + AssignmentText(rowIdColumn, |row| + 1), Ascii(" RETURNING *");
    OneConditionLexes(rowIdColumn, |row| + 1);
    ReturningLexes();
    LexesBefore(condition, WhereToks(where), returning, RETURNING_TOKS);
    assert condition != [] by { ConditionHasText(rowIdColumn, |row| + 1); }
    LooseConcat(condition, returning);
    UpdateLexes(table, row, condition + returning, WhereToks(where) + RETURNING_TOKS);
    UpdateTextIs(table, row, Ascii(" WHERE "), AssignmentText(rowIdColumn, |row| + 1), returning);
    LexesAlone(q.sql, UpdateToks(table, sets, WhereToks(where) + RETURNING_TOKS));
    UpdateToksReturn(table, sets, WhereToks(where));
    ReturningEnds();
    ReadUpdateToks(table, sets, where, RETURNING_TOKS);
    assert NumberItems([Item(rowIdColumn, EQ, rowId)], |Assignments(row)|) == where;
    assert ItemValues(Assignments(row)) == EntryValues(row);
    assert ItemValues([Item(rowIdColumn, EQ, rowId)]) == [rowId];
  }

  lemma ReturningEnds()
    ensures Ends(RETURNING_TOKS)
  {
  }

  lemma ConditionHasText(name: JsString, n: nat)
    ensures Ascii(" WHERE ") + AssignmentText(name, n) != []
  {
    hide AssignmentText;
    assert |Ascii(" WHERE ")| == 7;
  }

  lemma LooseConcat(a: JsString, b: JsString)
    requires Loose(a) && a != []
    ensures Loose(a + b)
  {
  }

  lemma UpdateTextIs(table: JsString, row: Record, a: JsString, b: JsString, c: JsString)
    ensures UpdateText(table, row, []) + a + b + c == UpdateText(table, row, a + b + c)
  {
  }

  /** `delete(rowId)`. */
  lemma DeleteByIdMeans(table: JsString, rowIdColumn: JsString, rowId: Parameter)
    requires IsName(table) && IsName(rowIdColumn)
    ensures Means(Ascii("DELETE FROM ") + QuoteIdent(table) + Ascii(" WHERE ") + AssignmentText(rowIdColumn, 1),
                  [rowId],
                  Statement.Delete(table, [Item(rowIdColumn, EQ, rowId)]))
  {
    hide Means, ValidQuals, DeleteText, Ascii, QuoteIdent, AssignmentText;
    var q := RemoteSql.Qual(rowIdColumn, EQ, rowId);
    EqIsOperator(q);
    DeleteMeans(table, [q]);
    OneQual(q);
    DeleteOneText(table, q);
  }

  lemma OneQual(q: Qual)
    ensures QualValues([q]) == [q.value] && Conditions([q], map[]) == [Item(q.column, q.operator, q.value)]
  {
    NoMapping(q.column);
  }

  lemma DeleteOneText(table: JsString, q: Qual)
    requires q.operator == EQ
    ensures DeleteText(table, [q])
       == Ascii("DELETE FROM ") + QuoteIdent(table) + Ascii(" WHERE ") + AssignmentText(q.column, 1)
  {
    hide QuoteIdent, WhereText, AssignmentText, Ascii;
    OneConditionText(q);
    var a, b, c := Ascii("DELETE FROM ") + QuoteIdent(table), Ascii(" WHERE "), AssignmentText(q.column, 1);
    assert a + (b + c) == a + b + c;
  }

  lemma EqIsOperator(q: Qual)
    requires q.operator == EQ && IsName(q.column)
    ensures ValidQuals([q], map[])
  {
    NoMapping(q.column);
  }

  lemma OneConditionText(q: Qual)
    requires q.operator == EQ
    ensures WhereText([q], map[], 0) == Ascii(" WHERE ") + AssignmentText(q.column, 1)
  {
    hide QuoteIdent, Placeholder, RemoteName;
    NoMapping(q.column);
    assert Ascii(" = ") == Ascii(" ") + EQ + Ascii(" ");
    assert ConditionText(map[], q, 1) == AssignmentText(q.column, 1);
    assert ConditionTexts([q], map[], 0) == [ConditionText(map[], q, 1)];
  }

  // ----- SELECT

  /** The columns asked for; none asked for means all. */
  function Columns(columns: seq<JsString>, m: ColumnMap): Option<seq<Column>> {
    if columns == [] then None
    else Some(seq(|columns|, i requires 0 <= i < |columns| => Column(RemoteName(m, columns[i]), columns[i])))
  }

  predicate ValidColumns(columns: seq<JsString>, m: ColumnMap) {
    forall i :: 0 <= i < |columns| ==> IsName(columns[i]) && IsName(RemoteName(m, columns[i]))
  }

  function ColumnToks(columns: Option<seq<Column>>): seq<Token> {
    match columns
    case None => [STAR]
    case Some(cs) => Join(Shown(ShowColumn, cs), [COMMA_MARK])
  }

  lemma SelectListLexes(columns: seq<JsString>, m: ColumnMap)
    requires ValidColumns(columns, m)
    ensures Lexes(SelectList(columns, m), ColumnToks(Columns(columns, m)))
  {
    hide Lexes, ColumnText, ShowColumn, Join, RemoteName, IsName;
    if columns == [] {
      StarIsSign();
      OperatorLexes(Ascii("*"));
    } else {
      var texts := seq(|columns|, i requires 0 <= i < |columns| => ColumnText(m, columns[i]));
      var cs := Columns(columns, m).value;
      forall i | 0 <= i < |columns|
        ensures Lexes(texts[i], ShowColumn(cs[i]))
      {
        ColumnLexes(m, columns[i]);
      }
      CommaListLexes(texts, ShowColumn, cs);
    }
  }

  function SelectToks(columns: Option<seq<Column>>, table: JsString, rest: seq<Token>): seq<Token> {
    [KeyWord("SELECT")] + (ColumnToks(columns) + ([KeyWord("FROM")] + ([Name(table)] + rest)))
  }

  lemma {:induction false} SelectLexes(table: JsString, quals: seq<Qual>, columns: seq<JsString>, keys: seq<SortKey>,
                                       m: ColumnMap)
    requires IsName(table) && ValidQuals(quals, m) && ValidColumns(columns, m) && ValidKeys(keys, m)
    ensures Lexes(SelectText(table, quals, columns, keys, m),
                  SelectToks(Columns(columns, m), table,
                             WhereToks(NumberItems(Conditions(quals, m), 0)) + OrderToks(Orderings(keys, m))))
  {
    hide Lexes, Leads, Loose, QuoteIdent, SelectList, WhereText, OrderByText, WhereToks, OrderToks, Ascii, ColumnToks,
         NumberItems, Conditions, Orderings, ValidQuals, ValidKeys, ValidColumns, Columns;
    var where, order := WhereToks(NumberItems(Conditions(quals, m), 0)), OrderToks(Orderings(keys, m));
    var list := ColumnToks(Columns(columns, m));
    Phrases();
    QuoteIdentLexes(table);
    SelectListLexes(columns, m);
    WhereLexes(quals, m, 0);
    OrderByLexes(keys, m);
    SetIsLoose();
    var head := Ascii("SELECT ") + SelectList(columns, m);
    LexesAfter(Ascii("SELECT "), [KeyWord("SELECT")], SelectList(columns, m), list);
    LeadsBefore(head, [KeyWord("SELECT")] + list, Ascii(" FROM "), [KeyWord("FROM")]);
    LexesAfter(head + Ascii(" FROM "), [KeyWord("SELECT")] + list + [KeyWord("FROM")], QuoteIdent(table),
               [Name(table)]);
    var from := head + Ascii(" FROM ") + QuoteIdent(table);
    LexesBefore(from, [KeyWord("SELECT")] + list + [KeyWord("FROM")] + [Name(table)], WhereText(quals, m, 0), where);
    LexesBefore(from + WhereText(quals, m, 0), [KeyWord("SELECT")] + list + [KeyWord("FROM")] + [Name(table)] + where,
                OrderByText(keys, m), order);
    Nested([KeyWord("SELECT")], list, [KeyWord("FROM")], [Name(table)], where + order);
    assert [KeyWord("SELECT")] + list + [KeyWord("FROM")] + [Name(table)] + where + order
        == [KeyWord("SELECT")] + list + [KeyWord("FROM")] + [Name(table)] + (where + order);
  }

  lemma ReadColumnToks(columns: Option<seq<Column>>, rest: seq<Token>)
    requires columns.Some? ==> columns.value != []
    requires rest != [] && rest[0] == KeyWord("FROM")
    ensures ReadColumns(ColumnToks(columns) + rest) == Some(Read(columns, rest))
  {
    hide ReadColumn, ReadList, Ascii;
    var toks := ColumnToks(columns) + rest;
    if columns.None? {
      DropHead([STAR], rest);
    } else {
      ReadsBack();
      ReadShown(ReadColumn, ShowColumn, COMMA_MARK, columns.value, rest);
      assert toks[0] == Name(columns.value[0].remote);
      FirstOf(toks);
    }
  }

  lemma OrderStart(os: seq<Ordering>)
    ensures AfterWhere(OrderToks(os))
  {
  }

  /** A scan asks for the columns under their remote names, filters by the quals and sorts by the sort keys. */
  lemma SelectMeans(table: JsString, quals: seq<Qual>, columns: seq<JsString>, keys: seq<SortKey>, m: ColumnMap)
    requires IsName(table) && ValidQuals(quals, m) && ValidColumns(columns, m) && ValidKeys(keys, m)
    ensures Means(SelectText(table, quals, columns, keys, m), QualValues(quals),
                  Select(Columns(columns, m), table, Conditions(quals, m), Orderings(keys, m)))
  {
    hide Lexes, Lex, SelectText, ReadWhere, WhereToks, OrderToks, Ascii, ColumnToks, ValidQuals, ValidKeys,
         ValidColumns, ReadColumns, ReadClause,
         ReadStatement, ReadName, RemoteName;
    var items, os, cs := NumberItems(Conditions(quals, m), 0), Orderings(keys, m), Columns(columns, m);
    var rest := WhereToks(items) + OrderToks(os);
    SelectLexes(table, quals, columns, keys, m);
    LexesAlone(SelectText(table, quals, columns, keys, m), SelectToks(cs, table, rest));
    var from := [KeyWord("FROM")] + ([Name(table)] + rest);
    ReadHead(ColumnToks(cs) + from);
    ReadColumnToks(cs, from);
    DropHead([KeyWord("FROM")], [Name(table)] + rest);
    ReadTable(table, rest);
    OrderStart(os);
    ReadWhereToks(items, OrderToks(os));
    ReadOrderToks(os);
    assert ItemValues(Conditions(quals, m)) == QualValues(quals);
  }

  // ----- INSERT

  function InsertRows(rows: seq<Record>, cols: seq<JsString>): seq<seq<Parameter>> {
    seq(|rows|, r requires 0 <= r < |rows| => RowValues(rows[r], cols))
  }

  function InsertToks(table: JsString, cols: seq<JsString>, tuples: seq<seq<nat>>): seq<Token> {
    [KeyWord("INSERT"), KeyWord("INTO")]
    + ([Name(table)] + (ShownList(ShowName, cols)
    + ([KeyWord("VALUES")] + (Join(Shown(ShowTuple, tuples), [COMMA_MARK]) + RETURNING_TOKS))))
  }

  lemma ParenthesisedLexes(text: JsString, toks: seq<Token>)
    requires Lexes(text, toks)
    ensures Lexes(Ascii("(") + text + Ascii(")"), [Mark(LPAREN)] + toks + [Mark(RPAREN)])
    ensures Loose(Ascii("("))
  {
    hide Lexes, Leads;
    MarkLeads(LPAREN);
    MarkLeads(RPAREN);
    assert Ascii("(") == [LPAREN] && Ascii(")") == [RPAREN];
    LexesAfter(Ascii("("), [Mark(LPAREN)], text, toks);
    MarkLexes(RPAREN);
    LexesBefore(Ascii("(") + text, [Mark(LPAREN)] + toks, Ascii(")"), [Mark(RPAREN)]);
  }

  lemma MarkLexes(c: CodeUnit)
    requires Leads([c], [Mark(c)])
    ensures Lexes([c], [Mark(c)])
  {
    hide Lex;
  }

  lemma TupleLexes(offset: nat, width: nat)
    ensures Lexes(TupleText(offset, width), ShowTuple(Numbers(offset, width)))
  {
    hide Lexes, Join, Placeholder, Ascii;
    forall i | 0 <= i < width
      ensures Lexes(TupleTexts(offset, width)[i], ShowParam(Numbers(offset, width)[i]))
    {
      PlaceholderLexes(offset + i + 1);
    }
    CommaListLexes(TupleTexts(offset, width), ShowParam, Numbers(offset, width));
    ParenthesisedLexes(Join(TupleTexts(offset, width), Ascii(", ")),
                       Join(Shown(ShowParam, Numbers(offset, width)), [COMMA_MARK]));
  }

  lemma TuplesLex(count: nat, width: nat, tuples: seq<seq<nat>>)
    requires tuples == seq(count, r requires 0 <= r < count => Numbers(r * width, width))
    ensures Lexes(Join(ValueTexts(count, width), Ascii(", ")), Join(Shown(ShowTuple, tuples), [COMMA_MARK]))
  {
    hide Lexes, Join, TupleText, ShowTuple, Ascii;
    forall r | 0 <= r < count
      ensures Lexes(ValueTexts(count, width)[r], ShowTuple(tuples[r]))
    {
      TupleLexes(r * width, width);
    }
    CommaListLexes(ValueTexts(count, width), ShowTuple, tuples);
  }

  lemma NameListLexes(cols: seq<JsString>)
    requires ValidNames(cols)
    ensures Lexes(Ascii("(") + NameList(cols) + Ascii(")"), ShownList(ShowName, cols))
  {
    hide Lexes, Join, QuoteIdent, Ascii;
    var texts := seq(|cols|, i requires 0 <= i < |cols| => QuoteIdent(cols[i]));
    forall i | 0 <= i < |cols|
      ensures Lexes(texts[i], ShowName(cols[i]))
    {
      QuoteIdentLexes(cols[i]);
    }
    CommaListLexes(texts, ShowName, cols);
    ParenthesisedLexes(NameList(cols), Join(Shown(ShowName, cols), [COMMA_MARK]));
  }

  lemma InsertPhrases()
    ensures Leads(Ascii(" VALUES "), [KeyWord("VALUES")]) && Loose(Ascii(" VALUES ")) && Ascii(" VALUES ") != []
    ensures Ascii(" (") == Ascii(" ") + Ascii("(") && Ascii(") VALUES ") == Ascii(")") + Ascii(" VALUES ")
  {
    hide Leads;
    KeyWordBetween("VALUES");
    assert Ascii(" VALUES ") == [SPACE] + Ascii("VALUES") + [SPACE];
  }

  /** The text of an INSERT, in the pieces in which it is read. */
  lemma InsertTextPieces(table: JsString, cols: seq<JsString>, count: nat)
    ensures InsertText(table, cols, count)
         == Ascii("INSERT INTO ") + QuoteIdent(table) + Ascii(" ") + (Ascii("(") + NameList(cols) + Ascii(")"))
            + Ascii(" VALUES ") + Join(ValueTexts(count, |cols|), Ascii(", ")) + Ascii(" RETURNING *")
  {
    hide QuoteIdent, NameList, Join, ValueTexts, Ascii, Leads;
    InsertPhrases();
    var a, n := Ascii("INSERT INTO ") + QuoteIdent(table), NameList(cols);
    assert a + (Ascii(" ") + Ascii("(")) + n + (Ascii(")") + Ascii(" VALUES "))
        == a + Ascii(" ") + (Ascii("(") + n + Ascii(")")) + Ascii(" VALUES ");
  }

  lemma InsertLexes(table: JsString, cols: seq<JsString>, count: nat, tuples: seq<seq<nat>>)
    requires IsName(table) && ValidNames(cols)
    requires tuples == seq(count, r requires 0 <= r < count => Numbers(r * |cols|, |cols|))
    ensures Lexes(InsertText(table, cols, count), InsertToks(table, cols, tuples))
  {
    hide Lexes, Leads, Loose, QuoteIdent, NameList, Join, ValueTexts, Ascii, ShownList, Shown, InsertText;
    var into, names := [KeyWord("INSERT"), KeyWord("INTO")], ShownList(ShowName, cols);
    var values := Join(Shown(ShowTuple, tuples), [COMMA_MARK]);
    var nameText, valueText := Ascii("(") + NameList(cols) + Ascii(")"), Join(ValueTexts(count, |cols|), Ascii(", "));
    LongPhrases();
    InsertPhrases();
    QuoteIdentLexes(table);
    NameListLexes(cols);
    TuplesLex(count, |cols|, tuples);
    ReturningLexes();
    var head := Ascii("INSERT INTO ") + QuoteIdent(table);
    LexesAfter(Ascii("INSERT INTO "), into, QuoteIdent(table), [Name(table)]);
    SpaceBetween(head, into + [Name(table)], nameText, names);
    LeadsBefore(head + Ascii(" ") + nameText, into + [Name(table)] + names, Ascii(" VALUES "), [KeyWord("VALUES")]);
    LexesAfter(head + Ascii(" ") + nameText + Ascii(" VALUES "), into + [Name(table)] + names + [KeyWord("VALUES")],
               valueText, values);
    LexesBefore(head + Ascii(" ") + nameText + Ascii(" VALUES ") + valueText,
                into + [Name(table)] + names + [KeyWord("VALUES")] + values, Ascii(" RETURNING *"), RETURNING_TOKS);
    InsertTextPieces(table, cols, count);
    Nested(into, [Name(table)], names, [KeyWord("VALUES")], values + RETURNING_TOKS);
    assert into + [Name(table)] + names + [KeyWord("VALUES")] + values + RETURNING_TOKS
        == into + [Name(table)] + names + [KeyWord("VALUES")] + (values + RETURNING_TOKS);
  }

  lemma TupleReadsBack(ns: seq<nat>, rest: seq<Token>)
    requires ns != []
    ensures ReadParams(ShowTuple(ns) + rest) == Some(Read(ns, rest))
  {
    hide ReadParam, ShowParam, ReadParenthesised;
    ReadsBack();
    ReadShownList(ReadParam, ShowParam, ns, rest);
  }

  lemma TuplesReadBack(tuples: seq<seq<nat>>)
    requires tuples != [] && forall r :: 0 <= r < |tuples| ==> tuples[r] != []
    ensures ReadList(ReadParams, COMMA_MARK, Join(Shown(ShowTuple, tuples), [COMMA_MARK]) + RETURNING_TOKS)
         == Some(Read(tuples, RETURNING_TOKS))
  {
    hide ReadParams, ShowTuple, ReadList;
    forall x: seq<nat>, r: seq<Token> | x in tuples
      ensures ReadParams(ShowTuple(x) + r) == Some(Read(x, r))
    {
      TupleReadsBack(x, r);
    }
    ReadShown(ReadParams, ShowTuple, COMMA_MARK, tuples, RETURNING_TOKS);
  }

  lemma ReadNames(cols: seq<JsString>, rest: seq<Token>)
    ensures ReadParenthesised(ReadName, ShownList(ShowName, cols) + rest)
         == if cols == [] then None else Some(Read(cols, rest))
  {
    hide ReadName, ShowName;
    if cols == [] {
      NoNames(rest);
    } else {
      ReadsBack();
      ReadShownList(ReadName, ShowName, cols, rest);
    }
  }

  lemma NoNames(rest: seq<Token>)
    ensures ReadParenthesised(ReadName, ShownList(ShowName, []) + rest) == None
  {
    var toks := ShownList(ShowName, []) + rest;
    assert toks[1..] == [Mark(RPAREN)] + rest;
  }

  lemma ReadInsertToks(table: JsString, cols: seq<JsString>, tuples: seq<seq<nat>>)
    requires tuples != [] && forall r :: 0 <= r < |tuples| ==> |tuples[r]| == |cols|
    ensures ReadStatement(InsertToks(table, cols, tuples))
         == if cols == [] then None else Some(Statement.Insert(table, cols, tuples))
  {
    hide ReadStatement, ReadList, ReadParenthesised, ReadName, ShownList, Shown, Join, Ascii;
    var values := Join(Shown(ShowTuple, tuples), [COMMA_MARK]) + RETURNING_TOKS;
    var names := ShownList(ShowName, cols);
    ReadHead([Name(table)] + (names + ([KeyWord("VALUES")] + values)));
    ReadTable(table, names + ([KeyWord("VALUES")] + values));
    ReadNames(cols, [KeyWord("VALUES")] + values);
    if cols != [] {
      DropHead([KeyWord("VALUES")], values);
      TuplesReadBack(tuples);
      ReturningEnds();
    }
  }

  lemma UpdateToksReturn(table: JsString, sets: seq<Item<nat>>, where: seq<Token>)
    ensures var toks := UpdateToks(table, sets, where + RETURNING_TOKS);
            |toks| >= 2 && toks[|toks| - 2..] == RETURNING_TOKS
  {
    hide Join, Shown;
  }

  lemma InsertToksReturn(table: JsString, cols: seq<JsString>, tuples: seq<seq<nat>>)
    ensures var toks := InsertToks(table, cols, tuples);
            |toks| >= 2 && toks[|toks| - 2..] == RETURNING_TOKS
  {
    hide Join, Shown, ShownList;
  }

  lemma {:induction false} AllRowValuesConcat(rows: seq<Record>, cols: seq<JsString>)
    ensures AllRowValues(rows, cols) == Concat(InsertRows(rows, cols))
    decreases |rows|
  {
    hide RowValues;
    if rows != [] {
      var front, last := rows[..|rows| - 1], rows[|rows| - 1];
      AllRowValuesConcat(front, cols);
      assert InsertRows(rows, cols) == InsertRows(front, cols) + [RowValues(last, cols)];
      ConcatSnoc(InsertRows(front, cols), RowValues(last, cols));
    }
  }

  /**
   `insertMany`, and `insert` for one row: row r's value under column c becomes
   that row's value of that column; with no column left the text is no statement.
   */
  lemma {:induction false} InsertMeans(table: JsString, cols: seq<JsString>, rows: seq<Record>)
    requires IsName(table) && ValidNames(cols) && rows != []
    ensures var sql := InsertText(table, cols, |rows|);
            if cols == [] then ReadStatement(Lex(sql)) == None
            else Means(sql, AllRowValues(rows, cols), Statement.Insert(table, cols, InsertRows(rows, cols)))
    ensures GivesRows(InsertText(table, cols, |rows|))
  {
    hide Lexes, Lex, ReadStatement, InsertText, InsertToks, RowValues, Concat;
    var sql, meant := InsertText(table, cols, |rows|), InsertRows(rows, cols);
    assert forall r :: 0 <= r < |rows| ==> |meant[r]| == |cols| by { RowWidths(rows, cols); }
    UniformRowNumbers(meant, |cols|, 0);
    var tuples := NumberRows(meant, 0);
    InsertLexes(table, cols, |rows|, tuples);
    LexesAlone(sql, InsertToks(table, cols, tuples));
    InsertToksReturn(table, cols, tuples);
    ReadInsertToks(table, cols, tuples);
    AllRowValuesConcat(rows, cols);
  }

  lemma RowWidths(rows: seq<Record>, cols: seq<JsString>)
    ensures forall r :: 0 <= r < |rows| ==> |InsertRows(rows, cols)[r]| == |cols|
  {
  }
}
