/**
 The statements of examples/remote_pg_fdw.js as its methods build them: each text
 with its parameters, and the statement these mean to the remote server.
 */
module RemoteTable {
  import opened Options
  import opened Sequences
  import opened ColumnMaps
  import opened JsStrings
  import opened JsNumbers
  import opened SqlReader
  import opened RemoteSql
  import opened RemoteSqlMeaning
  import opened RemoteSqlTheorems

  // ----- what is asked for, part by part

  /** Each condition has its qual's column under its remote name, its operator and its value. */
  predicate AreConditions(items: seq<Item<Parameter>>, quals: seq<Qual>, m: ColumnMap) {
    && |items| == |quals|
    && forall i :: 0 <= i < |quals| ==>
         MapsTo(m, quals[i].column, items[i].name) && items[i].op == quals[i].operator
         && items[i].value == quals[i].value
  }

  predicate AreAssignments(items: seq<Item<Parameter>>, row: Record) {
    && |items| == |row|
    && forall i :: 0 <= i < |row| ==> items[i] == Item(row[i].name, Ascii("="), row[i].value)
  }

  /** Each remote column under its local name; all columns if none are asked for. */
  predicate AreColumns(listed: Option<seq<Column>>, columns: seq<JsString>, m: ColumnMap) {
    match listed
    case None => columns == []
    case Some(cs) =>
      columns != [] && |cs| == |columns|
      && forall i :: 0 <= i < |columns| ==> MapsTo(m, columns[i], cs[i].remote) && cs[i].alias == columns[i]
  }

  predicate AreOrderings(order: seq<Ordering>, keys: seq<SortKey>, m: ColumnMap) {
    && |order| == |keys|
    && forall i :: 0 <= i < |keys| ==>
         MapsTo(m, keys[i].column, order[i].name) && order[i].desc == keys[i].desc
         && order[i].nullsFirst == keys[i].nullsFirst
  }

  /** Keys are distinct, as those of an object are. */
  predicate DistinctKeys(row: Record) {
    forall i, j :: 0 <= i < j < |row| ==> row[i].name != row[j].name
  }

  /** The value a row object has under a key: that of the entry of the name, or undefined. */
  predicate HasValue(row: Record, name: JsString, value: Parameter) {
    && (forall i :: 0 <= i < |row| && row[i].name == name ==> value == row[i].value)
    && (value.Some? ==> exists i :: 0 <= i < |row| && row[i].name == name)
  }

  /** Under the keys of the first row that hold a value, in their order, each row's own values. */
  predicate IsInsertOf(st: Statement<Parameter>, table: JsString, rows: seq<Record>) {
    && st.Insert? && st.table == table && rows != [] && |st.rows| == |rows|
    && st.names == NamesOf(Filter(rows[0], (e: Entry) => e.value.Some?))
    && forall r :: 0 <= r < |rows| ==>
         |st.rows[r]| == |st.names|
         && forall k :: 0 <= k < |st.names| ==> HasValue(rows[r], st.names[k], st.rows[r][k])
  }

  function NamesOf(row: Record): seq<JsString> {
    seq(|row|, i requires 0 <= i < |row| => row[i].name)
  }

  lemma ConditionsAre(quals: seq<Qual>, m: ColumnMap)
    ensures AreConditions(Conditions(quals, m), quals, m)
  {
    hide RemoteName, MapsTo;
    forall i | 0 <= i < |quals|
      ensures MapsTo(m, quals[i].column, Conditions(quals, m)[i].name)
    {
      RemoteNameIs(m, quals[i].column, Conditions(quals, m)[i].name);
    }
  }

  lemma ColumnsAre(columns: seq<JsString>, m: ColumnMap)
    ensures AreColumns(Columns(columns, m), columns, m)
  {
    hide RemoteName, MapsTo;
    forall i | 0 <= i < |columns|
      ensures MapsTo(m, columns[i], Columns(columns, m).value[i].remote)
    {
      RemoteNameIs(m, columns[i], Columns(columns, m).value[i].remote);
    }
  }

  lemma OrderingsAre(keys: seq<SortKey>, m: ColumnMap)
    ensures AreOrderings(Orderings(keys, m), keys, m)
  {
    hide RemoteName, MapsTo;
    forall i | 0 <= i < |keys|
      ensures MapsTo(m, keys[i].column, Orderings(keys, m)[i].name)
    {
      RemoteNameIs(m, keys[i].column, Orderings(keys, m)[i].name);
    }
  }

  lemma AssignmentsAre(row: Record)
    ensures AreAssignments(Assignments(row), row)
  {
    hide Ascii;
  }

  lemma {:induction false} LookupIs(row: Record, name: JsString)
    requires DistinctKeys(row)
    ensures HasValue(row, name, Lookup(row, name))
  {
    if row != [] {
      LookupIs(row[1..], name);
      assert forall i :: 1 <= i < |row| ==> row[i] == row[1..][i - 1];
      if row[0].name != name && Lookup(row, name).Some? {
        var i :| 0 <= i < |row[1..]| && row[1..][i].name == name;
        assert row[i + 1].name == name;
      }
    }
  }

  lemma {:induction false} PresentNamesAre(row: Record)
    ensures PresentNames(row) == NamesOf(Filter(row, (e: Entry) => e.value.Some?))
  {
    if row != [] {
      PresentNamesAre(row[1..]);
    }
  }

  lemma {:induction false} InsertIs(table: JsString, rows: seq<Record>)
    requires rows != [] && forall r :: 0 <= r < |rows| ==> DistinctKeys(rows[r])
    ensures var cols := PresentNames(rows[0]);
            IsInsertOf(Statement.Insert(table, cols, InsertRows(rows, cols)), table, rows)
  {
    hide DistinctKeys, HasValue, Lookup, PresentNames;
    var cols := PresentNames(rows[0]);
    PresentNamesAre(rows[0]);
    forall r, k | 0 <= r < |rows| && 0 <= k < |cols|
      ensures HasValue(rows[r], cols[k], InsertRows(rows, cols)[r][k])
    {
      LookupIs(rows[r], cols[k]);
    }
  }

  // ----- the methods

  /** `execute`: the scan under remote names, filtered and sorted. */
  method SelectQuery(table: JsString, quals: seq<Qual>, columns: seq<JsString>, sortkeys: seq<SortKey>,
                     columnMap: ColumnMap)
    returns (q: Query)
    ensures q == Query(SelectText(table, quals, columns, sortkeys, columnMap), QualValues(quals))
    ensures IsName(table) && ValidQuals(quals, columnMap) && ValidColumns(columns, columnMap)
            && ValidKeys(sortkeys, columnMap) ==>
      Means(q.sql, q.params,
            Select(Columns(columns, columnMap), table, Conditions(quals, columnMap), Orderings(sortkeys, columnMap)))
    ensures AreColumns(Columns(columns, columnMap), columns, columnMap)
    ensures AreConditions(Conditions(quals, columnMap), quals, columnMap)
    ensures AreOrderings(Orderings(sortkeys, columnMap), sortkeys, columnMap)
  {
    ColumnsAre(columns, columnMap);
    ConditionsAre(quals, columnMap);
    OrderingsAre(sortkeys, columnMap);
    hide Means, ValidQuals, ValidColumns, ValidKeys, IsName, SelectList, QuoteIdent, OrderByText, WhereText, Ascii;
    var where, params := WhereClause(quals, columnMap, 0);
    q := Query(Ascii("SELECT ") + SelectList(columns, columnMap) + Ascii(" FROM ") + QuoteIdent(table) + where
               + OrderByText(sortkeys, columnMap), params);
    if IsName(table) && ValidQuals(quals, columnMap) && ValidColumns(columns, columnMap)
      && ValidKeys(sortkeys, columnMap) {
      SelectMeans(table, quals, columns, sortkeys, columnMap);
    }
  }

  /** `insertMany(rows)`; `None` when there are no rows and nothing is sent. */
  method InsertMany(table: JsString, rows: seq<Record>) returns (q: Option<Query>)
    ensures rows == [] ==> q == None
    ensures rows != [] ==>
      var cols := PresentNames(rows[0]);
      && q == Some(Query(InsertText(table, cols, |rows|), AllRowValues(rows, cols)))
      && (IsName(table) && ValidNames(cols) && cols != [] ==>
            Means(q.value.sql, q.value.params, Statement.Insert(table, cols, InsertRows(rows, cols))))
      && (IsName(table) && ValidNames(cols) ==> GivesRows(q.value.sql))
    ensures rows != [] && (forall r :: 0 <= r < |rows| ==> DistinctKeys(rows[r])) ==>
      var cols := PresentNames(rows[0]);
      IsInsertOf(Statement.Insert(table, cols, InsertRows(rows, cols)), table, rows)
  {
    if rows != [] && forall r :: 0 <= r < |rows| ==> DistinctKeys(rows[r]) {
      InsertIs(table, rows);
    }
    hide Join, TupleText, Placeholder, InsertText, RowValues, Means, GivesRows, IsName, ValidNames, ReadStatement, Lex;
    if |rows| == 0 {
      return None;
    }
    var cols := PresentNames(rows[0]);
    var values := [];
    var rowPlaceholders := [];
    for r := 0 to |rows|
      invariant |values| == r * |cols| && values == AllRowValues(rows[..r], cols)
      invariant rowPlaceholders == ValueTexts(r, |cols|)
    {
      var tuple;
      tuple, values := InsertRow(rows[r], cols, values);
      assert rows[..r + 1][..r] == rows[..r];
      NextRow(r, |cols|);
      rowPlaceholders := rowPlaceholders + [tuple];
    }
    assert rows[..|rows|] == rows;
    var sql := Ascii("INSERT INTO ") + QuoteIdent(table) + Ascii(" (") + NameList(cols) + Ascii(") VALUES ")
      + Join(rowPlaceholders, Ascii(", ")) + Ascii(" RETURNING *");
    assert sql == InsertText(table, cols, |rows|) by { InsertTextIs(table, cols, |rows|); }
    q := Some(Query(sql, values));
    if IsName(table) && ValidNames(cols) {
      InsertMeans(table, cols, rows);
    }
  }

  lemma InsertTextIs(table: JsString, cols: seq<JsString>, count: nat)
    ensures InsertText(table, cols, count)
         == Ascii("INSERT INTO ") + QuoteIdent(table) + Ascii(" (") + NameList(cols) + Ascii(") VALUES ")
            + Join(ValueTexts(count, |cols|), Ascii(", ")) + Ascii(" RETURNING *")
  {
  }

  lemma NextRow(r: nat, width: nat)
    ensures (r + 1) * width == r * width + width
  {
  }

  /** One row of `insertMany`: its values are added to those so far, its placeholders numbered on from them. */
  method InsertRow(row: Record, cols: seq<JsString>, before: seq<Parameter>)
    returns (tuple: JsString, values: seq<Parameter>)
    ensures values == before + RowValues(row, cols) && |values| == |before| + |cols|
    ensures tuple == TupleText(|before|, |cols|)
  {
    hide Placeholder, Join;
    values := before;
    var placeholders := [];
    for c := 0 to |cols|
      invariant values == before + RowValues(row, cols[..c]) && |values| == |before| + c
      invariant placeholders == TupleTexts(|before|, c)
    {
      values := values + [Lookup(row, cols[c])];
      placeholders := placeholders + [Placeholder(|values|)];
    }
    assert cols[..|cols|] == cols;
    tuple := Ascii("(") + Join(placeholders, Ascii(", ")) + Ascii(")");
  }

  /** `insert(row)`. */
  method Insert(table: JsString, row: Record) returns (q: Query)
    ensures var cols := PresentNames(row);
            && q == Query(InsertText(table, cols, 1), AllRowValues([row], cols))
            && (IsName(table) && ValidNames(cols) && cols != [] ==>
                  Means(q.sql, q.params, Statement.Insert(table, cols, [RowValues(row, cols)])))
            && (IsName(table) && ValidNames(cols) ==> GivesRows(q.sql))
    ensures DistinctKeys(row) ==>
      var cols := PresentNames(row);
      IsInsertOf(Statement.Insert(table, cols, [RowValues(row, cols)]), table, [row])
  {
    OneInsertIs(table, row);
    hide Join, Placeholder, QuoteIdent, Ascii, NameList, TupleTexts, InsertText, RowValues, Means, GivesRows,
         IsName, ValidNames,
         ReadStatement, Lex;
    var cols := PresentNames(row);
    var values := RowValues(row, cols);
    var placeholders := TupleTexts(0, |cols|);
    var sql := Ascii("INSERT INTO ") + QuoteIdent(table) + Ascii(" (") + NameList(cols) + Ascii(") VALUES (")
      + Join(placeholders, Ascii(", ")) + Ascii(") RETURNING *");
    q := Query(sql, values);
    assert sql == InsertText(table, cols, 1) by {
      OneRowText(table, cols);
    }
    OneRowValues(row, cols);
    if IsName(table) && ValidNames(cols) {
      InsertMeans(table, cols, [row]);
      assert InsertRows([row], cols) == [RowValues(row, cols)];
    }
  }

  lemma OneInsertIs(table: JsString, row: Record)
    ensures DistinctKeys(row) ==>
      var cols := PresentNames(row);
      IsInsertOf(Statement.Insert(table, cols, [RowValues(row, cols)]), table, [row])
  {
    hide RowValues, PresentNames, DistinctKeys, IsInsertOf;
    if DistinctKeys(row) {
      InsertIs(table, [row]);
      assert InsertRows([row], PresentNames(row)) == [RowValues(row, PresentNames(row))];
    }
  }

  lemma OneRowValues(row: Record, cols: seq<JsString>)
    ensures AllRowValues([row], cols) == RowValues(row, cols)
  {
    assert AllRowValues([], cols) == [];
  }

  lemma {:induction false} OneRowText(table: JsString, cols: seq<JsString>)
    ensures InsertText(table, cols, 1)
         == Ascii("INSERT INTO ") + QuoteIdent(table) + Ascii(" (") + NameList(cols) + Ascii(") VALUES (")
            + Join(TupleTexts(0, |cols|), Ascii(", ")) + Ascii(") RETURNING *")
  {
    hide Join, QuoteIdent, Ascii, NameList, TupleTexts, ValueTexts;
    OneRow(|cols|);
    OneRowSplit(Ascii("INSERT INTO ") + QuoteIdent(table) + Ascii(" (") + NameList(cols),
                Join(TupleTexts(0, |cols|), Ascii(", ")));
  }

  lemma OneRowSplit(a: JsString, p: JsString)
    ensures a + Ascii(") VALUES (") + p + Ascii(") RETURNING *")
         == a + Ascii(") VALUES ") + (Ascii("(") + p + Ascii(")")) + Ascii(" RETURNING *")
  {
    assert Ascii(") VALUES (") == Ascii(") VALUES ") + Ascii("(")
      && Ascii(") RETURNING *") == Ascii(")") + Ascii(" RETURNING *");
    RegroupRow(a, Ascii(") VALUES "), Ascii("("), p, Ascii(")"), Ascii(" RETURNING *"));
  }

  lemma RegroupRow(a: JsString, b: JsString, c: JsString, d: JsString, e: JsString, f: JsString)
    ensures a + (b + c) + d + (e + f) == a + b + (c + d + e) + f
  {
  }

  lemma OneRow(width: nat)
    ensures Join(ValueTexts(1, width), Ascii(", ")) == TupleText(0, width)
  {
  }

  /** `update(rowId, row)`. */
  method Update(table: JsString, rowIdColumn: JsString, rowId: Parameter, row: Record) returns (q: Query)
    ensures q == UpdateQuery(table, rowIdColumn, rowId, row)
    ensures IsName(table) && IsName(rowIdColumn) && ValidEntries(row) && row != [] ==>
      Means(q.sql, q.params, Statement.Update(table, Assignments(row), [Item(rowIdColumn, EQ, rowId)]))
    ensures IsName(table) && IsName(rowIdColumn) && ValidEntries(row) ==> GivesRows(q.sql)
    ensures AreAssignments(Assignments(row), row) && EQ == Ascii("=")
  {
    AssignmentsAre(row);
    hide Means, GivesRows, IsName, ValidEntries, SetText, QuoteIdent, Ascii, Placeholder, ReadStatement, Lex;
    var values := EntryValues(row);
    q := Query(Ascii("UPDATE ") + QuoteIdent(table) + Ascii(" SET ") + SetText(row) + Ascii(" WHERE ")
               + QuoteIdent(rowIdColumn) + Ascii(" = ") + Placeholder(|values| + 1) + Ascii(" RETURNING *"),
               values + [rowId]);
    UpdateQueryIs(table, rowIdColumn, rowId, row);
    if IsName(table) && IsName(rowIdColumn) && ValidEntries(row) {
      UpdateMeans(table, rowIdColumn, rowId, row);
    }
  }

  lemma UpdateQueryIs(table: JsString, rowIdColumn: JsString, rowId: Parameter, row: Record)
    ensures UpdateQuery(table, rowIdColumn, rowId, row)
         == Query(Ascii("UPDATE ") + QuoteIdent(table) + Ascii(" SET ") + SetText(row) + Ascii(" WHERE ")
                  + QuoteIdent(rowIdColumn) + Ascii(" = ") + Placeholder(|row| + 1) + Ascii(" RETURNING *"),
                  EntryValues(row) + [rowId])
  {
    hide SetText, QuoteIdent, Placeholder, Ascii;
    var head, where := Ascii("UPDATE ") + QuoteIdent(table) + Ascii(" SET ") + SetText(row), Ascii(" WHERE ");
    var name, eq, number := QuoteIdent(rowIdColumn), Ascii(" = "), Placeholder(|row| + 1);
    RegroupCondition(head, where, name, eq, number);
  }

  lemma RegroupCondition(a: JsString, b: JsString, c: JsString, d: JsString, e: JsString)
    ensures a + [] + b + (c + d + e) == a + b + c + d + e
  {
  }

  /** `updateWhere(quals, values)`. */
  method UpdateWhere(table: JsString, quals: seq<Qual>, values: Record) returns (q: Query)
    ensures q == Query(UpdateText(table, values, WhereText(quals, map[], |values|)),
                       EntryValues(values) + QualValues(quals))
    ensures IsName(table) && ValidEntries(values) && ValidQuals(quals, map[]) && values != [] ==>
      Means(q.sql, q.params, Statement.Update(table, Assignments(values), Conditions(quals, map[])))
    ensures AreAssignments(Assignments(values), values) && AreConditions(Conditions(quals, map[]), quals, map[])
  {
    AssignmentsAre(values);
    ConditionsAre(quals, map[]);
    hide Means, IsName, ValidEntries, ValidQuals, SetText, QuoteIdent, Ascii, WhereText, ReadStatement, Lex;
    var where, params := WhereClause(quals, map[], |values|);
    q := Query(Ascii("UPDATE ") + QuoteIdent(table) + Ascii(" SET ") + SetText(values) + where,
               EntryValues(values) + params);
    if IsName(table) && ValidEntries(values) && ValidQuals(quals, map[]) {
      UpdateWhereMeans(table, quals, values);
    }
  }

  /** `deleteWhere(quals)`. */
  method DeleteWhere(table: JsString, quals: seq<Qual>) returns (q: Query)
    ensures q == Query(DeleteText(table, quals), QualValues(quals))
    ensures IsName(table) && ValidQuals(quals, map[]) ==>
      Means(q.sql, q.params, Statement.Delete(table, Conditions(quals, map[])))
    ensures AreConditions(Conditions(quals, map[]), quals, map[])
  {
    ConditionsAre(quals, map[]);
    hide Means, IsName, ValidQuals, QuoteIdent, Ascii, WhereText;
    var where, params := WhereClause(quals, map[], 0);
    q := Query(Ascii("DELETE FROM ") + QuoteIdent(table) + where, params);
    if IsName(table) && ValidQuals(quals, map[]) {
      DeleteMeans(table, quals);
    }
  }

  /** `delete(rowId)`. */
  method Delete(table: JsString, rowIdColumn: JsString, rowId: Parameter) returns (q: Query)
    ensures q == Query(Ascii("DELETE FROM ") + QuoteIdent(table) + Ascii(" WHERE ") + AssignmentText(rowIdColumn, 1),
                       [rowId])
    ensures IsName(table) && IsName(rowIdColumn) ==>
      Means(q.sql, q.params, Statement.Delete(table, [Item(rowIdColumn, Ascii("="), rowId)]))
  {
    hide Numeral, Means, IsName, QuoteIdent;
    OneNumeral();
    q := Query(Ascii("DELETE FROM ") + QuoteIdent(table) + Ascii(" WHERE ") + QuoteIdent(rowIdColumn)
               + Ascii(" = $1"), [rowId]);
    assert Ascii(" = $1") == Ascii(" = ") + (Ascii("$") + [49]);
    if IsName(table) && IsName(rowIdColumn) {
      DeleteByIdMeans(table, rowIdColumn, rowId);
    }
  }

  lemma OneNumeral()
    ensures Numeral(1, Decimal) == [49]
  {
  }

  // ----- a batch and its single inserts

  type Stored = map<JsString, Parameter>

  /** What an INSERT stores of a row: the values of the columns it names; all others get their defaults. */
  function StoredRow(names: seq<JsString>, values: seq<Parameter>): Stored
    requires |names| == |values|
  {
    if names == [] then map[]
    else
      var k := |names| - 1;
      StoredRow(names[..k], values[..k])[names[k] := values[k]]
  }

  lemma {:induction false} StoredValues(row: Record, cols: seq<JsString>)
    ensures StoredRow(cols, RowValues(row, cols)) == map c | c in cols :: Lookup(row, c)
    decreases |cols|
  {
    hide Lookup;
    if cols != [] {
      var k := |cols| - 1;
      StoredValues(row, cols[..k]);
      assert RowValues(row, cols)[..k] == RowValues(row, cols[..k]);
      assert cols == cols[..k] + [cols[k]];
    }
  }

  /** A row of a batch is stored as a single insert would store it. */
  predicate StoredAlike(rows: seq<Record>, r: nat)
    requires r < |rows|
  {
    var batch, own := PresentNames(rows[0]), PresentNames(rows[r]);
    StoredRow(batch, InsertRows(rows, batch)[r]) == StoredRow(own, InsertRows([rows[r]], own)[0])
  }

  /** A batch stores what inserting its rows one by one would exactly when every row has the first row's columns. */
  lemma {:induction false} BatchIsSingleInserts(rows: seq<Record>)
    requires rows != []
    ensures (forall r :: 0 <= r < |rows| ==> StoredAlike(rows, r))
       <==> forall r, c :: 0 <= r < |rows| ==> (c in PresentNames(rows[0]) <==> c in PresentNames(rows[r]))
  {
    hide PresentNames, StoredAlike;
    if forall r :: 0 <= r < |rows| ==> StoredAlike(rows, r) {
      forall r, c | 0 <= r < |rows|
        ensures c in PresentNames(rows[0]) <==> c in PresentNames(rows[r])
      {
        assert StoredAlike(rows, r);
        RowAlike(rows, r);
      }
    }
    if forall r, c :: 0 <= r < |rows| ==> (c in PresentNames(rows[0]) <==> c in PresentNames(rows[r])) {
      forall r | 0 <= r < |rows|
        ensures StoredAlike(rows, r)
      {
        RowAlike(rows, r);
      }
    }
  }

  lemma {:induction false} RowAlike(rows: seq<Record>, r: nat)
    requires r < |rows|
    ensures StoredAlike(rows, r) <==> forall c :: c in PresentNames(rows[0]) <==> c in PresentNames(rows[r])
  {
    hide PresentNames, StoredRow, Lookup;
    var batch, own := PresentNames(rows[0]), PresentNames(rows[r]);
    StoredValues(rows[r], batch);
    StoredValues(rows[r], own);
    var a, b := map c | c in batch :: Lookup(rows[r], c), map c | c in own :: Lookup(rows[r], c);
    assert InsertRows(rows, batch)[r] == RowValues(rows[r], batch);
    assert InsertRows([rows[r]], own)[0] == RowValues(rows[r], own);
    if a == b {
      forall c
        ensures c in batch <==> c in own
      {
        assert c in a <==> c in batch;
        assert c in b <==> c in own;
      }
    }
  }

  /** A first row without "b" drops the second row's value of it. */
  lemma {:induction false} BatchDropsValue(one: JsString, two: JsString)
    ensures var first := [Entry(Ascii("a"), Some(one)), Entry(Ascii("b"), None)];
            var second := [Entry(Ascii("a"), Some(one)), Entry(Ascii("b"), Some(two))];
            !StoredAlike([first, second], 1)
  {
    hide StoredAlike;
    var first := [Entry(Ascii("a"), Some(one)), Entry(Ascii("b"), None)];
    var second := [Entry(Ascii("a"), Some(one)), Entry(Ascii("b"), Some(two))];
    assert Ascii("a")[0] == 'a' as int && Ascii("b")[0] == 'b' as int;
    TwoEntries(first[0], first[1]);
    TwoEntries(second[0], second[1]);
    assert Ascii("b") !in PresentNames(first) && Ascii("b") in PresentNames(second);
    RowAlike([first, second], 1);
  }

  lemma TwoEntries(a: Entry, b: Entry)
    ensures PresentNames([a, b]) == (if a.value.Some? then [a.name] else []) + (if b.value.Some? then [b.name] else [])
  {
    assert [a, b][1..] == [b] && [b][1..] == [];
    assert PresentNames([b]) == if b.value.Some? then [b.name] else [];
  }

  // ----- writes and the column map

  function MappedNames(names: seq<JsString>, m: ColumnMap): seq<JsString> {
    seq(|names|, i requires 0 <= i < |names| => RemoteName(m, names[i]))
  }

  function MappedItems<V>(items: seq<Item<V>>, m: ColumnMap): seq<Item<V>> {
    seq(|items|, i requires 0 <= i < |items| => items[i].(name := RemoteName(m, items[i].name)))
  }

  /** A write as it would be under the names the remote columns have. */
  function Mapped<V>(st: Statement<V>, m: ColumnMap): Statement<V>
    requires !st.Select?
  {
    match st
    case Insert(table, names, rows) => Statement.Insert(table, MappedNames(names, m), rows)
    case Update(table, sets, where) => Statement.Update(table, MappedItems(sets, m), MappedItems(where, m))
    case Delete(table, where) => Statement.Delete(table, MappedItems(where, m))
  }

  function ItemNames<V>(items: seq<Item<V>>): seq<JsString> {
    seq(|items|, i requires 0 <= i < |items| => items[i].name)
  }

  /** The column names of a write. */
  function WrittenNames<V>(st: Statement<V>): seq<JsString>
    requires !st.Select?
  {
    match st
    case Insert(_, names, _) => names
    case Update(_, sets, where) => ItemNames(sets) + ItemNames(where)
    case Delete(_, where) => ItemNames(where)
  }

  lemma NamesMap(names: seq<JsString>, m: ColumnMap)
    ensures MappedNames(names, m) == names <==> forall c :: c in names ==> RemoteName(m, c) == c
  {
    if MappedNames(names, m) == names {
      forall c | c in names
        ensures RemoteName(m, c) == c
      {
        var i :| 0 <= i < |names| && names[i] == c;
        assert MappedNames(names, m)[i] == names[i];
      }
    }
  }

  lemma ItemsMap<V>(items: seq<Item<V>>, m: ColumnMap)
    ensures MappedItems(items, m) == items <==> forall c :: c in ItemNames(items) ==> RemoteName(m, c) == c
  {
    NamesMap(ItemNames(items), m);
    var mapped := MappedItems(items, m);
    assert mapped == items <==> MappedNames(ItemNames(items), m) == ItemNames(items) by {
      if mapped == items {
        forall i | 0 <= i < |items|
          ensures MappedNames(ItemNames(items), m)[i] == ItemNames(items)[i]
        {
          assert mapped[i] == items[i];
        }
      }
      if MappedNames(ItemNames(items), m) == ItemNames(items) {
        forall i | 0 <= i < |items|
          ensures mapped[i] == items[i]
        {
          assert MappedNames(ItemNames(items), m)[i] == ItemNames(items)[i];
        }
      }
    }
  }

  /**
   The write statements above use the names they are given: these address the
   columns a scan reads exactly when the mapping leaves all of them as they are.
   */
  lemma {:induction false} WritesAreMapped<V>(st: Statement<V>, m: ColumnMap)
    requires !st.Select?
    ensures Mapped(st, m) == st <==> forall c :: c in WrittenNames(st) ==> RemoteName(m, c) == c
  {
    hide MappedNames, MappedItems, ItemNames, RemoteName;
    var names := WrittenNames(st);
    match st
    case Insert(_, names, _) =>
      NamesMap(names, m);
    case Update(_, sets, where) =>
      ItemsMap(sets, m);
      ItemsMap(where, m);
      assert forall c :: c in names <==> c in ItemNames(sets) || c in ItemNames(where);
      assert Mapped(st, m) == st <==> MappedItems(sets, m) == sets && MappedItems(where, m) == where;
    case Delete(_, where) =>
      ItemsMap(where, m);
  }

  /** With `column_name` "b" for column "a", a scan reads "b" and an update writes "a". */
  lemma {:induction false} UpdateWritesLocalName(table: JsString, value: Parameter)
    ensures var m: ColumnMap := map[Ascii("a") := Ascii("b")];
            var st := Statement.Update(table, Assignments([Entry(Ascii("a"), value)]), Conditions([], map[]));
            && Columns([Ascii("a")], m) == Some([Column(Ascii("b"), Ascii("a"))])
            && ItemNames(st.sets) == [Ascii("a")] && Mapped(st, m) != st
  {
    var m: ColumnMap := map[Ascii("a") := Ascii("b")];
    var st := Statement.Update(table, Assignments([Entry(Ascii("a"), value)]), Conditions([], map[]));
    assert Ascii("a")[0] == 'a' as int && Ascii("b")[0] == 'b' as int;
    var a, b := Ascii("a"), Ascii("b");
    assert RemoteName(m, a) == b;
    hide RemoteName, Ascii;
    WritesAreMapped(st, m);
    assert Columns([a], m).value == [Column(b, a)];
    assert ItemNames(st.sets) == [a];
    assert Ascii("a") in WrittenNames(st) by {
      assert WrittenNames(st)[0] == Ascii("a");
    }
  }
}
