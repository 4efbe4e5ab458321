/** The statements examples/remote_pg_fdw.js builds, and their parameters. */
module RemoteSql {
  import opened Options
  import opened Sequences
  import opened ColumnMaps
  import opened JsStrings
  import opened JsNumbers

  /** A parameter as text; `None` is null or undefined. */
  type Parameter = Option<JsString>

  datatype Qual = Qual(column: JsString, operator: JsString, value: Parameter)

  datatype SortKey = SortKey(column: JsString, desc: bool, nullsFirst: bool)

  /** A row object as its keys and values in the order of Object.keys. */
  datatype Entry = Entry(name: JsString, value: Parameter)
  type Record = seq<Entry>

  /** Between double quotes, those in the name doubled. */
  function QuoteIdent(name: JsString): JsString {
    [34] + Doubled(name, [34]) + [34]
  }

  function Placeholder(n: nat): JsString {
    Ascii("$") + Numeral(n, Decimal)
  }

  // ----- clauses

  function ColumnText(m: ColumnMap, c: JsString): JsString {
    QuoteIdent(RemoteName(m, c)) + Ascii(" AS ") + QuoteIdent(c)
  }

  function SelectList(columns: seq<JsString>, m: ColumnMap): JsString {
    if columns == [] then Ascii("*")
    else Join(seq(|columns|, i requires 0 <= i < |columns| => ColumnText(m, columns[i])), Ascii(", "))
  }

  function ConditionText(m: ColumnMap, q: Qual, number: nat): JsString {
    QuoteIdent(RemoteName(m, q.column)) + Ascii(" ") + q.operator + Ascii(" ") + Placeholder(number)
  }

  function ConditionTexts(quals: seq<Qual>, m: ColumnMap, offset: nat): seq<JsString> {
    seq(|quals|, i requires 0 <= i < |quals| => ConditionText(m, quals[i], offset + i + 1))
  }

  function WhereText(quals: seq<Qual>, m: ColumnMap, offset: nat): JsString {
    if quals == [] then [] else Ascii(" WHERE ") + Join(ConditionTexts(quals, m, offset), Ascii(" AND "))
  }

  function QualValues(quals: seq<Qual>): seq<Parameter> {
    seq(|quals|, i requires 0 <= i < |quals| => quals[i].value)
  }

  method WhereClause(quals: seq<Qual>, columnMap: ColumnMap, paramOffset: nat)
    returns (clause: JsString, params: seq<Parameter>)
    ensures clause == WhereText(quals, columnMap, paramOffset) && params == QualValues(quals)
  {
    hide ConditionText, Join;
    params := [];
    if |quals| == 0 {
      return [], [];
    }
    var parts := [];
    for i := 0 to |quals|
      invariant parts == ConditionTexts(quals[..i], columnMap, paramOffset) && params == QualValues(quals[..i])
    {
      parts := parts + [ConditionText(columnMap, quals[i], paramOffset + i + 1)];
      params := params + [quals[i].value];
    }
    assert quals[..|quals|] == quals;
    clause := Ascii(" WHERE ") + Join(parts, Ascii(" AND "));
  }

  function OrderingText(m: ColumnMap, key: SortKey): JsString {
    QuoteIdent(RemoteName(m, key.column)) + Ascii(" ") + Ascii(if key.desc then "DESC" else "ASC")
    + Ascii(" ") + Ascii(if key.nullsFirst then "NULLS FIRST" else "NULLS LAST")
  }

  function OrderByText(keys: seq<SortKey>, m: ColumnMap): JsString {
    if keys == [] then []
    else Ascii(" ORDER BY ") + Join(seq(|keys|, i requires 0 <= i < |keys| => OrderingText(m, keys[i])), Ascii(", "))
  }

  function EntryValues(row: Record): seq<Parameter> {
    seq(|row|, i requires 0 <= i < |row| => row[i].value)
  }

  function AssignmentText(name: JsString, number: nat): JsString {
    QuoteIdent(name) + Ascii(" = ") + Placeholder(number)
  }

  function SetText(row: Record): JsString {
    Join(seq(|row|, i requires 0 <= i < |row| => AssignmentText(row[i].name, i + 1)), Ascii(", "))
  }

  function NameList(names: seq<JsString>): JsString {
    Join(seq(|names|, i requires 0 <= i < |names| => QuoteIdent(names[i])), Ascii(", "))
  }

  // ----- statements

  datatype Query = Query(sql: JsString, params: seq<Parameter>)

  function SelectText(table: JsString, quals: seq<Qual>, columns: seq<JsString>, keys: seq<SortKey>,
                      m: ColumnMap): JsString {
    Ascii("SELECT ") + SelectList(columns, m) + Ascii(" FROM ") + QuoteIdent(table) + WhereText(quals, m, 0)
    + OrderByText(keys, m)
  }

  /** The keys whose value is not null or undefined. */
  function PresentNames(row: Record): seq<JsString> {
    if row == [] then []
    else (if row[0].value.Some? then [row[0].name] else []) + PresentNames(row[1..])
  }

  function Lookup(row: Record, name: JsString): Parameter {
    if row == [] then None else if row[0].name == name then row[0].value else Lookup(row[1..], name)
  }

  function RowValues(row: Record, cols: seq<JsString>): seq<Parameter> {
    seq(|cols|, i requires 0 <= i < |cols| => Lookup(row, cols[i]))
  }

  function TupleTexts(offset: nat, n: nat): seq<JsString> {
    seq(n, i requires 0 <= i < n => Placeholder(offset + i + 1))
  }

  function TupleText(offset: nat, n: nat): JsString {
    Ascii("(") + Join(TupleTexts(offset, n), Ascii(", ")) + Ascii(")")
  }

  /** The value rows of an INSERT of `count` rows of `width` columns. */
  function ValueTexts(count: nat, width: nat): seq<JsString> {
    seq(count, r requires 0 <= r < count => TupleText(r * width, width))
  }

  function AllRowValues(rows: seq<Record>, cols: seq<JsString>): seq<Parameter> {
    if rows == [] then [] else AllRowValues(rows[..|rows| - 1], cols) + RowValues(rows[|rows| - 1], cols)
  }

  function InsertText(table: JsString, cols: seq<JsString>, count: nat): JsString {
    Ascii("INSERT INTO ") + QuoteIdent(table) + Ascii(" (") + NameList(cols) + Ascii(") VALUES ")
    + Join(ValueTexts(count, |cols|), Ascii(", ")) + Ascii(" RETURNING *")
  }

  function UpdateText(table: JsString, row: Record, where: JsString): JsString {
    Ascii("UPDATE ") + QuoteIdent(table) + Ascii(" SET ") + SetText(row) + where
  }

  function UpdateQuery(table: JsString, rowIdColumn: JsString, rowId: Parameter, row: Record): Query {
    Query(UpdateText(table, row, []) + Ascii(" WHERE ") + AssignmentText(rowIdColumn, |row| + 1)
          + Ascii(" RETURNING *"),
          EntryValues(row) + [rowId])
  }

  function DeleteText(table: JsString, quals: seq<Qual>): JsString {
    Ascii("DELETE FROM ") + QuoteIdent(table) + WhereText(quals, map[], 0)
  }
}
