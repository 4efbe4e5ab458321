/**
 A reader for the statements examples/remote_pg_fdw.js sends: the lexical rules
 of section 4.1 of the PostgreSQL 16 manual for quoted identifiers, key words,
 operators and positional parameters, and the grammar of the five statements.
 */
module SqlReader {
  import opened Options
  import opened Sequences
  import opened JsStrings
  import opened JsNumbers

  const SPACE: CodeUnit := 32
  const QUOTE: CodeUnit := 34
  const DOLLAR: CodeUnit := 36
  const LPAREN: CodeUnit := 40
  const RPAREN: CodeUnit := 41
  const COMMA: CodeUnit := 44

  // ----- tokens

  datatype Token =
    | Name(name: JsString) // between double quotes
    | Word(word: JsString)
    | Operator(op: JsString)
    | Param(number: nat)
    | Mark(c: CodeUnit)
    | Comment // and all that follows it

  predicate IsLetter(c: CodeUnit) {
    65 <= c <= 90 || 97 <= c <= 122 || c == 95
  }

  predicate IsSign(c: CodeUnit) {
    // ! # % & * + - / < = > ? @ ^ ` | ~
    c == 33 || c == 35 || c == 37 || c == 38 || c == 42 || c == 43 || c == 45 || c == 47 || 60 <= c <= 64
    || c == 94 || c == 96 || c == 124 || c == 126
  }

  /** Two characters that start a comment wherever they stand among operator signs. */
  predicate StartsComment(a: CodeUnit, b: CodeUnit) {
    (a == 45 && b == 45) || (a == 47 && b == 42)
  }

  function WordRun(s: JsString): (k: nat)
    ensures k <= |s|
  {
    if s != [] && IsLetter(s[0]) then 1 + WordRun(s[1..]) else 0
  }

  function OperatorRun(s: JsString): (k: nat)
    ensures k <= |s|
  {
    if s == [] || !IsSign(s[0]) || (|s| > 1 && StartsComment(s[0], s[1])) then 0 else 1 + OperatorRun(s[1..])
  }

  /** A delimited identifier has at least one character and no U+0000. */
  predicate IsName(name: JsString) {
    name != [] && 0 !in name
  }

  datatype Quotation = Quotation(value: JsString, length: nat) | Unterminated

  /** The rest of a quoted identifier after its opening quote. */
  function Quoted(s: JsString): (r: Quotation)
    ensures r.Quotation? ==> 1 <= r.length <= |s|
  {
    if s == [] then Unterminated
    else if s[0] != QUOTE then Longer(s[0], 1, Quoted(s[1..]))
    else if |s| > 1 && s[1] == QUOTE then Longer(QUOTE, 2, Quoted(s[2..]))
    else Quotation([], 1)
  }

  function Longer(c: CodeUnit, k: nat, q: Quotation): Quotation {
    match q
    case Quotation(v, n) => Quotation([c] + v, n + k)
    case Unterminated => Unterminated
  }

  datatype Lexed = Lexed(token: Option<Token>, length: nat)

  /** The token at the front, if there is one there, and how many code units it takes. */
  function NextToken(s: JsString): (r: Lexed)
    requires s != []
    ensures 1 <= r.length <= |s|
  {
    if s[0] == SPACE then Lexed(None, 1)
    else if s[0] == QUOTE then
      match Quoted(s[1..])
      case Quotation(v, n) => if IsName(v) then Lexed(Some(Name(v)), 1 + n) else Lexed(Some(Mark(QUOTE)), 1)
      case Unterminated => Lexed(Some(Mark(QUOTE)), 1)
    else if s[0] == DOLLAR then
      var k := DigitRun(s[1..], Decimal);
      if k > 0 then Lexed(Some(Param(NumeralValue(s[1..][..k], Decimal))), 1 + k)
      else Lexed(Some(Mark(DOLLAR)), 1)
    else if IsLetter(s[0]) then Lexed(Some(Word(s[..WordRun(s)])), WordRun(s))
    else if IsSign(s[0]) then
      if OperatorRun(s) == 0 then Lexed(Some(Comment), |s|)
      else Lexed(Some(Operator(s[..OperatorRun(s)])), OperatorRun(s))
    else Lexed(Some(Mark(s[0])), 1)
  }

  function Lex(s: JsString): seq<Token>
    decreases |s|
  {
    if s == [] then []
    else
      var next := NextToken(s);
      (if next.token.Some? then [next.token.value] else []) + Lex(s[next.length..])
  }

  // ----- statements

  /** A column, an operator and a value or the number of its parameter. */
  datatype Item<V> = Item(name: JsString, op: JsString, value: V)

  datatype Column = Column(remote: JsString, alias: JsString)

  datatype Ordering = Ordering(name: JsString, desc: bool, nullsFirst: bool)

  datatype Statement<V> =
    | Select(columns: Option<seq<Column>>, table: JsString, where: seq<Item<V>>, order: seq<Ordering>)
    | Insert(table: JsString, names: seq<JsString>, rows: seq<seq<V>>)
    | Update(table: JsString, sets: seq<Item<V>>, where: seq<Item<V>>)
    | Delete(table: JsString, where: seq<Item<V>>)

  datatype Read<T> = Read(value: T, rest: seq<Token>)

  const EQ: JsString := Ascii("=")
  const STAR: Token := Operator(Ascii("*"))

  function KeyWord(s: string): Token
    requires forall i :: 0 <= i < |s| ==> s[i] < 128 as char
  {
    Word(Ascii(s))
  }

  function Starts(toks: seq<Token>, head: seq<Token>): bool {
    |head| <= |toks| && toks[..|head|] == head
  }

  function ReadName(toks: seq<Token>): Option<Read<JsString>> {
    if toks != [] && toks[0].Name? then Some(Read(toks[0].name, toks[1..])) else None
  }

  function ReadParam(toks: seq<Token>): Option<Read<nat>> {
    if toks != [] && toks[0].Param? then Some(Read(toks[0].number, toks[1..])) else None
  }

  function ReadItem(toks: seq<Token>): Option<Read<Item<nat>>> {
    if |toks| >= 3 && toks[0].Name? && toks[1].Operator? && toks[2].Param? then
      Some(Read(Item(toks[0].name, toks[1].op, toks[2].number), toks[3..]))
    else None
  }

  function ReadAssignment(toks: seq<Token>): Option<Read<Item<nat>>> {
    match ReadItem(toks)
    case Some(r) => if r.value.op == EQ then Some(r) else None
    case None => None
  }

  function ReadColumn(toks: seq<Token>): Option<Read<Column>> {
    if |toks| >= 3 && toks[0].Name? && toks[1] == KeyWord("AS") && toks[2].Name? then
      Some(Read(Column(toks[0].name, toks[2].name), toks[3..]))
    else None
  }

  function ReadOrdering(toks: seq<Token>): Option<Read<Ordering>> {
    if |toks| >= 4 && toks[0].Name? && toks[2] == KeyWord("NULLS")
       && (toks[1] == KeyWord("ASC") || toks[1] == KeyWord("DESC"))
       && (toks[3] == KeyWord("FIRST") || toks[3] == KeyWord("LAST"))
    then
      Some(Read(Ordering(toks[0].name, toks[1] == KeyWord("DESC"), toks[3] == KeyWord("FIRST")), toks[4..]))
    else None
  }

  /** One or more items with a separator between them. */
  function ReadList<T>(item: seq<Token> -> Option<Read<T>>, sep: Token, toks: seq<Token>): Option<Read<seq<T>>>
    decreases |toks|
  {
    match item(toks)
    case None => None
    case Some(first) =>
      if first.rest == [] || first.rest[0] != sep || |first.rest| > |toks| then Some(Read([first.value], first.rest))
      else
        match ReadList(item, sep, first.rest[1..])
        case None => None
        case Some(others) => Some(Read([first.value] + others.value, others.rest))
  }

  function ReadParenthesised<T>(item: seq<Token> -> Option<Read<T>>, toks: seq<Token>): Option<Read<seq<T>>> {
    if !Starts(toks, [Mark(LPAREN)]) then None
    else
      match ReadList(item, Mark(COMMA), toks[1..])
      case None => None
      case Some(list) =>
        if Starts(list.rest, [Mark(RPAREN)]) then Some(Read(list.value, list.rest[1..])) else None
  }

  function ReadParams(toks: seq<Token>): Option<Read<seq<nat>>> {
    ReadParenthesised(ReadParam, toks)
  }

  /** A list introduced by key words, or nothing. */
  function ReadClause<T>(head: seq<Token>, item: seq<Token> -> Option<Read<T>>, sep: Token, toks: seq<Token>)
    : Option<Read<seq<T>>>
  {
    if Starts(toks, head) then ReadList(item, sep, toks[|head|..]) else Some(Read([], toks))
  }

  function ReadWhere(toks: seq<Token>): Option<Read<seq<Item<nat>>>> {
    ReadClause([KeyWord("WHERE")], ReadItem, KeyWord("AND"), toks)
  }

  predicate Ends(toks: seq<Token>) {
    toks == [] || toks == [KeyWord("RETURNING"), STAR]
  }

  /** The statement gives back the rows it writes. */
  predicate GivesRows(sql: JsString) {
    var toks := Lex(sql);
    |toks| >= 2 && toks[|toks| - 2..] == [KeyWord("RETURNING"), STAR]
  }

  function ReadColumns(toks: seq<Token>): Option<Read<Option<seq<Column>>>> {
    if Starts(toks, [STAR]) then Some(Read(None, toks[1..]))
    else
      match ReadList(ReadColumn, Mark(COMMA), toks)
      case Some(list) => Some(Read(Some(list.value), list.rest))
      case None => None
  }

  function ReadSelect(toks: seq<Token>): Option<Statement<nat>> {
    match ReadColumns(toks)
    case None => None
    case Some(columns) =>
      if !Starts(columns.rest, [KeyWord("FROM")]) then None
      else
        match ReadName(columns.rest[1..])
        case None => None
        case Some(table) =>
          match ReadWhere(table.rest)
          case None => None
          case Some(where) =>
            match ReadClause([KeyWord("ORDER"), KeyWord("BY")], ReadOrdering, Mark(COMMA), where.rest)
            case None => None
            case Some(order) =>
              if order.rest == [] then Some(Select(columns.value, table.value, where.value, order.value)) else None
  }

  function ReadInsert(toks: seq<Token>): Option<Statement<nat>> {
    match ReadName(toks)
    case None => None
    case Some(table) =>
      match ReadParenthesised(ReadName, table.rest)
      case None => None
      case Some(names) =>
        if !Starts(names.rest, [KeyWord("VALUES")]) then None
        else
          match ReadList(ReadParams, Mark(COMMA), names.rest[1..])
          case Some(rows) => if Ends(rows.rest) then Some(Insert(table.value, names.value, rows.value)) else None
          case None => None
  }

  function ReadUpdate(toks: seq<Token>): Option<Statement<nat>> {
    match ReadName(toks)
    case None => None
    case Some(table) =>
      if !Starts(table.rest, [KeyWord("SET")]) then None
      else
        match ReadList(ReadAssignment, Mark(COMMA), table.rest[1..])
        case None => None
        case Some(sets) =>
          match ReadWhere(sets.rest)
          case Some(where) => if Ends(where.rest) then Some(Update(table.value, sets.value, where.value)) else None
          case None => None
  }

  function ReadDelete(toks: seq<Token>): Option<Statement<nat>> {
    match ReadName(toks)
    case None => None
    case Some(table) =>
      match ReadWhere(table.rest)
      case Some(where) => if where.rest == [] then Some(Delete(table.value, where.value)) else None
      case None => None
  }

  function ReadStatement(toks: seq<Token>): Option<Statement<nat>> {
    if Starts(toks, [KeyWord("SELECT")]) then ReadSelect(toks[1..])
    else if Starts(toks, [KeyWord("INSERT"), KeyWord("INTO")]) then ReadInsert(toks[2..])
    else if Starts(toks, [KeyWord("UPDATE")]) then ReadUpdate(toks[1..])
    else if Starts(toks, [KeyWord("DELETE"), KeyWord("FROM")]) then ReadDelete(toks[2..])
    else None
  }

  // ----- parameters

  function ItemValues<V>(items: seq<Item<V>>): seq<V> {
    seq(|items|, i requires 0 <= i < |items| => items[i].value)
  }

  /** The values of a statement in the order in which they are written. */
  function ValuesOf<V>(st: Statement<V>): seq<V> {
    match st
    case Select(_, _, where, _) => ItemValues(where)
    case Insert(_, _, rows) => Concat(rows)
    case Update(_, sets, where) => ItemValues(sets) + ItemValues(where)
    case Delete(_, where) => ItemValues(where)
  }

  function NumberItems<V>(items: seq<Item<V>>, offset: nat): seq<Item<nat>> {
    seq(|items|, i requires 0 <= i < |items| => Item(items[i].name, items[i].op, offset + i + 1))
  }

  function Numbers(offset: nat, n: nat): seq<nat> {
    seq(n, i requires 0 <= i < n => offset + i + 1)
  }

  function NumberRows<V>(rows: seq<seq<V>>, offset: nat): seq<seq<nat>> {
    if rows == [] then [] else [Numbers(offset, |rows[0]|)] + NumberRows(rows[1..], offset + |rows[0]|)
  }

  /** The statement with its values replaced by $1, $2, ... in the order in which they are written. */
  function Numbered<V>(st: Statement<V>): Statement<nat> {
    match st
    case Select(columns, table, where, order) => Select(columns, table, NumberItems(where, 0), order)
    case Insert(table, names, rows) => Insert(table, names, NumberRows(rows, 0))
    case Update(table, sets, where) => Update(table, NumberItems(sets, 0), NumberItems(where, |sets|))
    case Delete(table, where) => Delete(table, NumberItems(where, 0))
  }

  /**
   A text with parameters means `st`: it reads as `st` with $k for the k-th value, and the k-th
   parameter is that value.
   */
  predicate Means<V(==)>(sql: JsString, params: seq<V>, st: Statement<V>) {
    ReadStatement(Lex(sql)) == Some(Numbered(st)) && params == ValuesOf(st)
  }

  /** In such a text each of $1 to $n stands once, and $k is bound to the k-th value. */
  lemma {:induction false} EachParameterOnce<V>(sql: JsString, params: seq<V>, st: Statement<V>)
    requires Means(sql, params, st)
    ensures ReadStatement(Lex(sql)).Some? && ValuesOf(ReadStatement(Lex(sql)).value) == Numbers(0, |params|)
  {
    hide Lex, ReadStatement, ValuesOf, Numbered;
    NumberedValues(st);
  }

  lemma NumberedValues<V>(st: Statement<V>)
    ensures ValuesOf(Numbered(st)) == Numbers(0, |ValuesOf(st)|)
  {
    if st.Insert? {
      RowNumbers(st.rows, 0);
    }
  }

  lemma {:induction false} RowNumbers<V>(rows: seq<seq<V>>, offset: nat)
    ensures Concat(NumberRows(rows, offset)) == Numbers(offset, |Concat(rows)|)
  {
    if rows != [] {
      RowNumbers(rows[1..], offset + |rows[0]|);
      assert NumberRows(rows, offset)[1..] == NumberRows(rows[1..], offset + |rows[0]|);
    }
  }

  /** In rows of equal length, column `c` of row `r` has number r * length + c + 1. */
  lemma {:induction false} UniformRowNumbers<V>(rows: seq<seq<V>>, width: nat, offset: nat)
    requires forall k :: 0 <= k < |rows| ==> |rows[k]| == width
    ensures NumberRows(rows, offset)
         == seq(|rows|, r requires 0 <= r < |rows| => Numbers(offset + r * width, width))
    decreases |rows|
  {
    hide Numbers;
    if rows != [] {
      UniformRowNumbers(rows[1..], width, offset + width);
      var all := NumberRows(rows, offset);
      forall r | 1 <= r < |rows|
        ensures all[r] == Numbers(offset + r * width, width)
      {
        PreviousRow(r, width);
        assert all[r] == NumberRows(rows[1..], offset + width)[r - 1];
      }
    }
  }

  lemma PreviousRow(r: nat, width: nat)
    requires r >= 1
    ensures width + (r - 1) * width == r * width
  {
  }
}
