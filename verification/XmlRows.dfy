/**
 The row-building state machine of `parseXmlRows` (examples/xml_fdw.js): the
 variables its handlers share, and the single pass over the text.
 */
module XmlRows {
  import opened Options
  import opened Sequences
  import opened ColumnMaps
  import opened JsStrings
  import opened XmlScanner

  type Row = map<JsString, JsString>

  /** What the caller asks for: the row element's tag and the wanted column names. */
  datatype Target = Target(elemTag: JsString, columns: set<JsString>)

  datatype State = State(
    rows: seq<Row>,
    rootSeen: int,
    currentRow: Option<Row>,
    activeColumn: Option<JsString>,
    activeDepth: int,
    activeText: JsString)

  const INITIAL: State := State([], 0, None, None, 0, [])

  /** A row is open exactly inside a row element, and a capture is open only directly inside one. */
  predicate Valid(st: State) {
    && (st.currentRow.Some? <==> st.rootSeen >= 1)
    && (st.activeColumn.Some? ==> st.rootSeen == 1 && st.activeDepth >= 1)
    && (st.activeColumn.None? ==> st.activeDepth == 0 && st.activeText == [])
  }

  function OnStart(target: Target, st: State, name: JsString, selfClosing: bool): (r: State)
    requires Valid(st)
    ensures Valid(r)
  {
    if st.activeColumn.Some? then
      if selfClosing then st else st.(activeDepth := st.activeDepth + 1)
    else if name == target.elemTag then
      var row := if st.rootSeen == 0 then Some(map[]) else st.currentRow;
      if selfClosing && st.rootSeen == 0 then st.(rows := st.rows + [row.value])
      else if selfClosing then st
      else st.(rootSeen := st.rootSeen + 1, currentRow := row)
    else if st.rootSeen == 1 && name in target.columns then
      if selfClosing then st.(currentRow := Some(st.currentRow.value[name := []]))
      else st.(activeColumn := Some(name), activeDepth := 1)
    else st
  }

  function OnEnd(target: Target, st: State, name: JsString): (r: State)
    requires Valid(st)
    ensures Valid(r)
  {
    if st.activeColumn.Some? then
      if st.activeDepth > 1 then st.(activeDepth := st.activeDepth - 1)
      else st.(currentRow := Some(st.currentRow.value[st.activeColumn.value := st.activeText]),
               activeColumn := None, activeDepth := 0, activeText := [])
    else if name == target.elemTag then
      if st.rootSeen == 1 then st.(rows := st.rows + [st.currentRow.value], rootSeen := 0, currentRow := None)
      else st.(rootSeen := st.rootSeen - 1)
    else st
  }

  function OnText(st: State, str: JsString, literal: bool): (r: State)
    requires Valid(st)
    ensures Valid(r)
  {
    if st.activeColumn.Some? then st.(activeText := st.activeText + (if literal then str else Decode(str)))
    else st
  }

  function OnToken(target: Target, st: State, token: Token): (r: State)
    requires Valid(st)
    ensures Valid(r)
  {
    match token
    case Text(str, literal) => OnText(st, str, literal)
    case StartTag(name, selfClosing) => OnStart(target, st, name, selfClosing)
    case EndTag(name) => OnEnd(target, st, name)
    case Skipped => st
  }

  /** The state after scanning the whole of `s` from state `st`. */
  function Scan(target: Target, s: JsString, st: State): (r: State)
    requires Valid(st)
    ensures Valid(r)
    decreases |s|
  {
    if s == [] then st
    else
      var lexed := Lex(s);
      Scan(target, Drop(s, lexed.next), OnToken(target, st, lexed.token))
  }

  /** The shared variables of the source's handlers. */
  class RowCollector {
    const target: Target
    var rows: seq<Row>
    var rootSeen: int
    var currentRow: Option<Row>
    var activeColumn: Option<JsString>
    var activeDepth: int
    var activeText: JsString

    function Current(): State
      reads this
    {
      State(rows, rootSeen, currentRow, activeColumn, activeDepth, activeText)
    }

    constructor (target: Target)
      ensures this.target == target && Current() == INITIAL
    {
      this.target := target;
      rows, rootSeen, currentRow := [], 0, None;
      activeColumn, activeDepth, activeText := None, 0, [];
    }

    method HandleStart(name: JsString, selfClosing: bool)
      requires Valid(Current())
      modifies this
      ensures Current() == OnStart(target, old(Current()), name, selfClosing)
    {
      if activeColumn.Some? {
        if !selfClosing {
          activeDepth := activeDepth + 1;
        }
        return;
      }
      if name == target.elemTag {
        rootSeen := rootSeen + 1;
        if rootSeen == 1 {
          currentRow := Some(map[]);
        }
        if selfClosing && rootSeen == 1 {
          rows := rows + [currentRow.value];
          currentRow := None;
          rootSeen := 0;
        } else if selfClosing {
          rootSeen := rootSeen - 1;
        }
        return;
      }
      if rootSeen == 1 && name in target.columns {
        activeColumn := Some(name);
        activeText := [];
        if selfClosing {
          currentRow := Some(currentRow.value[name := []]);
          activeColumn := None;
        } else {
          activeDepth := 1;
        }
      }
    }

    method HandleEnd(name: JsString)
      requires Valid(Current())
      modifies this
      ensures Current() == OnEnd(target, old(Current()), name)
    {
      if activeColumn.Some? {
        activeDepth := activeDepth - 1;
        if activeDepth == 0 {
          currentRow := Some(currentRow.value[activeColumn.value := activeText]);
          activeColumn := None;
          activeText := [];
        }
        return;
      }
      if name == target.elemTag {
        rootSeen := rootSeen - 1;
        if rootSeen == 0 && currentRow.Some? {
          rows := rows + [currentRow.value];
          currentRow := None;
        }
      }
    }

    method HandleText(str: JsString, literal: bool)
      requires Valid(Current())
      modifies this
      ensures Current() == OnText(old(Current()), str, literal)
    {
      if activeColumn.Some? {
        var decoded := str;
        if !literal {
          decoded := DecodeEntities(str);
        }
        activeText := activeText + decoded;
      }
    }

    method Handle(token: Token)
      requires Valid(Current())
      modifies this
      ensures Current() == OnToken(target, old(Current()), token)
    {
      match token
      case Text(str, literal) => HandleText(str, literal);
      case StartTag(name, selfClosing) => HandleStart(name, selfClosing);
      case EndTag(name) => HandleEnd(name);
      case Skipped =>
    }
  }

  method ParseXmlRows(text: JsString, elemTag: JsString, columns: seq<JsString>) returns (rows: seq<Row>)
    ensures rows == Scan(Target(elemTag, set c | c in columns), text, INITIAL).rows
  {
    hide Lex, OnToken;
    var columnSet := {};
    for k := 0 to |columns|
      invariant columnSet == set c | c in columns[..k]
    {
      assert columns[..k + 1] == columns[..k] + [columns[k]];
      columnSet := columnSet + {columns[k]};
    }
    assert columns[..|columns|] == columns;
    var collector := new RowCollector(Target(elemTag, columnSet));
    var i := 0;
    assert Drop(text, 0) == text;
    while i < |text|
      invariant 0 <= i <= |text| + 1
      invariant Valid(collector.Current())
      invariant Scan(collector.target, Drop(text, i), collector.Current())
             == Scan(collector.target, text, INITIAL)
      invariant collector.target == Target(elemTag, columnSet)
      decreases |text| + 1 - i
    {
      var lexed := ReadToken(text, i);
      assert Drop(text[i..], lexed.next - i) == Drop(text, lexed.next);
      collector.Handle(lexed.token);
      i := lexed.next;
    }
    rows := collector.rows;
  }

  // ----- column renaming

  /** A yielded row; `None` is a property set to `undefined`. */
  type LocalRow = map<JsString, Option<JsString>>

  function Lookup(row: Row, name: JsString): Option<JsString> {
    if name in row then Some(row[name]) else None
  }

  function ToLocal(row: Row, columns: seq<JsString>, columnMap: ColumnMap): LocalRow {
    map c | c in columns :: Lookup(row, RemoteName(columnMap, c))
  }

  function Translated(rows: seq<Row>, columns: seq<JsString>, columnMap: ColumnMap): seq<LocalRow> {
    seq(|rows|, i requires 0 <= i < |rows| => ToLocal(rows[i], columns, columnMap))
  }

  function Execute(text: JsString, elemTag: JsString, columns: seq<JsString>, columnMap: ColumnMap,
                   keep: LocalRow -> bool): seq<LocalRow> {
    var target := Target(elemTag, set c | c in columns :: RemoteName(columnMap, c));
    Filter(Translated(Scan(target, text, INITIAL).rows, columns, columnMap), keep)
  }

  lemma SameNames(columns: seq<JsString>, columnMap: ColumnMap, remoteNames: seq<JsString>)
    requires |remoteNames| == |columns|
    requires forall i :: 0 <= i < |columns| ==> remoteNames[i] == RemoteName(columnMap, columns[i])
    ensures (set c | c in remoteNames) == (set c | c in columns :: RemoteName(columnMap, c))
  {
    hide RemoteName;
    forall c | c in columns
      ensures RemoteName(columnMap, c) in remoteNames
    {
      var i :| 0 <= i < |columns| && columns[i] == c;
      assert remoteNames[i] == RemoteName(columnMap, c);
    }
  }

  method TranslateRow(row: Row, columns: seq<JsString>, columnMap: ColumnMap) returns (local: LocalRow)
    ensures local == ToLocal(row, columns, columnMap)
  {
    hide RemoteName, Lookup;
    local := map[];
    for j := 0 to |columns|
      invariant local == ToLocal(row, columns[..j], columnMap)
    {
      assert columns[..j + 1] == columns[..j] + [columns[j]];
      local := local[columns[j] := Lookup(row, RemoteName(columnMap, columns[j]))];
    }
    assert columns[..|columns|] == columns;
  }

  /** `execute`, with the qual test as the given predicate on a row. */
  method ExecuteXml(text: JsString, elemTag: JsString, columns: seq<JsString>, columnMap: ColumnMap,
                    keep: LocalRow -> bool)
    returns (out: seq<LocalRow>)
    ensures out == Execute(text, elemTag, columns, columnMap, keep)
  {
    hide Scan, RemoteName, ToLocal;
    var remoteNames := seq(|columns|, i requires 0 <= i < |columns| => RemoteName(columnMap, columns[i]));
    var remoteRows := ParseXmlRows(text, elemTag, remoteNames);
    SameNames(columns, columnMap, remoteNames);
    ghost var translated := Translated(remoteRows, columns, columnMap);
    out := [];
    for k := 0 to |remoteRows|
      invariant out == Filter(translated[..k], keep)
    {
      var row := TranslateRow(remoteRows[k], columns, columnMap);
      assert translated[..k + 1] == translated[..k] + [row];
      FilterSnoc(translated[..k], row, keep);
      if keep(row) {
        out := out + [row];
      }
    }
    assert translated[..|remoteRows|] == translated;
  }
}
