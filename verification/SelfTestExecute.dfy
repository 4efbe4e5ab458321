/**
 execute() of examples/self_test_fdw.js: generated rows, filtered by the quals and
 sorted by the sort keys.
 */
module SelfTestExecute {
  import opened Options
  import opened Sequences
  import opened JsStrings
  import opened JsNumbers
  import opened SelfTest
  import Utf8

  // ----- generated rows

  datatype Mode = IntMode | StringMode | DateMode | EncodingMode | NullMode

  const DAY_MS: int := 86_400_000
  const START_MS: int := 1_577_836_800_000 // 1 January 2020

  function GenerateValue(mode: Mode, col: JsString, index: nat): Value {
    match mode
    case IntMode => Number(index)
    case StringMode => Text(col + Ascii(" ") + Numeral(index, Decimal))
    case DateMode => Date(START_MS + DAY_MS * index)
    case EncodingMode => Text([0xe9, 0xe0, 0xa4])
    case NullMode => Null
  }

  /** Row `i`: exactly the wanted columns. */
  function Generated(mode: Mode, columns: seq<JsString>, i: nat): Row {
    map col | col in columns :: GenerateValue(mode, col, i)
  }

  function AllGenerated(mode: Mode, columns: seq<JsString>, n: nat): seq<Row> {
    seq(n, i requires 0 <= i < n => Generated(mode, columns, i))
  }

  /** How many rows the loop makes; `None` is NaN, which is less than nothing. */
  function Count(numRows: Option<int>): nat {
    if numRows.None? || numRows.value < 0 then 0 else numRows.value
  }

  method GenerateRows(numRows: Option<int>, mode: Mode, columns: seq<JsString>) returns (rows: seq<Row>)
    ensures rows == AllGenerated(mode, columns, Count(numRows))
  {
    hide GenerateValue;
    rows := [];
    var i: nat := 0;
    while numRows.Some? && i < numRows.value
      invariant i <= Count(numRows)
      invariant rows == AllGenerated(mode, columns, i)
    {
      var row: Row := map[];
      for j := 0 to |columns|
        invariant row == Generated(mode, columns[..j], i)
      {
        row := row[columns[j] := GenerateValue(mode, columns[j], i)];
      }
      assert columns[..|columns|] == columns;
      rows := rows + [row];
      i := i + 1;
    }
  }

  predicate IsLeap(year: nat) {
    year % 4 == 0 && (year % 100 != 0 || year % 400 == 0)
  }

  /** The days from 1 January 1970 to 1 January of a year. */
  function DaysTo(year: nat): nat
    requires year >= 1970
  {
    if year == 1970 then 0 else DaysTo(year - 1) + if IsLeap(year - 1) then 366 else 365
  }

  lemma {:induction false} DaysToIs(year: nat)
    requires 1970 <= year <= 2100
    ensures DaysTo(year) == 365 * (year - 1970) + (year - 1969) / 4
  {
    if year > 1970 {
      DaysToIs(year - 1);
    }
  }

  /** Every wanted column of row `i` has the value of its mode; dates count the days from 1 January 2020. */
  lemma {:induction false} GeneratedIs(mode: Mode, columns: seq<JsString>, i: nat, col: JsString)
    requires col in columns
    ensures var v := Get(Generated(mode, columns, i), col);
            && (mode == IntMode ==> v == Number(i))
            && (mode == NullMode ==> v == Null)
            && (mode == DateMode ==> v == Date((DaysTo(2020) + i) * 24 * 60 * 60 * 1000))
            && (mode == EncodingMode ==> v == Text([0x00e9, 0x00e0, 0x00a4]))
            && (mode == StringMode ==>
                  v.Text? && |v.s| > |col| + 1 && v.s[..|col|] == col && v.s[|col|] == ' ' as int
                  && ParseInt(v.s[|col| + 1..], Decimal) == Some(i))
    ensures forall c :: c in Generated(mode, columns, i) <==> c in columns
  {
    hide Numeral, ParseInt, NumeralValue;
    DaysToIs(2020);
    if mode == StringMode {
      var digits := Numeral(i, Decimal);
      NumeralRoundTrip(i, Decimal);
      ParseIntRoundTrip(i, Decimal, []);
      assert digits + [] == digits;
      var s := col + Ascii(" ") + digits;
      assert s[|col| + 1..] == digits;
    }
  }

  // ----- the filter

  datatype Operator = Eq | Ne | Lt | Le | Gt | Ge | Unrecognized

  datatype Qual = Qual(column: JsString, operator: Operator, value: Value)

  function ToComparable(v: Value): Value {
    if v.Date? then Number(v.ms) else v
  }

  function EvalQual(convert: Conversion, row: Row, q: Qual): bool {
    var v, t := ToComparable(Get(row, q.column)), ToComparable(q.value);
    match q.operator
    case Eq => v == t
    case Ne => v != t
    case Lt => ValueOrder(convert, v, t).Less?
    case Le => ValueOrder(convert, v, t).Less? || ValueOrder(convert, v, t).Equal?
    case Gt => ValueOrder(convert, v, t).Greater?
    case Ge => ValueOrder(convert, v, t).Greater? || ValueOrder(convert, v, t).Equal?
    case Unrecognized => true
  }

  predicate Passes(convert: Conversion, row: Row, quals: seq<Qual>) {
    forall i :: 0 <= i < |quals| ==> EvalQual(convert, row, quals[i])
  }

  // ----- the sort

  predicate Before(convert: Conversion, keys: seq<SortKey>, a: Row, b: Row) {
    Compare(convert, a, b, keys) <= 0
  }

  ghost predicate Sorted(convert: Conversion, keys: seq<SortKey>, rows: seq<Row>) {
    forall i, j :: 0 <= i < j < |rows| ==> Before(convert, keys, rows[i], rows[j])
  }

  /** Where a row goes that comes before all of `rows`: in front of those that compare as equal. */
  function Insert(convert: Conversion, keys: seq<SortKey>, row: Row, rows: seq<Row>): seq<Row> {
    if rows == [] || Compare(convert, row, rows[0], keys) <= 0 then [row] + rows
    else [rows[0]] + Insert(convert, keys, row, rows[1..])
  }

  /** `Array.prototype.sort`, which is stable; any stable sort gives this result (`StableSortIsUnique`). */
  function StableSort(convert: Conversion, keys: seq<SortKey>, rows: seq<Row>): seq<Row> {
    if rows == [] then [] else Insert(convert, keys, rows[0], StableSort(convert, keys, rows[1..]))
  }

  /** Every two rows in reach of the comparator have comparable values. */
  ghost predicate AllComparable(keys: seq<SortKey>, rows: seq<Row>) {
    forall a, b :: a in rows && b in rows ==> Comparable(a, b, keys)
  }

  lemma {:induction false} InsertKeeps(convert: Conversion, keys: seq<SortKey>, row: Row, rows: seq<Row>)
    ensures multiset(Insert(convert, keys, row, rows)) == multiset(rows) + multiset{row}
  {
    hide Compare;
    if rows != [] {
      InsertKeeps(convert, keys, row, rows[1..]);
      assert rows == [rows[0]] + rows[1..];
    }
  }

  lemma {:induction false} SortKeeps(convert: Conversion, keys: seq<SortKey>, rows: seq<Row>)
    ensures multiset(StableSort(convert, keys, rows)) == multiset(rows)
  {
    hide Insert;
    if rows != [] {
      SortKeeps(convert, keys, rows[1..]);
      InsertKeeps(convert, keys, rows[0], StableSort(convert, keys, rows[1..]));
      assert rows == [rows[0]] + rows[1..];
    }
  }

  lemma SameRows(s: seq<Row>, t: seq<Row>)
    requires multiset(s) == multiset(t)
    ensures forall a :: a in s <==> a in t
  {
    assert forall a :: a in s <==> a in multiset(s);
    assert forall a :: a in t <==> a in multiset(t);
  }

  lemma {:induction false} InsertSorts(convert: Conversion, keys: seq<SortKey>, row: Row, rows: seq<Row>)
    requires Sorted(convert, keys, rows) && AllComparable(keys, [row] + rows)
    ensures Sorted(convert, keys, Insert(convert, keys, row, rows))
    decreases |rows|
  {
    hide Compare, Comparable;
    if rows == [] {
    } else if Compare(convert, row, rows[0], keys) <= 0 {
      forall j | 0 <= j < |rows|
        ensures Before(convert, keys, row, rows[j])
      {
        if j > 0 {
          InReach(keys, [row] + rows, 0, 1, j + 1);
          CompareTransitive(convert, row, rows[0], rows[j], keys);
        }
      }
    } else {
      InReach(keys, [row] + rows, 0, 1, 1);
      CompareAntisymmetric(convert, row, rows[0], keys);
      assert forall a :: a in [row] + rows[1..] ==> a in [row] + rows;
      InsertSorts(convert, keys, row, rows[1..]);
      InsertKeeps(convert, keys, row, rows[1..]);
      var tail := Insert(convert, keys, row, rows[1..]);
      forall j | 0 <= j < |tail|
        ensures Before(convert, keys, rows[0], tail[j])
      {
        assert tail[j] in multiset(tail);
        if tail[j] != row {
          assert tail[j] in multiset(rows[1..]);
          var k :| 0 <= k < |rows[1..]| && rows[1..][k] == tail[j];
          assert Before(convert, keys, rows[0], rows[k + 1]);
        }
      }
    }
  }

  lemma InReach(keys: seq<SortKey>, rows: seq<Row>, i: nat, j: nat, k: nat)
    requires AllComparable(keys, rows) && i < |rows| && j < |rows| && k < |rows|
    ensures Comparable(rows[i], rows[j], keys) && Comparable(rows[j], rows[k], keys)
      && Comparable(rows[i], rows[k], keys)
  {
  }

  lemma {:induction false} SortSorts(convert: Conversion, keys: seq<SortKey>, rows: seq<Row>)
    requires AllComparable(keys, rows)
    ensures Sorted(convert, keys, StableSort(convert, keys, rows))
    decreases |rows|
  {
    hide Insert, Comparable, Before;
    if rows != [] {
      SortSorts(convert, keys, rows[1..]);
      var tail := StableSort(convert, keys, rows[1..]);
      SortKeeps(convert, keys, rows[1..]);
      SameRows(tail, rows[1..]);
      assert forall a :: a in [rows[0]] + tail ==> a in rows;
      InsertSorts(convert, keys, rows[0], tail);
    }
  }

  // ----- stability

  /** The rows that compare as equal to `r`, in their order. */
  function Ties(convert: Conversion, keys: seq<SortKey>, r: Row, rows: seq<Row>): seq<Row> {
    if rows == [] then []
    else (if Compare(convert, r, rows[0], keys) == 0 then [rows[0]] else []) + Ties(convert, keys, r, rows[1..])
  }

  lemma TieIsEquivalence(convert: Conversion, keys: seq<SortKey>, r: Row, a: Row, b: Row)
    requires Comparable(r, a, keys) && Comparable(r, b, keys) && Comparable(a, b, keys)
    requires Compare(convert, r, a, keys) == 0 && Compare(convert, r, b, keys) == 0
    ensures Compare(convert, a, b, keys) == 0
  {
    hide Compare;
    CompareAntisymmetric(convert, r, a, keys);
    CompareAntisymmetric(convert, r, b, keys);
    CompareAntisymmetric(convert, a, b, keys);
    assert Comparable(a, r, keys) && Comparable(b, r, keys) && Comparable(b, a, keys) by {
      ComparableFlips(r, a, keys);
      ComparableFlips(r, b, keys);
      ComparableFlips(a, b, keys);
    }
    CompareTransitive(convert, a, r, b, keys);
    CompareTransitive(convert, b, r, a, keys);
  }

  lemma ComparableFlips(a: Row, b: Row, keys: seq<SortKey>)
    requires Comparable(a, b, keys)
    ensures Comparable(b, a, keys)
  {
    forall i | 0 <= i < |keys|
      ensures ComparableValues(Get(b, keys[i].column), Get(a, keys[i].column))
    {
      ReflexiveKind(Get(a, keys[i].column), Get(b, keys[i].column));
    }
  }

  lemma {:induction false} InsertIsStable(convert: Conversion, keys: seq<SortKey>, row: Row, rows: seq<Row>, r: Row)
    requires AllComparable(keys, [r, row] + rows)
    ensures Ties(convert, keys, r, Insert(convert, keys, row, rows)) == Ties(convert, keys, r, [row] + rows)
    decreases |rows|
  {
    hide Compare, Comparable;
    var all := [r, row] + rows;
    assert ([row] + rows)[1..] == rows;
    if rows != [] && Compare(convert, row, rows[0], keys) > 0 {
      assert forall a :: a in [r, row] + rows[1..] ==> a in all;
      InsertIsStable(convert, keys, row, rows[1..], r);
      var tail := Insert(convert, keys, row, rows[1..]);
      assert ([rows[0]] + tail)[1..] == tail;
      assert ([row] + rows[1..])[1..] == rows[1..];
      InReach(keys, all, 0, 1, 2);
      if Compare(convert, r, row, keys) == 0 && Compare(convert, r, rows[0], keys) == 0 {
        TieIsEquivalence(convert, keys, r, row, rows[0]);
      }
    }
  }

  lemma {:induction false} SortIsStable(convert: Conversion, keys: seq<SortKey>, rows: seq<Row>, r: Row)
    requires AllComparable(keys, [r] + rows)
    ensures Ties(convert, keys, r, StableSort(convert, keys, rows)) == Ties(convert, keys, r, rows)
    decreases |rows|
  {
    hide Compare, Comparable, Insert;
    if rows != [] {
      var tail := StableSort(convert, keys, rows[1..]);
      assert forall a :: a in [r] + rows[1..] ==> a in [r] + rows;
      SortIsStable(convert, keys, rows[1..], r);
      SortKeeps(convert, keys, rows[1..]);
      SameRows(tail, rows[1..]);
      assert forall a :: a in [r, rows[0]] + tail ==> a in [r] + rows;
      InsertIsStable(convert, keys, rows[0], tail, r);
      assert ([rows[0]] + tail)[1..] == tail;
    }
  }

  lemma {:induction false} TiesHas(convert: Conversion, keys: seq<SortKey>, r: Row, rows: seq<Row>, k: nat)
    requires k < |rows| && Compare(convert, r, rows[k], keys) == 0
    ensures Ties(convert, keys, r, rows) != []
  {
    if k > 0 {
      TiesHas(convert, keys, r, rows[1..], k - 1);
    }
  }

  lemma {:induction false} TieExists(convert: Conversion, keys: seq<SortKey>, r: Row, rows: seq<Row>) returns (k: nat)
    requires Ties(convert, keys, r, rows) != []
    ensures k < |rows| && Compare(convert, r, rows[k], keys) == 0
  {
    if Compare(convert, r, rows[0], keys) == 0 {
      k := 0;
    } else {
      var k' := TieExists(convert, keys, r, rows[1..]);
      k := k' + 1;
    }
  }

  lemma TiesWithItself(convert: Conversion, keys: seq<SortKey>, r: Row)
    requires Comparable(r, r, keys)
    ensures Compare(convert, r, r, keys) == 0
  {
    CompareAntisymmetric(convert, r, r, keys);
  }

  /** Something in `t` ties with the front of `s`, so the front of `t` comes no later. */
  lemma FrontIsFirst(convert: Conversion, keys: seq<SortKey>, s: seq<Row>, t: seq<Row>)
    requires s != [] && Sorted(convert, keys, t) && AllComparable(keys, s + t)
    requires Ties(convert, keys, s[0], s) == Ties(convert, keys, s[0], t)
    ensures t != [] && Compare(convert, t[0], s[0], keys) <= 0
  {
    hide Compare, Comparable;
    assert s[0] in s + t && forall a :: a in t ==> a in s + t;
    TiesWithItself(convert, keys, s[0]);
    TiesHas(convert, keys, s[0], s, 0);
    var k := TieExists(convert, keys, s[0], t);
    assert t[0] in s + t && t[k] in s + t;
    CompareAntisymmetric(convert, s[0], t[k], keys);
    if k > 0 {
      assert Before(convert, keys, t[0], t[k]);
      CompareTransitive(convert, t[0], t[k], s[0], keys);
    }
  }

  lemma FirstTie(convert: Conversion, keys: seq<SortKey>, r: Row, s: seq<Row>)
    requires s != [] && Compare(convert, r, s[0], keys) == 0
    ensures Ties(convert, keys, r, s) != [] && Ties(convert, keys, r, s)[0] == s[0]
  {
  }

  lemma {:induction false} TiesOfRest(convert: Conversion, keys: seq<SortKey>, r: Row, s: seq<Row>, t: seq<Row>)
    requires s != [] && t != [] && s[0] == t[0] && Ties(convert, keys, r, s) == Ties(convert, keys, r, t)
    ensures Ties(convert, keys, r, s[1..]) == Ties(convert, keys, r, t[1..])
  {
    hide Compare;
    var n := if Compare(convert, r, s[0], keys) == 0 then 1 else 0;
    assert Ties(convert, keys, r, s)[n..] == Ties(convert, keys, r, s[1..]);
    assert Ties(convert, keys, r, t)[n..] == Ties(convert, keys, r, t[1..]);
  }

  /** Two ordered sequences that hold the same rows in each group of ties, in the same order, are the same. */
  lemma {:induction false} StableSortIsUnique(convert: Conversion, keys: seq<SortKey>, s: seq<Row>, t: seq<Row>)
    requires Sorted(convert, keys, s) && Sorted(convert, keys, t) && AllComparable(keys, s + t)
    requires forall r :: r in s + t ==> Ties(convert, keys, r, s) == Ties(convert, keys, r, t)
    ensures s == t
    decreases |s|
  {
    hide Compare, Comparable, Before, Ties;
    if s == [] && t != [] {
      assert t[0] in s + t;
      assert forall a :: a in t + s ==> a in s + t;
      FrontIsFirst(convert, keys, t, s);
    }
    if s != [] {
      assert s[0] in s + t;
      FrontIsFirst(convert, keys, s, t);
      assert t[0] in s + t;
      assert forall a :: a in t + s ==> a in s + t;
      FrontIsFirst(convert, keys, t, s);
      CompareAntisymmetric(convert, s[0], t[0], keys);
      TiesWithItself(convert, keys, s[0]);
      FirstTie(convert, keys, s[0], s);
      FirstTie(convert, keys, s[0], t);
      forall r | r in s[1..] + t[1..]
        ensures Ties(convert, keys, r, s[1..]) == Ties(convert, keys, r, t[1..])
      {
        assert r in s + t;
        TiesOfRest(convert, keys, r, s, t);
      }
      assert forall a :: a in s[1..] + t[1..] ==> a in s + t;
      StableSortIsUnique(convert, keys, s[1..], t[1..]);
      assert s == [s[0]] + s[1..] && t == [t[0]] + t[1..];
    }
  }

  // ----- execute

  function Matching(convert: Conversion, quals: seq<Qual>, rows: seq<Row>): seq<Row> {
    Filter(rows, row => Passes(convert, row, quals))
  }

  method Execute(convert: Conversion, numRows: Option<int>, mode: Mode, quals: seq<Qual>, columns: seq<JsString>,
                 sortkeys: seq<SortKey>)
    returns (rows: seq<Row>)
    ensures rows == StableSort(convert, sortkeys, Matching(convert, quals, AllGenerated(mode, columns, Count(numRows))))
  {
    rows := GenerateRows(numRows, mode, columns);
    if |quals| > 0 {
      rows := Filter(rows, row => Passes(convert, row, quals));
    } else {
      FilterAll(rows, row => Passes(convert, row, quals));
    }
    if |sortkeys| > 0 {
      rows := StableSort(convert, sortkeys, rows);
    } else {
      SortByNothing(convert, rows);
    }
  }

  lemma {:induction false} SortByNothing(convert: Conversion, rows: seq<Row>)
    ensures StableSort(convert, [], rows) == rows
  {
    if rows != [] {
      SortByNothing(convert, rows[1..]);
    }
  }

  /** In every mode the values of a column are all null or all of one kind. */
  predicate Uniform(a: Row, b: Row, keys: seq<SortKey>) {
    forall i :: 0 <= i < |keys| ==>
      var x, y := Get(a, keys[i].column), Get(b, keys[i].column);
      (x.Null? && y.Null?) || SameKind(x, y)
  }

  lemma GeneratedUniform(mode: Mode, columns: seq<JsString>, i: nat, j: nat, keys: seq<SortKey>)
    ensures Uniform(Generated(mode, columns, i), Generated(mode, columns, j), keys)
  {
    hide Numeral;
  }

  /** The collation orders the texts of two rows as their code units do. */
  predicate OrdersAlike(collate: Collation, a: Row, b: Row, keys: seq<SortKey>) {
    forall i :: 0 <= i < |keys| ==> CollatesAlike(collate, Get(a, keys[i].column), Get(b, keys[i].column))
  }

  lemma {:induction false} UniformComparesAsSql(convert: Conversion, collate: Collation, a: Row, b: Row,
                                                keys: seq<SortKey>)
    requires Uniform(a, b, keys) && OrdersAlike(collate, a, b, keys)
    ensures Compare(convert, a, b, keys) == SqlCompare(convert, collate, a, b, keys)
    decreases |keys|
  {
    hide KeyCompare, SqlKeyCompare, CollatesAlike;
    if keys != [] {
      assert Uniform(a, b, keys[1..]) && OrdersAlike(collate, a, b, keys[1..]);
      NullsPlacement(convert, collate, Get(a, keys[0].column), Get(b, keys[0].column), keys[0]);
      UniformComparesAsSql(convert, collate, a, b, keys[1..]);
    }
  }

  lemma UniformIsComparable(a: Row, b: Row, keys: seq<SortKey>)
    requires Uniform(a, b, keys)
    ensures Comparable(a, b, keys)
  {
  }

  /**
   The rows of execute() are the generated rows that match, each as often as it
   was generated, and ties keep the order in which they were generated. They are
   in the order SQL asks for under every collation that orders their texts by code
   units. Where the comparator misplaces nulls does not matter
   here, because no generated column mixes nulls with other values.
   */
  lemma {:induction false} ExecuteIsCorrect(convert: Conversion, collate: Collation, n: nat, mode: Mode,
                                            quals: seq<Qual>, columns: seq<JsString>,
                         keys: seq<SortKey>)
    ensures var all := AllGenerated(mode, columns, n);
            var matching := Matching(convert, quals, all);
            var out := StableSort(convert, keys, matching);
            && (forall row :: row in out <==>
                 (exists i :: 0 <= i < n && row == all[i]) && Passes(convert, row, quals))
            && multiset(out) == multiset(matching)
            && ((forall a, b :: a in matching && b in matching ==> OrdersAlike(collate, a, b, keys)) ==>
                  forall i, j :: 0 <= i < j < |out| ==> SqlCompare(convert, collate, out[i], out[j], keys) <= 0)
            && (forall row :: row in out ==> Ties(convert, keys, row, out) == Ties(convert, keys, row, matching))
  {
    hide Generated, Compare, SqlCompare, Comparable, Uniform, OrdersAlike, StableSort, Passes, Filter, Ties;
    var all := AllGenerated(mode, columns, n);
    var matching := Matching(convert, quals, all);
    var out := StableSort(convert, keys, matching);
    FilterMembers(all, row => Passes(convert, row, quals));
    SortKeeps(convert, keys, matching);
    SameRows(out, matching);
    forall a, b | a in all && b in all
      ensures Comparable(a, b, keys)
      ensures OrdersAlike(collate, a, b, keys) ==>
        Compare(convert, a, b, keys) == SqlCompare(convert, collate, a, b, keys)
    {
      var i :| 0 <= i < n && all[i] == a;
      var j :| 0 <= j < n && all[j] == b;
      GeneratedUniform(mode, columns, i, j, keys);
      UniformIsComparable(a, b, keys);
      if OrdersAlike(collate, a, b, keys) {
        UniformComparesAsSql(convert, collate, a, b, keys);
      }
    }
    SortSorts(convert, keys, matching);
    forall i, j | 0 <= i < j < |out|
      ensures OrdersAlike(collate, out[i], out[j], keys) ==> SqlCompare(convert, collate, out[i], out[j], keys) <= 0
    {
      assert out[i] in all && out[j] in all;
      assert Before(convert, keys, out[i], out[j]);
    }
    forall row | row in out
      ensures Ties(convert, keys, row, out) == Ties(convert, keys, row, matching)
    {
      assert forall a :: a in [row] + matching ==> a in all;
      SortIsStable(convert, keys, matching, row);
    }
  }

  // ----- the filter and SQL

  /** What an operator says of two values in that order. */
  function Verdict(op: Operator, same: bool, order: Order): bool {
    match op
    case Eq => same
    case Ne => !same
    case Lt => order.Less?
    case Le => order.Less? || order.Equal?
    case Gt => order.Greater?
    case Ge => order.Greater? || order.Equal?
    case Unrecognized => true
  }

  lemma EvalIsVerdict(convert: Conversion, row: Row, q: Qual)
    ensures var v, t := ToComparable(Get(row, q.column)), ToComparable(q.value);
            EvalQual(convert, row, q) == Verdict(q.operator, v == t, ValueOrder(convert, v, t))
  {
  }

  /** On numbers, dates included, the operators are those of arithmetic; on texts they go by code units. */
  lemma {:induction false} OperatorsMean(convert: Conversion, row: Row, q: Qual)
    ensures var v, t := ToComparable(Get(row, q.column)), ToComparable(q.value);
            && (v.Number? && t.Number? ==>
                  EvalQual(convert, row, q)
                  == match q.operator
                     case Eq => v.n == t.n
                     case Ne => v.n != t.n
                     case Lt => v.n < t.n
                     case Le => v.n <= t.n
                     case Gt => v.n > t.n
                     case Ge => v.n >= t.n
                     case Unrecognized => true)
            && (v.Text? && t.Text? ==>
                  EvalQual(convert, row, q)
                  == match q.operator
                     case Eq => v.s == t.s
                     case Ne => v.s != t.s
                     case Lt => IsBefore(v.s, t.s)
                     case Le => IsBefore(v.s, t.s) || v.s == t.s
                     case Gt => IsBefore(t.s, v.s)
                     case Ge => IsBefore(t.s, v.s) || v.s == t.s
                     case Unrecognized => true)
    ensures Get(row, q.column).Date? ==> ToComparable(Get(row, q.column)) == Number(Get(row, q.column).ms)
  {
    hide TextOrder, IsBefore;
    var v, t := ToComparable(Get(row, q.column)), ToComparable(q.value);
    if v.Text? && t.Text? {
      TextOrderExactly(v.s, t.s);
    }
  }

  /** What a qual asks in SQL: texts compare by the collation, and a null on either side makes nothing true. */
  predicate SqlHolds(convert: Conversion, collate: Collation, row: Row, q: Qual) {
    var v, t := ToComparable(Get(row, q.column)), ToComparable(q.value);
    !v.Null? && !t.Null? && Verdict(q.operator, v == t, SqlOrder(convert, collate, v, t))
  }

  /** What JavaScript makes of `null op t`. */
  predicate NullPasses(convert: Conversion, op: Operator, t: Value) {
    Verdict(op, t.Null?, ValueOrder(convert, Null, t))
  }

  /** JavaScript takes null for 0 when it compares it with a number. */
  ghost predicate NullIsZero(convert: Conversion) {
    forall n :: convert(Null, Number(n)) == IntOrder(0, n)
  }

  lemma NullAgainstNumber(convert: Conversion, op: Operator, n: int)
    requires NullIsZero(convert)
    ensures NullPasses(convert, op, Number(n)) <==>
      op == Ne || op == Unrecognized || (op == Lt && 0 < n) || (op == Le && 0 <= n) || (op == Gt && 0 > n)
        || (op == Ge && 0 >= n)
  {
  }

  /** A qual as fdw.c sends it, over a column of this table. */
  predicate ValidQual(mode: Mode, columns: seq<JsString>, q: Qual) {
    && q.column in columns && q.operator != Unrecognized && !q.value.Null?
    && (mode.NullMode? || SameKind(ToComparable(GenerateValue(mode, q.column, 0)), ToComparable(q.value)))
  }

  predicate ValidQuals(mode: Mode, columns: seq<JsString>, quals: seq<Qual>) {
    forall i :: 0 <= i < |quals| ==> ValidQual(mode, columns, quals[i])
  }

  predicate SqlPasses(convert: Conversion, collate: Collation, row: Row, quals: seq<Qual>) {
    forall i :: 0 <= i < |quals| ==> SqlHolds(convert, collate, row, quals[i])
  }

  predicate IsTextMode(mode: Mode) {
    mode.StringMode? || mode.EncodingMode?
  }

  function TextAt(mode: Mode, column: JsString, i: nat): JsString
    requires IsTextMode(mode)
  {
    GenerateValue(mode, column, i).s
  }

  /** The verdicts of all quals on the texts of row `i`, under a collation. */
  predicate TextsPass(collate: Collation, mode: Mode, quals: seq<Qual>, i: nat)
    requires IsTextMode(mode) && forall k :: 0 <= k < |quals| ==> quals[k].value.Text?
  {
    forall k :: 0 <= k < |quals| ==>
      var s, t := TextAt(mode, quals[k].column, i), quals[k].value.s;
      Verdict(quals[k].operator, s == t, collate(s, t))
  }

  predicate AllPassNull(convert: Conversion, quals: seq<Qual>) {
    forall i :: 0 <= i < |quals| ==> NullPasses(convert, quals[i].operator, ToComparable(quals[i].value))
  }

  lemma TextQuals(mode: Mode, columns: seq<JsString>, quals: seq<Qual>)
    requires ValidQuals(mode, columns, quals) && IsTextMode(mode)
    ensures forall k :: 0 <= k < |quals| ==> quals[k].value.Text?
  {
    hide Numeral;
  }

  /**
   Row `i` is let through by the code as by SQL: in the text modes if the quals
   say the same of its texts under the collation as by code units, in null mode if
   there is no qual or one that keeps null out, in the other modes always.
   */
  predicate RowRight(convert: Conversion, collate: Collation, mode: Mode, columns: seq<JsString>, quals: seq<Qual>,
                     i: nat)
    requires ValidQuals(mode, columns, quals)
  {
    if IsTextMode(mode) then
      TextQuals(mode, columns, quals);
      TextsPass(collate, mode, quals, i) <==> TextsPass(TextOrder, mode, quals, i)
    else mode.NullMode? ==> quals == [] || !AllPassNull(convert, quals)
  }

  lemma QualOnRow(convert: Conversion, collate: Collation, mode: Mode, columns: seq<JsString>, i: nat, q: Qual)
    requires ValidQual(mode, columns, q)
    ensures var row := Generated(mode, columns, i);
            && (IsTextMode(mode) ==>
                  && q.value.Text?
                  && var s, t := TextAt(mode, q.column, i), q.value.s;
                     && EvalQual(convert, row, q) == Verdict(q.operator, s == t, TextOrder(s, t))
                     && SqlHolds(convert, collate, row, q) == Verdict(q.operator, s == t, collate(s, t)))
            && (mode.NullMode? ==>
                  && EvalQual(convert, row, q) == NullPasses(convert, q.operator, ToComparable(q.value))
                  && !SqlHolds(convert, collate, row, q))
            && (!IsTextMode(mode) && !mode.NullMode? ==>
                  EvalQual(convert, row, q) == SqlHolds(convert, collate, row, q))
  {
    hide Numeral, EvalQual;
    EvalIsVerdict(convert, Generated(mode, columns, i), q);
  }

  lemma RowPasses(convert: Conversion, collate: Collation, mode: Mode, columns: seq<JsString>, i: nat, quals: seq<Qual>)
    requires ValidQuals(mode, columns, quals)
    ensures var row := Generated(mode, columns, i);
            (Passes(convert, row, quals) <==> SqlPasses(convert, collate, row, quals))
            <==> RowRight(convert, collate, mode, columns, quals, i)
  {
    hide EvalQual, SqlHolds, NullPasses, Generated, Verdict, GenerateValue, ValidQual, ToComparable;
    if IsTextMode(mode) {
      TextQuals(mode, columns, quals);
    }
    var row := Generated(mode, columns, i);
    forall k | 0 <= k < |quals|
      ensures IsTextMode(mode) ==>
        var s, t := TextAt(mode, quals[k].column, i), quals[k].value.s;
        && EvalQual(convert, row, quals[k]) == Verdict(quals[k].operator, s == t, TextOrder(s, t))
        && SqlHolds(convert, collate, row, quals[k]) == Verdict(quals[k].operator, s == t, collate(s, t))
      ensures mode.NullMode? ==>
        && EvalQual(convert, row, quals[k]) == NullPasses(convert, quals[k].operator, ToComparable(quals[k].value))
        && !SqlHolds(convert, collate, row, quals[k])
      ensures !IsTextMode(mode) && !mode.NullMode? ==>
        EvalQual(convert, row, quals[k]) == SqlHolds(convert, collate, row, quals[k])
    {
      assert ValidQual(mode, columns, quals[k]);
      QualOnRow(convert, collate, mode, columns, i, quals[k]);
    }
    if IsTextMode(mode) {
      assert Passes(convert, row, quals) <==> TextsPass(TextOrder, mode, quals, i);
      assert SqlPasses(convert, collate, row, quals) <==> TextsPass(collate, mode, quals, i);
    } else if mode.NullMode? {
      assert Passes(convert, row, quals) <==> AllPassNull(convert, quals);
      if quals != [] {
        assert !SqlHolds(convert, collate, row, quals[0]);
      }
    }
  }

  /** Two predicates keep the same of a sequence exactly when they agree on all of it. */
  lemma FilterAgrees(rows: seq<Row>, js: Row -> bool, sql: Row -> bool)
    ensures Filter(rows, js) == Filter(rows, sql) <==> forall row :: row in rows ==> js(row) == sql(row)
  {
    hide Filter;
    FilterMembers(rows, js);
    FilterMembers(rows, sql);
    if Filter(rows, js) == Filter(rows, sql) {
      forall row | row in rows
        ensures js(row) == sql(row)
      {
        assert row in Filter(rows, js) <==> row in Filter(rows, sql);
      }
    } else if forall row :: row in rows ==> js(row) == sql(row) {
      FilterSame(rows, js, sql);
    }
  }

  /** The rows execute() lets through are those SQL would under the collation, exactly when every row is right. */
  lemma {:induction false} FilterIsSql(convert: Conversion, collate: Collation, n: nat, mode: Mode, quals: seq<Qual>,
                                       columns: seq<JsString>)
    requires ValidQuals(mode, columns, quals)
    ensures var all := AllGenerated(mode, columns, n);
            Matching(convert, quals, all) == Filter(all, row => SqlPasses(convert, collate, row, quals))
            <==> forall i :: 0 <= i < n ==> RowRight(convert, collate, mode, columns, quals, i)
  {
    hide Passes, SqlPasses, Generated, Filter, RowRight;
    var all := AllGenerated(mode, columns, n);
    var js, sql := (row: Row) => Passes(convert, row, quals), (row: Row) => SqlPasses(convert, collate, row, quals);
    FilterAgrees(all, js, sql);
    forall i | 0 <= i < n
      ensures js(all[i]) == sql(all[i]) <==> RowRight(convert, collate, mode, columns, quals, i)
    {
      RowPasses(convert, collate, mode, columns, i, quals);
    }
    if forall i :: 0 <= i < n ==> RowRight(convert, collate, mode, columns, quals, i) {
      forall row | row in all
        ensures js(row) == sql(row)
      {
        var i :| 0 <= i < n && all[i] == row;
      }
    } else {
      var i :| 0 <= i < n && !RowRight(convert, collate, mode, columns, quals, i);
      assert all[i] in all;
    }
  }

  /** In null mode `column <> 5` lets every row through, where SQL lets none. */
  lemma {:induction false} NullModeLetsNullThrough(convert: Conversion, collate: Collation, column: JsString)
    ensures var all := AllGenerated(NullMode, [column], 1);
            var quals := [Qual(column, Ne, Number(5))];
            Matching(convert, quals, all) != Filter(all, row => SqlPasses(convert, collate, row, quals))
  {
    hide Matching, Filter, SqlPasses, AllGenerated;
    var quals := [Qual(column, Ne, Number(5))];
    FilterIsSql(convert, collate, 1, NullMode, quals, [column]);
    assert AllPassNull(convert, quals);
    assert !RowRight(convert, collate, NullMode, [column], quals, 0);
  }

  // ----- a collation

  /** The "C" collation compares the bytes of UTF-8. */
  function ByteOrder(s: JsString, t: JsString): Order {
    TextOrder(Utf8.Encode(s), Utf8.Encode(t))
  }

  const TILDE: JsString := [0xff5e] // a full-width tilde
  const SMILEY: JsString := [0xd83d, 0xde00] // U+1F600

  lemma ByteOrderDiffers(rest: JsString)
    ensures TextOrder(TILDE + rest, SMILEY) == Greater && ByteOrder(TILDE + rest, SMILEY) == Less
  {
    var s := TILDE + rest;
    assert s[1..] == rest;
    assert Utf8.Encode(s)[0] == 0xef;
    assert Utf8.Encode(SMILEY)[0] == 0xf0;
  }

  /** A column named by the tilde is less than the smiley by bytes and not by code units: the row is lost. */
  lemma {:induction false} CollationLosesRow(convert: Conversion)
    ensures var all := AllGenerated(StringMode, [TILDE], 1);
            var quals := [Qual(TILDE, Lt, Text(SMILEY))];
            Matching(convert, quals, all) != Filter(all, row => SqlPasses(convert, ByteOrder, row, quals))
  {
    hide Matching, Filter, SqlPasses, AllGenerated, Numeral, ByteOrder, TextOrder;
    var quals := [Qual(TILDE, Lt, Text(SMILEY))];
    assert ValidQuals(StringMode, [TILDE], quals);
    FilterIsSql(convert, ByteOrder, 1, StringMode, quals, [TILDE]);
    var rest := Ascii(" ") + Numeral(0, Decimal);
    assert TextAt(StringMode, TILDE, 0) == TILDE + rest;
    ByteOrderDiffers(rest);
    assert TextsPass(ByteOrder, StringMode, quals, 0);
    assert !TextsPass(TextOrder, StringMode, quals, 0) by {
      assert !Verdict(quals[0].operator, false, TextOrder(TextAt(StringMode, quals[0].column, 0), SMILEY));
    }
    assert !RowRight(convert, ByteOrder, StringMode, [TILDE], quals, 0);
  }
}
