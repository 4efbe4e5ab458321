/**
 The synthetic table of examples/self_test_fdw.js: its rows, its filter and its
 sort order, compared with the order that SQL's ORDER BY asks for.
 */
module SelfTest {
  import opened JsStrings

  /** A value of a row or a qual; a Date is its epoch milliseconds. */
  datatype Value = Null | Undefined | Number(n: int) | Text(s: JsString) | Date(ms: int)

  type Row = map<JsString, Value>

  function Get(row: Row, column: JsString): Value {
    if column in row then row[column] else Undefined
  }

  // ----- JavaScript's comparisons

  datatype Order = Less | Equal | Greater | Unordered

  function IntOrder(a: int, b: int): Order {
    if a < b then Less else if a == b then Equal else Greater
  }

  /** Strings compare by their code units. */
  function TextOrder(s: JsString, t: JsString): Order {
    if t == [] then (if s == [] then Equal else Greater)
    else if s == [] then Less
    else if s[0] == t[0] then TextOrder(s[1..], t[1..])
    else IntOrder(s[0], t[0])
  }

  /** How values of different kinds compare after JavaScript's conversions, of which nothing is assumed. */
  type Conversion = (Value, Value) -> Order

  predicate SameKind(a: Value, b: Value) {
    || (a.Number? && b.Number?) || (a.Text? && b.Text?) || (a.Date? && b.Date?)
    || (a.Undefined? && b.Undefined?)
  }

  function ValueOrder(convert: Conversion, a: Value, b: Value): Order {
    match (a, b)
    case (Number(x), Number(y)) => IntOrder(x, y)
    case (Text(x), Text(y)) => TextOrder(x, y)
    case (Date(x), Date(y)) => IntOrder(x, y)
    case (Undefined, _) => Unordered
    case (_, Undefined) => Unordered
    case _ => convert(a, b)
  }

  lemma {:induction false} TextOrderFlips(s: JsString, t: JsString)
    ensures TextOrder(s, t) == Flip(TextOrder(t, s)) && !TextOrder(s, t).Unordered?
    ensures TextOrder(s, t) == Equal <==> s == t
    decreases |s|
  {
    if s != [] && t != [] && s[0] == t[0] {
      TextOrderFlips(s[1..], t[1..]);
      assert s == [s[0]] + s[1..] && t == [t[0]] + t[1..];
    }
  }

  lemma {:induction false} TextOrderTransitive(s: JsString, t: JsString, u: JsString)
    requires !TextOrder(s, t).Greater? && !TextOrder(t, u).Greater?
    ensures TextOrder(s, u) == if TextOrder(s, t).Equal? then TextOrder(t, u) else Less
    decreases |s|
  {
    TextOrderFlips(s, t);
    if s != [] && t != [] && u != [] && s[0] == t[0] && t[0] == u[0] {
      TextOrderTransitive(s[1..], t[1..], u[1..]);
    }
  }

  /** `s` is before `t` at the first code unit in which they differ, or where `s` ends. */
  predicate IsBefore(s: JsString, t: JsString) {
    exists k :: 0 <= k <= |s| && k < |t| && s[..k] == t[..k] && (k == |s| || s[k] < t[k])
  }

  lemma {:induction false} TextOrderExactly(s: JsString, t: JsString)
    ensures TextOrder(s, t) == Less <==> IsBefore(s, t)
    ensures TextOrder(s, t) == Greater <==> IsBefore(t, s)
    ensures TextOrder(s, t) == Equal <==> s == t
    decreases |s|
  {
    TextOrderFlips(s, t);
    if s != [] && t != [] && s[0] == t[0] {
      TextOrderExactly(s[1..], t[1..]);
      BeforeInRest(s, t);
      BeforeInRest(t, s);
    } else {
      BeforeAtFront(s, t);
      BeforeAtFront(t, s);
    }
  }

  lemma BeforeAtFront(s: JsString, t: JsString)
    requires s == [] || t == [] || s[0] != t[0]
    ensures IsBefore(s, t) <==> t != [] && (s == [] || s[0] < t[0])
  {
    assert s[..0] == t[..0];
    forall k | 0 < k <= |s| && k < |t|
      ensures s[..k] != t[..k]
    {
      assert s[..k][0] == s[0] && t[..k][0] == t[0];
    }
  }

  lemma BeforeInRest(s: JsString, t: JsString)
    requires s != [] && t != [] && s[0] == t[0]
    ensures IsBefore(s[1..], t[1..]) <==> IsBefore(s, t)
  {
    var a, b := s[1..], t[1..];
    if IsBefore(a, b) {
      var k :| 0 <= k <= |a| && k < |b| && a[..k] == b[..k] && (k == |a| || a[k] < b[k]);
      assert s[..k + 1] == [s[0]] + a[..k] && t[..k + 1] == [t[0]] + b[..k];
    }
    if IsBefore(s, t) {
      var k :| 0 <= k <= |s| && k < |t| && s[..k] == t[..k] && (k == |s| || s[k] < t[k]);
      assert a[..k - 1] == s[..k][1..] && b[..k - 1] == t[..k][1..];
    }
  }

  function Flip(o: Order): Order {
    match o
    case Less => Greater
    case Greater => Less
    case _ => o
  }

  // ----- sort keys

  datatype SortKey = SortKey(column: JsString, desc: bool, nullsFirst: bool)

  function Sign(o: Order): int {
    match o
    case Less => -1
    case Greater => 1
    case _ => 0
  }

  /** One round of `compareForSort`: the negation comes after nulls have been placed. */
  function KeyCompare(convert: Conversion, x: Value, y: Value, key: SortKey): int {
    var cmp :=
      if x.Null? && y.Null? then 0
      else if x.Null? then (if key.nullsFirst then -1 else 1)
      else if y.Null? then (if key.nullsFirst then 1 else -1)
      else Sign(ValueOrder(convert, x, y));
    if key.desc then -cmp else cmp
  }

  function Compare(convert: Conversion, a: Row, b: Row, keys: seq<SortKey>): int {
    if keys == [] then 0
    else
      var cmp := KeyCompare(convert, Get(a, keys[0].column), Get(b, keys[0].column), keys[0]);
      if cmp != 0 then cmp else Compare(convert, a, b, keys[1..])
  }

  method CompareForSort(convert: Conversion, a: Row, b: Row, sortkeys: seq<SortKey>) returns (r: int)
    ensures r == Compare(convert, a, b, sortkeys)
  {
    assert sortkeys[0..] == sortkeys;
    for k := 0 to |sortkeys|
      invariant Compare(convert, a, b, sortkeys) == Compare(convert, a, b, sortkeys[k..])
    {
      assert sortkeys[k..][1..] == sortkeys[k + 1..];
      var sk := sortkeys[k];
      var av, bv := Get(a, sk.column), Get(b, sk.column);
      var cmp;
      if av.Null? && bv.Null? {
        cmp := 0;
      } else if av.Null? {
        cmp := if sk.nullsFirst then -1 else 1;
      } else if bv.Null? {
        cmp := if sk.nullsFirst then 1 else -1;
      } else {
        var order := ValueOrder(convert, av, bv);
        cmp := if order.Less? then -1 else if order.Greater? then 1 else 0;
      }
      if sk.desc {
        cmp := -cmp;
      }
      if cmp != 0 {
        return cmp;
      }
    }
    r := 0;
  }

  /** How SQL compares texts: by a collation, of which nothing is assumed. */
  type Collation = (JsString, JsString) -> Order

  function SqlOrder(convert: Conversion, collate: Collation, x: Value, y: Value): Order {
    if x.Text? && y.Text? then collate(x.s, y.s) else ValueOrder(convert, x, y)
  }

  /** What ORDER BY means: NULLS FIRST or LAST whatever the direction. */
  function SqlKeyCompare(convert: Conversion, collate: Collation, x: Value, y: Value, key: SortKey): int {
    if x.Null? || y.Null? then
      if x.Null? && y.Null? then 0 else if x.Null? == key.nullsFirst then -1 else 1
    else if key.desc then -Sign(SqlOrder(convert, collate, x, y))
    else Sign(SqlOrder(convert, collate, x, y))
  }

  function SqlCompare(convert: Conversion, collate: Collation, a: Row, b: Row, keys: seq<SortKey>): int {
    if keys == [] then 0
    else
      var cmp := SqlKeyCompare(convert, collate, Get(a, keys[0].column), Get(b, keys[0].column), keys[0]);
      if cmp != 0 then cmp else SqlCompare(convert, collate, a, b, keys[1..])
  }

  /** Ascending keys put the smaller number first, descending ones the greater; nulls go where they are asked to. */
  lemma OrderByMeans(convert: Conversion, collate: Collation, m: int, n: int, y: Value, key: SortKey)
    ensures var c := SqlKeyCompare(convert, collate, Number(m), Number(n), key);
            (c < 0 <==> if key.desc then m > n else m < n) && (c == 0 <==> m == n)
    ensures var c := SqlKeyCompare(convert, collate, Null, y, key);
            !y.Null? ==> (c < 0 <==> key.nullsFirst) && c != 0
    ensures y.Null? ==> SqlKeyCompare(convert, collate, Null, y, key) == 0
  {
  }

  /** The collation puts two texts, if that is what they are, in the order of their code units. */
  predicate CollatesAlike(collate: Collation, x: Value, y: Value) {
    x.Text? && y.Text? ==> Sign(collate(x.s, y.s)) == Sign(TextOrder(x.s, y.s))
  }

  /**
   The two agree exactly when the collation does, and it is not so that one value
   is null, the other is not, and the direction is descending.
   */
  lemma NullsPlacement(convert: Conversion, collate: Collation, x: Value, y: Value, key: SortKey)
    ensures KeyCompare(convert, x, y, key) == SqlKeyCompare(convert, collate, x, y, key)
       <==> !(key.desc && x.Null? != y.Null?) && CollatesAlike(collate, x, y)
  {
  }

  /**
   Every sort key list sorts every two rows as SQL would by code units, nullsFirst turned round for
   descending keys.
   */
  function TurnedRound(keys: seq<SortKey>): seq<SortKey> {
    seq(|keys|, i requires 0 <= i < |keys| => keys[i].(nullsFirst := keys[i].nullsFirst != keys[i].desc))
  }

  lemma {:induction false} ComparesAsTurnedRound(convert: Conversion, a: Row, b: Row, keys: seq<SortKey>)
    ensures Compare(convert, a, b, keys) == SqlCompare(convert, TextOrder, a, b, TurnedRound(keys))
    decreases |keys|
  {
    if keys != [] {
      ComparesAsTurnedRound(convert, a, b, keys[1..]);
      assert TurnedRound(keys)[1..] == TurnedRound(keys[1..]);
    }
  }

  // ----- a total preorder

  predicate ComparableValues(x: Value, y: Value) {
    x.Null? || y.Null? || SameKind(x, y)
  }

  /** The values under each key are null or of one kind. */
  predicate Comparable(a: Row, b: Row, keys: seq<SortKey>) {
    forall i :: 0 <= i < |keys| ==> ComparableValues(Get(a, keys[i].column), Get(b, keys[i].column))
  }

  lemma ValueOrderIsOrder(convert: Conversion, x: Value, y: Value, z: Value)
    requires SameKind(x, y) && SameKind(y, z)
    ensures Sign(ValueOrder(convert, x, y)) == -Sign(ValueOrder(convert, y, x))
    ensures Sign(ValueOrder(convert, x, y)) <= 0 && Sign(ValueOrder(convert, y, z)) <= 0 ==>
      Sign(ValueOrder(convert, x, z)) == Least(Sign(ValueOrder(convert, x, y)), Sign(ValueOrder(convert, y, z)))
  {
    hide TextOrder;
    if x.Text? {
      TextOrderFlips(x.s, y.s);
      TextOrderFlips(y.s, z.s);
      if !TextOrder(x.s, y.s).Greater? && !TextOrder(y.s, z.s).Greater? {
        TextOrderTransitive(x.s, y.s, z.s);
      }
    }
  }

  function Least(a: int, b: int): int {
    if a < b then a else b
  }

  lemma KeyCompareIsOrder(convert: Conversion, x: Value, y: Value, z: Value, key: SortKey)
    requires ComparableValues(x, y) && ComparableValues(y, z) && ComparableValues(x, z)
    ensures KeyCompare(convert, x, y, key) == -KeyCompare(convert, y, x, key)
    ensures KeyCompare(convert, x, y, key) <= 0 && KeyCompare(convert, y, z, key) <= 0 ==>
      KeyCompare(convert, x, z, key) == Least(KeyCompare(convert, x, y, key), KeyCompare(convert, y, z, key))
  {
    hide ValueOrder;
    if SameKind(x, y) {
      ValueOrderIsOrder(convert, x, y, y);
      ValueOrderIsOrder(convert, y, x, x);
    }
    if SameKind(x, y) && SameKind(y, z) {
      ValueOrderIsOrder(convert, x, y, z);
      ValueOrderIsOrder(convert, z, y, x);
      ValueOrderIsOrder(convert, y, z, z);
      ValueOrderIsOrder(convert, x, z, z);
    }
  }

  lemma {:induction false} CompareAntisymmetric(convert: Conversion, a: Row, b: Row, keys: seq<SortKey>)
    requires Comparable(a, b, keys)
    ensures Compare(convert, a, b, keys) == -Compare(convert, b, a, keys)
    decreases |keys|
  {
    hide KeyCompare;
    if keys != [] {
      var x, y := Get(a, keys[0].column), Get(b, keys[0].column);
      ReflexiveKind(x, y);
      KeyCompareIsOrder(convert, x, y, y, keys[0]);
      assert Comparable(a, b, keys[1..]);
      CompareAntisymmetric(convert, a, b, keys[1..]);
    }
  }

  lemma ReflexiveKind(x: Value, y: Value)
    ensures ComparableValues(x, y) ==> ComparableValues(y, x)
    ensures ComparableValues(y, y)
  {
  }

  lemma {:induction false} CompareTransitive(convert: Conversion, a: Row, b: Row, c: Row, keys: seq<SortKey>)
    requires Comparable(a, b, keys) && Comparable(b, c, keys) && Comparable(a, c, keys)
    requires Compare(convert, a, b, keys) <= 0 && Compare(convert, b, c, keys) <= 0
    ensures Compare(convert, a, c, keys) <= 0
    decreases |keys|
  {
    hide KeyCompare;
    if keys != [] {
      var x, y, z := Get(a, keys[0].column), Get(b, keys[0].column), Get(c, keys[0].column);
      KeyCompareIsOrder(convert, x, y, z, keys[0]);
      assert Comparable(a, b, keys[1..]) && Comparable(b, c, keys[1..]) && Comparable(a, c, keys[1..]);
      if KeyCompare(convert, x, y, keys[0]) == 0 && KeyCompare(convert, y, z, keys[0]) == 0 {
        CompareTransitive(convert, a, b, c, keys[1..]);
      }
    }
  }
}
