/**
 Sort pushdown (fdw.c): which leading pathkeys of a query a scan claims, how the
 claim travels in the plan, and that rows in the claimed order are in the
 query's order.
 */
module FdwSort {
  import opened Options
  import opened FdwQuals

  datatype EcMember = EcMember(expr: Expr, isChild: bool, relids: set<nat>)

  datatype EquivalenceClass = EquivalenceClass(hasVolatile: bool, members: seq<EcMember>)

  datatype CompareType = CompareLt | CompareGt | CompareOther

  datatype PathKey = PathKey(ec: EquivalenceClass, opfamily: Oid, cmptype: CompareType, nullsFirst: bool)

  datatype SortKey = SortKey(attno: AttrNumber, descending: bool, nullsFirst: bool)

  /** The column types of the relation and the btree family of each type's default operator class. */
  datatype Types = Types(columnType: map<AttrNumber, Oid>, defaultFamily: map<Oid, Oid>)

  predicate Eligible(em: EcMember, relids: set<nat>) {
    !em.isChild && em.relids == relids
  }

  /** The column of the first member computed from this relation alone, if that member is a plain column. */
  function FirstVar(members: seq<EcMember>, relids: set<nat>): Option<AttrNumber> {
    if members == [] then None
    else if !Eligible(members[0], relids) then FirstVar(members[1..], relids)
    else if members[0].expr.Var? then Some(members[0].expr.attno)
    else None
  }

  method FindVar(members: seq<EcMember>, relids: set<nat>) returns (v: Option<AttrNumber>)
    ensures v == FirstVar(members, relids)
  {
    v := None;
    var i := 0;
    while i < |members|
      invariant 0 <= i <= |members|
      invariant FirstVar(members, relids) == FirstVar(members[i..], relids)
      invariant v == None
    {
      assert members[i..][1..] == members[i + 1..];
      var em := members[i];
      if em.isChild || em.relids != relids {
        i := i + 1;
        continue;
      }
      if em.expr.Var? {
        v := Some(em.expr.attno);
      }
      return;
    }
  }

  function DefaultFamily(types: Types, attno: AttrNumber): Option<Oid> {
    if attno in types.columnType && types.columnType[attno] in types.defaultFamily then
      Some(types.defaultFamily[types.columnType[attno]])
    else None
  }

  /** The column sort that does the work of one pathkey, if the scan can claim it. */
  function KeyOf(types: Types, relids: set<nat>, pk: PathKey): Option<SortKey> {
    var v := FirstVar(pk.ec.members, relids);
    if pk.ec.hasVolatile || v.None? || v.value < 1 then None
    else if DefaultFamily(types, v.value) != Some(pk.opfamily) || pk.cmptype.CompareOther? then None
    else Some(SortKey(v.value, pk.cmptype.CompareGt?, pk.nullsFirst))
  }

  method MatchPathkeys(types: Types, relids: set<nat>, queryPathkeys: seq<PathKey>) returns (result: seq<SortKey>)
    ensures |result| <= |queryPathkeys|
    ensures forall i :: 0 <= i < |result| ==> KeyOf(types, relids, queryPathkeys[i]) == Some(result[i])
    ensures |result| < |queryPathkeys| ==> KeyOf(types, relids, queryPathkeys[|result|]).None?
    ensures |result| == Claimed(types, relids, queryPathkeys)
  {
    result := [];
    for i := 0 to |queryPathkeys|
      invariant |result| == i
      invariant forall k :: 0 <= k < i ==> KeyOf(types, relids, queryPathkeys[k]) == Some(result[k])
    {
      var pathkey := queryPathkeys[i];
      if pathkey.ec.hasVolatile {
        break;
      }
      var v := FindVar(pathkey.ec.members, relids);
      if v.None? || v.value < 1 {
        break;
      }
      if DefaultFamily(types, v.value) != Some(pathkey.opfamily) {
        break;
      }
      var descending: bool;
      if pathkey.cmptype.CompareLt? {
        descending := false;
      } else if pathkey.cmptype.CompareGt? {
        descending := true;
      } else {
        break;
      }
      result := result + [SortKey(v.value, descending, pathkey.nullsFirst)];
    }
    MatchedIsClaimed(types, relids, queryPathkeys, |result|);
  }

  // ----- the plan's encoding of sort keys

  function Flag(b: bool): int {
    if b then 1 else 0
  }

  function Triples(keys: seq<SortKey>): seq<int> {
    if keys == [] then []
    else
      var k := keys[|keys| - 1];
      Triples(keys[..|keys| - 1]) + [k.attno, Flag(k.descending), Flag(k.nullsFirst)]
  }

  method SortkeysToPlanPrivate(keys: seq<SortKey>) returns (result: seq<int>)
    ensures result == Triples(keys)
  {
    result := [];
    for i := 0 to |keys|
      invariant result == Triples(keys[..i])
    {
      assert keys[..i + 1][..i] == keys[..i];
      var before := result;
      result := result + [keys[i].attno];
      result := result + [Flag(keys[i].descending)];
      result := result + [Flag(keys[i].nullsFirst)];
      assert result == before + [keys[i].attno, Flag(keys[i].descending), Flag(keys[i].nullsFirst)];
    }
    assert keys[..|keys|] == keys;
  }

  /** The sort keys passed to execute(), read back from the flat list. */
  method SortkeysFromPlanPrivate(flat: seq<int>) returns (keys: seq<SortKey>)
    ensures |keys| == |flat| / 3
    ensures forall k :: 0 <= k < |keys| ==>
      keys[k] == SortKey(ToAttrNumber(flat[3 * k]), flat[3 * k + 1] != 0, flat[3 * k + 2] != 0)
  {
    keys := [];
    var i := 0;
    while i + 2 < |flat|
      invariant i == 3 * |keys| && i <= |flat|
      invariant forall k :: 0 <= k < |keys| ==>
        keys[k] == SortKey(ToAttrNumber(flat[3 * k]), flat[3 * k + 1] != 0, flat[3 * k + 2] != 0)
    {
      keys := keys + [SortKey(ToAttrNumber(flat[i]), flat[i + 1] != 0, flat[i + 2] != 0)];
      i := i + 3;
    }
  }

  lemma {:induction false} TriplesAt(keys: seq<SortKey>, k: nat)
    requires k < |keys|
    ensures |Triples(keys)| == 3 * |keys|
    ensures SortKey(ToAttrNumber(Triples(keys)[3 * k]), Triples(keys)[3 * k + 1] != 0, Triples(keys)[3 * k + 2] != 0)
         == keys[k]
  {
    var front := keys[..|keys| - 1];
    if |keys| > 1 {
      TriplesAt(front, if k < |front| then k else 0);
    }
  }

  /** The claim survives its trip through the plan. */
  method SendSortkeys(keys: seq<SortKey>) returns (received: seq<SortKey>)
    ensures received == keys
  {
    var flat := SortkeysToPlanPrivate(keys);
    received := SortkeysFromPlanPrivate(flat);
    if keys != [] {
      TriplesAt(keys, 0);
    }
    forall k | 0 <= k < |keys|
      ensures |received| == |keys| && received[k] == keys[k]
    {
      TriplesAt(keys, k);
    }
  }

  // ----- what the orders mean

  /** -1, 0 or 1: the order of two values in a btree family, with its place for nulls. */
  function Compare(familyKey: (Oid, Value) -> int, family: Oid, descending: bool, nullsFirst: bool, a: Value,
                   b: Value): int {
    if a == Null && b == Null then 0
    else if a == Null then (if nullsFirst then -1 else 1)
    else if b == Null then (if nullsFirst then 1 else -1)
    else
      var x, y := familyKey(family, a), familyKey(family, b);
      if x == y then 0 else if (x < y) == !descending then -1 else 1
  }

  /** `r` may come before `s` under the sort keys execute() was given. */
  predicate InKeyOrder(types: Types, familyKey: (Oid, Value) -> int, keys: seq<SortKey>, r: Row, s: Row) {
    if keys == [] then true
    else
      var k := keys[0];
      var family := match DefaultFamily(types, k.attno) case Some(f) => f case None => 0;
      var c := Compare(familyKey, family, k.descending, k.nullsFirst, ColumnValue(r, k.attno), ColumnValue(s, k.attno));
      c < 0 || (c == 0 && InKeyOrder(types, familyKey, keys[1..], r, s))
  }

  /** `r` may come before `s` under pathkeys, each read through the given member of its class. */
  predicate InPathOrder(m: Meaning, familyKey: (Oid, Value) -> int, pathkeys: seq<PathKey>, members: seq<EcMember>,
                        r: Row, s: Row)
    requires |members| == |pathkeys|
  {
    if pathkeys == [] then true
    else
      var pk := pathkeys[0];
      var a, b := Eval(m, members[0].expr, r), Eval(m, members[0].expr, s);
      var c := Compare(familyKey, pk.opfamily, pk.cmptype.CompareGt?, pk.nullsFirst, a, b);
      c < 0 || (c == 0 && InPathOrder(m, familyKey, pathkeys[1..], members[1..], r, s))
  }

  /** A member of a class that is computed from this relation alone, and not for a child of it. */
  predicate ComputedHere(em: EcMember, relids: set<nat>) {
    em.relids == relids && !em.isChild
  }

  /** The members of a class computed from this relation have the same value on every row. */
  predicate ClassesAgree(m: Meaning, relids: set<nat>, pathkeys: seq<PathKey>, row: Row) {
    forall i, em, em' ::
      0 <= i < |pathkeys| && em in pathkeys[i].ec.members && em' in pathkeys[i].ec.members
      && ComputedHere(em, relids) && ComputedHere(em', relids)
      ==> Eval(m, em.expr, row) == Eval(m, em'.expr, row)
  }

  predicate Representatives(relids: set<nat>, pathkeys: seq<PathKey>, members: seq<EcMember>) {
    && |members| == |pathkeys|
    && forall i :: 0 <= i < |pathkeys| ==> members[i] in pathkeys[i].ec.members && ComputedHere(members[i], relids)
  }

  /** A plain column computed from this relation alone is a column of this relation. */
  predicate VarsAreOwn(rel: nat, relids: set<nat>, pathkeys: seq<PathKey>) {
    forall i, em :: 0 <= i < |pathkeys| && em in pathkeys[i].ec.members && ComputedHere(em, relids) && em.expr.Var?
      ==> em.expr.rel == rel && em.expr.level == 0
  }

  lemma {:induction false} FirstVarIsMember(members: seq<EcMember>, relids: set<nat>) returns (em: EcMember)
    requires FirstVar(members, relids).Some?
    ensures em in members && Eligible(em, relids) && em.expr.Var? && em.expr.attno == FirstVar(members, relids).value
  {
    if Eligible(members[0], relids) {
      em := members[0];
    } else {
      em := FirstVarIsMember(members[1..], relids);
    }
  }

  /** Rows ordered by the keys execute() received are ordered by every reading of the claimed pathkeys. */
  lemma {:induction false} ClaimedOrderHolds(
    types: Types, m: Meaning, familyKey: (Oid, Value) -> int, relids: set<nat>,
    pathkeys: seq<PathKey>, keys: seq<SortKey>, members: seq<EcMember>, r: Row, s: Row)
    requires |keys| == |pathkeys|
    requires forall i :: 0 <= i < |keys| ==> KeyOf(types, relids, pathkeys[i]) == Some(keys[i])
    requires Representatives(relids, pathkeys, members) && VarsAreOwn(m.rel, relids, pathkeys)
    requires ClassesAgree(m, relids, pathkeys, r) && ClassesAgree(m, relids, pathkeys, s)
    ensures InKeyOrder(types, familyKey, keys, r, s) <==> InPathOrder(m, familyKey, pathkeys, members, r, s)
    decreases |keys|
  {
    if keys != [] {
      var pk := pathkeys[0];
      FirstValue(types, m, relids, pathkeys, keys[0], members, r);
      FirstValue(types, m, relids, pathkeys, keys[0], members, s);
      assert KeyOf(types, relids, pk) == Some(keys[0]);
      assert pk.opfamily == (match DefaultFamily(types, keys[0].attno) case Some(f) => f case None => 0);
      assert keys[0].descending == pk.cmptype.CompareGt? && keys[0].nullsFirst == pk.nullsFirst;
      RestAgrees(m, relids, pathkeys, members, r);
      RestAgrees(m, relids, pathkeys, members, s);
      hide KeyOf, Eval, ColumnValue, Compare, ClassesAgree, Representatives, VarsAreOwn, DefaultFamily;
      ClaimedOrderHolds(types, m, familyKey, relids, pathkeys[1..], keys[1..], members[1..], r, s);
    }
  }

  lemma FirstValue(types: Types, m: Meaning, relids: set<nat>, pathkeys: seq<PathKey>, key: SortKey,
                   members: seq<EcMember>, row: Row)
    requires pathkeys != [] && KeyOf(types, relids, pathkeys[0]) == Some(key)
    requires Representatives(relids, pathkeys, members) && VarsAreOwn(m.rel, relids, pathkeys)
    requires ClassesAgree(m, relids, pathkeys, row)
    ensures Eval(m, members[0].expr, row) == ColumnValue(row, key.attno)
  {
    var em := FirstVarIsMember(pathkeys[0].ec.members, relids);
    assert members[0] in pathkeys[0].ec.members;
    assert Eval(m, em.expr, row) == ColumnValue(row, key.attno);
  }

  lemma RestAgrees(m: Meaning, relids: set<nat>, pathkeys: seq<PathKey>, members: seq<EcMember>, row: Row)
    requires pathkeys != [] && Representatives(relids, pathkeys, members) && VarsAreOwn(m.rel, relids, pathkeys)
    requires ClassesAgree(m, relids, pathkeys, row)
    ensures Representatives(relids, pathkeys[1..], members[1..]) && VarsAreOwn(m.rel, relids, pathkeys[1..])
    ensures ClassesAgree(m, relids, pathkeys[1..], row)
  {
    hide Eval, ComputedHere;
  }

  // ----- planning and scanning together

  predicate AllInKeyOrder(types: Types, familyKey: (Oid, Value) -> int, keys: seq<SortKey>, rows: seq<Row>) {
    forall i, j :: 0 <= i < j < |rows| ==> InKeyOrder(types, familyKey, keys, rows[i], rows[j])
  }

  predicate AllInPathOrder(m: Meaning, familyKey: (Oid, Value) -> int, pathkeys: seq<PathKey>, members: seq<EcMember>,
                           rows: seq<Row>)
    requires |members| == |pathkeys|
  {
    forall i, j :: 0 <= i < j < |rows| ==> InPathOrder(m, familyKey, pathkeys, members, rows[i], rows[j])
  }

  /** GetForeignPaths: the pathkeys claimed by the sorted path, and the keys execute() will be given for it. */
  method ClaimSortOrder(types: Types, relids: set<nat>, queryPathkeys: seq<PathKey>)
    returns (pathkeys: seq<PathKey>, keys: seq<SortKey>)
    ensures pathkeys <= queryPathkeys && |keys| == |pathkeys|
    ensures forall i :: 0 <= i < |keys| ==> KeyOf(types, relids, pathkeys[i]) == Some(keys[i])
    ensures pathkeys != queryPathkeys ==> KeyOf(types, relids, queryPathkeys[|pathkeys|]).None?
  {
    var matched := MatchPathkeys(types, relids, queryPathkeys);
    pathkeys := queryPathkeys[..|matched|];
    keys := SendSortkeys(matched);
  }

  lemma SortedScanIsSorted(
    types: Types, m: Meaning, familyKey: (Oid, Value) -> int, relids: set<nat>,
    pathkeys: seq<PathKey>, keys: seq<SortKey>, members: seq<EcMember>, rows: seq<Row>)
    requires |keys| == |pathkeys|
    requires forall i :: 0 <= i < |keys| ==> KeyOf(types, relids, pathkeys[i]) == Some(keys[i])
    requires Representatives(relids, pathkeys, members) && VarsAreOwn(m.rel, relids, pathkeys)
    requires forall i :: 0 <= i < |rows| ==> ClassesAgree(m, relids, pathkeys, rows[i])
    ensures AllInKeyOrder(types, familyKey, keys, rows) <==> AllInPathOrder(m, familyKey, pathkeys, members, rows)
  {
    forall i, j | 0 <= i < j < |rows|
      ensures InKeyOrder(types, familyKey, keys, rows[i], rows[j])
         <==> InPathOrder(m, familyKey, pathkeys, members, rows[i], rows[j])
    {
      ClaimedOrderHolds(types, m, familyKey, relids, pathkeys, keys, members, rows[i], rows[j]);
    }
  }

  // ----- is the claim as long as it could be?

  /** A plain column whose type's default family is that of the pathkey. */
  predicate Serves(types: Types, em: EcMember, pk: PathKey) {
    && em.expr.Var? && em.expr.attno >= 1 && em.expr.attno in types.columnType
    && var columnType := types.columnType[em.expr.attno];
       columnType in types.defaultFamily && types.defaultFamily[columnType] == pk.opfamily
  }

  /** Some plain column of this relation in the class would do. */
  predicate Satisfiable(types: Types, relids: set<nat>, pk: PathKey) {
    && !pk.ec.hasVolatile && !pk.cmptype.CompareOther?
    && exists em :: em in pk.ec.members && ComputedHere(em, relids) && Serves(types, em, pk)
  }

  /** The first member computed from this relation is such a column. */
  predicate FirstMemberFits(types: Types, relids: set<nat>, pk: PathKey) {
    var members := pk.ec.members;
    exists i :: 0 <= i < |members| && ComputedHere(members[i], relids) && Serves(types, members[i], pk)
                && forall j :: 0 <= j < i ==> !ComputedHere(members[j], relids)
  }

  lemma {:induction false} FirstVarIs(members: seq<EcMember>, relids: set<nat>, i: nat)
    requires i < |members| && ComputedHere(members[i], relids)
    requires forall j :: 0 <= j < i ==> !ComputedHere(members[j], relids)
    ensures FirstVar(members, relids) == if members[i].expr.Var? then Some(members[i].expr.attno) else None
    decreases i
  {
    if i > 0 {
      FirstVarIs(members[1..], relids, i - 1);
    }
  }

  lemma {:induction false} FirstVarPlace(members: seq<EcMember>, relids: set<nat>) returns (i: nat)
    requires FirstVar(members, relids).Some?
    ensures i < |members| && ComputedHere(members[i], relids)
    ensures forall j :: 0 <= j < i ==> !ComputedHere(members[j], relids)
  {
    if Eligible(members[0], relids) {
      i := 0;
    } else {
      var k := FirstVarPlace(members[1..], relids);
      i := k + 1;
    }
  }

  lemma {:induction false} FitsExactly(types: Types, relids: set<nat>, pk: PathKey)
    ensures FirstMemberFits(types, relids, pk)
       <==> var v := FirstVar(pk.ec.members, relids);
            v.Some? && v.value >= 1 && DefaultFamily(types, v.value) == Some(pk.opfamily)
  {
    hide FirstVar, ComputedHere;
    var members := pk.ec.members;
    if FirstVar(members, relids).Some? {
      var i := FirstVarPlace(members, relids);
      FirstVarIs(members, relids, i);
    }
    if FirstMemberFits(types, relids, pk) {
      var i :| 0 <= i < |members| && ComputedHere(members[i], relids) && Serves(types, members[i], pk)
               && forall j :: 0 <= j < i ==> !ComputedHere(members[j], relids);
      FirstVarIs(members, relids, i);
    }
  }

  /** A satisfiable pathkey is claimed exactly when the first member already fits. */
  lemma ClaimsWhenFirstFits(types: Types, relids: set<nat>, pk: PathKey)
    ensures KeyOf(types, relids, pk).Some? ==> Satisfiable(types, relids, pk)
    ensures Satisfiable(types, relids, pk) ==>
      (KeyOf(types, relids, pk).Some? <==> FirstMemberFits(types, relids, pk))
  {
    FitsExactly(types, relids, pk);
  }

  /** How many leading pathkeys are claimed. */
  function Claimed(types: Types, relids: set<nat>, pathkeys: seq<PathKey>): (n: nat)
    ensures n <= |pathkeys|
  {
    if pathkeys == [] || KeyOf(types, relids, pathkeys[0]).None? then 0 else 1 + Claimed(types, relids, pathkeys[1..])
  }

  /** How many leading pathkeys some column of the scan could serve: the longest prefix that could be claimed. */
  ghost function Longest(types: Types, relids: set<nat>, pathkeys: seq<PathKey>): (n: nat)
    ensures n <= |pathkeys|
  {
    if pathkeys == [] || !Satisfiable(types, relids, pathkeys[0]) then 0 else 1 + Longest(types, relids, pathkeys[1..])
  }

  /** `match_pathkeys` returns as many keys as are claimed. */
  lemma {:induction false} MatchedIsClaimed(types: Types, relids: set<nat>, pathkeys: seq<PathKey>, n: nat)
    requires n <= |pathkeys| && forall i :: 0 <= i < n ==> KeyOf(types, relids, pathkeys[i]).Some?
    requires n < |pathkeys| ==> KeyOf(types, relids, pathkeys[n]).None?
    ensures n == Claimed(types, relids, pathkeys)
    decreases n
  {
    hide KeyOf;
    if n > 0 {
      MatchedIsClaimed(types, relids, pathkeys[1..], n - 1);
    }
  }

  /** The longest satisfiable prefix is claimed exactly when in all of it the first member fits. */
  lemma {:induction false} ClaimsLongest(types: Types, relids: set<nat>, pathkeys: seq<PathKey>)
    ensures Claimed(types, relids, pathkeys) <= Longest(types, relids, pathkeys)
    ensures Claimed(types, relids, pathkeys) == Longest(types, relids, pathkeys)
       <==> forall i :: 0 <= i < Longest(types, relids, pathkeys) ==> FirstMemberFits(types, relids, pathkeys[i])
    decreases |pathkeys|
  {
    hide KeyOf, Satisfiable, FirstMemberFits;
    if pathkeys != [] {
      var rest := pathkeys[1..];
      ClaimsWhenFirstFits(types, relids, pathkeys[0]);
      ClaimsLongest(types, relids, rest);
      if Satisfiable(types, relids, pathkeys[0]) {
        var n := Longest(types, relids, rest);
        assert forall i :: 1 <= i < n + 1 ==> pathkeys[i] == rest[i - 1];
        assert (forall i :: 0 <= i < n + 1 ==> FirstMemberFits(types, relids, pathkeys[i])) <==>
          FirstMemberFits(types, relids, pathkeys[0])
          && forall i :: 0 <= i < n ==> FirstMemberFits(types, relids, rest[i]) by {
          if forall i :: 0 <= i < n + 1 ==> FirstMemberFits(types, relids, pathkeys[i]) {
            forall i | 0 <= i < n
              ensures FirstMemberFits(types, relids, rest[i])
            {
              assert rest[i] == pathkeys[i + 1];
            }
          }
        }
      }
    }
  }

  /** An expression listed before an equivalent plain column hides the column. */
  lemma ClaimCanStopEarly()
    ensures var types := Types(map[1 := 23], map[23 := 1976]);
            var hidden := EquivalenceClass(false,
                                           [EcMember(Call(0, []), false, {1}), EcMember(Var(1, 0, 1), false, {1})]);
            var pk := PathKey(hidden, 1976, CompareLt, false);
            Satisfiable(types, {1}, pk) && KeyOf(types, {1}, pk).None?
  {
    var types := Types(map[1 := 23], map[23 := 1976]);
    var plain := EcMember(Var(1, 0, 1), false, {1});
    var hidden := EquivalenceClass(false, [EcMember(Call(0, []), false, {1}), plain]);
    assert plain in hidden.members;
    assert DefaultFamily(types, 1) == Some(1976);
  }
}
