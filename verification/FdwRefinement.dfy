/**
 A foreign scan refines its query: planning, execute() under its contract, the
 local recheck and the projection together give the query's own answer.
 */
module FdwRefinement {
  import opened Options
  import opened FdwQuals

  /** What the query asks of one foreign table. */
  datatype Query = Query(
    targets: seq<Expr>,
    infos: seq<RestrictInfo>,
    rel: nat,
    dropped: seq<bool>)

  function AllExprs(q: Query): seq<Expr> {
    q.targets + Clauses(q.infos)
  }

  predicate SameMembers(a: seq<RestrictInfo>, b: seq<RestrictInfo>) {
    (forall x :: x in a ==> x in b) && (forall x :: x in b ==> x in a)
  }

  /** The planner's lists: equal addresses are the same clause, and a pseudoconstant one mentions no column. */
  predicate WellPlanned(q: Query) {
    && |q.dropped| < 0x8000
    && (forall a, b :: a in q.infos && b in q.infos && a.id == b.id ==> a == b)
    && (forall a :: a in q.infos && a.pseudoconstant ==> PullAttnos(a.clause, q.rel) == {})
  }

  predicate IsPlanFor(cat: Catalog, q: Query, scanClauses: seq<RestrictInfo>, plan: Plan) {
    var quals := PushableQuals(cat, q.infos, q.rel);
    && |plan.pushed| == |quals|
    && (forall i :: 0 <= i < |quals| ==> plan.pushed[i] == EncodedQual(quals[i]))
    && (forall a: AttrNumber :: a in plan.needed <==>
          1 <= a <= |q.dropped| && !q.dropped[a - 1]
          && (a in PullAll(AllExprs(q), q.rel) || 0 in PullAll(AllExprs(q), q.rel)))
    && plan.local == ActualClauses(LocalClauses(scanClauses, PushedIds(quals)))
  }

  lemma PushableQualsAreLinked(cat: Catalog, infos: seq<RestrictInfo>, rel: nat, q: Qual)
    requires q in PushableQuals(cat, infos, rel)
    ensures exists info :: info in infos && SimpleQual(cat, info, rel) == Some(q) && q.rinfo == Some(info.id)
  {
    InPushable(cat, infos, rel, q);
  }

  /** GetForeignRelSize and GetForeignPlan, then what BeginForeignScan decodes. */
  method PlanScan(cat: Catalog, q: Query, scanClauses: seq<RestrictInfo>) returns (plan: Plan, quals: seq<Qual>)
    requires |q.dropped| < 0x8000
    ensures IsPlanFor(cat, q, scanClauses, plan)
    ensures quals == DecodedQuals(plan)
  {
    hide PushableQuals, SimpleQual;
    var pushable := ExtractPushableQuals(cat, q.infos, q.rel);
    var needed := CollectNeededAttrs(q.targets, q.infos, q.rel, q.dropped);
    forall qual | qual in pushable
      ensures qual.rinfo.Some?
    {
      PushableQualsAreLinked(cat, q.infos, q.rel, qual);
    }
    plan := GetForeignPlan(pushable, needed, scanClauses);
    forall i | 0 <= i < |pushable|
      ensures IsTriple(plan.pushed[i])
    {
      DecodeEncoded(pushable[i]);
    }
    quals := QualsFromPlanPrivate(plan.pushed);
  }

  function DecodedQuals(plan: Plan): seq<Qual> {
    seq(|plan.pushed|, i requires 0 <= i < |plan.pushed| =>
      if IsTriple(plan.pushed[i]) then DecodedQual(plan.pushed[i]) else Qual(0, "", Null, None))
  }

  // ----- the two answers

  predicate AllSatisfied(m: Meaning, quals: seq<Qual>, row: Row) {
    forall i :: 0 <= i < |quals| ==> Satisfies(m, quals[i], row)
  }

  predicate AllHold(m: Meaning, infos: seq<RestrictInfo>, row: Row) {
    forall info :: info in infos ==> Holds(m, info.clause, row)
  }

  /** The rows execute() must yield something for. */
  function Matching(m: Meaning, quals: seq<Qual>, table: seq<Row>): seq<Row> {
    if table == [] then []
    else (if AllSatisfied(m, quals, table[0]) then [table[0]] else []) + Matching(m, quals, table[1..])
  }

  /** Filter by clauses, then project. */
  function Select(m: Meaning, infos: seq<RestrictInfo>, targets: seq<Expr>, rows: seq<Row>): seq<seq<Value>> {
    if rows == [] then []
    else
      (if AllHold(m, infos, rows[0]) then [EvalAll(m, targets, rows[0])] else [])
      + Select(m, infos, targets, rows[1..])
  }

  /** The gating node: pseudoconstant clauses are evaluated once, on no row. */
  predicate GateOpen(m: Meaning, infos: seq<RestrictInfo>) {
    forall info :: info in infos && info.pseudoconstant ==> Holds(m, info.clause, Row([], Null))
  }

  function ForeignAnswer(m: Meaning, q: Query, plan: Plan, yielded: seq<Row>): seq<seq<Value>> {
    if GateOpen(m, q.infos) then Select(m, plan.local, q.targets, yielded) else []
  }

  // ----- one row

  lemma InPullAll(es: seq<Expr>, e: Expr, rel: nat)
    requires e in es
    ensures PullAttnos(e, rel) <= PullAll(es, rel)
  {
    if es[0] != e {
      assert e in es[1..];
      InPullAll(es[1..], e, rel);
    }
  }

  lemma PullAllPrefix(a: seq<Expr>, b: seq<Expr>, rel: nat)
    ensures PullAll(a, rel) <= PullAll(a + b, rel)
    decreases a
  {
    if a != [] {
      assert (a + b)[1..] == a[1..] + b;
      PullAllPrefix(a[1..], b, rel);
    }
  }

  lemma ClauseAgrees(m: Meaning, q: Query, info: RestrictInfo, r: Row, s: Row)
    requires info in q.infos && q.rel == m.rel && Agree(r, s, PullAll(AllExprs(q), q.rel))
    ensures Eval(m, info.clause, r) == Eval(m, info.clause, s)
  {
    var i :| 0 <= i < |q.infos| && q.infos[i] == info;
    assert AllExprs(q)[|q.targets| + i] == info.clause;
    InPullAll(AllExprs(q), info.clause, q.rel);
    EvalAgrees(m, info.clause, r, s);
  }

  lemma PseudoconstantIgnoresRow(m: Meaning, info: RestrictInfo, r: Row, s: Row)
    requires PullAttnos(info.clause, m.rel) == {}
    ensures Eval(m, info.clause, r) == Eval(m, info.clause, s)
  {
    ConstantEval(m, info.clause, r, s);
  }

  lemma {:induction false} ConstantEval(m: Meaning, e: Expr, r: Row, s: Row)
    requires PullAttnos(e, m.rel) == {}
    ensures Eval(m, e, r) == Eval(m, e, s)
    decreases e, 1
  {
    match e
    case Var(_, _, _) => assert e.attno in {e.attno};
    case Const(_) =>
    case OpExpr(_, args) => ConstantEvalAll(m, args, r, s);
    case Coercion(arg) => ConstantEval(m, arg, r, s);
    case Call(_, args) => ConstantEvalAll(m, args, r, s);
  }

  lemma {:induction false} ConstantEvalAll(m: Meaning, es: seq<Expr>, r: Row, s: Row)
    requires PullAll(es, m.rel) == {}
    ensures EvalAll(m, es, r) == EvalAll(m, es, s)
    decreases es, 0
  {
    if es != [] {
      ConstantEval(m, es[0], r, s);
      ConstantEvalAll(m, es[1..], r, s);
    }
  }

  /** The clauses a pushed qual came from are those with its address. */
  lemma PushedIsRecognized(cat: Catalog, q: Query, info: RestrictInfo)
    requires WellPlanned(q) && info in q.infos
    ensures info.id in PushedIds(PushableQuals(cat, q.infos, q.rel)) <==> SimpleQual(cat, info, q.rel).Some?
  {
    hide SimpleQual, PushableQuals;
    var quals := PushableQuals(cat, q.infos, q.rel);
    if SimpleQual(cat, info, q.rel).Some? {
      var qual := SimpleQual(cat, info, q.rel).value;
      InPushable(cat, q.infos, q.rel, qual);
      PushableQualsAreLinked(cat, q.infos, q.rel, qual);
      QualLink(cat, info, q.rel);
    }
    if info.id in PushedIds(quals) {
      var qual :| qual in quals && qual.rinfo == Some(info.id);
      PushableQualsAreLinked(cat, q.infos, q.rel, qual);
    }
  }

  lemma QualLink(cat: Catalog, info: RestrictInfo, rel: nat)
    requires SimpleQual(cat, info, rel).Some?
    ensures SimpleQual(cat, info, rel).value.rinfo == Some(info.id)
  {
  }

  lemma SimpleIsNotPseudoconstant(cat: Catalog, info: RestrictInfo, rel: nat)
    requires SimpleQual(cat, info, rel).Some?
    ensures PullAttnos(info.clause, rel) != {}
  {
    var args := info.clause.args;
    StripKeepsAttnos(args[0], rel);
    StripKeepsAttnos(args[1], rel);
    assert args[1..][0] == args[1];
    var v := if StripCoercions(args[0]).Var? && StripCoercions(args[1]).Const? then args[0] else args[1];
    assert StripCoercions(v).attno in PullAttnos(v, rel);
    assert PullAll(args, rel) == PullAttnos(args[0], rel) + PullAll(args[1..], rel);
    assert PullAll(args[1..], rel) == PullAttnos(args[1], rel) + PullAll(args[1..][1..], rel);
  }

  lemma StripKeepsAttnos(e: Expr, rel: nat)
    ensures PullAttnos(StripCoercions(e), rel) == PullAttnos(e, rel)
  {
  }

  /** Pushed quals, local clauses and the gate together are the whole WHERE clause. */
  lemma RowPasses(cat: Catalog, m: Meaning, q: Query, scanClauses: seq<RestrictInfo>, plan: Plan, row: Row,
                  yielded: Row)
    requires Sound(cat, m) && WellPlanned(q) && q.rel == m.rel
    requires SameMembers(q.infos, scanClauses) && IsPlanFor(cat, q, scanClauses, plan)
    requires Stored(row, q.dropped) && Yields(yielded, row, plan.needed, q.dropped)
    ensures AllHold(m, q.infos, row)
       <==> AllSatisfied(m, DecodedQuals(plan), row) && AllHold(m, plan.local, yielded) && GateOpen(m, q.infos)
    ensures EvalAll(m, q.targets, yielded) == EvalAll(m, q.targets, row)
  {
    hide PushableQuals, SimpleQual, Holds, LocalClauses, ActualClauses, PushedIds, Satisfies;
    NeededSuffices(AllExprs(q), q.rel, q.dropped, plan.needed, row, yielded);
    PullAllPrefix(q.targets, Clauses(q.infos), q.rel);
    EvalAllAgrees(m, q.targets, yielded, row);
    forall info | info in q.infos
      ensures SimpleQual(cat, info, q.rel).Some? ==>
        (Holds(m, info.clause, row) <==> Satisfies(m, SimpleQual(cat, info, q.rel).value, row))
      ensures SimpleQual(cat, info, q.rel).Some? ==> !info.pseudoconstant
      ensures info in plan.local <==> SimpleQual(cat, info, q.rel).None? && !info.pseudoconstant
      ensures Holds(m, info.clause, yielded) == Holds(m, info.clause, row)
      ensures info.pseudoconstant ==> Holds(m, info.clause, Row([], Null)) == Holds(m, info.clause, row)
    {
      OneClause(cat, m, q, scanClauses, plan, info, row, yielded);
    }
    forall info | info in plan.local
      ensures info in q.infos
    {
      InActual(LocalClauses(scanClauses, PushedIds(PushableQuals(cat, q.infos, q.rel))), info);
      InLocal(scanClauses, PushedIds(PushableQuals(cat, q.infos, q.rel)), info);
    }
    QualsOfClauses(cat, m, q, scanClauses, plan, row);
  }

  lemma OneClause(cat: Catalog, m: Meaning, q: Query, scanClauses: seq<RestrictInfo>, plan: Plan,
                  info: RestrictInfo, row: Row, yielded: Row)
    requires Sound(cat, m) && WellPlanned(q) && q.rel == m.rel && info in q.infos
    requires SameMembers(q.infos, scanClauses) && IsPlanFor(cat, q, scanClauses, plan)
    requires Agree(yielded, row, PullAll(AllExprs(q), q.rel))
    ensures SimpleQual(cat, info, q.rel).Some? ==>
      (Holds(m, info.clause, row) <==> Satisfies(m, SimpleQual(cat, info, q.rel).value, row))
    ensures SimpleQual(cat, info, q.rel).Some? ==> !info.pseudoconstant
    ensures info in plan.local <==> SimpleQual(cat, info, q.rel).None? && !info.pseudoconstant
    ensures Holds(m, info.clause, yielded) == Holds(m, info.clause, row)
    ensures info.pseudoconstant ==> Holds(m, info.clause, Row([], Null)) == Holds(m, info.clause, row)
  {
    hide PushableQuals, SimpleQual, Sound, LocalClauses, ActualClauses, Satisfies;
    var ids := PushedIds(PushableQuals(cat, q.infos, q.rel));
    if SimpleQual(cat, info, q.rel).Some? {
      SimpleQualIsClause(cat, m, info, row);
      SimpleIsNotPseudoconstant(cat, info, q.rel);
    }
    PushedIsRecognized(cat, q, info);
    InLocal(scanClauses, ids, info);
    InActual(LocalClauses(scanClauses, ids), info);
    ClauseAgrees(m, q, info, yielded, row);
    if info.pseudoconstant {
      PseudoconstantIgnoresRow(m, info, Row([], Null), row);
    }
  }

  lemma SatisfiesIgnoresLink(m: Meaning, q: Qual, row: Row)
    ensures Satisfies(m, q.(rinfo := None), row) == Satisfies(m, q, row)
  {
  }

  /** The decoded quals are those of the recognized clauses. */
  lemma QualsOfClauses(cat: Catalog, m: Meaning, q: Query, scanClauses: seq<RestrictInfo>, plan: Plan, row: Row)
    requires IsPlanFor(cat, q, scanClauses, plan)
    ensures AllSatisfied(m, DecodedQuals(plan), row)
       <==> forall info :: info in q.infos && SimpleQual(cat, info, q.rel).Some? ==>
              Satisfies(m, SimpleQual(cat, info, q.rel).value, row)
  {
    hide PushableQuals, SimpleQual, Satisfies, LocalClauses, ActualClauses;
    var quals, decoded := PushableQuals(cat, q.infos, q.rel), DecodedQuals(plan);
    forall i | 0 <= i < |quals|
      ensures Satisfies(m, decoded[i], row) == Satisfies(m, quals[i], row)
      ensures exists info :: info in q.infos && SimpleQual(cat, info, q.rel) == Some(quals[i])
    {
      DecodeEncoded(quals[i]);
      SatisfiesIgnoresLink(m, quals[i], row);
      PushableQualsAreLinked(cat, q.infos, q.rel, quals[i]);
    }
    forall info | info in q.infos && SimpleQual(cat, info, q.rel).Some?
      ensures exists i :: 0 <= i < |quals| && quals[i] == SimpleQual(cat, info, q.rel).value
    {
      InPushable(cat, q.infos, q.rel, SimpleQual(cat, info, q.rel).value);
    }
  }

  // ----- the whole scan

  predicate AllStored(table: seq<Row>, dropped: seq<bool>) {
    forall i :: 0 <= i < |table| ==> Stored(table[i], dropped)
  }

  /** execute() honours its contract: one row for each match, right on the needed columns. */
  predicate Honours(m: Meaning, q: Query, plan: Plan, table: seq<Row>, yielded: seq<Row>) {
    var matching := Matching(m, DecodedQuals(plan), table);
    && |yielded| == |matching|
    && forall i :: 0 <= i < |matching| ==> Yields(yielded[i], matching[i], plan.needed, q.dropped)
  }

  /** For every table and query, the rows of the foreign scan are those of the query itself. */
  lemma {:induction false} ScanRefinesQuery(cat: Catalog, m: Meaning, q: Query, scanClauses: seq<RestrictInfo>,
                                            plan: Plan, table: seq<Row>, yielded: seq<Row>)
    requires Sound(cat, m) && WellPlanned(q) && q.rel == m.rel
    requires SameMembers(q.infos, scanClauses) && IsPlanFor(cat, q, scanClauses, plan)
    requires AllStored(table, q.dropped) && Honours(m, q, plan, table, yielded)
    ensures ForeignAnswer(m, q, plan, yielded) == Select(m, q.infos, q.targets, table)
    decreases |table|
  {
    hide IsPlanFor, AllSatisfied, AllHold, GateOpen, Sound, WellPlanned, Yields, DecodedQuals, SameMembers, Stored;
    if table != [] {
      var row, rest := table[0], table[1..];
      var quals := DecodedQuals(plan);
      var matching := Matching(m, quals, table);
      if AllSatisfied(m, quals, row) {
        assert matching == [row] + Matching(m, quals, rest);
        assert matching[1..] == Matching(m, quals, rest);
        RowPasses(cat, m, q, scanClauses, plan, row, yielded[0]);
        ScanRefinesQuery(cat, m, q, scanClauses, plan, rest, yielded[1..]);
      } else {
        YieldsItself(row, plan, q);
        RowPasses(cat, m, q, scanClauses, plan, row, row);
        assert matching == Matching(m, quals, rest);
        ScanRefinesQuery(cat, m, q, scanClauses, plan, rest, yielded);
      }
    }
  }

  lemma YieldsItself(row: Row, plan: Plan, q: Query)
    requires Stored(row, q.dropped)
    ensures Yields(row, row, plan.needed, q.dropped)
  {
  }
}
