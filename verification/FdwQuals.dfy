/**
 Qual pushdown and column pruning of a foreign scan (fdw.c). A plan hands some
 clauses and a column list to the module's execute() and keeps the rest; the
 main theorem says that the rows that come out are those of the query.
 */
module FdwQuals {
  import opened Options

  type Oid = nat
  type AttrNumber = a: int | -0x8000 <= a < 0x8000

  datatype Value =
    | Null
    | Bool(b: bool)
    | Datum(n: int)
    | Record(fields: seq<Value>)

  /** An expression of the query. `Call` stands for every node kind the recognizer does not look into. */
  datatype Expr =
    | Var(rel: nat, level: nat, attno: AttrNumber)
    | Const(value: Value)
    | OpExpr(opno: Oid, args: seq<Expr>)
    | Coercion(arg: Expr)
    | Call(function_id: nat, args: seq<Expr>)

  /** A clause as the planner lists it; `id` is the address `list_member_ptr` compares. */
  datatype RestrictInfo = RestrictInfo(id: nat, clause: Expr, pseudoconstant: bool)

  /** The operator catalog: names and commutators. */
  datatype Catalog = Catalog(names: map<Oid, string>, commutators: map<Oid, Oid>)

  /** What expressions mean: operators, functions, the order of a type, and variables of other relations. */
  datatype Meaning = Meaning(
    rel: nat,
    operate: (Oid, seq<Value>) -> Value,
    call: (nat, seq<Value>) -> Value,
    key: Value -> int,
    outer: (nat, nat, int) -> Value)

  /** A row of the foreign table; `system` stands for its system columns. */
  datatype Row = Row(columns: seq<Value>, system: Value)

  // ----- evaluation

  function ColumnValue(row: Row, attno: AttrNumber): Value {
    if attno == 0 then Record(row.columns)
    else if attno < 0 then row.system
    else if attno <= |row.columns| then row.columns[attno - 1]
    else Null
  }

  function Eval(m: Meaning, e: Expr, row: Row): Value
    decreases e, 1
  {
    match e
    case Var(rel, level, attno) =>
      if rel == m.rel && level == 0 then ColumnValue(row, attno) else m.outer(rel, level, attno)
    case Const(v) => v
    case OpExpr(opno, args) => m.operate(opno, EvalAll(m, args, row))
    case Coercion(arg) => Eval(m, arg, row)
    case Call(f, args) => m.call(f, EvalAll(m, args, row))
  }

  function EvalAll(m: Meaning, es: seq<Expr>, row: Row): (vs: seq<Value>)
    ensures |vs| == |es|
    decreases es, 0
  {
    if es == [] then [] else [Eval(m, es[0], row)] + EvalAll(m, es[1..], row)
  }

  /** A WHERE clause lets a row through only when it is true: neither false nor null. */
  predicate Holds(m: Meaning, e: Expr, row: Row) {
    Eval(m, e, row) == Bool(true)
  }

  const SUPPORTED: seq<string> := ["=", "<>", "<", "<=", ">", ">="]

  predicate Compares(op: string, a: int, b: int)
    requires op in SUPPORTED
  {
    if op == "=" then a == b
    else if op == "<>" then a != b
    else if op == "<" then a < b
    else if op == "<=" then a <= b
    else if op == ">" then a > b
    else a >= b
  }

  /** An operator with a comparison's name is that comparison, null on a null operand. */
  ghost predicate NamesAreMeant(cat: Catalog, m: Meaning) {
    forall opno, a, b :: opno in cat.names && cat.names[opno] in SUPPORTED ==>
      m.operate(opno, [a, b])
      == if a == Null || b == Null then Null else Bool(Compares(cat.names[opno], m.key(a), m.key(b)))
  }

  ghost predicate CommutatorsAreMeant(cat: Catalog, m: Meaning) {
    forall opno, a, b :: opno in cat.commutators ==>
      m.operate(opno, [a, b]) == m.operate(cat.commutators[opno], [b, a])
  }

  ghost predicate Sound(cat: Catalog, m: Meaning) {
    NamesAreMeant(cat, m) && CommutatorsAreMeant(cat, m)
  }

  // ----- recognizing a simple qual

  /** `column <op> constant`; `rinfo` is the clause it came from, `None` once decoded from a plan. */
  datatype Qual = Qual(attno: AttrNumber, opname: string, value: Value, rinfo: Option<nat>)

  function StripCoercions(e: Expr): (r: Expr)
    ensures !r.Coercion?
  {
    if e.Coercion? then StripCoercions(e.arg) else e
  }

  function SimpleQual(cat: Catalog, info: RestrictInfo, rel: nat): Option<Qual> {
    if !info.clause.OpExpr? || |info.clause.args| != 2 then None
    else
      var left := StripCoercions(info.clause.args[0]);
      var right := StripCoercions(info.clause.args[1]);
      if left.Var? && right.Const? then
        FinishQual(cat, info, rel, left, right, Some(info.clause.opno))
      else if right.Var? && left.Const? then
        FinishQual(cat, info, rel, right, left, Commutator(cat, info.clause.opno))
      else None
  }

  function Commutator(cat: Catalog, opno: Oid): Option<Oid> {
    if opno in cat.commutators then Some(cat.commutators[opno]) else None
  }

  /** The checks made once a column and a constant have been found. */
  function FinishQual(cat: Catalog, info: RestrictInfo, rel: nat, v: Expr, c: Expr, opno: Option<Oid>): Option<Qual>
    requires v.Var? && c.Const?
  {
    if v.rel != rel || v.level != 0 || v.attno < 1 then None
    else if c.value == Null then None
    else if opno.None? then None
    else if opno.value !in cat.names || cat.names[opno.value] !in SUPPORTED then None
    else Some(Qual(v.attno, cat.names[opno.value], c.value, Some(info.id)))
  }

  function PushableQuals(cat: Catalog, infos: seq<RestrictInfo>, rel: nat): seq<Qual> {
    if infos == [] then []
    else
      PushableQuals(cat, infos[..|infos| - 1], rel) +
      match SimpleQual(cat, infos[|infos| - 1], rel)
      case Some(q) => [q]
      case None => []
  }

  method ExtractPushableQuals(cat: Catalog, infos: seq<RestrictInfo>, rel: nat) returns (quals: seq<Qual>)
    ensures quals == PushableQuals(cat, infos, rel)
  {
    hide SimpleQual;
    quals := [];
    for i := 0 to |infos|
      invariant quals == PushableQuals(cat, infos[..i], rel)
    {
      assert infos[..i + 1][..i] == infos[..i];
      var q := SimpleQual(cat, infos[i], rel);
      if q.None? {
        continue;
      }
      quals := quals + [q.value];
    }
    assert infos[..|infos|] == infos;
  }

  /** How a module that honours its contract applies a qual: a null column matches nothing. */
  predicate Satisfies(m: Meaning, q: Qual, row: Row) {
    var v := ColumnValue(row, q.attno);
    v != Null && q.opname in SUPPORTED && Compares(q.opname, m.key(v), m.key(q.value))
  }

  lemma StripKeepsValue(m: Meaning, e: Expr, row: Row)
    ensures Eval(m, StripCoercions(e), row) == Eval(m, e, row)
  {
  }

  /** A recognized clause and its qual let the same rows through, written either way round. */
  lemma SimpleQualIsClause(cat: Catalog, m: Meaning, info: RestrictInfo, row: Row)
    requires Sound(cat, m) && SimpleQual(cat, info, m.rel).Some?
    ensures Holds(m, info.clause, row) <==> Satisfies(m, SimpleQual(cat, info, m.rel).value, row)
  {
    var args := info.clause.args;
    StripKeepsValue(m, args[0], row);
    StripKeepsValue(m, args[1], row);
    var a, b := Eval(m, args[0], row), Eval(m, args[1], row);
    assert EvalAll(m, args, row) == [a, b] by {
      assert args[1..][0] == args[1] && args[1..][1..] == [];
    }
    var opno := info.clause.opno;
    if !StripCoercions(args[0]).Var? || !StripCoercions(args[1]).Const? {
      assert m.operate(opno, [a, b]) == m.operate(cat.commutators[opno], [b, a]);
    }
  }

  /** `e` is `core` under any number of implicit casts. */
  predicate Wraps(e: Expr, core: Expr) {
    e == core || (e.Coercion? && Wraps(e.arg, core))
  }

  /** `column <op> constant` of the relation, with one of six operators, either operand under casts. */
  predicate IsColumnOpConstant(cat: Catalog, column: Expr, opno: Oid, constant: Expr, rel: nat, q: Qual) {
    && Wraps(column, Var(rel, 0, q.attno)) && Wraps(constant, Const(q.value))
    && opno in cat.names && cat.names[opno] == q.opname
    && (q.opname == "=" || q.opname == "<>" || q.opname == "<" || q.opname == "<=" || q.opname == ">"
        || q.opname == ">=")
    && q.attno >= 1 && q.value != Null
  }

  lemma StripsWrapped(e: Expr)
    ensures Wraps(e, StripCoercions(e))
    ensures forall core: Expr :: !core.Coercion? && Wraps(e, core) ==> core == StripCoercions(e)
  {
  }

  lemma SupportedAre(op: string)
    ensures op in SUPPORTED
       <==> op == "=" || op == "<>" || op == "<" || op == "<=" || op == ">" || op == ">="
  {
  }

  /**
   A clause gives a qual exactly when it is `column <op> constant`, or `constant <op> column` for the
   operator's commutator.
   */
  lemma {:induction false} RecognizedExactly(cat: Catalog, info: RestrictInfo, rel: nat, q: Qual)
    ensures SimpleQual(cat, info, rel) == Some(q)
       <==> && q.rinfo == Some(info.id) && info.clause.OpExpr? && |info.clause.args| == 2
            && var a, b, opno := info.clause.args[0], info.clause.args[1], info.clause.opno;
               || IsColumnOpConstant(cat, a, opno, b, rel, q)
               || (opno in cat.commutators && IsColumnOpConstant(cat, b, cat.commutators[opno], a, rel, q))
  {
    hide Wraps, StripCoercions, SUPPORTED;
    SupportedAre(q.opname);
    if info.clause.OpExpr? && |info.clause.args| == 2 {
      StripsWrapped(info.clause.args[0]);
      StripsWrapped(info.clause.args[1]);
    }
  }

  // ----- the plan's encoding of quals

  datatype PlanNode = IntegerNode(n: int) | StringNode(s: string) | ConstNode(v: Value)

  function ToAttrNumber(n: int): AttrNumber {
    (n + 0x8000) % 0x10000 - 0x8000
  }

  function EncodedQual(q: Qual): seq<PlanNode> {
    [IntegerNode(q.attno), StringNode(q.opname), ConstNode(q.value)]
  }

  predicate IsTriple(t: seq<PlanNode>) {
    |t| == 3 && t[0].IntegerNode? && t[1].StringNode? && t[2].ConstNode?
  }

  method QualsToPlanPrivate(quals: seq<Qual>) returns (result: seq<seq<PlanNode>>)
    ensures |result| == |quals|
    ensures forall i :: 0 <= i < |quals| ==> result[i] == EncodedQual(quals[i])
  {
    result := [];
    for i := 0 to |quals|
      invariant |result| == i
      invariant forall k :: 0 <= k < i ==> result[k] == EncodedQual(quals[k])
    {
      result := result + [[IntegerNode(quals[i].attno), StringNode(quals[i].opname), ConstNode(quals[i].value)]];
    }
  }

  function DecodedQual(t: seq<PlanNode>): Qual
    requires IsTriple(t)
  {
    Qual(ToAttrNumber(t[0].n), t[1].s, t[2].v, None)
  }

  method QualsFromPlanPrivate(fdwPrivate: seq<seq<PlanNode>>) returns (result: seq<Qual>)
    requires forall i :: 0 <= i < |fdwPrivate| ==> IsTriple(fdwPrivate[i])
    ensures |result| == |fdwPrivate|
    ensures forall i :: 0 <= i < |fdwPrivate| ==> result[i] == DecodedQual(fdwPrivate[i])
  {
    result := [];
    for i := 0 to |fdwPrivate|
      invariant |result| == i
      invariant forall k :: 0 <= k < i ==> result[k] == DecodedQual(fdwPrivate[k])
    {
      var triple := fdwPrivate[i];
      result := result + [Qual(ToAttrNumber(triple[0].n), triple[1].s, triple[2].v, None)];
    }
  }

  /** Decoding reads back what was encoded, but for the link to the clause. */
  lemma DecodeEncoded(q: Qual)
    ensures IsTriple(EncodedQual(q)) && DecodedQual(EncodedQual(q)) == q.(rinfo := None)
  {
  }

  // ----- column pruning

  /** `pull_varattnos`: the columns of relation `rel` that `e` mentions; 0 is the whole row. */
  function PullAttnos(e: Expr, rel: nat): set<AttrNumber>
    decreases e, 1
  {
    match e
    case Var(r, level, attno) => if r == rel && level == 0 then {attno} else {}
    case Const(_) => {}
    case OpExpr(_, args) => PullAll(args, rel)
    case Coercion(arg) => PullAttnos(arg, rel)
    case Call(_, args) => PullAll(args, rel)
  }

  function PullAll(es: seq<Expr>, rel: nat): set<AttrNumber>
    decreases es, 0
  {
    if es == [] then {} else PullAttnos(es[0], rel) + PullAll(es[1..], rel)
  }

  /** `part` is `e` or stands somewhere inside it. */
  predicate Contains(e: Expr, part: Expr)
    decreases e
  {
    || e == part
    || match e
       case OpExpr(_, args) => exists i :: 0 <= i < |args| && Contains(args[i], part)
       case Call(_, args) => exists i :: 0 <= i < |args| && Contains(args[i], part)
       case Coercion(arg) => Contains(arg, part)
       case Var(_, _, _) => false
       case Const(_) => false
  }

  /** The columns pulled are those of the variables of this relation that stand in the expression. */
  lemma {:induction false} PulledExactly(e: Expr, rel: nat, attno: AttrNumber)
    ensures attno in PullAttnos(e, rel) <==> Contains(e, Var(rel, 0, attno))
    decreases e, 1
  {
    match e
    case Var(_, _, _) =>
    case Const(_) =>
    case OpExpr(_, args) => PulledFromExactly(args, rel, attno);
    case Coercion(arg) => PulledExactly(arg, rel, attno);
    case Call(_, args) => PulledFromExactly(args, rel, attno);
  }

  lemma {:induction false} PulledFromExactly(es: seq<Expr>, rel: nat, attno: AttrNumber)
    ensures attno in PullAll(es, rel) <==> exists i :: 0 <= i < |es| && Contains(es[i], Var(rel, 0, attno))
    decreases es, 0
  {
    if es != [] {
      PulledExactly(es[0], rel, attno);
      PulledFromExactly(es[1..], rel, attno);
      if exists i :: 0 <= i < |es| && Contains(es[i], Var(rel, 0, attno)) {
        var i :| 0 <= i < |es| && Contains(es[i], Var(rel, 0, attno));
        assert i > 0 ==> es[1..][i - 1] == es[i];
      }
    }
  }

  function Clauses(infos: seq<RestrictInfo>): seq<Expr> {
    seq(|infos|, i requires 0 <= i < |infos| => infos[i].clause)
  }

  /** The attribute numbers handed to execute(), in column order. */
  method CollectNeededAttrs(targets: seq<Expr>, infos: seq<RestrictInfo>, rel: nat, dropped: seq<bool>)
    returns (needed: seq<AttrNumber>)
    requires |dropped| < 0x8000
    ensures forall i, j :: 0 <= i < j < |needed| ==> needed[i] < needed[j]
    ensures forall a :: a in needed <==>
      1 <= a <= |dropped| && !dropped[a - 1]
      && (a in PullAll(targets + Clauses(infos), rel) || 0 in PullAll(targets + Clauses(infos), rel))
  {
    hide PullAttnos, PullAll;
    var used := PullAll(targets, rel);
    assert targets + Clauses(infos[..0]) == targets;
    for i := 0 to |infos|
      invariant used == PullAll(targets + Clauses(infos[..i]), rel)
    {
      assert targets + Clauses(infos[..i + 1]) == targets + Clauses(infos[..i]) + [infos[i].clause];
      PullAppend(targets + Clauses(infos[..i]), infos[i].clause, rel);
      used := used + PullAttnos(infos[i].clause, rel);
    }
    assert infos[..|infos|] == infos;
    var needAll := 0 in used;
    needed := [];
    for i := 0 to |dropped|
      invariant forall k :: 0 <= k < |needed| ==> 1 <= needed[k] <= i
      invariant forall k, l :: 0 <= k < l < |needed| ==> needed[k] < needed[l]
      invariant forall a :: a in needed <==> 1 <= a <= i && !dropped[a - 1] && (a in used || needAll)
    {
      if dropped[i] {
        continue;
      }
      if needAll || i + 1 in used {
        needed := needed + [i + 1];
      }
    }
  }

  lemma {:induction false} PullAppend(es: seq<Expr>, e: Expr, rel: nat)
    ensures PullAll(es + [e], rel) == PullAll(es, rel) + PullAttnos(e, rel)
    decreases |es|
  {
    if es == [] {
      assert (es + [e])[1..] == [];
    } else {
      assert (es + [e])[1..] == es[1..] + [e];
      PullAppend(es[1..], e, rel);
    }
  }

  // ----- the plan

  datatype Plan = Plan(pushed: seq<seq<PlanNode>>, needed: seq<AttrNumber>, local: seq<RestrictInfo>)

  /** The clauses left to the executor: those no pushed qual came from. */
  function LocalClauses(clauses: seq<RestrictInfo>, pushedIds: set<nat>): seq<RestrictInfo> {
    if clauses == [] then []
    else
      LocalClauses(clauses[..|clauses| - 1], pushedIds) +
      (if clauses[|clauses| - 1].id in pushedIds then [] else [clauses[|clauses| - 1]])
  }

  /** `extract_actual_clauses(clauses, false)`: pseudoconstant ones are left to a gating node instead. */
  function ActualClauses(clauses: seq<RestrictInfo>): seq<RestrictInfo> {
    if clauses == [] then []
    else
      ActualClauses(clauses[..|clauses| - 1]) +
      (if clauses[|clauses| - 1].pseudoconstant then [] else [clauses[|clauses| - 1]])
  }

  function PushedIds(quals: seq<Qual>): set<nat> {
    set q | q in quals && q.rinfo.Some? :: q.rinfo.value
  }

  method GetForeignPlan(quals: seq<Qual>, needed: seq<AttrNumber>, scanClauses: seq<RestrictInfo>) returns (plan: Plan)
    requires forall q :: q in quals ==> q.rinfo.Some?
    ensures |plan.pushed| == |quals|
    ensures forall i :: 0 <= i < |quals| ==> plan.pushed[i] == EncodedQual(quals[i])
    ensures plan.needed == needed
    ensures plan.local == ActualClauses(LocalClauses(scanClauses, PushedIds(quals)))
  {
    var pushable := {};
    for i := 0 to |quals|
      invariant pushable == PushedIds(quals[..i])
    {
      assert quals[..i + 1] == quals[..i] + [quals[i]];
      assert quals[i] in quals;
      pushable := pushable + {quals[i].rinfo.value};
    }
    assert quals[..|quals|] == quals;
    var local := [];
    for i := 0 to |scanClauses|
      invariant local == LocalClauses(scanClauses[..i], pushable)
    {
      assert scanClauses[..i + 1][..i] == scanClauses[..i];
      if scanClauses[i].id !in pushable {
        local := local + [scanClauses[i]];
      }
    }
    assert scanClauses[..|scanClauses|] == scanClauses;
    var encoded := QualsToPlanPrivate(quals);
    plan := Plan(encoded, needed, ActualClauses(local));
  }

  lemma {:induction false} InLocal(clauses: seq<RestrictInfo>, pushedIds: set<nat>, info: RestrictInfo)
    ensures info in LocalClauses(clauses, pushedIds) <==> info in clauses && info.id !in pushedIds
  {
    if clauses != [] {
      InLocal(clauses[..|clauses| - 1], pushedIds, info);
      assert clauses == clauses[..|clauses| - 1] + [clauses[|clauses| - 1]];
    }
  }

  lemma {:induction false} InActual(clauses: seq<RestrictInfo>, info: RestrictInfo)
    ensures info in ActualClauses(clauses) <==> info in clauses && !info.pseudoconstant
  {
    if clauses != [] {
      InActual(clauses[..|clauses| - 1], info);
      assert clauses == clauses[..|clauses| - 1] + [clauses[|clauses| - 1]];
    }
  }

  lemma {:induction false} InPushable(cat: Catalog, infos: seq<RestrictInfo>, rel: nat, q: Qual)
    ensures q in PushableQuals(cat, infos, rel) <==>
      exists info :: info in infos && SimpleQual(cat, info, rel) == Some(q)
  {
    hide SimpleQual;
    if infos != [] {
      var front, last := infos[..|infos| - 1], infos[|infos| - 1];
      assert infos == front + [last];
      InPushable(cat, front, rel, q);
      assert last in infos;
    }
  }

  // ----- pruned rows

  /** Two rows are the same to an expression when they agree on the columns it mentions. */
  predicate Agree(r: Row, s: Row, attnos: set<AttrNumber>) {
    && |r.columns| == |s.columns| && r.system == s.system
    && forall a :: a in attnos ==> ColumnValue(r, a) == ColumnValue(s, a)
  }

  lemma {:induction false} EvalAgrees(m: Meaning, e: Expr, r: Row, s: Row)
    requires Agree(r, s, PullAttnos(e, m.rel))
    ensures Eval(m, e, r) == Eval(m, e, s)
    decreases e, 1
  {
    match e
    case Var(_, _, _) =>
    case Const(_) =>
    case OpExpr(_, args) => EvalAllAgrees(m, args, r, s);
    case Coercion(arg) => EvalAgrees(m, arg, r, s);
    case Call(_, args) => EvalAllAgrees(m, args, r, s);
  }

  lemma {:induction false} EvalAllAgrees(m: Meaning, es: seq<Expr>, r: Row, s: Row)
    requires Agree(r, s, PullAll(es, m.rel))
    ensures EvalAll(m, es, r) == EvalAll(m, es, s)
    decreases es, 0
  {
    if es != [] {
      EvalAgrees(m, es[0], r, s);
      EvalAllAgrees(m, es[1..], r, s);
    }
  }

  /** A row as stored: dropped columns read as null. */
  predicate Stored(row: Row, dropped: seq<bool>) {
    |row.columns| == |dropped| && forall i :: 0 <= i < |dropped| && dropped[i] ==> row.columns[i] == Null
  }

  /** What execute() yields for `row`: right on the needed columns, anything elsewhere but in dropped ones. */
  predicate Yields(yielded: Row, row: Row, needed: seq<AttrNumber>, dropped: seq<bool>) {
    && Stored(yielded, dropped) && yielded.system == row.system
    && forall a :: a in needed ==> ColumnValue(yielded, a) == ColumnValue(row, a)
  }

  /** The collected columns are enough for every expression of the query. */
  lemma NeededSuffices(all: seq<Expr>, rel: nat, dropped: seq<bool>, needed: seq<AttrNumber>, row: Row, yielded: Row)
    requires forall a :: a in needed <==>
      1 <= a <= |dropped| && !dropped[a - 1] && (a in PullAll(all, rel) || 0 in PullAll(all, rel))
    requires |dropped| < 0x8000 && Stored(row, dropped) && Yields(yielded, row, needed, dropped)
    ensures Agree(yielded, row, PullAll(all, rel))
  {
    forall a | a in PullAll(all, rel)
      ensures ColumnValue(yielded, a) == ColumnValue(row, a)
    {
      if a == 0 {
        forall i | 0 <= i < |dropped|
          ensures yielded.columns[i] == row.columns[i]
        {
          var b: AttrNumber := i + 1;
          assert b in needed || dropped[i];
          assert ColumnValue(yielded, b) == yielded.columns[i] && ColumnValue(row, b) == row.columns[i];
        }
        assert yielded.columns == row.columns;
      } else if 1 <= a <= |dropped| {
        assert a in needed || dropped[a - 1];
      }
    }
  }
}
