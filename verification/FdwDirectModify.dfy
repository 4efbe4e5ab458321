/**
 Direct modify (fdw.c): when one updateWhere()/deleteWhere() call may stand in
 for the scan-and-modify loop, that it changes the table in the same way, and
 that it is made once.
 */
module FdwDirectModify {
  import opened Options
  import opened FdwQuals
  import opened FdwRefinement

  datatype Operation = Insert | Update | Delete

  datatype RowTriggers = RowTriggers(updateBefore: bool, updateAfter: bool, deleteBefore: bool, deleteAfter: bool)

  /** A SET item: the column and the expression assigned to it. */
  datatype Assignment = Assignment(expr: Expr, attno: AttrNumber)

  /** The child of the ModifyTable node when it is a ForeignScan: its relations and its plan. */
  datatype ForeignScan = ForeignScan(baseRelids: set<nat>, plan: Plan)

  datatype Request = Request(
    operation: Operation,
    hasReturning: bool,
    child: Option<ForeignScan>,
    triggers: RowTriggers,
    hasUpdateWhere: bool,
    hasDeleteWhere: bool,
    assignments: seq<Assignment>,
    canSetTag: bool)

  datatype DirectPlan = DirectPlan(operation: Operation, quals: seq<seq<PlanNode>>, setValues: seq<seq<PlanNode>>,
                                   canSetTag: bool)

  predicate HasRowTrigger(r: Request) {
    || (r.operation.Update? && (r.triggers.updateBefore || r.triggers.updateAfter))
    || (r.operation.Delete? && (r.triggers.deleteBefore || r.triggers.deleteAfter))
  }

  predicate ConstantAssignment(a: Assignment) {
    StripCoercions(a.expr).Const? && a.attno >= 1
  }

  /** Nothing would be lost by skipping the per-row path. */
  predicate Acceptable(r: Request, target: nat) {
    && !r.operation.Insert? && !r.hasReturning
    && r.child.Some? && target in r.child.value.baseRelids && r.child.value.plan.local == []
    && !HasRowTrigger(r)
    && (if r.operation.Update? then r.hasUpdateWhere else r.hasDeleteWhere)
    && (r.operation.Update? ==> forall i :: 0 <= i < |r.assignments| ==> ConstantAssignment(r.assignments[i]))
  }

  /** What the per-row path shows outside the table, row by row, and the one call does not. */
  datatype Observed = TriggerFired(row: Row) | RowReturned(row: Row)

  function Shown(r: Request, row: Row): seq<Observed> {
    (if r.operation.Update? && r.triggers.updateBefore then [TriggerFired(row)] else [])
    + (if r.operation.Update? && r.triggers.updateAfter then [TriggerFired(row)] else [])
    + (if r.operation.Delete? && r.triggers.deleteBefore then [TriggerFired(row)] else [])
    + (if r.operation.Delete? && r.triggers.deleteAfter then [TriggerFired(row)] else [])
    + (if r.hasReturning then [RowReturned(row)] else [])
  }

  /** An UPDATE or DELETE straight over its scan, with nothing to recheck and nothing to show for any row. */
  ghost predicate MayBeDirect(r: Request, target: nat) {
    && (r.operation == Update || r.operation == Delete)
    && (forall row :: Shown(r, row) == [])
    && (match r.child case Some(scan) => target in scan.baseRelids && scan.plan.local == [] case None => false)
    && (r.operation == Update ==> r.hasUpdateWhere) && (r.operation == Delete ==> r.hasDeleteWhere)
    && (r.operation == Update ==>
          forall a :: a in r.assignments ==> a.attno >= 1 && exists value :: Wraps(a.expr, Const(value)))
  }

  lemma ConstantExactly(a: Assignment)
    ensures ConstantAssignment(a) <==> a.attno >= 1 && exists value :: Wraps(a.expr, Const(value))
  {
    hide Wraps, StripCoercions;
    StripsWrapped(a.expr);
    if StripCoercions(a.expr).Const? {
      assert Wraps(a.expr, Const(StripCoercions(a.expr).value));
    }
  }

  lemma ShowsNothing(r: Request)
    requires !r.operation.Insert?
    ensures (forall row :: Shown(r, row) == []) <==> !r.hasReturning && !HasRowTrigger(r)
  {
    var row := Row([], Null);
    assert |Shown(r, row)| == 0 ==> !r.hasReturning && !HasRowTrigger(r);
  }

  /** Direct modify is chosen exactly where skipping the per-row path loses nothing. */
  lemma {:induction false} AcceptableExactly(r: Request, target: nat)
    ensures Acceptable(r, target) <==> MayBeDirect(r, target)
  {
    hide Shown, HasRowTrigger, ConstantAssignment, Wraps;
    forall a: Assignment
      ensures ConstantAssignment(a) <==> a.attno >= 1 && exists value :: Wraps(a.expr, Const(value))
    {
      ConstantExactly(a);
    }
    if !r.operation.Insert? {
      ShowsNothing(r);
    }
    assert forall i :: 0 <= i < |r.assignments| ==> r.assignments[i] in r.assignments;
  }

  function SetQual(a: Assignment): Qual
    requires ConstantAssignment(a)
  {
    Qual(a.attno, "=", StripCoercions(a.expr).value, None)
  }

  /** What an accepted request is planned as. */
  predicate IsDirectPlan(r: Request, target: nat, plan: DirectPlan)
    requires Acceptable(r, target)
  {
    && plan.operation == r.operation && plan.canSetTag == r.canSetTag
    && plan.quals == r.child.value.plan.pushed
    && |plan.setValues| == (if r.operation.Update? then |r.assignments| else 0)
    && forall i :: 0 <= i < |plan.setValues| ==> plan.setValues[i] == EncodedQual(SetQual(r.assignments[i]))
  }

  method PlanDirectModify(r: Request, target: nat) returns (plan: Option<DirectPlan>)
    ensures plan.Some? <==> Acceptable(r, target)
    ensures plan.Some? ==> IsDirectPlan(r, target, plan.value)
  {
    if r.operation != Update && r.operation != Delete {
      return None;
    }
    if r.hasReturning {
      return None;
    }
    if r.child.None? || target !in r.child.value.baseRelids {
      return None;
    }
    var scan := r.child.value;
    if scan.plan.local != [] {
      return None;
    }
    if HasRowTrigger(r) {
      return None;
    }
    var hasMethod := if r.operation == Update then r.hasUpdateWhere else r.hasDeleteWhere;
    if !hasMethod {
      return None;
    }
    var setValues: seq<Qual> := [];
    if r.operation == Update {
      for i := 0 to |r.assignments|
        invariant |setValues| == i
        invariant forall k :: 0 <= k < i ==>
          ConstantAssignment(r.assignments[k]) && setValues[k] == SetQual(r.assignments[k])
      {
        var expr := StripCoercions(r.assignments[i].expr);
        if !expr.Const? || r.assignments[i].attno < 1 {
          return None;
        }
        setValues := setValues + [Qual(r.assignments[i].attno, "=", expr.value, None)];
      }
    }
    var encoded := QualsToPlanPrivate(setValues);
    plan := Some(DirectPlan(r.operation, scan.plan.pushed, encoded, r.canSetTag));
  }

  // ----- changing the table

  /** The value an UPDATE gives a column: the last expression assigned to it, evaluated on the row as it was. */
  function NewValue(m: Meaning, assignments: seq<Assignment>, before: Row, attno: nat): Value
    requires 1 <= attno <= |before.columns|
  {
    if assignments == [] then before.columns[attno - 1]
    else
      var last := assignments[|assignments| - 1];
      if last.attno == attno then Eval(m, last.expr, before)
      else NewValue(m, assignments[..|assignments| - 1], before, attno)
  }

  /** The row after the SET list: all its expressions at once. */
  function Assigned(m: Meaning, assignments: seq<Assignment>, before: Row): Row {
    before.(columns := seq(|before.columns|, j requires 0 <= j < |before.columns| =>
      NewValue(m, assignments, before, j + 1)))
  }

  /** The UPDATE or DELETE of the statement itself, by its WHERE clauses and its SET expressions. */
  function UpdateStatement(m: Meaning, infos: seq<RestrictInfo>, assignments: seq<Assignment>,
                           table: seq<Row>): seq<Row> {
    if table == [] then []
    else
      [if AllHold(m, infos, table[0]) then Assigned(m, assignments, table[0]) else table[0]]
      + UpdateStatement(m, infos, assignments, table[1..])
  }

  function DeleteStatement(m: Meaning, infos: seq<RestrictInfo>, table: seq<Row>): seq<Row> {
    if table == [] then []
    else (if AllHold(m, infos, table[0]) then [] else [table[0]]) + DeleteStatement(m, infos, table[1..])
  }

  /** How many rows the statement affects. */
  function Affected(m: Meaning, infos: seq<RestrictInfo>, table: seq<Row>): nat {
    if table == [] then 0 else (if AllHold(m, infos, table[0]) then 1 else 0) + Affected(m, infos, table[1..])
  }

  function SetColumn(row: Row, s: Qual): Row {
    if 1 <= s.attno <= |row.columns| then row.(columns := row.columns[s.attno - 1 := s.value]) else row
  }

  function SetColumns(row: Row, sets: seq<Qual>): Row
    decreases sets
  {
    if sets == [] then row else SetColumns(SetColumn(row, sets[0]), sets[1..])
  }

  /** What updateWhere() must do with the quals and values it is given. */
  function UpdateWhere(m: Meaning, quals: seq<Qual>, sets: seq<Qual>, table: seq<Row>): seq<Row> {
    if table == [] then []
    else
      [if AllSatisfied(m, quals, table[0]) then SetColumns(table[0], sets) else table[0]]
      + UpdateWhere(m, quals, sets, table[1..])
  }

  function DeleteWhere(m: Meaning, quals: seq<Qual>, table: seq<Row>): seq<Row> {
    if table == [] then []
    else (if AllSatisfied(m, quals, table[0]) then [] else [table[0]]) + DeleteWhere(m, quals, table[1..])
  }

  /** The rows the pushed quals let through, with the SET expressions evaluated on each. */
  function UpdateMatching(m: Meaning, quals: seq<Qual>, assignments: seq<Assignment>, table: seq<Row>): seq<Row> {
    if table == [] then []
    else
      [if AllSatisfied(m, quals, table[0]) then Assigned(m, assignments, table[0]) else table[0]]
      + UpdateMatching(m, quals, assignments, table[1..])
  }

  /** update(rowId, row) and delete(rowId) for the row identified by a column's value. */
  function UpdateById(table: seq<Row>, idColumn: AttrNumber, id: Value, row: Row): seq<Row> {
    if table == [] then []
    else
      [if ColumnValue(table[0], idColumn) == id then row else table[0]]
      + UpdateById(table[1..], idColumn, id, row)
  }

  function DeleteById(table: seq<Row>, idColumn: AttrNumber, id: Value): seq<Row> {
    if table == [] then []
    else
      (if ColumnValue(table[0], idColumn) == id then [] else [table[0]])
      + DeleteById(table[1..], idColumn, id)
  }

  /** The per-row path: for each scanned row, in scan order, the new row is computed from it and sent under its id. */
  function UpdateEach(m: Meaning, table: seq<Row>, idColumn: AttrNumber, scanned: seq<Row>,
                      assignments: seq<Assignment>): seq<Row>
    decreases |scanned|
  {
    if scanned == [] then table
    else
      var row := scanned[0];
      var changed := UpdateById(table, idColumn, ColumnValue(row, idColumn), Assigned(m, assignments, row));
      UpdateEach(m, changed, idColumn, scanned[1..], assignments)
  }

  function DeleteEach(table: seq<Row>, idColumn: AttrNumber, scanned: seq<Row>): seq<Row>
    decreases |scanned|
  {
    if scanned == [] then table
    else DeleteEach(DeleteById(table, idColumn, ColumnValue(scanned[0], idColumn)), idColumn, scanned[1..])
  }

  predicate UniqueIds(table: seq<Row>, idColumn: AttrNumber) {
    forall i, j :: 0 <= i < j < |table| ==> ColumnValue(table[i], idColumn) != ColumnValue(table[j], idColumn)
  }

  predicate IdAbsent(table: seq<Row>, idColumn: AttrNumber, id: Value) {
    forall i :: 0 <= i < |table| ==> ColumnValue(table[i], idColumn) != id
  }

  predicate KeepsId(assignments: seq<Assignment>, idColumn: AttrNumber) {
    forall i :: 0 <= i < |assignments| ==> assignments[i].attno != idColumn
  }

  lemma {:induction false} NewIdIsOld(m: Meaning, assignments: seq<Assignment>, before: Row, idColumn: AttrNumber)
    requires 1 <= idColumn <= |before.columns| && KeepsId(assignments, idColumn)
    ensures NewValue(m, assignments, before, idColumn) == before.columns[idColumn - 1]
    decreases |assignments|
  {
    if assignments != [] {
      NewIdIsOld(m, assignments[..|assignments| - 1], before, idColumn);
    }
  }

  lemma AssignedKeepsId(m: Meaning, assignments: seq<Assignment>, before: Row, idColumn: AttrNumber)
    requires idColumn >= 1 && KeepsId(assignments, idColumn)
    ensures ColumnValue(Assigned(m, assignments, before), idColumn) == ColumnValue(before, idColumn)
  {
    if idColumn <= |before.columns| {
      NewIdIsOld(m, assignments, before, idColumn);
    }
  }

  lemma {:induction false} UpdateAbsent(table: seq<Row>, rest: seq<Row>, idColumn: AttrNumber, id: Value, row: Row)
    requires IdAbsent(table, idColumn, id)
    ensures UpdateById(table + rest, idColumn, id, row) == table + UpdateById(rest, idColumn, id, row)
    decreases |table|
  {
    if table == [] {
      assert table + rest == rest;
    } else {
      assert (table + rest)[1..] == table[1..] + rest;
      UpdateAbsent(table[1..], rest, idColumn, id, row);
    }
  }

  lemma {:induction false} DeleteAbsent(table: seq<Row>, rest: seq<Row>, idColumn: AttrNumber, id: Value)
    requires IdAbsent(table, idColumn, id)
    ensures DeleteById(table + rest, idColumn, id) == table + DeleteById(rest, idColumn, id)
    decreases |table|
  {
    if table == [] {
      assert table + rest == rest;
    } else {
      assert (table + rest)[1..] == table[1..] + rest;
      DeleteAbsent(table[1..], rest, idColumn, id);
    }
  }

  /** With `done` finished, the per-row loop does to the rest of the table what changing every matching row would. */
  lemma {:induction false} UpdateRest(m: Meaning, quals: seq<Qual>, assignments: seq<Assignment>, idColumn: AttrNumber,
                                      done: seq<Row>, rest: seq<Row>)
    requires idColumn >= 1 && KeepsId(assignments, idColumn) && UniqueIds(done + rest, idColumn)
    ensures UpdateEach(m, done + rest, idColumn, Matching(m, quals, rest), assignments)
         == done + UpdateMatching(m, quals, assignments, rest)
    decreases |rest|
  {
    hide Assigned, AllSatisfied, ColumnValue, UpdateById, KeepsId;
    if rest == [] {
      assert done + rest == done;
    } else {
      var row, tail := rest[0], rest[1..];
      assert done + rest == (done + [row]) + tail;
      if AllSatisfied(m, quals, row) {
        var changed := Assigned(m, assignments, row);
        AssignedKeepsId(m, assignments, row, idColumn);
        TouchesOne(done, row, tail, idColumn, changed);
        var scanned := Matching(m, quals, rest);
        assert scanned[0] == row && scanned[1..] == Matching(m, quals, tail);
        UpdateRest(m, quals, assignments, idColumn, done + [changed], tail);
      } else {
        assert Matching(m, quals, rest) == Matching(m, quals, tail);
        UpdateRest(m, quals, assignments, idColumn, done + [row], tail);
      }
    }
  }

  lemma TouchesOne(done: seq<Row>, row: Row, tail: seq<Row>, idColumn: AttrNumber, changed: Row)
    requires UniqueIds((done + [row]) + tail, idColumn) && ColumnValue(changed, idColumn) == ColumnValue(row, idColumn)
    ensures UpdateById((done + [row]) + tail, idColumn, ColumnValue(row, idColumn), changed)
       == (done + [changed]) + tail
    ensures DeleteById((done + [row]) + tail, idColumn, ColumnValue(row, idColumn)) == done + tail
    ensures UniqueIds((done + [changed]) + tail, idColumn) && UniqueIds(done + tail, idColumn)
  {
    hide ColumnValue, UniqueIds, IdAbsent, UpdateById, DeleteById;
    var id := ColumnValue(row, idColumn);
    OthersDiffer(done, row, tail, idColumn);
    StaysUnique(done, row, tail, idColumn, changed);
    assert (done + [row]) + tail == done + ([row] + tail);
    UpdateAbsent(done, [row] + tail, idColumn, id, changed);
    DeleteAbsent(done, [row] + tail, idColumn, id);
    TouchesHead(row, tail, idColumn, changed);
    assert (done + [changed]) + tail == done + ([changed] + tail);
  }

  lemma TouchesHead(row: Row, tail: seq<Row>, idColumn: AttrNumber, changed: Row)
    requires IdAbsent(tail, idColumn, ColumnValue(row, idColumn))
    ensures UpdateById([row] + tail, idColumn, ColumnValue(row, idColumn), changed) == [changed] + tail
    ensures DeleteById([row] + tail, idColumn, ColumnValue(row, idColumn)) == tail
  {
    hide ColumnValue, IdAbsent;
    var id := ColumnValue(row, idColumn);
    assert ([row] + tail)[1..] == tail && tail + [] == tail;
    UpdateAbsent(tail, [], idColumn, id, changed);
    DeleteAbsent(tail, [], idColumn, id);
  }

  lemma OthersDiffer(done: seq<Row>, row: Row, tail: seq<Row>, idColumn: AttrNumber)
    requires UniqueIds((done + [row]) + tail, idColumn)
    ensures IdAbsent(done, idColumn, ColumnValue(row, idColumn)) && IdAbsent(tail, idColumn, ColumnValue(row, idColumn))
  {
    hide ColumnValue;
    var all := (done + [row]) + tail;
    assert all[|done|] == row;
    assert forall i :: 0 <= i < |done| ==> all[i] == done[i];
    forall i | 0 <= i < |tail|
      ensures ColumnValue(tail[i], idColumn) != ColumnValue(row, idColumn)
    {
      assert all[|done| + 1 + i] == tail[i];
    }
  }

  lemma StaysUnique(done: seq<Row>, row: Row, tail: seq<Row>, idColumn: AttrNumber, changed: Row)
    requires UniqueIds((done + [row]) + tail, idColumn) && ColumnValue(changed, idColumn) == ColumnValue(row, idColumn)
    ensures UniqueIds((done + [changed]) + tail, idColumn) && UniqueIds(done + tail, idColumn)
  {
    hide ColumnValue;
    var all, after, shorter := (done + [row]) + tail, (done + [changed]) + tail, done + tail;
    assert all[|done|] == row;
    assert forall i :: 0 <= i < |all| ==> ColumnValue(after[i], idColumn) == ColumnValue(all[i], idColumn);
    forall i, j | 0 <= i < j < |shorter|
      ensures ColumnValue(shorter[i], idColumn) != ColumnValue(shorter[j], idColumn)
    {
      var i', j' := if i < |done| then i else i + 1, if j < |done| then j else j + 1;
      assert shorter[i] == all[i'] && shorter[j] == all[j'];
    }
  }

  lemma {:induction false} DeleteRest(m: Meaning, quals: seq<Qual>, idColumn: AttrNumber, done: seq<Row>,
                                      rest: seq<Row>)
    requires UniqueIds(done + rest, idColumn)
    ensures DeleteEach(done + rest, idColumn, Matching(m, quals, rest)) == done + DeleteWhere(m, quals, rest)
    decreases |rest|
  {
    hide AllSatisfied, ColumnValue, DeleteById;
    if rest == [] {
      assert done + rest == done;
    } else {
      var row, tail := rest[0], rest[1..];
      assert done + rest == (done + [row]) + tail;
      TouchesOne(done, row, tail, idColumn, row);
      if AllSatisfied(m, quals, row) {
        var scanned := Matching(m, quals, rest);
        assert scanned[0] == row && scanned[1..] == Matching(m, quals, tail);
        DeleteRest(m, quals, idColumn, done, tail);
      } else {
        assert Matching(m, quals, rest) == Matching(m, quals, tail);
        DeleteRest(m, quals, idColumn, done + [row], tail);
      }
    }
  }

  // ----- an accepted request

  /** The planner puts a gating node over a scan with pseudoconstant clauses, so the child is no ForeignScan then. */
  predicate Ungated(infos: seq<RestrictInfo>) {
    forall info :: info in infos ==> !info.pseudoconstant
  }

  /** With nothing left to recheck, the pushed quals are the WHERE clause. */
  lemma PushedIsWhere(cat: Catalog, m: Meaning, q: Query, scanClauses: seq<RestrictInfo>, plan: Plan, row: Row)
    requires Sound(cat, m) && WellPlanned(q) && q.rel == m.rel && Ungated(q.infos)
    requires SameMembers(q.infos, scanClauses) && IsPlanFor(cat, q, scanClauses, plan) && plan.local == []
    requires Stored(row, q.dropped)
    ensures AllHold(m, q.infos, row) <==> AllSatisfied(m, DecodedQuals(plan), row)
  {
    hide IsPlanFor, Sound, AllSatisfied, DecodedQuals;
    YieldsItself(row, plan, q);
    RowPasses(cat, m, q, scanClauses, plan, row, row);
  }

  /** Rows the pushed quals let through are the rows the statement affects. */
  lemma {:induction false} WhereIsStatement(
    cat: Catalog, m: Meaning, q: Query, scanClauses: seq<RestrictInfo>, plan: Plan,
    assignments: seq<Assignment>, table: seq<Row>)
    requires Sound(cat, m) && WellPlanned(q) && q.rel == m.rel && Ungated(q.infos)
    requires SameMembers(q.infos, scanClauses) && IsPlanFor(cat, q, scanClauses, plan) && plan.local == []
    requires AllStored(table, q.dropped)
    ensures UpdateMatching(m, DecodedQuals(plan), assignments, table) == UpdateStatement(m, q.infos, assignments, table)
    ensures DeleteWhere(m, DecodedQuals(plan), table) == DeleteStatement(m, q.infos, table)
    ensures |Matching(m, DecodedQuals(plan), table)| == Affected(m, q.infos, table)
    decreases |table|
  {
    hide IsPlanFor, Sound, AllSatisfied, DecodedQuals, Assigned, AllHold, WellPlanned, Stored, SameMembers, Ungated;
    if table != [] {
      PushedIsWhere(cat, m, q, scanClauses, plan, table[0]);
      WhereIsStatement(cat, m, q, scanClauses, plan, assignments, table[1..]);
    }
  }

  // ----- constant assignments

  predicate AllConstant(assignments: seq<Assignment>) {
    forall i :: 0 <= i < |assignments| ==> ConstantAssignment(assignments[i])
  }

  /** The SET values as updateWhere() is given them. */
  function SetQuals(assignments: seq<Assignment>): seq<Qual>
    requires AllConstant(assignments)
  {
    seq(|assignments|, i requires 0 <= i < |assignments| => SetQual(assignments[i]))
  }

  lemma {:induction false} SetColumnsSnoc(row: Row, sets: seq<Qual>, s: Qual)
    ensures SetColumns(row, sets + [s]) == SetColumn(SetColumns(row, sets), s)
    decreases |sets|
  {
    if sets == [] {
      assert sets + [s] == [s] && [s][1..] == [];
    } else {
      assert (sets + [s])[1..] == sets[1..] + [s];
      SetColumnsSnoc(SetColumn(row, sets[0]), sets[1..], s);
    }
  }

  /** The values sent once give each row what its own expressions would, because they are constants. */
  lemma {:induction false} ConstantsAssign(m: Meaning, assignments: seq<Assignment>, row: Row)
    requires AllConstant(assignments)
    ensures SetColumns(row, SetQuals(assignments)) == Assigned(m, assignments, row)
    decreases |assignments|
  {
    hide SetColumns, StripCoercions;
    if assignments == [] {
      NothingSet(row);
      assert Assigned(m, assignments, row).columns == row.columns;
    } else {
      var front, last := assignments[..|assignments| - 1], assignments[|assignments| - 1];
      ConstantsAssign(m, front, row);
      assert SetQuals(assignments) == SetQuals(front) + [SetQual(last)];
      SetColumnsSnoc(row, SetQuals(front), SetQual(last));
      assert Eval(m, last.expr, row) == SetQual(last).value by {
        ConstantValue(m, last.expr, row);
      }
      assert SetColumn(Assigned(m, front, row), SetQual(last)).columns == Assigned(m, assignments, row).columns;
    }
  }

  lemma NothingSet(row: Row)
    ensures SetColumns(row, []) == row
  {
  }

  lemma ConstantValue(m: Meaning, e: Expr, row: Row)
    requires StripCoercions(e).Const?
    ensures Eval(m, e, row) == StripCoercions(e).value
  {
    StripKeepsValue(m, e, row);
  }

  lemma {:induction false} CallIsMatching(m: Meaning, quals: seq<Qual>, assignments: seq<Assignment>, table: seq<Row>)
    requires AllConstant(assignments)
    ensures UpdateWhere(m, quals, SetQuals(assignments), table) == UpdateMatching(m, quals, assignments, table)
    decreases |table|
  {
    hide SetColumns, Assigned, SetQuals, AllSatisfied;
    if table != [] {
      ConstantsAssign(m, assignments, table[0]);
      CallIsMatching(m, quals, assignments, table[1..]);
    }
  }

  function LastSet(sets: seq<Qual>, attno: nat): Option<Value> {
    if sets == [] then None
    else if sets[|sets| - 1].attno == attno then Some(sets[|sets| - 1].value)
    else LastSet(sets[..|sets| - 1], attno)
  }

  lemma {:induction false} SetColumnsAt(row: Row, sets: seq<Qual>, attno: nat)
    requires 1 <= attno <= |row.columns|
    ensures |SetColumns(row, sets).columns| == |row.columns|
    ensures SetColumns(row, sets).columns[attno - 1]
         == if LastSet(sets, attno).Some? then LastSet(sets, attno).value else row.columns[attno - 1]
    decreases |sets|
  {
    if sets != [] {
      var front, last := sets[..|sets| - 1], sets[|sets| - 1];
      assert sets == front + [last];
      SetColumnsSnoc(row, front, last);
      SetColumnsAt(row, front, attno);
    }
  }

  /** Constants are all one call can carry: no list of values does for an expression that depends on the row. */
  lemma {:induction false} NoValuesFit(m: Meaning, assignments: seq<Assignment>, sets: seq<Qual>, r: Row, s: Row,
                                       attno: nat)
    requires 1 <= attno <= |r.columns| && attno <= |s.columns|
    requires NewValue(m, assignments, r, attno) != NewValue(m, assignments, s, attno)
    requires NewValue(m, assignments, r, attno) != r.columns[attno - 1]
    ensures SetColumns(r, sets) != Assigned(m, assignments, r) || SetColumns(s, sets) != Assigned(m, assignments, s)
  {
    hide SetColumns, NewValue, LastSet;
    SetColumnsAt(r, sets, attno);
    SetColumnsAt(s, sets, attno);
    assert Assigned(m, assignments, r).columns[attno - 1] == NewValue(m, assignments, r, attno);
    assert Assigned(m, assignments, s).columns[attno - 1] == NewValue(m, assignments, s, attno);
  }

  // ----- an accepted request and its statement

  /** The statement's effect on the table. */
  function StatementResult(m: Meaning, r: Request, infos: seq<RestrictInfo>, table: seq<Row>): seq<Row> {
    if r.operation.Update? then UpdateStatement(m, infos, r.assignments, table) else DeleteStatement(m, infos, table)
  }

  /** The effect of the per-row path. */
  function LoopResult(m: Meaning, r: Request, quals: seq<Qual>, idColumn: AttrNumber, table: seq<Row>): seq<Row> {
    if r.operation.Update? then UpdateEach(m, table, idColumn, Matching(m, quals, table), r.assignments)
    else DeleteEach(table, idColumn, Matching(m, quals, table))
  }

  /** What the JS method must do when it is called. */
  function CallResult(m: Meaning, call: DirectCall, table: seq<Row>): seq<Row> {
    if call.operation.Update? then UpdateWhere(m, call.quals, call.sets, table) else DeleteWhere(m, call.quals, table)
  }

  /** The call that BeginDirectModify decodes from the plan is the one the request means. */
  lemma CallOfPlan(r: Request, target: nat, plan: DirectPlan, call: DirectCall)
    requires Acceptable(r, target) && IsDirectPlan(r, target, plan) && Decodable(plan) && IsCallFor(call, plan)
    ensures call.operation == r.operation && call.quals == DecodedQuals(r.child.value.plan)
    ensures r.operation.Update? ==> AllConstant(r.assignments) && call.sets == SetQuals(r.assignments)
  {
    forall i | 0 <= i < |plan.setValues|
      ensures DecodedQual(plan.setValues[i]) == SetQual(r.assignments[i])
    {
      DecodeEncoded(SetQual(r.assignments[i]));
    }
  }

  /** What is planned for an accepted request can be decoded. */
  lemma PlanIsDecodable(cat: Catalog, q: Query, scanClauses: seq<RestrictInfo>, r: Request, target: nat,
                        plan: DirectPlan)
    requires Acceptable(r, target) && IsDirectPlan(r, target, plan)
    requires IsPlanFor(cat, q, scanClauses, r.child.value.plan)
    ensures Decodable(plan)
  {
    hide PushableQuals, LocalClauses, ActualClauses;
    forall i | 0 <= i < |plan.quals|
      ensures IsTriple(plan.quals[i])
    {
      DecodeEncoded(PushableQuals(cat, q.infos, q.rel)[i]);
    }
    forall i | 0 <= i < |plan.setValues|
      ensures IsTriple(plan.setValues[i])
    {
      DecodeEncoded(SetQual(r.assignments[i]));
    }
  }

  /**
   Whenever direct modify is chosen, the one call leaves the table the statement
   asks for, and reports as many rows as the statement affects; and so does the
   per-row loop, with one call a row, if it does not assign the row-id column.
   */
  lemma {:induction false} DirectModifyAgrees(
    cat: Catalog, m: Meaning, q: Query, scanClauses: seq<RestrictInfo>, r: Request, target: nat,
    plan: DirectPlan, call: DirectCall, idColumn: AttrNumber, table: seq<Row>)
    requires Acceptable(r, target) && IsDirectPlan(r, target, plan) && Decodable(plan) && IsCallFor(call, plan)
    requires Sound(cat, m) && WellPlanned(q) && q.rel == m.rel && Ungated(q.infos)
    requires SameMembers(q.infos, scanClauses) && IsPlanFor(cat, q, scanClauses, r.child.value.plan)
    requires AllStored(table, q.dropped)
    ensures CallResult(m, call, table) == StatementResult(m, r, q.infos, table)
    ensures |Matching(m, call.quals, table)| == Affected(m, q.infos, table)
    ensures idColumn >= 1 && UniqueIds(table, idColumn)
            && (r.operation.Update? ==> KeepsId(r.assignments, idColumn)) ==>
      LoopResult(m, r, call.quals, idColumn, table) == StatementResult(m, r, q.infos, table)
  {
    hide IsPlanFor, Sound, AllSatisfied, DecodedQuals, Assigned, AllHold, WellPlanned, Stored, SameMembers, Ungated,
         IsDirectPlan, IsCallFor, SetQuals, KeepsId, UniqueIds, UpdateEach, DeleteEach, AllConstant, Decodable;
    CallOfPlan(r, target, plan, call);
    WhereIsStatement(cat, m, q, scanClauses, r.child.value.plan, r.assignments, table);
    if r.operation.Update? {
      CallIsMatching(m, call.quals, r.assignments, table);
    }
    assert [] + table == table;
    if idColumn >= 1 && UniqueIds(table, idColumn) {
      if r.operation.Update? && KeepsId(r.assignments, idColumn) {
        UpdateRest(m, call.quals, r.assignments, idColumn, [], table);
        assert [] + UpdateMatching(m, call.quals, r.assignments, table)
           == UpdateMatching(m, call.quals, r.assignments, table);
      }
      if r.operation.Delete? {
        DeleteRest(m, call.quals, idColumn, [], table);
        assert [] + DeleteWhere(m, call.quals, table) == DeleteWhere(m, call.quals, table);
      }
    }
  }

  // ----- assigning the row-id column

  /** A number of columns past the row-id column and every assigned one. */
  function Width(assignments: seq<Assignment>, idColumn: AttrNumber): (w: nat)
    ensures w > idColumn && forall i :: 0 <= i < |assignments| ==> w > assignments[i].attno
  {
    if assignments == [] then (if idColumn < 0 then 0 else idColumn + 1)
    else
      var w := Width(assignments[1..], idColumn);
      if assignments[0].attno < w then w else assignments[0].attno + 1
  }

  /** A row with a given id and a given last column. */
  function Marked(width: nat, idColumn: AttrNumber, id: Value, mark: Value): Row {
    Row(seq(width, i requires 0 <= i < width =>
          if i == idColumn - 1 then id else if i == width - 1 then mark else Null), Null)
  }

  lemma {:induction false} UnassignedStays(m: Meaning, assignments: seq<Assignment>, before: Row, attno: nat)
    requires 1 <= attno <= |before.columns| && forall i :: 0 <= i < |assignments| ==> assignments[i].attno != attno
    ensures NewValue(m, assignments, before, attno) == before.columns[attno - 1]
    decreases |assignments|
  {
    if assignments != [] {
      UnassignedStays(m, assignments[..|assignments| - 1], before, attno);
    }
  }

  /** Once the row-id column is assigned a constant, its value no longer depends on the row. */
  lemma {:induction false} NewIdIsConstant(m: Meaning, assignments: seq<Assignment>, r: Row, s: Row,
                                           idColumn: AttrNumber)
    requires |r.columns| == |s.columns| && 1 <= idColumn <= |r.columns|
    requires AllConstant(assignments) && !KeepsId(assignments, idColumn)
    ensures NewValue(m, assignments, r, idColumn) == NewValue(m, assignments, s, idColumn)
    decreases |assignments|
  {
    hide StripCoercions;
    var front, last := assignments[..|assignments| - 1], assignments[|assignments| - 1];
    if last.attno == idColumn {
      ConstantValue(m, last.expr, r);
      ConstantValue(m, last.expr, s);
    } else {
      assert !KeepsId(front, idColumn) by {
        var i :| 0 <= i < |assignments| && assignments[i].attno == idColumn;
        assert front[i] == assignments[i];
      }
      NewIdIsConstant(m, front, r, s, idColumn);
    }
  }

  lemma TwoRows(m: Meaning, a: Row, b: Row, assignments: seq<Assignment>, idColumn: AttrNumber)
    requires ColumnValue(a, idColumn) != ColumnValue(b, idColumn)
    requires ColumnValue(Assigned(m, assignments, a), idColumn) == ColumnValue(b, idColumn)
    ensures UpdateEach(m, [a, b], idColumn, Matching(m, [], [a, b]), assignments)
         == [Assigned(m, assignments, b), Assigned(m, assignments, b)]
    ensures UpdateMatching(m, [], assignments, [a, b]) == [Assigned(m, assignments, a), Assigned(m, assignments, b)]
  {
    hide Assigned, ColumnValue;
    var a', b' := Assigned(m, assignments, a), Assigned(m, assignments, b);
    assert [a, b][1..] == [b] && [a', b][1..] == [b];
    assert Matching(m, [], [b]) == [b] && Matching(m, [], [a, b]) == [a, b];
    assert UpdateMatching(m, [], assignments, [b]) == [b'];
    assert UpdateById([b], idColumn, ColumnValue(a, idColumn), a') == [b];
    assert UpdateById([a, b], idColumn, ColumnValue(a, idColumn), a') == [a', b];
    assert UpdateById([b], idColumn, ColumnValue(b, idColumn), b') == [b'];
    assert UpdateById([a', b], idColumn, ColumnValue(b, idColumn), b') == [b', b'];
    assert UpdateEach(m, [b', b'], idColumn, [], assignments) == [b', b'];
    assert UpdateEach(m, [a', b], idColumn, [b], assignments) == [b', b'];
  }

  /** Assigning the row-id column parts the two paths: a row moved onto a later row's id is updated again. */
  lemma {:induction false} AssigningTheIdDiffers(m: Meaning, assignments: seq<Assignment>, idColumn: AttrNumber)
    returns (table: seq<Row>)
    requires idColumn >= 1 && AllConstant(assignments) && !KeepsId(assignments, idColumn)
    ensures UniqueIds(table, idColumn)
    ensures UpdateEach(m, table, idColumn, Matching(m, [], table), assignments)
         != UpdateWhere(m, [], SetQuals(assignments), table)
  {
    hide UpdateEach, UpdateWhere, UpdateMatching, KeepsId, NewValue, SetQuals, AllConstant;
    var w := Width(assignments, idColumn);
    var id := NewValue(m, assignments, Marked(w, idColumn, Null, Null), idColumn);
    var a := Marked(w, idColumn, if id == Null then Datum(0) else Null, Datum(1));
    var b := Marked(w, idColumn, id, Datum(2));
    NewIdIsConstant(m, assignments, Marked(w, idColumn, Null, Null), a, idColumn);
    UnassignedStays(m, assignments, a, w);
    UnassignedStays(m, assignments, b, w);
    assert Assigned(m, assignments, a).columns[w - 1] != Assigned(m, assignments, b).columns[w - 1];
    TwoRows(m, a, b, assignments, idColumn);
    table := [a, b];
    CallIsMatching(m, [], assignments, table);
  }

  /**
   The per-row loop and the single call agree on every table with unique row ids exactly when the id
   is not assigned.
   */
  lemma {:induction false} PathsAgreeExactly(m: Meaning, assignments: seq<Assignment>, idColumn: AttrNumber)
    requires idColumn >= 1 && AllConstant(assignments)
    ensures KeepsId(assignments, idColumn)
       <==> forall quals, table :: UniqueIds(table, idColumn) ==>
              UpdateEach(m, table, idColumn, Matching(m, quals, table), assignments)
              == UpdateWhere(m, quals, SetQuals(assignments), table)
  {
    hide UpdateEach, UpdateWhere, UpdateMatching, Matching, UniqueIds, KeepsId, SetQuals, AllConstant;
    if KeepsId(assignments, idColumn) {
      forall quals, table | UniqueIds(table, idColumn)
        ensures UpdateEach(m, table, idColumn, Matching(m, quals, table), assignments)
             == UpdateWhere(m, quals, SetQuals(assignments), table)
      {
        assert [] + table == table;
        UpdateRest(m, quals, assignments, idColumn, [], table);
        CallIsMatching(m, quals, assignments, table);
        assert [] + UpdateMatching(m, quals, assignments, table) == UpdateMatching(m, quals, assignments, table);
      }
    } else {
      var table := AssigningTheIdDiffers(m, assignments, idColumn);
      assert UniqueIds(table, idColumn);
    }
  }

  // ----- execution

  /** One updateWhere()/deleteWhere() call: it returns a count or throws. */
  datatype Outcome = Returned(count: nat) | Threw

  datatype DirectCall = DirectCall(operation: Operation, quals: seq<Qual>, sets: seq<Qual>)

  datatype DirectState = DirectState(call: DirectCall, canSetTag: bool, executed: bool)

  class DirectModifyNode {
    var fdwState: Option<DirectState>
    var processed: nat // es_processed
    var calls: seq<DirectCall> // the JS calls made

    constructor ()
      ensures fdwState == None && processed == 0 && calls == []
    {
      fdwState, processed, calls := None, 0, [];
    }

    method Begin(plan: DirectPlan, explainOnly: bool)
      requires Decodable(plan)
      modifies this
      ensures processed == old(processed) && calls == old(calls)
      ensures explainOnly ==> fdwState == old(fdwState)
      ensures !explainOnly ==> fdwState.Some? && !fdwState.value.executed && fdwState.value.canSetTag == plan.canSetTag
      ensures !explainOnly ==> IsCallFor(fdwState.value.call, plan)
    {
      if explainOnly {
        return;
      }
      var quals := QualsFromPlanPrivate(plan.quals);
      var sets := QualsFromPlanPrivate(plan.setValues);
      fdwState := Some(DirectState(DirectCall(plan.operation, quals, sets), plan.canSetTag, false));
    }

    /** `outcome` is what the JS call would do if it is made; `failed` is an ERROR raised. */
    method Iterate(outcome: Outcome) returns (failed: bool)
      modifies this
      ensures (View(), failed) == IterateStep(old(View()), outcome)
    {
      failed := false;
      if fdwState.None? || fdwState.value.executed {
        return;
      }
      fdwState := Some(fdwState.value.(executed := true));
      calls := calls + [fdwState.value.call];
      if outcome.Threw? {
        return true;
      }
      if fdwState.value.canSetTag {
        processed := processed + outcome.count;
      }
    }

    function View(): NodeView
      reads this
    {
      NodeView(fdwState, processed, calls)
    }
  }

  predicate Decodable(plan: DirectPlan) {
    && (forall i :: 0 <= i < |plan.quals| ==> IsTriple(plan.quals[i]))
    && (forall i :: 0 <= i < |plan.setValues| ==> IsTriple(plan.setValues[i]))
  }

  predicate IsCallFor(call: DirectCall, plan: DirectPlan)
    requires Decodable(plan)
  {
    && call.operation == plan.operation
    && |call.quals| == |plan.quals| && |call.sets| == |plan.setValues|
    && (forall i :: 0 <= i < |plan.quals| ==> call.quals[i] == DecodedQual(plan.quals[i]))
    && (forall i :: 0 <= i < |plan.setValues| ==> call.sets[i] == DecodedQual(plan.setValues[i]))
  }

  datatype NodeView = NodeView(fdwState: Option<DirectState>, processed: nat, calls: seq<DirectCall>)

  function IterateStep(v: NodeView, outcome: Outcome): (NodeView, bool) {
    if v.fdwState.None? || v.fdwState.value.executed then (v, false)
    else
      var state := v.fdwState.value;
      var counted := if outcome.Returned? && state.canSetTag then outcome.count else 0;
      (NodeView(Some(state.(executed := true)), v.processed + counted, v.calls + [state.call]), outcome.Threw?)
  }

  function IterateAll(v: NodeView, outcomes: seq<Outcome>): NodeView
    decreases outcomes
  {
    if outcomes == [] then v else IterateAll(IterateStep(v, outcomes[0]).0, outcomes[1..])
  }

  /** However often the node is iterated, the JS method runs once and its count is added once. */
  lemma {:induction false} ExecutesOnce(v: NodeView, outcomes: seq<Outcome>)
    ensures v.fdwState.None? || v.fdwState.value.executed ==> IterateAll(v, outcomes) == v
    ensures v.fdwState.Some? && !v.fdwState.value.executed && outcomes != [] ==>
      var state := v.fdwState.value;
      && IterateAll(v, outcomes).calls == v.calls + [state.call]
      && IterateAll(v, outcomes).processed
         == v.processed + if outcomes[0].Returned? && state.canSetTag then outcomes[0].count else 0
    decreases |outcomes|
  {
    if outcomes != [] {
      ExecutesOnce(IterateStep(v, outcomes[0]).0, outcomes[1..]);
    }
  }

  // ----- from the request to the table

  /** The JS method does its part: it changes the table as it is asked to and returns how many rows matched. */
  predicate Honoured(m: Meaning, call: DirectCall, outcome: Outcome, table: seq<Row>, after: seq<Row>) {
    outcome == Returned(|Matching(m, call.quals, table)|) && after == CallResult(m, call, table)
  }

  /**
   The whole of direct modify: it is chosen exactly when it may be; then, over
   any positive number of Iterate calls, one JS call is made, an error if it
   throws; and if that call does its part the table becomes the statement's and
   es_processed grows by the number of rows the statement affects, or not at all
   without can_set_tag.
   */
  method RunDirectModify(
    node: DirectModifyNode, r: Request, target: nat, outcomes: seq<Outcome>,
    ghost cat: Catalog, ghost m: Meaning, ghost q: Query, ghost scanClauses: seq<RestrictInfo>,
    ghost table: seq<Row>, ghost after: seq<Row>)
    returns (chosen: bool, failed: seq<bool>)
    requires Sound(cat, m) && WellPlanned(q) && q.rel == m.rel && Ungated(q.infos)
    requires r.child.Some? ==> SameMembers(q.infos, scanClauses) && IsPlanFor(cat, q, scanClauses, r.child.value.plan)
    requires AllStored(table, q.dropped)
    modifies node
    ensures chosen <==> MayBeDirect(r, target)
    ensures chosen ==>
      |failed| == |outcomes| && forall i :: 0 <= i < |outcomes| ==> (failed[i] <==> i == 0 && outcomes[0].Threw?)
    ensures chosen && outcomes != [] ==>
      && |node.calls| == |old(node.calls)| + 1
      && var call := node.calls[|old(node.calls)|];
         Honoured(m, call, outcomes[0], table, after) ==>
           && after == StatementResult(m, r, q.infos, table)
           && node.processed == old(node.processed) + if r.canSetTag then Affected(m, q.infos, table) else 0
    ensures !chosen ==> node.View() == old(node.View())
  {
    hide IsPlanFor, Sound, WellPlanned, Ungated, SameMembers, AllStored, IsDirectPlan, IsCallFor, Decodable, CallResult,
         StatementResult, Acceptable, Matching, MayBeDirect;
    AcceptableExactly(r, target);
    var plan := PlanDirectModify(r, target);
    if plan.None? {
      return false, [];
    }
    AcceptableHasChild(r, target);
    PlanIsDecodable(cat, q, scanClauses, r, target, plan.value);
    node.Begin(plan.value, false);
    PlanKeepsTag(r, target, plan.value);
    ghost var begun, call := node.View(), node.fdwState.value.call;
    ExecutesOnce(begun, outcomes);
    DirectModifyAgrees(cat, m, q, scanClauses, r, target, plan.value, call, 0, table);
    failed := Iterate(node, outcomes);
    chosen := true;
  }

  lemma AcceptableHasChild(r: Request, target: nat)
    requires Acceptable(r, target)
    ensures r.child.Some?
  {
  }

  lemma PlanKeepsTag(r: Request, target: nat, plan: DirectPlan)
    requires Acceptable(r, target) && IsDirectPlan(r, target, plan)
    ensures plan.canSetTag == r.canSetTag
  {
  }

  /** The executor iterating the node: only the first call can raise an error. */
  method Iterate(node: DirectModifyNode, outcomes: seq<Outcome>) returns (failed: seq<bool>)
    requires node.fdwState.Some? && !node.fdwState.value.executed
    modifies node
    ensures node.View() == IterateAll(old(node.View()), outcomes)
    ensures |failed| == |outcomes| && forall i :: 0 <= i < |outcomes| ==> (failed[i] <==> i == 0 && outcomes[0].Threw?)
  {
    assert outcomes[0..] == outcomes;
    failed := [];
    for k := 0 to |outcomes|
      invariant IterateAll(old(node.View()), outcomes) == IterateAll(node.View(), outcomes[k..])
      invariant node.fdwState.Some? && (node.fdwState.value.executed <==> k > 0)
      invariant |failed| == k && forall i :: 0 <= i < k ==> (failed[i] <==> i == 0 && outcomes[0].Threw?)
    {
      assert outcomes[k..][1..] == outcomes[k + 1..];
      var threw := node.Iterate(outcomes[k]);
      failed := failed + [threw];
    }
  }
}
