/**
 A foreign scan from planning to its last row (fdw.c): the plan, the execute()
 call, the slots the executor reads, the local recheck and the projection.
 */
module FdwForeignScan {
  import opened Options
  import opened FdwQuals
  import opened FdwRefinement
  import opened FdwScan

  /** A module's execute(): the rows its iterator yields for each call. */
  type Execute = Arguments -> seq<Row>

  /** For every call it yields one row for each that satisfies the quals, right on the needed columns. */
  ghost predicate KeepsContract(m: Meaning, table: seq<Row>, dropped: seq<bool>, execute: Execute) {
    forall a: Arguments ::
      var matching := Matching(m, a.quals, table);
      && |execute(a)| == |matching|
      && forall i :: 0 <= i < |matching| ==> Yields(execute(a)[i], matching[i], a.needed, dropped)
  }

  lemma DecodedAreArguments(plan: Plan, sortkeys: seq<int>)
    requires WellEncoded(ScanPlan(plan.pushed, plan.needed, sortkeys))
    ensures ArgumentsOf(ScanPlan(plan.pushed, plan.needed, sortkeys))
         == Arguments(DecodedQuals(plan), plan.needed, sortkeys)
  {
  }

  lemma {:induction false} SelectSnoc(m: Meaning, infos: seq<RestrictInfo>, targets: seq<Expr>, rows: seq<Row>,
                                      row: Row)
    ensures Select(m, infos, targets, rows + [row])
         == Select(m, infos, targets, rows) + if AllHold(m, infos, row) then [EvalAll(m, targets, row)] else []
    decreases |rows|
  {
    hide AllHold, EvalAll;
    if rows == [] {
      assert rows + [row] == [row] && [row][1..] == [];
    } else {
      assert (rows + [row])[1..] == rows[1..] + [row];
      SelectSnoc(m, infos, targets, rows[1..], row);
    }
  }

  /**
   The answer of a query is that of its table: what is planned is executed, each slot is rechecked against
   the local clauses and projected, and after the last row the slot is empty.
   */
  method AnswerQuery(cat: Catalog, m: Meaning, q: Query, scanClauses: seq<RestrictInfo>, sortkeys: seq<int>,
                     execute: Execute, node: ScanNode, ghost table: seq<Row>)
    returns (answer: seq<seq<Value>>)
    requires Sound(cat, m) && WellPlanned(q) && q.rel == m.rel && SameMembers(q.infos, scanClauses)
    requires AllStored(table, q.dropped) && KeepsContract(m, table, q.dropped, execute)
    requires node.fdwState.None?
    modifies node
    ensures answer == Select(m, q.infos, q.targets, table)
    ensures |node.calls| == |old(node.calls)| + 1 && node.fdwState.Some? && node.slot.None?
  {
    hide IsPlanFor, Select, AllHold, EvalAll, Sound, SameMembers, AllStored, Yields;
    var plan, quals := PlanScan(cat, q, scanClauses);
    PlanIsEncoded(cat, q, scanClauses, plan, sortkeys);
    DecodedAreArguments(plan, sortkeys);
    var failed := node.Begin(ScanPlan(plan.pushed, plan.needed, sortkeys), false, false);
    var rows := execute(node.calls[|node.calls| - 1]);
    answer := [];
    ghost var state := node.fdwState;
    assert rows[..0] == [];
    NothingSelected(m, plan.local, q.targets);
    for i := 0 to |rows|
      invariant node.fdwState == state && |node.calls| == |old(node.calls)| + 1
      invariant answer == Select(m, plan.local, q.targets, rows[..i])
    {
      failed := node.Iterate(Yielded(Some(rows[i])));
      SelectSnoc(m, plan.local, q.targets, rows[..i], rows[i]);
      assert rows[..i] + [rows[i]] == rows[..i + 1];
      var slot := node.slot.value;
      if AllHold(m, plan.local, slot) {
        answer := answer + [EvalAll(m, q.targets, slot)];
      }
    }
    assert rows[..|rows|] == rows;
    failed := node.Iterate(Done);
    if !GateOpen(m, q.infos) {
      answer := [];
    }
    ScanRefinesQuery(cat, m, q, scanClauses, plan, table, rows);
  }

  lemma NothingSelected(m: Meaning, infos: seq<RestrictInfo>, targets: seq<Expr>)
    ensures Select(m, infos, targets, []) == []
  {
  }

  lemma PlanIsEncoded(cat: Catalog, q: Query, scanClauses: seq<RestrictInfo>, plan: Plan, sortkeys: seq<int>)
    requires IsPlanFor(cat, q, scanClauses, plan)
    ensures WellEncoded(ScanPlan(plan.pushed, plan.needed, sortkeys))
  {
    hide PushableQuals;
    ArgumentsAreEncoded(PushableQuals(cat, q.infos, q.rel), ScanPlan(plan.pushed, plan.needed, sortkeys));
  }
}
