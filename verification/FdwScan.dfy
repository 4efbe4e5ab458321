/**
 The life of a foreign scan node (fdw.c): Begin, Iterate, ReScan and End, with
 execute() or next() throwing at any point. A JS iterator is a counted reference
 that must be released once.
 */
module FdwScan {
  import opened Options
  import opened FdwQuals

  /** What the plan carries for the scan: fdw_private. */
  datatype ScanPlan = ScanPlan(quals: seq<seq<PlanNode>>, needed: seq<AttrNumber>, sortkeys: seq<int>)

  /** The arguments of an execute() call. */
  datatype Arguments = Arguments(quals: seq<Qual>, needed: seq<AttrNumber>, sortkeys: seq<int>)

  /** `iter` is `None` when it holds the JS exception value, whose release does nothing. */
  datatype ScanState = ScanState(iter: Option<nat>, arguments: Arguments)

  /** What next() does; a yielded null or undefined leaves the slot empty. */
  datatype NextResult = Yielded(row: Option<Row>) | Done | Threw

  datatype View = View(
    fdwState: Option<ScanState>,
    slot: Option<Row>,
    created: nat,
    released: multiset<nat>,
    calls: seq<Arguments>)

  const IDLE: View := View(None, None, 0, multiset{}, [])

  predicate WellEncoded(plan: ScanPlan) {
    forall i :: 0 <= i < |plan.quals| ==> IsTriple(plan.quals[i])
  }

  function ArgumentsOf(plan: ScanPlan): Arguments
    requires WellEncoded(plan)
  {
    Arguments(seq(|plan.quals|, i requires 0 <= i < |plan.quals| => DecodedQual(plan.quals[i])), plan.needed,
              plan.sortkeys)
  }

  function Released(v: View, iter: Option<nat>): multiset<nat> {
    if iter.Some? then v.released + multiset{iter.value} else v.released
  }

  function Freed(v: View): View {
    if v.fdwState.None? then v
    else v.(fdwState := None, released := Released(v, v.fdwState.value.iter))
  }

  /** execute() is called; a new iterator is created unless it throws. */
  function Executed(v: View, arguments: Arguments, throws: bool): View {
    v.(created := if throws then v.created else v.created + 1, calls := v.calls + [arguments])
  }

  function BeginStep(v: View, plan: ScanPlan, explainOnly: bool, throws: bool): View
    requires WellEncoded(plan)
  {
    if explainOnly then v
    else
      var v' := Executed(v, ArgumentsOf(plan), throws);
      if throws then v' else v'.(fdwState := Some(ScanState(Some(v.created), ArgumentsOf(plan))))
  }

  function IterateStep(v: View, next: NextResult): View {
    if v.fdwState.None? then v.(slot := None)
    else
      match next
      case Threw => Freed(v).(slot := None)
      case Done => v.(slot := None)
      case Yielded(row) => v.(slot := row)
  }

  function ReScanStep(v: View, throws: bool): View {
    if v.fdwState.None? then v
    else
      var arguments := v.fdwState.value.arguments;
      var v' := Executed(v.(released := Released(v, v.fdwState.value.iter)), arguments, throws);
      v'.(fdwState := if throws then None else Some(ScanState(Some(v.created), arguments)))
  }

  class ScanNode {
    var fdwState: Option<ScanState>
    var slot: Option<Row>
    var created: nat
    var released: multiset<nat>
    var calls: seq<Arguments>

    function Current(): View
      reads this
    {
      View(fdwState, slot, created, released, calls)
    }

    constructor ()
      ensures Current() == IDLE
    {
      fdwState, slot, created, released, calls := None, None, 0, multiset{}, [];
    }

    method CallExecute(arguments: Arguments, throws: bool) returns (iter: Option<nat>)
      modifies this`created, this`calls
      ensures Current() == Executed(old(Current()), arguments, throws)
      ensures iter == if throws then None else Some(old(created))
    {
      calls := calls + [arguments];
      if throws {
        return None;
      }
      iter := Some(created);
      created := created + 1;
    }

    method FreeValue(iter: Option<nat>)
      modifies this`released
      ensures released == Released(old(Current()), iter)
    {
      if iter.Some? {
        released := released + multiset{iter.value};
      }
    }

    method FreeScanState()
      modifies this`fdwState, this`released
      ensures Current() == Freed(old(Current()))
    {
      if fdwState.None? {
        return;
      }
      FreeValue(fdwState.value.iter);
      fdwState := None;
    }

    method Begin(plan: ScanPlan, explainOnly: bool, throws: bool) returns (failed: bool)
      requires WellEncoded(plan)
      modifies this
      ensures Current() == BeginStep(old(Current()), plan, explainOnly, throws)
      ensures failed == (!explainOnly && throws)
      ensures explainOnly ==> Current() == old(Current())
      ensures failed ==> fdwState == old(fdwState) && released == old(released) && slot == old(slot)
    {
      if explainOnly {
        return false;
      }
      var quals := QualsFromPlanPrivate(plan.quals);
      var arguments := Arguments(quals, plan.needed, plan.sortkeys);
      assert quals == ArgumentsOf(plan).quals;
      var iter := CallExecute(arguments, throws);
      if iter.None? {
        return true;
      }
      fdwState := Some(ScanState(iter, arguments));
      failed := false;
    }

    method Iterate(next: NextResult) returns (failed: bool)
      modifies this
      ensures Current() == IterateStep(old(Current()), next)
      ensures failed == (old(fdwState).Some? && next.Threw?)
    {
      slot := None;
      if fdwState.None? {
        return false;
      }
      if next.Threw? {
        FreeScanState();
        return true;
      }
      if next.Done? {
        return false;
      }
      slot := next.row;
      failed := false;
    }

    method ReScan(throws: bool) returns (failed: bool)
      modifies this
      ensures Current() == ReScanStep(old(Current()), throws)
      ensures failed == (old(fdwState).Some? && throws)
      ensures failed ==> fdwState.None?
      ensures slot == old(slot) && (old(fdwState).None? ==> Current() == old(Current()))
    {
      if fdwState.None? {
        return false;
      }
      var state := fdwState.value;
      FreeValue(state.iter);
      var iter := CallExecute(state.arguments, throws);
      fdwState := Some(state.(iter := iter));
      if iter.None? {
        FreeScanState();
        return true;
      }
      failed := false;
    }

    method End()
      modifies this
      ensures Current() == Freed(old(Current()))
    {
      FreeScanState();
    }
  }

  // ----- runs

  datatype Event =
    | Begin(plan: ScanPlan, explainOnly: bool, executeThrows: bool)
    | Iterate(next: NextResult)
    | ReScan(rescanThrows: bool)
    | End

  predicate Possible(e: Event) {
    e.Begin? ==> WellEncoded(e.plan)
  }

  predicate AllPossible(events: seq<Event>) {
    forall i :: 0 <= i < |events| ==> Possible(events[i])
  }

  function Step(v: View, e: Event): View
    requires Possible(e)
  {
    match e
    case Begin(plan, explainOnly, throws) => BeginStep(v, plan, explainOnly, throws)
    case Iterate(next) => IterateStep(v, next)
    case ReScan(throws) => ReScanStep(v, throws)
    case End => Freed(v)
  }

  function Run(v: View, events: seq<Event>): View
    requires AllPossible(events)
    decreases |events|
  {
    if events == [] then v else Run(Step(v, events[0]), events[1..])
  }

  predicate Holding(v: View, i: nat) {
    v.fdwState.Some? && v.fdwState.value.iter == Some(i)
  }

  /** No iterator is released twice, or released and still held; a held state has one. */
  predicate ReleasedOnce(v: View) {
    && (forall i :: i in v.released ==> i < v.created && v.released[i] == 1 && !Holding(v, i))
    && (v.fdwState.Some? ==> v.fdwState.value.iter.Some? && v.fdwState.value.iter.value < v.created)
  }

  /** Every iterator created has been released or is still held. */
  predicate NoneLost(v: View) {
    forall i :: 0 <= i < v.created ==> i in v.released || Holding(v, i)
  }

  /** A Begin that would overwrite a scan still in progress. */
  predicate Overwrites(v: View, e: Event) {
    e.Begin? && !e.explainOnly && !e.executeThrows && v.fdwState.Some?
  }

  predicate Orderly(v: View, events: seq<Event>)
    requires AllPossible(events)
    decreases |events|
  {
    events == [] || (!Overwrites(v, events[0]) && Orderly(Step(v, events[0]), events[1..]))
  }

  lemma StepReleasesOnce(v: View, e: Event)
    requires Possible(e) && ReleasedOnce(v)
    ensures ReleasedOnce(Step(v, e))
  {
  }

  lemma StepReleases(v: View, e: Event)
    requires Possible(e) && ReleasedOnce(v)
    ensures ReleasedOnce(Step(v, e))
    ensures NoneLost(v) && !Overwrites(v, e) ==> NoneLost(Step(v, e))
    ensures !NoneLost(v) || Overwrites(v, e) ==> !NoneLost(Step(v, e))
  {
    StepReleasesOnce(v, e);
    var v' := Step(v, e);
    if Overwrites(v, e) {
      var i := v.fdwState.value.iter.value;
      assert Holding(v, i) && i !in v'.released && !Holding(v', i);
    } else if !NoneLost(v) {
      var i :| 0 <= i < v.created && i !in v.released && !Holding(v, i);
      assert i !in v'.released && !Holding(v', i);
    }
  }

  /**
   Over every sequence of calls, however execute() and next() fail, no iterator
   is released twice; and each is released or still held exactly when no Begin
   overwrote a scan in progress. After End every one has been released.
   */
  lemma {:induction false} RunReleases(v: View, events: seq<Event>)
    requires AllPossible(events) && ReleasedOnce(v)
    ensures ReleasedOnce(Run(v, events))
    ensures NoneLost(Run(v, events)) <==> NoneLost(v) && Orderly(v, events)
    decreases |events|
  {
    hide NoneLost, ReleasedOnce, Overwrites, Step;
    if events != [] {
      assert Possible(events[0]);
      StepReleases(v, events[0]);
      RunReleases(Step(v, events[0]), events[1..]);
    }
  }

  lemma EndReleasesAll(events: seq<Event>)
    requires AllPossible(events) && Orderly(IDLE, events)
    ensures var v := Freed(Run(IDLE, events));
            v.fdwState.None? && forall i :: 0 <= i < v.created ==> v.released[i] == 1
  {
    RunReleases(IDLE, events);
    var v := Run(IDLE, events);
    forall i | 0 <= i < v.created
      ensures Freed(v).released[i] == 1
    {
      assert i in v.released || Holding(v, i);
    }
  }

  predicate NoBegin(events: seq<Event>) {
    forall i :: 0 <= i < |events| ==> !events[i].Begin?
  }

  /** Without a state, a node stays empty and calls nothing until the next Begin. */
  lemma {:induction false} StaysEmpty(v: View, events: seq<Event>)
    requires AllPossible(events) && NoBegin(events) && v.fdwState.None?
    ensures var v' := Run(v, events);
            v'.fdwState.None? && v'.calls == v.calls && v'.created == v.created && v'.released == v.released
            && (v'.slot == v.slot || v'.slot == None)
    decreases |events|
  {
    if events != [] {
      assert !events[0].Begin?;
      StaysEmpty(Step(v, events[0]), events[1..]);
    }
  }

  predicate CallsSince(v: View, from: nat, arguments: Arguments) {
    from <= |v.calls| && forall i :: from <= i < |v.calls| ==> v.calls[i] == arguments
  }

  /** Between one Begin and the next, every execute() call gets what Begin decoded from the plan. */
  lemma {:induction false} SameArguments(v: View, plan: ScanPlan, events: seq<Event>)
    requires AllPossible(events) && NoBegin(events) && WellEncoded(plan)
    ensures CallsSince(Run(BeginStep(v, plan, false, false), events), |v.calls|, ArgumentsOf(plan))
  {
    KeepsArguments(BeginStep(v, plan, false, false), events, |v.calls|, ArgumentsOf(plan));
  }

  lemma {:induction false} KeepsArguments(v: View, events: seq<Event>, from: nat, arguments: Arguments)
    requires AllPossible(events) && NoBegin(events) && CallsSince(v, from, arguments)
    requires v.fdwState.Some? ==> v.fdwState.value.arguments == arguments
    ensures CallsSince(Run(v, events), from, arguments)
    decreases |events|
  {
    if events != [] {
      assert !events[0].Begin?;
      KeepsArguments(Step(v, events[0]), events[1..], from, arguments);
    }
  }

  // ----- what the executor sees

  /** The slot after each call of next(): the row it yielded, unless it is done or some call has thrown. */
  method Fetch(node: ScanNode, nexts: seq<NextResult>) returns (slots: seq<Option<Row>>)
    requires node.fdwState.Some?
    modifies node
    ensures |slots| == |nexts|
    ensures forall i :: 0 <= i < |nexts| ==>
      slots[i] == if nexts[i].Yielded? && (forall j :: 0 <= j < i ==> nexts[j] != Threw) then nexts[i].row else None
    ensures node.created == old(node.created) && node.calls == old(node.calls)
    ensures node.slot == if nexts == [] then old(node.slot) else slots[|slots| - 1]
    ensures if Threw in nexts then node.fdwState == None
            else node.fdwState == old(node.fdwState) && node.released == old(node.released)
  {
    slots := [];
    for k := 0 to |nexts|
      invariant |slots| == k
      invariant forall i :: 0 <= i < k ==>
        slots[i] == if nexts[i].Yielded? && (forall j :: 0 <= j < i ==> nexts[j] != Threw) then nexts[i].row else None
      invariant node.created == old(node.created) && node.calls == old(node.calls)
      invariant node.slot == if k == 0 then old(node.slot) else slots[k - 1]
      invariant if Threw in nexts[..k] then node.fdwState == None
                else node.fdwState == old(node.fdwState) && node.released == old(node.released)
    {
      assert nexts[..k + 1] == nexts[..k] + [nexts[k]];
      assert Threw in nexts[..k] <==> exists j :: 0 <= j < k && nexts[j] == Threw;
      var failed := node.Iterate(nexts[k]);
      slots := slots + [node.slot];
    }
    assert nexts[..|nexts|] == nexts;
  }

  /** An iterator that yields the rows and is then done. */
  function Pass(rows: seq<Row>): seq<NextResult> {
    seq(|rows|, i requires 0 <= i < |rows| => Yielded(Some(rows[i]))) + [Done]
  }

  function Slots(rows: seq<Row>): seq<Option<Row>> {
    seq(|rows|, i requires 0 <= i < |rows| => Some(rows[i])) + [None]
  }

  method FetchPass(node: ScanNode, rows: seq<Row>) returns (slots: seq<Option<Row>>)
    requires node.fdwState.Some?
    modifies node
    ensures slots == Slots(rows) && node.slot == None
    ensures node.Current() == old(node.Current()).(slot := None)
  {
    var nexts := Pass(rows);
    assert Threw !in nexts;
    slots := Fetch(node, nexts);
    assert slots == Slots(rows);
  }

  /**
   Each pass of a scan delivers its iterator's rows in order and then an empty slot; every pass calls
   execute() with the same arguments, and the iterators of all passes are released once.
   */
  method ScanPasses(node: ScanNode, plan: ScanPlan, passes: seq<seq<Row>>) returns (slots: seq<seq<Option<Row>>>)
    requires WellEncoded(plan) && passes != [] && node.fdwState.None? && ReleasedOnce(node.Current())
    requires NoneLost(node.Current())
    modifies node
    ensures |slots| == |passes| && forall k :: 0 <= k < |passes| ==> slots[k] == Slots(passes[k])
    ensures node.calls == old(node.calls) + seq(|passes|, k => ArgumentsOf(plan))
    ensures node.fdwState.None? && node.created == old(node.created) + |passes|
    ensures forall i :: 0 <= i < node.created ==> node.released[i] == 1
  {
    hide ArgumentsOf, Slots, ReleasedOnce, NoneLost;
    var failed := node.Begin(plan, false, false);
    StepReleases(old(node.Current()), Begin(plan, false, false));
    SlotIsFree(node.Current());
    var first := FetchPass(node, passes[0]);
    slots := [first];
    for k := 1 to |passes|
      invariant node.fdwState.Some? && node.fdwState.value.arguments == ArgumentsOf(plan)
      invariant node.created == old(node.created) + k
      invariant ReleasedOnce(node.Current()) && NoneLost(node.Current())
      invariant node.calls == old(node.calls) + seq(k, j => ArgumentsOf(plan))
      invariant |slots| == k && forall j :: 0 <= j < k ==> slots[j] == Slots(passes[j])
    {
      ghost var before := node.Current();
      failed := node.ReScan(false);
      StepReleases(before, ReScan(false));
      SlotIsFree(node.Current());
      var next := FetchPass(node, passes[k]);
      slots := slots + [next];
    }
    ghost var last := node.Current();
    node.End();
    StepReleases(last, End);
    AllReleased(node.Current());
  }

  lemma SlotIsFree(v: View)
    ensures ReleasedOnce(v.(slot := None)) == ReleasedOnce(v) && NoneLost(v.(slot := None)) == NoneLost(v)
  {
    assert forall i :: Holding(v.(slot := None), i) == Holding(v, i);
  }

  lemma AllReleased(v: View)
    requires ReleasedOnce(v) && NoneLost(v) && v.fdwState.None?
    ensures forall i :: 0 <= i < v.created ==> v.released[i] == 1
  {
    forall i | 0 <= i < v.created
      ensures v.released[i] == 1
    {
      assert i in v.released;
    }
  }

  /** What execute() is given is what the planner pushed, needed and claimed. */
  lemma ArgumentsAreEncoded(quals: seq<Qual>, plan: ScanPlan)
    requires |plan.quals| == |quals| && forall i :: 0 <= i < |quals| ==> plan.quals[i] == EncodedQual(quals[i])
    ensures WellEncoded(plan)
    ensures var a := ArgumentsOf(plan);
            && |a.quals| == |quals| && a.needed == plan.needed && a.sortkeys == plan.sortkeys
            && forall i :: 0 <= i < |quals| ==>
                 a.quals[i].attno == quals[i].attno && a.quals[i].opname == quals[i].opname
                 && a.quals[i].value == quals[i].value
  {
    forall i | 0 <= i < |quals|
      ensures IsTriple(plan.quals[i]) && DecodedQual(plan.quals[i]) == quals[i].(rinfo := None)
    {
      DecodeEncoded(quals[i]);
    }
  }
}
