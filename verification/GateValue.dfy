/** What a run of gates must come to, said without a scheduler: the recursive value of the
    dependency graph once each gate's own outcome is fixed. */
module GateValue {
  import opened DependencyGraph
  import opened GateGraph

  datatype Status = Passed | Failed | Skipped

  /** `FromChild` stands for duration, output, exit code, signal and spawn error. */
  datatype Report = FromChild(text: string) | DependencyFailed(ids: seq<string>)

  datatype GateResult = GateResult(gate: Gate, status: Status, report: Report)

  /** A settled executor: what each gate's promise resolves to. */
  type Executor = Gate -> GateResult

  ghost function GateOf(gates: seq<Gate>, id: string): (gate: Gate)
    requires id in Ids(gates)
    ensures gate in gates && gate.id == id
  {
    var gate :| gate in gates && gate.id == id;
    gate
  }

  lemma SameIdSameGate(gates: seq<Gate>, a: Gate, b: Gate)
    requires UniqueIds(gates) && a in gates && b in gates && a.id == b.id
    ensures a == b
  {
    var i :| 0 <= i < |gates| && gates[i] == a;
    var j :| 0 <= j < |gates| && gates[j] == b;
  }

  lemma OtherGateOtherId(gates: seq<Gate>, a: Gate, b: Gate)
    requires UniqueIds(gates) && a in gates && b in gates && a != b
    ensures a.id != b.id
  {
    var i :| 0 <= i < |gates| && gates[i] == a;
    var j :| 0 <= j < |gates| && gates[j] == b;
  }

  lemma NeedIsEdge(gates: seq<Gate>, gate: Gate, need: string)
    requires UniqueIds(gates) && gate in gates && need in gate.needs
    ensures Edge(NeedsById(gates), gate.id, need)
  {
    var i :| 0 <= i < |gates| && gates[i] == gate;
    NeedsByIdUnique(gates, i);
  }

  ghost predicate NeedsPass(gate: Gate, v: map<string, Status>) {
    forall d :: d in gate.needs ==> d in v && v[d] == Passed
  }

  /** `v` gives every gate its own outcome when all its needs pass, and `Skipped` otherwise. */
  ghost predicate IsValuation(gates: seq<Gate>, execute: Executor, v: map<string, Status>) {
    && v.Keys == Ids(gates)
    && forall gate :: gate in gates ==>
         v[gate.id] == if NeedsPass(gate, v) then execute(gate).status else Skipped
  }

  /** The recursive value of one gate. `rank` only justifies the recursion. */
  ghost function DagValue(gates: seq<Gate>, execute: Executor, rank: map<string, nat>, id: string): Status
    requires UniqueIds(gates) && Closed(NeedsById(gates)) && Ranks(NeedsById(gates), rank) && id in Ids(gates)
    decreases rank[id]
  {
    var gate := GateOf(gates, id);
    if forall d :: d in gate.needs ==>
         (NeedIsEdge(gates, gate, d); DagValue(gates, execute, rank, d) == Passed)
    then execute(gate).status else Skipped
  }

  ghost function DagValues(gates: seq<Gate>, execute: Executor, rank: map<string, nat>): (v: map<string, Status>)
    requires UniqueIds(gates) && Closed(NeedsById(gates)) && Ranks(NeedsById(gates), rank)
    ensures IsValuation(gates, execute, v)
  {
    var v := map id | id in Ids(gates) :: DagValue(gates, execute, rank, id);
    assert IsValuation(gates, execute, v) by {
      forall gate | gate in gates
        ensures v[gate.id] == if NeedsPass(gate, v) then execute(gate).status else Skipped
      {
        SameIdSameGate(gates, gate, GateOf(gates, gate.id));
        forall d | d in gate.needs ensures d in Ids(gates) { NeedIsEdge(gates, gate, d); }
      }
    }
    v
  }

  lemma {:induction false} ValuationIsDagValue(
      gates: seq<Gate>, execute: Executor, rank: map<string, nat>, v: map<string, Status>, id: string)
    requires UniqueIds(gates) && Closed(NeedsById(gates)) && Ranks(NeedsById(gates), rank)
    requires IsValuation(gates, execute, v) && id in Ids(gates)
    ensures v[id] == DagValue(gates, execute, rank, id)
    decreases rank[id]
  {
    var gate := GateOf(gates, id);
    forall d | d in gate.needs ensures d in v && v[d] == DagValue(gates, execute, rank, d) {
      NeedIsEdge(gates, gate, d);
      ValuationIsDagValue(gates, execute, rank, v, d);
    }
  }

  /** The one valuation of an executable list. */
  ghost function Valuation(gates: seq<Gate>, execute: Executor): (v: map<string, Status>)
    requires Executable(gates)
    ensures IsValuation(gates, execute, v)
  {
    AcyclicIffRanked(NeedsById(gates));
    var rank :| Ranks(NeedsById(gates), rank);
    DagValues(gates, execute, rank)
  }

  /** There is exactly one: it does not depend on the rank chosen to compute it. */
  lemma ValuationIsUnique(gates: seq<Gate>, execute: Executor, v: map<string, Status>)
    requires Executable(gates) && IsValuation(gates, execute, v)
    ensures v == Valuation(gates, execute)
  {
    AcyclicIffRanked(NeedsById(gates));
    var rank :| Ranks(NeedsById(gates), rank);
    var w := Valuation(gates, execute);
    forall id | id in Ids(gates) ensures v[id] == w[id] {
      ValuationIsDagValue(gates, execute, rank, v, id);
      ValuationIsDagValue(gates, execute, rank, w, id);
    }
  }

  lemma PassedNeedsPassed(gates: seq<Gate>, execute: Executor, v: map<string, Status>, id: string, need: string)
    requires UniqueIds(gates) && IsValuation(gates, execute, v)
    requires Edge(NeedsById(gates), id, need) && v[id] == Passed
    ensures need in v && v[need] == Passed
  {
    var i :| 0 <= i < |gates| && gates[i].id == id;
    NeedsByIdUnique(gates, i);
    assert gates[i] in gates && need in gates[i].needs;
  }

  /** A passed gate has every gate it transitively needs passed. */
  lemma {:induction false} PassedReachesPassed(
      gates: seq<Gate>, execute: Executor, v: map<string, Status>, walk: seq<string>, k: nat)
    requires UniqueIds(gates) && IsValuation(gates, execute, v)
    requires IsWalk(NeedsById(gates), walk) && k < |walk|
    requires walk[0] in v && v[walk[0]] == Passed
    ensures walk[k] in v && v[walk[k]] == Passed
  {
    hide UniqueIds, IsValuation, NeedsById;
    if k > 0 {
      PassedReachesPassed(gates, execute, v, walk, k - 1);
      assert StepAt(NeedsById(gates), walk, k - 1);
      PassedNeedsPassed(gates, execute, v, walk[k - 1], walk[k]);
    }
  }

  /** `main`: a failed or skipped result blocks unless its gate allows failure. */
  function ExitCode(results: seq<GateResult>): int {
    if exists r <- results :: !r.gate.allowFailure && (r.status == Failed || r.status == Skipped) then 1 else 0
  }
}
