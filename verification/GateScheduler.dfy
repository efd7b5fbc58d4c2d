/** The scheduler of `scripts/run-gates.ts` as a state machine whose only freedom is which
    running gate settles next. */
module GateScheduler {
  import opened Options
  import opened GateGraph
  import opened GateValue

  datatype State = Pending | Running | Settled(status: Status)

  /** What the outside world sees: `execute` calls and `observe` calls. */
  datatype Event = Started(gate: Gate) | Observed(id: string, result: GateResult)

  /** The two maps of `runGates`. */
  datatype Board = Board(states: map<string, State>, results: map<string, GateResult>)

  datatype Sched = Sched(board: Board, running: seq<Gate>, log: seq<Event>)

  // ---------------------------------------------------------------- the steps

  function Init(gates: seq<Gate>): Sched {
    Sched(Board(map id | id in Ids(gates) :: Pending, map[]), [], [])
  }

  predicate Is(states: map<string, State>, id: string, state: State) {
    id in states && states[id] == state
  }

  /** A need that can no longer pass. */
  predicate Bad(states: map<string, State>, id: string) {
    Is(states, id, Settled(Failed)) || Is(states, id, Settled(Skipped))
  }

  predicate DependenciesPassed(gate: Gate, states: map<string, State>) {
    forall d :: d in gate.needs ==> Is(states, d, Settled(Passed))
  }

  predicate IsReady(gate: Gate, states: map<string, State>) {
    Is(states, gate.id, Pending) && DependenciesPassed(gate, states)
  }

  predicate IsBlocked(gate: Gate, states: map<string, State>) {
    Is(states, gate.id, Pending) && exists d :: d in gate.needs && Bad(states, d)
  }

  /** `gates.find`: the earliest gate satisfying `p`. */
  function First(gates: seq<Gate>, p: Gate -> bool): (r: Option<Gate>)
    ensures r.Some? ==> exists i :: 0 <= i < |gates| && gates[i] == r.value && p(gates[i]) && forall j :: 0 <= j < i ==> !p(gates[j])
    ensures r.None? <==> forall gate :: gate in gates ==> !p(gate)
  {
    if gates == [] then None
    else if p(gates[0]) then Some(gates[0])
    else First(gates[1..], p)
  }

  function FirstReady(gates: seq<Gate>, states: map<string, State>): Option<Gate> {
    First(gates, (gate: Gate) => IsReady(gate, states))
  }

  function FirstBlocked(gates: seq<Gate>, states: map<string, State>): Option<Gate> {
    First(gates, (gate: Gate) => IsBlocked(gate, states))
  }

  function BadNeeds(needs: seq<string>, states: map<string, State>): seq<string> {
    if needs == [] then []
    else (if Bad(states, needs[0]) then [needs[0]] else []) + BadNeeds(needs[1..], states)
  }

  function SkipResult(gate: Gate, states: map<string, State>): GateResult {
    GateResult(gate, Skipped, DependencyFailed(BadNeeds(gate.needs, states)))
  }

  function Start(s: Sched, gate: Gate): Sched {
    Sched(s.board.(states := s.board.states[gate.id := Running]), s.running + [gate], s.log + [Started(gate)])
  }

  function Record(board: Board, id: string, result: GateResult): Board {
    Board(board.states[id := Settled(result.status)], board.results[id := result])
  }

  function Settle(s: Sched, execute: Executor, k: nat): Sched
    requires k < |s.running|
  {
    var gate, result := s.running[k], execute(s.running[k]);
    Sched(Record(s.board, gate.id, result), s.running[..k] + s.running[k + 1..], s.log + [Observed(gate.id, result)])
  }

  function Skip(s: Sched, gate: Gate): Sched {
    var result := SkipResult(gate, s.board.states);
    Sched(Record(s.board, gate.id, result), s.running, s.log + [Observed(gate.id, result)])
  }

  /** One step of `runGates`: start the first ready gate while below the cap; with nothing running
      and nothing ready, skip the first blocked gate; otherwise wait for any running gate. */
  ghost predicate Next(gates: seq<Gate>, maxActive: int, execute: Executor, s: Sched, t: Sched) {
    var ready := FirstReady(gates, s.board.states);
    if |s.running| < maxActive && ready.Some? then t == Start(s, ready.value)
    else if s.running == [] then
      var blocked := FirstBlocked(gates, s.board.states);
      blocked.Some? && t == Skip(s, blocked.value)
    else exists k: nat :: k < |s.running| && t == Settle(s, execute, k)
  }

  ghost predicate Steps(gates: seq<Gate>, maxActive: int, execute: Executor, run: seq<Sched>, i: nat)
    requires i + 1 < |run|
  {
    Next(gates, maxActive, execute, run[i], run[i + 1])
  }

  /** A prefix of an execution, one state per step. */
  ghost predicate IsRun(gates: seq<Gate>, maxActive: int, execute: Executor, run: seq<Sched>) {
    && run != [] && run[0] == Init(gates)
    && forall i: nat :: i + 1 < |run| ==> Steps(gates, maxActive, execute, run, i)
  }

  /** Nothing left to do. */
  ghost predicate Finished(s: Sched) {
    s.running == [] && forall id :: id in s.board.states ==> s.board.states[id].Settled?
  }

  // ------------------------------------------------------------ the invariant

  /** Where one gate stands agrees with the running list, the results, the calls made so far
      and the value `v` the graph gives it. */
  ghost predicate GateOk(execute: Executor, v: map<string, Status>, s: Sched, gate: Gate) {
    && gate.id in s.board.states && gate.id in v
    && match s.board.states[gate.id]
       case Pending =>
         gate !in s.running && gate.id !in s.board.results && Started(gate) !in s.log
       case Running =>
         gate in s.running && gate.id !in s.board.results && Started(gate) in s.log && NeedsPass(gate, v)
       case Settled(status) =>
         && gate !in s.running && gate.id in s.board.results
         && status == s.board.results[gate.id].status == v[gate.id]
         && (Started(gate) in s.log <==> NeedsPass(gate, v))
         && if NeedsPass(gate, v) then s.board.results[gate.id] == execute(gate)
            else s.board.results[gate.id].gate == gate && s.board.results[gate.id].report.DependencyFailed?
  }

  ghost predicate RunningOk(gates: seq<Gate>, maxActive: int, running: seq<Gate>) {
    && |running| <= maxActive
    && (forall i :: 0 <= i < |running| ==> running[i] in gates)
    && (forall i, j :: 0 <= i < j < |running| ==> running[i] != running[j])
  }

  ghost predicate Inv(gates: seq<Gate>, maxActive: int, execute: Executor, v: map<string, Status>, s: Sched) {
    && s.board.states.Keys == Ids(gates)
    && s.board.results.Keys <= Ids(gates)
    && RunningOk(gates, maxActive, s.running)
    && forall gate :: gate in gates ==> GateOk(execute, v, s, gate)
  }

  /** What the invariant is relative to: a list with unique ids and a valuation of it. */
  ghost predicate Context(gates: seq<Gate>, execute: Executor, v: map<string, Status>) {
    UniqueIds(gates) && IsValuation(gates, execute, v)
  }

  lemma SettledAgrees(gates: seq<Gate>, maxActive: int, execute: Executor, v: map<string, Status>, s: Sched, id: string)
    requires Inv(gates, maxActive, execute, v, s) && id in s.board.states && s.board.states[id].Settled?
    ensures id in v && v[id] == s.board.states[id].status
  {
    var gate :| gate in gates && gate.id == id;
    assert GateOk(execute, v, s, gate);
  }

  lemma ReadyValue(gates: seq<Gate>, maxActive: int, execute: Executor, v: map<string, Status>, s: Sched, ready: Gate)
    requires Inv(gates, maxActive, execute, v, s) && DependenciesPassed(ready, s.board.states)
    ensures NeedsPass(ready, v)
  {
    forall d | d in ready.needs ensures d in v && v[d] == Passed {
      SettledAgrees(gates, maxActive, execute, v, s, d);
    }
  }

  lemma BlockedValue(gates: seq<Gate>, maxActive: int, execute: Executor, v: map<string, Status>, s: Sched, blocked: Gate)
    requires Context(gates, execute, v) && Inv(gates, maxActive, execute, v, s)
    requires blocked in gates && IsBlocked(blocked, s.board.states)
    ensures !NeedsPass(blocked, v) && v[blocked.id] == Skipped
  {
    var d :| d in blocked.needs && Bad(s.board.states, d);
    SettledAgrees(gates, maxActive, execute, v, s, d);
  }

  lemma InitInv(gates: seq<Gate>, maxActive: int, execute: Executor, v: map<string, Status>)
    requires Context(gates, execute, v) && maxActive >= 0
    ensures Inv(gates, maxActive, execute, v, Init(gates))
  {
  }

  /** Taking one entry out of the running list. */
  lemma RemoveRunning(gates: seq<Gate>, maxActive: int, running: seq<Gate>, k: nat)
    requires RunningOk(gates, maxActive, running) && k < |running|
    ensures RunningOk(gates, maxActive, running[..k] + running[k + 1..])
    ensures forall gate :: gate in running[..k] + running[k + 1..] <==> gate in running && gate != running[k]
  {
    var rest := running[..k] + running[k + 1..];
    forall gate | gate in running && gate != running[k] ensures gate in rest {
      var i :| 0 <= i < |running| && running[i] == gate;
      assert rest[if i < k then i else i - 1] == gate;
    }
  }

  /** `t` says about `gate` what `s` says. */
  ghost predicate Untouched(s: Sched, t: Sched, gate: Gate) {
    && gate.id in s.board.states && gate.id in t.board.states
    && t.board.states[gate.id] == s.board.states[gate.id]
    && (gate.id in t.board.results <==> gate.id in s.board.results)
    && (gate.id in t.board.results ==> t.board.results[gate.id] == s.board.results[gate.id])
    && (gate in t.running <==> gate in s.running)
    && (Started(gate) in t.log <==> Started(gate) in s.log)
  }

  lemma OneGateChanges(gates: seq<Gate>, execute: Executor, v: map<string, Status>, s: Sched, t: Sched, changed: Gate)
    requires UniqueIds(gates) && changed in gates && GateOk(execute, v, t, changed)
    requires forall gate :: gate in gates ==> GateOk(execute, v, s, gate)
    requires forall gate :: gate in gates && gate.id != changed.id ==> Untouched(s, t, gate)
    ensures forall gate :: gate in gates ==> GateOk(execute, v, t, gate)
  {
    forall gate | gate in gates ensures GateOk(execute, v, t, gate) {
      if gate.id == changed.id {
        SameIdSameGate(gates, gate, changed);
      } else {
        assert Untouched(s, t, gate) && GateOk(execute, v, s, gate);
      }
    }
  }

  lemma StartedGate(execute: Executor, v: map<string, Status>, s: Sched, ready: Gate)
    requires GateOk(execute, v, s, ready) && Is(s.board.states, ready.id, Pending) && NeedsPass(ready, v)
    ensures GateOk(execute, v, Start(s, ready), ready) && ready !in s.running
    ensures forall gate: Gate :: gate.id in s.board.states && gate.id != ready.id ==> Untouched(s, Start(s, ready), gate)
  {
  }

  lemma StartKeepsInv(gates: seq<Gate>, maxActive: int, execute: Executor, v: map<string, Status>, s: Sched, ready: Gate)
    requires Context(gates, execute, v) && Inv(gates, maxActive, execute, v, s)
    requires ready in gates && IsReady(ready, s.board.states) && |s.running| < maxActive
    ensures Inv(gates, maxActive, execute, v, Start(s, ready))
  {
    hide GateOk, Untouched, IsValuation, NeedsPass;
    assert GateOk(execute, v, s, ready);
    ReadyValue(gates, maxActive, execute, v, s, ready);
    StartedGate(execute, v, s, ready);
    OneGateChanges(gates, execute, v, s, Start(s, ready), ready);
  }

  lemma SettledGate(gates: seq<Gate>, maxActive: int, execute: Executor, v: map<string, Status>, s: Sched, k: nat)
    requires k < |s.running| && GateOk(execute, v, s, s.running[k]) && RunningOk(gates, maxActive, s.running)
    requires v[s.running[k].id] == execute(s.running[k]).status
    ensures GateOk(execute, v, Settle(s, execute, k), s.running[k]) && RunningOk(gates, maxActive, Settle(s, execute, k).running)
    ensures forall gate: Gate :: gate.id in s.board.states && gate.id != s.running[k].id ==> Untouched(s, Settle(s, execute, k), gate)
  {
    hide NeedsPass;
    RemoveRunning(gates, maxActive, s.running, k);
  }

  lemma SettleKeepsInv(gates: seq<Gate>, maxActive: int, execute: Executor, v: map<string, Status>, s: Sched, k: nat)
    requires Context(gates, execute, v) && Inv(gates, maxActive, execute, v, s) && k < |s.running|
    ensures Inv(gates, maxActive, execute, v, Settle(s, execute, k))
  {
    var gate := s.running[k];
    assert gate in gates && GateOk(execute, v, s, gate);
    assert NeedsPass(gate, v);
    assert v[gate.id] == execute(gate).status;
    hide GateOk, Untouched, IsValuation, NeedsPass, RunningOk;
    SettledGate(gates, maxActive, execute, v, s, k);
    OneGateChanges(gates, execute, v, s, Settle(s, execute, k), gate);
  }

  lemma SkippedGate(execute: Executor, v: map<string, Status>, s: Sched, blocked: Gate)
    requires GateOk(execute, v, s, blocked) && Is(s.board.states, blocked.id, Pending)
    requires !NeedsPass(blocked, v) && v[blocked.id] == Skipped
    ensures GateOk(execute, v, Skip(s, blocked), blocked)
    ensures forall gate: Gate :: gate.id in s.board.states && gate.id != blocked.id ==> Untouched(s, Skip(s, blocked), gate)
  {
    hide NeedsPass, BadNeeds;
  }

  lemma SkipKeepsInv(gates: seq<Gate>, maxActive: int, execute: Executor, v: map<string, Status>, s: Sched, blocked: Gate)
    requires Context(gates, execute, v) && Inv(gates, maxActive, execute, v, s)
    requires blocked in gates && IsBlocked(blocked, s.board.states)
    ensures Inv(gates, maxActive, execute, v, Skip(s, blocked))
  {
    hide GateOk, Untouched, IsValuation, NeedsPass, RunningOk, SkipResult;
    assert GateOk(execute, v, s, blocked);
    BlockedValue(gates, maxActive, execute, v, s, blocked);
    SkippedGate(execute, v, s, blocked);
    OneGateChanges(gates, execute, v, s, Skip(s, blocked), blocked);
  }

  lemma NextKeepsInv(gates: seq<Gate>, maxActive: int, execute: Executor, v: map<string, Status>, s: Sched, t: Sched)
    requires Context(gates, execute, v) && Inv(gates, maxActive, execute, v, s) && Next(gates, maxActive, execute, s, t)
    ensures Inv(gates, maxActive, execute, v, t)
  {
    var ready := FirstReady(gates, s.board.states);
    if |s.running| < maxActive && ready.Some? {
      StartKeepsInv(gates, maxActive, execute, v, s, ready.value);
    } else if s.running == [] {
      SkipKeepsInv(gates, maxActive, execute, v, s, FirstBlocked(gates, s.board.states).value);
    } else {
      var k: nat :| k < |s.running| && t == Settle(s, execute, k);
      SettleKeepsInv(gates, maxActive, execute, v, s, k);
    }
  }
}
