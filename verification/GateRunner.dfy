/** `runGates` itself: the nested loops over two maps and a running list, proved to walk through
    a run of the scheduler and to return the final board in list order. */
module GateRunner {
  import opened DependencyGraph
  import opened GateGraph
  import opened GateValue
  import opened GateScheduler
  import opened GateRuns
  import opened GateCalls

  const MAX_SAFE_INTEGER := 0x1F_FFFF_FFFF_FFFF

  /** Every way `runGates` can come back. `Stalled` and `MissingResult` are its internal throws. */
  datatype Outcome =
    | Rejected(error: Rejection)
    | BadConcurrency
    | Stalled
    | MissingResult(id: string)
    | Done(results: seq<GateResult>)

  function HasBadNeed(states: map<string, State>): Gate -> bool {
    (gate: Gate) => exists d :: d in gate.needs && Bad(states, d)
  }

  /** `gates.filter(gate => states.get(gate.id) === 'pending')`. */
  function PendingGates(gates: seq<Gate>, states: map<string, State>): seq<Gate> {
    if gates == [] then []
    else (if Is(states, gates[0].id, Pending) then [gates[0]] else []) + PendingGates(gates[1..], states)
  }

  /** `pending.filter(item => item !== gate)`. */
  function Without(gates: seq<Gate>, gate: Gate): seq<Gate> {
    if gates == [] then []
    else (if gates[0] == gate then [] else [gates[0]]) + Without(gates[1..], gate)
  }

  lemma Behind<T>(x: T, s: seq<T>)
    ensures [] + s == s && ([x] + s)[1..] == s && ([x] + s)[0] == x
  {
  }

  /** Looking for a bad need among the pending gates finds the first blocked gate. */
  lemma {:induction false} FirstAmongPending(gates: seq<Gate>, states: map<string, State>)
    ensures First(PendingGates(gates, states), HasBadNeed(states)) == FirstBlocked(gates, states)
  {
    if gates != [] {
      FirstAmongPending(gates[1..], states);
      var rest := PendingGates(gates[1..], states);
      Behind(gates[0], rest);
      hide Bad;
    }
  }

  lemma {:induction false} PendingAfterSkip(gates: seq<Gate>, states: map<string, State>, gate: Gate)
    requires forall other :: other in gates && other.id == gate.id ==> other == gate
    ensures PendingGates(gates, states[gate.id := Settled(Skipped)]) == Without(PendingGates(gates, states), gate)
  {
    if gates != [] {
      PendingAfterSkip(gates[1..], states, gate);
      Behind(gates[0], PendingGates(gates[1..], states));
      Behind(gates[0], PendingGates(gates[1..], states[gate.id := Settled(Skipped)]));
    }
  }

  lemma {:induction false} NonePending(gates: seq<Gate>, states: map<string, State>)
    requires PendingGates(gates, states) == []
    ensures forall gate :: gate in gates ==> !Is(states, gate.id, Pending)
  {
    if gates != [] { NonePending(gates[1..], states); }
  }

  lemma QuietMeansFinished(gates: seq<Gate>, maxActive: int, execute: Executor, v: map<string, Status>, s: Sched)
    requires Inv(gates, maxActive, execute, v, s) && s.running == [] && PendingGates(gates, s.board.states) == []
    ensures Finished(s)
  {
    NonePending(gates, s.board.states);
    forall id | id in s.board.states ensures s.board.states[id].Settled? {
      var gate := GateOf(gates, id);
      assert GateOk(execute, v, s, gate);
    }
  }

  lemma LastInv(gates: seq<Gate>, maxActive: int, execute: Executor, run: seq<Sched>, s: Sched)
    requires Executable(gates) && maxActive >= 1 && IsRun(gates, maxActive, execute, run) && IsLast(run, s)
    ensures Inv(gates, maxActive, execute, Valuation(gates, execute), s) && LogOk(gates, s)
  {
    hide Inv, LogOk, Closed, Ranks, UniqueIds, IsValuation, Executable, IsRun;
    var v := Valuation(gates, execute);
    var _ := ExecutableHasRank(gates);
    RunKeepsInv(gates, maxActive, execute, v, run, |run| - 1);
    RunKeepsLog(gates, maxActive, execute, v, run, |run| - 1);
  }

  /** The cascade's `find` cannot come up empty while a gate is pending. */
  lemma CascadeFinds(gates: seq<Gate>, maxActive: int, execute: Executor, run: seq<Sched>, s: Sched)
    requires Executable(gates) && maxActive >= 1 && IsRun(gates, maxActive, execute, run) && IsLast(run, s)
    requires s.running == [] && FirstReady(gates, s.board.states).None? && PendingGates(gates, s.board.states) != []
    ensures FirstBlocked(gates, s.board.states).Some?
  {
    hide Inv, LogOk, Closed, Ranks, UniqueIds, Executable, IsRun, FirstReady, FirstBlocked, PendingGates;
    var rank := ExecutableHasRank(gates);
    LastInv(gates, maxActive, execute, run, s);
    PendingGatesArePending(gates, s.board.states);
    var gate := PendingGates(gates, s.board.states)[0];
    PendingLeadsToBlocked(gates, maxActive, execute, Valuation(gates, execute), s, rank, gate);
  }

  lemma {:induction false} PendingGatesArePending(gates: seq<Gate>, states: map<string, State>)
    ensures forall gate :: gate in PendingGates(gates, states) ==> gate in gates && Is(states, gate.id, Pending)
  {
    if gates != [] { PendingGatesArePending(gates[1..], states); }
  }

  /** `execute` is called for exactly the gates whose needs all pass. */
  ghost predicate ExecutesExactly(gates: seq<Gate>, v: map<string, Status>, log: seq<Event>) {
    forall gate <- gates :: Started(gate) in log <==> NeedsPass(gate, v)
  }

  lemma FinishedExecutes(gates: seq<Gate>, maxActive: int, execute: Executor, v: map<string, Status>, s: Sched)
    requires Inv(gates, maxActive, execute, v, s) && Finished(s)
    ensures ExecutesExactly(gates, v, s.log)
  {
    hide NeedsPass;
    forall gate <- gates ensures Started(gate) in s.log <==> NeedsPass(gate, v) { assert GateOk(execute, v, s, gate); }
  }

  lemma FinalStates(gates: seq<Gate>, maxActive: int, execute: Executor, run: seq<Sched>, s: Sched)
    requires Executable(gates) && maxActive >= 1 && IsRun(gates, maxActive, execute, run) && IsLast(run, s)
    requires s.running == [] && PendingGates(gates, s.board.states) == []
    ensures s.board == FinalBoard(gates, execute) && CallsInOrder(gates, s.log)
    ensures AllObserved(gates, FinalBoard(gates, execute), s.log)
    ensures ExecutesExactly(gates, Valuation(gates, execute), s.log)
  {
    hide Executable, Inv, CallsInOrder, FinalBoard, IsRun, NeedsPass, IsValuation, ExecutesExactly;
    LastInv(gates, maxActive, execute, run, s);
    QuietMeansFinished(gates, maxActive, execute, Valuation(gates, execute), s);
    FinishedExecutes(gates, maxActive, execute, Valuation(gates, execute), s);
    FinishedRunsAgree(gates, maxActive, execute, run);
    FinalBoardIsValuation(gates, execute);
  }

  /** `observe` was called with each gate's result. */
  ghost predicate AllObserved(gates: seq<Gate>, board: Board, log: seq<Event>) {
    forall gate :: gate in gates ==> gate.id in board.results && Observed(gate.id, board.results[gate.id]) in log
  }

  /** The results in list order. */
  ghost predicate InListOrder(gates: seq<Gate>, board: Board, results: seq<GateResult>) {
    && |results| == |gates|
    && forall i :: 0 <= i < |gates| ==> gates[i].id in board.results && results[i] == board.results[gates[i].id]
  }

  /** The skip cascade: entered once nothing runs and nothing is ready. */
  method Cascade(gates: seq<Gate>, maxActive: int, execute: Executor, before: Sched, ghost run0: seq<Sched>)
    returns (stalled: bool, after: Sched, ghost run: seq<Sched>)
    requires Executable(gates) && maxActive >= 1 && IsRun(gates, maxActive, execute, run0) && IsLast(run0, before)
    requires before.running == [] && FirstReady(gates, before.board.states).None?
    ensures !stalled && IsRun(gates, maxActive, execute, run) && IsLast(run, after)
    ensures after.board == FinalBoard(gates, execute) && CallsInOrder(gates, after.log)
    ensures AllObserved(gates, FinalBoard(gates, execute), after.log)
    ensures ExecutesExactly(gates, Valuation(gates, execute), after.log)
  {
    hide Executable, FinalBoard, CallsInOrder, AllObserved, IsRun, ExecutesExactly;
    after, run := before, run0;
    var pending := PendingGates(gates, before.board.states);
    while pending != []
      invariant IsRun(gates, maxActive, execute, run) && IsLast(run, after)
      invariant after.running == [] && FirstReady(gates, after.board.states).None?
      invariant pending == PendingGates(gates, after.board.states)
      decreases Measure(after)
    {
      FirstAmongPending(gates, after.board.states);
      CascadeFinds(gates, maxActive, execute, run, after);
      var gate := First(pending, HasBadNeed(after.board.states));
      if gate.None? { return true, after, run; }
      var next := Skip(after, gate.value);
      ExtendRun(gates, maxActive, execute, run, after, next);
      NextShrinksMeasure(gates, maxActive, execute, after, next);
      SkipKeepsNoneReady(gates, after, gate.value);
      OnlyGateWithId(gates, gate.value);
      PendingAfterSkip(gates, after.board.states, gate.value);
      after, run := next, run + [next];
      pending := Without(pending, gate.value);
    }
    FinalStates(gates, maxActive, execute, run, after);
    stalled := false;
  }

  lemma OnlyGateWithId(gates: seq<Gate>, gate: Gate)
    requires Executable(gates) && gate in gates
    ensures forall other :: other in gates && other.id == gate.id ==> other == gate
  {
    forall other | other in gates && other.id == gate.id ensures other == gate { SameIdSameGate(gates, other, gate); }
  }

  /** Start ready gates while below the cap. */
  method StartReady(gates: seq<Gate>, maxActive: int, execute: Executor, before: Sched, ghost run0: seq<Sched>)
    returns (madeProgress: bool, after: Sched, ghost run: seq<Sched>)
    requires Executable(gates) && maxActive >= 1 && IsRun(gates, maxActive, execute, run0) && IsLast(run0, before)
    ensures IsRun(gates, maxActive, execute, run) && IsLast(run, after)
    ensures |after.running| >= maxActive || FirstReady(gates, after.board.states).None?
    ensures if madeProgress then Measure(after) < Measure(before) && after.running != [] else after == before
    ensures before.log <= after.log && forall e <- after.log[|before.log|..] :: e.Started?
    ensures CallsInTurn(gates, maxActive, execute, after.log) && MayWait(gates, maxActive, after.log)
  {
    hide IsRun, Executable, CallsInTurn, MayWait;
    madeProgress, after, run := false, before, run0;
    while |after.running| < maxActive
      invariant IsRun(gates, maxActive, execute, run) && IsLast(run, after)
      invariant before.log <= after.log && forall e <- after.log[|before.log|..] :: e.Started?
      invariant if madeProgress then Measure(after) < Measure(before) && after.running != [] else after == before
      decreases Measure(after)
    {
      var ready := FirstReady(gates, after.board.states);
      if ready.None? { break; }
      var next := Start(after, ready.value);
      ExtendRun(gates, maxActive, execute, run, after, next);
      NextShrinksMeasure(gates, maxActive, execute, after, next);
      assert next.log[|before.log|..] == after.log[|before.log|..] + [Started(ready.value)];
      madeProgress, after, run := true, next, run + [next];
    }
    RunCallsInTurn(gates, maxActive, execute, run, |run| - 1);
    LastMayWait(gates, maxActive, execute, run, after);
  }

  lemma LastMayWait(gates: seq<Gate>, maxActive: int, execute: Executor, run: seq<Sched>, s: Sched)
    requires Executable(gates) && maxActive >= 1 && IsRun(gates, maxActive, execute, run) && IsLast(run, s)
    requires |s.running| >= maxActive || FirstReady(gates, s.board.states).None?
    ensures MayWait(gates, maxActive, s.log)
  {
    hide Inv, LogOk, UniqueIds, IsRun, FirstReady, MayWait, Closed, Ranks;
    var _ := ExecutableHasRank(gates);
    LastInv(gates, maxActive, execute, run, s);
    NoneReady(gates, maxActive, execute, Valuation(gates, execute), s);
  }

  /** Nothing could start, so waiting is the next step, whichever gate wins the race. */
  lemma SettleIsNext(gates: seq<Gate>, maxActive: int, execute: Executor, s: Sched, k: nat)
    requires k < |s.running| && (|s.running| >= maxActive || FirstReady(gates, s.board.states).None?)
    ensures Next(gates, maxActive, execute, s, Settle(s, execute, k))
  {
  }

  /** For every settle order the contract leaves open through the choice of `k`. `calls` lists the
      `execute` and `observe` calls made. */
  method RunGates(gates: seq<Gate>, maxActive: int, execute: Executor) returns (r: Outcome, calls: seq<Event>)
    ensures r.Rejected? <==> !Executable(gates)
    ensures r.Rejected? ==> Justified(gates, r.error) && calls == []
    ensures r.BadConcurrency? <==> Executable(gates) && !(1 <= maxActive <= MAX_SAFE_INTEGER)
    ensures r.Done? <==> Executable(gates) && 1 <= maxActive <= MAX_SAFE_INTEGER
    ensures r.Done? ==> InListOrder(gates, FinalBoard(gates, execute), r.results)
    ensures r.Done? ==> CallsInOrder(gates, calls) && AllObserved(gates, FinalBoard(gates, execute), calls)
    ensures r.Done? ==> ExecutesExactly(gates, Valuation(gates, execute), calls)
    ensures r.Done? ==> CallsInTurn(gates, maxActive, execute, calls)
  {
    hide CallsInTurn, Executable, FinalBoard, CallsInOrder, AllObserved, InListOrder, Next, Measure, Inv, FirstReady, ExecutesExactly, IsRun, Justified;
    calls := [];
    var error := ValidateGateGraph(gates);
    if error.Some? { return Rejected(error.value), calls; }
    if !(1 <= maxActive <= MAX_SAFE_INTEGER) { return BadConcurrency, calls; }
    var s := Init(gates);
    ghost var run := [s];
    FirstState(gates, maxActive, execute);
    while true
      invariant IsRun(gates, maxActive, execute, run) && IsLast(run, s)
      decreases Measure(s)
    {
      var madeProgress;
      ghost var before := s;
      madeProgress, s, run := StartReady(gates, maxActive, execute, s, run);
      if |s.running| == 0 {
        var stalled;
        stalled, s, run := Cascade(gates, maxActive, execute, s, run);
        if stalled { return Stalled, s.log; }
        break;
      }
      if !madeProgress {
        var k: nat :| k < |s.running|;
        var next := Settle(s, execute, k);
        SettleIsNext(gates, maxActive, execute, s, k);
        ExtendRun(gates, maxActive, execute, run, s, next);
        NextShrinksMeasure(gates, maxActive, execute, s, next);
        s, run := next, run + [next];
      }
    }
    calls := s.log;
    RunCallsInTurn(gates, maxActive, execute, run, |run| - 1);
    FinalBoardIsValuation(gates, execute);
    r := Collect(gates, s.board);
  }

  lemma FirstState(gates: seq<Gate>, maxActive: int, execute: Executor)
    ensures IsRun(gates, maxActive, execute, [Init(gates)])
  {
  }

  method Collect(gates: seq<Gate>, board: Board) returns (r: Outcome)
    ensures r.Done? <==> Ids(gates) <= board.results.Keys
    ensures r.Done? ==> InListOrder(gates, board, r.results)
    ensures !r.Done? ==> r.MissingResult? && r.id in Ids(gates) && r.id !in board.results
  {
    var results := [];
    for i := 0 to |gates|
      invariant |results| == i
      invariant forall j :: 0 <= j < i ==> gates[j].id in board.results && results[j] == board.results[gates[j].id]
    {
      if gates[i].id !in board.results {
        assert gates[i] in gates;
        return MissingResult(gates[i].id);
      }
      results := results + [board.results[gates[i].id]];
    }
    r := Done(results);
  }

  lemma ResultValue(gates: seq<Gate>, execute: Executor, results: seq<GateResult>, i: nat)
    requires Executable(gates) && InListOrder(gates, FinalBoard(gates, execute), results) && i < |gates|
    requires forall gate :: execute(gate).gate == gate
    ensures gates[i].id in Ids(gates)
    ensures results[i].gate == gates[i] && results[i].status == Valuation(gates, execute)[gates[i].id]
  {
    hide Executable, FinalBoard, NeedsPass;
    FinalBoardIsValuation(gates, execute);
    assert gates[i] in gates;
  }

  /** The exit code depends on the graph and the gates' own outcomes alone: it is 0 exactly when
      every blocking gate has the value `Passed`. */
  lemma ExitCodeIsValue(gates: seq<Gate>, execute: Executor, results: seq<GateResult>)
    requires Executable(gates) && InListOrder(gates, FinalBoard(gates, execute), results)
    requires forall gate :: execute(gate).gate == gate
    ensures ExitCode(results) == 0 <==>
            forall gate :: gate in gates && !gate.allowFailure ==> Valuation(gates, execute)[gate.id] == Passed
  {
    hide Executable, FinalBoard, IsValuation;
    var v := Valuation(gates, execute);
    forall i | 0 <= i < |gates| ensures results[i].gate == gates[i] && results[i].status == v[gates[i].id] {
      ResultValue(gates, execute, results, i);
    }
    ResultsInOrder(gates, v, results);
  }

  lemma ResultsInOrder(gates: seq<Gate>, v: map<string, Status>, results: seq<GateResult>)
    requires |results| == |gates|
    requires forall i :: 0 <= i < |gates| ==> gates[i].id in v && results[i].gate == gates[i] && results[i].status == v[gates[i].id]
    ensures ExitCode(results) == 0 <==> forall gate :: gate in gates && !gate.allowFailure ==> v[gate.id] == Passed
  {
    if ExitCode(results) == 0 {
      forall gate | gate in gates && !gate.allowFailure ensures v[gate.id] == Passed {
        var i :| 0 <= i < |gates| && gates[i] == gate;
        assert results[i] in results;
      }
    } else {
      var r :| r in results && !r.gate.allowFailure && (r.status == Failed || r.status == Skipped);
      var i :| 0 <= i < |results| && results[i] == r;
      assert gates[i] in gates;
    }
  }

  /** A green exit means everything a blocking gate rests on passed, even gates that may fail. */
  lemma GreenExitCoversNeeds(gates: seq<Gate>, execute: Executor, results: seq<GateResult>, gate: Gate, walk: seq<string>)
    requires Executable(gates) && InListOrder(gates, FinalBoard(gates, execute), results)
    requires forall gate :: execute(gate).gate == gate
    requires ExitCode(results) == 0 && gate in gates && !gate.allowFailure
    requires IsWalk(NeedsById(gates), walk) && walk != [] && walk[0] == gate.id
    ensures forall id :: id in walk ==> id in Ids(gates) && Valuation(gates, execute)[id] == Passed
  {
    hide FinalBoard, IsValuation, IsWalk, Executable, ExitCode, InListOrder;
    var v := Valuation(gates, execute);
    var _ := ExecutableHasRank(gates);
    ExitCodeIsValue(gates, execute, results);
    assert gate.id in Ids(gates);
    forall id | id in walk ensures id in v && v[id] == Passed {
      var k :| 0 <= k < |walk| && walk[k] == id;
      PassedReachesPassed(gates, execute, v, walk, k);
    }
  }
}
