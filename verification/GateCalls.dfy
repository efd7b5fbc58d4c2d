/** The calls `runGates` makes, said over the calls alone: which gate is started next, when the run waits, which gate is
    skipped and what its skip reports. */
module GateCalls {
  import opened DependencyGraph
  import opened GateGraph
  import opened GateValue
  import opened GateScheduler
  import opened GateRuns

  // ------------------------------------------------------- what the calls so far show

  ghost predicate WasObserved(calls: seq<Event>, id: string) {
    exists r :: Observed(id, r) in calls
  }

  ghost predicate FailSeen(calls: seq<Event>, id: string) {
    exists r :: Observed(id, r) in calls && r.status != Passed
  }

  /** Not started, and every need seen to pass. */
  ghost predicate CanStart(calls: seq<Event>, gate: Gate) {
    Started(gate) !in calls && forall d <- gate.needs :: PassSeen(calls, d)
  }

  /** Not settled, and some need seen not to pass. */
  ghost predicate MustSkip(calls: seq<Event>, gate: Gate) {
    !WasObserved(calls, gate.id) && exists d <- gate.needs :: FailSeen(calls, d)
  }

  ghost function InFlight(gates: seq<Gate>, calls: seq<Event>): set<Gate> {
    set gate <- gates | Started(gate) in calls && !WasObserved(calls, gate.id)
  }

  // --------------------------------------------------------------- whose turn it is

  /** There is room, and no gate earlier in the list could be started. */
  ghost predicate StartsInTurn(gates: seq<Gate>, maxActive: int, calls: seq<Event>, gate: Gate) {
    && |InFlight(gates, calls)| < maxActive && gate in gates && CanStart(calls, gate)
    && forall j, k :: 0 <= j < k < |gates| && gates[k] == gate ==> !CanStart(calls, gates[j])
  }

  /** The run waits only at the cap or with nothing to start. */
  ghost predicate MayWait(gates: seq<Gate>, maxActive: int, calls: seq<Event>) {
    |InFlight(gates, calls)| >= maxActive || forall gate <- gates :: !CanStart(calls, gate)
  }

  /** Exactly the needs seen not to pass, as often as they are listed, in list order. */
  ghost predicate NamesFailed(calls: seq<Event>, needs: seq<string>, ids: seq<string>) {
    && IsSublist(ids, needs)
    && forall d :: multiset(ids)[d] == if FailSeen(calls, d) then multiset(needs)[d] else 0
  }

  /** Nothing runs, and no gate earlier in the list must be skipped. */
  ghost predicate SkipsInTurn(gates: seq<Gate>, calls: seq<Event>, gate: Gate, r: GateResult) {
    && InFlight(gates, calls) == {} && gate in gates && MustSkip(calls, gate)
    && (forall j, k :: 0 <= j < k < |gates| && gates[k] == gate ==> !MustSkip(calls, gates[j]))
    && r.gate == gate && r.status == Skipped && r.report.DependencyFailed? && NamesFailed(calls, gate.needs, r.report.ids)
  }

  /** A gate in flight settles with its executor's result, or a gate is skipped in its turn. */
  ghost predicate SettlesInTurn(gates: seq<Gate>, execute: Executor, calls: seq<Event>, id: string, r: GateResult) {
    exists gate <- gates :: gate.id == id &&
      if gate in InFlight(gates, calls) then r == execute(gate) else SkipsInTurn(gates, calls, gate, r)
  }

  ghost predicate CallInTurn(gates: seq<Gate>, maxActive: int, execute: Executor, calls: seq<Event>, e: Event) {
    match e
    case Started(gate) => StartsInTurn(gates, maxActive, calls, gate)
    case Observed(id, r) => MayWait(gates, maxActive, calls) && SettlesInTurn(gates, execute, calls, id, r)
  }

  /** Every call is the one whose turn it was after the calls before it. */
  ghost predicate CallsInTurn(gates: seq<Gate>, maxActive: int, execute: Executor, calls: seq<Event>) {
    forall i: nat :: i < |calls| ==> CallInTurn(gates, maxActive, execute, calls[..i], calls[i])
  }

  // ------------------------------------------------ what the board knows, the calls show

  /** What holds of every state of a run. */
  ghost predicate Sound(gates: seq<Gate>, maxActive: int, execute: Executor, v: map<string, Status>, s: Sched) {
    UniqueIds(gates) && Inv(gates, maxActive, execute, v, s) && LogOk(gates, s)
  }

  lemma SettledIsSeen(gates: seq<Gate>, maxActive: int, execute: Executor, v: map<string, Status>, s: Sched, id: string)
    requires Sound(gates, maxActive, execute, v, s)
    ensures Is(s.board.states, id, Settled(Passed)) <==> PassSeen(s.log, id)
    ensures Bad(s.board.states, id) <==> FailSeen(s.log, id)
    ensures id in s.board.results <==> WasObserved(s.log, id)
  {
    hide UniqueIds, RunningOk, NeedsPass, CallsInOrder;
    if id in Ids(gates) {
      var gate := GateOf(gates, id);
      assert GateOk(execute, v, s, gate);
      if id in s.board.results { assert Observed(id, s.board.results[id]) in s.log; }
    }
  }

  lemma PendingIsUnseen(gates: seq<Gate>, maxActive: int, execute: Executor, v: map<string, Status>, s: Sched, gate: Gate)
    requires Sound(gates, maxActive, execute, v, s) && gate in gates
    ensures IsReady(gate, s.board.states) <==> CanStart(s.log, gate)
    ensures s.running == [] ==> (IsBlocked(gate, s.board.states) <==> MustSkip(s.log, gate))
    ensures gate in s.running <==> Started(gate) in s.log && !WasObserved(s.log, gate.id)
  {
    assert GateOk(execute, v, s, gate);
    forall d ensures Is(s.board.states, d, Settled(Passed)) <==> PassSeen(s.log, d)
             ensures Bad(s.board.states, d) <==> FailSeen(s.log, d) {
      SettledIsSeen(gates, maxActive, execute, v, s, d);
    }
    SettledIsSeen(gates, maxActive, execute, v, s, gate.id);
    hide UniqueIds, RunningOk, LogOk, PassSeen, FailSeen, WasObserved, Bad, Inv;
    if DependenciesPassed(gate, s.board.states) { ReadyPasses(gates, maxActive, execute, v, s, gate); }
  }

  lemma ReadyPasses(gates: seq<Gate>, maxActive: int, execute: Executor, v: map<string, Status>, s: Sched, gate: Gate)
    requires Sound(gates, maxActive, execute, v, s) && DependenciesPassed(gate, s.board.states)
    ensures NeedsPass(gate, v)
  {
    ReadyValue(gates, maxActive, execute, v, s, gate);
  }

  lemma NoOneTwice<T>(s: seq<T>, x: set<T>)
    requires (forall i, j :: 0 <= i < j < |s| ==> s[i] != s[j]) && forall e :: e in s <==> e in x
    ensures |s| == |x|
    decreases s
  {
    if s == [] {
      assert x == {};
    } else {
      var last := s[|s| - 1];
      forall e ensures e in s[..|s| - 1] <==> e in x - {last} {}
      NoOneTwice(s[..|s| - 1], x - {last});
    }
  }

  lemma RunningIsInFlight(gates: seq<Gate>, maxActive: int, execute: Executor, v: map<string, Status>, s: Sched)
    requires Sound(gates, maxActive, execute, v, s)
    ensures |s.running| == |InFlight(gates, s.log)| && forall gate :: gate in s.running <==> gate in InFlight(gates, s.log)
  {
    assert RunningOk(gates, maxActive, s.running);
    hide Sound, WasObserved;
    forall gate <- gates ensures gate in s.running <==> gate in InFlight(gates, s.log) {
      PendingIsUnseen(gates, maxActive, execute, v, s, gate);
    }
    NoOneTwice(s.running, InFlight(gates, s.log));
  }

  /** The gate found stands before whatever else could be found. */
  lemma ReadyIsFirst(gates: seq<Gate>, states: map<string, State>)
    requires UniqueIds(gates) && FirstReady(gates, states).Some?
    ensures var gate := FirstReady(gates, states).value;
      && gate in gates && IsReady(gate, states)
      && forall j, k :: 0 <= j < k < |gates| && gates[k] == gate ==> !IsReady(gates[j], states)
  {
    hide IsReady;
  }

  lemma BlockedIsFirst(gates: seq<Gate>, states: map<string, State>)
    requires UniqueIds(gates) && FirstBlocked(gates, states).Some?
    ensures var gate := FirstBlocked(gates, states).value;
      && gate in gates && IsBlocked(gate, states)
      && forall j, k :: 0 <= j < k < |gates| && gates[k] == gate ==> !IsBlocked(gates[j], states)
  {
    hide IsBlocked;
  }

  lemma NothingInFlight(gates: seq<Gate>, maxActive: int, execute: Executor, v: map<string, Status>, s: Sched)
    requires Sound(gates, maxActive, execute, v, s) && s.running == []
    ensures InFlight(gates, s.log) == {}
  {
    hide Sound;
    RunningIsInFlight(gates, maxActive, execute, v, s);
  }

  lemma NoneReady(gates: seq<Gate>, maxActive: int, execute: Executor, v: map<string, Status>, s: Sched)
    requires Sound(gates, maxActive, execute, v, s) && (|s.running| >= maxActive || FirstReady(gates, s.board.states).None?)
    ensures MayWait(gates, maxActive, s.log)
  {
    hide Sound, IsReady, CanStart, InFlight;
    RunningIsInFlight(gates, maxActive, execute, v, s);
    forall gate <- gates ensures IsReady(gate, s.board.states) <==> CanStart(s.log, gate) {
      PendingIsUnseen(gates, maxActive, execute, v, s, gate);
    }
  }

  lemma ReadyInTurn(gates: seq<Gate>, maxActive: int, execute: Executor, v: map<string, Status>, s: Sched)
    requires Sound(gates, maxActive, execute, v, s) && |s.running| < maxActive && FirstReady(gates, s.board.states).Some?
    ensures StartsInTurn(gates, maxActive, s.log, FirstReady(gates, s.board.states).value)
  {
    ReadyIsFirst(gates, s.board.states);
    hide Sound, IsReady, CanStart, InFlight, FirstReady;
    RunningIsInFlight(gates, maxActive, execute, v, s);
    forall other <- gates ensures IsReady(other, s.board.states) <==> CanStart(s.log, other) {
      PendingIsUnseen(gates, maxActive, execute, v, s, other);
    }
  }

  lemma {:induction false} BadNeedsAreNamed(calls: seq<Event>, needs: seq<string>, states: map<string, State>)
    requires forall d :: Bad(states, d) <==> FailSeen(calls, d)
    ensures NamesFailed(calls, needs, BadNeeds(needs, states))
  {
    hide Bad, FailSeen;
    BadNeedsAreExact(needs, states);
    if needs != [] {
      BadNeedsAreNamed(calls, needs[1..], states);
      assert needs == [needs[0]] + needs[1..];
    }
  }

  lemma SkipIsNamed(gates: seq<Gate>, maxActive: int, execute: Executor, v: map<string, Status>, s: Sched, gate: Gate)
    requires Sound(gates, maxActive, execute, v, s)
    ensures var r := SkipResult(gate, s.board.states);
      r.gate == gate && r.status == Skipped && r.report.DependencyFailed? && NamesFailed(s.log, gate.needs, r.report.ids)
  {
    hide Sound, NamesFailed, FailSeen, Bad;
    forall d ensures Bad(s.board.states, d) <==> FailSeen(s.log, d) { SettledIsSeen(gates, maxActive, execute, v, s, d); }
    BadNeedsAreNamed(s.log, gate.needs, s.board.states);
  }

  lemma BlockedInTurn(gates: seq<Gate>, maxActive: int, execute: Executor, v: map<string, Status>, s: Sched)
    requires Sound(gates, maxActive, execute, v, s) && s.running == [] && FirstBlocked(gates, s.board.states).Some?
    ensures var gate := FirstBlocked(gates, s.board.states).value;
            SkipsInTurn(gates, s.log, gate, SkipResult(gate, s.board.states)) && gate !in InFlight(gates, s.log) && gate in gates
  {
    BlockedIsFirst(gates, s.board.states);
    hide Sound, IsBlocked, MustSkip, NamesFailed, InFlight, FirstBlocked, SkipResult;
    NothingInFlight(gates, maxActive, execute, v, s);
    forall other <- gates ensures IsBlocked(other, s.board.states) <==> MustSkip(s.log, other) {
      PendingIsUnseen(gates, maxActive, execute, v, s, other);
    }
    SkipIsNamed(gates, maxActive, execute, v, s, FirstBlocked(gates, s.board.states).value);
  }

  lemma SettledInTurn(gates: seq<Gate>, maxActive: int, execute: Executor, v: map<string, Status>, s: Sched, k: nat)
    requires Sound(gates, maxActive, execute, v, s) && k < |s.running|
    ensures SettlesInTurn(gates, execute, s.log, s.running[k].id, execute(s.running[k]))
  {
    hide Sound, InFlight, SkipsInTurn;
    RunningIsInFlight(gates, maxActive, execute, v, s);
    RunningIsListed(gates, maxActive, execute, v, s, k);
  }

  /** A step of the scheduler makes the call whose turn it is. */
  lemma NextCall(gates: seq<Gate>, maxActive: int, execute: Executor, v: map<string, Status>, s: Sched, t: Sched) returns (e: Event)
    requires Sound(gates, maxActive, execute, v, s) && maxActive >= 1 && Next(gates, maxActive, execute, s, t)
    ensures t.log == s.log + [e] && CallInTurn(gates, maxActive, execute, s.log, e)
  {
    hide Sound, StartsInTurn, SkipsInTurn, MayWait, InFlight, FirstReady, FirstBlocked, SkipResult;
    var ready, blocked := FirstReady(gates, s.board.states), FirstBlocked(gates, s.board.states);
    if |s.running| < maxActive && ready.Some? {
      ReadyInTurn(gates, maxActive, execute, v, s);
      e := Started(ready.value);
    } else if s.running == [] {
      NoneReady(gates, maxActive, execute, v, s);
      BlockedInTurn(gates, maxActive, execute, v, s);
      e := Observed(blocked.value.id, SkipResult(blocked.value, s.board.states));
    } else {
      var k: nat :| k < |s.running| && t == Settle(s, execute, k);
      NoneReady(gates, maxActive, execute, v, s);
      hide SettlesInTurn;
      SettledInTurn(gates, maxActive, execute, v, s, k);
      e := Observed(s.running[k].id, execute(s.running[k]));
    }
  }

  lemma RunningIsListed(gates: seq<Gate>, maxActive: int, execute: Executor, v: map<string, Status>, s: Sched, k: nat)
    requires Sound(gates, maxActive, execute, v, s) && k < |s.running|
    ensures s.running[k] in gates && s.running[k] in s.running
  {
  }

  lemma InTurnAppend(gates: seq<Gate>, maxActive: int, execute: Executor, calls: seq<Event>, e: Event)
    requires CallsInTurn(gates, maxActive, execute, calls) && CallInTurn(gates, maxActive, execute, calls, e)
    ensures CallsInTurn(gates, maxActive, execute, calls + [e])
  {
    hide CallInTurn;
    forall i: nat | i < |calls + [e]| ensures CallInTurn(gates, maxActive, execute, (calls + [e])[..i], (calls + [e])[i]) {
      if i < |calls| { assert (calls + [e])[..i] == calls[..i]; } else { assert (calls + [e])[..i] == calls; }
    }
  }

  /** Over every run, whatever the settle order: each call is the one whose turn it is. */
  lemma {:induction false} RunCallsInTurn(gates: seq<Gate>, maxActive: int, execute: Executor, run: seq<Sched>, i: nat)
    requires Executable(gates) && maxActive >= 1 && IsRun(gates, maxActive, execute, run) && i < |run|
    ensures CallsInTurn(gates, maxActive, execute, run[i].log)
  {
    hide Inv, LogOk, Next, IsValuation, UniqueIds, CallInTurn, Executable, Closed, Ranks;
    if i > 0 {
      var v := Valuation(gates, execute);
      var _ := ExecutableHasRank(gates);
      RunCallsInTurn(gates, maxActive, execute, run, i - 1);
      RunKeepsInv(gates, maxActive, execute, v, run, i - 1);
      RunKeepsLog(gates, maxActive, execute, v, run, i - 1);
      assert Steps(gates, maxActive, execute, run, i - 1);
      var e := NextCall(gates, maxActive, execute, v, run[i - 1], run[i]);
      InTurnAppend(gates, maxActive, execute, run[i - 1].log, e);
    }
  }
}
