/** Theorems about whole runs of the gate scheduler. */
module GateRuns {
  import opened Options
  import opened DependencyGraph
  import opened GateGraph
  import opened GateValue
  import opened GateScheduler

  // ------------------------------------------------------- progress and length

  ghost function PendingIds(board: Board): set<string> {
    set id | id in board.states && board.states[id] == Pending
  }

  ghost function Measure(s: Sched): nat {
    2 * |PendingIds(s.board)| + |s.running|
  }

  lemma PendingAfterUpdate(b: Board, c: Board, id: string, state: State)
    requires c.states == b.states[id := state] && state != Pending
    ensures |PendingIds(c)| == |PendingIds(b)| - (if Is(b.states, id, Pending) then 1 else 0)
  {
    assert PendingIds(c) == PendingIds(b) - {id};
  }

  lemma NextShrinksMeasure(gates: seq<Gate>, maxActive: int, execute: Executor, s: Sched, t: Sched)
    requires Next(gates, maxActive, execute, s, t)
    ensures Measure(t) < Measure(s)
  {
    var ready := FirstReady(gates, s.board.states);
    if |s.running| < maxActive && ready.Some? {
      PendingAfterUpdate(s.board, t.board, ready.value.id, Running);
    } else if s.running == [] {
      PendingAfterUpdate(s.board, t.board, FirstBlocked(gates, s.board.states).value.id, Settled(Skipped));
    } else {
      var k: nat :| k < |s.running| && t == Settle(s, execute, k);
      PendingAfterUpdate(s.board, t.board, s.running[k].id, Settled(execute(s.running[k]).status));
    }
  }

  /** Follow unpassed needs downwards: with nothing running and nothing ready, the descent ends
      at a gate with a failed or skipped need. */
  lemma {:induction false} PendingLeadsToBlocked(
      gates: seq<Gate>, maxActive: int, execute: Executor, v: map<string, Status>, s: Sched, rank: map<string, nat>, gate: Gate)
    requires UniqueIds(gates) && Closed(NeedsById(gates)) && Ranks(NeedsById(gates), rank)
    requires Inv(gates, maxActive, execute, v, s) && s.running == [] && FirstReady(gates, s.board.states).None?
    requires gate in gates && Is(s.board.states, gate.id, Pending)
    ensures FirstBlocked(gates, s.board.states).Some?
    decreases rank[gate.id]
  {
    hide UniqueIds, RunningOk, NeedsPass;
    assert !IsReady(gate, s.board.states);
    var d :| d in gate.needs && !Is(s.board.states, d, Settled(Passed));
    NeedIsEdge(gates, gate, d);
    var need := GateOf(gates, d);
    assert GateOk(execute, v, s, need);
    if s.board.states[d] == Pending {
      PendingLeadsToBlocked(gates, maxActive, execute, v, s, rank, need);
    } else {
      assert Bad(s.board.states, d);
      assert IsBlocked(gate, s.board.states);
    }
  }

  /** A gate that could start or be skipped has not settled. */
  lemma PendingIsUnfinished(gates: seq<Gate>, s: Sched)
    requires FirstReady(gates, s.board.states).Some? || FirstBlocked(gates, s.board.states).Some?
    ensures !Finished(s)
  {
    var ready, blocked := FirstReady(gates, s.board.states), FirstBlocked(gates, s.board.states);
    var gate := if ready.Some? then ready.value else blocked.value;
    assert Is(s.board.states, gate.id, Pending);
  }

  lemma LeftoverIsBlocked(gates: seq<Gate>, maxActive: int, execute: Executor, v: map<string, Status>, s: Sched)
    requires Executable(gates) && Inv(gates, maxActive, execute, v, s)
    requires s.running == [] && FirstReady(gates, s.board.states).None? && !Finished(s)
    ensures FirstBlocked(gates, s.board.states).Some?
  {
    var id :| id in s.board.states && !s.board.states[id].Settled?;
    var gate := GateOf(gates, id);
    assert GateOk(execute, v, s, gate);
    hide Inv, GateOk, Executable, Closed, Ranks, UniqueIds, FirstReady, FirstBlocked;
    var rank := ExecutableHasRank(gates);
    PendingLeadsToBlocked(gates, maxActive, execute, v, s, rank, gate);
  }

  /** No stall: on an accepted graph a run can always take a step until every gate has settled,
      and then it takes none. */
  lemma StepsUntilFinished(gates: seq<Gate>, maxActive: int, execute: Executor, v: map<string, Status>, s: Sched)
    requires Executable(gates) && maxActive >= 1 && Inv(gates, maxActive, execute, v, s)
    ensures (exists t :: Next(gates, maxActive, execute, s, t)) <==> !Finished(s)
  {
    hide Inv, Executable, FirstReady, FirstBlocked;
    var ready, blocked := FirstReady(gates, s.board.states), FirstBlocked(gates, s.board.states);
    if ready.Some? || blocked.Some? { PendingIsUnfinished(gates, s); }
    if |s.running| < maxActive && ready.Some? {
      assert Next(gates, maxActive, execute, s, Start(s, ready.value));
    } else if s.running != [] {
      assert Next(gates, maxActive, execute, s, Settle(s, execute, 0));
    } else if !Finished(s) {
      LeftoverIsBlocked(gates, maxActive, execute, v, s);
      assert Next(gates, maxActive, execute, s, Skip(s, blocked.value));
    }
  }

  lemma {:induction false} RunKeepsInv(
      gates: seq<Gate>, maxActive: int, execute: Executor, v: map<string, Status>, run: seq<Sched>, i: nat)
    requires Context(gates, execute, v) && maxActive >= 0 && IsRun(gates, maxActive, execute, run) && i < |run|
    ensures Inv(gates, maxActive, execute, v, run[i])
    ensures i + Measure(run[i]) <= 2 * |gates|
  {
    if i == 0 {
      InitInv(gates, maxActive, execute, v);
      assert PendingIds(run[0].board) == Ids(gates);
      IdsBound(gates);
    } else {
      RunKeepsInv(gates, maxActive, execute, v, run, i - 1);
      assert Steps(gates, maxActive, execute, run, i - 1);
      NextKeepsInv(gates, maxActive, execute, v, run[i - 1], run[i]);
      NextShrinksMeasure(gates, maxActive, execute, run[i - 1], run[i]);
    }
  }

  lemma {:induction false} IdsBound(gates: seq<Gate>)
    ensures |Ids(gates)| <= |gates|
  {
    if gates != [] {
      var rest, last := gates[..|gates| - 1], gates[|gates| - 1];
      assert gates == rest + [last];
      IdsBound(rest);
      assert Ids(gates) == Ids(rest) + {last.id};
    }
  }

  // ------------------------------------------------------------ calls in order

  ghost predicate SameCall(a: Event, b: Event) {
    (a.Started? && b.Started? && a.gate.id == b.gate.id) || (a.Observed? && b.Observed? && a.id == b.id)
  }

  ghost predicate PassSeen(log: seq<Event>, id: string) {
    exists r :: Observed(id, r) in log && r.status == Passed
  }

  /** Every gate is executed at most once and observed at most once, and each `execute` call comes
      after a passing `observe` of every need. */
  ghost predicate CallsInOrder(gates: seq<Gate>, log: seq<Event>) {
    && (forall e :: e in log && e.Started? ==> e.gate in gates)
    && (forall i, j :: 0 <= i < j < |log| ==> !SameCall(log[i], log[j]))
    && (forall i, d :: 0 <= i < |log| && log[i].Started? && d in log[i].gate.needs ==> PassSeen(log[..i], d))
  }

  ghost predicate LogOk(gates: seq<Gate>, s: Sched) {
    && CallsInOrder(gates, s.log)
    && (forall id, r :: Observed(id, r) in s.log <==> id in s.board.results && s.board.results[id] == r)
  }

  lemma AppendCall(gates: seq<Gate>, s: Sched, t: Sched, e: Event)
    requires LogOk(gates, s) && t.log == s.log + [e]
    requires forall x :: x in s.log ==> !SameCall(x, e)
    requires forall id, r :: (id in t.board.results && t.board.results[id] == r) <==> (id in s.board.results && s.board.results[id] == r) || Observed(id, r) == e
    requires e.Started? ==> e.gate in gates && forall d :: d in e.gate.needs ==> PassSeen(s.log, d)
    ensures LogOk(gates, t)
  {
    forall i, d | 0 <= i < |t.log| && t.log[i].Started? && d in t.log[i].gate.needs ensures PassSeen(t.log[..i], d) {
      if i < |s.log| { assert t.log[..i] == s.log[..i]; } else { assert t.log[..i] == s.log; }
    }
  }

  lemma StartKeepsLog(gates: seq<Gate>, maxActive: int, execute: Executor, v: map<string, Status>, s: Sched, gate: Gate)
    requires UniqueIds(gates) && Inv(gates, maxActive, execute, v, s) && LogOk(gates, s)
    requires gate in gates && IsReady(gate, s.board.states)
    ensures LogOk(gates, Start(s, gate))
  {
    assert GateOk(execute, v, s, gate);
    forall x | x in s.log ensures !SameCall(x, Started(gate)) {
      if x.Started? { OtherGateOtherId(gates, x.gate, gate); }
    }
    forall d | d in gate.needs ensures PassSeen(s.log, d) {
      var need :| need in gates && need.id == d;
      assert GateOk(execute, v, s, need);
      assert Observed(d, s.board.results[d]) in s.log;
    }
    AppendCall(gates, s, Start(s, gate), Started(gate));
  }

  /** Recording a gate that has no result yet. */
  lemma RecordKeepsLog(gates: seq<Gate>, s: Sched, t: Sched, id: string, result: GateResult)
    requires LogOk(gates, s) && id !in s.board.results
    requires t.board == Record(s.board, id, result) && t.log == s.log + [Observed(id, result)]
    ensures LogOk(gates, t)
  {
    forall x | x in s.log ensures !SameCall(x, Observed(id, result)) {
      if x.Observed? { assert Observed(x.id, x.result) in s.log; }
    }
    AppendCall(gates, s, t, Observed(id, result));
  }

  lemma NextKeepsLog(gates: seq<Gate>, maxActive: int, execute: Executor, v: map<string, Status>, s: Sched, t: Sched)
    requires UniqueIds(gates) && Inv(gates, maxActive, execute, v, s) && LogOk(gates, s)
    requires Next(gates, maxActive, execute, s, t)
    ensures LogOk(gates, t)
  {
    var ready := FirstReady(gates, s.board.states);
    if |s.running| < maxActive && ready.Some? {
      StartKeepsLog(gates, maxActive, execute, v, s, ready.value);
    } else if s.running == [] {
      var gate := FirstBlocked(gates, s.board.states).value;
      assert GateOk(execute, v, s, gate);
      RecordKeepsLog(gates, s, t, gate.id, SkipResult(gate, s.board.states));
    } else {
      var k: nat :| k < |s.running| && t == Settle(s, execute, k);
      assert GateOk(execute, v, s, s.running[k]);
      RecordKeepsLog(gates, s, t, s.running[k].id, execute(s.running[k]));
    }
  }

  lemma {:induction false} RunKeepsLog(
      gates: seq<Gate>, maxActive: int, execute: Executor, v: map<string, Status>, run: seq<Sched>, i: nat)
    requires Context(gates, execute, v) && maxActive >= 0 && IsRun(gates, maxActive, execute, run) && i < |run|
    ensures LogOk(gates, run[i])
  {
    hide Inv, Next, IsValuation, UniqueIds;
    if i > 0 {
      RunKeepsLog(gates, maxActive, execute, v, run, i - 1);
      RunKeepsInv(gates, maxActive, execute, v, run, i - 1);
      assert Steps(gates, maxActive, execute, run, i - 1);
      NextKeepsLog(gates, maxActive, execute, v, run[i - 1], run[i]);
    }
  }

  // --------------------------------------------------------------- confluence

  /** Skip first-blocked gates until none is blocked. */
  ghost function SkipAll(gates: seq<Gate>, board: Board): Board
    decreases |PendingIds(board)|
  {
    var blocked := FirstBlocked(gates, board.states);
    if blocked.None? then board
    else
      var next := Record(board, blocked.value.id, SkipResult(blocked.value, board.states));
      PendingAfterUpdate(board, next, blocked.value.id, Settled(Skipped));
      SkipAll(gates, next)
  }

  /** Exactly the gates whose needs all pass have settled, each with its executor's result. */
  ghost function Quiescent(gates: seq<Gate>, execute: Executor, v: map<string, Status>): Board {
    Board(map id | id in Ids(gates) :: QuietState(gates, execute, v, id),
          map id | id in Ids(gates) && NeedsPass(GateOf(gates, id), v) :: execute(GateOf(gates, id)))
  }

  ghost function QuietState(gates: seq<Gate>, execute: Executor, v: map<string, Status>, id: string): State
    requires id in Ids(gates)
  {
    if NeedsPass(GateOf(gates, id), v) then Settled(execute(GateOf(gates, id)).status) else Pending
  }

  /** The one final board: statuses, results and the text of every skip report. */
  ghost function FinalBoard(gates: seq<Gate>, execute: Executor): Board
    requires Executable(gates)
  {
    SkipAll(gates, Quiescent(gates, execute, Valuation(gates, execute)))
  }

  ghost predicate NothingSkipped(gates: seq<Gate>, v: map<string, Status>, s: Sched) {
    forall gate :: gate in gates && gate.id in s.board.states && s.board.states[gate.id].Settled? ==> NeedsPass(gate, v)
  }

  /** Either no gate has been skipped yet, or the run is skipping its way to the final board. */
  ghost predicate OnCourse(gates: seq<Gate>, v: map<string, Status>, final: Board, s: Sched) {
    NothingSkipped(gates, v, s) ||
    (s.running == [] && FirstReady(gates, s.board.states).None? && SkipAll(gates, s.board) == final)
  }

  /** With nothing running and nothing ready, a gate still pending has a need that does not pass. */
  lemma {:induction false} LeftoverHasFailedNeed(
      gates: seq<Gate>, maxActive: int, execute: Executor, v: map<string, Status>, s: Sched, rank: map<string, nat>, gate: Gate)
    requires Context(gates, execute, v) && Closed(NeedsById(gates)) && Ranks(NeedsById(gates), rank)
    requires Inv(gates, maxActive, execute, v, s) && s.running == [] && FirstReady(gates, s.board.states).None?
    requires gate in gates && Is(s.board.states, gate.id, Pending)
    ensures !NeedsPass(gate, v)
    decreases rank[gate.id]
  {
    assert !IsReady(gate, s.board.states);
    var d :| d in gate.needs && !Is(s.board.states, d, Settled(Passed));
    NeedIsEdge(gates, gate, d);
    var need := GateOf(gates, d);
    assert GateOk(execute, v, s, need);
    if s.board.states[d] == Pending {
      LeftoverHasFailedNeed(gates, maxActive, execute, v, s, rank, need);
    }
  }

  lemma QuietEntry(
      gates: seq<Gate>, maxActive: int, execute: Executor, v: map<string, Status>, s: Sched, rank: map<string, nat>, id: string)
    requires Context(gates, execute, v) && Closed(NeedsById(gates)) && Ranks(NeedsById(gates), rank)
    requires Inv(gates, maxActive, execute, v, s) && s.running == [] && FirstReady(gates, s.board.states).None?
    requires NothingSkipped(gates, v, s) && id in Ids(gates)
    ensures s.board.states[id] == QuietState(gates, execute, v, id)
    ensures id in s.board.results <==> NeedsPass(GateOf(gates, id), v)
    ensures id in s.board.results ==> s.board.results[id] == execute(GateOf(gates, id))
  {
    var gate := GateOf(gates, id);
    assert GateOk(execute, v, s, gate);
    if s.board.states[id] == Pending { LeftoverHasFailedNeed(gates, maxActive, execute, v, s, rank, gate); }
  }

  lemma BoardByEntries(gates: seq<Gate>, execute: Executor, v: map<string, Status>, board: Board)
    requires board.states.Keys == Ids(gates) && board.results.Keys <= Ids(gates)
    requires forall id :: id in Ids(gates) ==> board.states[id] == QuietState(gates, execute, v, id)
    requires forall id :: id in Ids(gates) ==> (id in board.results <==> NeedsPass(GateOf(gates, id), v))
    requires forall id :: id in board.results ==> board.results[id] == execute(GateOf(gates, id))
    ensures board == Quiescent(gates, execute, v)
  {
    hide QuietState, NeedsPass, Ids;
    assert board.states == Quiescent(gates, execute, v).states;
    assert board.results == Quiescent(gates, execute, v).results;
  }

  lemma QuietBoardIsQuiescent(
      gates: seq<Gate>, maxActive: int, execute: Executor, v: map<string, Status>, s: Sched, rank: map<string, nat>)
    requires Context(gates, execute, v) && Closed(NeedsById(gates)) && Ranks(NeedsById(gates), rank)
    requires Inv(gates, maxActive, execute, v, s) && s.running == [] && FirstReady(gates, s.board.states).None?
    requires NothingSkipped(gates, v, s)
    ensures s.board == Quiescent(gates, execute, v)
  {
    hide Context, Closed, Ranks, NothingSkipped, FirstReady, NeedsPass, QuietState, Quiescent, GateOk, RunningOk, Ids;
    forall id | id in Ids(gates)
      ensures s.board.states[id] == QuietState(gates, execute, v, id)
      ensures id in s.board.results <==> NeedsPass(GateOf(gates, id), v)
      ensures id in s.board.results ==> s.board.results[id] == execute(GateOf(gates, id))
    {
      QuietEntry(gates, maxActive, execute, v, s, rank, id);
    }
    BoardByEntries(gates, execute, v, s.board);
  }

  lemma SkipKeepsNoneReady(gates: seq<Gate>, s: Sched, gate: Gate)
    requires FirstReady(gates, s.board.states).None? && Is(s.board.states, gate.id, Pending)
    ensures FirstReady(gates, Skip(s, gate).board.states).None?
  {
    var t := Skip(s, gate).board.states;
    forall other | other in gates ensures !IsReady(other, t) {
      assert !IsReady(other, s.board.states);
      if Is(t, other.id, Pending) {
        var d :| d in other.needs && !Is(s.board.states, d, Settled(Passed));
        assert !Is(t, d, Settled(Passed));
      }
    }
  }

  /** A settling gate was running, so its needs pass. */
  lemma SettleSkipsNothing(gates: seq<Gate>, maxActive: int, execute: Executor, v: map<string, Status>, s: Sched, k: nat)
    requires UniqueIds(gates) && Inv(gates, maxActive, execute, v, s) && NothingSkipped(gates, v, s) && k < |s.running|
    ensures NothingSkipped(gates, v, Settle(s, execute, k))
  {
    assert GateOk(execute, v, s, s.running[k]);
    forall gate | gate in gates && gate.id == s.running[k].id ensures NeedsPass(gate, v) {
      SameIdSameGate(gates, gate, s.running[k]);
    }
  }

  lemma SkipStaysOnCourse(
      gates: seq<Gate>, maxActive: int, execute: Executor, v: map<string, Status>, rank: map<string, nat>, s: Sched, gate: Gate)
    requires Context(gates, execute, v) && Closed(NeedsById(gates)) && Ranks(NeedsById(gates), rank)
    requires Inv(gates, maxActive, execute, v, s) && s.running == [] && FirstReady(gates, s.board.states).None?
    requires FirstBlocked(gates, s.board.states) == Some(gate)
    requires OnCourse(gates, v, SkipAll(gates, Quiescent(gates, execute, v)), s)
    ensures OnCourse(gates, v, SkipAll(gates, Quiescent(gates, execute, v)), Skip(s, gate))
  {
    if NothingSkipped(gates, v, s) { QuietBoardIsQuiescent(gates, maxActive, execute, v, s, rank); }
    SkipKeepsNoneReady(gates, s, gate);
    assert SkipAll(gates, s.board) == SkipAll(gates, Skip(s, gate).board);
  }

  lemma NextStaysOnCourse(
      gates: seq<Gate>, maxActive: int, execute: Executor, v: map<string, Status>, rank: map<string, nat>, s: Sched, t: Sched)
    requires Context(gates, execute, v) && Closed(NeedsById(gates)) && Ranks(NeedsById(gates), rank) && maxActive >= 1
    requires Inv(gates, maxActive, execute, v, s) && Next(gates, maxActive, execute, s, t)
    requires OnCourse(gates, v, SkipAll(gates, Quiescent(gates, execute, v)), s)
    ensures OnCourse(gates, v, SkipAll(gates, Quiescent(gates, execute, v)), t)
  {
    hide Inv, SkipAll, Quiescent, IsValuation, Closed, Ranks;
    var ready := FirstReady(gates, s.board.states);
    if |s.running| < maxActive && ready.Some? {
      assert NothingSkipped(gates, v, t);
    } else if s.running == [] {
      SkipStaysOnCourse(gates, maxActive, execute, v, rank, s, FirstBlocked(gates, s.board.states).value);
    } else {
      var k: nat :| k < |s.running| && t == Settle(s, execute, k);
      SettleSkipsNothing(gates, maxActive, execute, v, s, k);
    }
  }

  lemma {:induction false} RunStaysOnCourse(
      gates: seq<Gate>, maxActive: int, execute: Executor, v: map<string, Status>, rank: map<string, nat>, run: seq<Sched>, i: nat)
    requires Context(gates, execute, v) && Closed(NeedsById(gates)) && Ranks(NeedsById(gates), rank) && maxActive >= 1
    requires IsRun(gates, maxActive, execute, run) && i < |run|
    ensures OnCourse(gates, v, SkipAll(gates, Quiescent(gates, execute, v)), run[i])
  {
    if i == 0 {
      assert NothingSkipped(gates, v, run[0]);
    } else {
      RunStaysOnCourse(gates, maxActive, execute, v, rank, run, i - 1);
      RunKeepsInv(gates, maxActive, execute, v, run, i - 1);
      assert Steps(gates, maxActive, execute, run, i - 1);
      NextStaysOnCourse(gates, maxActive, execute, v, rank, run[i - 1], run[i]);
    }
  }

  lemma FinishedBoard(
      gates: seq<Gate>, maxActive: int, execute: Executor, v: map<string, Status>, rank: map<string, nat>, s: Sched)
    requires Context(gates, execute, v) && Closed(NeedsById(gates)) && Ranks(NeedsById(gates), rank)
    requires Inv(gates, maxActive, execute, v, s) && Finished(s)
    requires OnCourse(gates, v, SkipAll(gates, Quiescent(gates, execute, v)), s)
    ensures s.board == SkipAll(gates, Quiescent(gates, execute, v))
  {
    assert FirstReady(gates, s.board.states).None?;
    assert FirstBlocked(gates, s.board.states).None?;
    if NothingSkipped(gates, v, s) { QuietBoardIsQuiescent(gates, maxActive, execute, v, s, rank); }
  }

  /** Confluence: whatever settles first and however many workers there are, a finished run leaves
      the same board. */
  lemma FinishedRunsAgree(gates: seq<Gate>, maxActive: int, execute: Executor, run: seq<Sched>)
    requires Executable(gates) && maxActive >= 1 && IsRun(gates, maxActive, execute, run)
    requires Finished(run[|run| - 1])
    ensures run[|run| - 1].board == FinalBoard(gates, execute)
  {
    hide Inv, OnCourse, Finished, SkipAll, Quiescent, Closed, IsValuation, Ranks, Executable;
    var v := Valuation(gates, execute);
    var rank := ExecutableHasRank(gates);
    assert run != [];
    RunStaysOnCourse(gates, maxActive, execute, v, rank, run, |run| - 1);
    RunKeepsInv(gates, maxActive, execute, v, run, |run| - 1);
    FinishedBoard(gates, maxActive, execute, v, rank, run[|run| - 1]);
  }

  // ---------------------------------------------------------- every run, summed up

  ghost predicate IsLast(run: seq<Sched>, s: Sched) {
    run != [] && run[|run| - 1] == s
  }

  /** Over every run of an accepted graph, whatever the cap and the settle order: the invariant and
      the call order hold in every state, and a run has at most `2 * |gates| + 1` states. */
  lemma EveryRunIsSafe(gates: seq<Gate>, maxActive: int, execute: Executor, run: seq<Sched>)
    requires Executable(gates) && maxActive >= 1 && IsRun(gates, maxActive, execute, run)
    ensures |run| <= 2 * |gates| + 1
    ensures forall s :: s in run ==> |s.running| <= maxActive && CallsInOrder(gates, s.log)
    ensures forall s :: s in run ==> Inv(gates, maxActive, execute, Valuation(gates, execute), s)
  {
    hide Inv, LogOk, CallsInOrder, Executable;
    var v := Valuation(gates, execute);
    var _ := ExecutableHasRank(gates);
    forall s | s in run
      ensures Inv(gates, maxActive, execute, v, s) && |s.running| <= maxActive && CallsInOrder(gates, s.log)
    {
      var i :| 0 <= i < |run| && run[i] == s;
      RunKeepsInv(gates, maxActive, execute, v, run, i);
      RunKeepsLog(gates, maxActive, execute, v, run, i);
      InvCap(gates, maxActive, execute, v, s);
      LogCalls(gates, s);
    }
    RunKeepsInv(gates, maxActive, execute, v, run, |run| - 1);
  }

  lemma InvCap(gates: seq<Gate>, maxActive: int, execute: Executor, v: map<string, Status>, s: Sched)
    requires Inv(gates, maxActive, execute, v, s)
    ensures |s.running| <= maxActive
  {
  }

  lemma LogCalls(gates: seq<Gate>, s: Sched)
    requires LogOk(gates, s)
    ensures CallsInOrder(gates, s.log)
  {
  }

  /** A run that cannot be extended has finished, so the stall branch is never the next thing to do. */
  lemma StoppedMeansFinished(gates: seq<Gate>, maxActive: int, execute: Executor, run: seq<Sched>, s: Sched)
    requires Executable(gates) && maxActive >= 1 && IsRun(gates, maxActive, execute, run) && IsLast(run, s)
    ensures (forall t :: !Next(gates, maxActive, execute, s, t)) <==> Finished(s)
  {
    hide Inv, Next, Finished, Executable;
    var v := Valuation(gates, execute);
    var _ := ExecutableHasRank(gates);
    RunKeepsInv(gates, maxActive, execute, v, run, |run| - 1);
    StepsUntilFinished(gates, maxActive, execute, v, s);
  }

  lemma ExtendRun(gates: seq<Gate>, maxActive: int, execute: Executor, run: seq<Sched>, s: Sched, t: Sched)
    requires IsRun(gates, maxActive, execute, run) && IsLast(run, s) && Next(gates, maxActive, execute, s, t)
    ensures IsRun(gates, maxActive, execute, run + [t]) && IsLast(run + [t], t)
  {
    hide Next;
    forall i: nat | i + 1 < |run + [t]| ensures Steps(gates, maxActive, execute, run + [t], i) {
      if i + 1 < |run| { assert Steps(gates, maxActive, execute, run, i); }
    }
  }

  /** Every run, stopped anywhere, goes on to a finished one, and that one ends on the final board. */
  lemma {:induction false} EveryRunCanFinish(
      gates: seq<Gate>, maxActive: int, execute: Executor, run: seq<Sched>, s: Sched) returns (full: seq<Sched>)
    requires Executable(gates) && maxActive >= 1 && IsRun(gates, maxActive, execute, run) && IsLast(run, s)
    ensures IsRun(gates, maxActive, execute, full) && run <= full
    ensures Finished(full[|full| - 1]) && full[|full| - 1].board == FinalBoard(gates, execute)
    decreases Measure(s)
  {
    hide Next, Finished, Executable, FinalBoard, IsRun, Measure;
    StoppedMeansFinished(gates, maxActive, execute, run, s);
    if t :| Next(gates, maxActive, execute, s, t) {
      ExtendRun(gates, maxActive, execute, run, s, t);
      NextShrinksMeasure(gates, maxActive, execute, s, t);
      full := EveryRunCanFinish(gates, maxActive, execute, run + [t], t);
      assert run <= run + [t] <= full;
    } else {
      full := run;
      FinishedRunsAgree(gates, maxActive, execute, run);
    }
  }

  // ------------------------------------------------------------- what a skip reports

  /** The ids a skip names: needs in list order, none of which passes, every need that ran and did not pass among
      them, and at least one. */
  ghost predicate SkipNames(gates: seq<Gate>, v: map<string, Status>, gate: Gate, ids: seq<string>) {
    && ids != [] && IsSublist(ids, gate.needs)
    && (forall d <- ids :: d in v && v[d] != Passed)
    && forall d <- gate.needs :: d in Ids(gates) && d in v && NeedsPass(GateOf(gates, d), v) && v[d] != Passed ==> d in ids
  }

  /** `a` is what is left of `b` when some entries are taken out. */
  ghost predicate IsSublist(a: seq<string>, b: seq<string>) {
    a == [] || (b != [] && ((a[0] == b[0] && IsSublist(a[1..], b[1..])) || IsSublist(a, b[1..])))
  }

  lemma {:induction false} BadNeedsAreExact(needs: seq<string>, states: map<string, State>)
    ensures IsSublist(BadNeeds(needs, states), needs)
    ensures forall d :: d in BadNeeds(needs, states) <==> d in needs && Bad(states, d)
  {
    hide Bad;
    if needs != [] {
      var rest := BadNeeds(needs[1..], states);
      BadNeedsAreExact(needs[1..], states);
      assert ([needs[0]] + rest)[1..] == rest && [] + rest == rest;
      assert forall d :: d in needs <==> d == needs[0] || d in needs[1..];
    }
  }

  /** Settled gates have their value, and every gate whose needs pass has settled. */
  ghost predicate Settling(gates: seq<Gate>, v: map<string, Status>, states: map<string, State>) {
    && (forall id <- states :: id in v && (states[id].Settled? ==> states[id].status == v[id]))
    && (forall gate <- gates :: gate.id in states && (NeedsPass(gate, v) ==> states[gate.id].Settled?))
  }

  /** The skips of a board name what they should. */
  ghost predicate SkipsNamed(gates: seq<Gate>, v: map<string, Status>, board: Board) {
    forall gate <- gates :: gate.id in board.results && !NeedsPass(gate, v) ==>
      board.results[gate.id].report.DependencyFailed? && SkipNames(gates, v, gate, board.results[gate.id].report.ids)
  }

  lemma SkipNamesBadNeeds(gates: seq<Gate>, execute: Executor, v: map<string, Status>, states: map<string, State>, gate: Gate)
    requires Context(gates, execute, v) && Settling(gates, v, states) && IsBlocked(gate, states)
    ensures SkipNames(gates, v, gate, BadNeeds(gate.needs, states))
  {
    hide UniqueIds, IsValuation;
    var ids := BadNeeds(gate.needs, states);
    BadNeedsAreExact(gate.needs, states);
    var bad :| bad in gate.needs && Bad(states, bad);
    assert bad in ids;
    forall d | d in gate.needs && d in Ids(gates) && d in v && NeedsPass(GateOf(gates, d), v) && v[d] != Passed ensures d in ids {
      assert GateOf(gates, d) in gates;
    }
  }

  lemma {:induction false} SkipAllNames(gates: seq<Gate>, execute: Executor, v: map<string, Status>, board: Board)
    requires Context(gates, execute, v) && Settling(gates, v, board.states) && SkipsNamed(gates, v, board)
    ensures SkipsNamed(gates, v, SkipAll(gates, board))
    decreases |PendingIds(board)|
  {
    var blocked := FirstBlocked(gates, board.states);
    if blocked.Some? {
      var gate := blocked.value;
      var next := Record(board, gate.id, SkipResult(gate, board.states));
      hide SkipNames, NeedsPass, Settling, SkipsNamed, Context, IsBlocked, BadNeeds;
      PendingAfterUpdate(board, next, gate.id, Settled(Skipped));
      SkipNamesBadNeeds(gates, execute, v, board.states, gate);
      SkipStaysSettling(gates, execute, v, board, gate);
      RecordedSkip(gates, execute, v, board, gate);
      SkipAllNames(gates, execute, v, next);
    }
  }

  lemma RecordedSkip(gates: seq<Gate>, execute: Executor, v: map<string, Status>, board: Board, gate: Gate)
    requires Context(gates, execute, v) && SkipsNamed(gates, v, board) && gate in gates
    requires SkipNames(gates, v, gate, BadNeeds(gate.needs, board.states))
    ensures SkipsNamed(gates, v, Record(board, gate.id, SkipResult(gate, board.states)))
  {
    hide SkipNames, NeedsPass, UniqueIds, IsValuation, BadNeeds;
    forall other <- gates | other.id == gate.id ensures other == gate { SameIdSameGate(gates, other, gate); }
  }

  lemma SkipStaysSettling(gates: seq<Gate>, execute: Executor, v: map<string, Status>, board: Board, gate: Gate)
    requires Context(gates, execute, v) && Settling(gates, v, board.states) && gate in gates && IsBlocked(gate, board.states)
    ensures Settling(gates, v, board.states[gate.id := Settled(Skipped)])
  {
    hide UniqueIds;
    BlockedFails(v, board.states, gate);
    hide NeedsPass, Bad;
  }

  lemma BlockedFails(v: map<string, Status>, states: map<string, State>, gate: Gate)
    requires IsBlocked(gate, states) && forall id <- states :: id in v && (states[id].Settled? ==> states[id].status == v[id])
    ensures !NeedsPass(gate, v)
  {
    var d :| d in gate.needs && Bad(states, d);
  }

  lemma QuiescentIsSettling(gates: seq<Gate>, execute: Executor, v: map<string, Status>)
    requires Context(gates, execute, v)
    ensures Settling(gates, v, Quiescent(gates, execute, v).states) && SkipsNamed(gates, v, Quiescent(gates, execute, v))
  {
    hide NeedsPass, SkipNames, UniqueIds;
    forall gate <- gates ensures GateOf(gates, gate.id) == gate { SameIdSameGate(gates, GateOf(gates, gate.id), gate); }
  }

  /** In the final board every skip names its failed needs, and only needs that do not pass. */
  lemma FinalSkipsAreNamed(gates: seq<Gate>, execute: Executor)
    requires Executable(gates)
    ensures SkipsNamed(gates, Valuation(gates, execute), FinalBoard(gates, execute))
  {
    hide SkipsNamed, Settling, Quiescent, SkipAll, Closed, Acyclic;
    var v := Valuation(gates, execute);
    QuiescentIsSettling(gates, execute, v);
    SkipAllNames(gates, execute, v, Quiescent(gates, execute, v));
  }

  /** The final board gives every gate one result: its own when all its needs pass, a skip
      otherwise; and the statuses are the recursive values of the graph. */
  lemma FinalBoardIsValuation(gates: seq<Gate>, execute: Executor)
    requires Executable(gates)
    ensures FinalBoard(gates, execute).results.Keys == Ids(gates)
    ensures forall gate :: gate in gates ==>
      var r := FinalBoard(gates, execute).results[gate.id];
      && r.status == Valuation(gates, execute)[gate.id]
      && if NeedsPass(gate, Valuation(gates, execute)) then r == execute(gate)
         else r.gate == gate && r.status == Skipped && r.report.DependencyFailed?
              && SkipNames(gates, Valuation(gates, execute), gate, r.report.ids)
  {
    hide Executable, FinalBoard, NeedsPass, Next, SkipNames, Finished, Inv, IsRun, Measure, IsValuation, UniqueIds, Closed, Ranks;
    FinalSkipsAreNamed(gates, execute);
    var s := FinishedState(gates, execute);
    forall gate <- gates ensures gate.id in s.board.results && GateOk(execute, Valuation(gates, execute), s, gate) && s.board.states[gate.id].Settled?
      && (!NeedsPass(gate, Valuation(gates, execute)) ==> s.board.results[gate.id].status == Skipped) {
      FinishedGate(gates, execute, s, gate);
    }
  }

  lemma FinishedState(gates: seq<Gate>, execute: Executor) returns (s: Sched)
    requires Executable(gates)
    ensures Inv(gates, 1, execute, Valuation(gates, execute), s) && Finished(s) && s.board == FinalBoard(gates, execute)
    ensures s.board.results.Keys == Ids(gates)
  {
    hide Executable, FinalBoard, NeedsPass, Next, IsValuation, UniqueIds, Closed, Ranks;
    var full := EveryRunCanFinish(gates, 1, execute, [Init(gates)], Init(gates));
    s := full[|full| - 1];
    var _ := ExecutableHasRank(gates);
    RunKeepsInv(gates, 1, execute, Valuation(gates, execute), full, |full| - 1);
    forall gate <- gates ensures gate.id in s.board.results { FinishedGate(gates, execute, s, gate); }
  }

  lemma FinishedGate(gates: seq<Gate>, execute: Executor, s: Sched, gate: Gate)
    requires Executable(gates) && Inv(gates, 1, execute, Valuation(gates, execute), s) && Finished(s) && gate in gates
    ensures gate.id in s.board.states && s.board.states[gate.id].Settled? && gate.id in s.board.results
    ensures GateOk(execute, Valuation(gates, execute), s, gate)
    ensures !NeedsPass(gate, Valuation(gates, execute)) ==> s.board.results[gate.id].status == Skipped
  {
    hide Executable, NeedsPass;
    assert GateOk(execute, Valuation(gates, execute), s, gate);
  }
}
