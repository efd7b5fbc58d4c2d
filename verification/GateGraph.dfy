/** Gate lists of `scripts/run-gates.ts`: the dependency graph they describe, the depth-first
    cycle finder, and the validation every aggregate passes before a child can start. */
module GateGraph {
  import opened Options
  import opened DependencyGraph

  /** `command` stands for everything the executor needs and the scheduler ignores;
      an absent `needs` is the empty list. */
  datatype Gate = Gate(id: string, command: string, needs: seq<string>, allowFailure: bool)

  ghost predicate UniqueIds(gates: seq<Gate>) {
    forall i, j :: 0 <= i < j < |gates| ==> gates[i].id != gates[j].id
  }

  function Ids(gates: seq<Gate>): set<string> {
    set gate <- gates :: gate.id
  }

  /** The `Map` the cycle finder builds: of two gates with one id, the later wins. */
  function NeedsById(gates: seq<Gate>): (g: Graph<string>)
    ensures g.Keys == Ids(gates)
  {
    if gates == [] then map[]
    else
      var rest, last := gates[..|gates| - 1], gates[|gates| - 1];
      assert gates == rest + [last];
      NeedsById(rest)[last.id := last.needs]
  }

  /** What `validateGateGraph` accepts. */
  ghost predicate Executable(gates: seq<Gate>) {
    gates != [] && UniqueIds(gates) && Closed(NeedsById(gates)) && Acyclic(NeedsById(gates))
  }

  lemma ExecutableHasRank(gates: seq<Gate>) returns (rank: map<string, nat>)
    requires Executable(gates)
    ensures UniqueIds(gates) && Closed(NeedsById(gates)) && Ranks(NeedsById(gates), rank)
  {
    AcyclicIffRanked(NeedsById(gates));
    rank :| Ranks(NeedsById(gates), rank);
  }

  lemma {:induction false} NeedsByIdUnique(gates: seq<Gate>, i: nat)
    requires UniqueIds(gates) && i < |gates|
    ensures gates[i].id in NeedsById(gates) && NeedsById(gates)[gates[i].id] == gates[i].needs
  {
    assert gates[i] in gates;
    if i < |gates| - 1 {
      NeedsByIdUnique(gates[..|gates| - 1], i);
      assert gates[i].id != gates[|gates| - 1].id;
    }
  }

  /** `active` is the index of `path`. */
  ghost predicate PathIsActive(graph: Graph<string>, path: seq<string>, active: map<string, nat>) {
    && (forall i :: 0 <= i < |path| ==> path[i] in active && active[path[i]] == i)
    && (forall id :: id in active ==> active[id] < |path| && path[active[id]] == id && id in graph)
  }

  /** Only the two ends of the list repeat. */
  ghost predicate SimpleCycle(c: seq<string>) {
    forall i, j :: 0 <= i < j < |c| - 1 ==> c[i] != c[j]
  }

  /** What the finder's variables mean between any two statements: `path` is a walk indexed by
      `active`, and the completed gates are ranked and closed under their known needs. */
  ghost predicate FinderInv(graph: Graph<string>, path: seq<string>, active: map<string, nat>,
                            complete: set<string>, rank: map<string, nat>, bound: nat) {
    && IsWalk(graph, path)
    && PathIsActive(graph, path, active)
    && complete == rank.Keys
    && complete !! active.Keys
    && RanksPart(graph, rank, bound)
  }

  lemma ActiveIdClosesCycle(graph: Graph<string>, path: seq<string>, active: map<string, nat>,
                            complete: set<string>, rank: map<string, nat>, bound: nat, id: string)
    requires FinderInv(graph, path, active, complete, rank, bound) && id in active
    requires Edge(graph, path[|path| - 1], id)
    ensures active[id] < |path| && IsCycle(graph, path[active[id]..] + [id]) && SimpleCycle(path[active[id]..] + [id])
  {
    var start := active[id];
    WalkSnoc(graph, path, id);
    WalkSuffix(graph, path + [id], start);
    assert path[start..] + [id] == (path + [id])[start..];
  }

  lemma ActiveIsOnPath(graph: Graph<string>, path: seq<string>, active: map<string, nat>,
                       complete: set<string>, rank: map<string, nat>, bound: nat)
    requires FinderInv(graph, path, active, complete, rank, bound)
    ensures path == [] ==> active == map[]
  {
  }

  lemma PushKeepsInv(graph: Graph<string>, path: seq<string>, active: map<string, nat>,
                     complete: set<string>, rank: map<string, nat>, bound: nat, id: string)
    requires FinderInv(graph, path, active, complete, rank, bound)
    requires id in graph && id !in active && id !in complete
    requires path == [] || Edge(graph, path[|path| - 1], id)
    ensures FinderInv(graph, path + [id], active[id := |path|], complete, rank, bound)
  {
    WalkSnoc(graph, path, id);
  }

  lemma PopKeepsInv(graph: Graph<string>, path: seq<string>, active: map<string, nat>,
                    complete: set<string>, rank: map<string, nat>, bound: nat, id: string)
    requires exists c, r, b :: FinderInv(graph, path, active, c, r, b)
    requires FinderInv(graph, path + [id], active[id := |path|], complete, rank, bound)
    requires id in graph && id !in active
    requires forall d :: d in graph[id] && d in graph ==> d in complete
    ensures FinderInv(graph, path, active, complete + {id}, rank[id := bound], bound + 1)
    ensures (path + [id])[..|path|] == path && active[id := |path|] - {id} == active
  {
    assert id in active[id := |path|].Keys;
    forall x | x in active ensures x !in complete + {id} {
      assert x in active[id := |path|].Keys;
    }
  }

  /** The state `findDependencyCycle` closes over. `rank` and `bound` are proof bookkeeping:
      they rank the completed gates in completion order. */
  class CycleFinder {
    const graph: Graph<string>
    var complete: set<string>
    var active: map<string, nat>
    var path: seq<string>
    ghost var rank: map<string, nat>
    ghost var bound: nat

    ghost predicate Valid()
      reads this
    {
      FinderInv(graph, path, active, complete, rank, bound)
    }

    constructor (graph: Graph<string>)
      ensures this.graph == graph && Valid() && path == [] && complete == {}
    {
      this.graph := graph;
      complete, active, path, rank, bound := {}, map[], [], map[], 0;
    }

    /** One call of the recursive `visit` closure. */
    method Visit(id: string) returns (cycle: Option<seq<string>>)
      requires Valid()
      requires path == [] || Edge(graph, path[|path| - 1], id)
      modifies this
      ensures cycle.Some? ==> IsCycle(graph, cycle.value) && SimpleCycle(cycle.value)
      ensures cycle.None? ==> Valid() && path == old(path) && active == old(active)
      ensures cycle.None? ==> old(complete) <= complete && (id in graph ==> id in complete)
      decreases graph.Keys - active.Keys, 0
    {
      hide FinderInv, IsCycle, SimpleCycle, Edge;
      if id in complete { return None; }
      ActiveIsOnPath(graph, path, active, complete, rank, bound);
      if id in active {
        ActiveIdClosesCycle(graph, path, active, complete, rank, bound, id);
        return Some(path[active[id]..] + [id]);
      }
      if id !in graph { return None; }

      ghost var path0, active0 := path, active;
      PushKeepsInv(graph, path, active, complete, rank, bound, id);
      active := active[id := |path|];
      assert id in graph.Keys - active0.Keys && id !in graph.Keys - active.Keys;
      path := path + [id];
      cycle := VisitNeeds(id, graph[id]);
      if cycle.Some? { return; }
      PopKeepsInv(graph, path0, active0, complete, rank, bound, id);
      path := path[..|path| - 1];
      active := active - {id};
      complete := complete + {id};
      rank, bound := rank[id := bound], bound + 1;
    }

    /** The loop of `visit` over one gate's needs. */
    method VisitNeeds(id: string, needs: seq<string>) returns (cycle: Option<seq<string>>)
      requires Valid() && path != [] && path[|path| - 1] == id && id in graph && graph[id] == needs
      modifies this
      ensures cycle.Some? ==> IsCycle(graph, cycle.value) && SimpleCycle(cycle.value)
      ensures cycle.None? ==> Valid() && path == old(path) && active == old(active)
      ensures cycle.None? ==> old(complete) <= complete
      ensures cycle.None? ==> forall d :: d in needs && d in graph ==> d in complete
      decreases graph.Keys - active.Keys, 1
    {
      cycle := None;
      for k := 0 to |needs|
        invariant Valid() && path == old(path) && active == old(active)
        invariant old(complete) <= complete && cycle.None?
        invariant forall j :: 0 <= j < k && needs[j] in graph ==> needs[j] in complete
      {
        cycle := Visit(needs[k]);
        if cycle.Some? { return; }
      }
    }
  }

  lemma AllCompleteIsAcyclic(gates: seq<Gate>, complete: set<string>, rank: map<string, nat>, bound: nat)
    requires complete == rank.Keys && RanksPart(NeedsById(gates), rank, bound)
    requires forall j :: 0 <= j < |gates| ==> gates[j].id in complete
    ensures Acyclic(NeedsById(gates))
  {
    assert rank.Keys == NeedsById(gates).Keys;
    RankedIsAcyclic(NeedsById(gates), rank);
  }

  /** Sound and complete on every gate list, with unknown dependencies and repeated ids included. */
  method FindDependencyCycle(gates: seq<Gate>) returns (cycle: Option<seq<string>>)
    ensures cycle.None? <==> Acyclic(NeedsById(gates))
    ensures cycle.Some? ==> IsCycle(NeedsById(gates), cycle.value) && SimpleCycle(cycle.value)
  {
    hide IsWalk, PathIsActive, RanksPart, SimpleCycle, NeedsById;
    var graph := NeedsById(gates);
    var finder := new CycleFinder(graph);
    for k := 0 to |gates|
      invariant finder.Valid() && finder.path == [] && finder.graph == graph
      invariant forall j :: 0 <= j < k ==> gates[j].id in finder.complete
    {
      cycle := finder.Visit(gates[k].id);
      if cycle.Some? {
        assert !Acyclic(graph);
        return;
      }
    }
    AllCompleteIsAcyclic(gates, finder.complete, finder.rank, finder.bound);
    return None;
  }

  datatype Rejection =
    | NoGates
    | DuplicateId(id: string)
    | UnknownDependency(gate: string, dependency: string)
    | DependencyCycle(cycle: seq<string>)

  /** Need `j` of gate `k` is unknown, and no need before it in the list is. */
  ghost predicate FirstUnknownNeed(gates: seq<Gate>, k: nat, j: nat) {
    && k < |gates| && j < |gates[k].needs| && gates[k].needs[j] !in Ids(gates)
    && (forall d <- gates[k].needs[..j] :: d in Ids(gates))
    && forall i, d :: 0 <= i < k && d in gates[i].needs ==> d in Ids(gates)
  }

  /** The first thing wrong with `gates`, in the order the checks run. */
  ghost predicate Justified(gates: seq<Gate>, error: Rejection) {
    match error
    case NoGates => gates == []
    case DuplicateId(id) =>
      exists k :: 0 < k < |gates| && UniqueIds(gates[..k]) && gates[k].id == id &&
                  exists i :: 0 <= i < k && gates[i].id == id
    case UnknownDependency(gate, dependency) =>
      && UniqueIds(gates) && Edge(NeedsById(gates), gate, dependency) && dependency !in NeedsById(gates)
      && exists k: nat, j: nat :: FirstUnknownNeed(gates, k, j) && gates[k].id == gate && gates[k].needs[j] == dependency
    case DependencyCycle(cycle) =>
      UniqueIds(gates) && Closed(NeedsById(gates)) && IsCycle(NeedsById(gates), cycle) && SimpleCycle(cycle)
  }

  method CheckUniqueIds(gates: seq<Gate>) returns (error: Option<Rejection>, ids: set<string>)
    ensures error.None? ==> UniqueIds(gates) && ids == Ids(gates)
    ensures error.Some? ==> error.value.DuplicateId? && Justified(gates, error.value)
  {
    ids := {};
    for k := 0 to |gates|
      invariant UniqueIds(gates[..k])
      invariant forall id :: id in ids <==> exists i :: 0 <= i < k && gates[i].id == id
    {
      if gates[k].id in ids {
        assert 0 < k;
        return Some(DuplicateId(gates[k].id)), ids;
      }
      ids := ids + {gates[k].id};
    }
    assert gates[..|gates|] == gates;
    error := None;
  }

  method FirstUnknown(needs: seq<string>, ids: set<string>) returns (unknown: Option<string>)
    ensures unknown.None? ==> forall d <- needs :: d in ids
    ensures unknown.Some? ==> exists j :: 0 <= j < |needs| && needs[j] == unknown.value && needs[j] !in ids && forall d <- needs[..j] :: d in ids
  {
    for j := 0 to |needs|
      invariant forall d <- needs[..j] :: d in ids
    {
      if needs[j] !in ids { return Some(needs[j]); }
      assert needs[..j + 1] == needs[..j] + [needs[j]];
    }
    assert needs[..|needs|] == needs;
    unknown := None;
  }

  lemma ListedNeedsAreClosed(gates: seq<Gate>)
    requires UniqueIds(gates)
    requires forall i, d :: 0 <= i < |gates| && d in gates[i].needs ==> d in Ids(gates)
    ensures Closed(NeedsById(gates))
  {
    forall a, d | Edge(NeedsById(gates), a, d) ensures d in NeedsById(gates) {
      assert a in Ids(gates);
      var i :| 0 <= i < |gates| && gates[i].id == a;
      NeedsByIdUnique(gates, i);
    }
  }

  method CheckDependencies(gates: seq<Gate>, ids: set<string>) returns (error: Option<Rejection>)
    requires UniqueIds(gates) && ids == Ids(gates)
    ensures error.None? ==> Closed(NeedsById(gates))
    ensures error.Some? ==> error.value.UnknownDependency? && Justified(gates, error.value)
  {
    for k := 0 to |gates|
      invariant forall i, d :: 0 <= i < k && d in gates[i].needs ==> d in ids
    {
      var unknown := FirstUnknown(gates[k].needs, ids);
      if unknown.Some? {
        NeedsByIdUnique(gates, k);
        ghost var j: nat :| j < |gates[k].needs| && gates[k].needs[j] == unknown.value && forall d <- gates[k].needs[..j] :: d in ids;
        assert FirstUnknownNeed(gates, k, j);
        assert Edge(NeedsById(gates), gates[k].id, unknown.value);
        return Some(UnknownDependency(gates[k].id, unknown.value));
      }
    }
    ListedNeedsAreClosed(gates);
    error := None;
  }

  /** Accepts exactly the executable lists; a rejection names the first real defect. */
  method ValidateGateGraph(gates: seq<Gate>) returns (error: Option<Rejection>)
    ensures error.None? <==> Executable(gates)
    ensures error.Some? ==> Justified(gates, error.value)
  {
    if |gates| == 0 { return Some(NoGates); }
    var ids;
    error, ids := CheckUniqueIds(gates);
    if error.Some? { return; }
    error := CheckDependencies(gates, ids);
    if error.Some? { return; }
    var cycle := FindDependencyCycle(gates);
    if cycle.Some? { return Some(DependencyCycle(cycle.value)); }
  }
}
