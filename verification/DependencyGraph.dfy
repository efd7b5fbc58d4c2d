/** Finite directed graphs: walks, cycles and ranks.
    Both the gate runner and the package sorter talk about these. */
module DependencyGraph {

  /** Node to the nodes it depends on. A dependency may lie outside the graph. */
  type Graph<N> = map<N, seq<N>>

  ghost predicate Edge<N>(g: Graph<N>, a: N, b: N) {
    a in g && b in g[a]
  }

  ghost predicate StepAt<N>(g: Graph<N>, p: seq<N>, i: nat)
    requires i + 1 < |p|
  {
    Edge(g, p[i], p[i + 1])
  }

  ghost predicate IsWalk<N>(g: Graph<N>, p: seq<N>) {
    forall i: nat :: i + 1 < |p| ==> StepAt(g, p, i)
  }

  /** A walk that returns to its first node over at least one edge. */
  ghost predicate IsCycle<N>(g: Graph<N>, c: seq<N>) {
    |c| >= 2 && c[0] == c[|c| - 1] && IsWalk(g, c)
  }

  ghost predicate Acyclic<N(!new)>(g: Graph<N>) {
    forall c :: !IsCycle(g, c)
  }

  ghost predicate Closed<N(!new)>(g: Graph<N>) {
    forall a, b :: Edge(g, a, b) ==> b in g
  }

  /** `rank` strictly decreases along every edge that stays in the graph. */
  ghost predicate Ranks<N(!new)>(g: Graph<N>, rank: map<N, nat>) {
    rank.Keys == g.Keys && forall a, b :: Edge(g, a, b) && b in g ==> rank[b] < rank[a]
  }

  ghost predicate StepsInside<N(!new)>(g: Graph<N>, s: set<N>, a: N) {
    exists b :: Edge(g, a, b) && b in s
  }

  /** Every node of the non-empty set `s` has an edge to a node of `s`. */
  ghost predicate Stuck<N(!new)>(g: Graph<N>, s: set<N>) {
    s != {} && s <= g.Keys && forall a :: a in s ==> StepsInside(g, s, a)
  }

  lemma {:induction false} RankFallsAlongWalk<N(!new)>(g: Graph<N>, rank: map<N, nat>, p: seq<N>, k: nat)
    requires Ranks(g, rank) && IsWalk(g, p) && k < |p| && p[|p| - 1] in g
    ensures p[0] in g && p[k] in g && rank[p[k]] + k <= rank[p[0]]
  {
    assert p[k] in g by { if k < |p| - 1 { assert StepAt(g, p, k); } }
    if k > 0 {
      RankFallsAlongWalk(g, rank, p, k - 1);
      assert StepAt(g, p, k - 1);
    }
  }

  lemma RankedIsAcyclic<N(!new)>(g: Graph<N>, rank: map<N, nat>)
    requires Ranks(g, rank)
    ensures Acyclic(g)
  {
    forall c ensures !IsCycle(g, c) {
      if IsCycle(g, c) {
        assert StepAt(g, c, 0);
        RankFallsAlongWalk(g, rank, c, |c| - 1);
        assert false;
      }
    }
  }

  /** Extending a walk by one edge out of its last node. */
  lemma WalkSnoc<N(!new)>(g: Graph<N>, p: seq<N>, next: N)
    requires IsWalk(g, p) && (p == [] || Edge(g, p[|p| - 1], next))
    ensures IsWalk(g, p + [next])
  {
    var q := p + [next];
    forall i: nat | i + 1 < |q| ensures StepAt(g, q, i) {
      if i + 1 < |p| { assert StepAt(g, p, i); }
    }
  }

  lemma WalkSuffix<N(!new)>(g: Graph<N>, p: seq<N>, k: nat)
    requires IsWalk(g, p) && k <= |p|
    ensures IsWalk(g, p[k..])
  {
    forall i: nat | i + 1 < |p[k..]| ensures StepAt(g, p[k..], i) {
      assert StepAt(g, p, k + i);
    }
  }

  /** Keep walking inside a stuck set: some node must repeat, and that closes a cycle. */
  lemma {:induction false} StuckWalkCloses<N(!new)>(g: Graph<N>, s: set<N>, p: seq<N>, unseen: set<N>)
    returns (c: seq<N>)
    requires Stuck(g, s) && |p| > 0 && IsWalk(g, p) && p[|p| - 1] in s
    requires forall x :: x in s && x !in unseen ==> x in p
    ensures IsCycle(g, c)
    decreases unseen
  {
    var last := p[|p| - 1];
    assert StepsInside(g, s, last);
    var next :| Edge(g, last, next) && next in s;
    var q := p + [next];
    WalkSnoc(g, p, next);
    if next in p {
      var k :| 0 <= k < |p| && p[k] == next;
      c := q[k..];
      WalkSuffix(g, q, k);
    } else {
      c := StuckWalkCloses(g, s, q, unseen - {next});
    }
  }

  lemma StuckHasCycle<N(!new)>(g: Graph<N>, s: set<N>)
    requires Stuck(g, s)
    ensures !Acyclic(g)
  {
    var a :| a in s;
    var c := StuckWalkCloses(g, s, [a], s);
    assert IsCycle(g, c);
  }

  /** A rank for a part of the graph that is closed under in-graph dependencies. */
  ghost predicate RanksPart<N(!new)>(g: Graph<N>, rank: map<N, nat>, bound: nat) {
    && rank.Keys <= g.Keys
    && (forall a :: a in rank ==> rank[a] < bound)
    && forall a, b :: Edge(g, a, b) && a in rank && b in g ==> b in rank && rank[b] < rank[a]
  }

  lemma {:induction false} ExtendRank<N(!new)>(g: Graph<N>, part: map<N, nat>, bound: nat) returns (rank: map<N, nat>)
    requires Acyclic(g) && RanksPart(g, part, bound)
    ensures Ranks(g, rank)
    decreases g.Keys - part.Keys
  {
    var rest := g.Keys - part.Keys;
    if rest == {} {
      assert forall a :: a in g ==> a !in rest;
      rank := part;
    } else {
      if forall a :: a in rest ==> StepsInside(g, rest, a) {
        StuckHasCycle(g, rest);
        assert false;
      }
      var a :| a in rest && !StepsInside(g, rest, a);
      rank := ExtendRank(g, part[a := bound], bound + 1);
    }
  }

  /** On a finite graph, having no cycle and having a rank are the same thing. */
  lemma AcyclicIffRanked<N(!new)>(g: Graph<N>)
    ensures Acyclic(g) <==> exists rank :: Ranks(g, rank)
  {
    if Acyclic(g) {
      var rank := ExtendRank(g, map[], 0);
      assert Ranks(g, rank);
    }
    forall rank | Ranks(g, rank) ensures Acyclic(g) {
      RankedIsAcyclic(g, rank);
    }
  }

  // ----------------------------------------------------------------- reachability

  ghost predicate Leads<N>(g: Graph<N>, p: seq<N>, a: N, b: N) {
    p != [] && IsWalk(g, p) && p[0] == a && p[|p| - 1] == b
  }

  /** A walk of any length, the empty one included, leads from `a` to `b`. */
  ghost predicate Reaches<N(!new)>(g: Graph<N>, a: N, b: N) {
    exists p :: Leads(g, p, a, b)
  }

  lemma ReachesSelf<N(!new)>(g: Graph<N>, a: N)
    ensures Reaches(g, a, a)
  {
    assert Leads(g, [a], a, a);
  }

  lemma ReachesOn<N(!new)>(g: Graph<N>, a: N, b: N, c: N)
    requires Reaches(g, a, b) && Edge(g, b, c)
    ensures Reaches(g, a, c)
  {
    var p :| Leads(g, p, a, b);
    WalkSnoc(g, p, c);
    assert Leads(g, p + [c], a, c);
  }

  /** A set no edge leads out of. */
  ghost predicate Keeps<N(!new)>(g: Graph<N>, s: set<N>) {
    forall a, b :: Edge(g, a, b) && a in s ==> b in s
  }

  lemma {:induction false} KeptWalk<N(!new)>(g: Graph<N>, s: set<N>, p: seq<N>, k: nat)
    requires Keeps(g, s) && IsWalk(g, p) && k < |p| && p[0] in s
    ensures p[k] in s
  {
    if k > 0 {
      KeptWalk(g, s, p, k - 1);
      assert StepAt(g, p, k - 1);
    }
  }

  /** Whatever is reached from a member of such a set is a member. */
  lemma KeptReach<N(!new)>(g: Graph<N>, s: set<N>, a: N, b: N)
    requires Keeps(g, s) && a in s && Reaches(g, a, b)
    ensures b in s
  {
    var p :| Leads(g, p, a, b);
    KeptWalk(g, s, p, |p| - 1);
  }
}
