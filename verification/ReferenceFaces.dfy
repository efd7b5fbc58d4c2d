/** The Host/Client isolation check of `scripts/project-reference-faces.ts`. */
module ReferenceFaces {
  import opened Options
  import opened DependencyGraph

  datatype Face = Host | Client

  /** A resolved absolute path. */
  type Path = string

  /** One project reference: the text in the config and the config path it resolves to. */
  datatype Reference = Reference(text: string, target: Path)

  /** `parent` is the local `extends` target, if the config names one. */
  datatype Config = Config(parent: Option<Path>, references: seq<Reference>)

  /** A package with both face configs, with the paths it contains. */
  datatype SplitRoot = SplitRoot(dir: Path, inside: set<Path>, host: Path, client: Path)

  /** The files that exist. `named` gives the face of the config names that carry one; `splitRoots`
      is sorted innermost first. */
  datatype World = World(configs: map<Path, Config>, named: map<Path, Face>, splitRoots: seq<SplitRoot>, host: Path, client: Path)

  datatype Problem = NoFace | WrongLeaf(expected: Path)

  datatype Violation = Violation(config: Path, text: string, root: Path, problem: Problem)

  // ------------------------------------------------------------------ projectFace

  /** `projectFace` with the `seen` set it mutates. */
  function ProjectFace(w: World, path: Path, seen: set<Path>): Option<Face>
    requires path in w.configs
    decreases w.configs.Keys - seen
  {
    if path in w.named then Some(w.named[path])
    else if path in seen then None
    else
      var parent := w.configs[path].parent;
      if parent.None? || parent.value !in w.configs then None
      else ProjectFace(w, parent.value, seen + {path})
  }

  /** The face named within `k` steps up the `extends` chain. */
  ghost function FaceWithin(w: World, path: Path, k: nat): Option<Face>
    requires path in w.configs
    decreases k
  {
    if path in w.named then Some(w.named[path])
    else
      var parent := w.configs[path].parent;
      if k == 0 || parent.None? || parent.value !in w.configs then None
      else FaceWithin(w, parent.value, k - 1)
  }

  /** Going further up never changes a face already found. */
  lemma {:induction false} FaceWithinGrows(w: World, path: Path, j: nat, k: nat)
    requires path in w.configs && j <= k && FaceWithin(w, path, j).Some?
    ensures FaceWithin(w, path, k) == FaceWithin(w, path, j)
    decreases j
  {
    if path !in w.named { FaceWithinGrows(w, w.configs[path].parent.value, j - 1, k - 1); }
  }

  /** `k` is the exact distance to the named config, so nothing nearer can already have been seen. */
  lemma {:induction false} FaceFound(w: World, path: Path, seen: set<Path>, k: nat)
    requires path in w.configs && FaceWithin(w, path, k).Some?
    requires k > 0 ==> FaceWithin(w, path, k - 1).None?
    requires forall x <- seen :: x in w.configs && FaceWithin(w, x, k).None?
    ensures ProjectFace(w, path, seen) == FaceWithin(w, path, k)
    decreases k
  {
    if path !in w.named {
      var parent := w.configs[path].parent.value;
      forall x | x in seen + {path} ensures FaceWithin(w, x, k - 1).None? {
        if x in seen && FaceWithin(w, x, k - 1).Some? { FaceWithinGrows(w, x, k - 1, k); }
      }
      FaceFound(w, parent, seen + {path}, k - 1);
    }
  }

  lemma {:induction false} FaceIsNamed(w: World, path: Path, seen: set<Path>)
    requires path in w.configs && ProjectFace(w, path, seen).Some?
    ensures exists k: nat :: FaceWithin(w, path, k) == ProjectFace(w, path, seen)
    decreases w.configs.Keys - seen
  {
    if path in w.named {
      assert FaceWithin(w, path, 0).Some?;
    } else {
      var parent := w.configs[path].parent.value;
      FaceIsNamed(w, parent, seen + {path});
      var k: nat :| FaceWithin(w, parent, k) == ProjectFace(w, parent, seen + {path});
      assert FaceWithin(w, path, k + 1) == FaceWithin(w, parent, k);
    }
  }

  lemma {:induction false} LeastDistance(w: World, path: Path, k: nat) returns (m: nat)
    requires path in w.configs && FaceWithin(w, path, k).Some?
    ensures m <= k && FaceWithin(w, path, m) == FaceWithin(w, path, k)
    ensures m > 0 ==> FaceWithin(w, path, m - 1).None?
  {
    m := k;
    if k > 0 && FaceWithin(w, path, k - 1).Some? {
      FaceWithinGrows(w, path, k - 1, k);
      m := LeastDistance(w, path, k - 1);
    }
  }

  /** The face is the one named nearest up the chain; an endless chain has none. */
  lemma FaceIsNearestNamed(w: World, path: Path, face: Face)
    requires path in w.configs
    ensures ProjectFace(w, path, {}) == Some(face) <==> exists k: nat :: FaceWithin(w, path, k) == Some(face)
  {
    if ProjectFace(w, path, {}) == Some(face) { FaceIsNamed(w, path, {}); }
    if k: nat :| FaceWithin(w, path, k) == Some(face) {
      var m := LeastDistance(w, path, k);
      FaceFound(w, path, {}, m);
    }
  }

  // -------------------------------------------------------------------- one edge

  /** The innermost split package containing the target. */
  function ContainingRoot(roots: seq<SplitRoot>, target: Path): (r: Option<SplitRoot>)
    ensures r.Some? ==> r.value in roots && target in r.value.inside
    ensures r.None? ==> forall root <- roots :: target !in root.inside
  {
    if roots == [] then None
    else if target in roots[0].inside then Some(roots[0])
    else ContainingRoot(roots[1..], target)
  }

  function Leaf(root: SplitRoot, face: Face): Path {
    if face.Host? then root.host else root.client
  }

  /** What is wrong with a reference, if anything. */
  function Check(w: World, config: Path, face: Option<Face>, r: Reference): Option<Violation> {
    var root := ContainingRoot(w.splitRoots, r.target);
    if root.None? then None
    else if face.None? then Some(Violation(config, r.text, root.value.dir, NoFace))
    else if r.target != Leaf(root.value, face.value)
    then Some(Violation(config, r.text, root.value.dir, WrongLeaf(Leaf(root.value, face.value))))
    else None
  }

  function Problems(w: World, config: Path, face: Option<Face>, refs: seq<Reference>): (r: seq<Violation>)
    ensures forall v <- r :: v.config == config
  {
    if refs == [] then []
    else
      var v := Check(w, config, face, refs[0]);
      (if v.Some? then [v.value] else []) + Problems(w, config, face, refs[1..])
  }

  function Followed(w: World, config: Path, face: Option<Face>, refs: seq<Reference>): (r: seq<Path>)
    ensures forall t :: t in r <==> exists ref <- refs :: Check(w, config, face, ref).None? && ref.target == t
  {
    if refs == [] then []
    else (if Check(w, config, face, refs[0]).None? then [refs[0].target] else []) + Followed(w, config, face, refs[1..])
  }

  function FaceOf(w: World, config: Path): Option<Face>
    requires config in w.configs
  {
    ProjectFace(w, config, {})
  }

  function ProblemsOf(w: World, config: Path): seq<Violation>
    requires config in w.configs
  {
    Problems(w, config, FaceOf(w, config), w.configs[config].references)
  }

  /** The references traversal follows. */
  function FollowGraph(w: World): Graph<Path> {
    map config | config in w.configs :: Followed(w, config, FaceOf(w, config), w.configs[config].references)
  }

  /** An existing config reached from one of the two aggregates through references that are right. */
  ghost predicate InScope(w: World, config: Path) {
    config in w.configs && (Reaches(FollowGraph(w), w.host, config) || Reaches(FollowGraph(w), w.client, config))
  }

  /** Every wrong reference of every config in scope, as often as it is written, and nothing else. */
  ghost predicate Reports(w: World, violations: seq<Violation>) {
    forall v :: multiset(violations)[v] == if InScope(w, v.config) then multiset(ProblemsOf(w, v.config))[v] else 0
  }

  // ----------------------------------------------- what is wrong, said of the files

  /** Root `i` is the innermost that contains the target. */
  ghost predicate FirstContaining(roots: seq<SplitRoot>, target: Path, i: nat) {
    i < |roots| && target in roots[i].inside && forall j :: 0 <= j < i ==> target !in roots[j].inside
  }

  /** The config a reference into a split package should name. */
  ghost predicate ShouldName(root: SplitRoot, face: Option<Face>, leaf: Path) {
    (face == Some(Host) && leaf == root.host) || (face == Some(Client) && leaf == root.client)
  }

  /** The reference leads into a split package and not to the leaf of its config's face. */
  ghost predicate IsWrong(w: World, face: Option<Face>, r: Reference) {
    exists i: nat :: FirstContaining(w.splitRoots, r.target, i) && !ShouldName(w.splitRoots[i], face, r.target)
  }

  /** What is reported of a wrong reference. */
  ghost predicate Describes(w: World, config: Path, face: Option<Face>, r: Reference, v: Violation) {
    && v.config == config && v.text == r.text
    && exists i: nat :: FirstContaining(w.splitRoots, r.target, i) && !ShouldName(w.splitRoots[i], face, r.target)
                        && v.root == w.splitRoots[i].dir
                        && if face.None? then v.problem == NoFace else v.problem.WrongLeaf? && ShouldName(w.splitRoots[i], face, v.problem.expected)
  }

  /** The references that `v` describes. */
  ghost function Described(w: World, config: Path, face: Option<Face>, refs: seq<Reference>, v: Violation): set<nat> {
    set k: nat | k < |refs| && Describes(w, config, face, refs[k], v)
  }

  lemma {:induction false} RootIsFirst(roots: seq<SplitRoot>, target: Path)
    ensures ContainingRoot(roots, target).None? <==> forall i: nat :: !FirstContaining(roots, target, i)
    ensures ContainingRoot(roots, target).Some? ==> exists i: nat :: FirstContaining(roots, target, i) && roots[i] == ContainingRoot(roots, target).value
  {
    if roots != [] {
      if target in roots[0].inside {
        assert FirstContaining(roots, target, 0);
      } else {
        RootIsFirst(roots[1..], target);
        forall i: nat ensures FirstContaining(roots, target, i) <==> i > 0 && FirstContaining(roots[1..], target, i - 1) {
          if i > 0 && FirstContaining(roots[1..], target, i - 1) { assert forall j :: 1 <= j < i ==> roots[j] == roots[1..][j - 1]; }
          if FirstContaining(roots, target, i) { assert forall j :: 0 <= j < i - 1 ==> roots[1..][j] == roots[j + 1]; }
        }
        if i: nat :| FirstContaining(roots[1..], target, i) && roots[1..][i] == ContainingRoot(roots[1..], target).value {
          assert FirstContaining(roots, target, i + 1);
        }
      }
    }
  }

  lemma CheckIsRight(w: World, config: Path, face: Option<Face>, r: Reference)
    ensures Check(w, config, face, r).Some? <==> IsWrong(w, face, r)
    ensures forall v :: Check(w, config, face, r) == Some(v) <==> Describes(w, config, face, r, v)
  {
    RootIsFirst(w.splitRoots, r.target);
    hide ContainingRoot;
    if i: nat :| FirstContaining(w.splitRoots, r.target, i) {
      assert forall j: nat :: FirstContaining(w.splitRoots, r.target, j) ==> j == i;
    }
  }

  ghost function After(s: set<nat>): (r: set<nat>)
    ensures forall y :: y in r <==> y > 0 && y - 1 in s
  {
    var r := set k: nat | k in s :: k + 1;
    assert forall k: nat :: k in s ==> k + 1 in r;
    r
  }

  lemma {:induction false} AsMany(s: set<nat>)
    ensures |After(s)| == |s|
  {
    if s != {} {
      var x :| x in s;
      AsMany(s - {x});
      assert After(s) - {x + 1} == After(s - {x});
      assert x + 1 in After(s);
    }
  }

  lemma DescribedTail(w: World, config: Path, face: Option<Face>, refs: seq<Reference>, v: Violation)
    requires refs != []
    ensures |Described(w, config, face, refs, v)| ==
            |Described(w, config, face, refs[1..], v)| + if Describes(w, config, face, refs[0], v) then 1 else 0
  {
    hide Describes;
    var rest, all := Described(w, config, face, refs[1..], v), Described(w, config, face, refs, v);
    var moved := After(rest);
    AsMany(rest);
    forall k: nat ensures k in all <==> (k == 0 && Describes(w, config, face, refs[0], v)) || k in moved {
      if 0 < k < |refs| { assert refs[k] == refs[1..][k - 1]; }
    }
    assert all == moved + if Describes(w, config, face, refs[0], v) then {0} else {};
  }

  /** A violation is listed as often as there are references it describes. */
  lemma {:induction false} ProblemsExact(w: World, config: Path, face: Option<Face>, refs: seq<Reference>, v: Violation)
    ensures multiset(Problems(w, config, face, refs))[v] == |Described(w, config, face, refs, v)|
  {
    if refs == [] {
      assert Described(w, config, face, refs, v) == {};
    } else {
      hide Check, Describes, Described;
      ProblemsExact(w, config, face, refs[1..], v);
      CheckIsRight(w, config, face, refs[0]);
      DescribedTail(w, config, face, refs, v);
    }
  }

  /** Traversal follows exactly the references that are not wrong. */
  lemma FollowedExactly(w: World, config: Path, face: Option<Face>, refs: seq<Reference>)
    ensures forall t :: t in Followed(w, config, face, refs) <==> exists r <- refs :: r.target == t && !IsWrong(w, face, r)
  {
    hide Check, IsWrong;
    forall r <- refs ensures Check(w, config, face, r).None? <==> !IsWrong(w, face, r) { CheckIsRight(w, config, face, r); }
  }

  /** Of every config in scope, each wrong reference as often as it is written. */
  ghost predicate ReportsWrong(w: World, violations: seq<Violation>) {
    forall v :: multiset(violations)[v] ==
      if InScope(w, v.config) then |Described(w, v.config, FaceOf(w, v.config), w.configs[v.config].references, v)| else 0
  }

  lemma ReportIsExact(w: World, violations: seq<Violation>)
    ensures Reports(w, violations) <==> ReportsWrong(w, violations)
  {
    hide Described, Problems, Reaches, FollowGraph, ProjectFace;
    forall v: Violation | InScope(w, v.config)
      ensures multiset(ProblemsOf(w, v.config))[v] == |Described(w, v.config, FaceOf(w, v.config), w.configs[v.config].references, v)| {
      ProblemsExact(w, v.config, FaceOf(w, v.config), w.configs[v.config].references, v);
    }
  }

  /** Scope grows along references that are not wrong, and along nothing else. */
  lemma EdgeIsRight(w: World, a: Path, b: Path)
    ensures Edge(FollowGraph(w), a, b) <==>
            a in w.configs && exists r <- w.configs[a].references :: r.target == b && !IsWrong(w, FaceOf(w, a), r)
  {
    hide Followed, ProjectFace, IsWrong;
    if a in w.configs { FollowedExactly(w, a, FaceOf(w, a), w.configs[a].references); }
  }

  // ------------------------------------------------------------------ the worklist

  lemma SplitReferences(w: World, config: Path, face: Option<Face>, refs: seq<Reference>, i: nat, found: seq<Violation>, next: seq<Path>)
    requires i < |refs|
    ensures var v := Check(w, config, face, refs[i]);
            && found + Problems(w, config, face, refs[i..]) ==
                 (if v.Some? then found + [v.value] else found) + Problems(w, config, face, refs[i + 1..])
            && next + Followed(w, config, face, refs[i..]) ==
                 (if v.Some? then next else next + [refs[i].target]) + Followed(w, config, face, refs[i + 1..])
  {
    hide Check;
    assert refs[i..][1..] == refs[i + 1..];
  }

  /** The loop over one config's references. */
  method CheckConfig(w: World, config: Path) returns (found: seq<Violation>, next: seq<Path>)
    requires config in w.configs
    ensures found == ProblemsOf(w, config) && next == FollowGraph(w)[config]
    ensures forall v :: multiset(found)[v] == |Described(w, config, FaceOf(w, config), w.configs[config].references, v)|
    ensures forall t :: t in next <==> exists r <- w.configs[config].references :: r.target == t && !IsWrong(w, FaceOf(w, config), r)
  {
    hide Check, Problems, Followed, ProjectFace, Described, IsWrong;
    var face := FaceOf(w, config);
    var refs := w.configs[config].references;
    found, next := [], [];
    assert refs[0..] == refs;
    for i := 0 to |refs|
      invariant found + Problems(w, config, face, refs[i..]) == Problems(w, config, face, refs)
      invariant next + Followed(w, config, face, refs[i..]) == Followed(w, config, face, refs)
    {
      SplitReferences(w, config, face, refs, i, found, next);
      var v := Check(w, config, face, refs[i]);
      if v.Some? { found := found + [v.value]; } else { next := next + [refs[i].target]; }
    }
    NoReferences(w, config, face);
    assert refs[|refs|..] == [];
    forall v ensures multiset(found)[v] == |Described(w, config, face, refs, v)| { ProblemsExact(w, config, face, refs, v); }
    FollowedExactly(w, config, face, refs);
  }

  lemma NoReferences(w: World, config: Path, face: Option<Face>)
    ensures Problems(w, config, face, []) == [] && Followed(w, config, face, []) == []
  {
  }

  /** What the loop keeps: the stack holds only reachable paths, and the references of a visited
      config lead to visited configs, to the stack, or to nothing. */
  ghost predicate WorklistInv(w: World, pending: seq<Path>, visited: set<Path>, violations: seq<Violation>) {
    && (forall c <- visited :: InScope(w, c))
    && (forall c <- pending :: Reaches(FollowGraph(w), w.host, c) || Reaches(FollowGraph(w), w.client, c))
    && (forall c <- [w.host, w.client] :: c in w.configs ==> c in visited || c in pending)
    && (forall a, b :: Edge(FollowGraph(w), a, b) && a in visited && b in w.configs ==> b in visited || b in pending)
    && (forall v :: multiset(violations)[v] ==
          if v.config in visited && v.config in w.configs then multiset(ProblemsOf(w, v.config))[v] else 0)
  }

  lemma VisitStep(w: World, pending: seq<Path>, visited: set<Path>, violations: seq<Violation>, config: Path)
    requires WorklistInv(w, pending + [config], visited, violations) && config in w.configs && config !in visited
    ensures WorklistInv(w, pending + FollowGraph(w)[config], visited + {config}, violations + ProblemsOf(w, config))
  {
    var next, found := FollowGraph(w)[config], ProblemsOf(w, config);
    assert config in pending + [config];
    forall c | c in next ensures Reaches(FollowGraph(w), w.host, c) || Reaches(FollowGraph(w), w.client, c) {
      assert Edge(FollowGraph(w), config, c);
      if Reaches(FollowGraph(w), w.host, config) { ReachesOn(FollowGraph(w), w.host, config, c); }
      else { ReachesOn(FollowGraph(w), w.client, config, c); }
    }
    forall v ensures multiset(violations + found)[v] ==
      if v.config in visited + {config} && v.config in w.configs then multiset(ProblemsOf(w, v.config))[v] else 0
    {
      assert multiset(violations + found) == multiset(violations) + multiset(found);
      if v.config != config { assert v !in found; }
    }
  }

  lemma SkipStep(w: World, pending: seq<Path>, visited: set<Path>, violations: seq<Violation>, config: Path)
    requires WorklistInv(w, pending + [config], visited, violations) && (config !in w.configs || config in visited)
    ensures WorklistInv(w, pending, visited, violations)
  {
    assert forall c :: c in pending + [config] <==> c in pending || c == config;
  }

  /** Visited configs and missing files together: nothing traversal follows leads out of them. */
  ghost function Explored(w: World, visited: set<Path>): set<Path> {
    visited
    + (set a, t | a in FollowGraph(w) && t in FollowGraph(w)[a] && t !in w.configs :: t)
    + (set t <- {w.host, w.client} | t !in w.configs)
  }

  lemma ExploredIsKept(w: World, visited: set<Path>, violations: seq<Violation>)
    requires WorklistInv(w, [], visited, violations)
    ensures Keeps(FollowGraph(w), Explored(w, visited))
    ensures w.host in Explored(w, visited) && w.client in Explored(w, visited)
  {
    hide FollowGraph;
    assert FollowGraph(w).Keys == w.configs.Keys by { FollowKeys(w); }
    assert w.host in [w.host, w.client] && w.client in [w.host, w.client];
  }

  lemma FollowKeys(w: World)
    ensures FollowGraph(w).Keys == w.configs.Keys
  {
  }

  lemma WorklistDone(w: World, visited: set<Path>, violations: seq<Violation>)
    requires WorklistInv(w, [], visited, violations)
    ensures Reports(w, violations)
  {
    hide FollowGraph, ProblemsOf;
    ExploredIsKept(w, visited, violations);
    forall c | InScope(w, c) ensures c in visited {
      if Reaches(FollowGraph(w), w.host, c) {
        KeptReach(FollowGraph(w), Explored(w, visited), w.host, c);
      } else {
        KeptReach(FollowGraph(w), Explored(w, visited), w.client, c);
      }
    }
  }

  /** `collectProjectReferenceFaceViolations`, up to the final text sort. */
  method Collect(w: World) returns (violations: seq<Violation>)
    ensures Reports(w, violations) && ReportsWrong(w, violations)
  {
    hide WorklistInv, Reports, ReportsWrong, FollowGraph, ProblemsOf, Described, IsWrong;
    violations := [];
    var pending, visited := [w.host, w.client], {};
    CollectStart(w);
    while pending != []
      invariant WorklistInv(w, pending, visited, violations)
      decreases w.configs.Keys - visited, |pending|
    {
      var config := pending[|pending| - 1];
      var rest := pending[..|pending| - 1];
      assert pending == rest + [config];
      if config in visited || config !in w.configs {
        SkipStep(w, rest, visited, violations, config);
        pending := rest;
      } else {
        VisitStep(w, rest, visited, violations, config);
        var found, next := CheckConfig(w, config);
        pending, visited, violations := rest + next, visited + {config}, violations + found;
      }
    }
    WorklistDone(w, visited, violations);
    ReportIsExact(w, violations);
  }

  lemma CollectStart(w: World)
    ensures WorklistInv(w, [w.host, w.client], {}, [])
  {
    ReachesSelf(FollowGraph(w), w.host);
    ReachesSelf(FollowGraph(w), w.client);
  }

  /** The report is the same multiset whatever order the worklist runs in. */
  lemma ReportIsUnique(w: World, a: seq<Violation>, b: seq<Violation>)
    requires Reports(w, a) && Reports(w, b)
    ensures multiset(a) == multiset(b)
  {
    assert forall v :: multiset(a)[v] == multiset(b)[v];
  }

  /** A clean report means isolation: every config in scope enters split packages through the leaf of
      its own face only, and has a face if it enters one at all. */
  lemma CleanMeansIsolated(w: World, config: Path, r: Reference, root: SplitRoot)
    requires Reports(w, []) && InScope(w, config) && r in w.configs[config].references
    requires ContainingRoot(w.splitRoots, r.target) == Some(root)
    ensures FaceOf(w, config).Some? && r.target == Leaf(root, FaceOf(w, config).value)
  {
    hide Reaches, ProblemsOf;
    var v := Check(w, config, FaceOf(w, config), r);
    if v.Some? {
      ProblemIsListed(w, config, FaceOf(w, config), w.configs[config].references, r);
      ListedProblemReported(w, config, v.value, []);
    }
  }

  lemma ListedProblemReported(w: World, config: Path, v: Violation, violations: seq<Violation>)
    requires Reports(w, violations) && InScope(w, config) && v.config == config
    requires v in Problems(w, config, FaceOf(w, config), w.configs[config].references)
    ensures v in violations
  {
    hide Reaches;
    assert multiset(violations)[v] == multiset(ProblemsOf(w, config))[v];
  }

  lemma {:induction false} ProblemIsListed(w: World, config: Path, face: Option<Face>, refs: seq<Reference>, r: Reference)
    requires r in refs && Check(w, config, face, r).Some?
    ensures Check(w, config, face, r).value in Problems(w, config, face, refs)
  {
    if refs[0] != r { ProblemIsListed(w, config, face, refs[1..], r); }
  }

  // ------------------------------------------------------ the face of the aggregate

  function Aggregate(w: World, face: Face): Path {
    if face.Host? then w.host else w.client
  }

  /** The reference leads into a split package. */
  predicate Enters(w: World, r: Reference) {
    ContainingRoot(w.splitRoots, r.target).Some?
  }

  /** A reference into a split package from a config reached from the aggregate of that face. */
  ghost predicate EntersFrom(w: World, face: Face, config: Path, r: Reference) {
    config in w.configs && Reaches(FollowGraph(w), Aggregate(w, face), config) && r in w.configs[config].references && Enters(w, r)
  }

  /** All of them name that face's leaf. */
  ghost predicate EntersMatching(w: World, face: Face) {
    forall config, r :: EntersFrom(w, face, config, r) ==> r.target == Leaf(ContainingRoot(w.splitRoots, r.target).value, face)
  }

  /** All the configs they are written in have that face. */
  ghost predicate FacesMatch(w: World, face: Face) {
    forall config, r :: EntersFrom(w, face, config, r) ==> FaceOf(w, config) == Some(face)
  }

  /** After a clean report the leaves match the aggregate from which traversal began exactly when the faces do: the check
      goes by each config's own face. */
  lemma CleanMatchesAggregate(w: World, face: Face)
    requires Reports(w, []) && forall root <- w.splitRoots :: root.host != root.client
    ensures EntersMatching(w, face) <==> FacesMatch(w, face)
  {
    hide FollowGraph, Reports, Reaches;
    forall config, r | EntersFrom(w, face, config, r)
      ensures r.target == Leaf(ContainingRoot(w.splitRoots, r.target).value, face) <==> FaceOf(w, config) == Some(face)
    {
      CleanMeansIsolated(w, config, r, ContainingRoot(w.splitRoots, r.target).value);
    }
  }

  /** The client aggregate refers to a config without a face of its own that extends the host base, and that config
      refers to the host leaf of a split package. */
  const NEUTRAL: World :=
    World(map["client" := Config(None, [Reference("n", "neutral")]),
              "neutral" := Config(Some("base"), [Reference("p", "p/host")]),
              "base" := Config(None, [])],
          map["host" := Host, "client" := Client, "base" := Host, "p/host" := Host, "p/client" := Client],
          [SplitRoot("p", {"p/host", "p/client"}, "p/host", "p/client")], "host", "client")

  lemma NeutralRoots()
    ensures var w := NEUTRAL;
            ContainingRoot(w.splitRoots, "neutral").None? && ContainingRoot(w.splitRoots, "p/host") == Some(w.splitRoots[0])
  {
    assert NEUTRAL.splitRoots[1..] == [];
  }

  lemma NeutralFace()
    ensures "neutral" in NEUTRAL.configs && FaceOf(NEUTRAL, "neutral") == Some(Host)
  {
    assert ProjectFace(NEUTRAL, "base", {"neutral"}) == Some(Host);
  }

  lemma NeutralIsClean(config: Path)
    requires config in NEUTRAL.configs
    ensures ProblemsOf(NEUTRAL, config) == []
  {
    hide ContainingRoot, ProjectFace;
    NeutralRoots();
    NeutralFace();
    var refs := NEUTRAL.configs[config].references;
    if refs != [] { assert refs[1..] == []; }
  }

  lemma NeutralIsReached()
    ensures Edge(FollowGraph(NEUTRAL), "client", "neutral")
  {
    hide ContainingRoot, ProjectFace;
    NeutralRoots();
    var refs := NEUTRAL.configs["client"].references;
    assert refs[1..] == [] && Check(NEUTRAL, "client", FaceOf(NEUTRAL, "client"), refs[0]).None?;
    assert Followed(NEUTRAL, "client", FaceOf(NEUTRAL, "client"), refs) == ["neutral"];
  }

  /** The report is clean, and the client aggregate reaches a host leaf. */
  lemma NeutralConfigExample()
    ensures Reports(NEUTRAL, []) && !EntersMatching(NEUTRAL, Client)
  {
    var w, p := NEUTRAL, Reference("p", "p/host");
    assert p in w.configs["neutral"].references && w.client == "client" && Leaf(w.splitRoots[0], Client) != "p/host";
    hide ContainingRoot, ProjectFace, FollowGraph, ProblemsOf, Reaches, Edge, Followed;
    NeutralRoots();
    forall config | InScope(w, config) ensures ProblemsOf(w, config) == [] { NeutralIsClean(config); }
    NeutralIsReached();
    ReachesSelf(FollowGraph(w), "client");
    ReachesOn(FollowGraph(w), "client", "client", "neutral");
    assert EntersFrom(w, Client, "neutral", p);
  }
}
