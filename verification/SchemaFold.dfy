/** The fold of composed schemas in `scripts/gen-config-catalog.ts`: a package's own key paths, and those of every package
    whose schema it composes, directly or through others. */
module SchemaFold {
  import opened DependencyGraph

  /** A catalog entry's schema: its key paths and the packages it composes. */
  datatype Entry = Entry(keys: seq<string>, composes: seq<string>)

  type Catalog = map<string, Entry>

  function ComposeGraph(entries: Catalog): Graph<string> {
    map p | p in entries :: entries[p].composes
  }

  function KeysOf(entries: Catalog, order: seq<string>): seq<string>
    requires forall p <- order :: p in entries
  {
    if order == [] then [] else entries[order[0]].keys + KeysOf(entries, order[1..])
  }

  lemma {:induction false} KeysOfAppend(entries: Catalog, a: seq<string>, b: seq<string>)
    requires (forall p <- a :: p in entries) && forall p <- b :: p in entries
    ensures forall p <- a + b :: p in entries
    ensures KeysOf(entries, a + b) == KeysOf(entries, a) + KeysOf(entries, b)
  {
    if a == [] {
      assert a + b == b;
    } else {
      assert (a + b)[1..] == a[1..] + b && forall p <- a[1..] :: p in a;
      KeysOfAppend(entries, a[1..], b);
    }
  }

  ghost predicate NoRepeats(order: seq<string>) {
    forall i, j :: 0 <= i < j < |order| ==> order[i] != order[j]
  }

  /** A composed package that was not collected. */
  ghost predicate IsMissing(entries: Catalog, order: seq<string>, x: string) {
    x !in entries && exists p <- order :: p in entries && x in entries[p].composes
  }

  /** What folding did: the packages of `order` for the first time, each once, all reached from `root`. */
  ghost predicate Folds(entries: Catalog, root: string, before: set<string>, order: seq<string>) {
    && NoRepeats(order)
    && forall p <- order :: p in entries && p !in before && Reaches(ComposeGraph(entries), root, p)
  }

  /** Nothing composed by these packages is left to look at. */
  ghost predicate Done(entries: Catalog, order: seq<string>, seen: set<string>) {
    forall p, q :: p in order && Edge(ComposeGraph(entries), p, q) && q in entries ==> q in seen
  }

  lemma FoldsAppend(entries: Catalog, root: string, q: string, before: set<string>, a: seq<string>, b: seq<string>)
    requires Folds(entries, root, before, a) && Folds(entries, q, before + (set p <- a), b)
    requires Reaches(ComposeGraph(entries), root, q)
    ensures Folds(entries, root, before, a + b)
  {
    forall p <- b ensures Reaches(ComposeGraph(entries), root, p) { ReachesThrough(ComposeGraph(entries), root, q, p); }
    forall i, j | 0 <= i < j < |a + b| ensures (a + b)[i] != (a + b)[j] {
      if i < |a| <= j { assert b[j - |a|] in b && a[i] in a; }
    }
  }

  lemma ReachesThrough(g: Graph<string>, a: string, b: string, c: string)
    requires Reaches(g, a, b) && Reaches(g, b, c)
    ensures Reaches(g, a, c)
  {
    var p :| Leads(g, p, b, c);
    WalkOn(g, a, p, |p| - 1);
  }

  lemma {:induction false} WalkOn(g: Graph<string>, a: string, p: seq<string>, k: nat)
    requires IsWalk(g, p) && k < |p| && Reaches(g, a, p[0])
    ensures Reaches(g, a, p[k])
  {
    if k > 0 {
      WalkOn(g, a, p, k - 1);
      assert StepAt(g, p, k - 1);
      ReachesOn(g, a, p[k - 1], p[k]);
    }
  }

  // ------------------------------------------------------------- inside one call

  /** What of a package's composes has been looked at, `i` of them for the package at hand. */
  function Looked(entries: Catalog, package: string, i: nat, p: string): seq<string> {
    if p !in entries then [] else if p == package && i < |entries[p].composes| then entries[p].composes[..i] else entries[p].composes
  }

  ghost predicate DoneSoFar(entries: Catalog, package: string, i: nat, order: seq<string>, seen: set<string>) {
    forall p, q :: p in order && q in Looked(entries, package, i, p) && q in entries ==> q in seen
  }

  ghost predicate MissingSoFar(entries: Catalog, package: string, i: nat, order: seq<string>, x: string) {
    x !in entries && exists p <- order :: x in Looked(entries, package, i, p)
  }

  lemma NothingLooked(entries: Catalog, package: string, seen: set<string>)
    requires package in entries
    ensures forall x :: x !in Looked(entries, package, 0, package)
    ensures DoneSoFar(entries, package, 0, [package], seen) && forall x :: !MissingSoFar(entries, package, 0, [package], x)
  {
  }

  lemma AllLooked(entries: Catalog, package: string, order: seq<string>, seen: set<string>)
    requires package in entries
    ensures DoneSoFar(entries, package, |entries[package].composes|, order, seen) ==> Done(entries, order, seen)
    ensures forall x :: MissingSoFar(entries, package, |entries[package].composes|, order, x) <==> IsMissing(entries, order, x)
  {
  }

  lemma LookFurther(entries: Catalog, package: string, i: nat, p: string, q: string)
    requires package in entries && i < |entries[package].composes|
    ensures q in Looked(entries, package, i + 1, p) <==>
            q in Looked(entries, package, i, p) || (p == package && q == entries[package].composes[i])
  {
    var c := entries[package].composes;
    assert c[..i + 1] == c[..i] + [c[i]];
    assert i + 1 == |c| ==> c[..i + 1] == c;
  }

  /** The next one is not a collected package. */
  lemma MissingStep(entries: Catalog, package: string, i: nat, order: seq<string>, seen: set<string>)
    requires package in entries && i < |entries[package].composes| && package in order && entries[package].composes[i] !in entries
    ensures DoneSoFar(entries, package, i, order, seen) ==> DoneSoFar(entries, package, i + 1, order, seen)
    ensures forall x :: MissingSoFar(entries, package, i + 1, order, x) <==>
                        MissingSoFar(entries, package, i, order, x) || x == entries[package].composes[i]
  {
    hide Looked;
    forall p, q ensures q in Looked(entries, package, i + 1, p) <==>
                        q in Looked(entries, package, i, p) || (p == package && q == entries[package].composes[i]) {
      LookFurther(entries, package, i, p, q);
    }
    forall x ensures MissingSoFar(entries, package, i + 1, order, x) <==>
                     MissingSoFar(entries, package, i, order, x) || x == entries[package].composes[i] {
      LookFurther(entries, package, i, package, x);
      if p :| p in order && x in Looked(entries, package, i, p) { LookFurther(entries, package, i, p, x); }
      if p :| p in order && x in Looked(entries, package, i + 1, p) { LookFurther(entries, package, i, p, x); }
    }
  }

  /** The next one is folded in. */
  lemma FoldStep(entries: Catalog, package: string, i: nat, order: seq<string>, seen: set<string>, next: seq<string>)
    requires package in entries && i < |entries[package].composes| && package in order && package !in next
    requires (forall p <- next :: p in entries) && entries[package].composes[i] in seen && entries[package].composes[i] in entries
    ensures DoneSoFar(entries, package, i, order, seen) && Done(entries, next, seen) ==> DoneSoFar(entries, package, i + 1, order + next, seen)
    ensures forall x :: MissingSoFar(entries, package, i + 1, order + next, x) <==>
                        MissingSoFar(entries, package, i, order, x) || IsMissing(entries, next, x)
  {
    assert forall p <- next :: Looked(entries, package, i + 1, p) == entries[p].composes;
    forall p, q ensures q in Looked(entries, package, i + 1, p) <==>
                        q in Looked(entries, package, i, p) || (p == package && q == entries[package].composes[i]) {
      LookFurther(entries, package, i, p, q);
    }
    assert forall p, q :: Edge(ComposeGraph(entries), p, q) <==> p in entries && q in entries[p].composes;
    hide Looked, ComposeGraph;
    assert forall p :: p in order + next <==> p in order || p in next;
  }

  /** What the recursive closure shares. */
  class Folder {
    const entries: Catalog
    var seen: set<string>
    var violations: seq<string>

    constructor (entries: Catalog)
      ensures this.entries == entries && seen == {} && violations == []
    {
      this.entries := entries;
      seen, violations := {}, [];
    }

    /** `foldComposed`. */
    method Fold(package: string) returns (keys: seq<string>, ghost order: seq<string>, ghost raised: seq<string>)
      requires package in entries
      modifies this
      ensures Folds(entries, package, old(seen), order) && seen == old(seen) + (set p <- order) && package in seen
      ensures keys == KeysOf(entries, order) && Done(entries, order, seen)
      ensures violations == old(violations) + raised && forall x :: x in raised <==> IsMissing(entries, order, x)
      decreases |entries.Keys - seen|
    {
      hide Reaches, SoFar, Done, IsMissing, Folds, KeysOf;
      if package in seen {
        NothingFolded(entries, package, seen);
        return [], [], [];
      }
      ghost var before := seen;
      seen := seen + {package};
      keys, order, raised := entries[package].keys, [package], [];
      FoldStart(entries, package, before);
      var composed := entries[package].composes;
      for i := 0 to |composed|
        invariant SoFar(entries, package, before, i, order, seen, keys, raised)
        invariant violations == old(violations) + raised
      {
        ghost var now := seen;
        if composed[i] !in entries {
          violations := violations + [composed[i]];
          MissingSoFarStep(entries, package, before, i, order, seen, keys, raised);
          raised := raised + [composed[i]];
        } else {
          LessLeft(entries, package, before, i, order, seen, keys, raised);
          var more, next, further := Fold(composed[i]);
          FoldSoFarStep(entries, package, before, i, order, now, keys, raised, next, further);
          keys, order, raised := keys + more, order + next, raised + further;
        }
      }
      FoldEnd(entries, package, before, order, seen, keys, raised);
    }
  }

  /** What the loop keeps. */
  ghost predicate SoFar(entries: Catalog, package: string, before: set<string>, i: nat,
                        order: seq<string>, seen: set<string>, keys: seq<string>, raised: seq<string>) {
    && package in entries && package in order && package !in before
    && Folds(entries, package, before, order) && seen == before + (set p <- order)
    && (forall p <- order :: p in entries) && keys == KeysOf(entries, order)
    && DoneSoFar(entries, package, i, order, seen)
    && forall x :: x in raised <==> MissingSoFar(entries, package, i, order, x)
  }

  lemma MissingSoFarStep(entries: Catalog, package: string, before: set<string>, i: nat,
                         order: seq<string>, seen: set<string>, keys: seq<string>, raised: seq<string>)
    requires SoFar(entries, package, before, i, order, seen, keys, raised)
    requires i < |entries[package].composes| && entries[package].composes[i] !in entries
    ensures SoFar(entries, package, before, i + 1, order, seen, keys, raised + [entries[package].composes[i]])
  {
    hide Folds, DoneSoFar, MissingSoFar, KeysOf;
    MissingStep(entries, package, i, order, seen);
    var c := entries[package].composes[i];
    assert forall x :: x in raised + [c] <==> x in raised || x == c;
  }

  lemma FoldSoFarStep(entries: Catalog, package: string, before: set<string>, i: nat, order: seq<string>, seen: set<string>,
                      keys: seq<string>, raised: seq<string>, next: seq<string>, further: seq<string>)
    requires SoFar(entries, package, before, i, order, seen, keys, raised)
    requires i < |entries[package].composes| && entries[package].composes[i] in entries
    requires Folds(entries, entries[package].composes[i], seen, next) && entries[package].composes[i] in seen + (set p <- next)
    requires Done(entries, next, seen + (set p <- next)) && forall x :: x in further <==> IsMissing(entries, next, x)
    ensures (forall p <- next :: p in entries)
    ensures SoFar(entries, package, before, i + 1, order + next, seen + (set p <- next), keys + KeysOf(entries, next), raised + further)
  {
    hide DoneSoFar, MissingSoFar, KeysOf, Done, IsMissing, Reaches;
    var after := seen + (set p <- next);
    FoldedTwice(entries, package, entries[package].composes[i], before, order, next, seen);
    hide Folds;
    MoreDone(entries, package, i, order, seen, after);
    FoldStep(entries, package, i, order, after, next);
    KeysOfAppend(entries, order, next);
    assert after == before + (set p <- order + next);
  }

  lemma FoldEnd(entries: Catalog, package: string, before: set<string>,
                order: seq<string>, seen: set<string>, keys: seq<string>, raised: seq<string>)
    requires package in entries && SoFar(entries, package, before, |entries[package].composes|, order, seen, keys, raised)
    ensures Folds(entries, package, before, order) && seen == before + (set p <- order) && package in seen
    ensures (forall p <- order :: p in entries) && keys == KeysOf(entries, order) && Done(entries, order, seen)
    ensures forall x :: x in raised <==> IsMissing(entries, order, x)
  {
    hide Folds, DoneSoFar, MissingSoFar, KeysOf, Done, IsMissing;
    AllLooked(entries, package, order, seen);
  }

  lemma NothingFolded(entries: Catalog, package: string, seen: set<string>)
    ensures Folds(entries, package, seen, []) && KeysOf(entries, []) == [] && Done(entries, [], seen)
    ensures forall x :: !IsMissing(entries, [], x)
  {
  }

  lemma FoldStart(entries: Catalog, package: string, before: set<string>)
    requires package in entries && package !in before
    ensures SoFar(entries, package, before, 0, [package], before + {package}, entries[package].keys, [])
  {
    hide Reaches;
    ReachesSelf(ComposeGraph(entries), package);
    assert [package][1..] == [] && before + {package} == before + (set p <- [package]);
    assert KeysOf(entries, [package]) == entries[package].keys + KeysOf(entries, [package][1..]) == entries[package].keys;
    hide Folds, DoneSoFar, MissingSoFar;
    StartFolds(entries, package, before);
    NothingLooked(entries, package, before + {package});
  }

  lemma StartFolds(entries: Catalog, package: string, before: set<string>)
    requires package in entries && package !in before && Reaches(ComposeGraph(entries), package, package)
    ensures Folds(entries, package, before, [package])
  {
  }

  lemma LessLeft(entries: Catalog, package: string, before: set<string>, i: nat,
                 order: seq<string>, seen: set<string>, keys: seq<string>, raised: seq<string>)
    requires SoFar(entries, package, before, i, order, seen, keys, raised)
    ensures |entries.Keys - seen| < |entries.Keys - before|
  {
    hide Folds, DoneSoFar, MissingSoFar, KeysOf;
    Subset(entries.Keys - seen, entries.Keys - before - {package});
  }

  lemma {:induction false} Subset<T>(a: set<T>, b: set<T>)
    requires a <= b
    ensures |a| <= |b|
  {
    if a != {} {
      var x :| x in a;
      Subset(a - {x}, b - {x});
    }
  }

  lemma FoldedTwice(entries: Catalog, package: string, q: string, before: set<string>, order: seq<string>, next: seq<string>, sofar: set<string>)
    requires package in entries && package in order && q in entries[package].composes && sofar == before + (set p <- order)
    requires Folds(entries, package, before, order) && Folds(entries, q, sofar, next)
    ensures Folds(entries, package, before, order + next) && package !in next && forall p <- next :: p in entries
  {
    hide Reaches;
    ReachesSelf(ComposeGraph(entries), package);
    ReachesOn(ComposeGraph(entries), package, package, q);
    FoldsAppend(entries, package, q, before, order, next);
  }

  lemma MoreDone(entries: Catalog, package: string, i: nat, order: seq<string>, seen: set<string>, more: set<string>)
    requires DoneSoFar(entries, package, i, order, seen) && seen <= more
    ensures DoneSoFar(entries, package, i, order, more)
  {
  }

  /** The packages composed, directly or through others. */
  ghost predicate Composed(entries: Catalog, package: string, p: string) {
    p in entries && Reaches(ComposeGraph(entries), package, p)
  }

  lemma FoldedAreComposed(entries: Catalog, package: string, order: seq<string>)
    requires package in entries && Folds(entries, package, {}, order) && Done(entries, order, set p <- order) && package in order
    ensures forall p :: p in order <==> Composed(entries, package, p)
  {
    hide Reaches;
    var g, kept := ComposeGraph(entries), set p <- order;
    var outside := kept + set a, b | a in g && b in g[a] && b !in entries :: b;
    forall p | Composed(entries, package, p) ensures p in order {
      KeptReach(g, outside, package, p);
    }
  }

  /** All key paths the loader accepts for a package: its own and those of every package it composes, each package once; and
      every composed name that is no collected package. */
  method FoldAll(entries: Catalog, package: string) returns (keys: seq<string>, missing: seq<string>, ghost order: seq<string>)
    requires package in entries
    ensures NoRepeats(order) && forall p :: p in order <==> Composed(entries, package, p)
    ensures (forall p <- order :: p in entries) && keys == KeysOf(entries, order)
    ensures forall x :: x in missing <==> x !in entries && exists p :: Composed(entries, package, p) && x in entries[p].composes
  {
    hide Composed, Done, Reaches, KeysOf, ComposeGraph;
    var folder := new Folder(entries);
    ghost var raised;
    keys, order, raised := folder.Fold(package);
    missing := folder.violations;
    assert folder.seen == set p <- order;
    FoldedAreComposed(entries, package, order);
    assert missing == raised;
  }

  /** A key is folded in exactly when some composed package accepts it. */
  lemma {:induction false} FoldedKeys(entries: Catalog, order: seq<string>, key: string)
    requires forall p <- order :: p in entries
    ensures key in KeysOf(entries, order) <==> exists p <- order :: key in entries[p].keys
  {
    if order != [] {
      FoldedKeys(entries, order[1..], key);
      assert forall p :: p in order <==> p == order[0] || p in order[1..];
    }
  }
}
