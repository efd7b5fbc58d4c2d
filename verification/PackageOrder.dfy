/** The dependency-layer sort of `scripts/package-graph.ts`. */
module PackageOrder {
  import opened DependencyGraph

  /** The fields of a package node the sort reads. */
  datatype Node = Node(short: string, group: string, deps: seq<string>)

  /** `localeCompare`, of which only this is used: it orders strings totally. */
  type Compare = (string, string) -> int

  ghost predicate TotalOrder(cmp: Compare) {
    && (forall x, y :: cmp(x, y) == 0 <==> x == y)
    && (forall x, y :: cmp(x, y) < 0 <==> cmp(y, x) > 0)
    && (forall x, y, z :: cmp(x, y) < 0 && cmp(y, z) < 0 ==> cmp(x, z) < 0)
  }

  const MAX_SAFE_INTEGER := 0x1F_FFFF_FFFF_FFFF

  predicate FirstAt(groups: seq<string>, group: string, i: nat) {
    i < |groups| && groups[i] == group && group !in groups[..i]
  }

  function IndexOf(groups: seq<string>, group: string): (i: int)
    ensures -1 <= i < |groups| && (i == -1 <==> group !in groups)
    ensures i >= 0 ==> FirstAt(groups, group, i)
  {
    if groups == [] then -1
    else if groups[0] == group then 0
    else
      var i := IndexOf(groups[1..], group);
      assert i >= 0 ==> groups[..i + 1] == [groups[0]] + groups[1..][..i];
      if i == -1 then -1 else i + 1
  }

  function Position(groups: seq<string>, group: string): int {
    var i := IndexOf(groups, group);
    if i == -1 then MAX_SAFE_INTEGER else i
  }

  function ComparePackages(a: Node, b: Node, groups: seq<string>, cmp: Compare): int {
    var byPosition := Position(groups, a.group) - Position(groups, b.group);
    if byPosition != 0 then byPosition
    else if cmp(a.group, b.group) != 0 then cmp(a.group, b.group)
    else cmp(a.short, b.short)
  }

  /** How one call of the sort is parameterised. */
  datatype Order = Order(groups: seq<string>, cmp: Compare)

  predicate Less(o: Order, a: Node, b: Node) {
    ComparePackages(a, b, o.groups, o.cmp) < 0
  }

  lemma LessIsStrictOrder(o: Order, a: Node, b: Node, c: Node)
    requires TotalOrder(o.cmp)
    ensures !Less(o, a, a)
    ensures Less(o, a, b) ==> !Less(o, b, a)
    ensures Less(o, a, b) && Less(o, b, c) ==> Less(o, a, c)
    ensures a.short != b.short ==> Less(o, a, b) || Less(o, b, a)
  {
    assert o.cmp(a.group, a.group) == 0 && o.cmp(a.short, a.short) == 0;
    assert o.cmp(a.group, b.group) < 0 <==> o.cmp(b.group, a.group) > 0;
    assert o.cmp(a.group, b.group) > 0 <==> o.cmp(b.group, a.group) < 0;
    assert o.cmp(a.short, b.short) < 0 <==> o.cmp(b.short, a.short) > 0;
    assert o.cmp(a.short, b.short) > 0 <==> o.cmp(b.short, a.short) < 0;
  }

  /** Within a layer: listed groups as they are listed, then unlisted groups by name; within a group, by short name. */
  ghost predicate ComesFirst(o: Order, a: Node, b: Node) {
    || (exists i: nat, j: nat :: i < j && FirstAt(o.groups, a.group, i) && FirstAt(o.groups, b.group, j))
    || (a.group in o.groups && b.group !in o.groups)
    || (a.group !in o.groups && b.group !in o.groups && o.cmp(a.group, b.group) < 0)
    || (a.group == b.group && o.cmp(a.short, b.short) < 0)
  }

  lemma LessIsComesFirst(o: Order, a: Node, b: Node)
    requires TotalOrder(o.cmp) && |o.groups| <= MAX_SAFE_INTEGER
    ensures Less(o, a, b) <==> ComesFirst(o, a, b)
  {
    var i, j := IndexOf(o.groups, a.group), IndexOf(o.groups, b.group);
    assert o.cmp(a.group, b.group) == 0 <==> a.group == b.group;
    if x: nat, y: nat :| x < y && FirstAt(o.groups, a.group, x) && FirstAt(o.groups, b.group, y) {
      assert x == i && y == j;
    }
    if i >= 0 && j >= 0 && i == j { assert a.group == o.groups[i] == b.group; }
  }

  // ------------------------------------------------------------------- Array.sort

  ghost predicate SortedByLess(o: Order, s: seq<Node>) {
    forall i, j :: 0 <= i < j < |s| ==> Less(o, s[i], s[j])
  }

  ghost predicate UniqueShorts(s: seq<Node>) {
    forall i, j :: 0 <= i < j < |s| ==> s[i].short != s[j].short
  }

  function Insert(o: Order, x: Node, s: seq<Node>): (r: seq<Node>)
    ensures forall y :: y in r <==> y == x || y in s
    ensures |r| == |s| + 1
  {
    if s == [] then [x]
    else if Less(o, x, s[0]) then [x] + s
    else [s[0]] + Insert(o, x, s[1..])
  }

  function Sort(o: Order, s: seq<Node>): (r: seq<Node>)
    ensures forall y :: y in r <==> y in s
    ensures |r| == |s|
  {
    if s == [] then [] else Insert(o, s[0], Sort(o, s[1..]))
  }

  lemma {:induction false} InsertSorted(o: Order, x: Node, s: seq<Node>)
    requires TotalOrder(o.cmp) && SortedByLess(o, s) && forall y <- s :: y.short != x.short
    ensures SortedByLess(o, Insert(o, x, s))
  {
    if s != [] {
      LessIsStrictOrder(o, x, s[0], x);
      if Less(o, x, s[0]) {
        forall j | 1 <= j < |s| ensures Less(o, x, s[j]) { LessIsStrictOrder(o, x, s[0], s[j]); }
      } else {
        InsertSorted(o, x, s[1..]);
        var rest := Insert(o, x, s[1..]);
        forall j | 0 <= j < |rest| ensures Less(o, s[0], rest[j]) {
          assert rest[j] in rest;
          if rest[j] != x {
            var k :| 0 <= k < |s[1..]| && s[1..][k] == rest[j];
            assert Less(o, s[0], s[k + 1]);
          }
        }
      }
    }
  }

  lemma {:induction false} SortSorted(o: Order, s: seq<Node>)
    requires TotalOrder(o.cmp) && UniqueShorts(s)
    ensures SortedByLess(o, Sort(o, s))
  {
    if s != [] {
      SortSorted(o, s[1..]);
      InsertSorted(o, s[0], Sort(o, s[1..]));
    }
  }

  // ---------------------------------------------------------- the meaning of the order

  function Shorts(s: seq<Node>): set<string> {
    set p <- s :: p.short
  }

  /** `Map.set`: replace in place, or append. */
  function PutEntry(entries: seq<Node>, p: Node): (r: seq<Node>)
    ensures forall q :: q in r ==> q == p || q in entries
    ensures p in r && forall q :: q in entries && q.short != p.short ==> q in r
  {
    if entries == [] then [p]
    else if entries[0].short == p.short then [p] + entries[1..]
    else [entries[0]] + PutEntry(entries[1..], p)
  }

  lemma {:induction false} PutEntryUnique(entries: seq<Node>, p: Node)
    requires UniqueShorts(entries)
    ensures UniqueShorts(PutEntry(entries, p))
  {
    if entries != [] && entries[0].short != p.short { PutEntryUnique(entries[1..], p); }
  }

  /** The `Map` built from the package list: a repeated short name keeps its first place and its
      last node. */
  function Entries(packages: seq<Node>): seq<Node> {
    if packages == [] then [] else PutEntry(Entries(packages[..|packages| - 1]), packages[|packages| - 1])
  }

  lemma {:induction false} EntriesOf(packages: seq<Node>)
    ensures UniqueShorts(Entries(packages))
    ensures forall p <- Entries(packages) :: p in packages
    ensures Shorts(Entries(packages)) == Shorts(packages)
  {
    if packages != [] {
      var front, last := packages[..|packages| - 1], packages[|packages| - 1];
      assert packages == front + [last];
      EntriesOf(front);
      PutEntryUnique(Entries(front), last);
      assert Shorts(packages) == Shorts(front) + {last.short};
    }
  }

  ghost predicate LastOf(packages: seq<Node>, p: Node, i: nat) {
    i < |packages| && packages[i] == p && forall j :: i < j < |packages| ==> packages[j].short != p.short
  }

  lemma LastOfMore(front: seq<Node>, last: Node, p: Node, i: nat)
    ensures LastOf(front + [last], p, i) <==> if i == |front| then p == last else LastOf(front, p, i) && p.short != last.short
  {
    if i < |front| {
      assert (front + [last])[|front|] == last;
      assert forall j :: 0 <= j < |front| ==> (front + [last])[j] == front[j];
    }
  }

  /** Of the nodes with one short name the last one counts. */
  lemma {:induction false} LastNodeCounts(packages: seq<Node>, p: Node)
    ensures p in Entries(packages) <==> exists i :: LastOf(packages, p, i)
  {
    if packages != [] {
      var front, last := packages[..|packages| - 1], packages[|packages| - 1];
      assert packages == front + [last];
      EntriesOf(front);
      LastNodeCounts(front, p);
      forall i: nat ensures LastOf(packages, p, i) <==> if i == |front| then p == last else LastOf(front, p, i) && p.short != last.short {
        LastOfMore(front, last, p, i);
      }
      if p != last && p.short == last.short { OtherIsReplaced(Entries(front), last, p); }
      hide LastOf, UniqueShorts, Shorts;
      assert p == last ==> LastOf(packages, p, |front|);
    }
  }

  lemma {:induction false} OtherIsReplaced(entries: seq<Node>, p: Node, q: Node)
    requires UniqueShorts(entries) && q.short == p.short && q != p
    ensures q !in PutEntry(entries, p)
  {
    if entries != [] {
      if entries[0].short == p.short { FirstIsUnique(entries); } else { OtherIsReplaced(entries[1..], p, q); }
    }
  }

  lemma {:induction false} EntriesOfUnique(packages: seq<Node>)
    requires UniqueShorts(packages)
    ensures forall p :: p in Entries(packages) <==> p in packages
  {
    if packages != [] {
      var front, last := packages[..|packages| - 1], packages[|packages| - 1];
      assert packages == front + [last];
      EntriesOfUnique(front);
    }
  }

  function DepsById(entries: seq<Node>): (g: Graph<string>)
    ensures g.Keys == Shorts(entries)
  {
    if entries == [] then map[]
    else DepsById(entries[1..])[entries[0].short := entries[0].deps]
  }

  lemma {:induction false} DepsOfEntry(entries: seq<Node>, p: Node)
    requires UniqueShorts(entries) && p in entries
    ensures p.short in DepsById(entries) && DepsById(entries)[p.short] == p.deps
  {
    if p != entries[0] {
      DepsOfEntry(entries[1..], p);
      var k :| 0 <= k < |entries| && entries[k] == p;
      assert entries[0].short != entries[k].short;
    }
  }

  ghost predicate DepthAt(g: Graph<string>, depth: map<string, nat>, a: string)
    requires a in g && a in depth
  {
    && (forall b <- g[a] :: b in depth && depth[b] < depth[a])
    && (depth[a] > 0 ==> exists b <- g[a] :: depth[b] == depth[a] - 1)
  }

  /** `depth` is the length of the longest dependency chain below each package. */
  ghost predicate IsDepth(g: Graph<string>, depth: map<string, nat>) {
    depth.Keys == g.Keys && forall a :: a in g ==> DepthAt(g, depth, a)
  }

  lemma {:induction false} DepthIsUnique(g: Graph<string>, d: map<string, nat>, e: map<string, nat>, a: string)
    requires IsDepth(g, d) && IsDepth(g, e) && a in g
    ensures d[a] == e[a]
    decreases d[a]
  {
    assert DepthAt(g, d, a) && DepthAt(g, e, a);
    forall b | b in g[a] ensures d[b] == e[b] { DepthIsUnique(g, d, e, b); }
    if d[a] > 0 { var b :| b in g[a] && d[b] == d[a] - 1; }
    if e[a] > 0 { var b :| b in g[a] && e[b] == e[a] - 1; }
  }

  lemma DepthIsRank(g: Graph<string>, depth: map<string, nat>)
    requires IsDepth(g, depth)
    ensures Ranks(g, depth) && Closed(g)
  {
    forall a, b | Edge(g, a, b) ensures b in g && depth[b] < depth[a] {
      assert DepthAt(g, depth, a);
    }
  }

  /** Shallower first; within a depth, by the comparator. */
  ghost predicate Before(o: Order, depth: map<string, nat>, a: Node, b: Node)
    requires a.short in depth && b.short in depth
  {
    depth[a.short] < depth[b.short] || (depth[a.short] == depth[b.short] && Less(o, a, b))
  }

  ghost predicate Layered(o: Order, depth: map<string, nat>, s: seq<Node>) {
    && (forall p <- s :: p.short in depth)
    && forall i, j :: 0 <= i < j < |s| ==> Before(o, depth, s[i], s[j])
  }

  /** Every entry once, in layer order. */
  ghost predicate IsSorted(o: Order, entries: seq<Node>, out: seq<Node>) {
    && (forall p :: p in out <==> p in entries)
    && UniqueShorts(out)
    && exists depth :: IsDepth(DepsById(entries), depth) && Layered(o, depth, out)
  }

  // ------------------------------------------------------------------------ topoSort

  datatype Outcome = Sorted(out: seq<Node>) | Cycle(among: seq<string>)

  predicate AllPlaced(p: Node, placed: set<string>) {
    forall d <- p.deps :: d in placed
  }

  /** `[...remaining.values()].filter(...)`. */
  function ReadyOf(remaining: seq<Node>, placed: set<string>): (r: seq<Node>)
    ensures forall p :: p in r <==> p in remaining && AllPlaced(p, placed)
  {
    if remaining == [] then []
    else (if AllPlaced(remaining[0], placed) then [remaining[0]] else []) + ReadyOf(remaining[1..], placed)
  }

  function RestOf(remaining: seq<Node>, placed: set<string>): (r: seq<Node>)
    ensures forall p :: p in r <==> p in remaining && !AllPlaced(p, placed)
    ensures |r| + |ReadyOf(remaining, placed)| == |remaining|
  {
    if remaining == [] then []
    else (if AllPlaced(remaining[0], placed) then [] else [remaining[0]]) + RestOf(remaining[1..], placed)
  }

  lemma {:induction false} FilterUnique(remaining: seq<Node>, placed: set<string>)
    requires UniqueShorts(remaining)
    ensures UniqueShorts(ReadyOf(remaining, placed)) && UniqueShorts(RestOf(remaining, placed))
  {
    if remaining != [] {
      hide AllPlaced, UniqueShorts;
      RestIsUnique(remaining);
      FilterUnique(remaining[1..], placed);
      FirstIsUnique(remaining);
      UniqueBehind(remaining[0], ReadyOf(remaining[1..], placed));
      UniqueBehind(remaining[0], RestOf(remaining[1..], placed));
    } else {
      NoneUnique();
    }
  }

  lemma RestIsUnique(s: seq<Node>)
    requires UniqueShorts(s) && s != []
    ensures UniqueShorts(s[1..])
  {
  }

  lemma NoneUnique()
    ensures UniqueShorts([])
  {
  }

  lemma UniqueBehind(p: Node, s: seq<Node>)
    requires UniqueShorts(s) && forall q <- s :: q.short != p.short
    ensures UniqueShorts([p] + s) && UniqueShorts([] + s)
  {
    assert [] + s == s;
  }

  lemma FirstIsUnique(s: seq<Node>)
    requires UniqueShorts(s) && s != []
    ensures forall p <- s[1..] :: p.short != s[0].short
  {
    forall p | p in s[1..] ensures p.short != s[0].short {
      var k :| 0 <= k < |s[1..]| && s[1..][k] == p;
      assert s[0].short != s[k + 1].short;
    }
  }

  /** A package left over after `level` layers: one of its dependencies is in the last layer or not
      placed at all, so it could not have come earlier. */
  ghost predicate NotEarlier(p: Node, depth: map<string, nat>, level: nat) {
    level > 0 ==> exists d <- p.deps :: d in depth ==> depth[d] == level - 1
  }

  ghost predicate LayerInv(o: Order, entries: seq<Node>, remaining: seq<Node>, placed: set<string>, out: seq<Node>,
                           depth: map<string, nat>, level: nat) {
    && depth.Keys == placed
    && (forall p :: p in entries <==> p in out || p in remaining)
    && UniqueShorts(remaining) && UniqueShorts(out)
    && (forall p <- out :: p.short in placed) && (forall p <- remaining :: p.short !in placed)
    && (forall a <- placed :: a in DepsById(entries) && DepthAt(DepsById(entries), depth, a) && depth[a] < level)
    && Layered(o, depth, out)
    && (forall p <- remaining :: NotEarlier(p, depth, level))
  }

  function Deepen(depth: map<string, nat>, ready: seq<Node>, level: nat): (r: map<string, nat>)
    ensures r.Keys == depth.Keys + Shorts(ready)
    ensures forall a :: a in r ==> r[a] == if a in Shorts(ready) then level else depth[a]
  {
    map a | a in depth.Keys + Shorts(ready) :: if a in Shorts(ready) then level else depth[a]
  }

  lemma SortedReady(o: Order, remaining: seq<Node>, placed: set<string>)
    requires TotalOrder(o.cmp) && UniqueShorts(remaining)
    ensures var ready := Sort(o, ReadyOf(remaining, placed));
            SortedByLess(o, ready) && UniqueShorts(ready) && (forall p :: p in ready <==> p in remaining && AllPlaced(p, placed))
  {
    FilterUnique(remaining, placed);
    var picked := ReadyOf(remaining, placed);
    SortSorted(o, picked);
    var ready := Sort(o, picked);
    forall i, j | 0 <= i < j < |ready| ensures ready[i].short != ready[j].short {
      LessIsStrictOrder(o, ready[i], ready[j], ready[i]);
      assert ready[i] in picked && ready[j] in picked;
    }
  }

  /** Everything a new layer needs except the order of the output. */
  lemma LayerDepths(entries: seq<Node>, remaining: seq<Node>, placed: set<string>, depth: map<string, nat>, level: nat, ready: seq<Node>)
    requires UniqueShorts(entries) && depth.Keys == placed
    requires forall p <- remaining :: p in entries && p.short !in placed && NotEarlier(p, depth, level)
    requires forall a <- placed :: a in DepsById(entries) && DepthAt(DepsById(entries), depth, a) && depth[a] < level
    requires forall p :: p in ready <==> p in remaining && AllPlaced(p, placed)
    ensures var depth' := Deepen(depth, ready, level);
            && (forall a <- depth' :: a in DepsById(entries) && DepthAt(DepsById(entries), depth', a) && depth'[a] < level + 1)
            && forall p <- remaining :: p !in ready ==> NotEarlier(p, depth', level + 1)
  {
    var g, depth' := DepsById(entries), Deepen(depth, ready, level);
    forall a | a in depth' ensures a in g && DepthAt(g, depth', a) && depth'[a] < level + 1 {
      if a in placed {
        assert DepthAt(g, depth, a);
        assert forall b <- g[a] :: b in placed && b !in Shorts(ready);
      } else {
        var p :| p in ready && p.short == a;
        DepsOfEntry(entries, p);
        assert NotEarlier(p, depth, level);
        assert forall b <- g[a] :: b in placed && b !in Shorts(ready);
      }
    }
    forall p | p in remaining && p !in ready ensures NotEarlier(p, depth', level + 1) {
      var d :| d in p.deps && d !in placed;
    }
  }

  lemma LayerOrder(o: Order, depth: map<string, nat>, out: seq<Node>, ready: seq<Node>, level: nat)
    requires Layered(o, depth, out) && SortedByLess(o, ready)
    requires forall p <- out :: depth[p.short] < level
    requires forall p <- ready :: p.short !in depth
    requires UniqueShorts(out) && UniqueShorts(ready)
    ensures Layered(o, Deepen(depth, ready, level), out + ready) && UniqueShorts(out + ready)
  {
    var depth', all := Deepen(depth, ready, level), out + ready;
    assert forall p <- ready :: p.short in Shorts(ready);
    assert forall i :: 0 <= i < |out| ==> out[i] in out;
    assert forall i :: 0 <= i < |ready| ==> ready[i] in ready;
    forall i, j | 0 <= i < j < |all| ensures Before(o, depth', all[i], all[j]) && all[i].short != all[j].short {
      if j < |out| {
        assert Before(o, depth, out[i], out[j]);
      } else if i >= |out| {
        assert Less(o, ready[i - |out|], ready[j - |out|]);
      }
    }
  }

  lemma LayerStep(o: Order, entries: seq<Node>, remaining: seq<Node>, placed: set<string>, out: seq<Node>,
                  depth: map<string, nat>, level: nat)
    requires TotalOrder(o.cmp) && UniqueShorts(entries)
    requires LayerInv(o, entries, remaining, placed, out, depth, level)
    ensures var ready := Sort(o, ReadyOf(remaining, placed));
            LayerInv(o, entries, RestOf(remaining, placed), placed + Shorts(ready), out + ready, Deepen(depth, ready, level), level + 1)
  {
    var ready := Sort(o, ReadyOf(remaining, placed));
    hide Sort, ReadyOf, RestOf, DepsById, Less, DepthAt, NotEarlier;
    SortedReady(o, remaining, placed);
    FilterUnique(remaining, placed);
    LayerDepths(entries, remaining, placed, depth, level, ready);
    LayerOrder(o, depth, out, ready, level);
    forall p | p in RestOf(remaining, placed) ensures p.short !in placed + Shorts(ready) {
      if q :| q in ready && q.short == p.short { SameShort(remaining, p, q); }
    }
  }

  lemma SameShort(s: seq<Node>, p: Node, q: Node)
    requires UniqueShorts(s) && p in s && q in s && p.short == q.short
    ensures p == q
  {
    var i :| 0 <= i < |s| && s[i] == p;
    var j :| 0 <= j < |s| && s[j] == q;
  }

  /** No package can be placed: each one left waits for a missing package or for another one left. */
  lemma StuckLayer(o: Order, entries: seq<Node>, remaining: seq<Node>, placed: set<string>, out: seq<Node>,
                   depth: map<string, nat>, level: nat)
    requires UniqueShorts(entries) && LayerInv(o, entries, remaining, placed, out, depth, level)
    requires remaining != [] && ReadyOf(remaining, placed) == []
    ensures !(Closed(DepsById(entries)) && Acyclic(DepsById(entries)))
  {
    hide DepthAt, Layered, NotEarlier, UniqueShorts, Acyclic;
    var g, left := DepsById(entries), Shorts(remaining);
    if Closed(g) {
      forall a | a in left ensures a in g && StepsInside(g, left, a) {
        var p :| p in remaining && p.short == a;
        DepsOfEntry(entries, p);
        assert p !in ReadyOf(remaining, placed);
        var d :| d in p.deps && d !in placed;
        assert Edge(g, a, d);
        assert d in Shorts(entries);
        var q :| q in entries && q.short == d;
        assert q in remaining;
      }
      assert remaining[0].short in left;
      StuckHasCycle(g, left);
    }
  }

  /** The packages that cannot be placed: each waits for a missing package or for one of them, and all the others
      have a depth. */
  ghost predicate Stuck(g: Graph<string>, among: set<string>) {
    && (forall a <- among :: a in g && exists d <- g[a] :: d !in g || d in among)
    && exists depth: map<string, nat> :: depth.Keys == g.Keys - among && forall a <- depth :: a in g && DepthAt(g, depth, a)
  }

  lemma LeftAreStuck(o: Order, entries: seq<Node>, remaining: seq<Node>, placed: set<string>, out: seq<Node>,
                     depth: map<string, nat>, level: nat)
    requires UniqueShorts(entries) && LayerInv(o, entries, remaining, placed, out, depth, level) && ReadyOf(remaining, placed) == []
    ensures Stuck(DepsById(entries), Shorts(remaining))
  {
    var g, left := DepsById(entries), Shorts(remaining);
    forall a <- left ensures a in g && exists d <- g[a] :: d !in g || d in left {
      var p :| p in remaining && p.short == a;
      DepsOfEntry(entries, p);
      assert p !in ReadyOf(remaining, placed);
      var d :| d in p.deps && d !in placed;
      if d in g {
        var q :| q in entries && q.short == d;
        assert q in remaining;
      }
    }
    assert depth.Keys == g.Keys - left;
  }

  lemma LeftAreDistinct(o: Order, entries: seq<Node>, remaining: seq<Node>, placed: set<string>, out: seq<Node>,
                        depth: map<string, nat>, level: nat)
    requires LayerInv(o, entries, remaining, placed, out, depth, level)
    ensures UniqueShorts(remaining)
  {
  }

  function ShortsOf(s: seq<Node>): (r: seq<string>)
    ensures |r| == |s| && forall i :: 0 <= i < |s| ==> r[i] == s[i].short
    ensures (set n <- r) == Shorts(s)
  {
    var r := seq(|s|, i requires 0 <= i < |s| => s[i].short);
    assert forall n :: n in r <==> n in Shorts(s) by {
      forall n | n in Shorts(s) ensures n in r {
        var i :| 0 <= i < |s| && s[i].short == n;
        assert r[i] == n;
      }
    }
    r
  }

  /** Succeeds exactly when every dependency is in the list and there is no cycle; the result is the
      layered order. */
  method TopoSort(packages: seq<Node>, o: Order) returns (r: Outcome)
    requires TotalOrder(o.cmp)
    ensures r.Sorted? <==> Closed(DepsById(Entries(packages))) && Acyclic(DepsById(Entries(packages)))
    ensures r.Sorted? ==> IsSorted(o, Entries(packages), r.out)
    ensures r.Sorted? && |o.groups| <= MAX_SAFE_INTEGER ==> InLayerOrder(o, Entries(packages), r.out)
    ensures r.Cycle? ==> r.among != [] && Stuck(DepsById(Entries(packages)), set name <- r.among)
    ensures r.Cycle? ==> forall i, j :: 0 <= i < j < |r.among| ==> r.among[i] != r.among[j]
  {
    hide InLayerOrder, Stuck, LayerInv, Sort, IsSorted, Closed, Acyclic, TotalOrder, DepsById, ReadyOf, RestOf, Deepen;
    var entries := Entries(packages);
    EntriesOf(packages);
    var remaining, placed, out := entries, {}, [];
    ghost var depth: map<string, nat>, level := map[], 0;
    LayerStart(o, entries);
    while remaining != []
      invariant LayerInv(o, entries, remaining, placed, out, depth, level)
      decreases |remaining|
    {
      var ready := Sort(o, ReadyOf(remaining, placed));
      SameLength(o, ReadyOf(remaining, placed));
      if |ready| == 0 {
        StuckLayer(o, entries, remaining, placed, out, depth, level);
        LeftAreStuck(o, entries, remaining, placed, out, depth, level);
        LeftAreDistinct(o, entries, remaining, placed, out, depth, level);
        return Cycle(ShortsOf(remaining));
      }
      LayerStep(o, entries, remaining, placed, out, depth, level);
      depth, level := Deepen(depth, ready, level), level + 1;
      out := out + ready;
      remaining := RestOf(remaining, placed);
      placed := placed + Shorts(ready);
    }
    LayersDone(o, entries, placed, out, depth, level);
    if |o.groups| <= MAX_SAFE_INTEGER { SortedByGroups(o, entries, out); }
    r := Sorted(out);
  }

  lemma SameLength(o: Order, s: seq<Node>)
    ensures |Sort(o, s)| == |s|
  {
  }

  lemma LayerStart(o: Order, entries: seq<Node>)
    requires UniqueShorts(entries)
    ensures LayerInv(o, entries, entries, {}, [], map[], 0)
  {
  }

  lemma LayersDone(o: Order, entries: seq<Node>, placed: set<string>, out: seq<Node>, depth: map<string, nat>, level: nat)
    requires UniqueShorts(entries) && LayerInv(o, entries, [], placed, out, depth, level)
    ensures IsSorted(o, entries, out) && Closed(DepsById(entries)) && Acyclic(DepsById(entries))
  {
    var g := DepsById(entries);
    assert IsDepth(g, depth) by {
      forall a | a in g ensures a in depth {
        var p :| p in entries && p.short == a;
        assert p in out;
      }
      assert depth.Keys == g.Keys;
    }
    DepthIsRank(g, depth);
    RankedIsAcyclic(g, depth);
  }

  // -------------------------------------------------------------- independence of order

  /** Two layered orders of the same packages are the same sequence. */
  lemma {:induction false} LayeredIsUnique(o: Order, depth: map<string, nat>, a: seq<Node>, b: seq<Node>)
    requires TotalOrder(o.cmp) && Layered(o, depth, a) && Layered(o, depth, b)
    requires forall p :: p in a <==> p in b
    ensures a == b
  {
    if a == [] {
      if b != [] { HasMember(b); }
    } else {
      assert a[0] in b;
      var i :| 0 <= i < |b| && b[i] == a[0];
      assert b[0] in a;
      var j :| 0 <= j < |a| && a[j] == b[0];
      LessIsStrictOrder(o, a[0], b[0], a[0]);
      assert i == 0;
      TailMembers(o, depth, a, b);
      LayeredIsUnique(o, depth, a[1..], b[1..]);
      assert a == [a[0]] + a[1..] && b == [b[0]] + b[1..];
    }
  }

  lemma HasMember(s: seq<Node>)
    requires s != []
    ensures exists p :: p in s
  {
    assert s[0] in s;
  }

  lemma TailMembers(o: Order, depth: map<string, nat>, a: seq<Node>, b: seq<Node>)
    requires TotalOrder(o.cmp) && Layered(o, depth, a) && Layered(o, depth, b) && a != [] && b != [] && a[0] == b[0]
    requires forall p :: p in a <==> p in b
    ensures forall p :: p in a[1..] <==> p in b[1..]
  {
    LessIsStrictOrder(o, a[0], a[0], a[0]);
    forall p | p in a[1..] ensures p in b[1..] {
      var k :| 0 <= k < |a[1..]| && a[1..][k] == p;
      assert Before(o, depth, a[0], a[k + 1]);
      assert p in a && p != b[0];
    }
    forall p | p in b[1..] ensures p in a[1..] {
      var k :| 0 <= k < |b[1..]| && b[1..][k] == p;
      assert Before(o, depth, b[0], b[k + 1]);
      assert p in b && p != a[0];
    }
  }

  lemma {:induction false} DepsByIdOrderFree(a: seq<Node>, b: seq<Node>)
    requires UniqueShorts(a) && UniqueShorts(b) && forall p :: p in a <==> p in b
    ensures DepsById(a) == DepsById(b)
  {
    var g, h := DepsById(a), DepsById(b);
    assert Shorts(a) == Shorts(b);
    forall id | id in g ensures h[id] == g[id] {
      var p :| p in a && p.short == id;
      DepsOfEntry(a, p);
      DepsOfEntry(b, p);
    }
    assert g == h;
  }

  /** The order in which the manifests were read does not show in the result. */
  lemma InputOrderIsIrrelevant(o: Order, a: seq<Node>, b: seq<Node>, outA: seq<Node>, outB: seq<Node>)
    requires TotalOrder(o.cmp) && UniqueShorts(a) && UniqueShorts(b) && forall p :: p in a <==> p in b
    requires IsSorted(o, Entries(a), outA) && IsSorted(o, Entries(b), outB)
    ensures outA == outB
  {
    hide TotalOrder, IsSorted;
    EntriesOf(a);
    EntriesOf(b);
    EntriesOfUnique(a);
    EntriesOfUnique(b);
    DepsByIdOrderFree(Entries(a), Entries(b));
    SortedAgree(o, DepsById(Entries(a)), Entries(a), Entries(b), outA, outB);
  }

  lemma SortedAgree(o: Order, g: Graph<string>, a: seq<Node>, b: seq<Node>, outA: seq<Node>, outB: seq<Node>)
    requires TotalOrder(o.cmp) && g == DepsById(a) == DepsById(b)
    requires forall p :: p in a <==> p in b
    requires IsSorted(o, a, outA) && IsSorted(o, b, outB)
    ensures outA == outB
  {
    hide TotalOrder, DepthAt, Before, Layered, UniqueShorts;
    var d :| IsDepth(g, d) && Layered(o, d, outA);
    var e :| IsDepth(g, e) && Layered(o, e, outB);
    forall id | id in g ensures d[id] == e[id] { DepthIsUnique(g, d, e, id); }
    assert d == e;
    LayeredIsUnique(o, d, outA, outB);
  }

  /** Shallower layers first; within a layer, the order of the groups. */
  ghost predicate InLayerOrder(o: Order, entries: seq<Node>, out: seq<Node>) {
    forall depth, i, j :: IsDepth(DepsById(entries), depth) && 0 <= i < j < |out| ==>
      && out[i].short in depth && out[j].short in depth && depth[out[i].short] <= depth[out[j].short]
      && (depth[out[i].short] == depth[out[j].short] ==> ComesFirst(o, out[i], out[j]))
  }

  lemma SortedByGroups(o: Order, entries: seq<Node>, out: seq<Node>)
    requires TotalOrder(o.cmp) && |o.groups| <= MAX_SAFE_INTEGER && IsSorted(o, entries, out)
    ensures InLayerOrder(o, entries, out)
  {
    hide TotalOrder, DepthAt, Less, ComesFirst, DepsById, UniqueShorts;
    var g := DepsById(entries);
    var d :| IsDepth(g, d) && Layered(o, d, out);
    forall depth, i, j | IsDepth(g, depth) && 0 <= i < j < |out|
      ensures out[i].short in depth && out[j].short in depth && depth[out[i].short] <= depth[out[j].short]
      ensures depth[out[i].short] == depth[out[j].short] ==> ComesFirst(o, out[i], out[j])
    {
      DepthIsUnique(g, d, depth, out[i].short);
      DepthIsUnique(g, d, depth, out[j].short);
      LessIsComesFirst(o, out[i], out[j]);
      assert Before(o, d, out[i], out[j]);
    }
  }

  /** Every dependency stands before its dependents. */
  lemma DependenciesFirst(o: Order, entries: seq<Node>, out: seq<Node>, i: nat, j: nat)
    requires UniqueShorts(entries) && IsSorted(o, entries, out)
    requires i < |out| && j < |out| && out[j].short in out[i].deps
    ensures j < i
  {
    hide UniqueShorts, DepthAt, Less, DepsById;
    var depth :| IsDepth(DepsById(entries), depth) && Layered(o, depth, out);
    assert out[i] in out && out[j] in out;
    DepsOfEntry(entries, out[i]);
    DepIsShallower(DepsById(entries), depth, out[i].short, out[j].short);
  }

  lemma DepIsShallower(g: Graph<string>, depth: map<string, nat>, a: string, b: string)
    requires IsDepth(g, depth) && Edge(g, a, b)
    ensures b in depth && depth[b] < depth[a]
  {
    assert DepthAt(g, depth, a);
  }
}
