/** Finite graphs whose edges gain or lose: a potential exists exactly when no cycle gains. */
module Potentials {

  datatype Hop<N> = Hop(from: N, to: N, gain: int)

  ghost predicate Linked<N>(hops: set<Hop<N>>, c: seq<Hop<N>>, i: nat)
    requires i < |c|
  {
    c[i] in hops && (i + 1 < |c| ==> c[i].to == c[i + 1].from)
  }

  ghost predicate IsChain<N>(hops: set<Hop<N>>, c: seq<Hop<N>>) {
    c != [] && forall i: nat :: i < |c| ==> Linked(hops, c, i)
  }

  function Gain<N>(c: seq<Hop<N>>): int {
    if c == [] then 0 else c[0].gain + Gain(c[1..])
  }

  ghost predicate Connects<N>(hops: set<Hop<N>>, c: seq<Hop<N>>, a: N, b: N) {
    IsChain(hops, c) && c[0].from == a && c[|c| - 1].to == b
  }

  /** No way round gains anything. */
  ghost predicate NoCycleGains<N(!new)>(hops: set<Hop<N>>) {
    forall c, a :: Connects(hops, c, a, a) ==> Gain(c) <= 0
  }

  ghost predicate Within<N>(hops: set<Hop<N>>, nodes: set<N>) {
    forall h <- hops :: h.from in nodes && h.to in nodes
  }

  /** Every hop pays for what it gains. */
  ghost predicate IsPotential<N>(hops: set<Hop<N>>, pot: map<N, int>) {
    forall h <- hops :: h.from in pot && h.to in pot && pot[h.to] + h.gain <= pot[h.from]
  }

  lemma ChainTail<N>(hops: set<Hop<N>>, c: seq<Hop<N>>)
    requires IsChain(hops, c) && |c| > 1
    ensures IsChain(hops, c[1..]) && c[0] in hops && c[0].to == c[1].from
  {
    assert Linked(hops, c, 0);
    forall i: nat | i < |c[1..]| ensures Linked(hops, c[1..], i) { assert Linked(hops, c, i + 1); }
  }

  lemma {:induction false} PotentialFalls<N>(hops: set<Hop<N>>, pot: map<N, int>, c: seq<Hop<N>>)
    requires IsPotential(hops, pot) && IsChain(hops, c)
    ensures c[0].from in pot && c[|c| - 1].to in pot && pot[c[|c| - 1].to] + Gain(c) <= pot[c[0].from]
  {
    assert Linked(hops, c, 0);
    if |c| > 1 {
      ChainTail(hops, c);
      PotentialFalls(hops, pot, c[1..]);
    }
  }

  lemma Single<N>(hops: set<Hop<N>>, h: Hop<N>)
    requires h in hops
    ensures Connects(hops, [h], h.from, h.to) && Gain([h]) == h.gain
  {
    assert [h][1..] == [];
  }

  lemma {:induction false} GainAppend<N>(a: seq<Hop<N>>, b: seq<Hop<N>>)
    ensures Gain(a + b) == Gain(a) + Gain(b)
  {
    if a == [] {
      assert a + b == b;
    } else {
      assert (a + b)[1..] == a[1..] + b;
      GainAppend(a[1..], b);
    }
  }

  lemma Concatenated<N>(hops: set<Hop<N>>, c: seq<Hop<N>>, d: seq<Hop<N>>, x: N, y: N, z: N)
    requires Connects(hops, c, x, y) && Connects(hops, d, y, z)
    ensures Connects(hops, c + d, x, z) && Gain(c + d) == Gain(c) + Gain(d)
  {
    GainAppend(c, d);
    forall i: nat | i < |c + d| ensures Linked(hops, c + d, i) {
      if i < |c| { assert Linked(hops, c, i); } else { assert Linked(hops, d, i - |c|); }
    }
  }

  // ---------------------------------------------------------- taking one node out

  predicate Into<N(==)>(h: Hop<N>, v: N) {
    h.from != v && h.to == v
  }

  predicate OutOf<N(==)>(h: Hop<N>, v: N) {
    h.from == v && h.to != v
  }

  function Joined<N>(i: Hop<N>, o: Hop<N>): Hop<N> {
    Hop(i.from, o.to, i.gain + o.gain)
  }

  /** The hops past `v`, with every way through it made one hop. */
  ghost function Bypass<N>(hops: set<Hop<N>>, v: N): set<Hop<N>> {
    (set h <- hops | h.from != v && h.to != v)
    + (set i, o | i in hops && o in hops && Into(i, v) && OutOf(o, v) :: Joined(i, o))
  }

  lemma BypassHop<N>(hops: set<Hop<N>>, v: N, h: Hop<N>) returns (c: seq<Hop<N>>)
    requires h in Bypass(hops, v)
    ensures Connects(hops, c, h.from, h.to) && Gain(c) == h.gain
  {
    if h in hops && h.from != v && h.to != v {
      Single(hops, h);
      c := [h];
    } else {
      var i, o :| i in hops && o in hops && Into(i, v) && OutOf(o, v) && h == Joined(i, o);
      Single(hops, i);
      Single(hops, o);
      Concatenated(hops, [i], [o], i.from, v, o.to);
      c := [i] + [o];
    }
  }

  lemma {:induction false} BypassChain<N>(hops: set<Hop<N>>, v: N, c: seq<Hop<N>>) returns (d: seq<Hop<N>>)
    requires IsChain(Bypass(hops, v), c)
    ensures Connects(hops, d, c[0].from, c[|c| - 1].to) && Gain(d) == Gain(c)
  {
    hide Bypass;
    assert Linked(Bypass(hops, v), c, 0);
    d := BypassHop(hops, v, c[0]);
    if |c| > 1 {
      ChainTail(Bypass(hops, v), c);
      var e := BypassChain(hops, v, c[1..]);
      Concatenated(hops, d, e, c[0].from, c[0].to, c[|c| - 1].to);
      d := d + e;
    }
  }

  lemma BypassGainsNothing<N(!new)>(hops: set<Hop<N>>, v: N)
    requires NoCycleGains(hops)
    ensures NoCycleGains(Bypass(hops, v))
  {
    hide Bypass;
    forall c, a | Connects(Bypass(hops, v), c, a, a) ensures Gain(c) <= 0 {
      var d := BypassChain(hops, v, c);
      assert Connects(hops, d, a, a);
    }
  }

  lemma AnyOf<T>(s: set<T>) returns (x: T)
    requires s != {}
    ensures x in s
  {
    x :| x in s;
  }

  lemma {:induction false} Greatest(s: set<int>) returns (m: int)
    requires s != {}
    ensures m in s && forall x <- s :: x <= m
  {
    m := AnyOf(s);
    var rest := s - {m};
    if rest != {} {
      var n := Greatest(rest);
      assert s == rest + {m};
      if n > m { m := n; }
    }
  }

  /** What `v` must at least be worth for its way out `h`, or can at most be for its way in. */
  function Needs<N(==)>(pot: map<N, int>, h: Hop<N>): int {
    if h.to in pot then pot[h.to] + h.gain else 0
  }

  function Pays<N(==)>(pot: map<N, int>, h: Hop<N>): int {
    if h.from in pot then pot[h.from] - h.gain else 0
  }

  lemma NeedsAtMostPays<N>(hops: set<Hop<N>>, v: N, pot: map<N, int>, i: Hop<N>, o: Hop<N>)
    requires IsPotential(Bypass(hops, v), pot) && i in hops && o in hops && Into(i, v) && OutOf(o, v)
    ensures Needs(pot, o) <= Pays(pot, i)
  {
    assert Joined(i, o) in Bypass(hops, v);
  }

  /** A value for `v` between what its ways out need and what its ways in can pay. */
  lemma Middle<N>(hops: set<Hop<N>>, v: N, pot: map<N, int>) returns (x: int)
    requires IsPotential(Bypass(hops, v), pot)
    ensures forall h <- hops :: (OutOf(h, v) ==> Needs(pot, h) <= x) && (Into(h, v) ==> x <= Pays(pot, h))
  {
    hide Bypass, IsPotential, Needs, Pays, Into, OutOf;
    var outs := set h <- hops | OutOf(h, v) :: Needs(pot, h);
    var ins := set h <- hops | Into(h, v) :: -Pays(pot, h);
    x := 0;
    if outs != {} {
      x := Greatest(outs);
      var o :| o in hops && OutOf(o, v) && Needs(pot, o) == x;
      forall i <- hops | Into(i, v) ensures x <= Pays(pot, i) { NeedsAtMostPays(hops, v, pot, i, o); }
    } else if ins != {} {
      var m := Greatest(ins);
      x := -m;
    }
    forall h <- hops | OutOf(h, v) ensures Needs(pot, h) <= x { assert Needs(pot, h) in outs; }
    forall h <- hops | Into(h, v) ensures x <= Pays(pot, h) { assert -Pays(pot, h) in ins; }
  }

  lemma {:induction false} BuildPotential<N(!new)>(hops: set<Hop<N>>, nodes: set<N>) returns (pot: map<N, int>)
    requires NoCycleGains(hops) && Within(hops, nodes)
    ensures pot.Keys == nodes && IsPotential(hops, pot)
    decreases nodes
  {
    if nodes == {} {
      pot := map[];
    } else {
      var v :| v in nodes;
      BypassGainsNothing(hops, v);
      var rest := BuildPotential(Bypass(hops, v), nodes - {v});
      var x := Middle(hops, v, rest);
      pot := rest[v := x];
      forall h <- hops ensures h.from in pot && h.to in pot && pot[h.to] + h.gain <= pot[h.from] {
        if h.from != v && h.to != v { assert h in Bypass(hops, v); }
        assert OutOf(h, v) ==> Needs(rest, h) <= x;
        assert Into(h, v) ==> x <= Pays(rest, h);
        if h.from == v && h.to == v {
          Single(hops, h);
          assert Connects(hops, [h], v, v);
        }
      }
    }
  }

  /** A potential can be raised to start at zero. */
  lemma Raised<N>(hops: set<Hop<N>>, pot: map<N, int>) returns (high: map<N, nat>)
    requires IsPotential(hops, pot)
    ensures high.Keys == pot.Keys && IsPotential(hops, high)
  {
    if pot == map[] {
      high := map[];
    } else {
      var depth := set n <- pot :: -pot[n];
      var first :| first in pot;
      assert -pot[first] in depth;
      var m := Greatest(depth);
      forall n <- pot ensures pot[n] + m >= 0 { assert -pot[n] in depth; }
      high := map n <- pot :: pot[n] + m;
    }
  }

  /** A finite graph has a potential exactly when no cycle gains. */
  lemma PotentialIff<N(!new)>(hops: set<Hop<N>>, nodes: set<N>)
    requires Within(hops, nodes)
    ensures NoCycleGains(hops) <==> exists pot: map<N, nat> :: pot.Keys == nodes && IsPotential(hops, pot)
  {
    if NoCycleGains(hops) {
      var pot := BuildPotential(hops, nodes);
      var high := Raised(hops, pot);
    }
    forall pot: map<N, nat> | IsPotential(hops, pot) ensures NoCycleGains(hops) {
      forall c, a | Connects(hops, c, a, a) ensures Gain(c) <= 0 { PotentialFalls(hops, pot, c); }
    }
  }
}
