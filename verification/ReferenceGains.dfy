/** A condition on the declarations alone under which every `lookupPath` walk returns: no reference cycle gains steps. */
module ReferenceGains {
  import opened Options
  import opened TypeLookup
  import opened TypeTermination
  import opened Potentials

  /** Each declaration a walk may come to from `t`, with the steps gained on the way on top of `gain`. */
  ghost function TypeTargets(w: World, file: string, t: Type, gain: int): set<(DeclId, int)>
    decreases t
  {
    match t
    case Literal(members) => MemberTargets(w, file, members, gain)
    case Paren(inner) => TypeTargets(w, file, inner, gain)
    case Operator(inner) => TypeTargets(w, file, inner, gain)
    case Intersection(parts) => PartTargets(w, file, parts, gain)
    case Union(parts) => PartTargets(w, file, parts, gain)
    case ArrayOf(elem) => TypeTargets(w, file, elem, gain - 1)
    case Indexed(owner, key) => if key.Some? then TypeTargets(w, file, owner, gain + 1) else {}
    case Ref(head, qualified, args) =>
      if head in PASSTHROUGH_WRAPPERS && args != [] then TypeTargets(w, file, args[0], gain)
      else if head in ARRAY_WRAPPERS && args != [] then TypeTargets(w, file, args[0], gain - 1)
      else if qualified then {}
      else NameTarget(w, file, head, gain)
    case Opaque => {}
  }

  ghost function NameTarget(w: World, file: string, name: string, gain: int): set<(DeclId, int)> {
    var target := Resolve(w, file, name);
    if target.Some? then {(target.value, gain)} else {}
  }

  ghost function MemberTargets(w: World, file: string, members: seq<Element>, gain: int): set<(DeclId, int)>
    decreases members
  {
    if members == [] then {}
    else
      (if members[0].Property? && members[0].declared.Some? then TypeTargets(w, file, members[0].declared.value, gain - 1) else {})
      + MemberTargets(w, file, members[1..], gain)
  }

  ghost function PartTargets(w: World, file: string, parts: seq<Type>, gain: int): set<(DeclId, int)>
    decreases parts
  {
    if parts == [] then {} else TypeTargets(w, file, parts[0], gain) + PartTargets(w, file, parts[1..], gain)
  }

  ghost function BaseTargets(w: World, file: string, bases: seq<Base>): set<(DeclId, int)> {
    if bases == [] then {}
    else (if bases[0].NamedBase? then NameTarget(w, file, bases[0].name, 0) else {}) + BaseTargets(w, file, bases[1..])
  }

  ghost function DeclTargets(w: World, decl: Decl): set<(DeclId, int)> {
    match decl.body
    case Interface(members, bases) => MemberTargets(w, decl.file, members, 0) + BaseTargets(w, decl.file, bases)
    case Alias(aliased) => TypeTargets(w, decl.file, aliased, 0)
    case Enum => {}
  }

  /** The reference graph: from a declaration to those its body refers to, with the steps each reference gains. */
  ghost function References(w: World): set<Hop<DeclId>> {
    set id, x | id in w.decls && x in DeclTargets(w, w.decls[id]) :: Hop(id, x.0, x.1)
  }

  /** The targets all lie within the budget. */
  ghost predicate Affordable(targets: set<(DeclId, int)>, pot: map<DeclId, nat>, budget: int) {
    forall x <- targets :: x.0 in pot && pot[x.0] + x.1 <= budget
  }

  lemma AffordableUnion(a: set<(DeclId, int)>, b: set<(DeclId, int)>, pot: map<DeclId, nat>, budget: int)
    ensures Affordable(a + b, pot, budget) <==> Affordable(a, pot, budget) && Affordable(b, pot, budget)
  {
    assert forall x <- a :: x in a + b;
    assert forall x <- b :: x in a + b;
  }

  lemma {:induction false} TypeAffordable(w: World, file: string, t: Type, pot: map<DeclId, nat>, gain: int, budget: int)
    ensures TypeBalanced(w, file, t, pot, budget - gain) <==> Affordable(TypeTargets(w, file, t, gain), pot, budget)
    decreases t
  {
    match t
    case Literal(members) => MembersAffordable(w, file, members, pot, gain, budget);
    case Paren(inner) => TypeAffordable(w, file, inner, pot, gain, budget);
    case Operator(inner) => TypeAffordable(w, file, inner, pot, gain, budget);
    case Intersection(parts) => PartsAffordable(w, file, parts, pot, gain, budget);
    case Union(parts) => PartsAffordable(w, file, parts, pot, gain, budget);
    case ArrayOf(elem) => TypeAffordable(w, file, elem, pot, gain - 1, budget);
    case Indexed(owner, key) => TypeAffordable(w, file, owner, pot, gain + 1, budget);
    case Ref(head, qualified, args) =>
      if args != [] {
        TypeAffordable(w, file, args[0], pot, gain, budget);
        TypeAffordable(w, file, args[0], pot, gain - 1, budget);
      }
    case Opaque =>
  }

  lemma {:induction false} MembersAffordable(w: World, file: string, members: seq<Element>, pot: map<DeclId, nat>, gain: int, budget: int)
    ensures (forall m <- members :: m.Property? && m.declared.Some? ==> TypeBalanced(w, file, m.declared.value, pot, budget - gain + 1))
       <==> Affordable(MemberTargets(w, file, members, gain), pot, budget)
    decreases members
  {
    hide Affordable, TypeBalanced, TypeTargets;
    if members == [] {
      AffordableNothing(pot, budget);
    } else {
      var m := members[0];
      var here := if m.Property? && m.declared.Some? then TypeTargets(w, file, m.declared.value, gain - 1) else {};
      if m.Property? && m.declared.Some? { TypeAffordable(w, file, m.declared.value, pot, gain - 1, budget); }
      AffordableNothing(pot, budget);
      MembersAffordable(w, file, members[1..], pot, gain, budget);
      AffordableUnion(here, MemberTargets(w, file, members[1..], gain), pot, budget);
      assert forall x :: x in members <==> x == m || x in members[1..];
    }
  }

  lemma AffordableNothing(pot: map<DeclId, nat>, budget: int)
    ensures Affordable({}, pot, budget)
  {
  }

  lemma {:induction false} PartsAffordable(w: World, file: string, parts: seq<Type>, pot: map<DeclId, nat>, gain: int, budget: int)
    ensures (forall p <- parts :: TypeBalanced(w, file, p, pot, budget - gain)) <==> Affordable(PartTargets(w, file, parts, gain), pot, budget)
    decreases parts
  {
    hide Affordable, TypeBalanced, TypeTargets;
    AffordableNothing(pot, budget);
    if parts != [] {
      TypeAffordable(w, file, parts[0], pot, gain, budget);
      PartsAffordable(w, file, parts[1..], pot, gain, budget);
      AffordableUnion(TypeTargets(w, file, parts[0], gain), PartTargets(w, file, parts[1..], gain), pot, budget);
      var first, gap := parts[0], budget - gain;
      assert forall p <- parts :: p == first || p in parts[1..];
      if TypeBalanced(w, file, first, pot, gap) && forall p <- parts[1..] :: TypeBalanced(w, file, p, pot, gap) {
        forall p <- parts ensures TypeBalanced(w, file, p, pot, gap) {}
      } else {
        assert first in parts && forall p <- parts[1..] :: p in parts;
      }
    }
  }

  lemma {:induction false} BasesAffordable(w: World, file: string, bases: seq<Base>, pot: map<DeclId, nat>, budget: int)
    ensures (forall b <- bases :: b.NamedBase? ==> NameBalanced(w, file, b.name, pot, budget))
       <==> Affordable(BaseTargets(w, file, bases), pot, budget)
  {
    AffordableNothing(pot, budget);
    if bases != [] {
      var b := bases[0];
      var here := if b.NamedBase? then NameTarget(w, file, b.name, 0) else {};
      BasesAffordable(w, file, bases[1..], pot, budget);
      AffordableUnion(here, BaseTargets(w, file, bases[1..]), pot, budget);
      assert b.NamedBase? ==> (NameBalanced(w, file, b.name, pot, budget) <==> Affordable(here, pot, budget));
      assert forall x :: x in bases <==> x == b || x in bases[1..];
    }
  }

  lemma DeclAffordable(w: World, decl: Decl, pot: map<DeclId, nat>, budget: int)
    ensures DeclBalanced(w, decl, pot, budget) <==> Affordable(DeclTargets(w, decl), pot, budget)
  {
    hide Affordable, TypeBalanced, TypeTargets, MemberTargets, BaseTargets, NameBalanced;
    AffordableNothing(pot, budget);
    match decl.body
    case Interface(members, bases) =>
      MembersAffordable(w, decl.file, members, pot, 0, budget);
      BasesAffordable(w, decl.file, bases, pot, budget);
      AffordableUnion(MemberTargets(w, decl.file, members, 0), BaseTargets(w, decl.file, bases), pot, budget);
    case Alias(aliased) => TypeAffordable(w, decl.file, aliased, pot, 0, budget);
    case Enum =>
  }

  lemma BalancedIsPotential(w: World, pot: map<DeclId, nat>)
    requires pot.Keys == w.decls.Keys
    ensures Balanced(w, pot) <==> IsPotential(References(w), pot)
  {
    hide DeclBalanced, DeclTargets;
    forall id | id in w.decls ensures DeclBalanced(w, w.decls[id], pot, pot[id]) <==> Affordable(DeclTargets(w, w.decls[id]), pot, pot[id]) {
      DeclAffordable(w, w.decls[id], pot, pot[id]);
    }
    if IsPotential(References(w), pot) {
      forall id, x | id in w.decls && x in DeclTargets(w, w.decls[id]) ensures x.0 in pot && pot[x.0] + x.1 <= pot[id] {
        assert Hop(id, x.0, x.1) in References(w);
      }
    }
  }

  /** References lead to declarations. */
  ghost predicate Known(w: World, targets: set<(DeclId, int)>) {
    forall x <- targets :: x.0 in w.decls
  }

  lemma {:induction false} TypeTargetsKnown(w: World, file: string, t: Type, gain: int)
    ensures Known(w, TypeTargets(w, file, t, gain))
    decreases t
  {
    match t
    case Literal(members) => MemberTargetsKnown(w, file, members, gain);
    case Paren(inner) => TypeTargetsKnown(w, file, inner, gain);
    case Operator(inner) => TypeTargetsKnown(w, file, inner, gain);
    case Intersection(parts) => PartTargetsKnown(w, file, parts, gain);
    case Union(parts) => PartTargetsKnown(w, file, parts, gain);
    case ArrayOf(elem) => TypeTargetsKnown(w, file, elem, gain - 1);
    case Indexed(owner, key) => TypeTargetsKnown(w, file, owner, gain + 1);
    case Ref(head, qualified, args) =>
      if args != [] {
        TypeTargetsKnown(w, file, args[0], gain);
        TypeTargetsKnown(w, file, args[0], gain - 1);
      }
    case Opaque =>
  }

  lemma {:induction false} MemberTargetsKnown(w: World, file: string, members: seq<Element>, gain: int)
    ensures Known(w, MemberTargets(w, file, members, gain))
    decreases members
  {
    if members != [] {
      var m := members[0];
      if m.Property? && m.declared.Some? { TypeTargetsKnown(w, file, m.declared.value, gain - 1); }
      MemberTargetsKnown(w, file, members[1..], gain);
    }
  }

  lemma {:induction false} PartTargetsKnown(w: World, file: string, parts: seq<Type>, gain: int)
    ensures Known(w, PartTargets(w, file, parts, gain))
    decreases parts
  {
    if parts != [] {
      TypeTargetsKnown(w, file, parts[0], gain);
      PartTargetsKnown(w, file, parts[1..], gain);
    }
  }

  lemma {:induction false} BaseTargetsKnown(w: World, file: string, bases: seq<Base>)
    ensures Known(w, BaseTargets(w, file, bases))
  {
    if bases != [] { BaseTargetsKnown(w, file, bases[1..]); }
  }

  lemma ReferencesAreWithin(w: World)
    ensures Within(References(w), w.decls.Keys)
  {
    hide TypeTargets, MemberTargets, BaseTargets;
    forall h <- References(w) ensures h.from in w.decls && h.to in w.decls {
      var x :| x in DeclTargets(w, w.decls[h.from]) && h == Hop(h.from, x.0, x.1);
      var decl := w.decls[h.from];
      match decl.body
      case Interface(members, bases) =>
        MemberTargetsKnown(w, decl.file, members, 0);
        BaseTargetsKnown(w, decl.file, bases);
      case Alias(aliased) => TypeTargetsKnown(w, decl.file, aliased, 0);
      case Enum =>
    }
  }

  /** Declarations can be balanced exactly when no reference cycle gains steps. */
  lemma BalancedIffNoCycleGains(w: World)
    ensures NoCycleGains(References(w)) <==> exists pot :: Balanced(w, pot)
  {
    hide References, Balanced, NoCycleGains;
    ReferencesAreWithin(w);
    PotentialIff(References(w), w.decls.Keys);
    forall pot: map<DeclId, nat> | pot.Keys == w.decls.Keys ensures Balanced(w, pot) <==> IsPotential(References(w), pot) {
      BalancedIsPotential(w, pot);
    }
    forall pot | Balanced(w, pot) ensures pot.Keys == w.decls.Keys { BalancedKeys(w, pot); }
  }

  lemma BalancedKeys(w: World, pot: map<DeclId, nat>)
    requires Balanced(w, pot)
    ensures pot.Keys == w.decls.Keys
  {
  }

  /** If no reference cycle gains steps, every walk returns, from any declaration, path and history. */
  lemma WalkReturns(w: World, id: DeclId, steps: seq<Step>, seen: set<Key>)
    requires NoCycleGains(References(w)) && id in w.decls
    ensures exists fuel :: LookupDecl(w, id, steps, seen, fuel).Some?
  {
    hide NoCycleGains, Balanced;
    BalancedIffNoCycleGains(w);
    var pot :| Balanced(w, pot);
    BalancedWalkReturns(w, pot, id, steps, seen);
  }

  /** `interface A { x: A['x']['y'] }` gains a step each round, and has a walk that never returns. */
  lemma SelfIndexedGains()
    ensures !NoCycleGains(References(SELF_INDEXED))
  {
    if NoCycleGains(References(SELF_INDEXED)) {
      var rest := [Member("z")];
      WalkReturns(SELF_INDEXED, 0, [Member("x")] + rest, {});
      var fuel :| LookupDecl(SELF_INDEXED, 0, [Member("x")] + rest, {}, fuel).Some?;
      SelfIndexedNeverReturns(rest, {}, fuel);
      assert false;
    }
  }

  /** `interface A { x: A['z']['y'] }` */
  const NEVER_FOLLOWED: World :=
    World(map[0 := Decl("a.ts", Interface([Property("x", Some(
      Indexed(Indexed(Ref("A", false, []), Some("z")), Some("y"))))], []))], map[("a.ts", "A") := 0])

  /** The condition is not necessary: this declaration gains a step each round too, but it has no `z`, so no walk
      goes round. */
  lemma GainIsNotNecessary(steps: seq<Step>, seen: set<Key>)
    ensures !NoCycleGains(References(NEVER_FOLLOWED))
    ensures LookupDecl(NEVER_FOLLOWED, 0, steps, seen, 5).Some?
  {
    var w := NEVER_FOLLOWED;
    GainsOne();
    var own := w.decls[0].body.members[0];
    var outer := own.declared.value;
    if steps != [] && steps[0] == Member("x") && |steps| > 1 && (0, |steps|) !in seen {
      var marked, rest := seen + {(0, |steps|)}, steps[1..];
      var two := [Member("z")] + ([Member("y")] + rest);
      assert FindProperty(w.decls[0].body.members, "z").None? by { assert w.decls[0].body.members[1..] == []; }
      assert LookupDecl(w, 0, two, marked, 1).Some?;
      assert LookupType(w, "a.ts", outer.owner.owner, two, marked, 2).Some?;
      assert LookupType(w, "a.ts", outer.owner, [Member("y")] + rest, marked, 3).Some?;
      assert LookupType(w, "a.ts", outer, rest, marked, 4).Some?;
      assert LookupProperty(w, "a.ts", own, steps, marked, 4).Some?;
    }
    assert w.decls[0].body.members[1..] == [];
  }

  lemma GainsOne()
    ensures !NoCycleGains(References(NEVER_FOLLOWED))
  {
    var w, h := NEVER_FOLLOWED, Hop(0, 0, 1);
    var decl := w.decls[0];
    var members := decl.body.members;
    var outer := members[0].declared.value;
    assert TypeTargets(w, "a.ts", outer.owner.owner, 1) == {(0, 1)};
    assert TypeTargets(w, "a.ts", outer.owner, 0) == {(0, 1)};
    assert TypeTargets(w, "a.ts", outer, -1) == {(0, 1)};
    assert members[1..] == [] && MemberTargets(w, "a.ts", members[1..], 0) == {};
    assert (0, 1) in MemberTargets(w, "a.ts", members, 0);
    assert (0, 1) in DeclTargets(w, decl) && h in References(w);
    Single(References(w), h);
    assert Connects(References(w), [h], 0, 0);
  }
}
