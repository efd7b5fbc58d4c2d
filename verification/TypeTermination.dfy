/** When `lookupPath` returns. Its guard is keyed by declaration and number of steps left, and
    indexed access adds a step, so the key alone bounds nothing. */
module TypeTermination {
  import opened Options
  import opened TypeLookup

  // ------------------------------------------- more fuel gives the same answer

  lemma {:induction false} TypeFuel(w: World, file: string, t: Type, steps: seq<Step>, seen: set<Key>, fuel: nat, more: nat)
    requires LookupType(w, file, t, steps, seen, fuel).Some? && fuel <= more
    ensures LookupType(w, file, t, steps, seen, more) == LookupType(w, file, t, steps, seen, fuel)
    decreases fuel, 0
  {
    if steps != [] {
      match t
      case Literal(members) =>
        if steps[0].Member? && FindProperty(members, steps[0].name).Some? {
          PropertyFuel(w, file, FindProperty(members, steps[0].name).value, steps, seen, fuel - 1, more - 1);
        }
      case Paren(inner) => TypeFuel(w, file, inner, steps, seen, fuel - 1, more - 1);
      case Operator(inner) => TypeFuel(w, file, inner, steps, seen, fuel - 1, more - 1);
      case Intersection(parts) => PartsFuel(w, file, parts, steps, seen, fuel - 1, more - 1);
      case Union(parts) => PartsFuel(w, file, parts, steps, seen, fuel - 1, more - 1);
      case ArrayOf(elem) =>
        if steps[0].Elem? { TypeFuel(w, file, elem, steps[1..], seen, fuel - 1, more - 1); }
      case Indexed(owner, key) =>
        if key.Some? { TypeFuel(w, file, owner, [Member(key.value)] + steps, seen, fuel - 1, more - 1); }
      case Ref(head, qualified, args) =>
        if head in PASSTHROUGH_WRAPPERS && args != [] {
          TypeFuel(w, file, args[0], steps, seen, fuel - 1, more - 1);
        } else if head in ARRAY_WRAPPERS && args != [] {
          if steps[0].Elem? { TypeFuel(w, file, args[0], steps[1..], seen, fuel - 1, more - 1); }
        } else if !qualified && Resolve(w, file, head).Some? {
          DeclFuel(w, Resolve(w, file, head).value, steps, seen, fuel - 1, more - 1);
        }
      case Opaque =>
    }
  }

  lemma {:induction false} DeclFuel(w: World, id: DeclId, steps: seq<Step>, seen: set<Key>, fuel: nat, more: nat)
    requires id in w.decls && LookupDecl(w, id, steps, seen, fuel).Some? && fuel <= more
    ensures LookupDecl(w, id, steps, seen, more) == LookupDecl(w, id, steps, seen, fuel)
    decreases fuel, 0
  {
    if steps != [] && !w.decls[id].body.Enum? && (id, |steps|) !in seen {
      var marked, file := seen + {(id, |steps|)}, w.decls[id].file;
      match w.decls[id].body
      case Interface(members, bases) =>
        if steps[0].Member? {
          var own := FindProperty(members, steps[0].name);
          if own.Some? { PropertyFuel(w, file, own.value, steps, marked, fuel - 1, more - 1); }
          else { BasesFuel(w, file, bases, steps, marked, fuel - 1, more - 1); }
        }
      case Alias(aliased) => TypeFuel(w, file, aliased, steps, marked, fuel - 1, more - 1);
    }
  }

  lemma {:induction false} PropertyFuel(w: World, file: string, p: Element, steps: seq<Step>, seen: set<Key>, fuel: nat, more: nat)
    requires p.Property? && steps != [] && LookupProperty(w, file, p, steps, seen, fuel).Some? && fuel <= more
    ensures LookupProperty(w, file, p, steps, seen, more) == LookupProperty(w, file, p, steps, seen, fuel)
    decreases fuel, 1
  {
    if |steps| > 1 && p.declared.Some? { TypeFuel(w, file, p.declared.value, steps[1..], seen, fuel, more); }
  }

  lemma {:induction false} PartsFuel(w: World, file: string, parts: seq<Type>, steps: seq<Step>, seen: set<Key>, fuel: nat, more: nat)
    requires LookupParts(w, file, parts, steps, seen, fuel).Some? && fuel <= more
    ensures LookupParts(w, file, parts, steps, seen, more) == LookupParts(w, file, parts, steps, seen, fuel)
    decreases fuel, |parts| + 1
  {
    if parts != [] {
      TypeFuel(w, file, parts[0], steps, seen, fuel, more);
      PartsFuel(w, file, parts[1..], steps, LookupType(w, file, parts[0], steps, seen, fuel).value.seen, fuel, more);
    }
  }

  lemma {:induction false} BaseFuel(w: World, file: string, b: Base, steps: seq<Step>, seen: set<Key>, fuel: nat, more: nat)
    requires LookupBase(w, file, b, steps, seen, fuel).Some? && fuel <= more
    ensures LookupBase(w, file, b, steps, seen, more) == LookupBase(w, file, b, steps, seen, fuel)
    decreases fuel, 1
  {
    if b.NamedBase? && Resolve(w, file, b.name).Some? {
      DeclFuel(w, Resolve(w, file, b.name).value, steps, seen, fuel, more);
    }
  }

  lemma {:induction false} BasesFuel(w: World, file: string, bases: seq<Base>, steps: seq<Step>, seen: set<Key>, fuel: nat, more: nat)
    requires LookupBases(w, file, bases, steps, seen, fuel).Some? && fuel <= more
    ensures LookupBases(w, file, bases, steps, seen, more) == LookupBases(w, file, bases, steps, seen, fuel)
    decreases fuel, |bases| + 1
  {
    if bases != [] {
      BaseFuel(w, file, bases[0], steps, seen, fuel, more);
      BasesFuel(w, file, bases[1..], steps, LookupBase(w, file, bases[0], steps, seen, fuel).value.seen, fuel, more);
    }
  }

  // --------------------------------------------------- references that gain no steps

  /** `pot[e]` is how many steps a walk may still gain once it is at `e`. A walk with `n` steps left at `t` comes to
      no declaration with more than `n + gain - pot` steps: an indexed owner adds one step, a property's type and
      an array's element take one away. */
  ghost predicate TypeBalanced(w: World, file: string, t: Type, pot: map<DeclId, nat>, gain: int)
    decreases t
  {
    match t
    case Literal(members) => forall m <- members :: m.Property? && m.declared.Some? ==> TypeBalanced(w, file, m.declared.value, pot, gain + 1)
    case Paren(inner) => TypeBalanced(w, file, inner, pot, gain)
    case Operator(inner) => TypeBalanced(w, file, inner, pot, gain)
    case Intersection(parts) => forall p <- parts :: TypeBalanced(w, file, p, pot, gain)
    case Union(parts) => forall p <- parts :: TypeBalanced(w, file, p, pot, gain)
    case ArrayOf(elem) => TypeBalanced(w, file, elem, pot, gain + 1)
    case Indexed(owner, key) => key.Some? ==> TypeBalanced(w, file, owner, pot, gain - 1)
    case Ref(head, qualified, args) =>
      if head in PASSTHROUGH_WRAPPERS && args != [] then TypeBalanced(w, file, args[0], pot, gain)
      else if head in ARRAY_WRAPPERS && args != [] then TypeBalanced(w, file, args[0], pot, gain + 1)
      else !qualified ==> NameBalanced(w, file, head, pot, gain)
    case Opaque => true
  }

  ghost predicate NameBalanced(w: World, file: string, name: string, pot: map<DeclId, nat>, gain: int) {
    var target := Resolve(w, file, name);
    target.Some? ==> target.value in pot && pot[target.value] <= gain
  }

  ghost predicate DeclBalanced(w: World, decl: Decl, pot: map<DeclId, nat>, gain: int) {
    match decl.body
    case Interface(members, bases) =>
      && (forall m <- members :: m.Property? && m.declared.Some? ==> TypeBalanced(w, decl.file, m.declared.value, pot, gain + 1))
      && (forall b <- bases :: b.NamedBase? ==> NameBalanced(w, decl.file, b.name, pot, gain))
    case Alias(aliased) => TypeBalanced(w, decl.file, aliased, pot, gain)
    case Enum => true
  }

  ghost predicate Balanced(w: World, pot: map<DeclId, nat>) {
    pot.Keys == w.decls.Keys && forall id :: id in w.decls ==> DeclBalanced(w, w.decls[id], pot, pot[id])
  }

  /** Keys the guard could still take with at most `n` steps left. */
  ghost function Remaining(w: World, n: nat, seen: set<Key>): set<Key> {
    (set id, m | id in w.decls && 0 <= m <= n :: (id, m)) - seen
  }

  lemma RemainingShrinks(w: World, n: nat, seen: set<Key>, seen': set<Key>)
    requires seen <= seen'
    ensures |Remaining(w, n, seen')| <= |Remaining(w, n, seen)|
  {
    Subset(Remaining(w, n, seen'), Remaining(w, n, seen));
  }

  lemma {:induction false} Subset<T>(a: set<T>, b: set<T>)
    requires a <= b
    ensures |a| <= |b|
  {
    if a != {} {
      var x :| x in a;
      Subset(a - {x}, b - {x});
    }
  }

  lemma MarkingShrinks(w: World, n: nat, seen: set<Key>, key: Key)
    requires key.0 in w.decls && key.1 <= n && key !in seen
    ensures |Remaining(w, n, seen + {key})| < |Remaining(w, n, seen)|
  {
    var rest := Remaining(w, n, seen);
    assert key in rest;
    assert Remaining(w, n, seen + {key}) == rest - {key};
  }

  /** `n` bounds the steps left at any declaration still to come. */
  lemma {:induction false} TypeReturns(w: World, pot: map<DeclId, nat>, n: nat, gain: int, file: string, t: Type, steps: seq<Step>, seen: set<Key>)
    returns (fuel: nat)
    requires Balanced(w, pot) && TypeBalanced(w, file, t, pot, gain) && |steps| + gain <= n
    ensures LookupType(w, file, t, steps, seen, fuel).Some?
    decreases |Remaining(w, n, seen)|, 1, t, 0
  {
    hide Balanced, Remaining;
    fuel := 0;
    if steps != [] {
      match t
      case Literal(members) =>
        if steps[0].Member? {
          var own := FindProperty(members, steps[0].name);
          if own.Some? && own.value.declared.Some? {
            fuel := TypeReturns(w, pot, n, gain + 1, file, own.value.declared.value, steps[1..], seen);
          }
        }
      case Paren(inner) => fuel := TypeReturns(w, pot, n, gain, file, inner, steps, seen);
      case Operator(inner) => fuel := TypeReturns(w, pot, n, gain, file, inner, steps, seen);
      case Intersection(parts) => fuel := PartsReturn(w, pot, n, gain, file, parts, steps, seen);
      case Union(parts) => fuel := PartsReturn(w, pot, n, gain, file, parts, steps, seen);
      case ArrayOf(elem) =>
        if steps[0].Elem? { fuel := TypeReturns(w, pot, n, gain + 1, file, elem, steps[1..], seen); }
      case Indexed(owner, key) =>
        if key.Some? { fuel := TypeReturns(w, pot, n, gain - 1, file, owner, [Member(key.value)] + steps, seen); }
      case Ref(head, qualified, args) =>
        if head in PASSTHROUGH_WRAPPERS && args != [] {
          fuel := TypeReturns(w, pot, n, gain, file, args[0], steps, seen);
        } else if head in ARRAY_WRAPPERS && args != [] {
          if steps[0].Elem? { fuel := TypeReturns(w, pot, n, gain + 1, file, args[0], steps[1..], seen); }
        } else if !qualified && Resolve(w, file, head).Some? {
          fuel := DeclReturns(w, pot, n, Resolve(w, file, head).value, steps, seen);
        }
      case Opaque =>
    }
    fuel := fuel + 1;
  }

  lemma {:induction false} PartsReturn(w: World, pot: map<DeclId, nat>, n: nat, gain: int, file: string, parts: seq<Type>, steps: seq<Step>, seen: set<Key>)
    returns (fuel: nat)
    requires Balanced(w, pot) && (forall p <- parts :: TypeBalanced(w, file, p, pot, gain)) && |steps| + gain <= n
    ensures LookupParts(w, file, parts, steps, seen, fuel).Some?
    decreases |Remaining(w, n, seen)|, 1, parts, 1
  {
    hide Balanced, Remaining, TypeBalanced;
    if parts == [] {
      fuel := 0;
    } else {
      var f := TypeReturns(w, pot, n, gain, file, parts[0], steps, seen);
      var seen' := LookupType(w, file, parts[0], steps, seen, f).value.seen;
      RemainingShrinks(w, n, seen, seen');
      var g := PartsReturn(w, pot, n, gain, file, parts[1..], steps, seen');
      fuel := if f < g then g else f;
      TypeFuel(w, file, parts[0], steps, seen, f, fuel);
      PartsFuel(w, file, parts[1..], steps, seen', g, fuel);
    }
  }

  lemma {:induction false} DeclReturns(w: World, pot: map<DeclId, nat>, n: nat, id: DeclId, steps: seq<Step>, seen: set<Key>)
    returns (fuel: nat)
    requires Balanced(w, pot) && id in w.decls && id in pot && |steps| + pot[id] <= n
    ensures LookupDecl(w, id, steps, seen, fuel).Some?
    decreases |Remaining(w, n, seen)|, 0
  {
    fuel := 0;
    if steps != [] && !w.decls[id].body.Enum? && (id, |steps|) !in seen {
      var marked, decl := seen + {(id, |steps|)}, w.decls[id];
      assert DeclBalanced(w, decl, pot, pot[id]);
      MarkingShrinks(w, n, seen, (id, |steps|));
      hide Balanced, Remaining, DeclBalanced;
      fuel := BodyReturns(w, pot, n, pot[id], decl, steps, marked);
    }
    fuel := fuel + 1;
  }

  lemma {:induction false} BodyReturns(w: World, pot: map<DeclId, nat>, n: nat, gain: int, decl: Decl, steps: seq<Step>, seen: set<Key>)
    returns (fuel: nat)
    requires Balanced(w, pot) && DeclBalanced(w, decl, pot, gain) && |steps| + gain <= n && steps != []
    ensures decl.body.Alias? ==> LookupType(w, decl.file, decl.body.aliased, steps, seen, fuel).Some?
    ensures decl.body.Interface? && steps[0].Member? ==>
            var own := FindProperty(decl.body.members, steps[0].name);
            if own.Some? then LookupProperty(w, decl.file, own.value, steps, seen, fuel).Some?
            else LookupBases(w, decl.file, decl.body.bases, steps, seen, fuel).Some?
    decreases |Remaining(w, n, seen)|, 2
  {
    hide Balanced, Remaining, TypeBalanced, NameBalanced;
    fuel := 0;
    match decl.body
    case Interface(members, bases) =>
      if steps[0].Member? {
        var own := FindProperty(members, steps[0].name);
        if own.None? {
          fuel := BasesReturn(w, pot, n, gain, decl.file, bases, steps, seen);
        } else if own.value.declared.Some? {
          fuel := TypeReturns(w, pot, n, gain + 1, decl.file, own.value.declared.value, steps[1..], seen);
        }
      }
    case Alias(aliased) => fuel := TypeReturns(w, pot, n, gain, decl.file, aliased, steps, seen);
    case Enum =>
  }

  lemma {:induction false} BasesReturn(w: World, pot: map<DeclId, nat>, n: nat, gain: int, file: string, bases: seq<Base>, steps: seq<Step>, seen: set<Key>)
    returns (fuel: nat)
    requires Balanced(w, pot) && |steps| + gain <= n
    requires forall b <- bases :: b.NamedBase? ==> NameBalanced(w, file, b.name, pot, gain)
    ensures LookupBases(w, file, bases, steps, seen, fuel).Some?
    decreases |Remaining(w, n, seen)|, 1, bases
  {
    hide Balanced, Remaining;
    if bases == [] {
      fuel := 0;
    } else {
      var b, f := bases[0], 0;
      if b.NamedBase? && Resolve(w, file, b.name).Some? {
        f := DeclReturns(w, pot, n, Resolve(w, file, b.name).value, steps, seen);
      }
      var seen' := LookupBase(w, file, b, steps, seen, f).value.seen;
      RemainingShrinks(w, n, seen, seen');
      var g := BasesReturn(w, pot, n, gain, file, bases[1..], steps, seen');
      fuel := if f < g then g else f;
      BaseFuel(w, file, b, steps, seen, f, fuel);
      BasesFuel(w, file, bases[1..], steps, seen', g, fuel);
    }
  }

  /** In a balanced world every walk returns, from any declaration, path and history. */
  lemma BalancedWalkReturns(w: World, pot: map<DeclId, nat>, id: DeclId, steps: seq<Step>, seen: set<Key>)
    requires Balanced(w, pot) && id in w.decls
    ensures exists fuel :: LookupDecl(w, id, steps, seen, fuel).Some?
  {
    var fuel := DeclReturns(w, pot, |steps| + pot[id], id, steps, seen);
  }

  /** `interface A { x: A['y'] }`: a round adds one step and takes one away. */
  const SELF_PROPERTY: World :=
    World(map[0 := Decl("a.ts", Interface([Property("x", Some(
      Indexed(Ref("A", false, []), Some("y"))))], []))], map[("a.ts", "A") := 0])

  lemma SelfPropertyReturns(steps: seq<Step>, seen: set<Key>)
    ensures exists fuel :: LookupDecl(SELF_PROPERTY, 0, steps, seen, fuel).Some?
  {
    assert Balanced(SELF_PROPERTY, map[0 := 0]);
    BalancedWalkReturns(SELF_PROPERTY, map[0 := 0], 0, steps, seen);
  }

  // ------------------------------------------------------- and a world in which it does not

  /** `interface A { x: A['x']['y'] }` */
  const SELF_INDEXED: World :=
    World(map[0 := Decl("a.ts", Interface([Property("x", Some(
      Indexed(Indexed(Ref("A", false, []), Some("x")), Some("y"))))], []))], map[("a.ts", "A") := 0])

  /** Looking up `x` and anything below it re-enters the declaration with one more step each time,
      so no key repeats and no fuel is ever enough. */
  lemma {:induction false} SelfIndexedNeverReturns(rest: seq<Step>, seen: set<Key>, fuel: nat)
    requires rest != [] && forall k <- seen :: k.1 <= |rest|
    ensures LookupDecl(SELF_INDEXED, 0, [Member("x")] + rest, seen, fuel).None?
    decreases fuel
  {
    var w, steps := SELF_INDEXED, [Member("x")] + rest;
    var own := w.decls[0].body.members[0];
    var inner := own.declared.value.owner;
    var marked := seen + {(0, |steps|)};
    var rest' := [Member("y")] + rest;
    if fuel > 4 { SelfIndexedNeverReturns(rest', marked, fuel - 4); }
    if fuel > 3 { assert LookupType(w, "a.ts", inner.owner, [Member("x")] + rest', marked, fuel - 3).None?; }
    if fuel > 2 { assert LookupType(w, "a.ts", inner, rest', marked, fuel - 2).None?; }
    if fuel > 1 { assert LookupType(w, "a.ts", own.declared.value, rest, marked, fuel - 1).None?; }
    assert fuel > 0 ==> LookupProperty(w, "a.ts", own, steps, marked, fuel - 1).None? by {
      assert steps[1..] == rest;
    }
  }
}
