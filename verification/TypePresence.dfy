/** What it means for a declared type to have a key path, without any guard or visiting order, and
    the proof that the walk's definite verdicts are right whatever the guard has seen. */
module TypePresence {
  import opened Options
  import opened TypeLookup

  // ------------------------------------------------ derivations, by their depth

  /** The utility types that have the members of their argument. */
  predicate HasArgumentsMembers(head: string) {
    head == "Partial" || head == "Required" || head == "Readonly" || head == "NonNullable"
  }

  predicate IsArrayName(head: string) {
    head == "Array" || head == "ReadonlyArray"
  }

  /** `members[i]` is the first property signature of that name. */
  predicate Declares(members: seq<Element>, name: string, i: nat) {
    && i < |members| && members[i].Property? && members[i].name == name
    && forall j :: 0 <= j < i && members[j].Property? ==> members[j].name != name
  }

  predicate DeclaresAny(members: seq<Element>, name: string) {
    exists m <- members :: m.Property? && m.name == name
  }

  /** A derivation of depth at most `k` that every value of the type has the path. */
  ghost predicate MustType(w: World, file: string, t: Type, steps: seq<Step>, k: nat)
    decreases k, 0
  {
    k > 0 && (steps == [] ||
      match t
      case Literal(members) =>
        steps[0].Member? && MustOwn(w, file, members, steps, k - 1)
      case Paren(inner) => MustType(w, file, inner, steps, k - 1)
      case Operator(inner) => MustType(w, file, inner, steps, k - 1)
      case Intersection(parts) => exists p <- parts :: MustType(w, file, p, steps, k - 1)
      case Union(parts) => forall p <- parts :: MustType(w, file, p, steps, k - 1)
      case ArrayOf(elem) => steps[0].Elem? && MustType(w, file, elem, steps[1..], k - 1)
      case Indexed(owner, key) => key.Some? && MustType(w, file, owner, [Member(key.value)] + steps, k - 1)
      case Ref(head, qualified, args) =>
        if HasArgumentsMembers(head) && args != [] then MustType(w, file, args[0], steps, k - 1)
        else if IsArrayName(head) && args != [] then steps[0].Elem? && MustType(w, file, args[0], steps[1..], k - 1)
        else !qualified && MustNamed(w, file, head, steps, k - 1)
      case Opaque => false)
  }

  ghost predicate MustDecl(w: World, id: DeclId, steps: seq<Step>, k: nat)
    requires id in w.decls
    decreases k, 0
  {
    k > 0 && (steps == [] ||
      match w.decls[id].body
      case Interface(members, bases) =>
        steps[0].Member? &&
        if DeclaresAny(members, steps[0].name) then MustOwn(w, w.decls[id].file, members, steps, k - 1)
        else exists b <- bases :: MustBase(w, w.decls[id].file, b, steps, k - 1)
      case Alias(aliased) => MustType(w, w.decls[id].file, aliased, steps, k - 1)
      case Enum => false)
  }

  /** The first property of that name has the rest of the path. */
  ghost predicate MustOwn(w: World, file: string, members: seq<Element>, steps: seq<Step>, k: nat)
    requires steps != [] && steps[0].Member?
    decreases k, 2
  {
    exists i: nat :: Declares(members, steps[0].name, i) && MustProperty(w, file, members[i], steps, k)
  }

  ghost predicate MustProperty(w: World, file: string, p: Element, steps: seq<Step>, k: nat)
    requires p.Property? && steps != []
    decreases k, 1
  {
    |steps| == 1 || (p.declared.Some? && MustType(w, file, p.declared.value, steps[1..], k))
  }

  ghost predicate MustNamed(w: World, file: string, name: string, steps: seq<Step>, k: nat)
    decreases k, 1
  {
    Resolve(w, file, name).Some? && MustDecl(w, Resolve(w, file, name).value, steps, k)
  }

  ghost predicate MustBase(w: World, file: string, b: Base, steps: seq<Step>, k: nat)
    decreases k, 2
  {
    b.NamedBase? && MustNamed(w, file, b.name, steps, k)
  }

  /** An unfolding of depth at most `k` in which some value of the type could have the path.
      Whatever cannot be seen through could have anything. */
  ghost predicate MayType(w: World, file: string, t: Type, steps: seq<Step>, k: nat)
    decreases k, 0
  {
    k > 0 && (steps == [] ||
      match t
      case Literal(members) =>
        steps[0].Elem? || MayOwn(w, file, members, steps, k - 1)
      case Paren(inner) => MayType(w, file, inner, steps, k - 1)
      case Operator(inner) => MayType(w, file, inner, steps, k - 1)
      case Intersection(parts) => exists p <- parts :: MayType(w, file, p, steps, k - 1)
      case Union(parts) => parts == [] || exists p <- parts :: MayType(w, file, p, steps, k - 1)
      case ArrayOf(elem) => steps[0].Member? || MayType(w, file, elem, steps[1..], k - 1)
      case Indexed(owner, key) => key.None? || MayType(w, file, owner, [Member(key.value)] + steps, k - 1)
      case Ref(head, qualified, args) =>
        if HasArgumentsMembers(head) && args != [] then MayType(w, file, args[0], steps, k - 1)
        else if IsArrayName(head) && args != [] then steps[0].Member? || MayType(w, file, args[0], steps[1..], k - 1)
        else qualified || MayNamed(w, file, head, steps, k - 1)
      case Opaque => true)
  }

  ghost predicate MayDecl(w: World, id: DeclId, steps: seq<Step>, k: nat)
    requires id in w.decls
    decreases k, 0
  {
    k > 0 && (steps == [] ||
      match w.decls[id].body
      case Interface(members, bases) =>
        steps[0].Elem? ||
        if DeclaresAny(members, steps[0].name) then MayOwn(w, w.decls[id].file, members, steps, k - 1)
        else exists b <- bases :: MayBase(w, w.decls[id].file, b, steps, k - 1)
      case Alias(aliased) => MayType(w, w.decls[id].file, aliased, steps, k - 1)
      case Enum => true)
  }

  ghost predicate MayOwn(w: World, file: string, members: seq<Element>, steps: seq<Step>, k: nat)
    requires steps != [] && steps[0].Member?
    decreases k, 2
  {
    exists i: nat :: Declares(members, steps[0].name, i) && MayProperty(w, file, members[i], steps, k)
  }

  ghost predicate MayProperty(w: World, file: string, p: Element, steps: seq<Step>, k: nat)
    requires p.Property? && steps != []
    decreases k, 1
  {
    |steps| == 1 || p.declared.None? || MayType(w, file, p.declared.value, steps[1..], k)
  }

  ghost predicate MayNamed(w: World, file: string, name: string, steps: seq<Step>, k: nat)
    decreases k, 1
  {
    Resolve(w, file, name).None? || MayDecl(w, Resolve(w, file, name).value, steps, k)
  }

  ghost predicate MayBase(w: World, file: string, b: Base, steps: seq<Step>, k: nat)
    decreases k, 2
  {
    b.ComputedBase? || MayNamed(w, file, b.name, steps, k)
  }

  /** The loop over the members finds the first property of that name, if there is one. */
  lemma {:induction false} FindIsFirst(members: seq<Element>, name: string)
    ensures var r := FindProperty(members, name);
      && (r.Some? <==> DeclaresAny(members, name))
      && (r.Some? ==> exists i: nat :: Declares(members, name, i) && r.value == members[i])
  {
    if members == [] {
    } else if members[0].Property? && members[0].name == name {
      assert Declares(members, name, 0) && members[0] in members;
    } else {
      FindIsFirst(members[1..], name);
      assert forall m :: m in members <==> m == members[0] || m in members[1..];
      if DeclaresAny(members[1..], name) {
        var i: nat :| Declares(members[1..], name, i) && FindProperty(members[1..], name).value == members[1..][i];
        assert Declares(members, name, i + 1);
      }
    }
  }

  lemma OwnIsFound(w: World, file: string, members: seq<Element>, steps: seq<Step>, k: nat)
    requires steps != [] && steps[0].Member?
    ensures var own := FindProperty(members, steps[0].name);
      && (own.Some? <==> DeclaresAny(members, steps[0].name))
      && (MustOwn(w, file, members, steps, k) <==> own.Some? && MustProperty(w, file, own.value, steps, k))
      && (MayOwn(w, file, members, steps, k) <==> own.Some? && MayProperty(w, file, own.value, steps, k))
  {
    hide MustProperty, MayProperty;
    var own := FindProperty(members, steps[0].name);
    FindIsFirst(members, steps[0].name);
    if own.Some? {
      var i: nat :| Declares(members, steps[0].name, i) && own.value == members[i];
      forall j: nat | Declares(members, steps[0].name, j) ensures j == i {}
    }
  }

  lemma OwnAtEveryDepth(w: World, file: string, members: seq<Element>, steps: seq<Step>)
    requires steps != [] && steps[0].Member?
    ensures var own := FindProperty(members, steps[0].name);
      && (own.Some? <==> DeclaresAny(members, steps[0].name))
      && (forall k :: MustOwn(w, file, members, steps, k) <==> own.Some? && MustProperty(w, file, own.value, steps, k))
      && (forall k :: MayOwn(w, file, members, steps, k) <==> own.Some? && MayProperty(w, file, own.value, steps, k))
  {
    hide MustOwn, MayOwn, MustProperty, MayProperty, DeclaresAny;
    var own := FindProperty(members, steps[0].name);
    OwnIsFound(w, file, members, steps, 0);
    forall k ensures MustOwn(w, file, members, steps, k) <==> own.Some? && MustProperty(w, file, own.value, steps, k)
             ensures MayOwn(w, file, members, steps, k) <==> own.Some? && MayProperty(w, file, own.value, steps, k) {
      OwnIsFound(w, file, members, steps, k);
    }
  }

  // --------------------------------------------------------- must implies may

  lemma {:induction false} MustTypeIsMay(w: World, file: string, t: Type, steps: seq<Step>, k: nat)
    requires MustType(w, file, t, steps, k)
    ensures MayType(w, file, t, steps, k)
    decreases k, 0
  {
    hide MustOwn, MayOwn, DeclaresAny;
    if steps != [] {
      match t
      case Literal(members) => MustOwnIsMay(w, file, members, steps, k - 1);
      case Paren(inner) => MustTypeIsMay(w, file, inner, steps, k - 1);
      case Operator(inner) => MustTypeIsMay(w, file, inner, steps, k - 1);
      case Intersection(parts) =>
        var p :| p in parts && MustType(w, file, p, steps, k - 1);
        MustTypeIsMay(w, file, p, steps, k - 1);
      case Union(parts) =>
        if parts != [] {
          assert parts[0] in parts && MustType(w, file, parts[0], steps, k - 1);
          MustTypeIsMay(w, file, parts[0], steps, k - 1);
        }
      case ArrayOf(elem) => MustTypeIsMay(w, file, elem, steps[1..], k - 1);
      case Indexed(owner, key) => MustTypeIsMay(w, file, owner, [Member(key.value)] + steps, k - 1);
      case Ref(head, qualified, args) =>
        if head in PASSTHROUGH_WRAPPERS && args != [] {
          MustTypeIsMay(w, file, args[0], steps, k - 1);
        } else if head in ARRAY_WRAPPERS && args != [] {
          MustTypeIsMay(w, file, args[0], steps[1..], k - 1);
        } else {
          MustDeclIsMay(w, Resolve(w, file, head).value, steps, k - 1);
        }
    }
  }

  lemma {:induction false} MustDeclIsMay(w: World, id: DeclId, steps: seq<Step>, k: nat)
    requires id in w.decls && MustDecl(w, id, steps, k)
    ensures MayDecl(w, id, steps, k)
    decreases k, 0
  {
    hide MustOwn, MayOwn, DeclaresAny;
    if steps != [] {
      match w.decls[id].body
      case Interface(members, bases) =>
        var file := w.decls[id].file;
        if DeclaresAny(members, steps[0].name) {
          MustOwnIsMay(w, file, members, steps, k - 1);
        } else {
          var b :| b in bases && MustBase(w, file, b, steps, k - 1);
          MustBaseIsMay(w, file, b, steps, k - 1);
          assert MayBase(w, file, b, steps, k - 1);
        }
      case Alias(aliased) => MustTypeIsMay(w, w.decls[id].file, aliased, steps, k - 1);
    }
  }

  lemma {:induction false} MustBaseIsMay(w: World, file: string, b: Base, steps: seq<Step>, k: nat)
    requires MustBase(w, file, b, steps, k)
    ensures MayBase(w, file, b, steps, k)
    decreases k, 1
  {
    assert MustNamed(w, file, b.name, steps, k);
    MustDeclIsMay(w, Resolve(w, file, b.name).value, steps, k);
  }

  lemma {:induction false} MustOwnIsMay(w: World, file: string, members: seq<Element>, steps: seq<Step>, k: nat)
    requires steps != [] && steps[0].Member? && MustOwn(w, file, members, steps, k)
    ensures MayOwn(w, file, members, steps, k)
    decreases k, 2
  {
    var i: nat :| Declares(members, steps[0].name, i) && MustProperty(w, file, members[i], steps, k);
    MustPropertyIsMay(w, file, members[i], steps, k);
  }

  lemma {:induction false} MustPropertyIsMay(w: World, file: string, p: Element, steps: seq<Step>, k: nat)
    requires p.Property? && steps != [] && MustProperty(w, file, p, steps, k)
    ensures MayProperty(w, file, p, steps, k)
    decreases k, 1
  {
    if |steps| > 1 { MustTypeIsMay(w, file, p.declared.value, steps[1..], k); }
  }

  // ------------------------------------------------------------------ soundness

  /** `Found` comes with a derivation that the path must be there; `Missing` rules out every
      unfolding. Where the guard never fired the converses hold too, so the verdict is exact. */
  ghost predicate TypeRight(w: World, file: string, t: Type, steps: seq<Step>, a: Answer, depth: nat) {
    && (a.verdict == Found ==> MustType(w, file, t, steps, depth))
    && (a.verdict == Missing ==> forall k :: !MayType(w, file, t, steps, k))
    && (!a.bailed && a.verdict != Found ==> forall k :: !MustType(w, file, t, steps, k))
    && (!a.bailed && a.verdict != Missing ==> MayType(w, file, t, steps, depth))
  }

  ghost predicate DeclRight(w: World, id: DeclId, steps: seq<Step>, a: Answer, depth: nat)
    requires id in w.decls
  {
    && (a.verdict == Found ==> MustDecl(w, id, steps, depth))
    && (a.verdict == Missing ==> forall k :: !MayDecl(w, id, steps, k))
    && (!a.bailed && a.verdict != Found ==> forall k :: !MustDecl(w, id, steps, k))
    && (!a.bailed && a.verdict != Missing ==> MayDecl(w, id, steps, depth))
  }

  ghost predicate PropertyRight(w: World, file: string, p: Element, steps: seq<Step>, a: Answer, depth: nat)
    requires p.Property? && steps != []
  {
    && (a.verdict == Found ==> MustProperty(w, file, p, steps, depth))
    && (a.verdict == Missing ==> forall k :: !MayProperty(w, file, p, steps, k))
    && (!a.bailed && a.verdict != Found ==> forall k :: !MustProperty(w, file, p, steps, k))
    && (!a.bailed && a.verdict != Missing ==> MayProperty(w, file, p, steps, depth))
  }

  ghost predicate BaseRight(w: World, file: string, b: Base, steps: seq<Step>, a: Answer, depth: nat) {
    && (a.verdict == Found ==> MustBase(w, file, b, steps, depth))
    && (a.verdict == Missing ==> forall k :: !MayBase(w, file, b, steps, k))
    && (!a.bailed && a.verdict != Found ==> forall k :: !MustBase(w, file, b, steps, k))
    && (!a.bailed && a.verdict != Missing ==> MayBase(w, file, b, steps, depth))
  }

  lemma {:induction false} TypeIsRight(w: World, file: string, t: Type, steps: seq<Step>, seen: set<Key>, fuel: nat)
    requires LookupType(w, file, t, steps, seen, fuel).Some?
    ensures TypeRight(w, file, t, steps, LookupType(w, file, t, steps, seen, fuel).value, fuel)
    decreases fuel, 0
  {
    if steps != [] {
      match t
      case Literal(members) =>
        if steps[0].Member? {
          var own := FindProperty(members, steps[0].name);
          if own.Some? { PropertyIsRight(w, file, own.value, steps, seen, fuel - 1); }
          LiteralIsRight(w, file, members, steps, LookupType(w, file, t, steps, seen, fuel).value, fuel);
        }
      case Paren(inner) => TypeIsRight(w, file, inner, steps, seen, fuel - 1);
      case Operator(inner) => TypeIsRight(w, file, inner, steps, seen, fuel - 1);
      case Intersection(parts) =>
        PartsAreRight(w, file, parts, steps, seen, fuel - 1);
        IntersectionIsRight(w, file, parts, steps, LookupParts(w, file, parts, steps, seen, fuel - 1).value, fuel);
      case Union(parts) =>
        PartsAreRight(w, file, parts, steps, seen, fuel - 1);
        UnionIsRight(w, file, parts, steps, LookupParts(w, file, parts, steps, seen, fuel - 1).value, fuel);
      case ArrayOf(elem) =>
        if steps[0].Elem? { TypeIsRight(w, file, elem, steps[1..], seen, fuel - 1); }
      case Indexed(owner, key) =>
        if key.Some? { TypeIsRight(w, file, owner, [Member(key.value)] + steps, seen, fuel - 1); }
      case Ref(head, qualified, args) =>
        if head in PASSTHROUGH_WRAPPERS && args != [] {
          TypeIsRight(w, file, args[0], steps, seen, fuel - 1);
        } else if head in ARRAY_WRAPPERS && args != [] {
          if steps[0].Elem? { TypeIsRight(w, file, args[0], steps[1..], seen, fuel - 1); }
        } else if !qualified && Resolve(w, file, head).Some? {
          var id := Resolve(w, file, head).value;
          DeclIsRight(w, id, steps, seen, fuel - 1);
          assert forall k :: MustNamed(w, file, head, steps, k) == MustDecl(w, id, steps, k);
          assert forall k :: MayNamed(w, file, head, steps, k) == MayDecl(w, id, steps, k);
        }
      case Opaque =>
    }
    var a := LookupType(w, file, t, steps, seen, fuel).value;
    forall k | a.verdict == Missing ensures !MayType(w, file, t, steps, k) { }
    forall k | !a.bailed && a.verdict != Found ensures !MustType(w, file, t, steps, k) { }
  }

  lemma LiteralIsRight(w: World, file: string, members: seq<Element>, steps: seq<Step>, a: Answer, fuel: nat)
    requires steps != [] && steps[0].Member? && fuel > 0
    requires var own := FindProperty(members, steps[0].name);
      if own.Some? then PropertyRight(w, file, own.value, steps, a, fuel - 1) else a.verdict == Missing && !a.bailed
    ensures TypeRight(w, file, Literal(members), steps, a, fuel)
  {
    hide MustOwn, MayOwn, DeclaresAny;
    OwnAtEveryDepth(w, file, members, steps);
    var t := Literal(members);
    forall k: nat ensures MayType(w, file, t, steps, k) <==> k > 0 && MayOwn(w, file, members, steps, k - 1) {}
    forall k: nat ensures MustType(w, file, t, steps, k) <==> k > 0 && MustOwn(w, file, members, steps, k - 1) {}
  }

  lemma IntersectionIsRight(w: World, file: string, parts: seq<Type>, steps: seq<Step>, r: Answers, fuel: nat)
    requires steps != [] && fuel > 0 && |r.verdicts| == |parts|
    requires forall i :: 0 <= i < |parts| ==>
      TypeRight(w, file, parts[i], steps, Answer(r.verdicts[i], r.seen, r.bailed), fuel - 1)
    ensures TypeRight(w, file, Intersection(parts), steps, Answer(Combine(r.verdicts), r.seen, r.bailed), fuel)
  {
    var t := Intersection(parts);
    if Found in r.verdicts {
      var i :| 0 <= i < |parts| && r.verdicts[i] == Found;
      assert parts[i] in parts;
    } else {
      assert forall i :: 0 <= i < |parts| ==> r.verdicts[i] in r.verdicts;
      forall k | !r.bailed ensures !MustType(w, file, t, steps, k) { }
      if Unknown in r.verdicts {
        var i :| 0 <= i < |parts| && r.verdicts[i] == Unknown;
        assert parts[i] in parts;
      } else {
        forall k ensures !MayType(w, file, t, steps, k) { }
      }
    }
  }

  lemma UnionMust(w: World, file: string, parts: seq<Type>, steps: seq<Step>, r: Answers, fuel: nat)
    requires steps != [] && fuel > 0 && |r.verdicts| == |parts|
    requires forall i :: 0 <= i < |parts| ==>
      TypeRight(w, file, parts[i], steps, Answer(r.verdicts[i], r.seen, r.bailed), fuel - 1)
    ensures Agree(r.verdicts) == Found ==> MustType(w, file, Union(parts), steps, fuel)
    ensures !r.bailed && Agree(r.verdicts) != Found ==> forall k :: !MustType(w, file, Union(parts), steps, k)
  {
    hide MustType, MayType;
    if Agree(r.verdicts) == Found {
      forall p <- parts ensures MustType(w, file, p, steps, fuel - 1) {
        var i :| 0 <= i < |parts| && parts[i] == p;
        assert r.verdicts[i] in r.verdicts;
      }
      UnionUnfolds(w, file, parts, steps, fuel);
    } else if !r.bailed {
      var i :| 0 <= i < |parts| && r.verdicts[i] != Found;
      assert parts[i] in parts;
      forall k ensures !MustType(w, file, Union(parts), steps, k) { UnionUnfolds(w, file, parts, steps, k); }
    }
  }

  lemma UnionUnfolds(w: World, file: string, parts: seq<Type>, steps: seq<Step>, k: nat)
    requires steps != []
    ensures MustType(w, file, Union(parts), steps, k) <==> k > 0 && forall p <- parts :: MustType(w, file, p, steps, k - 1)
  {
  }

  lemma UnionMay(w: World, file: string, parts: seq<Type>, steps: seq<Step>, r: Answers, fuel: nat)
    requires steps != [] && fuel > 0 && |r.verdicts| == |parts|
    requires forall i :: 0 <= i < |parts| ==>
      TypeRight(w, file, parts[i], steps, Answer(r.verdicts[i], r.seen, r.bailed), fuel - 1)
    ensures Agree(r.verdicts) == Missing ==> forall k :: !MayType(w, file, Union(parts), steps, k)
    ensures !r.bailed && Agree(r.verdicts) != Missing ==> MayType(w, file, Union(parts), steps, fuel)
  {
    assert forall i :: 0 <= i < |parts| ==> parts[i] in parts && r.verdicts[i] in r.verdicts;
    if i :| 0 <= i < |parts| && r.verdicts[i] != Missing {
      assert parts[i] in parts;
    } else if parts == [] {
      assert MayType(w, file, Union(parts), steps, fuel);
    } else {
      assert r.verdicts[0] == Missing;
      forall k ensures !MayType(w, file, Union(parts), steps, k) { }
    }
  }

  lemma UnionIsRight(w: World, file: string, parts: seq<Type>, steps: seq<Step>, r: Answers, fuel: nat)
    requires steps != [] && fuel > 0 && |r.verdicts| == |parts|
    requires forall i :: 0 <= i < |parts| ==>
      TypeRight(w, file, parts[i], steps, Answer(r.verdicts[i], r.seen, r.bailed), fuel - 1)
    ensures TypeRight(w, file, Union(parts), steps, Answer(Agree(r.verdicts), r.seen, r.bailed), fuel)
  {
    UnionMust(w, file, parts, steps, r, fuel);
    UnionMay(w, file, parts, steps, r, fuel);
  }

  lemma {:induction false} DeclIsRight(w: World, id: DeclId, steps: seq<Step>, seen: set<Key>, fuel: nat)
    requires id in w.decls && LookupDecl(w, id, steps, seen, fuel).Some?
    ensures DeclRight(w, id, steps, LookupDecl(w, id, steps, seen, fuel).value, fuel)
    decreases fuel, 0
  {
    hide MustOwn, MayOwn, DeclaresAny;
    if steps != [] && !w.decls[id].body.Enum? && (id, |steps|) !in seen {
      var marked, file := seen + {(id, |steps|)}, w.decls[id].file;
      match w.decls[id].body
      case Interface(members, bases) =>
        if steps[0].Member? {
          OwnAtEveryDepth(w, file, members, steps);
          var own := FindProperty(members, steps[0].name);
          if own.Some? {
            PropertyIsRight(w, file, own.value, steps, marked, fuel - 1);
          } else {
            BasesAreRight(w, file, bases, steps, marked, fuel - 1);
            HeritageIsRight(w, id, members, bases, steps, LookupBases(w, file, bases, steps, marked, fuel - 1).value, fuel);
          }
        }
      case Alias(aliased) => TypeIsRight(w, file, aliased, steps, marked, fuel - 1);
    }
    var a := LookupDecl(w, id, steps, seen, fuel).value;
    forall k | a.verdict == Missing ensures !MayDecl(w, id, steps, k) { }
    forall k | !a.bailed && a.verdict != Found ensures !MustDecl(w, id, steps, k) { }
  }

  lemma HeritageIsRight(w: World, id: DeclId, members: seq<Element>, bases: seq<Base>, steps: seq<Step>, r: Answers, fuel: nat)
    requires id in w.decls && w.decls[id].body == Interface(members, bases) && fuel > 0
    requires steps != [] && steps[0].Member? && !DeclaresAny(members, steps[0].name)
    requires |r.verdicts| == |bases|
    requires forall i :: 0 <= i < |bases| ==>
      BaseRight(w, w.decls[id].file, bases[i], steps, Answer(r.verdicts[i], r.seen, r.bailed), fuel - 1)
    ensures DeclRight(w, id, steps, Answer(Combine(r.verdicts), r.seen, r.bailed), fuel)
  {
    if Found in r.verdicts {
      var i :| 0 <= i < |bases| && r.verdicts[i] == Found;
      assert bases[i] in bases;
    } else {
      assert forall i :: 0 <= i < |bases| ==> r.verdicts[i] in r.verdicts;
      forall k | !r.bailed ensures !MustDecl(w, id, steps, k) { }
      if Unknown in r.verdicts {
        var i :| 0 <= i < |bases| && r.verdicts[i] == Unknown;
        assert bases[i] in bases;
      } else {
        forall k ensures !MayDecl(w, id, steps, k) { }
      }
    }
  }

  lemma {:induction false} PropertyIsRight(w: World, file: string, p: Element, steps: seq<Step>, seen: set<Key>, fuel: nat)
    requires p.Property? && steps != [] && LookupProperty(w, file, p, steps, seen, fuel).Some?
    ensures PropertyRight(w, file, p, steps, LookupProperty(w, file, p, steps, seen, fuel).value, fuel)
    decreases fuel, 1
  {
    if |steps| > 1 && p.declared.Some? { TypeIsRight(w, file, p.declared.value, steps[1..], seen, fuel); }
    var a := LookupProperty(w, file, p, steps, seen, fuel).value;
    forall k | a.verdict == Missing ensures !MayProperty(w, file, p, steps, k) { }
    forall k | !a.bailed && a.verdict != Found ensures !MustProperty(w, file, p, steps, k) { }
  }

  lemma {:induction false} PartsAreRight(w: World, file: string, parts: seq<Type>, steps: seq<Step>, seen: set<Key>, fuel: nat)
    requires LookupParts(w, file, parts, steps, seen, fuel).Some?
    ensures var r := LookupParts(w, file, parts, steps, seen, fuel).value;
            forall i :: 0 <= i < |parts| ==> TypeRight(w, file, parts[i], steps, Answer(r.verdicts[i], r.seen, r.bailed), fuel)
    decreases fuel, |parts| + 1
  {
    if parts != [] {
      var first := LookupType(w, file, parts[0], steps, seen, fuel).value;
      TypeIsRight(w, file, parts[0], steps, seen, fuel);
      PartsAreRight(w, file, parts[1..], steps, first.seen, fuel);
    }
  }

  lemma {:induction false} BaseIsRight(w: World, file: string, b: Base, steps: seq<Step>, seen: set<Key>, fuel: nat)
    requires LookupBase(w, file, b, steps, seen, fuel).Some?
    ensures BaseRight(w, file, b, steps, LookupBase(w, file, b, steps, seen, fuel).value, fuel)
    decreases fuel, 1
  {
    if b.NamedBase? && Resolve(w, file, b.name).Some? {
      var id := Resolve(w, file, b.name).value;
      DeclIsRight(w, id, steps, seen, fuel);
      assert forall k :: MustBase(w, file, b, steps, k) == MustNamed(w, file, b.name, steps, k) == MustDecl(w, id, steps, k);
      assert forall k :: MayBase(w, file, b, steps, k) == MayNamed(w, file, b.name, steps, k) == MayDecl(w, id, steps, k);
    } else if b.NamedBase? {
      assert forall k :: MustBase(w, file, b, steps, k) == MustNamed(w, file, b.name, steps, k);
    }
  }

  lemma {:induction false} BasesAreRight(w: World, file: string, bases: seq<Base>, steps: seq<Step>, seen: set<Key>, fuel: nat)
    requires LookupBases(w, file, bases, steps, seen, fuel).Some?
    ensures var r := LookupBases(w, file, bases, steps, seen, fuel).value;
            forall i :: 0 <= i < |bases| ==> BaseRight(w, file, bases[i], steps, Answer(r.verdicts[i], r.seen, r.bailed), fuel)
    decreases fuel, |bases| + 1
  {
    if bases != [] {
      var first := LookupBase(w, file, bases[0], steps, seen, fuel).value;
      BaseIsRight(w, file, bases[0], steps, seen, fuel);
      BasesAreRight(w, file, bases[1..], steps, first.seen, fuel);
    }
  }

  // --------------------------------------------------------------- the verdicts

  ghost predicate MustHave(w: World, id: DeclId, steps: seq<Step>)
    requires id in w.decls
  {
    exists k :: MustDecl(w, id, steps, k)
  }

  ghost predicate MayHave(w: World, id: DeclId, steps: seq<Step>)
    requires id in w.decls
  {
    exists k :: MayDecl(w, id, steps, k)
  }

  /** Whatever the guard has already seen, a definite verdict is true; and where it never fired the
      verdict says exactly which of the two holds. */
  lemma VerdictIsSound(w: World, id: DeclId, steps: seq<Step>, seen: set<Key>, fuel: nat)
    requires id in w.decls && LookupDecl(w, id, steps, seen, fuel).Some?
    ensures var a := LookupDecl(w, id, steps, seen, fuel).value;
            && (a.verdict == Found ==> MustHave(w, id, steps))
            && (a.verdict == Missing ==> !MayHave(w, id, steps))
            && (!a.bailed ==> (a.verdict == Found <==> MustHave(w, id, steps)))
            && (!a.bailed ==> (a.verdict == Missing <==> !MayHave(w, id, steps)))
  {
    DeclIsRight(w, id, steps, seen, fuel);
  }

  /** A bail can only turn a verdict into `Unknown`: no two walks of one query, whatever each has
      seen, say found and missing. */
  lemma VerdictsNeverContradict(w: World, id: DeclId, steps: seq<Step>, seen: set<Key>, fuel: nat, seen': set<Key>, fuel': nat)
    requires id in w.decls && LookupDecl(w, id, steps, seen, fuel).Some? && LookupDecl(w, id, steps, seen', fuel').Some?
    ensures LookupDecl(w, id, steps, seen, fuel).value.verdict == Found ==>
            LookupDecl(w, id, steps, seen', fuel').value.verdict != Missing
  {
    DeclIsRight(w, id, steps, seen, fuel);
    DeclIsRight(w, id, steps, seen', fuel');
    if LookupDecl(w, id, steps, seen, fuel).value.verdict == Found { MustDeclIsMay(w, id, steps, fuel); }
  }

  // -------------------------------------------- what sharing one `seen` costs

  /** `interface D { k }`, `type T = D | D`. */
  const REPEATED_BRANCH: World :=
    World(map[0 := Decl("a.ts", Interface([Property("k", None)], [])),
              1 := Decl("a.ts", Alias(Union([Ref("D", false, []), Ref("D", false, [])])))],
          map[("a.ts", "D") := 0])

  /** The second branch finds the first one's key in `seen`: `k` must be there and is not found. */
  lemma RepeatedBranchIsUnknown()
    ensures LookupDecl(REPEATED_BRANCH, 1, [Member("k")], {}, 5).Some?
    ensures LookupDecl(REPEATED_BRANCH, 1, [Member("k")], {}, 5).value.verdict == Unknown
    ensures MustHave(REPEATED_BRANCH, 1, [Member("k")])
  {
    var w, d, steps := REPEATED_BRANCH, Ref("D", false, []), [Member("k")];
    var s1 := {} + {(1, 1)};
    var s2 := s1 + {(0, 1)};
    hide MustDecl, MustType, MustNamed, MustHave;
    RepeatedMust();
    RepeatedVisits(s1, s2);
    assert [d, d][1..] == [d] && [d][1..] == [];
    assert LookupParts(w, "a.ts", [], steps, s2, 3) == Some(Answers([], s2, false));
    assert LookupParts(w, "a.ts", [d], steps, s2, 3) == Some(Answers([Unknown] + [], s2, true));
    var both := LookupParts(w, "a.ts", [d, d], steps, s1, 3).value;
    assert both.verdicts == [Found, Unknown] && both.verdicts[0] == Found && both.verdicts[1] == Unknown;
    assert Unknown in both.verdicts && Found in both.verdicts;
    assert LookupType(w, "a.ts", Union([d, d]), steps, s1, 4).value.verdict == Unknown;
  }

  /** The two visits of the repeated branch. */
  lemma RepeatedVisits(s1: set<Key>, s2: set<Key>)
    requires s1 == {(1, 1)} && s2 == s1 + {(0, 1)}
    ensures var d := Ref("D", false, []);
      && LookupType(REPEATED_BRANCH, "a.ts", d, [Member("k")], s1, 3) == Some(Answer(Found, s2, false))
      && LookupType(REPEATED_BRANCH, "a.ts", d, [Member("k")], s2, 3) == Some(Answer(Unknown, s2, true))
  {
    var w, d, steps := REPEATED_BRANCH, Ref("D", false, []), [Member("k")];
    assert FindProperty(w.decls[0].body.members, "k") == Some(Property("k", None));
    assert LookupProperty(w, "a.ts", Property("k", None), steps, s2, 1) == Some(Answer(Found, s2, false));
    assert LookupDecl(w, 0, steps, s1, 2) == Some(Answer(Found, s2, false));
  }

  lemma RepeatedMust()
    ensures MustHave(REPEATED_BRANCH, 1, [Member("k")])
  {
    var w, d, steps := REPEATED_BRANCH, Ref("D", false, []), [Member("k")];
    assert Declares(w.decls[0].body.members, "k", 0) && MustProperty(w, "a.ts", Property("k", None), steps, 1);
    assert MustOwn(w, "a.ts", w.decls[0].body.members, steps, 1);
    assert MustDecl(w, 0, steps, 2);
    assert MustNamed(w, "a.ts", "D", steps, 2);
    assert MustType(w, "a.ts", d, steps, 3);
    assert MustType(w, "a.ts", Union([d, d]), steps, 4);
    assert MustDecl(w, 1, steps, 5);
  }

  /** `interface R {}`, `interface A extends R {}`, `interface C extends A, R {}`. */
  const DIAMOND: World :=
    World(map[0 := Decl("a.ts", Interface([], [])),
              1 := Decl("a.ts", Interface([], [NamedBase("R")])),
              2 := Decl("a.ts", Interface([], [NamedBase("A"), NamedBase("R")]))],
          map[("a.ts", "R") := 0, ("a.ts", "A") := 1])

  /** Inheriting one interface twice hides a definite miss: nothing can have `k`, and the walk says
      unknown, which the catalog does not report. */
  lemma DiamondIsUnknown()
    ensures LookupDecl(DIAMOND, 2, [Member("k")], {}, 3).Some?
    ensures LookupDecl(DIAMOND, 2, [Member("k")], {}, 3).value.verdict == Unknown
    ensures !MayHave(DIAMOND, 2, [Member("k")])
  {
    var w, steps, a, r := DIAMOND, [Member("k")], NamedBase("A"), NamedBase("R");
    var s1 := {} + {(2, 1)};
    var s2 := s1 + {(1, 1)};
    var s3 := s2 + {(0, 1)};
    assert LookupBases(w, "a.ts", [], steps, s3, 0).value.verdicts == [];
    assert LookupDecl(w, 0, steps, s2, 1) == Some(Answer(Missing, s3, false));
    assert [r][1..] == [] && [a, r][1..] == [r];
    assert LookupBase(w, "a.ts", r, steps, s2, 1) == Some(Answer(Missing, s3, false));
    var inA := LookupBases(w, "a.ts", [r], steps, s2, 1).value;
    assert inA.verdicts == [Missing] && inA.seen == s3 && !inA.bailed;
    assert LookupDecl(w, 1, steps, s1, 2) == Some(Answer(Missing, s3, false));
    assert LookupBase(w, "a.ts", a, steps, s1, 2) == Some(Answer(Missing, s3, false));
    assert LookupBase(w, "a.ts", r, steps, s3, 2) == Some(Answer(Unknown, s3, true));
    var tail := LookupBases(w, "a.ts", [r], steps, s3, 2).value;
    assert tail.verdicts == [Unknown];
    var both := LookupBases(w, "a.ts", [a, r], steps, s1, 2).value;
    assert both.verdicts == [Missing, Unknown] && both.verdicts[1] == Unknown;
    forall k ensures !MayDecl(w, 2, steps, k) {
      assert forall j: nat :: !MayDecl(w, 0, steps, j);
      assert forall j: nat :: MayBase(w, "a.ts", r, steps, j) == MayNamed(w, "a.ts", "R", steps, j) == MayDecl(w, 0, steps, j);
      assert forall j: nat :: !MayDecl(w, 1, steps, j);
      assert forall j: nat :: MayBase(w, "a.ts", a, steps, j) == MayNamed(w, "a.ts", "A", steps, j) == MayDecl(w, 1, steps, j);
    }
  }

  /** `interface A { x: A }`. */
  const SELF_TYPED: World :=
    World(map[0 := Decl("a.ts", Interface([Property("x", Some(Ref("A", false, [])))], []))], map[("a.ts", "A") := 0])

  function Down(n: nat): seq<Step> {
    seq(n, i => Member("x"))
  }

  /** Coming back to a declaration with fewer steps left is no cycle: every path `x.x.x` is found. */
  lemma {:induction false} RecursiveTypeIsFound(n: nat, seen: set<Key>)
    requires forall key <- seen :: key.1 > n + 1
    ensures var r := LookupDecl(SELF_TYPED, 0, Down(n + 1), seen, 2 * n + 1); r.Some? && r.value.verdict == Found && !r.value.bailed
  {
    var w, steps, own := SELF_TYPED, Down(n + 1), Property("x", Some(Ref("A", false, [])));
    var marked := seen + {(0, n + 1)};
    assert w.decls[0].body.members == [own] && FindProperty([own], "x") == Some(own);
    if n > 0 {
      assert steps[1..] == Down(n);
      RecursiveTypeIsFound(n - 1, marked);
      assert LookupType(w, "a.ts", own.declared.value, Down(n), marked, 2 * n) == LookupDecl(w, 0, Down(n), marked, 2 * n - 1);
      assert LookupProperty(w, "a.ts", own, steps, marked, 2 * n) == LookupType(w, "a.ts", own.declared.value, Down(n), marked, 2 * n);
    }
  }
}
