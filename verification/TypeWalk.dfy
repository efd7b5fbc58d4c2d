/** `lookupPath` of `scripts/gen-config-catalog.ts` as it runs: one recursive walk that mutates one `seen` set. */
module TypeWalk {
  import opened Options
  import opened TypeLookup
  import opened TypePresence

  /** What one call leaves: the verdict `r` gives, `seen` as `r` leaves it, and the guard's record. `None` is a call
      that does not return within its fuel. */
  ghost predicate Tracks(r: Option<Answer>, verdict: Option<Verdict>, seen: set<Key>, was: bool, bailed: bool) {
    match r
    case None => verdict.None?
    case Some(a) => verdict == Some(a.verdict) && seen == a.seen && bailed == (was || a.bailed)
  }

  ghost predicate TracksAll(r: Option<Answers>, verdicts: Option<seq<Verdict>>, seen: set<Key>, was: bool, bailed: bool) {
    match r
    case None => verdicts.None?
    case Some(a) => verdicts == Some(a.verdicts) && seen == a.seen && bailed == (was || a.bailed)
  }

  /** The branches already walked, then the answers for the rest. */
  ghost function After(verdicts: seq<Verdict>, bailed: bool, rest: Option<Answers>): Option<Answers> {
    if rest.None? then None else Some(Answers(verdicts + rest.value.verdicts, rest.value.seen, bailed || rest.value.bailed))
  }

  lemma AfterFirst(verdicts: seq<Verdict>, bailed: bool, first: Answer, rest: Option<Answers>)
    ensures After(verdicts, bailed, After([first.verdict], first.bailed, rest))
         == After(verdicts + [first.verdict], bailed || first.bailed, rest)
  {
    if rest.Some? {
      assert verdicts + ([first.verdict] + rest.value.verdicts) == (verdicts + [first.verdict]) + rest.value.verdicts;
    }
  }

  lemma AfterNothing(r: Option<Answers>)
    ensures After([], false, r) == r
  {
    if r.Some? { assert [] + r.value.verdicts == r.value.verdicts; }
  }

  class Walker {
    const w: World
    var seen: set<Key>
    /** Whether the recursion guard has fired. */
    ghost var bailed: bool

    constructor (w: World)
      ensures this.w == w && seen == {} && !bailed
    {
      this.w, seen, bailed := w, {}, false;
    }

    method WalkType(file: string, t: Type, steps: seq<Step>, fuel: nat) returns (v: Option<Verdict>)
      modifies this
      ensures Tracks(LookupType(w, file, t, steps, old(seen), fuel), v, seen, old(bailed), bailed)
      decreases fuel, 0
    {
      if fuel == 0 { return None; }
      if steps == [] { return Some(Found); }
      match t
      case Literal(members) =>
        if steps[0].Elem? { return Some(Unknown); }
        var own := FindProperty(members, steps[0].name);
        if own.None? { return Some(Missing); }
        v := WalkProperty(file, own.value, steps, fuel - 1);
      case Paren(inner) => v := WalkType(file, inner, steps, fuel - 1);
      case Operator(inner) => v := WalkType(file, inner, steps, fuel - 1);
      case Intersection(parts) =>
        var results := WalkParts(file, parts, steps, fuel - 1);
        v := if results.None? then None else Some(Combine(results.value));
      case Union(parts) =>
        var results := WalkParts(file, parts, steps, fuel - 1);
        v := if results.None? then None else Some(Agree(results.value));
      case ArrayOf(elem) =>
        if !steps[0].Elem? { return Some(Unknown); }
        v := WalkType(file, elem, steps[1..], fuel - 1);
      case Indexed(owner, key) =>
        if key.None? { return Some(Unknown); }
        v := WalkType(file, owner, [Member(key.value)] + steps, fuel - 1);
      case Ref(head, qualified, args) =>
        if head in PASSTHROUGH_WRAPPERS && args != [] {
          v := WalkType(file, args[0], steps, fuel - 1);
        } else if head in ARRAY_WRAPPERS && args != [] {
          if !steps[0].Elem? { return Some(Unknown); }
          v := WalkType(file, args[0], steps[1..], fuel - 1);
        } else if qualified {
          v := Some(Unknown);
        } else {
          var target := Resolve(w, file, head);
          if target.None? { return Some(Unknown); }
          v := WalkDecl(target.value, steps, fuel - 1);
        }
      case Opaque => v := Some(Unknown);
    }

    method WalkDecl(id: DeclId, steps: seq<Step>, fuel: nat) returns (v: Option<Verdict>)
      requires id in w.decls
      modifies this
      ensures Tracks(LookupDecl(w, id, steps, old(seen), fuel), v, seen, old(bailed), bailed)
      decreases fuel, 0
    {
      var decl := w.decls[id];
      if fuel == 0 { return None; }
      if steps == [] { return Some(Found); }
      if decl.body.Enum? { return Some(Unknown); }
      if (id, |steps|) in seen {
        bailed := true;
        return Some(Unknown);
      }
      seen := seen + {(id, |steps|)};
      match decl.body
      case Interface(members, bases) =>
        if steps[0].Elem? { return Some(Unknown); }
        var own := FindProperty(members, steps[0].name);
        if own.Some? {
          v := WalkProperty(decl.file, own.value, steps, fuel - 1);
        } else {
          var results := WalkBases(decl.file, bases, steps, fuel - 1);
          v := if results.None? then None else Some(Combine(results.value));
        }
      case Alias(aliased) => v := WalkType(decl.file, aliased, steps, fuel - 1);
    }

    /** `intoMembers`, once the property is found. */
    method WalkProperty(file: string, p: Element, steps: seq<Step>, fuel: nat) returns (v: Option<Verdict>)
      requires p.Property? && steps != []
      modifies this
      ensures Tracks(LookupProperty(w, file, p, steps, old(seen), fuel), v, seen, old(bailed), bailed)
      decreases fuel, 1
    {
      if |steps| == 1 { return Some(Found); }
      if p.declared.None? { return Some(Unknown); }
      v := WalkType(file, p.declared.value, steps[1..], fuel);
    }

    /** `node.types.map(...)`: every branch is walked, each with what the earlier ones left in `seen`. */
    method WalkParts(file: string, parts: seq<Type>, steps: seq<Step>, fuel: nat) returns (vs: Option<seq<Verdict>>)
      modifies this
      ensures TracksAll(LookupParts(w, file, parts, steps, old(seen), fuel), vs, seen, old(bailed), bailed)
      decreases fuel, 2
    {
      var results: seq<Verdict> := [];
      ghost var b := false;
      AfterNothing(LookupParts(w, file, parts, steps, seen, fuel));
      for i := 0 to |parts|
        invariant bailed == (old(bailed) || b)
        invariant After(results, b, LookupParts(w, file, parts[i..], steps, seen, fuel))
               == LookupParts(w, file, parts, steps, old(seen), fuel)
      {
        ghost var first := LookupType(w, file, parts[i], steps, seen, fuel);
        assert parts[i..][0] == parts[i] && parts[i..][1..] == parts[i + 1..];
        var v := WalkType(file, parts[i], steps, fuel);
        if v.None? { return None; }
        AfterFirst(results, b, first.value, LookupParts(w, file, parts[i + 1..], steps, seen, fuel));
        results, b := results + [v.value], b || first.value.bailed;
      }
      assert results + [] == results;
      vs := Some(results);
    }

    /** The loop over an interface's `extends` entries. */
    method WalkBases(file: string, bases: seq<Base>, steps: seq<Step>, fuel: nat) returns (vs: Option<seq<Verdict>>)
      modifies this
      ensures TracksAll(LookupBases(w, file, bases, steps, old(seen), fuel), vs, seen, old(bailed), bailed)
      decreases fuel, 2
    {
      var results: seq<Verdict> := [];
      ghost var b := false;
      AfterNothing(LookupBases(w, file, bases, steps, seen, fuel));
      for i := 0 to |bases|
        invariant bailed == (old(bailed) || b)
        invariant After(results, b, LookupBases(w, file, bases[i..], steps, seen, fuel))
               == LookupBases(w, file, bases, steps, old(seen), fuel)
      {
        ghost var first := LookupBase(w, file, bases[i], steps, seen, fuel);
        assert bases[i..][0] == bases[i] && bases[i..][1..] == bases[i + 1..];
        var v := Some(Unknown);
        var target := if bases[i].NamedBase? then Resolve(w, file, bases[i].name) else None;
        if target.Some? { v := WalkDecl(target.value, steps, fuel); }
        if v.None? { return None; }
        AfterFirst(results, b, first.value, LookupBases(w, file, bases[i + 1..], steps, seen, fuel));
        results, b := results + [v.value], b || first.value.bailed;
      }
      assert results + [] == results;
      vs := Some(results);
    }
  }

  /** One check of a schema key path, with a new `seen`: it says missing only of a path no unfolding of the type has,
      found only of one every unfolding has, and without a bail exactly then. */
  method CheckPath(w: World, config: DeclId, steps: seq<Step>, fuel: nat) returns (v: Option<Verdict>, ghost bailed: bool)
    requires config in w.decls
    ensures v.Some? <==> LookupDecl(w, config, steps, {}, fuel).Some?
    ensures v.Some? ==> (v.value == Found ==> MustHave(w, config, steps)) && (v.value == Missing ==> !MayHave(w, config, steps))
    ensures v.Some? && !bailed ==>
              (v.value == Found <==> MustHave(w, config, steps)) && (v.value == Missing <==> !MayHave(w, config, steps))
  {
    var walker := new Walker(w);
    v := walker.WalkDecl(config, steps, fuel);
    bailed := walker.bailed;
    if v.Some? { VerdictIsSound(w, config, steps, {}, fuel); }
  }
}
