/** `lookupPath` of `scripts/gen-config-catalog.ts`: the three-valued presence check of a schema
    key path against a declared config type. */
module TypeLookup {
  import opened Options

  /** A key path step: a named member, or an array-element hop. */
  datatype Step = Member(name: string) | Elem

  datatype Verdict = Found | Missing | Unknown

  /** A type node. `Ref.head` is the leftmost identifier of the referenced name; `Opaque` is any
      node the walk has no case for. */
  datatype Type =
    | Literal(members: seq<Element>)
    | Paren(inner: Type)
    | Operator(inner: Type)
    | Intersection(parts: seq<Type>)
    | Union(parts: seq<Type>)
    | ArrayOf(elem: Type)
    | Indexed(owner: Type, key: Option<string>)
    | Ref(head: string, qualified: bool, args: seq<Type>)
    | Opaque

  /** A type element: a property signature, or a method, call or index signature the walk skips. */
  datatype Element = Property(name: string, declared: Option<Type>) | OtherElement

  /** One `extends` entry. */
  datatype Base = NamedBase(name: string) | ComputedBase

  datatype Body = Interface(members: seq<Element>, bases: seq<Base>) | Alias(aliased: Type) | Enum

  datatype Decl = Decl(file: string, body: Body)

  /** A declaration's identity: the source's file-and-position key. */
  type DeclId = nat

  /** `resolve` is `declForTypeName`; a name it leaves out is out of reach. */
  datatype World = World(decls: map<DeclId, Decl>, resolve: map<(string, string), DeclId>)

  function Resolve(w: World, file: string, name: string): (r: Option<DeclId>)
    ensures r.Some? ==> r.value in w.decls
  {
    if (file, name) in w.resolve && w.resolve[(file, name)] in w.decls then Some(w.resolve[(file, name)]) else None
  }

  const PASSTHROUGH_WRAPPERS: set<string> := {"Partial", "Required", "Readonly", "NonNullable"}
  const ARRAY_WRAPPERS: set<string> := {"Array", "ReadonlyArray"}

  /** The loop of `intoMembers`. */
  function FindProperty(members: seq<Element>, name: string): (r: Option<Element>)
    ensures r.Some? ==> r.value in members && r.value.Property? && r.value.name == name
  {
    if members == [] then None
    else if members[0].Property? && members[0].name == name then Some(members[0])
    else FindProperty(members[1..], name)
  }

  // ------------------------------------------------------------------ the walk

  type Key = (DeclId, nat)

  /** A verdict with the `seen` set as the walk leaves it, and whether the recursion guard fired. */
  datatype Answer = Answer(verdict: Verdict, seen: set<Key>, bailed: bool)

  datatype Answers = Answers(verdicts: seq<Verdict>, seen: set<Key>, bailed: bool)

  /** Any found wins, else any unknown taints, else missing. */
  function Combine(results: seq<Verdict>): Verdict {
    if Found in results then Found else if Unknown in results then Unknown else Missing
  }

  /** Presence on a union is definite only when every branch agrees. */
  function Agree(results: seq<Verdict>): Verdict {
    if forall r <- results :: r == Found then Found
    else if forall r <- results :: r == Missing then Missing
    else Unknown
  }

  /** The walk from a type node: `seen` is shared with every branch and only grows. `None` means the walk did not return within `fuel` nested calls. */
  function LookupType(w: World, file: string, t: Type, steps: seq<Step>, seen: set<Key>, fuel: nat): (r: Option<Answer>)
    ensures r.Some? ==> seen <= r.value.seen
    decreases fuel, 0
  {
    if fuel == 0 then None
    else if steps == [] then Some(Answer(Found, seen, false))
    else
      match t
      case Literal(members) =>
        if steps[0].Elem? then Some(Answer(Unknown, seen, false))
        else
          var own := FindProperty(members, steps[0].name);
          if own.None? then Some(Answer(Missing, seen, false))
          else LookupProperty(w, file, own.value, steps, seen, fuel - 1)
      case Paren(inner) => LookupType(w, file, inner, steps, seen, fuel - 1)
      case Operator(inner) => LookupType(w, file, inner, steps, seen, fuel - 1)
      case Intersection(parts) =>
        var r := LookupParts(w, file, parts, steps, seen, fuel - 1);
        if r.None? then None else Some(Answer(Combine(r.value.verdicts), r.value.seen, r.value.bailed))
      case Union(parts) =>
        var r := LookupParts(w, file, parts, steps, seen, fuel - 1);
        if r.None? then None else Some(Answer(Agree(r.value.verdicts), r.value.seen, r.value.bailed))
      case ArrayOf(elem) =>
        if steps[0].Elem? then LookupType(w, file, elem, steps[1..], seen, fuel - 1)
        else Some(Answer(Unknown, seen, false))
      case Indexed(owner, key) =>
        if key.Some? then LookupType(w, file, owner, [Member(key.value)] + steps, seen, fuel - 1)
        else Some(Answer(Unknown, seen, false))
      case Ref(head, qualified, args) =>
        if head in PASSTHROUGH_WRAPPERS && args != [] then LookupType(w, file, args[0], steps, seen, fuel - 1)
        else if head in ARRAY_WRAPPERS && args != [] then
          if steps[0].Elem? then LookupType(w, file, args[0], steps[1..], seen, fuel - 1)
          else Some(Answer(Unknown, seen, false))
        else if qualified then Some(Answer(Unknown, seen, false))
        else
          var target := Resolve(w, file, head);
          if target.None? then Some(Answer(Unknown, seen, false))
          else LookupDecl(w, target.value, steps, seen, fuel - 1)
      case Opaque => Some(Answer(Unknown, seen, false))
  }

  /** The walk from a declaration: the only place the guard looks. */
  function LookupDecl(w: World, id: DeclId, steps: seq<Step>, seen: set<Key>, fuel: nat): (r: Option<Answer>)
    requires id in w.decls
    ensures r.Some? ==> seen <= r.value.seen
    decreases fuel, 0
  {
    var decl := w.decls[id];
    if fuel == 0 then None
    else if steps == [] then Some(Answer(Found, seen, false))
    else if decl.body.Enum? then Some(Answer(Unknown, seen, false))
    else if (id, |steps|) in seen then Some(Answer(Unknown, seen, true))
    else
      var marked := seen + {(id, |steps|)};
      match decl.body
      case Interface(members, bases) =>
        if steps[0].Elem? then Some(Answer(Unknown, marked, false))
        else
          var own := FindProperty(members, steps[0].name);
          if own.Some? then LookupProperty(w, decl.file, own.value, steps, marked, fuel - 1)
          else
            var r := LookupBases(w, decl.file, bases, steps, marked, fuel - 1);
            if r.None? then None else Some(Answer(Combine(r.value.verdicts), r.value.seen, r.value.bailed))
      case Alias(aliased) => LookupType(w, decl.file, aliased, steps, marked, fuel - 1)
  }

  /** `intoMembers`, once the property is found. */
  function LookupProperty(w: World, file: string, p: Element, steps: seq<Step>, seen: set<Key>, fuel: nat): (r: Option<Answer>)
    requires p.Property? && steps != []
    ensures r.Some? ==> seen <= r.value.seen
    decreases fuel, 1
  {
    if |steps| == 1 then Some(Answer(Found, seen, false))
    else if p.declared.None? then Some(Answer(Unknown, seen, false))
    else LookupType(w, file, p.declared.value, steps[1..], seen, fuel)
  }

  /** The branches of a union or intersection, left to right over one shared `seen`. */
  function LookupParts(w: World, file: string, parts: seq<Type>, steps: seq<Step>, seen: set<Key>, fuel: nat): (r: Option<Answers>)
    ensures r.Some? ==> |r.value.verdicts| == |parts| && seen <= r.value.seen
    decreases fuel, |parts| + 1
  {
    if parts == [] then Some(Answers([], seen, false))
    else
      var first := LookupType(w, file, parts[0], steps, seen, fuel);
      if first.None? then None
      else
        var rest := LookupParts(w, file, parts[1..], steps, first.value.seen, fuel);
        if rest.None? then None
        else Some(Answers([first.value.verdict] + rest.value.verdicts, rest.value.seen, first.value.bailed || rest.value.bailed))
  }

  /** One base of an interface. */
  function LookupBase(w: World, file: string, base: Base, steps: seq<Step>, seen: set<Key>, fuel: nat): (r: Option<Answer>)
    ensures r.Some? ==> seen <= r.value.seen
    decreases fuel, 1
  {
    var target := if base.NamedBase? then Resolve(w, file, base.name) else None;
    if target.None? then Some(Answer(Unknown, seen, false))
    else LookupDecl(w, target.value, steps, seen, fuel)
  }

  function LookupBases(w: World, file: string, bases: seq<Base>, steps: seq<Step>, seen: set<Key>, fuel: nat): (r: Option<Answers>)
    ensures r.Some? ==> |r.value.verdicts| == |bases| && seen <= r.value.seen
    decreases fuel, |bases| + 1
  {
    if bases == [] then Some(Answers([], seen, false))
    else
      var first := LookupBase(w, file, bases[0], steps, seen, fuel);
      if first.None? then None
      else
        var rest := LookupBases(w, file, bases[1..], steps, first.value.seen, fuel);
        if rest.None? then None
        else Some(Answers([first.value.verdict] + rest.value.verdicts, rest.value.seen, first.value.bailed || rest.value.bailed))
  }
}
