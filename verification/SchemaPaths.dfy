/** Schema key paths of `scripts/gen-config-catalog.ts`: `parsePath`, the paths `walkSchemaExpr`
    emits, and what a reported path means. */
module SchemaPaths {
  import opened TypeLookup
  import opened TypePresence

  // ------------------------------------------------------------------ parsePath

  /** `path.split('.')`. */
  function Split(s: string): (r: seq<string>)
    ensures r != [] && forall seg <- r :: '.' !in seg
  {
    if s == "" then [""]
    else
      var r := Split(s[1..]);
      if s[0] == '.' then [""] + r else [[s[0]] + r[0]] + r[1..]
  }

  predicate EndsInArray(s: string) {
    |s| >= 2 && s[|s| - 2] == '[' && s[|s| - 1] == ']'
  }

  function Hops(n: nat): seq<Step> {
    seq(n, i => Elem)
  }

  /** One segment: its name, then one hop per trailing `[]`. */
  function SegmentSteps(seg: string): (r: seq<Step>)
    ensures r != [] && r[0].Member?
  {
    if EndsInArray(seg) then SegmentSteps(seg[..|seg| - 2]) + [Elem] else [Member(seg)]
  }

  function StepsOf(segs: seq<string>): seq<Step> {
    if segs == [] then [] else SegmentSteps(segs[0]) + StepsOf(segs[1..])
  }

  function Parse(path: string): seq<Step> {
    StepsOf(Split(path))
  }

  /** The body of the outer loop: strip the trailing `[]`s, then push the name and the hops. */
  method ParseSegment(seg: string) returns (steps: seq<Step>)
    ensures steps == SegmentSteps(seg)
  {
    var name, arrays := seg, 0;
    while EndsInArray(name)
      invariant SegmentSteps(name) + Hops(arrays) == SegmentSteps(seg)
      decreases |name|
    {
      assert SegmentSteps(name) + Hops(arrays) == SegmentSteps(name[..|name| - 2]) + Hops(arrays + 1);
      name, arrays := name[..|name| - 2], arrays + 1;
    }
    steps := [Member(name)];
    for i := 0 to arrays
      invariant steps == [Member(name)] + Hops(i)
    {
      steps := steps + [Elem];
    }
  }

  method ParsePath(path: string) returns (steps: seq<Step>)
    ensures steps == Parse(path)
  {
    hide SegmentSteps;
    steps := [];
    var segs := Split(path);
    for k := 0 to |segs|
      invariant steps + StepsOf(segs[k..]) == Parse(path)
    {
      var here := ParseSegment(segs[k]);
      assert segs[k..][1..] == segs[k + 1..];
      assert steps + (here + StepsOf(segs[k + 1..])) == (steps + here) + StepsOf(segs[k + 1..]);
      steps := steps + here;
    }
  }

  // ----------------------------------------------------------- and its inverse

  function PrintStep(step: Step): string {
    match step case Member(name) => "." + name case Elem => "[]"
  }

  function PrintRest(steps: seq<Step>): string {
    if steps == [] then "" else PrintStep(steps[0]) + PrintRest(steps[1..])
  }

  /** How a step list is written: names joined by dots, `[]` for each hop. */
  function Print(steps: seq<Step>): string
    requires steps != [] && steps[0].Member?
  {
    steps[0].name + PrintRest(steps[1..])
  }

  /** A name that parsing leaves whole. */
  predicate PlainName(name: string) {
    '.' !in name && !EndsInArray(name)
  }

  predicate Canonical(steps: seq<Step>) {
    steps != [] && steps[0].Member? && forall s <- steps :: s.Member? ==> PlainName(s.name)
  }

  lemma Reassociate(a: string, b: string, c: string)
    ensures (a + b) + c == a + (b + c)
  {
  }

  lemma {:induction false} PrintRestAppend(a: seq<Step>, b: seq<Step>)
    ensures PrintRest(a + b) == PrintRest(a) + PrintRest(b)
  {
    if a == [] {
      assert a + b == b;
    } else {
      hide PrintStep;
      PrintRestAppend(a[1..], b);
      assert (a + b)[0] == a[0] && (a + b)[1..] == a[1..] + b;
      Reassociate(PrintStep(a[0]), PrintRest(a[1..]), PrintRest(b));
    }
  }

  lemma PrintAppend(a: seq<Step>, b: seq<Step>)
    requires a != [] && a[0].Member?
    ensures Print(a + b) == Print(a) + PrintRest(b)
  {
    assert (a + b)[1..] == a[1..] + b;
    PrintRestAppend(a[1..], b);
  }

  lemma {:induction false} PrintSegment(seg: string)
    ensures Print(SegmentSteps(seg)) == seg
  {
    if EndsInArray(seg) {
      var inner := seg[..|seg| - 2];
      PrintSegment(inner);
      PrintAppend(SegmentSteps(inner), [Elem]);
      assert PrintRest([Elem]) == "[]" + PrintRest([]);
      assert seg == inner + "[]";
    }
  }

  function Join(segs: seq<string>): string
    requires segs != []
  {
    if |segs| == 1 then segs[0] else segs[0] + "." + Join(segs[1..])
  }

  lemma {:induction false} JoinSplit(s: string)
    ensures Join(Split(s)) == s
  {
    if s != "" {
      JoinSplit(s[1..]);
      var r := Split(s[1..]);
      if s[0] == '.' {
        assert ([""] + r)[1..] == r;
      } else {
        assert ([[s[0]] + r[0]] + r[1..])[1..] == r[1..];
        assert Join(Split(s)) == [s[0]] + Join(r);
      }
      assert s == [s[0]] + s[1..];
    }
  }

  lemma {:induction false} PrintSteps(segs: seq<string>)
    requires segs != []
    ensures StepsOf(segs) != [] && StepsOf(segs)[0].Member? && Print(StepsOf(segs)) == Join(segs)
  {
    var head := SegmentSteps(segs[0]);
    PrintSegment(segs[0]);
    if |segs| == 1 {
      assert StepsOf(segs[1..]) == [];
      assert StepsOf(segs) == head;
    } else {
      var rest := StepsOf(segs[1..]);
      PrintSteps(segs[1..]);
      PrintAppend(head, rest);
      assert PrintRest(rest) == "." + Print(rest);
    }
  }

  /** Printing what was parsed gives the path back, for every string. */
  lemma PrintParse(path: string)
    ensures Canonical(Parse(path)) && Print(Parse(path)) == path
  {
    JoinSplit(path);
    PrintSteps(Split(path));
    StepsAreCanonical(Split(path));
  }

  lemma {:induction false} SegmentIsPlain(seg: string)
    requires '.' !in seg
    ensures forall s <- SegmentSteps(seg) :: s.Member? ==> PlainName(s.name)
  {
    if EndsInArray(seg) { SegmentIsPlain(seg[..|seg| - 2]); }
  }

  lemma {:induction false} StepsAreCanonical(segs: seq<string>)
    requires forall seg <- segs :: '.' !in seg
    ensures forall s <- StepsOf(segs) :: s.Member? ==> PlainName(s.name)
  {
    if segs != [] {
      SegmentIsPlain(segs[0]);
      StepsAreCanonical(segs[1..]);
    }
  }

  lemma {:induction false} SplitPlain(head: string, tail: string)
    requires '.' !in head
    ensures Split(head + tail) == [head + Split(tail)[0]] + Split(tail)[1..]
  {
    if head == "" {
      assert head + tail == tail;
      assert head + Split(tail)[0] == Split(tail)[0];
      assert Split(tail) == [Split(tail)[0]] + Split(tail)[1..];
    } else {
      assert (head + tail)[1..] == head[1..] + tail;
      SplitPlain(head[1..], tail);
      var r := Split(head[1..] + tail);
      assert [head[0]] + r[0] == head + Split(tail)[0] by { assert head == [head[0]] + head[1..]; }
      assert r[1..] == Split(tail)[1..];
    }
  }

  /** `seg` is a whole segment's text so far and `rest` the steps still to come: parsing picks up
      the pending hops and then the further members. */
  lemma {:induction false} ParseOnward(seg: string, rest: seq<Step>)
    requires '.' !in seg && forall s <- rest :: s.Member? ==> PlainName(s.name)
    ensures Parse(seg + PrintRest(rest)) == SegmentSteps(seg) + rest
    decreases rest
  {
    hide PrintStep, Split, EndsInArray;
    if rest == [] {
      assert seg + PrintRest(rest) == seg;
      PlainSegment(seg);
      assert SegmentSteps(seg) + rest == SegmentSteps(seg);
    } else {
      match rest[0]
      case Elem =>
        LongerSegment(seg);
        ParseOnward(seg + "[]", rest[1..]);
        assert PrintStep(Elem) == "[]" by { PrintedHop(); }
        Reassociate(seg, "[]", PrintRest(rest[1..]));
        assert (SegmentSteps(seg) + [Elem]) + rest[1..] == SegmentSteps(seg) + rest;
      case Member(name) =>
        ParseOnward(name, rest[1..]);
        ParseAfterDot(seg, name + PrintRest(rest[1..]));
        assert PrintStep(rest[0]) == "." + name by { PrintedMember(name); }
        Reassociate(".", name, PrintRest(rest[1..]));
        PlainNameSteps(name);
        assert [Member(name)] + rest[1..] == rest;
    }
  }

  lemma PrintedHop()
    ensures PrintStep(Elem) == "[]"
  {
  }

  lemma PrintedMember(name: string)
    ensures PrintStep(Member(name)) == "." + name
  {
  }

  lemma PlainNameSteps(name: string)
    requires PlainName(name)
    ensures SegmentSteps(name) == [Member(name)]
  {
  }

  lemma PlainSegment(seg: string)
    requires '.' !in seg
    ensures Parse(seg) == SegmentSteps(seg)
  {
    SplitPlain(seg, "");
    assert seg + "" == seg;
    assert Split(seg) == [seg];
    assert StepsOf([seg]) == SegmentSteps(seg) + StepsOf([]);
  }

  lemma LongerSegment(seg: string)
    requires '.' !in seg
    ensures '.' !in seg + "[]" && SegmentSteps(seg + "[]") == SegmentSteps(seg) + [Elem]
  {
    assert (seg + "[]")[..|seg + "[]"| - 2] == seg;
  }

  lemma ParseAfterDot(seg: string, tail: string)
    requires '.' !in seg
    ensures Parse(seg + ("." + tail)) == SegmentSteps(seg) + Parse(tail)
  {
    var after := "." + tail;
    SplitPlain(seg, after);
    assert after[1..] == tail;
    assert Split(after) == [""] + Split(tail);
    assert seg + "" == seg;
    var segs := [seg] + Split(tail);
    assert Split(seg + after) == segs;
    assert segs[1..] == Split(tail);
  }

  /** Parsing what was printed gives the steps back exactly for canonical step lists. */
  lemma ParsePrint(steps: seq<Step>)
    requires steps != [] && steps[0].Member?
    ensures Parse(Print(steps)) == steps <==> Canonical(steps)
  {
    if Canonical(steps) {
      ParseOnward(steps[0].name, steps[1..]);
      assert [steps[0]] + steps[1..] == steps;
    }
    PrintParse(Print(steps));
  }

  // ------------------------------------------------------------- walkSchemaExpr

  /** A schema expression. `Call` is a call of a property access, `receiver.method(args)`. */
  datatype Expr =
    | Wrapped(inner: Expr)
    | Call(receiver: Expr, callee: string, args: seq<Expr>)
    | PlainCall
    | ObjectLit(props: seq<Prop>)
    | ArrayLit(elems: seq<Expr>)
    | ConfigOf(local: string)
    | OtherExpr

  datatype Prop = Assign(key: string, init: Expr) | Shorthand(key: string) | OtherProp

  /** `as`, `satisfies` and parentheses fall away. */
  function Unwrap(e: Expr): (r: Expr)
    ensures !r.Wrapped? && (r == e || r < e)
  {
    if e.Wrapped? then Unwrap(e.inner) else e
  }

  /** `collectValuePaths`: the nested paths under one property's value. */
  function ValuePaths(value: Expr, base: string): seq<string>
    decreases value
  {
    var call := Unwrap(value);
    if !call.Call? then []
    else if call.callee == "object" && call.args != [] && call.args[0].ObjectLit? then PropPaths(call.args[0].props, base)
    else if call.callee == "array" && call.args != [] then ValuePaths(call.args[0], base + "[]")
    else ValuePaths(call.receiver, base)
  }

  function PropPaths(props: seq<Prop>, base: string): seq<string>
    decreases props, 1
  {
    if props == [] then [] else OnePropPaths(props[0], base) + PropPaths(props[1..], base)
  }

  function OnePropPaths(p: Prop, base: string): seq<string>
    decreases p, 0
  {
    if p.Assign? then [base + "." + p.key] + ValuePaths(p.init, base + "." + p.key) else []
  }

  /** The schema nests a property at `steps` below `value`. */
  ghost predicate Nests(value: Expr, steps: seq<Step>)
    decreases value
  {
    var call := Unwrap(value);
    call.Call? && steps != [] &&
    if call.callee == "object" && call.args != [] && call.args[0].ObjectLit? then PropNests(call.args[0].props, steps)
    else if call.callee == "array" && call.args != [] then steps[0].Elem? && Nests(call.args[0], steps[1..])
    else Nests(call.receiver, steps)
  }

  ghost predicate PropNests(props: seq<Prop>, steps: seq<Step>)
    decreases props
  {
    exists p <- props :: OnePropNests(p, steps)
  }

  ghost predicate OnePropNests(p: Prop, steps: seq<Step>)
    decreases p
  {
    && p.Assign? && steps != [] && steps[0] == Member(p.key)
    && (|steps| == 1 || Nests(p.init, steps[1..]))
  }

  /** `path` is written for `base` followed by some nested position. */
  ghost predicate Emits(value: Expr, base: seq<Step>, path: string)
    requires base != [] && base[0].Member?
  {
    exists steps :: Nests(value, steps) && path == Print(base + steps)
  }

  ghost predicate PropEmits(props: seq<Prop>, base: seq<Step>, path: string)
    requires base != [] && base[0].Member?
  {
    exists steps :: PropNests(props, steps) && path == Print(base + steps)
  }

  lemma PrintedElement(base: seq<Step>)
    requires base != [] && base[0].Member?
    ensures Print(base + [Elem]) == Print(base) + "[]"
  {
    PrintAppend(base, [Elem]);
    assert PrintRest([Elem]) == "[]";
  }

  /** `value` is an array of `elem`: what it nests, it nests one hop further down. */
  ghost predicate NestsBelow(value: Expr, elem: Expr) {
    forall steps: seq<Step> :: Nests(value, steps) <==> steps != [] && steps[0].Elem? && Nests(elem, steps[1..])
  }

  lemma HopBehind<T>(base: seq<T>, hop: T, steps: seq<T>)
    ensures base + [hop] + steps == base + ([hop] + steps) && ([hop] + steps)[1..] == steps
  {
  }

  lemma ElementUp(value: Expr, elem: Expr, base: seq<Step>, steps: seq<Step>)
    requires base != [] && base[0].Member? && NestsBelow(value, elem) && Nests(elem, steps)
    ensures Emits(value, base, Print(base + [Elem] + steps))
  {
    hide Print, Nests;
    HopBehind(base, Elem, steps);
    assert Nests(value, [Elem] + steps);
  }

  lemma ElementDown(value: Expr, elem: Expr, base: seq<Step>, steps: seq<Step>)
    requires base != [] && base[0].Member? && NestsBelow(value, elem) && Nests(value, steps)
    ensures Emits(elem, base + [Elem], Print(base + steps))
  {
    hide Print, Nests;
    HopBehind(base, Elem, steps[1..]);
    assert [Elem] + steps[1..] == steps;
  }

  /** Below an array everything sits one hop further down. */
  lemma ElementEmits(value: Expr, elem: Expr, base: seq<Step>, path: string)
    requires base != [] && base[0].Member? && NestsBelow(value, elem)
    ensures Emits(elem, base + [Elem], path) <==> Emits(value, base, path)
  {
    if Emits(elem, base + [Elem], path) {
      var steps: seq<Step> :| Nests(elem, steps) && path == Print(base + [Elem] + steps);
      hide Print, Nests, Emits, NestsBelow;
      ElementUp(value, elem, base, steps);
    }
    if Emits(value, base, path) {
      var steps: seq<Step> :| Nests(value, steps) && path == Print(base + steps);
      hide Print, Nests, Emits, NestsBelow;
      ElementDown(value, elem, base, steps);
    }
  }

  /** The paths emitted for a value are exactly those of the positions where the schema nests one. */
  lemma {:induction false} ValuePathsExact(value: Expr, base: seq<Step>, path: string)
    requires base != [] && base[0].Member?
    ensures path in ValuePaths(value, Print(base)) <==> Emits(value, base, path)
    decreases value
  {
    hide Print;
    var call := Unwrap(value);
    if call.Call? {
      if call.callee == "object" && call.args != [] && call.args[0].ObjectLit? {
        PropPathsExact(call.args[0].props, base, path);
        assert forall steps :: Nests(value, steps) <==> PropNests(call.args[0].props, steps);
      } else if call.callee == "array" && call.args != [] {
        PrintedElement(base);
        ValuePathsExact(call.args[0], base + [Elem], path);
        ElementEmits(value, call.args[0], base, path);
      } else {
        ValuePathsExact(call.receiver, base, path);
        assert forall steps :: Nests(value, steps) <==> Nests(call.receiver, steps) by {
          forall steps ensures Nests(value, steps) <==> Nests(call.receiver, steps) {
            if steps == [] { assert !Nests(call.receiver, steps); }
          }
        }
      }
    }
  }

  lemma PrintedDeeper(base: seq<Step>, key: string)
    requires base != [] && base[0].Member?
    ensures Print(base + [Member(key)]) == Print(base) + "." + key
  {
    PrintAppend(base, [Member(key)]);
    assert PrintRest([Member(key)]) == "." + key;
  }

  lemma {:induction false} OnePropPathsExact(p: Prop, base: seq<Step>, path: string)
    requires base != [] && base[0].Member?
    ensures path in OnePropPaths(p, Print(base)) <==> exists steps :: OnePropNests(p, steps) && path == Print(base + steps)
    decreases p, 0
  {
    if p.Assign? {
      var m := Member(p.key);
      var here := base + [m];
      PrintedDeeper(base, p.key);
      hide Print, ValuePaths, Nests;
      ValuePathsExact(p.init, here, path);
      if path == Print(here) {
        assert OnePropNests(p, [m]);
      }
      if Emits(p.init, here, path) {
        var steps: seq<Step> :| Nests(p.init, steps) && path == Print(here + steps);
        assert ([m] + steps)[1..] == steps && here + steps == base + ([m] + steps);
        assert OnePropNests(p, [m] + steps);
      }
      forall steps | OnePropNests(p, steps) && path == Print(base + steps)
        ensures path in OnePropPaths(p, Print(base))
      {
        assert base + steps == here + steps[1..];
        if |steps| == 1 { assert here + steps[1..] == here; }
      }
    }
  }

  lemma {:induction false} PropPathsExact(props: seq<Prop>, base: seq<Step>, path: string)
    requires base != [] && base[0].Member?
    ensures path in PropPaths(props, Print(base)) <==> PropEmits(props, base, path)
    decreases props, 1
  {
    hide OnePropNests, OnePropPaths, Print;
    if props != [] {
      OnePropPathsExact(props[0], base, path);
      PropPathsExact(props[1..], base, path);
      assert forall steps :: PropNests(props, steps) <==> OnePropNests(props[0], steps) || PropNests(props[1..], steps);
    }
  }

  // ------------------------------------------------------------- the top level

  datatype Violation = NotWalkable | NotPlainKey | BadElement | NoBase

  datatype Walk = Walk(keys: seq<string>, composes: seq<string>, violations: seq<Violation>)

  function Then(a: Walk, b: Walk): Walk {
    Walk(a.keys + b.keys, a.composes + b.composes, a.violations + b.violations)
  }

  const EMPTY_WALK := Walk([], [], [])

  function Reject(v: Violation): Walk {
    Walk([], [], [v])
  }

  lemma ThenThen(a: Walk, b: Walk, c: Walk)
    ensures Then(Then(a, b), c) == Then(a, Then(b, c))
  {
  }

  lemma ThenNothing(a: Walk)
    ensures Then(a, EMPTY_WALK) == a && Then(EMPTY_WALK, a) == a
  {
  }

  /** `visit`. `imports` maps a local name to the workspace package it is imported from. */
  function Visit(e: Expr, imports: map<string, string>): Walk
    decreases e, 0
  {
    var call := Unwrap(e);
    if !call.Call? then Reject(NotWalkable)
    else if call.callee == "object" && call.args != [] && call.args[0].ObjectLit? then VisitProps(call.args[0].props)
    else if call.callee == "intersect" && call.args != [] && call.args[0].ArrayLit? then
      VisitElems(call.args[0].elems, imports, true)
    else if call.callee == "union" && call.args != [] && call.args[0].ArrayLit? then
      VisitElems(call.args[0].elems, imports, false)
    else
      var base := Unwrap(call.receiver);
      if base.Call? || base.PlainCall? then Visit(call.receiver, imports) else Reject(NoBase)
  }

  function VisitProp(p: Prop): Walk {
    match p
    case Assign(key, init) => Walk([key] + ValuePaths(init, key), [], [])
    case Shorthand(key) => Walk([key], [], [])
    case OtherProp => Reject(NotPlainKey)
  }

  function VisitProps(props: seq<Prop>): Walk {
    if props == [] then EMPTY_WALK else Then(VisitProp(props[0]), VisitProps(props[1..]))
  }

  /** The elements of an `intersect` (strict) or `union` (lenient) array. */
  function VisitElems(elems: seq<Expr>, imports: map<string, string>, strict: bool): Walk
    decreases elems
  {
    if elems == [] then EMPTY_WALK
    else Then(VisitElem(elems[0], imports, strict), VisitElems(elems[1..], imports, strict))
  }

  function VisitElem(elem: Expr, imports: map<string, string>, strict: bool): Walk
    decreases elem, 1
  {
    var part := Unwrap(elem);
    if strict && part.ConfigOf? && part.local in imports then Walk([], [imports[part.local]], [])
    else if part.Call? || part.PlainCall? then Visit(elem, imports)
    else if strict then Reject(BadElement) else EMPTY_WALK
  }

  /** The schema accepts a value at `steps`. */
  ghost predicate Accepts(e: Expr, steps: seq<Step>)
    decreases e
  {
    var call := Unwrap(e);
    call.Call? &&
    if call.callee == "object" && call.args != [] && call.args[0].ObjectLit? then
      exists p <- call.args[0].props :: PropAccepts(p, steps)
    else if call.callee in {"intersect", "union"} && call.args != [] && call.args[0].ArrayLit? then
      exists part <- call.args[0].elems :: Accepts(part, steps)
    else Accepts(call.receiver, steps)
  }

  ghost predicate PropAccepts(p: Prop, steps: seq<Step>) {
    && !p.OtherProp? && steps != [] && steps[0] == Member(p.key)
    && (|steps| == 1 || (p.Assign? && Nests(p.init, steps[1..])))
  }

  ghost predicate WrittenFor(path: string, steps: seq<Step>) {
    steps != [] && steps[0].Member? && path == Print(steps)
  }

  lemma {:induction false} VisitPropExact(p: Prop, path: string)
    ensures path in VisitProps([p]).keys <==> exists steps :: PropAccepts(p, steps) && WrittenFor(path, steps)
  {
    assert VisitProps([p]).keys ==
      match p case Assign(key, init) => [key] + ValuePaths(init, key) case Shorthand(key) => [key] case OtherProp => []
    by { assert VisitProps([p][1..]) == EMPTY_WALK; }
    if !p.OtherProp? {
      var m := Member(p.key);
      assert Print([m]) == p.key + PrintRest([]);
      assert Print([m]) == p.key;
      if path == p.key { assert PropAccepts(p, [m]) && WrittenFor(path, [m]); }
      forall steps | PropAccepts(p, steps) && WrittenFor(path, steps) ensures path in VisitProps([p]).keys {
        if |steps| == 1 { assert steps == [m]; }
        else { assert steps == [m] + steps[1..]; assert Emits(p.init, [m], path) by { assert Nests(p.init, steps[1..]); } ValuePathsExact(p.init, [m], path); }
      }
      if p.Assign? {
        ValuePathsExact(p.init, [m], path);
        if Emits(p.init, [m], path) {
          var rest: seq<Step> :| Nests(p.init, rest) && path == Print([m] + rest);
          assert ([m] + rest)[1..] == rest;
          assert PropAccepts(p, [m] + rest) && WrittenFor(path, [m] + rest);
        }
      }
    }
  }

  lemma {:induction false} VisitPropsExact(props: seq<Prop>, path: string)
    ensures path in VisitProps(props).keys <==>
            exists steps :: (exists p <- props :: PropAccepts(p, steps)) && WrittenFor(path, steps)
  {
    hide PropAccepts, WrittenFor;
    if props != [] {
      VisitPropExact(props[0], path);
      VisitPropsExact(props[1..], path);
      assert VisitProps([props[0]][1..]) == EMPTY_WALK;
      assert path in VisitProps(props).keys <==> path in VisitProps([props[0]]).keys || path in VisitProps(props[1..]).keys;
      assert forall p :: p in props <==> p == props[0] || p in props[1..];
    }
  }

  /** The walk reports exactly the key paths the schema accepts, through refinements, intersections
      and unions. */
  lemma {:induction false} VisitExact(e: Expr, imports: map<string, string>, path: string)
    ensures path in Visit(e, imports).keys <==> exists steps :: Accepts(e, steps) && WrittenFor(path, steps)
    decreases e
  {
    hide WrittenFor, PropAccepts;
    var call := Unwrap(e);
    if call.Call? {
      if call.callee == "object" && call.args != [] && call.args[0].ObjectLit? {
        VisitPropsExact(call.args[0].props, path);
        assert forall steps :: Accepts(e, steps) <==> exists p <- call.args[0].props :: PropAccepts(p, steps);
      } else if call.callee in {"intersect", "union"} && call.args != [] && call.args[0].ArrayLit? {
        VisitElemsExact(call.args[0].elems, imports, call.callee == "intersect", path);
        assert forall steps :: Accepts(e, steps) <==> exists part <- call.args[0].elems :: Accepts(part, steps);
      } else {
        VisitExact(call.receiver, imports, path);
        assert forall steps :: Accepts(e, steps) <==> Accepts(call.receiver, steps);
      }
    }
  }

  lemma {:induction false} VisitElemsExact(elems: seq<Expr>, imports: map<string, string>, strict: bool, path: string)
    ensures path in VisitElems(elems, imports, strict).keys <==>
            exists steps :: (exists part <- elems :: Accepts(part, steps)) && WrittenFor(path, steps)
    decreases elems
  {
    hide WrittenFor;
    if elems != [] {
      VisitExact(elems[0], imports, path);
      VisitElemsExact(elems[1..], imports, strict, path);
      assert forall part :: part in elems <==> part == elems[0] || part in elems[1..];
    }
  }

  /** Properties are walked in source order, each key before the paths nested under it. */
  lemma {:induction false} PropsInOrder(a: seq<Prop>, b: seq<Prop>)
    ensures VisitProps(a + b).keys == VisitProps(a).keys + VisitProps(b).keys
    ensures |a| == 1 && !a[0].OtherProp? ==> VisitProps(a).keys != [] && VisitProps(a).keys[0] == a[0].key
  {
    hide ValuePaths;
    if a == [] {
      assert a + b == b;
    } else {
      assert (a + b)[1..] == a[1..] + b;
      PropsInOrder(a[1..], b);
    }
  }

  /** And so are the elements of an intersection or a union. */
  lemma {:induction false} ElemsInOrder(a: seq<Expr>, b: seq<Expr>, imports: map<string, string>, strict: bool)
    ensures VisitElems(a + b, imports, strict) == Then(VisitElems(a, imports, strict), VisitElems(b, imports, strict))
  {
    hide VisitElem, Then;
    if a == [] {
      assert a + b == b;
      ThenNothing(VisitElems(b, imports, strict));
    } else {
      assert (a + b)[1..] == a[1..] + b;
      ElemsInOrder(a[1..], b, imports, strict);
      ThenThen(VisitElem(a[0], imports, strict), VisitElems(a[1..], imports, strict), VisitElems(b, imports, strict));
    }
  }

  // --------------------------------------------- what the walk composes and rejects

  predicate IsCall(e: Expr) {
    Unwrap(e).Call? || Unwrap(e).PlainCall?
  }

  /** `X.Config` of a workspace package. */
  predicate ConfigFrom(e: Expr, imports: map<string, string>, package: string) {
    var part := Unwrap(e);
    part.ConfigOf? && part.local in imports && imports[part.local] == package
  }

  predicate IsImported(e: Expr, imports: map<string, string>) {
    Unwrap(e).ConfigOf? && Unwrap(e).local in imports
  }

  /** Somewhere down the schema the package's `Config` is an element of an intersection. */
  ghost predicate Composes(e: Expr, imports: map<string, string>, package: string)
    decreases e
  {
    var call := Unwrap(e);
    call.Call? &&
    match SchemaForm(call)
    case ObjectForm => false
    case IntersectForm => exists part <- call.args[0].elems :: ConfigFrom(part, imports, package) || Composes(part, imports, package)
    case UnionForm => exists part <- call.args[0].elems :: Composes(part, imports, package)
    case Refinement => Composes(call.receiver, imports, package)
  }

  /** Everything down the schema can be seen: plain keys, calls, and imported configs in intersections. A union may hold
      anything besides. */
  ghost predicate Walkable(e: Expr, imports: map<string, string>)
    decreases e
  {
    var call := Unwrap(e);
    call.Call? &&
    match SchemaForm(call)
    case ObjectForm => forall p <- call.args[0].props :: !p.OtherProp?
    case IntersectForm => forall part <- call.args[0].elems :: IsImported(part, imports) || Walkable(part, imports)
    case UnionForm => forall part <- call.args[0].elems :: IsCall(part) ==> Walkable(part, imports)
    case Refinement => Walkable(call.receiver, imports)
  }

  /** A defect of that kind stands somewhere down the schema. */
  ghost predicate Defect(e: Expr, imports: map<string, string>, v: Violation)
    decreases e
  {
    var call := Unwrap(e);
    if !call.Call? then v == NotWalkable
    else
      match SchemaForm(call)
      case ObjectForm => v == NotPlainKey && OtherProp in call.args[0].props
      case IntersectForm =>
        exists part <- call.args[0].elems ::
          if IsCall(part) then Defect(part, imports, v) else !IsImported(part, imports) && v == BadElement
      case UnionForm => exists part <- call.args[0].elems :: IsCall(part) && Defect(part, imports, v)
      case Refinement => if IsCall(call.receiver) then Defect(call.receiver, imports, v) else v == NoBase
  }

  datatype Form = ObjectForm | IntersectForm | UnionForm | Refinement

  /** `z.object({...})`, `z.intersect([...])`, `z.union([...])`, or a method chained to another call. */
  function SchemaForm(call: Expr): (f: Form)
    requires call.Call?
    ensures f.ObjectForm? ==> call.args != [] && call.args[0].ObjectLit?
    ensures f.IntersectForm? || f.UnionForm? ==> call.args != [] && call.args[0].ArrayLit?
  {
    if call.callee == "object" && call.args != [] && call.args[0].ObjectLit? then ObjectForm
    else if call.callee == "intersect" && call.args != [] && call.args[0].ArrayLit? then IntersectForm
    else if call.callee == "union" && call.args != [] && call.args[0].ArrayLit? then UnionForm
    else Refinement
  }

  /** The walk composes exactly the packages whose configs are intersected. */
  lemma {:induction false} ComposesExact(e: Expr, imports: map<string, string>, package: string)
    ensures package in Visit(e, imports).composes <==> Composes(e, imports, package)
    decreases e, 0
  {
    var call := Unwrap(e);
    if call.Call? {
      match SchemaForm(call)
      case ObjectForm => PropsComposeNothing(call.args[0].props);
      case IntersectForm => ElemsCompose(call.args[0].elems, imports, true, package);
      case UnionForm => ElemsCompose(call.args[0].elems, imports, false, package);
      case Refinement => ComposesExact(call.receiver, imports, package);
    }
  }

  lemma {:induction false} PropsComposeNothing(props: seq<Prop>)
    ensures VisitProps(props).composes == []
  {
    if props != [] { PropsComposeNothing(props[1..]); }
  }

  lemma {:induction false} ElemsCompose(elems: seq<Expr>, imports: map<string, string>, strict: bool, package: string)
    ensures package in VisitElems(elems, imports, strict).composes <==>
            exists part <- elems :: (strict && ConfigFrom(part, imports, package)) || Composes(part, imports, package)
    decreases elems, 1
  {
    if elems != [] {
      ComposesExact(elems[0], imports, package);
      ElemsCompose(elems[1..], imports, strict, package);
      assert forall part :: part in elems <==> part == elems[0] || part in elems[1..];
    }
  }

  /** The walk raises a violation exactly for a defect of its kind. */
  lemma {:induction false} ViolationsExact(e: Expr, imports: map<string, string>, v: Violation)
    ensures v in Visit(e, imports).violations <==> Defect(e, imports, v)
    decreases e, 0
  {
    hide VisitElems, VisitProps, IsImported;
    var call := Unwrap(e);
    if call.Call? {
      match SchemaForm(call)
      case ObjectForm => PropsReject(call.args[0].props, v);
      case IntersectForm => ElemsReject(call.args[0].elems, imports, true, v);
      case UnionForm => ElemsReject(call.args[0].elems, imports, false, v);
      case Refinement => if IsCall(call.receiver) { ViolationsExact(call.receiver, imports, v); }
    }
  }

  lemma {:induction false} PropsReject(props: seq<Prop>, v: Violation)
    ensures v in VisitProps(props).violations <==> v == NotPlainKey && OtherProp in props
  {
    if props != [] {
      PropsReject(props[1..], v);
      assert forall p :: p in props <==> p == props[0] || p in props[1..];
    }
  }

  lemma {:induction false} ElemsReject(elems: seq<Expr>, imports: map<string, string>, strict: bool, v: Violation)
    ensures v in VisitElems(elems, imports, strict).violations <==>
            exists part <- elems ::
              if IsCall(part) then Defect(part, imports, v) else strict && !IsImported(part, imports) && v == BadElement
    decreases elems, 1
  {
    if elems != [] {
      ViolationsExact(elems[0], imports, v);
      ElemsReject(elems[1..], imports, strict, v);
      assert forall part :: part in elems <==> part == elems[0] || part in elems[1..];
    }
  }

  /** No schema is silently thinned: the walk raises nothing exactly when it can see all of the schema. */
  lemma QuietIffWalkable(e: Expr, imports: map<string, string>)
    ensures Visit(e, imports).violations == [] <==> Walkable(e, imports)
  {
    hide Visit, Defect, Walkable;
    var raised := Visit(e, imports).violations;
    if raised != [] {
      assert raised[0] in raised;
      ViolationsExact(e, imports, raised[0]);
      DefectIsSeen(e, imports, raised[0]);
    } else if !Walkable(e, imports) {
      var v := FindDefect(e, imports);
      ViolationsExact(e, imports, v);
    }
  }

  lemma {:induction false} DefectIsSeen(e: Expr, imports: map<string, string>, v: Violation)
    requires Defect(e, imports, v)
    ensures !Walkable(e, imports)
    decreases e
  {
    var call := Unwrap(e);
    if call.Call? {
      match SchemaForm(call)
      case ObjectForm =>
      case Refinement => if IsCall(call.receiver) { DefectIsSeen(call.receiver, imports, v); }
      case _ => forall part <- call.args[0].elems | Defect(part, imports, v) ensures !Walkable(part, imports) { DefectIsSeen(part, imports, v); }
    }
  }

  lemma {:induction false} FindDefect(e: Expr, imports: map<string, string>) returns (v: Violation)
    requires !Walkable(e, imports)
    ensures Defect(e, imports, v)
    decreases e
  {
    var call := Unwrap(e);
    if !call.Call? { return NotWalkable; }
    match SchemaForm(call)
    case ObjectForm => v := NotPlainKey;
    case Refinement => if IsCall(call.receiver) { v := FindDefect(call.receiver, imports); } else { v := NoBase; }
    case IntersectForm =>
      var part :| part in call.args[0].elems && !IsImported(part, imports) && !Walkable(part, imports);
      if IsCall(part) { v := FindDefect(part, imports); } else { v := BadElement; }
    case UnionForm =>
      var part :| part in call.args[0].elems && IsCall(part) && !Walkable(part, imports);
      v := FindDefect(part, imports);
  }

  // ------------------------------------------------------ what a report means

  /** No key of the schema contains a dot or ends in `[]`. */
  predicate PlainExpr(e: Expr)
    decreases e
  {
    match e
    case Wrapped(inner) => PlainExpr(inner)
    case Call(receiver, _, args) => PlainExpr(receiver) && forall a <- args :: PlainExpr(a)
    case ObjectLit(props) => forall p <- props :: PlainProp(p)
    case ArrayLit(elems) => forall x <- elems :: PlainExpr(x)
    case _ => true
  }

  predicate PlainProp(p: Prop)
    decreases p
  {
    match p
    case Assign(key, init) => PlainName(key) && PlainExpr(init)
    case Shorthand(key) => PlainName(key)
    case OtherProp => true
  }

  ghost predicate PlainSteps(steps: seq<Step>) {
    forall s <- steps :: s.Member? ==> PlainName(s.name)
  }

  lemma {:induction false} UnwrapPlain(e: Expr)
    requires PlainExpr(e)
    ensures PlainExpr(Unwrap(e))
  {
    if e.Wrapped? { UnwrapPlain(e.inner); }
  }

  lemma {:induction false} NestsPlain(value: Expr, steps: seq<Step>)
    requires PlainExpr(value) && Nests(value, steps)
    ensures PlainSteps(steps)
    decreases value
  {
    UnwrapPlain(value);
    var call := Unwrap(value);
    assert steps == [steps[0]] + steps[1..];
    if call.callee == "object" && call.args != [] && call.args[0].ObjectLit? {
      assert PlainExpr(call.args[0]);
      var p :| p in call.args[0].props && OnePropNests(p, steps);
      assert PlainProp(p);
      if |steps| > 1 { NestsPlain(p.init, steps[1..]); }
    } else if call.callee == "array" && call.args != [] {
      NestsPlain(call.args[0], steps[1..]);
    } else {
      NestsPlain(call.receiver, steps);
    }
  }

  lemma {:induction false} AcceptsPlain(e: Expr, steps: seq<Step>)
    requires PlainExpr(e) && Accepts(e, steps)
    ensures steps != [] && steps[0].Member? && PlainSteps(steps)
    decreases e
  {
    UnwrapPlain(e);
    var call := Unwrap(e);
    if call.callee == "object" && call.args != [] && call.args[0].ObjectLit? {
      assert PlainExpr(call.args[0]);
      var p :| p in call.args[0].props && PropAccepts(p, steps);
      assert PlainProp(p);
      assert steps == [steps[0]] + steps[1..];
      if |steps| > 1 { NestsPlain(p.init, steps[1..]); }
    } else if call.callee in {"intersect", "union"} && call.args != [] && call.args[0].ArrayLit? {
      assert PlainExpr(call.args[0]);
      var part :| part in call.args[0].elems && Accepts(part, steps);
      AcceptsPlain(part, steps);
    } else {
      AcceptsPlain(call.receiver, steps);
    }
  }

  /** For a schema with plain keys, an emitted path parses to exactly the position it was emitted for. */
  lemma EmittedPathParses(e: Expr, imports: map<string, string>, path: string)
    requires PlainExpr(e)
    ensures path in Visit(e, imports).keys <==> Accepts(e, Parse(path))
  {
    VisitExact(e, imports, path);
    PrintParse(path);
    if path in Visit(e, imports).keys {
      var steps :| Accepts(e, steps) && WrittenFor(path, steps);
      AcceptsPlain(e, steps);
      ParsePrint(steps);
    }
    if Accepts(e, Parse(path)) {
      assert WrittenFor(path, Parse(path));
    }
  }

  /** The schema-path check reports `path` when the walk answers `missing`: then the schema accepts
      that position and no unfolding of the declared config type has it. */
  lemma ReportIsTrue(e: Expr, imports: map<string, string>, w: World, config: DeclId, path: string, fuel: nat)
    requires PlainExpr(e) && path in Visit(e, imports).keys && config in w.decls
    requires LookupDecl(w, config, Parse(path), {}, fuel).Some?
    requires LookupDecl(w, config, Parse(path), {}, fuel).value.verdict == Missing
    ensures Accepts(e, Parse(path)) && !MayHave(w, config, Parse(path))
  {
    EmittedPathParses(e, imports, path);
    VerdictIsSound(w, config, Parse(path), {}, fuel);
  }
}
