/** `walkSchemaExpr` of `scripts/gen-config-catalog.ts` as it runs: recursive closures that append to shared lists. */
module SchemaWalk {
  import opened SchemaPaths

  lemma UnwrapTwice(e: Expr)
    ensures Unwrap(Unwrap(e)) == Unwrap(e)
  {
  }

  lemma VisitUnwrapped(e: Expr, imports: map<string, string>)
    ensures Visit(Unwrap(e), imports) == Visit(e, imports)
  {
    UnwrapTwice(e);
  }

  lemma ValuePathsUnwrapped(e: Expr, base: string)
    ensures ValuePaths(Unwrap(e), base) == ValuePaths(e, base)
  {
    UnwrapTwice(e);
  }

  /** What the closures share: the collected lists, and the file's imports from workspace packages. */
  class Walker {
    const imports: map<string, string>
    var keys: seq<string>
    var composes: seq<string>
    var violations: seq<Violation>

    ghost function Collected(): Walk
      reads this
    {
      Walk(keys, composes, violations)
    }

    constructor (imports: map<string, string>)
      ensures this.imports == imports && Collected() == EMPTY_WALK
    {
      this.imports := imports;
      keys, composes, violations := [], [], [];
    }

    /** `collectValuePaths`. */
    method CollectValuePaths(value: Expr, base: string)
      modifies this`keys
      ensures keys == old(keys) + ValuePaths(value, base)
      decreases value, 1
    {
      var call := Unwrap(value);
      if !call.Call? { return; }
      if call.callee == "object" && call.args != [] && call.args[0].ObjectLit? {
        CollectPropPaths(call.args[0].props, base);
        return;
      }
      if call.callee == "array" && call.args != [] {
        CollectValuePaths(call.args[0], base + "[]");
        return;
      }
      var inner := Unwrap(call.receiver);
      ValuePathsUnwrapped(call.receiver, base);
      if inner.Call? { CollectValuePaths(inner, base); }
    }

    /** Its loop over an object literal's properties. */
    method CollectPropPaths(props: seq<Prop>, base: string)
      modifies this`keys
      ensures keys == old(keys) + PropPaths(props, base)
      decreases props, 0
    {
      ghost var before := keys;
      for i := 0 to |props|
        invariant keys + PropPaths(props[i..], base) == before + PropPaths(props, base)
      {
        var prop := props[i];
        ghost var rest := props[i..];
        assert rest[0] == prop && rest[1..] == props[i + 1..];
        if prop.Assign? {
          keys := keys + [base + "." + prop.key];
          CollectValuePaths(prop.init, base + "." + prop.key);
        }
      }
    }

    /** `visit`. */
    method VisitExpr(e: Expr)
      modifies this
      ensures Collected() == Then(old(Collected()), Visit(e, imports))
      decreases e, 1
    {
      var call := Unwrap(e);
      if !call.Call? {
        violations := violations + [NotWalkable];
        return;
      }
      if call.callee == "object" && call.args != [] && call.args[0].ObjectLit? {
        VisitProperties(call.args[0].props);
        return;
      }
      if call.callee == "intersect" && call.args != [] && call.args[0].ArrayLit? {
        VisitElements(call.args[0].elems, true);
        return;
      }
      if call.callee == "union" && call.args != [] && call.args[0].ArrayLit? {
        VisitElements(call.args[0].elems, false);
        return;
      }
      var base := Unwrap(call.receiver);
      VisitUnwrapped(call.receiver, imports);
      if base.Call? || base.PlainCall? {
        VisitExpr(base);
        return;
      }
      violations := violations + [NoBase];
    }

    method VisitProperties(props: seq<Prop>)
      modifies this
      ensures Collected() == Then(old(Collected()), VisitProps(props))
    {
      hide Then, VisitProp;
      ghost var before := Collected();
      ThenNothing(before);
      for i := 0 to |props|
        invariant Then(Collected(), VisitProps(props[i..])) == Then(before, VisitProps(props))
      {
        ghost var here, rest := Collected(), props[i..];
        assert rest[0] == props[i] && rest[1..] == props[i + 1..];
        ThenThen(here, VisitProp(props[i]), VisitProps(rest[1..]));
        VisitProperty(props[i]);
      }
      ThenNothing(Collected());
    }

    method VisitProperty(prop: Prop)
      modifies this
      ensures Collected() == Then(old(Collected()), VisitProp(prop))
    {
      match prop
      case Assign(key, init) =>
        keys := keys + [key];
        CollectValuePaths(init, key);
      case Shorthand(key) => keys := keys + [key];
      case OtherProp => violations := violations + [NotPlainKey];
    }

    /** The loops over the elements of an `intersect` (strict) or a `union`. */
    method VisitElements(elems: seq<Expr>, strict: bool)
      modifies this
      ensures Collected() == Then(old(Collected()), VisitElems(elems, imports, strict))
      decreases elems, 0
    {
      hide Then, VisitElem;
      ghost var before := Collected();
      ThenNothing(before);
      for i := 0 to |elems|
        invariant Then(Collected(), VisitElems(elems[i..], imports, strict)) == Then(before, VisitElems(elems, imports, strict))
      {
        ghost var here, rest := Collected(), elems[i..];
        assert rest[0] == elems[i] && rest[1..] == elems[i + 1..];
        ThenThen(here, VisitElem(elems[i], imports, strict), VisitElems(rest[1..], imports, strict));
        VisitElement(elems[i], strict);
      }
      ThenNothing(Collected());
    }

    method VisitElement(elem: Expr, strict: bool)
      modifies this
      ensures Collected() == Then(old(Collected()), VisitElem(elem, imports, strict))
      decreases elem, 2
    {
      var part := Unwrap(elem);
      VisitUnwrapped(elem, imports);
      if strict && part.ConfigOf? && part.local in imports {
        composes := composes + [imports[part.local]];
      } else if part.Call? || part.PlainCall? {
        VisitExpr(part);
      } else if strict {
        violations := violations + [BadElement];
      }
    }
  }

  /** `walkSchemaExpr`. */
  method WalkSchemaExpr(e: Expr, imports: map<string, string>) returns (walk: Walk)
    ensures walk == Visit(e, imports)
  {
    var walker := new Walker(imports);
    walker.VisitExpr(e);
    walk := Walk(walker.keys, walker.composes, walker.violations);
  }
}
