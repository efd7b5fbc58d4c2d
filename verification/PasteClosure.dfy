/** The paste queue of `collectConfigCatalog` in `scripts/gen-config-catalog.ts`: the package-local
    closure of a config type, pasted under bare names. */
module PasteClosure {
  import opened DependencyGraph

  /** A type name as written in one file. */
  datatype Item = Item(name: string, file: string)

  /** An import that stays outside the package. */
  datatype TypeRef = TypeRef(specifier: string, imported: string)

  /** A pasteable declaration: its source pointer, its file, and the type names it uses. */
  datatype Decl = Decl(pointer: string, file: string, names: seq<string>)

  /** `resolveTypeName`; an item it leaves out is neither declared, imported nor reachable. */
  datatype Resolution = Local(decl: Decl) | Imported(ref: TypeRef)

  datatype World = World(resolve: map<Item, Resolution>, globals: set<string>)

  datatype Violation =
    | Unresolved(item: Item)
    | RootImported(name: string)
    | LocalAndImported(name: string)
    | TwoImports(name: string)
    | TwoDeclarations(name: string)

  /** What a bare name stands for in the fence. */
  datatype Binding = ToDecl(pointer: string) | ToRef(ref: TypeRef)

  function BindingOf(r: Resolution): Binding {
    match r case Local(d) => ToDecl(d.pointer) case Imported(ref) => ToRef(ref)
  }

  function ItemsIn(names: seq<string>, globals: set<string>, file: string): (r: seq<Item>)
    ensures forall x :: x in r <==> x.file == file && x.name in names && x.name !in globals
  {
    if names == [] then []
    else (if names[0] in globals then [] else [Item(names[0], file)]) + ItemsIn(names[1..], globals, file)
  }

  function UsedBy(w: World, r: Resolution): seq<Item> {
    match r case Local(d) => ItemsIn(d.names, w.globals, d.file) case Imported(_) => []
  }

  /** From a resolved item to the non-global names its declaration uses. */
  function UseGraph(w: World): Graph<Item> {
    map item | item in w.resolve :: UsedBy(w, w.resolve[item])
  }

  ghost predicate Uses(w: World, root: Item, item: Item) {
    Reaches(UseGraph(w), root, item)
  }

  ghost predicate IsLocal(w: World, item: Item) {
    item in w.resolve && w.resolve[item].Local?
  }

  /** Of two declarations found for one name on one line the first is meant. */
  ghost predicate WorldOk(w: World) {
    forall a, b :: IsLocal(w, a) && IsLocal(w, b) && a.name == b.name && w.resolve[a].decl.pointer == w.resolve[b].decl.pointer ==>
      w.resolve[a].decl == w.resolve[b].decl
  }

  /** The closure can be pasted under bare names: everything used resolves, each name means one thing
      wherever it is used, and the config type itself is declared in the package. */
  ghost predicate Pasteable(w: World, root: Item) {
    && (forall a :: Uses(w, root, a) ==> a in w.resolve)
    && (forall a, b :: Uses(w, root, a) && Uses(w, root, b) && a.name == b.name && a in w.resolve && b in w.resolve ==>
          BindingOf(w.resolve[a]) == BindingOf(w.resolve[b]))
    && (root in w.resolve ==> w.resolve[root].Local?)
  }

  // -------------------------------------------------------------------- one item

  /** A pasted declaration: its name stands for its text, `source` is its pointer, a file and a line. */
  datatype Paste = Paste(name: string, source: string)

  function PasteOf(w: World, item: Item): Paste
    requires item in w.resolve && w.resolve[item].Local?
  {
    Paste(item.name, w.resolve[item].decl.pointer)
  }

  /** The queue loop's variables. */
  datatype State = State(pastes: seq<Paste>, decls: map<string, string>, refs: map<string, TypeRef>,
                         queue: seq<Item>, violations: seq<Violation>)

  /** Process the item taken from the front of the queue; `s.queue` is what is left. */
  function Process(w: World, rootName: string, s: State, item: Item): State {
    var name := item.name;
    if item !in w.resolve then s.(violations := s.violations + [Unresolved(item)])
    else
      match w.resolve[item]
      case Imported(ref) =>
        if name == rootName then s.(violations := s.violations + [RootImported(name)])
        else if name in s.decls then s.(violations := s.violations + [LocalAndImported(name)])
        else if name in s.refs && s.refs[name] != ref then s.(violations := s.violations + [TwoImports(name)])
        else s.(refs := s.refs[name := ref])
      case Local(d) =>
        if name in s.decls && s.decls[name] == d.pointer then s
        else if name in s.decls then s.(violations := s.violations + [TwoDeclarations(name)])
        else if name in s.refs then s.(violations := s.violations + [LocalAndImported(name)])
        else s.(decls := s.decls[name := d.pointer], pastes := s.pastes + [Paste(name, d.pointer)],
                queue := s.queue + ItemsIn(d.names, w.globals, d.file))
  }

  // ----------------------------------------------------------------- the invariant

  /** A name is bound to what some used item of that name resolves to. */
  ghost predicate BoundByUse(w: World, root: Item, name: string, b: Binding) {
    exists a :: Uses(w, root, a) && a.name == name && a in w.resolve && BindingOf(w.resolve[a]) == b
  }

  ghost predicate Bound(s: State, item: Item, w: World)
    requires item in w.resolve
  {
    match w.resolve[item]
    case Local(d) => item.name in s.decls && s.decls[item.name] == d.pointer
    case Imported(ref) => item.name in s.refs && s.refs[item.name] == ref && item.name !in s.decls
  }

  ghost predicate NoRepeats(pastes: seq<Paste>) {
    forall i, j :: 0 <= i < j < |pastes| ==> pastes[i] != pastes[j]
  }

  ghost predicate Known(queue: seq<Item>, done: set<Item>, item: Item) {
    item in done || item in queue
  }

  /** The queue holds used items, and what a processed item uses is processed or queued. */
  ghost predicate Frontier(w: World, root: Item, queue: seq<Item>, done: set<Item>) {
    && (forall a <- queue :: Uses(w, root, a))
    && (forall a <- done :: Uses(w, root, a) && a in w.resolve)
    && Known(queue, done, root)
    && (forall a, b :: Edge(UseGraph(w), a, b) && a in done ==> Known(queue, done, b))
  }

  /** The name is bound as some processed item of that name resolves. */
  ghost predicate BoundByDone(w: World, done: set<Item>, name: string, b: Binding) {
    exists a <- done :: a.name == name && a in w.resolve && BindingOf(w.resolve[a]) == b
  }

  /** Processed items are bound, and bindings come from processed items. */
  ghost predicate Bindings(w: World, root: Item, s: State, done: set<Item>) {
    && (forall a <- done :: a in w.resolve && Bound(s, a, w))
    && (forall n <- s.decls :: BoundByDone(w, done, n, ToDecl(s.decls[n])))
    && (forall n <- s.refs :: n !in s.decls && n != root.name && BoundByDone(w, done, n, ToRef(s.refs[n])))
  }

  /** The pastes are the bound declarations, each once, the config type's first. */
  ghost predicate PasteList(w: World, root: Item, s: State) {
    && (forall p :: p in s.pastes <==> p.name in s.decls && s.decls[p.name] == p.source)
    && NoRepeats(s.pastes)
    && (s.pastes != [] ==> IsLocal(w, root) && s.pastes[0] == PasteOf(w, root))
    && (s.pastes == [] ==> s.queue == [root])
  }

  ghost predicate Tables(w: World, root: Item, s: State, done: set<Item>) {
    Bindings(w, root, s, done) && PasteList(w, root, s)
  }

  /** What holds while there is no violation. */
  ghost predicate Inv(w: World, root: Item, s: State, done: set<Item>) {
    Frontier(w, root, s.queue, done) && Tables(w, root, s, done)
  }

  lemma DoneBinding(w: World, root: Item, s: State, done: set<Item>, name: string, b: Binding)
    requires Inv(w, root, s, done) && BoundByDone(w, done, name, b)
    ensures BoundByUse(w, root, name, b)
  {
    var a :| a in done && a.name == name && a in w.resolve && BindingOf(w.resolve[a]) == b;
  }

  lemma UsedBinding(w: World, root: Item, a: Item)
    requires Uses(w, root, a) && a in w.resolve
    ensures BoundByUse(w, root, a.name, BindingOf(w.resolve[a]))
  {
  }

  /** Two bindings of one name, each from a use, cannot both be pasted. */
  lemma ClashIsNotPasteable(w: World, root: Item, name: string, b: Binding, c: Binding)
    requires BoundByUse(w, root, name, b) && BoundByUse(w, root, name, c) && b != c
    ensures !Pasteable(w, root)
  {
    hide Uses;
    var x :| Uses(w, root, x) && x.name == name && x in w.resolve && BindingOf(w.resolve[x]) == b;
    var y :| Uses(w, root, y) && y.name == name && y in w.resolve && BindingOf(w.resolve[y]) == c;
  }

  lemma RootIsUsed(w: World, root: Item)
    ensures Uses(w, root, root)
  {
    ReachesSelf(UseGraph(w), root);
  }

  lemma UsesOn(w: World, root: Item, a: Item, b: Item)
    requires Uses(w, root, a) && a in w.resolve && b in UsedBy(w, w.resolve[a])
    ensures Uses(w, root, b)
  {
    ReachesOn(UseGraph(w), root, a, b);
  }

  /** A violation is raised only for a closure that cannot be pasted. */
  lemma ViolationIsReal(w: World, root: Item, s: State, done: set<Item>, rest: seq<Item>, item: Item)
    requires Inv(w, root, s, done) && s.queue == [item] + rest && s.violations == []
    requires Process(w, root.name, s.(queue := rest), item).violations != []
    ensures !Pasteable(w, root)
  {
    hide Uses, Edge, BoundByUse, BoundByDone;
    assert item in s.queue;
    if item in w.resolve {
      var name := item.name;
      UsedBinding(w, root, item);
      if w.resolve[item].Imported? && name == root.name {
        RootIsUsed(w, root);
        if IsLocal(w, root) {
          UsedBinding(w, root, root);
          ClashIsNotPasteable(w, root, name, BindingOf(w.resolve[root]), BindingOf(w.resolve[item]));
        }
      } else if name in s.decls {
        DoneBinding(w, root, s, done, name, ToDecl(s.decls[name]));
        ClashIsNotPasteable(w, root, name, ToDecl(s.decls[name]), BindingOf(w.resolve[item]));
      } else {
        DoneBinding(w, root, s, done, name, ToRef(s.refs[name]));
        ClashIsNotPasteable(w, root, name, ToRef(s.refs[name]), BindingOf(w.resolve[item]));
      }
    }
  }

  /** Moving the front item to the processed ones, once its uses are known. */
  lemma FrontierStep(w: World, root: Item, rest: seq<Item>, done: set<Item>, item: Item, more: seq<Item>)
    requires Frontier(w, root, [item] + rest, done) && item in w.resolve
    requires forall b <- more :: b in UsedBy(w, w.resolve[item])
    requires forall b <- UsedBy(w, w.resolve[item]) :: b in more || Known([item] + rest, done, b)
    ensures Frontier(w, root, rest + more, done + {item})
  {
    assert item in [item] + rest;
    forall b | b in more ensures Uses(w, root, b) { UsesOn(w, root, item, b); }
    hide Uses;
    assert Known([item] + rest, done, root);
    forall a, b | Edge(UseGraph(w), a, b) && a in done + {item} ensures Known(rest + more, done + {item}, b) {
      if a in done { assert Known([item] + rest, done, b); }
    }
  }

  /** A binding already in the tables was made by a processed item, whose uses are known: a second
      item of the same declaration brings nothing new. */
  lemma SameDeclarationKnown(w: World, root: Item, s: State, done: set<Item>, item: Item)
    requires WorldOk(w) && Inv(w, root, s, done) && IsLocal(w, item)
    requires item.name in s.decls && s.decls[item.name] == w.resolve[item].decl.pointer
    ensures forall b <- UsedBy(w, w.resolve[item]) :: Known(s.queue, done, b)
  {
    var a :| a in done && a.name == item.name && a in w.resolve && BindingOf(w.resolve[a]) == ToDecl(s.decls[item.name]);
    assert IsLocal(w, a) && w.resolve[a].decl == w.resolve[item].decl;
    forall b | b in UsedBy(w, w.resolve[item]) ensures Known(s.queue, done, b) {
      assert Edge(UseGraph(w), a, b);
    }
  }

  lemma MoreDone(w: World, done: set<Item>, item: Item)
    requires item in w.resolve
    ensures BoundByDone(w, done + {item}, item.name, BindingOf(w.resolve[item]))
    ensures forall n, b :: BoundByDone(w, done, n, b) ==> BoundByDone(w, done + {item}, n, b)
  {
    forall n, b | BoundByDone(w, done, n, b) ensures BoundByDone(w, done + {item}, n, b) {
      var a :| a in done && a.name == n && a in w.resolve && BindingOf(w.resolve[a]) == b;
      assert a in done + {item};
    }
    assert item in done + {item};
  }

  /** An item processed without a violation is bound, and nothing bound before changes. */
  lemma BindingsStep(w: World, root: Item, s: State, done: set<Item>, item: Item)
    requires Bindings(w, root, s, done) && s.violations == [] && item in w.resolve
    requires Process(w, root.name, s, item).violations == []
    ensures Bindings(w, root, Process(w, root.name, s, item), done + {item})
  {
    hide BoundByDone, IsLocal;
    MoreDone(w, done, item);
    var t := Process(w, root.name, s, item);
    forall a | a in done + {item} ensures a in w.resolve && Bound(t, a, w) {
      if a in done { assert Bound(s, a, w); }
    }
  }

  lemma PasteListGrows(w: World, root: Item, s: State, t: State, item: Item)
    requires PasteList(w, root, s) && IsLocal(w, item) && item.name !in s.decls
    requires s.pastes == [] ==> item == root
    requires t.decls == s.decls[item.name := w.resolve[item].decl.pointer]
    requires t.pastes == s.pastes + [PasteOf(w, item)]
    ensures PasteList(w, root, t)
  {
  }

  /** The front item: the config type while nothing is pasted. */
  lemma PasteListStep(w: World, root: Item, s: State, done: set<Item>, rest: seq<Item>, item: Item)
    requires WorldOk(w) && Tables(w, root, s, done) && s.queue == [item] + rest && s.violations == [] && item in w.resolve
    requires Process(w, root.name, s.(queue := rest), item).violations == []
    ensures PasteList(w, root, Process(w, root.name, s.(queue := rest), item))
  {
    hide WorldOk, BoundByDone, NoRepeats;
    var t := Process(w, root.name, s.(queue := rest), item);
    assert s.pastes == [] ==> s.queue[0] == root;
    if IsLocal(w, item) && item.name !in s.decls {
      PasteListGrows(w, root, s, t, item);
    } else if item.name in s.decls {
      assert Paste(item.name, s.decls[item.name]) in s.pastes;
    }
  }

  // ----------------------------------------------------------------------- the queue

  /** What a clean run leaves: the used package-local declarations, each pasted once and the config
      type first; every used name bound to what it means, in exactly one of the two maps. */
  ghost predicate Closure(w: World, root: Item, s: State) {
    && IsLocal(w, root) && s.pastes != [] && s.pastes[0] == PasteOf(w, root)
    && NoRepeats(s.pastes)
    && (forall p :: p in s.pastes <==> exists a :: Uses(w, root, a) && IsLocal(w, a) && PasteOf(w, a) == p)
    && (forall a :: Uses(w, root, a) ==> a in w.resolve && Bound(s, a, w))
    && s.decls.Keys !! s.refs.Keys
    && (forall n :: n in s.decls || n in s.refs ==> exists a :: Uses(w, root, a) && a.name == n)
  }

  ghost function Names(w: World): set<string> {
    set item <- w.resolve :: item.name
  }

  /** Reports no violation exactly when the closure can be pasted, and then pastes exactly it. */
  method Collect(w: World, root: Item) returns (s: State)
    requires WorldOk(w)
    ensures s.violations == [] <==> Pasteable(w, root)
    ensures s.violations == [] ==> Closure(w, root, s)
  {
    hide Inv, Pasteable, Closure, WorldOk;
    s := State([], map[], map[], [root], []);
    ghost var done: set<Item> := {};
    CollectStart(w, root);
    while s.queue != []
      invariant s.violations == [] ==> Inv(w, root, s, done)
      invariant s.violations != [] ==> !Pasteable(w, root)
      decreases Names(w) - s.decls.Keys, |s.queue|
    {
      var item := s.queue[0];
      ghost var before := s;
      assert s.queue == [item] + s.queue[1..];
      s := Process(w, root.name, s.(queue := s.queue[1..]), item);
      ItemShrinks(w, root.name, before, item);
      if before.violations == [] {
        ProcessStep(w, root, before, done, before.queue[1..], item);
        done := done + {item};
      }
    }
    if s.violations == [] { CollectDone(w, root, s, done); }
  }

  lemma CollectStart(w: World, root: Item)
    ensures Inv(w, root, State([], map[], map[], [root], []), {})
  {
    RootIsUsed(w, root);
  }

  lemma ItemShrinks(w: World, rootName: string, s: State, item: Item)
    requires s.queue != [] && s.queue[0] == item
    ensures var t := Process(w, rootName, s.(queue := s.queue[1..]), item);
            && (s.violations != [] ==> t.violations != [])
            && (if t.decls.Keys == s.decls.Keys then |t.queue| < |s.queue| else Names(w) - t.decls.Keys < Names(w) - s.decls.Keys)
  {
    var t := Process(w, rootName, s.(queue := s.queue[1..]), item);
    if t.decls.Keys != s.decls.Keys {
      assert item.name in Names(w) - s.decls.Keys && item.name !in Names(w) - t.decls.Keys;
    }
  }

  lemma ProcessStep(w: World, root: Item, s: State, done: set<Item>, rest: seq<Item>, item: Item)
    requires WorldOk(w) && Inv(w, root, s, done) && s.queue == [item] + rest && s.violations == []
    ensures var t := Process(w, root.name, s.(queue := rest), item);
            if t.violations == [] then Inv(w, root, t, done + {item}) else !Pasteable(w, root)
  {
    hide Pasteable, WorldOk, Bindings, PasteList, Frontier;
    var t := Process(w, root.name, s.(queue := rest), item);
    if t.violations == [] {
      PasteListStep(w, root, s, done, rest, item);
      SameBindings(w, root, s, s.(queue := rest), done);
      BindingsStep(w, root, s.(queue := rest), done, item);
    }
    if t.violations != [] {
      ViolationIsReal(w, root, s, done, rest, item);
    } else if IsLocal(w, item) && item.name !in s.decls {
      FrontierStep(w, root, rest, done, item, UsedBy(w, w.resolve[item]));
    } else {
      if IsLocal(w, item) { SameDeclarationKnown(w, root, s, done, item); }
      FrontierStep(w, root, rest, done, item, []);
      assert rest + [] == rest;
    }
  }

  lemma SameBindings(w: World, root: Item, s: State, t: State, done: set<Item>)
    requires Bindings(w, root, s, done) && t.decls == s.decls && t.refs == s.refs
    ensures Bindings(w, root, t, done)
  {
  }

  lemma UsedIsDone(w: World, root: Item, done: set<Item>)
    requires Frontier(w, root, [], done)
    ensures forall a :: Uses(w, root, a) <==> a in done
  {
    assert Known([], done, root);
    assert Keeps(UseGraph(w), done);
    forall a | Uses(w, root, a) ensures a in done { KeptReach(UseGraph(w), done, root, a); }
  }

  lemma DonePastes(w: World, root: Item, s: State, done: set<Item>)
    requires Tables(w, root, s, done)
    ensures forall p :: p in s.pastes <==> exists a <- done :: IsLocal(w, a) && PasteOf(w, a) == p
    ensures forall n :: n in s.decls || n in s.refs ==> exists a <- done :: a.name == n
    ensures s.decls.Keys !! s.refs.Keys
  {
    forall p | p in s.pastes ensures exists a <- done :: IsLocal(w, a) && PasteOf(w, a) == p {
      assert BoundByDone(w, done, p.name, ToDecl(s.decls[p.name]));
    }
    forall a | a in done && IsLocal(w, a) ensures PasteOf(w, a) in s.pastes { assert Bound(s, a, w); }
    forall n | n in s.decls || n in s.refs ensures exists a <- done :: a.name == n {
      if n in s.decls { assert BoundByDone(w, done, n, ToDecl(s.decls[n])); }
    }
  }

  lemma DoneIsPasteable(w: World, root: Item, s: State, done: set<Item>)
    requires Tables(w, root, s, done) && s.queue == [] && forall a :: Uses(w, root, a) <==> a in done
    ensures Pasteable(w, root)
  {
    hide Uses, BoundByDone, NoRepeats;
    assert forall a <- done :: a in w.resolve && Bound(s, a, w);
  }

  lemma CollectDone(w: World, root: Item, s: State, done: set<Item>)
    requires WorldOk(w) && Inv(w, root, s, done) && s.queue == []
    ensures Pasteable(w, root) && Closure(w, root, s)
  {
    hide WorldOk, Uses, Frontier, BoundByDone, Pasteable;
    UsedIsDone(w, root, done);
    DonePastes(w, root, s, done);
    DoneIsPasteable(w, root, s, done);
  }
}
