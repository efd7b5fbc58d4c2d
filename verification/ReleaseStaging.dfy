/** Staging and checking package manifests in `scripts/publish-npm-baseline.ts`, and the bundle
    those manifests are collected into. */
module ReleaseStaging {
  import opened Options
  import PackageOrder

  /** A JSON value; an object keeps the order of its entries. */
  datatype Value = Str(text: string) | Arr(items: seq<Value>) | Obj(fields: seq<Field>) | Scalar
  datatype Field = Field(key: string, value: Value)

  const DEPENDENCY_SECTIONS := ["dependencies", "devDependencies", "optionalDependencies", "peerDependencies"]

  ghost predicate UniqueKeys(fields: seq<Field>) {
    forall i, j :: 0 <= i < j < |fields| ==> fields[i].key != fields[j].key
  }

  /** `manifest[key]`: where the entry is, or `|fields|` when there is none. */
  function IndexOf(fields: seq<Field>, key: string): (i: nat)
    ensures i <= |fields| && (i < |fields| ==> fields[i].key == key)
    ensures forall j :: 0 <= j < i ==> fields[j].key != key
  {
    if fields == [] || fields[0].key == key then 0 else 1 + IndexOf(fields[1..], key)
  }

  /** Some dependency section is present and is not an object. */
  ghost predicate Malformed(fields: seq<Field>) {
    exists f <- fields :: f.key in DEPENDENCY_SECTIONS && !f.value.Obj?
  }

  // ---------------------------------------------------------------------- staging

  function PinEntry(f: Field, internal: set<string>, version: string): Field {
    if f.key in internal then Field(f.key, Str(version)) else f
  }

  function PinEntries(deps: seq<Field>, internal: set<string>, version: string): seq<Field> {
    seq(|deps|, i requires 0 <= i < |deps| => PinEntry(deps[i], internal, version))
  }

  function PinSection(f: Field, internal: set<string>, version: string): Field {
    if f.key in DEPENDENCY_SECTIONS && f.value.Obj?
    then Field(f.key, Obj(PinEntries(f.value.fields, internal, version))) else f
  }

  /** The manifest with every internal name in every dependency section pinned. */
  function Pinned(fields: seq<Field>, internal: set<string>, version: string): seq<Field> {
    seq(|fields|, i requires 0 <= i < |fields| => PinSection(fields[i], internal, version))
  }

  ghost predicate MalformedSection(fields: seq<Field>, section: string) {
    exists f <- fields :: f.key == section && !f.value.Obj?
  }

  /** Staging got as far as section `s`, which is not an object: the sections before it are pinned, the rest untouched. */
  ghost predicate StoppedAt(before: seq<Field>, after: seq<Field>, s: nat, internal: set<string>, version: string) {
    && s < |DEPENDENCY_SECTIONS| && |after| == |before| && MalformedSection(before, DEPENDENCY_SECTIONS[s])
    && (forall r :: 0 <= r < s ==> !MalformedSection(before, DEPENDENCY_SECTIONS[r]))
    && forall i :: 0 <= i < |before| ==>
         after[i] == if before[i].key in DEPENDENCY_SECTIONS[..s] then PinSection(before[i], internal, version) else before[i]
  }

  lemma FirstMalformed(before: seq<Field>, after: seq<Field>, s: nat, at: nat, internal: set<string>, version: string)
    requires s < |DEPENDENCY_SECTIONS| && at < |before| == |after| && before[at].key == DEPENDENCY_SECTIONS[s] && !before[at].value.Obj?
    requires forall i :: 0 <= i < |before| && before[i].key in DEPENDENCY_SECTIONS[..s] ==> before[i].value.Obj?
    requires forall i :: 0 <= i < |before| ==>
      after[i] == if before[i].key in DEPENDENCY_SECTIONS[..s] then PinSection(before[i], internal, version) else before[i]
    ensures StoppedAt(before, after, s, internal, version) && Malformed(before)
  {
    hide PinSection;
    assert before[at] in before;
    assert DEPENDENCY_SECTIONS[s] in DEPENDENCY_SECTIONS;
    forall r | 0 <= r < s ensures DEPENDENCY_SECTIONS[r] in DEPENDENCY_SECTIONS[..s] {
      assert DEPENDENCY_SECTIONS[..s][r] == DEPENDENCY_SECTIONS[r];
    }
  }

  class Manifest {
    var fields: seq<Field>

    constructor (fields: seq<Field>)
      ensures this.fields == fields
    {
      this.fields := fields;
    }

    /** One more entry pinned. */
    static lemma PinNext(deps: seq<Field>, i: nat, internal: set<string>, version: string)
      requires i < |deps|
      ensures var pinned := PinEntries(deps[..i], internal, version) + deps[i..];
              && |pinned| == |deps| && pinned[i] == deps[i]
              && PinEntries(deps[..i + 1], internal, version) + deps[i + 1..] == pinned[i := PinEntry(deps[i], internal, version)]
              && pinned[i := deps[i]] == pinned
    {
      assert deps[..i + 1][..i] == deps[..i];
    }

    /** One section's loop over `Object.entries`. */
    method PinSectionAt(at: nat, internal: set<string>, version: string)
      requires at < |fields| && fields[at].value.Obj? && fields[at].key in DEPENDENCY_SECTIONS
      modifies this
      ensures fields == old(fields)[at := PinSection(old(fields[at]), internal, version)]
    {
      ghost var deps0 := fields[at].value.fields;
      assert PinEntries(deps0[..0], internal, version) + deps0[0..] == deps0;
      for i := 0 to |fields[at].value.fields|
        invariant fields == old(fields)[at := Field(old(fields[at]).key, Obj(PinEntries(deps0[..i], internal, version) + deps0[i..]))]
      {
        var deps := fields[at].value.fields;
        if deps[i].key in internal {
          deps := deps[i := Field(deps[i].key, Str(version))];
        }
        PinNext(deps0, i, internal, version);
        fields := fields[at := Field(fields[at].key, Obj(deps))];
      }
      assert PinEntries(deps0[..|deps0|], internal, version) + deps0[|deps0|..] == PinEntries(deps0, internal, version);
    }

    /** `stageInternalDependencies`: throws on the first section that is not an object. */
    method Stage(internal: set<string>, version: string) returns (error: Option<string>)
      requires UniqueKeys(fields)
      modifies this
      ensures error.Some? <==> Malformed(old(fields))
      ensures error.None? ==> fields == Pinned(old(fields), internal, version)
      ensures error.Some? ==> exists s: nat :: StoppedAt(old(fields), fields, s, internal, version) && error.value == DEPENDENCY_SECTIONS[s]
    {
      ghost var original := fields;
      for s := 0 to |DEPENDENCY_SECTIONS|
        invariant |fields| == |original|
        invariant forall i :: 0 <= i < |original| ==>
          fields[i] == if original[i].key in DEPENDENCY_SECTIONS[..s] then PinSection(original[i], internal, version) else original[i]
        invariant forall i :: 0 <= i < |original| && original[i].key in DEPENDENCY_SECTIONS[..s] ==> original[i].value.Obj?
      {
        var section := DEPENDENCY_SECTIONS[s];
        DistinctSections();
        assert DEPENDENCY_SECTIONS[..s + 1] == DEPENDENCY_SECTIONS[..s] + [section];
        SameKeys(original, fields);
        var at := IndexOf(fields, section);
        if at < |fields| {
          if !fields[at].value.Obj? {
            FirstMalformed(original, fields, s, at, internal, version);
            return Some(section);
          }
          PinSectionAt(at, internal, version);
        }
      }
      assert DEPENDENCY_SECTIONS[..|DEPENDENCY_SECTIONS|] == DEPENDENCY_SECTIONS;
      assert fields == Pinned(original, internal, version);
      error := None;
    }
  }

  lemma DistinctSections()
    ensures forall i, j :: 0 <= i < j < |DEPENDENCY_SECTIONS| ==> DEPENDENCY_SECTIONS[i] != DEPENDENCY_SECTIONS[j]
  {
    assert |DEPENDENCY_SECTIONS[0]| == 12 && |DEPENDENCY_SECTIONS[1]| == 15 && |DEPENDENCY_SECTIONS[2]| == 20 && |DEPENDENCY_SECTIONS[3]| == 16;
  }

  lemma SameKeys(a: seq<Field>, b: seq<Field>)
    requires UniqueKeys(a) && |a| == |b| && forall i :: 0 <= i < |a| ==> b[i].key == a[i].key
    ensures UniqueKeys(b)
  {
  }

  // ------------------------------------------------------------------- validation

  /** Every internal name in every dependency section is pinned to exactly `version`. */
  ghost predicate AllPinned(fields: seq<Field>, internal: set<string>, version: string) {
    forall f <- fields :: f.key in DEPENDENCY_SECTIONS && f.value.Obj? ==> SectionPinned(f.value.fields, internal, version)
  }

  ghost predicate SectionPinned(deps: seq<Field>, internal: set<string>, version: string) {
    forall d <- deps :: d.key in internal ==> d.value == Str(version)
  }

  /** The section is not an object, or has an internal name pinned elsewhere. */
  ghost predicate Offends(fields: seq<Field>, section: string, internal: set<string>, version: string) {
    exists f <- fields :: f.key == section && !(f.value.Obj? && SectionPinned(f.value.fields, internal, version))
  }

  ghost predicate FirstOffending(fields: seq<Field>, s: nat, internal: set<string>, version: string) {
    && s < |DEPENDENCY_SECTIONS| && Offends(fields, DEPENDENCY_SECTIONS[s], internal, version)
    && forall r :: 0 <= r < s ==> !Offends(fields, DEPENDENCY_SECTIONS[r], internal, version)
  }

  /** `validateInternalDependencyPins`: the first offending section, if any. */
  method Validate(fields: seq<Field>, internal: set<string>, version: string) returns (error: Option<string>)
    requires UniqueKeys(fields)
    ensures error.None? <==> !Malformed(fields) && AllPinned(fields, internal, version)
    ensures error.Some? ==> exists s: nat :: FirstOffending(fields, s, internal, version) && error.value == DEPENDENCY_SECTIONS[s]
  {
    for s := 0 to |DEPENDENCY_SECTIONS|
      invariant forall r :: 0 <= r < s ==> !Offends(fields, DEPENDENCY_SECTIONS[r], internal, version)
      invariant forall f <- fields :: f.key in DEPENDENCY_SECTIONS[..s] ==> f.value.Obj? && SectionPinned(f.value.fields, internal, version)
    {
      var section := DEPENDENCY_SECTIONS[s];
      assert DEPENDENCY_SECTIONS[..s + 1] == DEPENDENCY_SECTIONS[..s] + [section];
      var at := IndexOf(fields, section);
      if at < |fields| {
        assert fields[at] in fields;
        if !fields[at].value.Obj? {
          assert FirstOffending(fields, s, internal, version);
          return Some(section);
        }
        var deps := fields[at].value.fields;
        for i := 0 to |deps|
          invariant forall j :: 0 <= j < i && deps[j].key in internal ==> deps[j].value == Str(version)
        {
          if deps[i].key in internal && deps[i].value != Str(version) {
            assert deps[i] in deps;
            assert !SectionPinned(deps, internal, version);
            assert FirstOffending(fields, s, internal, version);
            return Some(section);
          }
        }
        forall f | f in fields && f.key == section ensures f == fields[at] {
          var k :| 0 <= k < |fields| && fields[k] == f;
        }
      }
    }
    assert DEPENDENCY_SECTIONS[..|DEPENDENCY_SECTIONS|] == DEPENDENCY_SECTIONS;
    error := None;
  }

  /** Staging and checking agree: whatever staging accepts, validation accepts afterwards. */
  lemma StagedValidates(fields: seq<Field>, internal: set<string>, version: string)
    requires UniqueKeys(fields) && !Malformed(fields)
    ensures UniqueKeys(Pinned(fields, internal, version))
    ensures !Malformed(Pinned(fields, internal, version)) && AllPinned(Pinned(fields, internal, version), internal, version)
  {
    var after := Pinned(fields, internal, version);
    forall f | f in after && f.key in DEPENDENCY_SECTIONS
      ensures f.value.Obj? && SectionPinned(f.value.fields, internal, version)
    {
      var i :| 0 <= i < |after| && after[i] == f;
      assert fields[i] in fields;
    }
  }

  /** What staging sets: internal names in dependency sections, to the version. */
  lemma StagingSets(fields: seq<Field>, internal: set<string>, version: string)
    requires !Malformed(fields)
    ensures forall i :: 0 <= i < |fields| && fields[i].key !in DEPENDENCY_SECTIONS ==> Pinned(fields, internal, version)[i] == fields[i]
    ensures forall i :: 0 <= i < |fields| && fields[i].key in DEPENDENCY_SECTIONS ==>
      var after := Pinned(fields, internal, version)[i];
      && after.key == fields[i].key && after.value.Obj? && |after.value.fields| == |fields[i].value.fields|
      && forall j :: 0 <= j < |after.value.fields| ==>
           var dep := fields[i].value.fields[j];
           after.value.fields[j] == if dep.key in internal then Field(dep.key, Str(version)) else dep
  {
    forall i | 0 <= i < |fields| ensures fields[i] in fields { }
  }

  /** A manifest is left as it is exactly when validation accepts its pins. */
  lemma StagingIsMinimal(fields: seq<Field>, internal: set<string>, version: string)
    requires !Malformed(fields)
    ensures Pinned(fields, internal, version) == fields <==> AllPinned(fields, internal, version)
  {
    var after := Pinned(fields, internal, version);
    forall i | 0 <= i < |fields| ensures fields[i] in fields { }
    if AllPinned(fields, internal, version) {
      forall i | 0 <= i < |fields| ensures after[i] == fields[i] {
        if fields[i].key in DEPENDENCY_SECTIONS {
          var deps := fields[i].value.fields;
          assert forall j :: 0 <= j < |deps| ==> deps[j] in deps;
          assert PinEntries(deps, internal, version) == deps;
        }
      }
    } else {
      var f :| f in fields && f.key in DEPENDENCY_SECTIONS && f.value.Obj? && !SectionPinned(f.value.fields, internal, version);
      var i :| 0 <= i < |fields| && fields[i] == f;
      var d :| d in f.value.fields && d.key in internal && d.value != Str(version);
      var j :| 0 <= j < |f.value.fields| && f.value.fields[j] == d;
      assert after[i].value.fields[j] != d;
    }
  }

  // ------------------------------------------------------------ workspace: ranges

  predicate HasWorkspace(v: Value)
    decreases v
  {
    match v
    case Str(text) => "workspace:" <= text
    case Arr(items) => exists x <- items :: HasWorkspace(x)
    case Obj(fields) => exists f <- fields :: FieldHasWorkspace(f)
    case Scalar => false
  }

  predicate FieldHasWorkspace(f: Field)
    decreases f
  {
    HasWorkspace(f.value)
  }

  /** What stands in a value at the end of a path of positions. */
  function ValueAt(v: Value, path: seq<nat>): Option<Value>
    decreases path
  {
    if path == [] then Some(v)
    else if v.Arr? && path[0] < |v.items| then ValueAt(v.items[path[0]], path[1..])
    else if v.Obj? && path[0] < |v.fields| then ValueAt(v.fields[path[0]].value, path[1..])
    else None
  }

  ghost predicate WorkspaceAt(v: Value, path: seq<nat>) {
    exists text :: ValueAt(v, path) == Some(Str("workspace:" + text))
  }

  lemma Deeper(v: Value, child: Value, i: nat, path: seq<nat>)
    requires (v.Arr? && i < |v.items| && v.items[i] == child) || (v.Obj? && i < |v.fields| && v.fields[i].value == child)
    ensures ValueAt(v, [i] + path) == ValueAt(child, path)
  {
    assert ([i] + path)[1..] == path;
  }

  /** The search looks at every string of the value, at any depth. */
  lemma {:induction false} WorkspaceIsSomewhere(v: Value)
    ensures HasWorkspace(v) <==> exists path :: WorkspaceAt(v, path)
    decreases v
  {
    match v
    case Str(text) => WorkspaceText(text);
    case Scalar =>
      forall path ensures !WorkspaceAt(v, path) {}
    case Arr(items) =>
      if x :| x in items && HasWorkspace(x) {
        var i :| 0 <= i < |items| && items[i] == x;
        WorkspaceIsSomewhere(x);
        var path :| WorkspaceAt(x, path);
        Deeper(v, x, i, path);
        assert WorkspaceAt(v, [i] + path);
      }
      if path :| WorkspaceAt(v, path) {
        var child := items[path[0]];
        assert WorkspaceAt(child, path[1..]);
        WorkspaceIsSomewhere(child);
      }
    case Obj(fields) =>
      if f :| f in fields && FieldHasWorkspace(f) {
        var i :| 0 <= i < |fields| && fields[i] == f;
        WorkspaceIsSomewhere(f.value);
        var path :| WorkspaceAt(f.value, path);
        Deeper(v, f.value, i, path);
        assert WorkspaceAt(v, [i] + path);
      }
      if path :| WorkspaceAt(v, path) {
        var child := fields[path[0]];
        assert child in fields && WorkspaceAt(child.value, path[1..]);
        WorkspaceIsSomewhere(child.value);
      }
  }

  lemma WorkspaceText(text: string)
    ensures "workspace:" <= text <==> exists path :: WorkspaceAt(Str(text), path)
  {
    if "workspace:" <= text {
      assert text == "workspace:" + text[|"workspace:"|..];
      assert WorkspaceAt(Str(text), []);
    }
  }

  /** A `workspace:` string survives staging exactly where it is not an internal dependency. */
  ghost predicate OutsideWorkspace(f: Field, internal: set<string>) {
    if f.key in DEPENDENCY_SECTIONS && f.value.Obj?
    then exists d <- f.value.fields :: d.key !in internal && FieldHasWorkspace(d)
    else FieldHasWorkspace(f)
  }

  lemma PinnedSectionWorkspace(f: Field, internal: set<string>, version: string)
    requires !("workspace:" <= version)
    ensures FieldHasWorkspace(PinSection(f, internal, version)) <==> OutsideWorkspace(f, internal)
  {
    if f.key in DEPENDENCY_SECTIONS && f.value.Obj? {
      var deps := f.value.fields;
      var after := PinEntries(deps, internal, version);
      assert !HasWorkspace(Str(version));
      if d :| d in deps && d.key !in internal && FieldHasWorkspace(d) {
        var j :| 0 <= j < |deps| && deps[j] == d;
        assert after[j] == d && after[j] in after;
      }
      if d :| d in after && FieldHasWorkspace(d) {
        var j :| 0 <= j < |after| && after[j] == d;
        assert deps[j] in deps;
      }
    }
  }

  /** The packed manifest is free of `workspace:` exactly when the only ones were internal pins. */
  lemma PackedWorkspace(fields: seq<Field>, internal: set<string>, version: string)
    requires !("workspace:" <= version)
    ensures HasWorkspace(Obj(Pinned(fields, internal, version))) <==> exists f <- fields :: OutsideWorkspace(f, internal)
  {
    var after := Pinned(fields, internal, version);
    forall i | 0 <= i < |fields| ensures FieldHasWorkspace(after[i]) <==> OutsideWorkspace(fields[i], internal) {
      PinnedSectionWorkspace(fields[i], internal, version);
    }
    if f :| f in fields && OutsideWorkspace(f, internal) {
      var i :| 0 <= i < |fields| && fields[i] == f;
      assert after[i] in after;
    }
    if f :| f in after && FieldHasWorkspace(f) {
      var i :| 0 <= i < |after| && after[i] == f;
      assert fields[i] in fields;
    }
  }

  // ------------------------------------------------------------ ReleaseBundle.create

  /** One inspected tarball. `payloadOk` is `validateTarballPayload`'s verdict, consulted for
      harness packages only. */
  datatype Artifact = Artifact(name: string, version: string, isPrivate: bool, manifest: seq<Field>, payloadOk: bool)

  datatype Target = Target(name: string, vendored: bool)

  function Names(targets: seq<Target>): set<string> {
    set t <- targets :: t.name
  }

  /** Everything `create` checks about one tarball on its own. */
  ghost predicate Releasable(a: Artifact, vendored: bool, internal: set<string>, version: string) {
    && (vendored || a.payloadOk) && a.version == version && !a.isPrivate
    && !HasWorkspace(Obj(a.manifest)) && !Malformed(a.manifest) && AllPinned(a.manifest, internal, version)
  }

  ghost predicate UniqueTargets(targets: seq<Target>) {
    forall i, j :: 0 <= i < j < |targets| ==> targets[i].name != targets[j].name
  }

  /** The tarballs are the expected packages, one each, and every one of them is releasable. */
  ghost predicate Complete(artifacts: seq<Artifact>, targets: seq<Target>, version: string) {
    && (forall i, j :: 0 <= i < j < |artifacts| ==> artifacts[i].name != artifacts[j].name)
    && (set a <- artifacts :: a.name) == Names(targets)
    && forall a, t :: a in artifacts && t in targets && a.name == t.name ==> Releasable(a, t.vendored, Names(targets), version)
  }

  method FindTarget(targets: seq<Target>, name: string) returns (t: Option<Target>)
    requires UniqueTargets(targets)
    ensures t.None? <==> name !in Names(targets)
    ensures t.Some? ==> t.value in targets && t.value.name == name
    ensures t.Some? ==> forall u :: u in targets && u.name == name ==> u == t.value
  {
    for i := 0 to |targets|
      invariant forall j :: 0 <= j < i ==> targets[j].name != name
    {
      if targets[i].name == name { return Some(targets[i]); }
    }
    t := None;
  }

  /** The checks of one tarball, in the order the loop of `create` makes them. */
  method CheckTarball(a: Artifact, vendored: bool, internal: set<string>, version: string) returns (ok: bool)
    requires UniqueKeys(a.manifest)
    ensures ok <==> Releasable(a, vendored, internal, version)
  {
    if !vendored && !a.payloadOk { return false; }
    if a.version != version || a.isPrivate || HasWorkspace(Obj(a.manifest)) { return false; }
    var error := Validate(a.manifest, internal, version);
    ok := error.None?;
  }

  lemma NotReleasable(artifacts: seq<Artifact>, targets: seq<Target>, version: string, k: nat, t: Target)
    requires k < |artifacts| && t in targets && t.name == artifacts[k].name
    ensures !Releasable(artifacts[k], t.vendored, Names(targets), version) ==> !Complete(artifacts, targets, version)
  {
    hide Names, Releasable;
  }

  /** The first `k` tarballs are releasable expected packages, one each, and `missing` holds the other packages. */
  ghost predicate Accepted(artifacts: seq<Artifact>, k: nat, targets: seq<Target>, version: string, missing: set<string>)
    requires k <= |artifacts|
  {
    && (forall i, j :: 0 <= i < j < k ==> artifacts[i].name != artifacts[j].name)
    && (forall i :: 0 <= i < k ==> artifacts[i].name in Names(targets))
    && (forall name :: name in missing <==> name in Names(targets) && forall i :: 0 <= i < k ==> artifacts[i].name != name)
    && forall i, t :: 0 <= i < k && t in targets && artifacts[i].name == t.name ==>
         Releasable(artifacts[i], t.vendored, Names(targets), version)
  }

  lemma AcceptNext(artifacts: seq<Artifact>, k: nat, targets: seq<Target>, version: string, missing: set<string>, t: Target)
    requires k < |artifacts| && Accepted(artifacts, k, targets, version, missing)
    requires UniqueTargets(targets) && t in targets && t.name == artifacts[k].name && t.name in missing
    requires Releasable(artifacts[k], t.vendored, Names(targets), version)
    ensures Accepted(artifacts, k + 1, targets, version, missing - {artifacts[k].name})
  {
    hide Names, Releasable;
    forall i, u | 0 <= i <= k && u in targets && artifacts[i].name == u.name
      ensures Releasable(artifacts[i], u.vendored, Names(targets), version) {
      if i == k { assert u == t; }
    }
  }

  lemma NotMissing(artifacts: seq<Artifact>, k: nat, targets: seq<Target>, version: string, missing: set<string>)
    requires k < |artifacts| && Accepted(artifacts, k, targets, version, missing) && artifacts[k].name !in missing
    ensures !Complete(artifacts, targets, version)
  {
    hide Names, Releasable;
    assert artifacts[k].name in (set a <- artifacts :: a.name);
  }

  /** Every tarball accepted: the bundle is complete unless a package is missing. */
  lemma AllAccepted(artifacts: seq<Artifact>, targets: seq<Target>, version: string, missing: set<string>)
    requires Accepted(artifacts, |artifacts|, targets, version, missing)
    ensures Complete(artifacts, targets, version) <==> missing == {}
  {
    hide Names, Releasable;
    var names := set a <- artifacts :: a.name;
    assert names == Names(targets) <==> missing == {} by {
      if missing == {} {
        assert forall name <- Names(targets) :: name in names;
      } else {
        var name :| name in missing;
        assert name !in names;
      }
    }
  }

  /** `sort` by `localeCompare` of the names. */
  function Insert(cmp: PackageOrder.Compare, t: Target, sorted: seq<Target>): (r: seq<Target>)
    ensures forall x :: x in r <==> x == t || x in sorted
  {
    if sorted == [] || cmp(t.name, sorted[0].name) < 0 then [t] + sorted else [sorted[0]] + Insert(cmp, t, sorted[1..])
  }

  function SortByName(cmp: PackageOrder.Compare, ts: seq<Target>): (r: seq<Target>)
    ensures forall x :: x in r <==> x in ts
  {
    if ts == [] then [] else Insert(cmp, ts[0], SortByName(cmp, ts[1..]))
  }

  ghost predicate Before(cmp: PackageOrder.Compare, t: Target, ts: seq<Target>) {
    forall x <- ts :: cmp(t.name, x.name) < 0
  }

  /** Each package strictly before all that follow. */
  ghost predicate Sorted(cmp: PackageOrder.Compare, ts: seq<Target>) {
    ts != [] ==> Before(cmp, ts[0], ts[1..]) && Sorted(cmp, ts[1..])
  }

  lemma Transitive(cmp: PackageOrder.Compare, t: Target, u: Target, ts: seq<Target>)
    requires PackageOrder.TotalOrder(cmp) && t.name != u.name
    ensures cmp(t.name, u.name) < 0 && Before(cmp, u, ts) ==> Before(cmp, t, [u] + ts)
    ensures cmp(t.name, u.name) >= 0 ==> cmp(u.name, t.name) < 0
  {
  }

  lemma {:induction false} InsertSorted(cmp: PackageOrder.Compare, t: Target, sorted: seq<Target>)
    requires PackageOrder.TotalOrder(cmp) && Sorted(cmp, sorted) && forall x <- sorted :: x.name != t.name
    ensures Sorted(cmp, Insert(cmp, t, sorted))
  {
    if sorted != [] {
      var u, rest := sorted[0], sorted[1..];
      assert u in sorted && forall x <- rest :: x in sorted;
      Transitive(cmp, t, u, rest);
      InsertSorted(cmp, t, rest);
      hide PackageOrder.TotalOrder;
      assert [u] + rest == sorted && ([t] + sorted)[1..] == sorted && ([u] + Insert(cmp, t, rest))[1..] == Insert(cmp, t, rest);
    }
  }

  lemma {:induction false} SortByNameSorted(cmp: PackageOrder.Compare, ts: seq<Target>)
    requires PackageOrder.TotalOrder(cmp) && UniqueTargets(ts)
    ensures Sorted(cmp, SortByName(cmp, ts))
  {
    if ts != [] {
      SortByNameSorted(cmp, ts[1..]);
      InsertSorted(cmp, ts[0], SortByName(cmp, ts[1..]));
    }
  }

  /** `create`, up to writing the manifest: accepts exactly the complete bundles, and lists their packages by name. */
  method Create(artifacts: seq<Artifact>, targets: seq<Target>, version: string, cmp: PackageOrder.Compare) returns (r: Option<seq<Target>>)
    requires UniqueTargets(targets) && PackageOrder.TotalOrder(cmp) && forall a <- artifacts :: UniqueKeys(a.manifest)
    ensures r.Some? <==> Complete(artifacts, targets, version)
    ensures r.Some? ==> Sorted(cmp, r.value) && forall t :: t in r.value <==> t in targets
  {
    hide UniqueKeys, Releasable, Complete, Accepted, Names, UniqueTargets, Sorted;
    var internal := Names(targets);
    var missing := internal;
    var packages: seq<Target> := [];
    NoneAccepted(artifacts, targets, version);
    for k := 0 to |artifacts|
      invariant missing <= internal && Accepted(artifacts, k, targets, version, missing)
      invariant |packages| == k && forall i :: 0 <= i < k ==> packages[i] in targets && packages[i].name == artifacts[i].name
    {
      var a := artifacts[k];
      var expected := FindTarget(targets, a.name);
      if expected.None? || a.name !in missing {
        NotMissing(artifacts, k, targets, version, missing);
        return None;
      }
      NotReleasable(artifacts, targets, version, k, expected.value);
      var releasable := CheckTarball(a, expected.value.vendored, internal, version);
      if !releasable { return None; }
      AcceptNext(artifacts, k, targets, version, missing, expected.value);
      missing := missing - {a.name};
      packages := packages + [expected.value];
    }
    AllAccepted(artifacts, targets, version, missing);
    if missing != {} { return None; }
    PackagesAreTargets(artifacts, targets, version, packages);
    SortByNameSorted(cmp, packages);
    r := Some(SortByName(cmp, packages));
  }

  lemma PackagesAreTargets(artifacts: seq<Artifact>, targets: seq<Target>, version: string, packages: seq<Target>)
    requires UniqueTargets(targets) && Complete(artifacts, targets, version) && |packages| == |artifacts|
    requires forall i :: 0 <= i < |packages| ==> packages[i] in targets && packages[i].name == artifacts[i].name
    ensures UniqueTargets(packages) && forall t :: t in packages <==> t in targets
  {
    hide Releasable;
    forall t | t in targets ensures t in packages {
      assert t.name in Names(targets);
      var a :| a in artifacts && a.name == t.name;
      var i :| 0 <= i < |artifacts| && artifacts[i] == a;
      assert packages[i].name == t.name;
    }
  }

  lemma NoneAccepted(artifacts: seq<Artifact>, targets: seq<Target>, version: string)
    ensures Accepted(artifacts, 0, targets, version, Names(targets))
  {
  }
}
