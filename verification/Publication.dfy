/** `RegistryPublication` of `scripts/publish-npm-baseline.ts`: publishing a release bundle package
    by package, with the client killed anywhere, and verifying it. */
module Publication {
  import opened Options
  import opened NpmRegistry

  const RELEASE_ENTRY_PACKAGE := "@deepseek-ai/dsh"
  const LATEST_DIST_TAG := "latest"

  datatype Package = Package(name: string, integrity: string)

  datatype Bundle = Bundle(packages: seq<Package>, version: string, distTag: string)

  predicate IsSha512(integrity: string) {
    "sha512-" <= integrity
  }

  /** What `ReleaseBundle.load` guarantees. */
  ghost predicate BundleOk(b: Bundle) {
    && (forall i, j :: 0 <= i < j < |b.packages| ==> b.packages[i].name != b.packages[j].name)
    && (forall p <- b.packages :: IsSha512(p.integrity))
  }

  datatype Error =
    | Conflict(name: string)
    | NoIntegrity(name: string)
    | CommandFailed(name: string)
    | MissingPackage(name: string)
    | IntegrityMismatch(name: string)
    | TagMismatch(name: string, tag: string)

  /** How a run ends: it returns, it is killed between two commands, or it throws. */
  datatype Outcome = Returned | Died | Threw(error: Error)

  // ----------------------------------------------- what the registry should become

  function Put(b: Bundle, r: Reg, p: Package): Reg {
    Reg(r.versions[(p.name, b.version) := p.integrity], r.tags[(p.name, b.distTag) := b.version])
  }

  /** The registry with the first `n` packages of the bundle in place. */
  function Staged(b: Bundle, r: Reg, n: nat): Reg
    requires n <= |b.packages|
  {
    if n == 0 then r else Put(b, Staged(b, r, n - 1), b.packages[n - 1])
  }

  /** All of them in place, and the entry package tagged `latest`. */
  function Released(b: Bundle, r: Reg): Reg {
    var s := Staged(b, r, |b.packages|);
    Reg(s.versions, s.tags[(RELEASE_ENTRY_PACKAGE, LATEST_DIST_TAG) := b.version])
  }

  /** None of the first `n` packages is already there with other contents. */
  ghost predicate Compatible(b: Bundle, r: Reg, n: nat)
    requires n <= |b.packages|
  {
    forall i :: 0 <= i < n && (b.packages[i].name, b.version) in r.versions ==>
      r.versions[(b.packages[i].name, b.version)] == b.packages[i].integrity
  }

  ghost predicate InManifest(b: Bundle, name: string) {
    exists i :: 0 <= i < |b.packages| && b.packages[i].name == name
  }

  /** A publication from `r` can go through. */
  ghost predicate Publishable(b: Bundle, r: Reg) {
    && Compatible(b, r, |b.packages|)
    && (InManifest(b, RELEASE_ENTRY_PACKAGE) || (RELEASE_ENTRY_PACKAGE, b.version) in r.versions)
  }

  /** Package `i` is there with its own contents and dist-tag. */
  ghost predicate InPlace(b: Bundle, r: Reg, i: nat)
    requires i < |b.packages|
  {
    var p := b.packages[i];
    && (p.name, b.version) in r.versions && r.versions[(p.name, b.version)] == p.integrity
    && TagOf(r, p.name, b.distTag) == Some(b.version)
  }

  ghost predicate AllInPlace(b: Bundle, r: Reg) {
    forall i: nat :: i < |b.packages| ==> InPlace(b, r, i)
  }

  /** What `verify` accepts. */
  ghost predicate Verified(b: Bundle, r: Reg) {
    AllInPlace(b, r) && TagOf(r, RELEASE_ENTRY_PACKAGE, LATEST_DIST_TAG) == Some(b.version)
  }

  lemma {:induction false} StagedInPlace(b: Bundle, r: Reg, n: nat, i: nat)
    requires BundleOk(b) && i < n <= |b.packages|
    ensures InPlace(b, Staged(b, r, n), i)
  {
    if i < n - 1 {
      StagedInPlace(b, r, n - 1, i);
      assert b.packages[i].name != b.packages[n - 1].name;
    }
  }

  /** Staging only adds the bundle's own versions and tags. */
  lemma {:induction false} StagedKeys(b: Bundle, r: Reg, n: nat)
    requires n <= |b.packages|
    ensures r.versions.Keys <= Staged(b, r, n).versions.Keys
    ensures forall k :: k in Staged(b, r, n).versions && k !in r.versions ==>
              exists i :: 0 <= i < n && k == (b.packages[i].name, b.version)
    ensures forall k :: k in Staged(b, r, n).tags && (k !in r.tags || Staged(b, r, n).tags[k] != r.tags[k]) ==>
              exists i :: 0 <= i < n && k == (b.packages[i].name, b.distTag)
  {
    if n > 0 { StagedKeys(b, r, n - 1); }
  }

  /** Published versions never change their contents. */
  lemma {:induction false} StagedKeepsVersions(b: Bundle, r: Reg, n: nat, k: (string, string))
    requires BundleOk(b) && n <= |b.packages| && Compatible(b, r, n) && k in r.versions
    ensures k in Staged(b, r, n).versions && Staged(b, r, n).versions[k] == r.versions[k]
  {
    if n > 0 {
      assert Compatible(b, r, n - 1);
      StagedKeepsVersions(b, r, n - 1, k);
    }
  }

  lemma PutRegOk(b: Bundle, r: Reg, p: Package)
    requires RegOk(r)
    ensures RegOk(Put(b, r, p))
  {
    var s := Put(b, r, p);
    forall k | k in s.tags ensures (k.0, s.tags[k]) in s.versions {
      if k != (p.name, b.distTag) { assert k in r.tags; }
    }
  }

  lemma {:induction false} StagedRegOk(b: Bundle, r: Reg, n: nat)
    requires RegOk(r) && n <= |b.packages|
    ensures RegOk(Staged(b, r, n))
  {
    hide RegOk, Put;
    if n > 0 {
      StagedRegOk(b, r, n - 1);
      PutRegOk(b, Staged(b, r, n - 1), b.packages[n - 1]);
    }
  }

  /** Whether the next package conflicts is decided by the registry the run started from. */
  lemma NextPackageUntouched(b: Bundle, r: Reg, n: nat)
    requires BundleOk(b) && n < |b.packages| && Compatible(b, r, n)
    ensures var k := (b.packages[n].name, b.version);
            (k in Staged(b, r, n).versions <==> k in r.versions) &&
            (k in r.versions ==> Staged(b, r, n).versions[k] == r.versions[k])
  {
    var k := (b.packages[n].name, b.version);
    StagedKeys(b, r, n);
    if k in r.versions { StagedKeepsVersions(b, r, n, k); }
  }

  // ------------------------------------------------------------------ the commands

  /** How many commands `ensureDistTag` issues for a version that is there. */
  function TagCost(r: Reg, name: string, version: string, tag: string): nat {
    if TagOf(r, name, tag) == Some(version) then 1 else 2
  }

  /** How many commands the loop in `publish` issues for a package that does not conflict. */
  function Cost(b: Bundle, r: Reg, p: Package): nat {
    if (p.name, b.version) in r.versions then 1 + TagCost(r, p.name, b.version, b.distTag) else 3
  }

  /** And for the first `n` of them. */
  function Commands(b: Bundle, r: Reg, n: nat): nat
    requires n <= |b.packages|
  {
    if n == 0 then 0 else Commands(b, r, n - 1) + Cost(b, Staged(b, r, n - 1), b.packages[n - 1])
  }

  lemma {:induction false} CommandsGrow(b: Bundle, r: Reg, n: nat, m: nat)
    requires n < m <= |b.packages|
    ensures Commands(b, r, n) + Cost(b, Staged(b, r, n), b.packages[n]) <= Commands(b, r, m)
  {
    if n < m - 1 { CommandsGrow(b, r, n, m - 1); }
  }

  /** A budget that is used up at `m` and does not reach past `n` is used up at `n`. */
  lemma OneStop(b: Bundle, r: Reg, n: nat, m: nat)
    requires n <= |b.packages| && m <= |b.packages| && Commands(b, r, n) <= Commands(b, r, m)
    requires n < |b.packages| ==> Commands(b, r, m) < Commands(b, r, n) + Cost(b, Staged(b, r, n), b.packages[n])
    ensures m == n
  {
    hide Staged;
    if n < m { CommandsGrow(b, r, n, m); }
    if m < n { CommandsGrow(b, r, m, n); }
  }

  /** `ensureDistTag`. */
  method EnsureDistTag(reg: Registry, name: string, version: string, tag: string) returns (r: Reply<()>)
    requires reg.Valid()
    modifies reg
    ensures reg.Valid() && reg.life <= old(reg.life) <= reg.life + 2
    ensures r.Killed? ==> old(reg.life) < 2
    ensures old(reg.life) == 0 ==> r.Killed?
    ensures r.NotFound? ==> (name, version) !in old(reg.versions)
    ensures r.Reply? ==> (name, version) in old(reg.versions) && old(reg.life) == reg.life + TagCost(old(reg.State()), name, version, tag)
    ensures (name, version) in old(reg.versions) ==> (r.Killed? <==> old(reg.life) < TagCost(old(reg.State()), name, version, tag))
    ensures reg.State() == if r.Reply? then Reg(old(reg.versions), old(reg.tags)[(name, tag) := version]) else old(reg.State())
  {
    var listed := reg.TagVersion(name, tag);
    if !listed.Reply? { return if listed.Killed? then Killed else NotFound; }
    if listed.value == Some(version) {
      assert old(reg.tags) == old(reg.tags)[(name, tag) := version];
      return Reply(());
    }
    r := reg.TagAdd(name, version, tag);
  }

  /** The integrity the registry reports, or the error `remoteIntegrity` throws. */
  method RemoteIntegrity(reg: Registry, name: string, version: string) returns (o: Outcome, integrity: Option<string>)
    modifies reg`life
    ensures reg.life <= old(reg.life) <= reg.life + 1
    ensures o.Died? <==> old(reg.life) == 0
    ensures !o.Died? ==> old(reg.life) == reg.life + 1
    ensures o.Returned? ==> integrity == if (name, version) in reg.versions then Some(reg.versions[(name, version)]) else None
    ensures o.Threw? ==> (name, version) in reg.versions && !("sha512-" <= reg.versions[(name, version)]) && o.error == NoIntegrity(name)
    ensures o.Returned? ==> integrity.None? || "sha512-" <= integrity.value
  {
    integrity := None;
    var seen := reg.View(name, version);
    if seen.Killed? { return Died, None; }
    if seen.value.Some? && !IsSha512(seen.value.value) { return Threw(NoIntegrity(name)), None; }
    return Returned, seen.value;
  }

  /** One turn of the loop in `publish`. */
  method PublishOne(reg: Registry, b: Bundle, p: Package) returns (o: Outcome)
    requires reg.Valid() && IsSha512(p.integrity)
    modifies reg
    ensures reg.Valid() && reg.life <= old(reg.life) <= reg.life + 3
    ensures o.Returned? ==> reg.State() == Put(b, old(reg.State()), p)
    ensures o.Returned? && (p.name, b.version) in old(reg.versions) ==> old(reg.versions)[(p.name, b.version)] == p.integrity
    ensures o.Returned? ==> old(reg.life) == reg.life + Cost(b, old(reg.State()), p)
    ensures o.Died? ==> old(reg.life) < Cost(b, old(reg.State()), p)
    ensures old(reg.life) == 0 ==> o.Died? && reg.State() == old(reg.State())
    ensures o.Died? && reg.State() != old(reg.State()) ==>
              reg.State() == Put(b, old(reg.State()), p) && (p.name, b.version) !in old(reg.versions)
    ensures o.Threw? ==>
              && reg.State() == old(reg.State()) && (p.name, b.version) in old(reg.versions)
              && old(reg.versions)[(p.name, b.version)] != p.integrity
              && o.error == if IsSha512(old(reg.versions)[(p.name, b.version)]) then Conflict(p.name) else NoIntegrity(p.name)
  {
    var integrity;
    o, integrity := RemoteIntegrity(reg, p.name, b.version);
    if !o.Returned? { return; }
    if integrity.None? {
      var published := reg.Publish(p.name, b.version, p.integrity, b.distTag);
      if published.Killed? { return Died; }
      assert published.Reply? && TagCost(reg.State(), p.name, b.version, b.distTag) == 1;
    } else {
      if integrity.value != p.integrity { return Threw(Conflict(p.name)); }
      assert reg.versions == reg.versions[(p.name, b.version) := p.integrity];
      assert reg.State() == old(reg.State());
    }
    var tagged := EnsureDistTag(reg, p.name, b.version, b.distTag);
    if tagged.Killed? { return Died; }
    if tagged.NotFound? { return Threw(CommandFailed(p.name)); }
    assert reg.tags == old(reg.tags)[(p.name, b.distTag) := b.version];
  }

  /** What is wrong with package `i`: nothing there, no integrity, another one, or another tag. */
  ghost function Complaint(b: Bundle, r: Reg, i: nat): Error
    requires i < |b.packages|
  {
    var p := b.packages[i];
    var k := (p.name, b.version);
    if k !in r.versions then MissingPackage(p.name)
    else if !IsSha512(r.versions[k]) then NoIntegrity(p.name)
    else if r.versions[k] != p.integrity then IntegrityMismatch(p.name)
    else TagMismatch(p.name, b.distTag)
  }

  /** `verifyRemote`, over one package. */
  method VerifyOne(reg: Registry, b: Bundle, i: nat) returns (o: Outcome)
    requires i < |b.packages| && IsSha512(b.packages[i].integrity)
    modifies reg`life
    ensures reg.life <= old(reg.life) <= reg.life + 2
    ensures o.Returned? ==> InPlace(b, reg.State(), i)
    ensures o.Threw? ==> !InPlace(b, reg.State(), i) && o.error == Complaint(b, reg.State(), i)
    ensures o.Died? ==> old(reg.life) < 2
    ensures old(reg.life) == 0 ==> o.Died?
  {
    var p := b.packages[i];
    var integrity;
    o, integrity := RemoteIntegrity(reg, p.name, b.version);
    if !o.Returned? { return; }
    if integrity.None? { return Threw(MissingPackage(p.name)); }
    if integrity.value != p.integrity { return Threw(IntegrityMismatch(p.name)); }
    var tag := reg.TagVersion(p.name, b.distTag);
    if tag.Killed? { return Died; }
    if tag.NotFound? { return Threw(CommandFailed(p.name)); }
    if tag.value != Some(b.version) { return Threw(TagMismatch(p.name, b.distTag)); }
  }

  /** The first package not in place is complained of, or else the entry package's `latest`. */
  ghost predicate Complains(b: Bundle, r: Reg, error: Error) {
    || (exists i: nat :: i < |b.packages| && !InPlace(b, r, i) && error == Complaint(b, r, i) && forall j: nat :: j < i ==> InPlace(b, r, j))
    || (AllInPlace(b, r) && error == if forall v :: (RELEASE_ENTRY_PACKAGE, v) !in r.versions
                                     then CommandFailed(RELEASE_ENTRY_PACKAGE)
                                     else TagMismatch(RELEASE_ENTRY_PACKAGE, LATEST_DIST_TAG))
  }

  /** `verifyRemote` then `verifyReleaseEntryDistTag`: accepts exactly the verified registries. */
  method Verify(reg: Registry, b: Bundle) returns (o: Outcome)
    requires reg.Valid() && BundleOk(b)
    modifies reg`life
    ensures reg.life <= old(reg.life)
    ensures o.Returned? ==> Verified(b, reg.State())
    ensures o.Threw? ==> !Verified(b, reg.State()) && Complains(b, reg.State(), o.error)
    ensures o.Died? ==> old(reg.life) < 2 * |b.packages| + 1
    ensures old(reg.life) == 0 ==> o.Died?
  {
    ghost var r := reg.State();
    for i := 0 to |b.packages|
      invariant reg.life <= old(reg.life) <= reg.life + 2 * i && reg.State() == r
      invariant forall j: nat :: j < i ==> InPlace(b, r, j)
    {
      assert b.packages[i] in b.packages;
      o := VerifyOne(reg, b, i);
      if !o.Returned? { return; }
    }
    var tag := reg.TagVersion(RELEASE_ENTRY_PACKAGE, LATEST_DIST_TAG);
    if tag.Killed? { return Died; }
    if tag.NotFound? {
      assert (RELEASE_ENTRY_PACKAGE, LATEST_DIST_TAG) !in reg.tags;
      return Threw(CommandFailed(RELEASE_ENTRY_PACKAGE));
    }
    if tag.value != Some(b.version) { return Threw(TagMismatch(RELEASE_ENTRY_PACKAGE, LATEST_DIST_TAG)); }
    o := Returned;
  }

  // ---------------------------------------------------------------------- publish

  /** Where a run that started from `r` can have been cut off: after whole packages, or after `latest`. */
  ghost predicate CutOff(b: Bundle, r: Reg, s: Reg) {
    || (exists n: nat :: n <= |b.packages| && Compatible(b, r, n) && s == Staged(b, r, n))
    || (Publishable(b, r) && s == Released(b, r))
  }

  /** A client that lives for `life` commands is killed with the registry at `s`. */
  ghost predicate RunsDry(b: Bundle, r: Reg, s: Reg, life: nat) {
    || (exists n: nat :: n <= |b.packages| && Compatible(b, r, n) && s == Staged(b, r, n) && life == Commands(b, r, n))
    || (Publishable(b, r) && s == Released(b, r) && life == CommandsToRelease(b, r))
  }

  /** Up to and including the `latest` tag. */
  function CommandsToRelease(b: Bundle, r: Reg): nat {
    Commands(b, r, |b.packages|) + TagCost(Staged(b, r, |b.packages|), RELEASE_ENTRY_PACKAGE, b.version, LATEST_DIST_TAG)
  }

  /** Every cut-off point is where some client dies. */
  lemma CutOffIsReached(b: Bundle, r: Reg, s: Reg)
    ensures CutOff(b, r, s) <==> exists life :: RunsDry(b, r, s, life)
  {
    hide Publishable, Compatible, Staged, Released, Commands;
    if n: nat :| n <= |b.packages| && Compatible(b, r, n) && s == Staged(b, r, n) {
      assert RunsDry(b, r, s, Commands(b, r, n));
    } else if CutOff(b, r, s) {
      assert RunsDry(b, r, s, CommandsToRelease(b, r));
    }
  }

  /** One run of `publish`, from `r` to `s`: it returns only from a publishable registry and leaves
      the finished one, throws only from one that is not publishable, and otherwise was killed. */
  ghost predicate Attempt(b: Bundle, r: Reg, s: Reg, o: Outcome) {
    && CutOff(b, r, s)
    && (o.Returned? ==> Publishable(b, r) && s == Released(b, r))
    && (o.Threw? ==> !Publishable(b, r))
  }

  /** The entry package is there by the time it is tagged, or never will be. */
  lemma EntryPresence(b: Bundle, r: Reg)
    requires BundleOk(b)
    ensures (RELEASE_ENTRY_PACKAGE, b.version) in Staged(b, r, |b.packages|).versions <==>
            InManifest(b, RELEASE_ENTRY_PACKAGE) || (RELEASE_ENTRY_PACKAGE, b.version) in r.versions
  {
    StagedKeys(b, r, |b.packages|);
    if i :| 0 <= i < |b.packages| && b.packages[i].name == RELEASE_ENTRY_PACKAGE {
      StagedInPlace(b, r, |b.packages|, i);
    }
  }

  /** A finished registry passes verification. */
  lemma ReleasedIsVerified(b: Bundle, r: Reg)
    requires BundleOk(b)
    ensures Verified(b, Released(b, r))
  {
    forall i: nat | i < |b.packages| ensures InPlace(b, Released(b, r), i) {
      StagedInPlace(b, r, |b.packages|, i);
    }
  }

  /** The error for package `n`, which is already there with other contents. */
  ghost function ConflictWith(b: Bundle, r: Reg, n: nat): Error
    requires n < |b.packages|
  {
    var k := (b.packages[n].name, b.version);
    if k in r.versions && IsSha512(r.versions[k]) then Conflict(b.packages[n].name) else NoIntegrity(b.packages[n].name)
  }

  /** What `publish` throws: it names the first conflicting package, or the entry package that was never published. */
  ghost predicate Refuses(b: Bundle, r: Reg, error: Error) {
    || (exists n: nat :: n < |b.packages| && Compatible(b, r, n) && !Compatible(b, r, n + 1) && error == ConflictWith(b, r, n))
    || (Compatible(b, r, |b.packages|) && !Publishable(b, r) && error == CommandFailed(RELEASE_ENTRY_PACKAGE))
  }

  /** The loop of `publish`: `n` packages went through, for `Commands(b, r, n)` commands, and `spare` were left. */
  method PublishPackages(reg: Registry, b: Bundle) returns (o: Outcome, ghost n: nat, ghost spare: nat)
    requires reg.Valid() && BundleOk(b)
    modifies reg
    ensures reg.Valid() && n <= |b.packages| && Compatible(b, old(reg.State()), n)
    ensures old(reg.life) == Commands(b, old(reg.State()), n) + spare
    ensures o.Returned? ==> n == |b.packages| && reg.State() == Staged(b, old(reg.State()), n) && reg.life == spare
    ensures !o.Returned? ==> n < |b.packages|
    ensures o.Died? ==> spare < Cost(b, Staged(b, old(reg.State()), n), b.packages[n])
    ensures o.Died? && reg.State() != Staged(b, old(reg.State()), n) ==>
              spare > 0 && Compatible(b, old(reg.State()), n + 1) && reg.State() == Staged(b, old(reg.State()), n + 1)
    ensures o.Threw? ==> spare > 0 && !Compatible(b, old(reg.State()), n + 1) && reg.State() == Staged(b, old(reg.State()), n)
    ensures o.Threw? ==> o.error == ConflictWith(b, old(reg.State()), n)
  {
    hide Put, RegOk, Cost, Commands;
    ghost var r := reg.State();
    n, spare := 0, reg.life;
    NoCommands(b, r);
    for k := 0 to |b.packages|
      invariant n == k && reg.Valid() && reg.life == spare && old(reg.life) == Commands(b, r, n) + spare
      invariant Compatible(b, r, n) && reg.State() == Staged(b, r, n)
    {
      assert b.packages[n] in b.packages;
      NextPackageUntouched(b, r, n);
      OneMore(b, r, n);
      o := PublishOne(reg, b, b.packages[k]);
      if !o.Returned? { return; }
      n, spare := n + 1, reg.life;
    }
    o := Returned;
  }

  lemma NoCommands(b: Bundle, r: Reg)
    ensures Commands(b, r, 0) == 0 && Staged(b, r, 0) == r
  {
  }

  lemma OneMore(b: Bundle, r: Reg, n: nat)
    requires n < |b.packages|
    ensures Staged(b, r, n + 1) == Put(b, Staged(b, r, n), b.packages[n])
    ensures Commands(b, r, n + 1) == Commands(b, r, n) + Cost(b, Staged(b, r, n), b.packages[n])
  {
    hide Put, Cost;
  }

  lemma {:induction false} CommandsBound(b: Bundle, r: Reg, n: nat)
    requires n <= |b.packages|
    ensures Commands(b, r, n) <= 3 * n
  {
    hide Staged;
    if n > 0 { CommandsBound(b, r, n - 1); }
  }

  /** What is left of the budget once the packages are through. */
  lemma DryAfterPackages(b: Bundle, r: Reg, s: Reg, life: nat, rest: nat)
    requires RunsDry(b, r, s, life) && life == rest + Commands(b, r, |b.packages|)
    ensures (rest == 0 && s == Staged(b, r, |b.packages|))
         || (Publishable(b, r) && s == Released(b, r) && life == CommandsToRelease(b, r))
  {
    hide Staged, Released, Publishable, Compatible;
    if n: nat :| n <= |b.packages| && Compatible(b, r, n) && s == Staged(b, r, n) && life == Commands(b, r, n) {
      OneStop(b, r, |b.packages|, n);
    }
  }

  /** A budget that ends inside the loop is used up at a package or not at all. */
  lemma DryAtPackages(b: Bundle, r: Reg, s: Reg, n: nat, spare: nat)
    requires n < |b.packages| && RunsDry(b, r, s, Commands(b, r, n) + spare)
    requires spare < Cost(b, Staged(b, r, n), b.packages[n]) || (spare > 0 && !Compatible(b, r, n + 1))
    ensures spare == 0 && s == Staged(b, r, n)
  {
    hide Staged, Released, Cost, Publishable, Compatible, Commands, TagCost;
    if m: nat :| m <= |b.packages| && Compatible(b, r, m) && s == Staged(b, r, m) && Commands(b, r, n) + spare == Commands(b, r, m) {
      SamePackage(b, r, n, m, spare);
    } else {
      AllCompatible(b, r, n);
      CommandsGrow(b, r, n, |b.packages|);
    }
  }

  lemma AllCompatible(b: Bundle, r: Reg, n: nat)
    requires n < |b.packages| && Publishable(b, r)
    ensures Compatible(b, r, n + 1) && Commands(b, r, |b.packages|) < CommandsToRelease(b, r)
  {
    hide Commands, Staged;
  }

  lemma SamePackage(b: Bundle, r: Reg, n: nat, m: nat, spare: nat)
    requires n < |b.packages| && m <= |b.packages| && Compatible(b, r, m) && Commands(b, r, n) + spare == Commands(b, r, m)
    requires spare < Cost(b, Staged(b, r, n), b.packages[n]) || (spare > 0 && !Compatible(b, r, n + 1))
    ensures spare == 0 && m == n
  {
    hide Staged, Cost, Commands;
    if n < m { CommandsGrow(b, r, n, m); }
    if m < n {
      CommandsGrow(b, r, m, n);
      CostIsPositive(b, Staged(b, r, m), b.packages[m]);
    }
  }

  lemma CostIsPositive(b: Bundle, r: Reg, p: Package)
    ensures Cost(b, r, p) > 0
  {
  }

  /** What `Attempt` says of a run that stops in the loop, and of one that gets past it. */
  lemma StoppedAtPackage(b: Bundle, r: Reg, s: Reg, o: Outcome, n: nat)
    requires n < |b.packages| && Compatible(b, r, n) && !o.Returned? && (o.Threw? ==> !Compatible(b, r, n + 1))
    requires s == Staged(b, r, n) || (Compatible(b, r, n + 1) && s == Staged(b, r, n + 1))
    ensures Attempt(b, r, s, o)
  {
    hide Staged, Released;
  }

  lemma AfterTagging(b: Bundle, r: Reg, s: Reg, tagged: bool)
    requires Compatible(b, r, |b.packages|)
    requires tagged ==> InManifest(b, RELEASE_ENTRY_PACKAGE) || (RELEASE_ENTRY_PACKAGE, b.version) in r.versions
    requires s == if tagged then Reg(Staged(b, r, |b.packages|).versions, Staged(b, r, |b.packages|).tags[(RELEASE_ENTRY_PACKAGE, LATEST_DIST_TAG) := b.version])
                  else Staged(b, r, |b.packages|)
    ensures tagged ==> s == Released(b, r) && forall o: Outcome :: !o.Threw? ==> Attempt(b, r, s, o)
    ensures !tagged ==> Attempt(b, r, s, Died)
    ensures !tagged && !Publishable(b, r) ==> forall o: Outcome :: o.Threw? ==> Attempt(b, r, s, o)
    ensures !tagged ==> forall o: Outcome :: o.Threw? && Attempt(b, r, s, o) ==> !Publishable(b, r)
  {
    hide Staged;
  }

  /** The rest of `publish`: tag the entry package `latest`, and verify. */
  method TagAndVerify(reg: Registry, b: Bundle, ghost r: Reg) returns (o: Outcome)
    requires reg.Valid() && BundleOk(b) && Compatible(b, r, |b.packages|) && reg.State() == Staged(b, r, |b.packages|)
    modifies reg
    ensures reg.Valid() && Attempt(b, r, reg.State(), o)
    ensures o.Threw? ==> !Publishable(b, r) && o.error == CommandFailed(RELEASE_ENTRY_PACKAGE)
    ensures o.Died? ==> old(reg.life) < 2 * |b.packages| + 3
    ensures old(reg.life) == 0 ==> o.Died? && reg.State() == old(reg.State())
    ensures Publishable(b, r) && old(reg.life) == TagCost(old(reg.State()), RELEASE_ENTRY_PACKAGE, b.version, LATEST_DIST_TAG) ==>
              o.Died? && reg.State() == Released(b, r)
  {
    EntryPresence(b, r);
    assert Publishable(b, r) ==> (RELEASE_ENTRY_PACKAGE, b.version) in reg.versions;
    hide Verified, Staged, Released, Attempt, Compatible, BundleOk;
    var tagged := EnsureDistTag(reg, RELEASE_ENTRY_PACKAGE, b.version, LATEST_DIST_TAG);
    AfterTagging(b, r, reg.State(), tagged.Reply?);
    if !tagged.Reply? {
      o := if tagged.Killed? then Died else Threw(CommandFailed(RELEASE_ENTRY_PACKAGE));
      return;
    }
    ReleasedIsVerified(b, r);
    o := Verify(reg, b);
  }

  lemma DryPastLoop(b: Bundle, r: Reg, life: nat, rest: nat)
    requires life == Commands(b, r, |b.packages|) + rest
    ensures forall s :: RunsDry(b, r, s, life) ==>
      (rest == 0 && s == Staged(b, r, |b.packages|))
      || (Publishable(b, r) && s == Released(b, r) && rest == TagCost(Staged(b, r, |b.packages|), RELEASE_ENTRY_PACKAGE, b.version, LATEST_DIST_TAG))
  {
    hide RunsDry, Commands, Staged, Released, Publishable;
    forall s | RunsDry(b, r, s, life)
      ensures (rest == 0 && s == Staged(b, r, |b.packages|))
        || (Publishable(b, r) && s == Released(b, r) && rest == TagCost(Staged(b, r, |b.packages|), RELEASE_ENTRY_PACKAGE, b.version, LATEST_DIST_TAG)) {
      DryAfterPackages(b, r, s, life, rest);
    }
  }

  lemma DryInLoop(b: Bundle, r: Reg, life: nat, o: Outcome, n: nat, spare: nat)
    requires n < |b.packages| && life == Commands(b, r, n) + spare
    requires o.Died? ==> spare < Cost(b, Staged(b, r, n), b.packages[n])
    requires !o.Died? ==> spare > 0 && !Compatible(b, r, n + 1)
    ensures forall s :: RunsDry(b, r, s, life) ==> spare == 0 && s == Staged(b, r, n) && o.Died?
  {
    hide RunsDry, Commands, Staged, Cost, Compatible;
    forall s | RunsDry(b, r, s, life) ensures spare == 0 && s == Staged(b, r, n) && o.Died? {
      DryAtPackages(b, r, s, n, spare);
    }
  }

  /** `publish`. With enough life it returns exactly when the release can go through, and leaves the
      one finished registry; killed anywhere, it leaves whole packages only, and every such state is one in which
      some client is killed. */
  method Publish(reg: Registry, b: Bundle) returns (o: Outcome)
    requires reg.Valid() && BundleOk(b)
    modifies reg
    ensures reg.Valid() && Attempt(b, old(reg.State()), reg.State(), o)
    ensures o.Threw? ==> Refuses(b, old(reg.State()), o.error)
    ensures o.Died? ==> old(reg.life) < 5 * |b.packages| + 3
    ensures forall s :: RunsDry(b, old(reg.State()), s, old(reg.life)) ==> o.Died? && reg.State() == s
  {
    ghost var r := reg.State();
    hide RunsDry, Commands, Cost, TagCost, Staged, Released, Attempt, Compatible, Publishable, BundleOk, RegOk;
    ghost var n, rest;
    o, n, rest := PublishPackages(reg, b);
    CommandsBound(b, r, n);
    if o.Returned? {
      DryPastLoop(b, r, old(reg.life), rest);
      o := TagAndVerify(reg, b, r);
    } else {
      DryInLoop(b, r, old(reg.life), o, n, rest);
      CostBound(b, Staged(b, r, n), b.packages[n]);
      StoppedAtPackage(b, r, reg.State(), o, n);
    }
  }

  lemma CostBound(b: Bundle, r: Reg, p: Package)
    ensures Cost(b, r, p) <= 3
  {
  }
}
