/** Publication over any history of interrupted, failed and repeated runs. */
module PublicationRuns {
  import opened NpmRegistry
  import opened Publication

  ghost predicate RunAt(b: Bundle, regs: seq<Reg>, outcomes: seq<Outcome>, i: nat)
    requires |regs| == |outcomes| + 1 && i < |outcomes|
  {
    Attempt(b, regs[i], regs[i + 1], outcomes[i])
  }

  /** One publisher running `publish` again and again on one bundle. */
  ghost predicate History(b: Bundle, regs: seq<Reg>, outcomes: seq<Outcome>) {
    && |regs| == |outcomes| + 1
    && forall i: nat :: i < |outcomes| ==> RunAt(b, regs, outcomes, i)
  }

  // ------------------------------------------------- staging what is already staged

  lemma PutAgain(b: Bundle, r: Reg, i: nat)
    requires i < |b.packages| && InPlace(b, r, i)
    ensures Put(b, r, b.packages[i]) == r
  {
    var p := b.packages[i];
    assert r.versions[(p.name, b.version) := p.integrity] == r.versions;
    assert r.tags[(p.name, b.distTag) := b.version] == r.tags;
  }

  lemma {:induction false} StagedAgain(b: Bundle, s: Reg, m: nat)
    requires m <= |b.packages| && forall i: nat :: i < m ==> InPlace(b, s, i)
    ensures Staged(b, s, m) == s
  {
    if m > 0 {
      StagedAgain(b, s, m - 1);
      PutAgain(b, s, m - 1);
    }
  }

  function Max(n: nat, m: nat): nat {
    if n < m then m else n
  }

  lemma {:induction false} Restage(b: Bundle, r: Reg, n: nat, m: nat)
    requires BundleOk(b) && n <= |b.packages| && m <= |b.packages|
    ensures Staged(b, Staged(b, r, n), m) == Staged(b, r, Max(n, m))
  {
    if m <= n {
      forall i: nat | i < m ensures InPlace(b, Staged(b, r, n), i) { StagedInPlace(b, r, n, i); }
      StagedAgain(b, Staged(b, r, n), m);
    } else {
      Restage(b, r, n, m - 1);
    }
  }

  lemma RereleaseStaged(b: Bundle, r: Reg, n: nat)
    requires BundleOk(b) && n <= |b.packages|
    ensures Released(b, Staged(b, r, n)) == Released(b, r)
  {
    Restage(b, r, n, |b.packages|);
  }

  lemma RestageReleased(b: Bundle, r: Reg, m: nat)
    requires BundleOk(b) && m <= |b.packages|
    ensures Staged(b, Released(b, r), m) == Released(b, r)
    ensures Released(b, Released(b, r)) == Released(b, r)
  {
    ReleasedIsVerified(b, r);
    StagedAgain(b, Released(b, r), m);
    StagedAgain(b, Released(b, r), |b.packages|);
  }

  /** Staging the first `n` packages neither creates nor removes a conflict further on. */
  lemma CompatibleAfterStaging(b: Bundle, r: Reg, n: nat, m: nat)
    requires BundleOk(b) && n <= |b.packages| && m <= |b.packages| && Compatible(b, r, n)
    ensures Compatible(b, Staged(b, r, n), m) <==> Compatible(b, r, Max(n, m))
  {
    forall i | 0 <= i < m
      ensures var k := (b.packages[i].name, b.version);
              (k in Staged(b, r, n).versions ==> Staged(b, r, n).versions[k] == b.packages[i].integrity) <==>
              (k in r.versions ==> r.versions[k] == b.packages[i].integrity)
    {
      var k := (b.packages[i].name, b.version);
      if i < n {
        StagedInPlace(b, r, n, i);
      } else {
        StagedKeys(b, r, n);
        if k in r.versions { StagedKeepsVersions(b, r, n, k); }
      }
    }
  }

  /** An interruption never spoils a release and never rescues a spoiled one. */
  lemma PublishableAfterStaging(b: Bundle, r: Reg, n: nat)
    requires BundleOk(b) && n <= |b.packages| && Compatible(b, r, n)
    ensures Publishable(b, Staged(b, r, n)) <==> Publishable(b, r)
  {
    CompatibleAfterStaging(b, r, n, |b.packages|);
    StagedKeys(b, r, n);
  }

  lemma PublishableAfterRelease(b: Bundle, r: Reg)
    requires BundleOk(b) && Publishable(b, r)
    ensures Publishable(b, Released(b, r))
  {
    EntryPresence(b, r);
    assert Compatible(b, Released(b, r), |b.packages|) by {
      forall i | 0 <= i < |b.packages|
        ensures (b.packages[i].name, b.version) in Released(b, r).versions
        ensures Released(b, r).versions[(b.packages[i].name, b.version)] == b.packages[i].integrity
      {
        StagedInPlace(b, r, |b.packages|, i);
      }
    }
  }

  lemma PublishableAfterCutOff(b: Bundle, r: Reg, s: Reg)
    requires BundleOk(b) && CutOff(b, r, s)
    ensures Publishable(b, s) <==> Publishable(b, r)
  {
    hide Publishable, Compatible, Staged, Released;
    if n: nat :| n <= |b.packages| && Compatible(b, r, n) && s == Staged(b, r, n) {
      PublishableAfterStaging(b, r, n);
    } else {
      PublishableAfterRelease(b, r);
    }
  }

  /** A run picks up where a cut-off run stopped, as if there had been one run. */
  lemma CutOffComposes(b: Bundle, r: Reg, s: Reg, t: Reg)
    requires BundleOk(b) && CutOff(b, r, s) && CutOff(b, s, t)
    ensures CutOff(b, r, t)
  {
    hide Publishable, Compatible, Staged, Released;
    PublishableAfterCutOff(b, r, s);
    if n: nat :| n <= |b.packages| && Compatible(b, r, n) && s == Staged(b, r, n) {
      RereleaseStaged(b, r, n);
      if m: nat :| m <= |b.packages| && Compatible(b, s, m) && t == Staged(b, s, m) {
        Restage(b, r, n, m);
        CompatibleAfterStaging(b, r, n, m);
        assert t == Staged(b, r, Max(n, m));
      }
    } else {
      if m: nat :| m <= |b.packages| && Compatible(b, s, m) && t == Staged(b, s, m) {
        RestageReleased(b, r, m);
      } else {
        RestageReleased(b, r, 0);
      }
    }
  }

  lemma ReleaseFromCutOff(b: Bundle, r: Reg, s: Reg)
    requires BundleOk(b) && CutOff(b, r, s)
    ensures Released(b, s) == Released(b, r)
  {
    hide Publishable, Compatible, Staged, Released;
    if n: nat :| n <= |b.packages| && Compatible(b, r, n) && s == Staged(b, r, n) {
      RereleaseStaged(b, r, n);
    } else {
      RestageReleased(b, r, 0);
    }
  }

  // ---------------------------------------------------------------------- histories

  /** Between any two moments of a history the registry moves as one cut-off run would move it. */
  lemma {:induction false} HistoryIsOneRun(b: Bundle, regs: seq<Reg>, outcomes: seq<Outcome>, i: nat, j: nat)
    requires BundleOk(b) && History(b, regs, outcomes) && i <= j < |regs|
    ensures CutOff(b, regs[i], regs[j])
    decreases j - i
  {
    if i == j {
      assert Compatible(b, regs[i], 0) && regs[i] == Staged(b, regs[i], 0);
    } else {
      hide CutOff;
      HistoryIsOneRun(b, regs, outcomes, i, j - 1);
      assert RunAt(b, regs, outcomes, j - 1);
      CutOffComposes(b, regs[i], regs[j - 1], regs[j]);
    }
  }

  /** Crash safety: what is published keeps its contents through every later run. */
  lemma ContentsNeverChange(b: Bundle, regs: seq<Reg>, outcomes: seq<Outcome>, i: nat, j: nat, k: (string, string))
    requires BundleOk(b) && History(b, regs, outcomes) && i <= j < |regs| && k in regs[i].versions
    ensures k in regs[j].versions && regs[j].versions[k] == regs[i].versions[k]
  {
    HistoryIsOneRun(b, regs, outcomes, i, j);
    if n: nat :| n <= |b.packages| && Compatible(b, regs[i], n) && regs[j] == Staged(b, regs[i], n) {
      StagedKeepsVersions(b, regs[i], n, k);
    } else {
      StagedKeepsVersions(b, regs[i], |b.packages|, k);
    }
  }

  /** Resumption: however often it was interrupted, the run that finally returns leaves the registry
      one uninterrupted run would have left, and `verify` accepts it. */
  lemma RerunConverges(b: Bundle, regs: seq<Reg>, outcomes: seq<Outcome>, i: nat)
    requires BundleOk(b) && History(b, regs, outcomes) && i < |outcomes| && outcomes[i].Returned?
    ensures Publishable(b, regs[0]) && regs[i + 1] == Released(b, regs[0]) && Verified(b, regs[i + 1])
  {
    hide CutOff, Publishable, Released, Verified;
    HistoryIsOneRun(b, regs, outcomes, 0, i);
    assert RunAt(b, regs, outcomes, i);
    PublishableAfterCutOff(b, regs[0], regs[i]);
    ReleaseFromCutOff(b, regs[0], regs[i]);
    ReleasedIsVerified(b, regs[0]);
  }

  /** Whether the release can go through is settled before the first run: a later run can throw only
      if the first registry was unpublishable. */
  lemma FateIsSettled(b: Bundle, regs: seq<Reg>, outcomes: seq<Outcome>, i: nat)
    requires BundleOk(b) && History(b, regs, outcomes) && i < |outcomes|
    ensures outcomes[i].Threw? ==> !Publishable(b, regs[0])
    ensures Publishable(b, regs[i]) <==> Publishable(b, regs[0])
  {
    hide CutOff, Publishable;
    HistoryIsOneRun(b, regs, outcomes, 0, i);
    assert RunAt(b, regs, outcomes, i);
    PublishableAfterCutOff(b, regs[0], regs[i]);
  }

  // ------------------------------------------------------------------ latest comes last

  /** Either the bundle's own dist-tag is not `latest`, or the entry package comes last anyway. */
  predicate LatestGuarded(b: Bundle) {
    b.distTag == LATEST_DIST_TAG ==> forall i :: 0 <= i < |b.packages| - 1 ==> b.packages[i].name != RELEASE_ENTRY_PACKAGE
  }

  /** The entry package's `latest` moved between `r` and `s`. */
  ghost predicate LatestMoved(r: Reg, s: Reg) {
    TagOf(s, RELEASE_ENTRY_PACKAGE, LATEST_DIST_TAG) != TagOf(r, RELEASE_ENTRY_PACKAGE, LATEST_DIST_TAG)
  }

  lemma LatestMovesLast(b: Bundle, r: Reg, s: Reg)
    requires BundleOk(b) && LatestGuarded(b) && CutOff(b, r, s) && LatestMoved(r, s)
    ensures AllInPlace(b, s)
  {
    if n: nat :| n <= |b.packages| && Compatible(b, r, n) && s == Staged(b, r, n) {
      var k := (RELEASE_ENTRY_PACKAGE, LATEST_DIST_TAG);
      StagedKeys(b, r, n);
      StagedKeepsTagKeys(b, r, n);
      assert k in s.tags && (k !in r.tags || s.tags[k] != r.tags[k]);
      var i :| 0 <= i < n && k == (b.packages[i].name, b.distTag);
      assert i == |b.packages| - 1;
      forall j: nat | j < |b.packages| ensures InPlace(b, s, j) { StagedInPlace(b, r, n, j); }
    } else {
      ReleasedIsVerified(b, r);
    }
  }

  lemma {:induction false} StagedKeepsTagKeys(b: Bundle, r: Reg, n: nat)
    requires n <= |b.packages|
    ensures r.tags.Keys <= Staged(b, r, n).tags.Keys
  {
    if n > 0 { StagedKeepsTagKeys(b, r, n - 1); }
  }

  /** Before anything is published every package costs three commands. */
  lemma {:induction false} FirstCommands(b: Bundle, r: Reg, n: nat)
    requires BundleOk(b) && n <= |b.packages| && r == Reg(map[], map[])
    ensures Commands(b, r, n) == 3 * n
  {
    if n > 0 {
      FirstCommands(b, r, n - 1);
      StagedKeys(b, r, n - 1);
      assert (b.packages[n - 1].name, b.version) !in Staged(b, r, n - 1).versions;
    }
  }

  /** A bundle tagged `latest` with the entry package before the end, and a client killed right after it. */
  lemma UnguardedLatestMovesEarly(b: Bundle, i: nat) returns (s: Reg)
    requires BundleOk(b) && b.distTag == LATEST_DIST_TAG && i + 1 < |b.packages| && b.packages[i].name == RELEASE_ENTRY_PACKAGE
    ensures RunsDry(b, Reg(map[], map[]), s, 3 * (i + 1)) && s == Staged(b, Reg(map[], map[]), i + 1)
    ensures LatestMoved(Reg(map[], map[]), s) && !AllInPlace(b, s)
  {
    hide Staged, InPlace, Compatible, LatestMoved, Commands;
    var r, last := Reg(map[], map[]), |b.packages| - 1;
    s := Staged(b, r, i + 1);
    FirstCommands(b, r, i + 1);
    EarlyLatest(b, r, i);
    LaterPackageAbsent(b, r, i + 1, last);
    assert RunsDry(b, r, s, 3 * (i + 1));
  }

  /** Such a run: `publish` on an empty registry, killed when `latest` has moved and packages are missing. */
  method RunLatestEarly(b: Bundle) returns (after: Reg, o: Outcome)
    requires BundleOk(b) && !LatestGuarded(b)
    ensures o.Died? && LatestMoved(Reg(map[], map[]), after) && !AllInPlace(b, after)
  {
    var i: nat :| i + 1 < |b.packages| && b.packages[i].name == RELEASE_ENTRY_PACKAGE;
    ghost var s := UnguardedLatestMovesEarly(b, i);
    hide RunsDry, LatestMoved, AllInPlace, Attempt;
    var reg := new Registry(Reg(map[], map[]), 3 * (i + 1));
    o := Publish(reg, b);
    after := Reg(reg.versions, reg.tags);
  }

  lemma EarlyLatest(b: Bundle, r: Reg, i: nat)
    requires BundleOk(b) && i < |b.packages| && r == Reg(map[], map[])
    requires b.distTag == LATEST_DIST_TAG && b.packages[i].name == RELEASE_ENTRY_PACKAGE
    ensures Compatible(b, r, i + 1) && LatestMoved(r, Staged(b, r, i + 1))
  {
    hide Staged;
    StagedInPlace(b, r, i + 1, i);
  }

  lemma LaterPackageAbsent(b: Bundle, r: Reg, n: nat, i: nat)
    requires BundleOk(b) && n <= i < |b.packages| && r == Reg(map[], map[])
    ensures !InPlace(b, Staged(b, r, n), i)
  {
    StagedKeys(b, r, n);
    assert (b.packages[i].name, b.version) !in Staged(b, r, n).versions;
  }

  /** `latest` waits for the whole release, wherever a run is killed, exactly for guarded bundles. */
  lemma LatestIsLastIffGuarded(b: Bundle)
    requires BundleOk(b)
    ensures LatestGuarded(b) <==> forall r, s, life :: RegOk(r) && RunsDry(b, r, s, life) && LatestMoved(r, s) ==> AllInPlace(b, s)
  {
    hide RunsDry, CutOff, LatestMoved, AllInPlace;
    if LatestGuarded(b) {
      forall r, s, life | RunsDry(b, r, s, life) && LatestMoved(r, s) ensures AllInPlace(b, s) {
        CutOffIsReached(b, r, s);
        LatestMovesLast(b, r, s);
      }
    } else {
      var i: nat :| i + 1 < |b.packages| && b.packages[i].name == RELEASE_ENTRY_PACKAGE;
      var s := UnguardedLatestMovesEarly(b, i);
      assert RegOk(Reg(map[], map[]));
    }
  }

  /** Over a whole history: if `latest` has moved since the start, the release is complete. */
  lemma LatestMeansComplete(b: Bundle, regs: seq<Reg>, outcomes: seq<Outcome>, i: nat)
    requires BundleOk(b) && LatestGuarded(b) && History(b, regs, outcomes) && i < |regs|
    requires LatestMoved(regs[0], regs[i])
    ensures AllInPlace(b, regs[i])
  {
    HistoryIsOneRun(b, regs, outcomes, 0, i);
    LatestMovesLast(b, regs[0], regs[i]);
  }
}
