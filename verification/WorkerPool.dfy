/** The worker pool of `scripts/publint-all.ts`: workers share one counter and one results array,
    and any worker may move next. */
module WorkerPool {
  import opened Options
  import opened Characters

  /** A worker is at the top of its loop, awaiting one target, or has returned. */
  datatype Worker = Idle | Busy(index: nat) | Gone

  /** `started` lists the `runPublint` calls in the order they were made. */
  datatype Pool<R> = Pool(next: nat, results: map<nat, R>, workers: seq<Worker>, started: seq<nat>)

  function Start<R>(concurrency: nat): Pool<R> {
    Pool(0, map[], seq(concurrency, i => Idle), [])
  }

  /** An idle worker takes the counter's value: a target to run, or its cue to return. */
  function Claim<R>(p: Pool<R>, total: nat, w: nat): Pool<R>
    requires w < |p.workers|
  {
    if p.next < total
    then p.(next := p.next + 1, workers := p.workers[w := Busy(p.next)], started := p.started + [p.next])
    else p.(next := p.next + 1, workers := p.workers[w := Gone])
  }

  /** A busy worker's target finishes. */
  function Finish<T, R>(p: Pool<R>, targets: seq<T>, run: T -> R, w: nat): Pool<R>
    requires w < |p.workers| && p.workers[w].Busy? && p.workers[w].index < |targets|
  {
    var i := p.workers[w].index;
    p.(results := p.results[i := run(targets[i])], workers := p.workers[w := Idle])
  }

  ghost predicate Moves<T, R>(p: Pool<R>, q: Pool<R>, targets: seq<T>, run: T -> R, w: nat) {
    w < |p.workers| &&
    match p.workers[w]
    case Idle => q == Claim(p, |targets|, w)
    case Busy(i) => i < |targets| && q == Finish(p, targets, run, w)
    case Gone => false
  }

  ghost predicate Next<T, R>(p: Pool<R>, q: Pool<R>, targets: seq<T>, run: T -> R) {
    exists w: nat :: Moves(p, q, targets, run, w)
  }

  ghost predicate AllGone<R>(p: Pool<R>) {
    forall w :: 0 <= w < |p.workers| ==> p.workers[w].Gone?
  }

  function Claimed<R>(p: Pool<R>, total: nat): nat {
    if p.next < total then p.next else total
  }

  /** Every claimed target is in exactly one place: finished with its own result, or held by exactly
      one worker. The calls made are the claimed targets, each once, in order. */
  ghost predicate Inv<T, R>(p: Pool<R>, targets: seq<T>, run: T -> R, concurrency: nat) {
    && |p.workers| == concurrency
    && p.started == seq(Claimed(p, |targets|), i => i)
    && (forall i :: i in p.results ==> i < Claimed(p, |targets|) && p.results[i] == run(targets[i]))
    && (forall w :: 0 <= w < |p.workers| && p.workers[w].Busy? ==>
          p.workers[w].index < Claimed(p, |targets|) && p.workers[w].index !in p.results)
    && (forall v, w :: 0 <= v < w < |p.workers| && p.workers[v].Busy? && p.workers[w].Busy? ==>
          p.workers[v].index != p.workers[w].index)
    && (forall i: nat :: i < Claimed(p, |targets|) && i !in p.results ==> Busy(i) in p.workers)
    && (forall w :: 0 <= w < |p.workers| && p.workers[w].Gone? ==> p.next >= |targets|)
  }

  lemma StartInv<T, R>(targets: seq<T>, run: T -> R, concurrency: nat)
    ensures Inv(Start<R>(concurrency), targets, run, concurrency)
  {
  }

  lemma ClaimKeepsInv<T, R>(p: Pool<R>, targets: seq<T>, run: T -> R, concurrency: nat, w: nat)
    requires Inv(p, targets, run, concurrency) && w < |p.workers| && p.workers[w].Idle?
    ensures Inv(Claim(p, |targets|, w), targets, run, concurrency)
  {
    StillHeld(p, Claim(p, |targets|, w).workers, w);
  }

  /** A worker that was idle held nothing, so whatever it does next, the others hold what was held. */
  lemma StillHeld<R>(p: Pool<R>, workers: seq<Worker>, w: nat)
    requires w < |p.workers| == |workers| && !p.workers[w].Busy? && workers == p.workers[w := workers[w]]
    ensures forall i: nat :: Busy(i) in p.workers ==> Busy(i) in workers
    ensures workers[w] in workers
  {
    forall i: nat | Busy(i) in p.workers ensures Busy(i) in workers {
      var v :| 0 <= v < |p.workers| && p.workers[v] == Busy(i);
      assert workers[v] == Busy(i);
    }
  }

  lemma FinishKeepsInv<T, R>(p: Pool<R>, targets: seq<T>, run: T -> R, concurrency: nat, w: nat)
    requires Inv(p, targets, run, concurrency) && w < |p.workers| && p.workers[w].Busy? && p.workers[w].index < |targets|
    ensures Inv(Finish(p, targets, run, w), targets, run, concurrency)
  {
    var q := Finish(p, targets, run, w);
    forall i: nat | i < Claimed(q, |targets|) && i !in q.results ensures Busy(i) in q.workers {
      var v :| 0 <= v < |p.workers| && p.workers[v] == Busy(i);
      assert q.workers[v] == Busy(i);
    }
  }

  lemma MoveKeepsInv<T, R>(p: Pool<R>, q: Pool<R>, targets: seq<T>, run: T -> R, concurrency: nat, w: nat)
    requires Inv(p, targets, run, concurrency) && Moves(p, q, targets, run, w)
    ensures Inv(q, targets, run, concurrency)
  {
    hide Inv;
    if p.workers[w].Idle? {
      ClaimKeepsInv(p, targets, run, concurrency, w);
    } else {
      FinishKeepsInv(p, targets, run, concurrency, w);
    }
  }

  // ----------------------------------------------------------------- length of a run

  function Weight(w: Worker): nat {
    match w case Idle => 1 case Busy(_) => 2 case Gone => 0
  }

  function Load(workers: seq<Worker>): nat {
    if workers == [] then 0 else Weight(workers[0]) + Load(workers[1..])
  }

  function Remaining<R>(p: Pool<R>, total: nat): nat {
    2 * (total - Claimed(p, total)) + Load(p.workers)
  }

  lemma {:induction false} LoadAfter(workers: seq<Worker>, w: nat, x: Worker)
    requires w < |workers|
    ensures Load(workers[w := x]) == Load(workers) - Weight(workers[w]) + Weight(x)
  {
    if w > 0 {
      LoadAfter(workers[1..], w - 1, x);
      assert workers[w := x][1..] == workers[1..][w - 1 := x];
    } else {
      assert workers[w := x][1..] == workers[1..];
    }
  }

  lemma {:induction false} LoadOfUniform(workers: seq<Worker>, x: Worker)
    requires forall i :: 0 <= i < |workers| ==> workers[i] == x
    ensures Load(workers) == |workers| * Weight(x)
  {
    if workers != [] { LoadOfUniform(workers[1..], x); }
  }

  /** Every move does one unit of the work left. */
  lemma MoveDoesOne<T, R>(p: Pool<R>, q: Pool<R>, targets: seq<T>, run: T -> R, w: nat)
    requires Moves(p, q, targets, run, w)
    ensures Remaining(q, |targets|) == Remaining(p, |targets|) - 1
  {
    LoadAfter(p.workers, w, q.workers[w]);
  }

  ghost predicate StepAt<T, R>(run: seq<Pool<R>>, targets: seq<T>, f: T -> R, i: nat)
    requires i + 1 < |run|
  {
    Next(run[i], run[i + 1], targets, f)
  }

  /** One interleaving, or a prefix of one. */
  ghost predicate IsRun<T, R>(run: seq<Pool<R>>, targets: seq<T>, f: T -> R, concurrency: nat) {
    && run != [] && run[0] == Start(concurrency)
    && forall i: nat :: i + 1 < |run| ==> StepAt(run, targets, f, i)
  }

  lemma {:induction false} RunInv<T, R>(run: seq<Pool<R>>, targets: seq<T>, f: T -> R, concurrency: nat, i: nat)
    requires IsRun(run, targets, f, concurrency) && i < |run|
    ensures Inv(run[i], targets, f, concurrency)
    ensures Remaining(run[i], |targets|) + i == 2 * |targets| + concurrency
  {
    if i == 0 {
      StartInv(targets, f, concurrency);
      LoadOfUniform(run[0].workers, Idle);
    } else {
      RunInv(run, targets, f, concurrency, i - 1);
      assert StepAt(run, targets, f, i - 1);
      var w: nat :| Moves(run[i - 1], run[i], targets, f, w);
      MoveKeepsInv(run[i - 1], run[i], targets, f, concurrency, w);
      MoveDoesOne(run[i - 1], run[i], targets, f, w);
    }
  }

  /** Calls made and not yet settled. */
  ghost function InFlight<R>(p: Pool<R>): set<nat> {
    set k | k in p.started && k !in p.results
  }

  /** Over every interleaving: at most one call per target, at most `concurrency` in flight, no
      result but the target's own, and a length fixed in advance. */
  lemma EveryInterleavingIsSafe<T, R>(run: seq<Pool<R>>, targets: seq<T>, f: T -> R, concurrency: nat, i: nat)
    requires IsRun(run, targets, f, concurrency) && i < |run|
    ensures |run| <= 2 * |targets| + concurrency + 1
    ensures forall j, k :: 0 <= j < k < |run[i].started| ==> run[i].started[j] < run[i].started[k] < |targets|
    ensures |InFlight(run[i])| <= concurrency
    ensures forall k :: k in run[i].results ==> k < |targets| && run[i].results[k] == f(targets[k])
  {
    RunInv(run, targets, f, concurrency, i);
    RunInv(run, targets, f, concurrency, |run| - 1);
    var p := run[i];
    InFlightBound(InFlight(p), p.workers);
  }

  lemma {:induction false} InFlightBound(open: set<nat>, workers: seq<Worker>)
    requires forall k :: k in open ==> Busy(k) in workers
    ensures |open| <= |workers|
  {
    if workers == [] {
      assert open == {};
    } else {
      var head := workers[0];
      var rest := if head.Busy? then open - {head.index} else open;
      InFlightBound(rest, workers[1..]);
    }
  }

  /** A pool with a worker left can move; one with none left has called every target and has every
      result, provided it ever had a worker or there was nothing to do. */
  lemma StopsWhenDone<T, R>(run: seq<Pool<R>>, targets: seq<T>, f: T -> R, concurrency: nat, p: Pool<R>)
    requires IsRun(run, targets, f, concurrency) && p == run[|run| - 1]
    ensures AllGone(p) <==> forall q :: !Next(p, q, targets, f)
    ensures AllGone(p) ==> |run| == 2 * |targets| + concurrency + 1 || concurrency == 0
    ensures AllGone(p) && (concurrency > 0 || targets == []) ==>
              p.started == seq(|targets|, i => i) && forall i: nat :: i < |targets| ==> i in p.results && p.results[i] == f(targets[i])
  {
    RunInv(run, targets, f, concurrency, |run| - 1);
    if AllGone(p) {
      LoadOfUniform(p.workers, Gone);
      forall i: nat | i < Claimed(p, |targets|) ensures i in p.results {
        assert Busy(i) !in p.workers;
      }
      if concurrency > 0 { assert p.workers[0].Gone?; }
    } else {
      var w: nat :| w < |p.workers| && !p.workers[w].Gone?;
      var q := if p.workers[w].Idle? then Claim(p, |targets|, w) else Finish(p, targets, f, w);
      assert Moves(p, q, targets, f, w);
      assert Next(p, q, targets, f);
    }
  }

  // -------------------------------------------------------------------------- runAll

  datatype Outcome<R> = Done(results: seq<R>) | MissingResult(index: nat)

  /** With every worker gone, a target has its result, if there was a worker. */
  lemma GoneLeavesResults<T, R>(p: Pool<R>, targets: seq<T>, run: T -> R, concurrency: nat)
    requires Inv(p, targets, run, concurrency) && AllGone(p)
    ensures forall i: nat :: i in p.results ==> i < |targets| && p.results[i] == run(targets[i])
    ensures concurrency > 0 ==> forall i: nat :: i < |targets| ==> i in p.results
  {
    if concurrency > 0 {
      assert p.workers[0].Gone?;
      forall i: nat | i < |targets| ensures i in p.results { assert Busy(i) !in p.workers; }
    }
  }

  /** A worker that has not returned can move. */
  lemma WorkerMoves<T, R>(p: Pool<R>, targets: seq<T>, run: T -> R, concurrency: nat, w: nat) returns (q: Pool<R>)
    requires Inv(p, targets, run, concurrency) && w < |p.workers| && !p.workers[w].Gone?
    ensures p.workers[w].Busy? ==> p.workers[w].index < |targets|
    ensures q == (if p.workers[w].Idle? then Claim(p, |targets|, w) else Finish(p, targets, run, w))
    ensures Moves(p, q, targets, run, w) && Inv(q, targets, run, concurrency)
    ensures Remaining(q, |targets|) < Remaining(p, |targets|)
  {
    q := if p.workers[w].Idle? then Claim(p, |targets|, w) else Finish(p, targets, run, w);
    assert Moves(p, q, targets, run, w);
    hide Inv;
    MoveKeepsInv(p, q, targets, run, concurrency, w);
    MoveDoesOne(p, q, targets, run, w);
  }

  /** `runAll`, for every interleaving the choice of `w` leaves open. */
  method RunAll<T, R>(targets: seq<T>, concurrency: nat, run: T -> R) returns (r: Outcome<R>)
    ensures r.Done? <==> concurrency > 0 || targets == []
    ensures r.Done? ==> r.results == seq(|targets|, i requires 0 <= i < |targets| => run(targets[i]))
  {
    hide Inv, Remaining;
    var p: Pool<R> := Start(concurrency);
    StartInv(targets, run, concurrency);
    while exists w :: 0 <= w < |p.workers| && !p.workers[w].Gone?
      invariant Inv(p, targets, run, concurrency)
      invariant concurrency == 0 ==> p == Start(0)
      decreases Remaining(p, |targets|)
    {
      var w: nat :| w < |p.workers| && !p.workers[w].Gone?;
      NoWorkers(p, targets, run, concurrency);
      ghost var next := WorkerMoves(p, targets, run, concurrency, w);
      p := if p.workers[w].Idle? then Claim(p, |targets|, w) else Finish(p, targets, run, w);
    }
    GoneLeavesResults(p, targets, run, concurrency);
    var results := [];
    for i := 0 to |targets|
      invariant results == seq(i, j requires 0 <= j < |targets| => run(targets[j]))
      invariant i > 0 ==> concurrency > 0
    {
      if i !in p.results { return MissingResult(i); }
      results := results + [p.results[i]];
    }
    r := Done(results);
  }

  lemma NoWorkers<T, R>(p: Pool<R>, targets: seq<T>, run: T -> R, concurrency: nat)
    requires Inv(p, targets, run, concurrency)
    ensures |p.workers| == concurrency
  {
  }

  // --------------------------------------------------------------- publintConcurrency

  const MAX_SAFE_INTEGER := 0x1F_FFFF_FFFF_FFFF

  function Min(a: nat, b: nat): nat {
    if a < b then a else b
  }

  predicate IsDigit(c: char) {
    '0' <= c <= '9'
  }

  /** `String(n)`, for the integers it writes without an exponent. */
  function Decimal(n: nat): (r: string)
    ensures r != "" && forall c <- r :: IsDigit(c)
  {
    if n < 10 then ['0' + n as char] else Decimal(n / 10) + ['0' + (n % 10) as char]
  }

  function Value(digits: string): nat
    requires forall c <- digits :: IsDigit(c)
  {
    if digits == "" then 0
    else
      var last := digits[|digits| - 1];
      assert last in digits && IsDigit(last) && forall c <- digits[..|digits| - 1] :: c in digits;
      10 * Value(digits[..|digits| - 1]) + (last as int - '0' as int)
  }

  function DigitsEnd(s: string): (k: nat)
    ensures k <= |s| && (forall c <- s[..k] :: IsDigit(c)) && (k < |s| ==> !IsDigit(s[k]))
  {
    if s == "" || !IsDigit(s[0]) then 0
    else
      var k := DigitsEnd(s[1..]);
      assert s[..k + 1] == [s[0]] + s[1..][..k];
      k + 1
  }

  /** `Number.parseInt(s, 10)`: leading blanks, a sign, and as many digits as there are. */
  function ParseInt(s: string): Option<int>
    decreases |s|
  {
    if s != "" && IsSpace(s[0]) then ParseInt(s[1..])
    else
      var signed := s != "" && (s[0] == '-' || s[0] == '+');
      var rest := if signed then s[1..] else s;
      var k := DigitsEnd(rest);
      if k == 0 then None
      else
        var value: int := Value(rest[..k]);
        Some(if signed && s[0] == '-' then -value else value)
  }

  /** `publintConcurrency`: `raw` is the environment's override, if any; `None` is the throw. */
  function Concurrency(total: nat, raw: Option<string>, cpus: nat): Option<nat> {
    if total == 0 then Some(0)
    else if raw.Some? && raw.value != "" then
      var parsed := ParseInt(raw.value);
      if parsed.None? || parsed.value > MAX_SAFE_INTEGER || parsed.value < 1 || Decimal(parsed.value) != raw.value then None
      else Some(Min(total, parsed.value))
    else Some(Min(total, cpus))
  }

  lemma {:induction false} ValueOfDecimal(n: nat)
    ensures Value(Decimal(n)) == n
  {
    var s := Decimal(n);
    if n < 10 {
      assert s[..0] == "" && Value(s[..0]) == 0;
    } else {
      ValueOfDecimal(n / 10);
      assert s[..|s| - 1] == Decimal(n / 10);
    }
  }

  lemma ParseDecimal(n: nat)
    ensures ParseInt(Decimal(n)) == Some(n)
  {
    var s := Decimal(n);
    ValueOfDecimal(n);
    assert s[0] in s;
    assert forall c <- s :: IsDigit(c);
    assert DigitsEnd(s) == |s| && s[..|s|] == s;
  }

  /** An override is accepted exactly when it is the decimal form of a positive safe integer. */
  ghost predicate ValidOverride(raw: string) {
    exists n: nat :: 1 <= n <= MAX_SAFE_INTEGER && raw == Decimal(n)
  }

  lemma OverrideAccepted(total: nat, raw: string, cpus: nat)
    requires total > 0 && raw != ""
    ensures Concurrency(total, Some(raw), cpus).Some? <==> ValidOverride(raw)
    ensures forall n: nat :: 1 <= n <= MAX_SAFE_INTEGER && raw == Decimal(n) ==> Concurrency(total, Some(raw), cpus) == Some(Min(total, n))
  {
    hide ParseInt, Decimal;
    forall n: nat | 1 <= n <= MAX_SAFE_INTEGER && raw == Decimal(n) ensures ParseInt(raw) == Some(n) { ParseDecimal(n); }
    if Concurrency(total, Some(raw), cpus).Some? { assert raw == Decimal(ParseInt(raw).value); }
  }

  /** The script's run: with the concurrency it computes the missing-result throw cannot be reached, and with an
      invalid override nothing runs. There are as many workers as the override says, or processors without one, and no more
      than targets. */
  method CheckAll<T, R>(targets: seq<T>, raw: Option<string>, cpus: nat, run: T -> R) returns (r: Option<Outcome<R>>, workers: nat)
    requires cpus >= 1
    ensures r.None? <==> targets != [] && raw.Some? && raw.value != "" && !ValidOverride(raw.value)
    ensures r.Some? ==> r.value == Done(seq(|targets|, i requires 0 <= i < |targets| => run(targets[i])))
    ensures r.Some? && (raw.None? || raw.value == "") ==> workers == if cpus < |targets| then cpus else |targets|
    ensures forall n: nat :: r.Some? && raw.Some? && 1 <= n <= MAX_SAFE_INTEGER && raw.value == Decimal(n) ==>
              workers == if n < |targets| then n else |targets|
  {
    workers := 0;
    var concurrency := Concurrency(|targets|, raw, cpus);
    if targets != [] && raw.Some? && raw.value != "" { OverrideAccepted(|targets|, raw.value, cpus); }
    if concurrency.None? { return None, workers; }
    workers := concurrency.value;
    var results := RunAll(targets, concurrency.value, run);
    r := Some(results);
  }
}
