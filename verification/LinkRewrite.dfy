/** Locating and replacing link destinations in `scripts/project-doc-site.ts`, without
    reserialising the Markdown around them. */
module LinkRewrite {
  import opened Options
  import opened Characters

  // --------------------------------------------------- scanning with escapes

  /** Scanning from `i` and stepping over whatever a backslash escapes, is `j` looked at? */
  predicate Live(s: string, i: nat, j: nat)
    decreases |s| - i
  {
    if i >= j || i >= |s| then i == j
    else if s[i] == '\\' then Live(s, i + 2, j)
    else Live(s, i + 1, j)
  }

  function Weigh(c: char, open: char, close: char): int {
    if c == open then 1 else if c == close then -1 else 0
  }

  /** Unescaped `open` minus unescaped `close` characters from `i` up to `j`. */
  function Balance(s: string, i: nat, j: nat, open: char, close: char): int
    decreases |s| - i
  {
    if i >= j || i >= |s| then 0
    else if s[i] == '\\' then Balance(s, i + 2, j, open, close)
    else Weigh(s[i], open, close) + Balance(s, i + 1, j, open, close)
  }

  /** The scan position after `j`. */
  function After(s: string, j: nat): nat
    requires j < |s|
  {
    if s[j] == '\\' then j + 2 else j + 1
  }

  /** One more step of a scan. */
  lemma {:induction false} ScanStep(s: string, i: nat, j: nat, open: char, close: char)
    requires i <= j < |s| && Live(s, i, j) && open != '\\' && close != '\\'
    ensures Live(s, i, After(s, j))
    ensures Balance(s, i, After(s, j), open, close) == Balance(s, i, j, open, close) + Weigh(s[j], open, close)
    ensures forall k :: j < k < After(s, j) ==> !Live(s, i, k)
    decreases j - i
  {
    if i < j {
      ScanStep(s, After(s, i), j, open, close);
    } else {
      assert Live(s, After(s, j), After(s, j));
      assert Balance(s, After(s, j), After(s, j), open, close) == 0;
      if s[j] == '\\' { assert !Live(s, j, j + 1); }
    }
  }

  // ------------------------------------------------------------------ labelEnd

  /** The first `[`, or the length of the text. */
  function FirstBracket(s: string): (r: nat)
    ensures r <= |s| && (r < |s| ==> s[r] == '[') && forall k :: 0 <= k < r ==> s[k] != '['
  {
    if s == "" || s[0] == '[' then 0 else 1 + FirstBracket(s[1..])
  }

  /** `r` closes the bracket opened at `first`: the first unescaped `]` where the brackets balance. */
  ghost predicate ClosesLabel(s: string, first: nat, r: nat) {
    && first <= r < |s| && Live(s, first, r) && s[r] == ']' && Balance(s, first, r, '[', ']') == 1
    && forall k :: first < k <= r && Live(s, first, k) ==> Balance(s, first, k, '[', ']') > 0
  }

  method LabelEnd(s: string) returns (r: Option<nat>)
    ensures r.Some? ==> ClosesLabel(s, FirstBracket(s), r.value)
    ensures r.None? ==> forall e: nat :: !ClosesLabel(s, FirstBracket(s), e)
  {
    var first := FirstBracket(s);
    if first == |s| { return None; }
    var depth, index := 0, first;
    while index < |s|
      invariant first <= index && Live(s, first, index)
      invariant depth == Balance(s, first, index, '[', ']')
      invariant index == first || depth > 0
      invariant forall k :: first < k <= index && Live(s, first, k) ==> Balance(s, first, k, '[', ']') > 0
      invariant forall e: nat :: e < index ==> !ClosesLabel(s, first, e)
      decreases |s| - index
    {
      ScanStep(s, first, index, '[', ']');
      var c := s[index];
      if c == '[' {
        depth := depth + 1;
      } else if c == ']' {
        depth := depth - 1;
        if depth == 0 { return Some(index); }
      }
      assert !ClosesLabel(s, first, index);
      assert depth > 0;
      index := After(s, index);
    }
    r := None;
  }

  lemma LabelEndIsUnique(s: string, first: nat, a: nat, b: nat)
    requires ClosesLabel(s, first, a) && ClosesLabel(s, first, b)
    ensures a == b
  {
    if a < b { LaterIsUnbalanced(s, first, a, b); }
    if b < a { LaterIsUnbalanced(s, first, b, a); }
  }

  lemma LaterIsUnbalanced(s: string, first: nat, a: nat, b: nat)
    requires ClosesLabel(s, first, a) && first <= a < b < |s|
    ensures !ClosesLabel(s, first, b)
  {
    ScanStep(s, first, a, '[', ']');
    assert Balance(s, first, a + 1, '[', ']') == 0;
  }

  // ------------------------------------------------------------- destinationRange

  datatype Kind = Link | Image | Definition

  datatype Range = Range(start: nat, end: nat)

  datatype Located =
    | Found(range: Range)
    | NoLabelEnd
    | NoSeparator
    | NoInlineDestination
    | NoAngleEnd

  method SkipWhitespace(s: string, start: nat) returns (r: nat)
    requires start <= |s|
    ensures start <= r <= |s| && (r < |s| ==> !IsSpace(s[r])) && forall k :: start <= k < r ==> IsSpace(s[k])
  {
    r := start;
    while r < |s| && IsSpace(s[r])
      invariant start <= r <= |s| && forall k :: start <= k < r ==> IsSpace(s[k])
    {
      r := r + 1;
    }
  }

  /** An unescaped `>` first met at `e` when scanning from `start`. */
  ghost predicate ClosesAngle(s: string, start: nat, e: nat) {
    && start <= e < |s| && Live(s, start, e) && s[e] == '>'
    && forall k :: start <= k < e && Live(s, start, k) ==> s[k] != '>'
  }

  /** Where an unbracketed destination may stop: outside all parentheses, at whitespace or at the
      parenthesis that closes the link. */
  ghost predicate StopsAt(s: string, start: nat, e: nat) {
    && start <= e < |s| && Live(s, start, e)
    && Balance(s, start, e, '(', ')') == 0 && (s[e] == ')' || IsSpace(s[e]))
  }

  /** The destination runs from `start` to the first place it may stop, or to the end of the node. */
  ghost predicate PlainDestination(s: string, start: nat, end: nat) {
    && start <= end <= |s|
    && (end < |s| ==> StopsAt(s, start, end))
    && forall e: nat :: e < end ==> !StopsAt(s, start, e)
  }

  method AngleEnd(s: string, start: nat) returns (r: Option<nat>)
    requires start <= |s|
    ensures r.Some? ==> ClosesAngle(s, start, r.value)
    ensures r.None? ==> forall e: nat :: !ClosesAngle(s, start, e)
  {
    var index := start;
    while index < |s|
      invariant start <= index && Live(s, start, index)
      invariant forall k: nat :: start <= k < index && k < |s| && Live(s, start, k) ==> s[k] != '>'
      decreases |s| - index
    {
      ScanStep(s, start, index, '(', ')');
      if s[index] == '>' { return Some(index); }
      index := After(s, index);
    }
    r := None;
  }

  method PlainEnd(s: string, start: nat) returns (end: nat)
    requires start <= |s|
    ensures PlainDestination(s, start, end)
  {
    var depth, index := 0, start;
    while index < |s|
      invariant start <= index && Live(s, start, index)
      invariant depth == Balance(s, start, index, '(', ')') >= 0
      invariant forall e: nat :: e < index ==> !StopsAt(s, start, e)
      decreases |s| - index
    {
      ScanStep(s, start, index, '(', ')');
      var c := s[index];
      if c == '\\' {
      } else if c == '(' {
        depth := depth + 1;
      } else if c == ')' {
        if depth == 0 { return index; }
        depth := depth - 1;
      } else if IsSpace(c) && depth == 0 {
        return index;
      }
      assert !StopsAt(s, start, index);
      index := After(s, index);
    }
    end := |s|;
  }

  function FirstColon(s: string, from: nat): (r: nat)
    requires from <= |s|
    ensures from <= r <= |s| && (r < |s| ==> s[r] == ':') && forall k :: from <= k < r ==> s[k] != ':'
    decreases |s| - from
  {
    if from == |s| || s[from] == ':' then from else FirstColon(s, from + 1)
  }

  /** Where the destination's text begins, given where the label ends. */
  ghost predicate BeginsAt(s: string, kind: Kind, bracket: nat, start: nat) {
    && bracket < |s|
    && var after := if kind.Definition? then FirstColon(s, bracket + 1) + 1 else bracket + 2;
    && after <= start <= |s|
    && (if kind.Definition? then FirstColon(s, bracket + 1) < |s| else bracket + 1 < |s| && s[bracket + 1] == '(')
    && (forall k :: after <= k < start ==> IsSpace(s[k])) && (start < |s| ==> !IsSpace(s[start]))
  }

  /** What a located destination is: after the label, and either the inside of `<...>` or a plain
      destination. */
  ghost predicate IsDestination(s: string, kind: Kind, r: Range) {
    exists bracket: nat, begin: nat ::
      && ClosesLabel(s, FirstBracket(s), bracket) && BeginsAt(s, kind, bracket, begin)
      && if begin < |s| && s[begin] == '<' then r.start == begin + 1 && ClosesAngle(s, begin + 1, r.end)
         else r.start == begin && PlainDestination(s, begin, r.end)
  }

  method DestinationRange(s: string, kind: Kind) returns (r: Located)
    ensures r.Found? ==> IsDestination(s, kind, r.range)
    ensures r.Found? ==> r.range.start <= r.range.end <= |s|
    ensures r.NoLabelEnd? ==> forall e: nat :: !ClosesLabel(s, FirstBracket(s), e)
    ensures !r.Found? ==> forall x :: !IsDestination(s, kind, x)
  {
    var bracket := LabelEnd(s);
    if bracket.None? { return NoLabelEnd; }
    forall e: nat | ClosesLabel(s, FirstBracket(s), e) ensures e == bracket.value {
      LabelEndIsUnique(s, FirstBracket(s), e, bracket.value);
    }
    var after;
    if kind.Definition? {
      var colon := FirstColon(s, bracket.value + 1);
      if colon == |s| { return NoSeparator; }
      after := colon + 1;
    } else {
      if !(bracket.value + 1 < |s| && s[bracket.value + 1] == '(') { return NoInlineDestination; }
      after := bracket.value + 2;
    }
    var start := SkipWhitespace(s, after);
    assert BeginsAt(s, kind, bracket.value, start);
    if start < |s| && s[start] == '<' {
      var close := AngleEnd(s, start + 1);
      if close.None? {
        forall x ensures !IsDestination(s, kind, x) { OneBeginning(s, kind, bracket.value, start, start + 1, x); }
        return NoAngleEnd;
      }
      return Found(Range(start + 1, close.value));
    }
    var end := PlainEnd(s, start);
    r := Found(Range(start, end));
  }

  lemma OneBeginning(s: string, kind: Kind, bracket: nat, start: nat, inside: nat, x: Range)
    requires ClosesLabel(s, FirstBracket(s), bracket) && BeginsAt(s, kind, bracket, start)
    requires start < |s| && s[start] == '<' && inside == start + 1 && forall e: nat :: !ClosesAngle(s, inside, e)
    ensures !IsDestination(s, kind, x)
  {
    hide ClosesLabel, ClosesAngle, PlainDestination, BeginsAt, IsDestination;
    if IsDestination(s, kind, x) {
      var l, b := LocatedParts(s, kind, x);
      LabelEndIsUnique(s, FirstBracket(s), l, bracket);
      BeginningIsUnique(s, kind, bracket, b, start);
    }
  }

  /** A plain destination that stops before the end of its node is balanced in unescaped parentheses,
      never closes more than it opened, and has no unescaped whitespace outside them. */
  lemma PlainIsBalanced(s: string, start: nat, end: nat, k: nat)
    requires PlainDestination(s, start, end) && end < |s| && start <= k < end && Live(s, start, k)
    ensures Balance(s, start, end, '(', ')') == 0
    ensures Balance(s, start, k, '(', ')') >= 0
    ensures IsSpace(s[k]) ==> Balance(s, start, k, '(', ')') > 0
  {
    NeverNegative(s, start, end, k);
    assert !StopsAt(s, start, k);
  }

  lemma {:induction false} NeverNegative(s: string, start: nat, end: nat, k: nat)
    requires PlainDestination(s, start, end) && start <= k <= end && k <= |s| && Live(s, start, k)
    ensures Balance(s, start, k, '(', ')') >= 0
    decreases k
  {
    if k > start {
      var j := PreviousLive(s, start, k);
      NeverNegative(s, start, end, j);
      ScanStep(s, start, j, '(', ')');
      assert !StopsAt(s, start, j);
    }
  }

  lemma {:induction false} PreviousLive(s: string, i: nat, k: nat) returns (j: nat)
    requires i < k <= |s| && Live(s, i, k)
    ensures i <= j < k && Live(s, i, j) && After(s, j) == k
    decreases k - i
  {
    var n := After(s, i);
    if n == k {
      j := i;
    } else {
      j := PreviousLive(s, n, k);
    }
  }

  lemma PlainIsUnique(s: string, start: nat, a: nat, b: nat)
    requires PlainDestination(s, start, a) && PlainDestination(s, start, b)
    ensures a == b
  {
  }

  lemma AngleIsUnique(s: string, start: nat, a: nat, b: nat)
    requires ClosesAngle(s, start, a) && ClosesAngle(s, start, b)
    ensures a == b
  {
  }

  /** Where the label of a located destination ends, and where its text begins. */
  lemma LocatedParts(s: string, kind: Kind, r: Range) returns (bracket: nat, begin: nat)
    requires IsDestination(s, kind, r)
    ensures ClosesLabel(s, FirstBracket(s), bracket) && BeginsAt(s, kind, bracket, begin)
    ensures if begin < |s| && s[begin] == '<' then r.start == begin + 1 && ClosesAngle(s, begin + 1, r.end)
            else r.start == begin && PlainDestination(s, begin, r.end)
  {
    hide Live, Balance, StopsAt, PlainDestination, ClosesAngle, ClosesLabel, BeginsAt;
    bracket, begin :| ClosesLabel(s, FirstBracket(s), bracket) && BeginsAt(s, kind, bracket, begin) &&
      if begin < |s| && s[begin] == '<' then r.start == begin + 1 && ClosesAngle(s, begin + 1, r.end)
      else r.start == begin && PlainDestination(s, begin, r.end);
  }

  /** The located destination is the only one. */
  lemma DestinationIsUnique(s: string, kind: Kind, a: Range, b: Range)
    requires IsDestination(s, kind, a) && IsDestination(s, kind, b)
    ensures a == b
  {
    hide Live, Balance, StopsAt, PlainDestination, ClosesAngle, ClosesLabel, BeginsAt, IsDestination;
    var la, ba := LocatedParts(s, kind, a);
    var lb, bb := LocatedParts(s, kind, b);
    LabelEndIsUnique(s, FirstBracket(s), la, lb);
    BeginningIsUnique(s, kind, la, ba, bb);
    if ba < |s| && s[ba] == '<' { AngleIsUnique(s, ba + 1, a.end, b.end); } else { PlainIsUnique(s, ba, a.end, b.end); }
  }

  lemma BeginningIsUnique(s: string, kind: Kind, bracket: nat, a: nat, b: nat)
    requires BeginsAt(s, kind, bracket, a) && BeginsAt(s, kind, bracket, b)
    ensures a == b
  {
  }

  // ---------------------------------------------------------------- replacing them

  datatype Replacement = Replacement(start: nat, end: nat, value: string)

  /** In bounds and pairwise disjoint, no two starting together. */
  ghost predicate Disjoint(reps: seq<Replacement>, length: nat) {
    && (forall r <- reps :: r.start <= r.end <= length)
    && forall i, j :: 0 <= i < |reps| && 0 <= j < |reps| && i != j ==>
         reps[i].start != reps[j].start && (reps[i].end <= reps[j].start || reps[j].end <= reps[i].start)
  }

  /** Left to right, each ending before the next begins. */
  ghost predicate InOrder(reps: seq<Replacement>, from: nat, length: nat) {
    reps != [] ==>
      && from <= reps[0].start <= reps[0].end <= length
      && (|reps| > 1 ==> reps[0].start < reps[1].start)
      && InOrder(reps[1..], reps[0].end, length)
  }

  /** All replacements at once: the text from `from` on, with every range exchanged for its value. */
  function Substitute(source: string, from: nat, reps: seq<Replacement>): string
    requires from <= |source| && InOrder(reps, from, |source|)
    decreases reps
  {
    if reps == [] then source[from..]
    else source[from..reps[0].start] + reps[0].value + Substitute(source, reps[0].end, reps[1..])
  }

  /** `sort((a, b) => b.start - a.start)`, read from the right. */
  function InsertByStart(r: Replacement, sorted: seq<Replacement>): seq<Replacement> {
    if sorted == [] || r.start < sorted[0].start then [r] + sorted else [sorted[0]] + InsertByStart(r, sorted[1..])
  }

  function Ascending(reps: seq<Replacement>): seq<Replacement> {
    if reps == [] then [] else InsertByStart(reps[0], Ascending(reps[1..]))
  }

  lemma {:induction false} InsertMembers(r: Replacement, sorted: seq<Replacement>)
    ensures |InsertByStart(r, sorted)| == |sorted| + 1
    ensures forall x :: x in InsertByStart(r, sorted) <==> x == r || x in sorted
  {
    if sorted != [] && r.start >= sorted[0].start { InsertMembers(r, sorted[1..]); }
  }

  lemma {:induction false} InsertInOrder(r: Replacement, sorted: seq<Replacement>, from: nat, length: nat)
    requires InOrder(sorted, from, length) && from <= r.start <= r.end <= length
    requires forall x <- sorted :: x.start != r.start && (x.end <= r.start || r.end <= x.start)
    ensures InOrder(InsertByStart(r, sorted), from, length)
  {
    if sorted != [] {
      assert sorted[0] in sorted;
      if r.start < sorted[0].start {
        assert ([r] + sorted)[1..] == sorted;
      } else {
        assert forall x <- sorted[1..] :: x in sorted;
        InsertInOrder(r, sorted[1..], sorted[0].end, length);
        var rest := InsertByStart(r, sorted[1..]);
        assert ([sorted[0]] + rest)[1..] == rest;
        assert rest[0] == r || (|sorted| > 1 && rest[0] == sorted[1]);
      }
    }
  }

  /** From any later range on, the order still holds from that range's start. */
  lemma {:induction false} SuffixInOrder(reps: seq<Replacement>, from: nat, length: nat, k: nat)
    requires InOrder(reps, from, length) && k < |reps|
    ensures InOrder(reps[k..], reps[k].start, length) && reps[k].start <= reps[k].end <= length
    ensures InOrder(reps[k + 1..], reps[k].end, length)
    ensures k + 1 < |reps| ==> reps[k].end <= reps[k + 1].start
  {
    if k == 0 {
      assert reps[0..] == reps;
    } else {
      SuffixInOrder(reps[1..], reps[0].end, length, k - 1);
      assert reps[1..][k - 1..] == reps[k..] && reps[1..][k..] == reps[k + 1..];
    }
  }

  /** Every later range starts strictly later. */
  lemma {:induction false} LaterStarts(reps: seq<Replacement>, from: nat, length: nat, x: Replacement)
    requires reps != [] && InOrder(reps, from, length) && x in reps[1..]
    ensures reps[0].start < x.start
  {
    var tail := reps[1..];
    assert tail[0] == reps[1];
    if x != tail[0] { LaterStarts(tail, reps[0].end, length, x); }
  }

  lemma {:induction false} AscendingInOrder(reps: seq<Replacement>, length: nat)
    requires Disjoint(reps, length)
    ensures InOrder(Ascending(reps), 0, length) && |Ascending(reps)| == |reps|
    ensures forall x :: x in Ascending(reps) <==> x in reps
  {
    if reps != [] {
      assert forall x <- reps[1..] :: x in reps;
      AscendingInOrder(reps[1..], length);
      forall x | x in reps[1..] ensures x.start != reps[0].start && (x.end <= reps[0].start || reps[0].end <= x.start) {
        var k :| 0 <= k < |reps[1..]| && reps[1..][k] == x;
        assert reps[k + 1] == x;
      }
      assert reps[0] in reps;
      InsertMembers(reps[0], Ascending(reps[1..]));
      InsertInOrder(reps[0], Ascending(reps[1..]), 0, length);
    }
  }

  /** Where the text already rewritten begins: at range `k`, or at the end. */
  function CutAt(source: string, sorted: seq<Replacement>, k: nat): nat
    requires k <= |sorted|
  {
    if k == |sorted| then |source| else sorted[k].start
  }

  /** Ranges `k` and up are done: before the cut the text is untouched, after it substituted. */
  ghost predicate SpliceInv(source: string, projected: string, sorted: seq<Replacement>, k: nat) {
    && k <= |sorted| && InOrder(sorted, 0, |source|)
    && var cut := CutAt(source, sorted, k);
    && cut <= |source| && cut <= |projected| && InOrder(sorted[k..], cut, |source|)
    && projected[..cut] == source[..cut]
    && projected[cut..] == Substitute(source, cut, sorted[k..])
  }

  /** The splice loop: last range first, so the offsets of the ranges still to come stay valid. The
      result is the simultaneous substitution. */
  method Splice(source: string, reps: seq<Replacement>) returns (projected: string)
    requires Disjoint(reps, |source|)
    ensures InOrder(Ascending(reps), 0, |source|) && projected == Substitute(source, 0, Ascending(reps))
  {
    hide SpliceInv, Disjoint;
    var sorted := Ascending(reps);
    AscendingInOrder(reps, |source|);
    projected := source;
    var k := |sorted|;
    SpliceStart(source, sorted);
    while k > 0
      invariant 0 <= k <= |sorted| && SpliceInv(source, projected, sorted, k)
    {
      k := k - 1;
      var r := sorted[k];
      SpliceStep(source, projected, sorted, k);
      projected := projected[..r.start] + r.value + projected[r.end..];
    }
    SpliceDone(source, projected, sorted);
  }

  lemma SpliceStart(source: string, sorted: seq<Replacement>)
    requires InOrder(sorted, 0, |source|)
    ensures SpliceInv(source, source, sorted, |sorted|)
  {
    assert sorted[|sorted|..] == [];
    assert source[|source|..] == "";
  }

  lemma SpliceDone(source: string, projected: string, sorted: seq<Replacement>)
    requires SpliceInv(source, projected, sorted, 0)
    ensures projected == Substitute(source, 0, sorted)
  {
    assert sorted[0..] == sorted;
    var cut := CutAt(source, sorted, 0);
    assert projected == projected[..cut] + projected[cut..];
    if sorted == [] {
      assert source[|source|..] == "" && source[..|source|] == source && source[0..] == source;
    } else {
      WidenSubstitution(source, 0, sorted);
      assert source[0..cut] == source[..cut];
    }
  }

  /** Between a range's end and the cut the text is still the source's. */
  lemma UntouchedBetween(source: string, projected: string, from: nat, cut: nat)
    requires from <= cut <= |source| && cut <= |projected| && projected[..cut] == source[..cut]
    ensures projected[from..] == source[from..cut] + projected[cut..]
  {
    assert projected[from..cut] == projected[..cut][from..];
    assert source[from..cut] == source[..cut][from..];
    assert projected[from..] == projected[from..cut] + projected[cut..];
  }

  /** The rewritten text after range `k`, seen from that range's end. */
  lemma TailFromEnd(source: string, projected: string, sorted: seq<Replacement>, k: nat)
    requires k < |sorted| && SpliceInv(source, projected, sorted, k + 1)
    ensures sorted[k].start <= sorted[k].end <= CutAt(source, sorted, k + 1) && InOrder(sorted[k + 1..], sorted[k].end, |source|)
    ensures projected[sorted[k].end..] == Substitute(source, sorted[k].end, sorted[k + 1..])
  {
    var from, cut := sorted[k].end, CutAt(source, sorted, k + 1);
    SuffixInOrder(sorted, 0, |source|, k);
    UntouchedBetween(source, projected, from, cut);
    if k + 1 == |sorted| {
      assert source[from..cut] == source[from..] && projected[cut..] == source[cut..] == "";
    } else {
      WidenSubstitution(source, from, sorted[k + 1..]);
    }
  }

  lemma SpliceStep(source: string, projected: string, sorted: seq<Replacement>, k: nat)
    requires k < |sorted| && SpliceInv(source, projected, sorted, k + 1)
    ensures sorted[k].start <= sorted[k].end <= |projected|
    ensures SpliceInv(source, projected[..sorted[k].start] + sorted[k].value + projected[sorted[k].end..], sorted, k)
  {
    var r := sorted[k];
    TailFromEnd(source, projected, sorted, k);
    var next := projected[..r.start] + r.value + projected[r.end..];
    assert next[..r.start] == source[..r.start] by {
      assert next[..r.start] == projected[..r.start];
      assert projected[..r.start] == projected[..CutAt(source, sorted, k + 1)][..r.start];
      assert source[..r.start] == source[..CutAt(source, sorted, k + 1)][..r.start];
    }
    SubstituteOne(source, sorted, k);
    assert next[r.start..] == r.value + projected[r.end..];
  }

  lemma SubstituteOne(source: string, sorted: seq<Replacement>, k: nat)
    requires k < |sorted| && InOrder(sorted, 0, |source|)
    ensures InOrder(sorted[k..], sorted[k].start, |source|) && InOrder(sorted[k + 1..], sorted[k].end, |source|)
    ensures Substitute(source, sorted[k].start, sorted[k..]) == sorted[k].value + Substitute(source, sorted[k].end, sorted[k + 1..])
  {
    SuffixInOrder(sorted, 0, |source|, k);
    hide InOrder, Substitute;
    var suffix := sorted[k..];
    assert suffix[0] == sorted[k] && suffix[1..] == sorted[k + 1..];
    SubstituteHead(source, suffix);
  }

  lemma SubstituteHead(source: string, reps: seq<Replacement>)
    requires reps != [] && InOrder(reps, reps[0].start, |source|)
    requires reps[0].start <= reps[0].end <= |source| && InOrder(reps[1..], reps[0].end, |source|)
    ensures Substitute(source, reps[0].start, reps) == reps[0].value + Substitute(source, reps[0].end, reps[1..])
  {
    hide InOrder;
    var rest := Substitute(source, reps[0].end, reps[1..]);
    assert Substitute(source, reps[0].start, reps) == source[reps[0].start..reps[0].start] + reps[0].value + rest;
    hide Substitute;
    assert source[reps[0].start..reps[0].start] + reps[0].value == reps[0].value;
  }

  /** Text before the first range is copied. */
  lemma WidenSubstitution(source: string, from: nat, reps: seq<Replacement>)
    requires reps != [] && from <= |source| && InOrder(reps, from, |source|)
    ensures InOrder(reps, reps[0].start, |source|)
    ensures Substitute(source, from, reps) == source[from..reps[0].start] + Substitute(source, reps[0].start, reps)
  {
    assert source[reps[0].start..reps[0].start] == "";
  }

  /** The order in which the replacements were collected does not show. */
  lemma CollectionOrderIsIrrelevant(a: seq<Replacement>, b: seq<Replacement>, length: nat)
    requires Disjoint(a, length) && Disjoint(b, length) && forall x :: x in a <==> x in b
    ensures Ascending(a) == Ascending(b)
  {
    AscendingInOrder(a, length);
    AscendingInOrder(b, length);
    SameOrder(Ascending(a), Ascending(b), 0, length);
  }

  lemma HasMember(reps: seq<Replacement>)
    requires reps != []
    ensures exists x :: x in reps
  {
    assert reps[0] in reps;
  }

  lemma HeadsAgree(a: seq<Replacement>, b: seq<Replacement>, from: nat, length: nat)
    requires InOrder(a, from, length) && InOrder(b, from, length) && forall x :: x in a <==> x in b
    requires a != [] && b != []
    ensures a[0] == b[0] && forall x :: x in a[1..] <==> x in b[1..]
  {
    assert a[0] in b && b[0] in a;
    if a[0] != b[0] {
      LaterStarts(b, from, length, a[0]);
      LaterStarts(a, from, length, b[0]);
    }
    forall x | x in a[1..] ensures x in b[1..] { LaterStarts(a, from, length, x); assert x in b; }
    forall x | x in b[1..] ensures x in a[1..] { LaterStarts(b, from, length, x); assert x in a; }
  }

  lemma {:induction false} SameOrder(a: seq<Replacement>, b: seq<Replacement>, from: nat, length: nat)
    requires InOrder(a, from, length) && InOrder(b, from, length) && forall x :: x in a <==> x in b
    ensures a == b
  {
    if a != [] && b != [] {
      HeadsAgree(a, b, from, length);
      SameOrder(a[1..], b[1..], a[0].end, length);
      assert a == [a[0]] + a[1..] && b == [b[0]] + b[1..];
    } else if a != [] {
      HasMember(a);
    } else if b != [] {
      HasMember(b);
    }
  }
}
