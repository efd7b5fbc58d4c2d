/** `rewriteMarkdown` of `scripts/project-doc-site.ts` over the link nodes of a document, and how its scan for a
    destination compares with section 6.3 of CommonMark 0.31.2. */
module LinkNodes {
  import opened Characters
  import opened LinkRewrite

  // ------------------------------------------------------------------ a tree of nodes

  /** A link, image or definition node, its source offsets, and the URL to put in its place. */
  datatype LinkNode = LinkNode(kind: Kind, start: nat, end: nat, url: string)

  function Raw(source: string, n: LinkNode): string
    requires n.start <= n.end <= |source|
  {
    source[n.start..n.end]
  }

  /** `inner` stands in the label of `outer`, between its brackets. */
  ghost predicate InLabel(source: string, outer: LinkNode, inner: LinkNode)
    requires outer.start <= outer.end <= |source|
  {
    var raw := Raw(source, outer);
    outer.start <= inner.start && exists close: nat :: ClosesLabel(raw, FirstBracket(raw), close) && inner.end <= outer.start + close
  }

  /** Nodes lie side by side or one in the label of the other: that is what being nodes of one tree comes to, since the
      only children of a link or an image are those of its label. */
  ghost predicate IsForest(source: string, nodes: seq<LinkNode>) {
    && (forall n <- nodes :: n.start <= n.end <= |source|)
    && forall i, j :: 0 <= i < j < |nodes| ==>
         (nodes[i].end <= nodes[j].start || nodes[j].end <= nodes[i].start
          || InLabel(source, nodes[i], nodes[j]) || InLabel(source, nodes[j], nodes[i]))
  }

  /** The replacement collected for a node. */
  ghost predicate Replaces(source: string, n: LinkNode, r: Replacement)
    requires n.start <= n.end <= |source|
  {
    && n.start <= r.start && n.start <= r.end && r.value == n.url
    && IsDestination(Raw(source, n), n.kind, Range(r.start - n.start, r.end - n.start))
  }

  /** A destination stands after the label and inside the node. */
  lemma AfterLabel(s: string, kind: Kind, r: Range, close: nat)
    requires IsDestination(s, kind, r) && ClosesLabel(s, FirstBracket(s), close)
    ensures close < r.start <= r.end <= |s|
  {
    hide Live, Balance, StopsAt;
    var bracket, begin := LocatedParts(s, kind, r);
    LabelEndIsUnique(s, FirstBracket(s), bracket, close);
  }

  lemma InsideNode(source: string, n: LinkNode, r: Replacement)
    requires n.start <= n.end <= |source| && Replaces(source, n, r)
    ensures n.start < r.start <= r.end <= n.end
  {
    hide IsDestination, ClosesLabel;
    var raw, range := Raw(source, n), Range(r.start - n.start, r.end - n.start);
    var close, _ := LocatedParts(raw, n.kind, range);
    AfterLabel(raw, n.kind, range, close);
  }

  /** Nested nodes have their destinations apart: the inner one ends before the outer label does. */
  lemma InnerComesFirst(source: string, outer: LinkNode, inner: LinkNode, o: Replacement, i: Replacement)
    requires outer.start <= outer.end <= |source| && inner.start <= inner.end <= |source|
    requires Replaces(source, outer, o) && Replaces(source, inner, i) && InLabel(source, outer, inner)
    ensures i.end < o.start
  {
    hide IsDestination, ClosesLabel;
    var raw := Raw(source, outer);
    var close: nat :| ClosesLabel(raw, FirstBracket(raw), close) && inner.end <= outer.start + close;
    AfterLabel(raw, outer.kind, Range(o.start - outer.start, o.end - outer.start), close);
    InsideNode(source, inner, i);
  }

  /** The ranges collected from a tree are pairwise disjoint. */
  lemma ForestIsDisjoint(source: string, nodes: seq<LinkNode>, reps: seq<Replacement>)
    requires IsForest(source, nodes) && |reps| == |nodes|
    requires forall k :: 0 <= k < |nodes| ==> nodes[k].start <= nodes[k].end <= |source| && Replaces(source, nodes[k], reps[k])
    ensures Disjoint(reps, |source|)
  {
    hide Replaces, InLabel;
    forall k | 0 <= k < |reps| ensures nodes[k].start < reps[k].start <= reps[k].end <= nodes[k].end <= |source| {
      InsideNode(source, nodes[k], reps[k]);
    }
    forall i, j | 0 <= i < j < |reps|
      ensures reps[i].start != reps[j].start && (reps[i].end <= reps[j].start || reps[j].end <= reps[i].start) {
      if InLabel(source, nodes[i], nodes[j]) { InnerComesFirst(source, nodes[i], nodes[j], reps[i], reps[j]); }
      if InLabel(source, nodes[j], nodes[i]) { InnerComesFirst(source, nodes[j], nodes[i], reps[j], reps[i]); }
    }
    forall i, j | 0 <= i < |reps| && 0 <= j < |reps| && i != j
      ensures reps[i].start != reps[j].start && (reps[i].end <= reps[j].start || reps[j].end <= reps[i].start) {
      if j < i { assert reps[j].start != reps[i].start; }
    }
  }

  datatype Rewritten = Rewritten(reps: seq<Replacement>, text: string) | NoDestination(node: LinkNode)

  /** `rewriteMarkdown`, once every node's new URL is known: throws when some node has no destination the scan can
      find, and otherwise puts every URL in place of its node's destination, all at once. */
  method RewriteMarkdown(source: string, nodes: seq<LinkNode>) returns (r: Rewritten)
    requires IsForest(source, nodes)
    ensures r.NoDestination? ==> r.node in nodes && forall x :: !IsDestination(Raw(source, r.node), r.node.kind, x)
    ensures r.Rewritten? ==> |r.reps| == |nodes| && forall k :: 0 <= k < |nodes| ==> Replaces(source, nodes[k], r.reps[k])
    ensures r.Rewritten? ==> Disjoint(r.reps, |source|) && InOrder(Ascending(r.reps), 0, |source|)
                             && r.text == Substitute(source, 0, Ascending(r.reps))
  {
    hide IsDestination, Disjoint, InOrder, InLabel;
    var reps: seq<Replacement> := [];
    for k := 0 to |nodes|
      invariant |reps| == k && forall i :: 0 <= i < k ==> Replaces(source, nodes[i], reps[i])
    {
      var n := nodes[k];
      var found := DestinationRange(Raw(source, n), n.kind);
      if !found.Found? { return NoDestination(n); }
      reps := reps + [Replacement(n.start + found.range.start, n.start + found.range.end, n.url)];
    }
    ForestIsDisjoint(source, nodes, reps);
    var text := Splice(source, reps);
    r := Rewritten(reps, text);
  }

  // -------------------------------------------------- the unbracketed form of section 6.3

  predicate IsAsciiPunctuation(c: char) {
    '!' <= c <= '/' || ':' <= c <= '@' || '[' <= c <= '`' || '{' <= c <= '~'
  }

  /** A backslash escapes ASCII punctuation only. */
  function CmAfter(s: string, j: nat): nat
    requires j < |s|
  {
    if s[j] == '\\' && j + 1 < |s| && IsAsciiPunctuation(s[j + 1]) then j + 2 else j + 1
  }

  predicate CmLive(s: string, i: nat, j: nat)
    decreases |s| - i
  {
    if i >= j || i >= |s| then i == j else CmLive(s, CmAfter(s, i), j)
  }

  /** Unescaped opening minus unescaped closing parentheses. */
  function CmBalance(s: string, i: nat, j: nat): int
    decreases |s| - i
  {
    if i >= j || i >= |s| then 0 else (if CmAfter(s, i) == i + 1 then Weigh(s[i], '(', ')') else 0) + CmBalance(s, CmAfter(s, i), j)
  }

  /** A nonempty run without ASCII control characters or spaces, not beginning with `<`, in which unescaped parentheses
      are balanced. */
  ghost predicate CmDestination(s: string, start: nat, end: nat) {
    && start < end <= |s| && s[start] != '<'
    && (forall k :: start <= k < end ==> ' ' < s[k] && s[k] != '\U{007F}')
    && CmLive(s, start, end) && CmBalance(s, start, end) == 0
    && forall k: nat :: start <= k <= end && CmLive(s, start, k) ==> CmBalance(s, start, k) >= 0
  }

  /** The scan looks at no position that CommonMark would skip, and counts the same parentheses. */
  lemma {:induction false} LiveIsCmLive(s: string, i: nat, k: nat)
    requires Live(s, i, k) && k <= |s|
    ensures CmLive(s, i, k) && CmBalance(s, i, k) == Balance(s, i, k, '(', ')')
    decreases |s| - i
  {
    if i < k {
      if s[i] == '\\' {
        LiveIsCmLive(s, i + 2, k);
        if CmAfter(s, i) == i + 1 { assert CmAfter(s, i + 1) == i + 2 && CmLive(s, i + 1, k); }
      } else {
        LiveIsCmLive(s, i + 1, k);
      }
    }
  }

  lemma CmStep(s: string, start: nat, k: nat)
    requires start <= k < |s| && Live(s, start, k) && s[k] != '\\'
    ensures CmLive(s, start, k + 1) && CmBalance(s, start, k + 1) == Balance(s, start, k, '(', ')') + Weigh(s[k], '(', ')')
  {
    ScanStep(s, start, k, '(', ')');
    LiveIsCmLive(s, start, k + 1);
  }

  /** Where an inline link's destination ends, at its closing parenthesis or at the blank before a title, the scan stops
      at the same place exactly when no backslash ends the destination and no other whitespace stands in it outside
      parentheses. */
  lemma ScanFindsCmDestination(s: string, start: nat, end: nat)
    requires CmDestination(s, start, end) && end < |s| && s[end] in ") \t\n"
    ensures PlainDestination(s, start, end) <==>
            && Live(s, start, end)
            && forall k: nat :: start <= k < end && Live(s, start, k) && IsSpace(s[k]) ==> Balance(s, start, k, '(', ')') != 0
  {
    hide IsSpace, CmBalance;
    if Live(s, start, end) {
      LiveIsCmLive(s, start, end);
      EndStops(s[end]);
      forall k: nat | start <= k < end && Live(s, start, k) && s[k] == ')' ensures Balance(s, start, k, '(', ')') != 0 {
        CmStep(s, start, k);
      }
    }
    if PlainDestination(s, start, end) {
      forall k: nat | start <= k < end && Live(s, start, k) && IsSpace(s[k]) ensures Balance(s, start, k, '(', ')') != 0 {
        assert !StopsAt(s, start, k);
      }
    }
  }

  lemma EndStops(c: char)
    requires c in ") \t\n"
    ensures c == ')' || IsSpace(c)
  {
  }

  /** A no-break space belongs to a destination, and stops the scan. */
  lemma NoBreakSpaceExample()
    ensures CmDestination("x\U{00A0})", 0, 2) && PlainDestination("x\U{00A0})", 0, 1)
  {
    var s := "x\U{00A0})";
    assert CmLive(s, 2, 2) && CmLive(s, 1, 2) && CmBalance(s, 2, 2) == 0 && CmBalance(s, 1, 2) == 0;
    assert CmBalance(s, 1, 1) == 0 && Live(s, 1, 1) && Balance(s, 1, 1, '(', ')') == 0;
  }

  /** A bracket in a code span ends the label for the scan, which then finds no destination and throws. */
  lemma CodeSpanLabelExample(x: Range)
    ensures !IsDestination("[`]`](x)", Link, x)
  {
    var s := "[`]`](x)";
    assert FirstBracket(s) == 0;
    assert Live(s, 2, 2) && Live(s, 1, 2) && Live(s, 0, 2);
    assert Balance(s, 2, 2, '[', ']') == 0 && Balance(s, 1, 2, '[', ']') == 0 && Balance(s, 0, 2, '[', ']') == 1;
    assert Balance(s, 1, 1, '[', ']') == 0 && Balance(s, 0, 1, '[', ']') == 1;
    assert ClosesLabel(s, 0, 2);
    forall l: nat | ClosesLabel(s, 0, l) ensures l == 2 { LabelEndIsUnique(s, 0, l, 2); }
  }
}
