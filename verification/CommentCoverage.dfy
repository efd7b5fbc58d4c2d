/** HTML comments and prose lines in `scripts/markdown.ts`: comments are found by offset, applied
    line by line as column ranges, and a line survives if anything visible does. */
module CommentCoverage {
  import opened Characters
  import opened TextLines

  /** Half-open. */
  datatype Span = Span(start: nat, end: nat)

  ghost predicate Covers(spans: seq<Span>, i: int) {
    exists s <- spans :: s.start <= i < s.end
  }

  // ------------------------------------------------------- comments in one node

  /** Where the comment opened at `start` ends: past its `-->`, or at the end of the node. */
  function CommentEnd(value: string, start: nat): nat
    requires start + 4 <= |value|
  {
    var close := Find(value, start + 4, "-->");
    if close < |value| then close + 3 else |value|
  }

  /** `c` is the first comment from `cursor` on. */
  ghost predicate IsNext(value: string, cursor: nat, c: Span)
    requires cursor <= |value|
  {
    var start := Find(value, cursor, "<!--");
    start < |value| && c == Span(start, CommentEnd(value, start)) && c.end <= |value|
  }

  /** The comments from `cursor` on: each opens at the first `<!--` after the last one's end. */
  ghost predicate CommentsFrom(value: string, cursor: nat, found: seq<Span>)
    requires cursor <= |value|
    decreases found
  {
    if found == [] then Find(value, cursor, "<!--") == |value|
    else IsNext(value, cursor, found[0]) && CommentsFrom(value, found[0].end, found[1..])
  }

  /** A prefix of the comments from `cursor` on. */
  ghost predicate IsChain(value: string, cursor: nat, found: seq<Span>)
    requires cursor <= |value|
    decreases found
  {
    found != [] ==> IsNext(value, cursor, found[0]) && IsChain(value, found[0].end, found[1..])
  }

  lemma {:induction false} CommentsSnoc(value: string, cursor: nat, found: seq<Span>, tail: seq<Span>)
    requires cursor <= |value| && forall i :: 0 <= i < |found| ==> found[i].end <= |value|
    requires IsChain(value, cursor, found)
    requires CommentsFrom(value, if found == [] then cursor else found[|found| - 1].end, tail)
    ensures CommentsFrom(value, cursor, found + tail)
    decreases found
  {
    hide IsNext;
    if found == [] {
      assert found + tail == tail;
    } else {
      assert (found + tail)[1..] == found[1..] + tail;
      CommentsSnoc(value, found[0].end, found[1..], tail);
    }
  }

  lemma {:induction false} ChainSnoc(value: string, cursor: nat, found: seq<Span>, last: Span)
    requires cursor <= |value| && IsChain(value, cursor, found)
    requires found != [] ==> found[|found| - 1].end <= |value|
    requires IsChain(value, if found == [] then cursor else found[|found| - 1].end, [last])
    ensures IsChain(value, cursor, found + [last])
    decreases found
  {
    if found == [] {
      assert found + [last] == [last];
    } else {
      assert (found + [last])[1..] == found[1..] + [last];
      ChainSnoc(value, found[0].end, found[1..], last);
    }
  }

  /** The scan of one `html` node. */
  method NodeComments(value: string) returns (found: seq<Span>)
    ensures CommentsFrom(value, 0, found)
  {
    found := [];
    var cursor := 0;
    while true
      invariant cursor <= |value| && cursor == if found == [] then 0 else found[|found| - 1].end
      invariant forall i :: 0 <= i < |found| ==> found[i].end <= |value|
      invariant IsChain(value, 0, found)
      decreases |value| - cursor
    {
      var start := Find(value, cursor, "<!--");
      if start == |value| {
        CommentsSnoc(value, 0, found, []);
        assert found + [] == found;
        return;
      }
      var end := CommentEnd(value, start);
      assert IsChain(value, cursor, [Span(start, end)]);
      ChainSnoc(value, 0, found, Span(start, end));
      found := found + [Span(start, end)];
      cursor := end;
    }
  }

  /** The comment runs past the first `-->` behind its opening, or to the end of the node when there is none. */
  ghost predicate Closes(value: string, c: Span) {
    || (exists k: nat :: c.start + 4 <= k && At(value, k, "-->") && c.end == k + 3 && forall j: nat :: c.start + 4 <= j < k ==> !At(value, j, "-->"))
    || (c.end == |value| && forall j: nat :: c.start + 4 <= j ==> !At(value, j, "-->"))
  }

  lemma CommentCloses(value: string, start: nat)
    requires start + 4 <= |value|
    ensures Closes(value, Span(start, CommentEnd(value, start)))
  {
    var k := Find(value, start + 4, "-->");
    assert !At(value, |value|, "-->");
  }

  lemma {:induction false} CommentsClose(value: string, cursor: nat, found: seq<Span>)
    requires cursor <= |value| && CommentsFrom(value, cursor, found)
    ensures forall c <- found :: Closes(value, c)
    decreases found
  {
    if found != [] {
      var start := Find(value, cursor, "<!--");
      CommentCloses(value, start);
      assert found[0] == Span(start, CommentEnd(value, start));
      FirstComment(value, cursor, found);
      hide CommentEnd, CommentsFrom, At, Closes;
      CommentsClose(value, found[0].end, found[1..]);
      assert forall c <- found :: c == found[0] || c in found[1..];
    }
  }

  lemma FirstComment(value: string, cursor: nat, found: seq<Span>)
    requires cursor <= |value| && CommentsFrom(value, cursor, found) && found != []
    ensures cursor <= found[0].start < found[0].end <= |value| && At(value, found[0].start, "<!--")
    ensures CommentsFrom(value, found[0].end, found[1..])
    ensures forall k :: cursor <= k < found[0].start ==> !At(value, k, "<!--")
  {
  }

  lemma {:induction false} CommentsInBounds(value: string, cursor: nat, found: seq<Span>)
    requires cursor <= |value| && CommentsFrom(value, cursor, found)
    ensures forall s <- found :: cursor <= s.start < s.end <= |value| && At(value, s.start, "<!--")
    decreases found
  {
    if found != [] {
      FirstComment(value, cursor, found);
      hide CommentEnd, CommentsFrom, At;
      CommentsInBounds(value, found[0].end, found[1..]);
      assert forall s <- found :: s == found[0] || s in found[1..];
    }
  }

  lemma {:induction false} CommentsInOrder(value: string, cursor: nat, found: seq<Span>, i: nat, j: nat)
    requires cursor <= |value| && CommentsFrom(value, cursor, found) && i < j < |found|
    ensures found[i].end <= found[j].start
    decreases found
  {
    hide CommentEnd, CommentsFrom, At;
    FirstComment(value, cursor, found);
    CommentsInBounds(value, found[0].end, found[1..]);
    if i == 0 { assert found[j] == found[1..][j - 1]; } else { CommentsInOrder(value, found[0].end, found[1..], i - 1, j - 1); }
  }

  lemma {:induction false} NoCommentOutside(value: string, cursor: nat, found: seq<Span>, k: nat)
    requires cursor <= k < |value| && CommentsFrom(value, cursor, found) && At(value, k, "<!--")
    ensures Covers(found, k)
    decreases found
  {
    if found != [] {
      FirstComment(value, cursor, found);
      hide CommentEnd, CommentsFrom, At;
      if k < found[0].end {
        assert found[0] in found;
      } else {
        NoCommentOutside(value, found[0].end, found[1..], k);
        var s :| s in found[1..] && s.start <= k < s.end;
        assert s in found;
      }
    }
  }

  /** The comments of a node are disjoint and in order, each runs to its closing mark, and no comment opens outside them. */
  lemma CommentsAreExact(value: string, cursor: nat, found: seq<Span>)
    requires cursor <= |value| && CommentsFrom(value, cursor, found)
    ensures forall s <- found :: cursor <= s.start < s.end <= |value| && At(value, s.start, "<!--")
    ensures forall i, j :: 0 <= i < j < |found| ==> found[i].end <= found[j].start
    ensures forall k :: cursor <= k < |value| && At(value, k, "<!--") ==> Covers(found, k)
    ensures forall c <- found :: Closes(value, c)
  {
    hide CommentEnd, CommentsFrom, At, Covers, Closes;
    CommentsClose(value, cursor, found);
    CommentsInBounds(value, cursor, found);
    forall i, j | 0 <= i < j < |found| ensures found[i].end <= found[j].start { CommentsInOrder(value, cursor, found, i, j); }
    forall k | cursor <= k < |value| && At(value, k, "<!--") ensures Covers(found, k) { NoCommentOutside(value, cursor, found, k); }
  }

  // ----------------------------------------------------------- ranges of one line

  /** A comment touches a line it shares a character with, or an empty line it runs across. */
  predicate IsPlace(raw: string, i: nat) {
    i < |raw| || (raw == "" && i == 0)
  }

  ghost predicate Touches(c: Span, offset: nat, raw: string) {
    exists i: nat :: IsPlace(raw, i) && c.start <= offset + i < c.end
  }

  /** The per-line loop of `htmlCommentRanges`. */
  method LineRanges(comments: seq<Span>, offset: nat, raw: string) returns (ranges: seq<Span>)
    requires forall c <- comments :: c.start <= c.end
    ensures ranges == [] <==> forall c <- comments :: !Touches(c, offset, raw)
    ensures forall r <- ranges :: r.start <= r.end <= |raw|
    ensures forall i :: 0 <= i < |raw| ==> (Covers(ranges, i) <==> Covers(comments, offset + i))
  {
    ranges := [];
    var lineEnd := offset + |raw|;
    for k := 0 to |comments|
      invariant ranges == [] <==> forall c <- comments[..k] :: !Touches(c, offset, raw)
      invariant forall r <- ranges :: r.start <= r.end <= |raw|
      invariant forall i :: 0 <= i < |raw| ==> (Covers(ranges, i) <==> Covers(comments[..k], offset + i))
    {
      var c := comments[k];
      assert c in comments && comments[..k + 1] == comments[..k] + [c];
      var from := if c.start < offset then offset else c.start;
      var to := if c.end < lineEnd then c.end else lineEnd;
      var coversEmptyLine := |raw| == 0 && c.start <= offset && c.end > offset;
      assert Touches(c, offset, raw) <==> from < to || coversEmptyLine by {
        if from < to { assert IsPlace(raw, from - offset) && c.start <= offset + (from - offset) < c.end; }
        if coversEmptyLine { assert IsPlace(raw, 0) && c.start <= offset + 0 < c.end; }
      }
      ghost var before := ranges;
      if from < to || coversEmptyLine {
        ranges := ranges + [Span(from - offset, to - offset)];
      }
      forall i | 0 <= i < |raw| ensures Covers(ranges, i) <==> Covers(comments[..k + 1], offset + i) {
        assert Covers(comments[..k + 1], offset + i) <==> Covers(comments[..k], offset + i) || c.start <= offset + i < c.end;
        assert Covers(ranges, i) <==> Covers(before, i) || from <= offset + i < to;
      }
    }
    assert comments[..|comments|] == comments;
  }

  // ------------------------------------------------------------ what stays visible

  function InsertSpan(s: Span, sorted: seq<Span>): (r: seq<Span>)
    ensures forall x :: x in r <==> x == s || x in sorted
  {
    if sorted == [] || s.start < sorted[0].start then [s] + sorted else [sorted[0]] + InsertSpan(s, sorted[1..])
  }

  /** `[...ranges].sort((left, right) => left[0] - right[0])`. */
  function SortSpans(spans: seq<Span>): (r: seq<Span>)
    ensures forall x :: x in r <==> x in spans
  {
    if spans == [] then [] else InsertSpan(spans[0], SortSpans(spans[1..]))
  }

  ghost predicate SortedSpans(spans: seq<Span>) {
    forall i, j :: 0 <= i < j < |spans| ==> spans[i].start <= spans[j].start
  }

  lemma {:induction false} InsertSpanSorted(s: Span, sorted: seq<Span>)
    requires SortedSpans(sorted)
    ensures SortedSpans(InsertSpan(s, sorted))
  {
    if sorted != [] && s.start >= sorted[0].start {
      InsertSpanSorted(s, sorted[1..]);
      var rest := InsertSpan(s, sorted[1..]);
      forall j | 0 <= j < |rest| ensures sorted[0].start <= rest[j].start { assert rest[j] in rest; }
    }
  }

  lemma {:induction false} SortSpansSorted(spans: seq<Span>)
    ensures SortedSpans(SortSpans(spans))
  {
    if spans != [] {
      SortSpansSorted(spans[1..]);
      InsertSpanSorted(spans[0], SortSpans(spans[1..]));
    }
  }

  /** Some non-whitespace character before `limit` lies outside every range. */
  ghost predicate VisibleBefore(raw: string, ranges: seq<Span>, limit: int) {
    exists i :: 0 <= i < limit && i < |raw| && !IsSpace(raw[i]) && !Covers(ranges, i)
  }

  function Max(a: nat, b: nat): nat {
    if a < b then b else a
  }

  /** `raw.slice(from, to)`. */
  function Slice(raw: string, from: nat, to: nat): string {
    var hi := if to < |raw| then to else |raw|;
    if from < hi then raw[from..hi] else ""
  }

  /** Taking the text between the cursor and the next range, then jumping past that range. */
  lemma VisibleStep(raw: string, ranges: seq<Span>, sorted: seq<Span>, k: nat, cursor: nat, visible: string)
    requires SortedSpans(sorted) && k < |sorted| && (forall x :: x in sorted <==> x in ranges)
    requires sorted[k].start <= sorted[k].end
    requires forall j :: 0 <= j < k ==> sorted[j].end <= cursor
    requires !Blank(visible) <==> VisibleBefore(raw, ranges, cursor)
    ensures !Blank(visible + Slice(raw, cursor, sorted[k].start)) <==> VisibleBefore(raw, ranges, Max(cursor, sorted[k].end))
  {
    var piece, next := Slice(raw, cursor, sorted[k].start), Max(cursor, sorted[k].end);
    assert sorted[k] in ranges;
    GapIsUncovered(ranges, sorted, k, cursor);
    assert Blank(visible + piece) <==> Blank(visible) && Blank(piece);
    if !Blank(piece) {
      var i :| 0 <= i < |piece| && !IsSpace(piece[i]);
      assert raw[cursor + i] == piece[i] && !Covers(ranges, cursor + i);
    }
    if VisibleBefore(raw, ranges, next) && !VisibleBefore(raw, ranges, cursor) {
      var i :| 0 <= i < next && i < |raw| && !IsSpace(raw[i]) && !Covers(ranges, i);
      assert cursor <= i < sorted[k].start;
      assert piece[i - cursor] == raw[i];
    }
  }

  /** No range covers the text between what is already passed and the next start. */
  lemma GapIsUncovered(ranges: seq<Span>, sorted: seq<Span>, k: nat, cursor: nat)
    requires SortedSpans(sorted) && k <= |sorted| && (forall x :: x in sorted <==> x in ranges)
    requires forall j :: 0 <= j < k ==> sorted[j].end <= cursor
    ensures forall i :: cursor <= i && (k < |sorted| ==> i < sorted[k].start) ==> !Covers(ranges, i)
  {
    forall i | cursor <= i && (k < |sorted| ==> i < sorted[k].start) ensures !Covers(ranges, i) {
      forall s | s in ranges ensures !(s.start <= i < s.end) {
        var j :| 0 <= j < |sorted| && sorted[j] == s;
      }
    }
  }

  /** `hasRenderedTextOutsideComments`: without ranges the line always counts. */
  method HasRenderedText(raw: string, ranges: seq<Span>) returns (r: bool)
    requires forall s <- ranges :: s.start <= s.end
    ensures r <==> ranges == [] || exists i :: 0 <= i < |raw| && !IsSpace(raw[i]) && !Covers(ranges, i)
  {
    if ranges == [] { return true; }
    hide SortSpans, Slice;
    var sorted := SortSpans(ranges);
    SortSpansSorted(ranges);
    SortSpansMembers(ranges);
    var cursor, visible := 0, "";
    for k := 0 to |sorted|
      invariant forall j :: 0 <= j < k ==> sorted[j].end <= cursor
      invariant !Blank(visible) <==> VisibleBefore(raw, ranges, cursor)
    {
      VisibleStep(raw, ranges, sorted, k, cursor, visible);
      visible := visible + Slice(raw, cursor, sorted[k].start);
      cursor := Max(cursor, sorted[k].end);
    }
    VisibleEnd(raw, ranges, sorted, cursor, visible);
    visible := visible + Slice(raw, cursor, |raw|);
    r := !Blank(visible);
  }

  lemma SortSpansMembers(spans: seq<Span>)
    ensures forall x :: x in SortSpans(spans) <==> x in spans
  {
  }

  lemma VisibleEnd(raw: string, ranges: seq<Span>, sorted: seq<Span>, cursor: nat, visible: string)
    requires SortedSpans(sorted) && (forall x :: x in sorted <==> x in ranges)
    requires forall j :: 0 <= j < |sorted| ==> sorted[j].end <= cursor
    requires !Blank(visible) <==> VisibleBefore(raw, ranges, cursor)
    ensures !Blank(visible + Slice(raw, cursor, |raw|)) <==> VisibleBefore(raw, ranges, |raw|)
  {
    var piece := Slice(raw, cursor, |raw|);
    GapIsUncovered(ranges, sorted, |sorted|, cursor);
    assert Blank(visible + piece) <==> Blank(visible) && Blank(piece);
    if !Blank(piece) {
      var i :| 0 <= i < |piece| && !IsSpace(piece[i]);
      assert raw[cursor + i] == piece[i];
    }
    if VisibleBefore(raw, ranges, |raw|) && !VisibleBefore(raw, ranges, cursor) {
      var i :| 0 <= i < |raw| && !IsSpace(raw[i]) && !Covers(ranges, i);
      assert i >= cursor && piece[i - cursor] == raw[i];
    }
  }

  // -------------------------------------------------------------- markdownProseLines

  /** The offset-level view: an unfenced line is kept if no comment touches it, or if some visible
      character of it lies outside every comment. */
  ghost predicate Kept(lines: seq<string>, comments: seq<Span>, fenced: set<nat>, k: nat)
    requires k < |lines|
  {
    var offset := OffsetOf(lines, k);
    k + 1 !in fenced &&
    ((forall c <- comments :: !Touches(c, offset, lines[k]))
     || exists i :: 0 <= i < |lines[k]| && !IsSpace(lines[k][i]) && !Covers(comments, offset + i))
  }

  datatype ProseLine = ProseLine(index: nat, raw: string)

  ghost predicate Shows(kept: seq<ProseLine>, k: nat) {
    exists p <- kept :: p.index == k + 1
  }

  /** Lines of the text, verbatim, in order, with their 1-based numbers. */
  ghost predicate Numbered(lines: seq<string>, upTo: nat, kept: seq<ProseLine>)
    requires upTo <= |lines|
  {
    && (forall j, k :: 0 <= j < k < |kept| ==> kept[j].index < kept[k].index)
    && (forall p <- kept :: 1 <= p.index <= upTo && p.raw == lines[p.index - 1])
  }

  /** Exactly the kept lines. */
  ghost predicate IsProse(lines: seq<string>, comments: seq<Span>, fenced: set<nat>, upTo: nat, kept: seq<ProseLine>)
    requires upTo <= |lines|
  {
    Numbered(lines, upTo, kept) && forall k: nat :: k < upTo ==> (Kept(lines, comments, fenced, k) <==> Shows(kept, k))
  }

  method ProseLines(lines: seq<string>, comments: seq<Span>, fenced: set<nat>) returns (kept: seq<ProseLine>)
    requires forall c <- comments :: c.start <= c.end
    ensures IsProse(lines, comments, fenced, |lines|, kept)
  {
    kept := [];
    var offset := 0;
    for k := 0 to |lines|
      invariant offset == OffsetOf(lines, k)
      invariant IsProse(lines, comments, fenced, k, kept)
    {
      ghost var before := kept;
      var keep := false;
      if k + 1 !in fenced {
        var ranges := LineRanges(comments, offset, lines[k]);
        keep := HasRenderedText(lines[k], ranges);
      }
      assert keep <==> Kept(lines, comments, fenced, k);
      if keep { kept := kept + [ProseLine(k + 1, lines[k])]; }
      ProseStep(lines, comments, fenced, k, before, kept);
      offset := offset + |lines[k]| + 1;
    }
  }

  lemma ProseStep(lines: seq<string>, comments: seq<Span>, fenced: set<nat>, k: nat, before: seq<ProseLine>, kept: seq<ProseLine>)
    requires k < |lines| && IsProse(lines, comments, fenced, k, before)
    requires kept == if Kept(lines, comments, fenced, k) then before + [ProseLine(k + 1, lines[k])] else before
    ensures IsProse(lines, comments, fenced, k + 1, kept)
  {
    hide Kept, Shows, Numbered;
    NumberedStep(lines, k, before);
    ShowsInRange(lines, before, k);
    forall j: nat | j < k + 1 ensures Kept(lines, comments, fenced, j) <==> Shows(kept, j) {
      ShowsOneMore(before, ProseLine(k + 1, lines[k]), j);
    }
  }

  lemma NumberedStep(lines: seq<string>, k: nat, before: seq<ProseLine>)
    requires k < |lines| && Numbered(lines, k, before)
    ensures Numbered(lines, k + 1, before) && Numbered(lines, k + 1, before + [ProseLine(k + 1, lines[k])])
  {
    assert forall q :: q in before + [ProseLine(k + 1, lines[k])] <==> q in before || q == ProseLine(k + 1, lines[k]);
  }

  lemma ShowsOneMore(before: seq<ProseLine>, p: ProseLine, k: nat)
    ensures Shows(before + [p], k) <==> Shows(before, k) || p.index == k + 1
  {
    assert forall q :: q in before + [p] <==> q in before || q == p;
  }

  lemma ShowsInRange(lines: seq<string>, kept: seq<ProseLine>, upTo: nat)
    requires upTo <= |lines| && Numbered(lines, upTo, kept)
    ensures !Shows(kept, upTo)
  {
  }

  // ------------------------------------------------------------- said of the text itself

  /** Position `o` is on line `k`: at one of its characters, or at its only place when it is empty. */
  ghost predicate OnLine(text: string, o: nat, k: nat) {
    o <= |text| && Breaks(text, o) == k
    && ((o < |text| && text[o] != '\n') || ((o == |text| || text[o] == '\n') && (o == 0 || text[o - 1] == '\n')))
  }

  ghost predicate CommentOn(text: string, comments: seq<Span>, k: nat) {
    exists o: nat :: OnLine(text, o, k) && Covers(comments, o)
  }

  ghost predicate VisibleOn(text: string, comments: seq<Span>, k: nat) {
    exists o: nat :: OnLine(text, o, k) && o < |text| && !IsSpace(text[o]) && !Covers(comments, o)
  }

  /** The characters of a line stand at its offset, between line breaks. */
  lemma LineInText(text: string, k: nat)
    requires k < |Split(text)|
    ensures var lines := Split(text);
      var start := OffsetOf(lines, k);
      && start + |lines[k]| <= |text| && (start == 0 || text[start - 1] == '\n')
      && (start + |lines[k]| == |text| || text[start + |lines[k]|] == '\n')
      && (forall i :: 0 <= i < |lines[k]| ==> text[start + i] == lines[k][i] && lines[k][i] != '\n')
  {
    hide Split, Join, OffsetOf, Plain;
    SplitIsPlain(text);
    LineAtOffset(Split(text), k);
    BreakBefore(Split(text), k);
    PlainLine(Split(text), k);
  }

  lemma PlaceIsOnLine(text: string, k: nat, i: nat)
    requires k < |Split(text)| && IsPlace(Split(text)[k], i)
    ensures OnLine(text, OffsetOf(Split(text), k) + i, k)
  {
    hide Split, Join, Breaks, OffsetOf;
    var lines := Split(text);
    LineInText(text, k);
    SplitIsPlain(text);
    BreaksAt(lines, k, i);
    var o := OffsetOf(lines, k) + i;
    assert o <= |text| && Breaks(text, o) == k;
    if i < |lines[k]| { assert text[o] == lines[k][i]; }
  }

  /** The positions on a line are its places. */
  lemma OnLineIsPlace(text: string, k: nat, o: nat)
    requires k < |Split(text)| && OnLine(text, o, k)
    ensures var start := OffsetOf(Split(text), k); o >= start && IsPlace(Split(text)[k], o - start)
  {
    hide Split, Join, Breaks, OffsetOf;
    SplitIsPlain(text);
    var m, i := LineOf(Split(text), o);
    BreaksAt(Split(text), m, i);
    LineInText(text, k);
    var line := Split(text)[k];
    if i > 0 { assert text[o - 1] == line[i - 1]; }
  }

  lemma PlacesOfLine(text: string, k: nat, o: nat)
    requires k < |Split(text)|
    ensures var lines := Split(text);
      OnLine(text, o, k) <==> o >= OffsetOf(lines, k) && IsPlace(lines[k], o - OffsetOf(lines, k))
    ensures OnLine(text, o, k) && o < |text| && !IsSpace(text[o]) ==>
      o - OffsetOf(Split(text), k) < |Split(text)[k]| && Split(text)[k][o - OffsetOf(Split(text), k)] == text[o]
    ensures forall i :: 0 <= i < |Split(text)[k]| ==> OffsetOf(Split(text), k) + i < |text| && text[OffsetOf(Split(text), k) + i] == Split(text)[k][i]
  {
    hide Split, Breaks, OffsetOf, IsSpace, OnLine;
    var start := OffsetOf(Split(text), k);
    LineInText(text, k);
    BreakIsSpace();
    if OnLine(text, o, k) { OnLineIsPlace(text, k, o); }
    if o >= start && IsPlace(Split(text)[k], o - start) { PlaceIsOnLine(text, k, o - start); }
  }

  lemma BreakIsSpace()
    ensures IsSpace('\n')
  {
  }

  lemma TouchStandsOn(text: string, comments: seq<Span>, k: nat, c: Span)
    requires k < |Split(text)| && c in comments && Touches(c, OffsetOf(Split(text), k), Split(text)[k])
    ensures CommentOn(text, comments, k)
  {
    hide Split, OnLine, OffsetOf;
    var start := OffsetOf(Split(text), k);
    var i: nat :| IsPlace(Split(text)[k], i) && c.start <= start + i < c.end;
    PlacesOfLine(text, k, start + i);
    assert OnLine(text, start + i, k) && Covers(comments, start + i);
  }

  lemma TouchingComment(text: string, comments: seq<Span>, k: nat) returns (c: Span)
    requires k < |Split(text)| && CommentOn(text, comments, k)
    ensures c in comments && Touches(c, OffsetOf(Split(text), k), Split(text)[k])
  {
    hide Split, OnLine, OffsetOf;
    var o: nat :| OnLine(text, o, k) && Covers(comments, o);
    PlacesOfLine(text, k, o);
    c :| c in comments && c.start <= o < c.end;
    var start := OffsetOf(Split(text), k);
    assert IsPlace(Split(text)[k], o - start) && c.start <= start + (o - start) < c.end;
  }

  /** The comments that touch a line are those that stand on it. */
  lemma TouchIsComment(text: string, comments: seq<Span>, k: nat)
    requires k < |Split(text)|
    ensures CommentOn(text, comments, k) <==> exists c <- comments :: Touches(c, OffsetOf(Split(text), k), Split(text)[k])
  {
    hide Split, CommentOn, OffsetOf, Touches;
    if CommentOn(text, comments, k) { var c := TouchingComment(text, comments, k); }
    if c :| c in comments && Touches(c, OffsetOf(Split(text), k), Split(text)[k]) { TouchStandsOn(text, comments, k, c); }
  }

  lemma CharacterIsVisible(text: string, comments: seq<Span>, k: nat, i: nat)
    requires k < |Split(text)| && i < |Split(text)[k]|
    requires !IsSpace(Split(text)[k][i]) && !Covers(comments, OffsetOf(Split(text), k) + i)
    ensures VisibleOn(text, comments, k)
  {
    hide Split, OnLine, OffsetOf, IsSpace, Covers;
    var o := OffsetOf(Split(text), k) + i;
    PlacesOfLine(text, k, o);
    assert OnLine(text, o, k);
  }

  lemma VisibleCharacter(text: string, comments: seq<Span>, k: nat) returns (i: nat)
    requires k < |Split(text)| && VisibleOn(text, comments, k)
    ensures i < |Split(text)[k]| && !IsSpace(Split(text)[k][i]) && !Covers(comments, OffsetOf(Split(text), k) + i)
  {
    hide Split, OnLine, OffsetOf, IsSpace, Covers;
    var o: nat :| OnLine(text, o, k) && o < |text| && !IsSpace(text[o]) && !Covers(comments, o);
    PlacesOfLine(text, k, o);
    i := o - OffsetOf(Split(text), k);
  }

  lemma VisibleByOffset(text: string, comments: seq<Span>, k: nat)
    requires k < |Split(text)|
    ensures var line := Split(text)[k];
      VisibleOn(text, comments, k) <==> exists i :: 0 <= i < |line| && !IsSpace(line[i]) && !Covers(comments, OffsetOf(Split(text), k) + i)
  {
    hide Split, OffsetOf, IsSpace, Covers, VisibleOn;
    var line, start := Split(text)[k], OffsetOf(Split(text), k);
    if VisibleOn(text, comments, k) { var i := VisibleCharacter(text, comments, k); }
    if i: nat :| i < |line| && !IsSpace(line[i]) && !Covers(comments, start + i) { CharacterIsVisible(text, comments, k, i); }
  }

  lemma KeptByOffset(text: string, comments: seq<Span>, fenced: set<nat>, k: nat)
    requires k < |Split(text)|
    ensures Kept(Split(text), comments, fenced, k) <==>
            k + 1 !in fenced && (CommentOn(text, comments, k) ==> VisibleOn(text, comments, k))
  {
    hide Split, CommentOn, VisibleOn, Touches, IsSpace, Covers, OffsetOf;
    TouchIsComment(text, comments, k);
    VisibleByOffset(text, comments, k);
  }

  /** `markdownProseLines`, with the parser's findings given: a line outside code is dropped exactly when a comment stands on
      it and no visible character of it is outside the comments. */
  method MarkdownProse(text: string, comments: seq<Span>, fenced: set<nat>) returns (kept: seq<ProseLine>)
    requires forall c <- comments :: c.start <= c.end
    ensures forall j, k :: 0 <= j < k < |kept| ==> kept[j].index < kept[k].index
    ensures forall p <- kept :: 1 <= p.index <= |Split(text)| && p.raw == Split(text)[p.index - 1]
    ensures forall k: nat :: k < |Split(text)| ==>
      (Shows(kept, k) <==> k + 1 !in fenced && (CommentOn(text, comments, k) ==> VisibleOn(text, comments, k)))
  {
    hide Kept, CommentOn, VisibleOn, Split;
    kept := ProseLines(Split(text), comments, fenced);
    forall k: nat | k < |Split(text)|
      ensures Shows(kept, k) <==> k + 1 !in fenced && (CommentOn(text, comments, k) ==> VisibleOn(text, comments, k)) {
      KeptByOffset(text, comments, fenced, k);
    }
  }
}
