/** `rewrite` of `scripts/rescope-vendor.ts`: a file line by line, Markdown fence by fence. */
module RescopeFile {
  import opened Characters
  import opened TextLines
  import opened Rescope
  import opened RescopeLine
  import opened RescopeTable
  import opened RescopeLaws

  // -------------------------------------------------------------------------- fences

  predicate IsFence(line: string) {
    At(line, SkipSpace(line, 0), "```")
  }

  /** `insideFence` before line `i`. */
  function Inside(lines: seq<string>, i: nat): bool
    requires i <= |lines|
  {
    i > 0 && Inside(lines, i - 1) != IsFence(lines[i - 1])
  }

  /** What kind of file it is: Markdown or not, and if so whether its prose follows the rename. */
  datatype Kind = Code | Markdown(docs: bool)

  predicate Follows(kind: Kind, lines: seq<string>, i: nat)
    requires i < |lines|
  {
    kind.Code? || (!IsFence(lines[i]) && (kind.docs || Inside(lines, i)))
  }

  /** The fences before line `i`: inside one is where their number is odd. */
  ghost function FencesBefore(lines: seq<string>, i: nat): set<nat>
    requires i <= |lines|
  {
    set k: nat | k < i && IsFence(lines[k])
  }

  lemma OneMoreFence(lines: seq<string>, i: nat)
    requires i < |lines|
    ensures |FencesBefore(lines, i + 1)| == |FencesBefore(lines, i)| + if IsFence(lines[i]) then 1 else 0
  {
    hide IsFence;
    assert FencesBefore(lines, i + 1) == FencesBefore(lines, i) + if IsFence(lines[i]) then {i} else {};
  }

  lemma {:induction false} InsideIsOdd(lines: seq<string>, i: nat)
    requires i <= |lines|
    ensures Inside(lines, i) <==> |FencesBefore(lines, i)| % 2 == 1
  {
    if i > 0 {
      InsideIsOdd(lines, i - 1);
      OneMoreFence(lines, i - 1);
      hide FencesBefore, IsFence;
    }
  }

  /** Code is rewritten everywhere; Markdown in `docs/` everywhere but on fence lines; other Markdown inside fences only. */
  ghost predicate RewritesLines(kind: Kind, all: seq<Pattern>, a: seq<string>, b: seq<string>) {
    && |b| == |a|
    && (kind == Code ==> forall i :: 0 <= i < |a| ==> b[i] == RewriteLine(a[i], all))
    && (kind == Markdown(true) ==> forall i :: 0 <= i < |a| ==> b[i] == if IsFence(a[i]) then a[i] else RewriteLine(a[i], all))
    && (kind == Markdown(false) ==> forall i :: 0 <= i < |a| ==>
          b[i] == if IsFence(a[i]) || |FencesBefore(a, i)| % 2 == 0 then a[i] else RewriteLine(a[i], all))
  }

  lemma WhichLines(kind: Kind, all: seq<Pattern>, lines: seq<string>)
    ensures RewritesLines(kind, all, lines, Rewritten(kind, all, lines))
  {
    hide IsFence, RewriteLine, Inside, FencesBefore;
    forall i | 0 <= i < |lines| ensures Inside(lines, i) <==> |FencesBefore(lines, i)| % 2 == 1 { InsideIsOdd(lines, i); }
  }

  function Rewritten(kind: Kind, all: seq<Pattern>, lines: seq<string>): (r: seq<string>)
    ensures |r| == |lines|
  {
    seq(|lines|, i requires 0 <= i < |lines| => if Follows(kind, lines, i) then RewriteLine(lines[i], all) else lines[i])
  }

  ghost function Differing(a: seq<string>, b: seq<string>): set<nat>
    requires |a| == |b|
  {
    set i: nat | i < |a| && a[i] != b[i]
  }

  /** How many lines differ. */
  ghost function Changed(a: seq<string>, b: seq<string>): nat
    requires |a| == |b|
  {
    |Differing(a, b)|
  }

  function RewriteText(text: string, kind: Kind, all: seq<Pattern>): string {
    Join(Rewritten(kind, all, Split(text)))
  }

  /** One more line. */
  lemma NextLine(a: seq<string>, b: seq<string>, i: nat)
    requires |a| == |b| && i < |a|
    ensures b[..i + 1] == b[..i] + [b[i]]
    ensures Changed(a[..i + 1], b[..i + 1]) == Changed(a[..i], b[..i]) + if a[i] != b[i] then 1 else 0
  {
    assert Differing(a[..i + 1], b[..i + 1]) == Differing(a[..i], b[..i]) + if a[i] != b[i] then {i} else {};
  }

  /** `rewrite`, with the patterns that the file does not skip. */
  method Rewrite(text: string, kind: Kind, all: seq<Pattern>) returns (out: string, changed: nat)
    ensures out == RewriteText(text, kind, all)
    ensures RewritesLines(kind, all, Split(text), Rewritten(kind, all, Split(text)))
    ensures changed == Changed(Split(text), Rewritten(kind, all, Split(text)))
  {
    hide RewriteLine, IsFence, Split, Join, Changed, RewritesLines;
    WhichLines(kind, all, Split(text));
    var lines := Split(text);
    ghost var after := Rewritten(kind, all, lines);
    var insideFence := false;
    var written: seq<string> := [];
    changed := 0;
    assert Changed(lines[..0], after[..0]) == 0 by { NoneChanged(); }
    for i := 0 to |lines|
      invariant insideFence == (kind.Markdown? && Inside(lines, i))
      invariant written == after[..i]
      invariant changed == Changed(lines[..i], after[..i])
    {
      var line := lines[i];
      NextLine(lines, after, i);
      if kind.Markdown? && IsFence(line) {
        insideFence := !insideFence;
        written := written + [line];
      } else if kind.Markdown? && !insideFence && !kind.docs {
        written := written + [line];
      } else {
        var next := ApplyPatterns(line, all);
        if next != line { changed := changed + 1; }
        written := written + [next];
      }
    }
    assert lines[..|lines|] == lines && after[..|lines|] == after;
    out := Join(written);
  }

  lemma NoneChanged()
    ensures Changed([], []) == 0
  {
  }

  // ---------------------------------------------------- fences survive the rewrite

  /** Three backticks in a row, behind blanks only. */
  predicate FenceLine(l: Line) {
    Blank(l.head) && |l.pieces| >= 3 && l.pieces[0].text == "" && l.pieces[1].text == ""
    && l.pieces[0].quote == '`' && l.pieces[1].quote == '`' && l.pieces[2].quote == '`'
  }

  lemma HeadEmpty(t: string)
    ensures ToLine(t).head == "" <==> AtQuote(t)
    ensures t != "" && IsQuote(t[0]) ==> ToLine(t).pieces == [Piece(t[0], ToLine(t[1..]).head)] + ToLine(t[1..]).pieces
    ensures t == "" || !IsQuote(t[0]) || ToLine(t).pieces != []
    ensures t == "" ==> ToLine(t).pieces == []
  {
  }

  lemma Backticks(t: string)
    requires AtQuote(t)
    ensures At(t, 0, "```") <==> FenceLine(Line("", ToLine(t).pieces))
  {
    hide ToLine, IsSpace;
    HeadEmpty(t);
    if t != "" {
      var u := t[1..];
      HeadEmpty(u);
      if u != "" && AtQuote(u) {
        var v := u[1..];
        HeadEmpty(v);
        if v != "" && AtQuote(v) { HeadEmpty(v[1..]); }
      }
    }
  }

  lemma AtBehind(head: string, rest: string, word: string)
    ensures At(head + rest, |head|, word) <==> At(rest, 0, word)
  {
    assert |rest| >= |word| ==> (head + rest)[|head|..|head| + |word|] == rest[0..|word|];
  }

  lemma FenceOfLine(s: string)
    ensures IsFence(s) <==> FenceLine(ToLine(s))
  {
    hide ToLine, IsSpace, At;
    var l := ToLine(s);
    var rest := RestOfLine(s);
    var a := SkipSpace(l.head, 0);
    ToLineOfParts(l.head, rest);
    SkipSpaceInHead(l.head, rest, 0);
    if a == |l.head| {
      Backticks(rest);
      AtBehind(l.head, rest, "```");
      assert forall c <- l.head :: IsSpace(c);
    } else {
      assert l.head[a] in l.head && !IsSpace(l.head[a]);
      BacktickAt(s, a);
    }
  }

  lemma BacktickAt(s: string, a: nat)
    ensures At(s, a, "```") ==> s[a] == '`'
  {
    if At(s, a, "```") { assert s[a..a + 3][0] == s[a]; }
  }

  lemma HeadStaysBlank(all: seq<Pattern>, head: string, more: bool)
    requires TableOk(all)
    ensures Blank(HeadAll(all, head, more)) <==> Blank(head)
  {
    hide IsSpace, YamlValue, TableOk, SkipBlank;
    WholeTableHead(all, head, more);
    if p :| p in all && YamlSite(head, more, p.from).Some? {
      var after := ReplaceScalar(head, more, p);
      InTable(all, p);
      AfterScalar(p, head, more);
      var c := YamlSite(head, more, p.from).value;
      NameThere(head, c, p.from);
      NameThere(after, c, p.to);
    }
  }

  lemma TextStaysEmpty(all: seq<Pattern>, pieces: seq<Piece>, k: nat)
    requires TableOk(all) && k < |pieces|
    ensures PassAll(all, pieces)[k].text == "" <==> pieces[k].text == ""
  {
    hide Chosen, PassAll, Apart, Separate;
    WholeTable(all, pieces, k);
    if p :| p in all && Chosen(p, pieces)[k] { assert PatternOk(p); }
  }

  /** The rewrite of a line neither makes nor destroys a fence. */
  lemma FenceKept(s: string, all: seq<Pattern>)
    requires TableOk(all)
    ensures IsFence(RewriteLine(s, all)) <==> IsFence(s)
  {
    hide IsFence, RewriteLine, ToLine, HeadAll, PassAll, Blank, PatternOk;
    var l := ToLine(s);
    FenceOfLine(s);
    FenceOfLine(RewriteLine(s, all));
    RewriteOnLine(s, all);
    HeadStaysBlank(all, l.head, l.pieces != []);
    forall k: nat | k < |l.pieces| ensures var m := PassAll(all, l.pieces)[k];
                                           m.quote == l.pieces[k].quote && (m.text == "" <==> l.pieces[k].text == "") {
      TextStaysEmpty(all, l.pieces, k);
      QuoteKept(all, l.pieces, k);
    }
  }

  lemma {:induction false} TokenCharacters(s: string, p: Pattern)
    ensures forall c <- ReplaceTokens(s, p) :: c in s || c in p.to
    decreases |s|
  {
    if s != "" {
      var end := TokenEnd(s, p.from);
      TokenCharacters(s[if end.Some? then end.value else 1..], p);
    }
  }

  /** Rewriting brings in characters of the new names only, so never a line break. */
  lemma {:induction false} StaysOneLine(s: string, all: seq<Pattern>)
    requires (forall p <- all :: PatternOk(p)) && '\n' !in s
    ensures '\n' !in RewriteLine(s, all)
    decreases all
  {
    if all != [] {
      hide TokenEnd, YamlSite, ReplaceTokens;
      var p, t := all[0], ReplaceTokens(s, all[0]);
      TokenCharacters(s, p);
      assert IsSpace('\n') && p in all && NameOk(p.to);
      StaysOneLine(ReplaceScalar(t, false, p), all[1..]);
    }
  }

  // ---------------------------------------------------------------------- whole files

  lemma {:induction false} InsideKept(a: seq<string>, b: seq<string>, i: nat)
    requires |a| == |b| && i <= |a| && forall k: nat :: k < |a| ==> (IsFence(a[k]) <==> IsFence(b[k]))
    ensures Inside(a, i) == Inside(b, i)
  {
    hide IsFence;
    if i > 0 { InsideKept(a, b, i - 1); }
  }

  /** The rewritten file has the same lines: as many, fences where they were, the lines its kind calls for
      rewritten, and every other line as it was. In Markdown outside `docs/` those others are the fence lines and all prose. */
  lemma LinesKept(text: string, kind: Kind, all: seq<Pattern>)
    requires TableOk(all)
    ensures var a, b := Split(text), Split(Join(Rewritten(kind, all, Split(text))));
            RewritesLines(kind, all, a, b) && forall i: nat :: i < |a| ==>
              && (IsFence(a[i]) <==> IsFence(b[i])) && Inside(a, i) == Inside(b, i)
              && b[i] == if Follows(kind, a, i) then RewriteLine(a[i], all) else a[i]
  {
    hide IsFence, RewriteLine, Split, Join, PatternOk, Inside, RewritesLines;
    var a := Split(text);
    var b := Rewritten(kind, all, a);
    WhichLines(kind, all, a);
    SplitIsPlain(text);
    forall l <- b ensures '\n' !in l {
      var i :| 0 <= i < |b| && b[i] == l;
      assert a[i] in a;
      StaysOneLine(a[i], all);
    }
    SplitOfJoin(b);
    forall k: nat | k < |a| ensures IsFence(a[k]) <==> IsFence(b[k]) { FenceKept(a[k], all); }
    forall i: nat | i < |a| ensures Inside(a, i) == Inside(b, i) { InsideKept(a, b, i); }
  }

  /** A second `--apply` is a no-op on a file exactly when no line that follows the rename shares a quote. */
  lemma FileTwice(text: string, kind: Kind, all: seq<Pattern>)
    requires TableOk(all)
    ensures var once, lines := RewriteText(text, kind, all), Split(text);
            RewriteText(once, kind, all) == once
            <==> forall i: nat :: i < |lines| && Follows(kind, lines, i) ==> !SharesQuote(all, ToLine(lines[i]).pieces)
  {
    hide IsFence, RewriteLine, Split, Join, SharesQuote, ToLine, Inside, TableOk, FencesBefore;
    var once, lines := RewriteText(text, kind, all), Split(text);
    var a := Split(once);
    var b := Rewritten(kind, all, a);
    LinesKept(text, kind, all);
    LinesKept(once, kind, all);
    SplitIsPlain(once);
    assert RewriteText(once, kind, all) == once <==> a == b by { SplitIsPlain(RewriteText(once, kind, all)); }
    forall i: nat | i < |lines| ensures b[i] == a[i] <==> !(Follows(kind, lines, i) && SharesQuote(all, ToLine(lines[i]).pieces)) {
      RewriteTwice(lines[i], all);
    }
  }

  /** `--reverse` restores a file exactly when it restores every line that follows the rename. */
  lemma FileUndone(text: string, kind: Kind, all: seq<Pattern>, back: seq<Pattern>)
    requires Reverses(all, back)
    ensures var lines := Split(text);
            RewriteText(RewriteText(text, kind, all), kind, back) == text
            <==> forall i: nat :: i < |lines| && Follows(kind, lines, i) ==>
                   var l := ToLine(lines[i]);
                   NoScalar(back, l.head, l.pieces != []) && OldNamesOnly(all, l.pieces)
  {
    hide IsFence, RewriteLine, Split, Join, NoScalar, OldNamesOnly, ToLine, Inside, TableOk, FencesBefore;
    var once, lines := RewriteText(text, kind, all), Split(text);
    var a := Split(once);
    var b := Rewritten(kind, back, a);
    LinesKept(text, kind, all);
    LinesKept(once, kind, back);
    SplitIsPlain(text);
    assert RewriteText(once, kind, back) == text <==> b == lines by { SplitIsPlain(RewriteText(once, kind, back)); }
    forall i: nat | i < |lines|
      ensures var l := ToLine(lines[i]);
              b[i] == lines[i] <==> (Follows(kind, lines, i) ==> NoScalar(back, l.head, l.pieces != []) && OldNamesOnly(all, l.pieces)) {
      UndoneExactly(lines[i], all, back);
    }
  }
}
