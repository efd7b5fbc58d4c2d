/** `rewriteLine` of `scripts/rescope-vendor.ts`, tokens and YAML scalars, over the whole table of names:
    exactly when rewriting twice is rewriting once, and exactly when the reverse table undoes it. */
module RescopeLine {
  import opened Options
  import opened Characters
  import opened Rescope

  // ------------------------------------------------------------ the YAML name scalar

  function SkipSpace(s: string, i: nat): (r: nat)
    requires i <= |s|
    ensures i <= r <= |s| && (forall k :: i <= k < r ==> IsSpace(s[k])) && (r < |s| ==> !IsSpace(s[r]))
    decreases |s| - i
  {
    if i < |s| && IsSpace(s[i]) then SkipSpace(s, i + 1) else i
  }

  function SkipBlank(s: string, i: nat): (r: nat)
    requires i <= |s|
    ensures i <= r <= |s| && (forall k :: i <= k < r ==> s[k] in " \t") && (r < |s| ==> s[r] !in " \t")
    decreases |s| - i
  {
    if i < |s| && s[i] in " \t" then SkipBlank(s, i + 1) else i
  }

  /** Past the indentation and an optional list dash. */
  function KeyStart(s: string): (r: nat)
    ensures r <= |s|
  {
    var a := SkipSpace(s, 0);
    if a < |s| && s[a] == '-' then SkipSpace(s, a + 1) else a
  }

  /** Where the scalar of a leading `name:` or `- name:` begins. */
  function YamlValue(s: string): (r: Option<nat>)
    ensures r.Some? ==> 5 < r.value <= |s|
  {
    var b := KeyStart(s);
    if !At(s, b, "name:") then None
    else
      var c := SkipBlank(s, b + 5);
      if c == b + 5 then None else Some(c)
  }

  /** Where the multi-line `$` matches inside a line: before the carriage return of a CRLF file, for one. */
  predicate IsTerminator(c: char) {
    c == '\r' || c == '\U{2028}' || c == '\U{2029}'
  }

  /** Only a comment or an end of line is left at `d`. `more` says that the line goes on past `s`, at a quote. */
  predicate EndsAt(s: string, more: bool, d: nat)
    requires d <= |s|
  {
    if d == |s| then !more else s[d] == '#' || IsTerminator(s[d])
  }

  /** The scalar beginning at `c` is exactly `from`. */
  predicate ScalarIs(s: string, more: bool, c: nat, from: string) {
    At(s, c, from) && EndsAt(s, more, SkipBlank(s, c + |from|))
  }

  function YamlSite(s: string, more: bool, from: string): (r: Option<nat>)
    ensures r.Some? ==> r.value + |from| <= |s|
  {
    var c := YamlValue(s);
    if c.Some? && ScalarIs(s, more, c.value, from) then c else None
  }

  function ReplaceScalar(s: string, more: bool, p: Pattern): string {
    var c := YamlSite(s, more, p.from);
    if c.Some? then s[..c.value] + p.to + s[c.value + |p.from|..] else s
  }

  // ------------------------------------------------------- what the YAML expression matches

  /** Indentation up to `a`, then at most a dash and blanks up to the key at `b`. */
  ghost predicate KeyAt(s: string, a: nat, b: nat) {
    && a <= b && At(s, b, "name:") && (forall k :: 0 <= k < a ==> IsSpace(s[k]))
    && (b == a || (s[a] == '-' && forall k :: a < k < b ==> IsSpace(s[k])))
  }

  /** Spaces and tabs only, from `i` to `j`. */
  ghost predicate BlanksTo(s: string, i: nat, j: nat) {
    i <= j <= |s| && forall k :: i <= k < j ==> s[k] in " \t"
  }

  /** Behind spaces and tabs there is a comment or an end of line. */
  ghost predicate OnlyComment(s: string, i: nat) {
    exists j: nat :: BlanksTo(s, i, j) && (j == |s| || s[j] == '#' || IsTerminator(s[j]))
  }

  /** A `name:` key, at least one blank, the name at `c`, and nothing more than a comment. */
  ghost predicate ScalarAt(s: string, name: string, c: nat) {
    && (exists a: nat, b: nat :: KeyAt(s, a, b) && b + 5 < c && BlanksTo(s, b + 5, c))
    && At(s, c, name) && OnlyComment(s, c + |name|)
  }

  lemma NameLetters(s: string, b: nat)
    requires At(s, b, "name:")
    ensures b + 5 <= |s| && s[b] == 'n' && !IsSpace(s[b])
  {
    assert s[b] == s[b..b + 5][0];
  }

  lemma KeyIsFound(s: string, a: nat, b: nat)
    requires KeyAt(s, a, b)
    ensures KeyStart(s) == b
  {
    hide IsSpace;
    NameLetters(s, b);
    DashIsNoSpace();
  }

  lemma DashIsNoSpace()
    ensures !IsSpace('-') && forall c :: c in " \t" ==> IsSpace(c)
  {
  }

  lemma KeyFound(s: string)
    ensures At(s, KeyStart(s), "name:") ==> exists a: nat :: KeyAt(s, a, KeyStart(s))
  {
    hide IsSpace;
    if At(s, KeyStart(s), "name:") { assert KeyAt(s, SkipSpace(s, 0), KeyStart(s)); }
  }

  lemma CommentFound(s: string, d: nat)
    requires d <= |s|
    ensures OnlyComment(s, d) <==> EndsAt(s, false, SkipBlank(s, d))
  {
    var e := SkipBlank(s, d);
    assert BlanksTo(s, d, e);
    if j: nat :| BlanksTo(s, d, j) && (j == |s| || s[j] == '#' || IsTerminator(s[j])) { assert j == e; }
  }

  /** The search finds the scalar of that name where there is one, and only there. */
  lemma SiteIsScalar(s: string, name: string, c: nat)
    requires NameOk(name)
    ensures YamlSite(s, false, name) == Some(c) <==> ScalarAt(s, name, c)
  {
    hide IsSpace, KeyAt, KeyStart, OnlyComment, EndsAt, At, Unquoted;
    var b := KeyStart(s);
    AtBounds(s, c, name);
    AtBounds(s, b, "name:");
    KeyFound(s);
    if At(s, c, name) {
      CommentFound(s, c + |name|);
      NameIsNoBlank(s, c, name);
    }
    if a: nat, k: nat :| KeyAt(s, a, k) && k + 5 < c && BlanksTo(s, k + 5, c) {
      KeyIsFound(s, a, k);
      KeyIsThere(s, a, k);
    }
  }

  lemma KeyIsThere(s: string, a: nat, b: nat)
    requires KeyAt(s, a, b)
    ensures At(s, b, "name:")
  {
  }

  lemma NameIsNoBlank(s: string, c: nat, name: string)
    requires NameOk(name) && At(s, c, name)
    ensures c < |s| && s[c] !in " \t"
  {
    DashIsNoSpace();
    assert s[c] == s[c..c + |name|][0] == name[0] && name[0] in name;
  }

  /** The name of such a scalar is replaced, and nothing else. */
  lemma ScalarIsReplaced(s: string, p: Pattern)
    requires NameOk(p.from)
    ensures forall c: nat :: ScalarAt(s, p.from, c) ==> ReplaceScalar(s, false, p) == s[..c] + p.to + s[c + |p.from|..]
    ensures (forall c :: !ScalarAt(s, p.from, c)) ==> ReplaceScalar(s, false, p) == s
  {
    hide ScalarAt, YamlSite;
    forall c: nat ensures YamlSite(s, false, p.from) == Some(c) <==> ScalarAt(s, p.from, c) { SiteIsScalar(s, p.from, c); }
    forall c: nat | ScalarAt(s, p.from, c) ensures ReplaceScalar(s, false, p) == s[..c] + p.to + s[c + |p.from|..] {
      SiteIsScalar(s, p.from, c);
    }
  }

  /** `rewriteLine`, over the patterns that are not skipped for the file. */
  function RewriteLine(s: string, all: seq<Pattern>): string
    decreases all
  {
    if all == [] then s
    else RewriteLine(ReplaceScalar(ReplaceTokens(s, all[0]), false, all[0]), all[1..])
  }

  /** `rewriteLine` as it runs: `out` is reassigned for each pattern. */
  method ApplyPatterns(line: string, all: seq<Pattern>) returns (out: string)
    ensures out == RewriteLine(line, all)
  {
    hide ReplaceTokens, ReplaceScalar;
    out := line;
    for i := 0 to |all|
      invariant RewriteLine(out, all[i..]) == RewriteLine(line, all)
    {
      assert all[i..][0] == all[i] && all[i..][1..] == all[i + 1..];
      out := ReplaceTokens(out, all[i]);
      out := ReplaceScalar(out, false, all[i]);
    }
  }

  // ------------------------------------------------------------- on the pieces of a line

  function PassAll(all: seq<Pattern>, pieces: seq<Piece>): (r: seq<Piece>)
    ensures |r| == |pieces|
    decreases all
  {
    if all == [] then pieces else PassAll(all[1..], Pass(all[0], pieces))
  }

  function HeadAll(all: seq<Pattern>, head: string, more: bool): string
    decreases all
  {
    if all == [] then head else HeadAll(all[1..], ReplaceScalar(head, more, all[0]), more)
  }

  lemma {:induction false} SkipSpaceInHead(head: string, rest: string, i: nat)
    requires AtQuote(rest) && i <= |head|
    ensures SkipSpace(head + rest, i) == SkipSpace(head, i)
    decreases |head| - i
  {
    if i < |head| && IsSpace(head[i]) { SkipSpaceInHead(head, rest, i + 1); }
    assert rest != "" ==> (head + rest)[|head|] == rest[0];
  }

  lemma {:induction false} SkipBlankInHead(head: string, rest: string, i: nat)
    requires AtQuote(rest) && i <= |head|
    ensures SkipBlank(head + rest, i) == SkipBlank(head, i)
    decreases |head| - i
  {
    if i < |head| && head[i] in " \t" { SkipBlankInHead(head, rest, i + 1); }
    assert rest != "" ==> (head + rest)[|head|] == rest[0];
  }

  lemma AtInHead(head: string, rest: string, i: nat, word: string)
    requires AtQuote(rest) && Unquoted(word) && i <= |head|
    ensures At(head + rest, i, word) <==> At(head, i, word)
  {
    var s := head + rest;
    assert rest != "" ==> s[|head|] == rest[0];
    assert i + |word| <= |head| ==> head[i..i + |word|] == s[i..i + |word|];
    if At(s, i, word) {
      assert forall k :: 0 <= k < |word| ==> s[i + k] == word[k] && word[k] in word;
    }
  }

  lemma KeyInHead(head: string, rest: string)
    requires AtQuote(rest)
    ensures KeyStart(head + rest) == KeyStart(head)
  {
    hide IsSpace;
    var a := SkipSpace(head, 0);
    SkipSpaceInHead(head, rest, 0);
    assert rest != "" ==> (head + rest)[|head|] == rest[0];
    if a < |head| && head[a] == '-' { SkipSpaceInHead(head, rest, a + 1); }
  }

  lemma AtBounds(s: string, i: nat, word: string)
    ensures At(s, i, word) ==> i + |word| <= |s|
  {
  }

  lemma ValueInHead(head: string, rest: string)
    requires AtQuote(rest)
    ensures YamlValue(head + rest) == YamlValue(head)
  {
    hide IsSpace, At, KeyStart;
    var b := KeyStart(head);
    KeyInHead(head, rest);
    AtInHead(head, rest, b, "name:");
    if At(head, b, "name:") {
      AtBounds(head, b, "name:");
      SkipBlankInHead(head, rest, b + 5);
    }
  }

  lemma ScalarInHead(head: string, rest: string, c: nat, from: string)
    requires AtQuote(rest) && Unquoted(from) && c <= |head|
    ensures ScalarIs(head + rest, false, c, from) == ScalarIs(head, rest != "", c, from)
  {
    hide IsSpace, At;
    var s := head + rest;
    AtInHead(head, rest, c, from);
    if At(head, c, from) {
      AtBounds(head, c, from);
      SkipBlankInHead(head, rest, c + |from|);
      assert rest != "" ==> s[|head|] == rest[0];
    }
  }

  /** The YAML expression looks no further than the first quote. */
  lemma SiteInHead(head: string, rest: string, from: string)
    requires AtQuote(rest) && NameOk(from)
    ensures YamlSite(head + rest, false, from) == YamlSite(head, rest != "", from)
  {
    hide IsSpace, YamlValue, ScalarIs;
    ValueInHead(head, rest);
    var c := YamlValue(head);
    if c.Some? { ScalarInHead(head, rest, c.value, from); }
  }

  lemma ToLineOfParts(head: string, rest: string)
    requires Unquoted(head) && AtQuote(rest)
    ensures ToLine(head + rest) == Line(head, ToLine(rest).pieces)
  {
    UnquotedPrefix(head, rest);
    assert ToLine(rest).head == "";
    assert head + "" == head;
  }

  lemma SplicedHead(head: string, rest: string, c: nat, p: Pattern)
    requires c + |p.from| <= |head|
    ensures var s, d := head + rest, c + |p.from|;
            s[..c] + p.to + s[d..] == head[..c] + p.to + head[d..] + rest
    ensures Unquoted(head) && Unquoted(p.to) ==> Unquoted(head[..c] + p.to + head[c + |p.from|..])
  {
    var s, d := head + rest, c + |p.from|;
    assert s[..c] == head[..c] && s[d..] == head[d..] + rest;
    assert forall x <- head[..c] + p.to + head[d..] :: x in head || x in p.to;
  }

  lemma ScalarOnParts(head: string, rest: string, p: Pattern)
    requires Unquoted(head) && AtQuote(rest) && PatternOk(p)
    ensures var renamed := ReplaceScalar(head, rest != "", p);
            ReplaceScalar(head + rest, false, p) == renamed + rest && Unquoted(renamed)
  {
    hide IsSpace, YamlSite, Unquoted, AtQuote;
    SiteInHead(head, rest, p.from);
    var c := YamlSite(head, rest != "", p.from);
    if c.Some? { SplicedHead(head, rest, c.value, p); }
  }

  /** The scalar replacement acts on the text before the first quote alone. */
  lemma ScalarOnLine(s: string, p: Pattern)
    requires PatternOk(p)
    ensures var l := ToLine(s);
            ToLine(ReplaceScalar(s, false, p)) == Line(ReplaceScalar(l.head, l.pieces != [], p), l.pieces)
  {
    hide ToLine, ReplaceScalar, Unquoted, AtQuote, NameOk;
    var head := ToLine(s).head;
    var rest := RestOfLine(s);
    ScalarOnParts(head, rest, p);
    ToLineOfParts(head, rest);
    ToLineOfParts(ReplaceScalar(head, rest != "", p), rest);
  }

  lemma RestOfLine(s: string) returns (rest: string)
    ensures s == ToLine(s).head + rest && Unquoted(ToLine(s).head) && AtQuote(rest)
    ensures rest != "" <==> ToLine(s).pieces != []
  {
    var pieces := ToLine(s).pieces;
    LineOfText(s);
    rest := PiecesText(pieces);
    if pieces != [] { assert pieces[0] in pieces; }
  }

  /** Rewriting a line is rewriting the text before its first quote and passing over its pieces. */
  lemma {:induction false} RewriteOnLine(s: string, all: seq<Pattern>)
    requires forall p <- all :: PatternOk(p)
    ensures var l := ToLine(s);
            ToLine(RewriteLine(s, all)) == Line(HeadAll(all, l.head, l.pieces != []), PassAll(all, l.pieces))
    decreases all
  {
    hide IsSpace, ReplaceScalar, ReplaceTokens, ToLine;
    if all != [] {
      ReplaceIsPass(s, all[0]);
      ScalarOnLine(ReplaceTokens(s, all[0]), all[0]);
      RewriteOnLine(ReplaceScalar(ReplaceTokens(s, all[0]), false, all[0]), all[1..]);
    }
  }

  lemma LineIsText(s: string, t: string)
    ensures ToLine(s) == ToLine(t) <==> s == t
  {
    LineOfText(s);
    LineOfText(t);
  }
}
