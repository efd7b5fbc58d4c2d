/** The delimited-token expression of `scripts/rescope-vendor.ts`, complete package names between matching
    quotes, and what one replacement pass does to the pieces a line's quotes cut it into. */
module Rescope {
  import opened Options
  import opened Characters

  datatype Pattern = Pattern(from: string, to: string)

  predicate IsQuote(c: char) {
    c == '\'' || c == '"' || c == '`'
  }

  predicate Unquoted(s: string) {
    forall c <- s :: !IsQuote(c)
  }

  // -------------------------------------------------------- the regular expression

  /** First quote, whitespace or end at or after `i`: the end of a subpath. */
  function RunEnd(s: string, i: nat): (r: nat)
    requires i <= |s|
    ensures i <= r <= |s| && (r < |s| ==> IsQuote(s[r]) || IsSpace(s[r]))
    ensures forall k :: i <= k < r ==> !IsQuote(s[k]) && !IsSpace(s[k])
    decreases |s| - i
  {
    if i == |s| || IsQuote(s[i]) || IsSpace(s[i]) then i else RunEnd(s, i + 1)
  }

  /** A match of the token expression at the start of `s`: its length. */
  function TokenEnd(s: string, from: string): (r: Option<nat>)
    ensures r.Some? ==> |from| + 2 <= r.value <= |s|
  {
    if s == "" || !IsQuote(s[0]) || !At(s, 1, from) then None
    else
      var j := 1 + |from|;
      if j < |s| && s[j] == s[0] then Some(j + 1)
      else if j < |s| && s[j] == '/' then
        var k := RunEnd(s, j + 1);
        if k < |s| && s[k] == s[0] then Some(k + 1) else None
      else None
  }

  /** `out.replace(pattern.token, ...)`, left to right, continuing after each match. */
  function ReplaceTokens(s: string, p: Pattern): string
    decreases |s|
  {
    if s == "" then ""
    else
      var end := TokenEnd(s, p.from);
      if end.Some? then [s[0]] + p.to + s[1 + |p.from|..end.value] + ReplaceTokens(s[end.value..], p)
      else [s[0]] + ReplaceTokens(s[1..], p)
  }

  // ----------------------------------------------------- the line between its quotes

  /** A quote and the text up to the next one. */
  datatype Piece = Piece(quote: char, text: string)

  datatype Line = Line(head: string, pieces: seq<Piece>)

  function ToLine(s: string): Line {
    if s == "" then Line("", [])
    else
      var r := ToLine(s[1..]);
      if IsQuote(s[0]) then Line("", [Piece(s[0], r.head)] + r.pieces) else Line([s[0]] + r.head, r.pieces)
  }

  function PiecesText(pieces: seq<Piece>): string {
    if pieces == [] then "" else [pieces[0].quote] + pieces[0].text + PiecesText(pieces[1..])
  }

  function ToText(l: Line): string {
    l.head + PiecesText(l.pieces)
  }

  lemma {:induction false} LineOfText(s: string)
    ensures ToText(ToLine(s)) == s && Unquoted(ToLine(s).head)
    ensures forall p <- ToLine(s).pieces :: IsQuote(p.quote) && Unquoted(p.text)
  {
    if s != "" {
      LineOfText(s[1..]);
      var r := ToLine(s[1..]);
      assert s == [s[0]] + s[1..];
      if IsQuote(s[0]) { assert ([Piece(s[0], r.head)] + r.pieces)[1..] == r.pieces; }
    }
  }

  lemma {:induction false} UnquotedPrefix(a: string, t: string)
    requires Unquoted(a)
    ensures ToLine(a + t) == Line(a + ToLine(t).head, ToLine(t).pieces)
  {
    if a == "" {
      assert a + t == t && a + ToLine(t).head == ToLine(t).head;
    } else {
      assert (a + t)[1..] == a[1..] + t;
      assert a[0] in a && forall c <- a[1..] :: c in a;
      UnquotedPrefix(a[1..], t);
      assert [a[0]] + (a[1..] + ToLine(t).head) == a + ToLine(t).head;
    }
  }

  /** The text between two quotes is the name itself or the name with a subpath. */
  predicate IsName(from: string, text: string) {
    from <= text && (|text| == |from| || (text[|from|] == '/' && forall c <- text[|from|..] :: !IsSpace(c)))
  }

  /** Piece `k` is a token: closed by the same quote that opens it. */
  predicate Hit(p: Pattern, pieces: seq<Piece>, k: nat) {
    k + 1 < |pieces| && pieces[k].quote == pieces[k + 1].quote && IsName(p.from, pieces[k].text)
  }

  function Renamed(p: Pattern, piece: Piece): Piece
    requires p.from <= piece.text
  {
    Piece(piece.quote, p.to + piece.text[|p.from|..])
  }

  /** One pattern's pass over the pieces: a closing quote that was consumed opens nothing. */
  function Pass(p: Pattern, pieces: seq<Piece>): (r: seq<Piece>)
    ensures |r| == |pieces|
  {
    if pieces == [] then []
    else if Hit(p, pieces, 0) then [Renamed(p, pieces[0]), pieces[1]] + Pass(p, pieces[2..])
    else [pieces[0]] + Pass(p, pieces[1..])
  }

  /** Nothing a package name may contain ends a token or a YAML scalar. */
  predicate NameOk(name: string) {
    name != "" && Unquoted(name) && forall c <- name :: !IsSpace(c) && c != '#'
  }

  predicate PatternOk(p: Pattern) {
    NameOk(p.from) && NameOk(p.to)
  }

  /** Empty, or at a quote. */
  predicate AtQuote(s: string) {
    s == "" || IsQuote(s[0])
  }

  lemma {:induction false} RunEndAt(s: string, i: nat, e: nat)
    requires i <= e <= |s| && forall k :: i <= k < e ==> !IsQuote(s[k]) && !IsSpace(s[k])
    requires e < |s| ==> IsQuote(s[e]) || IsSpace(s[e])
    ensures RunEnd(s, i) == e
    decreases e - i
  {
    if i < e { RunEndAt(s, i + 1, e); }
  }

  /** A quote-free name found after the opening quote lies before the next quote. */
  lemma NameFits(q: char, text: string, rest: string, from: string)
    requires AtQuote(rest) && Unquoted(from)
    ensures At([q] + text + rest, 1, from) <==> from <= text
  {
    var s := [q] + text + rest;
    if At(s, 1, from) {
      assert forall k :: 0 <= k < |from| ==> s[1 + k] == from[k] && from[k] in from;
      assert rest != "" ==> s[1 + |text|] == rest[0];
      assert forall k :: 0 <= k < |from| ==> s[1 + k] == text[k];
    }
  }

  /** The expression matches at a quote exactly when the text up to the next quote is a name and that
      quote is the same. */
  lemma TokenOf(q: char, text: string, rest: string, p: Pattern)
    requires IsQuote(q) && Unquoted(text) && AtQuote(rest) && PatternOk(p)
    ensures var s := [q] + text + rest;
            && (TokenEnd(s, p.from).Some? <==> rest != "" && rest[0] == q && IsName(p.from, text))
            && (TokenEnd(s, p.from).Some? ==> TokenEnd(s, p.from).value == |text| + 2)
  {
    var s, j := [q] + text + rest, 1 + |p.from|;
    NameFits(q, text, rest, p.from);
    if p.from <= text && |text| > |p.from| {
      assert s[j] == text[|p.from|] && text[|p.from|] in text;
      if s[j] == '/' { SubpathOf(q, text, rest, p.from); }
    }
  }

  /** The subpath's run ends at the next quote, or at a whitespace before it. */
  lemma SubpathOf(q: char, text: string, rest: string, from: string)
    requires Unquoted(text) && AtQuote(rest) && from <= text && |text| > |from| && text[|from|] == '/'
    ensures var s := [q] + text + rest;
            var k := RunEnd(s, |from| + 2);
            if forall c <- text[|from|..] :: !IsSpace(c) then k == 1 + |text|
            else k < 1 + |text| && IsSpace(s[k]) && !IsQuote(s[k])
  {
    hide IsQuote, IsSpace;
    var s, n := [q] + text + rest, |from|;
    if forall c <- text[n..] :: !IsSpace(c) {
      forall k | n + 2 <= k < 1 + |text| ensures !IsQuote(s[k]) && !IsSpace(s[k]) { InsideText(q, text, rest, n, k - 1); }
      assert 1 + |text| < |s| ==> s[1 + |text|] == rest[0];
      RunEndAt(s, n + 2, 1 + |text|);
    } else {
      forall m | n <= m < |text| ensures s[1 + m] == text[m] { InsideText(q, text, rest, n, m); }
      SpaceStops(s, text, n, RunEnd(s, n + 2));
    }
  }

  lemma InsideText(q: char, text: string, rest: string, n: nat, m: nat)
    requires n <= m < |text|
    ensures ([q] + text + rest)[1 + m] == text[m] && text[m] in text && text[m] in text[n..]
  {
    assert text[n..][m - n] == text[m];
  }

  lemma SpaceStops(s: string, text: string, n: nat, k: nat)
    requires |s| >= 1 + |text| && n < |text| && text[n] == '/' && Unquoted(text)
    requires forall m :: n <= m < |text| ==> s[1 + m] == text[m]
    requires n + 2 <= k <= |s| && (k < |s| ==> IsQuote(s[k]) || IsSpace(s[k]))
    requires forall i :: n + 2 <= i < k ==> !IsSpace(s[i])
    requires exists c <- text[n..] :: IsSpace(c)
    ensures k < 1 + |text| && IsSpace(s[k]) && !IsQuote(s[k])
  {
    var c :| c in text[n..] && IsSpace(c);
    var m :| 0 <= m < |text[n..]| && text[n..][m] == c;
    assert s[1 + (n + m)] == c && m != 0;
    assert s[1 + (k - 1)] == text[k - 1] && text[k - 1] in text;
  }

  lemma Behind(q: char, text: string, rest: string)
    ensures var s := [q] + text + rest;
            s[0] == q && s[1..] == text + rest
  {
  }

  lemma LineOfParts(q: char, text: string, rest: string)
    requires IsQuote(q) && Unquoted(text) && AtQuote(rest)
    ensures ToLine([q] + text + rest) == Line("", [Piece(q, text)] + ToLine(rest).pieces)
  {
    UnquotedPrefix(text, rest);
    assert ToLine(rest).head == "" && text + "" == text;
    hide Unquoted, AtQuote;
    Behind(q, text, rest);
  }

  /** A text at a quote: the quote, the text up to the next quote, and the rest. */
  lemma Decompose(s: string) returns (text: string, rest: string)
    requires s != "" && IsQuote(s[0])
    ensures s == [s[0]] + text + rest && Unquoted(text) && AtQuote(rest)
  {
    var r := ToLine(s[1..]);
    LineOfText(s[1..]);
    text, rest := r.head, PiecesText(r.pieces);
    assert s == [s[0]] + s[1..];
    if r.pieces != [] { assert r.pieces[0] in r.pieces; }
  }

  /** Replacing in the text and passing over the pieces are the same thing. */
  lemma {:induction false} ReplaceIsPass(s: string, p: Pattern)
    requires PatternOk(p)
    ensures ToLine(ReplaceTokens(s, p)) == Line(ToLine(s).head, Pass(p, ToLine(s).pieces))
    decreases |s|, 1
  {
    if s != "" {
      if IsQuote(s[0]) {
        var text, rest := Decompose(s);
        TokenOf(s[0], text, rest, p);
        LineOfParts(s[0], text, rest);
        if TokenEnd(s, p.from).Some? { MatchStep(s, text, rest, p); } else { SkipStep(s, text, rest, p); }
      } else {
        assert TokenEnd(s, p.from).None?;
        ReplaceIsPass(s[1..], p);
        assert ReplaceTokens(s, p)[1..] == ReplaceTokens(s[1..], p);
      }
    }
  }

  lemma {:induction false} SkipStep(s: string, text: string, rest: string, p: Pattern)
    requires PatternOk(p) && s != "" && IsQuote(s[0]) && TokenEnd(s, p.from).None?
    requires s == [s[0]] + text + rest && Unquoted(text) && AtQuote(rest)
    requires ToLine(s) == Line("", [Piece(s[0], text)] + ToLine(rest).pieces)
    requires rest == "" || rest[0] != s[0] || !IsName(p.from, text)
    ensures ToLine(ReplaceTokens(s, p)) == Line(ToLine(s).head, Pass(p, ToLine(s).pieces))
    decreases |s|, 0
  {
    ReplaceIsPass(s[1..], p);
    assert ReplaceTokens(s, p)[1..] == ReplaceTokens(s[1..], p);
    assert s[1..] == text + rest;
    UnquotedPrefix(text, rest);
    assert ToLine(s).pieces[1..] == ToLine(rest).pieces;
    if rest != "" { FirstQuote(rest); }
    assert !Hit(p, ToLine(s).pieces, 0);
  }

  lemma FirstQuote(rest: string)
    requires rest != "" && IsQuote(rest[0])
    ensures ToLine(rest).pieces == [Piece(rest[0], ToLine(rest[1..]).head)] + ToLine(rest[1..]).pieces
  {
  }

  lemma {:induction false} MatchStep(s: string, text: string, rest: string, p: Pattern)
    requires PatternOk(p) && s != "" && IsQuote(s[0]) && TokenEnd(s, p.from) == Some(|text| + 2)
    requires s == [s[0]] + text + rest && Unquoted(text) && AtQuote(rest)
    requires ToLine(s) == Line("", [Piece(s[0], text)] + ToLine(rest).pieces)
    requires rest != "" && rest[0] == s[0] && IsName(p.from, text)
    ensures ToLine(ReplaceTokens(s, p)) == Line(ToLine(s).head, Pass(p, ToLine(s).pieces))
    decreases |s|, 0
  {
    hide ToLine, ReplaceTokens, Pass, IsName, Hit, NameOk;
    var q, after := s[0], rest[1..];
    var tail := [q] + ReplaceTokens(after, p);
    ReplaceIsPass(after, p);
    FirstQuote(rest);
    ReplacedText(s, text, rest, p);
    RenamedIsUnquoted(p, text);
    LineOfParts(q, p.to + text[|p.from|..], tail);
    FirstQuote(tail);
    assert tail[1..] == ReplaceTokens(after, p);
    PassOfMatch(p, q, text, ToLine(after).head, ToLine(after).pieces);
    assert [Piece(q, text)] + ([Piece(q, ToLine(after).head)] + ToLine(after).pieces)
        == [Piece(q, text), Piece(q, ToLine(after).head)] + ToLine(after).pieces;
  }

  lemma RenamedIsUnquoted(p: Pattern, text: string)
    requires PatternOk(p) && Unquoted(text) && IsName(p.from, text)
    ensures p.from <= text && Unquoted(p.to + text[|p.from|..])
  {
    assert forall c <- text[|p.from|..] :: c in text;
  }

  lemma PassOfMatch(p: Pattern, q: char, text: string, head: string, pieces: seq<Piece>)
    requires IsName(p.from, text)
    ensures Pass(p, [Piece(q, text), Piece(q, head)] + pieces)
         == [Piece(q, p.to + text[|p.from|..])] + ([Piece(q, head)] + Pass(p, pieces))
  {
    hide IsName;
    var all := [Piece(q, text), Piece(q, head)] + pieces;
    assert all[2..] == pieces && Hit(p, all, 0);
  }

  lemma ReplacedText(s: string, text: string, rest: string, p: Pattern)
    requires s != "" && s == [s[0]] + text + rest && rest != "" && rest[0] == s[0] && p.from <= text
    requires TokenEnd(s, p.from) == Some(|text| + 2)
    ensures ReplaceTokens(s, p) == [s[0]] + (p.to + text[|p.from|..]) + ([s[0]] + ReplaceTokens(rest[1..], p))
  {
    hide TokenEnd, IsQuote;
    var end := |text| + 2;
    assert s[1 + |p.from|..end] == text[|p.from|..] + [s[0]];
    assert s[end..] == rest[1..];
  }

  // ---------------------------------------------------------------- one pass, marked

  /** Which pieces one pass renames. */
  function Chosen(p: Pattern, pieces: seq<Piece>): (r: seq<bool>)
    ensures |r| == |pieces|
  {
    if pieces == [] then []
    else if Hit(p, pieces, 0) then [true, false] + Chosen(p, pieces[2..])
    else [false] + Chosen(p, pieces[1..])
  }

  lemma HitOfSuffix(p: Pattern, pieces: seq<Piece>, n: nat, k: nat)
    requires n <= |pieces|
    ensures Hit(p, pieces[n..], k) <==> Hit(p, pieces, n + k)
  {
  }

  /** A pass renames hits only, never two in a row, and passes over a hit only behind a renamed one. */
  lemma {:induction false} PassIsChosen(p: Pattern, pieces: seq<Piece>, k: nat)
    requires k < |pieces|
    ensures var chosen := Chosen(p, pieces);
            && (chosen[k] ==> Hit(p, pieces, k))
            && (Hit(p, pieces, k) && !chosen[k] ==> k > 0 && chosen[k - 1])
            && (chosen[k] && k > 0 ==> !chosen[k - 1])
            && Pass(p, pieces)[k] == if chosen[k] then Renamed(p, pieces[k]) else pieces[k]
  {
    hide Renamed, IsName;
    var n := if Hit(p, pieces, 0) then 2 else 1;
    if k >= n {
      PassIsChosen(p, pieces[n..], k - n);
      HitOfSuffix(p, pieces, n, k - n);
      assert pieces[n..][k - n] == pieces[k];
    }
  }
}
