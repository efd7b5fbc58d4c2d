/** The rename table itself, `RENAMES` of `scripts/rescope-vendor.ts`: every selection of its rows meets the
    conditions under which the laws of `RescopeLaws` hold, forward and reversed. */
module RescopeNames {
  import opened Characters
  import opened Rescope
  import opened RescopeLine
  import opened RescopeTable
  import opened RescopeLaws

  /** A vendored package: a framework plugin, or a package with a plain upstream name. */
  datatype Vendored = Vendored(plugin: bool, word: string)

  const PLUGIN := "@cordisjs/plugin-"
  const SCOPE := "@deepseek-ai/"
  const SCOPED_PLUGIN := "@deepseek-ai/cordis-plugin-"

  const VENDORED: seq<Vendored> := [
    Vendored(false, "cordis"), Vendored(false, "cosmokit"), Vendored(false, "schemastery"),
    Vendored(true, "loader"), Vendored(true, "include"), Vendored(true, "group"),
    Vendored(true, "timer"), Vendored(true, "hmr"), Vendored(true, "logger-console")
  ]

  function Rename(v: Vendored): Pattern {
    if v.plugin then Pattern(PLUGIN + v.word, SCOPED_PLUGIN + v.word) else Pattern(v.word, SCOPE + v.word)
  }

  /** Lower-case words, hyphenated in plugins only. */
  predicate WordOk(v: Vendored) {
    v.word != "" && forall c <- v.word :: 'a' <= c <= 'z' || (v.plugin && c == '-')
  }

  predicate RowsOk(rows: seq<Vendored>) {
    (forall v <- rows :: WordOk(v)) && forall i, j | 0 <= i < j < |rows| :: rows[i] != rows[j]
  }

  /** The forward table of the rows that a file does not skip. */
  function Forward(rows: seq<Vendored>): (r: seq<Pattern>)
    ensures |r| == |rows| && forall i :: 0 <= i < |rows| ==> r[i] == Rename(rows[i])
  {
    if rows == [] then [] else [Rename(rows[0])] + Forward(rows[1..])
  }

  function Backward(rows: seq<Vendored>): (r: seq<Pattern>)
    ensures |r| == |rows| && forall i :: 0 <= i < |rows| ==> r[i] == Flip(Rename(rows[i]))
  {
    if rows == [] then [] else [Flip(Rename(rows[0]))] + Backward(rows[1..])
  }

  lemma NameOfParts(prefix: string, v: Vendored)
    requires WordOk(v) && forall c <- prefix :: c in "@-/" || 'a' <= c <= 'z'
    ensures NameOk(prefix + v.word)
  {
    forall c <- prefix + v.word ensures !IsQuote(c) && !IsSpace(c) && c != '#' {
      assert c in "@-/" || 'a' <= c <= 'z';
    }
  }

  lemma RenameOk(v: Vendored)
    requires WordOk(v)
    ensures PatternOk(Rename(v))
  {
    hide NameOk, IsSpace;
    NameOfParts("", v);
    assert "" + v.word == v.word;
    NameOfParts(PLUGIN, v);
    NameOfParts(SCOPE, v);
    NameOfParts(SCOPED_PLUGIN, v);
  }

  /** A new name begins with no old name and no old name begins with it. */
  lemma NewIsApart(v: Vendored, w: Vendored)
    requires WordOk(v) && WordOk(w)
    ensures Apart(Rename(v).to, Rename(w).from)
  {
    assert w.word[0] in w.word;
    assert Rename(v).to[0] == '@' && Rename(v).to[1] == 'd';
  }

  lemma SlashFollows(x: string, y: string)
    ensures x + "/" <= y ==> |x| < |y| && y[|x|] == '/'
  {
    if x + "/" <= y { assert y[|x|] == (x + "/")[|x|]; }
  }

  lemma SeparateAfter(prefix: string, a: string, b: string)
    requires a != b && '/' !in a && '/' !in b
    ensures Separate(prefix + a, prefix + b)
  {
    var x, y, n := prefix + a, prefix + b, |prefix|;
    assert x[n..] == a && y[n..] == b;
    SlashFollows(x, y);
    SlashFollows(y, x);
    assert |x| < |y| ==> y[|x|] == b[|a|] && b[|a|] in b;
    assert |y| < |x| ==> x[|y|] == a[|b|] && a[|b|] in a;
  }

  lemma OldAreSeparate(v: Vendored, w: Vendored)
    requires WordOk(v) && WordOk(w) && v != w
    ensures Separate(Rename(v).from, Rename(w).from)
  {
    if v.plugin == w.plugin {
      SeparateAfter(if v.plugin then PLUGIN else "", v.word, w.word);
      assert "" + v.word == v.word && "" + w.word == w.word;
    } else {
      PlainIsSeparate(if v.plugin then w else v, PLUGIN + (if v.plugin then v else w).word);
    }
  }

  lemma PlainIsSeparate(v: Vendored, name: string)
    requires WordOk(v) && name != "" && name[0] == '@'
    ensures Separate(v.word, name) && Separate(name, v.word)
  {
    assert v.word[0] in v.word;
  }

  function Tail(v: Vendored): string {
    if v.plugin then "cordis-plugin-" + v.word else v.word
  }

  lemma TailsDiffer(v: Vendored, w: Vendored)
    requires WordOk(v) && WordOk(w) && v != w
    ensures Tail(v) != Tail(w) && '/' !in Tail(v) && Rename(v).to == SCOPE + Tail(v)
  {
    assert v.plugin ==> Tail(v)[14..] == v.word && Tail(v)[6] == '-';
    assert w.plugin ==> Tail(w)[14..] == w.word && Tail(w)[6] == '-';
    assert SCOPED_PLUGIN == SCOPE + "cordis-plugin-";
    if v.plugin != w.plugin {
      var plain := if v.plugin then w else v;
      assert |plain.word| > 6 ==> plain.word[6] in plain.word;
    }
  }

  lemma NewAreSeparate(v: Vendored, w: Vendored)
    requires WordOk(v) && WordOk(w) && v != w
    ensures Separate(Rename(v).to, Rename(w).to)
  {
    hide Separate, Tail, WordOk, Rename;
    TailsDiffer(v, w);
    TailsDiffer(w, v);
    SeparateAfter(SCOPE, Tail(v), Tail(w));
  }

  lemma TableByIndex(all: seq<Pattern>)
    requires forall i :: 0 <= i < |all| ==> PatternOk(all[i])
    requires forall i, j :: 0 <= i < |all| && 0 <= j < |all| ==> Apart(all[i].to, all[j].from)
    requires forall i, j :: 0 <= i < j < |all| ==> Separate(all[i].from, all[j].from)
    ensures TableOk(all)
  {
  }

  lemma ForwardTable(rows: seq<Vendored>)
    requires RowsOk(rows)
    ensures TableOk(Forward(rows))
  {
    hide WordOk, NameOk, Apart, Separate, Rename, TableOk;
    var all := Forward(rows);
    forall i | 0 <= i < |rows| ensures PatternOk(all[i]) { RenameOk(rows[i]); }
    forall i, j | 0 <= i < |rows| && 0 <= j < |rows| ensures Apart(all[i].to, all[j].from) { NewIsApart(rows[i], rows[j]); }
    forall i, j | 0 <= i < j < |rows| ensures Separate(all[i].from, all[j].from) { OldAreSeparate(rows[i], rows[j]); }
    TableByIndex(all);
  }

  lemma BackwardTable(rows: seq<Vendored>)
    requires RowsOk(rows)
    ensures TableOk(Backward(rows))
  {
    hide WordOk, NameOk, Separate, Rename, TableOk;
    var all := Backward(rows);
    forall i | 0 <= i < |rows| ensures PatternOk(all[i]) { RenameOk(rows[i]); }
    forall i, j | 0 <= i < |rows| && 0 <= j < |rows| ensures Apart(all[i].to, all[j].from) { NewIsApart(rows[j], rows[i]); }
    forall i, j | 0 <= i < j < |rows| ensures Separate(all[i].from, all[j].from) { NewAreSeparate(rows[i], rows[j]); }
    TableByIndex(all);
  }

  /** Every duplicate-free selection of well-formed rows is a table, and its reverse reverses it. */
  lemma RowsReverse(rows: seq<Vendored>)
    requires RowsOk(rows)
    ensures Reverses(Forward(rows), Backward(rows))
  {
    hide WordOk, TableOk, Rename;
    var all, back := Forward(rows), Backward(rows);
    ForwardTable(rows);
    BackwardTable(rows);
    forall i | 0 <= i < |rows| ensures Flip(all[i]) == back[i] && Flip(back[i]) == all[i] && all[i] in all && back[i] in back {}
  }

  lemma PlainWords()
    ensures WordOk(Vendored(false, "cordis")) && WordOk(Vendored(false, "cosmokit")) && WordOk(Vendored(false, "schemastery"))
  {
  }

  lemma PluginWords()
    ensures WordOk(Vendored(true, "loader")) && WordOk(Vendored(true, "include")) && WordOk(Vendored(true, "group"))
  {
  }

  lemma MorePluginWords()
    ensures WordOk(Vendored(true, "timer")) && WordOk(Vendored(true, "hmr")) && WordOk(Vendored(true, "logger-console"))
  {
  }

  predicate IsVendored(v: Vendored) {
    v in VENDORED
  }

  lemma VendoredWords(v: Vendored)
    requires IsVendored(v)
    ensures WordOk(v)
  {
    hide WordOk;
    PlainWords();
    PluginWords();
    MorePluginWords();
  }

  lemma VendoredRowsOk(rows: seq<Vendored>)
    requires forall v <- rows :: IsVendored(v)
    requires forall i, j | 0 <= i < j < |rows| :: rows[i] != rows[j]
    ensures RowsOk(rows)
  {
    hide WordOk, IsVendored;
    forall v <- rows ensures WordOk(v) { VendoredWords(v); }
  }

  /** For the vendored packages, whichever of them a file skips, the reversed table reverses the forward one, so
      that the laws of a line hold of both. */
  lemma VendoredReverse(rows: seq<Vendored>)
    requires forall v <- rows :: IsVendored(v)
    requires forall i, j | 0 <= i < j < |rows| :: rows[i] != rows[j]
    ensures Reverses(Forward(rows), Backward(rows))
  {
    hide *;
    VendoredRowsOk(rows);
    RowsReverse(rows);
  }

  /** Three equal quotes around two names: the middle one closes a token and would open another, so the second
      `--apply` is not a no-op. */
  lemma SharedQuoteExample()
    ensures var all, s := Forward([Vendored(false, "cordis")]), "'cordis'cordis'";
            TableOk(all) && RewriteLine(RewriteLine(s, all), all) != RewriteLine(s, all)
  {
    hide TableOk, RewriteLine, ToLine;
    var rows := [Vendored(false, "cordis")];
    var all, s, t := Forward(rows), "'cordis'cordis'", "'cordis'";
    PlainWords();
    ForwardTable(rows);
    LineOfParts('\'', "cordis", t);
    assert s == ['\''] + "cordis" + t;
    LineOfParts('\'', "cordis", "'");
    assert t == ['\''] + "cordis" + "'";
    LineOfParts('\'', "", "");
    assert "'" == ['\''] + "" + "";
    var p, pieces := Pattern("cordis", "@deepseek-ai/cordis"), ToLine(s).pieces;
    assert all[0] == p;
    assert pieces[0] == Piece('\'', "cordis") && pieces[1] == Piece('\'', "cordis") && pieces[2].quote == '\'';
    assert Hit(p, pieces, 0) && Hit(p, pieces, 0 + 1);
    RewriteTwice(s, all);
  }

  /** A line that already held a scoped name: the rewrite leaves it alone and `--reverse` changes it. */
  lemma ScopedNameExample()
    ensures var rows, s := [Vendored(false, "cordis")], "'@deepseek-ai/cordis'";
            && Reverses(Forward(rows), Backward(rows))
            && RewriteLine(RewriteLine(s, Forward(rows)), Backward(rows)) != s
  {
    hide TableOk, RewriteLine, ToLine, Reverses, Chosen;
    var rows, name, s := [Vendored(false, "cordis")], "@deepseek-ai/cordis", "'@deepseek-ai/cordis'";
    var all, p := Forward(rows), Pattern("cordis", "@deepseek-ai/cordis");
    PlainWords();
    RowsReverse(rows);
    RenameOk(rows[0]);
    assert all[0] == p;
    LineOfParts('\'', name, "'");
    assert s == ['\''] + name + "'";
    LineOfParts('\'', "", "");
    assert "'" == ['\''] + "" + "";
    var pieces := ToLine(s).pieces;
    assert pieces[0] == Piece('\'', name) && pieces[1].quote == '\'';
    assert p in all && Hit(Flip(p), pieces, 0);
    UndoneExactly(s, all, Backward(rows));
  }
}
