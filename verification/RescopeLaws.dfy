/** What `scripts/rescope-vendor.ts` promises of a line: a second `--apply` is a no-op, `--reverse` undoes the
    rescope. Neither holds of every line; each is proved to hold exactly when a stated condition does. */
module RescopeLaws {
  import opened Characters
  import opened Rescope
  import opened RescopeLine
  import opened RescopeTable

  /** Rewriting twice is rewriting once exactly when no quote closes one token of a name and opens another
      token of the same name. */
  lemma RewriteTwice(s: string, all: seq<Pattern>)
    requires TableOk(all)
    ensures RewriteLine(RewriteLine(s, all), all) == RewriteLine(s, all) <==> !SharesQuote(all, ToLine(s).pieces)
  {
    hide ToLine, HeadAll, PassAll, SharesQuote, RewriteLine, PatternOk;
    var once := RewriteLine(s, all);
    var l, m := ToLine(s), ToLine(once);
    RewriteOnLine(s, all);
    RewriteOnLine(once, all);
    LineIsText(RewriteLine(once, all), once);
    QuietUnlessShared(all, l.pieces);
    FixedWhenQuiet(all, m.pieces);
    WholeTableHead(all, l.head, l.pieces != []);
    WholeTableHead(all, m.head, m.pieces != []);
  }

  /** The order of the table, longest name first in the source, does not change any line. */
  lemma OrderIsIrrelevant(s: string, a: seq<Pattern>, b: seq<Pattern>)
    requires TableOk(a) && TableOk(b) && (forall p <- a :: p in b) && (forall p <- b :: p in a)
    ensures RewriteLine(s, a) == RewriteLine(s, b)
  {
    assert (forall p <- a :: PatternOk(p)) && (forall p <- b :: PatternOk(p));
    hide TableOk, ToLine, HeadAll, PassAll, Chosen, Hit, YamlSite, RewriteLine, PatternOk;
    var l := ToLine(s);
    RewriteOnLine(s, a);
    RewriteOnLine(s, b);
    LineIsText(RewriteLine(s, a), RewriteLine(s, b));
    WholeTableHead(a, l.head, l.pieces != []);
    WholeTableHead(b, l.head, l.pieces != []);
    forall k: nat | k < |l.pieces| ensures PassAll(a, l.pieces)[k] == PassAll(b, l.pieces)[k] {
      WholeTable(a, l.pieces, k);
      WholeTable(b, l.pieces, k);
    }
  }

  // ------------------------------------------------------------------------- --reverse

  function Flip(p: Pattern): Pattern {
    Pattern(p.to, p.from)
  }

  /** `back` is the reverse of the table `all`, in any order. */
  predicate Reverses(all: seq<Pattern>, back: seq<Pattern>) {
    TableOk(all) && TableOk(back) && (forall p <- all :: Flip(p) in back) && (forall r <- back :: Flip(r) in all)
  }

  /** A line that already holds a new name keeps it when rewritten but not when reversed, unless the token
      stands at the closing quote of a token that the rewrite renames. */
  ghost predicate OldNamesOnly(all: seq<Pattern>, pieces: seq<Piece>) {
    forall p, k: nat :: p in all && Hit(Flip(p), pieces, k) ==> k > 0 && Chosen(p, pieces)[k - 1]
  }

  lemma BothTables(all: seq<Pattern>, back: seq<Pattern>)
    requires Reverses(all, back)
    ensures TableOk(all) && TableOk(back) && (forall p <- all :: Flip(p) in back) && (forall r <- back :: Flip(r) in all)
  {
  }

  lemma SeparateTo(all: seq<Pattern>, back: seq<Pattern>, p: Pattern, q: Pattern)
    requires Reverses(all, back) && p in all && q in all && p != q
    ensures Separate(p.to, q.to)
  {
    assert Flip(Flip(p)) == p && Flip(Flip(q)) == q;
    var i :| 0 <= i < |back| && back[i] == Flip(p);
    var j :| 0 <= j < |back| && back[j] == Flip(q);
    assert Separate(back[i].from, back[j].from) || Separate(back[j].from, back[i].from);
  }

  lemma SubNamed(a: string, b: string, text: string)
    requires IsName(a, text)
    ensures text == a + text[|a|..] && IsName(b, b + text[|a|..])
  {
    var renamed := b + text[|a|..];
    assert renamed[..|b|] == b && renamed[|b|..] == text[|a|..];
    assert |text| > |a| ==> renamed[|b|] == text[|a|];
  }

  lemma OneChosen(all: seq<Pattern>, p: Pattern, q: Pattern, pieces: seq<Piece>, k: nat)
    requires TableOk(all) && p in all && q in all && p != q && k < |pieces|
    ensures !(Chosen(p, pieces)[k] && Chosen(q, pieces)[k])
  {
    hide Chosen, PatternOk, Apart;
    var i :| 0 <= i < |all| && all[i] == p;
    var j :| 0 <= j < |all| && all[j] == q;
    assert Separate(all[i].from, all[j].from) || Separate(all[j].from, all[i].from);
    OneName(p, q, pieces, k);
  }

  lemma {:induction false} QuoteKept(all: seq<Pattern>, pieces: seq<Piece>, k: nat)
    requires k < |pieces|
    ensures PassAll(all, pieces)[k].quote == pieces[k].quote
    decreases all
  {
    hide Chosen, Hit, Pass;
    if all != [] {
      PassIsChosen(all[0], pieces, k);
      QuoteKept(all[1..], Pass(all[0], pieces), k);
    }
  }

  /** A renamed piece holds the new name of the pattern that renamed it and no other, and held no new name. */
  lemma RenamedPiece(all: seq<Pattern>, back: seq<Pattern>, p: Pattern, q: Pattern, text: string)
    requires Reverses(all, back) && p in all && q in all && IsName(q.from, text)
    ensures IsName(p.to, q.to + text[|q.from|..]) <==> p == q
    ensures !IsName(p.to, text)
  {
    assert q.from <= text;
    hide PatternOk, IsName, Separate;
    SubNamed(q.from, q.to, text);
    ApartNames(q.from, p.to, text[|q.from|..]);
    if q != p {
      SeparateTo(all, back, p, q);
      SeparateNames(p.to, q.to, q.to + text[|q.from|..]);
    }
  }

  /** After the rewrite, the new names are those just put there and those that were there. */
  lemma NewNames(all: seq<Pattern>, back: seq<Pattern>, p: Pattern, pieces: seq<Piece>, k: nat)
    requires Reverses(all, back) && p in all && k < |pieces|
    ensures Hit(Flip(p), PassAll(all, pieces), k) <==> Chosen(p, pieces)[k] || Hit(Flip(p), pieces, k)
    ensures Hit(Flip(p), pieces, k) ==> PassAll(all, pieces)[k] == pieces[k]
    ensures Hit(Flip(p), pieces, k) ==> forall q <- all :: !Chosen(q, pieces)[k]
  {
    BothTables(all, back);
    hide Chosen, Pass, PassAll, IsName, Reverses, TableOk;
    WholeTable(all, pieces, k);
    if k + 1 < |pieces| {
      QuoteKept(all, pieces, k);
      QuoteKept(all, pieces, k + 1);
      if q :| q in all && Chosen(q, pieces)[k] {
        RenamedPiece(all, back, p, q, pieces[k].text);
        if q != p { OneChosen(all, p, q, pieces, k); }
      }
    }
  }

  /** The reverse table undoes the rewrite of a line exactly when the line held no new name that it would
      take for its own. */
  lemma UndoPieces(all: seq<Pattern>, back: seq<Pattern>, pieces: seq<Piece>)
    requires Reverses(all, back)
    ensures PassAll(back, PassAll(all, pieces)) == pieces <==> OldNamesOnly(all, pieces)
  {
    BothTables(all, back);
    hide Chosen, Pass, PassAll, IsName, Reverses, TableOk;
    if OldNamesOnly(all, pieces) {
      forall k: nat | k < |pieces| ensures PassAll(back, PassAll(all, pieces))[k] == pieces[k] {
        UndonePiece(all, back, pieces, k);
      }
    } else {
      var p, k: nat :| p in all && Hit(Flip(p), pieces, k) && !(k > 0 && Chosen(p, pieces)[k - 1]);
      NotUndone(all, back, p, pieces, k);
    }
  }

  lemma {:induction false} ChosenBack(all: seq<Pattern>, back: seq<Pattern>, p: Pattern, pieces: seq<Piece>, k: nat)
    requires Reverses(all, back) && p in all && k < |pieces| && OldNamesOnly(all, pieces)
    ensures Chosen(Flip(p), PassAll(all, pieces))[k] == Chosen(p, pieces)[k]
  {
    hide Chosen, Pass, PassAll, IsName, Reverses, TableOk, Hit;
    var after := PassAll(all, pieces);
    NewNames(all, back, p, pieces, k);
    PassIsChosen(Flip(p), after, k);
    PassIsChosen(p, pieces, k);
    if k > 0 { ChosenBack(all, back, p, pieces, k - 1); }
  }

  lemma RenamedBack(p: Pattern, piece: Piece)
    requires p.from <= piece.text
    ensures p.to <= Renamed(p, piece).text && Renamed(Flip(p), Renamed(p, piece)) == piece
  {
    assert piece.text == p.from + piece.text[|p.from|..];
    assert Renamed(p, piece).text[|p.to|..] == piece.text[|p.from|..];
  }

  lemma UndonePiece(all: seq<Pattern>, back: seq<Pattern>, pieces: seq<Piece>, k: nat)
    requires Reverses(all, back) && k < |pieces| && OldNamesOnly(all, pieces)
    ensures PassAll(back, PassAll(all, pieces))[k] == pieces[k]
  {
    BothTables(all, back);
    hide Chosen, Pass, PassAll, Reverses, TableOk, IsName, Hit, Renamed, OldNamesOnly;
    var after := PassAll(all, pieces);
    WholeTable(all, pieces, k);
    if p :| p in all && Chosen(p, pieces)[k] {
      HitInside(p, pieces, k);
      RenamedBack(p, pieces[k]);
      ChosenBack(all, back, p, pieces, k);
      WholeTable(back, after, k);
    } else {
      forall r <- back ensures !Chosen(r, after)[k] {
        assert Flip(Flip(r)) == r;
        ChosenBack(all, back, Flip(r), pieces, k);
      }
      WholeTable(back, after, k);
    }
  }

  /** A new name that was there is what the reverse table changes, or its left neighbour is. */
  lemma NotUndone(all: seq<Pattern>, back: seq<Pattern>, p: Pattern, pieces: seq<Piece>, k: nat)
    requires Reverses(all, back) && p in all && Hit(Flip(p), pieces, k) && k < |pieces|
    requires k > 0 ==> !Chosen(p, pieces)[k - 1]
    ensures PassAll(back, PassAll(all, pieces)) != pieces
  {
    hide Chosen, Pass, PassAll, IsName, Reverses, TableOk, Hit;
    var after := PassAll(all, pieces);
    NewNames(all, back, p, pieces, k);
    PassIsChosen(Flip(p), after, k);
    var at := if Chosen(Flip(p), after)[k] then k else k - 1;
    if at < k {
      NewNames(all, back, p, pieces, at);
      PassIsChosen(Flip(p), after, at);
    }
    NameGone(all, back, p, after, at);
  }

  lemma NameGone(all: seq<Pattern>, back: seq<Pattern>, p: Pattern, pieces: seq<Piece>, k: nat)
    requires Reverses(all, back) && p in all && k < |pieces| && Chosen(Flip(p), pieces)[k]
    ensures PassAll(back, pieces)[k] != pieces[k]
  {
    hide Chosen, Pass, PassAll;
    WholeTable(back, pieces, k);
    assert Apart(p.to, p.from);
  }

  /** The scalar comes back unless it was a new name already. */
  lemma UndoHead(all: seq<Pattern>, back: seq<Pattern>, head: string, more: bool)
    requires Reverses(all, back)
    ensures HeadAll(back, HeadAll(all, head, more), more) == head <==> NoScalar(back, head, more)
  {
    hide HeadAll, YamlValue, ScalarIs, ReplaceScalar, TableOk, Apart, At, PatternOk;
    var after := HeadAll(all, head, more);
    WholeTableHead(all, head, more);
    WholeTableHead(back, after, more);
    if p :| p in all && YamlSite(head, more, p.from).Some? {
      ScalarBack(all, back, p, head, more);
    } else {
      if r :| r in back && YamlSite(head, more, r.from).Some? {
        WholeTableHead(back, head, more);
        assert NoScalar(back, after, more) ==> after != head;
      }
    }
  }

  lemma ScalarBack(all: seq<Pattern>, back: seq<Pattern>, p: Pattern, head: string, more: bool)
    requires Reverses(all, back) && p in all && YamlSite(head, more, p.from).Some?
    ensures NoScalar(back, head, more)
    ensures var after := ReplaceScalar(head, more, p);
            YamlSite(after, more, p.to).Some? && ReplaceScalar(after, more, Flip(p)) == head
  {
    hide YamlSite, Apart;
    AfterScalar(p, head, more);
    forall r <- back ensures YamlSite(head, more, r.from).None? {
      assert Apart(Flip(r).to, p.from);
      OldScalar(head, more, p.from, r.from);
    }
  }

  lemma OldScalar(head: string, more: bool, a: string, b: string)
    requires YamlSite(head, more, a).Some? && Apart(b, a)
    ensures YamlSite(head, more, b).None?
  {
    hide YamlValue, At, SkipBlank;
    BothThere(head, YamlValue(head).value, b, a) by { hide Apart; }
  }

  /** `--reverse` undoes the rewrite of a line exactly when the line held no new name, as a scalar or as a
      token that the reverse table would find. */
  lemma UndoneExactly(s: string, all: seq<Pattern>, back: seq<Pattern>)
    requires Reverses(all, back)
    ensures var l := ToLine(s);
            RewriteLine(RewriteLine(s, all), back) == s
            <==> NoScalar(back, l.head, l.pieces != []) && OldNamesOnly(all, l.pieces)
  {
    hide ToLine, HeadAll, PassAll, OldNamesOnly, NoScalar, RewriteLine, PatternOk;
    var once := RewriteLine(s, all);
    var l := ToLine(s);
    RewriteOnLine(s, all);
    RewriteOnLine(once, back);
    LineIsText(RewriteLine(once, back), s);
    UndoPieces(all, back, l.pieces);
    UndoHead(all, back, l.head, l.pieces != []);
  }
}
