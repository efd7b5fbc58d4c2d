/** The whole rename table of `scripts/rescope-vendor.ts` on one line: what a rewritten line still holds,
    exactly when rewriting twice is rewriting once, and exactly when the reverse table undoes a rewrite. */
module RescopeTable {
  import opened Options
  import opened Characters
  import opened Rescope
  import opened RescopeLine

  // --------------------------------------------------------------------- the table

  /** Neither name begins with the other. */
  predicate Apart(a: string, b: string) {
    !(a <= b) && !(b <= a)
  }

  /** No text is both names: neither is the other or the other with a subpath. */
  predicate Separate(a: string, b: string) {
    a != b && !(a + "/" <= b) && !(b + "/" <= a)
  }

  predicate TableOk(all: seq<Pattern>) {
    && (forall p <- all :: PatternOk(p))
    && (forall p, q | p in all && q in all :: Apart(p.to, q.from))
    && (forall i, j | 0 <= i < j < |all| :: Separate(all[i].from, all[j].from))
  }

  /** The same pieces, after one pass or after all, are hits of `p`. */
  ghost predicate SameHits(p: Pattern, a: seq<Piece>, b: seq<Piece>) {
    |a| == |b| && forall k: nat :: Hit(p, a, k) <==> Hit(p, b, k)
  }

  lemma {:induction false} ChosenByHits(p: Pattern, a: seq<Piece>, b: seq<Piece>)
    requires SameHits(p, a, b)
    ensures Chosen(p, a) == Chosen(p, b)
  {
    hide Hit;
    if a != [] {
      var n := if Hit(p, a, 0) then 2 else 1;
      assert Hit(p, a, 0) <==> Hit(p, b, 0);
      if n <= |a| {
        forall k: nat ensures Hit(p, a[n..], k) <==> Hit(p, b[n..], k) {
          HitOfSuffix(p, a, n, k);
          HitOfSuffix(p, b, n, k);
        }
        ChosenByHits(p, a[n..], b[n..]);
      }
    }
  }

  lemma SeparateNames(a: string, b: string, text: string)
    ensures IsName(a, text) && IsName(b, text) ==> !Separate(a, b)
  {
    if IsName(a, text) && IsName(b, text) {
      assert |a| < |b| ==> a + "/" <= b;
      assert |b| < |a| ==> b + "/" <= a;
    }
  }

  lemma ApartNames(to: string, from: string, sub: string)
    ensures IsName(from, to + sub) ==> !Apart(to, from)
  {
    if from <= to + sub {
      assert from == (to + sub)[..|from|];
      assert |from| <= |to| ==> from <= to;
      assert |to| <= |from| ==> to <= from;
    }
  }

  /** A pass of another pattern leaves the hits of `q` alone. */
  lemma OtherHits(p: Pattern, q: Pattern, pieces: seq<Piece>)
    requires Separate(p.from, q.from) && Apart(p.to, q.from)
    ensures SameHits(q, Pass(p, pieces), pieces)
  {
    hide Pass, Chosen, Separate, Apart;
    forall k: nat | k + 1 < |pieces| ensures Hit(q, Pass(p, pieces), k) <==> Hit(q, pieces, k) {
      PassIsChosen(p, pieces, k);
      PassIsChosen(p, pieces, k + 1);
      if Chosen(p, pieces)[k] {
        SeparateNames(p.from, q.from, pieces[k].text);
        ApartNames(p.to, q.from, pieces[k].text[|p.from|..]);
      }
    }
  }

  /** Its own pass leaves the hits it passed over. */
  lemma OwnHits(p: Pattern, pieces: seq<Piece>, k: nat)
    requires Apart(p.to, p.from) && k < |pieces|
    ensures Hit(p, Pass(p, pieces), k) <==> Hit(p, pieces, k) && !Chosen(p, pieces)[k]
  {
    hide Pass, Chosen, Apart;
    if k + 1 < |pieces| {
      PassIsChosen(p, pieces, k);
      PassIsChosen(p, pieces, k + 1);
      if Chosen(p, pieces)[k] { ApartNames(p.to, p.from, pieces[k].text[|p.from|..]); }
    }
  }

  predicate Others(all: seq<Pattern>, q: Pattern) {
    forall p <- all :: Separate(p.from, q.from) && Apart(p.to, q.from)
  }

  lemma {:induction false} OtherHitsAll(all: seq<Pattern>, q: Pattern, pieces: seq<Piece>)
    requires Others(all, q)
    ensures SameHits(q, PassAll(all, pieces), pieces)
    decreases all
  {
    hide Pass, Hit, Separate, Apart;
    if all != [] {
      OtherHits(all[0], q, pieces);
      OtherHitsAll(all[1..], q, Pass(all[0], pieces));
    }
  }

  lemma OtherOf(p: Pattern, q: Pattern)
    requires Others([p], q)
    ensures Separate(p.from, q.from) && Apart(p.to, q.from) && p.from != q.from
  {
    assert p in [p];
  }

  lemma InTable(all: seq<Pattern>, p: Pattern)
    requires TableOk(all) && p in all
    ensures PatternOk(p) && Apart(p.to, p.from)
  {
  }

  lemma HitInside(p: Pattern, pieces: seq<Piece>, k: nat)
    requires Hit(p, pieces, k)
    ensures k + 1 < |pieces| && p.from <= pieces[k].text
  {
  }

  lemma FirstIsOther(all: seq<Pattern>)
    requires TableOk(all) && all != []
    ensures TableOk(all[1..]) && Others(all[1..], all[0]) && forall q <- all[1..] :: Others([all[0]], q)
  {
    hide Apart, PatternOk;
    forall q <- all[1..] ensures Others([all[0]], q) {
      var j :| 0 <= j < |all[1..]| && all[1..][j] == q;
      assert Separate(all[0].from, all[j + 1].from);
    }
  }

  lemma OneName(p: Pattern, q: Pattern, pieces: seq<Piece>, k: nat)
    requires Separate(p.from, q.from) && k < |pieces|
    ensures !(Chosen(p, pieces)[k] && Chosen(q, pieces)[k])
  {
    hide Pass, Chosen, IsName, Separate;
    PassIsChosen(p, pieces, k);
    PassIsChosen(q, pieces, k);
    SeparateNames(p.from, q.from, pieces[k].text);
  }

  /** The first pattern's pass is nothing to the others: they have the same hits and choose the same ones. */
  lemma FirstPass(all: seq<Pattern>, pieces: seq<Piece>, k: nat)
    requires TableOk(all) && all != [] && k < |pieces|
    ensures forall q <- all[1..] :: Chosen(q, Pass(all[0], pieces)) == Chosen(q, pieces)
    ensures forall q <- all[1..] :: Hit(q, Pass(all[0], pieces), k) <==> Hit(q, pieces, k)
    ensures forall q <- all[1..] :: !(Chosen(all[0], pieces)[k] && Chosen(q, pieces)[k])
  {
    hide Pass, Hit, Apart, Separate, PatternOk, TableOk, Others;
    var a, next := all[0], Pass(all[0], pieces);
    FirstIsOther(all);
    forall q <- all[1..] ensures Chosen(q, next) == Chosen(q, pieces) && (Hit(q, next, k) <==> Hit(q, pieces, k))
                                 && !(Chosen(a, pieces)[k] && Chosen(q, pieces)[k]) {
      OtherOf(a, q);
      OtherHits(a, q, pieces);
      ChosenByHits(q, next, pieces);
      OneName(a, q, pieces, k);
    }
  }

  /** After the whole table, exactly the hits that a pass stepped over are left, and exactly the hits that
      a pass chose on the line as it was are renamed: the order of the table does not matter. */
  lemma {:induction false} WholeTable(all: seq<Pattern>, pieces: seq<Piece>, k: nat)
    requires TableOk(all) && k < |pieces|
    ensures forall p <- all :: Hit(p, PassAll(all, pieces), k) <==> Hit(p, pieces, k) && !Chosen(p, pieces)[k]
    ensures forall p <- all :: Chosen(p, pieces)[k] ==> Hit(p, pieces, k) && PassAll(all, pieces)[k] == Renamed(p, pieces[k])
    ensures (forall p <- all :: !Chosen(p, pieces)[k]) ==> PassAll(all, pieces)[k] == pieces[k]
    decreases all
  {
    if all != [] {
      hide Pass, Hit, Apart, Separate, PatternOk, Renamed, TableOk, Others, Chosen;
      var a, rest, next := all[0], all[1..], Pass(all[0], pieces);
      FirstIsOther(all);
      FirstPass(all, pieces, k);
      WholeTable(rest, next, k);
      InTable(all, a);
      OwnHits(a, pieces, k);
      OtherHitsAll(rest, a, next);
      PassIsChosen(a, pieces, k);
      assert PassAll(all, pieces) == PassAll(rest, next);
      hide PassAll;
      assert forall p <- all :: p == a || p in rest;
    }
  }

  // ------------------------------------------------------------- once, twice and back

  /** Some pattern has hits at two neighbouring pieces: one quote closes a token and opens the next. */
  ghost predicate SharesQuote(all: seq<Pattern>, pieces: seq<Piece>) {
    exists p, k: nat :: p in all && Hit(p, pieces, k) && Hit(p, pieces, k + 1)
  }

  ghost predicate Quiet(all: seq<Pattern>, pieces: seq<Piece>) {
    forall p, k: nat :: p in all ==> !Hit(p, pieces, k)
  }

  lemma QuietUnlessShared(all: seq<Pattern>, pieces: seq<Piece>)
    requires TableOk(all)
    ensures Quiet(all, PassAll(all, pieces)) <==> !SharesQuote(all, pieces)
  {
    hide Chosen, Pass, TableOk, IsName, PassAll;
    var after := PassAll(all, pieces);
    if SharesQuote(all, pieces) {
      var p, k: nat :| p in all && Hit(p, pieces, k) && Hit(p, pieces, k + 1);
      WholeTable(all, pieces, k);
      WholeTable(all, pieces, k + 1);
      PassIsChosen(p, pieces, k + 1);
      assert Hit(p, after, if Chosen(p, pieces)[k] then k + 1 else k);
    } else {
      forall p, k: nat | p in all ensures !Hit(p, after, k) {
        if k < |pieces| {
          WholeTable(all, pieces, k);
          PassIsChosen(p, pieces, k);
          if k > 0 {
            PassIsChosen(p, pieces, k - 1);
            assert !(Hit(p, pieces, k - 1) && Hit(p, pieces, k - 1 + 1));
          }
        }
      }
    }
  }

  lemma FixedWhenQuiet(all: seq<Pattern>, pieces: seq<Piece>)
    requires TableOk(all)
    ensures PassAll(all, pieces) == pieces <==> Quiet(all, pieces)
  {
    hide Chosen, Pass, TableOk, Hit;
    if Quiet(all, pieces) {
      forall k: nat | k < |pieces| ensures PassAll(all, pieces)[k] == pieces[k] {
        forall p <- all ensures !Chosen(p, pieces)[k] { PassIsChosen(p, pieces, k); }
        WholeTable(all, pieces, k);
      }
    } else {
      var p, k: nat :| p in all && Hit(p, pieces, k);
      HitInside(p, pieces, k);
      WholeTable(all, pieces, k);
      PassIsChosen(p, pieces, k);
      if k > 0 {
        WholeTable(all, pieces, k - 1);
        PassIsChosen(p, pieces, k - 1);
      }
    }
  }

  lemma ValueKept(s: string, t: string, c: nat)
    requires YamlValue(s) == Some(c) && c < |s| && c < |t| && s[..c] == t[..c] && !IsSpace(s[c]) && !IsSpace(t[c])
    ensures YamlValue(t) == Some(c)
  {
    assert IsSpace(' ') && IsSpace('\t');
    hide IsSpace, At, KeyStart;
    var b := KeyStart(s);
    assert forall k :: 0 <= k < c ==> s[k] == s[..c][k] == t[k];
    KeyKept(s, t, c);
    AtKept(s, t, c, b, "name:");
    SkipBlankKept(s, t, c, b + 5);
  }

  lemma KeyKept(s: string, t: string, c: nat)
    requires KeyStart(s) < c < |s| && c < |t| && (forall k :: 0 <= k < c ==> s[k] == t[k]) && !IsSpace(s[c]) && !IsSpace(t[c])
    ensures KeyStart(t) == KeyStart(s)
  {
    hide IsSpace;
    var a := SkipSpace(s, 0);
    SkipSpaceKept(s, t, c, 0);
    if s[a] == '-' { SkipSpaceKept(s, t, c, a + 1); }
  }

  lemma AtKept(s: string, t: string, c: nat, i: nat, word: string)
    requires c < |s| && c < |t| && i + |word| <= c && forall k :: 0 <= k < c ==> s[k] == t[k]
    ensures At(s, i, word) == At(t, i, word)
  {
    assert s[i..i + |word|] == t[i..i + |word|];
  }

  lemma {:induction false} SkipSpaceKept(s: string, t: string, c: nat, i: nat)
    requires i <= c < |s| && c < |t| && !IsSpace(s[c]) && !IsSpace(t[c]) && forall k :: 0 <= k < c ==> s[k] == t[k]
    ensures SkipSpace(s, i) == SkipSpace(t, i) <= c
    decreases c - i
  {
    hide IsSpace;
    if i < c && IsSpace(s[i]) { SkipSpaceKept(s, t, c, i + 1); }
  }

  lemma {:induction false} SkipBlankKept(s: string, t: string, c: nat, i: nat)
    requires i <= c < |s| && c < |t| && s[c] !in " \t" && t[c] !in " \t" && forall k :: 0 <= k < c ==> s[k] == t[k]
    ensures SkipBlank(s, i) == SkipBlank(t, i) <= c
    decreases c - i
  {
    if i < c && s[i] in " \t" { SkipBlankKept(s, t, c, i + 1); }
  }

  lemma {:induction false} SkipBlankBehind(u: string, w: string, i: nat)
    requires i <= |w|
    ensures SkipBlank(u + w, |u| + i) == |u| + SkipBlank(w, i)
    decreases |w| - i
  {
    if i < |w| && w[i] in " \t" { SkipBlankBehind(u, w, i + 1); }
  }

  /** At most one name stands as the scalar. */
  lemma OneScalar(head: string, more: bool, a: string, b: string)
    requires NameOk(a) && NameOk(b) && a != b
    ensures YamlSite(head, more, a).None? || YamlSite(head, more, b).None?
  {
    hide ScalarIs, YamlValue, NameOk;
    var c := YamlSite(head, more, a);
    if c.Some? { OtherScalar(head, more, c.value, a, b); }
  }

  lemma OtherScalar(head: string, more: bool, c: nat, a: string, b: string)
    requires NameOk(a) && NameOk(b) && a != b && ScalarIs(head, more, c, a)
    ensures !ScalarIs(head, more, c, b)
  {
    if |a| <= |b| {
      LongerName(head, more, c, a, b);
    } else if ScalarIs(head, more, c, b) {
      LongerName(head, more, c, b, a);
    }
  }

  lemma LongerName(head: string, more: bool, c: nat, a: string, b: string)
    requires NameOk(b) && |a| <= |b| && a != b && ScalarIs(head, more, c, a)
    ensures !At(head, c, b)
  {
    hide IsSpace;
    if At(head, c, b) && |a| < |b| {
      assert head[c + |a|] == head[c..c + |b|][|a|] == b[|a|] && b[|a|] in b;
      BlankOrEndIsSpace(b[|a|]);
    }
  }

  lemma BlankOrEndIsSpace(x: char)
    ensures x in " \t" || IsTerminator(x) ==> IsSpace(x)
  {
  }

  lemma SpliceAt(head: string, c: nat, from: string, to: string)
    requires At(head, c, from)
    ensures var w := head[c + |from|..];
            var after := head[..c] + to + w;
            && head == (head[..c] + from) + w && after[..c] == head[..c] && At(after, c, to)
            && after[c + |to|..] == w && after[..c] + from + after[c + |to|..] == head
  {
    var w := head[c + |from|..];
    var after := head[..c] + to + w;
    assert head[c..] == from + w;
    assert head == head[..c] + head[c..];
    assert after[..c] == head[..c] && after[c..c + |to|] == to && after[c + |to|..] == w;
  }

  lemma EndBehind(u: string, w: string, more: bool)
    ensures EndsAt(u + w, more, SkipBlank(u + w, |u|)) <==> EndsAt(w, more, SkipBlank(w, 0))
  {
    hide SkipBlank;
    SkipBlankBehind(u, w, 0);
    var d := SkipBlank(w, 0);
    assert d < |w| ==> (u + w)[|u| + d] == w[d];
  }

  lemma ScalarEndKept(u: string, v: string, w: string, more: bool)
    ensures EndsAt(u + w, more, SkipBlank(u + w, |u|)) <==> EndsAt(v + w, more, SkipBlank(v + w, |v|))
  {
    hide SkipBlank, EndsAt;
    EndBehind(u, w, more);
    EndBehind(v, w, more);
  }

  lemma ScalarKept(head: string, more: bool, c: nat, from: string, to: string)
    requires ScalarIs(head, more, c, from)
    ensures ScalarIs(head[..c] + to + head[c + |from|..], more, c, to)
  {
    hide SkipBlank, EndsAt;
    var u, v, w := head[..c] + from, head[..c] + to, head[c + |from|..];
    SpliceAt(head, c, from, to);
    hide At;
    ScalarEndKept(u, v, w, more);
  }

  /** A renamed scalar stands where it stood, as the new name, and renaming it back gives the old text. */
  lemma AfterScalar(p: Pattern, head: string, more: bool)
    requires PatternOk(p) && YamlSite(head, more, p.from).Some?
    ensures var c, after := YamlSite(head, more, p.from), ReplaceScalar(head, more, p);
            YamlValue(after) == c && YamlSite(after, more, p.to) == c && At(after, c.value, p.to)
    ensures var c, after := YamlSite(head, more, p.from), ReplaceScalar(head, more, p);
            after[..c.value] + p.from + after[c.value + |p.to|..] == head
  {
    var c, after := YamlSite(head, more, p.from).value, ReplaceScalar(head, more, p);
    assert At(head, c, p.from);
    hide IsSpace, YamlValue, NameOk, At, ScalarIs;
    SpliceAt(head, c, p.from, p.to);
    NameThere(head, c, p.from);
    NameThere(after, c, p.to);
    ValueKept(head, after, c);
    ScalarKept(head, more, c, p.from, p.to);
  }

  lemma NameThere(s: string, c: nat, name: string)
    requires NameOk(name) && At(s, c, name)
    ensures c < |s| && !IsSpace(s[c])
  {
    assert s[c] == name[0] && name[0] in name;
  }

  lemma BothThere(s: string, c: nat, a: string, b: string)
    ensures At(s, c, a) && At(s, c, b) ==> !Apart(a, b)
  {
    if At(s, c, a) && At(s, c, b) {
      assert |a| <= |b| ==> a == s[c..c + |a|] == b[..|a|];
      assert |b| <= |a| ==> b == s[c..c + |b|] == a[..|b|];
    }
  }

  /** Once renamed, a scalar is no name of the table any more. */
  lemma NotRenamedAgain(p: Pattern, head: string, more: bool, q: string)
    requires PatternOk(p) && YamlSite(head, more, p.from).Some? && Apart(p.to, q)
    ensures YamlSite(ReplaceScalar(head, more, p), more, q).None?
  {
    hide YamlValue, ReplaceScalar, At, Apart;
    AfterScalar(p, head, more);
    BothThere(ReplaceScalar(head, more, p), YamlSite(head, more, p.from).value, p.to, q);
  }

  ghost predicate NoScalar(all: seq<Pattern>, head: string, more: bool) {
    forall p <- all :: YamlSite(head, more, p.from).None?
  }

  lemma NoReplacement(head: string, more: bool, p: Pattern)
    requires YamlSite(head, more, p.from).None?
    ensures ReplaceScalar(head, more, p) == head
  {
  }

  /** The table renames the scalar that is one of its names and nothing else, whatever its order. */
  lemma {:induction false} WholeTableHead(all: seq<Pattern>, head: string, more: bool)
    requires TableOk(all)
    ensures NoScalar(all, head, more) ==> HeadAll(all, head, more) == head
    ensures forall p <- all :: YamlSite(head, more, p.from).Some? ==> HeadAll(all, head, more) == ReplaceScalar(head, more, p)
    ensures NoScalar(all, HeadAll(all, head, more), more)
    decreases all
  {
    if all != [] {
      hide Apart, YamlSite, NameOk, ReplaceScalar, Others;
      var a, rest := all[0], all[1..];
      var next := ReplaceScalar(head, more, a);
      FirstIsOther(all);
      WholeTableHead(rest, next, more);
      if YamlSite(head, more, a.from).Some? {
        forall q <- all ensures YamlSite(next, more, q.from).None? { NotRenamedAgain(a, head, more, q.from); }
        InTable(all, a);
        forall q <- rest ensures YamlSite(head, more, q.from).None? {
          InTable(all, q);
          OtherOf(a, q);
          OneScalar(head, more, a.from, q.from);
        }
      } else {
        NoReplacement(head, more, a);
        if !NoScalar(rest, head, more) {
          var q :| q in rest && YamlSite(head, more, q.from).Some?;
          NotRenamedAgain(q, head, more, a.from);
        }
      }
    }
  }
}
