/** A text and its lines: `split('\n')`, `join('\n')`, and where a position of the text stands. */
module TextLines {

  /** `text.split('\n')`. */
  function Split(text: string): (r: seq<string>)
    ensures r != []
  {
    if text == "" then [""]
    else
      var rest := Split(text[1..]);
      if text[0] == '\n' then [""] + rest else [[text[0]] + rest[0]] + rest[1..]
  }

  /** `lines.join('\n')`. */
  function Join(lines: seq<string>): string
    requires lines != []
  {
    if |lines| == 1 then lines[0] else lines[0] + "\n" + Join(lines[1..])
  }

  predicate Plain(lines: seq<string>) {
    forall l <- lines :: '\n' !in l
  }

  lemma JoinLonger(c: char, lines: seq<string>)
    requires lines != []
    ensures Join([[c] + lines[0]] + lines[1..]) == [c] + Join(lines)
  {
    var longer := [[c] + lines[0]] + lines[1..];
    assert longer[1..] == lines[1..];
    if |lines| > 1 { assert [c] + lines[0] + "\n" + Join(lines[1..]) == [c] + (lines[0] + "\n" + Join(lines[1..])); }
  }

  lemma {:induction false} SplitIsPlain(text: string)
    ensures Plain(Split(text)) && Join(Split(text)) == text
  {
    if text != "" {
      var rest, lines := Split(text[1..]), Split(text);
      SplitIsPlain(text[1..]);
      hide Split;
      if text[0] == '\n' {
        assert lines[1..] == rest;
      } else {
        assert lines[1..] == rest[1..] && rest[0] in rest;
        assert forall l <- lines :: l == lines[0] || l in rest;
        JoinLonger(text[0], rest);
      }
    }
  }

  lemma {:induction false} SplitOfLine(line: string, text: string)
    requires '\n' !in line
    ensures Split(line + text) == [line + Split(text)[0]] + Split(text)[1..]
  {
    if line == "" {
      assert line + text == text && line + Split(text)[0] == Split(text)[0];
    } else {
      assert (line + text)[1..] == line[1..] + text && line[0] in line;
      SplitOfLine(line[1..], text);
      assert [line[0]] + (line[1..] + Split(text)[0]) == line + Split(text)[0];
    }
  }

  lemma {:induction false} SplitOfJoin(lines: seq<string>)
    requires lines != [] && Plain(lines)
    ensures Split(Join(lines)) == lines
  {
    if |lines| == 1 {
      SplitOfLine(lines[0], "");
      assert lines[0] + "" == lines[0];
    } else {
      var rest := "\n" + Join(lines[1..]);
      SplitOfJoin(lines[1..]);
      SplitOfLine(lines[0], rest);
      assert lines[0] + "\n" + Join(lines[1..]) == lines[0] + rest;
      assert rest[1..] == Join(lines[1..]) && Split(rest) == [""] + lines[1..];
      assert lines[0] + "" == lines[0];
    }
  }

  // ---------------------------------------------------------------------- positions

  /** Offset of line `k` in the joined text. */
  function OffsetOf(lines: seq<string>, k: nat): nat
    requires k <= |lines|
  {
    if k == 0 then 0 else OffsetOf(lines, k - 1) + |lines[k - 1]| + 1
  }

  /** The line breaks before position `o`. */
  ghost function Breaks(text: string, o: nat): nat
    requires o <= |text|
  {
    if o == 0 then 0 else Breaks(text, o - 1) + if text[o - 1] == '\n' then 1 else 0
  }

  lemma {:induction false} OffsetBehind(lines: seq<string>, k: nat)
    requires 0 < k <= |lines|
    ensures OffsetOf(lines, k) == |lines[0]| + 1 + OffsetOf(lines[1..], k - 1)
  {
    if k > 1 { OffsetBehind(lines, k - 1); }
  }

  /** `part` stands at `o`, at the end of the text or before `mark`. */
  ghost predicate StandsAt<T>(text: seq<T>, o: nat, part: seq<T>, last: bool, mark: T) {
    && o + |part| <= |text| && (forall i :: 0 <= i < |part| ==> text[o + i] == part[i])
    && (if last then o + |part| == |text| else o + |part| < |text| && text[o + |part|] == mark)
  }

  /** What stands at `o` in `rest` stands so much further on behind `front`. */
  lemma Behind<T>(front: seq<T>, rest: seq<T>, o: nat, part: seq<T>, last: bool, mark: T)
    requires StandsAt(rest, o, part, last, mark)
    ensures StandsAt(front + rest, |front| + o, part, last, mark)
  {
  }

  lemma InFront<T>(part: seq<T>, mark: T, rest: seq<T>)
    ensures StandsAt(part + [mark] + rest, 0, part, false, mark) && StandsAt(part, 0, part, true, mark)
  {
  }

  lemma {:induction false} LineStands(lines: seq<string>, k: nat)
    requires k < |lines|
    ensures StandsAt(Join(lines), OffsetOf(lines, k), lines[k], k + 1 == |lines|, '\n')
  {
    hide StandsAt;
    if k > 0 {
      OffsetBehind(lines, k);
      LineStands(lines[1..], k - 1);
      Behind(lines[0] + "\n", Join(lines[1..]), OffsetOf(lines[1..], k - 1), lines[k], k + 1 == |lines|, '\n');
    } else {
      InFront(lines[0], '\n', if |lines| > 1 then Join(lines[1..]) else "");
    }
  }

  /** A line stands at its offset, and a line break behind it. */
  lemma LineAtOffset(lines: seq<string>, k: nat)
    requires k < |lines|
    ensures var o, text := OffsetOf(lines, k), Join(lines);
      && o + |lines[k]| <= |text| && (forall i :: 0 <= i < |lines[k]| ==> text[o + i] == lines[k][i])
      && (if k + 1 < |lines| then o + |lines[k]| < |text| && text[o + |lines[k]|] == '\n' else o + |lines[k]| == |text|)
  {
    hide Join, OffsetOf;
    LineStands(lines, k);
  }

  lemma PlainLine(lines: seq<string>, k: nat)
    requires Plain(lines) && k < |lines|
    ensures forall i :: 0 <= i < |lines[k]| ==> lines[k][i] != '\n'
  {
    assert lines[k] in lines;
  }

  /** A line begins the text or stands behind a line break. */
  lemma BreakBefore(lines: seq<string>, k: nat)
    requires k < |lines|
    ensures var o, text := OffsetOf(lines, k), Join(lines); o <= |text| && (o == 0 || text[o - 1] == '\n')
  {
    hide Join;
    LineAtOffset(lines, k);
    if k > 0 { LineAtOffset(lines, k - 1); }
  }

  /** Every position of the text is on some line or right behind it. */
  lemma {:induction false} LineOf(lines: seq<string>, o: nat) returns (k: nat, i: nat)
    requires lines != [] && o <= |Join(lines)|
    ensures k < |lines| && i <= |lines[k]| && o == OffsetOf(lines, k) + i
  {
    if o <= |lines[0]| {
      k, i := 0, o;
    } else {
      k, i := LineOf(lines[1..], o - |lines[0]| - 1);
      OffsetBehind(lines, k + 1);
      k := k + 1;
    }
  }

  /** The line breaks before a position count the lines before its own. */
  lemma {:induction false} BreaksAt(lines: seq<string>, k: nat, i: nat)
    requires Plain(lines) && k < |lines| && i <= |lines[k]|
    ensures OffsetOf(lines, k) + i <= |Join(lines)| && Breaks(Join(lines), OffsetOf(lines, k) + i) == k
    decreases k, i
  {
    hide Join;
    LineAtOffset(lines, k);
    if i > 0 {
      BreaksAt(lines, k, i - 1);
      assert lines[k] in lines && lines[k][i - 1] in lines[k];
    } else if k > 0 {
      LineAtOffset(lines, k - 1);
      BreaksAt(lines, k - 1, |lines[k - 1]|);
    }
  }
}
