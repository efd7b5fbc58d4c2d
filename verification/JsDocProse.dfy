/** The prose state machine of `parseJsDoc` in `scripts/jsdoc.ts`, over the lines of one comment
    with their leading asterisks already removed. */
module JsDocProse {
  import opened Options
  import opened Characters

  // ---------------------------------------------------------------- one line

  function TrimStart(s: string): (r: string)
    ensures r == "" || !IsSpace(r[0])
  {
    if s == "" || !IsSpace(s[0]) then s else TrimStart(s[1..])
  }

  function TrimEnd(s: string): string {
    if s == "" || !IsSpace(s[|s| - 1]) then s else TrimEnd(s[..|s| - 1])
  }

  function Trim(s: string): string {
    TrimEnd(TrimStart(s))
  }

  const MODES: set<string> := {"emit", "waterfall", "parallel", "serial", "bail"}

  predicate IsWord(c: char) {
    'a' <= c <= 'z' || 'A' <= c <= 'Z' || '0' <= c <= '9' || c == '_'
  }

  datatype Kind = ModeTag(mode: string) | BadModeTag | OtherTag | BlankLine | Bullet | Text

  /** How the loop branches on a line. */
  function Classify(line: string): Kind {
    var tag := TrimStart(line);
    if tag != "" && tag[0] == '@' then
      if At(tag, 0, "@mode") then
        var rest := tag[5..];
        if rest != "" && IsSpace(rest[0]) && Trim(rest) in MODES then ModeTag(Trim(rest))
        else if rest == "" || !IsWord(rest[0]) then BadModeTag
        else OtherTag
      else OtherTag
    else if Blank(line) then BlankLine
    else if |line| >= 2 && line[0] == '-' && IsSpace(line[1]) then Bullet
    else Text
  }

  /** `tag` stands at the start of the line, behind blanks. */
  ghost predicate Opens(line: string, tag: string, rest: string) {
    exists indent :: Blank(indent) && line == indent + tag + rest
  }

  /** The line is an `@mode` tag of that mode and nothing else. */
  ghost predicate IsModeTag(line: string, mode: string) {
    && (mode == "emit" || mode == "waterfall" || mode == "parallel" || mode == "serial" || mode == "bail")
    && exists gap, tail :: gap != "" && Blank(gap) && Blank(tail) && Opens(line, "@mode", gap + mode + tail)
  }

  /** It begins with `@mode` as a whole word. */
  ghost predicate MentionsMode(line: string) {
    exists rest :: Opens(line, "@mode", rest) && (rest == "" || !IsWord(rest[0]))
  }

  lemma {:induction false} TrimStartSplits(s: string)
    ensures exists indent :: Blank(indent) && s == indent + TrimStart(s)
  {
    if s != "" && IsSpace(s[0]) {
      TrimStartSplits(s[1..]);
      var indent :| Blank(indent) && s[1..] == indent + TrimStart(s[1..]);
      assert s == ([s[0]] + indent) + TrimStart(s);
    } else {
      assert s == "" + TrimStart(s);
    }
  }

  lemma {:induction false} TrimStartBehind(indent: string, s: string)
    requires Blank(indent) && (s == "" || !IsSpace(s[0]))
    ensures TrimStart(indent + s) == s
  {
    if indent == "" {
      assert indent + s == s;
    } else {
      assert indent[0] in indent && (indent + s)[1..] == indent[1..] + s;
      TrimStartBehind(indent[1..], s);
    }
  }

  lemma {:induction false} TrimEndSplits(s: string)
    ensures exists tail :: Blank(tail) && s == TrimEnd(s) + tail
  {
    if s != "" && IsSpace(s[|s| - 1]) {
      TrimEndSplits(s[..|s| - 1]);
      var tail :| Blank(tail) && s[..|s| - 1] == TrimEnd(s[..|s| - 1]) + tail;
      assert s == TrimEnd(s) + (tail + [s[|s| - 1]]);
    } else {
      assert s == TrimEnd(s) + "";
    }
  }

  lemma {:induction false} TrimEndBefore(s: string, tail: string)
    requires Blank(tail) && (s == "" || !IsSpace(s[|s| - 1]))
    ensures TrimEnd(s + tail) == s
    decreases |tail|
  {
    if tail == "" {
      assert s + tail == s;
    } else {
      var front := tail[..|tail| - 1];
      assert tail[|tail| - 1] in tail && forall c <- front :: c in tail;
      assert (s + tail)[..|s + tail| - 1] == s + front;
      TrimEndBefore(s, front);
    }
  }

  lemma ModeWords(mode: string)
    requires mode in MODES
    ensures mode != "" && !IsSpace(mode[0]) && !IsSpace(mode[|mode| - 1])
    ensures mode == "emit" || mode == "waterfall" || mode == "parallel" || mode == "serial" || mode == "bail"
  {
  }

  lemma OpensIsTrimmed(line: string, tag: string, rest: string)
    requires tag != "" && !IsSpace(tag[0])
    ensures Opens(line, tag, rest) <==> TrimStart(line) == tag + rest
  {
    TrimStartSplits(line);
    if Opens(line, tag, rest) {
      var indent :| Blank(indent) && line == indent + tag + rest;
      assert line == indent + (tag + rest);
      TrimStartBehind(indent, tag + rest);
    }
    if TrimStart(line) == tag + rest {
      var indent :| Blank(indent) && line == indent + TrimStart(line);
      assert line == indent + tag + rest;
    }
  }

  lemma ModeBetweenBlanks(gap: string, mode: string, tail: string)
    requires mode in MODES && Blank(gap) && Blank(tail)
    ensures Trim(gap + mode + tail) == mode
  {
    ModeWords(mode);
    hide IsSpace, TrimStart, TrimEnd;
    assert gap + mode + tail == gap + (mode + tail);
    TrimStartBehind(gap, mode + tail);
    TrimEndBefore(mode, tail);
  }

  lemma BlanksAround(rest: string) returns (gap: string, tail: string)
    ensures Blank(gap) && Blank(tail) && rest == gap + Trim(rest) + tail
  {
    hide IsSpace, TrimStart, TrimEnd;
    TrimStartSplits(rest);
    TrimEndSplits(TrimStart(rest));
    gap :| Blank(gap) && rest == gap + TrimStart(rest);
    tail :| Blank(tail) && TrimStart(rest) == Trim(rest) + tail;
    assert rest == gap + Trim(rest) + tail;
  }

  /** Between blanks, a mode is what is left after trimming. */
  lemma TrimmedMode(rest: string, mode: string)
    requires mode in MODES && rest != "" && IsSpace(rest[0])
    ensures Trim(rest) == mode <==> exists gap, tail :: gap != "" && Blank(gap) && Blank(tail) && rest == gap + mode + tail
  {
    ModeWords(mode);
    hide IsSpace, Trim, Blank;
    if Trim(rest) == mode {
      var gap, tail := BlanksAround(rest);
    }
    if gap, tail :| gap != "" && Blank(gap) && Blank(tail) && rest == gap + mode + tail { ModeBetweenBlanks(gap, mode, tail); }
  }

  lemma ModeTagMeans(line: string, mode: string)
    ensures Classify(line) == ModeTag(mode) <==> IsModeTag(line, mode)
  {
    hide Trim, TrimStart;
    var tag := TrimStart(line);
    if Classify(line) == ModeTag(mode) {
      ModeWords(mode);
      var rest := tag[5..];
      assert tag == "@mode" + rest;
      TrimmedMode(rest, mode);
      var gap, tail :| gap != "" && Blank(gap) && Blank(tail) && rest == gap + mode + tail;
      OpensIsTrimmed(line, "@mode", gap + mode + tail);
    }
    if IsModeTag(line, mode) {
      var gap, tail :| gap != "" && Blank(gap) && Blank(tail) && Opens(line, "@mode", gap + mode + tail);
      var rest := gap + mode + tail;
      OpensIsTrimmed(line, "@mode", rest);
      assert tag[5..] == rest && tag[0..5] == "@mode" && gap[0] in gap && rest[0] == gap[0];
      TrimmedMode(rest, mode);
    }
  }

  lemma MentionsModeMeans(line: string)
    ensures MentionsMode(line) <==> var tag := TrimStart(line); At(tag, 0, "@mode") && (tag[5..] == "" || !IsWord(tag[5..][0]))
  {
    var tag := TrimStart(line);
    hide IsWord, TrimStart, Opens;
    if At(tag, 0, "@mode") {
      assert tag == "@mode" + tag[5..];
      OpensIsTrimmed(line, "@mode", tag[5..]);
    }
    if rest :| Opens(line, "@mode", rest) && (rest == "" || !IsWord(rest[0])) {
      OpensIsTrimmed(line, "@mode", rest);
      assert tag[0..5] == "@mode" && tag[5..] == rest;
    }
  }

  lemma TrimmedLine(line: string)
    ensures Blank(line) <==> TrimStart(line) == ""
    ensures line != "" && !IsSpace(line[0]) ==> TrimStart(line) == line && !Blank(line)
    ensures (exists rest :: Opens(line, "@", rest)) <==> TrimStart(line) != "" && TrimStart(line)[0] == '@'
  {
    var tag := TrimStart(line);
    TrimStartSplits(line);
    var indent :| Blank(indent) && line == indent + tag;
    assert tag != "" ==> tag[0] in line;
    assert line != "" ==> line[0] in line;
    hide IsSpace, Opens, TrimStart, Blank;
    forall rest ensures Opens(line, "@", rest) <==> tag == "@" + rest { AtIsNoSpace(); OpensIsTrimmed(line, "@", rest); }
    if tag != "" && tag[0] == '@' { assert tag == "@" + tag[1..]; }
  }

  lemma AtIsNoSpace()
    ensures !IsSpace('@') && !IsSpace('-')
  {
  }

  /** What each branch of the loop matches. */
  lemma ClassifyMeans(line: string)
    ensures forall mode :: Classify(line) == ModeTag(mode) <==> IsModeTag(line, mode)
    ensures Classify(line).BadModeTag? <==> MentionsMode(line) && forall mode :: !IsModeTag(line, mode)
    ensures Classify(line).OtherTag? <==> !MentionsMode(line) && exists rest :: Opens(line, "@", rest)
    ensures Classify(line).BlankLine? <==> Blank(line)
    ensures Classify(line).Bullet? <==> |line| >= 2 && line[0] == '-' && IsSpace(line[1])
  {
    hide IsModeTag, Opens, Trim, TrimStart, IsWord, IsSpace, Blank, MentionsMode;
    forall mode ensures Classify(line) == ModeTag(mode) <==> IsModeTag(line, mode) { ModeTagMeans(line, mode); }
    MentionsModeMeans(line);
    TrimmedLine(line);
    AtIsNoSpace();
    SpaceIsNoWord();
    var tag := TrimStart(line);
    assert At(tag, 0, "@mode") ==> tag[0] == tag[0..5][0];
  }

  lemma SpaceIsNoWord()
    ensures forall c :: IsSpace(c) ==> !IsWord(c)
  {
  }

  predicate IsTag(k: Kind) {
    k.ModeTag? || k.BadModeTag? || k.OtherTag?
  }

  // ------------------------------------------------------------------- blocks

  /** An emitted block: a paragraph of lines, or a list of items of lines. */
  datatype Block = Para(lines: seq<string>) | List(items: seq<seq<string>>)

  function Flatten(items: seq<seq<string>>): seq<string> {
    if items == [] then [] else items[0] + Flatten(items[1..])
  }

  function LinesOf(blocks: seq<Block>): seq<string> {
    if blocks == [] then []
    else (match blocks[0] case Para(lines) => lines case List(items) => Flatten(items)) + LinesOf(blocks[1..])
  }

  lemma {:induction false} FlattenAppend(a: seq<seq<string>>, b: seq<seq<string>>)
    ensures Flatten(a + b) == Flatten(a) + Flatten(b)
  {
    if a == [] {
      assert a + b == b;
    } else {
      assert (a + b)[1..] == a[1..] + b;
      FlattenAppend(a[1..], b);
    }
  }

  lemma {:induction false} LinesAppend(a: seq<Block>, b: seq<Block>)
    ensures LinesOf(a + b) == LinesOf(a) + LinesOf(b)
  {
    if a == [] {
      assert a + b == b;
    } else {
      assert (a + b)[1..] == a[1..] + b;
      LinesAppend(a[1..], b);
    }
  }

  /** The mutable buffers of the loop. */
  datatype Buffers = Buffers(blocks: seq<Block>, para: seq<string>, list: seq<seq<string>>, item: seq<string>)

  function FlushItem(b: Buffers): Buffers {
    if b.item != [] then b.(list := b.list + [b.item], item := []) else b
  }

  function FlushList(b: Buffers): Buffers {
    var f := FlushItem(b);
    if f.list != [] then f.(blocks := f.blocks + [List(f.list)], list := []) else f
  }

  function PushPara(b: Buffers): Buffers {
    if b.para != [] then b.(blocks := b.blocks + [Para(b.para)], para := []) else b
  }

  function FlushPara(b: Buffers): Buffers {
    PushPara(FlushList(b))
  }

  /** What the buffers hold, in the order it will be emitted. */
  function Held(b: Buffers): seq<string> {
    LinesOf(b.blocks) + Flatten(b.list) + b.item + b.para
  }

  /** A pending paragraph means no pending list; a pending list has an item under construction. */
  predicate Ordered(b: Buffers) {
    (b.para != [] ==> b.item == [] && b.list == []) && (b.list != [] ==> b.item != [])
  }

  lemma FlushKeepsLines(b: Buffers)
    requires Ordered(b)
    ensures var f := FlushPara(b);
            f.para == [] && f.list == [] && f.item == [] && LinesOf(f.blocks) == Held(b)
  {
    var g := FlushItem(b);
    FlattenAppend(b.list, [b.item]);
    assert Flatten([b.item]) == b.item + Flatten([]);
    assert Flatten(g.list) == Flatten(b.list) + b.item;
    var h := FlushList(b);
    LinesAppend(g.blocks, [List(g.list)]);
    assert LinesOf([List(g.list)]) == Flatten(g.list) + LinesOf([]);
    assert LinesOf(h.blocks) == LinesOf(b.blocks) + Flatten(g.list);
    LinesAppend(h.blocks, [Para(h.para)]);
    assert LinesOf([Para(h.para)]) == h.para + LinesOf([]);
  }

  /** A bullet: finish the item before, put a pending paragraph first, open a new item. */
  function StartItem(b: Buffers, line: string): Buffers {
    var f := PushPara(FlushItem(b));
    f.(item := [line])
  }

  lemma ParagraphFlushed(b: Buffers, line: string)
    requires Ordered(b) && b.para != []
    ensures StartItem(b, line) == Buffers(b.blocks + [Para(b.para)], [], [], [line])
    ensures LinesOf(b.blocks + [Para(b.para)]) == Held(b)
  {
    LinesAppend(b.blocks, [Para(b.para)]);
    assert LinesOf([Para(b.para)]) == b.para + LinesOf([]);
    assert Held(b) == LinesOf(b.blocks) + b.para;
  }

  lemma ItemFlushed(b: Buffers, line: string)
    requires Ordered(b) && b.para == [] && b.item != []
    ensures StartItem(b, line) == Buffers(b.blocks, [], b.list + [b.item], [line])
    ensures LinesOf(b.blocks) + Flatten(b.list + [b.item]) == Held(b)
  {
    FlattenAppend(b.list, [b.item]);
    assert Flatten([b.item]) == b.item + Flatten([]);
    assert LinesOf(b.blocks) + (Flatten(b.list) + b.item) == LinesOf(b.blocks) + Flatten(b.list) + b.item;
  }

  lemma StartItemKeepsLines(b: Buffers, line: string)
    requires Ordered(b)
    ensures Ordered(StartItem(b, line)) && Held(StartItem(b, line)) == Held(b) + [line]
  {
    if b.para != [] {
      ParagraphFlushed(b, line);
    } else if b.item != [] {
      ItemFlushed(b, line);
    } else {
      assert StartItem(b, line) == Buffers(b.blocks, [], b.list, [line]);
    }
  }

  // ------------------------------------------------------------------ the loop

  /** The non-blank lines before the first block tag. */
  function Prose(lines: seq<string>): seq<string> {
    if lines == [] || IsTag(Classify(lines[0])) then []
    else (if Classify(lines[0]).BlankLine? then [] else [lines[0]]) + Prose(lines[1..])
  }

  function HasTag(lines: seq<string>): bool {
    exists l <- lines :: IsTag(Classify(l))
  }

  /** The last well-formed `@mode`, wherever it stands. */
  function LastMode(lines: seq<string>): Option<string> {
    if lines == [] then None
    else
      var k := Classify(lines[|lines| - 1]);
      if k.ModeTag? then Some(k.mode) else LastMode(lines[..|lines| - 1])
  }

  lemma {:induction false} ProseSnoc(lines: seq<string>, line: string)
    ensures Prose(lines + [line]) ==
            if HasTag(lines) || IsTag(Classify(line)) || Classify(line).BlankLine? then Prose(lines) else Prose(lines) + [line]
  {
    hide Classify;
    if lines == [] {
      assert ([line])[1..] == [];
      assert lines + [line] == [line];
    } else {
      assert (lines + [line])[1..] == lines[1..] + [line];
      if !IsTag(Classify(lines[0])) {
        ProseSnoc(lines[1..], line);
        assert forall l :: l in lines <==> l == lines[0] || l in lines[1..];
      } else {
        assert lines[0] in lines;
      }
    }
  }

  // ----------------------------------------------------------------- the grouping

  predicate EndsChunk(line: string) {
    IsTag(Classify(line)) || Classify(line).BlankLine?
  }

  predicate IsBullet(line: string) {
    Classify(line).Bullet?
  }

  predicate IsChunk(lines: seq<string>) {
    forall l <- lines :: !EndsChunk(l)
  }

  function ChunkEnd(lines: seq<string>): (n: nat)
    ensures n <= |lines| && (lines != [] && !EndsChunk(lines[0]) ==> n > 0)
  {
    if lines == [] || EndsChunk(lines[0]) then 0 else 1 + ChunkEnd(lines[1..])
  }

  /** Index of the first line satisfying `bullet`. */
  function First<T>(lines: seq<T>, bullet: T -> bool): (n: nat)
    ensures n <= |lines| && (n < |lines| ==> bullet(lines[n]))
  {
    if lines == [] || bullet(lines[0]) then 0 else 1 + First(lines[1..], bullet)
  }

  /** Each bullet opens an item, which runs to the next bullet. */
  function Items<T>(lines: seq<T>, bullet: T -> bool): (r: seq<seq<T>>)
    ensures lines != [] ==> r != []
    ensures lines != [] ==> r == ItemThen(lines, 1 + First(lines[1..], bullet), bullet)
    decreases |lines|, 1
  {
    if lines == [] then [] else ItemThen(lines, 1 + First(lines[1..], bullet), bullet)
  }

  /** An item of `n` lines, then the others. */
  function ItemThen<T>(lines: seq<T>, n: nat, bullet: T -> bool): (r: seq<seq<T>>)
    requires 0 < n <= |lines|
    ensures r != []
    decreases |lines|, 0
  {
    [lines[..n]] + Items(lines[n..], bullet)
  }

  function FirstBullet(chunk: seq<string>): (n: nat)
    ensures n <= |chunk|
  {
    First(chunk, IsBullet)
  }

  /** The lines before the first bullet are a paragraph, the rest a list. */
  function ChunkBlocks(chunk: seq<string>): seq<Block> {
    var n := FirstBullet(chunk);
    (if n > 0 then [Para(chunk[..n])] else []) + (if n < |chunk| then [List(Items(chunk[n..], IsBullet))] else [])
  }

  /** Blank lines separate the chunks, and the first block tag ends the prose. */
  function Layout(lines: seq<string>): seq<Block> {
    if lines == [] || IsTag(Classify(lines[0])) then []
    else if EndsChunk(lines[0]) then Layout(lines[1..])
    else
      var n := ChunkEnd(lines);
      ChunkBlocks(lines[..n]) + Layout(lines[n..])
  }

  lemma {:induction false} ChunkEndAt(chunk: seq<string>, rest: seq<string>)
    requires IsChunk(chunk) && (rest == [] || EndsChunk(rest[0]))
    ensures ChunkEnd(chunk + rest) == |chunk|
  {
    hide EndsChunk;
    if chunk == [] {
      assert chunk + rest == rest;
    } else {
      assert (chunk + rest)[1..] == chunk[1..] + rest && chunk[0] in chunk;
      ChunkEndAt(chunk[1..], rest);
    }
  }

  /** A chunk contributes its own blocks and nothing to the chunks around it. */
  lemma LayoutOfChunk(chunk: seq<string>, rest: seq<string>)
    requires IsChunk(chunk) && (rest == [] || EndsChunk(rest[0]))
    ensures Layout(chunk + rest) == ChunkBlocks(chunk) + Layout(rest)
  {
    hide Classify;
    if chunk == [] {
      assert chunk + rest == rest && ChunkBlocks(chunk) == [];
    } else {
      ChunkEndAt(chunk, rest);
      assert (chunk + rest)[..|chunk|] == chunk && (chunk + rest)[|chunk|..] == rest;
      assert chunk[0] in chunk && !EndsChunk(chunk[0]);
    }
  }

  lemma {:induction false} FirstSnoc<T>(lines: seq<T>, line: T, bullet: T -> bool)
    ensures First(lines + [line], bullet) ==
            if First(lines, bullet) < |lines| then First(lines, bullet) else if bullet(line) then |lines| else |lines| + 1
  {
    if lines == [] {
      assert lines + [line] == [line] && [line][1..] == [];
    } else {
      assert (lines + [line])[1..] == lines[1..] + [line];
      FirstSnoc(lines[1..], line, bullet);
    }
  }

  /** Another line of the last item. */
  function Continued<T>(items: seq<seq<T>>, line: T): seq<seq<T>>
    requires items != []
  {
    items[..|items| - 1] + [items[|items| - 1] + [line]]
  }

  lemma Snoc<T>(s: seq<T>, x: T, n: nat)
    requires n <= |s|
    ensures (s + [x])[..n] == s[..n] && (s + [x])[n..] == s[n..] + [x]
  {
  }

  lemma ContinuedBehind<T>(first: seq<T>, items: seq<seq<T>>, line: T)
    requires items != []
    ensures Continued([first] + items, line) == [first] + Continued(items, line)
  {
    assert ([first] + items)[..|items|] == [first] + items[..|items| - 1];
  }

  lemma ItemsFrom<T>(lines: seq<T>, n: nat, bullet: T -> bool)
    requires lines != [] && n == 1 + First(lines[1..], bullet)
    ensures n <= |lines| && Items(lines, bullet) == [lines[..n]] + Items(lines[n..], bullet)
  {
    hide First, Items, ItemThen;
    FirstItemThen(lines, bullet);
    ItemAndThen(lines, n, bullet);
  }

  lemma FirstItemThen<T>(lines: seq<T>, bullet: T -> bool)
    requires lines != []
    ensures 0 < 1 + First(lines[1..], bullet) <= |lines|
    ensures Items(lines, bullet) == ItemThen(lines, 1 + First(lines[1..], bullet), bullet)
  {
    hide First, Items, ItemThen;
  }

  lemma ItemAndThen<T>(lines: seq<T>, n: nat, bullet: T -> bool)
    requires 0 < n <= |lines|
    ensures ItemThen(lines, n, bullet) == [lines[..n]] + Items(lines[n..], bullet)
  {
    hide Items;
  }

  /** A bullet opens a new item, another line continues the last one. */
  lemma {:induction false} ItemsSnoc<T>(lines: seq<T>, line: T, bullet: T -> bool)
    requires lines != []
    ensures Items(lines + [line], bullet) ==
            if bullet(line) then Items(lines, bullet) + [[line]] else Continued(Items(lines, bullet), line)
  {
    hide First, Continued, Items;
    var n := 1 + First(lines[1..], bullet);
    FirstSnoc(lines[1..], line, bullet);
    Snoc(lines, line, 1);
    if n < |lines| {
      ItemsSnoc(lines[n..], line, bullet);
      Snoc(lines, line, n);
      ItemsFrom(lines, n, bullet);
      ItemsFrom(lines + [line], n, bullet);
      ContinuedBehind(lines[..n], Items(lines[n..], bullet), line);
    } else {
      LastItem(lines, line, bullet);
    }
  }

  lemma LastItem<T>(lines: seq<T>, line: T, bullet: T -> bool)
    requires lines != [] && First(lines[1..], bullet) == |lines| - 1
    ensures Items(lines + [line], bullet) ==
            if bullet(line) then Items(lines, bullet) + [[line]] else Continued(Items(lines, bullet), line)
  {
    hide First, Items, Continued;
    FirstSnoc(lines[1..], line, bullet);
    Snoc(lines, line, 1);
    WholeItem(lines, bullet);
    if bullet(line) {
      Snoc(lines, line, |lines|);
      Whole(lines);
      ItemsFrom(lines + [line], |lines|, bullet);
      OneItem(line, bullet);
    } else {
      WholeItem(lines + [line], bullet);
      ContinuedOne(lines, line);
    }
  }

  lemma Whole<T>(s: seq<T>)
    ensures s[..|s|] == s && s[|s|..] == []
  {
  }

  lemma ContinuedOne<T>(item: seq<T>, line: T)
    ensures Continued([item], line) == [item + [line]]
  {
  }

  lemma WholeItem<T>(lines: seq<T>, bullet: T -> bool)
    requires lines != [] && First(lines[1..], bullet) == |lines| - 1
    ensures Items(lines, bullet) == [lines]
  {
    hide First;
    Whole(lines);
    ItemsFrom(lines, |lines|, bullet);
  }

  lemma OneItem<T>(line: T, bullet: T -> bool)
    ensures Items([line], bullet) == [[line]]
  {
    assert [line][1..] == [];
    WholeItem([line], bullet);
  }

  lemma {:induction false} ItemsNonEmpty<T>(lines: seq<T>, bullet: T -> bool)
    ensures forall item <- Items(lines, bullet) :: item != []
  {
    if lines != [] {
      var n := 1 + First(lines[1..], bullet);
      ItemsFrom(lines, n, bullet);
      ItemsNonEmpty(lines[n..], bullet);
    }
  }

  /** The buffers with a list open, its last item under construction. */
  function Open(blocks: seq<Block>, items: seq<seq<string>>): Buffers
    requires items != []
  {
    Buffers(blocks, [], items[..|items| - 1], items[|items| - 1])
  }

  lemma OpenSteps(blocks: seq<Block>, items: seq<seq<string>>, line: string)
    requires items != [] && items[|items| - 1] != []
    ensures var b := Open(blocks, items);
            && StartItem(b, line) == Open(blocks, items + [[line]])
            && b.item != [] && b.(item := b.item + [line]) == Open(blocks, Continued(items, line))
            && FlushPara(b) == Buffers(blocks + [List(items)], [], [], [])
  {
    assert items[..|items| - 1] + [items[|items| - 1]] == items;
    assert (items + [[line]])[..|items|] == items;
  }

  /** The buffers while a chunk is being read, behind the blocks of the chunks before it. */
  function Reading(done: seq<Block>, chunk: seq<string>): Buffers {
    var n := FirstBullet(chunk);
    if n == |chunk| then Buffers(done, chunk, [], []) else Open(Introduced(done, chunk[..n]), Items(chunk[n..], IsBullet))
  }

  function Introduced(done: seq<Block>, para: seq<string>): seq<Block> {
    if para != [] then done + [Para(para)] else done
  }

  /** The first bullet of a chunk. */
  lemma FirstItem(done: seq<Block>, para: seq<string>, line: string)
    ensures StartItem(Buffers(done, para, [], []), line) == Open(Introduced(done, para), [[line]])
  {
  }

  lemma ReadLine(done: seq<Block>, chunk: seq<string>, line: string)
    ensures var b := Reading(done, chunk);
            Reading(done, chunk + [line]) ==
              if IsBullet(line) then StartItem(b, line)
              else if b.item != [] then b.(item := b.item + [line]) else b.(para := b.para + [line])
  {
    hide IsBullet, Items, Open, StartItem, Introduced, Continued;
    var n, longer := FirstBullet(chunk), chunk + [line];
    FirstSnoc(chunk, line, IsBullet);
    if n < |chunk| {
      var items := Items(chunk[n..], IsBullet);
      ItemsNonEmpty(chunk[n..], IsBullet);
      assert items[|items| - 1] in items;
      ItemsSnoc(chunk[n..], line, IsBullet);
      assert longer[n..] == chunk[n..] + [line] && longer[..n] == chunk[..n];
      OpenSteps(Introduced(done, chunk[..n]), items, line);
    } else {
      OneItem(line, IsBullet);
      FirstItem(done, chunk, line);
      assert longer[n..] == [line] && longer[..n] == chunk;
    }
  }

  lemma ReadEnd(done: seq<Block>, chunk: seq<string>)
    ensures FlushPara(Reading(done, chunk)) == Buffers(done + ChunkBlocks(chunk), [], [], [])
  {
    hide IsBullet, Items, Open;
    var n := FirstBullet(chunk);
    if n < |chunk| {
      var items := Items(chunk[n..], IsBullet);
      ItemsNonEmpty(chunk[n..], IsBullet);
      assert items[|items| - 1] in items;
      OpenSteps(Introduced(done, chunk[..n]), items, "");
    } else {
      assert chunk[..n] == chunk;
    }
  }

  /** The emitted blocks contain every non-blank line before the first block tag exactly once and in source order,
      grouped by blank lines and bullets; the mode is the last valid one anywhere in the comment. */
  method ParseLines(lines: seq<string>) returns (blocks: seq<Block>, mode: Option<string>, hasMode: bool)
    ensures LinesOf(blocks) == Prose(lines) && blocks == Layout(lines)
    ensures mode == LastMode(lines)
    ensures hasMode <==> exists l <- lines :: Classify(l).ModeTag? || Classify(l).BadModeTag?
  {
    hide Classify, Held, FlushPara, StartItem, Layout, ChunkBlocks, Reading, IsChunk, LinesOf, Prose;
    var b := Buffers([], [], [], []);
    ghost var done: seq<Block>, start := [], 0;
    ReadNothing(lines);
    mode, hasMode := None, false;
    var inTags := false;
    EmptyHeld();
    for k := 0 to |lines|
      invariant Ordered(b) && Held(b) == Prose(lines[..k])
      invariant inTags <==> HasTag(lines[..k])
      invariant inTags ==> b.para == [] && b.item == [] && b.list == [] && b.blocks == Layout(lines)
      invariant !inTags ==> start <= k && b == Reading(done, lines[start..k])
      invariant !inTags ==> IsChunk(lines[start..k]) && Layout(lines) == done + Layout(lines[start..])
      invariant mode == LastMode(lines[..k])
      invariant hasMode <==> exists l <- lines[..k] :: Classify(l).ModeTag? || Classify(l).BadModeTag?
    {
      var line := lines[k];
      var kind := Classify(line);
      assert lines[..k + 1] == lines[..k] + [line];
      assert (lines[..k] + [line])[..k] == lines[..k];
      ProseSnoc(lines[..k], line);
      FlushedHeld(b);
      ghost var chunk := if inTags then [] else lines[start..k];
      if !inTags {
        if EndsChunk(line) { ChunkRead(lines, done, start, k); } else { LineRead(lines, done, start, k); }
      }
      if IsTag(kind) {
        if kind.ModeTag? { mode := Some(kind.mode); }
        if kind.ModeTag? || kind.BadModeTag? { hasMode := true; }
        b := FlushPara(b);
        if !inTags { done := done + ChunkBlocks(chunk); }
        inTags := true;
      } else if inTags {
      } else if kind.BlankLine? {
        b := FlushPara(b);
        done, start := done + ChunkBlocks(chunk), k + 1;
      } else if kind.Bullet? {
        StartItemKeepsLines(b, line);
        b := StartItem(b, line);
      } else if b.item != [] {
        ContinueHeld(b, line);
        b := b.(item := b.item + [line]);
      } else {
        ContinueHeld(b, line);
        b := b.(para := b.para + [line]);
      }
    }
    assert lines[..|lines|] == lines;
    FlushKeepsLines(b);
    FlushedHeld(b);
    if !inTags { LastChunk(lines, done, start); }
    blocks := FlushPara(b).blocks;
  }

  lemma ReadNothing(lines: seq<string>)
    ensures Prose(lines[..0]) == [] && Reading([], lines[0..0]) == Buffers([], [], [], []) && IsChunk(lines[0..0]) && Layout(lines) == [] + Layout(lines[0..])
  {
    assert lines[0..] == lines;
  }

  /** The line ends the chunk: it is laid out, and the next line begins another. */
  lemma ChunkRead(lines: seq<string>, done: seq<Block>, start: nat, k: nat)
    requires start <= k < |lines| && IsChunk(lines[start..k]) && EndsChunk(lines[k])
    ensures var more := done + ChunkBlocks(lines[start..k]);
      && FlushPara(Reading(done, lines[start..k])) == Buffers(more, [], [], [])
      && done + Layout(lines[start..]) == (if IsTag(Classify(lines[k])) then more else more + Layout(lines[k + 1..]))
      && Reading(more, lines[k + 1..k + 1]) == Buffers(more, [], [], []) && IsChunk(lines[k + 1..k + 1])
  {
    hide Classify, FlushPara, ChunkBlocks, Layout, Reading, EndsChunk, IsChunk;
    var chunk, rest := lines[start..k], lines[k..];
    assert lines[start..] == chunk + rest && rest[0] == lines[k] && rest[1..] == lines[k + 1..] && lines[k + 1..k + 1] == [];
    LayoutOfChunk(chunk, rest);
    LayoutAtEnd(rest);
    ReadEnd(done, chunk);
    NoChunk(done + ChunkBlocks(chunk));
    var tail := if IsTag(Classify(rest[0])) then [] else Layout(rest[1..]);
    assert done + (ChunkBlocks(chunk) + tail) == (done + ChunkBlocks(chunk)) + tail;
  }

  lemma LayoutAtEnd(rest: seq<string>)
    requires rest != [] && EndsChunk(rest[0])
    ensures Layout(rest) == if IsTag(Classify(rest[0])) then [] else Layout(rest[1..])
  {
  }

  lemma NoChunk(done: seq<Block>)
    ensures Reading(done, []) == Buffers(done, [], [], []) && IsChunk([])
  {
  }

  /** The line goes on with the chunk. */
  lemma LineRead(lines: seq<string>, done: seq<Block>, start: nat, k: nat)
    requires start <= k < |lines| && IsChunk(lines[start..k]) && !EndsChunk(lines[k])
    ensures IsChunk(lines[start..k + 1])
    ensures var b, line := Reading(done, lines[start..k]), lines[k];
            Reading(done, lines[start..k + 1]) ==
              if IsBullet(line) then StartItem(b, line)
              else if b.item != [] then b.(item := b.item + [line]) else b.(para := b.para + [line])
  {
    hide Classify, Reading, StartItem;
    assert lines[start..k + 1] == lines[start..k] + [lines[k]];
    ReadLine(done, lines[start..k], lines[k]);
  }

  lemma LastChunk(lines: seq<string>, done: seq<Block>, start: nat)
    requires start <= |lines| && IsChunk(lines[start..])
    ensures FlushPara(Reading(done, lines[start..])).blocks == done + Layout(lines[start..])
  {
    hide IsChunk, ChunkBlocks, FlushPara, Reading;
    ReadEnd(done, lines[start..]);
    LayoutOfChunk(lines[start..], []);
    assert lines[start..] + [] == lines[start..];
  }

  lemma EmptyHeld()
    ensures Held(Buffers([], [], [], [])) == []
  {
  }

  lemma FlushedHeld(b: Buffers)
    requires Ordered(b)
    ensures Ordered(FlushPara(b)) && Held(FlushPara(b)) == Held(b)
    ensures FlushPara(b).para == [] && FlushPara(b).item == [] && FlushPara(b).list == []
    ensures b.para == [] && b.item == [] && b.list == [] ==> FlushPara(b) == b
  {
    FlushKeepsLines(b);
  }

  lemma ContinueHeld(b: Buffers, line: string)
    requires Ordered(b)
    ensures b.item != [] ==> Held(b.(item := b.item + [line])) == Held(b) + [line]
    ensures b.item == [] ==> Held(b.(para := b.para + [line])) == Held(b) + [line]
  {
  }

  // ------------------------------------------------------------ the rendered text

  /** The whitespace-separated words; `word` is the one being read. */
  function WordsFrom(word: string, s: string): seq<string>
    decreases s
  {
    if s == "" then if word == "" then [] else [word]
    else if IsSpace(s[0]) then (if word == "" then [] else [word]) + WordsFrom("", s[1..])
    else WordsFrom(word + [s[0]], s[1..])
  }

  function Words(s: string): seq<string> {
    WordsFrom("", s)
  }

  /** `replace(/\s+/g, ' ')`; `gap` says the previous character was whitespace. */
  function Collapse(s: string, gap: bool): string {
    if s == "" then ""
    else if IsSpace(s[0]) then (if gap then "" else " ") + Collapse(s[1..], true)
    else [s[0]] + Collapse(s[1..], false)
  }

  lemma {:induction false} WordsAfterSpace(word: string, a: string, c: char, b: string)
    requires IsSpace(c)
    ensures WordsFrom(word, a + [c] + b) == WordsFrom(word, a) + Words(b)
    decreases |a|
  {
    if a == "" {
      assert (a + [c] + b)[1..] == b;
    } else {
      assert (a + [c] + b)[1..] == a[1..] + [c] + b;
      if IsSpace(a[0]) { WordsAfterSpace("", a[1..], c, b); } else { WordsAfterSpace(word + [a[0]], a[1..], c, b); }
    }
  }

  lemma {:induction false} CollapseKeepsWords(word: string, s: string, gap: bool)
    requires gap ==> word == ""
    ensures WordsFrom(word, Collapse(s, gap)) == WordsFrom(word, s)
    decreases |s|
  {
    if s != "" {
      if IsSpace(s[0]) {
        CollapseKeepsWords("", s[1..], true);
        if !gap { assert (" " + Collapse(s[1..], true))[1..] == Collapse(s[1..], true); }
        else { assert "" + Collapse(s[1..], true) == Collapse(s[1..], true); }
      } else {
        CollapseKeepsWords(word + [s[0]], s[1..], false);
        assert ([s[0]] + Collapse(s[1..], false))[1..] == Collapse(s[1..], false);
      }
    }
  }

  lemma {:induction false} TrimStartKeepsWords(s: string)
    ensures Words(TrimStart(s)) == Words(s)
  {
    if s != "" && IsSpace(s[0]) { TrimStartKeepsWords(s[1..]); }
  }

  lemma {:induction false} TrimEndKeepsWords(s: string)
    ensures Words(TrimEnd(s)) == Words(s)
  {
    if s != "" && IsSpace(s[|s| - 1]) {
      TrimEndKeepsWords(s[..|s| - 1]);
      WordsAfterSpace("", s[..|s| - 1], s[|s| - 1], "");
      assert s[..|s| - 1] + [s[|s| - 1]] + "" == s;
    }
  }

  /** `parts.join(separator)`. */
  function JoinWith(parts: seq<string>, separator: string): string {
    if parts == [] then "" else if |parts| == 1 then parts[0] else parts[0] + separator + JoinWith(parts[1..], separator)
  }

  /** `join`: one line, single spaces, trimmed. */
  function OneLine(parts: seq<string>): string {
    Trim(Collapse(JoinWith(parts, " "), false))
  }

  function AllWords(parts: seq<string>): seq<string> {
    if parts == [] then [] else Words(parts[0]) + AllWords(parts[1..])
  }

  lemma {:induction false} JoinKeepsWords(parts: seq<string>, separator: string)
    requires separator != "" && Blank(separator)
    ensures Words(JoinWith(parts, separator)) == AllWords(parts)
  {
    if |parts| == 1 {
      assert AllWords(parts[1..]) == [];
    } else if parts != [] {
      JoinKeepsWords(parts[1..], separator);
      WordsAcross(parts[0], separator, JoinWith(parts[1..], separator));
    }
  }

  lemma {:induction false} WordsAcross(a: string, gap: string, b: string)
    requires gap != "" && Blank(gap)
    ensures Words(a + gap + b) == Words(a) + Words(b)
    decreases |gap|
  {
    var rest := gap[1..];
    assert gap[0] in gap;
    assert a + gap + b == a + [gap[0]] + (rest + b);
    WordsAfterSpace("", a, gap[0], rest + b);
    if rest == "" {
      assert rest + b == b;
    } else {
      assert forall c <- rest :: c in gap;
      WordsAcross("", rest, b);
      assert "" + rest + b == rest + b;
    }
  }

  lemma OneLineKeepsWords(parts: seq<string>)
    ensures Words(OneLine(parts)) == AllWords(parts)
  {
    JoinKeepsWords(parts, " ");
    CollapseKeepsWords("", JoinWith(parts, " "), false);
    TrimStartKeepsWords(Collapse(JoinWith(parts, " "), false));
    TrimEndKeepsWords(TrimStart(Collapse(JoinWith(parts, " "), false)));
  }

  function OneLines(items: seq<seq<string>>): seq<string> {
    if items == [] then [] else [OneLine(items[0])] + OneLines(items[1..])
  }

  function RenderBlock(b: Block): string {
    match b case Para(lines) => OneLine(lines) case List(items) => JoinWith(OneLines(items), "\n")
  }

  function RenderBlocks(blocks: seq<Block>): seq<string> {
    if blocks == [] then [] else [RenderBlock(blocks[0])] + RenderBlocks(blocks[1..])
  }

  /** The description, before `{@link X}` is unwrapped. */
  function Render(blocks: seq<Block>): string {
    JoinWith(RenderBlocks(blocks), "\n\n")
  }

  lemma {:induction false} AllWordsAppend(a: seq<string>, b: seq<string>)
    ensures AllWords(a + b) == AllWords(a) + AllWords(b)
  {
    if a == [] {
      assert a + b == b;
    } else {
      assert (a + b)[1..] == a[1..] + b;
      AllWordsAppend(a[1..], b);
    }
  }

  lemma {:induction false} OneLinesKeepWords(items: seq<seq<string>>)
    ensures AllWords(OneLines(items)) == AllWords(Flatten(items))
  {
    if items != [] {
      OneLinesKeepWords(items[1..]);
      OneLineKeepsWords(items[0]);
      AllWordsAppend(items[0], Flatten(items[1..]));
      assert OneLines(items)[1..] == OneLines(items[1..]);
    }
  }

  lemma {:induction false} RenderBlocksKeepWords(blocks: seq<Block>)
    ensures AllWords(RenderBlocks(blocks)) == AllWords(LinesOf(blocks))
  {
    if blocks != [] {
      RenderBlocksKeepWords(blocks[1..]);
      assert RenderBlocks(blocks)[1..] == RenderBlocks(blocks[1..]);
      match blocks[0]
      case Para(lines) =>
        OneLineKeepsWords(lines);
        AllWordsAppend(lines, LinesOf(blocks[1..]));
      case List(items) =>
        OneLinesKeepWords(items);
        JoinKeepsWords(OneLines(items), "\n");
        AllWordsAppend(Flatten(items), LinesOf(blocks[1..]));
    }
  }

  /** The description has the words of the prose lines, all of them, once, in order. */
  lemma DescriptionKeepsWords(lines: seq<string>, blocks: seq<Block>)
    requires LinesOf(blocks) == Prose(lines)
    ensures Words(Render(blocks)) == AllWords(Prose(lines))
  {
    RenderBlocksKeepWords(blocks);
    JoinKeepsWords(RenderBlocks(blocks), "\n\n");
  }

  // ------------------------------------------------------------------- the layout of the text

  /** A word of its own is one word; with `WordsAcross` this fixes `Words`. */
  lemma {:induction false} WordOfItsOwn(word: string, s: string)
    requires word + s != "" && forall c <- word + s :: !IsSpace(c)
    ensures WordsFrom(word, s) == [word + s]
    decreases s
  {
    if s == "" {
      assert word + s == word;
    } else {
      assert (word + s)[|word|] == s[0] && word + [s[0]] + s[1..] == word + s;
      WordOfItsOwn(word + [s[0]], s[1..]);
    }
  }

  lemma JoinFirst(word: string, words: seq<string>)
    ensures JoinWith([word] + words, " ") == if words == [] then word else word + " " + JoinWith(words, " ")
  {
    assert ([word] + words)[1..] == words;
  }

  lemma TrimEndStays(s: string)
    requires s != "" && !IsSpace(s[|s| - 1])
    ensures TrimEnd(s) == s && TrimEnd(s + " ") == s
  {
    assert (s + " ")[..|s|] == s;
  }

  lemma Regroup<T>(a: seq<T>, b: seq<T>, c: seq<T>)
    ensures a + (b + c) == (a + b) + c && a + [] == a
  {
  }

  /** One more character of a text: the next word begins or goes on. */
  lemma NextCharacter(word: string, s: string, gap: bool)
    requires s != ""
    ensures IsSpace(s[0]) ==> Collapse(s, gap) == (if gap then "" else " ") + Collapse(s[1..], true)
    ensures IsSpace(s[0]) ==> WordsFrom(word, s) == (if word == "" then [] else [word]) + Words(s[1..])
    ensures !IsSpace(s[0]) ==> Collapse(s, gap) == [s[0]] + Collapse(s[1..], false) && WordsFrom(word, s) == WordsFrom(word + [s[0]], s[1..])
  {
  }

  lemma {:induction false} InsideWord(before: string, word: string, s: string)
    requires word != "" && !IsSpace(word[|word| - 1])
    ensures TrimEnd(before + word + Collapse(s, false)) == before + JoinWith(WordsFrom(word, s), " ")
    decreases |s|, 1
  {
    var text := before + word;
    if s == "" {
      assert text + "" == text;
      TrimEndStays(text);
    } else {
      NextCharacter(word, s, false);
      hide Collapse, WordsFrom, IsSpace, TrimEnd, JoinWith;
      if IsSpace(s[0]) {
        BehindWord(text, s[1..]);
        JoinFirst(word, Words(s[1..]));
        Regroup(text, " ", Collapse(s[1..], true));
        Regroup(before, word, " " + JoinWith(Words(s[1..]), " "));
        Regroup(word, " ", JoinWith(Words(s[1..]), " "));
        Regroup(text, " ", JoinWith(Words(s[1..]), " "));
      } else {
        InsideWord(before, word + [s[0]], s[1..]);
        Regroup(text, [s[0]], Collapse(s[1..], false));
        Regroup(before, word, [s[0]]);
      }
    }
  }

  lemma {:induction false} BehindWord(before: string, s: string)
    requires before != "" && !IsSpace(before[|before| - 1])
    ensures TrimEnd(before + " " + Collapse(s, true)) == if Words(s) == [] then before else before + " " + JoinWith(Words(s), " ")
    decreases |s|, 0
  {
    if s == "" {
      assert before + " " + "" == before + " ";
      TrimEndStays(before);
    } else {
      NextCharacter("", s, true);
      if IsSpace(s[0]) {
        hide Collapse, WordsFrom, IsSpace, TrimEnd, JoinWith;
        assert "" + Collapse(s[1..], true) == Collapse(s[1..], true) && [] + Words(s[1..]) == Words(s[1..]);
        BehindWord(before, s[1..]);
      } else {
        hide Collapse, WordsFrom, IsSpace, TrimEnd, JoinWith;
        Regroup(before + " ", [s[0]], Collapse(s[1..], false));
        InsideWord(before + " ", [s[0]], s[1..]);
        SomeWord([s[0]], s[1..]);
        assert "" + [s[0]] == [s[0]];
      }
    }
  }

  lemma {:induction false} SomeWord(word: string, s: string)
    requires word != ""
    ensures WordsFrom(word, s) != []
    decreases s
  {
    if s != "" && !IsSpace(s[0]) { SomeWord(word + [s[0]], s[1..]); }
  }

  lemma {:induction false} TrimmedWords(s: string, gap: bool)
    ensures Trim(Collapse(s, gap)) == JoinWith(Words(s), " ")
  {
    if s != "" {
      var rest := Collapse(s[1..], IsSpace(s[0]));
      if IsSpace(s[0]) {
        assert ("" + rest) == rest && (" " + rest)[1..] == rest && [] + Words(s[1..]) == Words(s[1..]);
        TrimmedWords(s[1..], true);
      } else {
        InsideWord("", [s[0]], s[1..]);
        assert "" + [s[0]] == [s[0]];
      }
    }
  }

  /** A paragraph or an item is one line: its words, single-spaced. */
  lemma OneLineIsWords(parts: seq<string>)
    ensures OneLine(parts) == JoinWith(AllWords(parts), " ")
  {
    JoinKeepsWords(parts, " ");
    TrimmedWords(JoinWith(parts, " "), false);
  }

  lemma {:induction false} JoinAppend(a: seq<string>, b: seq<string>, separator: string)
    requires a != [] && b != []
    ensures JoinWith(a + b, separator) == JoinWith(a, separator) + separator + JoinWith(b, separator)
  {
    assert (a + b)[1..] == a[1..] + b;
    if |a| > 1 {
      JoinAppend(a[1..], b, separator);
      assert a[0] + separator + (JoinWith(a[1..], separator) + separator + JoinWith(b, separator))
          == (a[0] + separator + JoinWith(a[1..], separator)) + separator + JoinWith(b, separator);
    } else {
      assert a[1..] + b == b;
    }
  }

  lemma {:induction false} RenderBlocksAppend(a: seq<Block>, b: seq<Block>)
    ensures RenderBlocks(a + b) == RenderBlocks(a) + RenderBlocks(b) && |RenderBlocks(a)| == |a|
  {
    if a == [] {
      assert a + b == b;
    } else {
      hide RenderBlock;
      assert (a + b)[1..] == a[1..] + b;
      RenderBlocksAppend(a[1..], b);
    }
  }

  lemma {:induction false} OneLinesAppend(a: seq<seq<string>>, b: seq<seq<string>>)
    ensures OneLines(a + b) == OneLines(a) + OneLines(b) && |OneLines(a)| == |a|
  {
    if a == [] {
      assert a + b == b;
    } else {
      hide OneLine;
      assert (a + b)[1..] == a[1..] + b;
      OneLinesAppend(a[1..], b);
    }
  }

  /** Blocks are apart by an empty line. */
  lemma BlocksApart(a: seq<Block>, b: seq<Block>)
    requires a != [] && b != []
    ensures Render(a + b) == Render(a) + "\n\n" + Render(b)
  {
    hide RenderBlock;
    RenderBlocksAppend(a, b);
    RenderBlocksAppend(b, []);
    JoinAppend(RenderBlocks(a), RenderBlocks(b), "\n\n");
  }

  /** Items stand on lines of their own. */
  lemma ItemsApart(a: seq<seq<string>>, b: seq<seq<string>>)
    requires a != [] && b != []
    ensures Render([List(a + b)]) == Render([List(a)]) + "\n" + Render([List(b)])
  {
    hide OneLine;
    OneLinesAppend(a, b);
    OneLinesAppend(b, []);
    JoinAppend(OneLines(a), OneLines(b), "\n");
    RenderOne(List(a + b));
    RenderOne(List(a));
    RenderOne(List(b));
  }

  lemma RenderOne(b: Block)
    ensures Render([b]) == RenderBlock(b)
  {
    hide RenderBlock;
    assert RenderBlocks([b][1..]) == [];
  }

  /** One paragraph, and one item, is its words on one line. */
  lemma BlockIsWords(lines: seq<string>)
    ensures Render([Para(lines)]) == Render([List([lines])]) == JoinWith(AllWords(lines), " ")
  {
    OneLineIsWords(lines);
    RenderOne(Para(lines));
    RenderOne(List([lines]));
    assert OneLines([lines][1..]) == [];
  }
}
