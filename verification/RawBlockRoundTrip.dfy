/** What the lexer collects from a written block. */
module RawBlockRoundTrip {
  import opened IR
  import opened Text
  import opened RawBlocks
  import opened Sequences

  // ----- text and lines

  lemma FirstLine(line: string, rest: string)
    requires '\n' !in line
    ensures Split(line + "\n" + rest, '\n') == [line] + Split(rest, '\n')
  {
    assert "\n" == ['\n'];
    SplitFirst(line, '\n', rest);
  }

  lemma TextFirst(lines: seq<string>, after: string)
    requires lines != []
    ensures TextOf(lines) + after == lines[0] + "\n" + (TextOf(lines[1..]) + after)
  {
    Assoc(lines[0] + "\n", TextOf(lines[1..]), after);
  }

  lemma {:induction false} SplitText(lines: seq<string>, after: string)
    requires forall l <- lines :: '\n' !in l
    ensures Split(TextOf(lines) + after, '\n') == lines + Split(after, '\n')
    decreases |lines|
  {
    if lines == [] {
      assert "" + after == after;
    } else {
      SplitText(lines[1..], after);
      FirstLine(lines[0], TextOf(lines[1..]) + after);
      TextFirst(lines, after);
      assert lines == [lines[0]] + lines[1..];
      Assoc([lines[0]], lines[1..], Split(after, '\n'));
    }
  }

  // ----- one line of the body

  lemma SpaceDrop(s: string, y: string, n: nat)
    requires s == [' '] + y
    ensures DropIndent(s, n + 1) == DropIndent(y, n)
  {
    assert s[0] == ' ' && s[1..] == y;
  }

  /** The text behind the first space of the padding. */
  function Inner(level: nat, x: string): string
    requires level > 0
  {
    [' '] + (Pad(level - 1) + x)
  }

  lemma PadStep(level: nat, x: string)
    requires level > 0
    ensures Pad(level) + x == [' '] + Inner(level, x)
  {
  }

  lemma SpaceIndent(s: string, y: string)
    requires s == [' '] + y
    ensures LineIndent(s) == 1 + LineIndent(y)
  {
    assert s[0] == ' ' && s[1..] == y;
  }

  /** Padding indents by two columns a level, is blank, and is what unindenting takes off first. */
  lemma {:induction false} PadIndents(level: nat, x: string)
    ensures LineIndent(Pad(level) + x) == 2 * level + LineIndent(x)
    decreases level
  {
    if level == 0 {
      assert Pad(0) + x == x;
    } else {
      PadStep(level, x);
      SpaceIndent(Pad(level) + x, Inner(level, x));
      SpaceIndent(Inner(level, x), Pad(level - 1) + x);
      PadIndents(level - 1, x);
    }
  }

  lemma {:induction false} PadIsBlank(level: nat)
    ensures Blank(Pad(level))
    decreases level
  {
    if level > 0 {
      PadIsBlank(level - 1);
      BlankJoin("  ", Pad(level - 1));
    }
  }

  lemma BlankJoin(a: string, b: string)
    ensures Blank(a + b) <==> Blank(a) && Blank(b)
  {
    assert forall c <- a :: c in a + b;
    assert forall c <- b :: c in a + b;
  }

  lemma {:induction false} PadDrops(level: nat, x: string, e: nat)
    ensures DropIndent(Pad(level) + x, 2 * level + e) == DropIndent(x, e)
    decreases level
  {
    if level == 0 {
      assert Pad(0) + x == x;
    } else {
      PadStep(level, x);
      SpaceDrop(Pad(level) + x, Inner(level, x), 2 * level + e - 1);
      SpaceDrop(Inner(level, x), Pad(level - 1) + x, 2 * level + e - 2);
      PadDrops(level - 1, x, e);
    }
  }

  lemma {:induction false} PadOneLine(level: nat)
    ensures '\n' !in Pad(level)
    decreases level
  {
    if level > 0 {
      PadOneLine(level - 1);
    }
  }

  lemma BodyLineBlank(level: nat, l: string)
    ensures Blank(BodyLine(level, l)) <==> Blank(l)
    ensures !Blank(l) ==> LineIndent(BodyLine(level, l)) == 2 * level + LineIndent(l)
  {
    var s := Strip(l, LINE_END);
    StripBlank(l, LINE_END);
    PadIsBlank(level);
    BlankJoin(Pad(level), s);
    PadIndents(level, s);
    if !Blank(l) {
      IndentOfStripped(l);
    }
  }

  lemma BodyLineDropped(level: nat, l: string, e: nat)
    ensures Unindented(BodyLine(level, l), 2 * level + e) == DropIndent(Strip(l, LINE_END), e)
  {
    var s := Strip(l, LINE_END);
    StripEnds(l, LINE_END);
    if s != "" {
      assert s[|s| - 1] != '\r' by { assert LINE_END[2] == '\r'; }
      assert (Pad(level) + s)[|Pad(level) + s| - 1] == s[|s| - 1];
      PadDrops(level, s, e);
    }
  }

  lemma BodyLineOneLine(level: nat, l: string)
    requires '\n' !in l
    ensures '\n' !in BodyLine(level, l)
  {
    StripEnds(l, LINE_END);
    PadOneLine(level);
    assert forall c <- Strip(l, LINE_END) :: c in l;
  }

  // ----- the body

  lemma {:induction false} BodyAt(level: nat, ls: seq<string>, k: nat)
    requires k <= |ls|
    ensures |BodyLines(level, ls)| == |ls|
    ensures BodyLines(level, ls)[k..] == BodyLines(level, ls[k..])
    ensures k < |ls| ==> BodyLines(level, ls)[k] == BodyLine(level, ls[k])
    decreases |ls|
  {
    if ls != [] {
      BodyAt(level, ls[1..], if k == 0 then 0 else k - 1);
      if k > 0 {
        assert ls[1..][k - 1..] == ls[k..];
      } else {
        assert ls[0..] == ls;
      }
    }
  }

  lemma {:induction false} BodyOneLine(level: nat, ls: seq<string>)
    requires forall l <- ls :: '\n' !in l
    ensures forall l <- BodyLines(level, ls) :: '\n' !in l
    decreases |ls|
  {
    if ls != [] {
      BodyLineOneLine(level, ls[0]);
      BodyOneLine(level, ls[1..]);
    }
  }

  lemma {:induction false} LeadingBlankBody(level: nat, ls: seq<string>)
    ensures LeadingBlank(BodyLines(level, ls)) == LeadingBlank(ls)
    decreases |ls|
  {
    if ls != [] {
      BodyLineBlank(level, ls[0]);
      LeadingBlankBody(level, ls[1..]);
    }
  }

  lemma {:induction false} LeadingBlankJoin(a: seq<string>, b: seq<string>)
    ensures LeadingBlank(a + b) == if LeadingBlank(a) == |a| then |a| + LeadingBlank(b) else LeadingBlank(a)
    decreases |a|
  {
    if a == [] {
      assert a + b == b;
    } else {
      assert (a + b)[1..] == a[1..] + b;
      LeadingBlankJoin(a[1..], b);
    }
  }

  /** The text behind a block: its first line that is not blank is indented no deeper than the key. */
  predicate Outside(tail: seq<string>, indent: nat) {
    var k := LeadingBlank(tail);
    k < |tail| ==> LineIndent(tail[k]) <= indent
  }

  lemma {:induction false} BlockLengthBody(level: nat, ls: seq<string>, tail: seq<string>, indent: nat)
    requires indent < 2 * level
    ensures BlockLength(BodyLines(level, ls) + tail, indent) == |ls| + BlockLength(tail, indent)
    decreases |ls|
  {
    if ls == [] {
      assert [] + tail == tail;
    } else {
      var line := BodyLine(level, ls[0]);
      BodyLineBlank(level, ls[0]);
      if !Blank(line) {
        IndentOfStripped(line);
      }
      Assoc([line], BodyLines(level, ls[1..]), tail);
      TailOfCons(line, BodyLines(level, ls[1..]) + tail);
      BlockLengthBody(level, ls[1..], tail, indent);
    }
  }

  lemma {:induction false} BlockLengthOutside(tail: seq<string>, indent: nat)
    requires Outside(tail, indent)
    ensures BlockLength(tail, indent) == LeadingBlank(tail)
    decreases |tail|
  {
    if tail != [] {
      if Blank(tail[0]) {
        BlockLengthOutside(tail[1..], indent);
      } else {
        IndentOfStripped(tail[0]);
      }
    }
  }

  lemma {:induction false} UnindentedJoin(a: seq<string>, b: seq<string>, m: nat)
    ensures AllUnindented(a + b, m) == AllUnindented(a, m) + AllUnindented(b, m)
    decreases |a|
  {
    if a == [] {
      assert a + b == b;
    } else {
      assert (a + b)[1..] == a[1..] + b;
      UnindentedJoin(a[1..], b, m);
    }
  }

  lemma {:induction false} DropKeepsBlank(s: string, n: nat)
    ensures Blank(DropIndent(s, n)) <==> Blank(s)
    decreases |s|
  {
    if n > 0 && s != "" && IsIndentChar(s[0]) {
      assert s == [s[0]] + s[1..];
      DropKeepsBlank(s[1..], n - 1);
    }
  }

  lemma {:induction false} UnindentedBlank(lines: seq<string>, m: nat)
    requires forall l <- lines :: Blank(l)
    ensures forall l <- AllUnindented(lines, m) :: Blank(l)
    decreases |lines|
  {
    if lines != [] {
      StripBlank(lines[0], "\r");
      DropKeepsBlank(Strip(lines[0], "\r"), m);
      assert Blank(lines[0]);
      UnindentedBlank(lines[1..], m);
    }
  }

  lemma {:induction false} TrailingDropped(a: seq<string>, b: seq<string>)
    requires forall l <- b :: Blank(l)
    ensures WithoutTrailingBlank(a + b) == WithoutTrailingBlank(a)
    decreases |b|
  {
    if b == [] {
      assert a + b == a;
    } else {
      assert (a + b)[..|a + b| - 1] == a + b[..|b| - 1];
      assert b[|b| - 1] in b;
      TrailingDropped(a, b[..|b| - 1]);
    }
  }

  /** The content lines, right-stripped, with e more columns of indentation dropped. */
  function Dropped(ls: seq<string>, e: nat): seq<string> {
    if ls == [] then [] else [DropIndent(Strip(ls[0], LINE_END), e)] + Dropped(ls[1..], e)
  }

  lemma {:induction false} UnindentedBody(level: nat, ls: seq<string>, e: nat)
    ensures AllUnindented(BodyLines(level, ls), 2 * level + e) == Dropped(ls, e)
    decreases |ls|
  {
    if ls != [] {
      BodyLineDropped(level, ls[0], e);
      UnindentedBody(level, ls[1..], e);
      assert BodyLines(level, ls)[1..] == BodyLines(level, ls[1..]);
    }
  }

  lemma {:induction false} LeadingAreBlank(lines: seq<string>)
    ensures forall l <- lines[..LeadingBlank(lines)] :: Blank(l)
    decreases |lines|
  {
    if lines != [] && Blank(lines[0]) {
      LeadingAreBlank(lines[1..]);
      assert lines[..LeadingBlank(lines)] == [lines[0]] + lines[1..][..LeadingBlank(lines[1..])];
    }
  }

  /** The block is the body and the blank lines behind it, which leave no trace. */
  lemma BlockOf(level: nat, ls: seq<string>, tail: seq<string>, indent: nat, m: nat)
    requires indent < 2 * level && Outside(tail, indent)
    ensures (var lines := BodyLines(level, ls) + tail;
             WithoutTrailingBlank(AllUnindented(lines[..BlockLength(lines, indent)], m))
             == WithoutTrailingBlank(AllUnindented(BodyLines(level, ls), m)))
  {
    var body := BodyLines(level, ls);
    var blanks := tail[..LeadingBlank(tail)];
    BodyAt(level, ls, 0);
    BlockLengthBody(level, ls, tail, indent);
    BlockLengthOutside(tail, indent);
    LeadingAreBlank(tail);
    assert (body + tail)[..|ls| + |blanks|] == body + blanks;
    UnindentedJoin(body, blanks, m);
    UnindentedBlank(blanks, m);
    TrailingDropped(AllUnindented(body, m), AllUnindented(blanks, m));
  }

  /** Nothing is collected from blank lines in front of text outside the block. */
  lemma NothingCollected(body: seq<string>, tail: seq<string>, indent: nat)
    requires LeadingBlank(body) == |body| && Outside(tail, indent)
    ensures Collected(body + tail, indent) == None
  {
    LeadingBlankJoin(body, tail);
    var k := LeadingBlank(tail);
    assert k < |tail| ==> (body + tail)[|body| + k] == tail[k];
  }

  /** Collecting a written body: leading and trailing blank lines are lost, and the indentation of the
      first line with text is taken off every line. */
  lemma CollectedBody(level: nat, ls: seq<string>, tail: seq<string>, indent: nat)
    requires indent < 2 * level && Outside(tail, indent)
    ensures (var k := LeadingBlank(ls);
             Collected(BodyLines(level, ls) + tail, indent) ==
             if k == |ls| then None
             else Some(Join(WithoutTrailingBlank(Dropped(ls[k..], LineIndent(ls[k]))), "\n")))
  {
    var k := LeadingBlank(ls);
    LeadingBlankBody(level, ls);
    BodyAt(level, ls, k);
    if k == |ls| {
      NothingCollected(BodyLines(level, ls), tail, indent);
    } else {
      CollectedFrom(level, ls, k, tail, indent);
    }
  }

  lemma CollectedFrom(level: nat, ls: seq<string>, k: nat, tail: seq<string>, indent: nat)
    requires indent < 2 * level && Outside(tail, indent) && k == LeadingBlank(ls) < |ls|
    ensures Collected(BodyLines(level, ls) + tail, indent)
         == Some(Join(WithoutTrailingBlank(Dropped(ls[k..], LineIndent(ls[k]))), "\n"))
  {
    var rest := BodyLines(level, ls) + tail;
    var m := 2 * level + LineIndent(ls[k]);
    FirstOfBody(level, ls, k, tail);
    CollectedSome(rest, indent);
    BlockOf(level, ls[k..], tail, indent, m);
    UnindentedBody(level, ls[k..], LineIndent(ls[k]));
  }

  lemma CollectedSome(rest: seq<string>, indent: nat)
    requires var k := LeadingBlank(rest); k < |rest| && LineIndent(rest[k]) > indent
    ensures var k := LeadingBlank(rest);
            var block := rest[k..][..BlockLength(rest[k..], indent)];
            Collected(rest, indent) == Some(BlockText(block, LineIndent(rest[k])))
  {
    var k := LeadingBlank(rest);
    var n := BlockLength(rest[k..], indent);
    assert rest[k..k + n] == rest[k..][..n];
  }

  lemma FirstOfBody(level: nat, ls: seq<string>, k: nat, tail: seq<string>)
    requires k == LeadingBlank(ls) < |ls|
    ensures (var rest := BodyLines(level, ls) + tail;
             && LeadingBlank(rest) == k < |rest|
             && LineIndent(rest[k]) == 2 * level + LineIndent(ls[k])
             && rest[k..] == BodyLines(level, ls[k..]) + tail)
  {
    LeadingBlankBody(level, ls);
    LeadingBlankJoin(BodyLines(level, ls), tail);
    BodyAt(level, ls, k);
    BodyLineBlank(level, ls[k]);
  }

  // ----- content that comes back

  /** Lines without spaces, tabs or carriage returns at their ends, the first and the last with text,
      the first not indented. */
  ghost predicate Canonical(content: string) {
    var ls := Split(content, '\n');
    CanonicalLines(ls)
  }

  /** The line does not end in a blank or a carriage return. */
  predicate NothingToStrip(l: string) {
    l == "" || l[|l| - 1] !in {' ', '\t', '\r'}
  }

  lemma StripNothing(l: string)
    ensures NothingToStrip(l) <==> Strip(l, LINE_END) == l
  {
    if l != "" {
      var c := l[|l| - 1];
      assert LINE_END[0] == ' ' && LINE_END[1] == '\t' && LINE_END[2] == '\r';
      assert c in LINE_END <==> c in {' ', '\t', '\r'};
      if c in LINE_END {
        StripEnds(l[..|l| - 1], LINE_END);
      }
    }
  }

  lemma NothingToStripAny(ls: seq<string>)
    requires forall l <- ls :: Strip(l, LINE_END) == l
    ensures forall l <- ls :: NothingToStrip(l)
  {
    forall l | l in ls ensures NothingToStrip(l) {
      StripNothing(l);
    }
  }

  lemma AlreadyStripped(ls: seq<string>)
    requires forall l <- ls :: NothingToStrip(l)
    ensures forall l <- ls :: Strip(l, LINE_END) == l
  {
    forall l | l in ls ensures Strip(l, LINE_END) == l {
      StripNothing(l);
    }
  }

  ghost predicate CanonicalLines(ls: seq<string>) {
    && ls != []
    && (forall l <- ls :: NothingToStrip(l))
    && !Blank(ls[0]) && ls[0][0] != ' ' && ls[0][0] != '\t'
    && !Blank(ls[|ls| - 1])
  }

  predicate EndsWith(s: string, end: string) {
    |end| <= |s| && s[|s| - |end|..] == end
  }

  lemma EndsLonger(x: string, y: string, end: string)
    requires EndsWith(y, end)
    ensures EndsWith(x + y, end)
  {
    assert (x + y)[|x|..] == y;
    assert (x + y)[|x + y| - |end|..] == y[|y| - |end|..];
  }

  lemma {:induction false} JoinLast(ls: seq<string>, sep: string)
    requires ls != []
    ensures EndsWith(Join(ls, sep), ls[|ls| - 1])
    decreases |ls|
  {
    if |ls| > 1 {
      JoinLast(ls[1..], sep);
      EndsLonger(ls[0] + sep, Join(ls[1..], sep), ls[|ls| - 1]);
    }
  }

  lemma {:induction false} DroppedNothing(ls: seq<string>)
    requires forall l <- ls :: Strip(l, LINE_END) == l
    ensures Dropped(ls, 0) == ls
    decreases |ls|
  {
    if ls != [] {
      assert ls[0] in ls;
      DroppedNothing(ls[1..]);
    }
  }

  lemma CanonicalComesBack(level: nat, content: string, tail: seq<string>, indent: nat)
    requires indent < 2 * level && Outside(tail, indent) && Canonical(content)
    ensures Collected(Body(level, content) + tail, indent) == Some(content)
  {
    var ls := Split(content, '\n');
    CanonicalUnstripped(content);
    CollectedBody(level, ls, tail, indent);
    AlreadyStripped(ls);
    DroppedNothing(ls);
    assert ls[0..] == ls;
    JoinOfSplit(content, '\n');
    assert "\n" == ['\n'];
  }

  lemma LastLine(s: string) returns (last: string)
    ensures (var ls := Split(s, '\n'); last == ls[|ls| - 1] && last in ls)
    ensures '\n' !in last && EndsWith(s, last)
  {
    var ls := Split(s, '\n');
    last := ls[|ls| - 1];
    JoinLast(ls, ['\n']);
    JoinOfSplit(s, '\n');
    SplitPieces(s, '\n');
  }

  lemma CanonicalUnstripped(content: string)
    requires Canonical(content)
    ensures content != "" && Strip(content, TEXT_END) == content
  {
    var last := LastLine(content);
    LastCharacter(last);
    EndsAlike(content, last);
  }

  lemma EndsAlike(s: string, end: string)
    requires end != "" && EndsWith(s, end)
    requires end[|end| - 1] !in TEXT_END
    ensures s != "" && Strip(s, TEXT_END) == s
  {
    assert s[|s| - 1] == s[|s| - |end|..][|end| - 1];
  }

  lemma LastCharacter(last: string)
    requires !Blank(last) && Strip(last, LINE_END) == last && '\n' !in last
    ensures last != "" && last[|last| - 1] !in TEXT_END
  {
    StripEnds(last, LINE_END);
    var c := last[|last| - 1];
    assert c in last;
    assert TEXT_END == [' ', '\t', '\n', '\r'] && LINE_END == [' ', '\t', '\r'];
  }

  lemma {:induction false} DropLeavesEnd(s: string, n: nat)
    requires s == "" || s[|s| - 1] !in LINE_END
    ensures Strip(DropIndent(s, n), LINE_END) == DropIndent(s, n)
    ensures forall c <- DropIndent(s, n) :: c in s
    decreases |s|
  {
    if n > 0 && s != "" && IsIndentChar(s[0]) {
      DropLeavesEnd(s[1..], n - 1);
    }
  }

  lemma {:induction false} DroppedClean(ls: seq<string>, e: nat)
    requires forall l <- ls :: '\n' !in l
    ensures |Dropped(ls, e)| == |ls|
    ensures forall l <- Dropped(ls, e) :: Strip(l, LINE_END) == l && '\n' !in l
    decreases |ls|
  {
    if ls != [] {
      StripEnds(ls[0], LINE_END);
      DropLeavesEnd(Strip(ls[0], LINE_END), e);
      assert forall c <- Strip(ls[0], LINE_END) :: c in ls[0];
      DroppedClean(ls[1..], e);
    }
  }

  lemma {:induction false} DropAll(s: string)
    requires !Blank(s)
    ensures (var d := DropIndent(s, LineIndent(s)); !Blank(d) && d != "" && !IsIndentChar(d[0]))
    decreases |s|
  {
    if IsIndentChar(s[0]) {
      assert s == [s[0]] + s[1..];
      DropAll(s[1..]);
    }
  }

  lemma {:induction false} TrailingKeepsFirst(lines: seq<string>)
    requires lines != [] && !Blank(lines[0])
    ensures (var r := WithoutTrailingBlank(lines);
             r != [] && r <= lines && r[0] == lines[0] && !Blank(r[|r| - 1]))
    decreases |lines|
  {
    if Blank(lines[|lines| - 1]) {
      TrailingKeepsFirst(lines[..|lines| - 1]);
    }
  }

  lemma FirstLineText(l: string)
    requires !Blank(l)
    ensures var first := DropIndent(Strip(l, LINE_END), LineIndent(l)); !Blank(first) && first[0] != ' ' && first[0] != '\t'
  {
    IndentOfStripped(l);
    StripBlank(l, LINE_END);
    DropAll(Strip(l, LINE_END));
  }

  /** What is collected from lines that start with text is canonical. */
  lemma OutIsCanonical(ls: seq<string>)
    requires ls != [] && !Blank(ls[0]) && forall l <- ls :: '\n' !in l
    ensures (var out := WithoutTrailingBlank(Dropped(ls, LineIndent(ls[0])));
             CanonicalLines(out) && forall l <- out :: '\n' !in l)
  {
    var dropped := Dropped(ls, LineIndent(ls[0]));
    DroppedClean(ls, LineIndent(ls[0]));
    NothingToStripAny(dropped);
    FirstLineText(ls[0]);
    TrailingKeepsFirst(dropped);
    assert forall l <- WithoutTrailingBlank(dropped) :: l in dropped;
  }

  lemma ComesBackCanonical(level: nat, content: string, tail: seq<string>, indent: nat)
    requires indent < 2 * level && Outside(tail, indent)
    requires Collected(Body(level, content) + tail, indent) == Some(content)
    ensures Canonical(content)
  {
    var stripped := Strip(content, TEXT_END);
    NothingCollected([], tail, indent);
    if stripped != "" {
      var ls := Split(stripped, '\n');
      var k := LeadingBlank(ls);
      CollectedBody(level, ls, tail, indent);
      SplitPieces(stripped, '\n');
      assert forall l <- ls[k..] :: l in ls;
      OutIsCanonical(ls[k..]);
      LinesComeBack(WithoutTrailingBlank(Dropped(ls[k..], LineIndent(ls[k]))));
    }
  }

  lemma LinesComeBack(out: seq<string>)
    requires CanonicalLines(out) && forall l <- out :: '\n' !in l
    ensures Canonical(Join(out, "\n"))
  {
    assert "\n" == ['\n'];
    SplitJoin(out, '\n');
  }

  /** A document: some lines, a written block, and text behind it. */
  function Document(pre: seq<string>, level: nat, key: string, content: string, after: string): string {
    TextOf(pre) + (TextOf([KeyLine(level, key)] + Body(level + 1, content)) + after)
  }

  /** A written block, with any lines before it and text outside the block behind it, is collected
      verbatim exactly when its content is canonical. */
  lemma BlockRoundTrip(pre: seq<string>, level: nat, key: string, content: string, after: string)
    requires (forall l <- pre :: '\n' !in l) && '\n' !in key
    requires Outside(Split(after, '\n'), 2 * level)
    ensures (var lines := Split(Document(pre, level, key, content, after), '\n');
             && |pre| < |lines| && lines[|pre|] == KeyLine(level, key)
             && (Collected(lines[|pre| + 1..], 2 * level) == Some(content) <==> Canonical(content)))
  {
    var tail := Split(after, '\n');
    BlockLines(pre, level, key, content, after);
    Behind(pre, KeyLine(level, key), Body(level + 1, content) + tail);
    ComesBackExactly(level + 1, content, tail, 2 * level);
  }

  lemma ComesBackExactly(level: nat, content: string, tail: seq<string>, indent: nat)
    requires indent < 2 * level && Outside(tail, indent)
    ensures Collected(Body(level, content) + tail, indent) == Some(content) <==> Canonical(content)
  {
    if Canonical(content) {
      CanonicalComesBack(level, content, tail, indent);
    }
    if Collected(Body(level, content) + tail, indent) == Some(content) {
      ComesBackCanonical(level, content, tail, indent);
    }
  }

  lemma Behind(pre: seq<string>, line: string, rest: seq<string>)
    ensures (var lines := pre + ([line] + rest); lines[|pre|] == line && lines[|pre| + 1..] == rest)
  {
  }

  lemma BlockLines(pre: seq<string>, level: nat, key: string, content: string, after: string)
    requires (forall l <- pre :: '\n' !in l) && '\n' !in key
    ensures Split(Document(pre, level, key, content, after), '\n')
         == pre + ([KeyLine(level, key)] + (Body(level + 1, content) + Split(after, '\n')))
  {
    var block := [KeyLine(level, key)] + Body(level + 1, content);
    BlockOneLine(level, key, content);
    SplitText(block, after);
    SplitText(pre, TextOf(block) + after);
    Assoc([KeyLine(level, key)], Body(level + 1, content), Split(after, '\n'));
  }

  lemma BlockOneLine(level: nat, key: string, content: string)
    requires '\n' !in key
    ensures forall l <- [KeyLine(level, key)] + Body(level + 1, content) :: '\n' !in l
  {
    PadOneLine(level);
    StripEnds(key + ":", " \t");
    assert forall c <- Strip(key + ":", " \t") :: c in key + ":";
    var stripped := Strip(content, TEXT_END);
    SplitPieces(stripped, '\n');
    BodyOneLine(level + 1, Split(stripped, '\n'));
  }

  /** The key stands at two columns for each level, so the block behind it is looked for at that depth. */
  lemma KeyLineIndent(level: nat, key: string)
    requires key != "" && !IsIndentChar(key[0])
    ensures LineIndent(KeyLine(level, key)) == 2 * level
  {
    assert Strip(key + ":", " \t") == key + ":" by {
      assert (key + ":")[|key|] == ':';
    }
    PadIndents(level, key + ":");
  }

  /** The indentation consists of spaces. */
  lemma {:induction false} PadSpaces(level: nat)
    ensures |Pad(level)| == 2 * level && forall c <- Pad(level) :: c == ' '
  {
    if level > 0 {
      PadSpaces(level - 1);
    }
  }
}
