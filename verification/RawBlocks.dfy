/** Multiline fields of a workflow file: written as an indented block (formatter/format.go) and
    collected again by the lexer (parser/lexer.go), which also keeps the indentation stack. */
module RawBlocks {
  import opened IR
  import opened Text
  import opened Sequences

  // ----- lines

  /** Without the given characters at its end. */
  function Strip(s: string, cut: string): string {
    if s != "" && s[|s| - 1] in cut then Strip(s[..|s| - 1], cut) else s
  }

  predicate IsIndentChar(c: char) {
    c == ' ' || c == '\t'
  }

  /** The number of spaces and tabs in front. */
  function LineIndent(line: string): (n: nat)
    ensures n <= |line|
  {
    if line != "" && IsIndentChar(line[0]) then 1 + LineIndent(line[1..]) else 0
  }

  predicate Blank(line: string) {
    forall c <- line :: IsSpace(c)
  }

  const LINE_END := " \t\r"
  const TEXT_END := " \t\n\r"

  lemma {:induction false} TrimLeftBlank(s: string)
    ensures Blank(s) <==> TrimLeft(s) == ""
    ensures Blank(TrimLeft(s)) <==> Blank(s)
    decreases |s|
  {
    if s != "" {
      assert s == [s[0]] + s[1..];
      if IsSpace(s[0]) {
        TrimLeftBlank(s[1..]);
      } else {
        assert s[0] in s;
      }
    }
  }

  lemma {:induction false} TrimRightBlank(s: string)
    ensures Blank(s) <==> TrimRight(s) == ""
    decreases |s|
  {
    if s != "" {
      var last := s[|s| - 1];
      assert s == s[..|s| - 1] + [last];
      if IsSpace(last) {
        TrimRightBlank(s[..|s| - 1]);
      } else {
        assert last in s;
      }
    }
  }

  lemma TrimSpaceBlank(s: string)
    ensures Blank(s) <==> TrimSpace(s) == ""
  {
    TrimLeftBlank(s);
    TrimRightBlank(TrimLeft(s));
  }

  lemma {:induction false} StripBlank(s: string, cut: string)
    requires Blank(cut)
    ensures Blank(Strip(s, cut)) <==> Blank(s)
    decreases |s|
  {
    if s != "" && s[|s| - 1] in cut {
      assert s == s[..|s| - 1] + [s[|s| - 1]];
      StripBlank(s[..|s| - 1], cut);
    }
  }

  lemma {:induction false} StripEnds(s: string, cut: string)
    ensures Strip(s, cut) <= s
    ensures Strip(s, cut) == "" || Strip(s, cut)[|Strip(s, cut)| - 1] !in cut
    decreases |s|
  {
    if s != "" && s[|s| - 1] in cut {
      StripEnds(s[..|s| - 1], cut);
    }
  }

  /** Stripping the end of a line that is not blank leaves its indentation. */
  lemma {:induction false} IndentOfStripped(line: string)
    requires !Blank(line)
    ensures LineIndent(Strip(line, LINE_END)) == LineIndent(line)
    decreases |line|
  {
    if line[|line| - 1] in LINE_END {
      var front := line[..|line| - 1];
      assert line == front + [line[|line| - 1]];
      IndentOfStripped(front);
      IndentExtends(front, [line[|line| - 1]]);
    }
  }

  lemma {:induction false} IndentExtends(front: string, tail: string)
    requires !Blank(front)
    ensures LineIndent(front + tail) == LineIndent(front)
    decreases |front|
  {
    assert (front + tail)[0] == front[0] && (front + tail)[1..] == front[1..] + tail;
    if IsIndentChar(front[0]) {
      assert front == [front[0]] + front[1..];
      IndentExtends(front[1..], tail);
    }
  }

  // ----- writing a block

  function Pad(level: nat): string {
    if level == 0 then "" else "  " + Pad(level - 1)
  }

  /** One line of a block; empty lines are not indented. */
  function BodyLine(level: nat, l: string): string {
    var stripped := Strip(l, LINE_END);
    if stripped == "" then "" else Pad(level) + stripped
  }

  function BodyLines(level: nat, ls: seq<string>): seq<string> {
    if ls == [] then [] else [BodyLine(level, ls[0])] + BodyLines(level, ls[1..])
  }

  /** The lines under the key, for content that is not all stripped away. */
  function Body(level: nat, content: string): seq<string> {
    var stripped := Strip(content, TEXT_END);
    if stripped == "" then [] else BodyLines(level, Split(stripped, '\n'))
  }

  /** Lines as text, each with its newline. */
  function TextOf(lines: seq<string>): string {
    if lines == [] then "" else lines[0] + "\n" + TextOf(lines[1..])
  }

  function KeyLine(level: nat, key: string): string {
    Pad(level) + Strip(key + ":", " \t")
  }

  class Writer {
    var buf: string
    var indent: nat

    constructor ()
      ensures buf == "" && indent == 0
    {
      buf, indent := "", 0;
    }

    method Line(text: string)
      modifies `buf
      ensures buf == old(buf) + (Pad(indent) + Strip(text, " \t") + "\n")
    {
      var content := Strip(text, " \t");
      var prefix := Pad(indent);
      buf := buf + prefix;
      buf := buf + content;
      buf := buf + "\n";
    }

    method BlankLine()
      modifies `buf
      ensures buf == old(buf) + "\n"
    {
      buf := buf + "\n";
    }

    method WriteBodyLine(text: string)
      modifies `buf
      ensures buf == old(buf) + (BodyLine(indent, text) + "\n")
    {
      var l := Strip(text, LINE_END);
      if l == "" {
        BlankLine();
      } else {
        StrippedTwice(text);
        Line(l);
      }
    }

    method MultilineBlock(key: string, content: string)
      modifies this
      ensures indent == old(indent)
      ensures buf == old(buf) + TextOf([KeyLine(indent, key)] + Body(indent + 1, content))
    {
      ghost var before := buf;
      ghost var keyLine := KeyLine(indent, key);
      Line(key + ":");
      var text := Strip(content, TEXT_END);
      if text == "" {
        FirstThen(before, keyLine, []);
        return;
      }
      indent := indent + 1;
      var ls := Split(text, '\n');
      FirstThen(before, keyLine, BodyLines(indent, ls[..0]));
      for i := 0 to |ls|
        invariant indent == old(indent) + 1
        invariant buf == before + TextOf([keyLine] + BodyLines(indent, ls[..i]))
      {
        WriteBodyLine(ls[i]);
        BodySnoc(before, keyLine, indent, ls, i);
      }
      assert ls[..|ls|] == ls;
      indent := indent - 1;
    }
  }

  lemma FirstThen(before: string, line: string, rest: seq<string>)
    requires rest == []
    ensures before + TextOf([line] + rest) == before + (line + "\n")
  {
    OneLine(line, rest);
    assert line + "\n" + "" == line + "\n";
  }

  lemma OneLine(line: string, rest: seq<string>)
    ensures TextOf([line] + rest) == line + "\n" + TextOf(rest)
  {
    assert ([line] + rest)[1..] == rest;
  }

  lemma StrippedTwice(l: string)
    ensures Strip(Strip(l, LINE_END), " \t") == Strip(l, LINE_END)
  {
    StripEnds(l, LINE_END);
    var s := Strip(l, LINE_END);
    if s != "" {
      assert s[|s| - 1] !in LINE_END;
      assert ' ' == LINE_END[0] && '\t' == LINE_END[1];
    }
  }

  lemma {:induction false} TextOfJoin(a: seq<string>, b: seq<string>)
    ensures TextOf(a + b) == TextOf(a) + TextOf(b)
    decreases |a|
  {
    if a == [] {
      assert a + b == b;
    } else {
      assert (a + b)[1..] == a[1..] + b;
      TextOfJoin(a[1..], b);
      assert a[0] + "\n" + (TextOf(a[1..]) + TextOf(b)) == (a[0] + "\n" + TextOf(a[1..])) + TextOf(b);
    }
  }

  lemma {:induction false} BodyLinesJoin(level: nat, a: seq<string>, b: seq<string>)
    ensures BodyLines(level, a + b) == BodyLines(level, a) + BodyLines(level, b)
    decreases |a|
  {
    if a == [] {
      assert a + b == b;
    } else {
      assert (a + b)[1..] == a[1..] + b;
      BodyLinesJoin(level, a[1..], b);
    }
  }

  lemma BodySnoc(before: string, keyLine: string, level: nat, ls: seq<string>, i: nat)
    requires i < |ls|
    ensures before + TextOf([keyLine] + BodyLines(level, ls[..i + 1]))
         == before + TextOf([keyLine] + BodyLines(level, ls[..i])) + (BodyLine(level, ls[i]) + "\n")
  {
    var done := [keyLine] + BodyLines(level, ls[..i]);
    var line := BodyLine(level, ls[i]);
    assert ls[..i + 1] == ls[..i] + [ls[i]];
    BodyLinesJoin(level, ls[..i], [ls[i]]);
    assert [ls[i]][1..] == [];
    assert BodyLines(level, [ls[i]]) == [line];
    assert [keyLine] + BodyLines(level, ls[..i + 1]) == done + [line];
    TextOfJoin(done, [line]);
    OneText(line);
    assert before + (TextOf(done) + (line + "\n")) == before + TextOf(done) + (line + "\n");
  }

  lemma OneText(line: string)
    ensures TextOf([line]) == line + "\n"
  {
    assert [line] + [] == [line];
    OneLine(line, []);
    assert line + "\n" + "" == line + "\n";
  }

  // ----- collecting a block, from the lines behind its key

  function LeadingBlank(lines: seq<string>): (n: nat)
    ensures n <= |lines|
    ensures n < |lines| ==> !Blank(lines[n])
  {
    if lines == [] || !Blank(lines[0]) then 0 else 1 + LeadingBlank(lines[1..])
  }

  predicate EndsBlock(line: string, indent: nat) {
    !Blank(line) && LineIndent(Strip(line, LINE_END)) <= indent
  }

  function BlockLength(lines: seq<string>, indent: nat): (n: nat)
    ensures n <= |lines|
  {
    if lines == [] || EndsBlock(lines[0], indent) then 0 else 1 + BlockLength(lines[1..], indent)
  }

  function DropIndent(s: string, n: nat): string {
    if n == 0 || s == "" || !IsIndentChar(s[0]) then s else DropIndent(s[1..], n - 1)
  }

  function Unindented(line: string, indent: nat): string {
    DropIndent(Strip(line, "\r"), indent)
  }

  function AllUnindented(lines: seq<string>, indent: nat): seq<string> {
    if lines == [] then [] else [Unindented(lines[0], indent)] + AllUnindented(lines[1..], indent)
  }

  function WithoutTrailingBlank(lines: seq<string>): seq<string> {
    if lines != [] && Blank(lines[|lines| - 1]) then WithoutTrailingBlank(lines[..|lines| - 1]) else lines
  }

  function BlockText(lines: seq<string>, indent: nat): string {
    Join(WithoutTrailingBlank(AllUnindented(lines, indent)), "\n")
  }

  /** The raw text under a key with the given indentation, if there is a block. */
  function Collected(rest: seq<string>, indent: nat): Option<string> {
    var k := LeadingBlank(rest);
    if k == |rest| || LineIndent(rest[k]) <= indent then None
    else
      var n := BlockLength(rest[k..], indent);
      Some(BlockText(rest[k..k + n], LineIndent(rest[k])))
  }

  datatype Token = Indent | Outdent | Newline | RawBlock(value: string)

  /** Indents minus outdents. */
  function Balance(tokens: seq<Token>): int {
    if tokens == [] then 0
    else
      var t := tokens[|tokens| - 1];
      Balance(tokens[..|tokens| - 1]) + if t.Indent? then 1 else if t.Outdent? then -1 else 0
  }

  lemma BalanceSnoc(tokens: seq<Token>, t: Token)
    ensures Balance(tokens + [t]) == Balance(tokens) + if t.Indent? then 1 else if t.Outdent? then -1 else 0
  {
    assert (tokens + [t])[..|tokens|] == tokens;
  }

  ghost predicate Increasing(stack: seq<nat>) {
    forall i, j | 0 <= i < j < |stack| :: stack[i] < stack[j]
  }

  class Lexer {
    const lines: seq<string>
    var indentStack: seq<nat>
    var tokens: seq<Token>

    /** The stack starts at column zero and grows; every level on it has its indent token. */
    ghost predicate Valid()
      reads this
    {
      && indentStack != [] && indentStack[0] == 0 && Increasing(indentStack)
      && Balance(tokens) == |indentStack| - 1
    }

    constructor (input: string)
      ensures Valid() && lines == Split(input, '\n') && tokens == []
    {
      lines := Split(input, '\n');
      indentStack := [0];
      tokens := [];
    }

    method Emit(t: Token)
      modifies `tokens
      ensures tokens == old(tokens) + [t]
      ensures Balance(tokens) == old(Balance(tokens)) + if t.Indent? then 1 else if t.Outdent? then -1 else 0
    {
      BalanceSnoc(tokens, t);
      tokens := tokens + [t];
    }

    /** Deeper lines open one level, shallower ones close the levels deeper than they are; then no
        level on the stack is deeper than the line. */
    method EmitIndentTokens(indent: nat)
      requires Valid()
      modifies this
      ensures Valid()
      ensures indentStack[|indentStack| - 1] <= indent
      ensures indent > old(indentStack[|indentStack| - 1]) ==>
        indentStack == old(indentStack) + [indent] && tokens == old(tokens) + [Indent]
      ensures indent <= old(indentStack[|indentStack| - 1]) ==>
        && indentStack <= old(indentStack)
        && (forall i | |indentStack| <= i < |old(indentStack)| :: old(indentStack)[i] > indent)
        && |tokens| == |old(tokens)| + |old(indentStack)| - |indentStack|
        && old(tokens) <= tokens && forall i | |old(tokens)| <= i < |tokens| :: tokens[i] == Outdent
    {
      var currIndent := indentStack[|indentStack| - 1];
      if indent > currIndent {
        indentStack := indentStack + [indent];
        Emit(Indent);
        return;
      }
      while indent < currIndent && |indentStack| > 1
        invariant Valid() && currIndent == indentStack[|indentStack| - 1]
        invariant indentStack <= old(indentStack) && old(tokens) <= tokens
        invariant forall i | |indentStack| <= i < |old(indentStack)| :: old(indentStack)[i] > indent
        invariant |tokens| == |old(tokens)| + |old(indentStack)| - |indentStack|
        invariant forall i | |old(tokens)| <= i < |tokens| :: tokens[i] == Outdent
        decreases |indentStack|
      {
        indentStack := indentStack[..|indentStack| - 1];
        Emit(Outdent);
        currIndent := indentStack[|indentStack| - 1];
      }
    }

    /** At the end every indent has its outdent. */
    method EmitRemainingOutdents()
      requires Valid()
      modifies this
      ensures Valid() && indentStack == [0] && Balance(tokens) == 0
    {
      while |indentStack| > 1
        invariant Valid()
        decreases |indentStack|
      {
        indentStack := indentStack[..|indentStack| - 1];
        Emit(Outdent);
      }
    }

    method FindNextContentLine(start: nat) returns (idx: nat)
      requires start <= |lines|
      ensures idx == start + LeadingBlank(lines[start..])
    {
      idx := start;
      while idx < |lines|
        invariant start <= idx <= |lines|
        invariant idx + LeadingBlank(lines[idx..]) == start + LeadingBlank(lines[start..])
      {
        assert lines[idx..][1..] == lines[idx + 1..];
        var nl := Strip(lines[idx], LINE_END);
        StripBlank(lines[idx], LINE_END);
        TrimSpaceBlank(nl);
        if |TrimSpace(nl)| != 0 {
          return;
        }
        idx := idx + 1;
      }
    }

    method FindBlockEnd(start: nat, indent: nat) returns (blockEnd: nat)
      requires start <= |lines|
      ensures blockEnd == start + BlockLength(lines[start..], indent)
    {
      blockEnd := start;
      while blockEnd < |lines|
        invariant start <= blockEnd <= |lines|
        invariant blockEnd + BlockLength(lines[blockEnd..], indent) == start + BlockLength(lines[start..], indent)
      {
        assert lines[blockEnd..][1..] == lines[blockEnd + 1..];
        var blTrimmed := Strip(lines[blockEnd], LINE_END);
        StripBlank(lines[blockEnd], LINE_END);
        TrimSpaceBlank(blTrimmed);
        if |TrimSpace(blTrimmed)| == 0 {
          blockEnd := blockEnd + 1;
          continue;
        }
        if LineIndent(blTrimmed) <= indent {
          break;
        }
        blockEnd := blockEnd + 1;
      }
    }

    method ExtractRawBlock(startIdx: nat, endIdx: nat, indent: nat) returns (r: string)
      requires startIdx <= endIdx <= |lines|
      ensures r == BlockText(lines[startIdx..endIdx], indent)
    {
      var result: seq<string> := [];
      for i := startIdx to endIdx
        invariant result + AllUnindented(lines[i..endIdx], indent) == AllUnindented(lines[startIdx..endIdx], indent)
      {
        assert lines[i..endIdx][1..] == lines[i + 1..endIdx];
        var stripped := StripIndentPrefix(lines[i], indent);
        Regroup(result, stripped, AllUnindented(lines[i + 1..endIdx], indent));
        result := result + [stripped];
      }
      assert result + [] == result;
      r := TrimTrailingBlankLines(result);
    }

    method TryCollectBlock(i: nat, indent: nat) returns (blockEnd: nat, ok: bool)
      requires Valid() && i < |lines|
      modifies `tokens
      ensures Valid()
      ensures match Collected(lines[i + 1..], indent)
              case None => !ok && tokens == old(tokens)
              case Some(text) => ok && i < blockEnd <= |lines|
                                 && tokens == old(tokens) + [Newline, RawBlock(text), Newline]
    {
      var nextContentLine := FindNextContentLine(i + 1);
      CollectedAt(lines, i, nextContentLine, indent);
      if nextContentLine >= |lines| {
        return 0, false;
      }
      var nextIndent := LineIndent(lines[nextContentLine]);
      if nextIndent <= indent {
        return 0, false;
      }
      blockEnd := FindBlockEnd(nextContentLine, indent);
      var rawText := ExtractRawBlock(nextContentLine, blockEnd, nextIndent);
      EmitBlock(rawText);
      ok := true;
    }

    method EmitBlock(text: string)
      requires Valid()
      modifies `tokens
      ensures Valid() && tokens == old(tokens) + [Newline, RawBlock(text), Newline]
    {
      Emit(Newline);
      Emit(RawBlock(text));
      Emit(Newline);
    }
  }

  /** The collected text, in terms of positions in the file. */
  lemma CollectedAt(lines: seq<string>, i: nat, next: nat, indent: nat)
    requires i < |lines| && next == i + 1 + LeadingBlank(lines[i + 1..])
    ensures next == |lines| || LineIndent(lines[next]) <= indent ==> Collected(lines[i + 1..], indent) == None
    ensures next < |lines| && LineIndent(lines[next]) > indent ==>
      var end := next + BlockLength(lines[next..], indent);
      Collected(lines[i + 1..], indent)
      == Some(BlockText(lines[next..end], LineIndent(lines[next])))
  {
    var rest := lines[i + 1..];
    var k := LeadingBlank(rest);
    assert rest[k..] == lines[next..];
    if next < |lines| {
      assert rest[k] == lines[next];
      var n := BlockLength(rest[k..], indent);
      assert rest[k..k + n] == lines[next..next + n];
    }
  }

  method StripIndentPrefix(text: string, indent: nat) returns (r: string)
    ensures r == Unindented(text, indent)
  {
    var line := Strip(text, "\r");
    var j := 0;
    assert line[0..] == line;
    while j < |line| && j < indent && IsIndentChar(line[j])
      invariant 0 <= j <= |line| && j <= indent
      invariant DropIndent(line[j..], indent - j) == DropIndent(line, indent)
    {
      assert line[j..][1..] == line[j + 1..];
      j := j + 1;
    }
    r := line[j..];
  }

  method TrimTrailingBlankLines(ls: seq<string>) returns (r: string)
    ensures r == Join(WithoutTrailingBlank(ls), "\n")
  {
    var lines := ls;
    while |lines| > 0 && TrimSpace(lines[|lines| - 1]) == ""
      invariant WithoutTrailingBlank(lines) == WithoutTrailingBlank(ls)
      decreases |lines|
    {
      TrimSpaceBlank(lines[|lines| - 1]);
      lines := lines[..|lines| - 1];
    }
    if |lines| > 0 {
      TrimSpaceBlank(lines[|lines| - 1]);
    }
    r := Join(lines, "\n");
  }
}
