/** Quoted strings in DOT text, as the exporter writes them (export/dot.go) and as the lexer of the
    migration (migrate/dot_parser.go) reads them and the tokens around them. */
module DotLexer {
  import opened Sequences

  // ----- writing

  predicate IsDotEscapeChar(c: char) {
    c == 'n' || c == 'l' || c == 'r'
  }

  /** A backslash directly in front of n, l or r stays as it is; other backslashes and quotes are escaped. */
  function QuoteBody(s: string): string
    decreases |s|
  {
    if s == "" then ""
    else if s[0] == '"' then "\\\"" + QuoteBody(s[1..])
    else if s[0] != '\\' then [s[0]] + QuoteBody(s[1..])
    else if |s| > 1 && IsDotEscapeChar(s[1]) then ['\\', s[1]] + QuoteBody(s[2..])
    else "\\\\" + QuoteBody(s[1..])
  }

  function DotQuote(s: string): string {
    "\"" + QuoteBody(s) + "\""
  }

  /** Writes one character, or an escape sequence whole; next is the index of the last one written. */
  method DotQuoteChar(b: string, s: string, i: nat) returns (out: string, next: nat)
    requires i < |s|
    ensures i <= next < |s|
    ensures out + QuoteBody(s[next + 1..]) == b + QuoteBody(s[i..])
  {
    var ch := s[i];
    assert s[i..][1..] == s[i + 1..];
    if ch == '"' {
      return b + "\\\"", i;
    }
    if ch != '\\' {
      return b + [ch], i;
    }
    if i + 1 < |s| && IsDotEscapeChar(s[i + 1]) {
      assert s[i..][2..] == s[i + 2..];
      return b + ['\\'] + [s[i + 1]], i + 1;
    }
    return b + "\\\\", i;
  }

  method WriteDotQuote(s: string) returns (r: string)
    ensures r == DotQuote(s)
  {
    var b := "\"";
    var i := 0;
    assert s[0..] == s;
    while i < |s|
      invariant 0 <= i <= |s|
      invariant b + QuoteBody(s[i..]) == "\"" + QuoteBody(s)
    {
      var next;
      b, next := DotQuoteChar(b, s, i);
      i := next + 1;
    }
    assert s[|s|..] == "";
    r := b + "\"";
  }

  /** Newlines become a backslash and an n. */
  function EscapeNewlines(s: string): string {
    if s == "" then ""
    else (if s[0] == '\n' then ['\\', 'n'] else [s[0]]) + EscapeNewlines(s[1..])
  }

  // ----- reading a string

  function Unescape(c: char): string {
    if c == '"' then "\""
    else if c == '\\' then "\\"
    else if c == 'n' || c == 'l' then "\n"
    else if c == 'r' then ""
    else ['\\', c]
  }

  /** The string behind its opening quote, and what follows its closing quote. */
  function ReadBody(s: string): (r: (string, string))
    ensures |r.1| <= |s|
    decreases |s|
  {
    if s == "" then ("", "")
    else if s[0] == '"' then ("", s[1..])
    else if s[0] == '\\' && |s| > 1 then
      var r := ReadBody(s[2..]);
      (Unescape(s[1]) + r.0, r.1)
    else
      var r := ReadBody(s[1..]);
      ([s[0]] + r.0, r.1)
  }

  // ----- what a string becomes on the way

  /** A backslash directly followed by n, l or r. */
  predicate HasEscapePair(s: string) {
    exists i | 0 <= i < |s| - 1 :: s[i] == '\\' && s[i + 1] in {'n', 'l', 'r'}
  }

  /** The string with such pairs read as escapes. */
  function Unpaired(s: string): string
    decreases |s|
  {
    if s == "" then ""
    else if s[0] == '\\' && |s| > 1 && IsDotEscapeChar(s[1]) then Unescape(s[1]) + Unpaired(s[2..])
    else [s[0]] + Unpaired(s[1..])
  }

  lemma ReadEscape(c: char, tail: string)
    ensures ReadBody(['\\', c] + tail) == (Unescape(c) + ReadBody(tail).0, ReadBody(tail).1)
  {
    assert (['\\', c] + tail)[2..] == tail;
  }

  lemma ReadOther(c: char, tail: string)
    requires c != '"' && c != '\\'
    ensures ReadBody([c] + tail) == ([c] + ReadBody(tail).0, ReadBody(tail).1)
  {
    assert ([c] + tail)[1..] == tail;
  }

  /** Reading a written string gives the string with its escape pairs read, and stops behind the
      closing quote. */
  lemma {:induction false} ReadQuoted(s: string, rest: string)
    ensures ReadBody(QuoteBody(s) + ("\"" + rest)) == (Unpaired(s), rest)
    decreases |s|
  {
    var end := "\"" + rest;
    if s == "" {
      assert "" + end == end && end[1..] == rest;
    } else if s[0] == '"' {
      ReadQuoted(s[1..], rest);
      Assoc("\\\"", QuoteBody(s[1..]), end);
      assert "\\\"" == ['\\', '"'];
      ReadEscape('"', QuoteBody(s[1..]) + end);
    } else if s[0] != '\\' {
      ReadQuoted(s[1..], rest);
      Assoc([s[0]], QuoteBody(s[1..]), end);
      ReadOther(s[0], QuoteBody(s[1..]) + end);
    } else if |s| > 1 && IsDotEscapeChar(s[1]) {
      ReadQuoted(s[2..], rest);
      Assoc(['\\', s[1]], QuoteBody(s[2..]), end);
      ReadEscape(s[1], QuoteBody(s[2..]) + end);
    } else {
      ReadQuoted(s[1..], rest);
      Assoc("\\\\", QuoteBody(s[1..]), end);
      assert "\\\\" == ['\\', '\\'];
      ReadEscape('\\', QuoteBody(s[1..]) + end);
    }
  }

  lemma PairFront(s: string)
    requires s != ""
    ensures HasEscapePair(s) <==>
            (s[0] == '\\' && |s| > 1 && IsDotEscapeChar(s[1])) || HasEscapePair(s[1..])
  {
    if HasEscapePair(s) && !(s[0] == '\\' && |s| > 1 && IsDotEscapeChar(s[1])) {
      var i :| 0 <= i < |s| - 1 && s[i] == '\\' && IsDotEscapeChar(s[i + 1]);
      assert s[1..][i - 1] == '\\' && IsDotEscapeChar(s[1..][i - 1 + 1]);
    }
    if HasEscapePair(s[1..]) {
      var i :| 0 <= i < |s| - 2 && s[1..][i] == '\\' && IsDotEscapeChar(s[1..][i + 1]);
      assert s[i + 1] == '\\' && IsDotEscapeChar(s[i + 1 + 1]);
    }
  }

  lemma {:induction false} UnpairedShrinks(s: string)
    ensures |Unpaired(s)| <= |s|
    ensures HasEscapePair(s) ==> |Unpaired(s)| < |s|
    ensures !HasEscapePair(s) ==> Unpaired(s) == s
    decreases |s|
  {
    if s != "" {
      PairFront(s);
      if s[0] == '\\' && |s| > 1 && IsDotEscapeChar(s[1]) {
        UnpairedShrinks(s[2..]);
      } else {
        UnpairedShrinks(s[1..]);
        assert s == [s[0]] + s[1..];
      }
    }
  }

  /** Writing a string and reading it back is the identity exactly for strings without a backslash
      directly followed by n, l or r. */
  lemma QuoteRoundTrip(s: string, rest: string)
    ensures ReadBody(QuoteBody(s) + ("\"" + rest)) == (s, rest) <==> !HasEscapePair(s)
  {
    ReadQuoted(s, rest);
    UnpairedShrinks(s);
  }

  lemma {:induction false} NewlinesUnpaired(s: string)
    ensures Unpaired(EscapeNewlines(s)) == Unpaired(s)
    decreases |s|
  {
    if s != "" {
      NewlinesUnpaired(s[1..]);
      var e, tail := EscapeNewlines(s), EscapeNewlines(s[1..]);
      if s[0] == '\n' {
        assert e[2..] == tail;
      } else {
        assert e[1..] == tail;
        if |s| > 1 {
          EscapedFront(s[1..]);
          if s[0] == '\\' && IsDotEscapeChar(s[1]) {
            NewlinesUnpaired(s[2..]);
            assert s[1..][1..] == s[2..];
            assert e[2..] == EscapeNewlines(s[2..]);
          }
        }
      }
    }
  }

  lemma EscapedFront(s: string)
    requires s != ""
    ensures EscapeNewlines(s) != ""
    ensures EscapeNewlines(s)[0] == if s[0] == '\n' then '\\' else s[0]
    ensures s[0] != '\n' ==> EscapeNewlines(s)[1..] == EscapeNewlines(s[1..])
  {
  }

  /** The same holds when newlines are escaped first, as for prompts and commands. */
  lemma EscapedRoundTrip(s: string, rest: string)
    ensures ReadBody(QuoteBody(EscapeNewlines(s)) + ("\"" + rest)) == (s, rest) <==> !HasEscapePair(s)
  {
    ReadQuoted(EscapeNewlines(s), rest);
    NewlinesUnpaired(s);
    UnpairedShrinks(s);
  }

  // ----- tokens

  datatype Kind = EOF | ID | Str | LBrace | RBrace | LBrack | RBrack | Equals | Semicolon | Comma | Arrow

  datatype Token = Token(kind: Kind, val: string)

  predicate IsPunct(c: char) {
    c in {'{', '}', '[', ']', '=', ';', ','}
  }

  function PunctKind(c: char): Kind
    requires IsPunct(c)
  {
    match c
    case '{' => LBrace
    case '}' => RBrace
    case '[' => LBrack
    case ']' => RBrack
    case '=' => Equals
    case ';' => Semicolon
    case _ => Comma
  }

  predicate IsWhitespace(c: char) {
    c == ' ' || c == '\t' || c == '\n' || c == '\r'
  }

  predicate IsIdStart(c: char) {
    'a' <= c <= 'z' || 'A' <= c <= 'Z' || c == '_'
  }

  predicate IsIdOrDigitStart(c: char) {
    IsIdStart(c) || '0' <= c <= '9'
  }

  predicate IsIdCont(c: char) {
    IsIdOrDigitStart(c) || c == '.'
  }

  function IdLength(s: string): (n: nat)
    ensures n <= |s|
  {
    if s == "" || !IsIdCont(s[0]) then 0 else 1 + IdLength(s[1..])
  }

  /** From the first newline on. */
  function BehindLine(s: string): (r: string)
    ensures |r| <= |s|
  {
    if s == "" || s[0] == '\n' then s else BehindLine(s[1..])
  }

  /** Behind the closing star and slash; without one, the last character is all that is left. */
  function BehindBlock(s: string): (r: string)
    ensures |r| <= |s|
  {
    if |s| < 2 then s else if s[0] == '*' && s[1] == '/' then s[2..] else BehindBlock(s[1..])
  }

  function Skip(s: string): (r: string)
    ensures |r| <= |s|
    decreases |s|
  {
    if s == "" then s
    else if IsWhitespace(s[0]) then Skip(s[1..])
    else if |s| > 1 && s[0] == '/' && s[1] == '/' then Skip(BehindLine(s[2..]))
    else if |s| > 1 && s[0] == '/' && s[1] == '*' then Skip(BehindBlock(s[2..]))
    else s
  }

  /** The next token and what is left behind it. */
  function NextToken(s: string): (r: (Token, string))
    ensures |r.1| <= |s|
    ensures r.0.kind == Equals ==> |r.1| < |s|
  {
    var t := Skip(s);
    if t == "" then (Token(EOF, ""), t)
    else if IsPunct(t[0]) then (Token(PunctKind(t[0]), [t[0]]), t[1..])
    else if |t| > 1 && t[0] == '-' && t[1] == '>' then (Token(Arrow, "->"), t[2..])
    else if t[0] == '"' then var r := ReadBody(t[1..]); (Token(Str, r.0), r.1)
    else if t[0] == '-' || IsIdOrDigitStart(t[0]) then
      var n := IdLength(t); (Token(ID, t[..n]), t[n..])
    else (Token(ID, [t[0]]), t[1..])
  }

  class Lexer {
    const input: string
    var pos: nat

    ghost predicate Valid()
      reads this
    {
      pos <= |input|
    }

    ghost function Rest(): string
      requires Valid()
      reads this
    {
      input[pos..]
    }

    constructor (input: string)
      ensures Valid() && Rest() == input
    {
      this.input := input;
      pos := 0;
    }

    method Advance() returns (ch: char)
      requires Valid() && Rest() != ""
      modifies this
      ensures Valid() && ch == old(Rest()[0]) && Rest() == old(Rest()[1..])
    {
      ch := input[pos];
      pos := pos + 1;
    }

    method SkipLineComment()
      requires Valid() && |Rest()| > 1
      modifies this
      ensures Valid() && Rest() == BehindLine(old(Rest()[2..]))
    {
      pos := pos + 2;
      assert Rest() == old(Rest()[2..]);
      while pos < |input| && input[pos] != '\n'
        invariant Valid() && BehindLine(Rest()) == BehindLine(old(Rest()[2..]))
      {
        assert Rest()[1..] == input[pos + 1..];
        pos := pos + 1;
      }
    }

    method SkipBlockComment()
      requires Valid() && |Rest()| > 1
      modifies this
      ensures Valid() && Rest() == BehindBlock(old(Rest()[2..]))
    {
      pos := pos + 2;
      assert Rest() == old(Rest()[2..]);
      while pos + 1 < |input|
        invariant Valid() && BehindBlock(Rest()) == BehindBlock(old(Rest()[2..]))
      {
        assert Rest()[1..] == input[pos + 1..] && Rest()[2..] == input[pos + 2..];
        if input[pos] == '*' && input[pos + 1] == '/' {
          pos := pos + 2;
          return;
        }
        pos := pos + 1;
      }
    }

    method TrySkipComment() returns (skipped: bool)
      requires Valid() && Rest() != "" && !IsWhitespace(Rest()[0])
      modifies this
      ensures Valid() && Skip(Rest()) == old(Skip(Rest()))
      ensures skipped ==> |Rest()| < |old(Rest())|
      ensures !skipped ==> Rest() == old(Rest()) == Skip(Rest())
    {
      if pos + 1 >= |input| || input[pos] != '/' {
        return false;
      }
      if input[pos + 1] == '/' {
        SkipLineComment();
        return true;
      }
      if input[pos + 1] == '*' {
        SkipBlockComment();
        return true;
      }
      return false;
    }

    method SkipWhitespace()
      requires Valid()
      modifies this
      ensures Valid() && Rest() == Skip(old(Rest()))
    {
      while pos < |input|
        invariant Valid() && Skip(Rest()) == Skip(old(Rest()))
        decreases |Rest()|
      {
        if IsWhitespace(input[pos]) {
          assert Rest()[1..] == input[pos + 1..];
          pos := pos + 1;
          continue;
        }
        var skipped := TrySkipComment();
        if skipped { continue; }
        break;
      }
    }

    method ReadID() returns (t: Token)
      requires Valid()
      modifies this
      ensures Valid()
      ensures (var s := old(Rest()); t == Token(ID, s[..IdLength(s)]) && Rest() == s[IdLength(s)..])
    {
      var start := pos;
      while pos < |input| && IsIdCont(input[pos])
        invariant start <= pos <= |input|
        invariant pos - start + IdLength(input[pos..]) == IdLength(input[start..])
      {
        assert input[pos..][1..] == input[pos + 1..];
        pos := pos + 1;
      }
      assert input[start..pos] == input[start..][..pos - start];
      assert Rest() == input[start..][pos - start..];
      t := Token(ID, input[start..pos]);
    }

    method WriteEscapeChar(b: string) returns (out: string)
      requires Valid() && Rest() != ""
      modifies this
      ensures Valid() && out == b + Unescape(old(Rest()[0])) && Rest() == old(Rest()[1..])
    {
      var next := Advance();
      if next in {'"', '\\', 'n', 'l', 'r'} {
        if next != 'r' {
          return b + [if next == 'n' || next == 'l' then '\n' else next];
        }
        return b;
      }
      return b + ['\\'] + [next];
    }

    method ReadString() returns (t: Token)
      requires Valid() && Rest() != ""
      modifies this
      ensures Valid()
      ensures (var r := ReadBody(old(Rest()[1..])); t == Token(Str, r.0) && Rest() == r.1)
    {
      var _ := Advance();
      var b := "";
      ghost var whole := ReadBody(Rest());
      assert "" + whole.0 == whole.0;
      while pos < |input|
        invariant Valid()
        invariant whole == (b + ReadBody(Rest()).0, ReadBody(Rest()).1)
      {
        ghost var before := Rest();
        ghost var b0 := b;
        var ch := Advance();
        if ch == '"' {
          return Token(Str, b);
        }
        if ch == '\\' && pos < |input| {
          b := WriteEscapeChar(b);
          assert Rest() == before[2..];
          Assoc(b0, Unescape(before[1]), ReadBody(Rest()).0);
          continue;
        }
        b := b + [ch];
        Assoc(b0, [ch], ReadBody(Rest()).0);
      }
      t := Token(Str, b);
    }

    method LexDashOrArrow() returns (t: Token)
      requires Valid() && Rest() != "" && Rest()[0] == '-' && Skip(Rest()) == Rest()
      modifies this
      ensures Valid() && (t, Rest()) == NextToken(old(Rest()))
    {
      if pos + 1 < |input| && input[pos + 1] == '>' {
        pos := pos + 2;
        assert Rest() == old(Rest())[2..];
        return Token(Arrow, "->");
      }
      t := ReadID();
    }

    method LexNonPunct(ch: char) returns (t: Token)
      requires Valid() && Rest() != "" && Rest()[0] == ch && Skip(Rest()) == Rest() && !IsPunct(ch)
      modifies this
      ensures Valid() && (t, Rest()) == NextToken(old(Rest()))
    {
      if ch == '-' {
        t := LexDashOrArrow();
        return;
      }
      if ch == '"' {
        t := ReadString();
        return;
      }
      if IsIdOrDigitStart(ch) {
        t := ReadID();
        return;
      }
      var _ := Advance();
      t := Token(ID, [ch]);
    }

    method Next() returns (t: Token)
      requires Valid()
      modifies this
      ensures Valid() && (t, Rest()) == NextToken(old(Rest()))
    {
      ghost var s := Rest();
      SkipWhitespace();
      SkipTwice(s);
      if pos >= |input| {
        return Token(EOF, "");
      }
      var ch := input[pos];
      if IsPunct(ch) {
        var _ := Advance();
        return Token(PunctKind(ch), [ch]);
      }
      t := LexNonPunct(ch);
    }
  }

  lemma {:induction false} SkipTwice(s: string)
    ensures Skip(Skip(s)) == Skip(s)
    decreases |s|
  {
    if s == "" {
    } else if IsWhitespace(s[0]) {
      SkipTwice(s[1..]);
    } else if |s| > 1 && s[0] == '/' && s[1] == '/' {
      SkipTwice(BehindLine(s[2..]));
    } else if |s| > 1 && s[0] == '/' && s[1] == '*' {
      SkipTwice(BehindBlock(s[2..]));
    }
  }
}
