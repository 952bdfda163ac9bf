/** What every piece of DOT text is read as: blanks, comments, punctuation, arrows, names and strings. */
module DotTokens {
  import opened Sequences
  import opened Text
  import opened DotLexer
  import opened DotAttributes

  /** White space in front of a token is skipped. */
  lemma BlankSkipped(c: char, tail: string)
    requires c in {' ', '\t', '\n', '\r'}
    ensures NextToken([c] + tail) == NextToken(tail)
  {
    assert ([c] + tail)[1..] == tail;
    assert Skip([c] + tail) == Skip(tail);
  }

  lemma {:induction false} LineRuns(text: string, tail: string)
    requires '\n' !in text && (tail == "" || tail[0] == '\n')
    ensures BehindLine(text + tail) == tail
    decreases |text|
  {
    if text == "" {
      assert text + tail == tail;
    } else {
      assert (text + tail)[1..] == text[1..] + tail;
      LineRuns(text[1..], tail);
    }
  }

  /** So is a comment up to the end of its line or of the text. */
  lemma LineCommentSkipped(text: string, tail: string)
    requires '\n' !in text && (tail == "" || tail[0] == '\n')
    ensures NextToken("//" + text + tail) == NextToken(tail)
  {
    var s := "//" + text + tail;
    assert s[0] == '/' && s[1] == '/' && s[2..] == text + tail;
    LineRuns(text, tail);
    assert Skip(s) == Skip(tail);
  }

  lemma FrontAhead(text: string, tail: string)
    requires text != ""
    ensures var s := text + "*/" + tail; |s| > 1 && (s[0] == '*' && s[1] == '/' ==> Within("*/", text + "*"))
  {
    var t := text + "*";
    WithinMore("*/", 'x', t);
    assert |t| > 1 && t[0] == '*' && t[1] == '/' ==> t[..2] == "*/" && "*/" <= t;
  }

  lemma {:induction false} BlockRuns(text: string, tail: string)
    requires !Within("*/", text + "*")
    ensures BehindBlock(text + "*/" + tail) == tail
    decreases |text|
  {
    var s := text + "*/" + tail;
    if text == "" {
      assert s[0] == '*' && s[1] == '/' && s[2..] == tail;
    } else {
      assert s[0] == text[0] && s[1..] == text[1..] + "*/" + tail;
      WithinMore("*/", text[0], text[1..] + "*");
      assert text + "*" == [text[0]] + (text[1..] + "*");
      FrontAhead(text, tail);
      BlockRuns(text[1..], tail);
    }
  }

  /** And a comment up to its first closing mark. */
  lemma BlockCommentSkipped(text: string, tail: string)
    requires !Within("*/", text + "*")
    ensures NextToken("/*" + text + "*/" + tail) == NextToken(tail)
  {
    var s := "/*" + text + "*/" + tail;
    assert s[0] == '/' && s[1] == '*' && s[2..] == text + "*/" + tail;
    BlockRuns(text, tail);
    assert Skip(s) == Skip(tail);
  }

  /** Which punctuation stands for which token. */
  lemma PunctuationRead(tail: string)
    ensures NextToken("{" + tail) == (Token(LBrace, "{"), tail)
    ensures NextToken("}" + tail) == (Token(RBrace, "}"), tail)
    ensures NextToken("[" + tail) == (Token(LBrack, "["), tail)
    ensures NextToken("]" + tail) == (Token(RBrack, "]"), tail)
    ensures NextToken("=" + tail) == (Token(Equals, "="), tail)
    ensures NextToken(";" + tail) == (Token(Semicolon, ";"), tail)
    ensures NextToken("," + tail) == (Token(Comma, ","), tail)
    ensures NextToken("->" + tail) == (Token(Arrow, "->"), tail)
    ensures NextToken("") == (Token(EOF, ""), "")
  {
    assert ("{" + tail)[1..] == tail && ("}" + tail)[1..] == tail;
    assert ("[" + tail)[1..] == tail && ("]" + tail)[1..] == tail;
    assert ("=" + tail)[1..] == tail && (";" + tail)[1..] == tail && ("," + tail)[1..] == tail;
    assert ("->" + tail)[2..] == tail;
  }

  /** A character that names are made of: a letter, a digit, an underscore or a dot. */
  predicate InName(c: char) {
    'a' <= c <= 'z' || 'A' <= c <= 'Z' || '0' <= c <= '9' || c == '_' || c == '.'
  }

  /** A name is read up to the next character of another kind; it does not begin with a dot. */
  lemma NameRead(name: string, tail: string)
    requires name != "" && name[0] != '.' && forall c <- name :: InName(c)
    requires tail == "" || !InName(tail[0])
    ensures NextToken(name + tail) == (Token(ID, name), tail)
  {
    var s := name + tail;
    assert s[0] == name[0] && name[0] in name;
    assert Skip(s) == s;
    IdRuns(name, tail);
    assert s[..|name|] == name && s[|name|..] == tail;
  }

  /** What the characters behind a backslash stand for inside a string: quotes and backslashes for themselves, n
      and l for a newline, r for nothing; any other keeps its backslash. */
  lemma EscapesRead(c: char, tail: string)
    ensures ReadBody("\\\"" + tail) == ("\"" + ReadBody(tail).0, ReadBody(tail).1)
    ensures ReadBody("\\\\" + tail) == ("\\" + ReadBody(tail).0, ReadBody(tail).1)
    ensures ReadBody(['\\', 'n'] + tail) == ("\n" + ReadBody(tail).0, ReadBody(tail).1)
    ensures ReadBody(['\\', 'l'] + tail) == ("\n" + ReadBody(tail).0, ReadBody(tail).1)
    ensures ReadBody(['\\', 'r'] + tail) == ReadBody(tail)
    ensures c !in {'"', '\\', 'n', 'l', 'r'} ==> ReadBody(['\\', c] + tail) == (['\\', c] + ReadBody(tail).0, ReadBody(tail).1)
  {
    assert "\\\"" == ['\\', '"'] && "\\\\" == ['\\', '\\'];
    ReadEscape('"', tail);
    ReadEscape('\\', tail);
    ReadEscape('n', tail);
    ReadEscape('l', tail);
    ReadEscape('r', tail);
    ReadEscape(c, tail);
    assert "" + ReadBody(tail).0 == ReadBody(tail).0;
  }

  /** Any other character of a string stands for itself, up to the closing quote. */
  lemma StringRead(c: char, tail: string)
    requires c != '"' && c != '\\'
    ensures NextToken("\"" + tail) == (Token(Str, ReadBody(tail).0), ReadBody(tail).1)
    ensures ReadBody("\"" + tail) == ("", tail)
    ensures ReadBody([c] + tail) == ([c] + ReadBody(tail).0, ReadBody(tail).1)
  {
    assert ("\"" + tail)[1..] == tail;
    assert Skip("\"" + tail) == "\"" + tail;
    ReadOther(c, tail);
  }
}
