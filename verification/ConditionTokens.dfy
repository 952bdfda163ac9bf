/** What every piece of condition text is read as: blanks, quoted text, operators and words. The cases cover
    all texts. */
module ConditionTokens {
  import opened Conditions
  import opened ConditionFormat

  /** A blank is skipped. */
  lemma BlankRead(c: char, rest: string)
    requires c == ' ' || c == '\t'
    ensures TokensIn([c] + rest) == TokensIn(rest)
  {
    assert ([c] + rest)[1..] == rest;
  }

  lemma {:induction false} QuoteRuns(q: char, text: string, rest: string)
    requires q !in text && (rest == "" || rest[0] == q)
    ensures UpTo(q, text + rest) == |text|
    decreases |text|
  {
    if text == "" {
      assert text + rest == rest;
    } else {
      assert (text + rest)[1..] == text[1..] + rest;
      QuoteRuns(q, text[1..], rest);
    }
  }

  /** Text between two quotes of one kind is one token, and so is everything behind a quote that is not closed. */
  lemma QuotedRead(q: char, text: string, rest: string)
    requires (q == '"' || q == '\'') && q !in text
    ensures TokensIn([q] + text + [q] + rest) == [text] + TokensIn(rest)
    ensures TokensIn([q] + text) == [text]
  {
    var s := [q] + text + [q] + rest;
    assert s[1..] == text + ([q] + rest);
    QuoteRuns(q, text, [q] + rest);
    assert s[1..1 + |text|] == text && s[|text| + 2..] == rest;
    var open := [q] + text;
    assert open[1..] == text + "";
    QuoteRuns(q, text, "");
    assert open[1..1 + |text|] == text && open[|text| + 1..] == "";
  }

  /** An operator character is an operator of its own, or together with an equals sign behind it. */
  lemma OperatorRead(c: char, rest: string)
    requires c in {'=', '!', '<', '>'}
    ensures TokensIn([c] + rest) ==
            if rest != "" && rest[0] == '=' then [[c, '=']] + TokensIn(rest[1..]) else [[c]] + TokensIn(rest)
  {
    var s := [c] + rest;
    assert s[0] == c && s[1..] == rest;
    if rest != "" {
      assert s[..2] == [c, rest[0]];
      assert s[2..] == rest[1..];
    }
    assert s[..1] == [c];
  }

  /** What ends a word. */
  predicate Separates(c: char) {
    c in {' ', '\t', '=', '!', '<', '>'}
  }

  /** Anything else runs up to the next blank or operator character. */
  lemma WordRead(word: string, rest: string)
    requires word != "" && word[0] != '"' && word[0] != '\''
    requires forall c <- word :: !Separates(c)
    requires rest == "" || Separates(rest[0])
    ensures TokensIn(word + rest) == [word] + TokensIn(rest)
  {
    var s := word + rest;
    assert s[0] == word[0] && word[0] in word;
    WordRuns(word, rest);
    assert s[..|word|] == word && s[|word|..] == rest;
  }
}
