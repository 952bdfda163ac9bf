/** Reading condition text (simulate/condition.go): a tokenizer and a recursive-descent parser, against
    a grammar given by its derivations. */
module Conditions {
  import opened IR
  import opened Text
  import opened Sequences

  // ----- tokens

  predicate IsQuote(c: char) {
    c == '"' || c == '\''
  }

  predicate IsOperatorChar(c: char) {
    c == '=' || c == '!' || c == '<' || c == '>'
  }

  predicate IsBlank(c: char) {
    c == ' ' || c == '\t'
  }

  predicate IsWordBreak(c: char) {
    IsBlank(c) || IsOperatorChar(c)
  }

  predicate TwoCharOperator(s: string) {
    s == "==" || s == "!=" || s == "<=" || s == ">="
  }

  /** The length of the longest prefix without the quote character. */
  function UpTo(quote: char, s: string): (n: nat)
    ensures n <= |s|
  {
    if s == "" || s[0] == quote then 0 else 1 + UpTo(quote, s[1..])
  }

  function WordLength(s: string): (n: nat)
    ensures n <= |s|
  {
    if s == "" || IsWordBreak(s[0]) then 0 else 1 + WordLength(s[1..])
  }

  /** The token at the front of a text that does not start with a blank, and how much of the text it takes. */
  function FirstToken(s: string): (r: (string, nat))
    requires s != "" && !IsBlank(s[0])
    ensures 0 < r.1 <= |s|
  {
    if IsQuote(s[0]) then
      var n := UpTo(s[0], s[1..]);
      (s[1..1 + n], if 1 + n < |s| then n + 2 else n + 1)
    else if IsOperatorChar(s[0]) then
      var n := if |s| > 1 && TwoCharOperator(s[..2]) then 2 else 1;
      (s[..n], n)
    else
      var n := WordLength(s);
      (s[..n], n)
  }

  function TokensIn(s: string): seq<string>
    decreases |s|
  {
    if s == "" then []
    else if IsBlank(s[0]) then TokensIn(s[1..])
    else
      var r := FirstToken(s);
      [r.0] + TokensIn(s[r.1..])
  }

  /** The blanks at the front. */
  function Blanks(s: string): (n: nat)
    ensures n <= |s|
    ensures n < |s| ==> !IsBlank(s[n])
  {
    if s == "" || !IsBlank(s[0]) then 0 else 1 + Blanks(s[1..])
  }

  lemma {:induction false} SkipBlanks(s: string)
    ensures TokensIn(s) == TokensIn(s[Blanks(s)..])
    decreases |s|
  {
    if s != "" && IsBlank(s[0]) {
      SkipBlanks(s[1..]);
      assert s[1..][Blanks(s[1..])..] == s[Blanks(s)..];
    } else {
      assert s[0..] == s;
    }
  }

  method SkipCondWhitespace(raw: string, start: nat) returns (i: nat)
    requires start <= |raw|
    ensures i == start + Blanks(raw[start..]) <= |raw|
    ensures i < |raw| ==> !IsBlank(raw[i])
  {
    i := start;
    while i < |raw| && IsBlank(raw[i])
      invariant start <= i <= |raw|
      invariant i + Blanks(raw[i..]) == start + Blanks(raw[start..])
    {
      assert raw[i..][1..] == raw[i + 1..];
      i := i + 1;
    }
  }

  method TryTokenizeQuotedCond(raw: string, at: nat) returns (token: string, consumed: nat)
    requires at < |raw| && !IsBlank(raw[at])
    ensures consumed == 0 <==> !IsQuote(raw[at])
    ensures consumed > 0 ==> (token, consumed) == FirstToken(raw[at..])
  {
    if !IsQuote(raw[at]) {
      return "", 0;
    }
    var quote := raw[at];
    var i := at + 1;
    var start := i;
    assert raw[at..][1..] == raw[start..];
    while i < |raw| && raw[i] != quote
      invariant start <= i <= |raw|
      invariant i + UpTo(quote, raw[i..]) == start + UpTo(quote, raw[start..])
    {
      assert raw[i..][1..] == raw[i + 1..];
      i := i + 1;
    }
    token := raw[start..i];
    assert token == raw[at..][1..1 + (i - start)];
    if i < |raw| {
      i := i + 1;
    }
    consumed := i - (start - 1);
  }

  method TryTokenizeOperatorCond(raw: string, i: nat) returns (token: string, consumed: nat)
    requires i < |raw| && !IsBlank(raw[i]) && !IsQuote(raw[i])
    ensures consumed == 0 <==> !IsOperatorChar(raw[i])
    ensures consumed > 0 ==> (token, consumed) == FirstToken(raw[i..])
  {
    if !IsOperatorChar(raw[i]) {
      return "", 0;
    }
    assert i + 1 < |raw| ==> raw[i..][..2] == raw[i..i + 2];
    if i + 1 < |raw| && TwoCharOperator(raw[i..i + 2]) {
      return raw[i..i + 2], 2;
    }
    assert raw[i..][..1] == [raw[i]];
    return [raw[i]], 1;
  }

  method TryTokenizeWordCond(raw: string, start: nat) returns (token: string, consumed: nat)
    requires start < |raw| && !IsBlank(raw[start]) && !IsQuote(raw[start]) && !IsOperatorChar(raw[start])
    ensures (token, consumed) == FirstToken(raw[start..])
  {
    var i := start;
    while i < |raw| && !IsWordBreak(raw[i])
      invariant start <= i <= |raw|
      invariant i + WordLength(raw[i..]) == start + WordLength(raw[start..])
    {
      assert raw[i..][1..] == raw[i + 1..];
      i := i + 1;
    }
    assert raw[start..i] == raw[start..][..i - start];
    token, consumed := raw[start..i], i - start;
  }

  method TokenizeOne(raw: string, i: nat) returns (token: string, consumed: nat)
    requires i < |raw| && !IsBlank(raw[i])
    ensures (token, consumed) == FirstToken(raw[i..])
  {
    token, consumed := TryTokenizeQuotedCond(raw, i);
    if consumed > 0 { return; }
    token, consumed := TryTokenizeOperatorCond(raw, i);
    if consumed > 0 { return; }
    token, consumed := TryTokenizeWordCond(raw, i);
  }

  /** The tokens found so far, and those from position i on, are all the tokens. */
  ghost predicate FoundUpTo(raw: string, tokens: seq<string>, i: nat) {
    i <= |raw| && TokensIn(raw) == tokens + TokensIn(raw[i..])
  }

  lemma FoundNone(raw: string)
    ensures FoundUpTo(raw, [], 0)
  {
    assert raw[0..] == raw;
  }

  lemma FoundAll(raw: string, tokens: seq<string>)
    requires FoundUpTo(raw, tokens, |raw|)
    ensures TokensIn(raw) == tokens
  {
  }

  lemma AfterBlanks(raw: string, tokens: seq<string>, i: nat)
    requires FoundUpTo(raw, tokens, i)
    ensures FoundUpTo(raw, tokens, i + Blanks(raw[i..]))
  {
    SkipBlanks(raw[i..]);
    assert raw[i..][Blanks(raw[i..])..] == raw[i + Blanks(raw[i..])..];
  }

  lemma AfterToken(raw: string, tokens: seq<string>, i: nat, token: string, consumed: nat)
    requires FoundUpTo(raw, tokens, i) && i < |raw| && !IsBlank(raw[i])
    requires (token, consumed) == FirstToken(raw[i..])
    ensures FoundUpTo(raw, tokens + [token], i + consumed)
  {
    assert raw[i..][consumed..] == raw[i + consumed..];
    assert tokens + ([token] + TokensIn(raw[i + consumed..])) == tokens + [token] + TokensIn(raw[i + consumed..]);
  }

  method TokenizeCondition(text: string) returns (tokens: seq<string>)
    ensures tokens == TokensIn(TrimSpace(text))
  {
    tokens := TokenizeTrimmed(TrimSpace(text));
  }

  method AppendToken(raw: string, tokens: seq<string>, i: nat) returns (more: seq<string>, next: nat)
    requires FoundUpTo(raw, tokens, i) && i < |raw| && !IsBlank(raw[i])
    ensures FoundUpTo(raw, more, next) && next > i
  {
    var token, consumed := TokenizeOne(raw, i);
    AfterToken(raw, tokens, i, token, consumed);
    more, next := tokens + [token], i + consumed;
  }

  method TokenizeTrimmed(raw: string) returns (tokens: seq<string>)
    ensures tokens == TokensIn(raw)
  {
    tokens := [];
    var i := 0;
    FoundNone(raw);
    while i < |raw|
      invariant FoundUpTo(raw, tokens, i)
      decreases |raw| - i
    {
      AfterBlanks(raw, tokens, i);
      i := SkipCondWhitespace(raw, i);
      if i >= |raw| { break; }
      tokens, i := AppendToken(raw, tokens, i);
    }
    FoundAll(raw, tokens);
  }

  // ----- the grammar, by its derivations

  /** compare = VARIABLE ["not"] OP VALUE */
  datatype Comparison = Comparison(variable: string, infixNot: bool, op: string, value: string)

  /** unary = "not" unary | compare */
  datatype Unary = Negated(inner: Unary) | Plain(c: Comparison)

  /** andExpr = unary ("and" unary)* */
  datatype AndExpr = AndExpr(first: Unary, more: seq<Unary>)

  /** orExpr = andExpr ("or" andExpr)* */
  datatype OrExpr = OrExpr(first: AndExpr, more: seq<AndExpr>)

  predicate IsValidOperator(op: string) {
    op in {"=", "==", "!=", "contains", "startswith", "endswith", "in"}
  }

  predicate UnaryOk(u: Unary) {
    match u
    case Negated(inner) => UnaryOk(inner)
    case Plain(c) =>
      && c.variable != "" && c.variable != "not" && c.value != ""
      && c.op in {"=", "==", "!=", "contains", "startswith", "endswith", "in"}
  }

  predicate AndOk(a: AndExpr) {
    UnaryOk(a.first) && forall u <- a.more :: UnaryOk(u)
  }

  predicate Derivation(d: OrExpr) {
    AndOk(d.first) && forall a <- d.more :: AndOk(a)
  }

  function UnaryTokens(u: Unary): seq<string> {
    match u
    case Negated(inner) => ["not"] + UnaryTokens(inner)
    case Plain(c) => [c.variable] + (if c.infixNot then ["not"] else []) + [c.op, c.value]
  }

  function AndTail(us: seq<Unary>): seq<string> {
    if us == [] then [] else ["and"] + (UnaryTokens(us[0]) + AndTail(us[1..]))
  }

  function AndTokens(a: AndExpr): seq<string> {
    UnaryTokens(a.first) + AndTail(a.more)
  }

  function OrTail(more: seq<AndExpr>): seq<string> {
    if more == [] then [] else ["or"] + (AndTokens(more[0]) + OrTail(more[1..]))
  }

  function OrTokens(d: OrExpr): seq<string> {
    AndTokens(d.first) + OrTail(d.more)
  }

  function UnaryExpr(u: Unary): CondExpr {
    match u
    case Negated(inner) => Not(UnaryExpr(inner))
    case Plain(c) =>
      var cmp := Compare(c.variable, c.op, c.value);
      if c.infixNot then Not(cmp) else cmp
  }

  /** Both connectives associate to the left. */
  function FoldAnd(left: CondExpr, us: seq<Unary>): CondExpr
    decreases |us|
  {
    if us == [] then left else FoldAnd(And(left, UnaryExpr(us[0])), us[1..])
  }

  function AndMeaning(a: AndExpr): CondExpr {
    FoldAnd(UnaryExpr(a.first), a.more)
  }

  function FoldOr(left: CondExpr, more: seq<AndExpr>): CondExpr
    decreases |more|
  {
    if more == [] then left else FoldOr(Or(left, AndMeaning(more[0])), more[1..])
  }

  function Meaning(d: OrExpr): CondExpr {
    FoldOr(AndMeaning(d.first), d.more)
  }

  // ----- reading tokens: the expression and what is left

  type Reading = Option<(CondExpr, seq<string>)>

  function Starts(ts: seq<string>, word: string): bool {
    ts != [] && ts[0] == word
  }

  function At(ts: seq<string>, i: nat): string {
    if i < |ts| then ts[i] else ""
  }

  function Behind(ts: seq<string>): seq<string> {
    if ts == [] then [] else ts[1..]
  }

  function ReadCompare(ts: seq<string>): (r: Reading)
    ensures r.Some? ==> |r.value.1| < |ts|
  {
    var k := if At(ts, 1) == "not" then 2 else 1;
    if At(ts, 0) == "" || !IsValidOperator(At(ts, k)) || At(ts, k + 1) == "" then None
    else
      var cmp := Compare(ts[0], ts[k], ts[k + 1]);
      Some((if k == 2 then Not(cmp) else cmp, ts[k + 2..]))
  }

  function ReadUnary(ts: seq<string>): (r: Reading)
    ensures r.Some? ==> |r.value.1| < |ts|
    decreases |ts|
  {
    if Starts(ts, "not") then
      match ReadUnary(ts[1..])
      case None => None
      case Some(p) => Some((Not(p.0), p.1))
    else ReadCompare(ts)
  }

  function ReadMoreAnd(left: CondExpr, ts: seq<string>): (r: Reading)
    ensures r.Some? ==> |r.value.1| <= |ts|
    decreases |ts|
  {
    if Starts(ts, "and") then
      match ReadUnary(ts[1..])
      case None => None
      case Some(p) => ReadMoreAnd(And(left, p.0), p.1)
    else Some((left, ts))
  }

  function ReadAnd(ts: seq<string>): (r: Reading)
    ensures r.Some? ==> |r.value.1| < |ts|
  {
    match ReadUnary(ts)
    case None => None
    case Some(p) => ReadMoreAnd(p.0, p.1)
  }

  function ReadMoreOr(left: CondExpr, ts: seq<string>): (r: Reading)
    decreases |ts|
  {
    if Starts(ts, "or") then
      match ReadAnd(ts[1..])
      case None => None
      case Some(p) => ReadMoreOr(Or(left, p.0), p.1)
    else Some((left, ts))
  }

  function ReadOr(ts: seq<string>): Reading {
    match ReadAnd(ts)
    case None => None
    case Some(p) => ReadMoreOr(p.0, p.1)
  }

  /** All the tokens must be used. */
  function ParseTokens(ts: seq<string>): Option<CondExpr> {
    match ReadOr(ts)
    case None => None
    case Some(p) => if p.1 == [] then Some(p.0) else None
  }

  function Parse(raw: string): Option<CondExpr> {
    ParseTokens(TokensIn(TrimSpace(raw)))
  }

  // ----- the readings are the derivations

  lemma Cons(word: string, ts: seq<string>)
    ensures ([word] + ts)[1..] == ts && Starts([word] + ts, word)
  {
  }

  lemma Uncons(ts: seq<string>, word: string)
    requires Starts(ts, word)
    ensures ts == [word] + ts[1..]
  {
  }

  lemma CompareSound(ts: seq<string>) returns (c: Comparison)
    requires ReadCompare(ts).Some? && !Starts(ts, "not")
    ensures UnaryOk(Plain(c)) && UnaryExpr(Plain(c)) == ReadCompare(ts).value.0
    ensures ts == UnaryTokens(Plain(c)) + ReadCompare(ts).value.1
  {
    var k := if At(ts, 1) == "not" then 2 else 1;
    c := Comparison(ts[0], k == 2, ts[k], ts[k + 1]);
    assert k == 2 ==> ts == [ts[0], "not", ts[2], ts[3]] + ts[4..];
    assert k == 1 ==> ts == [ts[0], ts[1], ts[2]] + ts[3..];
  }

  lemma {:induction false} UnarySound(ts: seq<string>) returns (u: Unary)
    requires ReadUnary(ts).Some?
    ensures UnaryOk(u) && UnaryExpr(u) == ReadUnary(ts).value.0
    ensures ts == UnaryTokens(u) + ReadUnary(ts).value.1
    decreases |ts|
  {
    if Starts(ts, "not") {
      var inner := UnarySound(ts[1..]);
      u := Negated(inner);
      Uncons(ts, "not");
      Assoc(["not"], UnaryTokens(inner), ReadUnary(ts).value.1);
    } else {
      var c := CompareSound(ts);
      u := Plain(c);
    }
  }

  lemma Nest(word: string, a: seq<string>, b: seq<string>, c: seq<string>)
    ensures ([word] + (a + b)) + c == [word] + (a + (b + c))
    ensures ([word] + (a + (b + c)))[1..] == a + (b + c)
  {
  }

  lemma {:induction false} MoreAndSound(left: CondExpr, ts: seq<string>) returns (us: seq<Unary>)
    requires ReadMoreAnd(left, ts).Some?
    ensures (forall u <- us :: UnaryOk(u)) && FoldAnd(left, us) == ReadMoreAnd(left, ts).value.0
    ensures ts == AndTail(us) + ReadMoreAnd(left, ts).value.1
    decreases |ts|
  {
    if Starts(ts, "and") {
      var p := ReadUnary(ts[1..]).value;
      var u := UnarySound(ts[1..]);
      var us' := MoreAndSound(And(left, p.0), p.1);
      us := [u] + us';
      assert us[0] == u && us[1..] == us';
      Uncons(ts, "and");
      Nest("and", UnaryTokens(u), AndTail(us'), ReadMoreAnd(left, ts).value.1);
    } else {
      us := [];
    }
  }

  lemma AndSound(ts: seq<string>) returns (a: AndExpr)
    requires ReadAnd(ts).Some?
    ensures AndOk(a) && AndMeaning(a) == ReadAnd(ts).value.0
    ensures ts == AndTokens(a) + ReadAnd(ts).value.1
  {
    var p := ReadUnary(ts).value;
    var u := UnarySound(ts);
    var us := MoreAndSound(p.0, p.1);
    a := AndExpr(u, us);
    Assoc(UnaryTokens(u), AndTail(us), ReadAnd(ts).value.1);
  }

  lemma {:induction false} MoreOrSound(left: CondExpr, ts: seq<string>) returns (more: seq<AndExpr>)
    requires ReadMoreOr(left, ts).Some?
    ensures (forall a <- more :: AndOk(a)) && FoldOr(left, more) == ReadMoreOr(left, ts).value.0
    ensures ts == OrTail(more) + ReadMoreOr(left, ts).value.1
    decreases |ts|
  {
    if Starts(ts, "or") {
      var p := ReadAnd(ts[1..]).value;
      var a := AndSound(ts[1..]);
      var more' := MoreOrSound(Or(left, p.0), p.1);
      more := [a] + more';
      assert more[0] == a && more[1..] == more';
      Uncons(ts, "or");
      Nest("or", AndTokens(a), OrTail(more'), ReadMoreOr(left, ts).value.1);
    } else {
      more := [];
    }
  }

  lemma ParseSound(ts: seq<string>) returns (d: OrExpr)
    requires ParseTokens(ts).Some?
    ensures Derivation(d) && OrTokens(d) == ts && ParseTokens(ts) == Some(Meaning(d))
  {
    var p := ReadAnd(ts).value;
    var a := AndSound(ts);
    var more := MoreOrSound(p.0, p.1);
    d := OrExpr(a, more);
    assert OrTail(more) + [] == OrTail(more);
  }

  lemma CompareComplete(c: Comparison, rest: seq<string>)
    requires UnaryOk(Plain(c))
    ensures ReadUnary(UnaryTokens(Plain(c)) + rest) == Some((UnaryExpr(Plain(c)), rest))
  {
    var ts := UnaryTokens(Plain(c)) + rest;
    var k := if c.infixNot then 2 else 1;
    assert ts[0] == c.variable && ts[k] == c.op && ts[k + 1] == c.value && ts[k + 2..] == rest;
    assert c.infixNot ==> ts[1] == "not";
  }

  lemma {:induction false} UnaryComplete(u: Unary, rest: seq<string>)
    requires UnaryOk(u)
    ensures ReadUnary(UnaryTokens(u) + rest) == Some((UnaryExpr(u), rest))
    decreases u
  {
    match u
    case Negated(inner) =>
      UnaryComplete(inner, rest);
      Assoc(["not"], UnaryTokens(inner), rest);
      Cons("not", UnaryTokens(inner) + rest);
    case Plain(c) =>
      CompareComplete(c, rest);
  }

  lemma {:induction false} MoreAndComplete(left: CondExpr, us: seq<Unary>, rest: seq<string>)
    requires (forall u <- us :: UnaryOk(u)) && !Starts(rest, "and")
    ensures ReadMoreAnd(left, AndTail(us) + rest) == Some((FoldAnd(left, us), rest))
    decreases |us|
  {
    if us == [] {
      assert AndTail(us) + rest == rest;
    } else {
      var tail := AndTail(us[1..]) + rest;
      UnaryComplete(us[0], tail);
      Nest("and", UnaryTokens(us[0]), AndTail(us[1..]), rest);
      MoreAndComplete(And(left, UnaryExpr(us[0])), us[1..], rest);
    }
  }

  lemma AndComplete(a: AndExpr, rest: seq<string>)
    requires AndOk(a) && !Starts(rest, "and")
    ensures ReadAnd(AndTokens(a) + rest) == Some((AndMeaning(a), rest))
  {
    UnaryComplete(a.first, AndTail(a.more) + rest);
    Assoc(UnaryTokens(a.first), AndTail(a.more), rest);
    MoreAndComplete(UnaryExpr(a.first), a.more, rest);
  }

  lemma {:induction false} MoreOrComplete(left: CondExpr, more: seq<AndExpr>)
    requires forall a <- more :: AndOk(a)
    ensures ReadMoreOr(left, OrTail(more)) == Some((FoldOr(left, more), []))
    decreases |more|
  {
    if more != [] {
      AndComplete(more[0], OrTail(more[1..]));
      Cons("or", AndTokens(more[0]) + OrTail(more[1..]));
      MoreOrComplete(Or(left, AndMeaning(more[0])), more[1..]);
    }
  }

  lemma ParseComplete(d: OrExpr)
    requires Derivation(d)
    ensures ParseTokens(OrTokens(d)) == Some(Meaning(d))
  {
    AndComplete(d.first, OrTail(d.more));
    MoreOrComplete(AndMeaning(d.first), d.more);
  }

  ghost predicate Derives(ts: seq<string>, e: CondExpr) {
    exists d :: Derivation(d) && OrTokens(d) == ts && Meaning(d) == e
  }

  /** The parser accepts exactly the token sequences of the grammar, with the derivation's meaning;
      so no token sequence has two meanings. */
  lemma ParserMeetsGrammar(ts: seq<string>, e: CondExpr)
    ensures ParseTokens(ts) == Some(e) <==> Derives(ts, e)
  {
    if ParseTokens(ts) == Some(e) {
      var d := ParseSound(ts);
    }
    if Derives(ts, e) {
      var d :| Derivation(d) && OrTokens(d) == ts && Meaning(d) == e;
      ParseComplete(d);
    }
  }

  // ----- the parser

  class CondParser {
    const tokens: seq<string>
    var pos: nat

    constructor (tokens: seq<string>)
      ensures this.tokens == tokens && pos == 0
    {
      this.tokens := tokens;
      pos := 0;
    }

    ghost function Rest(): seq<string>
      reads this
    {
      if pos <= |tokens| then tokens[pos..] else []
    }

    /** A method read what the reading says: its expression, leaving its rest. */
    ghost predicate Did(r: Option<CondExpr>, reading: Reading)
      reads this
    {
      match reading
      case None => r == None
      case Some(p) => r == Some(p.0) && Rest() == p.1
    }

    method Peek() returns (t: string)
      ensures t == At(Rest(), 0)
    {
      if pos >= |tokens| { return ""; }
      t := tokens[pos];
    }

    method Next() returns (t: string)
      modifies this
      ensures t == old(At(Rest(), 0))
      ensures Rest() == old(Behind(Rest()))
    {
      t := Peek();
      pos := pos + 1;
    }

    method ParseOpValue() returns (r: Option<(string, string)>)
      modifies this
      ensures (var ts := old(Rest());
               if !IsValidOperator(At(ts, 0)) || At(ts, 1) == "" then r == None
               else r == Some((At(ts, 0), At(ts, 1))) && Rest() == Behind(Behind(ts)))
    {
      var op := Next();
      if op == "" { return None; }
      if !IsValidOperator(op) { return None; }
      var value := Next();
      if value == "" { return None; }
      r := Some((op, value));
    }

    method ConsumeInfixNot() returns (b: bool)
      modifies this
      ensures b == (old(At(Rest(), 0)) == "not")
      ensures Rest() == if b then old(Behind(Rest())) else old(Rest())
    {
      var t := Peek();
      if t != "not" { return false; }
      var _ := Next();
      b := true;
    }

    method ParseCompare() returns (r: Option<CondExpr>)
      modifies this
      ensures Did(r, ReadCompare(old(Rest())))
    {
      ghost var ts := Rest();
      var variable := Next();
      if variable == "" { return None; }
      var negated := ConsumeInfixNot();
      var ov := ParseOpValue();
      if ov == None { return None; }
      var cmp := Compare(variable, ov.value.0, ov.value.1);
      if negated {
        assert Rest() == ts[4..];
        return Some(Not(cmp));
      }
      assert Rest() == ts[3..];
      r := Some(cmp);
    }

    method ParseUnary() returns (r: Option<CondExpr>)
      modifies this
      ensures Did(r, ReadUnary(old(Rest())))
      decreases |Rest()|
    {
      var t := Peek();
      if t == "not" {
        var _ := Next();
        var inner := ParseUnary();
        if inner == None { return None; }
        return Some(Not(inner.value));
      }
      r := ParseCompare();
    }

    method ParseAnd() returns (r: Option<CondExpr>)
      modifies this
      ensures Did(r, ReadAnd(old(Rest())))
    {
      var first := ParseUnary();
      if first == None { return None; }
      var left := first.value;
      var t := Peek();
      while t == "and"
        invariant t == At(Rest(), 0)
        invariant ReadMoreAnd(left, Rest()) == ReadAnd(old(Rest()))
        decreases |Rest()|
      {
        var _ := Next();
        var right := ParseUnary();
        if right == None { return None; }
        left := And(left, right.value);
        t := Peek();
      }
      r := Some(left);
    }

    method ParseOr() returns (r: Option<CondExpr>)
      modifies this
      ensures Did(r, ReadOr(old(Rest())))
    {
      var first := ParseAnd();
      if first == None { return None; }
      var left := first.value;
      var t := Peek();
      while t == "or"
        invariant t == At(Rest(), 0)
        invariant ReadMoreOr(left, Rest()) == ReadOr(old(Rest()))
        decreases |Rest()|
      {
        var _ := Next();
        var right := ParseAnd();
        if right == None { return None; }
        left := Or(left, right.value);
        t := Peek();
      }
      r := Some(left);
    }
  }

  method ParseCondition(raw: string) returns (r: Option<CondExpr>)
    ensures r == Parse(raw)
  {
    var tokens := TokenizeCondition(raw);
    var p := new CondParser(tokens);
    assert tokens[0..] == tokens;
    r := p.ParseOr();
    if r == None { return; }
    if p.pos < |p.tokens| {
      assert p.Rest() == p.tokens[p.pos..] != [];
      return None;
    }
    assert p.Rest() == [];
  }
}
