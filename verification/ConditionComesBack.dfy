/** Which conditions come back when their formatted text is read: the exact condition, for all formulas. */
module ConditionComesBack {
  import opened IR
  import opened Text
  import opened Sequences
  import opened Conditions
  import opened ConditionFormat

  // ----- special characters

  /** Opening parentheses, which formatting may add and reading keeps; and quotes and white space that
      separates no words, which formatting keeps and reading may lose. */
  datatype Kind = Paren | Lossy

  predicate Special(k: Kind, c: char) {
    match k
    case Paren => c == '('
    case Lossy => IsQuote(c) || (IsSpace(c) && !IsBlank(c))
  }

  function Specials(k: Kind, s: string): nat {
    if s == "" then 0 else (if Special(k, s[0]) then 1 else 0) + Specials(k, s[1..])
  }

  function SpecialsOf(k: Kind, ts: seq<string>): nat {
    if ts == [] then 0 else Specials(k, ts[0]) + SpecialsOf(k, ts[1..])
  }

  /** Over the comparisons of a formula. */
  function LeafSpecials(k: Kind, ls: seq<CondExpr>): nat {
    if ls == [] then 0
    else (if ls[0].Compare? then Specials(k, ls[0].variable) + Specials(k, ls[0].op) + Specials(k, ls[0].value) else 0)
         + LeafSpecials(k, ls[1..])
  }

  lemma {:induction false} SpecialsJoin(k: Kind, a: string, b: string)
    ensures Specials(k, a + b) == Specials(k, a) + Specials(k, b)
    decreases |a|
  {
    if a == "" {
      assert a + b == b;
    } else {
      assert (a + b)[1..] == a[1..] + b;
      SpecialsJoin(k, a[1..], b);
    }
  }

  lemma {:induction false} SpecialsOfJoin(k: Kind, a: seq<string>, b: seq<string>)
    ensures SpecialsOf(k, a + b) == SpecialsOf(k, a) + SpecialsOf(k, b)
    decreases |a|
  {
    if a == [] {
      assert a + b == b;
    } else {
      assert (a + b)[1..] == a[1..] + b;
      SpecialsOfJoin(k, a[1..], b);
    }
  }

  lemma {:induction false} LeafSpecialsJoin(k: Kind, a: seq<CondExpr>, b: seq<CondExpr>)
    ensures LeafSpecials(k, a + b) == LeafSpecials(k, a) + LeafSpecials(k, b)
    decreases |a|
  {
    if a == [] {
      assert a + b == b;
    } else {
      assert (a + b)[1..] == a[1..] + b;
      LeafSpecialsJoin(k, a[1..], b);
    }
  }

  lemma {:induction false} NoSpecials(k: Kind, s: string)
    requires forall c <- s :: !Special(k, c)
    ensures Specials(k, s) == 0
    decreases |s|
  {
    if s != "" {
      assert s[0] in s;
      NoSpecials(k, s[1..]);
    }
  }

  // ----- formatting keeps what the comparisons have and adds parentheses only

  lemma KeywordsPlain(k: Kind, op: string)
    requires IsValidOperator(op) || op in {"and", "or", "not", " ", " and ", " or ", "not ", "(", ")"}
    ensures Specials(k, op) == if op == "(" && k.Paren? then 1 else 0
  {
    if op == "(" && k.Paren? {
      assert op[1..] == "";
    } else {
      assert forall c <- op :: !Special(k, c);
      NoSpecials(k, op);
    }
  }

  lemma CompareSpecials(k: Kind, variable: string, op: string, value: string)
    ensures Specials(k, variable + " " + op + " " + value) == Specials(k, variable) + Specials(k, op) + Specials(k, value)
  {
    KeywordsPlain(k, " ");
    SpecialsJoin(k, variable + " " + op + " ", value);
    SpecialsJoin(k, variable + " " + op, " ");
    SpecialsJoin(k, variable + " ", op);
    SpecialsJoin(k, variable, " ");
  }

  lemma ParenthesisedSpecials(k: Kind, l: string, sep: string, r: string, prec: nat, parentPrec: nat)
    requires sep in {" and ", " or "}
    ensures Specials(k, Parenthesised(l + sep + r, prec, parentPrec))
         == Specials(k, l) + Specials(k, r) + if parentPrec != 0 && parentPrec != prec && k.Paren? then 1 else 0
  {
    var s := l + sep + r;
    KeywordsPlain(k, sep);
    KeywordsPlain(k, "(");
    KeywordsPlain(k, ")");
    SpecialsJoin(k, l + sep, r);
    SpecialsJoin(k, l, sep);
    SpecialsJoin(k, "(" + s, ")");
    SpecialsJoin(k, "(", s);
  }

  lemma {:induction false} FormatSpecials(k: Kind, e: CondExpr, parentPrec: nat)
    ensures Specials(k, Format(e, parentPrec)) >= LeafSpecials(k, Leaves(e))
    ensures k.Lossy? ==> Specials(k, Format(e, parentPrec)) == LeafSpecials(k, Leaves(e))
    ensures k.Paren? && !Bare(e, parentPrec) ==> Specials(k, Format(e, parentPrec)) > LeafSpecials(k, Leaves(e))
    decreases e
  {
    match e
    case Compare(variable, op, value) =>
      CompareSpecials(k, variable, op, value);
      assert Leaves(e)[1..] == [];
    case And(l, r) =>
      FormatSpecials(k, l, PREC_AND);
      FormatSpecials(k, r, PREC_AND);
      LeafSpecialsJoin(k, Leaves(l), Leaves(r));
      ParenthesisedSpecials(k, Format(l, PREC_AND), " and ", Format(r, PREC_AND), PREC_AND, parentPrec);
    case Or(l, r) =>
      FormatSpecials(k, l, PREC_OR);
      FormatSpecials(k, r, PREC_OR);
      LeafSpecialsJoin(k, Leaves(l), Leaves(r));
      ParenthesisedSpecials(k, Format(l, PREC_OR), " or ", Format(r, PREC_OR), PREC_OR, parentPrec);
    case Not(inner) =>
      FormatSpecials(k, inner, PREC_NOT);
      KeywordsPlain(k, "not ");
      SpecialsJoin(k, "not ", Format(inner, PREC_NOT));
  }

  // ----- trimming and cutting into tokens loses some, or keeps every token whole

  lemma {:induction false} TrimLeftSpecials(k: Kind, s: string)
    ensures Specials(k, TrimLeft(s)) <= Specials(k, s)
    ensures k.Paren? ==> Specials(k, TrimLeft(s)) == Specials(k, s)
    ensures s != "" && IsSpace(s[0]) && Special(k, s[0]) ==> Specials(k, TrimLeft(s)) < Specials(k, s)
    decreases |s|
  {
    if s != "" && IsSpace(s[0]) {
      TrimLeftSpecials(k, s[1..]);
    }
  }

  lemma {:induction false} TrimRightSpecials(k: Kind, s: string)
    ensures Specials(k, TrimRight(s)) <= Specials(k, s)
    ensures k.Paren? ==> Specials(k, TrimRight(s)) == Specials(k, s)
    ensures s != "" && IsSpace(s[|s| - 1]) && Special(k, s[|s| - 1]) ==> Specials(k, TrimRight(s)) < Specials(k, s)
    decreases |s|
  {
    if s != "" && IsSpace(s[|s| - 1]) {
      var front, last := s[..|s| - 1], s[|s| - 1];
      assert s == front + [last];
      SpecialsJoin(k, front, [last]);
      assert [last][1..] == "";
      TrimRightSpecials(k, front);
    }
  }

  lemma {:induction false} TrimLeftEnd(s: string)
    requires TrimLeft(s) != ""
    ensures s != "" && TrimLeft(s)[|TrimLeft(s)| - 1] == s[|s| - 1]
    decreases |s|
  {
    if IsSpace(s[0]) {
      TrimLeftEnd(s[1..]);
    }
  }

  lemma {:induction false} OneSpecial(k: Kind, s: string, i: nat)
    requires i < |s| && Special(k, s[i])
    ensures Specials(k, s) > 0
    decreases i
  {
    if i > 0 {
      OneSpecial(k, s[1..], i - 1);
    }
  }

  /** Trimming that loses no special character leaves text alone that has no blank at its ends. */
  lemma TrimSpecials(k: Kind, s: string)
    ensures Specials(k, TrimSpace(s)) <= Specials(k, s)
    ensures k.Paren? ==> Specials(k, TrimSpace(s)) == Specials(k, s)
    ensures k.Lossy? && s != "" && Specials(k, TrimSpace(s)) == Specials(k, s) && !IsBlank(s[0]) && !IsBlank(s[|s| - 1])
        ==> !IsSpace(s[0]) && !IsSpace(s[|s| - 1])
  {
    TrimLeftSpecials(k, s);
    TrimRightSpecials(k, TrimLeft(s));
    if k.Lossy? && s != "" && !IsBlank(s[|s| - 1]) && IsSpace(s[|s| - 1]) {
      if TrimLeft(s) == "" {
        OneSpecial(k, s, |s| - 1);
      } else {
        TrimLeftEnd(s);
      }
    }
  }

  lemma {:induction false} UpToClean(quote: char, s: string)
    ensures quote !in s[..UpTo(quote, s)]
    ensures UpTo(quote, s) < |s| ==> s[UpTo(quote, s)] == quote
    decreases |s|
  {
    if s != "" && s[0] != quote {
      UpToClean(quote, s[1..]);
      assert s[..UpTo(quote, s)] == [s[0]] + s[1..][..UpTo(quote, s[1..])];
    }
  }

  lemma {:induction false} WordClean(s: string)
    ensures forall c <- s[..WordLength(s)] :: !IsWordBreak(c)
    decreases |s|
  {
    if s != "" && !IsWordBreak(s[0]) {
      WordClean(s[1..]);
      assert s[..WordLength(s)] == [s[0]] + s[1..][..WordLength(s[1..])];
    }
  }

  /** A quoted token and its quotes; the closing one may be missing. */
  lemma QuotedParts(s: string) returns (rest: string)
    requires s != "" && IsQuote(s[0])
    ensures var r := FirstToken(s);
            s[..r.1] == [s[0]] + (r.0 + rest) && forall c <- rest :: c == s[0]
  {
    var n := UpTo(s[0], s[1..]);
    UpToClean(s[0], s[1..]);
    if 1 + n < |s| {
      rest := [s[0]];
      assert s[1..][n] == s[0];
      assert s[..n + 2] == [s[0]] + (s[1..1 + n] + [s[1 + n]]);
    } else {
      rest := "";
      assert s[..n + 1] == [s[0]] + (s[1..1 + n] + "");
    }
  }

  /** An unquoted token is whole and is the text it takes; a quoted one is what is left without a quote. */
  lemma FirstTokenSpecials(k: Kind, s: string)
    requires s != "" && !IsBlank(s[0])
    ensures var r := FirstToken(s);
            && Specials(k, r.0) <= Specials(k, s[..r.1])
            && (k.Paren? ==> Specials(k, r.0) == Specials(k, s[..r.1]))
            && (k.Lossy? && Specials(k, r.0) == Specials(k, s[..r.1]) ==> Whole(r.0))
  {
    var r := FirstToken(s);
    if IsQuote(s[0]) {
      var rest := QuotedParts(s);
      assert ([s[0]] + (r.0 + rest))[1..] == r.0 + rest;
      SpecialsJoin(k, r.0, rest);
      if k.Paren? {
        NoSpecials(k, rest);
      }
    } else if IsOperatorChar(s[0]) {
      assert |r.0| == 2 ==> r.0 == s[..2];
    } else {
      WordClean(s);
      assert r.0[0] == s[0];
    }
  }

  lemma {:induction false} TokenSpecials(k: Kind, s: string)
    ensures SpecialsOf(k, TokensIn(s)) <= Specials(k, s)
    ensures k.Paren? ==> SpecialsOf(k, TokensIn(s)) == Specials(k, s)
    ensures k.Lossy? && SpecialsOf(k, TokensIn(s)) == Specials(k, s) ==> forall t <- TokensIn(s) :: Whole(t)
    decreases |s|
  {
    if s == "" {
    } else if IsBlank(s[0]) {
      TokenSpecials(k, s[1..]);
    } else {
      var r := FirstToken(s);
      FirstTokenSpecials(k, s);
      TokenSpecials(k, s[r.1..]);
      assert s == s[..r.1] + s[r.1..];
      SpecialsJoin(k, s[..r.1], s[r.1..]);
      assert TokensIn(s)[1..] == TokensIn(s[r.1..]);
    }
  }

  // ----- the comparisons of a derivation have all the special characters of its tokens

  ghost predicate AllWhole(ts: seq<string>) {
    forall t <- ts :: Whole(t)
  }

  ghost predicate WholeLeaves(ls: seq<CondExpr>) {
    forall l <- ls :: WholeLeaf(l)
  }

  /** What the tokens of a derivation and the comparisons of its meaning have in common. */
  ghost predicate Alike(k: Kind, ts: seq<string>, ls: seq<CondExpr>) {
    SpecialsOf(k, ts) == LeafSpecials(k, ls) && (AllWhole(ts) ==> WholeLeaves(ls))
  }

  lemma AlikeJoin(k: Kind, a: seq<string>, la: seq<CondExpr>, b: seq<string>, lb: seq<CondExpr>)
    requires Alike(k, a, la) && Alike(k, b, lb)
    ensures Alike(k, a + b, la + lb)
  {
    SpecialsOfJoin(k, a, b);
    LeafSpecialsJoin(k, la, lb);
    assert AllWhole(a + b) ==> AllWhole(a) && AllWhole(b) by {
      assert forall t <- a :: t in a + b;
      assert forall t <- b :: t in a + b;
    }
  }

  lemma AlikeKeyword(k: Kind, word: string, ts: seq<string>, ls: seq<CondExpr>)
    requires word in {"and", "or", "not"} && Alike(k, ts, ls)
    ensures Alike(k, [word] + ts, ls)
  {
    KeywordsPlain(k, word);
    assert ([word] + ts)[1..] == ts;
    assert forall t <- ts :: t in [word] + ts;
  }

  lemma OneLeaf(k: Kind, l: CondExpr)
    requires l.Compare?
    ensures LeafSpecials(k, [l]) == Specials(k, l.variable) + Specials(k, l.op) + Specials(k, l.value)
  {
    assert [l][1..] == [] && LeafSpecials(k, []) == 0;
  }

  lemma AlikePlain(k: Kind, c: Comparison)
    requires UnaryOk(Plain(c))
    ensures Alike(k, [c.variable, c.op, c.value], [Compare(c.variable, c.op, c.value)])
  {
    var ts := [c.variable, c.op, c.value];
    OneLeaf(k, Compare(c.variable, c.op, c.value));
    SpecialsOfThree(k, c.variable, c.op, c.value);
    assert c.variable in ts && c.value in ts;
  }

  lemma AlikeInfix(k: Kind, c: Comparison)
    requires UnaryOk(Plain(c))
    ensures Alike(k, [c.variable, "not", c.op, c.value], [Compare(c.variable, c.op, c.value)])
  {
    var ts := [c.variable, "not", c.op, c.value];
    OneLeaf(k, Compare(c.variable, c.op, c.value));
    SpecialsOfInfix(k, c.variable, c.op, c.value);
    assert c.variable in ts && c.value in ts;
  }

  lemma AlikeCompare(k: Kind, c: Comparison)
    requires UnaryOk(Plain(c))
    ensures Alike(k, [c.variable, c.op, c.value], [Compare(c.variable, c.op, c.value)])
    ensures Alike(k, [c.variable, "not", c.op, c.value], [Compare(c.variable, c.op, c.value)])
  {
    AlikePlain(k, c);
    AlikeInfix(k, c);
  }

  lemma SpecialsOfInfix(k: Kind, a: string, b: string, c: string)
    ensures SpecialsOf(k, [a, "not", b, c]) == Specials(k, a) + Specials(k, b) + Specials(k, c)
  {
    KeywordsPlain(k, "not");
    SpecialsOfThree(k, "not", b, c);
    assert [a, "not", b, c][1..] == ["not", b, c];
  }

  lemma SpecialsOfThree(k: Kind, a: string, b: string, c: string)
    ensures SpecialsOf(k, [a, b, c]) == Specials(k, a) + Specials(k, b) + Specials(k, c)
  {
    assert [a, b, c][1..] == [b, c] && [b, c][1..] == [c] && [c][1..] == [];
    assert SpecialsOf(k, [c]) == Specials(k, c);
  }

  lemma {:induction false} UnaryAlike(k: Kind, u: Unary)
    requires UnaryOk(u)
    ensures Alike(k, UnaryTokens(u), Leaves(UnaryExpr(u)))
    decreases u
  {
    match u
    case Negated(inner) =>
      UnaryAlike(k, inner);
      AlikeKeyword(k, "not", UnaryTokens(inner), Leaves(UnaryExpr(inner)));
    case Plain(c) =>
      AlikeCompare(k, c);
      assert UnaryTokens(u) == if c.infixNot then [c.variable, "not", c.op, c.value] else [c.variable, c.op, c.value];
  }

  /** The tokens read so far, and the expression built from them. */
  lemma {:induction false} FoldAndAlike(k: Kind, ts: seq<string>, left: CondExpr, us: seq<Unary>)
    requires Alike(k, ts, Leaves(left)) && forall u <- us :: UnaryOk(u)
    ensures Alike(k, ts + AndTail(us), Leaves(FoldAnd(left, us)))
    decreases |us|
  {
    if us == [] {
      assert ts + [] == ts;
    } else {
      var more := UnaryTokens(us[0]);
      UnaryAlike(k, us[0]);
      AlikeKeyword(k, "and", more, Leaves(UnaryExpr(us[0])));
      AlikeJoin(k, ts, Leaves(left), ["and"] + more, Leaves(UnaryExpr(us[0])));
      FoldAndAlike(k, ts + (["and"] + more), And(left, UnaryExpr(us[0])), us[1..]);
      TailRegroup(ts, "and", more, AndTail(us[1..]));
    }
  }

  lemma TailRegroup(ts: seq<string>, word: string, more: seq<string>, tail: seq<string>)
    ensures ts + ([word] + (more + tail)) == ts + ([word] + more) + tail
  {
  }

  lemma AndAlike(k: Kind, a: AndExpr)
    requires AndOk(a)
    ensures Alike(k, AndTokens(a), Leaves(AndMeaning(a)))
  {
    UnaryAlike(k, a.first);
    FoldAndAlike(k, UnaryTokens(a.first), UnaryExpr(a.first), a.more);
  }

  lemma {:induction false} FoldOrAlike(k: Kind, ts: seq<string>, left: CondExpr, more: seq<AndExpr>)
    requires Alike(k, ts, Leaves(left)) && forall a <- more :: AndOk(a)
    ensures Alike(k, ts + OrTail(more), Leaves(FoldOr(left, more)))
    decreases |more|
  {
    if more == [] {
      assert ts + [] == ts;
    } else {
      var next := AndTokens(more[0]);
      AndAlike(k, more[0]);
      AlikeKeyword(k, "or", next, Leaves(AndMeaning(more[0])));
      AlikeJoin(k, ts, Leaves(left), ["or"] + next, Leaves(AndMeaning(more[0])));
      FoldOrAlike(k, ts + (["or"] + next), Or(left, AndMeaning(more[0])), more[1..]);
      TailRegroup(ts, "or", next, OrTail(more[1..]));
    }
  }

  /** Reading keeps parentheses; if it loses nothing else either, every word of the result is whole. */
  lemma ParseSpecials(k: Kind, raw: string)
    requires Parse(raw).Some?
    ensures var ls := Leaves(Parse(raw).value);
            && LeafSpecials(k, ls) <= Specials(k, TrimSpace(raw)) <= Specials(k, raw)
            && (k.Paren? ==> LeafSpecials(k, ls) == Specials(k, raw))
            && (k.Lossy? && LeafSpecials(k, ls) == Specials(k, TrimSpace(raw)) ==> WholeLeaves(ls))
  {
    var s := TrimSpace(raw);
    var d := ParseSound(TokensIn(s));
    TrimSpecials(k, raw);
    TokenSpecials(k, s);
    AndAlike(k, d.first);
    FoldOrAlike(k, AndTokens(d.first), AndMeaning(d.first), d.more);
  }

  // ----- the exact condition

  /** Reading the formatted text gives back the comparisons in order. */
  predicate ComesBack(e: CondExpr) {
    var r := Parse(FormatCondition(e));
    r.Some? && Leaves(r.value) == Leaves(e)
  }

  lemma {:induction false} WholeFromLeaves(e: CondExpr)
    ensures WholeWords(e) <==> WholeLeaves(Leaves(e))
    decreases e
  {
    match e
    case And(l, r) => WholeFromLeaves(l); WholeFromLeaves(r);
    case Or(l, r) => WholeFromLeaves(l); WholeFromLeaves(r);
    case Not(inner) => WholeFromLeaves(inner);
    case Compare(_, _, _) => assert e in Leaves(e);
  }

  lemma WholeEnds(w: string)
    requires Whole(w)
    ensures w != "" && !IsBlank(w[0]) && !IsBlank(w[|w| - 1])
  {
    assert w[0] in w && w[|w| - 1] in w;
  }

  /** Reading keeps parentheses, so none may have been added. */
  lemma NecessarilySingle(e: CondExpr, raw: string)
    requires raw == FormatCondition(e) && Parse(raw).Some? && Leaves(Parse(raw).value) == Leaves(e)
    ensures Single(e)
  {
    FormatSpecials(Paren, e, 0);
    ParseSpecials(Paren, raw);
    BareIsSingle(e);
  }

  /** Formatting keeps quotes and odd white space, so reading may not have lost any. */
  lemma NecessarilyWhole(e: CondExpr, raw: string)
    requires raw == FormatCondition(e) && Parse(raw).Some? && Leaves(Parse(raw).value) == Leaves(e)
    ensures WholeWords(e) && Specials(Lossy, TrimSpace(raw)) == Specials(Lossy, raw)
  {
    FormatSpecials(Lossy, e, 0);
    ParseSpecials(Lossy, raw);
    WholeFromLeaves(e);
  }

  lemma NecessarilyTrimmed(ws: seq<string>, raw: string)
    requires ws != [] && raw == Join(ws, " ") && Specials(Lossy, TrimSpace(raw)) == Specials(Lossy, raw)
    requires Whole(ws[0]) && Whole(ws[|ws| - 1])
    ensures EndsKept(ws)
  {
    WholeEnds(ws[0]);
    WholeEnds(ws[|ws| - 1]);
    JoinEnds(ws);
    TrimSpecials(Lossy, raw);
  }

  lemma NecessaryToComeBack(e: CondExpr)
    requires ComesBack(e)
    ensures Single(e) && WholeWords(e) && EndsKept(Words(e))
  {
    var raw := FormatCondition(e);
    NecessarilySingle(e, raw);
    NecessarilyWhole(e, raw);
    BareIsSingle(e);
    FormatIsWords(e, 0);
    WordsWhole(e);
    var ws := Words(e);
    assert ws[0] in ws && ws[|ws| - 1] in ws;
    NecessarilyTrimmed(ws, raw);
  }

  lemma {:induction false} LeavesOfTree(conjunction: bool, e: CondExpr)
    requires TreeOf(conjunction, e)
    ensures Leaves(e) == LeavesOf(Literals(e))
    decreases e
  {
    if e.And? || e.Or? {
      LeavesOfTree(conjunction, e.left);
      LeavesOfTree(conjunction, e.right);
      LeavesOfSplit(Literals(e.left), Literals(e.right));
    } else {
      assert Literals(e)[1..] == [];
      assert LeavesOf(Literals(e)) == Leaves(e) + [];
    }
  }

  function LeavesOf(ls: seq<CondExpr>): seq<CondExpr> {
    if ls == [] then [] else Leaves(ls[0]) + LeavesOf(ls[1..])
  }

  lemma {:induction false} LeavesOfSplit(a: seq<CondExpr>, b: seq<CondExpr>)
    ensures LeavesOf(a + b) == LeavesOf(a) + LeavesOf(b)
    decreases |a|
  {
    if a == [] {
      assert a + b == b;
    } else {
      assert (a + b)[1..] == a[1..] + b;
      LeavesOfSplit(a[1..], b);
    }
  }

  /** For every formula: the comparisons come back exactly when the formula has a single connective,
      the tokenizer keeps each of its words whole, and no white space is trimmed off its ends. */
  lemma ComesBackExactly(e: CondExpr)
    ensures ComesBack(e) <==> Single(e) && WholeWords(e) && EndsKept(Words(e))
  {
    if ComesBack(e) {
      NecessaryToComeBack(e);
    } else if Single(e) && WholeWords(e) && EndsKept(Words(e)) {
      FormatThenParse(e);
      LeftNestedSame(e, map[], "");
      LeavesOfTree(AndTree(e), e);
      LeavesOfTree(AndTree(LeftNested(e)), LeftNested(e));
    }
  }

  predicate GoodComparison(variable: string, op: string, value: string) {
    && Whole(variable) && variable != "not" && !IsSpace(variable[0])
    && op in {"=", "==", "!=", "contains", "startswith", "endswith", "in"}
    && Whole(value) && !IsSpace(value[|value| - 1])
  }

  lemma ComparisonWords(variable: string, op: string, value: string)
    ensures var e := Compare(variable, op, value);
            WholeWords(e) && EndsKept(Words(e)) <==> GoodComparison(variable, op, value)
  {
  }

  lemma ComparisonReturns(variable: string, op: string, value: string)
    requires GoodComparison(variable, op, value)
    ensures Parse(FormatCondition(Compare(variable, op, value))) == Some(Compare(variable, op, value))
  {
    ComparisonWords(variable, op, value);
    FormatThenParse(Compare(variable, op, value));
  }

  /** A single comparison, over arbitrary strings: it comes back exactly when its operator is valid, its
      words are whole, the variable is not the keyword, and the ends hold no white space. */
  lemma ComparisonComesBackExactly(variable: string, op: string, value: string)
    ensures Parse(FormatCondition(Compare(variable, op, value))) == Some(Compare(variable, op, value))
       <==> GoodComparison(variable, op, value)
  {
    var e := Compare(variable, op, value);
    if Parse(FormatCondition(e)) == Some(e) {
      assert ComesBack(e);
      NecessaryToComeBack(e);
      ComparisonWords(variable, op, value);
    }
    if GoodComparison(variable, op, value) {
      ComparisonReturns(variable, op, value);
    }
  }

  lemma BlankNotWhole(value: string, blank: char)
    requires blank in value && IsBlank(blank)
    ensures !Whole(value)
  {
  }

  /** Quotes are not printed: a value with a blank, which only quoted text can give, does not come back. */
  lemma SpacedValueIsLost(variable: string, op: string, value: string, blank: char)
    requires blank in value && IsBlank(blank)
    ensures Parse(FormatCondition(Compare(variable, op, value))) != Some(Compare(variable, op, value))
  {
    BlankNotWhole(value, blank);
    ComparisonComesBackExactly(variable, op, value);
  }
}
