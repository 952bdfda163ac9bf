/** Writing conditions back as text (formatter/format.go), and what reading that text gives. */
module ConditionFormat {
  import opened IR
  import opened Text
  import opened Conditions
  import ConditionMeaning

  const PREC_OR: nat := 1
  const PREC_AND: nat := 2
  const PREC_NOT: nat := 3

  function Format(e: CondExpr, parentPrec: nat): string {
    match e
    case Compare(variable, op, value) => variable + " " + op + " " + value
    case And(l, r) => Parenthesised(Format(l, PREC_AND) + " and " + Format(r, PREC_AND), PREC_AND, parentPrec)
    case Or(l, r) => Parenthesised(Format(l, PREC_OR) + " or " + Format(r, PREC_OR), PREC_OR, parentPrec)
    case Not(inner) => "not " + Format(inner, PREC_NOT)
  }

  function Parenthesised(s: string, prec: nat, parentPrec: nat): string {
    if parentPrec != 0 && parentPrec != prec then "(" + s + ")" else s
  }

  function FormatCondition(e: CondExpr): string {
    Format(e, 0)
  }

  // ----- formulas with a single connective

  predicate Literal(e: CondExpr) {
    e.Compare? || (e.Not? && Literal(e.inner))
  }

  predicate AndTree(e: CondExpr) {
    if e.And? then AndTree(e.left) && AndTree(e.right) else Literal(e)
  }

  predicate OrTree(e: CondExpr) {
    if e.Or? then OrTree(e.left) && OrTree(e.right) else Literal(e)
  }

  /** All binary connectives are the same one, and none stands under a negation. */
  predicate Single(e: CondExpr) {
    AndTree(e) || OrTree(e)
  }

  function Literals(e: CondExpr): (r: seq<CondExpr>)
    ensures r != []
  {
    match e
    case And(l, r) => Literals(l) + Literals(r)
    case Or(l, r) => Literals(l) + Literals(r)
    case _ => [e]
  }

  /** The comparisons, from left to right. */
  function Leaves(e: CondExpr): seq<CondExpr> {
    match e
    case And(l, r) => Leaves(l) + Leaves(r)
    case Or(l, r) => Leaves(l) + Leaves(r)
    case Not(inner) => Leaves(inner)
    case Compare(_, _, _) => [e]
  }

  function Chain(conjunction: bool, left: CondExpr, rest: seq<CondExpr>): CondExpr
    decreases |rest|
  {
    if rest == [] then left
    else Chain(conjunction, if conjunction then And(left, rest[0]) else Or(left, rest[0]), rest[1..])
  }

  /** The same literals in the same order, nested to the left. */
  function LeftNested(e: CondExpr): CondExpr {
    var ls := Literals(e);
    Chain(AndTree(e), ls[0], ls[1..])
  }

  // ----- words that survive the tokenizer

  /** A word the tokenizer keeps whole: no blank or operator character inside and no quote in front;
      or an operator. */
  predicate Whole(w: string) {
    && w != ""
    && (|| (!IsQuote(w[0]) && forall c <- w :: !IsWordBreak(c))
        || (|w| == 1 && IsOperatorChar(w[0]))
        || TwoCharOperator(w))
  }

  /** A comparison as the parser can produce it from unquoted words. */
  predicate WholeLeaf(l: CondExpr) {
    && l.Compare? && Whole(l.variable) && l.variable != "not" && Whole(l.value)
    && l.op in {"=", "==", "!=", "contains", "startswith", "endswith", "in"}
  }

  predicate WholeWords(e: CondExpr) {
    match e
    case Compare(_, _, _) => WholeLeaf(e)
    case And(l, r) => WholeWords(l) && WholeWords(r)
    case Or(l, r) => WholeWords(l) && WholeWords(r)
    case Not(inner) => WholeWords(inner)
  }

  lemma KeywordsWhole(w: string)
    requires IsValidOperator(w) || w in {"and", "or", "not"}
    ensures Whole(w)
  {
  }

  lemma {:induction false} WordRuns(w: string, rest: string)
    requires (forall c <- w :: !IsWordBreak(c)) && (rest == "" || IsWordBreak(rest[0]))
    ensures WordLength(w + rest) == |w|
    decreases |w|
  {
    if w == "" {
      assert w + rest == rest;
    } else {
      assert (w + rest)[1..] == w[1..] + rest;
      WordRuns(w[1..], rest);
    }
  }

  lemma WholeFirst(w: string, rest: string)
    requires Whole(w) && (rest == "" || IsBlank(rest[0]))
    ensures !IsBlank((w + rest)[0]) && FirstToken(w + rest) == (w, |w|)
  {
    var s := w + rest;
    assert s[0] == w[0] && s[..|w|] == w;
    if IsOperatorChar(w[0]) {
      if |w| == 1 {
        assert |s| > 1 ==> s[..2][1] == s[1] == rest[0];
      } else {
        assert TwoCharOperator(w) by { assert w[0] in w; }
      }
    } else {
      assert !TwoCharOperator(w);
      WordRuns(w, rest);
      assert w[0] in w;
    }
  }

  /** Words in a row: the tokenizer finds them again. */
  lemma {:induction false} TokensOfWords(ws: seq<string>)
    requires forall w <- ws :: Whole(w)
    ensures TokensIn(Join(ws, " ")) == ws
    decreases |ws|
  {
    if ws == [] {
    } else if |ws| == 1 {
      WholeFirst(ws[0], "");
      assert ws[0] + "" == ws[0] == Join(ws, " ");
      assert ws[0][|ws[0]|..] == "";
    } else {
      var tail := Join(ws[1..], " ");
      var s := ws[0] + (" " + tail);
      assert Join(ws, " ") == s;
      WholeFirst(ws[0], " " + tail);
      assert s[|ws[0]|..] == " " + tail;
      assert (" " + tail)[1..] == tail;
      TokensOfWords(ws[1..]);
    }
  }

  /** No white space at the two ends of a row of words. */
  predicate EndsKept(ws: seq<string>) {
    && ws != [] && ws[0] != "" && ws[|ws| - 1] != ""
    && !IsSpace(ws[0][0])
    && !IsSpace(ws[|ws| - 1][|ws[|ws| - 1]| - 1])
  }

  lemma {:induction false} JoinEnds(ws: seq<string>)
    requires ws != [] && ws[0] != "" && ws[|ws| - 1] != ""
    ensures var s := Join(ws, " ");
            var last := ws[|ws| - 1];
            s != "" && s[0] == ws[0][0] && s[|s| - 1] == last[|last| - 1]
    decreases |ws|
  {
    if |ws| == 2 {
      assert Join(ws[1..], " ") == ws[1];
    } else if |ws| > 2 {
      LastOfJoin(ws[1..]);
    }
  }

  lemma {:induction false} LastOfJoin(ws: seq<string>)
    requires ws != [] && ws[|ws| - 1] != ""
    ensures var s := Join(ws, " ");
            var last := ws[|ws| - 1];
            s != "" && s[|s| - 1] == last[|last| - 1]
    decreases |ws|
  {
    if |ws| > 1 {
      LastOfJoin(ws[1..]);
    }
  }

  lemma ParseOfWords(ws: seq<string>)
    requires EndsKept(ws) && forall w <- ws :: Whole(w)
    ensures Parse(Join(ws, " ")) == ParseTokens(ws)
  {
    JoinEnds(ws);
    TrimmedUnchanged(Join(ws, " "));
    TokensOfWords(ws);
  }

  // ----- what is printed

  function Words(e: CondExpr): (r: seq<string>)
    ensures r != []
  {
    match e
    case Compare(variable, op, value) => [variable, op, value]
    case And(l, r) => Words(l) + (["and"] + Words(r))
    case Or(l, r) => Words(l) + (["or"] + Words(r))
    case Not(inner) => ["not"] + Words(inner)
  }

  lemma {:induction false} WordsWhole(e: CondExpr)
    requires WholeWords(e)
    ensures forall w <- Words(e) :: Whole(w)
    decreases e
  {
    match e
    case Compare(_, op, _) => KeywordsWhole(op);
    case And(l, r) => WordsWhole(l); WordsWhole(r); KeywordsWhole("and");
    case Or(l, r) => WordsWhole(l); WordsWhole(r); KeywordsWhole("or");
    case Not(inner) => WordsWhole(inner); KeywordsWhole("not");
  }

  lemma {:induction false} JoinSplit(a: seq<string>, b: seq<string>)
    requires a != [] && b != []
    ensures Join(a + b, " ") == Join(a, " ") + " " + Join(b, " ")
    decreases |a|
  {
    if |a| == 1 {
      assert (a + b)[1..] == b && (a + b)[0] == a[0];
    } else {
      assert (a + b)[1..] == a[1..] + b && (a + b)[0] == a[0];
      JoinSplit(a[1..], b);
      JoinRegroup(a[0], Join(a[1..], " "), Join(b, " "));
    }
  }

  lemma JoinRegroup(x: string, y: string, z: string)
    ensures x + " " + (y + " " + z) == (x + " " + y) + " " + z
  {
  }

  /** No parentheses are printed. */
  predicate Bare(e: CondExpr, parentPrec: nat) {
    match e
    case Compare(_, _, _) => true
    case And(l, r) => (parentPrec == 0 || parentPrec == PREC_AND) && Bare(l, PREC_AND) && Bare(r, PREC_AND)
    case Or(l, r) => (parentPrec == 0 || parentPrec == PREC_OR) && Bare(l, PREC_OR) && Bare(r, PREC_OR)
    case Not(inner) => Bare(inner, PREC_NOT)
  }

  lemma {:induction false} BareUnder(e: CondExpr)
    ensures Bare(e, PREC_NOT) <==> Literal(e)
    ensures Bare(e, PREC_AND) <==> AndTree(e)
    ensures Bare(e, PREC_OR) <==> OrTree(e)
    decreases e
  {
    match e
    case And(l, r) => BareUnder(l); BareUnder(r);
    case Or(l, r) => BareUnder(l); BareUnder(r);
    case Not(inner) => BareUnder(inner);
    case Compare(_, _, _) =>
  }

  lemma BareIsSingle(e: CondExpr)
    ensures Bare(e, 0) <==> Single(e)
  {
    BareUnder(e);
    if e.And? || e.Or? {
      BareUnder(e.left);
      BareUnder(e.right);
    } else if e.Not? {
      BareUnder(e.inner);
    }
  }

  lemma CompareWords(variable: string, op: string, value: string)
    ensures Join([variable, op, value], " ") == variable + " " + op + " " + value
  {
    assert [variable, op, value][1..] == [op, value] && [op, value][1..] == [value];
    JoinRegroup(variable, op, value);
    assert Join([value], " ") == value;
    assert Join([op, value], " ") == op + " " + value;
  }

  lemma BinaryWords(l: CondExpr, word: string, sep: string, r: CondExpr)
    requires sep == " " + word + " "
    ensures Join(Words(l) + ([word] + Words(r)), " ") == Join(Words(l), " ") + sep + Join(Words(r), " ")
  {
    JoinSplit(Words(l), [word] + Words(r));
    JoinSplit([word], Words(r));
    assert Join([word], " ") == word;
    SepRegroup(Join(Words(l), " "), word, Join(Words(r), " "));
  }

  lemma SepRegroup(x: string, word: string, z: string)
    ensures x + " " + (word + " " + z) == x + (" " + word + " ") + z
  {
  }

  lemma NotWords(e: CondExpr)
    ensures Join(["not"] + Words(e), " ") == "not " + Join(Words(e), " ")
  {
    JoinSplit(["not"], Words(e));
    assert Join(["not"], " ") == "not";
  }

  lemma {:induction false} FormatIsWords(e: CondExpr, parentPrec: nat)
    requires Bare(e, parentPrec)
    ensures Format(e, parentPrec) == Join(Words(e), " ")
    decreases e
  {
    match e
    case Compare(variable, op, value) =>
      CompareWords(variable, op, value);
    case And(l, r) =>
      FormatIsWords(l, PREC_AND);
      FormatIsWords(r, PREC_AND);
      BinaryWords(l, "and", " and ", r);
    case Or(l, r) =>
      FormatIsWords(l, PREC_OR);
      FormatIsWords(r, PREC_OR);
      BinaryWords(l, "or", " or ", r);
    case Not(inner) =>
      FormatIsWords(inner, PREC_NOT);
      NotWords(inner);
  }

  // ----- and what reading it gives

  function Unit(l: CondExpr): Unary
    requires Literal(l)
  {
    match l
    case Compare(variable, op, value) => Plain(Comparison(variable, false, op, value))
    case Not(inner) => Negated(Unit(inner))
  }

  lemma {:induction false} UnitExact(l: CondExpr)
    requires Literal(l) && WholeWords(l)
    ensures UnaryOk(Unit(l)) && UnaryTokens(Unit(l)) == Words(l) && UnaryExpr(Unit(l)) == l
    decreases l
  {
    if l.Not? {
      UnitExact(l.inner);
    }
  }

  ghost predicate GoodLiterals(ls: seq<CondExpr>) {
    forall l <- ls :: Literal(l) && WholeWords(l)
  }

  function ChainTail(word: string, ls: seq<CondExpr>): seq<string> {
    if ls == [] then [] else [word] + (Words(ls[0]) + ChainTail(word, ls[1..]))
  }

  lemma {:induction false} ChainTailSplit(word: string, a: seq<CondExpr>, b: seq<CondExpr>)
    ensures ChainTail(word, a + b) == ChainTail(word, a) + ChainTail(word, b)
    decreases |a|
  {
    if a == [] {
      assert a + b == b;
    } else {
      assert (a + b)[1..] == a[1..] + b;
      ChainTailSplit(word, a[1..], b);
      Nest(word, Words(a[0]), ChainTail(word, a[1..]), ChainTail(word, b));
    }
  }

  predicate TreeOf(conjunction: bool, e: CondExpr) {
    if conjunction then AndTree(e) else OrTree(e)
  }

  function Word(conjunction: bool): string {
    if conjunction then "and" else "or"
  }

  lemma {:induction false} LiteralsGood(conjunction: bool, e: CondExpr)
    requires TreeOf(conjunction, e) && WholeWords(e)
    ensures GoodLiterals(Literals(e))
    decreases e
  {
    if e.And? || e.Or? {
      LiteralsGood(conjunction, e.left);
      LiteralsGood(conjunction, e.right);
    }
  }

  lemma {:induction false} WordsAreChain(conjunction: bool, e: CondExpr)
    requires TreeOf(conjunction, e)
    ensures [Word(conjunction)] + Words(e) == ChainTail(Word(conjunction), Literals(e))
    decreases e
  {
    var word := Word(conjunction);
    if e.And? || e.Or? {
      WordsAreChain(conjunction, e.left);
      WordsAreChain(conjunction, e.right);
      ChainTailSplit(word, Literals(e.left), Literals(e.right));
      assert [word] + (Words(e.left) + ([word] + Words(e.right)))
          == ([word] + Words(e.left)) + ([word] + Words(e.right));
    } else {
      assert Literals(e)[1..] == [];
      assert Words(e) + [] == Words(e);
    }
  }

  function Units(ls: seq<CondExpr>): seq<Unary>
    requires forall l <- ls :: Literal(l)
  {
    if ls == [] then [] else [Unit(ls[0])] + Units(ls[1..])
  }

  function Alternatives(ls: seq<CondExpr>): seq<AndExpr>
    requires forall l <- ls :: Literal(l)
  {
    if ls == [] then [] else [AndExpr(Unit(ls[0]), [])] + Alternatives(ls[1..])
  }

  lemma {:induction false} UnitsExact(left: CondExpr, ls: seq<CondExpr>)
    requires GoodLiterals(ls)
    ensures forall u <- Units(ls) :: UnaryOk(u)
    ensures AndTail(Units(ls)) == ChainTail("and", ls)
    ensures FoldAnd(left, Units(ls)) == Chain(true, left, ls)
    decreases |ls|
  {
    if ls != [] {
      UnitExact(ls[0]);
      UnitsExact(And(left, ls[0]), ls[1..]);
      assert Units(ls)[1..] == Units(ls[1..]);
    }
  }

  lemma {:induction false} AlternativesExact(left: CondExpr, ls: seq<CondExpr>)
    requires GoodLiterals(ls)
    ensures forall a <- Alternatives(ls) :: AndOk(a)
    ensures OrTail(Alternatives(ls)) == ChainTail("or", ls)
    ensures FoldOr(left, Alternatives(ls)) == Chain(false, left, ls)
    decreases |ls|
  {
    if ls != [] {
      UnitExact(ls[0]);
      AlternativesExact(Or(left, ls[0]), ls[1..]);
      OneAlternative(ls[0]);
      assert Alternatives(ls)[1..] == Alternatives(ls[1..]);
    }
  }

  lemma OneAlternative(l: CondExpr)
    requires Literal(l)
    ensures AndTokens(AndExpr(Unit(l), [])) == UnaryTokens(Unit(l))
    ensures AndMeaning(AndExpr(Unit(l), [])) == UnaryExpr(Unit(l))
  {
  }

  /** Formatting a formula with a single connective and reading the text back gives the same literals
      in the same order, nested to the left. */
  lemma FormatThenParse(e: CondExpr)
    requires Single(e) && WholeWords(e) && EndsKept(Words(e))
    ensures Parse(FormatCondition(e)) == Some(LeftNested(e))
  {
    BareIsSingle(e);
    FormatIsWords(e, 0);
    WordsWhole(e);
    ParseOfWords(Words(e));
    var conjunction := AndTree(e);
    LiteralsGood(conjunction, e);
    var ls := Literals(e);
    var rest := ls[1..];
    assert forall l <- rest :: l in ls;
    UnitExact(ls[0]);
    WordsAreChain(conjunction, e);
    var tail := ChainTail(Word(conjunction), rest);
    assert Words(e) == ([Word(conjunction)] + Words(e))[1..];
    Cons(Word(conjunction), Words(ls[0]) + tail);
    var d;
    if conjunction {
      d := OrExpr(AndExpr(Unit(ls[0]), Units(rest)), []);
      UnitsExact(ls[0], rest);
      assert AndTokens(d.first) + [] == AndTokens(d.first);
    } else {
      d := OrExpr(AndExpr(Unit(ls[0]), []), Alternatives(rest));
      AlternativesExact(ls[0], rest);
      OneAlternative(ls[0]);
    }
    ParseComplete(d);
  }

  // ----- nesting to the left keeps the literals and the meaning

  ghost predicate AllHold(ls: seq<CondExpr>, ctx: map<string, string>, goal: string) {
    forall l <- ls :: ConditionMeaning.Eval(l, ctx, goal)
  }

  ghost predicate SomeHolds(ls: seq<CondExpr>, ctx: map<string, string>, goal: string) {
    exists l <- ls :: ConditionMeaning.Eval(l, ctx, goal)
  }

  lemma {:induction false} TreeMeaning(conjunction: bool, e: CondExpr, ctx: map<string, string>, goal: string)
    requires TreeOf(conjunction, e)
    ensures ConditionMeaning.Eval(e, ctx, goal)
        <==> if conjunction then AllHold(Literals(e), ctx, goal) else SomeHolds(Literals(e), ctx, goal)
    decreases e
  {
    if e.And? || e.Or? {
      TreeMeaning(conjunction, e.left, ctx, goal);
      TreeMeaning(conjunction, e.right, ctx, goal);
      assert forall l :: l in Literals(e) <==> l in Literals(e.left) || l in Literals(e.right);
    } else {
      assert e in Literals(e);
    }
  }

  lemma LiteralAlone(l: CondExpr)
    requires Literal(l)
    ensures AndTree(l) && OrTree(l) && Literals(l) == [l]
  {
  }

  lemma {:induction false} ChainIsTree(conjunction: bool, left: CondExpr, ls: seq<CondExpr>)
    requires TreeOf(conjunction, left) && forall l <- ls :: Literal(l)
    ensures TreeOf(conjunction, Chain(conjunction, left, ls))
    ensures Literals(Chain(conjunction, left, ls)) == Literals(left) + ls
    decreases |ls|
  {
    if ls != [] {
      var left' := if conjunction then And(left, ls[0]) else Or(left, ls[0]);
      assert ls[0] in ls;
      LiteralAlone(ls[0]);
      assert Literals(left') == Literals(left) + [ls[0]];
      ChainIsTree(conjunction, left', ls[1..]);
      assert Literals(left) + [ls[0]] + ls[1..] == Literals(left) + ls;
    }
  }

  lemma {:induction false} LiteralsOfTree(conjunction: bool, e: CondExpr)
    requires TreeOf(conjunction, e)
    ensures forall l <- Literals(e) :: Literal(l)
    decreases e
  {
    if e.And? || e.Or? {
      LiteralsOfTree(conjunction, e.left);
      LiteralsOfTree(conjunction, e.right);
    }
  }

  /** The formula read back holds in exactly the same contexts. */
  lemma LeftNestedSame(e: CondExpr, ctx: map<string, string>, goal: string)
    requires Single(e)
    ensures Single(LeftNested(e)) && Literals(LeftNested(e)) == Literals(e)
    ensures ConditionMeaning.Eval(LeftNested(e), ctx, goal) == ConditionMeaning.Eval(e, ctx, goal)
  {
    var conjunction := AndTree(e);
    var ls := Literals(e);
    LiteralsOfTree(conjunction, e);
    assert ls[0] in ls;
    LiteralAlone(ls[0]);
    ChainIsTree(conjunction, ls[0], ls[1..]);
    assert [ls[0]] + ls[1..] == ls;
    TreeMeaning(conjunction, e, ctx, goal);
    TreeMeaning(conjunction, LeftNested(e), ctx, goal);
  }
}
