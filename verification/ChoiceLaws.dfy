/** What the choice of an edge means in terms of the context: the operators one by one, and the order in
    which labels, conditions and defaults are consulted. */
module ChoiceLaws {
  import opened IR
  import opened Text
  import opened Lookup
  import opened Runs
  import opened Sequences
  import opened ConditionMeaning
  import opened EdgeChoice
  import opened RunContext

  // ----- what a comparison means

  /** The variable without its ctx. prefix is looked up first, then the whole name; then graph.goal stands for
      the goal of the workflow, and everything else for the empty text. */
  ghost predicate Denotes(variable: string, ctx: map<string, string>, goal: string, x: string) {
    || (exists k :: variable == "ctx." + k && k in ctx && x == ctx[k])
    || ((forall k :: variable == "ctx." + k ==> k !in ctx) &&
        if variable in ctx then x == ctx[variable] else if variable == "graph.goal" then x == goal else x == "")
  }

  lemma VariableDenotes(variable: string, ctx: map<string, string>, goal: string)
    ensures Denotes(variable, ctx, goal, ResolveVariable(variable, ctx, goal))
  {
    forall k | variable == "ctx." + k ensures TrimPrefix(variable, "ctx.") == k {
    }
    if "ctx." <= variable {
      assert variable == "ctx." + variable[4..];
    }
  }

  /** An item of the comma-separated list, apart from the white space around it. */
  ghost predicate ListedIn(x: string, list: string) {
    exists items: seq<string>, item ::
      && items != [] && (forall i :: i in items ==> ',' !in i) && Join(items, ",") == list
      && item in items && TrimsTo(item, x)
  }

  lemma InMeansListed(x: string, list: string)
    ensures EvalIn(x, list) <==> ListedIn(x, list)
  {
    if EvalIn(x, list) {
      var p :| p in Split(list, ',') && x == TrimSpace(p);
      JoinOfSplit(list, ',');
      SplitPieces(list, ',');
      TrimExact(p, x);
      assert [','] == ",";
    }
    if ListedIn(x, list) {
      var items, item :| items != [] && (forall i: string :: i in items ==> ',' !in i) && Join(items, ",") == list
                         && item in items && TrimsTo(item, x);
      assert [','] == ",";
      SplitJoin(items, ',');
      TrimExact(item, x);
    }
  }

  lemma TextOperatorsMean(x: string, value: string)
    ensures EvalOp("contains", x, value) <==> Within(value, x)
    ensures EvalOp("startswith", x, value) <==> BeginsWith(x, value)
    ensures EvalOp("endswith", x, value) <==> FinishesWith(x, value)
    ensures EvalOp("in", x, value) <==> ListedIn(x, value)
  {
    ContainsExact(x, value);
    PrefixExact(x, value);
    SuffixExact(x, value);
    InMeansListed(x, value);
  }

  /** The comparisons, for the value x that the variable stands for. */
  lemma ComparisonsMean(variable: string, value: string, ctx: map<string, string>, goal: string) returns (x: string)
    ensures Denotes(variable, ctx, goal, x)
    ensures Eval(Compare(variable, "=", value), ctx, goal) <==> x == value
    ensures Eval(Compare(variable, "==", value), ctx, goal) <==> x == value
    ensures Eval(Compare(variable, "!=", value), ctx, goal) <==> x != value
    ensures Eval(Compare(variable, "contains", value), ctx, goal) <==> Within(value, x)
    ensures Eval(Compare(variable, "startswith", value), ctx, goal) <==> BeginsWith(x, value)
    ensures Eval(Compare(variable, "endswith", value), ctx, goal) <==> FinishesWith(x, value)
    ensures Eval(Compare(variable, "in", value), ctx, goal) <==> ListedIn(x, value)
  {
    x := ResolveVariable(variable, ctx, goal);
    VariableDenotes(variable, ctx, goal);
    TextOperatorsMean(x, value);
  }

  /** A comparison with any other operator never holds. */
  lemma OtherOperatorsFail(variable: string, op: string, value: string, ctx: map<string, string>, goal: string)
    requires op !in {"=", "==", "!=", "contains", "startswith", "endswith", "in"}
    ensures !Eval(Compare(variable, op, value), ctx, goal)
  {
  }

  /** Negation turns one comparison into the other, and moves into both connectives. */
  lemma NegationMeans(variable: string, value: string, a: CondExpr, b: CondExpr, ctx: map<string, string>, goal: string)
    ensures Eval(Not(Compare(variable, "=", value)), ctx, goal) <==> Eval(Compare(variable, "!=", value), ctx, goal)
    ensures Eval(Not(And(a, b)), ctx, goal) <==> Eval(Or(Not(a), Not(b)), ctx, goal)
    ensures Eval(Not(Or(a, b)), ctx, goal) <==> Eval(And(Not(a), Not(b)), ctx, goal)
  {
  }

  // ----- which edge is taken

  lemma {:induction false} FirstWhereAt(edges: seq<Edge>, t: Test, sc: Scene, i: nat)
    requires i < |edges| && Passes(t, edges[i], sc) && forall j :: 0 <= j < i ==> !Passes(t, edges[j], sc)
    ensures FirstWhere(edges, t, sc) == Some(edges[i])
    decreases i
  {
    if i > 0 {
      assert !Passes(t, edges[0], sc);
      FirstWhereAt(edges[1..], t, sc, i - 1);
    }
  }

  lemma FirstWhereNone(edges: seq<Edge>, t: Test, sc: Scene)
    requires forall j :: 0 <= j < |edges| ==> !Passes(t, edges[j], sc)
    ensures FirstWhere(edges, t, sc) == None
  {
    FirstWhereIsFirst(edges, t, sc);
  }

  predicate OnlyWay(edges: seq<Edge>) {
    |edges| == 1 && edges[0].condition == None
  }

  /** A human node with a wish that is not empty. */
  predicate Wishes(n: Node, ctx: map<string, string>) {
    n.config.Human? && "preferred_label" in ctx && ctx["preferred_label"] != ""
  }

  ghost predicate Fits(e: Edge, sc: Scene)
    requires "preferred_label" in sc.ctx
  {
    exists a, b :: sc.lower(e.text) == a + sc.lower(sc.ctx["preferred_label"]) + b
  }

  lemma FitsExact(e: Edge, sc: Scene)
    requires "preferred_label" in sc.ctx
    ensures Fits(e, sc) <==> Passes(Labelled(sc.lower(sc.ctx["preferred_label"])), e, sc.(ctx := sc.ctx - {"preferred_label"}))
  {
    ContainsExact(sc.lower(e.text), sc.lower(sc.ctx["preferred_label"]));
  }

  /** A wish is met by the first edge whose lower-cased label contains it, whatever the conditions say. */
  lemma WishIsMet(n: Node, edges: seq<Edge>, sc: Scene, opts: Options, visits: nat, i: nat)
    requires !OnlyWay(edges) && Wishes(n, sc.ctx)
    requires i < |edges| && Fits(edges[i], sc) && forall j :: 0 <= j < i ==> !Fits(edges[j], sc)
    ensures Pick(n, edges, sc, opts, visits) == edges[i]
  {
    var t, later := Labelled(sc.lower(sc.ctx["preferred_label"])), sc.(ctx := sc.ctx - {"preferred_label"});
    forall j | 0 <= j <= i ensures Passes(t, edges[j], later) <==> Fits(edges[j], sc) {
      FitsExact(edges[j], sc);
    }
    FirstWhereAt(edges, t, later, i);
  }

  /** No label is in play. */
  ghost predicate NoWish(n: Node, edges: seq<Edge>, sc: Scene) {
    OnlyWay(edges) || !Wishes(n, sc.ctx) || forall e :: e in edges ==> !Fits(e, sc)
  }

  /** The context once a wish has been asked for, whether or not it was met. */
  function ContextAsked(n: Node, edges: seq<Edge>, ctx: map<string, string>): map<string, string> {
    if !OnlyWay(edges) && Wishes(n, ctx) then ctx - {"preferred_label"} else ctx
  }

  /** A condition speaks for its edge: it holds or, once the node has been visited more often than the limit, fails. */
  predicate Speaks(e: Edge, ctx: map<string, string>, goal: string, past: bool) {
    && e.condition.Some? && e.condition.value.parsed.Some?
    && Eval(e.condition.value.parsed.value, ctx, goal) == !past
  }

  lemma NothingWished(n: Node, edges: seq<Edge>, sc: Scene, opts: Options, visits: nat)
    requires edges != [] && !OnlyWay(edges) && NoWish(n, edges, sc)
    ensures Pick(n, edges, sc, opts, visits) ==
            PickByCondition(edges, sc.(ctx := ContextAsked(n, edges, sc.ctx)), opts.maxNodeVisits > 0 && visits > opts.maxNodeVisits)
  {
    if Wishes(n, sc.ctx) {
      var t, later := Labelled(sc.lower(sc.ctx["preferred_label"])), sc.(ctx := sc.ctx - {"preferred_label"});
      forall j | 0 <= j < |edges| ensures !Passes(t, edges[j], later) {
        assert edges[j] in edges;
        FitsExact(edges[j], sc);
      }
      FirstWhereNone(edges, t, later);
    }
  }

  lemma ByCondition(edges: seq<Edge>, sc: Scene, past: bool, i: nat)
    requires i < |edges|
    ensures Speaks(edges[i], sc.ctx, sc.goal, past) && (forall j :: 0 <= j < i ==> !Speaks(edges[j], sc.ctx, sc.goal, past)) ==>
              PickByCondition(edges, sc, past) == edges[i]
    ensures (forall j :: 0 <= j < |edges| ==> !Speaks(edges[j], sc.ctx, sc.goal, past)) && edges[i].condition == None
            && (forall j :: 0 <= j < i ==> edges[j].condition != None) ==>
              PickByCondition(edges, sc, past) == edges[i]
    ensures (forall j :: 0 <= j < |edges| ==> !Speaks(edges[j], sc.ctx, sc.goal, past) && edges[j].condition != None) ==>
              PickByCondition(edges, sc, past) == edges[0]
  {
    var t := if past then Unsatisfied else Satisfied;
    forall j | 0 <= j < |edges| ensures Speaks(edges[j], sc.ctx, sc.goal, past) <==> Passes(t, edges[j], sc) {
    }
    if Speaks(edges[i], sc.ctx, sc.goal, past) && forall j :: 0 <= j < i ==> !Speaks(edges[j], sc.ctx, sc.goal, past) {
      FirstWhereAt(edges, t, sc, i);
    }
    if forall j :: 0 <= j < |edges| ==> !Speaks(edges[j], sc.ctx, sc.goal, past) {
      FirstWhereNone(edges, t, sc);
      if edges[i].condition == None && forall j :: 0 <= j < i ==> edges[j].condition != None {
        FirstWhereAt(edges, Unconditional, sc, i);
      }
      if forall j :: 0 <= j < |edges| ==> edges[j].condition != None {
        FirstWhereNone(edges, Unconditional, sc);
      }
    }
  }

  /** Without a wish the conditions decide: the first edge whose condition speaks for it, past the visit limit
      the first whose condition fails; if there is none, the first edge without a condition; and if all have
      one, the very first edge. */
  lemma ConditionsDecide(n: Node, edges: seq<Edge>, sc: Scene, opts: Options, visits: nat, i: nat)
    requires i < |edges| && NoWish(n, edges, sc)
    ensures var ctx, past := ContextAsked(n, edges, sc.ctx), opts.maxNodeVisits > 0 && visits > opts.maxNodeVisits;
            && (Speaks(edges[i], ctx, sc.goal, past) && (forall j :: 0 <= j < i ==> !Speaks(edges[j], ctx, sc.goal, past)) ==>
                  Pick(n, edges, sc, opts, visits) == edges[i])
            && ((forall j :: 0 <= j < |edges| ==> !Speaks(edges[j], ctx, sc.goal, past)) && edges[i].condition == None
                && (forall j :: 0 <= j < i ==> edges[j].condition != None) ==>
                  Pick(n, edges, sc, opts, visits) == edges[i])
            && ((forall j :: 0 <= j < |edges| ==> !Speaks(edges[j], ctx, sc.goal, past) && edges[j].condition != None) ==>
                  Pick(n, edges, sc, opts, visits) == edges[0])
  {
    if OnlyWay(edges) {
      PickAvailable(n, edges, sc, opts, visits);
    } else {
      NothingWished(n, edges, sc, opts, visits);
      ByCondition(edges, sc.(ctx := ContextAsked(n, edges, sc.ctx)), opts.maxNodeVisits > 0 && visits > opts.maxNodeVisits, i);
    }
  }

  /** A run takes the edge that is picked in the context after the visits so far, with the goal of the workflow and
      the number of times that the path holds the node. */
  lemma NextEdgeIsPicked(s: Setting, path: seq<string>, n: Node)
    requires path != [] && FindNode(s.w.nodes, Last(path)) == Some(n) && EdgesFrom(s.w, Last(path)) != []
    ensures NextEdge(s, path) ==
            Some(Pick(n, EdgesFrom(s.w, Last(path)), Scene(ContextAt(s, path), s.w.goal, s.lower), s.opts, multiset(path)[Last(path)]))
  {
    VisitsAreOccurrences(path, Last(path));
  }

  /** The plainest branching: of two edges, one for a value of a context variable and one for every other value,
      the run takes the first exactly when the variable has that value. */
  lemma EqualityDecides(s: Setting, path: seq<string>, k: string, v: string, yes: Edge, no: Edge, text1: string, text2: string)
    requires path != [] && FindNode(s.w.nodes, Last(path)).Some? && EdgesFrom(s.w, Last(path)) == [yes, no]
    requires yes.condition == Some(Condition(text1, Some(Compare("ctx." + k, "=", v))))
    requires no.condition == Some(Condition(text2, Some(Compare("ctx." + k, "!=", v))))
    requires k in ContextAt(s, path) && !Wishes(FindNode(s.w.nodes, Last(path)).value, ContextAt(s, path))
    requires s.opts.maxNodeVisits <= 0 || multiset(path)[Last(path)] <= s.opts.maxNodeVisits
    ensures NextEdge(s, path) == Some(if ContextAt(s, path)[k] == v then yes else no)
  {
    var n, ctx := FindNode(s.w.nodes, Last(path)).value, ContextAt(s, path);
    VisitsAreOccurrences(path, Last(path));
    var sc := Scene(ctx, s.w.goal, s.lower);
    var x := ComparisonsMean("ctx." + k, v, ctx, s.w.goal);
    SameKey(k, ctx, s.w.goal, x);
    ConditionsDecide(n, [yes, no], sc, s.opts, VisitsOf(path, Last(path)), if x == v then 0 else 1);
  }

  lemma SameKey(k: string, ctx: map<string, string>, goal: string, x: string)
    requires k in ctx && Denotes("ctx." + k, ctx, goal, x)
    ensures x == ctx[k]
  {
    assert forall j :: "ctx." + k == "ctx." + j ==> ("ctx." + j)[4..] == j;
    assert ("ctx." + k)[4..] == k;
  }

  // ----- the context on the way

  function KeyIn(ctx: map<string, string>, x: string): Option<string> {
    if x in ctx then Some(ctx[x]) else None
  }

  /** The node itself sets the key to "success" unless the scenario speaks. */
  predicate SetsByDefault(n: Node, x: string) {
    || (n.config == Agent(true) && x == "outcome")
    || (n.config.Tool? && (x == "outcome" || x == "tool_stdout"))
  }

  lemma DefaultsSet(ctx: map<string, string>, scenario: map<string, string>, n: Node, x: string)
    ensures var seeded := ScenarioApplied(ctx, scenario, n.id);
            KeyIn(DefaultsApplied(ctx, scenario, n), x) ==
            if SetsByDefault(n, x) && x !in scenario && n.id + "." + x !in scenario then Some("success") else KeyIn(seeded, x)
  {
  }

  lemma ScenarioSets(ctx: map<string, string>, scenario: map<string, string>, id: string, x: string)
    ensures var own := id + "." + x;
            KeyIn(ScenarioApplied(ctx, scenario, id), x) ==
            if own in scenario then if scenario[own] == "" then None else Some(scenario[own]) else KeyIn(ctx, x)
  {
    ScenarioAt(ctx, scenario, id, x);
  }

  /** What a visit leaves under a key, for any node but forks and joins, which leave the context alone: the
      scenario's own entry for this node, where the empty text removes the key; failing that the default,
      if the node has one and the scenario none for the key; and otherwise what was there. */
  lemma VisitLeaves(s: Setting, path: seq<string>, n: Node, x: string)
    requires path != [] && FindNode(s.w.nodes, Last(path)) == Some(n)
    ensures var before, scenario, own := ContextBehind(s, path[..|path| - 1]), s.opts.scenario, n.id + "." + x;
            KeyIn(ContextAt(s, path), x) ==
            if n.config.Parallel? || n.config.FanIn? then KeyIn(before, x)
            else if own in scenario then if scenario[own] == "" then None else Some(scenario[own])
            else if SetsByDefault(n, x) && x !in scenario then Some("success")
            else KeyIn(before, x)
  {
    DefaultsSet(ContextBehind(s, path[..|path| - 1]), s.opts.scenario, n, x);
    ScenarioSets(ContextBehind(s, path[..|path| - 1]), s.opts.scenario, n.id, x);
  }

  /** A run starts in the context of the scenario, and leaves a node with the wish used up if it was asked for. */
  lemma ContextGoesOn(s: Setting, path: seq<string>, n: Node)
    requires path != [] && FindNode(s.w.nodes, Last(path)) == Some(n)
    ensures ContextBehind(s, []) == s.opts.scenario
    ensures var edges := EdgesFrom(s.w, Last(path));
            ContextBehind(s, path) == if edges == [] then ContextAt(s, path) else ContextAsked(n, edges, ContextAt(s, path))
  {
  }
}
