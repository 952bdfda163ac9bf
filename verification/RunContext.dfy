/** The context of a run: the scenario, what each visited node sets by default, and the labels used
    up on the way. It is decided by the nodes visited so far, and with it the edge that is taken next. */
module RunContext {
  import opened IR
  import opened Lookup
  import opened Runs
  import opened EdgeChoice
  import opened Sequences

  // ----- what a visit sets

  /** The keys that the scenario sets for one node under "id.key". */
  function ScopedKeys(scenario: map<string, string>, id: string): set<string> {
    set k | k in scenario && id + "." <= k :: k[|id| + 1..]
  }

  /** The context after the node's own scenario values: an empty value clears its key. */
  function ScenarioApplied(ctx: map<string, string>, scenario: map<string, string>, id: string): map<string, string> {
    map k | k in ctx.Keys + ScopedKeys(scenario, id) &&
            (if id + "." + k in scenario then scenario[id + "." + k] != "" else k in ctx) ::
      if id + "." + k in scenario then scenario[id + "." + k] else ctx[k]
  }

  predicate ScenarioHasKey(scenario: map<string, string>, key: string, id: string) {
    key in scenario || id + "." + key in scenario
  }

  function WithDefault(ctx: map<string, string>, scenario: map<string, string>, key: string, id: string): map<string, string> {
    if ScenarioHasKey(scenario, key, id) then ctx else ctx[key := "success"]
  }

  function DefaultsApplied(ctx: map<string, string>, scenario: map<string, string>, n: Node): map<string, string> {
    var seeded := ScenarioApplied(ctx, scenario, n.id);
    match n.config
    case Agent(true) => WithDefault(seeded, scenario, "outcome", n.id)
    case Tool => WithDefault(WithDefault(seeded, scenario, "tool_stdout", n.id), scenario, "outcome", n.id)
    case _ => seeded
  }

  /** What the context holds for one key after some scenario entries. */
  function ScenarioGet(ctx: map<string, string>, part: map<string, string>, id: string, x: string): Option<string> {
    var full := id + "." + x;
    if full in part then if part[full] == "" then None else Some(part[full])
    else if x in ctx then Some(ctx[x])
    else None
  }

  ghost predicate Holds(ctx: map<string, string>, x: string, v: Option<string>) {
    if v.None? then x !in ctx else x in ctx && ctx[x] == v.value
  }

  lemma ScenarioAt(ctx: map<string, string>, part: map<string, string>, id: string, x: string)
    ensures Holds(ScenarioApplied(ctx, part, id), x, ScenarioGet(ctx, part, id, x))
  {
    var full := id + "." + x;
    if full in part {
      assert full[|id| + 1..] == x;
      assert x in ScopedKeys(part, id);
    }
  }

  lemma SameHolds(a: map<string, string>, b: map<string, string>, f: string -> Option<string>)
    requires forall x :: Holds(a, x, f(x)) && Holds(b, x, f(x))
    ensures a == b
  {
    forall x ensures x in a <==> x in b {
      assert Holds(a, x, f(x)) && Holds(b, x, f(x));
    }
    forall x | x in a ensures a[x] == b[x] {
      assert Holds(a, x, f(x)) && Holds(b, x, f(x));
    }
  }

  function AfterEntry(ctx: map<string, string>, id: string, k: string, v: string): map<string, string> {
    if !(id + "." <= k) then ctx
    else if v == "" then ctx - {k[|id| + 1..]}
    else ctx[k[|id| + 1..] := v]
  }

  /** One scenario entry more, whichever comes next. */
  lemma ScenarioStep(ctx: map<string, string>, part: map<string, string>, id: string, k: string, v: string)
    requires k !in part
    ensures ScenarioApplied(ctx, part[k := v], id) == AfterEntry(ScenarioApplied(ctx, part, id), id, k, v)
  {
    var f := x => ScenarioGet(ctx, part[k := v], id, x);
    forall x ensures Holds(AfterEntry(ScenarioApplied(ctx, part, id), id, k, v), x, f(x)) {
      ScenarioAt(ctx, part, id, x);
      assert (id + "." + x)[|id| + 1..] == x;
      if id + "." <= k {
        assert id + "." + k[|id| + 1..] == k;
      }
    }
    forall x ensures Holds(ScenarioApplied(ctx, part[k := v], id), x, f(x)) {
      ScenarioAt(ctx, part[k := v], id, x);
    }
    SameHolds(ScenarioApplied(ctx, part[k := v], id), AfterEntry(ScenarioApplied(ctx, part, id), id, k, v), f);
  }

  /** The context after all scenario entries but those still to come. */
  function ScenarioExcept(ctx: map<string, string>, scenario: map<string, string>, todo: set<string>, id: string): map<string, string> {
    if todo == {} then ScenarioApplied(ctx, scenario, id) else ScenarioApplied(ctx, scenario - todo, id)
  }

  lemma ScenarioBegin(ctx: map<string, string>, scenario: map<string, string>, id: string)
    ensures ScenarioExcept(ctx, scenario, scenario.Keys, id) == ctx
  {
    assert scenario - scenario.Keys == map[];
    assert scenario.Keys == {} ==> scenario == map[];
    var f := x => ScenarioGet(ctx, map[], id, x);
    forall x ensures Holds(ScenarioApplied(ctx, map[], id), x, f(x)) {
      ScenarioAt(ctx, map[], id, x);
    }
    SameHolds(ScenarioApplied(ctx, map[], id), ctx, f);
  }

  lemma OneLess(scenario: map<string, string>, todo: set<string>, k: string)
    requires k in todo && k in scenario
    ensures scenario - (todo - {k}) == (scenario - todo)[k := scenario[k]]
  {
  }

  lemma NoneLess(scenario: map<string, string>)
    ensures scenario - {} == scenario
  {
  }

  lemma ScenarioNext(ctx: map<string, string>, scenario: map<string, string>, todo: set<string>, id: string, k: string)
    requires k in todo && todo <= scenario.Keys
    ensures ScenarioExcept(ctx, scenario, todo - {k}, id) == AfterEntry(ScenarioExcept(ctx, scenario, todo, id), id, k, scenario[k])
  {
    ScenarioStep(ctx, scenario - todo, id, k, scenario[k]);
    OneLess(scenario, todo, k);
    NoneLess(scenario);
  }

  // ----- the context along a path

  /** A run is decided by the workflow, the options, and the lower-casing of labels. */
  datatype Setting = Setting(w: Workflow, opts: Options, lower: string -> string)

  function AfterVisit(ctx: map<string, string>, scenario: map<string, string>, n: Node): map<string, string> {
    if n.config.Parallel? || n.config.FanIn? then ctx else DefaultsApplied(ctx, scenario, n)
  }

  /** The context once the last node of the path is visited, before an edge is chosen. */
  function ContextAt(s: Setting, path: seq<string>): map<string, string>
    requires path != []
    decreases |path|, 0
  {
    var ctx := ContextBehind(s, path[..|path| - 1]);
    match FindNode(s.w.nodes, Last(path))
    case None => ctx
    case Some(n) => AfterVisit(ctx, s.opts.scenario, n)
  }

  /** The context once an edge out of the last node of the path is chosen. */
  function ContextBehind(s: Setting, path: seq<string>): map<string, string>
    decreases |path|, 1
  {
    if path == [] then s.opts.scenario
    else
      var edges := EdgesFrom(s.w, Last(path));
      match FindNode(s.w.nodes, Last(path))
      case Some(n) => if edges == [] then ContextAt(s, path) else CtxAfterLabel(n, edges, ContextAt(s, path))
      case None => ContextAt(s, path)
  }

  /** The edge taken out of the last node of the path. */
  function NextEdge(s: Setting, path: seq<string>): Option<Edge>
    requires path != []
  {
    var edges := EdgesFrom(s.w, Last(path));
    match FindNode(s.w.nodes, Last(path))
    case Some(n) =>
      if edges == [] then None
      else Some(Pick(n, edges, Scene(ContextAt(s, path), s.w.goal, s.lower), s.opts, VisitsOf(path, Last(path))))
    case None => None
  }

  /** The node it leads to, or the empty ID when no edge leads on. */
  function NextId(s: Setting, path: seq<string>): string
    requires path != []
  {
    match NextEdge(s, path)
    case Some(e) => e.to
    case None => ""
  }

  /** One of the edges out of the node is taken, unless it has none. */
  lemma NextEdgeAvailable(s: Setting, path: seq<string>)
    requires path != []
    ensures match NextEdge(s, path)
            case Some(e) => e in EdgesFrom(s.w, Last(path))
            case None => Last(path) !in NodeIds(s.w.nodes) || EdgesFrom(s.w, Last(path)) == []
  {
    var edges := EdgesFrom(s.w, Last(path));
    var n := FindNode(s.w.nodes, Last(path));
    if n.Some? && edges != [] {
      PickAvailable(n.value, edges, Scene(ContextAt(s, path), s.w.goal, s.lower), s.opts, VisitsOf(path, Last(path)));
    }
  }

  lemma ContextVisited(s: Setting, path: seq<string>, n: Node)
    requires FindNode(s.w.nodes, n.id) == Some(n)
    ensures ContextAt(s, path + [n.id]) == AfterVisit(ContextBehind(s, path), s.opts.scenario, n)
  {
    assert (path + [n.id])[..|path|] == path;
  }

  /** No edge is chosen at a parallel node itself. */
  lemma ParallelKeepsContext(s: Setting, path: seq<string>, n: Node)
    requires path != [] && Last(path) == n.id && FindNode(s.w.nodes, n.id) == Some(n) && n.config.Parallel?
    ensures ContextBehind(s, path) == ContextAt(s, path)
  {
  }
}
