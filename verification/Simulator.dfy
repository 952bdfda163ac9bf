/** The reference executor: one run from the start node, choosing edges by labels, conditions and
    defaults, walking parallel branches up to their join, and recording a trace of events. */
module Simulator {
  import opened IR
  import opened Graphs
  import opened Lookup
  import opened Runs
  import opened Text
  import opened Sequences
  import opened EdgeChoice
  import opened RunContext
  import opened Traces
  import opened PathEnumerator
  import opened Branches
  import opened RunShape

  const MAX_STEPS: nat := 500

  // ----- a run under way

  ghost predicate NoParallels(w: Workflow) {
    forall n :: n in w.nodes ==> !n.config.Parallel?
  }

  ghost predicate NoEmptyTargets(w: Workflow) {
    forall id, e :: e in EdgesFrom(w, id) ==> e.to != ""
  }

  /** The edges traversed along a path, in order: at each node the one picked in the context there, and
      none only where no edge leads on or where a parallel node leads to its branches instead. */
  ghost predicate Recorded(s: Setting, path: seq<string>, trail: seq<Edge>)
    decreases |path|
  {
    if path == [] then trail == []
    else
      var front := path[..|path| - 1];
      || (Recorded(s, front, trail) && (NextEdge(s, path).None? || AtParallel(s.w, Last(path))))
      || (trail != [] && NextEdge(s, path) == Some(Last(trail)) && Recorded(s, front, trail[..|trail| - 1]))
  }

  predicate AtParallel(w: Workflow, id: string) {
    var n := FindNode(w.nodes, id);
    n.Some? && n.value.config.Parallel?
  }

  /** All of a result's path, but for an exit, which is not left. */
  ghost predicate RecordedToEnd(s: Setting, r: RunResult) {
    var trail := Traversals(r.events);
    || Recorded(s, r.path, trail)
    || (r.path != [] && r.status == "success" && Recorded(s, r.path[..|r.path| - 1], trail))
  }

  function WithNext(trail: seq<Edge>, next: Option<Edge>): seq<Edge> {
    if next.Some? then trail + [next.value] else trail
  }

  lemma RecordedNext(s: Setting, path: seq<string>, trail: seq<Edge>)
    requires path != [] && Recorded(s, path[..|path| - 1], trail)
    ensures Recorded(s, path, WithNext(trail, NextEdge(s, path)))
  {
    var next := NextEdge(s, path);
    if next.Some? {
      assert (trail + [next.value])[..|trail|] == trail;
    }
  }

  /** Each edge of the trail is the one picked at its node of the path, in the context there. */
  ghost predicate Picked(s: Setting, path: seq<string>, trail: seq<Edge>) {
    |trail| <= |path| && forall i :: 0 <= i < |trail| ==> PickedAt(s, path, trail, i)
  }

  ghost predicate PickedAt(s: Setting, path: seq<string>, trail: seq<Edge>, i: nat)
    requires i < |trail| <= |path|
  {
    NextEdge(s, path[..i + 1]) == Some(trail[i])
  }

  lemma PickedStep(s: Setting, path: seq<string>, trail: seq<Edge>, current: string, e: Edge)
    requires Picked(s, path, trail) && |trail| == |path| && NextEdge(s, path + [current]) == Some(e)
    ensures Picked(s, path + [current], trail + [e])
  {
    var longer, more := path + [current], trail + [e];
    forall i | 0 <= i < |more| ensures PickedAt(s, longer, more, i) {
      if i < |trail| {
        assert PickedAt(s, path, trail, i);
        assert longer[..i + 1] == path[..i + 1];
      } else {
        FullPrefix(longer);
      }
    }
  }

  /** The last node of the path need not have been left yet. */
  lemma PickedBefore(s: Setting, path: seq<string>, trail: seq<Edge>, current: string)
    requires Picked(s, path, trail)
    ensures Picked(s, path + [current], trail)
  {
    var longer := path + [current];
    forall i | 0 <= i < |trail| ensures PickedAt(s, longer, trail, i) {
      assert PickedAt(s, path, trail, i);
      assert longer[..i + 1] == path[..i + 1];
    }
  }

  /** Without parallel nodes, the edges traversed so far are the picked ones, and lead from the start
      along the path to the current node, without touching the exit before. */
  ghost predicate Underway(s: Setting, trail: seq<Edge>, path: seq<string>, current: string) {
    && Follows(SpaceOf(s.w), trail)
    && PathOf(s.w.start, trail) == path + [current]
    && s.w.exit !in path
    && Elements(path) <= NodeIds(s.w.nodes)
    && Picked(s, path, trail)
  }

  lemma UnderwayVisited(s: Setting, trail: seq<Edge>, path: seq<string>, current: string)
    requires Underway(s, trail, path, current) && current in NodeIds(s.w.nodes)
    ensures |trail| == |path| && Here(s.w.start, trail) == current
    ensures PathOf(s.w.start, trail)[..|trail|] == path
    ensures Elements(path + [current]) <= NodeIds(s.w.nodes)
  {
    PathOfExtend(s.w.start, trail, Implied("", ""));
    VisitsAppend(path, current);
  }

  lemma FollowsExtend(g: Space, trail: seq<Edge>, e: Edge)
    requires Follows(g, trail) && e in g.next(Here(g.start, trail))
    ensures Follows(g, trail + [e])
  {
    PathOfExtend(g.start, trail, e);
    var t := trail + [e];
    forall i | 0 <= i < |t| ensures t[i] in g.next(PathOf(g.start, t)[i]) {
      assert PathOf(g.start, t)[i] == PathOf(g.start, trail)[i];
      if i == |trail| {
        assert PathOf(g.start, trail)[|trail|] == Here(g.start, trail);
      }
    }
  }

  lemma UnderwayFollows(s: Setting, trail: seq<Edge>, path: seq<string>, current: string, e: Edge)
    requires Follows(SpaceOf(s.w), trail) && Here(s.w.start, trail) == current && NextEdge(s, path + [current]) == Some(e)
    ensures Follows(SpaceOf(s.w), trail + [e])
    ensures PathOf(s.w.start, trail + [e]) == PathOf(s.w.start, trail) + [e.to]
  {
    NextEdgeAvailable(s, path + [current]);
    PathOfExtend(s.w.start, trail, e);
    FollowsExtend(SpaceOf(s.w), trail, e);
  }

  /** The picked edge continues the walk. */
  lemma UnderwayStep(s: Setting, trail: seq<Edge>, path: seq<string>, current: string, e: Edge)
    requires Underway(s, trail, path, current) && current in NodeIds(s.w.nodes) && current != s.w.exit
    requires NextEdge(s, path + [current]) == Some(e)
    ensures Underway(s, trail + [e], path + [current], e.to)
  {
    UnderwayVisited(s, trail, path, current);
    UnderwayFollows(s, trail, path, current, e);
    PickedStep(s, path, trail, current, e);
  }

  /** Whatever edge is picked, it continues the walk. */
  lemma PickLeadsOn(s: Setting, trail: seq<Edge>, path: seq<string>, n: Node)
    requires FindNode(s.w.nodes, n.id) == Some(n) && n.id != s.w.exit
    ensures match NextEdge(s, path + [n.id])
            case Some(e) =>
              && (NoEmptyTargets(s.w) ==> e.to != "")
              && (Underway(s, trail, path, n.id) ==> Underway(s, trail + [e], path + [n.id], e.to))
            case None => EdgesFrom(s.w, n.id) == []
  {
    NextEdgeAvailable(s, path + [n.id]);
    var next := NextEdge(s, path + [n.id]);
    if next.Some? && Underway(s, trail, path, n.id) {
      UnderwayStep(s, trail, path, n.id, next.value);
    }
  }

  /** Between two steps of the main loop. */
  ghost predicate AtNode(s: Setting, trail: seq<Edge>, path: seq<string>, current: string) {
    && Shaped(s, path, current)
    && (NoParallels(s.w) ==> Underway(s, trail, path, current))
    && (if path == [] then current == s.w.start else path[0] == s.w.start)
  }

  lemma VisitRecorded(s: Setting, trace: seq<Event>, before: seq<string>, n: Node, middle: seq<Event>)
    requires Trace(trace, before) && AllAside(middle) && Recorded(s, before, Traversals(trace))
    requires FindNode(s.w.nodes, n.id) == Some(n)
    ensures var events, path := trace + VisitBlock(n.id, middle), before + [n.id];
            && Trace(events, path) && Traversals(events) == Traversals(trace)
            && ContextAt(s, path) == AfterVisit(ContextBehind(s, before), s.opts.scenario, n)
            && Recorded(s, path[..|path| - 1], Traversals(events))
  {
    TraceVisit(trace, before, n.id, middle);
    ContextVisited(s, before, n);
    assert (before + [n.id])[..|before|] == before;
  }

  lemma OpeningTrace(s: Setting)
    ensures Trace([PipelineStart], []) && AtNode(s, Traversals([PipelineStart]), [], s.w.start)
  {
    SingleProjects(PipelineStart);
    assert PathOf(s.w.start, []) == [] + [s.w.start];
    ShapedBegins(s);
  }

  // ----- what holds of every result

  /** The result is a trace in progress with its closing event. */
  ghost predicate Closing(body: seq<Event>, r: RunResult) {
    Trace(body, r.path) && r.events == body + [PipelineEnd(r.status, r.nodesVisited)]
  }

  ghost predicate Closes(r: RunResult, path: seq<string>, status: string) {
    && r.path == path && r.status == status && r.nodesVisited == |Elements(path)|
    && exists body :: Closing(body, r)
  }

  /** The trace is opened once and closed once, enters and leaves the nodes of the path in turn,
      and the counts agree with the path, whose length the step limit bounds. */
  ghost predicate WellFormed(r: RunResult) {
    && (exists body :: Closing(body, r))
    && r.nodesVisited == |Elements(r.path)|
    && |r.path| <= 501
    && r.status in {"success", "dead_end"}
  }

  /** Without parallel nodes: the traversed edges are the picked ones and lead from the start along the
      path; the exit can only be its last node, which it is exactly for a success; a dead end has no
      way on. */
  ghost predicate WalksToEnd(s: Setting, r: RunResult) {
    var trail := Traversals(r.events);
    var last := Here(s.w.start, trail);
    && Follows(SpaceOf(s.w), trail)
    && PathOf(s.w.start, trail) == r.path
    && Picked(s, r.path, trail)
    && s.w.exit !in r.path[..|trail|]
    && Elements(r.path) <= NodeIds(s.w.nodes)
    && (r.status == "success" <==> last == s.w.exit)
    && (r.status == "dead_end" <==> last != s.w.exit && EdgesFrom(s.w, last) == [])
  }

  lemma EndsWell(s: Setting, trail: seq<Edge>, path: seq<string>, current: string, r: RunResult, status: string)
    requires Underway(s, trail, path, current) && current in NodeIds(s.w.nodes)
    requires Closes(r, path + [current], status) && Traversals(r.events) == trail
    requires if current == s.w.exit then status == "success" else status == "dead_end" && EdgesFrom(s.w, current) == []
    ensures WalksToEnd(s, r)
  {
    UnderwayVisited(s, trail, path, current);
    PickedBefore(s, path, trail, current);
    assert r.path[..|trail|] == path;
  }

  /** What every result satisfies. */
  ghost predicate GoodResult(s: Setting, r: RunResult) {
    && WellFormed(r)
    && RunShaped(s, r.path, r.status)
    && RecordedToEnd(s, r)
    && [s.w.start] <= r.path
    && (NoParallels(s.w) && NoEmptyTargets(s.w) ==> WalksToEnd(s, r))
  }

  lemma GoodEnd(s: Setting, path: seq<string>, status: string, r: RunResult)
    requires Closes(r, path, status) && status in {"success", "dead_end"} && |path| <= MAX_STEPS + 1
    requires RunShaped(s, path, status) && RecordedToEnd(s, r) && path != [] && path[0] == s.w.start
    requires NoParallels(s.w) && NoEmptyTargets(s.w) ==> WalksToEnd(s, r)
    ensures GoodResult(s, r)
  {
  }

  // ----- when a run is aborted

  /** Turned to an undeclared node, or all the steps are used up. */
  predicate AbortsAt(w: Workflow, e: RunError, path: seq<string>, next: string) {
    match e
    case NodeMissing(id) => id == next && next !in NodeIds(w.nodes)
    case TooManySteps => |path| >= 500
    case _ => false
  }

  ghost predicate Abortive(s: Setting, e: RunError) {
    exists path, next :: OnTheWay(s, path, next) && AbortsAt(s.w, e, path, next)
  }

  lemma AbortsOnMainLine(s: Setting, e: RunError, path: seq<string>, next: string)
    requires Shaped(s, path, next) && AbortsAt(s.w, e, path, next)
    ensures Abortive(s, e)
  {
    assert OnTheWay(s, path, next);
  }

  /** With declared endpoints a run is aborted for its length only. */
  lemma OnlyTooLong(s: Setting, e: RunError)
    requires EndpointsDeclared(s.w) && CheckInput(s.w).None? && Abortive(s, e)
    ensures e == TooManySteps
  {
    var path, next :| OnTheWay(s, path, next) && AbortsAt(s.w, e, path, next);
    OnTheWayDeclared(s, path, next);
  }

  // ----- the executor

  datatype RunOutcome = Finished(result: RunResult) | Aborted(error: RunError)

  datatype StepResult = Next(id: string) | Done(result: RunResult) | Error(error: RunError)

  class Executor {
    const w: Workflow
    const opts: Options
    const lower: string -> string
    var ctx: map<string, string>
    var visited: set<string>
    var nodeVisits: map<string, nat>
    var events: seq<Event>
    var path: seq<string>
    var steps: nat

    constructor (w: Workflow, opts: Options, lower: string -> string)
      ensures this.w == w && this.opts == opts && this.lower == lower && ctx == opts.scenario
      ensures events == [] && path == [] && visited == {} && nodeVisits == map[] && steps == 0
    {
      this.w, this.opts, this.lower, ctx := w, opts, lower, opts.scenario;
      visited, nodeVisits, events, path, steps := {}, map[], [], [], 0;
    }

    ghost predicate Valid()
      reads this`events, this`path, this`visited, this`nodeVisits
    {
      Trace(events, path) && visited == Elements(path) && CountsMatch(nodeVisits, path)
    }

    function Given(): Setting {
      Setting(w, opts, lower)
    }

    /** An edge is chosen, or no node is visited yet. */
    ghost predicate Behind()
      reads this`ctx, this`path, this`events
    {
      ctx == ContextBehind(Given(), path) && Recorded(Given(), path, Traversals(events))
    }

    /** A node is visited, an edge not yet chosen. */
    ghost predicate Visiting()
      reads this`ctx, this`path, this`events
    {
      path != [] && ctx == ContextAt(Given(), path) && Recorded(Given(), path[..|path| - 1], Traversals(events))
    }

    method UpdateContext(key: string, val: string)
      modifies this`ctx, this`events
      ensures ctx == old(ctx)[key := val] && events == old(events) + [ContextUpdate(key, val)]
    {
      ctx := ctx[key := val];
      events := events + [ContextUpdate(key, val)];
    }

    method ApplyEntry(id: string, k: string) returns (ghost updates: seq<Event>)
      requires k in opts.scenario
      modifies this`ctx, this`events
      ensures ctx == AfterEntry(old(ctx), id, k, opts.scenario[k])
      ensures events == old(events) + updates && AllAside(updates)
    {
      updates := [];
      if HasPrefix(k, id + ".") {
        var key := TrimPrefix(k, id + ".");
        var v := opts.scenario[k];
        if v == "" {
          ctx := ctx - {key};
        } else {
          UpdateContext(key, v);
          updates := [ContextUpdate(key, v)];
        }
      }
    }

    /** The entries are taken in an arbitrary order; the resulting context does not depend on it. */
    method ApplyNodeScenario(id: string) returns (ghost updates: seq<Event>)
      modifies this`ctx, this`events
      ensures ctx == ScenarioApplied(old(ctx), opts.scenario, id)
      ensures events == old(events) + updates && AllAside(updates)
    {
      updates := [];
      var todo := opts.scenario.Keys;
      ScenarioBegin(ctx, opts.scenario, id);
      while todo != {}
        invariant todo <= opts.scenario.Keys
        invariant ctx == ScenarioExcept(old(ctx), opts.scenario, todo, id)
        invariant events == old(events) + updates && AllAside(updates)
      {
        var k :| k in todo;
        ScenarioNext(old(ctx), opts.scenario, todo, id, k);
        ghost var more := ApplyEntry(id, k);
        Assoc(old(events), updates, more);
        updates := updates + more;
        todo := todo - {k};
      }
    }

    method SetContextDefault(key: string, id: string) returns (ghost updates: seq<Event>)
      modifies this`ctx, this`events
      ensures ctx == WithDefault(old(ctx), opts.scenario, key, id)
      ensures events == old(events) + updates && AllAside(updates)
    {
      updates := [];
      if ScenarioHasKey(opts.scenario, key, id) {
        return;
      }
      UpdateContext(key, "success");
      updates := [ContextUpdate(key, "success")];
    }

    method ApplyNodeDefaults(n: Node) returns (ghost updates: seq<Event>)
      modifies this`ctx, this`events
      ensures ctx == DefaultsApplied(old(ctx), opts.scenario, n)
      ensures events == old(events) + updates && AllAside(updates)
    {
      updates := ApplyNodeScenario(n.id);
      match n.config {
        case Agent(autoStatus) =>
          if autoStatus {
            ghost var more := SetContextDefault("outcome", n.id);
            updates := updates + more;
          }
        case Tool =>
          ghost var first := SetContextDefault("tool_stdout", n.id);
          ghost var second := SetContextDefault("outcome", n.id);
          updates := updates + first + second;
        case _ =>
      }
    }

    method EmitNodeEvents(n: Node) returns (ghost middle: seq<Event>)
      modifies this`ctx, this`events
      ensures events == old(events) + VisitBlock(n.id, middle) && AllAside(middle)
      ensures ctx == AfterVisit(old(ctx), opts.scenario, n)
      ensures n.config.Parallel? ==> middle == [ParallelStart(n.id, n.config.targets)]
      ensures n.config.FanIn? ==> middle == [ParallelEnd(n.id, n.config.sources)]
    {
      events := events + [NodeEnter(n.id)];
      match n.config {
        case Parallel(targets, _) =>
          events := events + [ParallelStart(n.id, targets)];
          middle := [ParallelStart(n.id, targets)];
        case FanIn(sources) =>
          events := events + [ParallelEnd(n.id, sources)];
          middle := [ParallelEnd(n.id, sources)];
        case _ =>
          middle := ApplyNodeDefaults(n);
      }
      events := events + [NodeExit(n.id)];
      assert events == old(events) + ([NodeEnter(n.id)] + middle + [NodeExit(n.id)]);
    }

    method CountVisit(id: string)
      requires visited == Elements(path) && CountsMatch(nodeVisits, path)
      modifies this`visited, this`nodeVisits, this`path
      ensures visited == Elements(path) && CountsMatch(nodeVisits, path)
      ensures path == old(path) + [id] && path[..|path| - 1] == old(path)
    {
      BumpMatches(nodeVisits, path, id);
      VisitsAppend(path, id);
      visited := visited + {id};
      nodeVisits := Bump(nodeVisits, id);
      path := path + [id];
    }

    /** Enters and leaves a node, with the events of its kind in between. */
    method VisitNode(n: Node)
      requires Valid() && Behind() && FindNode(w.nodes, n.id) == Some(n)
      modifies this`ctx, this`visited, this`nodeVisits, this`events, this`path
      ensures Valid() && Visiting() && path == old(path) + [n.id]
      ensures Traversals(events) == Traversals(old(events))
      ensures ctx == AfterVisit(old(ctx), opts.scenario, n)
    {
      ghost var before, trace := path, events;
      CountVisit(n.id);
      ghost var middle := EmitNodeEvents(n);
      VisitRecorded(Given(), trace, before, n, middle);
    }

    function CurrentScene(): Scene
      reads this`ctx
    {
      Scene(ctx, w.goal, lower)
    }

    function VisitCount(id: string): nat
      reads this`nodeVisits
    {
      if id in nodeVisits then nodeVisits[id] else 0
    }

    /** Scans for the first edge that passes, and records its traversal. */
    method Scan(edges: seq<Edge>, t: Test) returns (e: Option<Edge>)
      modifies this`events
      ensures e == FirstWhere(edges, t, CurrentScene())
      ensures events == old(events) + if e.Some? then [EdgeTraverse(e.value)] else []
    {
      for i := 0 to |edges|
        invariant events == old(events)
        invariant FirstWhere(edges, t, CurrentScene()) == FirstWhere(edges[i..], t, CurrentScene())
      {
        assert edges[i..][1..] == edges[i + 1..];
        if Passes(t, edges[i], CurrentScene()) {
          events := events + [EdgeTraverse(edges[i])];
          return Some(edges[i]);
        }
      }
      e := None;
    }

    method ResolveConditionalNext(id: string, edges: seq<Edge>) returns (e: Edge, ghost asides: seq<Event>)
      requires edges != []
      modifies this`events
      ensures e == PickByCondition(edges, CurrentScene(), BreaksLoop(opts, VisitCount(id)))
      ensures events == old(events) + (asides + [EdgeTraverse(e)])
      ensures asides == if BreaksLoop(opts, VisitCount(id)) then [ContextUpdate("_loop_break", id)] else []
    {
      asides := [];
      var wanted := Satisfied;
      if BreaksLoop(opts, VisitCount(id)) {
        events := events + [ContextUpdate("_loop_break", id)];
        asides := [ContextUpdate("_loop_break", id)];
        wanted := Unsatisfied;
      }
      var found := Scan(edges, wanted);
      if found.Some? {
        return found.value, asides;
      }
      found := Scan(edges, Unconditional);
      if found.Some? {
        return found.value, asides;
      }
      events := events + [EdgeTraverse(edges[0])];
      e := edges[0];
    }

    /** A preferred label is used up whether or not an edge matches it. */
    method ResolveByLabel(n: Node, edges: seq<Edge>) returns (e: Option<Edge>)
      modifies this`ctx, this`events
      ensures e == PickByLabel(n, edges, old(CurrentScene()))
      ensures events == old(events) + if e.Some? then [EdgeTraverse(e.value)] else []
      ensures ctx == if LabelOf(n, old(ctx)) == "" then old(ctx) else old(ctx) - {"preferred_label"}
    {
      var wish := LabelOf(n, ctx);
      if wish == "" {
        return None;
      }
      ctx := ctx - {"preferred_label"};
      e := Scan(edges, Labelled(lower(wish)));
    }

    method ChooseEdge(n: Node, edges: seq<Edge>) returns (e: Edge, ghost asides: seq<Event>)
      requires edges != []
      modifies this`ctx, this`events
      ensures e == Pick(n, edges, old(CurrentScene()), opts, VisitCount(n.id))
      ensures events == old(events) + (asides + [EdgeTraverse(e)]) && AllAside(asides)
      ensures ctx == CtxAfterLabel(n, edges, old(ctx))
    {
      asides := [];
      if |edges| == 1 && edges[0].condition.None? {
        events := events + [EdgeTraverse(edges[0])];
        return edges[0], [];
      }
      var byLabel := ResolveByLabel(n, edges);
      if byLabel.Some? {
        return byLabel.value, [];
      }
      e, asides := ResolveConditionalNext(n.id, edges);
    }

    /** The node to visit next, or the empty ID when no edge leads on. */
    method ResolveNext(n: Node) returns (next: string)
      requires Valid() && Visiting() && Last(path) == n.id && FindNode(w.nodes, n.id) == Some(n)
      modifies this`ctx, this`events
      ensures Valid() && Behind() && next == NextId(Given(), path)
      ensures Traversals(events) == WithNext(Traversals(old(events)), NextEdge(Given(), path))
    {
      var edges := CollectEdgesFrom(w, n.id);
      VisitedCounts(path, n.id);
      RecordedNext(Given(), path, Traversals(events));
      if |edges| == 0 {
        return "";
      }
      var e, asides := ChooseEdge(n, edges);
      TraceStep(old(events), path, asides, e);
      next := e.to;
    }

    // ----- parallel branches

    method WalkBranchStep(current: string) returns (next: string, err: Option<RunError>)
      requires Valid() && Behind() && |path| == steps + 1
      modifies this`ctx, this`visited, this`nodeVisits, this`events, this`path, this`steps
      ensures Valid() && Behind()
      ensures err.None? ==> path == old(path) + [current] && |path| == steps + 1 && steps == old(steps) + 1
      ensures err.None? ==> current in NodeIds(w.nodes) && next == NextId(Given(), path)
      ensures err.Some? <==> FindNode(w.nodes, current).None?
      ensures err.Some? ==> err == Some(NodeMissing(current)) && path == old(path) && steps == old(steps)
    {
      var node := FindNode(w.nodes, current);
      if node.None? {
        return "", Some(NodeMissing(current));
      }
      VisitNode(node.value);
      steps := steps + 1;
      next := ResolveNext(node.value);
      err := None;
    }

    /** Walks one branch up to the join, a dead end, or the step limit, which is an error. */
    method WalkBranchToJoin(target: string, joinId: string) returns (err: Option<RunError>, ghost seg: seq<string>, ghost at: string)
      requires Valid() && Behind() && |path| == steps + 1 && steps <= MAX_STEPS
      modifies this`ctx, this`visited, this`nodeVisits, this`events, this`path, this`steps
      ensures path == old(path) + seg
      ensures err.None? ==> BranchDone(GuideOf(Given()), target, joinId, old(path), seg)
      ensures err.None? ==> Valid() && Behind() && |path| == steps + 1 && steps <= MAX_STEPS
      ensures err.Some? ==> InBranch(GuideOf(Given()), target, joinId, old(path), seg, path, at) && AbortsAt(w, err.value, path, at)
    {
      ghost var g := GuideOf(Given());
      var current := target;
      seg := [];
      InBranchBegins(g, target, joinId, path);
      while steps < MAX_STEPS
        invariant Valid() && Behind() && |path| == steps + 1 && steps <= MAX_STEPS
        invariant InBranch(g, target, joinId, old(path), seg, path, current)
        decreases MAX_STEPS - steps
      {
        if current == joinId {
          return None, seg, current;
        }
        ghost var before := path;
        var next;
        next, err := WalkBranchStep(current);
        if err.Some? {
          return err, seg, current;
        }
        InBranchStep(g, target, joinId, old(path), seg, before, current, next);
        seg := seg + [current];
        if next == "" {
          return None, seg, "";
        }
        current := next;
      }
      return Some(TooManySteps), seg, current;
    }

    /** The targets flagged in the options; all of them when none is. */
    method ChooseBranches(targets: seq<string>) returns (selected: seq<string>)
      ensures selected == SelectBranches(opts.branch, targets)
    {
      if |opts.branch| == 0 {
        return targets;
      }
      selected := [];
      for i := 0 to |targets|
        invariant selected == Selected(opts.branch, targets[..i])
      {
        assert targets[..i + 1][..i] == targets[..i];
        if targets[i] in opts.branch && opts.branch[targets[i]] {
          selected := selected + [targets[i]];
        }
      }
      assert targets[..|targets|] == targets;
      if |selected| == 0 {
        return targets;
      }
    }

    method LocateJoin(targets: seq<string>) returns (id: string)
      ensures id == FindJoinNode(w.nodes, targets)
    {
      assert w.nodes[0..] == w.nodes;
      for i := 0 to |w.nodes|
        invariant FindJoinNode(w.nodes[i..], targets) == FindJoinNode(w.nodes, targets)
      {
        assert w.nodes[i..][1..] == w.nodes[i + 1..];
        if w.nodes[i].config.FanIn? {
          var matching := SourcesMatch(w.nodes[i].config.sources, targets);
          if matching {
            return w.nodes[i].id;
          }
        }
      }
      id := "";
    }

    method SourcesMatch(sources: seq<string>, targets: seq<string>) returns (b: bool)
      ensures b <==> sources != [] && forall x :: x in sources ==> x in targets
    {
      for i := 0 to |sources|
        invariant forall j :: 0 <= j < i ==> sources[j] in targets
      {
        if sources[i] !in targets {
          return false;
        }
      }
      b := |sources| > 0;
    }

    /** Walks the selected branches in order; the run goes on at the join, if there is one. */
    method WalkParallelBranches(targets: seq<string>, branches: seq<string>)
      returns (r: StepResult, ghost rest: seq<string>, ghost at: string)
      requires Valid() && Behind() && |path| == steps + 1 && steps <= MAX_STEPS
      modifies this`ctx, this`visited, this`nodeVisits, this`events, this`path, this`steps
      ensures path == old(path) + rest
      ensures !r.Error? ==> Branched(Given(), targets, branches, old(path), rest)
      ensures r.Next? ==> Valid() && Behind() && |path| == steps + 1 && steps <= MAX_STEPS && r.id == JoinOf(Given(), targets, branches) != ""
      ensures r.Done? ==> JoinOf(Given(), targets, branches) == "" && Closes(r.result, path, "dead_end") && |path| <= MAX_STEPS + 1
      ensures r.Done? ==> RecordedToEnd(Given(), r.result)
      ensures r.Error? ==> Branching(Given(), targets, branches, old(path), rest, at) && AbortsAt(w, r.error, path, at)
    {
      ghost var s := Given();
      var resolved := ResolveTargets(targets, branches);
      var joinId := LocateJoin(resolved);
      var selected := ChooseBranches(resolved);
      ghost var segs: seq<seq<string>> := [];
      InBranchesBegins(GuideOf(s), selected, joinId, path);
      for i := 0 to |selected|
        invariant Valid() && Behind() && |path| == steps + 1 && steps <= MAX_STEPS
        invariant InBranches(GuideOf(s), selected, joinId, i, old(path), segs, path)
      {
        ghost var before := path;
        var err, seg, stop := WalkBranchToJoin(selected[i], joinId);
        if err.Some? {
          StillBranching(s, targets, branches, selected, joinId, i, old(path), segs, before, seg, path, stop);
          return Error(err.value), Flat(segs) + seg, stop;
        }
        InBranchesStep(GuideOf(s), selected, joinId, i, old(path), segs, before, seg);
        segs := segs + [seg];
      }
      AllBranchesWalked(s, targets, branches, selected, joinId, old(path), segs, path);
      if joinId == "" {
        var result := FinishRun("dead_end");
        return Done(result), Flat(segs), "";
      }
      return Next(joinId), Flat(segs), joinId;
    }

    method FinishRun(status: string) returns (r: RunResult)
      requires Valid()
      modifies this`events
      ensures Closes(r, path, status) && Traversals(r.events) == Traversals(old(events))
    {
      ghost var before := events;
      events := events + [PipelineEnd(status, |visited|)];
      r := RunResult(events, |visited|, status, path);
      assert Closing(before, r);
      ProjectConcat(before, [PipelineEnd(status, |visited|)]);
      SingleProjects(PipelineEnd(status, |visited|));
    }

    /** A run that nothing leads on from the node just visited. */
    method FinishStuck(n: Node, ghost before: seq<string>) returns (r: StepResult)
      requires Valid() && Behind() && path == before + [n.id] && n.id in NodeIds(w.nodes) && n.id != w.exit
      requires NoParallels(w) && EdgesFrom(w, n.id) == [] ==> Underway(Given(), Traversals(events), before, n.id)
      modifies this`events
      ensures r.Done? && Closes(r.result, path, "dead_end") && RecordedToEnd(Given(), r.result)
      ensures NoParallels(w) && EdgesFrom(w, n.id) == [] ==> WalksToEnd(Given(), r.result)
    {
      ghost var trail := Traversals(events);
      var result := FinishRun("dead_end");
      if NoParallels(w) && EdgesFrom(w, n.id) == [] {
        EndsWell(Given(), trail, before, n.id, result, "dead_end");
      }
      r := Done(result);
    }

    method AdvanceAlongEdge(n: Node, ghost before: seq<string>) returns (r: StepResult)
      requires Valid() && Visiting() && |path| <= MAX_STEPS && path == before + [n.id]
      requires FindNode(w.nodes, n.id) == Some(n) && n.id != w.exit && !n.config.Parallel?
      requires Shaped(Given(), before, n.id)
      requires NoParallels(w) ==> Underway(Given(), Traversals(events), before, n.id)
      modifies this`ctx, this`events
      ensures r.Next? ==> Valid() && Behind() && Shaped(Given(), path, r.id)
      ensures r.Next? && NoParallels(w) ==> Underway(Given(), Traversals(events), path, r.id)
      ensures r.Done? ==> Closes(r.result, path, "dead_end") && RunShaped(Given(), path, "dead_end")
      ensures r.Done? ==> RecordedToEnd(Given(), r.result)
      ensures r.Done? && NoParallels(w) && NoEmptyTargets(w) ==> WalksToEnd(Given(), r.result)
      ensures !r.Error?
    {
      ghost var s, trail := Given(), Traversals(events);
      PickLeadsOn(s, trail, before, n);
      var next := ResolveNext(n);
      AlongEdge(s, before, n, next);
      if next == "" {
        r := FinishStuck(n, before);
        return;
      }
      r := Next(next);
    }

    /** Between two steps of the main loop, with so many nodes visited. */
    ghost predicate Ready(current: string, done: nat)
      reads this`events, this`path, this`visited, this`nodeVisits, this`ctx
    {
      Valid() && Behind() && |path| == done && AtNode(Given(), Traversals(events), path, current)
    }

    method AdvanceOverBranches(n: Node, ghost before: seq<string>) returns (r: StepResult)
      requires Valid() && Visiting() && |path| == steps + 1 && steps < MAX_STEPS && path == before + [n.id]
      requires n.id != w.exit && FindNode(w.nodes, n.id) == Some(n) && n.config.Parallel?
      requires Shaped(Given(), before, n.id)
      modifies this`ctx, this`visited, this`nodeVisits, this`events, this`path, this`steps
      ensures old(path) <= path
      ensures r.Next? ==> Valid() && Behind() && |path| == steps + 1 && Shaped(Given(), path, r.id)
      ensures r.Done? ==> Closes(r.result, path, "dead_end") && |path| <= MAX_STEPS + 1
      ensures r.Done? ==> RunShaped(Given(), path, "dead_end") && RecordedToEnd(Given(), r.result)
      ensures r.Error? ==> Abortive(Given(), r.error)
    {
      ParallelKeepsContext(Given(), path, n);
      ghost var rest, at;
      r, rest, at := WalkParallelBranches(n.config.targets, n.config.branches);
      if r.Error? {
        AmidBranches(Given(), before, n, rest, at);
      } else {
        BehindBranches(Given(), before, n, rest);
      }
    }

    /** Resolves the next node after a visited one, or finishes at a dead end. */
    method AdvanceToNext(n: Node, ghost before: seq<string>) returns (r: StepResult)
      requires Valid() && Visiting() && |path| == steps + 1 && steps < MAX_STEPS && path == before + [n.id]
      requires n.id != w.exit && FindNode(w.nodes, n.id) == Some(n) && AtNode(Given(), Traversals(events), before, n.id)
      modifies this`ctx, this`visited, this`nodeVisits, this`events, this`path, this`steps
      ensures r.Next? ==> Ready(r.id, steps + 1) && steps >= old(steps)
      ensures r.Done? ==> GoodResult(Given(), r.result)
      ensures r.Error? ==> Abortive(Given(), r.error)
    {
      assert path[0] == w.start;
      if n.config.Parallel? {
        assert !NoParallels(w);
        r := AdvanceOverBranches(n, before);
      } else {
        r := AdvanceAlongEdge(n, before);
      }
      if r.Done? {
        GoodEnd(Given(), path, "dead_end", r.result);
      }
    }

    method FinishAtExit(ghost before: seq<string>) returns (r: StepResult)
      requires Valid() && Visiting() && path == before + [w.exit] && w.exit in NodeIds(w.nodes) && |path| <= MAX_STEPS + 1
      requires AtNode(Given(), Traversals(events), before, w.exit)
      modifies this`events
      ensures r.Done? && GoodResult(Given(), r.result)
    {
      ghost var trail := Traversals(events);
      AtExit(Given(), before);
      var result := FinishRun("success");
      if NoParallels(w) {
        EndsWell(Given(), trail, before, w.exit, result, "success");
      }
      GoodEnd(Given(), path, "success", result);
      r := Done(result);
    }

    method StepNode(current: string) returns (r: StepResult)
      requires Ready(current, steps) && steps < MAX_STEPS
      modifies this`ctx, this`visited, this`nodeVisits, this`events, this`path, this`steps
      ensures r.Next? ==> Ready(r.id, steps + 1) && steps >= old(steps)
      ensures r.Done? ==> GoodResult(Given(), r.result)
      ensures r.Error? ==> Abortive(Given(), r.error)
    {
      var node := FindNode(w.nodes, current);
      if node.None? {
        AbortsOnMainLine(Given(), NodeMissing(current), path, current);
        return Error(NodeMissing(current));
      }
      VisitNode(node.value);
      if current == w.exit {
        r := FinishAtExit(old(path));
        return;
      }
      r := AdvanceToNext(node.value, old(path));
    }

    method Begin()
      requires events == [] && path == [] && visited == {} && nodeVisits == map[] && ctx == opts.scenario
      modifies this`events
      ensures Ready(w.start, 0)
    {
      events := events + [PipelineStart];
      OpeningTrace(Given());
      assert [] + [PipelineStart] == [PipelineStart];
    }

    method Execute() returns (r: RunOutcome)
      requires CheckInput(w).None? && ctx == opts.scenario
      requires events == [] && path == [] && visited == {} && nodeVisits == map[] && steps == 0
      modifies this
      ensures r.Aborted? ==> Abortive(Given(), r.error)
      ensures r.Finished? ==> GoodResult(Given(), r.result)
    {
      Begin();
      var current := w.start;
      while steps < MAX_STEPS
        invariant Ready(current, steps)
        decreases MAX_STEPS - steps
      {
        var step := StepNode(current);
        match step {
          case Error(e) => return Aborted(e);
          case Done(result) => return Finished(result);
          case Next(id) => current := id;
        }
        steps := steps + 1;
      }
      AbortsOnMainLine(Given(), TooManySteps, path, current);
      r := Aborted(TooManySteps);
    }
  }

  /** One run. Every result is well-formed, starts at the start node and has the shape of a run:
      each node of the main line leads to the next by the edge picked there, a parallel node through all
      its selected branches to its join. On a workflow without parallel nodes it is a walk along the
      picked edges that ends at the exit or where nothing leads on. A run is aborted where it turns to an
      undeclared node or has used up all its steps; with declared endpoints only the latter happens. */
  method Run(w: Workflow, opts: Options, lower: string -> string) returns (r: RunOutcome)
    ensures CheckInput(w).Some? ==> r == Aborted(CheckInput(w).value)
    ensures CheckInput(w).None? && r.Aborted? ==> Abortive(Setting(w, opts, lower), r.error)
    ensures CheckInput(w).None? && r.Aborted? && EndpointsDeclared(w) ==> r.error == TooManySteps
    ensures r.Finished? ==> CheckInput(w).None? && WellFormed(r.result) && [w.start] <= r.result.path
    ensures r.Finished? ==> RunShaped(Setting(w, opts, lower), r.result.path, r.result.status)
    ensures r.Finished? ==> RecordedToEnd(Setting(w, opts, lower), r.result)
    ensures r.Finished? && NoParallels(w) && NoEmptyTargets(w) ==> WalksToEnd(Setting(w, opts, lower), r.result)
  {
    var bad := CheckInput(w);
    if bad.Some? {
      return Aborted(bad.value);
    }
    var s := new Executor(w, opts, lower);
    r := s.Execute();
    if r.Aborted? && EndpointsDeclared(w) {
      OnlyTooLong(Setting(w, opts, lower), r.error);
    }
  }

  // ----- single runs and the all-paths enumeration

  /** A run on a workflow without parallel nodes that enters no node more than twice follows one of
      the walks that the all-paths mode reports: same path, same status, same count. */
  lemma RunIsEnumerated(s: Setting, r: RunResult)
    requires WellFormed(r) && WalksToEnd(s, r) && AtMostTwice(r.path) && |r.path| <= 201
    ensures var trail := Traversals(r.events);
            && trail in Trails(SpaceOf(s.w), [])
            && Report(s.w, trail).path == r.path
            && Report(s.w, trail).status == r.status
            && Report(s.w, trail).nodesVisited == r.nodesVisited
  {
    var trail := Traversals(r.events);
    assert Here(s.w.start, trail) in Elements(r.path) by {
      PathOfExtend(s.w.start, trail, Implied("", ""));
    }
    assert Passable(SpaceOf(s.w), r.path[..|trail|]) by {
      forall i | 0 <= i < |trail| ensures r.path[..|trail|][i] in NodeIds(s.w.nodes) && r.path[..|trail|][i] != s.w.exit {
        assert r.path[i] in Elements(r.path) && r.path[..|trail|][i] in r.path[..|trail|];
      }
    }
    assert Reportable(SpaceOf(s.w), trail);
    SearchExact(SpaceOf(s.w), trail);
  }
}
