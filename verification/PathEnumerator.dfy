/** The all-paths mode of the simulator: a depth-first search that records every walk from
    the start node to the exit node or to a dead end, entering no node more than twice. */
module PathEnumerator {
  import opened IR
  import opened Graphs
  import opened Lookup
  import opened Runs
  import opened Sequences

  const MAX_DEPTH: nat := 200
  const MAX_RESULTS: nat := 100

  // ----- walks as sequences of edges

  function PathOf(start: string, trail: seq<Edge>): (p: seq<string>)
    ensures |p| == |trail| + 1
    ensures p[0] == start
    ensures forall i :: 0 <= i < |trail| ==> p[i + 1] == trail[i].to
  {
    [start] + seq(|trail|, i requires 0 <= i < |trail| => trail[i].to)
  }

  function Here(start: string, trail: seq<Edge>): string {
    if trail == [] then start else trail[|trail| - 1].to
  }

  lemma PathOfExtend(start: string, trail: seq<Edge>, e: Edge)
    ensures PathOf(start, trail + [e]) == PathOf(start, trail) + [e.to]
    ensures Here(start, trail + [e]) == e.to
    ensures PathOf(start, trail)[|trail|] == Here(start, trail)
  {
  }

  /** The graph as the search sees it: the declared nodes and the edges that lead on from each. */
  datatype Space = Space(start: string, exit: string, declared: set<string>, next: string -> seq<Edge>)

  function SpaceOf(w: Workflow): Space {
    Space(w.start, w.exit, NodeIds(w.nodes), id => EdgesFrom(w, id))
  }

  /** The trail follows edges that the lookup offers, beginning at the start node. */
  ghost predicate Follows(g: Space, trail: seq<Edge>) {
    forall i {:trigger trail[i]} :: 0 <= i < |trail| ==> trail[i] in g.next(PathOf(g.start, trail)[i])
  }

  ghost predicate AtMostTwice(path: seq<string>) {
    forall x :: VisitsOf(path, x) <= 2
  }

  /** The nodes are declared and none of them is the exit. */
  ghost predicate Passable(g: Space, nodes: seq<string>) {
    forall i :: 0 <= i < |nodes| ==> nodes[i] in g.declared && nodes[i] != g.exit
  }

  /** A walk worth reporting: it follows declared nodes, enters none more than twice, does not
      pass through the exit, and stops at the exit or where there is no way on. */
  ghost predicate Reportable(g: Space, trail: seq<Edge>) {
    var path := PathOf(g.start, trail);
    var here := Here(g.start, trail);
    && Follows(g, trail)
    && Passable(g, path[..|trail|])
    && here in g.declared
    && AtMostTwice(path)
    && (here == g.exit || g.next(here) == [])
  }

  // ----- the search, without the cap on the number of results

  function Trails(g: Space, trail: seq<Edge>): seq<seq<Edge>>
    decreases MAX_DEPTH + 1 - |trail|, 0
  {
    var here := Here(g.start, trail);
    if |trail| > MAX_DEPTH || VisitsOf(PathOf(g.start, trail)[..|trail|], here) >= 2 || here !in g.declared then []
    else if here == g.exit || g.next(here) == [] then [trail]
    else TrailsOver(g, trail, g.next(here))
  }

  function TrailsOver(g: Space, trail: seq<Edge>, edges: seq<Edge>): seq<seq<Edge>>
    requires |trail| <= MAX_DEPTH
    decreases MAX_DEPTH - |trail|, 1, edges
  {
    if edges == [] then []
    else Trails(g, trail + [edges[0]]) + TrailsOver(g, trail, edges[1..])
  }

  /** The current node may be entered. */
  ghost predicate Enters(g: Space, trail: seq<Edge>) {
    && |trail| <= MAX_DEPTH
    && VisitsOf(PathOf(g.start, trail)[..|trail|], Here(g.start, trail)) < 2
    && Here(g.start, trail) in g.declared
  }

  /** A walk that entered its current node ends there. */
  ghost predicate Stops(g: Space, trail: seq<Edge>) {
    Here(g.start, trail) == g.exit || g.next(Here(g.start, trail)) == []
  }

  // ----- what is recorded for a walk

  function NodeEvents(nodes: seq<Node>, id: string): seq<Event> {
    var n := FindNode(nodes, id);
    if n.None? then []
    else [NodeEnter(id)] + KindEvents(n.value) + [NodeExit(id)]
  }

  function KindEvents(n: Node): seq<Event> {
    match n.config
    case Parallel(targets, _) => [ParallelStart(n.id, targets)]
    case FanIn(sources) => [ParallelEnd(n.id, sources)]
    case _ => []
  }

  function EventsOf(w: Workflow, trail: seq<Edge>): seq<Event> {
    if trail == [] then [PipelineStart] + NodeEvents(w.nodes, w.start)
    else
      var last := trail[|trail| - 1];
      EventsOf(w, trail[..|trail| - 1]) + [EdgeTraverse(last)] + NodeEvents(w.nodes, last.to)
  }

  function Report(w: Workflow, trail: seq<Edge>): RunResult {
    var path := PathOf(w.start, trail);
    var status := if Here(w.start, trail) == w.exit then "success" else "dead_end";
    RunResult(EventsOf(w, trail) + [PipelineEnd(status, |Elements(path)|)], |Elements(path)|, status, path)
  }

  function Reports(w: Workflow, trails: seq<seq<Edge>>): seq<RunResult> {
    if trails == [] then [] else [Report(w, trails[0])] + Reports(w, trails[1..])
  }

  lemma {:induction false} ReportsAt(w: Workflow, trails: seq<seq<Edge>>, k: nat)
    requires k < |trails|
    ensures |Reports(w, trails)| == |trails| && Reports(w, trails)[k] == Report(w, trails[k])
  {
    if |trails| > 1 {
      ReportsAt(w, trails[1..], if k == 0 then 0 else k - 1);
    }
  }

  function Take<T>(s: seq<T>, n: int): seq<T> {
    if n <= 0 then [] else if |s| <= n then s else s[..n]
  }

  lemma {:induction false} ReportsJoin(w: Workflow, a: seq<seq<Edge>>, b: seq<seq<Edge>>)
    ensures Reports(w, a + b) == Reports(w, a) + Reports(w, b)
  {
    if a == [] {
      assert a + b == b;
    } else {
      TailOfJoin(a, b);
      ReportsJoin(w, a[1..], b);
    }
  }

  /** What is recorded so far, extended with further entries up to the cap. */
  function Capped<T>(acc: seq<T>, more: seq<T>): seq<T> {
    acc + Take(more, MAX_RESULTS - |acc|)
  }

  lemma TakeConcat<T>(a: seq<T>, b: seq<T>, n: nat)
    ensures Take(a + b, n) == Take(a, n) + Take(b, n - |Take(a, n)|)
  {
    if n <= |a| {
      assert (a + b)[..n] == a[..n];
    } else if n < |a| + |b| {
      assert (a + b)[..n] == a + b[..n - |a|];
    }
  }

  lemma CappedJoin<T>(acc: seq<T>, a: seq<T>, b: seq<T>)
    requires |acc| <= MAX_RESULTS
    ensures |Capped(acc, a)| <= MAX_RESULTS
    ensures Capped(acc, a + b) == Capped(Capped(acc, a), b)
  {
    TakeConcat(a, b, MAX_RESULTS - |acc|);
  }

  lemma CappedCases<T>(acc: seq<T>, more: seq<T>)
    requires |acc| <= MAX_RESULTS
    ensures more == [] || |acc| == MAX_RESULTS ==> Capped(acc, more) == acc
    ensures |more| == 1 && |acc| < MAX_RESULTS ==> Capped(acc, more) == acc + [more[0]]
  {
  }

  // ----- the search as implemented

  /** The simulator state handed down the search tree. */
  datatype PathState = PathState(nodeId: string, visited: map<string, nat>, events: seq<Event>,
                                 path: seq<string>, depth: nat)

  /** A state that arrives along the given trail, before the current node is entered. */
  ghost predicate Arrives(w: Workflow, st: PathState, trail: seq<Edge>) {
    && st.nodeId == Here(w.start, trail)
    && st.path == PathOf(w.start, trail)[..|trail|]
    && st.depth == |trail|
    && CountsMatch(st.visited, st.path)
    && st.events == (if trail == [] then []
                     else EventsOf(w, trail[..|trail| - 1]) + [EdgeTraverse(trail[|trail| - 1])])
  }

  lemma EnterPath(start: string, trail: seq<Edge>)
    ensures PathOf(start, trail)[..|trail|] + [Here(start, trail)] == PathOf(start, trail)
  {
    PathOfExtend(start, trail, Implied("", ""));
  }

  /** Entering the current node completes the record of the trail. */
  lemma EnterCompletes(w: Workflow, st: PathState, trail: seq<Edge>)
    requires Arrives(w, st, trail)
    ensures st.path + [st.nodeId] == PathOf(w.start, trail)
    ensures CountsMatch(Bump(st.visited, st.nodeId), PathOf(w.start, trail))
    ensures |Bump(st.visited, st.nodeId)| == |Elements(PathOf(w.start, trail))|
  {
    EnterPath(w.start, trail);
    BumpMatches(st.visited, st.path, st.nodeId);
  }

  lemma ArrivesCount(w: Workflow, st: PathState, trail: seq<Edge>)
    requires Arrives(w, st, trail)
    ensures (if st.nodeId in st.visited then st.visited[st.nodeId] else 0) == VisitsOf(PathOf(w.start, trail)[..|trail|], Here(w.start, trail))
  {
    VisitedCounts(st.path, st.nodeId);
  }

  lemma EnterEvents(w: Workflow, st: PathState, trail: seq<Edge>)
    requires Arrives(w, st, trail)
    ensures (if st.events == [] then [PipelineStart] else st.events) + NodeEvents(w.nodes, st.nodeId) == EventsOf(w, trail)
  {
  }

  /** What the search below a trail records, by the three ways it can go on. */
  lemma ReportsByCase(w: Workflow, trail: seq<Edge>)
    ensures var g := SpaceOf(w);
            Reports(w, Trails(g, trail)) ==
            if !Enters(g, trail) then []
            else if Stops(g, trail) then [Report(w, trail)]
            else Reports(w, TrailsOver(g, trail, EdgesFrom(w, Here(w.start, trail))))
  {
    var g := SpaceOf(w);
    if Enters(g, trail) && Stops(g, trail) {
      assert Trails(g, trail) == [trail];
    }
  }

  lemma RecordIsReport(w: Workflow, trail: seq<Edge>, visited: map<string, nat>, status: string)
    requires |visited| == |Elements(PathOf(w.start, trail))|
    requires status == if Here(w.start, trail) == w.exit then "success" else "dead_end"
    ensures RunResult(EventsOf(w, trail) + [PipelineEnd(status, |visited|)], |visited|, status, PathOf(w.start, trail)) == Report(w, trail)
  {
  }

  lemma ArriveBy(w: Workflow, trail: seq<Edge>, e: Edge, visited: map<string, nat>, branchEvents: seq<Event>)
    requires CountsMatch(visited, PathOf(w.start, trail)) && branchEvents == EventsOf(w, trail) + [EdgeTraverse(e)]
    ensures Arrives(w, PathState(e.to, visited, branchEvents, PathOf(w.start, trail), |trail| + 1), trail + [e])
  {
    PathOfExtend(w.start, trail, e);
    assert (trail + [e])[..|trail|] == trail;
  }

  class Enumerator {
    const w: Workflow
    var results: seq<RunResult>

    constructor (w: Workflow)
      ensures this.w == w && results == []
    {
      this.w := w;
      results := [];
    }

    method ShouldExplore(st: PathState) returns (go: bool)
      ensures go <==> |results| < MAX_RESULTS && st.depth <= MAX_DEPTH &&
                      (if st.nodeId in st.visited then st.visited[st.nodeId] else 0) < 2
    {
      if |results| >= MAX_RESULTS || st.depth > MAX_DEPTH {
        return false;
      }
      go := (if st.nodeId in st.visited then st.visited[st.nodeId] else 0) < 2;
    }

    method RecordPath(events: seq<Event>, visited: map<string, nat>, path: seq<string>, status: string)
      modifies this`results
      ensures results == old(results) + [RunResult(events + [PipelineEnd(status, |visited|)], |visited|, status, path)]
    {
      var done := events + [PipelineEnd(status, |visited|)];
      results := results + [RunResult(done, |visited|, status, path)];
    }

    method Explore(st: PathState, ghost trail: seq<Edge>)
      requires Arrives(w, st, trail) && |results| <= MAX_RESULTS && |trail| <= MAX_DEPTH + 1
      modifies this`results
      ensures results == Capped(old(results), Reports(w, Trails(SpaceOf(w), trail))) && |results| <= MAX_RESULTS
      decreases MAX_DEPTH + 1 - |trail|, 0
    {
      EnterCompletes(w, st, trail);
      ArrivesCount(w, st, trail);
      EnterEvents(w, st, trail);
      ReportsByCase(w, trail);
      CappedCases(results, Reports(w, Trails(SpaceOf(w), trail)));
      var go := ShouldExplore(st);
      if !go {
        return;
      }
      var node := FindNode(w.nodes, st.nodeId);
      if node.None? {
        return;
      }
      var visited := Bump(st.visited, st.nodeId);
      var path := st.path + [st.nodeId];
      var events := if st.events == [] then [PipelineStart] else st.events;
      events := events + NodeEvents(w.nodes, st.nodeId);
      if st.nodeId == w.exit {
        RecordIsReport(w, trail, visited, "success");
        RecordPath(events, visited, path, "success");
        return;
      }
      var edges := CollectEdgesFrom(w, st.nodeId);
      if |edges| == 0 {
        RecordIsReport(w, trail, visited, "dead_end");
        RecordPath(events, visited, path, "dead_end");
        return;
      }
      ExploreEdges(edges, events, visited, path, st.depth, trail);
    }

    method ExploreEdges(edges: seq<Edge>, events: seq<Event>, visited: map<string, nat>, path: seq<string>,
                        depth: nat, ghost trail: seq<Edge>)
      requires |trail| <= MAX_DEPTH && |results| <= MAX_RESULTS
      requires depth == |trail| && path == PathOf(w.start, trail)
      requires CountsMatch(visited, path) && events == EventsOf(w, trail)
      modifies this`results
      ensures results == Capped(old(results), Reports(w, TrailsOver(SpaceOf(w), trail, edges))) && |results| <= MAX_RESULTS
      decreases MAX_DEPTH - |trail|, 1
    {
      for i := 0 to |edges|
        invariant |results| <= MAX_RESULTS
        invariant Capped(old(results), Reports(w, TrailsOver(SpaceOf(w), trail, edges))) ==
                  Capped(results, Reports(w, TrailsOver(SpaceOf(w), trail, edges[i..])))
      {
        var e := edges[i];
        var branchEvents := events + [EdgeTraverse(e)];
        ArriveBy(w, trail, e, visited, branchEvents);
        ghost var here, rest := Trails(SpaceOf(w), trail + [e]), TrailsOver(SpaceOf(w), trail, edges[i + 1..]);
        ReportsJoin(w, here, rest);
        CappedJoin(results, Reports(w, here), Reports(w, rest));
        assert edges[i..][1..] == edges[i + 1..];
        Explore(PathState(e.to, visited, branchEvents, path, depth + 1), trail + [e]);
      }
    }
  }

  datatype Outcome = Paths(results: seq<RunResult>) | Failed(error: RunError)

  /** The first hundred reports of the search, or the reason why there are none. */
  method RunAllPaths(w: Workflow) returns (r: Outcome)
    ensures CheckInput(w).Some? ==> r == Failed(CheckInput(w).value)
    ensures CheckInput(w).None? ==>
              r == if Trails(SpaceOf(w), []) == [] then Failed(NoPaths)
                   else Paths(Take(Reports(w, Trails(SpaceOf(w), [])), MAX_RESULTS))
  {
    var bad := CheckInput(w);
    if bad.Some? {
      return Failed(bad.value);
    }
    var pe := new Enumerator(w);
    pe.Explore(PathState(w.start, map[], [], [], 0), []);
    if |pe.results| == 0 {
      return Failed(NoPaths);
    }
    r := Paths(pe.results);
  }

  // ----- soundness and completeness of the search

  /** The nodes before the current one allow the walk to go on. */
  ghost predicate Extensible(g: Space, trail: seq<Edge>) {
    var before := PathOf(g.start, trail)[..|trail|];
    Follows(g, trail) && Passable(g, before) && AtMostTwice(before)
  }

  lemma PathOfPrefix(start: string, trail: seq<Edge>, t: seq<Edge>)
    requires trail <= t
    ensures PathOf(start, t)[..|trail| + 1] == PathOf(start, trail)
    ensures PathOf(start, t)[|trail|] == Here(start, trail)
    ensures forall x :: VisitsOf(PathOf(start, trail), x) <= VisitsOf(PathOf(start, t), x)
  {
    PathOfExtend(start, trail, Implied("", ""));
    assert PathOf(start, t)[..|trail| + 1] == PathOf(start, trail);
    forall x ensures VisitsOf(PathOf(start, trail), x) <= VisitsOf(PathOf(start, t), x) {
      VisitsPrefix(PathOf(start, t), |trail| + 1, x);
    }
  }

  lemma EntersCurrent(start: string, trail: seq<Edge>)
    ensures PathOf(start, trail) == PathOf(start, trail)[..|trail|] + [Here(start, trail)]
    ensures forall x :: VisitsOf(PathOf(start, trail), x) ==
                        VisitsOf(PathOf(start, trail)[..|trail|], x) + if x == Here(start, trail) then 1 else 0
  {
    PathOfExtend(start, trail, Implied("", ""));
    var p := PathOf(start, trail);
    assert p == p[..|trail|] + [p[|trail|]];
  }

  lemma ExtensibleStep(g: Space, trail: seq<Edge>, e: Edge)
    requires Extensible(g, trail) && e in g.next(Here(g.start, trail))
    requires Here(g.start, trail) in g.declared && Here(g.start, trail) != g.exit
    requires VisitsOf(PathOf(g.start, trail)[..|trail|], Here(g.start, trail)) < 2
    ensures Extensible(g, trail + [e])
  {
    EntersCurrent(g.start, trail);
    PathOfExtend(g.start, trail, e);
    assert PathOf(g.start, trail + [e])[..|trail| + 1] == PathOf(g.start, trail);
  }

  /** A current node that may not be entered rules out every walk through it. */
  lemma NoEntry(g: Space, trail: seq<Edge>, t: seq<Edge>)
    requires trail <= t && Reportable(g, t)
    ensures VisitsOf(PathOf(g.start, trail)[..|trail|], Here(g.start, trail)) < 2
    ensures Here(g.start, trail) in g.declared
    ensures |trail| < |t| ==> Here(g.start, trail) != g.exit && t[|trail|] in g.next(Here(g.start, trail))
    ensures |trail| == |t| ==> t == trail && (Here(g.start, trail) == g.exit || g.next(Here(g.start, trail)) == [])
  {
    PathOfPrefix(g.start, trail, t);
    EntersCurrent(g.start, trail);
    assert VisitsOf(PathOf(g.start, t), Here(g.start, trail)) <= 2;
    if |trail| < |t| {
      assert PathOf(g.start, t)[..|t|][|trail|] == Here(g.start, trail);
    } else {
      assert t == trail;
    }
  }

  lemma ReportableHere(g: Space, trail: seq<Edge>)
    requires Extensible(g, trail) && Here(g.start, trail) in g.declared
    requires VisitsOf(PathOf(g.start, trail)[..|trail|], Here(g.start, trail)) < 2
    requires Here(g.start, trail) == g.exit || g.next(Here(g.start, trail)) == []
    ensures Reportable(g, trail)
  {
    EntersCurrent(g.start, trail);
  }

  /** The search below a trail finds exactly the reportable walks within the depth cap that
      extend the trail. */
  ghost predicate FindsExactly(g: Space, trail: seq<Edge>, t: seq<Edge>, found: seq<seq<Edge>>) {
    t in found <==> trail <= t && |t| <= MAX_DEPTH && Reportable(g, t)
  }

  lemma TrailsBlocked(g: Space, trail: seq<Edge>, t: seq<Edge>)
    requires Extensible(g, trail) && !Enters(g, trail)
    ensures FindsExactly(g, trail, t, Trails(g, trail))
  {
    if trail <= t && |t| <= MAX_DEPTH && Reportable(g, t) {
      NoEntry(g, trail, t);
    }
  }

  lemma TrailsStopped(g: Space, trail: seq<Edge>, t: seq<Edge>)
    requires Extensible(g, trail) && Enters(g, trail) && Stops(g, trail)
    ensures FindsExactly(g, trail, t, Trails(g, trail))
  {
    ReportableHere(g, trail);
    if trail <= t && |t| <= MAX_DEPTH && Reportable(g, t) {
      NoEntry(g, trail, t);
    }
  }

  lemma {:induction false} TrailsExact(g: Space, trail: seq<Edge>, t: seq<Edge>)
    requires Extensible(g, trail)
    ensures FindsExactly(g, trail, t, Trails(g, trail))
    decreases MAX_DEPTH + 1 - |trail|, 0
  {
    if !Enters(g, trail) {
      TrailsBlocked(g, trail, t);
    } else if Stops(g, trail) {
      TrailsStopped(g, trail, t);
    } else {
      TrailsBranch(g, trail, t);
    }
  }

  lemma BranchesExtensible(g: Space, trail: seq<Edge>)
    requires Extensible(g, trail) && Enters(g, trail) && !Stops(g, trail)
    ensures forall e :: e in g.next(Here(g.start, trail)) ==> Extensible(g, trail + [e])
  {
    forall e | e in g.next(Here(g.start, trail)) ensures Extensible(g, trail + [e]) {
      ExtensibleStep(g, trail, e);
    }
  }

  lemma {:induction false} TrailsBranch(g: Space, trail: seq<Edge>, t: seq<Edge>)
    requires Extensible(g, trail) && Enters(g, trail) && !Stops(g, trail)
    ensures FindsExactly(g, trail, t, Trails(g, trail))
    decreases MAX_DEPTH - |trail|, 2
  {
    BranchesExtensible(g, trail);
    TrailsOverExact(g, trail, g.next(Here(g.start, trail)), t);
    if trail <= t && |t| <= MAX_DEPTH && Reportable(g, t) {
      NoEntry(g, trail, t);
    }
  }

  lemma {:induction false} TrailsOverExact(g: Space, trail: seq<Edge>, edges: seq<Edge>, t: seq<Edge>)
    requires |trail| <= MAX_DEPTH
    requires forall e :: e in edges ==> Extensible(g, trail + [e])
    ensures t in TrailsOver(g, trail, edges) <==>
            |trail| < |t| <= MAX_DEPTH && trail <= t && t[|trail|] in edges && Reportable(g, t)
    decreases MAX_DEPTH - |trail|, 1, edges
  {
    if edges != [] {
      assert edges == [edges[0]] + edges[1..];
      TrailsExact(g, trail + [edges[0]], t);
      TrailsOverExact(g, trail, edges[1..], t);
      PrefixStep(trail, edges[0], t);
    }
  }

  lemma PrefixStep(trail: seq<Edge>, e: Edge, t: seq<Edge>)
    ensures trail + [e] <= t <==> |trail| < |t| && trail <= t && t[|trail|] == e
  {
    if |trail| < |t| && trail <= t && t[|trail|] == e {
      assert t[..|trail| + 1] == trail + [e];
    }
  }

  /** Soundness and completeness over a whole run of the search. */
  lemma SearchExact(g: Space, t: seq<Edge>)
    ensures t in Trails(g, []) <==> |t| <= 200 && Reportable(g, t)
  {
    assert PathOf(g.start, [])[..0] == [];
    TrailsExact(g, [], t);
  }

  // ----- the depth cap cannot bind on small workflows

  /** A sequence that repeats no element more than twice is at most twice as long as the set
      its elements come from. */
  lemma {:induction false} TwiceBound(p: seq<string>, s: set<string>)
    requires forall i :: 0 <= i < |p| ==> p[i] in s
    requires AtMostTwice(p)
    ensures |p| <= 2 * |s|
    decreases |s|
  {
    if p != [] {
      var x := p[0];
      var rest := Without(p, x);
      WithoutCounts(p, x);
      assert AtMostTwice(rest);
      forall i | 0 <= i < |rest| ensures rest[i] in s - {x} {
        var j :| 0 <= j < |p| && p[j] == rest[i];
      }
      TwiceBound(rest, s - {x});
    }
  }

  ghost function Without(p: seq<string>, x: string): seq<string> {
    if p == [] then []
    else if p[|p| - 1] == x then Without(p[..|p| - 1], x)
    else Without(p[..|p| - 1], x) + [p[|p| - 1]]
  }

  lemma {:induction false} WithoutCounts(p: seq<string>, x: string)
    ensures |Without(p, x)| + VisitsOf(p, x) == |p|
    ensures forall y :: VisitsOf(Without(p, x), y) <= VisitsOf(p, y)
    ensures forall i :: 0 <= i < |Without(p, x)| ==> Without(p, x)[i] in p && Without(p, x)[i] != x
  {
    if p != [] {
      var front, last := p[..|p| - 1], p[|p| - 1];
      WithoutCounts(front, x);
      assert p == front + [last];
      VisitsAppend(front, last);
      VisitsAppend(Without(front, x), last);
    }
  }

  lemma {:induction false} NodeIdsBound(nodes: seq<Node>)
    ensures |NodeIds(nodes)| <= |nodes|
  {
    if nodes != [] {
      NodeIdsCons(nodes);
      NodeIdsBound(nodes[1..]);
    }
  }

  lemma PathDeclared(g: Space, t: seq<Edge>, i: nat)
    requires Reportable(g, t) && i <= |t|
    ensures PathOf(g.start, t)[i] in g.declared
    ensures i < |t| ==> PathOf(g.start, t)[i] != g.exit
  {
    if i < |t| {
      assert PathOf(g.start, t)[..|t|][i] == PathOf(g.start, t)[i];
    } else {
      PathOfExtend(g.start, t, Implied("", ""));
    }
  }

  lemma SmallWorkflowDepth(w: Workflow, t: seq<Edge>)
    requires 2 * |w.nodes| <= 201 && Reportable(SpaceOf(w), t)
    ensures |t| <= 200
  {
    SmallSpaceDepth(SpaceOf(w), t);
    NodeIdsBound(w.nodes);
  }

  lemma SmallSpaceDepth(g: Space, t: seq<Edge>)
    requires Reportable(g, t)
    ensures |t| + 1 <= 2 * |g.declared|
  {
    var path := PathOf(g.start, t);
    forall i | 0 <= i < |path| ensures path[i] in g.declared {
      PathDeclared(g, t, i);
    }
    TwiceBound(path, g.declared);
  }

  // ----- how often a walk is found

  /** In how many ways the edges of a walk can be taken from its k-th on: as many at each node as the
      lookup offers the edge there. */
  ghost function Ways(g: Space, t: seq<Edge>, k: nat): nat
    requires k <= |t|
    decreases |t| - k
  {
    if k == |t| then 1 else multiset(g.next(Here(g.start, t[..k])))[t[k]] * Ways(g, t, k + 1)
  }

  /** A walk is found below the next edge it takes, so many times, and below no other. */
  ghost predicate FoundBelow(g: Space, trail: seq<Edge>, e: Edge, t: seq<Edge>, x: Edge, below: nat) {
    multiset(Trails(g, trail + [e]))[t] == if e == x then below else 0
  }

  lemma FoundBelowNext(g: Space, trail: seq<Edge>, e: Edge, t: seq<Edge>)
    requires |trail| < |t| && trail <= t && Extensible(g, trail + [e])
    ensures FoundBelow(g, trail, e, t, t[|trail|], multiset(Trails(g, trail + [t[|trail|]]))[t])
  {
    TrailsExact(g, trail + [e], t);
    PrefixStep(trail, e, t);
  }

  lemma CountCons<T>(s: seq<T>, x: T)
    requires s != []
    ensures multiset(s)[x] == (if s[0] == x then 1 else 0) + multiset(s[1..])[x]
  {
    assert s == [s[0]] + s[1..];
  }

  lemma CountJoin<T>(a: seq<T>, b: seq<T>, x: T)
    ensures multiset(a + b)[x] == multiset(a)[x] + multiset(b)[x]
  {
  }

  lemma OneMoreTime(n: nat, c: nat)
    ensures (1 + n) * c == c + n * c
  {
  }

  lemma {:induction false} TrailsOverOften(g: Space, trail: seq<Edge>, edges: seq<Edge>, t: seq<Edge>, x: Edge, below: nat)
    requires |trail| <= MAX_DEPTH && forall e :: e in edges ==> FoundBelow(g, trail, e, t, x, below)
    ensures multiset(TrailsOver(g, trail, edges))[t] == multiset(edges)[x] * below
    decreases |edges|
  {
    if edges != [] {
      assert FoundBelow(g, trail, edges[0], t, x, below);
      TrailsOverOften(g, trail, edges[1..], t, x, below);
      CountCons(edges, x);
      CountJoin(Trails(g, trail + [edges[0]]), TrailsOver(g, trail, edges[1..]), t);
      OneMoreTime(multiset(edges[1..])[x], below);
    }
  }

  /** A walk found below a trail that does not end there follows an edge to a longer trail. */
  lemma FoundFurther(g: Space, trail: seq<Edge>, t: seq<Edge>) returns (longer: seq<Edge>)
    requires Extensible(g, trail) && t in Trails(g, trail) && !Stops(g, trail)
    ensures |trail| < |t| && trail <= t && longer == trail + [t[|trail|]]
    ensures Extensible(g, longer) && t in Trails(g, longer)
  {
    TrailsExact(g, trail, t);
    BranchesExtensible(g, trail);
    TrailsOverExact(g, trail, g.next(Here(g.start, trail)), t);
    longer := trail + [t[|trail|]];
    PrefixStep(trail, t[|trail|], t);
    TrailsExact(g, longer, t);
  }

  lemma FoundBelowAll(g: Space, trail: seq<Edge>, t: seq<Edge>)
    requires Extensible(g, trail) && Enters(g, trail) && !Stops(g, trail) && |trail| < |t| && trail <= t
    ensures var below := multiset(Trails(g, trail + [t[|trail|]]))[t];
            forall e :: e in g.next(Here(g.start, trail)) ==> FoundBelow(g, trail, e, t, t[|trail|], below)
  {
    BranchesExtensible(g, trail);
    forall e | e in g.next(Here(g.start, trail)) {
      FoundBelowNext(g, trail, e, t);
    }
  }

  lemma OftenBelow(g: Space, trail: seq<Edge>, t: seq<Edge>, longer: seq<Edge>, below: nat)
    requires Extensible(g, trail) && Enters(g, trail) && !Stops(g, trail)
    requires |trail| < |t| && trail <= t && longer == trail + [t[|trail|]] && multiset(Trails(g, longer))[t] == below
    ensures multiset(TrailsOver(g, trail, g.next(Here(g.start, trail))))[t] ==
            multiset(g.next(Here(g.start, trail)))[t[|trail|]] * below
  {
    FoundBelowAll(g, trail, t);
    TrailsOverOften(g, trail, g.next(Here(g.start, trail)), t, t[|trail|], below);
  }

  lemma WaysFurther(g: Space, trail: seq<Edge>, t: seq<Edge>)
    requires |trail| < |t| && trail <= t
    ensures Ways(g, t, |trail|) == multiset(g.next(Here(g.start, trail)))[t[|trail|]] * Ways(g, t, |trail| + 1)
  {
    assert t[..|trail|] == trail;
  }

  lemma OftenHere(g: Space, trail: seq<Edge>, t: seq<Edge>)
    requires t in Trails(g, trail) && Stops(g, trail)
    ensures t == trail && multiset(Trails(g, trail))[t] == 1
  {
    assert Trails(g, trail) == [trail];
  }

  lemma TrailsGoOn(g: Space, trail: seq<Edge>, t: seq<Edge>)
    requires t in Trails(g, trail) && !Stops(g, trail)
    ensures Enters(g, trail) && Trails(g, trail) == TrailsOver(g, trail, g.next(Here(g.start, trail)))
  {
  }

  lemma {:induction false} TrailsOften(g: Space, trail: seq<Edge>, t: seq<Edge>)
    requires Extensible(g, trail) && t in Trails(g, trail)
    ensures |trail| <= |t| && multiset(Trails(g, trail))[t] == Ways(g, t, |trail|)
    decreases MAX_DEPTH + 1 - |trail|
  {
    if Stops(g, trail) {
      OftenHere(g, trail, t);
    } else {
      TrailsGoOn(g, trail, t);
      var longer := FoundFurther(g, trail, t);
      TrailsOften(g, longer, t);
      OftenBelow(g, trail, t, longer, Ways(g, t, |longer|));
      WaysFurther(g, trail, t);
    }
  }

  lemma CountOfDistinct<T>(s: seq<T>, x: T)
    requires NoDup(s)
    ensures multiset(s)[x] <= 1
    decreases |s|
  {
    if s != [] {
      assert s == [s[0]] + s[1..];
      NoDupTail(s);
      CountOfDistinct(s[1..], x);
    }
  }

  lemma DistinctByCount<T>(s: seq<T>)
    requires forall x :: x in s ==> multiset(s)[x] <= 1
    ensures NoDup(s)
  {
    forall i, j | 0 <= i < j < |s| ensures s[i] != s[j] {
      assert s == s[..j] + s[j..];
      assert s[i] in s[..j] && s[j] in s[j..];
      assert multiset(s)[s[j]] == multiset(s[..j])[s[j]] + multiset(s[j..])[s[j]];
    }
  }

  lemma {:induction false} OneWay(g: Space, t: seq<Edge>, k: nat)
    requires k <= |t| && forall id :: NoDup(g.next(id))
    ensures Ways(g, t, k) <= 1
    decreases |t| - k
  {
    if k < |t| {
      CountOfDistinct(g.next(Here(g.start, t[..k])), t[k]);
      OneWay(g, t, k + 1);
    }
  }

  /** The whole answer: when fewer than a hundred results come back and the workflow is small
      enough for the depth cap not to bind, the recorded results are exactly the reports of
      all reportable walks. */
  lemma AllPathsComplete(w: Workflow)
    requires |Take(Reports(w, Trails(SpaceOf(w), [])), MAX_RESULTS)| < 100 && 2 * |w.nodes| <= 201
    ensures Take(Reports(w, Trails(SpaceOf(w), [])), MAX_RESULTS) == Reports(w, Trails(SpaceOf(w), []))
    ensures forall t :: t in Trails(SpaceOf(w), []) <==> Reportable(SpaceOf(w), t)
  {
    forall t ensures t in Trails(SpaceOf(w), []) <==> Reportable(SpaceOf(w), t) {
      SearchExact(SpaceOf(w), t);
      if Reportable(SpaceOf(w), t) {
        SmallWorkflowDepth(w, t);
      }
    }
  }

  /** Every reportable walk within the depth cap is found as often as its edges can be taken, and
      no other walk is found. */
  lemma AllPathsOften(w: Workflow, t: seq<Edge>)
    ensures multiset(Trails(SpaceOf(w), []))[t] ==
            if |t| <= 200 && Reportable(SpaceOf(w), t) then Ways(SpaceOf(w), t, 0) else 0
  {
    SearchExact(SpaceOf(w), t);
    assert PathOf(w.start, [])[..0] == [];
    if t in Trails(SpaceOf(w), []) {
      TrailsOften(SpaceOf(w), [], t);
    }
  }

  /** With pairwise different explicit edges, no walk is reported twice. */
  lemma AllPathsOnce(w: Workflow)
    requires NoDup(w.edges)
    ensures NoDup(Trails(SpaceOf(w), []))
  {
    forall id ensures NoDup(SpaceOf(w).next(id)) {
      EdgesFromDistinct(w, id);
    }
    forall t ensures multiset(Trails(SpaceOf(w), []))[t] <= 1 {
      AllPathsOften(w, t);
      OneWay(SpaceOf(w), t, 0);
    }
    DistinctByCount(Trails(SpaceOf(w), []));
  }

  /** Each of the at most hundred recorded results reports a reportable walk. */
  lemma AllPathsSound(w: Workflow, k: nat) returns (t: seq<Edge>)
    requires k < |Take(Reports(w, Trails(SpaceOf(w), [])), MAX_RESULTS)|
    ensures |Take(Reports(w, Trails(SpaceOf(w), [])), MAX_RESULTS)| <= 100
    ensures Reportable(SpaceOf(w), t)
    ensures Take(Reports(w, Trails(SpaceOf(w), [])), MAX_RESULTS)[k] == Report(w, t)
  {
    var found := Trails(SpaceOf(w), []);
    t := CappedAt(w, found, k);
    SearchExact(SpaceOf(w), t);
  }

  lemma CappedAt(w: Workflow, found: seq<seq<Edge>>, k: nat) returns (t: seq<Edge>)
    requires k < |Take(Reports(w, found), MAX_RESULTS)|
    ensures |Take(Reports(w, found), MAX_RESULTS)| <= MAX_RESULTS
    ensures t in found && Take(Reports(w, found), MAX_RESULTS)[k] == Report(w, t)
  {
    if found != [] {
      ReportsAt(w, found, 0);
    }
    ReportsAt(w, found, k);
    t := found[k];
  }

  /** What a reported path looks like: it is a walk of the graph that the lookup offers, from the
      start node, through the exit at most at its end; it is a success exactly when it ends
      there, and otherwise nothing leads on from its last node. */
  lemma ReportedPath(w: Workflow, t: seq<Edge>)
    requires Reportable(SpaceOf(w), t)
    ensures var r := Report(w, t);
            var path := r.path;
            && path != [] && path[0] == w.start
            && (forall i :: 0 <= i < |path| - 1 ==>
                  path[i] != w.exit && exists e :: e in EdgesFrom(w, path[i]) && e.to == path[i + 1])
            && r.status in {"success", "dead_end"}
            && (r.status == "success" <==> path[|path| - 1] == w.exit)
            && (r.status == "dead_end" <==> path[|path| - 1] != w.exit && EdgesFrom(w, path[|path| - 1]) == [])
            && r.nodesVisited == |Elements(path)|
  {
    PathOfExtend(w.start, t, Implied("", ""));
    var path := PathOf(w.start, t);
    forall i | 0 <= i < |path| - 1 ensures path[i] != w.exit && exists e :: e in EdgesFrom(w, path[i]) && e.to == path[i + 1] {
      PathDeclared(SpaceOf(w), t, i);
      assert t[i] in EdgesFrom(w, path[i]) && t[i].to == path[i + 1];
    }
  }
}
