/** Events, results and input checks shared by the single-run simulator and the
    all-paths enumerator. Timestamps and run identifiers are not part of the model. */
module Runs {
  import opened IR
  import opened Graphs

  datatype Event =
    | PipelineStart
    | PipelineEnd(status: string, nodesVisited: nat)
    | NodeEnter(node: string)
    | NodeExit(node: string)
    | ParallelStart(node: string, targets: seq<string>)
    | ParallelEnd(node: string, sources: seq<string>)
    | EdgeTraverse(edge: Edge)
    | ContextUpdate(key: string, val: string)

  datatype RunResult = RunResult(events: seq<Event>, nodesVisited: nat, status: string, path: seq<string>)

  datatype RunError =
    | NoStart | NoExit | StartMissing | ExitMissing
    | NoPaths
    | NodeMissing(id: string)
    | TooManySteps

  /** The input check made before any run. */
  function CheckInput(w: Workflow): (r: Option<RunError>)
    ensures r == None <==> w.start != "" && w.exit != "" && w.start in NodeIds(w.nodes) && w.exit in NodeIds(w.nodes)
    ensures r == Some(NoStart) <==> w.start == ""
    ensures r == Some(NoExit) <==> w.start != "" && w.exit == ""
    ensures r == Some(StartMissing) <==> w.start != "" && w.exit != "" && w.start !in NodeIds(w.nodes)
    ensures r == Some(ExitMissing) ==> w.exit !in NodeIds(w.nodes)
  {
    if w.start == "" then Some(NoStart)
    else if w.exit == "" then Some(NoExit)
    else if FindNode(w.nodes, w.start).None? then Some(StartMissing)
    else if FindNode(w.nodes, w.exit).None? then Some(ExitMissing)
    else None
  }

  /** How often a node occurs on a path. */
  function VisitsOf(path: seq<string>, id: string): nat {
    if path == [] then 0
    else VisitsOf(path[..|path| - 1], id) + if path[|path| - 1] == id then 1 else 0
  }

  lemma VisitsAppend(path: seq<string>, id: string)
    ensures forall x :: VisitsOf(path + [id], x) == VisitsOf(path, x) + if x == id then 1 else 0
    ensures Elements(path + [id]) == Elements(path) + {id}
  {
    assert (path + [id])[..|path|] == path;
  }

  lemma {:induction false} VisitsPrefix(path: seq<string>, n: nat, id: string)
    requires n <= |path|
    ensures VisitsOf(path[..n], id) <= VisitsOf(path, id)
    decreases |path|
  {
    if n < |path| {
      VisitsPrefix(path[..|path| - 1], n, id);
      assert path[..|path| - 1][..n] == path[..n];
    } else {
      assert path[..n] == path;
    }
  }

  lemma {:induction false} VisitedCounts(path: seq<string>, id: string)
    ensures VisitsOf(path, id) > 0 <==> id in path
  {
    if path != [] {
      VisitedCounts(path[..|path| - 1], id);
      assert path == path[..|path| - 1] + [path[|path| - 1]];
    }
  }

  lemma {:induction false} VisitsAreOccurrences(path: seq<string>, id: string)
    ensures VisitsOf(path, id) == multiset(path)[id]
  {
    if path != [] {
      VisitsAreOccurrences(path[..|path| - 1], id);
      assert path == path[..|path| - 1] + [path[|path| - 1]];
    }
  }

  /** A visit-count map agrees with the path it was counted from. */
  ghost predicate CountsMatch(counts: map<string, nat>, path: seq<string>) {
    && counts.Keys == Elements(path)
    && forall x :: x in counts ==> counts[x] == VisitsOf(path, x)
  }

  function Bump(counts: map<string, nat>, id: string): map<string, nat> {
    counts[id := (if id in counts then counts[id] else 0) + 1]
  }

  lemma BumpMatches(counts: map<string, nat>, path: seq<string>, id: string)
    requires CountsMatch(counts, path)
    ensures CountsMatch(Bump(counts, id), path + [id])
    ensures |Bump(counts, id)| == |Elements(path + [id])|
  {
    VisitsAppend(path, id);
    VisitedCounts(path, id);
    assert Bump(counts, id).Keys == Elements(path + [id]);
  }
}
