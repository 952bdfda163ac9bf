/** The reference check of a bundle: every reference leads to a listed workflow, and a
    depth-capped depth-first search from every listed workflow finds no cycle. */
module RefCycles {
  import opened IR
  import opened Graphs
  import opened DepthFirst

  const MAX_REF_DEPTH: int := 64

  datatype RefError =
    | RefCycle(entry: string, cycle: seq<string>)
    | CapExceeded(node: string)
    | RefEscape(from: string, to: string)
    | UnsafeRef(parent: string)

  // ----- the cycle shown in an error

  method FormatCycle(stack: seq<string>, target: string) returns (cycle: seq<string>)
    ensures forall k :: 0 <= k < |stack| && stack[k] == target && target !in stack[..k] ==> cycle == stack[k..] + [target]
    ensures target !in stack ==> cycle == if stack == [] then [target] else [stack[|stack| - 1], target]
  {
    var idx: int := -1;
    for i := 0 to |stack|
      invariant target !in stack[..i] && idx == -1
    {
      if stack[i] == target {
        idx := i;
        break;
      }
      assert stack[..i + 1] == stack[..i] + [stack[i]];
    }
    assert idx == -1 ==> stack[..|stack|] == stack;
    if idx < 0 {
      if |stack| > 0 {
        return [stack[|stack| - 1], target];
      }
      return [target];
    }
    cycle := stack[idx..] + [target];
  }

  // ----- the search

  /** The gray nodes form a simple path from the start; the black ones are finished. */
  ghost predicate Inv(graph: Adj, start: string, color: map<string, int>, stack: seq<string>, fin: seq<string>) {
    && Searching(graph, color, stack, fin)
    && (stack != [] ==> stack[0] == start)
    && FinishingOrder(graph, fin)
  }

  ghost predicate Hangs(graph: Adj, start: string, stack: seq<string>, node: string) {
    if stack == [] then node == start else node in Succ(graph, stack[|stack| - 1])
  }

  lemma EnterKeeps(graph: Adj, start: string, color: map<string, int>, stack: seq<string>, fin: seq<string>, node: string)
    requires Inv(graph, start, color, stack, fin) && Hangs(graph, start, stack, node) && ColorOf(color, node) == 0
    ensures Inv(graph, start, color[node := GRAY], stack + [node], fin)
  {
    EnterWhite(graph, color, stack, fin, node);
  }

  lemma FinishKeeps(graph: Adj, start: string, color: map<string, int>, stack: seq<string>, fin: seq<string>, node: string)
    requires Inv(graph, start, color, stack + [node], fin) && AllIn(Succ(graph, node), fin)
    ensures Inv(graph, start, color[node := BLACK], stack, fin + [node])
  {
    FinishGray(graph, color, stack, fin, node);
    assert stack != [] ==> (stack + [node])[0] == stack[0];
    FinishingOrderExtends(graph, fin, node);
  }

  /** What an error of the search shows about the graph. */
  ghost predicate Shows(graph: Adj, start: string, maxDepth: int, e: RefError) {
    match e
    case RefCycle(entry, cycle) => RealCycle(graph, cycle) && cycle[0] == entry && Reaches(graph, start, entry)
    case CapExceeded(node) => exists p :: SimplePath(graph, p, start, node) && |p| == maxDepth + 2
    case _ => false
  }

  ghost predicate SimplePath(graph: Adj, p: seq<string>, u: string, v: string) {
    WalkBetween(graph, p, u, v) && NoDup(p)
  }

  class Search {
    const graph: Adj
    const maxDepth: int
    var color: map<string, int>
    var stack: seq<string>
    ghost var fin: seq<string>

    constructor (graph: Adj, maxDepth: int)
      ensures this.graph == graph && this.maxDepth == maxDepth && color == map[] && stack == [] && fin == []
    {
      this.graph, this.maxDepth := graph, maxDepth;
      color, stack, fin := map[], [], [];
    }

    method Visit(node: string, depth: nat, ghost start: string, ghost all: set<string>) returns (err: Option<RefError>)
      requires Inv(graph, start, color, stack, fin) && Hangs(graph, start, stack, node) && ColorOf(color, node) == 0
      requires depth == |stack| && depth <= (if maxDepth < 0 then 0 else maxDepth + 1)
      requires node in all && Universe(graph) <= all
      modifies this`color, this`stack, this`fin
      ensures err.None? ==> Inv(graph, start, color, stack, fin) && stack == old(stack) && node in fin && depth <= maxDepth
      ensures err.None? ==> old(color.Keys) <= color.Keys && old(fin) <= fin
      ensures err.Some? && maxDepth >= 0 ==> Shows(graph, start, maxDepth, err.value)
      ensures err.Some? ==> err.value.RefCycle? || err.value.CapExceeded?
      decreases all - color.Keys, 1
    {
      EnterKeeps(graph, start, color, stack, fin, node);
      if depth > maxDepth {
        if maxDepth >= 0 {
          assert SimplePath(graph, stack + [node], start, node);
        }
        return Some(CapExceeded(node));
      }
      color := color[node := GRAY];
      stack := stack + [node];
      var nexts := Succ(graph, node);
      for i := 0 to |nexts|
        invariant Inv(graph, start, color, stack, fin) && stack == old(stack) + [node]
        invariant old(color.Keys) + {node} <= color.Keys && old(fin) <= fin
        invariant AllIn(nexts[..i], fin)
      {
        ghost var before := fin;
        err := VisitEdge(nexts[i], depth, start, all);
        if err.Some? {
          return;
        }
        AllInStep(nexts, i, before, fin);
      }
      assert nexts[..|nexts|] == nexts;
      FinishKeeps(graph, start, color, old(stack), fin, node);
      stack := stack[..|stack| - 1];
      color := color[node := BLACK];
      fin := fin + [node];
      err := None;
    }

    method VisitEdge(next: string, depth: nat, ghost start: string, ghost all: set<string>) returns (err: Option<RefError>)
      requires Inv(graph, start, color, stack, fin) && stack != [] && next in Succ(graph, stack[|stack| - 1])
      requires depth + 1 == |stack| && depth <= maxDepth && Universe(graph) <= all
      modifies this`color, this`stack, this`fin
      ensures err.None? ==> Inv(graph, start, color, stack, fin) && stack == old(stack) && next in fin
      ensures err.None? ==> old(color.Keys) <= color.Keys && old(fin) <= fin
      ensures err.Some? ==> Shows(graph, start, maxDepth, err.value)
      ensures err.Some? ==> err.value.RefCycle? || err.value.CapExceeded?
      decreases all - color.Keys, 2
    {
      if ColorOf(color, next) == GRAY {
        var cycle := FormatCycle(stack, next);
        BackEdgeShown(graph, start, stack, next, cycle);
        return Some(RefCycle(next, cycle));
      }
      if ColorOf(color, next) == 0 {
        SuccInUniverse(graph, stack[|stack| - 1], next);
        err := Visit(next, depth + 1, start, all);
        return;
      }
      err := None;
    }
  }

  lemma BackEdgeShown(graph: Adj, start: string, stack: seq<string>, next: string, cycle: seq<string>)
    requires Walk(graph, stack) && NoDup(stack) && stack[0] == start && next in stack && next in Succ(graph, stack[|stack| - 1])
    requires forall k :: 0 <= k < |stack| && stack[k] == next && next !in stack[..k] ==> cycle == stack[k..] + [next]
    ensures RealCycle(graph, cycle) && cycle[0] == next && Reaches(graph, start, next)
  {
    var k: nat :| k < |stack| && stack[k] == next;
    assert next !in stack[..k];
    BackEdgeCloses(graph, stack, k);
    WalkPart(graph, stack, 0, k + 1);
  }

  /** Searching from one start. No error means that no cycle is reachable from the start; an error
      shows a reachable cycle, or a simple path from the start with one edge more than the cap. */
  method DetectCycles(graph: Adj, start: string, maxDepth: nat) returns (err: Option<RefError>)
    ensures err.None? ==> forall c :: ClosedWalk(graph, c) ==> !Reaches(graph, start, c[0])
    ensures err.Some? ==> Shows(graph, start, maxDepth, err.value)
  {
    var s := new Search(graph, maxDepth);
    err := s.Visit(start, 0, start, Universe(graph) + {start});
    if err.None? {
      forall c | ClosedWalk(graph, c) ensures !Reaches(graph, start, c[0]) {
        if Reaches(graph, start, c[0]) {
          var p :| WalkBetween(graph, p, start, c[0]);
          FinishingOrderAcyclic(graph, s.fin, p);
          FinishingOrderAcyclic(graph, s.fin, c);
        }
      }
    }
  }

  method DetectCyclesAll(graph: Adj, files: seq<string>, maxDepth: nat) returns (err: Option<RefError>)
    ensures err.None? ==> forall f, c :: f in files && ClosedWalk(graph, c) ==> !Reaches(graph, f, c[0])
    ensures err.Some? ==> exists f :: f in files && Shows(graph, f, maxDepth, err.value)
  {
    for i := 0 to |files|
      invariant forall f, c :: f in files[..i] && ClosedWalk(graph, c) ==> !Reaches(graph, f, c[0])
    {
      err := DetectCycles(graph, files[i], maxDepth);
      if err.Some? {
        return;
      }
      assert files[..i + 1] == files[..i] + [files[i]];
    }
    assert files[..|files|] == files;
    err := None;
  }

  // ----- the reference graph

  function RefOf(n: Node): string {
    match n.config
    case Subgraph(ref) => ref
    case ManagerLoop(ref) => ref
    case _ => ""
  }

  /** The resolved references of a workflow in node order, or nothing when one is unsafe. */
  function RefsOf(nodes: seq<Node>, parent: string, resolve: (string, string) -> Option<string>): Option<seq<string>> {
    if nodes == [] then Some([])
    else
      var front := RefsOf(nodes[..|nodes| - 1], parent, resolve);
      var ref := RefOf(nodes[|nodes| - 1]);
      if front.None? || ref == "" then front
      else
        var to := resolve(ref, parent);
        if to.None? then None else Some(front.value + [to.value])
  }

  /** A subgraph node or a manager loop names another workflow. */
  ghost predicate Names(n: Node, ref: string) {
    ref != "" && (n.config == Subgraph(ref) || n.config == ManagerLoop(ref))
  }

  ghost predicate RefersTo(nodes: seq<Node>, parent: string, resolve: (string, string) -> Option<string>, to: string) {
    exists n, ref :: n in nodes && Names(n, ref) && resolve(ref, parent) == Some(to)
  }

  ghost predicate HasUnsafe(nodes: seq<Node>, parent: string, resolve: (string, string) -> Option<string>) {
    exists n, ref :: n in nodes && Names(n, ref) && resolve(ref, parent) == None
  }

  lemma NamesRef(n: Node, ref: string)
    ensures Names(n, ref) <==> ref != "" && RefOf(n) == ref
  {
  }

  lemma OneMoreRef(nodes: seq<Node>, n: Node, parent: string, resolve: (string, string) -> Option<string>)
    ensures var ref := RefOf(n);
            && (HasUnsafe(nodes + [n], parent, resolve) <==> HasUnsafe(nodes, parent, resolve) || (ref != "" && resolve(ref, parent) == None))
            && (forall to :: RefersTo(nodes + [n], parent, resolve, to) <==>
                  RefersTo(nodes, parent, resolve, to) || (ref != "" && resolve(ref, parent) == Some(to)))
  {
    var all, ref := nodes + [n], RefOf(n);
    NamesRef(n, ref);
    assert forall m :: m in all <==> m in nodes || m == n;
    forall m, r | m in all && Names(m, r) ensures m in nodes || r == ref {
      NamesRef(m, r);
    }
    assert n in all;
  }

  /** What the references of a workflow are: all that its subgraph nodes and manager loops name, resolved; there
      is no answer exactly when one of them does not resolve. */
  lemma {:induction false} RefsExact(nodes: seq<Node>, parent: string, resolve: (string, string) -> Option<string>)
    ensures RefsOf(nodes, parent, resolve) == None <==> HasUnsafe(nodes, parent, resolve)
    ensures RefsOf(nodes, parent, resolve).Some? ==>
              forall to :: to in RefsOf(nodes, parent, resolve).value <==> RefersTo(nodes, parent, resolve, to)
    decreases |nodes|
  {
    if nodes != [] {
      var front, last := nodes[..|nodes| - 1], nodes[|nodes| - 1];
      assert nodes == front + [last];
      RefsExact(front, parent, resolve);
      OneMoreRef(front, last, parent, resolve);
    }
  }

  method RefsForWorkflow(w: Workflow, parent: string, resolve: (string, string) -> Option<string>)
    returns (out: Option<seq<string>>)
    ensures out == RefsOf(w.nodes, parent, resolve)
  {
    var refs: seq<string> := [];
    for i := 0 to |w.nodes|
      invariant RefsOf(w.nodes[..i], parent, resolve) == Some(refs)
    {
      assert w.nodes[..i + 1][..i] == w.nodes[..i];
      var ref := RefOf(w.nodes[i]);
      if ref != "" {
        var to := resolve(ref, parent);
        if to.None? {
          RefsOfFails(w.nodes, i + 1, parent, resolve);
          return None;
        }
        refs := refs + [to.value];
      }
    }
    assert w.nodes[..|w.nodes|] == w.nodes;
    out := Some(refs);
  }

  lemma {:induction false} RefsOfFails(nodes: seq<Node>, k: nat, parent: string, resolve: (string, string) -> Option<string>)
    requires k <= |nodes| && RefsOf(nodes[..k], parent, resolve).None?
    ensures RefsOf(nodes, parent, resolve).None?
  {
    if k < |nodes| {
      assert nodes[..|nodes| - 1][..k] == nodes[..k];
      RefsOfFails(nodes[..|nodes| - 1], k, parent, resolve);
    } else {
      assert nodes[..k] == nodes;
    }
  }

  /** The graph of resolved references; the workflows are taken in an arbitrary order. */
  method BuildRefGraph(parsed: map<string, Workflow>, resolve: (string, string) -> Option<string>)
    returns (graph: Adj, err: Option<RefError>)
    ensures err.None? ==> graph.Keys == parsed.Keys
    ensures err.None? ==> forall p :: p in parsed ==> RefsOf(parsed[p].nodes, p, resolve) == Some(graph[p])
    ensures err.Some? <==> exists p :: p in parsed && RefsOf(parsed[p].nodes, p, resolve).None?
    ensures err.Some? ==> err.value.UnsafeRef?
  {
    graph := map[];
    var todo := parsed.Keys;
    while todo != {}
      invariant todo <= parsed.Keys && graph.Keys == parsed.Keys - todo
      invariant forall p :: p in graph ==> RefsOf(parsed[p].nodes, p, resolve) == Some(graph[p])
    {
      var p :| p in todo;
      var refs := RefsForWorkflow(parsed[p], p, resolve);
      if refs.None? {
        return graph, Some(UnsafeRef(p));
      }
      graph := graph[p := refs.value];
      todo := todo - {p};
    }
    err := None;
  }

  /** Every reference in the graph is listed; the sources are taken in an arbitrary order. */
  method VerifyRefsListed(graph: Adj, files: seq<string>) returns (err: Option<RefError>)
    ensures err.None? <==> forall u, v :: v in Succ(graph, u) ==> v in files
    ensures err.Some? ==> err.value.RefEscape? && err.value.to in Succ(graph, err.value.from) && err.value.to !in files
  {
    var todo := graph.Keys;
    while todo != {}
      invariant todo <= graph.Keys
      invariant forall u, v :: u !in todo && v in Succ(graph, u) ==> v in files
    {
      var from :| from in todo;
      var tos := graph[from];
      for i := 0 to |tos|
        invariant forall v :: v in tos[..i] ==> v in files
      {
        if tos[i] !in files {
          assert tos[i] in Succ(graph, from);
          return Some(RefEscape(from, tos[i]));
        }
        assert tos[..i + 1] == tos[..i] + [tos[i]];
      }
      assert tos[..|tos|] == tos;
      todo := todo - {from};
    }
    err := None;
  }

  /** A closed walk runs through listed files only, so a search from every listed file misses none. */
  lemma ListedSearchIsComplete(graph: Adj, files: seq<string>)
    requires forall u, v :: v in Succ(graph, u) ==> v in files
    requires forall f, c :: f in files && ClosedWalk(graph, c) ==> !Reaches(graph, f, c[0])
    ensures Acyclic(graph)
  {
    forall c ensures !ClosedWalk(graph, c) {
      if ClosedWalk(graph, c) {
        assert c[|c| - 2 + 1] in Succ(graph, c[|c| - 2]);
        assert c[0] in files && Reaches(graph, c[0], c[0]) by { ReachesRefl(graph, c[0]); }
      }
    }
  }

  /** The whole check. Success means that the reference graph is closed under references and free
      of cycles altogether; conversely a closed graph without cycles and without a simple path
      of more than 64 references passes. */
  method WalkRefs(parsed: map<string, Workflow>, files: seq<string>, resolve: (string, string) -> Option<string>)
    returns (graph: Adj, err: Option<RefError>)
    ensures err.None? ==> graph.Keys == parsed.Keys
    ensures err.None? ==> forall p :: p in parsed ==> RefsOf(parsed[p].nodes, p, resolve) == Some(graph[p])
    ensures err.None? ==> forall p, to :: p in parsed ==> (to in graph[p] <==> RefersTo(parsed[p].nodes, p, resolve, to))
    ensures err.None? ==> (forall u, v :: v in Succ(graph, u) ==> v in files) && Acyclic(graph)
    ensures err.Some? ==> match err.value
                          case UnsafeRef(_) => exists p :: p in parsed && HasUnsafe(parsed[p].nodes, p, resolve)
                          case RefEscape(u, v) => v in Succ(graph, u) && v !in files
                          case RefCycle(_, cycle) => RealCycle(graph, cycle)
                          case CapExceeded(v) => exists f, p :: f in files && SimplePath(graph, p, f, v) && |p| == 66
  {
    graph, err := BuildRefGraph(parsed, resolve);
    forall p | p in parsed {
      RefsExact(parsed[p].nodes, p, resolve);
    }
    if err.Some? {
      return;
    }
    err := VerifyRefsListed(graph, files);
    if err.Some? {
      return;
    }
    err := DetectCyclesAll(graph, files, MAX_REF_DEPTH);
    if err.None? {
      ListedSearchIsComplete(graph, files);
    } else {
      ghost var f :| f in files && Shows(graph, f, MAX_REF_DEPTH, err.value);
    }
  }
}
