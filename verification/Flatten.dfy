/** Inlining of subgraph references: every node that refers to another workflow is replaced
    by the nodes of that workflow, with prefixed IDs, and the edges around it are rewired. */
module Flatten {
  import opened IR

  const DEFAULT_MAX_DEPTH: int := 10

  /** Loads the workflow that a reference names, relative to the file it occurs in. */
  type Resolver = (string, string) -> Option<Workflow>

  datatype FlattenError =
    | NilResolver
    | DepthExceeded(max: int)
    | CycleDetected(cycle: seq<string>)
    | Unresolved(node: string, ref: string)
    | NoStart(node: string, child: string)
    | NoExit(node: string, child: string)

  datatype Outcome<+T> = Done(value: T) | Failed(error: FlattenError)

  /** Where the edges into and out of an inlined node go. */
  datatype Rewire = Rewire(start: string, exit: string)

  datatype Inlining = Inlining(nodes: seq<Node>, edges: seq<Edge>, rewires: map<string, Rewire>)

  /** What the recursion carries: the resolver, the depth limit, how deep it is, and the
      references being inlined around the current workflow. */
  datatype Context = Context(resolve: Resolver, maxDepth: int, depth: nat, seen: seq<string>) {
    function Inside(ref: string): Context {
      this.(depth := depth + 1, seen := seen + [ref])
    }
  }

  predicate HasRef(n: Node) {
    n.config.Subgraph? && n.config.ref != ""
  }

  predicate HasSubgraphRefs(nodes: seq<Node>) {
    exists n :: n in nodes && HasRef(n)
  }

  function Prefix(id: string): string {
    id + "_"
  }

  function PrefixNodes(prefix: string, nodes: seq<Node>): seq<Node> {
    seq(|nodes|, i requires 0 <= i < |nodes| => nodes[i].(id := prefix + nodes[i].id))
  }

  function PrefixEdges(prefix: string, edges: seq<Edge>): seq<Edge> {
    seq(|edges|, i requires 0 <= i < |edges| => edges[i].(from := prefix + edges[i].from, to := prefix + edges[i].to))
  }

  /** Where an edge into a node arrives after inlining. */
  function Entry(rewires: map<string, Rewire>, id: string): string {
    if id in rewires then rewires[id].start else id
  }

  /** Where an edge out of a node leaves from after inlining. */
  function Leave(rewires: map<string, Rewire>, id: string): string {
    if id in rewires then rewires[id].exit else id
  }

  function RewireEdge(rewires: map<string, Rewire>, e: Edge): Edge {
    e.(from := Leave(rewires, e.from), to := Entry(rewires, e.to))
  }

  function RewireEdges(rewires: map<string, Rewire>, edges: seq<Edge>): seq<Edge> {
    seq(|edges|, i requires 0 <= i < |edges| => RewireEdge(rewires, edges[i]))
  }

  function Assemble(w: Workflow, acc: Inlining): Workflow {
    w.(nodes := acc.nodes,
       edges := acc.edges + RewireEdges(acc.rewires, w.edges),
       start := Entry(acc.rewires, w.start),
       exit := Leave(acc.rewires, w.exit))
  }

  // ----- the recursive specification

  function Flat(w: Workflow, c: Context): Outcome<Workflow>
    decreases c.maxDepth - c.depth, |w.nodes| + 1
  {
    if c.depth >= c.maxDepth then Failed(DepthExceeded(c.maxDepth))
    else
      match Inlined(w.nodes, c)
      case Failed(e) => Failed(e)
      case Done(acc) => Done(Assemble(w, acc))
  }

  function Inlined(nodes: seq<Node>, c: Context): Outcome<Inlining>
    requires c.depth < c.maxDepth
    decreases c.maxDepth - c.depth, |nodes|
  {
    if nodes == [] then Done(Inlining([], [], map[]))
    else
      match Inlined(nodes[..|nodes| - 1], c)
      case Failed(e) => Failed(e)
      case Done(acc) => InlineNode(acc, nodes[|nodes| - 1], c)
  }

  function InlineNode(acc: Inlining, n: Node, c: Context): Outcome<Inlining>
    requires c.depth < c.maxDepth
    decreases c.maxDepth - c.depth, 0, 1
  {
    if !HasRef(n) then Done(acc.(nodes := acc.nodes + [n]))
    else
      match FlatChild(n, c)
      case Failed(e) => Failed(e)
      case Done(child) => Done(Splice(acc, n, child))
  }

  function Splice(acc: Inlining, n: Node, child: Workflow): Inlining {
    var prefix := Prefix(n.id);
    Inlining(acc.nodes + PrefixNodes(prefix, child.nodes),
             acc.edges + PrefixEdges(prefix, child.edges),
             acc.rewires[n.id := Rewire(prefix + child.start, prefix + child.exit)])
  }

  function FlatChild(n: Node, c: Context): Outcome<Workflow>
    requires c.depth < c.maxDepth && HasRef(n)
    decreases c.maxDepth - c.depth, 0, 0
  {
    var ref := n.config.ref;
    if ref in c.seen then Failed(CycleDetected(c.seen + [ref]))
    else
      match ResolveAndValidate(n, c.resolve)
      case Failed(e) => Failed(e)
      case Done(child) => Flat(child, c.Inside(ref))
  }

  function ResolveAndValidate(n: Node, resolve: Resolver): Outcome<Workflow>
    requires HasRef(n)
  {
    var child := resolve(n.config.ref, n.file);
    if child.None? then Failed(Unresolved(n.id, n.config.ref))
    else if child.value.start == "" then Failed(NoStart(n.id, child.value.name))
    else if child.value.exit == "" then Failed(NoExit(n.id, child.value.name))
    else Done(child.value)
  }

  /** The result of flattening a workflow, with the default depth limit standing in for zero. */
  function FlattenSpec(w: Workflow, resolve: Option<Resolver>, maxDepth: int): Outcome<Workflow> {
    if !HasSubgraphRefs(w.nodes) then Done(w)
    else if resolve.None? then Failed(NilResolver)
    else Flat(w, Context(resolve.value, if maxDepth == 0 then DEFAULT_MAX_DEPTH else maxDepth, 0, []))
  }

  // ----- the implementation: a workflow under construction that every step appends to

  class Output {
    var nodes: seq<Node>
    var edges: seq<Edge>
    var start: string
    var exit: string
    const name: string
    const goal: string

    constructor (w: Workflow)
      ensures nodes == [] && edges == [] && start == w.start && exit == w.exit && name == w.name && goal == w.goal
    {
      nodes, edges, start, exit, name, goal := [], [], w.start, w.exit, w.name, w.goal;
    }

    method AppendPrefixed(child: Workflow, prefix: string)
      modifies this`nodes, this`edges
      ensures nodes == old(nodes) + PrefixNodes(prefix, child.nodes)
      ensures edges == old(edges) + PrefixEdges(prefix, child.edges)
    {
      for i := 0 to |child.nodes|
        invariant nodes == old(nodes) + PrefixNodes(prefix, child.nodes)[..i]
        invariant edges == old(edges)
      {
        nodes := nodes + [child.nodes[i].(id := prefix + child.nodes[i].id)];
      }
      for i := 0 to |child.edges|
        invariant nodes == old(nodes) + PrefixNodes(prefix, child.nodes)
        invariant edges == old(edges) + PrefixEdges(prefix, child.edges)[..i]
      {
        edges := edges + [child.edges[i].(from := prefix + child.edges[i].from, to := prefix + child.edges[i].to)];
      }
    }

    method ProcessNode(n: Node, c: Context, ghost rewires: map<string, Rewire>)
      returns (r: Outcome<Option<Rewire>>)
      requires c.depth < c.maxDepth
      modifies this`nodes, this`edges
      ensures var step := InlineNode(Inlining(old(nodes), old(edges), rewires), n, c);
              match r
              case Failed(e) => step == Failed(e)
              case Done(None) => step == Done(Inlining(nodes, edges, rewires))
              case Done(Some(rw)) => step == Done(Inlining(nodes, edges, rewires[n.id := rw]))
      decreases c.maxDepth - c.depth, 0, 1
    {
      if !HasRef(n) {
        nodes := nodes + [n];
        return Done(None);
      }
      var inlined := InlineSubgraph(n, c, rewires);
      match inlined {
        case Failed(e) => r := Failed(e);
        case Done(rw) => r := Done(Some(rw));
      }
    }

    method InlineSubgraph(n: Node, c: Context, ghost rewires: map<string, Rewire>)
      returns (r: Outcome<Rewire>)
      requires c.depth < c.maxDepth && HasRef(n)
      modifies this`nodes, this`edges
      ensures match FlatChild(n, c)
              case Failed(e) => r == Failed(e)
              case Done(child) =>
                && r.Done?
                && Inlining(nodes, edges, rewires[n.id := r.value]) == Splice(Inlining(old(nodes), old(edges), rewires), n, child)
      decreases c.maxDepth - c.depth, 0, 0
    {
      if n.config.ref in c.seen {
        return Failed(CycleDetected(c.seen + [n.config.ref]));
      }
      var loaded := ResolveAndValidate(n, c.resolve);
      if loaded.Failed? {
        return Failed(loaded.error);
      }
      var child := FlattenRecursive(loaded.value, c.Inside(n.config.ref));
      if child.Failed? {
        return Failed(child.error);
      }
      var prefix := Prefix(n.id);
      AppendPrefixed(child.value, prefix);
      r := Done(Rewire(prefix + child.value.start, prefix + child.value.exit));
    }

    method RewireParentEdges(parentEdges: seq<Edge>, rewires: map<string, Rewire>)
      modifies this`edges
      ensures edges == old(edges) + RewireEdges(rewires, parentEdges)
    {
      for i := 0 to |parentEdges|
        invariant edges == old(edges) + RewireEdges(rewires, parentEdges)[..i]
      {
        var ne := parentEdges[i];
        if ne.to in rewires {
          ne := ne.(to := rewires[ne.to].start);
        }
        if ne.from in rewires {
          ne := ne.(from := rewires[ne.from].exit);
        }
        edges := edges + [ne];
      }
    }

    method RewriteStartExit(rewires: map<string, Rewire>)
      modifies this`start, this`exit
      ensures start == Entry(rewires, old(start)) && exit == Leave(rewires, old(exit))
    {
      if start in rewires {
        start := rewires[start].start;
      }
      if exit in rewires {
        exit := rewires[exit].exit;
      }
    }
  }

  method FlattenRecursive(w: Workflow, c: Context)
    returns (r: Outcome<Workflow>)
    ensures r == Flat(w, c)
    decreases c.maxDepth - c.depth, |w.nodes| + 1
  {
    if c.depth >= c.maxDepth {
      return Failed(DepthExceeded(c.maxDepth));
    }
    var out := new Output(w);
    var rewires: map<string, Rewire> := map[];
    for i := 0 to |w.nodes|
      invariant Inlined(w.nodes[..i], c) == Done(Inlining(out.nodes, out.edges, rewires))
      invariant out.start == w.start && out.exit == w.exit
    {
      var n := w.nodes[i];
      assert w.nodes[..i + 1][..i] == w.nodes[..i];
      var step := out.ProcessNode(n, c, rewires);
      if step.Failed? {
        InlinedFails(w.nodes, i + 1, c);
        return Failed(step.error);
      }
      if step.value.Some? {
        rewires := rewires[n.id := step.value.value];
      }
    }
    assert w.nodes[..|w.nodes|] == w.nodes;
    out.RewireParentEdges(w.edges, rewires);
    out.RewriteStartExit(rewires);
    r := Done(Workflow(out.name, out.goal, out.start, out.exit, out.nodes, out.edges));
  }

  /** A failure on a prefix of the nodes is the failure of the whole. */
  lemma {:induction false} InlinedFails(nodes: seq<Node>, k: nat, c: Context)
    requires c.depth < c.maxDepth && k <= |nodes| && Inlined(nodes[..k], c).Failed?
    ensures Inlined(nodes, c) == Failed(Inlined(nodes[..k], c).error)
    decreases |nodes|
  {
    if k < |nodes| {
      assert nodes[..|nodes| - 1][..k] == nodes[..k];
      InlinedFails(nodes[..|nodes| - 1], k, c);
    } else {
      assert nodes[..k] == nodes;
    }
  }

  method FlattenWorkflow(w: Workflow, resolve: Option<Resolver>, maxDepth: int) returns (r: Outcome<Workflow>)
    ensures r == FlattenSpec(w, resolve, maxDepth)
  {
    if !HasSubgraphRefs(w.nodes) {
      return Done(w);
    }
    if resolve.None? {
      return Failed(NilResolver);
    }
    var limit := maxDepth;
    if limit == 0 {
      limit := DEFAULT_MAX_DEPTH;
    }
    r := FlattenRecursive(w, Context(resolve.value, limit, 0, []));
  }
}
