/** Adjacency maps built from a workflow: explicit edges, with or without the restart edges,
    and the edges implied by parallel and fan-in nodes; forwards and backwards. */
module Adjacency {
  import opened IR
  import opened Graphs

  /** The explicit targets of u in declaration order; restart edges only on demand. */
  function ExplicitTargets(edges: seq<Edge>, u: string, restarts: bool): seq<string> {
    if edges == [] then []
    else ExplicitTargets(edges[..|edges| - 1], u, restarts) +
         var e := edges[|edges| - 1]; if e.from == u && (restarts || !e.restart) then [e.to] else []
  }

  function ExplicitSources(edges: seq<Edge>, v: string): seq<string> {
    if edges == [] then []
    else ExplicitSources(edges[..|edges| - 1], v) +
         var e := edges[|edges| - 1]; if e.to == v then [e.from] else []
  }

  function Repeat(x: string, n: nat): seq<string> {
    if n == 0 then [] else Repeat(x, n - 1) + [x]
  }

  function Occurrences(s: seq<string>, x: string): nat {
    if s == [] then 0 else Occurrences(s[..|s| - 1], x) + if s[|s| - 1] == x then 1 else 0
  }

  /** What one node implies: a parallel node leads to its targets, and every source of a fan-in
      node leads to that node. */
  function ImpliedByNode(n: Node, u: string): seq<string> {
    match n.config
    case Parallel(targets, _) => if n.id == u then targets else []
    case FanIn(sources) => Repeat(n.id, Occurrences(sources, u))
    case _ => []
  }

  function ImpliedToNode(n: Node, v: string): seq<string> {
    match n.config
    case Parallel(targets, _) => Repeat(n.id, Occurrences(targets, v))
    case FanIn(sources) => if n.id == v then sources else []
    case _ => []
  }

  function ImpliedTargets(nodes: seq<Node>, u: string): seq<string> {
    if nodes == [] then [] else ImpliedTargets(nodes[..|nodes| - 1], u) + ImpliedByNode(nodes[|nodes| - 1], u)
  }

  function ImpliedSources(nodes: seq<Node>, v: string): seq<string> {
    if nodes == [] then [] else ImpliedSources(nodes[..|nodes| - 1], v) + ImpliedToNode(nodes[|nodes| - 1], v)
  }

  // ----- the builders

  function Append(adj: Adj, u: string, vs: seq<string>): Adj {
    adj[u := Succ(adj, u) + vs]
  }

  method BuildExplicit(w: Workflow, restarts: bool) returns (adj: Adj)
    ensures forall u :: Succ(adj, u) == ExplicitTargets(w.edges, u, restarts)
  {
    adj := map[];
    for i := 0 to |w.edges|
      invariant forall u :: Succ(adj, u) == ExplicitTargets(w.edges[..i], u, restarts)
    {
      var e := w.edges[i];
      assert w.edges[..i + 1][..i] == w.edges[..i];
      if restarts || !e.restart {
        adj := Append(adj, e.from, [e.to]);
      }
    }
    assert w.edges[..|w.edges|] == w.edges;
  }

  /** The later map has more appended to the list of u. */
  ghost predicate Extends(before: Adj, adj: Adj, u: string, more: seq<string>) {
    Succ(adj, u) == Succ(before, u) + more
  }

  lemma ExtendsTwice(before: Adj, middle: Adj, adj: Adj, u: string, a: seq<string>, b: seq<string>)
    requires Extends(before, middle, u, a) && Extends(middle, adj, u, b)
    ensures Extends(before, adj, u, a + b)
  {
    assert Succ(before, u) + a + b == Succ(before, u) + (a + b);
  }

  /** One edge to x was added for each entry of the list. */
  ghost predicate EachAdded(before: Adj, adj: Adj, us: seq<string>, x: string) {
    forall u :: Extends(before, adj, u, Repeat(x, Occurrences(us, u)))
  }

  ghost predicate ForwardAdded(before: Adj, adj: Adj, nodes: seq<Node>) {
    forall u :: Extends(before, adj, u, ImpliedTargets(nodes, u))
  }

  ghost predicate ReverseAdded(before: Adj, adj: Adj, nodes: seq<Node>) {
    forall v :: Extends(before, adj, v, ImpliedSources(nodes, v))
  }

  lemma EachAddedAt(before: Adj, adj: Adj, us: seq<string>, u1: string, x: string, u: string)
    requires Extends(before, adj, u, Repeat(x, Occurrences(us, u)))
    ensures Extends(before, Append(adj, u1, [x]), u, Repeat(x, Occurrences(us + [u1], u)))
  {
    assert (us + [u1])[..|us|] == us;
    if u == u1 {
      ExtendsTwice(before, adj, Append(adj, u1, [x]), u, Repeat(x, Occurrences(us, u)), [x]);
    }
  }

  lemma EachAddedStep(before: Adj, adj: Adj, us: seq<string>, u1: string, x: string)
    requires EachAdded(before, adj, us, x)
    ensures EachAdded(before, Append(adj, u1, [x]), us + [u1], x)
  {
    var us' := us + [u1];
    forall u ensures Extends(before, Append(adj, u1, [x]), u, Repeat(x, Occurrences(us', u))) {
      EachAddedAt(before, adj, us, u1, x, u);
    }
  }

  lemma ForwardAddedStep(before: Adj, middle: Adj, adj: Adj, nodes: seq<Node>, n: Node)
    requires ForwardAdded(before, middle, nodes) && forall u :: Extends(middle, adj, u, ImpliedByNode(n, u))
    ensures ForwardAdded(before, adj, nodes + [n])
  {
    var nodes' := nodes + [n];
    assert nodes'[..|nodes|] == nodes;
    forall u ensures Extends(before, adj, u, ImpliedTargets(nodes', u)) {
      ExtendsTwice(before, middle, adj, u, ImpliedTargets(nodes, u), ImpliedByNode(n, u));
    }
  }

  lemma ReverseAddedStep(before: Adj, middle: Adj, adj: Adj, nodes: seq<Node>, n: Node)
    requires ReverseAdded(before, middle, nodes) && forall v :: Extends(middle, adj, v, ImpliedToNode(n, v))
    ensures ReverseAdded(before, adj, nodes + [n])
  {
    var nodes' := nodes + [n];
    assert nodes'[..|nodes|] == nodes;
    forall v ensures Extends(before, adj, v, ImpliedSources(nodes', v)) {
      ExtendsTwice(before, middle, adj, v, ImpliedSources(nodes, v), ImpliedToNode(n, v));
    }
  }

  method AppendEach(before: Adj, us: seq<string>, x: string) returns (adj: Adj)
    ensures EachAdded(before, adj, us, x)
  {
    adj := before;
    for j := 0 to |us|
      invariant EachAdded(before, adj, us[..j], x)
    {
      EachAddedStep(before, adj, us[..j], us[j], x);
      assert us[..j + 1] == us[..j] + [us[j]];
      adj := Append(adj, us[j], [x]);
    }
    assert us[..|us|] == us;
  }

  method AddImpliedOfNode(before: Adj, n: Node) returns (adj: Adj)
    ensures forall u :: Extends(before, adj, u, ImpliedByNode(n, u))
  {
    match n.config {
      case Parallel(targets, _) => adj := Append(before, n.id, targets);
      case FanIn(sources) => adj := AppendEach(before, sources, n.id);
      case _ => adj := before;
    }
  }

  method AddImplied(w: Workflow, before: Adj) returns (adj: Adj)
    ensures ForwardAdded(before, adj, w.nodes)
  {
    adj := before;
    for i := 0 to |w.nodes|
      invariant ForwardAdded(before, adj, w.nodes[..i])
    {
      ghost var earlier := adj;
      adj := AddImpliedOfNode(adj, w.nodes[i]);
      ForwardAddedStep(before, earlier, adj, w.nodes[..i], w.nodes[i]);
      assert w.nodes[..i + 1] == w.nodes[..i] + [w.nodes[i]];
    }
    assert w.nodes[..|w.nodes|] == w.nodes;
  }

  /** Forward adjacency with the implied edges. */
  method BuildForward(w: Workflow, restarts: bool) returns (adj: Adj)
    ensures forall u :: Succ(adj, u) == ExplicitTargets(w.edges, u, restarts) + ImpliedTargets(w.nodes, u)
  {
    var explicit := BuildExplicit(w, restarts);
    adj := AddImplied(w, explicit);
    forall u ensures Succ(adj, u) == ExplicitTargets(w.edges, u, restarts) + ImpliedTargets(w.nodes, u) {
      assert Extends(explicit, adj, u, ImpliedTargets(w.nodes, u));
    }
  }

  method AddReverseOfNode(before: Adj, n: Node) returns (adj: Adj)
    ensures forall v :: Extends(before, adj, v, ImpliedToNode(n, v))
  {
    match n.config {
      case Parallel(targets, _) => adj := AppendEach(before, targets, n.id);
      case FanIn(sources) => adj := Append(before, n.id, sources);
      case _ => adj := before;
    }
  }

  method AddReverseImplied(w: Workflow, before: Adj) returns (adj: Adj)
    ensures ReverseAdded(before, adj, w.nodes)
  {
    adj := before;
    for i := 0 to |w.nodes|
      invariant ReverseAdded(before, adj, w.nodes[..i])
    {
      ghost var earlier := adj;
      adj := AddReverseOfNode(adj, w.nodes[i]);
      ReverseAddedStep(before, earlier, adj, w.nodes[..i], w.nodes[i]);
      assert w.nodes[..i + 1] == w.nodes[..i] + [w.nodes[i]];
    }
    assert w.nodes[..|w.nodes|] == w.nodes;
  }

  method BuildReverse(w: Workflow) returns (adj: Adj)
    ensures forall v :: Succ(adj, v) == ExplicitSources(w.edges, v) + ImpliedSources(w.nodes, v)
  {
    var explicit: Adj := map[];
    for i := 0 to |w.edges|
      invariant forall v :: Succ(explicit, v) == ExplicitSources(w.edges[..i], v)
    {
      var e := w.edges[i];
      assert w.edges[..i + 1][..i] == w.edges[..i];
      explicit := Append(explicit, e.to, [e.from]);
    }
    assert w.edges[..|w.edges|] == w.edges;
    adj := AddReverseImplied(w, explicit);
    forall v ensures Succ(adj, v) == ExplicitSources(w.edges, v) + ImpliedSources(w.nodes, v) {
      assert Extends(explicit, adj, v, ImpliedSources(w.nodes, v));
    }
  }

  // ----- forwards and backwards are transposes of each other

  lemma {:induction false} OccurrencesConcat(a: seq<string>, b: seq<string>, x: string)
    ensures Occurrences(a + b, x) == Occurrences(a, x) + Occurrences(b, x)
  {
    if b == [] {
      assert a + b == a;
    } else {
      assert (a + b)[..|a + b| - 1] == a + b[..|b| - 1];
      OccurrencesConcat(a, b[..|b| - 1], x);
    }
  }

  lemma {:induction false} OccurrencesRepeat(x: string, n: nat, y: string)
    ensures Occurrences(Repeat(x, n), y) == if x == y then n else 0
  {
    if n > 0 {
      OccurrencesRepeat(x, n - 1, y);
      assert Repeat(x, n)[..|Repeat(x, n)| - 1] == Repeat(x, n - 1);
    }
  }

  lemma {:induction false} OccursIn(s: seq<string>, x: string)
    ensures Occurrences(s, x) > 0 <==> x in s
  {
    if s != [] {
      OccursIn(s[..|s| - 1], x);
      assert s == s[..|s| - 1] + [s[|s| - 1]];
    }
  }

  lemma {:induction false} ExplicitTranspose(edges: seq<Edge>, u: string, v: string)
    ensures Occurrences(ExplicitTargets(edges, u, true), v) == Occurrences(ExplicitSources(edges, v), u)
  {
    if edges != [] {
      var front, e := edges[..|edges| - 1], edges[|edges| - 1];
      ExplicitTranspose(front, u, v);
      OccurrencesConcat(ExplicitTargets(front, u, true), if e.from == u then [e.to] else [], v);
      OccurrencesConcat(ExplicitSources(front, v), if e.to == v then [e.from] else [], u);
    }
  }

  lemma {:induction false} ImpliedTranspose(nodes: seq<Node>, u: string, v: string)
    ensures Occurrences(ImpliedTargets(nodes, u), v) == Occurrences(ImpliedSources(nodes, v), u)
  {
    if nodes != [] {
      var front, n := nodes[..|nodes| - 1], nodes[|nodes| - 1];
      ImpliedTranspose(front, u, v);
      OccurrencesConcat(ImpliedTargets(front, u), ImpliedByNode(n, u), v);
      OccurrencesConcat(ImpliedSources(front, v), ImpliedToNode(n, v), u);
      match n.config {
        case Parallel(targets, _) => OccurrencesRepeat(n.id, Occurrences(targets, v), u);
        case FanIn(sources) => OccurrencesRepeat(n.id, Occurrences(sources, u), v);
        case _ =>
      }
    }
  }

  /** The reverse adjacency lists u under v as often as the forward adjacency lists v under u,
      the implied edges included. */
  lemma Transpose(w: Workflow, fwd: Adj, rev: Adj, u: string, v: string)
    requires Succ(fwd, u) == ExplicitTargets(w.edges, u, true) + ImpliedTargets(w.nodes, u)
    requires Succ(rev, v) == ExplicitSources(w.edges, v) + ImpliedSources(w.nodes, v)
    ensures Occurrences(Succ(fwd, u), v) == Occurrences(Succ(rev, v), u)
    ensures v in Succ(fwd, u) <==> u in Succ(rev, v)
  {
    OccurrencesConcat(ExplicitTargets(w.edges, u, true), ImpliedTargets(w.nodes, u), v);
    OccurrencesConcat(ExplicitSources(w.edges, v), ImpliedSources(w.nodes, v), u);
    ExplicitTranspose(w.edges, u, v);
    ImpliedTranspose(w.nodes, u, v);
    OccursIn(Succ(fwd, u), v);
    OccursIn(Succ(rev, v), u);
  }
}
