/** The data-flow analysis behind the lint for unprovided reads: one pass in topological order
    collects, for every node, the nodes upstream of it and the context keys written by then. */
module DataFlow {
  import opened IR
  import opened Graphs
  import opened Adjacency
  import opened ImpliedEdges
  import opened Kahn

  type KeySets = map<string, set<string>>

  /** A missing entry reads as the empty set. */
  function Of(m: KeySets, x: string): set<string> {
    if x in m then m[x] else {}
  }

  function Degree(m: map<string, int>, x: string): int {
    if x in m then m[x] else 0
  }

  function WritesOf(w: Workflow, id: string): set<string> {
    var n := FindNode(w.nodes, id);
    if n.Some? then Elements(n.value.writeKeys) else {}
  }

  // ----- what the two tables mean

  /** A walk of at least one edge leads from y to x. */
  ghost predicate Above(adj: Adj, y: string, x: string) {
    exists p :: WalkBetween(adj, p, y, x) && |p| >= 2
  }

  /** The node declares the key among its writes, and is x or above it. */
  ghost predicate ProvidedBy(w: Workflow, adj: Adj, x: string, key: string, n: Node) {
    n in w.nodes && key in n.writeKeys && (n.id == x || Above(adj, n.id, x))
  }

  ghost predicate Provided(w: Workflow, adj: Adj, x: string, key: string) {
    exists n :: ProvidedBy(w, adj, x, key, n)
  }

  ghost predicate UpstreamExact(adj: Adj, upstream: KeySets) {
    forall x, y :: y in Of(upstream, x) <==> Above(adj, y, x)
  }

  ghost predicate AvailableExact(w: Workflow, adj: Adj, available: KeySets) {
    forall x, key :: key in Of(available, x) <==> Provided(w, adj, x, key)
  }

  // ----- invariants of the propagation

  ghost predicate UpstreamSound(adj: Adj, upstream: KeySets) {
    forall x, y :: y in Of(upstream, x) ==> Above(adj, y, x)
  }

  ghost predicate AvailableSound(w: Workflow, adj: Adj, available: KeySets) {
    forall x, key :: key in Of(available, x) ==> Provided(w, adj, x, key)
  }

  /** Everything known at u has been passed on to the nodes of the list. */
  ghost predicate PassedOn(available: KeySets, upstream: KeySets, u: string, vs: seq<string>) {
    forall v :: v in vs ==> Of(available, u) <= Of(available, v) && Of(upstream, u) + {u} <= Of(upstream, v)
  }

  ghost predicate Flowed(w: Workflow, adj: Adj, done: set<string>, available: KeySets, upstream: KeySets) {
    forall u :: u in done ==> WritesOf(w, u) <= Of(available, u) && PassedOn(available, upstream, u, Succ(adj, u))
  }

  ghost predicate Sound(w: Workflow, adj: Adj, available: KeySets, upstream: KeySets) {
    available.Keys == NodeIds(w.nodes) && UpstreamSound(adj, upstream) && AvailableSound(w, adj, available)
  }

  lemma AboveEdge(adj: Adj, u: string, v: string)
    requires v in Succ(adj, u)
    ensures Above(adj, u, v)
  {
    assert WalkBetween(adj, [u, v], u, v);
  }

  lemma AboveTrans(adj: Adj, y: string, u: string, v: string)
    requires Above(adj, y, u) && v in Succ(adj, u)
    ensures Above(adj, y, v)
  {
    var p :| WalkBetween(adj, p, y, u) && |p| >= 2;
    WalkStep(adj, p, v);
  }

  lemma ProvidedOn(w: Workflow, adj: Adj, u: string, v: string, key: string)
    requires Provided(w, adj, u, key) && v in Succ(adj, u)
    ensures Provided(w, adj, v, key)
  {
    var n :| ProvidedBy(w, adj, u, key, n);
    if n.id == u {
      AboveEdge(adj, u, v);
    } else {
      AboveTrans(adj, n.id, u, v);
    }
    assert ProvidedBy(w, adj, v, key, n);
  }

  /** What the table of writes holds is declared by a node; with unique IDs, by any node. */
  lemma WrittenByNode(w: Workflow, adj: Adj, id: string, key: string)
    ensures key in WritesOf(w, id) ==> Provided(w, adj, id, key)
  {
    if key in WritesOf(w, id) {
      assert ProvidedBy(w, adj, id, key, FindNode(w.nodes, id).value);
    }
  }

  lemma WritesListed(w: Workflow, n: Node, key: string)
    requires UniqueIds(w.nodes) && n in w.nodes && key in n.writeKeys
    ensures key in WritesOf(w, n.id)
  {
    var i :| 0 <= i < |w.nodes| && w.nodes[i] == n;
    FindNodeUnique(w.nodes, i);
  }

  /** One propagation step along an edge. */
  function AddKeys(m: KeySets, x: string, keys: set<string>): KeySets {
    if x in m then m[x := m[x] + keys] else m
  }

  lemma AddKeysParts(m: KeySets, x: string, a: set<string>, b: set<string>)
    ensures AddKeys(m, x, {}) == m
    ensures AddKeys(AddKeys(m, x, a), x, b) == AddKeys(m, x, a + b)
  {
    if x in m {
      assert m[x] + {} == m[x];
      assert m[x] + a + b == m[x] + (a + b);
      assert m[x := m[x]] == m;
    }
  }

  function AddUpstream(m: KeySets, x: string, ids: set<string>): KeySets {
    m[x := Of(m, x) + ids]
  }

  lemma PropagateSound(w: Workflow, adj: Adj, available: KeySets, upstream: KeySets, u: string, v: string)
    requires Sound(w, adj, available, upstream) && v in Succ(adj, u)
    ensures Sound(w, adj, AddKeys(available, v, Of(available, u)), AddUpstream(upstream, v, Of(upstream, u) + {u}))
  {
    var upstream' := AddUpstream(upstream, v, Of(upstream, u) + {u});
    forall x, y | y in Of(upstream', x) ensures Above(adj, y, x) {
      if y !in Of(upstream, x) {
        assert x == v;
        if y == u { AboveEdge(adj, u, v); } else { AboveTrans(adj, y, u, v); }
      }
    }
    var available' := AddKeys(available, v, Of(available, u));
    forall x, key | key in Of(available', x) ensures Provided(w, adj, x, key) {
      if key !in Of(available, x) {
        ProvidedOn(w, adj, u, v, key);
      }
    }
  }

  lemma PropagateFlows(w: Workflow, adj: Adj, done: set<string>, available: KeySets, upstream: KeySets, u: string, v: string)
    requires Flowed(w, adj, done, available, upstream) && v !in done
    ensures Flowed(w, adj, done, AddKeys(available, v, Of(available, u)), AddUpstream(upstream, v, Of(upstream, u) + {u}))
  {
    var available', upstream' := AddKeys(available, v, Of(available, u)), AddUpstream(upstream, v, Of(upstream, u) + {u});
    forall x | x in done ensures WritesOf(w, x) <= Of(available', x) && PassedOn(available', upstream', x, Succ(adj, x)) {
      assert PassedOn(available, upstream, x, Succ(adj, x));
    }
  }

  lemma PropagatePasses(available: KeySets, upstream: KeySets, u: string, vs: seq<string>, v: string)
    requires PassedOn(available, upstream, u, vs) && u != v && (v in available || Of(available, u) == {})
    ensures PassedOn(AddKeys(available, v, Of(available, u)), AddUpstream(upstream, v, Of(upstream, u) + {u}), u, vs + [v])
  {
  }

  lemma WritesSound(w: Workflow, adj: Adj, available: KeySets, upstream: KeySets, u: string)
    requires Sound(w, adj, available, upstream)
    ensures Sound(w, adj, AddKeys(available, u, WritesOf(w, u)), upstream)
    ensures WritesOf(w, u) <= Of(AddKeys(available, u, WritesOf(w, u)), u)
  {
    var available' := AddKeys(available, u, WritesOf(w, u));
    forall x, key | key in Of(available', x) ensures Provided(w, adj, x, key) {
      if key !in Of(available, x) {
        assert x == u && key in WritesOf(w, u);
        WrittenByNode(w, adj, u, key);
      }
    }
  }

  lemma WritesFlow(w: Workflow, adj: Adj, done: set<string>, available: KeySets, upstream: KeySets, u: string)
    requires Flowed(w, adj, done, available, upstream) && u !in done
    ensures Flowed(w, adj, done, AddKeys(available, u, WritesOf(w, u)), upstream)
  {
    var available' := AddKeys(available, u, WritesOf(w, u));
    forall x | x in done ensures WritesOf(w, x) <= Of(available', x) && PassedOn(available', upstream, x, Succ(adj, x)) {
      assert PassedOn(available, upstream, x, Succ(adj, x));
    }
  }

  /** Part of the list of u has been passed on. */
  ghost predicate Passing(w: Workflow, adj: Adj, done: set<string>, u: string, passed: seq<string>,
                          available: KeySets, upstream: KeySets)
  {
    && u in done
    && Flowed(w, adj, done - {u}, available, upstream)
    && WritesOf(w, u) <= Of(available, u)
    && PassedOn(available, upstream, u, passed)
  }

  lemma PassStep(w: Workflow, adj: Adj, done: set<string>, u: string, i: nat, available: KeySets, upstream: KeySets)
    requires i < |Succ(adj, u)| && Succ(adj, u)[i] !in done
    requires Passing(w, adj, done, u, Succ(adj, u)[..i], available, upstream)
    requires Succ(adj, u)[i] in available || Of(available, u) == {}
    ensures var v := Succ(adj, u)[i];
            Passing(w, adj, done, u, Succ(adj, u)[..i + 1],
                    AddKeys(available, v, Of(available, u)), AddUpstream(upstream, v, Of(upstream, u) + {u}))
  {
    var v := Succ(adj, u)[i];
    PropagateFlows(w, adj, done - {u}, available, upstream, u, v);
    PropagatePasses(available, upstream, u, Succ(adj, u)[..i], v);
    assert Succ(adj, u)[..i + 1] == Succ(adj, u)[..i] + [v];
  }

  lemma PassedAll(w: Workflow, adj: Adj, done: set<string>, u: string, available: KeySets, upstream: KeySets)
    requires Passing(w, adj, done, u, Succ(adj, u), available, upstream)
    ensures Flowed(w, adj, done, available, upstream)
  {
  }

  // ----- the end of the propagation

  /** With every node done, what is known at the head of a walk is known at its end. */
  lemma {:induction false} FlowsAlong(w: Workflow, adj: Adj, available: KeySets, upstream: KeySets, p: seq<string>)
    requires forall u :: WritesOf(w, u) <= Of(available, u) && PassedOn(available, upstream, u, Succ(adj, u))
    requires Walk(adj, p)
    ensures WritesOf(w, p[0]) <= Of(available, p[|p| - 1])
    ensures |p| >= 2 ==> p[0] in Of(upstream, p[|p| - 1])
  {
    if |p| > 1 {
      var n := |p| - 1;
      WalkPart(adj, p, 0, n);
      assert p[0..n][n - 1] == p[n - 1] && p[0..n][0] == p[0];
      FlowsAlong(w, adj, available, upstream, p[0..n]);
      assert p[n - 1 + 1] in Succ(adj, p[n - 1]);
      assert PassedOn(available, upstream, p[n - 1], Succ(adj, p[n - 1]));
    }
  }

  lemma TablesExact(w: Workflow, adj: Adj, available: KeySets, upstream: KeySets)
    requires UniqueIds(w.nodes) && Sound(w, adj, available, upstream)
    requires forall u :: WritesOf(w, u) <= Of(available, u) && PassedOn(available, upstream, u, Succ(adj, u))
    ensures UpstreamExact(adj, upstream) && AvailableExact(w, adj, available)
  {
    forall x, y | Above(adj, y, x) ensures y in Of(upstream, x) {
      var p :| WalkBetween(adj, p, y, x) && |p| >= 2;
      FlowsAlong(w, adj, available, upstream, p);
    }
    forall x, key | Provided(w, adj, x, key) ensures key in Of(available, x) {
      var n :| ProvidedBy(w, adj, x, key, n);
      WritesListed(w, n, key);
      if n.id != x {
        var p :| WalkBetween(adj, p, n.id, x) && |p| >= 2;
        FlowsAlong(w, adj, available, upstream, p);
      }
    }
  }

  // ----- in-degrees, counted apart from the adjacency

  /** The first edges, respectively the edges and the first nodes, as an adjacency over a set. */
  ghost function ExplicitPart(edges: seq<Edge>, s: set<string>): Adj {
    map u | u in s :: ExplicitTargets(edges, u, false)
  }

  ghost function WholePart(edges: seq<Edge>, nodes: seq<Node>, s: set<string>): Adj {
    map u | u in s :: ExplicitTargets(edges, u, false) + ImpliedTargets(nodes, u)
  }

  /** Everything that is the source of an edge, explicit or implied. */
  ghost predicate HoldsSources(w: Workflow, s: set<string>) {
    && (forall e :: e in w.edges ==> e.from in s)
    && (forall n :: n in w.nodes ==> n.id in s && (n.config.FanIn? ==> Elements(n.config.sources) <= s))
  }

  lemma ExplicitCount(edges: seq<Edge>, e: Edge, s: set<string>, v: string)
    requires e.from in s
    ensures InCount(ExplicitPart(edges + [e], s), s, v) ==
            InCount(ExplicitPart(edges, s), s, v) + if !e.restart && e.to == v then 1 else 0
  {
    assert (edges + [e])[..|edges|] == edges;
    var before, after := ExplicitPart(edges, s), ExplicitPart(edges + [e], s);
    if e.restart {
      InCountSame(before, after, s, v);
    } else {
      InCountAppend(before, s, e.from, e.to, v);
      InCountSame(Append(before, e.from, [e.to]), after, s, v);
    }
  }

  lemma {:induction false} CountAppendList(adj: Adj, s: set<string>, u: string, vs: seq<string>, v: string)
    requires u in s
    ensures InCount(Append(adj, u, vs), s, v) == InCount(adj, s, v) + Occurrences(vs, v)
  {
    InCountRemove(adj, s, u, v);
    InCountRemove(Append(adj, u, vs), s, u, v);
    InCountSame(adj, Append(adj, u, vs), s - {u}, v);
    OccurrencesConcat(Succ(adj, u), vs, v);
  }

  ghost function AppendToAll(adj: Adj, us: seq<string>, x: string): Adj {
    if us == [] then adj else Append(AppendToAll(adj, us[..|us| - 1], x), us[|us| - 1], [x])
  }

  lemma {:induction false} CountAppendToAll(adj: Adj, s: set<string>, us: seq<string>, x: string, v: string)
    requires Elements(us) <= s
    ensures InCount(AppendToAll(adj, us, x), s, v) == InCount(adj, s, v) + if x == v then |us| else 0
    ensures forall u :: Extends(adj, AppendToAll(adj, us, x), u, Repeat(x, Occurrences(us, u)))
  {
    if us != [] {
      var front, last := us[..|us| - 1], us[|us| - 1];
      assert last in us && Elements(front) <= Elements(us);
      CountAppendToAll(adj, s, front, x, v);
      InCountAppend(AppendToAll(adj, front, x), s, last, x, v);
      EachAddedStep(adj, AppendToAll(adj, front, x), front, last, x);
      assert us == front + [last];
    }
  }

  /** How many edges into v one node implies. */
  function ImpliedDegree(n: Node, v: string): nat {
    match n.config
    case Parallel(targets, _) => Occurrences(targets, v)
    case FanIn(sources) => if n.id == v then |sources| else 0
    case _ => 0
  }

  lemma WholePartExtends(edges: seq<Edge>, nodes: seq<Node>, n: Node, s: set<string>, u: string)
    requires u in s
    ensures Extends(WholePart(edges, nodes, s), WholePart(edges, nodes + [n], s), u, ImpliedByNode(n, u))
  {
    assert (nodes + [n])[..|nodes|] == nodes;
    assert ExplicitTargets(edges, u, false) + (ImpliedTargets(nodes, u) + ImpliedByNode(n, u)) ==
           ExplicitTargets(edges, u, false) + ImpliedTargets(nodes, u) + ImpliedByNode(n, u);
  }

  lemma ImpliedCount(edges: seq<Edge>, nodes: seq<Node>, n: Node, s: set<string>, v: string)
    requires n.id in s && (n.config.FanIn? ==> Elements(n.config.sources) <= s)
    ensures InCount(WholePart(edges, nodes + [n], s), s, v) == InCount(WholePart(edges, nodes, s), s, v) + ImpliedDegree(n, v)
  {
    var before, after := WholePart(edges, nodes, s), WholePart(edges, nodes + [n], s);
    forall u | u in s ensures Extends(before, after, u, ImpliedByNode(n, u)) {
      WholePartExtends(edges, nodes, n, s, u);
    }
    CountImplied(before, after, n, s, v);
  }

  /** Two maps that extend a third one alike give the same counts. */
  lemma ExtendedAlike(before: Adj, a: Adj, b: Adj, s: set<string>, v: string, more: string -> seq<string>)
    requires forall u :: u in s ==> Extends(before, a, u, more(u))
    requires forall u :: u in s ==> Extends(before, b, u, more(u))
    ensures InCount(a, s, v) == InCount(b, s, v)
  {
    forall u | u in s ensures Succ(a, u) == Succ(b, u) {
      assert Extends(before, a, u, more(u)) && Extends(before, b, u, more(u));
    }
    InCountSame(a, b, s, v);
  }

  lemma CountImplied(before: Adj, after: Adj, n: Node, s: set<string>, v: string)
    requires n.id in s && (n.config.FanIn? ==> Elements(n.config.sources) <= s)
    requires forall u :: u in s ==> Extends(before, after, u, ImpliedByNode(n, u))
    ensures InCount(after, s, v) == InCount(before, s, v) + ImpliedDegree(n, v)
  {
    var more := u => ImpliedByNode(n, u);
    var reached :=
      match n.config
      case Parallel(targets, _) => Append(before, n.id, targets)
      case FanIn(sources) => AppendToAll(before, sources, n.id)
      case _ => before;
    match n.config {
      case Parallel(targets, _) => CountAppendList(before, s, n.id, targets, v);
      case FanIn(sources) => CountAppendToAll(before, s, sources, n.id, v);
      case _ =>
    }
    ExtendedAlike(before, after, reached, s, v, more);
  }

  function ExplicitDegree(edges: seq<Edge>, v: string): nat {
    if edges == [] then 0
    else ExplicitDegree(edges[..|edges| - 1], v) +
         var e := edges[|edges| - 1]; if !e.restart && e.to == v then 1 else 0
  }

  function ImpliedDegrees(nodes: seq<Node>, v: string): nat {
    if nodes == [] then 0 else ImpliedDegrees(nodes[..|nodes| - 1], v) + ImpliedDegree(nodes[|nodes| - 1], v)
  }

  lemma {:induction false} ExplicitDegreeCounts(edges: seq<Edge>, s: set<string>, v: string)
    requires forall e :: e in edges ==> e.from in s
    ensures InCount(ExplicitPart(edges, s), s, v) == ExplicitDegree(edges, v)
  {
    if edges == [] {
      InCountZero(ExplicitPart(edges, s), s, v);
    } else {
      var front, last := edges[..|edges| - 1], edges[|edges| - 1];
      assert edges == front + [last];
      ExplicitDegreeCounts(front, s, v);
      ExplicitCount(front, last, s, v);
    }
  }

  lemma {:induction false} DegreesCount(edges: seq<Edge>, nodes: seq<Node>, s: set<string>, v: string)
    requires forall e :: e in edges ==> e.from in s
    requires forall n :: n in nodes ==> n.id in s && (n.config.FanIn? ==> Elements(n.config.sources) <= s)
    ensures InCount(WholePart(edges, nodes, s), s, v) == ExplicitDegree(edges, v) + ImpliedDegrees(nodes, v)
  {
    if nodes == [] {
      ExplicitDegreeCounts(edges, s, v);
      InCountSame(ExplicitPart(edges, s), WholePart(edges, nodes, s), s, v);
    } else {
      var front, last := nodes[..|nodes| - 1], nodes[|nodes| - 1];
      assert nodes == front + [last];
      DegreesCount(edges, front, s, v);
      ImpliedCount(edges, front, last, s, v);
    }
  }

  ghost predicate IsForward(w: Workflow, adj: Adj) {
    forall u :: Succ(adj, u) == ExplicitTargets(w.edges, u, false) + ImpliedTargets(w.nodes, u)
  }

  /** The in-degrees counted from the edges and nodes are the multiplicities in the adjacency. */
  lemma DegreesAreMultiplicities(w: Workflow, adj: Adj, s: set<string>, v: string)
    requires IsForward(w, adj) && HoldsSources(w, s)
    ensures InCount(adj, s, v) == ExplicitDegree(w.edges, v) + ImpliedDegrees(w.nodes, v)
  {
    DegreesCount(w.edges, w.nodes, s, v);
    InCountSame(adj, WholePart(w.edges, w.nodes, s), s, v);
  }

  lemma FirstOf(vs: seq<string>, i: nat)
    requires i < |vs|
    ensures vs[i..] == [vs[i]] + vs[i + 1..] && vs[i] in Elements(vs)
  {
  }

  // ----- the analysis as implemented

  class Analysis {
    const w: Workflow
    const adj: Adj
    var inDegree: map<string, int>
    var available: KeySets
    var upstream: KeySets
    var queue: seq<string>

    constructor (w: Workflow, adj: Adj)
      ensures this.w == w && this.adj == adj
    {
      this.w, this.adj := w, adj;
      inDegree, available, upstream, queue := map[], map[], map[], [];
    }

    method Raise(v: string, amount: nat)
      modifies this`inDegree
      ensures inDegree == old(inDegree)[v := Degree(old(inDegree), v) + amount]
    {
      inDegree := inDegree[v := Degree(inDegree, v) + amount];
    }

    /** Counts without consulting the adjacency. */
    method ComputeInDegrees()
      modifies this`inDegree
      ensures forall v :: Degree(inDegree, v) == ExplicitDegree(w.edges, v) + ImpliedDegrees(w.nodes, v)
      ensures forall v :: v in inDegree <==> v in NodeIds(w.nodes) || Degree(inDegree, v) > 0
    {
      inDegree := map id | id in NodeIds(w.nodes) :: 0;
      CountExplicitInDegrees();
      CountImplicitInDegrees();
    }

    method CountExplicitInDegrees()
      requires forall v :: v in inDegree <==> v in NodeIds(w.nodes) || Degree(inDegree, v) > 0
      requires forall v :: Degree(inDegree, v) == 0
      modifies this`inDegree
      ensures forall v :: Degree(inDegree, v) == ExplicitDegree(w.edges, v)
      ensures forall v :: v in inDegree <==> v in NodeIds(w.nodes) || Degree(inDegree, v) > 0
    {
      for i := 0 to |w.edges|
        invariant forall v :: Degree(inDegree, v) == ExplicitDegree(w.edges[..i], v)
        invariant forall v :: v in inDegree <==> v in NodeIds(w.nodes) || Degree(inDegree, v) > 0
      {
        assert w.edges[..i + 1][..i] == w.edges[..i];
        if !w.edges[i].restart {
          Raise(w.edges[i].to, 1);
        }
      }
      assert w.edges[..|w.edges|] == w.edges;
    }

    method CountImplicitInDegrees()
      requires forall v :: v in inDegree <==> v in NodeIds(w.nodes) || Degree(inDegree, v) > 0
      modifies this`inDegree
      ensures forall v :: Degree(inDegree, v) == Degree(old(inDegree), v) + ImpliedDegrees(w.nodes, v)
      ensures forall v :: v in inDegree <==> v in NodeIds(w.nodes) || Degree(inDegree, v) > 0
    {
      for i := 0 to |w.nodes|
        invariant forall v :: Degree(inDegree, v) == Degree(old(inDegree), v) + ImpliedDegrees(w.nodes[..i], v)
        invariant forall v :: v in inDegree <==> v in NodeIds(w.nodes) || Degree(inDegree, v) > 0
      {
        var n := w.nodes[i];
        assert w.nodes[..i + 1][..i] == w.nodes[..i];
        match n.config {
          case Parallel(targets, _) => CountTargets(targets);
          case FanIn(sources) => Raise(n.id, |sources|);
          case _ =>
        }
      }
      assert w.nodes[..|w.nodes|] == w.nodes;
    }

    method CountTargets(targets: seq<string>)
      requires forall v :: v in inDegree <==> v in NodeIds(w.nodes) || Degree(inDegree, v) > 0
      modifies this`inDegree
      ensures forall v :: Degree(inDegree, v) == Degree(old(inDegree), v) + Occurrences(targets, v)
      ensures forall v :: v in inDegree <==> v in NodeIds(w.nodes) || Degree(inDegree, v) > 0
    {
      for i := 0 to |targets|
        invariant forall v :: Degree(inDegree, v) == Degree(old(inDegree), v) + Occurrences(targets[..i], v)
        invariant forall v :: v in inDegree <==> v in NodeIds(w.nodes) || Degree(inDegree, v) > 0
      {
        assert targets[..i + 1][..i] == targets[..i];
        Raise(targets[i], 1);
      }
      assert targets[..|targets|] == targets;
    }

    /** The declared nodes without incoming edges, in declaration order. */
    method FindRootNodes()
      modifies this`queue
      ensures forall x :: x in queue <==> x in NodeIds(w.nodes) && Degree(inDegree, x) == 0
      ensures UniqueIds(w.nodes) ==> NoDup(queue)
    {
      queue := [];
      for i := 0 to |w.nodes|
        invariant forall x :: x in queue <==> x in NodeIds(w.nodes[..i]) && Degree(inDegree, x) == 0
        invariant UniqueIds(w.nodes) ==> NoDup(queue)
      {
        assert w.nodes[..i + 1] == w.nodes[..i] + [w.nodes[i]];
        if UniqueIds(w.nodes) {
          assert w.nodes[i].id !in NodeIds(w.nodes[..i]);
        }
        if Degree(inDegree, w.nodes[i].id) == 0 {
          queue := queue + [w.nodes[i].id];
        }
      }
      assert w.nodes[..|w.nodes|] == w.nodes;
    }

    method InitializeTables()
      modifies this`available, this`upstream
      ensures Sound(w, adj, available, upstream)
    {
      available := map id | id in NodeIds(w.nodes) :: {};
      upstream := map id | id in NodeIds(w.nodes) :: {};
    }

    method AddNodeWrites(id: string)
      requires available.Keys == NodeIds(w.nodes)
      modifies this`available
      ensures available == AddKeys(old(available), id, WritesOf(w, id))
    {
      var n := FindNode(w.nodes, id);
      if n.Some? {
        var keys := n.value.writeKeys;
        AddKeysParts(available, id, {}, {});
        assert Elements(keys[..0]) == {};
        for i := 0 to |keys|
          invariant available == AddKeys(old(available), id, Elements(keys[..i]))
        {
          assert keys[..i + 1] == keys[..i] + [keys[i]];
          assert Elements(keys[..i + 1]) == Elements(keys[..i]) + {keys[i]};
          AddKeysParts(old(available), id, Elements(keys[..i]), {keys[i]});
          available := available[id := available[id] + {keys[i]}];
        }
        assert keys[..|keys|] == keys;
      } else {
        assert id !in available;
      }
    }

    /** Copies the keys in an arbitrary order. The table has no entry for an undeclared node: writing
        to it is a run-time failure, reported by the result. */
    method PropagateKeys(from: string, to: string) returns (ok: bool)
      modifies this`available
      ensures ok <==> to in old(available) || Of(old(available), from) == {}
      ensures ok ==> available == AddKeys(old(available), to, Of(old(available), from))
    {
      var keys := Of(available, from);
      var todo := keys;
      AddKeysParts(available, to, {}, {});
      assert keys - keys == {};
      while todo != {}
        invariant todo <= keys
        invariant todo != keys ==> to in old(available)
        invariant available == AddKeys(old(available), to, keys - todo)
      {
        var key :| key in todo;
        if to !in available {
          return false;
        }
        available := available[to := available[to] + {key}];
        AddKeysParts(old(available), to, keys - todo, {key});
        assert keys - (todo - {key}) == (keys - todo) + {key};
        todo := todo - {key};
      }
      assert keys - {} == keys;
      ok := true;
    }

    /** A bound on the number of further turns of the main loop. */
    ghost function Turns(): nat
      reads this`queue, this`inDegree
    {
      |queue| + |set x | x in inDegree && inDegree[x] > 0|
    }

    method CountDown(next: string, ghost rest: set<string>, ghost tail: seq<string>, ghost done: set<string>)
      requires UniqueIds(w.nodes) ==> Counted(adj, rest, [next] + tail, done, queue, inDegree) && next in inDegree
      modifies this`inDegree, this`queue
      ensures UniqueIds(w.nodes) ==> Counted(adj, rest, tail, done, queue, inDegree) && inDegree.Keys == old(inDegree.Keys)
      ensures Turns() <= old(Turns())
    {
      if UniqueIds(w.nodes) {
        TakeOff(adj, rest, next, tail, done, queue, inDegree);
      }
      ghost var positive := set x | x in inDegree && inDegree[x] > 0;
      inDegree := inDegree[next := Degree(inDegree, next) - 1];
      ghost var positive' := set x | x in inDegree && inDegree[x] > 0;
      if inDegree[next] == 0 {
        assert next in positive && positive' == positive - {next};
        queue := queue + [next];
      } else {
        assert positive' == positive;
      }
    }

    method PassTo(curr: string, next: string) returns (ok: bool)
      requires Sound(w, adj, available, upstream) && next in Succ(adj, curr)
      modifies this`available, this`upstream
      ensures !ok ==> Hazard(w, adj)
      ensures ok ==> next in old(available) || Of(old(available), curr) == {}
      ensures ok ==> available == AddKeys(old(available), next, Of(old(available), curr))
      ensures ok ==> upstream == AddUpstream(old(upstream), next, Of(old(upstream), curr) + {curr})
      ensures ok ==> Sound(w, adj, available, upstream)
    {
      PropagateSound(w, adj, available, upstream, curr, next);
      ghost var available0, upstream0 := available, upstream;
      if next !in upstream {
        upstream := upstream[next := {}];
      }
      ok := PropagateKeys(curr, next);
      if !ok {
        HazardShown(w, adj, available0, curr, next);
        return;
      }
      var above := Of(upstream, curr);
      upstream := upstream[next := upstream[next] + above];
      upstream := upstream[next := upstream[next] + {curr}];
      assert Of(upstream0, next) + Of(upstream0, curr) + {curr} == Of(upstream0, next) + (Of(upstream0, curr) + {curr});
      assert upstream == AddUpstream(upstream0, next, Of(upstream0, curr) + {curr});
    }

    /** Passes everything known at the node on to its successors. The counters are described for
        workflows with unique IDs, where no node is queued twice. */
    method PropagateAndEnqueue(curr: string, ghost rest: set<string>, ghost done: set<string>) returns (ok: bool)
      requires Sound(w, adj, available, upstream)
      requires UniqueIds(w.nodes) ==> Counted(adj, rest, Succ(adj, curr), done, queue, inDegree)
      requires UniqueIds(w.nodes) ==> Elements(Succ(adj, curr)) <= inDegree.Keys
      requires UniqueIds(w.nodes) ==> Passing(w, adj, done, curr, [], available, upstream)
      modifies this`inDegree, this`available, this`upstream, this`queue
      ensures Turns() <= old(Turns())
      ensures !ok ==> Hazard(w, adj)
      ensures ok ==> Sound(w, adj, available, upstream)
      ensures ok && UniqueIds(w.nodes) ==> Counted(adj, rest, [], done, queue, inDegree) && inDegree.Keys == old(inDegree.Keys)
      ensures ok && UniqueIds(w.nodes) ==> Flowed(w, adj, done, available, upstream)
    {
      var nexts := Succ(adj, curr);
      for i := 0 to |nexts|
        invariant Turns() <= old(Turns())
        invariant Sound(w, adj, available, upstream)
        invariant UniqueIds(w.nodes) ==> Counted(adj, rest, nexts[i..], done, queue, inDegree) && inDegree.Keys == old(inDegree.Keys)
        invariant UniqueIds(w.nodes) ==> Passing(w, adj, done, curr, nexts[..i], available, upstream)
      {
        var next := nexts[i];
        ghost var available0, upstream0 := available, upstream;
        ok := PassTo(curr, next);
        if !ok {
          return;
        }
        if UniqueIds(w.nodes) {
          FirstOf(nexts, i);
          assert next !in done by { TakeOff(adj, rest, next, nexts[i + 1..], done, queue, inDegree); }
          PassStep(w, adj, done, curr, i, available0, upstream0);
        }
        CountDown(next, rest, nexts[i + 1..], done);
      }
      if UniqueIds(w.nodes) {
        assert nexts[..|nexts|] == nexts && nexts[|nexts|..] == [];
        PassedAll(w, adj, done, curr, available, upstream);
      }
      ok := true;
    }

    /** The traversal. It reports a run-time failure instead of tables when it would write to the
        missing entry of an undeclared node. */
    method Traverse(ghost all: set<string>) returns (ok: bool)
      requires Sound(w, adj, available, upstream)
      requires UniqueIds(w.nodes) ==> Counted(adj, all, [], {}, queue, inDegree) && inDegree.Keys <= all
      requires UniqueIds(w.nodes) ==> forall u :: Elements(Succ(adj, u)) <= inDegree.Keys
      modifies this`inDegree, this`available, this`upstream, this`queue
      ensures !ok ==> Hazard(w, adj)
      ensures ok ==> Sound(w, adj, available, upstream)
      ensures ok && UniqueIds(w.nodes) ==>
                exists done: set<string> :: Counted(adj, all - done, [], done, [], inDegree) && inDegree.Keys == old(inDegree.Keys) &&
                                            Flowed(w, adj, done, available, upstream)
    {
      ghost var done: set<string> := {};
      assert all - done == all;
      while |queue| > 0
        invariant Sound(w, adj, available, upstream)
        invariant UniqueIds(w.nodes) ==> Counted(adj, all - done, [], done, queue, inDegree) && inDegree.Keys == old(inDegree.Keys)
        invariant UniqueIds(w.nodes) ==> Flowed(w, adj, done, available, upstream)
        decreases Turns()
      {
        var curr := queue[0];
        ghost var available0 := available;
        if UniqueIds(w.nodes) {
          assert curr in queue;
          PopQueue(adj, all - done, done, queue, inDegree);
          assert all - done - {curr} == all - (done + {curr});
          assert done + {curr} - {curr} == done;
          WritesFlow(w, adj, done, available, upstream, curr);
        }
        WritesSound(w, adj, available, upstream, curr);
        queue := queue[1..];
        done := done + {curr};
        AddNodeWrites(curr);
        ok := PropagateAndEnqueue(curr, all - done, done);
        if !ok {
          return;
        }
      }
      assert queue == [];
      ok := true;
    }
  }

  /** Some edge leads to an undeclared node from a node where a key is available. */
  ghost predicate Hazard(w: Workflow, adj: Adj) {
    exists u, v, key :: v in Succ(adj, u) && v !in NodeIds(w.nodes) && Provided(w, adj, u, key)
  }

  lemma HazardShown(w: Workflow, adj: Adj, available: KeySets, u: string, v: string)
    requires available.Keys == NodeIds(w.nodes) && AvailableSound(w, adj, available)
    requires v in Succ(adj, u) && v !in available && Of(available, u) != {}
    ensures Hazard(w, adj)
  {
    var key :| key in Of(available, u);
    assert Provided(w, adj, u, key);
  }

  // ----- the whole analysis

  ghost predicate SourcesDeclared(w: Workflow, adj: Adj) {
    forall u :: Succ(adj, u) != [] ==> u in NodeIds(w.nodes)
  }

  /** The two tables of a workflow with unique IDs whose forward graph is acyclic and leaves declared
      nodes only: they are exact, unless a key would have to be handed to an undeclared node,
      which is exactly when the analysis fails. */
  method ComputeAvailableAndUpstream(w: Workflow, adj: Adj) returns (ok: bool, available: KeySets, upstream: KeySets)
    requires IsForward(w, adj)
    ensures Draws(w, adj, false)
    ensures !ok ==> Hazard(w, adj)
    ensures UniqueIds(w.nodes) && Acyclic(adj) && SourcesDeclared(w, adj) ==>
              (ok <==> !Hazard(w, adj)) && (ok ==> UpstreamExact(adj, upstream) && AvailableExact(w, adj, available))
  {
    ForwardDraws(w, adj, false);
    var a := new Analysis(w, adj);
    a.ComputeInDegrees();
    a.FindRootNodes();
    a.InitializeTables();
    ghost var all := Universe(adj) + NodeIds(w.nodes) + AllSources(w);
    InitiallyCounted(w, adj, all, a.queue, a.inDegree);
    ok := a.Traverse(all);
    available, upstream := a.available, a.upstream;
    if ok && UniqueIds(w.nodes) && Acyclic(adj) && SourcesDeclared(w, adj) {
      ghost var done: set<string> :| Counted(adj, all - done, [], done, [], a.inDegree) && Flowed(w, adj, done, available, upstream);
      EmptyQueueMeansDone(adj, all - done, done, a.inDegree);
      Finished(w, adj, done, available, upstream);
    }
  }

  ghost function AllSources(w: Workflow): set<string> {
    (set e | e in w.edges :: e.from) + (set n, x | n in w.nodes && n.config.FanIn? && x in n.config.sources :: x)
  }

  lemma InitiallyCounted(w: Workflow, adj: Adj, all: set<string>, queue: seq<string>, inDegree: map<string, int>)
    requires IsForward(w, adj) && all == Universe(adj) + NodeIds(w.nodes) + AllSources(w)
    requires forall v :: Degree(inDegree, v) == ExplicitDegree(w.edges, v) + ImpliedDegrees(w.nodes, v)
    requires forall v :: v in inDegree <==> v in NodeIds(w.nodes) || Degree(inDegree, v) > 0
    requires forall x :: x in queue <==> x in NodeIds(w.nodes) && Degree(inDegree, x) == 0
    requires UniqueIds(w.nodes) ==> NoDup(queue)
    ensures UniqueIds(w.nodes) ==> Counted(adj, all, [], {}, queue, inDegree)
    ensures inDegree.Keys <= all
    ensures forall u :: Elements(Succ(adj, u)) <= inDegree.Keys
  {
    assert HoldsSources(w, all);
    forall v ensures Pending(adj, all, [], v) == Degree(inDegree, v) {
      DegreesAreMultiplicities(w, adj, all, v);
    }
    forall u, v | v in Succ(adj, u) ensures v in inDegree {
      SuccInUniverse(adj, u, v);
      InCountZero(adj, all, v);
      assert Pending(adj, all, [], v) == Degree(inDegree, v);
    }
    forall v | v in inDegree ensures v in all {
      if v !in NodeIds(w.nodes) {
        assert Pending(adj, all, [], v) == Degree(inDegree, v);
        InCountZero(adj, all, v);
        var u :| u in all && v in Succ(adj, u);
        SuccInUniverse(adj, u, v);
      }
    }
  }

  /** When every counted node is done, nothing is missing and no key was lost. */
  lemma Finished(w: Workflow, adj: Adj, done: set<string>, available: KeySets, upstream: KeySets)
    requires Sound(w, adj, available, upstream) && Flowed(w, adj, done, available, upstream)
    requires UniqueIds(w.nodes) && NodeIds(w.nodes) <= done && SourcesDeclared(w, adj)
    ensures UpstreamExact(adj, upstream) && AvailableExact(w, adj, available) && !Hazard(w, adj)
  {
    forall u ensures WritesOf(w, u) <= Of(available, u) && PassedOn(available, upstream, u, Succ(adj, u)) {
      if u !in done {
        assert Succ(adj, u) == [] && WritesOf(w, u) == {};
      }
    }
    TablesExact(w, adj, available, upstream);
    forall u, v, key | v in Succ(adj, u) && v !in NodeIds(w.nodes) ensures !Provided(w, adj, u, key) {
      assert PassedOn(available, upstream, u, Succ(adj, u));
      assert Of(available, v) == {};
    }
  }

  /** With declared endpoints there is nothing to fail on. */
  lemma DeclaredEndpointsSuffice(w: Workflow, adj: Adj)
    requires Universe(adj) <= NodeIds(w.nodes)
    ensures !Hazard(w, adj) && SourcesDeclared(w, adj)
  {
    forall u, v | v in Succ(adj, u) ensures u in NodeIds(w.nodes) && v in NodeIds(w.nodes) {
      SuccInUniverse(adj, u, v);
    }
    forall u | Succ(adj, u) != [] ensures u in NodeIds(w.nodes) {
      SuccInUniverse(adj, u, Succ(adj, u)[0]);
    }
  }

  lemma OneEdgeAcyclic(adj: Adj, a: string, b: string)
    requires a != b && adj == map[a := [b]]
    ensures Acyclic(adj)
  {
    forall p ensures !ClosedWalk(adj, p) {
      if Walk(adj, p) && |p| >= 2 {
        assert p[0 + 1] in Succ(adj, p[0]);
        assert p[0] == a && p[1] == b;
        var n := |p|;
        assert p[n - 2 + 1] in Succ(adj, p[n - 2]);
        assert p[n - 1] == b;
      }
    }
  }

  lemma OneEdgeForward(w: Workflow, a: Node, e: Edge, adj: Adj)
    requires w.nodes == [a] && w.edges == [e] && e.from == a.id && !e.restart
    requires !a.config.Parallel? && !a.config.FanIn? && adj == map[a.id := [e.to]]
    ensures IsForward(w, adj)
  {
    assert w.edges[..0] == [] && w.nodes[..0] == [];
    forall u ensures Succ(adj, u) == ExplicitTargets(w.edges, u, false) + ImpliedTargets(w.nodes, u) {
      assert ImpliedTargets(w.nodes, u) == [];
      assert ExplicitTargets([], u, false) == [];
    }
  }

  lemma OneEdgeHazard(w: Workflow, a: Node, e: Edge, adj: Adj, key: string)
    requires w.nodes == [a] && a.id != e.to && adj == map[a.id := [e.to]] && key in a.writeKeys
    ensures SourcesDeclared(w, adj) && Hazard(w, adj)
  {
    assert a in w.nodes && NodeIds(w.nodes) == {a.id};
    assert ProvidedBy(w, adj, a.id, key, a);
    assert Provided(w, adj, a.id, key);
    assert e.to in Succ(adj, a.id);
  }

  /** The failure does occur: one node that writes a key, with one edge to an undeclared node. */
  lemma HazardArises(w: Workflow, a: Node, e: Edge, adj: Adj, key: string)
    requires w.nodes == [a] && w.edges == [e] && e.from == a.id && !e.restart && e.to != a.id
    requires !a.config.Parallel? && !a.config.FanIn? && key in a.writeKeys && adj == map[a.id := [e.to]]
    ensures IsForward(w, adj) && UniqueIds(w.nodes) && Acyclic(adj) && SourcesDeclared(w, adj) && Hazard(w, adj)
  {
    OneEdgeForward(w, a, e, adj);
    OneEdgeAcyclic(adj, a.id, e.to);
    OneEdgeHazard(w, a, e, adj, key);
  }
}
