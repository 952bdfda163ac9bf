/** The order of the edges in a lookup, and the link between the lookup and the adjacency maps: both draw the
    same implied edges. */
module ImpliedEdges {
  import opened IR
  import opened Graphs
  import opened Sequences
  import opened Lookup
  import opened Adjacency

  // ----- the order of a lookup

  /** The first occurrences, in order, of what is not settled. */
  function Fresh(ids: seq<string>, settled: set<string>): seq<string> {
    if ids == [] then []
    else
      var front, last := ids[..|ids| - 1], ids[|ids| - 1];
      Fresh(front, settled) + if last in settled || last in front then [] else [last]
  }

  lemma {:induction false} FreshAfter(x: string, rest: seq<string>, settled: set<string>)
    ensures Fresh([x] + rest, settled) == (if x in settled then [] else [x]) + Fresh(rest, settled + {x})
    decreases |rest|
  {
    var ids := [x] + rest;
    if rest == [] {
      assert ids == [x] && ids[..0] == [];
      assert Fresh([], settled) == [];
    } else {
      var front, last := rest[..|rest| - 1], rest[|rest| - 1];
      assert ids[..|ids| - 1] == [x] + front && ids[|ids| - 1] == last;
      FreshAfter(x, front, settled);
      Assoc(if x in settled then [] else [x], Fresh(front, settled + {x}), if last in settled || last in [x] + front then [] else [last]);
    }
  }

  lemma {:induction false} FreshJoin(a: seq<string>, b: seq<string>, settled: set<string>)
    ensures Fresh(a + b, settled) == Fresh(a, settled) + Fresh(b, settled + Elements(a))
    decreases |b|
  {
    if b == [] {
      assert a + b == a;
    } else {
      var front, last := b[..|b| - 1], b[|b| - 1];
      assert (a + b)[..|a + b| - 1] == a + front;
      FreshJoin(a, front, settled);
      Assoc(Fresh(a, settled), Fresh(front, settled + Elements(a)), if last in settled || last in a + front then [] else [last]);
    }
  }

  /** The implied edges from one node to several, with no label, no condition, no weight and no restart mark. */
  function ImpliedTo(u: string, ids: seq<string>): seq<Edge> {
    seq(|ids|, i requires 0 <= i < |ids| => Edge(u, ids[i], "", None, 0, false))
  }

  function ImpliedInto(ids: seq<string>, v: string): seq<Edge> {
    seq(|ids|, i requires 0 <= i < |ids| => Edge(ids[i], v, "", None, 0, false))
  }

  lemma ImpliedToCons(u: string, x: string, ids: seq<string>)
    ensures ImpliedTo(u, [x] + ids) == [Implied(u, x)] + ImpliedTo(u, ids)
    ensures ImpliedInto([x] + ids, u) == [Implied(x, u)] + ImpliedInto(ids, u)
  {
  }

  lemma {:induction false} FanOutInOrder(u: string, targets: seq<string>, seen: set<string>)
    ensures FanOut(u, targets, seen) == ImpliedTo(u, Fresh(targets, seen))
    decreases |targets|
  {
    if targets != [] {
      var x, rest := targets[0], targets[1..];
      assert targets == [x] + rest;
      FreshAfter(x, rest, seen);
      if x in seen {
        assert seen + {x} == seen;
        FanOutInOrder(u, rest, seen);
      } else {
        FanOutInOrder(u, rest, seen + {x});
        ImpliedToCons(u, x, Fresh(rest, seen + {x}));
      }
    }
  }

  lemma {:induction false} JoinInInOrder(v: string, sources: seq<string>, seen: set<string>)
    ensures JoinIn(v, sources, seen) == ImpliedInto(Fresh(sources, seen), v)
    decreases |sources|
  {
    if sources != [] {
      var x, rest := sources[0], sources[1..];
      assert sources == [x] + rest;
      FreshAfter(x, rest, seen);
      if x in seen {
        assert seen + {x} == seen;
        JoinInInOrder(v, rest, seen);
      } else {
        JoinInInOrder(v, rest, seen + {x});
        ImpliedToCons(v, x, Fresh(rest, seen + {x}));
      }
    }
  }

  /** The fan-in nodes that list a node among their sources, in order of declaration. */
  function FanInsOf(nodes: seq<Node>, u: string): seq<string> {
    if nodes == [] then []
    else (match nodes[0].config case FanIn(sources) => if u in sources then [nodes[0].id] else [] case _ => []) + FanInsOf(nodes[1..], u)
  }

  /** The parallel nodes that list a node among their targets, in order of declaration. */
  function ParallelsOf(nodes: seq<Node>, v: string): seq<string> {
    if nodes == [] then []
    else (match nodes[0].config case Parallel(targets, _) => if v in targets then [nodes[0].id] else [] case _ => []) + ParallelsOf(nodes[1..], v)
  }

  lemma {:induction false} JoinsOfInOrder(nodes: seq<Node>, u: string, seen: set<string>)
    ensures JoinsOf(nodes, u, seen) == ImpliedTo(u, Fresh(FanInsOf(nodes, u), seen))
    decreases |nodes|
  {
    if nodes != [] {
      var n, rest := nodes[0], nodes[1..];
      if JoinsFrom(n, u) {
        FreshAfter(n.id, FanInsOf(rest, u), seen);
        if n.id in seen {
          assert seen + {n.id} == seen;
          JoinsOfInOrder(rest, u, seen);
        } else {
          JoinsOfInOrder(rest, u, seen + {n.id});
          ImpliedToCons(u, n.id, Fresh(FanInsOf(rest, u), seen + {n.id}));
        }
      } else {
        JoinsOfInOrder(rest, u, seen);
        assert [] + FanInsOf(rest, u) == FanInsOf(rest, u);
      }
    }
  }

  lemma {:induction false} ForksOfInOrder(nodes: seq<Node>, v: string, seen: set<string>)
    ensures ForksOf(nodes, v, seen) == ImpliedInto(Fresh(ParallelsOf(nodes, v), seen), v)
    decreases |nodes|
  {
    if nodes != [] {
      var n, rest := nodes[0], nodes[1..];
      if ForksTo(n, v) {
        FreshAfter(n.id, ParallelsOf(rest, v), seen);
        if n.id in seen {
          assert seen + {n.id} == seen;
          ForksOfInOrder(rest, v, seen);
        } else {
          ForksOfInOrder(rest, v, seen + {n.id});
          ImpliedToCons(v, n.id, Fresh(ParallelsOf(rest, v), seen + {n.id}));
        }
      } else {
        ForksOfInOrder(rest, v, seen);
        assert [] + ParallelsOf(rest, v) == ParallelsOf(rest, v);
      }
    }
  }

  /** What the first declaration of a parallel node fans out to. */
  function FansOutTo(w: Workflow, u: string): seq<string> {
    match FindNode(w.nodes, u)
    case Some(n) => (match n.config case Parallel(targets, _) => targets case _ => [])
    case None => []
  }

  function FansInFrom(w: Workflow, v: string): seq<string> {
    match FindNode(w.nodes, v)
    case Some(n) => (match n.config case FanIn(sources) => sources case _ => [])
    case None => []
  }

  /** The targets of u that an unconditional explicit edge settles. */
  ghost function SettledFrom(w: Workflow, u: string): set<string> {
    set e | e in w.edges && e.from == u && e.condition == None :: e.to
  }

  ghost function SettledTo(w: Workflow, v: string): set<string> {
    set e | e in w.edges && e.to == v && e.condition == None :: e.from
  }

  lemma {:induction false} ExplicitParts(a: seq<Edge>, b: seq<Edge>, id: string)
    ensures ExplicitFrom(a + b, id) == ExplicitFrom(a, id) + ExplicitFrom(b, id)
    ensures ExplicitTo(a + b, id) == ExplicitTo(a, id) + ExplicitTo(b, id)
    decreases |a|
  {
    if a == [] {
      assert a + b == b;
    } else {
      TailOfJoin(a, b);
      ExplicitParts(a[1..], b, id);
      Assoc(if a[0].from == id then [a[0]] else [], ExplicitFrom(a[1..], id), ExplicitFrom(b, id));
      Assoc(if a[0].to == id then [a[0]] else [], ExplicitTo(a[1..], id), ExplicitTo(b, id));
    }
  }

  lemma ExplicitOne(e: Edge, id: string)
    ensures ExplicitFrom([e], id) == if e.from == id then [e] else []
    ensures ExplicitTo([e], id) == if e.to == id then [e] else []
  {
    assert [e][1..] == [];
  }

  lemma {:induction false} ExplicitMembers(edges: seq<Edge>, id: string, e: Edge)
    ensures e in ExplicitFrom(edges, id) <==> e in edges && e.from == id
    ensures e in ExplicitTo(edges, id) <==> e in edges && e.to == id
  {
    if edges != [] {
      ExplicitMembers(edges[1..], id, e);
    }
  }

  lemma SettledDirectly(w: Workflow, id: string)
    ensures Settled(ExplicitFrom(w.edges, id)) == SettledFrom(w, id)
    ensures SettledSources(ExplicitTo(w.edges, id)) == SettledTo(w, id)
  {
    forall e: Edge ensures e in ExplicitFrom(w.edges, id) <==> e in w.edges && e.from == id {
      ExplicitMembers(w.edges, id, e);
    }
    forall e: Edge ensures e in ExplicitTo(w.edges, id) <==> e in w.edges && e.to == id {
      ExplicitMembers(w.edges, id, e);
    }
  }

  /** The edges from a node: the explicit ones as declared, and then one implied edge to each target that the
      node fans out to and each fan-in that lists it, in this order, leaving out what comes again and what an
      unconditional explicit edge settles. */
  lemma EdgesFromInOrder(w: Workflow, u: string)
    ensures EdgesFrom(w, u) == ExplicitFrom(w.edges, u) + ImpliedTo(u, Fresh(FansOutTo(w, u) + FanInsOf(w.nodes, u), SettledFrom(w, u)))
  {
    var targets, seen := FansOutTo(w, u), SettledFrom(w, u);
    SettledDirectly(w, u);
    assert TargetsOf(w, u) == targets;
    FanOutInOrder(u, targets, seen);
    JoinsOfInOrder(w.nodes, u, seen + Elements(targets));
    FreshJoin(targets, FanInsOf(w.nodes, u), seen);
    ImpliedToJoin(u, Fresh(targets, seen), Fresh(FanInsOf(w.nodes, u), seen + Elements(targets)));
    Assoc(ExplicitFrom(w.edges, u), FanOut(u, targets, seen), JoinsOf(w.nodes, u, seen + Elements(targets)));
  }

  lemma ImpliedToJoin(u: string, a: seq<string>, b: seq<string>)
    ensures ImpliedTo(u, a + b) == ImpliedTo(u, a) + ImpliedTo(u, b)
    ensures ImpliedInto(a + b, u) == ImpliedInto(a, u) + ImpliedInto(b, u)
  {
  }

  lemma {:induction false} FreshElements(ids: seq<string>, settled: set<string>)
    ensures settled + Elements(Fresh(ids, settled)) == settled + Elements(ids)
    decreases |ids|
  {
    if ids != [] {
      var front, last := ids[..|ids| - 1], ids[|ids| - 1];
      FreshElements(front, settled);
      FrontAndLast(ids);
      assert Elements(ids) == Elements(front) + {last};
      var more := if last in settled || last in front then [] else [last];
      assert Elements(Fresh(front, settled) + more) == Elements(Fresh(front, settled)) + Elements(more);
      assert settled + Elements(front) + Elements(more) == settled + Elements(front) + {last};
      assert settled + Elements(ids) == settled + Elements(front) + {last};
      assert settled + Elements(Fresh(ids, settled)) == settled + Elements(Fresh(front, settled)) + Elements(more);
    }
  }

  lemma SourcesOfImplied(ids: seq<string>, v: string)
    ensures Sources(ImpliedInto(ids, v)) == Elements(ids)
  {
    var edges := ImpliedInto(ids, v);
    forall x | x in ids ensures x in Sources(edges) {
      var i :| 0 <= i < |ids| && ids[i] == x;
      assert edges[i] in edges;
    }
  }

  /** The same backwards: parallel nodes that list the node come first, then what it joins. */
  lemma EdgesToInOrder(w: Workflow, v: string)
    ensures EdgesTo(w, v) == ExplicitTo(w.edges, v) + ImpliedInto(Fresh(ParallelsOf(w.nodes, v) + FansInFrom(w, v), SettledTo(w, v)), v)
  {
    var forks, sources, seen := ParallelsOf(w.nodes, v), FansInFrom(w, v), SettledTo(w, v);
    SettledDirectly(w, v);
    assert SourcesOf(w, v) == sources;
    ForksOfInOrder(w.nodes, v, seen);
    SourcesOfImplied(Fresh(forks, seen), v);
    FreshElements(forks, seen);
    JoinInInOrder(v, sources, seen + Elements(forks));
    FreshJoin(forks, sources, seen);
    ImpliedToJoin(v, Fresh(forks, seen), Fresh(sources, seen + Elements(forks)));
    Assoc(ExplicitTo(w.edges, v), ForksOf(w.nodes, v, seen), JoinIn(v, sources, seen + Elements(forks)));
  }

  // ----- lookup and adjacency

  /** An explicit edge leads from u to v, u is a parallel node with target v, or v a fan-in node with source u. */
  ghost predicate Joined(w: Workflow, u: string, v: string, restarts: bool) {
    || (exists e :: e in w.edges && e.from == u && e.to == v && (restarts || !e.restart))
    || (exists n :: n in w.nodes && n.id == u && n.config.Parallel? && v in n.config.targets)
    || (exists n :: n in w.nodes && n.id == v && n.config.FanIn? && u in n.config.sources)
  }

  lemma {:induction false} ExplicitTargetsMembers(edges: seq<Edge>, u: string, v: string, restarts: bool)
    ensures v in ExplicitTargets(edges, u, restarts) <==> exists e :: e in edges && e.from == u && e.to == v && (restarts || !e.restart)
  {
    if edges != [] {
      ExplicitTargetsMembers(edges[..|edges| - 1], u, v, restarts);
      FrontAndLast(edges);
    }
  }

  lemma {:induction false} ImpliedTargetsMembers(nodes: seq<Node>, u: string, v: string)
    ensures v in ImpliedTargets(nodes, u) <==>
            || (exists n :: n in nodes && n.id == u && n.config.Parallel? && v in n.config.targets)
            || (exists n :: n in nodes && n.id == v && n.config.FanIn? && u in n.config.sources)
  {
    if nodes != [] {
      var last := nodes[|nodes| - 1];
      ImpliedTargetsMembers(nodes[..|nodes| - 1], u, v);
      FrontAndLast(nodes);
      if last.config.FanIn? {
        OccursIn(last.config.sources, u);
        OccursIn(Repeat(last.id, Occurrences(last.config.sources, u)), v);
        OccurrencesRepeat(last.id, Occurrences(last.config.sources, u), v);
      }
    }
  }

  /** What leads where in a forward adjacency map. */
  lemma ForwardJoins(w: Workflow, adj: Adj, u: string, v: string, restarts: bool)
    requires Succ(adj, u) == ExplicitTargets(w.edges, u, restarts) + ImpliedTargets(w.nodes, u)
    ensures v in Succ(adj, u) <==> Joined(w, u, v, restarts)
  {
    ExplicitTargetsMembers(w.edges, u, v, restarts);
    ImpliedTargetsMembers(w.nodes, u, v);
  }

  /** The map draws the edges of the workflow, the implied ones included, and no others. */
  ghost predicate Draws(w: Workflow, adj: Adj, restarts: bool) {
    forall u, v :: v in Succ(adj, u) <==> Joined(w, u, v, restarts)
  }

  lemma ForwardDraws(w: Workflow, adj: Adj, restarts: bool)
    requires forall u :: Succ(adj, u) == ExplicitTargets(w.edges, u, restarts) + ImpliedTargets(w.nodes, u)
    ensures Draws(w, adj, restarts)
  {
    forall u, v ensures v in Succ(adj, u) <==> Joined(w, u, v, restarts) {
      ForwardJoins(w, adj, u, v, restarts);
    }
  }

  lemma LinkedWhenJoined(w: Workflow, u: string, v: string)
    ensures Joined(w, u, v, true) <==> Links(w, u, v) != []
  {
    BetweenMembers(w.edges, u, v);
    if e :| e in w.edges && e.from == u && e.to == v {
      assert e in Between(w.edges, u, v);
    } else {
      SomeEdge(Between(w.edges, u, v));
    }
  }

  lemma SomeEdge(edges: seq<Edge>)
    ensures edges == [] || exists e :: e in edges
  {
    if edges != [] {
      assert edges[0] in edges;
    }
  }

  lemma FoundWhenLinked(w: Workflow, u: string, v: string)
    requires UniqueIds(w.nodes)
    ensures Links(w, u, v) != [] <==> exists e :: e in EdgesFrom(w, u) && e.to == v
  {
    EdgesFromLinks(w, u, v);
    BetweenMembers(EdgesFrom(w, u), u, v);
    if Links(w, u, v) != [] {
      assert Links(w, u, v)[0] in Between(EdgesFrom(w, u), u, v);
    }
    if e :| e in EdgesFrom(w, u) && e.to == v {
      assert e in Between(EdgesFrom(w, u), u, v);
    }
  }

  /** With unique IDs, the lookup that runs follow and the adjacency map that the analyses search agree on what
      leads where. */
  lemma LookupMeetsAdjacency(w: Workflow, adj: Adj, u: string, v: string)
    requires UniqueIds(w.nodes) && Succ(adj, u) == ExplicitTargets(w.edges, u, true) + ImpliedTargets(w.nodes, u)
    ensures v in Succ(adj, u) <==> exists e :: e in EdgesFrom(w, u) && e.to == v
  {
    ForwardJoins(w, adj, u, v, true);
    LinkedWhenJoined(w, u, v);
    FoundWhenLinked(w, u, v);
  }
}
