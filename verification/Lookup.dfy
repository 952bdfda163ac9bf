/** Edge lookup in both directions: the explicit edges of a node plus the edges that
    parallel fan-outs and fan-in joins imply, without redundant implied edges. */
module Lookup {
  import opened IR
  import opened Graphs
  import opened Sequences

  function Implied(from: string, to: string): Edge {
    Edge(from, to, "", None, 0, false)
  }

  /** Edges in declaration order that satisfy the direction test. */
  function Between(edges: seq<Edge>, u: string, v: string): seq<Edge> {
    if edges == [] then []
    else (if edges[0].from == u && edges[0].to == v then [edges[0]] else []) + Between(edges[1..], u, v)
  }

  function ExplicitFrom(edges: seq<Edge>, id: string): (r: seq<Edge>)
    ensures forall e :: e in r ==> e.from == id
  {
    if edges == [] then []
    else (if edges[0].from == id then [edges[0]] else []) + ExplicitFrom(edges[1..], id)
  }

  function ExplicitTo(edges: seq<Edge>, id: string): (r: seq<Edge>)
    ensures forall e :: e in r ==> e.to == id
  {
    if edges == [] then []
    else (if edges[0].to == id then [edges[0]] else []) + ExplicitTo(edges[1..], id)
  }

  /** The implied edges from id to the targets not seen before, each target once. */
  function FanOut(id: string, targets: seq<string>, seen: set<string>): (r: seq<Edge>)
    ensures forall e :: e in r ==> e.from == id
  {
    if targets == [] then []
    else if targets[0] in seen then FanOut(id, targets[1..], seen)
    else [Implied(id, targets[0])] + FanOut(id, targets[1..], seen + {targets[0]})
  }

  /** The implied edges into id from the sources not seen before, each source once. */
  function JoinIn(id: string, sources: seq<string>, seen: set<string>): (r: seq<Edge>)
    ensures forall e :: e in r ==> e.to == id
  {
    if sources == [] then []
    else if sources[0] in seen then JoinIn(id, sources[1..], seen)
    else [Implied(sources[0], id)] + JoinIn(id, sources[1..], seen + {sources[0]})
  }

  predicate JoinsFrom(n: Node, id: string) {
    n.config.FanIn? && id in n.config.sources
  }

  predicate ForksTo(n: Node, id: string) {
    n.config.Parallel? && id in n.config.targets
  }

  /** The implied edges from id to the unseen fan-in nodes that list it as a source. */
  function JoinsOf(nodes: seq<Node>, id: string, seen: set<string>): (r: seq<Edge>)
    ensures forall e :: e in r ==> e.from == id
  {
    if nodes == [] then []
    else if JoinsFrom(nodes[0], id) && nodes[0].id !in seen then
      [Implied(id, nodes[0].id)] + JoinsOf(nodes[1..], id, seen + {nodes[0].id})
    else JoinsOf(nodes[1..], id, seen)
  }

  /** The implied edges into id from the unseen parallel nodes that list it as a target. */
  function ForksOf(nodes: seq<Node>, id: string, seen: set<string>): (r: seq<Edge>)
    ensures forall e :: e in r ==> e.to == id
  {
    if nodes == [] then []
    else if ForksTo(nodes[0], id) && nodes[0].id !in seen then
      [Implied(nodes[0].id, id)] + ForksOf(nodes[1..], id, seen + {nodes[0].id})
    else ForksOf(nodes[1..], id, seen)
  }

  function TargetsOf(w: Workflow, id: string): seq<string> {
    var n := FindNode(w.nodes, id);
    if n.Some? && n.value.config.Parallel? then n.value.config.targets else []
  }

  function SourcesOf(w: Workflow, id: string): seq<string> {
    var n := FindNode(w.nodes, id);
    if n.Some? && n.value.config.FanIn? then n.value.config.sources else []
  }

  /** Targets already reached by an unconditional explicit edge. */
  function Settled(edges: seq<Edge>): set<string> {
    set e | e in edges && e.condition.None? :: e.to
  }

  function SettledSources(edges: seq<Edge>): set<string> {
    set e | e in edges && e.condition.None? :: e.from
  }

  function Sources(edges: seq<Edge>): set<string> {
    set e | e in edges :: e.from
  }

  function EdgesFrom(w: Workflow, id: string): (r: seq<Edge>)
    ensures forall e :: e in r ==> e.from == id
  {
    var explicit := ExplicitFrom(w.edges, id);
    var targets := TargetsOf(w, id);
    var seen := Settled(explicit);
    explicit + FanOut(id, targets, seen) + JoinsOf(w.nodes, id, seen + Elements(targets))
  }

  function EdgesTo(w: Workflow, id: string): (r: seq<Edge>)
    ensures forall e :: e in r ==> e.to == id
  {
    var explicit := ExplicitTo(w.edges, id);
    var seen := SettledSources(explicit);
    var forks := ForksOf(w.nodes, id, seen);
    explicit + forks + JoinIn(id, SourcesOf(w, id), seen + Sources(forks))
  }

  lemma SettledCons(e: Edge, rest: seq<Edge>)
    ensures Settled([e] + rest) == (if e.condition.None? then {e.to} else {}) + Settled(rest)
    ensures SettledSources([e] + rest) == (if e.condition.None? then {e.from} else {}) + SettledSources(rest)
  {
    assert forall x :: x in [e] + rest <==> x == e || x in rest;
  }

  lemma SourcesCons(e: Edge, rest: seq<Edge>)
    ensures Sources([e] + rest) == {e.from} + Sources(rest)
  {
    assert forall x :: x in [e] + rest <==> x == e || x in rest;
  }

  lemma RegroupSet<T>(a: set<T>, b: set<T>, c: set<T>)
    ensures a + (b + c) == (a + b) + c
    ensures a + ({} + c) == a + c
  {
  }

  /** The slice under construction together with the shared map of far endpoints already
      covered: what every helper of the two lookups updates in place. */
  class Collector {
    var out: seq<Edge>
    var seen: set<string>

    constructor ()
      ensures out == [] && seen == {}
    {
      out, seen := [], {};
    }

    method ExplicitEdgesFrom(w: Workflow, id: string)
      modifies this
      ensures out == old(out) + ExplicitFrom(w.edges, id)
      ensures seen == old(seen) + Settled(ExplicitFrom(w.edges, id))
    {
      for i := 0 to |w.edges|
        invariant old(out) + ExplicitFrom(w.edges, id) == out + ExplicitFrom(w.edges[i..], id)
        invariant old(seen) + Settled(ExplicitFrom(w.edges, id)) == seen + Settled(ExplicitFrom(w.edges[i..], id))
      {
        var e := w.edges[i];
        assert w.edges[i..][1..] == w.edges[i + 1..];
        if e.from == id {
          Regroup(out, e, ExplicitFrom(w.edges[i + 1..], id));
          SettledCons(e, ExplicitFrom(w.edges[i + 1..], id));
          RegroupSet(seen, {e.to}, Settled(ExplicitFrom(w.edges[i + 1..], id)));
          out := out + [e];
          if e.condition.None? {
            seen := seen + {e.to};
          }
        }
      }
    }

    method ParallelEdgesFrom(w: Workflow, id: string)
      modifies this
      ensures out == old(out) + FanOut(id, TargetsOf(w, id), old(seen))
      ensures seen == old(seen) + Elements(TargetsOf(w, id))
    {
      var node := FindNode(w.nodes, id);
      if node.None? || !node.value.config.Parallel? {
        return;
      }
      var targets := node.value.config.targets;
      for i := 0 to |targets|
        invariant old(out) + FanOut(id, targets, old(seen)) == out + FanOut(id, targets[i..], seen)
        invariant seen == old(seen) + Elements(targets[..i])
      {
        assert targets[i..][1..] == targets[i + 1..];
        assert targets[..i + 1] == targets[..i] + [targets[i]];
        if targets[i] !in seen {
          Regroup(out, Implied(id, targets[i]), FanOut(id, targets[i + 1..], seen + {targets[i]}));
          out := out + [Implied(id, targets[i])];
          seen := seen + {targets[i]};
        }
      }
      assert targets[..|targets|] == targets;
    }

    method AddFanInSourceEdges(srcId: string, fanInId: string, sources: seq<string>)
      modifies this
      ensures out == old(out) + (if srcId in sources && fanInId !in old(seen) then [Implied(srcId, fanInId)] else [])
      ensures seen == old(seen) + (if srcId in sources then {fanInId} else {})
    {
      for i := 0 to |sources|
        invariant out == old(out) + (if srcId in sources[..i] && fanInId !in old(seen) then [Implied(srcId, fanInId)] else [])
        invariant seen == old(seen) + (if srcId in sources[..i] then {fanInId} else {})
      {
        assert sources[..i + 1] == sources[..i] + [sources[i]];
        if sources[i] == srcId && fanInId !in seen {
          out := out + [Implied(srcId, fanInId)];
          seen := seen + {fanInId};
        }
      }
      assert sources[..|sources|] == sources;
    }

    method FanInEdgesFrom(w: Workflow, id: string)
      modifies this
      ensures out == old(out) + JoinsOf(w.nodes, id, old(seen))
    {
      for i := 0 to |w.nodes|
        invariant old(out) + JoinsOf(w.nodes, id, old(seen)) == out + JoinsOf(w.nodes[i..], id, seen)
      {
        assert w.nodes[i..][1..] == w.nodes[i + 1..];
        var n := w.nodes[i];
        if n.config.FanIn? {
          ghost var before, seenBefore := out, seen;
          AddFanInSourceEdges(id, n.id, n.config.sources);
          if id in n.config.sources && n.id !in seenBefore {
            Regroup(before, Implied(id, n.id), JoinsOf(w.nodes[i + 1..], id, seen));
          } else {
            assert seen == seenBefore;
          }
        }
      }
    }

    method ExplicitEdgesTo(w: Workflow, id: string)
      modifies this
      ensures out == old(out) + ExplicitTo(w.edges, id)
      ensures seen == old(seen) + SettledSources(ExplicitTo(w.edges, id))
    {
      for i := 0 to |w.edges|
        invariant old(out) + ExplicitTo(w.edges, id) == out + ExplicitTo(w.edges[i..], id)
        invariant old(seen) + SettledSources(ExplicitTo(w.edges, id)) == seen + SettledSources(ExplicitTo(w.edges[i..], id))
      {
        var e := w.edges[i];
        assert w.edges[i..][1..] == w.edges[i + 1..];
        if e.to == id {
          Regroup(out, e, ExplicitTo(w.edges[i + 1..], id));
          SettledCons(e, ExplicitTo(w.edges[i + 1..], id));
          RegroupSet(seen, {e.from}, SettledSources(ExplicitTo(w.edges[i + 1..], id)));
          out := out + [e];
          if e.condition.None? {
            seen := seen + {e.from};
          }
        }
      }
    }

    method ParallelEdgesTo(w: Workflow, id: string)
      modifies this
      ensures out == old(out) + ForksOf(w.nodes, id, old(seen))
      ensures seen == old(seen) + Sources(ForksOf(w.nodes, id, old(seen)))
    {
      for i := 0 to |w.nodes|
        invariant old(out) + ForksOf(w.nodes, id, old(seen)) == out + ForksOf(w.nodes[i..], id, seen)
        invariant old(seen) + Sources(ForksOf(w.nodes, id, old(seen))) == seen + Sources(ForksOf(w.nodes[i..], id, seen))
      {
        assert w.nodes[i..][1..] == w.nodes[i + 1..];
        var n := w.nodes[i];
        if ForksTo(n, id) && n.id !in seen {
          Regroup(out, Implied(n.id, id), ForksOf(w.nodes[i + 1..], id, seen + {n.id}));
          SourcesCons(Implied(n.id, id), ForksOf(w.nodes[i + 1..], id, seen + {n.id}));
          out := out + [Implied(n.id, id)];
          seen := seen + {n.id};
        }
      }
    }

    method FanInEdgesTo(w: Workflow, id: string)
      modifies this
      ensures out == old(out) + JoinIn(id, SourcesOf(w, id), old(seen))
    {
      var node := FindNode(w.nodes, id);
      if node.None? || !node.value.config.FanIn? {
        return;
      }
      var sources := node.value.config.sources;
      for i := 0 to |sources|
        invariant old(out) + JoinIn(id, sources, old(seen)) == out + JoinIn(id, sources[i..], seen)
      {
        assert sources[i..][1..] == sources[i + 1..];
        if sources[i] !in seen {
          Regroup(out, Implied(sources[i], id), JoinIn(id, sources[i + 1..], seen + {sources[i]}));
          out := out + [Implied(sources[i], id)];
          seen := seen + {sources[i]};
        }
      }
    }
  }

  method CollectEdgesFrom(w: Workflow, id: string) returns (out: seq<Edge>)
    ensures out == EdgesFrom(w, id)
  {
    var c := new Collector();
    c.ExplicitEdgesFrom(w, id);
    c.ParallelEdgesFrom(w, id);
    c.FanInEdgesFrom(w, id);
    out := c.out;
    assert {} + Settled(ExplicitFrom(w.edges, id)) == Settled(ExplicitFrom(w.edges, id));
    assert [] + ExplicitFrom(w.edges, id) == ExplicitFrom(w.edges, id);
  }

  method CollectEdgesTo(w: Workflow, id: string) returns (out: seq<Edge>)
    ensures out == EdgesTo(w, id)
  {
    var c := new Collector();
    c.ExplicitEdgesTo(w, id);
    c.ParallelEdgesTo(w, id);
    c.FanInEdgesTo(w, id);
    out := c.out;
    assert {} + SettledSources(ExplicitTo(w.edges, id)) == SettledSources(ExplicitTo(w.edges, id));
    assert [] + ExplicitTo(w.edges, id) == ExplicitTo(w.edges, id);
  }

  // ----- what the two lookups have in common

  /** A parallel or fan-in node implies an edge from u to v. */
  ghost predicate ImpliesEdge(w: Workflow, u: string, v: string) {
    exists n :: n in w.nodes && ((n.id == u && ForksTo(n, v)) || (n.id == v && JoinsFrom(n, u)))
  }

  /** The edges from u to v: the explicit ones in declaration order, then one implied edge
      when something implies it and no explicit edge from u to v is unconditional. */
  ghost function Links(w: Workflow, u: string, v: string): seq<Edge> {
    Between(w.edges, u, v) +
    if ImpliesEdge(w, u, v) && v !in Settled(Between(w.edges, u, v)) then [Implied(u, v)] else []
  }

  lemma {:induction false} BetweenConcat(a: seq<Edge>, b: seq<Edge>, u: string, v: string)
    ensures Between(a + b, u, v) == Between(a, u, v) + Between(b, u, v)
  {
    if a == [] {
      assert a + b == b;
    } else {
      assert (a + b)[1..] == a[1..] + b;
      BetweenConcat(a[1..], b, u, v);
    }
  }

  lemma {:induction false} BetweenMembers(edges: seq<Edge>, u: string, v: string)
    ensures forall e :: e in Between(edges, u, v) <==> e in edges && e.from == u && e.to == v
  {
    if edges != [] {
      BetweenMembers(edges[1..], u, v);
      assert edges == [edges[0]] + edges[1..];
    }
  }

  lemma {:induction false} BetweenExplicit(edges: seq<Edge>, u: string, v: string)
    ensures Between(ExplicitFrom(edges, u), u, v) == Between(edges, u, v)
    ensures Between(ExplicitTo(edges, v), u, v) == Between(edges, u, v)
  {
    if edges != [] {
      BetweenExplicit(edges[1..], u, v);
      BetweenConcat(if edges[0].from == u then [edges[0]] else [], ExplicitFrom(edges[1..], u), u, v);
      BetweenConcat(if edges[0].to == v then [edges[0]] else [], ExplicitTo(edges[1..], v), u, v);
    }
  }

  lemma {:induction false} BetweenFanOut(u: string, v: string, targets: seq<string>, seen: set<string>)
    ensures Between(FanOut(u, targets, seen), u, v) == if v in targets && v !in seen then [Implied(u, v)] else []
  {
    if targets != [] {
      var t := targets[0];
      assert targets == [t] + targets[1..];
      if t in seen {
        BetweenFanOut(u, v, targets[1..], seen);
      } else {
        BetweenFanOut(u, v, targets[1..], seen + {t});
        BetweenConcat([Implied(u, t)], FanOut(u, targets[1..], seen + {t}), u, v);
      }
    }
  }

  lemma {:induction false} BetweenJoinIn(u: string, v: string, sources: seq<string>, seen: set<string>)
    ensures Between(JoinIn(v, sources, seen), u, v) == if u in sources && u !in seen then [Implied(u, v)] else []
  {
    if sources != [] {
      var s := sources[0];
      assert sources == [s] + sources[1..];
      if s in seen {
        BetweenJoinIn(u, v, sources[1..], seen);
      } else {
        BetweenJoinIn(u, v, sources[1..], seen + {s});
        BetweenConcat([Implied(s, v)], JoinIn(v, sources[1..], seen + {s}), u, v);
      }
    }
  }

  lemma {:induction false} BetweenJoinsOf(nodes: seq<Node>, u: string, v: string, seen: set<string>)
    ensures Between(JoinsOf(nodes, u, seen), u, v) ==
            if v !in seen && DeclaresJoin(nodes, u, v) then [Implied(u, v)] else []
  {
    if nodes != [] {
      var n := nodes[0];
      JoinCons(nodes, u, v);
      if JoinsFrom(n, u) && n.id !in seen {
        BetweenJoinsOf(nodes[1..], u, v, seen + {n.id});
        BetweenConcat([Implied(u, n.id)], JoinsOf(nodes[1..], u, seen + {n.id}), u, v);
      } else {
        BetweenJoinsOf(nodes[1..], u, v, seen);
      }
    }
  }

  ghost predicate DeclaresFork(nodes: seq<Node>, u: string, v: string) {
    exists n :: n in nodes && n.id == u && ForksTo(n, v)
  }

  lemma ForkCons(nodes: seq<Node>, u: string, v: string)
    requires nodes != []
    ensures DeclaresFork(nodes, u, v) <==> (nodes[0].id == u && ForksTo(nodes[0], v)) || DeclaresFork(nodes[1..], u, v)
  {
    assert nodes == [nodes[0]] + nodes[1..];
  }

  ghost predicate DeclaresJoin(nodes: seq<Node>, u: string, v: string) {
    exists n :: n in nodes && n.id == v && JoinsFrom(n, u)
  }

  lemma JoinCons(nodes: seq<Node>, u: string, v: string)
    requires nodes != []
    ensures DeclaresJoin(nodes, u, v) <==> (nodes[0].id == v && JoinsFrom(nodes[0], u)) || DeclaresJoin(nodes[1..], u, v)
  {
    assert nodes == [nodes[0]] + nodes[1..];
  }

  lemma {:induction false} BetweenForksOf(nodes: seq<Node>, u: string, v: string, seen: set<string>)
    ensures Between(ForksOf(nodes, v, seen), u, v) ==
            if u !in seen && DeclaresFork(nodes, u, v) then [Implied(u, v)] else []
  {
    if nodes != [] {
      var n := nodes[0];
      ForkCons(nodes, u, v);
      if ForksTo(n, v) && n.id !in seen {
        BetweenForksOf(nodes[1..], u, v, seen + {n.id});
        BetweenConcat([Implied(n.id, v)], ForksOf(nodes[1..], v, seen + {n.id}), u, v);
      } else {
        BetweenForksOf(nodes[1..], u, v, seen);
      }
    }
  }

  /** With unique IDs, the first declaration is the only one. */
  lemma OnlyDeclaration(w: Workflow, n: Node)
    requires UniqueIds(w.nodes) && n in w.nodes
    ensures FindNode(w.nodes, n.id) == Some(n)
  {
    var i :| 0 <= i < |w.nodes| && w.nodes[i] == n;
    FindNodeUnique(w.nodes, i);
  }

  lemma TargetsOfDeclared(w: Workflow, u: string, v: string)
    requires UniqueIds(w.nodes)
    ensures v in TargetsOf(w, u) <==> exists n :: n in w.nodes && n.id == u && ForksTo(n, v)
    ensures u in SourcesOf(w, v) <==> exists n :: n in w.nodes && n.id == v && JoinsFrom(n, u)
  {
    forall n | n in w.nodes ensures FindNode(w.nodes, n.id) == Some(n) { OnlyDeclaration(w, n); }
  }

  lemma SettledBetween(w: Workflow, u: string, v: string)
    ensures v in Settled(ExplicitFrom(w.edges, u)) <==> v in Settled(Between(w.edges, u, v))
    ensures u in SettledSources(ExplicitTo(w.edges, v)) <==> v in Settled(Between(w.edges, u, v))
  {
    BetweenExplicit(w.edges, u, v);
    BetweenMembers(ExplicitFrom(w.edges, u), u, v);
    BetweenMembers(ExplicitTo(w.edges, v), u, v);
  }

  /** Three consecutive stretches of a lookup, restricted to the edges from u to v. */
  lemma BetweenThree(a: seq<Edge>, b: seq<Edge>, c: seq<Edge>, u: string, v: string)
    ensures Between(a + b + c, u, v) == Between(a, u, v) + Between(b, u, v) + Between(c, u, v)
  {
    BetweenConcat(a + b, c, u, v);
    BetweenConcat(a, b, u, v);
  }

  /** Looking forwards sees the first declaration of u and every declaration of v. */
  ghost predicate ImpliedForwards(w: Workflow, u: string, v: string) {
    v in TargetsOf(w, u) || DeclaresJoin(w.nodes, u, v)
  }

  /** Looking backwards sees every declaration of u and the first declaration of v. */
  ghost predicate ImpliedBackwards(w: Workflow, u: string, v: string) {
    DeclaresFork(w.nodes, u, v) || u in SourcesOf(w, v)
  }

  /** The explicit edges from u to v, and one implied edge if the explicit ones leave room for it. */
  ghost function LinksIf(w: Workflow, u: string, v: string, implied: bool): seq<Edge> {
    Between(w.edges, u, v) + if implied && v !in Settled(Between(w.edges, u, v)) then [Implied(u, v)] else []
  }

  lemma EdgesFromBetween(w: Workflow, u: string, v: string)
    ensures Between(EdgesFrom(w, u), u, v) == LinksIf(w, u, v, ImpliedForwards(w, u, v))
  {
    var targets := TargetsOf(w, u);
    var seen := Settled(ExplicitFrom(w.edges, u));
    BetweenThree(ExplicitFrom(w.edges, u), FanOut(u, targets, seen), JoinsOf(w.nodes, u, seen + Elements(targets)), u, v);
    BetweenExplicit(w.edges, u, v);
    BetweenFanOut(u, v, targets, seen);
    BetweenJoinsOf(w.nodes, u, v, seen + Elements(targets));
    SettledBetween(w, u, v);
  }

  lemma SourceOccurs(edges: seq<Edge>, u: string, v: string)
    requires forall e :: e in edges ==> e.to == v
    ensures u in Sources(edges) <==> Between(edges, u, v) != []
  {
    BetweenMembers(edges, u, v);
    if Between(edges, u, v) != [] {
      assert Between(edges, u, v)[0] in edges;
    }
  }

  /** Whatever precedes them, the implied parallel and fan-in edges into v contribute one edge
      from u exactly when something implies it and u is not covered yet. */
  lemma ImpliedInto(w: Workflow, u: string, v: string, seen: set<string>)
    ensures var forks := ForksOf(w.nodes, v, seen);
            Between(forks, u, v) + Between(JoinIn(v, SourcesOf(w, v), seen + Sources(forks)), u, v) ==
            if u !in seen && ImpliedBackwards(w, u, v) then [Implied(u, v)] else []
  {
    var forks := ForksOf(w.nodes, v, seen);
    BetweenForksOf(w.nodes, u, v, seen);
    BetweenJoinIn(u, v, SourcesOf(w, v), seen + Sources(forks));
    SourceOccurs(forks, u, v);
  }

  lemma EdgesToBetween(w: Workflow, u: string, v: string)
    ensures Between(EdgesTo(w, v), u, v) == LinksIf(w, u, v, ImpliedBackwards(w, u, v))
  {
    var seen := SettledSources(ExplicitTo(w.edges, v));
    var forks := ForksOf(w.nodes, v, seen);
    var joins := JoinIn(v, SourcesOf(w, v), seen + Sources(forks));
    BetweenThree(ExplicitTo(w.edges, v), forks, joins, u, v);
    BetweenExplicit(w.edges, u, v);
    ImpliedInto(w, u, v, seen);
    SettledBetween(w, u, v);
    Assoc(Between(w.edges, u, v), Between(forks, u, v), Between(joins, u, v));
  }

  /** For any workflow, repeated IDs included: the two directions give the same edges from u to v
      exactly when an explicit edge settles the matter or both of them imply an edge, or neither. */
  lemma LookupsAgreeExactly(w: Workflow, u: string, v: string)
    ensures Between(EdgesFrom(w, u), u, v) == Between(EdgesTo(w, v), u, v)
       <==> v in Settled(Between(w.edges, u, v)) || (ImpliedForwards(w, u, v) <==> ImpliedBackwards(w, u, v))
  {
    EdgesFromBetween(w, u, v);
    EdgesToBetween(w, u, v);
    var explicit := Between(w.edges, u, v);
    assert |explicit + [Implied(u, v)]| == |explicit| + 1;
  }

  /** With unique IDs the first declaration is the only one, so both directions see the same. */
  lemma UniqueIdsImplyAlike(w: Workflow, u: string, v: string)
    requires UniqueIds(w.nodes)
    ensures ImpliedForwards(w, u, v) <==> ImpliesEdge(w, u, v)
    ensures ImpliedBackwards(w, u, v) <==> ImpliesEdge(w, u, v)
  {
    TargetsOfDeclared(w, u, v);
  }

  lemma EdgesFromLinks(w: Workflow, u: string, v: string)
    requires UniqueIds(w.nodes)
    ensures Between(EdgesFrom(w, u), u, v) == Links(w, u, v)
  {
    EdgesFromBetween(w, u, v);
    UniqueIdsImplyAlike(w, u, v);
  }

  lemma EdgesToLinks(w: Workflow, u: string, v: string)
    requires UniqueIds(w.nodes)
    ensures Between(EdgesTo(w, v), u, v) == Links(w, u, v)
  {
    EdgesFromLinks(w, u, v);
    UniqueIdsImplyAlike(w, u, v);
    LookupsAgreeExactly(w, u, v);
  }

  /** The two directions agree: for unique IDs, looking forwards from u and backwards from v
      gives the same edges from u to v in the same order. */
  lemma LookupsAgree(w: Workflow, u: string, v: string)
    requires UniqueIds(w.nodes)
    ensures Between(EdgesFrom(w, u), u, v) == Between(EdgesTo(w, v), u, v) == Links(w, u, v)
  {
    EdgesFromLinks(w, u, v);
    UniqueIdsImplyAlike(w, u, v);
    LookupsAgreeExactly(w, u, v);
  }

  /** A disagreement: a second declaration of a parallel node is visible backwards only. */
  lemma LookupsDisagreeOnDuplicates(p: Node, q: Node, target: string)
    requires p.id == q.id && target != p.id && !p.config.Parallel? && ForksTo(q, target)
    ensures var w := Workflow("", "", p.id, target, [p, q], []);
            Between(EdgesFrom(w, p.id), p.id, target) != Between(EdgesTo(w, target), p.id, target)
  {
    var w := Workflow("", "", p.id, target, [p, q], []);
    assert Between(w.edges, p.id, target) == [];
    assert FindNode(w.nodes, p.id) == Some(p);
    assert w.nodes[1] == q && q in w.nodes;
    assert DeclaresFork(w.nodes, p.id, target);
    LookupsAgreeExactly(w, p.id, target);
  }

  // ----- the lookup repeats no edge

  lemma {:induction false} ExplicitFromDistinct(edges: seq<Edge>, id: string)
    requires NoDup(edges)
    ensures NoDup(ExplicitFrom(edges, id)) && forall e :: e in ExplicitFrom(edges, id) ==> e in edges
  {
    if edges != [] {
      assert forall i :: 0 <= i < |edges[1..]| ==> edges[1..][i] == edges[i + 1];
      ExplicitFromDistinct(edges[1..], id);
      assert edges[0] !in edges[1..];
    }
  }

  lemma {:induction false} FanOutDistinct(id: string, targets: seq<string>, seen: set<string>)
    ensures NoDup(FanOut(id, targets, seen))
    ensures forall e :: e in FanOut(id, targets, seen) ==> e.to !in seen && e.to in targets && e == Implied(id, e.to)
  {
    if targets != [] {
      FanOutDistinct(id, targets[1..], if targets[0] in seen then seen else seen + {targets[0]});
    }
  }

  lemma {:induction false} JoinsOfDistinct(nodes: seq<Node>, id: string, seen: set<string>)
    ensures NoDup(JoinsOf(nodes, id, seen))
    ensures forall e :: e in JoinsOf(nodes, id, seen) ==> e.to !in seen && e == Implied(id, e.to)
  {
    if nodes != [] {
      JoinsOfDistinct(nodes[1..], id,
                      if JoinsFrom(nodes[0], id) && nodes[0].id !in seen then seen + {nodes[0].id} else seen);
    }
  }

  /** Implied edges never repeat an explicit edge or one another. */
  lemma EdgesFromDistinct(w: Workflow, id: string)
    requires NoDup(w.edges)
    ensures NoDup(EdgesFrom(w, id))
  {
    var explicit := ExplicitFrom(w.edges, id);
    var targets := TargetsOf(w, id);
    var seen := Settled(explicit);
    ExplicitFromDistinct(w.edges, id);
    FanOutDistinct(id, targets, seen);
    JoinsOfDistinct(w.nodes, id, seen + Elements(targets));
    NoDupJoin(explicit, FanOut(id, targets, seen));
    NoDupJoin(explicit + FanOut(id, targets, seen), JoinsOf(w.nodes, id, seen + Elements(targets)));
  }
}
