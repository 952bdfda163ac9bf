/** What inlining preserves. The walks of a workflow and the walks of its flattened form
    correspond to each other: seen through the node that each flattened node came from, a
    flattened walk is a walk of the parent in which inlined nodes take several steps. */
module FlattenMeaning {
  import opened IR
  import opened Flatten

  // ----- walks along explicit edges

  ghost predicate Linked(edges: seq<Edge>, u: string, v: string) {
    exists e :: e in edges && e.from == u && e.to == v
  }

  ghost predicate EdgeWalk(edges: seq<Edge>, p: seq<string>) {
    |p| > 0 && forall i :: 0 <= i < |p| - 1 ==> Linked(edges, p[i], p[i + 1])
  }

  ghost predicate EdgeWalkBetween(edges: seq<Edge>, p: seq<string>, u: string, v: string) {
    EdgeWalk(edges, p) && p[0] == u && p[|p| - 1] == v
  }

  ghost predicate Reach(edges: seq<Edge>, u: string, v: string) {
    exists p :: EdgeWalkBetween(edges, p, u, v)
  }

  lemma EdgeWalkTail(edges: seq<Edge>, p: seq<string>)
    requires EdgeWalk(edges, p) && |p| > 1
    ensures EdgeWalk(edges, p[1..]) && Linked(edges, p[0], p[1])
  {
    assert forall i :: 0 <= i < |p| - 1 ==> p[1..][i] == p[i + 1];
  }

  lemma EdgeWalkJoin(edges: seq<Edge>, p: seq<string>, q: seq<string>)
    requires EdgeWalk(edges, p) && EdgeWalk(edges, q) && Linked(edges, p[|p| - 1], q[0])
    ensures EdgeWalk(edges, p + q)
  {
    forall i | 0 <= i < |p + q| - 1 ensures Linked(edges, (p + q)[i], (p + q)[i + 1]) {
      if i >= |p| {
        assert (p + q)[i] == q[i - |p|] && (p + q)[i + 1] == q[i - |p| + 1];
      }
    }
  }

  /** Prefixing every ID carries a walk along. */
  function PrefixAll(prefix: string, p: seq<string>): seq<string> {
    seq(|p|, i requires 0 <= i < |p| => prefix + p[i])
  }

  lemma PrefixLinked(prefix: string, edges: seq<Edge>, more: seq<Edge>, u: string, v: string)
    requires Linked(edges, u, v) && forall e :: e in PrefixEdges(prefix, edges) ==> e in more
    ensures Linked(more, prefix + u, prefix + v)
  {
    var e :| e in edges && e.from == u && e.to == v;
    var i :| 0 <= i < |edges| && edges[i] == e;
    assert PrefixEdges(prefix, edges)[i] in more;
  }

  lemma PrefixWalk(prefix: string, edges: seq<Edge>, more: seq<Edge>, p: seq<string>)
    requires EdgeWalk(edges, p) && forall e :: e in PrefixEdges(prefix, edges) ==> e in more
    ensures EdgeWalk(more, PrefixAll(prefix, p))
  {
    forall i | 0 <= i < |p| - 1 ensures Linked(more, prefix + p[i], prefix + p[i + 1]) {
      PrefixLinked(prefix, edges, more, p[i], p[i + 1]);
    }
  }

  // ----- where the parts of a flattened workflow come from

  ghost predicate Inlines(nodes: seq<Node>, c: Context) {
    c.depth < c.maxDepth && Inlined(nodes, c).Done?
  }

  /** A reference node whose referenced workflow was flattened successfully. */
  ghost predicate Spliced(nodes: seq<Node>, c: Context, n: Node) {
    c.depth < c.maxDepth && n in nodes && HasRef(n) && FlatChild(n, c).Done?
  }

  lemma {:induction false} EveryRefSpliced(nodes: seq<Node>, c: Context, n: Node)
    requires Inlines(nodes, c) && n in nodes && HasRef(n)
    ensures Spliced(nodes, c, n)
    ensures n.id in Inlined(nodes, c).value.rewires
    ensures forall e :: e in PrefixEdges(Prefix(n.id), FlatChild(n, c).value.edges) ==> e in Inlined(nodes, c).value.edges
    ensures forall m :: m in PrefixNodes(Prefix(n.id), FlatChild(n, c).value.nodes) ==> m in Inlined(nodes, c).value.nodes
    decreases |nodes|
  {
    var front, last := nodes[..|nodes| - 1], nodes[|nodes| - 1];
    assert nodes == front + [last];
    if n in front {
      EveryRefSpliced(front, c, n);
    } else {
      assert n == last && InlineNode(Inlined(front, c).value, last, c).Done?;
    }
  }

  lemma {:induction false} PlainKept(nodes: seq<Node>, c: Context, n: Node)
    requires Inlines(nodes, c) && n in nodes && !HasRef(n)
    ensures n in Inlined(nodes, c).value.nodes
    decreases |nodes|
  {
    var front, last := nodes[..|nodes| - 1], nodes[|nodes| - 1];
    assert nodes == front + [last];
    if n in front {
      PlainKept(front, c, n);
    }
  }

  lemma {:induction false} RewireOrigin(nodes: seq<Node>, c: Context, id: string) returns (n: Node)
    requires Inlines(nodes, c) && id in Inlined(nodes, c).value.rewires
    ensures Spliced(nodes, c, n) && n.id == id
    ensures Inlined(nodes, c).value.rewires[id] ==
            Rewire(Prefix(id) + FlatChild(n, c).value.start, Prefix(id) + FlatChild(n, c).value.exit)
    decreases |nodes|
  {
    var front, last := nodes[..|nodes| - 1], nodes[|nodes| - 1];
    assert nodes == front + [last];
    if HasRef(last) && last.id == id {
      n := last;
    } else {
      n := RewireOrigin(front, c, id);
    }
  }

  lemma {:induction false} EdgeOrigin(nodes: seq<Node>, c: Context, e: Edge) returns (n: Node, e0: Edge)
    requires Inlines(nodes, c) && e in Inlined(nodes, c).value.edges
    ensures Spliced(nodes, c, n) && e0 in FlatChild(n, c).value.edges
    ensures e.from == Prefix(n.id) + e0.from && e.to == Prefix(n.id) + e0.to
    decreases |nodes|
  {
    var front, last := nodes[..|nodes| - 1], nodes[|nodes| - 1];
    assert nodes == front + [last];
    if e in Inlined(front, c).value.edges {
      n, e0 := EdgeOrigin(front, c, e);
    } else {
      n := last;
      var es := FlatChild(n, c).value.edges;
      var i :| 0 <= i < |es| && PrefixEdges(Prefix(n.id), es)[i] == e;
      e0 := es[i];
    }
  }

  /** A node of the result is a node of the parent without a reference, or a node of a
      flattened child under the prefix of the node that referred to it. */
  ghost predicate FromPlain(nodes: seq<Node>, m: Node) {
    m in nodes && !HasRef(m)
  }

  ghost predicate FromChild(nodes: seq<Node>, c: Context, m: Node, n: Node, m0: Node) {
    Spliced(nodes, c, n) && m0 in FlatChild(n, c).value.nodes && m == m0.(id := Prefix(n.id) + m0.id)
  }

  lemma {:induction false} NodeOrigin(nodes: seq<Node>, c: Context, m: Node) returns (n: Node, m0: Node)
    requires Inlines(nodes, c) && m in Inlined(nodes, c).value.nodes
    ensures FromPlain(nodes, m) || FromChild(nodes, c, m, n, m0)
    decreases |nodes|
  {
    var front, last := nodes[..|nodes| - 1], nodes[|nodes| - 1];
    assert nodes == front + [last];
    n, m0 := m, m;
    if m in Inlined(front, c).value.nodes {
      n, m0 := NodeOrigin(front, c, m);
    } else if HasRef(last) {
      n := last;
      var ms := FlatChild(n, c).value.nodes;
      var i :| 0 <= i < |ms| && PrefixNodes(Prefix(n.id), ms)[i] == m;
      m0 := ms[i];
    }
  }

  // ----- demands on every workflow that gets inlined

  function Names(w: Workflow): set<string> {
    NodeIds(w.nodes) + (set e | e in w.edges :: e.from) + (set e | e in w.edges :: e.to) + {w.start, w.exit}
  }

  /** No name of the workflow begins with the prefix that one of its reference nodes gives out.
      Names without an underscore satisfy this. */
  ghost predicate PrefixFree(w: Workflow) {
    forall n, x :: n in w.nodes && HasRef(n) && x in Names(w) ==> !(Prefix(n.id) <= x)
  }

  /** The same for node IDs only. */
  ghost predicate IdsPrefixFree(nodes: seq<Node>) {
    forall n, m :: n in nodes && HasRef(n) && m in nodes ==> !(Prefix(n.id) <= m.id)
  }

  /** Start, exit and every edge endpoint are declared. */
  ghost predicate Closed(w: Workflow) {
    Names(w) <= NodeIds(w.nodes)
  }

  datatype Demand = BeConnected | BeClosed | BeUnambiguous

  ghost predicate Meets(d: Demand, w: Workflow) {
    match d
    case BeConnected => Reach(w.edges, w.start, w.exit)
    case BeClosed => Closed(w)
    case BeUnambiguous => UniqueIds(w.nodes) && IdsPrefixFree(w.nodes)
  }

  /** The demand holds for every workflow that is loaded, at any depth, to flatten w. */
  ghost predicate ChildrenMeet(d: Demand, w: Workflow, c: Context)
    decreases c.maxDepth - c.depth
  {
    c.depth < c.maxDepth ==>
      forall n :: n in w.nodes && HasRef(n) && c.resolve(n.config.ref, n.file).Some? ==>
        var child := c.resolve(n.config.ref, n.file).value;
        Meets(d, child) && ChildrenMeet(d, child, c.Inside(n.config.ref))
  }

  /** The workflow that a spliced node refers to, before flattening. */
  ghost function Loaded(c: Context, n: Node): Workflow
    requires HasRef(n) && c.resolve(n.config.ref, n.file).Some?
  {
    c.resolve(n.config.ref, n.file).value
  }

  lemma SplicedChild(d: Demand, w: Workflow, c: Context, n: Node)
    requires Spliced(w.nodes, c, n) && ChildrenMeet(d, w, c)
    ensures c.resolve(n.config.ref, n.file).Some?
    ensures Meets(d, Loaded(c, n)) && ChildrenMeet(d, Loaded(c, n), c.Inside(n.config.ref))
    ensures Flat(Loaded(c, n), c.Inside(n.config.ref)) == FlatChild(n, c)
  {
  }

  // ----- no references remain

  lemma {:induction false} NoRefsRemain(w: Workflow, c: Context)
    requires Flat(w, c).Done?
    ensures !HasSubgraphRefs(Flat(w, c).value.nodes)
    decreases c.maxDepth - c.depth
  {
    var acc := Inlined(w.nodes, c).value;
    forall m | m in acc.nodes ensures !HasRef(m) {
      var n, m0 := NodeOrigin(w.nodes, c, m);
      if !FromPlain(w.nodes, m) {
        NoRefsRemain(c.resolve(n.config.ref, n.file).value, c.Inside(n.config.ref));
      }
    }
  }

  /** A successful run of the tool leaves no reference node behind. */
  lemma FlattenedHasNoRefs(w: Workflow, resolve: Option<Resolver>, maxDepth: int)
    requires FlattenSpec(w, resolve, maxDepth).Done?
    ensures !HasSubgraphRefs(FlattenSpec(w, resolve, maxDepth).value.nodes)
  {
    if HasSubgraphRefs(w.nodes) {
      NoRefsRemain(w, Context(resolve.value, if maxDepth == 0 then DEFAULT_MAX_DEPTH else maxDepth, 0, []));
    }
  }

  // ----- declared endpoints stay declared

  lemma EndpointDeclared(w: Workflow, c: Context, id: string)
    requires Flat(w, c).Done? && ChildrenMeet(BeClosed, w, c) && id in NodeIds(w.nodes)
    ensures Entry(Inlined(w.nodes, c).value.rewires, id) in NodeIds(Flat(w, c).value.nodes)
    ensures Leave(Inlined(w.nodes, c).value.rewires, id) in NodeIds(Flat(w, c).value.nodes)
    decreases c.maxDepth - c.depth, 0
  {
    var acc := Inlined(w.nodes, c).value;
    if id in acc.rewires {
      var n := RewireOrigin(w.nodes, c, id);
      SplicedChild(BeClosed, w, c, n);
      StaysClosed(Loaded(c, n), c.Inside(n.config.ref));
      var child := FlatChild(n, c).value;
      PrefixedDeclared(w, c, n, child.start);
      PrefixedDeclared(w, c, n, child.exit);
    } else {
      var n :| n in w.nodes && n.id == id;
      if HasRef(n) {
        EveryRefSpliced(w.nodes, c, n);
      } else {
        PlainKept(w.nodes, c, n);
      }
    }
  }

  lemma PrefixedDeclared(w: Workflow, c: Context, n: Node, id: string)
    requires Flat(w, c).Done? && Spliced(w.nodes, c, n) && id in NodeIds(FlatChild(n, c).value.nodes)
    ensures Prefix(n.id) + id in NodeIds(Flat(w, c).value.nodes)
  {
    EveryRefSpliced(w.nodes, c, n);
    var child := FlatChild(n, c).value;
    var i :| 0 <= i < |child.nodes| && child.nodes[i].id == id;
    assert PrefixNodes(Prefix(n.id), child.nodes)[i] in Inlined(w.nodes, c).value.nodes;
  }

  /** Flattening keeps a workflow closed when everything it inlines is closed. */
  lemma {:induction false} StaysClosed(w: Workflow, c: Context)
    requires Flat(w, c).Done? && Closed(w) && ChildrenMeet(BeClosed, w, c)
    ensures Closed(Flat(w, c).value)
    decreases c.maxDepth - c.depth, 1
  {
    var acc, out := Inlined(w.nodes, c).value, Flat(w, c).value;
    EndpointDeclared(w, c, w.start);
    EndpointDeclared(w, c, w.exit);
    forall e | e in out.edges ensures e.from in NodeIds(out.nodes) && e.to in NodeIds(out.nodes) {
      if e in acc.edges {
        var n, e0 := EdgeOrigin(w.nodes, c, e);
        SplicedChild(BeClosed, w, c, n);
        StaysClosed(Loaded(c, n), c.Inside(n.config.ref));
        PrefixedDeclared(w, c, n, e0.from);
        PrefixedDeclared(w, c, n, e0.to);
      } else {
        var i :| 0 <= i < |w.edges| && RewireEdges(acc.rewires, w.edges)[i] == e;
        EndpointDeclared(w, c, w.edges[i].from);
        EndpointDeclared(w, c, w.edges[i].to);
      }
    }
  }

  // ----- which parent node a flattened node belongs to

  /** The reference node whose prefix a flattened ID carries, or the ID itself. */
  ghost function Owner(w: Workflow, x: string): string {
    if exists n :: n in w.nodes && HasRef(n) && Prefix(n.id) <= x then
      var n :| n in w.nodes && HasRef(n) && Prefix(n.id) <= x; n.id
    else x
  }

  ghost function Owners(w: Workflow, q: seq<string>): seq<string> {
    if q == [] then [] else [Owner(w, q[0])] + Owners(w, q[1..])
  }

  lemma OwnerOfName(w: Workflow, x: string)
    requires PrefixFree(w) && x in Names(w)
    ensures Owner(w, x) == x
  {
  }

  lemma OwnerOfPrefixed(w: Workflow, n: Node, x: string)
    requires PrefixFree(w) && n in w.nodes && HasRef(n)
    ensures Owner(w, Prefix(n.id) + x) == n.id
  {
    var y := Prefix(n.id) + x;
    assert Prefix(n.id) <= y;
    forall m | m in w.nodes && HasRef(m) && Prefix(m.id) <= y ensures m.id == n.id {
      assert m.id in Names(w) && n.id in Names(w);
      PrefixesApart(n.id, m.id, y);
    }
  }

  /** Two prefixes of one text: one of the IDs begins with the other prefix, or they are equal. */
  lemma PrefixesApart(a: string, b: string, y: string)
    requires Prefix(a) <= y && Prefix(b) <= y
    ensures a == b || Prefix(a) <= b || Prefix(b) <= a
  {
    assert a == y[..|a|] && b == y[..|b|];
    if |a| < |b| {
      assert Prefix(a) == y[..|a| + 1] == b[..|a| + 1];
    } else if |b| < |a| {
      assert Prefix(b) == y[..|b| + 1] == a[..|b| + 1];
    }
  }

  lemma OwnerOfRewired(w: Workflow, c: Context, id: string)
    requires Flat(w, c).Done? && PrefixFree(w) && id in Names(w)
    ensures Owner(w, Entry(Inlined(w.nodes, c).value.rewires, id)) == id
    ensures Owner(w, Leave(Inlined(w.nodes, c).value.rewires, id)) == id
  {
    if id in Inlined(w.nodes, c).value.rewires {
      var n := RewireOrigin(w.nodes, c, id);
      OwnerOfPrefixed(w, n, FlatChild(n, c).value.start);
      OwnerOfPrefixed(w, n, FlatChild(n, c).value.exit);
    } else {
      OwnerOfName(w, id);
    }
  }

  // ----- a flattened walk stays at each parent node for one or more steps

  /** s repeats each element of p one or more times, in order. */
  ghost predicate Stutters(s: seq<string>, p: seq<string>)
    decreases |s|
  {
    if s == [] || p == [] then s == [] && p == []
    else s[0] == p[0] && (Stutters(s[1..], p[1..]) || Stutters(s[1..], p))
  }

  lemma {:induction false} StuttersBlock(x: string, s: seq<string>, p: seq<string>)
    requires s != [] && (forall i :: 0 <= i < |s| ==> s[i] == x)
    ensures forall t :: Stutters(t, p) ==> Stutters(s + t, [x] + p)
  {
    forall t | Stutters(t, p) ensures Stutters(s + t, [x] + p) {
      assert (s + t)[1..] == s[1..] + t;
      assert ([x] + p)[1..] == p;
      if |s| == 1 {
        assert s[1..] + t == t;
      } else {
        StuttersBlock(x, s[1..], p);
      }
    }
  }

  lemma {:induction false} OwnersConcat(w: Workflow, a: seq<string>, b: seq<string>)
    ensures Owners(w, a + b) == Owners(w, a) + Owners(w, b)
  {
    if a == [] {
      assert a + b == b;
    } else {
      assert (a + b)[1..] == a[1..] + b;
      OwnersConcat(w, a[1..], b);
    }
  }

  lemma {:induction false} OwnersOfPrefixed(w: Workflow, n: Node, p: seq<string>)
    requires PrefixFree(w) && n in w.nodes && HasRef(n)
    ensures |Owners(w, PrefixAll(Prefix(n.id), p))| == |p|
    ensures forall i :: 0 <= i < |p| ==> Owners(w, PrefixAll(Prefix(n.id), p))[i] == n.id
  {
    if p != [] {
      OwnerOfPrefixed(w, n, p[0]);
      assert PrefixAll(Prefix(n.id), p)[1..] == PrefixAll(Prefix(n.id), p[1..]);
      OwnersOfPrefixed(w, n, p[1..]);
    }
  }

  // ----- lifting

  /** Inside the flattened workflow, every parent node can be crossed from its entry to the
      place where its outgoing edges leave. */
  lemma Cross(w: Workflow, c: Context, id: string) returns (q: seq<string>)
    requires Flat(w, c).Done? && ChildrenMeet(BeConnected, w, c)
    ensures var rewires := Inlined(w.nodes, c).value.rewires;
            EdgeWalkBetween(Flat(w, c).value.edges, q, Entry(rewires, id), Leave(rewires, id))
    ensures PrefixFree(w) && id in Names(w) ==> forall i :: 0 <= i < |Owners(w, q)| ==> Owners(w, q)[i] == id
    ensures |Owners(w, q)| == |q|
    decreases c.maxDepth - c.depth, 0
  {
    var acc := Inlined(w.nodes, c).value;
    if id in acc.rewires {
      var n := RewireOrigin(w.nodes, c, id);
      SplicedChild(BeConnected, w, c, n);
      var p :| EdgeWalkBetween(Loaded(c, n).edges, p, Loaded(c, n).start, Loaded(c, n).exit);
      var r := LiftAny(Loaded(c, n), c.Inside(n.config.ref), p);
      q := PrefixAll(Prefix(n.id), r);
      EveryRefSpliced(w.nodes, c, n);
      var child := FlatChild(n, c).value;
      forall e | e in PrefixEdges(Prefix(n.id), child.edges) ensures e in Flat(w, c).value.edges {}
      PrefixWalk(Prefix(n.id), child.edges, Flat(w, c).value.edges, r);
      OwnersLength(w, q);
      if PrefixFree(w) {
        OwnersOfPrefixed(w, n, r);
      }
    } else {
      q := [id];
      OwnersLength(w, q);
      if PrefixFree(w) && id in Names(w) {
        OwnerOfName(w, id);
      }
    }
  }

  lemma {:induction false} OwnersLength(w: Workflow, q: seq<string>)
    ensures |Owners(w, q)| == |q|
  {
    if q != [] { OwnersLength(w, q[1..]); }
  }

  lemma RewiredLink(w: Workflow, c: Context, u: string, v: string)
    requires Flat(w, c).Done? && Linked(w.edges, u, v)
    ensures var rewires := Inlined(w.nodes, c).value.rewires;
            Linked(Flat(w, c).value.edges, Leave(rewires, u), Entry(rewires, v))
  {
    var e :| e in w.edges && e.from == u && e.to == v;
    var i :| 0 <= i < |w.edges| && w.edges[i] == e;
    var rewires := Inlined(w.nodes, c).value.rewires;
    assert RewireEdges(rewires, w.edges)[i] in Flat(w, c).value.edges;
  }

  /** Every walk of the parent lifts to a walk of the flattened workflow, from the entry of its
      first node to where its last node is left; with prefix-free names it visits the same
      parent nodes in the same order. */
  lemma {:induction false} LiftAny(w: Workflow, c: Context, p: seq<string>) returns (q: seq<string>)
    requires Flat(w, c).Done? && ChildrenMeet(BeConnected, w, c) && EdgeWalk(w.edges, p)
    ensures var rewires := Inlined(w.nodes, c).value.rewires;
            EdgeWalkBetween(Flat(w, c).value.edges, q, Entry(rewires, p[0]), Leave(rewires, p[|p| - 1]))
    ensures PrefixFree(w) && (forall i :: 0 <= i < |p| ==> p[i] in Names(w)) ==> Stutters(Owners(w, q), p)
    decreases c.maxDepth - c.depth, 1, |p|
  {
    var out := Flat(w, c).value;
    var first := Cross(w, c, p[0]);
    if |p| == 1 {
      q := first;
      if PrefixFree(w) && p[0] in Names(w) {
        StuttersBlock(p[0], Owners(w, first), []);
        assert Owners(w, first) + [] == Owners(w, first) && [p[0]] + [] == p;
        assert Stutters([], []);
      }
    } else {
      EdgeWalkTail(w.edges, p);
      var rest := LiftAny(w, c, p[1..]);
      RewiredLink(w, c, p[0], p[1]);
      EdgeWalkJoin(out.edges, first, rest);
      q := first + rest;
      if PrefixFree(w) && forall i :: 0 <= i < |p| ==> p[i] in Names(w) {
        StuttersBlock(p[0], Owners(w, first), p[1..]);
        OwnersConcat(w, first, rest);
        assert [p[0]] + p[1..] == p;
      }
    }
  }

  // ----- projecting

  /** An edge of the flattened workflow stays within one parent node or follows a parent edge. */
  lemma LinkProjects(w: Workflow, c: Context, x: string, y: string)
    requires Flat(w, c).Done? && PrefixFree(w) && Linked(Flat(w, c).value.edges, x, y)
    ensures Owner(w, x) == Owner(w, y) || Linked(w.edges, Owner(w, x), Owner(w, y))
  {
    var acc, out := Inlined(w.nodes, c).value, Flat(w, c).value;
    var e :| e in out.edges && e.from == x && e.to == y;
    if e in acc.edges {
      var n, e0 := EdgeOrigin(w.nodes, c, e);
      OwnerOfPrefixed(w, n, e0.from);
      OwnerOfPrefixed(w, n, e0.to);
    } else {
      var i :| 0 <= i < |w.edges| && RewireEdges(acc.rewires, w.edges)[i] == e;
      OwnerOfRewired(w, c, w.edges[i].from);
      OwnerOfRewired(w, c, w.edges[i].to);
      assert w.edges[i] in w.edges;
    }
  }

  /** Every walk of the flattened workflow projects to a walk of the parent. */
  lemma {:induction false} ProjectWalk(w: Workflow, c: Context, q: seq<string>) returns (p: seq<string>)
    requires Flat(w, c).Done? && PrefixFree(w) && EdgeWalk(Flat(w, c).value.edges, q)
    ensures EdgeWalkBetween(w.edges, p, Owner(w, q[0]), Owner(w, q[|q| - 1]))
    ensures Stutters(Owners(w, q), p)
    decreases |q|
  {
    if |q| == 1 {
      p := [Owner(w, q[0])];
      assert Owners(w, q) == p && Stutters([], []);
    } else {
      EdgeWalkTail(Flat(w, c).value.edges, q);
      var rest := ProjectWalk(w, c, q[1..]);
      LinkProjects(w, c, q[0], q[1]);
      assert Owners(w, q)[1..] == Owners(w, q[1..]);
      if Linked(w.edges, Owner(w, q[0]), Owner(w, q[1])) {
        p := [Owner(w, q[0])] + rest;
        EdgeWalkJoin(w.edges, [Owner(w, q[0])], rest);
        assert p[1..] == rest;
      } else {
        p := rest;
      }
    }
  }

  /** Reachability is the same before and after: the flattened workflow leads from the entry of
      u to the place where v is left exactly when the parent leads from u to v. */
  lemma ReachabilityPreserved(w: Workflow, c: Context, u: string, v: string)
    requires Flat(w, c).Done? && PrefixFree(w) && ChildrenMeet(BeConnected, w, c)
    requires u in Names(w) && v in Names(w)
    ensures var rewires := Inlined(w.nodes, c).value.rewires;
            Reach(w.edges, u, v) <==> Reach(Flat(w, c).value.edges, Entry(rewires, u), Leave(rewires, v))
  {
    var rewires := Inlined(w.nodes, c).value.rewires;
    if Reach(w.edges, u, v) {
      var p :| EdgeWalkBetween(w.edges, p, u, v);
      var q := LiftAny(w, c, p);
    }
    if Reach(Flat(w, c).value.edges, Entry(rewires, u), Leave(rewires, v)) {
      var q :| EdgeWalkBetween(Flat(w, c).value.edges, q, Entry(rewires, u), Leave(rewires, v));
      var p := ProjectWalk(w, c, q);
      OwnerOfRewired(w, c, u);
      OwnerOfRewired(w, c, v);
    }
  }

  /** In particular the exit stays reachable from the start. */
  lemma StartToExitPreserved(w: Workflow, c: Context)
    requires Flat(w, c).Done? && PrefixFree(w) && ChildrenMeet(BeConnected, w, c)
    ensures Reach(w.edges, w.start, w.exit) <==> Reach(Flat(w, c).value.edges, Flat(w, c).value.start, Flat(w, c).value.exit)
  {
    ReachabilityPreserved(w, c, w.start, w.exit);
  }

  /** Names without an underscore are prefix-free. */
  lemma NoUnderscoreSuffices(w: Workflow)
    requires forall x, i :: x in Names(w) && 0 <= i < |x| ==> x[i] != '_'
    ensures PrefixFree(w)
  {
    forall n, x | n in w.nodes && HasRef(n) && x in Names(w) ensures !(Prefix(n.id) <= x) {
      assert Prefix(n.id)[|n.id|] == '_';
      assert |n.id| < |x| ==> x[|n.id|] != '_';
    }
  }
}
