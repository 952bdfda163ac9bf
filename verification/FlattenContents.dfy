/** What a flattened workflow contains, node by node and edge by edge, in order. */
module FlattenContents {
  import opened IR
  import opened Sequences
  import opened Flatten
  import opened FlattenMeaning

  // ----- the nodes

  /** The flattened workflow that stands in for a reference node. */
  ghost function ChildOf(n: Node, c: Context): Workflow
    requires c.depth < c.maxDepth && HasRef(n) && FlatChild(n, c).Done?
  {
    FlatChild(n, c).value
  }

  ghost predicate AllLoaded(nodes: seq<Node>, c: Context) {
    c.depth < c.maxDepth && forall n :: n in nodes && HasRef(n) ==> FlatChild(n, c).Done?
  }

  /** How many nodes of the result come before the k-th node of the parent. */
  ghost function NodesBefore(nodes: seq<Node>, c: Context, k: nat): nat
    requires k <= |nodes| && AllLoaded(nodes, c)
  {
    if k == 0 then 0
    else NodesBefore(nodes, c, k - 1) + if HasRef(nodes[k - 1]) then |ChildOf(nodes[k - 1], c).nodes| else 1
  }

  /** From position i on stands the node itself, or the nodes of the child, one by one, with their IDs
      behind the node's own ID and an underscore. */
  ghost predicate NodeStands(out: seq<Node>, i: nat, n: Node, c: Context)
    requires c.depth < c.maxDepth && (HasRef(n) ==> FlatChild(n, c).Done?)
  {
    if HasRef(n) then
      var inner := ChildOf(n, c).nodes;
      i + |inner| <= |out| && forall j :: 0 <= j < |inner| ==> out[i + j] == inner[j].(id := n.id + "_" + inner[j].id)
    else i < |out| && out[i] == n
  }

  lemma StandsLonger(out: seq<Node>, more: seq<Node>, i: nat, n: Node, c: Context)
    requires c.depth < c.maxDepth && (HasRef(n) ==> FlatChild(n, c).Done?)
    requires NodeStands(out, i, n, c)
    ensures NodeStands(out + more, i, n, c)
  {
    if HasRef(n) {
      var inner := ChildOf(n, c).nodes;
      forall j | 0 <= j < |inner| ensures (out + more)[i + j] == inner[j].(id := n.id + "_" + inner[j].id) {
        assert out[i + j] == (out + more)[i + j];
      }
    }
  }

  lemma LastStands(out: seq<Node>, n: Node, c: Context, acc: Inlining)
    requires c.depth < c.maxDepth && InlineNode(acc, n, c).Done? && out == InlineNode(acc, n, c).value.nodes
    ensures HasRef(n) ==> FlatChild(n, c).Done?
    ensures NodeStands(out, |acc.nodes|, n, c) && acc.nodes <= out
    ensures |out| == |acc.nodes| + if HasRef(n) then |ChildOf(n, c).nodes| else 1
  {
    if HasRef(n) {
      var inner := ChildOf(n, c).nodes;
      forall j | 0 <= j < |inner| ensures out[|acc.nodes| + j] == inner[j].(id := n.id + "_" + inner[j].id) {
        assert out[|acc.nodes| + j] == PrefixNodes(Prefix(n.id), inner)[j];
      }
    }
  }

  lemma AllLoadedWhenDone(nodes: seq<Node>, c: Context)
    requires Inlines(nodes, c)
    ensures AllLoaded(nodes, c)
  {
    forall n | n in nodes && HasRef(n) ensures FlatChild(n, c).Done? {
      EveryRefSpliced(nodes, c, n);
    }
  }

  lemma {:induction false} BeforeInFront(nodes: seq<Node>, c: Context, k: nat)
    requires k < |nodes| && AllLoaded(nodes, c) && AllLoaded(nodes[..|nodes| - 1], c)
    ensures NodesBefore(nodes[..|nodes| - 1], c, k) == NodesBefore(nodes, c, k)
    ensures EdgesBefore(nodes[..|nodes| - 1], c, k) == EdgesBefore(nodes, c, k)
    decreases k
  {
    if k > 0 {
      BeforeInFront(nodes, c, k - 1);
    }
  }

  /** The nodes of the result, in the order of the parent, each in its place. */
  lemma {:induction false} NodesInPlace(nodes: seq<Node>, c: Context, k: nat)
    requires Inlines(nodes, c) && k < |nodes|
    ensures AllLoaded(nodes, c) && nodes[k] in nodes
    ensures NodeStands(Inlined(nodes, c).value.nodes, NodesBefore(nodes, c, k), nodes[k], c)
    decreases |nodes|
  {
    AllLoadedWhenDone(nodes, c);
    var front, last := nodes[..|nodes| - 1], nodes[|nodes| - 1];
    var acc := Inlined(front, c).value;
    AllLoadedWhenDone(front, c);
    NodeCount(front, c);
    LastStands(Inlined(nodes, c).value.nodes, last, c, acc);
    BeforeInFront(nodes, c, k);
    if k < |front| {
      NodesInPlace(front, c, k);
      var out := Inlined(nodes, c).value.nodes;
      assert out == acc.nodes + out[|acc.nodes|..];
      StandsLonger(acc.nodes, out[|acc.nodes|..], NodesBefore(nodes, c, k), nodes[k], c);
    } else {
      FullPrefix(front);
    }
  }

  lemma {:induction false} NodeCount(nodes: seq<Node>, c: Context)
    requires Inlines(nodes, c)
    ensures AllLoaded(nodes, c) && |Inlined(nodes, c).value.nodes| == NodesBefore(nodes, c, |nodes|)
    ensures |Inlined(nodes, c).value.edges| == EdgesBefore(nodes, c, |nodes|)
    decreases |nodes|
  {
    AllLoadedWhenDone(nodes, c);
    if nodes != [] {
      var front, last := nodes[..|nodes| - 1], nodes[|nodes| - 1];
      NodeCount(front, c);
      BeforeWholeFront(nodes, c, |front|);
      assert InlineNode(Inlined(front, c).value, last, c).Done?;
      EveryRefSplicedLast(nodes, c);
    }
  }

  lemma EveryRefSplicedLast(nodes: seq<Node>, c: Context)
    requires Inlines(nodes, c) && nodes != []
    ensures HasRef(nodes[|nodes| - 1]) ==> FlatChild(nodes[|nodes| - 1], c).Done?
  {
    if HasRef(nodes[|nodes| - 1]) {
      EveryRefSpliced(nodes, c, nodes[|nodes| - 1]);
    }
  }

  lemma {:induction false} BeforeWholeFront(nodes: seq<Node>, c: Context, k: nat)
    requires k < |nodes| && AllLoaded(nodes, c)
    ensures AllLoaded(nodes[..|nodes| - 1], c)
    ensures NodesBefore(nodes[..|nodes| - 1], c, k) == NodesBefore(nodes, c, k)
    ensures EdgesBefore(nodes[..|nodes| - 1], c, k) == EdgesBefore(nodes, c, k)
  {
    assert forall n :: n in nodes[..|nodes| - 1] ==> n in nodes;
    BeforeInFront(nodes, c, k);
  }

  // ----- the edges inside the children

  ghost function EdgesBefore(nodes: seq<Node>, c: Context, k: nat): nat
    requires k <= |nodes| && AllLoaded(nodes, c)
  {
    if k == 0 then 0
    else EdgesBefore(nodes, c, k - 1) + if HasRef(nodes[k - 1]) then |ChildOf(nodes[k - 1], c).edges| else 0
  }

  /** The same edge with other endpoints: label, condition, weight and restart mark are kept. */
  ghost predicate Moved(e: Edge, e0: Edge, from: string, to: string) {
    e.from == from && e.to == to && e.text == e0.text && e.condition == e0.condition && e.weight == e0.weight && e.restart == e0.restart
  }

  /** From position i on stand the edges of the child, one by one, with both endpoints prefixed. */
  ghost predicate EdgesStand(out: seq<Edge>, i: nat, n: Node, inner: seq<Edge>) {
    i + |inner| <= |out| && forall j :: 0 <= j < |inner| ==> Moved(out[i + j], inner[j], n.id + "_" + inner[j].from, n.id + "_" + inner[j].to)
  }

  lemma EdgesStandLonger(out: seq<Edge>, more: seq<Edge>, i: nat, n: Node, inner: seq<Edge>)
    requires EdgesStand(out, i, n, inner)
    ensures EdgesStand(out + more, i, n, inner)
  {
    forall j | 0 <= j < |inner| ensures Moved((out + more)[i + j], inner[j], n.id + "_" + inner[j].from, n.id + "_" + inner[j].to) {
      assert out[i + j] == (out + more)[i + j];
    }
  }

  lemma LastEdgesStand(before: seq<Edge>, n: Node, inner: seq<Edge>)
    ensures EdgesStand(before + PrefixEdges(Prefix(n.id), inner), |before|, n, inner)
  {
    var out := before + PrefixEdges(Prefix(n.id), inner);
    forall j | 0 <= j < |inner| ensures Moved(out[|before| + j], inner[j], n.id + "_" + inner[j].from, n.id + "_" + inner[j].to) {
      assert out[|before| + j] == PrefixEdges(Prefix(n.id), inner)[j];
    }
  }

  lemma {:induction false} EdgesInPlace(nodes: seq<Node>, c: Context, k: nat)
    requires Inlines(nodes, c) && k < |nodes| && HasRef(nodes[k])
    ensures AllLoaded(nodes, c) && nodes[k] in nodes
    ensures EdgesStand(Inlined(nodes, c).value.edges, EdgesBefore(nodes, c, k), nodes[k], ChildOf(nodes[k], c).edges)
    decreases |nodes|
  {
    AllLoadedWhenDone(nodes, c);
    var front, last := nodes[..|nodes| - 1], nodes[|nodes| - 1];
    var acc := Inlined(front, c).value;
    NodeCount(front, c);
    BeforeWholeFront(nodes, c, k);
    EveryRefSplicedLast(nodes, c);
    var more := if HasRef(last) then PrefixEdges(Prefix(last.id), ChildOf(last, c).edges) else [];
    assert Inlined(nodes, c).value.edges == acc.edges + more;
    if k < |front| {
      EdgesInPlace(front, c, k);
      EdgesStandLonger(acc.edges, more, EdgesBefore(nodes, c, k), nodes[k], ChildOf(nodes[k], c).edges);
    } else {
      LastEdgesStand(acc.edges, last, ChildOf(last, c).edges);
    }
  }

  // ----- the whole workflow

  /** Where an edge that leads to the ID leads now: to the start of the child if a reference node has the
      ID, and otherwise where it led before. */
  ghost predicate EntersAt(w: Workflow, c: Context, id: string, id': string)
    requires AllLoaded(w.nodes, c)
  {
    || ((forall n :: n in w.nodes && HasRef(n) ==> n.id != id) && id' == id)
    || (exists n :: n in w.nodes && HasRef(n) && n.id == id && id' == id + "_" + ChildOf(n, c).start)
  }

  ghost predicate LeavesAt(w: Workflow, c: Context, id: string, id': string)
    requires AllLoaded(w.nodes, c)
  {
    || ((forall n :: n in w.nodes && HasRef(n) ==> n.id != id) && id' == id)
    || (exists n :: n in w.nodes && HasRef(n) && n.id == id && id' == id + "_" + ChildOf(n, c).exit)
  }

  lemma RewiredSides(w: Workflow, c: Context, id: string)
    requires Flat(w, c).Done?
    ensures AllLoaded(w.nodes, c)
    ensures var rewires := Inlined(w.nodes, c).value.rewires;
            EntersAt(w, c, id, Entry(rewires, id)) && LeavesAt(w, c, id, Leave(rewires, id))
  {
    AllLoadedWhenDone(w.nodes, c);
    var rewires := Inlined(w.nodes, c).value.rewires;
    if id in rewires {
      var n := RewireOrigin(w.nodes, c, id);
      assert n in w.nodes && HasRef(n) && n.id == id;
    } else {
      forall n | n in w.nodes && HasRef(n) ensures n.id != id {
        EveryRefSpliced(w.nodes, c, n);
      }
    }
  }

  /** One edge of the parent, with both ends moved. */
  ghost predicate ParentEdgeStands(w: Workflow, c: Context, e: Edge, e0: Edge)
    requires AllLoaded(w.nodes, c)
  {
    && EntersAt(w, c, e0.to, e.to) && LeavesAt(w, c, e0.from, e.from)
    && Moved(e, e0, e.from, e.to)
  }

  lemma ParentEdgesInPlace(w: Workflow, c: Context, i: nat)
    requires Flat(w, c).Done? && i < |w.edges|
    ensures AllLoaded(w.nodes, c)
    ensures var out := Flat(w, c).value.edges;
            |out| >= |w.edges| && ParentEdgeStands(w, c, out[|out| - |w.edges| + i], w.edges[i])
  {
    var acc := Inlined(w.nodes, c).value;
    var out := Flat(w, c).value.edges;
    RewiredSides(w, c, w.edges[i].from);
    RewiredSides(w, c, w.edges[i].to);
    assert out[|acc.edges| + i] == RewireEdges(acc.rewires, w.edges)[i];
  }

  /** The contents of a flattened workflow. Its name and goal are the parent's. Node after node of the parent
      stands the node itself or the nodes of its child; the edges are those of the children, in the same
      order, and then those of the parent, which keep everything but their endpoints. */
  lemma FlattenedContents(w: Workflow, c: Context)
    requires Flat(w, c).Done?
    ensures AllLoaded(w.nodes, c)
    ensures var out := Flat(w, c).value;
            && out.name == w.name && out.goal == w.goal
            && EntersAt(w, c, w.start, out.start) && LeavesAt(w, c, w.exit, out.exit)
            && |out.nodes| == NodesBefore(w.nodes, c, |w.nodes|)
            && |out.edges| == EdgesBefore(w.nodes, c, |w.nodes|) + |w.edges|
            && (forall k :: 0 <= k < |w.nodes| ==> w.nodes[k] in w.nodes && NodeStands(out.nodes, NodesBefore(w.nodes, c, k), w.nodes[k], c))
            && (forall k :: 0 <= k < |w.nodes| && HasRef(w.nodes[k]) ==>
                  EdgesStand(out.edges, EdgesBefore(w.nodes, c, k), w.nodes[k], ChildOf(w.nodes[k], c).edges))
            && (forall i :: 0 <= i < |w.edges| ==> ParentEdgeStands(w, c, out.edges[|out.edges| - |w.edges| + i], w.edges[i]))
  {
    var acc, out := Inlined(w.nodes, c).value, Flat(w, c).value;
    AllLoadedWhenDone(w.nodes, c);
    NodeCount(w.nodes, c);
    RewiredSides(w, c, w.start);
    RewiredSides(w, c, w.exit);
    forall k | 0 <= k < |w.nodes| ensures NodeStands(out.nodes, NodesBefore(w.nodes, c, k), w.nodes[k], c) {
      NodesInPlace(w.nodes, c, k);
    }
    forall k | 0 <= k < |w.nodes| && HasRef(w.nodes[k])
      ensures EdgesStand(out.edges, EdgesBefore(w.nodes, c, k), w.nodes[k], ChildOf(w.nodes[k], c).edges)
    {
      EdgesInPlace(w.nodes, c, k);
      EdgesStandLonger(acc.edges, RewireEdges(acc.rewires, w.edges), EdgesBefore(w.nodes, c, k), w.nodes[k], ChildOf(w.nodes[k], c).edges);
    }
    forall i | 0 <= i < |w.edges| ensures ParentEdgeStands(w, c, out.edges[|out.edges| - |w.edges| + i], w.edges[i]) {
      ParentEdgesInPlace(w, c, i);
    }
  }

  /** What stays is every node but the subgraph nodes with a reference, and those do go. */
  lemma StaysUnlessReference(w: Workflow, c: Context, k: nat)
    requires Flat(w, c).Done? && k < |w.nodes|
    ensures AllLoaded(w.nodes, c)
    ensures var n, i := w.nodes[k], NodesBefore(w.nodes, c, k);
            if n.config.Subgraph? && n.config.ref != "" then
              c.resolve(n.config.ref, n.file).Some? && n.config.ref !in c.seen
            else i < |Flat(w, c).value.nodes| && Flat(w, c).value.nodes[i] == n
  {
    NodesInPlace(w.nodes, c, k);
    if HasRef(w.nodes[k]) {
      EveryRefSpliced(w.nodes, c, w.nodes[k]);
    }
  }
}
