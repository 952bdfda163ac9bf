/** When inlining keeps node IDs unique: exactly when no ID begins with the prefix that a reference
    node gives out. */
module FlattenUnique {
  import opened IR
  import opened Flatten
  import opened FlattenMeaning

  lemma UniqueJoin(a: seq<Node>, b: seq<Node>)
    requires UniqueIds(a) && UniqueIds(b)
    requires forall m, n :: m in a && n in b ==> m.id != n.id
    ensures UniqueIds(a + b)
  {
    forall i, j | 0 <= i < j < |a + b| ensures (a + b)[i].id != (a + b)[j].id {
      if i < |a| <= j {
        assert (a + b)[i] in a && (a + b)[j] in b;
      }
    }
  }

  lemma UniquePrefixed(prefix: string, nodes: seq<Node>)
    requires UniqueIds(nodes)
    ensures UniqueIds(PrefixNodes(prefix, nodes))
    ensures forall m :: m in PrefixNodes(prefix, nodes) ==> prefix <= m.id
  {
    forall i, j | 0 <= i < j < |nodes| ensures prefix + nodes[i].id != prefix + nodes[j].id {
      assert (prefix + nodes[i].id)[|prefix|..] == nodes[i].id && (prefix + nodes[j].id)[|prefix|..] == nodes[j].id;
    }
  }

  /** The part contributed by a further node shares no ID with what the earlier nodes gave. */
  lemma FreshIds(w: Workflow, c: Context, k: nat, m: Node, id: string)
    requires k < |w.nodes| && UniqueIds(w.nodes) && IdsPrefixFree(w.nodes) && Inlines(w.nodes[..k], c)
    requires m in Inlined(w.nodes[..k], c).value.nodes
    requires if HasRef(w.nodes[k]) then Prefix(w.nodes[k].id) <= id else id == w.nodes[k].id
    ensures m.id != id
  {
    var last := w.nodes[k];
    var n, m0 := NodeOrigin(w.nodes[..k], c, m);
    if FromPlain(w.nodes[..k], m) {
      assert m in w.nodes && m.id != last.id;
    } else {
      assert Prefix(n.id) <= m.id && n in w.nodes && n.id != last.id;
      if m.id == id && HasRef(last) {
        PrefixesApart(n.id, last.id, id);
      }
    }
  }

  /** What the k-th node adds to the nodes before it. */
  lemma OneMore(nodes: seq<Node>, c: Context, k: nat)
    requires 0 < k <= |nodes| && Inlines(nodes[..k], c)
    ensures Inlines(nodes[..k - 1], c)
    ensures var last := nodes[k - 1];
            && (HasRef(last) ==> Spliced(nodes, c, last))
            && Inlined(nodes[..k], c).value.nodes == Inlined(nodes[..k - 1], c).value.nodes
               + if HasRef(last) then PrefixNodes(Prefix(last.id), FlatChild(last, c).value.nodes) else [last]
  {
    assert nodes[..k][..k - 1] == nodes[..k - 1];
    assert nodes[..k][k - 1] == nodes[k - 1];
    assert InlineNode(Inlined(nodes[..k - 1], c).value, nodes[k - 1], c).Done?;
  }

  lemma {:induction false} InlinedUnique(w: Workflow, c: Context, k: nat)
    requires k <= |w.nodes| && Inlines(w.nodes[..k], c)
    requires Meets(BeUnambiguous, w) && ChildrenMeet(BeUnambiguous, w, c)
    ensures UniqueIds(Inlined(w.nodes[..k], c).value.nodes)
    decreases c.maxDepth - c.depth, 0, k
  {
    if k > 0 {
      OneMore(w.nodes, c, k);
      InlinedUnique(w, c, k - 1);
      var acc, last := Inlined(w.nodes[..k - 1], c).value, w.nodes[k - 1];
      var added := [last];
      if HasRef(last) {
        SplicedChild(BeUnambiguous, w, c, last);
        StaysUnique(Loaded(c, last), c.Inside(last.config.ref));
        added := PrefixNodes(Prefix(last.id), FlatChild(last, c).value.nodes);
        UniquePrefixed(Prefix(last.id), FlatChild(last, c).value.nodes);
      }
      forall m, n | m in acc.nodes && n in added ensures m.id != n.id {
        FreshIds(w, c, k - 1, m, n.id);
      }
      UniqueJoin(acc.nodes, added);
    }
  }

  /** IDs stay unique when every workflow involved has unique IDs free of its own prefixes. */
  lemma {:induction false} StaysUnique(w: Workflow, c: Context)
    requires Flat(w, c).Done? && Meets(BeUnambiguous, w) && ChildrenMeet(BeUnambiguous, w, c)
    ensures UniqueIds(Flat(w, c).value.nodes)
    decreases c.maxDepth - c.depth, 1
  {
    assert w.nodes[..|w.nodes|] == w.nodes;
    InlinedUnique(w, c, |w.nodes|);
  }

  // ----- and otherwise they collide

  /** Nodes without references, without edges between them, flatten to themselves. */
  lemma {:induction false} LeavesStay(nodes: seq<Node>, c: Context)
    requires c.depth < c.maxDepth && !HasSubgraphRefs(nodes)
    ensures Inlined(nodes, c) == Done(Inlining(nodes, [], map[]))
    decreases |nodes|
  {
    if nodes != [] {
      var front, last := nodes[..|nodes| - 1], nodes[|nodes| - 1];
      assert nodes == front + [last];
      assert !HasSubgraphRefs(front) && !HasRef(last);
      LeavesStay(front, c);
    }
  }

  /** A workflow of leaves only. */
  predicate Leaves(child: Workflow) {
    child.edges == [] && child.start != "" && child.exit != "" && forall n <- child.nodes :: !HasRef(n)
  }

  lemma LeavesFlatten(child: Workflow, c: Context)
    requires Leaves(child) && c.depth < c.maxDepth
    ensures Flat(child, c) == Done(child)
  {
    LeavesStay(child.nodes, c);
    assert [] + RewireEdges(map[], child.edges) == [];
  }

  ghost predicate AlwaysLoads(c: Context, child: Workflow) {
    forall ref, file :: c.resolve(ref, file) == Some(child)
  }

  lemma {:induction false} LeavesSplice(nodes: seq<Node>, c: Context, child: Workflow)
    requires c.depth + 1 < c.maxDepth && c.seen == [] && AlwaysLoads(c, child) && Leaves(child)
    ensures Inlines(nodes, c)
    ensures forall n :: n in nodes && HasRef(n) ==> FlatChild(n, c) == Done(child)
  {
    if nodes != [] {
      var front, last := nodes[..|nodes| - 1], nodes[|nodes| - 1];
      assert nodes == front + [last];
      LeavesSplice(front, c, child);
      if HasRef(last) {
        LeavesFlatten(child, c.Inside(last.config.ref));
        assert ResolveAndValidate(last, c.resolve) == Done(child);
      }
      assert InlineNode(Inlined(front, c).value, last, c).Done?;
    }
  }

  lemma Twice(nodes: seq<Node>, a: Node, b: Node)
    requires a in nodes && b in nodes && a != b && a.id == b.id
    ensures !UniqueIds(nodes)
  {
    var i, j :| 0 <= i < |nodes| && 0 <= j < |nodes| && nodes[i] == a && nodes[j] == b;
    assert i < j || j < i;
  }

  /** The node that a child node becomes under a reference node. */
  function Prefixed(n: Node, m0: Node): Node {
    m0.(id := Prefix(n.id) + m0.id)
  }

  lemma PrefixedIn(n: Node, nodes: seq<Node>, k: nat)
    requires k < |nodes|
    ensures Prefixed(n, nodes[k]) in PrefixNodes(Prefix(n.id), nodes)
  {
    assert PrefixNodes(Prefix(n.id), nodes)[k] == Prefixed(n, nodes[k]);
  }

  /** Two leaves under which the node n, and the node m whose ID begins with the prefix of n, meet. */
  function Meeting(n: Node, m: Node): Workflow
    requires Prefix(n.id) <= m.id
  {
    var x := m.id[|Prefix(n.id)|..];
    var first := Node(if HasRef(m) then x + "_c" else x, Conditional, [], [], m.file + "'");
    var second := Node(if HasRef(m) then "c" else x + "'", Conditional, [], [], m.file);
    Workflow("", "", "s", "s", [first, second], [])
  }

  lemma MeetingIsFine(n: Node, m: Node)
    requires Prefix(n.id) <= m.id
    ensures Leaves(Meeting(n, m)) && Meets(BeUnambiguous, Meeting(n, m))
  {
    var child := Meeting(n, m);
    assert |child.nodes[0].id| != |child.nodes[1].id|;
  }

  /** What n's first leaf becomes has the ID of m itself, or of m's second leaf. */
  lemma LeavesMeet(n: Node, m: Node)
    requires Prefix(n.id) <= m.id
    ensures var leaves := Meeting(n, m).nodes;
            var a := Prefixed(n, leaves[0]);
            var b := if HasRef(m) then Prefixed(m, leaves[1]) else m;
            a.id == b.id && a != b
  {
    var x := m.id[|Prefix(n.id)|..];
    assert m.id == Prefix(n.id) + x;
    assert Prefix(n.id) + (x + "_c") == (Prefix(n.id) + x) + "_" + "c";
    assert |m.file + "'"| != |m.file|;
  }

  /** Whenever a node's ID begins with the prefix of a reference node, some unambiguous workflow,
      loaded for every reference, makes the flattened IDs collide. */
  lemma CollisionOtherwise(w: Workflow, n: Node, m: Node, maxDepth: int) returns (c: Context)
    requires n in w.nodes && HasRef(n) && m in w.nodes && Prefix(n.id) <= m.id && maxDepth >= 2
    ensures c.maxDepth == maxDepth && c.depth == 0 && c.seen == []
    ensures Flat(w, c).Done? && ChildrenMeet(BeUnambiguous, w, c)
    ensures !UniqueIds(Flat(w, c).value.nodes)
  {
    var child := Meeting(n, m);
    c := Context((ref, file) => Some(child), maxDepth, 0, []);
    MeetingIsFine(n, m);
    LeavesSplice(w.nodes, c, child);
    EveryRefSpliced(w.nodes, c, n);
    PrefixedIn(n, child.nodes, 0);
    if HasRef(m) {
      EveryRefSpliced(w.nodes, c, m);
      PrefixedIn(m, child.nodes, 1);
    } else {
      PlainKept(w.nodes, c, m);
    }
    LeavesMeet(n, m);
    Twice(Inlined(w.nodes, c).value.nodes, Prefixed(n, child.nodes[0]), if HasRef(m) then Prefixed(m, child.nodes[1]) else m);
  }

  // ----- both together

  /** In this run, if it succeeds and all it loads is unambiguous, the IDs stay unique. */
  ghost predicate StaysUniqueIn(w: Workflow, c: Context) {
    Flat(w, c).Done? && ChildrenMeet(BeUnambiguous, w, c) ==> UniqueIds(Flat(w, c).value.nodes)
  }

  ghost predicate AlwaysUnique(w: Workflow) {
    forall c: Context :: c.depth == 0 && c.seen == [] ==> StaysUniqueIn(w, c)
  }

  /** For a workflow with unique IDs: its flattened IDs are unique whatever unambiguous workflows are
      loaded exactly when none of its node IDs begins with the prefix of one of its reference nodes. */
  lemma AlwaysUniqueExactly(w: Workflow)
    requires UniqueIds(w.nodes)
    ensures AlwaysUnique(w) <==> IdsPrefixFree(w.nodes)
  {
    if IdsPrefixFree(w.nodes) {
      forall c: Context | c.depth == 0 && c.seen == [] ensures StaysUniqueIn(w, c) {
        if Flat(w, c).Done? && ChildrenMeet(BeUnambiguous, w, c) {
          StaysUnique(w, c);
        }
      }
    } else {
      var n, m :| n in w.nodes && HasRef(n) && m in w.nodes && Prefix(n.id) <= m.id;
      var c := CollisionOtherwise(w, n, m, 2);
      assert !StaysUniqueIn(w, c);
    }
  }
}
