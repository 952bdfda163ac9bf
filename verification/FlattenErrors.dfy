/** When flattening fails, and with which error: exactly when some chain of references leads to a workflow
    that cannot be inlined. */
module FlattenErrors {
  import opened IR
  import opened Flatten
  import opened FlattenMeaning

  /** A subgraph node of the workflow that refers to another one. */
  ghost predicate RefersIn(w: Workflow, n: Node) {
    n in w.nodes && n.config.Subgraph? && n.config.ref != ""
  }

  /** Following the references of the nodes, one inside the other and none of them twice, leads from one
      workflow to another; every workflow on the way exists and has a start and an exit. */
  ghost predicate LeadsDown(w: Workflow, resolve: Resolver, seen: seq<string>, chain: seq<Node>, u: Workflow)
    decreases |chain|
  {
    if chain == [] then u == w
    else
      var n := chain[0];
      && RefersIn(w, n) && n.config.ref !in seen
      && var child := resolve(n.config.ref, n.file);
         && child.Some? && child.value.start != "" && child.value.exit != ""
         && LeadsDown(child.value, resolve, seen + [n.config.ref], chain[1..], u)
  }

  function Refs(chain: seq<Node>): seq<string> {
    seq(|chain|, i requires 0 <= i < |chain| => if chain[i].config.Subgraph? then chain[i].config.ref else "")
  }

  /** A reference that cannot be inlined, with the references around it. */
  ghost predicate BadReference(n: Node, resolve: Resolver, seen: seq<string>, e: FlattenError)
    requires n.config.Subgraph?
  {
    var ref, child := n.config.ref, resolve(n.config.ref, n.file);
    match e
    case CycleDetected(cycle) => ref in seen && cycle == seen + [ref]
    case Unresolved(node, r) => ref !in seen && child.None? && node == n.id && r == ref
    case NoStart(node, name) => ref !in seen && child.Some? && child.value.start == "" && node == n.id && name == child.value.name
    case NoExit(node, name) => ref !in seen && child.Some? && child.value.start != "" && child.value.exit == "" && node == n.id && name == child.value.name
    case _ => false
  }

  /** What is wrong with a workflow at a depth: it lies too deep, or one of its references is bad. */
  ghost predicate Breaks(u: Workflow, resolve: Resolver, maxDepth: int, depth: nat, seen: seq<string>, e: FlattenError) {
    if depth >= maxDepth then e == DepthExceeded(maxDepth)
    else exists n :: RefersIn(u, n) && BadReference(n, resolve, seen, e)
  }

  ghost predicate BreaksBelow(w: Workflow, resolve: Resolver, maxDepth: int, depth: nat, seen: seq<string>, chain: seq<Node>, e: FlattenError) {
    exists u :: LeadsDown(w, resolve, seen, chain, u) && Breaks(u, resolve, maxDepth, depth + |chain|, seen + Refs(chain), e)
  }

  ghost predicate Fails(w: Workflow, resolve: Resolver, maxDepth: int, depth: nat, seen: seq<string>, e: FlattenError) {
    exists chain :: BreaksBelow(w, resolve, maxDepth, depth, seen, chain, e)
  }

  lemma BreaksHere(w: Workflow, resolve: Resolver, maxDepth: int, depth: nat, seen: seq<string>, e: FlattenError)
    requires Breaks(w, resolve, maxDepth, depth, seen, e)
    ensures Fails(w, resolve, maxDepth, depth, seen, e)
  {
    assert seen + Refs([]) == seen;
    assert LeadsDown(w, resolve, seen, [], w);
    assert BreaksBelow(w, resolve, maxDepth, depth, seen, [], e);
  }

  lemma RefsCons(seen: seq<string>, n: Node, rest: seq<Node>)
    requires n.config.Subgraph?
    ensures seen + Refs([n] + rest) == seen + [n.config.ref] + Refs(rest)
  {
    assert Refs([n] + rest) == [n.config.ref] + Refs(rest);
  }

  lemma FailsThrough(w: Workflow, n: Node, child: Workflow, resolve: Resolver, maxDepth: int, depth: nat, seen: seq<string>, e: FlattenError)
    requires RefersIn(w, n) && n.config.ref !in seen && resolve(n.config.ref, n.file) == Some(child)
    requires child.start != "" && child.exit != "" && Fails(child, resolve, maxDepth, depth + 1, seen + [n.config.ref], e)
    ensures Fails(w, resolve, maxDepth, depth, seen, e)
  {
    var rest :| BreaksBelow(child, resolve, maxDepth, depth + 1, seen + [n.config.ref], rest, e);
    var u :| LeadsDown(child, resolve, seen + [n.config.ref], rest, u) &&
             Breaks(u, resolve, maxDepth, depth + 1 + |rest|, seen + [n.config.ref] + Refs(rest), e);
    var chain := [n] + rest;
    RefsCons(seen, n, rest);
    assert chain[0] == n && chain[1..] == rest;
    assert LeadsDown(w, resolve, seen, chain, u);
    assert BreaksBelow(w, resolve, maxDepth, depth, seen, chain, e);
  }

  /** The first reference that fails decides the error. */
  lemma {:induction false} FailedReference(nodes: seq<Node>, c: Context) returns (n: Node)
    requires c.depth < c.maxDepth && Inlined(nodes, c).Failed?
    ensures n in nodes && HasRef(n) && FlatChild(n, c) == Failed(Inlined(nodes, c).error)
    decreases |nodes|
  {
    var front, last := nodes[..|nodes| - 1], nodes[|nodes| - 1];
    if Inlined(front, c).Failed? {
      n := FailedReference(front, c);
    } else {
      n := last;
    }
  }

  lemma {:induction false} FailureShown(w: Workflow, c: Context)
    requires Flat(w, c).Failed?
    ensures Fails(w, c.resolve, c.maxDepth, c.depth, c.seen, Flat(w, c).error)
    decreases c.maxDepth - c.depth
  {
    var e := Flat(w, c).error;
    if c.depth >= c.maxDepth {
      BreaksHere(w, c.resolve, c.maxDepth, c.depth, c.seen, e);
    } else {
      var n := FailedReference(w.nodes, c);
      var ref := n.config.ref;
      assert RefersIn(w, n);
      if ref in c.seen || ResolveAndValidate(n, c.resolve).Failed? {
        assert BadReference(n, c.resolve, c.seen, e);
        BreaksHere(w, c.resolve, c.maxDepth, c.depth, c.seen, e);
      } else {
        var child := ResolveAndValidate(n, c.resolve).value;
        FailureShown(child, c.Inside(ref));
        FailsThrough(w, n, child, c.resolve, c.maxDepth, c.depth, c.seen, e);
      }
    }
  }

  lemma ChildFails(w: Workflow, c: Context, n: Node)
    requires RefersIn(w, n) && (c.depth < c.maxDepth ==> FlatChild(n, c).Failed?)
    ensures Flat(w, c).Failed?
  {
    if Flat(w, c).Done? {
      EveryRefSpliced(w.nodes, c, n);
    }
  }

  lemma {:induction false} BreakFails(w: Workflow, c: Context, chain: seq<Node>, e: FlattenError)
    requires BreaksBelow(w, c.resolve, c.maxDepth, c.depth, c.seen, chain, e)
    ensures Flat(w, c).Failed?
    decreases |chain|
  {
    var u :| LeadsDown(w, c.resolve, c.seen, chain, u) && Breaks(u, c.resolve, c.maxDepth, c.depth + |chain|, c.seen + Refs(chain), e);
    if chain == [] {
      assert c.seen + Refs([]) == c.seen;
      if c.depth < c.maxDepth {
        var n :| RefersIn(w, n) && BadReference(n, c.resolve, c.seen, e);
        ChildFails(w, c, n);
      }
    } else {
      var n, rest := chain[0], chain[1..];
      var ref := n.config.ref;
      if c.depth < c.maxDepth {
        var child := c.resolve(ref, n.file).value;
        RefsCons(c.seen, n, rest);
        assert chain == [n] + rest;
        assert LeadsDown(child, c.resolve, c.seen + [ref], rest, u);
        assert Breaks(u, c.resolve, c.maxDepth, c.depth + 1 + |rest|, c.seen + [ref] + Refs(rest), e);
        assert BreaksBelow(child, c.resolve, c.maxDepth, c.depth + 1, c.seen + [ref], rest, e);
        BreakFails(child, c.Inside(ref), rest, e);
      }
      ChildFails(w, c, n);
    }
  }

  /** Inlining fails exactly when some chain of references breaks, and the error is what breaks it. */
  lemma FlatFailsExactly(w: Workflow, c: Context)
    ensures Flat(w, c).Failed? <==> exists e :: Fails(w, c.resolve, c.maxDepth, c.depth, c.seen, e)
    ensures Flat(w, c).Failed? ==> Fails(w, c.resolve, c.maxDepth, c.depth, c.seen, Flat(w, c).error)
  {
    if Flat(w, c).Failed? {
      FailureShown(w, c);
    }
    if e :| Fails(w, c.resolve, c.maxDepth, c.depth, c.seen, e) {
      var chain :| BreaksBelow(w, c.resolve, c.maxDepth, c.depth, c.seen, chain, e);
      BreakFails(w, c, chain, e);
    }
  }

  /** The tool: without references nothing can go wrong; with one, a resolver is needed, and then the chains
      of references decide, at most ten workflows deep unless another limit is set. */
  lemma FlattenFailsExactly(w: Workflow, resolve: Option<Resolver>, maxDepth: int)
    ensures (forall n :: !RefersIn(w, n)) ==> FlattenSpec(w, resolve, maxDepth) == Done(w)
    ensures (exists n :: RefersIn(w, n)) && resolve.None? ==> FlattenSpec(w, resolve, maxDepth) == Failed(NilResolver)
    ensures (exists n :: RefersIn(w, n)) && resolve.Some? ==>
              var limit := if maxDepth == 0 then 10 else maxDepth;
              var r := FlattenSpec(w, resolve, maxDepth);
              && (r.Failed? <==> exists e :: Fails(w, resolve.value, limit, 0, [], e))
              && (r.Failed? ==> Fails(w, resolve.value, limit, 0, [], r.error))
  {
    assert HasSubgraphRefs(w.nodes) <==> exists n :: RefersIn(w, n) by {
      if n :| RefersIn(w, n) {
        assert n in w.nodes && HasRef(n);
      }
      if HasSubgraphRefs(w.nodes) {
        var n :| n in w.nodes && HasRef(n);
        assert RefersIn(w, n);
      }
    }
    if resolve.Some? {
      FlatFailsExactly(w, Context(resolve.value, if maxDepth == 0 then 10 else maxDepth, 0, []));
    }
  }
}
