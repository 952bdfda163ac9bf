/** The traces of the all-paths mode: what the events of a reported walk say, event by event. */
module PathTraces {
  import opened IR
  import opened Graphs
  import opened Lookup
  import opened Runs
  import opened Sequences
  import opened Traces
  import opened PathEnumerator

  /** Entering a node is followed by the one event of a fork or a join, with its own targets or sources,
      and then by leaving the node; for other nodes leaving follows at once. */
  ghost predicate EnteredAs(events: seq<Event>, i: nat, n: Node) {
    match n.config
    case Parallel(targets, _) => i + 2 < |events| && events[i + 1] == ParallelStart(n.id, targets) && events[i + 2] == NodeExit(n.id)
    case FanIn(sources) => i + 2 < |events| && events[i + 1] == ParallelEnd(n.id, sources) && events[i + 2] == NodeExit(n.id)
    case _ => i + 1 < |events| && events[i + 1] == NodeExit(n.id)
  }

  ghost predicate EntryShown(nodes: seq<Node>, events: seq<Event>, i: nat)
    requires i < |events|
  {
    events[i].NodeEnter? ==> FindNode(nodes, events[i].node).Some? && EnteredAs(events, i, FindNode(nodes, events[i].node).value)
  }

  /** Forks and joins are recorded only right behind the entry of their node, and nothing is recorded
      of the context. */
  ghost predicate AsideShown(events: seq<Event>, i: nat)
    requires i < |events|
  {
    && !events[i].ContextUpdate?
    && (events[i].ParallelStart? || events[i].ParallelEnd? ==> i > 0 && events[i - 1] == NodeEnter(events[i].node))
  }

  ghost predicate VisitsShown(nodes: seq<Node>, events: seq<Event>) {
    forall i :: 0 <= i < |events| ==> EntryShown(nodes, events, i) && AsideShown(events, i)
  }

  /** A block that shows its visits itself, whatever stands around it. */
  lemma VisitsShownJoin(nodes: seq<Node>, a: seq<Event>, b: seq<Event>)
    requires VisitsShown(nodes, a) && VisitsShown(nodes, b)
    ensures VisitsShown(nodes, a + b)
  {
    var c := a + b;
    forall i | 0 <= i < |c| ensures EntryShown(nodes, c, i) && AsideShown(c, i) {
      if i < |a| {
        assert EntryShown(nodes, a, i) && AsideShown(a, i);
      } else {
        assert c[i] == b[i - |a|];
        assert EntryShown(nodes, b, i - |a|) && AsideShown(b, i - |a|);
      }
    }
  }

  lemma VisitShown(nodes: seq<Node>, n: Node)
    requires FindNode(nodes, n.id) == Some(n)
    ensures VisitsShown(nodes, NodeEvents(nodes, n.id))
    ensures NodeEvents(nodes, n.id) == VisitBlock(n.id, KindEvents(n)) && AllAside(KindEvents(n))
  {
    var events := NodeEvents(nodes, n.id);
    assert EnteredAs(events, 0, n);
    forall i | 0 <= i < |events| ensures EntryShown(nodes, events, i) && AsideShown(events, i) {
    }
  }

  lemma StepShown(nodes: seq<Node>, e: Event)
    requires e.PipelineStart? || e.EdgeTraverse?
    ensures VisitsShown(nodes, [e])
  {
  }

  /** An edge is traversed between leaving the node it comes from and entering the one it leads to. */
  ghost predicate EdgeShown(events: seq<Event>, i: nat)
    requires i < |events|
  {
    events[i].EdgeTraverse? ==>
      && 0 < i < |events| - 1
      && events[i - 1] == NodeExit(events[i].edge.from) && events[i + 1] == NodeEnter(events[i].edge.to)
  }

  ghost predicate EdgesShown(events: seq<Event>) {
    forall i :: 0 <= i < |events| ==> EdgeShown(events, i)
  }

  lemma EdgesShownFurther(events: seq<Event>, e: Edge, block: seq<Event>)
    requires EdgesShown(events) && events != [] && Last(events) == NodeExit(e.from)
    requires block != [] && block[0] == NodeEnter(e.to) && forall i :: 0 <= i < |block| ==> !block[i].EdgeTraverse?
    ensures EdgesShown(events + [EdgeTraverse(e)] + block)
  {
    var c := events + [EdgeTraverse(e)] + block;
    forall i | 0 <= i < |c| ensures EdgeShown(c, i) {
      if i < |events| {
        assert EdgeShown(events, i);
      } else if i > |events| {
        assert c[i] == block[i - |events| - 1];
      }
    }
  }

  /** The events of a trail, before the closing one. */
  ghost predicate Shows(w: Workflow, trail: seq<Edge>, events: seq<Event>) {
    && Trace(events, PathOf(w.start, trail)) && Traversals(events) == trail
    && VisitsShown(w.nodes, events) && EdgesShown(events) && Last(events) == NodeExit(Here(w.start, trail))
  }

  lemma OpeningTrace(id: string, middle: seq<Event>)
    requires AllAside(middle)
    ensures Trace([PipelineStart] + VisitBlock(id, middle), [id])
    ensures Traversals([PipelineStart] + VisitBlock(id, middle)) == []
  {
    SingleProjects(PipelineStart);
    TraceVisit([PipelineStart], [], id, middle);
    assert [] + [id] == [id];
  }

  lemma OpeningEdges(id: string, middle: seq<Event>)
    requires AllAside(middle)
    ensures var events := [PipelineStart] + VisitBlock(id, middle); EdgesShown(events) && Last(events) == NodeExit(id)
  {
    LastOfJoin([PipelineStart], VisitBlock(id, middle));
    LastOfJoin([NodeEnter(id)] + middle, [NodeExit(id)]);
    var events := [PipelineStart] + VisitBlock(id, middle);
    forall i | 0 <= i < |events| ensures EdgeShown(events, i) {
      if 2 <= i < |events| - 1 {
        assert events[i] == middle[i - 2] && middle[i - 2] in middle;
      }
    }
  }

  lemma OpeningShown(w: Workflow)
    requires w.start in NodeIds(w.nodes)
    ensures Shows(w, [], EventsOf(w, []))
  {
    var n := FindNode(w.nodes, w.start).value;
    VisitShown(w.nodes, n);
    OpeningTrace(n.id, KindEvents(n));
    OpeningEdges(n.id, KindEvents(n));
    StepShown(w.nodes, PipelineStart);
    VisitsShownJoin(w.nodes, [PipelineStart], NodeEvents(w.nodes, n.id));
    assert PathOf(w.start, []) == [w.start];
  }

  lemma FurtherShown(w: Workflow, trail: seq<Edge>, events: seq<Event>, e: Edge)
    requires Shows(w, trail, events) && e.to in NodeIds(w.nodes) && e.from == Here(w.start, trail)
    ensures Shows(w, trail + [e], events + [EdgeTraverse(e)] + NodeEvents(w.nodes, e.to))
  {
    var n := FindNode(w.nodes, e.to).value;
    var path, step := PathOf(w.start, trail), [EdgeTraverse(e)];
    TraceStep(events, path, [], e);
    assert [] + step == step;
    VisitShown(w.nodes, n);
    TraceVisit(events + step, path, n.id, KindEvents(n));
    PathOfExtend(w.start, trail, e);
    StepShown(w.nodes, EdgeTraverse(e));
    VisitsShownJoin(w.nodes, events, step);
    VisitsShownJoin(w.nodes, events + step, NodeEvents(w.nodes, n.id));
    EdgesShownFurther(events, e, NodeEvents(w.nodes, n.id));
    LastOfJoin(events + step, NodeEvents(w.nodes, n.id));
  }

  lemma FollowsFront(w: Workflow, front: seq<Edge>, last: Edge)
    requires Follows(SpaceOf(w), front + [last])
    ensures Follows(SpaceOf(w), front) && last.from == Here(w.start, front)
  {
    var trail := front + [last];
    PathOfExtend(w.start, front, last);
    assert trail[|front|] in EdgesFrom(w, PathOf(w.start, trail)[|front|]);
    forall i | 0 <= i < |front| ensures front[i] in EdgesFrom(w, PathOf(w.start, front)[i]) {
      assert trail[i] in EdgesFrom(w, PathOf(w.start, trail)[i]);
    }
  }

  lemma {:induction false} EventsShown(w: Workflow, trail: seq<Edge>)
    requires Elements(PathOf(w.start, trail)) <= NodeIds(w.nodes) && Follows(SpaceOf(w), trail)
    ensures Shows(w, trail, EventsOf(w, trail))
    decreases |trail|
  {
    var path := PathOf(w.start, trail);
    assert path[0] in Elements(path) && path[|trail|] in Elements(path);
    if trail == [] {
      OpeningShown(w);
    } else {
      var front, last := trail[..|trail| - 1], trail[|trail| - 1];
      FrontAndLast(trail);
      PathOfExtend(w.start, front, last);
      assert forall x :: x in PathOf(w.start, front) ==> x in path;
      FollowsFront(w, front, last);
      EventsShown(w, front);
      FurtherShown(w, front, EventsOf(w, front), last);
    }
  }

  /** The trace of a reported walk: opened and closed once; it enters and leaves the nodes of the path
      one after the other, traverses exactly the edges of the walk, each between the two nodes that it
      connects, and shows the fork or the join of each node that is one. */
  lemma ReportedTrace(w: Workflow, t: seq<Edge>)
    requires Reportable(SpaceOf(w), t)
    ensures var r := Report(w, t);
            exists body :: && r.events == body + [PipelineEnd(r.status, r.nodesVisited)]
                           && Trace(body, r.path) && Traversals(body) == t && VisitsShown(w.nodes, body) && EdgesShown(body)
  {
    var path := PathOf(w.start, t);
    forall x | x in Elements(path) ensures x in NodeIds(w.nodes) {
      var i :| 0 <= i < |path| && path[i] == x;
      PathDeclared(SpaceOf(w), t, i);
    }
    EventsShown(w, t);
    assert Shows(w, t, EventsOf(w, t));
  }
}
