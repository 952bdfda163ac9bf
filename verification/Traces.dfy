/** Traces of events and what can be read off them: nodes entered and left, edges traversed. */
module Traces {
  import opened IR
  import opened Runs

  /** The node events of a trace. */
  function Brackets(events: seq<Event>): seq<Event> {
    if events == [] then []
    else
      var e := events[|events| - 1];
      Brackets(events[..|events| - 1]) + if e.NodeEnter? || e.NodeExit? then [e] else []
  }

  /** The traversed edges of a trace. */
  function Traversals(events: seq<Event>): seq<Edge> {
    if events == [] then []
    else
      var e := events[|events| - 1];
      Traversals(events[..|events| - 1]) + if e.EdgeTraverse? then [e.edge] else []
  }

  /** Entering and leaving each node of a path in turn. */
  function Bracketed(path: seq<string>): seq<Event> {
    if path == [] then []
    else Bracketed(path[..|path| - 1]) + [NodeEnter(path[|path| - 1]), NodeExit(path[|path| - 1])]
  }

  predicate Inner(e: Event) {
    !e.PipelineStart? && !e.PipelineEnd?
  }

  predicate Aside(e: Event) {
    e.ContextUpdate? || e.ParallelStart? || e.ParallelEnd?
  }

  lemma {:induction false} ProjectConcat(a: seq<Event>, b: seq<Event>)
    ensures Brackets(a + b) == Brackets(a) + Brackets(b)
    ensures Traversals(a + b) == Traversals(a) + Traversals(b)
  {
    if b == [] {
      assert a + b == a;
    } else {
      ProjectConcat(a, b[..|b| - 1]);
      assert (a + b)[..|a + b| - 1] == a + b[..|b| - 1];
    }
  }

  lemma {:induction false} AsidesInvisible(events: seq<Event>)
    requires AllAside(events)
    ensures Brackets(events) == [] && Traversals(events) == []
  {
    if events != [] {
      assert events[|events| - 1] in events;
      AsidesInvisible(events[..|events| - 1]);
    }
  }

  ghost predicate AllInner(events: seq<Event>) {
    forall e :: e in events ==> Inner(e)
  }

  ghost predicate AllAside(events: seq<Event>) {
    forall e :: e in events ==> Aside(e)
  }

  /** A trace in progress: opened once, not yet closed, and its node events enter and leave the
      nodes of the path one after the other. */
  ghost predicate Trace(events: seq<Event>, path: seq<string>) {
    && events != [] && events[0] == PipelineStart
    && AllInner(events[1..])
    && Brackets(events) == Bracketed(path)
  }

  lemma TraceExtend(events: seq<Event>, path: seq<string>, block: seq<Event>, path': seq<string>)
    requires Trace(events, path) && AllInner(block) && Bracketed(path') == Bracketed(path) + Brackets(block)
    ensures Trace(events + block, path') && Traversals(events + block) == Traversals(events) + Traversals(block)
  {
    ProjectConcat(events, block);
    assert (events + block)[1..] == events[1..] + block;
  }

  function VisitBlock(id: string, middle: seq<Event>): seq<Event> {
    [NodeEnter(id)] + middle + [NodeExit(id)]
  }

  lemma SingleProjects(e: Event)
    ensures Brackets([e]) == if e.NodeEnter? || e.NodeExit? then [e] else []
    ensures Traversals([e]) == if e.EdgeTraverse? then [e.edge] else []
  {
    assert [e][..0] == [];
  }

  lemma VisitBlockInner(id: string, middle: seq<Event>)
    requires AllAside(middle)
    ensures AllInner(VisitBlock(id, middle))
  {
  }

  lemma VisitBlockProjects(id: string, middle: seq<Event>)
    requires AllAside(middle)
    ensures Brackets(VisitBlock(id, middle)) == [NodeEnter(id), NodeExit(id)]
    ensures Traversals(VisitBlock(id, middle)) == []
  {
    ProjectConcat([NodeEnter(id)] + middle, [NodeExit(id)]);
    ProjectConcat([NodeEnter(id)], middle);
    AsidesInvisible(middle);
    SingleProjects(NodeEnter(id));
    SingleProjects(NodeExit(id));
  }

  lemma TraceVisit(events: seq<Event>, path: seq<string>, id: string, middle: seq<Event>)
    requires Trace(events, path) && AllAside(middle)
    ensures Trace(events + VisitBlock(id, middle), path + [id])
    ensures Traversals(events + VisitBlock(id, middle)) == Traversals(events)
  {
    VisitBlockProjects(id, middle);
    VisitBlockInner(id, middle);
    assert (path + [id])[..|path|] == path;
    TraceExtend(events, path, VisitBlock(id, middle), path + [id]);
  }

  lemma StepBlockProjects(asides: seq<Event>, e: Edge)
    requires AllAside(asides)
    ensures AllInner(asides + [EdgeTraverse(e)])
    ensures Brackets(asides + [EdgeTraverse(e)]) == []
    ensures Traversals(asides + [EdgeTraverse(e)]) == [e]
  {
    ProjectConcat(asides, [EdgeTraverse(e)]);
    AsidesInvisible(asides);
    SingleProjects(EdgeTraverse(e));
  }

  lemma TraceStep(events: seq<Event>, path: seq<string>, asides: seq<Event>, e: Edge)
    requires Trace(events, path) && AllAside(asides)
    ensures Trace(events + (asides + [EdgeTraverse(e)]), path)
    ensures Traversals(events + (asides + [EdgeTraverse(e)])) == Traversals(events) + [e]
  {
    StepBlockProjects(asides, e);
    TraceExtend(events, path, asides + [EdgeTraverse(e)], path);
  }
}
