/** Layer assignment for drawing a workflow: longest-path distances computed with Kahn's
    algorithm over the non-restart edges, and the grouping of nodes by distance. */
module Layering {
  import opened IR
  import opened Graphs
  import opened Adjacency
  import opened ImpliedEdges
  import opened Kahn

  /** A missing entry reads as zero. */
  function Get(m: map<string, int>, x: string): int {
    if x in m then m[x] else 0
  }

  // ----- what the distances mean

  /** Where distances start out: zero at the start node, minus one at every other declared node. */
  function Initial(start: string, declared: set<string>, x: string): int {
    if x == start || x !in declared then 0 else -1
  }

  ghost predicate WalkTo(adj: Adj, p: seq<string>, v: string) {
    Walk(adj, p) && p[|p| - 1] == v
  }

  /** What a walk provides: where distances start out at its first node, plus its length. */
  ghost function Provides(start: string, declared: set<string>, p: seq<string>): int {
    if p == [] then 0 else Initial(start, declared, p[0]) + |p| - 1
  }

  ghost predicate Attained(adj: Adj, start: string, declared: set<string>, v: string, d: int) {
    exists p :: WalkTo(adj, p, v) && Provides(start, declared, p) == d
  }

  ghost predicate Dominates(adj: Adj, start: string, declared: set<string>, v: string, d: int) {
    forall p :: WalkTo(adj, p, v) ==> Provides(start, declared, p) <= d
  }

  /** The distance of v is the largest that any walk ending in v provides. */
  ghost predicate Longest(adj: Adj, start: string, declared: set<string>, v: string, d: int) {
    Attained(adj, start, declared, v, d) && Dominates(adj, start, declared, v, d)
  }

  // ----- relaxation

  ghost predicate SoundAt(adj: Adj, start: string, declared: set<string>, dist: map<string, int>, v: string) {
    && Attained(adj, start, declared, v, Get(dist, v))
    && Get(dist, v) >= Initial(start, declared, v)
    && (v in dist <==> v in declared || v == start || Get(dist, v) > 0)
  }

  ghost predicate Sound(adj: Adj, start: string, declared: set<string>, dist: map<string, int>) {
    forall v :: SoundAt(adj, start, declared, dist, v)
  }

  ghost predicate Passed(dist: map<string, int>, u: string, vs: seq<string>) {
    forall v :: v in vs ==> Get(dist, u) < Get(dist, v)
  }

  /** Every edge out of a finished node is respected. */
  ghost predicate Respected(adj: Adj, done: set<string>, dist: map<string, int>) {
    forall u :: u in done ==> Passed(dist, u, Succ(adj, u))
  }

  lemma InitialSound(adj: Adj, start: string, declared: set<string>, dist: map<string, int>)
    requires dist.Keys == declared + {start}
    requires forall x :: x in dist ==> dist[x] == Initial(start, declared, x)
    ensures Sound(adj, start, declared, dist)
  {
    forall v ensures SoundAt(adj, start, declared, dist, v) {
      assert WalkTo(adj, [v], v) && Provides(start, declared, [v]) == Get(dist, v);
    }
  }

  function Relaxed(dist: map<string, int>, u: string, v: string): map<string, int> {
    if Get(dist, u) + 1 > Get(dist, v) then dist[v := Get(dist, u) + 1] else dist
  }

  lemma RelaxSound(adj: Adj, start: string, declared: set<string>, dist: map<string, int>, u: string, v: string)
    requires Sound(adj, start, declared, dist) && v in Succ(adj, u)
    ensures Sound(adj, start, declared, Relaxed(dist, u, v))
  {
    assert SoundAt(adj, start, declared, dist, u) && SoundAt(adj, start, declared, dist, v);
    var p :| WalkTo(adj, p, u) && Provides(start, declared, p) == Get(dist, u);
    WalkStep(adj, p, v);
    assert WalkTo(adj, p + [v], v) && Provides(start, declared, p + [v]) == Get(dist, u) + 1;
    forall x ensures SoundAt(adj, start, declared, Relaxed(dist, u, v), x) {
      assert SoundAt(adj, start, declared, dist, x);
    }
  }

  lemma RelaxPasses(dist: map<string, int>, u: string, v: string, vs: seq<string>)
    requires Passed(dist, u, vs) && u != v
    ensures Passed(Relaxed(dist, u, v), u, vs + [v])
  {
    assert Get(Relaxed(dist, u, v), u) == Get(dist, u);
  }

  lemma RelaxRespects(adj: Adj, done: set<string>, dist: map<string, int>, u: string, v: string)
    requires Respected(adj, done, dist) && v !in done
    ensures Respected(adj, done, Relaxed(dist, u, v))
  {
    var dist' := Relaxed(dist, u, v);
    forall x | x in done ensures Passed(dist', x, Succ(adj, x)) {
      assert Passed(dist, x, Succ(adj, x)) && Get(dist', x) == Get(dist, x);
    }
  }

  /** Part of the list of u has been relaxed. */
  ghost predicate Relaxing(adj: Adj, start: string, declared: set<string>, done: set<string>,
                           u: string, passed: seq<string>, dist: map<string, int>)
  {
    Sound(adj, start, declared, dist) && Respected(adj, done - {u}, dist) && Passed(dist, u, passed)
  }

  lemma RelaxStep(adj: Adj, start: string, declared: set<string>, done: set<string>, u: string, i: nat, dist: map<string, int>)
    requires i < |Succ(adj, u)| && u in done && Succ(adj, u)[i] !in done
    requires Relaxing(adj, start, declared, done, u, Succ(adj, u)[..i], dist)
    ensures Relaxing(adj, start, declared, done, u, Succ(adj, u)[..i + 1], Relaxed(dist, u, Succ(adj, u)[i]))
  {
    var v := Succ(adj, u)[i];
    RelaxSound(adj, start, declared, dist, u, v);
    RelaxPasses(dist, u, v, Succ(adj, u)[..i]);
    RelaxRespects(adj, done - {u}, dist, u, v);
    assert Succ(adj, u)[..i + 1] == Succ(adj, u)[..i] + [v];
  }

  lemma RelaxedAll(adj: Adj, start: string, declared: set<string>, done: set<string>, u: string, dist: map<string, int>)
    requires u in done && Relaxing(adj, start, declared, done, u, Succ(adj, u), dist)
    ensures Sound(adj, start, declared, dist) && Respected(adj, done, dist)
  {
  }

  /** When every edge is respected, distances dominate all walks. */
  lemma {:induction false} RespectedDominates(adj: Adj, start: string, declared: set<string>, dist: map<string, int>, p: seq<string>)
    requires Sound(adj, start, declared, dist)
    requires forall u :: Passed(dist, u, Succ(adj, u))
    requires Walk(adj, p)
    ensures Provides(start, declared, p) <= Get(dist, p[|p| - 1])
  {
    if |p| > 1 {
      var n := |p| - 1;
      WalkPart(adj, p, 0, n);
      assert p[0..n][n - 1] == p[n - 1] && p[0..n][0] == p[0];
      RespectedDominates(adj, start, declared, dist, p[0..n]);
      assert p[n - 1 + 1] in Succ(adj, p[n - 1]);
      assert Passed(dist, p[n - 1], Succ(adj, p[n - 1]));
    } else {
      assert SoundAt(adj, start, declared, dist, p[0]);
    }
  }

  // ----- the algorithm

  class LongestPaths {
    const adj: Adj
    var inDeg: map<string, int>
    var dist: map<string, int>
    var queue: seq<string>

    constructor (adj: Adj)
      ensures this.adj == adj && inDeg == map[] && dist == map[] && queue == []
    {
      this.adj := adj;
      inDeg, dist, queue := map[], map[], [];
    }

    /** Counts the adjacency; the lists are taken in an arbitrary order. */
    method BuildInDegree(w: Workflow)
      modifies this`inDeg
      ensures forall v :: v in inDeg <==> v in NodeIds(w.nodes) || exists u :: v in Succ(adj, u)
      ensures forall v :: v in inDeg ==> inDeg[v] == InCount(adj, adj.Keys, v)
    {
      inDeg := map id | id in NodeIds(w.nodes) :: 0;
      var todo := adj.Keys;
      ghost var seen: set<string> := {};
      while todo != {}
        invariant todo <= adj.Keys && seen == adj.Keys - todo
        invariant forall v :: v in inDeg <==> v in NodeIds(w.nodes) || exists u :: u in seen && v in Succ(adj, u)
        invariant forall v :: Get(inDeg, v) == InCount(adj, seen, v)
      {
        var u :| u in todo;
        CountNeighbors(adj[u]);
        forall v ensures Get(inDeg, v) == InCount(adj, seen + {u}, v) {
          InCountRemove(adj, seen + {u}, u, v);
          assert seen + {u} - {u} == seen;
        }
        seen := seen + {u};
        todo := todo - {u};
      }
      assert seen == adj.Keys;
    }

    method CountNeighbors(neighbors: seq<string>)
      modifies this`inDeg
      ensures inDeg.Keys == old(inDeg.Keys) + Elements(neighbors)
      ensures forall v :: Get(inDeg, v) == Get(old(inDeg), v) + Occurrences(neighbors, v)
    {
      for i := 0 to |neighbors|
        invariant inDeg.Keys == old(inDeg.Keys) + Elements(neighbors[..i])
        invariant forall v :: Get(inDeg, v) == Get(old(inDeg), v) + Occurrences(neighbors[..i], v)
      {
        var to := neighbors[i];
        assert neighbors[..i + 1] == neighbors[..i] + [to];
        assert neighbors[..i + 1][..i] == neighbors[..i];
        inDeg := inDeg[to := Get(inDeg, to) + 1];
      }
      assert neighbors[..|neighbors|] == neighbors;
    }

    method InitDistances(w: Workflow)
      modifies this`dist
      ensures dist.Keys == NodeIds(w.nodes) + {w.start}
      ensures forall x :: x in dist ==> dist[x] == Initial(w.start, NodeIds(w.nodes), x)
    {
      dist := map id | id in NodeIds(w.nodes) :: -1;
      dist := dist[w.start := 0];
    }

    /** The nodes of in-degree zero, in an arbitrary order. */
    method CollectZeroInDegree()
      modifies this`queue
      ensures NoDup(queue)
      ensures forall x :: x in queue <==> x in inDeg && inDeg[x] == 0
    {
      queue := [];
      var todo := inDeg.Keys;
      while todo != {}
        invariant todo <= inDeg.Keys && NoDup(queue)
        invariant forall x :: x in queue <==> x in inDeg && x !in todo && inDeg[x] == 0
      {
        var id :| id in todo;
        if inDeg[id] == 0 {
          queue := queue + [id];
        }
        todo := todo - {id};
      }
    }

    method CountDown(nb: string, ghost rest: set<string>, ghost tail: seq<string>, ghost done: set<string>)
      requires Counted(adj, rest, [nb] + tail, done, queue, inDeg) && nb in inDeg
      modifies this`queue, this`inDeg
      ensures Counted(adj, rest, tail, done, queue, inDeg) && inDeg.Keys == old(inDeg.Keys)
    {
      TakeOff(adj, rest, nb, tail, done, queue, inDeg);
      inDeg := inDeg[nb := inDeg[nb] - 1];
      if inDeg[nb] == 0 {
        queue := queue + [nb];
      }
    }

    method RelaxNeighbors(cur: string, ghost start: string, ghost declared: set<string>, ghost rest: set<string>, ghost done: set<string>)
      requires Counted(adj, rest, Succ(adj, cur), done, queue, inDeg) && cur in done
      requires Elements(Succ(adj, cur)) <= inDeg.Keys
      requires Sound(adj, start, declared, dist) && Respected(adj, done - {cur}, dist)
      modifies this`queue, this`dist, this`inDeg
      ensures Counted(adj, rest, [], done, queue, inDeg) && inDeg.Keys == old(inDeg.Keys)
      ensures Sound(adj, start, declared, dist) && Respected(adj, done, dist)
    {
      var neighbors := Succ(adj, cur);
      for i := 0 to |neighbors|
        invariant Counted(adj, rest, neighbors[i..], done, queue, inDeg) && inDeg.Keys == old(inDeg.Keys)
        invariant Relaxing(adj, start, declared, done, cur, neighbors[..i], dist)
      {
        var nb := neighbors[i];
        assert nb in Elements(neighbors);
        assert neighbors[i..] == [nb] + neighbors[i + 1..];
        assert nb !in done by { TakeOff(adj, rest, nb, neighbors[i + 1..], done, queue, inDeg); }
        RelaxStep(adj, start, declared, done, cur, i, dist);
        if Get(dist, cur) + 1 > Get(dist, nb) {
          dist := dist[nb := Get(dist, cur) + 1];
        }
        CountDown(nb, rest, neighbors[i + 1..], done);
      }
      assert neighbors[..|neighbors|] == neighbors;
      assert neighbors[|neighbors|..] == [];
      RelaxedAll(adj, start, declared, done, cur, dist);
    }

    method ProcessQueue(ghost start: string, ghost declared: set<string>, ghost all: set<string>) returns (ghost done: set<string>)
      requires Counted(adj, all, [], {}, queue, inDeg) && inDeg.Keys <= all
      requires forall u :: Elements(Succ(adj, u)) <= inDeg.Keys
      requires Sound(adj, start, declared, dist)
      modifies this`queue, this`dist, this`inDeg
      ensures Counted(adj, all - done, [], done, [], inDeg) && inDeg.Keys == old(inDeg.Keys)
      ensures Sound(adj, start, declared, dist) && Respected(adj, done, dist)
    {
      done := {};
      assert all - done == all;
      while |queue| > 0
        invariant Counted(adj, all - done, [], done, queue, inDeg) && inDeg.Keys == old(inDeg.Keys)
        invariant Sound(adj, start, declared, dist) && Respected(adj, done, dist)
        decreases inDeg.Keys - done
      {
        var cur := queue[0];
        assert cur in queue;
        PopQueue(adj, all - done, done, queue, inDeg);
        queue := queue[1..];
        assert all - done - {cur} == all - (done + {cur});
        assert done + {cur} - {cur} == done;
        done := done + {cur};
        RelaxNeighbors(cur, start, declared, all - done, done);
      }
      assert queue == [];
    }
  }

  // ----- the distances of an acyclic graph

  /** Every edge leaves a declared node. */
  ghost predicate SourcesDeclared(adj: Adj, w: Workflow) {
    forall u :: Succ(adj, u) != [] ==> u in NodeIds(w.nodes)
  }

  /** What the distances are, whatever the order in which the queue was filled. */
  ghost predicate AreDistances(adj: Adj, w: Workflow, dist: map<string, int>) {
    && (forall v :: Longest(adj, w.start, NodeIds(w.nodes), v, Get(dist, v)))
    && (forall v :: v in dist <==> v in NodeIds(w.nodes) || v == w.start || Get(dist, v) > 0)
    && (forall u, v :: v in Succ(adj, u) ==> Get(dist, u) < Get(dist, v))
  }

  method ComputeLongestPaths(w: Workflow, adj: Adj) returns (dist: map<string, int>)
    ensures Acyclic(adj) && SourcesDeclared(adj, w) ==> AreDistances(adj, w, dist)
  {
    var run := new LongestPaths(adj);
    run.BuildInDegree(w);
    run.InitDistances(w);
    run.CollectZeroInDegree();
    ghost var declared := NodeIds(w.nodes);
    ghost var all := Universe(adj) + declared;
    InitialSound(adj, w.start, declared, run.dist);
    InitialCounted(adj, all, run.queue, run.inDeg);
    forall u ensures Elements(Succ(adj, u)) <= run.inDeg.Keys {
      forall v | v in Succ(adj, u) ensures v in run.inDeg {}
    }
    assert run.inDeg.Keys <= all by {
      forall v | v in run.inDeg ensures v in all {
        if v !in declared {
          var u :| v in Succ(adj, u);
          SuccInUniverse(adj, u, v);
        }
      }
    }
    ghost var done := run.ProcessQueue(w.start, declared, all);
    dist := run.dist;
    if Acyclic(adj) && SourcesDeclared(adj, w) {
      EmptyQueueMeansDone(adj, all - done, done, run.inDeg);
      FinalDistances(adj, w, done, dist);
    }
  }

  lemma InitialCounted(adj: Adj, all: set<string>, queue: seq<string>, inDeg: map<string, int>)
    requires adj.Keys <= all && NoDup(queue)
    requires forall v :: v in inDeg ==> inDeg[v] == InCount(adj, adj.Keys, v)
    requires forall x :: x in queue <==> x in inDeg && inDeg[x] == 0
    ensures Counted(adj, all, [], {}, queue, inDeg)
  {
    forall v ensures Pending(adj, all, [], v) == InCount(adj, adj.Keys, v) {
      InCountKeys(adj, all, v);
    }
  }

  /** Nodes that are no keys add nothing to a count. */
  lemma {:induction false} InCountKeys(adj: Adj, all: set<string>, v: string)
    requires adj.Keys <= all
    ensures InCount(adj, all, v) == InCount(adj, adj.Keys, v)
    decreases |all|
  {
    if all != adj.Keys {
      var u :| u in all && u !in adj.Keys;
      InCountRemove(adj, all, u, v);
      InCountKeys(adj, all - {u}, v);
    }
  }

  lemma FinalDistances(adj: Adj, w: Workflow, done: set<string>, dist: map<string, int>)
    requires Sound(adj, w.start, NodeIds(w.nodes), dist) && Respected(adj, done, dist)
    requires NodeIds(w.nodes) <= done && SourcesDeclared(adj, w)
    ensures AreDistances(adj, w, dist)
  {
    var declared := NodeIds(w.nodes);
    forall u ensures Passed(dist, u, Succ(adj, u)) {
      if Succ(adj, u) != [] { assert u in done; }
    }
    forall v ensures Longest(adj, w.start, declared, v, Get(dist, v)) {
      assert SoundAt(adj, w.start, declared, dist, v);
      forall p | WalkTo(adj, p, v) ensures Provides(w.start, declared, p) <= Get(dist, v) {
        RespectedDominates(adj, w.start, declared, dist, p);
      }
    }
    forall v ensures v in dist <==> v in declared || v == w.start || Get(dist, v) > 0 {
      assert SoundAt(adj, w.start, declared, dist, v);
    }
    forall u, v | v in Succ(adj, u) ensures Get(dist, u) < Get(dist, v) {
      assert Passed(dist, u, Succ(adj, u));
    }
  }

  /** The order in which the nodes of in-degree zero are collected does not matter. */
  lemma OrderIndependent(adj: Adj, w: Workflow, dist: map<string, int>, dist': map<string, int>)
    requires AreDistances(adj, w, dist) && AreDistances(adj, w, dist')
    ensures dist == dist'
  {
    forall v ensures Get(dist, v) == Get(dist', v) {
      assert Longest(adj, w.start, NodeIds(w.nodes), v, Get(dist, v));
      assert Longest(adj, w.start, NodeIds(w.nodes), v, Get(dist', v));
    }
    assert forall v :: v in dist <==> v in dist';
    forall v | v in dist ensures dist[v] == dist'[v] {
      assert Get(dist, v) == Get(dist', v);
    }
  }

  // ----- when the start node is the only node of in-degree zero

  ghost predicate OnlyStartIsRoot(adj: Adj, w: Workflow) {
    && Universe(adj) <= NodeIds(w.nodes)
    && (forall x {:trigger HasPredecessorIn(adj, NodeIds(w.nodes), x)} ::
          x in NodeIds(w.nodes) && x != w.start ==> HasPredecessorIn(adj, NodeIds(w.nodes), x))
  }

  /** Every declared node is then reached from the start. */
  lemma AllReachedFromStart(adj: Adj, w: Workflow)
    requires Acyclic(adj) && OnlyStartIsRoot(adj, w)
    ensures forall x :: x in NodeIds(w.nodes) ==> Reaches(adj, w.start, x)
  {
    var lost := set x | x in NodeIds(w.nodes) && !Reaches(adj, w.start, x);
    if lost != {} {
      forall x | x in lost ensures HasPredecessorIn(adj, lost, x) {
        ReachesRefl(adj, w.start);
        assert HasPredecessorIn(adj, NodeIds(w.nodes), x);
        var u :| u in NodeIds(w.nodes) && x in Succ(adj, u);
        if Reaches(adj, w.start, u) {
          ReachesEdge(adj, u, x);
          ReachesTrans(adj, w.start, u, x);
        }
        assert u in lost;
      }
      BackwardsClosedHasCycle(adj, lost);
    }
    assert lost == {};
    forall x | x in NodeIds(w.nodes) ensures Reaches(adj, w.start, x) {
      assert x !in lost;
    }
  }

  ghost predicate LongestFromStart(adj: Adj, start: string, v: string, d: int) {
    && (exists p :: WalkBetween(adj, p, start, v) && |p| - 1 == d)
    && (forall p :: WalkBetween(adj, p, start, v) ==> |p| - 1 <= d)
  }

  /** A walk that does not begin at the start node is not one that provides the most. */
  lemma BestWalkFromStart(adj: Adj, w: Workflow, p: seq<string>, v: string, d: int)
    requires Acyclic(adj) && OnlyStartIsRoot(adj, w) && v in NodeIds(w.nodes) && WalkTo(adj, p, v)
    requires Dominates(adj, w.start, NodeIds(w.nodes), v, d) && Provides(w.start, NodeIds(w.nodes), p) == d
    ensures p[0] == w.start
  {
    var declared := NodeIds(w.nodes);
    if |p| > 1 {
      SuccInUniverse(adj, p[0], p[0 + 1]);
      assert p[0] in declared;
    } else {
      assert p[0] == v && p[0] in declared;
    }
    if p[0] != w.start {
      AllReachedFromStart(adj, w);
      var q :| WalkBetween(adj, q, w.start, p[0]);
      WalkJoin(adj, q, p);
      assert WalkTo(adj, q + p[1..], v);
    }
  }

  /** The distance of every declared node is the length of the longest walk from the start. */
  lemma DistanceFromStart(adj: Adj, w: Workflow, dist: map<string, int>, v: string)
    requires Acyclic(adj) && OnlyStartIsRoot(adj, w) && AreDistances(adj, w, dist) && v in NodeIds(w.nodes)
    ensures LongestFromStart(adj, w.start, v, Get(dist, v))
  {
    assert Longest(adj, w.start, NodeIds(w.nodes), v, Get(dist, v));
    LongestIsFromStart(adj, w, v, Get(dist, v));
  }

  lemma LongestIsFromStart(adj: Adj, w: Workflow, v: string, d: int)
    requires Acyclic(adj) && OnlyStartIsRoot(adj, w) && v in NodeIds(w.nodes)
    requires Longest(adj, w.start, NodeIds(w.nodes), v, d)
    ensures LongestFromStart(adj, w.start, v, d)
  {
    forall p | WalkBetween(adj, p, w.start, v) ensures |p| - 1 <= d {
      assert WalkTo(adj, p, v);
    }
    var p :| WalkTo(adj, p, v) && Provides(w.start, NodeIds(w.nodes), p) == d;
    BestWalkFromStart(adj, w, p, v, d);
    assert WalkBetween(adj, p, w.start, v);
  }

  // ----- layers

  method FindMaxLayer(dist: map<string, int>) returns (max: nat)
    ensures forall x :: x in dist ==> dist[x] <= max
    ensures max == 0 || exists x :: x in dist && dist[x] == max
  {
    max := 0;
    var todo := dist.Keys;
    while todo != {}
      invariant todo <= dist.Keys
      invariant forall x :: x in dist && x !in todo ==> dist[x] <= max
      invariant max == 0 || exists x :: x in dist && dist[x] == max
    {
      var x :| x in todo;
      if dist[x] > max {
        max := dist[x];
      }
      todo := todo - {x};
    }
  }

  /** Every node with a distance that is not negative is in the layer of that number, once, and
      in no other; nodes at minus one get no layer. */
  ghost predicate Layered(dist: map<string, int>, layers: seq<seq<string>>) {
    && (forall k :: 0 <= k < |layers| ==> NoDup(layers[k]))
    && (forall k, x :: 0 <= k < |layers| ==> (x in layers[k] <==> x in dist && dist[x] == k))
    && (forall x :: x in dist ==> dist[x] < |layers|)
  }

  /** Within a layer the order is arbitrary. */
  method GroupByLayer(dist: map<string, int>) returns (layers: seq<seq<string>>)
    ensures layers != [] && Layered(dist, layers)
    ensures |layers| == 1 || exists x :: x in dist && dist[x] == |layers| - 1
  {
    var max := FindMaxLayer(dist);
    layers := seq(max + 1, i => []);
    var todo := dist.Keys;
    while todo != {}
      invariant todo <= dist.Keys && |layers| == max + 1
      invariant forall k :: 0 <= k < |layers| ==> NoDup(layers[k])
      invariant forall k, x :: 0 <= k < |layers| ==> (x in layers[k] <==> x in dist && x !in todo && dist[x] == k)
    {
      var id :| id in todo;
      var d := dist[id];
      if d >= 0 {
        layers := layers[d := layers[d] + [id]];
      }
      todo := todo - {id};
    }
  }

  /** Along every edge the layer number grows. */
  ghost predicate LayersGrow(adj: Adj, layers: seq<seq<string>>) {
    forall u, v, i, j :: v in Succ(adj, u) && 0 <= i < |layers| && 0 <= j < |layers| && u in layers[i] && v in layers[j] ==> i < j
  }

  lemma DistancesGrow(adj: Adj, w: Workflow, dist: map<string, int>, layers: seq<seq<string>>)
    requires AreDistances(adj, w, dist) && Layered(dist, layers)
    ensures LayersGrow(adj, layers)
  {
    forall u, v, i, j | v in Succ(adj, u) && 0 <= i < |layers| && 0 <= j < |layers| && u in layers[i] && v in layers[j]
      ensures i < j
    {
      assert dist[u] == i && dist[v] == j && Get(dist, u) < Get(dist, v);
    }
  }

  /** The layers, with the adjacency and the distances that they come from. */
  method AssignLayers(w: Workflow) returns (layers: seq<seq<string>>, adj: Adj, dist: map<string, int>)
    ensures forall u :: Succ(adj, u) == ExplicitTargets(w.edges, u, false) + ImpliedTargets(w.nodes, u)
    ensures Draws(w, adj, false) && Layered(dist, layers)
    ensures Acyclic(adj) && SourcesDeclared(adj, w) ==> AreDistances(adj, w, dist) && LayersGrow(adj, layers)
  {
    adj := BuildForward(w, false);
    ForwardDraws(w, adj, false);
    dist := ComputeLongestPaths(w, adj);
    layers := GroupByLayer(dist);
    if Acyclic(adj) && SourcesDeclared(adj, w) {
      DistancesGrow(adj, w, dist, layers);
    }
  }
}
