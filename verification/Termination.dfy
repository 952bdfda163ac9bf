/** The termination report: forward search from the start, backward search from the exit, and
    the nodes that the first reaches and the second does not. */
module Termination {
  import opened IR
  import opened Graphs
  import opened Adjacency
  import opened ImpliedEdges
  import opened Sorting

  // ----- breadth-first search

  ghost predicate ReachedSet(adj: Adj, start: string, visited: set<string>) {
    forall x :: x in visited <==> Reaches(adj, start, x)
  }

  /** A visited set closed under successors is everything reachable. */
  lemma ClosedIsReached(adj: Adj, start: string, visited: set<string>)
    requires start in visited && forall x :: x in visited ==> Reaches(adj, start, x)
    requires forall u :: u in visited ==> Elements(Succ(adj, u)) <= visited
    ensures ReachedSet(adj, start, visited)
  {
    forall x | Reaches(adj, start, x) ensures x in visited {
      var p :| WalkBetween(adj, p, start, x);
      forall u, v | u in visited && v in Succ(adj, u) ensures v in visited {
        assert v in Elements(Succ(adj, u));
      }
      WalkStaysIn(adj, p, visited);
    }
  }

  class Search {
    const adj: Adj
    var visited: set<string>
    var queue: seq<string>

    constructor (adj: Adj, start: string)
      ensures this.adj == adj && visited == {start} && queue == [start]
    {
      this.adj := adj;
      visited, queue := {start}, [start];
    }

    /** Visited nodes are reachable, queued nodes are visited, and what is visited and no longer
        queued has all its successors visited. */
    ghost predicate Valid(start: string, all: set<string>)
      reads this
    {
      && start in visited && visited <= all
      && (forall x :: x in visited ==> Reaches(adj, start, x))
      && NoDup(queue) && Elements(queue) <= visited
      && (forall u :: u in visited && u !in queue ==> Elements(Succ(adj, u)) <= visited)
    }

    method Expand(curr: string, ghost start: string, ghost all: set<string>)
      requires curr in visited && curr !in queue && visited <= all && Universe(adj) <= all && start in visited
      requires forall x :: x in visited ==> Reaches(adj, start, x)
      requires NoDup(queue) && Elements(queue) <= visited
      requires forall u :: u in visited && u !in queue && u != curr ==> Elements(Succ(adj, u)) <= visited
      modifies this`visited, this`queue
      ensures Valid(start, all) && old(visited) <= visited
      ensures Elements(queue) == Elements(old(queue)) + (visited - old(visited))
    {
      var nexts := Succ(adj, curr);
      for i := 0 to |nexts|
        invariant old(visited) <= visited <= all
        invariant forall x :: x in visited ==> Reaches(adj, start, x)
        invariant NoDup(queue) && Elements(queue) == Elements(old(queue)) + (visited - old(visited))
        invariant forall u :: u in visited && u !in queue && u != curr ==> Elements(Succ(adj, u)) <= visited
        invariant Elements(nexts[..i]) <= visited
      {
        var next := nexts[i];
        assert nexts[..i + 1] == nexts[..i] + [next];
        if next !in visited {
          ReachesEdge(adj, curr, next);
          ReachesTrans(adj, start, curr, next);
          SuccInUniverse(adj, curr, next);
          QueueGrows(queue, next, visited);
          visited := visited + {next};
          queue := queue + [next];
        }
      }
      assert nexts[..|nexts|] == nexts;
    }
  }

  lemma QueueGrows(queue: seq<string>, next: string, visited: set<string>)
    requires NoDup(queue) && Elements(queue) <= visited && next !in visited
    ensures NoDup(queue + [next]) && Elements(queue + [next]) == Elements(queue) + {next}
  {
    assert next !in Elements(queue);
  }

  /** The set of nodes reachable from the start. */
  method BfsFrom(start: string, adj: Adj) returns (visited: set<string>)
    ensures ReachedSet(adj, start, visited)
  {
    var s := new Search(adj, start);
    ghost var all := Universe(adj) + {start};
    ReachesRefl(adj, start);
    while |s.queue| > 0
      invariant s.adj == adj && s.Valid(start, all)
      decreases all - s.visited, |s.queue|
    {
      var curr := s.queue[0];
      ghost var before := s.queue;
      assert curr in Elements(s.queue);
      NoDupTail(s.queue);
      s.queue := s.queue[1..];
      assert before == [curr] + s.queue;
      ghost var visited0, queue0 := s.visited, s.queue;
      s.Expand(curr, start, all);
      if s.visited == visited0 {
        SameLength(s.queue, queue0);
      }
    }
    visited := s.visited;
    ClosedIsReached(adj, start, visited);
  }

  lemma SameLength(a: seq<string>, b: seq<string>)
    requires NoDup(a) && NoDup(b) && Elements(a) == Elements(b)
    ensures |a| == |b|
  {
    Cardinality(a);
    Cardinality(b);
  }

  lemma {:induction false} Cardinality(s: seq<string>)
    requires NoDup(s)
    ensures |Elements(s)| == |s|
  {
    if s != [] {
      NoDupTail(s);
      assert s == [s[0]] + s[1..];
      assert Elements(s) == {s[0]} + Elements(s[1..]);
      assert s[0] !in Elements(s[1..]);
      Cardinality(s[1..]);
    }
  }

  // ----- backwards is the converse of forwards

  ghost predicate AreTransposed(fwd: Adj, rev: Adj) {
    forall u, v :: v in Succ(fwd, u) <==> u in Succ(rev, v)
  }

  lemma {:induction false} ReverseWalk(fwd: Adj, rev: Adj, p: seq<string>)
    requires AreTransposed(fwd, rev) && Walk(fwd, p)
    ensures Reaches(rev, p[|p| - 1], p[0])
  {
    if |p| == 1 {
      ReachesRefl(rev, p[0]);
    } else {
      WalkPart(fwd, p, 1, |p|);
      assert p[1..][|p| - 2] == p[|p| - 1];
      ReverseWalk(fwd, rev, p[1..]);
      assert p[0 + 1] in Succ(fwd, p[0]);
      ReachesEdge(rev, p[1], p[0]);
      ReachesTrans(rev, p[|p| - 1], p[1], p[0]);
    }
  }

  lemma ReachesConverse(fwd: Adj, rev: Adj, u: string, v: string)
    requires AreTransposed(fwd, rev)
    ensures Reaches(fwd, u, v) <==> Reaches(rev, v, u)
  {
    if Reaches(fwd, u, v) {
      var p :| WalkBetween(fwd, p, u, v);
      ReverseWalk(fwd, rev, p);
    }
    if Reaches(rev, v, u) {
      var p :| WalkBetween(rev, p, v, u);
      ReverseWalk(rev, fwd, p);
    }
  }

  // ----- the report

  /** The edges of the whole workflow, restart and implied ones included. */
  ghost predicate IsWhole(w: Workflow, adj: Adj) {
    forall u :: Succ(adj, u) == ExplicitTargets(w.edges, u, true) + ImpliedTargets(w.nodes, u)
  }

  /** Reachable from the start, but not on a way to the exit. */
  ghost predicate IsSink(w: Workflow, adj: Adj, x: string) {
    Reaches(adj, w.start, x) && !Reaches(adj, x, w.exit)
  }

  method FindSinkNodes(reachable: set<string>, canReachExit: set<string>) returns (sinks: seq<string>)
    ensures Listing(sinks, reachable - canReachExit)
  {
    var found: set<string> := {};
    var todo := reachable;
    while todo != {}
      invariant todo <= reachable && found == (reachable - todo) - canReachExit
    {
      var id :| id in todo;
      if id !in canReachExit {
        found := found + {id};
      }
      todo := todo - {id};
    }
    sinks := SortedMembers(found);
  }

  /** The report is exact: the sinks, each once and in sorted order, are the nodes that the start
      leads to and from which the exit cannot be reached; all paths are said to terminate
      exactly when there are none. The forward adjacency is returned with it. */
  method AnalyzeTermination(w: Workflow) returns (allTerminate: bool, sinks: seq<string>, fwd: Adj)
    ensures IsWhole(w, fwd) && Draws(w, fwd, true)
    ensures Sorted(sinks) && NoDup(sinks) && forall x :: x in sinks <==> IsSink(w, fwd, x)
    ensures allTerminate <==> forall x :: Reaches(fwd, w.start, x) ==> Reaches(fwd, x, w.exit)
  {
    fwd := BuildForward(w, true);
    var reachable := BfsFrom(w.start, fwd);
    var rev := BuildReverse(w);
    var canReachExit := BfsFrom(w.exit, rev);
    sinks := FindSinkNodes(reachable, canReachExit);
    allTerminate := |sinks| == 0;
    ForwardDraws(w, fwd, true);
    SinksExact(w, fwd, rev, reachable, canReachExit, sinks);
  }

  lemma SinksExact(w: Workflow, fwd: Adj, rev: Adj, reachable: set<string>, canReachExit: set<string>, sinks: seq<string>)
    requires IsWhole(w, fwd)
    requires forall v :: Succ(rev, v) == ExplicitSources(w.edges, v) + ImpliedSources(w.nodes, v)
    requires ReachedSet(fwd, w.start, reachable) && ReachedSet(rev, w.exit, canReachExit)
    requires Listing(sinks, reachable - canReachExit)
    ensures forall x :: x in sinks <==> IsSink(w, fwd, x)
    ensures |sinks| == 0 <==> forall x :: Reaches(fwd, w.start, x) ==> Reaches(fwd, x, w.exit)
  {
    forall u, v ensures v in Succ(fwd, u) <==> u in Succ(rev, v) {
      Transpose(w, fwd, rev, u, v);
    }
    forall x ensures x in sinks <==> IsSink(w, fwd, x) {
      ReachesConverse(fwd, rev, x, w.exit);
      assert x in sinks <==> x in Elements(sinks);
    }
    if |sinks| != 0 {
      assert sinks[0] in sinks && IsSink(w, fwd, sinks[0]);
    } else {
      forall x | Reaches(fwd, w.start, x) ensures Reaches(fwd, x, w.exit) {
        assert x !in sinks;
      }
    }
  }
}
