/** The bookkeeping of Kahn's algorithm, shared by the layering and the data-flow analysis:
    in-degree counters, the work queue, and why the queue reaches every node of an acyclic graph. */
module Kahn {
  import opened Graphs
  import opened Adjacency

  /** The number of edges, with multiplicity, from nodes of s to v. */
  ghost function InCount(adj: Adj, s: set<string>, v: string): nat {
    if s == {} then 0
    else
      var u :| u in s;
      Occurrences(Succ(adj, u), v) + InCount(adj, s - {u}, v)
  }

  /** The choice made in the definition of InCount does not matter. */
  lemma {:induction false} InCountRemove(adj: Adj, s: set<string>, u: string, v: string)
    requires u in s
    ensures InCount(adj, s, v) == Occurrences(Succ(adj, u), v) + InCount(adj, s - {u}, v)
    decreases |s|
  {
    var first :| first in s && InCount(adj, s, v) == Occurrences(Succ(adj, first), v) + InCount(adj, s - {first}, v);
    if first != u {
      InCountRemove(adj, s - {first}, u, v);
      InCountRemove(adj, s - {u}, first, v);
      assert s - {first} - {u} == s - {u} - {first};
    }
  }

  lemma {:induction false} InCountZero(adj: Adj, s: set<string>, v: string)
    ensures InCount(adj, s, v) == 0 <==> forall u :: u in s ==> v !in Succ(adj, u)
  {
    if s != {} {
      var u :| u in s;
      InCountRemove(adj, s, u, v);
      InCountZero(adj, s - {u}, v);
      OccursIn(Succ(adj, u), v);
    }
  }

  lemma {:induction false} InCountSame(adj: Adj, adj': Adj, s: set<string>, v: string)
    requires forall u :: u in s ==> Succ(adj, u) == Succ(adj', u)
    ensures InCount(adj, s, v) == InCount(adj', s, v)
  {
    if s != {} {
      var u :| u in s;
      InCountRemove(adj, s, u, v);
      InCountRemove(adj', s, u, v);
      InCountSame(adj, adj', s - {u}, v);
    }
  }

  /** Appending one edge raises one count by one. */
  lemma InCountAppend(adj: Adj, s: set<string>, u: string, x: string, v: string)
    requires u in s
    ensures InCount(Append(adj, u, [x]), s, v) == InCount(adj, s, v) + if x == v then 1 else 0
  {
    var adj' := Append(adj, u, [x]);
    InCountRemove(adj, s, u, v);
    InCountRemove(adj', s, u, v);
    InCountSame(adj, adj', s - {u}, v);
    OccurrencesConcat(Succ(adj, u), [x], v);
  }

  /** Edges into v that have not been taken off its counter: all those from the remaining nodes
      and the rest of the list that is being worked off. */
  ghost function Pending(adj: Adj, rest: set<string>, tail: seq<string>, v: string): nat {
    InCount(adj, rest, v) + Occurrences(tail, v)
  }

  /** The counters count the pending edges, and the queue holds exactly the nodes without pending
      edges that have not been taken out of it. */
  ghost predicate Counted(adj: Adj, rest: set<string>, tail: seq<string>, done: set<string>,
                          queue: seq<string>, inDeg: map<string, int>)
  {
    && done <= inDeg.Keys
    && (forall v :: v in inDeg ==> inDeg[v] == Pending(adj, rest, tail, v))
    && NoDup(queue)
    && (forall x :: x in queue <==> x in inDeg && x !in done && Pending(adj, rest, tail, x) == 0)
    && (forall x :: x in done ==> Pending(adj, rest, tail, x) == 0)
  }

  lemma PopQueue(adj: Adj, rest: set<string>, done: set<string>, queue: seq<string>, inDeg: map<string, int>)
    requires Counted(adj, rest, [], done, queue, inDeg) && queue != [] && queue[0] in rest
    ensures Counted(adj, rest - {queue[0]}, Succ(adj, queue[0]), done + {queue[0]}, queue[1..], inDeg)
    ensures queue[0] in inDeg && queue[0] !in done
  {
    var cur := queue[0];
    assert cur in queue;
    NoDupTail(queue);
    forall v ensures Pending(adj, rest, [], v) == Pending(adj, rest - {cur}, Succ(adj, cur), v) {
      InCountRemove(adj, rest, cur, v);
    }
    assert forall x :: x in queue <==> x == cur || x in queue[1..];
  }

  /** Taking one edge off the counter of its target, and queueing the target at zero. */
  lemma TakeOff(adj: Adj, rest: set<string>, nb: string, tail: seq<string>, done: set<string>,
                queue: seq<string>, inDeg: map<string, int>)
    requires Counted(adj, rest, [nb] + tail, done, queue, inDeg) && nb in inDeg
    ensures var inDeg' := inDeg[nb := inDeg[nb] - 1];
            Counted(adj, rest, tail, done, if inDeg'[nb] == 0 then queue + [nb] else queue, inDeg')
    ensures nb !in done
  {
    forall v ensures Pending(adj, rest, [nb] + tail, v) == Pending(adj, rest, tail, v) + if v == nb then 1 else 0 {
      OccurrencesConcat([nb], tail, v);
    }
    assert Pending(adj, rest, [nb] + tail, nb) > 0;
    assert nb !in queue;
  }

  /** In an acyclic graph whose edges all leave counted nodes, an empty queue means that every
      counted node has been taken out. */
  lemma EmptyQueueMeansDone(adj: Adj, rest: set<string>, done: set<string>, inDeg: map<string, int>)
    requires Acyclic(adj) && Counted(adj, rest, [], done, [], inDeg) && rest !! done
    requires forall u :: Succ(adj, u) != [] ==> u in inDeg
    ensures done == inDeg.Keys
  {
    var left := inDeg.Keys - done;
    assert inDeg.Keys == done + left;
    if left != {} {
      forall x | x in left ensures HasPredecessorIn(adj, left, x) {
        assert Pending(adj, rest, [], x) != 0;
        InCountZero(adj, rest, x);
        var u :| u in rest && x in Succ(adj, u);
        assert u in left;
      }
      BackwardsClosedHasCycle(adj, left);
    }
  }
}
