/** The reachability diagnostics (validator/validate.go), and what they say together with the
    termination report (coverage/coverage.go). */
module Reachability {
  import opened IR
  import opened Graphs
  import opened Adjacency
  import opened ImpliedEdges
  import opened Termination

  /** The IDs of the declared nodes outside a set, in declaration order. */
  function Outside(nodes: seq<Node>, visited: set<string>): seq<string> {
    if nodes == [] then []
    else (if nodes[0].id in visited then [] else [nodes[0].id]) + Outside(nodes[1..], visited)
  }

  lemma {:induction false} OutsideMembers(nodes: seq<Node>, visited: set<string>)
    ensures forall x :: x in Outside(nodes, visited) <==> x in NodeIds(nodes) && x !in visited
    decreases |nodes|
  {
    if nodes != [] {
      NodeIdsCons(nodes);
      OutsideMembers(nodes[1..], visited);
    }
  }

  /** Node by node, in order. */
  lemma {:induction false} OutsideJoin(a: seq<Node>, b: seq<Node>, visited: set<string>)
    ensures Outside(a + b, visited) == Outside(a, visited) + Outside(b, visited)
  {
    if a == [] {
      assert a + b == b;
    } else {
      assert (a + b)[1..] == a[1..] + b;
      OutsideJoin(a[1..], b, visited);
    }
  }

  method FindUnreachableNodes(w: Workflow, visited: set<string>) returns (diags: seq<string>)
    ensures diags == Outside(w.nodes, visited)
  {
    diags := [];
    assert w.nodes[0..] == w.nodes;
    for i := 0 to |w.nodes|
      invariant diags + Outside(w.nodes[i..], visited) == Outside(w.nodes, visited)
    {
      assert w.nodes[i..][1..] == w.nodes[i + 1..];
      if w.nodes[i].id !in visited {
        diags := diags + [w.nodes[i].id];
      }
    }
  }

  /** Without a declared start nothing is reported; otherwise exactly the declared nodes that no walk
      from the start leads to, restart and implied edges included. The adjacency is returned with the report. */
  method CheckReachability(w: Workflow) returns (diags: seq<string>, adj: Adj)
    ensures IsWhole(w, adj) && Draws(w, adj, true)
    ensures w.start == "" || w.start !in NodeIds(w.nodes) ==> diags == []
    ensures w.start != "" && w.start in NodeIds(w.nodes) ==>
      forall x :: x in diags <==> x in NodeIds(w.nodes) && !Reaches(adj, w.start, x)
  {
    adj := BuildForward(w, true);
    ForwardDraws(w, adj, true);
    if w.start == "" || FindNode(w.nodes, w.start) == None {
      return [], adj;
    }
    var visited := BfsFrom(w.start, adj);
    diags := FindUnreachableNodes(w, visited);
    OutsideMembers(w.nodes, visited);
  }

  ghost predicate OnAWay(adj: Adj, start: string, x: string, exit: string) {
    exists p :: WalkBetween(adj, p, start, exit) && x in p
  }

  lemma Through(adj: Adj, start: string, x: string, exit: string)
    requires Reaches(adj, start, x) && Reaches(adj, x, exit)
    ensures OnAWay(adj, start, x, exit)
  {
    var p :| WalkBetween(adj, p, start, x);
    var q :| WalkBetween(adj, q, x, exit);
    WalkJoin(adj, p, q);
    assert (p + q[1..])[|p| - 1] == x;
  }

  lemma SameReach(adj: Adj, adj': Adj, u: string, v: string)
    requires (forall x :: Succ(adj, x) == Succ(adj', x)) && Reaches(adj, u, v)
    ensures Reaches(adj', u, v)
  {
    var p :| WalkBetween(adj, p, u, v);
    forall i | 0 <= i < |p| - 1 ensures p[i + 1] in Succ(adj', p[i]) {
      assert Succ(adj, p[i]) == Succ(adj', p[i]);
    }
    assert WalkBetween(adj', p, u, v);
  }

  /** When the validator reports no unreachable node and the coverage tool no sink, every declared node
      lies on a walk from the start to the exit; the two tools build their adjacencies separately. */
  lemma EveryNodeOnAWay(w: Workflow, adj: Adj, adj': Adj)
    requires IsWhole(w, adj) && IsWhole(w, adj')
    requires forall x :: x in NodeIds(w.nodes) ==> Reaches(adj, w.start, x)
    requires forall x :: Reaches(adj', w.start, x) ==> Reaches(adj', x, w.exit)
    ensures forall x :: x in NodeIds(w.nodes) ==> OnAWay(adj, w.start, x, w.exit)
  {
    forall x | x in NodeIds(w.nodes) ensures OnAWay(adj, w.start, x, w.exit) {
      SameReach(adj, adj', w.start, x);
      SameReach(adj', adj, x, w.exit);
      Through(adj, w.start, x, w.exit);
    }
  }
}
