/** Adjacency maps, walks and reachability: the vocabulary in which the graph
    algorithms of the workflow tools are specified. */
module Graphs {

  type Adj = map<string, seq<string>>

  /** A missing key reads as the empty list. */
  function Succ(adj: Adj, u: string): seq<string> {
    if u in adj then adj[u] else []
  }

  ghost predicate Walk(adj: Adj, p: seq<string>) {
    |p| > 0 && forall i :: 0 <= i < |p| - 1 ==> p[i + 1] in Succ(adj, p[i])
  }

  ghost predicate WalkBetween(adj: Adj, p: seq<string>, u: string, v: string) {
    Walk(adj, p) && p[0] == u && p[|p| - 1] == v
  }

  ghost predicate Reaches(adj: Adj, u: string, v: string) {
    exists p :: WalkBetween(adj, p, u, v)
  }

  /** A walk with at least one edge that returns to where it began. */
  ghost predicate ClosedWalk(adj: Adj, p: seq<string>) {
    Walk(adj, p) && |p| >= 2 && p[0] == p[|p| - 1]
  }

  /** A cycle without a repeated interior node. */
  ghost predicate RealCycle(adj: Adj, d: seq<string>) {
    ClosedWalk(adj, d) && NoDup(d[1..])
  }

  ghost predicate Acyclic(adj: Adj) {
    forall p :: !ClosedWalk(adj, p)
  }

  ghost predicate NoDup<T>(s: seq<T>) {
    forall i, j :: 0 <= i < j < |s| ==> s[i] != s[j]
  }

  function Elements(s: seq<string>): set<string> {
    set x | x in s
  }

  ghost predicate Apart<T>(a: seq<T>, b: seq<T>) {
    forall i :: 0 <= i < |b| ==> b[i] !in a
  }

  lemma NoDupTail<T>(s: seq<T>)
    requires NoDup(s) && s != []
    ensures NoDup(s[1..]) && s[0] !in s[1..]
  {
  }

  lemma NoDupJoin<T>(a: seq<T>, b: seq<T>)
    requires NoDup(a) && NoDup(b) && Apart(a, b)
    ensures NoDup(a + b)
  {
    var c := a + b;
    forall i, j | 0 <= i < j < |c| ensures c[i] != c[j] {
      if i < |a| <= j {
        assert c[j] == b[j - |a|] && c[i] in a;
      }
    }
  }

  /** Every node that occurs in the graph, as a source or as a target. */
  function Universe(adj: Adj): set<string> {
    adj.Keys + set u, v | u in adj && v in adj[u] :: v
  }

  lemma SuccInUniverse(adj: Adj, u: string, v: string)
    requires v in Succ(adj, u)
    ensures u in Universe(adj) && v in Universe(adj)
  {
  }

  lemma WalkJoin(adj: Adj, p: seq<string>, q: seq<string>)
    requires Walk(adj, p) && Walk(adj, q) && p[|p| - 1] == q[0]
    ensures WalkBetween(adj, p + q[1..], p[0], q[|q| - 1])
    ensures |p + q[1..]| == |p| + |q| - 1
  {
    var r := p + q[1..];
    forall i | 0 <= i < |r| - 1 ensures r[i + 1] in Succ(adj, r[i]) {
      if i < |p| - 1 {
        assert r[i] == p[i] && r[i + 1] == p[i + 1];
      } else {
        assert r[i] == q[i - |p| + 1] && r[i + 1] == q[i - |p| + 2];
      }
    }
  }

  lemma WalkStep(adj: Adj, p: seq<string>, v: string)
    requires Walk(adj, p) && v in Succ(adj, p[|p| - 1])
    ensures WalkBetween(adj, p + [v], p[0], v)
  {
  }

  lemma WalkPart(adj: Adj, p: seq<string>, i: nat, j: nat)
    requires Walk(adj, p) && i < j <= |p|
    ensures WalkBetween(adj, p[i..j], p[i], p[j - 1])
  {
  }

  lemma ReachesRefl(adj: Adj, u: string)
    ensures Reaches(adj, u, u)
  {
    assert WalkBetween(adj, [u], u, u);
  }

  lemma ReachesTrans(adj: Adj, u: string, v: string, w: string)
    requires Reaches(adj, u, v) && Reaches(adj, v, w)
    ensures Reaches(adj, u, w)
  {
    var p :| WalkBetween(adj, p, u, v);
    var q :| WalkBetween(adj, q, v, w);
    WalkJoin(adj, p, q);
  }

  lemma ReachesEdge(adj: Adj, u: string, v: string)
    requires v in Succ(adj, u)
    ensures Reaches(adj, u, v)
  {
    assert WalkBetween(adj, [u, v], u, v);
  }

  /** A set closed under successors cannot be left. */
  lemma {:induction false} WalkStaysIn(adj: Adj, p: seq<string>, s: set<string>)
    requires Walk(adj, p) && p[0] in s
    requires forall u, v :: u in s && v in Succ(adj, u) ==> v in s
    ensures forall i :: 0 <= i < |p| ==> p[i] in s
  {
    if |p| > 1 {
      WalkPart(adj, p, 1, |p|);
      assert p[1] in Succ(adj, p[0]);
      WalkStaysIn(adj, p[1..], s);
      forall i | 0 <= i < |p| ensures p[i] in s {
        if i > 0 { assert p[i] == p[1..][i - 1]; }
      }
    }
  }

  /** The pigeonhole principle for sequences without repetition. */
  lemma {:induction false} NoDupBound<T>(p: seq<T>, s: set<T>)
    requires NoDup(p) && forall i :: 0 <= i < |p| ==> p[i] in s
    ensures |p| <= |s|
  {
    if p != [] {
      var last := p[|p| - 1];
      var front := p[..|p| - 1];
      assert forall i :: 0 <= i < |front| ==> front[i] == p[i];
      NoDupBound(front, s - {last});
    }
  }

  lemma RepeatsClose(adj: Adj, p: seq<string>)
    requires Walk(adj, p) && !NoDup(p)
    ensures exists c :: ClosedWalk(adj, c)
  {
    var i, j :| 0 <= i < j < |p| && p[i] == p[j];
    WalkPart(adj, p, i, j + 1);
    assert ClosedWalk(adj, p[i..j + 1]);
  }

  ghost predicate HasPredecessorIn(adj: Adj, s: set<string>, v: string) {
    exists u :: u in s && v in Succ(adj, u)
  }

  /** When every member of a finite non-empty set has a predecessor in the set, there is a cycle. */
  lemma BackwardsClosedHasCycle(adj: Adj, s: set<string>)
    requires s != {}
    requires forall x {:trigger HasPredecessorIn(adj, s, x)} :: x in s ==> HasPredecessorIn(adj, s, x)
    ensures !Acyclic(adj)
  {
    var v :| v in s;
    var p := BackwardsWalk(adj, s, v, |s|);
    if NoDup(p) {
      NoDupBound(p, s);
    } else {
      RepeatsClose(adj, p);
    }
  }

  lemma {:induction false} BackwardsWalk(adj: Adj, s: set<string>, v: string, n: nat) returns (p: seq<string>)
    requires v in s
    requires forall x {:trigger HasPredecessorIn(adj, s, x)} :: x in s ==> HasPredecessorIn(adj, s, x)
    ensures Walk(adj, p) && |p| == n + 1 && p[n] == v && forall i :: 0 <= i < |p| ==> p[i] in s
    decreases n
  {
    if n == 0 {
      p := [v];
    } else {
      assert HasPredecessorIn(adj, s, v);
      var u :| u in s && v in Succ(adj, u);
      p := BackwardsWalk(adj, s, u, n - 1);
      WalkStep(adj, p, v);
      p := p + [v];
    }
  }

  /** A finishing order lists every node after all of its successors. */
  ghost predicate FinishingOrder(adj: Adj, fin: seq<string>) {
    forall i, v :: 0 <= i < |fin| && v in Succ(adj, fin[i]) ==> v in fin[..i]
  }

  /** No cycle can be reached from a node of a finishing order. */
  lemma {:induction false} FinishingOrderAcyclic(adj: Adj, fin: seq<string>, p: seq<string>)
    requires FinishingOrder(adj, fin) && Walk(adj, p) && p[0] in fin
    ensures forall i :: 0 <= i < |p| ==> p[i] in fin
    ensures !ClosedWalk(adj, p)
  {
    var k: nat :| k < |fin| && fin[k] == p[0];
    Descend(adj, fin, p, k);
  }

  lemma {:induction false} Descend(adj: Adj, fin: seq<string>, p: seq<string>, k: nat)
    requires FinishingOrder(adj, fin) && Walk(adj, p) && k < |fin| && p[0] == fin[k]
    ensures forall i :: 0 <= i < |p| ==> p[i] in fin[..k + 1]
    ensures ClosedWalk(adj, p) ==> p[0] in fin[..k]
    ensures !ClosedWalk(adj, p)
    decreases k, |p|
  {
    if |p| > 1 {
      assert p[1] in Succ(adj, p[0]);
      var m: nat :| m < k && fin[m] == p[1];
      WalkPart(adj, p, 1, |p|);
      Descend(adj, fin, p[1..], m);
      forall i | 0 <= i < |p| ensures p[i] in fin[..k + 1] {
        if i > 0 {
          assert p[i] == p[1..][i - 1] && p[i] in fin[..m + 1];
        } else {
          assert fin[..k + 1][k] == p[0];
        }
      }
      if ClosedWalk(adj, p) {
        assert p[|p| - 1] == p[1..][|p| - 2];
        assert p[0] in fin[..m + 1];
        var m': nat :| m' < m + 1 && fin[m'] == p[0];
        Descend(adj, fin, p, m');
      }
    } else {
      assert fin[..k + 1][k] == p[0];
    }
  }

  /** A back edge closes the part of the search path that starts at its target. */
  lemma BackEdgeCloses(adj: Adj, path: seq<string>, k: nat)
    requires Walk(adj, path) && NoDup(path) && k < |path| && path[k] in Succ(adj, path[|path| - 1])
    ensures RealCycle(adj, path[k..] + [path[k]])
  {
    WalkPart(adj, path, k, |path|);
    assert path[k..|path|] == path[k..];
    WalkStep(adj, path[k..], path[k]);
    var d := path[k..] + [path[k]];
    assert d[1..] == path[k + 1..] + [path[k]];
  }

  ghost predicate AllIn(vs: seq<string>, fin: seq<string>) {
    forall v :: v in vs ==> v in fin
  }

  lemma AllInStep(vs: seq<string>, i: nat, before: seq<string>, fin: seq<string>)
    requires i < |vs| && before <= fin
    ensures AllIn(vs[..i], before) && vs[i] in fin ==> AllIn(vs[..i + 1], fin)
  {
    assert vs[..i + 1] == vs[..i] + [vs[i]];
    assert forall v :: v in before ==> v in fin;
  }

  lemma FinishingOrderExtends(adj: Adj, fin: seq<string>, node: string)
    requires FinishingOrder(adj, fin) && AllIn(Succ(adj, node), fin)
    ensures FinishingOrder(adj, fin + [node])
  {
    var fin' := fin + [node];
    forall i, v | 0 <= i < |fin'| && v in Succ(adj, fin'[i]) ensures v in fin'[..i] {
      if i < |fin| {
        assert fin'[..i] == fin[..i];
      } else {
        assert fin'[..i] == fin;
      }
    }
  }
}
