/** Depth-first search with three colors, shared by the two cycle checks: the gray nodes are the
    search path, a walk without repetition, and the black ones are finished. */
module DepthFirst {
  import opened Graphs
  import opened Sequences

  const GRAY := 1
  const BLACK := 2

  /** A node without a color is white. */
  function ColorOf(color: map<string, int>, x: string): int {
    if x in color then color[x] else 0
  }

  ghost predicate Colored(color: map<string, int>, stack: seq<string>, fin: seq<string>) {
    && (forall x :: x in color ==> color[x] == GRAY || color[x] == BLACK)
    && (forall x :: ColorOf(color, x) == GRAY <==> x in stack)
    && (forall x :: ColorOf(color, x) == BLACK <==> x in fin)
  }

  ghost predicate Searching(adj: Adj, color: map<string, int>, stack: seq<string>, fin: seq<string>) {
    Colored(color, stack, fin) && NoDup(stack) && (stack != [] ==> Walk(adj, stack))
  }

  lemma EnterWhite(adj: Adj, color: map<string, int>, stack: seq<string>, fin: seq<string>, node: string)
    requires Searching(adj, color, stack, fin) && ColorOf(color, node) == 0
    requires stack != [] ==> node in Succ(adj, stack[|stack| - 1])
    ensures Searching(adj, color[node := GRAY], stack + [node], fin) && node !in stack && node !in fin
  {
    assert node !in stack && node !in fin;
    assert forall x :: x in stack + [node] <==> x in stack || x == node;
    if stack != [] {
      WalkStep(adj, stack, node);
    }
  }

  lemma FinishColored(color: map<string, int>, stack: seq<string>, fin: seq<string>, node: string)
    requires Colored(color, stack + [node], fin) && NoDup(stack + [node])
    ensures Colored(color[node := BLACK], stack, fin + [node]) && node in color
  {
    var path := stack + [node];
    assert path[|stack|] == node && node in path;
    assert forall x :: x in path <==> x in stack || x == node;
    forall i | 0 <= i < |stack| ensures stack[i] != node {
      assert path[i] == stack[i];
    }
  }

  lemma ShorterPath(adj: Adj, stack: seq<string>, node: string)
    requires NoDup(stack + [node]) && Walk(adj, stack + [node])
    ensures NoDup(stack) && (stack != [] ==> Walk(adj, stack))
  {
    var path := stack + [node];
    assert forall i :: 0 <= i < |stack| ==> path[i] == stack[i];
    if stack != [] {
      WalkPart(adj, path, 0, |stack|);
      assert path[0..|stack|] == stack;
    }
  }

  lemma FinishGray(adj: Adj, color: map<string, int>, stack: seq<string>, fin: seq<string>, node: string)
    requires Searching(adj, color, stack + [node], fin)
    ensures Searching(adj, color[node := BLACK], stack, fin + [node]) && node in color
  {
    FinishColored(color, stack, fin, node);
    ShorterPath(adj, stack, node);
  }

  // ----- finishing, when back edges to some nodes are left open

  ghost predicate AllInEither(vs: seq<string>, fin: seq<string>, open: set<string>) {
    forall v :: v in vs ==> v in fin || v in open
  }

  lemma AllInEitherStep(vs: seq<string>, i: nat, before: seq<string>, fin: seq<string>, open: set<string>, open': set<string>)
    requires i < |vs| && before <= fin && open <= open'
    ensures AllInEither(vs[..i], before, open) && (vs[i] in fin || vs[i] in open') ==> AllInEither(vs[..i + 1], fin, open')
  {
    assert vs[..i + 1] == vs[..i] + [vs[i]];
    assert forall v :: v in before ==> v in fin;
  }

  /** Every successor of a finished node is finished before it, or is one of the open nodes. */
  ghost predicate FinishedUpTo(adj: Adj, fin: seq<string>, open: set<string>) {
    forall i :: 0 <= i < |fin| ==> AllInEither(Succ(adj, fin[i]), fin[..i], open)
  }

  lemma FinishedUpToExtends(adj: Adj, fin: seq<string>, open: set<string>, node: string)
    requires FinishedUpTo(adj, fin, open) && AllInEither(Succ(adj, node), fin, open)
    ensures FinishedUpTo(adj, fin + [node], open)
  {
    var fin' := fin + [node];
    forall i | 0 <= i < |fin'| ensures AllInEither(Succ(adj, fin'[i]), fin'[..i], open) {
      if i < |fin| {
        assert fin'[..i] == fin[..i];
      } else {
        assert fin'[..i] == fin;
      }
    }
  }

  lemma ElementsSnoc(s: seq<string>, x: string)
    ensures Elements(s + [x]) == Elements(s) + {x}
  {
  }

  /** When the open nodes are finished too, a walk from a finished node meets finished nodes only. */
  lemma {:induction false} FinishedAlong(adj: Adj, fin: seq<string>, open: set<string>, p: seq<string>)
    requires FinishedUpTo(adj, fin, open) && open <= Elements(fin) && Walk(adj, p) && p[0] in fin
    ensures p[|p| - 1] in fin
    decreases |p|
  {
    if |p| > 1 {
      assert p[0 + 1] in Succ(adj, p[0]);
      var k :| 0 <= k < |fin| && fin[k] == p[0];
      assert AllInEither(Succ(adj, fin[k]), fin[..k], open);
      WalkPart(adj, p, 1, |p|);
      assert p[1..|p|] == p[1..] && p[1..][|p| - 2] == p[|p| - 1];
      FinishedAlong(adj, fin, open, p[1..]);
    }
  }

  /** A walk that meets no open node finishes earlier and earlier. */
  lemma {:induction false} DescendsUnlessOpen(adj: Adj, fin: seq<string>, open: set<string>, p: seq<string>, k: nat)
    requires FinishedUpTo(adj, fin, open) && Walk(adj, p) && k < |fin| && p[0] == fin[k]
    requires forall i :: 0 < i < |p| ==> p[i] !in open
    ensures p[|p| - 1] in fin[..k + 1 - (if |p| > 1 then 1 else 0)]
    decreases |p|
  {
    if |p| == 1 {
      assert fin[..k + 1][k] == p[0];
    } else {
      assert p[0 + 1] in Succ(adj, p[0]);
      assert AllInEither(Succ(adj, fin[k]), fin[..k], open);
      var m :| 0 <= m < k && fin[m] == p[1];
      WalkPart(adj, p, 1, |p|);
      var rest := p[1..|p|];
      assert forall i :: 0 < i < |rest| ==> rest[i] == p[i + 1];
      DescendsUnlessOpen(adj, fin, open, rest, m);
      assert rest[|rest| - 1] == p[|p| - 1];
      assert forall x :: x in fin[..m + 1] ==> x in fin[..k];
      assert forall x :: x in fin[..m] ==> x in fin[..k];
    }
  }

  lemma {:induction false} FirstPlace(fin: seq<string>, x: string) returns (k: nat)
    requires x in fin
    ensures k < |fin| && fin[k] == x && x !in fin[..k]
  {
    var front := fin[..|fin| - 1];
    FrontAndLast(fin);
    if x in front {
      k := FirstPlace(front, x);
      PrefixOfPrefix(fin, |front|, k);
    } else {
      k := |front|;
    }
  }

  /** So every cycle meets an open node. */
  lemma CycleMeetsOpen(adj: Adj, fin: seq<string>, open: set<string>, c: seq<string>) returns (x: string)
    requires FinishedUpTo(adj, fin, open) && ClosedWalk(adj, c) && c[0] in fin
    ensures x in c && x in open
  {
    if i :| 0 < i < |c| && c[i] in open {
      x := c[i];
    } else {
      var k := FirstPlace(fin, c[0]);
      DescendsUnlessOpen(adj, fin, open, c, k);
      assert false;
    }
  }
}
