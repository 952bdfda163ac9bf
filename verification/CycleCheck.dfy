/** The check for unconditional cycles: a depth-first search with white, gray and black nodes
    that reports, for a gray node hit by a back edge, the cycle read off the parent map. */
module CycleCheck {
  import opened IR
  import opened Graphs
  import opened Adjacency
  import opened DepthFirst

  // ----- reading a cycle off the parent map

  function Reversed(s: seq<string>): (r: seq<string>)
    ensures |r| == |s|
  {
    seq(|s|, i requires 0 <= i < |s| => s[|s| - 1 - i])
  }

  /** Swaps the ends of the slice inwards. */
  method ReversePath(path: seq<string>) returns (r: seq<string>)
    ensures r == Reversed(path)
  {
    r := path;
    var i, j := 0, |path| - 1;
    while i < j
      invariant 0 <= i <= |path| && i + j == |path| - 1 && |r| == |path| && j >= i - 1
      invariant forall k :: 0 <= k < i ==> r[k] == Reversed(path)[k]
      invariant forall k :: i <= k <= j ==> r[k] == path[k]
      invariant forall k :: j < k < |path| ==> r[k] == Reversed(path)[k]
    {
      var front, back := r[i], r[j];
      assert front == path[i] && back == path[j];
      r := r[i := back][j := front];
      i, j := i + 1, j - 1;
    }
  }

  /** Each node on the current path after the first has the node before it as its parent. */
  ghost predicate ParentChain(parent: map<string, string>, stack: seq<string>) {
    forall i :: 0 < i < |stack| ==> stack[i] in parent && parent[stack[i]] == stack[i - 1]
  }

  lemma ParentCount(parent: map<string, string>, stack: seq<string>)
    requires ParentChain(parent, stack) && NoDup(stack) && stack != []
    ensures |stack| <= |parent| + 1
  {
    NoDupTail(stack);
    forall i | 0 <= i < |stack| - 1 ensures stack[1..][i] in parent.Keys {
      assert stack[1..][i] == stack[i + 1];
    }
    NoDupBound(stack[1..], parent.Keys);
    assert |parent.Keys| == |parent|;
  }

  predicate CanWalk(curr: string, target: string, seen: set<string>, maxSteps: int) {
    curr != target && curr != "" && curr !in seen && maxSteps > 0
  }

  lemma ReversedStep(s: seq<string>, i: nat)
    requires i < |s|
    ensures Reversed(s[i..]) == Reversed(s[i + 1..]) + [s[i]]
    ensures Elements(s[i..]) == {s[i]} + Elements(s[i + 1..])
  {
    assert s[i..] == [s[i]] + s[i + 1..];
  }

  lemma ReversedClosed(x: string, s: seq<string>)
    ensures Reversed([x] + Reversed(s) + [x]) == [x] + s + [x]
  {
  }

  /** Above the target, only an empty ID stops the walk. */
  lemma StillWalking(parent: map<string, string>, stack: seq<string>, k: nat, i: nat)
    requires ParentChain(parent, stack) && NoDup(stack) && k <= i < |stack|
    ensures CanWalk(stack[i], stack[k], {stack[k]} + Elements(stack[i + 1..]), |parent| + 2 - (|stack| - 1 - i))
       <==> i > k && stack[i] != ""
  {
    ParentCount(parent, stack);
  }

  function ParentOf(parent: map<string, string>, x: string): string {
    if x in parent then parent[x] else ""
  }

  /** The nodes met on the way up from curr, as long as the loop goes on. */
  function WalkUp(parent: map<string, string>, curr: string, target: string, seen: set<string>, maxSteps: int): seq<string>
    decreases maxSteps
  {
    if !CanWalk(curr, target, seen, maxSteps) then []
    else [curr] + WalkUp(parent, ParentOf(parent, curr), target, seen + {curr}, maxSteps - 1)
  }

  function Reconstruct(parent: map<string, string>, from: string, to: string): seq<string> {
    Reversed([to] + WalkUp(parent, from, to, {to}, |parent| + 2) + [to])
  }

  lemma WalkUpStep(parent: map<string, string>, path: seq<string>, curr: string, target: string, seen: set<string>, maxSteps: int)
    requires CanWalk(curr, target, seen, maxSteps)
    ensures path + WalkUp(parent, curr, target, seen, maxSteps) ==
            path + [curr] + WalkUp(parent, ParentOf(parent, curr), target, seen + {curr}, maxSteps - 1)
  {
  }

  method ReconstructCycle(parent: map<string, string>, from: string, to: string) returns (cycle: seq<string>)
    ensures cycle == Reconstruct(parent, from, to)
  {
    var path := [to];
    var curr := from;
    var seen := {to};
    var maxSteps: int := |parent| + 2;
    ghost var walk := [to] + WalkUp(parent, from, to, {to}, |parent| + 2);
    while CanWalk(curr, to, seen, maxSteps)
      invariant walk == path + WalkUp(parent, curr, to, seen, maxSteps)
      decreases maxSteps
    {
      WalkUpStep(parent, path, curr, to, seen, maxSteps);
      seen := seen + {curr};
      path := path + [curr];
      curr := ParentOf(parent, curr);
      maxSteps := maxSteps - 1;
    }
    path := path + [to];
    cycle := ReversePath(path);
  }

  /** The part of a path behind its last empty ID. */
  function BehindEmpty(s: seq<string>): seq<string> {
    if s == [] || s[|s| - 1] == "" then [] else BehindEmpty(s[..|s| - 1]) + [s[|s| - 1]]
  }

  lemma {:induction false} BehindEmptyWhole(s: seq<string>)
    ensures |BehindEmpty(s)| <= |s|
    ensures BehindEmpty(s) == s <==> "" !in s
    decreases |s|
  {
    if s != [] {
      BehindEmptyWhole(s[..|s| - 1]);
      assert s == s[..|s| - 1] + [s[|s| - 1]];
    }
  }

  /** What is left of a closed walk when everything up to the last empty ID in its interior is dropped. */
  function Shortened(c: seq<string>): seq<string>
    requires |c| >= 2
  {
    [c[0]] + BehindEmpty(c[1..|c| - 1]) + [c[|c| - 1]]
  }

  lemma ShortenedWhole(c: seq<string>)
    requires |c| >= 2
    ensures Shortened(c) == c <==> "" !in c[1..|c| - 1]
  {
    BehindEmptyWhole(c[1..|c| - 1]);
    assert c == [c[0]] + c[1..|c| - 1] + [c[|c| - 1]];
    assert Shortened(c)[1..|Shortened(c)| - 1] == BehindEmpty(c[1..|c| - 1]);
  }

  lemma ReversedSnoc(s: seq<string>, x: string)
    ensures Reversed(s + [x]) == [x] + Reversed(s)
  {
  }

  lemma {:induction false} WalkUpStack(parent: map<string, string>, stack: seq<string>, k: nat, i: nat)
    requires ParentChain(parent, stack) && NoDup(stack) && k <= i < |stack|
    ensures WalkUp(parent, stack[i], stack[k], {stack[k]} + Elements(stack[i + 1..]), |parent| + 2 - (|stack| - 1 - i)) ==
            Reversed(BehindEmpty(stack[k + 1..i + 1]))
    decreases i
  {
    StillWalking(parent, stack, k, i);
    if i > k {
      assert stack[k + 1..i + 1] == stack[k + 1..i] + [stack[i]];
      assert stack[k + 1..i + 1][..i - k - 1] == stack[k + 1..i];
      if stack[i] != "" {
        ReversedStep(stack, i);
        assert {stack[k]} + Elements(stack[i + 1..]) + {stack[i]} == {stack[k]} + Elements(stack[i..]);
        WalkUpStack(parent, stack, k, i - 1);
        ReversedSnoc(BehindEmpty(stack[k + 1..i]), stack[i]);
      }
    }
  }

  /** The result is the part of the search path that the back edge closes, shortened at empty IDs;
      neither the step bound nor another guard cuts the walk short. */
  lemma ReconstructExact(parent: map<string, string>, stack: seq<string>, k: nat)
    requires ParentChain(parent, stack) && NoDup(stack) && k < |stack|
    ensures Reconstruct(parent, stack[|stack| - 1], stack[k]) == Shortened(stack[k..] + [stack[k]])
  {
    WalkUpStack(parent, stack, k, |stack| - 1);
    assert stack[|stack|..] == [];
    assert {stack[k]} + Elements([]) == {stack[k]};
    assert stack[k + 1..|stack|] == stack[k + 1..];
    var closed := stack[k..] + [stack[k]];
    assert closed[1..|closed| - 1] == stack[k + 1..];
    ReversedClosed(stack[k], BehindEmpty(stack[k + 1..]));
  }

  /** So it is that part itself exactly when no node after the target has an empty ID. */
  lemma ReconstructWhole(parent: map<string, string>, stack: seq<string>, k: nat)
    requires ParentChain(parent, stack) && NoDup(stack) && k < |stack|
    ensures Reconstruct(parent, stack[|stack| - 1], stack[k]) == stack[k..] + [stack[k]] <==> "" !in stack[k + 1..]
  {
    var closed := stack[k..] + [stack[k]];
    assert closed[1..|closed| - 1] == stack[k + 1..];
    ReconstructExact(parent, stack, k);
    ShortenedWhole(closed);
  }

  // ----- the search state and its invariant

  /** Colors, parents, reports and, as a record for the proofs, the order of finishing. */
  datatype SearchState = SearchState(color: map<string, int>, parent: map<string, string>,
                                     reported: set<string>, diags: seq<seq<string>>, fin: seq<string>)

  ghost predicate FromRoots(adj: Adj, roots: set<string>, x: string) {
    exists r :: r in roots && Reaches(adj, r, x)
  }

  ghost predicate HasReachableCycle(adj: Adj, roots: set<string>) {
    exists c :: ClosedWalk(adj, c) && FromRoots(adj, roots, c[0])
  }

  ghost predicate NoEmptyTargets(adj: Adj) {
    forall u :: "" !in Succ(adj, u)
  }

  /** A simple path from a root, closed by a back edge from its end. */
  ghost predicate Lasso(adj: Adj, roots: set<string>, p: seq<string>, k: nat) {
    && p != [] && Walk(adj, p) && NoDup(p) && p[0] in roots
    && k < |p| && p[k] in Succ(adj, p[|p| - 1])
  }

  /** A diagnostic shows the cycle that such a back edge closes, shortened at empty IDs. */
  ghost predicate Reported(adj: Adj, roots: set<string>, d: seq<string>) {
    exists p, k: nat :: Lasso(adj, roots, p, k) && d == Shortened(p[k..] + [p[k]])
  }

  /** The node that each diagnostic starts from. */
  function Heads(diags: seq<seq<string>>): seq<string> {
    seq(|diags|, i requires 0 <= i < |diags| => if diags[i] == [] then "" else diags[i][0])
  }

  ghost predicate Justified(adj: Adj, roots: set<string>, st: SearchState) {
    && NoDup(Heads(st.diags)) && Elements(Heads(st.diags)) == st.reported
    && (forall d :: d in st.diags ==> Reported(adj, roots, d))
  }

  ghost predicate Inv(adj: Adj, roots: set<string>, st: SearchState, stack: seq<string>) {
    && Searching(adj, st.color, stack, st.fin)
    && (stack != [] ==> stack[0] in roots) && ParentChain(st.parent, stack)
    && FinishedUpTo(adj, st.fin, st.reported) && st.reported <= Elements(st.fin) + Elements(stack)
    && Justified(adj, roots, st)
  }

  ghost predicate Hangs(adj: Adj, roots: set<string>, st: SearchState, stack: seq<string>, node: string) {
    if stack == [] then node in roots
    else node in Succ(adj, stack[|stack| - 1]) && node in st.parent && st.parent[node] == stack[|stack| - 1]
  }

  /** A real cycle, of which the diagnostic shows everything exactly when its interior has no empty ID. */
  ghost predicate ShowsCycle(adj: Adj, roots: set<string>, d: seq<string>, c: seq<string>) {
    && RealCycle(adj, c) && FromRoots(adj, roots, c[0])
    && d == Shortened(c) && (d == c <==> "" !in c[1..|c| - 1])
  }

  lemma LassoCloses(adj: Adj, roots: set<string>, p: seq<string>, k: nat)
    requires Lasso(adj, roots, p, k)
    ensures var c := p[k..] + [p[k]]; RealCycle(adj, c) && FromRoots(adj, roots, c[0])
  {
    BackEdgeCloses(adj, p, k);
    WalkPart(adj, p, 0, k + 1);
    assert Reaches(adj, p[0], p[k]);
  }

  lemma CleanCycle(adj: Adj, c: seq<string>)
    requires NoEmptyTargets(adj) && ClosedWalk(adj, c)
    ensures "" !in c[1..|c| - 1]
  {
    forall i | 0 < i < |c| ensures c[i] != "" {
      assert c[i - 1 + 1] in Succ(adj, c[i - 1]);
    }
  }

  lemma LassoShows(adj: Adj, roots: set<string>, p: seq<string>, k: nat)
    requires Lasso(adj, roots, p, k)
    ensures var c := p[k..] + [p[k]]; ShowsCycle(adj, roots, Shortened(c), c)
  {
    LassoCloses(adj, roots, p, k);
    ShortenedWhole(p[k..] + [p[k]]);
  }

  /** Every diagnostic shows a reachable cycle. */
  lemma ReportedShows(adj: Adj, roots: set<string>, d: seq<string>) returns (c: seq<string>)
    requires Reported(adj, roots, d)
    ensures ShowsCycle(adj, roots, d, c)
  {
    var p, k: nat :| Lasso(adj, roots, p, k) && d == Shortened(p[k..] + [p[k]]);
    c := p[k..] + [p[k]];
    LassoShows(adj, roots, p, k);
  }

  /** And shows it whole when no edge has an empty target. */
  lemma ShownWhole(adj: Adj, roots: set<string>, d: seq<string>, c: seq<string>)
    requires ShowsCycle(adj, roots, d, c)
    ensures HasReachableCycle(adj, roots)
    ensures NoEmptyTargets(adj) ==> d == c
  {
    if NoEmptyTargets(adj) {
      CleanCycle(adj, c);
    }
  }

  function Enter(st: SearchState, node: string): SearchState {
    st.(color := st.color[node := GRAY])
  }

  function Finish(st: SearchState, node: string): SearchState {
    st.(color := st.color[node := BLACK], fin := st.fin + [node])
  }

  lemma EnterKeeps(adj: Adj, roots: set<string>, st: SearchState, stack: seq<string>, node: string)
    requires Inv(adj, roots, st, stack) && ColorOf(st.color, node) == 0 && Hangs(adj, roots, st, stack, node)
    ensures Inv(adj, roots, Enter(st, node), stack + [node])
  {
    EnterWhite(adj, st.color, stack, st.fin, node);
    ElementsSnoc(stack, node);
  }

  lemma FinishKeeps(adj: Adj, roots: set<string>, st: SearchState, stack: seq<string>, node: string)
    requires Inv(adj, roots, st, stack + [node])
    requires AllInEither(Succ(adj, node), st.fin, st.reported)
    ensures Inv(adj, roots, Finish(st, node), stack)
  {
    FinishGray(adj, st.color, stack, st.fin, node);
    var path := stack + [node];
    assert forall i :: 0 <= i < |stack| ==> path[i] == stack[i];
    FinishedUpToExtends(adj, st.fin, st.reported, node);
    ElementsSnoc(stack, node);
    ElementsSnoc(st.fin, node);
  }

  lemma ParentKeeps(adj: Adj, roots: set<string>, st: SearchState, path: seq<string>, next: string)
    requires Inv(adj, roots, st, path) && path != [] && ColorOf(st.color, next) == 0 && next in Succ(adj, path[|path| - 1])
    ensures var st' := st.(parent := st.parent[next := path[|path| - 1]]);
            Inv(adj, roots, st', path) && Hangs(adj, roots, st', path, next)
  {
    assert next !in path;
  }

  lemma BackEdgeReported(adj: Adj, roots: set<string>, st: SearchState, path: seq<string>, k: nat, d: seq<string>)
    requires Inv(adj, roots, st, path) && k < |path| && path[k] in Succ(adj, path[|path| - 1])
    requires d == Reconstruct(st.parent, path[|path| - 1], path[k])
    ensures Reported(adj, roots, d) && d[0] == path[k]
  {
    LassoReported(adj, roots, st.parent, path, k, d);
  }

  lemma JustifiedMore(adj: Adj, roots: set<string>, st: SearchState, x: string, d: seq<string>)
    requires Justified(adj, roots, st) && Reported(adj, roots, d) && d[0] == x && x !in st.reported
    ensures Justified(adj, roots, st.(reported := st.reported + {x}, diags := st.diags + [d]))
  {
    assert Heads(st.diags + [d]) == Heads(st.diags) + [x];
    ElementsSnoc(Heads(st.diags), x);
  }

  lemma FinishedUpToMore(adj: Adj, fin: seq<string>, open: set<string>, x: string)
    requires FinishedUpTo(adj, fin, open)
    ensures FinishedUpTo(adj, fin, open + {x})
  {
  }

  lemma ReportKeeps(adj: Adj, roots: set<string>, st: SearchState, path: seq<string>, x: string, d: seq<string>)
    requires Inv(adj, roots, st, path) && x in path && x !in st.reported && Reported(adj, roots, d) && d[0] == x
    ensures Inv(adj, roots, st.(reported := st.reported + {x}, diags := st.diags + [d]), path)
  {
    JustifiedMore(adj, roots, st, x, d);
    FinishedUpToMore(adj, st.fin, st.reported, x);
  }

  lemma LassoReported(adj: Adj, roots: set<string>, parent: map<string, string>, path: seq<string>, k: nat, d: seq<string>)
    requires Lasso(adj, roots, path, k) && ParentChain(parent, path)
    requires d == Reconstruct(parent, path[|path| - 1], path[k])
    ensures Reported(adj, roots, d) && d[0] == path[k]
  {
    ReconstructExact(parent, path, k);
  }

  // ----- the search

  class Detector {
    const adj: Adj
    var color: map<string, int>
    var parent: map<string, string>
    var reported: set<string>
    var diags: seq<seq<string>>
    ghost var fin: seq<string>

    constructor (adj: Adj)
      ensures this.adj == adj && State() == SearchState(map[], map[], {}, [], [])
    {
      this.adj := adj;
      color, parent, reported, diags, fin := map[], map[], {}, [], [];
    }

    ghost function State(): SearchState
      reads this
    {
      SearchState(color, parent, reported, diags, fin)
    }

    method Visit(node: string, ghost roots: set<string>, ghost stack: seq<string>, ghost all: set<string>)
      requires Inv(adj, roots, State(), stack) && ColorOf(color, node) == 0
      requires Hangs(adj, roots, State(), stack, node)
      requires node in all && Universe(adj) <= all
      modifies this`color, this`parent, this`reported, this`diags, this`fin
      ensures Inv(adj, roots, State(), stack) && node in fin
      ensures old(color.Keys) <= color.Keys && old(fin) <= fin && old(reported) <= reported
      decreases all - color.Keys, 1
    {
      EnterKeeps(adj, roots, State(), stack, node);
      color := color[node := GRAY];
      ghost var path := stack + [node];
      ProcessNeighbors(node, roots, path, all);
      ghost var st := State();
      FinishKeeps(adj, roots, st, stack, node);
      color := color[node := BLACK];
      fin := fin + [node];
      assert State() == Finish(st, node);
    }

    method ProcessNeighbors(node: string, ghost roots: set<string>, ghost path: seq<string>, ghost all: set<string>)
      requires path != [] && path[|path| - 1] == node
      requires Inv(adj, roots, State(), path) && Universe(adj) <= all
      modifies this`color, this`parent, this`reported, this`diags, this`fin
      ensures Inv(adj, roots, State(), path)
      ensures old(color.Keys) <= color.Keys && old(fin) <= fin && old(reported) <= reported
      ensures AllInEither(Succ(adj, node), fin, reported)
      decreases all - color.Keys, 3
    {
      var nexts := Succ(adj, node);
      for i := 0 to |nexts|
        invariant Inv(adj, roots, State(), path)
        invariant old(color.Keys) <= color.Keys && old(fin) <= fin && old(reported) <= reported
        invariant AllInEither(nexts[..i], fin, reported)
      {
        ghost var before, open := fin, reported;
        ProcessNeighbor(node, nexts[i], roots, path, all);
        AllInEitherStep(nexts, i, before, fin, open, reported);
      }
      assert nexts[..|nexts|] == nexts;
    }

    method ReportBackEdge(node: string, next: string, ghost roots: set<string>, ghost path: seq<string>)
      requires path != [] && path[|path| - 1] == node && next in Succ(adj, node) && next in path && next !in reported
      requires Inv(adj, roots, State(), path)
      modifies this`reported, this`diags
      ensures Inv(adj, roots, State(), path)
      ensures reported == old(reported) + {next} && diags == old(diags) + [Reconstruct(parent, node, next)]
    {
      ghost var before := State();
      ghost var k: nat :| k < |path| && path[k] == next;
      reported := reported + {next};
      var cycle := ReconstructCycle(parent, node, next);
      diags := diags + [cycle];
      BackEdgeReported(adj, roots, before, path, k, cycle);
      ReportKeeps(adj, roots, before, path, next, cycle);
    }

    method ProcessNeighbor(node: string, next: string, ghost roots: set<string>, ghost path: seq<string>, ghost all: set<string>)
      requires path != [] && path[|path| - 1] == node && next in Succ(adj, node)
      requires Inv(adj, roots, State(), path) && Universe(adj) <= all
      modifies this`color, this`parent, this`reported, this`diags, this`fin
      ensures Inv(adj, roots, State(), path)
      ensures old(color.Keys) <= color.Keys && old(fin) <= fin && old(reported) <= reported
      ensures next in fin || next in reported
      decreases all - color.Keys, 2
    {
      if ColorOf(color, next) == GRAY && next !in reported {
        ReportBackEdge(node, next, roots, path);
      }
      if ColorOf(color, next) == 0 {
        SuccInUniverse(adj, node, next);
        ParentKeeps(adj, roots, State(), path, next);
        parent := parent[next := node];
        Visit(next, roots, path, all);
      }
    }
  }

  /** Some diagnostic starts from a node of the walk. */
  ghost predicate Covers(diags: seq<seq<string>>, c: seq<string>) {
    exists d :: d in diags && d != [] && d[0] in c
  }

  /** No two diagnostics start from the same node. */
  ghost predicate HeadsDiffer(diags: seq<seq<string>>) {
    forall i, j :: 0 <= i < j < |diags| && diags[i] != [] && diags[j] != [] ==> diags[i][0] != diags[j][0]
  }

  /** The search from every declared node that is still white. */
  method DetectCycles(nodes: seq<Node>, adj: Adj) returns (diags: seq<seq<string>>)
    ensures diags != [] <==> HasReachableCycle(adj, NodeIds(nodes))
    ensures forall d :: d in diags ==> Reported(adj, NodeIds(nodes), d)
    ensures forall c :: ClosedWalk(adj, c) && FromRoots(adj, NodeIds(nodes), c[0]) ==> Covers(diags, c)
    ensures HeadsDiffer(diags)
  {
    var cd := new Detector(adj);
    ghost var roots := NodeIds(nodes);
    ghost var all := Universe(adj) + roots;
    for i := 0 to |nodes|
      invariant cd.adj == adj
      invariant Inv(adj, roots, cd.State(), [])
      invariant forall j :: 0 <= j < i ==> nodes[j].id in cd.fin
    {
      var id := nodes[i].id;
      if ColorOf(cd.color, id) == 0 {
        assert nodes[i] in nodes;
        cd.Visit(id, roots, [], all);
      }
    }
    diags := cd.diags;
    forall c | ClosedWalk(adj, c) && FromRoots(adj, roots, c[0]) ensures Covers(diags, c) {
      EveryCycleCovered(adj, roots, cd.State(), c);
    }
    HeadsApart(diags);
    if diags != [] {
      ghost var c := ReportedShows(adj, roots, diags[0]);
      ShownWhole(adj, roots, diags[0], c);
    }
  }

  lemma HeadsApart(diags: seq<seq<string>>)
    requires NoDup(Heads(diags))
    ensures HeadsDiffer(diags)
  {
    forall i, j | 0 <= i < j < |diags| && diags[i] != [] && diags[j] != [] ensures diags[i][0] != diags[j][0] {
      assert Heads(diags)[i] != Heads(diags)[j];
    }
  }

  /** When the search is over, every cycle that the roots lead to runs through a node that was reported. */
  lemma EveryCycleCovered(adj: Adj, roots: set<string>, st: SearchState, c: seq<string>)
    requires Inv(adj, roots, st, []) && forall r :: r in roots ==> r in st.fin
    requires ClosedWalk(adj, c) && FromRoots(adj, roots, c[0])
    ensures Covers(st.diags, c)
  {
    var r :| r in roots && Reaches(adj, r, c[0]);
    var p :| WalkBetween(adj, p, r, c[0]);
    FinishedAlong(adj, st.fin, st.reported, p);
    var x := CycleMeetsOpen(adj, st.fin, st.reported, c);
    assert x in Elements(Heads(st.diags));
    var i :| 0 <= i < |st.diags| && Heads(st.diags)[i] == x;
    assert st.diags[i] in st.diags && Reported(adj, roots, st.diags[i]);
  }

  // ----- the check on a workflow

  /** One explicit edge that is not a restart edge. */
  ghost predicate Leads(w: Workflow, u: string, v: string) {
    exists e :: e in w.edges && e.from == u && e.to == v && !e.restart
  }

  ghost predicate WorkflowCycle(w: Workflow, c: seq<string>) {
    |c| >= 2 && c[0] == c[|c| - 1] && forall i :: 0 <= i < |c| - 1 ==> Leads(w, c[i], c[i + 1])
  }

  ghost predicate WorkflowWalk(w: Workflow, p: seq<string>) {
    |p| >= 1 && forall i :: 0 <= i < |p| - 1 ==> Leads(w, p[i], p[i + 1])
  }

  lemma {:induction false} TargetsAreLeads(edges: seq<Edge>, u: string, v: string)
    ensures v in ExplicitTargets(edges, u, false) <==> exists e :: e in edges && e.from == u && e.to == v && !e.restart
  {
    if edges != [] {
      TargetsAreLeads(edges[..|edges| - 1], u, v);
      assert edges == edges[..|edges| - 1] + [edges[|edges| - 1]];
    }
  }

  /** A cycle of the workflow without a repeated interior node, and what a diagnostic shows of it:
      everything exactly when its interior has no empty ID. */
  ghost predicate ShowsWorkflowCycle(w: Workflow, d: seq<string>, c: seq<string>) {
    && WorkflowCycle(w, c) && NoDup(c[1..])
    && d == Shortened(c) && (d == c <==> "" !in c[1..|c| - 1])
  }

  /** A cycle of the workflow that a declared node leads to. */
  ghost predicate ReachableCycle(w: Workflow, c: seq<string>) {
    WorkflowCycle(w, c) && exists p :: WorkflowWalk(w, p) && p[0] in NodeIds(w.nodes) && p[|p| - 1] == c[0]
  }

  /** The diagnostics of the check: some are produced exactly when the start node is declared and
      the non-restart edges form a cycle that a declared node leads to; each one shows such a cycle,
      and shows it whole when no edge has an empty target. Every such cycle runs through the node that
      some diagnostic starts from, and no two diagnostics start from the same node. */
  method CheckNoCycles(w: Workflow) returns (diags: seq<seq<string>>)
    ensures diags != [] <==>
            w.start != "" && w.start in NodeIds(w.nodes) && exists c :: ReachableCycle(w, c)
    ensures forall d :: d in diags ==> exists c :: ShowsWorkflowCycle(w, d, c)
    ensures w.start != "" && w.start in NodeIds(w.nodes) ==> forall c :: ReachableCycle(w, c) ==> Covers(diags, c)
    ensures HeadsDiffer(diags)
    ensures (forall e :: e in w.edges ==> e.to != "") ==>
              forall d :: d in diags ==> WorkflowCycle(w, d) && NoDup(d[1..])
  {
    if w.start == "" || FindNode(w.nodes, w.start).None? {
      return [];
    }
    var adj := BuildExplicit(w, false);
    diags := DetectCycles(w.nodes, adj);
    CyclesCorrespond(w, adj);
    forall d | d in diags ensures exists c :: ShowsWorkflowCycle(w, d, c) {
      ReportedInWorkflow(w, adj, d);
    }
    if forall e :: e in w.edges ==> e.to != "" {
      forall d | d in diags ensures WorkflowCycle(w, d) && NoDup(d[1..]) {
        var c := ReportedShows(adj, NodeIds(w.nodes), d);
        ShownWhole(adj, NodeIds(w.nodes), d, c);
      }
    }
  }

  lemma ReportedInWorkflow(w: Workflow, adj: Adj, d: seq<string>)
    requires Reported(adj, NodeIds(w.nodes), d)
    requires forall c :: RealCycle(adj, c) ==> WorkflowCycle(w, c)
    ensures exists c :: ShowsWorkflowCycle(w, d, c)
  {
    var c := ReportedShows(adj, NodeIds(w.nodes), d);
    assert ShowsWorkflowCycle(w, d, c);
  }

  lemma OnlyLasso(adj: Adj, a: string, p: seq<string>, k: nat)
    requires a != "" && Succ(adj, a) == [""] && Succ(adj, "") == [a] && Lasso(adj, {a}, p, k)
    ensures p == [a, ""] && k == 0
  {
    WalkStaysIn(adj, p, {a, ""});
    NoDupBound(p, {a, ""});
    assert |p| > 1 ==> p[0 + 1] in Succ(adj, p[0]);
  }

  /** An empty ID can hide the whole cycle: with one declared node a and the edges a -> "" -> a,
      whatever the search reports is a -> a, which no edge supports. */
  lemma EmptyIdTruncates(a: string, adj: Adj, d: seq<string>)
    requires a != "" && adj == map[a := [""], "" := [a]] && Reported(adj, {a}, d)
    ensures d == [a, a] && !Walk(adj, d)
  {
    var p, k: nat :| Lasso(adj, {a}, p, k) && d == Shortened(p[k..] + [p[k]]);
    OnlyLasso(adj, a, p, k);
    assert p[0..] + [p[0]] == [a, "", a];
    assert [a, "", a][1..2] == [""];
    assert BehindEmpty([""]) == [];
    assert d[0 + 1] !in Succ(adj, d[0]);
  }

  lemma CyclesCorrespond(w: Workflow, adj: Adj)
    requires forall u :: Succ(adj, u) == ExplicitTargets(w.edges, u, false)
    ensures forall c :: ReachableCycle(w, c) <==> ClosedWalk(adj, c) && FromRoots(adj, NodeIds(w.nodes), c[0])
    ensures (forall e :: e in w.edges ==> e.to != "") ==> NoEmptyTargets(adj)
    ensures forall d :: RealCycle(adj, d) ==> WorkflowCycle(w, d)
  {
    forall u, v ensures v in Succ(adj, u) <==> Leads(w, u, v) {
      TargetsAreLeads(w.edges, u, v);
    }
    forall p ensures Walk(adj, p) <==> WorkflowWalk(w, p) {}
    forall c ensures ClosedWalk(adj, c) <==> WorkflowCycle(w, c) {}
    forall c ensures ReachableCycle(w, c) <==> ClosedWalk(adj, c) && FromRoots(adj, NodeIds(w.nodes), c[0]) {
      ReachableAlike(w, adj, c);
    }
  }

  lemma ReachableAlike(w: Workflow, adj: Adj, c: seq<string>)
    requires forall p :: Walk(adj, p) <==> WorkflowWalk(w, p)
    requires ClosedWalk(adj, c) <==> WorkflowCycle(w, c)
    ensures ReachableCycle(w, c) <==> ClosedWalk(adj, c) && FromRoots(adj, NodeIds(w.nodes), c[0])
  {
    if ClosedWalk(adj, c) && FromRoots(adj, NodeIds(w.nodes), c[0]) {
      var r :| r in NodeIds(w.nodes) && Reaches(adj, r, c[0]);
      var p :| WalkBetween(adj, p, r, c[0]);
      assert WorkflowWalk(w, p);
    }
    if ReachableCycle(w, c) {
      var p :| WorkflowWalk(w, p) && p[0] in NodeIds(w.nodes) && p[|p| - 1] == c[0];
      assert WalkBetween(adj, p, p[0], c[0]);
    }
  }
}
