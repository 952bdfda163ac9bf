/** The shape of every run, parallel branches included: which node follows which. */
module RunShape {
  import opened IR
  import opened Graphs
  import opened Lookup
  import opened Sequences
  import opened RunContext
  import opened MainLine
  import opened Branches

  // ----- which branches a parallel node walks, and up to where

  function ResolveTargets(targets: seq<string>, branches: seq<string>): seq<string> {
    if |targets| > 0 then targets else branches
  }

  function SelectBranches(branch: map<string, bool>, targets: seq<string>): seq<string> {
    var selected := Selected(branch, targets);
    if |branch| == 0 || |selected| == 0 then targets else selected
  }

  function Selected(branch: map<string, bool>, targets: seq<string>): seq<string> {
    if targets == [] then []
    else
      var t := targets[|targets| - 1];
      Selected(branch, targets[..|targets| - 1]) + if t in branch && branch[t] then [t] else []
  }

  /** Only flagged targets are selected, every one of them is, and without any all targets are. */
  lemma {:induction false} SelectedExact(branch: map<string, bool>, targets: seq<string>)
    ensures forall t :: t in Selected(branch, targets) <==> t in targets && t in branch && branch[t]
    ensures forall t :: t in SelectBranches(branch, targets)
                   <==> t in targets && ((t in branch && branch[t]) || forall u <- targets :: u in branch ==> !branch[u])
    decreases |targets|
  {
    if targets != [] {
      var last := targets[|targets| - 1];
      assert targets == targets[..|targets| - 1] + [last];
      SelectedExact(branch, targets[..|targets| - 1]);
    }
    SelectedCases(branch, targets);
  }

  lemma SelectedCases(branch: map<string, bool>, targets: seq<string>)
    requires forall t :: t in Selected(branch, targets) <==> t in targets && t in branch && branch[t]
    ensures forall t :: t in SelectBranches(branch, targets)
                   <==> t in targets && ((t in branch && branch[t]) || forall u <- targets :: u in branch ==> !branch[u])
  {
    var selected := Selected(branch, targets);
    if selected != [] {
      assert selected[0] in selected;
      assert branch.Keys != {};
    }
  }

  /** Targets are selected one by one, in their order. */
  lemma {:induction false} SelectedJoin(branch: map<string, bool>, a: seq<string>, b: seq<string>)
    ensures Selected(branch, a + b) == Selected(branch, a) + Selected(branch, b)
    decreases |b|
  {
    if b == [] {
      assert a + b == a;
    } else {
      var front, last := b[..|b| - 1], [b[|b| - 1]];
      assert (a + b)[..|a + b| - 1] == a + front;
      SelectedJoin(branch, a, front);
      Assoc(Selected(branch, a), Selected(branch, front), if b[|b| - 1] in branch && branch[b[|b| - 1]] then last else []);
    }
  }

  /** The branches that a parallel node walks, in the order of its targets, or of its branches if it has no
      targets: those that are flagged, or all of them when none is. */
  lemma BranchesChosen(branch: map<string, bool>, targets: seq<string>, branches: seq<string>, t: string)
    ensures Selected(branch, [t]) == if t in branch && branch[t] then [t] else []
    ensures var all := if targets == [] then branches else targets;
            && ((exists u :: u in all && u in branch && branch[u]) ==>
                  SelectBranches(branch, ResolveTargets(targets, branches)) == Selected(branch, all))
            && ((forall u :: u in all ==> u !in branch || !branch[u]) ==>
                  SelectBranches(branch, ResolveTargets(targets, branches)) == all)
  {
    assert [t][..0] == [];
    var all := if targets == [] then branches else targets;
    SelectedExact(branch, all);
    if Selected(branch, all) != [] {
      assert Selected(branch, all)[0] in Selected(branch, all);
    }
  }

  predicate Joins(n: Node, targets: seq<string>) {
    n.config.FanIn? && n.config.sources != [] && forall x :: x in n.config.sources ==> x in targets
  }

  /** The first fan-in node with sources that are all among the targets; the empty ID for none. */
  function FindJoinNode(nodes: seq<Node>, targets: seq<string>): string {
    if nodes == [] then ""
    else if Joins(nodes[0], targets) then nodes[0].id
    else FindJoinNode(nodes[1..], targets)
  }

  /** The join found is the first node that joins; the empty ID stands for none. */
  lemma {:induction false} JoinExact(nodes: seq<Node>, targets: seq<string>)
    ensures (forall n <- nodes :: !AllSourcesIn(n, targets)) ==> FindJoinNode(nodes, targets) == ""
    ensures forall i :: 0 <= i < |nodes| && FirstJoin(nodes, targets, i) ==> FindJoinNode(nodes, targets) == nodes[i].id
    ensures (exists n <- nodes :: AllSourcesIn(n, targets)) ==> exists i :: 0 <= i < |nodes| && FirstJoin(nodes, targets, i)
    decreases |nodes|
  {
    if nodes != [] {
      var rest := nodes[1..];
      JoinExact(rest, targets);
      JoinsExact(nodes[0], targets);
      if AllSourcesIn(nodes[0], targets) {
        assert FirstJoin(nodes, targets, 0);
      } else {
        forall i | 0 <= i < |nodes| && FirstJoin(nodes, targets, i) ensures FindJoinNode(nodes, targets) == nodes[i].id {
          assert nodes[i] == rest[i - 1];
          assert forall j :: 0 <= j < |rest| ==> rest[j] == nodes[j + 1];
          assert FirstJoin(rest, targets, i - 1);
        }
        forall i | 0 <= i < |rest| && FirstJoin(rest, targets, i) ensures FirstJoin(nodes, targets, i + 1) {
          forall j | 0 <= j < i + 1 ensures !AllSourcesIn(nodes[j], targets) {
            if j > 0 { assert nodes[j] == rest[j - 1]; }
          }
        }
        if n :| n in nodes && AllSourcesIn(n, targets) {
          assert n in rest;
          var i :| 0 <= i < |rest| && FirstJoin(rest, targets, i);
          assert FirstJoin(nodes, targets, i + 1);
        }
        assert forall n <- rest :: n in nodes;
      }
    }
  }

  ghost predicate FirstJoin(nodes: seq<Node>, targets: seq<string>, i: nat)
    requires i < |nodes|
  {
    AllSourcesIn(nodes[i], targets) && forall j :: 0 <= j < i ==> !AllSourcesIn(nodes[j], targets)
  }

  /** A fan-in node that has sources and lists targets of the parallel node only. */
  ghost predicate AllSourcesIn(n: Node, targets: seq<string>) {
    match n.config
    case FanIn(sources) => |sources| > 0 && forall x :: x in sources ==> x in targets
    case _ => false
  }

  lemma JoinsExact(n: Node, targets: seq<string>)
    ensures Joins(n, targets) <==> AllSourcesIn(n, targets)
  {
  }

  // ----- the branches of a parallel node

  /** How the executor goes on inside a branch. */
  function GuideOf(s: Setting): Guide {
    Guide(id => id in NodeIds(s.w.nodes), path => if path == [] then "" else NextId(s, path))
  }

  lemma AllBranchesWalked(s: Setting, targets: seq<string>, branches: seq<string>, selected: seq<string>, join: string,
                          before: seq<string>, segs: seq<seq<string>>, path: seq<string>)
    requires selected == SelectedOf(s, targets, branches) && join == JoinOf(s, targets, branches)
    requires InBranches(GuideOf(s), selected, join, |selected|, before, segs, path)
    ensures path == before + Flat(segs) && Branched(s, targets, branches, before, Flat(segs))
  {
    assert selected[..|selected|] == selected;
  }

  function SelectedOf(s: Setting, targets: seq<string>, branches: seq<string>): seq<string> {
    SelectBranches(s.opts.branch, ResolveTargets(targets, branches))
  }

  function JoinOf(s: Setting, targets: seq<string>, branches: seq<string>): string {
    FindJoinNode(s.w.nodes, ResolveTargets(targets, branches))
  }

  ghost predicate Branched(s: Setting, targets: seq<string>, branches: seq<string>, before: seq<string>, rest: seq<string>) {
    exists segs :: BranchesWalked(GuideOf(s), SelectedOf(s, targets, branches), JoinOf(s, targets, branches), before, segs) && rest == Flat(segs)
  }

  /** In the midst of the branches: some are walked, another one is under way. */
  ghost predicate Branching(s: Setting, targets: seq<string>, branches: seq<string>, before: seq<string>, rest: seq<string>, next: string) {
    exists i: nat, segs, seg ::
      && BranchingAt(s, SelectedOf(s, targets, branches), JoinOf(s, targets, branches), i, before, segs, seg, next)
      && rest == Flat(segs) + seg
  }

  ghost predicate BranchingAt(s: Setting, selected: seq<string>, join: string, i: nat, before: seq<string>, segs: seq<seq<string>>,
                              seg: seq<string>, next: string)
  {
    && i < |selected| && InBranches(GuideOf(s), selected, join, i, before, segs, before + Flat(segs))
    && BranchUpTo(GuideOf(s), selected[i], join, before + Flat(segs), seg, next)
  }

  lemma StillBranching(s: Setting, targets: seq<string>, branches: seq<string>, selected: seq<string>, join: string, i: nat,
                       before: seq<string>, segs: seq<seq<string>>, path: seq<string>, seg: seq<string>, longer: seq<string>, next: string)
    requires selected == SelectedOf(s, targets, branches) && join == JoinOf(s, targets, branches)
    requires i < |selected| && InBranches(GuideOf(s), selected, join, i, before, segs, path)
    requires InBranch(GuideOf(s), selected[i], join, path, seg, longer, next)
    ensures longer == before + (Flat(segs) + seg)
    ensures Branching(s, targets, branches, before, Flat(segs) + seg, next)
  {
    Assoc(before, Flat(segs), seg);
    assert BranchingAt(s, selected, join, i, before, segs, seg, next);
  }

  // ----- the main line

  /** From the last node of the path, on the main line, with what is visited before the next one: nothing
      after an ordinary node, whose edge leads there; the selected branches after a parallel node, whose
      join is next. */
  ghost predicate StepShape(s: Setting, path: seq<string>, rest: seq<string>, next: string)
    requires path != []
  {
    var n := FindNode(s.w.nodes, Last(path));
    && n.Some? && Last(path) != s.w.exit && next != ""
    && match n.value.config
       case Parallel(targets, branches) => next == JoinOf(s, targets, branches) && Branched(s, targets, branches, path, rest)
       case _ => rest == [] && next == NextId(s, path)
  }

  /** How a run ends: at the exit, at an ordinary node with nothing to lead on, or behind the branches
      of a parallel node without a join. */
  ghost predicate EndShape(s: Setting, path: seq<string>, rest: seq<string>, status: string)
    requires path != []
  {
    var n := FindNode(s.w.nodes, Last(path));
    && n.Some?
    && if Last(path) == s.w.exit then rest == [] && status == "success"
       else status == "dead_end" && match n.value.config
         case Parallel(targets, branches) => JoinOf(s, targets, branches) == "" && Branched(s, targets, branches, path, rest)
         case _ => rest == [] && NextId(s, path) == ""
  }

  ghost function LineOf(s: Setting): Line {
    Line(s.w.start, (path, rest, next) => path != [] && StepShape(s, path, rest, next))
  }

  ghost predicate Ends(s: Setting, legs: seq<Leg>, id: string, rest: seq<string>, status: string) {
    Arrives(LineOf(s), legs, id) && EndShape(s, Arrival(legs, id), rest, status)
  }

  ghost predicate Strays(s: Setting, legs: seq<Leg>, id: string, rest: seq<string>, next: string) {
    Arrives(LineOf(s), legs, id) && ForkShape(s, Arrival(legs, id), rest, next)
  }

  /** On the main line the run visits the path and turns to the next node. */
  ghost predicate Shaped(s: Setting, path: seq<string>, next: string) {
    OnLine(LineOf(s), path, next)
  }

  /** The path and the status of a run that ends. */
  ghost predicate RunShaped(s: Setting, path: seq<string>, status: string) {
    exists legs, id, rest :: Ends(s, legs, id, rest, status) && path == Arrival(legs, id) + rest
  }

  /** The run visits the path and turns to the next node, on the main line or inside a branch. */
  ghost predicate OnTheWay(s: Setting, path: seq<string>, next: string) {
    || Shaped(s, path, next)
    || exists legs, id, rest :: Strays(s, legs, id, rest, next) && path == Arrival(legs, id) + rest
  }

  ghost predicate ForkShape(s: Setting, path: seq<string>, rest: seq<string>, next: string)
    requires path != []
  {
    var n := FindNode(s.w.nodes, Last(path));
    && n.Some? && Last(path) != s.w.exit && n.value.config.Parallel?
    && Branching(s, n.value.config.targets, n.value.config.branches, path, rest, next)
  }

  lemma ShapedStep(s: Setting, before: seq<string>, id: string, rest: seq<string>, next: string)
    requires Shaped(s, before, id) && StepShape(s, before + [id], rest, next)
    ensures Shaped(s, before + [id] + rest, next)
  {
    OneMoreLeg(LineOf(s), before, id, rest, next);
  }

  lemma ShapedEnd(s: Setting, before: seq<string>, id: string, rest: seq<string>, status: string)
    requires Shaped(s, before, id) && EndShape(s, before + [id], rest, status)
    ensures RunShaped(s, before + [id] + rest, status)
  {
    var legs :| Arrives(LineOf(s), legs, id) && before == PathOfLegs(legs);
    assert Ends(s, legs, id, rest, status);
  }

  /** On from an ordinary node. */
  lemma AlongEdge(s: Setting, before: seq<string>, n: Node, next: string)
    requires Shaped(s, before, n.id)
    requires FindNode(s.w.nodes, n.id) == Some(n) && n.id != s.w.exit && !n.config.Parallel?
    requires next == NextId(s, before + [n.id])
    ensures next == "" ==> RunShaped(s, before + [n.id], "dead_end")
    ensures next != "" ==> Shaped(s, before + [n.id], next)
  {
    assert before + [n.id] + [] == before + [n.id];
    if next == "" {
      ShapedEnd(s, before, n.id, [], "dead_end");
    } else {
      ShapedStep(s, before, n.id, [], next);
    }
  }

  /** On from a parallel node, behind its branches. */
  lemma BehindBranches(s: Setting, before: seq<string>, n: Node, rest: seq<string>)
    requires Shaped(s, before, n.id)
    requires FindNode(s.w.nodes, n.id) == Some(n) && n.id != s.w.exit && n.config.Parallel?
    requires Branched(s, n.config.targets, n.config.branches, before + [n.id], rest)
    ensures var join := JoinOf(s, n.config.targets, n.config.branches);
            if join == "" then RunShaped(s, before + [n.id] + rest, "dead_end")
            else Shaped(s, before + [n.id] + rest, join)
  {
    var join := JoinOf(s, n.config.targets, n.config.branches);
    if join == "" {
      ShapedEnd(s, before, n.id, rest, "dead_end");
    } else {
      ShapedStep(s, before, n.id, rest, join);
    }
  }

  /** Amid the branches of a parallel node. */
  lemma AmidBranches(s: Setting, before: seq<string>, n: Node, rest: seq<string>, next: string)
    requires Shaped(s, before, n.id)
    requires FindNode(s.w.nodes, n.id) == Some(n) && n.id != s.w.exit && n.config.Parallel?
    requires Branching(s, n.config.targets, n.config.branches, before + [n.id], rest, next)
    ensures OnTheWay(s, before + [n.id] + rest, next)
  {
    var legs :| Arrives(LineOf(s), legs, n.id) && before == PathOfLegs(legs);
    assert Strays(s, legs, n.id, rest, next);
  }

  lemma AtExit(s: Setting, before: seq<string>)
    requires Shaped(s, before, s.w.exit) && s.w.exit in NodeIds(s.w.nodes)
    ensures RunShaped(s, before + [s.w.exit], "success")
  {
    assert before + [s.w.exit] + [] == before + [s.w.exit];
    ShapedEnd(s, before, s.w.exit, [], "success");
  }

  lemma ShapedBegins(s: Setting)
    ensures Shaped(s, [], s.w.start)
  {
    assert Arrives(LineOf(s), [], s.w.start) && PathOfLegs([]) == [];
  }

  // ----- a run meets declared nodes only

  /** Edges and parallel nodes lead to declared nodes. */
  ghost predicate EndpointsDeclared(w: Workflow) {
    && (forall e :: e in w.edges ==> e.to in NodeIds(w.nodes))
    && (forall n :: n in w.nodes && n.config.Parallel? ==> Elements(n.config.targets) <= NodeIds(w.nodes) && Elements(n.config.branches) <= NodeIds(w.nodes))
  }

  lemma {:induction false} ExplicitDeclared(edges: seq<Edge>, id: string)
    ensures forall e :: e in ExplicitFrom(edges, id) ==> e in edges
  {
    if edges != [] {
      ExplicitDeclared(edges[1..], id);
    }
  }

  lemma {:induction false} FanOutTargets(id: string, targets: seq<string>, seen: set<string>)
    ensures forall e :: e in FanOut(id, targets, seen) ==> e.to in targets
    decreases |targets|
  {
    if targets != [] {
      FanOutTargets(id, targets[1..], seen);
      FanOutTargets(id, targets[1..], seen + {targets[0]});
    }
  }

  lemma {:induction false} JoinsDeclared(nodes: seq<Node>, id: string, seen: set<string>)
    ensures forall e :: e in JoinsOf(nodes, id, seen) ==> e.to in NodeIds(nodes)
    decreases |nodes|
  {
    if nodes != [] {
      NodeIdsCons(nodes);
      JoinsDeclared(nodes[1..], id, seen);
      JoinsDeclared(nodes[1..], id, seen + {nodes[0].id});
    }
  }

  lemma EdgesDeclared(w: Workflow, id: string)
    requires EndpointsDeclared(w)
    ensures forall e :: e in EdgesFrom(w, id) ==> e.to in NodeIds(w.nodes)
  {
    var targets := TargetsOf(w, id);
    var seen := Settled(ExplicitFrom(w.edges, id));
    ExplicitDeclared(w.edges, id);
    FanOutTargets(id, targets, seen);
    JoinsDeclared(w.nodes, id, seen + Elements(targets));
    assert Elements(targets) <= NodeIds(w.nodes);
  }

  lemma NextIdDeclared(s: Setting, path: seq<string>)
    requires EndpointsDeclared(s.w) && path != []
    ensures NextId(s, path) == "" || NextId(s, path) in NodeIds(s.w.nodes)
  {
    NextEdgeAvailable(s, path);
    EdgesDeclared(s.w, Last(path));
  }

  lemma BranchDeclared(s: Setting, target: string, join: string, before: seq<string>, seg: seq<string>, next: string)
    requires EndpointsDeclared(s.w) && target in NodeIds(s.w.nodes) && BranchUpTo(GuideOf(s), target, join, before, seg, next)
    ensures next in NodeIds(s.w.nodes)
  {
    if seg != [] {
      NextIdDeclared(s, before + seg);
    }
  }

  lemma JoinDeclared(s: Setting, targets: seq<string>, branches: seq<string>)
    ensures JoinOf(s, targets, branches) == "" || JoinOf(s, targets, branches) in NodeIds(s.w.nodes)
  {
    JoinExact(s.w.nodes, ResolveTargets(targets, branches));
  }

  lemma StepDeclared(s: Setting, path: seq<string>, rest: seq<string>, next: string)
    requires EndpointsDeclared(s.w) && path != [] && StepShape(s, path, rest, next)
    ensures next in NodeIds(s.w.nodes)
  {
    var n := FindNode(s.w.nodes, Last(path)).value;
    NextIdDeclared(s, path);
    if n.config.Parallel? {
      JoinDeclared(s, n.config.targets, n.config.branches);
    }
  }

  lemma ForkDeclared(s: Setting, path: seq<string>, rest: seq<string>, next: string)
    requires EndpointsDeclared(s.w) && path != [] && ForkShape(s, path, rest, next)
    ensures next in NodeIds(s.w.nodes)
  {
    var n := FindNode(s.w.nodes, Last(path)).value;
    var selected, join := SelectedOf(s, n.config.targets, n.config.branches), JoinOf(s, n.config.targets, n.config.branches);
    var i: nat, segs, seg :| BranchingAt(s, selected, join, i, path, segs, seg, next);
    var resolved := ResolveTargets(n.config.targets, n.config.branches);
    SelectedExact(s.opts.branch, resolved);
    assert selected[i] in selected && selected[i] in Elements(resolved);
    BranchDeclared(s, selected[i], join, path + Flat(segs), seg, next);
  }

  lemma OnTheWayDeclared(s: Setting, path: seq<string>, next: string)
    requires EndpointsDeclared(s.w) && s.w.start in NodeIds(s.w.nodes) && OnTheWay(s, path, next)
    ensures next in NodeIds(s.w.nodes)
  {
    if Shaped(s, path, next) {
      var legs :| Arrives(LineOf(s), legs, next);
      if legs != [] {
        var front, last := legs[..|legs| - 1], Last(legs);
        StepDeclared(s, Arrival(front, last.id), last.rest, next);
      }
    } else {
      var legs, id, rest :| Strays(s, legs, id, rest, next);
      ForkDeclared(s, Arrival(legs, id), rest, next);
    }
  }
}
