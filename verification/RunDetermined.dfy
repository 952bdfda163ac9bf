/** The shape of a run leaves nothing open: workflow, options and lower-casing decide the path and
    the status of every run that ends. */
module RunDetermined {
  import opened IR
  import opened Sequences
  import opened RunContext
  import opened MainLine
  import opened Branches
  import opened RunShape

  lemma BranchedUnique(s: Setting, targets: seq<string>, branches: seq<string>, before: seq<string>, r1: seq<string>, r2: seq<string>)
    requires Branched(s, targets, branches, before, r1) && Branched(s, targets, branches, before, r2)
    ensures r1 == r2
  {
    var selected, join := SelectedOf(s, targets, branches), JoinOf(s, targets, branches);
    var a :| BranchesWalked(GuideOf(s), selected, join, before, a) && r1 == Flat(a);
    var b :| BranchesWalked(GuideOf(s), selected, join, before, b) && r2 == Flat(b);
    BranchesUnique(GuideOf(s), selected, join, before, a, b);
  }

  // ----- the main line

  lemma StepUnique(s: Setting, path: seq<string>, r1: seq<string>, next1: string, r2: seq<string>, next2: string)
    requires path != [] && StepShape(s, path, r1, next1) && StepShape(s, path, r2, next2)
    ensures r1 == r2 && next1 == next2
  {
    var n := FindNode(s.w.nodes, Last(path)).value;
    if n.config.Parallel? {
      BranchedUnique(s, n.config.targets, n.config.branches, path, r1, r2);
    }
  }

  lemma EndUnique(s: Setting, path: seq<string>, r1: seq<string>, status1: string, r2: seq<string>, status2: string)
    requires path != [] && EndShape(s, path, r1, status1) && EndShape(s, path, r2, status2)
    ensures r1 == r2 && status1 == status2
  {
    var n := FindNode(s.w.nodes, Last(path)).value;
    if n.config.Parallel? && Last(path) != s.w.exit {
      BranchedUnique(s, n.config.targets, n.config.branches, path, r1, r2);
    }
  }

  lemma StepsDecided(s: Setting)
    ensures Decided(LineOf(s))
  {
    forall path, r1, x1, r2, x2 | LineOf(s).step(path, r1, x1) && LineOf(s).step(path, r2, x2) ensures r1 == r2 && x1 == x2 {
      StepUnique(s, path, r1, x1, r2, x2);
    }
  }

  lemma NoStepAtEnd(s: Setting, path: seq<string>, r1: seq<string>, status: string, r2: seq<string>, next: string)
    ensures !(path != [] && EndShape(s, path, r1, status) && StepShape(s, path, r2, next))
  {
  }

  lemma EndsUnique(s: Setting, a: seq<Leg>, x: string, r1: seq<string>, status1: string,
                   b: seq<Leg>, y: string, r2: seq<string>, status2: string)
    requires Ends(s, a, x, r1, status1) && Ends(s, b, y, r2, status2) && |a| <= |b|
    ensures a == b && x == y && r1 == r2 && status1 == status2
  {
    StepsDecided(s);
    ArrivesUnique(LineOf(s), a, x, b, y);
    if |a| < |b| {
      LeadsOn(LineOf(s), b, y, |a|);
      var next :| LineOf(s).step(Arrival(a, x), b[|a|].rest, next);
      NoStepAtEnd(s, Arrival(a, x), r1, status1, b[|a|].rest, next);
    } else {
      FullPrefix(b);
      EndUnique(s, Arrival(b, y), r1, status1, r2, status2);
    }
  }

  /** Two runs of one workflow under the same options end alike. */
  lemma RunDetermined(s: Setting, p: seq<string>, status1: string, q: seq<string>, status2: string)
    requires RunShaped(s, p, status1) && RunShaped(s, q, status2)
    ensures p == q && status1 == status2
  {
    var a, x, r1 :| Ends(s, a, x, r1, status1) && p == Arrival(a, x) + r1;
    var b, y, r2 :| Ends(s, b, y, r2, status2) && q == Arrival(b, y) + r2;
    if |a| <= |b| {
      EndsUnique(s, a, x, r1, status1, b, y, r2, status2);
    } else {
      EndsUnique(s, b, y, r2, status2, a, x, r1, status1);
    }
  }
}
