/** The branches of a parallel node, walked one after the other, whatever leads from node to node. */
module Branches {
  import opened Sequences

  /** Which nodes are declared, and where the last node of a path leads to: the empty ID for nowhere. */
  datatype Guide = Guide(declared: string -> bool, next: seq<string> -> string)

  // ----- one branch

  /** At a declared node of a branch, which is not its join. */
  ghost predicate Inside(g: Guide, join: string, path: seq<string>) {
    path != [] && Last(path) != join && g.declared(Last(path))
  }

  /** Behind the path before it, a branch visits these nodes from its target on, and then turns to the
      current one: none of them is the join, and each leads to the one behind it. */
  ghost predicate BranchUpTo(g: Guide, target: string, join: string, before: seq<string>, seg: seq<string>, current: string)
    decreases |seg|
  {
    if seg == [] then current == target
    else
      && BranchUpTo(g, target, join, before, seg[..|seg| - 1], Last(seg))
      && Inside(g, join, before + seg) && g.next(before + seg) == current != ""
  }

  /** The branch reached the join, which is not part of it, or ended where nothing leads on. */
  ghost predicate BranchDone(g: Guide, target: string, join: string, before: seq<string>, seg: seq<string>) {
    || BranchUpTo(g, target, join, before, seg, join)
    || BranchStuck(g, target, join, before, seg)
  }

  ghost predicate BranchStuck(g: Guide, target: string, join: string, before: seq<string>, seg: seq<string>) {
    && seg != [] && BranchUpTo(g, target, join, before, seg[..|seg| - 1], Last(seg))
    && Inside(g, join, before + seg) && g.next(before + seg) == ""
  }

  /** A branch in progress, with the path before it and the path so far. */
  ghost predicate InBranch(g: Guide, target: string, join: string, before: seq<string>, seg: seq<string>, path: seq<string>, current: string) {
    path == before + seg && BranchUpTo(g, target, join, before, seg, current)
  }

  lemma InBranchBegins(g: Guide, target: string, join: string, before: seq<string>)
    ensures InBranch(g, target, join, before, [], before, target)
  {
  }

  /** One node further: the branch goes on, or ends where nothing leads on. */
  lemma InBranchStep(g: Guide, target: string, join: string, before: seq<string>, seg: seq<string>, path: seq<string>,
                     current: string, next: string)
    requires InBranch(g, target, join, before, seg, path, current)
    requires current != join && g.declared(current) && g.next(path + [current]) == next
    ensures path + [current] == before + (seg + [current])
    ensures next == "" ==> BranchDone(g, target, join, before, seg + [current])
    ensures next != "" ==> InBranch(g, target, join, before, seg + [current], path + [current], next)
  {
    Assoc(before, seg, [current]);
    assert (seg + [current])[..|seg|] == seg;
  }

  // ----- all the branches of a parallel node, one after the other

  function Flat(segs: seq<seq<string>>): seq<string> {
    if segs == [] then [] else Flat(segs[..|segs| - 1]) + segs[|segs| - 1]
  }

  /** Each branch is walked behind those before it. */
  ghost predicate BranchesWalked(g: Guide, selected: seq<string>, join: string, before: seq<string>, segs: seq<seq<string>>)
    decreases |segs|
  {
    && |segs| == |selected|
    && (segs == [] ||
        var i := |segs| - 1;
        && BranchesWalked(g, selected[..i], join, before, segs[..i])
        && BranchDone(g, selected[i], join, before + Flat(segs[..i]), segs[i]))
  }

  /** The first i of the selected branches walked. */
  ghost predicate InBranches(g: Guide, selected: seq<string>, join: string, i: nat, before: seq<string>, segs: seq<seq<string>>, path: seq<string>) {
    i <= |selected| && path == before + Flat(segs) && BranchesWalked(g, selected[..i], join, before, segs)
  }

  lemma InBranchesBegins(g: Guide, selected: seq<string>, join: string, before: seq<string>)
    ensures InBranches(g, selected, join, 0, before, [], before)
  {
    assert before + [] == before;
  }

  lemma InBranchesStep(g: Guide, selected: seq<string>, join: string, i: nat, before: seq<string>, segs: seq<seq<string>>,
                       path: seq<string>, seg: seq<string>)
    requires i < |selected| && InBranches(g, selected, join, i, before, segs, path) && BranchDone(g, selected[i], join, path, seg)
    ensures InBranches(g, selected, join, i + 1, before, segs + [seg], path + seg)
  {
    Assoc(before, Flat(segs), seg);
    assert (segs + [seg])[..|segs|] == segs;
    var part := selected[..i + 1];
    assert part[..i] == selected[..i] && part[i] == selected[i];
  }

  // ----- nothing is left open

  /** Of two stretches of one branch, the shorter is the beginning of the longer. */
  lemma {:induction false} BranchesAgree(g: Guide, target: string, join: string, before: seq<string>, a: seq<string>, x: string,
                                         b: seq<string>, y: string)
    requires BranchUpTo(g, target, join, before, a, x) && BranchUpTo(g, target, join, before, b, y) && |a| <= |b|
    ensures a == b[..|a|] && x == if |a| < |b| then b[|a|] else y
    decreases |b|
  {
    if b != [] {
      var front := b[..|b| - 1];
      if |a| == |b| {
        BranchesAgree(g, target, join, before, a[..|a| - 1], Last(a), front, Last(b));
        FullPrefix(front);
        FullPrefix(b);
        FrontAndLast(a);
        FrontAndLast(b);
      } else {
        BranchesAgree(g, target, join, before, a, x, front, Last(b));
        PrefixOfPrefix(b, |front|, |a|);
      }
    }
  }

  /** Every node of a branch leads on, and is not the join. */
  lemma {:induction false} BranchLeadsOn(g: Guide, target: string, join: string, before: seq<string>, b: seq<string>, y: string, i: nat)
    requires BranchUpTo(g, target, join, before, b, y) && i < |b|
    ensures b[i] != join && g.next(before + b[..i + 1]) != ""
    decreases |b|
  {
    var front := b[..|b| - 1];
    if i < |front| {
      BranchLeadsOn(g, target, join, before, front, Last(b), i);
      PrefixOfPrefix(b, |front|, i + 1);
    } else {
      FullPrefix(b);
      LastOfJoin(before, b);
    }
  }

  /** A finished branch is no stretch of a longer one. */
  lemma BranchDoneStops(g: Guide, target: string, join: string, before: seq<string>, a: seq<string>, b: seq<string>, y: string)
    requires BranchDone(g, target, join, before, a) && BranchUpTo(g, target, join, before, b, y) && |a| <= |b|
    ensures BranchUpTo(g, target, join, before, a, join) && a == b && y == join
  {
    if BranchUpTo(g, target, join, before, a, join) {
      BranchesAgree(g, target, join, before, a, join, b, y);
      if |a| < |b| {
        BranchLeadsOn(g, target, join, before, b, y, |a|);
      }
    } else {
      var front := a[..|a| - 1];
      BranchesAgree(g, target, join, before, front, Last(a), b, y);
      FrontAndLast(a);
      FrontAndLast(b[..|a|]);
      PrefixOfPrefix(b, |a|, |front|);
      BranchLeadsOn(g, target, join, before, b, y, |a| - 1);
    }
  }

  lemma BranchUnique(g: Guide, target: string, join: string, before: seq<string>, a: seq<string>, b: seq<string>)
    requires BranchDone(g, target, join, before, a) && BranchDone(g, target, join, before, b) && |a| <= |b|
    ensures a == b
  {
    if BranchUpTo(g, target, join, before, b, join) {
      BranchDoneStops(g, target, join, before, a, b, join);
    } else {
      var front := b[..|b| - 1];
      if |a| < |b| {
        BranchDoneStops(g, target, join, before, a, front, Last(b));
      } else if BranchUpTo(g, target, join, before, a, join) {
        BranchDoneStops(g, target, join, before, b, a, join);
      } else {
        BranchesAgree(g, target, join, before, a[..|a| - 1], Last(a), front, Last(b));
        FrontAndLast(a);
        FrontAndLast(b);
      }
    }
  }

  lemma {:induction false} BranchesUnique(g: Guide, selected: seq<string>, join: string, before: seq<string>,
                                          a: seq<seq<string>>, b: seq<seq<string>>)
    requires BranchesWalked(g, selected, join, before, a) && BranchesWalked(g, selected, join, before, b)
    ensures a == b
    decreases |selected|
  {
    if selected != [] {
      var i := |selected| - 1;
      BranchesUnique(g, selected[..i], join, before, a[..i], b[..i]);
      if |a[i]| <= |b[i]| {
        BranchUnique(g, selected[i], join, before + Flat(a[..i]), a[i], b[i]);
      } else {
        BranchUnique(g, selected[i], join, before + Flat(a[..i]), b[i], a[i]);
      }
      FrontAndLast(a);
      FrontAndLast(b);
    }
  }
}
