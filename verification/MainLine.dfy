/** The main line of a run, leg by leg, whatever leads from one leg to the next. */
module MainLine {
  import opened Sequences

  /** A node of the main line and what is visited behind it, before the next one. */
  datatype Leg = Leg(id: string, rest: seq<string>)

  function PathOfLegs(legs: seq<Leg>): seq<string>
    decreases |legs|, 0
  {
    if legs == [] then [] else Arrival(legs[..|legs| - 1], Last(legs).id) + Last(legs).rest
  }

  /** The path up to the main-line node that the legs lead to. */
  function Arrival(legs: seq<Leg>, id: string): (path: seq<string>)
    ensures path != []
    decreases |legs|, 1
  {
    PathOfLegs(legs) + [id]
  }

  /** Where the line starts, and what may be visited behind a path before which next node. */
  datatype Line = Line(start: string, step: (seq<string>, seq<string>, string) -> bool)

  /** Leg by leg the line comes to the next node. */
  predicate Arrives(g: Line, legs: seq<Leg>, next: string) {
    if legs == [] then next == g.start
    else
      var front, last := legs[..|legs| - 1], Last(legs);
      Arrives(g, front, last.id) && g.step(Arrival(front, last.id), last.rest, next)
  }

  /** The line visits the path and turns to the next node. */
  ghost predicate OnLine(g: Line, path: seq<string>, next: string) {
    exists legs :: Arrives(g, legs, next) && path == PathOfLegs(legs)
  }

  lemma OneMoreLeg(g: Line, path: seq<string>, id: string, rest: seq<string>, next: string)
    requires OnLine(g, path, id) && g.step(path + [id], rest, next)
    ensures OnLine(g, path + [id] + rest, next)
  {
    var legs :| Arrives(g, legs, id) && path == PathOfLegs(legs);
    var more := legs + [Leg(id, rest)];
    assert more[..|legs|] == legs;
    assert Arrives(g, more, next);
  }

  // ----- a line on which every step is decided

  ghost predicate Decided(g: Line) {
    forall path, r1, x1, r2, x2 :: g.step(path, r1, x1) && g.step(path, r2, x2) ==> r1 == r2 && x1 == x2
  }

  /** Of two stretches of it, the shorter is the beginning of the longer. */
  lemma {:induction false} ArrivesUnique(g: Line, a: seq<Leg>, x: string, b: seq<Leg>, y: string)
    requires Decided(g) && Arrives(g, a, x) && Arrives(g, b, y) && |a| <= |b|
    ensures a == b[..|a|] && x == if |a| < |b| then b[|a|].id else y
    decreases |b|
  {
    if b != [] {
      var front := b[..|b| - 1];
      FrontAndLast(b);
      FullPrefix(b);
      if |a| == |b| {
        ArrivesUnique(g, a[..|a| - 1], Last(a).id, front, Last(b).id);
        FrontAndLast(a);
        FullPrefix(front);
      } else {
        ArrivesUnique(g, a, x, front, Last(b).id);
        PrefixOfPrefix(b, |front|, |a|);
      }
    }
  }

  /** Every leg leads on. */
  lemma {:induction false} LeadsOn(g: Line, b: seq<Leg>, y: string, i: nat)
    requires Arrives(g, b, y) && i < |b|
    ensures exists next :: g.step(Arrival(b[..i], b[i].id), b[i].rest, next)
    decreases |b|
  {
    if i < |b| - 1 {
      LeadsOn(g, b[..|b| - 1], Last(b).id, i);
      PrefixOfPrefix(b, |b| - 1, i);
    }
  }
}
