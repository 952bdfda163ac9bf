/** In which order the all-paths search finds its walks, and which of them it records. */
module PathOrder {
  import opened IR
  import opened Runs
  import opened PathEnumerator

  /** One edge is offered before another. */
  ghost predicate OfferedBefore(edges: seq<Edge>, a: Edge, b: Edge) {
    exists i, j :: 0 <= i < j < |edges| && edges[i] == a && edges[j] == b
  }

  /** The two walks are the same up to one node, where the first takes an edge that is offered before the
      edge the second takes. */
  ghost predicate PartAt(g: Space, t1: seq<Edge>, t2: seq<Edge>, k: nat) {
    && k < |t1| && k < |t2| && t1[..k] == t2[..k]
    && OfferedBefore(g.next(Here(g.start, t1[..k])), t1[k], t2[k])
  }

  ghost predicate Precedes(g: Space, t1: seq<Edge>, t2: seq<Edge>) {
    exists k: nat :: PartAt(g, t1, t2, k)
  }

  lemma PartsHere(g: Space, trail: seq<Edge>, from: nat, t1: seq<Edge>, t2: seq<Edge>)
    requires var edges := g.next(Here(g.start, trail));
             && from < |edges| && trail + [edges[from]] <= t1
             && |trail| < |t2| && trail <= t2 && t2[|trail|] in edges[from + 1..]
    ensures Precedes(g, t1, t2)
  {
    var edges, k := g.next(Here(g.start, trail)), |trail|;
    PrefixStep(trail, edges[from], t1);
    var m :| 0 <= m < |edges[from + 1..]| && edges[from + 1..][m] == t2[k];
    assert edges[from + 1 + m] == t2[k] && edges[from] == t1[k];
    assert t1[..k] == trail && t2[..k] == trail;
    assert PartAt(g, t1, t2, k);
  }

  ghost predicate InOrder(g: Space, found: seq<seq<Edge>>) {
    forall i, j :: 0 <= i < j < |found| ==> Precedes(g, found[i], found[j])
  }

  ghost predicate AllPrecede(g: Space, head: seq<seq<Edge>>, tail: seq<seq<Edge>>) {
    forall i, j :: 0 <= i < |head| && 0 <= j < |tail| ==> Precedes(g, head[i], tail[j])
  }

  lemma InOrderJoin(g: Space, head: seq<seq<Edge>>, tail: seq<seq<Edge>>)
    requires InOrder(g, head) && InOrder(g, tail) && AllPrecede(g, head, tail)
    ensures InOrder(g, head + tail)
  {
  }

  lemma HeadPrecedes(g: Space, trail: seq<Edge>, from: nat)
    requires |trail| <= MAX_DEPTH && from < |g.next(Here(g.start, trail))|
    requires forall e :: e in g.next(Here(g.start, trail)) ==> Extensible(g, trail + [e])
    ensures var edges := g.next(Here(g.start, trail));
            AllPrecede(g, Trails(g, trail + [edges[from]]), TrailsOver(g, trail, edges[from + 1..]))
  {
    var edges := g.next(Here(g.start, trail));
    var head, tail := Trails(g, trail + [edges[from]]), TrailsOver(g, trail, edges[from + 1..]);
    forall i, j | 0 <= i < |head| && 0 <= j < |tail| ensures Precedes(g, head[i], tail[j]) {
      TrailsExact(g, trail + [edges[from]], head[i]);
      TrailsOverExact(g, trail, edges[from + 1..], tail[j]);
      PartsHere(g, trail, from, head[i], tail[j]);
    }
  }

  lemma {:induction false} TrailsInOrder(g: Space, trail: seq<Edge>)
    requires Extensible(g, trail)
    ensures InOrder(g, Trails(g, trail))
    decreases MAX_DEPTH + 1 - |trail|, 0
  {
    if Enters(g, trail) && !Stops(g, trail) {
      BranchesExtensible(g, trail);
      TrailsOverInOrder(g, trail, 0);
    }
  }

  lemma {:induction false} TrailsOverInOrder(g: Space, trail: seq<Edge>, from: nat)
    requires |trail| <= MAX_DEPTH && from <= |g.next(Here(g.start, trail))|
    requires forall e :: e in g.next(Here(g.start, trail)) ==> Extensible(g, trail + [e])
    ensures InOrder(g, TrailsOver(g, trail, g.next(Here(g.start, trail))[from..]))
    decreases MAX_DEPTH - |trail|, 1, |g.next(Here(g.start, trail))| - from
  {
    var edges := g.next(Here(g.start, trail));
    if from < |edges| {
      TrailsInOrder(g, trail + [edges[from]]);
      TrailsOverInOrder(g, trail, from + 1);
      HeadPrecedes(g, trail, from);
      InOrderJoin(g, Trails(g, trail + [edges[from]]), TrailsOver(g, trail, edges[from + 1..]));
      assert edges[from..][1..] == edges[from + 1..];
    }
  }

  /** Walks are found in the order in which the lookup offers the edges on which they part. */
  lemma SearchInOrder(g: Space, i: nat, j: nat)
    requires i < j < |Trails(g, [])|
    ensures Precedes(g, Trails(g, [])[i], Trails(g, [])[j])
  {
    assert PathOf(g.start, [])[..0] == [];
    TrailsInOrder(g, []);
  }

  /** The results of the search: the first hundred walks found, in this order, one report for each. */
  lemma FirstHundredRecorded(w: Workflow, k: nat)
    requires k < |Trails(SpaceOf(w), [])| && k < 100
    ensures var found := Trails(SpaceOf(w), []);
            var results := Take(Reports(w, found), MAX_RESULTS);
            && |results| == (if |found| < 100 then |found| else 100)
            && results[k] == Report(w, found[k])
  {
    ReportsAt(w, Trails(SpaceOf(w), []), k);
  }
}
