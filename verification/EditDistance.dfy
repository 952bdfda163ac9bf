/** Spelling suggestions for unknown node names (validator/validate.go): the two-row edit distance. */
module EditDistance {
  import opened IR

  // ----- edit scripts

  datatype Edit = Keep | Subst(c: char) | Insert(c: char) | Delete

  /** The text that a script makes of a string, reading both from left to right; None when it does
      not fit the string. */
  function Apply(script: seq<Edit>, a: string): Option<string>
    decreases |script|
  {
    if script == [] then
      if a == "" then Some("") else None
    else
      match script[0]
      case Keep => if a == "" then None else Prepend(a[0], Apply(script[1..], a[1..]))
      case Subst(c) => if a == "" then None else Prepend(c, Apply(script[1..], a[1..]))
      case Insert(c) => Prepend(c, Apply(script[1..], a))
      case Delete => if a == "" then None else Apply(script[1..], a[1..])
  }

  function Prepend(c: char, r: Option<string>): Option<string> {
    match r
    case None => None
    case Some(s) => Some([c] + s)
  }

  function Cost(script: seq<Edit>): nat {
    if script == [] then 0 else (if script[0].Keep? then 0 else 1) + Cost(script[1..])
  }

  ghost predicate Turns(script: seq<Edit>, a: string, b: string) {
    Apply(script, a) == Some(b)
  }

  // ----- the distance, by its recurrence over prefixes

  function Min3(a: nat, b: nat, c: nat): nat {
    var m := if b < a then b else a;
    if c < m then c else m
  }

  function Front(s: string): string
    requires s != ""
  {
    s[..|s| - 1]
  }

  function Last(s: string): char
    requires s != ""
  {
    s[|s| - 1]
  }

  function Distance(a: string, b: string): nat
    decreases |a| + |b|
  {
    if a == "" then |b|
    else if b == "" then |a|
    else Min3(Distance(a, Front(b)) + 1, Distance(Front(a), b) + 1,
              Distance(Front(a), Front(b)) + if Last(a) == Last(b) then 0 else 1)
  }

  // ----- the two rows

  ghost predicate IsRow(row: seq<nat>, upTo: nat, a: string, b: string)
    requires upTo <= |row| <= |b| + 1
  {
    forall j | 0 <= j < upTo :: row[j] == At(a, b, j)
  }

  function At(a: string, b: string, j: nat): nat
    requires j <= |b|
  {
    Distance(a, b[..j])
  }

  lemma Cell(a: string, b: string, i: nat, j: nat)
    requires 0 < i <= |a| && 0 < j <= |b|
    ensures At(a[..i], b, j)
         == Min3(At(a[..i], b, j - 1) + 1, At(a[..i - 1], b, j) + 1,
                 At(a[..i - 1], b, j - 1) + if a[i - 1] == b[j - 1] then 0 else 1)
  {
    assert Front(a[..i]) == a[..i - 1] && Front(b[..j]) == b[..j - 1];
  }

  /** One more cell of a row, from its three neighbours. */
  lemma RowGrows(a: string, b: string, i: nat, j: nat, prev: seq<nat>, curr: seq<nat>, cost: nat)
    requires 0 < i <= |a| && 0 < j <= |b| && |prev| == |curr| == |b| + 1
    requires IsRow(prev, |b| + 1, a[..i - 1], b) && IsRow(curr, j, a[..i], b)
    requires cost == if a[i - 1] == b[j - 1] then 0 else 1
    ensures IsRow(curr[j := Min3(curr[j - 1] + 1, prev[j] + 1, prev[j - 1] + cost)], j + 1, a[..i], b)
  {
    Cell(a, b, i, j);
    assert prev[j] == At(a[..i - 1], b, j) && prev[j - 1] == At(a[..i - 1], b, j - 1);
    assert curr[j - 1] == At(a[..i], b, j - 1);
  }

  method FillLevenshteinRow(a: string, b: string, i: nat, prev: array<nat>, curr: array<nat>)
    requires 0 < i <= |a|
    requires prev != curr && prev.Length == curr.Length == |b| + 1
    requires IsRow(prev[..], |b| + 1, a[..i - 1], b)
    requires curr[0] == i
    modifies curr
    ensures IsRow(curr[..], |b| + 1, a[..i], b)
  {
    FirstCell(curr[..], a, b, i);
    for j := 1 to |b| + 1
      invariant IsRow(curr[..], j, a[..i], b)
      invariant prev[..] == old(prev[..])
    {
      var cost := 1;
      if a[i - 1] == b[j - 1] {
        cost := 0;
      }
      RowGrows(a, b, i, j, prev[..], curr[..], cost);
      ghost var was := curr[..];
      var d := Min3(curr[j - 1] + 1, prev[j] + 1, prev[j - 1] + cost);
      curr[j] := d;
      assert curr[..] == was[j := d];
    }
  }

  lemma FirstCell(row: seq<nat>, a: string, b: string, i: nat)
    requires 0 < i <= |a| && |row| == |b| + 1 && row[0] == i
    ensures IsRow(row, 1, a[..i], b)
  {
    assert b[..0] == "";
  }

  method Levenshtein(a: string, b: string) returns (d: nat)
    ensures d == Distance(a, b)
  {
    var la, lb := |a|, |b|;
    if la == 0 { return lb; }
    if lb == 0 { return la; }
    var prev := new nat[lb + 1];
    var curr := new nat[lb + 1];
    for j := 0 to lb + 1
      invariant forall k | 0 <= k < j :: prev[k] == k
    {
      prev[j] := j;
    }
    assert IsRow(prev[..], lb + 1, a[..0], b);
    for i := 1 to la + 1
      invariant prev != curr && fresh(prev) && fresh(curr) && prev.Length == curr.Length == lb + 1
      invariant IsRow(prev[..], lb + 1, a[..i - 1], b)
    {
      curr[0] := i;
      FillLevenshteinRow(a, b, i, prev, curr);
      prev, curr := curr, prev;
    }
    assert a[..la] == a && b[..lb] == b;
    assert prev[lb] == prev[..][lb];
    d := prev[lb];
  }

  // ----- the distance is the cost of a cheapest script

  lemma {:induction false} CostJoin(s: seq<Edit>, t: seq<Edit>)
    ensures Cost(s + t) == Cost(s) + Cost(t)
    decreases |s|
  {
    if s == [] {
      assert s + t == t;
    } else {
      assert (s + t)[1..] == s[1..] + t;
      CostJoin(s[1..], t);
    }
  }

  lemma {:induction false} ApplyJoin(s: seq<Edit>, a: string, b: string, t: seq<Edit>, c: string, d: string)
    requires Turns(s, a, b) && Turns(t, c, d)
    ensures Turns(s + t, a + c, b + d)
    decreases |s|
  {
    if s == [] {
      assert s + t == t && a + c == c && b + d == d;
    } else {
      assert (s + t)[1..] == s[1..] + t;
      var a' := if s[0].Insert? then a else a[1..];
      var b' := Apply(s[1..], a').value;
      ApplyJoin(s[1..], a', b', t, c, d);
      if !s[0].Insert? {
        assert (a + c)[0] == a[0] && (a + c)[1..] == a' + c;
      }
      if !s[0].Delete? {
        assert b == [b[0]] + b';
        assert [b[0]] + b' + d == [b[0]] + (b' + d);
      }
    }
  }

  /** A script of least cost, read off the recurrence. */
  function Cheapest(a: string, b: string): (s: seq<Edit>)
    decreases |a| + |b|
  {
    if a == "" && b == "" then []
    else if a == "" then Cheapest(a, Front(b)) + [Insert(Last(b))]
    else if b == "" then Cheapest(Front(a), b) + [Delete]
    else
      var change := Distance(Front(a), Front(b)) + if Last(a) == Last(b) then 0 else 1;
      if Distance(a, b) == change then
        Cheapest(Front(a), Front(b)) + [if Last(a) == Last(b) then Keep else Subst(Last(b))]
      else if Distance(a, b) == Distance(a, Front(b)) + 1 then Cheapest(a, Front(b)) + [Insert(Last(b))]
      else Cheapest(Front(a), b) + [Delete]
  }

  lemma ApplyOne(e: Edit, c: char)
    ensures e.Keep? ==> Turns([e], [c], [c])
    ensures e.Subst? ==> Turns([e], [c], [e.c])
    ensures e.Insert? ==> Turns([e], "", [e.c])
    ensures e.Delete? ==> Turns([e], [c], "")
    ensures Cost([e]) == if e.Keep? then 0 else 1
  {
    assert [e][1..] == [];
    assert Apply([], "") == Some("");
    assert [c][1..] == "";
    assert [c] + "" == [c];
    if e.Subst? || e.Insert? {
      assert [e.c] + "" == [e.c];
    }
  }

  /** What is left to turn before a script's last step. */
  predicate Before(e: Edit, a: string, b: string, a': string, b': string) {
    && (if e.Insert? then a' == a else a != "" && a' == Front(a))
    && (if e.Delete? then b' == b else b != "" && b' == Front(b))
    && (e.Keep? ==> Last(a) == Last(b))
    && (e.Subst? || e.Insert? ==> e.c == Last(b))
  }

  lemma AddStep(s: seq<Edit>, e: Edit, a: string, b: string, a': string, b': string)
    requires Turns(s, a', b') && Before(e, a, b, a', b')
    ensures Turns(s + [e], a, b)
    ensures Cost(s + [e]) == Cost(s) + if e.Keep? then 0 else 1
  {
    var c := if e.Insert? then 'x' else Last(a);
    ApplyOne(e, c);
    ApplyJoin(s, a', b', [e], if e.Insert? then "" else [c], if e.Delete? then "" else [Last(b)]);
    CostJoin(s, [e]);
    assert a == a' + if e.Insert? then "" else [c];
    assert b == b' + if e.Delete? then "" else [Last(b)];
  }

  lemma {:induction false} CheapestIsScript(a: string, b: string)
    ensures Turns(Cheapest(a, b), a, b) && Cost(Cheapest(a, b)) == Distance(a, b)
    decreases |a| + |b|
  {
    if a == "" && b == "" {
    } else if a == "" {
      CheapestIsScript(a, Front(b));
      AddStep(Cheapest(a, Front(b)), Insert(Last(b)), a, b, a, Front(b));
    } else if b == "" {
      CheapestIsScript(Front(a), b);
      AddStep(Cheapest(Front(a), b), Delete, a, b, Front(a), b);
    } else {
      CheapestIsScript(Front(a), Front(b));
      AddStep(Cheapest(Front(a), Front(b)), if Last(a) == Last(b) then Keep else Subst(Last(b)), a, b, Front(a), Front(b));
      CheapestIsScript(a, Front(b));
      AddStep(Cheapest(a, Front(b)), Insert(Last(b)), a, b, a, Front(b));
      CheapestIsScript(Front(a), b);
      AddStep(Cheapest(Front(a), b), Delete, a, b, Front(a), b);
    }
  }

  /** What is left to turn after a script's first step. */
  predicate After(e: Edit, a: string, b: string, a': string, b': string) {
    && (if e.Insert? then a' == a else a != "" && a' == a[1..])
    && (if e.Delete? then b' == b else b != "" && b' == b[1..])
    && (e.Keep? ==> a[0] == b[0])
    && (e.Subst? || e.Insert? ==> e.c == b[0])
  }

  lemma Peel(s: seq<Edit>, a: string, b: string) returns (a': string, b': string)
    requires s != [] && Turns(s, a, b)
    ensures After(s[0], a, b, a', b') && Turns(s[1..], a', b')
  {
    a' := if s[0].Insert? then a else a[1..];
    b' := Apply(s[1..], a').value;
    if !s[0].Delete? {
      assert b[1..] == b';
    }
  }

  lemma Push(s: seq<Edit>, a: string, b: string, a': string, b': string)
    requires s != [] && After(s[0], a, b, a', b') && Turns(s[1..], a', b')
    ensures Turns(s, a, b)
  {
    if !s[0].Delete? {
      assert b == [b[0]] + b';
    }
  }

  lemma Swap(first: Edit, last: Edit, a: string, b: string, a': string, b': string, p: string, q: string)
      returns (a0: string, b0: string)
    requires After(first, a, b, a', b') && Before(last, a', b', p, q)
    ensures Before(last, a, b, a0, b0) && After(first, a0, b0, p, q)
  {
    a0 := if last.Insert? then a else Front(a);
    b0 := if last.Delete? then b else Front(b);
  }

  /** The last step of a fitting script, and the fitting script before it. */
  lemma {:induction false} LastStep(s: seq<Edit>, a: string, b: string) returns (a0: string, b0: string)
    requires s != [] && Turns(s, a, b)
    ensures Before(s[|s| - 1], a, b, a0, b0) && Turns(s[..|s| - 1], a0, b0)
    decreases |s|
  {
    var a', b' := Peel(s, a, b);
    if |s| == 1 {
      assert s[1..] == [] == s[..0];
      a0, b0 := a', b';
    } else {
      var rest := s[1..];
      var p, q := LastStep(rest, a', b');
      a0, b0 := Swap(s[0], s[|s| - 1], a, b, a', b', p, q);
      assert s[..|s| - 1][1..] == rest[..|rest| - 1];
      Push(s[..|s| - 1], a0, b0, p, q);
    }
  }

  lemma {:induction false} CostFront(s: seq<Edit>)
    requires s != []
    ensures Cost(s) == Cost(s[..|s| - 1]) + if s[|s| - 1].Keep? then 0 else 1
  {
    var e := s[|s| - 1];
    assert s == s[..|s| - 1] + [e];
    CostJoin(s[..|s| - 1], [e]);
    assert [e][1..] == [];
  }

  lemma {:induction false} NoScriptCheaper(s: seq<Edit>, a: string, b: string)
    requires Turns(s, a, b)
    ensures Distance(a, b) <= Cost(s)
    decreases |s|
  {
    if s != [] {
      var e := s[|s| - 1];
      var a', b' := LastStep(s, a, b);
      CostFront(s);
      NoScriptCheaper(s[..|s| - 1], a', b');
    }
  }

  ghost predicate SomeScript(a: string, b: string, cost: nat) {
    exists s :: Turns(s, a, b) && Cost(s) == cost
  }

  /** The distance is the least cost of any script that turns one string into the other. */
  lemma DistanceIsLeastCost(a: string, b: string, cost: nat)
    ensures SomeScript(a, b, Distance(a, b))
    ensures SomeScript(a, b, cost) ==> Distance(a, b) <= cost
  {
    CheapestIsScript(a, b);
    if SomeScript(a, b, cost) {
      var s :| Turns(s, a, b) && Cost(s) == cost;
      NoScriptCheaper(s, a, b);
    }
  }

  // ----- it is a metric

  lemma {:induction false} DistanceSymmetric(a: string, b: string)
    ensures Distance(a, b) == Distance(b, a)
    decreases |a| + |b|
  {
    if a != "" && b != "" {
      DistanceSymmetric(a, Front(b));
      DistanceSymmetric(Front(a), b);
      DistanceSymmetric(Front(a), Front(b));
    }
  }

  lemma {:induction false} DistanceZero(a: string, b: string)
    ensures Distance(a, b) == 0 <==> a == b
    decreases |a|
  {
    if a != "" && b != "" {
      DistanceZero(Front(a), Front(b));
      assert a == Front(a) + [Last(a)] && b == Front(b) + [Last(b)];
    }
  }

  /** One script that does the work of two, the second on the outcome of the first. */
  function Compose(s: seq<Edit>, t: seq<Edit>): seq<Edit>
    decreases |s| + |t|
  {
    if s != [] && s[0].Delete? then [Delete] + Compose(s[1..], t)
    else if t != [] && t[0].Insert? then [t[0]] + Compose(s, t[1..])
    else if s == [] || t == [] then []
    else if t[0].Keep? then [s[0]] + Compose(s[1..], t[1..])
    else if t[0].Subst? then
      [if s[0].Insert? then Insert(t[0].c) else t[0]] + Compose(s[1..], t[1..])
    else if s[0].Insert? then Compose(s[1..], t[1..])
    else [Delete] + Compose(s[1..], t[1..])
  }

  lemma {:induction false} ComposeTurns(s: seq<Edit>, t: seq<Edit>, a: string, b: string, c: string)
    requires Turns(s, a, b) && Turns(t, b, c)
    ensures Turns(Compose(s, t), a, c) && Cost(Compose(s, t)) <= Cost(s) + Cost(t)
    decreases |s| + |t|
  {
    if s != [] && s[0].Delete? {
      ComposeTurns(s[1..], t, a[1..], b, c);
    } else if t != [] && t[0].Insert? {
      ComposeTurns(s, t[1..], a, b, c[1..]);
    } else if s != [] && t != [] {
      ComposeTurns(s[1..], t[1..], if s[0].Insert? then a else a[1..], b[1..], if t[0].Delete? then c else c[1..]);
    }
  }

  lemma DistanceTriangle(a: string, b: string, c: string)
    ensures Distance(a, c) <= Distance(a, b) + Distance(b, c)
  {
    CheapestIsScript(a, b);
    CheapestIsScript(b, c);
    ComposeTurns(Cheapest(a, b), Cheapest(b, c), a, b, c);
    NoScriptCheaper(Compose(Cheapest(a, b), Cheapest(b, c)), a, c);
  }

  // ----- the suggestion

  const THRESHOLD: nat := 2

  /** The first of the nodes nearest to a name, when that is near enough. */
  ghost predicate FirstNearest(nodes: seq<Node>, k: nat, name: string)
    requires k < |nodes|
  {
    && Distance(name, nodes[k].id) <= 2
    && (forall j | 0 <= j < |nodes| :: Distance(name, nodes[k].id) <= Distance(name, nodes[j].id))
    && (forall j | 0 <= j < k :: Distance(name, nodes[k].id) < Distance(name, nodes[j].id))
  }

  ghost predicate NoneNear(nodes: seq<Node>, name: string) {
    forall n | n in nodes :: Distance(name, n.id) > 2
  }

  method ClosestNodeID(w: Workflow, name: string) returns (bestID: string)
    ensures || (NoneNear(w.nodes, name) && bestID == "")
            || exists k :: 0 <= k < |w.nodes| && FirstNearest(w.nodes, k, name) && bestID == w.nodes[k].id
  {
    var bestDist := THRESHOLD + 1;
    bestID := "";
    ghost var best := 0;
    for i := 0 to |w.nodes|
      invariant bestDist <= THRESHOLD + 1
      invariant forall j | 0 <= j < i :: bestDist <= Distance(name, w.nodes[j].id)
      invariant bestDist == THRESHOLD + 1 ==> bestID == ""
      invariant bestDist <= THRESHOLD ==>
        && best < i && bestID == w.nodes[best].id && bestDist == Distance(name, bestID)
        && forall j | 0 <= j < best :: bestDist < Distance(name, w.nodes[j].id)
    {
      var d := Levenshtein(name, w.nodes[i].id);
      if d < bestDist {
        bestDist := d;
        bestID := w.nodes[i].id;
        best := i;
      }
    }
    if bestDist <= THRESHOLD {
      assert FirstNearest(w.nodes, best, name);
    }
  }
}
