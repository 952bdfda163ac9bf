/** Which of a node's edges the executor takes: by labels, conditions and defaults. */
module EdgeChoice {
  import opened IR
  import opened Text
  import opened ConditionMeaning

  datatype Options = Options(scenario: map<string, string>, maxNodeVisits: int, branch: map<string, bool>)

  // ----- choosing an edge

  /** What a scan over the edges looks for. */
  datatype Test = Satisfied | Unsatisfied | Unconditional | Labelled(lowered: string)

  /** The surroundings in which an edge is judged. */
  datatype Scene = Scene(ctx: map<string, string>, goal: string, lower: string -> string)

  predicate Passes(t: Test, e: Edge, sc: Scene) {
    match t
    case Satisfied => e.condition.Some? && e.condition.value.parsed.Some? && Eval(e.condition.value.parsed.value, sc.ctx, sc.goal)
    case Unsatisfied => e.condition.Some? && e.condition.value.parsed.Some? && !Eval(e.condition.value.parsed.value, sc.ctx, sc.goal)
    case Unconditional => e.condition.None?
    case Labelled(lowered) => Contains(sc.lower(e.text), lowered)
  }

  function FirstWhere(edges: seq<Edge>, t: Test, sc: Scene): Option<Edge> {
    if edges == [] then None
    else if Passes(t, edges[0], sc) then Some(edges[0])
    else FirstWhere(edges[1..], t, sc)
  }

  /** The scan finds the first edge that passes, and nothing exactly when none does. */
  lemma {:induction false} FirstWhereIsFirst(edges: seq<Edge>, t: Test, sc: Scene)
    ensures var r := FirstWhere(edges, t, sc);
            match r
            case None => forall e :: e in edges ==> !Passes(t, e, sc)
            case Some(e) => exists i :: 0 <= i < |edges| && edges[i] == e && Passes(t, e, sc) &&
                                        forall j :: 0 <= j < i ==> !Passes(t, edges[j], sc)
  {
    if edges != [] && !Passes(t, edges[0], sc) {
      FirstWhereIsFirst(edges[1..], t, sc);
      match FirstWhere(edges, t, sc) {
        case None =>
        case Some(e) =>
          var i :| 0 <= i < |edges[1..]| && edges[1..][i] == e && Passes(t, e, sc) &&
                   forall j :: 0 <= j < i ==> !Passes(t, edges[1..][j], sc);
          forall j | 0 <= j < i + 1 ensures !Passes(t, edges[j], sc) {
            if j > 0 { assert edges[j] == edges[1..][j - 1]; }
          }
          assert edges[i + 1] == e;
      }
    }
  }

  function OrElse(a: Option<Edge>, b: Option<Edge>): Option<Edge> {
    if a.Some? then a else b
  }

  function LabelOf(n: Node, ctx: map<string, string>): string {
    if n.config.Human? && "preferred_label" in ctx then ctx["preferred_label"] else ""
  }

  /** A label that is consulted is used up. */
  function CtxAfterLabel(n: Node, edges: seq<Edge>, ctx: map<string, string>): map<string, string> {
    if (|edges| == 1 && edges[0].condition.None?) || LabelOf(n, ctx) == "" then ctx else ctx - {"preferred_label"}
  }

  predicate BreaksLoop(opts: Options, visits: nat) {
    opts.maxNodeVisits > 0 && visits > opts.maxNodeVisits
  }

  /** For a human node with a preferred label, the first edge whose label contains it. */
  function PickByLabel(n: Node, edges: seq<Edge>, sc: Scene): Option<Edge> {
    var wish := LabelOf(n, sc.ctx);
    if wish == "" then None
    else FirstWhere(edges, Labelled(sc.lower(wish)), sc.(ctx := sc.ctx - {"preferred_label"}))
  }

  /** Past the visit limit the first edge whose condition fails, otherwise the first whose condition
      holds; failing that the first unconditional edge; and as a last resort the first edge. */
  function PickByCondition(edges: seq<Edge>, sc: Scene, breaks: bool): Edge
    requires edges != []
  {
    var found := OrElse(FirstWhere(edges, if breaks then Unsatisfied else Satisfied, sc), FirstWhere(edges, Unconditional, sc));
    if found.Some? then found.value else edges[0]
  }

  /** The edge the executor takes: the only edge if it is unconditional, else the one its label
      selects, else the one its conditions select. */
  function Pick(n: Node, edges: seq<Edge>, sc: Scene, opts: Options, visits: nat): Edge
    requires edges != []
  {
    if |edges| == 1 && edges[0].condition.None? then edges[0]
    else
      var byLabel := PickByLabel(n, edges, sc);
      if byLabel.Some? then byLabel.value
      else PickByCondition(edges, sc.(ctx := CtxAfterLabel(n, edges, sc.ctx)), BreaksLoop(opts, visits))
  }

  lemma PickAvailable(n: Node, edges: seq<Edge>, sc: Scene, opts: Options, visits: nat)
    requires edges != []
    ensures Pick(n, edges, sc, opts, visits) in edges
  {
    var later := sc.(ctx := CtxAfterLabel(n, edges, sc.ctx));
    FirstWhereIsFirst(edges, Labelled(sc.lower(LabelOf(n, sc.ctx))), sc.(ctx := sc.ctx - {"preferred_label"}));
    FirstWhereIsFirst(edges, Satisfied, later);
    FirstWhereIsFirst(edges, Unsatisfied, later);
    FirstWhereIsFirst(edges, Unconditional, later);
  }

  /** Away from labels and visit limits, a condition that holds decides: the edge taken is the first
      one whose condition holds, and one without a condition is taken only if none holds. */
  lemma HoldingConditionWins(n: Node, edges: seq<Edge>, sc: Scene, opts: Options, visits: nat)
    requires edges != [] && LabelOf(n, sc.ctx) == "" && !BreaksLoop(opts, visits)
    requires exists e :: e in edges && Passes(Satisfied, e, sc)
    ensures var e := Pick(n, edges, sc, opts, visits);
            Passes(Satisfied, e, sc) && Some(e) == FirstWhere(edges, Satisfied, sc)
  {
    FirstWhereIsFirst(edges, Satisfied, sc);
    if |edges| == 1 {
      var e :| e in edges && Passes(Satisfied, e, sc);
      assert e == edges[0];
    }
  }
}
