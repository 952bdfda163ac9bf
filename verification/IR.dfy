/** The workflow representation that every component reads: nodes with kind-specific
    configuration, edges with optional conditions, and a start and an exit node. */
module IR {

  datatype Option<+T> = None | Some(value: T)

  /** Condition expressions attached to edges. */
  datatype CondExpr =
    | Compare(variable: string, op: string, value: string)
    | And(left: CondExpr, right: CondExpr)
    | Or(left: CondExpr, right: CondExpr)
    | Not(inner: CondExpr)

  datatype Condition = Condition(raw: string, parsed: Option<CondExpr>)

  datatype Edge = Edge(from: string, to: string, text: string, condition: Option<Condition>,
                       weight: int, restart: bool)

  /** Kind-specific node configuration, with the fields that decide control flow. */
  datatype Config =
    | Agent(autoStatus: bool)
    | Human
    | Tool
    | Parallel(targets: seq<string>, branches: seq<string>)
    | FanIn(sources: seq<string>)
    | Subgraph(ref: string)
    | Conditional
    | ManagerLoop(subgraphRef: string)

  datatype Node = Node(id: string, config: Config, readKeys: seq<string>, writeKeys: seq<string>, file: string)

  datatype Workflow = Workflow(name: string, goal: string, start: string, exit: string,
                               nodes: seq<Node>, edges: seq<Edge>)

  /** The first node declared with the given ID. */
  function FindNode(nodes: seq<Node>, id: string): (r: Option<Node>)
    ensures r.Some? ==> r.value in nodes && r.value.id == id
    ensures r.None? <==> id !in NodeIds(nodes)
  {
    if nodes == [] then None
    else if nodes[0].id == id then Some(nodes[0])
    else
      assert NodeIds(nodes) == {nodes[0].id} + NodeIds(nodes[1..]) by { NodeIdsCons(nodes); }
      FindNode(nodes[1..], id)
  }

  function NodeIds(nodes: seq<Node>): set<string> {
    set n | n in nodes :: n.id
  }

  lemma NodeIdsCons(nodes: seq<Node>)
    requires nodes != []
    ensures NodeIds(nodes) == {nodes[0].id} + NodeIds(nodes[1..])
  {
    assert nodes == [nodes[0]] + nodes[1..];
  }

  ghost predicate UniqueIds(nodes: seq<Node>) {
    forall i, j :: 0 <= i < j < |nodes| ==> nodes[i].id != nodes[j].id
  }

  /** Of several nodes with one ID, the lookup finds the one declared first. */
  lemma {:induction false} FindNodeFirst(nodes: seq<Node>, i: nat)
    requires i < |nodes| && forall j :: 0 <= j < i ==> nodes[j].id != nodes[i].id
    ensures FindNode(nodes, nodes[i].id) == Some(nodes[i])
  {
    if i > 0 {
      FindNodeFirst(nodes[1..], i - 1);
    }
  }

  /** With unique IDs, looking a node up by its own ID finds that node. */
  lemma FindNodeUnique(nodes: seq<Node>, i: nat)
    requires UniqueIds(nodes) && i < |nodes|
    ensures FindNode(nodes, nodes[i].id) == Some(nodes[i])
  {
    FindNodeFirst(nodes, i);
  }
}
