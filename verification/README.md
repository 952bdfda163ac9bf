# Dippin: verified model

Dippin describes workflows as graphs: nodes (agents, tools, humans, parallel forks, fan-in joins, subgraph
references) and edges that may carry conditions. This project models the parts of the Dippin tools that reason
about such graphs or must not lose information, and proves what they are for.

- **Graphs.** Edge lookup in both directions (`Lookup`), adjacency maps and their transposes (`Adjacency`), the
  validator's cycle check with cycle reconstruction (`CycleCheck`) and reachability check (`Reachability`), the
  depth-capped cycle search over bundle references (`RefCycles`), longest-path layering (`Layering`) and the data-flow
  tables (`DataFlow`) on top of one account of Kahn's algorithm (`Kahn`), and the termination report (`Termination`).
  `Graphs` holds what they share, walks, cycles and finishing orders, `DepthFirst` the coloring of both searches, and
  `ImpliedEdges` ties lookup and adjacency together.
- **Execution.** The reference executor (`Simulator`): the choice of an edge (`EdgeChoice`), the context it is made in
  (`RunContext`), traces (`Traces`), and the shape of a run (`RunShape` over `MainLine` and `Branches`), which
  determines path and status (`RunDetermined`); `ChoiceLaws` says what the choice means. The bounded all-paths search (`PathEnumerator`, `PathOrder`, `PathTraces`) is tied to it: a run
  without parallel nodes that enters no node more than twice is one of the walks that the search reports.
- **Flattening.** Inlining of subgraphs (`Flatten`), what the result contains (`FlattenContents`), when it fails
  (`FlattenErrors`), why it preserves reachability (`FlattenMeaning`) and when it keeps IDs unique (`FlattenUnique`).
- **Text.** Condition parser and grammar (`Conditions`, `ConditionTokens`), condition formatter (`ConditionFormat`), which conditions
  survive it (`ConditionComesBack`) and evaluation (`ConditionMeaning`), DOT strings, tokens and attribute lists
  (`DotLexer`, `DotTokens`, `DotAttributes`), the flattened steer context (`SteerContext`), multiline blocks
  (`RawBlocks`, `RawBlockRoundTrip`), edit distance for suggestions (`EditDistance`), the JSON pre-check of bundle
  manifests (`ManifestJson`, `ManifestErrors`).

Source that changes state step by step is modelled by classes and loops and proved equal to a function or described
by an invariant; the theorems are about those. Go maps are Dafny maps that loops take apart in arbitrary order, so
independence of map order is proved. Strings are sequences of characters, taken one by one where the program takes
bytes. `dafny verify dfyconfig.toml` checks everything.

Where the code falls short of its promise, the exact limit is proved:

- The data-flow analysis writes to a missing table entry, and so fails at run time, when a key must be handed to an
  undeclared node (`DataFlow.HazardArises`); it succeeds exactly otherwise (`DataFlow.ComputeAvailableAndUpstream`).
- An empty node ID lets the validator report a cycle that is none (`CycleCheck.EmptyIdTruncates`). Every report still
  stems from a real reachable cycle, and is that cycle exactly if no ID inside it is empty
  (`CycleCheck.ReportedShows`, `CycleCheck.ReconstructWhole`).
- A JSON member with an empty name and a string value makes the manifest check confuse names with values. What it
  accepts is stated for all documents (`ManifestJson.ValidationExact`), with cases of both errors beside the theorem.
- Flattened IDs may collide (`FlattenUnique.CollisionOtherwise`). For unique node IDs they never do, whatever
  unambiguous children are spliced in, exactly if no node ID begins with a reference node's prefix
  (`FlattenUnique.AlwaysUniqueExactly`).
- The formatter prints parentheses, which the condition grammar does not have, and no quotes, which some words need.
  Which formulas come back is stated for every formula over arbitrary strings
  (`ConditionComesBack.ComesBackExactly`, `ConditionComesBack.ComparisonComesBackExactly`).
- A backslash directly before n, l or r is read back as an escape (`DotLexer.QuoteRoundTrip`), and white space around
  steer-context keys and values is lost (`SteerContext.SteerContextRoundTrip`).
- The two directions of edge lookup may differ on repeated node IDs (`Lookup.LookupsDisagreeOnDuplicates`); when they
  agree is stated for all workflows (`Lookup.LookupsAgreeExactly`).
- A branch of the condition tokenizer that skips unknown characters is never taken: every character that is not blank
  starts a token.

## Model

| member | source | states |
|---|---|---|
| `IR.FindNodeFirst` | ir/lookup.go:4-11 | of several nodes with one ID the lookup finds the one declared first |
| `IR.FindNodeUnique` | ir/lookup.go:4-11 | with unique IDs the lookup finds the very node |
| `Lookup.CollectEdgesFrom` | ir/lookup.go:17-26 | the imperative collection with its shared seen map gives the edges from a node: explicit ones, then implied parallel and fan-in ones not yet covered |
| `Lookup.CollectEdgesTo` | ir/lookup.go:87-96 | the same for the edges into a node |
| `Lookup.Collector.ExplicitEdgesFrom` | ir/lookup.go:29-39 | appends all explicit edges from the node, marks the targets of unconditional ones |
| `Lookup.Collector.ParallelEdgesFrom` | ir/lookup.go:42-58 | appends one implied edge for each unseen target of a parallel node |
| `Lookup.Collector.AddFanInSourceEdges` | ir/lookup.go:73-81 | appends one implied edge if the node is a source and the fan-in is unseen |
| `Lookup.Collector.FanInEdgesFrom` | ir/lookup.go:61-70 | appends the implied edges to every unseen fan-in node that lists the node |
| `Lookup.Collector.ExplicitEdgesTo` | ir/lookup.go:99-109 | appends all explicit edges into the node, marks the sources of unconditional ones |
| `Lookup.Collector.ParallelEdgesTo` | ir/lookup.go:112-124 | appends the implied edges from every unseen parallel node that lists the node |
| `Lookup.Collector.FanInEdgesTo` | ir/lookup.go:137-153 | appends one implied edge from each unseen source of a fan-in node |
| `Lookup.EdgesFromLinks` | ir/lookup.go:17-81 | for unique IDs, the edges from u to v are all explicit ones plus one implied edge iff a parallel or fan-in implies it and no unconditional explicit edge exists |
| `Lookup.EdgesToLinks` | ir/lookup.go:87-153 | the same edges, seen from v |
| `Lookup.LookupsAgreeExactly` | ir/lookup.go:17-153 | for every workflow, repeated IDs included: both directions give the same edges between u and v iff an unconditional explicit edge leads from u to v, or the forward reading (targets of the first node u, fan-ins named v) and the backward reading (forks named u, sources of the first node v) imply an edge alike |
| `Lookup.LookupsAgree` | ir/lookup.go:17-153 | so for unique IDs they do, in the same order |
| `Lookup.LookupsDisagreeOnDuplicates` | ir/lookup.go:42-58 | whenever a node that is not parallel is declared before a parallel one of the same ID, they differ on the targets of the latter: only the first declaration is used forwards |
| `Lookup.EdgesFromDistinct` | ir/lookup.go:17-81 | implied edges repeat neither explicit edges nor one another |
| `ImpliedEdges.EdgesFromInOrder` | ir/lookup.go:17-81 | for every workflow: the explicit edges as declared, then one plain edge to each target the node fans out to and each fan-in that lists it, in this order, without repetitions and without what an unconditional explicit edge settles |
| `ImpliedEdges.EdgesToInOrder` | ir/lookup.go:87-153 | the mirror image: parallel nodes that list the node, then what it joins |
| `ImpliedEdges.LookupMeetsAdjacency` | coverage/coverage.go:398-429 | with unique IDs the lookup and the adjacency map agree on what leads where |
| `ImpliedEdges.ForwardJoins` | coverage/coverage.go:398-429 | an adjacency map leads from u to v iff an explicit edge does, u is a parallel node with target v, or v a fan-in node with source u |
| `PathEnumerator.RunAllPaths` | simulate/path_enumerator.go:14-82 | input check, then the reports of the first hundred walks of the search, or the no-paths error |
| `PathOrder.FirstHundredRecorded` | simulate/path_enumerator.go:120-129 | the results are the first hundred walks found, one report for each |
| `PathOrder.SearchInOrder` | simulate/path_enumerator.go:198-217 | walks are found in the order in which the lookup offers the edges on which they part |
| `PathTraces.ReportedTrace` | simulate/path_enumerator.go:136-195 | the trace of a reported walk: opened and closed once, enters and leaves the nodes of the path in turn, traverses exactly the edges of the walk, each between the nodes it connects, and shows the fork or join of each parallel or fan-in node with its own targets or sources |
| `PathEnumerator.Enumerator.Explore` | simulate/path_enumerator.go:84-117 | the depth-first search with cloned state records the reports of the walks below its state, up to the cap |
| `PathEnumerator.Enumerator.ExploreEdges` | simulate/path_enumerator.go:198-217 | one branch after the other, each from the same state |
| `PathEnumerator.Enumerator.ShouldExplore` | simulate/path_enumerator.go:120-129 | goes on iff fewer than 100 results, depth at most 200 and the node visited less than twice |
| `PathEnumerator.Enumerator.RecordPath` | simulate/path_enumerator.go:180-195 | appends the result with its closing event |
| `PathEnumerator.SearchExact` | simulate/path_enumerator.go:84-217 | a walk is found iff it has at most 200 edges, follows the lookup from the start over declared nodes, enters none more than twice, and stops at the exit, met only there, or where no edge leads on |
| `PathEnumerator.SmallWorkflowDepth` | simulate/path_enumerator.go:120-129 | for twice the number of nodes at most 201 the depth cap cannot bind |
| `PathEnumerator.AllPathsComplete` | simulate/path_enumerator.go:84-217 | with fewer than 100 results and such a workflow, exactly the reportable walks are recorded |
| `PathEnumerator.AllPathsOften` | simulate/path_enumerator.go:198-217 | for every sequence of edges: a reportable walk within the depth cap is found as often as its edges can be taken, the product over its nodes of how often the lookup offers the edge; any other is not found |
| `PathEnumerator.AllPathsOnce` | simulate/path_enumerator.go:198-217 | so with pairwise different edges no walk is recorded twice |
| `PathEnumerator.AllPathsSound` | simulate/path_enumerator.go:180-195 | each of the at most 100 results reports a reportable walk |
| `PathEnumerator.ReportedPath` | simulate/path_enumerator.go:84-217 | a reported path is a walk of lookup edges from the start, exit only at the end; success iff it ends there, dead_end iff it ends elsewhere with no edges; node count as in the path |
| `Flatten.FlattenWorkflow` | flatten/flatten.go:26-59 | copy without references, error without resolver, default depth 10, else the recursive inlining |
| `FlattenContents.FlattenedContents` | flatten/flatten.go:68-190 | what the result holds, in order: name and goal of the parent; for each parent node itself, or the nodes of its child with prefixed IDs; the edges of the children and then the parent edges, which keep label, condition, weight and restart mark and change their endpoints only |
| `FlattenContents.StaysUnlessReference` | flatten/flatten.go:117-124 | every node but a subgraph node with a reference stays as it is |
| `FlattenErrors.FlattenFailsExactly` | flatten/flatten.go:26-38 | it fails iff some chain of references, none of them twice, leads too deep, to a reference already around it, to one that does not resolve, or to a workflow without start or exit; the error says which |
| `FlattenErrors.FlatFailsExactly` | flatten/flatten.go:68-160 | the same at every depth |
| `Flatten.FlattenRecursive` | flatten/flatten.go:68-89 | the in-place construction of the output equals inlining by recursion over the nodes, errors included |
| `Flatten.Output.ProcessNode` | flatten/flatten.go:117-124 | keeps an ordinary node, inlines a reference |
| `Flatten.Output.InlineSubgraph` | flatten/flatten.go:127-145 | cycle check, resolution, validation, recursion, splice and rewire entry |
| `Flatten.Output.AppendPrefixed` | flatten/flatten.go:163-175 | the child nodes and edges with prefixed IDs and endpoints |
| `Flatten.Output.RewireParentEdges` | flatten/flatten.go:179-190 | parent edges into a reference go to its start, those out of it leave its exit |
| `Flatten.Output.RewriteStartExit` | flatten/flatten.go:92-99 | start and exit follow the same rewiring |
| `Flatten.InlinedFails` | flatten/flatten.go:68-89 | the first failing node decides |
| `FlattenMeaning.NoRefsRemain` | flatten/flatten.go:68-145 | no reference node survives at any depth |
| `FlattenMeaning.FlattenedHasNoRefs` | flatten/flatten.go:26-38 | nor in any successful result of the tool |
| `FlattenMeaning.StaysClosed` | flatten/flatten.go:163-190 | every edge endpoint, start and exit stays declared if they were in all inputs |
| `FlattenMeaning.Cross` | flatten/flatten.go:127-145 | each parent node can be crossed inside the result from entry to exit if the children have start-to-exit paths |
| `FlattenMeaning.LiftAny` | flatten/flatten.go:179-190 | every parent walk lifts to a walk of the result that passes the same parent nodes in order |
| `FlattenMeaning.LinkProjects` | flatten/flatten.go:163-190 | with prefix-free names, an edge of the result stays inside one parent node or follows a parent edge |
| `FlattenMeaning.ProjectWalk` | flatten/flatten.go:163-190 | every walk of the result projects to a parent walk |
| `FlattenMeaning.ReachabilityPreserved` | flatten/flatten.go:68-190 | v is reachable from u before iff its exit side is reachable from the entry of u after |
| `FlattenMeaning.StartToExitPreserved` | flatten/flatten.go:92-99 | in particular for start and exit |
| `FlattenUnique.StaysUnique` | flatten/flatten.go:163-175 | IDs stay unique when all workflows have unique node IDs none of which begins with the prefix of a reference node beside it |
| `FlattenMeaning.NoUnderscoreSuffices` | flatten/flatten.go:142-143 | names without an underscore are prefix-free |
| `FlattenUnique.CollisionOtherwise` | flatten/flatten.go:142-143 | whenever the ID of any node, reference or not, begins with the prefix of a reference node, some child makes the flattened IDs collide |
| `FlattenUnique.AlwaysUniqueExactly` | flatten/flatten.go:127-175 | for unique node IDs: every successful flattening with unambiguous children has unique IDs iff no node ID begins with the prefix of a reference node |
| `Adjacency.BuildForward` | coverage/coverage.go:398-405 | every list is the explicit targets in edge order, then the implied ones in node order |
| `Adjacency.BuildReverse` | coverage/coverage.go:408-415 | the mirror image for sources |
| `Adjacency.BuildExplicit` | validator/validate.go:122-130 | explicit edges only, with or without restart edges |
| `Adjacency.AddImplied` | coverage/coverage.go:418-429 | appends the implied parallel and fan-in edges of every node |
| `Adjacency.AddReverseImplied` | coverage/coverage.go:432-448 | the same backwards |
| `Adjacency.Transpose` | coverage/coverage.go:398-448 | u occurs under v backwards exactly as often as v under u forwards, implied edges included |
| `Termination.BfsFrom` | coverage/coverage.go:451-467 | the visited set is exactly the set of reachable nodes |
| `Termination.FindSinkNodes` | coverage/coverage.go:386-395 | the sorted list of the difference, whatever order the map is walked in |
| `Termination.ReachesConverse` | coverage/coverage.go:408-415 | reachability over the reverse map is the converse |
| `Termination.AnalyzeTermination` | coverage/coverage.go:371-383 | over the explicit and implied edges of the workflow: sinks are exactly the nodes reachable from start without a path to exit, sorted, each once; all paths terminate iff there are none |
| `Termination.SinksExact` | coverage/coverage.go:371-395 | the two searches decide this |
| `Reachability.CheckReachability` | validator/validate.go:147-177 | reports exactly the declared nodes no walk from the start leads to; nothing without a declared start |
| `Reachability.FindUnreachableNodes` | validator/validate.go:180-194 | the declared IDs outside the visited set, in order |
| `Reachability.EveryNodeOnAWay` | coverage/coverage.go:371-383 | reachability and termination both clean: every declared node lies on a walk from start to exit |
| `CycleCheck.ReversePath` | validator/validate.go:291-295 | swapping the ends inwards reverses the path |
| `CycleCheck.ReconstructCycle` | validator/validate.go:268-288 | the walk up the parent map with its four stop conditions |
| `CycleCheck.ReconstructExact` | validator/validate.go:268-288 | along any search path it returns the closed path from the target on, without what lies before the last empty ID behind the target; the step bound never cuts |
| `CycleCheck.ReconstructWhole` | validator/validate.go:268-288 | it returns the whole closed path exactly when no node behind the target has an empty ID |
| `CycleCheck.EmptyIdTruncates` | validator/validate.go:286-288 | on the two-node graph through the empty ID, what the search reports is a closed path along an edge that does not exist |
| `CycleCheck.Detector.Visit` | validator/validate.go:234-240 | keeps the colouring, parent chain and finishing order of the search |
| `CycleCheck.Detector.ProcessNeighbors` | validator/validate.go:234-240 | after the loop every successor is finished or has been reported |
| `CycleCheck.Detector.ProcessNeighbor` | validator/validate.go:243-258 | afterwards the neighbour is finished or has been reported: a grey one is reported once, a white one searched |
| `CycleCheck.DetectCycles` | validator/validate.go:218-231 | something is reported iff a cycle is reachable from a declared node; each report stems from a search path that closes; every reachable cycle runs through the node that some report starts from, and no two reports start from the same node |
| `CycleCheck.ReportedShows` | validator/validate.go:218-288 | each report shows a real cycle reachable from a declared node, and is that cycle itself iff the cycle has no empty ID inside |
| `CycleCheck.CheckNoCycles` | validator/validate.go:199-206 | in terms of the workflow: a diagnostic iff start is declared and explicit non-restart edges form a cycle reachable from a declared node; each one shows such a cycle, empty IDs or not, and without empty targets is a closed walk with no repeated interior node; every such cycle runs through the first node of some diagnostic, and these first nodes differ |
| `CycleCheck.EveryCycleCovered` | validator/validate.go:243-258 | when the search is over, every cycle that the roots lead to meets a node that was reported |
| `DepthFirst.CycleMeetsOpen` | validator/validate.go:234-240 | with every successor finished earlier or left open, every cycle meets an open node |
| `EditDistance.FillLevenshteinRow` | validator/validate.go:506-514 | turns a row of prefix distances into the next row |
| `EditDistance.Levenshtein` | validator/validate.go:481-503 | two rows overwritten in turn give the recursive distance |
| `EditDistance.DistanceIsLeastCost` | validator/validate.go:480-503 | which is the least cost of an edit script turning one string into the other |
| `EditDistance.CheapestIsScript` | validator/validate.go:506-526 | a script of that cost |
| `EditDistance.NoScriptCheaper` | validator/validate.go:506-526 | no script costs less |
| `EditDistance.DistanceSymmetric` | validator/validate.go:480-503 | symmetric |
| `EditDistance.DistanceZero` | validator/validate.go:480-503 | zero only between equal strings |
| `EditDistance.ComposeTurns` | validator/validate.go:480-503 | two scripts compose into one of at most the summed cost |
| `EditDistance.DistanceTriangle` | validator/validate.go:480-503 | triangle inequality |
| `EditDistance.ClosestNodeID` | validator/validate.go:467-478 | the first declared ID of minimal distance if that is at most 2, else the empty string |
| `Layering.LongestPaths.BuildInDegree` | graph/graph.go:70-81 | counts every occurrence in the adjacency, for declared nodes and targets |
| `Layering.LongestPaths.InitDistances` | graph/graph.go:93-99 | start at 0, the others unset |
| `Layering.LongestPaths.CollectZeroInDegree` | graph/graph.go:102-110 | the nodes of in-degree zero in any order |
| `Layering.LongestPaths.RelaxNeighbors` | graph/graph.go:122-133 | all edges of the current node respected, counters taken down |
| `Layering.LongestPaths.ProcessQueue` | graph/graph.go:113-119 | every node taken out has its edges respected; the counters are the edges still pending |
| `Layering.ComputeLongestPaths` | graph/graph.go:84-90 | on an acyclic map from declared nodes: edges lead from smaller to larger distances, and every distance is the length of a longest walk |
| `Layering.OrderIndependent` | graph/graph.go:102-110 | the distances do not depend on the order of collection |
| `Layering.AllReachedFromStart` | graph/graph.go:84-90 | if the start is the only root, it reaches every node |
| `Layering.DistanceFromStart` | graph/graph.go:84-133 | then each distance is the longest-path length from the start |
| `Layering.FindMaxLayer` | graph/graph.go:148-156 | the largest distance, or 0 |
| `Layering.GroupByLayer` | graph/graph.go:136-145 | layer d holds exactly the nodes of distance d |
| `Layering.AssignLayers` | graph/graph.go:33-38 | layers grow along every edge of an acyclic workflow |
| `Kahn.EmptyQueueMeansDone` | graph/graph.go:113-133 | in an acyclic graph an empty queue means every counted node was taken out |
| `Kahn.TakeOff` | graph/graph.go:122-133 | one edge off a counter keeps counters and queue in step |
| `DataFlow.Analysis.ComputeInDegrees` | validator/lint_context.go:184-215 | counts from edges and node lists |
| `DataFlow.DegreesAreMultiplicities` | validator/lint_context.go:184-215 | these equal the multiplicities in the adjacency, built separately |
| `DataFlow.Analysis.FindRootNodes` | validator/lint_context.go:218-226 | the declared nodes of degree zero |
| `DataFlow.Analysis.AddNodeWrites` | validator/lint_context.go:156-162 | adds the keys that the first node with the ID writes |
| `DataFlow.Analysis.PropagateKeys` | validator/lint_context.go:238-242 | copies keys downstream; fails exactly when there are keys and the target has no table entry |
| `DataFlow.Analysis.PropagateAndEnqueue` | validator/lint_context.go:166-180 | everything known at a node is passed to all its successors |
| `DataFlow.ComputeAvailableAndUpstream` | validator/lint_context.go:139-153 | unique IDs, acyclic, edges from declared nodes: it completes iff no key has to be handed to an undeclared node, and then upstream is exactly the strict ancestors of a node, and a key is available iff the node or one of them declares it among its writes |
| `DataFlow.TablesExact` | validator/lint_context.go:139-180 | sound tables with everything passed on are exact |
| `DataFlow.DeclaredEndpointsSuffice` | validator/lint_context.go:229-242 | declared endpoints rule the failure out |
| `DataFlow.HazardArises` | validator/lint_context.go:229-242 | it does occur: one node that writes a key, with one edge to an undeclared node, and all conditions of the exact statement met |
| `RefCycles.FormatCycle` | dipx/resolve.go:249-266 | the stack from the target on, closed by the target |
| `RefCycles.Search.Visit` | dipx/resolve.go:215-229 | capped tri-colour search: keeps stack, colours and finishing order, or shows a cycle or a too long path |
| `RefCycles.Search.VisitEdge` | dipx/resolve.go:235-243 | back edge, deeper visit or nothing |
| `RefCycles.DetectCycles` | dipx/resolve.go:205-209 | no error: no cycle reachable from the start; a cycle error shows a real reachable cycle, a cap error a simple path of maxDepth+1 edges |
| `RefCycles.DetectCyclesAll` | dipx/helpers.go:133-140 | the same from every listed file |
| `RefCycles.RefsForWorkflow` | dipx/helpers.go:173-187 | the resolved references in node order, or failure |
| `RefCycles.BuildRefGraph` | dipx/helpers.go:160-170 | fails iff some reference does not resolve, otherwise holds all of them |
| `RefCycles.RefsExact` | dipx/helpers.go:173-196 | the references are what subgraph nodes and manager loops name, resolved; none iff one does not resolve |
| `RefCycles.VerifyRefsListed` | dipx/helpers.go:143-156 | passes iff every reference is listed |
| `RefCycles.ListedSearchIsComplete` | dipx/helpers.go:118-140 | a closed graph has its cycles among listed files |
| `RefCycles.WalkRefs` | dipx/helpers.go:118-127 | success: the graph holds exactly the references, is closed and acyclic; each error shows its cause, the cap error a simple path of 66 files |
| `ManifestJson.Validator.OpenContainer` | dipx/manifest.go:140-151 | depth cap, then a fresh frame |
| `ManifestJson.Validator.CloseContainer` | dipx/manifest.go:156-163 | pops, clears the parent's pending name, notes the first finished root |
| `ManifestJson.Validator.ClearPendingKey` | dipx/manifest.go:202-207 | clears the top frame's pending name |
| `ManifestJson.Validator.HandleValueToken` | dipx/manifest.go:167-184 | in an object, name or value |
| `ManifestJson.Validator.RegisterObjectKey` | dipx/manifest.go:188-198 | duplicate check before reserved check |
| `ManifestJson.Validator.Dispatch` | dipx/manifest.go:120-136 | one token |
| `ManifestJson.ValidateJSONStructure` | dipx/manifest.go:97-116 | the loop is the run of the machine over the decoder's tokens; a syntax error counts only if the machine had no complaint before it |
| `ManifestJson.RunValue` | dipx/manifest.go:97-207 | the tokens of any value act on the top frame as the value itself does, and touch nothing below |
| `ManifestJson.RunStream` | dipx/manifest.go:97-207 | the machine on any stream of values equals the recursive reading, error for error |
| `ManifestJson.ValidationExact` | dipx/manifest.go:92-116 | for every stream: accepted iff nesting at most 32, no repeated name as the machine reads names, no reserved one in the first container |
| `ManifestErrors.ErrorsShown` | dipx/manifest.go:140-198 | too deep: a value nests more than 32 containers; duplicate key: some object reads that very name twice; reserved key: the first container reads "signatures" |
| `ManifestJson.ManifestCheckExact` | dipx/manifest.go:92-96 | for a document without empty-named string members: accepted iff depth, distinct names in every object (section 4 of RFC 8259) and no root member "signatures" |
| `ManifestJson.BlankNameHidesRepeat` | dipx/manifest.go:172-182 | otherwise a repeated name can pass |
| `ManifestJson.BlankNameHidesReserved` | dipx/manifest.go:172-182 | or the reserved name |
| `ManifestJson.BlankTextRefused` | dipx/manifest.go:172-182 | or a good document be refused |
| `Simulator.Run` | simulate/simulate.go:93-117 | every result: one start and one end event, node events alternate and spell the path, counts agree, at most 501 nodes; the path starts at start and goes on from each node by the edge picked in the context there, branches of parallel nodes included; the traversed edges are the picked ones, in order; without parallel nodes they lead from start to the exit (success) or to a node without edges (dead_end). A run is aborted only where it turns to an undeclared node or has visited 500 nodes; with declared endpoints only the latter |
| `RunDetermined.RunDetermined` | simulate/simulate.go:148-207 | the shape leaves nothing open: workflow, options and lower-casing determine path and status of every run that ends |
| `RunContext.NextEdgeAvailable` | simulate/simulate.go:267-285 | the edge taken is one the lookup offers; none is taken only from a node without edges |
| `RunShape.OnTheWayDeclared` | simulate/simulate.go:148-191 | with declared endpoints a run turns to declared nodes only, in branches too |
| `Simulator.Executor.Execute` | simulate/simulate.go:148-172 | the main loop: a result has the shape of a run; an abort means that the run had turned to an undeclared node or used up the 500 steps |
| `Simulator.Executor.StepNode` | simulate/simulate.go:176-191 | one node: visit, finish at the exit, or advance by the edge picked there |
| `Simulator.Executor.AdvanceToNext` | simulate/simulate.go:195-207 | branches of a parallel node, the node the picked edge leads to, or dead end |
| `Simulator.Executor.FinishRun` | simulate/simulate.go:210-223 | closes the trace |
| `Simulator.Executor.VisitNode` | simulate/simulate.go:225-255 | one more node in path, counts and trace |
| `Simulator.Executor.EmitNodeEvents` | simulate/events.go:57-79 | enter, kind events, exit; parallel and fan-in nodes apply no defaults |
| `Simulator.Executor.ResolveNext` | simulate/simulate.go:267-285 | takes the edge that the path so far decides and records it; the empty ID without edges |
| `Simulator.Executor.ResolveByLabel` | simulate/simulate.go:290-314 | the label is used up whether or not an edge matches |
| `Simulator.Executor.ResolveConditionalNext` | simulate/simulate.go:318-362 | condition, or its failure past the visit limit, then unconditional, then first |
| `Simulator.Executor.Scan` | simulate/simulate.go:375-402 | the first edge passing a test, traversal recorded |
| `EdgeChoice.HoldingConditionWins` | simulate/simulate.go:318-330 | away from labels and limits the first holding condition decides |
| `EdgeChoice.FirstWhereIsFirst` | simulate/simulate.go:375-402 | nothing exactly when no edge passes |
| `ChoiceLaws.ComparisonsMean` | simulate/defaults.go:66-143 | each operator in terms of the value that the variable stands for: equality, inequality, occurrence inside, at the front or at the end, and membership among the trimmed items of a comma-separated list; the variable is looked up without ctx., then by its full name, then as graph.goal, else empty |
| `ChoiceLaws.OtherOperatorsFail` | simulate/defaults.go:98-108 | a comparison with any other operator never holds |
| `ChoiceLaws.NegationMeans` | simulate/defaults.go:75-95 | negation turns = into != and moves into both connectives |
| `ChoiceLaws.EqualityDecides` | simulate/simulate.go:267-330 | a run that meets two edges, when ctx.k = v and when ctx.k != v, with no label and no visit limit in play, takes the first iff the context holds v under k |
| `ChoiceLaws.WishIsMet` | simulate/simulate.go:290-314 | a human node with a preferred label takes the first edge whose lower-cased label contains it |
| `ChoiceLaws.ConditionsDecide` | simulate/simulate.go:267-402 | otherwise the first edge whose condition holds, past the visit limit the first whose condition fails; else the first without a condition; else the very first |
| `ChoiceLaws.NextEdgeIsPicked` | simulate/simulate.go:267-285 | in the context after the visits so far, with the number of times the path holds the node |
| `ChoiceLaws.VisitLeaves` | simulate/defaults.go:12-63 | what a visit leaves under each key: the scenario entry for the node, or the default of its kind, or what was there |
| `ChoiceLaws.ContextGoesOn` | simulate/simulate.go:290-303 | the context starts as the scenario, and a preferred label is gone once it was asked for |
| `Simulator.Executor.ApplyNodeScenario` | simulate/defaults.go:30-42 | the context afterwards does not depend on the map order |
| `Simulator.Executor.SetContextDefault` | simulate/defaults.go:48-63 | only when the scenario is silent |
| `Simulator.Executor.ApplyNodeDefaults` | simulate/defaults.go:12-23 | scenario values, then defaults by kind |
| `Simulator.Executor.WalkParallelBranches` | simulate/parallel.go:16-31 | walks all selected branches in order, each along the picked edges; next is the join, dead_end without one; an error arises inside one of them |
| `Simulator.Executor.WalkBranchToJoin` | simulate/parallel.go:93-109 | from the target along the picked edges, never entering the join, up to it or to where nothing leads on; an undeclared node and the step limit are errors |
| `Simulator.Executor.WalkBranchStep` | simulate/parallel.go:112-122 | one node of a branch; next is where its picked edge leads |
| `Simulator.Executor.ChooseBranches` | simulate/parallel.go:48-62 | the flagged targets, or all |
| `Simulator.Executor.LocateJoin` | simulate/parallel.go:65-78 | the first matching fan-in |
| `Simulator.Executor.SourcesMatch` | simulate/parallel.go:81-88 | non-empty and all among the targets |
| `Simulator.RunIsEnumerated` | simulate/simulate.go:148-172 | a run without parallel nodes that enters no node more than twice, on at most 201 nodes, follows a walk of the all-paths mode, same path, status and count |
| `RunShape.SelectedExact` | simulate/parallel.go:48-62 | which targets are walked |
| `RunShape.BranchesChosen` | simulate/parallel.go:33-62 | the targets, or the branches if there are none; the flagged ones in order, or all |
| `RunShape.JoinExact` | simulate/parallel.go:65-88 | the join is the first fan-in with sources that are all among the targets; none iff there is none |
| `Branches.InBranchStep` | simulate/parallel.go:93-122 | one node further keeps the branch on its way or ends it |
| `Branches.BranchUnique` | simulate/parallel.go:93-109 | a branch from a target to a join is determined |
| `RunShape.BehindBranches` | simulate/parallel.go:16-31 | the run goes on at the join or ends |
| `Conditions.TokenizeCondition` | simulate/condition.go:156-176 | the index loop cuts the trimmed text into its tokens |
| `Conditions.TokenizeOne` | simulate/condition.go:179-187 | quoted, operator or word; it always takes at least one character |
| `ConditionTokens.QuotedRead` | simulate/condition.go:203-219 | text between two quotes of one kind is one token; an open quote takes the rest |
| `ConditionTokens.OperatorRead` | simulate/condition.go:222-246 | =, !, < and > are operators, together with an equals sign behind them if there is one |
| `ConditionTokens.WordRead` | simulate/condition.go:249-263 | anything else runs up to a blank or an operator character |
| `ConditionTokens.BlankRead` | simulate/condition.go:190-195 | spaces and tabs are skipped |
| `Conditions.TryTokenizeQuotedCond` | simulate/condition.go:203-219 | up to the matching quote or the end |
| `Conditions.TryTokenizeOperatorCond` | simulate/condition.go:237-246 | two-character operators first |
| `Conditions.TryTokenizeWordCond` | simulate/condition.go:249-258 | up to a blank or operator |
| `Conditions.SkipCondWhitespace` | simulate/condition.go:190-195 | spaces and tabs |
| `Conditions.CondParser.ParseOr` | simulate/condition.go:52-66 | the loop reads an or-expression, left-nested |
| `Conditions.CondParser.ParseAnd` | simulate/condition.go:68-82 | the same for and |
| `Conditions.CondParser.ParseUnary` | simulate/condition.go:84-94 | prefix negation |
| `Conditions.CondParser.ParseCompare` | simulate/condition.go:96-115 | comparison with infix not |
| `Conditions.CondParser.ParseOpValue` | simulate/condition.go:127-140 | valid operator and value |
| `Conditions.ParseCondition` | simulate/condition.go:22-32 | text to expression, all tokens used |
| `Conditions.ParserMeetsGrammar` | simulate/condition.go:12-32 | accepts exactly the derivations of the documented grammar plus infix not, with their meaning |
| `Conditions.ParseSound` | simulate/condition.go:22-32 | every accepted token sequence has a derivation |
| `Conditions.ParseComplete` | simulate/condition.go:22-32 | every derivation is accepted |
| `ConditionFormat.FormatThenParse` | formatter/format.go:728-753 | for a single connective over words the tokenizer keeps whole: formatting and parsing gives the same literals nested to the left |
| `ConditionFormat.LeftNestedSame` | simulate/defaults.go:75-118 | which holds in the same contexts |
| `ConditionFormat.TreeMeaning` | simulate/defaults.go:89-95 | all, or some, literal holds |
| `ConditionFormat.BareIsSingle` | formatter/format.go:744-753 | no parentheses are printed iff there is a single connective, none under not |
| `ConditionComesBack.ComesBackExactly` | formatter/format.go:728-753 | for every formula: its comparisons come back iff it has a single connective, the tokenizer keeps each of its words whole and no white space stands at its ends |
| `ConditionComesBack.NecessaryToComeBack` | formatter/format.go:728-753 | each of the three is necessary |
| `ConditionComesBack.ComparisonComesBackExactly` | formatter/format.go:730-731 | for arbitrary strings: a comparison comes back iff the operator is valid, both words are whole, the variable is not the keyword "not", and the ends hold no white space |
| `ConditionComesBack.SpacedValueIsLost` | formatter/format.go:730-731 | any value with a blank does not come back: quotes are not printed |
| `ConditionComesBack.ParseSpecials` | simulate/condition.go:34-263 | reading accepted text neither adds nor loses a parenthesis, all end up inside comparisons; of the characters that the tokenizer may lose it adds none, and when none is lost every word is whole |
| `ConditionFormat.TokensOfWords` | simulate/condition.go:156-176 | words joined by spaces are found again |
| `Sorting.SortStrings` | export/dot.go:633-639 | sorts in place: sorted, same multiset |
| `Sorting.ListingUnique` | export/dot.go:633-639 | the printed order of a map is determined by its keys |
| `Sorting.LessExact` | export/dot.go:633-639 | the order of the listing: at the first difference the smaller character, or the end, comes first |
| `DotLexer.DotQuoteChar` | export/dot.go:517-535 | one character or escape pair |
| `DotLexer.WriteDotQuote` | export/dot.go:505-513 | the quoted string |
| `DotLexer.ReadQuoted` | migrate/dot_parser.go:235-276 | reading a written string gives it with its escape pairs read and stops behind the quote |
| `DotLexer.QuoteRoundTrip` | export/dot.go:503-535 | identity iff no backslash is directly followed by n, l or r |
| `DotLexer.EscapedRoundTrip` | export/dot.go:542-546 | the same with newlines escaped first |
| `DotLexer.Lexer.ReadString` | migrate/dot_parser.go:235-252 | the reading loop |
| `DotLexer.Lexer.WriteEscapeChar` | migrate/dot_parser.go:266-276 | escape table; unknown escapes keep the backslash |
| `DotLexer.Lexer.ReadID` | migrate/dot_parser.go:227-233 | the longest identifier |
| `DotLexer.Lexer.SkipWhitespace` | migrate/dot_parser.go:123-134 | white space and both kinds of comment |
| `DotLexer.Lexer.TrySkipComment` | migrate/dot_parser.go:138-151 | one comment, or nothing |
| `DotLexer.Lexer.SkipLineComment` | migrate/dot_parser.go:154-159 | up to the newline |
| `DotLexer.Lexer.SkipBlockComment` | migrate/dot_parser.go:162-171 | behind the end mark; unterminated, the last character is left |
| `DotLexer.Lexer.Next` | migrate/dot_parser.go:173-189 | the next token |
| `DotTokens.PunctuationRead` | migrate/dot_parser.go:107-116 | which punctuation gives which token; the arrow and the end of the text |
| `DotTokens.NameRead` | migrate/dot_parser.go:213-233 | letters, digits, underscores and dots up to the next other character |
| `DotTokens.EscapesRead` | migrate/dot_parser.go:254-276 | the escape table inside strings |
| `DotTokens.StringRead` | migrate/dot_parser.go:235-252 | any other character stands for itself, up to the quote |
| `DotTokens.LineCommentSkipped` | migrate/dot_parser.go:154-159 | a line comment is skipped up to its end |
| `DotTokens.BlockCommentSkipped` | migrate/dot_parser.go:162-171 | a block comment up to its first closing mark |
| `DotAttributes.FormatDOTAttrs` | export/dot.go:442-459 | sorted, quoted, in brackets; nothing for no attributes |
| `DotAttributes.TwoAttributesPrinted` | export/dot.go:442-459 | the printed text of two attributes, character by character |
| `DotAttributes.Parser.ParseAttrList` | migrate/dot_parser.go:486-498 | brackets around pairs |
| `DotAttributes.Parser.ParseAttrPairs` | migrate/dot_parser.go:501-520 | pairs up to the bracket; later keys win |
| `DotAttributes.Parser.ReadKeyValuePair` | migrate/dot_parser.go:523-536 | key, equals sign, value |
| `DotAttributes.Parser.ParseOptionalAttrs` | migrate/dot_parser.go:466-471 | a list only at a bracket |
| `DotAttributes.AttributesComeBack` | export/dot.go:442-459 | parsing a printed list gives every value with escape pairs read and ends at the token behind it, whatever follows |
| `DotAttributes.AttributeRoundTrip` | export/dot.go:442-459 | for identifier-shaped keys the list comes back iff no value has a backslash directly before n, l or r |
| `SteerContext.FlattenSteerContext` | export/dot.go:715-729 | the sorted, encoded entries |
| `SteerContext.FlattenDetermined` | export/dot.go:711-729 | independent of map order |
| `SteerContext.TwoEntriesWritten` | export/dot.go:711-729 | the written text of two entries, character by character |
| `SteerContext.EncodingTable` | export/dot.go:694-709 | the codes of comma, equals sign and percent sign; everything else stands for itself |
| `SteerContext.DecodingTable` | migrate/migrate.go:625-640 | how each code is read back |
| `SteerContext.EntryAdds` | migrate/migrate.go:647-659 | what one more entry adds: nothing without an equals sign, otherwise its decoded value in place of an earlier one |
| `SteerContext.ParseFlattenedSteerContext` | migrate/migrate.go:647-659 | the loop over the parts |
| `SteerContext.TokenRoundTrip` | export/dot.go:700-709 | decoding undoes encoding, and separators are gone |
| `SteerContext.FlattenThenParse` | migrate/migrate.go:642-659 | any map comes back with keys and values trimmed |
| `SteerContext.SteerContextRoundTrip` | export/dot.go:711-729 | the map comes back iff no key or value has white space at an end |
| `RawBlocks.Writer.MultilineBlock` | formatter/format.go:91-107 | key line, then the stripped content lines indented, blank ones empty |
| `RawBlocks.Writer.Line` | formatter/format.go:62-69 | one indented, right-trimmed line |
| `RawBlocks.Lexer.EmitIndentTokens` | parser/lexer.go:189-201 | one indent, or one outdent for each deeper level; the stack stays increasing and in balance with the tokens |
| `RawBlocks.Lexer.EmitRemainingOutdents` | parser/lexer.go:204-209 | at the end indents and outdents balance |
| `RawBlocks.Lexer.TryCollectBlock` | parser/lexer.go:231-247 | emits the collected block, or nothing |
| `RawBlocks.Lexer.FindNextContentLine` | parser/lexer.go:250-259 | the next line with text |
| `RawBlocks.Lexer.FindBlockEnd` | parser/lexer.go:262-277 | up to text at or left of the key |
| `RawBlocks.Lexer.ExtractRawBlock` | parser/lexer.go:303-309 | unindented lines without trailing blank ones |
| `RawBlocks.StripIndentPrefix` | parser/lexer.go:312-319 | at most so many spaces and tabs |
| `RawBlocks.TrimTrailingBlankLines` | parser/lexer.go:322-327 | joined without trailing blank lines |
| `RawBlockRoundTrip.CollectedBody` | parser/lexer.go:231-327 | what is collected from any written content |
| `RawBlockRoundTrip.BlockRoundTrip` | formatter/format.go:86-107 | in any document, followed by text outside the block, content is collected verbatim iff its lines have no blanks at their ends, first and last have text and the first is not indented |
| `RawBlockRoundTrip.KeyLineIndent` | formatter/format.go:62-69 | the key stands at two columns a level |
| `RawBlockRoundTrip.PadSpaces` | formatter/format.go:62-69 | the indentation is two spaces a level |

## Left out

- Command line, language server, watch mode, editors, site: input and output.
- Zip files, hashes, file-system walking: the reference graph and the parsed workflows are inputs, and resolving a reference to a path is a parameter.
- Timestamps, run IDs and the JSONL encoding of events: events keep kind, node, edge and context key.
- Interactive prompts: runs are non-interactive; a human node continues with the context it has. Lower-casing of edge labels is a parameter.
- Parsing of conditions before a run (`EnsureConditionsParsed`): edges arrive with their conditions parsed, so its error is not among the run errors; the parser itself is modelled on its own.
- Scenario and condition values that the all-paths search writes into its context: nothing there reads them.
- Kinds of retry, prompts, models, costs, style sheets and other node fields: they do not decide control flow.
- Configured targets and sources inside inlined nodes: flattening does not rename them, so the theorems speak of explicit edges.
- The tokens inside an ordinary line of a workflow file, comment stripping and the recognition of key lines: blocks are collected for a given key line.
- Statements, node and edge lists of DOT files outside attribute lists, and the second condition parser of the migration.
- The rest of manifest decoding behind the structural check: versions, hashes and path rules.
- Lint rules over single fields, exhaustiveness heuristics, shell analysis, doctor scores and pricing.
- ManifestJson.ManifestCheckExact: one direction of its side condition only, because documents with an empty-named string member may be judged rightly by chance; ManifestJson.ValidationExact covers all documents.
- DotAttributes.AttributeRoundTrip: keys are identifier-shaped, as all keys that the exporter writes are.
- Simulator.Run: how a run without parallel nodes ends is stated for workflows without edges to the empty ID; the executor takes such an edge for a dead end.
- Simulator.RunIsEnumerated: for runs that enter a node more than twice, or are longer than the depth cap, the all-paths search stops earlier by design.
