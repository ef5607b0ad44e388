# flows: the workflow engine's planning and node-contract core, in Dafny

`flows` is a visual workflow editor. Nodes are placed on a canvas and joined by edges, and the backend runs them in an order derived from the graph. This project models the parts of the repository that decide what runs and what a node may receive and emit. It proves what those parts promise.

- **Canvas-ordered execution planner** (`packages/backend/convex/graph.utils.ts`), in modules `GraphModel` and `GraphTraversal`.
  - `buildGraph` normalises node ids and positions and drops dangling edges.
  - `byCanvas` orders nodes top to bottom, then left to right, then by id.
  - `topoPathByCanvas` is a depth-first walk with backtracking, driven by in-degree counting.
  - `computeBranchOrderedExecutionAuto` keeps only the nodes that touch an edge.
  - Proved: the graph keeps exactly the edges whose endpoints are nodes; `byCanvas` is a strict total order; the traversal returns a topological order that lists every node once, and fails exactly when the graph has a cycle. Also proved: the tip-first, most-recent-fork-next, jump-only-when-stuck rules of the walk.
- **Edge-connection planner for if/else branches** (`packages/graph/src/branching.ts`), in module `Branching`. `planEdgeConnection` is a chain of guards returning a `Result`. Proved: it succeeds exactly when every rule holds; the first failing guard names the error; the inherited metadata fills gaps only and settles after one application.
- **Node contract layer** (`packages/nodes/src/...`).
  - How parameter and port schemas are derived (`Parameters`, `Ports`, `Manifest`).
  - The executor and its `emit` discipline (`Executor`).
  - The keyed registry (`Registry`).
  - The definition checker (`Devtools`).
  - The switch node: path resolution, coercion, comparison and route selection (`SwitchNode`).
  - The constant-text node (`TextConstantNode`).
  - The HTTP GET node's definition (`HttpGetNode`).
- **Editor-side helpers.**
  - `WebDefinitions` (`apps/web/src/lib/nodes/definitions.ts`): the node-type registry and parameter hydration.
  - `WebSwitchNode` (`apps/web/src/components/switch-node.tsx`): switch route normalisation and handle placement.
- **Supporting modules.**
  - `Wrappers`: `Option`, `Result`, `Outcome`.
  - `JsText`: `String(n)`, `trim`, `split`/`join` and ASCII lower-casing.
  - `JsValues`: JavaScript values, `String(v)`, `Number(v)` and `??`.
  - `Entries`: plain objects as ordered key/value entries.
  - `Schemas`: the part of Zod 4 the nodes use, as a `Schema` datatype with a `Parse` function.

Where the source changes state, the model does too:
- `topoPathByCanvas`, `buildGraph`, `buildShape`, `buildParameterSchema`, the text node's loop, `resolvePathValue` and `normalizeSwitchRoutes` are methods with loops. Each is proved equal to a specification function.
- The registry and the `emit` closure are classes whose methods update their fields.
- The definition checker appends to a shared `DiagnosticList` object.

Pure code (branching, `byCanvas`, coercion, comparison, hydration) is functions and lemmas.

Two modelling choices:
- **Zod version.** The nodes use Zod 4 semantics: `httpGetNode` imports `zod/v4`, and its schemas are combined with the others in one `z.object`. So `.default(d)` short-circuits on `undefined`, and `.optional()` around a default still applies the default.
- **Schemas are concrete.** Schemas are a concrete datatype with a concrete `Parse`, so that the accepted-exactly-when lemmas of the node files can be stated and proved.

## Model

| member | source | states |
|---|---|---|
| GraphModel.ToKey | packages/backend/convex/graph.utils.ts:16-17 | `String(id)`: a string id is kept, a numeric id becomes its decimal rendering, which is never empty |
| GraphModel.PosOrDefault | packages/backend/convex/graph.utils.ts:19-26 | each of `x` and `y` independently is kept when present and finite and becomes 0 otherwise |
| GraphModel.PosOrDefaultIdempotent | packages/backend/convex/graph.utils.ts:37-44 | normalising a stored position again changes nothing, so `posOf` reads back what `buildGraph` stored |
| GraphModel.PosOf | packages/backend/convex/graph.utils.ts:37-44 | a key that is not a node fails with "not in the graph"; any other key gives its stored position |
| GraphModel.KeyCompare | packages/backend/convex/graph.utils.ts:51 | the id comparison returns -1, 0 or 1, and 0 exactly for equal ids |
| GraphModel.KeyCompareAntisymmetric | packages/backend/convex/graph.utils.ts:51 | swapping the ids negates the comparison |
| GraphModel.KeyCompareTransitive | packages/backend/convex/graph.utils.ts:51 | the id comparison is transitive |
| GraphModel.CanvasCompare | packages/backend/convex/graph.utils.ts:50-52 | negative exactly when `y` is smaller, or `y` ties and `x` is smaller, or both tie and the id sorts first; zero exactly for the same position and id |
| GraphModel.ByCanvas | packages/backend/convex/graph.utils.ts:46-53 | fails on the first key that is not a node (the first argument is looked up first); otherwise orders by `y`, `x`, id, and is zero only for the same node |
| GraphModel.BeforeIsStrictTotalOrder | packages/backend/convex/graph.utils.ts:46-53 | `byCanvas` is irreflexive, total on distinct nodes and transitive |
| GraphModel.SortByCanvas | packages/backend/convex/graph.utils.ts:95 | sorting with `byCanvas` returns a permutation of its input |
| GraphModel.SortByCanvasSorted | packages/backend/convex/graph.utils.ts:95 | the sorted list is in canvas order |
| GraphModel.SortedHeadIsTopmost | packages/backend/convex/graph.utils.ts:111-113 | the head of the sorted list precedes every other element on the canvas |
| GraphModel.KeptEdgesExactly | packages/backend/convex/graph.utils.ts:64-72 | an edge is kept exactly when some input edge normalises to it and both endpoints are nodes |
| GraphModel.AddEdgesEffect | packages/backend/convex/graph.utils.ts:64-72 | the edge loop succeeds exactly when no kept edge repeats, and then appends exactly the kept edges, in input order |
| GraphModel.BuildGraphSpec | packages/backend/convex/graph.utils.ts:55-75 | `buildGraph` succeeds exactly when the normalised ids are distinct and no kept edge repeats; it keeps every node in input order with its normalised position, and exactly the kept edges |
| GraphModel.BuildGraphKeptEdges | packages/backend/convex/graph.utils.ts:64-72 | dangling edges are dropped silently: an edge is in the graph exactly when its two normalised endpoints are nodes and some input edge names them |
| GraphModel.BuildGraph | packages/backend/convex/graph.utils.ts:55-75 | the two loops compute `buildGraph`'s result; a built graph has distinct nodes, a position for each, and distinct edges between nodes |
| GraphTraversal.OutNeighbors | packages/backend/convex/graph.utils.ts:88 | `t` is an out-neighbour of `k` exactly when the edge `k -> t` exists |
| GraphTraversal.FilterIn | packages/backend/convex/graph.utils.ts:231 | the filtered list holds exactly the listed keys that are kept |
| GraphTraversal.EligibleChildrenSorted | packages/backend/convex/graph.utils.ts:82-97 | the result holds exactly the eligible out-neighbours of `k` |
| GraphTraversal.EligibleChildrenSortedIsSorted | packages/backend/convex/graph.utils.ts:95 | those children are in canvas order |
| GraphTraversal.PickTopmost | packages/backend/convex/graph.utils.ts:107-114 | nothing exactly when no node is eligible, otherwise an eligible node |
| GraphTraversal.ResumeFork | packages/backend/convex/graph.utils.ts:185-199 | the fork loop returns an eligible node or nothing, never grows the stack, and empties it when it finds nothing |
| GraphTraversal.DecrementEffect | packages/backend/convex/graph.utils.ts:151-162 | each child's in-degree drops by its number of edges from the visited node, and exactly the children reaching zero become eligible |
| GraphTraversal.InitialInv | packages/backend/convex/graph.utils.ts:133-146 | the state before the main loop (every node's in-degree, the sources eligible) satisfies the loop invariant |
| GraphTraversal.NextNode | packages/backend/convex/graph.utils.ts:166-203 | the loop body picks an eligible node, and picks nothing exactly when no node is eligible |
| GraphTraversal.VisitPreservesInv | packages/backend/convex/graph.utils.ts:148-164 | `visit` of an eligible node keeps the invariant and appends the node to the order |
| GraphTraversal.StepPreservesInv | packages/backend/convex/graph.utils.ts:166-211 | one iteration keeps the invariant and grows the order by one; it throws exactly when nothing is eligible |
| GraphTraversal.OrderBound | packages/backend/convex/graph.utils.ts:166 | visited nodes are distinct nodes, so the loop ends; a full order contains every node |
| GraphTraversal.TopoPathCorrect | packages/backend/convex/graph.utils.ts:127-215 | the result lists every node once, each after all of its predecessors; the traversal throws "cycle or unreachable node" exactly when the graph has a cycle |
| GraphTraversal.StuckMeansCycle | packages/backend/convex/graph.utils.ts:201-209 | running out of eligible nodes before every node is visited means the graph has a cycle |
| GraphTraversal.CycleNotAcyclic | packages/backend/convex/graph.utils.ts:205-209 | a graph with a closed walk makes the traversal throw |
| GraphTraversal.TopologicalOrderAcyclic | packages/backend/convex/graph.utils.ts:127-215 | a graph that has a topological order has no cycle |
| GraphTraversal.StepExtendsTip | packages/backend/convex/graph.utils.ts:169-182 | while the path tip has an eligible child, the walk moves to the tip's topmost eligible child |
| GraphTraversal.ResumeForkNone | packages/backend/convex/graph.utils.ts:185-199 | when the fork loop finds nothing, every fork on the stack has no eligible child |
| GraphTraversal.ResumeForkMostRecent | packages/backend/convex/graph.utils.ts:185-199 | the fork loop resumes at the topmost eligible child of the most recent fork that still has one |
| GraphTraversal.JumpOnlyWhenStuck | packages/backend/convex/graph.utils.ts:201-203 | a jump to the topmost eligible node happens only when neither the tip nor any fork has an eligible child |
| GraphTraversal.FirstPickAsWritten | packages/backend/convex/graph.utils.ts:201-209 | the first iteration as written: it succeeds only with a non-empty node key |
| GraphTraversal.EmptyKeyRejectedAsWritten | packages/backend/convex/graph.utils.ts:201-209 | on the acyclic one-node graph keyed "", the code as written throws, while the corrected traversal returns `[""]` |
| GraphTraversal.ForkPassAsWritten | packages/backend/convex/graph.utils.ts:186-198 | one pass of the inner fork loop as written: pop an exhausted fork, otherwise shift its first child and stop only on a truthy key |
| GraphTraversal.EmptyKeyForkLoopsAsWritten | packages/backend/convex/graph.utils.ts:186-198 | once "" heads the refreshed children of the top fork, the loop as written runs on for any number of passes, while `ResumeFork` resumes at "" |
| GraphTraversal.GetEligibleChildrenSorted | packages/backend/convex/graph.utils.ts:82-97 | the collect-then-sort loop computes the eligible children in canvas order |
| GraphTraversal.PickTopmostEligible | packages/backend/convex/graph.utils.ts:107-114 | the method returns the topmost eligible node, or nothing when the set is empty |
| GraphTraversal.VisitNode | packages/backend/convex/graph.utils.ts:148-164 | `visit` appends the node, removes it from the eligible set, lowers its children's in-degrees and makes it the tip |
| GraphTraversal.InitialDegrees | packages/backend/convex/graph.utils.ts:133-142 | the loop records each node's in-degree and makes the nodes without in-edges eligible |
| GraphTraversal.ChooseNext | packages/backend/convex/graph.utils.ts:167-199 | the first part of the loop body: extend the tip, remembering it as a fork when it has several children, else resume the most recent live fork |
| GraphTraversal.TopoPathByCanvas | packages/backend/convex/graph.utils.ts:127-215 | the imperative traversal returns a topological order of the whole graph, and fails exactly when the graph has a cycle |
| GraphTraversal.Endpoints | packages/backend/convex/graph.utils.ts:224-229 | a key is collected exactly when it is the source or target of some edge |
| GraphTraversal.FilterInKeepsOrder | packages/backend/convex/graph.utils.ts:231 | filtering keeps the order distinct, with every edge between the remaining entries pointing forward |
| GraphTraversal.BranchOrderedExecutionCorrect | packages/backend/convex/graph.utils.ts:221-232 | fails exactly when the graph cannot be built or has a cycle; otherwise lists each node touching an edge once, every edge's source before its target |
| GraphTraversal.ComputeBranchOrderedExecutionAuto | packages/backend/convex/graph.utils.ts:221-232 | the method computes that result |
| Branching.NormalizeBranchKey | packages/graph/src/branching.ts:40-50 | a falsy value is no key; "if" and "else" are keys; any other string fails with "Unsupported branch key" |
| Branching.NormalizeBranchKeyName | packages/graph/src/branching.ts:40-50 | a stored key normalises back to itself |
| Branching.EnsureSameWorkflow | packages/graph/src/branching.ts:54-61 | passes exactly when the node belongs to the workflow |
| Branching.EnsureRegularNodeHasSingleEdge | packages/graph/src/branching.ts:63-70 | passes exactly when the node is a branch node or has no outgoing edge |
| Branching.CheckExistingKeysSpec | packages/graph/src/branching.ts:79-84 | the edge loop passes exactly when every existing key is supported and none equals the requested key; otherwise the first failing edge names the error |
| Branching.EnsureBranchNodeLimits | packages/graph/src/branching.ts:72-85 | two or more existing legs are rejected before any key is examined |
| Branching.ScopeOf | packages/graph/src/branching.ts:87-88 | a branch node is its own scope; any other node has the scope it records |
| Branching.BranchOf | packages/graph/src/branching.ts:90-98 | a branch node's leg is the planned edge's key; any other node's leg is its normalised stored key |
| Branching.EnsureScopeCompatibility | packages/graph/src/branching.ts:100-112 | passes exactly when the target has no scope, or both scopes are the same; the error distinguishes entering from outside and crossing scopes |
| Branching.EnsureBranchCompatibility | packages/graph/src/branching.ts:114-124 | the same two rules for branch legs |
| Branching.CheckRequestedKey | packages/graph/src/branching.ts:163-172 | on success the edge carries a key exactly when its source is a branch node |
| Branching.PlanSucceedsIff | packages/graph/src/branching.ts:142-196 | a plan is produced exactly when every rule holds |
| Branching.PlanRejectsOtherWorkflow | packages/graph/src/branching.ts:153-154 | a node of another workflow is rejected first, whatever else is wrong |
| Branching.PlanRejectsSelfLoop | packages/graph/src/branching.ts:157-159 | next, a self-referential edge is rejected |
| Branching.PlanRejectsSecondRegularEdge | packages/graph/src/branching.ts:161 | next, a regular node with an outgoing edge gets no second one |
| Branching.PlanBranchKeyRules | packages/graph/src/branching.ts:164-169 | a branch source needs a supported key, fewer than two legs and a key no existing leg uses; the first offending edge names the error |
| Branching.FirstKeyErrorWins | packages/graph/src/branching.ts:79-84 | the edge loop stops at its first failing edge |
| Branching.PlanRejectsKeyOnRegularSource | packages/graph/src/branching.ts:170-172 | a regular source may not ask for a branch key |
| Branching.PlanLateErrors | packages/graph/src/branching.ts:174-180 | after the key checks: an unsupported stored leg on a regular source, then on the target, gives `UnsupportedBranchKey`; then the scope error (`EnterBranchFromOutside` or `CrossBranchEdge`) wins over any leg error; a leg error (`InconsistentBranchMetadata` or `DifferentBranchLegs`) is reported only when the scopes agree |
| Branching.PlanSuccessMeaning | packages/graph/src/branching.ts:126-195 | a branch source's edge carries the requested key, any other edge its source's leg; the target inherits scope and leg only where it has none |
| Branching.Assign | packages/graph/src/branching.ts:28-31 | writing the assignment into the target keeps its id, workflow and type |
| Branching.PlanAssignmentSettles | packages/graph/src/branching.ts:126-140 | once the assignment is written into the target, planning the same edge again assigns nothing, and the edge's leg is the target's leg |
| Parameters.DefineParameter | packages/nodes/src/core/parameters.ts:43-45 | the definition is handed back unchanged |
| Parameters.WithMetaSemantics | packages/nodes/src/core/parameters.ts:49-62 | a defined default makes `undefined` read as the default; `required: false` lets `undefined` through; other values are checked by the declared schema alone |
| Parameters.WithMetaOrder | packages/nodes/src/core/parameters.ts:54-61 | the default wraps first and `.optional()` outside it; with neither, the schema is unchanged |
| Parameters.WithOptionals | packages/nodes/src/core/parameters.ts:49-62 | the step-by-step reassignment computes that wrapped schema |
| Parameters.ParameterObjectSchema | packages/nodes/src/core/parameters.ts:80 | the result is an object schema |
| Parameters.BuildParameterSchema | packages/nodes/src/core/parameters.ts:64-81 | the loop builds the object schema of the parameter shape |
| Parameters.ParameterShapeKeys | packages/nodes/src/core/parameters.ts:67-80 | the shape has exactly one entry per parameter key and no others |
| Parameters.MissingParametersAccepted | packages/nodes/src/core/parameters.ts:64-81 | `{}` parses exactly when every parameter accepts a missing value |
| Parameters.MissingParametersTakeDefaults | packages/nodes/src/core/parameters.ts:55-57 | when `{}` parses, every parameter with a default reads as its default |
| Ports.DefinePort | packages/nodes/src/core/ports.ts:57-59 | the definition is handed back unchanged |
| Ports.EffectiveMultiplicity | packages/nodes/src/core/ports.ts:68 | a port is "many" exactly when it says so; a missing multiplicity is "single" |
| Ports.PortSchemaOrder | packages/nodes/src/core/ports.ts:68-71 | a "many" port is array-wrapped first and made optional outside it; a "single", non-optional port keeps its schema |
| Ports.PortSchemaSemantics | packages/nodes/src/core/ports.ts:68-71 | an optional port lets `undefined` through; a "many" port takes exactly the arrays whose every element passes, and rejects `undefined` unless optional |
| Ports.BuildShape | packages/nodes/src/core/ports.ts:61-75 | the loop assigns one shape entry per port |
| Ports.PortObjectSchema | packages/nodes/src/core/ports.ts:77-78 | the result is an object schema |
| Ports.BuildPortSchema | packages/nodes/src/core/ports.ts:77-78 | builds that object schema |
| Ports.PortShapeKeys | packages/nodes/src/core/ports.ts:61-75 | the shape has exactly one entry per port key and no others |
| Ports.InputsAccepted | packages/nodes/src/core/ports.ts:77-78 | an input object passes exactly when every port accepts what the object holds under its key |
| Ports.MissingManyInputRejected | packages/nodes/src/core/ports.ts:69-71 | a required "many" input that is missing rejects the whole input object |
| Manifest.DefineNode | packages/nodes/src/core/manifest.ts:43-65 | manifest, parameters and ports are kept; the parameter schema is built from the parameters, the input schema from the input ports |
| Manifest.DefineNodeDerived | packages/nodes/src/core/manifest.ts:54-63 | every defined node has derived schemas, and a derived definition is `defineNode` of its own parts |
| Manifest.InputSchemaIgnoresOutputs | packages/nodes/src/core/manifest.ts:55-57 | the output ports never affect the input schema |
| Manifest.DefinedShapes | packages/nodes/src/core/manifest.ts:54-57 | the derived schemas have one field per parameter and one per input port, and no others |
| Registry.FirstRegistrationOrder | packages/nodes/src/core/registry.ts:14-19 | an id is listed exactly when some registration used it |
| Registry.LastRegistered | packages/nodes/src/core/registry.ts:16 | a definition found for an id carries that id |
| Registry.RegistrationsSpec | packages/nodes/src/core/registry.ts:14-19 | each registered id is listed once, in order of first registration, and reads as the definition registered last under it |
| Registry.NodeRegistry.constructor | packages/nodes/src/core/registry.ts:13-14 | a new registry is empty |
| Registry.NodeRegistry.Register | packages/nodes/src/core/registry.ts:15-17 | `findById` of the new id gives the new definition, replacing an earlier one; every other id reads as before |
| Registry.NodeRegistry.FindById | packages/nodes/src/core/registry.ts:18 | `undefined` exactly for an id never registered |
| Registry.NodeRegistry.List | packages/nodes/src/core/registry.ts:19 | the stored definitions, one per key, in key order |
| Registry.NodeRegistry.Contents | packages/nodes/src/core/registry.ts:14-19 | `findById` gives the last definition registered under the id; `list` gives one definition per distinct id, ordered by first registration |
| Devtools.DiagnosticList.Push | packages/nodes/src/devtools/index.ts:19-22 | appends one diagnostic to the shared list |
| Devtools.ValidateId | packages/nodes/src/devtools/index.ts:14-24 | appends one error when the id is not `[a-z0-9-]+`, nothing otherwise |
| Devtools.ValidateVersion | packages/nodes/src/devtools/index.ts:15-33 | appends one warning when the version is not `\d+\.\d+\.\d+`, nothing otherwise |
| Devtools.ValidateEntries | packages/nodes/src/devtools/index.ts:37-44 | the loop appends one error per entry whose key differs from its id, in entry order |
| Devtools.ValidateKeys | packages/nodes/src/devtools/index.ts:35-65 | the three loops append the parameter, input port and output port key errors, in that order |
| Devtools.ValidateNodeDefinition | packages/nodes/src/devtools/index.ts:67-73 | returns the id, version and key diagnostics, in that order |
| Devtools.KeyMismatchesSpec | packages/nodes/src/devtools/index.ts:36-64 | one error per mismatched entry, no warning, and nothing exactly when every key matches its id |
| Devtools.DiagnoseEmpty | packages/nodes/src/devtools/index.ts:67-73 | no diagnostics exactly when the id is kebab-case, the version has the x.y.z form and every key matches its id |
| Devtools.DiagnoseCounts | packages/nodes/src/devtools/index.ts:17-73 | errors are the bad id plus every mismatched key; warnings are the bad version only |
| Devtools.HeaderCounts | packages/nodes/src/devtools/index.ts:17-33 | the id check yields at most one error and the version check at most one warning |
| Devtools.LeadingZeroVersionAccepted | packages/nodes/src/devtools/index.ts:15 | "01.2.3" passes although item 2 of Semantic Versioning 2.0.0 rejects it; every normal version number passes |
| Executor.EmitStepSpec | packages/nodes/src/server/executor.ts:86-105 | an unknown port throws "Unknown output port"; a rejected payload throws the schema's issue; otherwise the validated value is stored under the port id, replacing an earlier one |
| Executor.LastEmission | packages/nodes/src/server/executor.ts:101-104 | the index of the last emission on a port, or nothing when no emission used it |
| Executor.EmitAllOutcome | packages/nodes/src/server/executor.ts:86-105 | the emissions succeed exactly when each is accepted; the first rejected one decides the error |
| Executor.EmitAllOutput | packages/nodes/src/server/executor.ts:101-104 | after accepted emissions, each emitted port is held once with the value of its last emission, and other keys are unchanged |
| Executor.EmitAllFresh | packages/nodes/src/server/executor.ts:101-104 | emissions on distinct new ports append their entries in emission order |
| Executor.EmitThree | packages/nodes/src/server/executor.ts:101-104 | three accepted emissions on distinct ports give an object listing the three in order |
| Executor.ExecutionSucceeds | packages/nodes/src/server/executor.ts:72-115 | accepted parameters, inputs and emissions and a handler that returns give the emitted object |
| Executor.ChecksBeforeHandler | packages/nodes/src/server/executor.ts:77-82 | parameters, then inputs, are parsed before the handler runs: a rejected one fails the execution whatever the handler does |
| Executor.ExecutionOutput | packages/nodes/src/server/executor.ts:83-114 | with accepted parameters and inputs, the execution succeeds exactly when every emission is accepted and the handler returns; it returns exactly the ports emitted |
| Executor.MissingParametersDefaulted | packages/nodes/src/server/executor.ts:77-79 | without parameters, a defined node runs with `{}` parsed: accepted exactly when every parameter accepts a missing value, and defaults are applied |
| Executor.Emitter.constructor | packages/nodes/src/server/executor.ts:83-85 | the emitted object starts empty |
| Executor.Emitter.Emit | packages/nodes/src/server/executor.ts:86-105 | `emit` updates the emitted object as `EmitStepSpec` states; a throwing `emit` leaves it unchanged |
| Executor.Emitter.EmitEach | packages/nodes/src/server/executor.ts:107-113 | the handler's emits in order; the first one that throws ends the run |
| Executor.Execute | packages/nodes/src/server/executor.ts:72-115 | the executor's result is the specified execution result |
| SwitchNode.ComparisonNamesSpec | packages/nodes/src/examples/switchNode.tsx:11-18 | operator names round-trip, and a name is read exactly when it is one of the six |
| SwitchNode.ValueTypeNamesSpec | packages/nodes/src/examples/switchNode.tsx:34 | the same for the three value types |
| SwitchNode.RouteNamesSpec | packages/nodes/src/examples/switchNode.tsx:32 | the same for the two routes |
| SwitchNode.SwitchShape | packages/nodes/src/examples/switchNode.tsx:37-86 | `buildParameterSchema` yields the switch schema: `operator`, `valueType` and `missingRoute` with defaults, `expectedValue` optional |
| SwitchNode.SwitchParameterKeys | packages/nodes/src/examples/switchNode.tsx:37-86 | the parameter record and its schema declare the same five keys, each once |
| SwitchNode.EnumDefault | packages/nodes/src/examples/switchNode.tsx:49-50 | an enum with a default turns `undefined` into the default, keeps a listed name and rejects everything else |
| SwitchNode.StringField | packages/nodes/src/examples/switchNode.tsx:42 | `z.string().min(m)` keeps exactly the strings of length `m` or more |
| SwitchNode.OptionalStringField | packages/nodes/src/examples/switchNode.tsx:71 | an optional string keeps `undefined` and every string |
| SwitchNode.SwitchFields | packages/nodes/src/examples/switchNode.tsx:37-86 | the parameter object parses field by field |
| SwitchNode.SwitchParametersAccepted | packages/nodes/src/examples/switchNode.tsx:37-86 | accepted exactly when `path` is a non-empty string, the three enums are absent or listed, and `expectedValue` is absent or a string |
| SwitchNode.SwitchParametersRead | packages/nodes/src/examples/switchNode.tsx:45-85 | an absent `operator` reads "equals", `valueType` "string", `missingRoute` "default"; given values are kept |
| SwitchNode.Segments | packages/nodes/src/examples/switchNode.tsx:150-153 | no segment is empty |
| SwitchNode.ResolvePathValue | packages/nodes/src/examples/switchNode.tsx:145-172 | the loop computes the walk of the path's segments from the context |
| SwitchNode.WalkAppend | packages/nodes/src/examples/switchNode.tsx:155-171 | walking a path is walking its first part and then the rest |
| SwitchNode.WalkStops | packages/nodes/src/examples/switchNode.tsx:157-167 | reaching null, a primitive, an array or a missing own key gives `undefined` |
| SwitchNode.EmptySegmentIgnored | packages/nodes/src/examples/switchNode.tsx:150-153 | "a..b" resolves like "a.b" |
| SwitchNode.PathEdgeCases | packages/nodes/src/examples/switchNode.tsx:146-149 | a blank path is `undefined`, and "." is the whole context |
| SwitchNode.ResolveJoinedKeys | packages/nodes/src/examples/switchNode.tsx:145-172 | joining trimmed, dot-free, non-empty keys with "." and resolving walks exactly those keys |
| SwitchNode.CoerceValueSpec | packages/nodes/src/examples/switchNode.tsx:175-213 | null and undefined give `undefined`; "number" gives `Number(v)` unless NaN; "boolean" accepts only booleans, "true"/"false" in any case, and 1/0; "string" gives `String(v)` |
| SwitchNode.CoerceIdempotent | packages/nodes/src/examples/switchNode.tsx:175-213 | coercing a coerced value again changes nothing |
| SwitchNode.CoerceNumberRoundTrip | packages/nodes/src/examples/switchNode.tsx:179-212 | a number rendered by the "string" coercion reads back under "number" |
| SwitchNode.CoerceNumberString | packages/nodes/src/examples/switchNode.tsx:179-185 | the "number" coercion of a string is the value `Number()` reads from it, whatever the notation |
| SwitchNode.CoerceExponentMatches | packages/nodes/src/examples/switchNode.tsx:179-185 | an actual "1e3" and an expected "1000" both coerce to 1000, so `equals` holds |
| SwitchNode.CoerceBooleanRoundTrip | packages/nodes/src/examples/switchNode.tsx:186-212 | a boolean rendered by the "string" coercion reads back under "boolean" |
| SwitchNode.RequiresExpectedValue | packages/nodes/src/examples/switchNode.tsx:215-216 | true exactly for the operators other than "exists" and "notExists" |
| SwitchNode.ComparisonSpec | packages/nodes/src/examples/switchNode.tsx:218-257 | "exists" holds exactly for a present value and "notExists" is its negation; other operators are false with a missing side; "notEquals" negates "equals"; the orderings need two numbers |
| SwitchNode.RouteSelection | packages/nodes/src/examples/switchNode.tsx:273-295 | no match without a coercible expected value; `missingRoute` exactly for a missing value under an operator that needs one; otherwise "match" exactly when matched |
| SwitchNode.RunSwitch | packages/nodes/src/examples/switchNode.tsx:264-300 | the handler body emits route, matched flag and value, in that order |
| SwitchNode.SwitchDefinitionParts | packages/nodes/src/examples/switchNode.tsx:88-125 | the definition carries the switch schema, no inputs, the three outputs and the id "switch" |
| SwitchNode.NoInputs | packages/nodes/src/examples/switchNode.tsx:89 | the empty input schema parses any object, and a missing one, to `{}` |
| SwitchNode.SwitchOutputPorts | packages/nodes/src/examples/switchNode.tsx:90-109 | the three output ports with their schemas |
| SwitchNode.SingleAccepted | packages/nodes/src/server/executor.ts:96-104 | an emission on a single port whose schema returns the payload is stored unchanged |
| SwitchNode.SwitchEmitsAccepted | packages/nodes/src/examples/switchNode.tsx:297-299 | the three emissions are accepted and listed in emission order |
| SwitchNode.SwitchRun | packages/nodes/src/examples/switchNode.tsx:264-300 | with readable parameters and a context, the handler returns its three emissions |
| SwitchNode.SwitchExecution | packages/nodes/src/examples/switchNode.tsx:259-301 | run through the executor, the node returns exactly `route`, `matched` and `value`; `value` is the resolved value, or null when it is missing |
| TextConstantNode.TextShape | packages/nodes/src/examples/textConstantNode.tsx:10-27 | `buildParameterSchema` gives both parameters their defaults |
| TextConstantNode.TextDefinitionParts | packages/nodes/src/examples/textConstantNode.tsx:29-53 | the definition carries that schema, no inputs, the single `text` output and the id "text-constant" |
| TextConstantNode.MessageField | packages/nodes/src/examples/textConstantNode.tsx:15-16 | a missing message becomes the default; a non-empty string is kept; anything else is rejected |
| TextConstantNode.BoundedNumberField | packages/nodes/src/examples/textConstantNode.tsx:23-24 | a missing count becomes the default; an integer in range is kept; anything else is rejected |
| TextConstantNode.TextParametersAccepted | packages/nodes/src/examples/textConstantNode.tsx:15-24 | accepted exactly when `message` is absent or non-empty and `repeat` is absent or an integer from 1 to 5 |
| TextConstantNode.TextParametersRead | packages/nodes/src/examples/textConstantNode.tsx:15-24 | the handler receives a non-empty message and a count from 1 to 5, the given ones or the defaults |
| TextConstantNode.Repeated | packages/nodes/src/examples/textConstantNode.tsx:82-87 | `count` copies of the item, none for a count of zero or less |
| TextConstantNode.CollectMessages | packages/nodes/src/examples/textConstantNode.tsx:81-87 | the while loop collects the message exactly `repeat` times |
| TextConstantNode.RunTextConstant | packages/nodes/src/examples/textConstantNode.tsx:80-90 | the handler emits the collected copies once, on `text` |
| TextConstantNode.TextEmissionAccepted | packages/nodes/src/examples/textConstantNode.tsx:32-89 | the "many" `text` port accepts an array of strings of any length and stores it unchanged |
| TextConstantNode.EmitOne | packages/nodes/src/server/executor.ts:101-104 | one accepted emission gives an object holding it alone |
| TextConstantNode.TextRun | packages/nodes/src/examples/textConstantNode.tsx:75-91 | with readable parameters, the handler returns its one emission |
| TextConstantNode.TextExecution | packages/nodes/src/examples/textConstantNode.tsx:75-91 | run through the executor, the node returns `{text: [...]}` holding the message exactly `repeat` times, 1 to 5 of them |
| TextConstantNode.DefaultRun | packages/nodes/src/examples/textConstantNode.tsx:75-91 | without parameters the node emits the default message once |
| HttpGetNode.HttpShape | packages/nodes/src/examples/httpGetNode.tsx:10-41 | `buildParameterSchema` gives `method` and `url` defaults and leaves `body` optional |
| HttpGetNode.HttpDefinitionParts | packages/nodes/src/examples/httpGetNode.tsx:43-79 | the definition carries that schema, no inputs and the id "http-get" |
| HttpGetNode.HttpParametersAccepted | packages/nodes/src/examples/httpGetNode.tsx:15-38 | accepted exactly when `method` is absent or one of the five methods, `url` absent or absolute, `body` absent or JSON |
| HttpGetNode.HttpDefaults | packages/nodes/src/examples/httpGetNode.tsx:16-31 | missing parameters read as GET and the example URL |
| HttpGetNode.HttpExecution | packages/nodes/src/examples/httpGetNode.tsx:105-112 | with accepted parameters the execution fails with the handler's "Not implemented yet"; rejected parameters fail first |
| WebDefinitions.RegisteredTypes | apps/web/src/lib/nodes/definitions.ts:57-60 | a type is registered exactly when it is "http" or "switch" |
| WebDefinitions.GetNodeDefinition | apps/web/src/lib/nodes/definitions.ts:33-39 | own keys give their definition; inherited `Object.prototype` names give the inherited member; anything else is `undefined` |
| WebDefinitions.RegisteredDefinitions | apps/web/src/lib/nodes/definitions.ts:14-20 | "http" reads the HTTP GET node and "switch" the switch node; the manifest id "http-get" is not a registered type |
| WebDefinitions.RegisteredManifestIds | apps/web/src/lib/nodes/definitions.ts:14-16 | the two entries carry the manifest ids "http-get" and "switch" |
| WebDefinitions.InheritedNameNotRegistered | apps/web/src/lib/nodes/definitions.ts:33-60 | "toString" is not registered, yet the property read finds the inherited member |
| WebDefinitions.ParameterSchemaOf | apps/web/src/lib/nodes/definitions.ts:48 | a registered node's parameter schema is an object schema |
| WebDefinitions.ParameterSchemaOfDefinition | apps/web/src/lib/nodes/definitions.ts:47-48 | it is the schema `defineNode` derived for that node |
| WebDefinitions.RegisteredEntry | apps/web/src/lib/nodes/definitions.ts:47 | a registered type reads its own entry |
| WebDefinitions.HydrateNodeParameters | apps/web/src/lib/nodes/definitions.ts:41-55 | hydration always yields an object |
| WebDefinitions.HydrateSpec | apps/web/src/lib/nodes/definitions.ts:47-54 | the parsed value on success and `{}` on failure, never an error; null and undefined hydrate as `{}` does |
| WebDefinitions.HydrateSwitchEmpty | apps/web/src/lib/nodes/definitions.ts:47-54 | a switch node without parameters hydrates to `{}`, because `path` has no default |
| WebDefinitions.HydrateHttpEmpty | apps/web/src/lib/nodes/definitions.ts:47-53 | an HTTP node without parameters hydrates to the declared defaults |
| WebDefinitions.HydrateHttpRejected | apps/web/src/lib/nodes/definitions.ts:51-54 | a stored method outside the five discards every stored field |
| WebSwitchNode.ComputeHandleOffset | apps/web/src/components/switch-node.tsx:40-46 | a lone handle sits at 0 |
| WebSwitchNode.HandleOffsetLayout | apps/web/src/components/switch-node.tsx:40-46 | handles are symmetric about the middle, spaced `gap` apart, and the middle one of an odd count is at 0 |
| WebSwitchNode.EnsureRoutes | apps/web/src/components/switch-node.tsx:48-49 | never empty: a non-empty list is kept, and a missing or empty one gives the defaults |
| WebSwitchNode.NormalizeRouteLabel | apps/web/src/components/switch-node.tsx:51-54 | a non-empty label is kept, an empty one gives the fallback |
| WebSwitchNode.NormalizeRouteLabelSettles | apps/web/src/components/switch-node.tsx:51-54 | normalising twice changes nothing; a non-empty fallback gives a non-empty label |
| WebSwitchNode.StringProperty | apps/web/src/components/switch-node.tsx:75-82 | a property is read exactly when the entry is an object holding a string there |
| WebSwitchNode.RouteOfEntry | apps/web/src/components/switch-node.tsx:64-84 | an entry gives a route exactly when it is a string or a truthy object; a string `s` gives `{id: s, label: s}` |
| WebSwitchNode.CollectRoutes | apps/web/src/components/switch-node.tsx:63-85 | never more routes than entries |
| WebSwitchNode.NormalizedRoutes | apps/web/src/components/switch-node.tsx:56-88 | never empty, and a non-array gives the defaults |
| WebSwitchNode.NormalizeSwitchRoutes | apps/web/src/components/switch-node.tsx:56-88 | the loop computes the normalised routes |
| WebSwitchNode.CollectRoutesEmpty | apps/web/src/components/switch-node.tsx:64-87 | no route is collected exactly when no entry is accepted |
| WebSwitchNode.CollectRoutesOrigin | apps/web/src/components/switch-node.tsx:64-85 | every route comes from an accepted entry at its position, and every accepted entry's route is collected |
| WebSwitchNode.StringRoutes | apps/web/src/components/switch-node.tsx:65-68 | an array of strings gives one route per string, id and label both the string |
| WebSwitchNode.RoutesValue | apps/web/src/components/switch-node.tsx:83 | routes written back as `{id, label}` objects, one per route |
| WebSwitchNode.CollectWrittenRoutes | apps/web/src/components/switch-node.tsx:69-84 | routes written back as objects are read back unchanged |
| WebSwitchNode.NormalizeRoundTrip | apps/web/src/components/switch-node.tsx:56-88 | normalising stored normalised routes changes nothing |
| WebSwitchNode.EnsureNormalized | apps/web/src/components/switch-node.tsx:48-87 | `ensureRoutes` keeps any normalised list |
| WebSwitchNode.GeneratedIdsDistinct | apps/web/src/components/switch-node.tsx:76 | generated ids of different positions differ |
| WebSwitchNode.SkippedEntryKeepsPosition | apps/web/src/components/switch-node.tsx:64-76 | a skipped entry still takes up a position: `[null, {}]` gives `route-2` |
| WebSwitchNode.DeriveSwitchRoutesFromParameters | apps/web/src/components/switch-node.tsx:90-108 | the derived route list is never empty |
| WebSwitchNode.DerivePrecedence | apps/web/src/components/switch-node.tsx:96-103 | the first present key decides: a non-array `routes` gives the defaults even when `conditions` holds routes |
| WebSwitchNode.DeriveSpec | apps/web/src/components/switch-node.tsx:90-108 | no parameters, or none of the three keys, give the defaults; otherwise `routes`, then `conditions`, then `cases` is normalised |
| Schemas.ObjectResult | packages/nodes/src/core/parameters.ts:80 | `z.object` accepts only objects and returns an object |
| Schemas.ParseShapeSucceeds | packages/nodes/src/core/parameters.ts:80 | an object parse succeeds exactly when every declared field parses |
| Schemas.ParseShapeOutput | packages/nodes/src/core/parameters.ts:80 | the output keeps exactly the declared keys that are present or parse to a defined value, each with its parsed value; unknown keys are dropped |
| Schemas.ObjectAccepted | packages/nodes/src/core/ports.ts:77-78 | an object passes exactly when every field accepts what the object holds under its key |
| Schemas.DefaultSemantics | packages/nodes/src/core/parameters.ts:55-57 | `.default(d)` turns `undefined` into `d` and checks every other value with the inner schema |
| Schemas.OptionalSemantics | packages/nodes/src/core/parameters.ts:58-60 | `.optional()` accepts `undefined` (as `undefined` unless the inner schema supplies a default) and checks every other value with the inner schema |
| Schemas.ArraySemantics | packages/nodes/src/core/ports.ts:69 | `.array()` accepts exactly the arrays whose every element passes, element by element |
| JsText.NatToDecimalInjective | apps/web/src/components/switch-node.tsx:76 | different numbers render differently |
| JsText.TrimSpec | packages/nodes/src/examples/switchNode.tsx:146-152 | `trim` removes exactly the leading and trailing whitespace |
| JsText.SplitJoin | packages/nodes/src/examples/switchNode.tsx:151 | joining the split pieces with the separator gives the string back |
| JsText.JoinSplit | packages/nodes/src/examples/switchNode.tsx:151 | splitting joined separator-free pieces gives the pieces back |
| JsText.LowerAsciiUnchanged | packages/nodes/src/examples/switchNode.tsx:191 | lower-casing a string without upper-case letters changes nothing |
| JsValues.Coalesce | packages/nodes/src/server/executor.ts:77-82 | `v ?? fallback` is `v` unless it is null or undefined |
| JsValues.ToNumber | packages/nodes/src/examples/switchNode.tsx:180 | `Number(v)` of a number is itself, of a boolean 1 or 0, of undefined or an object NaN; a string is read by `StringToNumber` |
| JsValues.NumberOfString | packages/nodes/src/examples/switchNode.tsx:179-212 | `Number(String(n)) == n` |
| JsValues.StringToNumber | packages/nodes/src/examples/switchNode.tsx:180 | `Number(s)` ignores surrounding whitespace, and a blank string is 0 |
| JsValues.NumericLiteralValue | packages/nodes/src/examples/switchNode.tsx:180 | the `StringToNumber` grammar: "" is 0; a value is only read from a string that starts with a sign, a digit or "."; a "-" literal is never positive |
| JsValues.ExponentNotation | packages/nodes/src/examples/switchNode.tsx:180 | digits followed by "e" and an exponent read as `digits × 10^exponent` |
| JsValues.ZeroFraction | packages/nodes/src/examples/switchNode.tsx:180 | a fraction of zeros after the digits, or a bare ".", leaves the integer unchanged |
| JsValues.RadixLiteral | packages/nodes/src/examples/switchNode.tsx:180 | "0x", "0o" and "0b" literals (either case) read in base 16, 8 and 2 |
| JsValues.SignedRadixRejected | packages/nodes/src/examples/switchNode.tsx:180 | a sign before a radix prefix makes the string NaN |
| JsValues.ExponentExample | packages/nodes/src/examples/switchNode.tsx:180 | "1e3" reads as 1000 |
| JsValues.ThousandExample | packages/nodes/src/examples/switchNode.tsx:180 | "1000" reads as 1000 |
| JsValues.ZeroFractionExample | packages/nodes/src/examples/switchNode.tsx:180 | " 12.00 " reads as 12 |
| JsValues.RadixExamples | packages/nodes/src/examples/switchNode.tsx:180 | "0x10" reads as 16 and "0b11" as 3 |
| JsValues.SignedRadixExample | packages/nodes/src/examples/switchNode.tsx:180 | "-0x10" is NaN |

## Left out

- Description and display texts of parameters, ports and manifests are not modelled. Diagnostic messages are kept as strings; error messages become datatype constructors.
- Numbers are integers throughout. `NaN` and the infinities appear only where the source tests for them: positions, and `Number()` as `None`. Fractional positions and fractional parameter values are not modelled.
- `toLowerCase` in the boolean coercion is modelled on ASCII letters only.
- `localeCompare` in `byCanvas` is modelled as lexicographic order on Unicode code points (Dafny characters are scalar values, not UTF-16 code units). Locale collation is not modelled; the tested ids compare the same way under both.
- Strict equality `===` of two coerced values is equality of values. Coerced values are never objects, so identity never matters.
- The executor's promises and `await` are left out. A handler is a function from its context to the emissions it makes and the error it may throw. A handler that catches an `emit` error and carries on is not modelled.
- The `TypeError` thrown when the switch handler's `ctx` is null or undefined is modelled as the handler's failure. Its message is not modelled.
- The HTTP GET handler's code after its first statement is not modelled: the `fetch` call and `toHeaderRecord`. That statement always throws, so the code after it never runs.
- The React components are not modelled: the editor's `SwitchNode` component, the canvases, the configuration panels and forms. Neither is the Convex persistence (`workflows.ts`, `schema.ts`).
- GraphTraversal: the concrete orders asserted by the traversal's tests are not proved as lemmas. Evaluating the walk on concrete graphs is beyond what the solver does cheaply. The general properties they illustrate are proved: topological order, tip first, most recent fork next, and jumps only when stuck.
- Zod is modelled for the schema kinds the nodes use: string with minimum length, integer with bounds, enum, boolean, unknown, URL, JSON, record, object, array, default and optional. Only the first issue of a failed parse is kept. A minimum length `.min(n)` counts Unicode scalar values here, where Zod counts UTF-16 code units; the two agree for `.min(1)`, the only bound the core uses.
  - `z.url` is modelled as "starts with a scheme and a colon". This is the part of WHATWG URL parsing that decides whether a string is absolute.
- Schemas.ParseUrl: does not model the full WHATWG URL parser, only the absolute-URL test above.
- WebDefinitions.GetNodeDefinition: the inherited property read is modelled for the twelve names `Object.prototype` provides and returns the name, not the function found there.
- JsValues.ToNumber: numbers are exact integers. A string whose value is not an integer ("1.5", "15e-1", ".5") and the strings "Infinity", "+Infinity" and "-Infinity" read as NaN here, though JavaScript gives a number. Double rounding above 2^53 is not modelled. Neither is overflow to Infinity beyond about 1.8e308: "1e400" reads as 10^400.
- Executor.EmitStepSpec: a port id is looked up among the declared output ports only. In the source (packages/nodes/src/server/executor.ts:90-100) a port id naming an inherited `Object.prototype` member ("toString", "constructor", "__proto__") is found by the property read, passes the unknown-port guard, and then throws a TypeError when its `schema` is used; the model rejects it with `UnknownOutputPort`. Handler port ids are typed as the declared output keys, so a well-typed handler never emits on such a port.
- SwitchNode.CoerceValueSpec: under "number", the strings JsValues.ToNumber reads as NaN but JavaScript does not (fractions, "Infinity") coerce to `undefined` here, not to a number. Values beyond 2^53 compare exactly, so two long digit strings that round to the same double are unequal here. `String(n)` for |n| ≥ 1e21 is plain digits here, not exponent notation.
- Integer-like object keys, which JavaScript lists first in ascending order, are not modelled in `Entries`; no port or parameter id of the core is integer-like.
- The traversal takes a graph satisfying graphology's invariants (distinct nodes, each with a position; distinct edges), as `buildGraph` produces.

## Findings

| source | as written | input that shows it | evidently intended | confidence | as-written member | corrected member |
|---|---|---|---|---|---|---|
| packages/backend/convex/graph.utils.ts:169-209 | `if (active)` and `if (!next)` test the chosen node key for truthiness, so the empty string counts as "no node" | a graph with one node whose `_id` is "" and no edges: the first pick is "", `!next` holds, and the traversal throws "graph contains a cycle or unreachable node" on an acyclic graph | test for a missing node (`next === undefined`), so that every key, "" included, is ordered like any other | low (ids are normally non-empty); not executed | GraphTraversal.EmptyKeyRejectedAsWritten | GraphTraversal.TopoPathCorrect |
| packages/backend/convex/graph.utils.ts:186-198 | `if (next) break` inside the fork loop also tests the shifted child for truthiness | nodes F (y=0), A (y=1) and "" (y=2), edges F→A and F→"": after F and A the fork {F, [""]} is refreshed to [""], `shift()` gives "", the test fails, and every later pass refreshes the same list, so the loop never ends | stop on any shifted child (`next !== undefined`) | low (ids are normally non-empty); not executed | GraphTraversal.EmptyKeyForkLoopsAsWritten | GraphTraversal.TopoPathCorrect |
