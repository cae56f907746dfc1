# workflow-demo graph editor, modelled in Dafny

workflow-demo is a React page for drawing workflows on an x6 canvas and
saving them as Conductor-style workflow definitions. This project models the
logic at the centre of that page:

- **the compiler** `convertWorkflow`. It walks the drawn graph from its entry node and emits a task list. A program node becomes one task. A fork node becomes a FORK task holding one task list per outgoing edge, followed by a JOIN task naming each branch's last reference. The walk resumes after the join node, which is found as a common child of the branch ends. An older copy of the compiler omits `nodeData`.
- **the two validators** `validateWorkflow`, the current one and the older toolbar's. Each checks wired ports, then an end node, then a program node, and the current one also checks saved node details.
- **the "+" and "−" port buttons** of fork and join nodes, with the nodes' initial port items.
- **the canvas hook `validateConnection`**, which only joins an `output` port to a free `input` port.
- **the Delete / Backspace binding**, which never removes the start node and does nothing once the workflow is saved.
- **the history-task picker.** It has a case-insensitive search over the table, and it copies a past workflow below the current canvas under new ids.

Modules follow the source: `Graph` (the document), `Compiler`,
`CompilerProps` and `CompilerRuns` (`convertWorkflow`), `Validator`, `PortTools`, `Connection`,
`Keyboard` and `History`. `Wrappers`, `Text`, `Seqs` and `Sorting` hold the
JavaScript idioms they share: truthiness, `toLowerCase`, `includes`, `trim`,
`filter`, `find`, `match(/\d+/)` and the stable `Array.prototype.sort`.

Source paths below are relative to the repository root.

## Model

| member | source | states |
|---|---|---|
| Graph.NodesOfSpec | src/pages/ConductorWorkflowGraph/components/HandlerArea.tsx:42 | the nodes are exactly the rect cells with a non-empty `nodeType` |
| Graph.EdgesOfSpec | src/pages/ConductorWorkflowGraph/components/HandlerArea.tsx:43 | the edges are exactly the edge cells |
| Graph.ChildrenSpec | src/pages/ConductorWorkflowGraph/components/HandlerArea.tsx:48-55 | `x` is a child of `id` exactly when some edge runs from `id` to `x` |
| Graph.ChildMapSpec | src/pages/ConductorWorkflowGraph/components/HandlerArea.tsx:46-55 | `childrenMap[id]` is present exactly when `id` has children, and lists the targets of its outgoing edges in edge order |
| Graph.ChildrenSnoc | src/pages/ConductorWorkflowGraph/components/HandlerArea.tsx:51-52 | each edge appends its target to its source's child list |
| Graph.LookupSpec | src/pages/ConductorWorkflowGraph/components/HandlerArea.tsx:58-61 | `nodeMap[id]` is missing exactly when no node has the id, and is otherwise the last node with it |
| Graph.NodeMapSpec | src/pages/ConductorWorkflowGraph/components/HandlerArea.tsx:58-61 | the map built by the assignments agrees with the last-wins reading |
| CompilerProps.ContextSpec | src/pages/ConductorWorkflowGraph/components/HandlerArea.tsx:41-61 | the walk's lookups read the document: last node wins, children in edge order |
| CompilerProps.KeysSpec | src/pages/ConductorWorkflowGraph/components/HandlerArea.tsx:68 | `Object.keys(nodeMap)` lists every node id exactly once |
| CompilerProps.EntryFromStart | src/pages/ConductorWorkflowGraph/components/HandlerArea.tsx:64-66 | with an edge leaving `start`, the walk begins at the target of the first such edge |
| CompilerProps.EntryWithoutStart | src/pages/ConductorWorkflowGraph/components/HandlerArea.tsx:67-69 | otherwise it begins at the first node id that no edge enters, and there is no entry when every node has a parent |
| CompilerProps.GatherEndRef | src/pages/ConductorWorkflowGraph/components/HandlerArea.tsx:74-116 | `branchEndRef` is the reference of the last program task or nested JOIN the branch emitted, or its starting value when there is none |
| CompilerProps.EndRefIsLast | src/pages/ConductorWorkflowGraph/components/HandlerArea.tsx:93 | that reference is the one of the last task that is not a FORK |
| CompilerProps.ArmEnd | src/pages/ConductorWorkflowGraph/components/HandlerArea.tsx:137 | a branch's join reference is its end reference when non-empty, else the id of its first node |
| CompilerProps.ArmsSpec | src/pages/ConductorWorkflowGraph/components/HandlerArea.tsx:132-138 | the fork gathers one branch per edge, in edge order |
| CompilerProps.ForkShape | src/pages/ConductorWorkflowGraph/components/HandlerArea.tsx:119-162 | the fork's edges are a permutation of its outgoing edges, ordered by port number; FORK has one branch and JOIN one reference per edge |
| CompilerProps.ForkOrderStable | src/pages/ConductorWorkflowGraph/components/HandlerArea.tsx:122-128 | edges whose ports carry the same number keep their document order |
| CompilerProps.NumericPortOrder | src/pages/ConductorWorkflowGraph/components/HandlerArea.tsx:125-127 | port numbers compare as numbers (`output10` after `output2`), and a port without digits ranks lowest |
| CompilerProps.IntersectIsFilter | src/pages/ConductorWorkflowGraph/components/HandlerArea.tsx:142-144 | the `reduce` keeps exactly the elements that are children of every branch end |
| CompilerProps.ResolveJoinIsFirstCommon | src/pages/ConductorWorkflowGraph/components/HandlerArea.tsx:140-148 | the join is the first child of the first branch end that is a child of every branch end |
| CompilerProps.JoinIsCommonChild | src/pages/ConductorWorkflowGraph/components/HandlerArea.tsx:140-148 | the join found is a common child and no earlier candidate is; there is none exactly when no child of the first end is common to all ends |
| CompilerProps.ResolveJoinSameChildren | src/pages/ConductorWorkflowGraph/components/HandlerArea.tsx:143 | the join depends only on `childrenMap` |
| CompilerProps.WalkStopsWithoutJoin | src/pages/ConductorWorkflowGraph/components/HandlerArea.tsx:171-177 | a fork with no common child emits FORK, then a JOIN without reference, and the walk ends there |
| CompilerProps.WalkNested | src/pages/ConductorWorkflowGraph/components/HandlerArea.tsx:165-204 | the emitted list is well nested: each FORK is followed by a JOIN of the same width, and every branch is well nested too |
| CompilerProps.GatherNested | src/pages/ConductorWorkflowGraph/components/HandlerArea.tsx:74-116 | every branch's task list is well nested |
| CompilerProps.WalkFuel | src/pages/ConductorWorkflowGraph/components/HandlerArea.tsx:165-204 | a walk that finishes within some bound gives the same result under every larger bound |
| CompilerProps.GatherFuel | src/pages/ConductorWorkflowGraph/components/HandlerArea.tsx:74-116 | the same for branch walks |
| CompilerProps.SelfLoopDiverges | src/pages/ConductorWorkflowGraph/components/HandlerArea.tsx:198-201 | a program node whose only child is itself never finishes, whatever the bound |
| Compiler.Compile | src/pages/ConductorWorkflowGraph/components/HandlerArea.tsx:36-213 | `convertWorkflow`: the walk from the entry node, wrapped with the workflow and system names and the raw document; when it finishes is stated by `CompilerRuns.CompileTerminates`, what it emits by `CompilerRuns.CompileForkDoc` and the lemmas below |
| Compiler.Walk | src/pages/ConductorWorkflowGraph/components/HandlerArea.tsx:164-204 | the top-level `while` loop; its results are characterised by `CompilerRuns.WalkChain`, `CompilerProps.WalkNested`, `CompilerProps.WalkFuel` and `CompilerProps.WalkStopsWithoutJoin` |
| Compiler.Gather | src/pages/ConductorWorkflowGraph/components/HandlerArea.tsx:74-116 | `gatherBranch`; its results are characterised by `CompilerRuns.GatherChain`, `CompilerProps.GatherEndRef` and `CompilerProps.GatherNested` |
| Compiler.ProcessFork | src/pages/ConductorWorkflowGraph/components/HandlerArea.tsx:119-162 | `processFork`; its branches and join are characterised by `CompilerProps.ForkShape`, `CompilerProps.ArmsSpec` and `CompilerRuns.ForkStepFound` |
| Compiler.ResolveJoin | src/pages/ConductorWorkflowGraph/components/HandlerArea.tsx:139-148 | the common-child search; characterised by `CompilerProps.JoinIsCommonChild` and `CompilerProps.ResolveJoinIsFirstCommon` |
| CompilerRuns.WalkChain | src/pages/ConductorWorkflowGraph/components/HandlerArea.tsx:191-203 | a run of program nodes, each with exactly one child, ending at an end node compiles to exactly one task per node in path order (name and reference from the node, data attached), once the bound exceeds the run's length |
| CompilerRuns.GatherChain | src/pages/ConductorWorkflowGraph/components/HandlerArea.tsx:80-112 | the same run inside a branch, stopping at a join or end node, is one task per node, and the branch's end reference is the last node's id, or its starting value for an empty run |
| CompilerRuns.CompileTerminates | src/pages/ConductorWorkflowGraph/components/HandlerArea.tsx:36-213 | a document whose every edge descends a rank on node ids (an acyclic document) always compiles once the bound exceeds every rank |
| CompilerRuns.ForkBranchOrder | src/pages/ConductorWorkflowGraph/components/HandlerArea.tsx:121-128 | in the fork document, the edge from `output1` is ordered before the one from `output2`, although the document lists `output2` first |
| CompilerRuns.ForkJoinFound | src/pages/ConductorWorkflowGraph/components/HandlerArea.tsx:139-148 | both branch ends of the fork document have `j` as their child, and `j` is the join found |
| CompilerRuns.ForkStepFound | src/pages/ConductorWorkflowGraph/components/HandlerArea.tsx:119-162 | the fork resolves to branch `a` then branch `b`, each one Shell task, the join `j`, and resumes at the end node |
| CompilerRuns.ForkWalk | src/pages/ConductorWorkflowGraph/components/HandlerArea.tsx:170-176 | in any document where the fork resolves to those arms and that join and the end node follows, the walk from the fork emits the FORK and its JOIN and stops |
| CompilerRuns.CompileForkDoc | src/pages/ConductorWorkflowGraph/components/HandlerArea.tsx:36-213 | a 12-cell document start → fork → (Shell `a` ∥ Shell `b`) → join → end compiles, under every bound of at least three, to one FORK with `a`'s branch before `b`'s and one JOIN on `j` naming `a` and `b` |
| CompilerProps.CompileLegacy | src/pages/ConductorWorkflowGraph/components/header.tsx:24-198 | the older compiler succeeds on the same documents and emits the same workflow, minus `nodeData` at every depth |
| CompilerProps.WalkLegacy | src/pages/ConductorWorkflowGraph/components/header.tsx:153-190 | the same, step for step, for the top-level walk |
| CompilerProps.GatherLegacy | src/pages/ConductorWorkflowGraph/components/header.tsx:62-103 | the same for branch walks, with equal end references |
| Validator.Validate | src/pages/ConductorWorkflowGraph/components/HandlerArea.tsx:374-381 | an unsaved-detail failure always names at least one node |
| Validator.ConnectedSpec | src/pages/ConductorWorkflowGraph/components/HandlerArea.tsx:313-318 | the edge scan finds an attached edge exactly when the document has an edge at that node and port |
| Validator.OpenPortSpec | src/pages/ConductorWorkflowGraph/components/HandlerArea.tsx:308-328 | a node fails the port scan exactly when it has an unwired port of the input or output group |
| Validator.ValidateOrder | src/pages/ConductorWorkflowGraph/components/HandlerArea.tsx:294-384 | each verdict is given exactly when all earlier checks pass and its own fails; valid exactly when all four pass |
| Validator.ReportsFirstOpenNode | src/pages/ConductorWorkflowGraph/components/HandlerArea.tsx:306-335 | the port failure names the first node with an unwired port, by display name or else id |
| Validator.UnsavedAreHighlighted | src/pages/ConductorWorkflowGraph/components/HandlerArea.tsx:346-381 | the highlighted nodes are exactly the program nodes whose details are not saved |
| Validator.ValidateLegacy | src/pages/ConductorWorkflowGraph/components/header.tsx:263-303 | the older validator never reports unsaved details |
| Validator.OpenPortLegacySpec | src/pages/ConductorWorkflowGraph/components/header.tsx:272-281 | the older port scan fails a node exactly when its edge query finds one of its ports unwired; read as written (edges of the whole node), exactly when the node has a port and no edge at all |
| Validator.ValidateLegacyOrder | src/pages/ConductorWorkflowGraph/components/header.tsx:263-303 | the older checks run in order, under either reading of the edge query; valid exactly when ports, end node and a shell, python or promql node pass |
| Validator.LegacyReportsLastOpenNode | src/pages/ConductorWorkflowGraph/components/header.tsx:270-283 | the older port failure names the id of the last node with a port the query finds unwired |
| Validator.PortWiringSuffices | src/pages/ConductorWorkflowGraph/components/header.tsx:272-277 | a document wired port by port is wired node by node |
| Validator.LegacyPortCheckStricter | src/pages/ConductorWorkflowGraph/components/header.tsx:272-281 | read port by port, the older port check rejects every document the current port check rejects, and every document the node-wide reading rejects |
| Validator.OpenBranchFailsCurrent | src/pages/ConductorWorkflowGraph/components/HandlerArea.tsx:306-335 | a fork whose `output2` is unwired fails the current validator, which names the fork |
| Validator.OpenBranchFailsByPort | src/pages/ConductorWorkflowGraph/components/header.tsx:270-283 | read port by port, the older validator rejects the same document, naming the fork |
| Validator.OpenBranchPassesLegacy | src/pages/ConductorWorkflowGraph/components/header.tsx:272-281 | as written, the older validator accepts that document: every node has some edge |
| Validator.UnsavedStopsCurrent | src/pages/ConductorWorkflowGraph/components/HandlerArea.tsx:356-381 | a wired start → Shell → end graph with unsaved details fails, highlighting the Shell node |
| Validator.UnsavedPassesLegacy | src/pages/ConductorWorkflowGraph/components/header.tsx:292-302 | the older validator, under either reading of its edge query, accepts that same graph |
| Validator.FileNodePassesCurrent | src/pages/ConductorWorkflowGraph/components/HandlerArea.tsx:346-354 | a LocalFile node counts as a program node for the current validator |
| Validator.FileNodeFailsLegacy | src/pages/ConductorWorkflowGraph/components/header.tsx:293-300 | the older validator, under either reading, rejects the same graph for lack of a program node |
| PortTools.PlusSpec | src/pages/ConductorWorkflowGraph/components/nodes.tsx:136-148 | "+" below ten ports appends `output(k+1)`, resizes to 120 × (120 + 20(k+1)) and leaves other groups alone; at ten it does nothing |
| PortTools.MinusSpec | src/pages/ConductorWorkflowGraph/components/nodes.tsx:182-192 | "−" above two ports removes the group's last port, resizes to 120 × (120 + 20(k−1)) and leaves other groups alone; at two it does nothing |
| PortTools.Plus | src/pages/ConductorWorkflowGraph/components/nodes.tsx:136-148 | the fork's (and, at 226-238, the join's) "+" button; its effect is stated by `PlusSpec` and `PlusKeepsInv` |
| PortTools.Minus | src/pages/ConductorWorkflowGraph/components/nodes.tsx:182-192 | the fork's (and, at 272-282, the join's) "−" button; its effect is stated by `MinusSpec` and `MinusKeepsInv` |
| PortTools.PlusKeepsInv | src/pages/ConductorWorkflowGraph/components/nodes.tsx:226-238 | "+" keeps a group numbered `<group>1..k` with 2 ≤ k ≤ 10; a click that changes the node leaves it sized 120 × max(120, 120 + 20k), and a sized node stays sized |
| PortTools.MinusKeepsInv | src/pages/ConductorWorkflowGraph/components/nodes.tsx:272-282 | "−" keeps the same invariant and the same sizing |
| PortTools.ClicksSized | src/pages/ConductorWorkflowGraph/components/nodes.tsx:136-282 | after any clicks a node is either untouched or sized for its port count |
| PortTools.FreshForkSize | src/pages/ConductorWorkflowGraph/components/nodes.tsx:284-287 | a fresh fork is 120 high, not sized for its two outputs; "−" leaves it unchanged and "+" makes it 180 high, sized for three |
| PortTools.ForkPortsValid | src/pages/ConductorWorkflowGraph/components/ports.tsx:95-99 | a new fork's outputs satisfy the invariant |
| PortTools.JoinPortsValid | src/pages/ConductorWorkflowGraph/components/ports.tsx:127-131 | a new join's inputs satisfy the invariant |
| PortTools.ClicksKeepInv | src/pages/ConductorWorkflowGraph/components/nodes.tsx:136-282 | any sequence of clicks keeps the invariant |
| PortTools.ForkClicks | src/pages/ConductorWorkflowGraph/components/nodes.tsx:136-192 | after any clicks a fork has 2 to 10 outputs named `output1` … `outputk` |
| PortTools.JoinClicks | src/pages/ConductorWorkflowGraph/components/nodes.tsx:226-282 | after any clicks a join has 2 to 10 inputs named `input1` … `inputk` |
| PortTools.MinusUndoesPlus | src/pages/ConductorWorkflowGraph/components/nodes.tsx:136-192 | "−" after "+" restores the port items exactly |
| PortTools.PlusUndoesMinus | src/pages/ConductorWorkflowGraph/components/nodes.tsx:136-192 | "+" after "−" restores the group's ports in order |
| PortTools.LastIdUnique | src/pages/ConductorWorkflowGraph/components/nodes.tsx:186-187 | under the invariant, `removePort(lastPort.id)` can only hit the last port |
| Connection.ValidateConnection | src/pages/ConductorWorkflowGraph/index.tsx:41-67 | an accepted drag has a port at both ends |
| Connection.ValidateConnectionSpec | src/pages/ConductorWorkflowGraph/index.tsx:41-67 | a drag is accepted exactly when it runs from an `output` port to an `input` port that no edge already enters |
| Connection.Connect | src/pages/ConductorWorkflowGraph/index.tsx:41-67 | a drag adds at most one edge; which drags add one is stated by `ValidateConnectionSpec`, and what repeated drags keep by `ConnectAllKeepsInvariants` |
| Connection.ConnectAllKeepsInvariants | src/pages/ConductorWorkflowGraph/index.tsx:41-67 | edges drawn through the hook never give an input port two incoming edges, and always run output → input |
| Connection.OccupiedPortRejected | src/pages/ConductorWorkflowGraph/index.tsx:53-64 | a drag into an occupied input port is refused |
| Keyboard.OnDelete | src/pages/ConductorWorkflowGraph/components/KeyboardBehavior.tsx:22-36 | the handler always returns false and removes at most the selection |
| Keyboard.AfterDelete | src/pages/ConductorWorkflowGraph/components/KeyboardBehavior.tsx:22-36 | the canvas after the key press never grows; `DeleteKeepsStart` states which cells survive |
| Keyboard.OnDeleteSpec | src/pages/ConductorWorkflowGraph/components/KeyboardBehavior.tsx:22-36 | once saved nothing is removed; before saving exactly the selected cells other than the start rect are removed, in selection order |
| Keyboard.DeleteKeepsStart | src/pages/ConductorWorkflowGraph/components/KeyboardBehavior.tsx:28-33 | the start node and every unselected cell survive, and no cell is added |
| Keyboard.StartOnlyRemovesNothing | src/pages/ConductorWorkflowGraph/components/KeyboardBehavior.tsx:26-33 | selecting only the start node removes nothing |
| History.Search | src/pages/ConductorWorkflowGraph/components/SelectHistoryTask.tsx:70-86 | `handleSearch` never adds rows; which rows it keeps is stated by `SearchSpec` |
| History.SearchSpec | src/pages/ConductorWorkflowGraph/components/SelectHistoryTask.tsx:70-86 | a blank query shows every row; any other shows exactly the rows containing it in some column, ignoring case, in table order |
| History.SearchIgnoresCase | src/pages/ConductorWorkflowGraph/components/SelectHistoryTask.tsx:73-82 | the query's case does not change the result |
| History.MaxBottomFromSpec | src/pages/ConductorWorkflowGraph/components/SelectHistoryTask.tsx:104-115 | `maxY` is at least every counted node's bottom, and is 0 or one of them |
| History.MinYSpec | src/pages/ConductorWorkflowGraph/components/SelectHistoryTask.tsx:120-133 | the corrected anchor is the y of the topmost positioned copied node |
| History.CopyTaskSpec | src/pages/ConductorWorkflowGraph/components/SelectHistoryTask.tsx:89-173 | the result has one copy per past rect other than start and end, one per past edge avoiding them, after the current cells of each shape, with every rect before every edge |
| History.CopiedNodesAsWritten | src/pages/ConductorWorkflowGraph/components/SelectHistoryTask.tsx:104-143 | the copies placed as the code places them: relative to the first copied node, below the lowest node not at y = 0; one copy per past rect other than start and end |
| History.CopyTask | src/pages/ConductorWorkflowGraph/components/SelectHistoryTask.tsx:89-173 | `copySelectTask` with the corrected placement (relative to the topmost copy, below every positioned node); its contents are stated by `CopyTaskSpec` and its placement by `CopiesBelowCanvas` |
| History.PlacementsDifferByShift | src/pages/ConductorWorkflowGraph/components/SelectHistoryTask.tsx:127-143 | the placement as written and the corrected one give each copy the same id, type, data, ports and height, and differ in y by one shift common to all copies |
| History.CopyTaskAsWrittenSpec | src/pages/ConductorWorkflowGraph/components/SelectHistoryTask.tsx:89-173 | `copySelectTask` as written yields the same number of cells in the same order as the corrected one, with the same edges, the rects differing only by the as-written placement |
| History.MergeSorted | src/pages/ConductorWorkflowGraph/components/SelectHistoryTask.tsx:160-169 | the merge is a permutation of the concatenation with rects before edges |
| History.MergeWithKey | src/pages/ConductorWorkflowGraph/components/SelectHistoryTask.tsx:163-169 | the stable sort keeps each shape's cells in concatenation order |
| History.IdMapSpec | src/pages/ConductorWorkflowGraph/components/SelectHistoryTask.tsx:123-126 | the id map sends an old id to the uuid of the last copied node with it, and holds no other ids |
| History.CopiedEdgesFollowNodes | src/pages/ConductorWorkflowGraph/components/SelectHistoryTask.tsx:145-154 | with distinct ids, a copied edge's ends follow the copies of the nodes they touched, and other ends keep their ids |
| History.PlacementKeepsLayout | src/pages/ConductorWorkflowGraph/components/SelectHistoryTask.tsx:127-143 | the copies keep their vertical distances, and a node at the anchor lands on the new top |
| History.CopiesBelowCanvas | src/pages/ConductorWorkflowGraph/components/SelectHistoryTask.tsx:117-133 | with the corrected placement every copy lies at least 100 below every positioned node already drawn |
| History.TopmostCopyAtGap | src/pages/ConductorWorkflowGraph/components/SelectHistoryTask.tsx:117-120 | the topmost copy lands exactly 100 below the canvas |
| History.AnchorLetsCopyRiseAbove | src/pages/ConductorWorkflowGraph/components/SelectHistoryTask.tsx:133 | as written, a copy can land above the existing canvas |
| History.AnchorCorrected | src/pages/ConductorWorkflowGraph/components/SelectHistoryTask.tsx:117-133 | the corrected placement puts that copy below it |
| History.ZeroTopIgnored | src/pages/ConductorWorkflowGraph/components/SelectHistoryTask.tsx:109 | as written, a node at y = 0 is ignored and a copy lands inside it |
| History.ZeroTopCorrected | src/pages/ConductorWorkflowGraph/components/SelectHistoryTask.tsx:104-120 | the corrected placement clears that node |

## Left out

- Rendering, styling, drawers, forms, routing, the x6 canvas itself and all React state are not modelled. The red border of unsaved nodes is modelled as the list of their ids.
- The missing-graph failure of both validators (`graph` not yet created) is not modelled: the model always has a document.
- `JSON.stringify` of `nodeData` and `rawData` is not modelled. Tasks carry the node's data and the workflow carries the cells themselves.
- The `ids` of `Compile`'s `Object.keys` omit JavaScript's rule that integer-like keys come first, in numeric order. Node ids are non-numeric in practice.
- Compiler.Walk, Compiler.Gather: the source loops have no cycle guard. A `fuel` bound makes them total, and None means the bound ran out. `WalkFuel` and `GatherFuel` show the bound only truncates. `SelfLoopDiverges` shows some graphs never finish.
- Compiler.SourceRank: port numbers are compared by value. `localeCompare` with `numeric: true` also breaks ties between equal values written with different leading zeros, which the `output<n>` ids never produce.
- Text.Lower, Text.Upper: ASCII letters only. JavaScript maps every Unicode letter.
- Cells are rects and edges only. Other shapes would make the copy's sort comparator inconsistent.
- Keyboard.AfterDelete: x6 also removes the edges of a removed node. The model removes only the selected cells.
- Connection.ValidateConnection: x6's `getConnectedEdges` and `getTargetPortId` are read as the document's edge list and each edge's target port.
- Validator.ValidateLegacy: takes the reading of `getConnectedEdges(node, { portId })` as a parameter. x6 has no `portId` option, so as written the query returns every edge of the node (`NodeEdges`); the port-by-port reading (`PortEdges`) is the evidently intended one (see Findings).
- History: `uuidv4` is a parameter `uuid: nat -> string`, giving the i-th fresh id. Positions are integers, not floating point. Only `position.y` and `size.height` are kept.
- History.CopyTask uses the corrected placement; `CopiedNodesAsWritten` and `CopyTaskAsWritten` keep the code's placement (see Findings).
- CompilerRuns.CompileTerminates: acyclicity is given as a rank on node ids that falls along every edge; that every acyclic document has such a rank is not proved.
- `graph.fromJSON` and `graph.toJSON` are the identity on the modelled cells.

## Findings

| source | as written | input that shows it | evidently intended | confidence | as-written member | corrected member |
|---|---|---|---|---|---|---|
| src/pages/ConductorWorkflowGraph/components/SelectHistoryTask.tsx:133 | copies are placed relative to the y of the first copied node | canvas node at y = 50 with height 40; past nodes at y = 300 then y = 100; the second copy lands at y = −10 | the whole copied block sits below `newStartY` (comments at lines 117-120 and 129-130), i.e. relative to the topmost copied node | not executed | History.AnchorLetsCopyRiseAbove | History.CopiesBelowCanvas |
| src/pages/ConductorWorkflowGraph/components/SelectHistoryTask.tsx:109 | `cell.position.y` is tested for truthiness, so a node at y = 0 does not count towards `maxY` | canvas node at y = 0 with height 120; one past node; its copy lands at y = 100, inside the existing node | every positioned node counts (comment at line 108) | not executed | History.ZeroTopIgnored | History.CopiesBelowCanvas |
| src/pages/ConductorWorkflowGraph/components/header.tsx:275 | `getConnectedEdges(node, { portId: port.id })` passes an option x6 does not have, so the query returns every edge of the node, and a port counts as wired when any port of its node is | start → fork `f` → Shell `a` → end with the fork's `output2` unwired; the older validator accepts it | each port is checked on its own, as the loop over `ports` and the comment at line 268 say | medium: rests on x6's option list (`incoming`, `outgoing`, `deep`, `enclosed`, `indirect`); not executed | Validator.OpenBranchPassesLegacy | Validator.LegacyPortCheckStricter |
