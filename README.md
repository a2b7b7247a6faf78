# saturation-visualization, modelled in Dafny

The repository is a visualiser for the saturation proof search of the Vampire theorem prover.
Vampire's output is read line by line into clauses ("units") and the inferences that made
them. These form a dag of derivations, each node carrying the history times at which its clause
became new, passive, active or deleted. The dag is then transformed and shown, with a slider
that moves through the history. The repository holds several generations of this pipeline:
Python back ends (`proof_visualization`, `visualization_backend`, `visualization-backend`,
`presenter`, the root `vampire_parser.py`), a JavaScript/TypeScript front end
(`visualization-frontend/src`) and a newer TypeScript model (`src/model`). This project models
the data and algorithms at their core, generation by generation. Code that updates objects in
place is modelled by classes and methods with loop invariants. Expression code is modelled by
datatypes, functions and lemmas.

Modules, grouped by the part of the system they model:

- `Wrappers`, `Text`: Option/Result and the string helpers shared by the parsers, including
  Python's `int()` on a numeral.
- `ClauseSyntax`, `LineParser`: reading Vampire's output lines and statistics
  (`visualization_backend/model/parsing.py`).
- `Lifecycle`, `BackendNode`, `TimedNode`, `ProofNode`: the node records of each generation
  and the guarded setters of their history times.
- `Dags`: the dag as a table from node numbers to nodes, with its leaves, children and
  history length (`dag.py`, `dag.js`, `dag.ts`).
- `Traversal`: the stack-based post-order and reverse traversals (`traversal.py`, `traversal.ts`).
- `Transformations`, `Merge`, `Search`: filtering the dag to the nodes relevant for a
  selection, merging preprocessing nodes, and finding common consequences
  (`transformations.py`/`.ts`, `search.py`, `find-node.ts`).
- `NodeAssembly`, `ActiveLines`, `ActiveParsing`, `UnfilteredParsing`, `PresenterParsing`,
  `TreeBuilding`: the older parsers that build the node table from lines.
- `PresenterTree`, `ReprUtil`, `PresenterUtil`: the presenter's tree walk and text helpers.
- `Terms`, `TermParsing`, `UnitParsing`, `Units`, `Orientation`: literals and units, how they
  are printed and how `unit-parser.ts` reads them back.
- `Substitutions`, `SatModel`, `ParentLiterals`, `ClauseRepresentation`: matching literals,
  linking each literal to the literal of its parent, and orienting clauses for display
  (`src/model/substitution.ts`, `src/model/clause-orientation.ts`). The linking code takes
  the literal comparison as a parameter. The program's `literalsMatch` is
  `ParentLiterals.AsWrittenMatcher`, and the intended one is `ParentLiterals.CorrectedMatcher`
  (see Findings).
- `Serialization`: the index-based encoding and decoding of a dag (`src/model/serialization.ts`).
- `AppHelpers`, `Representation`, `Controller`: the Flask helpers, node colouring, and the
  selection and reset of the controller.
- `Readable`, `Network`: the front end's readable rendering of expressions and the
  proof-obligation network layout.

Each operation is paired with what it must mean: a reference definition, an inverse, or an
invariant it keeps. The lemmas in the table below connect the two.

## Model

| member | source | states |
|---|---|---|
| `ClauseSyntax.MatchTailSound` | visualization_backend/model/parsing.py:10 | the rule, parents and statistics groups of a bracket tail put back together give the tail |
| `ClauseSyntax.MatchTailComplete` | visualization_backend/model/parsing.py:10 | every decomposition of a tail that the regular expression admits is found |
| `ClauseSyntax.LaterOpeningMatches` | visualization_backend/model/parsing.py:10 | a later opening bracket inside a matching tail also starts a matching tail, since `\D*` holds every later bracket |
| `ClauseSyntax.GreedyIsLastOpening` | visualization_backend/model/parsing.py:10 | the greedy `(.*)` picks the last opening bracket: when any bracket position matches, the last one does |
| `ClauseSyntax.MatchUnitSound` | visualization_backend/model/parsing.py:10 | the id, clause, rule, parents and statistics groups of a match put back together give the line |
| `ClauseSyntax.MatchUnitWhenBracket` | proof_visualization/model/parsing.py:12 | a unit matches exactly when some bracket position after `<id>. ` starts a matching tail |
| `ClauseSyntax.MatchUnitComplete` | vampire_parser.py:11 | a line built from a plain rule and a parent list is matched with exactly those parts |
| `LineParser.MatchKindColonOf` | visualization_backend/model/parsing.py:11 | a kind of 3 to 15 kind characters, a colon, a space and a unit is read back with exactly those groups |
| `LineParser.KindSpaceSplit` | visualization_backend/model/parsing.py:12 | in a reduction line the kind group ends at the space before the unit, because the unit starts with a digit |
| `LineParser.ParseLineWellFormed` | visualization_backend/model/parsing.py:72-81 | every kept line has a non-negative id and parents, a clause without quotes, and a right-stripped rule |
| `LineParser.ParseLineDropsExactly` | visualization_backend/model/parsing.py:53-70 | parse_line gives nothing exactly for a passive saturation line and for a line no grammar matches |
| `LineParser.ParseLineOrder` | visualization_backend/model/parsing.py:53-66 | the saturation grammar is tried first and keeps its kind, then the bare unit (kind `preprocessing`), then the reduction form |
| `LineParser.Parse` | visualization_backend/model/parsing.py:35-48 | the loop returns the kept lines in order, stops at the first error, and stops after the refutation marker line |
| `LineParser.CollectAdvance` | visualization_backend/model/parsing.py:37-46 | one step of the loop keeps its invariant: an error ends the result, the marker line completes it, any other line moves on |
| `LineParser.MarkerStopsParsing` | visualization_backend/model/parsing.py:45-46 | whatever follows the refutation marker line, the result is the same |
| `LineParser.ParsedLinesComeFromLines` | visualization_backend/model/parsing.py:37-40 | every parsed line is the parse of some input line with no refutation marker before it |
| `LineParser.ParseStatistics` | visualization_backend/model/parsing.py:83-94 | spaces are removed; an empty string gives no statistics; a string not in braces fails the assertion; each piece is cut at `:` and its value read with `int()`, later keys winning |
| `LineParser.StatsAdvance` | visualization_backend/model/parsing.py:91-93 | a piece without a colon fails with an index error, a non-integer value fails, any other piece adds its pair |
| `LineParser.StatisticsOfBlank` | visualization_backend/model/parsing.py:84-86 | a string of spaces holds no statistics |
| `LineParser.StatisticsOfEmptyBraces` | visualization_backend/model/parsing.py:89-93 | `{}` is rejected: its single empty piece has no value part |
| `LineParser.StatisticsAgree` | visualization_backend/model/parsing.py:74-77 | on every block the line grammar accepts, parseStatistics and the findall of parse_line give the same map or the same failure |
| `LineParser.HeadEntryRead` | visualization_backend/model/parsing.py:90-93 | a `key:value` piece is cut at its colon, its value read by `int()` and stored under the key before the rest is read |
| `LineParser.StatisticsRoundTrip` | visualization_backend/model/parsing.py:83-94 | a written block of at least one counter, with keys free of spaces, commas and colons, reads back as its counters |
| `LineParser.FormattedParents` | visualization_backend/model/parsing.py:79 | a comma-separated list of ids reads back as the ids |
| `LineParser.PreprocessingRoundTrip` | visualization_backend/model/parsing.py:59-61 | a bare unit line with a plain clause and rule reads back as a `preprocessing` line with exactly its parts |
| `LineParser.SaturationRoundTrip` | visualization_backend/model/parsing.py:54-56 | `[SA] <kind>: <unit>` reads back as its kind and parts, and a passive one is dropped |
| `LineParser.ReductionRoundTrip` | visualization_backend/model/parsing.py:65-66 | `     <kind> <unit>` reads back as its kind and parts |
| `Lifecycle.Step` | visualization_backend/model/node.py:24-55 | each setter succeeds only from the readings its assertions allow (new before passive before active, each once; deletion once after new; deletion parents only after deletion) and then records its argument |
| `Lifecycle.RunKeepsOrdered` | visualization_backend/model/node.py:24-55 | every run of setters from a fresh node leaves ordered readings |
| `Lifecycle.RunPrefix` | visualization_backend/model/node.py:24-55 | a run that succeeds succeeded on every prefix |
| `Lifecycle.RunFailureSticks` | visualization_backend/model/node.py:24-55 | once a setter fails, every longer run fails |
| `Lifecycle.SetAtMostOnce` | visualization_backend/model/node.py:24-49 | in a successful run each of the four times is set by exactly one call if it is set, and by none otherwise |
| `Lifecycle.TimesComeFromCalls` | visualization_backend/model/node.py:24-49 | the times a successful run leaves are the arguments of its calls |
| `Lifecycle.DeletionParentsFromCalls` | visualization_backend/model/node.py:45-55 | a deleted node's deletion parents are exactly the ids of the deletion-parent calls, in call order |
| `Lifecycle.RunOrder` | visualization_backend/model/node.py:24-55 | in a successful run the passive call follows the new call, the active call follows the passive call, deletion follows new, and deletion parents follow deletion |
| `BackendNode.Node.constructor` | visualization_backend/model/node.py:6-22 | the clause loses its quotes, children start empty and no time is set |
| `BackendNode.Node.SetNewTime` | visualization_backend/model/node.py:24-29 | sets the new time from a fresh node and changes nothing else |
| `BackendNode.Node.SetPassiveTime` | visualization_backend/model/node.py:31-36 | sets the passive time after the new time and changes nothing else |
| `BackendNode.Node.SetActiveTime` | visualization_backend/model/node.py:38-43 | sets the active time after the passive time and changes nothing else |
| `BackendNode.Node.SetDeletionTime` | visualization_backend/model/node.py:45-50 | sets the deletion time once, after the new time, and starts an empty deletion-parent list |
| `BackendNode.Node.AddDeletionParent` | visualization_backend/model/node.py:52-55 | appends one id to the deletion parents of a deleted node |
| `BackendNode.Node.SetClause` | visualization_backend/model/node.py:57-59 | replaces the clause as given, quotes included |
| `BackendNode.Node.SetStatistics` | visualization_backend/model/node.py:61-66 | replaces the statistics and nothing else |
| `TimedNode.Node.FromPython` | visualization-backend/proof_visualization/model/node.py:7-20 | quotes are removed from the clause and no time is set |
| `TimedNode.Node.FromJs` | visualization-frontend/src/model/node.js:5-17 | the clause is stored as given and no time is set |
| `TimedNode.Node.SetNewTime` | visualization-frontend/src/model/node.js:19-25 | the new-time step of the lifecycle, nothing else changes |
| `TimedNode.Node.SetPassiveTime` | visualization-frontend/src/model/node.js:27-33 | the passive-time step of the lifecycle, nothing else changes |
| `TimedNode.Node.SetActiveTime` | visualization-backend/proof_visualization/model/node.py:36-41 | the active-time step of the lifecycle, nothing else changes |
| `ProofNode.Make` | proof_visualization/model/node.py:9-21 | quotes are removed from the clause (a clause without quotes is kept), children start empty, the other fields are as given |
| `Dags.LeafIds` | proof_visualization/model/dag.py:14-22 | an id is a leaf exactly when it is in the table and no node names it as a parent |
| `Dags.BelowSomeLeaf` | proof_visualization/model/dag.py:14-22 | on a table whose parents are present and acyclic, every node is reachable from some leaf along parent links |
| `Dags.LeavesReachAll` | proof_visualization/model/dag.py:14-22 | on a well-formed table the ancestors of the leaves are all the nodes |
| `Dags.MakeDag` | visualization-frontend/src/model/dag.js:6-26 | the constructor keeps the table and computes as leaves exactly the ids no node names as a parent |
| `Dags.Get` | proof_visualization/model/dag.py:24-26 | the node for an id of the table, nothing for any other id |
| `Dags.GetAsserted` | visualization-frontend/src/model/dag.js:31-34 | fails its assertion exactly for an id outside the table, and otherwise agrees with `get` |
| `Dags.Has` | visualization-frontend/src/model/dag.js:28-30 | true exactly for the ids `get` finds |
| `Dags.FromDto` | visualization-frontend/src/model/dag.ts:30-34 | the loop builds the table that stores each node under its number |
| `Dags.TableOfMeaning` | visualization-frontend/src/model/dag.ts:30-34 | an id is in the table exactly when some node carries that number, and it holds the last such node |
| `Dags.HasNodes` | visualization-frontend/src/model/dag.ts:26-28 | true exactly when the table has some id |
| `Dags.NumberOfHistorySteps` | proof_visualization/model/dag.py:45-46 | the count of nodes with an activation time: at most the table size, and 0 exactly when no node was activated |
| `Dags.LastStep` | proof_visualization/model/dag.py:48-50 | the step count, never negative and at most the table size |
| `Dags.CountHistorySteps` | visualization-frontend/src/model/dag.js:36-44 | the loop counts exactly the nodes whose activation time is defined |
| `Dags.CountTruthyHistorySteps` | visualization-frontend/src/model/dag.ts:15-24 | the truthiness test skips an activation time of 0: the count is at most Python's, and equal exactly when no node was activated at time 0 |
| `Dags.TruthyCount` | visualization-frontend/src/model/dag.ts:19 | counting truthy activation times gives at most the count of defined ones, equal exactly when none is 0 |
| `Dags.LastStepAsWrittenIsNaN` | visualization-frontend/src/model/dag.js:45-48 | `lastStep` passes the method itself to `Math.max`, so for every dag it is NaN and not the step count |
| `Dags.LastStepCorrected` | visualization-frontend/src/model/dag.js:45-48 | with the call added, `lastStep` is the step count, never negative |
| `Dags.ChildrenInMeaning` | proof_visualization/model/dag.py:53-61 | a node's number is among the children of an id exactly when that node names the id as a parent |
| `Dags.Children` | visualization-frontend/src/model/dag.js:50-64 | fails exactly for an unknown id; otherwise lists, over all nodes, the number of each node once per time it names the id as a parent |
| `Traversal.PostOrder.constructor` | proof_visualization/model/traversal.py:6-9 | the stack holds exactly the dag's leaves, nothing is visited, and what is left to yield is every ancestor of the leaves |
| `Traversal.PostOrder.HasNext` | proof_visualization/model/traversal.py:11-19 | answers true exactly when some reachable node is not yet yielded; the visited set and the yielded sequence are unchanged |
| `Traversal.PostOrder.HasNextUnbound` | visualization-frontend/src/model/traversal.ts:20-31 | the TypeScript loop reading the entry at the unbound `length` still answers whether some reachable node is left |
| `Traversal.PostOrder.GetNext` | proof_visualization/model/traversal.py:23-52 | fails with an assertion error exactly when nothing is left; otherwise yields a reachable, not yet yielded node all of whose parents were yielded before, and adds it to the visited set and the yielded sequence |
| `Traversal.PostOrder.PushUnvisitedParents` | proof_visualization/model/traversal.py:35-41 | pushes the unvisited parents of the stack's top and reports true exactly when one of its parents is unvisited; with none the stack is unchanged |
| `Traversal.PostOrder.Visit` | proof_visualization/model/traversal.py:44-47 | a top whose parents are all visited is popped, marked visited and appended to the yielded sequence |
| `Traversal.PostOrder.PopVisited` | proof_visualization/model/traversal.py:48-49 | an already visited top is popped and nothing else changes: the visited set, the yielded sequence and the invariant are kept |
| `Traversal.PostOrder.Finished` | proof_visualization/model/traversal.py:3-4 | once nothing is left, the yielded ids are exactly the ancestors of the leaves, each after all its parents |
| `Traversal.PostOrder.VisitedAll` | proof_visualization/model/traversal.py:3-4 | once nothing is left, the visited set is exactly the reachable nodes |
| `Traversal.PostOrder.NothingStacked` | proof_visualization/model/traversal.py:12-19 | an empty stack means nothing reachable is left to yield |
| `Traversal.LeavesAreSinkSeeds` | proof_visualization/model/traversal.py:8 | the leaves of a dag are a valid starting stack: no leaf is a parent of any node |
| `Traversal.VisitKeepsState` | proof_visualization/model/traversal.py:44-47 | visiting a top whose parents are all visited keeps the traversal's invariant |
| `Traversal.PushKeepsStack` | proof_visualization/model/traversal.py:38-41 | pushing an unvisited parent of a stacked node keeps the stack's shape |
| `Traversal.CoverAfterVisit` | proof_visualization/model/traversal.py:44-47 | after a visit every unvisited reachable node is still below some stacked node |
| `Traversal.ReversePostOrder.constructor` | proof_visualization/model/traversal.py:58-63 | collects the whole post-order: the ids stored are exactly the ancestors of the leaves |
| `Traversal.ReversePostOrder.WithUnboundCheck` | visualization-frontend/src/model/traversal.ts:76-83 | the TypeScript constructor, whose loop asks the unbound check, collects the same ids |
| `Traversal.ReversePostOrder.GetNext` | proof_visualization/model/traversal.py:68-70 | fails exactly when nothing is left; otherwise hands out the last collected node, and each of its parents is still to come, so a node comes before all of its parents |
| `Transformations.BoundarySetterRun` | proof_visualization/model/transformations.py:98-104 | the setter calls on the boundary copy succeed exactly when the original's times are in order, and then leave its new, passive and active times and no deletion data |
| `Transformations.BoundaryPython` | proof_visualization/model/transformations.py:94-106 | the boundary copy keeps number, statistics, preprocessing flag and times, passes the clause through the constructor's quote removal, has rule "Boundary" and no parents |
| `Transformations.BoundaryTypeScript` | visualization-frontend/src/model/transformations.ts:104-106 | the boundary copy differs from the node only in its rule, "Boundary", and its empty parent list |
| `Transformations.BoundariesAgree` | proof_visualization/model/transformations.py:98 | on a clause without quotes the two boundary copies agree except for the deletion data the Python one drops |
| `Transformations.AncestorsByChildren` | proof_visualization/model/transformations.py:6-8 | an id is a transitive parent of the set exactly when it is in the set or is a parent of one |
| `Transformations.ParentsFilterStart` | proof_visualization/model/transformations.py:16-19 | before the walk nothing is kept and the grown set is the caller's |
| `Transformations.ChildHandedOut` | proof_visualization/model/transformations.py:22-24 | in the reverse post-order every child of the node handed out next was handed out already |
| `Transformations.ParentsFilterDecides` | proof_visualization/model/transformations.py:28 | when a node is handed out, it is in the grown set exactly when it is a transitive parent of the caller's ids |
| `Transformations.ParentsFilterStep` | proof_visualization/model/transformations.py:27-35 | one loop step keeps the loop's state: a node in the set is kept and its parents join the set |
| `Transformations.ParentsFilterKeep` | proof_visualization/model/transformations.py:31-35 | keeping a transitive parent adds it to the kept nodes and its parents to the set |
| `Transformations.ParentsFilterDone` | proof_visualization/model/transformations.py:37 | after the whole walk the kept nodes are exactly the transitive parents |
| `Transformations.ListsAll` | proof_visualization/model/traversal.py:58-63 | an order holding every ancestor of the leaves holds every node of a well-formed dag |
| `Transformations.StartWalk` | proof_visualization/model/transformations.py:22 | the reverse post-order over a well-formed dag lists every node, each before its parents |
| `Transformations.FilterNonParentsCore` | proof_visualization/model/transformations.py:9-37 | the kept table is exactly the caller's ids and their transitive parents, each node unchanged, and the set has grown by the parents of the kept nodes |
| `Transformations.FilterNonParentsPython` | proof_visualization/model/transformations.py:9-37 | the result dag holds exactly the transitive parents of the caller's ids, unchanged, with its leaves recomputed; the caller's set is mutated to include the parents of the kept nodes |
| `Transformations.FilterNonParentsTypeScript` | visualization-frontend/src/model/transformations.ts:9-40 | the result table holds exactly the transitive parents of the ids, each node equal to the original |
| `Transformations.AncestorsClosed` | proof_visualization/model/transformations.py:6-8 | the parents filter yields a dag again: every parent of a kept node is kept |
| `Transformations.ActivatedNodes` | proof_visualization/model/transformations.py:112-116 | collects exactly the numbers of the nodes with an activation time |
| `Transformations.FilterNonActiveDerivingNodes` | proof_visualization/model/transformations.py:110-121 | the result holds exactly the activated nodes and their transitive parents, unchanged, with its leaves recomputed |
| `Transformations.DescendantsByParents` | proof_visualization/model/transformations.py:39-42 | an id is a transitive child of the set exactly when it is in the set or has such a child as parent |
| `Transformations.ConsequencesClosed` | proof_visualization/model/transformations.py:69-89 | the consequences filter yields a dag again: every parent of a kept node is kept, and each kept node is either the original or has no parents |
| `Transformations.ConsequencesKept` | proof_visualization/model/transformations.py:69-89 | every transitive child is kept; any other kept node is a boundary copy named as a parent, so it is not a leaf |
| `Transformations.ConsequencesStart` | proof_visualization/model/transformations.py:50-53 | before the walk the table is empty and the set is the caller's |
| `Transformations.ConsequencesDecide` | proof_visualization/model/transformations.py:63-67 | a node handed out after its parents is relevant exactly when it is in the caller's ids or has a relevant parent |
| `Transformations.ConsequencesSkip` | proof_visualization/model/transformations.py:69 | handing out a node that is not relevant changes nothing |
| `Transformations.ConsequencesKeep` | proof_visualization/model/transformations.py:69-89 | handing out a relevant node, after its outside parents were stored as boundary copies, storing its own entry gives the next loop state |
| `Transformations.ConsequencesDone` | proof_visualization/model/transformations.py:91 | after the whole walk the table is the consequences and the set holds the caller's ids and all transitive children |
| `Transformations.PostOrderVisitedAll` | proof_visualization/model/transformations.py:56-57 | the post-order over a well-formed dag hands out every node |
| `Transformations.StartPostOrder` | proof_visualization/model/transformations.py:56 | a fresh post-order over the dag, with nothing visited yet |
| `Transformations.HasNextOf` | proof_visualization/model/transformations.py:57 | the loop condition is true exactly when some node is still to be handed out |
| `Transformations.ExistsRelevantParent` | proof_visualization/model/transformations.py:63-66 | answers whether some parent of the node is in the set |
| `Transformations.AddBoundaryParents` | proof_visualization/model/transformations.py:76-82 | stores a boundary copy of each parent outside the set; the leaf assertion always holds because such a parent has a child |
| `Transformations.VisitForConsequences` | proof_visualization/model/transformations.py:61-89 | the body of the loop for a node handed out after its parents keeps the loop's state |
| `Transformations.FilterNonConsequencesCore` | proof_visualization/model/transformations.py:43-91 | the table is the consequences of the caller's ids and the set is the ids plus all their transitive children |
| `Transformations.FilterNonConsequencesPython` | proof_visualization/model/transformations.py:43-91 | the result dag is the consequences with recomputed leaves; the caller's set is mutated to include every transitive child |
| `Transformations.FilterNonConsequencesTypeScript` | visualization-frontend/src/model/transformations.ts:46-101 | the result table is the consequences built with the TypeScript boundary copies |
| `Merge.Merged` | visualization_backend/model/transformations.py:136-158 | the table after the rewrite has the same ids; nodes outside preprocessing are unchanged and preprocessing nodes differ only in their parent lists |
| `Merge.MergedParentsFrom` | visualization_backend/model/transformations.py:144-156 | a rewritten parent list only names nodes of the table that lie strictly lower in the derivation and are parents of some node |
| `Merge.MergedParentsAreSources` | visualization_backend/model/transformations.py:140-141 | when the assertions hold, every parent a preprocessing node keeps is a preprocessing node left without parents, and no choice axiom |
| `Merge.MergedWellFormed` | visualization_backend/model/transformations.py:158 | the rewritten table is again acyclic with all parents present, and the old leaves are still nobody's parent |
| `Merge.ParentContributionPython` | visualization_backend/model/transformations.py:145-156 | one parent contributes itself when it has no parents and is no choice axiom, else its own parents; a grandparent outside preprocessing fails the assertion, which happens only on a table that is not closed under preprocessing |
| `Merge.NewParentsPython` | visualization_backend/model/transformations.py:142-156 | the new parent list of a preprocessing node is its merged parent list, or the assertion fails because a parent or grandparent lies outside preprocessing |
| `Merge.MergeSkip` | visualization_backend/model/transformations.py:142 | going over a node outside preprocessing keeps the loop state |
| `Merge.MergeStep` | visualization_backend/model/transformations.py:158 | storing the merged parents of a preprocessing node gives the next loop state |
| `Merge.VisitForMerge` | visualization_backend/model/transformations.py:138-158 | the loop body keeps the loop state, or fails the assertion on a table not closed under preprocessing |
| `Merge.MergeDone` | visualization_backend/model/transformations.py:137-158 | once every node was gone over, the table is the merged one and the assertions held everywhere |
| `Merge.StartWalkOn` | visualization_backend/model/transformations.py:163 | a fresh post-order on the rewritten table, with nothing visited yet |
| `Merge.CollectReachable` | visualization_backend/model/transformations.py:162-167 | collects, under their numbers, exactly the nodes reachable from the leaves |
| `Merge.ReachedNodes` | visualization_backend/model/transformations.py:160-161 | the reached nodes are a part of the table |
| `Merge.RewriteParents` | visualization_backend/model/transformations.py:136-158 | succeeds exactly when every preprocessing node's parents and grandparents are from preprocessing, and then the table is the merged one; otherwise an assertion error |
| `Merge.MergePreprocessingPython` | visualization_backend/model/transformations.py:135-169 | succeeds exactly when the table is closed under preprocessing; the caller's table is then rewritten in place to the merged one, and the result holds the merged nodes still reachable from the old leaves |
| `Merge.RemovedAmong` | visualization-frontend/src/model/transformations.ts:117 | the ids marked for removal are ids of the table |
| `Merge.MergedCopy` | visualization-frontend/src/model/transformations.ts:154-161 | the TypeScript result has the table's ids minus the removed ones |
| `Merge.ParentContributionTypeScript` | visualization-frontend/src/model/transformations.ts:130-147 | a parent contributes as in the Python version and is marked for removal exactly when it is a choice axiom without parents or has parents of its own |
| `Merge.NewParentsTypeScript` | visualization-frontend/src/model/transformations.ts:127-148 | the new parent list is the merged one and the ids marked are the dropped parents, or the assertion fails on a table not closed under preprocessing |
| `Merge.RemovedStep` | visualization-frontend/src/model/transformations.ts:136-146 | going over a node adds exactly the parents it drops to the removed ids |
| `Merge.VisitForMergeTypeScript` | visualization-frontend/src/model/transformations.ts:122-151 | the loop body keeps the loop state and the removed ids, or fails the assertion |
| `Merge.RewriteCopy` | visualization-frontend/src/model/transformations.ts:116-152 | succeeds exactly when the table is closed under preprocessing, with the copy rewritten to the merged table and every dropped id marked; the caller's table is untouched |
| `Merge.DeleteAll` | visualization-frontend/src/model/transformations.ts:155-158 | every marked id is deleted and nothing else; each delete finds its id |
| `Merge.MergePreprocessingTypeScript` | visualization-frontend/src/model/transformations.ts:115-161 | succeeds exactly when the table is closed under preprocessing, and returns the merged table without the removed ids |
| `Merge.PythonMergeSources` | visualization_backend/model/transformations.py:140-141 | in the Python result every parent of a preprocessing node is present, has no parents and is no choice axiom |
| `Merge.TypeScriptMergeSources` | visualization-frontend/src/model/transformations.ts:125-126 | in the TypeScript result every parent a preprocessing node keeps is present, has no parents and is no choice axiom |
| `Merge.ExampleLinks` | visualization-frontend/src/model/transformations.ts:108-114 | in the example table every parent link goes downwards to node 1 or 2, between preprocessing nodes |
| `Merge.MergeGenerationsDiffer` | visualization-frontend/src/model/transformations.ts:146 | on a closed example where a merged-away node is still the parent of a node outside preprocessing, the Python merge keeps that node, while the TypeScript merge deletes it and leaves a dangling parent link |
| `Search.UnionOfMeaning` | proof_visualization/model/search.py:30-34 | an id is in the merged sets of the parents exactly when it is in the set recorded for one of them |
| `Search.RelevantAboveStep` | proof_visualization/model/search.py:25-35 | a node's recorded set is its own contribution plus its parents' sets, and that equals the relevant ids in its derivation |
| `Search.SizeTest` | proof_visualization/model/search.py:40 | a recorded set is a subset of the relevant ids, so equal sizes hold exactly when every relevant id is in the derivation |
| `Search.CommonAmongMeaning` | proof_visualization/model/search.py:6-7 | an id is listed exactly when it was walked and its derivation holds every relevant id |
| `Search.CommonAmongDistinct` | proof_visualization/model/search.py:41 | the result lists no id twice when the walk yields none twice |
| `Search.NothingRelevantKeepsAll` | proof_visualization/model/search.py:40-41 | with no relevant ids every walked node is returned, in order |
| `Search.OneRelevantIsDescendants` | proof_visualization/model/search.py:6-7 | for one relevant id the common consequences are that id and its transitive children |
| `Search.RelevantParentsPython` | proof_visualization/model/search.py:26-34 | the Python inner loop fails with a missing key exactly when a parent has no recorded set (the index on line 32 comes before the membership test), else gives the node's own contribution plus the parents' sets |
| `Search.AddEach` | visualization-frontend/src/model/find-node.ts:27-29 | adding the elements one at a time gives the union |
| `Search.RelevantParentsTypeScript` | visualization-frontend/src/model/find-node.ts:19-30 | fails with a type error exactly when a parent has no recorded set, else gives the own contribution plus the parents' sets |
| `Search.VisitForSearch` | proof_visualization/model/search.py:22-41 | one loop step records the node's set and keeps the node exactly when it is a common consequence |
| `Search.FindCommonConsequences` | proof_visualization/model/search.py:7-43 | the walk is a post-order over every node, and the result is the walked nodes that are common consequences, in walk order |
| `Search.FindCommonConsequencesMeaning` | visualization-frontend/src/model/find-node.ts:4-5 | a node is in the result exactly when it is walked and each relevant id occurs in its derivation, and no node is listed twice |
| `NodeAssembly.Placeholder` | proof_visualization/model/parsing.py:52-56 | the placeholder for an unseen parent carries the parent's number and holds exactly the child |
| `NodeAssembly.LinkedMeaning` | proof_visualization/model/parsing.py:49-56 | adding a child under a set of parents adds their ids to the table, grows each parent's children by exactly the child, makes a placeholder for a missing parent, and changes nothing else |
| `NodeAssembly.ChildAddedStep` | proof_visualization/model/parsing.py:50-56 | one more parent extends the linked set, in any order; adding under the same parent twice changes nothing |
| `NodeAssembly.AddAsChildOfEach` | proof_visualization/model/parsing.py:49-56 | the loop over a parent list links the child under exactly the ids of the list |
| `NodeAssembly.AddAsChildOfAll` | presenter/parsing/vampire_parser.py:29-38 | the loop over a parent set links the child under exactly the ids of the set |
| `NodeAssembly.ChildlessIds` | proof_visualization/model/parsing.py:58 | an id is a leaf exactly when its node has no children |
| `NodeAssembly.AssembledShape` | proof_visualization/model/parsing.py:43-58 | the assembled table holds exactly the numbers and parents the parsed nodes mention, each node under its own number, and every recorded child names the node as a parent |
| `NodeAssembly.ChildlessNodes` | proofvisualization/model/parsing.py:60 | the leaf nodes are table values, and a node is among them exactly when it has no children |
| `NodeAssembly.AssembledLeafNumbers` | proofvisualization/model/parsing.py:60 | the numbers of the childless nodes are the childless ids, since every node is stored under its number |
| `NodeAssembly.StoredKeepingChildren` | proof_visualization/model/parsing.py:48 | storing a node while keeping the children already recorded under its number changes no other entry |
| `NodeAssembly.KeepingChildrenIsExact` | proof_visualization/model/parsing.py:43-58 | with children kept, a node's children are exactly the parsed nodes naming it as a parent, in any line order |
| `NodeAssembly.KeepingChildrenLeaves` | proof_visualization/model/parsing.py:58 | with children kept, the leaves are exactly the mentioned ids no parsed node names as a parent |
| `ActiveLines.MatchActive` | proof_visualization/model/parsing.py:12 | a match needs the `[SA] active: ` prefix, an all-digit number and a parent list of digits and commas |
| `ActiveLines.MatchActiveFormatted` | proof_visualization/model/parsing.py:12 | an active line as the prover writes it matches, with exactly its groups |
| `ActiveLines.PlainUnitValues` | proof_visualization/model/parsing.py:33-37 | the groups of a written line read back as its number, stripped clause and rule, and parent ids |
| `ActiveParsing.ParseLine` | proof_visualization/model/parsing.py:31-40 | a line gives a node exactly when it matches, and that node has no children and a non-negative number |
| `ActiveParsing.ParseLineRoundTrip` | proof_visualization/model/parsing.py:31-38 | an active line as the prover writes it reads back as the node it describes |
| `ActiveParsing.ParseEach` | proof_visualization/model/parsing.py:28 | one parse per line, in order |
| `ActiveParsing.Parse` | proof_visualization/model/parsing.py:21-28 | the filter keeps at most one node per line |
| `ActiveParsing.ParseAppend` | proof_visualization/model/parsing.py:27-28 | parsing works line by line: two chunks give their nodes in order |
| `ActiveParsing.ParsedFromLine` | proof_visualization/model/parsing.py:28 | a node is parsed exactly when some line gives it, and it has no children |
| `ActiveParsing.Analyse` | proof_visualization/model/parsing.py:43-59 | the table is the parsed nodes assembled with `Preproc` placeholders, and the leaves are the childless ids |
| `ActiveParsing.Process` | proof_visualization/model/parsing.py:17-18 | the output split at newlines, parsed and assembled, with the childless ids as leaves |
| `ActiveParsing.ProcessShape` | proof_visualization/model/parsing.py:17-59 | the built table holds exactly the ids the active lines mention, each under its number, and children that name their node as a parent |
| `ActiveParsing.PlaceholderOverwriteDropsChild` | proof_visualization/model/parsing.py:48 | a child read before its parent: the parent's own line replaces the placeholder that held the child, so the parent ends up a leaf |
| `ActiveParsing.AnalysedKeepingChildrenIsExact` | proof_visualization/model/parsing.py:43-58 | keeping children when storing a node, each node's children are exactly the parsed nodes naming it as a parent, and the leaves exactly the ids no parsed node names as a parent |
| `ActiveParsing.KeepingChildrenKeepsChild` | proof_visualization/model/parsing.py:48 | on the same two lines, keeping children, the parent holds its child and is no leaf |
| `UnfilteredParsing.ParentIds` | proofvisualization/model/parsing.py:51 | a parent set's ids, none for a placeholder's `None` |
| `UnfilteredParsing.ParseLine` | proofvisualization/model/parsing.py:33-42 | a line gives a node exactly when it matches, with clause, rule and parent set present |
| `UnfilteredParsing.ParseLineRoundTrip` | proofvisualization/model/parsing.py:33-40 | an active line as the prover writes it reads back as its node, parents as a set |
| `UnfilteredParsing.Parse` | proofvisualization/model/parsing.py:23-30 | one parse per line, `None` included, in order |
| `UnfilteredParsing.PresentStep` | proofvisualization/model/parsing.py:30 | the present parses of a prefix grow by the next line's parse, if any |
| `UnfilteredParsing.PresentFresh` | proofvisualization/model/parsing.py:40 | every parsed node starts without children |
| `UnfilteredParsing.AnalysedStep` | proofvisualization/model/parsing.py:49-58 | analysing one more node stores it, then links it under its parents |
| `UnfilteredParsing.AnalyseNode` | proofvisualization/model/parsing.py:50-58 | one pass of the loop stores the node and links it under each parent |
| `UnfilteredParsing.Analyse` | proofvisualization/model/parsing.py:45-61 | fails with a type error exactly when some parse is `None`; otherwise the assembled table and its childless nodes |
| `UnfilteredParsing.Process` | proofvisualization/model/parsing.py:19-20 | succeeds exactly when every line parses, with the assembled table |
| `UnfilteredParsing.AllParsedMeaning` | proofvisualization/model/parsing.py:30 | every parse is present exactly when every line is an active line |
| `UnfilteredParsing.TrailingNewlineRejected` | proofvisualization/model/parsing.py:29-30 | an output ending in a newline has an empty last line, whose parse is `None`, so `process` fails whatever the lines before |
| `PresenterParsing.ParseLine` | presenter/parsing/vampire_parser.py:54-66 | the node of an active line, the same as the unfiltered parser's; an attribute error on any other line |
| `PresenterParsing.Parse` | presenter/parsing/vampire_parser.py:19-51 | never fails; the tree of the active lines assembled with `None` placeholders, and its childless nodes as leaves |
| `PresenterParsing.ParsedShape` | presenter/parsing/vampire_parser.py:27-51 | the tree holds exactly the ids the active lines mention, each under its number, and children that name their node as a parent |
| `TreeBuilding.ParseUnit` | vampire_parser.py:39-56 | a line gives a unit exactly when it matches the plain pattern; the unit has no children and a non-negative number |
| `TreeBuilding.ParseUnitRoundTrip` | vampire_parser.py:51-56 | a unit as the prover writes it reads back as the node it describes |
| `TreeBuilding.ReadOrder` | vampire_parser.py:25 | the lines are read last line first |
| `TreeBuilding.Added` | vampire_parser.py:18-23 | storing a unit fails exactly when it is not an input and names a parent not in the table; otherwise the table gains its number |
| `TreeBuilding.BuildTree` | vampire_parser.py:14-36 | the table of the units read bottom-up, or the first missing-key failure |
| `TreeBuilding.ReadStep` | vampire_parser.py:25-30 | reading one more line applies its unit, if any, to the table so far |
| `TreeBuilding.UnitsFresh` | vampire_parser.py:28 | units read from lines have no children yet |
| `TreeBuilding.ErrorStays` | vampire_parser.py:23 | once reading fails, the lines further up change nothing, since the error is not caught |
| `TreeBuilding.BuiltKeys` | vampire_parser.py:29 | on success the table holds exactly the units' numbers |
| `TreeBuilding.BuiltOk` | vampire_parser.py:18-30 | building succeeds exactly when each non-input unit's parents were read before it, that is, appear further down |
| `TreeBuilding.BuiltChildren` | vampire_parser.py:22-23 | a node's children are units that name it as a parent |
| `TreeBuilding.TwoUnits` | vampire_parser.py:25 | two lines are read bottom line first |
| `TreeBuilding.AscendingProofFails` | vampire_parser.py:22-25 | a proof listed premise first fails: reading from the end, the conclusion names a parent not read yet |
| `PresenterTree.Get` | presenter/tree.py:15-16 | the node stored under the id, and nothing exactly when the id is not in the table |
| `PresenterTree.InTreeRanked` | presenter/tree.py:23-27 | a node of a ranked tree has parents that are numbered below it |
| `PresenterTree.DistinctBelow` | presenter/tree.py:23-27 | distinct ids below n weigh less than 2^n, which bounds the walk's stack weight |
| `PresenterTree.NodesOf` | presenter/tree.py:26 | the nodes stored under the ids, in order |
| `PresenterTree.WeightOfPushed` | presenter/tree.py:26 | the pushed nodes weigh what their ids do, each node being stored under its number |
| `PresenterTree.PushParents` | presenter/tree.py:26 | pushes the nodes of the parent set in the set's iteration order onto the stack, failing with a missing key exactly when a parent is not in the table |
| `PresenterTree.StepKeeps` | presenter/tree.py:25-26 | after a pop and push the stack holds what was below the node, the nodes of all its parents, and only nodes of the tree |
| `PresenterTree.StepWeighs` | presenter/tree.py:25-26 | a pop and push lowers the stack's weight, so the walk ends |
| `PresenterTree.WalkStep` | presenter/tree.py:24-27 | one step pops the top node and yields it; the new stack is exactly the rest with the nodes of its parents pushed in the set's iteration order, and weighs less; a placeholder's `None` parents raise a type error, an unknown parent a missing key |
| `PresenterTree.Iterate` | presenter/tree.py:18-27 | the loop computes exactly `WalkFrom` from the leaves in the set's iteration order: the depth-first walk without a visited set, or the error of the first node it cannot expand; a complete walk yields every leaf and, with each node, its parents |
| `PresenterTree.WalkPush` | presenter/tree.py:25-26 | pushing parents' nodes onto a stack puts their walks, the one pushed last first, before the walk of what was below |
| `PresenterTree.StepWalk` | presenter/tree.py:24-27 | popping an expandable node and pushing its parents leaves the future of the walk unchanged: the node, then what the new stack yields |
| `PresenterTree.TourOkExactly` | presenter/tree.py:24-27 | the walk from a node succeeds exactly when every node it reaches through parents stored in the tree has a parent set of stored ids |
| `PresenterTree.WalkOkExactly` | presenter/tree.py:23-27 | the walk from the leaves fails exactly when some node reached from a leaf cannot be expanded: a placeholder or a node naming an unknown parent |
| `PresenterTree.PathsPositive` | presenter/tree.py:23-27 | a node has a parent path to another exactly when it reaches it |
| `PresenterTree.TourCount` | presenter/tree.py:23-27 | with no visited set, the walk from a node yields each node once per parent path that reaches it |
| `PresenterTree.WalkCount` | presenter/tree.py:23-27 | a complete walk from a stack yields each node as often as there are parent paths to it from the stacked nodes |
| `PresenterTree.WalkYieldsReached` | presenter/tree.py:23-27 | a complete walk yields a node exactly when it is reached from a stacked node, so only reachable nodes are yielded |
| `PresenterTree.TwoParentsTwice` | presenter/tree.py:23-27 | a node reached through two different parents of a node is yielded at least twice by the walk from that node |
| `PresenterTree.YieldsReachable` | presenter/tree.py:18-27 | a complete walk yields every node reachable from a leaf through parents |
| `PresenterTree.NodeRepr` | presenter/parsing/inference_node.py:19-20 | a node's text is its clause without single quotes, and empty for a placeholder |
| `PresenterTree.NodeReprs` | presenter/tree.py:37 | one text per node, in order |
| `PresenterTree.Repr` | presenter/tree.py:29-41 | on success the text lists the nodes `WalkFrom` yields from the leaves, in walk order and once per path, then the leaves in the same set order; it fails exactly when that walk does, with its error |
| `PresenterTree.ReprFrame` | presenter/tree.py:35-41 | the rendering opens with the centred title on its own line and closes with the bar of '=' |
| `ReprUtil.CountRepr` | proof_visualization/model/util.py:8-10 | the text starts with the count and a space, followed by the singular noun exactly when the count is one |
| `ReprUtil.CountReprReadsBack` | proof_visualization/model/util.py:8-10 | the number in front reads back as the count |
| `ReprUtil.TitleRepr` | proof_visualization/model/util.py:13-15 | the spaced text is centred in a line of 50 '=', the extra '=' going to the right; a longer text is not padded |
| `ReprUtil.SetRepr` | proof_visualization/model/util.py:18-19 | the dash exactly for the empty set, otherwise the set itself |
| `ReprUtil.Separator` | proof_visualization/model/util.py:22-23 | 50 '-' characters |
| `ReprUtil.LastLine` | proof_visualization/model/util.py:26-27 | 50 '=' characters and a newline |
| `ReprUtil.RemoveQuotes` | proof_visualization/model/util.py:30-33 | no quote of either kind is left, and a text without quotes is unchanged |
| `ReprUtil.RemoveQuotesKeepsOthers` | proof_visualization/model/util.py:33 | removal goes character by character: a quote is dropped, any other character kept, so the rest of the text stays in order |
| `Text.RemoveAllAppend` | proof_visualization/model/util.py:33 | `replace(c, "")` removes from a concatenation part by part |
| `Text.RemoveAllSingle` | proof_visualization/model/util.py:33 | `replace(c, "")` drops a single character exactly when it is a removed one |
| `PresenterUtil.LastLine` | presenter/util.py:28-29 | 50 '=' characters without the newline of the model's helper |
| `Terms.ArgStrings` | visualization-frontend/src/model/literal.ts:32 | one printed argument per argument |
| `Terms.LiteralStringShape` | visualization-frontend/src/model/literal.ts:13-16 | a printed literal starts with `!` exactly when it is negated, names the predicate right after that mark, and ends with a closing bracket |
| `TermParsing.RunLength` | visualization-frontend/src/model/unit-parser.ts:79-85 | the inner lexing loop stops at the first bracket or comma, or at the end |
| `TermParsing.HeadLength` | visualization-frontend/src/model/unit-parser.ts:75-88 | every token is non-empty and within the input |
| `TermParsing.LexConcat` | visualization-frontend/src/model/unit-parser.ts:69-89 | lexing loses nothing: the tokens concatenate back to the input |
| `TermParsing.LexTokensAreTokens` | visualization-frontend/src/model/unit-parser.ts:75-88 | each token is a single delimiter or a non-empty run of other characters |
| `TermParsing.LexNameFollowed` | visualization-frontend/src/model/unit-parser.ts:79-87 | a name token is always followed by a delimiter token, never by another name |
| `TermParsing.LexRun` | visualization-frontend/src/model/unit-parser.ts:78-87 | a maximal run of non-delimiters is lexed as one token |
| `TermParsing.LexAt` | visualization-frontend/src/model/unit-parser.ts:72-89 | lexing from a position yields the token there, then lexes the rest |
| `TermParsing.LexTokens` | visualization-frontend/src/model/unit-parser.ts:69-89 | the lexing loop computes the token list of the specification |
| `TermParsing.RunLengthIs` | visualization-frontend/src/model/unit-parser.ts:80-84 | a maximal run of non-delimiters has the run's length |
| `TermParsing.BracketedNamesApplied` | visualization-frontend/src/model/unit-parser.ts:91-100 | after bracket insertion every name token is immediately followed by an opening bracket |
| `TermParsing.InsertBrackets` | visualization-frontend/src/model/unit-parser.ts:92-100 | the splicing loop over the growing array yields the bracketed token list |
| `TermParsing.BracketedStep` | visualization-frontend/src/model/unit-parser.ts:93-98 | one step of bracket insertion as the loop sees it at its frontier |
| `TermParsing.InsertedPair` | visualization-frontend/src/model/unit-parser.ts:96-97 | the two splices put `(` and `)` right after the name |
| `TermParsing.Push` | visualization-frontend/src/model/unit-parser.ts:110 | pushing onto the top frame keeps the number of frames |
| `TermParsing.Apply` | visualization-frontend/src/model/unit-parser.ts:105-123 | a successful token step leaves at least one frame |
| `TermParsing.ParseFunctionApplication` | visualization-frontend/src/model/unit-parser.ts:68-128 | lexing, bracket insertion and the stack parse compute the specified term or the specified error |
| `TermParsing.LexName` | visualization-frontend/src/model/unit-parser.ts:78-87 | a name followed by a delimiter or the end is one token |
| `TermParsing.CloseFrame` | visualization-frontend/src/model/unit-parser.ts:116-122 | closing the frame of a term's arguments applies its name to them |
| `TermParsing.RunSeveralArgs` | visualization-frontend/src/model/unit-parser.ts:105-123 | two or more arguments are parsed as the first, a comma, then the others |
| `TermParsing.RunComma` | visualization-frontend/src/model/unit-parser.ts:105-123 | a comma token leaves the stack as it is |
| `TermParsing.PrintParseRoundTrip` | visualization-frontend/src/model/literal.ts:28-34 | parsing a printed term gives the term back, when its names are non-empty and free of brackets and commas |
| `UnitParsing.Equation` | visualization-frontend/src/model/unit-parser.ts:39-54 | an equality literal has the name `=`, two arguments and the given sign |
| `UnitParsing.LiteralOf` | visualization-frontend/src/model/unit-parser.ts:30-66 | text with `=` gives a two-argument equality; other text gives a literal negated exactly when it starts with `~` |
| `UnitParsing.LiteralsOf` | visualization-frontend/src/model/unit-parser.ts:26 | one literal per piece, in order, or the error of a piece that fails |
| `UnitParsing.ClauseOf` | visualization-frontend/src/model/unit-parser.ts:25-28 | a clause with one literal per piece between the disjunction bars and the given selection count |
| `UnitParsing.ParseUnit` | visualization-frontend/src/model/unit-parser.ts:8-24 | a preprocessing unit with characters outside the clause notation is kept as formula text; any other unit is parsed as a clause whose selection count is the `nSel` statistic |
| `UnitParsing.SymbolicString` | visualization-frontend/src/model/literal.ts:28-34 | a printed symbolic term uses only clause-notation characters and starts with its name |
| `UnitParsing.SymbolicPlain` | visualization-frontend/src/model/literal.ts:28-34 | a printed symbolic term contains no equality sign and no disjunction bar |
| `UnitParsing.LiteralRoundTrip` | visualization-frontend/src/model/unit-parser.ts:30-66 | reading the prover's notation of a literal gives the literal back |
| `UnitParsing.EquationRoundTrip` | visualization-frontend/src/model/unit-parser.ts:33-55 | reading `a = b` or `a != b` gives the equality back |
| `UnitParsing.InfixSplit` | visualization-frontend/src/model/unit-parser.ts:33-55 | an infix equality is split at its sign when the left side has no `=` |
| `UnitParsing.UnspacedEqualityRejected` | visualization-frontend/src/model/unit-parser.ts:47-48 | an equality sign without a space before it fails the assertion |
| `UnitParsing.AtomRoundTrip` | visualization-frontend/src/model/unit-parser.ts:57-65 | reading a non-equality literal's notation gives it back |
| `UnitParsing.IndexOfFirst` | visualization-frontend/src/model/unit-parser.ts:33 | the search finds the first occurrence |
| `UnitParsing.ClauseRoundTrip` | visualization-frontend/src/model/unit-parser.ts:8-28 | reading the notation of a clause of readable literals gives them back, with the selection count from the statistics |
| `UnitParsing.PrintedLiteralReread` | visualization-frontend/src/model/literal.ts:13-16 | the frontend prints negation as `!` but reads `~`: re-reading a printed negated literal gives a positive literal whose name carries the `!` |
| `Units.LiteralStrings` | visualization-frontend/src/model/unit.ts:36 | one printed literal per literal, in order |
| `Units.HtmlOf` | visualization-frontend/src/model/unit.ts:39-60 | fails the assertion exactly when a clause has a selection count below one or above its number of literals |
| `Units.JoinSnoc` | visualization-frontend/src/model/unit.ts:51-53 | appending one piece to a non-empty join adds the separator and the piece |
| `Units.JoinSplitAt` | visualization-frontend/src/model/unit.ts:50-57 | a join splits after its first n pieces into their join and the rest, each preceded by the separator |
| `Units.HtmlIsBoldedString` | visualization-frontend/src/model/unit.ts:39-60 | the bold printout is the plain printout with the tags around the selected literals; without a selection count the two agree |
| `Units.HtmlBoldsSelected` | visualization-frontend/src/model/unit.ts:45-57 | the bold part holds exactly the first n printed literals |
| `Units.BoldPart` | visualization-frontend/src/model/unit.ts:50-53 | the first loop yields the opening tag and the selected literals joined by bars |
| `Units.AppendRest` | visualization-frontend/src/model/unit.ts:55-57 | the second loop appends every remaining literal after a bar |
| `Units.ToHtmlString` | visualization-frontend/src/model/unit.ts:39-60 | the method computes the specified printout or the assertion failure |
| `Orientation.ClauseSides.constructor` | visualization-frontend/src/model/clause-orientation.ts:8-10 | a clause starts with the given premise and conclusion lists |
| `Orientation.Premises` | visualization-frontend/src/model/clause-orientation.ts:18-19 | only literals of the clause that are negated non-equalities |
| `Orientation.Conclusions` | visualization-frontend/src/model/clause-orientation.ts:20-21 | only literals of the clause that are not premises |
| `Orientation.FiltersPermute` | visualization-frontend/src/model/clause-orientation.ts:17-23 | together the two lists hold every literal exactly as often as the clause does |
| `Orientation.OrientedPermutes` | visualization-frontend/src/model/clause-orientation.ts:13-29 | orientation only moves literals between the two lists |
| `Orientation.OrientedSides` | visualization-frontend/src/model/clause-orientation.ts:13-29 | with a conclusion literal the lists are the premises and the conclusions; without one every literal is a conclusion |
| `Orientation.FilterAll` | visualization-frontend/src/model/clause-orientation.ts:18 | filtering a filtered list keeps it, and filtering out its complement leaves nothing |
| `Orientation.OrientedIdempotent` | visualization-frontend/src/model/clause-orientation.ts:10-29 | orienting an oriented clause changes nothing |
| `Orientation.PartitionStable` | visualization-frontend/src/model/clause-orientation.ts:10-25 | re-partitioning the partitioned literals gives the same two lists |
| `Orientation.ConclusionsNonEmpty` | visualization-frontend/src/model/clause-orientation.ts:13-14 | a clause with a conclusion literal gets a non-empty conclusion list |
| `Orientation.Partition` | visualization-frontend/src/model/clause-orientation.ts:15-23 | the loop sorts the literals into the premise and conclusion lists of the specification |
| `Orientation.OrientClause` | visualization-frontend/src/model/clause-orientation.ts:8-29 | the clause's two lists become the orientation of its literals as they were |
| `Orientation.OrientClauses` | visualization-frontend/src/model/clause-orientation.ts:5-32 | every clause of the dag ends up oriented from its literals as they were, a shared clause included |
| `Substitutions.EraseEqual` | src/model/substitution.ts:39-52 | two terms agree once variable marks are erased exactly when their names and arities agree and so do all their arguments |
| `Substitutions.TermsAreEqual` | src/model/substitution.ts:39-52 | answers true exactly when the terms are equal up to variable marks |
| `Substitutions.TermsEqualityIsEquivalence` | src/model/substitution.ts:39-52 | term equality is reflexive, symmetric and transitive |
| `Substitutions.Equal` | src/model/substitution.ts:14-37 | true only for the same name, sign and arity, with equal arguments in order except for `=`, which may also match swapped; the assertion fails exactly for a `=` literal whose arity is not 2 and whose arguments differ in order |
| `Substitutions.EqualSymmetric` | src/model/substitution.ts:14-37 | literal equality gives the same answer both ways round |
| `Substitutions.EqualitySwapped` | src/model/substitution.ts:28-34 | an equation equals its mirror image |
| `Substitutions.IsEqual` | src/model/substitution.ts:14-37 | the loop with its early exit computes the specified answer |
| `Substitutions.ComputeExtends` | src/model/substitution.ts:83-85 | matching only adds bindings: the substitution it leaves extends the one it was given |
| `Substitutions.IdenticalTermsMatch` | src/model/substitution.ts:87-96 | terms equal up to variable marks match without any new binding and without following a binding |
| `Substitutions.IdenticalArgsMatch` | src/model/substitution.ts:88-95 | argument lists equal up to variable marks match without any new binding |
| `Substitutions.ComputeSubstitution` | src/model/substitution.ts:86-107 | the method with its argument loop computes the specified outcome, the substitution threaded through |
| `Substitutions.IsSubstitution` | src/model/substitution.ts:55-81 | the method with its argument loop and the retry for `=` computes the specified outcome |
| `Substitutions.EqualOutcome` | src/model/substitution.ts:14-37 | literal equality always returns |
| `Substitutions.LiteralsMatch` | src/model/substitution.ts:6-12 | matching up to substitution when allowed, literal equality otherwise |
| `Substitutions.EqualIsSubstitution` | src/model/substitution.ts:54-81 | equal literals are instances of each other: matching does not answer no and does not fail, and answers yes when the arguments agree in order |
| `Substitutions.ConstantChasesCycle` | src/model/substitution.ts:97-104 | once Y and Z are bound to each other, matching a constant against either follows the bindings forever |
| `Substitutions.SubstitutionDiverges` | src/model/substitution.ts:97-104 | matching p(Y,Z,Z,Y,c) against p(X,X,W,W,X) never returns, whatever the fuel |
| `Substitutions.InstanceStable` | src/model/substitution.ts:83-85 | extending a substitution that binds every variable of a term leaves its instance alone |
| `Substitutions.MatchCorrectedSound` | src/model/substitution.ts:83-85 | with the bound variable compared to its binding, a successful match extends the given substitution, binds every variable of the pattern and turns it into the instance |
| `Substitutions.SubstitutionCorrectedSound` | src/model/substitution.ts:54-55 | when the corrected matching answers yes, one substitution turns the second literal's arguments, in order or swapped for `=`, into the first's |
| `Substitutions.MatchCorrectedComplete` | src/model/substitution.ts:83-85 | with the bound variable compared to its binding, matching answers yes whenever a substitution agreeing with the given one turns the pattern into the instance, and what it leaves still agrees with it |
| `Substitutions.SubstitutionCorrectedComplete` | src/model/substitution.ts:54-55 | the corrected matching answers yes whenever one substitution turns the second literal's arguments, in order or swapped for `=`, into the first's |
| `Substitutions.SubstitutionCorrectedMeaning` | src/model/substitution.ts:54-81 | with the pattern's variables named apart, the corrected matching answers yes exactly when the first literal is an instance of the second |
| `Substitutions.UnsoundMatch` | src/model/substitution.ts:97-104 | as written, matching p(Y,c) against p(X,X) answers yes although no substitution turns p(X,X) into p(Y,c); the corrected matching answers no |
| `SatModel.Get` | src/model/clause-orientation.ts:117 | the node stored under the id when the id is in the dag, and a failure exactly when it is not |
| `ParentLiterals.Identity` | src/model/clause-orientation.ts:14-19 | the assignment is defined on exactly the first n positions and sends each position to itself |
| `ParentLiterals.OutcomeResult` | src/model/substitution.ts:6-12 | a call of `literalsMatch` that returns gives its answer; a failed assertion and a call that does not return become errors |
| `ParentLiterals.FactoringLinksDiffer` | src/model/clause-orientation.ts:22-49 | factoring p(Y,c) from p(X,X) and r: the program links the literal to p(X,X), while with the corrected matching the assertion fails |
| `ParentLiterals.Case1` | src/model/clause-orientation.ts:11-20 | case 1 succeeds exactly when the clause and the parent have as many literals, and then links literal i to parent literal i; otherwise the assertion fails |
| `ParentLiterals.ComputeParentLiteralsCase1` | src/model/clause-orientation.ts:11-20 | the loop over the positions computes the case-1 outcome |
| `ParentLiterals.Case2Shape` | src/model/clause-orientation.ts:22-49 | a successful case 2 links every literal of the clause, to strictly increasing parent positions at or after its own, each to a parent literal it matches; without multiple removals literal k comes from parent literal k or k + 1 |
| `ParentLiterals.ComputeParentLiteralsCase2` | src/model/clause-orientation.ts:27-49 | the two-index loop computes the case-2 outcome, including the length assertion, a second skip without multiple removals, and running past the parent list |
| `ParentLiterals.ShiftedEnd` | src/model/clause-orientation.ts:63-78 | the first loop of case 3 stops at a position between its start and the number of literals |
| `ParentLiterals.RotationStart` | src/model/clause-orientation.ts:70-83 | the shifted links of the first loop plus the link of literal 0 to the failing parent literal are the rotation of the first positions |
| `ParentLiterals.Case3Shape` | src/model/clause-orientation.ts:51-94 | a successful case 3 is a permutation of the positions: literal 0 comes from some parent literal k, literals 1 to k from the parent literal before them and match it, and later literals from the parent literal at their own position, matching it unless simultaneous superposition is allowed |
| `ParentLiterals.ComputeParentLiteralsCase3` | src/model/clause-orientation.ts:59-94 | the two loops of case 3, with the break and the corner case for a rewritten last literal, compute the case-3 outcome |
| `ParentLiterals.Contents` | src/model/clause-orientation.ts:37 | the literal contents compared are those of the named literal objects, position by position |
| `ParentLiterals.LinkPairs` | src/model/clause-orientation.ts:18 | every `setLiteralInParent` pair an assignment stands for joins a literal of the clause to a literal of the parent list |
| `ParentLiterals.ParentList` | src/model/clause-orientation.ts:123-131 | the parent's literals are taken in active-event order when the parent was activated no later than the child was generated, in new-event order otherwise, and a missing active-event list fails |
| `ParentLiterals.Case1RuleLinks` | src/model/clause-orientation.ts:136-140 | for the case-1 rules literal k of the clause is linked to parent literal k, for every k |
| `ParentLiterals.Case2LinksMatch` | src/model/clause-orientation.ts:27-49 | the links of a successful case 2 join each literal of the clause, in order, to a literal of the parent list that it matches |
| `ParentLiterals.Case2RuleLinks` | src/model/clause-orientation.ts:142-152 | for the literal-removing rules every literal is linked, in order, to a parent literal it matches, with substitutions only for equality resolution and factoring, for whichever literal comparison is given, the program's included |
| `ParentLiterals.Case3Links` | src/model/clause-orientation.ts:59-94 | the links of a successful case 3 join each literal after the first to the parent literal at its own or the previous position |
| `ParentLiterals.Case3RuleLinks` | src/model/clause-orientation.ts:154-159 | for demodulation and equality factoring every literal after the first is linked to the parent literal at its own or the previous position, for whichever literal comparison is given, the program's included |
| `ParentLiterals.TwoParentLinksSides` | src/model/clause-orientation.ts:162-206 | a successful resolution or superposition has two non-empty parents and the asserted literal counts, and links the literals before the split only into the left parent and the rest only into the right one, for whichever literal comparison is given, the program's included |
| `ParentLiterals.SingleParentLinksOf` | src/model/clause-orientation.ts:136-160 | dispatching a main-premise inference to the case loops computes the specified links, for whichever literal comparison is given, the program's included |
| `ParentLiterals.TwoParentLinksOf` | src/model/clause-orientation.ts:189-206 | splitting the clause and running the case loops on each part computes the specified two-parent links, for whichever literal comparison is given, the program's included |
| `ParentLiterals.NodeLinksOf` | src/model/clause-orientation.ts:99-208 | the body of the node loop computes the links of one node: none for boundary nodes, formulas, other rules or non-clause parents, and the failures of the asserts and of missing parents, for whichever literal comparison is given, the program's included |
| `ParentLiterals.LinkedSetsLastLink` | src/model/clause-orientation.ts:18 | linking keeps the set of literals, changes only `literalInParent`, and each literal ends up with the parent literal of its last link or keeps its old one |
| `ParentLiterals.SetLiteralsInParent` | src/model/clause-orientation.ts:14-19 | applying the links one by one leaves the literals as the link specification says and the nodes unchanged |
| `ParentLiterals.ComputeParentLiterals` | src/model/clause-orientation.ts:97-211 | every node of the dag, in map order, gets its literals linked; the nodes stay as they were, and the first failing node's error is returned, for whichever literal comparison is given, the program's included |
| `ClauseRepresentation.Push` | src/model/clause-orientation.ts:351-358 | pushing a literal onto one of the three lists adds exactly that literal to their combined contents |
| `ClauseRepresentation.SideOf` | src/model/clause-orientation.ts:331-340 | the lookup succeeds exactly when the literal is in one of the clause's lists, and answers premise exactly when it is in the premise list |
| `ClauseRepresentation.OrientLiteral` | src/model/clause-orientation.ts:276-350 | orienting one literal changes only that literal's entry, keeps its parent literal and whether the user oriented it, and leaves it with a reason |
| `ClauseRepresentation.OrientAll` | src/model/clause-orientation.ts:276-359 | Part 1 over the literals keeps the set of literals and the stored parent links |
| `ClauseRepresentation.OrientAllPermutes` | src/model/clause-orientation.ts:276-359 | Part 1 pushes every literal it visits exactly once: the new lists hold the old ones plus the literals visited |
| `ClauseRepresentation.OrientAllOthers` | src/model/clause-orientation.ts:276-359 | a literal Part 1 does not visit is pushed onto no list |
| `ClauseRepresentation.OrientAllFixed` | src/model/clause-orientation.ts:281-340 | a literal whose side is fixed, inherited from its parent literal or kept from its current list, ends up in that list and in no other |
| `ClauseRepresentation.OrientAllHeuristic` | src/model/clause-orientation.ts:341-349 | without propagation, a literal with no reason yet that occurs once goes to the premise exactly when it is negated and not an equality, and to the conclusion otherwise |
| `ClauseRepresentation.OrientAllReason` | src/model/clause-orientation.ts:327-348 | after Part 1 no visited literal is left without a reason, and a literal is the user's exactly when it was before |
| `ClauseRepresentation.IndexMap` | src/model/clause-orientation.ts:377-394 | the index map is defined on exactly the literals of the list |
| `ClauseRepresentation.IndexMapLast` | src/model/clause-orientation.ts:379-382 | a literal's index is its last position in the list, since later `set` calls overwrite earlier ones |
| `ClauseRepresentation.Insert` | src/model/clause-orientation.ts:396-404 | inserting keeps the contents plus the new literal and keeps a sorted list sorted |
| `ClauseRepresentation.SortBy` | src/model/clause-orientation.ts:396-422 | the stable sort is a permutation of its input and is sorted by the key |
| `ClauseRepresentation.SortByParents` | src/model/clause-orientation.ts:396-404 | the comparator's assertions fail exactly when the list has two or more literals and one lacks an indexed parent literal; otherwise the result is a permutation ordered by the parent literals' positions |
| `ClauseRepresentation.SortPartition` | src/model/clause-orientation.ts:395-422 | sorting the three lists only reorders each of them |
| `ClauseRepresentation.ByMainPremise` | src/model/clause-orientation.ts:370-423 | Part 2 with a main premise only reorders each list |
| `ClauseRepresentation.TwoParentIndexMeaning` | src/model/clause-orientation.ts:432-464 | a literal of the right premise gets an index after all of the left premise's, at its last position in the right list; one only in the left premise gets its last position in the left list |
| `ClauseRepresentation.ByTwoPremises` | src/model/clause-orientation.ts:424-495 | Part 2 with two premises only reorders each list |
| `ClauseRepresentation.Reorder` | src/model/clause-orientation.ts:361-495 | Part 2 only reorders each list |
| `ClauseRepresentation.PartOne` | src/model/clause-orientation.ts:252-359 | Part 1 keeps the set of literals and the parent links, and its three lists are a permutation of the clause's oriented literals |
| `ClauseRepresentation.UpdateClause` | src/model/clause-orientation.ts:252-500 | updating a clause keeps the literal set and the stored references, and does not touch the new-event and active-event lists |
| `ClauseRepresentation.UpdateClausePermutes` | src/model/clause-orientation.ts:497-500 | the clause's new lists together are a permutation of its old lists |
| `ClauseRepresentation.UpdateClauseLists` | src/model/clause-orientation.ts:361-500 | which list a literal ends up in is what Part 1 decided; Part 2 only reorders |
| `ClauseRepresentation.UpdateClauseFixedSide` | src/model/clause-orientation.ts:281-340 | a literal the user oriented stays in its list, and a literal that inherits lands in the list of its parent literal in the parent clause or clauses |
| `ClauseRepresentation.UpdateClauseHeuristic` | src/model/clause-orientation.ts:341-349 | without propagation, a literal that had no reason and occurs once goes to the premise exactly when it is negated and not an equality |
| `ClauseRepresentation.UpdateClauseReasons` | src/model/clause-orientation.ts:327-348 | after the update every literal of the clause has a reason, keeps its parent literal, and the user's literals are the same as before |
| `ClauseRepresentation.PartOneUsers` | src/model/clause-orientation.ts:363-369 | Part 1 does not change which literals the user oriented, so the test for a user literal gives the same answer before and after |
| `ClauseRepresentation.ReorderSingle` | src/model/clause-orientation.ts:370-423 | Part 2 with a main premise orders each list by the positions of the parent literals in the premise's list |
| `ClauseRepresentation.UpdateClauseOrderedSingle` | src/model/clause-orientation.ts:370-423 | with a main premise and no literal oriented by the user, each list comes out in the order its parent literals have in the main premise's list |
| `ClauseRepresentation.ReorderTwo` | src/model/clause-orientation.ts:424-495 | Part 2 with two premises orders each list by the positions in the premises' lists, the right one's after the left one's |
| `ClauseRepresentation.UpdateClauseOrderedTwo` | src/model/clause-orientation.ts:424-495 | with two premises and no literal oriented by the user, each list comes out in the order its parent literals have in the left and then the right premise's lists |
| `ClauseRepresentation.UpdateAt` | src/model/clause-orientation.ts:232-504 | updating the node stored under an id keeps the literal set and the stored references |
| `ClauseRepresentation.Visit` | src/model/clause-orientation.ts:230-504 | a visit of the walk keeps the node ids and all references stored |
| `ClauseRepresentation.Run` | src/model/clause-orientation.ts:228-505 | the walk keeps the node ids and all references stored |
| `ClauseRepresentation.ClauseRepresentation` | src/model/clause-orientation.ts:220-508 | a changed id that is not in the dag fails the first assertion; a successful run keeps the node ids and references stored |
| `ClauseRepresentation.RunUnchanged` | src/model/clause-orientation.ts:228-505 | the walk keeps the dag's shape, only adds to the marked ids, and leaves every unmarked node as it was |
| `ClauseRepresentation.RunMarked` | src/model/clause-orientation.ts:235-504 | a node is marked exactly when it was marked before, or it is an updatable clause node of the walk that is the changed clause, or every node is updated, or it has a marked parent |
| `ClauseRepresentation.ClauseRepresentationMarks` | src/model/clause-orientation.ts:220-508 | over a traversal that lists every node once with parents first, the returned ids are the changed clause and every updatable clause below it (every updatable clause when no id is given), and the other nodes are untouched |
| `ClauseRepresentation.IndexMapInto` | src/model/clause-orientation.ts:434-441 | the loop setting each literal's position into the map gives the old map overridden by the index map |
| `ClauseRepresentation.OrientLiterals` | src/model/clause-orientation.ts:276-359 | Part 1's loop updates the literals in place as the Part 1 specification says and leaves the nodes alone |
| `ClauseRepresentation.FindUserLiteral` | src/model/clause-orientation.ts:363-369 | the loop answers whether some literal of the list was oriented by the user |
| `ClauseRepresentation.SortByMainPremise` | src/model/clause-orientation.ts:370-423 | the three index-map loops and the three sorts compute Part 2 with a main premise |
| `ClauseRepresentation.TwoPremiseIndex` | src/model/clause-orientation.ts:432-464 | the two index-map loops give the specified two-premise index |
| `ClauseRepresentation.SortByTwoPremises` | src/model/clause-orientation.ts:424-495 | the six index-map loops and the three sorts compute Part 2 with two premises |
| `ClauseRepresentation.UpdateNode` | src/model/clause-orientation.ts:252-500 | Parts 1 to 3 replace exactly the node's clause and the literals as specified, or fail with the specified error |
| `ClauseRepresentation.HasChangedParent` | src/model/clause-orientation.ts:240-247 | the loop finds a parent already marked exactly when one exists |
| `ClauseRepresentation.VisitNode` | src/model/clause-orientation.ts:230-504 | the loop body of the walk does what the visit specification says to the dag and the marked set |
| `ClauseRepresentation.ComputeClauseRepresentation` | src/model/clause-orientation.ts:220-508 | the walk over the post-order updates the dag and returns the marked ids as specified |
| `Serialization.FirstIndex` | src/model/serialization.ts:33-38 | the scan finds a position exactly when the literal occurs, and then it is the first position holding that very literal |
| `Serialization.Present` | src/model/serialization.ts:32-40 | only literals that occur in the new-event list are encoded, and a list all of whose literals occur there is kept whole |
| `Serialization.Encode` | src/model/serialization.ts:30-42 | one position is written per literal that occurs in the new-event list |
| `Serialization.Decode` | src/model/serialization.ts:131-134 | decoding succeeds exactly when every position is inside the list, and then gives the literal at each position |
| `Serialization.EncodeDecode` | src/model/serialization.ts:30-42 | every encoded position is in range, and decoding the encoding against the same list gives back exactly the literals that occur there |
| `Serialization.EncodeFirst` | src/model/serialization.ts:33-38 | the encoded position of a literal is its first occurrence in the new-event list |
| `Serialization.ConvertToIndices` | src/model/serialization.ts:30-42 | the nested loop with its early exit computes the encoding |
| `Serialization.ReconstructTerm` | src/model/serialization.ts:164-171 | a term read back has the name and as many arguments as were written |
| `Serialization.TermRoundTrip` | src/model/serialization.ts:164-171 | a term written and read back is the same term, when its variable flags follow the name |
| `Serialization.SerializeLiteral` | src/model/serialization.ts:12-23 | a literal is written with its name and orientation reason; its parent literal is not among the fields written |
| `Serialization.ReconstructLiteral` | src/model/serialization.ts:142-162 | a literal read back has the name written and no parent literal |
| `Serialization.LiteralRoundTrip` | src/model/serialization.ts:142-162 | a literal written and read back is the same literal less its parent literal |
| `Serialization.ReconstructLiterals` | src/model/serialization.ts:128 | the list is read exactly when every literal reads, and then holds each literal read back in order |
| `Serialization.ArenaUnlinked` | src/model/serialization.ts:128 | literals read back carry no parent literal |
| `Serialization.ArenaIds` | src/model/serialization.ts:128 | the fresh literal objects are numbered consecutively and each names the literal read at its place |
| `Serialization.LiteralsRoundTrip` | src/model/serialization.ts:50 | a clause's new-event literals written and read back are its literals less their parent literals |
| `Serialization.SerializeUnit` | src/model/serialization.ts:25-57 | a unit is written with its type; a clause with all its new-event literals and an active-event list that is null exactly when the clause has none |
| `Serialization.ReconstructUnit` | src/model/serialization.ts:116-140 | a missing type fails; a formula needs its text and is read as it is; a clause with any of its five lists missing fails; otherwise the clause's literals are fresh objects in order, every list refers into them, and none has a parent literal |
| `Serialization.EncodedIsFirst` | src/model/serialization.ts:33-38 | the k-th encoded position is the first occurrence of the k-th literal that occurs |
| `Serialization.ListRoundTrip` | src/model/serialization.ts:43-46 | an encoded list decoded against a new-event list of the same length keeps every literal at its place |
| `Serialization.ReconstructClause` | src/model/serialization.ts:121-139 | a clause whose literals and lists all read is read as the clause over the fresh literals with each list decoded |
| `Serialization.UnitRoundTrip` | src/model/serialization.ts:25-57 | a clause written and read back is the same clause up to the identity of its literal objects |
| `Serialization.StatisticsOf` | src/model/serialization.ts:105-108 | the rebuilt statistics map has exactly the keys of the pairs |
| `Serialization.StatisticsLastWins` | src/model/serialization.ts:106-108 | of several pairs with the same key the last one gives the value |
| `Serialization.StatisticsRoundTrip` | src/model/serialization.ts:62-63 | a statistics map written as its entries and read back is the same map |
| `Serialization.ReconstructNode` | src/model/serialization.ts:90-114 | a node with any of its twelve keys missing fails; a node read back has the id and parents written and the unit read back, and its clause refers only to its fresh literals |
| `Serialization.NodeRoundTrip` | src/model/serialization.ts:90-114 | a node written and read back has every field it had, and a clause read back up to the identity of its literals |
| `Serialization.SerializeDag` | src/model/serialization.ts:9-10 | saving fails exactly for a passive dag |
| `Serialization.ReconstructDag` | src/model/serialization.ts:77-78 | a saved dag without its node list fails the assertion |
| `Serialization.ReadNodesStored` | src/model/serialization.ts:79-83 | the nodes and literals read are closed under their references, and the order lists every node once, as the parent-literal computation needs |
| `Serialization.ReadPairReloaded` | src/model/serialization.ts:80-82 | one node read into a partly read dag joins the nodes read back so far |
| `Serialization.ReadSerialized` | src/model/serialization.ts:79-82 | reading the written pairs adds each node, read back, in the same order |
| `Serialization.DagRoundTrip` | src/model/serialization.ts:9-87 | a dag that is not passive, saved and read back, has the same node ids in the same order, each node read back with the same fields and its clause up to the identity of its literal objects |
| `Serialization.AllReadBack` | src/model/serialization.ts:80-81 | each written node reads back as the node it was written from |
| `Serialization.DeserializeDag` | src/model/serialization.ts:72-87 | reading a saved dag builds a new, non-passive dag holding the nodes and literals read, with their parent literals computed by the literal comparison it is given (the program's `literalsMatch` or the corrected one), or fails with the error of the specification |
| `AppHelpers.AppSession.constructor` | visualization-backend/app.py:52-69 | a session holds the history state and the dags it was given |
| `AppHelpers.Candidate` | visualization-backend/app.py:53-61 | the candidate is one step on, one step back, the slider's position or 0, in that precedence, and fails exactly when the slider decides and `int()` rejects its value |
| `AppHelpers.NewHistoryState` | visualization-backend/app.py:63-67 | the stored state always lies between 0 and the dag's last step; a step on from the last step stays there; one back from 0 or 1 gives 0; a candidate inside the range is taken as is |
| `AppHelpers.CalculateNewHistoryState` | visualization-backend/app.py:52-69 | the helper writes the clamped state into the session and nothing else, and fails, leaving the state, exactly when the slider value is not an integer or the session has no dag |
| `AppHelpers.AsList` | visualization-backend/app.py:84-87 | an absent or empty selection is the empty list; otherwise the list succeeds exactly when every comma-separated piece is an integer, and holds those integers in order |
| `AppHelpers.ParseAll` | visualization-backend/app.py:87 | the pieces are read exactly when each is an integer `int()` accepts, and then each value is its piece read |
| `AppHelpers.SelectionRoundTrip` | visualization-backend/app.py:84-87 | any selection of ids written as comma-separated numerals, the empty one included, is read back as the same ids |
| `Representation.StyleOf` | proof_visualization/controller/representation_util.py:5-48 | every colour scheme draws a box, and the hidden one is exactly the one with a transparent background |
| `Representation.ComputeRepresentation` | proof_visualization/controller/representation_util.py:53-67 | theory-axiom colours only for theory axioms; active exactly when the active time is set, non-zero and reached; passive exactly when not active and the passive time is reached; preprocessing exactly when neither is reached and the rule is the preprocessing label; a reached theory axiom is never drawn plain passive |
| `Representation.LaterStateNeverRegresses` | proof_visualization/controller/representation_util.py:53-67 | moving the history forward never takes a node back: its stage does not decrease, theory-axiom colouring stays, and a preprocessing node is never hidden later |
| `Readable.Elem` | visualization-frontend/src/helpers/readable.ts:37-43 | indexing gives an element exactly when the position is inside the list or string, and `undefined` otherwise |
| `Readable.Rest` | visualization-frontend/src/helpers/readable.ts:32 | `splice(1)` works exactly on lists and gives the elements after the first |
| `Readable.ElemSmaller` | visualization-frontend/src/helpers/readable.ts:32-68 | every element but the first is smaller than the list it comes from, so the renderer's recursive calls terminate |
| `Readable.RestSmaller` | visualization-frontend/src/helpers/readable.ts:32 | dropping the first element of a non-empty list makes it smaller |
| `Readable.Render` | visualization-frontend/src/helpers/readable.ts:14-72 | a missing value fails, and an empty list or string renders as the empty string |
| `Readable.RenderAll` | visualization-frontend/src/helpers/readable.ts:57-58 | the children render exactly as each one renders alone, one string per child |
| `Readable.RenderHeadedByConnective` | visualization-frontend/src/helpers/readable.ts:31-33 | a list headed by `and` or `or` renders as its remaining elements joined under that connective's symbol |
| `Readable.RenderUnderConnective` | visualization-frontend/src/helpers/readable.ts:51-59 | under a connective, a list of two or more elements renders as its head, the symbol and a line break, then the rest under the same connective, and fails exactly when one of those parts does |
| `Readable.ConnectiveChildren` | visualization-frontend/src/helpers/readable.ts:51-59 | the children of a connective render joined by the symbol and a line break, with no symbol after the last |
| `Readable.Connective` | visualization-frontend/src/helpers/readable.ts:16-33 | `(and c1 … cn)` and `(or c1 … cn)` render as their children joined by the symbol of `and` or of `or` and a line break |
| `Readable.Infix` | visualization-frontend/src/helpers/readable.ts:35-39 | a comparison or arithmetic operator, and `-` with two operands, renders as `(lhs op rhs)` |
| `Readable.InfixMissingOperand` | visualization-frontend/src/helpers/readable.ts:37-38 | an operator with only one operand reads `undefined` and fails |
| `Readable.Select` | visualization-frontend/src/helpers/readable.ts:41-44 | `(select a i)` renders as `a[i]` with both parts as JavaScript prints them |
| `Readable.Not` | visualization-frontend/src/helpers/readable.ts:46-49 | `(not x)` renders as `!` followed by `x` rendered |
| `Readable.Negative` | visualization-frontend/src/helpers/readable.ts:61-64 | `(- x)` renders as `-x` with `x` as JavaScript prints it |
| `Readable.Labelled` | visualization-frontend/src/helpers/readable.ts:66-69 | any other list headed by a symbol renders as `head: (second)`, dropping later elements |
| `Readable.PlainSymbol` | visualization-frontend/src/helpers/readable.ts:71 | a plain symbol is returned as it is |
| `Readable.Wrapped` | visualization-frontend/src/helpers/readable.ts:4-6 | the result always starts with a bracket; an expression that already does is kept, any other is wrapped in one pair |
| `Readable.WrappedIdempotent` | visualization-frontend/src/helpers/readable.ts:4-6 | wrapping twice is wrapping once |
| `Readable.MatchesShift` | visualization-frontend/src/helpers/readable.ts:78 | matching one position further into the text is matching in the text without its first character |
| `Readable.ReplaceAllSkips` | visualization-frontend/src/helpers/readable.ts:79 | text before the first occurrence of the pattern is copied unchanged |
| `Readable.ReplaceAllNoMatch` | visualization-frontend/src/helpers/readable.ts:79 | a text in which the pattern does not occur is left as it is |
| `Readable.ReplaceAllFirstMatch` | visualization-frontend/src/helpers/readable.ts:78-79 | the first occurrence, in any letter case, is replaced, the text before it kept and the text after it processed in turn |
| `Readable.VarPattern` | visualization-frontend/src/helpers/readable.ts:78 | the pattern `Inv_<i>_n` is never empty |
| `Readable.ReplaceVarNames` | visualization-frontend/src/helpers/readable.ts:74-83 | a rendered tree is returned as it is; a string has each numbered variable pattern replaced by the corresponding name, one name after the other |
| `Readable.ToReadable` | visualization-frontend/src/helpers/readable.ts:3-12 | a reader failure is passed on; without names the rendering is returned as it is; with names a rendered string is renamed and a tree returned unchanged |
| `Readable.RenamesFirstVariable` | visualization-frontend/src/helpers/readable.ts:74-83 | with one name, `Inv_0_n` written in any letter case becomes that name |
| `Network.Widen` | visualization-frontend/src/helpers/network.ts:44-52 | widening keeps the lemma, makes the max `"oo"` when the new level is `"oo"`, and never takes an `"oo"` bound back |
| `Network.Find` | visualization-frontend/src/helpers/network.ts:41-42 | the scan finds the first entry for the lemma, or tells that no entry has it |
| `Network.FindAt` | visualization-frontend/src/helpers/network.ts:41-42 | an entry for the lemma with none before it is the one the scan finds |
| `Network.Record` | visualization-frontend/src/helpers/network.ts:39-59 | after recording, the lemma has an entry; an existing entry is widened in place and a new lemma adds exactly one entry |
| `Network.RecordLemma` | visualization-frontend/src/helpers/network.ts:39-59 | the list loop with its early exit computes the specified update |
| `Network.BuildPobLemmasMap` | visualization-frontend/src/helpers/network.ts:17-62 | the loop over the nodes builds the specified map from pobs to lemma summaries |
| `Network.SummaryBounds` | visualization-frontend/src/helpers/network.ts:39-59 | a lemma's max is `"oo"` exactly when one of its levels was, and otherwise the largest level; its min is `"oo"` exactly when the first level was, and otherwise a level no larger than any finite one |
| `Network.RecordOthers` | visualization-frontend/src/helpers/network.ts:39-59 | recording one lemma leaves the entries of every other lemma where and as they were |
| `Network.RecordSame` | visualization-frontend/src/helpers/network.ts:39-59 | the lemma just recorded keeps the position of its first entry, widened, or gets a new entry at the end |
| `Network.LemmasMeaning` | visualization-frontend/src/helpers/network.ts:17-62 | a pob's list has an entry for a lemma exactly when some lemma-adding node added it to that pob, and the entry summarises the levels it was added at |
| `Network.LemmasUnique` | visualization-frontend/src/helpers/network.ts:17-62 | no pob's list holds two entries for the same lemma |
| `Network.BuildExprMap` | visualization-frontend/src/helpers/network.ts:66-74 | the loop over the nodes builds the specified map from expression ids to expressions |
| `Network.ExprMapLastWins` | visualization-frontend/src/helpers/network.ts:68-71 | every expression id of the tree is a key, mapped to the expression of the last node with that id |
| `Network.ExprMapKeys` | visualization-frontend/src/helpers/network.ts:68-71 | the keys are exactly the expression ids of the nodes |
| `Network.FindSibling` | visualization-frontend/src/helpers/network.ts:89-100 | a sibling found is another node of the sibling list with the same expression; none found means no sibling qualifies; a missing sibling key fails |
| `Network.KeptTrans` | visualization-frontend/src/helpers/network.ts:80-119 | keeping the nodes' identities and only hiding more is transitive |
| `Network.Repoint` | visualization-frontend/src/helpers/network.ts:105-109 | moving the children keeps every node's identity and visibility, and fails exactly when a child is missing from the tree |
| `Network.RepointOne` | visualization-frontend/src/helpers/network.ts:107-108 | moving one child keeps every node's identity and visibility |
| `Network.WithoutNode` | visualization-frontend/src/helpers/network.ts:111-116 | the parent's new child list holds exactly the old children other than the hidden node, and is no longer |
| `Network.LayoutStep` | visualization-frontend/src/helpers/network.ts:80-119 | one iteration keeps the nodes' identities, only hides, and hides every node that is not an expanded pob |
| `Network.LayoutFrom` | visualization-frontend/src/helpers/network.ts:80-119 | the layout keeps every node's identity and never shows a node that was hidden |
| `Network.FindSiblingLoop` | visualization-frontend/src/helpers/network.ts:91-100 | the sibling loop with its early exit computes the specified search |
| `Network.RepointLoop` | visualization-frontend/src/helpers/network.ts:106-109 | the children loop computes the specified move |
| `Network.WithoutNodeLoop` | visualization-frontend/src/helpers/network.ts:111-116 | the filtering loop computes the parent's new child list |
| `Network.PobVisLayout` | visualization-frontend/src/helpers/network.ts:77-122 | the layout of a copy of the tree, every key in iteration order, is the specified layout |
| `Network.LayoutHidesOthers` | visualization-frontend/src/helpers/network.ts:82-85 | after the layout every node that is not an expanded pob is hidden |
| `Network.RepointEffect` | visualization-frontend/src/helpers/network.ts:105-109 | each moved child names the sibling as parent, the sibling's children gain them in order, and every other node is untouched |
| `Network.MergeStep` | visualization-frontend/src/helpers/network.ts:101-118 | a duplicate expanded pob is hidden and leaves its parent's children, its children name the sibling as parent, and when the parent is not the sibling they are appended to the sibling's children |
| `Controller.EmptySelectedParents` | proof_visualization/controller/controller.py:56-61 | the loop fails exactly when a selected id is missing from the dag; on success it gathers the selected nodes and their direct children and every selected node has lost its parents; a node it touches either lost its parents or kept them |
| `Controller.KeyByNumber` | proof_visualization/controller/controller.py:63 | the table maps each gathered node's number to a gathered node with that number, and holds no other key |
| `Controller.ReduceToSelection` | proof_visualization/controller/controller.py:55-65 | the reduction fails exactly when a selected id is missing; on success the selected nodes have lost their parents in place, the new dag holds them and their direct children keyed by number, and its leaves are recomputed |
| `Controller.ReducedTable` | proof_visualization/controller/controller.py:55-65 | in a table keyed by number, the reduced dag holds exactly the selected ids and the ids of their direct children, each with the same node object |
| `Controller.Session.constructor` | proof_visualization/controller/controller.py:12-14 | a fresh session holds the dag and positions, no saved dag, and shows the last step of the history |
| `Controller.SelectionIds` | proof_visualization/controller/controller.py:84 | the selection is read exactly when every entry is an integer, and the set holds exactly those integers |
| `Controller.InitSelectionDag` | proof_visualization/controller/controller.py:78-90 | the dag and positions are saved for the undo; the reduction succeeds exactly when the selection reads and every selected id is in the dag, and then the session holds the reduced dag, its layout and the last history step; on failure the dag, positions and state are kept; only selected nodes lose their parents |
| `Controller.ResetDag` | proof_visualization/controller/controller.py:93-96 | without a saved dag nothing changes; with one the saved dag comes back, with the saved positions, and a missing saved position entry fails |
| `Controller.EdgeData` | proof_visualization/controller/controller.py:33-40 | the edges drawn from a node go to exactly its children present in the dag, each with its visibility at the history state |
| `Controller.EdgeVisibleLater` | proof_visualization/controller/controller.py:37 | an edge once shown stays shown as the history moves on, and an edge to a child with no passive time, or a passive time of 0, is never shown |
| `Controller.ReduceToSelectionCopying` | proof_visualization/controller/controller.py:55-65 | the corrected reduction fails exactly when a selected id is missing; on success it is keyed by number, holds every selected node, and each node is a fresh parentless copy of a selected node or an untouched child |
| `Controller.InitSelectionDagCopying` | proof_visualization/controller/controller.py:78-90 | the corrected selection saves the dag for the undo and, exactly when the selection reads and every id is present, installs the reduced dag with its layout and the last history step |
| `Controller.SelectThenResetCopying` | proof_visualization/controller/controller.py:78-96 | with the corrected reduction, selecting and then resetting gives back the dag and positions exactly as they were, every node keeping its parents |
| `Controller.ResetLosesParents` | proof_visualization/controller/controller.py:55-96 | as written, on the dag 1 to 2, selecting node 2 and then resetting gives back a node 2 that has lost its parent 1 |
| `Controller.ResetKeepsParents` | proof_visualization/controller/controller.py:55-96 | with the corrected reduction, the same steps give node 2 back with its parent 1 |

## Left out

- React and JSX components, styled components and the DOM scripts (`actions.js`, `ui/graph.js`) are user interface, not core logic.
- Flask routes, session pickling and the request objects are left out. The two helpers of `visualization-backend/app.py` take their parameters as a map.
- `init_controller`, `init_dag` and `init_dag_from_file` in `proof_visualization/controller/controller.py` read files and are left out.
- Graph layout is left out. It uses graphviz, pygraphviz and floating-point coordinates. The controller takes `layout` as a function parameter and models only the edge rule of `get_layout`.
- The `json_util.py` files format floats and call `json.dumps`; they are left out.
- `navigation.ts` reads vis.js internals and `diff.ts` wraps a library; both are left out.
- Readable.ToReadable: takes the S-expression parser of `s-exify` as a parameter. Its results are given as an S-expression datatype.
- `JSON.stringify` and `JSON.parse` are not modelled. Only the encoding and decoding of `serialization.ts` are.
- The `$` replacement patterns of JavaScript's `String.replace` are not modelled. Replacement texts are taken literally.
- The `in` check of `readable.ts` also sees names on the object prototype. The model's symbol table holds only its own entries.
- The local `ExprMap` filled at `network.ts:18-23` inside `buildPobLemmasMap` is never read afterwards and is not modelled; the same map as built by `buildExprMap` is.
- The iteration order of JavaScript `for-in`, `Set` and `Map` and of Python sets and dicts is given as a parameter, or left open by a nondeterministic choice.
- Regular-expression matching is replaced by a hand-written recogniser for each grammar.
- Lines are given without their line terminators.
- Python `int()` is modelled as an optional sign followed by ASCII digits. Surrounding whitespace is stripped first, as Python does. Underscores and non-ASCII digits are not accepted.
- Where the JavaScript code would produce `undefined`, the model returns the error `BadType`. The exception is `Serialization.Decode`, described next.
- Serialization.Decode: returns `IndexOutOfRange` for an index past the list of literal objects. In `serialization.ts:131-134`, `.map(n => literalsNewEvent[n])` puts `undefined` in the list there and does not throw. The model has no `undefined` list entries.
- Text.IsDigit, Text.IsWordChar: are ASCII classes. Python 3's `\d`, `\D` and `\w` in `parsing.py` and `vampire_parser.py` also match non-ASCII digits and letters, and `int()` reads non-ASCII digits. Lines with such characters are not modelled.
- Traversal.PostOrder.constructor, Traversal.ReversePostOrder.constructor, Traversal.ReversePostOrder.CollectPostOrder, the members of `Transformations`, `Merge` and `Search.FindCommonConsequences`: require a closed, acyclic dag (`Dags.WellFormed`), which is what the parsers build. The source walks other tables too. On a parent id missing from the dag, `proof_visualization/model/traversal.py:25,34` reads `.parents` of `None` and raises `AttributeError`, and `visualization-frontend/src/model/traversal.ts:38,47` throws a `TypeError`. On a parent cycle the walk's stack grows without end. Neither behaviour is modelled.
- PresenterTree.Iterate, PresenterTree.Repr: require parents to be numbered below their child, the order the prover numbers clauses in. They take the iteration order of the leaf set and of the parent sets as parameters: each set listed once, the same set always in the same order. The walk at `presenter/tree.py:23-27` also ends on any other acyclic parent relation, which the model does not cover. On a parent cycle the source walk never ends.
- TermParsing.Apply, TermParsing.ParseFunctionApplication: return `BadType` when a `)` closes arguments whose name slot holds an applied term, as in `f(a)(b)`. `unit-parser.ts:116-121` then builds `FunctionApplication(f(a()), [b()])`, a term whose name is a term, without throwing. The model's terms have string names, so this is not modelled.
- `traversal.ts:16` and `transformations.ts:80` (in `visualization-frontend/src/model/`) read `dag.leaves`, which the `Dag` class of `dag.ts` does not define. The model's `Dags.Dag` stores its leaves, the ids no node names as a parent.
- `transformations.ts:105` and `:149`, and `visualization-frontend/src/model/clause-orientation.ts:7` and `:10`, read `node.unit`, while `SatNode` in `sat-node.ts` calls that field `clause`. The model's dag nodes hold the clause in `clause`, and `Orientation` is given the clause's literals directly.
- `transformations.ts:37` and `:98` call `node.copy()`, and `:105` and `:149` pass 11 arguments to `SatNode`. `sat-node.ts` has 9 fields and no `copy()`. The model assumes `copy()` returns an equal node. Its `Dags.DagNode` holds all 11 fields these calls pass.
- `proof_visualization/model/node.py:7` lists no `active_time` or `passive_time` in `__slots__`, so setting them raises `AttributeError`. Yet `dag.py:46`, `controller.py:37`, `representation_util.py:55-62` and `transformations.py:101-115` read them. `ProofNode.Node` keeps the slotted fields only. The modules that read the times, `Controller.PyNode` and `Dags.DagNode`, hold them as fields of their own node.
- ParentLiterals.AsWrittenMatcher: runs the program's `literalsMatch` with a fuel bound, and a call that does not end within it is the error `Diverges`. The linking members take the comparison as a parameter, so they hold for this matcher and for `ParentLiterals.CorrectedMatcher`.
- `src/model/util.ts` `assert` is modelled as the error `AssertionFailed`.
- ParentLiterals.ComputeParentLiterals: treats each node as atomic. If a node fails part-way through, the links already set for it are not modelled.
- ClauseRepresentation.ComputeClauseRepresentation: says nothing about the state after a failure. The source throws part-way through, after partial updates.
- Substitutions.ComputeSubstitution: runs with a fuel bound and returns `OutOfFuel` when it is used up. Each re-match through a bound variable costs one unit. The JavaScript stack overflow on the diverging input is not modelled.
- Dropping a node's parents in place at `proof_visualization/controller/controller.py:60` contradicts the design claim that transformations never mutate a dag. The model follows the code. The Findings table says what it breaks.
- The two-argument `Dag` at `proof_visualization/model/parsing.py:59` does not match the one-argument class; each file is modelled on its own terms.
- The six-argument `Node` at `proof_visualization/model/transformations.py:98` does not match the four-argument class; each file is modelled on its own terms.
- `transformations.py` and `search.py` call `hasNext`/`getNext`, but `traversal.py` defines `has_next`/`get_next`. Each file is modelled on its own terms.
- The three-argument `compute_representation` call at `proof_visualization/controller/controller.py:43` does not match the two-argument function. The model uses the function as defined.
- `traversal.ts` reads an unbound `length`, which in a browser is `window.length`, taken to be 0. `Traversal.PostOrder.HasNextUnbound` models that reading.
- Logging, `print` calls and the import side effects of `vampire_parser.py` are left out.
- `toVisNode`, `toVisEdge` and `getSliderValue` convert to vis.js objects and the slider; they are left out.
- The plain data records (`inference_node.py` in its four places, `sat-node.ts`, `network/*.ts`) have no behaviour beyond their fields, which the modules above use.
- `presenter/util.py` repeats `count_repr`, `title_repr`, `set_repr` and `separator` of `proof_visualization/model/util.py` word for word. Only its `last_line`, which differs, has its own member.
- The history times are unbounded integers. No overflow can occur in the Python and JavaScript sources for the sizes they handle.

## Findings

| source | as written | input that shows it | evidently intended | confidence | as-written member | corrected member |
|---|---|---|---|---|---|---|
| visualization-frontend/src/model/dag.js:45-48 | `lastStep` passes `this.numberOfHistorySteps` to `Math.max` without calling it, so the result is NaN | any dag | the number of history steps, or 0 for none | not executed | `Dags.LastStepAsWrittenIsNaN` | `Dags.LastStepCorrected` |
| proof_visualization/model/parsing.py:48 | storing a parsed node replaces the placeholder created for it by an earlier child, dropping that child | a child's line read before its parent's line | the parent keeps the children recorded so far | not executed | `ActiveParsing.PlaceholderOverwriteDropsChild` | `ActiveParsing.AnalysedKeepingChildrenIsExact` |
| src/model/substitution.ts:97-104 | a variable already bound is matched again through its binding, which can recurse forever | p(Y,Z,Z,Y,c) matched against p(X,X,W,W,X) | the binding is compared with the term and matching always ends | not executed | `Substitutions.SubstitutionDiverges` | `Substitutions.SubstitutionCorrectedMeaning` |
| src/model/substitution.ts:97-104 | matching a term against a bound variable's binding can bind a variable of the instance, so a non-instance is accepted | p(Y,c) matched against p(X,X); factoring p(Y,c) from p(X,X) and r then links the literal to p(X,X) | a bound variable matches only the term it is bound to | not executed | `Substitutions.UnsoundMatch` | `Substitutions.SubstitutionCorrectedMeaning` |
| proof_visualization/controller/controller.py:60 | reducing to a selection empties the parents of the shared node objects, so the dag kept for reset has lost them | the dag 1 to 2, select node 2, then reset | reset restores the dag as it was | not executed | `Controller.ResetLosesParents` | `Controller.ResetKeepsParents` |
