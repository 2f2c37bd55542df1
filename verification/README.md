# Waypoint cuts, fences and the analyses behind them

A Dafny model of the part of the compiler passes that decides where speculation fences go, with proofs about
it. A function is turned into a weighted graph over its instructions. Each leak is a list of node sets W0, ...,
Wk-1: a walk leaks if it visits W0, then W1, and so on, with at least one edge between consecutive visits. The
solver looks for a light set of edges that every such walk uses, and a fence is put on each of them. Four
analyses say which instructions belong into the sets. The modules, bottom up:

- `Graphs`, `Waypoints`: graphs of 32-bit weights, walks, visiting sets in order, separation, and the staged
  view of separation that the searches compute.
- `Search`, `ScopedGraphs`, `LevelGraphs`: the staged depth-first search with its trace-back, the copy-on-write
  graph as a class, the k-fold copy of a graph.
- `Lifting`, `Climbing`, `Weights`, `Cuts`, `Residual`, `SimpleWalks`, `EdgeLists`, `Runs`, `MaxFlow`,
  `FordFulkerson`: the cut of one list by a maximum flow in the lifted graph. `Runs` speaks of every run that the
  residual loop can take, whatever walks the search happens to return.
- `RepeatedPushes`, `LoopRuns`, `DoubleUse`: walks that use an edge twice, and for which lists they break the bound
  on the weight of the cut.
- `Simplify`, `Dropping`, `SimplifyLists`, `Joining`, `IrreducibleLists`, `Optimize`: simplification of the lists, and
  what is left of them in terms of walks.
- `DriverRuns`, `MinCutGreedy`: the greedy driver. `DriverRuns` says which sequences of passes and modes it can take.
- `Fences`, `SpeculativeCfg`: the insertion of the fences and the graph of a function.
- `Executions`, `Reentry`: executions that leave the function and enter it again with calls pending, and which of
  their steps the edges of the graph stand for.
- `Mitigation`: `MitigateFunction` chains graph construction, cut, check and insertion, and states the end-to-end theorem.
- `SpeculativeTaint`, `NonspeculativeTaint`, `Recursion`, and `PointerValues`, `AddressMeaning`, `ConstantAddress`: the
  fixpoint analyses with their short cuts, and what a constant address is.

Terms used below: a graph `PairsFit` if the weights of u->v and v->u together stay below 2^32 for all u and v.
A run is `Simple` if no augmenting walk uses an edge twice. `NearMinimal` means at most k-1 times the weight of
any separating set, which for k = 2 is least weight. `fuel` bounds the number of augmentations of one cut, and
`done` says that it was enough.

## Findings

- With a middle set of two or more nodes, an augmenting walk can use an edge of the lifted graph twice. Line 910 of
  `src/FordFulkerson.cc` then subtracts the flow twice and the unsigned weight wraps around. The cut still separates,
  but its weight can exceed k-1 times the least one. `DoubleUse.BoundIffSingletons` says exactly when: for a list of
  disjoint non-empty sets the bound holds on all graphs and runs if and only if no middle set has two nodes; else
  `DoubleUse.FarFromMinimal` gives a graph and a run of two augmentations with a cut of weight k where 1 is enough.
  If no middle set has two nodes, which includes every list of two sets, then on graphs that fit (`PairsFit`) nothing
  wraps, the loop ends and the weight is within k-1 of the optimum.
- The test marked "This is sound, right?" at line 88 of `src/analysis/SpeculativeTaintAnalysis.cc` is not complete:
  `SpeculativeTaint.TestLosesTaint` gives five instructions for which a tainted load is missed. The result is never
  too large. It is exact if and only if no store was left behind, and that is so for every program in which nothing
  after a store in layout order brings a tainted load, one that does reach it, to the stored value.
- Dropping a middle set B that cannot be bypassed may add walks to be cut (`Dropping.DropCanForbidMore`).
  `Dropping.DropIsExactIff` gives the exact condition in any list: no walk that comes out of the sets before enters B
  for the first time in a node that the next set C shares, and leaves through the sets after without another visit
  of C. It is met if no two sets from the second on share a node. All other simplifications keep the same walks.
- The graph has an edge from every way out of the function to every way in but for the same instruction (line 1100 of
  `src/MitigatePass.cc`). `Reentry.EdgesAreStepsIff` shows that this is right for two different instructions. But an
  instruction that is both, such as a call that the function starts with, can follow itself without an edge
  (`Reentry.SelfStepIsNoEdge`), so a list with that instruction in two consecutive sets is not cut there.
- A call that ends its block is a way out, but where it comes back to is no way in, since line 1092 looks at the previous
  instruction of the block only. `Reentry.CallAtBlockEndIsNoEdge` gives three instructions with a step that has no edge,
  `Reentry.AllStepsAreEdgesIff` the exact condition.
- The branch at line 1352 of `src/MitigatePass.cc` that returns no mitigation point cannot be taken: an instruction
  that is not first in its block has one predecessor (`SpeculativeCfg.SplitTargetsStartBlocks`), so the edge is not
  one to split. The fence insertion here always places a fence.

## Model

| member | source | states |
|---|---|---|
| Waypoints.StagesDecide | src/FordFulkerson.cc:546-579 | the waypoints are separated exactly when nothing of the last set is left after restricting each set to what the previous rest reaches |
| Search.Discover | src/FordFulkerson.cc:551-568 | the parents found by the search cover exactly the nodes reached over one or more edges, and follow a discovery order in which every parent comes before its child |
| Search.TraceLeg | src/FordFulkerson.cc:582-595 | following parents back ends because of the discovery order, in a walk from a source to the target that meets no source in between |
| Search.FindStPathMulti | src/FordFulkerson.cc:536-600 | finds a path if and only if some walk visits the sets in order, and the path is such a walk edge by edge, joined from one traced leg per set |
| Search.FindReachableMulti | src/FordFulkerson.cc:637-657 | returns exactly the sources and what they reach |
| ScopedGraphs.ScopedGraph.GetWeight | src/FordFulkerson.cc:424-436 | agrees with the rows that iteration shows |
| ScopedGraphs.ScopedGraph.PutWeight | src/FordFulkerson.cc:438-455 | changes exactly one weight, or removes the edge for weight zero; the base graph is untouched |
| ScopedGraphs.PutsRefineWeightMap | src/FordFulkerson.cc:357-459 | after any writes each weight is the one written last or else the base's, an edge is listed if and only if that weight is positive, and no edge of weight zero is listed |
| LevelGraphs.LiftDecodes | src/FordFulkerson.cc:314-344 | level and base node of a lifted node are the ones it was made from |
| LevelGraphs.LiftEncodes | src/FordFulkerson.cc:314-344 | a lifted node is made again from its level and base node |
| LevelGraphs.LevelIsArithmetic | src/FordFulkerson.cc:314-320 | level and base node are quotient and remainder by the number of nodes |
| LevelGraphs.DupGraph.GetFirstLevelNode | src/FordFulkerson.cc:337-339 | gives the base node |
| LevelGraphs.DupGraph.Row | src/FordFulkerson.cc:322-328 | a copied row holds exactly the edges of the base row, shifted into the level of their source, with the same weights |
| Lifting.DivertRow | src/FordFulkerson.cc:962-976 | diverting the edges of one node into the next level, in whatever order its row is listed, gives the lifted weights for one node more |
| Lifting.BuildLifting | src/FordFulkerson.cc:951-981 | the writes to the copies give the graph in which every edge into W(i) at level i-1 leads to level i instead, and the lifted sets |
| Lifting.VisitsClimb | src/FordFulkerson.cc:957-981 | a walk through the graph that has visited W0 to Wj is at level j or above in the lifted graph |
| Lifting.LiftingStaysInside | src/FordFulkerson.cc:957-992 | a walk that avoids the projected cut, lifted level by level, never leaves the near side |
| Lifting.ProjectedCutSeparates | src/FordFulkerson.cc:957-992 | the projection of any cut of the lifted graph between first and last set separates the waypoints of the graph |
| Climbing.LiftingClimbs | src/FordFulkerson.cc:962-976 | an edge of the lifted graph stays in its level or climbs to the next one into a node of that level's set, and projects to an edge of the same weight |
| Climbing.ClimbVisits | src/FordFulkerson.cc:902-914 | a residual walk from W0 up to level j visits the lifted W0 to Wj in order |
| Climbing.BaseWalkVisits | src/FordFulkerson.cc:988-992 | a walk through the lifted sets projects to a walk through the sets |
| Climbing.StagedIsPlain | src/FordFulkerson.cc:902-938 | in every residual graph the staged search succeeds exactly when the last set is plainly reachable from the first |
| Residual.PushedKeepsResidual | src/FordFulkerson.cc:909-912 | even with wrap-around, augmenting makes no edge that is neither one of the graph nor the reverse of one |
| Residual.PushedExactly | src/FordFulkerson.cc:909-912 | on an edge-simple walk nothing wraps and every pair of opposite weights keeps its sum |
| Residual.PushedAcross | src/FordFulkerson.cc:909-912 | along an edge-simple walk out of a set, the residual weight leaving the set falls by the flow if the walk ends outside and else not at all |
| Residual.AugmentFlowed | src/FordFulkerson.cc:902-914 | after an augmentation every cut between the end sets has lost exactly the total flow |
| Residual.SaturatedCutIsMinimal | src/FordFulkerson.cc:931-938 | a cut with nothing left in the residual graph weighs no more than any other between the end sets |
| Cuts.ProjectionLosesWeight | src/FordFulkerson.cc:988-1008 | the projected edges, each counted once, weigh no more than the lifted ones |
| Cuts.LiftedCutWeighs | src/FordFulkerson.cc:957-981 | a separating set of edges, copied to the levels below the last, is a cut of the lifted graph of at most k-1 times its weight |
| Cuts.SourceCutWeighs | src/FordFulkerson.cc:957-981 | what leaves the first set in the lifted graph weighs at most all edges of the graph, which bounds the flow |
| SimpleWalks.LegStaysAbove | src/FordFulkerson.cc:536-600 | the j-th leg of a traced walk, from a level whose set has one node, does not fall below that level |
| SimpleWalks.LegStaysBelow | src/FordFulkerson.cc:536-600 | the leg into a set of one node does not reach that set's level before its end |
| SimpleWalks.SingletonMiddlesAreSimple | src/FordFulkerson.cc:536-600 | if no middle set has two nodes, the walk that the search returns uses no edge twice |
| EdgeLists.UniqueStrict | src/FordFulkerson.cc:994-1008 | sorting, then dropping equal neighbours, leaves a strictly ascending list of the same edges |
| EdgeLists.UniqueOfDistinct | src/include/clou/MinCutGreedy.h:409-410 | without duplicates, removing duplicates in place changes nothing, so the vector need not be resized |
| Runs.RunKeeps | src/FordFulkerson.cc:902-914 | every run keeps the residual shape; a simple run keeps all pair sums and takes exactly its total flow off every cut; between singletons every run is simple; each augmentation adds to the flow |
| Runs.RunsEnd | src/FordFulkerson.cc:902-914 | a simple run has no more augmentations than the edges of the graph weigh, and between singletons every run is simple |
| Runs.FlowIsBounded | src/FordFulkerson.cc:902-914 | the total flow is at most the weight of all edges |
| Runs.SearchFailed | src/FordFulkerson.cc:931-938 | when the search fails, what the first set reaches excludes the last set and no residual edge leaves it |
| Runs.CutIsNearMinimal | src/FordFulkerson.cc:931-938 | the projected cut weighs at most k-1 times any separating set of edges |
| Runs.StuckRunCuts | src/FordFulkerson.cc:892-938 | after any run the projected cut separates the waypoints, and after a simple run it weighs at most k-1 times any separating set |
| Runs.FlowCutSeparates | src/FordFulkerson.cc:892-1011 | the same of the cut of any run, whatever its lifted graph |
| FordFulkerson.PathFlow | src/FordFulkerson.cc:904-907 | the flow is positive, no edge of the walk has less, and some edge has exactly that unless none is below the maximal weight |
| FordFulkerson.Augment | src/FordFulkerson.cc:909-912 | the residual rows afterwards are those of one push per edge of the walk, in 32-bit arithmetic |
| FordFulkerson.CollectLeaving | src/FordFulkerson.cc:932-938 | returns exactly the edges of the lifted graph that leave the reached nodes |
| FordFulkerson.Project | src/FordFulkerson.cc:988-1008 | returns the base edges of the given ones, strictly ascending |
| FordFulkerson.Saturate | src/FordFulkerson.cc:900-914 | the residual graph is the end of a run; either the last search failed or all fuel is used; nothing is augmented if the sets are separated |
| FordFulkerson.FordFulkersonMultiImpl | src/FordFulkerson.cc:892-947 | returns the edges that leave a side whose projection separates the waypoints, near minimal after a simple run, and for two sets of the weight of the total flow |
| FordFulkerson.FordFulkersonMulti | src/FordFulkerson.cc:949-1011 | for every graph and every k >= 2, a result is exactly the cut that the run leaves, listed by source and then by target, each edge once; every walk through the sets uses one of its edges; it is empty if there is no such walk; for two sets it weighs exactly the total flow and no separating set weighs less; after a simple run it weighs at most k-1 times any separating set; if no middle set has two nodes the run is simple, and with enough fuel it is done |
| MaxFlow.ReachStaysBelow | src/FordFulkerson.cc:932-938 | after the search failed the first set reaches nothing at the last level, so for two sets it stays in level 0 |
| MaxFlow.MaxFlowIsMinCut | src/FordFulkerson.cc:892-938 | for two sets, whatever the run, the projected edges that leave the final reach weigh the total flow, so the projection loses no weight |
| RepeatedPushes.PushedOnce | src/FordFulkerson.cc:909-912 | an edge used once loses the flow once, modulo 2^32 |
| RepeatedPushes.PushedTwice | src/FordFulkerson.cc:909-912 | an edge used twice loses the flow twice, modulo 2^32 |
| DoubleUse.FarFromMinimal | src/FordFulkerson.cc:902-938 | for every list of disjoint non-empty sets with two nodes in a middle one there is a graph with a run of two augmentations along one walk, after which a weight has wrapped to 2^32 - 1, the search fails, and the cut separates but weighs more than k-1 times a separating set |
| DoubleUse.BoundIffSingletons | src/FordFulkerson.cc:892-1011 | for lists of disjoint non-empty sets, the cut is within k-1 of any separating set on all graphs and runs if and only if no middle set has two nodes |
| DoubleUse.LoopWalkIsStaged | src/FordFulkerson.cc:536-600 | the walk that uses an edge twice is joined from legs as the trace-back finds them |
| LoopRuns.LoopRun | src/FordFulkerson.cc:902-914 | two augmentations along such a walk, of flow 1 and k-1, leave nothing on its first edge |
| Simplify.CullUnreachables | src/include/clou/MinCutGreedy.h:59-90 | each set keeps exactly what the rest of the previous one reaches, and `changed` says whether that is less |
| Simplify.CullUnreachablesKeepsWalks | src/include/clou/MinCutGreedy.h:59-90 | exactly the same walks visit the sets in order afterwards |
| Simplify.ReachesDirectly | src/include/clou/MinCutGreedy.h:100-121 | the search with early exit tells whether the source reaches the next set without passing another source |
| Simplify.CullSourcesOf | src/include/clou/MinCutGreedy.h:95-131 | although sources are erased while later ones are searched, exactly those are kept that reach the next set without passing another one of the original set |
| Simplify.CullSources | src/include/clou/MinCutGreedy.h:92-134 | every set but the last is culled that way, against the still unculled next set |
| Simplify.CullSourcesKeepsWalks | src/include/clou/MinCutGreedy.h:92-134 | exactly the same walks visit the sets in order afterwards |
| Dropping.RemoveRedundantInternal | src/include/clou/MinCutGreedy.h:160-202 | drops, from the front, every middle set that no walk between its neighbours bypasses |
| Dropping.DropRedundantKeepsWalks | src/include/clou/MinCutGreedy.h:160-202 | every walk through the list goes through the shorter one |
| Dropping.DropsAreExactIff | src/include/clou/MinCutGreedy.h:160-202 | the whole pass adds no walk if and only if each of its drops meets the exact condition |
| Dropping.ApartIsExact | src/include/clou/MinCutGreedy.h:160-202 | it adds no walk if no two sets from the second on share a node, and that stays so |
| Dropping.DropIsExactIff | src/include/clou/MinCutGreedy.h:189-196 | in any list, dropping set B before C is exact if and only if no walk arrives from the sets before, enters B first in a node of C, and leaves through the sets after without another visit of C |
| Dropping.DropOfThreeIsExactIff | src/include/clou/MinCutGreedy.h:189-196 | for three sets: if and only if no node of A reaches a common node of B and C before any other node of B |
| Dropping.DropCanForbidMore | src/include/clou/MinCutGreedy.h:189-196 | for one edge 0 -> 1 and the sets {0}, {1}, {1} the pass makes a separated list one that is not |
| SimplifyLists.RemoveEmptySets | src/include/clou/MinCutGreedy.h:139-158 | the swap with the last list removes lists with an empty set and no others, and lowers the size if it removes any |
| SimplifyLists.RemoveEmptySetsKeepsWalks | src/include/clou/MinCutGreedy.h:139-158 | the same walks go through some list as before |
| SimplifyLists.RemoveDuplicates | src/include/clou/MinCutGreedy.h:204-210 | the same lists, each once, and `changed` says whether any was dropped |
| Joining.MergeAllJoins | src/include/clou/MinCutGreedy.h:228-249 | merging lists that agree but for column i keeps the walks and the disjointness of later sets, leaves no two lists to merge in that column, and lowers the size if it merges any, else changes nothing |
| Joining.JoinAt | src/include/clou/MinCutGreedy.h:228-249 | one column of one pool is merged that way |
| Joining.Join | src/include/clou/MinCutGreedy.h:212-258 | over all pools and columns the walks through some list stay the same, no list has a new length or a new node, the size falls if a list disappears, and if none does then no two lists differ in one column only |
| Optimize.OptimizeList | src/include/clou/MinCutGreedy.h:298-300 | the passes over one list in their order keep its walks, and add none if and only if the drops are exact; a changed list is smaller, an unchanged one is settled for each pass |
| Optimize.OptimizeRound | src/include/clou/MinCutGreedy.h:293-302 | a changing round lowers the number of lists, sets and members; after an unchanged one no pass has anything left to do |
| Optimize.OptimizeSts | src/include/clou/MinCutGreedy.h:263-307 | the rounds end; every walk through an original list goes through a simplified one; what is left is irreducible: each node leads directly into the next set and is reached from the one before, no middle set is met by all walks between its neighbours, no set is empty, no list is there twice and two lists of one length differ in two columns; lists that are separated already leave nothing |
| IrreducibleLists.SettledIsIrreducible | src/include/clou/MinCutGreedy.h:59-202 | a list that no pass changes is irreducible, in walks |
| IrreducibleLists.UnjoinableIsFarApart | src/include/clou/MinCutGreedy.h:212-258 | lists that are not joined differ in two columns |
| IrreducibleLists.SeparatedIsEmptied | src/include/clou/MinCutGreedy.h:59-90 | the last set of a separated list becomes empty, so the list goes |
| Optimize.SeparatingSimplified | src/include/clou/MinCutGreedy.h:263-307 | edges that separate all simplified lists separate all original ones, and conversely if no walk was added, as for lists in which no two sets from the second on share a node |
| MinCutGreedy.Restore | src/include/clou/MinCutGreedy.h:391-399 | puts the old cut back with original weights, and each edge was absent before |
| MinCutGreedy.Remove | src/include/clou/MinCutGreedy.h:420-427 | the working graph is the original without the cuts, whether or not an edge was still there |
| MinCutGreedy.CutVector | src/include/clou/MinCutGreedy.h:402-410 | the new cut with the kept old one, strictly ascending, although the vector is not resized after removing duplicates |
| MinCutGreedy.RecomputeCut | src/include/clou/MinCutGreedy.h:389-434 | the working graph stays the original without all cuts, the list is separated by all cuts together, the new cut is near minimal against the other cuts in Replace mode, and an Augment step leaves a list alone that is separated already |
| MinCutGreedy.FoundCut | src/include/clou/MinCutGreedy.h:401-434 | a cut found in the graph without the other cuts is disjoint from them and separates together with them |
| MinCutGreedy.StepGrows | src/include/clou/MinCutGreedy.h:407-434 | a changing Augment step only adds edges, and at least one |
| MinCutGreedy.RecomputeAll | src/include/clou/MinCutGreedy.h:386-444 | one pass keeps the cuts sorted, disjoint and the working graph in step; a pass without change leaves every list separated by all cuts; `changed` is exact |
| MinCutGreedy.CutsAmongAll | src/include/clou/MinCutGreedy.h:446-448 | every state of the cuts is one of finitely many, so Replace passes end or repeat |
| MinCutGreedy.ComputeCuts | src/include/clou/MinCutGreedy.h:376-471 | the loop ends in either mode and wherever time runs out, with every list separated by disjoint cuts; the passes follow each other as in the code: Replace until a state of all cuts comes back or time is up, then Augment, and only the last pass changes nothing |
| DriverRuns.PassNext | src/include/clou/MinCutGreedy.h:389-434 | recomputing one more cut, as a cut that some flow run leaves in the graph without the others, prolongs the pass |
| MinCutGreedy.FoundIsNew | src/include/clou/MinCutGreedy.h:401-434 | the cut found, with the old one in Augment mode, is the new cut of the pass |
| MinCutGreedy.Concat | src/include/clou/MinCutGreedy.h:457-481 | all cuts in a row have no duplicate, which is what the size check compares |
| MinCutGreedy.CheckCutST | src/include/clou/MinCutGreedy.h:487-533 | passes if and only if the edges separate the list |
| MinCutGreedy.CheckCut | src/include/clou/MinCutGreedy.h:535-541 | passes if and only if the edges separate every list |
| MinCutGreedy.SoleListIsNearMinimal | src/include/clou/MinCutGreedy.h:311-482 | the cut of a single list, if no middle set has two nodes and no two sets from the second on share one, weighs at most k-1 times any separating set: for two sets it is of least weight |
| MinCutGreedy.MinCut.Run | src/include/clou/MinCutGreedy.h:311-482 | records, one after the other, the disjoint cuts of the irreducible lists that the passes end with, and nothing else; without them no walk passes through any list that was added; if Replace was never left, each cut is what a flow run leaves in the graph without the other cuts, and near minimal there if no middle set has two nodes; lists that are separated already record nothing; it ends for lists of two sets and for a single list with no two nodes in a middle set, with a near minimal cut in the latter case if the sets are disjoint; the final check never fails |
| Fences.EraseNode | src/MitigatePass.cc:1346-1358 | erasing a new node from a walk gives a walk of the function before |
| Fences.InsertNode | src/MitigatePass.cc:1346-1358 | every walk of the function before is one after, with the new node inserted where needed |
| Fences.InsertedBeforeIsFenced | src/Mitigation.cc:61-68 | a fence in front of an instruction is on every way into it |
| Fences.SplitIsFenced | src/MitigatePass.cc:1353-1354 | a fence on a split edge is on every way along that edge |
| Fences.SplitKeeps | src/MitigatePass.cc:1346-1354 | splitting an edge keeps the old walks, of the control flow alone and with back edges, the fences placed before, the edges still to split and which targets have several predecessors |
| Fences.InsertKeeps | src/MitigatePass.cc:1355-1357 | inserting in front of a target with one predecessor keeps the same, and back edges go through the fence too |
| Fences.FencedFunction.Mitigate | src/MitigatePass.cc:1277-1308 | with a fence for each edge of the cut, in any order, the control flow alone and with back edges is what it was but for fences, and every way along a cut edge has a fence; edges outside the cut stay as they are if their target has a second predecessor or no cut edge leads to it; the function starts with a fence exactly if a cut edge leads to its start |
| Fences.MultiIsSecond | src/MitigatePass.cc:1341-1344 | a target has several predecessors exactly if one of its edges has a second one beside it |
| Fences.SparedWalk | src/MitigatePass.cc:1277-1308 | a walk over edges that need no fence is still there and crosses none |
| Fences.EraseWalk | src/MitigatePass.cc:1277-1308 | any walk of the fenced function, erased to original instructions, is a walk of the original one, and if it crosses no fence it uses no cut edge |
| Fences.RestoreWalk | src/MitigatePass.cc:1277-1308 | every original walk is the erasure of some walk of the fenced function |
| Fences.FaithfulWalks | src/MitigatePass.cc:1277-1308 | both directions: erasing fences gives exactly the original walks |
| Fences.FencesStopWaypointWalks | src/MitigatePass.cc:1277-1308 | a walk of the fenced function that visits the sets in order crosses a fence |
| SpeculativeCfg.PredecessorsAreConverse | src/util.cc:278-300 | successors and predecessors of instructions are converse relations |
| SpeculativeCfg.EntriesHaveOnePredecessor | src/MitigatePass.cc:1089-1101 | no target of a back edge has several control-flow predecessors, so its edge is never one to split |
| SpeculativeCfg.SplitTargetsStartBlocks | src/MitigatePass.cc:1346-1353 | an instruction with several predecessors is the first of its block, so every edge of the cut gets a mitigation point |
| SpeculativeCfg.BuildGraph | src/MitigatePass.cc:1064-1102 | the edges are the control flow and one from each exit to each other entry; a back edge weighs 1 unless control flow has the same edge, whose weight is kept |
| Executions.FollowsIff | src/MitigatePass.cc:1080-1102 | exactly which instructions can follow each other in executions with calls pending: by control flow, from a call or return to the start, and to behind a pending call |
| Reentry.EdgesAreStepsIff | src/MitigatePass.cc:1080-1102 | two different instructions can follow each other exactly if the graph has an edge between them and both are reached, when a return may go behind any pending call |
| Reentry.StrictStepsIff | src/MitigatePass.cc:1098-1101 | when it may go behind the last one only, all edges are left but those from a call to behind another call |
| Reentry.AllStepsAreEdgesIff | src/MitigatePass.cc:1089-1096 | with calls that end blocks, the graph has all such steps exactly if control flow leads to where such a call comes back from all that leaves the function |
| Reentry.SelfStepIsNoEdge | src/MitigatePass.cc:1100 | a function that starts with a call can come from the call to the same call without an edge |
| Reentry.CallAtBlockEndIsNoEdge | src/MitigatePass.cc:1092-1094 | a return can go behind a call that ends its block without an edge |
| Mitigation.CheckFunction | src/MitigatePass.cc:199-239 | the check of the cut over the control flow passes if and only if the cut separates every list there |
| Mitigation.FencesStopExecutions | src/MitigatePass.cc:1277-1308 | an execution of the fenced function that visits the sets in order crosses a fence, also when it leaves the function and enters it again |
| Mitigation.MitigateFunction | src/MitigatePass.cc:1064-1308 | the whole pass: the cut is recorded list by list as by the driver, the check of the original lists passes; without the fences the function has exactly the control flow it had, and so has the graph with back edges; walks that need no fence have none; each walk and each execution that visits the sets of a list in order crosses a fence; it ends for lists of two sets |
| SpeculativeTaint.PartialIsSound | src/analysis/SpeculativeTaintAnalysis.cc:77-193 | at every point of a round each taint comes from a load by a chain of uses and of loads that may read a store |
| SpeculativeTaint.RoundServesStores | src/analysis/SpeculativeTaintAnalysis.cc:85-92 | if nothing after a store brings a load to its value that does reach it, a round with the test passes every stored taint on to its readers |
| SpeculativeTaint.ChainIsFound | src/analysis/SpeculativeTaintAnalysis.cc:74-195 | at a fixpoint with all stores served, every chain from a non-constant-address load is found |
| SpeculativeTaint.FixpointIsExact | src/analysis/SpeculativeTaintAnalysis.cc:74-195 | a fixpoint, with or without the test, holds exactly the loads with a chain if and only if every store was served |
| SpeculativeTaint.Analyze | src/analysis/SpeculativeTaintAnalysis.cc:72-195 | the loop ends in the iterated rounds; the result is within the chains, exact without the test, exact with it if stores come last, and in general if and only if all stores were served |
| SpeculativeTaint.ChangedIsServed | src/analysis/SpeculativeTaintAnalysis.cc:85-92 | what a store writes when its value has changed in the round is in the final taint of all that may read it |
| SpeculativeTaint.SpeculativeTaintAnalysis.RunOnFunction | src/analysis/SpeculativeTaintAnalysis.cc:72-206 | ends with the rounds with the test: loads taint themselves, operands their results, and stores whose value has changed at their visit all that may read them; within the chains, and exact if and only if all stores were served |
| SpeculativeTaint.TestLosesTaint | src/analysis/SpeculativeTaintAnalysis.cc:88-90 | for five instructions the loop with the test stops although a load reaches an instruction without tainting it |
| SpeculativeTaint.SpeculativeTaintAnalysis.Secret | src/analysis/SpeculativeTaintAnalysis.cc:208-215 | an instruction is secret only if some load reaches it, and whenever one does if the taints are exact |
| PointerValues.ConstantIffArgs | src/analysis/ConstantAddressAnalysis.cc:63-91 | a value is a constant address if and only if nothing spoils it and all arguments it is built from are in the sets |
| AddressMeaning.SteadyIff | src/analysis/ConstantAddressAnalysis.cc:63-91 | nothing spoils a value if and only if, whatever its arguments, the addresses it can have are the same for all results of loads, calls, PHIs, integer casts and variable indices |
| AddressMeaning.SteadyArgIff | src/analysis/ConstantAddressAnalysis.cc:33-58 | no chain of callers refutes an argument if and only if the addresses it can have, over any number of levels of calls, are the same in all such runs |
| AddressMeaning.SteadyValueIff | src/analysis/ConstantAddressAnalysis.cc:63-91 | the same for a value in the program |
| ConstantAddress.SurvivorsAreIrrefutable | src/analysis/ConstantAddressAnalysis.cc:33-58 | an argument survives a consistent and sound state if and only if no finite chain of callers refutes it |
| ConstantAddress.GreatestAmongConsistent | src/analysis/ConstantAddressAnalysis.cc:33-58 | such a state holds every other consistent one |
| ConstantAddress.CheckCall | src/analysis/ConstantAddressAnalysis.cc:40-55 | erasing while walking the arguments of one call strikes off refuted arguments only, and nothing is struck off only if the call agrees with all |
| ConstantAddress.ConstantAddressAnalysis.RunOnModule | src/analysis/ConstantAddressAnalysis.cc:11-61 | in whatever order functions, calls and arguments are visited, exactly the arguments survive that no chain of callers refutes, which are those whose possible addresses are the same in all runs: the greatest consistent sets |
| ConstantAddress.ConstantAddressAnalysis.ConstantAddress | src/analysis/ConstantAddressAnalysis.cc:63-91 | after a run the query is true exactly if the addresses that the value can have in the program are the same in all runs |
| Recursion.AllFollowedIsTree | src/util.cc:178-190 | if all calls succeed with disjoint sets of newly seen functions, each function is reached on one path of calls |
| Recursion.ReasonOfCall | src/util.cc:183-187 | a failure in a call is a failure of the caller: something unknown is reached, something is reached twice, or something was seen before |
| Recursion.RecursionCheck.DoesNotRecurseRec | src/util.cc:171-191 | ends on every call graph; true adds exactly the reached functions to the seen ones, false has one of those reasons |
| Recursion.DoesNotRecurse | src/util.cc:194-197 | true if and only if all reached functions are known and each is reached on exactly one path of calls |
| Recursion.AtMostOnceOnStack | src/FramePromotion.cc:23-25 | if the check is true and the attribute is trusted, the function is at most once on any call stack, even with stack frames outside what the check visited |
| NonspeculativeTaint.PushIsNeeded | src/analysis/NonspeculativeTaintAnalysis.cc:195-205 | what a push makes public is in every closed set |
| NonspeculativeTaint.RoundsAreNeeded | src/analysis/NonspeculativeTaintAnalysis.cc:71-236 | rounds that push every public access each time make nothing public that is not in every closed set |
| NonspeculativeTaint.StableIsLeast | src/analysis/NonspeculativeTaintAnalysis.cc:71-236 | when such a round changes nothing, the set is the least one closed under all operand and memory rules |
| NonspeculativeTaint.PushOneHolds | src/analysis/NonspeculativeTaintAnalysis.cc:195-205 | a push makes public what its rule asks for, and changes nothing if that is public already |
| NonspeculativeTaint.MemoryPass | src/analysis/NonspeculativeTaintAnalysis.cc:188-206 | pushing only accesses not pushed before ends in the same set as pushing every public access |
| NonspeculativeTaint.NonspeculativeTaintAnalysis.RunOnFunction | src/analysis/NonspeculativeTaintAnalysis.cc:57-239 | although each access is pushed only in the round in which it becomes public, every round ends in the set that pushing each time would give, and the loop stops after the same round, with the least set that holds the initial values and is closed under all rules |
| NonspeculativeTaint.NonspeculativeTaintAnalysis.Secret | src/analysis/NonspeculativeTaintAnalysis.cc:267-272 | after a run an instruction is secret exactly if some set that holds the initial values and all rules lacks it |

## Left out

- FordFulkerson.Saturate: for three or more sets with a middle set of two or more nodes the residual loop is not shown to end; `fuel` bounds it, and all results but termination hold for any fuel.
- FordFulkerson.PathFlow: the assertion that the flow is below the maximal weight (line 908) is not modelled, so a walk of edges that all weigh 2^32 - 1 is augmented here.
- SpeculativeTaint.Analyze: exactness with the test is decided on the result, by one look at each store; on the program alone only the sufficient condition is given, since whether a late write is made up for depends on the rounds.
- SimplifyLists.RemoveDuplicates: the order of the lists left is not stated, since nothing after it depends on it.
- DoubleUse.FarFromMinimal: the run is one that the search takes under some order of stacks and rows; the order of the containers is not fixed. The condition for the bound is given for disjoint non-empty sets.
- Mitigation.MitigateFunction: the theorem about executions is for code without calls that end their blocks, and counts an immediate repetition of an instruction once, since the graph lacks those steps.
- MinCutGreedy.MinCut.Run: apart from lists of two sets and a single list with no two nodes in a middle set, whether each cut is done depends on `fuel`.
- MinCutGreedy.ComputeCuts: the clock is an arbitrary choice, and the assertion that a repeated state only occurs in Replace mode (line 448) is not modelled.
- Recursion.AtMostOnceOnStack: the attribute is taken to mean that the function is on no cycle of calls.
- Node numbers are unbounded: an overflow of the number of nodes times the number of sets, or of a node number as a signed parent, is not modelled.
- Choices that depend on container order (the order of a stack's initial nodes, of rows and of lists, the smallest sink) are arbitrary here or an arbitrary fixed order; the results hold for each.
- The base graph of the copy-on-write graph is a snapshot of rows, not a reference to a live graph.
- Sorting and removing duplicates are functions on sequences, not in-place algorithms of the standard library.
- The conversion between program nodes and indices, and the member structure of graph and list classes around it.
- Edge weights of the control flow are given as positive numbers; how loop depth and dominance make them is not part of this model.
- Splitting an edge is a fresh node on one edge; parallel edges between two blocks, PHI nodes and traps after fences are not modelled.
- Which instructions make up the sets of each kind of leak: lists are given.
- The compiler's intermediate code, alias analysis and the tables of intrinsics: instructions come with the rule that applies to them, aliases as a relation; constructs on which the code aborts do not occur.
- LeakAnalysis and ContractChecker, plain closures without a short cut; FunctionLocalStacks, InlinePass and NCAStorePass.
- The solver by constraint solving, the second greedy solver, the unused frontier and exclusive control-flow walks, and all disabled code.
- Logging, statistics, command line, benchmarks and build files.
