# Lazy call graph SCC machinery

This project models the strongly connected component bookkeeping of LLVM's lazy call
graph (`llvm/lib/Analysis/LazyCallGraph.cpp`). The graph has:

- **Nodes and edges.** Functions are nodes, identified by natural numbers. Each node
  owns an edge sequence: a vector of `(target, kind)` edges, with kind `Call` or `Ref`,
  plus a map from each target to its slot.
- **Call SCCs.** These are the strongly connected components over call edges.
- **RefSCCs.** These are the components over edges of either kind. Each RefSCC keeps
  its call SCCs in a postorder sequence with an index map.
- **The RefSCC postorder.** The graph keeps the RefSCCs in a postorder sequence with
  an index map of its own.

The model keeps the form of the C++ code.

- **Edge sequences.** `Edges.EdgeSequence` is a class whose methods update its edge
  vector and index map in place. Removal leaves a `Null` tombstone in the slot.
- **The graph.** `CallGraphs.LazyCallGraph` is a class holding the node map, the entry
  edges and the SCC/RefSCC tables. Its abstract value is the `Components.Graph`
  datatype. Its invariant is the predicate `Components.GraphValid`. Part of it is what
  the debug-only `SCC::verify` (LazyCallGraph.cpp:244-259) and `RefSCC::verify`
  (LazyCallGraph.cpp:318-359) assert:
  - every node of an SCC maps back to that SCC, and SCCs are non-empty;
  - the nodes of an SCC have DFS number and low-link -1;
  - a RefSCC's SCCs point back to it, appear once and are indexed by their positions;
  - no call edge runs forward in a RefSCC's SCC sequence.

  The rest are invariants the code maintains without asserting them:
  - the SCC map and the SCC node lists describe the same partition, and every SCC
    belongs to a RefSCC of the postorder sequence;
  - the RefSCC postorder sequence is indexed by its positions, and no edge runs from a
    RefSCC to a later one in it;
  - nodes not yet in an SCC have DFS number and low-link 0.
- **Updates.** Every update of the graph has two parts:
  - a specification function from one `Graph` value to the next, such as
    `Switch.SwitchInternalEdgeToCall` or `Updates.RemoveDeadFunction`;
  - a method whose `ensures` ties the new abstract state to that function.

  Separate lemmas prove that each specification function keeps `GraphValid`.
- **Loops.** Loops over sequences and maps stay loops, with their invariants. These
  include:
  - the stable partitions of the postorder repair and the index rewiring after them;
  - the worklist searches of `isAncestorOf`;
  - the merge and erase loops of `switchInternalEdgeToCall`;
  - the explicit-stack walk of `buildGenericSCCs`.
- **Tarjan's walk.** The walk is modelled on a `Walk` value: DFS numbers, low-links,
  the DFS stack of `(node, edge position)` frames, the pending stack, the components
  formed so far and the next DFS number.

Building the RefSCCs (`buildRefSCCs`) runs the same generic walk twice:

- **The outer walk.** It runs over edges of both kinds, from the entry edges in reverse
  order. Its components are the RefSCCs, in postorder.
- **The inner walk.** Each RefSCC is then built in the order formed. Its nodes are
  reset to 0, and the inner walk over call edges runs from its nodes in pending-stack
  order. That walk forms the call SCCs, which are numbered, mapped, indexed and
  appended to the RefSCC postorder.

In the C++ code, each RefSCC's SCCs are built inside the outer walk's callback, at the
moment the RefSCC forms. The inner walk only meets nodes of that RefSCC or of RefSCCs
formed earlier. So building after the outer walk gives the same final tables.

Fresh SCC and RefSCC ids are numbers above every id already in use. They stand in for
the bump-allocated objects of the C++ code.

## Model

| member | source | states |
|---|---|---|
| Edges.EdgeSequence.InsertEdgeInternal | llvm/lib/Analysis/LazyCallGraph.cpp:42-46 | appends exactly the edge `(t, k)`, records the old length as `t`'s slot, and for a new target the view gains `t ↦ k` |
| Edges.EdgeSequence.SetEdgeKind | llvm/lib/Analysis/LazyCallGraph.cpp:48-50 | rewrites only the slot of `t` to kind `k`; the index map is unchanged and the view maps `t` to `k` |
| Edges.EdgeSequence.RemoveEdgeInternal | llvm/lib/Analysis/LazyCallGraph.cpp:52-60 | returns whether `t` was present; when absent nothing changes; when present only its slot becomes `Null` and only its map entry goes; the length never changes and the view loses `t` |
| Edges.EdgeSequence.AddEdge | llvm/lib/Analysis/LazyCallGraph.cpp:62-70 | an existing target leaves vector and map untouched (idempotent); otherwise exactly one edge is appended and indexed at the old length |
| Edges.TargetsAreView | llvm/lib/Analysis/LazyCallGraph.cpp:1747-1749 | iterating a consistent edge sequence (all edges, or call edges only) visits exactly the targets of its view with the right kind |
| Edges.TargetsDistinct | llvm/lib/Analysis/LazyCallGraph.cpp:1747-1749 | that iteration never visits a target twice |
| Scans.EdgeTargets | llvm/lib/Analysis/LazyCallGraph.cpp:1747-1749 | the loop collecting targets yields the iteration order `Targets(edges, callsOnly)` |
| Scans.NodeTargets | llvm/lib/Analysis/LazyCallGraph.cpp:266-267 | a node's collected (call) targets are exactly the targets of its (call) edges |
| Scans.SuccIsCallees | llvm/lib/Analysis/LazyCallGraph.cpp:266-270 | the SCCs met scanning call edges of nodes are their callee SCCs |
| Scans.SuccIsReferenced | llvm/lib/Analysis/LazyCallGraph.cpp:368-372 | the RefSCCs met scanning all edges of nodes are the RefSCCs they reference |
| Scans.ScanEdges | llvm/lib/Analysis/LazyCallGraph.cpp:288-302 | the inner edge loop finds the target component exactly when one of the node's edges leads to it; when it does not, every met component is now visited and newly visited ones are queued |
| Scans.ScanNodes | llvm/lib/Analysis/LazyCallGraph.cpp:288-302 | the same for a list of nodes |
| Scans.ScanScc | llvm/lib/Analysis/LazyCallGraph.cpp:266-270 | the same for the nodes of one SCC |
| Scans.ScanComps | llvm/lib/Analysis/LazyCallGraph.cpp:368-372 | the same for the nodes of a sequence of SCCs |
| Scans.ScanComponent | llvm/lib/Analysis/LazyCallGraph.cpp:288-302 | the same for the members of an SCC or of a RefSCC |
| Scans.Search | llvm/lib/Analysis/LazyCallGraph.cpp:275-307 | the worklist search from `a` returns true exactly when `b` is reachable from `a` in the component graph |
| Scans.CallGraphScanned | llvm/lib/Analysis/LazyCallGraph.cpp:266-270 | each SCC's successors in the SCC call graph are the SCCs its nodes' call edges reach |
| Scans.RefGraphScanned | llvm/lib/Analysis/LazyCallGraph.cpp:368-372 | each RefSCC's successors in the RefSCC graph are the RefSCCs its nodes' edges reach |
| Scans.CollectNodes | llvm/lib/Analysis/LazyCallGraph.cpp:585-592 | collects exactly the SCCs the nodes' call edges reach |
| Scans.LocalGraph | llvm/lib/Analysis/LazyCallGraph.cpp:585-592 | builds exactly the SCC call graph restricted to one RefSCC's sequence |
| CallGraphs.LazyCallGraph.SccIsParentOf | llvm/lib/Analysis/LazyCallGraph.cpp:262-273 | true iff `b` differs from `a` and a call edge leads from `a` to `b` |
| CallGraphs.LazyCallGraph.SccIsAncestorOf | llvm/lib/Analysis/LazyCallGraph.cpp:275-307 | true iff `b` differs from `a` and is reachable from `a` over call edges in the SCC graph |
| CallGraphs.LazyCallGraph.RefSccIsParentOf | llvm/lib/Analysis/LazyCallGraph.cpp:363-375 | true iff `b` differs from `a` and an edge of either kind leads from `a` to `b` |
| CallGraphs.LazyCallGraph.RefSccIsAncestorOf | llvm/lib/Analysis/LazyCallGraph.cpp:377-403 | true iff `b` differs from `a` and is reachable from `a` in the RefSCC graph |
| Postorder.IndexedDistinct | llvm/lib/Analysis/LazyCallGraph.cpp:329-343 | a sequence with an index map pointing at positions has no duplicates |
| Postorder.StablePartitionPermutes | llvm/lib/Analysis/LazyCallGraph.cpp:488-490 | a stable partition is a permutation of its input |
| Postorder.SelectKeepsNoForwardEdge | llvm/lib/Analysis/LazyCallGraph.cpp:485-490 | taking a subsequence keeps the postorder property |
| Postorder.ComputeSourceConnectedSet | llvm/lib/Analysis/LazyCallGraph.cpp:578-598 | the forward scan from source to target collects exactly the SCCs connected to the source along the range |
| Postorder.SourceConnectedReaches | llvm/lib/Analysis/LazyCallGraph.cpp:578-598 | the source is in that set, and every member reaches the source and lies in the range |
| Postorder.CollectSuccessors | llvm/lib/Analysis/LazyCallGraph.cpp:615-629 | adds exactly the successors beyond the source to the connected set and queues exactly the newly added ones |
| Postorder.ComputeTargetConnectedSet | llvm/lib/Analysis/LazyCallGraph.cpp:604-631 | the worklist search collects exactly the SCCs the target reaches through SCCs after the source |
| Postorder.TargetConnectedIsSearch | llvm/lib/Analysis/LazyCallGraph.cpp:604-631 | that set is the target-connected set used by the repair |
| Postorder.ReindexRange | llvm/lib/Analysis/LazyCallGraph.cpp:491-492 | after the loop, every entry of the range is indexed by its position and other entries keep their index |
| Postorder.ReindexPartitioned | llvm/lib/Analysis/LazyCallGraph.cpp:488-492 | after partitioning a range and rewiring it, the index map again points at positions, over the same keys |
| Postorder.PartitionRangePermutes | llvm/lib/Analysis/LazyCallGraph.cpp:488-490 | partitioning a range leaves everything outside it unchanged and permutes the whole |
| Postorder.PartitionRangeOrder | llvm/lib/Analysis/LazyCallGraph.cpp:521-525 | partitioning a range with no edge from the kept part to the moved part keeps the postorder property |
| Postorder.PartitionSourceConnected | llvm/lib/Analysis/LazyCallGraph.cpp:480-492 | step 1 of the repair: the connected set, the first partition, the new source position and a rewired index map |
| Postorder.SearchTargetConnected | llvm/lib/Analysis/LazyCallGraph.cpp:517-519 | step 3's search returns the target-connected set |
| Postorder.PartitionTargetConnected | llvm/lib/Analysis/LazyCallGraph.cpp:521-528 | step 3's partition, its index rewiring and the new target position |
| Postorder.UpdatePostorderSequenceForEdgeInsertion | llvm/lib/Analysis/LazyCallGraph.cpp:471-538 | the new sequence and merge range are the specified repair `Repair(sccs, idx[src], idx[tgt], g)`, and the index map points at positions again |
| Postorder.RepairPermutes | llvm/lib/Analysis/LazyCallGraph.cpp:451-452 | the repair only permutes the closed range from source to target and leaves the rest unchanged |
| Postorder.RepairDistinct | llvm/lib/Analysis/LazyCallGraph.cpp:488-525 | the repaired sequence has no duplicates |
| Postorder.RepairRange | llvm/lib/Analysis/LazyCallGraph.cpp:494-537 | the range lies between source and target and ends at the target; it is empty exactly when the target is not source-connected, in which case the target sits just before the source; otherwise it starts at the source |
| Postorder.RepairCycle | llvm/lib/Analysis/LazyCallGraph.cpp:533-537 | every SCC of a non-empty range, and the target, reaches the source and is reached from the target: they form one cycle with the new edge |
| Postorder.RepairOrder | llvm/lib/Analysis/LazyCallGraph.cpp:445-450 | the repaired sequence is still a postorder of the old graph |
| Postorder.RepairNewEdge | llvm/lib/Analysis/LazyCallGraph.cpp:494-504 | with an empty range the repaired sequence is a postorder of the graph with the new edge |
| Postorder.CompactIndexed | llvm/lib/Analysis/LazyCallGraph.cpp:676-681 | erasing a range and lowering later indices by its length leaves an index map pointing at positions |
| Postorder.EraseKeepsNoForwardEdge | llvm/lib/Analysis/LazyCallGraph.cpp:676-681 | erasing a range keeps the postorder property |
| Postorder.MergeKeepsNoForwardEdge | llvm/lib/Analysis/LazyCallGraph.cpp:659-681 | merging a range into the SCC at its end keeps the postorder property of the merged graph |
| Switch.IndexedUnique | llvm/lib/Analysis/LazyCallGraph.cpp:336-343 | an index map pointing at positions is the one index map of its sequence |
| Switch.SwitchPositions | llvm/lib/Analysis/LazyCallGraph.cpp:554-571 | the source's and target's SCCs are indexed in their RefSCC and distinct SCCs have distinct positions |
| Switch.SwitchRepair | llvm/lib/Analysis/LazyCallGraph.cpp:633-639 | the repair of the RefSCC's SCC sequence, restricted to its call graph, yields a range ending at the target's SCC |
| Switch.MergeIsMerged | llvm/lib/Analysis/LazyCallGraph.cpp:665-674 | merging moves every node of the range's SCCs into the target SCC, empties their lists and drops their indices |
| Switch.MergeJoinsEnds | llvm/lib/Analysis/LazyCallGraph.cpp:665-674 | after the merge, source and target share the target's SCC |
| Switch.MergeValid | llvm/lib/Analysis/LazyCallGraph.cpp:659-681 | merging a cycle's range into the target keeps `GraphValid` |
| Switch.SwitchRepairValid | llvm/lib/Analysis/LazyCallGraph.cpp:637-657 | installing the repaired sequence keeps `GraphValid` |
| Switch.ApplyRepairValid | llvm/lib/Analysis/LazyCallGraph.cpp:645-687 | installing a repair, merging a non-empty range and making the edge a call keeps `GraphValid` |
| Switch.SwitchMergeValid | llvm/lib/Analysis/LazyCallGraph.cpp:659-687 | merging the range and then switching the edge keeps `GraphValid` |
| Switch.SwitchWithRepairValid | llvm/lib/Analysis/LazyCallGraph.cpp:633-687 | the repairing branch of the switch keeps `GraphValid` |
| Switch.SwitchValid | llvm/lib/Analysis/LazyCallGraph.cpp:540-688 | `switchInternalEdgeToCall` keeps `GraphValid`, postorder included |
| Switch.SwitchCycleFound | llvm/lib/Analysis/LazyCallGraph.cpp:577-598 | when the target's SCC reaches the source's, it is in the source-connected set |
| Switch.SwitchRepairFlag | llvm/lib/Analysis/LazyCallGraph.cpp:645-687 | the repairing branch reports a new cycle exactly when the target's SCC reaches the source's |
| Switch.SwitchFormsCycle | llvm/lib/Analysis/LazyCallGraph.cpp:557-687 | the switch reports a new cycle exactly when the SCCs differ and the target's SCC reaches the source's over call edges |
| Switch.MapNodesTo | llvm/lib/Analysis/LazyCallGraph.cpp:670-671 | the loop maps exactly the given nodes to the target SCC and leaves every other entry alone |
| Switch.MergeInto | llvm/lib/Analysis/LazyCallGraph.cpp:665-674 | the merge loop appends each range SCC's nodes to the target, remaps them, clears the SCC and drops its index and RefSCC |
| Switch.EraseMerged | llvm/lib/Analysis/LazyCallGraph.cpp:676-681 | erases the range from the sequence and lowers each later index by the range's length |
| Switch.ShiftOne | llvm/lib/Analysis/LazyCallGraph.cpp:680-681 | one step of the index-lowering loop extends the shifted part by one entry |
| CallGraphs.ReorderLocal | llvm/lib/Analysis/LazyCallGraph.cpp:577-639 | computes the RefSCC's local call graph and runs the repair on it; the result is the specified repair and a fresh index map |
| CallGraphs.ReorderSccs | llvm/lib/Analysis/LazyCallGraph.cpp:633-639 | the tables after the repair are the graph with the repaired sequence installed, and the range is the repair's |
| CallGraphs.MergeSccs | llvm/lib/Analysis/LazyCallGraph.cpp:659-681 | the tables after merging and erasing are the specified merge of the range into its last SCC |
| CallGraphs.RepairSccs | llvm/lib/Analysis/LazyCallGraph.cpp:633-681 | the repair plus the merge, with the edge made a call, is the specified repairing switch with its cycle flag |
| CallGraphs.LazyCallGraph.SwitchInternalEdgeToCall | llvm/lib/Analysis/LazyCallGraph.cpp:540-688 | the new graph and the flag are `Switch.SwitchInternalEdgeToCall` of the old graph: only the kind changes when the SCCs coincide or the target's SCC is earlier, otherwise the repair and merge; the graph stays valid |
| CallGraphs.LazyCallGraph.RepairAndSwitch | llvm/lib/Analysis/LazyCallGraph.cpp:633-687 | the repairing branch: new graph and flag are the specified repairing switch |
| CallGraphs.LazyCallGraph.SetEdgeKind | llvm/lib/Analysis/LazyCallGraph.cpp:48-50 | the graph's edge to `tgt` takes kind `k`; nothing else changes |
| CallGraphs.LazyCallGraph.InsertEdgeInternal | llvm/lib/Analysis/LazyCallGraph.cpp:42-46 | the graph gains the edge `src → tgt` of kind `k`; nothing else changes |
| CallGraphs.LazyCallGraph.RemoveEdgeInternal | llvm/lib/Analysis/LazyCallGraph.cpp:52-60 | reports whether the edge existed and the graph loses it; nothing else changes |
| CallGraphs.LazyCallGraph.LookupEdge | llvm/lib/Analysis/LazyCallGraph.cpp:1411-1415 | reports whether `src` has an edge to `tgt` and its kind |
| CallGraphs.LazyCallGraph.PutCallEdge | llvm/lib/Analysis/LazyCallGraph.cpp:1410-1422 | an existing call edge stays, a ref edge becomes a call in its slot, otherwise a call edge is appended: the graph gains `src → tgt` as a call |
| CallGraphs.LazyCallGraph.InsertTrivialCallEdge | llvm/lib/Analysis/LazyCallGraph.cpp:1393-1426 | the graph gains `src → tgt` as a call edge and stays valid |
| CallGraphs.LazyCallGraph.InsertTrivialRefEdge | llvm/lib/Analysis/LazyCallGraph.cpp:1428-1455 | an existing edge of either kind leaves the graph unchanged; otherwise it gains a ref edge; the graph stays valid |
| Updates.WithEdgeSame | llvm/lib/Analysis/LazyCallGraph.cpp:1413-1417 | setting an edge to the kind it already has changes nothing |
| Updates.CallGraphWithCall | llvm/lib/Analysis/LazyCallGraph.cpp:1410-1422 | a new call edge adds exactly the edge between the two SCCs to the SCC graph |
| Updates.CallGraphWithRef | llvm/lib/Analysis/LazyCallGraph.cpp:1443-1451 | a new ref edge leaves the SCC call graph unchanged |
| Updates.RefGraphNewEdge | llvm/lib/Analysis/LazyCallGraph.cpp:1376-1391 | a new edge adds exactly the edge between the two RefSCCs to the RefSCC graph |
| Updates.CallReachWithinRefScc | llvm/lib/Analysis/LazyCallGraph.cpp:346-359 | in a valid graph, an SCC reachable over calls inside one RefSCC is at the same or an earlier position |
| Updates.EdgeChangeValid | llvm/lib/Analysis/LazyCallGraph.cpp:318-359 | changing only edges keeps validity when both postorder properties hold for the new edges |
| Updates.WithCallValid | llvm/lib/Analysis/LazyCallGraph.cpp:1393-1426 | a call edge toward an SCC that is not later, across RefSCCs that are not later, keeps validity |
| Updates.InsertTrivialCallEdgeValid | llvm/lib/Analysis/LazyCallGraph.cpp:1393-1426 | a call edge inside an SCC or to a call descendant keeps `GraphValid` |
| Updates.InsertTrivialRefEdgeValid | llvm/lib/Analysis/LazyCallGraph.cpp:1428-1455 | a ref edge inside a RefSCC or to a RefSCC descendant keeps `GraphValid` |
| Updates.CallGraphWithoutRefEdges | llvm/lib/Analysis/LazyCallGraph.cpp:1158-1166 | removing ref edges leaves the SCC call graph unchanged |
| Updates.RemoveRefEdgesValid | llvm/lib/Analysis/LazyCallGraph.cpp:1158-1179 | removing ref edges keeps `GraphValid` |
| Updates.TrivialRemovalKeepsRefGraph | llvm/lib/Analysis/LazyCallGraph.cpp:1168-1179 | when every target is the source or in its SCC, the edges between different RefSCCs are unchanged |
| Updates.RemovalInsideKeepsRefGraph | llvm/lib/Analysis/LazyCallGraph.cpp:1173-1179 | removing edges inside one RefSCC keeps the edges between different RefSCCs |
| CallGraphs.TrivialRemovalOf | llvm/lib/Analysis/LazyCallGraph.cpp:1168-1179 | the early exits apply exactly when all targets are the source, or all are in the source's SCC |
| CallGraphs.AllSelf | llvm/lib/Analysis/LazyCallGraph.cpp:1169-1171 | true iff every target is the source |
| CallGraphs.AllInScc | llvm/lib/Analysis/LazyCallGraph.cpp:1175-1178 | true iff every target is in the given SCC |
| CallGraphs.IsTrivialRemoval | llvm/lib/Analysis/LazyCallGraph.cpp:1168-1179 | true iff one of the two early exits applies |
| CallGraphs.LazyCallGraph.RemoveEdges | llvm/lib/Analysis/LazyCallGraph.cpp:1158-1166 | the graph loses exactly the edges from `src` to the targets |
| CallGraphs.LazyCallGraph.RemoveInternalRefEdge | llvm/lib/Analysis/LazyCallGraph.cpp:1140-1179 | removes the ref edges, keeps the graph valid, and reports whether an early exit applies |
| Updates.RemoveDeadFunction | llvm/lib/Analysis/LazyCallGraph.cpp:1504-1566 | the function's node and entry edge are gone and it is in no SCC |
| Updates.RemoveDeadFunctionPostOrder | llvm/lib/Analysis/LazyCallGraph.cpp:1515-1553 | an unknown function changes nothing; otherwise, once SCCs exist, exactly its RefSCC leaves the postorder and loses its index |
| Updates.RemoveDeadFunctionValid | llvm/lib/Analysis/LazyCallGraph.cpp:1504-1566 | removing a dead function keeps `GraphValid` |
| Updates.DeadBeforeSccsValid | llvm/lib/Analysis/LazyCallGraph.cpp:1526-1531 | before any SCC is formed, dropping the node keeps validity |
| Updates.DeadSingletonValid | llvm/lib/Analysis/LazyCallGraph.cpp:1535-1561 | clearing a singleton SCC in a singleton RefSCC keeps validity |
| Updates.ClearAfterDrop | llvm/lib/Analysis/LazyCallGraph.cpp:1520-1561 | dropping the node first and then clearing its components gives the same graph |
| CallGraphs.EraseRefScc | llvm/lib/Analysis/LazyCallGraph.cpp:1548-1553 | erases position `i` from the postorder and rewires the later indices down by one |
| CallGraphs.ClearComponents | llvm/lib/Analysis/LazyCallGraph.cpp:1535-1561 | the tables after clearing are the specified singleton clear-out |
| CallGraphs.LazyCallGraph.RemoveDeadFunction | llvm/lib/Analysis/LazyCallGraph.cpp:1504-1566 | the new graph is `Updates.RemoveDeadFunction` of the old one and stays valid |
| CallGraphs.LazyCallGraph.DropNode | llvm/lib/Analysis/LazyCallGraph.cpp:1515-1524 | the node leaves the node map and the entry edges |
| CallGraphs.LazyCallGraph.DropEntry | llvm/lib/Analysis/LazyCallGraph.cpp:1523-1524 | only the entry edge to `f` goes |
| CallGraphs.LazyCallGraph.ClearSingletonScc | llvm/lib/Analysis/LazyCallGraph.cpp:1535-1561 | the new graph is the specified singleton clear-out |
| Tarjan.Reversed | llvm/lib/Analysis/LazyCallGraph.cpp:1751-1753 | the result has the same length and holds the elements from last to first |
| Tarjan.ReversedMembers | llvm/lib/Analysis/LazyCallGraph.cpp:1751-1753 | reversing keeps the elements |
| Tarjan.Retire | llvm/lib/Analysis/LazyCallGraph.cpp:1729-1731 | the listed nodes rest at -1 and every other node keeps its number |
| Tarjan.WalkEdge | llvm/lib/Analysis/LazyCallGraph.cpp:1644-1671 | one edge: descend into an unreached child, skip a finished one, or lower the low-link; the walk invariants hold after the step |
| Tarjan.WalkEdges | llvm/lib/Analysis/LazyCallGraph.cpp:1643-1672 | the edge loop ends with the current node's edges all scanned and the walk invariants kept |
| Tarjan.FindSplit | llvm/lib/Analysis/LazyCallGraph.cpp:1685-1692 | finds where the pending stack drops below the root's DFS number |
| Tarjan.Step | llvm/lib/Analysis/LazyCallGraph.cpp:1638-1697 | one pop of the DFS stack: scan the node's edges, push it as pending and, at a root, form its component; the walk invariants hold |
| Tarjan.WalkFrom | llvm/lib/Analysis/LazyCallGraph.cpp:1627-1697 | the walk from an unreached root ends at rest, with the root in a component, and keeps earlier components |
| Tarjan.BuildGenericSccs | llvm/lib/Analysis/LazyCallGraph.cpp:1610-1699 | formed nodes rest at -1 and others keep their numbers; only unreached nodes are formed; every root is formed; components are non-empty and partition the formed nodes; every edge leads to an earlier-formed node or to the same or an earlier component |
| Builds.OrderedByEdge | llvm/lib/Analysis/LazyCallGraph.cpp:1683-1695 | the walk's postorder holds for the graph's (call) edges |
| Builds.ReachableClosed | llvm/lib/Analysis/LazyCallGraph.cpp:1755-1763 | no edge leaves the nodes reachable from the entry edges |
| Builds.EntryReachable | llvm/lib/Analysis/LazyCallGraph.cpp:1747-1749 | every entry target is reachable |
| Builds.ResetNodes | llvm/lib/Analysis/LazyCallGraph.cpp:1710-1718 | the RefSCC's nodes get DFS number and low-link 0; every other node keeps its numbers |
| Builds.FreshAbove | llvm/lib/Analysis/LazyCallGraph.cpp:1728 | the returned id is above every id in use |
| Builds.MapScc | llvm/lib/Analysis/LazyCallGraph.cpp:1729-1731 | the nodes of the next SCC are mapped to its new id |
| Builds.FormScc | llvm/lib/Analysis/LazyCallGraph.cpp:1727-1732 | forming one more SCC extends the SCC map, node lists, RefSCC map and SCC list by it |
| Builds.FormSccs | llvm/lib/Analysis/LazyCallGraph.cpp:1723-1733 | every node of the inner walk's components maps to its new SCC, the lists and RefSCC of the new SCCs are recorded, and the SCC list is the new ids in order |
| Builds.IndexSccs | llvm/lib/Analysis/LazyCallGraph.cpp:1735-1737 | the index map sends each SCC of the list to its position |
| Builds.BuildSccs | llvm/lib/Analysis/LazyCallGraph.cpp:1706-1738 | the tables of one RefSCC, once appended to the postorder, are the specified addition of its SCCs; its nodes are exactly the group's |
| Builds.AddedBuilding | llvm/lib/Analysis/LazyCallGraph.cpp:1764-1778 | adding a RefSCC with its SCCs keeps the invariant of the building graph, with its nodes no longer pending |
| Builds.BuiltValid | llvm/lib/Analysis/LazyCallGraph.cpp:318-359 | a building graph with nothing pending satisfies `GraphValid` |
| Builds.WalkReachesAll | llvm/lib/Analysis/LazyCallGraph.cpp:1755-1778 | the outer walk from the entry targets forms exactly the reachable nodes |
| Builds.WalkRefSccs | llvm/lib/Analysis/LazyCallGraph.cpp:1755-1763 | the walk over all edges from the entry targets forms exactly the reachable nodes into RefSCC groups, leaves them waiting, and establishes the invariant of the loop that builds each group with fresh identifiers |
| Builds.OuterStep | llvm/lib/Analysis/LazyCallGraph.cpp:1764-1778 | building the next RefSCC keeps the loop invariant |
| Builds.OuterDone | llvm/lib/Analysis/LazyCallGraph.cpp:1740-1779 | once every RefSCC is built the graph is valid and its SCC map covers exactly the outer walk's nodes |
| Builds.BuildAllRefSccs | llvm/lib/Analysis/LazyCallGraph.cpp:1745-1779 | from a valid graph with no RefSCCs, the result is valid and every node reachable from an entry edge, and no other, is in an SCC |
| CallGraphs.SuccLists | llvm/lib/Analysis/LazyCallGraph.cpp:1757-1763 | each node's successor list holds exactly the targets of its edges, or of its call edges |
| CallGraphs.BuildTables | llvm/lib/Analysis/LazyCallGraph.cpp:1740-1779 | no entry edges or RefSCCs already built: tables unchanged; otherwise the reachable nodes are in SCCs, there is at least one RefSCC, and the graph stays valid |
| CallGraphs.LazyCallGraph.BuildRefSccs | llvm/lib/Analysis/LazyCallGraph.cpp:1740-1779 | the same on the graph object: the edges stay as they were and the graph stays valid |

## Left out

- Building the graph from LLVM IR is not modelled. This covers the constructor,
  `populateSlow` and `visitReferences`. Every node's edges are given from the start,
  and `populate` does nothing.
- `isKnownLibFunction`, the library-function set and `invalidate` are not modelled.
  They depend on `TargetLibraryInfo` and `PreservedAnalyses`, which are not part of
  this model.
- Printers, `dump`, the DOT pass and `LLVM_DEBUG` logging are left out. They are
  output only.
- The move constructor and assignment, and `updateGraphPtrs`, are left out. They only
  re-seat pointers.
- Bump-pointer allocation of nodes, SCCs and RefSCCs is replaced by fresh numeric ids.
  A cleared SCC keeps an empty node list, standing for the dead object.
- The `MergeCB` callback of `switchInternalEdgeToCall` is not modelled. It is caller
  code.
- The debug-only `verify()` calls are not executed. Their assertions are part of the
  invariant `GraphValid`, which each update is proved to keep. `GraphValid` also holds
  invariants that no `verify` routine asserts: the RefSCC postorder has no forward
  edge, and nodes outside every SCC have DFS number and low-link 0.
- `EXPENSIVE_CHECKS` assertions and other precondition assertions become `requires`
  clauses. Examples: a trivial edge must point to a descendant, and a dead function
  has no uses and sits alone in its SCC and RefSCC.
- `removeInternalRefEdge` is modelled up to its two early exits. The RefSCC split that
  follows them is not modelled, because it is an extension beyond the updates modelled
  here.
- `switchTrivialInternalEdgeToRef`, `switchOutgoingEdgeToCall`/`ToRef`,
  `insertOutgoingEdge`, `insertIncomingRefEdge`, `removeOutgoingEdge`,
  `addSplitFunction` and `addNewFunctionInto*` are not modelled. They are other
  incremental updates.
- `EdgeSequence::empty()` and the edge iterators are declared in the header
  `LazyCallGraph.h`, which is not part of this model. Iteration is modelled as
  `Edges.Targets`, which skips null edges (and ref edges for the call iterator).
  Emptiness is modelled as an empty iteration.
- `handleTrivialEdgeInsertion` only asserts and returns, so it has no model.
- Building a RefSCC's SCCs (`buildSCCs`) happens after the outer walk has formed all
  RefSCCs, not inside its callback. The final tables are the same.
- Tarjan.BuildGenericSccs: proves the components are non-empty, partition the formed
  nodes and come in postorder. It does not prove that each component is strongly
  connected and maximal, nor that the components come in exactly the sequence the C++
  code emits.
- CallGraphs.LazyCallGraph.BuildRefSccs: states validity and which nodes end in SCCs.
  It does not state that the RefSCCs and SCCs are exactly the strongly connected
  components.
- Builds.BuildSccs: states that the SCCs it forms partition the RefSCC's nodes, come
  in postorder over call edges and are added as the update function specifies. It does
  not state that each SCC is exactly a maximal strongly connected component of the
  call edges inside the RefSCC.
- Builds.WalkRefSccs: states that the groups it forms cover exactly the nodes
  reachable from the entry edges, in postorder, ready for the loop that builds each
  one. It does not state that each group is exactly a maximal strongly connected
  component of the reference graph.
- Builds.BuildAllRefSccs: states validity and that exactly the reachable nodes end in
  SCCs. It does not state that the RefSCCs and SCCs are exactly the strongly connected
  components of the reference and call graphs.
- CallGraphs.BuildTables: states validity, the unchanged tables when nothing is to be
  built, and that exactly the reachable nodes end in SCCs otherwise. It does not state
  that the RefSCCs and SCCs are exactly the strongly connected components.
