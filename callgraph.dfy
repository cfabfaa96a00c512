/**
  The lazy call graph as an object: every node owns the edge sequence of its out-edges,
  and the graph keeps the SCC map, the node lists of the SCCs, the RefSCC of each SCC,
  the postorder sequence of SCCs of each RefSCC with its index map, the postorder
  sequence of RefSCCs with its index map, and the DFS bookkeeping of every node.  Its
  abstract value is a `Graph`, and every operation is proved to move that value as the
  corresponding update function does, keeping the invariant `GraphValid`.
 */
module CallGraphs {
  import opened Edges
  import opened Paths
  import opened Postorder
  import opened Components
  import opened Updates
  import opened Switch
  import opened Scans
  import opened Tarjan
  import opened Builds

  /** Removing the edges to no target changes nothing. */
  lemma WithoutNoEdges(g: Graph, src: NodeId)
    requires src in g.edges
    ensures WithoutEdges(g, src, Elems([])) == g
  {
    assert Elems([]) == {};
    assert g.edges[src] - {} == g.edges[src];
    assert g.edges[src := g.edges[src]] == g.edges;
  }

  /** The early exits of ref edge removal, checked over the listed targets. */
  lemma TrivialRemovalOf(g: Graph, src: NodeId, targets: seq<NodeId>)
    requires src in g.sccMap
    ensures TrivialRemoval(g, src, Elems(targets)) <==>
      (forall t :: t in targets ==> t == src) ||
      (forall t :: t in targets ==> t in g.sccMap && g.sccMap[t] == g.sccMap[src])
  {
    assert forall t :: t in Elems(targets) <==> t in targets;
  }

  /**
    The early exits of ref edge removal, in their order: all targets are the source
    itself, or else all targets lie in the SCC of the source.
   */
  method IsTrivialRemoval(ghost g: Graph, src: NodeId, targets: seq<NodeId>, sccMap: map<NodeId, SccId>) returns (r: bool)
    requires sccMap == g.sccMap && src in sccMap
    ensures r <==> TrivialRemoval(g, src, Elems(targets))
  {
    TrivialRemovalOf(g, src, targets);
    r := AllSelf(targets, src);
    if !r {
      r := AllInScc(targets, sccMap, sccMap[src]);
    }
  }

  /**
    Erases the RefSCC at position `i` of the postorder sequence and gives every later
    RefSCC its new position.
   */
  method EraseRefScc(postOrder: seq<RefSccId>, refIndices: map<RefSccId, nat>, i: nat)
    returns (postOrder': seq<RefSccId>, refIndices': map<RefSccId, nat>)
    requires Indexed(postOrder, refIndices) && i < |postOrder|
    ensures postOrder' == postOrder[..i] + postOrder[i + 1..]
    ensures refIndices' == Compact(refIndices, [postOrder[i]], i, i + 1)
  {
    var rc := postOrder[i];
    IndexedDistinct(postOrder, refIndices);
    postOrder' := postOrder[..i] + postOrder[i + 1..];
    refIndices' := refIndices - {rc};
    var j := i;
    while j < |postOrder'|
      invariant i <= j <= |postOrder'|
      invariant refIndices'.Keys == refIndices.Keys - {rc}
      invariant forall x :: x in refIndices' ==>
        refIndices'[x] == if i < refIndices[x] <= j then refIndices[x] - 1 else refIndices[x]
    {
      assert postOrder'[j] == postOrder[j + 1];
      refIndices' := refIndices'[postOrder'[j] := j];
      j := j + 1;
    }
    assert refIndices' == Compact(refIndices, [rc], i, i + 1);
  }

  /** Whether every one of `targets` is `src` itself. */
  method AllSelf(targets: seq<NodeId>, src: NodeId) returns (r: bool)
    ensures r <==> forall t :: t in targets ==> t == src
  {
    var i := 0;
    while i < |targets|
      invariant i <= |targets|
      invariant forall j :: 0 <= j < i ==> targets[j] == src
    {
      if targets[i] != src {
        assert targets[i] in targets;
        return false;
      }
      i := i + 1;
    }
    return true;
  }

  /** Whether every one of `targets` lies in SCC `c`. */
  method AllInScc(targets: seq<NodeId>, sccMap: map<NodeId, SccId>, c: SccId) returns (r: bool)
    ensures r <==> forall t :: t in targets ==> t in sccMap && sccMap[t] == c
  {
    var i := 0;
    while i < |targets|
      invariant i <= |targets|
      invariant forall j :: 0 <= j < i ==> targets[j] in sccMap && sccMap[targets[j]] == c
    {
      if targets[i] !in sccMap || sccMap[targets[i]] != c {
        assert targets[i] in targets;
        return false;
      }
      i := i + 1;
    }
    return true;
  }

  /**
    The bookkeeping once `f`, alone in its SCC and RefSCC and already without node and
    entry edge, is removed: the two are cleared and the RefSCC leaves the postorder
    sequence.
   */
  method ClearComponents(ghost edges: map<NodeId, map<NodeId, Kind>>, ghost entry: map<NodeId, Kind>,
                         f: NodeId, t: Tables) returns (t': Tables)
    requires SccsInRefSccs(GraphOf(edges, entry, t)) && Indexed(t.postOrder, t.refIndices)
    requires f in t.sccMap && f !in edges && f !in entry
    ensures GraphOf(edges, entry, t') == ClearSingleton(GraphOf(edges, entry, t), f)
  {
    var c := t.sccMap[f];
    assert LiveScc(GraphOf(edges, entry, t), c);
    var rc := t.outer[c];
    var postOrder', refIndices' := EraseRefScc(t.postOrder, t.refIndices, t.refIndices[rc]);
    t' := t.(sccMap := t.sccMap - {f}, sccNodes := t.sccNodes[c := []], outer := t.outer - {c},
             sccs := t.sccs[rc := []], sccIndices := t.sccIndices[rc := map[]],
             postOrder := postOrder', refIndices := refIndices');
    assert edges - {f} == edges && entry - {f} == entry;
  }

  /**
    The postorder update of the switch: the RefSCC's local SCC graph is read off the edge
    sequences `ess`, and the RefSCC's sequence of SCCs is repaired for the new call edge,
    with `b..e` the range of the SCCs the edge puts on a cycle.
   */
  method ReorderSccs(ghost edges: map<NodeId, map<NodeId, Kind>>, ghost entry: map<NodeId, Kind>,
                     ess: map<NodeId, EdgeSequence>, src: NodeId, tgt: NodeId, t: Tables)
    returns (t': Tables, b: nat, e: nat)
    requires ViewsAre(ess, edges) && ess.Keys == edges.Keys
    requires SwitchPre(GraphOf(edges, entry, t), src, tgt) && !Backward(GraphOf(edges, entry, t), src, tgt)
    ensures var g := GraphOf(edges, entry, t); var r := SwitchRepair(g, src, tgt);
      && GraphOf(edges, entry, t') == WithSccOrder(g, RefSccOf(g, src), r.sccs)
      && b == r.begin && e == r.end
  {
    ghost var g := GraphOf(edges, entry, t);
    SwitchPositions(g, src, tgt);
    PartitionListed(g);
    var cs, ct := t.sccMap[src], t.sccMap[tgt];
    var rc := t.outer[cs];
    assert forall i :: 0 <= i < |t.sccs[rc]| ==> t.sccs[rc][i] in t.sccNodes;
    var s', idx';
    s', idx', b, e := ReorderLocal(edges, ess, t.sccMap, t.outer, t.sccNodes, t.sccs[rc], t.sccIndices[rc], cs, ct);
    t' := t.(sccs := t.sccs[rc := s'], sccIndices := t.sccIndices[rc := idx']);
  }

  /**
    The postorder update of the SCC sequence `s`, indexed by `idx`, for a new call edge
    from SCC `cs` to the later SCC `ct`, over the local SCC graph of `s`.
   */
  method ReorderLocal(ghost edges: map<NodeId, map<NodeId, Kind>>, ess: map<NodeId, EdgeSequence>,
                      sccMap: map<NodeId, SccId>, outer: map<SccId, RefSccId>, sccNodes: map<SccId, seq<NodeId>>,
                      s: seq<SccId>, idx: map<SccId, nat>, cs: SccId, ct: SccId)
    returns (s': seq<SccId>, idx': map<SccId, nat>, b: nat, e: nat)
    requires ViewsAre(ess, edges) && Listed(sccNodes, ess.Keys)
    requires Indexed(s, idx) && cs in idx && ct in idx && idx[cs] < idx[ct]
    requires forall i :: 0 <= i < |s| ==> s[i] in sccNodes
    ensures RepairBetween(s, idx, LocalSccGraph(edges, sccMap, sccNodes, s), cs, ct) == Repaired(s', b, e)
    ensures Distinct(s') && idx' == IndexOf(s')
  {
    var L := LocalGraph(edges, sccMap, outer, ess, sccNodes, s);
    s', idx', b, e := UpdatePostorderSequenceForEdgeInsertion(cs, ct, s, idx, L);
    IndexedUnique(s', idx');
  }

  /** In a sequence without repeats, the entry at `e` is not among those at `b..e`. */
  lemma EndNotInRange(s: seq<SccId>, b: nat, e: nat)
    requires Distinct(s) && b <= e < |s|
    ensures s[e] !in s[b..e]
  {
    forall k | 0 <= k < e - b ensures s[b..e][k] != s[e] {
      assert s[b..e][k] == s[b + k];
    }
  }

  /**
    The merge of the switch: the SCCs at positions `b..e` of RefSCC `rc` are merged into
    the SCC at `e` and erased from the sequence, and the later SCCs move down.
   */
  method MergeSccs(ghost edges: map<NodeId, map<NodeId, Kind>>, ghost entry: map<NodeId, Kind>,
                   rc: RefSccId, b: nat, e: nat, t: Tables)
    returns (t': Tables)
    requires rc in t.sccs && rc in t.sccIndices && Indexed(t.sccs[rc], t.sccIndices[rc])
    requires b < e < |t.sccs[rc]| && t.sccs[rc][e] in t.sccNodes
    ensures GraphOf(edges, entry, t') == MergeRange(GraphOf(edges, entry, t), rc, b, e)
  {
    var s := t.sccs[rc];
    IndexedDistinct(s, t.sccIndices[rc]);
    EndNotInRange(s, b, e);
    var sccMap', sccNodes', outer', idx1 := MergeInto(t.sccMap, t.sccNodes, t.outer, t.sccIndices[rc], s[b..e], s[e]);
    var s', idx' := EraseMerged(s, t.sccIndices[rc], idx1, b, e);
    t' := t.(sccMap := sccMap', sccNodes := sccNodes', outer := outer',
             sccs := t.sccs[rc := s'], sccIndices := t.sccIndices[rc := idx']);
  }

  /**
    The bookkeeping of the switch once the target's SCC lies after the source's: the
    postorder update, and the merge when it leaves a range; the flag says whether it did.
   */
  method RepairSccs(ghost edges: map<NodeId, map<NodeId, Kind>>, ghost entry: map<NodeId, Kind>,
                    ess: map<NodeId, EdgeSequence>, src: NodeId, tgt: NodeId, t: Tables)
    returns (t': Tables, formed: bool)
    requires ViewsAre(ess, edges) && ess.Keys == edges.Keys
    requires SwitchPre(GraphOf(edges, entry, t), src, tgt) && !Backward(GraphOf(edges, entry, t), src, tgt)
    ensures (WithEdge(GraphOf(edges, entry, t'), src, tgt, Call), formed) ==
      SwitchWithRepair(GraphOf(edges, entry, t), src, tgt)
  {
    ghost var g := GraphOf(edges, entry, t);
    var rc := t.outer[t.sccMap[src]];
    var t1, b, e := ReorderSccs(edges, entry, ess, src, tgt, t);
    ghost var r := SwitchRepair(g, src, tgt);
    assert SwitchWithRepair(g, src, tgt) == ApplyRepair(g, rc, r, src, tgt);
    if b == e {
      return t1, false;
    }
    assert t1.sccs[rc][e] == t.sccMap[tgt];
    t' := MergeSccs(edges, entry, rc, b, e, t1);
    formed := true;
  }

  /** The successor lists of the walks: the targets of each node's edges, or of its call edges, in order. */
  method SuccLists(ghost E: map<NodeId, map<NodeId, Kind>>, ess: map<NodeId, EdgeSequence>, callsOnly: bool)
    returns (succ: map<NodeId, seq<NodeId>>)
    requires ViewsAre(ess, E) && ess.Keys == E.Keys
    ensures SuccAre(succ, E, callsOnly)
  {
    succ := map n | n in ess :: Targets(ess[n].edges, callsOnly);
    forall n | n in ess
      ensures forall x :: x in succ[n] <==> x in E[n] && (callsOnly ==> E[n][x] == Call)
    {
      TargetsAreView(ess[n].edges, ess[n].indexMap, callsOnly);
    }
  }

  /**
    The RefSCC tables after building from the entry edges `entry`: unchanged when there
    are none or the RefSCCs are built already, otherwise every node reachable from an
    entry edge is in an SCC.
   */
  method BuildTables(ghost E: map<NodeId, map<NodeId, Kind>>, ghost En: map<NodeId, Kind>,
                     ess: map<NodeId, EdgeSequence>, entry: EdgeSequence, t: Tables) returns (t': Tables)
    requires ViewsAre(ess, E) && ess.Keys == E.Keys && entry.Valid() && entry.View() == En
    requires GraphValid(GraphOf(E, En, t))
    ensures GraphValid(GraphOf(E, En, t'))
    ensures En == map[] || t.postOrder != [] ==> t' == t
    ensures En != map[] && t.postOrder == [] ==> t'.sccMap.Keys == Reachable(E, En) && t'.postOrder != []
  {
    var roots := Targets(entry.edges, false);
    TargetsAreView(entry.edges, entry.indexMap, false);
    if roots == [] || t.postOrder != [] {
      assert roots == [] ==> En == map[];
      return t;
    }
    assert roots[0] in En;
    ghost var listed := roots;
    roots := Reversed(roots);
    forall r ensures r in En <==> r in roots {
      ReversedMembers(listed, r);
    }
    var succ := SuccLists(E, ess, false);
    var calls := SuccLists(E, ess, true);
    t' := BuildAllRefSccs(E, En, succ, calls, roots, t);
    EntryReachable(GraphOf(E, En, t'), roots[0]);
    if t'.postOrder == [] {
      NoneBuilt(GraphOf(E, En, t'));
      assert false;
    }
  }

  class LazyCallGraph {
    /** The edge sequence of each node of the graph. */
    var nodes: map<NodeId, EdgeSequence>
    /** The entry edges, to the functions visible from outside the module. */
    var entryEdges: EdgeSequence
    /** The abstract value of the edge sequences of the nodes. */
    ghost var edgeMap: map<NodeId, map<NodeId, Kind>>
    /** The abstract value of the entry edges. */
    ghost var entryMap: map<NodeId, Kind>
    /** The edge sequences the graph owns. */
    ghost var Repr: set<EdgeSequence>
    /** The SCC and RefSCC bookkeeping. */
    var tables: Tables

    /** An empty graph: no nodes, no entry edges and no SCCs built. */
    constructor()
      ensures Valid() && fresh(Repr)
      ensures Abs() == Graph(map[], map[], map[], map[], map[], map[], map[], [], map[], map[], map[])
    {
      nodes := map[];
      entryEdges := new EdgeSequence();
      edgeMap, entryMap := map[], map[];
      Repr := {entryEdges};
      tables := Tables(map[], map[], map[], map[], map[], [], map[], map[], map[]);
    }


    /**
      Every edge sequence is consistent and holds the edges of the abstract value, and no
      two nodes share one.
     */
    ghost predicate HeapOk()
      reads this, Repr
    {
      && entryEdges in Repr && nodes.Values <= Repr
      && entryEdges.Valid() && entryEdges.View() == entryMap
      && nodes.Keys == edgeMap.Keys && ViewsAre(nodes, edgeMap)
      && (forall n :: n in nodes ==> nodes[n] != entryEdges)
      && (forall m, n :: m in nodes && n in nodes && m != n ==> nodes[m] != nodes[n])
    }

    /** The abstract value of the graph. */
    ghost function Abs(): Graph
      reads this
    {
      GraphOf(edgeMap, entryMap, tables)
    }

    /** The heap layout of the object, and the invariant `GraphValid` of its value. */
    ghost predicate Valid()
      reads this, Repr
    {
      HeapOk() && GraphValid(Abs())
    }

    /** Changes the kind of the existing edge from `src` to `tgt` to `k`, in its slot. */
    method SetEdgeKind(src: NodeId, tgt: NodeId, k: Kind)
      requires HeapOk() && src in nodes && tgt in edgeMap[src]
      modifies this, nodes[src]
      ensures HeapOk() && nodes == old(nodes) && entryEdges == old(entryEdges) && Repr == old(Repr)
      ensures Abs() == WithEdge(old(Abs()), src, tgt, k)
    {
      nodes[src].SetEdgeKind(tgt, k);
      edgeMap := edgeMap[src := nodes[src].View()];
      OneSeqChanged(src);
    }

    /** Appends an edge of kind `k` from `src` to the new target `tgt`. */
    method InsertEdgeInternal(src: NodeId, tgt: NodeId, k: Kind)
      requires HeapOk() && src in nodes && tgt !in edgeMap[src]
      modifies this, nodes[src]
      ensures HeapOk() && nodes == old(nodes) && entryEdges == old(entryEdges) && Repr == old(Repr)
      ensures Abs() == WithEdge(old(Abs()), src, tgt, k)
    {
      nodes[src].InsertEdgeInternal(tgt, k);
      edgeMap := edgeMap[src := nodes[src].View()];
      OneSeqChanged(src);
    }

    /** Removes the edge from `src` to `tgt`, if there is one, leaving a null edge in its slot. */
    method RemoveEdgeInternal(src: NodeId, tgt: NodeId) returns (removed: bool)
      requires HeapOk() && src in nodes
      modifies this, nodes[src]
      ensures removed <==> tgt in old(edgeMap)[src]
      ensures HeapOk() && nodes == old(nodes) && entryEdges == old(entryEdges) && Repr == old(Repr)
      ensures Abs() == WithoutEdges(old(Abs()), src, {tgt})
    {
      removed := nodes[src].RemoveEdgeInternal(tgt);
      edgeMap := edgeMap[src := nodes[src].View()];
      OneSeqChanged(src);
    }

    /** Changing the edge sequence of one node, and its abstract value with it, keeps the heap consistent. */
    twostate lemma OneSeqChanged(src: NodeId)
      requires old(HeapOk()) && src in old(nodes) && nodes == old(nodes) && entryEdges == old(entryEdges) && Repr == old(Repr)
      requires nodes[src].Valid() && edgeMap == old(edgeMap)[src := nodes[src].View()]
      requires forall n :: n in nodes && n != src ==> unchanged(nodes[n])
      requires unchanged(entryEdges) && entryMap == old(entryMap)
      ensures HeapOk()
    {
    }

    /** Changing only the entry edges keeps the heap consistent. */
    twostate lemma EntryChanged()
      requires old(HeapOk()) && nodes == old(nodes) && edgeMap == old(edgeMap)
      requires entryEdges == old(entryEdges) && Repr == old(Repr)
      requires forall n :: n in nodes ==> unchanged(nodes[n])
      requires entryEdges.Valid() && entryEdges.View() == entryMap
      ensures HeapOk()
    {
    }

    /** Dropping the edge sequence of `f` from the node map keeps the others consistent. */
    twostate lemma NodeDropped(f: NodeId)
      requires old(HeapOk()) && nodes == old(nodes) - {f} && edgeMap == old(edgeMap) - {f}
      requires entryEdges == old(entryEdges) && entryMap == old(entryMap) && Repr == old(Repr)
      requires unchanged(old(Repr))
      ensures HeapOk()
    {
    }

    /** Removes the edges from `src` to each of `targets`, one after the other. */
    method RemoveEdges(src: NodeId, targets: seq<NodeId>)
      requires HeapOk() && src in nodes
      modifies this, nodes[src]
      ensures HeapOk() && nodes == old(nodes) && entryEdges == old(entryEdges) && Repr == old(Repr)
      ensures Abs() == WithoutEdges(old(Abs()), src, Elems(targets))
    {
      ghost var g := Abs();
      WithoutNoEdges(g, src);
      var i := 0;
      while i < |targets|
        invariant i <= |targets|
        invariant HeapOk() && nodes == old(nodes) && entryEdges == old(entryEdges) && Repr == old(Repr)
        invariant Abs() == WithoutEdges(g, src, Elems(targets[..i]))
      {
        var _ := RemoveEdgeInternal(src, targets[i]);
        WithoutMoreEdges(g, src, Elems(targets[..i]), targets[i]);
        ElemsSnoc(targets, i);
        i := i + 1;
      }
      ElemsAll(targets);
    }

    /**
      Removes the ref edges from `src` to each of `targets`, which must all be ref
      edges, and says whether the removal can leave the RefSCC structure as it is: when
      every target is `src` itself, or every target lies in the SCC of `src`.
     */
    method RemoveInternalRefEdge(src: NodeId, targets: seq<NodeId>) returns (trivial: bool)
      requires Valid() && src in nodes && src in tables.sccMap && RefEdgesFrom(Abs(), src, Elems(targets))
      modifies this, nodes[src]
      ensures Valid() && nodes == old(nodes) && entryEdges == old(entryEdges) && Repr == old(Repr)
      ensures Abs() == WithoutEdges(old(Abs()), src, Elems(targets))
      ensures trivial <==> TrivialRemoval(old(Abs()), src, Elems(targets))
    {
      ghost var g := Abs();
      RemoveRefEdgesValid(g, src, Elems(targets));
      trivial := IsTrivialRemoval(g, src, targets, tables.sccMap);
      RemoveEdges(src, targets);
    }

    /**
      Removes the dead function `f`: the node leaves the node map and the entry edges,
      and once SCCs have been formed its SCC and RefSCC are cleared, the RefSCC leaves
      the postorder sequence and the later RefSCCs move down by one.
     */
    method RemoveDeadFunction(f: NodeId)
      requires Valid() && Dead(Abs(), f)
      requires f in edgeMap && tables.sccMap != map[] ==> AloneInRefScc(Abs(), f)
      modifies this, entryEdges
      ensures Valid() && entryEdges == old(entryEdges) && Repr == old(Repr)
      ensures Abs() == Updates.RemoveDeadFunction(old(Abs()), f)
    {
      ghost var g := Abs();
      RemoveDeadFunctionValid(g, f);
      if f !in nodes {
        return;
      }
      DropNode(f);
      if tables.sccMap == map[] {
        return;
      }
      assert SccsInRefSccs(g) && Indexed(g.postOrder, g.refIndices);
      ClearSingletonScc(f);
      ClearAfterDrop(g, f);
    }

    /** Takes node `f` out of the node map and out of the entry edges. */
    method DropNode(f: NodeId)
      requires HeapOk() && f in nodes
      modifies this, entryEdges
      ensures HeapOk() && entryEdges == old(entryEdges) && Repr == old(Repr)
      ensures Abs() == Updates.DropNode(old(Abs()), f)
    {
      DropEntry(f);
      DropEdges(f);
    }

    /** Takes the edge sequence of `f` out of the node map. */
    method DropEdges(f: NodeId)
      requires HeapOk()
      modifies this
      ensures HeapOk() && entryEdges == old(entryEdges) && Repr == old(Repr)
      ensures nodes == old(nodes) - {f} && edgeMap == old(edgeMap) - {f}
      ensures entryMap == old(entryMap) && tables == old(tables)
    {
      nodes, edgeMap := nodes - {f}, edgeMap - {f};
      NodeDropped(f);
    }

    /** Takes the entry edge to `f`, if any, out of the entry edges. */
    method DropEntry(f: NodeId)
      requires HeapOk()
      modifies this, entryEdges
      ensures HeapOk() && nodes == old(nodes) && entryEdges == old(entryEdges) && Repr == old(Repr)
      ensures edgeMap == old(edgeMap) && entryMap == old(entryMap) - {f} && tables == old(tables)
    {
      var _ := entryEdges.RemoveEdgeInternal(f);
      entryMap := entryMap - {f};
      EntryChanged();
    }

    /**
      Clears the SCC and the RefSCC of the removed node `f`, alone in both: the RefSCC
      leaves the postorder sequence and the later RefSCCs move down by one.
     */
    method ClearSingletonScc(f: NodeId)
      requires HeapOk() && f !in edgeMap && f !in entryMap
      requires f in tables.sccMap && SccsInRefSccs(Abs()) && Indexed(tables.postOrder, tables.refIndices)
      modifies this
      ensures HeapOk() && nodes == old(nodes) && entryEdges == old(entryEdges) && Repr == old(Repr)
      ensures Abs() == ClearSingleton(old(Abs()), f)
    {
      tables := ClearComponents(edgeMap, entryMap, f, tables);
    }

    /**
      Switches the ref edge from `src` to `tgt`, inside one RefSCC, to a call edge, and
      says whether that formed a cycle.  Nothing but the edge kind changes when both ends
      share an SCC or the target's SCC already comes first in the postorder sequence;
      otherwise the sequence is repaired and the SCCs on the new cycle are merged into
      the target's SCC.
     */
    method SwitchInternalEdgeToCall(src: NodeId, tgt: NodeId) returns (formed: bool)
      requires Valid() && SwitchPre(Abs(), src, tgt)
      modifies this, nodes[src]
      ensures Valid() && nodes == old(nodes) && entryEdges == old(entryEdges) && Repr == old(Repr)
      ensures (Abs(), formed) == Switch.SwitchInternalEdgeToCall(old(Abs()), src, tgt)
    {
      ghost var g := Abs();
      SwitchValid(g, src, tgt);
      SwitchPositions(g, src, tgt);
      var cs, ct := tables.sccMap[src], tables.sccMap[tgt];
      var idx := tables.sccIndices[tables.outer[cs]];
      if cs == ct || idx[ct] < idx[cs] {
        SetEdgeKind(src, tgt, Call);
        return false;
      }
      formed := RepairAndSwitch(src, tgt);
    }

    /** The switch once the target's SCC lies after the source's: repair, merge, then the kind. */
    method RepairAndSwitch(src: NodeId, tgt: NodeId) returns (formed: bool)
      requires HeapOk() && SwitchPre(Abs(), src, tgt) && !Backward(Abs(), src, tgt)
      modifies this, nodes[src]
      ensures HeapOk() && nodes == old(nodes) && entryEdges == old(entryEdges) && Repr == old(Repr)
      ensures (Abs(), formed) == SwitchWithRepair(old(Abs()), src, tgt)
    {
      var t;
      t, formed := RepairSccs(edgeMap, entryMap, nodes, src, tgt, tables);
      StoreTables(t);
      SetEdgeKind(src, tgt, Call);
    }

    /**
      Builds the RefSCCs and their SCCs, walking from the entry edges in reverse order.
      Nothing happens when there are no entry edges or the RefSCCs are built already;
      otherwise every node reachable from an entry edge ends in an SCC.
     */
    method BuildRefSccs()
      requires Valid()
      modifies this
      ensures Valid() && nodes == old(nodes) && entryEdges == old(entryEdges) && Repr == old(Repr)
      ensures edgeMap == old(edgeMap) && entryMap == old(entryMap)
      ensures entryMap == map[] || old(tables).postOrder != [] ==> tables == old(tables)
      ensures entryMap != map[] && old(tables).postOrder == [] ==>
                tables.sccMap.Keys == Reachable(edgeMap, entryMap) && tables.postOrder != []
    {
      var t := BuildTables(edgeMap, entryMap, nodes, entryEdges, tables);
      StoreTables(t);
    }

    /** Installs the SCC bookkeeping `t`, leaving the nodes and their edges alone. */
    method StoreTables(t: Tables)
      requires HeapOk()
      modifies this
      ensures HeapOk() && nodes == old(nodes) && entryEdges == old(entryEdges) && Repr == old(Repr)
      ensures edgeMap == old(edgeMap) && entryMap == old(entryMap) && tables == t
    {
      tables := t;
      TablesChanged();
    }

    /** Changing only the SCC bookkeeping keeps the heap consistent. */
    twostate lemma TablesChanged()
      requires old(HeapOk()) && nodes == old(nodes) && edgeMap == old(edgeMap) && entryMap == old(entryMap)
      requires entryEdges == old(entryEdges) && Repr == old(Repr) && unchanged(Repr)
      ensures HeapOk()
    {
    }

    /**
      Inserts a call edge from `src` to `tgt` that forms no cycle: an existing call edge
      stays as it is, an existing ref edge becomes a call edge in its slot, and otherwise
      the call edge is appended.
     */
    method InsertTrivialCallEdge(src: NodeId, tgt: NodeId)
      requires Valid() && src in tables.sccMap && tgt in tables.sccMap
      requires tables.sccMap[src] == tables.sccMap[tgt] || Reaches(CallGraph(Abs()), tables.sccMap[src], tables.sccMap[tgt])
      modifies this, if src in nodes then {nodes[src]} else {}
      ensures Valid() && nodes == old(nodes) && entryEdges == old(entryEdges) && Repr == old(Repr)
      ensures Abs() == WithEdge(old(Abs()), src, tgt, Call)
    {
      ghost var g := Abs();
      assert src in g.edges && tgt in g.edges;
      InsertTrivialCallEdgeValid(g, src, tgt);
      PutCallEdge(src, tgt);
    }

    /**
      Makes the edge from `src` to `tgt` a call edge: an existing call edge stays as it
      is, a ref edge is switched in its slot, and otherwise a call edge is appended.
     */
    method PutCallEdge(src: NodeId, tgt: NodeId)
      requires HeapOk() && src in nodes
      modifies this, nodes[src]
      ensures HeapOk() && nodes == old(nodes) && entryEdges == old(entryEdges) && Repr == old(Repr)
      ensures Abs() == WithEdge(old(Abs()), src, tgt, Call)
    {
      var present, k := LookupEdge(src, tgt);
      if present {
        if k == Call {
          WithEdgeSame(Abs(), src, tgt, Call);
          return;
        }
        SetEdgeKind(src, tgt, Call);
      } else {
        InsertEdgeInternal(src, tgt, Call);
      }
    }

    /** Inserts a ref edge from `src` to `tgt` unless one of either kind exists already. */
    method InsertTrivialRefEdge(src: NodeId, tgt: NodeId)
      requires Valid() && src in tables.sccMap && tgt in tables.sccMap
      requires RefSccOf(Abs(), src) == RefSccOf(Abs(), tgt) || Reaches(RefGraph(Abs()), RefSccOf(Abs(), src), RefSccOf(Abs(), tgt))
      modifies this, if src in nodes then {nodes[src]} else {}
      ensures Valid() && nodes == old(nodes) && entryEdges == old(entryEdges) && Repr == old(Repr)
      ensures tgt in old(Abs()).edges[src] ==> Abs() == old(Abs())
      ensures tgt !in old(Abs()).edges[src] ==> Abs() == WithEdge(old(Abs()), src, tgt, Ref)
    {
      ghost var g := Abs();
      assert src in g.edges && tgt in g.edges;
      var present, _ := LookupEdge(src, tgt);
      if present {
        return;
      }
      InsertTrivialRefEdgeValid(g, src, tgt);
      InsertEdgeInternal(src, tgt, Ref);
    }

    /** Whether SCC `a` has a call edge into a different SCC `b`. */
    method SccIsParentOf(a: SccId, b: SccId) returns (r: bool)
      requires HeapOk() && SccPartition(Abs()) && a in tables.sccNodes
      ensures r <==> a != b && b in CallGraph(Abs())[a]
    {
      if a == b {
        return false;
      }
      PartitionListed(Abs());
      CallGraphScanned(Abs());
      var found, _, _ := ScanScc(edgeMap, tables.sccMap, tables.outer, nodes, tables.sccNodes, a, false, b, {}, []);
      r := found;
    }

    /** Whether a different SCC `b` can be reached from SCC `a` along call edges. */
    method SccIsAncestorOf(a: SccId, b: SccId) returns (r: bool)
      requires HeapOk() && SccPartition(Abs()) && a in tables.sccNodes
      ensures r <==> a != b && Reaches(CallGraph(Abs()), a, b)
    {
      if a == b {
        return false;
      }
      PartitionListed(Abs());
      CallGraphScanned(Abs());
      r := Search(edgeMap, tables.sccMap, tables.outer, nodes, tables.sccNodes, tables.sccs, CallGraph(Abs()), a, b, false);
    }

    /** Whether RefSCC `a` has an edge of either kind into a different RefSCC `b`. */
    method RefSccIsParentOf(a: RefSccId, b: RefSccId) returns (r: bool)
      requires HeapOk() && SccPartition(Abs()) && SccsInRefSccs(Abs()) && a in tables.refIndices && a in tables.sccs
      ensures r <==> a != b && b in RefGraph(Abs())[a]
    {
      if a == b {
        return false;
      }
      PartitionListed(Abs());
      RefGraphScanned(Abs());
      var found, _, _ := ScanComps(edgeMap, tables.sccMap, tables.outer, nodes, tables.sccNodes, tables.sccs[a], true, b, {}, []);
      r := found;
    }

    /** Whether a different RefSCC `b` can be reached from RefSCC `a` along edges of either kind. */
    method RefSccIsAncestorOf(a: RefSccId, b: RefSccId) returns (r: bool)
      requires HeapOk() && SccPartition(Abs()) && SccsInRefSccs(Abs()) && a in tables.refIndices && a in tables.sccs
      ensures r <==> a != b && Reaches(RefGraph(Abs()), a, b)
    {
      if a == b {
        return false;
      }
      PartitionListed(Abs());
      RefGraphScanned(Abs());
      r := Search(edgeMap, tables.sccMap, tables.outer, nodes, tables.sccNodes, tables.sccs, RefGraph(Abs()), a, b, true);
    }

    /** Whether `src` has an edge to `tgt`, and its kind. */
    method LookupEdge(src: NodeId, tgt: NodeId) returns (present: bool, k: Kind)
      requires HeapOk() && src in nodes
      ensures present <==> tgt in edgeMap[src]
      ensures present ==> k == edgeMap[src][tgt]
    {
      var es := nodes[src];
      present := tgt in es.indexMap;
      k := if present then es.edges[es.indexMap[tgt]].kind else Ref;
    }

  }
}
