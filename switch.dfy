/**
  Switching an edge inside a RefSCC from ref to call.  The SCCs of the RefSCC are kept
  in postorder by the repair of the postorder sequence; when the new call edge closes a
  cycle, the SCCs of that cycle are merged into the target's SCC and the sequence and
  its index map are compacted.
 */
module Switch {
  import opened Edges
  import opened Paths
  import opened Postorder
  import opened Components
  import opened Updates

  /** The index map of a sequence without duplicates: each entry to its position. */
  ghost function IndexOf(s: seq<nat>): (idx: map<nat, nat>)
    requires Distinct(s)
    ensures Indexed(s, idx)
  {
    map i | 0 <= i < |s| :: s[i] := i
  }

  /** A sequence has one index map. */
  lemma IndexedUnique(s: seq<nat>, idx: map<nat, nat>)
    requires Indexed(s, idx)
    ensures Distinct(s) && idx == IndexOf(s)
  {
    IndexedDistinct(s, idx);
    var idx' := IndexOf(s);
    forall x | x in idx ensures x in idx' && idx'[x] == idx[x] {
      assert s[idx[x]] == x;
    }
    forall x | x in idx' ensures x in idx {
      var i :| 0 <= i < |s| && s[i] == x;
    }
  }

  /** The SCC graph restricted to the SCCs `cs` of one RefSCC, as the repair is given it. */
  ghost function LocalCallGraph(g: Graph, cs: seq<SccId>): (h: map<SccId, set<SccId>>)
    ensures forall c :: c in h <==> c in cs && c in g.sccNodes
    ensures forall c :: c in h ==> h[c] == CallGraph(g)[c]
  {
    LocalSccGraph(g.edges, g.sccMap, g.sccNodes, cs)
  }

  /** The postorder constraint only looks at the successors of the entries. */
  lemma NoForwardEdgeAgree(s: seq<nat>, g1: map<nat, set<nat>>, g2: map<nat, set<nat>>)
    requires forall i :: 0 <= i < |s| ==> (s[i] in g1 <==> s[i] in g2) && (s[i] in g1 ==> g1[s[i]] == g2[s[i]])
    requires NoForwardEdge(s, g1)
    ensures NoForwardEdge(s, g2)
  {
  }

  /** The graph with the SCC sequence of RefSCC `rc` replaced by the permutation `s`. */
  ghost function WithSccOrder(g: Graph, rc: RefSccId, s: seq<SccId>): (g': Graph)
    requires Distinct(s)
    ensures g'.sccs.Keys == g.sccs.Keys + {rc} && g'.sccs[rc] == s && rc in g'.sccIndices && Indexed(s, g'.sccIndices[rc])
  {
    g.(sccs := g.sccs[rc := s], sccIndices := g.sccIndices[rc := IndexOf(s)])
  }

  /**
    The merge of the SCCs at positions `b..e` of RefSCC `rc` into the SCC at `e`: their
    nodes are appended to its node list and mapped to it, they are cleared and leave the
    RefSCC, and the positions after them move down by the number merged.
   */
  ghost function MergeRange(g: Graph, rc: RefSccId, b: nat, e: nat): (g': Graph)
    requires rc in g.sccs && rc in g.sccIndices && b < e < |g.sccs[rc]|
    ensures rc in g'.sccs && g'.sccs[rc] == g.sccs[rc][..b] + g.sccs[rc][e..]
  {
    var s := g.sccs[rc];
    var range := s[b..e];
    var target := s[e];
    var moved := NodesOf(g.sccNodes, range);
    var cleared: map<SccId, seq<NodeId>> := map c | c in range :: [];
    g.(sccMap := g.sccMap + map n | n in moved :: target,
       sccNodes := (g.sccNodes + cleared)[target := NodesIn(g.sccNodes, target) + moved],
       outer := g.outer - (set c | c in range),
       sccs := g.sccs[rc := s[..b] + s[e..]],
       sccIndices := g.sccIndices[rc := Compact(g.sccIndices[rc], range, b, e)])
  }

  /** The SCC and RefSCC facts the switch starts from. */
  ghost predicate SwitchPre(g: Graph, src: NodeId, tgt: NodeId)
  {
    && GraphValid(g) && src in g.edges && tgt in g.edges[src] && g.edges[src][tgt] == Ref
    && src in g.sccMap && tgt in g.sccMap && RefSccOf(g, src) == RefSccOf(g, tgt)
  }

  /** Where the source's and the target's SCCs sit in their RefSCC. */
  lemma SwitchPositions(g: Graph, src: NodeId, tgt: NodeId)
    requires SwitchPre(g, src, tgt)
    ensures var cs, ct := g.sccMap[src], g.sccMap[tgt]; var rc := g.outer[cs];
      && RefSccValid(g, rc) && cs in g.sccIndices[rc] && ct in g.sccIndices[rc]
      && g.sccs[rc][g.sccIndices[rc][cs]] == cs && g.sccs[rc][g.sccIndices[rc][ct]] == ct
      && (cs != ct ==> g.sccIndices[rc][cs] != g.sccIndices[rc][ct])
  {
    var cs, ct := g.sccMap[src], g.sccMap[tgt];
    assert LiveScc(g, cs) && LiveScc(g, ct);
    LiveSccIndexed(g, cs);
    LiveSccIndexed(g, ct);
    var rc := g.outer[cs];
    assert g.postOrder[g.refIndices[rc]] == rc;
  }

  /** The repair of the SCC sequence of the source's RefSCC for the new call edge. */
  ghost function SwitchRepair(g: Graph, src: NodeId, tgt: NodeId): (r: Repaired)
    requires SwitchPre(g, src, tgt) && !Backward(g, src, tgt)
    ensures RepairEndsAt(r, g.sccMap[src], g.sccMap[tgt])
  {
    var cs, ct := g.sccMap[src], g.sccMap[tgt];
    var rc := g.outer[cs];
    SwitchPositions(g, src, tgt);
    RepairBetween(g.sccs[rc], g.sccIndices[rc], LocalCallGraph(g, g.sccs[rc]), cs, ct)
  }

  /**
    Switching the ref edge from `src` to `tgt`, inside one RefSCC, to a call edge.  The
    flag says whether a new cycle formed: it is false, with only the edge kind changed,
    when both ends share an SCC or the target's SCC is already earlier in the postorder
    sequence; otherwise the sequence is repaired, and the SCCs of the range the repair
    returns, if any, are merged into the target's SCC.
   */
  ghost function SwitchInternalEdgeToCall(g: Graph, src: NodeId, tgt: NodeId): (r: (Graph, bool))
    requires SwitchPre(g, src, tgt)
  {
    SwitchPositions(g, src, tgt);
    if Backward(g, src, tgt) then (WithEdge(g, src, tgt, Call), false)
    else SwitchWithRepair(g, src, tgt)
  }

  /** The target's SCC is the source's or comes before it in their RefSCC's sequence. */
  ghost predicate Backward(g: Graph, src: NodeId, tgt: NodeId)
  {
    && src in g.sccMap && tgt in g.sccMap
    && var cs, ct := g.sccMap[src], g.sccMap[tgt];
    || cs == ct
    || (&& cs in g.outer && g.outer[cs] in g.sccIndices
        && var idx := g.sccIndices[g.outer[cs]]; cs in idx && ct in idx && idx[ct] < idx[cs])
  }

  /** The switch when the target's SCC comes after the source's: repair, then merge. */
  ghost function SwitchWithRepair(g: Graph, src: NodeId, tgt: NodeId): (r: (Graph, bool))
    requires SwitchPre(g, src, tgt) && !Backward(g, src, tgt)
  {
    SwitchPositions(g, src, tgt);
    ApplyRepair(g, g.outer[g.sccMap[src]], SwitchRepair(g, src, tgt), src, tgt)
  }

  /**
    The repaired sequence `r.sccs` installed in RefSCC `rc`, the SCCs of the range merged
    into the SCC at its end when the range is not empty, and the edge made a call.
   */
  ghost function ApplyRepair(g: Graph, rc: RefSccId, r: Repaired, src: NodeId, tgt: NodeId): (Graph, bool)
    requires src in g.edges && Distinct(r.sccs) && r.begin <= r.end < |r.sccs|
  {
    var g1 := WithSccOrder(g, rc, r.sccs);
    if r.begin == r.end then (WithEdge(g1, src, tgt, Call), false)
    else (WithEdge(MergeRange(g1, rc, r.begin, r.end), src, tgt, Call), true)
  }

  /** Where the merge sends an SCC: the merged ones to the target, the rest stay. */
  ghost function Redirect(range: seq<SccId>, target: SccId, d: SccId): SccId
  {
    if d in range then target else d
  }

  /** The setting of a merge: a valid graph and a range followed by its target in a live RefSCC. */
  ghost predicate MergeSetting(g: Graph, rc: RefSccId, b: nat, e: nat)
  {
    GraphValid(g) && rc in g.refIndices && RefSccValid(g, rc) && b < e < |g.sccs[rc]|
  }

  /** After the merge every node of a merged SCC is in the target, and no other node moves. */
  lemma MergeSccMap(g: Graph, rc: RefSccId, b: nat, e: nat)
    requires SccPartition(g) && rc in g.sccs && rc in g.sccIndices && b < e < |g.sccs[rc]|
    ensures var gm, s := MergeRange(g, rc, b, e), g.sccs[rc];
      && gm.sccMap.Keys == g.sccMap.Keys
      && forall n :: n in g.sccMap ==> gm.sccMap[n] == Redirect(s[b..e], s[e], g.sccMap[n])
  {
    var gm, s := MergeRange(g, rc, b, e), g.sccs[rc];
    var range := s[b..e];
    forall n | n in g.sccMap ensures n in gm.sccMap && gm.sccMap[n] == Redirect(range, s[e], g.sccMap[n]) {
      NodesOfMembers(g.sccNodes, range, n);
      if g.sccMap[n] in range {
        var k :| 0 <= k < |range| && range[k] == g.sccMap[n];
      }
    }
    forall n | n in gm.sccMap ensures n in g.sccMap {
      NodesOfMembers(g.sccNodes, range, n);
    }
  }

  /** The merged SCCs lie before the target and are distinct from it. */
  lemma RangeFacts(g: Graph, rc: RefSccId, b: nat, e: nat)
    requires RefSccValid(g, rc) && b < e < |g.sccs[rc]|
    ensures var s := g.sccs[rc];
      && Distinct(s) && s[e] !in s[b..e]
      && (forall c :: c in s[b..e] ==> c in s && c in g.outer && g.outer[c] == rc && c in g.sccNodes)
      && s[e] in g.sccNodes && |g.sccNodes[s[e]]| > 0 && s[e] in g.outer && g.outer[s[e]] == rc
  {
    var s := g.sccs[rc];
    IndexedDistinct(s, g.sccIndices[rc]);
    forall k | 0 <= k < e - b ensures s[b..e][k] != s[e] {
      assert s[b..e][k] == s[b + k];
    }
  }

  /** The merge keeps the SCC map and the node lists in agreement. */
  lemma MergePartition(g: Graph, rc: RefSccId, b: nat, e: nat)
    requires SccPartition(g) && RefSccValid(g, rc) && b < e < |g.sccs[rc]|
    ensures SccPartition(MergeRange(g, rc, b, e))
  {
    MergeMapListed(g, rc, b, e);
    MergeListedMapped(g, rc, b, e);
  }

  lemma MergeMapListed(g: Graph, rc: RefSccId, b: nat, e: nat)
    requires SccPartition(g) && RefSccValid(g, rc) && b < e < |g.sccs[rc]|
    ensures var gm := MergeRange(g, rc, b, e);
      forall n :: n in gm.sccMap ==> n in gm.edges && gm.sccMap[n] in gm.sccNodes && n in gm.sccNodes[gm.sccMap[n]]
  {
    var gm, s := MergeRange(g, rc, b, e), g.sccs[rc];
    MergeSccMap(g, rc, b, e);
    MovedListed(g, rc, b, e);
    MergeOtherLists(g, rc, b, e);
    forall n | n in gm.sccMap ensures gm.sccMap[n] in gm.sccNodes && n in gm.sccNodes[gm.sccMap[n]] {
      ListedAt(g, gm, s[b..e], s[e], n);
    }
  }

  /** The lists of the SCCs that neither merge nor receive the merged nodes stay as they were. */
  lemma MergeOtherLists(g: Graph, rc: RefSccId, b: nat, e: nat)
    requires rc in g.sccs && rc in g.sccIndices && b < e < |g.sccs[rc]|
    ensures var gm, s := MergeRange(g, rc, b, e), g.sccs[rc];
      forall d :: d in g.sccNodes && d !in s[b..e] && d != s[e] ==> d in gm.sccNodes && gm.sccNodes[d] == g.sccNodes[d]
  {
  }

  lemma ListedAt(g: Graph, gm: Graph, range: seq<SccId>, target: SccId, n: NodeId)
    requires SccPartition(g) && n in g.sccMap && n in gm.sccMap
    requires gm.sccMap[n] == Redirect(range, target, g.sccMap[n])
    requires g.sccMap[n] in range || g.sccMap[n] == target ==> target in gm.sccNodes && n in gm.sccNodes[target]
    requires forall d :: d in g.sccNodes && d !in range && d != target ==> d in gm.sccNodes && gm.sccNodes[d] == g.sccNodes[d]
    ensures gm.sccMap[n] in gm.sccNodes && n in gm.sccNodes[gm.sccMap[n]]
  {
  }

  /** The target lists its own nodes and those of the merged SCCs. */
  lemma MovedListed(g: Graph, rc: RefSccId, b: nat, e: nat)
    requires SccPartition(g) && RefSccValid(g, rc) && b < e < |g.sccs[rc]|
    ensures var gm, s := MergeRange(g, rc, b, e), g.sccs[rc];
      forall n :: n in g.sccMap && (g.sccMap[n] in s[b..e] || g.sccMap[n] == s[e]) ==>
        s[e] in gm.sccNodes && n in gm.sccNodes[s[e]]
  {
    var gm, s := MergeRange(g, rc, b, e), g.sccs[rc];
    var range, target := s[b..e], s[e];
    var moved := NodesOf(g.sccNodes, range);
    assert gm.sccNodes[target] == NodesIn(g.sccNodes, target) + moved;
    forall n | n in g.sccMap && g.sccMap[n] in range ensures n in moved {
      var k :| 0 <= k < |range| && range[k] == g.sccMap[n];
      NodesOfMembers(g.sccNodes, range, n);
    }
  }

  lemma MergeListedMapped(g: Graph, rc: RefSccId, b: nat, e: nat)
    requires SccPartition(g) && RefSccValid(g, rc) && b < e < |g.sccs[rc]|
    ensures var gm := MergeRange(g, rc, b, e);
      forall c, n :: c in gm.sccNodes && n in gm.sccNodes[c] ==> n in gm.sccMap && gm.sccMap[n] == c
  {
    var gm, s := MergeRange(g, rc, b, e), g.sccs[rc];
    var range, target := s[b..e], s[e];
    var moved := NodesOf(g.sccNodes, range);
    RangeFacts(g, rc, b, e);
    MergeSccMap(g, rc, b, e);
    forall c, n | c in gm.sccNodes && n in gm.sccNodes[c] ensures n in gm.sccMap && gm.sccMap[n] == c {
      if c == target {
        assert gm.sccNodes[target] == NodesIn(g.sccNodes, target) + moved;
        NodesOfMembers(g.sccNodes, range, n);
        if n in moved {
          var k :| 0 <= k < |range| && range[k] in g.sccNodes && n in g.sccNodes[range[k]];
        }
      } else if c !in range {
        assert gm.sccNodes[c] == g.sccNodes[c];
      }
    }
  }

  /** An entry outside the erased range survives the erasure. */
  lemma SurvivesErase(s: seq<nat>, b: nat, e: nat, x: nat)
    requires b <= e <= |s| && x in s && x !in s[b..e]
    ensures x in s[..b] + s[e..]
  {
    var k :| 0 <= k < |s| && s[k] == x;
    assert k < b || e <= k by {
      assert forall j :: b <= j < e ==> s[b..e][j - b] == s[j];
    }
    if k < b {
      assert (s[..b] + s[e..])[k] == x;
    } else {
      assert (s[..b] + s[e..])[k - (e - b)] == x;
    }
  }

  /** After the merge the SCC of every node is still live. */
  lemma MergeSccsInRefSccs(g: Graph, rc: RefSccId, b: nat, e: nat)
    requires SccPartition(g) && SccsInRefSccs(g) && rc in g.refIndices && RefSccValid(g, rc) && b < e < |g.sccs[rc]|
    ensures SccsInRefSccs(MergeRange(g, rc, b, e))
  {
    var gm, s := MergeRange(g, rc, b, e), g.sccs[rc];
    RangeFacts(g, rc, b, e);
    MergeSccMap(g, rc, b, e);
    forall n | n in gm.sccMap ensures LiveScc(gm, gm.sccMap[n]) {
      MergeLive(g, rc, b, e, n);
    }
  }

  lemma MergeLive(g: Graph, rc: RefSccId, b: nat, e: nat, n: NodeId)
    requires SccPartition(g) && SccsInRefSccs(g) && rc in g.refIndices && RefSccValid(g, rc) && b < e < |g.sccs[rc]|
    requires n in g.sccMap
    requires var s := g.sccs[rc]; MergeRange(g, rc, b, e).sccMap[n] == Redirect(s[b..e], s[e], g.sccMap[n])
    requires var s := g.sccs[rc]; s[e] !in s[b..e] && s[e] in g.sccNodes && s[e] in g.outer && g.outer[s[e]] == rc
    ensures LiveScc(MergeRange(g, rc, b, e), MergeRange(g, rc, b, e).sccMap[n])
  {
    var gm, s := MergeRange(g, rc, b, e), g.sccs[rc];
    var d := gm.sccMap[n];
    assert LiveScc(g, g.sccMap[n]);
    assert d in g.outer && d !in s[b..e] && d in g.sccNodes;
    MergeKeepsOutside(g, rc, b, e, d);
    if g.outer[d] == rc {
      assert d in s by {
        if d == s[e] {
          assert s[e] in s;
        }
      }
      SurvivesErase(s, b, e, d);
    }
  }

  /**
    `gm` is `g` with the SCCs `range` merged into `target`, as far as the SCC graph is
    concerned: the same edges, and every node redirected.
   */
  ghost predicate Merged(g: Graph, gm: Graph, range: seq<SccId>, target: SccId)
  {
    && gm.edges == g.edges && gm.sccMap.Keys == g.sccMap.Keys && SccPartition(gm)
    && forall n :: n in g.sccMap ==> gm.sccMap[n] == Redirect(range, target, g.sccMap[n])
  }

  lemma MergeIsMerged(g: Graph, rc: RefSccId, b: nat, e: nat)
    requires SccPartition(g) && RefSccValid(g, rc) && b < e < |g.sccs[rc]|
    ensures Merged(g, MergeRange(g, rc, b, e), g.sccs[rc][b..e], g.sccs[rc][e])
  {
    MergeSccMap(g, rc, b, e);
    MergePartition(g, rc, b, e);
  }

  /**
    Every edge of the merged SCC graph is an edge of the old one with its ends
    redirected: it leaves the same SCC, or leaves a merged SCC and now the target.
   */
  lemma MergedEdgeFrom(g: Graph, gm: Graph, range: seq<SccId>, target: SccId, c: SccId, d: SccId)
    returns (c0: SccId, d0: SccId)
    requires SccPartition(g) && Merged(g, gm, range, target)
    requires c in CallGraph(gm) && d in CallGraph(gm)[c]
    ensures c0 in CallGraph(g) && d0 in CallGraph(g)[c0]
    ensures (c0 == c || (c == target && c0 in range)) && d == Redirect(range, target, d0)
  {
    var n, t := CallGraphEdgeWitness(gm, c, d);
    assert gm.sccMap[n] == c;
    c0, d0 := g.sccMap[n], g.sccMap[t];
    assert c == Redirect(range, target, c0);
    CallEdgeInCallGraph(g, n, t);
  }

  /** An edge of the SCC graph comes from a call edge between nodes of the two SCCs. */
  lemma CallGraphEdgeWitness(g: Graph, c: SccId, d: SccId) returns (n: NodeId, t: NodeId)
    requires SccPartition(g) && c in CallGraph(g) && d in CallGraph(g)[c]
    ensures n in g.sccMap && g.sccMap[n] == c && n in g.edges && t in g.edges[n] && g.edges[n][t] == Call
    ensures t in g.sccMap && g.sccMap[t] == d
  {
    var ns := g.sccNodes[c];
    assert d in CalleeSccs(g.edges, g.sccMap, ns);
    n, t :| n in ns && n in g.edges && t in g.edges[n] && g.edges[n][t] == Call && t in g.sccMap && g.sccMap[t] == d;
  }

  /** A call edge between nodes in SCCs is an edge of the SCC graph. */
  lemma CallEdgeInCallGraph(g: Graph, n: NodeId, t: NodeId)
    requires SccPartition(g) && n in g.sccMap && n in g.edges && t in g.edges[n] && g.edges[n][t] == Call && t in g.sccMap
    ensures g.sccMap[n] in CallGraph(g) && g.sccMap[t] in CallGraph(g)[g.sccMap[n]]
  {
    var c := g.sccMap[n];
    assert n in g.sccNodes[c];
    assert g.sccMap[t] in CalleeSccs(g.edges, g.sccMap, g.sccNodes[c]);
  }

  /** The merge keeps the postorder of the merging RefSCC's remaining sequence. */
  lemma MergedOwnOrder(g: Graph, gm: Graph, s: seq<SccId>, b: nat, e: nat)
    requires SccPartition(g) && Distinct(s) && NoForwardEdge(s, CallGraph(g)) && b < e < |s|
    requires Merged(g, gm, s[b..e], s[e])
    ensures NoForwardEdge(s[..b] + s[e..], CallGraph(gm))
  {
    MergedEdgesOutside(g, gm, s, b, e);
    MergedEdgesOfTarget(g, gm, s, b, e);
    MergeKeepsNoForwardEdge(s, CallGraph(g), CallGraph(gm), b, e);
  }

  /**
    An edge of the merged graph from outside the range is an old edge, or an edge into
    the target from an SCC that had one into the range.
   */
  lemma MergedEdgesOutside(g: Graph, gm: Graph, s: seq<SccId>, b: nat, e: nat)
    requires SccPartition(g) && Distinct(s) && b < e < |s|
    requires Merged(g, gm, s[b..e], s[e])
    ensures var G, h := CallGraph(g), CallGraph(gm);
      forall i, j :: 0 <= i < |s| && 0 <= j < |s| && !(b <= i <= e) && s[i] in h && s[j] in h[s[i]] ==>
        (s[i] in G && s[j] in G[s[i]]) || (j == e && exists k :: b <= k <= e && s[i] in G && s[k] in G[s[i]])
  {
    var G, h := CallGraph(g), CallGraph(gm);
    var range := s[b..e];
    forall i, j | 0 <= i < |s| && 0 <= j < |s| && !(b <= i <= e) && s[i] in h && s[j] in h[s[i]]
      ensures (s[i] in G && s[j] in G[s[i]]) || (j == e && exists k :: b <= k <= e && s[i] in G && s[k] in G[s[i]])
    {
      var c0, d0 := MergedEdgeFrom(g, gm, range, s[e], s[i], s[j]);
      assert c0 == s[i];
      if d0 in range {
        var k := RangePosition(s, b, e, d0);
        assert b <= k <= e && s[i] in G && s[k] in G[s[i]];
      }
    }
  }

  /** An edge of the merged target is an old edge of the target or of a merged SCC. */
  lemma MergedEdgesOfTarget(g: Graph, gm: Graph, s: seq<SccId>, b: nat, e: nat)
    requires SccPartition(g) && Distinct(s) && b < e < |s|
    requires Merged(g, gm, s[b..e], s[e])
    ensures var G, h := CallGraph(g), CallGraph(gm);
      forall j :: 0 <= j < |s| && j != e && s[e] in h && s[j] in h[s[e]] ==>
        exists k :: b <= k <= e && s[k] in G && s[j] in G[s[k]]
  {
    var G, h := CallGraph(g), CallGraph(gm);
    var range := s[b..e];
    forall j | 0 <= j < |s| && j != e && s[e] in h && s[j] in h[s[e]]
      ensures exists k :: b <= k <= e && s[k] in G && s[j] in G[s[k]]
    {
      var c0, d0 := MergedEdgeFrom(g, gm, range, s[e], s[e], s[j]);
      assert s[j] == d0;
      if c0 in range {
        var k := RangePosition(s, b, e, c0);
        assert b <= k <= e && s[k] in G && s[j] in G[s[k]];
      } else {
        assert b <= e <= e && s[e] in G && s[j] in G[s[e]];
      }
    }
  }

  /** The position of an entry of the slice `s[b..e]` in `s`. */
  lemma RangePosition(s: seq<nat>, b: nat, e: nat, x: nat) returns (k: nat)
    requires b <= e <= |s| && x in s[b..e]
    ensures b <= k < e && s[k] == x
  {
    var i :| 0 <= i < e - b && s[b..e][i] == x;
    k := b + i;
  }

  /** The merge keeps the postorder of every sequence of SCCs it does not touch. */
  lemma MergedOtherOrder(g: Graph, gm: Graph, range: seq<SccId>, target: SccId, s: seq<SccId>)
    requires SccPartition(g) && Merged(g, gm, range, target) && NoForwardEdge(s, CallGraph(g))
    requires forall i :: 0 <= i < |s| ==> s[i] !in range && s[i] != target
    ensures NoForwardEdge(s, CallGraph(gm))
  {
    var G, h := CallGraph(g), CallGraph(gm);
    forall i, j | 0 <= i < |s| && 0 <= j < |s| && s[i] in h && s[j] in h[s[i]] ensures s[i] in G && s[j] in G[s[i]] {
      var c0, d0 := MergedEdgeFrom(g, gm, range, target, s[i], s[j]);
    }
    FewerEdgesKeepNoForwardEdge(s, h, G);
  }

  /** The merge keeps the RefSCC of every node that has one. */
  lemma MergeRefSccOfTargets(g: Graph, rc: RefSccId, b: nat, e: nat)
    requires SccPartition(g) && RefSccValid(g, rc) && b < e < |g.sccs[rc]|
    ensures var gm := MergeRange(g, rc, b, e);
      && (forall t :: (t in gm.sccMap && gm.sccMap[t] in gm.outer) <==> (t in g.sccMap && g.sccMap[t] in g.outer))
      && (forall t :: t in gm.sccMap && gm.sccMap[t] in gm.outer ==> gm.outer[gm.sccMap[t]] == g.outer[g.sccMap[t]])
  {
    var gm, s := MergeRange(g, rc, b, e), g.sccs[rc];
    RangeFacts(g, rc, b, e);
    MergeSccMap(g, rc, b, e);
    forall t | t in g.sccMap
      ensures (gm.sccMap[t] in gm.outer <==> g.sccMap[t] in g.outer)
      ensures gm.sccMap[t] in gm.outer ==> gm.outer[gm.sccMap[t]] == g.outer[g.sccMap[t]]
    {
      RedirectOuter(g.outer, gm.outer, s[b..e], s[e], g.sccMap[t]);
    }
  }

  /** Redirecting an SCC keeps its RefSCC, when the merged SCCs share the target's. */
  lemma RedirectOuter(o: map<SccId, RefSccId>, om: map<SccId, RefSccId>, range: seq<SccId>, target: SccId, d: SccId)
    requires target !in range && target in o
    requires forall c :: c in range ==> c in o && o[c] == o[target]
    requires om == o - (set c | c in range)
    ensures Redirect(range, target, d) in om <==> d in o
    ensures Redirect(range, target, d) in om ==> om[Redirect(range, target, d)] == o[d]
  {
  }

  /** The merging RefSCC keeps its nodes. */
  lemma MergeOwnNodes(g: Graph, rc: RefSccId, b: nat, e: nat)
    requires SccPartition(g) && RefSccValid(g, rc) && b < e < |g.sccs[rc]|
    ensures var gm := MergeRange(g, rc, b, e);
      forall n :: n in NodesOf(gm.sccNodes, gm.sccs[rc]) <==> n in NodesOf(g.sccNodes, g.sccs[rc])
  {
    var gm, s := MergeRange(g, rc, b, e), g.sccs[rc];
    RangeFacts(g, rc, b, e);
    MergeIsMerged(g, rc, b, e);
    forall n ensures n in NodesOf(gm.sccNodes, gm.sccs[rc]) <==> n in NodesOf(g.sccNodes, s) {
      MergedNodeIn(g, gm, s, b, e, n);
    }
  }

  lemma MergedNodeIn(g: Graph, gm: Graph, s: seq<SccId>, b: nat, e: nat, n: NodeId)
    requires b < e < |s| && s[e] !in s[b..e] && SccPartition(g) && Merged(g, gm, s[b..e], s[e])
    ensures n in NodesOf(gm.sccNodes, s[..b] + s[e..]) <==> n in NodesOf(g.sccNodes, s)
  {
    var q := s[..b] + s[e..];
    NodesOfPartition(gm, q, n);
    NodesOfPartition(g, s, n);
    if n in g.sccMap {
      var d := g.sccMap[n];
      if d in s[b..e] {
        assert q[b] == s[e];
        SliceSubset(s, b, e, d);
      } else {
        if d in s {
          SurvivesErase(s, b, e, d);
        }
        if d in q {
          ErasedSubset(s, b, e, d);
        }
      }
    }
  }

  lemma SliceSubset(s: seq<nat>, b: nat, e: nat, x: nat)
    requires b <= e <= |s| && x in s[b..e]
    ensures x in s
  {
    var k :| 0 <= k < e - b && s[b..e][k] == x;
    assert s[b + k] == x;
  }

  lemma ErasedSubset(s: seq<nat>, b: nat, e: nat, x: nat)
    requires b <= e <= |s| && x in s[..b] + s[e..]
    ensures x in s
  {
    var q := s[..b] + s[e..];
    var k :| 0 <= k < |q| && q[k] == x;
    if k < b {
      assert s[k] == x;
    } else {
      assert s[k + (e - b)] == x;
    }
  }

  /** The merge leaves the other RefSCCs and their nodes alone. */
  lemma MergeOtherNodes(g: Graph, rc: RefSccId, b: nat, e: nat, r: RefSccId)
    requires RefSccValid(g, rc) && b < e < |g.sccs[rc]| && RefSccValid(g, r) && r != rc
    ensures var gm := MergeRange(g, rc, b, e);
      gm.sccs[r] == g.sccs[r] && NodesOf(gm.sccNodes, g.sccs[r]) == NodesOf(g.sccNodes, g.sccs[r])
  {
    var gm := MergeRange(g, rc, b, e);
    RangeFacts(g, rc, b, e);
    forall k | 0 <= k < |g.sccs[r]| ensures NodesIn(gm.sccNodes, g.sccs[r][k]) == NodesIn(g.sccNodes, g.sccs[r][k]) {
      MergeOtherScc(g, rc, b, e, g.sccs[r][k]);
    }
    NodesOfAgree(gm.sccNodes, g.sccNodes, g.sccs[r]);
  }

  /** An SCC of another RefSCC keeps its node list. */
  lemma MergeOtherScc(g: Graph, rc: RefSccId, b: nat, e: nat, c: SccId)
    requires RefSccValid(g, rc) && b < e < |g.sccs[rc]| && c in g.outer && g.outer[c] != rc
    ensures NodesIn(MergeRange(g, rc, b, e).sccNodes, c) == NodesIn(g.sccNodes, c)
  {
    RangeFacts(g, rc, b, e);
    var s := g.sccs[rc];
    assert c !in s[b..e] && c != s[e];
  }

  /** The merge does not change the RefSCC graph. */
  lemma MergeRefGraph(g: Graph, rc: RefSccId, b: nat, e: nat)
    requires SccPartition(g) && Indexed(g.postOrder, g.refIndices) && RefSccsValid(g)
    requires RefSccValid(g, rc) && b < e < |g.sccs[rc]|
    ensures RefGraph(MergeRange(g, rc, b, e)) == RefGraph(g)
  {
    var gm := MergeRange(g, rc, b, e);
    SameRefGraphKeys(g, gm);
    forall r | r in RefGraph(g) ensures RefGraph(gm)[r] == RefGraph(g)[r] {
      MergeRefGraphAt(g, rc, b, e, r);
    }
  }

  lemma SameRefGraphKeys(g: Graph, g': Graph)
    requires g'.refIndices == g.refIndices && g'.sccs.Keys == g.sccs.Keys
    ensures RefGraph(g').Keys == RefGraph(g).Keys
  {
  }

  lemma MergeRefGraphAt(g: Graph, rc: RefSccId, b: nat, e: nat, r: RefSccId)
    requires SccPartition(g) && Indexed(g.postOrder, g.refIndices) && RefSccsValid(g)
    requires RefSccValid(g, rc) && b < e < |g.sccs[rc]| && r in RefGraph(g)
    ensures var gm := MergeRange(g, rc, b, e); r in RefGraph(gm) && RefGraph(gm)[r] == RefGraph(g)[r]
  {
    var gm := MergeRange(g, rc, b, e);
    MergeRefSccOfTargets(g, rc, b, e);
    if r != rc {
      assert g.postOrder[g.refIndices[r]] == r;
      assert RefSccValid(g, r);
      MergeOtherNodes(g, rc, b, e, r);
    } else {
      MergeOwnNodes(g, rc, b, e);
    }
    ReferencedSame(g.edges, gm.sccMap, gm.outer, NodesOf(gm.sccNodes, gm.sccs[r]),
                   g.sccMap, g.outer, NodesOf(g.sccNodes, g.sccs[r]));
  }

  /** The merging RefSCC stays valid: compacted, indexed, and in postorder. */
  lemma MergeOwnValid(g: Graph, rc: RefSccId, b: nat, e: nat)
    requires SccPartition(g) && RefSccValid(g, rc) && b < e < |g.sccs[rc]|
    ensures RefSccValid(MergeRange(g, rc, b, e), rc)
  {
    var gm, s := MergeRange(g, rc, b, e), g.sccs[rc];
    RangeFacts(g, rc, b, e);
    CompactIndexed(s, g.sccIndices[rc], b, e);
    MergeOwnEntries(g, rc, b, e);
    MergeIsMerged(g, rc, b, e);
    MergedOwnOrder(g, gm, s, b, e);
  }

  lemma MergeOwnEntries(g: Graph, rc: RefSccId, b: nat, e: nat)
    requires SccPartition(g) && RefSccValid(g, rc) && b < e < |g.sccs[rc]|
    ensures var gm, s' := MergeRange(g, rc, b, e), g.sccs[rc][..b] + g.sccs[rc][e..];
      forall i :: 0 <= i < |s'| ==>
        s'[i] in gm.sccNodes && |gm.sccNodes[s'[i]]| > 0 && s'[i] in gm.outer && gm.outer[s'[i]] == rc
  {
    var gm, s := MergeRange(g, rc, b, e), g.sccs[rc];
    var s' := s[..b] + s[e..];
    RangeFacts(g, rc, b, e);
    forall i | 0 <= i < |s'|
      ensures s'[i] in gm.sccNodes && |gm.sccNodes[s'[i]]| > 0 && s'[i] in gm.outer && gm.outer[s'[i]] == rc
    {
      var j := ErasedOutside(s, b, e, i);
      MergeKeepsOutside(g, rc, b, e, s[j]);
    }
  }

  /** An entry left after erasing `b..e` from a distinct sequence is no erased entry. */
  lemma ErasedOutside(s: seq<nat>, b: nat, e: nat, i: nat) returns (j: nat)
    requires Distinct(s) && b <= e <= |s| && i < |s| - (e - b)
    ensures j < |s| && (s[..b] + s[e..])[i] == s[j] && s[j] !in s[b..e]
  {
    j := if i < b then i else i + (e - b);
    forall k | 0 <= k < e - b ensures s[b..e][k] != s[j] {
      assert s[b..e][k] == s[b + k];
    }
  }

  /** An SCC outside the merged range keeps its RefSCC and at least its nodes. */
  lemma MergeKeepsOutside(g: Graph, rc: RefSccId, b: nat, e: nat, x: SccId)
    requires rc in g.sccs && rc in g.sccIndices && b < e < |g.sccs[rc]|
    requires x !in g.sccs[rc][b..e] && x in g.sccNodes && x in g.outer
    ensures var gm := MergeRange(g, rc, b, e);
      x in gm.sccNodes && |gm.sccNodes[x]| >= |g.sccNodes[x]| && x in gm.outer && gm.outer[x] == g.outer[x]
  {
  }

  /** Every other RefSCC of the sequence stays valid. */
  lemma MergeOtherValid(g: Graph, rc: RefSccId, b: nat, e: nat, r: RefSccId)
    requires SccPartition(g) && RefSccValid(g, rc) && b < e < |g.sccs[rc]| && RefSccValid(g, r) && r != rc
    ensures RefSccValid(MergeRange(g, rc, b, e), r)
  {
    var gm, s := MergeRange(g, rc, b, e), g.sccs[rc];
    RangeFacts(g, rc, b, e);
    MergeOtherLists(g, rc, b, e);
    forall k | 0 <= k < |g.sccs[r]| ensures g.sccs[r][k] !in s[b..e] && g.sccs[r][k] != s[e] {
      assert g.outer[g.sccs[r][k]] == r;
    }
    forall k | 0 <= k < |g.sccs[r]|
      ensures var c := g.sccs[r][k]; c in gm.sccNodes && gm.sccNodes[c] == g.sccNodes[c] && c in gm.outer && gm.outer[c] == g.outer[c]
    {
      MergeKeepsOutside(g, rc, b, e, g.sccs[r][k]);
    }
    MergeIsMerged(g, rc, b, e);
    MergedOtherOrder(g, gm, s[b..e], s[e], g.sccs[r]);
    RefSccValidTransfer(g, gm, r);
  }

  /** Merging a range of a RefSCC into the SCC that follows it keeps the invariant. */
  lemma MergeValid(g: Graph, rc: RefSccId, b: nat, e: nat)
    requires MergeSetting(g, rc, b, e)
    ensures GraphValid(MergeRange(g, rc, b, e))
  {
    var gm := MergeRange(g, rc, b, e);
    MergePartition(g, rc, b, e);
    MergeSccMap(g, rc, b, e);
    assert DfsAtRest(gm);
    MergeSccsInRefSccs(g, rc, b, e);
    MergeRefSccsValid(g, rc, b, e);
    MergeRefGraph(g, rc, b, e);
  }

  lemma MergeRefSccsValid(g: Graph, rc: RefSccId, b: nat, e: nat)
    requires SccPartition(g) && RefSccsValid(g) && RefSccValid(g, rc) && b < e < |g.sccs[rc]|
    ensures RefSccsValid(MergeRange(g, rc, b, e))
  {
    forall i | 0 <= i < |g.postOrder| ensures RefSccValid(MergeRange(g, rc, b, e), g.postOrder[i]) {
      if g.postOrder[i] == rc {
        MergeOwnValid(g, rc, b, e);
      } else {
        MergeOtherValid(g, rc, b, e, g.postOrder[i]);
      }
    }
  }

  /** `s` and `t` hold the same SCCs. */
  ghost predicate SameMembers(s: seq<SccId>, t: seq<SccId>)
  {
    forall x :: x in s <==> x in t
  }

  lemma PermutationMembers(s: seq<SccId>, t: seq<SccId>)
    requires multiset(s) == multiset(t)
    ensures SameMembers(s, t) && |s| == |t|
  {
    forall x ensures x in s <==> x in t {
      assert x in s <==> x in multiset(s);
      assert x in t <==> x in multiset(t);
    }
    assert |s| == |multiset(s)|;
  }

  /** Reordering the SCCs of a RefSCC into another postorder keeps the invariant. */
  lemma SccOrderValid(g: Graph, rc: RefSccId, s: seq<SccId>)
    requires GraphValid(g) && rc in g.refIndices && RefSccValid(g, rc)
    requires Distinct(s) && multiset(s) == multiset(g.sccs[rc]) && NoForwardEdge(s, CallGraph(g))
    ensures GraphValid(WithSccOrder(g, rc, s))
  {
    SccOrderParts(g, rc, s);
    SameNodesValid(g, WithSccOrder(g, rc, s));
  }

  /** A graph that differs from a valid one only in the SCC orders, if these are valid, is valid. */
  lemma SameNodesValid(g: Graph, g1: Graph)
    requires GraphValid(g)
    requires g1.edges == g.edges && g1.entry == g.entry && g1.sccMap == g.sccMap && g1.sccNodes == g.sccNodes
    requires g1.postOrder == g.postOrder && g1.refIndices == g.refIndices && g1.dfs == g.dfs && g1.low == g.low
    requires SccsInRefSccs(g1) && RefSccsValid(g1) && RefGraph(g1) == RefGraph(g)
    ensures GraphValid(g1)
  {
    SameStructure(g, g1);
  }

  /** The node-level parts of the invariant read only the edges, the SCC map and the lists. */
  lemma SameStructure(g: Graph, g1: Graph)
    requires g1.edges == g.edges && g1.entry == g.entry && g1.sccMap == g.sccMap && g1.sccNodes == g.sccNodes
    requires g1.dfs == g.dfs && g1.low == g.low
    ensures EdgesClosed(g1) == EdgesClosed(g) && SccPartition(g1) == SccPartition(g) && DfsAtRest(g1) == DfsAtRest(g)
  {
  }

  lemma SccOrderParts(g: Graph, rc: RefSccId, s: seq<SccId>)
    requires GraphValid(g) && rc in g.refIndices && RefSccValid(g, rc)
    requires Distinct(s) && multiset(s) == multiset(g.sccs[rc]) && NoForwardEdge(s, CallGraph(g))
    ensures var g1 := WithSccOrder(g, rc, s);
      SccsInRefSccs(g1) && RefSccsValid(g1) && RefGraph(g1) == RefGraph(g)
  {
    PermutationMembers(s, g.sccs[rc]);
    SccOrderSccsInRefSccs(g, rc, s);
    SccOrderRefSccsValid(g, rc, s);
    SccOrderRefGraph(g, rc, s);
  }

  lemma SccOrderSccsInRefSccs(g: Graph, rc: RefSccId, s: seq<SccId>)
    requires SccsInRefSccs(g) && rc in g.sccs && Distinct(s) && SameMembers(s, g.sccs[rc])
    ensures SccsInRefSccs(WithSccOrder(g, rc, s))
  {
    var g1 := WithSccOrder(g, rc, s);
    forall n | n in g1.sccMap ensures LiveScc(g1, g1.sccMap[n]) {
      assert LiveScc(g, g.sccMap[n]);
    }
  }

  lemma SccOrderRefSccsValid(g: Graph, rc: RefSccId, s: seq<SccId>)
    requires RefSccsValid(g) && RefSccValid(g, rc)
    requires Distinct(s) && |s| == |g.sccs[rc]| && SameMembers(s, g.sccs[rc])
    requires NoForwardEdge(s, CallGraph(g))
    ensures RefSccsValid(WithSccOrder(g, rc, s))
  {
    var g1 := WithSccOrder(g, rc, s);
    forall i | 0 <= i < |g.postOrder| ensures RefSccValid(g1, g.postOrder[i]) {
      if g.postOrder[i] == rc {
        SccOrderOwnValid(g, rc, s);
      } else {
        assert RefSccValid(g, g.postOrder[i]);
      }
    }
  }

  lemma SccOrderOwnValid(g: Graph, rc: RefSccId, s: seq<SccId>)
    requires RefSccValid(g, rc)
    requires Distinct(s) && |s| == |g.sccs[rc]| && SameMembers(s, g.sccs[rc])
    requires NoForwardEdge(s, CallGraph(g))
    ensures RefSccValid(WithSccOrder(g, rc, s), rc)
  {
    var g1 := WithSccOrder(g, rc, s);
    assert CallGraph(g1) == CallGraph(g);
    SccOrderEntries(g, rc, s);
  }

  lemma SccOrderEntries(g: Graph, rc: RefSccId, s: seq<SccId>)
    requires RefSccValid(g, rc) && SameMembers(s, g.sccs[rc])
    ensures forall k :: 0 <= k < |s| ==> s[k] in g.sccNodes && |g.sccNodes[s[k]]| > 0 && s[k] in g.outer && g.outer[s[k]] == rc
  {
    forall k | 0 <= k < |s| ensures s[k] in g.sccNodes && |g.sccNodes[s[k]]| > 0 && s[k] in g.outer && g.outer[s[k]] == rc {
      assert s[k] in g.sccs[rc];
      var j :| 0 <= j < |g.sccs[rc]| && g.sccs[rc][j] == s[k];
    }
  }

  lemma SccOrderRefGraph(g: Graph, rc: RefSccId, s: seq<SccId>)
    requires SccPartition(g) && rc in g.sccs && SameMembers(s, g.sccs[rc]) && Distinct(s)
    ensures RefGraph(WithSccOrder(g, rc, s)) == RefGraph(g)
  {
    var g1 := WithSccOrder(g, rc, s);
    SameRefGraphKeys(g, g1);
    forall r | r in RefGraph(g) ensures RefGraph(g1)[r] == RefGraph(g)[r] {
      if r == rc {
        SccOrderReferenced(g, g1, rc, s);
      }
    }
  }

  lemma SccOrderReferenced(g: Graph, g1: Graph, rc: RefSccId, s: seq<SccId>)
    requires SccPartition(g) && rc in g.sccs && SameMembers(s, g.sccs[rc])
    requires g1.edges == g.edges && g1.sccMap == g.sccMap && g1.outer == g.outer && g1.sccNodes == g.sccNodes
    ensures ReferencedRefSccs(g1.edges, g1.sccMap, g1.outer, NodesOf(g1.sccNodes, s))
         == ReferencedRefSccs(g.edges, g.sccMap, g.outer, NodesOf(g.sccNodes, g.sccs[rc]))
  {
    SameMembersSameNodes(g, s, g.sccs[rc]);
    ReferencedSame(g.edges, g.sccMap, g.outer, NodesOf(g.sccNodes, s),
                   g.sccMap, g.outer, NodesOf(g.sccNodes, g.sccs[rc]));
  }

  lemma SameMembersSameNodes(g: Graph, s: seq<SccId>, t: seq<SccId>)
    requires SccPartition(g) && SameMembers(s, t)
    ensures forall n :: n in NodesOf(g.sccNodes, s) <==> n in NodesOf(g.sccNodes, t)
  {
    forall n ensures n in NodesOf(g.sccNodes, s) <==> n in NodesOf(g.sccNodes, t) {
      NodesOfPartition(g, s, n);
      NodesOfPartition(g, t, n);
    }
  }

  /** The repaired sequence of the switch is a valid SCC order of its RefSCC. */
  lemma SwitchRepairValid(g: Graph, src: NodeId, tgt: NodeId)
    requires SwitchPre(g, src, tgt)
    requires var cs, ct := g.sccMap[src], g.sccMap[tgt]; var idx := g.sccIndices[g.outer[cs]];
      cs in idx && ct in idx && idx[cs] < idx[ct]
    ensures var cs, ct := g.sccMap[src], g.sccMap[tgt]; var rc := g.outer[cs];
      var s, r := g.sccs[rc], SwitchRepair(g, src, tgt);
      && rc in g.refIndices && Distinct(s) && Distinct(r.sccs)
      && GraphValid(WithSccOrder(g, rc, r.sccs))
  {
    var cs, ct := g.sccMap[src], g.sccMap[tgt];
    var rc := g.outer[cs];
    SwitchPositions(g, src, tgt);
    assert LiveScc(g, cs);
    var s, idx := g.sccs[rc], g.sccIndices[rc];
    IndexedDistinct(s, idx);
    LocalRepairOrder(g, rc, idx[cs], idx[ct]);
    SccOrderValid(g, rc, SwitchRepair(g, src, tgt).sccs);
  }

  /**
    The repair of a valid RefSCC's sequence, computed on the local SCC graph, is a
    permutation in postorder for the whole SCC graph.
   */
  lemma LocalRepairOrder(g: Graph, rc: RefSccId, i: nat, j: nat)
    requires RefSccValid(g, rc) && i < j < |g.sccs[rc]|
    ensures var s := g.sccs[rc]; var r := Repair(s, i, j, LocalCallGraph(g, s));
      && Distinct(s) && Distinct(r.sccs) && multiset(r.sccs) == multiset(s)
      && NoForwardEdge(r.sccs, CallGraph(g))
  {
    var s := g.sccs[rc];
    var L := LocalCallGraph(g, s);
    IndexedDistinct(s, g.sccIndices[rc]);
    var r := Repair(s, i, j, L);
    RepairDistinct(s, i, j, L);
    RepairPermutes(s, i, j, L);
    NoForwardEdgeAgree(s, CallGraph(g), L);
    RepairOrder(s, i, j, L);
    PermutationMembers(r.sccs, s);
    RepairedInSccNodes(g, rc, r.sccs);
    NoForwardEdgeAgree(r.sccs, L, CallGraph(g));
  }

  lemma RepairedInSccNodes(g: Graph, rc: RefSccId, s: seq<SccId>)
    requires RefSccValid(g, rc) && SameMembers(s, g.sccs[rc])
    ensures forall i :: 0 <= i < |s| ==> s[i] in g.sccs[rc] && s[i] in g.sccNodes
  {
    SccOrderEntries(g, rc, s);
  }

  /** The switch keeps the invariant of the graph, whether or not it merges SCCs. */
  lemma SwitchValid(g: Graph, src: NodeId, tgt: NodeId)
    requires SwitchPre(g, src, tgt)
    ensures GraphValid(SwitchInternalEdgeToCall(g, src, tgt).0)
  {
    var cs, ct := g.sccMap[src], g.sccMap[tgt];
    SwitchPositions(g, src, tgt);
    var idx := g.sccIndices[g.outer[cs]];
    var r := SwitchInternalEdgeToCall(g, src, tgt);
    if cs == ct || idx[ct] < idx[cs] {
      WithCallValid(g, src, tgt);
      assert r.0 == WithEdge(g, src, tgt, Call);
    } else {
      SwitchWithRepairValid(g, src, tgt);
      assert r == SwitchWithRepair(g, src, tgt);
    }
  }

  lemma SwitchWithRepairValid(g: Graph, src: NodeId, tgt: NodeId)
    requires SwitchPre(g, src, tgt)
    requires var cs, ct := g.sccMap[src], g.sccMap[tgt]; var idx := g.sccIndices[g.outer[cs]];
      cs in idx && ct in idx && idx[cs] < idx[ct]
    ensures GraphValid(SwitchWithRepair(g, src, tgt).0)
  {
    var cs, ct := g.sccMap[src], g.sccMap[tgt];
    var rc := g.outer[cs];
    SwitchPositions(g, src, tgt);
    var s, idx := g.sccs[rc], g.sccIndices[rc];
    var r := SwitchRepair(g, src, tgt);
    SwitchRepairValid(g, src, tgt);
    ApplyRepairValid(g, rc, r, src, tgt);
    assert SwitchWithRepair(g, src, tgt) == ApplyRepair(g, rc, r, src, tgt);
  }

  /**
    `r` is a repaired sequence without repeats whose range ends at `b` and starts at `a`,
    or, when the range is empty, has `a` right after `b`.
   */
  ghost predicate RepairEndsAt(r: Repaired, a: nat, b: nat)
  {
    && Distinct(r.sccs) && r.begin <= r.end < |r.sccs| && r.sccs[r.end] == b
    && (r.begin == r.end ==> r.end + 1 < |r.sccs| && r.sccs[r.end + 1] == a)
    && (r.begin < r.end ==> r.sccs[r.begin] == a)
  }

  /**
    The repair of the indexed sequence `s` for a new edge from `a` to the later `b`: the
    result has no repeats, `b` ends the range, and `a` starts it, or, when the range is
    empty, follows `b`.
   */
  ghost function RepairBetween(s: seq<nat>, idx: map<nat, nat>, L: map<nat, set<nat>>, a: nat, b: nat): (r: Repaired)
    requires Indexed(s, idx) && a in idx && b in idx && idx[a] < idx[b]
    ensures RepairEndsAt(r, a, b)
  {
    IndexedDistinct(s, idx);
    RepairDistinct(s, idx[a], idx[b], L);
    RepairRange(s, idx[a], idx[b], L);
    Repair(s, idx[a], idx[b], L)
  }

  /** Installing a valid repaired order, and merging its range, keeps the invariant. */
  lemma ApplyRepairValid(g: Graph, rc: RefSccId, r: Repaired, src: NodeId, tgt: NodeId)
    requires src in g.sccMap && tgt in g.sccMap && RepairEndsAt(r, g.sccMap[src], g.sccMap[tgt])
    requires src in g.edges && GraphValid(WithSccOrder(g, rc, r.sccs)) && rc in g.refIndices
    requires tgt in g.edges[src] && g.sccMap[src] in g.outer && g.sccMap[tgt] in g.outer
    requires g.outer[g.sccMap[src]] == rc && g.outer[g.sccMap[tgt]] == rc
    ensures GraphValid(ApplyRepair(g, rc, r, src, tgt).0)
  {
    var g1 := WithSccOrder(g, rc, r.sccs);
    if r.begin == r.end {
      var idx1 := g1.sccIndices[rc];
      assert idx1[r.sccs[r.end]] == r.end && idx1[r.sccs[r.end + 1]] == r.end + 1;
      WithCallValid(g1, src, tgt);
    } else {
      SwitchMergeValid(g, src, tgt, g1, r);
    }
  }

  lemma SwitchMergeValid(g: Graph, src: NodeId, tgt: NodeId, g1: Graph, r: Repaired)
    requires GraphValid(g1) && src in g1.edges && tgt in g1.edges[src]
    requires src in g1.sccMap && tgt in g1.sccMap
    requires var rc := g1.outer[g1.sccMap[src]];
      && rc in g1.refIndices && g1.outer[g1.sccMap[tgt]] == rc && rc in g1.sccs
      && r.sccs == g1.sccs[rc] && r.begin < r.end < |r.sccs|
      && r.sccs[r.begin] == g1.sccMap[src] && r.sccs[r.end] == g1.sccMap[tgt]
    ensures var rc := g1.outer[g1.sccMap[src]];
      GraphValid(WithEdge(MergeRange(g1, rc, r.begin, r.end), src, tgt, Call))
  {
    var rc := g1.outer[g1.sccMap[src]];
    assert g1.postOrder[g1.refIndices[rc]] == rc;
    var gm := MergeRange(g1, rc, r.begin, r.end);
    MergeValid(g1, rc, r.begin, r.end);
    MergeJoinsEnds(g1, rc, r.begin, r.end, src, tgt);
    WithCallValid(gm, src, tgt);
  }

  /** The merge puts the first SCC of the range and the target into one SCC. */
  lemma MergeJoinsEnds(g: Graph, rc: RefSccId, b: nat, e: nat, src: NodeId, tgt: NodeId)
    requires SccPartition(g) && RefSccValid(g, rc) && b < e < |g.sccs[rc]|
    requires src in g.sccMap && tgt in g.sccMap && g.sccMap[src] == g.sccs[rc][b] && g.sccMap[tgt] == g.sccs[rc][e]
    ensures var gm := MergeRange(g, rc, b, e);
      src in gm.sccMap && tgt in gm.sccMap && gm.sccMap[src] == gm.sccMap[tgt] == g.sccs[rc][e]
  {
    var s := g.sccs[rc];
    MergeSccMap(g, rc, b, e);
    RangeFacts(g, rc, b, e);
    assert s[b..e][0] == s[b];
  }

  /** A walk's first `m + 1` entries are a walk. */
  lemma PathPrefix(h: map<nat, set<nat>>, p: seq<nat>, m: nat)
    requires IsPath(h, p) && m < |p|
    ensures IsPath(h, p[..m + 1])
  {
    var q := p[..m + 1];
    forall i | 0 <= i < |q| - 1 ensures q[i] in h && q[i + 1] in h[q[i]] {
      PathStep(h, p, i);
    }
    MakePath(h, q);
  }

  /** A call walk between two SCCs of one RefSCC is a walk through that RefSCC's SCCs. */
  lemma CallPathInRefScc(g: Graph, p: seq<SccId>)
    requires SccPartition(g) && SccsInRefSccs(g) && RefOrder(g) && RefSccsValid(g)
    requires IsPath(CallGraph(g), p) && LiveScc(g, p[0])
    requires p[|p| - 1] in g.outer && g.outer[p[|p| - 1]] == g.outer[p[0]]
    ensures var rc := g.outer[p[0]];
      && RefSccValid(g, rc)
      && IsPath(Restrict(CallGraph(g), g.sccIndices[rc].Keys), p)
  {
    var rc := g.outer[p[0]];
    assert g.postOrder[g.refIndices[rc]] == rc;
    var cg := CallGraph(g);
    var idx := g.sccIndices[rc];
    forall k | 0 <= k < |p| ensures p[k] in idx {
      CallPathStaysIn(g, p, k);
    }
    var h := Restrict(cg, idx.Keys);
    forall i | 0 <= i < |p| - 1 ensures p[i] in h && p[i + 1] in h[p[i]] {
      PathStep(cg, p, i);
    }
    MakePath(h, p);
  }

  /**
    When the target's SCC reaches the source's through call edges, the scan that starts
    the repair finds it source-connected.
   */
  lemma SwitchCycleFound(g: Graph, src: NodeId, tgt: NodeId)
    requires SwitchPre(g, src, tgt)
    requires var cs, ct := g.sccMap[src], g.sccMap[tgt]; var idx := g.sccIndices[g.outer[cs]];
      cs in idx && ct in idx && idx[cs] < idx[ct] && Reaches(CallGraph(g), ct, cs)
    ensures var cs, ct := g.sccMap[src], g.sccMap[tgt]; var rc := g.outer[cs];
      var s, idx := g.sccs[rc], g.sccIndices[rc];
      ct in SourceSet(s, idx[cs], idx[ct], LocalCallGraph(g, s))
  {
    var cs, ct := g.sccMap[src], g.sccMap[tgt];
    SwitchPositions(g, src, tgt);
    assert LiveScc(g, ct) && LiveScc(g, cs);
    CycleFoundIn(g, g.outer[cs], cs, ct);
  }

  lemma CycleFoundIn(g: Graph, rc: RefSccId, cs: SccId, ct: SccId)
    requires SccPartition(g) && SccsInRefSccs(g) && RefOrder(g) && RefSccsValid(g) && RefSccValid(g, rc)
    requires LiveScc(g, ct) && g.outer[ct] == rc && cs in g.outer && g.outer[cs] == rc
    requires var idx := g.sccIndices[rc]; cs in idx && ct in idx && idx[cs] < idx[ct]
    requires Reaches(CallGraph(g), ct, cs)
    ensures var s, idx := g.sccs[rc], g.sccIndices[rc];
      ct in SourceSet(s, idx[cs], idx[ct], LocalCallGraph(g, s))
  {
    var s, idx := g.sccs[rc], g.sccIndices[rc];
    var cg, L := CallGraph(g), LocalCallGraph(g, s);
    var p := CallPathWitness(cg, ct, cs);
    CallPathInRefScc(g, p);
    LocalAgrees(g, rc);
    assert s[idx[ct]] == ct && s[idx[cs]] == cs;
    LocalPathIntoSourceSet(s, idx, cg, L, idx[cs], idx[ct], p);
  }

  /** A walk that shows `a` reaches `b`. */
  lemma CallPathWitness(h: map<nat, set<nat>>, a: nat, b: nat) returns (p: seq<nat>)
    requires Reaches(h, a, b)
    ensures IsPath(h, p) && p[0] == a && p[|p| - 1] == b
  {
    p :| IsPath(h, p) && p[0] == a && p[|p| - 1] == b;
  }

  /** The local SCC graph of a valid RefSCC agrees with the SCC graph on its SCCs and keeps the postorder. */
  lemma LocalAgrees(g: Graph, rc: RefSccId)
    requires RefSccValid(g, rc)
    ensures var s, cg := g.sccs[rc], CallGraph(g); var L := LocalCallGraph(g, s);
      && NoForwardEdge(s, L)
      && forall c :: c in s && c in cg ==> c in L && L[c] == cg[c]
  {
    var s, cg := g.sccs[rc], CallGraph(g);
    NoForwardEdgeAgree(s, cg, LocalCallGraph(g, s));
  }

  /**
    The flag of the switch: a new cycle forms exactly when the two SCCs differ and the
    target's SCC already reaches the source's through call edges.
   */
  lemma SwitchFormsCycle(g: Graph, src: NodeId, tgt: NodeId)
    requires SwitchPre(g, src, tgt)
    ensures var cs, ct := g.sccMap[src], g.sccMap[tgt];
      SwitchInternalEdgeToCall(g, src, tgt).1 <==> cs != ct && Reaches(CallGraph(g), ct, cs)
  {
    var cs, ct := g.sccMap[src], g.sccMap[tgt];
    var rc := g.outer[cs];
    SwitchPositions(g, src, tgt);
    var s, idx := g.sccs[rc], g.sccIndices[rc];
    var r := SwitchInternalEdgeToCall(g, src, tgt);
    assert LiveScc(g, ct);
    if cs == ct {
      assert !r.1;
    } else if idx[ct] < idx[cs] {
      assert !r.1;
      if Reaches(CallGraph(g), ct, cs) {
        CallReachWithinRefScc(g, ct, cs);
      }
    } else {
      assert r == SwitchWithRepair(g, src, tgt);
      SwitchRepairFlag(g, src, tgt);
    }
  }

  /** After the repair a cycle forms exactly when the target's SCC reaches the source's. */
  lemma SwitchRepairFlag(g: Graph, src: NodeId, tgt: NodeId)
    requires SwitchPre(g, src, tgt)
    requires var cs, ct := g.sccMap[src], g.sccMap[tgt]; var idx := g.sccIndices[g.outer[cs]];
      cs in idx && ct in idx && idx[cs] < idx[ct]
    ensures var cs, ct := g.sccMap[src], g.sccMap[tgt];
      SwitchWithRepair(g, src, tgt).1 <==> Reaches(CallGraph(g), ct, cs)
  {
    var cs, ct := g.sccMap[src], g.sccMap[tgt];
    var rc := g.outer[cs];
    SwitchPositions(g, src, tgt);
    var s, idx := g.sccs[rc], g.sccIndices[rc];
    var L := LocalCallGraph(g, s);
    IndexedDistinct(s, idx);
    RepairRange(s, idx[cs], idx[ct], L);
    var r := SwitchRepair(g, src, tgt);
    assert SwitchWithRepair(g, src, tgt).1 <==> r.begin != r.end;
    if Reaches(CallGraph(g), ct, cs) {
      SwitchCycleFound(g, src, tgt);
    }
    SourceSetReaches(s, idx[cs], idx[ct], L);
    if ct in SourceSet(s, idx[cs], idx[ct], L) {
      SubgraphReaches(L, CallGraph(g), ct, cs);
    }
  }


  /** Maps every node of `ns` to SCC `target`. */
  method MapNodesTo(sccMap: map<NodeId, SccId>, ns: seq<NodeId>, target: SccId) returns (sccMap': map<NodeId, SccId>)
    ensures sccMap' == sccMap + map n | n in ns :: target
  {
    sccMap' := sccMap;
    var j := 0;
    while j < |ns|
      invariant j <= |ns|
      invariant sccMap' == sccMap + map n | n in ns[..j] :: target
    {
      assert ns[..j + 1] == ns[..j] + [ns[j]];
      sccMap' := sccMap'[ns[j] := target];
      j := j + 1;
    }
    assert ns[..j] == ns;
  }

  /** Mapping the nodes of two lists in turn maps the nodes of both. */
  lemma MapAllAppend(m: map<NodeId, SccId>, a: seq<NodeId>, b: seq<NodeId>, target: SccId)
    ensures (m + map n | n in a :: target) + (map n | n in b :: target) == m + map n | n in a + b :: target
  {
  }

  /** The SCC map once the nodes of the SCCs `range` are mapped to SCC `target`. */
  ghost function MovedMap(sccMap: map<NodeId, SccId>, sccNodes: map<SccId, seq<NodeId>>, range: seq<SccId>,
                          target: SccId): map<NodeId, SccId>
  {
    sccMap + map n | n in NodesOf(sccNodes, range) :: target
  }

  /** The node lists once those of the SCCs `range` are appended to that of `target` and cleared. */
  ghost function MergedLists(sccNodes: map<SccId, seq<NodeId>>, range: seq<SccId>, target: SccId): map<SccId, seq<NodeId>>
  {
    var cleared: map<SccId, seq<NodeId>> := map c | c in range :: [];
    (sccNodes + cleared)[target := NodesIn(sccNodes, target) + NodesOf(sccNodes, range)]
  }

  /** Moving the nodes of one more SCC `c` maps them to the target as well. */
  lemma MovedMapStep(sccMap: map<NodeId, SccId>, sccNodes: map<SccId, seq<NodeId>>, range: seq<SccId>,
                     c: SccId, target: SccId)
    ensures MovedMap(sccMap, sccNodes, range + [c], target) ==
      MovedMap(sccMap, sccNodes, range, target) + map n | n in NodesIn(sccNodes, c) :: target
  {
    assert (range + [c])[..|range|] == range;
    MapAllAppend(sccMap, NodesOf(sccNodes, range), NodesIn(sccNodes, c), target);
  }

  /** Merging the list of one more SCC `c` appends it to the target's and clears it. */
  lemma MergedListsStep(sccNodes: map<SccId, seq<NodeId>>, range: seq<SccId>, c: SccId, target: SccId)
    requires target in sccNodes && target !in range && c != target
    ensures var m := MergedLists(sccNodes, range, target);
      target in m &&
      MergedLists(sccNodes, range + [c], target) == m[target := m[target] + NodesIn(sccNodes, c)][c := []]
  {
    var r := range + [c];
    assert r[..|r| - 1] == range && r[|r| - 1] == c;
    var before := NodesIn(sccNodes, target) + NodesOf(sccNodes, range);
    assert before + NodesIn(sccNodes, c) == NodesIn(sccNodes, target) + NodesOf(sccNodes, r);
    ClearedStep(sccNodes, range, c);
    var cleared: map<SccId, seq<NodeId>> := map x | x in range :: [];
    UpdateSwap(sccNodes + cleared, c, target, before, NodesIn(sccNodes, c));
  }

  /** Clearing one more SCC `c`. */
  lemma ClearedStep(sccNodes: map<SccId, seq<NodeId>>, range: seq<SccId>, c: SccId)
    ensures var cleared: map<SccId, seq<NodeId>> := map x | x in range :: [];
      var cleared': map<SccId, seq<NodeId>> := map x | x in range + [c] :: [];
      sccNodes + cleared' == (sccNodes + cleared)[c := []]
  {
  }

  /** Updates of two different keys commute, and a later update of a key hides an earlier one. */
  lemma UpdateSwap(m: map<SccId, seq<NodeId>>, c: SccId, t: SccId, x: seq<NodeId>, z: seq<NodeId>)
    requires c != t
    ensures m[c := []][t := x + z] == m[t := x][t := m[t := x][t] + z][c := []]
  {
    assert m[t := x][t] == x;
  }

  /** Dropping the keys of one more entry `c`. */
  lemma WithoutStep(m: map<nat, nat>, range: seq<nat>, c: nat)
    ensures m - (set x | x in range + [c]) == (m - (set x | x in range)) - {c}
  {
  }

  /** Before the first SCC is merged nothing has changed. */
  lemma MergedNone(sccMap: map<NodeId, SccId>, sccNodes: map<SccId, seq<NodeId>>, outer: map<SccId, RefSccId>,
                   idx: map<SccId, nat>, target: SccId)
    requires target in sccNodes
    ensures MergedAfter(sccMap, sccNodes, outer, idx, [], target, sccMap, sccNodes, outer, idx)
  {
    var cleared: map<SccId, seq<NodeId>> := map c | c in [] :: [];
    assert cleared == map[];
    assert sccNodes + cleared == sccNodes;
    assert sccNodes[target] + [] == sccNodes[target];
    assert sccNodes[target := sccNodes[target] + []] == sccNodes;
    assert sccMap + (map n | n in NodesOf(sccNodes, []) :: target) == sccMap;
    assert (set c: SccId | c in []) == {};
    assert outer - {} == outer && idx - {} == idx;
  }

  /**
    The merge loop: for each SCC of `range` in turn, its index is erased, its nodes are
    appended to the node list of SCC `target` and mapped to it, and it is cleared and
    leaves its RefSCC.
   */
  method MergeInto(sccMap: map<NodeId, SccId>, sccNodes: map<SccId, seq<NodeId>>, outer: map<SccId, RefSccId>,
                   idx: map<SccId, nat>, range: seq<SccId>, target: SccId)
    returns (sccMap': map<NodeId, SccId>, sccNodes': map<SccId, seq<NodeId>>, outer': map<SccId, RefSccId>,
             idx': map<SccId, nat>)
    requires target in sccNodes && target !in range
    ensures MergedAfter(sccMap, sccNodes, outer, idx, range, target, sccMap', sccNodes', outer', idx')
  {
    MergedNone(sccMap, sccNodes, outer, idx, target);
    assert range[..0] == [];
    sccMap', sccNodes', outer', idx' := sccMap, sccNodes, outer, idx;
    var k := 0;
    while k < |range|
      invariant k <= |range|
      invariant MergedAfter(sccMap, sccNodes, outer, idx, range[..k], target, sccMap', sccNodes', outer', idx')
    {
      sccMap', sccNodes', outer', idx' := MergeOne(sccMap, sccNodes, outer, idx, range, k, target, sccMap', sccNodes', outer', idx');
      k := k + 1;
    }
    assert range[..k] == range;
  }

  /** The four maps as the merge of the SCCs `done` into SCC `target` leaves them. */
  ghost predicate MergedAfter(sccMap0: map<NodeId, SccId>, sccNodes0: map<SccId, seq<NodeId>>, outer0: map<SccId, RefSccId>,
                              idx0: map<SccId, nat>, done: seq<SccId>, target: SccId,
                              sccMap: map<NodeId, SccId>, sccNodes: map<SccId, seq<NodeId>>, outer: map<SccId, RefSccId>,
                              idx: map<SccId, nat>)
  {
    && sccMap == MovedMap(sccMap0, sccNodes0, done, target)
    && sccNodes == MergedLists(sccNodes0, done, target)
    && outer == outer0 - (set c | c in done)
    && idx == idx0 - (set c | c in done)
  }

  /** One turn of the merge loop: merges SCC `c` into SCC `target`, after the SCCs `done`. */
  method MergeOne(ghost sccMap0: map<NodeId, SccId>, sccNodes0: map<SccId, seq<NodeId>>, ghost outer0: map<SccId, RefSccId>,
                  ghost idx0: map<SccId, nat>, range: seq<SccId>, k: nat, target: SccId,
                  sccMap: map<NodeId, SccId>, sccNodes: map<SccId, seq<NodeId>>, outer: map<SccId, RefSccId>,
                  idx: map<SccId, nat>)
    returns (sccMap': map<NodeId, SccId>, sccNodes': map<SccId, seq<NodeId>>, outer': map<SccId, RefSccId>,
             idx': map<SccId, nat>)
    requires target in sccNodes0 && target !in range && k < |range|
    requires MergedAfter(sccMap0, sccNodes0, outer0, idx0, range[..k], target, sccMap, sccNodes, outer, idx)
    ensures MergedAfter(sccMap0, sccNodes0, outer0, idx0, range[..k + 1], target, sccMap', sccNodes', outer', idx')
  {
    var c := range[k];
    ghost var done := range[..k];
    assert range[..k + 1] == done + [c];
    MovedMapStep(sccMap0, sccNodes0, done, c, target);
    MergedListsStep(sccNodes0, done, c, target);
    WithoutStep(outer0, done, c);
    WithoutStep(idx0, done, c);
    var ns := if c in sccNodes0 then sccNodes0[c] else [];
    idx' := idx - {c};
    sccNodes' := sccNodes[target := sccNodes[target] + ns];
    sccMap' := MapNodesTo(sccMap, ns, target);
    sccNodes' := sccNodes'[c := []];
    outer' := outer - {c};
  }

  /** The index map `idx1` with the entries at positions `e..hi` of `idx` moved down by `offset`. */
  ghost function ShiftedBelow(idx1: map<SccId, nat>, idx: map<SccId, nat>, e: nat, hi: nat, offset: nat): map<SccId, nat>
    requires idx1.Keys <= idx.Keys && offset <= e
  {
    map x | x in idx1 :: if e <= idx[x] < hi then idx[x] - offset else idx[x]
  }

  /**
    Erases positions `b..e` from the sequence `s` and moves every later entry's index
    down by the number erased; `idx1` is the index map with the erased entries gone.
   */
  method EraseMerged(s: seq<SccId>, ghost idx: map<SccId, nat>, idx1: map<SccId, nat>, b: nat, e: nat)
    returns (s': seq<SccId>, idx': map<SccId, nat>)
    requires Indexed(s, idx) && b < e < |s| && idx1 == idx - (set c | c in s[b..e])
    ensures s' == s[..b] + s[e..]
    ensures idx' == Compact(idx, s[b..e], b, e)
  {
    IndexedDistinct(s, idx);
    ShiftedNone(idx, idx1, (set c | c in s[b..e]), b, e);
    s' := s[..b] + s[e..];
    idx' := idx1;
    var j := e;
    while j < |s|
      invariant e <= j <= |s|
      invariant idx' == ShiftedBelow(idx1, idx, e, j, e - b)
    {
      idx' := ShiftOne(s, idx, idx1, b, e, j, idx');
      j := j + 1;
    }
    ShiftedAll(s, idx, idx1, b, e);
  }

  /** Before the loop nothing is shifted. */
  lemma ShiftedNone(idx: map<SccId, nat>, idx1: map<SccId, nat>, removed: set<SccId>, b: nat, e: nat)
    requires idx1 == idx - removed && b <= e
    ensures idx1 == ShiftedBelow(idx1, idx, e, e, e - b)
  {
  }

  /** One turn of the shift loop: moves the index of the entry at position `j` down. */
  method ShiftOne(s: seq<SccId>, ghost idx: map<SccId, nat>, ghost idx1: map<SccId, nat>, b: nat, e: nat, j: nat,
                  cur: map<SccId, nat>)
    returns (next: map<SccId, nat>)
    requires Indexed(s, idx) && Distinct(s) && b < e <= j < |s| && idx1 == idx - (set c | c in s[b..e])
    requires cur == ShiftedBelow(idx1, idx, e, j, e - b)
    ensures next == ShiftedBelow(idx1, idx, e, j + 1, e - b)
  {
    var x := s[j];
    assert x !in s[b..e] by {
      forall k | 0 <= k < e - b ensures s[b..e][k] != x {
        assert s[b..e][k] == s[b + k];
      }
    }
    assert x in cur && cur[x] == j;
    next := cur[x := cur[x] - (e - b)];
  }

  /** Once every later entry is shifted, the index map is the compacted one. */
  lemma ShiftedAll(s: seq<SccId>, idx: map<SccId, nat>, idx1: map<SccId, nat>, b: nat, e: nat)
    requires Indexed(s, idx) && b < e < |s| && idx1 == idx - (set c | c in s[b..e])
    ensures ShiftedBelow(idx1, idx, e, |s|, e - b) == Compact(idx, s[b..e], b, e)
  {
  }
}
