/**
  Building the SCCs and RefSCCs of the graph from its entry edges: the walk over all
  edges from the entry nodes forms the RefSCCs, in postorder, and the walk over the
  call edges inside each RefSCC forms its SCCs, in postorder.  Each RefSCC is given
  fresh identifiers and joins the graph's tables; the graph keeps its invariant
  `GraphValid`, and in the end the nodes with an SCC are exactly those reachable from
  the entry nodes.
 */
module Builds {
  import opened Edges
  import opened Paths
  import opened Postorder
  import opened Components
  import opened Tarjan
  import opened Switch

  /** The nodes listed in `s`. */
  ghost function Elems(s: seq<NodeId>): set<NodeId>
  {
    set t | t in s
  }

  /** The nodes listed in one more entry of `s`. */
  lemma ElemsSnoc(s: seq<NodeId>, i: nat)
    requires i < |s|
    ensures Elems(s[..i + 1]) == Elems(s[..i]) + {s[i]}
  {
    assert s[..i + 1] == s[..i] + [s[i]];
  }

  /** All entries of `s` are the nodes listed in `s`. */
  lemma ElemsAll(s: seq<NodeId>)
    ensures Elems(s[..|s|]) == Elems(s)
  {
    assert s[..|s|] == s;
  }

  // The successor sequences the walks take.

  /**
    `succ` lists, for every node, the targets of its edges, or of its call edges only
    when `callsOnly` holds.
   */
  ghost predicate SuccAre(succ: map<NodeId, seq<NodeId>>, edges: map<NodeId, map<NodeId, Kind>>, callsOnly: bool)
  {
    && succ.Keys == edges.Keys
    && (forall n, t :: n in succ && t in succ[n] ==> t in edges[n] && (callsOnly ==> edges[n][t] == Call))
    && (forall n, t :: n in succ && t in edges[n] && (callsOnly ==> edges[n][t] == Call) ==> t in succ[n])
  }

  /** The node graph: each node to the targets of its edges of either kind. */
  ghost function NodeGraph(edges: map<NodeId, map<NodeId, Kind>>): map<nat, set<nat>>
  {
    map n | n in edges :: edges[n].Keys
  }

  /** The nodes reachable from the targets of the entry edges along edges of either kind. */
  ghost function Reachable(edges: map<NodeId, map<NodeId, Kind>>, entry: map<NodeId, Kind>): set<NodeId>
  {
    set n | n in edges && exists r :: r in entry && Reaches(NodeGraph(edges), r, n)
  }

  /** No edge leaves the reachable nodes. */
  lemma ReachableClosed(g: Graph, succ: map<NodeId, seq<NodeId>>, d0: map<NodeId, int>)
    requires EdgesClosed(g) && SuccAre(succ, g.edges, false)
    ensures ClosedIn(succ, d0, Reachable(g.edges, g.entry))
  {
    var R := Reachable(g.edges, g.entry);
    forall n, i | n in R && n in succ && 0 <= i < |succ[n]| ensures succ[n][i] in R {
      var t := succ[n][i];
      assert t in succ[n];
      var r :| r in g.entry && Reaches(NodeGraph(g.edges), r, n);
      ReachesStep(NodeGraph(g.edges), r, n, t);
    }
  }

  /** The targets of the entry edges are reachable. */
  lemma EntryReachable(g: Graph, r: NodeId)
    requires EdgesClosed(g) && r in g.entry
    ensures r in Reachable(g.edges, g.entry)
  {
    ReachesRefl(NodeGraph(g.edges), r);
  }

  /**
    The order of the components of a walk, read off the edges: every edge (every call
    edge when `callsOnly`) from a node of a component leads to a node that started in a
    component or to one of the same or an earlier component.
   */
  ghost predicate EdgeOrdered(edges: map<NodeId, map<NodeId, Kind>>, callsOnly: bool,
                              d0: map<NodeId, int>, comp: map<NodeId, nat>)
  {
    forall n, t :: n in comp && n in edges && t in edges[n] && (callsOnly ==> edges[n][t] == Call) ==>
      t in d0 && (d0[t] == -1 || (t in comp && comp[t] <= comp[n]))
  }

  /** The postorder of a walk over `succ` is that order on the edges `succ` lists. */
  lemma OrderedByEdge(succ: map<NodeId, seq<NodeId>>, edges: map<NodeId, map<NodeId, Kind>>, callsOnly: bool,
                      d0: map<NodeId, int>, comp: map<NodeId, nat>)
    requires SuccAre(succ, edges, callsOnly) && Postordered(succ, d0, comp)
    ensures EdgeOrdered(edges, callsOnly, d0, comp)
  {
    forall n, t | n in comp && n in edges && t in edges[n] && (callsOnly ==> edges[n][t] == Call)
      ensures t in d0 && (d0[t] == -1 || (t in comp && comp[t] <= comp[n]))
    {
      assert t in succ[n];
      var i :| 0 <= i < |succ[n]| && succ[n][i] == t;
    }
  }

  // The tables of a new RefSCC.

  /** The SCC map entries of the nodes of new components `comp`, numbered from `cid`. */
  function NewSccMap(comp: map<NodeId, nat>, cid: SccId): map<NodeId, SccId>
  {
    map n | n in comp :: cid + comp[n]
  }

  /** The identifiers of the `count` new SCCs numbered from `cid`, in order. */
  function Ids(cid: SccId, count: nat): (s: seq<SccId>)
    ensures |s| == count && forall i :: 0 <= i < count ==> s[i] == cid + i
  {
    seq(count, i requires 0 <= i < count => cid + i)
  }

  /** The identifiers of the new SCCs are those from `cid` up to `cid + count`, excluded. */
  lemma IdsMembers(cid: SccId, count: nat)
    ensures forall c :: c in Ids(cid, count) <==> cid <= c < cid + count
  {
    forall c | cid <= c < cid + count ensures c in Ids(cid, count) {
      assert Ids(cid, count)[c - cid] == c;
    }
  }

  /** The node lists of the new SCCs `cid`, `cid + 1`, ..., one for each component of `H`. */
  function NewLists(H: seq<seq<NodeId>>, cid: SccId): map<SccId, seq<NodeId>>
  {
    map c | c in Ids(cid, |H|) :: H[c - cid]
  }

  /** The RefSCC `rc` of the `count` new SCCs numbered from `cid`. */
  function NewOuter(cid: SccId, count: nat, rc: RefSccId): map<SccId, RefSccId>
  {
    map c | c in Ids(cid, count) :: rc
  }

  /** The position of each of the `count` new SCCs numbered from `cid`. */
  function IdIndex(cid: SccId, count: nat): map<SccId, nat>
  {
    map c | c in Ids(cid, count) :: c - cid
  }

  /**
    The graph once the RefSCC `rc`, made of the SCCs `H` (numbered from `cid`, with
    `comp` the position of each node's one), is built and appended to the postorder
    sequence.
   */
  ghost function Added(g: Graph, H: seq<seq<NodeId>>, comp: map<NodeId, nat>, cid: SccId, rc: RefSccId): Graph
  {
    g.(sccMap := g.sccMap + NewSccMap(comp, cid),
       sccNodes := g.sccNodes + NewLists(H, cid),
       outer := g.outer + NewOuter(cid, |H|, rc),
       sccs := g.sccs[rc := Ids(cid, |H|)],
       sccIndices := g.sccIndices[rc := IdIndex(cid, |H|)],
       postOrder := g.postOrder + [rc],
       refIndices := g.refIndices[rc := |g.postOrder|])
  }

  // The graph while its RefSCCs are being built.

  /**
    Every node has DFS number and low-link -1 when it is in an SCC or in a RefSCC still
    to be built (`pend`), and 0 otherwise; the nodes of `pend` have no SCC yet.
   */
  ghost predicate AtRestBut(g: Graph, pend: set<NodeId>)
  {
    && (forall n :: n in pend ==> n in g.edges && n !in g.sccMap)
    && (forall n :: n in g.edges ==>
          && n in g.dfs && n in g.low
          && if n in g.sccMap || n in pend then g.dfs[n] == -1 && g.low[n] == -1
             else g.dfs[n] == 0 && g.low[n] == 0)
  }

  /** Every edge from a node with an SCC leads to a node with an SCC. */
  ghost predicate SccsClosed(g: Graph)
  {
    forall n, t :: n in g.sccMap && n in g.edges && t in g.edges[n] ==> t in g.sccMap
  }

  /** The SCC identifiers from `cid` on and the RefSCC identifiers from `rid` on are unused. */
  ghost predicate FreshFrom(g: Graph, cid: SccId, rid: RefSccId)
  {
    && (forall c :: c in g.sccNodes ==> c < cid)
    && (forall c :: c in g.outer ==> c < cid && g.outer[c] < rid)
    && (forall r :: r in g.sccs ==> r < rid)
    && (forall r :: r in g.sccIndices ==> r < rid)
    && (forall r :: r in g.refIndices ==> r < rid)
  }

  /**
    The invariant while RefSCCs are built: the invariants of the graph hold, but for the
    DFS numbers of the nodes of `pend`, which wait for their RefSCC; the nodes with an
    SCC only lead to nodes with one; the identifiers from `cid` and `rid` on are free.
   */
  ghost predicate Building(g: Graph, pend: set<NodeId>, cid: SccId, rid: RefSccId)
  {
    && EdgesClosed(g) && SccPartition(g) && SccsInRefSccs(g)
    && Indexed(g.postOrder, g.refIndices) && RefSccsValid(g) && NoForwardEdge(g.postOrder, RefGraph(g))
    && AtRestBut(g, pend) && SccsClosed(g) && FreshFrom(g, cid, rid)
  }

  /** With no RefSCC left to build, the graph is valid. */
  lemma BuiltValid(g: Graph, cid: SccId, rid: RefSccId)
    requires Building(g, {}, cid, rid)
    ensures GraphValid(g)
  {
  }

  /**
    What adding a RefSCC needs: the graph is being built; its SCCs `H` are non-empty
    and `comp` gives each node's position; its nodes wait in `pend`; their edges lead to
    nodes with an SCC or to the RefSCC itself; and no call edge inside it leads to a
    later SCC.
   */
  ghost predicate StepPre(g: Graph, pend: set<NodeId>, cid: SccId, rid: RefSccId,
                          H: seq<seq<NodeId>>, comp: map<NodeId, nat>)
  {
    && Building(g, pend, cid, rid)
    && Grouped(H, comp) && |H| > 0
    && (forall n :: n in comp ==> n in pend)
    && EdgesFit(g, comp)
  }

  /**
    The edges of the nodes of `comp` lead to nodes with an SCC or to nodes of `comp`,
    and no call edge among the nodes of `comp` leads to a later component.
   */
  ghost predicate EdgesFit(g: Graph, comp: map<NodeId, nat>)
  {
    && (forall n, t :: n in comp && n in g.edges && t in g.edges[n] ==> t in g.sccMap || t in comp)
    && (forall n, t :: n in comp && n in g.edges && t in g.edges[n] && g.edges[n][t] == Call && t in comp ==>
          comp[t] <= comp[n])
  }

  // Adding a RefSCC keeps the graph being built.

  /**
    The new RefSCC fits the graph: its SCCs `H` are non-empty and `comp` gives each
    node's position; its nodes have no SCC yet; the identifiers from `cid` and `rid`
    on are free.
   */
  ghost predicate Fits(g: Graph, cid: SccId, rid: RefSccId, H: seq<seq<NodeId>>, comp: map<NodeId, nat>)
  {
    && FreshFrom(g, cid, rid) && Grouped(H, comp) && |H| > 0
    && (forall n :: n in comp ==> n in g.edges && n !in g.sccMap)
  }

  /** The SCC map of the new graph: the old one, and the new SCC of each node of `comp`. */
  lemma NewSccMapAt(m: map<NodeId, SccId>, comp: map<NodeId, nat>, cid: SccId)
    ensures forall n :: n in m + NewSccMap(comp, cid) <==> n in m || n in comp
    ensures forall n :: n in comp ==> (m + NewSccMap(comp, cid))[n] == cid + comp[n]
    ensures forall n :: n in m && n !in comp ==> (m + NewSccMap(comp, cid))[n] == m[n]
  {
  }

  /** The node lists of the new graph: the old ones, and `H[i]` for the SCC `cid + i`. */
  lemma NewListsAt(m: map<SccId, seq<NodeId>>, H: seq<seq<NodeId>>, cid: SccId)
    ensures forall c :: c in m + NewLists(H, cid) <==> c in m || cid <= c < cid + |H|
    ensures forall c :: cid <= c < cid + |H| ==> (m + NewLists(H, cid))[c] == H[c - cid]
    ensures forall c :: c in m && !(cid <= c < cid + |H|) ==> (m + NewLists(H, cid))[c] == m[c]
  {
    IdsMembers(cid, |H|);
  }

  /** The RefSCC of each SCC in the new graph: the old one, and `rc` for the new SCCs. */
  lemma NewOuterAt(m: map<SccId, RefSccId>, cid: SccId, count: nat, rc: RefSccId)
    ensures forall c :: c in m + NewOuter(cid, count, rc) <==> c in m || cid <= c < cid + count
    ensures forall c :: cid <= c < cid + count ==> (m + NewOuter(cid, count, rc))[c] == rc
    ensures forall c :: c in m && !(cid <= c < cid + count) ==> (m + NewOuter(cid, count, rc))[c] == m[c]
  {
    IdsMembers(cid, count);
  }

  /** The new SCCs are indexed by their positions. */
  lemma IdsIndexed(cid: SccId, count: nat)
    ensures Indexed(Ids(cid, count), IdIndex(cid, count))
  {
    IdsMembers(cid, count);
  }

  /** A RefSCC whose nodes are pending fits the graph. */
  lemma StepFits(g: Graph, pend: set<NodeId>, cid: SccId, rid: RefSccId,
                 H: seq<seq<NodeId>>, comp: map<NodeId, nat>)
    requires StepPre(g, pend, cid, rid, H, comp)
    ensures Fits(g, cid, rid, H, comp)
  {
  }

  /** Every node of the new SCC map is listed by its SCC. */
  lemma AddedNodesListed(g: Graph, cid: SccId, rid: RefSccId, H: seq<seq<NodeId>>, comp: map<NodeId, nat>)
    requires SccPartition(g) && Fits(g, cid, rid, H, comp)
    ensures var m := g.sccMap + NewSccMap(comp, cid); var L := g.sccNodes + NewLists(H, cid);
      forall n :: n in m ==> n in g.edges && m[n] in L && n in L[m[n]]
  {
    var m := g.sccMap + NewSccMap(comp, cid);
    var L := g.sccNodes + NewLists(H, cid);
    NewSccMapAt(g.sccMap, comp, cid);
    NewListsAt(g.sccNodes, H, cid);
    forall n | n in m ensures n in g.edges && m[n] in L && n in L[m[n]] {
      if n in comp {
        assert L[cid + comp[n]] == H[comp[n]];
      } else {
        assert g.sccMap[n] < cid;
      }
    }
  }

  /** Every node listed by a new or old SCC is mapped to it. */
  lemma AddedListsMapped(g: Graph, cid: SccId, rid: RefSccId, H: seq<seq<NodeId>>, comp: map<NodeId, nat>)
    requires SccPartition(g) && Fits(g, cid, rid, H, comp)
    ensures var m := g.sccMap + NewSccMap(comp, cid); var L := g.sccNodes + NewLists(H, cid);
      forall c, n :: c in L && n in L[c] ==> n in m && m[n] == c
  {
    var m := g.sccMap + NewSccMap(comp, cid);
    var L := g.sccNodes + NewLists(H, cid);
    NewSccMapAt(g.sccMap, comp, cid);
    NewListsAt(g.sccNodes, H, cid);
    forall c, n | c in L && n in L[c] ensures n in m && m[n] == c {
      if cid <= c < cid + |H| {
        assert n in H[c - cid];
        var j :| 0 <= j < |H[c - cid]| && H[c - cid][j] == n;
      } else {
        assert n in g.sccNodes[c];
      }
    }
  }

  /** The new SCC map and node lists form a partition. */
  lemma AddedPartition(g: Graph, cid: SccId, rid: RefSccId, H: seq<seq<NodeId>>, comp: map<NodeId, nat>)
    requires SccPartition(g) && Fits(g, cid, rid, H, comp)
    ensures SccPartition(Added(g, H, comp, cid, rid))
  {
    AddedNodesListed(g, cid, rid, H, comp);
    AddedListsMapped(g, cid, rid, H, comp);
  }

  /** Every SCC of the new graph, the new ones included, is live. */
  lemma AddedLive(g: Graph, cid: SccId, rid: RefSccId, H: seq<seq<NodeId>>, comp: map<NodeId, nat>)
    requires SccsInRefSccs(g) && Fits(g, cid, rid, H, comp)
    ensures SccsInRefSccs(Added(g, H, comp, cid, rid))
  {
    var g' := Added(g, H, comp, cid, rid);
    NewSccMapAt(g.sccMap, comp, cid);
    NewOuterAt(g.outer, cid, |H|, rid);
    IdsMembers(cid, |H|);
    forall n | n in g'.sccMap ensures LiveScc(g', g'.sccMap[n]) {
      if n in comp {
        assert g'.sccMap[n] == cid + comp[n] && g'.outer[cid + comp[n]] == rid;
      } else {
        var c := g.sccMap[n];
        assert LiveScc(g, c);
        assert c < cid && g'.outer[c] == g.outer[c] && g.outer[c] < rid;
      }
    }
  }

  /** Appending a new entry keeps a sequence indexed. */
  lemma IndexedSnoc(s: seq<nat>, idx: map<nat, nat>, x: nat)
    requires Indexed(s, idx) && x !in idx
    ensures Indexed(s + [x], idx[x := |s|])
  {
    var s' := s + [x];
    var idx' := idx[x := |s|];
    forall i | 0 <= i < |s'| ensures s'[i] in idx' && idx'[s'[i]] == i {
      if i < |s| {
        assert s'[i] == s[i] && s[i] in idx;
      }
    }
  }

  /** The SCCs nodes call depend only on the SCCs of the targets of their edges. */
  lemma CalleesSame(edges: map<NodeId, map<NodeId, Kind>>, m1: map<NodeId, SccId>, m2: map<NodeId, SccId>,
                    ns: seq<NodeId>)
    requires forall n, t :: n in ns && n in edges && t in edges[n] ==>
      (t in m1 <==> t in m2) && (t in m1 ==> m1[t] == m2[t])
    ensures CalleeSccs(edges, m1, ns) == CalleeSccs(edges, m2, ns)
  {
    forall d | d in CalleeSccs(edges, m1, ns) ensures d in CalleeSccs(edges, m2, ns) {
      var n, t :| n in ns && n in edges && t in edges[n] && edges[n][t] == Call && t in m1 && m1[t] == d;
    }
    forall d | d in CalleeSccs(edges, m2, ns) ensures d in CalleeSccs(edges, m1, ns) {
      var n, t :| n in ns && n in edges && t in edges[n] && edges[n][t] == Call && t in m2 && m2[t] == d;
    }
  }

  /** The edges of nodes with an SCC lead to nodes whose SCC the new RefSCC leaves alone. */
  lemma OldTargetsKept(g: Graph, cid: SccId, rid: RefSccId, H: seq<seq<NodeId>>, comp: map<NodeId, nat>)
    requires SccsClosed(g) && Fits(g, cid, rid, H, comp)
    ensures var m := g.sccMap + NewSccMap(comp, cid);
      forall n, t :: n in g.sccMap && n in g.edges && t in g.edges[n] ==>
        t in g.sccMap && t in m && m[t] == g.sccMap[t]
  {
    NewSccMapAt(g.sccMap, comp, cid);
  }

  /** The SCCs an old SCC calls are the same in the new graph. */
  lemma AddedCallsOld(g: Graph, cid: SccId, rid: RefSccId, H: seq<seq<NodeId>>, comp: map<NodeId, nat>, c: SccId)
    requires SccPartition(g) && SccsClosed(g) && Fits(g, cid, rid, H, comp) && c in g.sccNodes
    ensures var g' := Added(g, H, comp, cid, rid);
      c in CallGraph(g') && CallGraph(g')[c] == CallGraph(g)[c]
  {
    var m := g.sccMap + NewSccMap(comp, cid);
    var ns := g.sccNodes[c];
    OldTargetsKept(g, cid, rid, H, comp);
    CalleesSame(g.edges, m, g.sccMap, ns);
    NewListsAt(g.sccNodes, H, cid);
  }

  /** The old SCCs keep their node lists and their RefSCC. */
  lemma OldSccsKept(g: Graph, cid: SccId, rid: RefSccId, H: seq<seq<NodeId>>, comp: map<NodeId, nat>,
                    cs: seq<SccId>, r: RefSccId)
    requires Fits(g, cid, rid, H, comp)
    requires forall i :: 0 <= i < |cs| ==>
      cs[i] in g.sccNodes && |g.sccNodes[cs[i]]| > 0 && cs[i] in g.outer && g.outer[cs[i]] == r
    ensures var L := g.sccNodes + NewLists(H, cid); var o := g.outer + NewOuter(cid, |H|, rid);
      forall i :: 0 <= i < |cs| ==> cs[i] in L && |L[cs[i]]| > 0 && cs[i] in o && o[cs[i]] == r
  {
    NewListsAt(g.sccNodes, H, cid);
    NewOuterAt(g.outer, cid, |H|, rid);
  }

  /** The order of the SCCs of an old RefSCC stays free of forward call edges. */
  lemma OldOrderKept(g: Graph, cid: SccId, rid: RefSccId, H: seq<seq<NodeId>>, comp: map<NodeId, nat>, cs: seq<SccId>)
    requires SccPartition(g) && SccsClosed(g) && Fits(g, cid, rid, H, comp)
    requires (forall i :: 0 <= i < |cs| ==> cs[i] in g.sccNodes) && NoForwardEdge(cs, CallGraph(g))
    ensures NoForwardEdge(cs, CallGraph(Added(g, H, comp, cid, rid)))
  {
    var g' := Added(g, H, comp, cid, rid);
    forall i: int, j: int | 0 <= i < j < |cs| && cs[i] in CallGraph(g') ensures cs[j] !in CallGraph(g')[cs[i]] {
      AddedCallsOld(g, cid, rid, H, comp, cs[i]);
    }
  }

  /** The RefSCCs already in the postorder sequence stay valid. */
  lemma AddedOldValid(g: Graph, cid: SccId, rid: RefSccId, H: seq<seq<NodeId>>, comp: map<NodeId, nat>, r: RefSccId)
    requires SccPartition(g) && SccsClosed(g) && Fits(g, cid, rid, H, comp)
    requires RefSccValid(g, r) && r in g.refIndices
    ensures RefSccValid(Added(g, H, comp, cid, rid), r)
  {
    var cs: seq<SccId> := g.sccs[r];
    OldSccsKept(g, cid, rid, H, comp, cs, r);
    OldOrderKept(g, cid, rid, H, comp, cs);
  }

  /** Every call edge from a node of the new RefSCC leads to an SCC numbered no higher than the node's own. */
  lemma NewCalleesBefore(g: Graph, cid: SccId, rid: RefSccId, H: seq<seq<NodeId>>, comp: map<NodeId, nat>)
    requires SccPartition(g) && Fits(g, cid, rid, H, comp) && EdgesFit(g, comp)
    ensures var m := g.sccMap + NewSccMap(comp, cid);
      forall n, t :: n in comp && n in g.edges && t in g.edges[n] && g.edges[n][t] == Call && t in m ==>
        m[t] <= cid + comp[n]
  {
    NewSccMapAt(g.sccMap, comp, cid);
    forall n, t | n in comp && n in g.edges && t in g.edges[n] && t in g.sccMap && t !in comp
      ensures g.sccMap[t] < cid
    {
      assert g.sccMap[t] in g.sccNodes;
    }
  }

  /** No call edge of the new RefSCC runs from one of its SCCs to a later one. */
  lemma AddedNewOrder(g: Graph, cid: SccId, rid: RefSccId, H: seq<seq<NodeId>>, comp: map<NodeId, nat>)
    requires SccPartition(g) && Fits(g, cid, rid, H, comp) && EdgesFit(g, comp)
    ensures NoForwardEdge(Ids(cid, |H|), CallGraph(Added(g, H, comp, cid, rid)))
  {
    var g' := Added(g, H, comp, cid, rid);
    var m := g.sccMap + NewSccMap(comp, cid);
    var cs: seq<SccId> := Ids(cid, |H|);
    NewSccMapAt(g.sccMap, comp, cid);
    NewListsAt(g.sccNodes, H, cid);
    NewCalleesBefore(g, cid, rid, H, comp);
    forall i: int, j: int | 0 <= i < j < |cs| && cs[i] in CallGraph(g') ensures cs[j] !in CallGraph(g')[cs[i]] {
      assert g'.sccNodes[cs[i]] == H[i];
      forall n | n in H[i] ensures n in comp && comp[n] == i {
        var k :| 0 <= k < |H[i]| && H[i][k] == n;
      }
    }
  }

  /** The new RefSCC is valid. */
  lemma AddedNewValid(g: Graph, cid: SccId, rid: RefSccId, H: seq<seq<NodeId>>, comp: map<NodeId, nat>)
    requires SccPartition(g) && Fits(g, cid, rid, H, comp) && EdgesFit(g, comp)
    ensures RefSccValid(Added(g, H, comp, cid, rid), rid)
  {
    var g' := Added(g, H, comp, cid, rid);
    var cs: seq<SccId> := Ids(cid, |H|);
    NewListsAt(g.sccNodes, H, cid);
    NewOuterAt(g.outer, cid, |H|, rid);
    IdsIndexed(cid, |H|);
    forall i | 0 <= i < |cs|
      ensures cs[i] in g'.sccNodes && |g'.sccNodes[cs[i]]| > 0 && cs[i] in g'.outer && g'.outer[cs[i]] == rid
    {
      assert g'.sccNodes[cs[i]] == H[i];
    }
    AddedNewOrder(g, cid, rid, H, comp);
  }

  /** Every RefSCC of the new postorder sequence is valid. */
  lemma AddedAllValid(g: Graph, cid: SccId, rid: RefSccId, H: seq<seq<NodeId>>, comp: map<NodeId, nat>)
    requires SccPartition(g) && SccsClosed(g) && Fits(g, cid, rid, H, comp) && EdgesFit(g, comp)
    requires RefSccsValid(g) && Indexed(g.postOrder, g.refIndices)
    ensures RefSccsValid(Added(g, H, comp, cid, rid))
  {
    var g' := Added(g, H, comp, cid, rid);
    forall i | 0 <= i < |g'.postOrder| ensures RefSccValid(g', g'.postOrder[i]) {
      if i < |g.postOrder| {
        assert g'.postOrder[i] == g.postOrder[i] && RefSccValid(g, g.postOrder[i]);
        AddedOldValid(g, cid, rid, H, comp, g.postOrder[i]);
      } else {
        AddedNewValid(g, cid, rid, H, comp);
      }
    }
  }

  /** Nodes refer to no more RefSCCs when each target they refer to keeps its RefSCC. */
  lemma ReferencedWithin(edges: map<NodeId, map<NodeId, Kind>>,
                         m1: map<NodeId, SccId>, o1: map<SccId, RefSccId>,
                         m2: map<NodeId, SccId>, o2: map<SccId, RefSccId>, ns: seq<NodeId>)
    requires forall n, t :: n in ns && n in edges && t in edges[n] && t in m1 && m1[t] in o1 ==>
      t in m2 && m2[t] in o2 && o2[m2[t]] == o1[m1[t]]
    ensures ReferencedRefSccs(edges, m1, o1, ns) <= ReferencedRefSccs(edges, m2, o2, ns)
  {
    forall d | d in ReferencedRefSccs(edges, m1, o1, ns) ensures d in ReferencedRefSccs(edges, m2, o2, ns) {
      var n, t :| n in ns && n in edges && t in edges[n] && t in m1 && m1[t] in o1 && o1[m1[t]] == d;
    }
  }

  /** The old SCCs keep their nodes. */
  lemma OldNodesKept(g: Graph, cid: SccId, rid: RefSccId, H: seq<seq<NodeId>>, comp: map<NodeId, nat>, cs: seq<SccId>)
    requires Fits(g, cid, rid, H, comp) && forall k :: 0 <= k < |cs| ==> cs[k] in g.sccNodes
    ensures NodesOf(g.sccNodes + NewLists(H, cid), cs) == NodesOf(g.sccNodes, cs)
  {
    NewListsAt(g.sccNodes, H, cid);
    NodesOfAgree(g.sccNodes + NewLists(H, cid), g.sccNodes, cs);
  }

  /** The targets of the edges of old nodes keep their RefSCC. */
  lemma OldRefsKept(g: Graph, cid: SccId, rid: RefSccId, H: seq<seq<NodeId>>, comp: map<NodeId, nat>, ns: seq<NodeId>)
    requires SccPartition(g) && SccsClosed(g) && Fits(g, cid, rid, H, comp)
    requires forall n :: n in ns ==> n in g.sccMap
    ensures var g' := Added(g, H, comp, cid, rid);
      forall n, t :: n in ns && n in g.edges && t in g.edges[n] && t in g'.sccMap && g'.sccMap[t] in g'.outer ==>
        t in g.sccMap && g.sccMap[t] in g.outer && g.outer[g.sccMap[t]] == g'.outer[g'.sccMap[t]]
  {
    OldTargetsKept(g, cid, rid, H, comp);
    NewOuterAt(g.outer, cid, |H|, rid);
    forall t | t in g.sccMap ensures g.sccMap[t] < cid {
      assert g.sccMap[t] in g.sccNodes;
    }
  }

  /** An old RefSCC refers in the new graph only to RefSCCs it referred to before. */
  lemma AddedRefsOld(g: Graph, cid: SccId, rid: RefSccId, H: seq<seq<NodeId>>, comp: map<NodeId, nat>, r: RefSccId)
    requires SccPartition(g) && SccsClosed(g) && Fits(g, cid, rid, H, comp)
    requires RefSccValid(g, r) && r in g.refIndices
    ensures var g' := Added(g, H, comp, cid, rid);
      r in RefGraph(g') && r in RefGraph(g) && RefGraph(g')[r] <= RefGraph(g)[r]
  {
    var g' := Added(g, H, comp, cid, rid);
    var cs: seq<SccId> := g.sccs[r];
    OldNodesKept(g, cid, rid, H, comp, cs);
    var ns := NodesOf(g.sccNodes, cs);
    forall n | n in ns ensures n in g.sccMap {
      NodesOfPartition(g, cs, n);
    }
    OldRefsKept(g, cid, rid, H, comp, ns);
    ReferencedWithin(g.edges, g'.sccMap, g'.outer, g.sccMap, g.outer, ns);
    assert r < rid && g'.sccs[r] == cs;
    assert RefGraph(g')[r] == ReferencedRefSccs(g.edges, g'.sccMap, g'.outer, ns);
  }

  /** The new RefSCC is referred to by no old one. */
  lemma NotReferenced(g: Graph, rid: RefSccId, r: RefSccId)
    requires forall c :: c in g.outer ==> g.outer[c] < rid
    requires r in RefGraph(g)
    ensures rid !in RefGraph(g)[r]
  {
  }

  /** No RefSCC refers to a later one of the new postorder sequence. */
  lemma AddedRefOrder(g: Graph, cid: SccId, rid: RefSccId, H: seq<seq<NodeId>>, comp: map<NodeId, nat>)
    requires SccPartition(g) && SccsClosed(g) && Fits(g, cid, rid, H, comp)
    requires RefSccsValid(g) && Indexed(g.postOrder, g.refIndices) && NoForwardEdge(g.postOrder, RefGraph(g))
    ensures var g' := Added(g, H, comp, cid, rid); NoForwardEdge(g'.postOrder, RefGraph(g'))
  {
    var g' := Added(g, H, comp, cid, rid);
    var s: seq<RefSccId> := g'.postOrder;
    forall i: int, j: int | 0 <= i < j < |s| && s[i] in RefGraph(g') ensures s[j] !in RefGraph(g')[s[i]] {
      assert s[i] == g.postOrder[i] && RefSccValid(g, s[i]);
      AddedRefsOld(g, cid, rid, H, comp, s[i]);
      if j < |g.postOrder| {
        assert s[j] == g.postOrder[j];
      } else {
        NotReferenced(g, rid, s[i]);
      }
    }
  }

  /** The nodes of the new RefSCC leave the pending ones; the SCCs stay closed and the identifiers used fresh. */
  lemma AddedRest(g: Graph, pend: set<NodeId>, cid: SccId, rid: RefSccId, H: seq<seq<NodeId>>, comp: map<NodeId, nat>)
    requires AtRestBut(g, pend) && SccsClosed(g) && Fits(g, cid, rid, H, comp) && EdgesFit(g, comp)
    requires forall n :: n in comp ==> n in pend
    ensures var g' := Added(g, H, comp, cid, rid);
      AtRestBut(g', pend - comp.Keys) && SccsClosed(g') && FreshFrom(g', cid + |H|, rid + 1)
  {
    NewSccMapAt(g.sccMap, comp, cid);
    NewListsAt(g.sccNodes, H, cid);
    NewOuterAt(g.outer, cid, |H|, rid);
  }

  /** Adding a RefSCC whose nodes are pending keeps the graph being built. */
  lemma AddedBuilding(g: Graph, pend: set<NodeId>, cid: SccId, rid: RefSccId,
                      H: seq<seq<NodeId>>, comp: map<NodeId, nat>)
    requires StepPre(g, pend, cid, rid, H, comp)
    ensures Building(Added(g, H, comp, cid, rid), pend - comp.Keys, cid + |H|, rid + 1)
  {
    StepFits(g, pend, cid, rid, H, comp);
    AddedShape(g, cid, rid, H, comp);
    AddedRest(g, pend, cid, rid, H, comp);
  }

  /** Adding a RefSCC that fits keeps the partition, the RefSCCs and their order valid. */
  lemma AddedShape(g: Graph, cid: SccId, rid: RefSccId, H: seq<seq<NodeId>>, comp: map<NodeId, nat>)
    requires SccPartition(g) && SccsInRefSccs(g) && SccsClosed(g) && Fits(g, cid, rid, H, comp) && EdgesFit(g, comp)
    requires RefSccsValid(g) && Indexed(g.postOrder, g.refIndices) && NoForwardEdge(g.postOrder, RefGraph(g))
    ensures var g' := Added(g, H, comp, cid, rid);
      && SccPartition(g') && SccsInRefSccs(g') && Indexed(g'.postOrder, g'.refIndices)
      && RefSccsValid(g') && NoForwardEdge(g'.postOrder, RefGraph(g'))
  {
    AddedPartition(g, cid, rid, H, comp);
    AddedLive(g, cid, rid, H, comp);
    IndexedSnoc(g.postOrder, g.refIndices, rid);
    AddedAllValid(g, cid, rid, H, comp);
    AddedRefOrder(g, cid, rid, H, comp);
  }

  // The steps of building the SCCs of one RefSCC.

  /** Sets the DFS number and low-link of the nodes `ns` to 0, ready for a new walk. */
  method ResetNodes(dfs: map<NodeId, int>, low: map<NodeId, int>, ns: seq<NodeId>)
    returns (dfs': map<NodeId, int>, low': map<NodeId, int>)
    requires forall k :: 0 <= k < |ns| ==> ns[k] in dfs && ns[k] in low
    ensures dfs'.Keys == dfs.Keys && low'.Keys == low.Keys
    ensures forall n :: n in dfs ==> dfs'[n] == if n in ns then 0 else dfs[n]
    ensures forall n :: n in low ==> low'[n] == if n in ns then 0 else low[n]
  {
    dfs', low' := dfs, low;
    for i := 0 to |ns|
      invariant dfs'.Keys == dfs.Keys && low'.Keys == low.Keys
      invariant forall n :: n in dfs ==> dfs'[n] == if n in Elems(ns[..i]) then 0 else dfs[n]
      invariant forall n :: n in low ==> low'[n] == if n in Elems(ns[..i]) then 0 else low[n]
    {
      ElemsSnoc(ns, i);
      dfs' := dfs'[ns[i] := 0];
      low' := low'[ns[i] := 0];
    }
    ElemsAll(ns);
  }

  /** A number above every number of `s`: the next identifier a bump allocator hands out. */
  method FreshAbove(s: set<nat>) returns (x: nat)
    ensures forall y :: y in s ==> y < x
  {
    x := 0;
    var rest := s;
    while rest != {}
      invariant rest <= s && forall y :: y in s - rest ==> y < x
      decreases rest
    {
      var y :| y in rest;
      assert s - (rest - {y}) == (s - rest) + {y};
      if y >= x {
        x := y + 1;
      }
      rest := rest - {y};
    }
    assert s - rest == s;
  }

  /** The components of `comp` before position `j`. */
  ghost function Below(comp: map<NodeId, nat>, j: nat): map<NodeId, nat>
  {
    map n | n in comp && comp[n] < j :: comp[n]
  }

  /** One more SCC joins the SCC map. */
  lemma NewSccMapSnoc(m: map<NodeId, SccId>, H: seq<seq<NodeId>>, comp: map<NodeId, nat>, cid: SccId, j: nat)
    requires Grouped(H, comp) && j < |H|
    ensures m + NewSccMap(Below(comp, j + 1), cid) == (m + NewSccMap(Below(comp, j), cid)) + map n | n in H[j] :: cid + j
  {
    var A := NewSccMap(Below(comp, j + 1), cid);
    var B := NewSccMap(Below(comp, j), cid);
    var C := map n | n in H[j] :: cid + j;
    NewSccMapStep(H, comp, cid, j);
    UnionAssoc(m, B, C);
  }

  /** Map union is associative. */
  lemma UnionAssoc(a: map<NodeId, SccId>, b: map<NodeId, SccId>, c: map<NodeId, SccId>)
    ensures a + (b + c) == (a + b) + c
  {
    var l := a + (b + c);
    var r := (a + b) + c;
    assert l.Keys == r.Keys;
    forall n | n in l ensures l[n] == r[n] {
    }
  }

  /** The SCCs below `j + 1` map their nodes as those below `j` and the SCC at `j` do. */
  lemma NewSccMapStep(H: seq<seq<NodeId>>, comp: map<NodeId, nat>, cid: SccId, j: nat)
    requires Grouped(H, comp) && j < |H|
    ensures NewSccMap(Below(comp, j + 1), cid) == NewSccMap(Below(comp, j), cid) + map n | n in H[j] :: cid + j
  {
    var A := NewSccMap(Below(comp, j + 1), cid);
    var B := NewSccMap(Below(comp, j), cid);
    var C := map n | n in H[j] :: cid + j;
    BelowStep(H, comp, j);
    assert A.Keys == B.Keys + C.Keys;
    forall n | n in A ensures A[n] == (B + C)[n] {
    }
  }

  /** The nodes of the SCCs below `j + 1` are those below `j` and those of the SCC at `j`. */
  lemma BelowStep(H: seq<seq<NodeId>>, comp: map<NodeId, nat>, j: nat)
    requires Grouped(H, comp) && j < |H|
    ensures forall n :: n in H[j] ==> n in comp && comp[n] == j
    ensures forall n :: n in Below(comp, j + 1) <==> n in Below(comp, j) || n in H[j]
  {
    forall n | n in H[j] ensures n in comp && comp[n] == j {
      var k :| 0 <= k < |H[j]| && H[j][k] == n;
    }
  }

  /** One more SCC joins the node lists. */
  lemma NewListsSnoc(sccNodes: map<SccId, seq<NodeId>>, H: seq<seq<NodeId>>, cid: SccId, j: nat)
    requires j < |H|
    ensures sccNodes + NewLists(H[..j + 1], cid) == (sccNodes + NewLists(H[..j], cid))[cid + j := H[j]]
  {
    IdsMembers(cid, j);
    IdsMembers(cid, j + 1);
    assert NewLists(H[..j + 1], cid) == NewLists(H[..j], cid)[cid + j := H[j]];
  }

  /** One more SCC joins the RefSCC map. */
  lemma NewOuterSnoc(outer: map<SccId, RefSccId>, cid: SccId, rc: RefSccId, j: nat)
    ensures outer + NewOuter(cid, j + 1, rc) == (outer + NewOuter(cid, j, rc))[cid + j := rc]
  {
    IdsMembers(cid, j);
    IdsMembers(cid, j + 1);
    assert NewOuter(cid, j + 1, rc) == NewOuter(cid, j, rc)[cid + j := rc];
  }

  /** One more SCC joins the sequence of the RefSCC. */
  lemma IdsSnoc(cid: SccId, j: nat)
    ensures Ids(cid, j + 1) == Ids(cid, j) + [cid + j]
  {
  }

  /** All components lie before the number of components. */
  lemma BelowAll(H: seq<seq<NodeId>>, comp: map<NodeId, nat>)
    requires Grouped(H, comp)
    ensures Below(comp, |H|) == comp && H[..|H|] == H
  {
  }

  /** The first `j` SCCs of `H` are formed: `m`, `L`, `o` and `list` are the tables with them added. */
  ghost predicate FormedUpTo(sccMap: map<NodeId, SccId>, sccNodes: map<SccId, seq<NodeId>>, outer: map<SccId, RefSccId>,
                             H: seq<seq<NodeId>>, comp: map<NodeId, nat>, cid: SccId, rc: RefSccId, j: nat,
                             m: map<NodeId, SccId>, L: map<SccId, seq<NodeId>>, o: map<SccId, RefSccId>, list: seq<SccId>)
  {
    && j <= |H|
    && m == sccMap + NewSccMap(Below(comp, j), cid)
    && L == sccNodes + NewLists(H[..j], cid)
    && o == outer + NewOuter(cid, j, rc)
    && list == Ids(cid, j)
  }

  /** Forms SCC `cid + j` out of the nodes `H[j]`, in RefSCC `rc`. */
  method FormScc(ghost sccMap: map<NodeId, SccId>, ghost sccNodes: map<SccId, seq<NodeId>>, ghost outer: map<SccId, RefSccId>,
                 H: seq<seq<NodeId>>, ghost comp: map<NodeId, nat>, cid: SccId, rc: RefSccId, j: nat,
                 m: map<NodeId, SccId>, L: map<SccId, seq<NodeId>>, o: map<SccId, RefSccId>, list: seq<SccId>)
    returns (m': map<NodeId, SccId>, L': map<SccId, seq<NodeId>>, o': map<SccId, RefSccId>, list': seq<SccId>)
    requires Grouped(H, comp) && j < |H|
    requires FormedUpTo(sccMap, sccNodes, outer, H, comp, cid, rc, j, m, L, o, list)
    ensures FormedUpTo(sccMap, sccNodes, outer, H, comp, cid, rc, j + 1, m', L', o', list')
  {
    NewListsSnoc(sccNodes, H, cid, j);
    NewOuterSnoc(outer, cid, rc, j);
    IdsSnoc(cid, j);
    L' := L[cid + j := H[j]];
    o' := o[cid + j := rc];
    list' := list + [cid + j];
    m' := MapScc(sccMap, H, comp, cid, j, m);
  }

  /** Maps the nodes of `H[j]` to their new SCC `cid + j`. */
  method MapScc(ghost sccMap: map<NodeId, SccId>, H: seq<seq<NodeId>>, ghost comp: map<NodeId, nat>,
                cid: SccId, j: nat, m: map<NodeId, SccId>) returns (m': map<NodeId, SccId>)
    requires Grouped(H, comp) && j < |H|
    requires m == sccMap + NewSccMap(Below(comp, j), cid)
    ensures m' == sccMap + NewSccMap(Below(comp, j + 1), cid)
  {
    m' := MapNodesTo(m, H[j], cid + j);
    NewSccMapSnoc(sccMap, H, comp, cid, j);
  }

  /**
    Forms the SCCs `H` of RefSCC `rc`, numbered from `cid` in order: each gets its node
    list and its RefSCC, its nodes map to it, and it joins the sequence of the RefSCC.
   */
  method FormSccs(sccMap: map<NodeId, SccId>, sccNodes: map<SccId, seq<NodeId>>, outer: map<SccId, RefSccId>,
                  H: seq<seq<NodeId>>, ghost comp: map<NodeId, nat>, cid: SccId, rc: RefSccId)
    returns (sccMap': map<NodeId, SccId>, sccNodes': map<SccId, seq<NodeId>>, outer': map<SccId, RefSccId>,
             list: seq<SccId>)
    requires Grouped(H, comp)
    ensures sccMap' == sccMap + NewSccMap(comp, cid)
    ensures sccNodes' == sccNodes + NewLists(H, cid)
    ensures outer' == outer + NewOuter(cid, |H|, rc)
    ensures list == Ids(cid, |H|)
  {
    sccMap', sccNodes', outer', list := sccMap, sccNodes, outer, [];
    FormedNone(sccMap, sccNodes, outer, H, comp, cid, rc);
    for j := 0 to |H|
      invariant FormedUpTo(sccMap, sccNodes, outer, H, comp, cid, rc, j, sccMap', sccNodes', outer', list)
    {
      sccMap', sccNodes', outer', list := FormScc(sccMap, sccNodes, outer, H, comp, cid, rc, j, sccMap', sccNodes', outer', list);
    }
    BelowAll(H, comp);
  }

  /** Before the first SCC is formed, the tables are as they were. */
  lemma FormedNone(sccMap: map<NodeId, SccId>, sccNodes: map<SccId, seq<NodeId>>, outer: map<SccId, RefSccId>,
                   H: seq<seq<NodeId>>, comp: map<NodeId, nat>, cid: SccId, rc: RefSccId)
    ensures FormedUpTo(sccMap, sccNodes, outer, H, comp, cid, rc, 0, sccMap, sccNodes, outer, [])
  {
    assert Below(comp, 0) == map[] && H[..0] == [];
    assert NewLists([], cid) == map[] && NewOuter(cid, 0, rc) == map[];
  }

  /** Gives every SCC of the sequence `list` its position. */
  method IndexSccs(list: seq<SccId>) returns (idx: map<SccId, nat>)
    requires Distinct(list)
    ensures Indexed(list, idx)
  {
    idx := map[];
    for i := 0 to |list|
      invariant Indexed(list[..i], idx)
    {
      assert list[..i + 1] == list[..i] + [list[i]];
      IndexedSnoc(list[..i], idx, list[i]);
      idx := idx[list[i] := i];
    }
    assert list[..|list|] == list;
  }

  // Building the SCCs of one RefSCC.

  /** `dfs'` and `low'` are `dfs` and `low` with the nodes of `group` set back to 0. */
  ghost predicate ResetFrom(dfs: map<NodeId, int>, low: map<NodeId, int>, group: seq<NodeId>,
                            dfs': map<NodeId, int>, low': map<NodeId, int>)
  {
    && dfs'.Keys == dfs.Keys && low'.Keys == low.Keys
    && (forall n :: n in dfs ==> dfs'[n] == if n in group then 0 else dfs[n])
    && (forall n :: n in low ==> low'[n] == if n in group then 0 else low[n])
  }

  /**
    What building the SCCs of the RefSCC of the nodes `group` needs: the graph is being
    built, the nodes wait in `pend`, and their edges lead to nodes with an SCC or to
    nodes of the group.
   */
  ghost predicate GroupPre(g: Graph, pend: set<NodeId>, cid: SccId, rc: RefSccId, group: seq<NodeId>)
  {
    && Building(g, pend, cid, rc)
    && |group| > 0 && (forall n :: n in group ==> n in pend)
    && (forall n, x :: n in group && n in g.edges && x in g.edges[n] ==> x in g.sccMap || x in group)
  }

  /** With the nodes of the group set back to 0, the walk over the call edges from them may start. */
  lemma GroupStart(g: Graph, pend: set<NodeId>, cid: SccId, rc: RefSccId, group: seq<NodeId>,
                   calls: map<NodeId, seq<NodeId>>, dfs1: map<NodeId, int>, low1: map<NodeId, int>)
    requires GroupPre(g, pend, cid, rc, group) && SuccAre(calls, g.edges, true)
    requires ResetFrom(g.dfs, g.low, group, dfs1, low1)
    ensures Start(calls, dfs1, low1) && ClosedIn(calls, dfs1, Elems(group))
    ensures forall k :: 0 <= k < |group| ==> group[k] in calls && group[k] in Elems(group)
    ensures forall n :: n in group ==> n in g.dfs && g.dfs[n] == -1 && n in g.low && g.low[n] == -1
  {
    forall n, i | n in calls && 0 <= i < |calls[n]| ensures calls[n][i] in calls {
      assert calls[n][i] in calls[n];
    }
    forall n, i | n in Elems(group) && n in calls && 0 <= i < |calls[n]|
      ensures calls[n][i] in Elems(group) || (calls[n][i] in dfs1 && dfs1[calls[n][i]] == -1)
    {
      assert calls[n][i] in calls[n];
    }
  }

  /** The walk over the call edges of the group forms components of exactly its nodes and leaves the DFS state as it was. */
  lemma GroupWalked(dfs0: map<NodeId, int>, low0: map<NodeId, int>, group: seq<NodeId>,
                    dfs1: map<NodeId, int>, low1: map<NodeId, int>,
                    dfs2: map<NodeId, int>, low2: map<NodeId, int>, comp: map<NodeId, nat>)
    requires forall n :: n in group ==> n in dfs0 && dfs0[n] == -1 && n in low0 && low0[n] == -1
    requires ResetFrom(dfs0, low0, group, dfs1, low1)
    requires dfs2.Keys == dfs1.Keys && low2.Keys == low1.Keys
    requires forall n :: n in dfs1 ==> dfs2[n] == if n in comp then -1 else dfs1[n]
    requires forall n :: n in low1 ==> low2[n] == if n in comp then -1 else low1[n]
    requires forall n :: n in comp ==> n in Elems(group) && dfs1[n] == 0
    requires forall k :: 0 <= k < |group| ==> dfs2[group[k]] == -1
    ensures comp.Keys == Elems(group) && dfs2 == dfs0 && low2 == low0
  {
    forall n | n in Elems(group) ensures n in comp {
      var k :| 0 <= k < |group| && group[k] == n;
    }
    Restored(dfs0, dfs1, dfs2, group, comp);
    Restored(low0, low1, low2, group, comp);
  }

  /** Setting the group to 0 and then its nodes to -1 gives back a map where they were -1. */
  lemma Restored(m: map<NodeId, int>, m1: map<NodeId, int>, m2: map<NodeId, int>,
                 group: seq<NodeId>, comp: map<NodeId, nat>)
    requires m1.Keys == m.Keys && m2.Keys == m1.Keys && comp.Keys == Elems(group)
    requires forall n :: n in m ==> m1[n] == if n in group then 0 else m[n]
    requires forall n :: n in m1 ==> m2[n] == if n in comp then -1 else m1[n]
    requires forall n :: n in group ==> n in m && m[n] == -1
    ensures m2 == m
  {
    forall n | n in m ensures m2[n] == m[n] {
      assert n in comp <==> n in group;
    }
  }

  /** The components the walk forms make a RefSCC that may be added to the graph. */
  lemma GroupFits(g: Graph, pend: set<NodeId>, cid: SccId, rc: RefSccId, group: seq<NodeId>,
                  calls: map<NodeId, seq<NodeId>>, dfs1: map<NodeId, int>, H: seq<seq<NodeId>>, comp: map<NodeId, nat>)
    requires GroupPre(g, pend, cid, rc, group) && SuccAre(calls, g.edges, true)
    requires comp.Keys == Elems(group) && Grouped(H, comp) && Postordered(calls, dfs1, comp)
    requires forall n :: n in comp ==> n in dfs1 && dfs1[n] == 0
    ensures StepPre(g, pend, cid, rc, H, comp)
  {
    assert group[0] in Elems(group);
    OrderedByEdge(calls, g.edges, true, dfs1, comp);
  }

  /** The RefSCC once added to the postorder sequence, with its position recorded. */
  function Appended(t: Tables, rc: RefSccId): Tables
  {
    t.(postOrder := t.postOrder + [rc], refIndices := t.refIndices[rc := |t.postOrder|])
  }

  /**
    Builds the SCCs of the RefSCC `rc` whose nodes are `group`, listed from the top of
    the stack of the walk that formed it: their DFS numbers and low-links go back to 0,
    the walk over their call edges forms the SCCs in postorder, each is numbered from
    `cid` on and formed, and the SCCs get their positions in the RefSCC.  Once the
    RefSCC is appended to the postorder sequence, the graph is the one with it added.
   */
  method BuildSccs(ghost E: map<NodeId, map<NodeId, Kind>>, ghost En: map<NodeId, Kind>,
                   calls: map<NodeId, seq<NodeId>>, group: seq<NodeId>, t: Tables,
                   cid: SccId, rc: RefSccId, ghost pend: set<NodeId>)
    returns (t': Tables, cid': SccId, ghost H: seq<seq<NodeId>>, ghost comp: map<NodeId, nat>)
    requires SuccAre(calls, E, true) && GroupPre(GraphOf(E, En, t), pend, cid, rc, group)
    ensures comp.Keys == Elems(group) && cid' == cid + |H|
    ensures t'.postOrder == t.postOrder && t'.refIndices == t.refIndices && t'.dfs == t.dfs && t'.low == t.low
    ensures GraphOf(E, En, Appended(t', rc)) == Added(GraphOf(E, En, t), H, comp, cid, rc)
    ensures StepPre(GraphOf(E, En, t), pend, cid, rc, H, comp)
  {
    ghost var g := GraphOf(E, En, t);
    var dfs1, low1 := ResetNodes(t.dfs, t.low, group);
    GroupStart(g, pend, cid, rc, group, calls, dfs1, low1);
    var dfs2, low2, groups, comp1 := BuildGenericSccs(calls, group, dfs1, low1, Elems(group));
    H, comp := groups, comp1;
    GroupWalked(t.dfs, t.low, group, dfs1, low1, dfs2, low2, comp);
    GroupFits(g, pend, cid, rc, group, calls, dfs1, H, comp);
    var sccMap', sccNodes', outer', list := FormSccs(t.sccMap, t.sccNodes, t.outer, groups, comp, cid, rc);
    IdsIndexed(cid, |groups|);
    IndexedDistinct(list, IdIndex(cid, |groups|));
    var idx := IndexSccs(list);
    IndexedUnique(list, idx);
    IndexedUnique(list, IdIndex(cid, |groups|));
    t' := Tables(sccMap', sccNodes', outer', t.sccs[rc := list], t.sccIndices[rc := idx],
                 t.postOrder, t.refIndices, dfs2, low2);
    cid' := cid + |groups|;
  }

  // Building all RefSCCs.

  /** The nodes of the RefSCCs from position `k` on. */
  ghost function Pending(comp: map<NodeId, nat>, k: nat): set<NodeId>
  {
    set n | n in comp && comp[n] >= k
  }

  /** The nodes of the RefSCCs before position `k`. */
  ghost function DoneBefore(comp: map<NodeId, nat>, k: nat): set<NodeId>
  {
    set n | n in comp && comp[n] < k
  }

  /** Every edge from a node of a RefSCC leads to a node of the same or an earlier one. */
  ghost predicate RefOrdered(edges: map<NodeId, map<NodeId, Kind>>, comp: map<NodeId, nat>)
  {
    forall n, x :: n in comp && n in edges && x in edges[n] ==> x in comp && comp[x] <= comp[n]
  }

  /**
    The invariant of the loop over the RefSCCs `groups` formed by the walk, with `comp`
    the position of each node's one: the RefSCCs before position `k` are built and
    exactly their nodes have an SCC; the others wait.
   */
  ghost predicate Outer(E: map<NodeId, map<NodeId, Kind>>, En: map<NodeId, Kind>, calls: map<NodeId, seq<NodeId>>,
                        groups: seq<seq<NodeId>>, comp: map<NodeId, nat>, t: Tables, cid: SccId, rid: RefSccId, k: nat)
  {
    && k <= |groups| && Grouped(groups, comp) && SuccAre(calls, E, true) && RefOrdered(E, comp)
    && Building(GraphOf(E, En, t), Pending(comp, k), cid, rid)
    && t.sccMap.Keys == DoneBefore(comp, k)
  }

  /** A graph without RefSCCs has no SCCs either, and all its nodes rest at 0. */
  lemma NoneBuilt(g: Graph)
    requires GraphValid(g) && g.postOrder == []
    ensures g.sccMap == map[]
    ensures forall n :: n in g.edges ==> n in g.dfs && n in g.low && g.dfs[n] == 0 && g.low[n] == 0
  {
  }

  /** The walk over all edges may start from the targets of the entry edges. */
  lemma WalkStart(E: map<NodeId, map<NodeId, Kind>>, En: map<NodeId, Kind>, succ: map<NodeId, seq<NodeId>>,
                  roots: seq<NodeId>, t0: Tables)
    requires SuccAre(succ, E, false) && GraphValid(GraphOf(E, En, t0)) && t0.postOrder == []
    requires forall r :: r in En <==> r in roots
    ensures Start(succ, t0.dfs, t0.low)
    ensures forall k :: 0 <= k < |roots| ==> roots[k] in succ && roots[k] in Reachable(E, En)
    ensures ClosedIn(succ, t0.dfs, Reachable(E, En))
  {
    var g := GraphOf(E, En, t0);
    NoneBuilt(g);
    forall n, i | n in succ && 0 <= i < |succ[n]| ensures succ[n][i] in succ {
      assert succ[n][i] in succ[n];
    }
    forall k | 0 <= k < |roots| ensures roots[k] in succ && roots[k] in Reachable(E, En) {
      assert roots[k] in roots;
      EntryReachable(g, roots[k]);
    }
    ReachableClosed(g, succ, t0.dfs);
  }

  /** No edge leaves the nodes of the RefSCCs the walk forms. */
  lemma WalkClosed(E: map<NodeId, map<NodeId, Kind>>, succ: map<NodeId, seq<NodeId>>,
                   d0: map<NodeId, int>, comp: map<NodeId, nat>)
    requires SuccAre(succ, E, false) && Postordered(succ, d0, comp)
    requires forall n, x :: n in E && x in E[n] ==> x in E
    requires forall n :: n in E ==> n in d0 && d0[n] == 0
    ensures Paths.Closed(NodeGraph(E), comp.Keys)
  {
    var G := NodeGraph(E);
    forall x, y | x in comp && x in G && y in G[x] ensures y in comp {
      assert y in succ[x];
      var i :| 0 <= i < |succ[x]| && succ[x][i] == y;
    }
  }

  /** The RefSCCs the walk forms hold exactly the nodes reachable from the entry edges. */
  lemma WalkReachesAll(E: map<NodeId, map<NodeId, Kind>>, En: map<NodeId, Kind>, succ: map<NodeId, seq<NodeId>>,
                       roots: seq<NodeId>, d0: map<NodeId, int>, dfs: map<NodeId, int>, comp: map<NodeId, nat>)
    requires SuccAre(succ, E, false) && (forall r :: r in En <==> r in roots)
    requires forall n, x :: n in E && x in E[n] ==> x in E
    requires forall n :: n in E ==> n in d0 && d0[n] == 0
    requires forall n :: n in d0 ==> n in dfs && dfs[n] == if n in comp then -1 else d0[n]
    requires forall n :: n in comp ==> n in Reachable(E, En)
    requires forall k :: 0 <= k < |roots| ==> roots[k] in succ && dfs[roots[k]] == -1
    requires Postordered(succ, d0, comp)
    ensures comp.Keys == Reachable(E, En)
  {
    WalkClosed(E, succ, d0, comp);
    RootsFormed(E, En, roots, d0, dfs, comp);
    ClosedHoldsReachable(E, En, comp.Keys);
  }

  /** A set of nodes that holds the entry targets and that no edge leaves holds every reachable node. */
  lemma ClosedHoldsReachable(E: map<NodeId, map<NodeId, Kind>>, En: map<NodeId, Kind>, S: set<NodeId>)
    requires Paths.Closed(NodeGraph(E), S) && forall r :: r in En ==> r in S
    ensures Reachable(E, En) <= S
  {
    forall n | n in Reachable(E, En) ensures n in S {
      var r :| r in En && Reaches(NodeGraph(E), r, n);
      ClosedKeepsReach(NodeGraph(E), S, r, n);
    }
  }

  /** Every root ends in a component: it started unreached and ends at -1. */
  lemma RootsFormed(E: map<NodeId, map<NodeId, Kind>>, En: map<NodeId, Kind>, roots: seq<NodeId>,
                    d0: map<NodeId, int>, dfs: map<NodeId, int>, comp: map<NodeId, nat>)
    requires forall r :: r in En <==> r in roots
    requires forall n :: n in E ==> n in d0 && d0[n] == 0
    requires forall n :: n in d0 ==> n in dfs && dfs[n] == if n in comp then -1 else d0[n]
    requires forall k :: 0 <= k < |roots| ==> roots[k] in E && roots[k] in dfs && dfs[roots[k]] == -1
    ensures forall r :: r in En ==> r in comp
  {
    forall r | r in En ensures r in comp {
      var k :| 0 <= k < |roots| && roots[k] == r;
    }
  }

  /** Identifiers above all those the tables use are free. */
  lemma FreshTables(g: Graph, cid: SccId, rid: RefSccId)
    requires forall c :: c in g.sccNodes.Keys + g.outer.Keys ==> c < cid
    requires forall r :: r in g.sccs.Keys + g.sccIndices.Keys + g.refIndices.Keys + g.outer.Values ==> r < rid
    ensures FreshFrom(g, cid, rid)
  {
    forall c | c in g.sccNodes ensures c < cid {
      assert c in g.sccNodes.Keys + g.outer.Keys;
    }
    forall c | c in g.outer ensures c < cid && g.outer[c] < rid {
      assert c in g.sccNodes.Keys + g.outer.Keys;
      assert g.outer[c] in g.sccs.Keys + g.sccIndices.Keys + g.refIndices.Keys + g.outer.Values;
    }
    forall r | r in g.sccs ensures r < rid {
      assert r in g.sccs.Keys + g.sccIndices.Keys + g.refIndices.Keys + g.outer.Values;
    }
    forall r | r in g.sccIndices ensures r < rid {
      assert r in g.sccs.Keys + g.sccIndices.Keys + g.refIndices.Keys + g.outer.Values;
    }
    forall r | r in g.refIndices ensures r < rid {
      assert r in g.sccs.Keys + g.sccIndices.Keys + g.refIndices.Keys + g.outer.Values;
    }
  }

  /** After the walk over all edges, the graph is being built with all RefSCCs waiting. */
  lemma StartBuilding(g: Graph, dfs: map<NodeId, int>, low: map<NodeId, int>, comp: map<NodeId, nat>,
                      cid: SccId, rid: RefSccId)
    requires GraphValid(g) && g.postOrder == [] && FreshFrom(g, cid, rid)
    requires dfs.Keys == g.dfs.Keys && low.Keys == g.low.Keys
    requires forall n :: n in g.dfs ==> dfs[n] == if n in comp then -1 else g.dfs[n]
    requires forall n :: n in g.low ==> low[n] == if n in comp then -1 else g.low[n]
    requires forall n :: n in comp ==> n in g.edges
    ensures Building(g.(dfs := dfs, low := low), comp.Keys, cid, rid)
  {
    NoneBuilt(g);
  }

  /** The walk over all edges orders the RefSCCs along every edge. */
  lemma StartOrdered(E: map<NodeId, map<NodeId, Kind>>, succ: map<NodeId, seq<NodeId>>,
                     d0: map<NodeId, int>, comp: map<NodeId, nat>)
    requires SuccAre(succ, E, false) && Postordered(succ, d0, comp)
    requires forall n :: n in E ==> n in d0 && d0[n] == 0
    requires forall n, x :: n in E && x in E[n] ==> x in E
    ensures RefOrdered(E, comp)
  {
    OrderedByEdge(succ, E, false, d0, comp);
    forall n, x | n in comp && n in E && x in E[n] ensures x in comp && comp[x] <= comp[n] {
      assert x in E;
    }
  }

  /** Before any RefSCC is built, the loop invariant holds with all RefSCCs waiting. */
  lemma OuterStart(E: map<NodeId, map<NodeId, Kind>>, En: map<NodeId, Kind>, calls: map<NodeId, seq<NodeId>>,
                   t0: Tables, dfs: map<NodeId, int>, low: map<NodeId, int>,
                   groups: seq<seq<NodeId>>, comp: map<NodeId, nat>, cid: SccId, rid: RefSccId)
    requires SuccAre(calls, E, true) && Grouped(groups, comp) && RefOrdered(E, comp) && t0.sccMap == map[]
    requires Building(GraphOf(E, En, t0).(dfs := dfs, low := low), comp.Keys, cid, rid)
    ensures Outer(E, En, calls, groups, comp, t0.(dfs := dfs, low := low), cid, rid, 0)
  {
    assert GraphOf(E, En, t0).(dfs := dfs, low := low) == GraphOf(E, En, t0.(dfs := dfs, low := low));
    assert Pending(comp, 0) == comp.Keys;
  }

  /** The next RefSCC may be built. */
  lemma OuterPre(E: map<NodeId, map<NodeId, Kind>>, En: map<NodeId, Kind>, calls: map<NodeId, seq<NodeId>>,
                 groups: seq<seq<NodeId>>, comp: map<NodeId, nat>, t: Tables, cid: SccId, rid: RefSccId, k: nat)
    requires Outer(E, En, calls, groups, comp, t, cid, rid, k) && k < |groups|
    ensures GroupPre(GraphOf(E, En, t), Pending(comp, k), cid, rid, groups[k])
  {
    forall n, x | n in groups[k] && n in E && x in E[n] ensures x in t.sccMap || x in groups[k] {
      var j :| 0 <= j < |groups[k]| && groups[k][j] == n;
      if comp[x] == k {
        assert x in groups[comp[x]];
      }
    }
    forall n | n in groups[k] ensures n in Pending(comp, k) {
      var j :| 0 <= j < |groups[k]| && groups[k][j] == n;
    }
  }

  /** The nodes of the RefSCC at position `k` are those of the group listed there. */
  lemma GroupNodes(groups: seq<seq<NodeId>>, comp: map<NodeId, nat>, k: nat, compIn: map<NodeId, nat>)
    requires Grouped(groups, comp) && k < |groups| && compIn.Keys == Elems(groups[k])
    ensures forall n :: n in compIn <==> n in comp && comp[n] == k
  {
    forall n | n in comp && comp[n] == k ensures n in compIn {
      assert n in groups[comp[n]];
    }
    forall n | n in compIn ensures n in comp && comp[n] == k {
      var j :| 0 <= j < |groups[k]| && groups[k][j] == n;
    }
  }

  /** Building the RefSCC at position `k` moves its nodes from the waiting ones to those with an SCC. */
  lemma OuterSets(comp: map<NodeId, nat>, k: nat, compIn: map<NodeId, nat>, sccMap: map<NodeId, SccId>, cid: SccId)
    requires forall n :: n in compIn <==> n in comp && comp[n] == k
    requires sccMap.Keys == DoneBefore(comp, k)
    ensures Pending(comp, k) - compIn.Keys == Pending(comp, k + 1)
    ensures (sccMap + NewSccMap(compIn, cid)).Keys == DoneBefore(comp, k + 1)
  {
    NewSccMapAt(sccMap, compIn, cid);
  }

  /** Once one more RefSCC is built and appended, the loop invariant holds for the next. */
  lemma OuterStep(E: map<NodeId, map<NodeId, Kind>>, En: map<NodeId, Kind>, calls: map<NodeId, seq<NodeId>>,
                  groups: seq<seq<NodeId>>, comp: map<NodeId, nat>, t: Tables, cid: SccId, rid: RefSccId, k: nat,
                  t': Tables, H: seq<seq<NodeId>>, compIn: map<NodeId, nat>)
    requires Outer(E, En, calls, groups, comp, t, cid, rid, k) && k < |groups|
    requires compIn.Keys == Elems(groups[k]) && StepPre(GraphOf(E, En, t), Pending(comp, k), cid, rid, H, compIn)
    requires GraphOf(E, En, Appended(t', rid)) == Added(GraphOf(E, En, t), H, compIn, cid, rid)
    ensures Outer(E, En, calls, groups, comp, Appended(t', rid), cid + |H|, rid + 1, k + 1)
  {
    AddedBuilding(GraphOf(E, En, t), Pending(comp, k), cid, rid, H, compIn);
    GroupNodes(groups, comp, k, compIn);
    OuterSets(comp, k, compIn, t.sccMap, cid);
  }

  /** Once every RefSCC is built, the graph is valid and exactly their nodes have an SCC. */
  lemma OuterDone(E: map<NodeId, map<NodeId, Kind>>, En: map<NodeId, Kind>, calls: map<NodeId, seq<NodeId>>,
                  groups: seq<seq<NodeId>>, comp: map<NodeId, nat>, t: Tables, cid: SccId, rid: RefSccId)
    requires Outer(E, En, calls, groups, comp, t, cid, rid, |groups|)
    ensures GraphValid(GraphOf(E, En, t)) && t.sccMap.Keys == comp.Keys
  {
    assert Pending(comp, |groups|) == {};
    BuiltValid(GraphOf(E, En, t), cid, rid);
  }

  /**
    The walk over all edges from the roots: it forms the RefSCCs, leaves their nodes
    waiting at -1, and picks the identifiers the new SCCs and RefSCCs are numbered from.
   */
  method WalkRefSccs(ghost E: map<NodeId, map<NodeId, Kind>>, ghost En: map<NodeId, Kind>,
                     succ: map<NodeId, seq<NodeId>>, calls: map<NodeId, seq<NodeId>>,
                     roots: seq<NodeId>, t0: Tables)
    returns (t: Tables, groups: seq<seq<NodeId>>, ghost comp: map<NodeId, nat>, cid: SccId, rid: RefSccId)
    requires SuccAre(succ, E, false) && SuccAre(calls, E, true)
    requires GraphValid(GraphOf(E, En, t0)) && t0.postOrder == []
    requires forall r :: r in En <==> r in roots
    ensures Outer(E, En, calls, groups, comp, t, cid, rid, 0) && comp.Keys == Reachable(E, En)
  {
    WalkStart(E, En, succ, roots, t0);
    var dfs, low;
    dfs, low, groups, comp := BuildGenericSccs(succ, roots, t0.dfs, t0.low, Reachable(E, En));
    NoneBuilt(GraphOf(E, En, t0));
    WalkReachesAll(E, En, succ, roots, t0.dfs, dfs, comp);
    cid := FreshAbove(t0.sccNodes.Keys + t0.outer.Keys);
    rid := FreshAbove(t0.sccs.Keys + t0.sccIndices.Keys + t0.refIndices.Keys + t0.outer.Values);
    FreshTables(GraphOf(E, En, t0), cid, rid);
    StartBuilding(GraphOf(E, En, t0), dfs, low, comp, cid, rid);
    StartOrdered(E, succ, t0.dfs, comp);
    OuterStart(E, En, calls, t0, dfs, low, groups, comp, cid, rid);
    t := t0.(dfs := dfs, low := low);
  }

  /**
    Builds the RefSCCs of a graph that has none, walking all edges from the targets of
    the entry edges `roots`: the walk forms the RefSCCs in postorder, and each in turn
    gets fresh identifiers, its SCCs, and its place at the end of the postorder
    sequence.  The graph ends valid, with an SCC for exactly the nodes reachable from the
    entry edges.
   */
  method BuildAllRefSccs(ghost E: map<NodeId, map<NodeId, Kind>>, ghost En: map<NodeId, Kind>,
                         succ: map<NodeId, seq<NodeId>>, calls: map<NodeId, seq<NodeId>>,
                         roots: seq<NodeId>, t0: Tables) returns (t: Tables)
    requires SuccAre(succ, E, false) && SuccAre(calls, E, true)
    requires GraphValid(GraphOf(E, En, t0)) && t0.postOrder == []
    requires forall r :: r in En <==> r in roots
    ensures GraphValid(GraphOf(E, En, t))
    ensures t.sccMap.Keys == Reachable(E, En)
  {
    var groups, cid, rid;
    ghost var comp;
    t, groups, comp, cid, rid := WalkRefSccs(E, En, succ, calls, roots, t0);
    for k := 0 to |groups|
      invariant Outer(E, En, calls, groups, comp, t, cid, rid, k)
    {
      OuterPre(E, En, calls, groups, comp, t, cid, rid, k);
      var t1, cid1, H, compIn := BuildSccs(E, En, calls, groups[k], t, cid, rid, Pending(comp, k));
      OuterStep(E, En, calls, groups, comp, t, cid, rid, k, t1, H, compIn);
      t, cid, rid := Appended(t1, rid), cid1, rid + 1;
    }
    OuterDone(E, En, calls, groups, comp, t, cid, rid);
  }
}
