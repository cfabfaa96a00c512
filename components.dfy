/**
  The lazy call graph as a value: the edges of every node, the entry edges, the call
  SCCs and the RefSCCs with their postorder sequences and index maps, and the DFS
  numbers and low-links Tarjan's walk leaves on the nodes.  The assertions of the
  `verify` routines, and the invariants the code keeps without asserting them (the
  RefSCC postorder, the DFS numbers of nodes outside every SCC), are predicates on
  this value, and every update of the graph is a function from one value to the next.
 */
module Components {
  import opened Edges
  import opened Paths
  import opened Postorder

  type SccId = nat
  type RefSccId = nat

  datatype Graph = Graph(
    /** The edges of each node of the graph, target to kind. */
    edges: map<NodeId, map<NodeId, Kind>>,
    /** The entry edges of the graph, to the functions visible from outside. */
    entry: map<NodeId, Kind>,
    /** The SCC of each node whose SCC has been formed. */
    sccMap: map<NodeId, SccId>,
    /** The nodes of each SCC; a merged or removed SCC keeps an empty list. */
    sccNodes: map<SccId, seq<NodeId>>,
    /** The RefSCC each SCC lies in. */
    outer: map<SccId, RefSccId>,
    /** The postorder sequence of the SCCs of each RefSCC. */
    sccs: map<RefSccId, seq<SccId>>,
    /** The position of each SCC in the sequence of its RefSCC. */
    sccIndices: map<RefSccId, map<SccId, nat>>,
    /** The postorder sequence of the RefSCCs of the graph. */
    postOrder: seq<RefSccId>,
    /** The position of each RefSCC in the postorder sequence. */
    refIndices: map<RefSccId, nat>,
    /** The DFS number of each node: 0 before the walk, -1 once in an SCC. */
    dfs: map<NodeId, int>,
    /** The low-link of each node, with the same two resting values. */
    low: map<NodeId, int>
  )

  /**
    The SCC and RefSCC bookkeeping of the graph: the SCC map, the node lists of the
    SCCs and the RefSCC of each, the SCC sequences of the RefSCCs with their index maps,
    the postorder sequence of RefSCCs with its index map, and the DFS numbers and
    low-links of the nodes.
   */
  datatype Tables = Tables(
    sccMap: map<NodeId, SccId>,
    sccNodes: map<SccId, seq<NodeId>>,
    outer: map<SccId, RefSccId>,
    sccs: map<RefSccId, seq<SccId>>,
    sccIndices: map<RefSccId, map<SccId, nat>>,
    postOrder: seq<RefSccId>,
    refIndices: map<RefSccId, nat>,
    dfs: map<NodeId, int>,
    low: map<NodeId, int>)

  /** The graph with edges `edges`, entry edges `entry` and bookkeeping `t`. */
  ghost function GraphOf(edges: map<NodeId, map<NodeId, Kind>>, entry: map<NodeId, Kind>, t: Tables): Graph
  {
    Graph(edges, entry, t.sccMap, t.sccNodes, t.outer, t.sccs, t.sccIndices, t.postOrder, t.refIndices, t.dfs, t.low)
  }

  /** The nodes listed for component `c`, none when it has no list. */
  ghost function NodesIn(sccNodes: map<SccId, seq<NodeId>>, c: SccId): seq<NodeId>
  {
    if c in sccNodes then sccNodes[c] else []
  }

  /** The nodes of the components `cs`, one component after the other. */
  ghost function NodesOf(sccNodes: map<SccId, seq<NodeId>>, cs: seq<SccId>): (ns: seq<NodeId>)
  {
    if cs == [] then []
    else NodesOf(sccNodes, cs[..|cs| - 1]) + NodesIn(sccNodes, cs[|cs| - 1])
  }

  /** A node is among the nodes of `cs` exactly when one of the components lists it. */
  lemma {:induction false} NodesOfMembers(sccNodes: map<SccId, seq<NodeId>>, cs: seq<SccId>, n: NodeId)
    ensures n in NodesOf(sccNodes, cs) <==>
      exists k :: 0 <= k < |cs| && cs[k] in sccNodes && n in sccNodes[cs[k]]
  {
    if cs != [] {
      var init := cs[..|cs| - 1];
      NodesOfMembers(sccNodes, init, n);
      if n in NodesOf(sccNodes, cs) && n !in NodesOf(sccNodes, init) {
        assert cs[|cs| - 1] in sccNodes && n in sccNodes[cs[|cs| - 1]];
      }
      if exists k :: 0 <= k < |cs| && cs[k] in sccNodes && n in sccNodes[cs[k]] {
        var k :| 0 <= k < |cs| && cs[k] in sccNodes && n in sccNodes[cs[k]];
        if k < |cs| - 1 {
          assert init[k] == cs[k];
        }
      }
    }
  }

  /**
    The SCCs the nodes `ns` call: the SCC of the target of each call edge, for the
    targets whose SCC has been formed.
   */
  ghost function CalleeSccs(edges: map<NodeId, map<NodeId, Kind>>, sccMap: map<NodeId, SccId>,
                            ns: seq<NodeId>): set<SccId>
  {
    set n, t | n in ns && n in edges && t in edges[n] && edges[n][t] == Call && t in sccMap :: sccMap[t]
  }

  /** The SCC graph: each SCC to the SCCs its nodes call. */
  ghost function CallGraph(g: Graph): map<SccId, set<SccId>>
  {
    map c | c in g.sccNodes :: CalleeSccs(g.edges, g.sccMap, g.sccNodes[c])
  }

  /** The SCC graph on the SCCs `cs` alone: each of them with a node list, to the SCCs its nodes call. */
  ghost function LocalSccGraph(edges: map<NodeId, map<NodeId, Kind>>, sccMap: map<NodeId, SccId>,
                               sccNodes: map<SccId, seq<NodeId>>, cs: seq<SccId>): map<SccId, set<SccId>>
  {
    map c | c in cs && c in sccNodes :: CalleeSccs(edges, sccMap, sccNodes[c])
  }

  /**
    The RefSCCs the nodes `ns` refer to: the RefSCC of the target of each edge of
    either kind, for the targets that have one.
   */
  ghost function ReferencedRefSccs(edges: map<NodeId, map<NodeId, Kind>>, sccMap: map<NodeId, SccId>,
                                   outer: map<SccId, RefSccId>, ns: seq<NodeId>): set<RefSccId>
  {
    set n, t | n in ns && n in edges && t in edges[n] && t in sccMap && sccMap[t] in outer :: outer[sccMap[t]]
  }

  /**
    The RefSCC graph: each RefSCC of the postorder sequence to the RefSCCs the nodes of
    its SCCs refer to.
   */
  ghost function RefGraph(g: Graph): map<RefSccId, set<RefSccId>>
  {
    map rc | rc in g.refIndices && rc in g.sccs :: ReferencedRefSccs(g.edges, g.sccMap, g.outer, NodesOf(g.sccNodes, g.sccs[rc]))
  }

  /** Every edge, and every entry edge, leads to a node of the graph. */
  ghost predicate EdgesClosed(g: Graph)
  {
    && (forall n, t :: n in g.edges && t in g.edges[n] ==> t in g.edges)
    && (forall t :: t in g.entry ==> t in g.edges)
  }

  /** The SCC map and the node lists of the SCCs describe the same partition. */
  ghost predicate SccPartition(g: Graph)
  {
    && (forall n :: n in g.sccMap ==>
          n in g.edges && g.sccMap[n] in g.sccNodes && n in g.sccNodes[g.sccMap[n]])
    && (forall c, n :: c in g.sccNodes && n in g.sccNodes[c] ==> n in g.sccMap && g.sccMap[n] == c)
  }

  /**
    A node that is in an SCC has DFS number and low-link -1; one that is not has not
    been reached by a walk yet and has both 0.
   */
  ghost predicate DfsAtRest(g: Graph)
  {
    forall n :: n in g.edges ==>
      && n in g.dfs && n in g.low
      && (if n in g.sccMap then g.dfs[n] == -1 && g.low[n] == -1 else g.dfs[n] == 0 && g.low[n] == 0)
  }

  /** An SCC whose RefSCC is in the postorder sequence and lists it. */
  ghost predicate LiveScc(g: Graph, c: SccId)
  {
    && c in g.outer && g.outer[c] in g.refIndices && g.outer[c] in g.sccs && g.outer[c] in g.sccIndices
    && c in g.sccs[g.outer[c]]
  }

  /** The SCC of every node is live. */
  ghost predicate SccsInRefSccs(g: Graph)
  {
    forall n :: n in g.sccMap ==> LiveScc(g, g.sccMap[n])
  }

  /**
    The structural assertions of the RefSCC's `verify`: its SCCs are non-empty, point back to it,
    appear once and are indexed by their positions, and no call edge runs from an SCC
    to a later one of the sequence.
   */
  ghost predicate RefSccValid(g: Graph, rc: RefSccId)
  {
    && rc in g.sccs && rc in g.sccIndices
    && |g.sccs[rc]| > 0
    && Indexed(g.sccs[rc], g.sccIndices[rc])
    && (forall i :: 0 <= i < |g.sccs[rc]| ==>
          var c := g.sccs[rc][i];
          c in g.sccNodes && |g.sccNodes[c]| > 0 && c in g.outer && g.outer[c] == rc)
    && NoForwardEdge(g.sccs[rc], CallGraph(g))
  }

  /**
    The invariant of the whole graph: the structural facts above for every RefSCC of
    the postorder sequence, which is indexed by its positions and has no edge from a
    RefSCC to a later one.  The `verify` routines assert only part of it; the
    postorder of the RefSCCs and the 0 DFS numbers outside every SCC are kept by the
    code without being asserted.
   */
  ghost predicate GraphValid(g: Graph)
  {
    && EdgesClosed(g)
    && SccPartition(g)
    && DfsAtRest(g)
    && SccsInRefSccs(g)
    && Indexed(g.postOrder, g.refIndices)
    && RefSccsValid(g)
    && NoForwardEdge(g.postOrder, RefGraph(g))
  }

  /** Every RefSCC of the postorder sequence is valid. */
  ghost predicate RefSccsValid(g: Graph)
  {
    forall i :: 0 <= i < |g.postOrder| ==> RefSccValid(g, g.postOrder[i])
  }

  /** Components listed alike in two maps have the same nodes. */
  lemma {:induction false} NodesOfAgree(m1: map<SccId, seq<NodeId>>, m2: map<SccId, seq<NodeId>>, cs: seq<SccId>)
    requires forall k :: 0 <= k < |cs| ==> NodesIn(m1, cs[k]) == NodesIn(m2, cs[k])
    ensures NodesOf(m1, cs) == NodesOf(m2, cs)
  {
    if cs != [] {
      NodesOfAgree(m1, m2, cs[..|cs| - 1]);
    }
  }

  /** With the SCCs a partition, the nodes of `cs` are the nodes whose SCC is among `cs`. */
  lemma NodesOfPartition(g: Graph, cs: seq<SccId>, n: NodeId)
    requires SccPartition(g)
    ensures n in NodesOf(g.sccNodes, cs) <==> n in g.sccMap && g.sccMap[n] in cs
  {
    NodesOfMembers(g.sccNodes, cs, n);
    if n in g.sccMap && g.sccMap[n] in cs {
      var k :| 0 <= k < |cs| && cs[k] == g.sccMap[n];
    }
  }

  /** The referenced RefSCCs depend on the nodes' membership and on each target's RefSCC only. */
  lemma ReferencedSame(edges: map<NodeId, map<NodeId, Kind>>,
                       m1: map<NodeId, SccId>, o1: map<SccId, RefSccId>, ns1: seq<NodeId>,
                       m2: map<NodeId, SccId>, o2: map<SccId, RefSccId>, ns2: seq<NodeId>)
    requires forall n :: n in ns1 <==> n in ns2
    requires forall t :: (t in m1 && m1[t] in o1) <==> (t in m2 && m2[t] in o2)
    requires forall t :: t in m1 && m1[t] in o1 ==> o1[m1[t]] == o2[m2[t]]
    ensures ReferencedRefSccs(edges, m1, o1, ns1) == ReferencedRefSccs(edges, m2, o2, ns2)
  {
    forall d | d in ReferencedRefSccs(edges, m1, o1, ns1) ensures d in ReferencedRefSccs(edges, m2, o2, ns2) {
      var n, t :| n in ns1 && n in edges && t in edges[n] && t in m1 && m1[t] in o1 && o1[m1[t]] == d;
      assert n in ns2;
    }
    forall d | d in ReferencedRefSccs(edges, m2, o2, ns2) ensures d in ReferencedRefSccs(edges, m1, o1, ns1) {
      var n, t :| n in ns2 && n in edges && t in edges[n] && t in m2 && m2[t] in o2 && o2[m2[t]] == d;
      assert n in ns1;
    }
  }
}
