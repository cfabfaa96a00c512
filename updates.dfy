/**
  The updates of the lazy call graph that do not reshape the SCCs of a RefSCC: changing
  or adding a single edge, removing ref edges, and removing a dead function.  Each is a
  function from graph to graph, and each keeps the graph's invariant.
 */
module Updates {
  import opened Edges
  import opened Paths
  import opened Postorder
  import opened Components

  /** The graph with the edge from `src` to `tgt` set to kind `k`, added if missing. */
  ghost function WithEdge(g: Graph, src: NodeId, tgt: NodeId, k: Kind): (g': Graph)
    requires src in g.edges
    ensures g'.edges.Keys == g.edges.Keys && g'.edges[src].Keys == g.edges[src].Keys + {tgt}
  {
    var out: map<NodeId, Kind> := g.edges[src][tgt := k];
    g.(edges := g.edges[src := out])
  }

  /** Setting an edge to the kind it already has leaves the graph as it is. */
  lemma WithEdgeSame(g: Graph, src: NodeId, tgt: NodeId, k: Kind)
    requires src in g.edges && tgt in g.edges[src] && g.edges[src][tgt] == k
    ensures WithEdge(g, src, tgt, k) == g
  {
    assert g.edges[src][tgt := k] == g.edges[src];
    assert g.edges[src := g.edges[src]] == g.edges;
  }

  /** The callee SCCs of nodes whose edges did not change. */
  lemma CalleeSccsAgree(e1: map<NodeId, map<NodeId, Kind>>, e2: map<NodeId, map<NodeId, Kind>>,
                        m: map<NodeId, SccId>, ns: seq<NodeId>)
    requires forall n :: n in ns ==> (n in e1 <==> n in e2) && (n in e1 ==> e1[n] == e2[n])
    ensures CalleeSccs(e1, m, ns) == CalleeSccs(e2, m, ns)
  {
  }

  /** Making the edge from `src` to `tgt` a call edge adds one edge to the SCC graph. */
  lemma CallGraphWithCall(g: Graph, src: NodeId, tgt: NodeId)
    requires SccPartition(g) && src in g.sccMap && tgt in g.sccMap
    ensures CallGraph(WithEdge(g, src, tgt, Call)) == AddEdge(CallGraph(g), g.sccMap[src], g.sccMap[tgt])
  {
    var g' := WithEdge(g, src, tgt, Call);
    var cs, ct := g.sccMap[src], g.sccMap[tgt];
    forall c | c in g.sccNodes
      ensures CallGraph(g')[c] == AddEdge(CallGraph(g), cs, ct)[c]
    {
      var ns := g.sccNodes[c];
      if c == cs {
        CalleeSccsWithCall(g.edges, g.sccMap, ns, src, tgt);
      } else {
        assert src !in ns;
        CalleeSccsAgree(g'.edges, g.edges, g.sccMap, ns);
      }
    }
  }

  /** The callee SCCs of nodes that include `src` once the edge to `tgt` is a call edge. */
  lemma CalleeSccsWithCall(edges: map<NodeId, map<NodeId, Kind>>, m: map<NodeId, SccId>, ns: seq<NodeId>,
                           src: NodeId, tgt: NodeId)
    requires src in ns && src in edges && tgt in m
    ensures var out: map<NodeId, Kind> := edges[src][tgt := Call];
      CalleeSccs(edges[src := out], m, ns) == CalleeSccs(edges, m, ns) + {m[tgt]}
  {
    var out: map<NodeId, Kind> := edges[src][tgt := Call];
    var edges' := edges[src := out];
    forall d | d in CalleeSccs(edges', m, ns) ensures d in CalleeSccs(edges, m, ns) + {m[tgt]} {
      var n, t :| n in ns && n in edges' && t in edges'[n] && edges'[n][t] == Call && t in m && m[t] == d;
      if n != src || t != tgt {
        assert edges'[n][t] == edges[n][t];
      }
    }
    forall d | d in CalleeSccs(edges, m, ns) + {m[tgt]} ensures d in CalleeSccs(edges', m, ns) {
      if d == m[tgt] {
        assert edges'[src][tgt] == Call;
      } else {
        var n, t :| n in ns && n in edges && t in edges[n] && edges[n][t] == Call && t in m && m[t] == d;
        if n != src || t != tgt {
          assert edges'[n][t] == edges[n][t];
        }
      }
    }
  }

  /** A ref edge, added or left as it was, does not change the SCC graph. */
  lemma CallGraphWithRef(g: Graph, src: NodeId, tgt: NodeId)
    requires src in g.edges && (tgt in g.edges[src] ==> g.edges[src][tgt] == Ref)
    ensures CallGraph(WithEdge(g, src, tgt, Ref)) == CallGraph(g)
  {
    var g' := WithEdge(g, src, tgt, Ref);
    forall c | c in g.sccNodes ensures CallGraph(g')[c] == CallGraph(g)[c] {
      var ns := g.sccNodes[c];
      forall d | d in CalleeSccs(g'.edges, g.sccMap, ns) ensures d in CalleeSccs(g.edges, g.sccMap, ns) {
        var n, t :| n in ns && n in g'.edges && t in g'.edges[n] && g'.edges[n][t] == Call && t in g.sccMap
                    && g.sccMap[t] == d;
        assert n != src || t != tgt;
        assert g'.edges[n][t] == g.edges[n][t];
      }
      forall d | d in CalleeSccs(g.edges, g.sccMap, ns) ensures d in CalleeSccs(g'.edges, g.sccMap, ns) {
        var n, t :| n in ns && n in g.edges && t in g.edges[n] && g.edges[n][t] == Call && t in g.sccMap
                    && g.sccMap[t] == d;
        assert g'.edges[n][t] == g.edges[n][t];
      }
    }
  }

  /** The referenced RefSCCs depend only on the targets of the edges, not their kinds. */
  lemma ReferencedAgree(e1: map<NodeId, map<NodeId, Kind>>, e2: map<NodeId, map<NodeId, Kind>>,
                        m: map<NodeId, SccId>, outer: map<SccId, RefSccId>, ns: seq<NodeId>)
    requires forall n :: n in ns ==> (n in e1 <==> n in e2) && (n in e1 ==> e1[n].Keys == e2[n].Keys)
    ensures ReferencedRefSccs(e1, m, outer, ns) == ReferencedRefSccs(e2, m, outer, ns)
  {
  }

  /** Changing the kind of an existing edge does not change the RefSCC graph. */
  lemma RefGraphSameTargets(g: Graph, src: NodeId, tgt: NodeId, k: Kind)
    requires src in g.edges && tgt in g.edges[src]
    ensures RefGraph(WithEdge(g, src, tgt, k)) == RefGraph(g)
  {
    var g' := WithEdge(g, src, tgt, k);
    forall rc | rc in RefGraph(g) ensures RefGraph(g')[rc] == RefGraph(g)[rc] {
      ReferencedAgree(g'.edges, g.edges, g.sccMap, g.outer, NodesOf(g.sccNodes, g.sccs[rc]));
    }
  }

  /** The RefSCC a node of an SCC lies in. */
  ghost function RefSccOf(g: Graph, n: NodeId): RefSccId
    requires SccsInRefSccs(g) && n in g.sccMap
  {
    g.outer[g.sccMap[n]]
  }

  /**
    A node of a RefSCC of the postorder sequence is among the nodes of that RefSCC's
    SCCs, and among those of no other RefSCC of the sequence.
   */
  lemma NodeOfRefScc(g: Graph, n: NodeId, rc: RefSccId)
    requires GraphValid(g) && n in g.sccMap && rc in g.refIndices && rc in g.sccs
    ensures n in NodesOf(g.sccNodes, g.sccs[rc]) <==> RefSccOf(g, n) == rc
  {
    var c := g.sccMap[n];
    NodesOfMembers(g.sccNodes, g.sccs[rc], n);
    var i := g.refIndices[rc];
    assert g.postOrder[i] == rc;
    assert RefSccValid(g, rc);
    if RefSccOf(g, n) == rc {
      var k :| 0 <= k < |g.sccs[rc]| && g.sccs[rc][k] == c;
    }
  }

  /** Exactly one RefSCC of the graph has `n` among the nodes of its SCCs. */
  ghost predicate OnlyIn(g: Graph, n: NodeId, r: RefSccId)
  {
    forall rc :: rc in g.refIndices && rc in g.sccs ==> (n in NodesOf(g.sccNodes, g.sccs[rc]) <==> rc == r)
  }

  lemma NodeOnlyInItsRefScc(g: Graph, n: NodeId)
    requires GraphValid(g) && n in g.sccMap
    ensures OnlyIn(g, n, RefSccOf(g, n)) && RefSccOf(g, n) in RefGraph(g)
  {
    forall rc | rc in g.refIndices && rc in g.sccs
      ensures n in NodesOf(g.sccNodes, g.sccs[rc]) <==> rc == RefSccOf(g, n)
    {
      NodeOfRefScc(g, n, rc);
    }
  }

  /** A new edge from a node of RefSCC `rs` to one of `rt` adds one edge to the RefSCC graph. */
  lemma RefGraphNewEdge(g: Graph, src: NodeId, tgt: NodeId, k: Kind, rs: RefSccId, rt: RefSccId)
    requires src in g.edges && OnlyIn(g, src, rs) && rs in RefGraph(g)
    requires tgt in g.sccMap && g.sccMap[tgt] in g.outer && g.outer[g.sccMap[tgt]] == rt
    ensures RefGraph(WithEdge(g, src, tgt, k)) == AddEdge(RefGraph(g), rs, rt)
  {
    var g' := WithEdge(g, src, tgt, k);
    forall rc | rc in RefGraph(g) ensures RefGraph(g')[rc] == AddEdge(RefGraph(g), rs, rt)[rc] {
      var ns := NodesOf(g.sccNodes, g.sccs[rc]);
      if rc == rs {
        forall d | d in ReferencedRefSccs(g'.edges, g.sccMap, g.outer, ns)
          ensures d in ReferencedRefSccs(g.edges, g.sccMap, g.outer, ns) + {rt}
        {
          var n, t :| n in ns && n in g'.edges && t in g'.edges[n] && t in g.sccMap && g.sccMap[t] in g.outer
                      && g.outer[g.sccMap[t]] == d;
          if n != src || t != tgt {
            assert t in g.edges[n];
          }
        }
        assert rt in ReferencedRefSccs(g'.edges, g.sccMap, g.outer, ns) by {
          assert src in ns && tgt in g'.edges[src];
        }
      } else {
        ReferencedAgree(g'.edges, g.edges, g.sccMap, g.outer, ns);
      }
    }
  }

  /** A call edge between SCCs is a reference between their RefSCCs. */
  lemma CallStepLifts(g: Graph, c: SccId, d: SccId)
    requires SccPartition(g) && SccsInRefSccs(g) && LiveScc(g, c)
    requires c in CallGraph(g) && d in CallGraph(g)[c]
    ensures LiveScc(g, d) && g.outer[c] in RefGraph(g) && g.outer[d] in RefGraph(g)[g.outer[c]]
  {
    var n, t :| n in g.sccNodes[c] && n in g.edges && t in g.edges[n] && g.edges[n][t] == Call
                && t in g.sccMap && g.sccMap[t] == d;
    var rc := g.outer[c];
    var k :| 0 <= k < |g.sccs[rc]| && g.sccs[rc][k] == c;
    NodesOfMembers(g.sccNodes, g.sccs[rc], n);
    assert n in NodesOf(g.sccNodes, g.sccs[rc]);
  }

  /** The postorder sequence of the RefSCCs and its index map. */
  ghost predicate RefOrder(g: Graph)
  {
    Indexed(g.postOrder, g.refIndices) && NoForwardEdge(g.postOrder, RefGraph(g))
  }

  /** A call edge between live SCCs stays among the RefSCCs of the postorder sequence. */
  lemma CallStepLiftsInside(g: Graph, c: SccId, d: SccId)
    requires SccPartition(g) && SccsInRefSccs(g) && LiveScc(g, c)
    requires c in CallGraph(g) && d in CallGraph(g)[c]
    ensures var h := Restrict(RefGraph(g), g.refIndices.Keys);
      LiveScc(g, d) && g.outer[c] in h && g.outer[d] in h[g.outer[c]]
  {
    CallStepLifts(g, c, d);
  }

  /**
    Along a walk of the SCC graph from a live SCC every SCC is live, and its RefSCC
    never comes later in the postorder sequence than the RefSCC of the start.
   */
  lemma CallPathRefIndices(g: Graph, p: seq<SccId>, k: nat)
    requires SccPartition(g) && SccsInRefSccs(g) && RefOrder(g)
    requires IsPath(CallGraph(g), p) && LiveScc(g, p[0]) && k < |p|
    ensures LiveScc(g, p[k]) && g.refIndices[g.outer[p[k]]] <= g.refIndices[g.outer[p[0]]]
  {
    var h := Restrict(RefGraph(g), g.refIndices.Keys);
    var q := seq(k + 1, i => if 0 <= i < |p| && p[i] in g.outer then g.outer[p[i]] else 0);
    forall i | 0 <= i < |q| - 1 ensures q[i] in h && q[i + 1] in h[q[i]] {
      CallPathLive(g, p, i);
      PathStep(CallGraph(g), p, i);
      CallStepLiftsInside(g, p[i], p[i + 1]);
    }
    MakePath(h, q);
    CallPathLive(g, p, 0);
    PathNeverForward(g.postOrder, g.refIndices, RefGraph(g), q, k);
    CallPathLive(g, p, k);
  }

  /** Every SCC of a walk from a live SCC is live. */
  lemma {:induction false} CallPathLive(g: Graph, p: seq<SccId>, k: nat)
    requires SccPartition(g) && SccsInRefSccs(g) && IsPath(CallGraph(g), p) && LiveScc(g, p[0]) && k < |p|
    ensures LiveScc(g, p[k])
  {
    if k > 0 {
      CallPathLive(g, p, k - 1);
      PathStep(CallGraph(g), p, k - 1);
      CallStepLifts(g, p[k - 1], p[k]);
    }
  }

  /** An SCC reached from a live SCC has a RefSCC no later in the postorder sequence. */
  lemma CallReachRefOrder(g: Graph, cs: SccId, ct: SccId)
    requires SccPartition(g) && SccsInRefSccs(g) && RefOrder(g)
    requires LiveScc(g, cs) && Reaches(CallGraph(g), cs, ct)
    ensures LiveScc(g, ct) && g.refIndices[g.outer[ct]] <= g.refIndices[g.outer[cs]]
  {
    var p :| IsPath(CallGraph(g), p) && p[0] == cs && p[|p| - 1] == ct;
    CallPathRefIndices(g, p, |p| - 1);
  }

  /** A walk of the SCC graph that ends in the RefSCC it starts in never leaves it. */
  lemma CallPathStaysIn(g: Graph, p: seq<SccId>, k: nat)
    requires SccPartition(g) && SccsInRefSccs(g) && RefOrder(g) && RefSccsValid(g)
    requires IsPath(CallGraph(g), p) && LiveScc(g, p[0]) && k < |p|
    requires p[|p| - 1] in g.outer && g.outer[p[|p| - 1]] == g.outer[p[0]]
    ensures p[k] in g.outer && g.outer[p[k]] == g.outer[p[0]] && p[k] in g.sccIndices[g.outer[p[0]]]
  {
    var rc := g.outer[p[0]];
    CallPathRefIndices(g, p, k);
    PathSuffix(CallGraph(g), p, k);
    CallPathRefIndices(g, p[k..], |p| - 1 - k);
    assert p[k..][|p| - 1 - k] == p[|p| - 1];
    var a := g.outer[p[k]];
    assert g.refIndices[a] == g.refIndices[rc];
    IndexedInjective(g.postOrder, g.refIndices, a, rc);
    LiveSccIndexed(g, p[k]);
  }

  /** Two entries with one position are one entry. */
  lemma IndexedInjective(s: seq<nat>, idx: map<nat, nat>, a: nat, b: nat)
    requires Indexed(s, idx) && a in idx && b in idx && idx[a] == idx[b]
    ensures a == b
  {
    assert s[idx[a]] == a && s[idx[b]] == b;
  }

  /** A live SCC is indexed in its RefSCC. */
  lemma LiveSccIndexed(g: Graph, c: SccId)
    requires RefSccsValid(g) && Indexed(g.postOrder, g.refIndices) && LiveScc(g, c)
    ensures c in g.sccIndices[g.outer[c]]
  {
    var rc := g.outer[c];
    assert g.postOrder[g.refIndices[rc]] == rc;
    assert RefSccValid(g, rc);
  }

  /**
    An SCC reached from an SCC of the same RefSCC is reached through that RefSCC alone,
    so it comes no later in the RefSCC's postorder sequence.
   */
  lemma CallReachWithinRefScc(g: Graph, cs: SccId, ct: SccId)
    requires GraphValid(g) && LiveScc(g, cs) && Reaches(CallGraph(g), cs, ct)
    requires ct in g.outer && g.outer[ct] == g.outer[cs]
    ensures var rc := g.outer[cs];
      ct in g.sccIndices[rc] && cs in g.sccIndices[rc] && g.sccIndices[rc][ct] <= g.sccIndices[rc][cs]
  {
    var rc := g.outer[cs];
    assert g.postOrder[g.refIndices[rc]] == rc;
    assert RefSccValid(g, rc);
    var cg := CallGraph(g);
    var idx := g.sccIndices[rc];
    var p :| IsPath(cg, p) && p[0] == cs && p[|p| - 1] == ct;
    forall k | 0 <= k < |p| ensures p[k] in idx {
      CallPathStaysIn(g, p, k);
    }
    var h := Restrict(cg, idx.Keys);
    forall i | 0 <= i < |p| - 1 ensures p[i] in h && p[i + 1] in h[p[i]] {
      PathStep(cg, p, i);
    }
    MakePath(h, p);
    ReachedNotLater(g.sccs[rc], idx, cg, cs, ct);
  }

  /** The parts of the invariant that do not look at edges survive a change of edges. */
  lemma EdgeChangeValid(g: Graph, g': Graph)
    requires GraphValid(g) && g' == g.(edges := g'.edges) && g'.edges.Keys == g.edges.Keys && EdgesClosed(g')
    requires forall i :: 0 <= i < |g.postOrder| ==> NoForwardEdge(g.sccs[g.postOrder[i]], CallGraph(g'))
    requires NoForwardEdge(g.postOrder, RefGraph(g'))
    ensures GraphValid(g')
  {
    EdgeChangeRefSccsValid(g, g');
    EdgeChangeStructure(g, g');
  }

  lemma EdgeChangeRefSccsValid(g: Graph, g': Graph)
    requires GraphValid(g) && g' == g.(edges := g'.edges) && g'.edges.Keys == g.edges.Keys
    requires forall i :: 0 <= i < |g.postOrder| ==> NoForwardEdge(g.sccs[g.postOrder[i]], CallGraph(g'))
    ensures RefSccsValid(g')
  {
    forall i | 0 <= i < |g.postOrder| ensures RefSccValid(g', g.postOrder[i]) {
      EdgeChangeRefSccValid(g, g', g.postOrder[i]);
    }
  }

  lemma EdgeChangeRefSccValid(g: Graph, g': Graph, r: RefSccId)
    requires RefSccValid(g, r) && g' == g.(edges := g'.edges)
    requires NoForwardEdge(g.sccs[r], CallGraph(g'))
    ensures RefSccValid(g', r)
  {
  }

  lemma EdgeChangeStructure(g: Graph, g': Graph)
    requires SccPartition(g) && DfsAtRest(g) && SccsInRefSccs(g)
    requires g' == g.(edges := g'.edges) && g'.edges.Keys == g.edges.Keys
    ensures SccPartition(g') && DfsAtRest(g') && SccsInRefSccs(g')
  {
  }

  /** `b` comes no later than `a` in the sequence `idx` indexes, when both are in it. */
  ghost predicate NotLaterIn(idx: map<nat, nat>, a: nat, b: nat)
  {
    a in idx && b in idx ==> idx[b] <= idx[a]
  }

  lemma WithEdgeClosed(g: Graph, src: NodeId, tgt: NodeId, k: Kind)
    requires EdgesClosed(g) && src in g.edges && tgt in g.edges
    ensures EdgesClosed(WithEdge(g, src, tgt, k))
  {
  }

  /**
    A call edge from `src` to `tgt` keeps the invariant when, inside one RefSCC, the
    target's SCC is not later than the source's, and, when the edge is new, the target's
    RefSCC is not later than the source's.
   */
  lemma WithCallValid(g: Graph, src: NodeId, tgt: NodeId)
    requires GraphValid(g) && src in g.sccMap && tgt in g.sccMap
    requires var cs, ct := g.sccMap[src], g.sccMap[tgt];
      NotLaterIn(g.sccIndices[g.outer[cs]], cs, ct)
    requires tgt !in g.edges[src] ==>
      g.refIndices[RefSccOf(g, tgt)] <= g.refIndices[RefSccOf(g, src)]
    ensures GraphValid(WithEdge(g, src, tgt, Call))
  {
    var g' := WithEdge(g, src, tgt, Call);
    WithEdgeClosed(g, src, tgt, Call);
    WithCallSccOrder(g, src, tgt);
    if tgt in g.edges[src] {
      RefGraphSameTargets(g, src, tgt, Call);
    } else {
      WithNewEdgeRefOrder(g, src, tgt, Call);
    }
    EdgeChangeValid(g, g');
  }

  /** The postorder of every RefSCC survives a call edge that points back inside it. */
  lemma WithCallSccOrder(g: Graph, src: NodeId, tgt: NodeId)
    requires SccPartition(g) && SccsInRefSccs(g) && RefSccsValid(g) && src in g.sccMap && tgt in g.sccMap
    requires var cs, ct := g.sccMap[src], g.sccMap[tgt];
      NotLaterIn(g.sccIndices[g.outer[cs]], cs, ct)
    ensures forall i :: 0 <= i < |g.postOrder| ==>
      NoForwardEdge(g.sccs[g.postOrder[i]], CallGraph(WithEdge(g, src, tgt, Call)))
  {
    var cs, ct := g.sccMap[src], g.sccMap[tgt];
    CallGraphWithCall(g, src, tgt);
    forall i | 0 <= i < |g.postOrder|
      ensures NoForwardEdge(g.sccs[g.postOrder[i]], AddEdge(CallGraph(g), cs, ct))
    {
      var rc := g.postOrder[i];
      assert RefSccValid(g, rc);
      var idx := g.sccIndices[rc];
      if cs in idx && ct in idx {
        assert g.sccs[rc][idx[cs]] == cs && g.sccs[rc][idx[ct]] == ct;
      }
      AddEdgeKeepsNoForwardEdge(g.sccs[rc], idx, CallGraph(g), cs, ct);
    }
  }

  /** The RefSCC postorder survives a new edge whose target's RefSCC is not later. */
  lemma WithNewEdgeRefOrder(g: Graph, src: NodeId, tgt: NodeId, k: Kind)
    requires GraphValid(g) && src in g.sccMap && tgt in g.sccMap
    requires g.refIndices[RefSccOf(g, tgt)] <= g.refIndices[RefSccOf(g, src)]
    ensures NoForwardEdge(g.postOrder, RefGraph(WithEdge(g, src, tgt, k)))
  {
    NodeOnlyInItsRefScc(g, src);
    RefGraphNewEdge(g, src, tgt, k, RefSccOf(g, src), RefSccOf(g, tgt));
    AddEdgeKeepsNoForwardEdge(g.postOrder, g.refIndices, RefGraph(g), RefSccOf(g, src), RefSccOf(g, tgt));
  }

  /**
    The trivial call edge insertion: a call edge from `src` to `tgt` whose SCC is the
    source's or is reached from it already, so that no cycle forms, keeps the invariant.
   */
  lemma InsertTrivialCallEdgeValid(g: Graph, src: NodeId, tgt: NodeId)
    requires GraphValid(g) && src in g.sccMap && tgt in g.sccMap
    requires g.sccMap[src] == g.sccMap[tgt] || Reaches(CallGraph(g), g.sccMap[src], g.sccMap[tgt])
    ensures GraphValid(WithEdge(g, src, tgt, Call))
  {
    var cs, ct := g.sccMap[src], g.sccMap[tgt];
    assert LiveScc(g, cs) && LiveScc(g, ct);
    if cs == ct {
      ReachesRefl(CallGraph(g), cs);
    }
    CallReachRefOrder(g, cs, ct);
    if g.outer[cs] == g.outer[ct] {
      CallReachWithinRefScc(g, cs, ct);
    }
    WithCallValid(g, src, tgt);
  }

  /** The RefSCC graph only leads to RefSCCs of the postorder sequence. */
  lemma RefGraphInside(g: Graph)
    requires SccsInRefSccs(g)
    ensures Restrict(RefGraph(g), g.refIndices.Keys) == RefGraph(g)
  {
    var rg := RefGraph(g);
    forall rc | rc in rg ensures Restrict(rg, g.refIndices.Keys)[rc] == rg[rc] {
      forall d | d in rg[rc] ensures d in g.refIndices {
        var n, t :| n in NodesOf(g.sccNodes, g.sccs[rc]) && n in g.edges && t in g.edges[n] && t in g.sccMap
                    && g.sccMap[t] in g.outer && g.outer[g.sccMap[t]] == d;
      }
    }
  }

  /**
    The trivial ref edge insertion: a new ref edge from `src` to `tgt` whose RefSCC is
    the source's or is reached from it already keeps the invariant.
   */
  lemma InsertTrivialRefEdgeValid(g: Graph, src: NodeId, tgt: NodeId)
    requires GraphValid(g) && src in g.sccMap && tgt in g.sccMap && tgt !in g.edges[src]
    requires RefSccOf(g, src) == RefSccOf(g, tgt) || Reaches(RefGraph(g), RefSccOf(g, src), RefSccOf(g, tgt))
    ensures GraphValid(WithEdge(g, src, tgt, Ref))
  {
    var g' := WithEdge(g, src, tgt, Ref);
    var rs, rt := RefSccOf(g, src), RefSccOf(g, tgt);
    assert LiveScc(g, g.sccMap[src]) && LiveScc(g, g.sccMap[tgt]);
    RefGraphInside(g);
    if rs == rt {
      ReachesRefl(RefGraph(g), rs);
    }
    ReachedNotLater(g.postOrder, g.refIndices, RefGraph(g), rs, rt);
    WithNewEdgeRefOrder(g, src, tgt, Ref);
    WithEdgeClosed(g, src, tgt, Ref);
    CallGraphWithRef(g, src, tgt);
    SameCallGraphSccOrder(g, g');
    EdgeChangeValid(g, g');
  }

  /** With the same SCC graph every RefSCC keeps its postorder. */
  lemma SameCallGraphSccOrder(g: Graph, g': Graph)
    requires RefSccsValid(g) && CallGraph(g') == CallGraph(g)
    ensures forall i :: 0 <= i < |g.postOrder| ==> NoForwardEdge(g.sccs[g.postOrder[i]], CallGraph(g'))
  {
    forall i | 0 <= i < |g.postOrder| ensures NoForwardEdge(g.sccs[g.postOrder[i]], CallGraph(g')) {
      assert RefSccValid(g, g.postOrder[i]);
    }
  }

  /** The graph without the edges from `src` to `targets`. */
  ghost function WithoutEdges(g: Graph, src: NodeId, targets: set<NodeId>): (g': Graph)
    requires src in g.edges
    ensures g'.edges.Keys == g.edges.Keys && g'.edges[src].Keys == g.edges[src].Keys - targets
    ensures forall t :: t in g'.edges[src] ==> g'.edges[src][t] == g.edges[src][t]
  {
    var out: map<NodeId, Kind> := g.edges[src] - targets;
    g.(edges := g.edges[src := out])
  }

  /** Removing edges one target after another removes the edges to all of them. */
  lemma WithoutMoreEdges(g: Graph, src: NodeId, targets: set<NodeId>, t: NodeId)
    requires src in g.edges
    ensures WithoutEdges(WithoutEdges(g, src, targets), src, {t}) == WithoutEdges(g, src, targets + {t})
  {
    assert g.edges[src] - targets - {t} == g.edges[src] - (targets + {t});
  }

  /** Each of `targets` is the target of a ref edge from `src`. */
  ghost predicate RefEdgesFrom(g: Graph, src: NodeId, targets: set<NodeId>)
  {
    src in g.edges && forall t :: t in targets ==> t in g.edges[src] && g.edges[src][t] == Ref
  }

  /** Removing ref edges does not change the SCC graph. */
  lemma CallGraphWithoutRefEdges(g: Graph, src: NodeId, targets: set<NodeId>)
    requires RefEdgesFrom(g, src, targets)
    ensures CallGraph(WithoutEdges(g, src, targets)) == CallGraph(g)
  {
    var g' := WithoutEdges(g, src, targets);
    forall c | c in g.sccNodes ensures CallGraph(g')[c] == CallGraph(g)[c] {
      var ns := g.sccNodes[c];
      forall d | d in CalleeSccs(g.edges, g.sccMap, ns) ensures d in CalleeSccs(g'.edges, g.sccMap, ns) {
        var n, t :| n in ns && n in g.edges && t in g.edges[n] && g.edges[n][t] == Call && t in g.sccMap
                    && g.sccMap[t] == d;
        assert n != src || t !in targets;
        assert t in g'.edges[n] && g'.edges[n][t] == Call;
      }
    }
  }

  /** Removing edges can only remove edges of the RefSCC graph. */
  lemma RefGraphWithoutEdges(g: Graph, src: NodeId, targets: set<NodeId>)
    requires src in g.edges
    ensures RefGraph(WithoutEdges(g, src, targets)).Keys == RefGraph(g).Keys
    ensures forall rc :: rc in RefGraph(g) ==> RefGraph(WithoutEdges(g, src, targets))[rc] <= RefGraph(g)[rc]
  {
  }

  /** Removing ref edges keeps the invariant. */
  lemma RemoveRefEdgesValid(g: Graph, src: NodeId, targets: set<NodeId>)
    requires GraphValid(g) && RefEdgesFrom(g, src, targets)
    ensures GraphValid(WithoutEdges(g, src, targets))
  {
    var g' := WithoutEdges(g, src, targets);
    CallGraphWithoutRefEdges(g, src, targets);
    SameCallGraphSccOrder(g, g');
    RefGraphWithoutEdges(g, src, targets);
    FewerEdgesKeepNoForwardEdge(g.postOrder, RefGraph(g'), RefGraph(g));
    EdgeChangeValid(g, g');
  }

  /**
    The early exits of ref edge removal: every removed edge is a self reference of the
    source, or every target lies in the source's SCC.
   */
  ghost predicate TrivialRemoval(g: Graph, src: NodeId, targets: set<NodeId>)
  {
    || (forall t :: t in targets ==> t == src)
    || (forall t :: t in targets ==> t in g.sccMap && src in g.sccMap && g.sccMap[t] == g.sccMap[src])
  }

  /**
    After a trivial removal the RefSCC graph keeps every edge between two different
    RefSCCs: the RefSCC structure does not change.
   */
  lemma TrivialRemovalKeepsRefGraph(g: Graph, src: NodeId, targets: set<NodeId>)
    requires GraphValid(g) && RefEdgesFrom(g, src, targets) && src in g.sccMap
    requires TrivialRemoval(g, src, targets)
    ensures forall rc, d :: rc in RefGraph(g) && d != rc ==>
      (d in RefGraph(WithoutEdges(g, src, targets))[rc] <==> d in RefGraph(g)[rc])
  {
    NodeOnlyInItsRefScc(g, src);
    assert LiveScc(g, g.sccMap[src]);
    RemovalInsideKeepsRefGraph(g, src, targets, RefSccOf(g, src));
  }

  /** Removing edges from a node of RefSCC `rs` to nodes of `rs` keeps the edges leaving `rs`. */
  lemma RemovalInsideKeepsRefGraph(g: Graph, src: NodeId, targets: set<NodeId>, rs: RefSccId)
    requires src in g.edges && OnlyIn(g, src, rs)
    requires forall t :: t in targets ==> t in g.sccMap && g.sccMap[t] in g.outer && g.outer[g.sccMap[t]] == rs
    ensures forall rc, d :: rc in RefGraph(g) && d != rc ==>
      (d in RefGraph(WithoutEdges(g, src, targets))[rc] <==> d in RefGraph(g)[rc])
  {
    var g' := WithoutEdges(g, src, targets);
    RefGraphWithoutEdges(g, src, targets);
    forall rc, d | rc in RefGraph(g) && d != rc && d in RefGraph(g)[rc] ensures d in RefGraph(g')[rc] {
      var ns := NodesOf(g.sccNodes, g.sccs[rc]);
      var n, t :| n in ns && n in g.edges && t in g.edges[n] && t in g.sccMap
                  && g.sccMap[t] in g.outer && g.outer[g.sccMap[t]] == d;
      assert n != src || t !in targets;
      assert t in g'.edges[n];
    }
  }

  /** No edge of the graph leads to `f`: the function has no uses left. */
  ghost predicate Dead(g: Graph, f: NodeId)
  {
    forall n :: n in g.edges ==> f !in g.edges[n]
  }

  /** `f` is alone in its SCC, and that SCC is alone in its RefSCC. */
  ghost predicate AloneInRefScc(g: Graph, f: NodeId)
    requires SccsInRefSccs(g)
  {
    f in g.sccMap && g.sccMap[f] in g.sccNodes && |g.sccNodes[g.sccMap[f]]| == 1 && |g.sccs[RefSccOf(g, f)]| == 1
  }

  /**
    The graph once the dead function `f` is removed: its node and entry edge go, and
    once SCCs have been formed its SCC and RefSCC are cleared, the RefSCC leaves the
    postorder sequence and the later RefSCCs move down by one.
   */
  ghost function RemoveDeadFunction(g: Graph, f: NodeId): (g': Graph)
    requires GraphValid(g) && Dead(g, f)
    requires f in g.edges && g.sccMap != map[] ==> AloneInRefScc(g, f)
    ensures g'.edges.Keys == g.edges.Keys - {f} && f !in g'.entry && f !in g'.sccMap
  {
    if f !in g.edges then
      assert f !in g.entry && f !in g.sccMap;
      g
    else if g.sccMap == map[] then DropNode(g, f)
    else ClearSingleton(g, f)
  }

  /** The removal of `f` before any SCC has been formed: its edges and its entry edge go. */
  ghost function DropNode(g: Graph, f: NodeId): (g': Graph)
    ensures g'.edges.Keys == g.edges.Keys - {f} && f !in g'.entry && g'.sccMap == g.sccMap
  {
    g.(edges := g.edges - {f}, entry := g.entry - {f})
  }

  /** The removal of `f`, alone in its SCC and RefSCC, once SCCs have been formed. */
  ghost function ClearSingleton(g: Graph, f: NodeId): (g': Graph)
    requires SccsInRefSccs(g) && Indexed(g.postOrder, g.refIndices) && f in g.sccMap
    ensures g'.edges.Keys == g.edges.Keys - {f} && f !in g'.entry && f !in g'.sccMap
  {
    var c := g.sccMap[f];
    var rc := g.outer[c];
    var i := g.refIndices[rc];
    g.(edges := g.edges - {f}, entry := g.entry - {f}, sccMap := g.sccMap - {f},
       sccNodes := g.sccNodes[c := []], outer := g.outer - {c},
       sccs := g.sccs[rc := []], sccIndices := g.sccIndices[rc := map[]],
       postOrder := g.postOrder[..i] + g.postOrder[i + 1..],
       refIndices := Compact(g.refIndices, [rc], i, i + 1))
  }

  /** Clearing the SCCs of `f` after dropping its node is clearing them with the node. */
  lemma ClearAfterDrop(g: Graph, f: NodeId)
    requires SccsInRefSccs(g) && Indexed(g.postOrder, g.refIndices) && f in g.sccMap
    ensures ClearSingleton(DropNode(g, f), f) == ClearSingleton(g, f)
  {
    assert g.edges - {f} - {f} == g.edges - {f};
    assert g.entry - {f} - {f} == g.entry - {f};
  }

  /**
    Removing a function that is not in the graph changes nothing; removing one after
    SCCs were formed takes exactly its RefSCC out of the postorder sequence.
   */
  lemma RemoveDeadFunctionPostOrder(g: Graph, f: NodeId)
    requires GraphValid(g) && Dead(g, f)
    requires f in g.edges && g.sccMap != map[] ==> AloneInRefScc(g, f)
    ensures f !in g.edges ==> RemoveDeadFunction(g, f) == g
    ensures f in g.edges && g.sccMap != map[] ==>
      var i := g.refIndices[RefSccOf(g, f)];
      && RemoveDeadFunction(g, f).postOrder == g.postOrder[..i] + g.postOrder[i + 1..]
      && RefSccOf(g, f) !in RemoveDeadFunction(g, f).refIndices
  {
    if f in g.edges && g.sccMap != map[] {
      assert LiveScc(g, g.sccMap[f]);
    }
  }

  /** Removing a dead function keeps the invariant. */
  lemma RemoveDeadFunctionValid(g: Graph, f: NodeId)
    requires GraphValid(g) && Dead(g, f)
    requires f in g.edges && g.sccMap != map[] ==> AloneInRefScc(g, f)
    ensures GraphValid(RemoveDeadFunction(g, f))
  {
    if f in g.edges {
      if g.sccMap == map[] {
        DeadBeforeSccsValid(g, f);
      } else {
        DeadSingletonValid(g, f);
      }
    }
  }

  lemma DeadBeforeSccsValid(g: Graph, f: NodeId)
    requires GraphValid(g) && Dead(g, f) && f in g.edges && g.sccMap == map[]
    ensures GraphValid(g.(edges := g.edges - {f}, entry := g.entry - {f}))
  {
    var g' := g.(edges := g.edges - {f}, entry := g.entry - {f});
    NoSccsNoRefSccs(g);
  }

  /** Before any SCC is formed the postorder sequence is empty. */
  lemma NoSccsNoRefSccs(g: Graph)
    requires SccPartition(g) && RefSccsValid(g)
    ensures g.sccMap == map[] ==> g.postOrder == []
  {
    if |g.postOrder| > 0 {
      assert RefSccValid(g, g.postOrder[0]);
      var c := g.sccs[g.postOrder[0]][0];
      assert g.sccNodes[c][0] in g.sccMap;
    }
  }

  /** What the invariant says about a function alone in its SCC and RefSCC. */
  lemma SingletonFacts(g: Graph, f: NodeId)
    requires SccPartition(g) && SccsInRefSccs(g) && Indexed(g.postOrder, g.refIndices) && AloneInRefScc(g, f)
    ensures var c := g.sccMap[f]; var rc := g.outer[c];
      && LiveScc(g, c) && g.sccNodes[c] == [f] && g.sccs[rc] == [c]
      && g.refIndices[rc] < |g.postOrder| && g.postOrder[g.refIndices[rc]] == rc
  {
    var c := g.sccMap[f];
    assert LiveScc(g, c);
    var rc := g.outer[c];
    OnlyEntry(g.sccNodes[c], f);
    OnlyEntry(g.sccs[rc], c);
  }

  /** A sequence of length one holding `x` is `[x]`. */
  lemma OnlyEntry(s: seq<nat>, x: nat)
    requires |s| == 1 && x in s
    ensures s == [x]
  {
  }

  lemma DeadSingletonValid(g: Graph, f: NodeId)
    requires GraphValid(g) && Dead(g, f) && AloneInRefScc(g, f)
    ensures GraphValid(ClearSingleton(g, f))
  {
    SingletonFacts(g, f);
    ClearEdges(g, f);
    ClearPartition(g, f);
    ClearSccsInRefSccs(g, f);
    ClearIndexed(g, f);
    ClearRefSccsValid(g, f);
    ClearRefOrder(g, f);
  }

  /** No edge leads to the removed node, and every other node keeps its DFS state. */
  lemma ClearEdges(g: Graph, f: NodeId)
    requires EdgesClosed(g) && DfsAtRest(g) && Dead(g, f)
    requires SccsInRefSccs(g) && Indexed(g.postOrder, g.refIndices) && f in g.sccMap
    ensures EdgesClosed(ClearSingleton(g, f)) && DfsAtRest(ClearSingleton(g, f))
  {
  }

  lemma ClearPartition(g: Graph, f: NodeId)
    requires SccPartition(g) && SccsInRefSccs(g) && Indexed(g.postOrder, g.refIndices) && AloneInRefScc(g, f)
    ensures SccPartition(ClearSingleton(g, f))
  {
    SingletonFacts(g, f);
    var g' := ClearSingleton(g, f);
    var c := g.sccMap[f];
    forall n | n in g'.sccMap
      ensures n in g'.edges && g'.sccMap[n] in g'.sccNodes && n in g'.sccNodes[g'.sccMap[n]]
    {
      assert n != f && g.sccMap[n] != c;
    }
    forall d, n | d in g'.sccNodes && n in g'.sccNodes[d] ensures n in g'.sccMap && g'.sccMap[n] == d {
      assert d != c && n != f;
    }
  }

  /** The RefSCC of every SCC other than the cleared one stays in the sequence. */
  lemma ClearSccsInRefSccs(g: Graph, f: NodeId)
    requires SccPartition(g) && SccsInRefSccs(g) && Indexed(g.postOrder, g.refIndices) && AloneInRefScc(g, f)
    ensures SccsInRefSccs(ClearSingleton(g, f))
  {
    SingletonFacts(g, f);
    var g' := ClearSingleton(g, f);
    var c := g.sccMap[f];
    var rc := g.outer[c];
    forall n | n in g'.sccMap ensures LiveScc(g', g'.sccMap[n]) {
      var d := g.sccMap[n];
      assert LiveScc(g, d);
      assert d != c;
      assert g.outer[d] != rc;
    }
  }

  lemma ClearIndexed(g: Graph, f: NodeId)
    requires SccPartition(g) && SccsInRefSccs(g) && Indexed(g.postOrder, g.refIndices) && AloneInRefScc(g, f)
    ensures Indexed(ClearSingleton(g, f).postOrder, ClearSingleton(g, f).refIndices)
  {
    SingletonFacts(g, f);
    var rc := RefSccOf(g, f);
    var i := g.refIndices[rc];
    assert g.postOrder[i..i + 1] == [rc];
    CompactIndexed(g.postOrder, g.refIndices, i, i + 1);
  }

  /**
    Every other RefSCC of the sequence keeps its SCCs, whose nodes and callee SCCs can
    only shrink.
   */
  lemma ClearOtherRefScc(g: Graph, f: NodeId, j: nat)
    requires SccPartition(g) && SccsInRefSccs(g) && Indexed(g.postOrder, g.refIndices) && AloneInRefScc(g, f)
    requires RefSccsValid(g)
    requires j < |g.postOrder| && g.postOrder[j] != RefSccOf(g, f)
    ensures RefSccValid(ClearSingleton(g, f), g.postOrder[j])
    ensures NodesOf(ClearSingleton(g, f).sccNodes, g.sccs[g.postOrder[j]]) == NodesOf(g.sccNodes, g.sccs[g.postOrder[j]])
  {
    var g' := ClearSingleton(g, f);
    var r := g.postOrder[j];
    assert RefSccValid(g, r);
    var s := g.sccs[r];
    ClearOtherEntries(g, f, r);
    NodesOfAgree(g'.sccNodes, g.sccNodes, s);
    ClearCallGraph(g, f);
    ClearKeepsSccOrder(g, g', s);
    RefSccValidTransfer(g, g', r);
  }

  /** Clearing leaves the SCCs of every other RefSCC as they were. */
  lemma ClearOtherEntries(g: Graph, f: NodeId, r: RefSccId)
    requires SccsInRefSccs(g) && Indexed(g.postOrder, g.refIndices) && f in g.sccMap
    requires RefSccValid(g, r) && r != RefSccOf(g, f)
    ensures var g', s := ClearSingleton(g, f), g.sccs[r];
      && r in g'.sccs && r in g'.sccIndices && g'.sccs[r] == s && g'.sccIndices[r] == g.sccIndices[r]
      && forall k :: 0 <= k < |s| ==>
        var c := s[k]; c in g'.sccNodes && g'.sccNodes[c] == g.sccNodes[c] && c in g'.outer && g'.outer[c] == g.outer[c]
  {
  }

  /** A RefSCC whose SCCs keep their sequence, nodes and RefSCC stays valid if it stays in postorder. */
  lemma RefSccValidTransfer(g: Graph, g': Graph, r: RefSccId)
    requires RefSccValid(g, r) && r in g'.sccs && r in g'.sccIndices
    requires g'.sccs[r] == g.sccs[r] && g'.sccIndices[r] == g.sccIndices[r]
    requires forall k :: 0 <= k < |g.sccs[r]| ==>
      var c := g.sccs[r][k]; c in g'.sccNodes && g'.sccNodes[c] == g.sccNodes[c] && c in g'.outer && g'.outer[c] == g.outer[c]
    requires NoForwardEdge(g.sccs[r], CallGraph(g'))
    ensures RefSccValid(g', r)
  {
  }

  lemma ClearKeepsSccOrder(g: Graph, g': Graph, s: seq<SccId>)
    requires NoForwardEdge(s, CallGraph(g))
    requires forall x :: x in CallGraph(g') ==> x in CallGraph(g) && CallGraph(g')[x] <= CallGraph(g)[x]
    ensures NoForwardEdge(s, CallGraph(g'))
  {
    FewerEdgesKeepNoForwardEdge(s, CallGraph(g'), CallGraph(g));
  }

  /** Clearing can only remove edges of the SCC graph. */
  lemma ClearCallGraph(g: Graph, f: NodeId)
    requires SccPartition(g) && SccsInRefSccs(g) && Indexed(g.postOrder, g.refIndices) && f in g.sccMap
    ensures forall x :: x in CallGraph(ClearSingleton(g, f)) ==>
      x in CallGraph(g) && CallGraph(ClearSingleton(g, f))[x] <= CallGraph(g)[x]
  {
    var g' := ClearSingleton(g, f);
    forall x | x in CallGraph(g') ensures x in CallGraph(g) && CallGraph(g')[x] <= CallGraph(g)[x] {
      forall d | d in CallGraph(g')[x] ensures d in CallGraph(g)[x] {
        var ns := g'.sccNodes[x];
        var n, t :| n in ns && n in g'.edges && t in g'.edges[n] && g'.edges[n][t] == Call && t in g'.sccMap
                    && g'.sccMap[t] == d;
        assert x != g.sccMap[f] && ns == g.sccNodes[x];
      }
    }
  }

  lemma ClearRefSccsValid(g: Graph, f: NodeId)
    requires SccPartition(g) && SccsInRefSccs(g) && Indexed(g.postOrder, g.refIndices) && AloneInRefScc(g, f)
    requires RefSccsValid(g)
    ensures RefSccsValid(ClearSingleton(g, f))
  {
    var g' := ClearSingleton(g, f);
    forall j | 0 <= j < |g'.postOrder| ensures RefSccValid(g', g'.postOrder[j]) {
      var j0 := ClearedPosition(g, f, j);
      ClearOtherRefScc(g, f, j0);
    }
  }

  lemma ClearRefOrder(g: Graph, f: NodeId)
    requires SccPartition(g) && SccsInRefSccs(g) && RefOrder(g) && RefSccsValid(g) && AloneInRefScc(g, f)
    ensures NoForwardEdge(ClearSingleton(g, f).postOrder, RefGraph(ClearSingleton(g, f)))
  {
    SingletonFacts(g, f);
    var g' := ClearSingleton(g, f);
    var i := g.refIndices[RefSccOf(g, f)];
    ClearRefGraphSub(g, f);
    EraseFewerEdges(g.postOrder, i, RefGraph(g), RefGraph(g'));
  }

  /** Erasing one entry and dropping edges keeps a postorder sequence. */
  lemma EraseFewerEdges(s: seq<nat>, i: nat, h: map<nat, set<nat>>, h': map<nat, set<nat>>)
    requires NoForwardEdge(s, h) && i < |s|
    requires var s' := s[..i] + s[i + 1..];
      forall j :: 0 <= j < |s'| && s'[j] in h' ==> s'[j] in h && h'[s'[j]] <= h[s'[j]]
    ensures NoForwardEdge(s[..i] + s[i + 1..], h')
  {
    EraseKeepsNoForwardEdge(s, h, i, i + 1);
    FewerEdgesKeepNoForwardEdge(s[..i] + s[i + 1..], h', h);
  }

  lemma ClearRefGraphSub(g: Graph, f: NodeId)
    requires SccPartition(g) && SccsInRefSccs(g) && Indexed(g.postOrder, g.refIndices) && AloneInRefScc(g, f)
    requires RefSccsValid(g)
    ensures var g' := ClearSingleton(g, f);
      forall j :: 0 <= j < |g'.postOrder| && g'.postOrder[j] in RefGraph(g') ==>
        g'.postOrder[j] in RefGraph(g) && RefGraph(g')[g'.postOrder[j]] <= RefGraph(g)[g'.postOrder[j]]
  {
    var g' := ClearSingleton(g, f);
    forall j | 0 <= j < |g'.postOrder| && g'.postOrder[j] in RefGraph(g')
      ensures g'.postOrder[j] in RefGraph(g) && RefGraph(g')[g'.postOrder[j]] <= RefGraph(g)[g'.postOrder[j]]
    {
      var j0 := ClearedPosition(g, f, j);
      ClearRefGraphAt(g, f, j0);
    }
  }

  /** Where an entry of the shortened postorder sequence sat before. */
  lemma ClearedPosition(g: Graph, f: NodeId, j: nat) returns (j0: nat)
    requires SccPartition(g) && SccsInRefSccs(g) && Indexed(g.postOrder, g.refIndices) && AloneInRefScc(g, f)
    requires j < |ClearSingleton(g, f).postOrder|
    ensures j0 < |g.postOrder| && g.postOrder[j0] != RefSccOf(g, f)
    ensures ClearSingleton(g, f).postOrder[j] == g.postOrder[j0]
  {
    SingletonFacts(g, f);
    IndexedDistinct(g.postOrder, g.refIndices);
    j0 := SkipEntry(g.postOrder, g.refIndices[RefSccOf(g, f)], j);
  }

  /** Entry `j` of a sequence without repeats, once entry `i` is erased, is one other than `s[i]`. */
  lemma SkipEntry(s: seq<nat>, i: nat, j: nat) returns (j0: nat)
    requires Distinct(s) && i < |s| && j < |s| - 1
    ensures j0 < |s| && s[j0] != s[i] && (s[..i] + s[i + 1..])[j] == s[j0]
  {
    j0 := if j < i then j else j + 1;
    assert (s[..i] + s[i + 1..])[j] == s[j0];
  }

  /** Clearing only removes RefSCCs that the other RefSCCs refer to. */
  lemma ClearRefGraphAt(g: Graph, f: NodeId, j: nat)
    requires SccPartition(g) && SccsInRefSccs(g) && Indexed(g.postOrder, g.refIndices) && AloneInRefScc(g, f)
    requires RefSccsValid(g)
    requires j < |g.postOrder| && g.postOrder[j] != RefSccOf(g, f)
    ensures var g', r := ClearSingleton(g, f), g.postOrder[j];
      r in RefGraph(g) && (r in RefGraph(g') ==> RefGraph(g')[r] <= RefGraph(g)[r])
  {
    var g', r := ClearSingleton(g, f), g.postOrder[j];
    assert RefSccValid(g, r);
    var s := g.sccs[r];
    ClearOtherEntries(g, f, r);
    NodesOfAgree(g'.sccNodes, g.sccNodes, s);
    ClearKeepsTargets(g, f);
    ClearReferencedSubset(g, g', NodesOf(g.sccNodes, s));
  }

  /** Clearing keeps the edges of the remaining nodes and the RefSCCs of the remaining SCCs. */
  lemma ClearKeepsTargets(g: Graph, f: NodeId)
    requires SccsInRefSccs(g) && Indexed(g.postOrder, g.refIndices) && f in g.sccMap
    ensures var g' := ClearSingleton(g, f);
      && (forall n :: n in g'.edges ==> n in g.edges && g'.edges[n] == g.edges[n])
      && (forall t :: t in g'.sccMap && g'.sccMap[t] in g'.outer ==>
            t in g.sccMap && g.sccMap[t] in g.outer && g.outer[g.sccMap[t]] == g'.outer[g'.sccMap[t]])
  {
  }

  lemma ClearReferencedSubset(g: Graph, g': Graph, ns: seq<NodeId>)
    requires forall n :: n in g'.edges ==> n in g.edges && g'.edges[n] == g.edges[n]
    requires forall t :: t in g'.sccMap && g'.sccMap[t] in g'.outer ==>
      t in g.sccMap && g.sccMap[t] in g.outer && g.outer[g.sccMap[t]] == g'.outer[g'.sccMap[t]]
    ensures ReferencedRefSccs(g'.edges, g'.sccMap, g'.outer, ns) <= ReferencedRefSccs(g.edges, g.sccMap, g.outer, ns)
  {
    forall d | d in ReferencedRefSccs(g'.edges, g'.sccMap, g'.outer, ns)
      ensures d in ReferencedRefSccs(g.edges, g.sccMap, g.outer, ns)
    {
      var n, t :| n in ns && n in g'.edges && t in g'.edges[n] && t in g'.sccMap && g'.sccMap[t] in g'.outer
                  && g'.outer[g'.sccMap[t]] == d;
      assert t in g.edges[n];
    }
  }
}
