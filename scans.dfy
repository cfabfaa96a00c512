/**
  The scans behind the ancestor queries of SCCs and RefSCCs, over the edge sequences of
  the nodes: walking the edges of a node, of the nodes of an SCC, and of the SCCs of a
  RefSCC, collecting the components they lead to, and the worklist search built on them.
 */
module Scans {
  import opened Edges
  import opened Paths
  import opened Components

  /** The targets the edge iterator visits, walking the edge vector front to back. */
  method EdgeTargets(edges: seq<Edge>, callsOnly: bool) returns (ts: seq<NodeId>)
    ensures ts == Targets(edges, callsOnly)
  {
    ts := [];
    var j := 0;
    while j < |edges|
      invariant j <= |edges|
      invariant ts + Targets(edges[j..], callsOnly) == Targets(edges, callsOnly)
    {
      assert edges[j..][1..] == edges[j + 1..];
      if edges[j].Edge? && (!callsOnly || edges[j].kind == Call) {
        ts := ts + [edges[j].target];
      }
      j := j + 1;
    }
  }

  /**
    Whether node `t` has a component at the level searched: an SCC, or for the RefSCC
    level an SCC that lies in a RefSCC.
   */
  ghost predicate HasComp(sccMap: map<NodeId, SccId>, outer: map<SccId, RefSccId>, t: NodeId, refs: bool)
  {
    t in sccMap && (refs ==> sccMap[t] in outer)
  }

  /** The component of `t` at the level searched: its SCC, or the RefSCC of its SCC. */
  ghost function Comp(sccMap: map<NodeId, SccId>, outer: map<SccId, RefSccId>, t: NodeId, refs: bool): nat
    requires HasComp(sccMap, outer, t, refs)
  {
    if refs then outer[sccMap[t]] else sccMap[t]
  }

  /** The components of the targets `ts`, target after target. */
  ghost function CompsOf(sccMap: map<NodeId, SccId>, outer: map<SccId, RefSccId>, ts: seq<NodeId>, refs: bool): set<nat>
  {
    if ts == [] then {}
    else
      var t := ts[|ts| - 1];
      CompsOf(sccMap, outer, ts[..|ts| - 1], refs) + (if HasComp(sccMap, outer, t, refs) then {Comp(sccMap, outer, t, refs)} else {})
  }

  /** A component is among those of `ts` exactly when one of the targets has it. */
  lemma {:induction false} CompsOfMembers(sccMap: map<NodeId, SccId>, outer: map<SccId, RefSccId>, ts: seq<NodeId>, refs: bool, d: nat)
    ensures d in CompsOf(sccMap, outer, ts, refs) <==>
      exists t :: t in ts && HasComp(sccMap, outer, t, refs) && Comp(sccMap, outer, t, refs) == d
  {
    if ts != [] {
      var init, t := ts[..|ts| - 1], ts[|ts| - 1];
      CompsOfMembers(sccMap, outer, init, refs, d);
      assert ts == init + [t];
      if exists u :: u in ts && HasComp(sccMap, outer, u, refs) && Comp(sccMap, outer, u, refs) == d {
        var u :| u in ts && HasComp(sccMap, outer, u, refs) && Comp(sccMap, outer, u, refs) == d;
        if u != t {
          assert u in init;
        }
      }
    }
  }

  /**
    The components the edges of node `n` lead to: the SCCs of the targets of its call
    edges, or the RefSCCs of the targets of all its edges.
   */
  ghost function NodeSucc(edges: map<NodeId, map<NodeId, Kind>>, sccMap: map<NodeId, SccId>, outer: map<SccId, RefSccId>,
                          n: NodeId, refs: bool): set<nat>
  {
    if n !in edges then {}
    else set t | t in edges[n] && (!refs ==> edges[n][t] == Call) && HasComp(sccMap, outer, t, refs) :: Comp(sccMap, outer, t, refs)
  }

  /** The components the nodes `ns` lead to, node after node. */
  ghost function Succ(edges: map<NodeId, map<NodeId, Kind>>, sccMap: map<NodeId, SccId>, outer: map<SccId, RefSccId>,
                      ns: seq<NodeId>, refs: bool): set<nat>
  {
    if ns == [] then {}
    else Succ(edges, sccMap, outer, ns[..|ns| - 1], refs) + NodeSucc(edges, sccMap, outer, ns[|ns| - 1], refs)
  }

  /** At the SCC level the scan finds the SCCs the nodes call. */
  lemma {:induction false} SuccIsCallees(edges: map<NodeId, map<NodeId, Kind>>, sccMap: map<NodeId, SccId>,
                                         outer: map<SccId, RefSccId>, ns: seq<NodeId>)
    ensures Succ(edges, sccMap, outer, ns, false) == CalleeSccs(edges, sccMap, ns)
  {
    if ns != [] {
      var init, n := ns[..|ns| - 1], ns[|ns| - 1];
      SuccIsCallees(edges, sccMap, outer, init);
      assert ns == init + [n];
      var a, b := CalleeSccs(edges, sccMap, ns), CalleeSccs(edges, sccMap, init) + NodeSucc(edges, sccMap, outer, n, false);
      forall d | d in a ensures d in b {
        var m, t :| m in ns && m in edges && t in edges[m] && edges[m][t] == Call && t in sccMap && sccMap[t] == d;
        if m !in init {
          assert m == n && HasComp(sccMap, outer, t, false);
        }
      }
      forall d | d in b ensures d in a {
        if d !in CalleeSccs(edges, sccMap, init) {
          var t :| t in edges[n] && edges[n][t] == Call && HasComp(sccMap, outer, t, false) && Comp(sccMap, outer, t, false) == d;
          assert n in ns;
        }
      }
    }
  }

  /** At the RefSCC level the scan finds the RefSCCs the nodes refer to. */
  lemma {:induction false} SuccIsReferenced(edges: map<NodeId, map<NodeId, Kind>>, sccMap: map<NodeId, SccId>,
                                            outer: map<SccId, RefSccId>, ns: seq<NodeId>)
    ensures Succ(edges, sccMap, outer, ns, true) == ReferencedRefSccs(edges, sccMap, outer, ns)
  {
    if ns != [] {
      var init, n := ns[..|ns| - 1], ns[|ns| - 1];
      SuccIsReferenced(edges, sccMap, outer, init);
      assert ns == init + [n];
      var a, b := ReferencedRefSccs(edges, sccMap, outer, ns), ReferencedRefSccs(edges, sccMap, outer, init) + NodeSucc(edges, sccMap, outer, n, true);
      forall d | d in a ensures d in b {
        var m, t :| m in ns && m in edges && t in edges[m] && t in sccMap && sccMap[t] in outer && outer[sccMap[t]] == d;
        if m !in init {
          assert m == n && HasComp(sccMap, outer, t, true);
        }
      }
      forall d | d in b ensures d in a {
        if d !in ReferencedRefSccs(edges, sccMap, outer, init) {
          var t :| t in edges[n] && HasComp(sccMap, outer, t, true) && Comp(sccMap, outer, t, true) == d;
          assert n in ns;
        }
      }
    }
  }

  /** The components of one node are those of the targets its edge iterator visits. */
  lemma SuccOfNode(edges: map<NodeId, map<NodeId, Kind>>, sccMap: map<NodeId, SccId>, outer: map<SccId, RefSccId>,
                   n: NodeId, ts: seq<NodeId>, refs: bool)
    requires n in edges
    requires forall t :: t in ts <==> t in edges[n] && (!refs ==> edges[n][t] == Call)
    ensures NodeSucc(edges, sccMap, outer, n, refs) == CompsOf(sccMap, outer, ts, refs)
  {
    forall d ensures d in NodeSucc(edges, sccMap, outer, n, refs) <==> d in CompsOf(sccMap, outer, ts, refs) {
      CompsOfMembers(sccMap, outer, ts, refs, d);
    }
  }

  /** Scanning one more node adds the components of its edges. */
  lemma SuccSnoc(edges: map<NodeId, map<NodeId, Kind>>, sccMap: map<NodeId, SccId>, outer: map<SccId, RefSccId>,
                 ns: seq<NodeId>, i: nat, refs: bool)
    requires i < |ns|
    ensures Succ(edges, sccMap, outer, ns[..i + 1], refs) ==
      Succ(edges, sccMap, outer, ns[..i], refs) + NodeSucc(edges, sccMap, outer, ns[i], refs)
  {
    assert ns[..i + 1][..i] == ns[..i];
  }

  /** A component is among those `ns` leads to exactly when one of the nodes leads to it. */
  lemma {:induction false} SuccMembers(edges: map<NodeId, map<NodeId, Kind>>, sccMap: map<NodeId, SccId>,
                                       outer: map<SccId, RefSccId>, ns: seq<NodeId>, refs: bool, d: nat)
    ensures d in Succ(edges, sccMap, outer, ns, refs) <==>
      exists n :: n in ns && d in NodeSucc(edges, sccMap, outer, n, refs)
  {
    if ns != [] {
      var init, m := ns[..|ns| - 1], ns[|ns| - 1];
      SuccMembers(edges, sccMap, outer, init, refs, d);
      assert ns == init + [m];
      if exists n :: n in ns && d in NodeSucc(edges, sccMap, outer, n, refs) {
        var n :| n in ns && d in NodeSucc(edges, sccMap, outer, n, refs);
        if n != m {
          assert n in init;
        }
      }
    }
  }

  /** Nodes among other nodes lead to components among theirs. */
  lemma SuccSubset(edges: map<NodeId, map<NodeId, Kind>>, sccMap: map<NodeId, SccId>,
                   outer: map<SccId, RefSccId>, ns: seq<NodeId>, ms: seq<NodeId>, refs: bool)
    requires forall n :: n in ns ==> n in ms
    ensures Succ(edges, sccMap, outer, ns, refs) <= Succ(edges, sccMap, outer, ms, refs)
  {
    forall d | d in Succ(edges, sccMap, outer, ns, refs) ensures d in Succ(edges, sccMap, outer, ms, refs) {
      SuccMembers(edges, sccMap, outer, ns, refs, d);
      SuccMembers(edges, sccMap, outer, ms, refs, d);
    }
  }

  /** Two runs of nodes one after the other lead to the components of both. */
  lemma SuccAppend(edges: map<NodeId, map<NodeId, Kind>>, sccMap: map<NodeId, SccId>,
                   outer: map<SccId, RefSccId>, ns: seq<NodeId>, ms: seq<NodeId>, refs: bool)
    ensures Succ(edges, sccMap, outer, ns + ms, refs) ==
      Succ(edges, sccMap, outer, ns, refs) + Succ(edges, sccMap, outer, ms, refs)
  {
    forall d ensures d in Succ(edges, sccMap, outer, ns + ms, refs) <==>
                     d in Succ(edges, sccMap, outer, ns, refs) + Succ(edges, sccMap, outer, ms, refs) {
      SuccMembers(edges, sccMap, outer, ns + ms, refs, d);
      SuccMembers(edges, sccMap, outer, ns, refs, d);
      SuccMembers(edges, sccMap, outer, ms, refs, d);
    }
  }

  /** The targets of the edges in `es`, or of its call edges only. */
  method NodeTargets(es: EdgeSequence, callsOnly: bool) returns (ts: seq<NodeId>)
    requires es.Valid()
    ensures forall t :: t in ts <==> t in es.View() && (callsOnly ==> es.View()[t] == Call)
  {
    ts := EdgeTargets(es.edges, callsOnly);
    TargetsAreView(es.edges, es.indexMap, callsOnly);
  }

  /**
    A scan that started from `visited` and `worklist` has met exactly the components
    `met`: they are now visited, and the worklist has gained exactly those of them that
    were not visited before.
   */
  ghost predicate Explored(visited: set<nat>, worklist: seq<nat>, met: set<nat>, visited': set<nat>, worklist': seq<nat>)
  {
    && visited' == visited + met
    && (forall x :: x in worklist' <==> x in worklist || x in visited' - visited)
    && (visited' == visited ==> worklist' == worklist)
  }

  /** One scan after another has met what the two have met. */
  lemma ExploredTrans(v0: set<nat>, w0: seq<nat>, m1: set<nat>, v1: set<nat>, w1: seq<nat>,
                      m2: set<nat>, v2: set<nat>, w2: seq<nat>)
    requires Explored(v0, w0, m1, v1, w1) && Explored(v1, w1, m2, v2, w2)
    ensures Explored(v0, w0, m1 + m2, v2, w2)
  {
    assert v2 == v0 ==> v1 == v0;
  }

  /**
    Scans the targets `ts` of the edges of node `n` (of its call edges at the SCC level)
    for the components they lead to.  It stops when it meets `target`; otherwise it
    marks every component it meets as visited and pushes the ones not visited before.
   */
  method ScanNode(ghost E: map<NodeId, map<NodeId, Kind>>, M: map<NodeId, SccId>, O: map<SccId, RefSccId>,
                  ghost n: NodeId, ts: seq<NodeId>, refs: bool, target: nat, visited: set<nat>, worklist: seq<nat>)
    returns (found: bool, visited': set<nat>, worklist': seq<nat>)
    requires n in E && forall t :: t in ts <==> t in E[n] && (!refs ==> E[n][t] == Call)
    ensures found <==> target in NodeSucc(E, M, O, n, refs)
    ensures !found ==> Explored(visited, worklist, NodeSucc(E, M, O, n, refs), visited', worklist')
  {
    SuccOfNode(E, M, O, n, ts, refs);
    visited', worklist' := visited, worklist;
    var j := 0;
    while j < |ts|
      invariant j <= |ts|
      invariant target !in CompsOf(M, O, ts[..j], refs)
      invariant Explored(visited, worklist, CompsOf(M, O, ts[..j], refs), visited', worklist')
    {
      var t := ts[j];
      assert ts[..j + 1][..j] == ts[..j];
      if t in M && (!refs || M[t] in O) {
        var c := if refs then O[M[t]] else M[t];
        assert CompsOf(M, O, ts[..j + 1], refs) == CompsOf(M, O, ts[..j], refs) + {c};
        if c == target {
          return true, visited', worklist';
        }
        if c !in visited' {
          visited' := visited' + {c};
          worklist' := worklist' + [c];
        }
      } else {
        assert CompsOf(M, O, ts[..j + 1], refs) == CompsOf(M, O, ts[..j], refs);
      }
      j := j + 1;
    }
    assert ts[..j] == ts;
    return false, visited', worklist';
  }

  /** `ScanNode` over the edges of node `n`, read from its edge sequence `es`. */
  method ScanEdges(ghost E: map<NodeId, map<NodeId, Kind>>, M: map<NodeId, SccId>, O: map<SccId, RefSccId>,
                   es: EdgeSequence, ghost n: NodeId, refs: bool, target: nat,
                   visited: set<nat>, worklist: seq<nat>)
    returns (found: bool, visited': set<nat>, worklist': seq<nat>)
    requires n in E && es.Valid() && es.View() == E[n]
    ensures found <==> target in NodeSucc(E, M, O, n, refs)
    ensures !found ==> Explored(visited, worklist, NodeSucc(E, M, O, n, refs), visited', worklist')
  {
    var ts := NodeTargets(es, !refs);
    found, visited', worklist' := ScanNode(E, M, O, n, ts, refs, target, visited, worklist);
  }

  /** Each edge sequence of `ess` is valid and holds the edges `E` gives its node. */
  ghost predicate ViewsAre(ess: map<NodeId, EdgeSequence>, E: map<NodeId, map<NodeId, Kind>>)
    reads ess.Values
  {
    forall n :: n in ess ==> n in E && ess[n].Valid() && ess[n].View() == E[n]
  }

  /** `ScanNode` over each of the nodes `ns` in turn, whose edge sequences `ess` holds. */
  method ScanNodes(ghost E: map<NodeId, map<NodeId, Kind>>, M: map<NodeId, SccId>, O: map<SccId, RefSccId>,
                   ess: map<NodeId, EdgeSequence>, ns: seq<NodeId>, refs: bool, target: nat,
                   visited: set<nat>, worklist: seq<nat>)
    returns (found: bool, visited': set<nat>, worklist': seq<nat>)
    requires ViewsAre(ess, E) && forall n :: n in ns ==> n in ess.Keys
    ensures found <==> target in Succ(E, M, O, ns, refs)
    ensures !found ==> Explored(visited, worklist, Succ(E, M, O, ns, refs), visited', worklist')
  {
    visited', worklist' := visited, worklist;
    var i := 0;
    while i < |ns|
      invariant i <= |ns|
      invariant target !in Succ(E, M, O, ns[..i], refs)
      invariant Explored(visited, worklist, Succ(E, M, O, ns[..i], refs), visited', worklist')
    {
      ghost var v0, w0 := visited', worklist';
      SuccSnoc(E, M, O, ns, i, refs);
      found, visited', worklist' := ScanEdges(E, M, O, ess[ns[i]], ns[i], refs, target, visited', worklist');
      if found {
        SuccSubset(E, M, O, ns[..i + 1], ns, refs);
        return;
      }
      ExploredTrans(visited, worklist, Succ(E, M, O, ns[..i], refs), v0, w0, NodeSucc(E, M, O, ns[i], refs), visited', worklist');
      i := i + 1;
    }
    assert ns[..i] == ns;
    found := false;
  }

  /** Every node an SCC lists is one of `keys`. */
  ghost predicate Listed(sccNodes: map<SccId, seq<NodeId>>, keys: set<NodeId>)
  {
    forall c, n :: c in sccNodes && n in sccNodes[c] ==> n in keys
  }

  /** The SCCs listed first in `cs` lead to components the SCCs of `cs` lead to. */
  lemma SuccCompsPrefix(edges: map<NodeId, map<NodeId, Kind>>, sccMap: map<NodeId, SccId>, outer: map<SccId, RefSccId>,
                        sccNodes: map<SccId, seq<NodeId>>, cs: seq<SccId>, i: nat, refs: bool)
    requires i <= |cs|
    ensures Succ(edges, sccMap, outer, NodesOf(sccNodes, cs[..i]), refs) <= Succ(edges, sccMap, outer, NodesOf(sccNodes, cs), refs)
  {
    forall n | n in NodesOf(sccNodes, cs[..i]) ensures n in NodesOf(sccNodes, cs) {
      NodesOfMembers(sccNodes, cs[..i], n);
      NodesOfMembers(sccNodes, cs, n);
      var k :| 0 <= k < i && cs[..i][k] in sccNodes && n in sccNodes[cs[..i][k]];
      assert cs[..i][k] == cs[k];
    }
    SuccSubset(edges, sccMap, outer, NodesOf(sccNodes, cs[..i]), NodesOf(sccNodes, cs), refs);
  }

  /** `ScanNodes` over the nodes of SCC `c`, if it lists any. */
  method ScanScc(ghost E: map<NodeId, map<NodeId, Kind>>, M: map<NodeId, SccId>, O: map<SccId, RefSccId>,
                 ess: map<NodeId, EdgeSequence>, sccNodes: map<SccId, seq<NodeId>>, c: SccId,
                 refs: bool, target: nat, visited: set<nat>, worklist: seq<nat>)
    returns (found: bool, visited': set<nat>, worklist': seq<nat>)
    requires ViewsAre(ess, E) && Listed(sccNodes, ess.Keys)
    ensures found <==> target in Succ(E, M, O, NodesIn(sccNodes, c), refs)
    ensures !found ==> Explored(visited, worklist, Succ(E, M, O, NodesIn(sccNodes, c), refs), visited', worklist')
  {
    if c in sccNodes {
      found, visited', worklist' := ScanNodes(E, M, O, ess, sccNodes[c], refs, target, visited, worklist);
    } else {
      found, visited', worklist' := false, visited, worklist;
    }
  }

  /** Scanning the nodes of one more SCC adds the components they lead to. */
  lemma SuccCompsSnoc(edges: map<NodeId, map<NodeId, Kind>>, sccMap: map<NodeId, SccId>, outer: map<SccId, RefSccId>,
                      sccNodes: map<SccId, seq<NodeId>>, cs: seq<SccId>, i: nat, refs: bool)
    requires i < |cs|
    ensures Succ(edges, sccMap, outer, NodesOf(sccNodes, cs[..i + 1]), refs) ==
      Succ(edges, sccMap, outer, NodesOf(sccNodes, cs[..i]), refs) + Succ(edges, sccMap, outer, NodesIn(sccNodes, cs[i]), refs)
  {
    assert cs[..i + 1][..i] == cs[..i];
    SuccAppend(edges, sccMap, outer, NodesOf(sccNodes, cs[..i]), NodesIn(sccNodes, cs[i]), refs);
  }

  /**
    `ScanNodes` over the nodes of each of the SCCs `cs` in turn, as the RefSCC queries
    walk the nodes of every SCC of a RefSCC.
   */
  method ScanComps(ghost E: map<NodeId, map<NodeId, Kind>>, M: map<NodeId, SccId>, O: map<SccId, RefSccId>,
                   ess: map<NodeId, EdgeSequence>, sccNodes: map<SccId, seq<NodeId>>, cs: seq<SccId>,
                   refs: bool, target: nat, visited: set<nat>, worklist: seq<nat>)
    returns (found: bool, visited': set<nat>, worklist': seq<nat>)
    requires ViewsAre(ess, E) && Listed(sccNodes, ess.Keys)
    ensures found <==> target in Succ(E, M, O, NodesOf(sccNodes, cs), refs)
    ensures !found ==> Explored(visited, worklist, Succ(E, M, O, NodesOf(sccNodes, cs), refs), visited', worklist')
  {
    visited', worklist' := visited, worklist;
    var i := 0;
    while i < |cs|
      invariant i <= |cs|
      invariant target !in Succ(E, M, O, NodesOf(sccNodes, cs[..i]), refs)
      invariant Explored(visited, worklist, Succ(E, M, O, NodesOf(sccNodes, cs[..i]), refs), visited', worklist')
    {
      ghost var v0, w0 := visited', worklist';
      SuccCompsSnoc(E, M, O, sccNodes, cs, i, refs);
      found, visited', worklist' := ScanScc(E, M, O, ess, sccNodes, cs[i], refs, target, visited', worklist');
      if found {
        SuccCompsPrefix(E, M, O, sccNodes, cs, i + 1, refs);
        return;
      }
      ExploredTrans(visited, worklist, Succ(E, M, O, NodesOf(sccNodes, cs[..i]), refs), v0, w0,
                    Succ(E, M, O, NodesIn(sccNodes, cs[i]), refs), visited', worklist');
      i := i + 1;
    }
    assert cs[..i] == cs;
    found := false;
  }

  /**
    The nodes a component stands for: the nodes of SCC `c`, or at the RefSCC level the
    nodes of the SCCs of RefSCC `c`.
   */
  ghost function Members(sccNodes: map<SccId, seq<NodeId>>, sccs: map<RefSccId, seq<SccId>>, c: nat, refs: bool): seq<NodeId>
  {
    if !refs then NodesIn(sccNodes, c)
    else if c in sccs then NodesOf(sccNodes, sccs[c])
    else []
  }

  /** Scans the edges of the nodes of component `c`, an SCC or a RefSCC. */
  method ScanComponent(ghost E: map<NodeId, map<NodeId, Kind>>, M: map<NodeId, SccId>, O: map<SccId, RefSccId>,
                       ess: map<NodeId, EdgeSequence>, sccNodes: map<SccId, seq<NodeId>>, sccs: map<RefSccId, seq<SccId>>,
                       c: nat, refs: bool, target: nat, visited: set<nat>, worklist: seq<nat>)
    returns (found: bool, visited': set<nat>, worklist': seq<nat>)
    requires ViewsAre(ess, E) && Listed(sccNodes, ess.Keys)
    ensures found <==> target in Succ(E, M, O, Members(sccNodes, sccs, c, refs), refs)
    ensures !found ==> Explored(visited, worklist, Succ(E, M, O, Members(sccNodes, sccs, c, refs), refs), visited', worklist')
  {
    if !refs {
      found, visited', worklist' := ScanScc(E, M, O, ess, sccNodes, c, refs, target, visited, worklist);
    } else if c in sccs {
      found, visited', worklist' := ScanComps(E, M, O, ess, sccNodes, sccs[c], refs, target, visited, worklist);
    } else {
      found, visited', worklist' := false, visited, worklist;
    }
  }

  /** One component scanned without meeting the target keeps the search's invariant and makes progress. */
  lemma SearchStep(G: map<nat, set<nat>>, a: nat, b: nat, c: nat, v0: set<nat>, w0: seq<nat>,
                   v1: set<nat>, w1: seq<nat>)
    requires forall x :: x in G ==> G[x] <= G.Keys
    requires v0 <= G.Keys && a in v0 && b !in v0 && c in v0
    requires forall x :: x in w0 ==> x in v0
    requires forall x :: x in v0 ==> Reaches(G, a, x)
    requires forall x :: x in v0 && x !in w0 + [c] ==> G[x] <= v0
    requires b !in G[c] && Explored(v0, w0, G[c], v1, w1)
    ensures v1 <= G.Keys && a in v1 && b !in v1
    ensures forall x :: x in w1 ==> x in v1
    ensures forall x :: x in v1 ==> Reaches(G, a, x)
    ensures forall x :: x in v1 && x !in w1 ==> G[x] <= v1
    ensures G.Keys - v1 < G.Keys - v0 || (v1 == v0 && w1 == w0)
  {
    forall x | x in v1 ensures Reaches(G, a, x) {
      if x !in v0 {
        ReachesStep(G, a, c, x);
      }
    }
    forall x | x in v1 && x !in w1 ensures G[x] <= v1 {
      if x != c {
        assert x in v0 && x !in w0 + [c];
      }
    }
    if v1 != v0 {
      assert G.Keys - v1 < G.Keys - v0;
    }
  }

  /**
    The worklist search of the ancestor queries: starting from component `a`, scan the
    components popped off the worklist, pushing each component met for the first time,
    until `b` is met or the worklist runs dry.  `G` is the component graph the scans
    walk, each component to the components its nodes lead to.
   */
  method Search(ghost E: map<NodeId, map<NodeId, Kind>>, M: map<NodeId, SccId>, O: map<SccId, RefSccId>,
                ess: map<NodeId, EdgeSequence>, sccNodes: map<SccId, seq<NodeId>>, sccs: map<RefSccId, seq<SccId>>,
                ghost G: map<nat, set<nat>>, a: nat, b: nat, refs: bool)
    returns (r: bool)
    requires ViewsAre(ess, E) && Listed(sccNodes, ess.Keys)
    requires forall c :: c in G ==> G[c] == Succ(E, M, O, Members(sccNodes, sccs, c, refs), refs) && G[c] <= G.Keys
    requires a in G && a != b
    ensures r <==> Reaches(G, a, b)
  {
    var visited: set<nat> := {a};
    var worklist: seq<nat> := [a];
    ReachesRefl(G, a);
    while worklist != []
      invariant visited <= G.Keys && a in visited && b !in visited
      invariant forall x :: x in worklist ==> x in visited
      invariant forall x :: x in visited ==> Reaches(G, a, x)
      invariant forall x :: x in visited && x !in worklist ==> G[x] <= visited
      decreases G.Keys - visited, |worklist|
    {
      ghost var w := worklist;
      var c := worklist[|worklist| - 1];
      worklist := worklist[..|worklist| - 1];
      assert w == worklist + [c];
      ghost var v0, w0 := visited, worklist;
      var found;
      found, visited, worklist := ScanComponent(E, M, O, ess, sccNodes, sccs, c, refs, b, visited, worklist);
      if found {
        ReachesStep(G, a, c, b);
        return true;
      }
      SearchStep(G, a, b, c, v0, w0, visited, worklist);
    }
    assert Closed(G, visited);
    if Reaches(G, a, b) {
      ClosedKeepsReach(G, visited, a, b);
    }
    return false;
  }

  /** With the SCCs a partition, every node an SCC lists is a node of the graph. */
  lemma PartitionListed(g: Graph)
    requires SccPartition(g)
    ensures Listed(g.sccNodes, g.edges.Keys)
  {
  }

  /** The SCC graph is the graph the SCC-level scans walk, and it leads only to SCCs. */
  lemma CallGraphScanned(g: Graph)
    requires SccPartition(g)
    ensures forall c :: c in CallGraph(g) ==>
      CallGraph(g)[c] == Succ(g.edges, g.sccMap, g.outer, Members(g.sccNodes, g.sccs, c, false), false) &&
      CallGraph(g)[c] <= CallGraph(g).Keys
  {
    forall c | c in CallGraph(g)
      ensures CallGraph(g)[c] == Succ(g.edges, g.sccMap, g.outer, Members(g.sccNodes, g.sccs, c, false), false)
    {
      SuccIsCallees(g.edges, g.sccMap, g.outer, g.sccNodes[c]);
    }
  }

  /** The RefSCC graph is the graph the RefSCC-level scans walk, and it leads only to RefSCCs. */
  lemma RefGraphScanned(g: Graph)
    requires SccsInRefSccs(g)
    ensures forall c :: c in RefGraph(g) ==>
      RefGraph(g)[c] == Succ(g.edges, g.sccMap, g.outer, Members(g.sccNodes, g.sccs, c, true), true) &&
      RefGraph(g)[c] <= RefGraph(g).Keys
  {
    forall c | c in RefGraph(g)
      ensures RefGraph(g)[c] == Succ(g.edges, g.sccMap, g.outer, Members(g.sccNodes, g.sccs, c, true), true)
      ensures RefGraph(g)[c] <= RefGraph(g).Keys
    {
      SuccIsReferenced(g.edges, g.sccMap, g.outer, NodesOf(g.sccNodes, g.sccs[c]));
      forall d | d in RefGraph(g)[c] ensures d in RefGraph(g) {
        var n, t :| n in NodesOf(g.sccNodes, g.sccs[c]) && n in g.edges && t in g.edges[n] &&
                    t in g.sccMap && g.sccMap[t] in g.outer && g.outer[g.sccMap[t]] == d;
        assert LiveScc(g, g.sccMap[t]);
      }
    }
  }

  /** Collects the components the targets `ts` of the edges of node `n` lead to. */
  method CollectNode(ghost E: map<NodeId, map<NodeId, Kind>>, M: map<NodeId, SccId>, O: map<SccId, RefSccId>,
                     ghost n: NodeId, ts: seq<NodeId>, refs: bool)
    returns (succ: set<nat>)
    requires n in E && forall t :: t in ts <==> t in E[n] && (!refs ==> E[n][t] == Call)
    ensures succ == NodeSucc(E, M, O, n, refs)
  {
    SuccOfNode(E, M, O, n, ts, refs);
    succ := {};
    var j := 0;
    while j < |ts|
      invariant j <= |ts|
      invariant succ == CompsOf(M, O, ts[..j], refs)
    {
      var t := ts[j];
      assert ts[..j + 1][..j] == ts[..j];
      if t in M && (!refs || M[t] in O) {
        succ := succ + {if refs then O[M[t]] else M[t]};
      }
      j := j + 1;
    }
    assert ts[..j] == ts;
  }

  /** Collects the components the nodes `ns` lead to, whose edge sequences `ess` holds. */
  method CollectNodes(ghost E: map<NodeId, map<NodeId, Kind>>, M: map<NodeId, SccId>, O: map<SccId, RefSccId>,
                      ess: map<NodeId, EdgeSequence>, ns: seq<NodeId>, refs: bool)
    returns (succ: set<nat>)
    requires ViewsAre(ess, E) && forall n :: n in ns ==> n in ess.Keys
    ensures succ == Succ(E, M, O, ns, refs)
  {
    succ := {};
    var i := 0;
    while i < |ns|
      invariant i <= |ns|
      invariant succ == Succ(E, M, O, ns[..i], refs)
    {
      SuccSnoc(E, M, O, ns, i, refs);
      var ts := NodeTargets(ess[ns[i]], !refs);
      var more := CollectNode(E, M, O, ns[i], ts, refs);
      succ := succ + more;
      i := i + 1;
    }
    assert ns[..i] == ns;
  }

  /**
    The SCC graph of the SCCs `cs`, built from the edge sequences: each SCC of `cs` that
    has a node list, to the SCCs its nodes call.
   */
  method LocalGraph(ghost E: map<NodeId, map<NodeId, Kind>>, M: map<NodeId, SccId>, O: map<SccId, RefSccId>,
                    ess: map<NodeId, EdgeSequence>, sccNodes: map<SccId, seq<NodeId>>, cs: seq<SccId>)
    returns (L: map<SccId, set<SccId>>)
    requires ViewsAre(ess, E) && Listed(sccNodes, ess.Keys)
    ensures L == LocalSccGraph(E, M, sccNodes, cs)
  {
    L := map[];
    var i := 0;
    while i < |cs|
      invariant i <= |cs|
      invariant L == LocalSccGraph(E, M, sccNodes, cs[..i])
    {
      assert cs[..i + 1] == cs[..i] + [cs[i]];
      if cs[i] in sccNodes {
        var succ := CollectNodes(E, M, O, ess, sccNodes[cs[i]], false);
        SuccIsCallees(E, M, O, sccNodes[cs[i]]);
        L := L[cs[i] := succ];
      }
      i := i + 1;
    }
    assert cs[..i] == cs;
  }
}
