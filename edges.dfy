/**
  The out-edges of one node of the lazy call graph: a vector of edges paired with a
  map from each target node to the slot of its edge.  Removing an edge leaves a null
  tombstone in its slot, so that the slots of the other edges stay valid.
 */
module Edges {

  type NodeId = nat

  /** A call edge is a direct call; a ref edge is any other use of a function. */
  datatype Kind = Ref | Call

  /** An edge, or the null edge a removal leaves behind in its slot. */
  datatype Edge = Null | Edge(target: NodeId, kind: Kind)

  /**
    The edge vector and the index map describe the same edges: every entry of the map
    points at a slot holding an edge to that target, and every non-null slot is the one
    the map gives for its target (so no target has two edges).
   */
  ghost predicate IndexConsistent(edges: seq<Edge>, index: map<NodeId, nat>)
  {
    && (forall t :: t in index ==>
          index[t] < |edges| && edges[index[t]].Edge? && edges[index[t]].target == t)
    && (forall i :: 0 <= i < |edges| && edges[i].Edge? ==>
          edges[i].target in index && index[edges[i].target] == i)
  }

  /** The abstract value of an edge sequence: the kind of the edge to each target. */
  ghost function ViewOf(edges: seq<Edge>, index: map<NodeId, nat>): (v: map<NodeId, Kind>)
    requires IndexConsistent(edges, index)
    ensures v.Keys == index.Keys
  {
    map t | t in index :: edges[index[t]].kind
  }

  /**
    The targets met when iterating over the sequence, in order: the iterator skips null
    edges, and the call iterator also skips ref edges.
   */
  function Targets(edges: seq<Edge>, callsOnly: bool): (r: seq<NodeId>)
    ensures |r| <= |edges|
    ensures forall t :: t in r <==>
      exists i :: 0 <= i < |edges| && edges[i].Edge? && edges[i].target == t
                  && (callsOnly ==> edges[i].kind == Call)
  {
    if edges == [] then []
    else
      var rest := Targets(edges[1..], callsOnly);
      assert forall i :: 1 <= i < |edges| ==> edges[i] == edges[1..][i - 1];
      if edges[0].Edge? && (!callsOnly || edges[0].kind == Call)
      then [edges[0].target] + rest
      else rest
  }

  /** Iterating over a consistent sequence visits exactly the targets of its view. */
  lemma TargetsAreView(edges: seq<Edge>, index: map<NodeId, nat>, callsOnly: bool)
    requires IndexConsistent(edges, index)
    ensures forall t :: t in Targets(edges, callsOnly) <==>
      t in ViewOf(edges, index) && (callsOnly ==> ViewOf(edges, index)[t] == Call)
  {
    forall t | t in ViewOf(edges, index) && (callsOnly ==> ViewOf(edges, index)[t] == Call)
      ensures t in Targets(edges, callsOnly)
    {
      var i := index[t];
      assert edges[i].Edge? && edges[i].target == t;
    }
  }

  /** Iterating over a consistent sequence never meets a target twice. */
  lemma {:induction false} TargetsDistinct(edges: seq<Edge>, index: map<NodeId, nat>, callsOnly: bool)
    requires IndexConsistent(edges, index)
    ensures forall a, b :: 0 <= a < b < |Targets(edges, callsOnly)| ==>
      Targets(edges, callsOnly)[a] != Targets(edges, callsOnly)[b]
  {
    DistinctSuffix(edges, index, 0, callsOnly);
    assert edges[0..] == edges;
  }

  lemma {:induction false} DistinctSuffix(edges: seq<Edge>, index: map<NodeId, nat>, k: nat, callsOnly: bool)
    requires IndexConsistent(edges, index)
    requires k <= |edges|
    ensures forall a, b :: 0 <= a < b < |Targets(edges[k..], callsOnly)| ==>
      Targets(edges[k..], callsOnly)[a] != Targets(edges[k..], callsOnly)[b]
    decreases |edges| - k
  {
    if k < |edges| {
      DistinctSuffix(edges, index, k + 1, callsOnly);
      var s := edges[k..];
      assert s[1..] == edges[k + 1..];
      var rest := Targets(edges[k + 1..], callsOnly);
      if s[0].Edge? && (!callsOnly || s[0].kind == Call) {
        var t := s[0].target;
        assert index[t] == k;
        assert t !in rest;
        assert Targets(s, callsOnly) == [t] + rest;
      }
    }
  }

  class EdgeSequence {
    /** The edge vector; removed edges leave a `Null` in their slot. */
    var edges: seq<Edge>
    /** The slot of the edge to each target. */
    var indexMap: map<NodeId, nat>

    ghost predicate Valid()
      reads this
    {
      IndexConsistent(edges, indexMap)
    }

    /** The kind of the edge to each target. */
    ghost function View(): (v: map<NodeId, Kind>)
      reads this
      requires Valid()
      ensures v.Keys == indexMap.Keys
    {
      ViewOf(edges, indexMap)
    }

    constructor ()
      ensures Valid() && edges == [] && indexMap == map[] && View() == map[]
    {
      edges := [];
      indexMap := map[];
    }

    /**
      Appends an edge to `t` and records its slot.  Recording is an insertion into the
      index map, which keeps an existing entry: the callers only insert edges to new
      targets, and only then does the sequence stay consistent.
     */
    method InsertEdgeInternal(t: NodeId, k: Kind)
      requires Valid()
      modifies this
      ensures edges == old(edges) + [Edge(t, k)]
      ensures indexMap == if t in old(indexMap) then old(indexMap)
                          else old(indexMap)[t := |old(edges)|]
      ensures t !in old(indexMap) ==>
        Valid() && View() == old(View())[t := k] && indexMap[t] == |edges| - 1
    {
      if t !in indexMap {
        indexMap := indexMap[t := |edges|];
      }
      edges := edges + [Edge(t, k)];
    }

    /** Changes the kind of the existing edge to `t`, in its slot. */
    method SetEdgeKind(t: NodeId, k: Kind)
      requires Valid() && t in indexMap
      modifies this
      ensures indexMap == old(indexMap)
      ensures edges == old(edges)[old(indexMap)[t] := Edge(t, k)]
      ensures Valid() && View() == old(View())[t := k]
    {
      edges := edges[indexMap[t] := Edge(t, k)];
    }

    /**
      Removes the edge to `t` if there is one: its slot becomes a null edge and its index
      entry is erased; every other slot and index is left as it was.
     */
    method RemoveEdgeInternal(t: NodeId) returns (removed: bool)
      requires Valid()
      modifies this
      ensures removed == (t in old(indexMap))
      ensures !removed ==> edges == old(edges) && indexMap == old(indexMap)
      ensures removed ==>
        edges == old(edges)[old(indexMap)[t] := Null] && indexMap == old(indexMap) - {t}
      ensures |edges| == |old(edges)|
      ensures Valid() && View() == old(View()) - {t}
    {
      if t !in indexMap {
        return false;
      }
      edges := edges[indexMap[t] := Null];
      indexMap := indexMap - {t};
      return true;
    }

    /**
      Adds an edge to `t` unless there already is one: the insertion into the index map
      decides, so adding is idempotent and never creates a duplicate.
     */
    method AddEdge(t: NodeId, k: Kind)
      requires Valid()
      modifies this
      ensures t in old(indexMap) ==> edges == old(edges) && indexMap == old(indexMap)
      ensures t !in old(indexMap) ==>
        edges == old(edges) + [Edge(t, k)] && indexMap == old(indexMap)[t := |old(edges)|]
      ensures Valid()
      ensures View() == if t in old(View()) then old(View()) else old(View())[t := k]
    {
      if t in indexMap {
        return;
      }
      indexMap := indexMap[t := |edges|];
      edges := edges + [Edge(t, k)];
    }
  }
}
