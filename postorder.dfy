/**
  Postorder sequences of components and their repair when a new edge runs from an
  earlier component to a later one.  A component graph is a successor map; a sequence
  is in postorder when no entry has an edge to an entry after it, so every edge points
  to the same or an earlier position.  The index map of a sequence sends every entry
  to its position.
 */
module Postorder {
  import opened Paths

  /** `idx` sends each entry of `s` to its position, and knows nothing else. */
  ghost predicate Indexed(s: seq<nat>, idx: map<nat, nat>)
  {
    && (forall i :: 0 <= i < |s| ==> s[i] in idx && idx[s[i]] == i)
    && (forall x :: x in idx ==> idx[x] < |s| && s[idx[x]] == x)
  }

  ghost predicate Distinct(s: seq<nat>)
  {
    forall i, j :: 0 <= i < j < |s| ==> s[i] != s[j]
  }

  lemma IndexedDistinct(s: seq<nat>, idx: map<nat, nat>)
    requires Indexed(s, idx)
    ensures Distinct(s)
  {
  }

  /** The postorder constraint: no entry has an edge to a later entry. */
  ghost predicate NoForwardEdge(s: seq<nat>, g: map<nat, set<nat>>)
  {
    forall i, j :: 0 <= i < j < |s| && s[i] in g ==> s[j] !in g[s[i]]
  }

  /** No entry of `a` has an edge to an entry of `b`. */
  ghost predicate NoEdgeAcross(a: seq<nat>, b: seq<nat>, g: map<nat, set<nat>>)
  {
    forall x, y :: x in a && y in b && x in g ==> y !in g[x]
  }

  /** The postorder constraint splits over a concatenation. */
  lemma NoForwardEdgeConcat(a: seq<nat>, b: seq<nat>, g: map<nat, set<nat>>)
    ensures NoForwardEdge(a + b, g) <==>
      NoForwardEdge(a, g) && NoForwardEdge(b, g) && NoEdgeAcross(a, b, g)
  {
    var s := a + b;
    if NoForwardEdge(s, g) {
      forall i, j | 0 <= i < j < |a| && a[i] in g ensures a[j] !in g[a[i]] {
        assert s[i] == a[i] && s[j] == a[j];
      }
      forall i, j | 0 <= i < j < |b| && b[i] in g ensures b[j] !in g[b[i]] {
        assert s[|a| + i] == b[i] && s[|a| + j] == b[j];
      }
      forall x, y | x in a && y in b && x in g ensures y !in g[x] {
        var i :| 0 <= i < |a| && a[i] == x;
        var j :| 0 <= j < |b| && b[j] == y;
        assert s[i] == x && s[|a| + j] == y;
      }
    }
    if NoForwardEdge(a, g) && NoForwardEdge(b, g) && NoEdgeAcross(a, b, g) {
      forall i, j | 0 <= i < j < |s| && s[i] in g ensures s[j] !in g[s[i]] {
        if j < |a| {
          assert s[i] == a[i] && s[j] == a[j];
        } else if i < |a| {
          assert s[i] == a[i] && s[j] == b[j - |a|];
          assert a[i] in a && b[j - |a|] in b;
        } else {
          assert s[i] == b[i - |a|] && s[j] == b[j - |a|];
        }
      }
      assert NoForwardEdge(s, g);
    }
  }

  /** The entries `x` of `s` with `(x in S) == keep`, in their order in `s`. */
  function Select(s: seq<nat>, S: set<nat>, keep: bool): (r: seq<nat>)
    ensures |r| <= |s|
  {
    if s == [] then []
    else (if (s[0] in S) == keep then [s[0]] else []) + Select(s[1..], S, keep)
  }

  /** The selection holds exactly the entries of `s` whose membership in `S` is `keep`. */
  lemma {:induction false} SelectMembers(s: seq<nat>, S: set<nat>, keep: bool)
    ensures forall x :: x in Select(s, S, keep) <==> x in s && (x in S) == keep
  {
    if s != [] {
      SelectMembers(s[1..], S, keep);
      assert s == [s[0]] + s[1..];
    }
  }

  /**
    `std::stable_partition` with a membership predicate: the entries whose membership
    in `S` is `first` come first, each group in its original order.
   */
  function StablePartition(s: seq<nat>, S: set<nat>, first: bool): seq<nat>
  {
    Select(s, S, first) + Select(s, S, !first)
  }

  /** The two halves of a partition together hold exactly the entries of `s`. */
  lemma {:induction false} SelectSplits(s: seq<nat>, S: set<nat>)
    ensures multiset(Select(s, S, true)) + multiset(Select(s, S, false)) == multiset(s)
  {
    if s != [] {
      SelectSplits(s[1..], S);
      var h := [s[0]];
      assert s == h + s[1..];
      assert multiset(s) == multiset(h) + multiset(s[1..]);
      if s[0] in S {
        assert Select(s, S, true) == h + Select(s[1..], S, true);
        assert Select(s, S, false) == Select(s[1..], S, false);
      } else {
        assert Select(s, S, false) == h + Select(s[1..], S, false);
        assert Select(s, S, true) == Select(s[1..], S, true);
      }
    }
  }

  lemma StablePartitionPermutes(s: seq<nat>, S: set<nat>, first: bool)
    ensures multiset(StablePartition(s, S, first)) == multiset(s)
    ensures |StablePartition(s, S, first)| == |s|
  {
    SelectSplits(s, S);
    assert multiset(StablePartition(s, S, first)) == multiset(s);
    assert |multiset(StablePartition(s, S, first))| == |multiset(s)|;
  }

  /** Selecting entries keeps the postorder constraint. */
  lemma {:induction false} SelectKeepsNoForwardEdge(s: seq<nat>, S: set<nat>, keep: bool, g: map<nat, set<nat>>)
    requires NoForwardEdge(s, g)
    ensures NoForwardEdge(Select(s, S, keep), g)
  {
    if s != [] {
      assert s == [s[0]] + s[1..];
      NoForwardEdgeConcat([s[0]], s[1..], g);
      SelectKeepsNoForwardEdge(s[1..], S, keep, g);
      SelectMembers(s[1..], S, keep);
      var head := if (s[0] in S) == keep then [s[0]] else [];
      NoForwardEdgeConcat(head, Select(s[1..], S, keep), g);
    }
  }

  /** An entry kept at the front of `s` stays at the front of the selection. */
  lemma SelectFirst(s: seq<nat>, S: set<nat>, keep: bool)
    requires |s| > 0 && (s[0] in S) == keep
    ensures |Select(s, S, keep)| > 0 && Select(s, S, keep)[0] == s[0]
  {
  }

  /** An entry kept at the back of `s` stays at the back of the selection. */
  lemma {:induction false} SelectLast(s: seq<nat>, S: set<nat>, keep: bool)
    requires |s| > 0 && (s[|s| - 1] in S) == keep
    ensures |Select(s, S, keep)| > 0
    ensures Select(s, S, keep)[|Select(s, S, keep)| - 1] == s[|s| - 1]
  {
    if |s| > 1 {
      SelectLast(s[1..], S, keep);
      assert s[1..][|s| - 2] == s[|s| - 1];
    }
  }

  lemma {:induction false} SelectDistinct(s: seq<nat>, S: set<nat>, keep: bool)
    requires Distinct(s)
    ensures Distinct(Select(s, S, keep))
  {
    if s != [] {
      SelectDistinct(s[1..], S, keep);
      SelectMembers(s[1..], S, keep);
      assert s[0] !in s[1..];
    }
  }

  /**
    The components of the range `r[0..k]` that the scan of the source-connected set
    collects: the source `r[0]`, and then each later component with an edge into what
    has been collected so far.
   */
  ghost function SourceConnected(r: seq<nat>, k: nat, g: map<nat, set<nat>>): set<nat>
    requires 1 <= k <= |r|
  {
    if k == 1 then {r[0]}
    else
      var c := SourceConnected(r, k - 1, g);
      if r[k - 1] in g && g[r[k - 1]] * c != {} then c + {r[k - 1]} else c
  }

  lemma {:induction false} SourceConnectedMono(r: seq<nat>, k: nat, n: nat, g: map<nat, set<nat>>)
    requires 1 <= k <= n <= |r|
    ensures SourceConnected(r, k, g) <= SourceConnected(r, n, g)
    decreases n
  {
    if k < n {
      SourceConnectedMono(r, k, n - 1, g);
    }
  }

  /** What the scan collects after step `k` are components of `r[k..n]`. */
  lemma {:induction false} SourceConnectedGrowth(r: seq<nat>, k: nat, n: nat, g: map<nat, set<nat>>)
    requires 1 <= k <= n <= |r|
    ensures forall x :: x in SourceConnected(r, n, g) ==> x in SourceConnected(r, k, g) || x in r[k..n]
    decreases n
  {
    if k < n {
      SourceConnectedGrowth(r, k, n - 1, g);
      assert forall x :: x in r[k..n - 1] ==> x in r[k..n];
      assert r[n - 1] in r[k..n];
    }
  }

  /** Everything the scan collects reaches the source. */
  lemma {:induction false} SourceConnectedReaches(r: seq<nat>, k: nat, g: map<nat, set<nat>>)
    requires 1 <= k <= |r|
    ensures r[0] in SourceConnected(r, k, g)
    ensures forall x :: x in SourceConnected(r, k, g) ==> Reaches(g, x, r[0])
    ensures forall x :: x in SourceConnected(r, k, g) ==> x in r[..k]
  {
    if k == 1 {
      ReachesRefl(g, r[0]);
    } else {
      SourceConnectedReaches(r, k - 1, g);
      var c := SourceConnected(r, k - 1, g);
      var x := r[k - 1];
      if x in g && g[x] * c != {} {
        var y :| y in g[x] * c;
        ReachesPrepend(g, x, y, r[0]);
      }
      assert forall z :: z in r[..k - 1] ==> z in r[..k];
    }
  }

  /**
    In a distinct range that is in postorder, an entry with an edge into the
    source-connected set belongs to it.
   */
  lemma EdgeIntoSourceConnected(r: seq<nat>, i: nat, j: nat, g: map<nat, set<nat>>)
    requires Distinct(r) && NoForwardEdge(r, g) && i < |r| && j < |r|
    requires r[j] in SourceConnected(r, |r|, g) && r[i] in g && r[j] in g[r[i]]
    ensures r[i] in SourceConnected(r, |r|, g)
  {
    var n := |r|;
    if i < j {
      assert false;
    } else if j < i {
      SourceConnectedGrowth(r, j + 1, n, g);
      assert r[j] !in r[j + 1..n];
      SourceConnectedMono(r, j + 1, i, g);
      assert r[j] in g[r[i]] * SourceConnected(r, i, g);
      SourceConnectedMono(r, i + 1, n, g);
    }
  }

  /**
    In a distinct range that is in postorder, no component outside the source-connected
    set has an edge into it: moving the set after the rest keeps the postorder.
   */
  lemma SourceConnectedNoEdgeIn(r: seq<nat>, g: map<nat, set<nat>>)
    requires |r| > 0 && Distinct(r) && NoForwardEdge(r, g)
    ensures var S := SourceConnected(r, |r|, g);
      NoEdgeAcross(Select(r, S, false), Select(r, S, true), g)
  {
    var S := SourceConnected(r, |r|, g);
    SelectMembers(r, S, false);
    SelectMembers(r, S, true);
    forall x, y | x in r && y in S && x in g && y in g[x] && y in r ensures x in S {
      var i :| 0 <= i < |r| && r[i] == x;
      var j :| 0 <= j < |r| && r[j] == y;
      EdgeIntoSourceConnected(r, i, j, g);
    }
  }

  /**
    Computes the components of `sccs[s..t]` (inclusive) that reach `sccs[s]` by the scan
    of the source-connected set: each component after the source is added when one of
    its edges leads into the set collected so far.
   */
  method ComputeSourceConnectedSet(sccs: seq<nat>, s: nat, t: nat, g: map<nat, set<nat>>)
    returns (connected: set<nat>)
    requires s <= t < |sccs|
    requires forall i :: s <= i <= t ==> sccs[i] in g
    ensures var r := sccs[s..t + 1]; connected == SourceConnected(r, |r|, g)
  {
    ghost var r := sccs[s..t + 1];
    connected := {sccs[s]};
    var i := s + 1;
    while i < t + 1
      invariant s + 1 <= i <= t + 1
      invariant connected == SourceConnected(r, i - s, g)
    {
      assert r[i - s] == sccs[i];
      if g[sccs[i]] * connected != {} {
        connected := connected + {sccs[i]};
      }
      i := i + 1;
    }
  }

  /** The edges of `g` that stay inside `allowed`. */
  ghost function Restrict(g: map<nat, set<nat>>, allowed: set<nat>): (h: map<nat, set<nat>>)
    ensures h.Keys == g.Keys
    ensures forall x :: x in h ==> h[x] <= g[x]
  {
    map x | x in g :: g[x] * allowed
  }

  /** The components after position `s` of the sequence that `idx` indexes. */
  ghost function After(idx: map<nat, nat>, s: nat): set<nat>
  {
    set d | d in idx && idx[d] > s
  }

  /**
    The inner loop of the target-connected search: every successor of the popped
    component that is indexed after position `s` and was not yet collected is collected
    and pushed on the worklist.
   */
  method CollectSuccessors(succs: set<nat>, idx: map<nat, nat>, s: nat,
                           connected: set<nat>, worklist: seq<nat>)
    returns (connected': set<nat>, worklist': seq<nat>)
    ensures connected' == connected + succs * After(idx, s)
    ensures forall x :: x in worklist' ==> x in worklist || x in connected' - connected
    ensures forall x :: x in connected' - connected ==> x in worklist'
    ensures forall x :: x in worklist ==> x in worklist'
    ensures connected' == connected ==> worklist' == worklist
  {
    connected', worklist' := connected, worklist;
    var rest := succs;
    while rest != {}
      invariant rest <= succs
      invariant connected' == connected + (succs - rest) * After(idx, s)
      invariant forall x :: x in worklist' ==> x in worklist || x in connected' - connected
      invariant forall x :: x in connected' - connected ==> x in worklist'
      invariant forall x :: x in worklist ==> x in worklist'
      invariant connected' == connected ==> worklist' == worklist
      decreases rest
    {
      var d :| d in rest;
      rest := rest - {d};
      if d in idx && idx[d] > s && d !in connected' {
        connected' := connected' + {d};
        worklist' := worklist' + [d];
      }
    }
  }

  /**
    Computes by a worklist search the components that `tgt` reaches along edges that
    stay among the components indexed after position `s`.
   */
  method ComputeTargetConnectedSet(tgt: nat, g: map<nat, set<nat>>, idx: map<nat, nat>, s: nat)
    returns (connected: set<nat>)
    requires tgt in g
    requires forall d :: d in idx ==> d in g
    ensures forall x :: x in connected <==> Reaches(Restrict(g, After(idx, s)), tgt, x)
  {
    ghost var h := Restrict(g, After(idx, s));
    ghost var bound := After(idx, s) + {tgt};
    connected := {tgt};
    var worklist := [tgt];
    ReachesRefl(h, tgt);
    while worklist != []
      invariant tgt in connected && connected <= bound
      invariant forall x :: x in worklist ==> x in connected
      invariant forall x :: x in connected ==> Reaches(h, tgt, x)
      invariant forall x :: x in connected && x !in worklist ==> x in h && h[x] <= connected
      decreases bound - connected, |worklist|
    {
      var c := worklist[|worklist| - 1];
      ghost var pushed := worklist;
      worklist := worklist[..|worklist| - 1];
      assert pushed == worklist + [c];
      ghost var before := connected;
      ghost var popped := worklist;
      connected, worklist := CollectSuccessors(g[c], idx, s, connected, worklist);
      assert h[c] == g[c] * After(idx, s);
      forall x | x in connected - before ensures Reaches(h, tgt, x) {
        ReachesStep(h, tgt, c, x);
      }
      forall x | x in connected && x !in worklist ensures x in h && h[x] <= connected {
        if x != c {
          assert x in before && x !in pushed;
        }
      }
      if before != connected {
        var w :| w in connected - before;
        assert w in bound - before && w !in bound - connected;
      }
    }
    assert Closed(h, connected);
    forall x | Reaches(h, tgt, x) ensures x in connected {
      ClosedKeepsReach(h, connected, tgt, x);
    }
  }

  /** Two distinct sequences with no entry in common are distinct side by side. */
  lemma ConcatDistinct(a: seq<nat>, b: seq<nat>)
    requires Distinct(a) && Distinct(b) && forall x :: x in a ==> x !in b
    ensures Distinct(a + b)
  {
    forall i, j | 0 <= i < j < |a + b| ensures (a + b)[i] != (a + b)[j] {
      if i < |a| && j >= |a| {
        assert (a + b)[i] == a[i] && (a + b)[j] == b[j - |a|];
        assert a[i] in a;
      } else if i < |a| {
        assert (a + b)[i] == a[i] && (a + b)[j] == a[j];
      } else {
        assert (a + b)[i] == b[i - |a|] && (a + b)[j] == b[j - |a|];
      }
    }
  }

  /** A stable partition of a distinct sequence is a distinct rearrangement of it. */
  lemma PartitionFacts(r: seq<nat>, X: set<nat>, first: bool)
    requires Distinct(r)
    ensures Distinct(StablePartition(r, X, first))
    ensures forall x :: x in StablePartition(r, X, first) <==> x in r
  {
    var a, b := Select(r, X, first), Select(r, X, !first);
    SelectMembers(r, X, first);
    SelectMembers(r, X, !first);
    SelectDistinct(r, X, first);
    SelectDistinct(r, X, !first);
    ConcatDistinct(a, b);
  }

  /** Replacing a range by a postorder arrangement of the same entries keeps the postorder. */
  lemma ReplaceRangeKeepsNoForwardEdge(pre: seq<nat>, r: seq<nat>, p: seq<nat>, post: seq<nat>,
                                       g: map<nat, set<nat>>)
    requires NoForwardEdge(pre + r + post, g)
    requires forall x :: x in p <==> x in r
    requires NoForwardEdge(p, g)
    ensures NoForwardEdge(pre + p + post, g)
  {
    NoForwardEdgeConcat(pre + r, post, g);
    NoForwardEdgeConcat(pre, r, g);
    NoForwardEdgeConcat(pre, p, g);
    assert forall x :: x in r ==> x in pre + r;
    assert forall x :: x in pre + p ==> x in pre || x in p;
    assert forall x :: x in pre ==> x in pre + r;
    NoForwardEdgeConcat(pre + p, post, g);
  }

  lemma SliceDistinct(s: seq<nat>, lo: nat, hi: nat)
    requires Distinct(s) && lo <= hi <= |s|
    ensures Distinct(s[lo..hi])
  {
    forall i, j | 0 <= i < j < hi - lo ensures s[lo..hi][i] != s[lo..hi][j] {
      assert s[lo..hi][i] == s[lo + i] && s[lo..hi][j] == s[lo + j];
    }
  }

  /** `after` differs from `before` at most in the positions `lo..hi`. */
  ghost predicate SameOutside(before: seq<nat>, after: seq<nat>, lo: nat, hi: nat)
  {
    |before| == |after| && forall i :: 0 <= i < |after| && !(lo <= i < hi) ==> after[i] == before[i]
  }

  /** The positions `lo..hi` of both sequences hold the same entries. */
  ghost predicate SameEntries(before: seq<nat>, after: seq<nat>, lo: nat, hi: nat)
    requires lo <= hi <= |before| && hi <= |after|
  {
    forall x :: x in after[lo..hi] <==> x in before[lo..hi]
  }

  /**
    `idx'` is `idx` with each entry of `s[lo..hi]` sent to a position of the range that
    holds it, and nothing else changed.
   */
  ghost predicate RangeReindexed(s: seq<nat>, idx: map<nat, nat>, idx': map<nat, nat>, lo: nat, hi: nat)
    requires lo <= hi <= |s|
  {
    && idx'.Keys == idx.Keys
    && (forall i :: lo <= i < hi ==>
          s[i] in idx' && lo <= idx'[s[i]] < hi && s[idx'[s[i]]] == s[i])
    && (forall x :: x in idx && (forall k :: lo <= k < hi ==> s[k] != x) ==> idx'[x] == idx[x])
  }

  /**
    Re-establishes the index map after a range of a sequence was rearranged: the
    entries of the range move to their new positions and all other entries keep theirs.
   */
  lemma PermutedRangeIndexed(before: seq<nat>, after: seq<nat>, idx: map<nat, nat>,
                             idx': map<nat, nat>, lo: nat, hi: nat)
    requires Indexed(before, idx)
    requires lo <= hi <= |before| && SameOutside(before, after, lo, hi)
    requires SameEntries(before, after, lo, hi)
    requires forall i, j :: lo <= i < j < hi ==> after[i] != after[j]
    requires RangeReindexed(after, idx, idx', lo, hi)
    ensures Indexed(after, idx')
  {
    PermutedRangePositions(before, after, idx, idx', lo, hi);
    PermutedRangeKeys(before, after, idx, idx', lo, hi);
  }

  lemma PermutedRangePositions(before: seq<nat>, after: seq<nat>, idx: map<nat, nat>,
                               idx': map<nat, nat>, lo: nat, hi: nat)
    requires Indexed(before, idx)
    requires lo <= hi <= |before| && SameOutside(before, after, lo, hi)
    requires SameEntries(before, after, lo, hi)
    requires forall i, j :: lo <= i < j < hi ==> after[i] != after[j]
    requires RangeReindexed(after, idx, idx', lo, hi)
    ensures forall i :: 0 <= i < |after| ==> after[i] in idx' && idx'[after[i]] == i
  {
    forall i | 0 <= i < |after| ensures after[i] in idx' && idx'[after[i]] == i {
      if i < lo || i >= hi {
        assert after[i] == before[i];
        forall k | lo <= k < hi ensures after[k] != after[i] {
          assert after[k] == after[lo..hi][k - lo];
          assert after[k] in before[lo..hi];
          var m :| 0 <= m < hi - lo && before[lo..hi][m] == after[k];
          assert before[lo + m] == after[k];
        }
      } else {
        var j := idx'[after[i]];
        assert after[j] == after[i];
      }
    }
  }

  lemma PermutedRangeKeys(before: seq<nat>, after: seq<nat>, idx: map<nat, nat>,
                          idx': map<nat, nat>, lo: nat, hi: nat)
    requires Indexed(before, idx)
    requires lo <= hi <= |before| && SameOutside(before, after, lo, hi)
    requires SameEntries(before, after, lo, hi)
    requires idx'.Keys == idx.Keys
    requires forall i :: 0 <= i < |after| ==> after[i] in idx' && idx'[after[i]] == i
    ensures forall x :: x in idx' ==> idx'[x] < |after| && after[idx'[x]] == x
  {
    forall x | x in idx' ensures idx'[x] < |after| && after[idx'[x]] == x {
      var k := idx[x];
      assert before[k] == x;
      if lo <= k < hi {
        assert before[k] == before[lo..hi][k - lo];
        assert before[k] in after[lo..hi];
        var m :| 0 <= m < hi - lo && after[lo..hi][m] == before[k];
        assert after[lo + m] == before[k];
      } else {
        assert after[k] == x;
      }
      var m :| 0 <= m < |after| && after[m] == x;
    }
  }

  /**
    Writes the positions `lo..hi` of `s` into the index map, one entry at a time.  Each
    entry of the range ends at a position of the range that holds it, at or after every
    position holding it (the last one wins); the entries outside the range keep their
    index.
   */
  method ReindexRange(s: seq<nat>, idx: map<nat, nat>, lo: nat, hi: nat) returns (idx': map<nat, nat>)
    requires lo <= hi <= |s|
    requires forall i :: lo <= i < hi ==> s[i] in idx
    ensures RangeReindexed(s, idx, idx', lo, hi)
    ensures forall i :: lo <= i < hi ==> i <= idx'[s[i]]
  {
    idx' := idx;
    var i := lo;
    while i < hi
      invariant lo <= i <= hi
      invariant idx'.Keys == idx.Keys
      invariant forall k :: lo <= k < i ==>
        s[k] in idx' && k <= idx'[s[k]] < i && s[idx'[s[k]]] == s[k]
      invariant forall x :: x in idx && (forall k :: lo <= k < i ==> s[k] != x) ==> idx'[x] == idx[x]
    {
      idx' := idx'[s[i] := i];
      i := i + 1;
    }
  }

  lemma SplitAt(s: seq<nat>, lo: nat, hi: nat)
    requires lo <= hi <= |s|
    ensures s == s[..lo] + s[lo..hi] + s[hi..]
  {
  }

  /**
    `std::stable_partition` of the range `lo..hi` of a sequence: the range is rewritten
    as its stable partition and nothing outside it changes.
   */
  function PartitionRange(s: seq<nat>, lo: nat, hi: nat, X: set<nat>, first: bool): (r: seq<nat>)
    requires lo <= hi <= |s|
    ensures |r| == |s|
  {
    var p := StablePartition(s[lo..hi], X, first);
    StablePartitionPermutes(s[lo..hi], X, first);
    seq(|s|, i requires 0 <= i < |s| => if lo <= i < hi then p[i - lo] else s[i])
  }

  /** Partitioning a range leaves the rest alone and puts the partition in the range. */
  lemma PartitionRangeShape(s: seq<nat>, lo: nat, hi: nat, X: set<nat>, first: bool)
    requires lo <= hi <= |s|
    ensures SameOutside(s, PartitionRange(s, lo, hi, X, first), lo, hi)
    ensures PartitionRange(s, lo, hi, X, first)[lo..hi] == StablePartition(s[lo..hi], X, first)
  {
    var p := StablePartition(s[lo..hi], X, first);
    StablePartitionPermutes(s[lo..hi], X, first);
    assert PartitionRange(s, lo, hi, X, first)[lo..hi] == p;
  }

  /** Rewriting a range as its stable partition permutes the sequence. */
  lemma PartitionedPermutes(sccs: seq<nat>, sccs': seq<nat>, lo: nat, hi: nat, X: set<nat>, first: bool)
    requires lo <= hi <= |sccs| && SameOutside(sccs, sccs', lo, hi)
    requires sccs'[lo..hi] == StablePartition(sccs[lo..hi], X, first)
    ensures multiset(sccs') == multiset(sccs)
  {
    SplitAt(sccs, lo, hi);
    SplitAt(sccs', lo, hi);
    assert sccs'[..lo] == sccs[..lo];
    assert sccs'[hi..] == sccs[hi..];
    StablePartitionPermutes(sccs[lo..hi], X, first);
  }

  /** Rewriting a range as its stable partition keeps the entries of the range. */
  lemma PartitionedSameEntries(sccs: seq<nat>, sccs': seq<nat>, lo: nat, hi: nat, X: set<nat>, first: bool)
    requires lo <= hi <= |sccs| && SameOutside(sccs, sccs', lo, hi)
    requires sccs'[lo..hi] == StablePartition(sccs[lo..hi], X, first)
    ensures SameEntries(sccs, sccs', lo, hi)
  {
    SelectMembers(sccs[lo..hi], X, first);
    SelectMembers(sccs[lo..hi], X, !first);
  }

  /** Rewriting a range of a distinct sequence as its stable partition keeps its entries. */
  lemma PartitionedEntries(sccs: seq<nat>, sccs': seq<nat>, lo: nat, hi: nat, X: set<nat>, first: bool)
    requires Distinct(sccs)
    requires lo <= hi <= |sccs| && SameOutside(sccs, sccs', lo, hi)
    requires sccs'[lo..hi] == StablePartition(sccs[lo..hi], X, first)
    ensures SameEntries(sccs, sccs', lo, hi)
    ensures forall i, j :: lo <= i < j < hi ==> sccs'[i] != sccs'[j]
  {
    SliceDistinct(sccs, lo, hi);
    PartitionFacts(sccs[lo..hi], X, first);
    var q := sccs'[lo..hi];
    forall i, j | lo <= i < j < hi ensures sccs'[i] != sccs'[j] {
      assert sccs'[i] == q[i - lo] && sccs'[j] == q[j - lo];
    }
  }

  /** Where rewriting a range as its stable partition puts the groups and the two ends. */
  lemma PartitionedPositions(sccs: seq<nat>, sccs': seq<nat>, lo: nat, hi: nat, X: set<nat>,
                             first: bool, pivot: nat)
    requires lo <= hi <= |sccs| && SameOutside(sccs, sccs', lo, hi)
    requires sccs'[lo..hi] == StablePartition(sccs[lo..hi], X, first)
    requires pivot == lo + |Select(sccs[lo..hi], X, first)|
    ensures lo <= pivot <= hi
    ensures forall i :: lo <= i < pivot ==> (sccs'[i] in X) == first
    ensures forall i :: pivot <= i < hi ==> (sccs'[i] in X) != first
    ensures lo < hi && (sccs[lo] in X) != first ==> pivot < hi && sccs'[pivot] == sccs[lo]
    ensures lo < hi && (sccs[hi - 1] in X) == first ==> lo < pivot && sccs'[pivot - 1] == sccs[hi - 1]
    ensures lo < hi && (sccs[hi - 1] in X) != first ==> sccs'[hi - 1] == sccs[hi - 1]
  {
    PartitionedGroupsAt(sccs, sccs', lo, hi, X, first, pivot);
    if lo < hi {
      PartitionedEndsAt(sccs, sccs', lo, hi, X, first, pivot);
    }
  }

  /** Rewriting a range as its stable partition puts the group of `first` membership in front. */
  lemma PartitionedGroupsAt(sccs: seq<nat>, sccs': seq<nat>, lo: nat, hi: nat, X: set<nat>,
                            first: bool, pivot: nat)
    requires lo <= hi <= |sccs| && |sccs'| == |sccs|
    requires sccs'[lo..hi] == StablePartition(sccs[lo..hi], X, first)
    requires pivot == lo + |Select(sccs[lo..hi], X, first)|
    ensures lo <= pivot <= hi
    ensures forall i :: lo <= i < pivot ==> (sccs'[i] in X) == first
    ensures forall i :: pivot <= i < hi ==> (sccs'[i] in X) != first
  {
    var r := sccs[lo..hi];
    var a, b := Select(r, X, first), Select(r, X, !first);
    var q := sccs'[lo..hi];
    assert q == a + b;
    PartitionGroups(r, X, first, a, b);
    forall i | lo <= i < hi ensures sccs'[i] == q[i - lo] {
    }
  }

  /** Where rewriting a nonempty range as its stable partition puts the two ends of the range. */
  lemma PartitionedEndsAt(sccs: seq<nat>, sccs': seq<nat>, lo: nat, hi: nat, X: set<nat>,
                          first: bool, pivot: nat)
    requires lo < hi <= |sccs| && |sccs'| == |sccs|
    requires sccs'[lo..hi] == StablePartition(sccs[lo..hi], X, first)
    requires pivot == lo + |Select(sccs[lo..hi], X, first)|
    ensures (sccs[lo] in X) != first ==> pivot < hi && sccs'[pivot] == sccs[lo]
    ensures (sccs[hi - 1] in X) == first ==> lo < pivot && sccs'[pivot - 1] == sccs[hi - 1]
    ensures (sccs[hi - 1] in X) != first ==> sccs'[hi - 1] == sccs[hi - 1]
  {
    var r := sccs[lo..hi];
    var a, b := Select(r, X, first), Select(r, X, !first);
    PartitionEnds(r, X, first, a, b);
    assert r[0] == sccs[lo] && r[|r| - 1] == sccs[hi - 1];
    if (sccs[lo] in X) != first {
      PartitionedAt(sccs, sccs', lo, hi, a + b, |a|);
    }
    if (sccs[hi - 1] in X) == first {
      PartitionedAt(sccs, sccs', lo, hi, a + b, |a| - 1);
    } else {
      PartitionedAt(sccs, sccs', lo, hi, a + b, |a| + |b| - 1);
    }
  }

  /** An entry of a rewritten range, read at its place in the whole sequence. */
  lemma PartitionedAt(sccs: seq<nat>, sccs': seq<nat>, lo: nat, hi: nat, q: seq<nat>, k: nat)
    requires lo <= hi <= |sccs| && |sccs'| == |sccs| && sccs'[lo..hi] == q && k < |q|
    ensures lo + k < hi && sccs'[lo + k] == q[k]
  {
  }

  /** Rewriting a range as its stable partition keeps the postorder when no edge crosses back. */
  lemma PartitionedNoForwardEdge(sccs: seq<nat>, sccs': seq<nat>, lo: nat, hi: nat, X: set<nat>,
                                 first: bool, g: map<nat, set<nat>>)
    requires lo <= hi <= |sccs| && SameOutside(sccs, sccs', lo, hi)
    requires sccs'[lo..hi] == StablePartition(sccs[lo..hi], X, first)
    requires NoForwardEdge(sccs, g)
    requires NoEdgeAcross(Select(sccs[lo..hi], X, first), Select(sccs[lo..hi], X, !first), g)
    ensures NoForwardEdge(sccs', g)
  {
    var r := sccs[lo..hi];
    var a, b := Select(r, X, first), Select(r, X, !first);
    SplitAt(sccs, lo, hi);
    SplitAt(sccs', lo, hi);
    assert sccs'[..lo] == sccs[..lo];
    assert sccs'[hi..] == sccs[hi..];
    SelectKeepsNoForwardEdge(r, X, first, g);
    SelectKeepsNoForwardEdge(r, X, !first, g);
    NoForwardEdgeConcat(a, b, g);
    SelectMembers(r, X, first);
    SelectMembers(r, X, !first);
    ReplaceRangeKeepsNoForwardEdge(sccs[..lo], r, a + b, sccs[hi..], g);
  }

  /** In a stable partition the first group is exactly the entries with membership `first`. */
  lemma PartitionGroups(r: seq<nat>, X: set<nat>, first: bool, a: seq<nat>, b: seq<nat>)
    requires a == Select(r, X, first) && b == Select(r, X, !first)
    ensures forall i :: 0 <= i < |a| + |b| ==> (i < |a| <==> ((a + b)[i] in X) == first)
  {
    SelectMembers(r, X, first);
    SelectMembers(r, X, !first);
    forall i | 0 <= i < |a| + |b| ensures (i < |a| <==> ((a + b)[i] in X) == first) {
      if i < |a| {
        assert (a + b)[i] == a[i] && a[i] in a;
      } else {
        assert (a + b)[i] == b[i - |a|] && b[i - |a|] in b;
      }
    }
  }

  /** A stable partition keeps the first entry first in its group, and the last one last. */
  lemma PartitionEnds(r: seq<nat>, X: set<nat>, first: bool, a: seq<nat>, b: seq<nat>)
    requires |r| > 0 && a == Select(r, X, first) && b == Select(r, X, !first)
    ensures (r[0] in X) != first ==> |b| > 0 && (a + b)[|a|] == r[0]
    ensures (r[|r| - 1] in X) == first ==> |a| > 0 && (a + b)[|a| - 1] == r[|r| - 1]
    ensures (r[|r| - 1] in X) != first ==> |b| > 0 && (a + b)[|a| + |b| - 1] == r[|r| - 1]
  {
    if (r[0] in X) != first {
      SelectFirst(r, X, !first);
    }
    if (r[|r| - 1] in X) == first {
      SelectLast(r, X, first);
    } else {
      SelectLast(r, X, !first);
    }
  }

  /** The component graph with one more edge, from `a` to `b`. */
  ghost function AddEdge(g: map<nat, set<nat>>, a: nat, b: nat): map<nat, set<nat>>
  {
    g[a := (if a in g then g[a] else {}) + {b}]
  }

  /** An edge to the same or an earlier position cannot break the postorder. */
  lemma EdgeBackKeepsNoForwardEdge(s: seq<nat>, g: map<nat, set<nat>>, i: nat, j: nat)
    requires NoForwardEdge(s, g) && Distinct(s)
    requires j <= i < |s|
    ensures NoForwardEdge(s, AddEdge(g, s[i], s[j]))
  {
    var h := AddEdge(g, s[i], s[j]);
    forall a, b | 0 <= a < b < |s| && s[a] in h ensures s[b] !in h[s[a]] {
      if s[a] == s[i] {
        assert a == i;
      }
    }
  }

  /** An edge from a component outside the sequence cannot break its postorder. */
  lemma EdgeFromOutsideKeepsNoForwardEdge(s: seq<nat>, g: map<nat, set<nat>>, a: nat, b: nat)
    requires NoForwardEdge(s, g) && a !in s
    ensures NoForwardEdge(s, AddEdge(g, a, b))
  {
    var h := AddEdge(g, a, b);
    forall i, j | 0 <= i < j < |s| && s[i] in h ensures s[j] !in h[s[i]] {
      assert s[i] != a;
    }
  }

  /**
    An edge keeps the postorder unless it runs from an entry to a later one: it may leave
    the sequence, enter it from outside, or point to the same or an earlier position.
   */
  lemma AddEdgeKeepsNoForwardEdge(s: seq<nat>, idx: map<nat, nat>, g: map<nat, set<nat>>, a: nat, b: nat)
    requires Indexed(s, idx) && NoForwardEdge(s, g)
    requires a in idx && b in idx ==> idx[b] <= idx[a]
    ensures NoForwardEdge(s, AddEdge(g, a, b))
  {
    if a !in idx {
      EdgeFromOutsideKeepsNoForwardEdge(s, g, a, b);
    } else if b !in idx {
      var h := AddEdge(g, a, b);
      forall i, j | 0 <= i < j < |s| && s[i] in h ensures s[j] !in h[s[i]] {
        assert s[j] != b;
      }
    } else {
      IndexedDistinct(s, idx);
      EdgeBackKeepsNoForwardEdge(s, g, idx[a], idx[b]);
    }
  }

  /** Among the entries of `s`, `h` has no edge that `g` lacks. */
  ghost predicate FewerEdgesAmong(s: seq<nat>, h: map<nat, set<nat>>, g: map<nat, set<nat>>)
  {
    forall i, j :: 0 <= i < |s| && 0 <= j < |s| && s[i] in h && s[j] in h[s[i]] ==>
      s[i] in g && s[j] in g[s[i]]
  }

  /** Dropping edges keeps the postorder. */
  lemma FewerEdgesKeepNoForwardEdge(s: seq<nat>, h: map<nat, set<nat>>, g: map<nat, set<nat>>)
    requires NoForwardEdge(s, g) && FewerEdgesAmong(s, h, g)
    ensures NoForwardEdge(s, h)
  {
  }

  /**
    The loop that follows each `std::stable_partition` of the range `lo..hi`: it writes
    the new position of every entry of the range into the index map, which then
    indexes the partitioned sequence.
   */
  method ReindexPartitioned(sccs: seq<nat>, sccs': seq<nat>, idx: map<nat, nat>, lo: nat, hi: nat,
                            X: set<nat>, first: bool)
    returns (idx': map<nat, nat>)
    requires Indexed(sccs, idx) && lo <= hi <= |sccs|
    requires sccs' == PartitionRange(sccs, lo, hi, X, first)
    ensures Indexed(sccs', idx') && idx'.Keys == idx.Keys
  {
    PartitionRangeShape(sccs, lo, hi, X, first);
    IndexedDistinct(sccs, idx);
    PartitionedEntries(sccs, sccs', lo, hi, X, first);
    forall i | lo <= i < hi ensures sccs'[i] in idx {
      assert sccs'[i] in sccs'[lo..hi];
      var m :| 0 <= m < hi - lo && sccs[lo..hi][m] == sccs'[i];
      assert sccs[lo + m] == sccs'[i];
    }
    idx' := ReindexRange(sccs', idx, lo, hi);
    PermutedRangeIndexed(sccs, sccs', idx, idx', lo, hi);
  }

  /** A range rewritten with the same distinct entries keeps a sequence distinct. */
  lemma SameEntriesDistinct(before: seq<nat>, after: seq<nat>, lo: nat, hi: nat)
    requires Distinct(before) && lo <= hi <= |before| && SameOutside(before, after, lo, hi)
    requires SameEntries(before, after, lo, hi)
    requires forall i, j :: lo <= i < j < hi ==> after[i] != after[j]
    ensures Distinct(after)
  {
    forall i, j | 0 <= i < j < |after| ensures after[i] != after[j] {
      if lo <= i < hi && !(lo <= j < hi) {
        assert after[i] in after[lo..hi];
        var m :| 0 <= m < hi - lo && before[lo..hi][m] == after[i];
        assert before[lo + m] == after[i];
      } else if lo <= j < hi && !(lo <= i < hi) {
        assert after[j] in after[lo..hi];
        var m :| 0 <= m < hi - lo && before[lo..hi][m] == after[j];
        assert before[lo + m] == after[j];
      }
    }
  }

  lemma SliceNoForwardEdge(s: seq<nat>, lo: nat, hi: nat, g: map<nat, set<nat>>)
    requires NoForwardEdge(s, g) && lo <= hi <= |s|
    ensures NoForwardEdge(s[lo..hi], g)
  {
    forall i, j | 0 <= i < j < hi - lo && s[lo..hi][i] in g ensures s[lo..hi][j] !in g[s[lo..hi][i]] {
      assert s[lo..hi][i] == s[lo + i] && s[lo..hi][j] == s[lo + j];
    }
  }

  /** The components at positions `k` and later of `s`. */
  ghost function PositionsFrom(s: seq<nat>, k: nat): set<nat>
  {
    set i | k <= i < |s| :: s[i]
  }

  /** For an indexed sequence, the components indexed after `k` are those after position `k`. */
  lemma AfterIsPositionsFrom(s: seq<nat>, idx: map<nat, nat>, k: nat)
    requires Indexed(s, idx)
    ensures After(idx, k) == PositionsFrom(s, k + 1)
  {
    forall x | x in PositionsFrom(s, k + 1) ensures x in After(idx, k) {
      var i :| k + 1 <= i < |s| && s[i] == x;
    }
  }

  /**
    Once a range starting at `lo` is rearranged, the components after position `lo` are
    those from `lo` on, except the one now at `lo`.
   */
  lemma PermutedRangeFrom(before: seq<nat>, after: seq<nat>, lo: nat, hi: nat)
    requires lo < hi <= |before| && SameOutside(before, after, lo, hi)
    requires SameEntries(before, after, lo, hi) && Distinct(after)
    ensures PositionsFrom(after, lo + 1) == PositionsFrom(before, lo) - {after[lo]}
  {
    forall x | x in PositionsFrom(after, lo + 1)
      ensures x in PositionsFrom(before, lo) && x != after[lo]
    {
      var i :| lo + 1 <= i < |after| && after[i] == x;
      if i >= hi {
        assert before[i] == x;
      } else {
        assert after[lo..hi][i - lo] == x;
        assert x in after[lo..hi];
        var m :| 0 <= m < hi - lo && before[lo..hi][m] == x;
        assert before[lo + m] == x;
      }
    }
    forall x | x in PositionsFrom(before, lo) && x != after[lo]
      ensures x in PositionsFrom(after, lo + 1)
    {
      var i :| lo <= i < |before| && before[i] == x;
      if i >= hi {
        assert after[i] == x;
      } else {
        assert before[lo..hi][i - lo] == x;
        assert x in before[lo..hi];
        var m :| 0 <= m < hi - lo && after[lo..hi][m] == x;
        assert after[lo + m] == x;
      }
    }
  }

  /** The components `tgt` reaches along edges that stay among the components of `A`. */
  ghost function TargetConnected(tgt: nat, g: map<nat, set<nat>>, A: set<nat>): set<nat>
  {
    set x | x in A + {tgt} && Reaches(Restrict(g, A), tgt, x)
  }

  /** A set holding exactly what the restricted search reaches is the target-connected set. */
  lemma TargetConnectedIsSearch(tgt: nat, g: map<nat, set<nat>>, A: set<nat>, c: set<nat>)
    requires forall x :: x in c <==> Reaches(Restrict(g, A), tgt, x)
    ensures c == TargetConnected(tgt, g, A)
  {
    var h := Restrict(g, A);
    assert Closed(h, A + {tgt});
    forall x | x in c ensures x in A + {tgt} {
      ClosedKeepsReach(h, A + {tgt}, tgt, x);
    }
  }

  /** The components of the closed range `sccs[s..t]` that the first scan connects to the source. */
  ghost function SourceSet(sccs: seq<nat>, s: nat, t: nat, g: map<nat, set<nat>>): set<nat>
    requires s <= t < |sccs|
  {
    var r := sccs[s..t + 1];
    SourceConnected(r, |r|, g)
  }

  /**
    The sequence after the first partition of the closed range from `s` to `t`: the
    components outside `S` move to the front, those in `S` to the back.
   */
  ghost function FirstPass(sccs: seq<nat>, s: nat, t: nat, S: set<nat>): seq<nat>
    requires s <= t < |sccs|
  {
    PartitionRange(sccs, s, t + 1, S, false)
  }

  /** Where the components of `S` start after the first partition. */
  ghost function SourcePos(sccs: seq<nat>, s: nat, t: nat, S: set<nat>): nat
    requires s <= t < |sccs|
  {
    s + |Select(sccs[s..t + 1], S, false)|
  }

  /**
    The components the first partition leaves after the position the source had: all
    those from that position on, except the one the partition puts there.
   */
  ghost function AfterSource(sccs: seq<nat>, s: nat, t: nat, S: set<nat>): set<nat>
    requires s <= t < |sccs|
  {
    PositionsFrom(sccs, s) - {FirstPass(sccs, s, t, S)[s]}
  }

  /** What the target reaches through the components after the source's old position. */
  ghost function TargetSet(sccs: seq<nat>, s: nat, t: nat, g: map<nat, set<nat>>, S: set<nat>): set<nat>
    requires s <= t < |sccs|
  {
    TargetConnected(sccs[t], g, AfterSource(sccs, s, t, S))
  }

  /**
    The sequence after the second partition, of the range after the start of `S` up to
    `t`: the components in `T` move to the front.
   */
  ghost function SecondPass(sccs: seq<nat>, s: nat, t: nat, S: set<nat>, T: set<nat>): seq<nat>
    requires s <= t < |sccs| && SourcePos(sccs, s, t, S) < t
  {
    PartitionRange(FirstPass(sccs, s, t, S), SourcePos(sccs, s, t, S) + 1, t + 1, T, true)
  }

  /** The last position of the components of `T` after the second partition. */
  ghost function TargetPos(sccs: seq<nat>, s: nat, t: nat, S: set<nat>, T: set<nat>): nat
    requires s <= t < |sccs| && SourcePos(sccs, s, t, S) < t
  {
    var p := SourcePos(sccs, s, t, S);
    p + |Select(FirstPass(sccs, s, t, S)[p + 1..t + 1], T, true)|
  }

  /**
    A repaired postorder sequence and the range of it to merge into the target: the
    positions from `begin` up to, but excluding, the target's position `end`.
   */
  datatype Repaired = Repaired(sccs: seq<nat>, begin: nat, end: nat)

  /**
    The repair of the postorder sequence `sccs` for a new edge from the component at
    position `s` to the later one at position `t`.  When the target is not connected
    to the source, the result is the first partition with an empty range at the target,
    just before the source.  Otherwise the range starts at the source; when something
    lies strictly between source and target, the second partition moves what the
    target reaches to the front of that part, and the range runs up to the target.
   */
  ghost function Repair(sccs: seq<nat>, s: nat, t: nat, g: map<nat, set<nat>>): Repaired
    requires s < t < |sccs|
  {
    var S := SourceSet(sccs, s, t, g);
    var p := SourcePos(sccs, s, t, S);
    if sccs[t] !in S then
      TargetBeforeSource(sccs, s, t, S);
      Repaired(FirstPass(sccs, s, t, S), p - 1, p - 1)
    else if p + 1 < t then
      var T := TargetSet(sccs, s, t, g, S);
      Repaired(SecondPass(sccs, s, t, S, T), p, TargetPos(sccs, s, t, S, T))
    else
      Repaired(FirstPass(sccs, s, t, S), p, t)
  }

  /** A target outside `S` ends in front of the components of `S`. */
  lemma TargetBeforeSource(sccs: seq<nat>, s: nat, t: nat, S: set<nat>)
    requires s <= t < |sccs| && sccs[t] !in S
    ensures SourcePos(sccs, s, t, S) > s
  {
    var r := sccs[s..t + 1];
    SelectLast(r, S, false);
  }

  /** Partitioning a range permutes the sequence and leaves everything outside the range alone. */
  lemma PartitionRangePermutes(s: seq<nat>, r: seq<nat>, lo: nat, hi: nat, X: set<nat>, first: bool)
    requires lo <= hi <= |s| && r == PartitionRange(s, lo, hi, X, first)
    ensures SameOutside(s, r, lo, hi) && multiset(r) == multiset(s)
  {
    PartitionRangeShape(s, lo, hi, X, first);
    PartitionedPermutes(s, r, lo, hi, X, first);
  }

  /** Partitioning a range of a distinct sequence keeps it distinct. */
  lemma PartitionRangeDistinct(s: seq<nat>, r: seq<nat>, lo: nat, hi: nat, X: set<nat>, first: bool)
    requires Distinct(s) && lo <= hi <= |s| && r == PartitionRange(s, lo, hi, X, first)
    ensures Distinct(r)
  {
    PartitionRangeShape(s, lo, hi, X, first);
    PartitionedEntries(s, r, lo, hi, X, first);
    SameEntriesDistinct(s, r, lo, hi);
  }

  /** Partitioning a range of a distinct sequence keeps the entries of the range. */
  lemma PartitionRangeFacts(s: seq<nat>, r: seq<nat>, lo: nat, hi: nat, X: set<nat>, first: bool)
    requires Distinct(s) && lo <= hi <= |s| && r == PartitionRange(s, lo, hi, X, first)
    ensures SameOutside(s, r, lo, hi) && SameEntries(s, r, lo, hi) && Distinct(r)
  {
    PartitionRangeShape(s, lo, hi, X, first);
    PartitionedEntries(s, r, lo, hi, X, first);
    SameEntriesDistinct(s, r, lo, hi);
  }

  /** Partitioning a range keeps the postorder when no edge crosses back between the groups. */
  lemma PartitionRangeOrder(s: seq<nat>, r: seq<nat>, lo: nat, hi: nat, X: set<nat>, first: bool,
                            g: map<nat, set<nat>>)
    requires lo <= hi <= |s| && r == PartitionRange(s, lo, hi, X, first) && NoForwardEdge(s, g)
    requires NoEdgeAcross(Select(s[lo..hi], X, first), Select(s[lo..hi], X, !first), g)
    ensures NoForwardEdge(r, g)
  {
    PartitionRangeShape(s, lo, hi, X, first);
    PartitionedNoForwardEdge(s, r, lo, hi, X, first, g);
  }

  /** Where partitioning a range puts the two groups and the ends of the range. */
  lemma PartitionRangePositions(s: seq<nat>, lo: nat, hi: nat, X: set<nat>, first: bool)
    requires lo <= hi <= |s|
    ensures var r, pivot := PartitionRange(s, lo, hi, X, first), lo + |Select(s[lo..hi], X, first)|;
      && lo <= pivot <= hi
      && (forall i :: lo <= i < pivot ==> (r[i] in X) == first)
      && (forall i :: pivot <= i < hi ==> (r[i] in X) != first)
      && (lo < hi && (s[lo] in X) != first ==> pivot < hi && r[pivot] == s[lo])
      && (lo < hi && (s[hi - 1] in X) == first ==> lo < pivot && r[pivot - 1] == s[hi - 1])
      && (lo < hi && (s[hi - 1] in X) != first ==> r[hi - 1] == s[hi - 1])
  {
    PartitionRangeShape(s, lo, hi, X, first);
    PartitionedPositions(s, PartitionRange(s, lo, hi, X, first), lo, hi, X, first,
                         lo + |Select(s[lo..hi], X, first)|);
  }

  /**
    Partitioning the range after position `p` up to `t` so that the members of `T` come
    first, when the entry at `t` is in `T`: the members of `T` then fill the positions
    after `p` up to `e`, ending with the old entry at `t`, and the entry at `p` stays.
   */
  lemma PartitionAfterEnds(f: seq<nat>, f2: seq<nat>, p: nat, e: nat, t: nat, T: set<nat>)
    requires p < t < |f| && f[t] in T
    requires f2 == PartitionRange(f, p + 1, t + 1, T, true)
    requires e == p + |Select(f[p + 1..t + 1], T, true)|
    ensures p < e <= t && f2[e] == f[t] && f2[p] == f[p]
    ensures forall k :: p < k <= e ==> f2[k] in T
  {
    var r := f[p + 1..t + 1];
    PartitionRangeShape(f, p + 1, t + 1, T, true);
    PartitionedPositions(f, f2, p + 1, t + 1, T, true, e + 1);
    assert r[|r| - 1] == f[t];
  }

  /** Partitioning the range after `p` up to `t` keeps a property every entry of it has. */
  lemma PartitionAfterMembers(f: seq<nat>, p: nat, t: nat, T: set<nat>, S: set<nat>)
    requires p < t < |f|
    requires forall i :: p < i <= t ==> f[i] in S
    ensures var f2 := PartitionRange(f, p + 1, t + 1, T, true);
      forall k :: p < k <= t ==> f2[k] in S
  {
    var f2 := PartitionRange(f, p + 1, t + 1, T, true);
    PartitionRangeShape(f, p + 1, t + 1, T, true);
    PartitionedSameEntries(f, f2, p + 1, t + 1, T, true);
    forall k | p < k <= t ensures f2[k] in S {
      assert f2[k] == f2[p + 1..t + 1][k - p - 1];
      assert f2[k] in f2[p + 1..t + 1];
      var m :| 0 <= m < t - p && f[p + 1..t + 1][m] == f2[k];
      assert f[p + 1 + m] == f2[k];
    }
  }

  /**
    No component the target reaches through the components after position `s` has an
    edge to a component of `f[p + 1..t + 1]` that it does not reach.
   */
  lemma TargetSetNoEdgeOut(f: seq<nat>, s: nat, p: nat, t: nat, tgt: nat, g: map<nat, set<nat>>,
                           T: set<nat>, A: set<nat>)
    requires s <= p < t < |f| && A == PositionsFrom(f, s + 1) && T == TargetConnected(tgt, g, A)
    ensures NoEdgeAcross(Select(f[p + 1..t + 1], T, true), Select(f[p + 1..t + 1], T, false), g)
  {
    var h := Restrict(g, A);
    var r2 := f[p + 1..t + 1];
    SelectMembers(r2, T, true);
    SelectMembers(r2, T, false);
    forall x, y | x in Select(r2, T, true) && y in Select(r2, T, false) && x in g
      ensures y !in g[x]
    {
      if y in g[x] {
        var m :| 0 <= m < |r2| && r2[m] == y;
        assert f[p + 1 + m] == y;
        assert y in A;
        ReachesStep(h, tgt, x, y);
      }
    }
  }

  /**
    Moving what `tgt` reaches through the components after position `s` to the front of
    the range after `p` keeps the postorder.
   */
  lemma TargetPartitionOrder(f: seq<nat>, f2: seq<nat>, s: nat, p: nat, t: nat, tgt: nat,
                             g: map<nat, set<nat>>, T: set<nat>, A: set<nat>)
    requires s <= p < t < |f| && NoForwardEdge(f, g)
    requires A == PositionsFrom(f, s + 1) && T == TargetConnected(tgt, g, A)
    requires f2 == PartitionRange(f, p + 1, t + 1, T, true)
    ensures NoForwardEdge(f2, g)
  {
    TargetSetNoEdgeOut(f, s, p, t, tgt, g, T, A);
    PartitionRangeOrder(f, f2, p + 1, t + 1, T, true, g);
  }

  /** The source-connected set holds the source, and everything in it reaches the source. */
  lemma SourceSetReaches(sccs: seq<nat>, s: nat, t: nat, g: map<nat, set<nat>>)
    requires s <= t < |sccs|
    ensures sccs[s] in SourceSet(sccs, s, t, g)
    ensures forall x :: x in SourceSet(sccs, s, t, g) ==> Reaches(g, x, sccs[s])
  {
    var r := sccs[s..t + 1];
    SourceConnectedReaches(r, |r|, g);
  }

  /** The first partition rearranges only the range from the source to the target. */
  lemma FirstPassShape(sccs: seq<nat>, s: nat, t: nat, S: set<nat>)
    requires s < t < |sccs|
    ensures SameOutside(sccs, FirstPass(sccs, s, t, S), s, t + 1)
    ensures multiset(FirstPass(sccs, s, t, S)) == multiset(sccs)
  {
    PartitionRangePermutes(sccs, FirstPass(sccs, s, t, S), s, t + 1, S, false);
  }

  /** The first partition keeps the sequence free of duplicates. */
  lemma FirstPassDistinct(sccs: seq<nat>, s: nat, t: nat, S: set<nat>)
    requires Distinct(sccs) && s < t < |sccs|
    ensures Distinct(FirstPass(sccs, s, t, S))
  {
    PartitionRangeDistinct(sccs, FirstPass(sccs, s, t, S), s, t + 1, S, false);
  }

  /**
    After the first partition the components of `S` fill the range from the source
    position to the target's old position, starting with the source at `sccs[s]`; a
    target outside `S` ends just before the source, a target in `S` stays in place.
   */
  lemma FirstPassGroups(sccs: seq<nat>, s: nat, t: nat, S: set<nat>)
    requires Distinct(sccs) && s < t < |sccs| && sccs[s] in S
    ensures var f, p := FirstPass(sccs, s, t, S), SourcePos(sccs, s, t, S);
      && s <= p <= t && f[p] == sccs[s]
      && (forall i :: p <= i <= t ==> f[i] in S)
      && (forall i :: s <= i < p ==> f[i] !in S)
      && (sccs[t] !in S ==> s < p && f[p - 1] == sccs[t])
      && (sccs[t] in S ==> p < t && f[t] == sccs[t])
  {
    var r := sccs[s..t + 1];
    var f := FirstPass(sccs, s, t, S);
    PartitionRangeShape(sccs, s, t + 1, S, false);
    assert r[0] == sccs[s] && r[|r| - 1] == sccs[t];
    PartitionedPositions(sccs, f, s, t + 1, S, false, SourcePos(sccs, s, t, S));
  }

  /** The components after the source's old position once the first partition is done. */
  lemma FirstPassAfterSource(sccs: seq<nat>, s: nat, t: nat, S: set<nat>)
    requires Distinct(sccs) && s < t < |sccs|
    ensures PositionsFrom(FirstPass(sccs, s, t, S), s + 1) == AfterSource(sccs, s, t, S)
  {
    PartitionRangeFacts(sccs, FirstPass(sccs, s, t, S), s, t + 1, S, false);
    PermutedRangeFrom(sccs, FirstPass(sccs, s, t, S), s, t + 1);
  }

  /** The first partition keeps the postorder. */
  lemma FirstPassOrder(sccs: seq<nat>, s: nat, t: nat, g: map<nat, set<nat>>)
    requires Distinct(sccs) && s < t < |sccs| && NoForwardEdge(sccs, g)
    ensures NoForwardEdge(FirstPass(sccs, s, t, SourceSet(sccs, s, t, g)), g)
  {
    var r := sccs[s..t + 1];
    SliceDistinct(sccs, s, t + 1);
    SliceNoForwardEdge(sccs, s, t + 1, g);
    SourceConnectedNoEdgeIn(r, g);
    var S := SourceSet(sccs, s, t, g);
    PartitionRangeOrder(sccs, FirstPass(sccs, s, t, S), s, t + 1, S, false, g);
  }

  /**
    When the target is outside `S`, an edge from the source to the target keeps the
    first partition in postorder: the target now sits just before the source.
   */
  lemma FirstPassNewEdge(sccs: seq<nat>, s: nat, t: nat, g: map<nat, set<nat>>, S: set<nat>)
    requires Distinct(sccs) && s < t < |sccs| && sccs[s] in S && sccs[t] !in S
    requires NoForwardEdge(FirstPass(sccs, s, t, S), g)
    ensures NoForwardEdge(FirstPass(sccs, s, t, S), AddEdge(g, sccs[s], sccs[t]))
  {
    FirstPassDistinct(sccs, s, t, S);
    FirstPassGroups(sccs, s, t, S);
    EdgeBackKeepsNoForwardEdge(FirstPass(sccs, s, t, S), g, SourcePos(sccs, s, t, S), SourcePos(sccs, s, t, S) - 1);
  }

  /** The second partition rearranges only the range after the source. */
  lemma SecondPassShape(sccs: seq<nat>, s: nat, t: nat, S: set<nat>, T: set<nat>)
    requires s < t < |sccs| && SourcePos(sccs, s, t, S) < t
    ensures SameOutside(FirstPass(sccs, s, t, S), SecondPass(sccs, s, t, S, T), SourcePos(sccs, s, t, S) + 1, t + 1)
    ensures multiset(SecondPass(sccs, s, t, S, T)) == multiset(FirstPass(sccs, s, t, S))
  {
    PartitionRangePermutes(FirstPass(sccs, s, t, S), SecondPass(sccs, s, t, S, T), SourcePos(sccs, s, t, S) + 1,
                        t + 1, T, true);
  }

  /** The second partition keeps the sequence free of duplicates. */
  lemma SecondPassDistinct(sccs: seq<nat>, s: nat, t: nat, S: set<nat>, T: set<nat>)
    requires s < t < |sccs| && SourcePos(sccs, s, t, S) < t
    requires Distinct(FirstPass(sccs, s, t, S))
    ensures Distinct(SecondPass(sccs, s, t, S, T))
  {
    PartitionRangeDistinct(FirstPass(sccs, s, t, S), SecondPass(sccs, s, t, S, T), SourcePos(sccs, s, t, S) + 1,
                        t + 1, T, true);
  }

  /** The target reaches every component of the target-connected set, itself included. */
  lemma TargetSetReaches(sccs: seq<nat>, s: nat, t: nat, g: map<nat, set<nat>>, S: set<nat>)
    requires s <= t < |sccs|
    ensures sccs[t] in TargetSet(sccs, s, t, g, S)
    ensures forall x :: x in TargetSet(sccs, s, t, g, S) ==> Reaches(g, sccs[t], x)
  {
    var h := Restrict(g, AfterSource(sccs, s, t, S));
    ReachesRefl(h, sccs[t]);
    forall x | x in TargetSet(sccs, s, t, g, S) ensures Reaches(g, sccs[t], x) {
      SubgraphReaches(h, g, sccs[t], x);
    }
  }

  /**
    After the second partition the target ends the group of the components of `T`,
    which starts right after the source.
   */
  lemma SecondPassEnds(sccs: seq<nat>, s: nat, t: nat, S: set<nat>, T: set<nat>)
    requires Distinct(sccs) && s < t < |sccs| && sccs[s] in S && sccs[t] in S && sccs[t] in T
    requires SourcePos(sccs, s, t, S) + 1 < t
    ensures var f2, p, e := SecondPass(sccs, s, t, S, T), SourcePos(sccs, s, t, S), TargetPos(sccs, s, t, S, T);
      && p < e <= t && f2[e] == sccs[t] && f2[p] == sccs[s]
      && (forall k :: p < k <= e ==> f2[k] in T)
  {
    FirstPassGroups(sccs, s, t, S);
    PartitionAfterEnds(FirstPass(sccs, s, t, S), SecondPass(sccs, s, t, S, T), SourcePos(sccs, s, t, S),
                       TargetPos(sccs, s, t, S, T), t, T);
  }

  /** After the second partition everything after the source up to the target is in `S`. */
  lemma SecondPassInSource(sccs: seq<nat>, s: nat, t: nat, S: set<nat>, T: set<nat>)
    requires Distinct(sccs) && s < t < |sccs| && sccs[s] in S && SourcePos(sccs, s, t, S) < t
    ensures forall k :: SourcePos(sccs, s, t, S) < k <= t ==> SecondPass(sccs, s, t, S, T)[k] in S
  {
    FirstPassGroups(sccs, s, t, S);
    PartitionAfterMembers(FirstPass(sccs, s, t, S), SourcePos(sccs, s, t, S), t, T, S);
  }

  /** The second partition keeps the postorder: nothing the target reaches has an edge to the rest. */
  lemma SecondPassOrder(sccs: seq<nat>, s: nat, t: nat, g: map<nat, set<nat>>, S: set<nat>)
    requires Distinct(sccs) && s < t < |sccs| && SourcePos(sccs, s, t, S) < t
    requires NoForwardEdge(FirstPass(sccs, s, t, S), g)
    ensures NoForwardEdge(SecondPass(sccs, s, t, S, TargetSet(sccs, s, t, g, S)), g)
  {
    FirstPassAfterSource(sccs, s, t, S);
    TargetPartitionOrder(FirstPass(sccs, s, t, S), SecondPass(sccs, s, t, S, TargetSet(sccs, s, t, g, S)),
                         s, SourcePos(sccs, s, t, S), t, sccs[t], g, TargetSet(sccs, s, t, g, S),
                         AfterSource(sccs, s, t, S));
  }

  /** The repair only rearranges the closed range from the source to the target, and permutes it. */
  lemma RepairPermutes(sccs: seq<nat>, s: nat, t: nat, g: map<nat, set<nat>>)
    requires s < t < |sccs|
    ensures SameOutside(sccs, Repair(sccs, s, t, g).sccs, s, t + 1)
    ensures multiset(Repair(sccs, s, t, g).sccs) == multiset(sccs)
  {
    var S := SourceSet(sccs, s, t, g);
    FirstPassShape(sccs, s, t, S);
    if sccs[t] in S && SourcePos(sccs, s, t, S) + 1 < t {
      SecondPassShape(sccs, s, t, S, TargetSet(sccs, s, t, g, S));
    }
  }

  /** The repaired sequence is still free of duplicates. */
  lemma RepairDistinct(sccs: seq<nat>, s: nat, t: nat, g: map<nat, set<nat>>)
    requires Distinct(sccs) && s < t < |sccs|
    ensures Distinct(Repair(sccs, s, t, g).sccs)
  {
    var S := SourceSet(sccs, s, t, g);
    FirstPassDistinct(sccs, s, t, S);
    if sccs[t] in S && SourcePos(sccs, s, t, S) + 1 < t {
      SecondPassDistinct(sccs, s, t, S, TargetSet(sccs, s, t, g, S));
    }
  }

  /**
    The range to merge lies between the old positions of source and target and is
    followed by the target; it is empty exactly when the target is not
    source-connected, and then the target sits just before the source.
   */
  lemma RepairRange(sccs: seq<nat>, s: nat, t: nat, g: map<nat, set<nat>>)
    requires Distinct(sccs) && s < t < |sccs|
    ensures var r := Repair(sccs, s, t, g);
      && |r.sccs| == |sccs| && s <= r.begin <= r.end <= t && r.sccs[r.end] == sccs[t]
      && (r.begin == r.end <==> sccs[t] !in SourceSet(sccs, s, t, g))
      && (r.begin == r.end ==> r.end < t && r.sccs[r.end + 1] == sccs[s])
      && (r.begin < r.end ==> r.sccs[r.begin] == sccs[s])
  {
    var S := SourceSet(sccs, s, t, g);
    SourceSetReaches(sccs, s, t, g);
    FirstPassGroups(sccs, s, t, S);
    if sccs[t] in S && SourcePos(sccs, s, t, S) + 1 < t {
      TargetSetReaches(sccs, s, t, g, S);
      SecondPassEnds(sccs, s, t, S, TargetSet(sccs, s, t, g, S));
    }
  }

  /**
    Every component of the range to merge reaches the source and is reached from the
    target: with the new edge from source to target they all lie on one cycle.
   */
  lemma RepairCycle(sccs: seq<nat>, s: nat, t: nat, g: map<nat, set<nat>>)
    requires Distinct(sccs) && s < t < |sccs|
    ensures var r := Repair(sccs, s, t, g);
      r.begin < r.end ==> forall k :: r.begin <= k <= r.end && k < |r.sccs| ==>
        Reaches(g, r.sccs[k], sccs[s]) && Reaches(g, sccs[t], r.sccs[k])
  {
    var S := SourceSet(sccs, s, t, g);
    var p := SourcePos(sccs, s, t, S);
    if sccs[t] !in S {
    } else if p + 1 < t {
      SecondPassCycle(sccs, s, t, g, S, TargetSet(sccs, s, t, g, S));
    } else {
      FirstPassCycle(sccs, s, t, g, S);
    }
  }

  /** With nothing between source and target after the first partition, the two form the cycle. */
  lemma FirstPassCycle(sccs: seq<nat>, s: nat, t: nat, g: map<nat, set<nat>>, S: set<nat>)
    requires Distinct(sccs) && s < t < |sccs| && S == SourceSet(sccs, s, t, g) && sccs[t] in S
    requires SourcePos(sccs, s, t, S) + 1 >= t
    ensures var f, p := FirstPass(sccs, s, t, S), SourcePos(sccs, s, t, S);
      forall k :: p <= k <= t ==> Reaches(g, f[k], sccs[s]) && Reaches(g, sccs[t], f[k])
  {
    var f, p := FirstPass(sccs, s, t, S), SourcePos(sccs, s, t, S);
    SourceSetReaches(sccs, s, t, g);
    FirstPassGroups(sccs, s, t, S);
    ReachesRefl(g, sccs[t]);
    ReachesRefl(g, sccs[s]);
  }

  /** The merged range after the second partition: the source and what the target reaches. */
  lemma SecondPassCycle(sccs: seq<nat>, s: nat, t: nat, g: map<nat, set<nat>>, S: set<nat>, T: set<nat>)
    requires Distinct(sccs) && s < t < |sccs| && S == SourceSet(sccs, s, t, g) && sccs[t] in S
    requires SourcePos(sccs, s, t, S) + 1 < t && T == TargetSet(sccs, s, t, g, S)
    ensures var f2, p, e := SecondPass(sccs, s, t, S, T), SourcePos(sccs, s, t, S), TargetPos(sccs, s, t, S, T);
      forall k :: p <= k <= e && k < |f2| ==> Reaches(g, f2[k], sccs[s]) && Reaches(g, sccs[t], f2[k])
  {
    var f2, p, e := SecondPass(sccs, s, t, S, T), SourcePos(sccs, s, t, S), TargetPos(sccs, s, t, S, T);
    SourceSetReaches(sccs, s, t, g);
    TargetSetReaches(sccs, s, t, g, S);
    SecondPassEnds(sccs, s, t, S, T);
    SecondPassInSource(sccs, s, t, S, T);
    ReachesRefl(g, sccs[s]);
    forall k | p <= k <= e && k < |f2| ensures Reaches(g, f2[k], sccs[s]) && Reaches(g, sccs[t], f2[k]) {
      if k > p {
        assert f2[k] in T && f2[k] in S;
      }
    }
  }

  /** The repair keeps the postorder. */
  lemma RepairOrder(sccs: seq<nat>, s: nat, t: nat, g: map<nat, set<nat>>)
    requires Distinct(sccs) && s < t < |sccs| && NoForwardEdge(sccs, g)
    ensures NoForwardEdge(Repair(sccs, s, t, g).sccs, g)
  {
    var S := SourceSet(sccs, s, t, g);
    FirstPassOrder(sccs, s, t, g);
    if sccs[t] in S && SourcePos(sccs, s, t, S) + 1 < t {
      SecondPassOrder(sccs, s, t, g, S);
    }
  }

  /**
    With an empty range to merge the new edge from source to target can be inserted
    as it is: the repaired sequence is in postorder for the graph that has the edge.
   */
  lemma RepairNewEdge(sccs: seq<nat>, s: nat, t: nat, g: map<nat, set<nat>>)
    requires Distinct(sccs) && s < t < |sccs| && NoForwardEdge(sccs, g)
    requires Repair(sccs, s, t, g).begin == Repair(sccs, s, t, g).end
    ensures NoForwardEdge(Repair(sccs, s, t, g).sccs, AddEdge(g, sccs[s], sccs[t]))
  {
    var S := SourceSet(sccs, s, t, g);
    RepairRange(sccs, s, t, g);
    SourceSetReaches(sccs, s, t, g);
    FirstPassOrder(sccs, s, t, g);
    FirstPassNewEdge(sccs, s, t, g, S);
  }

  /**
    The first stage of the repair: computes the source-connected set of the closed range
    from position `s` to position `t`, and partitions the range so that the components
    outside it come first, writing the new positions into the index map.
   */
  method PartitionSourceConnected(sccs: seq<nat>, idx: map<nat, nat>, s: nat, t: nat,
                                  g: map<nat, set<nat>>)
    returns (sccs1: seq<nat>, idx1: map<nat, nat>, connected: set<nat>, sourceI: nat)
    requires Indexed(sccs, idx) && s < t < |sccs|
    requires forall i :: 0 <= i < |sccs| ==> sccs[i] in g
    ensures connected == SourceSet(sccs, s, t, g)
    ensures sccs1 == FirstPass(sccs, s, t, connected) && sourceI == SourcePos(sccs, s, t, connected)
    ensures Indexed(sccs1, idx1) && idx1.Keys == idx.Keys
  {
    connected := ComputeSourceConnectedSet(sccs, s, t, g);
    sccs1 := PartitionRange(sccs, s, t + 1, connected, false);
    sourceI := s + |Select(sccs[s..t + 1], connected, false)|;
    idx1 := ReindexPartitioned(sccs, sccs1, idx, s, t + 1, connected, false);
  }

  /**
    The search of the second stage: what the target at `t` reaches through the components
    the first partition placed after position `s`.
   */
  method SearchTargetConnected(sccs: seq<nat>, idx: map<nat, nat>, s: nat, t: nat,
                               g: map<nat, set<nat>>, S: set<nat>, sccs1: seq<nat>, idx1: map<nat, nat>)
    returns (tconn: set<nat>)
    requires Indexed(sccs, idx) && s < t < |sccs|
    requires forall i :: 0 <= i < |sccs| ==> sccs[i] in g
    requires sccs1 == FirstPass(sccs, s, t, S)
    requires Indexed(sccs1, idx1) && idx1.Keys == idx.Keys
    ensures tconn == TargetSet(sccs, s, t, g, S)
  {
    AfterIsPositionsFrom(sccs1, idx1, s);
    IndexedDistinct(sccs, idx);
    FirstPassAfterSource(sccs, s, t, S);
    forall d | d in idx1 ensures d in g {
      assert sccs[idx[d]] == d;
    }
    tconn := ComputeTargetConnectedSet(sccs[t], g, idx1, s);
    TargetConnectedIsSearch(sccs[t], g, AfterSource(sccs, s, t, S), tconn);
  }

  /**
    The second stage of the repair, run when the target at `t` is source-connected and
    something lies between the source at `p` and the target: partitions the range after
    the source so that the components `tconn` the target reaches come first.
   */
  method PartitionTargetConnected(sccs: seq<nat>, s: nat, t: nat, S: set<nat>, sccs1: seq<nat>,
                                  idx1: map<nat, nat>, p: nat, tconn: set<nat>)
    returns (sccs2: seq<nat>, idx2: map<nat, nat>, e: nat)
    requires s < t < |sccs|
    requires sccs1 == FirstPass(sccs, s, t, S) && p == SourcePos(sccs, s, t, S) && p + 1 < t
    requires Indexed(sccs1, idx1)
    ensures sccs2 == SecondPass(sccs, s, t, S, tconn) && e == TargetPos(sccs, s, t, S, tconn)
    ensures Indexed(sccs2, idx2)
  {
    SecondPassOf(sccs, s, t, S, tconn, sccs1, p);
    sccs2 := PartitionRange(sccs1, p + 1, t + 1, tconn, true);
    e := p + |Select(sccs1[p + 1..t + 1], tconn, true)|;
    idx2 := ReindexPartitioned(sccs1, sccs2, idx1, p + 1, t + 1, tconn, true);
  }

  /** The second partition and its pivot, in terms of the first partition's result. */
  lemma SecondPassOf(sccs: seq<nat>, s: nat, t: nat, S: set<nat>, T: set<nat>, sccs1: seq<nat>, p: nat)
    requires s < t < |sccs|
    requires sccs1 == FirstPass(sccs, s, t, S) && p == SourcePos(sccs, s, t, S) && p < t
    ensures |sccs1| == |sccs|
    ensures SecondPass(sccs, s, t, S, T) == PartitionRange(sccs1, p + 1, t + 1, T, true)
    ensures TargetPos(sccs, s, t, S, T) == p + |Select(sccs1[p + 1..t + 1], T, true)|
  {
  }

  /**
    Repairs the postorder sequence `sccs` (indexed by `idx`) of the components of `g`
    so that an edge from `src` to the later `tgt` can be inserted, and returns the
    range `b..e` (with `e` excluded) of components to merge into the target at `e`.
   */
  method UpdatePostorderSequenceForEdgeInsertion(src: nat, tgt: nat, sccs: seq<nat>,
                                                 idx: map<nat, nat>, g: map<nat, set<nat>>)
    returns (sccs': seq<nat>, idx': map<nat, nat>, b: nat, e: nat)
    requires Indexed(sccs, idx)
    requires src in idx && tgt in idx && idx[src] < idx[tgt]
    requires forall i :: 0 <= i < |sccs| ==> sccs[i] in g
    ensures Repair(sccs, idx[src], idx[tgt], g) == Repaired(sccs', b, e)
    ensures Indexed(sccs', idx')
  {
    var s := idx[src];
    var t := idx[tgt];
    var sccs1, idx1, connected, sourceI := PartitionSourceConnected(sccs, idx, s, t, g);
    if tgt !in connected {
      TargetBeforeSource(sccs, s, t, connected);
      return sccs1, idx1, sourceI - 1, sourceI - 1;
    }
    if sourceI + 1 < t {
      var tconn := SearchTargetConnected(sccs, idx, s, t, g, connected, sccs1, idx1);
      var sccs2, idx2, e2 := PartitionTargetConnected(sccs, s, t, connected, sccs1, idx1, sourceI, tconn);
      return sccs2, idx2, sourceI, e2;
    }
    return sccs1, idx1, sourceI, t;
  }

  /**
    Merging the range `b..e` of a postorder sequence into the component at `e` that
    follows it keeps the postorder of the merged graph `h`, provided `h` gains no edge
    among the remaining components except edges into the merged component from
    components with an edge into the range, and gives the merged component only the
    edges some component of the range had.
   */
  lemma MergeKeepsNoForwardEdge(s: seq<nat>, g: map<nat, set<nat>>, h: map<nat, set<nat>>, b: nat, e: nat)
    requires Distinct(s) && NoForwardEdge(s, g) && b < e < |s|
    requires forall i, j :: 0 <= i < |s| && 0 <= j < |s| && !(b <= i <= e) && s[i] in h && s[j] in h[s[i]] ==>
      (s[i] in g && s[j] in g[s[i]]) || (j == e && exists k :: b <= k <= e && s[i] in g && s[k] in g[s[i]])
    requires forall j :: 0 <= j < |s| && j != e && s[e] in h && s[j] in h[s[e]] ==>
      exists k :: b <= k <= e && s[k] in g && s[j] in g[s[k]]
    ensures NoForwardEdge(s[..b] + s[e..], h)
  {
    var q := s[..b] + s[e..];
    forall i, j | 0 <= i < j < |q| && q[i] in h ensures q[j] !in h[q[i]] {
      var pi := if i < b then i else i + (e - b);
      var pj := if j < b then j else j + (e - b);
      assert q[i] == s[pi] && q[j] == s[pj] && pi < pj;
      if pi == e {
        assert forall k :: b <= k <= e && s[k] in g ==> s[pj] !in g[s[k]];
      } else {
        assert !(s[pi] in g && s[pj] in g[s[pi]]);
        assert pj == e ==> forall k :: b <= k <= e && s[pi] in g ==> s[k] !in g[s[pi]];
      }
    }
  }

  /**
    In a postorder sequence, a walk that stays among its components never moves to a
    later position.
   */
  lemma {:induction false} PathNeverForward(s: seq<nat>, idx: map<nat, nat>, g: map<nat, set<nat>>, p: seq<nat>, k: nat)
    requires Indexed(s, idx) && NoForwardEdge(s, g)
    requires IsPath(Restrict(g, idx.Keys), p) && p[0] in idx && k < |p|
    ensures p[k] in idx && idx[p[k]] <= idx[p[0]]
  {
    if k > 0 {
      PathNeverForward(s, idx, g, p, k - 1);
      var h := Restrict(g, idx.Keys);
      PathStep(h, p, k - 1);
      assert p[k] in g[p[k - 1]] * idx.Keys;
      assert s[idx[p[k - 1]]] == p[k - 1] && s[idx[p[k]]] == p[k];
    }
  }

  /**
    A component reached from another through the components of a postorder sequence
    never comes later in it: an edge between them is no forward edge.
   */
  lemma ReachedNotLater(s: seq<nat>, idx: map<nat, nat>, g: map<nat, set<nat>>, a: nat, b: nat)
    requires Indexed(s, idx) && NoForwardEdge(s, g) && a in idx
    requires Reaches(Restrict(g, idx.Keys), a, b)
    ensures b in idx && idx[b] <= idx[a]
  {
    var h := Restrict(g, idx.Keys);
    var p :| IsPath(h, p) && p[0] == a && p[|p| - 1] == b;
    PathNeverForward(s, idx, g, p, |p| - 1);
  }

  /**
    The index map once the entries `removed`, which sat at positions `b..e`, are erased
    from the sequence: their entries go, and every later position moves down by the
    number erased.
   */
  ghost function Compact(idx: map<nat, nat>, removed: seq<nat>, b: nat, e: nat): (idx': map<nat, nat>)
    requires b <= e
    ensures idx'.Keys == idx.Keys - set x | x in removed
  {
    map x | x in idx && x !in removed :: if idx[x] >= e then idx[x] - (e - b) else idx[x]
  }

  /** Erasing a range of an indexed sequence and compacting its index map keeps them in step. */
  lemma CompactIndexed(s: seq<nat>, idx: map<nat, nat>, b: nat, e: nat)
    requires Indexed(s, idx) && b <= e <= |s|
    ensures Indexed(s[..b] + s[e..], Compact(idx, s[b..e], b, e))
  {
    var s' := s[..b] + s[e..];
    var idx' := Compact(idx, s[b..e], b, e);
    IndexedDistinct(s, idx);
    forall i | 0 <= i < |s'| ensures s'[i] in idx' && idx'[s'[i]] == i {
      var j := if i < b then i else i + (e - b);
      assert s'[i] == s[j];
      forall k | 0 <= k < e - b ensures s[b..e][k] != s[j] {
        assert s[b..e][k] == s[b + k];
      }
    }
    forall x | x in idx' ensures idx'[x] < |s'| && s'[idx'[x]] == x {
      var j := idx[x];
      assert j < b || e <= j by {
        assert forall k :: b <= k < e ==> s[b..e][k - b] == s[k];
      }
    }
  }

  /** Erasing a range keeps the postorder. */
  lemma EraseKeepsNoForwardEdge(s: seq<nat>, g: map<nat, set<nat>>, b: nat, e: nat)
    requires NoForwardEdge(s, g) && b <= e <= |s|
    ensures NoForwardEdge(s[..b] + s[e..], g)
  {
    var s' := s[..b] + s[e..];
    forall i, j | 0 <= i < j < |s'| && s'[i] in g ensures s'[j] !in g[s'[i]] {
      var i0 := if i < b then i else i + (e - b);
      var j0 := if j < b then j else j + (e - b);
      assert s'[i] == s[i0] && s'[j] == s[j0];
    }
  }

  /**
    A walk that stays within the closed range from `s` to `t` and ends at the source
    runs through source-connected components only: the scan misses nothing that
    reaches the source inside the range.
   */
  lemma {:induction false} PathIntoSourceSet(sccs: seq<nat>, s: nat, t: nat, g: map<nat, set<nat>>, p: seq<nat>, k: nat)
    requires Distinct(sccs) && NoForwardEdge(sccs, g) && s <= t < |sccs|
    requires IsPath(g, p) && p[|p| - 1] == sccs[s] && k < |p|
    requires forall m :: 0 <= m < |p| ==> p[m] in sccs[s..t + 1]
    ensures p[k] in SourceSet(sccs, s, t, g)
    decreases |p| - k
  {
    var r := sccs[s..t + 1];
    if k == |p| - 1 {
      SourceSetReaches(sccs, s, t, g);
    } else {
      PathIntoSourceSet(sccs, s, t, g, p, k + 1);
      SliceDistinct(sccs, s, t + 1);
      SliceNoForwardEdge(sccs, s, t + 1, g);
      PathStep(g, p, k);
      assert p[k] in r && p[k + 1] in r;
      var a :| 0 <= a < |r| && r[a] == p[k];
      var b :| 0 <= b < |r| && r[b] == p[k + 1];
      EdgeIntoSourceConnected(r, a, b, g);
    }
  }

  /** A walk through the entries of a postorder sequence stays between the positions of its ends. */
  lemma PathBetween(s: seq<nat>, idx: map<nat, nat>, g: map<nat, set<nat>>, p: seq<nat>, m: nat)
    requires Indexed(s, idx) && NoForwardEdge(s, g)
    requires IsPath(Restrict(g, idx.Keys), p) && p[0] in idx && m < |p|
    ensures p[m] in idx && p[|p| - 1] in idx && idx[p[|p| - 1]] <= idx[p[m]] <= idx[p[0]]
  {
    PathNeverForward(s, idx, g, p, m);
    PathSuffix(Restrict(g, idx.Keys), p, m);
    PathNeverForward(s, idx, g, p[m..], |p| - 1 - m);
    assert p[m..][|p| - 1 - m] == p[|p| - 1];
  }

  /**
    The scan is complete: when a walk through the entries of the sequence leads from
    position `t` to position `s`, the entry at `t` is source-connected for any graph
    `l` that agrees with `g` on the entries.
   */
  lemma LocalPathIntoSourceSet(sccs: seq<nat>, idx: map<nat, nat>, g: map<nat, set<nat>>, l: map<nat, set<nat>>,
                               s: nat, t: nat, p: seq<nat>)
    requires Indexed(sccs, idx) && NoForwardEdge(sccs, g) && NoForwardEdge(sccs, l) && s <= t < |sccs|
    requires forall c :: c in sccs && c in g ==> c in l && l[c] == g[c]
    requires IsPath(Restrict(g, idx.Keys), p) && p[0] == sccs[t] && p[|p| - 1] == sccs[s]
    ensures sccs[t] in SourceSet(sccs, s, t, l)
  {
    var h := Restrict(g, idx.Keys);
    forall m | 0 <= m < |p| ensures p[m] in sccs[s..t + 1] {
      PathBetween(sccs, idx, g, p, m);
      assert sccs[s..t + 1][idx[p[m]] - s] == sccs[idx[p[m]]];
    }
    forall m | 0 <= m < |p| - 1 ensures p[m] in l && p[m + 1] in l[p[m]] {
      PathStep(h, p, m);
      PathBetween(sccs, idx, g, p, m);
    }
    MakePath(l, p);
    IndexedDistinct(sccs, idx);
    PathIntoSourceSet(sccs, s, t, l, p, 0);
  }
}
