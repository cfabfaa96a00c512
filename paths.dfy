/**
  Reachability in a finite directed graph given as a successor map.  The component
  graphs of the call graph (SCCs linked by call edges, RefSCCs linked by any edge) are
  of this shape, and the ancestor queries are specified with it.
 */
module Paths {

  /**
    `p` is a walk along successor edges of `g`: each entry is followed by one of its
    successors.  Consecutive positions are named `i` and `j` so that one step of the
    walk does not, by itself, bring the next step into consideration.
   */
  ghost predicate IsPath(g: map<nat, set<nat>>, p: seq<nat>)
  {
    |p| > 0 && forall i, j {:trigger p[i], p[j]} :: 0 <= i && j == i + 1 && j < |p| ==> p[i] in g && p[j] in g[p[i]]
  }

  /** `b` can be reached from `a` in zero or more steps. */
  ghost predicate Reaches(g: map<nat, set<nat>>, a: nat, b: nat)
  {
    exists p :: IsPath(g, p) && p[0] == a && p[|p| - 1] == b
  }

  /** No successor edge leaves `s`. */
  ghost predicate Closed(g: map<nat, set<nat>>, s: set<nat>)
  {
    forall x :: x in s && x in g ==> g[x] <= s
  }

  /** One step of a walk. */
  lemma PathStep(g: map<nat, set<nat>>, p: seq<nat>, i: nat)
    requires IsPath(g, p) && i + 1 < |p|
    ensures p[i] in g && p[i + 1] in g[p[i]]
  {
  }

  /** A sequence whose every entry is followed by one of its successors is a walk. */
  lemma MakePath(g: map<nat, set<nat>>, p: seq<nat>)
    requires |p| > 0
    requires forall i :: 0 <= i < |p| - 1 ==> p[i] in g && p[i + 1] in g[p[i]]
    ensures IsPath(g, p)
  {
  }

  lemma ReachesRefl(g: map<nat, set<nat>>, a: nat)
    ensures Reaches(g, a, a)
  {
    assert IsPath(g, [a]);
  }

  /** A walk can be extended by one successor edge. */
  lemma ReachesStep(g: map<nat, set<nat>>, a: nat, b: nat, c: nat)
    requires Reaches(g, a, b) && b in g && c in g[b]
    ensures Reaches(g, a, c)
  {
    var p :| IsPath(g, p) && p[0] == a && p[|p| - 1] == b;
    var q := p + [c];
    forall i | 0 <= i < |q| - 1 ensures q[i] in g && q[i + 1] in g[q[i]] {
      if i + 1 < |p| {
        PathStep(g, p, i);
      }
    }
    MakePath(g, q);
  }

  /** A set that contains `a` and that no edge leaves contains everything `a` reaches. */
  lemma {:induction false} ClosedKeepsReach(g: map<nat, set<nat>>, s: set<nat>, a: nat, b: nat)
    requires a in s && Closed(g, s) && Reaches(g, a, b)
    ensures b in s
  {
    var p :| IsPath(g, p) && p[0] == a && p[|p| - 1] == b;
    PathStaysIn(g, s, p, |p| - 1);
  }

  lemma {:induction false} PathStaysIn(g: map<nat, set<nat>>, s: set<nat>, p: seq<nat>, k: nat)
    requires IsPath(g, p) && p[0] in s && Closed(g, s) && k < |p|
    ensures p[k] in s
  {
    if k > 0 {
      PathStaysIn(g, s, p, k - 1);
      PathStep(g, p, k - 1);
    }
  }

  /** A walk of one step or more starts with a successor of its first vertex. */
  lemma {:induction false} ReachesFirstStep(g: map<nat, set<nat>>, a: nat, b: nat)
    requires Reaches(g, a, b) && a != b
    ensures a in g && exists c :: c in g[a] && Reaches(g, c, b)
  {
    var p :| IsPath(g, p) && p[0] == a && p[|p| - 1] == b;
    PathStep(g, p, 0);
    var q := p[1..];
    forall i | 0 <= i < |q| - 1 ensures q[i] in g && q[i + 1] in g[q[i]] {
      PathStep(g, p, i + 1);
    }
    MakePath(g, q);
    assert q[0] == p[1] && q[|q| - 1] == b;
  }

  /** A walk can be started by one successor edge. */
  lemma ReachesPrepend(g: map<nat, set<nat>>, a: nat, c: nat, b: nat)
    requires a in g && c in g[a] && Reaches(g, c, b)
    ensures Reaches(g, a, b)
  {
    var p :| IsPath(g, p) && p[0] == c && p[|p| - 1] == b;
    var q := [a] + p;
    forall i | 0 <= i < |q| - 1 ensures q[i] in g && q[i + 1] in g[q[i]] {
      if i > 0 {
        PathStep(g, p, i - 1);
      }
    }
    MakePath(g, q);
  }

  /** Walks in a graph with fewer edges are walks in the larger graph. */
  lemma SubgraphReaches(h: map<nat, set<nat>>, g: map<nat, set<nat>>, a: nat, b: nat)
    requires forall x :: x in h ==> x in g && h[x] <= g[x]
    requires Reaches(h, a, b)
    ensures Reaches(g, a, b)
  {
    var p :| IsPath(h, p) && p[0] == a && p[|p| - 1] == b;
    forall i | 0 <= i < |p| - 1 ensures p[i] in g && p[i + 1] in g[p[i]] {
      PathStep(h, p, i);
    }
    MakePath(g, p);
  }

  /** What is left of a walk after its first `k` steps is a walk. */
  lemma PathSuffix(g: map<nat, set<nat>>, p: seq<nat>, k: nat)
    requires IsPath(g, p) && k < |p|
    ensures IsPath(g, p[k..])
  {
    var q := p[k..];
    forall i | 0 <= i < |q| - 1 ensures q[i] in g && q[i + 1] in g[q[i]] {
      PathStep(g, p, k + i);
    }
    MakePath(g, q);
  }
}
