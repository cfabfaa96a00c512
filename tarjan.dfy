/**
  The generic Tarjan walk the graph uses twice: over all edges to form the RefSCCs and,
  inside each RefSCC, over the call edges to form its SCCs.  The walk keeps an explicit
  DFS stack of (node, edge position) frames and a stack of finished nodes waiting for
  their component; a node whose low-link equals its DFS number closes a component made
  of it and the pending nodes numbered after it.

  The successors of each node are given as the sequence the edge iterator visits, and
  the DFS numbers and low-links, fields of the nodes, as two maps.
 */
module Tarjan {
  import opened Edges

  /** A frame of the DFS stack: a node and the position of the edge being walked. */
  datatype Frame = Frame(node: NodeId, slot: nat)

  /**
    The state of a walk: the DFS numbers and low-links of the nodes, the DFS stack, the
    pending nodes, the components formed so far and the next DFS number.
   */
  datatype Walk = Walk(dfs: map<NodeId, int>, low: map<NodeId, int>, stack: seq<Frame>,
                       pending: seq<NodeId>, groups: seq<seq<NodeId>>, next: int)

  /** The elements of `s` from last to first. */
  function Reversed(s: seq<NodeId>): (r: seq<NodeId>)
    ensures |r| == |s| && forall i :: 0 <= i < |s| ==> r[i] == s[|s| - 1 - i]
  {
    seq(|s|, i requires 0 <= i < |s| => s[|s| - 1 - i])
  }

  /** Reversing keeps the elements. */
  lemma ReversedMembers(s: seq<NodeId>, x: NodeId)
    ensures x in Reversed(s) <==> x in s
  {
    var r := Reversed(s);
    if x in s {
      var i :| 0 <= i < |s| && s[i] == x;
      assert r[|s| - 1 - i] == x;
    }
  }

  /** Every successor is a node of the walk. */
  ghost predicate Closed(succ: map<NodeId, seq<NodeId>>)
  {
    forall n, i :: n in succ && 0 <= i < |succ[n]| ==> succ[n][i] in succ
  }

  /** The two resting states of a node: not reached (0) or in a component (-1). */
  ghost predicate Resting(d: int, l: int)
  {
    (d == -1 && l == -1) || (d == 0 && l == 0)
  }

  /** Every node rests or is on the walk, with a low-link between 1 and its DFS number. */
  ghost predicate Numbered(succ: map<NodeId, seq<NodeId>>, w: Walk)
  {
    && KeysOk(succ, w)
    && (forall n :: n in succ ==> Resting(w.dfs[n], w.low[n]) || 1 <= w.low[n] <= w.dfs[n] < w.next)
  }

  /** The numbers of the nodes outside the walk are those it started with. */
  ghost predicate Untouched(succ: map<NodeId, seq<NodeId>>, d0: map<NodeId, int>, l0: map<NodeId, int>, w: Walk)
  {
    && w.dfs.Keys == d0.Keys && w.low.Keys == l0.Keys
    && (forall n :: n in d0 && n !in succ ==> w.dfs[n] == d0[n])
    && (forall n :: n in l0 && n !in succ ==> w.low[n] == l0[n])
  }

  /**
    Every node started unreached (0) or in a component (-1); a node is in a component of
    this walk exactly when it started unreached and now has DFS number -1; the nodes that
    started at -1 keep it.
   */
  ghost predicate Origin(succ: map<NodeId, seq<NodeId>>, d0: map<NodeId, int>, w: Walk, comp: map<NodeId, nat>)
    requires succ.Keys <= d0.Keys && succ.Keys <= w.dfs.Keys
  {
    && (forall n :: n in comp ==> n in succ && d0[n] == 0 && w.dfs[n] == -1)
    && (forall n :: n in succ ==> d0[n] == 0 || d0[n] == -1)
    && (forall n :: n in succ && d0[n] == -1 ==> w.dfs[n] == -1 && n !in comp)
    && (forall n :: n in succ && w.dfs[n] == -1 ==> d0[n] == -1 || n in comp)
  }

  /** The components are non-empty and `comp` gives the position of each node's one. */
  ghost predicate Grouped(groups: seq<seq<NodeId>>, comp: map<NodeId, nat>)
  {
    && (forall k :: 0 <= k < |groups| ==> |groups[k]| > 0)
    && (forall k, j :: 0 <= k < |groups| && 0 <= j < |groups[k]| ==> groups[k][j] in comp && comp[groups[k][j]] == k)
    && (forall n :: n in comp ==> comp[n] < |groups| && n in groups[comp[n]])
  }

  /**
    The components are formed in postorder: every successor of a node of a component is
    one the walk did not enter (it started at -1) or lies in the same or an earlier
    component.
   */
  ghost predicate Postordered(succ: map<NodeId, seq<NodeId>>, d0: map<NodeId, int>, comp: map<NodeId, nat>)
  {
    forall n, i :: n in comp && n in succ && 0 <= i < |succ[n]| ==>
      var t := succ[n][i];
      t in d0 && (d0[t] == -1 || (t in comp && comp[t] <= comp[n]))
  }

  /** Every node of the walk has a DFS number and a low-link. */
  ghost predicate KeysOk(succ: map<NodeId, seq<NodeId>>, w: Walk)
  {
    forall n :: n in succ ==> n in w.dfs && n in w.low
  }

  /**
    The facts the other invariants need to be well-formed while node `n` is being
    walked: the frames, the current node and the pending nodes are nodes of the walk, and
    each frame is at one of its node's edges.
   */
  ghost predicate WfBase(succ: map<NodeId, seq<NodeId>>, w: Walk, n: NodeId)
  {
    && Closed(succ) && KeysOk(succ, w) && n in succ
    && (forall k :: 0 <= k < |w.stack| ==> w.stack[k].node in succ && w.stack[k].slot < |succ[w.stack[k].node]|)
    && (forall j :: 0 <= j < |w.pending| ==> w.pending[j] in succ)
  }

  /** `WfBase`, with `i` one of the edge positions of `n` or its end. */
  ghost predicate Wf(succ: map<NodeId, seq<NodeId>>, w: Walk, n: NodeId, i: nat)
  {
    WfBase(succ, w, n) && i <= |succ[n]|
  }

  /** The node at the bottom of the DFS path, the root of the current walk. */
  ghost function Bottom(stack: seq<Frame>, n: NodeId): NodeId
  {
    if stack == [] then n else stack[0].node
  }

  /**
    The DFS path, the frames' nodes and then the current node `n`: each frame's edge
    leads to the next node of the path, and the DFS numbers rise along it from 1.
   */
  ghost predicate SpineOk(succ: map<NodeId, seq<NodeId>>, w: Walk, n: NodeId)
    requires WfBase(succ, w, n)
  {
    && w.dfs[n] > 0
    && (forall k :: 0 <= k < |w.stack| ==> 0 < w.dfs[w.stack[k].node] < w.dfs[n])
    && (forall a, b :: 0 <= a < b < |w.stack| ==> w.dfs[w.stack[a].node] < w.dfs[w.stack[b].node])
    && (forall a, b :: 0 <= a && b == a + 1 && b < |w.stack| ==>
          succ[w.stack[a].node][w.stack[a].slot] == w.stack[b].node)
    && (|w.stack| > 0 ==> succ[w.stack[|w.stack| - 1].node][w.stack[|w.stack| - 1].slot] == n)
    && w.dfs[Bottom(w.stack, n)] == 1
  }

  /** Some frame of the stack is at node `x`. */
  ghost predicate OnStack(stack: seq<Frame>, x: NodeId)
  {
    exists k :: 0 <= k < |stack| && stack[k].node == x
  }

  /** Once a pending node is numbered `d` or more, so are all pushed after it. */
  ghost predicate UpClosed(s: seq<NodeId>, dfs: map<NodeId, int>, d: int)
  {
    forall a, b :: 0 <= a < b < |s| && s[a] in dfs && s[b] in dfs && dfs[s[a]] >= d ==> dfs[s[b]] >= d
  }

  /**
    The pending nodes are on the walk with a low-link below their DFS number and off the
    DFS path; every node on the walk is pending or on the path; and above the number of
    each node of the path the pending nodes form a suffix.
   */
  ghost predicate PendingOk(succ: map<NodeId, seq<NodeId>>, w: Walk, n: NodeId)
    requires WfBase(succ, w, n)
  {
    var s := w.pending;
    && (forall j :: 0 <= j < |s| ==> 0 < w.dfs[s[j]] && w.low[s[j]] < w.dfs[s[j]] && s[j] != n)
    && (forall j, k :: 0 <= j < |s| && 0 <= k < |w.stack| ==> s[j] != w.stack[k].node)
    && (forall x :: x in succ && w.dfs[x] > 0 ==> x in s || x == n || OnStack(w.stack, x))
    && (forall k :: 0 <= k < |w.stack| ==> UpClosed(s, w.dfs, w.dfs[w.stack[k].node]))
    && UpClosed(s, w.dfs, w.dfs[n])
  }

  /**
    The pending node `p` lies below the child at position `i` of `n`, which is itself
    pending with a low-link no larger than `p`'s: the low-link of `n` still has to take
    that child into account.
   */
  ghost predicate Rescan(succ: map<NodeId, seq<NodeId>>, w: Walk, n: NodeId, i: nat, p: NodeId)
  {
    && n in succ && i < |succ[n]|
    && var c := succ[n][i];
    && c in w.pending && c in w.dfs && c in w.low && p in w.dfs && p in w.low
    && w.dfs[c] <= w.dfs[p] && w.low[c] <= w.low[p]
  }

  /**
    The low-link of each node of the path bounds those of the pending nodes numbered
    from it up to the next node of the path (with no upper bound for the current node,
    where the child being walked may still have to be taken into account).
   */
  ghost predicate Dominated(succ: map<NodeId, seq<NodeId>>, w: Walk, n: NodeId, i: nat)
    requires Wf(succ, w, n, i)
  {
    && (forall k, j ::
          (&& 0 <= k < |w.stack| && 0 <= j < |w.pending|
           && w.dfs[w.stack[k].node] <= w.dfs[w.pending[j]] < w.dfs[succ[w.stack[k].node][w.stack[k].slot]]) ==>
          w.low[w.stack[k].node] <= w.low[w.pending[j]])
    && (forall j :: 0 <= j < |w.pending| && w.dfs[n] <= w.dfs[w.pending[j]] ==>
          w.low[n] <= w.low[w.pending[j]] || Rescan(succ, w, n, i, w.pending[j]))
  }

  /** The successor `t` of `x` has been taken into account in `x`'s low-link. */
  ghost predicate Seen(w: Walk, x: NodeId, t: NodeId)
  {
    && t in w.dfs && x in w.low
    && (w.dfs[t] == -1 || (w.dfs[t] > 0 && w.low[x] <= w.dfs[t]))
  }

  /**
    The edges walked so far have been taken into account: all edges of the pending
    nodes, the edges before the walked one of each frame, and the first `i` edges of the
    current node.
   */
  ghost predicate Scanned(succ: map<NodeId, seq<NodeId>>, w: Walk, n: NodeId, i: nat)
    requires Wf(succ, w, n, i)
  {
    && (forall j, e :: 0 <= j < |w.pending| && 0 <= e < |succ[w.pending[j]]| ==>
          Seen(w, w.pending[j], succ[w.pending[j]][e]))
    && (forall k, e :: 0 <= k < |w.stack| && 0 <= e < w.stack[k].slot ==>
          Seen(w, w.stack[k].node, succ[w.stack[k].node][e]))
    && (forall e :: 0 <= e < i ==> Seen(w, n, succ[n][e]))
  }

  /** The facts that hold alike inside and between the walks from the roots. */
  ghost predicate Settled(succ: map<NodeId, seq<NodeId>>, d0: map<NodeId, int>, l0: map<NodeId, int>,
                          w: Walk, comp: map<NodeId, nat>)
  {
    && Closed(succ) && Numbered(succ, w) && Untouched(succ, d0, l0, w)
    && succ.Keys <= d0.Keys
    && Origin(succ, d0, w, comp) && Grouped(w.groups, comp) && Postordered(succ, d0, comp)
  }

  /** The invariant of the walk while node `n` is at its edge position `i`. */
  ghost predicate Core(succ: map<NodeId, seq<NodeId>>, d0: map<NodeId, int>, l0: map<NodeId, int>,
                       w: Walk, comp: map<NodeId, nat>, n: NodeId, i: nat)
  {
    && Settled(succ, d0, l0, w, comp) && Wf(succ, w, n, i) && SpineOk(succ, w, n)
    && PendingOk(succ, w, n) && Dominated(succ, w, n, i) && Scanned(succ, w, n, i)
  }

  /** The invariant between two walks: nothing on the walk, nothing pending. */
  ghost predicate Rest(succ: map<NodeId, seq<NodeId>>, d0: map<NodeId, int>, l0: map<NodeId, int>,
                       w: Walk, comp: map<NodeId, nat>)
  {
    && Settled(succ, d0, l0, w, comp)
    && w.stack == [] && w.pending == []
    && (forall n :: n in succ ==> w.dfs[n] <= 0)
  }

  /** The invariant at the top of the walk's loop: `Core` for the frame about to be popped. */
  ghost predicate Top(succ: map<NodeId, seq<NodeId>>, d0: map<NodeId, int>, l0: map<NodeId, int>,
                      w: Walk, comp: map<NodeId, nat>)
  {
    if w.stack == [] then Rest(succ, d0, l0, w, comp)
    else
      var m := |w.stack| - 1;
      Core(succ, d0, l0, w.(stack := w.stack[..m]), comp, w.stack[m].node, w.stack[m].slot)
  }

  /** The nodes the walk has not reached yet. */
  ghost function Zeros(succ: map<NodeId, seq<NodeId>>, w: Walk): set<NodeId>
  {
    set n | n in succ && n in w.dfs && w.dfs[n] == 0
  }

  /** A node reached stays reached, and one in a component stays there. */
  ghost predicate Kept(succ: map<NodeId, seq<NodeId>>, w: Walk, w': Walk)
  {
    forall n :: n in succ && n in w.dfs && w.dfs[n] != 0 ==>
      n in w'.dfs && w'.dfs[n] != 0 && (w.dfs[n] == -1 ==> w'.dfs[n] == -1)
  }

  // Walking past an edge to a node already in a component.

  /** Skipping an edge to a node in a component keeps the bounds on the low-link of `n`. */
  lemma SkipDominated(succ: map<NodeId, seq<NodeId>>, w: Walk, n: NodeId, i: nat)
    requires Wf(succ, w, n, i + 1) && Dominated(succ, w, n, i)
    requires w.dfs[succ[n][i]] == -1
    requires forall j :: 0 <= j < |w.pending| ==> 0 < w.dfs[w.pending[j]]
    ensures Dominated(succ, w, n, i + 1)
  {
    forall j | 0 <= j < |w.pending| && w.dfs[n] <= w.dfs[w.pending[j]]
      ensures w.low[n] <= w.low[w.pending[j]]
    {
    }
  }

  /** The walk goes on at the next edge when the child is in a component. */
  lemma SkipDone(succ: map<NodeId, seq<NodeId>>, d0: map<NodeId, int>, l0: map<NodeId, int>,
                 w: Walk, comp: map<NodeId, nat>, n: NodeId, i: nat)
    requires Core(succ, d0, l0, w, comp, n, i) && i < |succ[n]| && w.dfs[succ[n][i]] == -1
    ensures Core(succ, d0, l0, w, comp, n, i + 1)
  {
    SkipDominated(succ, w, n, i);
    SkipScanned(succ, w, n, i);
  }

  /** The edge skipped is taken into account: it leads to a node in a component. */
  lemma SkipScanned(succ: map<NodeId, seq<NodeId>>, w: Walk, n: NodeId, i: nat)
    requires Wf(succ, w, n, i + 1) && Scanned(succ, w, n, i)
    requires w.dfs[succ[n][i]] == -1
    ensures Scanned(succ, w, n, i + 1)
  {
    forall e | 0 <= e < i + 1 ensures Seen(w, n, succ[n][e]) {
    }
  }

  // Taking a child still on the walk into account in the low-link.

  /** The walk after the low-link of `n` is set to `v`. */
  function Lowered(w: Walk, n: NodeId, v: int): Walk
  {
    w.(low := w.low[n := v])
  }

  /** Lowering the low-link of a node on the walk keeps the numbering. */
  lemma LowerSettled(succ: map<NodeId, seq<NodeId>>, d0: map<NodeId, int>, l0: map<NodeId, int>,
                     w: Walk, comp: map<NodeId, nat>, n: NodeId, v: int)
    requires Settled(succ, d0, l0, w, comp) && n in succ && w.dfs[n] > 0 && 1 <= v <= w.low[n]
    ensures Settled(succ, d0, l0, Lowered(w, n, v), comp)
  {
  }

  /** The DFS path does not depend on the low-links. */
  lemma LowerSpine(succ: map<NodeId, seq<NodeId>>, w: Walk, n: NodeId, v: int)
    requires WfBase(succ, w, n) && SpineOk(succ, w, n)
    ensures WfBase(succ, Lowered(w, n, v), n) && SpineOk(succ, Lowered(w, n, v), n)
  {
  }

  /** The pending nodes keep their low-links when that of `n`, not one of them, is lowered. */
  lemma LowerPending(succ: map<NodeId, seq<NodeId>>, w: Walk, n: NodeId, v: int)
    requires WfBase(succ, w, n) && PendingOk(succ, w, n)
    ensures WfBase(succ, Lowered(w, n, v), n) && PendingOk(succ, Lowered(w, n, v), n)
  {
    var w' := Lowered(w, n, v);
    forall j | 0 <= j < |w.pending| ensures w'.low[w.pending[j]] == w.low[w.pending[j]] {
    }
  }

  /**
    The pending nodes keep their low-links, and `v` bounds those of the pending nodes
    numbered above `n`: those `n` bounded before, and those the child bounds.
   */
  lemma LowerDominated(succ: map<NodeId, seq<NodeId>>, w: Walk, n: NodeId, i: nat, v: int)
    requires Wf(succ, w, n, i + 1) && Dominated(succ, w, n, i)
    requires v <= w.low[n]
    requires forall j :: 0 <= j < |w.pending| ==> w.pending[j] != n
    requires forall k :: 0 <= k < |w.stack| ==> w.stack[k].node != n
    requires forall j :: 0 <= j < |w.pending| && w.pending[j] == succ[n][i] ==> v <= w.low[succ[n][i]]
    ensures Wf(succ, Lowered(w, n, v), n, i + 1) && Dominated(succ, Lowered(w, n, v), n, i + 1)
  {
    var w' := Lowered(w, n, v);
    forall k, j | (&& 0 <= k < |w.stack| && 0 <= j < |w.pending|
                   && w.dfs[w.stack[k].node] <= w.dfs[w.pending[j]] < w.dfs[succ[w.stack[k].node][w.stack[k].slot]])
      ensures w'.low[w.stack[k].node] <= w'.low[w.pending[j]]
    {
    }
    forall j | 0 <= j < |w.pending| && w.dfs[n] <= w.dfs[w.pending[j]]
      ensures w'.low[n] <= w'.low[w.pending[j]]
    {
      var p := w.pending[j];
      if !(w.low[n] <= w.low[p]) {
        assert Rescan(succ, w, n, i, p);
        var jc :| 0 <= jc < |w.pending| && w.pending[jc] == succ[n][i];
      }
    }
  }

  /** `v` is at most the low-link of `n`, and at most the DFS number of the child at `i`. */
  lemma LowerScanned(succ: map<NodeId, seq<NodeId>>, w: Walk, n: NodeId, i: nat, v: int)
    requires Wf(succ, w, n, i + 1) && Scanned(succ, w, n, i)
    requires v <= w.low[n] && 0 < w.dfs[succ[n][i]] && v <= w.dfs[succ[n][i]]
    requires forall j :: 0 <= j < |w.pending| ==> w.pending[j] != n
    requires forall k :: 0 <= k < |w.stack| ==> w.stack[k].node != n
    ensures Wf(succ, Lowered(w, n, v), n, i + 1) && Scanned(succ, Lowered(w, n, v), n, i + 1)
  {
    var w' := Lowered(w, n, v);
    forall j, e | 0 <= j < |w.pending| && 0 <= e < |succ[w.pending[j]]|
      ensures Seen(w', w.pending[j], succ[w.pending[j]][e])
    {
      assert Seen(w, w.pending[j], succ[w.pending[j]][e]);
    }
    forall k, e | 0 <= k < |w.stack| && 0 <= e < w.stack[k].slot
      ensures Seen(w', w.stack[k].node, succ[w.stack[k].node][e])
    {
      assert Seen(w, w.stack[k].node, succ[w.stack[k].node][e]);
    }
    forall e | 0 <= e < i + 1 ensures Seen(w', n, succ[n][e]) {
      if e < i {
        assert Seen(w, n, succ[n][e]);
      }
    }
  }

  /** The smaller of two integers. */
  function Min(a: int, b: int): int
  {
    if a <= b then a else b
  }

  /**
    An edge to a node still on the walk lowers the low-link of `n` to the child's when
    that is smaller, and the walk goes on at the next edge.
   */
  lemma LowerTo(succ: map<NodeId, seq<NodeId>>, d0: map<NodeId, int>, l0: map<NodeId, int>,
                w: Walk, comp: map<NodeId, nat>, n: NodeId, i: nat)
    requires Core(succ, d0, l0, w, comp, n, i) && i < |succ[n]| && w.dfs[succ[n][i]] > 0
    ensures Core(succ, d0, l0, Lowered(w, n, Min(w.low[n], w.low[succ[n][i]])), comp, n, i + 1)
  {
    var c := succ[n][i];
    var v := Min(w.low[n], w.low[c]);
    assert 1 <= w.low[c] <= w.dfs[c];
    assert v <= w.dfs[c];
    LowerSettled(succ, d0, l0, w, comp, n, v);
    LowerSpine(succ, w, n, v);
    LowerPending(succ, w, n, v);
    LowerDominated(succ, w, n, i, v);
    LowerScanned(succ, w, n, i, v);
  }

  // Descending into an unreached child.

  /** The walk after `n` is pushed at edge `i` and its child `c` gets the next DFS number. */
  function Descended(w: Walk, n: NodeId, i: nat, c: NodeId): Walk
  {
    w.(stack := w.stack + [Frame(n, i)], dfs := w.dfs[c := w.next], low := w.low[c := w.next],
       next := w.next + 1)
  }

  /** Numbering an unreached node keeps the numbering and the components. */
  lemma DescendSettled(succ: map<NodeId, seq<NodeId>>, d0: map<NodeId, int>, l0: map<NodeId, int>,
                       w: Walk, comp: map<NodeId, nat>, n: NodeId, i: nat, c: NodeId)
    requires Settled(succ, d0, l0, w, comp) && c in succ && w.dfs[c] == 0 && 1 <= w.next
    ensures Settled(succ, d0, l0, Descended(w, n, i, c), comp)
  {
    NumberNext(succ, d0, l0, w, c, Descended(w, n, i, c));
    OriginNumbered(succ, d0, w, comp, c, w.next, Descended(w, n, i, c));
  }

  /** Giving an unreached node the next number keeps every other node's numbers and low-links. */
  lemma NumberNext(succ: map<NodeId, seq<NodeId>>, d0: map<NodeId, int>, l0: map<NodeId, int>,
                   w: Walk, c: NodeId, W: Walk)
    requires Numbered(succ, w) && Untouched(succ, d0, l0, w) && c in succ && w.dfs[c] == 0 && 1 <= w.next
    requires W.dfs == w.dfs[c := w.next] && W.low == w.low[c := w.next] && W.next == w.next + 1
    ensures Numbered(succ, W) && Untouched(succ, d0, l0, W)
  {
    forall x | x in succ ensures Resting(W.dfs[x], W.low[x]) || 1 <= W.low[x] <= W.dfs[x] < W.next {
      if x != c {
        assert W.dfs[x] == w.dfs[x] && W.low[x] == w.low[x];
      }
    }
  }

  /** The path grows by `n`, whose edge `i` leads to `c`, numbered above every node of it. */
  lemma DescendSpine(succ: map<NodeId, seq<NodeId>>, w: Walk, n: NodeId, i: nat, c: NodeId)
    requires WfBase(succ, w, n) && SpineOk(succ, w, n) && i < |succ[n]| && c == succ[n][i]
    requires w.dfs[c] == 0 && w.dfs[n] < w.next
    ensures WfBase(succ, Descended(w, n, i, c), c) && SpineOk(succ, Descended(w, n, i, c), c)
  {
    var w' := Descended(w, n, i, c);
    assert forall k :: 0 <= k < |w.stack| ==> w'.stack[k] == w.stack[k];
    assert w'.stack[|w.stack|] == Frame(n, i);
    forall k | 0 <= k < |w'.stack|
      ensures w'.stack[k].node in succ && w'.stack[k].slot < |succ[w'.stack[k].node]|
      ensures 0 < w'.dfs[w'.stack[k].node] < w'.dfs[c]
    {
      if k < |w.stack| {
        assert w'.stack[k].node != c;
      }
    }
    forall a, b | 0 <= a < b < |w'.stack| ensures w'.dfs[w'.stack[a].node] < w'.dfs[w'.stack[b].node] {
      assert w'.stack[a].node != c;
      assert w'.stack[b].node != c;
    }
    forall a, b | 0 <= a && b == a + 1 && b < |w'.stack|
      ensures succ[w'.stack[a].node][w'.stack[a].slot] == w'.stack[b].node
    {
    }
    assert Bottom(w'.stack, c) == Bottom(w.stack, n) by {
      if w.stack != [] {
        assert w'.stack[0] == w.stack[0];
      }
    }
  }

  /** Numbers that agree on the pending nodes make the same suffixes. */
  lemma UpClosedAgree(s: seq<NodeId>, d1: map<NodeId, int>, d2: map<NodeId, int>, d: int)
    requires UpClosed(s, d1, d)
    requires forall j :: 0 <= j < |s| ==> s[j] in d1 && s[j] in d2 && d1[s[j]] == d2[s[j]]
    ensures UpClosed(s, d2, d)
  {
  }

  /** Every node on the walk is pending, on the path, or the child just reached. */
  lemma DescendCovered(succ: map<NodeId, seq<NodeId>>, w: Walk, n: NodeId, i: nat, c: NodeId)
    requires WfBase(succ, w, n) && PendingOk(succ, w, n) && i < |succ[n]| && c == succ[n][i]
    ensures forall x :: x in succ && Descended(w, n, i, c).dfs[x] > 0 ==>
      x in w.pending || x == c || OnStack(Descended(w, n, i, c).stack, x)
  {
    var w' := Descended(w, n, i, c);
    forall x | x in succ && w'.dfs[x] > 0 ensures x in w.pending || x == c || OnStack(w'.stack, x) {
      if x != c && x !in w.pending {
        if x == n {
          assert w'.stack[|w.stack|].node == x;
        } else {
          var k :| 0 <= k < |w.stack| && w.stack[k].node == x;
          assert w'.stack[k].node == x;
        }
      }
    }
  }

  /** The pending nodes above each node of the longer path still form a suffix. */
  lemma DescendUpClosed(succ: map<NodeId, seq<NodeId>>, w: Walk, n: NodeId, i: nat, c: NodeId)
    requires WfBase(succ, w, n) && PendingOk(succ, w, n) && i < |succ[n]| && c == succ[n][i]
    requires forall j :: 0 <= j < |w.pending| ==> w.pending[j] != c
    requires forall k :: 0 <= k < |w.stack| ==> w.stack[k].node != c
    requires forall x :: x in succ ==> w.dfs[x] < w.next
    ensures forall k :: 0 <= k < |Descended(w, n, i, c).stack| ==>
      UpClosed(w.pending, Descended(w, n, i, c).dfs, Descended(w, n, i, c).dfs[Descended(w, n, i, c).stack[k].node])
    ensures UpClosed(w.pending, Descended(w, n, i, c).dfs, w.next)
  {
    var w' := Descended(w, n, i, c);
    var s := w.pending;
    assert forall j :: 0 <= j < |s| ==> w'.dfs[s[j]] == w.dfs[s[j]];
    forall k | 0 <= k < |w'.stack| ensures UpClosed(s, w'.dfs, w'.dfs[w'.stack[k].node]) {
      if k < |w.stack| {
        assert w'.stack[k] == w.stack[k];
        UpClosedAgree(s, w.dfs, w'.dfs, w.dfs[w.stack[k].node]);
      } else {
        assert w'.stack[k] == Frame(n, i);
        UpClosedAgree(s, w.dfs, w'.dfs, w.dfs[n]);
      }
    }
  }

  /** The longer path and the child are nodes of the walk, with each frame at one of its edges. */
  lemma DescendWf(succ: map<NodeId, seq<NodeId>>, w: Walk, n: NodeId, i: nat, c: NodeId, w': Walk)
    requires WfBase(succ, w, n) && i < |succ[n]| && c == succ[n][i] && w' == Descended(w, n, i, c)
    ensures WfBase(succ, w', c)
  {
    assert forall k :: 0 <= k < |w.stack| ==> w'.stack[k] == w.stack[k];
    assert w'.stack[|w.stack|] == Frame(n, i);
  }

  /** The pending nodes keep their numbers and low-links and stay off the longer path. */
  lemma DescendPendingNodes(succ: map<NodeId, seq<NodeId>>, w: Walk, n: NodeId, i: nat, c: NodeId, w': Walk)
    requires WfBase(succ, w, n) && SpineOk(succ, w, n) && PendingOk(succ, w, n) && i < |succ[n]| && c == succ[n][i]
    requires w.dfs[c] == 0 && w' == Descended(w, n, i, c) && WfBase(succ, w', c)
    ensures var s := w'.pending;
      && (forall j :: 0 <= j < |s| ==> 0 < w'.dfs[s[j]] && w'.low[s[j]] < w'.dfs[s[j]] && s[j] != c)
      && (forall j, k :: 0 <= j < |s| && 0 <= k < |w'.stack| ==> s[j] != w'.stack[k].node)
  {
    var s := w.pending;
    assert forall k :: 0 <= k < |w.stack| ==> w'.stack[k] == w.stack[k];
    assert w'.stack[|w.stack|] == Frame(n, i);
    assert forall j :: 0 <= j < |s| ==> s[j] != c && w'.dfs[s[j]] == w.dfs[s[j]];
  }

  /** The node reached is the current one, and the pending nodes keep their numbers. */
  lemma DescendPending(succ: map<NodeId, seq<NodeId>>, w: Walk, n: NodeId, i: nat, c: NodeId)
    requires WfBase(succ, w, n) && SpineOk(succ, w, n) && PendingOk(succ, w, n) && i < |succ[n]| && c == succ[n][i]
    requires w.dfs[c] == 0 && forall x :: x in succ ==> w.dfs[x] < w.next
    ensures WfBase(succ, Descended(w, n, i, c), c) && PendingOk(succ, Descended(w, n, i, c), c)
  {
    var w' := Descended(w, n, i, c);
    DescendWf(succ, w, n, i, c, w');
    DescendPendingNodes(succ, w, n, i, c, w');
    DescendCovered(succ, w, n, i, c);
    DescendUpClosed(succ, w, n, i, c);
  }

  /** The frames of the longer path bound the pending nodes as those of the old path did. */
  lemma DescendFrames(succ: map<NodeId, seq<NodeId>>, w: Walk, n: NodeId, i: nat, c: NodeId, w': Walk)
    requires Wf(succ, w, n, i) && SpineOk(succ, w, n) && PendingOk(succ, w, n) && Dominated(succ, w, n, i)
    requires i < |succ[n]| && c == succ[n][i] && w.dfs[c] == 0 && forall x :: x in succ ==> w.dfs[x] < w.next
    requires w' == Descended(w, n, i, c) && WfBase(succ, w', c)
    ensures forall k, j ::
      (&& 0 <= k < |w'.stack| && 0 <= j < |w'.pending|
       && w'.dfs[w'.stack[k].node] <= w'.dfs[w'.pending[j]] < w'.dfs[succ[w'.stack[k].node][w'.stack[k].slot]]) ==>
      w'.low[w'.stack[k].node] <= w'.low[w'.pending[j]]
  {
    var s := w.pending;
    forall k, j | (&& 0 <= k < |w'.stack| && 0 <= j < |s|
                   && w'.dfs[w'.stack[k].node] <= w'.dfs[s[j]] < w'.dfs[succ[w'.stack[k].node][w'.stack[k].slot]])
      ensures w'.low[w'.stack[k].node] <= w'.low[s[j]]
    {
      assert s[j] != c && w'.dfs[s[j]] == w.dfs[s[j]] && w'.low[s[j]] == w.low[s[j]];
      if k < |w.stack| {
        assert w'.stack[k] == w.stack[k] && w.stack[k].node != c;
        DescendOldFrame(succ, w, n, i, c, k, j);
      } else {
        assert w'.stack[k] == Frame(n, i) && n != c;
        DescendNewFrame(succ, w, n, i, c, j);
      }
    }
  }

  /** No pending node is numbered from the child, the node numbered last. */
  lemma DescendNoneAbove(succ: map<NodeId, seq<NodeId>>, w: Walk, c: NodeId, w': Walk)
    requires WfBase(succ, w, c) && forall x :: x in succ ==> w.dfs[x] < w.next
    requires forall j :: 0 <= j < |w.pending| ==> w.pending[j] != c
    requires w'.pending == w.pending && w'.dfs == w.dfs[c := w.next]
    ensures forall j :: 0 <= j < |w'.pending| ==> w'.dfs[w'.pending[j]] < w'.dfs[c]
  {
  }

  /**
    The child numbered has no pending node above it, and the pending nodes above `n` are
    bounded by its low-link: the child is not one of them, so none waits to be rescanned.
   */
  lemma DescendDominated(succ: map<NodeId, seq<NodeId>>, w: Walk, n: NodeId, i: nat, c: NodeId)
    requires Wf(succ, w, n, i) && SpineOk(succ, w, n) && PendingOk(succ, w, n) && Dominated(succ, w, n, i)
    requires i < |succ[n]| && c == succ[n][i] && w.dfs[c] == 0 && forall x :: x in succ ==> w.dfs[x] < w.next
    requires WfBase(succ, Descended(w, n, i, c), c)
    ensures Dominated(succ, Descended(w, n, i, c), c, 0)
  {
    var w' := Descended(w, n, i, c);
    DescendFrames(succ, w, n, i, c, w');
    assert WfBase(succ, w, c) by { assert c in succ; }
    DescendNoneAbove(succ, w, c, w');
  }

  /** A frame of the old path bounds the same pending nodes as before. */
  lemma DescendOldFrame(succ: map<NodeId, seq<NodeId>>, w: Walk, n: NodeId, i: nat, c: NodeId, k: nat, j: nat)
    requires Wf(succ, w, n, i) && SpineOk(succ, w, n) && Dominated(succ, w, n, i)
    requires i < |succ[n]| && c == succ[n][i] && w.dfs[c] == 0
    requires k < |w.stack| && j < |w.pending| && w.pending[j] != c
    requires var f := w.stack[k];
      w.dfs[f.node] <= w.dfs[w.pending[j]] < Descended(w, n, i, c).dfs[succ[f.node][f.slot]]
    ensures w.low[w.stack[k].node] <= w.low[w.pending[j]]
  {
    var f := w.stack[k];
    var next := if k + 1 < |w.stack| then w.stack[k + 1].node else n;
    assert succ[f.node][f.slot] == next;
    assert w.dfs[next] > 0;
  }

  /** The new frame, at `n`, bounds the pending nodes numbered from `n`: none waits to be rescanned. */
  lemma DescendNewFrame(succ: map<NodeId, seq<NodeId>>, w: Walk, n: NodeId, i: nat, c: NodeId, j: nat)
    requires Wf(succ, w, n, i) && PendingOk(succ, w, n) && Dominated(succ, w, n, i)
    requires i < |succ[n]| && c == succ[n][i] && w.dfs[c] == 0
    requires j < |w.pending| && w.dfs[n] <= w.dfs[w.pending[j]]
    ensures w.low[n] <= w.low[w.pending[j]]
  {
  }

  /** The walked edges keep their effect: none of them leads to the unreached child. */
  lemma DescendScanned(succ: map<NodeId, seq<NodeId>>, w: Walk, n: NodeId, i: nat, c: NodeId)
    requires Wf(succ, w, n, i) && SpineOk(succ, w, n) && PendingOk(succ, w, n) && Scanned(succ, w, n, i)
    requires i < |succ[n]| && c == succ[n][i] && w.dfs[c] == 0
    ensures Wf(succ, Descended(w, n, i, c), c, 0) && Scanned(succ, Descended(w, n, i, c), c, 0)
  {
    var w' := Descended(w, n, i, c);
    var s := w.pending;
    assert forall k :: 0 <= k < |w.stack| ==> w'.stack[k] == w.stack[k];
    assert w'.stack[|w.stack|] == Frame(n, i);
    forall j, e | 0 <= j < |s| && 0 <= e < |succ[s[j]]| ensures Seen(w', s[j], succ[s[j]][e]) {
      assert Seen(w, s[j], succ[s[j]][e]);
    }
    forall k, e | 0 <= k < |w'.stack| && 0 <= e < w'.stack[k].slot
      ensures Seen(w', w'.stack[k].node, succ[w'.stack[k].node][e])
    {
      if k < |w.stack| {
        assert Seen(w, w.stack[k].node, succ[w.stack[k].node][e]);
      } else {
        assert Seen(w, n, succ[n][e]);
      }
    }
  }

  /**
    An edge to an unreached node pushes `n` at that edge and goes on with the child, the
    node numbered next, at its first edge.
   */
  lemma DescendInto(succ: map<NodeId, seq<NodeId>>, d0: map<NodeId, int>, l0: map<NodeId, int>,
                    w: Walk, comp: map<NodeId, nat>, n: NodeId, i: nat)
    requires Core(succ, d0, l0, w, comp, n, i) && i < |succ[n]| && w.dfs[succ[n][i]] == 0
    ensures Core(succ, d0, l0, Descended(w, n, i, succ[n][i]), comp, succ[n][i], 0)
  {
    var c := succ[n][i];
    assert Numbered(succ, w);
    DescendSettled(succ, d0, l0, w, comp, n, i, c);
    DescendSpine(succ, w, n, i, c);
    DescendPending(succ, w, n, i, c);
    DescendDominated(succ, w, n, i, c);
    DescendScanned(succ, w, n, i, c);
  }

  /** Descending reaches one more node and keeps every node reached before. */
  lemma DescendProgress(succ: map<NodeId, seq<NodeId>>, w: Walk, n: NodeId, i: nat, c: NodeId)
    requires c in succ && c in w.dfs && w.dfs[c] == 0 && w.next > 0
    ensures |Zeros(succ, Descended(w, n, i, c))| < |Zeros(succ, w)|
    ensures Kept(succ, w, Descended(w, n, i, c))
  {
    assert Zeros(succ, Descended(w, n, i, c)) == Zeros(succ, w) - {c};
  }

  // Finishing a node whose low-link lies below its DFS number.

  /** The walk once `n` is pending and its parent's frame is popped again. */
  ghost function Up(w: Walk, n: NodeId): Walk
    requires w.stack != []
  {
    w.(stack := w.stack[..|w.stack| - 1], pending := w.pending + [n])
  }

  /** Adding a node numbered `d` or more on top keeps the pending nodes numbered `d` or more a suffix. */
  lemma UpClosedSnoc(s: seq<NodeId>, dfs: map<NodeId, int>, d: int, n: NodeId)
    requires UpClosed(s, dfs, d) && n in dfs && dfs[n] >= d
    ensures UpClosed(s + [n], dfs, d)
  {
    var s' := s + [n];
    forall a, b | 0 <= a < b < |s'| && s'[a] in dfs && s'[b] in dfs && dfs[s'[a]] >= d
      ensures dfs[s'[b]] >= d
    {
      if b < |s| {
        assert s'[a] == s[a] && s'[b] == s[b];
      }
    }
  }

  /** The path loses its last node: the parent is the current node again. */
  lemma FinishSpine(succ: map<NodeId, seq<NodeId>>, w: Walk, n: NodeId)
    requires WfBase(succ, w, n) && SpineOk(succ, w, n) && w.stack != []
    ensures var m := |w.stack| - 1;
      WfBase(succ, Up(w, n), w.stack[m].node) && SpineOk(succ, Up(w, n), w.stack[m].node)
      && w.dfs[w.stack[m].node] < w.dfs[n]
  {
    var m := |w.stack| - 1;
    var W := Up(w, n);
    assert forall k :: 0 <= k < m ==> W.stack[k] == w.stack[k];
    if m > 0 {
      assert succ[w.stack[m - 1].node][w.stack[m - 1].slot] == w.stack[m].node;
      assert Bottom(W.stack, w.stack[m].node) == w.stack[0].node;
    }
  }

  /** The pending nodes, the finished one among them, are numbered and off the shorter path. */
  lemma FinishPendingNodes(succ: map<NodeId, seq<NodeId>>, w: Walk, n: NodeId, W: Walk)
    requires WfBase(succ, w, n) && SpineOk(succ, w, n) && PendingOk(succ, w, n) && w.stack != []
    requires w.low[n] < w.dfs[n] && W == Up(w, n)
    ensures var s := W.pending; var p := w.stack[|w.stack| - 1].node;
      && (forall j :: 0 <= j < |s| ==> 0 < W.dfs[s[j]] && W.low[s[j]] < W.dfs[s[j]] && s[j] != p)
      && (forall j, k :: 0 <= j < |s| && 0 <= k < |W.stack| ==> s[j] != W.stack[k].node)
  {
    var m := |w.stack| - 1;
    var p := w.stack[m].node;
    assert forall k :: 0 <= k < m ==> W.stack[k] == w.stack[k];
    var s := W.pending;
    assert forall j :: 0 <= j < |w.pending| ==> s[j] == w.pending[j];
    assert s[|w.pending|] == n;
    forall j | 0 <= j < |s| ensures 0 < W.dfs[s[j]] && W.low[s[j]] < W.dfs[s[j]] && s[j] != p {
      if j < |w.pending| {
        assert w.stack[m].node == p;
      }
    }
    forall j, k | 0 <= j < |s| && 0 <= k < |W.stack| ensures s[j] != W.stack[k].node {
      if j == |w.pending| {
        assert w.dfs[w.stack[k].node] < w.dfs[n];
      }
    }
  }

  /** Every node on the walk is pending, the parent, or on the shorter path. */
  lemma FinishPendingCover(succ: map<NodeId, seq<NodeId>>, w: Walk, n: NodeId, W: Walk)
    requires WfBase(succ, w, n) && PendingOk(succ, w, n) && w.stack != [] && W == Up(w, n)
    ensures forall x :: x in succ && W.dfs[x] > 0 ==>
      x in W.pending || x == w.stack[|w.stack| - 1].node || OnStack(W.stack, x)
  {
    var m := |w.stack| - 1;
    forall x | x in succ && W.dfs[x] > 0 ensures x in W.pending || x == w.stack[m].node || OnStack(W.stack, x) {
      if x !in w.pending && x != n {
        var k :| 0 <= k < |w.stack| && w.stack[k].node == x;
        if k < m {
          assert W.stack[k].node == x;
        }
      }
    }
  }

  /** The finished node lies above every node of the path, so the pending nodes stay suffixes. */
  lemma FinishPendingUp(succ: map<NodeId, seq<NodeId>>, w: Walk, n: NodeId, W: Walk)
    requires WfBase(succ, w, n) && SpineOk(succ, w, n) && PendingOk(succ, w, n) && w.stack != [] && W == Up(w, n)
    ensures forall k :: 0 <= k < |W.stack| ==> UpClosed(W.pending, W.dfs, W.dfs[W.stack[k].node])
    ensures UpClosed(W.pending, W.dfs, W.dfs[w.stack[|w.stack| - 1].node])
  {
    var m := |w.stack| - 1;
    assert forall k :: 0 <= k < m ==> W.stack[k] == w.stack[k];
    forall k | 0 <= k < |W.stack| ensures UpClosed(W.pending, W.dfs, W.dfs[W.stack[k].node]) {
      UpClosedSnoc(w.pending, w.dfs, w.dfs[w.stack[k].node], n);
    }
    UpClosedSnoc(w.pending, w.dfs, w.dfs[w.stack[m].node], n);
  }

  /** The finished node joins the pending nodes, above every node of the path. */
  lemma FinishPending(succ: map<NodeId, seq<NodeId>>, w: Walk, n: NodeId)
    requires WfBase(succ, w, n) && SpineOk(succ, w, n) && PendingOk(succ, w, n) && w.stack != []
    requires w.low[n] < w.dfs[n]
    ensures WfBase(succ, Up(w, n), w.stack[|w.stack| - 1].node)
    ensures PendingOk(succ, Up(w, n), w.stack[|w.stack| - 1].node)
  {
    var W := Up(w, n);
    FinishSpine(succ, w, n);
    FinishPendingNodes(succ, w, n, W);
    FinishPendingCover(succ, w, n, W);
    FinishPendingUp(succ, w, n, W);
  }

  /**
    The parent's low-link bounds the pending nodes numbered below `n`; those numbered
    from `n` on are bounded by `n`, now pending at the parent's edge, so they wait to be
    rescanned through it.
   */
  lemma FinishDominated(succ: map<NodeId, seq<NodeId>>, w: Walk, n: NodeId)
    requires n in succ && Wf(succ, w, n, |succ[n]|) && SpineOk(succ, w, n) && Dominated(succ, w, n, |succ[n]|)
    requires w.stack != []
    ensures var f := w.stack[|w.stack| - 1];
      Wf(succ, Up(w, n), f.node, f.slot) && Dominated(succ, Up(w, n), f.node, f.slot)
  {
    var m := |w.stack| - 1;
    var f := w.stack[m];
    var W := Up(w, n);
    FinishSpine(succ, w, n);
    assert succ[f.node][f.slot] == n;
    assert forall k :: 0 <= k < m ==> W.stack[k] == w.stack[k];
    var s := W.pending;
    assert forall j :: 0 <= j < |w.pending| ==> s[j] == w.pending[j];
    assert s[|w.pending|] == n;
    forall k, j | (&& 0 <= k < |W.stack| && 0 <= j < |s|
                   && W.dfs[W.stack[k].node] <= W.dfs[s[j]] < W.dfs[succ[W.stack[k].node][W.stack[k].slot]])
      ensures W.low[W.stack[k].node] <= W.low[s[j]]
    {
      var next := if k + 1 < m then w.stack[k + 1].node else f.node;
      assert succ[w.stack[k].node][w.stack[k].slot] == next;
      assert w.dfs[next] <= w.dfs[f.node];
    }
    forall j | 0 <= j < |s| && W.dfs[f.node] <= W.dfs[s[j]]
      ensures W.low[f.node] <= W.low[s[j]] || Rescan(succ, W, f.node, f.slot, s[j])
    {
      if j < |w.pending| && w.dfs[s[j]] < w.dfs[n] {
        assert w.low[f.node] <= w.low[s[j]];
      } else if j < |w.pending| {
        assert w.low[n] <= w.low[s[j]];
      }
    }
  }

  /** The finished node has taken all of its edges into account. */
  lemma FinishScanned(succ: map<NodeId, seq<NodeId>>, w: Walk, n: NodeId)
    requires n in succ && Wf(succ, w, n, |succ[n]|) && Scanned(succ, w, n, |succ[n]|) && w.stack != []
    ensures var f := w.stack[|w.stack| - 1];
      Wf(succ, Up(w, n), f.node, f.slot) && Scanned(succ, Up(w, n), f.node, f.slot)
  {
    var m := |w.stack| - 1;
    var f := w.stack[m];
    var W := Up(w, n);
    assert forall k :: 0 <= k < m ==> W.stack[k] == w.stack[k];
    var s := W.pending;
    assert forall j :: 0 <= j < |w.pending| ==> s[j] == w.pending[j];
    assert s[|w.pending|] == n;
    forall j, e | 0 <= j < |s| && 0 <= e < |succ[s[j]]| ensures Seen(W, s[j], succ[s[j]][e]) {
      if j < |w.pending| {
        assert Seen(w, w.pending[j], succ[w.pending[j]][e]);
      } else {
        assert Seen(w, n, succ[n][e]);
      }
    }
    forall e | 0 <= e < f.slot ensures Seen(W, f.node, succ[f.node][e]) {
      assert Seen(w, w.stack[m].node, succ[w.stack[m].node][e]);
    }
  }

  /**
    A node whose low-link lies below its DFS number is not the root of the walk; it
    joins the pending nodes and the walk goes back to its parent's frame.
   */
  lemma FinishUp(succ: map<NodeId, seq<NodeId>>, d0: map<NodeId, int>, l0: map<NodeId, int>,
                 w: Walk, comp: map<NodeId, nat>, n: NodeId)
    requires n in succ && Core(succ, d0, l0, w, comp, n, |succ[n]|) && w.low[n] != w.dfs[n]
    ensures w.stack != [] && Top(succ, d0, l0, w.(pending := w.pending + [n]), comp)
  {
    assert Numbered(succ, w);
    if w.stack == [] {
      assert false;
    }
    var m := |w.stack| - 1;
    var w1 := w.(pending := w.pending + [n]);
    assert w1.(stack := w1.stack[..m]) == Up(w, n);
    FinishPending(succ, w, n);
    FinishSpine(succ, w, n);
    FinishDominated(succ, w, n);
    FinishScanned(succ, w, n);
  }

  // Closing a component at a node whose low-link is its DFS number.

  /** `m` with the nodes `ns` set to -1, the value of a node in a component. */
  function Retire(m: map<NodeId, int>, ns: seq<NodeId>): (r: map<NodeId, int>)
    ensures r.Keys == m.Keys
    ensures forall x :: x in m && x in ns ==> r[x] == -1
    ensures forall x :: x in m && x !in ns ==> r[x] == m[x]
  {
    map x | x in m :: if x in ns then -1 else m[x]
  }

  /**
    The walk once the pending nodes from position `q` on form a component: they leave
    the pending stack, are set to -1, and the component, taken from the top of the
    stack down, is appended to the components.
   */
  function Formed(w: Walk, q: nat): Walk
    requires q <= |w.pending|
  {
    var c := w.pending[q..];
    w.(dfs := Retire(w.dfs, c), low := Retire(w.low, c), pending := w.pending[..q],
       groups := w.groups + [Reversed(c)])
  }

  /** The component position of every node, with `ns` in component `k`. */
  ghost function CompWith(comp: map<NodeId, nat>, ns: seq<NodeId>, k: nat): (r: map<NodeId, nat>)
  {
    map x | x in comp.Keys + (set y | y in ns) :: if x in ns then k else comp[x]
  }

  /**
    `q` splits the pending nodes where the component starts: the nodes from `q` on are
    numbered `d` or more, and the one just below `q`, if any, is not.
   */
  ghost predicate SplitAt(s: seq<NodeId>, dfs: map<NodeId, int>, d: int, q: nat)
  {
    && q <= |s| && (forall j :: 0 <= j < |s| ==> s[j] in dfs)
    && (forall j :: q <= j < |s| ==> dfs[s[j]] >= d)
    && (q > 0 ==> dfs[s[q - 1]] < d)
  }

  /** On a stack whose nodes numbered `d` or more form a suffix, the split is exact. */
  lemma SplitExact(s: seq<NodeId>, dfs: map<NodeId, int>, d: int, q: nat, j: nat)
    requires SplitAt(s, dfs, d, q) && UpClosed(s, dfs, d) && j < |s|
    ensures j >= q <==> dfs[s[j]] >= d
  {
  }

  /** The facts about the pending stack with `n` on top that closing the component uses. */
  ghost predicate Closing(succ: map<NodeId, seq<NodeId>>, d0: map<NodeId, int>, l0: map<NodeId, int>,
                          w: Walk, comp: map<NodeId, nat>, n: NodeId, q: nat)
  {
    && n in succ && Core(succ, d0, l0, w, comp, n, |succ[n]|) && w.low[n] == w.dfs[n]
    && SplitAt(w.pending + [n], w.dfs, w.dfs[n], q)
  }

  /** Below a node numbered `d`, the split of a stack whose nodes numbered `d` or more form a suffix. */
  lemma SplitBelow(s: seq<NodeId>, n: NodeId, dfs: map<NodeId, int>, q: nat)
    requires n in dfs && SplitAt(s + [n], dfs, dfs[n], q) && UpClosed(s, dfs, dfs[n])
    ensures q <= |s|
    ensures forall j :: 0 <= j < |s| ==> s[j] in dfs && (j >= q <==> dfs[s[j]] >= dfs[n])
  {
    var s' := s + [n];
    UpClosedSnoc(s, dfs, dfs[n], n);
    forall j | 0 <= j < |s| ensures s[j] in dfs && (j >= q <==> dfs[s[j]] >= dfs[n]) {
      assert s'[j] == s[j];
      SplitExact(s', dfs, dfs[n], q, j);
    }
    assert s'[|s|] == n;
  }

  /** The nodes from the split on are `n` and the nodes of the stack numbered as high as it. */
  lemma SplitMembers(s: seq<NodeId>, n: NodeId, dfs: map<NodeId, int>, q: nat)
    requires n in dfs && q <= |s| && forall j :: 0 <= j < |s| ==> s[j] in dfs && (j >= q <==> dfs[s[j]] >= dfs[n])
    ensures forall x :: x in (s + [n])[q..] <==> x == n || (x in s && dfs[x] >= dfs[n])
  {
    var s' := s + [n];
    forall x ensures x in s'[q..] <==> x == n || (x in s && dfs[x] >= dfs[n]) {
      if x in s'[q..] {
        var k :| 0 <= k < |s'[q..]| && s'[q..][k] == x;
        assert s'[q + k] == x;
      }
      if x in s && dfs[x] >= dfs[n] {
        var j :| 0 <= j < |s| && s[j] == x;
        assert s'[q..][j - q] == x;
      }
      if x == n {
        assert s'[q..][|s| - q] == x;
      }
    }
  }

  /** Which pending nodes the component takes: exactly those numbered from `n` on. */
  lemma ClosingSplit(succ: map<NodeId, seq<NodeId>>, d0: map<NodeId, int>, l0: map<NodeId, int>,
                     w: Walk, comp: map<NodeId, nat>, n: NodeId, q: nat)
    requires Closing(succ, d0, l0, w, comp, n, q)
    ensures q <= |w.pending|
    ensures forall j :: 0 <= j < |w.pending| ==> (j >= q <==> w.dfs[w.pending[j]] >= w.dfs[n])
    ensures forall x :: x in (w.pending + [n])[q..] <==> x == n || (x in w.pending && w.dfs[x] >= w.dfs[n])
  {
    SplitBelow(w.pending, n, w.dfs, q);
    SplitMembers(w.pending, n, w.dfs, q);
  }

  /** The nodes of the component have low-links no smaller than the DFS number of `n`. */
  lemma ClosingLows(succ: map<NodeId, seq<NodeId>>, d0: map<NodeId, int>, l0: map<NodeId, int>,
                    w: Walk, comp: map<NodeId, nat>, n: NodeId, q: nat, x: NodeId)
    requires Closing(succ, d0, l0, w, comp, n, q) && x in (w.pending + [n])[q..]
    ensures x in succ && x in w.dfs && x in w.low && w.dfs[x] > 0 && w.low[x] >= w.dfs[n]
    ensures forall e :: 0 <= e < |succ[x]| ==> Seen(w, x, succ[x][e])
  {
    ClosingSplit(succ, d0, l0, w, comp, n, q);
    if x != n {
      var j :| 0 <= j < |w.pending| && w.pending[j] == x;
      assert w.low[n] <= w.low[x] || Rescan(succ, w, n, |succ[n]|, x);
      forall e | 0 <= e < |succ[x]| ensures Seen(w, x, succ[x][e]) {
        assert Seen(w, w.pending[j], succ[w.pending[j]][e]);
      }
    }
  }

  /** An edge from the component leads into it or to a node already in a component. */
  lemma ClosingEdge(succ: map<NodeId, seq<NodeId>>, d0: map<NodeId, int>, l0: map<NodeId, int>,
                    w: Walk, comp: map<NodeId, nat>, n: NodeId, q: nat, x: NodeId, e: nat)
    requires Closing(succ, d0, l0, w, comp, n, q) && x in (w.pending + [n])[q..]
    requires x in succ && e < |succ[x]|
    ensures var t := succ[x][e];
      t in succ && t in d0 && (t in (w.pending + [n])[q..] || w.dfs[t] == -1)
  {
    var t := succ[x][e];
    ClosingLows(succ, d0, l0, w, comp, n, q, x);
    assert Seen(w, x, t);
    ClosingSplit(succ, d0, l0, w, comp, n, q);
  }

  /** The nodes of the component are on the walk and in no component yet. */
  lemma ClosingFresh(succ: map<NodeId, seq<NodeId>>, d0: map<NodeId, int>, l0: map<NodeId, int>,
                     w: Walk, comp: map<NodeId, nat>, n: NodeId, q: nat)
    requires Closing(succ, d0, l0, w, comp, n, q)
    ensures forall x :: x in (w.pending + [n])[q..] ==> x in succ && w.dfs[x] > 0 && x !in comp && d0[x] == 0
  {
    forall x | x in (w.pending + [n])[q..] ensures x in succ && w.dfs[x] > 0 && x !in comp && d0[x] == 0 {
      ClosingLows(succ, d0, l0, w, comp, n, q, x);
    }
  }

  /** Closing the component keeps the numbering of every node. */
  lemma FormNumbered(succ: map<NodeId, seq<NodeId>>, d0: map<NodeId, int>, l0: map<NodeId, int>,
                     w: Walk, comp: map<NodeId, nat>, n: NodeId, q: nat)
    requires Closing(succ, d0, l0, w, comp, n, q)
    ensures var W := Formed(w.(pending := w.pending + [n]), q);
      Closed(succ) && Numbered(succ, W) && Untouched(succ, d0, l0, W) && succ.Keys <= d0.Keys
  {
    ClosingFresh(succ, d0, l0, w, comp, n, q);
    var c := (w.pending + [n])[q..];
    var W := Formed(w.(pending := w.pending + [n]), q);
    assert Numbered(succ, w);
    forall x | x in succ ensures Resting(W.dfs[x], W.low[x]) || 1 <= W.low[x] <= W.dfs[x] < W.next {
      if x !in c {
        assert W.dfs[x] == w.dfs[x] && W.low[x] == w.low[x];
      }
    }
  }

  /** A node is in a component of the walk exactly when it started unreached and now rests at -1. */
  lemma FormOrigin(succ: map<NodeId, seq<NodeId>>, d0: map<NodeId, int>, l0: map<NodeId, int>,
                   w: Walk, comp: map<NodeId, nat>, n: NodeId, q: nat)
    requires Closing(succ, d0, l0, w, comp, n, q)
    ensures var W := Formed(w.(pending := w.pending + [n]), q);
      succ.Keys <= W.dfs.Keys && Origin(succ, d0, W, CompWith(comp, (w.pending + [n])[q..], |w.groups|))
  {
    ClosingFresh(succ, d0, l0, w, comp, n, q);
    var c := (w.pending + [n])[q..];
    var W := Formed(w.(pending := w.pending + [n]), q);
    var comp' := CompWith(comp, c, |w.groups|);
    assert Origin(succ, d0, w, comp);
    assert forall x :: x in comp' ==> x in succ && d0[x] == 0 && W.dfs[x] == -1;
    assert forall x :: x in succ && d0[x] == -1 ==> W.dfs[x] == -1 && x !in comp';
    forall x | x in succ && W.dfs[x] == -1 ensures d0[x] == -1 || x in comp' {
      if x !in c {
        assert w.dfs[x] == -1;
      }
    }
  }

  /** The component is appended after the others, which keep their nodes and positions. */
  lemma FormGroupedAt(succ: map<NodeId, seq<NodeId>>, d0: map<NodeId, int>, l0: map<NodeId, int>,
                      w: Walk, comp: map<NodeId, nat>, n: NodeId, q: nat)
    requires Closing(succ, d0, l0, w, comp, n, q)
    ensures Grouped(Formed(w.(pending := w.pending + [n]), q).groups, CompWith(comp, (w.pending + [n])[q..], |w.groups|))
  {
    ClosingSplit(succ, d0, l0, w, comp, n, q);
    ClosingFresh(succ, d0, l0, w, comp, n, q);
    var c := (w.pending + [n])[q..];
    assert c[|c| - 1] == n;
    FormGrouped(w.groups, comp, c);
  }

  /** Every edge from the component stays inside it or leads to an earlier component. */
  lemma FormPostordered(succ: map<NodeId, seq<NodeId>>, d0: map<NodeId, int>, l0: map<NodeId, int>,
                        w: Walk, comp: map<NodeId, nat>, n: NodeId, q: nat)
    requires Closing(succ, d0, l0, w, comp, n, q)
    ensures Postordered(succ, d0, CompWith(comp, (w.pending + [n])[q..], |w.groups|))
  {
    var c := (w.pending + [n])[q..];
    var comp' := CompWith(comp, c, |w.groups|);
    ClosingFresh(succ, d0, l0, w, comp, n, q);
    forall x, e | x in comp' && x in succ && 0 <= e < |succ[x]|
      ensures var t := succ[x][e]; t in d0 && (d0[t] == -1 || (t in comp' && comp'[t] <= comp'[x]))
    {
      if x in c {
        ClosingEdge(succ, d0, l0, w, comp, n, q, x, e);
      } else {
        assert x in comp;
      }
    }
  }

  /** The component closed is numbered after the others, which keep their nodes and positions. */
  lemma FormSettled(succ: map<NodeId, seq<NodeId>>, d0: map<NodeId, int>, l0: map<NodeId, int>,
                    w: Walk, comp: map<NodeId, nat>, n: NodeId, q: nat)
    requires Closing(succ, d0, l0, w, comp, n, q)
    ensures Settled(succ, d0, l0, Formed(w.(pending := w.pending + [n]), q),
                    CompWith(comp, (w.pending + [n])[q..], |w.groups|))
  {
    FormNumbered(succ, d0, l0, w, comp, n, q);
    FormOrigin(succ, d0, l0, w, comp, n, q);
    FormGroupedAt(succ, d0, l0, w, comp, n, q);
    FormPostordered(succ, d0, l0, w, comp, n, q);
  }

  /** Appending a non-empty component whose nodes are in none keeps the positions. */
  lemma FormGrouped(groups: seq<seq<NodeId>>, comp: map<NodeId, nat>, c: seq<NodeId>)
    requires Grouped(groups, comp) && |c| > 0 && forall x :: x in c ==> x !in comp
    ensures Grouped(groups + [Reversed(c)], CompWith(comp, c, |groups|))
  {
    var g' := groups + [Reversed(c)];
    var comp' := CompWith(comp, c, |groups|);
    forall x ensures x in Reversed(c) <==> x in c {
      ReversedMembers(c, x);
    }
    forall k, j | 0 <= k < |g'| && 0 <= j < |g'[k]| ensures g'[k][j] in comp' && comp'[g'[k][j]] == k {
      if k < |groups| {
        assert g'[k] == groups[k];
        assert groups[k][j] in comp;
      }
    }
  }

  /** Nodes off the component keep their numbers and low-links when it is closed. */
  lemma ClosingKeeps(succ: map<NodeId, seq<NodeId>>, d0: map<NodeId, int>, l0: map<NodeId, int>,
                     w: Walk, comp: map<NodeId, nat>, n: NodeId, q: nat)
    requires Closing(succ, d0, l0, w, comp, n, q)
    ensures var F := Formed(w.(pending := w.pending + [n]), q);
      forall x :: x in w.dfs && w.dfs[x] < w.dfs[n] ==> x in F.dfs && F.dfs[x] == w.dfs[x]
    ensures var F := Formed(w.(pending := w.pending + [n]), q);
      forall x :: x in w.low && x in w.dfs && w.dfs[x] < w.dfs[n] ==> x in F.low && F.low[x] == w.low[x]
  {
    ClosingSplit(succ, d0, l0, w, comp, n, q);
  }

  /** The pending nodes below `q` are those of the old stack, numbered below `n`. */
  lemma ClosingPrefix(succ: map<NodeId, seq<NodeId>>, d0: map<NodeId, int>, l0: map<NodeId, int>,
                      w: Walk, comp: map<NodeId, nat>, n: NodeId, q: nat)
    requires Closing(succ, d0, l0, w, comp, n, q)
    ensures q <= |w.pending| && Formed(w.(pending := w.pending + [n]), q).pending == w.pending[..q]
    ensures forall j :: 0 <= j < q ==> w.dfs[w.pending[j]] < w.dfs[n]
  {
    ClosingSplit(succ, d0, l0, w, comp, n, q);
    assert (w.pending + [n])[..q] == w.pending[..q];
  }

  /** A prefix of a stack whose high-numbered nodes form a suffix has the same property. */
  lemma UpClosedPrefix(s: seq<NodeId>, dfs: map<NodeId, int>, d: int, q: nat)
    requires UpClosed(s, dfs, d) && q <= |s|
    ensures UpClosed(s[..q], dfs, d)
  {
    forall a, b | 0 <= a < b < q && s[..q][a] in dfs && s[..q][b] in dfs && dfs[s[..q][a]] >= d
      ensures dfs[s[..q][b]] >= d
    {
      assert s[..q][a] == s[a] && s[..q][b] == s[b];
    }
  }

  /** At the root of the walk every node on it is in the component closed there. */
  lemma FormRestNone(succ: map<NodeId, seq<NodeId>>, w: Walk, n: NodeId, q: nat, F: Walk)
    requires WfBase(succ, w, n) && PendingOk(succ, w, n) && w.stack == [] && w.dfs[n] == 1
    requires q <= |w.pending| && F == Formed(w.(pending := w.pending + [n]), q)
    requires forall x :: x in (w.pending + [n])[q..] <==> x == n || (x in w.pending && w.dfs[x] >= w.dfs[n])
    ensures forall x :: x in succ ==> F.dfs[x] <= 0
  {
    forall x | x in succ ensures F.dfs[x] <= 0 {
      if w.dfs[x] > 0 && x != n {
        assert !OnStack(w.stack, x);
        assert x in w.pending;
      }
    }
  }

  /** Once the last component of the walk is closed, nothing is on the walk. */
  lemma FormRest(succ: map<NodeId, seq<NodeId>>, d0: map<NodeId, int>, l0: map<NodeId, int>,
                 w: Walk, comp: map<NodeId, nat>, n: NodeId, q: nat)
    requires Closing(succ, d0, l0, w, comp, n, q) && w.stack == []
    ensures Rest(succ, d0, l0, Formed(w.(pending := w.pending + [n]), q),
                 CompWith(comp, (w.pending + [n])[q..], |w.groups|))
  {
    var F := Formed(w.(pending := w.pending + [n]), q);
    FormSettled(succ, d0, l0, w, comp, n, q);
    ClosingSplit(succ, d0, l0, w, comp, n, q);
    assert Bottom(w.stack, n) == n;
    FormRestNone(succ, w, n, q, F);
  }

  /**
    `F` is `w` once the component above `n` is closed and the parent's frame popped: the
    nodes numbered below `n` keep their numbers and low-links, those numbered from `n` on
    rest at -1, and the pending nodes numbered below `n` are the first `q`.
   */
  ghost predicate Trimmed(succ: map<NodeId, seq<NodeId>>, w: Walk, F: Walk, n: NodeId, q: nat)
  {
    && w.stack != [] && F.stack == w.stack[..|w.stack| - 1]
    && q <= |w.pending| && F.pending == w.pending[..q]
    && n in w.dfs && F.dfs.Keys == w.dfs.Keys && F.low.Keys == w.low.Keys
    && (forall j :: 0 <= j < |w.pending| ==> w.pending[j] in w.dfs)
    && (forall x :: x in w.dfs && w.dfs[x] < w.dfs[n] ==> F.dfs[x] == w.dfs[x])
    && (forall x :: x in w.low && x in w.dfs && w.dfs[x] < w.dfs[n] ==> F.low[x] == w.low[x])
    && (forall x :: x in succ && x in w.dfs && w.dfs[x] >= w.dfs[n] ==> F.dfs[x] == -1)
    && (forall j :: 0 <= j < |w.pending| ==> (j < q <==> w.dfs[w.pending[j]] < w.dfs[n]))
  }

  /** Closing the component from a walk with a parent frame trims it. */
  lemma ClosingTrimmed(succ: map<NodeId, seq<NodeId>>, d0: map<NodeId, int>, l0: map<NodeId, int>,
                       w: Walk, comp: map<NodeId, nat>, n: NodeId, q: nat)
    requires Closing(succ, d0, l0, w, comp, n, q) && w.stack != []
    ensures Trimmed(succ, w, Formed(Up(w, n), q), n, q)
  {
    ClosingKeeps(succ, d0, l0, w, comp, n, q);
    ClosingPrefix(succ, d0, l0, w, comp, n, q);
    ClosingSplit(succ, d0, l0, w, comp, n, q);
    var F := Formed(Up(w, n), q);
    var G := Formed(w.(pending := w.pending + [n]), q);
    assert F.dfs == G.dfs && F.low == G.low && F.pending == G.pending;
    ClosingRetired(succ, w, n, q, F);
  }

  /** The nodes numbered from `n` on are pending or `n` itself: the component takes them all. */
  lemma ClosingRetired(succ: map<NodeId, seq<NodeId>>, w: Walk, n: NodeId, q: nat, F: Walk)
    requires WfBase(succ, w, n) && SpineOk(succ, w, n) && PendingOk(succ, w, n)
    requires q <= |w.pending| && F.dfs == Retire(w.dfs, (w.pending + [n])[q..])
    requires forall x :: x in (w.pending + [n])[q..] <==> x == n || (x in w.pending && w.dfs[x] >= w.dfs[n])
    ensures forall x :: x in succ && x in w.dfs && w.dfs[x] >= w.dfs[n] ==> F.dfs[x] == -1
  {
    forall x | x in succ && x in w.dfs && w.dfs[x] >= w.dfs[n] ensures F.dfs[x] == -1 {
      assert !OnStack(w.stack, x);
    }
  }


  /** The path above the parent keeps its numbers: the component lies above them all. */
  lemma FormSpine(succ: map<NodeId, seq<NodeId>>, w: Walk, F: Walk, n: NodeId, q: nat)
    requires WfBase(succ, w, n) && SpineOk(succ, w, n) && Trimmed(succ, w, F, n, q)
    ensures var p := w.stack[|w.stack| - 1].node;
      WfBase(succ, F, p) && SpineOk(succ, F, p) && w.dfs[p] < w.dfs[n]
  {
    var m := |w.stack| - 1;
    var p := w.stack[m].node;
    assert forall k :: 0 <= k < m ==> F.stack[k] == w.stack[k];
    assert forall j :: 0 <= j < q ==> F.pending[j] == w.pending[j];
    if m > 0 {
      assert succ[w.stack[m - 1].node][w.stack[m - 1].slot] == p;
      assert Bottom(F.stack, p) == w.stack[0].node;
    }
  }

  /** The pending nodes left keep their numbers and low-links, and are off the path. */
  lemma FormPendingNodes(succ: map<NodeId, seq<NodeId>>, w: Walk, F: Walk, n: NodeId, q: nat)
    requires WfBase(succ, w, n) && SpineOk(succ, w, n) && PendingOk(succ, w, n) && Trimmed(succ, w, F, n, q)
    ensures var s := F.pending; var p := w.stack[|w.stack| - 1].node;
      && WfBase(succ, F, p)
      && (forall j :: 0 <= j < |s| ==> 0 < F.dfs[s[j]] && F.low[s[j]] < F.dfs[s[j]] && s[j] != p)
      && (forall j, k :: 0 <= j < |s| && 0 <= k < |F.stack| ==> s[j] != F.stack[k].node)
  {
    var m := |w.stack| - 1;
    var p := w.stack[m].node;
    FormSpine(succ, w, F, n, q);
    var s := F.pending;
    assert forall k :: 0 <= k < m ==> F.stack[k] == w.stack[k];
    assert forall j :: 0 <= j < q ==> s[j] == w.pending[j];
    forall j | 0 <= j < |s| ensures 0 < F.dfs[s[j]] && F.low[s[j]] < F.dfs[s[j]] && s[j] != p {
      assert w.stack[m].node == p;
    }
  }

  /** Every node on the walk is a pending node left, the parent, or on the shorter path. */
  lemma FormPendingCover(succ: map<NodeId, seq<NodeId>>, w: Walk, F: Walk, n: NodeId, q: nat)
    requires WfBase(succ, w, n) && PendingOk(succ, w, n) && Trimmed(succ, w, F, n, q)
    ensures var p := w.stack[|w.stack| - 1].node;
      forall x :: x in succ && F.dfs[x] > 0 ==> x in F.pending || x == p || OnStack(F.stack, x)
  {
    var m := |w.stack| - 1;
    var p := w.stack[m].node;
    var s := F.pending;
    forall x | x in succ && F.dfs[x] > 0 ensures x in s || x == p || OnStack(F.stack, x) {
      assert w.dfs[x] < w.dfs[n];
      if x in w.pending {
        var j :| 0 <= j < |w.pending| && w.pending[j] == x;
        assert s[j] == x;
      } else if x != n {
        var k :| 0 <= k < |w.stack| && w.stack[k].node == x;
        if k < m {
          assert F.stack[k].node == x;
        }
      }
    }
  }

  /** The pending nodes left still form suffixes above each node of the path. */
  lemma FormPendingUp(succ: map<NodeId, seq<NodeId>>, w: Walk, F: Walk, n: NodeId, q: nat)
    requires WfBase(succ, w, n) && SpineOk(succ, w, n) && PendingOk(succ, w, n) && Trimmed(succ, w, F, n, q)
    ensures var p := w.stack[|w.stack| - 1].node;
      && p in F.dfs && (forall k :: 0 <= k < |F.stack| ==> F.stack[k].node in F.dfs)
      && (forall k :: 0 <= k < |F.stack| ==> UpClosed(F.pending, F.dfs, F.dfs[F.stack[k].node]))
      && UpClosed(F.pending, F.dfs, F.dfs[p])
  {
    var m := |w.stack| - 1;
    var p := w.stack[m].node;
    FormSpine(succ, w, F, n, q);
    var s := F.pending;
    assert forall k :: 0 <= k < m ==> F.stack[k] == w.stack[k];
    assert forall j :: 0 <= j < q ==> s[j] == w.pending[j] && F.dfs[s[j]] == w.dfs[s[j]];
    forall k | 0 <= k < |F.stack| ensures UpClosed(s, F.dfs, F.dfs[F.stack[k].node]) {
      TrimmedUpClosed(w.pending, w.dfs, F.pending, F.dfs, q, w.dfs[w.stack[k].node]);
    }
    TrimmedUpClosed(w.pending, w.dfs, F.pending, F.dfs, q, w.dfs[p]);
  }

  /** The first `q` pending nodes, with the numbers they keep, still form suffixes. */
  lemma TrimmedUpClosed(s: seq<NodeId>, d1: map<NodeId, int>, s': seq<NodeId>, d2: map<NodeId, int>, q: nat, d: int)
    requires UpClosed(s, d1, d) && q <= |s| && s' == s[..q]
    requires forall j :: 0 <= j < q ==> s[j] in d1 && s[j] in d2 && d2[s[j]] == d1[s[j]]
    ensures UpClosed(s', d2, d)
  {
    UpClosedPrefix(s, d1, d, q);
    UpClosedAgree(s', d1, d2, d);
  }

  /** The pending nodes left are those numbered below `n`, with the numbers they had. */
  lemma FormPending(succ: map<NodeId, seq<NodeId>>, w: Walk, F: Walk, n: NodeId, q: nat)
    requires WfBase(succ, w, n) && SpineOk(succ, w, n) && PendingOk(succ, w, n) && Trimmed(succ, w, F, n, q)
    ensures var p := w.stack[|w.stack| - 1].node;
      WfBase(succ, F, p) && PendingOk(succ, F, p)
  {
    FormPendingNodes(succ, w, F, n, q);
    FormPendingCover(succ, w, F, n, q);
    FormPendingUp(succ, w, F, n, q);
  }

  /** The parent's low-link bounds the pending nodes left: they are numbered below `n`. */
  lemma FormDominated(succ: map<NodeId, seq<NodeId>>, w: Walk, F: Walk, n: NodeId, q: nat)
    requires n in succ && Wf(succ, w, n, |succ[n]|) && SpineOk(succ, w, n) && Dominated(succ, w, n, |succ[n]|)
    requires Trimmed(succ, w, F, n, q)
    ensures var f := w.stack[|w.stack| - 1];
      Wf(succ, F, f.node, f.slot) && Dominated(succ, F, f.node, f.slot)
  {
    var m := |w.stack| - 1;
    var f := w.stack[m];
    FormSpine(succ, w, F, n, q);
    var s := F.pending;
    assert succ[f.node][f.slot] == n;
    assert forall k :: 0 <= k < m ==> F.stack[k] == w.stack[k];
    assert forall j :: 0 <= j < q ==> s[j] == w.pending[j];
    forall k, j | (&& 0 <= k < |F.stack| && 0 <= j < |s|
                   && F.dfs[F.stack[k].node] <= F.dfs[s[j]] < F.dfs[succ[F.stack[k].node][F.stack[k].slot]])
      ensures F.low[F.stack[k].node] <= F.low[s[j]]
    {
      var next := if k + 1 < m then w.stack[k + 1].node else f.node;
      assert succ[w.stack[k].node][w.stack[k].slot] == next;
      assert w.dfs[next] < w.dfs[n];
    }
    forall j | 0 <= j < |s| && F.dfs[f.node] <= F.dfs[s[j]] ensures F.low[f.node] <= F.low[s[j]] {
      assert w.dfs[f.node] <= w.dfs[w.pending[j]] < w.dfs[succ[f.node][f.slot]];
    }
  }

  /** An edge taken into account stays so: its target kept its number or now rests at -1. */
  lemma FormSeen(succ: map<NodeId, seq<NodeId>>, w: Walk, F: Walk, n: NodeId, q: nat, x: NodeId, t: NodeId)
    requires Trimmed(succ, w, F, n, q) && Seen(w, x, t) && t in succ
    requires x in w.dfs && w.dfs[x] < w.dfs[n]
    ensures Seen(F, x, t)
  {
  }

  /** The edges walked by the pending nodes left, the frames and the parent stay taken into account. */
  lemma FormScanned(succ: map<NodeId, seq<NodeId>>, w: Walk, F: Walk, n: NodeId, q: nat)
    requires n in succ && Wf(succ, w, n, |succ[n]|) && SpineOk(succ, w, n) && Scanned(succ, w, n, |succ[n]|)
    requires Trimmed(succ, w, F, n, q)
    ensures var f := w.stack[|w.stack| - 1];
      Wf(succ, F, f.node, f.slot) && Scanned(succ, F, f.node, f.slot)
  {
    var m := |w.stack| - 1;
    var f := w.stack[m];
    FormSpine(succ, w, F, n, q);
    var s := F.pending;
    assert forall k :: 0 <= k < m ==> F.stack[k] == w.stack[k] && w.dfs[w.stack[k].node] < w.dfs[n];
    forall j, e | 0 <= j < |s| && 0 <= e < |succ[s[j]]| ensures Seen(F, s[j], succ[s[j]][e]) {
      assert s[j] == w.pending[j];
      assert Seen(w, w.pending[j], succ[w.pending[j]][e]);
      FormSeen(succ, w, F, n, q, s[j], succ[s[j]][e]);
    }
    forall k, e | 0 <= k < |F.stack| && 0 <= e < F.stack[k].slot
      ensures Seen(F, F.stack[k].node, succ[F.stack[k].node][e])
    {
      assert Seen(w, w.stack[k].node, succ[w.stack[k].node][e]);
      FormSeen(succ, w, F, n, q, w.stack[k].node, succ[w.stack[k].node][e]);
    }
    forall e | 0 <= e < f.slot ensures Seen(F, f.node, succ[f.node][e]) {
      assert Seen(w, w.stack[m].node, succ[w.stack[m].node][e]);
      FormSeen(succ, w, F, n, q, f.node, succ[f.node][e]);
    }
  }

  /** Closing the component of a node with a parent frame lets the walk go on at that frame. */
  lemma FormParent(succ: map<NodeId, seq<NodeId>>, d0: map<NodeId, int>, l0: map<NodeId, int>,
                   w: Walk, comp: map<NodeId, nat>, n: NodeId, q: nat)
    requires Closing(succ, d0, l0, w, comp, n, q) && w.stack != []
    ensures var f := w.stack[|w.stack| - 1];
      Core(succ, d0, l0, Formed(Up(w, n), q), CompWith(comp, (w.pending + [n])[q..], |w.groups|), f.node, f.slot)
  {
    var F := Formed(Up(w, n), q);
    FormSettled(succ, d0, l0, w, comp, n, q);
    assert Settled(succ, d0, l0, F, CompWith(comp, (w.pending + [n])[q..], |w.groups|));
    ClosingTrimmed(succ, d0, l0, w, comp, n, q);
    FormSpine(succ, w, F, n, q);
    FormPending(succ, w, F, n, q);
    FormDominated(succ, w, F, n, q);
    FormScanned(succ, w, F, n, q);
  }

  /**
    A node whose low-link is its DFS number closes the component made of it and the
    pending nodes numbered after it; the walk goes back to its parent's frame, or rests
    when it was the root.
   */
  lemma FormTop(succ: map<NodeId, seq<NodeId>>, d0: map<NodeId, int>, l0: map<NodeId, int>,
                w: Walk, comp: map<NodeId, nat>, n: NodeId, q: nat)
    requires Closing(succ, d0, l0, w, comp, n, q)
    ensures Top(succ, d0, l0, Formed(w.(pending := w.pending + [n]), q),
                CompWith(comp, (w.pending + [n])[q..], |w.groups|))
  {
    if w.stack == [] {
      FormRest(succ, d0, l0, w, comp, n, q);
    } else {
      var m := |w.stack| - 1;
      var F1 := Formed(w.(pending := w.pending + [n]), q);
      assert F1.(stack := F1.stack[..m]) == Formed(Up(w, n), q);
      FormParent(succ, d0, l0, w, comp, n, q);
    }
  }

  // The walk.

  /** Every node that started unreached and has been reached lies in `S`. */
  ghost predicate Within(succ: map<NodeId, seq<NodeId>>, d0: map<NodeId, int>, w: Walk, S: set<NodeId>)
  {
    forall n :: n in succ && n in d0 && n in w.dfs && d0[n] == 0 && w.dfs[n] != 0 ==> n in S
  }

  /** Every edge from a node of `S` leads into `S` or to a node that started in a component. */
  ghost predicate ClosedIn(succ: map<NodeId, seq<NodeId>>, d0: map<NodeId, int>, S: set<NodeId>)
  {
    forall n, i :: n in S && n in succ && 0 <= i < |succ[n]| ==>
      succ[n][i] in S || (succ[n][i] in d0 && d0[succ[n][i]] == -1)
  }

  /** Every node starts unreached (0) or in a component (-1), with a low-link to match. */
  ghost predicate Start(succ: map<NodeId, seq<NodeId>>, d0: map<NodeId, int>, l0: map<NodeId, int>)
  {
    && Closed(succ) && succ.Keys <= d0.Keys && succ.Keys <= l0.Keys
    && (forall n :: n in succ ==> (d0[n] == 0 && l0[n] == 0) || (d0[n] == -1 && l0[n] == -1))
  }

  /** The child reached from a node of `S` is in `S`. */
  lemma DescendWithin(succ: map<NodeId, seq<NodeId>>, d0: map<NodeId, int>, l0: map<NodeId, int>,
                      w: Walk, comp: map<NodeId, nat>, n: NodeId, i: nat, S: set<NodeId>)
    requires Core(succ, d0, l0, w, comp, n, i) && i < |succ[n]| && w.dfs[succ[n][i]] == 0
    requires Within(succ, d0, w, S) && ClosedIn(succ, d0, S)
    ensures Within(succ, d0, Descended(w, n, i, succ[n][i]), S)
  {
    assert Origin(succ, d0, w, comp);
    assert n in S;
  }

  /**
    One edge of the walk: an unreached child is descended into, an edge to a node in a
    component is passed over, and an edge to a node still on the walk lowers the low-link.
   */
  lemma EdgeStep(succ: map<NodeId, seq<NodeId>>, d0: map<NodeId, int>, l0: map<NodeId, int>,
                 w: Walk, comp: map<NodeId, nat>, n: NodeId, i: nat)
    requires Core(succ, d0, l0, w, comp, n, i) && i < |succ[n]|
    ensures var c := succ[n][i];
      && c in succ && c in w.dfs && c in w.low && n in w.low
      && if w.dfs[c] == 0 then Core(succ, d0, l0, Descended(w, n, i, c), comp, c, 0)
         else if w.dfs[c] == -1 then Core(succ, d0, l0, w, comp, n, i + 1)
         else Core(succ, d0, l0, Lowered(w, n, Min(w.low[n], w.low[c])), comp, n, i + 1)
  {
    var c := succ[n][i];
    if w.dfs[c] == 0 {
      DescendInto(succ, d0, l0, w, comp, n, i);
    } else if w.dfs[c] == -1 {
      SkipDone(succ, d0, l0, w, comp, n, i);
    } else {
      LowerTo(succ, d0, l0, w, comp, n, i);
    }
  }

  /**
    From `w0` to `w` the walk has kept every node reached, reached only nodes of `S`, and
    either reached new nodes or left the DFS stack as it was.
   */
  ghost predicate Progress(succ: map<NodeId, seq<NodeId>>, d0: map<NodeId, int>, w0: Walk, w: Walk, S: set<NodeId>)
  {
    && Within(succ, d0, w, S) && Kept(succ, w0, w)
    && ((Zeros(succ, w) == Zeros(succ, w0) && w.stack == w0.stack) || |Zeros(succ, w)| < |Zeros(succ, w0)|)
  }

  /** A step that leaves the DFS numbers and the stack alone keeps the progress made. */
  lemma ProgressSame(succ: map<NodeId, seq<NodeId>>, d0: map<NodeId, int>, w0: Walk, w: Walk, w': Walk, S: set<NodeId>)
    requires Progress(succ, d0, w0, w, S) && w'.dfs == w.dfs && w'.stack == w.stack
    ensures Progress(succ, d0, w0, w', S) && Zeros(succ, w') == Zeros(succ, w)
  {
    assert Zeros(succ, w') == Zeros(succ, w);
  }

  /** Descending reaches one more node, which lies in `S`. */
  lemma ProgressDescend(succ: map<NodeId, seq<NodeId>>, d0: map<NodeId, int>, l0: map<NodeId, int>, w0: Walk,
                        w: Walk, comp: map<NodeId, nat>, n: NodeId, i: nat, S: set<NodeId>)
    requires Core(succ, d0, l0, w, comp, n, i) && i < |succ[n]| && w.dfs[succ[n][i]] == 0
    requires Progress(succ, d0, w0, w, S) && ClosedIn(succ, d0, S)
    ensures Progress(succ, d0, w0, Descended(w, n, i, succ[n][i]), S)
    ensures |Zeros(succ, Descended(w, n, i, succ[n][i]))| < |Zeros(succ, w)|
  {
    DescendProgress(succ, w, n, i, succ[n][i]);
    DescendWithin(succ, d0, l0, w, comp, n, i, S);
  }

  /** Lowering a low-link to its own value changes nothing. */
  lemma LoweredSame(w: Walk, n: NodeId)
    requires n in w.low
    ensures Lowered(w, n, w.low[n]) == w
  {
  }

  /**
    The walk went from node `n` at edge `i` in state `w` to node `n'` at edge `i'` in
    state `w'`, keeping the invariant, and either reached a new node or moved to the next
    edge of `n`.
   */
  ghost predicate Advanced(succ: map<NodeId, seq<NodeId>>, d0: map<NodeId, int>, l0: map<NodeId, int>,
                           w0: Walk, comp: map<NodeId, nat>, S: set<NodeId>,
                           w: Walk, n: NodeId, i: nat, w': Walk, n': NodeId, i': nat)
  {
    && n' in succ && Core(succ, d0, l0, w', comp, n', i') && Progress(succ, d0, w0, w', S)
    && (|Zeros(succ, w')| < |Zeros(succ, w)| || (Zeros(succ, w') == Zeros(succ, w) && n' == n && i' == i + 1))
  }

  /** Descending into an unreached child. */
  lemma AdvanceDescend(succ: map<NodeId, seq<NodeId>>, d0: map<NodeId, int>, l0: map<NodeId, int>,
                       w0: Walk, comp: map<NodeId, nat>, S: set<NodeId>, w: Walk, n: NodeId, i: nat)
    requires Core(succ, d0, l0, w, comp, n, i) && i < |succ[n]| && w.dfs[succ[n][i]] == 0
    requires Progress(succ, d0, w0, w, S) && ClosedIn(succ, d0, S)
    ensures Advanced(succ, d0, l0, w0, comp, S, w, n, i, Descended(w, n, i, succ[n][i]), succ[n][i], 0)
  {
    EdgeStep(succ, d0, l0, w, comp, n, i);
    ProgressDescend(succ, d0, l0, w0, w, comp, n, i, S);
  }

  /** Passing over a child in a component. */
  lemma AdvanceSkip(succ: map<NodeId, seq<NodeId>>, d0: map<NodeId, int>, l0: map<NodeId, int>,
                    w0: Walk, comp: map<NodeId, nat>, S: set<NodeId>, w: Walk, n: NodeId, i: nat)
    requires Core(succ, d0, l0, w, comp, n, i) && i < |succ[n]| && w.dfs[succ[n][i]] == -1
    requires Progress(succ, d0, w0, w, S)
    ensures Advanced(succ, d0, l0, w0, comp, S, w, n, i, w, n, i + 1)
  {
    EdgeStep(succ, d0, l0, w, comp, n, i);
  }

  /** Taking a child still on the walk into account in the low-link of `n`. */
  lemma AdvanceLower(succ: map<NodeId, seq<NodeId>>, d0: map<NodeId, int>, l0: map<NodeId, int>,
                     w0: Walk, comp: map<NodeId, nat>, S: set<NodeId>, w: Walk, n: NodeId, i: nat, w': Walk)
    requires Core(succ, d0, l0, w, comp, n, i) && i < |succ[n]| && w.dfs[succ[n][i]] > 0
    requires Progress(succ, d0, w0, w, S)
    requires var c := succ[n][i]; w' == if w.low[c] < w.low[n] then Lowered(w, n, w.low[c]) else w
    ensures Advanced(succ, d0, l0, w0, comp, S, w, n, i, w', n, i + 1)
  {
    var c := succ[n][i];
    EdgeStep(succ, d0, l0, w, comp, n, i);
    if w.low[c] < w.low[n] {
      ProgressSame(succ, d0, w0, w, Lowered(w, n, w.low[c]), S);
    } else {
      LoweredSame(w, n);
    }
  }

  /** The child at edge `i` and `n` itself have a DFS number and a low-link. */
  lemma EdgeKeys(succ: map<NodeId, seq<NodeId>>, d0: map<NodeId, int>, l0: map<NodeId, int>,
                 w: Walk, comp: map<NodeId, nat>, n: NodeId, i: nat)
    requires Core(succ, d0, l0, w, comp, n, i) && i < |succ[n]|
    ensures succ[n][i] in w.dfs && succ[n][i] in w.low && n in w.low
  {
    assert WfBase(succ, w, n);
  }

  /**
    Walks edge `i` of `n`: descends into an unreached child, which becomes the current
    node at its first edge; passes over a child in a component; and takes a child still
    on the walk into account in the low-link of `n`.
   */
  method WalkEdge(succ: map<NodeId, seq<NodeId>>, ghost d0: map<NodeId, int>, ghost l0: map<NodeId, int>,
                  ghost w0: Walk, w: Walk, ghost comp: map<NodeId, nat>, n: NodeId, i: nat, ghost S: set<NodeId>)
    returns (w': Walk, n': NodeId, i': nat)
    requires Core(succ, d0, l0, w, comp, n, i) && i < |succ[n]|
    requires Progress(succ, d0, w0, w, S) && ClosedIn(succ, d0, S)
    ensures Advanced(succ, d0, l0, w0, comp, S, w, n, i, w', n', i')
  {
    var c := succ[n][i];
    EdgeKeys(succ, d0, l0, w, comp, n, i);
    if w.dfs[c] == 0 {
      // `n` stays on the DFS stack at this edge and `c` gets the next number.
      AdvanceDescend(succ, d0, l0, w0, comp, S, w, n, i);
      w', n', i' := Descended(w, n, i, c), c, 0;
    } else if w.dfs[c] == -1 {
      AdvanceSkip(succ, d0, l0, w0, comp, S, w, n, i);
      w', n', i' := w, n, i + 1;
    } else {
      w' := w;
      if w.low[c] < w.low[n] {
        w' := Lowered(w, n, w.low[c]);
      }
      n', i' := n, i + 1;
      AdvanceLower(succ, d0, l0, w0, comp, S, w, n, i, w');
    }
  }

  /**
    Walks the edges of `n` from position `i` on, descending into every unreached child,
    until the current node has no edge left; the node returned is that node.
   */
  method WalkEdges(succ: map<NodeId, seq<NodeId>>, ghost d0: map<NodeId, int>, ghost l0: map<NodeId, int>,
                   w: Walk, ghost comp: map<NodeId, nat>, n: NodeId, i: nat, ghost S: set<NodeId>)
    returns (w': Walk, n': NodeId)
    requires Core(succ, d0, l0, w, comp, n, i) && Within(succ, d0, w, S) && ClosedIn(succ, d0, S)
    ensures n' in succ && Core(succ, d0, l0, w', comp, n', |succ[n']|)
    ensures Progress(succ, d0, w, w', S)
  {
    w', n' := w, n;
    var j: nat := i;
    ProgressSame(succ, d0, w, w, w, S);
    while j < |succ[n']|
      invariant n' in succ && Core(succ, d0, l0, w', comp, n', j)
      invariant Progress(succ, d0, w, w', S)
      decreases |Zeros(succ, w')|, |succ[n']| - j
    {
      w', n', j := WalkEdge(succ, d0, l0, w, w', comp, n', j, S);
    }
  }

  /**
    The position on the pending stack `s` where the component of a node numbered `d`
    starts: walking down from the top, the first node numbered below `d` ends it.
   */
  method FindSplit(s: seq<NodeId>, dfs: map<NodeId, int>, d: int) returns (q: nat)
    requires forall j :: 0 <= j < |s| ==> s[j] in dfs
    ensures SplitAt(s, dfs, d, q)
  {
    q := |s|;
    while q > 0 && dfs[s[q - 1]] >= d
      invariant q <= |s| && forall j :: q <= j < |s| ==> dfs[s[j]] >= d
    {
      q := q - 1;
    }
  }

  /** Closing a component only retires nodes that were on the walk. */
  lemma FormKeeps(succ: map<NodeId, seq<NodeId>>, d0: map<NodeId, int>, l0: map<NodeId, int>,
                  w: Walk, comp: map<NodeId, nat>, n: NodeId, q: nat, S: set<NodeId>)
    requires Closing(succ, d0, l0, w, comp, n, q) && Within(succ, d0, w, S)
    ensures var F := Formed(w.(pending := w.pending + [n]), q);
      Zeros(succ, F) == Zeros(succ, w) && Kept(succ, w, F) && Within(succ, d0, F, S)
  {
    ClosingFresh(succ, d0, l0, w, comp, n, q);
    RetireKeeps(succ, d0, w, (w.pending + [n])[q..], Formed(w.(pending := w.pending + [n]), q), S);
  }

  /** Retiring nodes already reached leaves the unreached ones as they were. */
  lemma RetireKeeps(succ: map<NodeId, seq<NodeId>>, d0: map<NodeId, int>, w: Walk, c: seq<NodeId>, F: Walk,
                    S: set<NodeId>)
    requires forall x :: x in c ==> x in w.dfs && w.dfs[x] > 0
    requires F.dfs == Retire(w.dfs, c) && Within(succ, d0, w, S)
    ensures Zeros(succ, F) == Zeros(succ, w) && Kept(succ, w, F) && Within(succ, d0, F, S)
  {
  }

  /**
    One round took the walk from `w` to `w'`, keeping the invariant at the head of the
    walk's loop, and either reached new nodes or shortened the DFS stack.
   */
  ghost predicate Stepped(succ: map<NodeId, seq<NodeId>>, d0: map<NodeId, int>, l0: map<NodeId, int>,
                          S: set<NodeId>, w: Walk, w': Walk, comp': map<NodeId, nat>)
  {
    Top(succ, d0, l0, w', comp') && Moved(succ, d0, S, w, w')
  }

  /** From `w` to `w'` the walk kept the nodes reached and reached new ones or popped a frame. */
  ghost predicate Moved(succ: map<NodeId, seq<NodeId>>, d0: map<NodeId, int>, S: set<NodeId>, w: Walk, w': Walk)
  {
    && Within(succ, d0, w', S) && Kept(succ, w, w')
    && (|Zeros(succ, w')| < |Zeros(succ, w)| || (Zeros(succ, w') == Zeros(succ, w) && |w'.stack| < |w.stack|))
  }

  /** The progress of the walk from the popped frame on counts for the whole round. */
  lemma MovedOn(succ: map<NodeId, seq<NodeId>>, d0: map<NodeId, int>, S: set<NodeId>, w: Walk, w1: Walk, w': Walk)
    requires w.stack != [] && Progress(succ, d0, Popped(w), w1, S)
    requires Zeros(succ, w') == Zeros(succ, w1) && Kept(succ, w1, w') && Within(succ, d0, w', S)
    requires w'.stack == w1.stack
    ensures Moved(succ, d0, S, w, w')
  {
    assert Zeros(succ, Popped(w)) == Zeros(succ, w);
  }

  /** The walk after the top frame is popped. */
  function Popped(w: Walk): Walk
    requires w.stack != []
  {
    w.(stack := w.stack[..|w.stack| - 1])
  }

  /** The frame popped is walked on from the edge it was at, under `Core`. */
  lemma PopCore(succ: map<NodeId, seq<NodeId>>, d0: map<NodeId, int>, l0: map<NodeId, int>,
                w: Walk, comp: map<NodeId, nat>, S: set<NodeId>)
    requires Top(succ, d0, l0, w, comp) && w.stack != [] && Within(succ, d0, w, S)
    ensures var f := w.stack[|w.stack| - 1];
      Core(succ, d0, l0, Popped(w), comp, f.node, f.slot) && Within(succ, d0, Popped(w), S)
  {
  }

  /** A node done with its edges and numbered in the current walk. */
  lemma DoneKeys(succ: map<NodeId, seq<NodeId>>, d0: map<NodeId, int>, l0: map<NodeId, int>,
                 w: Walk, comp: map<NodeId, nat>, n: NodeId)
    requires n in succ && Core(succ, d0, l0, w, comp, n, |succ[n]|)
    ensures n in w.dfs && n in w.low && forall j :: 0 <= j < |w.pending + [n]| ==> (w.pending + [n])[j] in w.dfs
  {
    assert WfBase(succ, w, n);
  }

  /** A node whose low-link is below its DFS number waits on the pending stack. */
  lemma StepUp(succ: map<NodeId, seq<NodeId>>, d0: map<NodeId, int>, l0: map<NodeId, int>, S: set<NodeId>,
               w: Walk, w1: Walk, comp: map<NodeId, nat>, n: NodeId)
    requires w.stack != [] && Progress(succ, d0, Popped(w), w1, S)
    requires n in succ && Core(succ, d0, l0, w1, comp, n, |succ[n]|) && w1.low[n] != w1.dfs[n]
    ensures Stepped(succ, d0, l0, S, w, w1.(pending := w1.pending + [n]), comp)
  {
    FinishUp(succ, d0, l0, w1, comp, n);
    var w' := w1.(pending := w1.pending + [n]);
    assert Zeros(succ, w') == Zeros(succ, w1);
    MovedOn(succ, d0, S, w, w1, w');
  }

  /** A node whose low-link is its DFS number closes its component. */
  lemma StepForm(succ: map<NodeId, seq<NodeId>>, d0: map<NodeId, int>, l0: map<NodeId, int>, S: set<NodeId>,
                 w: Walk, w1: Walk, comp: map<NodeId, nat>, n: NodeId, q: nat)
    requires w.stack != [] && Progress(succ, d0, Popped(w), w1, S)
    requires Closing(succ, d0, l0, w1, comp, n, q)
    ensures Stepped(succ, d0, l0, S, w, Formed(w1.(pending := w1.pending + [n]), q),
                    CompWith(comp, (w1.pending + [n])[q..], |w1.groups|))
  {
    FormTop(succ, d0, l0, w1, comp, n, q);
    FormKeeps(succ, d0, l0, w1, comp, n, q, S);
    MovedOn(succ, d0, S, w, w1, Formed(w1.(pending := w1.pending + [n]), q));
  }

  /**
    One round of the walk: pops the top frame, walks the edges of its node and of the
    nodes it descends into, puts the node finished on the pending stack and, when its
    low-link is its own DFS number, closes its component.
   */
  method Step(succ: map<NodeId, seq<NodeId>>, ghost d0: map<NodeId, int>, ghost l0: map<NodeId, int>,
              w: Walk, ghost comp: map<NodeId, nat>, ghost S: set<NodeId>)
    returns (w': Walk, ghost comp': map<NodeId, nat>)
    requires Top(succ, d0, l0, w, comp) && w.stack != []
    requires Within(succ, d0, w, S) && ClosedIn(succ, d0, S)
    ensures Stepped(succ, d0, l0, S, w, w', comp')
  {
    var f := w.stack[|w.stack| - 1];
    PopCore(succ, d0, l0, w, comp, S);
    var w1, n := WalkEdges(succ, d0, l0, Popped(w), comp, f.node, f.slot, S);
    DoneKeys(succ, d0, l0, w1, comp, n);
    if w1.low[n] != w1.dfs[n] {
      StepUp(succ, d0, l0, S, w, w1, comp, n);
      w' := w1.(pending := w1.pending + [n]);
      comp' := comp;
    } else {
      // The component is the pending nodes numbered from `n` on, `n` last.
      var q := FindSplit(w1.pending + [n], w1.dfs, w1.dfs[n]);
      assert Closing(succ, d0, l0, w1, comp, n, q);
      StepForm(succ, d0, l0, S, w, w1, comp, n, q);
      w' := Formed(w1.(pending := w1.pending + [n]), q);
      comp' := CompWith(comp, (w1.pending + [n])[q..], |w1.groups|);
    }
  }

  /** The walk from `root`: numbered 1, alone on the DFS stack at its first edge. */
  function Started(w: Walk, root: NodeId): Walk
  {
    w.(dfs := w.dfs[root := 1], low := w.low[root := 1], next := 2, stack := [Frame(root, 0)])
  }

  /** Numbering an unreached root 1 keeps the numbering and the components. */
  lemma RootSettled(succ: map<NodeId, seq<NodeId>>, d0: map<NodeId, int>, l0: map<NodeId, int>,
                    w: Walk, comp: map<NodeId, nat>, root: NodeId)
    requires Rest(succ, d0, l0, w, comp) && root in succ && w.dfs[root] == 0
    ensures Settled(succ, d0, l0, Popped(Started(w, root)), comp)
  {
    RootNumbered(succ, d0, l0, w, root, Popped(Started(w, root)));
    OriginNumbered(succ, d0, w, comp, root, 1, Popped(Started(w, root)));
  }

  /** Numbering the root 1 keeps every other node's numbers and low-links. */
  lemma RootNumbered(succ: map<NodeId, seq<NodeId>>, d0: map<NodeId, int>, l0: map<NodeId, int>,
                     w: Walk, root: NodeId, W: Walk)
    requires Numbered(succ, w) && Untouched(succ, d0, l0, w) && root in succ
    requires forall n :: n in succ ==> w.dfs[n] <= 0
    requires W == Popped(Started(w, root))
    ensures Numbered(succ, W) && Untouched(succ, d0, l0, W)
  {
    forall n | n in succ ensures Resting(W.dfs[n], W.low[n]) || 1 <= W.low[n] <= W.dfs[n] < W.next {
      if n != root {
        assert W.dfs[n] == w.dfs[n] && W.low[n] == w.low[n];
      }
    }
  }

  /** Numbering an unreached node keeps the components. */
  lemma OriginNumbered(succ: map<NodeId, seq<NodeId>>, d0: map<NodeId, int>, w: Walk, comp: map<NodeId, nat>,
                       c: NodeId, v: int, W: Walk)
    requires succ.Keys <= d0.Keys && succ.Keys <= w.dfs.Keys && Origin(succ, d0, w, comp)
    requires c in succ && w.dfs[c] == 0 && v > 0 && W.dfs == w.dfs[c := v]
    ensures Origin(succ, d0, W, comp)
  {
  }

  /** The walk from an unreached root starts under `Core`, at the root's first edge. */
  lemma RootTop(succ: map<NodeId, seq<NodeId>>, d0: map<NodeId, int>, l0: map<NodeId, int>,
                w: Walk, comp: map<NodeId, nat>, root: NodeId)
    requires Rest(succ, d0, l0, w, comp) && root in succ && w.dfs[root] == 0
    ensures Top(succ, d0, l0, Started(w, root), comp)
  {
    RootSettled(succ, d0, l0, w, comp, root);
    RootWalk(succ, w, root, Popped(Started(w, root)));
  }

  /** The walk from a root, at its first edge, is a path of one node with nothing pending. */
  lemma RootWalk(succ: map<NodeId, seq<NodeId>>, w: Walk, root: NodeId, W: Walk)
    requires Closed(succ) && KeysOk(succ, w) && root in succ && w.stack == [] && w.pending == []
    requires forall n :: n in succ ==> w.dfs[n] <= 0
    requires W == Popped(Started(w, root))
    ensures Wf(succ, W, root, 0) && SpineOk(succ, W, root) && PendingOk(succ, W, root)
    ensures Dominated(succ, W, root, 0) && Scanned(succ, W, root, 0)
  {
    assert PendingOk(succ, W, root);
  }

  /** Starting from an unreached root of `S` reaches it and keeps every node reached. */
  lemma RootMoved(succ: map<NodeId, seq<NodeId>>, d0: map<NodeId, int>, w: Walk, root: NodeId, S: set<NodeId>)
    requires root in S && Within(succ, d0, w, S) && root in w.dfs && w.dfs[root] == 0
    ensures Within(succ, d0, Started(w, root), S) && Kept(succ, w, Started(w, root))
  {
  }

  /**
    The invariant of the walk from `root`, started in state `w0`: the invariant at the
    head of the loop, with every node reached in `S`, every node reached before still
    reached, and the root reached.
   */
  ghost predicate Walking(succ: map<NodeId, seq<NodeId>>, d0: map<NodeId, int>, l0: map<NodeId, int>,
                          S: set<NodeId>, w0: Walk, root: NodeId, w: Walk, comp: map<NodeId, nat>)
  {
    && Top(succ, d0, l0, w, comp) && Within(succ, d0, w, S)
    && Kept(succ, w0, w) && root in succ && root in w.dfs && w.dfs[root] != 0
  }

  /** The walk from an unreached root of `S` starts under `Walking`. */
  lemma WalkingStart(succ: map<NodeId, seq<NodeId>>, d0: map<NodeId, int>, l0: map<NodeId, int>,
                     S: set<NodeId>, w: Walk, comp: map<NodeId, nat>, root: NodeId)
    requires Rest(succ, d0, l0, w, comp) && root in succ && w.dfs[root] == 0
    requires root in S && Within(succ, d0, w, S)
    ensures Walking(succ, d0, l0, S, w, root, Started(w, root), comp)
  {
    RootTop(succ, d0, l0, w, comp, root);
    RootMoved(succ, d0, w, root, S);
  }

  /** A round keeps `Walking`. */
  lemma WalkingStep(succ: map<NodeId, seq<NodeId>>, d0: map<NodeId, int>, l0: map<NodeId, int>,
                    S: set<NodeId>, w0: Walk, root: NodeId, w: Walk, w': Walk, comp': map<NodeId, nat>)
    requires Kept(succ, w0, w) && root in succ && root in w.dfs && w.dfs[root] != 0
    requires Stepped(succ, d0, l0, S, w, w', comp')
    ensures Walking(succ, d0, l0, S, w0, root, w', comp')
  {
  }

  /** When the DFS stack is empty again, the root has joined a component. */
  lemma WalkingDone(succ: map<NodeId, seq<NodeId>>, d0: map<NodeId, int>, l0: map<NodeId, int>,
                    S: set<NodeId>, w0: Walk, root: NodeId, w: Walk, comp: map<NodeId, nat>)
    requires Walking(succ, d0, l0, S, w0, root, w, comp) && w.stack == []
    ensures Rest(succ, d0, l0, w, comp) && Within(succ, d0, w, S) && Kept(succ, w0, w) && w.dfs[root] == -1
  {
  }

  /**
    The walk from the unreached node `root`: it is numbered 1 and pushed, and rounds are
    taken until the DFS stack is empty again, every node reached then being in a component.
   */
  method WalkFrom(succ: map<NodeId, seq<NodeId>>, ghost d0: map<NodeId, int>, ghost l0: map<NodeId, int>,
                  w: Walk, ghost comp: map<NodeId, nat>, root: NodeId, ghost S: set<NodeId>)
    returns (w': Walk, ghost comp': map<NodeId, nat>)
    requires Rest(succ, d0, l0, w, comp) && root in succ && w.dfs[root] == 0
    requires root in S && Within(succ, d0, w, S) && ClosedIn(succ, d0, S)
    ensures Rest(succ, d0, l0, w', comp') && Within(succ, d0, w', S) && Kept(succ, w, w')
    ensures w'.dfs[root] == -1
  {
    WalkingStart(succ, d0, l0, S, w, comp, root);
    w', comp' := Started(w, root), comp;
    while w'.stack != []
      invariant Walking(succ, d0, l0, S, w, root, w', comp')
      decreases |Zeros(succ, w')|, |w'.stack|
    {
      var w'', comp'' := Step(succ, d0, l0, w', comp', S);
      WalkingStep(succ, d0, l0, S, w, root, w', w'', comp'');
      w', comp' := w'', comp'';
    }
    WalkingDone(succ, d0, l0, S, w, root, w', comp');
  }

  /** The invariant between roots: the walk is at rest and the first `r` roots are in components. */
  ghost predicate Rooted(succ: map<NodeId, seq<NodeId>>, d0: map<NodeId, int>, l0: map<NodeId, int>,
                         S: set<NodeId>, roots: seq<NodeId>, r: nat, w: Walk, comp: map<NodeId, nat>)
  {
    && r <= |roots| && Rest(succ, d0, l0, w, comp) && Within(succ, d0, w, S)
    && (forall k :: 0 <= k < |roots| ==> roots[k] in succ && roots[k] in S)
    && (forall k :: 0 <= k < r ==> w.dfs[roots[k]] == -1)
  }

  /** Before the first root. */
  lemma RootedStart(succ: map<NodeId, seq<NodeId>>, d0: map<NodeId, int>, l0: map<NodeId, int>,
                    S: set<NodeId>, roots: seq<NodeId>)
    requires Start(succ, d0, l0)
    requires forall k :: 0 <= k < |roots| ==> roots[k] in succ && roots[k] in S
    ensures Rooted(succ, d0, l0, S, roots, 0, Walk(d0, l0, [], [], [], 1), map[])
  {
  }

  /** A root already in a component is passed over. */
  lemma RootedSkip(succ: map<NodeId, seq<NodeId>>, d0: map<NodeId, int>, l0: map<NodeId, int>,
                   S: set<NodeId>, roots: seq<NodeId>, r: nat, w: Walk, comp: map<NodeId, nat>)
    requires Rooted(succ, d0, l0, S, roots, r, w, comp) && r < |roots| && w.dfs[roots[r]] != 0
    ensures Rooted(succ, d0, l0, S, roots, r + 1, w, comp)
  {
  }

  /** The walk from an unreached root keeps the roots before it in their components. */
  lemma RootedWalked(succ: map<NodeId, seq<NodeId>>, d0: map<NodeId, int>, l0: map<NodeId, int>,
                     S: set<NodeId>, roots: seq<NodeId>, r: nat, w: Walk, w': Walk,
                     comp: map<NodeId, nat>, comp': map<NodeId, nat>)
    requires Rooted(succ, d0, l0, S, roots, r, w, comp) && r < |roots|
    requires Rest(succ, d0, l0, w', comp') && Within(succ, d0, w', S) && Kept(succ, w, w')
    requires w'.dfs[roots[r]] == -1
    ensures Rooted(succ, d0, l0, S, roots, r + 1, w', comp')
  {
  }

  /**
    After the last root: the nodes put in a component rest at -1, every other node keeps
    the numbers it started with, and the components are those of `comp`.
   */
  lemma RootedDone(succ: map<NodeId, seq<NodeId>>, d0: map<NodeId, int>, l0: map<NodeId, int>,
                   S: set<NodeId>, roots: seq<NodeId>, w: Walk, comp: map<NodeId, nat>)
    requires Start(succ, d0, l0) && Rooted(succ, d0, l0, S, roots, |roots|, w, comp)
    ensures w.dfs.Keys == d0.Keys && w.low.Keys == l0.Keys
    ensures forall n :: n in d0 ==> w.dfs[n] == if n in comp then -1 else d0[n]
    ensures forall n :: n in l0 ==> w.low[n] == if n in comp then -1 else l0[n]
    ensures forall n :: n in comp ==> n in succ && n in S && d0[n] == 0
    ensures Grouped(w.groups, comp) && Postordered(succ, d0, comp)
  {
    assert Numbered(succ, w) && Origin(succ, d0, w, comp) && Untouched(succ, d0, l0, w);
  }

  /**
    The generic SCC walk over the successor sequences `succ` from each of `roots` in
    turn, skipping the roots already in a component.  `dfs0` and `low0` are the DFS
    numbers and low-links the nodes start with, 0 or -1; the nodes put in a component
    end at -1, and the components are returned in the order they were closed.
   */
  method BuildGenericSccs(succ: map<NodeId, seq<NodeId>>, roots: seq<NodeId>,
                          dfs0: map<NodeId, int>, low0: map<NodeId, int>, ghost S: set<NodeId>)
    returns (dfs: map<NodeId, int>, low: map<NodeId, int>, groups: seq<seq<NodeId>>, ghost comp: map<NodeId, nat>)
    requires Start(succ, dfs0, low0)
    requires forall k :: 0 <= k < |roots| ==> roots[k] in succ && roots[k] in S
    requires ClosedIn(succ, dfs0, S)
    // The nodes put in a component of this walk rest at -1 and every other node keeps
    // its numbers; only unreached nodes of `S` are put in a component, and every root
    // ends in one.
    ensures dfs.Keys == dfs0.Keys && low.Keys == low0.Keys
    ensures forall n :: n in dfs0 ==> dfs[n] == if n in comp then -1 else dfs0[n]
    ensures forall n :: n in low0 ==> low[n] == if n in comp then -1 else low0[n]
    ensures forall n :: n in comp ==> n in succ && n in S && dfs0[n] == 0
    ensures forall k :: 0 <= k < |roots| ==> dfs[roots[k]] == -1
    // The components are non-empty and `comp` gives the position of each node's one;
    // they are in postorder: every edge leads to the same or an earlier component, or to
    // a node that started in a component.
    ensures Grouped(groups, comp) && Postordered(succ, dfs0, comp)
  {
    var w := Walk(dfs0, low0, [], [], [], 1);
    comp := map[];
    RootedStart(succ, dfs0, low0, S, roots);
    var r := 0;
    while r < |roots|
      invariant Rooted(succ, dfs0, low0, S, roots, r, w, comp)
    {
      var root := roots[r];
      if w.dfs[root] == 0 {
        var w', comp' := WalkFrom(succ, dfs0, low0, w, comp, root, S);
        RootedWalked(succ, dfs0, low0, S, roots, r, w, w', comp, comp');
        w, comp := w', comp';
      } else {
        RootedSkip(succ, dfs0, low0, S, roots, r, w, comp);
      }
      r := r + 1;
    }
    RootedDone(succ, dfs0, low0, S, roots, w, comp);
    dfs, low, groups := w.dfs, w.low, w.groups;
  }
}
