/**
 * Breadth-first correctness: the depths parse derives and export records are shortest distances
 * from the root, IDs are ordered by depth, and every accepted node is reachable.
 */
module Distances {
  import opened Graph
  import opened HeapExport
  import opened Visit

  predicate HasEdge(o: Obj, j: nat) {
    Node(j) in o.refs
  }

  /** A walk over node IDs from the root. */
  ghost predicate IsPath(g: Graph, p: seq<nat>) {
    && p != [] && g.root == Node(p[0])
    && (forall k :: 0 <= k < |p| ==> p[k] < |g.objs|)
    && forall k :: 0 <= k < |p| - 1 ==> HasEdge(g.objs[p[k]], p[k + 1])
  }

  ghost predicate PathTo(g: Graph, p: seq<nat>, i: nat, length: nat) {
    IsPath(g, p) && p[|p| - 1] == i && |p| == length + 1
  }

  ghost predicate IsDistance(g: Graph, i: nat, d: nat) {
    (exists p :: PathTo(g, p, i, d)) && forall p, length :: PathTo(g, p, i, length) ==> d <= length
  }

  ghost predicate Sorted(depths: seq<nat>) {
    forall i, j :: 0 <= i <= j < |depths| ==> depths[i] <= depths[j]
  }

  /** Node `j` was discovered from an earlier node, one level up. */
  ghost predicate Discovered(g: Graph, depths: seq<nat>, j: nat)
    requires j < |depths|
  {
    exists p: nat :: p < j && p < |g.objs| && HasEdge(g.objs[p], j) && depths[j] == depths[p] + 1
  }

  /** Every edge of node `p` leads to a numbered node at most one level down. */
  ghost predicate Settled(g: Graph, depths: seq<nat>, p: nat)
    requires p < |g.objs|
  {
    p < |depths| && forall j: nat :: HasEdge(g.objs[p], j) ==> j < |depths| && depths[j] <= depths[p] + 1
  }

  /** The state of the search once the first `i` records have been processed. */
  ghost predicate Searched(g: Graph, depths: seq<nat>, i: nat) {
    && i <= |g.objs| && Sorted(depths)
    && (depths != [] ==> depths[0] == 0 && g.root == Node(0))
    && (g.root.Node? ==> depths != [])
    && (forall j :: 0 < j < |depths| ==> Discovered(g, depths, j))
    && (forall p :: 0 <= p < i ==> Settled(g, depths, p))
    && (i < |depths| ==> forall j :: 0 <= j < |depths| ==> depths[j] <= depths[i] + 1)
  }

  /** Visiting references at depth `d` appends levels `d` for the new IDs among them and numbers them all. */
  lemma {:induction false} RefsNumbered(t: Trace, refs: seq<Ref>, d: nat, n: nat, lim: Limits)
    requires VisitRefs(t, refs, d, n, lim).Ok?
    ensures var t1 := VisitRefs(t, refs, d, n, lim).value;
            && Extends(t.depths, t1.depths)
            && (forall j :: |t.depths| <= j < |t1.depths| ==> t1.depths[j] == d && Node(j) in refs)
            && forall j: nat :: Node(j) in refs ==> j < |t1.depths|
    decreases refs
  {
    if refs != [] {
      var t1 := VisitRef(t, refs[0], d, n, lim).value;
      RefsNumbered(t1, refs[1..], d, n, lim);
      var t2 := VisitRefs(t, refs, d, n, lim).value;
      forall j | |t.depths| <= j < |t2.depths| ensures t2.depths[j] == d && Node(j) in refs {
        if j < |t1.depths| {
          assert t2.depths[j] == t2.depths[..|t1.depths|][j] && refs[0] == Node(j);
        } else {
          assert Node(j) in refs[1..];
        }
      }
      forall j: nat | Node(j) in refs ensures j < |t2.depths| {
        assert refs == [refs[0]] + refs[1..];
      }
      assert t2.depths[..|t.depths|] == t1.depths[..|t.depths|];
    }
  }

  lemma NodeSearched(g: Graph, t: Trace, i: nat, n: nat, e: nat, lim: Limits)
    requires i < |g.objs| && Searched(g, t.depths, i) && Shaped(g.objs[i])
    requires VisitNode(t, g.objs[i], i, n, e, lim).Ok?
    ensures Searched(g, VisitNode(t, g.objs[i], i, n, e, lim).value.depths, i + 1)
  {
    hide VisitRefs;
    var o, d := g.objs[i], t.depths[i] + 1;
    var t1 := VisitNode(t, o, i, n, e, lim).value;
    if o.kind != StringKind {
      RefsNumbered(t.(edges := t.edges + |o.refs|), o.refs, d, n, lim);
    } else {
      assert forall j: nat :: !HasEdge(o, j);
    }
    var a, b := t.depths, t1.depths;
    assert forall j :: 0 <= j < |a| ==> b[j] == b[..|a|][j] == a[j];
    forall j | 0 < j < |b| ensures Discovered(g, b, j) {
      if j < |a| {
        assert Discovered(g, a, j);
      } else {
        assert HasEdge(o, j);
      }
    }
    forall p | 0 <= p < i + 1 ensures Settled(g, b, p) {
      if p < i {
        assert Settled(g, a, p);
      }
    }
  }

  lemma {:induction false} AllSearched(g: Graph, t: Trace, i: nat, n: nat, e: nat, lim: Limits)
    requires i <= |g.objs| && Searched(g, t.depths, i) && VisitNodes(t, g.objs[i..], i, n, e, lim).Ok?
    requires forall k :: 0 <= k < |g.objs| ==> Shaped(g.objs[k])
    ensures Searched(g, VisitNodes(t, g.objs[i..], i, n, e, lim).value.depths, |g.objs|)
    decreases |g.objs| - i
  {
    hide Searched, VisitNode, Shaped;
    if i < |g.objs| {
      NodeSearched(g, t, i, n, e, lim);
      assert g.objs[i..][1..] == g.objs[i + 1..];
      AllSearched(g, VisitNode(t, g.objs[i], i, n, e, lim).value, i + 1, n, e, lim);
    }
  }

  lemma VisitSearches(g: Graph, lim: Limits)
    requires VisitGraph(g, lim).Ok? && forall k :: 0 <= k < |g.objs| ==> Shaped(g.objs[k])
    ensures var depths := VisitGraph(g, lim).value.depths;
            Searched(g, depths, |g.objs|) && |depths| == |g.objs|
  {
    hide VisitNodes, Shaped;
    var n, e := |g.objs|, EdgeTotal(g.objs);
    var t0 := VisitRef(START, g.root, 0, n, lim).value;
    assert g.objs[0..] == g.objs;
    AllSearched(g, t0, 0, n, e, lim);
  }

  lemma {:induction false} PathsAreLong(g: Graph, depths: seq<nat>, p: seq<nat>)
    requires Searched(g, depths, |g.objs|) && |depths| == |g.objs| && IsPath(g, p)
    ensures depths[p[|p| - 1]] < |p|
    decreases |p|
  {
    if |p| > 1 {
      var q := p[..|p| - 1];
      assert forall k :: 0 <= k < |q| ==> q[k] == p[k];
      PathsAreLong(g, depths, q);
      assert Settled(g, depths, p[|p| - 2]) && HasEdge(g.objs[p[|p| - 2]], p[|p| - 1]);
    }
  }

  lemma {:induction false} PathExists(g: Graph, depths: seq<nat>, i: nat) returns (p: seq<nat>)
    requires Searched(g, depths, |g.objs|) && |depths| == |g.objs| && i < |g.objs|
    ensures PathTo(g, p, i, depths[i])
  {
    if i == 0 {
      p := [0];
    } else {
      assert Discovered(g, depths, i);
      var parent: nat :| parent < i && HasEdge(g.objs[parent], i) && depths[i] == depths[parent] + 1;
      var q := PathExists(g, depths, parent);
      p := q + [i];
      forall k | 0 <= k < |p| - 1 ensures HasEdge(g.objs[p[k]], p[k + 1]) {
        if k < |q| - 1 {
          assert HasEdge(g.objs[q[k]], q[k + 1]);
        }
      }
    }
  }

  /** The depth of every accepted node is its distance from the root, and IDs follow the levels. */
  lemma DepthIsDistance(g: Graph, lim: Limits)
    requires VisitGraph(g, lim).Ok? && forall k :: 0 <= k < |g.objs| ==> Shaped(g.objs[k])
    ensures var depths := VisitGraph(g, lim).value.depths;
            && |depths| == |g.objs| && Sorted(depths)
            && forall i :: 0 <= i < |g.objs| ==> IsDistance(g, i, depths[i])
  {
    hide VisitGraph, Shaped;
    VisitSearches(g, lim);
    var depths := VisitGraph(g, lim).value.depths;
    forall i | 0 <= i < |g.objs| ensures IsDistance(g, i, depths[i]) {
      var p := PathExists(g, depths, i);
      forall q, length | PathTo(g, q, i, length) ensures depths[i] <= length {
        PathsAreLong(g, depths, q);
      }
    }
  }
}
