/**
 * What parse's walk accepts, said without the walk: IDs appear for the first time in the order
 * 0, 1, 2, ..., each node is referenced before its own record, and the totals fit the quotas.
 */
module Numbering {
  import opened Distances
  import opened Graph
  import opened HeapExport
  import opened Visit

  /** The references on the wire before record `i`: the root and every edge of the earlier records. */
  function Before(g: Graph, i: nat): seq<Ref>
    requires i <= |g.objs|
  {
    if i == 0 then [g.root] else Before(g, i - 1) + g.objs[i - 1].refs
  }

  /** `r` is in range, and unless it is node 0 its predecessor has appeared. */
  predicate NextInOrder(earlier: seq<Ref>, r: Ref, n: nat) {
    r.Node? ==> r.id < n && (r.id == 0 || Node(r.id - 1) in earlier)
  }

  predicate Numbered(g: Graph) {
    var refs := Before(g, |g.objs|);
    && (forall k :: 0 <= k < |refs| ==> NextInOrder(refs[..k], refs[k], |g.objs|))
    && forall i :: 0 <= i < |g.objs| ==> Node(i) in Before(g, i)
  }

  function SymbolTotal(refs: seq<Ref>): nat {
    if refs == [] then 0
    else SymbolTotal(refs[..|refs| - 1]) + (if refs[|refs| - 1].Symbol? then |refs[|refs| - 1].name| else 0)
  }

  function StringTotal(objs: seq<Obj>): nat {
    if objs == [] then 0 else |objs[0].bytes| + StringTotal(objs[1..])
  }

  ghost predicate WithinQuotas(g: Graph, lim: Limits) {
    var refs := Before(g, |g.objs|);
    && |g.objs| <= lim.nodes && EdgeTotal(g.objs) <= lim.edges
    && StringTotal(g.objs) <= lim.stringBytes && SymbolTotal(refs) <= lim.symbolBytes
    && (forall r :: r in refs && r.Symbol? ==> |r.name| <= MAX_SYMBOL_NAME_BYTES)
    && forall i: nat, d: nat :: i < |g.objs| && IsDistance(g, i, d) ==> d <= lim.depth
  }

  // ---- one reference -------------------------------------------------------------------------

  /** The walk has numbered exactly the nodes that have appeared. */
  ghost predicate Known(earlier: seq<Ref>, t: Trace) {
    && (forall id: nat :: Node(id) in earlier <==> id < |t.depths|)
    && t.symbolBytes == SymbolTotal(earlier)
  }

  predicate SymbolFits(earlier: seq<Ref>, r: Ref, lim: Limits) {
    r.Symbol? ==> |r.name| <= MAX_SYMBOL_NAME_BYTES && SymbolTotal(earlier + [r]) <= lim.symbolBytes
  }

  lemma TotalOfOneMore(earlier: seq<Ref>, r: Ref)
    ensures SymbolTotal(earlier + [r]) == SymbolTotal(earlier) + (if r.Symbol? then |r.name| else 0)
  {
    assert (earlier + [r])[..|earlier|] == earlier;
  }

  lemma RefAccepted(earlier: seq<Ref>, t: Trace, r: Ref, depth: nat, n: nat, lim: Limits)
    requires Known(earlier, t) && depth <= lim.depth
    ensures VisitRef(t, r, depth, n, lim).Ok? <==> NextInOrder(earlier, r, n) && SymbolFits(earlier, r, lim)
    ensures VisitRef(t, r, depth, n, lim).Ok? ==> Known(earlier + [r], VisitRef(t, r, depth, n, lim).value)
  {
    TotalOfOneMore(earlier, r);
  }

  // ---- a run of references -------------------------------------------------------------------

  ghost predicate AllNext(earlier: seq<Ref>, refs: seq<Ref>, n: nat, lim: Limits) {
    forall k :: 0 <= k < |refs| ==>
      NextInOrder(earlier + refs[..k], refs[k], n) && SymbolFits(earlier + refs[..k], refs[k], lim)
  }

  lemma AllNextCons(earlier: seq<Ref>, refs: seq<Ref>, n: nat, lim: Limits)
    requires refs != []
    ensures AllNext(earlier, refs, n, lim) <==>
            NextInOrder(earlier, refs[0], n) && SymbolFits(earlier, refs[0], lim)
            && AllNext(earlier + [refs[0]], refs[1..], n, lim)
  {
    hide NextInOrder, SymbolFits;
    assert earlier + refs[..0] == earlier;
    var one := earlier + [refs[0]];
    forall k | 0 <= k < |refs| - 1
      ensures one + refs[1..][..k] == earlier + refs[..k + 1] && refs[1..][k] == refs[k + 1]
    {
      assert refs[..k + 1] == [refs[0]] + refs[1..][..k];
    }
    if AllNext(one, refs[1..], n, lim) && NextInOrder(earlier, refs[0], n) && SymbolFits(earlier, refs[0], lim) {
      forall k | 0 <= k < |refs|
        ensures NextInOrder(earlier + refs[..k], refs[k], n) && SymbolFits(earlier + refs[..k], refs[k], lim)
      {
        if k > 0 {
          assert NextInOrder(one + refs[1..][..k - 1], refs[1..][k - 1], n);
        }
      }
    }
    if AllNext(earlier, refs, n, lim) {
      forall k | 0 <= k < |refs| - 1
        ensures NextInOrder(one + refs[1..][..k], refs[1..][k], n)
                && SymbolFits(one + refs[1..][..k], refs[1..][k], lim)
      {
        assert NextInOrder(earlier + refs[..k + 1], refs[k + 1], n);
      }
    }
  }

  lemma {:induction false} RefsAccepted(earlier: seq<Ref>, t: Trace, refs: seq<Ref>, depth: nat, n: nat, lim: Limits)
    requires Known(earlier, t) && depth <= lim.depth
    ensures VisitRefs(t, refs, depth, n, lim).Ok? <==> AllNext(earlier, refs, n, lim)
    ensures VisitRefs(t, refs, depth, n, lim).Ok? ==>
              Known(earlier + refs, VisitRefs(t, refs, depth, n, lim).value)
    decreases refs
  {
    hide VisitRef, NextInOrder, SymbolFits, AllNext;
    if refs == [] {
      assert AllNext(earlier, refs, n, lim) by {
        Vacuous(earlier, n, lim);
      }
      assert earlier + refs == earlier;
    } else {
      AllNextCons(earlier, refs, n, lim);
      RefAccepted(earlier, t, refs[0], depth, n, lim);
      if VisitRef(t, refs[0], depth, n, lim).Ok? {
        RefsAccepted(earlier + [refs[0]], VisitRef(t, refs[0], depth, n, lim).value, refs[1..], depth, n, lim);
        assert earlier + [refs[0]] + refs[1..] == earlier + refs;
      }
    }
  }

  lemma Vacuous(earlier: seq<Ref>, n: nat, lim: Limits)
    ensures AllNext(earlier, [], n, lim)
  {
  }

  lemma AllNextSplit(earlier: seq<Ref>, a: seq<Ref>, b: seq<Ref>, n: nat, lim: Limits)
    ensures AllNext(earlier, a + b, n, lim) <==> AllNext(earlier, a, n, lim) && AllNext(earlier + a, b, n, lim)
  {
    hide NextInOrder, SymbolFits;
    var s := a + b;
    forall k | 0 <= k < |a| ensures s[..k] == a[..k] && s[k] == a[k] {
    }
    forall k | 0 <= k < |b| ensures earlier + s[..|a| + k] == earlier + a + b[..k] && s[|a| + k] == b[k] {
      assert s[..|a| + k] == a + b[..k];
    }
    if AllNext(earlier, s, n, lim) {
      forall k | 0 <= k < |b|
        ensures NextInOrder(earlier + a + b[..k], b[k], n) && SymbolFits(earlier + a + b[..k], b[k], lim)
      {
        assert NextInOrder(earlier + s[..|a| + k], s[|a| + k], n);
      }
    }
    if AllNext(earlier, a, n, lim) && AllNext(earlier + a, b, n, lim) {
      forall k | 0 <= k < |s|
        ensures NextInOrder(earlier + s[..k], s[k], n) && SymbolFits(earlier + s[..k], s[k], lim)
      {
        if k >= |a| {
          assert NextInOrder(earlier + a + b[..k - |a|], b[k - |a|], n);
        }
      }
    }
  }

  // ---- the records ---------------------------------------------------------------------------

  ghost predicate RecordsNext(g: Graph, i: nat, lim: Limits)
    requires i <= |g.objs|
  {
    && AllNext([], Before(g, i), |g.objs|, lim)
    && forall k :: 0 <= k < i ==> Node(k) in Before(g, k)
  }

  lemma RecordsNextStep(g: Graph, i: nat, lim: Limits)
    requires i < |g.objs|
    ensures RecordsNext(g, i + 1, lim) <==>
            RecordsNext(g, i, lim) && Node(i) in Before(g, i) && AllNext(Before(g, i), g.objs[i].refs, |g.objs|, lim)
  {
    hide AllNext;
    var earlier, refs := Before(g, i), g.objs[i].refs;
    assert Before(g, i + 1) == earlier + refs;
    AllNextSplit([], earlier, refs, |g.objs|, lim);
    assert [] + earlier == earlier;
    assert (forall k :: 0 <= k < i + 1 ==> Node(k) in Before(g, k)) <==>
           (forall k :: 0 <= k < i ==> Node(k) in Before(g, k)) && Node(i) in earlier;
  }

  lemma {:induction false} RecordsNextPrefix(g: Graph, i: nat, j: nat, lim: Limits)
    requires i <= j <= |g.objs| && RecordsNext(g, j, lim)
    ensures RecordsNext(g, i, lim)
    decreases j - i
  {
    hide RecordsNext;
    if i < j {
      RecordsNextStep(g, j - 1, lim);
      RecordsNextPrefix(g, i, j - 1, lim);
    }
  }

  /** The state of a walk, free of depth limits, that has processed the first `i` records. */
  ghost predicate Reached(g: Graph, t: Trace, i: nat)
    requires i <= |g.objs|
  {
    && Known(Before(g, i), t)
    && t.edges + EdgeTotal(g.objs[i..]) == EdgeTotal(g.objs)
    && t.stringBytes + StringTotal(g.objs[i..]) == StringTotal(g.objs)
  }

  lemma TotalsStep(g: Graph, i: nat)
    requires i < |g.objs|
    ensures EdgeTotal(g.objs[i..]) == |g.objs[i].refs| + EdgeTotal(g.objs[i + 1..])
    ensures StringTotal(g.objs[i..]) == |g.objs[i].bytes| + StringTotal(g.objs[i + 1..])
  {
    assert g.objs[i..][1..] == g.objs[i + 1..];
  }

  /** A quota no depth exceeds. */
  ghost predicate DeepEnough(t: Trace, objs: seq<Obj>, lim: Limits) {
    forall k :: 0 <= k < |t.depths| ==> t.depths[k] + |objs| <= lim.depth
  }

  lemma {:induction false} DepthsGrowByOne(t: Trace, refs: seq<Ref>, d: nat, n: nat, lim: Limits)
    requires VisitRefs(t, refs, d, n, lim).Ok?
    ensures forall k :: 0 <= k < |VisitRefs(t, refs, d, n, lim).value.depths| ==>
              VisitRefs(t, refs, d, n, lim).value.depths[k] == d
              || (k < |t.depths| && VisitRefs(t, refs, d, n, lim).value.depths[k] == t.depths[k])
    decreases refs
  {
    if refs != [] {
      DepthsGrowByOne(VisitRef(t, refs[0], d, n, lim).value, refs[1..], d, n, lim);
    }
  }

  lemma {:induction false} EdgesUntouched(t: Trace, refs: seq<Ref>, d: nat, n: nat, lim: Limits)
    requires VisitRefs(t, refs, d, n, lim).Ok?
    ensures VisitRefs(t, refs, d, n, lim).value.edges == t.edges
    ensures VisitRefs(t, refs, d, n, lim).value.stringBytes == t.stringBytes
    decreases refs
  {
    if refs != [] {
      EdgesUntouched(VisitRef(t, refs[0], d, n, lim).value, refs[1..], d, n, lim);
    }
  }

  lemma NodeAccepted(g: Graph, t: Trace, i: nat, lim: Limits)
    requires i < |g.objs| && Reached(g, t, i) && Shaped(g.objs[i])
    requires StringTotal(g.objs) <= lim.stringBytes && DeepEnough(t, g.objs[i..], lim)
    ensures var v := VisitNode(t, g.objs[i], i, |g.objs|, EdgeTotal(g.objs), lim);
            && (v.Ok? <==> Node(i) in Before(g, i) && AllNext(Before(g, i), g.objs[i].refs, |g.objs|, lim))
            && (v.Ok? ==> Reached(g, v.value, i + 1) && DeepEnough(v.value, g.objs[i + 1..], lim))
  {
    hide VisitRefs, AllNext;
    var o, n := g.objs[i], |g.objs|;
    TotalsStep(g, i);
    if i < |t.depths| {
      var t0 := t.(edges := t.edges + |o.refs|);
      if o.kind == StringKind {
        Vacuous(Before(g, i), n, lim);
        assert Before(g, i) + [] == Before(g, i);
      } else {
        var d := t.depths[i] + 1;
        RefsAccepted(Before(g, i), t0, o.refs, d, n, lim);
        if VisitRefs(t0, o.refs, d, n, lim).Ok? {
          DepthsGrowByOne(t0, o.refs, d, n, lim);
          EdgesUntouched(t0, o.refs, d, n, lim);
        }
      }
    }
  }

  lemma {:induction false} NodesAccepted(g: Graph, t: Trace, i: nat, lim: Limits)
    requires i <= |g.objs| && Reached(g, t, i) && RecordsNext(g, i, lim)
    requires forall k :: 0 <= k < |g.objs| ==> Shaped(g.objs[k])
    requires StringTotal(g.objs) <= lim.stringBytes && DeepEnough(t, g.objs[i..], lim)
    ensures var v := VisitNodes(t, g.objs[i..], i, |g.objs|, EdgeTotal(g.objs), lim);
            && (v.Ok? <==> RecordsNext(g, |g.objs|, lim))
            && (v.Ok? ==> Reached(g, v.value, |g.objs|))
    decreases |g.objs| - i
  {
    hide VisitNode, RecordsNext, Reached, DeepEnough, AllNext, Shaped;
    if i < |g.objs| {
      RecordsNextStep(g, i, lim);
      NodeAccepted(g, t, i, lim);
      assert g.objs[i..][1..] == g.objs[i + 1..] && g.objs[i..][0] == g.objs[i];
      var v := VisitNode(t, g.objs[i], i, |g.objs|, EdgeTotal(g.objs), lim);
      if v.Ok? {
        NodesAccepted(g, v.value, i + 1, lim);
      } else if RecordsNext(g, |g.objs|, lim) {
        RecordsNextPrefix(g, i + 1, |g.objs|, lim);
      }
    }
  }

  // ---- symbols and strings -------------------------------------------------------------------

  lemma {:induction false} PrefixTotals(refs: seq<Ref>, k: nat)
    requires k <= |refs|
    ensures SymbolTotal(refs[..k]) <= SymbolTotal(refs)
    decreases |refs| - k
  {
    if k < |refs| {
      TotalOfOneMore(refs[..k], refs[k]);
      assert refs[..k + 1] == refs[..k] + [refs[k]];
      PrefixTotals(refs, k + 1);
    } else {
      assert refs[..k] == refs;
    }
  }

  predicate SymbolsShort(refs: seq<Ref>) {
    forall k :: 0 <= k < |refs| && refs[k].Symbol? ==> |refs[k].name| <= MAX_SYMBOL_NAME_BYTES
  }

  predicate SymbolPrefixesFit(refs: seq<Ref>, lim: Limits) {
    forall k :: 0 <= k < |refs| ==> SymbolFits(refs[..k], refs[k], lim)
  }

  lemma SymbolPrefixesSnoc(init: seq<Ref>, last: Ref, lim: Limits)
    ensures SymbolPrefixesFit(init + [last], lim) <==> SymbolPrefixesFit(init, lim) && SymbolFits(init, last, lim)
  {
    hide SymbolFits;
    var refs := init + [last];
    assert forall k :: 0 <= k < |init| ==> refs[..k] == init[..k] && refs[k] == init[k];
    assert refs[..|init|] == init && refs[|init|] == last;
    if SymbolPrefixesFit(refs, lim) {
      forall k | 0 <= k < |init| ensures SymbolFits(init[..k], init[k], lim) {
        assert SymbolFits(refs[..k], refs[k], lim);
      }
      assert SymbolFits(refs[..|init|], refs[|init|], lim);
    }
  }

  lemma SymbolsShortSnoc(init: seq<Ref>, last: Ref)
    ensures SymbolsShort(init + [last]) <==>
            SymbolsShort(init) && (last.Symbol? ==> |last.name| <= MAX_SYMBOL_NAME_BYTES)
  {
    var refs := init + [last];
    assert forall k :: 0 <= k < |init| ==> refs[k] == init[k];
    assert refs[|init|] == last;
    if SymbolsShort(refs) {
      forall k | 0 <= k < |init| && init[k].Symbol? ensures |init[k].name| <= MAX_SYMBOL_NAME_BYTES {
        assert refs[k].Symbol?;
      }
    }
  }

  /** The running symbol check passes everywhere exactly when the total and every name fit. */
  lemma {:induction false} SymbolChecks(refs: seq<Ref>, lim: Limits)
    ensures SymbolPrefixesFit(refs, lim) <==> SymbolsShort(refs) && SymbolTotal(refs) <= lim.symbolBytes
  {
    if refs != [] {
      hide SymbolPrefixesFit, SymbolsShort;
      var init, last := refs[..|refs| - 1], refs[|refs| - 1];
      assert refs == init + [last];
      SymbolChecks(init, lim);
      SymbolPrefixesSnoc(init, last, lim);
      SymbolsShortSnoc(init, last);
      TotalOfOneMore(init, last);
    }
  }

  lemma RecordsNextMeaning(g: Graph, lim: Limits)
    ensures var refs := Before(g, |g.objs|);
            RecordsNext(g, |g.objs|, lim) <==>
            Numbered(g) && SymbolsShort(refs) && SymbolTotal(refs) <= lim.symbolBytes
  {
    hide NextInOrder, SymbolFits, SymbolsShort;
    var refs := Before(g, |g.objs|);
    SymbolChecks(refs, lim);
    forall k | 0 <= k < |refs| ensures [] + refs[..k] == refs[..k] {
    }
    if RecordsNext(g, |g.objs|, lim) {
      forall k | 0 <= k < |refs|
        ensures NextInOrder(refs[..k], refs[k], |g.objs|) && SymbolFits(refs[..k], refs[k], lim)
      {
        assert NextInOrder([] + refs[..k], refs[k], |g.objs|);
      }
    }
    if Numbered(g) && SymbolPrefixesFit(refs, lim) {
      forall k | 0 <= k < |refs|
        ensures NextInOrder([] + refs[..k], refs[k], |g.objs|) && SymbolFits([] + refs[..k], refs[k], lim)
      {
        assert NextInOrder(refs[..k], refs[k], |g.objs|) && SymbolFits(refs[..k], refs[k], lim);
      }
    }
  }

  /** An accepted walk has counted every string byte, within the quota. */
  lemma {:induction false} StringsCounted(t: Trace, objs: seq<Obj>, i: nat, n: nat, e: nat, lim: Limits)
    requires VisitNodes(t, objs, i, n, e, lim).Ok? && t.stringBytes <= lim.stringBytes
    requires forall k :: 0 <= k < |objs| ==> Shaped(objs[k])
    ensures VisitNodes(t, objs, i, n, e, lim).value.stringBytes == t.stringBytes + StringTotal(objs) <= lim.stringBytes
    decreases objs
  {
    hide VisitRefs;
    if objs != [] {
      var t1 := VisitNode(t, objs[0], i, n, e, lim).value;
      if objs[0].kind != StringKind {
        EdgesUntouched(t.(edges := t.edges + |objs[0].refs|), objs[0].refs, t.depths[i] + 1, n, lim);
      }
      assert Shaped(objs[0]);
      StringsCounted(t1, objs[1..], i + 1, n, e, lim);
    }
  }

  // ---- the depth quota -----------------------------------------------------------------------

  predicate DepthsWithin(t: Trace, bound: nat) {
    forall k :: 0 <= k < |t.depths| ==> t.depths[k] <= bound
  }

  /** Raising only the depth quota changes nothing but which depths are refused. */
  ghost predicate Shallower(lim: Limits, deep: Limits) {
    deep == lim.(depth := deep.depth) && lim.depth <= deep.depth
  }

  lemma RefUnderDepth(t: Trace, r: Ref, d: nat, n: nat, lim: Limits, deep: Limits)
    requires Shallower(lim, deep) && DepthsWithin(t, lim.depth)
    ensures VisitRef(t, r, d, n, lim).Ok? <==>
            VisitRef(t, r, d, n, deep).Ok? && DepthsWithin(VisitRef(t, r, d, n, deep).value, lim.depth)
    ensures VisitRef(t, r, d, n, lim).Ok? ==> VisitRef(t, r, d, n, lim) == VisitRef(t, r, d, n, deep)
  {
    var v := VisitRef(t, r, d, n, deep);
    if v.Ok? && r.Node? && r.id == |t.depths| {
      assert v.value.depths[|t.depths|] == d;
    }
  }

  lemma DepthsInherited(t: Trace, t1: Trace, bound: nat)
    requires Extends(t.depths, t1.depths)
    ensures DepthsWithin(t1, bound) ==> DepthsWithin(t, bound)
  {
    forall k | 0 <= k < |t.depths| && DepthsWithin(t1, bound) ensures t.depths[k] <= bound {
      assert t1.depths[..|t.depths|][k] == t1.depths[k];
    }
  }

  lemma {:induction false} RefsUnderDepth(t: Trace, refs: seq<Ref>, d: nat, n: nat, lim: Limits, deep: Limits)
    requires Shallower(lim, deep) && DepthsWithin(t, lim.depth)
    ensures VisitRefs(t, refs, d, n, lim).Ok? <==>
            VisitRefs(t, refs, d, n, deep).Ok? && DepthsWithin(VisitRefs(t, refs, d, n, deep).value, lim.depth)
    ensures VisitRefs(t, refs, d, n, lim).Ok? ==> VisitRefs(t, refs, d, n, lim) == VisitRefs(t, refs, d, n, deep)
    decreases refs
  {
    hide VisitRef, DepthsWithin, Shallower;
    if refs != [] {
      RefUnderDepth(t, refs[0], d, n, lim, deep);
      var v := VisitRef(t, refs[0], d, n, deep);
      if v.Ok? {
        if DepthsWithin(v.value, lim.depth) {
          RefsUnderDepth(v.value, refs[1..], d, n, lim, deep);
        } else if VisitRefs(v.value, refs[1..], d, n, deep).Ok? {
          RefsNumbered(v.value, refs[1..], d, n, deep);
          DepthsInherited(v.value, VisitRefs(t, refs, d, n, deep).value, lim.depth);
        }
      }
    }
  }

  lemma NodeUnderDepth(t: Trace, o: Obj, i: nat, n: nat, e: nat, lim: Limits, deep: Limits)
    requires Shallower(lim, deep) && DepthsWithin(t, lim.depth)
    ensures var v, v' := VisitNode(t, o, i, n, e, lim), VisitNode(t, o, i, n, e, deep);
            && (v.Ok? <==> v'.Ok? && DepthsWithin(v'.value, lim.depth))
            && (v.Ok? ==> v == v')
            && (v'.Ok? ==> Extends(t.depths, v'.value.depths))
  {
    hide VisitRefs;
    if i < |t.depths| && o.kind != StringKind {
      var t0 := t.(edges := t.edges + |o.refs|);
      RefsUnderDepth(t0, o.refs, t.depths[i] + 1, n, lim, deep);
      if VisitRefs(t0, o.refs, t.depths[i] + 1, n, deep).Ok? {
        RefsNumbered(t0, o.refs, t.depths[i] + 1, n, deep);
      }
    }
  }

  lemma {:induction false} NodesExtend(t: Trace, objs: seq<Obj>, i: nat, n: nat, e: nat, lim: Limits)
    requires VisitNodes(t, objs, i, n, e, lim).Ok?
    ensures Extends(t.depths, VisitNodes(t, objs, i, n, e, lim).value.depths)
    decreases objs
  {
    hide VisitRefs;
    if objs != [] {
      var t1 := VisitNode(t, objs[0], i, n, e, lim).value;
      if objs[0].kind != StringKind {
        RefsNumbered(t.(edges := t.edges + |objs[0].refs|), objs[0].refs, t.depths[i] + 1, n, lim);
      }
      NodesExtend(t1, objs[1..], i + 1, n, e, lim);
      var t2 := VisitNodes(t1, objs[1..], i + 1, n, e, lim).value;
      assert t2.depths[..|t.depths|] == t2.depths[..|t1.depths|][..|t.depths|];
    }
  }

  lemma {:induction false} NodesUnderDepth(
    t: Trace, objs: seq<Obj>, i: nat, n: nat, e: nat, lim: Limits, deep: Limits)
    requires Shallower(lim, deep) && DepthsWithin(t, lim.depth)
    ensures var v, v' := VisitNodes(t, objs, i, n, e, lim), VisitNodes(t, objs, i, n, e, deep);
            && (v.Ok? <==> v'.Ok? && DepthsWithin(v'.value, lim.depth))
            && (v.Ok? ==> v == v')
    decreases objs
  {
    hide VisitNode, DepthsWithin, Shallower;
    if objs != [] {
      NodeUnderDepth(t, objs[0], i, n, e, lim, deep);
      var v' := VisitNode(t, objs[0], i, n, e, deep);
      if v'.Ok? {
        if DepthsWithin(v'.value, lim.depth) {
          NodesUnderDepth(v'.value, objs[1..], i + 1, n, e, lim, deep);
        } else if VisitNodes(v'.value, objs[1..], i + 1, n, e, deep).Ok? {
          NodesExtend(v'.value, objs[1..], i + 1, n, e, deep);
          DepthsInherited(v'.value, VisitNodes(t, objs, i, n, e, deep).value, lim.depth);
        }
      }
    }
  }

  lemma GraphUnderDepth(g: Graph, lim: Limits, deep: Limits)
    requires Shallower(lim, deep)
    ensures VisitGraph(g, lim).Ok? <==>
            VisitGraph(g, deep).Ok? && DepthsWithin(VisitGraph(g, deep).value, lim.depth)
    ensures VisitGraph(g, lim).Ok? ==> VisitGraph(g, lim) == VisitGraph(g, deep)
  {
    hide VisitRef, VisitNodes;
    var n, e := |g.objs|, EdgeTotal(g.objs);
    RefUnderDepth(START, g.root, 0, n, lim, deep);
    var v := VisitRef(START, g.root, 0, n, deep);
    if v.Ok? {
      if DepthsWithin(v.value, lim.depth) {
        NodesUnderDepth(v.value, g.objs, 0, n, e, lim, deep);
      } else if VisitNodes(v.value, g.objs, 0, n, e, deep).Ok? {
        NodesExtend(v.value, g.objs, 0, n, e, deep);
        DepthsInherited(v.value, VisitNodes(v.value, g.objs, 0, n, e, deep).value, lim.depth);
      }
    }
  }

  // ---- the characterization ------------------------------------------------------------------

  lemma {:induction false} BeforeGrows(g: Graph, i: nat, j: nat, r: Ref)
    requires i <= j <= |g.objs| && r in Before(g, i)
    ensures r in Before(g, j)
    decreases j - i
  {
    if i < j {
      BeforeGrows(g, i, j - 1, r);
    }
  }

  lemma {:induction false} IdsInRange(g: Graph, i: nat, lim: Limits, id: nat)
    requires i <= |g.objs| && RecordsNext(g, i, lim) && Node(id) in Before(g, i)
    ensures id < |g.objs|
  {
    var refs := Before(g, i);
    var k :| 0 <= k < |refs| && refs[k] == Node(id);
    assert NextInOrder([] + refs[..k], refs[k], |g.objs|);
  }

  /** With a depth quota nothing can reach, acceptance is numbering and totals alone. */
  lemma AcceptedWhenDeep(g: Graph, deep: Limits)
    requires deep.depth > |g.objs| && forall k :: 0 <= k < |g.objs| ==> Shaped(g.objs[k])
    ensures VisitGraph(g, deep).Ok? <==>
            && |g.objs| <= deep.nodes && EdgeTotal(g.objs) <= deep.edges
            && StringTotal(g.objs) <= deep.stringBytes && RecordsNext(g, |g.objs|, deep)
  {
    hide VisitRef, VisitNodes, RecordsNext, Shaped, NextInOrder, SymbolFits;
    var n, e := |g.objs|, EdgeTotal(g.objs);
    assert g.objs[0..] == g.objs;
    assert Before(g, 0) == [g.root] && [] + [g.root] == [g.root];
    RefAccepted([], START, g.root, 0, n, deep);
    RootNext(g, deep);
    RootKept(g, deep);
    var v := VisitRef(START, g.root, 0, n, deep);
    if v.Ok? {
      if StringTotal(g.objs) <= deep.stringBytes {
        NodesAccepted(g, v.value, 0, deep);
        if RecordsNext(g, n, deep) {
          AllKnown(g, VisitNodes(v.value, g.objs, 0, n, e, deep).value, deep);
        }
      } else if VisitNodes(v.value, g.objs, 0, n, e, deep).Ok? {
        StringsCounted(v.value, g.objs, 0, n, e, deep);
      }
    } else if RecordsNext(g, n, deep) {
      RecordsNextPrefix(g, 0, n, deep);
    }
  }

  lemma RootNext(g: Graph, lim: Limits)
    ensures RecordsNext(g, 0, lim) <==> NextInOrder([], g.root, |g.objs|) && SymbolFits([], g.root, lim)
  {
    var refs := Before(g, 0);
    assert [] + refs[..0] == [] && refs[0] == g.root;
    if NextInOrder([], g.root, |g.objs|) && SymbolFits([], g.root, lim) {
      forall k | 0 <= k < |refs|
        ensures NextInOrder([] + refs[..k], refs[k], |g.objs|) && SymbolFits([] + refs[..k], refs[k], lim)
      {
        assert k == 0;
      }
    }
  }

  lemma RootKept(g: Graph, lim: Limits)
    ensures var v := VisitRef(START, g.root, 0, |g.objs|, lim);
            v.Ok? ==> && v.value.edges == 0 && v.value.stringBytes == 0
                      && forall k :: 0 <= k < |v.value.depths| ==> v.value.depths[k] == 0
  {
  }

  lemma AllKnown(g: Graph, t: Trace, lim: Limits)
    requires RecordsNext(g, |g.objs|, lim) && Reached(g, t, |g.objs|)
    ensures |t.depths| == |g.objs| && t.edges == EdgeTotal(g.objs)
  {
    hide AllNext, Before;
    var n := |g.objs|;
    if n > 0 {
      assert Node(n - 1) in Before(g, n - 1);
      BeforeGrows(g, n - 1, n, Node(n - 1));
    }
    if |t.depths| > n {
      IdsInRange(g, n, lim, |t.depths| - 1);
    }
  }

  /** parse's walk accepts a graph exactly when it is numbered in order and within every quota. */
  lemma AcceptedExactly(g: Graph, lim: Limits)
    requires forall k :: 0 <= k < |g.objs| ==> Shaped(g.objs[k])
    ensures VisitGraph(g, lim).Ok? <==> Numbered(g) && WithinQuotas(g, lim)
  {
    hide VisitGraph, RecordsNext, Numbered, Shaped, IsDistance;
    var deep := lim.(depth := lim.depth + |g.objs| + 1);
    GraphUnderDepth(g, lim, deep);
    AcceptedWhenDeep(g, deep);
    RecordsNextMeaning(g, deep);
    var refs := Before(g, |g.objs|);
    assert SymbolsShort(refs) <==> forall r :: r in refs && r.Symbol? ==> |r.name| <= MAX_SYMBOL_NAME_BYTES by {
      if SymbolsShort(refs) {
        forall r | r in refs && r.Symbol? ensures |r.name| <= MAX_SYMBOL_NAME_BYTES {
          var k :| 0 <= k < |refs| && refs[k] == r;
        }
      }
    }
    if VisitGraph(g, deep).Ok? {
      DepthIsDistance(g, deep);
      DepthQuota(g, VisitGraph(g, deep).value, lim);
    }
  }

  lemma DistanceUnique(g: Graph, i: nat, a: nat, b: nat)
    requires IsDistance(g, i, a) && IsDistance(g, i, b)
    ensures a == b
  {
    var p, q :| PathTo(g, p, i, a) && PathTo(g, q, i, b);
  }

  lemma DepthQuota(g: Graph, t: Trace, lim: Limits)
    requires |t.depths| == |g.objs| && forall i :: 0 <= i < |g.objs| ==> IsDistance(g, i, t.depths[i])
    ensures DepthsWithin(t, lim.depth) <==>
            forall i: nat, d: nat :: i < |g.objs| && IsDistance(g, i, d) ==> d <= lim.depth
  {
    hide IsDistance;
    forall i: nat, d: nat | i < |g.objs| && IsDistance(g, i, d) ensures d == t.depths[i] {
      DistanceUnique(g, i, d, t.depths[i]);
    }
  }
}
