/**
 * Canonical form. Exporting succeeds exactly on the heaps that hold an admissible graph, it returns
 * that graph, and therefore the bytes depend on a heap only up to renaming its addresses.
 */
module Canonical {
  import opened BigEndian
  import opened Graph
  import opened HeapExport
  import opened Results
  import opened Visit

  ghost predicate Distinct(order: seq<nat>) {
    forall i, j :: 0 <= i < j < |order| ==> order[i] != order[j]
  }

  /** The export context that mirrors a visit that has numbered `|t.depths|` nodes. */
  function At(order: seq<nat>, t: Trace): Context
    requires |t.depths| <= |order|
  {
    Context(order[..|t.depths|], t)
  }

  lemma IdOfPrefix(order: seq<nat>, k: nat, id: nat)
    requires Distinct(order) && id < k <= |order|
    ensures order[id] in order[..k] && IdOf(order[..k], order[id]) == id
  {
    var p := order[..k];
    assert p[id] == order[id];
    var j := IdOf(p, p[id]);
    assert p[j] == order[j];
  }

  lemma FreshInPrefix(order: seq<nat>, k: nat)
    requires Distinct(order) && k < |order|
    ensures order[k] !in order[..k] && order[..k] + [order[k]] == order[..k + 1]
  {
  }

  lemma RefComplete(h: Heap, order: seq<nat>, t: Trace, r: Ref, depth: nat, lim: Limits)
    requires Distinct(order) && |t.depths| <= |order| <= lim.nodes && |order| < U32
    requires forall i :: 0 <= i < |order| ==> order[i] in h && h[order[i]].container && h[order[i]].core
    requires IdsBelow([r], |order|) && Pointed(h, PlaceRef(r, order))
    requires VisitRef(t, r, depth, |order|, lim).Ok?
    ensures var t1 := VisitRef(t, r, depth, |order|, lim).value;
            && |t1.depths| <= |order|
            && ExportRef(h, At(order, t), PlaceRef(r, order), depth, lim) == Ok((At(order, t1), r))
  {
    if r.Node? {
      assert [r][0].id < |order|;
      if r.id < |t.depths| {
        IdOfPrefix(order, |t.depths|, r.id);
      } else {
        FreshInPrefix(order, r.id);
      }
    }
  }

  lemma {:induction false} EdgesComplete(
    h: Heap, order: seq<nat>, t: Trace, o: Obj, refs: seq<Ref>, j: nat, depth: nat, lim: Limits)
    requires Distinct(order) && |t.depths| <= |order| <= lim.nodes && |order| < U32
    requires forall i :: 0 <= i < |order| ==> order[i] in h && h[order[i]].container && h[order[i]].core
    requires forall i :: 0 <= i < |o.refs| ==> Pointed(h, o.refs[i])
    requires j + |refs| == |o.refs| && IdsBelow(refs, |order|) && o.refs[j..] == PlaceRefs(refs, order)
    requires KeysAllowedIn(h, o)
    requires VisitRefs(t, refs, depth, |order|, lim).Ok?
    ensures var t1 := VisitRefs(t, refs, depth, |order|, lim).value;
            && |t1.depths| <= |order|
            && ExportEdges(h, At(order, t), o, j, depth, lim) == Ok((At(order, t1), refs))
    decreases refs
  {
    hide ExportRef, VisitRef, KeyAllowed, At;
    if refs != [] {
      assert o.refs[j] == o.refs[j..][0] == PlaceRef(refs[0], order);
      RefComplete(h, order, t, refs[0], depth, lim);
      var t1 := VisitRef(t, refs[0], depth, |order|, lim).value;
      assert o.refs[j + 1..] == o.refs[j..][1..];
      assert PlaceRefs(refs[1..], order) == PlaceRefs(refs, order)[1..];
      EdgesComplete(h, order, t1, o, refs[1..], j + 1, depth, lim);
      assert [refs[0]] + refs[1..] == refs;
    }
  }

  lemma NodeComplete(h: Heap, order: seq<nat>, t: Trace, o: Obj, i: nat, e: nat, lim: Limits)
    requires HeapValid(h) && Distinct(order) && |t.depths| <= |order| <= lim.nodes && |order| < U32
    requires forall i :: 0 <= i < |order| ==> order[i] in h && h[order[i]].container && h[order[i]].core
    requires Faithful(h, order, i, o) && i < |t.depths| && e <= lim.edges && e < U32
    requires VisitNode(t, o, i, |order|, e, lim).Ok?
    ensures var t1 := VisitNode(t, o, i, |order|, e, lim).value;
            && |t1.depths| <= |order| && ContextValid(h, At(order, t))
            && InspectNode(h, At(order, t), i, lim) == Ok((At(order, t1), o))
  {
    hide ExportRef, ExportEdges, VisitRefs, KeyAllowed;
    var placed := h[order[i]].obj;
    assert Shaped(placed);
    if o.kind == StringKind {
      assert |o.refs| == |placed.refs|;
    } else {
      var t0 := t.(edges := t.edges + |o.refs|);
      assert placed.refs[0..] == PlaceRefs(o.refs, order);
      EdgesComplete(h, order, t0, placed, o.refs, 0, t.depths[i] + 1, lim);
    }
  }

  lemma {:induction false} NodesComplete(
    h: Heap, order: seq<nat>, t: Trace, objs: seq<Obj>, i: nat, e: nat, lim: Limits)
    requires HeapValid(h) && Distinct(order) && |t.depths| <= |order| <= lim.nodes && |order| < U32
    requires forall i :: 0 <= i < |order| ==> order[i] in h && h[order[i]].container && h[order[i]].core
    requires AllFaithful(h, order, i, objs) && i + |objs| == |order| && i <= |t.depths|
    requires e <= lim.edges && e < U32
    requires VisitNodes(t, objs, i, |order|, e, lim).Ok?
    requires |VisitNodes(t, objs, i, |order|, e, lim).value.depths| == |order|
    ensures var t1 := VisitNodes(t, objs, i, |order|, e, lim).value;
            ContextValid(h, At(order, t)) && ExportNodes(h, At(order, t), i, lim) == Ok((At(order, t1), objs))
    decreases objs
  {
    hide InspectNode, Faithful, HeapValid;
    if objs != [] {
      assert Faithful(h, order, i + 0, objs[0]);
      VisitedBefore(t, objs, i, |order|, e, lim);
      NodeComplete(h, order, t, objs[0], i, e, lim);
      var t1 := VisitNode(t, objs[0], i, |order|, e, lim).value;
      forall k | 0 <= k < |objs| - 1 ensures Faithful(h, order, i + 1 + k, objs[1..][k]) {
        assert Faithful(h, order, i + (k + 1), objs[k + 1]);
      }
      NodeGrows(t, objs[0], i, |order|, e, lim);
      NodesComplete(h, order, t1, objs[1..], i + 1, e, lim);
      assert [objs[0]] + objs[1..] == objs;
    }
  }

  lemma VisitedBefore(t: Trace, objs: seq<Obj>, i: nat, n: nat, e: nat, lim: Limits)
    requires objs != [] && VisitNodes(t, objs, i, n, e, lim).Ok?
    ensures i < |t.depths| && VisitNode(t, objs[0], i, n, e, lim).Ok?
  {
  }

  lemma {:induction false} RefsGrow(t: Trace, refs: seq<Ref>, depth: nat, n: nat, lim: Limits)
    requires VisitRefs(t, refs, depth, n, lim).Ok?
    ensures |t.depths| <= |VisitRefs(t, refs, depth, n, lim).value.depths|
    decreases refs
  {
    if refs != [] {
      RefsGrow(VisitRef(t, refs[0], depth, n, lim).value, refs[1..], depth, n, lim);
    }
  }

  lemma NodeGrows(t: Trace, o: Obj, i: nat, n: nat, e: nat, lim: Limits)
    requires VisitNode(t, o, i, n, e, lim).Ok?
    ensures |t.depths| <= |VisitNode(t, o, i, n, e, lim).value.depths|
  {
    if o.kind != StringKind {
      RefsGrow(t.(edges := t.edges + |o.refs|), o.refs, t.depths[i] + 1, n, lim);
    }
  }

  /** Completeness: a heap that holds an admissible graph exports to that very graph, in that order. */
  lemma ExportComplete(h: Heap, root: Ref, g: Graph, order: seq<nat>, lim: Limits)
    requires HeapValid(h) && Pointed(h, root) && Holds(h, root, g, order)
    requires VisitGraph(g, lim).Ok? && |g.objs| < U32 && EdgeTotal(g.objs) < U32
    ensures ExportGraph(h, root, lim) == Ok((g, Context(order, VisitGraph(g, lim).value)))
  {
    hide ExportRef, ExportNodes, VisitRef, VisitNodes, Inspectable, KeysAllowedIn, PlaceObj, HeapValid;
    forall i | 0 <= i < |order| ensures order[i] in h && h[order[i]].container && h[order[i]].core {
      assert Faithful(h, order, 0 + i, g.objs[i]);
    }
    assert At(order, START) == Context([], START);
    var n, e := |order|, EdgeTotal(g.objs);
    RefComplete(h, order, START, g.root, 0, lim);
    var t0 := VisitRef(START, g.root, 0, n, lim).value;
    NodesComplete(h, order, t0, g.objs, 0, e, lim);
    var t := VisitGraph(g, lim).value;
    assert order[..|t.depths|] == order;
  }

  /** exportValue's node list, characterized: which heaps have one, which one, and at which addresses. */
  lemma ExportExactly(h: Heap, root: Ref, g: Graph, order: seq<nat>, lim: Limits)
    requires HeapValid(h) && Pointed(h, root)
    ensures (ExportGraph(h, root, lim).Ok? && ExportGraph(h, root, lim).value.0 == g
             && ExportGraph(h, root, lim).value.1.order == order)
            <==>
            (Holds(h, root, g, order) && VisitGraph(g, lim).Ok? && |g.objs| < U32 && EdgeTotal(g.objs) < U32)
  {
    hide ExportGraph, Holds, VisitGraph, HeapValid;
    if ExportGraph(h, root, lim).Ok? {
      ExportSound(h, root, lim);
    }
    if Holds(h, root, g, order) && VisitGraph(g, lim).Ok? && |g.objs| < U32 && EdgeTotal(g.objs) < U32 {
      ExportComplete(h, root, g, order, lim);
    }
  }

  // ---- isomorphic heaps ----------------------------------------------------------------------

  function RenameRef(r: Ref, phi: map<nat, nat>): Ref {
    if r.Node? && r.id in phi then Node(phi[r.id]) else r
  }

  function RenameObj(o: Obj, phi: map<nat, nat>): Obj {
    o.(refs := seq(|o.refs|, k requires 0 <= k < |o.refs| => RenameRef(o.refs[k], phi)))
  }

  /** `phi` renames the part of `h` it is defined on into `h'`, root to root, following every edge. */
  ghost predicate Isomorphism(h: Heap, root: Ref, h': Heap, root': Ref, phi: map<nat, nat>) {
    && (forall a :: a in phi ==> a in h && phi[a] in h' && h'[phi[a]] == h[a].(obj := RenameObj(h[a].obj, phi)))
    && (forall a, b :: a in phi && b in phi && phi[a] == phi[b] ==> a == b)
    && (forall a, j :: a in phi && 0 <= j < |h[a].obj.refs| && h[a].obj.refs[j].Node? ==> h[a].obj.refs[j].id in phi)
    && (root.Node? ==> root.id in phi)
    && root' == RenameRef(root, phi)
  }

  ghost predicate Covers(phi: map<nat, nat>, order: seq<nat>) {
    forall i :: 0 <= i < |order| ==> order[i] in phi
  }

  function Renamed(order: seq<nat>, phi: map<nat, nat>): (r: seq<nat>)
    requires forall i :: 0 <= i < |order| ==> order[i] in phi
    ensures |r| == |order| && forall i :: 0 <= i < |order| ==> r[i] == phi[order[i]]
  {
    seq(|order|, i requires 0 <= i < |order| => phi[order[i]])
  }

  /** The other heap's export context, once the addresses are renamed. */
  function Mirror(c: Context, phi: map<nat, nat>): Context
    requires Covers(phi, c.order)
  {
    Context(Renamed(c.order, phi), c.trace)
  }

  predicate Injective(phi: map<nat, nat>) {
    forall a, b :: a in phi && b in phi && phi[a] == phi[b] ==> a == b
  }

  lemma {:induction false} SameFirst(order: seq<nat>, order': seq<nat>, a: nat, a': nat)
    requires |order| == |order'| && forall k :: 0 <= k < |order| ==> (order[k] == a <==> order'[k] == a')
    requires a in order && a' in order'
    ensures IdOf(order', a') == IdOf(order, a)
  {
    if order[0] != a {
      SameFirst(order[1..], order'[1..], a, a');
    }
  }

  lemma IdRenamed(order: seq<nat>, phi: map<nat, nat>, a: nat)
    requires Injective(phi) && Covers(phi, order) && a in phi
    ensures a in order <==> phi[a] in Renamed(order, phi)
    ensures a in order ==> IdOf(Renamed(order, phi), phi[a]) == IdOf(order, a)
  {
    var order' := Renamed(order, phi);
    forall k | 0 <= k < |order| ensures order[k] == a <==> order'[k] == phi[a] {
      assert order[k] in phi;
    }
    if a in order {
      var k :| 0 <= k < |order| && order[k] == a;
      assert order'[k] == phi[a];
      SameFirst(order, order', a, phi[a]);
    }
  }

  /** The rule of both walks: an error here is the same error there, and a result here is its mirror there. */
  ghost predicate Mirrored<T(!new)>(r: Result<(Context, T)>, r': Result<(Context, T)>, phi: map<nat, nat>) {
    match r
    case Err(e) => r' == Err(e)
    case Ok((c, v)) => Covers(phi, c.order) && r' == Ok((Mirror(c, phi), v))
  }

  lemma RefMirrored(h: Heap, h': Heap, c: Context, v: Ref, depth: nat, lim: Limits, phi: map<nat, nat>)
    requires Injective(phi) && Covers(phi, c.order) && Pointed(h, v) && Pointed(h', RenameRef(v, phi))
    requires v.Node? ==>
               && v.id in phi && h'[phi[v.id]].container == h[v.id].container
               && h'[phi[v.id]].core == h[v.id].core
    ensures Mirrored(ExportRef(h, c, v, depth, lim), ExportRef(h', Mirror(c, phi), RenameRef(v, phi), depth, lim), phi)
  {
    if v.Node? {
      IdRenamed(c.order, phi, v.id);
      var longer := c.order + [v.id];
      if v.id !in c.order {
        assert Renamed(longer, phi) == Renamed(c.order, phi) + [phi[v.id]];
      }
    }
  }

  lemma {:induction false} EdgesMirrored(
    h: Heap, root: Ref, h': Heap, root': Ref, phi: map<nat, nat>, c: Context, o: Obj, j: nat, depth: nat, lim: Limits)
    requires Isomorphism(h, root, h', root', phi) && Covers(phi, c.order) && j <= |o.refs|
    requires forall i :: 0 <= i < |o.refs| ==> Pointed(h, o.refs[i]) && (o.refs[i].Node? ==> o.refs[i].id in phi)
    requires forall i :: 0 <= i < |o.refs| ==> Pointed(h', RenameObj(o, phi).refs[i])
    ensures Mirrored(ExportEdges(h, c, o, j, depth, lim),
                     ExportEdges(h', Mirror(c, phi), RenameObj(o, phi), j, depth, lim), phi)
    decreases |o.refs| - j
  {
    hide ExportRef, Pointed;
    if j < |o.refs| {
      assert RenameObj(o, phi).refs[j] == RenameRef(o.refs[j], phi);
      KeyMirrored(h, root, h', root', phi, o.refs[j]);
      EdgeTarget(h, root, h', root', phi, o.refs[j]);
      RefMirrored(h, h', c, o.refs[j], depth, lim, phi);
      var r := ExportRef(h, c, o.refs[j], depth, lim);
      if r.Ok? {
        EdgesMirrored(h, root, h', root', phi, r.value.0, o, j + 1, depth, lim);
      }
    }
  }

  lemma EdgeTarget(h: Heap, root: Ref, h': Heap, root': Ref, phi: map<nat, nat>, v: Ref)
    requires Isomorphism(h, root, h', root', phi) && (v.Node? ==> v.id in phi)
    ensures v.Node? ==> v.id in h && phi[v.id] in h'
    ensures v.Node? ==> h'[phi[v.id]] == h[v.id].(obj := RenameObj(h[v.id].obj, phi))
    ensures Injective(phi)
  {
  }

  lemma KeyMirrored(h: Heap, root: Ref, h': Heap, root': Ref, phi: map<nat, nat>, v: Ref)
    requires Isomorphism(h, root, h', root', phi) && (v.Node? ==> v.id in phi)
    requires Pointed(h, v) && Pointed(h', RenameRef(v, phi))
    ensures KeyAllowed(h', RenameRef(v, phi)) == KeyAllowed(h, v)
  {
  }

  lemma NodeMirrored(h: Heap, root: Ref, h': Heap, root': Ref, phi: map<nat, nat>, c: Context, i: nat, lim: Limits)
    requires HeapValid(h) && HeapValid(h') && Isomorphism(h, root, h', root', phi)
    requires ContextValid(h, c) && Covers(phi, c.order) && ContextValid(h', Mirror(c, phi)) && i < |c.order|
    ensures Mirrored(InspectNode(h, c, i, lim), InspectNode(h', Mirror(c, phi), i, lim), phi)
  {
    hide ExportEdges;
    var a := c.order[i];
    var o := h[a].obj;
    assert h'[phi[a]].obj == RenameObj(o, phi);
    if o.kind != StringKind {
      var total := c.trace.edges + |o.refs|;
      EdgesMirrored(h, root, h', root', phi, c.(trace := c.trace.(edges := total)), o, 0, c.trace.depths[i] + 1, lim);
    } else {
      assert Shaped(o);
      assert RenameObj(o, phi) == o;
    }
  }

  lemma MirrorValid(h: Heap, root: Ref, h': Heap, root': Ref, phi: map<nat, nat>, c: Context)
    requires Isomorphism(h, root, h', root', phi) && ContextValid(h, c) && Covers(phi, c.order)
    ensures ContextValid(h', Mirror(c, phi))
  {
  }

  lemma {:induction false} NodesMirrored(
    h: Heap, root: Ref, h': Heap, root': Ref, phi: map<nat, nat>, c: Context, i: nat, lim: Limits)
    requires HeapValid(h) && HeapValid(h') && Isomorphism(h, root, h', root', phi)
    requires ContextValid(h, c) && Covers(phi, c.order) && ContextValid(h', Mirror(c, phi))
             && i <= |c.order| <= lim.nodes
    ensures Mirrored(ExportNodes(h, c, i, lim), ExportNodes(h', Mirror(c, phi), i, lim), phi)
    decreases lim.nodes - i
  {
    hide InspectNode, Isomorphism, HeapValid, ContextValid;
    if i < |c.order| {
      NodeMirrored(h, root, h', root', phi, c, i, lim);
      var r := InspectNode(h, c, i, lim);
      if r.Ok? {
        NodeStep(h, c, i, lim, 0, 0);
        MirrorValid(h, root, h', root', phi, r.value.0);
        NodesMirrored(h, root, h', root', phi, r.value.0, i + 1, lim);
      }
    }
  }

  /**
   * Canonical form: renaming the addresses of a heap renames the address order and changes nothing
   * else, not even which error a refused export ends in.
   */
  lemma IsomorphicHeapsExportAlike(h: Heap, root: Ref, h': Heap, root': Ref, phi: map<nat, nat>, lim: Limits)
    requires HeapValid(h) && HeapValid(h') && Pointed(h, root) && Pointed(h', root')
    requires Isomorphism(h, root, h', root', phi)
    ensures match ExportGraph(h, root, lim)
            case Err(e) => ExportGraph(h', root', lim) == Err(e)
            case Ok((g, c)) =>
              Covers(phi, c.order) && ExportGraph(h', root', lim) == Ok((g, Context(Renamed(c.order, phi), c.trace)))
  {
    hide ExportNodes, ExportRef, HeapValid, ContextValid, Isomorphism, Pointed, Grows, PlaceRef, VisitRef;
    var start := Context([], START);
    RootMirrored(h, root, h', root', phi, lim);
    var r := ExportRef(h, start, root, 0, lim);
    assert Mirror(start, phi) == start;
    if r.Ok? {
      StartValid(h);
      StartStepValid(h, root, lim);
      MirrorValid(h, root, h', root', phi, r.value.0);
      NodesMirrored(h, root, h', root', phi, r.value.0, 0, lim);
    }
  }

  lemma StartStepValid(h: Heap, root: Ref, lim: Limits)
    requires HeapValid(h) && Pointed(h, root) && ExportRef(h, Context([], START), root, 0, lim).Ok?
    ensures var c := ExportRef(h, Context([], START), root, 0, lim).value.0;
            ContextValid(h, c) && |c.order| <= lim.nodes
  {
    RefStep(h, Context([], START), root, 0, lim, 0);
  }

  lemma StartValid(h: Heap)
    ensures ContextValid(h, Context([], START))
  {
  }

  lemma RootMirrored(h: Heap, root: Ref, h': Heap, root': Ref, phi: map<nat, nat>, lim: Limits)
    requires Pointed(h, root) && Pointed(h', root') && Isomorphism(h, root, h', root', phi)
    ensures Mirrored(ExportRef(h, Context([], START), root, 0, lim), ExportRef(h', Context([], START), root', 0, lim),
                     phi)
  {
    EdgeTarget(h, root, h', root', phi, root);
    assert Mirror(Context([], START), phi) == Context([], START);
    RefMirrored(h, h', Context([], START), root, 0, lim, phi);
  }

  // ---- a graph as a heap of its own ----------------------------------------------------------

  function Identity(n: nat): (ids: seq<nat>)
    ensures |ids| == n && forall i :: 0 <= i < n ==> ids[i] == i
  {
    seq(n, i requires 0 <= i < n => i)
  }

  /** The heap whose address `i` holds node `i`. */
  function HeapOf(g: Graph): Heap {
    map i: nat | 0 <= i < |g.objs| :: Slot(g.objs[i], true, true, false, false)
  }

  /** mrz_artifact_hash_key_valid, over the whole graph. */
  predicate KeyRefAllowed(g: Graph, r: Ref) {
    match r
    case Node(id) => id < |g.objs| && g.objs[id].kind == StringKind && g.objs[id].frozen
    case _ => r.Int? || r.Float? || r.Symbol?
  }

  predicate KeysAllowed(g: Graph) {
    forall i, j :: 0 <= i < |g.objs| && 0 <= j < |g.objs[i].refs| && IsKeyEdge(g.objs[i], j)
      ==> KeyRefAllowed(g, g.objs[i].refs[j])
  }

  predicate RecordFits(o: Obj, n: nat) {
    && Shaped(o) && |o.bytes| < U32 && IdsBelow(o.refs, n)
    && forall j :: 0 <= j < |o.refs| ==> RefFits(o.refs[j])
  }

  /** What parse guarantees of a graph besides its numbering. */
  predicate WellFormed(g: Graph) {
    && |g.objs| < U32 && EdgeTotal(g.objs) < U32
    && (forall i :: 0 <= i < |g.objs| ==> RecordFits(g.objs[i], |g.objs|))
    && IdsBelow([g.root], |g.objs|) && RefFits(g.root)
    && KeysAllowed(g)
  }

  lemma HeapOfHolds(g: Graph)
    requires WellFormed(g)
    ensures HeapValid(HeapOf(g)) && Pointed(HeapOf(g), g.root)
    ensures Holds(HeapOf(g), g.root, g, Identity(|g.objs|))
  {
    var h, ids := HeapOf(g), Identity(|g.objs|);
    assert [g.root][0] == g.root;
    forall i | 0 <= i < |g.objs| ensures RecordFits(g.objs[i], |g.objs|) && PlaceObj(g.objs[i], ids) == g.objs[i] {
      assert PlaceRefs(g.objs[i].refs, ids) == g.objs[i].refs;
    }
    forall k | 0 <= k < |g.objs| ensures Faithful(h, ids, 0 + k, g.objs[k]) {
      assert RecordFits(g.objs[k], |g.objs|);
    }
  }

  /** An accepted graph, laid out as a heap, exports to itself: exporting is idempotent. */
  lemma AcceptedGraphIsCanonical(g: Graph, lim: Limits)
    requires WellFormed(g) && VisitGraph(g, lim).Ok?
    ensures HeapValid(HeapOf(g)) && Pointed(HeapOf(g), g.root)
    ensures ExportGraph(HeapOf(g), g.root, lim) == Ok((g, Context(Identity(|g.objs|), VisitGraph(g, lim).value)))
  {
    hide ExportGraph, VisitGraph, WellFormed, Holds, HeapValid;
    HeapOfHolds(g);
    assert |g.objs| < U32 && EdgeTotal(g.objs) < U32 by {
      Sizes(g);
    }
    ExportComplete(HeapOf(g), g.root, g, Identity(|g.objs|), lim);
  }

  lemma Sizes(g: Graph)
    requires WellFormed(g)
    ensures |g.objs| < U32 && EdgeTotal(g.objs) < U32
  {
  }

  /** Rigidity: a root-preserving isomorphism of accepted graphs moves no node. */
  lemma IsomorphicGraphsAreEqual(g: Graph, g': Graph, phi: map<nat, nat>, lim: Limits)
    requires WellFormed(g) && WellFormed(g') && VisitGraph(g, lim).Ok? && VisitGraph(g', lim).Ok?
    requires Isomorphism(HeapOf(g), g.root, HeapOf(g'), g'.root, phi)
    ensures g == g' && forall i :: 0 <= i < |g.objs| ==> i in phi && phi[i] == i
  {
    hide ExportGraph, VisitGraph, WellFormed, HeapValid, Isomorphism;
    AcceptedGraphIsCanonical(g, lim);
    AcceptedGraphIsCanonical(g', lim);
    IsomorphicHeapsExportAlike(HeapOf(g), g.root, HeapOf(g'), g'.root, phi, lim);
    var ids := Identity(|g.objs|);
    assert Renamed(ids, phi) == Identity(|g'.objs|);
    forall i | 0 <= i < |g.objs| ensures i in phi && phi[i] == i {
      assert Renamed(ids, phi)[i] == phi[ids[i]];
    }
  }
}
