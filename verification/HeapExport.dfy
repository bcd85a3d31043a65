/**
 * The inspection half of exportValue (artifact_value.zig:238-476): a breadth-first walk over a
 * heap, numbering containers by first encounter. The main results say when it succeeds and what it
 * returns: exactly when the heap holds an admissible graph at some addresses, and then that graph.
 */
module HeapExport {
  import opened BigEndian
  import opened Graph
  import opened Results
  import opened Visit

  /**
   * One heap object. `container` says it is a String, Array or Hash, `core` that its class pointer
   * is the exact core class, and the other flags name the states exporting refuses.
   */
  datatype Slot = Slot(obj: Obj, container: bool, core: bool, extraIvars: bool, defaultProc: bool)

  /** Objects by address. `Node(a)` in a heap object names the object at address `a`. */
  type Heap = map<nat, Slot>

  /** `nodes` and `identities` as the addresses in ID order, with the depths and totals. */
  datatype Context = Context(order: seq<nat>, trace: Trace)

  predicate Pointed(h: Heap, r: Ref) {
    match r
    case Node(a) => a in h
    case Symbol(_) => true
    case _ => RefFits(r)
  }

  /** What the interpreter itself maintains: no dangling pointer, 64-bit scalars, well-shaped records. */
  ghost predicate HeapValid(h: Heap) {
    forall a :: a in h ==> Shaped(h[a].obj) && forall j :: 0 <= j < |h[a].obj.refs| ==> Pointed(h, h[a].obj.refs[j])
  }

  ghost predicate ContextValid(h: Heap, c: Context) {
    && |c.order| == |c.trace.depths|
    && (forall i :: 0 <= i < |c.order| ==> c.order[i] in h && h[c.order[i]].container && h[c.order[i]].core)
    && (forall i, j :: 0 <= i < j < |c.order| ==> c.order[i] != c.order[j])
  }

  /** The ID `identities` holds for an address. */
  function IdOf(order: seq<nat>, a: nat): (id: nat)
    requires a in order
    ensures id < |order| && order[id] == a
  {
    if order[0] == a then 0 else 1 + IdOf(order[1..], a)
  }

  /** exportRef, for a container. */
  function ExportPointer(h: Heap, c: Context, a: nat, depth: nat, lim: Limits): Result<(Context, Ref)>
    requires a in h
  {
    if !h[a].container then Err(UnsupportedValue)
    else if !h[a].core then Err(UnsupportedContainerState)
    else if a in c.order then Ok((c, Node(IdOf(c.order, a))))
    else if depth > lim.depth || |c.order| >= lim.nodes || |c.order| >= U32 - 1 then Err(CapsuleLimitExceeded)
    else Ok((Context(c.order + [a], c.trace.(depths := c.trace.depths + [depth])), Node(|c.order|)))
  }

  /** exportRef. */
  function ExportRef(h: Heap, c: Context, v: Ref, depth: nat, lim: Limits): Result<(Context, Ref)>
    requires Pointed(h, v)
  {
    match v
    case Symbol(name) =>
      if |name| > MAX_SYMBOL_NAME_BYTES then Err(UnsupportedValue)
      else if c.trace.symbolBytes + |name| > lim.symbolBytes then Err(CapsuleLimitExceeded)
      else Ok((c.(trace := c.trace.(symbolBytes := c.trace.symbolBytes + |name|)), v))
    case Node(a) => ExportPointer(h, c, a, depth, lim)
    case _ => Ok((c, v))
  }

  /** validateExportHashKey. */
  predicate KeyAllowed(h: Heap, v: Ref)
    requires Pointed(h, v)
  {
    match v
    case Node(a) =>
      h[a].container && h[a].core && h[a].obj.kind == StringKind && h[a].obj.frozen && !h[a].extraIvars
    case _ => v.Int? || v.Float? || v.Symbol?
  }

  /** The edge loops of inspectExportNode, from edge `j` on. */
  function ExportEdges(h: Heap, c: Context, o: Obj, j: nat, depth: nat, lim: Limits): Result<(Context, seq<Ref>)>
    requires j <= |o.refs| && forall i :: 0 <= i < |o.refs| ==> Pointed(h, o.refs[i])
    decreases |o.refs| - j
  {
    if j == |o.refs| then Ok((c, []))
    else if IsKeyEdge(o, j) && !KeyAllowed(h, o.refs[j]) then Err(UnsupportedHashKey)
    else
      var (c1, r) :- ExportRef(h, c, o.refs[j], depth, lim);
      var (c2, refs) :- ExportEdges(h, c1, o, j + 1, depth, lim);
      Ok((c2, [r] + refs))
  }

  /** inspectExportNode. */
  function InspectNode(h: Heap, c: Context, i: nat, lim: Limits): Result<(Context, Obj)>
    requires HeapValid(h) && ContextValid(h, c) && i < |c.order|
  {
    var slot := h[c.order[i]];
    var o := slot.obj;
    if slot.extraIvars then Err(UnsupportedContainerState)
    else if o.kind == StringKind then
      if |o.bytes| >= U32 || c.trace.stringBytes + |o.bytes| > lim.stringBytes then Err(CapsuleLimitExceeded)
      else Ok((c.(trace := c.trace.(stringBytes := c.trace.stringBytes + |o.bytes|)), o))
    else if o.kind == HashKind && slot.defaultProc then Err(UnsupportedContainerState)
    else
      var total := c.trace.edges + |o.refs|;
      if total > lim.edges || total >= U32 then Err(CapsuleLimitExceeded)
      else
        var (c1, refs) :- ExportEdges(h, c.(trace := c.trace.(edges := total)), o, 0, c.trace.depths[i] + 1, lim);
        Ok((c1, Obj(o.kind, o.frozen, o.hasDefault, [], refs)))
  }

  // ---- what one step keeps -------------------------------------------------------------------

  function PlaceRef(r: Ref, order: seq<nat>): Ref {
    if r.Node? && r.id < |order| then Node(order[r.id]) else r
  }

  function PlaceRefs(refs: seq<Ref>, order: seq<nat>): (s: seq<Ref>)
    ensures |s| == |refs|
    ensures forall k :: 0 <= k < |refs| ==> s[k] == PlaceRef(refs[k], order)
  {
    seq(|refs|, k requires 0 <= k < |refs| => PlaceRef(refs[k], order))
  }

  /** The record `o` with its node IDs replaced by the addresses the nodes live at. */
  function PlaceObj(o: Obj, order: seq<nat>): Obj {
    o.(refs := PlaceRefs(o.refs, order))
  }

  predicate Extends(before: seq<nat>, after: seq<nat>) {
    |before| <= |after| && after[..|before|] == before
  }

  /** The numbering only grows, within the caller's quota and the format's. */
  predicate Grows(before: seq<nat>, after: seq<nat>, lim: Limits) {
    Extends(before, after) && |after| <= lim.nodes && (|before| < U32 ==> |after| < U32)
  }

  predicate EdgesBounded(t: Trace, lim: Limits) {
    t.edges <= lim.edges && t.edges < U32
  }

  predicate IdsBelow(refs: seq<Ref>, n: nat) {
    forall k :: 0 <= k < |refs| && refs[k].Node? ==> refs[k].id < n
  }

  lemma GrowsReflexive(order: seq<nat>, lim: Limits)
    requires |order| <= lim.nodes
    ensures Grows(order, order, lim)
  {
  }

  lemma GrowsTransitive(a: seq<nat>, b: seq<nat>, c: seq<nat>, lim: Limits)
    requires Grows(a, b, lim) && Grows(b, c, lim)
    ensures Grows(a, c, lim)
  {
    assert c[..|a|] == c[..|b|][..|a|];
  }

  lemma RefPlacementStable(r: Ref, before: seq<nat>, after: seq<nat>)
    requires (r.Node? ==> r.id < |before|) && Extends(before, after)
    ensures PlaceRef(r, after) == PlaceRef(r, before)
  {
    if r.Node? {
      assert after[r.id] == after[..|before|][r.id];
    }
  }

  lemma PlacementStable(refs: seq<Ref>, before: seq<nat>, after: seq<nat>)
    requires IdsBelow(refs, |before|) && Extends(before, after)
    ensures PlaceRefs(refs, after) == PlaceRefs(refs, before)
  {
    forall k | 0 <= k < |refs| ensures PlaceRef(refs[k], after) == PlaceRef(refs[k], before) {
      RefPlacementStable(refs[k], before, after);
    }
  }

  /** Exporting a reference is visiting the reference it produces. */
  lemma RefStep(h: Heap, c: Context, v: Ref, depth: nat, lim: Limits, n: nat)
    requires HeapValid(h) && ContextValid(h, c) && Pointed(h, v) && ExportRef(h, c, v, depth, lim).Ok?
    requires |c.order| <= lim.nodes
    ensures var (c1, r) := ExportRef(h, c, v, depth, lim).value;
            && ContextValid(h, c1) && Grows(c.order, c1.order, lim)
            && c1.trace.edges == c.trace.edges
            && (r.Node? ==> r.id < |c1.order|) && PlaceRef(r, c1.order) == v
            && (|c1.order| <= n ==> VisitRef(c.trace, r, depth, n, lim) == Ok(c1.trace))
  {
  }

  lemma {:induction false} EdgesStep(h: Heap, c: Context, o: Obj, j: nat, depth: nat, lim: Limits, n: nat)
    requires HeapValid(h) && ContextValid(h, c) && |c.order| <= lim.nodes
    requires j <= |o.refs| && forall i :: 0 <= i < |o.refs| ==> Pointed(h, o.refs[i])
    requires ExportEdges(h, c, o, j, depth, lim).Ok?
    ensures var (c1, refs) := ExportEdges(h, c, o, j, depth, lim).value;
            && ContextValid(h, c1) && Grows(c.order, c1.order, lim)
            && c1.trace.edges == c.trace.edges
            && IdsBelow(refs, |c1.order|) && PlaceRefs(refs, c1.order) == o.refs[j..]
            && (|c1.order| <= n ==> VisitRefs(c.trace, refs, depth, n, lim) == Ok(c1.trace))
            && forall i :: j <= i < |o.refs| && IsKeyEdge(o, i) ==> KeyAllowed(h, o.refs[i])
    decreases |o.refs| - j
  {
    hide ExportRef, KeyAllowed, ContextValid, HeapValid, VisitRef, PlaceRef, IsKeyEdge;
    if j == |o.refs| {
      GrowsReflexive(c.order, lim);
    } else {
      var (c1, r) := ExportRef(h, c, o.refs[j], depth, lim).value;
      RefStep(h, c, o.refs[j], depth, lim, n);
      EdgesStep(h, c1, o, j + 1, depth, lim, n);
      var (c2, refs) := ExportEdges(h, c1, o, j + 1, depth, lim).value;
      assert ([r] + refs)[0] == r && ([r] + refs)[1..] == refs;
      GrowsTransitive(c.order, c1.order, c2.order, lim);
      RefPlacementStable(r, c1.order, c2.order);
      assert PlaceRefs([r] + refs, c2.order) == [o.refs[j]] + PlaceRefs(refs, c2.order);
    }
  }

  predicate Inspectable(slot: Slot) {
    !slot.extraIvars && !(slot.obj.kind == HashKind && slot.defaultProc)
  }

  ghost predicate KeysAllowedIn(h: Heap, o: Obj)
    requires forall i :: 0 <= i < |o.refs| ==> Pointed(h, o.refs[i])
  {
    forall i :: 0 <= i < |o.refs| && IsKeyEdge(o, i) ==> KeyAllowed(h, o.refs[i])
  }

  lemma NodeStep(h: Heap, c: Context, i: nat, lim: Limits, n: nat, e: nat)
    requires HeapValid(h) && ContextValid(h, c) && i < |c.order| <= lim.nodes && InspectNode(h, c, i, lim).Ok?
    ensures var (c1, o) := InspectNode(h, c, i, lim).value;
            && ContextValid(h, c1) && Grows(c.order, c1.order, lim)
            && c1.trace.edges == c.trace.edges + |o.refs|
            && (EdgesBounded(c.trace, lim) ==> EdgesBounded(c1.trace, lim))
            && |o.bytes| < U32
            && IdsBelow(o.refs, |c1.order|) && PlaceObj(o, c1.order) == h[c.order[i]].obj
            && Inspectable(h[c.order[i]]) && KeysAllowedIn(h, h[c.order[i]].obj)
            && (|c1.order| <= n && c1.trace.edges <= e ==> VisitNode(c.trace, o, i, n, e, lim) == Ok(c1.trace))
  {
    hide ExportRef, KeyAllowed, ExportEdges, VisitRefs;
    var o := h[c.order[i]].obj;
    assert Shaped(o);
    if o.kind == StringKind {
      assert PlaceRefs([], c.order) == [];
    } else {
      var c0 := c.(trace := c.trace.(edges := c.trace.edges + |o.refs|));
      EdgesStep(h, c0, o, 0, c.trace.depths[i] + 1, lim, n);
    }
  }

  // ---- the whole walk ------------------------------------------------------------------------

  /** exportValue's cursor loop, from node `i` on. */
  function ExportNodes(h: Heap, c: Context, i: nat, lim: Limits): Result<(Context, seq<Obj>)>
    requires HeapValid(h) && ContextValid(h, c) && i <= |c.order| <= lim.nodes
    decreases lim.nodes - i
  {
    if i == |c.order| then Ok((c, []))
    else
      var (c1, o) :- InspectNode(h, c, i, lim);
      NodeStep(h, c, i, lim, 0, 0);
      var (c2, objs) :- ExportNodes(h, c1, i + 1, lim);
      Ok((c2, [o] + objs))
  }

  /** exportValue up to the finished node list. */
  function ExportGraph(h: Heap, root: Ref, lim: Limits): Result<(Graph, Context)>
    requires HeapValid(h) && Pointed(h, root)
  {
    var (c0, r) :- ExportRef(h, Context([], START), root, 0, lim);
    RefStep(h, Context([], START), root, 0, lim, 0);
    var (c, objs) :- ExportNodes(h, c0, 0, lim);
    Ok((Graph(objs, r), c))
  }

  /** The heap holds record `o` at `order[i]`, in a state that may be exported. */
  ghost predicate Faithful(h: Heap, order: seq<nat>, i: nat, o: Obj)
    requires HeapValid(h)
  {
    && i < |order| && order[i] in h
    && h[order[i]].container && h[order[i]].core && Inspectable(h[order[i]])
    && KeysAllowedIn(h, h[order[i]].obj)
    && PlaceObj(o, order) == h[order[i]].obj && IdsBelow(o.refs, |order|) && |o.bytes| < U32
  }

  ghost predicate AllFaithful(h: Heap, order: seq<nat>, i: nat, objs: seq<Obj>)
    requires HeapValid(h)
  {
    forall k :: 0 <= k < |objs| ==> Faithful(h, order, i + k, objs[k])
  }

  /** The heap, from `root` on, is the graph `g` with node `i` living at address `order[i]`. */
  ghost predicate Holds(h: Heap, root: Ref, g: Graph, order: seq<nat>)
    requires HeapValid(h)
  {
    && |order| == |g.objs|
    && (forall i, j :: 0 <= i < j < |order| ==> order[i] != order[j])
    && AllFaithful(h, order, 0, g.objs)
    && IdsBelow([g.root], |order|) && PlaceRef(g.root, order) == root
  }

  lemma FaithfulStable(h: Heap, before: seq<nat>, after: seq<nat>, i: nat, o: Obj)
    requires HeapValid(h) && Extends(before, after) && Faithful(h, before, i, o)
    ensures Faithful(h, after, i, o)
  {
    PlacementStable(o.refs, before, after);
    assert after[i] == after[..|before|][i];
  }

  lemma {:induction false} NodesSound(h: Heap, c: Context, i: nat, lim: Limits, n: nat, e: nat)
    requires HeapValid(h) && ContextValid(h, c) && i <= |c.order| <= lim.nodes && ExportNodes(h, c, i, lim).Ok?
    requires EdgesBounded(c.trace, lim)
    ensures var (c2, objs) := ExportNodes(h, c, i, lim).value;
            && ContextValid(h, c2) && Grows(c.order, c2.order, lim) && i + |objs| == |c2.order|
            && AllFaithful(h, c2.order, i, objs)
            && c2.trace.edges == c.trace.edges + EdgeTotal(objs) && EdgesBounded(c2.trace, lim)
            && (|c2.order| <= n && c2.trace.edges <= e ==> VisitNodes(c.trace, objs, i, n, e, lim) == Ok(c2.trace))
    decreases lim.nodes - i
  {
    hide InspectNode, VisitNode, KeysAllowedIn, KeyAllowed, Inspectable, IdsBelow, PlaceRefs, HeapValid;
    if i < |c.order| {
      NodeStep(h, c, i, lim, n, e);
      var (c1, o) := InspectNode(h, c, i, lim).value;
      assert c1.order[i] == c1.order[..|c.order|][i];
      NodesSound(h, c1, i + 1, lim, n, e);
      var (c2, objs) := ExportNodes(h, c1, i + 1, lim).value;
      assert Faithful(h, c1.order, i, o);
      FaithfulStable(h, c1.order, c2.order, i, o);
      assert ([o] + objs)[1..] == objs;
      forall k | 0 <= k < |objs| + 1 ensures Faithful(h, c2.order, i + k, ([o] + objs)[k]) {
        if k > 0 {
          assert Faithful(h, c2.order, i + 1 + (k - 1), objs[k - 1]);
        }
      }
    }
  }

  /** Soundness: what exportValue numbers is in the heap, and parse's walk accepts it with the same totals. */
  lemma ExportSound(h: Heap, root: Ref, lim: Limits)
    requires HeapValid(h) && Pointed(h, root) && ExportGraph(h, root, lim).Ok?
    ensures var (g, c) := ExportGraph(h, root, lim).value;
            && Holds(h, root, g, c.order) && VisitGraph(g, lim) == Ok(c.trace)
            && |g.objs| < U32 && EdgeTotal(g.objs) < U32
  {
    hide ExportRef, ExportNodes, AllFaithful, VisitRef, VisitNodes, PlaceRef;
    var start := Context([], START);
    var (g, c) := ExportGraph(h, root, lim).value;
    RefStep(h, start, root, 0, lim, |c.order|);
    var (c0, r) := ExportRef(h, start, root, 0, lim).value;
    NodesSound(h, c0, 0, lim, |c.order|, c.trace.edges);
    PlacementStable([r], c0.order, c.order);
    assert PlaceRefs([r], c.order)[0] == PlaceRefs([r], c0.order)[0];
  }
}
