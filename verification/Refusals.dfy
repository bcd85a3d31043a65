/**
 * Why parse and export refuse (artifact_value.zig:238-476 and 558-730): every error says something
 * true about the bytes or the heap, and nothing but a quota refuses what is well formed.
 */
module Refusals {
  import opened BigEndian
  import opened Graph
  import opened HeapExport
  import opened Numbering
  import opened Payload
  import opened Results
  import opened Visit
  import opened Wire

  // ---- parse: quotas and everything else -----------------------------------------------------

  predicate NoTighter(lim: Limits, wide: Limits) {
    && lim.nodes <= wide.nodes && lim.edges <= wide.edges && lim.depth <= wide.depth
    && lim.stringBytes <= wide.stringBytes && lim.symbolBytes <= wide.symbolBytes
  }

  /** Wider limits change nothing but a refusal for a limit. */
  predicate Relaxed<T(==)>(v: Result<T>, wide: Result<T>) {
    (v.Ok? ==> wide == v) && (v.Err? ==> (v.error == InvalidArtifact && wide == v) || v.error == CapsuleLimitExceeded)
  }

  lemma VisitRelaxed(t: Trace, r: Ref, depth: nat, n: nat, lim: Limits, wide: Limits)
    requires NoTighter(lim, wide)
    ensures Relaxed(VisitRef(t, r, depth, n, lim), VisitRef(t, r, depth, n, wide))
  {
  }

  /** One reference: a symbol name is at most 0xFFFE bytes, and a node is known or the next one. */
  lemma VisitErrors(t: Trace, r: Ref, depth: nat, n: nat, lim: Limits)
    ensures var v := VisitRef(t, r, depth, n, lim);
            && (v == Err(InvalidArtifact) <==>
                  (r.Symbol? && |r.name| > 0xFFFE) || (r.Node? && (r.id >= n || r.id > |t.depths|)))
            && (v == Err(CapsuleLimitExceeded) <==>
                  || (r.Symbol? && |r.name| <= 0xFFFE && t.symbolBytes + |r.name| > lim.symbolBytes)
                  || (r.Node? && r.id == |t.depths| < n && depth > lim.depth))
            && (v.Ok? ==> v.value == if r.Symbol? then t.(symbolBytes := t.symbolBytes + |r.name|)
                                     else if r.Node? && r.id == |t.depths| then t.(depths := t.depths + [depth]) else t)
  {
  }

  lemma ReadErrors(s: Bytes)
    ensures ReadRef(s).Err? ==> ReadRef(s).error == InvalidArtifact
    ensures ReadHeader(s).Err? ==> ReadHeader(s).error == InvalidArtifact
  {
  }

  lemma {:induction false} RefsRelaxed(
    s: Bytes, count: nat, t: Trace, depth: nat, n: nat, lim: Limits, wide: Limits)
    requires NoTighter(lim, wide)
    ensures Relaxed(ParseRefs(s, count, t, depth, n, lim), ParseRefs(s, count, t, depth, n, wide))
    decreases count
  {
    hide ReadRef, VisitRef, NoTighter;
    ReadErrors(s);
    if count > 0 && ReadRef(s).Ok? {
      var (r, rest) := ReadRef(s).value;
      VisitRelaxed(t, r, depth, n, lim, wide);
      var v := VisitRef(t, r, depth, n, lim);
      if v.Ok? {
        RefsRelaxed(rest, count - 1, v.value, depth, n, lim, wide);
      }
    }
  }

  lemma RecordRelaxed(s: Bytes, h: Header, t: Trace, n: nat, e: nat, lim: Limits, wide: Limits)
    requires NoTighter(lim, wide) && h.id < |t.depths|
    ensures Relaxed(ParseRecord(s, h, t, n, e, lim), ParseRecord(s, h, t, n, e, wide))
  {
    hide ParseRefs, Decode;
    if Take(s, h.bodyLen).Ok? {
      var (body, _) := Take(s, h.bodyLen).value;
      if TakeInt(body, 4).Ok? {
        var (count, rest) := TakeInt(body, 4).value;
        var edges := AnnouncedEdges(h, count);
        RefsRelaxed(rest, edges, t.(edges := t.edges + edges), t.depths[h.id] + 1, n, lim, wide);
      }
    }
  }

  lemma NodeRelaxed(s: Bytes, id: nat, t: Trace, n: nat, e: nat, lim: Limits, wide: Limits)
    requires NoTighter(lim, wide)
    ensures Relaxed(ParseNode(s, id, t, n, e, lim), ParseNode(s, id, t, n, e, wide))
  {
    hide ParseRecord, ReadHeader, NoTighter;
    ReadErrors(s);
    if id < |t.depths| && ReadHeader(s).Ok? {
      var (h, rest) := ReadHeader(s).value;
      if h.id == id {
        RecordRelaxed(rest, h, t, n, e, lim, wide);
      }
    }
  }

  lemma {:induction false} NodesRelaxed(
    s: Bytes, id: nat, t: Trace, n: nat, e: nat, lim: Limits, wide: Limits)
    requires NoTighter(lim, wide) && id <= n
    ensures Relaxed(ParseNodes(s, id, t, n, e, lim), ParseNodes(s, id, t, n, e, wide))
    decreases n - id
  {
    hide ParseNode, NoTighter;
    if id < n {
      NodeRelaxed(s, id, t, n, e, lim, wide);
      var v := ParseNode(s, id, t, n, e, lim);
      if v.Ok? {
        NodesRelaxed(v.value.2, id + 1, v.value.1, n, e, lim, wide);
      }
    }
  }

  /**
   * Payload parsing reports two errors. An invalid artifact is invalid under any wider limits too, an
   * accepted one is accepted with the same result, and only a refusal for a limit depends on limits.
   */
  lemma PayloadErrors(s: Bytes, lim: Limits, wide: Limits)
    requires NoTighter(lim, wide)
    ensures var v, w := ParsePayload(s, lim), ParsePayload(s, wide);
            && (v.Ok? ==> w == v)
            && (v.Err? ==> v.error == InvalidArtifact || v.error == CapsuleLimitExceeded)
            && (v == Err(InvalidArtifact) ==> w == v)
  {
    hide ParseNodes, ReadRef, VisitRef, Decode;
    if TakeInt(s, 4).Ok? {
      var (n, rest) := TakeInt(s, 4).value;
      if TakeInt(rest, 4).Ok? {
        var (e, rest) := TakeInt(rest, 4).value;
        ReadErrors(rest);
        if ReadRef(rest).Ok? {
          var (root, rest) := ReadRef(rest).value;
          VisitRelaxed(START, root, 0, n, lim, wide);
          var v := VisitRef(START, root, 0, n, lim);
          if v.Ok? {
            NodesRelaxed(rest, 0, v.value, n, e, lim, wide);
          }
        }
      }
    }
  }

  /** The encoding of a numbered graph is refused for its quotas only, and exactly when it exceeds them. */
  lemma OnlyQuotasRefuse(g: Graph, lim: Limits)
    requires GraphFits(g) && Numbered(g) && SymbolsShort(Before(g, |g.objs|))
    ensures ParsePayload(EncodePayload(g), lim) ==
            if WithinQuotas(g, lim) then Ok(g) else Err(CapsuleLimitExceeded)
  {
    hide ParsePayload, EncodePayload, VisitGraph, WithinQuotas, Numbered, RecordsNext, SymbolsShort;
    ObjsShaped(g.objs);
    AcceptedExactly(g, lim);
    ParseEncoded(g, lim);
    var refs := Before(g, |g.objs|);
    var wide := Limits(
      lim.encodedBytes, lim.nodes + |g.objs|, lim.edges + EdgeTotal(g.objs), lim.depth + |g.objs| + 1,
      lim.stringBytes + StringTotal(g.objs), lim.symbolBytes + SymbolTotal(refs));
    AcceptedWhenDeep(g, wide);
    RecordsNextMeaning(g, wide);
    ParseEncoded(g, wide);
    PayloadErrors(EncodePayload(g), lim, wide);
  }

  lemma {:induction false} ObjsShaped(objs: seq<Obj>)
    requires ObjsFit(objs)
    ensures forall k :: 0 <= k < |objs| ==> Shaped(objs[k])
  {
    hide Shaped;
    if objs != [] {
      ObjsShaped(objs[1..]);
      assert ObjFits(objs[0]);
      forall k | 0 <= k < |objs| ensures Shaped(objs[k]) {
        if k > 0 {
          assert objs[k] == objs[1..][k - 1];
        }
      }
    }
  }

  // ---- export: each refusal has a culprit ----------------------------------------------------

  /** `within` holds the root and everything references lead to from inside it. */
  ghost predicate Encloses(h: Heap, root: Ref, within: set<nat>) {
    && (root.Node? ==> root.id in within)
    && forall a, j :: a in within && a in h && 0 <= j < |h[a].obj.refs| && h[a].obj.refs[j].Node? ==>
         h[a].obj.refs[j].id in within
  }

  ghost predicate AllWithin(refs: seq<Ref>, within: set<nat>) {
    forall j :: 0 <= j < |refs| && refs[j].Node? ==> refs[j].id in within
  }

  /** A value that is no String, Array or Hash, or a symbol with too long a name. */
  predicate Unsupported(h: Heap, r: Ref) {
    match r
    case Node(a) => a in h && !h[a].container
    case Symbol(name) => |name| > 0xFFFE
    case _ => false
  }

  /** An object of a subclass, with instance variables, or a Hash with a default procedure. */
  predicate OddState(h: Heap, a: nat) {
    a in h && (!h[a].core || h[a].extraIvars || (h[a].obj.kind == HashKind && h[a].defaultProc))
  }

  /** A key that is neither an integer, a float, a symbol nor a plain frozen String. */
  predicate BadKey(h: Heap, r: Ref) {
    match r
    case Node(a) =>
      a in h && !(h[a].container && h[a].core && h[a].obj.kind == StringKind && h[a].obj.frozen && !h[a].extraIvars)
    case _ => r.Nil? || r.False? || r.True?
  }

  /** Some reference in a reachable object, or the root, is unsupported. */
  ghost predicate SomeUnsupported(h: Heap, root: Ref, within: set<nat>) {
    || Unsupported(h, root)
    || exists a, j :: a in within && a in h && 0 <= j < |h[a].obj.refs| && Unsupported(h, h[a].obj.refs[j])
  }

  ghost predicate SomeOddState(h: Heap, within: set<nat>) {
    exists a :: a in within && OddState(h, a)
  }

  ghost predicate SomeBadKey(h: Heap, within: set<nat>) {
    exists a: nat, j: nat :: a in within && a in h && IsKeyEdge(h[a].obj, j) && BadKey(h, h[a].obj.refs[j])
  }

  /** A refusal for `e` is deserved. */
  ghost predicate Deserved(e: Error, h: Heap, root: Ref, within: set<nat>) {
    match e
    case UnsupportedValue => SomeUnsupported(h, root, within)
    case UnsupportedContainerState => SomeOddState(h, within)
    case UnsupportedHashKey => SomeBadKey(h, within)
    case _ => e == CapsuleLimitExceeded
  }

  lemma RefDeserves(h: Heap, c: Context, v: Ref, depth: nat, lim: Limits, within: set<nat>)
    requires Pointed(h, v) && (v.Node? ==> v.id in within)
    ensures var r := ExportRef(h, c, v, depth, lim);
            && (r.Err? ==>
                  || (r.error == UnsupportedValue && Unsupported(h, v))
                  || (r.error == UnsupportedContainerState && SomeOddState(h, within))
                  || r.error == CapsuleLimitExceeded)
            && (r.Ok? ==> c.order <= r.value.0.order
                          && forall k :: |c.order| <= k < |r.value.0.order| ==> r.value.0.order[k] in within)
  {
    if v.Node? && !h[v.id].core {
      assert OddState(h, v.id);
    }
  }

  lemma {:induction false} EdgesDeserve(
    h: Heap, c: Context, a: nat, j: nat, depth: nat, lim: Limits, root: Ref, within: set<nat>)
    requires HeapValid(h) && a in h && a in within && Encloses(h, root, within) && j <= |h[a].obj.refs|
    requires forall k :: 0 <= k < |c.order| ==> c.order[k] in within
    ensures var r := ExportEdges(h, c, h[a].obj, j, depth, lim);
            && (r.Err? ==> Deserved(r.error, h, root, within))
            && (r.Ok? ==> forall k :: 0 <= k < |r.value.0.order| ==> r.value.0.order[k] in within)
    decreases |h[a].obj.refs| - j
  {
    hide ExportRef;
    var o := h[a].obj;
    if j < |o.refs| {
      RefDeserves(h, c, o.refs[j], depth, lim, within);
      if IsKeyEdge(o, j) && !KeyAllowed(h, o.refs[j]) {
        assert BadKey(h, o.refs[j]);
      } else {
        var r := ExportRef(h, c, o.refs[j], depth, lim);
        if r.Ok? {
          EdgesDeserve(h, r.value.0, a, j + 1, depth, lim, root, within);
        }
      }
    }
  }

  lemma NodeDeserves(h: Heap, c: Context, i: nat, lim: Limits, root: Ref, within: set<nat>)
    requires HeapValid(h) && ContextValid(h, c) && i < |c.order| && Encloses(h, root, within)
    requires forall k :: 0 <= k < |c.order| ==> c.order[k] in within
    ensures var r := InspectNode(h, c, i, lim);
            && (r.Err? ==> Deserved(r.error, h, root, within))
            && (r.Ok? ==> forall k :: 0 <= k < |r.value.0.order| ==> r.value.0.order[k] in within)
  {
    hide ExportEdges, Encloses, SomeUnsupported, SomeBadKey;
    var a := c.order[i];
    if h[a].extraIvars || (h[a].obj.kind == HashKind && h[a].defaultProc) {
      assert OddState(h, a);
    }
    var total := c.trace.edges + |h[a].obj.refs|;
    EdgesDeserve(h, c.(trace := c.trace.(edges := total)), a, 0, c.trace.depths[i] + 1, lim, root, within);
  }

  lemma {:induction false} NodesDeserve(h: Heap, c: Context, i: nat, lim: Limits, root: Ref, within: set<nat>)
    requires HeapValid(h) && ContextValid(h, c) && i <= |c.order| <= lim.nodes && Encloses(h, root, within)
    requires forall k :: 0 <= k < |c.order| ==> c.order[k] in within
    ensures var r := ExportNodes(h, c, i, lim); r.Err? ==> Deserved(r.error, h, root, within)
    decreases lim.nodes - i
  {
    hide InspectNode, Encloses, Deserved, HeapValid, ContextValid;
    if i < |c.order| {
      NodeDeserves(h, c, i, lim, root, within);
      var r := InspectNode(h, c, i, lim);
      if r.Ok? {
        NodeStep(h, c, i, lim, 0, 0);
        NodesDeserve(h, r.value.0, i + 1, lim, root, within);
      }
    }
  }

  /**
   * Export refuses only what deserves it: an unsupported value, an odd state or a bad key that is
   * really reachable from the root (in every set that encloses it), or a limit. A root from which none
   * of those is reachable can be refused for a limit only.
   */
  lemma ExportErrors(h: Heap, root: Ref, lim: Limits, within: set<nat>)
    requires HeapValid(h) && Pointed(h, root) && Encloses(h, root, within)
    ensures var r := ExportGraph(h, root, lim); r.Err? ==> Deserved(r.error, h, root, within)
  {
    hide Encloses, HeapValid;
    RefDeserves(h, Context([], START), root, 0, lim, within) by {
      RootEnclosed(h, root, within);
    }
    var r := ExportRef(h, Context([], START), root, 0, lim);
    if r.Ok? {
      StartValid(h, root, lim);
      NodesDeserve(h, r.value.0, 0, lim, root, within);
    }
  }

  lemma RootEnclosed(h: Heap, root: Ref, within: set<nat>)
    requires Encloses(h, root, within)
    ensures root.Node? ==> root.id in within
  {
  }

  lemma StartValid(h: Heap, root: Ref, lim: Limits)
    requires HeapValid(h) && Pointed(h, root) && ExportRef(h, Context([], START), root, 0, lim).Ok?
    ensures var c := ExportRef(h, Context([], START), root, 0, lim).value.0;
            ContextValid(h, c) && |c.order| <= lim.nodes
  {
    RefStep(h, Context([], START), root, 0, lim, 0);
  }
}
