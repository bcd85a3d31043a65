/**
 * Moving a value between heaps: exportValue end to end, its agreement with parse, and the round
 * trips (artifact_value.zig:168-236).
 */
module Transfer {
  import opened BigEndian
  import opened Canonical
  import opened Capsule
  import opened CapsuleWriter
  import opened Envelope
  import opened Graph
  import opened HashKeys
  import opened HeapExport
  import opened Numbering
  import opened Payload
  import opened Results
  import opened Visit

  /**
   * exportValue: number the heap, encode, wrap, and run the import's own admission over the finished
   * bytes. Any preflight refusal other than a limit would be a construction failure.
   */
  ghost function ExportCapsule(sha: Digest, h: Heap, root: Ref, lim: Limits, schema: Option<Schema>): Result<Bytes>
    requires HeapValid(h) && Pointed(h, root) && SchemaFits(schema)
  {
    var (g, _) :- ExportGraph(h, root, lim);
    if !GraphFits(g) || HEADER_LEN + |EncodePayload(g)| >= U64 then Err(ArtifactLimitExceeded)
    else
      var s :- WrapState(sha, EncodePayload(g), schema, lim.encodedBytes);
      match ParseCapsule(sha, s, lim, schema)
      case Ok(_) => Ok(s)
      case Err(e) => if e == CapsuleLimitExceeded then Err(e) else Err(ArtifactConstructionFailed)
  }

  // ---- exported graphs are well formed -------------------------------------------------------

  lemma PlacedRefFits(h: Heap, order: seq<nat>, r: Ref, n: nat)
    requires |order| == n < U32 && (r.Node? ==> r.id < n) && Pointed(h, PlaceRef(r, order))
    requires r.Symbol? ==> |r.name| <= MAX_SYMBOL_NAME_BYTES
    ensures RefFits(r)
  {
  }

  lemma ExportedRecord(h: Heap, root: Ref, g: Graph, order: seq<nat>, lim: Limits, i: nat)
    requires HeapValid(h) && Holds(h, root, g, order) && |g.objs| < U32 && i < |g.objs|
    requires forall r :: r in Before(g, |g.objs|) && r.Symbol? ==> |r.name| <= MAX_SYMBOL_NAME_BYTES
    ensures RecordFits(g.objs[i], |g.objs|)
  {
    hide RefFits, Before, KeyAllowed;
    var o := g.objs[i];
    assert Faithful(h, order, 0 + i, o);
    var placed := h[order[i]].obj;
    assert Shaped(placed);
    forall j | 0 <= j < |o.refs| ensures RefFits(o.refs[j]) {
      EdgesAreReferences(g, i, j);
      assert placed.refs[j] == PlaceRef(o.refs[j], order) && Pointed(h, placed.refs[j]);
      PlacedRefFits(h, order, o.refs[j], |order|);
    }
  }

  lemma ExportedKeys(h: Heap, root: Ref, g: Graph, order: seq<nat>, i: nat, j: nat)
    requires HeapValid(h) && Holds(h, root, g, order)
    requires i < |g.objs| && j < |g.objs[i].refs| && IsKeyEdge(g.objs[i], j)
    ensures KeyRefAllowed(g, g.objs[i].refs[j])
    ensures HeapKey(h, h[order[i]].obj.refs[j]) == NormalKey(g, g.objs[i].refs[j])
  {
    hide RefFits;
    var o, r := g.objs[i], g.objs[i].refs[j];
    assert Faithful(h, order, 0 + i, o);
    var placed := h[order[i]].obj;
    assert IsKeyEdge(placed, j) && placed.refs[j] == PlaceRef(r, order) && KeyAllowed(h, placed.refs[j]);
    if r.Node? {
      assert Faithful(h, order, 0 + r.id, g.objs[r.id]);
    }
  }

  lemma ExportedWellFormed(h: Heap, root: Ref, lim: Limits)
    requires HeapValid(h) && Pointed(h, root) && ExportGraph(h, root, lim).Ok?
    ensures WellFormed(ExportGraph(h, root, lim).value.0)
  {
    hide ExportGraph, HeapValid, Holds, RefFits, VisitGraph, KeyRefAllowed, IsKeyEdge, Numbered, Shaped, RecordFits;
    ExportSound(h, root, lim);
    var (g, c) := ExportGraph(h, root, lim).value;
    HeldShapes(h, root, g, c.order);
    AcceptedExactly(g, lim);
    forall i | 0 <= i < |g.objs| ensures RecordFits(g.objs[i], |g.objs|) {
      ExportedRecord(h, root, g, c.order, lim, i);
    }
    forall i, j | 0 <= i < |g.objs| && 0 <= j < |g.objs[i].refs| && IsKeyEdge(g.objs[i], j)
      ensures KeyRefAllowed(g, g.objs[i].refs[j])
    {
      ExportedKeys(h, root, g, c.order, i, j);
    }
    HeldRoot(h, root, g, c.order, lim);
  }

  lemma HeldShapes(h: Heap, root: Ref, g: Graph, order: seq<nat>)
    requires HeapValid(h) && Holds(h, root, g, order)
    ensures forall k :: 0 <= k < |g.objs| ==> Shaped(g.objs[k])
  {
    forall k | 0 <= k < |g.objs| ensures Shaped(g.objs[k]) {
      assert Faithful(h, order, 0 + k, g.objs[k]);
      assert Shaped(h[order[k]].obj);
    }
  }

  lemma HeldRoot(h: Heap, root: Ref, g: Graph, order: seq<nat>, lim: Limits)
    requires HeapValid(h) && Pointed(h, root) && Holds(h, root, g, order) && |g.objs| < U32
    requires WithinQuotas(g, lim)
    ensures IdsBelow([g.root], |g.objs|) && RefFits(g.root)
  {
    BeforeGrows(g, 0, |g.objs|, g.root);
    if g.root.Node? {
      assert [g.root][0].id < |order|;
    }
    PlacedRefFits(h, order, g.root, |order|);
  }

  lemma {:induction false} FitRecordsEncodable(objs: seq<Obj>, n: nat)
    requires forall k :: 0 <= k < |objs| ==> RecordFits(objs[k], n)
    ensures RecordsEncodable(objs)
  {
    if objs != [] {
      hide RefFits;
      assert RecordFits(objs[0], n);
      RefsFitMembers(objs[0].refs);
      forall k | 0 <= k < |objs| - 1 ensures RecordFits(objs[1..][k], n) {
        assert objs[1..][k] == objs[k + 1];
      }
      FitRecordsEncodable(objs[1..], n);
    }
  }

  /** A well-formed graph meets the writers' preconditions; only an overlong body can be refused. */
  lemma WellFormedIsEncodable(g: Graph)
    requires WellFormed(g)
    ensures RecordsEncodable(g.objs) && RefFits(g.root) && |g.objs| < U32 && EdgeTotal(g.objs) < U32
  {
    FitRecordsEncodable(g.objs, |g.objs|);
  }

  // ---- hash keys in the heap -----------------------------------------------------------------

  /** A key of a heap Hash, as the interpreter compares it. */
  function HeapKey(h: Heap, v: Ref): Option<HashKey>
    requires Pointed(h, v)
  {
    match v
    case Int(i) => Some(IntKey(i))
    case Float(bits) => Some(FloatKey(if IsZero(bits) then 0 else bits))
    case Symbol(name) => Some(SymbolKey(name))
    case Node(a) => if KeyAllowed(h, v) then Some(StringKey(h[a].obj.bytes)) else None
    case _ => None
  }

  /** The interpreter never stores two equal keys in one Hash. */
  ghost predicate HeapHashesValid(h: Heap)
    requires HeapValid(h)
  {
    forall a, p, q {:trigger KeyRefs(h[a].obj)[p], KeyRefs(h[a].obj)[q]} ::
      a in h && h[a].obj.kind == HashKind && 0 <= p < q < |KeyRefs(h[a].obj)| ==>
        var x, y := HeapKey(h, KeyRefs(h[a].obj)[p]), HeapKey(h, KeyRefs(h[a].obj)[q]);
        x.Some? && y.Some? ==> !KeyEq(x.value, y.value)
  }

  lemma ExportedKeyAt(h: Heap, root: Ref, g: Graph, order: seq<nat>, i: nat, p: nat)
    requires HeapValid(h) && Holds(h, root, g, order)
    requires i < |g.objs| && g.objs[i].kind == HashKind && p < |KeyRefs(g.objs[i])|
    ensures NormalKey(g, KeyRefs(g.objs[i])[p]).Some?
    ensures i < |order| && order[i] in h && h[order[i]].obj.kind == HashKind
    ensures |KeyRefs(h[order[i]].obj)| == |KeyRefs(g.objs[i])|
    ensures Pointed(h, KeyRefs(h[order[i]].obj)[p])
    ensures HeapKey(h, KeyRefs(h[order[i]].obj)[p]) == NormalKey(g, KeyRefs(g.objs[i])[p])
  {
    hide KeyAllowed, RefFits, NormalKey, HeapKey;
    assert Faithful(h, order, 0 + i, g.objs[i]);
    assert IsKeyEdge(g.objs[i], 2 * p);
    ExportedKeys(h, root, g, order, i, 2 * p);
    NormalKeyMeaning(g, g.objs[i].refs[2 * p]);
  }

  lemma ExportedKeysUnambiguous(h: Heap, root: Ref, g: Graph, order: seq<nat>)
    requires HeapValid(h) && HeapHashesValid(h) && Holds(h, root, g, order)
    ensures KeysUnambiguous(g)
  {
    hide KeyAllowed, RefFits, NormalKey, HeapKey, Holds, HeapValid, KeyEq;
    forall i | 0 <= i < |g.objs| && g.objs[i].kind == HashKind
      ensures KeysNormal(g, g.objs[i]) && PairwiseUnequal(KeysOf(g, g.objs[i]))
    {
      forall p | 0 <= p < |KeyRefs(g.objs[i])| ensures NormalKey(g, KeyRefs(g.objs[i])[p]).Some? {
        ExportedKeyAt(h, root, g, order, i, p);
      }
      var keys := KeysOf(g, g.objs[i]);
      forall p, q | 0 <= p < q < |keys| ensures !KeyEq(keys[p], keys[q]) {
        ExportedKeyAt(h, root, g, order, i, p);
        ExportedKeyAt(h, root, g, order, i, q);
        var stored := KeyRefs(h[order[i]].obj);
        assert HeapKey(h, stored[p]) == Some(keys[p]) && HeapKey(h, stored[q]) == Some(keys[q]);
      }
    }
  }

  // ---- the laws ------------------------------------------------------------------------------

  lemma SchemaAcceptsItself(schema: Option<Schema>)
    ensures SchemaAccepted(schema, schema)
  {
  }

  /** The preflight parses the very graph that was numbered, or refuses it for its hash work. */
  lemma Preflight(sha: Digest, h: Heap, root: Ref, lim: Limits, schema: Option<Schema>)
    requires IsDigest(sha) && HeapValid(h) && Pointed(h, root) && SchemaFits(schema) && ExportGraph(h, root, lim).Ok?
    requires GraphFits(ExportGraph(h, root, lim).value.0)
    requires HEADER_LEN + |EncodePayload(ExportGraph(h, root, lim).value.0)| < U64
    requires HEADER_LEN + |EncodePayload(ExportGraph(h, root, lim).value.0)| <= lim.encodedBytes
    ensures var g := ExportGraph(h, root, lim).value.0;
            ParseCapsule(sha, CapsuleBytes(sha, g, schema), lim, schema) ==
            match CheckNodes(g, 0, NO_WORK) case Ok(_) => Ok((g, schema)) case Err(e) => Err(e)
  {
    hide ExportGraph, HeapValid, GraphFits, EncodePayload, CheckNodes, VisitGraph, ValidateState, EncodeEnvelope,
      ParsePayload, SchemaMetadata, SchemaFits;
    var g := ExportGraph(h, root, lim).value.0;
    ExportSound(h, root, lim);
    SchemaAcceptsItself(schema);
    ValidateExactly(sha, CapsuleBytes(sha, g, schema), schema, lim.encodedBytes, EncodePayload(g), schema);
    ParseEncoded(g, lim);
  }

  /**
   * What exportValue returns, in one line: the capsule of the exported graph, or a limit. The
   * construction-failure branch after the preflight is dead on every heap the interpreter can build.
   */
  lemma ExportMeaning(sha: Digest, h: Heap, root: Ref, lim: Limits, schema: Option<Schema>)
    requires IsDigest(sha) && HeapValid(h) && Pointed(h, root) && SchemaFits(schema)
    requires lim.encodedBytes < U64
    ensures var e, numbered := ExportCapsule(sha, h, root, lim, schema), ExportGraph(h, root, lim);
            && (e.Ok? <==> numbered.Ok? && Acceptable(numbered.value.0, lim))
            && (e.Ok? ==> e == Ok(CapsuleBytes(sha, numbered.value.0, schema)))
            && (HeapHashesValid(h) ==> e != Err(ArtifactConstructionFailed))
  {
    hide ExportGraph, HeapValid, HeapHashesValid, GraphFits, EncodePayload, CheckNodes, VisitGraph, ParseCapsule,
      EncodeEnvelope, KeysUnambiguous, Numbered, WithinQuotas, SchemaFits, SchemaMetadata, Holds;
    if ExportGraph(h, root, lim).Ok? {
      var (g, c) := ExportGraph(h, root, lim).value;
      ExportSound(h, root, lim);
      if GraphFits(g) && HEADER_LEN + |EncodePayload(g)| < U64 && HEADER_LEN + |EncodePayload(g)| <= lim.encodedBytes {
        Preflight(sha, h, root, lim, schema);
        if HeapHashesValid(h) {
          ExportedKeysUnambiguous(h, root, g, c.order);
        }
        HashCheckMeaning(g);
        AllShaped(g);
        AcceptedExactly(g, lim);
      }
    } else {
      GraphErrors(h, root, lim);
    }
  }

  lemma {:induction false} EdgeErrors(h: Heap, c: Context, o: Obj, j: nat, depth: nat, lim: Limits)
    requires j <= |o.refs| && forall i :: 0 <= i < |o.refs| ==> Pointed(h, o.refs[i])
    ensures ExportEdges(h, c, o, j, depth, lim) != Err(ArtifactConstructionFailed)
    decreases |o.refs| - j
  {
    if j < |o.refs| && ExportRef(h, c, o.refs[j], depth, lim).Ok? {
      EdgeErrors(h, ExportRef(h, c, o.refs[j], depth, lim).value.0, o, j + 1, depth, lim);
    }
  }

  lemma {:induction false} NodeErrors(h: Heap, c: Context, i: nat, lim: Limits)
    requires HeapValid(h) && ContextValid(h, c) && i <= |c.order| <= lim.nodes
    ensures ExportNodes(h, c, i, lim) != Err(ArtifactConstructionFailed)
    decreases lim.nodes - i
  {
    hide ExportEdges, ExportRef;
    if i < |c.order| {
      var o := h[c.order[i]].obj;
      EdgeErrors(h, c.(trace := c.trace.(edges := c.trace.edges + |o.refs|)), o, 0, c.trace.depths[i] + 1, lim);
      if InspectNode(h, c, i, lim).Ok? {
        NodeStep(h, c, i, lim, 0, 0);
        NodeErrors(h, InspectNode(h, c, i, lim).value.0, i + 1, lim);
      }
    }
  }

  lemma GraphErrors(h: Heap, root: Ref, lim: Limits)
    requires HeapValid(h) && Pointed(h, root)
    ensures ExportGraph(h, root, lim) != Err(ArtifactConstructionFailed)
  {
    hide ExportNodes;
    var start := Context([], START);
    if ExportRef(h, start, root, 0, lim).Ok? {
      RefStep(h, start, root, 0, lim, 0);
      NodeErrors(h, ExportRef(h, start, root, 0, lim).value.0, 0, lim);
    }
  }

  /** Export then parse: the import reads back a graph that the exporting heap holds, root and all. */
  lemma ExportThenParse(sha: Digest, h: Heap, root: Ref, lim: Limits, schema: Option<Schema>)
    returns (g: Graph, order: seq<nat>)
    requires IsDigest(sha) && HeapValid(h) && Pointed(h, root) && SchemaFits(schema)
    requires lim.encodedBytes < U64 && ExportCapsule(sha, h, root, lim, schema).Ok?
    ensures ParseCapsule(sha, ExportCapsule(sha, h, root, lim, schema).value, lim, schema) == Ok((g, schema))
    ensures Holds(h, root, g, order)
  {
    hide ExportGraph, HeapValid, HeapHashesValid, ExportCapsule, ParseCapsule, CapsuleBytes, Holds, SchemaFits,
      CheckNodes, EncodePayload, GraphFits, Numbered, WithinQuotas, VisitGraph;
    ExportMeaning(sha, h, root, lim, schema);
    ExportSound(h, root, lim);
    g := ExportGraph(h, root, lim).value.0;
    order := ExportGraph(h, root, lim).value.1.order;
    SchemaAcceptsItself(schema);
    ParseExactly(sha, CapsuleBytes(sha, g, schema), lim, schema, g, schema);
  }

  /**
   * Parse then export: any heap that holds a parsed graph exports, under the same limits and schema,
   * to the same bytes.
   */
  lemma ParseThenExport(
    sha: Digest, s: Bytes, lim: Limits, schema: Option<Schema>, accepted: Option<Schema>,
    h: Heap, root: Ref, g: Graph, order: seq<nat>)
    requires IsDigest(sha) && HeapValid(h) && Pointed(h, root) && SchemaFits(schema)
    requires lim.encodedBytes < U64
    requires ParseCapsule(sha, s, lim, accepted) == Ok((g, schema)) && Holds(h, root, g, order)
    ensures ExportCapsule(sha, h, root, lim, schema) == Ok(s)
  {
    hide ExportGraph, HeapValid, HeapHashesValid, ExportCapsule, ParseCapsule, CapsuleBytes, Holds,
      CheckNodes, EncodePayload, Numbered, WithinQuotas, VisitGraph, WellFormed, SchemaFits, SchemaAccepted;
    ParseExactly(sha, s, lim, accepted, g, schema);
    AcceptableIsWellFormed(g, lim);
    Sizes(g);
    ExportComplete(h, root, g, order, lim);
    ExportMeaning(sha, h, root, lim, schema);
  }

  /** Canonical bytes: renaming the addresses of a heap changes neither its capsule nor its refusal. */
  lemma IsomorphicHeapsSameBytes(
    sha: Digest, h: Heap, root: Ref, h': Heap, root': Ref, phi: map<nat, nat>, lim: Limits, schema: Option<Schema>)
    requires IsDigest(sha) && SchemaFits(schema)
    requires HeapValid(h) && HeapValid(h') && Pointed(h, root) && Pointed(h', root')
    requires Isomorphism(h, root, h', root', phi)
    ensures ExportCapsule(sha, h, root, lim, schema) == ExportCapsule(sha, h', root', lim, schema)
  {
    hide ExportGraph, HeapValid, ParseCapsule, GraphFits, EncodePayload, Isomorphism, SchemaFits;
    IsomorphicHeapsExportAlike(h, root, h', root', phi, lim);
  }

  /** An array whose only element is itself travels, under any limits that leave room for one node and one edge. */
  lemma SelfReferenceTravels(sha: Digest, lim: Limits)
    requires IsDigest(sha) && lim.nodes >= 1 && lim.edges >= 1 && HEADER_LEN + 34 <= lim.encodedBytes < U64
    ensures var o := Obj(ArrayKind, false, false, [], [Node(7)]);
            var h: Heap := map[7 := Slot(o, true, true, false, false)];
            && HeapValid(h) && Pointed(h, Node(7)) && SchemaFits(None)
            && ExportGraph(h, Node(7), lim).Ok?
            && ExportGraph(h, Node(7), lim).value.0 == Graph([o.(refs := [Node(0)])], Node(0))
            && ExportCapsule(sha, h, Node(7), lim, None).Ok?
  {
    var h: Heap := map[7 := Slot(Obj(ArrayKind, false, false, [], [Node(7)]), true, true, false, false)];
    var g := Graph([Obj(ArrayKind, false, false, [], [Node(0)])], Node(0));
    SelfReferenceAccepted(g, lim);
    hide ExportCapsule, VisitGraph, ExportGraph, Acceptable, CapsuleBytes;
    assert PlaceRefs([Node(0)], [7]) == [Node(7)];
    assert Faithful(h, [7], 0 + 0, g.objs[0]);
    ExportComplete(h, Node(7), g, [7], lim);
    ExportMeaning(sha, h, Node(7), lim, None);
  }

  lemma SelfReferenceAccepted(g: Graph, lim: Limits)
    requires g == Graph([Obj(ArrayKind, false, false, [], [Node(0)])], Node(0))
    requires lim.nodes >= 1 && lim.edges >= 1 && HEADER_LEN + 34 <= lim.encodedBytes < U64
    ensures VisitGraph(g, lim).Ok? && Acceptable(g, lim)
  {
    var t := Trace([0], 1, 0, 0);
    assert g.objs[1..] == [] && g.objs[0].refs[1..] == [];
    assert VisitRefs(t, g.objs[0].refs, 1, 1, lim) == Ok(t);
    Widths();
    assert RefsFit([Node(0)]);
    AcceptedExactly(g, lim);
  }
}
