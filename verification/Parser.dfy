/**
 * parse as it runs (artifact_value.zig:558-851): one pass over the payload that fills the node,
 * edge, depth and seen arrays in place, proved to compute exactly the parse function of `Payload`.
 */
module Parser {
  import opened Accumulate
  import opened BigEndian
  import opened Graph
  import opened NormalGraph
  import opened Payload
  import opened Results
  import opened Streams
  import opened Visit
  import opened Wire

  const NO_REF := CRef(0, (0, 0, 0), 0, 0, [])
  const NO_NODE := CNode(0, 0, 0, 0, 0, 0, [])

  class ParseContext {
    const limits: Limits
    const nodes: array<CNode>
    const edges: array<CRef>
    const depths: array<nat>
    const seen: array<bool>
    var edgeCursor: nat
    var nextNodeId: nat
    var totalStringBytes: nat
    var totalSymbolBytes: nat

    constructor (nodeCount: nat, edgeCount: nat, limits: Limits)
      ensures Valid() && fresh(nodes) && fresh(edges) && fresh(depths) && fresh(seen)
      ensures nodes.Length == nodeCount && edges.Length == edgeCount && this.limits == limits
      ensures Now() == START
    {
      this.limits := limits;
      nodes := new CNode[nodeCount](_ => NO_NODE);
      edges := new CRef[edgeCount](_ => NO_REF);
      depths := new nat[nodeCount](_ => 0);
      seen := new bool[nodeCount](_ => false);
      edgeCursor, nextNodeId, totalStringBytes, totalSymbolBytes := 0, 0, 0, 0;
    }

    /** A node has been seen exactly when its ID is below the next expected one. */
    ghost predicate Valid()
      reads this, seen
    {
      && depths.Length == seen.Length == nodes.Length
      && nextNodeId <= nodes.Length && edgeCursor <= edges.Length
      && forall i :: 0 <= i < seen.Length ==> (seen[i] <==> i < nextNodeId)
    }

    /** The walk state these fields represent. */
    ghost function Now(): Trace
      reads this, depths, seen
      requires Valid()
    {
      Trace(depths[..nextNodeId], edgeCursor, totalStringBytes, totalSymbolBytes)
    }

    /** parseRef. */
    method ParseRef(wire: Ref, depth: nat) returns (result: Result<CRef>)
      requires Valid() && RefFits(wire)
      modifies this`nextNodeId, this`totalSymbolBytes, depths, seen
      ensures Valid()
      ensures match VisitRef(old(Now()), wire, depth, nodes.Length, limits)
              case Ok(t) => result == Ok(NormalRef(wire)) && Now() == t
              case Err(e) => result == Err(e)
    {
      match wire {
        case Symbol(name) =>
          if |name| > MAX_SYMBOL_NAME_BYTES {
            return Err(InvalidArtifact);
          }
          totalSymbolBytes := totalSymbolBytes + |name|;
          if totalSymbolBytes > limits.symbolBytes {
            return Err(CapsuleLimitExceeded);
          }
        case Node(id) =>
          if id >= nodes.Length {
            return Err(InvalidArtifact);
          }
          if !seen[id] {
            if id != nextNodeId {
              return Err(InvalidArtifact);
            }
            if depth > limits.depth {
              return Err(CapsuleLimitExceeded);
            }
            seen[id] := true;
            depths[id] := depth;
            nextNodeId := nextNodeId + 1;
            assert depths[..nextNodeId] == old(depths[..nextNodeId]) + [depth];
          }
        case _ =>
      }
      result := Ok(NormalRef(wire));
    }

    /** parseAndStoreEdge. */
    method ParseAndStoreEdge(body: Reader, depth: nat) returns (result: Result<()>, ghost wire: Ref)
      requires Valid() && body.Valid() && edgeCursor < edges.Length
      modifies this`nextNodeId, this`totalSymbolBytes, this`edgeCursor, depths, seen, edges, body
      ensures Valid() && body.Valid()
      ensures match ReadRef(old(body.Rest()))
              case Err(e) => result == Err(e)
              case Ok((r, rest)) =>
                && wire == r && RefFits(r) && body.Rest() == rest
                && match VisitRef(old(Now()), r, depth, nodes.Length, limits)
                   case Err(e) => result == Err(e)
                   case Ok(t) =>
                     && result == Ok(()) && Now() == t.(edges := t.edges + 1)
                     && edgeCursor == old(edgeCursor) + 1
                     && edges[..] == old(edges[..])[old(edgeCursor) := NormalRef(r)]
    {
      hide VisitRef, ReadRef, NormalRef, RefFits;
      wire := Nil;
      ghost var s := body.Rest();
      var edgeIndex := edgeCursor;
      var read :- body.ReadValueRef();
      wire := read;
      WriteReadRef(s);
      VisitKeepsEdges(Now(), read, depth, nodes.Length, limits);
      var normal :- ParseRef(read, depth);
      edges[edgeIndex] := normal;
      edgeCursor := edgeCursor + 1;
      result := Ok(());
    }

    /** parseNodeEdges and parseHashEdges, once the announced count has been checked. */
    method ParseEdgeRun(body: Reader, count: nat, depth: nat) returns (result: Result<()>, ghost refs: seq<Ref>)
      requires Valid() && body.Valid() && edgeCursor + count <= edges.Length
      modifies this`nextNodeId, this`totalSymbolBytes, this`edgeCursor, depths, seen, edges, body
      ensures Valid() && body.Valid()
      ensures match ParseRefs(old(body.Rest()), count, Ahead(old(Now()), count), depth, nodes.Length, limits)
              case Err(e) => result == Err(e)
              case Ok((rs, t, rest)) =>
                && result == Ok(()) && refs == rs && RefsFit(refs) && body.Rest() == rest && Now() == t
                && edgeCursor == old(edgeCursor) + count
                && edges[..edgeCursor] == old(edges[..edgeCursor]) + NormalRefs(refs)
    {
      hide VisitRef, ReadRef, NormalRef, RefFits;
      refs := [];
      ghost var s0, t0 := body.Rest(), Ahead(Now(), count);
      ghost var start := edges[..edgeCursor];
      ghost var whole := Read(ParseRefs(s0, count, t0, depth, nodes.Length, limits));
      ContinuesStart(whole);
      for index := 0 to count
        invariant Valid() && body.Valid() && |refs| == index && RefsFit(refs)
        invariant edgeCursor == old(edgeCursor) + index
        invariant edges[..edgeCursor] == start + NormalRefs(refs)
        invariant Continues(whole, refs,
                            Read(ParseRefs(body.Rest(), count - index, Ahead(Now(), count - index), depth,
                                           nodes.Length, limits)))
      {
        ghost var before, s := Now(), body.Rest();
        ghost var cells, cursor := edges[..], edgeCursor;
        AheadVisits(before, s, count - index, depth, nodes.Length, limits);
        var stored;
        ghost var wire;
        stored, wire := ParseAndStoreEdge(body, depth);
        if stored.Err? {
          return stored, refs;
        }
        assert edges[..] == cells[cursor := NormalRef(wire)] && edgeCursor == cursor + 1;
        assert edges[..edgeCursor] == edges[..][..cursor + 1] == cells[..cursor] + [NormalRef(wire)];
        NormalRefsSnoc(refs, wire);
        ghost var was := refs;
        refs := refs + [wire];
        assert Ahead(Now(), count - index - 1) ==
               VisitRef(Ahead(before, count - index), wire, depth, nodes.Length, limits).value;
        ContinuesStep(whole, was, wire,
                      Read(ParseRefs(body.Rest(), count - index - 1, Ahead(Now(), count - index - 1), depth,
                                     nodes.Length, limits)));
      }
      assert refs + [] == refs;
      result := Ok(());
    }

    /** parseNodeBody's string case, then the check that the body is used up. */
    method ParseStringBody(body: Reader, n: nat, h: Header) returns (result: Result<CNode>, ghost o: Obj)
      requires Valid() && body.Valid() && h.kind == StringKind
      modifies this`totalStringBytes, body
      ensures Valid()
      ensures match ParseString(old(body.Rest()), n, h, old(Now()), limits)
              case Err(e) => result == Err(e)
              case Ok((parsed, t)) =>
                o == parsed && o.refs == [] && result == Ok(NormalNode(o, edgeCursor)) && Now() == t
    {
      o := Obj(h.kind, h.frozen, h.hasDefault, [], []);
      var s :- body.ReadBytes(n);
      totalStringBytes := totalStringBytes + |s|;
      if totalStringBytes > limits.stringBytes {
        return Err(CapsuleLimitExceeded), o;
      }
      var _ :- body.Finish();
      o := o.(bytes := s);
      result := Ok(CNode(1, FlagsByte(h.frozen, h.hasDefault), 0, 0, 0, PointerTo(s), s));
    }

    /** parseNodeBody's array and hash cases, then the check that the body is used up. */
    method ParseEdgesBody(body: Reader, n: nat, h: Header) returns (result: Result<CNode>, ghost o: Obj)
      requires Valid() && body.Valid() && h.id < nextNodeId && h.kind != StringKind
      modifies this`nextNodeId, this`totalSymbolBytes, this`edgeCursor, depths, seen, edges, body
      ensures Valid()
      ensures match Payload.ParseEdges(old(body.Rest()), AnnouncedEdges(h, n), h, old(Now()), nodes.Length,
                                       edges.Length, limits)
              case Err(e) => result == Err(e)
              case Ok((parsed, t)) =>
                && o == parsed && result == Ok(NormalNode(o, old(edgeCursor))) && Now() == t && RefsFit(o.refs)
                && edgeCursor == old(edgeCursor) + |o.refs|
                && edges[..edgeCursor] == old(edges[..edgeCursor]) + NormalRefs(o.refs)
    {
      hide ParseRefs, RefsFit;
      o := Obj(h.kind, h.frozen, h.hasDefault, [], []);
      var count := if h.kind == HashKind then 2 * n + (if h.hasDefault then 1 else 0) else n;
      var offset := edgeCursor;
      if count > edges.Length - edgeCursor {
        return Err(InvalidArtifact), o;
      }
      var ran;
      ghost var refs;
      ran, refs := ParseEdgeRun(body, count, depths[h.id] + 1);
      if ran.Err? {
        return Err(ran.error), o;
      }
      var _ :- body.Finish();
      o := o.(refs := refs);
      result := Ok(CNode(KindByte(h.kind), FlagsByte(h.frozen, h.hasDefault), 0, offset, count, 0, []));
    }

    /** parseNodeBody. */
    method ParseNodeBody(bytes: Bytes, h: Header) returns (result: Result<CNode>, ghost o: Obj)
      requires Valid() && h.id < nextNodeId
      modifies this`nextNodeId, this`totalSymbolBytes, this`totalStringBytes, this`edgeCursor, depths, seen, edges
      ensures Valid()
      ensures match ParseBody(bytes, h, old(Now()), nodes.Length, edges.Length, limits)
              case Err(e) => result == Err(e)
              case Ok((parsed, t)) =>
                && o == parsed && result == Ok(NormalNode(o, old(edgeCursor))) && Now() == t && RefsFit(o.refs)
                && edgeCursor == old(edgeCursor) + |o.refs|
                && edges[..edgeCursor] == old(edges[..edgeCursor]) + NormalRefs(o.refs)
    {
      hide ParseString, Payload.ParseEdges, AnnouncedEdges, NormalNode, Decode;
      o := Obj(h.kind, h.frozen, h.hasDefault, [], []);
      var body := new Reader(bytes);
      var n :- body.ReadInt(4);
      if h.kind == StringKind {
        result, o := ParseStringBody(body, n, h);
        assert edges[..edgeCursor] + [] == edges[..edgeCursor];
      } else {
        result, o := ParseEdgesBody(body, n, h);
      }
    }

    /** One record: the seen check, the header, the body. */
    method ParseNodeRecord(reader: Reader, id: nat) returns (result: Result<()>, ghost o: Obj)
      requires Valid() && reader.Valid() && id < nodes.Length
      modifies this`nextNodeId, this`totalSymbolBytes, this`totalStringBytes, this`edgeCursor
      modifies depths, seen, edges, nodes, reader
      ensures Valid() && reader.Valid()
      ensures match ParseNode(old(reader.Rest()), id, old(Now()), nodes.Length, edges.Length, limits)
              case Err(e) => result == Err(e)
              case Ok((parsed, t, rest)) =>
                && o == parsed && result == Ok(()) && Now() == t && reader.Rest() == rest && RefsFit(o.refs)
                && nodes[..] == old(nodes[..])[id := NormalNode(o, old(edgeCursor))]
                && edgeCursor == old(edgeCursor) + |o.refs|
                && edges[..edgeCursor] == old(edges[..edgeCursor]) + NormalRefs(o.refs)
    {
      hide ParseBody, ReadHeader, NormalRef, RefFits, NormalNode;
      o := Obj(StringKind, false, false, [], []);
      if !seen[id] {
        return Err(InvalidArtifact), o;
      }
      var header :- reader.ReadNodeRecordHeader();
      if header.id != id {
        return Err(InvalidArtifact), o;
      }
      var bytes :- reader.ReadBytes(header.bodyLen);
      var body;
      body, o := ParseNodeBody(bytes, header);
      if body.Err? {
        return Err(body.error), o;
      }
      nodes[id] := body.value;
      result := Ok(());
    }
  }

  // ---- the node loop -------------------------------------------------------------------------

  /** What a run of reads returns, its list apart from the counters and the bytes left. */
  ghost function Read<T>(r: Result<(seq<T>, Trace, Bytes)>): Result<((Trace, Bytes), seq<T>)> {
    match r
    case Ok((items, t, s)) => Ok(((t, s), items))
    case Err(e) => Err(e)
  }

  lemma ParseNodesStep(
    whole: Result<((Trace, Bytes), seq<Obj>)>, done: seq<Obj>, s: Bytes, id: nat, t: Trace, n: nat, e: nat, lim: Limits)
    requires id < n && Continues(whole, done, Read(ParseNodes(s, id, t, n, e, lim)))
    ensures match ParseNode(s, id, t, n, e, lim)
            case Err(err) => whole == Err(err)
            case Ok((o, t1, rest)) => Continues(whole, done + [o], Read(ParseNodes(rest, id + 1, t1, n, e, lim)))
  {
    hide ParseNode;
    var v := ParseNode(s, id, t, n, e, lim);
    if v.Ok? {
      var (o, t1, rest) := v.value;
      ContinuesStep(whole, done, o, Read(ParseNodes(rest, id + 1, t1, n, e, lim)));
    }
  }

  lemma NodesEnd(s: Bytes, t: Trace, n: nat, e: nat, lim: Limits)
    ensures ParseNodes(s, n, t, n, e, lim) == Ok(([], t, s))
  {
  }

  lemma {:induction false} NormalSnoc(objs: seq<Obj>, o: Obj, offset: nat)
    requires AllRefsFit(objs) && RefsFit(o.refs)
    ensures AllRefsFit(objs + [o]) && EdgeTotal(objs + [o]) == EdgeTotal(objs) + |o.refs|
    ensures NormalNodes(objs + [o], offset) == NormalNodes(objs, offset) + [NormalNode(o, offset + EdgeTotal(objs))]
    ensures NormalEdges(objs + [o]) == NormalEdges(objs) + NormalRefs(o.refs)
  {
    hide NormalNode, RefsFit, NormalRefs;
    if objs != [] {
      NormalSnoc(objs[1..], o, offset + |objs[0].refs|);
      assert (objs + [o])[1..] == objs[1..] + [o];
    } else {
      assert [o][1..] == [] && [o][0] == o;
    }
  }

  /** parse's loop over the node records. */
  method ParseRecords(context: ParseContext, reader: Reader) returns (result: Result<()>, ghost objs: seq<Obj>)
    requires context.Valid() && reader.Valid() && context.edgeCursor == 0
    modifies context, context.depths, context.seen, context.edges, context.nodes, reader
    ensures context.Valid() && reader.Valid()
    ensures match ParseNodes(old(reader.Rest()), 0, old(context.Now()), context.nodes.Length, context.edges.Length,
                             context.limits)
            case Err(e) => result == Err(e)
            case Ok((parsed, t, rest)) =>
              && objs == parsed && result == Ok(()) && context.Now() == t && reader.Rest() == rest && AllRefsFit(objs)
              && context.edgeCursor == EdgeTotal(objs)
              && context.nodes[..] == NormalNodes(objs, 0) && context.edges[..context.edgeCursor] == NormalEdges(objs)
  {
    hide ParseNode, NormalNode, NormalRefs, RefsFit, NormalNodes, NormalEdges, AllRefsFit, EdgeTotal, ParseNodes;
    objs := [];
    var nodeCount := context.nodes.Length;
    ghost var n, e, lim := context.nodes.Length, context.edges.Length, context.limits;
    ghost var whole := Read(ParseNodes(reader.Rest(), 0, context.Now(), n, e, lim));
    ContinuesStart(whole);
    EmptyNormal();
    for id := 0 to nodeCount
      invariant context.Valid() && reader.Valid()
      invariant |objs| == id && AllRefsFit(objs) && context.edgeCursor == EdgeTotal(objs)
      invariant context.nodes[..id] == NormalNodes(objs, 0)
      invariant context.edges[..context.edgeCursor] == NormalEdges(objs)
      invariant Continues(whole, objs, Read(ParseNodes(reader.Rest(), id, context.Now(), n, e, lim)))
    {
      ghost var cells := context.nodes[..];
      ParseNodesStep(whole, objs, reader.Rest(), id, context.Now(), n, e, lim);
      ghost var total := EdgeTotal(objs);
      var record;
      ghost var o;
      record, o := context.ParseNodeRecord(reader, id);
      if record.Err? {
        return Err(record.error), objs;
      }
      NormalSnoc(objs, o, 0);
      assert context.nodes[..] == cells[id := NormalNode(o, total)];
      assert context.nodes[..id + 1] == context.nodes[..][..id + 1] == cells[..id] + [NormalNode(o, total)];
      objs := objs + [o];
    }
    NodesEnd(reader.Rest(), context.Now(), n, e, lim);
    assert objs + [] == objs;
    assert context.nodes[..] == context.nodes[..nodeCount];
    result := Ok(());
  }

  /** parse, over an admitted payload. */
  method ParseAll(payload: Bytes, lim: Limits) returns (result: Result<CGraph>, ghost g: Graph)
    ensures match ParsePayload(payload, lim)
            case Err(e) => result == Err(e)
            case Ok(parsed) => AllRefsFit(parsed.objs) && RefFits(parsed.root) && result == Ok(Normal(parsed))
    ensures ParsePayload(payload, lim).Ok? ==> g == ParsePayload(payload, lim).value
  {
    hide ParseNodes, VisitRef, ReadRef, NormalRef, NormalNodes, NormalEdges, AllRefsFit, RefFits, EdgeTotal, Decode,
      Pow256;
    g := Graph([], Nil);
    var reader := new Reader(payload);
    var nodeCount :- reader.ReadInt(4);
    var edgeCount :- reader.ReadInt(4);
    WriteReadRefIfOk(reader.Rest());
    var wireRoot :- reader.ReadValueRef();
    if nodeCount > lim.nodes || edgeCount > lim.edges {
      return Err(CapsuleLimitExceeded), g;
    }
    var context := new ParseContext(nodeCount, edgeCount, lim);
    VisitKeepsEdges(START, wireRoot, 0, nodeCount, lim);
    var root :- context.ParseRef(wireRoot, 0);
    var records;
    ghost var objs;
    records, objs := ParseRecords(context, reader);
    if records.Err? {
      return Err(records.error), g;
    }
    var _ :- reader.Finish();
    if context.edgeCursor != edgeCount || context.nextNodeId != nodeCount {
      return Err(InvalidArtifact), g;
    }
    g := Graph(objs, wireRoot);
    assert context.edges[..] == context.edges[..edgeCount];
    result := Ok(CGraph(context.nodes[..], context.edges[..], root));
  }

  lemma EmptyNormal()
    ensures AllRefsFit([]) && NormalEdges([]) == [] && NormalNodes([], 0) == []
  {
  }

  lemma WriteReadRefIfOk(s: Bytes)
    ensures ReadRef(s).Ok? ==> RefFits(ReadRef(s).value.0)
  {
    if ReadRef(s).Ok? {
      WriteReadRef(s);
    }
  }

  /** The walk state after `n` more edges have been counted. */
  function Ahead(t: Trace, n: nat): Trace {
    t.(edges := t.edges + n)
  }

  lemma VisitKeepsEdges(t: Trace, r: Ref, depth: nat, n: nat, lim: Limits)
    ensures VisitRef(t, r, depth, n, lim).Ok? ==> VisitRef(t, r, depth, n, lim).value.edges == t.edges
  {
  }

  /** Counting edges early or late makes no difference to a visit. */
  lemma AheadVisits(t: Trace, s: Bytes, more: nat, depth: nat, n: nat, lim: Limits)
    ensures ReadRef(s).Ok? ==>
              var r := ReadRef(s).value.0;
              VisitRef(Ahead(t, more), r, depth, n, lim) ==
              match VisitRef(t, r, depth, n, lim) case Ok(t1) => Ok(Ahead(t1, more)) case Err(e) => Err(e)
  {
    hide ReadRef;
  }

  lemma {:induction false} NormalRefsSnoc(refs: seq<Ref>, r: Ref)
    requires RefsFit(refs) && RefFits(r)
    ensures RefsFit(refs + [r]) && NormalRefs(refs + [r]) == NormalRefs(refs) + [NormalRef(r)]
  {
    hide NormalRef, RefFits;
    if refs != [] {
      NormalRefsSnoc(refs[1..], r);
      assert (refs + [r])[1..] == refs[1..] + [r];
    } else {
      assert [r][1..] == [];
    }
  }
}
