/**
 * The StateCapsule payload: encodeExportPayload (artifact_value.zig:517-554) and the byte half of
 * parse (artifact_value.zig:580-757), with the theorem that parsing is exactly the inverse of
 * encoding on the graphs the walk of `Visit` accepts.
 */
module Payload {
  import opened BigEndian
  import opened Graph
  import opened Results
  import opened Visit
  import opened Wire

  /** The length field that opens a node body: string bytes, array elements, or hash pairs. */
  function BodyCount(o: Obj): nat {
    match o.kind
    case StringKind => |o.bytes|
    case ArrayKind => |o.refs|
    case HashKind => PairEdges(o) / 2
  }

  function BodyTail(o: Obj): Bytes
    requires RefsFit(o.refs)
  {
    if o.kind == StringKind then o.bytes else WriteRefs(o.refs)
  }

  predicate ObjFits(o: Obj) {
    && Shaped(o)
    && RefsFit(o.refs)
    && 4 + |BodyTail(o)| < U32
  }

  predicate ObjsFit(objs: seq<Obj>) {
    objs == [] || (ObjFits(objs[0]) && ObjsFit(objs[1..]))
  }

  /** What the wire integers can hold. */
  predicate GraphFits(g: Graph) {
    ObjsFit(g.objs) && RefFits(g.root) && |g.objs| < U32 && EdgeTotal(g.objs) < U32
  }

  lemma {:induction false} RefsAtLeastOneByte(refs: seq<Ref>)
    requires RefsFit(refs)
    ensures |refs| <= |WriteRefs(refs)|
  {
    if refs != [] {
      RefsAtLeastOneByte(refs[1..]);
    }
  }

  function HeaderOf(id: nat, o: Obj): (h: Header)
    requires id < U32 && ObjFits(o)
    ensures HeaderFits(h)
  {
    Header(id, o.kind, o.frozen, o.hasDefault, 4 + |BodyTail(o)|)
  }

  function EncodeBody(o: Obj): (s: Bytes)
    requires ObjFits(o)
    ensures |s| == 4 + |BodyTail(o)|
  {
    RefsAtLeastOneByte(o.refs);
    Width(4, BodyCount(o)) + BodyTail(o)
  }

  function EncodeNode(id: nat, o: Obj): Bytes
    requires id < U32 && ObjFits(o)
  {
    WriteHeader(HeaderOf(id, o)) + EncodeBody(o)
  }

  function EncodeNodes(id: nat, objs: seq<Obj>): Bytes
    requires ObjsFit(objs) && id + |objs| <= U32
    decreases objs
  {
    if objs == [] then [] else EncodeNode(id, objs[0]) + EncodeNodes(id + 1, objs[1..])
  }

  function EncodePayload(g: Graph): Bytes
    requires GraphFits(g)
  {
    Width(4, |g.objs|) + Width(4, EdgeTotal(g.objs)) + WriteRef(g.root) + EncodeNodes(0, g.objs)
  }

  // ---- the parser ----------------------------------------------------------------------------

  /** parseNodeEdges and parseHashEdges: read `count` references, visiting each as it is read. */
  function ParseRefs(s: Bytes, count: nat, t: Trace, depth: nat, nodeCount: nat, lim: Limits)
    : Result<(seq<Ref>, Trace, Bytes)>
    decreases count
  {
    if count == 0 then Ok(([], t, s))
    else
      var (r, rest) :- ReadRef(s);
      var t1 :- VisitRef(t, r, depth, nodeCount, lim);
      var (refs, t2, rest) :- ParseRefs(rest, count - 1, t1, depth, nodeCount, lim);
      Ok(([r] + refs, t2, rest))
  }

  function ParseString(s: Bytes, n: nat, h: Header, t: Trace, lim: Limits): Result<(Obj, Trace)> {
    var (bytes, rest) :- Take(s, n);
    if t.stringBytes + |bytes| > lim.stringBytes then Err(CapsuleLimitExceeded)
    else if rest != [] then Err(InvalidArtifact)
    else Ok((Obj(h.kind, h.frozen, h.hasDefault, bytes, []), t.(stringBytes := t.stringBytes + |bytes|)))
  }

  /** The edges a count field announces: elements, or two per pair and the default. */
  function AnnouncedEdges(h: Header, n: nat): nat {
    if h.kind == HashKind then 2 * n + (if h.hasDefault then 1 else 0) else n
  }

  function ParseEdges(s: Bytes, count: nat, h: Header, t: Trace, nodeCount: nat, edgeCount: nat, lim: Limits)
    : Result<(Obj, Trace)>
    requires h.id < |t.depths|
  {
    if t.edges + count > edgeCount then Err(InvalidArtifact)
    else
      var (refs, t1, rest) :- ParseRefs(s, count, t.(edges := t.edges + count), t.depths[h.id] + 1, nodeCount, lim);
      if rest != [] then Err(InvalidArtifact)
      else Ok((Obj(h.kind, h.frozen, h.hasDefault, [], refs), t1))
  }

  function ParseBody(s: Bytes, h: Header, t: Trace, nodeCount: nat, edgeCount: nat, lim: Limits)
    : Result<(Obj, Trace)>
    requires h.id < |t.depths|
  {
    var (n, rest) :- TakeInt(s, 4);
    if h.kind == StringKind then ParseString(rest, n, h, t, lim)
    else ParseEdges(rest, AnnouncedEdges(h, n), h, t, nodeCount, edgeCount, lim)
  }

  function ParseRecord(s: Bytes, h: Header, t: Trace, nodeCount: nat, edgeCount: nat, lim: Limits)
    : Result<(Obj, Trace, Bytes)>
    requires h.id < |t.depths|
  {
    var (body, rest) :- Take(s, h.bodyLen);
    var (o, t1) :- ParseBody(body, h, t, nodeCount, edgeCount, lim);
    Ok((o, t1, rest))
  }

  /** One iteration of parse's loop over node records. */
  function ParseNode(s: Bytes, id: nat, t: Trace, nodeCount: nat, edgeCount: nat, lim: Limits)
    : Result<(Obj, Trace, Bytes)>
  {
    if id >= |t.depths| then Err(InvalidArtifact)
    else
      var (h, rest) :- ReadHeader(s);
      if h.id != id then Err(InvalidArtifact)
      else ParseRecord(rest, h, t, nodeCount, edgeCount, lim)
  }

  function ParseNodes(s: Bytes, id: nat, t: Trace, nodeCount: nat, edgeCount: nat, lim: Limits)
    : Result<(seq<Obj>, Trace, Bytes)>
    requires id <= nodeCount
    decreases nodeCount - id
  {
    if id == nodeCount then Ok(([], t, s))
    else
      var (o, t1, rest) :- ParseNode(s, id, t, nodeCount, edgeCount, lim);
      var (objs, t2, rest) :- ParseNodes(rest, id + 1, t1, nodeCount, edgeCount, lim);
      Ok(([o] + objs, t2, rest))
  }

  /** parse, from the prelude to the closing counts. */
  function ParsePayload(s: Bytes, lim: Limits): Result<Graph> {
    var (n, rest) :- TakeInt(s, 4);
    var (e, rest) :- TakeInt(rest, 4);
    var (root, rest) :- ReadRef(rest);
    var _ :- Require(n <= lim.nodes && e <= lim.edges, CapsuleLimitExceeded);
    var t0 :- VisitRef(START, root, 0, n, lim);
    var (objs, t1, rest) :- ParseNodes(rest, 0, t0, n, e, lim);
    var _ :- Require(rest == [], InvalidArtifact);
    var _ :- Require(t1.edges == e && |t1.depths| == n, InvalidArtifact);
    Ok(Graph(objs, root))
  }

  // ---- parsing what was written --------------------------------------------------------------

  lemma {:induction false} ParseWrittenRefs(refs: seq<Ref>, rest: Bytes, t: Trace, depth: nat, n: nat, lim: Limits)
    requires RefsFit(refs)
    ensures ParseRefs(WriteRefs(refs) + rest, |refs|, t, depth, n, lim) ==
            match VisitRefs(t, refs, depth, n, lim)
            case Ok(t1) => Ok((refs, t1, rest))
            case Err(e) => Err(e)
  {
    hide ReadRef, WriteRef, VisitRef, RefFits;
    if refs == [] {
      assert WriteRefs(refs) + rest == rest;
    } else {
      var tail := WriteRefs(refs[1..]) + rest;
      assert WriteRefs(refs) + rest == WriteRef(refs[0]) + tail;
      ReadWrittenRef(refs[0], tail);
      var v := VisitRef(t, refs[0], depth, n, lim);
      if v.Ok? {
        ParseWrittenRefs(refs[1..], rest, v.value, depth, n, lim);
        assert [refs[0]] + refs[1..] == refs;
      }
    }
  }

  lemma ParseWrittenBody(o: Obj, id: nat, t: Trace, n: nat, e: nat, lim: Limits)
    requires id < U32 && id < |t.depths| && ObjFits(o)
    ensures ParseBody(EncodeBody(o), HeaderOf(id, o), t, n, e, lim) ==
            match VisitNode(t, o, id, n, e, lim)
            case Ok(t1) => Ok((o, t1))
            case Err(err) => Err(err)
  {
    hide WriteRefs, ParseRefs, VisitRefs, Encode, Decode, RefsFit;
    Widths();
    RefsAtLeastOneByte(o.refs);
    var h, count, tail := HeaderOf(id, o), BodyCount(o), BodyTail(o);
    TakeIntAppend(4, count, tail);
    assert tail + [] == tail;
    if o.kind == StringKind {
      TakeAppend(o.bytes, []);
    } else {
      assert AnnouncedEdges(h, count) == |o.refs|;
      ParseWrittenRefs(o.refs, [], t.(edges := t.edges + |o.refs|), t.depths[id] + 1, n, lim);
    }
  }

  lemma ParseWrittenNode(o: Obj, rest: Bytes, id: nat, t: Trace, n: nat, e: nat, lim: Limits)
    requires id < U32 && ObjFits(o)
    ensures ParseNode(EncodeNode(id, o) + rest, id, t, n, e, lim) ==
            match VisitNode(t, o, id, n, e, lim)
            case Ok(t1) => Ok((o, t1, rest))
            case Err(err) => Err(err)
  {
    if id < |t.depths| {
      var h, body := HeaderOf(id, o), EncodeBody(o);
      Regroup(WriteHeader(h), body, rest);
      ReadWrittenHeader(h, body + rest);
      TakeAppend(body, rest);
      ParseWrittenBody(o, id, t, n, e, lim);
    }
  }

  lemma {:induction false} ParseWrittenNodes(objs: seq<Obj>, rest: Bytes, id: nat, t: Trace, e: nat, lim: Limits)
    requires ObjsFit(objs) && id + |objs| <= U32
    ensures ParseNodes(EncodeNodes(id, objs) + rest, id, t, id + |objs|, e, lim) ==
            match VisitNodes(t, objs, id, id + |objs|, e, lim)
            case Ok(t1) => Ok((objs, t1, rest))
            case Err(err) => Err(err)
    decreases objs
  {
    hide ParseNode, EncodeNode, VisitNode, ObjFits;
    if objs == [] {
      assert EncodeNodes(id, objs) + rest == rest;
    } else {
      var tail := EncodeNodes(id + 1, objs[1..]) + rest;
      Regroup(EncodeNode(id, objs[0]), EncodeNodes(id + 1, objs[1..]), rest);
      ParseWrittenNode(objs[0], tail, id, t, id + |objs|, e, lim);
      var v := VisitNode(t, objs[0], id, id + |objs|, e, lim);
      if v.Ok? {
        ParseWrittenNodes(objs[1..], rest, id + 1, v.value, e, lim);
        assert [objs[0]] + objs[1..] == objs;
      }
    }
  }

  /** Parsing an encoded graph returns that graph, or refuses it for the walk's own reason. */
  lemma ParseEncoded(g: Graph, lim: Limits)
    requires GraphFits(g)
    ensures ParsePayload(EncodePayload(g), lim) ==
            match VisitGraph(g, lim) case Ok(_) => Ok(g) case Err(err) => Err(err)
  {
    hide ParseNodes, EncodeNodes, VisitNodes, VisitRef, ReadRef, WriteRef, ObjsFit, Encode;
    Widths();
    var n, e := |g.objs|, EdgeTotal(g.objs);
    var nodes := EncodeNodes(0, g.objs);
    var afterEdges := WriteRef(g.root) + nodes;
    var s := EncodePayload(g);
    assert s == Width(4, n) + (Width(4, e) + afterEdges);
    TakeIntAppend(4, n, Width(4, e) + afterEdges);
    TakeIntAppend(4, e, afterEdges);
    ReadWrittenRef(g.root, nodes);
    var v := VisitRef(START, g.root, 0, n, lim);
    if v.Ok? {
      assert nodes + [] == nodes;
      ParseWrittenNodes(g.objs, [], 0, v.value, e, lim);
    }
  }

  // ---- writing what was parsed ---------------------------------------------------------------

  lemma {:induction false} ParsedRefs(s: Bytes, count: nat, t: Trace, depth: nat, n: nat, lim: Limits)
    requires ParseRefs(s, count, t, depth, n, lim).Ok?
    ensures var (refs, t1, rest) := ParseRefs(s, count, t, depth, n, lim).value;
            && |refs| == count && RefsFit(refs)
            && s == WriteRefs(refs) + rest
            && VisitRefs(t, refs, depth, n, lim) == Ok(t1)
    decreases count
  {
    if count > 0 {
      WriteReadRef(s);
      var (r, tail) := ReadRef(s).value;
      var t1 := VisitRef(t, r, depth, n, lim).value;
      ParsedRefs(tail, count - 1, t1, depth, n, lim);
      var (more, _, rest) := ParseRefs(tail, count - 1, t1, depth, n, lim).value;
      assert ([r] + more)[1..] == more;
      Regroup(WriteRef(r), WriteRefs(more), rest);
    }
  }

  lemma ParsedBody(s: Bytes, h: Header, t: Trace, n: nat, e: nat, lim: Limits)
    requires h.id < |t.depths| && HeaderFits(h) && h.bodyLen == |s| && ParseBody(s, h, t, n, e, lim).Ok?
    ensures var (o, t1) := ParseBody(s, h, t, n, e, lim).value;
            && ObjFits(o) && h == HeaderOf(h.id, o) && s == EncodeBody(o)
            && VisitNode(t, o, h.id, n, e, lim) == Ok(t1)
  {
    hide WriteRefs, ParseRefs, VisitRefs, Encode, Decode;
    Widths();
    TakeIntInverse(s, 4);
    var (count, tail) := TakeInt(s, 4).value;
    var o := ParseBody(s, h, t, n, e, lim).value.0;
    if h.kind == StringKind {
      assert tail == o.bytes;
    } else {
      var edges := AnnouncedEdges(h, count);
      ParsedRefs(tail, edges, t.(edges := t.edges + edges), t.depths[h.id] + 1, n, lim);
      assert tail == WriteRefs(o.refs) + [] == WriteRefs(o.refs);
    }
    assert tail == BodyTail(o) && count == BodyCount(o);
  }

  lemma ParsedNode(s: Bytes, id: nat, t: Trace, n: nat, e: nat, lim: Limits)
    requires ParseNode(s, id, t, n, e, lim).Ok?
    ensures var (o, t1, rest) := ParseNode(s, id, t, n, e, lim).value;
            && id < U32 && ObjFits(o)
            && s == EncodeNode(id, o) + rest
            && VisitNode(t, o, id, n, e, lim) == Ok(t1)
  {
    hide ReadHeader, WriteHeader;
    WriteReadHeader(s);
    var (h, tail) := ReadHeader(s).value;
    var (body, rest) := Take(tail, h.bodyLen).value;
    assert tail == body + rest;
    ParsedBody(body, h, t, n, e, lim);
    Regroup(WriteHeader(h), body, rest);
  }

  lemma {:induction false} ParsedNodes(s: Bytes, id: nat, t: Trace, n: nat, e: nat, lim: Limits)
    requires id <= n <= U32 && ParseNodes(s, id, t, n, e, lim).Ok?
    ensures var (objs, t1, rest) := ParseNodes(s, id, t, n, e, lim).value;
            && id + |objs| == n && ObjsFit(objs)
            && s == EncodeNodes(id, objs) + rest
            && VisitNodes(t, objs, id, n, e, lim) == Ok(t1)
    decreases n - id
  {
    hide ParseNode, EncodeNode, VisitNode, ObjFits;
    if id < n {
      ParsedNode(s, id, t, n, e, lim);
      var (o, t1, tail) := ParseNode(s, id, t, n, e, lim).value;
      ParsedNodes(tail, id + 1, t1, n, e, lim);
      var (more, _, rest) := ParseNodes(tail, id + 1, t1, n, e, lim).value;
      assert ([o] + more)[1..] == more;
      Regroup(EncodeNode(id, o), EncodeNodes(id + 1, more), rest);
    }
  }

  lemma {:induction false} EdgesVisited(t: Trace, objs: seq<Obj>, id: nat, n: nat, e: nat, lim: Limits)
    requires VisitNodes(t, objs, id, n, e, lim).Ok?
    requires ObjsFit(objs)
    ensures VisitNodes(t, objs, id, n, e, lim).value.edges == t.edges + EdgeTotal(objs)
    decreases objs
  {
    if objs != [] {
      var t1 := VisitNode(t, objs[0], id, n, e, lim).value;
      if objs[0].kind != StringKind {
        EdgesKept(t.(edges := t.edges + |objs[0].refs|), objs[0].refs, t.depths[id] + 1, n, lim);
      }
      EdgesVisited(t1, objs[1..], id + 1, n, e, lim);
    }
  }

  lemma {:induction false} EdgesKept(t: Trace, refs: seq<Ref>, depth: nat, n: nat, lim: Limits)
    requires VisitRefs(t, refs, depth, n, lim).Ok?
    ensures VisitRefs(t, refs, depth, n, lim).value.edges == t.edges
    decreases refs
  {
    if refs != [] {
      EdgesKept(VisitRef(t, refs[0], depth, n, lim).value, refs[1..], depth, n, lim);
    }
  }

  /** Whatever parse accepts is, byte for byte, the encoding of the graph it returns. */
  lemma ParsedIsEncoded(s: Bytes, lim: Limits)
    requires ParsePayload(s, lim).Ok?
    ensures var g := ParsePayload(s, lim).value;
            GraphFits(g) && s == EncodePayload(g) && VisitGraph(g, lim).Ok?
  {
    hide ParseNodes, EncodeNodes, VisitNodes, ReadRef, WriteRef, ObjsFit, Encode, Decode;
    Widths();
    TakeIntInverse(s, 4);
    var (n, s1) := TakeInt(s, 4).value;
    TakeIntInverse(s1, 4);
    var (e, s2) := TakeInt(s1, 4).value;
    WriteReadRef(s2);
    var (root, s3) := ReadRef(s2).value;
    var t0 := VisitRef(START, root, 0, n, lim).value;
    ParsedNodes(s3, 0, t0, n, e, lim);
    var g := ParsePayload(s, lim).value;
    assert s3 == EncodeNodes(0, g.objs) + [];
    EdgesVisited(t0, g.objs, 0, n, e, lim);
    EdgesKept(START, [root], 0, n, lim);
    assert s == Width(4, n) + (Width(4, e) + (WriteRef(root) + EncodeNodes(0, g.objs)));
  }

  /** The payload parser is exactly the inverse of the encoder on the graphs the walk accepts. */
  lemma ParseIsInverse(s: Bytes, g: Graph, lim: Limits)
    ensures ParsePayload(s, lim) == Ok(g) <==>
            GraphFits(g) && VisitGraph(g, lim).Ok? && s == EncodePayload(g)
  {
    if ParsePayload(s, lim) == Ok(g) {
      ParsedIsEncoded(s, lim);
    }
    if GraphFits(g) {
      ParseEncoded(g, lim);
    }
  }
}
