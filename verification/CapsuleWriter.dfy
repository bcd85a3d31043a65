/**
 * The byte-writing half of exportValue: the length pass, the payload pass through a `Writer`, and
 * the envelope pass over a caller-owned buffer (artifact_value.zig:497-554, artifact.zig:157-186).
 */
module CapsuleWriter {
  import opened BigEndian
  import opened Envelope
  import opened Graph
  import opened Payload
  import opened Results
  import opened Streams
  import opened Wire

  /** A record whose fields fit the wire integers, apart from the length of its body. */
  predicate RecordEncodable(o: Obj) {
    Shaped(o) && RefsFit(o.refs) && |o.bytes| < U32
  }

  predicate RecordsEncodable(objs: seq<Obj>) {
    objs == [] || (RecordEncodable(objs[0]) && RecordsEncodable(objs[1..]))
  }

  function BodyTailLength(o: Obj): nat
    requires RecordEncodable(o)
  {
    |BodyTail(o)|
  }

  /** ValueRef.encodedLen. */
  function EncodedLen(r: Ref): (n: nat)
    requires RefFits(r)
    ensures n == |WriteRef(r)|
  {
    Widths();
    match r
    case Int(_) => 9
    case Float(_) => 9
    case Node(_) => 5
    case Symbol(name) => 5 + |name|
    case _ => 1
  }

  /** exportNodeBodyLen. */
  method BodyLength(o: Obj) returns (result: Result<nat>)
    requires RecordEncodable(o)
    ensures result == if 4 + BodyTailLength(o) < U32 then Ok(4 + BodyTailLength(o)) else Err(ArtifactLimitExceeded)
    ensures result.Ok? <==> ObjFits(o)
  {
    hide WriteRef;
    var len := 4;
    if o.kind == StringKind {
      len := len + |o.bytes|;
    } else {
      for i := 0 to |o.refs|
        invariant RefsFit(o.refs[i..])
        invariant len + |WriteRefs(o.refs[i..])| == 4 + |WriteRefs(o.refs)|
      {
        assert o.refs[i..][1..] == o.refs[i + 1..];
        len := len + EncodedLen(o.refs[i]);
      }
    }
    result := if len >= U32 then Err(ArtifactLimitExceeded) else Ok(len);
  }

  /** exportPayloadLen: the exact length of the encoding, or a refusal when some body is too long. */
  method PayloadLength(g: Graph) returns (result: Result<nat>)
    requires RecordsEncodable(g.objs) && RefFits(g.root) && |g.objs| < U32 && EdgeTotal(g.objs) < U32
    ensures result.Ok? <==> GraphFits(g)
    ensures result.Ok? ==> result.value == |EncodePayload(g)|
    ensures result.Err? ==> result.error == ArtifactLimitExceeded
  {
    hide RecordEncodable, ObjFits, WriteRef, Width;
    var total := 8 + EncodedLen(g.root);
    for i := 0 to |g.objs|
      invariant RecordsEncodable(g.objs[i..])
      invariant ObjsFit(g.objs[i..]) <==> ObjsFit(g.objs)
      invariant ObjsFit(g.objs) ==>
                  total + |EncodeNodes(i, g.objs[i..])| == 8 + |WriteRef(g.root)| + |EncodeNodes(0, g.objs)|
    {
      assert g.objs[i..][0] == g.objs[i] && g.objs[i..][1..] == g.objs[i + 1..];
      total := total + 12;
      var body :- BodyLength(g.objs[i]);
      LengthOfNode(g, i);
      total := total + body;
    }
    assert g.objs[|g.objs|..] == [];
    result := Ok(total);
    PayloadPieces(g);
  }

  lemma LengthOfNode(g: Graph, i: nat)
    requires i < |g.objs| < U32 && ObjFits(g.objs[i])
    ensures |EncodeNode(i, g.objs[i])| == 16 + |BodyTail(g.objs[i])|
  {
  }

  lemma PayloadPieces(g: Graph)
    requires GraphFits(g)
    ensures |EncodePayload(g)| == 8 + |WriteRef(g.root)| + |EncodeNodes(0, g.objs)|
  {
    Widths();
  }

  /** Write the references of one body, as far as they fit. */
  method WriteEdges(w: Writer, refs: seq<Ref>) returns (result: Result<()>)
    requires w.Valid() && RefsFit(refs)
    modifies w, w.bytes
    ensures w.Valid()
    ensures if old(w.offset) + |WriteRefs(refs)| <= w.bytes.Length
            then result == Ok(()) && w.Written() == old(w.Written()) + WriteRefs(refs)
            else result == Err(NoSpaceLeft)
  {
    hide WriteRef;
    ghost var start := w.Written();
    for i := 0 to |refs|
      invariant w.Valid() && RefsFit(refs[i..])
      invariant w.Written() + WriteRefs(refs[i..]) == start + WriteRefs(refs)
    {
      assert refs[i..][1..] == refs[i + 1..];
      ghost var before := w.Written();
      assert |before| + |WriteRef(refs[i])| <= |before + WriteRefs(refs[i..])|;
      var _ :- w.WriteValueRef(refs[i]);
      Regroup(before, WriteRef(refs[i]), WriteRefs(refs[i + 1..]));
    }
    assert refs[|refs|..] == [] && w.Written() + [] == w.Written();
    result := Ok(());
  }

  method WriteNode(w: Writer, id: nat, o: Obj) returns (result: Result<()>)
    requires w.Valid() && id < U32 && RecordEncodable(o)
    modifies w, w.bytes
    ensures w.Valid()
    ensures result.Ok? <==> ObjFits(o) && old(w.offset) + |EncodeNode(id, o)| <= w.bytes.Length
    ensures result.Ok? ==> w.Written() == old(w.Written()) + EncodeNode(id, o)
  {
    hide WriteRef, Encode, WriteRefs, WriteHeader, Pow256;
    Widths();
    ghost var start := w.Written();
    var bodyLen :- BodyLength(o);
    RefsAtLeastOneByte(o.refs);
    var header := Header(id, o.kind, o.frozen, o.hasDefault, bodyLen);
    assert header == HeaderOf(id, o);
    var _ :- w.WriteNodeRecordHeader(header);
    ghost var middle := w.Written();
    match o.kind {
      case StringKind =>
        var _ :- w.WriteInt(4, |o.bytes|);
        var _ :- w.WriteBytes(o.bytes);
      case ArrayKind =>
        var _ :- w.WriteInt(4, |o.refs|);
        var _ :- WriteEdges(w, o.refs);
      case HashKind =>
        var pairEdges := |o.refs| - (if o.hasDefault then 1 else 0);
        var _ :- w.WriteInt(4, pairEdges / 2);
        var _ :- WriteEdges(w, o.refs);
    }
    Regroup(middle, Width(4, BodyCount(o)), BodyTail(o));
    assert w.Written() == middle + EncodeBody(o);
    Regroup(start, WriteHeader(header), EncodeBody(o));
    result := Ok(());
  }

  /** encodeExportPayload: succeeds exactly on a buffer of the computed length, and fills it with the encoding. */
  method EncodePayloadInto(payload: array<byte>, g: Graph) returns (result: Result<()>)
    requires RecordsEncodable(g.objs) && RefFits(g.root) && |g.objs| < U32 && EdgeTotal(g.objs) < U32
    modifies payload
    ensures result.Ok? <==> GraphFits(g) && payload.Length == |EncodePayload(g)|
    ensures result.Ok? ==> payload[..] == EncodePayload(g)
  {
    hide WriteRef, Encode, ObjFits, EncodeNode, RecordEncodable;
    Widths();
    var w := new Writer(payload);
    var _ :- w.WriteInt(4, |g.objs|);
    var _ :- w.WriteInt(4, EdgeTotal(g.objs));
    var _ :- w.WriteValueRef(g.root);
    assert w.Written() == Width(4, |g.objs|) + Width(4, EdgeTotal(g.objs)) + WriteRef(g.root);
    for i := 0 to |g.objs|
      invariant w.Valid() && RecordsEncodable(g.objs[i..]) && fresh(w) && w.bytes == payload
      invariant ObjsFit(g.objs[i..]) <==> ObjsFit(g.objs)
      invariant ObjsFit(g.objs) ==> w.Written() + EncodeNodes(i, g.objs[i..]) == EncodePayload(g)
    {
      assert g.objs[i..][0] == g.objs[i] && g.objs[i..][1..] == g.objs[i + 1..];
      ghost var before := w.Written();
      assert ObjsFit(g.objs) ==> |before| + |EncodeNode(i, g.objs[i])| <= |before + EncodeNodes(i, g.objs[i..])|;
      var _ :- WriteNode(w, i, g.objs[i]);
      if ObjsFit(g.objs) {
        Regroup(before, EncodeNode(i, g.objs[i]), EncodeNodes(i + 1, g.objs[i + 1..]));
      }
    }
    assert g.objs[|g.objs|..] == [] && w.Written() + [] == w.Written();
    var _ :- w.Finish();
    assert payload[..] == payload[..w.offset];
    result := Ok(());
  }

  // ---- the envelope --------------------------------------------------------------------------

  /** `@memcpy(output[at..][0..s.len], s)`. */
  method Copy(output: array<byte>, at: nat, s: Bytes)
    requires at + |s| <= output.Length
    modifies output
    ensures forall i :: 0 <= i < output.Length ==>
              output[i] == if at <= i < at + |s| then s[i - at] else old(output[i])
  {
    forall i | 0 <= i < |s| {
      output[at + i] := s[i];
    }
  }

  /** The field writes of encodeEnvelopeInto, up to the checksum. */
  method FillHeader(output: array<byte>, p: Parsed)
    requires EnvelopeFits(p) && output.Length >= HEADER_LEN
    modifies output
    ensures output[..88] == FixedHeader(p) && output[88..] == old(output[88..])
  {
    hide Encode;
    Widths();
    Copy(output, 0, MAGIC);
    Copy(output, 8, Encode(2, 1));
    Copy(output, 10, Encode(2, 0));
    output[12] := KindCode(p.kind);
    output[13] := p.flags;
    Copy(output, 14, Encode(2, HEADER_LEN));
    Copy(output, 16, Encode(8, |p.payload|));
    Copy(output, 24, p.metadata);
  }

  /** encodeEnvelopeInto: zero the buffer, fill the fields at their offsets, then the checksum. */
  method EncodeEnvelopeInto(output: array<byte>, sha: Digest, p: Parsed) returns (result: Result<()>)
    requires IsDigest(sha) && EnvelopeFits(p)
    modifies output
    ensures result == if output.Length == HEADER_LEN + |p.payload| then Ok(()) else Err(InvalidArtifact)
    ensures result.Ok? ==> output[..] == EncodeEnvelope(sha, p)
    ensures result.Err? ==> output[..] == old(output[..])
  {
    hide Encode, Checksum, FixedHeader;
    if output.Length != HEADER_LEN + |p.payload| {
      return Err(InvalidArtifact);
    }
    forall i | 0 <= i < output.Length {
      output[i] := 0;
    }
    FillHeader(output, p);
    assert forall i :: 88 <= i < output.Length ==> output[i] == output[88..][i - 88] == 0;
    Copy(output, HEADER_LEN, p.payload);
    ghost var fixed := FixedHeader(p);
    assert output[..88] == fixed && output[120..128] == Zeros(8) && output[128..] == p.payload;
    var sum := Checksum(sha, output[..88], output[120..128], output[128..]);
    ChecksumLength(sha, fixed, p.payload);
    Copy(output, 88, sum);
    assert output[..] == output[..88] + output[88..120] + output[120..128] + output[128..];
    assert output[..88] == fixed && output[88..120] == sum && output[120..128] == Zeros(8);
    assert output[128..] == p.payload;
    result := Ok(());
  }
}
