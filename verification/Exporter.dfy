/**
 * exportValue as it runs (artifact_value.zig:151-476): a context whose node list, identity map and
 * totals grow in place, then the byte passes and the preflight.
 */
module Exporter {
  import opened Accumulate
  import opened BigEndian
  import opened Admission
  import opened Canonical
  import opened Capsule
  import opened CapsuleWriter
  import opened Envelope
  import opened Graph
  import opened HeapExport
  import opened Payload
  import opened Results
  import opened Transfer
  import opened Visit

  /** One entry of `nodes`: the object's address and depth, and its record once inspected. */
  datatype ExportNode = ExportNode(address: nat, depth: nat, record: Obj)

  const NO_RECORD := Obj(StringKind, false, false, [], [])

  function Addresses(nodes: seq<ExportNode>): (s: seq<nat>)
    ensures |s| == |nodes| && forall i :: 0 <= i < |nodes| ==> s[i] == nodes[i].address
  {
    seq(|nodes|, i requires 0 <= i < |nodes| => nodes[i].address)
  }

  function Depths(nodes: seq<ExportNode>): (s: seq<nat>)
    ensures |s| == |nodes| && forall i :: 0 <= i < |nodes| ==> s[i] == nodes[i].depth
  {
    seq(|nodes|, i requires 0 <= i < |nodes| => nodes[i].depth)
  }

  function Records(nodes: seq<ExportNode>): (s: seq<Obj>)
    ensures |s| == |nodes| && forall i :: 0 <= i < |nodes| ==> s[i] == nodes[i].record
  {
    seq(|nodes|, i requires 0 <= i < |nodes| => nodes[i].record)
  }

  function Reserved(c: Context, total: nat): Context {
    c.(trace := c.trace.(edges := total))
  }

  class ExportContext {
    const heap: Heap
    const limits: Limits
    var nodes: seq<ExportNode>
    var identities: map<nat, nat>
    var totalEdges: nat
    var totalStringBytes: nat
    var totalSymbolBytes: nat

    constructor (heap: Heap, limits: Limits)
      ensures this.heap == heap && this.limits == limits && Now() == Context([], START)
      ensures HeapValid(heap) ==> Valid()
    {
      this.heap := heap;
      this.limits := limits;
      nodes := [];
      identities := map[];
      totalEdges, totalStringBytes, totalSymbolBytes := 0, 0, 0;
    }

    /** The numbering these fields represent. */
    ghost function Now(): Context
      reads this
    {
      Context(Addresses(nodes), Trace(Depths(nodes), totalEdges, totalStringBytes, totalSymbolBytes))
    }

    /** `identities` is the inverse of the node list. */
    ghost predicate Valid()
      reads this
    {
      && HeapValid(heap) && ContextValid(heap, Now()) && |nodes| <= limits.nodes
      && (forall a :: a in identities ==> identities[a] < |nodes| && nodes[identities[a]].address == a)
      && forall i :: 0 <= i < |nodes| ==> nodes[i].address in identities
    }

    /** exportRef. */
    method ExportRef(v: Ref, depth: nat) returns (result: Result<Ref>)
      requires Valid() && Pointed(heap, v)
      modifies this`nodes, this`identities, this`totalSymbolBytes
      ensures match HeapExport.ExportRef(heap, old(Now()), v, depth, limits)
              case Err(e) => result == Err(e)
              case Ok((c, r)) =>
                result == Ok(r) && Valid() && Now() == c
                && |old(nodes)| <= |nodes| && nodes[..|old(nodes)|] == old(nodes)
    {
      hide HeapValid;
      match v {
        case Symbol(name) =>
          if |name| > MAX_SYMBOL_NAME_BYTES {
            return Err(UnsupportedValue);
          }
          totalSymbolBytes := totalSymbolBytes + |name|;
          if totalSymbolBytes > limits.symbolBytes {
            return Err(CapsuleLimitExceeded);
          }
          result := Ok(v);
        case Node(a) =>
          if !heap[a].container {
            return Err(UnsupportedValue);
          }
          if !heap[a].core {
            return Err(UnsupportedContainerState);
          }
          if a in identities {
            SameId(Addresses(nodes), a, identities[a]);
            return Ok(Node(identities[a]));
          }
          if depth > limits.depth || |nodes| >= limits.nodes || |nodes| >= U32 - 1 {
            return Err(CapsuleLimitExceeded);
          }
          var id := |nodes|;
          AddNode(a, depth);
          result := Ok(Node(id));
        case _ => result := Ok(v);
      }
    }

    /** Append a newly met container under the next ID. */
    method AddNode(a: nat, depth: nat)
      requires Valid() && a in heap && heap[a].container && heap[a].core && a !in identities && |nodes| < limits.nodes
      modifies this`nodes, this`identities
      ensures Valid() && nodes == old(nodes) + [ExportNode(a, depth, NO_RECORD)]
      ensures var was := old(Now());
              a !in was.order
              && Now() == Context(was.order + [a], was.trace.(depths := was.trace.depths + [depth]))
    {
      hide HeapValid;
      ghost var was := nodes;
      assert forall i :: 0 <= i < |was| ==> Addresses(was)[i] == was[i].address && was[i].address in identities;
      identities := identities[a := |nodes|];
      nodes := nodes + [ExportNode(a, depth, NO_RECORD)];
      assert Addresses(nodes) == Addresses(was) + [a] && Depths(nodes) == Depths(was) + [depth];
    }

    /** The loop bodies of inspectExportNode: one run of edges, keys checked where they occur. */
    method ExportEdgeRun(o: Obj, depth: nat) returns (result: Result<seq<Ref>>)
      requires Valid() && forall i :: 0 <= i < |o.refs| ==> Pointed(heap, o.refs[i])
      modifies this`nodes, this`identities, this`totalSymbolBytes
      ensures match ExportEdges(heap, old(Now()), o, 0, depth, limits)
              case Err(e) => result == Err(e)
              case Ok((c, refs)) =>
                result == Ok(refs) && Valid() && Now() == c
                && |old(nodes)| <= |nodes| && nodes[..|old(nodes)|] == old(nodes)
    {
      hide HeapExport.ExportRef, KeyAllowed, Pointed, HeapValid, ContextValid;
      var refs: seq<Ref> := [];
      ghost var whole := ExportEdges(heap, Now(), o, 0, depth, limits);
      ContinuesStart(whole);
      while |refs| < |o.refs|
        invariant Valid() && |refs| <= |o.refs|
        invariant |old(nodes)| <= |nodes| && nodes[..|old(nodes)|] == old(nodes)
        invariant Continues(whole, refs, ExportEdges(heap, Now(), o, |refs|, depth, limits))
        decreases |o.refs| - |refs|
      {
        var j := |refs|;
        ExportEdgesStep(whole, refs, heap, Now(), o, j, depth, limits);
        if IsKeyEdge(o, j) && !KeyAllowed(heap, o.refs[j]) {
          return Err(UnsupportedHashKey);
        }
        ghost var was := nodes;
        var ref :- ExportRef(o.refs[j], depth);
        assert nodes[..|old(nodes)|] == nodes[..|was|][..|old(nodes)|];
        refs := refs + [ref];
      }
      assert refs + [] == refs;
      result := Ok(refs);
    }

    /** inspectExportNode's string case. */
    method InspectString(i: nat, o: Obj) returns (result: Result<()>)
      requires Valid() && i < |nodes|
      modifies this`nodes, this`totalStringBytes
      ensures var c := old(Now());
              if |o.bytes| >= U32 || c.trace.stringBytes + |o.bytes| > limits.stringBytes
              then result == Err(CapsuleLimitExceeded)
              else && result == Ok(()) && Valid() && |nodes| == |old(nodes)|
                   && Now() == c.(trace := c.trace.(stringBytes := c.trace.stringBytes + |o.bytes|))
                   && Records(nodes)[..i + 1] == Records(old(nodes))[..i] + [o]
    {
      hide HeapValid;
      if |o.bytes| >= U32 {
        return Err(CapsuleLimitExceeded);
      }
      totalStringBytes := totalStringBytes + |o.bytes|;
      if totalStringBytes > limits.stringBytes {
        return Err(CapsuleLimitExceeded);
      }
      SetRecord(i, o);
      result := Ok(());
    }

    /** reserveEdges. */
    method ReserveEdges(additional: nat) returns (result: Result<()>)
      requires Valid()
      modifies this`totalEdges
      ensures var total := old(Now()).trace.edges + additional;
              if total > limits.edges || total >= U32
              then result == Err(CapsuleLimitExceeded)
              else result == Ok(()) && Valid() && Now() == Reserved(old(Now()), total)
    {
      hide HeapValid;
      var total := totalEdges + additional;
      if total > limits.edges || total >= U32 {
        return Err(CapsuleLimitExceeded);
      }
      totalEdges := total;
      result := Ok(());
    }

    /** inspectExportNode's array and hash cases. */
    method InspectEdges(i: nat, o: Obj) returns (result: Result<()>)
      requires Valid() && i < |nodes| && forall j :: 0 <= j < |o.refs| ==> Pointed(heap, o.refs[j])
      modifies this
      ensures var c := old(Now());
              var total := c.trace.edges + |o.refs|;
              if total > limits.edges || total >= U32 then result == Err(CapsuleLimitExceeded)
              else match ExportEdges(heap, Reserved(c, total), o, 0, c.trace.depths[i] + 1, limits)
                   case Err(e) => result == Err(e)
                   case Ok((c1, refs)) =>
                     && result == Ok(()) && Valid() && Now() == c1 && |old(nodes)| <= |nodes|
                     && Records(nodes)[..i + 1] ==
                        Records(old(nodes))[..i] + [Obj(o.kind, o.frozen, o.hasDefault, [], refs)]
    {
      hide ExportEdges, HeapValid, Pointed, ContextValid, Addresses, Records, Reserved;
      var depth := nodes[i].depth + 1;
      ghost var was := nodes;
      ReservedDepth(Now(), Now().trace.edges + |o.refs|, i);
      var _ :- ReserveEdges(|o.refs|);
      var refs :- ExportEdgeRun(o, depth);
      assert Records(nodes)[..i] == Records(was)[..i] by {
        PrefixRecords(was, nodes, i);
      }
      SetRecord(i, Obj(o.kind, o.frozen, o.hasDefault, [], refs));
      result := Ok(());
    }

    /** inspectExportNode: fill in the record of node `i`. */
    method Inspect(i: nat) returns (result: Result<()>)
      requires Valid() && i < |nodes|
      modifies this
      ensures match InspectNode(heap, old(Now()), i, limits)
              case Err(e) => result == Err(e)
              case Ok((c, o)) =>
                && result == Ok(()) && Valid() && Now() == c && |old(nodes)| <= |nodes|
                && Records(nodes)[..i + 1] == Records(old(nodes))[..i] + [o]
    {
      hide ExportEdges;
      var slot := heap[nodes[i].address];
      if slot.extraIvars {
        return Err(UnsupportedContainerState);
      }
      match slot.obj.kind {
        case StringKind => result := InspectString(i, slot.obj);
        case ArrayKind => result := InspectEdges(i, slot.obj);
        case HashKind =>
          if slot.defaultProc {
            return Err(UnsupportedContainerState);
          }
          result := InspectEdges(i, slot.obj);
      }
    }

    method SetRecord(i: nat, o: Obj)
      requires Valid() && i < |nodes|
      modifies this`nodes
      ensures Valid() && Now() == old(Now()) && |nodes| == |old(nodes)|
      ensures Records(nodes)[..i + 1] == Records(old(nodes))[..i] + [o]
    {
      hide HeapValid;
      ghost var was := nodes;
      nodes := nodes[i := nodes[i].(record := o)];
      assert Addresses(nodes) == Addresses(was) && Depths(nodes) == Depths(was);
      assert Records(nodes) == Records(was)[i := o];
    }
  }

  lemma PrefixRecords(before: seq<ExportNode>, after: seq<ExportNode>, i: nat)
    requires i <= |before| <= |after| && after[..|before|] == before
    ensures Records(after)[..i] == Records(before)[..i]
  {
    assert forall k :: 0 <= k < i ==> after[k] == after[..|before|][k];
  }

  lemma ReservedDepth(c: Context, total: nat, i: nat)
    requires i < |c.trace.depths|
    ensures Reserved(c, total).trace.depths[i] == c.trace.depths[i]
  {
  }

  lemma SameId(order: seq<nat>, a: nat, id: nat)
    requires id < |order| && order[id] == a && forall i, j :: 0 <= i < j < |order| ==> order[i] != order[j]
    ensures a in order && IdOf(order, a) == id
  {
    var j := IdOf(order, a);
  }

  lemma ExportEdgesStep(
    whole: Result<(Context, seq<Ref>)>, done: seq<Ref>, h: Heap, c: Context, o: Obj, j: nat, depth: nat, lim: Limits)
    requires j < |o.refs| && forall i :: 0 <= i < |o.refs| ==> Pointed(h, o.refs[i])
    requires Continues(whole, done, ExportEdges(h, c, o, j, depth, lim))
    ensures if IsKeyEdge(o, j) && !KeyAllowed(h, o.refs[j]) then whole == Err(UnsupportedHashKey)
            else match HeapExport.ExportRef(h, c, o.refs[j], depth, lim)
                 case Err(e) => whole == Err(e)
                 case Ok((c1, r)) => Continues(whole, done + [r], ExportEdges(h, c1, o, j + 1, depth, lim))
  {
    hide HeapExport.ExportRef, KeyAllowed;
    var v := HeapExport.ExportRef(h, c, o.refs[j], depth, lim);
    if v.Ok? && !(IsKeyEdge(o, j) && !KeyAllowed(h, o.refs[j])) {
      var (c1, r) := v.value;
      ContinuesStep(whole, done, r, ExportEdges(h, c1, o, j + 1, depth, lim));
    }
  }

  // ---- the cursor loop -----------------------------------------------------------------------

  lemma ExportNodesStep(whole: Result<(Context, seq<Obj>)>, done: seq<Obj>, h: Heap, c: Context, i: nat, lim: Limits)
    requires HeapValid(h) && ContextValid(h, c) && i < |c.order| <= lim.nodes
    requires Continues(whole, done, ExportNodes(h, c, i, lim))
    ensures match InspectNode(h, c, i, lim)
            case Err(e) => whole == Err(e)
            case Ok((c1, o)) =>
              ContextValid(h, c1) && i + 1 <= |c1.order| <= lim.nodes
              && Continues(whole, done + [o], ExportNodes(h, c1, i + 1, lim))
  {
    hide InspectNode, HeapValid, ContextValid;
    var v := InspectNode(h, c, i, lim);
    if v.Ok? {
      NodeStep(h, c, i, lim, 0, 0);
      var (c1, o) := v.value;
      ContinuesStep(whole, done, o, ExportNodes(h, c1, i + 1, lim));
    }
  }

  /** exportValue up to the finished node list. */
  method NumberHeap(heap: Heap, root: Ref, limits: Limits) returns (result: Result<Graph>)
    requires HeapValid(heap) && Pointed(heap, root)
    ensures match ExportGraph(heap, root, limits)
            case Err(e) => result == Err(e)
            case Ok((g, _)) => result == Ok(g)
  {
    hide InspectNode, HeapExport.ExportRef, HeapValid, ContextValid;
    var context := new ExportContext(heap, limits);
    StartStep(heap, root, limits);
    var rootRef :- context.ExportRef(root, 0);
    ghost var whole := ExportNodes(heap, context.Now(), 0, limits);
    ContinuesStart(whole);
    var cursor := 0;
    while cursor < |context.nodes|
      invariant context.Valid() && fresh(context) && context.heap == heap && context.limits == limits
      invariant cursor <= |context.nodes|
      invariant Continues(whole, Records(context.nodes)[..cursor], ExportNodes(heap, context.Now(), cursor, limits))
      decreases limits.nodes - cursor
    {
      ExportNodesStep(whole, Records(context.nodes)[..cursor], heap, context.Now(), cursor, limits);
      var _ :- context.Inspect(cursor);
      cursor := cursor + 1;
    }
    assert Records(context.nodes)[..cursor] + [] == Records(context.nodes);
    result := Ok(Graph(Records(context.nodes), rootRef));
  }

  lemma StartStep(h: Heap, root: Ref, lim: Limits)
    requires HeapValid(h) && Pointed(h, root)
    ensures ContextValid(h, Context([], START))
    ensures HeapExport.ExportRef(h, Context([], START), root, 0, lim).Ok? ==>
              var c := HeapExport.ExportRef(h, Context([], START), root, 0, lim).value.0;
              ContextValid(h, c) && |c.order| <= lim.nodes
  {
    if HeapExport.ExportRef(h, Context([], START), root, 0, lim).Ok? {
      RefStep(h, Context([], START), root, 0, lim, 0);
    }
  }

  /** The byte passes of exportValue: measure, fill the payload, wrap it. */
  method EncodeCapsule(sha: Digest, g: Graph, limits: Limits, schema: Option<Schema>) returns (result: Result<Bytes>)
    requires IsDigest(sha) && SchemaFits(schema) && limits.encodedBytes < U64
    requires RecordsEncodable(g.objs) && RefFits(g.root) && |g.objs| < U32 && EdgeTotal(g.objs) < U32
    ensures result == if !GraphFits(g) || HEADER_LEN + |EncodePayload(g)| >= U64 then Err(ArtifactLimitExceeded)
                      else WrapState(sha, EncodePayload(g), schema, limits.encodedBytes)
  {
    hide EncodePayload, GraphFits, RecordsEncodable, SchemaMetadata, FixedHeader, EncodeEnvelope, RefFits, SchemaFits;
    var payloadLen :- PayloadLength(g);
    var encodedLen := HEADER_LEN + payloadLen;
    if encodedLen >= U64 || encodedLen > limits.encodedBytes {
      return Err(ArtifactLimitExceeded);
    }
    var payload := new byte[payloadLen];
    var written := EncodePayloadInto(payload, g);
    if written.Err? {
      return Err(ArtifactConstructionFailed);
    }
    var encoded := new byte[encodedLen];
    var framed := EncodeEnvelopeInto(encoded, sha, StateEnvelope(schema, payload[..]));
    result := if framed.Ok? then Ok(encoded[..]) else Err(InvalidArtifact);
  }

  /** exportValue. */
  method ExportValue(sha: Digest, heap: Heap, root: Ref, limits: Limits, schema: Option<Schema>)
    returns (result: Result<Bytes>)
    requires IsDigest(sha) && HeapValid(heap) && Pointed(heap, root) && SchemaFits(schema) && limits.encodedBytes < U64
    ensures result == ExportCapsule(sha, heap, root, limits, schema)
  {
    hide ExportGraph, HeapValid, ParseCapsule, EncodePayload, GraphFits, WellFormed, RecordsEncodable, SchemaMetadata,
      EncodeEnvelope, VisitGraph, Holds, RefFits, SchemaFits;
    var g :- NumberHeap(heap, root, limits);
    ExportedWellFormed(heap, root, limits);
    WellFormedIsEncodable(g);
    var encoded :- EncodeCapsule(sha, g, limits, schema);
    var admitted;
    ghost var parsed;
    admitted, parsed := Parse(sha, encoded, limits, schema);
    result := match admitted
              case Ok(_) => Ok(encoded)
              case Err(e) => if e == CapsuleLimitExceeded then Err(e) else Err(ArtifactConstructionFailed);
  }
}
