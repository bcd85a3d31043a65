/**
 * The C-normalized graph that parse hands to the materializer: flat node and edge arrays
 * (artifact_value.zig:83-106, shim.c:1747-1775), and the validity check on the C side
 * (shim.c:1802-1898). Pointers are modelled as numbers that are zero exactly when null, beside the
 * bytes they point to.
 */
module NormalGraph {
  import opened BigEndian
  import opened Canonical
  import opened Graph
  import opened Wire

  datatype CRef = CRef(tag: nat, reserved: (byte, byte, byte), length: nat, payload: word64, target: Bytes)

  datatype CNode = CNode(
    kind: nat, flags: nat, reserved: nat, edgeOffset: nat, edgeCount: nat, pointer: nat, bytes: Bytes)

  datatype CGraph = CGraph(nodes: seq<CNode>, edges: seq<CRef>, root: CRef)

  /** A pointer to borrowed bytes: null for none, otherwise some non-null address. */
  function PointerTo(s: Bytes): word64 {
    if s == [] then 0 else 1
  }

  /** parseRef's result. */
  function NormalRef(r: Ref): CRef
    requires RefFits(r)
  {
    var z := (0, 0, 0);
    match r
    case Nil => CRef(0, z, 0, 0, [])
    case False => CRef(1, z, 0, 0, [])
    case True => CRef(2, z, 0, 0, [])
    case Int(i) => CRef(3, z, 0, ToU64(i), [])
    case Float(bits) => CRef(4, z, 0, bits, [])
    case Symbol(name) => CRef(5, z, |name|, PointerTo(name), name)
    case Node(id) => CRef(6, z, 0, id, [])
  }

  function NormalRefs(refs: seq<Ref>): (s: seq<CRef>)
    requires RefsFit(refs)
    ensures |s| == |refs|
  {
    if refs == [] then [] else [NormalRef(refs[0])] + NormalRefs(refs[1..])
  }

  /** parseNodeBody's result. Byte-only nodes keep the canonical zero offset. */
  function NormalNode(o: Obj, offset: nat): CNode {
    var flags := FlagsByte(o.frozen, o.hasDefault);
    if o.kind == StringKind then CNode(1, flags, 0, 0, 0, PointerTo(o.bytes), o.bytes)
    else CNode(KindByte(o.kind), flags, 0, offset, |o.refs|, 0, [])
  }

  function NormalNodes(objs: seq<Obj>, offset: nat): (s: seq<CNode>)
    ensures |s| == |objs|
    decreases objs
  {
    if objs == [] then [] else [NormalNode(objs[0], offset)] + NormalNodes(objs[1..], offset + |objs[0].refs|)
  }

  predicate AllRefsFit(objs: seq<Obj>) {
    objs == [] || (RefsFit(objs[0].refs) && AllRefsFit(objs[1..]))
  }

  function NormalEdges(objs: seq<Obj>): (s: seq<CRef>)
    requires AllRefsFit(objs)
    ensures |s| == EdgeTotal(objs)
  {
    if objs == [] then [] else NormalRefs(objs[0].refs) + NormalEdges(objs[1..])
  }

  function Normal(g: Graph): CGraph
    requires AllRefsFit(g.objs) && RefFits(g.root)
  {
    CGraph(NormalNodes(g.objs, 0), NormalEdges(g.objs), NormalRef(g.root))
  }

  // ---- the C contract ------------------------------------------------------------------------

  /** mrz_artifact_ref_valid. */
  predicate RefValid(g: CGraph, r: CRef) {
    && r.reserved == (0, 0, 0)
    && (if r.tag <= 2 then r.length == 0 && r.payload == 0
        else if r.tag <= 4 then r.length == 0
        else if r.tag == 5 then r.length == 0 || r.payload != 0
        else r.tag == 6 && r.length == 0 && r.payload < |g.nodes|)
  }

  predicate Frozen(n: CNode) {
    n.flags % 2 == 1
  }

  function DefaultCount(n: CNode): nat {
    if n.flags / 2 % 2 == 1 then 1 else 0
  }

  /** mrz_artifact_hash_key_valid. */
  predicate KeyValid(g: CGraph, r: CRef)
    requires RefValid(g, r)
  {
    3 <= r.tag <= 5 || (r.tag == 6 && g.nodes[r.payload].kind == 1 && Frozen(g.nodes[r.payload]))
  }

  predicate NodeValid(g: CGraph, n: CNode) {
    && n.reserved == 0 && n.edgeOffset + n.edgeCount <= |g.edges|
    && (if n.kind == 1 then
          n.flags / 2 == 0 && n.edgeOffset == 0 && n.edgeCount == 0 && (n.bytes == [] || n.pointer != 0)
        else if n.kind == 2 then
          n.flags / 2 == 0 && n.pointer == 0 && n.bytes == []
        else
          && n.kind == 3 && n.flags / 4 == 0 && n.pointer == 0 && n.bytes == []
          && n.edgeCount >= DefaultCount(n) && (n.edgeCount - DefaultCount(n)) % 2 == 0)
  }

  predicate RefsValid(g: CGraph) {
    RefValid(g, g.root) && forall e :: 0 <= e < |g.edges| ==> RefValid(g, g.edges[e])
  }

  predicate NodesValid(g: CGraph) {
    forall i :: 0 <= i < |g.nodes| ==> NodeValid(g, g.nodes[i])
  }

  /** The key edges of node `n`. */
  predicate NodeKeysValid(g: CGraph, n: CNode)
    requires RefsValid(g) && NodeValid(g, n)
  {
    n.kind == 3 ==>
      forall e :: 0 <= e < n.edgeCount - DefaultCount(n) && e % 2 == 0 ==> KeyValid(g, g.edges[n.edgeOffset + e])
  }

  predicate GraphValid(g: CGraph) {
    RefsValid(g) && NodesValid(g) && forall i :: 0 <= i < |g.nodes| ==> NodeKeysValid(g, g.nodes[i])
  }

  /** mrz_artifact_graph_valid, in its own three passes. */
  method CheckGraph(g: CGraph) returns (valid: bool)
    ensures valid == GraphValid(g)
  {
    hide NodeValid, RefValid, KeyValid;
    if !RefValid(g, g.root) {
      return false;
    }
    for i := 0 to |g.nodes|
      invariant forall k :: 0 <= k < i ==> NodeValid(g, g.nodes[k])
    {
      if !NodeValid(g, g.nodes[i]) {
        return false;
      }
    }
    for e := 0 to |g.edges|
      invariant forall k :: 0 <= k < e ==> RefValid(g, g.edges[k])
    {
      if !RefValid(g, g.edges[e]) {
        return false;
      }
    }
    for i := 0 to |g.nodes|
      invariant forall k :: 0 <= k < i ==> NodeKeysValid(g, g.nodes[k])
    {
      var n := g.nodes[i];
      if n.kind == 3 {
        EdgesInRange(g, n);
        var pairEdges := n.edgeCount - DefaultCount(n);
        var edge := 0;
        while edge < pairEdges
          invariant edge % 2 == 0
          invariant forall e :: 0 <= e < edge && e < pairEdges && e % 2 == 0 ==> KeyValid(g, g.edges[n.edgeOffset + e])
        {
          if !KeyValid(g, g.edges[n.edgeOffset + edge]) {
            return false;
          }
          edge := edge + 2;
        }
      }
    }
    valid := true;
  }

  lemma EdgesInRange(g: CGraph, n: CNode)
    requires NodeValid(g, n) && n.kind == 3
    ensures DefaultCount(n) <= n.edgeCount && n.edgeOffset + n.edgeCount <= |g.edges|
  {
  }

  // ---- what normalizing preserves ------------------------------------------------------------

  lemma {:induction false} NormalRefsAt(refs: seq<Ref>, j: nat)
    requires RefsFit(refs) && j < |refs|
    ensures RefFits(refs[j]) && NormalRefs(refs)[j] == NormalRef(refs[j])
  {
    hide NormalRef, RefFits;
    if j > 0 {
      NormalRefsAt(refs[1..], j - 1);
    }
  }

  lemma {:induction false} FitAt(objs: seq<Obj>, i: nat)
    requires AllRefsFit(objs) && i < |objs|
    ensures RefsFit(objs[i].refs)
  {
    if i > 0 {
      FitAt(objs[1..], i - 1);
    }
  }

  function OffsetOf(objs: seq<Obj>, i: nat): nat
    requires i <= |objs|
  {
    if i == 0 then 0 else |objs[0].refs| + OffsetOf(objs[1..], i - 1)
  }

  lemma {:induction false} OffsetBound(objs: seq<Obj>, i: nat)
    requires i < |objs|
    ensures OffsetOf(objs, i) + |objs[i].refs| <= EdgeTotal(objs)
    ensures OffsetOf(objs, i + 1) == OffsetOf(objs, i) + |objs[i].refs|
  {
    if i > 0 {
      OffsetBound(objs[1..], i - 1);
    }
  }

  lemma {:induction false} NormalNodesAt(objs: seq<Obj>, offset: nat, i: nat)
    requires i < |objs|
    ensures NormalNodes(objs, offset)[i] == NormalNode(objs[i], offset + OffsetOf(objs, i))
  {
    hide NormalNode;
    if i > 0 {
      NormalNodesAt(objs[1..], offset + |objs[0].refs|, i - 1);
    }
  }

  /** Edge `j` of node `i` sits at the node's offset plus `j`. */
  lemma {:induction false} NormalEdgesAt(objs: seq<Obj>, i: nat, j: nat)
    requires AllRefsFit(objs) && i < |objs| && j < |objs[i].refs|
    ensures RefFits(objs[i].refs[j]) && OffsetOf(objs, i) + j < EdgeTotal(objs)
    ensures NormalEdges(objs)[OffsetOf(objs, i) + j] == NormalRef(objs[i].refs[j])
  {
    hide NormalRef, RefFits;
    OffsetBound(objs, i);
    if i == 0 {
      NormalRefsAt(objs[0].refs, j);
    } else {
      NormalEdgesAt(objs[1..], i - 1, j);
    }
  }

  /** Every edge belongs to some node. */
  lemma {:induction false} EdgeOwner(objs: seq<Obj>, e: nat) returns (i: nat, j: nat)
    requires e < EdgeTotal(objs)
    ensures i < |objs| && j < |objs[i].refs| && e == OffsetOf(objs, i) + j
  {
    if e < |objs[0].refs| {
      i, j := 0, e;
    } else {
      i, j := EdgeOwner(objs[1..], e - |objs[0].refs|);
      i := i + 1;
    }
  }

  lemma {:induction false} WellFormedFits(objs: seq<Obj>, n: nat)
    requires forall k :: 0 <= k < |objs| ==> RecordFits(objs[k], n)
    ensures AllRefsFit(objs)
  {
    hide RefFits;
    if objs != [] {
      assert RecordFits(objs[0], n);
      FitFromMembers(objs[0].refs);
      forall k | 0 <= k < |objs| - 1 ensures RecordFits(objs[1..][k], n) {
        assert objs[1..][k] == objs[k + 1];
      }
      WellFormedFits(objs[1..], n);
    }
  }

  lemma {:induction false} FitFromMembers(refs: seq<Ref>)
    requires forall j :: 0 <= j < |refs| ==> RefFits(refs[j])
    ensures RefsFit(refs)
  {
    hide RefFits;
    if refs != [] {
      FitFromMembers(refs[1..]);
    }
  }

  lemma NormalRefValid(c: CGraph, r: Ref)
    requires RefFits(r) && (r.Node? ==> r.id < |c.nodes|)
    ensures RefValid(c, NormalRef(r))
  {
  }

  /** A well-formed graph, normalized, meets the C contract: parse's output is never refused there. */
  lemma NormalIsValid(g: Graph)
    requires WellFormed(g)
    ensures AllRefsFit(g.objs) && GraphValid(Normal(g))
  {
    hide NormalRef, RefValid, RefFits, NodeValid, NodeKeysValid, NormalNode, RecordFits;
    WellFormedFits(g.objs, |g.objs|);
    var c := Normal(g);
    assert [g.root][0] == g.root;
    NormalRefValid(c, g.root);
    forall e | 0 <= e < |c.edges| ensures RefValid(c, c.edges[e]) {
      NormalEdgeValid(g, c, e);
    }
    forall i | 0 <= i < |c.nodes| ensures NodeValid(c, c.nodes[i]) && NodeKeysValid(c, c.nodes[i]) {
      NormalEntryValid(g, c, i);
    }
  }

  lemma NormalEdgeValid(g: Graph, c: CGraph, e: nat)
    requires WellFormed(g) && AllRefsFit(g.objs) && RefFits(g.root) && c == Normal(g) && e < |c.edges|
    ensures RefValid(c, c.edges[e])
  {
    hide NormalRef, RefValid, RefFits, Shaped;
    var i, j := EdgeOwner(g.objs, e);
    NormalEdgesAt(g.objs, i, j);
    assert RecordFits(g.objs[i], |g.objs|);
    NormalRefValid(c, g.objs[i].refs[j]);
  }

  lemma NormalEntryValid(g: Graph, c: CGraph, i: nat)
    requires WellFormed(g) && AllRefsFit(g.objs) && RefFits(g.root) && c == Normal(g) && RefsValid(c) && i < |c.nodes|
    ensures NodeValid(c, c.nodes[i]) && NodeKeysValid(c, c.nodes[i])
  {
    hide NormalRef, RefValid, RefFits, NodeValid, NormalNode, Shaped, KeyValid;
    NormalNodesAt(g.objs, 0, i);
    OffsetBound(g.objs, i);
    assert RecordFits(g.objs[i], |g.objs|);
    NormalNodeValid(c, g.objs[i], OffsetOf(g.objs, i));
    forall e | 0 <= e < PairEdges(g.objs[i]) && e % 2 == 0 && g.objs[i].kind == HashKind
      ensures KeyValid(c, c.edges[OffsetOf(g.objs, i) + e])
    {
      NormalEdgesAt(g.objs, i, e);
      NormalRefValid(c, g.objs[i].refs[e]);
      NormalKeyValid(g, c, i, e);
    }
  }

  lemma NormalNodeValid(c: CGraph, o: Obj, offset: nat)
    requires Shaped(o) && offset + |o.refs| <= |c.edges|
    ensures var n := NormalNode(o, offset);
            && NodeValid(c, n)
            && (n.kind == 3 <==> o.kind == HashKind)
            && (n.kind == 3 ==> n.edgeOffset == offset && n.edgeCount - DefaultCount(n) == PairEdges(o))
  {
  }

  lemma NormalKeyValid(g: Graph, c: CGraph, i: nat, e: nat)
    requires WellFormed(g) && AllRefsFit(g.objs) && c == Normal(g)
    requires i < |g.objs| && e < |g.objs[i].refs| && IsKeyEdge(g.objs[i], e)
    requires RefFits(g.objs[i].refs[e]) && RefValid(c, NormalRef(g.objs[i].refs[e]))
    ensures KeyValid(c, NormalRef(g.objs[i].refs[e]))
  {
    var r := g.objs[i].refs[e];
    assert KeyRefAllowed(g, r);
    if r.Node? {
      NormalNodesAt(g.objs, 0, r.id);
    }
  }
}
