/**
 * The graph half of parse (artifact_value.zig:580-851): numbering, depths and quotas, as a walk
 * over references in wire order. `depths` plays both `seen` and `next_node_id`: a node has been
 * seen exactly when its ID is below the length of `depths`.
 */
module Visit {
  import opened Graph
  import opened Results

  datatype Trace = Trace(depths: seq<nat>, edges: nat, stringBytes: nat, symbolBytes: nat)

  const START := Trace([], 0, 0, 0)

  /** parseRef. */
  function VisitRef(t: Trace, r: Ref, depth: nat, nodeCount: nat, lim: Limits): Result<Trace> {
    match r
    case Symbol(name) =>
      if |name| > MAX_SYMBOL_NAME_BYTES then Err(InvalidArtifact)
      else if t.symbolBytes + |name| > lim.symbolBytes then Err(CapsuleLimitExceeded)
      else Ok(t.(symbolBytes := t.symbolBytes + |name|))
    case Node(id) =>
      if id >= nodeCount then Err(InvalidArtifact)
      else if id < |t.depths| then Ok(t)
      else if id != |t.depths| then Err(InvalidArtifact)
      else if depth > lim.depth then Err(CapsuleLimitExceeded)
      else Ok(t.(depths := t.depths + [depth]))
    case _ => Ok(t)
  }

  function VisitRefs(t: Trace, refs: seq<Ref>, depth: nat, nodeCount: nat, lim: Limits): Result<Trace>
    decreases refs
  {
    if refs == [] then Ok(t)
    else
      var t1 :- VisitRef(t, refs[0], depth, nodeCount, lim);
      VisitRefs(t1, refs[1..], depth, nodeCount, lim)
  }

  /** parseNodeBody, once its record has been read. */
  function VisitNode(t: Trace, o: Obj, id: nat, nodeCount: nat, edgeCount: nat, lim: Limits): Result<Trace> {
    if id >= |t.depths| then Err(InvalidArtifact)
    else if o.kind == StringKind then
      if t.stringBytes + |o.bytes| > lim.stringBytes then Err(CapsuleLimitExceeded)
      else Ok(t.(stringBytes := t.stringBytes + |o.bytes|))
    else if t.edges + |o.refs| > edgeCount then Err(InvalidArtifact)
    else VisitRefs(t.(edges := t.edges + |o.refs|), o.refs, t.depths[id] + 1, nodeCount, lim)
  }

  function VisitNodes(t: Trace, objs: seq<Obj>, id: nat, nodeCount: nat, edgeCount: nat, lim: Limits): Result<Trace>
    decreases objs
  {
    if objs == [] then Ok(t)
    else
      var t1 :- VisitNode(t, objs[0], id, nodeCount, edgeCount, lim);
      VisitNodes(t1, objs[1..], id + 1, nodeCount, edgeCount, lim)
  }

  /** The prelude's quota check, the root, every node, and the closing counts. */
  function VisitGraph(g: Graph, lim: Limits): Result<Trace> {
    var n, e := |g.objs|, EdgeTotal(g.objs);
    if n > lim.nodes || e > lim.edges then Err(CapsuleLimitExceeded)
    else
      var t0 :- VisitRef(START, g.root, 0, n, lim);
      var t1 :- VisitNodes(t0, g.objs, 0, n, e, lim);
      if |t1.depths| != n || t1.edges != e then Err(InvalidArtifact) else Ok(t1)
  }
}
