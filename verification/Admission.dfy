/**
 * validateParsedHashKeys over the normalized graph, and the whole of parse as one operation
 * (artifact_value.zig:558-651 and 853-895).
 */
module Admission {
  import opened BigEndian
  import opened Capsule
  import opened Envelope
  import opened Graph
  import opened HashKeys
  import opened HashWork
  import opened NormalGraph
  import opened Parser
  import opened Payload
  import opened Results
  import opened Wire

  /** parsedHashKey, on a normalized reference. */
  function ParsedHashKey(c: CGraph, r: CRef): Option<HashKey> {
    if r.tag == 3 then Some(IntKey(FromU64(r.payload)))
    else if r.tag == 4 then Some(FloatKey(if IsZero(r.payload) then 0 else r.payload))
    else if r.tag == 5 then Some(SymbolKey(r.target))
    else if r.tag == 6 && r.payload < |c.nodes| && c.nodes[r.payload].kind == 1 && Frozen(c.nodes[r.payload])
    then Some(StringKey(c.nodes[r.payload].bytes))
    else None
  }

  lemma ParsedKeyMeaning(g: Graph, r: Ref)
    requires AllRefsFit(g.objs) && RefFits(g.root) && RefFits(r)
    ensures ParsedHashKey(Normal(g), NormalRef(r)) == NormalKey(g, r)
  {
    if r.Node? && r.id < |g.objs| {
      NormalNodesAt(g.objs, 0, r.id);
    }
  }

  /** The normalized key edge at position `p` of hash `i` is its key reference. */
  lemma KeyEdgeAt(g: Graph, i: nat, p: nat)
    requires AllRefsFit(g.objs) && RefFits(g.root) && i < |g.objs| && p < |KeyRefs(g.objs[i])|
    ensures OffsetOf(g.objs, i) + 2 * p < |Normal(g).edges|
    ensures RefFits(KeyRefs(g.objs[i])[p])
    ensures Normal(g).edges[OffsetOf(g.objs, i) + 2 * p] == NormalRef(KeyRefs(g.objs[i])[p])
  {
    hide NormalRef, RefFits;
    NormalEdgesAt(g.objs, i, 2 * p);
  }

  lemma HashNodeAt(g: Graph, i: nat)
    requires AllRefsFit(g.objs) && RefFits(g.root) && i < |g.objs|
    ensures |Normal(g).nodes| == |g.objs|
    ensures var n := Normal(g).nodes[i];
            && (n.kind == 3 <==> g.objs[i].kind == HashKind)
            && (n.kind == 3 && |g.objs[i].refs| >= DefaultEdges(g.objs[i]) ==>
                n.edgeOffset == OffsetOf(g.objs, i) && n.edgeCount - DefaultCount(n) == PairEdges(g.objs[i]))
  {
    NormalNodesAt(g.objs, 0, i);
  }

  /** The duplicate-key pass over one hash node. */
  method CollectKeys(c: CGraph, ghost g: Graph, i: nat) returns (result: Result<seq<HashKey>>)
    requires AllRefsFit(g.objs) && RefFits(g.root) && c == Normal(g) && i < |g.objs|
    requires g.objs[i].kind == HashKind && Shaped(g.objs[i])
    ensures var o := g.objs[i];
            result == if KeysNormal(g, o) && PairwiseUnequal(KeysOf(g, o)) then Ok(KeysOf(g, o))
            else Err(InvalidArtifact)
  {
    hide NormalKey, KeyEq, ParsedHashKey, NormalRef, Normal, RefFits, AllRefsFit;
    ghost var o := g.objs[i];
    HashNodeAt(g, i);
    var keys: seq<HashKey> := [];
    var pairEdges := c.nodes[i].edgeCount - DefaultCount(c.nodes[i]);
    var edge := 0;
    while edge < pairEdges
      invariant edge == 2 * |keys| && |keys| <= |KeyRefs(o)|
      invariant forall p :: 0 <= p < |keys| ==> NormalKey(g, KeyRefs(o)[p]) == Some(keys[p])
      invariant PairwiseUnequal(keys)
    {
      KeyEdgeAt(g, i, |keys|);
      ParsedKeyMeaning(g, KeyRefs(o)[|keys|]);
      var key := ParsedHashKey(c, c.edges[c.nodes[i].edgeOffset + edge]);
      if key.None? {
        return Err(InvalidArtifact);
      }
      // getOrPut finds an entry exactly when an equal key is stored, because equal keys hash alike.
      if exists p :: 0 <= p < |keys| && KeyEq(keys[p], key.value) {
        ClashIsFinal(g, o, keys, key.value);
        return Err(InvalidArtifact);
      }
      keys := keys + [key.value];
      edge := edge + 2;
    }
    assert |keys| == |KeyRefs(o)|;
    assert KeysNormal(g, o) && keys == KeysOf(g, o);
    result := Ok(keys);
  }

  lemma ClashIsFinal(g: Graph, o: Obj, keys: seq<HashKey>, key: HashKey)
    requires |keys| < |KeyRefs(o)| && NormalKey(g, KeyRefs(o)[|keys|]) == Some(key)
    requires forall p :: 0 <= p < |keys| ==> NormalKey(g, KeyRefs(o)[p]) == Some(keys[p])
    requires exists p :: 0 <= p < |keys| && KeyEq(keys[p], key)
    ensures !(KeysNormal(g, o) && PairwiseUnequal(KeysOf(g, o)))
  {
    hide NormalKey, KeyEq;
    if KeysNormal(g, o) {
      var p :| 0 <= p < |keys| && KeyEq(keys[p], key);
      assert KeyEq(KeysOf(g, o)[p], KeysOf(g, o)[|keys|]);
    }
  }

  /** validateParsedHashKeys. */
  method ValidateParsedHashKeys(c: CGraph, ghost g: Graph) returns (result: Result<()>)
    requires AllRefsFit(g.objs) && RefFits(g.root) && c == Normal(g)
    requires forall k :: 0 <= k < |g.objs| ==> Shaped(g.objs[k])
    ensures match CheckNodes(g, 0, NO_WORK) case Ok(_) => result == Ok(()) case Err(e) => result == Err(e)
  {
    hide Admit, KeysNormal, KeysOf, NormalNodes, NormalEdges, NormalRef, RefFits, AllRefsFit, Shaped;
    var work := new Meter();
    for i := 0 to |c.nodes|
      invariant fresh(work) && WithinWork(work.Totals())
      invariant CheckNodes(g, i, work.Totals()) == CheckNodes(g, 0, NO_WORK)
    {
      HashNodeAt(g, i);
      if c.nodes[i].kind == 3 {
        var keys :- CollectKeys(c, g, i);
        AdmitWithin(work.Totals(), keys);
        var _ :- work.Simulate(keys);
      }
    }
    result := Ok(());
  }

  /** parse: envelope, schema, graph and hash admission, in that order. */
  method Parse(sha: Digest, s: Bytes, lim: Limits, accepted: Option<Schema>)
    returns (result: Result<(CGraph, Option<Schema>)>, ghost g: Graph)
    ensures match ParseCapsule(sha, s, lim, accepted)
            case Err(e) => result == Err(e)
            case Ok((parsed, schema)) =>
              AllRefsFit(parsed.objs) && RefFits(parsed.root) && result == Ok((Normal(parsed), schema))
    ensures ParseCapsule(sha, s, lim, accepted).Ok? ==> g == ParseCapsule(sha, s, lim, accepted).value.0
  {
    hide ValidateState, ParsePayload, CheckNodes, Normal, AllRefsFit, RefFits;
    g := Graph([], Nil);
    var state :- ValidateState(sha, s, accepted, lim.encodedBytes);
    var parsed;
    parsed, g := ParseAll(state.0, lim);
    if parsed.Err? {
      return Err(parsed.error), g;
    }
    ParsedIsEncoded(state.0, lim);
    AllShaped(g);
    var _ :- ValidateParsedHashKeys(parsed.value, g);
    result := Ok((parsed.value, state.1));
  }
}
