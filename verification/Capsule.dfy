/**
 * Whole capsules: parse and exportValue from bytes to graph and from heap to bytes
 * (artifact_value.zig:168-236 and 558-651), and the laws between them.
 */
module Capsule {
  import opened BigEndian
  import opened Canonical
  import opened Envelope
  import opened Graph
  import opened HashKeys
  import opened HashWork
  import opened HeapExport
  import opened Numbering
  import opened Payload
  import opened Results
  import opened Visit

  // ---- hash admission over a graph -----------------------------------------------------------

  /** One iteration of validateParsedHashKeys. */
  ghost function CheckNode(g: Graph, i: nat, w: Work): Result<Work>
    requires i < |g.objs|
  {
    var o := g.objs[i];
    if o.kind != HashKind then Ok(w)
    else if !KeysNormal(g, o) || !PairwiseUnequal(KeysOf(g, o)) then Err(InvalidArtifact)
    else Admit(w, KeysOf(g, o))
  }

  ghost function CheckNodes(g: Graph, i: nat, w: Work): Result<Work>
    requires i <= |g.objs|
    decreases |g.objs| - i
  {
    if i == |g.objs| then Ok(w)
    else
      var w1 :- CheckNode(g, i, w);
      CheckNodes(g, i + 1, w1)
  }

  const NO_WORK := Work(0, 0, 0)

  /** Every hash key is a legal key, and no hash has two equal keys. */
  ghost predicate KeysUnambiguous(g: Graph) {
    forall i :: 0 <= i < |g.objs| && g.objs[i].kind == HashKind ==>
      KeysNormal(g, g.objs[i]) && PairwiseUnequal(KeysOf(g, g.objs[i]))
  }

  predicate WithinWork(w: Work) {
    w.pairs <= MAX_HASH_PAIRS && w.probes <= MAX_CAPSULE_PROBES && w.comparisonBytes <= MAX_COMPARISON_BYTES
  }

  lemma AdmitWithin(w: Work, keys: seq<HashKey>)
    ensures Admit(w, keys).Ok? ==> WithinWork(Admit(w, keys).value)
    ensures Admit(w, keys).Err? ==> Admit(w, keys).error == CapsuleLimitExceeded
  {
  }

  lemma {:induction false} CheckedKeys(g: Graph, i: nat, w: Work)
    requires i <= |g.objs|
    ensures CheckNodes(g, i, w).Ok? ==>
              forall k :: i <= k < |g.objs| && g.objs[k].kind == HashKind ==>
                KeysNormal(g, g.objs[k]) && PairwiseUnequal(KeysOf(g, g.objs[k]))
    ensures CheckNodes(g, i, w).Err? && KeysUnambiguous(g) ==> CheckNodes(g, i, w).error == CapsuleLimitExceeded
    decreases |g.objs| - i
  {
    hide Admit, KeysNormal, KeysOf;
    if i < |g.objs| {
      if g.objs[i].kind == HashKind && KeysNormal(g, g.objs[i]) {
        AdmitWithin(w, KeysOf(g, g.objs[i]));
      }
      var v := CheckNode(g, i, w);
      if v.Ok? {
        CheckedKeys(g, i + 1, v.value);
      }
    }
  }

  /** Accepted hashes have legal, pairwise unequal keys; and only the work budget refuses such hashes. */
  lemma HashCheckMeaning(g: Graph)
    ensures CheckNodes(g, 0, NO_WORK).Ok? ==> KeysUnambiguous(g)
    ensures CheckNodes(g, 0, NO_WORK).Err? && KeysUnambiguous(g) ==>
              CheckNodes(g, 0, NO_WORK).error == CapsuleLimitExceeded
  {
    CheckedKeys(g, 0, NO_WORK);
  }

  // ---- parse ---------------------------------------------------------------------------------

  /** parse. */
  ghost function ParseCapsule(sha: Digest, s: Bytes, lim: Limits, accepted: Option<Schema>)
    : Result<(Graph, Option<Schema>)>
  {
    var (payload, schema) :- ValidateState(sha, s, accepted, lim.encodedBytes);
    var g :- ParsePayload(payload, lim);
    var _ :- CheckNodes(g, 0, NO_WORK);
    Ok((g, schema))
  }

  /** The bytes of a capsule holding `g`. */
  function CapsuleBytes(sha: Digest, g: Graph, schema: Option<Schema>): Bytes
    requires GraphFits(g) && |EncodePayload(g)| < U64 && SchemaFits(schema)
  {
    EncodeEnvelope(sha, StateEnvelope(schema, EncodePayload(g)))
  }

  /** What a graph must satisfy to travel, said without the parser. */
  ghost predicate Acceptable(g: Graph, lim: Limits) {
    && GraphFits(g) && |EncodePayload(g)| < U64 && HEADER_LEN + |EncodePayload(g)| <= lim.encodedBytes
    && Numbered(g) && WithinQuotas(g, lim)
    && CheckNodes(g, 0, NO_WORK).Ok?
  }

  lemma {:induction false} FittingObjsShaped(objs: seq<Obj>, k: nat)
    requires ObjsFit(objs) && k < |objs|
    ensures ObjFits(objs[k])
  {
    hide ObjFits;
    if k > 0 {
      FittingObjsShaped(objs[1..], k - 1);
    }
  }

  lemma AllShaped(g: Graph)
    requires GraphFits(g)
    ensures forall k :: 0 <= k < |g.objs| ==> Shaped(g.objs[k])
  {
    forall k | 0 <= k < |g.objs| ensures Shaped(g.objs[k]) {
      FittingObjsShaped(g.objs, k);
    }
  }

  /**
   * parse accepts exactly the encodings of acceptable graphs under an accepted schema, and returns
   * the graph and schema that were encoded.
   */
  lemma ParseExactly(
    sha: Digest, s: Bytes, lim: Limits, accepted: Option<Schema>, g: Graph, schema: Option<Schema>)
    requires IsDigest(sha)
    ensures ParseCapsule(sha, s, lim, accepted) == Ok((g, schema)) <==>
            && Acceptable(g, lim) && SchemaFits(schema) && SchemaAccepted(accepted, schema)
            && s == CapsuleBytes(sha, g, schema)
  {
    hide ValidateState, ParsePayload, GraphFits, EncodePayload, CheckNodes, EncodeEnvelope, SchemaMetadata,
      Numbered, WithinQuotas, VisitGraph, SchemaFits, SchemaAccepted;
    if ParseCapsule(sha, s, lim, accepted) == Ok((g, schema)) {
      var payload := ValidateState(sha, s, accepted, lim.encodedBytes).value.0;
      ValidateExactly(sha, s, accepted, lim.encodedBytes, payload, schema);
      ParseIsInverse(payload, g, lim);
      AllShaped(g);
      AcceptedExactly(g, lim);
    }
    if Acceptable(g, lim) && SchemaFits(schema) && SchemaAccepted(accepted, schema)
       && s == CapsuleBytes(sha, g, schema)
    {
      var payload := EncodePayload(g);
      ValidateExactly(sha, s, accepted, lim.encodedBytes, payload, schema);
      AllShaped(g);
      AcceptedExactly(g, lim);
      ParseIsInverse(payload, g, lim);
    }
  }

  // ---- what travels is well formed -----------------------------------------------------------

  lemma {:induction false} RefsFitMembers(refs: seq<Ref>)
    ensures RefsFit(refs) <==> forall j :: 0 <= j < |refs| ==> RefFits(refs[j])
  {
    if refs != [] {
      RefsFitMembers(refs[1..]);
      assert refs == [refs[0]] + refs[1..];
      if RefsFit(refs) {
        forall j | 0 <= j < |refs| ensures RefFits(refs[j]) {
          if j > 0 {
            assert refs[j] == refs[1..][j - 1];
          }
        }
      }
      if forall j :: 0 <= j < |refs| ==> RefFits(refs[j]) {
        forall j | 0 <= j < |refs| - 1 ensures RefFits(refs[1..][j]) {
          assert refs[1..][j] == refs[j + 1];
        }
      }
    }
  }

  lemma EdgesAreReferences(g: Graph, i: nat, j: nat)
    requires i < |g.objs| && j < |g.objs[i].refs|
    ensures g.objs[i].refs[j] in Before(g, |g.objs|)
  {
    assert g.objs[i].refs[j] in Before(g, i + 1);
    BeforeGrows(g, i + 1, |g.objs|, g.objs[i].refs[j]);
  }

  lemma NumberedIdsInRange(g: Graph, r: Ref)
    requires Numbered(g) && r in Before(g, |g.objs|) && r.Node?
    ensures r.id < |g.objs|
  {
    var refs := Before(g, |g.objs|);
    var k :| 0 <= k < |refs| && refs[k] == r;
    assert NextInOrder(refs[..k], refs[k], |g.objs|);
  }

  lemma AcceptedRecord(g: Graph, i: nat)
    requires GraphFits(g) && Numbered(g) && i < |g.objs|
    ensures RecordFits(g.objs[i], |g.objs|)
  {
    hide Numbered, RefFits, Before;
    AllShaped(g);
    FittingObjsShaped(g.objs, i);
    RefsFitMembers(g.objs[i].refs);
    forall j | 0 <= j < |g.objs[i].refs| && g.objs[i].refs[j].Node? ensures g.objs[i].refs[j].id < |g.objs| {
      EdgesAreReferences(g, i, j);
      NumberedIdsInRange(g, g.objs[i].refs[j]);
    }
  }

  lemma UnambiguousKeysAllowed(g: Graph)
    requires KeysUnambiguous(g) && forall k :: 0 <= k < |g.objs| ==> Shaped(g.objs[k])
    ensures KeysAllowed(g)
  {
    hide NormalKey, KeyRefAllowed;
    forall i, j | 0 <= i < |g.objs| && 0 <= j < |g.objs[i].refs| && IsKeyEdge(g.objs[i], j)
      ensures KeyRefAllowed(g, g.objs[i].refs[j])
    {
      assert KeyRefs(g.objs[i])[j / 2] == g.objs[i].refs[j];
      NormalKeyMeaning(g, g.objs[i].refs[j]);
    }
  }

  lemma AcceptedRoot(g: Graph)
    requires GraphFits(g) && Numbered(g)
    ensures IdsBelow([g.root], |g.objs|) && RefFits(g.root) && |g.objs| < U32 && EdgeTotal(g.objs) < U32
  {
    hide Numbered, RefFits;
    BeforeGrows(g, 0, |g.objs|, g.root);
    if g.root.Node? {
      NumberedIdsInRange(g, g.root);
    }
  }

  /** A parsed graph is well formed: shapes, widths, IDs in range and legal hash keys. */
  lemma AcceptableIsWellFormed(g: Graph, lim: Limits)
    requires Acceptable(g, lim)
    ensures WellFormed(g) && VisitGraph(g, lim).Ok?
  {
    hide EncodePayload, CheckNodes, VisitGraph, WithinQuotas, Numbered, RefFits, GraphFits, RecordFits, KeysUnambiguous,
      KeysAllowed, IdsBelow;
    AllShaped(g);
    AcceptedExactly(g, lim);
    HashCheckMeaning(g);
    forall i | 0 <= i < |g.objs| ensures RecordFits(g.objs[i], |g.objs|) {
      AcceptedRecord(g, i);
    }
    UnambiguousKeysAllowed(g);
    AcceptedRoot(g);
  }
}
