/**
 * The capsule's whole journey. What the materializer builds is, seen as a heap, the very graph that
 * was parsed; so importing a capsule and exporting the result gives back the same bytes.
 */
module RoundTrip {
  import opened Admission
  import opened BigEndian
  import opened Canonical
  import opened Capsule
  import opened Envelope
  import opened Graph
  import opened HashKeys
  import opened HeapExport
  import opened Interpreter
  import opened Materializer
  import opened NormalGraph
  import opened Numbering
  import opened Payload
  import opened Results
  import opened Shells
  import opened Transfer

  // ---- the interpreter's memory, as exportValue sees it --------------------------------------

  predicate Boxed(m: Memory, v: Value) {
    v.VPtr? && v.address in m && (m[v.address].BoxedInt? || m[v.address].BoxedFloat?)
  }

  /** A boxed number is a scalar to exportRef; any other pointer is an object. */
  function ViewValue(m: Memory, v: Value): Ref {
    match v
    case VNil => Nil
    case VFalse => False
    case VTrue => True
    case VInt(i) => Int(i)
    case VSymbol(name) => Symbol(name)
    case VPtr(a) =>
      if Boxed(m, v) then (if m[a].BoxedInt? then Int(m[a].i) else Float(m[a].bits)) else Node(a)
  }

  function ViewValues(m: Memory, values: seq<Value>): (refs: seq<Ref>)
    ensures |refs| == |values| && forall k :: 0 <= k < |refs| ==> refs[k] == ViewValue(m, values[k])
  {
    seq(|values|, k requires 0 <= k < |values| => ViewValue(m, values[k]))
  }

  function ViewCell(m: Memory, c: Cell): Obj
    requires !c.BoxedInt? && !c.BoxedFloat?
  {
    var refs := ViewValues(m, Contents(c));
    match c
    case StringCell(bytes, frozen) => Obj(StringKind, frozen, false, bytes, refs)
    case ArrayCell(_, frozen) => Obj(ArrayKind, frozen, false, [], refs)
    case HashCell(_, default, frozen) => Obj(HashKind, frozen, default.Some?, [], refs)
  }

  /** Materialized objects are plain core Strings, Arrays and Hashes. */
  function View(m: Memory): Heap {
    map a | a in m && !m[a].BoxedInt? && !m[a].BoxedFloat? :: Slot(ViewCell(m, m[a]), true, true, false, false)
  }

  /** The memory half of `Vm.Valid`. */
  ghost predicate Sound(m: Memory) {
    forall a :: a in m ==> PointsInto(Contents(m[a]), m.Keys) && CellValid(m[a]) && ValuesFit(Contents(m[a]))
  }

  lemma ViewPointed(m: Memory, values: seq<Value>, k: nat)
    requires Sound(m) && PointsInto(values, m.Keys) && ValuesFit(values) && k < |values|
    ensures Pointed(View(m), ViewValue(m, values[k]))
  {
    if Boxed(m, values[k]) {
      assert CellValid(m[values[k].address]);
    }
  }

  lemma ViewIsHeap(m: Memory)
    requires Sound(m)
    ensures HeapValid(View(m))
  {
    hide ViewValue, Pointed;
    forall a | a in View(m)
      ensures Shaped(View(m)[a].obj)
      ensures forall j :: 0 <= j < |View(m)[a].obj.refs| ==> Pointed(View(m), View(m)[a].obj.refs[j])
    {
      assert CellValid(m[a]);
      forall j | 0 <= j < |Contents(m[a])| ensures Pointed(View(m), ViewCell(m, m[a]).refs[j]) {
        ViewPointed(m, Contents(m[a]), j);
      }
    }
  }

  // ---- what was built is what was parsed -----------------------------------------------------

  lemma MatchIsPlacement(m: Memory, shells: seq<nat>, v: Value, r: Ref)
    requires RefFits(r) && Matches(m, shells, v, NormalRef(r)) && (r.Node? ==> r.id < |shells|)
    requires forall i :: 0 <= i < |shells| ==> !Boxed(m, VPtr(shells[i]))
    ensures ViewValue(m, v) == PlaceRef(r, shells)
  {
  }

  lemma NormalizedNode(g: Graph, i: nat)
    requires AllRefsFit(g.objs) && RefFits(g.root) && i < |g.objs| && Shaped(g.objs[i])
    ensures |Normal(g).nodes| == |g.objs|
    ensures var n, o := Normal(g).nodes[i], g.objs[i];
            && n.kind == (if o.kind == StringKind then 1 else if o.kind == ArrayKind then 2 else 3)
            && n.edgeCount == |o.refs| && n.bytes == o.bytes && Frozen(n) == o.frozen
            && DefaultCount(n) == DefaultEdges(o)
  {
    NormalNodesAt(g.objs, 0, i);
  }

  lemma NormalizedEdge(g: Graph, i: nat, j: nat)
    requires WellFormed(g) && AllRefsFit(g.objs) && GraphValid(Normal(g)) && i < |g.objs| && j < |g.objs[i].refs|
    ensures |Normal(g).nodes| == |g.objs| && j < Normal(g).nodes[i].edgeCount
    ensures RefFits(g.objs[i].refs[j]) && EdgesOf(Normal(g), i)[j] == NormalRef(g.objs[i].refs[j])
  {
    hide NormalRef, RefFits, GraphValid;
    assert RecordFits(g.objs[i], |g.objs|);
    NormalizedNode(g, i);
    NormalNodesAt(g.objs, 0, i);
    EdgeValid(Normal(g), i, j);
    NormalEdgesAt(g.objs, i, j);
    assert g.objs[i].kind != StringKind;
  }

  /** Every finished shell is the record it was made from. */
  lemma BuiltNode(m: Memory, value: Value, g: Graph, shells: seq<nat>, i: nat)
    requires WellFormed(g) && AllRefsFit(g.objs) && GraphValid(Normal(g)) && Built(m, value, Normal(g), shells)
    requires i < |g.objs|
    ensures i < |shells| && shells[i] in View(m)
    ensures View(m)[shells[i]] == Slot(PlaceObj(g.objs[i], shells), true, true, false, false)
  {
    hide Matches, NormalRef, RefFits, GraphValid, PlaceRef, ViewValue, RefValid, EdgesOf, Filling, KeysAllowed;
    var c, o := Normal(g), g.objs[i];
    assert RecordFits(o, |g.objs|);
    NormalizedNode(g, i);
    forall k | 0 <= k < |shells| ensures k < |g.objs| && shells[k] in m && !Boxed(m, VPtr(shells[k])) {
      NormalizedShell(m, value, g, shells, k);
    }
    NormalizedShell(m, value, g, shells, i);
    var cell := m[shells[i]];
    forall j | 0 <= j < |o.refs| ensures ViewValue(m, Contents(cell)[j]) == PlaceRef(o.refs[j], shells) {
      NormalizedEdge(g, i, j);
      MatchIsPlacement(m, shells, Contents(cell)[j], o.refs[j]);
    }
    assert ViewValues(m, Contents(cell)) == PlaceRefs(o.refs, shells);
  }

  lemma NormalizedShell(m: Memory, value: Value, g: Graph, shells: seq<nat>, i: nat)
    requires WellFormed(g) && AllRefsFit(g.objs) && GraphValid(Normal(g)) && Built(m, value, Normal(g), shells)
    requires i < |shells|
    ensures i < |g.objs| && shells[i] in m && |Normal(g).nodes| == |g.objs|
    ensures var o, cell := g.objs[i], m[shells[i]];
            && |Contents(cell)| == |o.refs| == Normal(g).nodes[i].edgeCount
            && (o.kind == StringKind ==> cell == StringCell(o.bytes, o.frozen))
            && (o.kind == ArrayKind ==> cell.ArrayCell? && cell.frozen == o.frozen)
            && (o.kind == HashKind ==> cell.HashCell? && cell.frozen == o.frozen && cell.default.Some? == o.hasDefault)
            && forall j :: 0 <= j < |o.refs| ==> Matches(m, shells, Contents(cell)[j], EdgesOf(Normal(g), i)[j])
  {
    hide Matches, NormalRef, RefFits, GraphValid, EdgesOf, KeysAllowed;
    var c := Normal(g);
    assert FillingAt(m, shells, c, |c.nodes|, 0, i);
    assert RecordFits(g.objs[i], |g.objs|);
    NormalizedNode(g, i);
  }

  lemma BuiltKeys(m: Memory, value: Value, g: Graph, shells: seq<nat>, i: nat)
    requires Sound(m) && HeapValid(View(m))
    requires WellFormed(g) && AllRefsFit(g.objs) && GraphValid(Normal(g)) && Built(m, value, Normal(g), shells)
    requires i < |g.objs| && i < |shells| && shells[i] in View(m)
    requires View(m)[shells[i]].obj == PlaceObj(g.objs[i], shells)
    ensures KeysAllowedIn(View(m), View(m)[shells[i]].obj)
  {
    hide GraphValid, Filling, Matches, NormalRef, View, HeapValid;
    var placed := View(m)[shells[i]].obj;
    assert Pointed(View(m), Nil);
    forall j | 0 <= j < |placed.refs| && IsKeyEdge(placed, j)
      ensures Pointed(View(m), placed.refs[j]) && KeyAllowed(View(m), placed.refs[j])
    {
      var r := g.objs[i].refs[j];
      PlacedPointed(View(m), shells[i], j);
      assert IsKeyEdge(g.objs[i], j) && KeyRefAllowed(g, r);
      if r.Node? {
        BuiltNode(m, value, g, shells, r.id);
      }
    }
  }

  lemma PlacedPointed(h: Heap, a: nat, j: nat)
    requires HeapValid(h) && a in h && j < |h[a].obj.refs|
    ensures Pointed(h, h[a].obj.refs[j])
  {
  }

  /** The materialized graph is, in the interpreter's heap, the graph that was parsed. */
  lemma BuiltHolds(m: Memory, value: Value, g: Graph, shells: seq<nat>)
    requires Sound(m) && (value.VPtr? ==> value.address in m)
    requires WellFormed(g) && AllRefsFit(g.objs) && GraphValid(Normal(g)) && Built(m, value, Normal(g), shells)
    ensures HeapValid(View(m)) && Pointed(View(m), ViewValue(m, value))
    ensures Holds(View(m), ViewValue(m, value), g, shells)
  {
    hide GraphValid, Filling, Matches, NormalRef, View, ViewValue, HeapValid, KeyAllowed, RefFits, Pointed, PlaceRef,
      KeysAllowed;
    var h := View(m);
    ViewIsHeap(m);
    assert PointsInto([value], m.Keys);
    MatchFits(m, shells, value, Normal(g).root);
    ViewPointed(m, [value], 0);
    assert [g.root][0] == g.root;
    forall k | 0 <= k < |g.objs| ensures Faithful(h, shells, 0 + k, g.objs[k]) {
      BuiltNode(m, value, g, shells, k);
      BuiltKeys(m, value, g, shells, k);
      assert RecordFits(g.objs[k], |g.objs|);
    }
    forall k | 0 <= k < |shells| ensures !Boxed(m, VPtr(shells[k])) {
      NormalizedShell(m, value, g, shells, k);
    }
    NormalNodesLength(g);
    MatchIsPlacement(m, shells, value, g.root);
  }

  lemma MatchFits(m: Memory, shells: seq<nat>, v: Value, r: CRef)
    requires Matches(m, shells, v, r)
    ensures ValuesFit([v])
  {
  }

  lemma NormalNodesLength(g: Graph)
    requires AllRefsFit(g.objs) && RefFits(g.root)
    ensures |Normal(g).nodes| == |g.objs|
  {
  }

  // ---- the parser's output is never refused --------------------------------------------------

  /** Distinct keys on the parser's side are distinct keys on the C side. */
  lemma ParsedKeysDistinct(g: Graph)
    requires WellFormed(g) && AllRefsFit(g.objs) && GraphValid(Normal(g)) && KeysUnambiguous(g)
    ensures KeysDistinct(Normal(g))
  {
    hide GraphValid, NormalRef, KeyEq, ParsedHashKey, NormalKey, RefFits, KeysAllowed;
    var c := Normal(g);
    forall i | 0 <= i < |c.nodes| ensures KeysDistinctAt(c, i) {
      assert RecordFits(g.objs[i], |g.objs|);
      NormalizedNode(g, i);
      var o := g.objs[i];
      if c.nodes[i].kind == 3 {
        forall p, q | 0 <= p < q && 2 * q < PairCount(c.nodes[i])
          ensures !KeysClash(c, KeyEdge(c, i, p), KeyEdge(c, i, q))
        {
          ParsedKeyAt(g, i, p);
          ParsedKeyAt(g, i, q);
          assert !KeyEq(KeysOf(g, o)[p], KeysOf(g, o)[q]);
        }
      }
    }
  }

  lemma ParsedKeyAt(g: Graph, i: nat, p: nat)
    requires WellFormed(g) && AllRefsFit(g.objs) && GraphValid(Normal(g)) && KeysUnambiguous(g)
    requires i < |g.objs| && g.objs[i].kind == HashKind && p < |KeyRefs(g.objs[i])|
    ensures |Normal(g).nodes| == |g.objs| && 2 * p < Normal(g).nodes[i].edgeCount
    ensures KeysNormal(g, g.objs[i])
    ensures ParsedHashKey(Normal(g), KeyEdge(Normal(g), i, p)) == Some(KeysOf(g, g.objs[i])[p])
  {
    hide GraphValid, NormalRef, KeyEq, ParsedHashKey, NormalKey, RefFits, KeysAllowed, EdgesOf;
    NormalizedEdge(g, i, 2 * p);
    ParsedKeyMeaning(g, g.objs[i].refs[2 * p]);
  }

  // ---- the laws ------------------------------------------------------------------------------

  /** Exporting what a capsule materialized as, under the same limits and schema, restores its bytes. */
  lemma MaterializedExportsSame(
    sha: Digest, s: Bytes, lim: Limits, accepted: Option<Schema>, g: Graph, schema: Option<Schema>,
    m: Memory, value: Value, shells: seq<nat>)
    requires IsDigest(sha) && lim.encodedBytes < U64 && ParseCapsule(sha, s, lim, accepted) == Ok((g, schema))
    requires Sound(m) && (value.VPtr? ==> value.address in m)
    requires AllRefsFit(g.objs) && RefFits(g.root) && GraphValid(Normal(g)) && Built(m, value, Normal(g), shells)
    ensures HeapValid(View(m)) && Pointed(View(m), ViewValue(m, value)) && SchemaFits(schema)
    ensures Holds(View(m), ViewValue(m, value), g, shells)
    ensures ExportCapsule(sha, View(m), ViewValue(m, value), lim, schema) == Ok(s)
  {
    hide ParseCapsule, ExportCapsule, GraphValid, Normal, Built, WellFormed, HeapValid, View, Holds, SchemaFits,
      Acceptable, SchemaAccepted, CapsuleBytes, AllRefsFit, RefFits;
    ParseExactly(sha, s, lim, accepted, g, schema);
    AcceptableIsWellFormed(g, lim);
    BuiltHolds(m, value, g, shells);
    ParseThenExport(sha, s, lim, schema, accepted, View(m), ViewValue(m, value), g, shells);
  }

  /** `phi` carries every object of one heap it covers, edge by edge, onto an equal object of the other. */
  ghost predicate SameShape(h: Heap, root: Ref, h': Heap, root': Ref, phi: map<nat, nat>) {
    && (forall a :: a in phi ==> a in h && phi[a] in h' && h'[phi[a]].obj == RenameObj(h[a].obj, phi))
    && (forall a, b :: a in phi && b in phi && phi[a] == phi[b] ==> a == b)
    && (forall a, j :: a in phi && 0 <= j < |h[a].obj.refs| && h[a].obj.refs[j].Node? ==> h[a].obj.refs[j].id in phi)
    && (root.Node? ==> root.id in phi)
    && root' == RenameRef(root, phi)
  }

  function Pairing(order: seq<nat>, order': seq<nat>): map<nat, nat>
    requires |order| == |order'|
  {
    map a | a in order :: order'[IdOf(order, a)]
  }

  lemma {:induction false} IdOfMember(order: seq<nat>, i: nat)
    requires i < |order| && forall j :: 0 <= j < i ==> order[j] != order[i]
    ensures IdOf(order, order[i]) == i
  {
    if i > 0 {
      assert order[0] != order[i];
      IdOfMember(order[1..], i - 1);
    }
  }

  /** Two heaps holding one graph are isomorphic, node by node. */
  lemma HoldersAreIsomorphic(h: Heap, root: Ref, h': Heap, root': Ref, g: Graph, order: seq<nat>, order': seq<nat>)
    requires HeapValid(h) && HeapValid(h') && Holds(h, root, g, order) && Holds(h', root', g, order')
    ensures SameShape(h, root, h', root', Pairing(order, order'))
  {
    hide HeapValid, Faithful, PlaceObj, PlaceRefs, PlaceRef, RenameObj, RenameRef, IdsBelow;
    var phi := Pairing(order, order');
    forall i | 0 <= i < |g.objs| ensures phi[order[i]] == order'[i] {
      IdOfMember(order, i);
    }
    forall a | a in phi
      ensures a in h && phi[a] in h' && h'[phi[a]].obj == RenameObj(h[a].obj, phi)
      ensures forall j :: 0 <= j < |h[a].obj.refs| && h[a].obj.refs[j].Node? ==> h[a].obj.refs[j].id in phi
    {
      var i := IdOf(order, a);
      assert Faithful(h, order, 0 + i, g.objs[i]) && Faithful(h', order', 0 + i, g.objs[i]);
      PairedObject(h, h', g.objs[i], order, order', i, phi);
    }
    RootPlaced(g.root, order, order', phi);
  }

  lemma PairedObject(h: Heap, h': Heap, o: Obj, order: seq<nat>, order': seq<nat>, i: nat, phi: map<nat, nat>)
    requires HeapValid(h) && HeapValid(h') && Faithful(h, order, i, o) && Faithful(h', order', i, o)
    requires |order| == |order'| && forall k :: 0 <= k < |order| ==> order[k] in phi && phi[order[k]] == order'[k]
    ensures i < |order| && order[i] in h && order'[i] in h' && h'[order'[i]].obj == RenameObj(h[order[i]].obj, phi)
    ensures forall j :: 0 <= j < |h[order[i]].obj.refs| && h[order[i]].obj.refs[j].Node? ==>
              h[order[i]].obj.refs[j].id in phi
  {
    hide HeapValid, Faithful, PlaceObj, PlaceRefs, RenameObj, IdsBelow;
    HolderNode(h, order, i, o);
    HolderNode(h', order', i, o);
    PlacedAlike(o, order, order', phi);
    PlacedInside(o, order, phi);
  }

  lemma HolderNode(h: Heap, order: seq<nat>, i: nat, o: Obj)
    requires HeapValid(h) && Faithful(h, order, i, o)
    ensures i < |order| && order[i] in h && h[order[i]].obj == PlaceObj(o, order) && IdsBelow(o.refs, |order|)
  {
  }

  lemma RootPlaced(r: Ref, order: seq<nat>, order': seq<nat>, phi: map<nat, nat>)
    requires IdsBelow([r], |order|) && |order| == |order'|
    requires forall i :: 0 <= i < |order| ==> order[i] in phi && phi[order[i]] == order'[i]
    ensures PlaceRef(r, order') == RenameRef(PlaceRef(r, order), phi)
    ensures PlaceRef(r, order).Node? ==> PlaceRef(r, order).id in phi
  {
    assert [r][0] == r;
  }

  lemma PlacedInside(o: Obj, order: seq<nat>, phi: map<nat, nat>)
    requires IdsBelow(o.refs, |order|) && forall i :: 0 <= i < |order| ==> order[i] in phi
    ensures forall j :: 0 <= j < |PlaceObj(o, order).refs| && PlaceObj(o, order).refs[j].Node? ==>
              PlaceObj(o, order).refs[j].id in phi
  {
  }

  lemma PlacedAlike(o: Obj, order: seq<nat>, order': seq<nat>, phi: map<nat, nat>)
    requires IdsBelow(o.refs, |order|) && |order| == |order'|
    requires forall i :: 0 <= i < |order| ==> order[i] in phi && phi[order[i]] == order'[i]
    ensures PlaceObj(o, order') == RenameObj(PlaceObj(o, order), phi)
  {
    var left, right := PlaceObj(o, order').refs, RenameObj(PlaceObj(o, order), phi).refs;
    forall k | 0 <= k < |o.refs| ensures left[k] == right[k] {
      assert left[k] == PlaceRef(o.refs[k], order');
    }
    assert left == right;
  }

  /**
   * From heap to heap: a value exported from `h` and materialized elsewhere is isomorphic to the
   * original, cycles, aliases, pair order, flags, defaults and scalar bits included.
   */
  lemma ImportedIsIsomorphic(
    sha: Digest, h: Heap, root: Ref, lim: Limits, schema: Option<Schema>, accepted: Option<Schema>,
    h': Heap, root': Ref, g: Graph, order': seq<nat>)
    returns (phi: map<nat, nat>)
    requires IsDigest(sha) && HeapValid(h) && Pointed(h, root) && SchemaFits(schema) && lim.encodedBytes < U64
    requires SchemaAccepted(accepted, schema) && ExportCapsule(sha, h, root, lim, schema).Ok?
    requires ParseCapsule(sha, ExportCapsule(sha, h, root, lim, schema).value, lim, accepted) == Ok((g, schema))
    requires HeapValid(h') && Holds(h', root', g, order')
    ensures SameShape(h, root, h', root', phi)
  {
    hide ExportCapsule, ParseCapsule, HeapValid, Holds, SchemaFits, SchemaAccepted, CapsuleBytes, Acceptable, SameShape,
      Pairing;
    var s := ExportCapsule(sha, h, root, lim, schema).value;
    var exported, order := ExportThenParse(sha, h, root, lim, schema);
    ParseExactly(sha, s, lim, schema, exported, schema);
    ParseExactly(sha, s, lim, accepted, exported, schema);
    SameLength(h, root, exported, order);
    SameLength(h', root', g, order');
    HoldersAreIsomorphic(h, root, h', root', g, order, order');
    phi := Pairing(order, order');
  }

  lemma SameLength(h: Heap, root: Ref, g: Graph, order: seq<nat>)
    requires HeapValid(h) && Holds(h, root, g, order)
    ensures |order| == |g.objs|
  {
  }

  /** The value is the parsed graph in memory, rooted on the arena, and exports to the capsule it came from. */
  ghost predicate Arrives(
    sha: Digest, s: Bytes, lim: Limits, schema: Option<Schema>, g: Graph, m: Memory, value: Value, shells: seq<nat>)
  {
    && HeapValid(View(m)) && Pointed(View(m), ViewValue(m, value)) && SchemaFits(schema)
    && Holds(View(m), ViewValue(m, value), g, shells)
    && ExportCapsule(sha, View(m), ViewValue(m, value), lim, schema) == Ok(s)
  }

  /**
   * importValue, inside its admission bracket: parse, refuse under a sticky memory cap, materialize.
   * `capHit` and `capHitLater` are the cell's memory flags before and after the construction.
   */
  method Import(vm: Vm, sha: Digest, s: Bytes, lim: Limits, accepted: Option<Schema>, capHit: bool, capHitLater: bool)
    returns (result: Result<Value>, ghost g: Graph, ghost shells: seq<nat>)
    requires vm.Valid() && IsDigest(sha) && lim.encodedBytes < U64
    modifies vm
    ensures vm.Valid()
    // Succeed or fail, everything reachable before is still there and as it was.
    ensures forall a :: a in old(vm.memory) && Held(old(vm.memory), old(vm.arena), vm.globals, a) ==>
              a in vm.memory && vm.memory[a] == old(vm.memory)[a]
    // A capsule that does not parse, and any capsule under a sticky cap, is refused before the interpreter is touched.
    ensures var parsed := ParseCapsule(sha, s, lim, accepted);
            if parsed.Err? || capHit then
              && result == Err(if parsed.Err? then parsed.error else MemoryLimitExceeded)
              && vm.memory == old(vm.memory) && vm.arena == old(vm.arena)
            else
              && g == parsed.value.0
              && match result
                 case Ok(value) =>
                   && Arrives(sha, s, lim, parsed.value.1, g, vm.memory, value, shells)
                   && vm.arena == (if value.VPtr? then old(vm.arena) + [value] else old(vm.arena))
                 case Err(e) =>
                   // Only the interpreter raising can fail it: the parsed graph itself is never invalid.
                   && vm.failures > old(vm.failures) && vm.arena == old(vm.arena)
                   && e == (if vm.environment.foreign(vm.failures) then ArtifactConstructionFailed
                            else if capHitLater then MemoryLimitExceeded else Error.OutOfMemory)
  {
    hide ParseCapsule, ExportCapsule, GraphValid, Normal, Built, WellFormed, HeapValid, View, Holds, SchemaFits,
      Acceptable, SchemaAccepted, CapsuleBytes, AllRefsFit, RefFits, KeysDistinct, Rooted, Held, Anchored;
    shells := [];
    vm.Pin();
    var parsed;
    parsed, g := Parse(sha, s, lim, accepted);
    if parsed.Err? {
      return Err(parsed.error), g, shells;
    }
    ParsedIsBuildable(sha, s, lim, accepted, g, parsed.value.1);
    if capHit {
      return Err(MemoryLimitExceeded), g, shells;
    }
    var outcome;
    outcome, shells := Materialize(vm, parsed.value.0);
    match outcome {
      case Materialized(value, _) =>
        MemorySound(vm, value);
        MaterializedExportsSame(sha, s, lim, accepted, g, parsed.value.1, vm.memory, value, shells);
        result := Ok(value);
      case OutOfMemory => result := Err(if capHitLater then MemoryLimitExceeded else Error.OutOfMemory);
      case _ => result := Err(ArtifactConstructionFailed);
    }
  }

  lemma ParsedIsBuildable(
    sha: Digest, s: Bytes, lim: Limits, accepted: Option<Schema>, g: Graph, schema: Option<Schema>)
    requires IsDigest(sha) && ParseCapsule(sha, s, lim, accepted) == Ok((g, schema))
    ensures AllRefsFit(g.objs) && RefFits(g.root) && GraphValid(Normal(g)) && KeysDistinct(Normal(g))
  {
    hide ParseCapsule, GraphValid, Normal, CapsuleBytes, KeysDistinct, CheckNodes, EncodePayload, KeysUnambiguous,
      Numbered, WithinQuotas;
    ParseExactly(sha, s, lim, accepted, g, schema);
    AcceptableIsWellFormed(g, lim);
    NormalIsValid(g);
    HashCheckMeaning(g);
    ParsedKeysDistinct(g);
  }

  lemma MemorySound(vm: Vm, v: Value)
    requires vm.Valid() && (v.VPtr? ==> v in vm.arena)
    ensures Sound(vm.memory) && (v.VPtr? ==> v.address in vm.memory)
  {
    if v.VPtr? {
      var k :| 0 <= k < |vm.arena| && vm.arena[k] == v;
    }
  }
}
