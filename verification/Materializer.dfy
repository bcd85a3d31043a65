/**
 * mrz_artifact_materialize (shim.c:1900-2136): allocate every shell, then tie the edges, with the
 * collector free to run inside every interpreter call and any allocation free to fail.
 */
module Materializer {
  import opened Admission
  import opened HashKeys
  import opened Interpreter
  import opened NormalGraph
  import opened Results
  import opened Shells
  import opened Wire

  /** How an interpreter-facing step ends: a value, a raised NoMemoryError, or `context->invalid`. */
  datatype Step<+T> = Done(value: T) | Raised | BadGraph {
    predicate IsFailure() {
      !Done?
    }

    function PropagateFailure<U>(): Step<U>
      requires !Done?
    {
      if Raised? then Raised else BadGraph
    }

    function Extract(): T
      requires Done?
    {
      value
    }
  }

  function Max(a: nat, b: nat): nat {
    if a >= b then a else b
  }

  /** The caller's roots are still at the bottom of the arena. */
  predicate Above(arena: seq<Value>, base: seq<Value>) {
    |base| <= |arena| && arena[..|base|] == base
  }

  /** The temporaries of a step lie above the caller's roots and the root table. */
  ghost predicate Ready(vm: Vm, base: seq<Value>, roots: nat, shells: seq<nat>, peak: nat)
    reads vm
  {
    && vm.Valid() && vm.arena == base + [VPtr(roots)]
    && Owned(vm.memory, vm.arena, roots, shells)
    && vm.arenaPeak <= peak && |base| + 3 <= peak
    && vm.pinDepth <= |base| && Unpinned(vm, roots, shells)
  }

  /** Nothing the materializer writes to existed before it began. */
  ghost predicate Unpinned(vm: Vm, roots: nat, shells: seq<nat>)
    reads vm`pinned
  {
    roots !in vm.pinned && forall i :: 0 <= i < |shells| ==> shells[i] !in vm.pinned
  }

  /** mrz_artifact_trim_arena. */
  method TrimArena(vm: Vm, saved: nat, roots: nat, ghost base: seq<Value>, ghost shells: seq<nat>, ghost peak: nat)
    returns (result: Step<()>)
    requires vm.Valid() && saved == |base| && |vm.arena| > |base| && vm.arena[..|base| + 1] == base + [VPtr(roots)]
    requires Owned(vm.memory, vm.arena, roots, shells) && vm.arenaPeak <= peak && |base| + 3 <= peak
    requires vm.pinDepth <= |base| && Unpinned(vm, roots, shells)
    modifies vm`arena, vm`arenaPeak, vm`clock, vm`failures
    ensures vm.failures >= old(vm.failures) && (result.Raised? ==> vm.failures > old(vm.failures)) && !result.BadGraph?
    ensures result.Done? ==> Ready(vm, base, roots, shells, peak)
    ensures vm.Valid() && vm.arenaPeak <= peak && Above(vm.arena, base)
  {
    assert vm.arena[..saved] == base;
    assert VPtr(roots) == vm.arena[..|base| + 1][|base|] == vm.arena[|base|];
    vm.ArenaRestore(saved);
    var ok := vm.Protect(VPtr(roots));
    if !ok {
      return Raised;
    }
    assert vm.arena[|base|] == VPtr(roots);
    result := Done(());
  }

  /** mrz_artifact_decode_ref, for everything but a node. */
  method DecodeScalar(vm: Vm, r: CRef) returns (result: Step<Value>)
    requires vm.Valid() && r.tag != 6
    modifies vm`memory, vm`clock, vm`arena, vm`arenaPeak, vm`failures
    ensures vm.failures >= old(vm.failures) && (result.Raised? ==> vm.failures > old(vm.failures))
    ensures vm.Valid()
    ensures Collected(old(vm.memory), vm.memory, old(vm.arena), vm.globals)
            || (result.Done? && result.value.VPtr?
                && CollectedThenAdded(old(vm.memory), vm.memory, old(vm.arena), vm.globals, result.value.address))
    ensures result.BadGraph? <==> r.tag > 6
    ensures result.Done? ==>
              && ValuesFit([result.value]) && Matches(vm.memory, [], result.value, r)
              && vm.arena == (if result.value.VPtr? then old(vm.arena) + [result.value] else old(vm.arena))
    ensures !result.Done? ==> vm.arena == old(vm.arena)
    ensures vm.arenaPeak <= Max(old(vm.arenaPeak), |old(vm.arena)| + 1)
  {
    hide Anchored, Spared, Rooted, CollectedThenAdded, Collected;
    KeepAll(vm);
    match r.tag {
      case 0 => result := Done(VNil);
      case 1 => result := Done(VFalse);
      case 2 => result := Done(VTrue);
      case 3 =>
        if vm.environment.boxed(vm.clock) {
          var box := vm.Allocate(BoxedInt(FromU64(r.payload)));
          result := if box.Some? then Done(VPtr(box.value)) else Raised;
        } else {
          result := Done(VInt(FromU64(r.payload)));
        }
      case 4 =>
        var box := vm.Allocate(BoxedFloat(r.payload));
        result := if box.Some? then Done(VPtr(box.value)) else Raised;
      case 5 =>
        var ok := vm.Grow();
        result := if ok then Done(VSymbol(r.target)) else Raised;
      case _ => result := BadGraph;
    }
  }

  lemma ScalarMatchesAnywhere(m: Memory, shells: seq<nat>, v: Value, r: CRef)
    requires r.tag != 6 && Matches(m, [], v, r)
    ensures Matches(m, shells, v, r)
  {
  }

  /** mrz_artifact_decode_ref, with the root table in place. */
  method DecodeRef(vm: Vm, roots: nat, r: CRef, ghost shells: seq<nat>) returns (result: Step<Value>)
    requires vm.Valid() && Owned(vm.memory, vm.arena, roots, shells)
    modifies vm`memory, vm`clock, vm`arena, vm`arenaPeak, vm`failures
    ensures vm.failures >= old(vm.failures) && (result.Raised? ==> vm.failures > old(vm.failures))
    ensures vm.Valid() && Owned(vm.memory, vm.arena, roots, shells)
    ensures Kept(old(vm.memory), vm.memory, old(vm.arena), shells, None)
    ensures result.BadGraph? <==> r.tag > 6
    ensures result.Done? ==> ValuesFit([result.value]) && Safe(vm.arena, shells, result.value)
    ensures result.Done? && (r.tag == 6 ==> r.payload < |shells|) ==> Matches(vm.memory, shells, result.value, r)
    ensures vm.arena == old(vm.arena) || (result.Done? && vm.arena == old(vm.arena) + [result.value])
    ensures vm.arenaPeak <= Max(old(vm.arenaPeak), |old(vm.arena)| + 1)
  {
    hide Anchored, Spared, Rooted, CollectedThenAdded, Collected;
    ghost var before, arena := vm.memory, vm.arena;
    if r.tag == 6 {
      var elems := vm.memory[roots].elems;
      KeepAll(vm);
      CollectedKeeps(before, vm.memory, arena, vm.globals, roots, shells);
      result := Done(if r.payload < |elems| then elems[r.payload] else VNil);
    } else {
      result := DecodeScalar(vm, r);
      if Collected(before, vm.memory, arena, vm.globals) {
        CollectedKeeps(before, vm.memory, arena, vm.globals, roots, shells);
      } else {
        AddedKeeps(before, vm.memory, arena, vm.globals, roots, shells, result.value.address);
      }
      if result.Done? {
        ScalarMatchesAnywhere(vm.memory, shells, result.value, r);
      }
    }
  }

  /** Running no collection is one of the collector's choices. */
  lemma KeepAll(vm: Vm)
    requires vm.Valid()
    ensures Collected(vm.memory, vm.memory, vm.arena, vm.globals)
  {
  }

  // ---- the first pass: shells ----------------------------------------------------------------

  ghost predicate BlankAt(m: Memory, shells: seq<nat>, c: CGraph, j: nat)
    requires j < |shells| && j < |c.nodes|
  {
    shells[j] in m && ShellShape(c.nodes[j], m[shells[j]], 0, false) && Contents(m[shells[j]]) == []
  }

  /** Every shell so far is in place and empty. */
  ghost predicate Blank(m: Memory, shells: seq<nat>, c: CGraph) {
    |shells| <= |c.nodes| && forall j :: 0 <= j < |shells| ==> BlankAt(m, shells, c, j)
  }

  lemma BlankKept(before: Memory, after: Memory, arena: seq<Value>, shells: seq<nat>, c: CGraph)
    requires Blank(before, shells, c) && Kept(before, after, arena, shells, None)
    ensures Blank(after, shells, c)
  {
    hide ShellShape;
    forall j | 0 <= j < |shells| ensures BlankAt(after, shells, c, j) {
      assert BlankAt(before, shells, c, j) && CellKept(before, after, shells[j]);
    }
  }

  /** Pushing a fresh shell onto the root table hands its ownership to the table. */
  lemma ShellPushed(
    before: Memory, after: Memory, arena: seq<Value>, globals: set<nat>, roots: nat, shells: seq<nat>, s: nat,
    c: CGraph)
    requires Owned(before, arena, roots, shells) && VPtr(s) in arena && s in before && s != roots && s !in shells
    requires CollectedThenSet(before, after, arena, globals, roots, ArrayCell(Pointers(shells) + [VPtr(s)], false))
    requires Blank(before, shells, c) && |shells| < |c.nodes|
    requires ShellShape(c.nodes[|shells|], before[s], 0, false) && Contents(before[s]) == []
    ensures Owned(after, arena, roots, shells + [s]) && Blank(after, shells + [s], c)
  {
    hide ShellShape;
    var cell := ArrayCell(Pointers(shells) + [VPtr(s)], false);
    var middle :| Collected(before, middle, arena, globals) && roots in middle && after == middle[roots := cell];
    CollectedKeeps(before, middle, arena, globals, roots, shells);
    assert Pointers(shells) + [VPtr(s)] == Pointers(shells + [s]);
    var k :| 0 <= k < |arena| && arena[k] == VPtr(s);
    forall j | 0 <= j < |shells| + 1 ensures BlankAt(after, shells + [s], c, j) {
      if j < |shells| {
        assert BlankAt(before, shells, c, j) && CellKept(before, middle, shells[j]);
        assert shells[j] != roots;
      }
    }
  }

  /** The empty object of a node's kind; strings already carry their bytes. */
  function ShellCell(n: CNode): (cell: Cell)
    ensures CellValid(cell) && Contents(cell) == []
  {
    if n.kind == 1 then StringCell(n.bytes, false)
    else if n.kind == 2 then ArrayCell([], false)
    else HashCell([], None, false)
  }

  /** A fresh shell on the arena, a string already frozen if its node is. */
  method NewShell(vm: Vm, c: CGraph, i: nat, ghost roots: nat, ghost shells: seq<nat>) returns (shell: Option<nat>)
    requires GraphValid(c) && i == |shells| < |c.nodes|
    requires vm.Valid() && Owned(vm.memory, vm.arena, roots, shells) && Blank(vm.memory, shells, c)
    modifies vm`memory, vm`clock, vm`arena, vm`arenaPeak, vm`failures
    ensures vm.Valid() && vm.failures == old(vm.failures) + if shell.None? then 1 else 0
    ensures vm.arenaPeak <= Max(old(vm.arenaPeak), |old(vm.arena)| + 1)
    ensures vm.arena == old(vm.arena) + (if shell.Some? then [VPtr(shell.value)] else [])
    ensures shell.Some? ==>
              && Owned(vm.memory, vm.arena, roots, shells) && Blank(vm.memory, shells, c)
              && shell.value != roots && shell.value !in shells && shell.value !in vm.pinned && shell.value in vm.memory
              && ShellShape(c.nodes[i], vm.memory[shell.value], 0, false) && Contents(vm.memory[shell.value]) == []
  {
    hide Anchored, Spared, Rooted, Collected, CollectedThenAdded, Kept, GraphValid, Blank;
    var n := c.nodes[i];
    ghost var m0, a0 := vm.memory, vm.arena;
    shell := vm.Allocate(ShellCell(n));
    if shell.None? {
      return;
    }
    AddedKeeps(m0, vm.memory, a0, vm.globals, roots, shells, shell.value);
    BlankKept(m0, vm.memory, a0, shells, c);
    if n.kind == 1 && Frozen(n) {
      ghost var m1 := vm.memory;
      vm.Freeze(shell.value);
      FreezeKeeps(m1, vm.memory, vm.arena, roots, shells, shell.value, c);
    }
    NodeKinds(c, i);
  }

  /** One iteration of the shell loop. */
  method AllocateShell(
    vm: Vm, c: CGraph, i: nat, saved: nat, roots: nat, ghost base: seq<Value>, ghost shells: seq<nat>, ghost peak: nat)
    returns (result: Step<()>, ghost s: nat)
    requires GraphValid(c) && i == |shells| < |c.nodes| && saved == |base|
    requires Ready(vm, base, roots, shells, peak) && Blank(vm.memory, shells, c)
    modifies vm`memory, vm`clock, vm`arena, vm`arenaPeak, vm`failures
    ensures vm.failures >= old(vm.failures) && (result.Raised? ==> vm.failures > old(vm.failures))
    ensures vm.Valid() && vm.arenaPeak <= peak && !result.BadGraph?
    ensures Above(vm.arena, base)
    ensures result.Done? ==> Ready(vm, base, roots, shells + [s], peak) && Blank(vm.memory, shells + [s], c)
  {
    hide Anchored, Spared, Rooted, Collected, CollectedThenSet, GraphValid, Blank, ShellShape;
    s := 0;
    ghost var a0 := vm.arena;
    var shell := NewShell(vm, c, i, roots, shells);
    if shell.None? {
      return Raised, s;
    }
    s := shell.value;
    assert VPtr(s) == vm.arena[|a0|];
    ghost var m := vm.memory;
    SafeHeld(m, vm.arena, vm.globals, roots, shells, VPtr(s));
    InArenaHeld(m, vm.arena, vm.globals, VPtr(roots));
    var ok := vm.AryPush(roots, VPtr(shell.value));
    if !ok {
      return Raised, s;
    }
    ShellPushed(m, vm.memory, vm.arena, vm.globals, roots, shells, s, c);
    result := TrimArena(vm, saved, roots, base, shells + [s], peak);
  }

  lemma NodeKinds(c: CGraph, i: nat)
    requires GraphValid(c) && i < |c.nodes|
    ensures 1 <= c.nodes[i].kind <= 3
    ensures c.nodes[i].kind == 1 ==> c.nodes[i].edgeCount == 0
    ensures c.nodes[i].kind == 3 ==> PairCount(c.nodes[i]) + DefaultCount(c.nodes[i]) == c.nodes[i].edgeCount
    ensures c.nodes[i].kind == 3 ==> PairCount(c.nodes[i]) % 2 == 0
  {
    assert NodeValid(c, c.nodes[i]);
  }

  lemma FreezeKeeps(before: Memory, after: Memory, arena: seq<Value>, roots: nat, shells: seq<nat>, s: nat, c: CGraph)
    requires Owned(before, arena, roots, shells) && Blank(before, shells, c) && s != roots && s !in shells
    requires s in before && s in after && after == before[s := after[s]]
    ensures Owned(after, arena, roots, shells) && Blank(after, shells, c)
  {
    hide ShellShape;
    forall j | 0 <= j < |shells| ensures BlankAt(after, shells, c, j) {
      assert BlankAt(before, shells, c, j);
    }
  }

  // ---- the second pass: edges ----------------------------------------------------------------

  /** The materializer is at edge `k` of node `i`. */
  ghost predicate Working(
    vm: Vm, base: seq<Value>, roots: nat, shells: seq<nat>, peak: nat, c: CGraph, i: nat, k: nat)
    requires GraphValid(c)
    reads vm
  {
    Ready(vm, base, roots, shells, peak) && |shells| == |c.nodes| && Filling(vm.memory, shells, c, i, k)
  }

  lemma EdgeValid(c: CGraph, i: nat, k: nat)
    requires GraphValid(c) && i < |c.nodes| && k < c.nodes[i].edgeCount
    ensures EdgesOf(c, i)[k] == c.edges[c.nodes[i].edgeOffset + k] && RefValid(c, EdgesOf(c, i)[k])
    ensures c.nodes[i].kind == 3 && k < PairCount(c.nodes[i]) && k % 2 == 0 ==> KeyValid(c, EdgesOf(c, i)[k])
  {
    assert NodeValid(c, c.nodes[i]) && NodeKeysValid(c, c.nodes[i]);
  }

  lemma CurrentShell(m: Memory, shells: seq<nat>, c: CGraph, i: nat, k: nat)
    requires GraphValid(c) && i < |c.nodes| == |shells| && Filling(m, shells, c, i, k)
    ensures shells[i] in m && ShellShape(c.nodes[i], m[shells[i]], k, false) && |Contents(m[shells[i]])| == k
    ensures k <= c.nodes[i].edgeCount
  {
    assert FillingAt(m, shells, c, i, k, i);
  }

  /** Resolve one edge with everything kept. */
  method ResolveEdge(
    vm: Vm, c: CGraph, i: nat, k: nat, e: nat, roots: nat, ghost base: seq<Value>, ghost shells: seq<nat>,
    ghost peak: nat)
    returns (result: Step<Value>)
    requires GraphValid(c) && |shells| == |c.nodes| && i < |c.nodes| && e < c.nodes[i].edgeCount
    requires vm.Valid() && Owned(vm.memory, vm.arena, roots, shells) && Filling(vm.memory, shells, c, i, k)
    requires |base| + 3 <= peak && vm.arenaPeak <= peak && |base| + 1 <= |vm.arena| <= |base| + 2
    modifies vm`memory, vm`clock, vm`arena, vm`arenaPeak, vm`failures
    ensures vm.failures >= old(vm.failures) && (result.Raised? ==> vm.failures > old(vm.failures))
    ensures vm.Valid() && Owned(vm.memory, vm.arena, roots, shells) && vm.arenaPeak <= peak && !result.BadGraph?
    ensures vm.arena == old(vm.arena) || (result.Done? && vm.arena == old(vm.arena) + [result.value])
    ensures Kept(old(vm.memory), vm.memory, old(vm.arena), shells, None) && Filling(vm.memory, shells, c, i, k)
    ensures result.Done? ==> ValuesFit([result.value]) && Safe(vm.arena, shells, result.value)
    ensures result.Done? ==> Matches(vm.memory, shells, result.value, EdgesOf(c, i)[e])
  {
    hide Filling, Kept, Matches, Safe, Anchored, Spared, Rooted, GraphValid, RefValid;
    EdgeValid(c, i, e);
    RefInRange(c, EdgesOf(c, i)[e]);
    ghost var m, a := vm.memory, vm.arena;
    result := DecodeRef(vm, roots, EdgesOf(c, i)[e], shells);
    FillingKept(m, vm.memory, a, shells, c, i, k);
  }

  lemma RefInRange(c: CGraph, r: CRef)
    requires RefValid(c, r)
    ensures r.tag <= 6 && (r.tag == 6 ==> r.payload < |c.nodes|)
  {
  }

  /** The array loop's body. */
  method PushEdge(
    vm: Vm, c: CGraph, i: nat, k: nat, a: nat, saved: nat, roots: nat,
    ghost base: seq<Value>, ghost shells: seq<nat>, ghost peak: nat)
    returns (result: Step<()>)
    requires GraphValid(c) && i < |c.nodes| && c.nodes[i].kind == 2 && k < c.nodes[i].edgeCount && saved == |base|
    requires Working(vm, base, roots, shells, peak, c, i, k) && a == shells[i]
    modifies vm`memory, vm`clock, vm`arena, vm`arenaPeak, vm`failures
    ensures vm.failures >= old(vm.failures) && (result.Raised? ==> vm.failures > old(vm.failures))
    ensures vm.Valid() && vm.arenaPeak <= peak && !result.BadGraph? && Above(vm.arena, base)
    ensures result.Done? ==> Working(vm, base, roots, shells, peak, c, i, k + 1)
  {
    hide Filling, Kept, Matches, Anchored, Spared, Rooted, GraphValid, Collected, CollectedThenSet, EdgesOf, RefValid;
    assert vm.arena == base + [VPtr(roots)];
    var child :- ResolveEdge(vm, c, i, k, k, roots, base, shells, peak);
    CurrentShell(vm.memory, shells, c, i, k);
    ghost var m := vm.memory;
    ShellHeld(m, vm.arena, vm.globals, roots, shells, i);
    SafeHeld(m, vm.arena, vm.globals, roots, shells, child);
    var ok := vm.AryPush(a, child);
    if !ok {
      return Raised;
    }
    FillingAdvances(m, vm.memory, vm.arena, vm.globals, roots, shells, c, i, k,
                    ArrayCell(m[a].elems + [child], false), [child]);
    result := TrimArena(vm, saved, roots, base, shells, peak);
  }

  // ---- hash keys -----------------------------------------------------------------------------

  /** The key edge of pair `p`. */
  function KeyEdge(c: CGraph, i: nat, p: nat): CRef
    requires GraphValid(c) && i < |c.nodes| && 2 * p < c.nodes[i].edgeCount
  {
    EdgesOf(c, i)[2 * p]
  }

  predicate KeysClash(c: CGraph, x: CRef, y: CRef) {
    var a, b := ParsedHashKey(c, x), ParsedHashKey(c, y);
    a.Some? && b.Some? && KeyEq(a.value, b.value)
  }

  /** The first `n` keys of hash `i` are pairwise unequal. */
  ghost predicate FirstKeysDistinct(c: CGraph, i: nat, n: nat)
    requires GraphValid(c) && i < |c.nodes|
  {
    forall p, q :: 0 <= p < q < n && 2 * q < PairCount(c.nodes[i]) ==> !KeysClash(c, KeyEdge(c, i, p), KeyEdge(c, i, q))
  }

  /** The keys of hash `i` are pairwise unequal. */
  ghost predicate KeysDistinctAt(c: CGraph, i: nat)
    requires GraphValid(c) && i < |c.nodes|
  {
    c.nodes[i].kind == 3 ==> FirstKeysDistinct(c, i, PairCount(c.nodes[i]))
  }

  ghost predicate KeysDistinct(c: CGraph)
    requires GraphValid(c)
  {
    forall i :: 0 <= i < |c.nodes| ==> KeysDistinctAt(c, i)
  }

  /** A decoded key is the key the parser compared. */
  lemma DecodedKey(m: Memory, shells: seq<nat>, c: CGraph, i: nat, k: nat, v: Value, r: CRef)
    requires GraphValid(c) && |shells| == |c.nodes| && Filling(m, shells, c, i, k)
    requires RefValid(c, r) && KeyValid(c, r) && Matches(m, shells, v, r)
    ensures ParsedHashKey(c, r).Some? && KeyOf(m, v) == ParsedHashKey(c, r)
  {
    hide GraphValid;
    if r.tag == 6 {
      assert FillingAt(m, shells, c, i, k, r.payload);
    }
  }

  /** An equal key already in the shell means the graph has two equal keys. */
  lemma ClashFound(m: Memory, shells: seq<nat>, c: CGraph, i: nat, k: nat, key: Value, p: nat)
    requires GraphValid(c) && i < |c.nodes| == |shells| && c.nodes[i].kind == 3
    requires Filling(m, shells, c, i, k) && k % 2 == 0 && k < PairCount(c.nodes[i])
    requires Matches(m, shells, key, EdgesOf(c, i)[k])
    requires shells[i] in m && m[shells[i]].HashCell? && 2 * p < k == |m[shells[i]].pairs|
    requires SameKey(m, m[shells[i]].pairs[2 * p], key)
    ensures !KeysDistinctAt(c, i)
  {
    hide GraphValid, Matches, KeyEq, KeyOf, ParsedHashKey, RefValid, KeyValid, EdgesOf;
    assert FillingAt(m, shells, c, i, k, i);
    EdgeValid(c, i, k);
    EdgeValid(c, i, 2 * p);
    var first := m[shells[i]].pairs[2 * p];
    assert Contents(m[shells[i]])[2 * p] == first;
    DecodedKey(m, shells, c, i, k, key, EdgesOf(c, i)[k]);
    DecodedKey(m, shells, c, i, k, first, EdgesOf(c, i)[2 * p]);
    assert KeysClash(c, KeyEdge(c, i, p), KeyEdge(c, i, k / 2));
  }

  /** No equal key in the shell means the next key is new to the graph's node too. */
  lemma KeyIsNew(m: Memory, shells: seq<nat>, c: CGraph, i: nat, k: nat, key: Value)
    requires GraphValid(c) && i < |c.nodes| == |shells| && c.nodes[i].kind == 3
    requires Filling(m, shells, c, i, k) && k % 2 == 0 && k < PairCount(c.nodes[i])
    requires Matches(m, shells, key, EdgesOf(c, i)[k])
    requires shells[i] in m && m[shells[i]].HashCell? && k == |m[shells[i]].pairs|
    requires FindPair(m, m[shells[i]].pairs, key, 0).None?
    requires FirstKeysDistinct(c, i, k / 2)
    ensures FirstKeysDistinct(c, i, k / 2 + 1)
  {
    hide GraphValid, Matches, KeyEq, KeyOf, ParsedHashKey, RefValid, KeyValid, EdgesOf;
    var last := k / 2;
    forall p | 0 <= p < last ensures !KeysClash(c, KeyEdge(c, i, p), KeyEdge(c, i, last)) {
      assert FillingAt(m, shells, c, i, k, i);
      EdgeValid(c, i, k);
      EdgeValid(c, i, 2 * p);
      var earlier := m[shells[i]].pairs[2 * p];
      assert Contents(m[shells[i]])[2 * p] == earlier;
      DecodedKey(m, shells, c, i, k, key, EdgesOf(c, i)[k]);
      DecodedKey(m, shells, c, i, k, earlier, EdgesOf(c, i)[2 * p]);
      assert !SameKey(m, earlier, key);
    }
  }

  /** mrb_hash_set of one decoded pair, and the guard that the hash really grew. */
  method InsertPair(
    vm: Vm, c: CGraph, i: nat, k: nat, a: nat, key: Value, child: Value, ghost roots: nat, ghost shells: seq<nat>)
    returns (result: Step<()>)
    requires GraphValid(c) && i < |c.nodes| == |shells| && c.nodes[i].kind == 3
    requires k % 2 == 0 && k + 1 < PairCount(c.nodes[i]) && a == shells[i] && a !in vm.pinned
    requires vm.Valid() && Owned(vm.memory, vm.arena, roots, shells) && Filling(vm.memory, shells, c, i, k)
    requires Safe(vm.arena, shells, key) && Matches(vm.memory, shells, key, EdgesOf(c, i)[k]) && ValuesFit([key])
    requires Safe(vm.arena, shells, child) && Matches(vm.memory, shells, child, EdgesOf(c, i)[k + 1])
             && ValuesFit([child])
    modifies vm`memory, vm`clock, vm`failures
    ensures vm.Valid() && vm.failures >= old(vm.failures) && (result.Raised? ==> vm.failures > old(vm.failures))
    ensures result.BadGraph? ==> !KeysDistinctAt(c, i)
    ensures result.Done? ==> Owned(vm.memory, vm.arena, roots, shells) && Filling(vm.memory, shells, c, i, k + 2)
    ensures result.Done? && FirstKeysDistinct(c, i, k / 2) ==> FirstKeysDistinct(c, i, k / 2 + 1)
  {
    hide Filling, Kept, Matches, Anchored, Spared, Rooted, GraphValid, Collected, CollectedThenSet, EdgesOf, RefValid,
      KeyOf, KeyEq, FindPair, Safe, FirstKeysDistinct, Owned;
    NodeKinds(c, i);
    CurrentShell(vm.memory, shells, c, i, k);
    ghost var m := vm.memory;
    SafeHeld(m, vm.arena, vm.globals, roots, shells, key);
    SafeHeld(m, vm.arena, vm.globals, roots, shells, child);
    ShellHeld(m, vm.arena, vm.globals, roots, shells, i);
    var before := |vm.memory[a].pairs| / 2;
    var ok := vm.HashSet(a, key, child);
    if !ok {
      return Raised;
    }
    ghost var pairs := m[a].pairs;
    assert a in vm.memory && vm.memory[a].HashCell? && vm.memory[a].pairs == Stored(m, pairs, key, child) by {
      SetResult(m, vm.memory, vm.arena, vm.globals, a, HashCell(Stored(m, pairs, key, child), m[a].default, false));
    }
    if |vm.memory[a].pairs| / 2 != before + 1 {
      StoredInPlace(m, pairs, key, child);
      var p := FindPair(m, pairs, key, 0).value;
      ClashFound(m, shells, c, i, k, key, p);
      return BadGraph;
    }
    StoredAtEnd(m, pairs, key, child);
    if FirstKeysDistinct(c, i, k / 2) {
      KeyIsNew(m, shells, c, i, k, key);
    }
    PairStored(m, vm.memory, vm.arena, vm.globals, roots, shells, c, i, k, key, child);
    result := Done(());
  }

  /** The hash loop's body: resolve a key and its value, with the key safe meanwhile, and store them. */
  method StorePair(
    vm: Vm, c: CGraph, i: nat, k: nat, a: nat, saved: nat, roots: nat,
    ghost base: seq<Value>, ghost shells: seq<nat>, ghost peak: nat)
    returns (result: Step<()>)
    requires GraphValid(c) && i < |c.nodes| && c.nodes[i].kind == 3 && saved == |base|
    requires k % 2 == 0 && k + 1 < PairCount(c.nodes[i])
    requires Working(vm, base, roots, shells, peak, c, i, k) && a == shells[i]
    modifies vm`memory, vm`clock, vm`arena, vm`arenaPeak, vm`failures
    ensures vm.failures >= old(vm.failures) && (result.Raised? ==> vm.failures > old(vm.failures))
    ensures vm.Valid() && vm.arenaPeak <= peak && Above(vm.arena, base)
    ensures result.BadGraph? ==> !KeysDistinctAt(c, i)
    ensures result.Done? ==> Working(vm, base, roots, shells, peak, c, i, k + 2)
    ensures result.Done? && FirstKeysDistinct(c, i, k / 2) ==> FirstKeysDistinct(c, i, k / 2 + 1)
  {
    hide Filling, Kept, Matches, Anchored, Spared, Rooted, GraphValid, EdgesOf, RefValid, Safe, FirstKeysDistinct,
      Owned;
    NodeKinds(c, i);
    var key :- ResolveEdge(vm, c, i, k, k, roots, base, shells, peak);
    ghost var m1, a1 := vm.memory, vm.arena;
    var child :- ResolveEdge(vm, c, i, k, k + 1, roots, base, shells, peak);
    SafeMatchesKept(m1, vm.memory, a1, shells, None, key, EdgesOf(c, i)[k]);
    ArenaOnlyGrew(a1, vm.arena, shells, key, child);
    result := InsertPair(vm, c, i, k, a, key, child, roots, shells);
    if result.Done? {
      result := TrimArena(vm, saved, roots, base, shells, peak);
    }
  }

  lemma ArenaOnlyGrew(before: seq<Value>, after: seq<Value>, shells: seq<nat>, key: Value, child: Value)
    requires after == before || after == before + [child]
    requires Safe(before, shells, key)
    ensures Safe(after, shells, key)
  {
  }

  lemma SetResult(before: Memory, after: Memory, arena: seq<Value>, globals: set<nat>, a: nat, cell: Cell)
    requires CollectedThenSet(before, after, arena, globals, a, cell)
    ensures a in after && after[a] == cell
  {
  }

  lemma StoredInPlace(m: Memory, pairs: seq<Value>, key: Value, child: Value)
    requires |pairs| % 2 == 0 && |Stored(m, pairs, key, child)| / 2 != |pairs| / 2 + 1
    ensures FindPair(m, pairs, key, 0).Some?
  {
  }

  lemma StoredAtEnd(m: Memory, pairs: seq<Value>, key: Value, child: Value)
    requires |pairs| % 2 == 0 && |Stored(m, pairs, key, child)| / 2 == |pairs| / 2 + 1
    ensures Stored(m, pairs, key, child) == pairs + [key, child] && FindPair(m, pairs, key, 0).None?
  {
  }

  lemma PairStored(
    before: Memory, after: Memory, arena: seq<Value>, globals: set<nat>, roots: nat, shells: seq<nat>,
    c: CGraph, i: nat, k: nat, key: Value, child: Value)
    requires GraphValid(c) && i < |c.nodes| == |shells| && c.nodes[i].kind == 3 && k % 2 == 0
             && k + 1 < PairCount(c.nodes[i])
    requires Owned(before, arena, roots, shells) && Filling(before, shells, c, i, k) && shells[i] in before
    requires before[shells[i]].HashCell? && before[shells[i]].default.None?
    requires Safe(arena, shells, key) && Matches(before, shells, key, EdgesOf(c, i)[k])
    requires Safe(arena, shells, child) && Matches(before, shells, child, EdgesOf(c, i)[k + 1])
    requires CollectedThenSet(before, after, arena, globals, shells[i],
                              HashCell(before[shells[i]].pairs + [key, child], before[shells[i]].default, false))
    ensures Owned(after, arena, roots, shells) && Filling(after, shells, c, i, k + 2)
  {
    hide Filling, Matches, GraphValid, CollectedThenSet, EdgesOf, Safe, Owned;
    NodeKinds(c, i);
    CurrentShell(before, shells, c, i, k);
    var cell := HashCell(before[shells[i]].pairs + [key, child], before[shells[i]].default, false);
    FillingAdvances(before, after, arena, globals, roots, shells, c, i, k, cell, [key, child]);
  }

  /** The default of a hash, after its pairs. */
  method StoreDefault(
    vm: Vm, c: CGraph, i: nat, k: nat, a: nat, saved: nat, roots: nat,
    ghost base: seq<Value>, ghost shells: seq<nat>, ghost peak: nat)
    returns (result: Step<()>)
    requires GraphValid(c) && i < |c.nodes| && c.nodes[i].kind == 3 && saved == |base|
    requires k == PairCount(c.nodes[i]) && k + 1 == c.nodes[i].edgeCount
    requires Working(vm, base, roots, shells, peak, c, i, k) && a == shells[i]
    modifies vm`memory, vm`clock, vm`arena, vm`arenaPeak, vm`failures
    ensures vm.failures >= old(vm.failures) && (result.Raised? ==> vm.failures > old(vm.failures))
    ensures vm.Valid() && vm.arenaPeak <= peak && !result.BadGraph? && Above(vm.arena, base)
    ensures result.Done? ==> Working(vm, base, roots, shells, peak, c, i, k + 1)
  {
    hide Filling, Kept, Matches, Anchored, Spared, Rooted, GraphValid, Collected, CollectedThenSet, EdgesOf, RefValid;
    var value :- ResolveEdge(vm, c, i, k, k, roots, base, shells, peak);
    CurrentShell(vm.memory, shells, c, i, k);
    ghost var m := vm.memory;
    ShellHeld(m, vm.arena, vm.globals, roots, shells, i);
    SafeHeld(m, vm.arena, vm.globals, roots, shells, value);
    var ok := vm.SetDefault(a, value);
    if !ok {
      return Raised;
    }
    FillingAdvances(m, vm.memory, vm.arena, vm.globals, roots, shells, c, i, k,
                    HashCell(m[a].pairs, Some(value), false), [value]);
    result := TrimArena(vm, saved, roots, base, shells, peak);
  }

  /** Freeze a finished container and move on to the next node. */
  method Seal(
    vm: Vm, c: CGraph, i: nat, a: nat, roots: nat, ghost base: seq<Value>, ghost shells: seq<nat>, ghost peak: nat)
    requires GraphValid(c) && i < |c.nodes| == |shells| && a == shells[i]
    requires Working(vm, base, roots, shells, peak, c, i, c.nodes[i].edgeCount)
    modifies vm`memory
    ensures Working(vm, base, roots, shells, peak, c, i + 1, 0)
  {
    hide Anchored, Spared, Rooted, GraphValid, Matches, EdgesOf;
    CurrentShell(vm.memory, shells, c, i, c.nodes[i].edgeCount);
    NodeKinds(c, i);
    ghost var m := vm.memory;
    if c.nodes[i].kind != 1 && Frozen(c.nodes[i]) {
      vm.Freeze(a);
    }
    Sealed(m, vm.memory, vm.arena, roots, shells, c, i);
  }

  lemma Sealed(before: Memory, after: Memory, arena: seq<Value>, roots: nat, shells: seq<nat>, c: CGraph, i: nat)
    requires GraphValid(c) && i < |c.nodes| == |shells| && Owned(before, arena, roots, shells)
    requires Filling(before, shells, c, i, c.nodes[i].edgeCount) && shells[i] in before
    requires !before[shells[i]].BoxedInt? && !before[shells[i]].BoxedFloat?
    requires after == if c.nodes[i].kind != 1 && Frozen(c.nodes[i])
                      then before[shells[i] := FrozenCell(before[shells[i]])] else before
    ensures Owned(after, arena, roots, shells) && Filling(after, shells, c, i + 1, 0)
  {
    hide GraphValid, EdgesOf, Matches;
    NodeKinds(c, i);
    var next := i + 1;
    forall j | 0 <= j < |shells| && j < |c.nodes| ensures FillingAt(after, shells, c, next, 0, j) {
      assert FillingAt(before, shells, c, i, c.nodes[i].edgeCount, j);
      NodeKinds(c, j);
      forall e | 0 <= e < Progress(c, i + 1, 0, j)
        ensures Matches(after, shells, Contents(after[shells[j]])[e], EdgesOf(c, j)[e])
      {
        MatchesKept(before, after, shells, Contents(before[shells[j]])[e], EdgesOf(c, j)[e]);
      }
    }
  }

  /** One iteration of the edge loop. */
  method FillNode(
    vm: Vm, c: CGraph, i: nat, saved: nat, roots: nat, ghost base: seq<Value>, ghost shells: seq<nat>, ghost peak: nat)
    returns (result: Step<()>)
    requires GraphValid(c) && i < |c.nodes| && saved == |base|
    requires Working(vm, base, roots, shells, peak, c, i, 0)
    modifies vm`memory, vm`clock, vm`arena, vm`arenaPeak, vm`failures
    ensures vm.failures >= old(vm.failures) && (result.Raised? ==> vm.failures > old(vm.failures))
    ensures vm.Valid() && vm.arenaPeak <= peak && Above(vm.arena, base)
    ensures result.BadGraph? ==> !KeysDistinctAt(c, i)
    ensures result.Done? ==> Working(vm, base, roots, shells, peak, c, i + 1, 0) && KeysDistinctAt(c, i)
  {
    hide Filling, Anchored, Spared, Rooted, GraphValid, Owned, FirstKeysDistinct;
    NoKeysDistinct(c, i);
    NodeKinds(c, i);
    var a := TableEntry(vm, i, roots, shells);
    assert vm.arena == base + [VPtr(roots)];
    var n := c.nodes[i];
    if n.kind == 2 {
      for edge := 0 to n.edgeCount
        invariant Working(vm, base, roots, shells, peak, c, i, edge) && vm.failures >= old(vm.failures)
      {
        var _ :- PushEdge(vm, c, i, edge, a, saved, roots, base, shells, peak);
      }
    } else if n.kind == 3 {
      var pairEdges := n.edgeCount - DefaultCount(n);
      var edge := 0;
      while edge < pairEdges
        invariant edge % 2 == 0 && edge <= pairEdges && Working(vm, base, roots, shells, peak, c, i, edge)
        invariant FirstKeysDistinct(c, i, edge / 2) && vm.failures >= old(vm.failures)
      {
        var _ :- StorePair(vm, c, i, edge, a, saved, roots, base, shells, peak);
        edge := edge + 2;
      }
      AllKeysDistinct(c, i);
      if DefaultCount(n) == 1 {
        var _ :- StoreDefault(vm, c, i, edge, a, saved, roots, base, shells, peak);
      }
    }
    Seal(vm, c, i, a, roots, base, shells, peak);
    result := Done(());
  }

  lemma NoKeysDistinct(c: CGraph, i: nat)
    requires GraphValid(c) && i < |c.nodes|
    ensures FirstKeysDistinct(c, i, 0)
  {
  }

  lemma AllKeysDistinct(c: CGraph, i: nat)
    requires GraphValid(c) && i < |c.nodes| && FirstKeysDistinct(c, i, PairCount(c.nodes[i]) / 2)
    requires PairCount(c.nodes[i]) % 2 == 0
    ensures FirstKeysDistinct(c, i, PairCount(c.nodes[i]))
  {
    hide GraphValid, KeyEdge, KeysClash;
  }

  /** `mrb_ary_entry(context->roots, i)`. */
  method TableEntry(vm: Vm, i: nat, roots: nat, ghost shells: seq<nat>) returns (a: nat)
    requires Owned(vm.memory, vm.arena, roots, shells) && i < |shells|
    ensures a == shells[i]
  {
    assert vm.memory[roots].elems[i] == VPtr(shells[i]);
    a := vm.memory[roots].elems[i].address;
  }

  // ---- the whole operation -------------------------------------------------------------------

  /** The graph stands in memory, finished, with `value` as its root and node `i` at `shells[i]`. */
  ghost predicate Built(m: Memory, value: Value, c: CGraph, shells: seq<nat>)
    requires GraphValid(c)
  {
    && |shells| == |c.nodes| && (forall i, j :: 0 <= i < j < |shells| ==> shells[i] != shells[j])
    && Filling(m, shells, c, |c.nodes|, 0)
    && Matches(m, shells, value, c.root)
  }

  lemma BlankIsStart(m: Memory, shells: seq<nat>, c: CGraph)
    requires GraphValid(c) && Blank(m, shells, c) && |shells| == |c.nodes|
    ensures Filling(m, shells, c, 0, 0)
  {
    hide GraphValid;
    forall j | 0 <= j < |shells| && j < |c.nodes| ensures FillingAt(m, shells, c, 0, 0, j) {
      assert BlankAt(m, shells, c, j);
    }
  }

  lemma RootInRange(c: CGraph)
    requires GraphValid(c)
    ensures c.root.tag <= 6 && (c.root.tag == 6 ==> c.root.payload < |c.nodes|)
  {
  }

  /** mrz_artifact_materialize_body. */
  method MaterializeBody(vm: Vm, c: CGraph) returns (result: Step<Value>, ghost shells: seq<nat>)
    requires vm.Valid() && GraphValid(c)
    modifies vm`memory, vm`clock, vm`arena, vm`arenaPeak, vm`failures
    ensures vm.failures >= old(vm.failures) && (result.Raised? ==> vm.failures > old(vm.failures))
    ensures vm.Valid() && Above(vm.arena, old(vm.arena))
    ensures vm.arenaPeak <= Max(old(vm.arenaPeak), |old(vm.arena)| + 3)
    ensures result.BadGraph? ==> !KeysDistinct(c)
    ensures result.Done? ==>
              && Built(vm.memory, result.value, c, shells) && KeysDistinct(c)
              && (result.value.VPtr? ==> result.value.address in vm.memory)
  {
    hide Anchored, Spared, Rooted, GraphValid, Collected, CollectedThenAdded, Filling, Owned, Blank, Kept, Matches,
      KeysDistinctAt;
    shells := [];
    ghost var base := vm.arena;
    RootInRange(c);
    if |c.nodes| == 0 {
      NothingToFill(vm.memory, c);
      result := DecodeScalar(vm, c.root);
      if result.Done? {
        NothingToFill(vm.memory, c);
        ResultInMemory(vm.memory, [], result.value, c.root);
      }
      return;
    }
    ghost var peak := Max(vm.arenaPeak, |base| + 3);
    var saved := |vm.arena|;
    var table := vm.Allocate(ArrayCell([], false));
    if table.None? {
      return Raised, shells;
    }
    var roots := table.value;
    FirstTable(vm.memory, vm.arena, roots, c);
    for i := 0 to |c.nodes|
      invariant vm.failures >= old(vm.failures)
      invariant |shells| == i && Ready(vm, base, roots, shells, peak) && Blank(vm.memory, shells, c)
    {
      ghost var s;
      var shelled;
      shelled, s := AllocateShell(vm, c, i, saved, roots, base, shells, peak);
      if shelled.Raised? {
        return Raised, shells;
      }
      shells := shells + [s];
    }
    BlankIsStart(vm.memory, shells, c);
    for i := 0 to |c.nodes|
      invariant Working(vm, base, roots, shells, peak, c, i, 0) && vm.failures >= old(vm.failures)
      invariant forall j :: 0 <= j < i ==> KeysDistinctAt(c, j)
    {
      var filled := FillNode(vm, c, i, saved, roots, base, shells, peak);
      if !filled.Done? {
        return if filled.Raised? then Raised else BadGraph, shells;
      }
    }
    ghost var m, a := vm.memory, vm.arena;
    result := DecodeRef(vm, roots, c.root, shells);
    FillingKept(m, vm.memory, a, shells, c, |c.nodes|, 0);
    assert Above(a, base);
    if result.Done? {
      ShellsDistinct(vm.memory, vm.arena, roots, shells);
      FilledInMemory(vm.memory, shells, c);
      ResultInMemory(vm.memory, shells, result.value, c.root);
    }
  }

  lemma NothingToFill(m: Memory, c: CGraph)
    requires GraphValid(c) && |c.nodes| == 0
    ensures Filling(m, [], c, 0, 0) && c.root.tag != 6
  {
  }

  lemma FirstTable(m: Memory, arena: seq<Value>, roots: nat, c: CGraph)
    requires roots in m && m[roots] == ArrayCell([], false) && VPtr(roots) in arena
    ensures Owned(m, arena, roots, []) && Blank(m, [], c)
  {
    assert Pointers([]) == [];
  }

  lemma ShellsDistinct(m: Memory, arena: seq<Value>, roots: nat, shells: seq<nat>)
    requires Owned(m, arena, roots, shells)
    ensures forall i, j :: 0 <= i < j < |shells| ==> shells[i] != shells[j]
  {
  }

  lemma FilledInMemory(m: Memory, shells: seq<nat>, c: CGraph)
    requires GraphValid(c) && |shells| == |c.nodes| && Filling(m, shells, c, |c.nodes|, 0)
    ensures forall i :: 0 <= i < |shells| ==> shells[i] in m
  {
    forall i | 0 <= i < |shells| ensures shells[i] in m {
      assert FillingAt(m, shells, c, |c.nodes|, 0, i);
    }
  }

  lemma ResultInMemory(m: Memory, shells: seq<nat>, v: Value, r: CRef)
    requires Matches(m, shells, v, r) && forall i :: 0 <= i < |shells| ==> shells[i] in m
    ensures v.VPtr? ==> v.address in m
  {
  }

  datatype Outcome = Materialized(value: Value, arenaRoots: nat) | Invalid | OutOfMemory | Unexpected

  /** mrz_artifact_nomem_exception, on the exception the last failure raised. */
  function RaisedStatus(foreign: bool): Outcome {
    if foreign then Unexpected else Outcome.OutOfMemory
  }

  /**
   * mrz_artifact_materialize: validate, build under protection, and leave on the arena exactly the
   * result, or nothing on a failure.
   */
  method Materialize(vm: Vm, c: CGraph) returns (outcome: Outcome, ghost shells: seq<nat>)
    requires vm.Valid()
    modifies vm`memory, vm`clock, vm`arena, vm`arenaPeak, vm`failures
    ensures vm.failures >= old(vm.failures)
            && (outcome.OutOfMemory? || outcome.Unexpected? ==> vm.failures > old(vm.failures))
    ensures outcome.OutOfMemory? ==> !vm.environment.foreign(vm.failures)
    ensures outcome.Unexpected? ==> vm.environment.foreign(vm.failures)
    ensures vm.Valid()
    ensures outcome.Materialized? ==>
              && GraphValid(c) && KeysDistinct(c) && Built(vm.memory, outcome.value, c, shells)
              && vm.arena == (if outcome.value.VPtr? then old(vm.arena) + [outcome.value] else old(vm.arena))
              && outcome.arenaRoots == |vm.arena| - |old(vm.arena)|
    ensures !outcome.Materialized? ==> vm.arena == old(vm.arena)
    ensures outcome.Invalid? ==> !(GraphValid(c) && KeysDistinct(c))
    ensures !GraphValid(c) ==> outcome.Invalid? && vm.memory == old(vm.memory)
    ensures vm.arenaPeak <= Max(old(vm.arenaPeak), |old(vm.arena)| + 3)
  {
    hide Built, GraphValid, KeysDistinct, Anchored, Spared, Rooted;
    shells := [];
    var valid := CheckGraph(c);
    if !valid {
      return Invalid, shells;
    }
    var entryArena := |vm.arena|;
    var built;
    built, shells := MaterializeBody(vm, c);
    vm.ArenaRestore(entryArena);
    match built {
      case Raised => outcome := RaisedStatus(vm.environment.foreign(vm.failures));
      case BadGraph => outcome := Invalid;
      case Done(value) =>
        // The protected call roots its result last, under the outer catch frame.
        var ok := vm.Protect(value);
        outcome := if ok then Materialized(value, if value.VPtr? then 1 else 0)
                   else RaisedStatus(vm.environment.foreign(vm.failures));
    }
  }
}
