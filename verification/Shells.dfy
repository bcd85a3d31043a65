/**
 * What the materializer keeps true between interpreter calls: the private root table owns every
 * shell, each shell holds a prefix of its node's edges, and collections free none of it.
 */
module Shells {
  import opened Interpreter
  import opened NormalGraph
  import opened Results
  import opened Wire

  function Pointers(shells: seq<nat>): (s: seq<Value>)
    ensures |s| == |shells| && forall i :: 0 <= i < |shells| ==> s[i] == VPtr(shells[i])
  {
    seq(|shells|, i requires 0 <= i < |shells| => VPtr(shells[i]))
  }

  /** `v` is the value reference `r` denotes, with node `i` living at `shells[i]`. */
  predicate Matches(m: Memory, shells: seq<nat>, v: Value, r: CRef) {
    match r.tag
    case 0 => v == VNil
    case 1 => v == VFalse
    case 2 => v == VTrue
    case 3 =>
      || v == VInt(FromU64(r.payload))
      || (v.VPtr? && v.address in m && m[v.address] == BoxedInt(FromU64(r.payload)))
    case 4 => v.VPtr? && v.address in m && m[v.address] == BoxedFloat(r.payload)
    case 5 => v == VSymbol(r.target)
    case 6 => r.payload < |shells| && v == VPtr(shells[r.payload])
    case _ => false
  }

  /** The edges of node `i`, in order. */
  function EdgesOf(c: CGraph, i: nat): (edges: seq<CRef>)
    requires GraphValid(c) && i < |c.nodes|
    ensures |edges| == c.nodes[i].edgeCount
  {
    assert NodeValid(c, c.nodes[i]);
    c.edges[c.nodes[i].edgeOffset..c.nodes[i].edgeOffset + c.nodes[i].edgeCount]
  }

  function PairCount(n: CNode): nat {
    if n.edgeCount < DefaultCount(n) then 0 else n.edgeCount - DefaultCount(n)
  }

  /** The shape of a shell that holds its first `k` edges, and is frozen only once sealed. */
  predicate ShellShape(n: CNode, cell: Cell, k: nat, sealed: bool) {
    if n.kind == 1 then cell == StringCell(n.bytes, Frozen(n))
    else if n.kind == 2 then cell.ArrayCell? && cell.frozen == (sealed && Frozen(n))
    else && cell.HashCell? && cell.frozen == (sealed && Frozen(n))
         && |cell.pairs| == (if k < PairCount(n) then k else PairCount(n))
         && (cell.default.Some? <==> k > PairCount(n))
  }

  ghost predicate ShellAt(m: Memory, shells: seq<nat>, c: CGraph, i: nat, k: nat, sealed: bool)
    requires GraphValid(c) && i < |c.nodes|
  {
    && i < |shells| && shells[i] in m && k <= c.nodes[i].edgeCount
    && ShellShape(c.nodes[i], m[shells[i]], k, sealed)
    && |Contents(m[shells[i]])| == k
    && forall j :: 0 <= j < k ==> Matches(m, shells, Contents(m[shells[i]])[j], EdgesOf(c, i)[j])
  }

  /** How far node `j` is when node `i` has `k` edges and the later ones none. */
  function Progress(c: CGraph, i: nat, k: nat, j: nat): nat
    requires j < |c.nodes|
  {
    if j < i then c.nodes[j].edgeCount else if j == i then k else 0
  }

  ghost predicate FillingAt(m: Memory, shells: seq<nat>, c: CGraph, i: nat, k: nat, j: nat)
    requires GraphValid(c) && j < |c.nodes|
  {
    ShellAt(m, shells, c, j, Progress(c, i, k, j), j < i)
  }

  ghost predicate Filling(m: Memory, shells: seq<nat>, c: CGraph, i: nat, k: nat)
    requires GraphValid(c)
  {
    forall j :: 0 <= j < |shells| && j < |c.nodes| ==> FillingAt(m, shells, c, i, k, j)
  }

  ghost predicate Apart(roots: nat, shells: seq<nat>) {
    && roots !in shells
    && forall i, j :: 0 <= i < j < |shells| ==> shells[i] != shells[j]
  }

  /** The root table is in place and owns the shells. */
  ghost predicate Owned(m: Memory, arena: seq<Value>, roots: nat, shells: seq<nat>) {
    && VPtr(roots) in arena && Apart(roots, shells)
    && roots in m && m[roots] == ArrayCell(Pointers(shells), false)
  }

  // ---- reachability --------------------------------------------------------------------------

  lemma InArenaHeld(m: Memory, arena: seq<Value>, globals: set<nat>, v: Value)
    requires v in arena
    ensures HeldValue(m, arena, globals, v)
  {
    if v.VPtr? {
      forall keep | Rooted(m, arena, globals, keep) ensures v.address in keep {
        var k :| 0 <= k < |arena| && arena[k] == v;
      }
    }
  }

  lemma ShellHeld(m: Memory, arena: seq<Value>, globals: set<nat>, roots: nat, shells: seq<nat>, i: nat)
    requires Owned(m, arena, roots, shells) && i < |shells|
    ensures Held(m, arena, globals, shells[i])
  {
    InArenaHeld(m, arena, globals, VPtr(roots));
    forall keep | Rooted(m, arena, globals, keep) ensures shells[i] in keep {
      assert roots in keep && Contents(m[roots])[i] == VPtr(shells[i]);
    }
  }

  /** A value is safe across a collection: immediate, in the arena, or a shell. */
  ghost predicate Safe(arena: seq<Value>, shells: seq<nat>, v: Value) {
    v.VPtr? ==> v in arena || v.address in shells
  }

  lemma SafeHeld(m: Memory, arena: seq<Value>, globals: set<nat>, roots: nat, shells: seq<nat>, v: Value)
    requires Owned(m, arena, roots, shells) && Safe(arena, shells, v)
    ensures HeldValue(m, arena, globals, v)
  {
    if v in arena {
      InArenaHeld(m, arena, globals, v);
    } else if v.VPtr? {
      var i :| 0 <= i < |shells| && shells[i] == v.address;
      ShellHeld(m, arena, globals, roots, shells, i);
    }
  }

  // ---- what a step preserves -----------------------------------------------------------------

  lemma MatchesKept(before: Memory, after: Memory, shells: seq<nat>, v: Value, r: CRef)
    requires Matches(before, shells, v, r)
    requires v.VPtr? && v.address in before && (before[v.address].BoxedInt? || before[v.address].BoxedFloat?) ==>
               v.address in after && after[v.address] == before[v.address]
    ensures Matches(after, shells, v, r)
  {
  }

  /** Everything the materializer still needs survived with its contents, except cell `target`. */
  ghost predicate Kept(before: Memory, after: Memory, arena: seq<Value>, shells: seq<nat>, target: Option<nat>) {
    && (forall k :: 0 <= k < |arena| && arena[k].VPtr? && Some(arena[k].address) != target ==>
          arena[k].address in before && arena[k].address in after
          && after[arena[k].address] == before[arena[k].address])
    && forall i :: 0 <= i < |shells| && Some(shells[i]) != target ==> CellKept(before, after, shells[i])
  }

  /** One cell survived together with the numbers it boxes. */
  ghost predicate CellKept(before: Memory, after: Memory, a: nat) {
    && a in before && a in after && after[a] == before[a] && ContentsKept(before, after, Contents(before[a]))
  }

  ghost predicate ContentsKept(before: Memory, after: Memory, values: seq<Value>) {
    forall k :: 0 <= k < |values| && values[k].VPtr? && values[k].address in before
                && (before[values[k].address].BoxedInt? || before[values[k].address].BoxedFloat?)
      ==> values[k].address in after && after[values[k].address] == before[values[k].address]
  }

  lemma CollectedKeeps(
    before: Memory, after: Memory, arena: seq<Value>, globals: set<nat>, roots: nat, shells: seq<nat>)
    requires Owned(before, arena, roots, shells) && Collected(before, after, arena, globals)
    ensures Kept(before, after, arena, shells, None) && Owned(after, arena, roots, shells)
  {
    var r :| 0 <= r < |arena| && arena[r] == VPtr(roots);
    forall i | 0 <= i < |shells| ensures CellKept(before, after, shells[i]) {
      assert Contents(before[roots])[i] == VPtr(shells[i]);
    }
  }

  lemma AddedKeeps(
    before: Memory, after: Memory, arena: seq<Value>, globals: set<nat>, roots: nat, shells: seq<nat>, a: nat)
    requires Owned(before, arena, roots, shells) && CollectedThenAdded(before, after, arena, globals, a)
    ensures Kept(before, after, arena, shells, None) && Owned(after, arena, roots, shells)
    ensures a != roots && a !in shells
  {
    var middle :| Collected(before, middle, arena, globals) && a !in middle && a in after
                  && after == middle[a := after[a]];
    CollectedKeeps(before, middle, arena, globals, roots, shells);
    var r :| 0 <= r < |arena| && arena[r] == VPtr(roots);
    forall i | 0 <= i < |shells| ensures CellKept(before, after, shells[i]) {
      assert CellKept(before, middle, shells[i]);
    }
  }

  lemma SetKeeps(
    before: Memory, after: Memory, arena: seq<Value>, globals: set<nat>, roots: nat, shells: seq<nat>, i: nat,
    cell: Cell)
    requires Owned(before, arena, roots, shells) && i < |shells|
    requires CollectedThenSet(before, after, arena, globals, shells[i], cell)
    requires !before[shells[i]].BoxedInt? && !before[shells[i]].BoxedFloat?
    requires shells[i] in before
    ensures Kept(before, after, arena, shells, Some(shells[i])) && Owned(after, arena, roots, shells)
    ensures shells[i] in after && after[shells[i]] == cell && ContentsKept(before, after, Contents(before[shells[i]]))
  {
    var middle :| Collected(before, middle, arena, globals) && shells[i] in middle
                  && after == middle[shells[i] := cell];
    CollectedKeeps(before, middle, arena, globals, roots, shells);
    assert CellKept(before, middle, shells[i]);
    forall j | 0 <= j < |shells| && shells[j] != shells[i] ensures CellKept(before, after, shells[j]) {
      assert CellKept(before, middle, shells[j]);
    }
  }

  lemma ShellKept(
    before: Memory, after: Memory, arena: seq<Value>, shells: seq<nat>, target: Option<nat>, c: CGraph, i: nat,
    k: nat, sealed: bool)
    requires GraphValid(c) && i < |c.nodes| && ShellAt(before, shells, c, i, k, sealed)
    requires Kept(before, after, arena, shells, target) && Some(shells[i]) != target
    ensures ShellAt(after, shells, c, i, k, sealed)
  {
    hide Matches, GraphValid, ShellShape;
    assert CellKept(before, after, shells[i]);
    var values := Contents(before[shells[i]]);
    forall j | 0 <= j < k ensures Matches(after, shells, values[j], EdgesOf(c, i)[j]) {
      MatchesKept(before, after, shells, values[j], EdgesOf(c, i)[j]);
    }
  }

  lemma FillingKept(
    before: Memory, after: Memory, arena: seq<Value>, shells: seq<nat>, c: CGraph, i: nat, k: nat)
    requires GraphValid(c) && Filling(before, shells, c, i, k) && Kept(before, after, arena, shells, None)
    ensures Filling(after, shells, c, i, k)
  {
    hide ShellAt, GraphValid, Kept;
    forall j | 0 <= j < |shells| && j < |c.nodes| ensures FillingAt(after, shells, c, i, k, j) {
      assert FillingAt(before, shells, c, i, k, j);
      ShellKept(before, after, arena, shells, None, c, j, Progress(c, i, k, j), j < i);
    }
  }

  /** A safe value still denotes its reference after a step that spares it. */
  lemma SafeMatchesKept(
    before: Memory, after: Memory, arena: seq<Value>, shells: seq<nat>, target: Option<nat>, v: Value, r: CRef)
    requires Safe(arena, shells, v) && Matches(before, shells, v, r) && Kept(before, after, arena, shells, target)
    requires target.Some? ==>
               target.value in before && !before[target.value].BoxedInt? && !before[target.value].BoxedFloat?
    ensures Matches(after, shells, v, r)
  {
    if v.VPtr? && v in arena {
      var k :| 0 <= k < |arena| && arena[k] == v;
    } else if v.VPtr? {
      var i :| 0 <= i < |shells| && shells[i] == v.address;
      assert Some(shells[i]) != target ==> CellKept(before, after, shells[i]);
    }
    MatchesKept(before, after, shells, v, r);
  }

  lemma TargetAdvances(
    before: Memory, after: Memory, arena: seq<Value>, shells: seq<nat>, c: CGraph, i: nat, k: nat, cell: Cell,
    more: seq<Value>)
    requires GraphValid(c) && i < |c.nodes| == |shells| && k + |more| <= c.nodes[i].edgeCount
    requires ShellAt(before, shells, c, i, k, false) && ShellShape(c.nodes[i], cell, k + |more|, false)
    requires c.nodes[i].kind != 1
    requires Kept(before, after, arena, shells, Some(shells[i]))
    requires shells[i] in after && after[shells[i]] == cell && ContentsKept(before, after, Contents(before[shells[i]]))
    requires Contents(cell) == Contents(before[shells[i]]) + more
    requires forall j :: 0 <= j < |more| ==>
               Safe(arena, shells, more[j]) && Matches(before, shells, more[j], EdgesOf(c, i)[k + j])
    ensures ShellAt(after, shells, c, i, k + |more|, false)
  {
    NotBoxed(c, before[shells[i]], i, k);
    hide Matches, GraphValid, Kept, Safe, ContentsKept, ShellShape, EdgesOf;
    var values := Contents(before[shells[i]]);
    forall j | 0 <= j < k + |more| ensures Matches(after, shells, Contents(cell)[j], EdgesOf(c, i)[j]) {
      if j < k {
        OldMatchKept(before, after, shells, values, j, EdgesOf(c, i)[j]);
      } else {
        SafeMatchesKept(before, after, arena, shells, Some(shells[i]), more[j - k], EdgesOf(c, i)[k + (j - k)]);
      }
    }
  }

  /** Appending matching values to shell `i` advances it and leaves the rest as it was. */
  lemma FillingAdvances(
    before: Memory, after: Memory, arena: seq<Value>, globals: set<nat>, roots: nat, shells: seq<nat>,
    c: CGraph, i: nat, k: nat, cell: Cell, more: seq<Value>)
    requires GraphValid(c) && i < |c.nodes| == |shells| && k + |more| <= c.nodes[i].edgeCount
    requires Owned(before, arena, roots, shells) && Filling(before, shells, c, i, k)
    requires shells[i] in before && CollectedThenSet(before, after, arena, globals, shells[i], cell)
    requires c.nodes[i].kind != 1 && ShellShape(c.nodes[i], cell, k + |more|, false)
    requires Contents(cell) == Contents(before[shells[i]]) + more
    requires forall j :: 0 <= j < |more| ==>
               Safe(arena, shells, more[j]) && Matches(before, shells, more[j], EdgesOf(c, i)[k + j])
    ensures Owned(after, arena, roots, shells) && Filling(after, shells, c, i, k + |more|)
  {
    hide Matches, GraphValid, Kept, Safe, CollectedThenSet, Owned, ContentsKept, ShellAt, ShellShape, EdgesOf;
    FillingTarget(before, shells, c, i, k);
    SetKeeps(before, after, arena, globals, roots, shells, i, cell);
    var reached := k + |more|;
    TargetAdvances(before, after, arena, shells, c, i, k, cell, more);
    forall j | 0 <= j < |shells| && j < |c.nodes| ensures FillingAt(after, shells, c, i, reached, j) {
      if j != i {
        assert FillingAt(before, shells, c, i, k, j);
        DistinctShells(before, arena, roots, shells, i, j);
        ShellKept(before, after, arena, shells, Some(shells[i]), c, j, Progress(c, i, k, j), j < i);
      }
    }
  }

  /** The shell being filled is at its progress, and is no boxed number. */
  lemma FillingTarget(m: Memory, shells: seq<nat>, c: CGraph, i: nat, k: nat)
    requires GraphValid(c) && i < |c.nodes| == |shells| && Filling(m, shells, c, i, k)
    ensures ShellAt(m, shells, c, i, k, false) && shells[i] in m
    ensures !m[shells[i]].BoxedInt? && !m[shells[i]].BoxedFloat?
  {
    hide GraphValid, Matches, ShellShape;
    assert FillingAt(m, shells, c, i, k, i);
    NotBoxed(c, m[shells[i]], i, k);
  }

  lemma DistinctShells(m: Memory, arena: seq<Value>, roots: nat, shells: seq<nat>, i: nat, j: nat)
    requires Owned(m, arena, roots, shells) && i < |shells| && j < |shells| && i != j
    ensures shells[i] != shells[j]
  {
  }

  lemma NotBoxed(c: CGraph, cell: Cell, i: nat, k: nat)
    requires GraphValid(c) && i < |c.nodes| && ShellShape(c.nodes[i], cell, k, false)
    ensures !cell.BoxedInt? && !cell.BoxedFloat?
  {
  }

  lemma OldMatchKept(before: Memory, after: Memory, shells: seq<nat>, values: seq<Value>, j: nat, r: CRef)
    requires j < |values| && ContentsKept(before, after, values) && Matches(before, shells, values[j], r)
    ensures Matches(after, shells, values[j], r)
  {
    MatchesKept(before, after, shells, values[j], r);
  }
}
