/**
 * The part of the interpreter the materializer relies on: objects at addresses, a stack of arena
 * roots, and a collector that may run at every allocation and free whatever is not reachable.
 */
module Interpreter {
  import opened BigEndian
  import opened HashKeys
  import opened Results

  datatype Value = VNil | VFalse | VTrue | VInt(i: int) | VSymbol(name: Bytes) | VPtr(address: nat)

  /** A hash lists its pairs flat, key before value, in insertion order. */
  datatype Cell =
    | BoxedInt(i: int)
    | BoxedFloat(bits: nat)
    | StringCell(bytes: Bytes, frozen: bool)
    | ArrayCell(elems: seq<Value>, frozen: bool)
    | HashCell(pairs: seq<Value>, default: Option<Value>, frozen: bool)

  type Memory = map<nat, Cell>

  function Contents(c: Cell): seq<Value> {
    match c
    case ArrayCell(elems, _) => elems
    case HashCell(pairs, default, _) => pairs + (if default.Some? then [default.value] else [])
    case _ => []
  }

  predicate PointsInto(values: seq<Value>, keep: set<nat>) {
    forall k :: 0 <= k < |values| && values[k].VPtr? ==> values[k].address in keep
  }

  predicate CellValid(c: Cell) {
    match c
    case BoxedInt(i) => -0x8000_0000_0000_0000 <= i < 0x8000_0000_0000_0000
    case BoxedFloat(bits) => bits < U64
    case HashCell(pairs, _, _) => |pairs| % 2 == 0
    case _ => true
  }

  predicate ValuesFit(values: seq<Value>) {
    forall k :: 0 <= k < |values| && values[k].VInt? ==> -0x8000_0000_0000_0000 <= values[k].i < 0x8000_0000_0000_0000
  }

  /** A set a collection may keep: it contains the roots and everything its members point to. */
  predicate Rooted(m: Memory, arena: seq<Value>, globals: set<nat>, keep: set<nat>) {
    && keep <= m.Keys && globals <= keep && PointsInto(arena, keep)
    && forall a :: a in keep ==> PointsInto(Contents(m[a]), keep)
  }

  /** Reachable: no collection can free this address. */
  ghost predicate Held(m: Memory, arena: seq<Value>, globals: set<nat>, a: nat) {
    forall keep :: Rooted(m, arena, globals, keep) ==> a in keep
  }

  ghost predicate HeldValue(m: Memory, arena: seq<Value>, globals: set<nat>, v: Value) {
    v.VPtr? ==> Held(m, arena, globals, v.address)
  }

  /** The value a Hash compares keys by, for the key types a capsule may carry. */
  function KeyOf(m: Memory, v: Value): Option<HashKey> {
    match v
    case VInt(i) => Some(IntKey(i))
    case VSymbol(name) => Some(SymbolKey(name))
    case VPtr(a) =>
      if a !in m then None
      else (match m[a]
            case BoxedInt(i) => Some(IntKey(i))
            case BoxedFloat(bits) => Some(FloatKey(if IsZero(bits) then 0 else bits))
            case StringCell(bytes, true) => Some(StringKey(bytes))
            case _ => None)
    case _ => None
  }

  predicate SameKey(m: Memory, x: Value, y: Value) {
    KeyOf(m, x).Some? && KeyOf(m, y).Some? && KeyEq(KeyOf(m, x).value, KeyOf(m, y).value)
  }

  /** The pair, from pair `p` on, whose key equals `key`. */
  function FindPair(m: Memory, pairs: seq<Value>, key: Value, p: nat): (found: Option<nat>)
    requires 2 * p <= |pairs| && |pairs| % 2 == 0
    ensures found.Some? ==> 2 * found.value + 1 < |pairs| && SameKey(m, pairs[2 * found.value], key)
    ensures found.None? ==> forall q :: p <= q && 2 * q < |pairs| ==> !SameKey(m, pairs[2 * q], key)
    decreases |pairs| - 2 * p
  {
    if 2 * p == |pairs| then None
    else if SameKey(m, pairs[2 * p], key) then Some(p)
    else FindPair(m, pairs, key, p + 1)
  }

  /** What storing `key => value` makes of a pair list: insertion order, one entry per key. */
  function Stored(m: Memory, pairs: seq<Value>, key: Value, value: Value): seq<Value>
    requires |pairs| % 2 == 0
  {
    match FindPair(m, pairs, key, 0)
    case Some(p) => pairs[2 * p + 1 := value]
    case None => pairs + [key, value]
  }

  /**
   * Choices outside the program: what a collection keeps, where an object lands or that memory runs
   * out, which integers are boxed, and which of the raised exceptions is not a NoMemoryError.
   */
  datatype Environment = Environment(
    keep: nat -> set<nat>, place: nat -> Option<nat>, boxed: nat -> bool, foreign: nat -> bool)

  class Vm {
    const environment: Environment
    const globals: set<nat>
    var memory: Memory
    var arena: seq<Value>
    var clock: nat
    ghost var arenaPeak: nat
    /** How many times the interpreter has raised so far. */
    var failures: nat
    /** Objects some caller still relies on, reachable from the first `pinDepth` arena roots. */
    ghost var pinned: Memory
    ghost var pinDepth: nat

    /** No dangling pointers anywhere, and every cell well shaped. */
    ghost predicate Valid()
      reads this
    {
      && Rooted(memory, arena, globals, memory.Keys)
      && (forall a :: a in memory ==> CellValid(memory[a]) && ValuesFit(Contents(memory[a])))
      && |arena| <= arenaPeak
      && pinDepth <= |arena| && Anchored(pinned, arena[..pinDepth], globals) && Spared(pinned, memory)
    }

    /** Start watching over everything reachable now. */
    ghost method Pin()
      requires Valid()
      modifies this`pinned, this`pinDepth
      ensures Valid() && pinDepth == |arena|
      ensures forall a :: a in memory && Held(memory, arena, globals, a) ==> a in pinned && pinned[a] == memory[a]
    {
      pinned := map a | a in memory && Held(memory, arena, globals, a) :: memory[a];
      pinDepth := |arena|;
      assert arena[..pinDepth] == arena;
      ReachableIsAnchored(memory, arena, globals, pinned);
    }

    ghost predicate IsHeld(v: Value)
      reads this
    {
      HeldValue(memory, arena, globals, v)
    }

    /** mrb_gc_arena_restore. */
    method ArenaRestore(saved: nat)
      requires Valid() && pinDepth <= saved <= |arena|
      modifies this`arena
      ensures Valid() && arena == old(arena)[..saved]
    {
      assert arena[..saved][..pinDepth] == arena[..pinDepth];
      arena := arena[..saved];
    }

    /** mrb_gc_protect. A pointer takes an arena slot, and growing the arena may fail. */
    method Protect(v: Value) returns (ok: bool)
      requires Valid() && (v.VPtr? ==> v.address in memory)
      modifies this`arena, this`arenaPeak, this`clock, this`failures
      ensures Valid() && arena == (if ok && v.VPtr? then old(arena) + [v] else old(arena))
      ensures failures == old(failures) + (if ok then 0 else 1) && (!v.VPtr? ==> ok)
      ensures arenaPeak == if |arena| > old(arenaPeak) then |arena| else old(arenaPeak)
    {
      if !v.VPtr? {
        return true;
      }
      ok := environment.place(clock).Some?;
      clock := clock + 1;
      if !ok {
        failures := failures + 1;
        return;
      }
      assert (arena + [v])[..pinDepth] == arena[..pinDepth];
      arena := arena + [v];
      arenaPeak := if |arena| > arenaPeak then |arena| else arenaPeak;
    }

    /** A point where the collector may run: it keeps some closed set and frees the rest. */
    method Collect()
      requires Valid()
      modifies this`memory, this`clock
      ensures Valid() && Collected(old(memory), memory, arena, globals)
    {
      var keep := environment.keep(clock);
      clock := clock + 1;
      if Rooted(memory, arena, globals, keep) {
        AnchoredSurvives(memory, arena, globals, keep, pinned, pinDepth);
        memory := map a | a in keep :: memory[a];
      }
      assert memory.Keys <= old(memory).Keys;
    }

    /** Allocate an object without contents, rooted in the arena. None is NoMemoryError. */
    method Allocate(c: Cell) returns (result: Option<nat>)
      requires Valid() && CellValid(c) && Contents(c) == []
      modifies this`memory, this`clock, this`arena, this`arenaPeak, this`failures
      ensures Valid()
      ensures failures == old(failures) + if result.None? then 1 else 0
      ensures result.None? ==>
                arena == old(arena) && arenaPeak == old(arenaPeak) && Collected(old(memory), memory, arena, globals)
      ensures result.Some? ==>
                && arena == old(arena) + [VPtr(result.value)]
                && arenaPeak == (if |arena| > old(arenaPeak) then |arena| else old(arenaPeak))
                && result.value in memory && result.value !in pinned && memory[result.value] == c
                && CollectedThenAdded(old(memory), memory, old(arena), globals, result.value)
    {
      Collect();
      var place := environment.place(clock);
      clock := clock + 1;
      if place.None? || place.value in memory {
        failures := failures + 1;
        return None;
      }
      ghost var before := memory;
      assert (arena + [VPtr(place.value)])[..pinDepth] == arena[..pinDepth];
      memory := memory[place.value := c];
      arena := arena + [VPtr(place.value)];
      arenaPeak := if |arena| > arenaPeak then |arena| else arenaPeak;
      assert before.Keys == memory.Keys - {place.value};
      result := place;
    }

    /** A write whose buffer may have to grow: the collector may run first, and memory may run out. */
    method Grow() returns (ok: bool)
      requires Valid()
      modifies this`memory, this`clock, this`failures
      ensures failures == old(failures) + if ok then 0 else 1
      ensures Valid() && Collected(old(memory), memory, arena, globals)
    {
      Collect();
      ok := environment.place(clock).Some?;
      clock := clock + 1;
      failures := failures + if ok then 0 else 1;
    }

    /** mrb_ary_push. */
    method AryPush(a: nat, v: Value) returns (ok: bool)
      requires Valid() && IsHeld(VPtr(a)) && IsHeld(v) && ValuesFit([v])
      requires a in memory && a !in pinned && memory[a].ArrayCell? && !memory[a].frozen
      modifies this`memory, this`clock, this`failures
      ensures failures == old(failures) + if ok then 0 else 1
      ensures Valid()
      ensures ok ==> CollectedThenSet(old(memory), memory, arena, globals, a,
                                      ArrayCell(old(memory)[a].elems + [v], false))
    {
      ok := Grow();
      if ok {
        Set(a, ArrayCell(memory[a].elems + [v], false));
      }
    }

    /** mrb_hash_set, for the key types a capsule may carry. */
    method HashSet(a: nat, key: Value, value: Value) returns (ok: bool)
      requires Valid() && IsHeld(VPtr(a)) && IsHeld(key) && IsHeld(value) && ValuesFit([key]) && ValuesFit([value])
      requires a in memory && a !in pinned && memory[a].HashCell? && !memory[a].frozen
      modifies this`memory, this`clock, this`failures
      ensures failures == old(failures) + if ok then 0 else 1
      ensures Valid()
      ensures ok ==>
                && old(memory)[a].HashCell?
                && var c := old(memory)[a];
                   |c.pairs| % 2 == 0
                   && CollectedThenSet(old(memory), memory, arena, globals, a,
                                       HashCell(Stored(old(memory), c.pairs, key, value), c.default, false))
    {
      hide KeyOf, FindPair;
      ghost var was := memory;
      assert CellValid(was[a]);
      ok := Grow();
      if ok {
        var c := memory[a];
        KeysSurvive(was, memory, arena, globals, a, key);
        StoredContents(memory, c.pairs, c.default, key, value, memory.Keys);
        Set(a, HashCell(Stored(memory, c.pairs, key, value), c.default, false));
      }
    }

    /** mrb_iv_set of the hidden default, with the default flag raised. */
    method SetDefault(a: nat, value: Value) returns (ok: bool)
      requires Valid() && IsHeld(VPtr(a)) && IsHeld(value) && ValuesFit([value])
      requires a in memory && a !in pinned && memory[a].HashCell? && !memory[a].frozen
      modifies this`memory, this`clock, this`failures
      ensures failures == old(failures) + if ok then 0 else 1
      ensures Valid()
      ensures ok ==> CollectedThenSet(old(memory), memory, arena, globals, a,
                                      HashCell(old(memory)[a].pairs, Some(value), false))
    {
      ghost var was := memory;
      assert CellValid(was[a]);
      ok := Grow();
      if ok {
        PairContents(memory[a].pairs, memory[a].default, Some(value), memory.Keys);
        Set(a, HashCell(memory[a].pairs, Some(value), false));
      }
    }

    /** mrb_obj_freeze. */
    method Freeze(a: nat)
      requires Valid() && a in memory && a !in pinned && !memory[a].BoxedInt? && !memory[a].BoxedFloat?
      modifies this`memory
      ensures Valid() && memory == old(memory)[a := FrozenCell(old(memory)[a])]
    {
      Set(a, FrozenCell(memory[a]));
    }

    method Set(a: nat, c: Cell)
      requires Valid() && a in memory && a !in pinned && CellValid(c) && PointsInto(Contents(c), memory.Keys)
               && ValuesFit(Contents(c))
      modifies this`memory
      ensures Valid() && memory == old(memory)[a := c]
    {
      memory := memory[a := c];
      assert memory.Keys == old(memory).Keys;
    }
  }

  /** `pinned` is exactly what is reachable inside it: closed, and the least closed set. */
  ghost predicate Anchored(pinned: Memory, arena: seq<Value>, globals: set<nat>) {
    && Rooted(pinned, arena, globals, pinned.Keys)
    && forall keep :: Rooted(pinned, arena, globals, keep) ==> pinned.Keys <= keep
  }

  /** Every pinned object is still there, unchanged. */
  ghost predicate Spared(pinned: Memory, m: Memory) {
    forall a :: a in pinned ==> a in m && m[a] == pinned[a]
  }

  /** Whatever a collector may keep, it keeps every anchored object. */
  lemma AnchoredSurvives(m: Memory, arena: seq<Value>, globals: set<nat>, keep: set<nat>, pinned: Memory, depth: nat)
    requires Rooted(m, arena, globals, keep) && depth <= |arena|
    requires Anchored(pinned, arena[..depth], globals) && Spared(pinned, m)
    ensures pinned.Keys <= keep
  {
    var both := keep * pinned.Keys;
    forall a | a in both ensures PointsInto(Contents(pinned[a]), both) {
      assert PointsInto(Contents(m[a]), keep) && PointsInto(Contents(pinned[a]), pinned.Keys);
    }
    assert PointsInto(arena[..depth], both);
    assert Rooted(pinned, arena[..depth], globals, both);
  }

  lemma ReachableIsAnchored(m: Memory, arena: seq<Value>, globals: set<nat>, reachable: Memory)
    requires Rooted(m, arena, globals, m.Keys)
    requires reachable == map a | a in m && Held(m, arena, globals, a) :: m[a]
    ensures Anchored(reachable, arena, globals) && Spared(reachable, m)
  {
    forall a | a in reachable ensures PointsInto(Contents(reachable[a]), reachable.Keys) {
      ContentsHeld(m, arena, globals, a);
    }
    RootsHeld(m, arena, globals);
    forall keep | Rooted(reachable, arena, globals, keep) ensures reachable.Keys <= keep {
      assert Rooted(m, arena, globals, keep);
    }
  }

  lemma RootsHeld(m: Memory, arena: seq<Value>, globals: set<nat>)
    requires Rooted(m, arena, globals, m.Keys)
    ensures forall k :: 0 <= k < |arena| && arena[k].VPtr? ==>
              arena[k].address in m && Held(m, arena, globals, arena[k].address)
    ensures forall a :: a in globals ==> a in m && Held(m, arena, globals, a)
  {
  }

  lemma ContentsHeld(m: Memory, arena: seq<Value>, globals: set<nat>, a: nat)
    requires Rooted(m, arena, globals, m.Keys) && a in m && Held(m, arena, globals, a)
    ensures forall k :: 0 <= k < |Contents(m[a])| && Contents(m[a])[k].VPtr? ==>
              Contents(m[a])[k].address in m && Held(m, arena, globals, Contents(m[a])[k].address)
  {
    forall k | 0 <= k < |Contents(m[a])| && Contents(m[a])[k].VPtr?
      ensures Contents(m[a])[k].address in m && Held(m, arena, globals, Contents(m[a])[k].address)
    {
      forall keep | Rooted(m, arena, globals, keep) ensures Contents(m[a])[k].address in keep {
        assert PointsInto(Contents(m[a]), keep);
      }
    }
  }

  function FrozenCell(c: Cell): (f: Cell)
    requires !c.BoxedInt? && !c.BoxedFloat?
    ensures Contents(f) == Contents(c)
  {
    match c
    case StringCell(bytes, _) => StringCell(bytes, true)
    case ArrayCell(elems, _) => ArrayCell(elems, true)
    case HashCell(pairs, default, _) => HashCell(pairs, default, true)
  }

  /** `after` is `before` with everything outside some closed set freed. */
  ghost predicate Collected(before: Memory, after: Memory, arena: seq<Value>, globals: set<nat>) {
    && Rooted(before, arena, globals, after.Keys)
    && forall a :: a in after ==> after[a] == before[a]
  }

  ghost predicate CollectedThenAdded(before: Memory, after: Memory, arena: seq<Value>, globals: set<nat>, a: nat) {
    exists middle :: Collected(before, middle, arena, globals) && a !in middle && a in after
                     && after == middle[a := after[a]]
  }

  ghost predicate CollectedThenSet(
    before: Memory, after: Memory, arena: seq<Value>, globals: set<nat>, a: nat, c: Cell)
  {
    exists middle :: Collected(before, middle, arena, globals) && a in middle && after == middle[a := c]
  }

  predicate Fine(v: Value, keep: set<nat>) {
    (v.VPtr? ==> v.address in keep) && ValuesFit([v])
  }

  lemma FineMembers(values: seq<Value>, keep: set<nat>)
    ensures PointsInto(values, keep) && ValuesFit(values) <==> forall k :: 0 <= k < |values| ==> Fine(values[k], keep)
  {
    forall k | 0 <= k < |values|
      ensures Fine(values[k], keep) <==>
              (values[k].VPtr? ==> values[k].address in keep)
              && (values[k].VInt? ==> -0x8000_0000_0000_0000 <= values[k].i < 0x8000_0000_0000_0000)
    {
      assert [values[k]][0] == values[k];
    }
  }

  lemma PairContents(pairs: seq<Value>, was: Option<Value>, default: Option<Value>, keep: set<nat>)
    requires PointsInto(Contents(HashCell(pairs, was, false)), keep) && ValuesFit(Contents(HashCell(pairs, was, false)))
    requires default.Some? ==> Fine(default.value, keep)
    ensures PointsInto(Contents(HashCell(pairs, default, false)), keep)
    ensures ValuesFit(Contents(HashCell(pairs, default, false)))
    ensures PointsInto(pairs, keep) && ValuesFit(pairs)
    ensures was.Some? ==> Fine(was.value, keep)
  {
    var before, after := Contents(HashCell(pairs, was, false)), Contents(HashCell(pairs, default, false));
    FineMembers(before, keep);
    assert forall k :: 0 <= k < |pairs| ==> before[k] == pairs[k] && after[k] == pairs[k];
    FineMembers(pairs, keep);
    FineMembers(after, keep);
    if was.Some? {
      assert before[|pairs|] == was.value;
    }
  }

  lemma StoredContents(
    m: Memory, pairs: seq<Value>, default: Option<Value>, key: Value, value: Value, keep: set<nat>)
    requires |pairs| % 2 == 0 && Fine(key, keep) && Fine(value, keep)
    requires PointsInto(Contents(HashCell(pairs, default, false)), keep)
             && ValuesFit(Contents(HashCell(pairs, default, false)))
    ensures PointsInto(Contents(HashCell(Stored(m, pairs, key, value), default, false)), keep)
    ensures ValuesFit(Contents(HashCell(Stored(m, pairs, key, value), default, false)))
    ensures |Stored(m, pairs, key, value)| % 2 == 0
  {
    hide KeyOf, KeyEq, Fine, PointsInto, ValuesFit;
    PairContents(pairs, default, None, keep);
    FineMembers(pairs, keep);
    var stored := Stored(m, pairs, key, value);
    FineMembers(stored, keep);
    assert Contents(HashCell(stored, None, false)) == stored;
    PairContents(stored, None, default, keep);
  }

  /** Storing into a hash after a collection finds the same pair as before it. */
  lemma KeysSurvive(before: Memory, after: Memory, arena: seq<Value>, globals: set<nat>, a: nat, key: Value)
    requires Collected(before, after, arena, globals) && a in after && before[a].HashCell? && |before[a].pairs| % 2 == 0
    requires key.VPtr? ==> key.address in after
    ensures forall value :: Stored(after, before[a].pairs, key, value) == Stored(before, before[a].pairs, key, value)
  {
    var pairs := before[a].pairs;
    assert KeyOf(after, key) == KeyOf(before, key);
    forall k | 0 <= k < |pairs| ensures KeyOf(after, pairs[k]) == KeyOf(before, pairs[k]) {
      assert Contents(before[a])[k] == pairs[k];
    }
    FindSurvives(before, after, pairs, key, 0);
  }

  lemma {:induction false} FindSurvives(before: Memory, after: Memory, pairs: seq<Value>, key: Value, p: nat)
    requires 2 * p <= |pairs| && |pairs| % 2 == 0 && KeyOf(after, key) == KeyOf(before, key)
    requires forall k :: 0 <= k < |pairs| ==> KeyOf(after, pairs[k]) == KeyOf(before, pairs[k])
    ensures FindPair(after, pairs, key, p) == FindPair(before, pairs, key, p)
    decreases |pairs| - 2 * p
  {
    hide KeyOf, KeyEq;
    if 2 * p < |pairs| {
      FindSurvives(before, after, pairs, key, p + 1);
    }
  }
}
