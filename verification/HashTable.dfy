/**
 * The open-addressing table simulateHashInsertion fills (artifact_value.zig:952-1047): its capacity
 * rule, the agreement of the bucket array with the plain key list, and the exact cost of filling it.
 */
module HashTable {
  import opened Arith
  import opened Bits
  import opened BigEndian
  import opened HashKeys
  import opened Probing
  import opened Results
  import opened Sets

  const ARRAY_MAX: nat := 16
  const EMPTY: nat := 0xFFFF_FFFF

  // ---- capacity ------------------------------------------------------------------------------

  /** Room for `n` keys at a load of at most three quarters. */
  predicate Roomy(capacity: nat, n: nat) {
    n < capacity && 4 * n <= 3 * capacity
  }

  /** The least power of two with room for `n` keys, given by its exponent. */
  ghost predicate LeastRoomy(k: nat, n: nat) {
    Roomy(Pow2(k), n) && (k > 0 ==> !Roomy(Pow2(k - 1), n))
  }

  /** hashTableCapacity: double past `n`, and once more when the load limit is exceeded. */
  method Capacity(n: nat) returns (result: Result<nat>, ghost k: nat)
    requires n > ARRAY_MAX
    ensures result.Ok? ==> result.value == Pow2(k) && LeastRoomy(k, n) && 3 * result.value < 8 * n
    ensures result.Err? ==> result.error == CapsuleLimitExceeded && 4 * n >= U64
  {
    var capacity := 1;
    k := 0;
    while capacity <= n
      invariant capacity == Pow2(k) && (k > 0 ==> Pow2(k - 1) <= n)
      decreases n - capacity
    {
      if capacity * 2 >= U64 {
        return Err(CapsuleLimitExceeded), k;
      }
      capacity := capacity * 2;
      k := k + 1;
    }
    AtLeastFive(k, n);
    var quarter := Pow2(k - 2);
    OrOfShifts(k - 2);
    var upperBound := Or(capacity / 4, capacity / 2);
    assert upperBound == 3 * quarter;
    if n > upperBound {
      if capacity * 2 >= U64 {
        return Err(CapsuleLimitExceeded), k;
      }
      capacity := capacity * 2;
      k := k + 1;
    }
    result := Ok(capacity);
  }

  lemma AtLeastFive(k: nat, n: nat)
    requires n > ARRAY_MAX && Pow2(k) > n
    ensures k >= 5 && Pow2(k) == 4 * Pow2(k - 2) && Pow2(k) == 2 * Pow2(k - 1)
  {
    assert Pow2(4) == 16;
    if k < 5 {
      Pow2Monotone(k, 4);
    }
  }

  lemma LeastRoomyUnique(j: nat, k: nat, n: nat)
    requires LeastRoomy(j, n) && LeastRoomy(k, n)
    ensures j == k
  {
    if j < k {
      Pow2Monotone(j, k - 1);
    }
    if k < j {
      Pow2Monotone(k, j - 1);
    }
  }

  // ---- insertion -----------------------------------------------------------------------------

  type Buckets = seq<nat>

  /** The first probe step, from `step` on, at an empty bucket. */
  function FirstEmpty(b: Buckets, k: nat, h: nat, step: nat): (s: nat)
    requires |b| == Pow2(k)
    ensures step <= Pow2(k) ==> step <= s <= Pow2(k)
    ensures forall t :: step <= t < s ==> b[Position(k, h, t)] != EMPTY
    ensures s < Pow2(k) ==> b[Position(k, h, s)] == EMPTY
    decreases Pow2(k) - step
  {
    if step >= Pow2(k) || b[Position(k, h, step)] == EMPTY then step else FirstEmpty(b, k, h, step + 1)
  }

  /** Store `index` at the first empty bucket of its probe sequence. */
  function Insert(b: Buckets, k: nat, h: nat, index: nat): (b': Buckets)
    requires |b| == Pow2(k)
    ensures |b'| == Pow2(k)
  {
    var s := FirstEmpty(b, k, h, 0);
    if s < Pow2(k) then b[Position(k, h, s) := index] else b
  }

  function EmptyTable(k: nat): (b: Buckets)
    ensures |b| == Pow2(k) && forall p :: 0 <= p < |b| ==> b[p] == EMPTY
  {
    seq(Pow2(k), p => EMPTY)
  }

  /** The table after the keys with initial buckets `hs` have been inserted in order. */
  function Table(hs: seq<nat>, k: nat): (b: Buckets)
    ensures |b| == Pow2(k)
  {
    if hs == [] then EmptyTable(k)
    else Insert(Table(hs[..|hs| - 1], k), k, hs[|hs| - 1], |hs| - 1)
  }

  function Occupied(b: Buckets): set<nat> {
    set p: nat | p < |b| && b[p] != EMPTY
  }

  /** Key `i` is stored on its own probe sequence, behind earlier keys only. */
  ghost predicate Stored(b: Buckets, hs: seq<nat>, k: nat, i: nat)
    requires |b| == Pow2(k) && i < |hs|
  {
    exists s: nat :: s <= i && s < Pow2(k) && b[Position(k, hs[i], s)] == i
                     && forall t :: 0 <= t < s ==> b[Position(k, hs[i], t)] < i
  }

  /** The bucket array is an index of the key list: every key once, nothing else. */
  ghost predicate Indexes(b: Buckets, hs: seq<nat>, k: nat)
    requires |b| == Pow2(k)
  {
    && (forall p :: 0 <= p < |b| ==> b[p] == EMPTY || b[p] < |hs|)
    && (forall p, q :: 0 <= p < q < |b| && b[p] == b[q] ==> b[p] == EMPTY)
    && (forall i :: 0 <= i < |hs| ==> Stored(b, hs, k, i))
    && |Occupied(b)| == |hs|
  }

  /** No probe sequence is longer than the number of occupied buckets. */
  lemma FirstEmptyBound(b: Buckets, k: nat, h: nat)
    requires |b| == Pow2(k) && k <= 31
    ensures FirstEmpty(b, k, h, 0) <= |Occupied(b)|
  {
    var s := FirstEmpty(b, k, h, 0);
    VisitedSize(k, h, s);
    VisitedMembers(k, h, s);
    SubsetSize(Visited(k, h, s), Occupied(b));
  }

  lemma InsertIndexes(b: Buckets, hs: seq<nat>, k: nat, h: nat)
    requires |b| == Pow2(k) && k <= 31 && Indexes(b, hs, k) && |hs| < Pow2(k) && |hs| < EMPTY
    ensures FirstEmpty(b, k, h, 0) <= |hs|
    ensures Indexes(Insert(b, k, h, |hs|), hs + [h], k)
  {
    hide Pow2, Position, FirstEmpty, Stored, Occupied;
    FirstEmptyBound(b, k, h);
    var n, at := |hs|, Position(k, h, FirstEmpty(b, k, h, 0));
    var b', hs' := b[at := n], hs + [h];
    assert Insert(b, k, h, n) == b';
    BucketFilled(b, at, n);
    NewKeyStored(b, hs, k, h);
    forall i | 0 <= i < n ensures Stored(b', hs', k, i) {
      StoredKept(b, hs, k, h, at, i);
    }
  }

  /** Writing a new index into an empty bucket keeps the indices small and apart. */
  lemma BucketFilled(b: Buckets, at: nat, n: nat)
    requires at < |b| && b[at] == EMPTY && n < EMPTY
    requires forall p :: 0 <= p < |b| ==> b[p] == EMPTY || b[p] < n
    requires forall p, q :: 0 <= p < q < |b| && b[p] == b[q] ==> b[p] == EMPTY
    ensures var b' := b[at := n];
            && (forall p :: 0 <= p < |b'| ==> b'[p] == EMPTY || b'[p] < n + 1)
            && (forall p, q :: 0 <= p < q < |b'| && b'[p] == b'[q] ==> b'[p] == EMPTY)
            && |Occupied(b')| == |Occupied(b)| + 1
  {
    assert Occupied(b[at := n]) == Occupied(b) + {at};
  }

  lemma NewKeyStored(b: Buckets, hs: seq<nat>, k: nat, h: nat)
    requires |b| == Pow2(k) && FirstEmpty(b, k, h, 0) <= |hs| < EMPTY && FirstEmpty(b, k, h, 0) < Pow2(k)
    requires forall p :: 0 <= p < |b| ==> b[p] == EMPTY || b[p] < |hs|
    ensures Stored(b[Position(k, h, FirstEmpty(b, k, h, 0)) := |hs|], hs + [h], k, |hs|)
  {
    hide Position;
    var s := FirstEmpty(b, k, h, 0);
    var b' := b[Position(k, h, s) := |hs|];
    assert forall u :: 0 <= u < s ==> b'[Position(k, h, u)] < |hs|;
    assert b'[Position(k, (hs + [h])[|hs|], s)] == |hs|;
  }

  /** Filling an empty bucket leaves the keys already stored where they are. */
  lemma StoredKept(b: Buckets, hs: seq<nat>, k: nat, h: nat, at: nat, i: nat)
    requires |b| == Pow2(k) && i < |hs| < EMPTY && at < |b| && b[at] == EMPTY && Stored(b, hs, k, i)
    ensures Stored(b[at := |hs|], hs + [h], k, i)
  {
    hide Position;
    var b' := b[at := |hs|];
    var t: nat :| t <= i && t < Pow2(k) && b[Position(k, hs[i], t)] == i
                  && forall u :: 0 <= u < t ==> b[Position(k, hs[i], u)] < i;
    assert forall u :: 0 <= u < t ==> b'[Position(k, hs[i], u)] < i;
    assert b'[Position(k, (hs + [h])[i], t)] == i;
  }

  /** Filling a table never fails: every insertion reaches an empty bucket, and the index stays exact. */
  lemma {:induction false} TableIndexes(hs: seq<nat>, k: nat)
    requires k <= 31 && |hs| <= Pow2(k) && |hs| <= EMPTY
    ensures Indexes(Table(hs, k), hs, k)
  {
    if hs == [] {
      assert Occupied(EmptyTable(k)) == {};
    } else {
      hide Indexes, Insert, Pow2;
      var init := hs[..|hs| - 1];
      TableIndexes(init, k);
      InsertIndexes(Table(init, k), init, k, hs[|hs| - 1]);
      assert hs == init + [hs[|hs| - 1]];
    }
  }

  // ---- lookup --------------------------------------------------------------------------------

  function Codes(keys: seq<HashKey>): (hs: seq<nat>)
    ensures |hs| == |keys| && forall i :: 0 <= i < |keys| ==> hs[i] == Code(keys[i])
  {
    seq(|keys|, i requires 0 <= i < |keys| => Code(keys[i]))
  }

  /** Walk the probe sequence of `q` until an equal key or an empty bucket. */
  function Lookup(b: Buckets, keys: seq<HashKey>, k: nat, q: HashKey, step: nat): Option<nat>
    requires |b| == Pow2(k)
    decreases Pow2(k) - step
  {
    if step >= Pow2(k) then None
    else
      var i := b[Position(k, Code(q), step)];
      if i >= |keys| then None
      else if KeyEq(keys[i], q) then Some(i)
      else Lookup(b, keys, k, q, step + 1)
  }

  lemma {:induction false} LookupMisses(b: Buckets, keys: seq<HashKey>, k: nat, q: HashKey, step: nat)
    requires |b| == Pow2(k) && forall i :: 0 <= i < |keys| ==> !KeyEq(keys[i], q)
    ensures Lookup(b, keys, k, q, step) == None
    decreases Pow2(k) - step
  {
    hide KeyEq;
    if step < Pow2(k) {
      LookupMisses(b, keys, k, q, step + 1);
    }
  }

  lemma {:induction false} LookupHits(b: Buckets, keys: seq<HashKey>, k: nat, q: HashKey, i: nat, s: nat, step: nat)
    requires |b| == Pow2(k) && i < |keys| && KeyEq(keys[i], q)
    requires forall j :: 0 <= j < i ==> !KeyEq(keys[j], q)
    requires step <= s < Pow2(k) && b[Position(k, Code(q), s)] == i
    requires forall t :: step <= t < s ==> b[Position(k, Code(q), t)] < i
    ensures Lookup(b, keys, k, q, step) == Some(i)
    decreases s - step
  {
    hide KeyEq, Code, Position;
    if step < s {
      LookupHits(b, keys, k, q, i, s, step + 1);
    }
  }

  /** Searching the simulated table gives the same answer as searching the key list from the front. */
  lemma TableAgreesWithList(keys: seq<HashKey>, k: nat, q: HashKey)
    requires k <= 31 && |keys| <= Pow2(k) && |keys| <= EMPTY
    ensures match Lookup(Table(Codes(keys), k), keys, k, q, 0)
            case Some(i) => i < |keys| && KeyEq(keys[i], q) && forall j :: 0 <= j < i ==> !KeyEq(keys[j], q)
            case None => forall j :: 0 <= j < |keys| ==> !KeyEq(keys[j], q)
  {
    hide KeyEq, Code, Position, Table;
    var b := Table(Codes(keys), k);
    if forall j :: 0 <= j < |keys| ==> !KeyEq(keys[j], q) {
      LookupMisses(b, keys, k, q, 0);
    } else {
      var i := FirstEqual(keys, q);
      TableIndexes(Codes(keys), k);
      assert Stored(b, Codes(keys), k, i);
      EqualKeysSameCode(keys[i], q);
      var s: nat :| s <= i && s < Pow2(k) && b[Position(k, Code(q), s)] == i
                    && forall t :: 0 <= t < s ==> b[Position(k, Code(q), t)] < i;
      LookupHits(b, keys, k, q, i, s, 0);
    }
  }

  lemma {:induction false} FirstEqual(keys: seq<HashKey>, q: HashKey) returns (i: nat)
    requires exists j :: 0 <= j < |keys| && KeyEq(keys[j], q)
    ensures i < |keys| && KeyEq(keys[i], q) && forall j :: 0 <= j < i ==> !KeyEq(keys[j], q)
  {
    hide KeyEq;
    i := 0;
    while !KeyEq(keys[i], q)
      invariant i < |keys| && forall j :: 0 <= j < i ==> !KeyEq(keys[j], q)
      decreases |keys| - i
    {
      i := i + 1;
    }
  }

  // ---- cost ----------------------------------------------------------------------------------

  /** Probes spent filling a table: one past the first empty step of each key. */
  function Cost(hs: seq<nat>, k: nat): nat {
    if hs == [] then 0
    else Cost(hs[..|hs| - 1], k) + FirstEmpty(Table(hs[..|hs| - 1], k), k, hs[|hs| - 1], 0) + 1
  }

  /** Under any hash, key `i` costs at most `i + 1` probes. */
  lemma {:induction false} CostBound(hs: seq<nat>, k: nat)
    requires k <= 31 && |hs| <= Pow2(k) && |hs| <= EMPTY
    ensures |hs| <= Cost(hs, k) <= Triangular(|hs|)
  {
    if hs != [] {
      var init := hs[..|hs| - 1];
      CostBound(init, k);
      TableIndexes(init, k);
      FirstEmptyBound(Table(init, k), k, hs[|hs| - 1]);
      TriangularStep(|hs|);
    }
  }

  lemma TriangularStep(n: nat)
    requires n > 0
    ensures Triangular(n) == Triangular(n - 1) + n
  {
    TriangularIsHalf(n);
    TriangularIsHalf(n - 1);
  }

  /** Every key starts in the same bucket. */
  predicate Colliding(hs: seq<nat>, k: nat) {
    forall i :: 0 <= i < |hs| ==> hs[i] % Pow2(k) == hs[0] % Pow2(k)
  }

  lemma SameBucketSameProbes(k: nat, a: nat, b: nat, s: nat)
    requires k <= 31 && a % Pow2(k) == b % Pow2(k)
    ensures Position(k, a, s) == Position(k, b, s)
  {
    PositionMeaning(k, a, s);
    PositionMeaning(k, b, s);
    ModAdd(a, Triangular(s), Pow2(k));
    ModAdd(b, Triangular(s), Pow2(k));
  }

  /** Colliding keys line up along one probe sequence, key `i` at step `i`. */
  ghost predicate LinedUp(b: Buckets, k: nat, h: nat, n: nat)
    requires |b| == Pow2(k)
  {
    && (forall s :: 0 <= s < n && s < Pow2(k) ==> b[Position(k, h, s)] != EMPTY)
    && (forall s :: n <= s < Pow2(k) ==> b[Position(k, h, s)] == EMPTY)
  }

  lemma LineGrows(b: Buckets, k: nat, h: nat, h': nat, n: nat)
    requires |b| == Pow2(k) && k <= 31 && LinedUp(b, k, h, n) && n < Pow2(k) && n < EMPTY
    requires h % Pow2(k) == h' % Pow2(k)
    ensures FirstEmpty(b, k, h', 0) == n && LinedUp(Insert(b, k, h', n), k, h, n + 1)
  {
    hide Position;
    forall s: nat ensures Position(k, h', s) == Position(k, h, s) {
      SameBucketSameProbes(k, h', h, s);
    }
    var s := FirstEmpty(b, k, h', 0);
    assert b[Position(k, h', n)] == EMPTY;
    assert s <= n;
    forall t | 0 <= t < Pow2(k) && t != n ensures Position(k, h, t) != Position(k, h, n) {
      if t < n {
        ProbesDistinct(k, h, t, n);
      } else {
        ProbesDistinct(k, h, n, t);
      }
    }
  }

  lemma {:induction false} CollisionsLineUp(hs: seq<nat>, k: nat, h: nat)
    requires k <= 31 && |hs| <= Pow2(k) && |hs| <= EMPTY
    requires forall i :: 0 <= i < |hs| ==> hs[i] % Pow2(k) == h % Pow2(k)
    ensures LinedUp(Table(hs, k), k, h, |hs|) && Cost(hs, k) == Triangular(|hs|)
  {
    if hs != [] {
      hide LinedUp, FirstEmpty, Insert;
      var init := hs[..|hs| - 1];
      CollisionsLineUp(init, k, h);
      LineGrows(Table(init, k), k, h, hs[|hs| - 1], |init|);
      TriangularStep(|hs|);
    }
  }

  /** `n` fully colliding keys cost exactly `n (n + 1) / 2` probes. */
  lemma CollisionCost(hs: seq<nat>, k: nat)
    requires k <= 31 && |hs| <= Pow2(k) && |hs| <= EMPTY && Colliding(hs, k)
    ensures Cost(hs, k) == Triangular(|hs|)
  {
    if hs != [] {
      CollisionsLineUp(hs, k, hs[0]);
    }
  }
}
