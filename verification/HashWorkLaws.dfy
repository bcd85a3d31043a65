/**
 * What hash-work admission lets through (artifact_value.zig:859-1038): the exact budgets, what well
 * spread keys and string comparisons cost, and which of the ceilings can ever be the reason.
 */
module HashWorkLaws {
  import opened Arith
  import opened Bits
  import opened Capsule
  import opened Graph
  import opened HashCodes
  import opened HashKeys
  import opened HashTable
  import opened HashWork
  import opened Probing
  import opened Results

  // ---- spread keys are cheap -----------------------------------------------------------------

  /** The keys' codes select pairwise different buckets. */
  predicate Spread(hs: seq<nat>, k: nat) {
    forall i, j :: 0 <= i < j < |hs| ==> hs[i] % Pow2(k) != hs[j] % Pow2(k)
  }

  /** Only first-choice buckets are taken. */
  ghost predicate FirstChoices(b: Buckets, hs: seq<nat>, k: nat)
    requires |b| == Pow2(k)
  {
    forall p :: 0 <= p < |b| && b[p] != EMPTY ==> exists i :: 0 <= i < |hs| && hs[i] % Pow2(k) == p
  }

  lemma FirstProbe(k: nat, h: nat)
    requires k <= 31
    ensures Position(k, h, 0) == h % Pow2(k)
  {
    PositionMeaning(k, h, 0);
  }

  /** Keys that start in pairwise different buckets cost one probe each. */
  lemma {:induction false} SpreadCost(hs: seq<nat>, k: nat)
    requires k <= 31 && Spread(hs, k)
    ensures Cost(hs, k) == |hs| && FirstChoices(Table(hs, k), hs, k)
  {
    if hs != [] {
      var init, h := hs[..|hs| - 1], hs[|hs| - 1];
      SpreadCost(init, k);
      SpreadStep(Table(init, k), init, k, h);
      assert hs == init + [h];
    }
  }

  lemma SpreadStep(b: Buckets, init: seq<nat>, k: nat, h: nat)
    requires |b| == Pow2(k) && k <= 31 && FirstChoices(b, init, k) && Spread(init + [h], k)
    ensures FirstEmpty(b, k, h, 0) == 0 && FirstChoices(Insert(b, k, h, |init|), init + [h], k)
  {
    hide Pow2, Position;
    FirstProbe(k, h);
    var hs, p := init + [h], Position(k, h, 0);
    assert hs[|init|] == h && forall i :: 0 <= i < |init| ==> hs[i] == init[i];
    assert FirstEmpty(b, k, h, 0) == 0;
    var b' := Insert(b, k, h, |init|);
    forall q | 0 <= q < |b'| && b'[q] != EMPTY ensures exists i :: 0 <= i < |hs| && hs[i] % Pow2(k) == q {
      if q == p {
        assert hs[|init|] % Pow2(k) == q;
      } else {
        var i :| 0 <= i < |init| && init[i] % Pow2(k) == q;
        assert hs[i] % Pow2(k) == q;
      }
    }
  }

  /** After a prefix, every further key costs at most one probe per key already there, and one. */
  lemma {:induction false} CostAfterPrefix(hs: seq<nat>, k: nat, m: nat)
    requires k <= 31 && m <= |hs| <= Pow2(k) && |hs| <= EMPTY
    ensures Cost(hs, k) <= Cost(hs[..m], k) + Triangular(|hs|) - Triangular(m)
  {
    hide Triangular, FirstEmpty;
    if m == |hs| {
      assert hs[..m] == hs;
    } else {
      var init := hs[..|hs| - 1];
      CostAfterPrefix(init, k, m);
      assert init[..m] == hs[..m];
      TableIndexes(init, k);
      FirstEmptyBound(Table(init, k), k, hs[|hs| - 1]);
      TriangularStep(|hs|);
    }
  }

  // ---- twenty-four integers ------------------------------------------------------------------

  function Integers(n: nat): (keys: seq<HashKey>)
    ensures |keys| == n && forall i :: 0 <= i < n ==> keys[i] == IntKey(i)
  {
    seq(n, i => IntKey(i))
  }

  lemma SmallMixes()
    ensures Mix(0) == 0 && Mix(1) == 5 && Mix(2) == 10 && Mix(3) == 15 && Mix(4) == 21 && Mix(5) == 16
  {
    hide Xor;
    SmallXors();
    XorZero(0);
    XorZero(5);
    XorZero(10);
    XorZero(15);
  }

  lemma SmallXors()
    ensures Xor(0, 0) == 0 && Xor(1, 4) == 5 && Xor(2, 8) == 10 && Xor(3, 12) == 15 && Xor(4, 16) == 20
    ensures Xor(20, 1) == 21 && Xor(5, 20) == 17 && Xor(17, 1) == 16
  {
  }

  lemma ThirtyTwoBuckets()
    ensures Pow2(5) == 32 && Exponent(24) == 5
  {
    assert Pow2(5) == 32 && Pow2(4) == 16;
    LeastRoomyUnique(Exponent(24), 5, 24);
  }

  /** The Hash with the integer keys 0 to 23 is admitted: ordinary keys stay far from the budget. */
  lemma TwentyFourIntegers()
    ensures exists p :: 24 <= p <= 285 && Admit(NO_WORK, Integers(24)) == Ok(Work(24, p, 0))
  {
    hide Probes, Comparisons, Admit;
    var keys := Integers(24);
    IntegersCost();
    NothingCompared();
    AdmittedAt(keys, Probes(keys));
  }

  lemma NothingCompared()
    ensures Comparisons(Integers(24)) == 0
  {
    hide Probes, Comparisons;
    assert Uniform(Integers(24), 0);
    ComparisonsMeaning(Integers(24), 0);
  }

  lemma AdmittedAt(keys: seq<HashKey>, p: nat)
    requires |keys| == 24 && Probes(keys) == p <= 285 && Comparisons(keys) == 0
    ensures Admit(NO_WORK, keys) == Ok(Work(24, p, 0))
  {
    hide Probes, Comparisons;
  }

  lemma IntegersCost()
    ensures 24 <= Probes(Integers(24)) <= 285
  {
    hide Mix, Cost, Triangular, Code, Pow2;
    var hs := Codes(Integers(24));
    ThirtyTwoBuckets();
    FirstSix();
    SixSpread();
    SpreadCost(hs[..6], 5);
    CostAfterPrefix(hs, 5, 6);
    CostBound(hs, 5);
    TriangularIsHalf(24);
    TriangularIsHalf(6);
  }

  lemma FirstSix()
    ensures Codes(Integers(24))[..6] == [0, 5, 10, 15, 21, 16]
  {
    hide Mix;
    SmallMixes();
    var hs := Codes(Integers(24));
    assert hs[0] == Mix(0) && hs[1] == Mix(1) && hs[2] == Mix(2) && hs[3] == Mix(3) && hs[4] == Mix(4);
    assert hs[5] == Mix(5);
  }

  lemma SixSpread()
    ensures Spread([0, 5, 10, 15, 21, 16], 5)
  {
    ThirtyTwoBuckets();
  }

  // ---- comparison bytes ----------------------------------------------------------------------

  /** Every two of the keys cost `c` bytes to compare: equally long strings, or no strings at all. */
  predicate Uniform(keys: seq<HashKey>, c: nat) {
    forall i, j :: 0 <= i < |keys| && 0 <= j < |keys| && i != j ==> CompareCost(keys[i], keys[j]) == c
  }

  lemma {:induction false} BelowMeaning(keys: seq<HashKey>, c: nat, i: nat, j: nat)
    requires Uniform(keys, c) && j <= i < |keys|
    ensures CompareBelow(keys, i, j) == c * j
    decreases j
  {
    hide CompareCost;
    if j > 0 {
      BelowMeaning(keys, c, i, j - 1);
      MulAdd(c, j - 1, 1);
    }
  }

  lemma {:induction false} ArrayMeaning(keys: seq<HashKey>, c: nat, n: nat)
    requires Uniform(keys, c) && n <= |keys|
    ensures n <= Triangular(n) && ArrayComparisons(keys, n) == c * (Triangular(n) - n)
    decreases n
  {
    hide Uniform, Triangular;
    if n == 0 {
      TriangularIsHalf(0);
    } else {
      ArrayMeaning(keys, c, n - 1);
      BelowMeaning(keys, c, n - 1, n - 1);
      TriangularStep(n);
      MulAdd(c, Triangular(n - 1) - (n - 1), n - 1);
    }
  }

  lemma {:induction false} ProbedMeaning(b: Buckets, keys: seq<HashKey>, k: nat, c: nat, i: nat, s: nat)
    requires |b| == Pow2(k) && Uniform(keys, c) && i < |keys|
    requires forall t :: 0 <= t < s ==> b[Position(k, Code(keys[i]), t)] < i
    ensures ProbeComparisons(b, keys, k, i, s) == c * s
    decreases s
  {
    hide Position, Code, CompareCost;
    if s > 0 {
      ProbedMeaning(b, keys, k, c, i, s - 1);
      MulAdd(c, s - 1, 1);
    }
  }

  lemma {:induction false} TableMeaning(keys: seq<HashKey>, k: nat, c: nat, n: nat)
    requires k <= 31 && Uniform(keys, c) && n <= |keys| <= Pow2(k) && |keys| <= EMPTY
    ensures n <= Cost(Codes(keys)[..n], k) && TableComparisons(keys, k, n) == c * (Cost(Codes(keys)[..n], k) - n)
    decreases n
  {
    hide Uniform, TableComparisons, Cost, Code, Pow2;
    if n == 0 {
      NothingInserted(keys, k);
    } else {
      TableMeaning(keys, k, c, n - 1);
      var s := TableStep(keys, k, c, n);
      MulAdd(c, Cost(Codes(keys)[..n - 1], k) - (n - 1), s);
    }
  }

  lemma NothingInserted(keys: seq<HashKey>, k: nat)
    ensures Cost(Codes(keys)[..0], k) == 0 && TableComparisons(keys, k, 0) == 0
  {
  }

  /** One insertion: `s` probes meet earlier keys, and one more finds the empty bucket. */
  lemma TableStep(keys: seq<HashKey>, k: nat, c: nat, n: nat) returns (s: nat)
    requires k <= 31 && Uniform(keys, c) && 0 < n <= |keys| <= Pow2(k) && |keys| <= EMPTY
    ensures Cost(Codes(keys)[..n], k) == Cost(Codes(keys)[..n - 1], k) + s + 1
    ensures TableComparisons(keys, k, n) == TableComparisons(keys, k, n - 1) + c * s
  {
    hide Uniform, Code, Position, Pow2, FirstEmpty, Table;
    var hs := Codes(keys)[..n - 1];
    assert Codes(keys)[..n][..n - 1] == hs && Codes(keys)[..n][n - 1] == Code(keys[n - 1]);
    s := FirstEmpty(Table(hs, k), k, Code(keys[n - 1]), 0);
    AllMet(hs, k, Code(keys[n - 1]));
    ProbedMeaning(Table(hs, k), keys, k, c, n - 1, s);
  }

  /** Whatever a probe sequence meets before its empty bucket is an earlier key. */
  lemma AllMet(hs: seq<nat>, k: nat, h: nat)
    requires k <= 31 && |hs| <= Pow2(k) && |hs| <= EMPTY
    ensures var b := Table(hs, k);
            forall t :: 0 <= t < FirstEmpty(b, k, h, 0) ==> b[Position(k, h, t)] < |hs|
  {
    hide Table, Position, FirstEmpty, Pow2, Stored, Occupied;
    TableIndexes(hs, k);
  }

  /**
   * Every probe but the last one of an insertion compares the new key with an earlier one: if each
   * comparison costs `c` bytes, the hash costs `c` bytes for each probe beyond the number of pairs.
   */
  lemma ComparisonsMeaning(keys: seq<HashKey>, c: nat)
    requires |keys| <= MAX_HASH_PAIRS && Uniform(keys, c)
    ensures |keys| <= Probes(keys) && Comparisons(keys) == c * (Probes(keys) - |keys|)
  {
    hide Uniform, Cost, ArrayComparisons, TableComparisons, Triangular;
    if |keys| <= ARRAY_MAX {
      ArrayMeaning(keys, c, |keys|);
    } else {
      var k := Exponent(|keys|);
      TwentyBits();
      Pow2Monotone(k, 20);
      hide Pow2, LeastRoomy;
      TableMeaning(keys, k, c, |keys|);
      assert Codes(keys)[..|keys|] == Codes(keys);
    }
  }

  /** Equally long string keys, `n` of them up to 16: each is compared with all before it, byte by byte. */
  lemma EqualLengthStrings(keys: seq<HashKey>, length: nat)
    requires |keys| <= 16 && forall i :: 0 <= i < |keys| ==> keys[i].StringKey? && |keys[i].bytes| == length
    ensures 2 * Comparisons(keys) == length * (|keys| * |keys| - |keys|)
  {
    hide Comparisons, Triangular;
    ComparisonsMeaning(keys, length);
    assert Probes(keys) == Triangular(|keys|);
    hide Probes;
    PairsOfKeys(|keys|);
    Doubled(length, Triangular(|keys|) - |keys|);
  }

  lemma PairsOfKeys(n: nat)
    ensures 2 * (Triangular(n) - n) == n * n - n
  {
    hide Triangular;
    TriangularIsHalf(n);
    MulAdd(n, n, 1);
  }

  lemma Doubled(c: int, d: int)
    ensures 2 * (c * d) == c * (2 * d)
  {
  }

  // ---- the ceilings --------------------------------------------------------------------------

  /** A hash within its own budget costs at most 12 probes a pair. */
  lemma ProbesPerPair(keys: seq<HashKey>)
    requires |keys| <= 250_000
    requires Probes(keys) <= (if 136 >= 12 * |keys| then 136 else 12 * |keys|)
    ensures Probes(keys) <= 12 * |keys|
  {
    hide Cost, Triangular;
    var n := |keys|;
    if n <= 11 {
      TriangularIsHalf(n);
      ProductBound(n, n + 1, 24);
    }
  }

  /**
   * The verdict on one hash, in numbers. The ceiling on all probes of a capsule is not among the
   * reasons: within the other two budgets it cannot be reached.
   */
  lemma AdmitVerdict(w: Work, keys: seq<HashKey>)
    requires w.pairs <= 250_000 && w.probes <= 12 * w.pairs
    ensures Admit(w, keys).Ok? <==>
            && w.pairs + |keys| <= 250_000
            && Probes(keys) <= (if 136 >= 12 * |keys| then 136 else 12 * |keys|)
            && w.comparisonBytes + Comparisons(keys) <= 134_217_728
    ensures Admit(w, keys).Ok? ==>
              && Admit(w, keys).value.pairs == w.pairs + |keys|
              && Admit(w, keys).value.probes == w.probes + Probes(keys) <= 12 * Admit(w, keys).value.pairs
              && Admit(w, keys).value.comparisonBytes == w.comparisonBytes + Comparisons(keys)
  {
    hide Probes, Comparisons;
    if w.pairs + |keys| <= 250_000 && Probes(keys) <= (if 136 >= 12 * |keys| then 136 else 12 * |keys|) {
      ProbesPerPair(keys);
    }
  }

  // ---- a whole capsule -----------------------------------------------------------------------

  /** The keys of node `i`, if it is a hash and they are legal. */
  function KeysAt(g: Graph, i: nat): seq<HashKey>
    requires i < |g.objs|
  {
    if g.objs[i].kind == HashKind && KeysNormal(g, g.objs[i]) then KeysOf(g, g.objs[i]) else []
  }

  ghost function BytesAt(g: Graph, i: nat): nat
    requires i < |g.objs|
  {
    if |KeysAt(g, i)| <= MAX_HASH_PAIRS then Comparisons(KeysAt(g, i)) else 0
  }

  /** Hash pairs in the nodes from `i` on, and what comparing their keys costs. */
  function PairsFrom(g: Graph, i: nat): nat
    requires i <= |g.objs|
    decreases |g.objs| - i
  {
    if i == |g.objs| then 0 else |KeysAt(g, i)| + PairsFrom(g, i + 1)
  }

  ghost function BytesFrom(g: Graph, i: nat): nat
    requires i <= |g.objs|
    decreases |g.objs| - i
  {
    if i == |g.objs| then 0 else BytesAt(g, i) + BytesFrom(g, i + 1)
  }

  /** A hash with legal, pairwise unequal keys that stays within its own probe budget. */
  ghost predicate HashFine(g: Graph, i: nat)
    requires i < |g.objs|
  {
    g.objs[i].kind == HashKind ==>
      && KeysNormal(g, g.objs[i]) && PairwiseUnequal(KeysAt(g, i)) && |KeysAt(g, i)| <= 250_000
      && Probes(KeysAt(g, i)) <= (if 136 >= 12 * |KeysAt(g, i)| then 136 else 12 * |KeysAt(g, i)|)
  }

  lemma {:induction false} HashesAdmitted(g: Graph, i: nat, w: Work)
    requires i <= |g.objs| && w.pairs <= 250_000 && w.probes <= 12 * w.pairs && w.comparisonBytes <= 134_217_728
    ensures CheckNodes(g, i, w).Ok? <==>
            && (forall k :: i <= k < |g.objs| ==> HashFine(g, k))
            && w.pairs + PairsFrom(g, i) <= 250_000 && w.comparisonBytes + BytesFrom(g, i) <= 134_217_728
    decreases |g.objs| - i
  {
    hide HashFine, CheckNode, KeysAt, BytesAt;
    if i < |g.objs| {
      NodeAdmitted(g, i, w);
      var v := CheckNode(g, i, w);
      if v.Ok? {
        HashesAdmitted(g, i + 1, v.value);
      }
    }
  }

  /** The verdict on one node. */
  lemma NodeAdmitted(g: Graph, i: nat, w: Work)
    requires i < |g.objs| && w.pairs <= 250_000 && w.probes <= 12 * w.pairs && w.comparisonBytes <= 134_217_728
    ensures CheckNode(g, i, w).Ok? <==>
            && HashFine(g, i) && w.pairs + |KeysAt(g, i)| <= 250_000
            && w.comparisonBytes + BytesAt(g, i) <= 134_217_728
    ensures CheckNode(g, i, w).Ok? ==>
              var w' := CheckNode(g, i, w).value;
              && w'.pairs == w.pairs + |KeysAt(g, i)| && w'.comparisonBytes == w.comparisonBytes + BytesAt(g, i)
              && w'.probes <= 12 * w'.pairs
  {
    hide KeysOf, KeysNormal, Probes, Comparisons, Admit, PairwiseUnequal;
    AdmitVerdict(w, KeysAt(g, i));
    NothingToCompare();
  }

  lemma NothingToCompare()
    ensures Comparisons([]) == 0
  {
  }

  /**
   * Hash admission of a whole capsule, without the order of its checks: every hash has legal,
   * pairwise unequal keys and stays within its own probe budget, there are at most 250,000 pairs in
   * all, and the simulated insertions compare at most 128 MiB of strings.
   */
  lemma AdmissionExactly(g: Graph)
    ensures CheckNodes(g, 0, NO_WORK).Ok? <==>
            && (forall i :: 0 <= i < |g.objs| ==> HashFine(g, i))
            && PairsFrom(g, 0) <= 250_000 && BytesFrom(g, 0) <= 134_217_728
  {
    HashesAdmitted(g, 0, NO_WORK);
  }
}
