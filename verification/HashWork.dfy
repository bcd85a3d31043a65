/**
 * Hash-work admission (artifact_value.zig:859-1047): the probe and comparison budgets charged while
 * the interpreter's own insertions are simulated, per hash and over the whole capsule.
 */
module HashWork {
  import opened Bits
  import opened HashKeys
  import opened HashTable
  import opened Probing
  import opened Results

  const MAX_HASH_PAIRS: nat := 250_000
  const MAX_CAPSULE_PROBES: nat := 4_000_000
  const MAX_COMPARISON_BYTES: nat := 128 * 1024 * 1024

  datatype Work = Work(pairs: nat, probes: nat, comparisonBytes: nat)

  function PerHashLimit(n: nat): nat {
    if 136 >= 12 * n then 136 else 12 * n
  }

  /** addStringComparison: equally long strings are compared byte by byte. */
  function CompareCost(a: HashKey, b: HashKey): nat {
    if a.StringKey? && b.StringKey? && |a.bytes| == |b.bytes| then |b.bytes| else 0
  }

  // ---- what inserting a key list costs -------------------------------------------------------

  /** Comparing key `i` with the first `j` keys. */
  function CompareBelow(keys: seq<HashKey>, i: nat, j: nat): nat
    requires j <= i < |keys|
  {
    if j == 0 then 0 else CompareBelow(keys, i, j - 1) + CompareCost(keys[i], keys[j - 1])
  }

  function ArrayComparisons(keys: seq<HashKey>, n: nat): nat
    requires n <= |keys|
  {
    if n == 0 then 0 else ArrayComparisons(keys, n - 1) + CompareBelow(keys, n - 1, n - 1)
  }

  /** Comparing key `i` with the keys met in the first `s` steps of its probe sequence. */
  function ProbeComparisons(b: Buckets, keys: seq<HashKey>, k: nat, i: nat, s: nat): nat
    requires |b| == Pow2(k) && i < |keys|
  {
    if s == 0 then 0
    else
      var met := b[Position(k, Code(keys[i]), s - 1)];
      ProbeComparisons(b, keys, k, i, s - 1) + (if met < |keys| then CompareCost(keys[i], keys[met]) else 0)
  }

  function TableComparisons(keys: seq<HashKey>, k: nat, n: nat): nat
    requires n <= |keys|
  {
    if n == 0 then 0
    else
      var b := Table(Codes(keys)[..n - 1], k);
      TableComparisons(keys, k, n - 1)
      + ProbeComparisons(b, keys, k, n - 1, FirstEmpty(b, k, Code(keys[n - 1]), 0))
  }

  ghost function Exponent(n: nat): (k: nat)
    requires ARRAY_MAX < n <= MAX_HASH_PAIRS
    ensures LeastRoomy(k, n) && k <= 20
  {
    ExponentExists(n);
    var k: nat :| LeastRoomy(k, n);
    ExponentSmall(k, n);
    k
  }

  lemma ExponentExists(n: nat)
    requires ARRAY_MAX < n <= MAX_HASH_PAIRS
    ensures exists k: nat :: LeastRoomy(k, n)
  {
    TwentyBits();
    var k := 20;
    while k > 0 && Roomy(Pow2(k - 1), n)
      invariant 0 <= k <= 20 && Roomy(Pow2(k), n)
    {
      k := k - 1;
    }
    assert LeastRoomy(k, n);
  }

  lemma ExponentSmall(k: nat, n: nat)
    requires n <= MAX_HASH_PAIRS && LeastRoomy(k, n)
    ensures k <= 20
  {
    TwentyBits();
    if k > 20 {
      Pow2Monotone(20, k - 1);
    }
  }

  lemma TwentyBits()
    ensures Pow2(20) == 0x10_0000
  {
    assert Pow2(10) == 0x400;
    Pow2Add(10, 10);
  }

  /** Probes the interpreter spends inserting these keys in order. */
  ghost function Probes(keys: seq<HashKey>): nat
    requires |keys| <= MAX_HASH_PAIRS
  {
    if |keys| <= ARRAY_MAX then Triangular(|keys|) else Cost(Codes(keys), Exponent(|keys|))
  }

  ghost function Comparisons(keys: seq<HashKey>): nat
    requires |keys| <= MAX_HASH_PAIRS
  {
    if |keys| <= ARRAY_MAX then ArrayComparisons(keys, |keys|)
    else TableComparisons(keys, Exponent(|keys|), |keys|)
  }

  /** The running totals once a hash with these keys has been charged, or the refusal. */
  ghost function Admit(w: Work, keys: seq<HashKey>): Result<Work> {
    if w.pairs + |keys| > MAX_HASH_PAIRS then Err(CapsuleLimitExceeded)
    else
      var w' := Work(w.pairs + |keys|, w.probes + Probes(keys), w.comparisonBytes + Comparisons(keys));
      if Probes(keys) > PerHashLimit(|keys|) || w'.probes > MAX_CAPSULE_PROBES
         || w'.comparisonBytes > MAX_COMPARISON_BYTES
      then Err(CapsuleLimitExceeded) else Ok(w')
  }

  // ---- the boundaries ------------------------------------------------------------------------

  /** Where the triangular worst case crosses the per-hash budget. */
  lemma BudgetCrossing(n: nat)
    ensures Triangular(n) <= PerHashLimit(n) <==> n <= 23
  {
    TriangularIsHalf(n);
    if n <= ARRAY_MAX {
      TriangularMonotone(n, ARRAY_MAX);
      assert Triangular(ARRAY_MAX) == 136;
    } else if n <= 23 {
      ProductBound(n, n + 1, 24);
    } else {
      ProductBound(n, 25, n + 1);
    }
  }

  lemma ProductBound(n: nat, a: nat, b: nat)
    requires a <= b
    ensures n * a <= n * b
  {
  }

  /** With at most 23 pairs the per-hash budget is never the reason for a refusal, under any hash codes. */
  lemma SmallHashesNeverRefused(keys: seq<HashKey>)
    requires |keys| <= 23
    ensures Probes(keys) <= PerHashLimit(|keys|)
  {
    hide Cost, Triangular, PerHashLimit;
    BudgetCrossing(|keys|);
    if |keys| > ARRAY_MAX {
      var k := Exponent(|keys|);
      CostBound(Codes(keys), k) by {
        TwentyBits();
        Pow2Monotone(k, 20);
      }
    }
  }

  /** From 24 pairs on, keys whose codes agree modulo the capacity are always refused. */
  lemma FullCollisionsRefused(keys: seq<HashKey>)
    requires 24 <= |keys| <= MAX_HASH_PAIRS && Colliding(Codes(keys), Exponent(|keys|))
    ensures Probes(keys) == Triangular(|keys|) > PerHashLimit(|keys|)
  {
    hide Cost, Triangular, PerHashLimit, Colliding;
    BudgetCrossing(|keys|);
    CollisionCost(Codes(keys), Exponent(|keys|));
  }

  /** Integers that agree in their low 32 bits collide fully, at any capacity. */
  lemma EqualLowWordsCollide(keys: seq<HashKey>, k: nat, low: nat)
    requires forall i :: 0 <= i < |keys| ==> keys[i].IntKey? && keys[i].i % 0x1_0000_0000 == low
    ensures Colliding(Codes(keys), k)
  {
    forall i | 0 <= i < |keys| ensures Codes(keys)[i] == Codes(keys)[0] {
      assert Code(keys[i]) == Mix(low) && Code(keys[0]) == Mix(low);
    }
  }

  // ---- monotone partial sums -----------------------------------------------------------------

  lemma {:induction false} CostPrefix(hs: seq<nat>, k: nat, n: nat)
    requires n <= |hs|
    ensures Cost(hs[..n], k) <= Cost(hs, k)
    decreases |hs| - n
  {
    if n < |hs| {
      hide FirstEmpty, Table;
      assert hs[..n + 1][..n] == hs[..n];
      CostPrefix(hs, k, n + 1);
    } else {
      assert hs[..n] == hs;
    }
  }

  lemma {:induction false} ProbeComparisonsGrow(b: Buckets, keys: seq<HashKey>, k: nat, i: nat, s: nat, t: nat)
    requires |b| == Pow2(k) && i < |keys| && s <= t
    ensures ProbeComparisons(b, keys, k, i, s) <= ProbeComparisons(b, keys, k, i, t)
    decreases t - s
  {
    if s < t {
      ProbeComparisonsGrow(b, keys, k, i, s, t - 1);
    }
  }

  lemma {:induction false} TableComparisonsGrow(keys: seq<HashKey>, k: nat, m: nat, n: nat)
    requires m <= n <= |keys|
    ensures TableComparisons(keys, k, m) <= TableComparisons(keys, k, n)
    decreases n - m
  {
    if m < n {
      TableComparisonsGrow(keys, k, m, n - 1);
    }
  }

  lemma {:induction false} CompareBelowGrows(keys: seq<HashKey>, i: nat, j: nat, m: nat)
    requires j <= m <= i < |keys|
    ensures CompareBelow(keys, i, j) <= CompareBelow(keys, i, m)
    decreases m - j
  {
    if j < m {
      CompareBelowGrows(keys, i, j, m - 1);
    }
  }

  lemma {:induction false} ArrayComparisonsGrow(keys: seq<HashKey>, m: nat, n: nat)
    requires m <= n <= |keys|
    ensures ArrayComparisons(keys, m) <= ArrayComparisons(keys, n)
    decreases n - m
  {
    if m < n {
      ArrayComparisonsGrow(keys, m, n - 1);
    }
  }

  lemma TriangularMonotone(m: nat, n: nat)
    requires m <= n
    ensures Triangular(m) <= Triangular(n)
  {
    hide Triangular;
    TriangularIsHalf(m);
    TriangularIsHalf(n);
    ProductBound(m, m + 1, n + 1);
    ProductBound(n + 1, m, n);
  }

  // ---- the simulation ------------------------------------------------------------------------

  /** The counters simulateHashInsertion updates: the capsule's totals and the current hash's probes. */
  class Meter {
    var totalPairs: nat
    var totalProbes: nat
    var comparisonBytes: nat
    var hashProbes: nat

    constructor ()
      ensures totalPairs == 0 && totalProbes == 0 && comparisonBytes == 0 && hashProbes == 0
    {
      totalPairs, totalProbes, comparisonBytes, hashProbes := 0, 0, 0, 0;
    }

    ghost function Totals(): Work
      reads this
    {
      Work(totalPairs, totalProbes, comparisonBytes)
    }

    /** addHashProbe. */
    method AddHashProbe(perHashLimit: nat) returns (result: Result<()>)
      modifies this`hashProbes, this`totalProbes
      ensures hashProbes == old(hashProbes) + 1 && totalProbes == old(totalProbes) + 1
      ensures result == if hashProbes > perHashLimit || totalProbes > MAX_CAPSULE_PROBES
                        then Err(CapsuleLimitExceeded) else Ok(())
    {
      hashProbes := hashProbes + 1;
      totalProbes := totalProbes + 1;
      result := if hashProbes > perHashLimit || totalProbes > MAX_CAPSULE_PROBES
                then Err(CapsuleLimitExceeded) else Ok(());
    }

    /** addStringComparison. */
    method AddStringComparison(key: HashKey, prior: HashKey) returns (result: Result<()>)
      modifies this`comparisonBytes
      ensures comparisonBytes == old(comparisonBytes) + CompareCost(key, prior)
      ensures old(comparisonBytes) <= MAX_COMPARISON_BYTES ==>
                result == if comparisonBytes > MAX_COMPARISON_BYTES then Err(CapsuleLimitExceeded) else Ok(())
    {
      if !key.StringKey? || !prior.StringKey? || |key.bytes| != |prior.bytes| {
        return Ok(());
      }
      comparisonBytes := comparisonBytes + |key.bytes|;
      result := if comparisonBytes > MAX_COMPARISON_BYTES then Err(CapsuleLimitExceeded) else Ok(());
    }

    ghost predicate Within(perHashLimit: nat)
      reads this
    {
      && hashProbes <= perHashLimit
      && totalProbes <= MAX_CAPSULE_PROBES && comparisonBytes <= MAX_COMPARISON_BYTES
    }

    /** The linear phase: every earlier key is compared, then one terminal probe. */
    method InsertIntoArray(keys: seq<HashKey>, perHashLimit: nat) returns (result: Result<()>)
      requires |keys| <= ARRAY_MAX && hashProbes == 0 && Within(perHashLimit)
      modifies this`hashProbes, this`totalProbes, this`comparisonBytes
      ensures result.Ok? <==>
              && Triangular(|keys|) <= perHashLimit
              && old(totalProbes) + Triangular(|keys|) <= MAX_CAPSULE_PROBES
              && old(comparisonBytes) + ArrayComparisons(keys, |keys|) <= MAX_COMPARISON_BYTES
      ensures result.Ok? ==>
                && totalProbes == old(totalProbes) + Triangular(|keys|)
                && comparisonBytes == old(comparisonBytes) + ArrayComparisons(keys, |keys|)
      ensures result.Err? ==> result.error == CapsuleLimitExceeded
    {
      hide CompareCost, Triangular;
      TriangularIsHalf(0);
      for i := 0 to |keys|
        invariant Within(perHashLimit) && hashProbes == Triangular(i)
        invariant totalProbes == old(totalProbes) + Triangular(i)
        invariant comparisonBytes == old(comparisonBytes) + ArrayComparisons(keys, i)
      {
        TriangularStep(i + 1);
        TriangularMonotone(i + 1, |keys|);
        ArrayComparisonsGrow(keys, i + 1, |keys|);
        for j := 0 to i
          invariant Within(perHashLimit) && hashProbes == Triangular(i) + j
          invariant totalProbes == old(totalProbes) + Triangular(i) + j
          invariant comparisonBytes == old(comparisonBytes) + ArrayComparisons(keys, i) + CompareBelow(keys, i, j)
        {
          CompareBelowGrows(keys, i, j + 1, i);
          var _ :- AddHashProbe(perHashLimit);
          var _ :- AddStringComparison(keys[i], keys[j]);
        }
        var _ :- AddHashProbe(perHashLimit);
      }
      result := Ok(());
    }

    /** Insert key `i`: probe until an empty bucket, comparing with every key met on the way. */
    method InsertKey(buckets: array<nat>, keys: seq<HashKey>, ghost k: nat, i: nat, perHashLimit: nat)
      returns (result: Result<()>)
      requires k <= 31 && buckets.Length == Pow2(k) && i < |keys| < EMPTY && |keys| < Pow2(k)
      requires Indexes(buckets[..], Codes(keys)[..i], k) && Within(perHashLimit)
      modifies buckets, this`hashProbes, this`totalProbes, this`comparisonBytes
      ensures var was := old(buckets[..]);
              var s := FirstEmpty(was, k, Code(keys[i]), 0);
              && (result.Ok? <==>
                  && old(hashProbes) + s + 1 <= perHashLimit
                  && old(totalProbes) + s + 1 <= MAX_CAPSULE_PROBES
                  && old(comparisonBytes) + ProbeComparisons(was, keys, k, i, s) <= MAX_COMPARISON_BYTES)
              && (result.Ok? ==>
                  && buckets[..] == Insert(was, k, Code(keys[i]), i)
                  && hashProbes == old(hashProbes) + s + 1
                  && totalProbes == old(totalProbes) + s + 1
                  && comparisonBytes == old(comparisonBytes) + ProbeComparisons(was, keys, k, i, s))
      ensures result.Err? ==> result.error == CapsuleLimitExceeded
    {
      hide Position, Code, CompareCost;
      ghost var was := buckets[..];
      var code := Code(keys[i]);
      ghost var s := FirstEmpty(was, k, code, 0);
      FirstEmptyBound(was, k, code);
      var capacity := buckets.Length;
      var step := 0;
      while true
        invariant Within(perHashLimit) && step <= s && buckets[..] == was
        invariant hashProbes == old(hashProbes) + step && totalProbes == old(totalProbes) + step
        invariant comparisonBytes == old(comparisonBytes) + ProbeComparisons(was, keys, k, i, step)
        decreases s - step
      {
        var _ :- AddHashProbe(perHashLimit);
        var position := MaskedPosition(capacity, k, code, step);
        var prior := buckets[position];
        assert prior == was[position];
        if prior == EMPTY {
          buckets[position] := i;
          break;
        }
        ProbeComparisonsGrow(was, keys, k, i, step + 1, s);
        var _ :- AddStringComparison(keys[i], keys[prior]);
        step := step + 1;
      }
      result := Ok(());
    }

    /** The table phase. */
    method InsertIntoTable(keys: seq<HashKey>, perHashLimit: nat) returns (result: Result<()>)
      requires ARRAY_MAX < |keys| <= MAX_HASH_PAIRS && hashProbes == 0 && Within(perHashLimit)
      modifies this`hashProbes, this`totalProbes, this`comparisonBytes
      ensures result.Ok? <==>
              && Probes(keys) <= perHashLimit
              && old(totalProbes) + Probes(keys) <= MAX_CAPSULE_PROBES
              && old(comparisonBytes) + Comparisons(keys) <= MAX_COMPARISON_BYTES
      ensures result.Ok? ==>
                && totalProbes == old(totalProbes) + Probes(keys)
                && comparisonBytes == old(comparisonBytes) + Comparisons(keys)
      ensures result.Err? ==> result.error == CapsuleLimitExceeded
    {
      hide Code, CompareCost, FirstEmpty, Insert, ProbeComparisons, Table, Cost, TableComparisons, Codes, Indexes;
      var capacity, k := CapacityOf(|keys|);
      var buckets := new nat[capacity](_ => EMPTY);
      ghost var hs := Codes(keys);
      StartOfTable(keys, k);
      assert buckets[..] == EmptyTable(k);
      for i := 0 to |keys|
        invariant Within(perHashLimit) && fresh(buckets) && buckets[..] == Table(hs[..i], k)
        invariant hashProbes == Cost(hs[..i], k) && totalProbes == old(totalProbes) + Cost(hs[..i], k)
        invariant comparisonBytes == old(comparisonBytes) + TableComparisons(keys, k, i)
      {
        StepOfTable(keys, k, i);
        var _ :- InsertKey(buckets, keys, k, i, perHashLimit);
      }
      assert hs[..|keys|] == hs;
      result := Ok(());
    }

    /** simulateHashInsertion, behind the capsule-wide pair ceiling. */
    method Simulate(keys: seq<HashKey>) returns (result: Result<()>)
      requires Totals().pairs <= MAX_HASH_PAIRS
      requires totalProbes <= MAX_CAPSULE_PROBES && comparisonBytes <= MAX_COMPARISON_BYTES
      modifies this
      ensures match Admit(old(Totals()), keys)
              case Ok(w) => result == Ok(()) && Totals() == w
              case Err(e) => result == Err(e)
    {
      hide Probes, Comparisons, PerHashLimit;
      if |keys| > MAX_HASH_PAIRS - totalPairs {
        return Err(CapsuleLimitExceeded);
      }
      totalPairs := totalPairs + |keys|;
      hashProbes := 0;
      ArrayMeaning(keys);
      if |keys| <= ARRAY_MAX {
        var _ :- InsertIntoArray(keys, PerHashLimit(|keys|));
      } else {
        var _ :- InsertIntoTable(keys, PerHashLimit(|keys|));
      }
      result := Ok(());
    }
  }

  lemma StartOfTable(keys: seq<HashKey>, k: nat)
    ensures Table(Codes(keys)[..0], k) == EmptyTable(k)
    ensures Cost(Codes(keys)[..0], k) == 0 && TableComparisons(keys, k, 0) == 0
  {
  }

  /** What one key adds to the table and to both sums, which stay below their totals. */
  lemma StepOfTable(keys: seq<HashKey>, k: nat, i: nat)
    requires i < |keys| < EMPTY && |keys| < Pow2(k) && k <= 31
    ensures var hs := Codes(keys);
            var b, s := Table(hs[..i], k), FirstEmpty(Table(hs[..i], k), k, Code(keys[i]), 0);
            && Indexes(b, hs[..i], k)
            && Table(hs[..i + 1], k) == Insert(b, k, Code(keys[i]), i)
            && Cost(hs[..i + 1], k) == Cost(hs[..i], k) + s + 1 <= Cost(hs, k)
            && TableComparisons(keys, k, i + 1) == TableComparisons(keys, k, i) + ProbeComparisons(b, keys, k, i, s)
            && TableComparisons(keys, k, i + 1) <= TableComparisons(keys, k, |keys|)
  {
    hide Code, FirstEmpty, Insert, ProbeComparisons, Indexes;
    var hs := Codes(keys);
    assert hs[..i + 1][..i] == hs[..i];
    TableIndexes(hs[..i], k);
    CostPrefix(hs, k, i + 1);
    TableComparisonsGrow(keys, k, i + 1, |keys|);
  }

  lemma ArrayMeaning(keys: seq<HashKey>)
    requires |keys| <= MAX_HASH_PAIRS
    ensures |keys| <= ARRAY_MAX ==>
              Probes(keys) == Triangular(|keys|) && Comparisons(keys) == ArrayComparisons(keys, |keys|)
  {
  }

  /** `(initial +% triangle) & mask`, computed from the capacity. */
  method MaskedPosition(capacity: nat, ghost k: nat, code: nat, step: nat) returns (position: nat)
    requires k <= 31 && capacity == Pow2(k)
    ensures position == Position(k, code, step) && position < capacity
  {
    var mask := capacity - 1;
    var initial := And(code, mask);
    var triangle := Triangle(step);
    position := And((initial + triangle) % 0x1_0000_0000, mask);
    MaskIsMod(code, k);
    Arith.DivMod(code, capacity);
    Arith.ModUnique(code % capacity, capacity, 0, code % capacity);
    SameBucketSameProbes(k, initial, code, step);
  }

  method CapacityOf(n: nat) returns (capacity: nat, ghost k: nat)
    requires ARRAY_MAX < n <= MAX_HASH_PAIRS
    ensures k == Exponent(n) && capacity == Pow2(k) && n < capacity
  {
    var result;
    result, k := Capacity(n);
    capacity := result.value;
    LeastRoomyUnique(k, Exponent(n), n);
  }
}
