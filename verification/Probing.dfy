/**
 * The probe sequence of simulateHashInsertion (artifact_value.zig:961-976): triangular
 * offsets computed in wrapping u32 arithmetic over a power-of-two bucket count.
 */
module Probing {
  import opened Arith
  import opened Bits
  import opened BigEndian
  import opened Sets

  /** `(step *% step +% step) / 2` in u32. */
  function Triangle(step: nat): nat {
    ((step * step) % U32 + step) % U32 / 2
  }

  /** `(initial +% triangle) & mask` with `mask == Pow2(k) - 1`. */
  function Position(k: nat, initial: nat, step: nat): (p: nat)
    ensures p < Pow2(k)
  {
    MaskIsMod((initial + Triangle(step)) % U32, k);
    And((initial + Triangle(step)) % U32, Pow2(k) - 1)
  }

  lemma ModOfPow2(x: nat, k: nat, j: nat)
    requires k <= j
    ensures (x % Pow2(j)) % Pow2(k) == x % Pow2(k)
  {
    Pow2Add(k, j - k);
    ModOfMod(x, Pow2(k), Pow2(j - k));
  }

  function Triangular(n: nat): nat {
    n * (n + 1) / 2
  }

  /** Halving commutes with reducing modulo an even power of two. */
  lemma TriangleWraps(step: nat)
    ensures Triangle(step) == Triangular(step) % Pow2(31)
  {
    Pow2Of32();
    ModAdd(step * step, step, U32);
    var x := step * step + step;
    assert x == step * (step + 1);
    ConsecutiveEven(step);
    assert Triangle(step) == x % U32 / 2;
    HalveMod(x, Pow2(31));
    assert x % 2 == 0;
  }

  /** Neither wrap-around is visible once the position is masked. */
  lemma PositionMeaning(k: nat, initial: nat, step: nat)
    requires k <= 31
    ensures Position(k, initial, step) == (initial + Triangular(step)) % Pow2(k)
  {
    hide Triangle, Triangular, And;
    Pow2Of32();
    var t := Triangle(step);
    MaskIsMod((initial + t) % U32, k);
    ModOfPow2(initial + t, k, 32);
    TriangleWraps(step);
    ModOfPow2(Triangular(step), k, 31);
    ModAdd(t, initial, Pow2(k));
    ModAdd(Triangular(step), initial, Pow2(k));
  }

  /** An odd factor can be cancelled modulo a power of two. */
  lemma {:induction false} OddCancels(odd: int, x: int, k: nat)
    requires odd % 2 == 1 && (odd * x) % Pow2(k) == 0
    ensures x % Pow2(k) == 0
    decreases k
  {
    if k > 0 {
      var m := Pow2(k - 1);
      var y := HalfOfEven(odd, x, m);
      OddCancels(odd, y, k - 1);
      DivMod(y, m);
      MulAssoc(2, m, y / m);
      ModZero(x, 2 * m, y / m);
    }
  }

  lemma HalfOfEven(odd: int, x: int, m: nat) returns (y: int)
    requires m > 0 && odd % 2 == 1 && (odd * x) % (2 * m) == 0
    ensures x == 2 * y && (odd * y) % m == 0
  {
    var q := (odd * x) / (2 * m);
    DivMod(odd * x, 2 * m);
    MulAssoc(2, m, q);
    var h := odd / 2;
    assert odd == 2 * h + 1;
    MulAdd(x, 2 * h, 1);
    MulAssoc(2, h, x);
    assert odd * x == 2 * (h * x) + x;
    y := m * q - h * x;
    assert x == 2 * y;
    MulAssoc(odd, 2, y);
    MulAssoc(2, odd, y);
    assert odd * y == m * q;
    ModZero(odd * y, m, q);
  }

  lemma EqualRemaindersDiffer(a: nat, b: nat, m: nat) returns (q: int)
    requires m > 0 && a % m == b % m
    ensures a - b == m * q
  {
    DivMod(a, m);
    DivMod(b, m);
    MulSub(m, a / m, b / m);
    q := a / m - b / m;
  }

  lemma NoMultipleBelow(x: int, m: nat)
    requires m > 0 && 0 < x < m
    ensures x % m != 0
  {
    ModUnique(x, m, 0, x);
  }

  lemma TriangularIsHalf(n: nat)
    ensures 2 * Triangular(n) == n * (n + 1)
  {
    ConsecutiveEven(n);
  }

  lemma TriangularGap(i: nat, j: nat)
    ensures (j - i) * (i + j + 1) == 2 * (Triangular(j) - Triangular(i))
  {
    TriangularIsHalf(i);
    TriangularIsHalf(j);
    MulAdd(j - i, i + j, 1);
    MulAdd(j - i, i, j);
    MulSub(i, j, i);
    MulSub(j, j, i);
    MulAdd(j, j, 1);
    MulAdd(i, i, 1);
  }

  /** Distinct steps below the bucket count visit distinct buckets, whatever the starting bucket. */
  lemma ProbesDistinct(k: nat, initial: nat, i: nat, j: nat)
    requires k <= 31 && i < j < Pow2(k)
    ensures Position(k, initial, i) != Position(k, initial, j)
  {
    hide Position, Triangular;
    PositionMeaning(k, initial, i);
    PositionMeaning(k, initial, j);
    if Position(k, initial, i) == Position(k, initial, j) {
      var q := EqualRemaindersDiffer(initial + Triangular(j), initial + Triangular(i), Pow2(k));
      GapNotMultiple(i, j, k, q);
    }
  }

  /** The gap between two triangular numbers below `Pow2(k)` is no multiple of it. */
  lemma GapNotMultiple(i: nat, j: nat, k: nat, q: int)
    requires i < j < Pow2(k)
    ensures Triangular(j) - Triangular(i) != Pow2(k) * q
  {
    hide Triangular;
    var d, s := j - i, i + j + 1;
    TriangularGap(i, j);
    MulAssoc(2, Pow2(k), q);
    NoCommonMultiple(d, s, k + 1);
    if d * s == Pow2(k + 1) * q {
      ModZero(d * s, Pow2(k + 1), q);
    }
  }

  /** Of two factors below the modulus with an odd sum, the odd one would cancel. */
  lemma NoCommonMultiple(d: int, s: int, k: nat)
    requires 0 < d < Pow2(k) && 0 < s < Pow2(k) && (d + s) % 2 == 1
    ensures (d * s) % Pow2(k) != 0
  {
    hide Pow2;
    NoMultipleBelow(s, Pow2(k));
    NoMultipleBelow(d, Pow2(k));
    if d % 2 == 1 && (d * s) % Pow2(k) == 0 {
      OddCancels(d, s, k);
    }
    if d % 2 == 0 && (s * d) % Pow2(k) == 0 {
      OddCancels(s, d, k);
    }
  }

  /** The buckets visited by the first `n` probes. */
  function Visited(k: nat, initial: nat, n: nat): set<nat> {
    if n == 0 then {} else Visited(k, initial, n - 1) + {Position(k, initial, n - 1)}
  }

  lemma {:induction false} VisitedMembers(k: nat, initial: nat, n: nat)
    ensures forall p :: p in Visited(k, initial, n) <==> exists s: nat :: s < n && p == Position(k, initial, s)
  {
    if n > 0 {
      VisitedMembers(k, initial, n - 1);
    }
  }

  lemma {:induction false} VisitedSize(k: nat, initial: nat, n: nat)
    requires k <= 31 && n <= Pow2(k)
    ensures |Visited(k, initial, n)| == n
  {
    if n > 0 {
      VisitedSize(k, initial, n - 1);
      VisitedMembers(k, initial, n - 1);
      forall s: nat | s < n - 1 ensures Position(k, initial, s) != Position(k, initial, n - 1) {
        ProbesDistinct(k, initial, s, n - 1);
      }
    }
  }

  /** The buckets of a table with `n` slots. */
  function Range(n: nat): (r: set<nat>)
    ensures |r| == n && forall x :: x in r <==> 0 <= x < n
  {
    if n == 0 then {} else Range(n - 1) + {n - 1}
  }

  /** The first `capacity` probes are a permutation of the buckets. */
  lemma ProbesCoverEveryBucket(k: nat, initial: nat, bucket: nat)
    requires k <= 31 && bucket < Pow2(k)
    ensures exists s: nat :: s < Pow2(k) && Position(k, initial, s) == bucket
  {
    var n := Pow2(k);
    VisitedSize(k, initial, n);
    VisitedMembers(k, initial, n);
    forall p | p in Visited(k, initial, n) ensures p in Range(n) {
      var s: nat :| s < n && p == Position(k, initial, s);
      PositionMeaning(k, initial, s);
    }
    SubsetSize(Visited(k, initial, n), Range(n));
    assert bucket in Visited(k, initial, n);
  }
}
