/** Bitwise operations on unsigned integers of any width, and the powers of two they meet. */
module Bits {
  import opened Arith

  function Pow2(k: nat): (p: nat)
    ensures p > 0
  {
    if k == 0 then 1 else 2 * Pow2(k - 1)
  }

  function And(a: nat, b: nat): nat {
    if a == 0 || b == 0 then 0
    else (if a % 2 == 1 && b % 2 == 1 then 1 else 0) + 2 * And(a / 2, b / 2)
  }

  function Or(a: nat, b: nat): nat
    decreases a + b
  {
    if a == 0 && b == 0 then 0
    else (if a % 2 == 1 || b % 2 == 1 then 1 else 0) + 2 * Or(a / 2, b / 2)
  }

  function Xor(a: nat, b: nat): nat
    decreases a + b
  {
    if a == 0 && b == 0 then 0
    else (if a % 2 != b % 2 then 1 else 0) + 2 * Xor(a / 2, b / 2)
  }

  /** Masking with a power of two minus one is reduction modulo that power. */
  lemma {:induction false} MaskIsMod(x: nat, k: nat)
    ensures And(x, Pow2(k) - 1) == x % Pow2(k)
  {
    if k == 0 {
      MaskOfOne(x);
    } else if x == 0 {
      MaskOfZero(Pow2(k));
    } else {
      MaskIsMod(x / 2, k - 1);
      MaskStep(x, Pow2(k - 1));
    }
  }

  lemma MaskOfOne(x: nat)
    ensures And(x, Pow2(0) - 1) == x % Pow2(0)
  {
    ModZero(x, 1, x);
  }

  lemma MaskOfZero(m: nat)
    requires m > 0
    ensures And(0, m - 1) == 0 % m
  {
    ModZero(0, m, 0);
  }

  lemma MaskStep(x: nat, m: nat)
    requires x > 0 && m > 0 && And(x / 2, m - 1) == (x / 2) % m
    ensures And(x, 2 * m - 1) == x % (2 * m)
  {
    AndOdd(x, m);
    hide And;
    HalveMod(x, m);
  }

  lemma AndOdd(x: nat, m: nat)
    requires x > 0 && m > 0
    ensures And(x, 2 * m - 1) == x % 2 + 2 * And(x / 2, m - 1)
  {
    assert (2 * m - 1) % 2 == 1 && (2 * m - 1) / 2 == m - 1;
  }

  lemma {:induction false} Pow2Monotone(a: nat, b: nat)
    requires a <= b
    ensures Pow2(a) <= Pow2(b)
  {
    if a < b {
      Pow2Monotone(a, b - 1);
    }
  }

  lemma {:induction false} Pow2Add(a: nat, b: nat)
    ensures Pow2(a + b) == Pow2(a) * Pow2(b)
  {
    if a > 0 {
      Pow2Add(a - 1, b);
      assert Pow2(a + b) == 2 * (Pow2(a - 1) * Pow2(b)) == (2 * Pow2(a - 1)) * Pow2(b);
    }
  }

  lemma Pow2Of32()
    ensures Pow2(32) == 0x1_0000_0000 && Pow2(31) == 0x8000_0000
  {
    assert Pow2(8) == 0x100;
    Pow2Add(8, 8);
    Pow2Add(16, 16);
  }

  /** The two shifted copies of a power of two share no bit, so `|` adds them. */
  lemma {:induction false} OrOfShifts(k: nat)
    ensures Or(Pow2(k), 2 * Pow2(k)) == 3 * Pow2(k)
  {
    if k == 0 {
      assert Or(1, 2) == 1 + 2 * Or(0, 1);
      assert Or(0, 1) == 1 + 2 * Or(0, 0);
    } else {
      OrOfShifts(k - 1);
      var m := Pow2(k - 1);
      assert Pow2(k) == 2 * m;
      assert (2 * m) % 2 == 0 && (4 * m) % 2 == 0 && (2 * m) / 2 == m && (4 * m) / 2 == 2 * m;
    }
  }
}
