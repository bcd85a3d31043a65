/** The few non-linear facts the bucket arithmetic needs, each proved on its own. */
module Arith {

  lemma MulSub(m: int, a: int, b: int)
    ensures m * (a - b) == m * a - m * b
  {}

  lemma MulAdd(m: int, a: int, b: int)
    ensures m * (a + b) == m * a + m * b
  {}

  lemma MulAssoc(a: int, b: int, c: int)
    ensures a * b * c == a * (b * c)
  {}

  lemma MulAtLeast(m: int, d: int)
    requires m > 0
    ensures d >= 1 ==> m * d >= m
    ensures d <= -1 ==> m * d <= -m
  {
    MulSub(m, d, 1);
    MulAdd(m, d, 1);
  }

  lemma MulSmall(m: int, d: int)
    requires m > 0 && -m < m * d < m
    ensures d == 0
  {
    MulAtLeast(m, d);
  }

  lemma DivMod(x: int, m: int)
    requires m > 0
    ensures x == m * (x / m) + x % m && 0 <= x % m < m
  {}

  lemma ModUnique(x: int, m: int, q: int, r: int)
    requires m > 0 && 0 <= r < m && x == m * q + r
    ensures x % m == r && x / m == q
  {
    var q', r' := x / m, x % m;
    DivMod(x, m);
    Unique(m, q, r, q', r');
  }

  lemma Unique(m: int, q: int, r: int, q': int, r': int)
    requires m > 0 && 0 <= r < m && 0 <= r' < m && m * q + r == m * q' + r'
    ensures q == q' && r == r'
  {
    MulSub(m, q, q');
    MulSmall(m, q - q');
  }

  /** A multiple of a divisor of the modulus disappears under the smaller modulus. */
  lemma ModOfMod(x: int, m: int, n: int)
    requires m > 0 && n > 0 && m * n > 0
    ensures (x % (m * n)) % m == x % m
  {
    var q, r := x / (m * n), x % (m * n);
    DivMod(x, m * n);
    var q', r' := r / m, r % m;
    DivMod(r, m);
    MulAssoc(m, n, q);
    MulAdd(m, n * q, q');
    ModUnique(x, m, n * q + q', r');
  }

  lemma ModAdd(a: int, b: int, m: int)
    requires m > 0
    ensures (a % m + b) % m == (a + b) % m
  {
    DivMod(a, m);
    var c := a % m + b;
    DivMod(c, m);
    MulAdd(m, a / m, c / m);
    ModUnique(a + b, m, a / m + c / m, c % m);
  }

  lemma ModZero(x: int, m: int, q: int)
    requires m > 0 && x == m * q
    ensures x % m == 0 && x / m == q
  {
    ModUnique(x, m, q, 0);
  }

  lemma ConsecutiveEven(n: int)
    ensures (n * (n + 1)) % 2 == 0
  {
    var h := n / 2;
    if n % 2 == 0 {
      assert n == 2 * h;
      MulAssoc(2, h, n + 1);
      ModZero(n * (n + 1), 2, h * (n + 1));
    } else {
      assert n + 1 == 2 * (h + 1);
      MulAssoc(2, h + 1, n);
      assert n * (n + 1) == (n + 1) * n;
      ModZero(n * (n + 1), 2, (h + 1) * n);
    }
  }

  lemma HalveMod(x: nat, m: nat)
    requires m > 0
    ensures x % (2 * m) == x % 2 + 2 * ((x / 2) % m)
  {
    var y := x / 2;
    DivMod(y, m);
    var q, r := y / m, y % m;
    MulAssoc(2, m, q);
    ModUnique(x, 2 * m, q, 2 * r + x % 2);
  }
}
