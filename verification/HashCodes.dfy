/**
 * How well the interpreter's hash code separates keys (artifact_value.zig:1049-1085): the final mix
 * and every FNV-1 step lose nothing, so the collisions the probe budget is for have to be sought.
 */
module HashCodes {
  import opened Arith
  import opened BigEndian
  import opened Bits
  import opened HashKeys

  // ---- bits ----------------------------------------------------------------------------------

  predicate Bit(x: nat, i: nat) {
    if i == 0 then x % 2 == 1 else Bit(x / 2, i - 1)
  }

  lemma {:induction false} ZeroBit(i: nat)
    ensures !Bit(0, i)
  {
    if i > 0 {
      ZeroBit(i - 1);
    }
  }

  lemma {:induction false} XorBit(a: nat, b: nat, i: nat)
    ensures Bit(Xor(a, b), i) <==> Bit(a, i) != Bit(b, i)
    decreases i
  {
    if a == 0 && b == 0 {
      ZeroBit(i);
    } else {
      XorHalf(a, b);
      if i > 0 {
        XorBit(a / 2, b / 2, i - 1);
      }
    }
  }

  lemma XorHalf(a: nat, b: nat)
    requires a != 0 || b != 0
    ensures Xor(a, b) / 2 == Xor(a / 2, b / 2)
    ensures Xor(a, b) % 2 == 1 <==> a % 2 != b % 2
  {
  }

  /** The low bits survive a reduction modulo a power of two. */
  lemma {:induction false} ModBit(x: nat, k: nat, i: nat)
    requires i < k
    ensures Bit(x % Pow2(k), i) <==> Bit(x, i)
    decreases k
  {
    var m := Pow2(k - 1);
    HalveMod(x, m);
    if i > 0 {
      ModBit(x / 2, k - 1, i - 1);
    }
  }

  /** A number below 2^k is its low k bits. */
  lemma {:induction false} BitsDetermine(x: nat, y: nat, k: nat)
    requires x < Pow2(k) && y < Pow2(k) && forall i :: 0 <= i < k ==> Bit(x, i) == Bit(y, i)
    ensures x == y
    decreases k
  {
    if k > 0 {
      assert Bit(x, 0) == Bit(y, 0);
      forall i | 0 <= i < k - 1 ensures Bit(x / 2, i) == Bit(y / 2, i) {
        assert Bit(x, i + 1) == Bit(y, i + 1);
      }
      BitsDetermine(x / 2, y / 2, k - 1);
    }
  }

  lemma {:induction false} XorSmall(a: nat, b: nat, k: nat)
    requires a < Pow2(k) && b < Pow2(k)
    ensures Xor(a, b) < Pow2(k)
    decreases k
  {
    if k > 0 && (a != 0 || b != 0) {
      XorHalf(a, b);
      XorSmall(a / 2, b / 2, k - 1);
    }
  }

  /** Exclusive or with the same number loses nothing. */
  lemma XorCancels(a: nat, b: nat, c: nat, k: nat)
    requires a < Pow2(k) && b < Pow2(k) && Xor(a, c) == Xor(b, c)
    ensures a == b
  {
    forall i | 0 <= i < k ensures Bit(a, i) == Bit(b, i) {
      XorBit(a, c, i);
      XorBit(b, c, i);
    }
    BitsDetermine(a, b, k);
  }

  lemma XorCancelsRight(c: nat, a: nat, b: nat, k: nat)
    requires a < Pow2(k) && b < Pow2(k) && Xor(c, a) == Xor(c, b)
    ensures a == b
  {
    forall i | 0 <= i < k ensures Bit(a, i) == Bit(b, i) {
      XorBit(c, a, i);
      XorBit(c, b, i);
    }
    BitsDetermine(a, b, k);
  }

  // ---- the final mix -------------------------------------------------------------------------

  /** Bit `i` of the mix is the sum of bits `i - 2`, `i` and `i + 2`. */
  lemma MixBit(x: nat, i: nat)
    requires x < U32 && i < 32
    ensures Bit(Mix(x), i) <==> (Bit(x, i) != (i >= 2 && Bit(x, i - 2))) != Bit(x, i + 2)
  {
    Pow2Of32();
    XorBit(Xor(x, x * 4 % U32), x / 4, i);
    XorBit(x, x * 4 % U32, i);
    ModBit(x * 4, 32, i);
    Quadrupled(x, i);
    Quartered(x, i);
  }

  lemma Quadrupled(x: nat, i: nat)
    ensures Bit(x * 4, i) <==> i >= 2 && Bit(x, i - 2)
  {
    assert x * 4 % 2 == 0 && x * 4 / 2 == x * 2 && x * 2 % 2 == 0 && x * 2 / 2 == x;
    if i >= 2 {
      assert Bit(x * 4, i) == Bit(x * 2, i - 1) == Bit(x, i - 2);
    } else if i == 1 {
      assert Bit(x * 4, 1) == Bit(x * 2, 0);
    }
  }

  lemma Quartered(x: nat, i: nat)
    ensures Bit(x / 4, i) <==> Bit(x, i + 2)
  {
    assert x / 2 / 2 == x / 4;
    assert Bit(x, i + 2) == Bit(x / 2, i + 1) == Bit(x / 4, i);
  }

  /** Where `x` and `y` differ, given that their mixes agree. */
  predicate Apart(x: nat, y: nat, i: int) {
    0 <= i && Bit(x, i) != Bit(y, i)
  }

  lemma ApartAhead(x: nat, y: nat, i: nat)
    requires x < U32 && y < U32 && Mix(x) == Mix(y) && i < 32
    ensures Apart(x, y, i + 2) <==> Apart(x, y, i) != Apart(x, y, i - 2)
  {
    MixBit(x, i);
    MixBit(y, i);
  }

  /** A difference at bit `i` repeats with period 6 and ends up beyond the last bit. */
  lemma {:induction false} ApartPeriod(x: nat, y: nat, i: nat, n: nat)
    requires x < U32 && y < U32 && Mix(x) == Mix(y) && i < 2 && i + 6 * n < 34
    ensures Apart(x, y, i + 6 * n) == Apart(x, y, i) && !Apart(x, y, i + 6 * n - 2)
    decreases n
  {
    hide Apart;
    if n == 0 {
      NoneBelow(x, y, i);
    } else {
      var j := i + 6 * (n - 1);
      ApartPeriod(x, y, i, n - 1);
      ApartAhead(x, y, j);
      ApartAhead(x, y, j + 2);
      ApartAhead(x, y, j + 4);
    }
  }

  lemma NoneBelow(x: nat, y: nat, i: nat)
    requires i < 2
    ensures !Apart(x, y, i - 2)
  {
  }

  lemma {:induction false} HighBitsZero(x: nat, k: nat, i: nat)
    requires x < Pow2(k) && i >= k
    ensures !Bit(x, i)
    decreases k
  {
    if k == 0 {
      ZeroBit(i);
    } else {
      HighBitsZero(x / 2, k - 1, i - 1);
    }
  }

  /** Two 32-bit numbers with equal mixes do not differ in bit 0 or 1, hence nowhere. */
  lemma NowhereApart(x: nat, y: nat, i: nat)
    requires x < U32 && y < U32 && Mix(x) == Mix(y) && i < 32
    ensures !Apart(x, y, i)
  {
    hide Mix;
    Pow2Of32();
    var r := i % 2;
    HighBitsZero(x, 32, r + 32);
    HighBitsZero(y, 32, r + 32);
    ApartPeriod(x, y, r, 5);
    ApartAhead(x, y, r + 30);
    assert !Apart(x, y, r + 32);
    assert !Apart(x, y, r);
    StartsTogether(x, y, r, i / 2);
  }

  lemma {:induction false} StartsTogether(x: nat, y: nat, r: nat, n: nat)
    requires x < U32 && y < U32 && Mix(x) == Mix(y) && r < 2 && r + 2 * n < 34 && !Apart(x, y, r)
    ensures !Apart(x, y, r + 2 * n) && !Apart(x, y, r + 2 * n - 2)
    decreases n
  {
    hide Apart;
    if n == 0 {
      NoneBelow(x, y, r);
    } else {
      StartsTogether(x, y, r, n - 1);
      ApartAhead(x, y, r + 2 * n - 2);
    }
  }

  /** The final mix is one-to-one on 32-bit words. */
  lemma MixSeparates(x: nat, y: nat)
    requires x < U32 && y < U32 && x != y
    ensures Mix(x) != Mix(y)
  {
    if Mix(x) == Mix(y) {
      Pow2Of32();
      forall i | 0 <= i < 32 ensures Bit(x, i) == Bit(y, i) {
        NowhereApart(x, y, i);
      }
      BitsDetermine(x, y, 32);
    }
  }

  /** Integer keys have the same code exactly when their low 32 bits agree. */
  lemma IntegerCodes(i: int, j: int)
    ensures Code(IntKey(i)) == Code(IntKey(j)) <==> i % U32 == j % U32
  {
    hide Mix;
    if i % U32 != j % U32 {
      MixSeparates(i % U32, j % U32);
    }
  }

  // ---- FNV-1 ---------------------------------------------------------------------------------

  /** The inverse of the FNV prime modulo 2^32. */
  const UNPRIME: nat := 0x359C_449B

  lemma PrimeInverse(h: nat)
    requires h < U32
    ensures (h * 0x0100_0193 % U32) * UNPRIME % U32 == h
  {
    var p := h * 0x0100_0193;
    DivMod(p, U32);
    var q, r := p / U32, p % U32;
    ModUnique(r * UNPRIME, U32, h * 3513497 - q * UNPRIME, h);
  }

  /** One FNV-1 step: multiply, then exclusive or. */
  function Stir(h: nat, b: byte): nat {
    Xor(h * 0x0100_0193 % U32, b)
  }

  lemma StirFits(h: nat, b: byte)
    ensures Stir(h, b) < U32
  {
    Pow2Of32();
    XorSmall(h * 0x0100_0193 % U32, b, 32);
  }

  /** A step loses nothing of the running hash, and nothing of the byte. */
  lemma StirSeparates(h: nat, h': nat, b: byte)
    requires h < U32 && h' < U32 && h != h'
    ensures Stir(h, b) != Stir(h', b)
  {
    Pow2Of32();
    PrimeInverse(h);
    PrimeInverse(h');
    if Stir(h, b) == Stir(h', b) {
      XorCancels(h * 0x0100_0193 % U32, h' * 0x0100_0193 % U32, b, 32);
    }
  }

  lemma ByteSeparates(h: nat, x: byte, y: byte)
    requires x != y
    ensures Stir(h, x) != Stir(h, y)
  {
    assert Pow2(8) == 0x100;
    if Stir(h, x) == Stir(h, y) {
      XorCancelsRight(h * 0x0100_0193 % U32, x, y, 8);
    }
  }

  lemma {:induction false} FnvFits(s: Bytes, h: nat)
    requires h < U32
    ensures Fnv1From(s, h) < U32
    decreases s
  {
    if s != [] {
      StirFits(h, s[0]);
      FnvFits(s[1..], Stir(h, s[0]));
    }
  }

  lemma {:induction false} FnvAppend(u: Bytes, v: Bytes, h: nat)
    ensures Fnv1From(u + v, h) == Fnv1From(v, Fnv1From(u, h))
    decreases u
  {
    if u == [] {
      assert u + v == v;
    } else {
      assert (u + v)[1..] == u[1..] + v;
      FnvAppend(u[1..], v, Stir(h, u[0]));
    }
  }

  lemma {:induction false} FnvSeparates(s: Bytes, h: nat, h': nat)
    requires h < U32 && h' < U32 && h != h'
    ensures Fnv1From(s, h) != Fnv1From(s, h')
    decreases s
  {
    if s != [] {
      StirSeparates(h, h', s[0]);
      StirFits(h, s[0]);
      StirFits(h', s[0]);
      FnvSeparates(s[1..], Stir(h, s[0]), Stir(h', s[0]));
    }
  }

  /** Byte strings that differ in exactly one byte have different hashes. */
  lemma OneByteApart(u: Bytes, x: byte, y: byte, v: Bytes)
    requires x != y
    ensures Fnv1(u + [x] + v) != Fnv1(u + [y] + v)
  {
    hide Stir;
    var h := Fnv1From(u, 0x811C_9DC5);
    FnvFits(u, 0x811C_9DC5);
    FnvThrough(u, x, v);
    FnvThrough(u, y, v);
    ByteSeparates(h, x, y);
    StirFits(h, x);
    StirFits(h, y);
    FnvSeparates(v, Stir(h, x), Stir(h, y));
  }

  lemma FnvThrough(u: Bytes, x: byte, v: Bytes)
    ensures Fnv1(u + [x] + v) == Fnv1From(v, Stir(Fnv1From(u, 0x811C_9DC5), x))
  {
    FnvAppend(u + [x], v, 0x811C_9DC5);
    FnvAppend(u, [x], 0x811C_9DC5);
    assert [x][1..] == [];
  }

  /** Known answers for FNV-1 in 32 bits: the empty string and "a". */
  lemma FnvKnown()
    ensures Fnv1([]) == 0x811C_9DC5 && Fnv1([0x61]) == 0x050C_5D7E
  {
    var h := 0x811C_9DC5 * 0x0100_0193 % U32;
    assert h == 0x050C_5D1F;
    assert [0x61][1..] == [];
    XorWithByte();
  }

  lemma XorWithByte()
    ensures Xor(0x050C_5D1F, 0x61) == 0x050C_5D7E
  {
    hide Xor;
    XorUnrolled(0x050C_5D1F, 0x61);
    XorUnrolled(0x0286_2E8F, 0x30);
    XorUnrolled(0x0143_1747, 0x18);
    XorUnrolled(0x00A1_8BA3, 0x0C);
    XorUnrolled(0x0050_C5D1, 0x06);
    XorUnrolled(0x0028_62E8, 0x03);
    XorUnrolled(0x0014_3174, 0x01);
    XorZero(0x000A_18BA);
  }

  lemma XorUnrolled(a: nat, b: nat)
    requires a != 0 || b != 0
    ensures Xor(a, b) == 2 * Xor(a / 2, b / 2) + (if a % 2 != b % 2 then 1 else 0)
  {
  }

  lemma {:induction false} XorZero(a: nat)
    ensures Xor(a, 0) == a
  {
    if a != 0 {
      XorZero(a / 2);
    }
  }

  /** String and symbol keys that differ in one byte have different codes. */
  lemma NameCodes(u: Bytes, x: byte, y: byte, v: Bytes)
    requires x != y
    ensures Code(StringKey(u + [x] + v)) != Code(StringKey(u + [y] + v))
    ensures Code(SymbolKey(u + [x] + v)) != Code(SymbolKey(u + [y] + v))
    ensures Code(SymbolKey(u)) == Code(StringKey(u))
  {
    hide Mix, Fnv1;
    OneByteApart(u, x, y, v);
    FnvFitsWhole(u + [x] + v);
    FnvFitsWhole(u + [y] + v);
    MixSeparates(Fnv1(u + [x] + v), Fnv1(u + [y] + v));
  }

  lemma FnvFitsWhole(s: Bytes)
    ensures Fnv1(s) < U32
  {
    FnvFits(s, 0x811C_9DC5);
  }

  /** Float keys are hashed by their bits, least significant byte first, except that zeros have code 0. */
  lemma FloatCodes(bits: nat, bits': nat)
    requires bits < U64 && bits' < U64 && !IsZero(bits) && !IsZero(bits')
    requires bits / 0x100 == bits' / 0x100 && bits != bits'
    ensures Code(FloatKey(bits)) != Code(FloatKey(bits')) && Code(FloatKey(0)) == Code(FloatKey(SIGN_BIT)) == 0
  {
    var x: byte, y: byte, v := bits % 0x100, bits' % 0x100, LittleEndian(7, bits / 0x100);
    assert [] + [x] + v == LittleEndian(8, bits) && [] + [y] + v == LittleEndian(8, bits');
    assert Mix(0) == 0;
    hide Mix, Fnv1, LittleEndian;
    OneByteApart([], x, y, v);
    FnvFitsWhole([] + [x] + v);
    FnvFitsWhole([] + [y] + v);
    MixSeparates(Fnv1([] + [x] + v), Fnv1([] + [y] + v));
  }
}
