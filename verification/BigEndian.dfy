/** Fixed-width big-endian integers over byte strings (artifact.zig, getU16 .. putU64). */
module BigEndian {

  type byte = x: int | 0 <= x < 0x100
  type Bytes = seq<byte>
  type word64 = x: int | 0 <= x < 0x1_0000_0000_0000_0000

  const U16: nat := 0x1_0000
  const U32: nat := 0x1_0000_0000
  const U64: nat := 0x1_0000_0000_0000_0000

  function Pow256(width: nat): (p: nat)
    ensures p > 0
  {
    if width == 0 then 1 else 0x100 * Pow256(width - 1)
  }

  /** The big-endian bytes of `v` in `width` bytes. */
  function Encode(width: nat, v: nat): (s: Bytes)
    requires v < Pow256(width)
    ensures |s| == width
  {
    if width == 0 then [] else Encode(width - 1, v / 0x100) + [v % 0x100]
  }

  /** The number a big-endian byte string denotes. */
  function Decode(s: Bytes): (v: nat)
    ensures v < Pow256(|s|)
  {
    if s == [] then 0 else 0x100 * Decode(s[..|s| - 1]) + s[|s| - 1]
  }

  lemma {:induction false} DecodeEncode(width: nat, v: nat)
    requires v < Pow256(width)
    ensures Decode(Encode(width, v)) == v
  {
    if width > 0 {
      DecodeEncode(width - 1, v / 0x100);
      var s := Encode(width, v);
      assert s[..|s| - 1] == Encode(width - 1, v / 0x100);
    }
  }

  lemma {:induction false} EncodeDecode(s: Bytes)
    ensures Encode(|s|, Decode(s)) == s
  {
    if s != [] {
      EncodeDecode(s[..|s| - 1]);
      var v := Decode(s);
      assert v / 0x100 == Decode(s[..|s| - 1]) && v % 0x100 == s[|s| - 1];
      assert s == s[..|s| - 1] + [s[|s| - 1]];
    }
  }

  lemma Widths()
    ensures Pow256(1) == 0x100 && Pow256(2) == U16 && Pow256(4) == U32 && Pow256(8) == U64
  {
    assert Pow256(2) == 0x100 * Pow256(1);
    assert Pow256(4) == 0x100 * (0x100 * Pow256(2));
    assert Pow256(6) == 0x100 * (0x100 * Pow256(4));
    assert Pow256(8) == 0x100 * (0x100 * Pow256(6));
  }
}
