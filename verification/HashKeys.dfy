/**
 * Hash keys as the parser compares and hashes them (artifact_value.zig:998-1135): IEEE equality on
 * float bits, byte equality on names, and the interpreter's own 32-bit hash code.
 */
module HashKeys {
  import opened BigEndian
  import opened Bits
  import opened Canonical
  import opened Graph
  import opened Results

  datatype HashKey = IntKey(i: int) | FloatKey(bits: nat) | SymbolKey(name: Bytes) | StringKey(bytes: Bytes)

  const SIGN_BIT: nat := 0x8000_0000_0000_0000
  const MANTISSA: nat := 0x10_0000_0000_0000

  predicate IsZero(bits: nat) {
    bits == 0 || bits == SIGN_BIT
  }

  predicate IsNan(bits: nat) {
    bits / MANTISSA % 0x800 == 0x7FF && bits % MANTISSA != 0
  }

  /** binary64 comparison, on the bit patterns (section 5.11 of IEEE 754-2008). */
  predicate FloatEq(a: nat, b: nat) {
    !IsNan(a) && !IsNan(b) && (a == b || (IsZero(a) && IsZero(b)))
  }

  /** ParsedHashKeyContext.eql. */
  predicate KeyEq(a: HashKey, b: HashKey) {
    match (a, b)
    case (FloatKey(x), FloatKey(y)) => FloatEq(x, y)
    case _ => a == b
  }

  /** parsedHashKey. Both zero signs become the same key; the wire bits are untouched. */
  function NormalKey(g: Graph, r: Ref): Option<HashKey> {
    match r
    case Int(i) => Some(IntKey(i))
    case Float(bits) => Some(FloatKey(if IsZero(bits) then 0 else bits))
    case Symbol(name) => Some(SymbolKey(name))
    case Node(id) => if KeyRefAllowed(g, r) then Some(StringKey(g.objs[id].bytes)) else None
    case _ => None
  }

  /** Legal keys, and what they are compared as: both zeros as one, and frozen Strings by their bytes. */
  lemma LegalKeys(g: Graph, r: Ref)
    ensures match r
            case Int(i) => NormalKey(g, r) == Some(IntKey(i))
            case Float(bits) =>
              NormalKey(g, r) == Some(FloatKey(if bits == 0x8000_0000_0000_0000 then 0 else bits))
            case Symbol(name) => NormalKey(g, r) == Some(SymbolKey(name))
            case Node(id) =>
              NormalKey(g, r) ==
              if id < |g.objs| && g.objs[id].kind == StringKind && g.objs[id].frozen
              then Some(StringKey(g.objs[id].bytes)) else None
            case _ => NormalKey(g, r) == None
  {
  }

  /** Keys are equal when they are the same, except that the zeros are equal and a NaN is not even to itself. */
  lemma KeyEquality(a: HashKey, b: HashKey)
    requires (a.FloatKey? ==> a.bits < U64) && (b.FloatKey? ==> b.bits < U64)
    ensures KeyEq(a, b) <==>
            || (a == b && !(a.FloatKey? && (0x7FF0_0000_0000_0000 < a.bits < 0x8000_0000_0000_0000
                                            || 0xFFF0_0000_0000_0000 < a.bits)))
            || (a.FloatKey? && b.FloatKey? && {a.bits, b.bits} == {0, 0x8000_0000_0000_0000})
  {
    if a.FloatKey? && b.FloatKey? {
      NanRange(a.bits);
      NanRange(b.bits);
      assert a.bits in {a.bits, b.bits} && b.bits in {a.bits, b.bits};
      hide IsNan;
      if {a.bits, b.bits} == {0, 0x8000_0000_0000_0000} {
        assert 0 in {a.bits, b.bits} && 0x8000_0000_0000_0000 in {a.bits, b.bits};
      }
    }
  }

  lemma NanRange(bits: nat)
    requires bits < U64
    ensures IsNan(bits) <==>
            0x7FF0_0000_0000_0000 < bits < 0x8000_0000_0000_0000 || 0xFFF0_0000_0000_0000 < bits
  {
    var high, low := bits / MANTISSA, bits % MANTISSA;
    assert bits == MANTISSA * high + low && high < 0x1000;
  }

  predicate IsNormal(k: HashKey) {
    k.FloatKey? && IsZero(k.bits) ==> k.bits == 0
  }

  lemma NormalKeyMeaning(g: Graph, r: Ref)
    ensures NormalKey(g, r).Some? <==> KeyRefAllowed(g, r)
    ensures NormalKey(g, r).Some? ==> IsNormal(NormalKey(g, r).value)
  {
  }

  /** Some bits of a 64-bit pattern, least significant byte first. */
  function LittleEndian(width: nat, v: nat): Bytes {
    if width == 0 then [] else [v % 0x100] + LittleEndian(width - 1, v / 0x100)
  }

  /** What ParsedHashKeyContext.hash feeds its hasher. */
  function HasherInput(k: HashKey): Bytes {
    match k
    case IntKey(i) => [0] + LittleEndian(8, i % U64)
    case FloatKey(bits) => [1] + LittleEndian(8, bits)
    case SymbolKey(name) => [2] + name
    case StringKey(bytes) => [3] + bytes
  }

  /** The law the duplicate map relies on. It holds because zeros were normalized first. */
  lemma EqualKeysHashAlike(a: HashKey, b: HashKey)
    requires IsNormal(a) && IsNormal(b) && KeyEq(a, b)
    ensures HasherInput(a) == HasherInput(b)
  {
  }

  lemma {:induction false} LittleEndianInjective(width: nat, x: nat, y: nat)
    requires x < Pow256(width) && y < Pow256(width) && LittleEndian(width, x) == LittleEndian(width, y)
    ensures x == y
  {
    if width > 0 {
      var a, b := LittleEndian(width, x), LittleEndian(width, y);
      assert a[0] == x % 0x100 && b[0] == y % 0x100;
      assert a[1..] == LittleEndian(width - 1, x / 0x100) && b[1..] == LittleEndian(width - 1, y / 0x100);
      LittleEndianInjective(width - 1, x / 0x100, y / 0x100);
    }
  }

  /** Without the normalization the law fails, on the two zeros. */
  lemma ZeroSignsWouldHashApart()
    ensures KeyEq(FloatKey(0), FloatKey(SIGN_BIT)) && HasherInput(FloatKey(0)) != HasherInput(FloatKey(SIGN_BIT))
  {
    hide LittleEndian;
    Widths();
    var a, b := HasherInput(FloatKey(0)), HasherInput(FloatKey(SIGN_BIT));
    assert a[1..] == LittleEndian(8, 0) && b[1..] == LittleEndian(8, SIGN_BIT);
    if a == b {
      LittleEndianInjective(8, 0, SIGN_BIT);
    }
  }

  // ---- the interpreter's hash code -----------------------------------------------------------

  function Fnv1From(s: Bytes, h: nat): nat
    decreases s
  {
    if s == [] then h else Fnv1From(s[1..], Xor(h * 0x0100_0193 % U32, s[0]))
  }

  /** fnv1. */
  function Fnv1(s: Bytes): nat {
    Fnv1From(s, 0x811C_9DC5)
  }

  /** `base ^ (base << 2) ^ (base >> 2)` in u32. */
  function Mix(base: nat): nat {
    Xor(Xor(base, base * 4 % U32), base / 4)
  }

  /** mixedHashCode. */
  function Code(k: HashKey): nat {
    Mix(match k
        case IntKey(i) => i % U32
        case FloatKey(bits) => if IsZero(bits) then 0 else Fnv1(LittleEndian(8, bits))
        case SymbolKey(name) => Fnv1(name)
        case StringKey(bytes) => Fnv1(bytes))
  }

  /** Equal keys start their probe sequences in the same bucket. */
  lemma EqualKeysSameCode(a: HashKey, b: HashKey)
    requires KeyEq(a, b)
    ensures Code(a) == Code(b)
  {
  }

  /** No two keys are equal. A NaN is unequal even to itself, so NaN keys never clash. */
  predicate PairwiseUnequal(keys: seq<HashKey>) {
    forall i, j :: 0 <= i < j < |keys| ==> !KeyEq(keys[i], keys[j])
  }

  // ---- the keys of a hash node ---------------------------------------------------------------

  function KeyRefs(o: Obj): (refs: seq<Ref>)
    ensures |refs| == PairEdges(o) / 2
    ensures forall p :: 0 <= p < |refs| ==> refs[p] == o.refs[2 * p]
  {
    seq(PairEdges(o) / 2, p requires 0 <= p < PairEdges(o) / 2 => o.refs[2 * p])
  }

  predicate KeysNormal(g: Graph, o: Obj) {
    forall p :: 0 <= p < |KeyRefs(o)| ==> NormalKey(g, KeyRefs(o)[p]).Some?
  }

  function KeysOf(g: Graph, o: Obj): (keys: seq<HashKey>)
    requires KeysNormal(g, o)
    ensures |keys| == |KeyRefs(o)|
    ensures forall p :: 0 <= p < |keys| ==> Some(keys[p]) == NormalKey(g, KeyRefs(o)[p])
  {
    seq(|KeyRefs(o)|, p requires 0 <= p < |KeyRefs(o)| => NormalKey(g, KeyRefs(o)[p]).value)
  }
}
