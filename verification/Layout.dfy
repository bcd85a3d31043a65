/**
 * The StateCapsule format byte by byte (artifact.zig:235-362 and 460-640, artifact_value.zig:517-553),
 * written out as literals: what the writer functions of the other modules have to produce.
 */
module Layout {
  import opened Arith
  import opened BigEndian
  import opened Envelope
  import opened Graph
  import opened Payload
  import opened Results
  import opened Wire

  // ---- integers ------------------------------------------------------------------------------

  lemma TwoByteInteger(v: nat)
    requires v < 0x1_0000
    ensures Pow256(2) == 0x1_0000 && Encode(2, v) == [v / 0x100, v % 0x100]
  {
    Widths();
    assert Encode(1, v / 0x100) == Encode(0, 0) + [v / 0x100];
  }

  /** Four bytes, most significant first. */
  lemma FourByteInteger(v: nat)
    requires v < 0x1_0000_0000
    ensures Pow256(4) == 0x1_0000_0000
    ensures Encode(4, v) == [v / 0x100_0000, v / 0x1_0000 % 0x100, v / 0x100 % 0x100, v % 0x100]
  {
    Widths();
    TwoByteInteger(v / 0x1_0000);
    assert Encode(3, v / 0x100) == Encode(2, v / 0x1_0000) + [v / 0x100 % 0x100];
  }

  /** Eight bytes are the two halves, upper one first. */
  lemma {:induction false} HighAndLow(width: nat, v: nat)
    requires v < Pow256(4 + width)
    ensures v / Pow256(width) < Pow256(4) && v % Pow256(width) < Pow256(width)
    ensures Encode(4 + width, v) == Encode(4, v / Pow256(width)) + Encode(width, v % Pow256(width))
  {
    if width > 0 {
      var m, w := Pow256(width - 1), v / 0x100;
      HighAndLow(width - 1, w);
      DividedTwice(v, m);
      assert Encode(4 + width, v) == Encode(4 + (width - 1), w) + [v % 0x100];
      assert Encode(width, v % Pow256(width)) == Encode(width - 1, w % m) + [v % 0x100];
    }
  }

  lemma DividedTwice(v: nat, m: nat)
    requires m > 0
    ensures v / 0x100 / m == v / (0x100 * m)
    ensures v % (0x100 * m) / 0x100 == v / 0x100 % m && v % (0x100 * m) % 0x100 == v % 0x100
  {
    var a, b := v / 0x100, v % 0x100;
    var q, r := a / m, a % m;
    assert a == m * q + r;
    var low := 0x100 * r + b;
    assert v == (0x100 * m) * q + low by {
      assert 0x100 * (m * q) == (0x100 * m) * q;
    }
    assert low < 0x100 * m;
    ModUnique(v, 0x100 * m, q, low);
  }

  // ---- references ----------------------------------------------------------------------------

  /** One tag byte, and the payload its tag calls for. */
  lemma ReferenceLayout(r: Ref)
    requires RefFits(r)
    ensures match r
            case Nil => WriteRef(r) == [0]
            case False => WriteRef(r) == [1]
            case True => WriteRef(r) == [2]
            case Int(i) => Pow256(8) == U64 && WriteRef(r) == [3] + Encode(8, i % U64)
            case Float(bits) => Pow256(8) == U64 && WriteRef(r) == [4] + Encode(8, bits)
            case Symbol(name) => Pow256(4) == U32 && WriteRef(r) == [5] + (Encode(4, |name|) + name)
            case Node(id) => Pow256(4) == U32 && WriteRef(r) == [6] + Encode(4, id)
  {
    Widths();
    hide Encode, Pow256;
    match r {
      case Int(i) => assert i % U64 == ToU64(i);
      case _ =>
    }
  }

  // ---- node records --------------------------------------------------------------------------

  /** Twelve bytes: ID, kind, flags, two zeros, body length. */
  lemma HeaderLayout(h: Header)
    requires HeaderFits(h)
    ensures Pow256(4) == U32
    ensures WriteHeader(h) ==
            Encode(4, h.id)
            + [if h.kind == StringKind then 1 else if h.kind == ArrayKind then 2 else 3]
            + [if h.frozen && h.hasDefault then 3 else if h.hasDefault then 2 else if h.frozen then 1 else 0]
            + [0, 0] + Encode(4, h.bodyLen)
  {
    Widths();
  }

  /** A body is a count and the bytes or references it counts; a Hash counts its pairs, not its default. */
  lemma BodyLayout(o: Obj)
    requires ObjFits(o)
    ensures Pow256(4) == U32
    ensures match o.kind
            case StringKind => |o.bytes| < U32 && EncodeBody(o) == Encode(4, |o.bytes|) + o.bytes
            case ArrayKind => |o.refs| < U32 && EncodeBody(o) == Encode(4, |o.refs|) + WriteRefs(o.refs)
            case HashKind =>
              var pairs := (if o.hasDefault then |o.refs| - 1 else |o.refs|) / 2;
              0 <= pairs < U32 && EncodeBody(o) == Encode(4, pairs) + WriteRefs(o.refs)
  {
    Widths();
    RefsAtLeastOneByte(o.refs);
    hide Encode, WriteRefs, Pow256;
  }

  /** The array that contains itself, whole. */
  lemma SelfArrayPayload()
    ensures var g := Graph([Obj(ArrayKind, false, false, [], [Node(0)])], Node(0));
            && GraphFits(g)
            && EncodePayload(g) ==
               [0, 0, 0, 1, 0, 0, 0, 1, 6, 0, 0, 0, 0]
               + ([0, 0, 0, 0, 2, 0, 0, 0, 0, 0, 0, 9] + [0, 0, 0, 1, 6, 0, 0, 0, 0])
  {
    var o := Obj(ArrayKind, false, false, [], [Node(0)]);
    var g := Graph([o], Node(0));
    SelfArrayRecord(o);
    OneNode(0, o);
    FourByteInteger(1);
    hide Encode, Pow256, EncodeNode, EncodeNodes, WriteRef, ObjFits, ObjsFit, EdgeTotal;
    var one := Width(4, 1);
    assert one == [0, 0, 0, 1];
    assert EncodePayload(g) == one + one + WriteRef(g.root) + EncodeNode(0, o);
    Joined(one, one, WriteRef(g.root), EncodeNode(0, o));
  }

  lemma OneNode(id: nat, o: Obj)
    requires id < U32 && ObjFits(o)
    ensures ObjsFit([o]) && EncodeNodes(id, [o]) == EncodeNode(id, o) && EdgeTotal([o]) == |o.refs|
  {
    assert [o][1..] == [];
    hide EncodeNode, ObjFits;
    assert EncodeNodes(id, [o]) == EncodeNode(id, o) + [];
  }

  lemma Joined(a: Bytes, b: Bytes, c: Bytes, d: Bytes)
    requires a == [0, 0, 0, 1] && b == a && c == [6, 0, 0, 0, 0]
    ensures a + b + c + d == [0, 0, 0, 1, 0, 0, 0, 1, 6, 0, 0, 0, 0] + d
  {
    assert a + b + c == [0, 0, 0, 1, 0, 0, 0, 1, 6, 0, 0, 0, 0];
  }

  lemma SelfArrayRecord(o: Obj)
    requires o == Obj(ArrayKind, false, false, [], [Node(0)])
    ensures ObjFits(o) && WriteRef(Node(0)) == [6, 0, 0, 0, 0]
    ensures EncodeNode(0, o) == [0, 0, 0, 0, 2, 0, 0, 0, 0, 0, 0, 9] + [0, 0, 0, 1, 6, 0, 0, 0, 0]
  {
    Widths();
    FourByteInteger(0);
    FourByteInteger(1);
    FourByteInteger(9);
    hide Encode, Pow256;
    assert o.refs[1..] == [];
    assert WriteRefs(o.refs) == [6, 0, 0, 0, 0];
  }

  // ---- the schema ----------------------------------------------------------------------------

  /** Flag bit 0 says there is a schema: 16 bytes of ID, then major and minor; all else is zero. */
  lemma SchemaLayout(payload: Bytes, schema: Option<Schema>)
    requires SchemaFits(schema)
    ensures var p := StateEnvelope(schema, payload);
            && p.kind == StateCapsuleKind && p.payload == payload && |p.metadata| == 64
            && match schema
               case None => p.flags == 0 && p.metadata == seq(64, i => 0)
               case Some(s) =>
                 p.flags == 1
                 && p.metadata == s.id + [s.major / 0x100, s.major % 0x100] + [s.minor / 0x100, s.minor % 0x100]
                                  + seq(44, i => 0)
  {
    if schema.Some? {
      TwoByteInteger(schema.value.major);
      TwoByteInteger(schema.value.minor);
    }
  }
}
