/**
 * The byte grammar of one reference and one node record (artifact.zig:432-632), as a writer that
 * appends and a reader that consumes a prefix, and the laws that make them inverse to each other.
 */
module Wire {
  import opened BigEndian
  import opened Graph
  import opened Results

  function Take(s: Bytes, n: nat): Result<(Bytes, Bytes)> {
    if n <= |s| then Ok((s[..n], s[n..])) else Err(InvalidArtifact)
  }

  function TakeInt(s: Bytes, width: nat): Result<(nat, Bytes)> {
    var (b, rest) :- Take(s, width);
    Ok((Decode(b), rest))
  }

  lemma TakeAppend(b: Bytes, rest: Bytes)
    ensures Take(b + rest, |b|) == Ok((b, rest))
  {
    assert (b + rest)[..|b|] == b && (b + rest)[|b|..] == rest;
  }

  lemma TakeIntAppend(width: nat, v: nat, rest: Bytes)
    requires v < Pow256(width)
    ensures TakeInt(Encode(width, v) + rest, width) == Ok((v, rest))
  {
    TakeAppend(Encode(width, v), rest);
    DecodeEncode(width, v);
  }

  lemma TakeIntInverse(s: Bytes, width: nat)
    requires TakeInt(s, width).Ok?
    ensures TakeInt(s, width).value.0 < Pow256(width)
    ensures s == Encode(width, TakeInt(s, width).value.0) + TakeInt(s, width).value.1
  {
    hide Encode, Decode, Pow256;
    var b, rest := s[..width], s[width..];
    assert s == b + rest;
    EncodeDecode(b);
    assert TakeInt(s, width) == Ok((Decode(b), rest));
  }

  /** Two's complement, both ways. */
  function ToU64(i: int): (v: nat)
    requires -0x8000_0000_0000_0000 <= i < 0x8000_0000_0000_0000
    ensures v < U64
  {
    if i < 0 then i + U64 else i
  }

  function FromU64(v: nat): (i: int)
    requires v < U64
    ensures -0x8000_0000_0000_0000 <= i < 0x8000_0000_0000_0000
    ensures ToU64(i) == v
  {
    if v >= 0x8000_0000_0000_0000 then v - U64 else v
  }

  function Width(width: nat, v: nat): Bytes
    requires width == 2 || width == 4 || width == 8
    requires v < if width == 2 then U16 else if width == 4 then U32 else U64
  {
    Widths();
    Encode(width, v)
  }

  function Tag(r: Ref): byte {
    match r
    case Nil => 0
    case False => 1
    case True => 2
    case Int(_) => 3
    case Float(_) => 4
    case Symbol(_) => 5
    case Node(_) => 6
  }

  function WritePayload(r: Ref): Bytes
    requires RefFits(r)
  {
    match r
    case Int(i) => Width(8, ToU64(i))
    case Float(bits) => Width(8, bits)
    case Symbol(name) => Width(4, |name|) + name
    case Node(id) => Width(4, id)
    case _ => []
  }

  function WriteRef(r: Ref): (s: Bytes)
    requires RefFits(r)
    ensures |s| >= 1
  {
    [Tag(r)] + WritePayload(r)
  }

  function ReadSymbol(s: Bytes): Result<(Ref, Bytes)> {
    var (n, rest) :- TakeInt(s, 4);
    var (name, rest) :- Take(rest, n);
    Ok((Symbol(name), rest))
  }

  function ReadPayload(tag: byte, s: Bytes): Result<(Ref, Bytes)> {
    match tag
    case 0 => Ok((Nil, s))
    case 1 => Ok((False, s))
    case 2 => Ok((True, s))
    case 3 =>
      var (v, rest) :- TakeInt(s, 8);
      Widths();
      Ok((Int(FromU64(v)), rest))
    case 4 =>
      var (v, rest) :- TakeInt(s, 8);
      Ok((Float(v), rest))
    case 5 => ReadSymbol(s)
    case 6 =>
      var (id, rest) :- TakeInt(s, 4);
      Ok((Node(id), rest))
    case _ => Err(InvalidArtifact)
  }

  function ReadRef(s: Bytes): Result<(Ref, Bytes)> {
    if s == [] then Err(InvalidArtifact) else ReadPayload(s[0], s[1..])
  }

  lemma ReadWrittenSymbol(name: Bytes, rest: Bytes)
    requires |name| < U32
    ensures ReadSymbol(Width(4, |name|) + name + rest) == Ok((Symbol(name), rest))
  {
    Widths();
    Regroup(Width(4, |name|), name, rest);
    TakeIntAppend(4, |name|, name + rest);
    TakeAppend(name, rest);
  }

  lemma ReadWrittenPayload(r: Ref, rest: Bytes)
    requires RefFits(r)
    ensures ReadPayload(Tag(r), WritePayload(r) + rest) == Ok((r, rest))
  {
    Widths();
    match r {
      case Int(i) => TakeIntAppend(8, ToU64(i), rest);
      case Float(bits) => TakeIntAppend(8, bits, rest);
      case Symbol(name) => ReadWrittenSymbol(name, rest);
      case Node(id) => TakeIntAppend(4, id, rest);
      case _ => assert [] + rest == rest;
    }
  }

  lemma ReadWrittenRef(r: Ref, rest: Bytes)
    requires RefFits(r)
    ensures ReadRef(WriteRef(r) + rest) == Ok((r, rest))
  {
    Regroup([Tag(r)], WritePayload(r), rest);
    assert ([Tag(r)] + (WritePayload(r) + rest))[1..] == WritePayload(r) + rest;
    ReadWrittenPayload(r, rest);
  }

  lemma WriteReadSymbol(s: Bytes)
    requires ReadSymbol(s).Ok?
    ensures var (r, rest) := ReadSymbol(s).value; r.Symbol? && RefFits(r) && s == WritePayload(r) + rest
  {
    Widths();
    TakeIntInverse(s, 4);
    var (n, after) := TakeInt(s, 4).value;
    hide TakeInt, Encode, Pow256;
    var (name, rest) := Take(after, n).value;
    assert after == name + rest;
    Regroup(Width(4, n), name, rest);
  }

  lemma WriteReadPayload(tag: byte, s: Bytes)
    requires ReadPayload(tag, s).Ok?
    ensures var (r, rest) := ReadPayload(tag, s).value;
            Tag(r) == tag && RefFits(r) && s == WritePayload(r) + rest
  {
    Widths();
    match tag {
      case 3 => TakeIntInverse(s, 8);
      case 4 => TakeIntInverse(s, 8);
      case 5 => WriteReadSymbol(s);
      case 6 => TakeIntInverse(s, 4);
      case _ => assert [] + s == s;
    }
  }

  lemma WriteReadRef(s: Bytes)
    requires ReadRef(s).Ok?
    ensures var (r, rest) := ReadRef(s).value; RefFits(r) && s == WriteRef(r) + rest
  {
    WriteReadPayload(s[0], s[1..]);
    var (r, rest) := ReadRef(s).value;
    Regroup([s[0]], WritePayload(r), rest);
    assert s == [s[0]] + s[1..];
  }

  lemma Regroup(a: Bytes, b: Bytes, c: Bytes)
    ensures a + (b + c) == (a + b) + c
  {}

  function WriteRefs(refs: seq<Ref>): Bytes
    requires RefsFit(refs)
  {
    if refs == [] then [] else WriteRef(refs[0]) + WriteRefs(refs[1..])
  }

  // ---- node record headers -------------------------------------------------------------------

  datatype Header = Header(id: nat, kind: Kind, frozen: bool, hasDefault: bool, bodyLen: nat)

  function KindByte(kind: Kind): byte {
    match kind case StringKind => 1 case ArrayKind => 2 case HashKind => 3
  }

  function FlagsByte(frozen: bool, hasDefault: bool): byte {
    (if frozen then 1 else 0) + (if hasDefault then 2 else 0)
  }

  /** validateNodeFlags: a flag outside the kind's mask is refused. */
  predicate FlagsAllowed(kind: Kind, flags: byte) {
    if kind == HashKind then flags / 4 == 0 else flags / 2 == 0
  }

  predicate HeaderFits(h: Header) {
    h.id < U32 && h.bodyLen < U32 && (h.hasDefault ==> h.kind == HashKind)
  }

  function WriteHeader(h: Header): (s: Bytes)
    requires HeaderFits(h)
    ensures |s| == 12
  {
    Width(4, h.id) + [KindByte(h.kind)] + [FlagsByte(h.frozen, h.hasDefault)] + [0, 0] + Width(4, h.bodyLen)
  }

  function ReadHeader(s: Bytes): Result<(Header, Bytes)> {
    var (id, rest) :- TakeInt(s, 4);
    var (kindByte, rest) :- Take(rest, 1);
    var _ :- Require(1 <= kindByte[0] <= 3, InvalidArtifact);
    var kind := if kindByte[0] == 1 then StringKind else if kindByte[0] == 2 then ArrayKind else HashKind;
    var (flags, rest) :- Take(rest, 1);
    var (reserved, rest) :- TakeInt(rest, 2);
    var _ :- Require(reserved == 0, InvalidArtifact);
    var _ :- Require(FlagsAllowed(kind, flags[0]), InvalidArtifact);
    var (bodyLen, rest) :- TakeInt(rest, 4);
    Ok((Header(id, kind, flags[0] % 2 == 1, flags[0] / 2 == 1, bodyLen), rest))
  }

  lemma ReadWrittenHeader(h: Header, rest: Bytes)
    requires HeaderFits(h)
    ensures ReadHeader(WriteHeader(h) + rest) == Ok((h, rest))
  {
    Widths();
    var s := WriteHeader(h) + rest;
    var tail4 := Width(4, h.bodyLen) + rest;
    var tail3 := [0, 0] + tail4;
    var tail2 := [FlagsByte(h.frozen, h.hasDefault)] + tail3;
    var tail1 := [KindByte(h.kind)] + tail2;
    assert s == Width(4, h.id) + tail1;
    TakeIntAppend(4, h.id, tail1);
    TakeAppend([KindByte(h.kind)], tail2);
    TakeAppend([FlagsByte(h.frozen, h.hasDefault)], tail3);
    ZeroPair();
    TakeIntAppend(2, 0, tail4);
    TakeIntAppend(4, h.bodyLen, rest);
  }

  lemma ZeroPair()
    ensures Encode(2, 0) == [0, 0] && Pow256(2) > 0
  {
    assert Encode(1, 0) == Encode(0, 0) + [0];
  }

  lemma WriteReadHeader(s: Bytes)
    requires ReadHeader(s).Ok?
    ensures var (h, rest) := ReadHeader(s).value; HeaderFits(h) && s == WriteHeader(h) + rest
  {
    hide Encode, TakeInt, Pow256;
    Widths();
    var (h, rest) := ReadHeader(s).value;
    TakeIntInverse(s, 4);
    var tail1 := TakeInt(s, 4).value.1;
    var (kindByte, tail2) := Take(tail1, 1).value;
    var (flags, tail3) := Take(tail2, 1).value;
    assert tail1 == [KindByte(h.kind)] + tail2;
    assert tail2 == [FlagsByte(h.frozen, h.hasDefault)] + tail3;
    TakeIntInverse(tail3, 2);
    ZeroPair();
    var tail4 := TakeInt(tail3, 2).value.1;
    TakeIntInverse(tail4, 4);
    assert s == Width(4, h.id)
                + ([KindByte(h.kind)]
                   + ([FlagsByte(h.frozen, h.hasDefault)] + ([0, 0] + (Width(4, h.bodyLen) + rest))));
  }
}
