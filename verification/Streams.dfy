/** The bounds-checked big-endian cursors of artifact.zig:444-553, over a borrowed and an owned buffer. */
module Streams {
  import opened Arith
  import opened BigEndian
  import opened Graph
  import opened Results
  import opened Wire

  /** A read that obeys the grammar function `spec` returns its value and leaves its remainder. */
  ghost predicate Follows<T(!new)>(spec: Result<(T, Bytes)>, result: Result<T>, rest: Bytes) {
    match spec
    case Ok(pair) => result == Ok(pair.0) && rest == pair.1
    case Err(e) => result == Err(e)
  }

  /** getU64's accumulation loop; getU16 and getU32 are the same sum written out. */
  method GetInt(bytes: Bytes) returns (v: nat)
    ensures v == Decode(bytes)
  {
    v := 0;
    for i := 0 to |bytes|
      invariant v == Decode(bytes[..i])
    {
      assert bytes[..i + 1][..i] == bytes[..i];
      v := 0x100 * v + bytes[i];
    }
    assert bytes[..|bytes|] == bytes;
  }

  class Reader {
    const bytes: Bytes
    var offset: nat

    ghost predicate Valid()
      reads this
    {
      offset <= |bytes|
    }

    /** What is left to read. */
    ghost function Rest(): Bytes
      reads this
      requires Valid()
    {
      bytes[offset..]
    }

    constructor (bytes: Bytes)
      ensures Valid() && Rest() == bytes && this.bytes == bytes && offset == 0
    {
      this.bytes := bytes;
      offset := 0;
    }

    method Finish() returns (result: Result<()>)
      requires Valid()
      ensures result == if Rest() == [] then Ok(()) else Err(InvalidArtifact)
    {
      result := if offset != |bytes| then Err(InvalidArtifact) else Ok(());
    }

    method ReadBytes(len: nat) returns (result: Result<Bytes>)
      requires Valid()
      modifies this
      ensures Valid() && Follows(Take(old(Rest()), len), result, Rest())
    {
      if len > |bytes| - offset {
        return Err(InvalidArtifact);
      }
      var start := offset;
      offset := offset + len;
      assert bytes[start..][..len] == bytes[start..offset] && bytes[start..][len..] == bytes[offset..];
      result := Ok(bytes[start..offset]);
    }

    method ReadInt(width: nat) returns (result: Result<nat>)
      requires Valid()
      modifies this
      ensures Valid() && Follows(TakeInt(old(Rest()), width), result, Rest())
    {
      var taken :- ReadBytes(width);
      var v := GetInt(taken);
      result := Ok(v);
    }

    /** readValueRef. */
    method ReadValueRef() returns (result: Result<Ref>)
      requires Valid()
      modifies this
      ensures Valid() && Follows(ReadRef(old(Rest())), result, Rest())
    {
      hide Decode, Encode;
      var tag :- ReadBytes(1);
      match tag[0] {
        case 0 => result := Ok(Nil);
        case 1 => result := Ok(False);
        case 2 => result := Ok(True);
        case 3 =>
          var v :- ReadInt(8);
          Widths();
          result := Ok(Int(FromU64(v)));
        case 4 =>
          var v :- ReadInt(8);
          result := Ok(Float(v));
        case 5 =>
          var n :- ReadInt(4);
          var name :- ReadBytes(n);
          result := Ok(Symbol(name));
        case 6 =>
          var id :- ReadInt(4);
          result := Ok(Node(id));
        case _ => result := Err(InvalidArtifact);
      }
    }

    /** readNodeRecordHeader. */
    method ReadNodeRecordHeader() returns (result: Result<Header>)
      requires Valid()
      modifies this
      ensures Valid() && Follows(ReadHeader(old(Rest())), result, Rest())
    {
      hide Decode, Encode;
      var id :- ReadInt(4);
      var kindByte :- ReadBytes(1);
      var kind: Kind;
      match kindByte[0] {
        case 1 => kind := StringKind;
        case 2 => kind := ArrayKind;
        case 3 => kind := HashKind;
        case _ => return Err(InvalidArtifact);
      }
      var flags :- ReadBytes(1);
      var reserved :- ReadInt(2);
      if reserved != 0 {
        return Err(InvalidArtifact);
      }
      if !FlagsAllowed(kind, flags[0]) {
        return Err(InvalidArtifact);
      }
      var bodyLen :- ReadInt(4);
      result := Ok(Header(id, kind, flags[0] % 2 == 1, flags[0] / 2 == 1, bodyLen));
    }
  }

  // ---- writing -------------------------------------------------------------------------------

  /** Dividing byte by byte is dividing by the whole power. */
  lemma DivDiv(v: nat, p: nat)
    requires p > 0
    ensures v / 0x100 / p == v / (0x100 * p)
  {
    var a, b := v / 0x100, v % 0x100;
    DivMod(a, p);
    MulAssoc(0x100, p, a / p);
    ModUnique(v, 0x100 * p, a / p, 0x100 * (a % p) + b);
  }

  /** putU16 .. putU64 store byte `i` as the truncated shift by the bytes after it. */
  lemma {:induction false} EncodeAt(width: nat, v: nat, i: nat)
    requires i < width && v < Pow256(width)
    ensures Encode(width, v)[i] == v / Pow256(width - 1 - i) % 0x100
  {
    if i < width - 1 {
      EncodeAt(width - 1, v / 0x100, i);
      DivDiv(v, Pow256(width - 2 - i));
    }
  }

  class Writer {
    const bytes: array<byte>
    var offset: nat

    ghost predicate Valid()
      reads this
    {
      offset <= bytes.Length
    }

    /** What has been written so far. */
    ghost function Written(): Bytes
      reads this, bytes
      requires Valid()
    {
      bytes[..offset]
    }

    constructor (bytes: array<byte>)
      ensures Valid() && this.bytes == bytes && Written() == []
    {
      this.bytes := bytes;
      offset := 0;
    }

    method Finish() returns (result: Result<()>)
      requires Valid()
      ensures result == if offset == bytes.Length then Ok(()) else Err(NoSpaceLeft)
    {
      result := if offset != bytes.Length then Err(NoSpaceLeft) else Ok(());
    }

    method WriteBytes(s: Bytes) returns (result: Result<()>)
      requires Valid()
      modifies this, bytes
      ensures Valid()
      ensures if old(offset) + |s| <= bytes.Length
              then result == Ok(()) && Written() == old(Written()) + s
              else result == Err(NoSpaceLeft) && Written() == old(Written())
    {
      if |s| > bytes.Length - offset {
        return Err(NoSpaceLeft);
      }
      forall i | 0 <= i < |s| {
        bytes[offset + i] := s[i];
      }
      offset := offset + |s|;
      result := Ok(());
    }

    method WriteInt(width: nat, v: nat) returns (result: Result<()>)
      requires Valid() && v < Pow256(width)
      modifies this, bytes
      ensures Valid()
      ensures if old(offset) + width <= bytes.Length
              then result == Ok(()) && Written() == old(Written()) + Encode(width, v)
              else result == Err(NoSpaceLeft) && Written() == old(Written())
    {
      if width > bytes.Length - offset {
        return Err(NoSpaceLeft);
      }
      var start := offset;
      for i := 0 to width
        invariant offset == start
        invariant bytes[..start] == old(bytes[..offset])
        invariant forall k :: 0 <= k < i ==> bytes[start + k] == Encode(width, v)[k]
      {
        EncodeAt(width, v, i);
        bytes[start + i] := v / Pow256(width - 1 - i) % 0x100;
      }
      offset := start + width;
      assert bytes[..offset] == bytes[..start] + Encode(width, v);
      result := Ok(());
    }

    /** writeValueRef. */
    method WriteValueRef(r: Ref) returns (result: Result<()>)
      requires Valid() && RefFits(r)
      modifies this, bytes
      ensures Valid()
      ensures if old(offset) + |WriteRef(r)| <= bytes.Length
              then result == Ok(()) && Written() == old(Written()) + WriteRef(r)
              else result == Err(NoSpaceLeft)
    {
      hide WritePayload;
      ghost var before := Written();
      var _ :- WriteBytes([Tag(r)]);
      result := WritePayloadOf(r);
      Regroup(before, [Tag(r)], WritePayload(r));
    }

    /** writeValueRef after the tag byte. */
    method WritePayloadOf(r: Ref) returns (result: Result<()>)
      requires Valid() && RefFits(r)
      modifies this, bytes
      ensures Valid()
      ensures if old(offset) + |WritePayload(r)| <= bytes.Length
              then result == Ok(()) && Written() == old(Written()) + WritePayload(r)
              else result == Err(NoSpaceLeft)
    {
      hide Encode, Pow256;
      Widths();
      result := Ok(());
      match r {
        case Int(i) => result := WriteInt(8, ToU64(i));
        case Float(bits) => result := WriteInt(8, bits);
        case Symbol(name) =>
          ghost var before := Written();
          var _ :- WriteInt(4, |name|);
          result := WriteBytes(name);
          Regroup(before, Width(4, |name|), name);
        case Node(id) => result := WriteInt(4, id);
        case _ =>
      }
    }

    /** writeNodeRecordHeader. */
    method WriteNodeRecordHeader(h: Header) returns (result: Result<()>)
      requires Valid() && HeaderFits(h)
      modifies this, bytes
      ensures Valid()
      ensures if old(offset) + 12 <= bytes.Length
              then result == Ok(()) && Written() == old(Written()) + WriteHeader(h)
              else result == Err(NoSpaceLeft)
    {
      hide Encode, Pow256, KindByte, FlagsByte, FlagsAllowed;
      Widths();
      ZeroPair();
      MaskHolds(h);
      ghost var before := Written();
      var flags := FlagsByte(h.frozen, h.hasDefault);
      if !FlagsAllowed(h.kind, flags) {
        assert false;
        return Err(InvalidArtifact);
      }
      var _ :- WriteInt(4, h.id);
      var _ :- WriteBytes([KindByte(h.kind)]);
      var _ :- WriteBytes([flags]);
      assert Written() == before + (Width(4, h.id) + [KindByte(h.kind)] + [flags]);
      var _ :- WriteInt(2, 0);
      var _ :- WriteInt(4, h.bodyLen);
      result := Ok(());
    }
  }

  lemma MaskHolds(h: Header)
    requires HeaderFits(h)
    ensures FlagsAllowed(h.kind, FlagsByte(h.frozen, h.hasDefault))
  {
  }
}
