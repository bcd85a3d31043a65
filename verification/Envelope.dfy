/**
 * The common artifact envelope and the StateCapsule metadata inside it (artifact.zig:130-228 and
 * 306-362). SHA-256 is a parameter: any function from bytes to 32 bytes.
 */
module Envelope {
  import opened BigEndian
  import opened Results

  const MAGIC: Bytes := [0x4D, 0x52, 0x5A, 0x41, 0x52, 0x54, 0x46, 0]
  const HEADER_LEN: nat := 128
  const DOMAIN: Bytes := [
    0x6D, 0x72, 0x75, 0x62, 0x79, 0x2D, 0x7A, 0x69, 0x67, 0x2F, 0x61, 0x72, 0x74, 0x69, 0x66, 0x61,
    0x63, 0x74, 0x2D, 0x63, 0x68, 0x65, 0x63, 0x6B, 0x73, 0x75, 0x6D, 0x2F, 0x76, 0x31, 0]

  datatype ArtifactKind = RiteKind | StateCapsuleKind

  datatype Parsed = Parsed(kind: ArtifactKind, flags: byte, metadata: Bytes, payload: Bytes)

  type Digest = Bytes -> Bytes

  ghost predicate IsDigest(sha: Digest) {
    forall b :: |sha(b)| == 32
  }

  function Zeros(n: nat): (z: Bytes)
    ensures |z| == n && forall i :: 0 <= i < n ==> z[i] == 0
  {
    seq(n, i => 0)
  }

  predicate AllZero(s: Bytes) {
    s == Zeros(|s|)
  }

  function KindCode(kind: ArtifactKind): byte {
    if kind == RiteKind then 1 else 2
  }

  /** calculateChecksum over the fixed header fields, with the checksum field itself read as zero. */
  function Checksum(sha: Digest, fixed: Bytes, reserved: Bytes, payload: Bytes): Bytes {
    sha(DOMAIN + fixed + Zeros(32) + reserved + payload)
  }

  predicate EnvelopeFits(p: Parsed) {
    |p.metadata| == 64 && |p.payload| < U64
  }

  /** The header up to the checksum. */
  function FixedHeader(p: Parsed): (s: Bytes)
    requires EnvelopeFits(p)
    ensures |s| == 88
  {
    Widths();
    MAGIC + Encode(2, 1) + Encode(2, 0) + [KindCode(p.kind)] + [p.flags] + Encode(2, HEADER_LEN)
    + Encode(8, |p.payload|) + p.metadata
  }

  /** encodeEnvelopeInto, as the bytes it leaves in its output. */
  function EncodeEnvelope(sha: Digest, p: Parsed): Bytes
    requires EnvelopeFits(p)
  {
    var fixed := FixedHeader(p);
    fixed + Checksum(sha, fixed, Zeros(8), p.payload) + Zeros(8) + p.payload
  }

  /** parseEnvelope. */
  function ParseEnvelope(sha: Digest, s: Bytes, maxBytes: nat): Result<Parsed> {
    if |s| > maxBytes then Err(ArtifactLimitExceeded)
    else if |s| < HEADER_LEN then Err(InvalidArtifact)
    else if s[0..8] != MAGIC then Err(InvalidArtifact)
    else if Decode(s[8..10]) != 1 || Decode(s[10..12]) != 0 then Err(UnsupportedArtifactVersion)
    else if Decode(s[14..16]) != HEADER_LEN then Err(InvalidArtifact)
    else if s[12] != 1 && s[12] != 2 then Err(InvalidArtifact)
    else if |s| != HEADER_LEN + Decode(s[16..24]) then Err(InvalidArtifact)
    else if !AllZero(s[120..128]) then Err(InvalidArtifact)
    else if s[88..120] != Checksum(sha, s[0..88], s[120..128], s[128..]) then Err(ChecksumMismatch)
    else Ok(Parsed(if s[12] == 1 then RiteKind else StateCapsuleKind, s[13], s[24..88], s[128..]))
  }

  lemma DecodeIs(s: Bytes, v: nat)
    requires Decode(s) == v
    ensures v < Pow256(|s|) && s == Encode(|s|, v)
  {
    EncodeDecode(s);
  }

  lemma HeaderFields(s: Bytes)
    requires |s| >= HEADER_LEN
    ensures s[0..88] == s[0..8] + s[8..10] + s[10..12] + [s[12]] + [s[13]] + s[14..16] + s[16..24] + s[24..88]
    ensures s == s[0..88] + s[88..120] + s[120..128] + s[128..]
  {
    var a := s[0..88];
    assert s[0..8] + s[8..10] + s[10..12] == a[..12];
    assert a[..12] + [s[12]] + [s[13]] == a[..14];
    assert a[..14] + s[14..16] + s[16..24] == a[..24];
    assert a[..24] + s[24..88] == a;
  }

  lemma ParsedIsEnvelope(sha: Digest, s: Bytes, maxBytes: nat)
    requires ParseEnvelope(sha, s, maxBytes).Ok?
    ensures var p := ParseEnvelope(sha, s, maxBytes).value;
            |s| <= maxBytes && EnvelopeFits(p) && s == EncodeEnvelope(sha, p)
  {
    hide Encode, Decode, Checksum;
    Widths();
    var p := ParseEnvelope(sha, s, maxBytes).value;
    DecodeIs(s[8..10], 1);
    DecodeIs(s[10..12], 0);
    DecodeIs(s[14..16], HEADER_LEN);
    DecodeIs(s[16..24], |p.payload|);
    HeaderFields(s);
    assert s[0..88] == FixedHeader(p);
  }

  lemma FixedHeaderFields(p: Parsed)
    requires EnvelopeFits(p)
    ensures var s := FixedHeader(p);
            && s[0..8] == MAGIC && s[8..10] == Encode(2, 1) && s[10..12] == Encode(2, 0)
            && s[12] == KindCode(p.kind) && s[13] == p.flags && s[14..16] == Encode(2, HEADER_LEN)
            && s[16..24] == Encode(8, |p.payload|) && s[24..88] == p.metadata
  {
    hide Encode;
    Widths();
  }

  lemma SlicesOfPrefix(a: Bytes, b: Bytes, i: nat, j: nat)
    requires i <= j <= |a|
    ensures (a + b)[i..j] == a[i..j]
  {
  }

  lemma EnvelopeParses(sha: Digest, p: Parsed, maxBytes: nat)
    requires IsDigest(sha) && EnvelopeFits(p)
    ensures ParseEnvelope(sha, EncodeEnvelope(sha, p), maxBytes) ==
            if HEADER_LEN + |p.payload| > maxBytes then Err(ArtifactLimitExceeded) else Ok(p)
  {
    hide Encode, Decode, Checksum, FixedHeader;
    Widths();
    var fixed := FixedHeader(p);
    var sum := Checksum(sha, fixed, Zeros(8), p.payload);
    assert |sum| == 32 by {
      ChecksumLength(sha, fixed, p.payload);
    }
    var s := EncodeEnvelope(sha, p);
    var tail := sum + Zeros(8) + p.payload;
    assert s == fixed + tail;
    FixedHeaderFields(p);
    SlicesOfPrefix(fixed, tail, 0, 8);
    SlicesOfPrefix(fixed, tail, 8, 10);
    SlicesOfPrefix(fixed, tail, 10, 12);
    SlicesOfPrefix(fixed, tail, 14, 16);
    SlicesOfPrefix(fixed, tail, 16, 24);
    SlicesOfPrefix(fixed, tail, 24, 88);
    assert s[12] == fixed[12] && s[13] == fixed[13];
    assert s[0..88] == fixed && s[88..120] == sum && s[120..128] == Zeros(8) && s[128..] == p.payload;
    DecodeEncode(2, 1);
    DecodeEncode(2, 0);
    DecodeEncode(2, HEADER_LEN);
    DecodeEncode(8, |p.payload|);
  }

  lemma ChecksumLength(sha: Digest, fixed: Bytes, payload: Bytes)
    requires IsDigest(sha)
    ensures |Checksum(sha, fixed, Zeros(8), payload)| == 32
  {
  }

  /** The envelope parser is exactly the inverse of the envelope writer. */
  lemma EnvelopeExactly(sha: Digest, s: Bytes, p: Parsed, maxBytes: nat)
    requires IsDigest(sha)
    ensures ParseEnvelope(sha, s, maxBytes) == Ok(p) <==>
            |s| <= maxBytes && EnvelopeFits(p) && s == EncodeEnvelope(sha, p)
  {
    hide ParseEnvelope, EnvelopeFits, EncodeEnvelope;
    if ParseEnvelope(sha, s, maxBytes) == Ok(p) {
      ParsedIsEnvelope(sha, s, maxBytes);
    }
    if EnvelopeFits(p) {
      EnvelopeParses(sha, p, maxBytes);
      EnvelopeLength(sha, p);
    }
  }

  lemma EnvelopeLength(sha: Digest, p: Parsed)
    requires IsDigest(sha) && EnvelopeFits(p)
    ensures |EncodeEnvelope(sha, p)| == HEADER_LEN + |p.payload|
  {
    ChecksumLength(sha, FixedHeader(p), p.payload);
  }

  // ---- the schema of a StateCapsule ----------------------------------------------------------

  datatype Schema = Schema(id: Bytes, major: nat, minor: nat) {
    /** Whether this accepted schema can decode a capsule produced by `other`. */
    predicate Accepts(other: Schema) {
      id == other.id && major == other.major && other.minor <= minor
    }

    predicate Fits() {
      |id| == 16 && major < U16 && minor < U16
    }
  }

  predicate SchemaFits(schema: Option<Schema>) {
    schema.Some? ==> schema.value.Fits()
  }

  /** optionalSchemaAccepts. */
  predicate SchemaAccepted(accepted: Option<Schema>, produced: Option<Schema>) {
    match accepted
    case Some(a) => produced.Some? && a.Accepts(produced.value)
    case None => produced.None?
  }

  function SchemaMetadata(schema: Option<Schema>): (m: Bytes)
    requires SchemaFits(schema)
    ensures |m| == 64
  {
    Widths();
    match schema
    case None => Zeros(64)
    case Some(s) => s.id + Encode(2, s.major) + Encode(2, s.minor) + Zeros(44)
  }

  function StateEnvelope(schema: Option<Schema>, payload: Bytes): Parsed
    requires SchemaFits(schema)
  {
    Parsed(StateCapsuleKind, if schema.Some? then 1 else 0, SchemaMetadata(schema), payload)
  }

  /** wrapState. */
  function WrapState(sha: Digest, payload: Bytes, schema: Option<Schema>, maxBytes: nat): Result<Bytes>
    requires SchemaFits(schema) && |payload| < U64
  {
    if HEADER_LEN + |payload| > maxBytes then Err(ArtifactLimitExceeded)
    else Ok(EncodeEnvelope(sha, StateEnvelope(schema, payload)))
  }

  /** validateState. */
  function ValidateState(sha: Digest, s: Bytes, accepted: Option<Schema>, maxBytes: nat)
    : Result<(Bytes, Option<Schema>)>
  {
    var p :- ParseEnvelope(sha, s, maxBytes);
    var _ :- Require(p.kind == StateCapsuleKind && p.flags / 2 == 0, InvalidArtifact);
    var _ :- Require(|p.metadata| == 64 && AllZero(p.metadata[if p.flags == 1 then 20 else 0..]), InvalidArtifact);
    var schema := if p.flags == 1
                  then Some(Schema(p.metadata[0..16], Decode(p.metadata[16..18]), Decode(p.metadata[18..20])))
                  else None;
    if SchemaAccepted(accepted, schema) then Ok((p.payload, schema)) else Err(SchemaMismatch)
  }

  lemma MetadataInverse(m: Bytes)
    requires |m| == 64 && AllZero(m[20..])
    ensures var s := Schema(m[0..16], Decode(m[16..18]), Decode(m[18..20]));
            s.Fits() && SchemaMetadata(Some(s)) == m
  {
    hide Encode, Decode;
    Widths();
    EncodeDecode(m[16..18]);
    EncodeDecode(m[18..20]);
    assert m == m[0..16] + m[16..18] + m[18..20] + m[20..];
  }

  lemma MetadataFields(s: Schema)
    requires s.Fits()
    ensures var m := SchemaMetadata(Some(s));
            m[0..16] == s.id && Decode(m[16..18]) == s.major && Decode(m[18..20]) == s.minor && AllZero(m[20..])
  {
    hide Encode, Decode;
    Widths();
    var m := SchemaMetadata(Some(s));
    DecodeEncode(2, s.major);
    DecodeEncode(2, s.minor);
    assert m[16..18] == Encode(2, s.major) && m[18..20] == Encode(2, s.minor) && m[20..] == Zeros(44);
  }

  /** A capsule is admitted exactly when it is the wrapping of its payload and schema, and the schema is accepted. */
  lemma ValidateExactly(
    sha: Digest, s: Bytes, accepted: Option<Schema>, maxBytes: nat, payload: Bytes, schema: Option<Schema>)
    requires IsDigest(sha)
    ensures ValidateState(sha, s, accepted, maxBytes) == Ok((payload, schema)) <==>
            && |payload| < U64 && SchemaFits(schema) && SchemaAccepted(accepted, schema)
            && WrapState(sha, payload, schema, maxBytes) == Ok(s)
  {
    hide ParseEnvelope, EncodeEnvelope, Decode, SchemaMetadata;
    if ValidateState(sha, s, accepted, maxBytes) == Ok((payload, schema)) {
      var p := ParseEnvelope(sha, s, maxBytes).value;
      ParsedIsEnvelope(sha, s, maxBytes);
      EnvelopeLength(sha, p);
      if p.flags == 1 {
        MetadataInverse(p.metadata);
      } else {
        NoSchema(p.metadata);
      }
      assert p == StateEnvelope(schema, payload);
    }
    if |payload| < U64 && SchemaFits(schema) && WrapState(sha, payload, schema, maxBytes) == Ok(s) {
      EnvelopeParses(sha, StateEnvelope(schema, payload), maxBytes);
      if schema.Some? {
        MetadataFields(schema.value);
      } else {
        NoSchema(Zeros(64));
      }
    }
  }

  lemma NoSchema(m: Bytes)
    requires |m| == 64
    ensures m[0..] == m && (AllZero(m) <==> m == SchemaMetadata(None))
  {
  }
}
