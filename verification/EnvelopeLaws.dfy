/**
 * What the envelope and its schema mean, byte by byte (artifact.zig:150-228, 306-362 and 653-674):
 * the fields by position, the verdict on every byte string, and what the checksum commits to.
 */
module EnvelopeLaws {
  import opened BigEndian
  import opened Envelope
  import opened Results

  // ---- the checksum --------------------------------------------------------------------------

  /**
   * What is hashed: "mruby-zig/artifact-checksum/v1" and a zero byte, then the whole envelope with 32
   * zeros for the checksum field itself.
   */
  function Message(s: Bytes): Bytes
    requires |s| >= 128
  {
    [0x6D, 0x72, 0x75, 0x62, 0x79, 0x2D, 0x7A, 0x69, 0x67, 0x2F, 0x61, 0x72, 0x74, 0x69, 0x66, 0x61,
     0x63, 0x74, 0x2D, 0x63, 0x68, 0x65, 0x63, 0x6B, 0x73, 0x75, 0x6D, 0x2F, 0x76, 0x31, 0]
    + s[..88] + seq(32, i => 0) + s[120..]
  }

  /** An accepted envelope carries the digest of everything else in it, payload included. */
  lemma ChecksumCovers(sha: Digest, s: Bytes, maxBytes: nat)
    requires ParseEnvelope(sha, s, maxBytes).Ok?
    ensures |s| >= 128 && s[88..120] == sha(Message(s))
  {
    MessageRegrouped(s);
  }

  lemma MessageRegrouped(s: Bytes)
    requires |s| >= 128
    ensures DOMAIN + s[0..88] + Zeros(32) + s[120..128] + s[128..] == Message(s)
  {
    assert s[120..] == s[120..128] + s[128..];
  }

  /** Envelopes that differ outside the checksum field are different messages. */
  lemma MessagesDiffer(s: Bytes, t: Bytes)
    requires |s| >= 128 && |t| >= 128 && (s[..88] != t[..88] || s[120..] != t[120..])
    ensures Message(s) != Message(t)
  {
    assert Message(s)[31..119] == s[..88] && Message(t)[31..119] == t[..88];
    assert Message(s)[151..] == s[120..] && Message(t)[151..] == t[120..];
  }

  /**
   * Tampering is detected up to collisions: two different accepted envelopes with the same checksum
   * field are two different messages with one digest.
   */
  lemma TamperingIsCollision(sha: Digest, s: Bytes, t: Bytes, maxBytes: nat)
    requires ParseEnvelope(sha, s, maxBytes).Ok? && ParseEnvelope(sha, t, maxBytes).Ok?
    requires s != t && s[88..120] == t[88..120]
    ensures Message(s) != Message(t) && sha(Message(s)) == sha(Message(t))
  {
    ChecksumCovers(sha, s, maxBytes);
    ChecksumCovers(sha, t, maxBytes);
    assert s == s[..88] + s[88..120] + s[120..];
    assert t == t[..88] + t[88..120] + t[120..];
    MessagesDiffer(s, t);
  }

  // ---- the verdict on every byte string ------------------------------------------------------

  predicate MagicOk(s: Bytes)
    requires |s| >= 128
  {
    s[..8] == [0x4D, 0x52, 0x5A, 0x41, 0x52, 0x54, 0x46, 0]
  }

  predicate VersionOk(s: Bytes)
    requires |s| >= 128
  {
    s[8] == 0 && s[9] == 1 && s[10] == 0 && s[11] == 0
  }

  /** Header length 128, a known kind, the announced payload length, and zeros in the reserved bytes. */
  predicate FieldsOk(s: Bytes)
    requires |s| >= 128
  {
    && s[14] == 0 && s[15] == 128 && (s[12] == 1 || s[12] == 2)
    && |s| == 128 + Decode(s[16..24])
    && forall i :: 120 <= i < 128 ==> s[i] == 0
  }

  lemma TwoBytes(s: Bytes, i: nat)
    requires i + 2 <= |s|
    ensures var high: nat, low: nat := s[i], s[i + 1]; Decode(s[i..i + 2]) == 0x100 * high + low
  {
    var b := s[i..i + 2];
    assert b[..1][..0] == [];
    assert Decode(b[..1]) == s[i];
  }

  /** Every envelope is accepted or refused for exactly the first reason that applies. */
  lemma EnvelopeVerdict(sha: Digest, s: Bytes, maxBytes: nat)
    ensures var r := ParseEnvelope(sha, s, maxBytes);
            && (|s| > maxBytes ==> r == Err(ArtifactLimitExceeded))
            && (|s| <= maxBytes && (|s| < 128 || !MagicOk(s)) ==> r == Err(InvalidArtifact))
            && (128 <= |s| <= maxBytes && MagicOk(s) && !VersionOk(s) ==> r == Err(UnsupportedArtifactVersion))
            && (128 <= |s| <= maxBytes && MagicOk(s) && VersionOk(s) && !FieldsOk(s) ==> r == Err(InvalidArtifact))
            && (128 <= |s| <= maxBytes && MagicOk(s) && VersionOk(s) && FieldsOk(s) ==>
                  if s[88..120] != sha(Message(s)) then r == Err(ChecksumMismatch)
                  else r == Ok(Parsed(if s[12] == 1 then RiteKind else StateCapsuleKind, s[13], s[24..88], s[128..])))
  {
    if |s| >= 128 {
      hide Decode, Message;
      TwoBytes(s, 8);
      TwoBytes(s, 10);
      TwoBytes(s, 14);
      MessageRegrouped(s);
      assert s[0..8] == s[..8];
      assert AllZero(s[120..128]) <==> forall i :: 120 <= i < 128 ==> s[i] == 0 by {
        ReservedZero(s);
      }
    }
  }

  lemma ReservedZero(s: Bytes)
    requires |s| >= 128
    ensures AllZero(s[120..128]) <==> forall i :: 120 <= i < 128 ==> s[i] == 0
  {
    var r := s[120..128];
    assert forall i :: 120 <= i < 128 ==> s[i] == r[i - 120];
    assert forall i :: 0 <= i < 8 ==> r[i] == s[i + 120];
  }

  // ---- the schema ----------------------------------------------------------------------------

  /**
   * A capsule with a schema is for callers with the same id and major and at least its minor; one
   * without is for callers without; nothing else about it can make the schema mismatch.
   */
  lemma SchemaVerdict(
    sha: Digest, payload: Bytes, produced: Option<Schema>, accepted: Option<Schema>, maxBytes: nat)
    requires IsDigest(sha) && |payload| < U64 && SchemaFits(produced) && 128 + |payload| <= maxBytes
    ensures var r := ValidateState(sha, EncodeEnvelope(sha, StateEnvelope(produced, payload)), accepted, maxBytes);
            match (accepted, produced)
            case (Some(a), Some(p)) =>
              if a.id == p.id && a.major == p.major && p.minor <= a.minor then r == Ok((payload, produced))
              else r == Err(SchemaMismatch)
            case (None, None) => r == Ok((payload, produced))
            case _ => r == Err(SchemaMismatch)
  {
    hide ParseEnvelope, EncodeEnvelope, Decode, SchemaMetadata;
    EnvelopeParses(sha, StateEnvelope(produced, payload), maxBytes);
    if produced.Some? {
      MetadataFields(produced.value);
    } else {
      NoSchema(Zeros(64));
    }
  }

  /** The last checks of state validation, on the bytes: kind, flags, unused metadata, and the schema. */
  lemma StateVerdict(sha: Digest, s: Bytes, accepted: Option<Schema>, maxBytes: nat)
    requires ParseEnvelope(sha, s, maxBytes).Ok?
    ensures var r := ValidateState(sha, s, accepted, maxBytes);
            var unused := if s[13] == 1 then 44 else 24;
            if s[12] != 2 || s[13] > 1 || exists i :: unused <= i < 88 && s[i] != 0 then r == Err(InvalidArtifact)
            else if s[13] == 0 then r == if accepted.None? then Ok((s[128..], None)) else Err(SchemaMismatch)
            else
              var schema := Schema(s[24..40], Decode(s[40..42]), Decode(s[42..44]));
              r == if accepted.Some? && accepted.value.id == schema.id && accepted.value.major == schema.major
                      && schema.minor <= accepted.value.minor
                   then Ok((s[128..], Some(schema))) else Err(SchemaMismatch)
  {
    hide Decode, Message;
    EnvelopeVerdict(sha, s, maxBytes);
    var p := ParseEnvelope(sha, s, maxBytes).value;
    MetadataSlices(s);
    ZeroTail(s, 24);
    ZeroTail(s, 44);
    hide ParseEnvelope, AllZero;
    assert p.metadata[0..] == s[24..88];
  }

  lemma MetadataSlices(s: Bytes)
    requires |s| >= 128
    ensures var m := s[24..88];
            m[0..16] == s[24..40] && m[16..18] == s[40..42] && m[18..20] == s[42..44] && m[20..] == s[44..88]
  {
    SliceOfSlice(s, 24, 88, 0, 16);
    SliceOfSlice(s, 24, 88, 16, 18);
    SliceOfSlice(s, 24, 88, 18, 20);
    SliceOfSlice(s, 24, 88, 20, 64);
  }

  lemma SliceOfSlice(s: Bytes, a: nat, b: nat, i: nat, j: nat)
    requires a <= b <= |s| && i <= j <= b - a
    ensures s[a..b][i..j] == s[a + i..a + j]
  {
    var left, right := s[a..b][i..j], s[a + i..a + j];
    assert |left| == |right| == j - i;
    assert forall k :: 0 <= k < |left| ==> left[k] == right[k];
  }

  lemma ZeroTail(s: Bytes, from: nat)
    requires |s| >= 128 && from <= 88
    ensures AllZero(s[from..88]) <==> forall i :: from <= i < 88 ==> s[i] == 0
  {
    var r := s[from..88];
    assert forall i :: from <= i < 88 ==> s[i] == r[i - from];
    assert forall i :: 0 <= i < |r| ==> r[i] == s[i + from];
  }
}
