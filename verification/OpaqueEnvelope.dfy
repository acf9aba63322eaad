/**
 The browser's opaque storage envelope: magic, header length, a canonical CBOR
 header of six fields, and the payload the header's length and digest describe.
 */
module OpaqueEnvelopes {
  import opened ByteStrings
  import opened Cbor
  import opened Ciphers
  import opened Transcripts
  import opened Frames

  const MAGIC: Bytes := [0x41, 0x57, 0x53, 0x4d, 0x53, 0x45, 0x01, 0x00]
  const FORMAT: nat := 1
  const COMPACT: nat := 1
  const STREAMABLE: nat := 2
  const HEADER_LIMIT: nat := 4096

  datatype Prefix = Prefix(
    storageClass: nat, protection: Bytes, ciphertextLength: nat, ciphertextDigest: Bytes, frameLimit: nat,
    header: Bytes, bytes: Bytes)

  datatype Envelope = Envelope(prefix: Prefix, payload: Bytes, bytes: Bytes, storageItemId: Bytes)

  function FrameLimitOf(storageClass: nat): nat {
    if storageClass == COMPACT then 0 else FRAME_LIMIT
  }

  function HeaderValue(storageClass: nat, protection: Bytes, length: nat, digest: Bytes): Value {
    Map([Entry(0, UInt(FORMAT)), Entry(1, UInt(storageClass)), Entry(2, ByteString(protection)), Entry(3, UInt(length)),
         Entry(4, ByteString(digest)), Entry(5, UInt(FrameLimitOf(storageClass)))])
  }

  /** The fields `encodeOpaqueEnvelopePrefix` lets through. */
  predicate FieldsOk(storageClass: nat, protection: Bytes, length: nat, digest: Bytes) {
    && (storageClass == COMPACT || storageClass == STREAMABLE)
    && |protection| == 64 && TAG_LENGTH <= length <= MAX_SAFE_INTEGER && |digest| == 32
  }

  function EncodePrefix(storageClass: nat, protection: Bytes, length: nat, digest: Bytes): Option<Prefix> {
    if !FieldsOk(storageClass, protection, length, digest) then None
    else
      var header := Encode(HeaderValue(storageClass, protection, length, digest));
      if |header| < 1 || |header| > HEADER_LIMIT then None
      else Some(Prefix(storageClass, protection, length, digest, FrameLimitOf(storageClass), header,
                       MAGIC + Uint32(|header|) + header))
  }

  /** The six fields of a decoded header, with their types and the values this version knows. */
  function HeaderFields(v: Value): Option<(nat, Bytes, nat, Bytes)> {
    if !v.Map? || |v.entries| != 6 || exists i | 0 <= i < 6 :: v.entries[i].key != i then None
    else
      var e := v.entries;
      if !e[0].value.UInt? || !e[1].value.UInt? || !e[2].value.ByteString? || |e[2].value.b| != 64
         || !e[3].value.UInt? || e[3].value.n > MAX_SAFE_INTEGER
         || !e[4].value.ByteString? || |e[4].value.b| != 32 || !e[5].value.UInt?
      then None
      else if e[0].value.n != FORMAT || (e[1].value.n != COMPACT && e[1].value.n != STREAMABLE)
              || e[3].value.n < TAG_LENGTH || e[5].value.n != FrameLimitOf(e[1].value.n)
      then None
      else Some((e[1].value.n, e[2].value.b, e[3].value.n, e[4].value.b))
  }

  function DecodePrefix(decode: Decoder, bytes: Bytes): Option<Prefix> {
    if |bytes| < 13 || bytes[..8] != MAGIC then None
    else
      var length := BigEndianValue(bytes[8..12]);
      if length < 1 || length > HEADER_LIMIT || |bytes| != 12 + length then None
      else
        var v := decode(bytes[12..]);
        if v.None? || HeaderFields(v.value).None? then None
        else
          var (storageClass, protection, ciphertextLength, digest) := HeaderFields(v.value).value;
          Some(Prefix(storageClass, protection, ciphertextLength, digest, FrameLimitOf(storageClass),
                      bytes[12..], bytes))
  }

  /** `validatePayload`: a length range for compact payloads, the frame walk for all others. */
  predicate PayloadOk(storageClass: nat, payload: Bytes, compactCeiling: nat) {
    if storageClass == COMPACT then TAG_LENGTH <= |payload| <= compactCeiling
    else Parse(Browser, payload, 0).Some?
  }

  function EncodeEnvelope(hash: Hash, storageClass: nat, protection: Bytes, payload: Bytes, compactCeiling: nat)
    : Option<Envelope>
  {
    if |protection| != 64 || !PayloadOk(storageClass, payload, compactCeiling) then None
    else
      var prefix := EncodePrefix(storageClass, protection, |payload|, hash(payload));
      if prefix.None? then None
      else
        var bytes := prefix.value.bytes + payload;
        var id := ItemIdentity(hash, |bytes|, bytes);
        if id.None? then None else Some(Envelope(prefix.value, payload, bytes, id.value))
  }

  function DecodeEnvelope(hash: Hash, decode: Decoder, bytes: Bytes, compactCeiling: nat): Option<Envelope> {
    if |bytes| < 13 || bytes[..8] != MAGIC then None
    else
      var length := BigEndianValue(bytes[8..12]);
      if length < 1 || length > HEADER_LIMIT || |bytes| < 12 + length then None
      else
        var prefix := DecodePrefix(decode, bytes[..12 + length]);
        if prefix.None? || |bytes| != 12 + length + prefix.value.ciphertextLength then None
        else
          var payload := bytes[12 + length..];
          if hash(payload) != prefix.value.ciphertextDigest
             || !PayloadOk(prefix.value.storageClass, payload, compactCeiling)
          then None
          else
            var id := ItemIdentity(hash, |bytes|, bytes);
            if id.None? then None else Some(Envelope(prefix.value, payload, bytes, id.value))
  }

  // ----- The prefix, both ways -----

  lemma HeaderFits(storageClass: nat, protection: Bytes, length: nat, digest: Bytes)
    requires FieldsOk(storageClass, protection, length, digest)
    ensures 1 <= |Encode(HeaderValue(storageClass, protection, length, digest))| <= HEADER_LIMIT
  {
    var v := HeaderValue(storageClass, protection, length, digest);
    forall i | 0 <= i < 6 ensures Valid(v.entries[i].value) && |Encode(v.entries[i].value)| <= 73 {}
    EntriesBound(v.entries, 73);
  }

  lemma HeaderFieldsOf(storageClass: nat, protection: Bytes, length: nat, digest: Bytes)
    requires FieldsOk(storageClass, protection, length, digest)
    ensures HeaderFields(HeaderValue(storageClass, protection, length, digest)) ==
      Some((storageClass, protection, length, digest))
  {
    var v := HeaderValue(storageClass, protection, length, digest);
    assert forall i | 0 <= i < 6 :: v.entries[i].key == i;
  }

  lemma HeaderFieldsInvert(v: Value)
    requires HeaderFields(v).Some?
    ensures var (storageClass, protection, length, digest) := HeaderFields(v).value;
      FieldsOk(storageClass, protection, length, digest) && v == HeaderValue(storageClass, protection, length, digest)
  {
    var (storageClass, protection, length, digest) := HeaderFields(v).value;
    var e, h := v.entries, HeaderValue(storageClass, protection, length, digest).entries;
    assert forall i | 0 <= i < 6 :: e[i].key == i && h[i].key == i;
    assert e == h;
  }

  /** The header bound never refuses: a prefix is encoded exactly when its fields are acceptable. */
  lemma PrefixEncodedIff(storageClass: nat, protection: Bytes, length: nat, digest: Bytes)
    ensures EncodePrefix(storageClass, protection, length, digest).Some? <==>
      FieldsOk(storageClass, protection, length, digest)
  {
    if FieldsOk(storageClass, protection, length, digest) { HeaderFits(storageClass, protection, length, digest); }
  }

  lemma PrefixBytes(header: Bytes, rest: Bytes)
    requires |header| < UINT32
    ensures var b := MAGIC + Uint32(|header|) + header + rest;
      && b[..8] == MAGIC && BigEndianValue(b[8..12]) == |header|
      && b[..12 + |header|] == MAGIC + Uint32(|header|) + header
      && (MAGIC + Uint32(|header|) + header)[12..] == header && b[12 + |header|..] == rest
  {
    var b := MAGIC + Uint32(|header|) + header + rest;
    assert b[8..12] == Uint32(|header|);
    Uint32RoundTrip(|header|);
  }

  lemma DecodeEncodedPrefix(decode: Decoder, storageClass: nat, protection: Bytes, length: nat, digest: Bytes)
    requires Decodes(decode) && FieldsOk(storageClass, protection, length, digest)
    ensures var p := EncodePrefix(storageClass, protection, length, digest);
      p.Some? && DecodePrefix(decode, p.value.bytes) == p
  {
    var v := HeaderValue(storageClass, protection, length, digest);
    HeaderFits(storageClass, protection, length, digest);
    DecodeEncode(v);
    HeaderFieldsOf(storageClass, protection, length, digest);
    var header := Encode(v);
    assert decode(header) == Decode(header) == Some(v);
    PrefixBytes(header, []);
    var bytes := MAGIC + Uint32(|header|) + header;
    assert bytes + [] == bytes;
  }

  lemma DecodedPrefixEncodes(decode: Decoder, bytes: Bytes)
    requires Decodes(decode) && DecodePrefix(decode, bytes).Some?
    ensures var p := DecodePrefix(decode, bytes).value;
      && p.bytes == bytes
      && EncodePrefix(p.storageClass, p.protection, p.ciphertextLength, p.ciphertextDigest) == Some(p)
  {
    var p := DecodePrefix(decode, bytes).value;
    var v := decode(bytes[12..]).value;
    assert Decode(bytes[12..]) == Some(v);
    HeaderFieldsInvert(v);
    Uint32Value(bytes[8..12]);
    assert bytes == bytes[..8] + bytes[8..12] + bytes[12..];
    HeaderFits(p.storageClass, p.protection, p.ciphertextLength, p.ciphertextDigest);
  }

  /** What any canonical decoder reads from the bytes of a prefix. */
  lemma PrefixReadsAs(decode: Decoder, storageClass: nat, protection: Bytes, length: nat, digest: Bytes)
    requires Decodes(decode) && EncodePrefix(storageClass, protection, length, digest).Some?
    ensures var b := EncodePrefix(storageClass, protection, length, digest).value.bytes;
      && b[..8] == [0x41, 0x57, 0x53, 0x4D, 0x53, 0x45, 1, 0] && BigEndianValue(b[8..12]) == |b| - 12
      && decode(b[12..]) == Some(Map([
           Entry(0, UInt(1)), Entry(1, UInt(storageClass)), Entry(2, ByteString(protection)), Entry(3, UInt(length)),
           Entry(4, ByteString(digest)), Entry(5, UInt(if storageClass == 1 then 0 else 1_048_576))]))
  {
    PrefixEncodedIff(storageClass, protection, length, digest);
    var v := HeaderValue(storageClass, protection, length, digest);
    var header := Encode(v);
    DecodeEncode(v);
    assert decode(header) == Decode(header);
    PrefixBytes(header, []);
    assert MAGIC + Uint32(|header|) + header + [] == MAGIC + Uint32(|header|) + header;
  }

  // ----- The envelope, both ways -----

  /** Which envelopes are encoded, in plain terms. */
  lemma EnvelopeEncodedIff(hash: Hash, storageClass: nat, protection: Bytes, payload: Bytes, ceiling: nat)
    requires Digests(hash)
    ensures EncodeEnvelope(hash, storageClass, protection, payload, ceiling).Some? <==>
      && |protection| == 64 && (storageClass == 1 || storageClass == 2)
      && (storageClass == 1 ==> 16 <= |payload| <= ceiling)
      && (storageClass == 2 ==> exists fs :: WellFormed(Browser, fs, 0) && payload == Frames.EncodeFrames(fs))
      && 16 <= |payload| <= MAX_SAFE_INTEGER
      && 12 + |Encode(HeaderValue(storageClass, protection, |payload|, hash(payload)))| + |payload| <= MAX_SAFE_INTEGER
  {
    PrefixEncodedIff(storageClass, protection, |payload|, hash(payload));
    ParseExact(Browser, payload);
  }

  /** Decoding any encoded envelope returns its fields. */
  lemma DecodeEncoded(hash: Hash, decode: Decoder, storageClass: nat, protection: Bytes, payload: Bytes, ceiling: nat)
    requires Decodes(decode)
    requires EncodeEnvelope(hash, storageClass, protection, payload, ceiling).Some?
    ensures var e := EncodeEnvelope(hash, storageClass, protection, payload, ceiling);
      DecodeEnvelope(hash, decode, e.value.bytes, ceiling) == e
  {
    PrefixEncodedIff(storageClass, protection, |payload|, hash(payload));
    DecodeEncodedPrefix(decode, storageClass, protection, |payload|, hash(payload));
    var prefix := EncodePrefix(storageClass, protection, |payload|, hash(payload)).value;
    PrefixBytes(prefix.header, payload);
  }

  /** Any accepted bytes are exactly the encoding of the decoded fields. */
  lemma EncodeDecoded(hash: Hash, decode: Decoder, bytes: Bytes, ceiling: nat)
    requires Decodes(decode) && DecodeEnvelope(hash, decode, bytes, ceiling).Some?
    ensures var e := DecodeEnvelope(hash, decode, bytes, ceiling).value;
      && e.bytes == bytes
      && EncodeEnvelope(hash, e.prefix.storageClass, e.prefix.protection, e.payload, ceiling) == Some(e)
  {
    var length := BigEndianValue(bytes[8..12]);
    var e := DecodeEnvelope(hash, decode, bytes, ceiling).value;
    DecodedPrefixEncodes(decode, bytes[..12 + length]);
    assert bytes == bytes[..12 + length] + bytes[12 + length..];
    assert |e.payload| == e.prefix.ciphertextLength;
    PrefixEncodedIff(e.prefix.storageClass, e.prefix.protection, e.prefix.ciphertextLength, e.prefix.ciphertextDigest);
  }

  /** An accepted envelope is its prefix and the payload the prefix measures and digests; all of it is identified. */
  lemma DecodedContents(hash: Hash, decode: Decoder, bytes: Bytes, ceiling: nat)
    requires Decodes(decode) && DecodeEnvelope(hash, decode, bytes, ceiling).Some?
    ensures var e := DecodeEnvelope(hash, decode, bytes, ceiling).value;
      && bytes == e.prefix.bytes + e.payload
      && e.prefix.ciphertextLength == |e.payload| && e.prefix.ciphertextDigest == hash(e.payload)
      && e.storageItemId == Identity(hash, STORAGE_ITEM_ID, bytes)
  {
    EncodeDecoded(hash, decode, bytes, ceiling);
  }

  /** Where the hash does not collide on them, accepted envelopes have one identity exactly when they are the same. */
  lemma IdentitiesAlikeIff(hash: Hash, decode: Decoder, a: Bytes, b: Bytes, ceiling: nat)
    requires Decodes(decode)
    requires DecodeEnvelope(hash, decode, a, ceiling).Some? && DecodeEnvelope(hash, decode, b, ceiling).Some?
    requires TellsApart(hash, TranscriptBytes(STORAGE_ITEM_ID, [a]), TranscriptBytes(STORAGE_ITEM_ID, [b]))
    ensures var e, f := DecodeEnvelope(hash, decode, a, ceiling).value, DecodeEnvelope(hash, decode, b, ceiling).value;
      e.storageItemId == f.storageItemId <==> a == b
  {
    DecodedContents(hash, decode, a, ceiling);
    DecodedContents(hash, decode, b, ceiling);
    if TranscriptBytes(STORAGE_ITEM_ID, [a]) == TranscriptBytes(STORAGE_ITEM_ID, [b]) {
      SinglePartInjective(STORAGE_ITEM_ID, a, b);
    }
  }
}
