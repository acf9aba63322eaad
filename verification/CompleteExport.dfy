/**
 The Complete Export container: a prefix with the key derivation parameters,
 then the plaintext as frames sealed under the derived key.
 */
module CompleteExports {
  import opened ByteStrings
  import opened Cbor
  import opened Ciphers
  import opened Transcripts
  import opened Frames
  import ArtifactStreams

  const MAGIC: Bytes := [0x41, 0x57, 0x53, 0x4d, 0x45, 0x58, 0x01, 0x00]
  const FORMAT: nat := 1
  const MEMORY_KIB: nat := 65_536
  const ITERATIONS: nat := 3
  const PARALLELISM: nat := 1

  // ----- The prefix -----

  function HeaderValue(salt: Bytes, nonce: Bytes): Value {
    Map([Entry(0, UInt(FORMAT)), Entry(1, ByteString(salt)), Entry(2, UInt(MEMORY_KIB)), Entry(3, UInt(ITERATIONS)),
         Entry(4, UInt(PARALLELISM)), Entry(5, ByteString(nonce)), Entry(6, UInt(FRAME_LIMIT))])
  }

  function HeaderBytes(salt: Bytes, nonce: Bytes): (b: Bytes)
    requires |salt| == 16 && |nonce| == 24
    ensures |b| >= 1
  {
    Encode(HeaderValue(salt, nonce))
  }

  function EncodePrefix(salt: Bytes, nonce: Bytes): Bytes
    requires |salt| == 16 && |nonce| == 24
  {
    MAGIC + Uint32(|HeaderBytes(salt, nonce)|) + HeaderBytes(salt, nonce)
  }

  datatype Prefix = Prefix(salt: Bytes, nonce: Bytes, header: Bytes, bytes: Bytes)

  /** The fields of a decoded header, each checked against what this version supports. */
  function HeaderFields(v: Value): Option<(Bytes, Bytes)> {
    if !v.Map? || |v.entries| != 7 || exists i | 0 <= i < 7 :: v.entries[i].key != i then None
    else
      var e := v.entries;
      if e[0].value != UInt(FORMAT) || !e[1].value.ByteString? || |e[1].value.b| != 16
         || e[2].value != UInt(MEMORY_KIB) || e[3].value != UInt(ITERATIONS) || e[4].value != UInt(PARALLELISM)
         || !e[5].value.ByteString? || |e[5].value.b| != 24 || e[6].value != UInt(FRAME_LIMIT)
      then None
      else Some((e[1].value.b, e[5].value.b))
  }

  function DecodePrefix(decode: Decoder, bytes: Bytes): Option<Prefix> {
    if |bytes| < 13 || bytes[..8] != MAGIC || |bytes| != 12 + BigEndianValue(bytes[8..12]) then None
    else
      var header := bytes[12..];
      var v := decode(header);
      if v.None? || HeaderFields(v.value).None? then None
      else
        var (salt, nonce) := HeaderFields(v.value).value;
        if |salt| != 16 || |nonce| != 24 || HeaderBytes(salt, nonce) != header then None
        else Some(Prefix(salt, nonce, header, bytes))
  }

  lemma HeaderSmall(salt: Bytes, nonce: Bytes)
    requires |salt| == 16 && |nonce| == 24
    ensures |HeaderBytes(salt, nonce)| < UINT32
  {
    var v := HeaderValue(salt, nonce);
    forall i | 0 <= i < 7 ensures |Encode(v.entries[i].value)| <= 33 {}
    EntriesBound(v.entries, 33);
  }

  lemma PrefixLayout(salt: Bytes, nonce: Bytes, rest: Bytes)
    requires |salt| == 16 && |nonce| == 24
    ensures var b := EncodePrefix(salt, nonce) + rest; var header := HeaderBytes(salt, nonce);
      && b[..8] == MAGIC && BigEndianValue(b[8..12]) == |header|
      && b[..12 + |header|] == EncodePrefix(salt, nonce) && b[12 + |header|..] == rest
      && EncodePrefix(salt, nonce)[12..] == header
  {
    var header := HeaderBytes(salt, nonce);
    var b := EncodePrefix(salt, nonce) + rest;
    HeaderSmall(salt, nonce);
    assert b[8..12] == Uint32(|header|);
    Uint32RoundTrip(|header|);
  }

  /** Decoding an encoded prefix returns its salt and nonce. */
  lemma DecodeEncodedPrefix(decode: Decoder, salt: Bytes, nonce: Bytes)
    requires Decodes(decode) && |salt| == 16 && |nonce| == 24
    ensures DecodePrefix(decode, EncodePrefix(salt, nonce)) ==
      Some(Prefix(salt, nonce, HeaderBytes(salt, nonce), EncodePrefix(salt, nonce)))
  {
    var v := HeaderValue(salt, nonce);
    PrefixLayout(salt, nonce, []);
    assert EncodePrefix(salt, nonce) + [] == EncodePrefix(salt, nonce);
    DecodeEncode(v);
    assert decode(HeaderBytes(salt, nonce)) == Decode(Encode(v)) == Some(v);
    assert HeaderFields(v) == Some((salt, nonce)) by {
      assert forall i | 0 <= i < 7 :: v.entries[i].key == i;
    }
  }

  /** Accepted bytes are exactly the encoding of the decoded fields. */
  lemma DecodedPrefixEncodes(decode: Decoder, bytes: Bytes)
    requires DecodePrefix(decode, bytes).Some?
    ensures var p := DecodePrefix(decode, bytes).value;
      && |p.salt| == 16 && |p.nonce| == 24
      && p.header == HeaderBytes(p.salt, p.nonce) && bytes == EncodePrefix(p.salt, p.nonce)
  {
    var p := DecodePrefix(decode, bytes).value;
    Uint32Value(bytes[8..12]);
    assert bytes == bytes[..8] + bytes[8..12] + bytes[12..];
  }

  /** What any canonical decoder reads from the bytes of a prefix. */
  lemma PrefixReadsAs(decode: Decoder, salt: Bytes, nonce: Bytes)
    requires Decodes(decode) && |salt| == 16 && |nonce| == 24
    ensures var b := EncodePrefix(salt, nonce);
      && b[..8] == [0x41, 0x57, 0x53, 0x4D, 0x45, 0x58, 1, 0] && BigEndianValue(b[8..12]) == |b| - 12
      && decode(b[12..]) == Some(Map([
           Entry(0, UInt(1)), Entry(1, ByteString(salt)), Entry(2, UInt(65_536)), Entry(3, UInt(3)), Entry(4, UInt(1)),
           Entry(5, ByteString(nonce)), Entry(6, UInt(1_048_576))]))
  {
    PrefixLayout(salt, nonce, []);
    assert EncodePrefix(salt, nonce) + [] == EncodePrefix(salt, nonce);
    DecodeEncode(HeaderValue(salt, nonce));
    assert decode(HeaderBytes(salt, nonce)) == Decode(HeaderBytes(salt, nonce));
  }

  // ----- The stream -----

  /** Argon2 under one passphrase: no key when the passphrase is over the portable bound. */
  type KeyDerivation = Bytes -> Option<Bytes>

  /** `frameAAD`: a transcript of five parts. */
  function ExportAad(header: Bytes, index: nat, final: bool, n: nat): Bytes {
    TranscriptBytes(EXPORT_FRAME, [header, Uint32(index), FinalByte(final), Uint32(n), Uint32(n + TAG_LENGTH)])
  }

  function ExportSealer(c: Cipher, key: Bytes, header: Bytes, nonce: Bytes): Sealer
    requires |nonce| == 24
  {
    Sealer(c, key,
           (index: nat) => nonce[..16] + Uint64(index),
           (index: nat, final: bool, n: nat) => ExportAad(header, index, final, n))
  }

  /** The AAD determines header, index, flag and length, so no frame passes for another. */
  lemma ExportAadInjective(h: Bytes, i: nat, f: bool, n: nat, h': Bytes, j: nat, g: bool, m: nat)
    requires |h| < UINT64 - 8 && |h'| < UINT64 - 8 && i < UINT32 && j < UINT32 && n <= FRAME_LIMIT && m <= FRAME_LIMIT
    requires ExportAad(h, i, f, n) == ExportAad(h', j, g, m)
    ensures h == h' && i == j && f == g && n == m
  {
    var p := [h, Uint32(i), FinalByte(f), Uint32(n), Uint32(n + TAG_LENGTH)];
    var q := [h', Uint32(j), FinalByte(g), Uint32(m), Uint32(m + TAG_LENGTH)];
    TranscriptInjective(EXPORT_FRAME, p, EXPORT_FRAME, q);
    assert p[0] == q[0] && p[1] == q[1] && p[2] == q[2] && p[3] == q[3];
    Uint32Injective(i, j);
    FinalByteInjective(f, g);
    Uint32Injective(n, m);
  }

  lemma ExportNonces(c: Cipher, key: Bytes, header: Bytes, nonce: Bytes)
    requires |nonce| == 24
    ensures CountsNonces(ExportSealer(c, key, header, nonce), nonce[..16])
  {
    forall i | 0 <= i < UINT64
      ensures var n := ExportSealer(c, key, header, nonce).nonce(i);
        |n| == NONCE_LENGTH && n[..16] == nonce[..16] && BigEndianValue(n[16..]) == i
    {
      NonceLayout(nonce[..16], i);
    }
  }

  /**
   No two frames of a sealed stream share a nonce, exactly up to 2^32 frames: there the index wraps, and
   the frame after it is sealed under the nonce of the first.
   */
  lemma ExportNoncesDistinctIff(c: Cipher, key: Bytes, header: Bytes, nonce: Bytes, plaintext: Bytes)
    requires |nonce| == 24 && FrameCount(|plaintext|) <= UINT64
    ensures var s := ExportSealer(c, key, header, nonce);
      NoncesDistinct(s, SealPlaintext(s, Go, plaintext)) <==> FrameCount(|plaintext|) <= UINT32
  {
    ExportNonces(c, key, header, nonce);
    NoncesDistinctIff(ExportSealer(c, key, header, nonce), Go, nonce[..16], plaintext);
  }

  /** What is sealed into the `i`th frame: key, nonce, slice and authenticated fields, with the 32-bit index. */
  lemma ExportFrame(c: Cipher, key: Bytes, header: Bytes, nonce: Bytes, plaintext: Bytes, i: nat)
    requires |nonce| == 24 && i < FrameCount(|plaintext|)
    ensures var fs := SealPlaintext(ExportSealer(c, key, header, nonce), Go, plaintext);
      && i * FRAME_LIMIT <= |plaintext| && |fs| == FrameCount(|plaintext|)
      && var index, final, slice := i % UINT32, i == |fs| - 1, SliceAt(plaintext, i);
         fs[i] == Frame(index, final, c.seal(key, nonce[..16] + Uint64(index), slice,
           TranscriptBytes(EXPORT_FRAME, [header, Uint32(index), [if final then 1 else 0],
                                          Uint32(|slice|), Uint32(|slice| + 16)])))
  {
    SealedSlice(ExportSealer(c, key, header, nonce), Go, plaintext, i);
    GoIndexWraps(i);
  }

  function StreamBytes(c: Cipher, key: Bytes, salt: Bytes, nonce: Bytes, plaintext: Bytes): Bytes
    requires |salt| == 16 && |nonce| == 24
  {
    var s := ExportSealer(c, key, HeaderBytes(salt, nonce), nonce);
    EncodePrefix(salt, nonce) + EncodeFrames(SealPlaintext(s, Go, plaintext))
  }

  method SealStream(c: Cipher, decode: Decoder, derive: KeyDerivation, salt: Bytes, nonce: Bytes, plaintext: Bytes)
    returns (result: Option<Bytes>)
    requires Decodes(decode) && |salt| == 16 && |nonce| == 24
    ensures result == if derive(salt).None? then None
                      else Some(StreamBytes(c, derive(salt).value, salt, nonce, plaintext))
  {
    var prefixBytes := EncodePrefix(salt, nonce);
    var prefix := DecodePrefix(decode, prefixBytes);
    DecodeEncodedPrefix(decode, salt, nonce);
    var key := derive(prefix.value.salt);
    if key.None? {
      return None;
    }
    var payload := ArtifactStreams.SealSlices(ExportSealer(c, key.value, prefix.value.header, nonce), plaintext);
    return Some(prefixBytes + payload);
  }

  /** The slices of a plaintext pass the checks `SealFrame` makes on each frame. */
  lemma SealFrameChecksHold(plaintext: Bytes, i: nat)
    requires i < |Chunks(plaintext)|
    ensures var final := i == |Chunks(plaintext)| - 1;
      |Chunks(plaintext)[i]| <= FRAME_LIMIT && (!final ==> |Chunks(plaintext)[i]| == FRAME_LIMIT)
  {
    ChunksJoin(plaintext);
  }

  /** Parse and open frame by frame, as `OpenStream` does. */
  ghost function OpenBody(s: Sealer, body: Bytes, position: nat): Option<Bytes>
    decreases |body|
  {
    var f := ParseFrame(IndexOf(Go, position), body);
    if f.None? || OpenFrame(s, f.value).None? then None
    else
      var chunk := OpenFrame(s, f.value).value;
      var rest := body[PREFIX_LENGTH + |f.value.ciphertext|..];
      if f.value.final then if rest == [] then Some(chunk) else None
      else After(chunk, OpenBody(s, rest, position + 1))
  }

  /** Interleaving parsing and opening gives what parsing first and opening afterwards gives. */
  lemma {:induction false} OpenBodyIs(s: Sealer, body: Bytes, position: nat)
    ensures var fs := Parse(Go, body, position);
      OpenBody(s, body, position) ==
        if fs.Some? && Openable(fs.value) && OpenFrames(s, fs.value).Some?
        then Some(Concat(OpenFrames(s, fs.value).value)) else None
    ensures Parse(Go, body, position).Some? ==> Openable(Parse(Go, body, position).value)
    decreases |body|
  {
    var f := ParseFrame(IndexOf(Go, position), body);
    if f.Some? {
      var rest := body[PREFIX_LENGTH + |f.value.ciphertext|..];
      if f.value.final {
        OpenCons(s, f.value, []);
        assert [f.value] + [] == [f.value];
        if OpenFrame(s, f.value).Some? { assert OpenFrame(s, f.value).value + [] == OpenFrame(s, f.value).value; }
      } else {
        OpenBodyIs(s, rest, position + 1);
        if Parse(Go, rest, position + 1).Some? { OpenCons(s, f.value, Parse(Go, rest, position + 1).value); }
      }
    }
  }

  lemma OpenCons(s: Sealer, f: Frame, fs: seq<Frame>)
    requires |f.ciphertext| >= TAG_LENGTH && Openable(fs)
    ensures Openable([f] + fs)
    ensures OpenFrames(s, [f] + fs) ==
      if OpenFrame(s, f).None? || OpenFrames(s, fs).None? then None
      else Some([OpenFrame(s, f).value] + OpenFrames(s, fs).value)
    ensures OpenFrames(s, [f] + fs).Some? ==>
      Concat(OpenFrames(s, [f] + fs).value) == OpenFrame(s, f).value + Concat(OpenFrames(s, fs).value)
  {
    assert ([f] + fs)[1..] == fs;
    if OpenFrames(s, [f] + fs).Some? {
      var cs := OpenFrames(s, [f] + fs).value;
      assert cs[1..] == OpenFrames(s, fs).value;
    }
  }

  /** Where the frames start: after the prefix whose length the fixed header names. */
  function BodyOffset(encoded: Bytes): nat
    requires |encoded| >= 12
  {
    12 + BigEndianValue(encoded[8..12])
  }

  /** What a whole encoded stream opens to. */
  ghost function OpenedPlaintext(c: Cipher, decode: Decoder, derive: KeyDerivation, encoded: Bytes): Option<Bytes> {
    if |encoded| < 13 || BodyOffset(encoded) > |encoded| then None
    else
      var prefix := DecodePrefix(decode, encoded[..BodyOffset(encoded)]);
      if prefix.None? then None
      else
        DecodedPrefixEncodes(decode, encoded[..BodyOffset(encoded)]);
        var key := derive(prefix.value.salt);
        if key.None? then None
        else
          var s := ExportSealer(c, key.value, prefix.value.header, prefix.value.nonce);
          OpenBody(s, encoded[BodyOffset(encoded)..], 0)
  }

  /** `OpenFrame` on the bytes of one frame. */
  method OpenFrameBytes(s: Sealer, bytes: Bytes, expected: nat) returns (frame: Option<(bool, Bytes)>)
    ensures var f := ParseFrame(expected, bytes);
      if f.Some? && |bytes| == PREFIX_LENGTH + |f.value.ciphertext| && OpenFrame(s, f.value).Some?
      then frame == Some((f.value.final, OpenFrame(s, f.value).value)) else frame.None?
  {
    if |bytes| < PREFIX_LENGTH + TAG_LENGTH {
      return None;
    }
    var index, flags := BigEndianValue(bytes[..4]), bytes[4];
    if index != expected || UnknownFlag(flags) {
      return None;
    }
    var final := flags % 2 == 1;
    var ciphertextLength := BigEndianValue(bytes[5..9]);
    if |bytes| != PREFIX_LENGTH + ciphertextLength || ciphertextLength < TAG_LENGTH {
      return None;
    }
    var plaintextLength := ciphertextLength - TAG_LENGTH;
    if plaintextLength > FRAME_LIMIT || (!final && plaintextLength != FRAME_LIMIT) {
      return None;
    }
    assert bytes[PREFIX_LENGTH..PREFIX_LENGTH + ciphertextLength] == bytes[PREFIX_LENGTH..];
    var decrypted := OpenFrame(s, Frame(index, final, bytes[PREFIX_LENGTH..]));
    if decrypted.None? {
      return None;
    }
    return Some((final, decrypted.value));
  }

  /** One turn of the loop: bound the frame by the bytes left, then open it. */
  method OpenNext(s: Sealer, encoded: Bytes, offset: nat, expected: nat)
    returns (frame: Option<(bool, Bytes)>, end: nat)
    requires offset < |encoded|
    ensures var f := ParseFrame(expected, encoded[offset..]);
      if f.Some? && OpenFrame(s, f.value).Some?
      then frame == Some((f.value.final, OpenFrame(s, f.value).value))
           && end == offset + PREFIX_LENGTH + |f.value.ciphertext| <= |encoded|
      else frame.None?
  {
    end := offset;
    if |encoded| - offset < PREFIX_LENGTH + TAG_LENGTH {
      return None, end;
    }
    var ciphertextLength := BigEndianValue(encoded[offset + 5..offset + 9]);
    ghost var rest := encoded[offset..];
    assert encoded[offset + 5..offset + 9] == rest[5..9];
    var frameLength := PREFIX_LENGTH + ciphertextLength;
    if frameLength > |encoded| - offset {
      return None, end;
    }
    var bytes := encoded[offset..offset + frameLength];
    assert bytes == rest[..frameLength];
    assert bytes[..4] == rest[..4] && bytes[5..9] == rest[5..9];
    assert bytes[PREFIX_LENGTH..frameLength] == rest[PREFIX_LENGTH..frameLength];
    frame := OpenFrameBytes(s, bytes, expected);
    end := offset + frameLength;
  }

  datatype OpenedStream = OpenedStream(prefix: Prefix, plaintext: Bytes, frameCount: nat)

  /** Open any byte string: the result is the plaintext it stands for, or nothing. */
  method OpenStream(c: Cipher, decode: Decoder, derive: KeyDerivation, encoded: Bytes)
    returns (result: Option<OpenedStream>)
    ensures OpenedPlaintext(c, decode, derive, encoded) ==
      if result.Some? then Some(result.value.plaintext) else None
    ensures result.Some? ==>
      && BodyOffset(encoded) <= |encoded|
      && DecodePrefix(decode, encoded[..BodyOffset(encoded)]) == Some(result.value.prefix)
      && Parse(Go, encoded[BodyOffset(encoded)..], 0).Some?
      && result.value.frameCount == |Parse(Go, encoded[BodyOffset(encoded)..], 0).value| % UINT32
  {
    if |encoded| < 13 {
      return None;
    }
    var headerLength := BigEndianValue(encoded[8..12]);
    var prefixLength := 12 + headerLength;
    if prefixLength > |encoded| {
      return None;
    }
    var prefix := DecodePrefix(decode, encoded[..prefixLength]);
    if prefix.None? {
      return None;
    }
    DecodedPrefixEncodes(decode, encoded[..prefixLength]);
    var key := derive(prefix.value.salt);
    if key.None? {
      return None;
    }
    var s := ExportSealer(c, key.value, prefix.value.header, prefix.value.nonce);
    var plaintext, count := OpenFramesFrom(s, encoded, prefixLength);
    if plaintext.None? {
      return None;
    }
    return Some(OpenedStream(prefix.value, plaintext.value, count));
  }

  /** A body opens to its first frame followed by the rest. */
  lemma BodyUnfolds(s: Sealer, body: Bytes, position: nat, f: Frame, chunk: Bytes, rest: Bytes)
    requires ParseFrame(IndexOf(Go, position), body) == Some(f) && OpenFrame(s, f) == Some(chunk)
    requires rest == body[PREFIX_LENGTH + |f.ciphertext|..]
    ensures OpenBody(s, body, position) ==
      if f.final then if rest == [] then Some(chunk) else None
      else After(chunk, OpenBody(s, rest, position + 1))
  {}

  /** What is left of a body after its first frame, which ends at `end`, opened. */
  lemma BodyStep(s: Sealer, encoded: Bytes, offset: nat, position: nat, plaintext: Bytes,
                 f: Frame, chunk: Bytes, end: nat)
    requires offset <= end <= |encoded| && end == offset + PREFIX_LENGTH + |f.ciphertext|
    requires ParseFrame(IndexOf(Go, position), encoded[offset..]) == Some(f) && OpenFrame(s, f) == Some(chunk)
    ensures After(plaintext, OpenBody(s, encoded[offset..], position)) ==
      if f.final then if end == |encoded| then Some(plaintext + chunk) else None
      else After(plaintext + chunk, OpenBody(s, encoded[end..], position + 1))
  {
    assert encoded[offset..][PREFIX_LENGTH + |f.ciphertext|..] == encoded[end..];
    BodyUnfolds(s, encoded[offset..], position, f, chunk, encoded[end..]);
    AfterTwice(plaintext, chunk, OpenBody(s, encoded[end..], position + 1));
  }

  lemma BodyStops(s: Sealer, body: Bytes, position: nat)
    requires var f := ParseFrame(IndexOf(Go, position), body); f.None? || OpenFrame(s, f.value).None?
    ensures OpenBody(s, body, position).None?
  {}

  /** One turn of the loop against the specification: stop without a result, stop with one, or go on. */
  method Advance(s: Sealer, encoded: Bytes, offset: nat, count: nat, ghost position: nat, plaintext: Bytes)
    returns (frame: Option<(bool, Bytes)>, end: nat)
    requires offset <= |encoded| && count == IndexOf(Go, position)
    ensures frame.None? ==> OpenBody(s, encoded[offset..], position).None?
    ensures frame.Some? ==> offset < end <= |encoded|
    ensures frame.Some? ==>
      var f := ParseFrame(IndexOf(Go, position), encoded[offset..]);
      f.Some? && f.value.final == frame.value.0 && end == offset + PREFIX_LENGTH + |f.value.ciphertext|
    ensures frame.Some? && frame.value.0 ==>
      After(plaintext, OpenBody(s, encoded[offset..], position)) ==
        if end == |encoded| then Some(plaintext + frame.value.1) else None
    ensures frame.Some? && !frame.value.0 ==>
      After(plaintext, OpenBody(s, encoded[offset..], position)) ==
        After(plaintext + frame.value.1, OpenBody(s, encoded[end..], position + 1))
  {
    end := offset;
    if offset == |encoded| {
      assert encoded[offset..] == [];
      return None, end;
    }
    frame, end := OpenNext(s, encoded, offset, count);
    if frame.Some? {
      ghost var f := ParseFrame(IndexOf(Go, position), encoded[offset..]).value;
      BodyStep(s, encoded, offset, position, plaintext, f, frame.value.1, end);
    } else {
      BodyStops(s, encoded[offset..], position);
    }
  }

  method OpenFramesFrom(s: Sealer, encoded: Bytes, start: nat) returns (result: Option<Bytes>, count: nat)
    requires start <= |encoded|
    ensures result == OpenBody(s, encoded[start..], 0)
    ensures result.Some? ==>
      Parse(Go, encoded[start..], 0).Some? && count == |Parse(Go, encoded[start..], 0).value| % UINT32
  {
    OpenBodyIs(s, encoded[start..], 0);
    var plaintext, offset := [], start;
    count := 0;
    ghost var position := 0;
    ghost var whole := OpenBody(s, encoded[start..], 0);
    if whole.Some? { assert [] + whole.value == whole.value; }
    while true
      invariant start <= offset <= |encoded| && count == IndexOf(Go, position)
      invariant whole == After(plaintext, OpenBody(s, encoded[offset..], position))
      invariant FramesAhead(encoded, start, offset, position)
      decreases |encoded| - offset
    {
      var frame, end := Advance(s, encoded, offset, count, position, plaintext);
      if frame.None? {
        return None, count;
      }
      FramesCounted(encoded, start, offset, position, ParseFrame(IndexOf(Go, position), encoded[offset..]).value, end);
      plaintext := plaintext + frame.value.1;
      offset := end;
      count, position := NextIndex(Go, count), position + 1;
      if frame.value.0 {
        if offset != |encoded| {
          return None, count;
        }
        GoIndexWraps(position);
        return Some(plaintext), count;
      }
    }
  }

  /** Having passed `position` frames, what is left to parse is the rest of the whole. */
  ghost predicate FramesAhead(encoded: Bytes, start: nat, offset: nat, position: nat)
    requires start <= offset <= |encoded|
  {
    var whole := Parse(Go, encoded[start..], 0);
    whole.Some? ==>
      && Parse(Go, encoded[offset..], position).Some?
      && |whole.value| == position + |Parse(Go, encoded[offset..], position).value|
  }

  lemma ParseUnfolds(body: Bytes, position: nat, f: Frame, rest: Bytes)
    requires ParseFrame(IndexOf(Go, position), body) == Some(f) && rest == body[PREFIX_LENGTH + |f.ciphertext|..]
    requires Parse(Go, body, position).Some?
    ensures |Parse(Go, body, position).value| ==
      if f.final then 1 else assert Parse(Go, rest, position + 1).Some?; 1 + |Parse(Go, rest, position + 1).value|
  {}

  lemma FramesCounted(encoded: Bytes, start: nat, offset: nat, position: nat, f: Frame, end: nat)
    requires start <= offset <= end <= |encoded| && end == offset + PREFIX_LENGTH + |f.ciphertext|
    requires FramesAhead(encoded, start, offset, position)
    requires ParseFrame(IndexOf(Go, position), encoded[offset..]) == Some(f)
    ensures !f.final ==> FramesAhead(encoded, start, end, position + 1)
    ensures f.final && Parse(Go, encoded[start..], 0).Some? ==> |Parse(Go, encoded[start..], 0).value| == position + 1
  {
    var rest := encoded[offset..];
    assert rest[PREFIX_LENGTH + |f.ciphertext|..] == encoded[end..];
    if Parse(Go, rest, position).Some? { ParseUnfolds(rest, position, f, encoded[end..]); }
  }

  // ----- Main results -----

  /** Opening undoes sealing for every plaintext, however many frames it takes. */
  lemma OpenUndoesSealStream(c: Cipher, decode: Decoder, derive: KeyDerivation,
                             salt: Bytes, nonce: Bytes, plaintext: Bytes)
    requires Lawful(c) && Decodes(decode) && |salt| == 16 && |nonce| == 24 && derive(salt).Some?
    ensures OpenedPlaintext(c, decode, derive,
              StreamBytes(c, derive(salt).value, salt, nonce, plaintext)) == Some(plaintext)
  {
    ChunksJoin(plaintext);
    var encoded := StreamBytes(c, derive(salt).value, salt, nonce, plaintext);
    ExportOpens(c, decode, derive, encoded, salt, nonce, Chunks(plaintext));
  }

  /** Every accepted stream is an encoded prefix followed by a body that opens under the key of its salt. */
  lemma AcceptedForm(c: Cipher, decode: Decoder, derive: KeyDerivation, encoded: Bytes)
    requires OpenedPlaintext(c, decode, derive, encoded).Some?
    ensures exists salt, nonce, body ::
      && |salt| == 16 && |nonce| == 24 && derive(salt).Some?
      && encoded == EncodePrefix(salt, nonce) + body
      && OpenedPlaintext(c, decode, derive, encoded) ==
           OpenBody(ExportSealer(c, derive(salt).value, HeaderBytes(salt, nonce), nonce), body, 0)
  {
    var n := BodyOffset(encoded);
    var prefix := DecodePrefix(decode, encoded[..n]).value;
    DecodedPrefixEncodes(decode, encoded[..n]);
    assert encoded == encoded[..n] + encoded[n..];
  }

  /** `encoded` is a prefix and the frames of these chunks, sealed under the key of the prefix's salt. */
  ghost predicate ExportOf(c: Cipher, derive: KeyDerivation, encoded: Bytes,
                           salt: Bytes, nonce: Bytes, cs: seq<Bytes>) {
    && |salt| == 16 && |nonce| == 24 && derive(salt).Some? && Framable(cs)
    && encoded == EncodePrefix(salt, nonce)
         + EncodeFrames(SealChunks(ExportSealer(c, derive(salt).value, HeaderBytes(salt, nonce), nonce), Go, cs, 0))
  }

  /** A stream opens to a plaintext exactly when it is an export of it, in some salt, nonce and cut. */
  lemma OpensIffExport(c: Cipher, decode: Decoder, derive: KeyDerivation, encoded: Bytes, plaintext: Bytes)
    requires Exact(c) && Decodes(decode)
    ensures OpenedPlaintext(c, decode, derive, encoded) == Some(plaintext) <==>
      exists salt, nonce, cs :: ExportOf(c, derive, encoded, salt, nonce, cs) && Concat(cs) == plaintext
  {
    if OpenedPlaintext(c, decode, derive, encoded) == Some(plaintext) {
      AcceptedForm(c, decode, derive, encoded);
      var salt, nonce, body :| |salt| == 16 && |nonce| == 24 && derive(salt).Some?
        && encoded == EncodePrefix(salt, nonce) + body
        && OpenedPlaintext(c, decode, derive, encoded) ==
             OpenBody(ExportSealer(c, derive(salt).value, HeaderBytes(salt, nonce), nonce), body, 0);
      var cs := BodyIsSealed(ExportSealer(c, derive(salt).value, HeaderBytes(salt, nonce), nonce), body);
      assert ExportOf(c, derive, encoded, salt, nonce, cs) && Concat(cs) == plaintext;
    }
    if salt, nonce, cs :| ExportOf(c, derive, encoded, salt, nonce, cs) && Concat(cs) == plaintext {
      ExportOpens(c, decode, derive, encoded, salt, nonce, cs);
    }
  }

  lemma BodyIsSealed(s: Sealer, body: Bytes) returns (cs: seq<Bytes>)
    requires Exact(s.cipher) && OpenBody(s, body, 0).Some?
    ensures Framable(cs) && body == EncodeFrames(SealChunks(s, Go, cs, 0)) && Some(Concat(cs)) == OpenBody(s, body, 0)
  {
    OpenBodyIs(s, body, 0);
    ParsedEncodes(Go, body, 0);
    var fs := Parse(Go, body, 0).value;
    cs := OpenFrames(s, fs).value;
    ArtifactStreams.OpensIffSealed(s, Go, fs, cs);
  }

  lemma ExportOpens(c: Cipher, decode: Decoder, derive: KeyDerivation, encoded: Bytes,
                    salt: Bytes, nonce: Bytes, cs: seq<Bytes>)
    requires Lawful(c) && Decodes(decode) && ExportOf(c, derive, encoded, salt, nonce, cs)
    ensures OpenedPlaintext(c, decode, derive, encoded) == Some(Concat(cs))
  {
    var s := ExportSealer(c, derive(salt).value, HeaderBytes(salt, nonce), nonce);
    var fs := SealChunks(s, Go, cs, 0);
    PrefixLayout(salt, nonce, EncodeFrames(fs));
    DecodeEncodedPrefix(decode, salt, nonce);
    SealedWellFormed(s, Go, cs, 0);
    WellFormedOpenable(Go, fs, 0);
    OpenSealed(s, Go, cs, 0);
    ParseEncoded(Go, fs, 0);
    OpenBodyIs(s, EncodeFrames(fs), 0);
  }

  /**
   Under the exact cipher law an accepted stream is the sealing of its own plaintext, under its own
   salt and nonce, exactly when it does not end with an empty final frame after full ones.
   */
  lemma ResealStreamIff(c: Cipher, key: Bytes, salt: Bytes, nonce: Bytes, body: Bytes)
    requires Exact(c) && |salt| == 16 && |nonce| == 24
    requires OpenBody(ExportSealer(c, key, HeaderBytes(salt, nonce), nonce), body, 0).Some?
    ensures var plaintext := OpenBody(ExportSealer(c, key, HeaderBytes(salt, nonce), nonce), body, 0).value;
      && Parse(Go, body, 0).Some?
      && var fs := Parse(Go, body, 0).value;
         (StreamBytes(c, key, salt, nonce, plaintext) == EncodePrefix(salt, nonce) + body
          <==> (|fs| == 1 || |fs[|fs| - 1].ciphertext| != TAG_LENGTH))
  {
    var s := ExportSealer(c, key, HeaderBytes(salt, nonce), nonce);
    ResealBodyIff(s, body);
    SamePrefix(EncodePrefix(salt, nonce), EncodeFrames(SealPlaintext(s, Go, OpenBody(s, body, 0).value)), body);
  }

  lemma SamePrefix(prefix: Bytes, a: Bytes, b: Bytes)
    ensures prefix + a == prefix + b <==> a == b
  {
    if prefix + a == prefix + b { SplitEqual(prefix, prefix, a, b); }
  }

  lemma ResealBodyIff(s: Sealer, body: Bytes)
    requires Exact(s.cipher) && OpenBody(s, body, 0).Some?
    ensures Parse(Go, body, 0).Some?
    ensures var fs := Parse(Go, body, 0).value;
      EncodeFrames(SealPlaintext(s, Go, OpenBody(s, body, 0).value)) == body
      <==> |fs| == 1 || |fs[|fs| - 1].ciphertext| != TAG_LENGTH
  {
    OpenBodyIs(s, body, 0);
    ParsedEncodes(Go, body, 0);
    var fs := Parse(Go, body, 0).value;
    ResealIff(s, Go, fs);
    var plaintext := OpenBody(s, body, 0).value;
    var gs := SealPlaintext(s, Go, plaintext);
    OpenUndoesSeal(s, Go, plaintext);
    ParseEncoded(Go, gs, 0);
  }
}
