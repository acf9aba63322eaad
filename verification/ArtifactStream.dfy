/**
 Artifact streams. The runtime slices a whole plaintext; the browser seals
 online, holding back one full frame until it knows whether more follows. Both
 are proved against `Frames.SealPlaintext`.
 */
module ArtifactStreams {
  import opened ByteStrings
  import opened Ciphers
  import opened Transcripts
  import opened Frames
  import OpaqueEnvelopes

  /** An artifact as both runtimes know it; `expand` is HKDF-Expand under the epoch's key, of an info string. */
  datatype Artifact = Artifact(cipher: Cipher, hash: Hash, expand: Bytes -> Bytes,
                               vaultId: Identifier, keyEpochId: Identifier, artifactId: Identifier)

  function WrapperInfo(a: Artifact, protection: Bytes): Bytes {
    TranscriptBytes(ARTIFACT_WRAPPER_KEY, [a.vaultId, a.keyEpochId, a.artifactId, [2], protection])
  }

  /** `artifactWrapperKey`. */
  function WrapperKey(a: Artifact, protection: Bytes): Bytes {
    a.expand(WrapperInfo(a, protection))
  }

  /** Different artifacts, epochs, vaults or protection parameters derive from different info strings. */
  lemma WrapperInfoInjective(a: Artifact, p: Bytes, b: Artifact, q: Bytes)
    requires |p| == 64 && |q| == 64 && WrapperInfo(a, p) == WrapperInfo(b, q)
    ensures a.vaultId == b.vaultId && a.keyEpochId == b.keyEpochId && a.artifactId == b.artifactId && p == q
  {
    var x, y := [a.vaultId, a.keyEpochId, a.artifactId, [2], p], [b.vaultId, b.keyEpochId, b.artifactId, [2], q];
    TranscriptInjective(ARTIFACT_WRAPPER_KEY, x, ARTIFACT_WRAPPER_KEY, y);
    assert x[0] == y[0] && x[1] == y[1] && x[2] == y[2] && x[4] == y[4];
  }

  /** Where expansion is collision-free, one key serves one artifact under one set of protection parameters. */
  lemma WrapperKeysDiffer(a: Artifact, p: Bytes, b: Artifact, q: Bytes)
    requires |p| == 64 && |q| == 64 && a.expand == b.expand && WrapperKey(a, p) == WrapperKey(b, q)
    requires forall x, y :: a.expand(x) == a.expand(y) ==> x == y
    ensures a.vaultId == b.vaultId && a.keyEpochId == b.keyEpochId && a.artifactId == b.artifactId && p == q
  {
    WrapperInfoInjective(a, p, b, q);
  }

  /** The runtime's AAD is a transcript of nine parts. */
  function RuntimeAad(a: Artifact, protection: Bytes, total: nat, index: nat, final: bool, n: nat): Bytes {
    FrameAad(ARTIFACT_FRAME_AAD, a.vaultId, a.keyEpochId, a.artifactId, protection, total, index, final,
             n, n + TAG_LENGTH)
  }

  /** The browser writes its AAD out by hand. */
  function BrowserAad(a: Artifact, protection: Bytes, total: nat, index: nat, final: bool, n: nat): Bytes {
    FrameAadByHand(ARTIFACT_FRAME_AAD, a.vaultId, a.keyEpochId, a.artifactId, protection, total, index, final,
                   n, n + TAG_LENGTH)
  }

  function RuntimeSealer(a: Artifact, protection: Bytes, total: nat): Sealer
    requires |protection| == 64
  {
    Sealer(a.cipher, WrapperKey(a, protection),
           (index: nat) => protection[..16] + Uint64(index),
           (index: nat, final: bool, n: nat) => RuntimeAad(a, protection, total, index, final, n))
  }

  /** The browser cuts its nonces from a 24-byte base nonce. */
  function BrowserSealer(a: Artifact, protection: Bytes, total: nat): Sealer
    requires |protection| == 64
  {
    Sealer(a.cipher, WrapperKey(a, protection),
           (index: nat) => protection[..24][..16] + Uint64(index),
           (index: nat, final: bool, n: nat) => BrowserAad(a, protection, total, index, final, n))
  }

  /** `ArtifactPayloadDigest`. */
  function PayloadDigest(hash: Hash, plaintext: Bytes): Bytes {
    Identity(hash, ARTIFACT_PAYLOAD, plaintext)
  }

  /** Both build the same nonce and the same AAD for every frame. */
  lemma SealersAgree(a: Artifact, protection: Bytes, total: nat)
    requires |protection| == 64
    ensures Alike(BrowserSealer(a, protection, total), RuntimeSealer(a, protection, total))
  {
    var s, t := BrowserSealer(a, protection, total), RuntimeSealer(a, protection, total);
    assert protection[..24][..16] == protection[..16];
    forall index: nat, final: bool, n: nat ensures s.aad(index, final, n) == t.aad(index, final, n) {
      AadsAgree(a, protection, total, index, final, n);
    }
  }

  lemma AadsAgree(a: Artifact, protection: Bytes, total: nat, index: nat, final: bool, n: nat)
    ensures BrowserAad(a, protection, total, index, final, n) == RuntimeAad(a, protection, total, index, final, n)
  {
    FrameAadsAgree(ARTIFACT_FRAME_AAD, a.vaultId, a.keyEpochId, a.artifactId, protection, total, index, final,
                   n, n + TAG_LENGTH);
  }

  /** The AAD determines artifact, protection parameters, total length, index, flag and frame length. */
  lemma ArtifactAadInjective(a: Artifact, p: Bytes, total: nat, i: nat, f: bool, n: nat,
                             b: Artifact, q: Bytes, total': nat, j: nat, g: bool, m: nat)
    requires |p| == 64 && |q| == 64 && total < UINT64 && total' < UINT64
    requires i < UINT32 && j < UINT32 && n <= FRAME_LIMIT && m <= FRAME_LIMIT
    requires RuntimeAad(a, p, total, i, f, n) == RuntimeAad(b, q, total', j, g, m)
    ensures a.vaultId == b.vaultId && a.keyEpochId == b.keyEpochId && a.artifactId == b.artifactId && p == q
    ensures total == total' && i == j && f == g && n == m
  {
    var x := FrameParts(a.vaultId, a.keyEpochId, a.artifactId, p, total, i, f, n, n + TAG_LENGTH);
    var y := FrameParts(b.vaultId, b.keyEpochId, b.artifactId, q, total', j, g, m, m + TAG_LENGTH);
    TranscriptInjective(ARTIFACT_FRAME_AAD, x, ARTIFACT_FRAME_AAD, y);
    assert x[0] == y[0] && x[1] == y[1] && x[2] == y[2] && x[3] == y[3];
    assert x[4] == y[4] && x[5] == y[5] && x[6] == y[6] && x[7] == y[7];
    Uint64RoundTrip(total);
    Uint64RoundTrip(total');
    Uint32Injective(i, j);
    FinalByteInjective(f, g);
    Uint32Injective(n, m);
  }

  lemma ArtifactNonces(a: Artifact, protection: Bytes, total: nat)
    requires |protection| == 64
    ensures CountsNonces(RuntimeSealer(a, protection, total), protection[..16])
    ensures CountsNonces(BrowserSealer(a, protection, total), protection[..16])
  {
    assert protection[..24][..16] == protection[..16];
    forall i | 0 <= i < UINT64
      ensures var n := protection[..16] + Uint64(i);
        |n| == NONCE_LENGTH && n[..16] == protection[..16] && BigEndianValue(n[16..]) == i
    {
      NonceLayout(protection[..16], i);
    }
  }

  /**
   No two frames of an artifact share a nonce: in the browser never, within the bound of its contract;
   in the runtime exactly up to 2^32 frames.
   */
  lemma ArtifactNoncesDistinctIff(a: Artifact, protection: Bytes, plaintext: Bytes)
    requires |protection| == 64 && FrameCount(|plaintext|) <= UINT64
    ensures var s := BrowserSealer(a, protection, |plaintext|); NoncesDistinct(s, SealPlaintext(s, Browser, plaintext))
    ensures var s := RuntimeSealer(a, protection, |plaintext|);
      NoncesDistinct(s, SealPlaintext(s, Go, plaintext)) <==> FrameCount(|plaintext|) <= UINT32
  {
    ArtifactNonces(a, protection, |plaintext|);
    NoncesDistinctIff(BrowserSealer(a, protection, |plaintext|), Browser, protection[..16], plaintext);
    NoncesDistinctIff(RuntimeSealer(a, protection, |plaintext|), Go, protection[..16], plaintext);
  }

  /** What the runtime seals into the `i`th frame: key, nonce, slice and authenticated fields. */
  lemma ArtifactFrame(a: Artifact, protection: Bytes, plaintext: Bytes, i: nat)
    requires |protection| == 64 && i < FrameCount(|plaintext|)
    ensures var fs := SealPlaintext(RuntimeSealer(a, protection, |plaintext|), Go, plaintext);
      && i * FRAME_LIMIT <= |plaintext| && |fs| == FrameCount(|plaintext|)
      && var index, final, slice := i % UINT32, i == |fs| - 1, SliceAt(plaintext, i);
         fs[i] == Frame(index, final, a.cipher.seal(
           a.expand(TranscriptBytes(ARTIFACT_WRAPPER_KEY, [a.vaultId, a.keyEpochId, a.artifactId, [2], protection])),
           protection[..16] + Uint64(index), slice,
           TranscriptBytes(ARTIFACT_FRAME_AAD,
             [a.vaultId, a.keyEpochId, a.artifactId, protection, Uint64(|plaintext|), Uint32(index),
              [if final then 1 else 0], Uint32(|slice|), Uint32(|slice| + 16)])))
  {
    SealedSlice(RuntimeSealer(a, protection, |plaintext|), Go, plaintext, i);
    GoIndexWraps(i);
  }

  ghost predicate Alike(s: Sealer, t: Sealer) {
    && s.cipher == t.cipher && s.key == t.key
    && (forall index :: s.nonce(index) == t.nonce(index))
    && (forall index, final, n :: s.aad(index, final, n) == t.aad(index, final, n))
  }

  lemma {:induction false} AlikeSeal(s: Sealer, t: Sealer, d: Dialect, cs: seq<Bytes>, position: nat)
    requires Alike(s, t)
    ensures SealChunks(s, d, cs, position) == SealChunks(t, d, cs, position)
    decreases |cs|
  {
    if cs != [] { AlikeSeal(s, t, d, cs[1..], position + 1); }
  }

  // ----- The runtime: slices of the whole plaintext -----

  /** The loop of `SealArtifactStream` and of `SealStream`: one frame a slice, with a wrapping index. */
  method SealSlices(s: Sealer, plaintext: Bytes) returns (payload: Bytes)
    ensures payload == EncodeFrames(SealPlaintext(s, Go, plaintext))
  {
    if |plaintext| == 0 {
      var f := SealFrame(s, 0, true, []);
      assert Chunks(plaintext) == [plaintext] && SealPlaintext(s, Go, plaintext) == [f];
      assert EncodeFrames([f]) == EncodeFrame(f) + [];
      return EncodeFrame(f);
    }
    payload := [];
    var offset, index := 0, 0;
    ghost var fs: seq<Frame> := [];
    assert plaintext[0..] == plaintext && [] + Left(s, plaintext, 0, 0) == Left(s, plaintext, 0, 0);
    while offset < |plaintext|
      invariant 0 <= offset <= |plaintext| && index == IndexOf(Go, |fs|) && payload == EncodeFrames(fs)
      invariant SealPlaintext(s, Go, plaintext) == fs + Left(s, plaintext, offset, |fs|)
      decreases |plaintext| - offset
    {
      var remaining := |plaintext| - offset;
      var take := if remaining > FRAME_LIMIT then FRAME_LIMIT else remaining;
      var final := remaining <= FRAME_LIMIT;
      var f := SealFrame(s, index, final, plaintext[offset..offset + take]);
      payload := payload + EncodeFrame(f);
      EncodeFramesSnoc(fs, f);
      SliceSealed(s, plaintext, offset, take, |fs|);
      Associative(fs, [f], Left(s, plaintext, offset + take, |fs| + 1));
      offset, index, fs := offset + take, NextIndex(Go, index), fs + [f];
    }
    assert fs + [] == fs;
  }

  /** `SealArtifactStream` up to its payload. */
  method SealArtifactPayload(a: Artifact, protection: Bytes, plaintext: Bytes, digest: Bytes)
    returns (payload: Option<Bytes>)
    ensures payload.Some? <==> |protection| == 64 && digest == PayloadDigest(a.hash, plaintext)
    ensures payload.Some? ==>
      payload.value == EncodeFrames(SealPlaintext(RuntimeSealer(a, protection, |plaintext|), Go, plaintext))
  {
    if digest != PayloadDigest(a.hash, plaintext) || |protection| != 64 {
      return None;
    }
    var frames := SealSlices(RuntimeSealer(a, protection, |plaintext|), plaintext);
    return Some(frames);
  }

  /** The frames of what is left of the plaintext. */
  ghost function Left(s: Sealer, plaintext: Bytes, offset: nat, position: nat): seq<Frame>
    requires offset <= |plaintext|
  {
    if offset == |plaintext| then [] else SealChunks(s, Go, Chunks(plaintext[offset..]), position)
  }

  /** They start with the frame of the next slice. */
  lemma SliceSealed(s: Sealer, plaintext: Bytes, offset: nat, take: nat, position: nat)
    requires offset < |plaintext|
    requires take == (if |plaintext| - offset > FRAME_LIMIT then FRAME_LIMIT else |plaintext| - offset)
    ensures Left(s, plaintext, offset, position) ==
      [SealFrame(s, IndexOf(Go, position), |plaintext| - offset <= FRAME_LIMIT, plaintext[offset..offset + take])]
        + Left(s, plaintext, offset + take, position + 1)
  {
    var rest := plaintext[offset..];
    var cs := Chunks(rest);
    assert rest[..take] == plaintext[offset..offset + take] && rest[take..] == plaintext[offset + take..];
    if |rest| > FRAME_LIMIT {
      assert cs[1..] == Chunks(rest[FRAME_LIMIT..]) && cs[0] == rest[..FRAME_LIMIT];
    } else {
      assert rest[..take] == rest && SealChunks(s, Go, cs[1..], position + 1) == [];
    }
  }

  // ----- The browser: online, over any chunking of the source -----

  datatype StreamError =
    | InvalidLength | InvalidDigest | TooManyFrames | InvalidProtection
    | ChunkTooLarge | SourceTooLong | SourceTooShort | DigestMismatch
    | FrameIndexOverflow | FrameLengthInvalid | CiphertextLengthUnsafe

  datatype Contract = Contract(plaintextLength: int, plaintextDigest: Bytes)

  /** `assertContract`. */
  function CheckContract(c: Contract): Option<StreamError> {
    if c.plaintextLength > MAX_SAFE_INTEGER || c.plaintextLength < 0 then Some(InvalidLength)
    else if |c.plaintextDigest| != 32 then Some(InvalidDigest)
    else if FrameCount(c.plaintextLength) > UINT32 then Some(TooManyFrames)
    else None
  }

  ghost predicate AllFull(cs: seq<Bytes>) {
    forall i | 0 <= i < |cs| :: |cs[i]| == FRAME_LIMIT
  }

  lemma {:induction false} FullLength(cs: seq<Bytes>)
    requires AllFull(cs)
    ensures |Concat(cs)| == FRAME_LIMIT * |cs|
  {
    if cs != [] { FullLength(cs[1..]); }
  }

  /** The variables of `sealArtifactFrames`: a held full frame, a pending buffer, and what has been written. */
  class OnlineSealer {
    const s: Sealer
    var held: array?<Byte>
    var pending: array<Byte>
    var pendingLength: nat
    var frames: seq<Frame>
    var frameIndex: nat
    var ciphertextFed: Bytes
    var ciphertextLength: nat
    ghost var done: seq<Bytes>

    ghost predicate Valid()
      reads this, pending, held
    {
      && pending.Length == FRAME_LIMIT && pendingLength < FRAME_LIMIT
      && (held != null ==> held.Length == FRAME_LIMIT && held != pending)
      && (held == null ==> done == [])
      && AllFull(done)
      && WrittenOk()
    }

    /** The frames written are the ongoing frames of the chunks emitted so far. */
    ghost predicate WrittenOk()
      reads this
    {
      && frames == SealOngoing(s, Browser, done) && frameIndex == |done|
      && ciphertextFed == EncodeFrames(frames) && ciphertextLength == |ciphertextFed|
    }

    ghost function Held(): Bytes
      reads this, held
    {
      if held == null then [] else held[..]
    }

    /** Emitted, then held, then pending: exactly the bytes consumed. */
    ghost function Consumed(): Bytes
      requires pendingLength <= pending.Length
      reads this, pending, held
    {
      Concat(done) + Held() + pending[..pendingLength]
    }

    constructor (s: Sealer)
      ensures this.s == s && Valid() && Consumed() == [] && frames == []
      ensures fresh(pending) && held == null
    {
      this.s := s;
      held := null;
      pending := new Byte[FRAME_LIMIT];
      pendingLength := 0;
      frames, frameIndex, ciphertextFed, ciphertextLength := [], 0, [], 0;
      done := [];
    }

    /** Seal one frame, encode it and hand it on; the guards are those of `emit` and `encodeStreamFrame`. */
    method Emit(plaintext: Bytes, final: bool) returns (error: Option<StreamError>)
      requires ciphertextFed == EncodeFrames(frames) && ciphertextLength == |ciphertextFed|
      requires Lawful(s.cipher)
      modifies this`frames, this`frameIndex, this`ciphertextFed, this`ciphertextLength
      ensures error.None? <==> frameIndex == old(frameIndex) + 1
      ensures error.None? <==> old(frameIndex) < UINT32 && LengthOk(final, |plaintext| + TAG_LENGTH)
      ensures error.None? ==>
        && frames == old(frames) + [SealFrame(s, old(frameIndex), final, plaintext)]
        && ciphertextFed == EncodeFrames(frames) && ciphertextLength == |ciphertextFed|
      ensures error.Some? ==> frames == old(frames)
    {
      if frameIndex >= UINT32 {
        return Some(FrameIndexOverflow);
      }
      var f := SealFrame(s, frameIndex, final, plaintext);
      SealedFrameLength(s, frameIndex, final, plaintext);
      if !LengthOk(final, |f.ciphertext|) {
        return Some(FrameLengthInvalid);
      }
      var encoded := EncodeFrame(f);
      EncodeFramesSnoc(frames, f);
      frames := frames + [f];
      ciphertextFed := ciphertextFed + encoded;
      ciphertextLength := ciphertextLength + |encoded|;
      frameIndex := frameIndex + 1;
      return None;
    }

    /** Emit the held frame, which is known not to be the last. */
    method EmitHeld() returns (error: Option<StreamError>)
      requires held != null && held.Length == FRAME_LIMIT && AllFull(done) && WrittenOk()
      requires Lawful(s.cipher) && |done| < UINT32
      modifies this`frames, this`frameIndex, this`ciphertextFed, this`ciphertextLength, this`done
      ensures error.None? && WrittenOk() && AllFull(done) && done == old(done) + [held[..]]
      ensures Concat(done) == old(Concat(done)) + held[..]
    {
      SealOngoingSnoc(s, Browser, done, held[..]);
      ConcatSnoc(done, held[..]);
      error := Emit(held[..], false);
      done := done + [held[..]];
    }

    /** A full pending buffer becomes the held frame; the frame it displaces is emitted. */
    method Promote() returns (error: Option<StreamError>)
      requires pending.Length == FRAME_LIMIT == pendingLength
      requires held != null ==> held.Length == FRAME_LIMIT && held != pending
      requires held == null ==> done == []
      requires AllFull(done) && WrittenOk() && Lawful(s.cipher)
      requires held != null ==> |done| < UINT32
      modifies this
      ensures error.None? && Valid() && Consumed() == old(Consumed()) && fresh(pending) && held == old(pending)
    {
      error := None;
      if held != null {
        error := EmitHeld();
      }
      held := pending;
      pending := new Byte[FRAME_LIMIT];
      pendingLength := 0;
      assert held[..] == held[..FRAME_LIMIT];
      assert pending[..0] == [];
    }

    /** Append to the pending buffer, which has room. */
    method Buffer(part: Bytes)
      requires Valid() && pendingLength + |part| <= FRAME_LIMIT
      modifies this`pendingLength, pending
      ensures pendingLength == old(pendingLength) + |part| && Held() == old(Held())
      ensures Consumed() == old(Consumed()) + part
    {
      ghost var front := Concat(done) + Held();
      ghost var was := pending[..pendingLength];
      Fill(pending, pendingLength, part);
      pendingLength := pendingLength + |part|;
      Associative(front, was, part);
    }

    /** Buffer a part that fits, and promote the buffer when it is full. */
    method AbsorbPart(part: Bytes, total: nat) returns (error: Option<StreamError>)
      requires Valid() && Lawful(s.cipher) && pendingLength + |part| <= FRAME_LIMIT
      requires |Consumed()| + |part| <= total && FrameCount(total) <= UINT32
      modifies this, pending
      ensures error.None? && Valid() && Consumed() == old(Consumed()) + part
      ensures fresh(pending) || pending == old(pending)
    {
      Buffer(part);
      error := None;
      if pendingLength == FRAME_LIMIT {
        RoomForFrame(total);
        error := Promote();
      }
    }

    /** Consume one chunk of the source. `total` is the committed plaintext length. */
    method Absorb(chunk: Bytes, total: nat) returns (error: Option<StreamError>)
      requires Valid() && Lawful(s.cipher)
      requires |Consumed()| + |chunk| <= total && FrameCount(total) <= UINT32
      modifies this, pending
      ensures error.None? && Valid() && Consumed() == old(Consumed()) + chunk
      ensures fresh(pending) || pending == old(pending)
    {
      error := None;
      var offset := 0;
      ghost var before := Consumed();
      assert before + chunk[..0] == before;
      while offset < |chunk|
        invariant 0 <= offset <= |chunk| && error.None?
        invariant Valid() && Consumed() == before + chunk[..offset]
        invariant fresh(pending) || pending == old(pending)
        decreases |chunk| - offset
      {
        var take;
        error, take := AbsorbSome(chunk, offset, total, before);
        offset := offset + take;
      }
      assert chunk[..offset] == chunk;
    }

    /** One turn of the loop over a chunk: as much as fits the pending buffer. */
    method AbsorbSome(chunk: Bytes, offset: nat, total: nat, ghost before: Bytes)
      returns (error: Option<StreamError>, take: nat)
      requires Valid() && Lawful(s.cipher) && offset < |chunk|
      requires Consumed() == before + chunk[..offset]
      requires |before| + |chunk| <= total && FrameCount(total) <= UINT32
      modifies this, pending
      ensures error.None? && 0 < take <= |chunk| - offset
      ensures Valid() && Consumed() == before + chunk[..offset + take]
      ensures fresh(pending) || pending == old(pending)
    {
      take := if FRAME_LIMIT - pendingLength < |chunk| - offset then FRAME_LIMIT - pendingLength else |chunk| - offset;
      PrefixGrows(before, chunk, offset, take);
      error := AbsorbPart(chunk[offset..offset + take], total);
    }

    /** A committed length that fits 2^32 frames leaves an index for the held frame. */
    lemma RoomForFrame(total: nat)
      requires pending.Length == FRAME_LIMIT == pendingLength && AllFull(done)
      requires held != null ==> held.Length == FRAME_LIMIT
      requires |Consumed()| <= total && FrameCount(total) <= UINT32
      ensures held != null ==> |done| < UINT32
    {
      FullLength(done);
    }

    /** The end of the source: the last frame, full or not, is final. */
    method Finish(total: nat) returns (error: Option<StreamError>)
      requires Valid() && Lawful(s.cipher)
      requires |Consumed()| <= total && FrameCount(total) <= UINT32
      modifies this
      ensures error.None?
      ensures frames == SealPlaintext(s, Browser, old(Consumed())) && frameIndex == |frames|
      ensures ciphertextFed == EncodeFrames(frames) && ciphertextLength == |ciphertextFed|
    {
      ghost var all := Consumed();
      FullLength(done);
      if pendingLength > 0 {
        error := None;
        if held != null {
          error := EmitHeld();
        }
        error := EmitLast(pending[..pendingLength], all, total);
      } else if held != null {
        assert Concat(done) + held[..] == all;
        error := EmitLast(held[..], all, total);
      } else {
        assert Concat(done) + [] == all;
        error := EmitLast([], all, total);
      }
    }

    method EmitLast(last: Bytes, ghost all: Bytes, ghost total: nat) returns (error: Option<StreamError>)
      requires AllFull(done) && WrittenOk() && Lawful(s.cipher)
      requires |last| <= FRAME_LIMIT && (done == [] || last != []) && Concat(done) + last == all
      requires |all| <= total && FrameCount(total) <= UINT32
      modifies this
      ensures error.None?
      ensures frames == SealPlaintext(s, Browser, all) && frameIndex == |frames|
      ensures ciphertextFed == EncodeFrames(frames) && ciphertextLength == |ciphertextFed|
    {
      FinalChunk(done, last, all);
      SealOngoingThenFinal(s, Browser, done, last);
      FullLength(done);
      error := Emit(last, true);
    }
  }

  lemma PrefixGrows(before: Bytes, chunk: Bytes, offset: nat, take: nat)
    requires offset + take <= |chunk|
    ensures (before + chunk[..offset]) + chunk[offset..offset + take] == before + chunk[..offset + take]
    ensures |before + chunk[..offset]| + take <= |before| + |chunk|
  {
    assert chunk[..offset] + chunk[offset..offset + take] == chunk[..offset + take];
  }

  /** Full chunks and a last one, which is empty only when alone, are the slicing of their bytes. */
  lemma FinalChunk(done: seq<Bytes>, last: Bytes, all: Bytes)
    requires AllFull(done) && |last| <= FRAME_LIMIT && (done == [] || last != []) && Concat(done) + last == all
    ensures Chunks(all) == done + [last]
  {
    var cs := done + [last];
    ConcatSnoc(done, last);
    assert Framable(cs);
    ChunksOfConcat(cs);
  }

  datatype SealedStream = SealedStream(frameCount: nat, ciphertextLength: nat, ciphertextDigest: Bytes,
                                       envelopePrefix: OpaqueEnvelopes.Prefix)

  datatype Sealing = Sealed(stream: SealedStream) | Failed(error: StreamError)

  /** The source keeps the contract: pieces of at most a frame, the committed length, the committed digest. */
  ghost predicate KeepsContract(hash: Hash, c: Contract, source: seq<Bytes>) {
    && SmallPieces(source)
    && |Concat(source)| == c.plaintextLength
    && PayloadDigest(hash, Concat(source)) == c.plaintextDigest
  }

  /** The errors a caller can see; the overflow, frame length and unsafe length guards behind them never fire. */
  predicate Reportable(e: StreamError) {
    e.InvalidLength? || e.InvalidDigest? || e.TooManyFrames? || e.InvalidProtection? || SourceFault(e)
  }

  predicate SourceFault(e: StreamError) {
    e.ChunkTooLarge? || e.SourceTooLong? || e.SourceTooShort? || e.DigestMismatch?
  }

  /**
   Streaming refinement: for every chunking of the source, the frames written are those of the
   slice-by-slice sealer. A source that breaks its contract never gets a final frame written.
   */
  method SealArtifactFrames(a: Artifact, protection: Bytes, contract: Contract, source: seq<Bytes>)
    returns (result: Sealing, written: seq<Frame>)
    requires Lawful(a.cipher) && Digests(a.hash)
    ensures result.Sealed? <==>
      CheckContract(contract).None? && |protection| == 64 && KeepsContract(a.hash, contract, source)
    ensures result.Sealed? ==>
      && written == SealPlaintext(BrowserSealer(a, protection, |Concat(source)|), Browser, Concat(source))
      && Reported(a.hash, result.stream, written, |Concat(source)|)
      && OpaqueEnvelopes.EncodePrefix(OpaqueEnvelopes.STREAMABLE, protection, result.stream.ciphertextLength,
                                      result.stream.ciphertextDigest) == Some(result.stream.envelopePrefix)
    ensures result.Sealed? ==> forall i | 0 <= i < |source| :: |source[i]| <= 1_048_576
    ensures result.Failed? ==> Reportable(result.error) && forall f | f in written :: !f.final
  {
    var refused := CheckContract(contract);
    if refused.Some? {
      return Failed(refused.value), [];
    }
    if |protection| != 64 {
      return Failed(InvalidProtection), [];
    }
    var s := BrowserSealer(a, protection, contract.plaintextLength);
    var error, sealer := SealSource(s, a.hash, contract, source);
    written := sealer.frames;
    if error.Some? {
      return Failed(error.value), written;
    }
    SealedLength(s, Browser, Concat(source));
    var digest := a.hash(sealer.ciphertextFed);
    OpaqueEnvelopes.PrefixEncodedIff(OpaqueEnvelopes.STREAMABLE, protection, sealer.ciphertextLength, digest);
    var prefix := OpaqueEnvelopes.EncodePrefix(OpaqueEnvelopes.STREAMABLE, protection, sealer.ciphertextLength, digest);
    result := Sealed(SealedStream(sealer.frameIndex, sealer.ciphertextLength, digest, prefix.value));
  }

  /** The counts and the digest of the frames written for `n` bytes. */
  ghost predicate Reported(hash: Hash, r: SealedStream, written: seq<Frame>, n: nat) {
    && r.frameCount == |written| == FrameCount(n)
    && r.ciphertextLength == |EncodeFrames(written)| == n + 25 * |written| <= MAX_SAFE_INTEGER
    && r.ciphertextDigest == hash(EncodeFrames(written))
  }

  /** From the first chunk of the source to the final frame. */
  method SealSource(s: Sealer, hash: Hash, contract: Contract, source: seq<Bytes>)
    returns (error: Option<StreamError>, sealer: OnlineSealer)
    requires Lawful(s.cipher) && CheckContract(contract).None?
    ensures error.None? <==> KeepsContract(hash, contract, source)
    ensures error.None? ==>
      && sealer.frames == SealPlaintext(s, Browser, Concat(source)) && sealer.frameIndex == |sealer.frames|
      && sealer.ciphertextFed == EncodeFrames(sealer.frames) && sealer.ciphertextLength == |sealer.ciphertextFed|
    ensures error.Some? ==> SourceFault(error.value) && forall f | f in sealer.frames :: !f.final
  {
    var total: nat := contract.plaintextLength;
    sealer := new OnlineSealer(s);
    var plaintextFed;
    error, plaintextFed := Consume(sealer, SinglePrefix(ARTIFACT_PAYLOAD, total), total, source);
    OngoingNotFinal(s, sealer.done);
    if error.Some? {
      return;
    }
    SinglePrefixIsTranscript(ARTIFACT_PAYLOAD, Concat(source));
    if hash(plaintextFed) != contract.plaintextDigest {
      return Some(DigestMismatch), sealer;
    }
    error := sealer.Finish(total);
  }

  /** The pieces are small enough and add up to the committed length. */
  ghost predicate FitsLength(source: seq<Bytes>, total: nat) {
    SmallPieces(source) && |Concat(source)| == total
  }

  /** The loop over the source: check, count, hash after `prefix`, and seal each chunk; then compare the length. */
  method Consume(sealer: OnlineSealer, prefix: Bytes, total: nat, source: seq<Bytes>)
    returns (error: Option<StreamError>, plaintextFed: Bytes)
    requires sealer.Valid() && sealer.Consumed() == [] && Lawful(sealer.s.cipher) && FrameCount(total) <= UINT32
    modifies sealer, sealer.pending
    ensures sealer.Valid()
    ensures error.None? <==> FitsLength(source, total)
    ensures error.None? ==>
      sealer.Consumed() == Concat(source) && plaintextFed == prefix + Concat(source)
    ensures error.Some? ==> error.value.ChunkTooLarge? || error.value.SourceTooLong? || error.value.SourceTooShort?
    ensures fresh(sealer.pending) || sealer.pending == old(sealer.pending)
  {
    plaintextFed := prefix;
    error := None;
    var consumed, i := 0, 0;
    assert source[..0] == [] && prefix + [] == prefix;
    while i < |source| && error.None?
      invariant 0 <= i <= |source| && sealer.Valid()
      invariant fresh(sealer.pending) || sealer.pending == old(sealer.pending)
      invariant error.None? ==> SmallPieces(source[..i]) && consumed == |Concat(source[..i])| <= total
      invariant error.None? ==> sealer.Consumed() == Concat(source[..i]) && plaintextFed == prefix + Concat(source[..i])
      invariant error.Some? ==> (error.value.ChunkTooLarge? || error.value.SourceTooLong?) && !FitsLength(source, total)
      decreases |source| - i, error.None?
    {
      var chunk := source[i];
      SourceSplit(source, i, total);
      if |chunk| > FRAME_LIMIT {
        error := Some(ChunkTooLarge);
      } else if consumed + |chunk| > total {
        error := Some(SourceTooLong);
      } else {
        consumed := consumed + |chunk|;
        Associative(prefix, Concat(source[..i]), chunk);
        plaintextFed := plaintextFed + chunk;
        error := sealer.Absorb(chunk, total);
        i := i + 1;
      }
    }
    assert error.None? ==> source[..i] == source;
    if error.None? && consumed != total {
      error := Some(SourceTooShort);
    }
  }

  ghost predicate SmallPieces(source: seq<Bytes>) {
    forall i | 0 <= i < |source| :: |source[i]| <= FRAME_LIMIT
  }

  /** The next piece of the source: what it adds, and when it shows that the source does not fit. */
  lemma SourceSplit(source: seq<Bytes>, i: nat, total: nat)
    requires i < |source|
    ensures Concat(source[..i + 1]) == Concat(source[..i]) + source[i]
    ensures SmallPieces(source[..i]) && |source[i]| <= FRAME_LIMIT ==> SmallPieces(source[..i + 1])
    ensures |source[i]| > FRAME_LIMIT || |Concat(source[..i + 1])| > total ==> !FitsLength(source, total)
  {
    assert source[..i + 1] == source[..i] + [source[i]];
    ConcatSnoc(source[..i], source[i]);
    ConcatAppend(source[..i + 1], source[i + 1..]);
    assert source == source[..i + 1] + source[i + 1..];
  }

  lemma {:induction false} OngoingNotFinal(s: Sealer, cs: seq<Bytes>)
    ensures forall f | f in SealOngoing(s, Browser, cs) :: !f.final
  {
    if cs != [] { OngoingNotFinal(s, cs[..|cs| - 1]); }
  }

  /**
   The browser's frames are the runtime's payload, byte for byte: its own nonce and AAD, its own
   counter, the same bytes.
   */
  lemma BrowserSealsAsRuntime(a: Artifact, protection: Bytes, plaintext: Bytes)
    requires |protection| == 64 && FrameCount(|plaintext|) <= UINT32
    ensures EncodeFrames(SealPlaintext(BrowserSealer(a, protection, |plaintext|), Browser, plaintext))
         == EncodeFrames(SealPlaintext(RuntimeSealer(a, protection, |plaintext|), Go, plaintext))
  {
    var s, t := BrowserSealer(a, protection, |plaintext|), RuntimeSealer(a, protection, |plaintext|);
    SealersAgree(a, protection, |plaintext|);
    AlikeSeal(s, t, Browser, Chunks(plaintext), 0);
    ChunkCount(plaintext);
    DialectsSealAlike(t, Chunks(plaintext), 0);
  }

  // ----- Opening -----

  datatype OpenError =
    | PayloadInvalid
    | FramePrefixInvalid | FrameMetadataInvalid | NonFinalLengthInvalid | FrameTruncated | MissingFinal
    | AuthenticationFailed | PlaintextTooLong | LengthMismatch | PlaintextDigestMismatch
    | ContractInvalid | OuterContractInvalid

  /** The structural errors inside the runtime's frame loop; `MissingFinal` is found after it. */
  predicate Structural(e: OpenError) {
    e.FramePrefixInvalid? || e.FrameMetadataInvalid? || e.NonFinalLengthInvalid? || e.FrameTruncated?
  }

  lemma {:induction false} OpenFramesPointwise(s: Sealer, fs: seq<Frame>, cs: seq<Bytes>)
    requires Openable(fs)
    ensures OpenFrames(s, fs) == Some(cs) <==>
      |cs| == |fs| && forall i | 0 <= i < |fs| :: OpenFrame(s, fs[i]) == Some(cs[i])
  {
    if fs != [] {
      if OpenFrames(s, fs) == Some(cs) {
        OpenFramesPointwise(s, fs[1..], cs[1..]);
        forall i | 0 <= i < |fs| ensures OpenFrame(s, fs[i]) == Some(cs[i]) {
          if i > 0 { assert fs[1..][i - 1] == fs[i] && cs[1..][i - 1] == cs[i]; }
        }
      }
      if |cs| == |fs| && forall i | 0 <= i < |fs| :: OpenFrame(s, fs[i]) == Some(cs[i]) {
        OpenFramesPointwise(s, fs[1..], cs[1..]);
        assert cs == [cs[0]] + cs[1..];
      }
    }
  }

  /** The checks at the head of the runtime's frame loop, in its order. */
  method CheckFrame(payload: Bytes, offset: nat, expected: nat, sawFinal: bool)
    returns (error: Option<OpenError>, final: bool, length: nat)
    requires offset < |payload|
    ensures error.Some? ==> Structural(error.value)
    ensures error.None? <==> !sawFinal && ParseFrame(expected, payload[offset..]).Some?
    ensures error.None? ==>
      && offset + PREFIX_LENGTH + length <= |payload|
      && ParseFrame(expected, payload[offset..]).value ==
           Frame(expected, final, payload[offset + PREFIX_LENGTH..offset + PREFIX_LENGTH + length])
  {
    final, length := false, 0;
    if sawFinal || |payload| - offset < PREFIX_LENGTH {
      return Some(FramePrefixInvalid), final, length;
    }
    ghost var rest := payload[offset..];
    var index := BigEndianValue(payload[offset..offset + 4]);
    var flags := payload[offset + 4];
    length := BigEndianValue(payload[offset + 5..offset + 9]);
    assert payload[offset..offset + 4] == rest[..4] && payload[offset + 5..offset + 9] == rest[5..9];
    if index != expected || UnknownFlag(flags) || length < TAG_LENGTH || length > FRAME_LIMIT + TAG_LENGTH {
      return Some(FrameMetadataInvalid), final, length;
    }
    final := flags % 2 == 1;
    if !final && length != FRAME_LIMIT + TAG_LENGTH {
      return Some(NonFinalLengthInvalid), final, length;
    }
    if |payload| - offset - PREFIX_LENGTH < length {
      return Some(FrameTruncated), final, length;
    }
    assert rest[PREFIX_LENGTH..PREFIX_LENGTH + length] ==
           payload[offset + PREFIX_LENGTH..offset + PREFIX_LENGTH + length];
    return None, final, length;
  }

  /** The plaintext a payload stands for, when every frame opens and the contract holds. */
  ghost predicate PayloadOpensTo(s: Sealer, hash: Hash, d: Dialect, payload: Bytes,
                                 c: Contract, plaintext: Bytes) {
    var fs := Parse(d, payload, 0);
    && fs.Some? && Openable(fs.value) && OpenFrames(s, fs.value).Some?
    && Concat(OpenFrames(s, fs.value).value) == plaintext
    && |plaintext| == c.plaintextLength
    && PayloadDigest(hash, plaintext) == c.plaintextDigest
  }

  /** What the runtime opens: its frame count is a `uint32`, and a count that wrapped to zero is taken for no frame. */
  ghost predicate RuntimeOpens(s: Sealer, hash: Hash, payload: Bytes, c: Contract, plaintext: Bytes) {
    PayloadOpensTo(s, hash, Go, payload, c, plaintext) && |Parse(Go, payload, 0).value| % UINT32 != 0
  }

  /** Every frame parses and opens, and the plaintext is within `limit`. */
  ghost predicate PayloadOpensWithin(s: Sealer, payload: Bytes, limit: int) {
    var fs := Parse(Go, payload, 0);
    && fs.Some? && Openable(fs.value) && OpenFrames(s, fs.value).Some?
    && |Concat(OpenFrames(s, fs.value).value)| <= limit
  }

  /** What the loop over a parsed payload gives: the plaintext, or why there is none. */
  ghost function LoopOutcome(s: Sealer, fs: seq<Frame>, before: Bytes, limit: int): Option<Bytes>
    requires Openable(fs)
  {
    if fs == [] then Some(before)
    else
      var first := OpenFrame(s, fs[0]);
      if first.None? || |before| + |first.value| > limit then None
      else LoopOutcome(s, fs[1..], before + first.value, limit)
  }

  lemma {:induction false} LoopOutcomeIs(s: Sealer, fs: seq<Frame>, before: Bytes, limit: int)
    requires Openable(fs)
    ensures var r := LoopOutcome(s, fs, before, limit);
      r == if OpenFrames(s, fs).Some? && (fs == [] || |before| + |Concat(OpenFrames(s, fs).value)| <= limit)
           then Some(before + Concat(OpenFrames(s, fs).value)) else None
  {
    if fs == [] {
      assert before + [] == before;
    } else if OpenFrame(s, fs[0]).Some? {
      var c := OpenFrame(s, fs[0]).value;
      LoopOutcomeIs(s, fs[1..], before + c, limit);
      if OpenFrames(s, fs).Some? {
        var cs := OpenFrames(s, fs).value;
        assert cs[0] == c && cs[1..] == OpenFrames(s, fs[1..]).value;
        Associative(before, c, Concat(cs[1..]));
        if fs[1..] == [] { assert cs[1..] == [] && Concat(cs) == c + []; }
      }
    }
  }

  ghost predicate LoopAccepts(s: Sealer, hash: Hash, fs: seq<Frame>, c: Contract, p: Bytes)
    requires Openable(fs)
  {
    && LoopOutcome(s, fs, [], c.plaintextLength) == Some(p) && |p| == c.plaintextLength
    && PayloadDigest(hash, p) == c.plaintextDigest
  }

  /** The loop's outcome decides whether a parsed payload opens. */
  lemma OpensByLoop(s: Sealer, hash: Hash, payload: Bytes, fs: seq<Frame>, c: Contract, p: Bytes)
    requires Parse(Go, payload, 0) == Some(fs) && Openable(fs) && fs != []
    ensures PayloadOpensTo(s, hash, Go, payload, c, p) <==> LoopAccepts(s, hash, fs, c, p)
    ensures PayloadOpensWithin(s, payload, c.plaintextLength) <==> LoopOutcome(s, fs, [], c.plaintextLength).Some?
  {
    LoopOutcomeIs(s, fs, [], c.plaintextLength);
    if OpenFrames(s, fs).Some? { assert [] + Concat(OpenFrames(s, fs).value) == Concat(OpenFrames(s, fs).value); }
  }

  /**
   `OpenArtifactStream` from the payload on. The payload has been validated, so none of the structural
   errors inside the loop can occur; a final frame is found missing exactly when the count has wrapped.
   */
  method OpenArtifactPayload(s: Sealer, hash: Hash, payload: Bytes, c: Contract)
    returns (error: Option<OpenError>, plaintext: Bytes, frameCount: nat)
    ensures error.None? <==> exists p :: RuntimeOpens(s, hash, payload, c, p)
    ensures error.None? ==>
      && RuntimeOpens(s, hash, payload, c, plaintext)
      && frameCount == |Parse(Go, payload, 0).value| % UINT32
    ensures error.Some? ==> !Structural(error.value)
    ensures error == Some(MissingFinal) <==>
      PayloadOpensWithin(s, payload, c.plaintextLength) && |Parse(Go, payload, 0).value| % UINT32 == 0
  {
    plaintext, frameCount := [], 0;
    var valid := ValidateStreamPayload(Go, payload);
    if !valid {
      return Some(PayloadInvalid), plaintext, frameCount;
    }
    ghost var fs := Parse(Go, payload, 0).value;
    ParsedEncodes(Go, payload, 0);
    WellFormedOpenable(Go, fs, 0);
    ValidatedOpens(s, hash, payload, fs, c);
    error, plaintext, frameCount := OpenValidated(s, hash, payload, fs, c);
  }

  /** What the loop finds is what the payload opens to. */
  lemma ValidatedOpens(s: Sealer, hash: Hash, payload: Bytes, fs: seq<Frame>, c: Contract)
    requires Parse(Go, payload, 0) == Some(fs) && Openable(fs) && fs != []
    ensures forall p :: RuntimeOpens(s, hash, payload, c, p) <==> LoopAccepts(s, hash, fs, c, p) && |fs| % UINT32 != 0
    ensures PayloadOpensWithin(s, payload, c.plaintextLength) <==> LoopOutcome(s, fs, [], c.plaintextLength).Some?
  {
    OpensByLoop(s, hash, payload, fs, c, []);
    forall p ensures PayloadOpensTo(s, hash, Go, payload, c, p) <==> LoopAccepts(s, hash, fs, c, p) {
      OpensByLoop(s, hash, payload, fs, c, p);
    }
  }

  method OpenValidated(s: Sealer, hash: Hash, payload: Bytes, ghost fs: seq<Frame>, c: Contract)
    returns (error: Option<OpenError>, plaintext: Bytes, frameCount: nat)
    requires WellFormed(Go, fs, 0) && payload == EncodeFrames(fs) && Openable(fs)
    ensures error.None? ==>
      LoopAccepts(s, hash, fs, c, plaintext) && frameCount == |fs| % UINT32 && |fs| % UINT32 != 0
    ensures error.Some? ==>
      && !Structural(error.value) && !error.value.PayloadInvalid?
      && (|fs| % UINT32 == 0 || forall p :: !LoopAccepts(s, hash, fs, c, p))
    ensures error == Some(MissingFinal) <==>
      LoopOutcome(s, fs, [], c.plaintextLength).Some? && |fs| % UINT32 == 0
  {
    error, plaintext, frameCount := OpenLoop(s, payload, fs, c.plaintextLength);
    if error.None? {
      error := CheckPlaintext(hash, plaintext, c);
    }
  }

  /** The length and digest checks after the loop; the hasher was fed the length first. */
  method CheckPlaintext(hash: Hash, plaintext: Bytes, c: Contract) returns (error: Option<OpenError>)
    ensures error.None? <==>
      |plaintext| == c.plaintextLength && PayloadDigest(hash, plaintext) == c.plaintextDigest
    ensures error.Some? ==> error.value.LengthMismatch? || error.value.PlaintextDigestMismatch?
  {
    if |plaintext| != c.plaintextLength {
      return Some(LengthMismatch);
    }
    SinglePrefixIsTranscript(ARTIFACT_PAYLOAD, plaintext);
    if hash(SinglePrefix(ARTIFACT_PAYLOAD, |plaintext|) + plaintext) != c.plaintextDigest {
      return Some(PlaintextDigestMismatch);
    }
    return None;
  }

  /** Check and decrypt the frame at `offset`, which is the first of `rest`. */
  method OpenNext(s: Sealer, payload: Bytes, offset: nat, index: nat, sawFinal: bool, ghost rest: seq<Frame>)
    returns (error: Option<OpenError>, decrypted: Option<Bytes>, final: bool, length: nat)
    requires offset < |payload| && !sawFinal && rest != [] && payload[offset..] == EncodeFrames(rest)
    requires rest[0].index == index < UINT32 && LengthOk(rest[0].final, |rest[0].ciphertext|)
    ensures error.None? && decrypted == OpenFrame(s, rest[0]) && final == rest[0].final
    ensures offset + PREFIX_LENGTH + length <= |payload|
    ensures payload[offset + PREFIX_LENGTH + length..] == EncodeFrames(rest[1..])
  {
    ParseFrameEncoded(rest[0], EncodeFrames(rest[1..]));
    error, final, length := CheckFrame(payload, offset, index, sawFinal);
    var ciphertext := payload[offset + PREFIX_LENGTH..offset + PREFIX_LENGTH + length];
    decrypted := OpenFrame(s, Frame(index, final, ciphertext));
    assert payload[offset + PREFIX_LENGTH + length..] == payload[offset..][PREFIX_LENGTH + length..];
  }

  method OpenLoop(s: Sealer, payload: Bytes, ghost fs: seq<Frame>, limit: int)
    returns (error: Option<OpenError>, plaintext: Bytes, frameCount: nat)
    requires WellFormed(Go, fs, 0) && payload == EncodeFrames(fs) && Openable(fs)
    ensures error.None? ==> LoopOutcome(s, fs, [], limit) == Some(plaintext) && frameCount == |fs| % UINT32 != 0
    ensures error.Some? ==>
      error.value.MissingFinal? || error.value.AuthenticationFailed? || error.value.PlaintextTooLong?
    ensures error == Some(MissingFinal) <==> LoopOutcome(s, fs, [], limit).Some? && |fs| % UINT32 == 0
    ensures error.Some? && !error.value.MissingFinal? ==> LoopOutcome(s, fs, [], limit).None?
  {
    plaintext, frameCount, error := [], 0, None;
    var offset, sawFinal := 0, false;
    ghost var rest := fs;
    assert payload[0..] == payload;
    while offset < |payload| && error.None?
      invariant 0 <= offset <= |payload| && Openable(rest) && |rest| <= |fs|
      invariant payload[offset..] == EncodeFrames(rest) && frameCount == IndexOf(Go, |fs| - |rest|)
      invariant sawFinal == (rest == []) && (rest != [] ==> WellFormed(Go, rest, |fs| - |rest|))
      invariant error.None? ==> LoopOutcome(s, fs, [], limit) == LoopOutcome(s, rest, plaintext, limit)
      invariant error.Some? ==>
        LoopOutcome(s, fs, [], limit).None? && (error.value.AuthenticationFailed? || error.value.PlaintextTooLong?)
      decreases |payload| - offset, error.None?
    {
      var decrypted, final, length;
      error, decrypted, final, length := OpenNext(s, payload, offset, frameCount, sawFinal, rest);
      if decrypted.None? {
        error := Some(AuthenticationFailed);
      } else if |plaintext| + |decrypted.value| > limit {
        error := Some(PlaintextTooLong);
      } else {
        plaintext := plaintext + decrypted.value;
        frameCount := NextIndex(Go, frameCount);
        offset := offset + PREFIX_LENGTH + length;
        sawFinal := final;
        rest := rest[1..];
      }
    }
    assert rest == [] || EncodeFrames(rest) != [];
    GoIndexWraps(|fs|);
    if error.None? && (!sawFinal || frameCount == 0) {
      error := Some(MissingFinal);
    }
  }

  /** What the browser's opener accepts: frames, their outer contract and their plaintext contract. */
  ghost predicate FramesOpenTo(s: Sealer, hash: Hash, c: Contract, ciphertextLength: nat,
                               ciphertextDigest: Bytes, fs: seq<Frame>, plaintext: seq<Bytes>) {
    && CheckContract(c).None? && |ciphertextDigest| == 32
    && WellFormed(Browser, fs, 0) && Openable(fs) && OpenFrames(s, fs) == Some(plaintext)
    && |EncodeFrames(fs)| == ciphertextLength && hash(EncodeFrames(fs)) == ciphertextDigest
    && |Concat(plaintext)| == c.plaintextLength
    && PayloadDigest(hash, Concat(plaintext)) == c.plaintextDigest
  }

  /** The checks and the decryption of one frame in `openArtifactFrames`. */
  method OpenOne(s: Sealer, frame: Frame, expected: nat, sawFinal: bool)
    returns (error: Option<OpenError>, plaintext: Bytes, encoded: Bytes)
    ensures error.None? <==>
      && !sawFinal && frame.index == expected < UINT32 && LengthOk(frame.final, |frame.ciphertext|)
      && OpenFrame(s, frame).Some?
    ensures error.None? ==> OpenFrame(s, frame) == Some(plaintext) && encoded == EncodeFrame(frame)
    ensures error.Some? ==>
      error.value.FramePrefixInvalid? || error.value.FrameMetadataInvalid? || error.value.AuthenticationFailed?
    ensures error == Some(AuthenticationFailed) ==> |frame.ciphertext| >= TAG_LENGTH && OpenFrame(s, frame).None?
    ensures error.Some? && !error.value.AuthenticationFailed? ==>
      sawFinal || frame.index != expected || expected >= UINT32 || !LengthOk(frame.final, |frame.ciphertext|)
  {
    plaintext, encoded := [], [];
    if sawFinal || frame.index != expected {
      return Some(FramePrefixInvalid), plaintext, encoded;
    }
    var minimum := if frame.final then TAG_LENGTH else FRAME_LIMIT + TAG_LENGTH;
    if |frame.ciphertext| < minimum || |frame.ciphertext| > FRAME_LIMIT + TAG_LENGTH {
      return Some(FrameMetadataInvalid), plaintext, encoded;
    }
    if frame.index >= UINT32 {
      return Some(FrameMetadataInvalid), plaintext, encoded;
    }
    encoded := EncodeFrame(frame);
    var decrypted := OpenFrame(s, frame);
    if decrypted.None? {
      return Some(AuthenticationFailed), plaintext, encoded;
    }
    plaintext := decrypted.value;
    return None, plaintext, encoded;
  }

  /** The frames seen so far are an acceptable beginning, and `written` is what they opened to. */
  ghost predicate Begun(s: Sealer, fs: seq<Frame>, written: seq<Bytes>, sawFinal: bool) {
    && |written| <= |fs| && (sawFinal ==> written != [])
    && forall i | 0 <= i < |written| ::
         && fs[i].index == i < UINT32 && LengthOk(fs[i].final, |fs[i].ciphertext|)
         && OpenFrame(s, fs[i]) == Some(written[i])
         && (fs[i].final <==> sawFinal && i == |written| - 1)
  }

  lemma {:induction false} BegunIsWellFormed(fs: seq<Frame>, position: nat)
    requires fs != []
    requires forall i | 0 <= i < |fs| :: InPlace(fs, position, i)
    ensures WellFormed(Browser, fs, position)
  {
    assert InPlace(fs, position, 0);
    if |fs| > 1 {
      var rest, next := fs[1..], position + 1;
      forall i | 0 <= i < |rest| ensures InPlace(rest, next, i) { assert InPlace(fs, position, i + 1); }
      BegunIsWellFormed(rest, next);
    }
  }

  ghost predicate InPlace(fs: seq<Frame>, position: nat, i: nat)
    requires i < |fs|
  {
    && fs[i].index == position + i < UINT32 && LengthOk(fs[i].final, |fs[i].ciphertext|)
    && (fs[i].final <==> i == |fs| - 1)
  }

  lemma {:induction false} BegunToTheEnd(s: Sealer, fs: seq<Frame>, written: seq<Bytes>)
    requires Begun(s, fs, written, true) && |written| == |fs|
    ensures WellFormed(Browser, fs, 0) && Openable(fs) && OpenFrames(s, fs) == Some(written)
  {
    forall i | 0 <= i < |fs| ensures InPlace(fs, 0, i) {
      assert OpenFrame(s, fs[i]) == Some(written[i]);
    }
    BegunIsWellFormed(fs, 0);
    WellFormedOpenable(Browser, fs, 0);
    OpenFramesPointwise(s, fs, written);
  }

  /** What an acceptable stream says about the frame a beginning stops at. */
  lemma AcceptedGoesOn(s: Sealer, fs: seq<Frame>, cs: seq<Bytes>, k: nat)
    requires WellFormed(Browser, fs, 0) && Openable(fs) && OpenFrames(s, fs) == Some(cs) && k < |fs|
    ensures fs[k].index == k < UINT32 && LengthOk(fs[k].final, |fs[k].ciphertext|) && OpenFrame(s, fs[k]) == Some(cs[k])
    ensures fs[k].final <==> k == |fs| - 1
  {
    WellFormedAt(Browser, fs, 0, k);
    OpenFramesPointwise(s, fs, cs);
  }

  /** What an artifact's frames open to, with the checks on the metadata around them. */
  ghost predicate ArtifactOpensTo(a: Artifact, protection: Bytes, c: Contract, ciphertextLength: nat,
                                  ciphertextDigest: Bytes, fs: seq<Frame>, plaintext: seq<Bytes>) {
    && CheckContract(c).None? && |protection| == 64
    && FramesOpenTo(BrowserSealer(a, protection, c.plaintextLength), a.hash, c, ciphertextLength, ciphertextDigest,
                    fs, plaintext)
  }

  /** The browser's opener, over frames as the reader delivers them. */
  method OpenArtifactFrames(a: Artifact, protection: Bytes, c: Contract, ciphertextLength: nat,
                            ciphertextDigest: Bytes, frames: seq<Frame>)
    returns (error: Option<OpenError>, written: seq<Bytes>)
    requires Lawful(a.cipher)
    ensures error.None? ==> ArtifactOpensTo(a, protection, c, ciphertextLength, ciphertextDigest, frames, written)
    ensures error.Some? ==>
      forall p :: !ArtifactOpensTo(a, protection, c, ciphertextLength, ciphertextDigest, frames, p)
  {
    written := [];
    var refused := CheckContract(c);
    if refused.Some? || |protection| != 64 || |ciphertextDigest| != 32 {
      return Some(ContractInvalid), written;
    }
    var s := BrowserSealer(a, protection, c.plaintextLength);
    var sawFinal, plaintext, ciphertextFed;
    error, written, sawFinal, plaintext, ciphertextFed := OpenEach(s, c.plaintextLength, frames);
    forall p | FramesOpenTo(s, a.hash, c, ciphertextLength, ciphertextDigest, frames, p)
      ensures OpensWithin(s, frames, c.plaintextLength)
    {}
    if error.None? {
      error := CheckStream(s, a.hash, c, ciphertextLength, ciphertextDigest, frames, written, sawFinal,
                           plaintext, ciphertextFed);
    }
  }

  /** The checks after the frame loop. */
  method CheckStream(s: Sealer, hash: Hash, c: Contract, ciphertextLength: nat, ciphertextDigest: Bytes,
                     ghost frames: seq<Frame>, ghost written: seq<Bytes>, sawFinal: bool,
                     plaintext: Bytes, ciphertextFed: Bytes)
    returns (error: Option<OpenError>)
    requires CheckContract(c).None? && |ciphertextDigest| == 32
    requires Begun(s, frames, written, sawFinal) && |written| == |frames|
    requires plaintext == Concat(written) && ciphertextFed == EncodeFrames(frames)
    ensures error.None? ==> FramesOpenTo(s, hash, c, ciphertextLength, ciphertextDigest, frames, written)
    ensures error.Some? ==>
      forall p :: !FramesOpenTo(s, hash, c, ciphertextLength, ciphertextDigest, frames, p)
  {
    if !sawFinal {
      forall p ensures !FramesOpenTo(s, hash, c, ciphertextLength, ciphertextDigest, frames, p) {
        if WellFormed(Browser, frames, 0) { WellFormedAt(Browser, frames, 0, |frames| - 1); }
      }
      return Some(MissingFinal);
    }
    BegunToTheEnd(s, frames, written);
    if |ciphertextFed| != ciphertextLength || hash(ciphertextFed) != ciphertextDigest {
      return Some(OuterContractInvalid);
    }
    error := CheckPlaintext(hash, plaintext, c);
  }

  /** One more frame of an acceptable beginning. */
  lemma {:induction false} BegunOn(s: Sealer, fs: seq<Frame>, written: seq<Bytes>, sawFinal: bool, k: nat, piece: Bytes)
    requires k < |fs| && k == |written| && Begun(s, fs, written, sawFinal) && !sawFinal
    requires fs[k].index == k < UINT32 && LengthOk(fs[k].final, |fs[k].ciphertext|)
    requires OpenFrame(s, fs[k]) == Some(piece)
    ensures Begun(s, fs, written + [piece], fs[k].final)
    ensures Concat(written + [piece]) == Concat(written) + piece
    ensures EncodeFrames(fs[..k + 1]) == EncodeFrames(fs[..k]) + EncodeFrame(fs[k])
  {
    ConcatSnoc(written, piece);
    EncodeFramesSnoc(fs[..k], fs[k]);
    assert fs[..k + 1] == fs[..k] + [fs[k]];
  }

  /** The frame loop of the opener. */
  method OpenEach(s: Sealer, limit: int, frames: seq<Frame>)
    returns (error: Option<OpenError>, written: seq<Bytes>, sawFinal: bool, plaintext: Bytes, ciphertextFed: Bytes)
    requires Lawful(s.cipher)
    ensures error.None? ==>
      && Begun(s, frames, written, sawFinal) && |written| == |frames|
      && plaintext == Concat(written) && ciphertextFed == EncodeFrames(frames)
    ensures error.Some? ==> !OpensWithin(s, frames, limit)
  {
    error, written, sawFinal, plaintext, ciphertextFed := None, [], false, [], [];
    var k := 0;
    while k < |frames| && error.None?
      invariant 0 <= k <= |frames| && k == |written| && Begun(s, frames, written, sawFinal)
      invariant plaintext == Concat(written) && ciphertextFed == EncodeFrames(frames[..k])
      invariant error.Some? ==> !OpensWithin(s, frames, limit)
      decreases |frames| - k, error.None?
    {
      var piece, encoded;
      error, piece, encoded := OpenOne(s, frames[k], k, sawFinal);
      if error.None? {
        BegunOn(s, frames, written, sawFinal, k, piece);
        if |plaintext| + |piece| > limit {
          error := Some(PlaintextTooLong);
          TooLongRefuses(s, frames, written + [piece], k + 1, limit);
        } else {
          plaintext, ciphertextFed, sawFinal := plaintext + piece, ciphertextFed + encoded, frames[k].final;
          written := written + [piece];
          k := k + 1;
        }
      } else {
        BadFrameRefuses(s, frames, written, k, sawFinal, limit);
      }
    }
    assert error.None? ==> frames[..k] == frames;
  }

  /** The frames form a stream that opens to at most `limit` bytes. */
  ghost predicate OpensWithin(s: Sealer, fs: seq<Frame>, limit: int) {
    && WellFormed(Browser, fs, 0) && Openable(fs) && OpenFrames(s, fs).Some?
    && |Concat(OpenFrames(s, fs).value)| <= limit
  }

  lemma BadFrameRefuses(s: Sealer, fs: seq<Frame>, written: seq<Bytes>, k: nat, sawFinal: bool, limit: int)
    requires k < |fs| && k == |written| && Begun(s, fs, written, sawFinal)
    requires sawFinal || fs[k].index != k || k >= UINT32 || !LengthOk(fs[k].final, |fs[k].ciphertext|)
      || OpenFrame(s, fs[k]).None?
    ensures !OpensWithin(s, fs, limit)
  {
    if WellFormed(Browser, fs, 0) && Openable(fs) && OpenFrames(s, fs).Some? {
      AcceptedGoesOn(s, fs, OpenFrames(s, fs).value, k);
      if k > 0 { AcceptedGoesOn(s, fs, OpenFrames(s, fs).value, k - 1); }
    }
  }

  lemma TooLongRefuses(s: Sealer, fs: seq<Frame>, begun: seq<Bytes>, k: nat, limit: int)
    requires k == |begun| <= |fs| && |Concat(begun)| > limit
    requires forall i | 0 <= i < k :: |fs[i].ciphertext| >= TAG_LENGTH && OpenFrame(s, fs[i]) == Some(begun[i])
    ensures !OpensWithin(s, fs, limit)
  {
    if Openable(fs) && OpenFrames(s, fs).Some? {
      var cs := OpenFrames(s, fs).value;
      OpenFramesPointwise(s, fs, cs);
      assert cs[..k] == begun;
      ConcatAppend(cs[..k], cs[k..]);
      assert cs == cs[..k] + cs[k..];
    }
  }

  // ----- The whole trip -----

  /** What the slicing sealer makes of a plaintext, the runtime opens unless its frame count wraps to zero. */
  lemma RuntimeOpensSealed(s: Sealer, hash: Hash, plaintext: Bytes, c: Contract)
    requires Lawful(s.cipher) && c == Contract(|plaintext|, PayloadDigest(hash, plaintext))
    ensures var payload := EncodeFrames(SealPlaintext(s, Go, plaintext));
      && PayloadOpensTo(s, hash, Go, payload, c, plaintext)
      && (forall p :: RuntimeOpens(s, hash, payload, c, p) <==>
            p == plaintext && FrameCount(|plaintext|) % UINT32 != 0)
  {
    OpenUndoesSeal(s, Go, plaintext);
    ParseEncoded(Go, SealPlaintext(s, Go, plaintext), 0);
    ChunkCount(plaintext);
  }

  /** The smallest plaintext that is sealed, well formed, and refused: 2^32 full frames. */
  lemma WrappedCountRefused(s: Sealer, hash: Hash, plaintext: Bytes)
    requires Lawful(s.cipher) && Digests(hash) && |plaintext| == UINT32 * FRAME_LIMIT
    ensures var c := Contract(|plaintext|, PayloadDigest(hash, plaintext));
      var payload := EncodeFrames(SealPlaintext(s, Go, plaintext));
      && CheckContract(c).None? && PayloadOpensTo(s, hash, Go, payload, c, plaintext)
      && forall p :: !RuntimeOpens(s, hash, payload, c, p)
  {
    assert FrameCount(|plaintext|) == UINT32;
    RuntimeOpensSealed(s, hash, plaintext, Contract(|plaintext|, PayloadDigest(hash, plaintext)));
  }

  /** Whatever the browser sealed, it opens. */
  lemma BrowserOpensSealed(s: Sealer, hash: Hash, plaintext: Bytes, c: Contract, fs: seq<Frame>)
    requires Lawful(s.cipher) && Digests(hash) && CheckContract(c).None?
    requires c == Contract(|plaintext|, PayloadDigest(hash, plaintext)) && fs == SealPlaintext(s, Browser, plaintext)
    ensures FramesOpenTo(s, hash, c, |EncodeFrames(fs)|, hash(EncodeFrames(fs)), fs, Chunks(plaintext))
  {
    OpenUndoesSeal(s, Browser, plaintext);
  }

  lemma CountInRange(n: nat)
    requires 0 < n <= UINT32
    ensures n % UINT32 != 0 <==> n < UINT32
  {}

  /**
   What the browser sealed, from whatever chunking, the browser opens to the source's bytes, always;
   the runtime opens it, to the same bytes and no others, exactly when it has fewer than 2^32 frames.
   */
  lemma ArtifactRoundTrip(a: Artifact, protection: Bytes, c: Contract, source: seq<Bytes>, fs: seq<Frame>)
    requires Lawful(a.cipher) && Digests(a.hash) && |protection| == 64
    requires CheckContract(c).None? && KeepsContract(a.hash, c, source)
    requires fs == SealPlaintext(BrowserSealer(a, protection, |Concat(source)|), Browser, Concat(source))
    ensures ArtifactOpensTo(a, protection, c, |EncodeFrames(fs)|, a.hash(EncodeFrames(fs)), fs, Chunks(Concat(source)))
    ensures forall p ::
      RuntimeOpens(RuntimeSealer(a, protection, |Concat(source)|), a.hash, EncodeFrames(fs), c, p) <==>
        p == Concat(source) && FrameCount(|Concat(source)|) < UINT32
  {
    var plaintext := Concat(source);
    BrowserOpensSealed(BrowserSealer(a, protection, |plaintext|), a.hash, plaintext, c, fs);
    BrowserSealsAsRuntime(a, protection, plaintext);
    RuntimeOpensSealed(RuntimeSealer(a, protection, |plaintext|), a.hash, plaintext, c);
    CountInRange(FrameCount(|plaintext|));
  }

  // ----- The openers accept nothing but sealings -----

  /** Frames of these chunks open to them, and under the exact cipher law only those frames do. */
  lemma OpensIffSealed(s: Sealer, d: Dialect, fs: seq<Frame>, cs: seq<Bytes>)
    requires Exact(s.cipher) && Countable(d, |fs|)
    ensures WellFormed(d, fs, 0) && Openable(fs) && OpenFrames(s, fs) == Some(cs) <==>
      Framable(cs) && fs == SealChunks(s, d, cs, 0)
  {
    if WellFormed(d, fs, 0) && Openable(fs) && OpenFrames(s, fs) == Some(cs) {
      OpenedFramable(s, d, fs, 0);
      OpenedReseals(s, d, fs, 0);
    }
    if Framable(cs) && fs == SealChunks(s, d, cs, 0) {
      SealedWellFormed(s, d, cs, 0);
      WellFormedOpenable(d, fs, 0);
      OpenSealed(s, d, cs, 0);
    }
  }

  /** The contract of a plaintext. */
  function ContractOf(hash: Hash, plaintext: Bytes): Contract {
    Contract(|plaintext|, PayloadDigest(hash, plaintext))
  }

  /** A payload is the sealing of a plaintext, cut into full frames and a last one. */
  ghost predicate SealingOf(s: Sealer, payload: Bytes, cs: seq<Bytes>, plaintext: Bytes) {
    Framable(cs) && Concat(cs) == plaintext && payload == EncodeFrames(SealChunks(s, Go, cs, 0))
  }

  /** The runtime opens exactly the sealings whose frame count does not wrap to zero, under their own contract. */
  lemma RuntimeOpensIff(s: Sealer, hash: Hash, payload: Bytes, c: Contract, plaintext: Bytes)
    requires Exact(s.cipher)
    ensures RuntimeOpens(s, hash, payload, c, plaintext) <==>
      c == ContractOf(hash, plaintext) && exists cs :: SealingOf(s, payload, cs, plaintext) && |cs| % UINT32 != 0
  {
    if RuntimeOpens(s, hash, payload, c, plaintext) {
      var fs := Parse(Go, payload, 0).value;
      ParsedEncodes(Go, payload, 0);
      OpensIffSealed(s, Go, fs, OpenFrames(s, fs).value);
      assert SealingOf(s, payload, OpenFrames(s, fs).value, plaintext);
    }
    if cs :| SealingOf(s, payload, cs, plaintext) && |cs| % UINT32 != 0 {
      var fs := SealChunks(s, Go, cs, 0);
      OpensIffSealed(s, Go, fs, cs);
      ParseEncoded(Go, fs, 0);
    }
  }

  /**
   The browser opens exactly the sealings, under their own contract and with the length and digest that
   sealing reports.
   */
  lemma BrowserOpensIff(a: Artifact, protection: Bytes, c: Contract, length: nat, digest: Bytes,
                        fs: seq<Frame>, cs: seq<Bytes>)
    requires Exact(a.cipher) && Digests(a.hash)
    ensures ArtifactOpensTo(a, protection, c, length, digest, fs, cs) <==>
      && |protection| == 64 && CheckContract(c).None? && c == ContractOf(a.hash, Concat(cs))
      && Framable(cs) && |cs| <= UINT32
      && fs == SealChunks(BrowserSealer(a, protection, |Concat(cs)|), Browser, cs, 0)
      && length == |EncodeFrames(fs)| && digest == a.hash(EncodeFrames(fs))
  {
    if |protection| == 64 && CheckContract(c).None? {
      var s := BrowserSealer(a, protection, c.plaintextLength);
      if WellFormed(Browser, fs, 0) { BrowserWithinBound(fs, 0); }
      if |fs| <= UINT32 { OpensIffSealed(s, Browser, fs, cs); }
    }
  }

  /** The contract check in plain numbers: a length of at most 2^52 and a digest of 32 bytes. */
  lemma ContractIff(c: Contract)
    ensures CheckContract(c).None? <==> 0 <= c.plaintextLength <= 0x10_0000_0000_0000 && |c.plaintextDigest| == 32
    ensures CheckContract(c) == Some(TooManyFrames) <==>
      0x10_0000_0000_0000 < c.plaintextLength <= MAX_SAFE_INTEGER && |c.plaintextDigest| == 32
    ensures CheckContract(c) == Some(InvalidLength) <==> c.plaintextLength < 0 || c.plaintextLength > MAX_SAFE_INTEGER
  {
    if 0 <= c.plaintextLength { FrameCountBound(c.plaintextLength); }
  }

  lemma FrameCountBound(n: nat)
    ensures FrameCount(n) <= UINT32 <==> n <= UINT32 * FRAME_LIMIT
  {}
}
