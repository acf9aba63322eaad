/**
 The browser's chunked artifact envelope. The writer regroups an arbitrary source
 into fixed chunks with a byte queue; the reader pulls exact byte counts out of an
 arbitrary chunking of the envelope. Both are proved against functions of the whole
 byte strings, so no chunking can show.
 */
module ArtifactEnvelopes {
  import opened ByteStrings
  import opened Ciphers
  import opened Frames
  import Cbor

  const MAGIC: Bytes := [0x41, 0x57, 0x53, 0x4d, 0x41, 0x52, 0x54, 0x31]
  const FRAME_HEADER: nat := 13
  const MAX_HEADER: nat := 65_536

  /** `enc:xchacha20poly1305-chunked:v1` */
  const ALGORITHM: Bytes := [
    0x65, 0x6E, 0x63, 0x3A, 0x78, 0x63, 0x68, 0x61, 0x63, 0x68, 0x61, 0x32, 0x30, 0x70, 0x6F, 0x6C,
    0x79, 0x31, 0x33, 0x30, 0x35, 0x2D, 0x63, 0x68, 0x75, 0x6E, 0x6B, 0x65, 0x64, 0x3A, 0x76, 0x31]

  // ----- The byte queue -----

  predicate NoEmpty(queue: seq<Bytes>) {
    forall i | 0 <= i < |queue| :: queue[i] != []
  }

  /** Take `length` bytes off the front of a queue that holds them, splitting the last piece touched. */
  method TakeBytes(queue: seq<Bytes>, length: nat) returns (output: Bytes, rest: seq<Bytes>)
    requires |Concat(queue)| >= length && NoEmpty(queue)
    ensures output == Concat(queue)[..length] && Concat(rest) == Concat(queue)[length..] && NoEmpty(rest)
  {
    output, rest := [], queue;
    ghost var whole := Concat(queue);
    while |output| < length
      invariant |output| <= length && NoEmpty(rest) && output + Concat(rest) == whole
      decreases length - |output|
    {
      var first := rest[0];
      var count := if |first| < length - |output| then |first| else length - |output|;
      assert Concat(rest) == first + Concat(rest[1..]);
      assert first == first[..count] + first[count..];
      Associative(output, first[..count], first[count..] + Concat(rest[1..]));
      Associative(first[..count], first[count..], Concat(rest[1..]));
      output := output + first[..count];
      if count == |first| {
        assert first[count..] == [] && [] + Concat(rest[1..]) == Concat(rest[1..]);
        rest := rest[1..];
      } else {
        var shorter := [first[count..]] + rest[1..];
        assert shorter[1..] == rest[1..];
        rest := shorter;
      }
    }
    assert whole[..length] == output && whole[length..] == Concat(rest);
  }

  /** `fixedChunks`: full chunks as soon as they are there, and what is left at the end, if anything. */
  method FixedChunks(source: seq<Bytes>) returns (chunks: seq<Bytes>)
    ensures chunks == if Concat(source) == [] then [] else Chunks(Concat(source))
  {
    chunks := [];
    var queued: seq<Bytes> := [];
    var queuedBytes := 0;
    assert source[..0] == [];
    for i := 0 to |source|
      invariant NoEmpty(queued) && queuedBytes == |Concat(queued)| < FRAME_LIMIT
      invariant Regrouped(chunks, queued, source[..i])
    {
      ghost var before := queued;
      if |source[i]| > 0 {
        queued := queued + [source[i]];
        queuedBytes := queuedBytes + |source[i]|;
      }
      Queueing(chunks, before, source, i);
      chunks, queued := Drain(chunks, queued, source[..i + 1]);
      queuedBytes := |Concat(queued)|;
    }
    assert source[..|source|] == source;
    Leftover(chunks, Concat(queued), Concat(source));
    if queuedBytes > 0 {
      chunks := chunks + [Concat(queued)];
    }
  }

  /** What has been yielded is full, and with what is queued it makes up the source so far. */
  ghost predicate Regrouped(chunks: seq<Bytes>, queued: seq<Bytes>, source: seq<Bytes>) {
    && (forall i | 0 <= i < |chunks| :: |chunks[i]| == FRAME_LIMIT)
    && Concat(chunks) + Concat(queued) == Concat(source)
  }

  lemma Queueing(chunks: seq<Bytes>, queued: seq<Bytes>, source: seq<Bytes>, i: nat)
    requires i < |source| && Regrouped(chunks, queued, source[..i])
    ensures Regrouped(chunks, if source[i] == [] then queued else queued + [source[i]], source[..i + 1])
    ensures |Concat(queued + [source[i]])| == |Concat(queued)| + |source[i]|
  {
    assert source[..i + 1] == source[..i] + [source[i]];
    ConcatSnoc(source[..i], source[i]);
    ConcatSnoc(queued, source[i]);
    Associative(Concat(chunks), Concat(queued), source[i]);
    if source[i] == [] { assert Concat(source[..i]) + [] == Concat(source[..i]); }
  }

  /** The inner loop: yield full chunks while the queue holds one. */
  method Drain(before: seq<Bytes>, queue: seq<Bytes>, ghost source: seq<Bytes>)
    returns (chunks: seq<Bytes>, queued: seq<Bytes>)
    requires NoEmpty(queue) && Regrouped(before, queue, source)
    ensures NoEmpty(queued) && Regrouped(chunks, queued, source) && |Concat(queued)| < FRAME_LIMIT
  {
    chunks, queued := before, queue;
    var queuedBytes := |Concat(queue)|;
    while queuedBytes >= FRAME_LIMIT
      invariant NoEmpty(queued) && queuedBytes == |Concat(queued)| && Regrouped(chunks, queued, source)
      decreases queuedBytes
    {
      var output, rest := TakeBytes(queued, FRAME_LIMIT);
      ConcatSnoc(chunks, output);
      Associative(Concat(chunks), output, Concat(rest));
      assert output + Concat(rest) == Concat(queued);
      chunks, queued := chunks + [output], rest;
      queuedBytes := queuedBytes - FRAME_LIMIT;
    }
  }

  lemma Leftover(chunks: seq<Bytes>, rest: Bytes, whole: Bytes)
    requires (forall i | 0 <= i < |chunks| :: |chunks[i]| == FRAME_LIMIT) && |rest| < FRAME_LIMIT
    requires Concat(chunks) + rest == whole
    ensures (if whole == [] then [] else Chunks(whole)) == if rest == [] then chunks else chunks + [rest]
  {
    if rest != [] {
      ConcatSnoc(chunks, rest);
      assert Framable(chunks + [rest]);
      ChunksOfConcat(chunks + [rest]);
    } else if chunks != [] {
      assert Concat(chunks) + [] == Concat(chunks);
      assert Framable(chunks);
      ChunksOfConcat(chunks);
      ConcatNonempty(chunks);
    }
  }

  // ----- The format -----

  function EncodeFrame(f: Frame): (b: Bytes)
    requires |f.ciphertext| >= TAG_LENGTH
    ensures |b| == FRAME_HEADER + |f.ciphertext|
  {
    Uint64(f.index) + [if f.final then 1 else 0] + Uint32(|f.ciphertext| - TAG_LENGTH) + f.ciphertext
  }

  function EncodeFrames(fs: seq<Frame>): Bytes
    requires Openable(fs)
  {
    if fs == [] then [] else EncodeFrame(fs[0]) + EncodeFrames(fs[1..])
  }

  /** What a writer and a reader agree on: cipher, key, header codec, and the object and epoch it is for. */
  datatype Context = Context(
    cipher: Cipher,
    key: Bytes,
    encodeHeader: Bytes -> Bytes,
    acceptHeader: Bytes -> Option<Bytes>,
    objectId: Slice,
    keyEpochId: Slice)

  /** A header is never empty, is accepted back to the nonce prefix it was made for, and nothing else is accepted. */
  ghost predicate HeaderLaw(c: Context) {
    && (forall p :: c.encodeHeader(p) != [])
    && (forall p | |p| == 16 :: c.acceptHeader(c.encodeHeader(p)) == Some(p))
    && (forall h | c.acceptHeader(h).Some? ::
          |c.acceptHeader(h).value| == 16 && c.encodeHeader(c.acceptHeader(h).value) == h)
  }

  /** What `writeArtifactEnvelope` checks before it writes anything. */
  predicate Writable(c: Context, noncePrefix: Bytes) {
    |c.key| == KEY_LENGTH && |noncePrefix| == 16 && |c.encodeHeader(noncePrefix)| <= MAX_HEADER
  }

  /** The AAD of a frame: an array of nine values. */
  function AadValue(c: Context, noncePrefix: Slice, index: Word, final: bool, n: Word): (v: Cbor.Value)
    ensures Cbor.Valid(v)
  {
    Cbor.Array([Cbor.UInt(1), Cbor.Text(c.objectId), Cbor.Text(c.keyEpochId), Cbor.Text(ALGORITHM),
                Cbor.UInt(FRAME_LIMIT), Cbor.ByteString(noncePrefix), Cbor.UInt(index),
                Cbor.UInt(if final then 1 else 0), Cbor.UInt(n)])
  }

  /** Sizes that no frame has are given no AAD. */
  function EnvelopeAad(c: Context, noncePrefix: Bytes, index: nat, final: bool, n: nat): Bytes {
    if |noncePrefix| < UINT64 && index < UINT64 && n < UINT64
    then Cbor.Encode(AadValue(c, noncePrefix, index, final, n)) else []
  }

  function SealerFor(c: Context, noncePrefix: Bytes): Sealer {
    Sealer(c.cipher, c.key,
           (index: nat) => noncePrefix + Uint64(index),
           (index: nat, final: bool, n: nat) => EnvelopeAad(c, noncePrefix, index, final, n))
  }

  /** The AAD determines object, epoch, nonce prefix, index, flag and length. */
  lemma EnvelopeAadInjective(c: Context, p: Slice, i: Word, f: bool, n: Word,
                             d: Context, q: Slice, j: Word, g: bool, m: Word)
    requires EnvelopeAad(c, p, i, f, n) == EnvelopeAad(d, q, j, g, m)
    ensures c.objectId == d.objectId && c.keyEpochId == d.keyEpochId && p == q && i == j && f == g && n == m
  {
    var v, w := AadValue(c, p, i, f, n), AadValue(d, q, j, g, m);
    Cbor.EncodeInjective(v, w);
    assert v.items[1] == w.items[1] && v.items[2] == w.items[2] && v.items[5] == w.items[5];
    assert v.items[6] == w.items[6] && v.items[7] == w.items[7] && v.items[8] == w.items[8];
  }

  /** No two frames of an envelope share a nonce. */
  lemma EnvelopeNoncesDistinct(c: Context, noncePrefix: Bytes, plaintext: Bytes)
    requires |noncePrefix| == 16 && FrameCount(|plaintext|) <= UINT64
    ensures var s := SealerFor(c, noncePrefix);
      CountsNonces(s, noncePrefix) && NoncesDistinct(s, SealPlaintext(s, Browser, plaintext))
  {
    var s := SealerFor(c, noncePrefix);
    forall i | 0 <= i < UINT64
      ensures |s.nonce(i)| == NONCE_LENGTH && s.nonce(i)[..16] == noncePrefix && BigEndianValue(s.nonce(i)[16..]) == i
    {
      NonceLayout(noncePrefix, i);
    }
    NoncesDistinctIff(s, Browser, noncePrefix, plaintext);
  }

  /** What is sealed into the `i`th frame: key, nonce, slice and authenticated fields. */
  lemma EnvelopeFrame(c: Context, noncePrefix: Slice, plaintext: Bytes, i: Word)
    requires i < FrameCount(|plaintext|)
    ensures var fs := SealPlaintext(SealerFor(c, noncePrefix), Browser, plaintext);
      && i * FRAME_LIMIT <= |plaintext| && |fs| == FrameCount(|plaintext|)
      && var final, slice := i == |fs| - 1, SliceAt(plaintext, i);
         && |slice| <= FRAME_LIMIT
         && fs[i] == Frame(i, final, c.cipher.seal(c.key, noncePrefix + Uint64(i), slice,
              Cbor.Encode(AadValue(c, noncePrefix, i, final, |slice|))))
  {
    SealedSlice(SealerFor(c, noncePrefix), Browser, plaintext, i);
  }

  function EnvelopeHead(c: Context, noncePrefix: Bytes): Bytes {
    MAGIC + Uint32(|c.encodeHeader(noncePrefix)|) + c.encodeHeader(noncePrefix)
  }

  ghost function EnvelopeBytes(c: Context, noncePrefix: Bytes, plaintext: Bytes): Bytes
    requires Lawful(c.cipher)
  {
    var s := SealerFor(c, noncePrefix);
    SealedOpenable(s, Chunks(plaintext), 0);
    EnvelopeHead(c, noncePrefix) + EncodeFrames(SealPlaintext(s, Browser, plaintext))
  }

  lemma SealedOpenable(s: Sealer, cs: seq<Bytes>, position: nat)
    requires Lawful(s.cipher)
    ensures Openable(SealChunks(s, Browser, cs, position))
  {
    SealedLengths(s, Browser, cs, position);
  }

  // ----- Writing -----

  datatype Summary = Summary(plaintextByteLength: nat, plaintextChecksum: Bytes,
                             envelopeByteLength: nat, envelopeChecksum: Bytes)

  /**
   `writeArtifactEnvelope`: regroup, look one chunk ahead to know the last, and seal. Whatever the
   chunking, the bytes written are those of the whole plaintext.
   */
  method WriteArtifactEnvelope(c: Context, hash: Hash, noncePrefix: Bytes, source: seq<Bytes>)
    returns (summary: Option<Summary>, written: Bytes)
    requires Lawful(c.cipher)
    ensures summary.Some? <==> Writable(c, noncePrefix) && |Concat(source)| <= MAX_SAFE_INTEGER
    ensures summary.Some? ==>
      && written == EnvelopeBytes(c, noncePrefix, Concat(source))
      && summary.value == Summary(|Concat(source)|, hash(Concat(source)), |written|, hash(written))
  {
    written := [];
    if |c.key| != KEY_LENGTH || |noncePrefix| != 16 {
      return None, written;
    }
    var header := c.encodeHeader(noncePrefix);
    if |header| > MAX_HEADER {
      return None, written;
    }
    written := MAGIC + Uint32(|header|) + header;
    var s := SealerFor(c, noncePrefix);
    var chunks := FixedChunks(source);
    if chunks == [] {
      chunks := [[]];
    }
    ghost var plaintext := Concat(source);
    assert chunks == Chunks(plaintext);
    ChunksJoin(plaintext);
    var ok, frames := WriteFrames(s, chunks);
    written := written + frames;
    if !ok {
      return None, written;
    }
    return Some(Summary(|Concat(chunks)|, hash(Concat(chunks)), |written|, hash(written))), written;
  }

  /** The frame loop of the writer; it stops when the byte count leaves the safe integers. */
  method WriteFrames(s: Sealer, chunks: seq<Bytes>) returns (ok: bool, written: Bytes)
    requires Lawful(s.cipher) && Framable(chunks)
    ensures ok <==> |Concat(chunks)| <= MAX_SAFE_INTEGER
    ensures ok ==>
      Openable(SealChunks(s, Browser, chunks, 0)) && written == EncodeFrames(SealChunks(s, Browser, chunks, 0))
  {
    written := [];
    SealedOpenable(s, chunks, 0);
    var length, index := 0, 0;
    ghost var fs: seq<Frame> := [];
    assert chunks[..0] == [] && chunks[0..] == chunks;
    assert [] + SealChunks(s, Browser, chunks, 0) == SealChunks(s, Browser, chunks, 0);
    while index < |chunks|
      invariant 0 <= index <= |chunks| && length == |Concat(chunks[..index])| <= MAX_SAFE_INTEGER
      invariant index < |chunks| ==> index <= length
      invariant |fs| == index && Openable(fs) && written == EncodeFrames(fs)
      invariant SealChunks(s, Browser, chunks, 0) == fs + SealChunks(s, Browser, chunks[index..], index)
    {
      var final := index + 1 == |chunks|;
      var chunk := chunks[index];
      PieceAdds(chunks, index);
      length := length + |chunk|;
      if length > MAX_SAFE_INTEGER {
        return false, written;
      }
      assert index <= MAX_SAFE_INTEGER; // so the bound the AAD puts on the index never refuses
      var f := SealFrame(s, index, final, chunk);
      WriteOn(s, chunks, index, fs);
      written := written + EncodeFrame(f);
      fs := fs + [f];
      index := index + 1;
    }
    assert chunks[..index] == chunks && chunks[index..] == [] && fs + [] == fs;
    return true, written;
  }

  /** One turn of the loop: the next frame moves from what is to be sealed to what is written. */
  lemma WriteOn(s: Sealer, chunks: seq<Bytes>, index: nat, fs: seq<Frame>)
    requires Lawful(s.cipher) && index < |chunks| && |fs| == index && Openable(fs)
    requires SealChunks(s, Browser, chunks, 0) == fs + SealChunks(s, Browser, chunks[index..], index)
    ensures var f := SealFrame(s, index, index + 1 == |chunks|, chunks[index]);
      && |f.ciphertext| >= TAG_LENGTH && Openable(fs + [f])
      && EncodeFrames(fs + [f]) == EncodeFrames(fs) + EncodeFrame(f)
      && SealChunks(s, Browser, chunks, 0) == (fs + [f]) + SealChunks(s, Browser, chunks[index + 1..], index + 1)
  {
    var f := SealFrame(s, index, index + 1 == |chunks|, chunks[index]);
    SealedFrameLength(s, index, index + 1 == |chunks|, chunks[index]);
    EncodeFramesSnoc(fs, f);
    var rest := SealChunks(s, Browser, chunks[index + 1..], index + 1);
    assert chunks[index..][1..] == chunks[index + 1..];
    assert SealChunks(s, Browser, chunks[index..], index) == [f] + rest;
    Associative(fs, [f], rest);
  }

  lemma PieceAdds(chunks: seq<Bytes>, i: nat)
    requires i < |chunks|
    ensures Concat(chunks[..i + 1]) == Concat(chunks[..i]) + chunks[i]
    ensures |Concat(chunks[..i + 1])| <= |Concat(chunks)|
  {
    assert chunks[..i + 1] == chunks[..i] + [chunks[i]];
    ConcatSnoc(chunks[..i], chunks[i]);
    ConcatAppend(chunks[..i + 1], chunks[i + 1..]);
    assert chunks == chunks[..i + 1] + chunks[i + 1..];
  }

  lemma {:induction false} EncodeFramesSnoc(fs: seq<Frame>, f: Frame)
    requires Openable(fs) && |f.ciphertext| >= TAG_LENGTH
    ensures Openable(fs + [f]) && EncodeFrames(fs + [f]) == EncodeFrames(fs) + EncodeFrame(f)
  {
    if fs == [] {
      assert [] + [f] == [f] && [f][1..] == [] && EncodeFrame(f) + [] == EncodeFrame(f);
    } else {
      EncodeFramesSnoc(fs[1..], f);
      assert (fs + [f])[1..] == fs[1..] + [f] && (fs + [f])[0] == fs[0];
      Associative(EncodeFrame(fs[0]), EncodeFrames(fs[1..]), EncodeFrame(f));
    }
  }

  // ----- The exact reader -----

  /** `AsyncByteReader`: pieces not yet pulled, a queue, and what has been read and hashed so far. */
  class ByteReader {
    var source: seq<Bytes>
    var queue: seq<Bytes>
    var queuedBytes: nat
    var ended: bool
    var fed: Bytes
    var byteLength: nat

    ghost predicate Valid()
      reads this
    {
      NoEmpty(queue) && queuedBytes == |Concat(queue)| && byteLength == |fed| && (ended ==> source == [])
    }

    /** The bytes still to come, queued or not. */
    ghost function Remaining(): Bytes
      reads this
    {
      Concat(queue) + Concat(source)
    }

    constructor (source: seq<Bytes>)
      ensures Valid() && Remaining() == Concat(source) && fed == []
    {
      this.source := source;
      queue, queuedBytes, ended := [], 0, false;
      fed, byteLength := [], 0;
      new;
      assert [] + Concat(source) == Concat(source);
    }

    /** Pull pieces until the queue holds `length` bytes or the source ends. */
    method Fill(length: nat)
      requires Valid()
      modifies this`source, this`queue, this`queuedBytes, this`ended
      ensures Valid() && Remaining() == old(Remaining())
      ensures queuedBytes < length ==> ended
    {
      while queuedBytes < length && !ended
        invariant Valid() && Remaining() == old(Remaining())
        decreases |source|, !ended
      {
        if source == [] {
          ended := true;
        } else {
          var next := source[0];
          Pull(queue, source);
          source := source[1..];
          if |next| > 0 {
            queue := queue + [next];
            queuedBytes := queuedBytes + |next|;
          }
        }
      }
    }

    /** Exactly `length` bytes, or nothing when fewer are left. */
    method Exact(length: nat) returns (bytes: Option<Bytes>)
      requires Valid()
      modifies this
      ensures Valid()
      ensures bytes.Some? <==> |old(Remaining())| >= length
      ensures bytes.Some? ==>
        && bytes.value == old(Remaining())[..length] && Remaining() == old(Remaining())[length..]
        && fed == old(fed) + bytes.value
    {
      Fill(length);
      ghost var all := Remaining();
      if queuedBytes < length {
        assert Concat(source) == [];
        return None;
      }
      var output, rest := TakeBytes(queue, length);
      SplitQueue(Concat(queue), Concat(source), length);
      queue := rest;
      queuedBytes := queuedBytes - length;
      fed := fed + output;
      byteLength := byteLength + |output|;
      return Some(output);
    }

    method AtEnd() returns (end: bool)
      requires Valid()
      modifies this`source, this`queue, this`queuedBytes, this`ended
      ensures Valid() && Remaining() == old(Remaining()) && (end <==> Remaining() == [])
    {
      Fill(1);
      end := ended && queuedBytes == 0;
    }
  }

  lemma Pull(queue: seq<Bytes>, source: seq<Bytes>)
    requires source != []
    ensures Concat(if source[0] == [] then queue else queue + [source[0]]) + Concat(source[1..])
      == Concat(queue) + Concat(source)
    ensures |Concat(queue + [source[0]])| == |Concat(queue)| + |source[0]|
  {
    ConcatSnoc(queue, source[0]);
    Associative(Concat(queue), source[0], Concat(source[1..]));
    if source[0] == [] { assert [] + Concat(source[1..]) == Concat(source[1..]); }
  }

  lemma SplitQueue(queued: Bytes, rest: Bytes, length: nat)
    requires length <= |queued|
    ensures (queued + rest)[..length] == queued[..length]
    ensures (queued + rest)[length..] == queued[length..] + rest
  {}

  // ----- What a whole envelope opens to -----

  /** The header of the frame at the head of `body`, at `position`: its flag and plaintext length. */
  function FrameHeader(body: Bytes, position: nat): Option<(bool, nat)>
    requires |body| >= FRAME_HEADER
  {
    var index, flag, length := BigEndianValue(body[..8]), body[8], BigEndianValue(body[9..13]);
    if index != position || flag > 1 || length > FRAME_LIMIT || (flag == 0 && length != FRAME_LIMIT)
      || index > MAX_SAFE_INTEGER
    then None else Some((flag == 1, length))
  }

  /** Where a frame of `length` plaintext bytes ends. */
  function FrameEnd(length: nat): nat {
    FRAME_HEADER + length + TAG_LENGTH
  }

  /** The frame at the head of `body`, opened: its flag and plaintext, when `total` bytes came before it. */
  function FrameAt(s: Sealer, body: Bytes, position: nat, total: nat): (frame: Option<(bool, Bytes)>)
    ensures frame.Some? ==> FrameEnd(|frame.value.1|) <= |body|
  {
    if |body| < FRAME_HEADER || FrameHeader(body, position).None? then None
    else
      var (final, length) := FrameHeader(body, position).value;
      if |body| - FRAME_HEADER < length + TAG_LENGTH then None
      else
        var chunk := OpenFrame(s, Frame(position, final, body[FRAME_HEADER..FrameEnd(length)]));
        if chunk.None? || |chunk.value| != length || total + length > MAX_SAFE_INTEGER then None
        else Some((final, chunk.value))
  }

  /** The plaintext of the frames in `body`, when `total` bytes came before them. */
  ghost function ReadFrames(s: Sealer, body: Bytes, position: nat, total: nat): Option<Bytes>
    decreases |body|
  {
    var frame := FrameAt(s, body, position, total);
    if frame.None? then None
    else
      var (final, chunk) := frame.value;
      var rest := body[FrameEnd(|chunk|)..];
      if final then if rest == [] then Some(chunk) else None
      else After(chunk, ReadFrames(s, rest, position + 1, total + |chunk|))
  }

  ghost function ReadEnvelope(c: Context, envelope: Bytes): Option<Bytes> {
    if |c.key| != KEY_LENGTH || |envelope| < 12 || envelope[..8] != MAGIC then None
    else
      var length := BigEndianValue(envelope[8..12]);
      if length == 0 || length > MAX_HEADER || |envelope| < 12 + length then None
      else
        var noncePrefix := c.acceptHeader(envelope[12..12 + length]);
        if noncePrefix.None? then None
        else ReadFrames(SealerFor(c, noncePrefix.value), envelope[12 + length..], 0, 0)
  }

  // ----- Reading -----

  /** One frame: header, checks, ciphertext, decryption. `body` is what the reader still holds. */
  method ReadFrame(s: Sealer, reader: ByteReader, position: nat, total: nat, ghost body: Bytes)
    returns (frame: Option<(bool, Bytes)>)
    requires reader.Valid() && reader.Remaining() == body
    modifies reader
    ensures reader.Valid() && frame == FrameAt(s, body, position, total)
    ensures frame.Some? ==> reader.Remaining() == body[FrameEnd(|frame.value.1|)..]
    ensures frame.Some? ==> reader.fed + reader.Remaining() == old(reader.fed) + body
  {
    var head := reader.Exact(FRAME_HEADER);
    if head.None? {
      return None;
    }
    HeaderFromHead(body, position);
    var header := FrameHeader(head.value, position);
    if header.None? {
      return None;
    }
    var (final, length) := header.value;
    var ciphertext := reader.Exact(length + TAG_LENGTH);
    if ciphertext.None? {
      return None;
    }
    TwoReads(body, FRAME_HEADER, length + TAG_LENGTH);
    Fed(old(reader.fed), body, FRAME_HEADER, length + TAG_LENGTH);
    var chunk := OpenFrame(s, Frame(position, final, ciphertext.value));
    if chunk.None? || |chunk.value| != length || total + length > MAX_SAFE_INTEGER {
      return None;
    }
    frame := Some((final, chunk.value));
  }

  lemma HeaderFromHead(body: Bytes, position: nat)
    requires |body| >= FRAME_HEADER
    ensures FrameHeader(body[..FRAME_HEADER], position) == FrameHeader(body, position)
  {
    var head := body[..FRAME_HEADER];
    assert head[..8] == body[..8] && head[9..13] == body[9..13];
  }

  lemma Fed(fed: Bytes, body: Bytes, first: nat, second: nat)
    requires first + second <= |body|
    ensures fed + body[..first] + body[first..first + second] + body[first + second..] == fed + body
  {}

  lemma TwoReads(body: Bytes, first: nat, second: nat)
    requires first + second <= |body|
    ensures body[first..][..second] == body[first..first + second]
    ensures body[first..][second..] == body[first + second..]
    ensures body[..first] + body[first..first + second] + body[first + second..] == body
  {}

  /** One turn of the loop below: the chunk just read moves from what is left to what is written. */
  lemma FrameMoves(s: Sealer, written: Bytes, rest: Bytes, position: nat)
    requires FrameAt(s, rest, position, |written|).Some?
    ensures var (final, chunk) := FrameAt(s, rest, position, |written|).value;
      var after := rest[FrameEnd(|chunk|)..];
      After(written, ReadFrames(s, rest, position, |written|)) ==
        if final then if after == [] then Some(written + chunk) else None
        else After(written + chunk, ReadFrames(s, after, position + 1, |written + chunk|))
  {
    var (final, chunk) := FrameAt(s, rest, position, |written|).value;
    AfterTwice(written, chunk, ReadFrames(s, rest[FrameEnd(|chunk|)..], position + 1, |written| + |chunk|));
  }

  /** The frame loop of the reader, to the end of the envelope. */
  method ReadAllFrames(s: Sealer, reader: ByteReader, ghost body: Bytes) returns (plaintext: Option<Bytes>)
    requires reader.Valid() && reader.Remaining() == body
    modifies reader
    ensures plaintext == ReadFrames(s, body, 0, 0)
    ensures reader.Valid()
    ensures plaintext.Some? ==> reader.fed == old(reader.fed) + body
  {
    var written: Bytes, position, final := [], 0, false;
    ghost var rest := body;
    ghost var whole := ReadFrames(s, body, 0, 0);
    if whole.Some? { assert [] + whole.value == whole.value; }
    while !final
      invariant reader.Valid() && reader.Remaining() == rest && reader.fed + rest == old(reader.fed) + body
      invariant !final ==> whole == After(written, ReadFrames(s, rest, position, |written|))
      invariant final ==> whole == if rest == [] then Some(written) else None
      decreases !final, |rest|
    {
      var frame := ReadFrame(s, reader, position, |written|, rest);
      if frame.None? {
        return None;
      }
      var chunk := frame.value.1;
      FrameMoves(s, written, rest, position);
      written := written + chunk;
      final := frame.value.0;
      position := position + 1;
      rest := rest[FrameEnd(|chunk|)..];
    }
    var end := reader.AtEnd();
    if !end {
      return None;
    }
    assert reader.fed + [] == reader.fed;
    return Some(written);
  }

  lemma HeadRead(envelope: Bytes, length: nat)
    requires 12 + length <= |envelope|
    ensures [] + envelope[..8] + envelope[8..12] + envelope[12..12 + length] + envelope[12 + length..] == envelope
  {
    assert [] + envelope[..8] + envelope[8..12] == envelope[..12];
    assert envelope[..12] + envelope[12..12 + length] == envelope[..12 + length];
  }

  /** `readArtifactEnvelope`: whatever the chunking, the result is a function of the whole envelope. */
  method ReadArtifactEnvelope(c: Context, hash: Hash, encrypted: seq<Bytes>)
    returns (summary: Option<Summary>, plaintext: Bytes)
    ensures ReadEnvelope(c, Concat(encrypted)) == if summary.Some? then Some(plaintext) else None
    ensures summary.Some? ==>
      summary.value == Summary(|plaintext|, hash(plaintext), |Concat(encrypted)|, hash(Concat(encrypted)))
  {
    plaintext := [];
    ghost var envelope := Concat(encrypted);
    if |c.key| != KEY_LENGTH {
      return None, plaintext;
    }
    var reader := new ByteReader(encrypted);
    var magic := reader.Exact(8);
    if magic.None? || magic.value != MAGIC {
      return None, plaintext;
    }
    var lengthBytes := reader.Exact(4);
    if lengthBytes.None? {
      return None, plaintext;
    }
    TwoReads(envelope, 8, 4);
    var length := BigEndianValue(lengthBytes.value);
    if length == 0 || length > MAX_HEADER {
      return None, plaintext;
    }
    var header := reader.Exact(length);
    if header.None? {
      return None, plaintext;
    }
    TwoReads(envelope, 12, length);
    var noncePrefix := c.acceptHeader(header.value);
    if noncePrefix.None? {
      return None, plaintext;
    }
    ghost var body := envelope[12 + length..];
    HeadRead(envelope, length);
    var read := ReadAllFrames(SealerFor(c, noncePrefix.value), reader, body);
    if read.None? {
      return None, plaintext;
    }
    plaintext := read.value;
    summary := Some(Summary(|plaintext|, hash(plaintext), reader.byteLength, hash(reader.fed)));
  }

  // ----- Reading undoes writing -----

  lemma FrameLayout(f: Frame, rest: Bytes)
    requires TAG_LENGTH <= |f.ciphertext| < UINT32 && f.index < UINT64
    ensures var b := EncodeFrame(f) + rest; var end := FRAME_HEADER + |f.ciphertext|;
      && BigEndianValue(b[..8]) == f.index && b[8] == (if f.final then 1 else 0)
      && BigEndianValue(b[9..13]) == |f.ciphertext| - TAG_LENGTH
      && b[FRAME_HEADER..end] == f.ciphertext && b[end..] == rest
  {
    var b := EncodeFrame(f) + rest;
    assert b[..8] == Uint64(f.index) && b[9..13] == Uint32(|f.ciphertext| - TAG_LENGTH);
    Uint64RoundTrip(f.index);
    Uint32RoundTrip(|f.ciphertext| - TAG_LENGTH);
  }

  lemma ReadSealedFrame(s: Sealer, position: nat, final: bool, chunk: Bytes, rest: Bytes, total: nat)
    requires Lawful(s.cipher) && |chunk| <= FRAME_LIMIT && (final || |chunk| == FRAME_LIMIT)
    requires position <= total && total + |chunk| <= MAX_SAFE_INTEGER
    requires |SealFrame(s, position, final, chunk).ciphertext| == |chunk| + TAG_LENGTH
    ensures var body := EncodeFrame(SealFrame(s, position, final, chunk)) + rest;
      && FrameAt(s, body, position, total) == Some((final, chunk))
      && body[FrameEnd(|chunk|)..] == rest
  {
    var f := SealFrame(s, position, final, chunk);
    OpenSealedFrame(s, position, final, chunk);
    FrameLayout(f, rest);
    assert FrameHeader(EncodeFrame(f) + rest, position) == Some((final, |chunk|));
  }

  /** A sealed frame in front of a body that reads. */
  lemma ReadOneMore(s: Sealer, position: nat, chunk: Bytes, rest: Bytes, total: nat, more: Bytes, whole: Bytes)
    requires Lawful(s.cipher) && |chunk| == FRAME_LIMIT && position <= total && total + |chunk| <= MAX_SAFE_INTEGER
    requires |SealFrame(s, position, false, chunk).ciphertext| == |chunk| + TAG_LENGTH
    requires ReadFrames(s, rest, position + 1, total + |chunk|) == Some(more) && whole == chunk + more
    ensures ReadFrames(s, EncodeFrame(SealFrame(s, position, false, chunk)) + rest, position, total) == Some(whole)
  {
    ReadSealedFrame(s, position, false, chunk, rest, total);
  }

  lemma ReadLast(s: Sealer, position: nat, chunk: Bytes, total: nat)
    requires Lawful(s.cipher) && |chunk| <= FRAME_LIMIT && position <= total && total + |chunk| <= MAX_SAFE_INTEGER
    requires |SealFrame(s, position, true, chunk).ciphertext| == |chunk| + TAG_LENGTH
    ensures ReadFrames(s, EncodeFrame(SealFrame(s, position, true, chunk)) + [], position, total) == Some(chunk)
  {
    ReadSealedFrame(s, position, true, chunk, [], total);
  }

  lemma EncodeSealed(s: Sealer, cs: seq<Bytes>, position: nat)
    requires Lawful(s.cipher) && cs != [] && Openable(SealChunks(s, Browser, cs, position))
    ensures var f := SealFrame(s, position, |cs| == 1, cs[0]);
      && |f.ciphertext| == |cs[0]| + TAG_LENGTH && Openable(SealChunks(s, Browser, cs[1..], position + 1))
      && EncodeFrames(SealChunks(s, Browser, cs, position))
         == EncodeFrame(f) + EncodeFrames(SealChunks(s, Browser, cs[1..], position + 1))
      && (|cs| == 1 ==> EncodeFrames(SealChunks(s, Browser, cs, position)) == EncodeFrame(f) + [])
  {
    var fs := SealChunks(s, Browser, cs, position);
    assert fs[1..] == SealChunks(s, Browser, cs[1..], position + 1);
    SealedFrameLength(s, position, |cs| == 1, cs[0]);
  }

  lemma {:induction false} ReadWrittenFrames(s: Sealer, cs: seq<Bytes>, position: nat, total: nat, body: Bytes)
    requires Lawful(s.cipher) && Framable(cs) && Openable(SealChunks(s, Browser, cs, position))
    requires body == EncodeFrames(SealChunks(s, Browser, cs, position))
    requires position <= total && total + |Concat(cs)| <= MAX_SAFE_INTEGER
    ensures ReadFrames(s, body, position, total) == Some(Concat(cs))
    decreases |cs|
  {
    var first, tail := cs[0], cs[1..];
    FramableHead(cs);
    EncodeSealed(s, cs, position);
    if |cs| == 1 {
      ReadLast(s, position, first, total);
    } else {
      var rest := EncodeFrames(SealChunks(s, Browser, tail, position + 1));
      ReadWrittenFrames(s, tail, position + 1, total + |first|, rest);
      ReadOneMore(s, position, first, rest, total, Concat(tail), Concat(cs));
    }
  }

  lemma FramableHead(cs: seq<Bytes>)
    requires Framable(cs)
    ensures |cs[0]| <= FRAME_LIMIT && Concat(cs) == cs[0] + Concat(cs[1..])
    ensures |cs| == 1 ==> Concat(cs) == cs[0]
    ensures |cs| > 1 ==> |cs[0]| == FRAME_LIMIT && Framable(cs[1..])
  {}

  lemma HeadBytes(header: Bytes, body: Bytes)
    requires |header| < UINT32
    ensures var b := MAGIC + Uint32(|header|) + header + body;
      && b[..8] == MAGIC && BigEndianValue(b[8..12]) == |header|
      && b[12..12 + |header|] == header && b[12 + |header|..] == body
  {
    var b := MAGIC + Uint32(|header|) + header + body;
    assert b[8..12] == Uint32(|header|);
    Uint32RoundTrip(|header|);
  }

  lemma EnvelopeLayout(c: Context, noncePrefix: Bytes, body: Bytes)
    requires HeaderLaw(c) && Writable(c, noncePrefix)
    ensures var b := EnvelopeHead(c, noncePrefix) + body; var n := |c.encodeHeader(noncePrefix)|;
      && 0 < n <= MAX_HEADER && |b| >= 12 + n
      && b[..8] == MAGIC && BigEndianValue(b[8..12]) == n
      && b[12..12 + n] == c.encodeHeader(noncePrefix) && b[12 + n..] == body
  {
    assert c.encodeHeader(noncePrefix) != [];
    HeadBytes(c.encodeHeader(noncePrefix), body);
  }

  lemma ReadUndoesWrite(c: Context, noncePrefix: Bytes, plaintext: Bytes)
    requires Lawful(c.cipher) && HeaderLaw(c) && Writable(c, noncePrefix) && |plaintext| <= MAX_SAFE_INTEGER
    ensures ReadEnvelope(c, EnvelopeBytes(c, noncePrefix, plaintext)) == Some(plaintext)
  {
    var s := SealerFor(c, noncePrefix);
    SealedOpenable(s, Chunks(plaintext), 0);
    ChunksJoin(plaintext);
    var body := EncodeFrames(SealPlaintext(s, Browser, plaintext));
    ReadWrittenFrames(s, Chunks(plaintext), 0, 0, body);
    EnvelopeLayout(c, noncePrefix, body);
    assert c.acceptHeader(c.encodeHeader(noncePrefix)) == Some(noncePrefix);
  }

  /**
   Double chunking independence: cut the plaintext one way and the envelope another; reading back
   gives the plaintext, and both sides report the same lengths and hash inputs.
   */
  method WriteThenRead(c: Context, hash: Hash, noncePrefix: Bytes, source: seq<Bytes>, cuts: seq<Bytes>)
    returns (wrote: Option<Summary>, read: Option<Summary>, plaintext: Bytes)
    requires Lawful(c.cipher) && HeaderLaw(c) && Concat(cuts) == EnvelopeBytes(c, noncePrefix, Concat(source))
    ensures wrote.Some? <==> Writable(c, noncePrefix) && |Concat(source)| <= MAX_SAFE_INTEGER
    ensures wrote.Some? ==> read == wrote && plaintext == Concat(source)
  {
    var written;
    wrote, written := WriteArtifactEnvelope(c, hash, noncePrefix, source);
    if wrote.Some? { ReadUndoesWrite(c, noncePrefix, Concat(source)); }
    read, plaintext := ReadArtifactEnvelope(c, hash, cuts);
  }

  // ----- The reader accepts nothing but envelopes -----

  /** A frame that reads is the encoding of its plaintext's sealing, followed by the rest. */
  lemma FrameAtIsSealed(s: Sealer, body: Bytes, position: nat, total: nat)
    requires Exact(s.cipher) && FrameAt(s, body, position, total).Some?
    ensures var (final, chunk) := FrameAt(s, body, position, total).value;
      var f := SealFrame(s, position, final, chunk);
      && |f.ciphertext| == |chunk| + TAG_LENGTH && |chunk| <= FRAME_LIMIT && (final || |chunk| == FRAME_LIMIT)
      && total + |chunk| <= MAX_SAFE_INTEGER
      && body == EncodeFrame(f) + body[FrameEnd(|chunk|)..]
  {
    var (final, chunk) := FrameAt(s, body, position, total).value;
    var end := FrameEnd(|chunk|);
    var f := Frame(position, final, body[FRAME_HEADER..end]);
    OpenedFrameReseals(s, f);
    Uint64Value(body[..8]);
    Uint32Value(body[9..13]);
    assert body[8] == if final then 1 else 0;
    HeaderParts(body, end);
  }

  lemma HeaderParts(body: Bytes, end: nat)
    requires FRAME_HEADER <= end <= |body|
    ensures body == body[..8] + [body[8]] + body[9..13] + body[13..end] + body[end..]
  {}

  /** The plaintexts of the frames of a body that reads. */
  ghost function ReadChunks(s: Sealer, body: Bytes, position: nat, total: nat): seq<Bytes>
    decreases |body|
  {
    var frame := FrameAt(s, body, position, total);
    if frame.None? then []
    else
      var (final, chunk) := frame.value;
      if final then [chunk] else [chunk] + ReadChunks(s, body[FrameEnd(|chunk|)..], position + 1, total + |chunk|)
  }

  lemma {:induction false} ChunksRead(s: Sealer, body: Bytes, position: nat, total: nat)
    requires Exact(s.cipher) && ReadFrames(s, body, position, total).Some?
    ensures var cs := ReadChunks(s, body, position, total);
      && Framable(cs) && ReadFrames(s, body, position, total) == Some(Concat(cs))
      && total + |Concat(cs)| <= MAX_SAFE_INTEGER
    decreases |body|
  {
    var (final, chunk) := FrameAt(s, body, position, total).value;
    FrameAtIsSealed(s, body, position, total);
    if final {
      assert [chunk] + [] == [chunk];
      FramableInFront(chunk, []);
    } else {
      var rest := body[FrameEnd(|chunk|)..];
      ChunksRead(s, rest, position + 1, total + |chunk|);
      FramableInFront(chunk, ReadChunks(s, rest, position + 1, total + |chunk|));
    }
  }

  lemma {:induction false} ChunksSealed(s: Sealer, body: Bytes, position: nat, total: nat, cs: seq<Bytes>)
    requires Exact(s.cipher) && ReadFrames(s, body, position, total).Some? && cs == ReadChunks(s, body, position, total)
    ensures Openable(SealChunks(s, Browser, cs, position)) && body == EncodeFrames(SealChunks(s, Browser, cs, position))
    decreases |body|
  {
    var (final, chunk) := FrameAt(s, body, position, total).value;
    var rest := body[FrameEnd(|chunk|)..];
    FrameAtIsSealed(s, body, position, total);
    if final {
      assert [chunk] + [] == [chunk];
      SealedInFront(s, chunk, [], position, body, rest);
    } else {
      var more := ReadChunks(s, rest, position + 1, total + |chunk|);
      ChunksSealed(s, rest, position + 1, total + |chunk|, more);
      ChunksRead(s, rest, position + 1, total + |chunk|);
      SealedInFront(s, chunk, more, position, body, rest);
    }
  }

  lemma SealedInFront(s: Sealer, chunk: Bytes, more: seq<Bytes>, position: nat, body: Bytes, rest: Bytes)
    requires Lawful(s.cipher) && |SealFrame(s, position, more == [], chunk).ciphertext| >= TAG_LENGTH
    requires body == EncodeFrame(SealFrame(s, position, more == [], chunk)) + rest
    requires Openable(SealChunks(s, Browser, more, position + 1))
    requires rest == EncodeFrames(SealChunks(s, Browser, more, position + 1))
    ensures var cs := [chunk] + more;
      Openable(SealChunks(s, Browser, cs, position)) && body == EncodeFrames(SealChunks(s, Browser, cs, position))
  {
    var cs := [chunk] + more;
    assert cs[1..] == more && cs[0] == chunk;
    SealedOpenable(s, cs, position);
    EncodeSealed(s, cs, position);
  }

  lemma FramableInFront(chunk: Bytes, more: seq<Bytes>)
    requires if more == [] then |chunk| <= FRAME_LIMIT else |chunk| == FRAME_LIMIT && Framable(more)
    ensures Framable([chunk] + more) && Concat([chunk] + more) == chunk + Concat(more)
    ensures more == [] ==> Concat([chunk] + more) == chunk
  {
    assert ([chunk] + more)[1..] == more;
  }

  /** `envelope` is the head for this nonce prefix and the frames of these chunks. */
  ghost predicate EnvelopeOf(c: Context, envelope: Bytes, noncePrefix: Bytes, cs: seq<Bytes>) {
    && Writable(c, noncePrefix) && Framable(cs) && |Concat(cs)| <= MAX_SAFE_INTEGER
    && var fs := SealChunks(SealerFor(c, noncePrefix), Browser, cs, 0);
       Openable(fs) && envelope == EnvelopeHead(c, noncePrefix) + EncodeFrames(fs)
  }

  /** An envelope reads as a plaintext exactly when it is an envelope of it, in some nonce prefix and cut. */
  lemma ReadsIffEnvelope(c: Context, envelope: Bytes, plaintext: Bytes)
    requires Exact(c.cipher) && HeaderLaw(c)
    ensures ReadEnvelope(c, envelope) == Some(plaintext) <==>
      exists noncePrefix, cs :: EnvelopeOf(c, envelope, noncePrefix, cs) && Concat(cs) == plaintext
  {
    if ReadEnvelope(c, envelope) == Some(plaintext) {
      var noncePrefix, cs := ReadIsEnvelope(c, envelope);
      assert EnvelopeOf(c, envelope, noncePrefix, cs) && Concat(cs) == plaintext;
    }
    if noncePrefix, cs :| EnvelopeOf(c, envelope, noncePrefix, cs) && Concat(cs) == plaintext {
      EnvelopeReads(c, envelope, noncePrefix, cs);
    }
  }

  lemma ReadIsEnvelope(c: Context, envelope: Bytes) returns (noncePrefix: Bytes, cs: seq<Bytes>)
    requires Exact(c.cipher) && HeaderLaw(c) && ReadEnvelope(c, envelope).Some?
    ensures EnvelopeOf(c, envelope, noncePrefix, cs) && ReadEnvelope(c, envelope) == Some(Concat(cs))
  {
    var length := BigEndianValue(envelope[8..12]);
    var header, body := envelope[12..12 + length], envelope[12 + length..];
    noncePrefix := c.acceptHeader(header).value;
    cs := ReadChunks(SealerFor(c, noncePrefix), body, 0, 0);
    ChunksRead(SealerFor(c, noncePrefix), body, 0, 0);
    ChunksSealed(SealerFor(c, noncePrefix), body, 0, 0, cs);
    HeadOf(c, envelope, length, noncePrefix);
  }

  lemma HeadOf(c: Context, envelope: Bytes, length: nat, noncePrefix: Bytes)
    requires 12 + length <= |envelope| && envelope[..8] == MAGIC && BigEndianValue(envelope[8..12]) == length
    requires c.encodeHeader(noncePrefix) == envelope[12..12 + length]
    ensures envelope == EnvelopeHead(c, noncePrefix) + envelope[12 + length..]
  {
    Uint32Value(envelope[8..12]);
    HeadRead(envelope, length);
    assert [] + MAGIC == MAGIC;
  }

  lemma EnvelopeReads(c: Context, envelope: Bytes, noncePrefix: Bytes, cs: seq<Bytes>)
    requires Lawful(c.cipher) && HeaderLaw(c) && EnvelopeOf(c, envelope, noncePrefix, cs)
    ensures ReadEnvelope(c, envelope) == Some(Concat(cs))
  {
    var s := SealerFor(c, noncePrefix);
    var body := EncodeFrames(SealChunks(s, Browser, cs, 0));
    ReadWrittenFrames(s, cs, 0, 0, body);
    EnvelopeLayout(c, noncePrefix, body);
  }

  // ----- A header codec that meets the law -----

  function PlainHeader(noncePrefix: Bytes): Bytes {
    if |noncePrefix| == 16 then noncePrefix else [0]
  }

  function PlainAccept(header: Bytes): Option<Bytes> {
    if |header| == 16 then Some(header) else None
  }

  lemma PlainHeaderLaw(cipher: Cipher, key: Bytes, objectId: Slice, keyEpochId: Slice)
    ensures HeaderLaw(Context(cipher, key, PlainHeader, PlainAccept, objectId, keyEpochId))
  {}
}
