/**
 Streamable payloads: a plaintext cut into frames, each sealed on its own and
 preceded by its index, a final flag and its ciphertext length. Both runtimes use
 this layout; they differ only in what happens to the index after 2^32 frames.
 */
module Frames {
  import opened ByteStrings
  import opened Ciphers

  const FRAME_LIMIT: nat := 1_048_576
  const PREFIX_LENGTH: nat := 9
  const FULL_CIPHERTEXT: nat := FRAME_LIMIT + TAG_LENGTH

  datatype Frame = Frame(index: nat, final: bool, ciphertext: Bytes)

  /** Go counts frames in a `uint32`, which wraps; JavaScript counts in a number, which does not. */
  datatype Dialect = Go | Browser

  function NextIndex(d: Dialect, index: nat): nat {
    if d.Go? && index + 1 == UINT32 then 0 else index + 1
  }

  /** The index of the frame at a position, counted up from zero. */
  function IndexOf(d: Dialect, position: nat): (index: nat)
    ensures d.Go? ==> index < UINT32
    ensures d.Browser? || position < UINT32 ==> index == position
  {
    if position == 0 then 0 else NextIndex(d, IndexOf(d, position - 1))
  }

  /** In Go's dialect the count is the position modulo 2^32. */
  lemma {:induction false} GoIndexWraps(position: nat)
    ensures IndexOf(Go, position) == position % UINT32
  {
    if position > 0 {
      GoIndexWraps(position - 1);
      var q, r := (position - 1) / UINT32, (position - 1) % UINT32;
      assert position == UINT32 * q + (r + 1);
      assert r + 1 == UINT32 ==> position == UINT32 * (q + 1);
    }
  }

  // ----- The layout -----

  function EncodeFrame(f: Frame): (b: Bytes)
    ensures |b| == PREFIX_LENGTH + |f.ciphertext|
  {
    Uint32(f.index) + [if f.final then 1 else 0] + Uint32(|f.ciphertext|) + f.ciphertext
  }

  function EncodeFrames(fs: seq<Frame>): Bytes {
    if fs == [] then [] else EncodeFrame(fs[0]) + EncodeFrames(fs[1..])
  }

  predicate LengthOk(final: bool, ciphertextLength: nat) {
    (if final then TAG_LENGTH else FULL_CIPHERTEXT) <= ciphertextLength <= FULL_CIPHERTEXT
  }

  /** Full non-final frames followed by one final frame, numbered from `position`. */
  ghost predicate WellFormed(d: Dialect, fs: seq<Frame>, position: nat) {
    && fs != []
    && fs[0].index == IndexOf(d, position) < UINT32
    && fs[0].final == (|fs| == 1)
    && LengthOk(fs[0].final, |fs[0].ciphertext|)
    && (|fs| > 1 ==> WellFormed(d, fs[1..], position + 1))
  }

  /** What that says of each frame. */
  lemma {:induction false} WellFormedAt(d: Dialect, fs: seq<Frame>, position: nat, i: nat)
    requires WellFormed(d, fs, position) && i < |fs|
    ensures fs[i].index == IndexOf(d, position + i) < UINT32
    ensures fs[i].final <==> i == |fs| - 1
    ensures LengthOk(fs[i].final, |fs[i].ciphertext|)
  {
    if i > 0 { WellFormedAt(d, fs[1..], position + 1, i - 1); }
  }

  function PrefixIndex(p: Bytes): nat requires |p| >= PREFIX_LENGTH { BigEndianValue(p[..4]) }
  function PrefixFlags(p: Bytes): nat requires |p| >= PREFIX_LENGTH { p[4] }
  function PrefixCiphertext(p: Bytes): nat requires |p| >= PREFIX_LENGTH { BigEndianValue(p[5..9]) }

  /** A flag byte with a bit other than the lowest set, `flags & 0xfe != 0`. */
  predicate UnknownFlag(flags: nat) {
    flags / 2 != 0
  }

  /** One frame at the head of `p`, numbered `index`, or nothing. */
  function ParseFrame(index: nat, p: Bytes): Option<Frame> {
    if |p| < PREFIX_LENGTH || PrefixIndex(p) != index || UnknownFlag(PrefixFlags(p)) then None
    else
      var final := PrefixFlags(p) % 2 == 1;
      var length := PrefixCiphertext(p);
      if !LengthOk(final, length) || |p| - PREFIX_LENGTH < length then None
      else Some(Frame(index, final, p[PREFIX_LENGTH..PREFIX_LENGTH + length]))
  }

  /** A whole payload, from the frame at `position` on. */
  function Parse(d: Dialect, p: Bytes, position: nat): (r: Option<seq<Frame>>)
    decreases |p|
  {
    var f := ParseFrame(IndexOf(d, position), p);
    if f.None? then None
    else
      var rest := p[PREFIX_LENGTH + |f.value.ciphertext|..];
      if f.value.final then if rest == [] then Some([f.value]) else None
      else
        var more := Parse(d, rest, position + 1);
        if more.None? then None else Some([f.value] + more.value)
  }

  /** The layout in bytes: a 32-bit index, one flag byte, a 32-bit length, the ciphertext. */
  lemma FrameLayout(f: Frame)
    requires f.index < UINT32 && LengthOk(f.final, |f.ciphertext|)
    ensures var b := EncodeFrame(f);
      && BigEndianValue(b[..4]) == f.index && b[4] == (if f.final then 1 else 0)
      && BigEndianValue(b[5..9]) == |f.ciphertext| && b[9..] == f.ciphertext
      && (if f.final then 25 else 1_048_601) <= |b| <= 1_048_601
  {
    PrefixOfEncoded(f, []);
    assert EncodeFrame(f) + [] == EncodeFrame(f);
  }

  // ----- Parser and printer are inverse -----

  lemma PrefixOfEncoded(f: Frame, rest: Bytes)
    requires f.index < UINT32 && |f.ciphertext| < UINT32
    ensures var p := EncodeFrame(f) + rest;
      && PrefixIndex(p) == f.index && PrefixFlags(p) == (if f.final then 1 else 0)
      && PrefixCiphertext(p) == |f.ciphertext|
      && p[PREFIX_LENGTH..PREFIX_LENGTH + |f.ciphertext|] == f.ciphertext
      && p[PREFIX_LENGTH + |f.ciphertext|..] == rest
  {
    var p := EncodeFrame(f) + rest;
    assert p[..4] == Uint32(f.index) && p[5..9] == Uint32(|f.ciphertext|);
    Uint32RoundTrip(f.index);
    Uint32RoundTrip(|f.ciphertext|);
  }

  lemma ParseFrameEncoded(f: Frame, rest: Bytes)
    requires f.index < UINT32 && LengthOk(f.final, |f.ciphertext|)
    ensures ParseFrame(f.index, EncodeFrame(f) + rest) == Some(f)
    ensures (EncodeFrame(f) + rest)[PREFIX_LENGTH + |f.ciphertext|..] == rest
  {
    PrefixOfEncoded(f, rest);
  }

  lemma ParsedFrameEncodes(index: nat, p: Bytes)
    requires ParseFrame(index, p).Some?
    ensures var f := ParseFrame(index, p).value;
      && f.index == index < UINT32 && LengthOk(f.final, |f.ciphertext|)
      && p == EncodeFrame(f) + p[PREFIX_LENGTH + |f.ciphertext|..]
  {
    var f := ParseFrame(index, p).value;
    var length := |f.ciphertext|;
    Uint32Value(p[..4]);
    Uint32Value(p[5..9]);
    assert p[4] == if f.final then 1 else 0;
    assert p == p[..4] + [p[4]] + p[5..9] + p[9..9 + length] + p[9 + length..];
  }

  lemma {:induction false} ParseEncoded(d: Dialect, fs: seq<Frame>, position: nat)
    requires WellFormed(d, fs, position)
    ensures Parse(d, EncodeFrames(fs), position) == Some(fs)
  {
    var f, more := fs[0], fs[1..];
    var rest := EncodeFrames(more);
    ParseFrameEncoded(f, rest);
    if |fs| > 1 { ParseEncoded(d, more, position + 1); }
    ParseInFront(d, EncodeFrames(fs), position, f, rest, more);
    assert fs == [f] + more;
  }

  lemma ParseInFront(d: Dialect, p: Bytes, position: nat, f: Frame, rest: Bytes, more: seq<Frame>)
    requires ParseFrame(IndexOf(d, position), p) == Some(f) && p[PREFIX_LENGTH + |f.ciphertext|..] == rest
    requires if f.final then rest == [] && more == [] else Parse(d, rest, position + 1) == Some(more)
    ensures Parse(d, p, position) == Some([f] + more)
  {
    if f.final { assert [f] + more == [f]; }
  }

  /** A frame in front of well-formed frames. */
  lemma FrameInFront(d: Dialect, f: Frame, more: seq<Frame>, position: nat)
    requires f.index == IndexOf(d, position) < UINT32 && LengthOk(f.final, |f.ciphertext|)
    requires if f.final then more == [] else WellFormed(d, more, position + 1)
    ensures WellFormed(d, [f] + more, position) && EncodeFrames([f] + more) == EncodeFrame(f) + EncodeFrames(more)
  {
    assert ([f] + more)[1..] == more;
  }

  lemma {:induction false} ParsedEncodes(d: Dialect, p: Bytes, position: nat)
    requires Parse(d, p, position).Some?
    ensures var fs := Parse(d, p, position).value; WellFormed(d, fs, position) && EncodeFrames(fs) == p
    decreases |p|
  {
    var f := ParseFrame(IndexOf(d, position), p).value;
    ParsedFrameEncodes(IndexOf(d, position), p);
    var rest := p[PREFIX_LENGTH + |f.ciphertext|..];
    if f.final {
      FrameInFront(d, f, [], position);
      assert [f] + [] == [f];
    } else {
      ParsedEncodes(d, rest, position + 1);
      FrameInFront(d, f, Parse(d, rest, position + 1).value, position);
    }
  }

  /** A payload is accepted exactly when it encodes a well-formed list of frames, and it encodes only one. */
  lemma ParseExact(d: Dialect, p: Bytes)
    ensures Parse(d, p, 0).Some? <==> exists fs :: WellFormed(d, fs, 0) && EncodeFrames(fs) == p
    ensures forall fs, gs | WellFormed(d, fs, 0) && WellFormed(d, gs, 0) && EncodeFrames(fs) == p == EncodeFrames(gs) ::
      fs == gs
  {
    if Parse(d, p, 0).Some? { ParsedEncodes(d, p, 0); }
    forall fs | WellFormed(d, fs, 0) && EncodeFrames(fs) == p ensures Parse(d, p, 0) == Some(fs) {
      ParseEncoded(d, fs, 0);
    }
  }

  lemma {:induction false} GoWithinBound(fs: seq<Frame>, position: nat)
    requires WellFormed(Go, fs, position) && position + |fs| <= UINT32
    ensures WellFormed(Browser, fs, position)
  {
    if |fs| > 1 { GoWithinBound(fs[1..], position + 1); }
  }

  lemma {:induction false} BrowserWithinBound(fs: seq<Frame>, position: nat)
    requires WellFormed(Browser, fs, position)
    ensures WellFormed(Go, fs, position) && position + |fs| <= UINT32
  {
    if |fs| > 1 { BrowserWithinBound(fs[1..], position + 1); }
  }

  /**
   The browser accepts exactly what the runtime accepts up to 2^32 frames; beyond, only the wrapping count
   goes on.
   */
  lemma DialectsAgree(fs: seq<Frame>)
    ensures WellFormed(Browser, fs, 0) <==> WellFormed(Go, fs, 0) && |fs| <= UINT32
  {
    if WellFormed(Go, fs, 0) && |fs| <= UINT32 { GoWithinBound(fs, 0); }
    if WellFormed(Browser, fs, 0) { BrowserWithinBound(fs, 0); }
  }

  // ----- Validation -----

  /**
   The header of the frame at `offset`: its final flag and ciphertext length, when it is the expected one and
   fits.
   */
  method ReadHeader(payload: Bytes, offset: nat, expected: nat) returns (header: Option<(bool, nat)>)
    requires offset <= |payload|
    ensures var f := ParseFrame(expected, payload[offset..]);
      header == if f.None? then None else Some((f.value.final, |f.value.ciphertext|))
    ensures header.Some? ==> offset + PREFIX_LENGTH + header.value.1 <= |payload|
  {
    if |payload| - offset < PREFIX_LENGTH {
      return None;
    }
    ghost var rest := payload[offset..];
    var index := BigEndianValue(payload[offset..offset + 4]);
    var flags := payload[offset + 4];
    var length := BigEndianValue(payload[offset + 5..offset + 9]);
    assert payload[offset..offset + 4] == rest[..4] && payload[offset + 5..offset + 9] == rest[5..9];
    if index != expected || UnknownFlag(flags) {
      return None;
    }
    var final := flags % 2 == 1;
    var minimum := if final then TAG_LENGTH else FRAME_LIMIT + TAG_LENGTH;
    if length < minimum || length > FRAME_LIMIT + TAG_LENGTH {
      return None;
    }
    if |payload| - (offset + PREFIX_LENGTH) < length {
      return None;
    }
    return Some((final, length));
  }

  /** What is left to accept once the walk stands at `offset`. */
  ghost predicate Ahead(d: Dialect, payload: Bytes, offset: nat, position: nat, sawFinal: bool)
    requires offset <= |payload|
  {
    if sawFinal then offset == |payload| else Parse(d, payload[offset..], position).Some?
  }

  /** One frame on: its length and flag decide where the walk stands next. */
  lemma WalkOn(d: Dialect, payload: Bytes, offset: nat, position: nat, f: Frame, next: nat)
    requires offset <= next <= |payload| && ParseFrame(IndexOf(d, position), payload[offset..]) == Some(f)
    requires next == offset + PREFIX_LENGTH + |f.ciphertext|
    ensures Ahead(d, payload, offset, position, false) <==> Ahead(d, payload, next, position + 1, f.final)
  {
    assert payload[offset..][PREFIX_LENGTH + |f.ciphertext|..] == payload[next..];
  }

  /** The structural walk both runtimes make over a payload before any decryption. */
  method ValidateStreamPayload(d: Dialect, payload: Bytes) returns (ok: bool)
    ensures ok <==> Parse(d, payload, 0).Some?
  {
    var offset, expected, sawFinal := 0, 0, false;
    ghost var position := 0;
    assert payload[0..] == payload;
    while offset < |payload|
      invariant 0 <= offset <= |payload| && expected == IndexOf(d, position)
      invariant Parse(d, payload, 0).Some? <==> Ahead(d, payload, offset, position, sawFinal)
      decreases |payload| - offset
    {
      if sawFinal {
        return false;
      }
      var header := ReadHeader(payload, offset, expected);
      if header.None? {
        return false;
      }
      var next := offset + PREFIX_LENGTH + header.value.1;
      WalkOn(d, payload, offset, position, ParseFrame(expected, payload[offset..]).value, next);
      offset, position := next, position + 1;
      expected, sawFinal := NextIndex(d, expected), header.value.0;
    }
    assert payload[offset..] == [];
    return sawFinal;
  }

  // ----- Cutting a plaintext into frames -----

  /** Slices of one frame each; an empty plaintext still has one, empty, frame. */
  function Chunks(plaintext: Bytes): (cs: seq<Bytes>)
    ensures cs != []
    decreases |plaintext|
  {
    if |plaintext| <= FRAME_LIMIT then [plaintext]
    else [plaintext[..FRAME_LIMIT]] + Chunks(plaintext[FRAME_LIMIT..])
  }

  /** Full chunks, then one that is at most full. */
  ghost predicate Framable(cs: seq<Bytes>) {
    && cs != []
    && (forall i | 0 <= i < |cs| - 1 :: |cs[i]| == FRAME_LIMIT)
    && |cs[|cs| - 1]| <= FRAME_LIMIT
  }

  lemma {:induction false} ChunksJoin(plaintext: Bytes)
    ensures Framable(Chunks(plaintext)) && Concat(Chunks(plaintext)) == plaintext
    ensures |Chunks(plaintext)| > 1 ==> Chunks(plaintext)[|Chunks(plaintext)| - 1] != []
    decreases |plaintext|
  {
    if |plaintext| <= FRAME_LIMIT {
      assert Concat([plaintext]) == plaintext + [];
    } else {
      var rest := plaintext[FRAME_LIMIT..];
      ChunksJoin(rest);
      var cs := Chunks(plaintext);
      assert cs[1..] == Chunks(rest);
      forall i | 0 <= i < |cs| - 1 ensures |cs[i]| == FRAME_LIMIT {
        if i > 0 { assert cs[i] == Chunks(rest)[i - 1]; }
      }
      assert cs[|cs| - 1] == Chunks(rest)[|Chunks(rest)| - 1];
    }
  }

  /**
   A framable list is the slicing of its own concatenation exactly when it does not end in an empty frame
   after full ones.
   */
  lemma {:induction false} ChunksOfConcat(cs: seq<Bytes>)
    requires Framable(cs)
    ensures Chunks(Concat(cs)) == cs <==> (|cs| == 1 || cs[|cs| - 1] != [])
  {
    if |cs| == 1 {
      assert cs == [cs[0]] && Concat(cs) == cs[0] + [] == cs[0];
    } else {
      var rest := cs[1..];
      assert Framable(rest);
      ChunksOfConcat(rest);
      ChunksJoin(Concat(cs));
      if cs[|cs| - 1] != [] {
        var whole := Concat(cs);
        assert whole == cs[0] + Concat(rest);
        ConcatNonempty(rest);
        assert whole[..FRAME_LIMIT] == cs[0] && whole[FRAME_LIMIT..] == Concat(rest);
        assert cs == [cs[0]] + rest;
      }
    }
  }

  lemma {:induction false} ConcatNonempty(cs: seq<Bytes>)
    requires cs != [] && cs[|cs| - 1] != []
    ensures Concat(cs) != []
  {
    if |cs| > 1 {
      assert cs[1..][|cs[1..]| - 1] == cs[|cs| - 1];
      ConcatNonempty(cs[1..]);
    }
  }

  /** How many frames a plaintext of length `n` takes. */
  function FrameCount(n: nat): nat {
    if n == 0 then 1 else (n + FRAME_LIMIT - 1) / FRAME_LIMIT
  }

  lemma {:induction false} ChunkCount(plaintext: Bytes)
    ensures |Chunks(plaintext)| == FrameCount(|plaintext|)
    decreases |plaintext|
  {
    if |plaintext| > FRAME_LIMIT { ChunkCount(plaintext[FRAME_LIMIT..]); }
  }

  // ----- Sealing and opening -----

  /** What a stream fixes for all its frames: key, nonce by index, AAD by index, flag and plaintext length. */
  datatype Sealer = Sealer(cipher: Cipher, key: Bytes, nonce: nat -> Bytes, aad: (nat, bool, nat) -> Bytes)

  function SealFrame(s: Sealer, index: nat, final: bool, chunk: Bytes): Frame {
    Frame(index, final, s.cipher.seal(s.key, s.nonce(index), chunk, s.aad(index, final, |chunk|)))
  }

  function OpenFrame(s: Sealer, f: Frame): Option<Bytes>
    requires |f.ciphertext| >= TAG_LENGTH
  {
    s.cipher.open(s.key, s.nonce(f.index), f.ciphertext, s.aad(f.index, f.final, |f.ciphertext| - TAG_LENGTH))
  }

  /** The frames of a list of chunks that starts at `position`; the last one is final. */
  function SealChunks(s: Sealer, d: Dialect, cs: seq<Bytes>, position: nat): (fs: seq<Frame>)
    ensures |fs| == |cs|
  {
    if cs == [] then []
    else [SealFrame(s, IndexOf(d, position), |cs| == 1, cs[0])] + SealChunks(s, d, cs[1..], position + 1)
  }

  /** The specification of every sealer: slice, then seal slice by slice. */
  function SealPlaintext(s: Sealer, d: Dialect, plaintext: Bytes): seq<Frame> {
    SealChunks(s, d, Chunks(plaintext), 0)
  }

  /** Every frame is long enough to hold a tag. */
  predicate Openable(fs: seq<Frame>) {
    forall i | 0 <= i < |fs| :: |fs[i].ciphertext| >= TAG_LENGTH
  }

  lemma WellFormedOpenable(d: Dialect, fs: seq<Frame>, position: nat)
    requires WellFormed(d, fs, position)
    ensures Openable(fs)
  {
    forall i | 0 <= i < |fs| ensures |fs[i].ciphertext| >= TAG_LENGTH { WellFormedAt(d, fs, position, i); }
  }

  function OpenFrames(s: Sealer, fs: seq<Frame>): (r: Option<seq<Bytes>>)
    requires Openable(fs)
    ensures r.Some? ==> |r.value| == |fs|
  {
    if fs == [] then Some([])
    else
      var first := OpenFrame(s, fs[0]);
      var rest := OpenFrames(s, fs[1..]);
      if first.None? || rest.None? then None else Some([first.value] + rest.value)
  }

  /** A browser stream stays within 2^32 frames; the wrapping dialect has no bound. */
  predicate Countable(d: Dialect, frames: nat) {
    d.Browser? ==> frames <= UINT32
  }

  lemma {:induction false} SealedWellFormed(s: Sealer, d: Dialect, cs: seq<Bytes>, position: nat)
    requires Lawful(s.cipher) && Framable(cs) && Countable(d, position + |cs|)
    ensures WellFormed(d, SealChunks(s, d, cs, position), position)
    decreases |cs|
  {
    var fs := SealChunks(s, d, cs, position);
    SealedFrameLength(s, fs[0].index, fs[0].final, cs[0]);
    if |cs| > 1 {
      assert Framable(cs[1..]);
      SealedWellFormed(s, d, cs[1..], position + 1);
      assert fs[1..] == SealChunks(s, d, cs[1..], position + 1);
    }
  }

  lemma SealedFrameLength(s: Sealer, index: nat, final: bool, chunk: Bytes)
    requires Lawful(s.cipher)
    ensures |SealFrame(s, index, final, chunk).ciphertext| == |chunk| + TAG_LENGTH
  {
    assert |s.cipher.seal(s.key, s.nonce(index), chunk, s.aad(index, final, |chunk|))| == |chunk| + TAG_LENGTH;
  }

  lemma OpenSealedFrame(s: Sealer, index: nat, final: bool, chunk: Bytes)
    requires Lawful(s.cipher)
    ensures |SealFrame(s, index, final, chunk).ciphertext| == |chunk| + TAG_LENGTH
    ensures OpenFrame(s, SealFrame(s, index, final, chunk)) == Some(chunk)
  {
    SealedFrameLength(s, index, final, chunk);
  }

  lemma {:induction false} OpenSealed(s: Sealer, d: Dialect, cs: seq<Bytes>, position: nat)
    requires Lawful(s.cipher) && Openable(SealChunks(s, d, cs, position))
    ensures OpenFrames(s, SealChunks(s, d, cs, position)) == Some(cs)
    decreases |cs|
  {
    if cs != [] {
      var fs := SealChunks(s, d, cs, position);
      assert fs[1..] == SealChunks(s, d, cs[1..], position + 1);
      OpenSealed(s, d, cs[1..], position + 1);
      OpenSealedFrame(s, fs[0].index, fs[0].final, cs[0]);
      assert cs == [cs[0]] + cs[1..];
    }
  }

  /** Opening what was sealed gives the plaintext back, for every plaintext. */
  lemma OpenUndoesSeal(s: Sealer, d: Dialect, plaintext: Bytes)
    requires Lawful(s.cipher) && Countable(d, FrameCount(|plaintext|))
    ensures var fs := SealPlaintext(s, d, plaintext);
      && WellFormed(d, fs, 0) && Openable(fs)
      && OpenFrames(s, fs) == Some(Chunks(plaintext)) && Concat(Chunks(plaintext)) == plaintext
  {
    ChunksJoin(plaintext);
    ChunkCount(plaintext);
    SealedWellFormed(s, d, Chunks(plaintext), 0);
    WellFormedOpenable(d, SealPlaintext(s, d, plaintext), 0);
    OpenSealed(s, d, Chunks(plaintext), 0);
  }

  lemma OpenedFrameReseals(s: Sealer, f: Frame)
    requires Exact(s.cipher) && |f.ciphertext| >= TAG_LENGTH && OpenFrame(s, f).Some?
    ensures var c := OpenFrame(s, f).value;
      |c| == |f.ciphertext| - TAG_LENGTH && SealFrame(s, f.index, f.final, c) == f
  {
    var aad := s.aad(f.index, f.final, |f.ciphertext| - TAG_LENGTH);
    var c := OpenFrame(s, f).value;
    assert s.cipher.open(s.key, s.nonce(f.index), f.ciphertext, aad) == Some(c);
    assert s.cipher.seal(s.key, s.nonce(f.index), c, aad) == f.ciphertext;
  }

  /** Under the exact cipher law, opened frames are the sealing of what they opened to. */
  lemma {:induction false} OpenedReseals(s: Sealer, d: Dialect, fs: seq<Frame>, position: nat)
    requires Exact(s.cipher) && WellFormed(d, fs, position) && Openable(fs) && OpenFrames(s, fs).Some?
    ensures SealChunks(s, d, OpenFrames(s, fs).value, position) == fs
    decreases |fs|
  {
    var cs := OpenFrames(s, fs).value;
    OpenedFrameReseals(s, fs[0]);
    assert SealFrame(s, IndexOf(d, position), |fs| == 1, cs[0]) == fs[0];
    if |fs| > 1 {
      OpenedReseals(s, d, fs[1..], position + 1);
      assert cs[1..] == OpenFrames(s, fs[1..]).value;
      assert fs == [fs[0]] + fs[1..];
    } else {
      assert fs == [fs[0]] && cs == [cs[0]];
    }
  }

  lemma OpenedFramable(s: Sealer, d: Dialect, fs: seq<Frame>, position: nat)
    requires Lawful(s.cipher) && WellFormed(d, fs, position) && Openable(fs) && OpenFrames(s, fs).Some?
    ensures Framable(OpenFrames(s, fs).value)
  {
    var cs := OpenFrames(s, fs).value;
    forall i | 0 <= i < |cs|
      ensures |cs[i]| == |fs[i].ciphertext| - TAG_LENGTH && LengthOk(i == |fs| - 1, |fs[i].ciphertext|)
    {
      OpenedLengths(s, fs, i);
      WellFormedAt(d, fs, position, i);
    }
  }

  /**
   An accepted stream is what sealing its plaintext again would give, exactly when it does not
   end with an empty final frame after full ones.
   */
  lemma ResealIff(s: Sealer, d: Dialect, fs: seq<Frame>)
    requires Exact(s.cipher) && WellFormed(d, fs, 0) && Openable(fs) && OpenFrames(s, fs).Some?
    ensures SealPlaintext(s, d, Concat(OpenFrames(s, fs).value)) == fs
      <==> |fs| == 1 || |fs[|fs| - 1].ciphertext| != TAG_LENGTH
  {
    var cs := OpenFrames(s, fs).value;
    OpenedReseals(s, d, fs, 0);
    OpenedFramable(s, d, fs, 0);
    ChunksOfConcat(cs);
    OpenedLengths(s, fs, |fs| - 1);
    if SealPlaintext(s, d, Concat(cs)) == fs {
      SealedApart(s, d, Chunks(Concat(cs)), cs, 0);
    }
  }

  /**
   The excluded streams exist: a full frame and an empty final one open, but sealing what they hold gives one
   frame.
   */
  lemma EmptyTailNotResealed(s: Sealer, d: Dialect, full: Bytes)
    requires Lawful(s.cipher) && |full| == FRAME_LIMIT
    ensures var fs := SealChunks(s, d, [full, []], 0);
      && WellFormed(d, fs, 0) && Openable(fs) && OpenFrames(s, fs) == Some([full, []])
      && Concat([full, []]) == full && SealPlaintext(s, d, full) != fs
  {
    var cs: seq<Bytes> := [full, []];
    SealedWellFormed(s, d, cs, 0);
    WellFormedOpenable(d, SealChunks(s, d, cs, 0), 0);
    OpenSealed(s, d, cs, 0);
    assert cs[1..] == [cs[1]] && Concat([cs[1]]) == cs[1] + [] && full + [] == full;
    assert |SealPlaintext(s, d, full)| == 1;
  }

  lemma {:induction false} OpenedLengths(s: Sealer, fs: seq<Frame>, i: nat)
    requires Lawful(s.cipher) && i < |fs|
    requires Openable(fs) && OpenFrames(s, fs).Some?
    ensures |OpenFrames(s, fs).value[i]| == |fs[i].ciphertext| - TAG_LENGTH
  {
    if i > 0 { OpenedLengths(s, fs[1..], i - 1); }
  }

  /** Sealing is injective on chunk lists, since opening undoes it. */
  lemma SealedApart(s: Sealer, d: Dialect, cs: seq<Bytes>, ds: seq<Bytes>, position: nat)
    requires Lawful(s.cipher) && SealChunks(s, d, cs, position) == SealChunks(s, d, ds, position)
    ensures cs == ds
  {
    SealedLengths(s, d, cs, position);
    SealedLengths(s, d, ds, position);
    OpenSealed(s, d, cs, position);
    OpenSealed(s, d, ds, position);
  }

  lemma {:induction false} SealedLengths(s: Sealer, d: Dialect, cs: seq<Bytes>, position: nat)
    requires Lawful(s.cipher)
    ensures forall i | 0 <= i < |cs| :: |SealChunks(s, d, cs, position)[i].ciphertext| == |cs[i]| + TAG_LENGTH
    decreases |cs|
  {
    if cs != [] {
      SealedLengths(s, d, cs[1..], position + 1);
      var fs := SealChunks(s, d, cs, position);
      forall i | 0 <= i < |cs| ensures |fs[i].ciphertext| == |cs[i]| + TAG_LENGTH {
        if i > 0 { assert fs[i] == SealChunks(s, d, cs[1..], position + 1)[i - 1]; }
      }
    }
  }

  /** A sealed plaintext of `n` bytes takes `n` plus 25 bytes a frame. */
  lemma {:induction false} EncodedLength(s: Sealer, d: Dialect, cs: seq<Bytes>, position: nat)
    requires Lawful(s.cipher)
    ensures |EncodeFrames(SealChunks(s, d, cs, position))| == |Concat(cs)| + (PREFIX_LENGTH + TAG_LENGTH) * |cs|
    decreases |cs|
  {
    if cs != [] {
      EncodedLength(s, d, cs[1..], position + 1);
      SealedLengths(s, d, cs, position);
      var fs := SealChunks(s, d, cs, position);
      assert fs[1..] == SealChunks(s, d, cs[1..], position + 1);
    }
  }

  lemma SealedLength(s: Sealer, d: Dialect, plaintext: Bytes)
    requires Lawful(s.cipher)
    ensures |SealPlaintext(s, d, plaintext)| == FrameCount(|plaintext|)
    ensures |EncodeFrames(SealPlaintext(s, d, plaintext))| == |plaintext| + 25 * FrameCount(|plaintext|)
  {
    ChunkCount(plaintext);
    ChunksJoin(plaintext);
    EncodedLength(s, d, Chunks(plaintext), 0);
  }

  /** Within 2^32 frames the two dialects seal alike. */
  lemma {:induction false} DialectsSealAlike(s: Sealer, cs: seq<Bytes>, position: nat)
    requires position + |cs| <= UINT32
    ensures SealChunks(s, Go, cs, position) == SealChunks(s, Browser, cs, position)
    decreases |cs|
  {
    if cs != [] { DialectsSealAlike(s, cs[1..], position + 1); }
  }

  // ----- The frame at a position -----

  /** The bytes of a plaintext that go into its `i`th frame. */
  function SliceAt(plaintext: Bytes, i: nat): Bytes
    requires i * FRAME_LIMIT <= |plaintext|
  {
    plaintext[i * FRAME_LIMIT..if (i + 1) * FRAME_LIMIT <= |plaintext| then (i + 1) * FRAME_LIMIT else |plaintext|]
  }

  lemma {:induction false} ChunkAt(plaintext: Bytes, i: nat)
    requires i < FrameCount(|plaintext|)
    ensures i * FRAME_LIMIT <= |plaintext| && |Chunks(plaintext)| == FrameCount(|plaintext|)
    ensures Chunks(plaintext)[i] == SliceAt(plaintext, i)
    decreases |plaintext|
  {
    ChunkCount(plaintext);
    if |plaintext| <= FRAME_LIMIT {
      assert i == 0;
    } else if i > 0 {
      var rest := plaintext[FRAME_LIMIT..];
      ChunkCount(rest);
      ChunkAt(rest, i - 1);
      assert SliceAt(rest, i - 1) == SliceAt(plaintext, i);
    }
  }

  lemma {:induction false} SealedAt(s: Sealer, d: Dialect, cs: seq<Bytes>, position: nat, i: nat)
    requires i < |cs|
    ensures SealChunks(s, d, cs, position)[i] == SealFrame(s, IndexOf(d, position + i), i == |cs| - 1, cs[i])
    decreases |cs|
  {
    if i > 0 { SealedAt(s, d, cs[1..], position + 1, i - 1); }
  }

  /** The `i`th frame of a sealed plaintext, in closed form. */
  lemma SealedSlice(s: Sealer, d: Dialect, plaintext: Bytes, i: nat)
    requires i < FrameCount(|plaintext|)
    ensures i * FRAME_LIMIT <= |plaintext| && |SealPlaintext(s, d, plaintext)| == FrameCount(|plaintext|)
    ensures SealPlaintext(s, d, plaintext)[i] ==
      SealFrame(s, IndexOf(d, i), i == FrameCount(|plaintext|) - 1, SliceAt(plaintext, i))
  {
    ChunkAt(plaintext, i);
    SealedAt(s, d, Chunks(plaintext), 0, i);
  }

  // ----- Nonces -----

  /** Nonces of 24 bytes: 16 that are fixed, then the index as a 64-bit number. */
  ghost predicate CountsNonces(s: Sealer, base: Bytes) {
    |base| == 16 &&
    forall i | 0 <= i < UINT64 ::
      |s.nonce(i)| == NONCE_LENGTH && s.nonce(i)[..16] == base && BigEndianValue(s.nonce(i)[16..]) == i
  }

  lemma NonceLayout(base: Bytes, i: nat)
    requires |base| == 16 && i < UINT64
    ensures var nonce := base + Uint64(i);
      |nonce| == NONCE_LENGTH && nonce[..16] == base && BigEndianValue(nonce[16..]) == i
  {
    assert (base + Uint64(i))[16..] == Uint64(i);
    Uint64RoundTrip(i);
  }

  lemma {:induction false} SealedIndex(s: Sealer, d: Dialect, cs: seq<Bytes>, position: nat, i: nat)
    requires i < |cs|
    ensures SealChunks(s, d, cs, position)[i].index == IndexOf(d, position + i)
    decreases |cs|
  {
    if i > 0 { SealedIndex(s, d, cs[1..], position + 1, i - 1); }
  }

  /** No two frames are sealed under one nonce. */
  ghost predicate NoncesDistinct(s: Sealer, fs: seq<Frame>) {
    forall i, j | 0 <= i < j < |fs| :: s.nonce(fs[i].index) != s.nonce(fs[j].index)
  }

  /** The frames of a stream have distinct nonces exactly as long as its counter does not wrap. */
  lemma NoncesDistinctIff(s: Sealer, d: Dialect, base: Bytes, plaintext: Bytes)
    requires CountsNonces(s, base) && FrameCount(|plaintext|) <= UINT64
    ensures NoncesDistinct(s, SealPlaintext(s, d, plaintext)) <==> d.Browser? || FrameCount(|plaintext|) <= UINT32
  {
    var cs := Chunks(plaintext);
    var fs := SealChunks(s, d, cs, 0);
    ChunkCount(plaintext);
    forall i | 0 <= i < |fs|
      ensures fs[i].index == (if d.Browser? then i else i % UINT32)
      ensures BigEndianValue(s.nonce(fs[i].index)[16..]) == fs[i].index
    {
      SealedIndex(s, d, cs, 0, i);
      if d.Go? { GoIndexWraps(i); }
    }
    if d.Go? && |fs| > UINT32 {
      assert fs[0].index == fs[UINT32].index;
    }
  }

  // ----- Appending frames -----

  lemma {:induction false} EncodeFramesAppend(fs: seq<Frame>, gs: seq<Frame>)
    ensures EncodeFrames(fs + gs) == EncodeFrames(fs) + EncodeFrames(gs)
  {
    if fs == [] {
      assert fs + gs == gs;
    } else {
      EncodeFramesAppend(fs[1..], gs);
      assert (fs + gs)[1..] == fs[1..] + gs && (fs + gs)[0] == fs[0];
      Associative(EncodeFrame(fs[0]), EncodeFrames(fs[1..]), EncodeFrames(gs));
    }
  }

  lemma EncodeFramesSnoc(fs: seq<Frame>, f: Frame)
    ensures EncodeFrames(fs + [f]) == EncodeFrames(fs) + EncodeFrame(f)
  {
    EncodeFramesAppend(fs, [f]);
    assert EncodeFrames([f]) == EncodeFrame(f) + [];
  }

  // ----- Sealing online -----

  /** Frames for full chunks whose successor is still to come. */
  function SealOngoing(s: Sealer, d: Dialect, cs: seq<Bytes>): (fs: seq<Frame>)
    ensures |fs| == |cs|
  {
    if cs == [] then []
    else
      var init := cs[..|cs| - 1];
      SealOngoing(s, d, init) + [SealFrame(s, IndexOf(d, |init|), false, cs[|cs| - 1])]
  }

  lemma SealOngoingSnoc(s: Sealer, d: Dialect, cs: seq<Bytes>, chunk: Bytes)
    ensures SealOngoing(s, d, cs + [chunk]) == SealOngoing(s, d, cs) + [SealFrame(s, IndexOf(d, |cs|), false, chunk)]
  {
    assert (cs + [chunk])[..|cs|] == cs;
  }

  /** Ongoing frames closed by a final one are the sealing of all the chunks. */
  lemma SealOngoingThenFinal(s: Sealer, d: Dialect, cs: seq<Bytes>, last: Bytes)
    ensures SealOngoing(s, d, cs) + [SealFrame(s, IndexOf(d, |cs|), true, last)] == SealChunks(s, d, cs + [last], 0)
  {
    SealClosed(s, d, cs, [last]);
    assert SealChunks(s, d, [last], |cs|) == [SealFrame(s, IndexOf(d, |cs|), true, last)];
  }

  lemma {:induction false} SealClosed(s: Sealer, d: Dialect, cs: seq<Bytes>, rest: seq<Bytes>)
    requires rest != []
    ensures SealChunks(s, d, cs + rest, 0) == SealOngoing(s, d, cs) + SealChunks(s, d, rest, |cs|)
    decreases |cs|
  {
    if cs == [] {
      assert cs + rest == rest;
    } else {
      var init, chunk := cs[..|cs| - 1], cs[|cs| - 1];
      var more := [chunk] + rest;
      var f := SealFrame(s, IndexOf(d, |init|), false, chunk);
      SealClosed(s, d, init, more);
      assert cs + rest == init + more && more[0] == chunk && more[1..] == rest;
      assert SealChunks(s, d, more, |init|) == [f] + SealChunks(s, d, rest, |cs|);
      Associative(SealOngoing(s, d, init), [f], SealChunks(s, d, rest, |cs|));
    }
  }
}
