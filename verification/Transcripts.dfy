/**
 Length-prefixed transcripts: the framing under every digest, key and AAD. One
 definition, shown injective, and the hand-built and incremental framings that
 must produce the same bytes.
 */
module Transcripts {
  import opened ByteStrings
  import opened Ciphers

  // ----- Labels -----

  predicate LabelCharacter(c: char) {
    'a' <= c <= 'z' || '0' <= c <= '9' || c == ':' || c == '-'
  }

  predicate LabelText(s: string) {
    forall i | 0 <= i < |s| :: LabelCharacter(s[i])
  }

  /** `^awsm:[a-z0-9:-]+:v1$` */
  predicate ValidLabel(s: string) {
    && |s| >= 9
    && s[..5] == "awsm:" && s[|s| - 3..] == ":v1"
    && LabelText(s)
  }

  type Label = s: string | ValidLabel(s) witness "awsm:a:v1"

  function LabelFor(purpose: string): Label
    requires purpose != "" && LabelText(purpose)
  {
    var s := "awsm:" + purpose + ":v1";
    assert s[..5] == "awsm:" && s[|s| - 3..] == ":v1";
    s
  }

  const STORAGE_ITEM_ID: Label := LabelFor("storage-item-id")
  const ARTIFACT_PAYLOAD: Label := LabelFor("artifact-payload")
  const ARTIFACT_WRAPPER_KEY: Label := LabelFor("artifact-wrapper-key")
  const ARTIFACT_FRAME_AAD: Label := LabelFor("artifact-frame-aad")
  const EXPORT_FRAME: Label := LabelFor("complete-export-frame")
  const EXPORT_STATE_DIGEST: Label := LabelFor("complete-export-state-digest")
  const MANIFEST_ENTRY_ID: Label := LabelFor("complete-export-manifest-entry-id")
  const KEY_INVENTORY_ENTRY_ID: Label := LabelFor("complete-export-key-inventory-entry-id")
  const FEATURE_MANIFEST_ID: Label := LabelFor("feature-manifest-id")
  const FEATURE_SET_ID: Label := LabelFor("required-feature-set-id")

  /** Every purpose has its own label, so no transcript serves two. */
  lemma LabelsDiffer()
    ensures var labels := [STORAGE_ITEM_ID, ARTIFACT_PAYLOAD, ARTIFACT_WRAPPER_KEY, ARTIFACT_FRAME_AAD, EXPORT_FRAME,
                           EXPORT_STATE_DIGEST, MANIFEST_ENTRY_ID, KEY_INVENTORY_ENTRY_ID, FEATURE_MANIFEST_ID,
                           FEATURE_SET_ID];
      forall i, j | 0 <= i < j < |labels| :: labels[i] != labels[j]
  {
    assert |STORAGE_ITEM_ID| == 23 && |ARTIFACT_PAYLOAD| == 24 && |ARTIFACT_WRAPPER_KEY| == 28;
    assert |ARTIFACT_FRAME_AAD| == 26 && |EXPORT_FRAME| == 29;
    assert |EXPORT_STATE_DIGEST| == 36 && |MANIFEST_ENTRY_ID| == 41;
    assert |KEY_INVENTORY_ENTRY_ID| == 46 && |FEATURE_MANIFEST_ID| == 27 && |FEATURE_SET_ID| == 31;
  }

  function Ascii(s: string): (b: Bytes)
    requires LabelText(s)
    ensures |b| == |s| && 0 !in b
  {
    seq(|s|, i requires 0 <= i < |s| => assert LabelCharacter(s[i]); s[i] as int)
  }

  lemma AsciiInjective(a: string, b: string)
    requires LabelText(a) && LabelText(b) && Ascii(a) == Ascii(b)
    ensures a == b
  {
    assert |a| == |Ascii(a)| == |Ascii(b)| == |b|;
    forall i | 0 <= i < |a| ensures a[i] == b[i] {
      assert a[i] as int == Ascii(a)[i] == Ascii(b)[i] == b[i] as int;
    }
  }

  // ----- The transcript -----

  /** Each part preceded by its 64-bit length. */
  function Framed(parts: seq<Bytes>): seq<Bytes> {
    if parts == [] then [] else [Uint64(|parts[0]|), parts[0]] + Framed(parts[1..])
  }

  function TranscriptBytes(name: Label, parts: seq<Bytes>): Bytes {
    Ascii(name) + [0] + Uint32(|parts|) + Concat(Framed(parts))
  }

  predicate Transcribable(name: string, parts: seq<Bytes>) {
    ValidLabel(name) && |parts| < UINT32 && forall p | p in parts :: |p| < UINT64 - 8
  }

  lemma {:induction false} FramedInjective(p: seq<Bytes>, q: seq<Bytes>)
    requires |p| == |q| && (forall x | x in p :: |x| < UINT64) && (forall x | x in q :: |x| < UINT64)
    requires Concat(Framed(p)) == Concat(Framed(q))
    ensures p == q
  {
    if p != [] {
      FramedConcat(p);
      FramedConcat(q);
      var x, y := Concat(Framed(p[1..])), Concat(Framed(q[1..]));
      assert p[0] in p && q[0] in q;
      SplitEqual(Uint64(|p[0]|), Uint64(|q[0]|), p[0] + x, q[0] + y);
      Uint64RoundTrip(|p[0]|);
      Uint64RoundTrip(|q[0]|);
      SplitEqual(p[0], q[0], x, y);
      FramedInjective(p[1..], q[1..]);
      assert p == [p[0]] + p[1..] && q == [q[0]] + q[1..];
    }
  }

  lemma FramedConcat(parts: seq<Bytes>)
    requires parts != []
    ensures Concat(Framed(parts)) == Uint64(|parts[0]|) + (parts[0] + Concat(Framed(parts[1..])))
  {
    var two := [Uint64(|parts[0]|), parts[0]];
    ConcatAppend(two, Framed(parts[1..]));
    assert two[1..] == [parts[0]] && Concat([parts[0]]) == parts[0] + [] == parts[0];
    Associative(Uint64(|parts[0]|), parts[0], Concat(Framed(parts[1..])));
  }

  /** Strings without a zero byte, each closed by one, are told apart by where the zero is. */
  lemma ZeroTerminated(a: Bytes, b: Bytes, x: Bytes, y: Bytes)
    requires 0 !in a && 0 !in b && a + [0] + x == b + [0] + y
    ensures a == b && x == y
  {
    var s, t := a + [0] + x, b + [0] + y;
    assert s[|a|] == 0 && t[|b|] == 0;
    assert |a| == |b|;
    SplitEqual(a + [0], b + [0], x, y);
    SplitEqual(a, b, [0], [0]);
  }

  /** Equal transcripts have equal labels and equal part lists. */
  lemma TranscriptInjective(a: string, p: seq<Bytes>, b: string, q: seq<Bytes>)
    requires Transcribable(a, p) && Transcribable(b, q) && TranscriptBytes(a, p) == TranscriptBytes(b, q)
    ensures a == b && p == q
  {
    Associative(Ascii(a) + [0], Uint32(|p|), Concat(Framed(p)));
    Associative(Ascii(b) + [0], Uint32(|q|), Concat(Framed(q)));
    ZeroTerminated(Ascii(a), Ascii(b), Uint32(|p|) + Concat(Framed(p)), Uint32(|q|) + Concat(Framed(q)));
    AsciiInjective(a, b);
    SplitEqual(Uint32(|p|), Uint32(|q|), Concat(Framed(p)), Concat(Framed(q)));
    Uint32RoundTrip(|p|);
    Uint32RoundTrip(|q|);
    FramedInjective(p, q);
  }

  lemma FinalByteInjective(a: bool, b: bool)
    requires FinalByte(a) == FinalByte(b)
    ensures a == b
  {
    assert FinalByte(a)[0] == FinalByte(b)[0];
  }

  lemma Uint32Injective(m: nat, n: nat)
    requires m < UINT32 && n < UINT32 && Uint32(m) == Uint32(n)
    ensures m == n
  {
    Uint32RoundTrip(m);
    Uint32RoundTrip(n);
  }

  /** One part under one label: no bound on its length is needed. */
  lemma SinglePartInjective(name: Label, a: Bytes, b: Bytes)
    requires TranscriptBytes(name, [a]) == TranscriptBytes(name, [b])
    ensures a == b
  {
    SinglePrefixIsTranscript(name, a);
    SinglePrefixIsTranscript(name, b);
    assert |SinglePrefix(name, |a|)| == |SinglePrefix(name, |b|)|;
    SplitEqual(SinglePrefix(name, |a|), SinglePrefix(name, |b|), a, b);
  }

  // ----- Filling the buffer -----

  function FramedLength(parts: seq<Bytes>): nat {
    if parts == [] then 0 else FramedLength(parts[..|parts| - 1]) + 8 + |parts[|parts| - 1]|
  }

  lemma {:induction false} FramedSnoc(parts: seq<Bytes>, last: Bytes)
    ensures Framed(parts + [last]) == Framed(parts) + [Uint64(|last|), last]
    ensures Concat(Framed(parts + [last])) == Concat(Framed(parts)) + Uint64(|last|) + last
  {
    if parts == [] {
      assert parts + [last] == [last];
    } else {
      FramedSnoc(parts[1..], last);
      assert (parts + [last])[1..] == parts[1..] + [last];
    }
    var two := [Uint64(|last|), last];
    ConcatAppend(Framed(parts), two);
    assert two[1..] == [last] && Concat([last]) == last + [] == last;
    Associative(Concat(Framed(parts)), Uint64(|last|), last);
  }

  lemma {:induction false} FramedLengthGrows(parts: seq<Bytes>, i: nat)
    requires i <= |parts|
    ensures FramedLength(parts[..i]) <= FramedLength(parts)
  {
    if i == |parts| {
      assert parts[..i] == parts;
    } else {
      FramedLengthGrows(parts[..|parts| - 1], i);
      assert parts[..|parts| - 1][..i] == parts[..i];
    }
  }

  /** `copy(buffer[offset:], bytes)`, or `buffer.set(bytes, offset)`, where there is room. */
  method Fill(buffer: array<Byte>, offset: nat, bytes: Bytes)
    requires offset + |bytes| <= buffer.Length
    modifies buffer
    ensures buffer[..offset + |bytes|] == old(buffer[..offset]) + bytes
  {
    for i := 0 to |bytes|
      invariant buffer[..offset + i] == old(buffer[..offset]) + bytes[..i]
    {
      buffer[offset + i] := bytes[i];
      assert buffer[..offset + i + 1] == buffer[..offset + i] + [bytes[i]];
    }
  }

  /** The buffer is sized first and filled with a moving offset, which ends exactly at its end. */
  method Transcript(name: string, parts: seq<Bytes>) returns (result: Option<Bytes>)
    ensures result == if Transcribable(name, parts) then Some(TranscriptBytes(name, parts)) else None
  {
    if !ValidLabel(name) || |parts| >= UINT32 {
      return None;
    }
    var total := |name| + 1 + 4;
    for i := 0 to |parts|
      invariant total == |name| + 5 + FramedLength(parts[..i])
      invariant forall j | 0 <= j < i :: |parts[j]| < UINT64 - 8
    {
      if |parts[i]| >= UINT64 - 8 {
        assert parts[i] in parts;
        return None;
      }
      assert parts[..i + 1][..i] == parts[..i];
      total := total + 8 + |parts[i]|;
    }
    assert parts[..|parts|] == parts;
    var buffer := new Byte[total];
    FillTranscript(buffer, name, parts);
    return Some(buffer[..]);
  }

  method FillTranscript(buffer: array<Byte>, name: Label, parts: seq<Bytes>)
    requires buffer.Length == |name| + 5 + FramedLength(parts)
    modifies buffer
    ensures buffer[..] == TranscriptBytes(name, parts)
  {
    var head := Ascii(name) + [0] + Uint32(|parts|);
    Fill(buffer, 0, Ascii(name));
    Fill(buffer, |name|, [0]);
    Fill(buffer, |name| + 1, Uint32(|parts|));
    var offset := |name| + 5;
    assert parts[..0] == [] && buffer[..offset] == head + Concat(Framed(parts[..0]));
    for i := 0 to |parts|
      invariant offset == |name| + 5 + FramedLength(parts[..i]) <= buffer.Length
      invariant buffer[..offset] == head + Concat(Framed(parts[..i]))
    {
      assert parts[..i + 1] == parts[..i] + [parts[i]] && parts[..i + 1][..i] == parts[..i];
      FramedLengthGrows(parts, i + 1);
      offset := FillPart(buffer, offset, parts[i], head, Concat(Framed(parts[..i])));
      FramedSnoc(parts[..i], parts[i]);
    }
    assert parts[..|parts|] == parts && buffer[..offset] == buffer[..];
  }

  /** One part: its length, then its bytes. */
  method FillPart(buffer: array<Byte>, offset: nat, part: Bytes, ghost head: Bytes, ghost framed: Bytes)
    returns (end: nat)
    requires offset + 8 + |part| <= buffer.Length && buffer[..offset] == head + framed
    modifies buffer
    ensures end == offset + 8 + |part| && buffer[..end] == head + (framed + Uint64(|part|) + part)
  {
    Fill(buffer, offset, Uint64(|part|));
    Fill(buffer, offset + 8, part);
    end := offset + 8 + |part|;
    Associative(head, framed, Uint64(|part|));
    Associative(head, framed + Uint64(|part|), part);
  }

  // ----- Hand-built framings -----

  /** Label, zero byte, part count one, length: what the payload and item hashers feed before any content. */
  function SinglePrefix(name: Label, length: nat): Bytes {
    Ascii(name) + [0] + Uint32(1) + Uint64(length)
  }

  lemma SinglePrefixIsTranscript(name: Label, content: Bytes)
    ensures SinglePrefix(name, |content|) + content == TranscriptBytes(name, [content])
  {
    FramedSnoc([], content);
    assert [] + [content] == [content];
    assert Concat(Framed([content])) == Uint64(|content|) + content;
    Associative(Ascii(name) + [0] + Uint32(1), Uint64(|content|), content);
  }

  function FinalByte(final: bool): Bytes {
    [if final then 1 else 0]
  }

  function FrameParts(vaultId: Bytes, keyEpochId: Bytes, artifactId: Bytes, protection: Bytes,
                      total: nat, index: nat, final: bool, plaintextLength: nat, ciphertextLength: nat): seq<Bytes> {
    [vaultId, keyEpochId, artifactId, protection, Uint64(total), Uint32(index), FinalByte(final),
     Uint32(plaintextLength), Uint32(ciphertextLength)]
  }

  /** The runtime's frame AAD: a transcript of nine parts. */
  function FrameAad(name: Label, vaultId: Bytes, keyEpochId: Bytes, artifactId: Bytes, protection: Bytes,
                    total: nat, index: nat, final: bool, plaintextLength: nat, ciphertextLength: nat): Bytes {
    TranscriptBytes(name, FrameParts(vaultId, keyEpochId, artifactId, protection, total, index, final,
                                                   plaintextLength, ciphertextLength))
  }

  /** The browser writes the same AAD out as one list of byte strings. */
  function FrameAadByHand(name: Label, vaultId: Bytes, keyEpochId: Bytes, artifactId: Bytes, protection: Bytes,
                          total: nat, index: nat, final: bool, plaintextLength: nat, ciphertextLength: nat): Bytes {
    Concat([Ascii(name), [0], Uint32(9)] + [
      Uint64(|vaultId|), vaultId,
      Uint64(|keyEpochId|), keyEpochId,
      Uint64(|artifactId|), artifactId,
      Uint64(|protection|), protection,
      Uint64(8), Uint64(total),
      Uint64(4), Uint32(index),
      Uint64(1), FinalByte(final),
      Uint64(4), Uint32(plaintextLength),
      Uint64(4), Uint32(ciphertextLength)
    ])
  }

  lemma FramedCons(first: Bytes, rest: seq<Bytes>)
    ensures Framed([first] + rest) == [Uint64(|first|), first] + Framed(rest)
  {
    assert ([first] + rest)[1..] == rest;
  }

  lemma FrameAadsAgree(name: Label, vaultId: Bytes, keyEpochId: Bytes, artifactId: Bytes, protection: Bytes,
                       total: nat, index: nat, final: bool, plaintextLength: nat, ciphertextLength: nat)
    ensures FrameAadByHand(name, vaultId, keyEpochId, artifactId, protection, total, index, final,
                           plaintextLength, ciphertextLength)
         == FrameAad(name, vaultId, keyEpochId, artifactId, protection, total, index, final,
                     plaintextLength, ciphertextLength)
  {
    var parts := FrameParts(vaultId, keyEpochId, artifactId, protection, total, index, final,
                            plaintextLength, ciphertextLength);
    var head := [Ascii(name), [0], Uint32(9)];
    var framed := Framed(parts);
    NineFramed(parts);
    ConcatAppend(head, framed);
    HeadConcat(name);
  }

  lemma HeadConcat(name: Label)
    ensures Concat([Ascii(name), [0], Uint32(9)]) == Ascii(name) + [0] + Uint32(9)
  {
    var head := [Ascii(name), [0], Uint32(9)];
    assert head[1..] == [[0], Uint32(9)] && head[1..][1..] == [Uint32(9)];
    assert Concat([Uint32(9)]) == Uint32(9) + [] == Uint32(9);
    Associative(Ascii(name), [0], Uint32(9));
  }

  lemma NineFramed(p: seq<Bytes>)
    requires |p| == 9
    ensures Framed(p) == [
      Uint64(|p[0]|), p[0], Uint64(|p[1]|), p[1], Uint64(|p[2]|), p[2], Uint64(|p[3]|), p[3], Uint64(|p[4]|), p[4],
      Uint64(|p[5]|), p[5], Uint64(|p[6]|), p[6], Uint64(|p[7]|), p[7], Uint64(|p[8]|), p[8]]
  {
    assert p == [p[0], p[1], p[2]] + p[3..] && p[3..] == [p[3], p[4], p[5]] + p[6..];
    assert p[6..] == [p[6], p[7], p[8]] + [];
    ThreeFramed(p[0], p[1], p[2], p[3..]);
    ThreeFramed(p[3], p[4], p[5], p[6..]);
    ThreeFramed(p[6], p[7], p[8], []);
  }

  lemma ThreeFramed(a: Bytes, b: Bytes, c: Bytes, rest: seq<Bytes>)
    ensures Framed([a, b, c] + rest) == [Uint64(|a|), a, Uint64(|b|), b, Uint64(|c|), c] + Framed(rest)
  {
    assert [a, b, c] + rest == [a] + ([b] + ([c] + rest));
    FramedCons(a, [b] + ([c] + rest));
    FramedCons(b, [c] + rest);
    FramedCons(c, rest);
  }

  // ----- Incremental hashing -----

  /** The runtime's identity of a whole byte string: the digest of its one-part transcript. */
  function Identity(hash: Hash, name: Label, content: Bytes): Bytes {
    hash(TranscriptBytes(name, [content]))
  }

  /** What the browser's hasher gives for a declared length and the bytes that then arrive. */
  function ItemIdentity(hash: Hash, length: int, content: Bytes): Option<Bytes> {
    if 1 <= length <= MAX_SAFE_INTEGER && |content| == length
    then Some(Identity(hash, STORAGE_ITEM_ID, content)) else None
  }

  /**
   The Storage Item ID hasher: it is told the length first, counts what it is fed, and gives a
   digest once, when exactly that many bytes have arrived. `fed` is the input of SHA-256 so far.
   A refused update still counts, so nothing is accepted after it.
   */
  class IdentityHasher {
    const hash: Hash
    const envelopeByteLength: nat
    var fed: Bytes
    var observed: nat
    var finished: bool

    ghost predicate Valid()
      reads this
    {
      var head := SinglePrefix(STORAGE_ITEM_ID, envelopeByteLength);
      && |head| <= |fed| && fed[..|head|] == head
      && |Content()| <= observed && |Content()| <= envelopeByteLength
      && (observed <= envelopeByteLength ==> observed == |Content()|)
    }

    /** The accepted bytes. */
    ghost function Content(): Bytes
      requires |fed| >= |SinglePrefix(STORAGE_ITEM_ID, envelopeByteLength)|
      reads this
    {
      fed[|SinglePrefix(STORAGE_ITEM_ID, envelopeByteLength)|..]
    }

    constructor (hash: Hash, length: nat)
      ensures this.hash == hash && envelopeByteLength == length
      ensures Valid() && Content() == [] && observed == 0 && !finished
    {
      this.hash, envelopeByteLength := hash, length;
      fed := SinglePrefix(STORAGE_ITEM_ID, length);
      observed, finished := 0, false;
    }

    /** Refused after finalization, and when the declared length is exceeded. */
    method Update(bytes: Bytes) returns (ok: bool)
      requires Valid()
      modifies this
      ensures Valid() && finished == old(finished)
      ensures ok <==> !finished && old(observed) + |bytes| <= envelopeByteLength
      ensures observed == if finished then old(observed) else old(observed) + |bytes|
      ensures Content() == if ok then old(Content()) + bytes else old(Content())
    {
      if finished {
        return false;
      }
      observed := observed + |bytes|;
      if observed > envelopeByteLength {
        return false;
      }
      ghost var content := Content();
      ghost var head := SinglePrefix(STORAGE_ITEM_ID, envelopeByteLength);
      assert fed == head + content;
      FedContent(head, content, bytes);
      fed := fed + bytes;
      return true;
    }

    /** One digest, when exactly the declared bytes were accepted and nothing was refused. */
    method Digest() returns (digest: Option<Bytes>)
      requires Valid()
      modifies this`finished
      ensures Valid() && finished == (old(finished) || digest.Some?)
      ensures digest ==
        if !old(finished) && observed == envelopeByteLength
        then Some(Identity(hash, STORAGE_ITEM_ID, Content())) else None
    {
      if finished || observed != envelopeByteLength {
        return None;
      }
      SinglePrefixIsTranscript(STORAGE_ITEM_ID, Content());
      assert fed == SinglePrefix(STORAGE_ITEM_ID, envelopeByteLength) + Content();
      finished := true;
      return Some(hash(fed));
    }
  }

  lemma FedContent(head: Bytes, content: Bytes, bytes: Bytes)
    ensures (head + content + bytes)[..|head|] == head && (head + content + bytes)[|head|..] == content + bytes
  {}

  lemma ConcatOn(chunks: seq<Bytes>, i: nat)
    requires i < |chunks|
    ensures Concat(chunks[..i + 1]) == Concat(chunks[..i]) + chunks[i]
    ensures |Concat(chunks[..i + 1])| <= |Concat(chunks)|
  {
    ConcatSnoc(chunks[..i], chunks[i]);
    assert chunks[..i + 1] == chunks[..i] + [chunks[i]];
    ConcatAppend(chunks[..i + 1], chunks[i + 1..]);
    assert chunks == chunks[..i + 1] + chunks[i + 1..];
  }

  /**
   However the envelope is cut up, the hasher gives the digest of its transcript, or fails when the length is
   wrong.
   */
  method HashInPieces(hash: Hash, length: int, chunks: seq<Bytes>) returns (digest: Option<Bytes>)
    ensures digest == ItemIdentity(hash, length, Concat(chunks))
  {
    if length < 1 || length > MAX_SAFE_INTEGER {
      return None;
    }
    var hasher := new IdentityHasher(hash, length);
    for i := 0 to |chunks|
      invariant hasher.hash == hash && hasher.envelopeByteLength == length && hasher.Valid()
      invariant !hasher.finished && hasher.observed <= length && hasher.Content() == Concat(chunks[..i])
    {
      ConcatOn(chunks, i);
      var ok := hasher.Update(chunks[i]);
      if !ok {
        return None;
      }
    }
    assert chunks[..|chunks|] == chunks;
    digest := hasher.Digest();
  }
}
