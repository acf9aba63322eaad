/**
 The entries of a complete export: each body with a header that names its kind,
 identity, length and digest. Sorted, they form one byte sequence that depends on
 which entries there are and not on the order they were collected in.
 */
module ExportEntries {
  import opened ByteStrings
  import opened Sorting
  import opened Ciphers
  import opened Transcripts
  import Cbor

  const MANIFEST: nat := 1
  const OPAQUE: nat := 2
  const KEY_INVENTORY: nat := 3
  const METADATA_LIMIT: nat := 16 * 1024 * 1024

  datatype Header = Header(kind: Word, entryId: Identifier, byteLength: Word, byteDigest: Identifier)

  datatype Entry = Entry(header: Header, bytes: Slice)

  /** SHA-256, and which bytes decode as an opaque envelope. */
  datatype Context = Context(hash: Hash, decodable: Bytes -> bool)

  // ----- Headers -----

  predicate HeaderOk(kind: nat, byteLength: nat) {
    MANIFEST <= kind <= KEY_INVENTORY && (kind != OPAQUE ==> byteLength <= METADATA_LIMIT)
  }

  function HeaderValue(h: Header): (v: Cbor.Value)
    ensures Cbor.Valid(v)
  {
    var e := [Cbor.Entry(0, Cbor.UInt(h.kind)), Cbor.Entry(1, Cbor.ByteString(h.entryId)),
              Cbor.Entry(2, Cbor.UInt(h.byteLength)), Cbor.Entry(3, Cbor.ByteString(h.byteDigest))];
    assert Cbor.EntriesOk(e);
    Cbor.Map(e)
  }

  function EncodeEntryHeader(h: Header): Option<Bytes> {
    if HeaderOk(h.kind, h.byteLength) then Some(Cbor.Encode(HeaderValue(h))) else None
  }

  /** The four fields with their types. */
  function HeaderFields(v: Cbor.Value): Option<Header> {
    if !v.Map? || |v.entries| != 4 || exists i | 0 <= i < 4 :: v.entries[i].key != i then None
    else
      var e := v.entries;
      if !e[0].value.UInt? || !e[1].value.ByteString? || |e[1].value.b| != 32
         || !e[2].value.UInt? || !e[3].value.ByteString? || |e[3].value.b| != 32
         || e[0].value.n >= UINT64 || e[2].value.n >= UINT64
      then None
      else Some(Header(e[0].value.n, e[1].value.b, e[2].value.n, e[3].value.b))
  }

  function DecodeEntryHeader(decode: Cbor.Decoder, encoded: Bytes): Option<Header> {
    var v := decode(encoded);
    if v.None? || HeaderFields(v.value).None? then None
    else
      var h := HeaderFields(v.value).value;
      if EncodeEntryHeader(h) == Some(encoded) then Some(h) else None
  }

  lemma {:induction false} HeaderFieldsOf(h: Header)
    ensures HeaderFields(HeaderValue(h)) == Some(h)
  {
    var e := HeaderValue(h).entries;
    assert forall i | 0 <= i < 4 :: e[i].key == i;
  }

  /** Headers and their bytes correspond one to one: decoding undoes encoding and accepts nothing else. */
  lemma {:induction false} HeaderRoundTrip(decode: Cbor.Decoder, encoded: Bytes, h: Header)
    requires Cbor.Decodes(decode)
    ensures DecodeEntryHeader(decode, encoded) == Some(h) <==> EncodeEntryHeader(h) == Some(encoded)
  {
    if EncodeEntryHeader(h) == Some(encoded) {
      Cbor.DecodeEncode(HeaderValue(h));
      HeaderFieldsOf(h);
      assert decode(encoded) == Cbor.Decode(encoded);
    }
  }

  /** What any canonical decoder reads from the bytes of a header. */
  lemma {:induction false} HeaderReadsAs(decode: Cbor.Decoder, h: Header)
    requires Cbor.Decodes(decode) && EncodeEntryHeader(h).Some?
    ensures decode(EncodeEntryHeader(h).value) == Some(Cbor.Map([
      Cbor.Entry(0, Cbor.UInt(h.kind)), Cbor.Entry(1, Cbor.ByteString(h.entryId)),
      Cbor.Entry(2, Cbor.UInt(h.byteLength)), Cbor.Entry(3, Cbor.ByteString(h.byteDigest))]))
    ensures 1 <= h.kind <= 3 && (h.kind != 2 ==> h.byteLength <= 16_777_216)
  {
    Cbor.DecodeEncode(HeaderValue(h));
    var encoded := Cbor.Encode(HeaderValue(h));
    assert decode(encoded) == Cbor.Decode(encoded);
  }

  // ----- Identity -----

  function LabelOf(kind: nat): Label {
    if kind == OPAQUE then STORAGE_ITEM_ID else if kind == MANIFEST then MANIFEST_ENTRY_ID else KEY_INVENTORY_ENTRY_ID
  }

  /** `EntryIdentity`: the digest of a framing written out by hand. */
  function EntryIdentity(c: Context, kind: nat, byteLength: nat, body: Bytes): Bytes {
    c.hash(SinglePrefix(LabelOf(kind), byteLength) + body)
  }

  lemma {:induction false} EntryIdentityIsTranscript(c: Context, kind: nat, body: Bytes)
    ensures EntryIdentity(c, kind, |body|, body) == Identity(c.hash, LabelOf(kind), body)
  {
    SinglePrefixIsTranscript(LabelOf(kind), body);
  }

  /** `PrepareEntry`; decoding an opaque envelope gives it the identity of its transcript. */
  function PrepareEntry(c: Context, kind: Word, body: Slice): Option<Entry>
    requires Digests(c.hash)
  {
    if !HeaderOk(kind, |body|) || (kind == OPAQUE && !c.decodable(body)) then None
    else
      var id :=
        if kind == OPAQUE then Identity(c.hash, STORAGE_ITEM_ID, body) else EntryIdentity(c, kind, |body|, body);
      Some(Entry(Header(kind, id, |body|, c.hash(body)), body))
  }

  ghost predicate Prepared(c: Context, e: Entry) {
    Digests(c.hash) && PrepareEntry(c, e.header.kind, e.bytes) == Some(e)
  }

  // ----- Sorting -----

  /** The comparison of `SortEntriesByOpaqueID`. */
  predicate EntryLess(a: Entry, b: Entry) {
    if a.header.kind == OPAQUE && b.header.kind == OPAQUE then Less(a.header.entryId, b.header.entryId)
    else a.header.kind < b.header.kind
  }

  /** One Manifest, one Key Inventory, and opaque entries with distinct identities. */
  ghost predicate Collection(es: seq<Entry>) {
    && (exists i | 0 <= i < |es| :: es[i].header.kind == MANIFEST)
    && (exists i | 0 <= i < |es| :: es[i].header.kind == KEY_INVENTORY)
    && (forall i | 0 <= i < |es| :: MANIFEST <= es[i].header.kind <= KEY_INVENTORY)
    && (forall i, j | 0 <= i < j < |es| :: Apart(es[i].header, es[j].header))
  }

  predicate Apart(a: Header, b: Header) {
    a.kind != b.kind || (a.kind == OPAQUE && a.entryId != b.entryId)
  }

  lemma {:induction false} CollectionOrdered(es: seq<Entry>)
    requires Collection(es)
    ensures Distinct(es) && OrdersStrictly(EntryLess, Elements(es))
  {
    EntryLessCompares(Elements(es));
    forall a, b | a in Elements(es) && b in Elements(es) ensures a == b || EntryLess(a, b) || EntryLess(b, a) {
      LessTotal(a.header.entryId, b.header.entryId);
      assert exists i | 0 <= i < |es| :: es[i] == a;
      assert exists i | 0 <= i < |es| :: es[i] == b;
    }
    forall i, j | 0 <= i < j < |es| ensures es[i] != es[j] { assert Apart(es[i].header, es[j].header); }
  }

  /** Kinds first, identities among opaque entries: a comparison in which other entries of one kind tie. */
  lemma EntryLessCompares(elems: set<Entry>)
    ensures Compares(EntryLess, elems)
  {
    forall a | a in elems ensures !EntryLess(a, a) { LessIrreflexive(a.header.entryId); }
    forall a, b, c | a in elems && b in elems && c in elems && EntryLess(a, b) && EntryLess(b, c)
      ensures EntryLess(a, c)
    {
      if a.header.kind == OPAQUE && b.header.kind == OPAQUE && c.header.kind == OPAQUE {
        LessTransitive(a.header.entryId, b.header.entryId, c.header.entryId);
      }
    }
  }

  /** `SortEntriesByOpaqueID` rearranges the array so that no entry is below an earlier one. */
  method SortEntriesByOpaqueID(entries: array<Entry>)
    modifies entries
    ensures SortOf(EntryLess, old(entries[..]), entries[..])
  {
    ghost var was := entries[..];
    var i := entries.Length;
    assert entries[i..] == [] == was[i..];
    while i > 0
      invariant 0 <= i <= entries.Length
      invariant entries[..i] == was[..i] && entries[i..] == Sorted(EntryLess, was[i..])
    {
      i := i - 1;
      assert was[i..][1..] == was[i + 1..] && was[i..][0] == entries[i];
      SiftIn(entries, i);
      assert entries[..i] == was[..i];
    }
    assert entries[0..] == entries[..] && was[0..] == was;
    EntryLessCompares(Elements(was));
    SortedSorts(EntryLess, was, Elements(was));
  }

  /** Move the entry at `i` up past everything it is not below. */
  method SiftIn(entries: array<Entry>, i: nat)
    requires i < entries.Length
    modifies entries
    ensures entries[..i] == old(entries[..i])
    ensures entries[i..] == Insert(EntryLess, old(entries[i]), old(entries[i + 1..]))
  {
    var x := entries[i];
    ghost var was := entries[..];
    var j := i;
    while j + 1 < entries.Length && !EntryLess(x, entries[j + 1])
      invariant i <= j < entries.Length
      invariant forall k | 0 <= k < i :: entries[k] == was[k]
      invariant forall k | i <= k < j :: entries[k] == was[k + 1]
      invariant forall k | j < k < entries.Length :: entries[k] == was[k]
      invariant forall k | i < k <= j :: !EntryLess(x, was[k])
    {
      entries[j] := entries[j + 1];
      j := j + 1;
    }
    entries[j] := x;
    Sifted(EntryLess, was, i, j, entries[..]);
  }

  // ----- The sequence -----

  function EntryBytes(e: Entry): Bytes
    requires HeaderOk(e.header.kind, e.header.byteLength)
  {
    var header := Cbor.Encode(HeaderValue(e.header));
    Uint32(|header|) + header + e.bytes
  }

  ghost predicate HeadersOk(es: seq<Entry>) {
    forall i | 0 <= i < |es| :: HeaderOk(es[i].header.kind, es[i].header.byteLength)
  }

  ghost function SequenceBytes(es: seq<Entry>): Bytes
    requires HeadersOk(es)
  {
    if es == [] then [] else EntryBytes(es[0]) + SequenceBytes(es[1..])
  }

  /** The body is what the header says it is; an opaque header's own identity is not compared. */
  predicate Intact(c: Context, e: Entry) {
    && |e.bytes| == e.header.byteLength && c.hash(e.bytes) == e.header.byteDigest
    && if e.header.kind == OPAQUE then c.decodable(e.bytes)
       else EntryIdentity(c, e.header.kind, e.header.byteLength, e.bytes) == e.header.entryId
  }

  predicate Ends(es: seq<Entry>) {
    |es| >= 2 && es[0].header.kind == MANIFEST && es[|es| - 1].header.kind == KEY_INVENTORY
  }

  /** Between the ends there are only opaque entries, each with a larger identity than the one before. */
  predicate Placed(es: seq<Entry>, i: nat)
    requires i < |es|
  {
    0 < i < |es| - 1 ==>
      && es[i].header.kind == OPAQUE
      && (i > 1 ==> BigEndianValue(es[i - 1].header.entryId) < BigEndianValue(es[i].header.entryId))
  }

  predicate Acceptable(c: Context, es: seq<Entry>, i: nat)
    requires i < |es|
  {
    Placed(es, i) && Fit(c, es[i])
  }

  /** What is asked of an entry wherever it stands. */
  predicate Fit(c: Context, e: Entry) {
    HeaderOk(e.header.kind, e.header.byteLength) && Intact(c, e)
  }

  /** The Manifest, then opaque entries by strictly ascending identity, then the Key Inventory, all intact. */
  ghost predicate Sequenceable(c: Context, es: seq<Entry>) {
    Ends(es) && forall i | 0 <= i < |es| :: Acceptable(c, es, i)
  }

  lemma {:induction false} SequenceSnoc(es: seq<Entry>, e: Entry)
    requires HeadersOk(es) && HeaderOk(e.header.kind, e.header.byteLength)
    ensures HeadersOk(es + [e]) && SequenceBytes(es + [e]) == SequenceBytes(es) + EntryBytes(e)
  {
    if es == [] {
      assert es + [e] == [e] && [e][1..] == [];
      assert EntryBytes(e) + [] == EntryBytes(e) && [] + EntryBytes(e) == EntryBytes(e);
    } else {
      SequenceSnoc(es[1..], e);
      assert (es + [e])[1..] == es[1..] + [e] && (es + [e])[0] == es[0];
      Associative(EntryBytes(es[0]), SequenceBytes(es[1..]), EntryBytes(e));
    }
  }

  /** The body checks of one entry, in the source's order; the last one of an opaque entry cannot fail. */
  method CheckBody(c: Context, e: Entry) returns (ok: bool)
    ensures ok <==> Intact(c, e)
  {
    if |e.bytes| != e.header.byteLength || c.hash(e.bytes) != e.header.byteDigest {
      return false;
    }
    var identity := EntryIdentity(c, e.header.kind, e.header.byteLength, e.bytes);
    if e.header.kind == OPAQUE {
      EntryIdentityIsTranscript(c, OPAQUE, e.bytes);
      return c.decodable(e.bytes) && Identity(c.hash, STORAGE_ITEM_ID, e.bytes) == identity;
    }
    return identity == e.header.entryId;
  }

  /** The checks the loop makes on the entry at `i`; `previous` is the last opaque identity seen. */
  method CheckEntry(c: Context, entries: seq<Entry>, i: nat, previous: Option<Identifier>) returns (ok: bool)
    requires i < |entries| && Ends(entries)
    requires i < |entries| - 1 ==> previous == if i >= 2 then Some(entries[i - 1].header.entryId) else None
    ensures ok <==> Acceptable(c, entries, i)
  {
    var e, n := entries[i], |entries|;
    if previous.Some? { LessIffNumber(previous.value, e.header.entryId); }
    if EncodeEntryHeader(e.header).None?
       || (i > 0 && e.header.kind == MANIFEST) || (i < n - 1 && e.header.kind == KEY_INVENTORY)
       || (e.header.kind == OPAQUE && previous.Some? && !Less(previous.value, e.header.entryId))
    {
      return false;
    }
    ok := CheckBody(c, e);
  }

  ghost predicate Sequenced(c: Context, es: seq<Entry>, n: nat, written: Bytes)
    requires n <= |es|
  {
    && (forall j | 0 <= j < n :: Acceptable(c, es, j))
    && HeadersOk(es[..n]) && written == SequenceBytes(es[..n])
  }

  lemma {:induction false} SequenceOn(c: Context, es: seq<Entry>, i: nat, written: Bytes)
    requires i < |es| && Sequenced(c, es, i, written) && Acceptable(c, es, i)
    ensures Sequenced(c, es, i + 1, written + EntryBytes(es[i]))
  {
    BytesOn(es, i, written);
  }

  lemma {:induction false} BytesOn(es: seq<Entry>, i: nat, written: Bytes)
    requires i < |es| && HeadersOk(es[..i]) && written == SequenceBytes(es[..i])
    requires HeaderOk(es[i].header.kind, es[i].header.byteLength)
    ensures HeadersOk(es[..i + 1]) && written + EntryBytes(es[i]) == SequenceBytes(es[..i + 1])
  {
    SequenceSnoc(es[..i], es[i]);
    assert es[..i + 1] == es[..i] + [es[i]];
  }

  /** `SequenceEntries` accepts exactly the ordered, intact lists. */
  method SequenceEntries(c: Context, entries: seq<Entry>) returns (result: Option<Bytes>)
    ensures result.Some? <==> Sequenceable(c, entries)
    ensures result.Some? ==> HeadersOk(entries) && result.value == SequenceBytes(entries)
  {
    var n := |entries|;
    if n < 2 || entries[0].header.kind != MANIFEST || entries[n - 1].header.kind != KEY_INVENTORY {
      return None;
    }
    var previous: Option<Identifier> := None;
    var written: Bytes := [];
    assert entries[..0] == [];
    for i := 0 to n
      invariant Sequenced(c, entries, i, written)
      invariant i < n ==> previous == if i >= 2 then Some(entries[i - 1].header.entryId) else None
    {
      var e := entries[i];
      var ok := CheckEntry(c, entries, i, previous);
      if !ok {
        return None;
      }
      if e.header.kind == OPAQUE {
        previous := Some(e.header.entryId);
      }
      SequenceOn(c, entries, i, written);
      written := written + EntryBytes(e);
    }
    assert entries[..n] == entries;
    return Some(written);
  }

  // ----- Order does not show -----

  lemma {:induction false} PreparedIntact(c: Context, e: Entry)
    requires Prepared(c, e)
    ensures Fit(c, e)
  {}

  /** An intact entry is a prepared one except that an opaque header's identity goes unchecked. */
  lemma {:induction false} PreparedIff(c: Context, e: Entry)
    requires Digests(c.hash) && Fit(c, e)
    ensures Prepared(c, e) <==>
      (e.header.kind == OPAQUE ==> e.header.entryId == Identity(c.hash, STORAGE_ITEM_ID, e.bytes))
  {}

  /** An accepted list whose opaque header names any identity but its body's. */
  lemma {:induction false} ForgedIdentityAccepted(c: Context, m: Entry, k: Entry, body: Slice, id: Identifier)
    requires Prepared(c, m) && m.header.kind == MANIFEST && Prepared(c, k) && k.header.kind == KEY_INVENTORY
    requires c.decodable(body) && id != Identity(c.hash, STORAGE_ITEM_ID, body)
    ensures var forged := Entry(Header(OPAQUE, id, |body|, c.hash(body)), body);
      Sequenceable(c, [m, forged, k]) && !Prepared(c, forged)
  {
    PreparedIntact(c, m);
    PreparedIntact(c, k);
    ThreeSequence(c, m, Entry(Header(OPAQUE, id, |body|, c.hash(body)), body), k);
  }

  lemma {:induction false} ThreeSequence(c: Context, m: Entry, o: Entry, k: Entry)
    requires m.header.kind == MANIFEST && o.header.kind == OPAQUE && k.header.kind == KEY_INVENTORY
    requires Fit(c, m) && Fit(c, o) && Fit(c, k)
    ensures Sequenceable(c, [m, o, k])
  {
    var es := [m, o, k];
    assert Placed(es, 0) && Placed(es, 1) && Placed(es, 2);
  }

  lemma {:induction false} AscendingPlaced(sorted: seq<Entry>, p: nat, q: nat)
    requires OrdersStrictly(EntryLess, Elements(sorted)) && Ascending(EntryLess, sorted)
    requires forall i | 0 <= i < |sorted| :: MANIFEST <= sorted[i].header.kind <= KEY_INVENTORY
    requires p < |sorted| && sorted[p].header.kind == MANIFEST && q < |sorted| && sorted[q].header.kind == KEY_INVENTORY
    ensures Ends(sorted) && forall i | 0 <= i < |sorted| :: Placed(sorted, i)
  {
    var n := |sorted|;
    forall i, j | 0 <= i < j < n ensures EntryLess(sorted[i], sorted[j]) { AscendingPair(EntryLess, sorted, i, j); }
    PairsPlaced(sorted, p, q);
  }

  lemma {:induction false} PairsPlaced(sorted: seq<Entry>, p: nat, q: nat)
    requires forall i, j | 0 <= i < j < |sorted| :: EntryLess(sorted[i], sorted[j])
    requires forall i | 0 <= i < |sorted| :: MANIFEST <= sorted[i].header.kind <= KEY_INVENTORY
    requires p < |sorted| && sorted[p].header.kind == MANIFEST && q < |sorted| && sorted[q].header.kind == KEY_INVENTORY
    ensures Ends(sorted) && forall i | 0 <= i < |sorted| :: Placed(sorted, i)
  {
    var n := |sorted|;
    assert p > 0 ==> EntryLess(sorted[0], sorted[p]);
    assert q < n - 1 ==> EntryLess(sorted[q], sorted[n - 1]);
    forall i | 0 <= i < n ensures Placed(sorted, i) {
      assert 0 < i < n - 1 ==> EntryLess(sorted[0], sorted[i]) && EntryLess(sorted[i], sorted[n - 1]);
      if i > 1 {
        assert EntryLess(sorted[i - 1], sorted[i]);
        LessIffNumber(sorted[i - 1].header.entryId, sorted[i].header.entryId);
      }
    }
  }

  lemma {:induction false} SortedPlaces(es: seq<Entry>, sorted: seq<Entry>)
    requires Collection(es) && SortOf(EntryLess, es, sorted)
    ensures Ends(sorted) && forall i | 0 <= i < |sorted| :: Placed(sorted, i)
  {
    CollectionOrdered(es);
    SortAscends(EntryLess, es, sorted);
    forall k | 0 <= k < |sorted| ensures MANIFEST <= sorted[k].header.kind <= KEY_INVENTORY {
      assert sorted[k] in Elements(sorted);
    }
    var m :| 0 <= m < |es| && es[m].header.kind == MANIFEST;
    var l :| 0 <= l < |es| && es[l].header.kind == KEY_INVENTORY;
    assert es[m] in Elements(es) && es[l] in Elements(es);
    var p :| 0 <= p < |sorted| && sorted[p] == es[m];
    var q :| 0 <= q < |sorted| && sorted[q] == es[l];
    AscendingPlaced(sorted, p, q);
  }

  /**
   However prepared entries were collected, and whichever algorithm sorts them, the sorted list is the
   same and `SequenceEntries` accepts it.
   */
  lemma {:induction false} OrderBlind(c: Context, es: seq<Entry>, fs: seq<Entry>, sorted: seq<Entry>)
    requires Collection(es) && (forall i | 0 <= i < |es| :: Prepared(c, es[i]))
    requires multiset(fs) == multiset(es) && SortOf(EntryLess, fs, sorted)
    ensures sorted == Sorted(EntryLess, es) == Sorted(EntryLess, fs) && Sequenceable(c, sorted)
  {
    CollectionOrdered(es);
    SortedOnly(EntryLess, es, fs);
    SortedPlaces(es, sorted);
    SameMultiset(es, sorted);
    forall i | 0 <= i < |sorted| ensures Acceptable(c, sorted, i) {
      assert sorted[i] in Elements(es);
      PreparedIntact(c, sorted[i]);
    }
  }

  /** What an accepted list promises of each entry, in plain terms. */
  lemma {:induction false} AcceptedEntries(c: Context, es: seq<Entry>, i: nat)
    requires Sequenceable(c, es) && i < |es|
    ensures var e := es[i];
      && e.header.kind == (if i == 0 then 1 else if i == |es| - 1 then 3 else 2)
      && |e.bytes| == e.header.byteLength && e.header.byteDigest == c.hash(e.bytes)
      && (e.header.kind != 2 ==>
            && |e.bytes| <= 16_777_216
            && e.header.entryId ==
                 Identity(c.hash, if i == 0 then MANIFEST_ENTRY_ID else KEY_INVENTORY_ENTRY_ID, e.bytes))
      && (e.header.kind == 2 ==> c.decodable(e.bytes))
  {
    assert Acceptable(c, es, i);
    EntryIdentityIsTranscript(c, es[i].header.kind, es[i].bytes);
  }

  // ----- The sequence can be read back in one way only -----

  lemma {:induction false} EntryPrefixFree(e: Entry, f: Entry, s: Bytes, t: Bytes)
    requires HeaderOk(e.header.kind, e.header.byteLength) && HeaderOk(f.header.kind, f.header.byteLength)
    requires |e.bytes| == e.header.byteLength && |f.bytes| == f.header.byteLength
    requires EntryBytes(e) + s == EntryBytes(f) + t
    ensures e == f && s == t
  {
    var g, h := Cbor.Encode(HeaderValue(e.header)), Cbor.Encode(HeaderValue(f.header));
    HeaderShort(e.header);
    HeaderShort(f.header);
    FourParts(Uint32(|g|), g, e.bytes, s);
    FourParts(Uint32(|h|), h, f.bytes, t);
    SplitEqual(Uint32(|g|), Uint32(|h|), g + (e.bytes + s), h + (f.bytes + t));
    Uint32RoundTrip(|g|);
    Uint32RoundTrip(|h|);
    SplitEqual(g, h, e.bytes + s, f.bytes + t);
    Cbor.EncodeInjective(HeaderValue(e.header), HeaderValue(f.header));
    HeaderFieldsOf(e.header);
    HeaderFieldsOf(f.header);
    SplitEqual(e.bytes, f.bytes, s, t);
  }

  lemma {:induction false} FourParts(a: Bytes, b: Bytes, c: Bytes, d: Bytes)
    ensures a + b + c + d == a + (b + (c + d))
  {}

  lemma {:induction false} HeaderShort(h: Header)
    ensures |Cbor.Encode(HeaderValue(h))| < UINT32
  {
    var v := HeaderValue(h);
    forall i | 0 <= i < 4 ensures Cbor.Valid(v.entries[i].value) && |Cbor.Encode(v.entries[i].value)| <= 41 {}
    Cbor.EntriesBound(v.entries, 41);
  }

  lemma {:induction false} SequenceInjective(es: seq<Entry>, fs: seq<Entry>)
    requires HeadersOk(es) && HeadersOk(fs)
    requires forall i | 0 <= i < |es| :: |es[i].bytes| == es[i].header.byteLength
    requires forall i | 0 <= i < |fs| :: |fs[i].bytes| == fs[i].header.byteLength
    requires SequenceBytes(es) == SequenceBytes(fs)
    ensures es == fs
  {
    if es != [] && fs != [] {
      EntryPrefixFree(es[0], fs[0], SequenceBytes(es[1..]), SequenceBytes(fs[1..]));
      SequenceInjective(es[1..], fs[1..]);
      assert es == [es[0]] + es[1..] && fs == [fs[0]] + fs[1..];
    }
  }

  /** Two accepted lists with the same bytes are the same list. */
  lemma {:induction false} UniquelyDecodable(c: Context, es: seq<Entry>, fs: seq<Entry>)
    requires Sequenceable(c, es) && Sequenceable(c, fs) && HeadersOk(es) && HeadersOk(fs)
    requires SequenceBytes(es) == SequenceBytes(fs)
    ensures es == fs
  {
    forall i | 0 <= i < |es| ensures |es[i].bytes| == es[i].header.byteLength { assert Acceptable(c, es, i); }
    forall i | 0 <= i < |fs| ensures |fs[i].bytes| == fs[i].header.byteLength { assert Acceptable(c, fs, i); }
    SequenceInjective(es, fs);
  }
}
