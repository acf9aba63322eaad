/**
 Feature Manifests and Required Feature Sets. A manifest's set-valued fields are
 put in canonical order before encoding, a set's manifests are ordered by content
 address: the bytes and the identity depend on the sets alone.
 */
module FeatureSets {
  import opened ByteStrings
  import opened Sorting
  import opened Ciphers
  import opened Transcripts
  import Cbor

  datatype Input = Input(featureKey: Slice, revision: Word, parameters: Slice,
                         requiredIds: List<Identifier>, incompatibleKeys: List<Slice>)

  datatype Manifest = Manifest(input: Input, bytes: Slice, id: Bytes)

  /** SHA-256 and the canonical CBOR decoder. */
  datatype Context = Context(hash: Hash, decode: Cbor.Decoder)

  // ----- Scoped keys -----

  predicate Lower(b: Byte) { 0x61 <= b <= 0x7a }

  predicate Alphanumeric(b: Byte) { Lower(b) || 0x30 <= b <= 0x39 }

  /** `.`, `_` and `-` */
  predicate Separator(b: Byte) { b == 0x2e || b == 0x5f || b == 0x2d }

  /** `validateScopedKey`: dotted lower-case words, with no two separators in a row. */
  predicate ScopedKey(k: Bytes) {
    && 0 < |k| <= 128 && 0x2e in k && Lower(k[0]) && Alphanumeric(k[|k| - 1])
    && (forall i | 0 <= i < |k| :: Alphanumeric(k[i]) || Separator(k[i]))
    && (forall i | 0 < i < |k| :: !SeparatorsAt(k, i))
  }

  const SEPARATOR_PAIRS: seq<Bytes> := [
    [0x2e, 0x2e], [0x2e, 0x5f], [0x2e, 0x2d], [0x5f, 0x2e], [0x5f, 0x2d],
    [0x2d, 0x2e], [0x2d, 0x5f], [0x5f, 0x5f], [0x2d, 0x2d]]

  predicate PairAt(k: Bytes, i: int, pair: Bytes) {
    0 < i < |k| && [k[i - 1], k[i]] == pair
  }

  predicate SeparatorsAt(k: Bytes, i: int) {
    0 < i < |k| && Separator(k[i - 1]) && Separator(k[i])
  }

  /** `strings.Contains` for a pair of bytes. */
  predicate ContainsPair(k: Bytes, pair: Bytes) {
    exists i | 0 < i < |k| :: PairAt(k, i, pair)
  }

  /** The nine pairs are all there is of two separators in a row. */
  lemma {:induction false} PairsOfSeparators(x: Byte, y: Byte)
    ensures [x, y] in SEPARATOR_PAIRS <==> Separator(x) && Separator(y)
  {
    var p := SEPARATOR_PAIRS;
    assert p[0] == [0x2e, 0x2e] && p[1] == [0x2e, 0x5f] && p[2] == [0x2e, 0x2d] && p[3] == [0x5f, 0x2e];
    assert p[4] == [0x5f, 0x2d] && p[5] == [0x2d, 0x2e] && p[6] == [0x2d, 0x5f];
    assert p[7] == [0x5f, 0x5f] && p[8] == [0x2d, 0x2d];
    if [x, y] in p {
      var i :| 0 <= i < 9 && p[i] == [x, y];
      assert x == p[i][0] && y == p[i][1];
    }
  }

  /** Containing one of the pairs is having two separators in a row. */
  lemma {:induction false} PairsIff(value: Bytes)
    ensures (exists m | 0 <= m < |SEPARATOR_PAIRS| :: ContainsPair(value, SEPARATOR_PAIRS[m])) <==>
      exists i | 0 < i < |value| :: SeparatorsAt(value, i)
  {
    forall m | 0 <= m < |SEPARATOR_PAIRS| && ContainsPair(value, SEPARATOR_PAIRS[m])
      ensures exists i | 0 < i < |value| :: SeparatorsAt(value, i)
    {
      var i :| 0 < i < |value| && PairAt(value, i, SEPARATOR_PAIRS[m]);
      PairsOfSeparators(value[i - 1], value[i]);
      assert SeparatorsAt(value, i);
    }
    forall i | 0 < i < |value| && SeparatorsAt(value, i)
      ensures exists m | 0 <= m < |SEPARATOR_PAIRS| :: ContainsPair(value, SEPARATOR_PAIRS[m])
    {
      PairsOfSeparators(value[i - 1], value[i]);
      var m :| 0 <= m < |SEPARATOR_PAIRS| && SEPARATOR_PAIRS[m] == [value[i - 1], value[i]];
      assert PairAt(value, i, SEPARATOR_PAIRS[m]);
      assert ContainsPair(value, SEPARATOR_PAIRS[m]);
    }
  }

  method HasSeparatorPair(value: Bytes) returns (found: bool)
    ensures found <==> exists i | 0 < i < |value| :: SeparatorsAt(value, i)
  {
    PairsIff(value);
    for n := 0 to |SEPARATOR_PAIRS|
      invariant forall m | 0 <= m < n :: !ContainsPair(value, SEPARATOR_PAIRS[m])
    {
      if ContainsPair(value, SEPARATOR_PAIRS[n]) {
        return true;
      }
    }
    return false;
  }

  method ValidateScopedKey(value: Bytes) returns (ok: bool)
    ensures ok <==> ScopedKey(value)
  {
    if |value| == 0 || |value| > 128 || 0x2e !in value {
      return false;
    }
    for i := 0 to |value|
      invariant forall j | 0 <= j < i :: Alphanumeric(value[j]) || Separator(value[j])
      invariant i > 0 ==> Lower(value[0])
    {
      var b := value[i];
      if b > 0x7f || (i == 0 && !Lower(b)) || !(Alphanumeric(b) || Separator(b)) {
        return false;
      }
    }
    var adjacent := HasSeparatorPair(value);
    if adjacent {
      return false;
    }
    return Alphanumeric(value[|value| - 1]);
  }

  /** Words of letters and digits with single separators between them. */
  predicate Words(k: Bytes) {
    && k != [] && Alphanumeric(k[0])
    && (|k| > 1 ==> if Separator(k[1]) then Words(k[2..]) else Words(k[1..]))
  }

  predicate Separated(k: Bytes) {
    && k != [] && Alphanumeric(k[0]) && Alphanumeric(k[|k| - 1])
    && (forall i | 0 <= i < |k| :: Alphanumeric(k[i]) || Separator(k[i]))
    && (forall i | 0 < i < |k| :: !SeparatorsAt(k, i))
  }

  lemma {:induction false} SeparatedTail(k: Bytes, n: nat)
    requires 0 < n < |k| && Separated(k) && Alphanumeric(k[n])
    ensures Separated(k[n..])
  {
    forall i | 0 < i < |k| - n ensures !SeparatorsAt(k[n..], i) { assert !SeparatorsAt(k, n + i); }
  }

  lemma {:induction false} SeparatedFront(front: Bytes, k: Bytes)
    requires Separated(k) && (|front| == 1 || (|front| == 2 && Separator(front[1]))) && Alphanumeric(front[0])
    ensures Separated(front + k)
  {
    var all, n := front + k, |front|;
    assert all[|all| - 1] == k[|k| - 1] && all[n] == k[0];
    forall i | 0 <= i < |all| ensures Alphanumeric(all[i]) || Separator(all[i]) {
      if i >= n { assert all[i] == k[i - n]; }
    }
    forall i | 0 < i < |all| ensures !SeparatorsAt(all, i) {
      if i > n { assert !SeparatorsAt(k, i - n); }
    }
  }

  lemma {:induction false} WordsIff(k: Bytes)
    ensures Words(k) <==> Separated(k)
  {
    if |k| > 1 {
      var n := if Separator(k[1]) then 2 else 1;
      WordsIff(k[n..]);
      assert k == k[..n] + k[n..];
      if Separated(k) {
        assert !SeparatorsAt(k, 1) && (n < |k| ==> !SeparatorsAt(k, n));
        assert n < |k|;
        SeparatedTail(k, n);
      } else if Words(k) {
        SeparatedFront(k[..n], k[n..]);
      }
    }
  }

  /** A scoped key is two runs of words with a dot between them, at most 128 bytes that begin with a letter. */
  lemma {:induction false} ScopedKeyIff(k: Bytes)
    ensures ScopedKey(k) <==>
      |k| <= 128 && exists d | 0 < d < |k| :: k[d] == 0x2e && Lower(k[0]) && Words(k[..d]) && Words(k[d + 1..])
  {
    if ScopedKey(k) {
      var d :| 0 <= d < |k| && k[d] == 0x2e;
      assert Separated(k) && !SeparatorsAt(k, d) && !SeparatorsAt(k, d + 1);
      SeparatedTail(k, d + 1);
      SeparatedHead(k, d);
      WordsIff(k[..d]);
      WordsIff(k[d + 1..]);
    }
    forall d | 0 < d < |k| && k[d] == 0x2e && Lower(k[0]) && Words(k[..d]) && Words(k[d + 1..]) && |k| <= 128
      ensures ScopedKey(k)
    {
      WordsIff(k[..d]);
      WordsIff(k[d + 1..]);
      SeparatedJoin(k, d);
    }
  }

  lemma {:induction false} SeparatedHead(k: Bytes, n: nat)
    requires 0 < n < |k| && Separated(k) && Alphanumeric(k[n - 1])
    ensures Separated(k[..n])
  {
    forall i | 0 < i < n ensures !SeparatorsAt(k[..n], i) { assert !SeparatorsAt(k, i); }
  }

  lemma {:induction false} SeparatedJoin(k: Bytes, d: nat)
    requires 0 < d < |k| && Separator(k[d]) && Separated(k[..d]) && Separated(k[d + 1..])
    ensures Separated(k)
  {
    var a, b := k[..d], k[d + 1..];
    assert k[0] == a[0] && k[d - 1] == a[d - 1] && k[d + 1] == b[0] && k[|k| - 1] == b[|b| - 1];
    forall i | 0 <= i < |k| ensures Alphanumeric(k[i]) || Separator(k[i]) {
      if i < d { assert k[i] == a[i]; } else if i > d { assert k[i] == b[i - d - 1]; }
    }
    forall i | 0 < i < |k| ensures !SeparatorsAt(k, i) {
      if i < d { assert !SeparatorsAt(a, i); } else if i > d + 1 { assert !SeparatorsAt(b, i - d - 1); }
    }
  }

  // ----- One manifest -----

  predicate InputOk(i: Input) {
    && ScopedKey(i.featureKey) && i.revision <= MAX_SAFE_INTEGER
    && Distinct(i.requiredIds)
    && (forall k | k in i.incompatibleKeys :: ScopedKey(k)) && Distinct(i.incompatibleKeys)
  }

  predicate IdLess(a: Identifier, b: Identifier) { Less(a, b) }

  /** Keys are ordered by their encodings. */
  predicate KeyLess(a: Slice, b: Slice) { Less(Cbor.Encode(Cbor.Text(a)), Cbor.Encode(Cbor.Text(b))) }

  function Normalize(i: Input): Input {
    i.(requiredIds := Sorted(IdLess, i.requiredIds), incompatibleKeys := Sorted(KeyLess, i.incompatibleKeys))
  }

  function IdItems(ids: seq<Identifier>): (vs: seq<Cbor.Value>)
    ensures |vs| == |ids| && forall k | 0 <= k < |ids| :: vs[k] == Cbor.ByteString(ids[k])
  {
    seq(|ids|, k requires 0 <= k < |ids| => Cbor.ByteString(ids[k]))
  }

  function KeyItems(keys: seq<Slice>): (vs: seq<Cbor.Value>)
    ensures |vs| == |keys| && forall k | 0 <= k < |keys| :: vs[k] == Cbor.Text(keys[k])
  {
    seq(|keys|, k requires 0 <= k < |keys| => Cbor.Text(keys[k]))
  }

  function ManifestValue(i: Input): (v: Cbor.Value)
    ensures Cbor.Valid(v)
  {
    var e := [Cbor.Entry(0, Cbor.Text(i.featureKey)), Cbor.Entry(1, Cbor.UInt(i.revision)),
              Cbor.Entry(2, Cbor.ByteString(i.parameters)), Cbor.Entry(3, Cbor.Array(IdItems(i.requiredIds))),
              Cbor.Entry(4, Cbor.Array(KeyItems(i.incompatibleKeys)))];
    assert Cbor.EntriesOk(e);
    Cbor.Map(e)
  }

  /** `EncodeFeatureManifest`; bytes that no Go slice could hold are counted as a failure. */
  function EncodeFeatureManifest(i: Input): Option<Slice> {
    if !InputOk(i) then None
    else
      var encoded := Cbor.Encode(ManifestValue(Normalize(i)));
      if |encoded| < UINT64 then Some(encoded) else None
  }

  predicate IdsTyped(v: Cbor.Value) {
    v.Array? && |v.items| < UINT64 && forall k | 0 <= k < |v.items| :: v.items[k].ByteString? && |v.items[k].b| == 32
  }

  predicate KeysTyped(v: Cbor.Value) {
    v.Array? && |v.items| < UINT64 && forall k | 0 <= k < |v.items| :: v.items[k].Text? && |v.items[k].t| < UINT64
  }

  /** The five fields with their types. */
  function Fields(v: Cbor.Value): Option<Input> {
    if !v.Map? || |v.entries| != 5 || exists i | 0 <= i < 5 :: v.entries[i].key != i then None
    else
      var e := v.entries;
      if !e[0].value.Text? || |e[0].value.t| >= UINT64 || !e[1].value.UInt? || e[1].value.n >= UINT64
         || !e[2].value.ByteString? || |e[2].value.b| >= UINT64 || !IdsTyped(e[3].value) || !KeysTyped(e[4].value)
      then None
      else
        var ids, keys := e[3].value.items, e[4].value.items;
        Some(Input(e[0].value.t, e[1].value.n, e[2].value.b,
                   seq(|ids|, k requires 0 <= k < |ids| => ids[k].b),
                   seq(|keys|, k requires 0 <= k < |keys| => keys[k].t)))
  }

  function DecodeFeatureManifest(c: Context, encoded: Slice): Option<Manifest> {
    var v := c.decode(encoded);
    if v.None? || Fields(v.value).None? then None
    else
      var i := Fields(v.value).value;
      if !InputOk(i) || EncodeFeatureManifest(i) != Some(encoded) then None
      else Some(Manifest(i, encoded, Identity(c.hash, FEATURE_MANIFEST_ID, encoded)))
  }

  // ----- Normal form -----

  lemma {:induction false} IdsOrdered(elems: set<Identifier>)
    ensures OrdersStrictly(IdLess, elems)
  {
    forall a | a in elems ensures !IdLess(a, a) { LessIrreflexive(a); }
    forall a, b, c | a in elems && b in elems && c in elems && IdLess(a, b) && IdLess(b, c) ensures IdLess(a, c) {
      LessTransitive(a, b, c);
    }
    forall a, b | a in elems && b in elems ensures a == b || IdLess(a, b) || IdLess(b, a) { LessTotal(a, b); }
  }

  lemma {:induction false} KeysOrdered(elems: set<Slice>)
    ensures OrdersStrictly(KeyLess, elems)
  {
    forall a | a in elems ensures !KeyLess(a, a) { LessIrreflexive(Cbor.Encode(Cbor.Text(a))); }
    forall a, b, c | a in elems && b in elems && c in elems && KeyLess(a, b) && KeyLess(b, c) ensures KeyLess(a, c) {
      LessTransitive(Cbor.Encode(Cbor.Text(a)), Cbor.Encode(Cbor.Text(b)), Cbor.Encode(Cbor.Text(c)));
    }
    forall a, b | a in elems && b in elems ensures a == b || KeyLess(a, b) || KeyLess(b, a) {
      LessTotal(Cbor.Encode(Cbor.Text(a)), Cbor.Encode(Cbor.Text(b)));
      if Cbor.Encode(Cbor.Text(a)) == Cbor.Encode(Cbor.Text(b)) { Cbor.EncodeInjective(Cbor.Text(a), Cbor.Text(b)); }
    }
  }

  lemma {:induction false} IdsIncrease(ids: seq<Identifier>)
    ensures Ascending(IdLess, ids) <==> Increasing(ids)
  {
    forall k | 0 < k < |ids|
      ensures IdLess(ids[k - 1], ids[k]) <==> BigEndianValue(ids[k - 1]) < BigEndianValue(ids[k])
    {
      LessIffNumber(ids[k - 1], ids[k]);
    }
  }

  /** The same manifest up to the order of its set-valued fields. */
  ghost predicate SameSets(i: Input, j: Input) {
    && i.featureKey == j.featureKey && i.revision == j.revision && i.parameters == j.parameters
    && multiset(i.requiredIds) == multiset(j.requiredIds)
    && multiset(i.incompatibleKeys) == multiset(j.incompatibleKeys)
  }

  lemma {:induction false} SameSetsOk(i: Input, j: Input)
    requires SameSets(i, j)
    ensures InputOk(i) <==> InputOk(j)
  {
    SameMultiset(i.requiredIds, j.requiredIds);
    SameMultiset(j.requiredIds, i.requiredIds);
    SameMultiset(i.incompatibleKeys, j.incompatibleKeys);
    SameMultiset(j.incompatibleKeys, i.incompatibleKeys);
    forall k ensures k in i.incompatibleKeys <==> k in j.incompatibleKeys {
      assert k in i.incompatibleKeys <==> k in multiset(i.incompatibleKeys);
      assert k in j.incompatibleKeys <==> k in multiset(j.incompatibleKeys);
    }
  }

  /** Inputs have one normal form exactly when they differ only in order; it is in order and stays put. */
  lemma {:induction false} NormalForm(i: Input, j: Input)
    requires InputOk(i) && InputOk(j)
    ensures Normalize(i) == Normalize(j) <==> SameSets(i, j)
    ensures SameSets(i, Normalize(i)) && InputOk(Normalize(i)) && Normalize(Normalize(i)) == Normalize(i)
    ensures Ascending(IdLess, Normalize(i).requiredIds) && Increasing(Normalize(i).requiredIds)
    ensures Ascending(KeyLess, Normalize(i).incompatibleKeys)
  {
    IdsOrdered(Elements(i.requiredIds));
    IdsOrdered(Elements(j.requiredIds));
    KeysOrdered(Elements(i.incompatibleKeys));
    KeysOrdered(Elements(j.incompatibleKeys));
    SortedOnly(IdLess, i.requiredIds, i.requiredIds);
    SortedOnly(IdLess, j.requiredIds, j.requiredIds);
    SortedOnly(KeyLess, i.incompatibleKeys, i.incompatibleKeys);
    SortedOnly(KeyLess, j.incompatibleKeys, j.incompatibleKeys);
    SameSetsOk(i, Normalize(i));
    IdsIncrease(Normalize(i).requiredIds);
    SortedOnly(IdLess, i.requiredIds, Normalize(i).requiredIds);
    SortedOnly(KeyLess, i.incompatibleKeys, Normalize(i).incompatibleKeys);
    if SameSets(i, j) {
      SortedOnly(IdLess, i.requiredIds, j.requiredIds);
      SortedOnly(KeyLess, i.incompatibleKeys, j.incompatibleKeys);
    }
  }

  lemma {:induction false} FieldsOf(i: Input)
    ensures Fields(ManifestValue(i)) == Some(i)
  {
    var e := ManifestValue(i).entries;
    assert forall k | 0 <= k < 5 :: e[k].key == k;
    var ids, keys := e[3].value.items, e[4].value.items;
    assert seq(|ids|, k requires 0 <= k < |ids| => ids[k].b) == i.requiredIds;
    assert seq(|keys|, k requires 0 <= k < |keys| => keys[k].t) == i.incompatibleKeys;
  }

  /** Manifests have the same bytes exactly when they differ only in the order of their sets. */
  lemma {:induction false} EncodedAlikeIff(i: Input, j: Input)
    requires EncodeFeatureManifest(i).Some? && InputOk(j)
    ensures EncodeFeatureManifest(i) == EncodeFeatureManifest(j) <==> SameSets(i, j)
  {
    NormalForm(i, j);
    if EncodeFeatureManifest(i) == EncodeFeatureManifest(j) {
      Cbor.EncodeInjective(ManifestValue(Normalize(i)), ManifestValue(Normalize(j)));
      FieldsOf(Normalize(i));
      FieldsOf(Normalize(j));
    }
  }

  lemma {:induction false} EncodedAlike(i: Input, j: Input)
    requires SameSets(i, j)
    ensures EncodeFeatureManifest(i) == EncodeFeatureManifest(j)
  {
    SameSetsOk(i, j);
    if InputOk(i) { NormalForm(i, j); }
  }

  /** The manifest an input stands for: its normal form, its bytes, its content address. */
  function ManifestOf(c: Context, i: Input): Manifest
    requires EncodeFeatureManifest(i).Some?
  {
    var encoded := EncodeFeatureManifest(i).value;
    Manifest(Normalize(i), encoded, Identity(c.hash, FEATURE_MANIFEST_ID, encoded))
  }

  /** Decoding returns the sorted form of what was encoded, and accepts nothing else. */
  lemma {:induction false} DecodeManifestExact(c: Context, encoded: Slice)
    requires Cbor.Decodes(c.decode)
    ensures forall i | EncodeFeatureManifest(i) == Some(encoded) ::
      DecodeFeatureManifest(c, encoded) == Some(ManifestOf(c, i))
    ensures DecodeFeatureManifest(c, encoded).Some? ==>
      var m := DecodeFeatureManifest(c, encoded).value;
      EncodeFeatureManifest(m.input) == Some(encoded) && m == ManifestOf(c, m.input)
  {
    forall i | EncodeFeatureManifest(i) == Some(encoded)
      ensures DecodeFeatureManifest(c, encoded) == Some(ManifestOf(c, i))
    {
      DecodeOne(c, i);
    }
    if DecodeFeatureManifest(c, encoded).Some? {
      var i := DecodeFeatureManifest(c, encoded).value.input;
      DecodeOne(c, i);
    }
  }

  lemma {:induction false} DecodeOne(c: Context, i: Input)
    requires Cbor.Decodes(c.decode) && EncodeFeatureManifest(i).Some?
    ensures DecodeFeatureManifest(c, EncodeFeatureManifest(i).value) == Some(ManifestOf(c, i))
    ensures EncodeFeatureManifest(Normalize(i)) == EncodeFeatureManifest(i)
    ensures ManifestOf(c, Normalize(i)) == ManifestOf(c, i)
  {
    var encoded := EncodeFeatureManifest(i).value;
    NormalForm(i, i);
    var v := ManifestValue(Normalize(i));
    Cbor.DecodeEncode(v);
    assert c.decode(encoded) == Cbor.Decode(encoded) == Some(v);
    FieldsOf(Normalize(i));
  }

  /** What any canonical decoder reads from the bytes of a manifest. */
  lemma {:induction false} ManifestReadsAs(c: Context, i: Input)
    requires Cbor.Decodes(c.decode) && EncodeFeatureManifest(i).Some?
    ensures var n := Normalize(i);
      c.decode(EncodeFeatureManifest(i).value) == Some(Cbor.Map([
        Cbor.Entry(0, Cbor.Text(n.featureKey)), Cbor.Entry(1, Cbor.UInt(n.revision)),
        Cbor.Entry(2, Cbor.ByteString(n.parameters)), Cbor.Entry(3, Cbor.Array(IdItems(n.requiredIds))),
        Cbor.Entry(4, Cbor.Array(KeyItems(n.incompatibleKeys)))]))
  {
    var v := ManifestValue(Normalize(i));
    Cbor.DecodeEncode(v);
    assert c.decode(Cbor.Encode(v)) == Cbor.Decode(Cbor.Encode(v));
  }

  // ----- Sets -----

  ghost predicate AllEncodable(inputs: seq<Input>) {
    forall k | 0 <= k < |inputs| :: EncodeFeatureManifest(inputs[k]).Some?
  }

  function ManifestsOf(c: Context, inputs: seq<Input>): (ms: seq<Manifest>)
    requires AllEncodable(inputs)
    ensures |ms| == |inputs| && forall k | 0 <= k < |inputs| :: ms[k] == ManifestOf(c, inputs[k])
  {
    seq(|inputs|, k requires 0 <= k < |inputs| => ManifestOf(c, inputs[k]))
  }

  predicate Apart(a: Manifest, b: Manifest) {
    a.input.featureKey != b.input.featureKey && a.id != b.id
  }

  /** What `m` requires is there and what it excludes is not. */
  ghost predicate Satisfied(m: Manifest, ms: set<Manifest>) {
    && (forall r | r in m.input.requiredIds :: exists n | n in ms :: n.id == r)
    && (forall k | k in m.input.incompatibleKeys :: forall n | n in ms :: n.input.featureKey != k)
  }

  /** No key and no manifest twice, and every reference satisfied. */
  ghost predicate Closure(ms: seq<Manifest>) {
    && Pairwise(Apart, ms)
    && (forall i | 0 <= i < |ms| :: Satisfied(ms[i], Elements(ms)))
  }

  predicate ById(a: Manifest, b: Manifest) { Less(a.id, b.id) }

  /** The validated set of a list of inputs, in order of content address. */
  ghost function FeatureSet(c: Context, inputs: seq<Input>): Option<seq<Manifest>> {
    if AllEncodable(inputs) && Closure(ManifestsOf(c, inputs)) then Some(Sorted(ById, ManifestsOf(c, inputs))) else None
  }

  lemma {:induction false} ClosureOrdered(ms: seq<Manifest>)
    requires Closure(ms)
    ensures Distinct(ms) && OrdersStrictly(ById, Elements(ms))
  {
    forall a | a in Elements(ms) ensures !ById(a, a) { LessIrreflexive(a.id); }
    forall a, b, c | a in Elements(ms) && b in Elements(ms) && c in Elements(ms) && ById(a, b) && ById(b, c)
      ensures ById(a, c)
    { LessTransitive(a.id, b.id, c.id); }
    forall a, b | a in Elements(ms) && b in Elements(ms) ensures a == b || ById(a, b) || ById(b, a) {
      LessTotal(a.id, b.id);
      assert exists i | 0 <= i < |ms| :: ms[i] == a;
      assert exists i | 0 <= i < |ms| :: ms[i] == b;
    }
    forall i, j | 0 <= i < j < |ms| ensures ms[i] != ms[j] { assert Apart(ms[i], ms[j]); }
  }

  lemma {:induction false} ClosurePermuted(ms: seq<Manifest>, ns: seq<Manifest>)
    requires Closure(ms) && multiset(ms) == multiset(ns)
    ensures Closure(ns)
  {
    SameMultiset(ms, ns);
    PairwisePermuted(Apart, ms, ns);
    forall i | 0 <= i < |ns| ensures Satisfied(ns[i], Elements(ns)) {
      assert ns[i] in Elements(ms);
    }
  }

  /** Sorting leaves a closure one, and there is only one result. */
  lemma {:induction false} SetOfPermuted(ms: seq<Manifest>, ns: seq<Manifest>)
    requires multiset(ms) == multiset(ns)
    ensures Closure(ms) <==> Closure(ns)
    ensures Closure(ms) ==>
      && Sorted(ById, ms) == Sorted(ById, ns) && Ascending(ById, Sorted(ById, ms))
      && Closure(Sorted(ById, ms)) && Sorted(ById, Sorted(ById, ms)) == Sorted(ById, ms)
      && multiset(Sorted(ById, ms)) == multiset(ms)
  {
    if Closure(ms) { ClosurePermuted(ms, ns); }
    if Closure(ns) { ClosurePermuted(ns, ms); }
    if Closure(ms) {
      ClosureOrdered(ms);
      SortedOnly(ById, ms, ns);
      ClosurePermuted(ms, Sorted(ById, ms));
      SortedOnly(ById, ms, Sorted(ById, ms));
    }
  }

  // ----- Order does not show -----

  lemma {:induction false} PermutedInputs(c: Context, inputs: seq<Input>, others: seq<Input>)
    requires multiset(inputs) == multiset(others)
    ensures FeatureSet(c, inputs) == FeatureSet(c, others)
  {
    SameMultiset(inputs, others);
    forall k | 0 <= k < |inputs| ensures inputs[k] in Elements(others) { assert inputs[k] in Elements(inputs); }
    forall k | 0 <= k < |others| ensures others[k] in Elements(inputs) { assert others[k] in Elements(others); }
    assert AllEncodable(inputs) <==> AllEncodable(others);
    if AllEncodable(inputs) {
      PermutedImages(inputs, others, ManifestsOf(c, inputs), ManifestsOf(c, others));
      SetOfPermuted(ManifestsOf(c, inputs), ManifestsOf(c, others));
    }
  }

  lemma {:induction false} PermutedFields(c: Context, inputs: seq<Input>, others: seq<Input>)
    requires |inputs| == |others| && forall k | 0 <= k < |inputs| :: SameSets(inputs[k], others[k])
    ensures FeatureSet(c, inputs) == FeatureSet(c, others)
  {
    forall k | 0 <= k < |inputs| ensures EncodeFeatureManifest(inputs[k]) == EncodeFeatureManifest(others[k]) {
      EncodedAlike(inputs[k], others[k]);
    }
    assert AllEncodable(inputs) <==> AllEncodable(others);
    if AllEncodable(inputs) {
      forall k | 0 <= k < |inputs| ensures ManifestOf(c, inputs[k]) == ManifestOf(c, others[k]) {
        NormalForm(inputs[k], others[k]);
      }
      assert ManifestsOf(c, inputs) == ManifestsOf(c, others);
    }
  }

  // ----- Encoding a set -----

  function SetItems(ms: seq<Manifest>): (vs: seq<Cbor.Value>)
    ensures |vs| == |ms| && forall k | 0 <= k < |ms| :: vs[k] == Cbor.ByteString(ms[k].bytes)
  {
    seq(|ms|, k requires 0 <= k < |ms| => Cbor.ByteString(ms[k].bytes))
  }

  function SetValue(ms: List<Manifest>): (v: Cbor.Value)
    ensures Cbor.Valid(v)
  {
    Cbor.Array(SetItems(ms))
  }

  function IdBytes(ms: seq<Manifest>): Bytes {
    if ms == [] then [] else ms[0].id + IdBytes(ms[1..])
  }

  function InputsOf(ms: seq<Manifest>): (inputs: seq<Input>)
    ensures |inputs| == |ms| && forall k | 0 <= k < |ms| :: inputs[k] == ms[k].input
  {
    seq(|ms|, k requires 0 <= k < |ms| => ms[k].input)
  }

  ghost function EncodeRequiredFeatureSet(c: Context, inputs: List<Input>): Option<Bytes> {
    var ms := FeatureSet(c, inputs);
    if ms.None? then None else Some(Cbor.Encode(SetValue(ms.value)))
  }

  ghost function RequiredFeatureSetId(c: Context, inputs: List<Input>): Option<Bytes> {
    var ms := FeatureSet(c, inputs);
    if ms.None? then None else Some(Identity(c.hash, FEATURE_SET_ID, IdBytes(ms.value)))
  }

  predicate SetTyped(c: Context, v: Cbor.Value) {
    v.Array? && |v.items| < UINT64 &&
    forall k | 0 <= k < |v.items| ::
      v.items[k].ByteString? && |v.items[k].b| < UINT64 && DecodeFeatureManifest(c, v.items[k].b).Some?
  }

  function Manifests(c: Context, v: Cbor.Value): (ms: List<Manifest>)
    requires SetTyped(c, v)
    ensures |ms| == |v.items| && forall k | 0 <= k < |ms| :: ms[k] == DecodeFeatureManifest(c, v.items[k].b).value
  {
    seq(|v.items|, k requires 0 <= k < |v.items| => DecodeFeatureManifest(c, v.items[k].b).value)
  }

  ghost predicate SameIds(ms: seq<Manifest>, ns: seq<Manifest>) {
    |ms| == |ns| && forall k | 0 <= k < |ms| :: ms[k].id == ns[k].id
  }

  ghost function DecodeRequiredFeatureSet(c: Context, encoded: Bytes): Option<List<Manifest>> {
    var v := c.decode(encoded);
    if v.None? || !SetTyped(c, v.value) then None
    else
      var ms := Manifests(c, v.value);
      var validated := FeatureSet(c, InputsOf(ms));
      if validated.None? || !SameIds(ms, validated.value) then None
      else if EncodeRequiredFeatureSet(c, InputsOf(ms)) != Some(encoded) then None
      else Some(ms)
  }

  ghost function RequiredFeatureSetIdFromBytes(c: Context, encoded: Bytes): Option<Bytes> {
    var ms := DecodeRequiredFeatureSet(c, encoded);
    if ms.None? then None else RequiredFeatureSetId(c, InputsOf(ms.value))
  }

  /** Permute the inputs, then the set-valued fields of each: bytes and identity stay the same. */
  lemma {:induction false} SetOrderBlind(c: Context, inputs: List<Input>, middle: List<Input>, others: List<Input>)
    requires multiset(inputs) == multiset(middle)
    requires |middle| == |others| && forall k | 0 <= k < |middle| :: SameSets(middle[k], others[k])
    ensures EncodeRequiredFeatureSet(c, inputs) == EncodeRequiredFeatureSet(c, others)
    ensures RequiredFeatureSetId(c, inputs) == RequiredFeatureSetId(c, others)
  {
    PermutedInputs(c, inputs, middle);
    PermutedFields(c, middle, others);
  }

  /** Every manifest of a validated set decodes from its own bytes, and its inputs are in normal form. */
  lemma {:induction false} SetMember(c: Context, inputs: seq<Input>, m: Manifest)
    requires Cbor.Decodes(c.decode) && AllEncodable(inputs) && m in multiset(ManifestsOf(c, inputs))
    ensures DecodeFeatureManifest(c, m.bytes) == Some(m)
    ensures EncodeFeatureManifest(m.input).Some? && ManifestOf(c, m.input) == m
  {
    var k :| 0 <= k < |inputs| && ManifestsOf(c, inputs)[k] == m;
    DecodeOne(c, inputs[k]);
  }

  /** The inputs of a validated set validate to that very set. */
  lemma {:induction false} SetFixed(c: Context, inputs: seq<Input>)
    requires Cbor.Decodes(c.decode) && FeatureSet(c, inputs).Some?
    ensures var ms := FeatureSet(c, inputs).value;
      && FeatureSet(c, InputsOf(ms)) == Some(ms) && Ascending(ById, ms)
      && forall k | 0 <= k < |ms| :: DecodeFeatureManifest(c, ms[k].bytes) == Some(ms[k])
  {
    var all, ms := ManifestsOf(c, inputs), FeatureSet(c, inputs).value;
    SetOfPermuted(all, all);
    forall k | 0 <= k < |ms|
      ensures DecodeFeatureManifest(c, ms[k].bytes) == Some(ms[k])
      ensures EncodeFeatureManifest(ms[k].input).Some? && ManifestOf(c, ms[k].input) == ms[k]
    {
      assert ms[k] in multiset(ms);
      SetMember(c, inputs, ms[k]);
    }
    InputsRebuild(c, ms);
  }

  lemma {:induction false} InputsRebuild(c: Context, ms: seq<Manifest>)
    requires forall k | 0 <= k < |ms| :: EncodeFeatureManifest(ms[k].input).Some? && ManifestOf(c, ms[k].input) == ms[k]
    ensures AllEncodable(InputsOf(ms)) && ManifestsOf(c, InputsOf(ms)) == ms
  {}

  lemma {:induction false} SetValueDecodes(c: Context, ms: List<Manifest>)
    requires Cbor.Decodes(c.decode) && forall k | 0 <= k < |ms| :: DecodeFeatureManifest(c, ms[k].bytes) == Some(ms[k])
    ensures var v := SetValue(ms);
      c.decode(Cbor.Encode(v)) == Some(v) && SetTyped(c, v) && Manifests(c, v) == ms
  {
    Cbor.DecodeEncode(SetValue(ms));
  }

  /** Decoding an encoded set returns it sorted, and identifies it alike. */
  lemma {:induction false} DecodeEncodedSet(c: Context, inputs: List<Input>)
    requires Cbor.Decodes(c.decode) && EncodeRequiredFeatureSet(c, inputs).Some?
    ensures var encoded := EncodeRequiredFeatureSet(c, inputs).value;
      && DecodeRequiredFeatureSet(c, encoded) == FeatureSet(c, inputs)
      && RequiredFeatureSetIdFromBytes(c, encoded) == RequiredFeatureSetId(c, inputs)
  {
    var ms := FeatureSet(c, inputs).value;
    SetFixed(c, inputs);
    SetValueDecodes(c, ms);
  }

  /** Accepted bytes are the encoding of what they decode to, which is in order of content address. */
  lemma {:induction false} EncodeDecodedSet(c: Context, encoded: Bytes)
    requires Cbor.Decodes(c.decode) && DecodeRequiredFeatureSet(c, encoded).Some?
    ensures var ms := DecodeRequiredFeatureSet(c, encoded).value;
      && EncodeRequiredFeatureSet(c, InputsOf(ms)) == Some(encoded)
      && FeatureSet(c, InputsOf(ms)) == Some(ms) && Ascending(ById, ms)
  {
    var ms := DecodeRequiredFeatureSet(c, encoded).value;
    DecodeEncodedSet(c, InputsOf(ms));
    SetFixed(c, InputsOf(ms));
  }

  // ----- What an identity determines -----

  lemma {:induction false} IdBytesInjective(ms: seq<Manifest>, ns: seq<Manifest>)
    requires (forall m | m in ms :: |m.id| == 32) && (forall n | n in ns :: |n.id| == 32) && IdBytes(ms) == IdBytes(ns)
    ensures |ms| == |ns| && forall k | 0 <= k < |ms| :: ms[k].id == ns[k].id
  {
    IdBytesLength(ms);
    IdBytesLength(ns);
    if ms != [] {
      assert ms[0] in ms && ns[0] in ns;
      SplitEqual(ms[0].id, ns[0].id, IdBytes(ms[1..]), IdBytes(ns[1..]));
      IdBytesInjective(ms[1..], ns[1..]);
      forall k | 0 < k < |ms| ensures ms[k].id == ns[k].id { assert ms[1..][k - 1].id == ns[1..][k - 1].id; }
    }
  }

  lemma {:induction false} IdBytesLength(ms: seq<Manifest>)
    requires forall m | m in ms :: |m.id| == 32
    ensures |IdBytes(ms)| == 32 * |ms|
  {
    if ms != [] {
      assert ms[0] in ms;
      IdBytesLength(ms[1..]);
    }
  }

  /** The bytes that are hashed to identify the set of these inputs. */
  ghost function Preimage(c: Context, inputs: seq<Input>): Bytes
    requires FeatureSet(c, inputs).Some?
  {
    TranscriptBytes(FEATURE_SET_ID, [IdBytes(FeatureSet(c, inputs).value)])
  }

  /** The bytes that are hashed for a manifest's content address. */
  function AddressPreimage(m: Manifest): Bytes {
    TranscriptBytes(FEATURE_MANIFEST_ID, [m.bytes])
  }

  /** Where the hash has no collision among the bytes hashed, sets have one identity exactly when they are the same. */
  lemma {:induction false} IdentityAlikeIff(c: Context, inputs: List<Input>, others: List<Input>)
    requires Digests(c.hash) && FeatureSet(c, inputs).Some? && FeatureSet(c, others).Some?
    requires TellsApart(c.hash, Preimage(c, inputs), Preimage(c, others))
    requires forall m, n | m in FeatureSet(c, inputs).value && n in FeatureSet(c, others).value ::
      TellsApart(c.hash, AddressPreimage(m), AddressPreimage(n))
    ensures RequiredFeatureSetId(c, inputs) == RequiredFeatureSetId(c, others) <==>
      FeatureSet(c, inputs) == FeatureSet(c, others)
  {
    var ms, ns := FeatureSet(c, inputs).value, FeatureSet(c, others).value;
    if RequiredFeatureSetId(c, inputs) == RequiredFeatureSetId(c, others) {
      assert c.hash(Preimage(c, inputs)) == c.hash(Preimage(c, others));
      SinglePartInjective(FEATURE_SET_ID, IdBytes(ms), IdBytes(ns));
      AddressLengths(c, inputs);
      AddressLengths(c, others);
      IdBytesInjective(ms, ns);
      forall k | 0 <= k < |ms| ensures ms[k] == ns[k] { AddressAlike(c, inputs, others, ms[k], ns[k]); }
      assert ms == ns;
    }
  }

  lemma {:induction false} Member(c: Context, inputs: seq<Input>, m: Manifest) returns (i: Input)
    requires FeatureSet(c, inputs).Some? && m in FeatureSet(c, inputs).value
    ensures EncodeFeatureManifest(i).Some? && m == ManifestOf(c, i)
  {
    var all, ms := ManifestsOf(c, inputs), FeatureSet(c, inputs).value;
    SetOfPermuted(all, all);
    assert m in multiset(ms);
    assert m in multiset(all);
    var k :| 0 <= k < |all| && all[k] == m;
    i := inputs[k];
  }

  lemma {:induction false} AddressAlike(c: Context, inputs: seq<Input>, others: seq<Input>, m: Manifest, n: Manifest)
    requires FeatureSet(c, inputs).Some? && FeatureSet(c, others).Some?
    requires m in FeatureSet(c, inputs).value && n in FeatureSet(c, others).value
    requires TellsApart(c.hash, AddressPreimage(m), AddressPreimage(n)) && m.id == n.id
    ensures m == n
  {
    var i := Member(c, inputs, m);
    var j := Member(c, others, n);
    assert AddressPreimage(m) == AddressPreimage(n);
    SinglePartInjective(FEATURE_MANIFEST_ID, m.bytes, n.bytes);
    EncodedAlikeIff(i, j);
    NormalForm(i, j);
  }

  lemma {:induction false} AddressLengths(c: Context, inputs: seq<Input>)
    requires Digests(c.hash) && FeatureSet(c, inputs).Some?
    ensures forall m | m in FeatureSet(c, inputs).value :: |m.id| == 32
  {
    forall m | m in FeatureSet(c, inputs).value ensures |m.id| == 32 {
      var _ := Member(c, inputs, m);
    }
  }

  /** No key and no address twice, every required address there, no excluded key there. */
  ghost predicate Plain(ms: seq<Manifest>) {
    && (forall i, j | 0 <= i < j < |ms| :: ms[i].input.featureKey != ms[j].input.featureKey && ms[i].id != ms[j].id)
    && (forall m, r | m in ms && r in m.input.requiredIds :: exists n | n in ms :: n.id == r)
    && (forall m, n | m in ms && n in ms :: n.input.featureKey !in m.input.incompatibleKeys)
  }

  /** A set is accepted exactly when its manifests meet these terms; it is they, by increasing content address. */
  lemma {:induction false} AcceptedSetIff(c: Context, inputs: seq<Input>)
    requires Digests(c.hash)
    ensures FeatureSet(c, inputs).Some? <==> AllEncodable(inputs) && Plain(ManifestsOf(c, inputs))
    ensures FeatureSet(c, inputs).Some? ==>
      var ms := FeatureSet(c, inputs).value;
      && multiset(ms) == multiset(ManifestsOf(c, inputs))
      && forall i | 0 < i < |ms| :: BigEndianValue(ms[i - 1].id) < BigEndianValue(ms[i].id)
  {
    if AllEncodable(inputs) { ClosureIff(ManifestsOf(c, inputs)); }
    if FeatureSet(c, inputs).Some? {
      var all, ms := ManifestsOf(c, inputs), FeatureSet(c, inputs).value;
      SetOfPermuted(all, all);
      AddressLengths(c, inputs);
      forall i | 0 < i < |ms| ensures BigEndianValue(ms[i - 1].id) < BigEndianValue(ms[i].id) {
        assert ms[i - 1] in ms && ms[i] in ms && ById(ms[i - 1], ms[i]);
        LessIffNumber(ms[i - 1].id, ms[i].id);
      }
    }
  }

  lemma {:induction false} ClosureIff(ms: seq<Manifest>)
    ensures Closure(ms) <==> Plain(ms)
  {
    if Closure(ms) {
      forall i, j | 0 <= i < j < |ms|
        ensures ms[i].input.featureKey != ms[j].input.featureKey && ms[i].id != ms[j].id
      {
        assert Apart(ms[i], ms[j]);
      }
      forall m | m in ms ensures Satisfied(m, Elements(ms)) {
        var i :| 0 <= i < |ms| && ms[i] == m;
      }
      forall m, n | m in ms && n in ms ensures n.input.featureKey !in m.input.incompatibleKeys {
        assert Satisfied(m, Elements(ms)) && n in Elements(ms);
      }
    }
    if Plain(ms) {
      assert Pairwise(Apart, ms);
      forall i | 0 <= i < |ms| ensures Satisfied(ms[i], Elements(ms)) {
        forall r | r in ms[i].input.requiredIds ensures exists n | n in Elements(ms) :: n.id == r {
          assert ms[i] in ms;
          var n :| n in ms && n.id == r;
          assert n in Elements(ms);
        }
      }
    }
  }

  // ----- The loops -----

  method ValidateFeatureManifestInput(i: Input) returns (ok: bool)
    ensures ok <==> InputOk(i)
  {
    ok := ValidateScopedKey(i.featureKey);
    if !ok || i.revision > MAX_SAFE_INTEGER {
      return false;
    }
    ok := NoRepeat(i.requiredIds);
    if !ok {
      return false;
    }
    for k := 0 to |i.incompatibleKeys|
      invariant forall j | 0 <= j < k :: ScopedKey(i.incompatibleKeys[j])
    {
      ok := ValidateScopedKey(i.incompatibleKeys[k]);
      if !ok {
        return false;
      }
    }
    ok := NoRepeat(i.incompatibleKeys);
  }

  /** The indexes the walk builds: the keys and the content addresses seen so far. */
  ghost predicate Indexed(ms: seq<Manifest>, keys: set<Slice>, ids: set<Bytes>) {
    && keys == (set m | m in ms :: m.input.featureKey)
    && ids == (set m | m in ms :: m.id)
  }

  method CheckReferences(ms: seq<Manifest>, ids: set<Bytes>, keys: set<Slice>) returns (ok: bool)
    requires Indexed(ms, keys, ids)
    ensures ok <==> forall i | 0 <= i < |ms| :: Satisfied(ms[i], Elements(ms))
  {
    for i := 0 to |ms|
      invariant forall j | 0 <= j < i :: Satisfied(ms[j], Elements(ms))
    {
      var satisfied := (forall r | r in ms[i].input.requiredIds :: r in ids)
        && (forall k | k in ms[i].input.incompatibleKeys :: k !in keys);
      assert satisfied <==> Satisfied(ms[i], Elements(ms));
      if !satisfied {
        return false;
      }
    }
    return true;
  }

  /** Where the walk stands after `n` inputs. */
  ghost predicate Walked(c: Context, inputs: seq<Input>, n: nat, entries: seq<Manifest>,
                         keys: set<Slice>, ids: set<Bytes>) {
    && n == |entries| <= |inputs|
    && (forall k | 0 <= k < n :: EncodeFeatureManifest(inputs[k]).Some? && entries[k] == ManifestOf(c, inputs[k]))
    && Indexed(entries, keys, ids)
    && Pairwise(Apart, entries)
  }

  lemma {:induction false} IndexOn(ms: seq<Manifest>, m: Manifest, keys: set<Slice>, ids: set<Bytes>)
    requires Indexed(ms, keys, ids)
    ensures Indexed(ms + [m], keys + {m.input.featureKey}, ids + {m.id})
    ensures m.input.featureKey in keys || m.id in ids <==> exists j | 0 <= j < |ms| :: !Apart(ms[j], m)
  {
    forall x ensures x in ms + [m] <==> x in ms || x == m {}
  }

  lemma {:induction false} WalkOn(c: Context, inputs: seq<Input>, i: nat, entries: seq<Manifest>,
                                    keys: set<Slice>, ids: set<Bytes>, m: Manifest)
    requires i < |inputs| && Walked(c, inputs, i, entries, keys, ids)
    requires EncodeFeatureManifest(inputs[i]).Some? && m == ManifestOf(c, inputs[i])
    ensures
      if m.input.featureKey in keys || m.id in ids then FeatureSet(c, inputs).None?
      else Walked(c, inputs, i + 1, entries + [m], keys + {m.input.featureKey}, ids + {m.id})
  {
    IndexOn(entries, m, keys, ids);
    if m.input.featureKey in keys || m.id in ids {
      var j :| 0 <= j < |entries| && !Apart(entries[j], m);
      Repeats(c, inputs, j, i);
    } else {
      PairwiseOn(entries, m);
    }
  }

  lemma {:induction false} PairwiseOn(ms: seq<Manifest>, m: Manifest)
    requires Pairwise(Apart, ms) && forall j | 0 <= j < |ms| :: Apart(ms[j], m)
    ensures Pairwise(Apart, ms + [m])
  {}

  /** Two manifests that are not apart spoil the closure. */
  lemma {:induction false} Repeats(c: Context, inputs: seq<Input>, j: nat, i: nat)
    requires j < i < |inputs| && EncodeFeatureManifest(inputs[j]).Some? && EncodeFeatureManifest(inputs[i]).Some?
    requires !Apart(ManifestOf(c, inputs[j]), ManifestOf(c, inputs[i]))
    ensures FeatureSet(c, inputs).None?
  {
    if AllEncodable(inputs) {
      var ms := ManifestsOf(c, inputs);
      assert !Apart(ms[j], ms[i]);
    }
  }

  /** `validatedFeatureSet`: encode, decode back, index, check references, sort. */
  method ValidatedFeatureSet(c: Context, inputs: seq<Input>) returns (result: Option<seq<Manifest>>)
    requires Cbor.Decodes(c.decode)
    ensures result == FeatureSet(c, inputs)
  {
    var entries: seq<Manifest> := [];
    var keys: set<Slice>, ids: set<Bytes> := {}, {};
    for i := 0 to |inputs|
      invariant Walked(c, inputs, i, entries, keys, ids)
    {
      var encoded := EncodeFeatureManifest(inputs[i]);
      if encoded.None? {
        return None;
      }
      DecodeOne(c, inputs[i]);
      var manifest := DecodeFeatureManifest(c, encoded.value).value;
      WalkOn(c, inputs, i, entries, keys, ids, manifest);
      if manifest.input.featureKey in keys || manifest.id in ids {
        return None;
      }
      entries := entries + [manifest];
      keys, ids := keys + {manifest.input.featureKey}, ids + {manifest.id};
    }
    assert entries == ManifestsOf(c, inputs);
    var ok := CheckReferences(entries, ids, keys);
    if !ok {
      return None;
    }
    return Some(Sorted(ById, entries));
  }
}
