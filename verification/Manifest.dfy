/**
 The Manifest of a complete export. Its logical roots and opaque inventory are
 written as canonical sets, ordered by encoding; frontier and continuity roots
 must already be in order. The state digest and the bytes depend on the sets.
 */
module ExportManifests {
  import opened ByteStrings
  import opened Sorting
  import opened Ciphers
  import opened Transcripts
  import Cbor

  const FORMAT: nat := 1

  /** A value that `EncodeValue` accepts. */
  type Sound = v: Cbor.Value | Cbor.Valid(v) witness Cbor.UInt(0)

  datatype Dependency = Dependency(code: Word, id: Identifier)

  datatype OpaqueItem = OpaqueItem(namespace: Word, logicalId: Identifier, storageItemId: Identifier,
                                   keyEpochId: Identifier, byteLength: Word, byteDigest: Identifier)

  datatype Input = Input(vaultId: Identifier, generationId: Identifier,
                         frontier: List<Identifier>, featureSetId: Identifier,
                         roots: List<Dependency>, inventory: List<OpaqueItem>, continuity: List<Identifier>)

  datatype Manifest = Manifest(input: Input, format: nat, stateDigest: Identifier)

  /** SHA-256 and the canonical CBOR decoder. */
  datatype Context = Context(hash: Bytes -> Identifier, decode: Cbor.Decoder)

  /** A call returns a value or an error, or the runtime panics. */
  datatype Outcome<+T> = Made(value: T) | Rejected | Panicked

  // ----- Canonical sets -----

  function Encoding(v: Sound): Bytes { Cbor.Encode(v) }

  predicate ValueLess(a: Sound, b: Sound) { Less(Encoding(a), Encoding(b)) }

  lemma {:induction false} ValuesOrdered(elems: set<Sound>)
    ensures OrdersStrictly(ValueLess, elems)
  {
    forall a | a in elems ensures !ValueLess(a, a) { LessIrreflexive(Cbor.Encode(a)); }
    forall a, b, c | a in elems && b in elems && c in elems && ValueLess(a, b) && ValueLess(b, c)
      ensures ValueLess(a, c)
    {
      LessTransitive(Cbor.Encode(a), Cbor.Encode(b), Cbor.Encode(c));
    }
    forall a, b | a in elems && b in elems ensures a == b || ValueLess(a, b) || ValueLess(b, a) {
      LessTotal(Cbor.Encode(a), Cbor.Encode(b));
      if Cbor.Encode(a) == Cbor.Encode(b) { Cbor.EncodeInjective(a, b); }
    }
  }

  /** The canonical order of a list without duplicates. */
  function SetForm(values: List<Sound>): Option<List<Sound>> {
    if Distinct(values) then Some(Sorted(ValueLess, values)) else None
  }

  /** In a sorted list, duplicates are neighbours. */
  lemma {:induction false} DistinctNeighbours(values: List<Sound>, sorted: List<Sound>)
    requires sorted == Sorted(ValueLess, values)
    ensures Distinct(values) <==> forall i | 0 < i < |sorted| :: Encoding(sorted[i - 1]) != Encoding(sorted[i])
  {
    ValuesOrdered(Elements(values));
    SortedSorts(ValueLess, values, Elements(values));
    SameMultiset(values, sorted);
    SameMultiset(sorted, values);
    if forall i | 0 < i < |sorted| :: Encoding(sorted[i - 1]) != Encoding(sorted[i]) {
      forall i | 0 < i < |sorted| ensures ValueLess(sorted[i - 1], sorted[i]) {
        LessTotal(Encoding(sorted[i - 1]), Encoding(sorted[i]));
      }
      AscendingDistinct(ValueLess, sorted);
    }
    if Distinct(sorted) {
      forall i | 0 < i < |sorted| ensures Encoding(sorted[i - 1]) != Encoding(sorted[i]) {
        if Encoding(sorted[i - 1]) == Encoding(sorted[i]) { Cbor.EncodeInjective(sorted[i - 1], sorted[i]); }
      }
    }
  }

  method NoEqualNeighbours(encoded: seq<Bytes>) returns (ok: bool)
    ensures ok <==> forall i | 0 < i < |encoded| :: encoded[i - 1] != encoded[i]
  {
    var i := 1;
    while i < |encoded|
      invariant 1 <= i && forall j | 0 < j < i && j < |encoded| :: encoded[j - 1] != encoded[j]
    {
      if encoded[i - 1] == encoded[i] {
        return false;
      }
      i := i + 1;
    }
    return true;
  }

  /** `canonicalSet`: sort by encoding, then look for equal neighbours. */
  method CanonicalSet(values: List<Sound>) returns (result: Option<List<Sound>>)
    ensures result == SetForm(values)
  {
    var sorted := Sorted(ValueLess, values);
    DistinctNeighbours(values, sorted);
    var ok := NoEqualNeighbours(Mapped(Encoding, sorted));
    return if ok then Some(sorted) else None;
  }

  /** A list equal, as bytes, to its own canonical order. */
  predicate IsCanonicalSet(values: List<Sound>) {
    var normalized := SetForm(values);
    normalized.Some? && Cbor.Encode(Cbor.Array(values)) == Cbor.Encode(Cbor.Array(normalized.value))
  }

  lemma {:induction false} CanonicalIff(values: List<Sound>)
    ensures IsCanonicalSet(values) <==> Ascending(ValueLess, values)
    ensures Ascending(ValueLess, values) ==> SetForm(values) == Some(values)
  {
    ValuesOrdered(Elements(values));
    if Ascending(ValueLess, values) { SortedFixed(ValueLess, values); }
    if IsCanonicalSet(values) {
      SortedOnly(ValueLess, values, values);
      Cbor.EncodeInjective(Cbor.Array(values), Cbor.Array(Sorted(ValueLess, values)));
    }
  }

  lemma {:induction false} SetFormPermuted(values: List<Sound>, others: List<Sound>)
    requires multiset(values) == multiset(others)
    ensures SetForm(values) == SetForm(others)
  {
    SameMultiset(values, others);
    SameMultiset(others, values);
    ValuesOrdered(Elements(values));
    if Distinct(values) { SortedOnly(ValueLess, values, others); }
  }

  // ----- Members as values and back -----

  function SetValue(values: List<Sound>): Sound { Cbor.Array(values) }

  function IdValue(id: Identifier): Sound { Cbor.ByteString(id) }

  function IdFrom(v: Cbor.Value): Option<Identifier> {
    if v.ByteString? && |v.b| == 32 then Some(v.b) else None
  }

  function WordFrom(v: Cbor.Value): Option<Word> {
    if v.UInt? && v.n < UINT64 then Some(v.n) else None
  }

  /** A map with exactly the keys from 0 on. */
  predicate Record(v: Cbor.Value, size: nat) {
    v.Map? && |v.entries| == size && forall i | 0 <= i < size :: v.entries[i].key == i
  }

  function RootValue(d: Dependency): Sound {
    var e := [Cbor.Entry(0, Cbor.UInt(d.code)), Cbor.Entry(1, IdValue(d.id))];
    assert Cbor.EntriesOk(e);
    Cbor.Map(e)
  }

  function RootFrom(v: Cbor.Value): Option<Dependency> {
    if !Record(v, 2) then None
    else
      var code, id := WordFrom(v.entries[0].value), IdFrom(v.entries[1].value);
      if code.None? || id.None? || !RootOk(Dependency(code.value, id.value)) then None
      else Some(Dependency(code.value, id.value))
  }

  predicate RootOk(d: Dependency) { 1 <= d.code <= 8 }

  function ItemValue(x: OpaqueItem): Sound {
    var e := [Cbor.Entry(0, Cbor.UInt(x.namespace)), Cbor.Entry(1, IdValue(x.logicalId)),
              Cbor.Entry(2, IdValue(x.storageItemId)), Cbor.Entry(3, IdValue(x.keyEpochId)),
              Cbor.Entry(4, Cbor.UInt(x.byteLength)), Cbor.Entry(5, IdValue(x.byteDigest))];
    assert Cbor.EntriesOk(e);
    Cbor.Map(e)
  }

  function ItemFrom(v: Cbor.Value): Option<OpaqueItem> {
    if !Record(v, 6) then None
    else
      var e := v.entries;
      var namespace, length := WordFrom(e[0].value), WordFrom(e[4].value);
      var logical, storage := IdFrom(e[1].value), IdFrom(e[2].value);
      var epoch, digest := IdFrom(e[3].value), IdFrom(e[5].value);
      if namespace.None? || length.None? || logical.None? || storage.None? || epoch.None? || digest.None? then None
      else
        var x := OpaqueItem(namespace.value, logical.value, storage.value, epoch.value, length.value, digest.value);
        if ItemOk(x) then Some(x) else None
  }

  predicate ItemOk(x: OpaqueItem) { 1 <= x.namespace <= 5 && x.byteLength != 0 }

  lemma {:induction false} RootBack(d: Dependency)
    requires RootOk(d)
    ensures RootFrom(RootValue(d)) == Some(d)
  {
    assert Record(RootValue(d), 2);
  }

  lemma {:induction false} ItemBack(x: OpaqueItem)
    requires ItemOk(x)
    ensures ItemFrom(ItemValue(x)) == Some(x)
  {
    assert Record(ItemValue(x), 6);
  }

  predicate RootLess(a: Dependency, b: Dependency) { ValueLess(RootValue(a), RootValue(b)) }

  predicate ItemLess(a: OpaqueItem, b: OpaqueItem) { ValueLess(ItemValue(a), ItemValue(b)) }

  function Each<A>(from: Cbor.Value -> Option<A>, vs: seq<Cbor.Value>): (r: Option<seq<A>>)
    ensures r.Some? ==> |r.value| == |vs|
  {
    if vs == [] then Some([])
    else
      var first, rest := from(vs[0]), Each(from, vs[1..]);
      if first.None? || rest.None? then None else Some([first.value] + rest.value)
  }

  lemma {:induction false} EachMapped<A>(from: Cbor.Value -> Option<A>, into: A -> Sound, s: seq<A>)
    requires forall i | 0 <= i < |s| :: from(into(s[i])) == Some(s[i])
    ensures Each(from, Mapped(into, s)) == Some(s)
  {
    if s != [] {
      EachMapped(from, into, s[1..]);
      assert Mapped(into, s)[1..] == Mapped(into, s[1..]);
      assert s == [s[0]] + s[1..];
    }
  }

  /** A nonempty canonical set of members. */
  function SetFrom<A>(from: Cbor.Value -> Option<A>, v: Sound): Option<List<A>> {
    if !v.Array? || v.items == [] || !IsCanonicalSet(v.items) then None else Each(from, v.items)
  }

  // ----- Validation -----

  /** 32 zero bytes. */
  predicate Zero(id: Identifier) { forall i | 0 <= i < 32 :: id[i] == 0 }

  /** The order check on lists of identifiers, which panics on a duplicate before it can report one. */
  function ValidateIds(ids: List<Identifier>): Outcome<()> {
    if !Distinct(ids) then Panicked
    else if !Increasing(ids) then Rejected
    else Made(())
  }

  predicate ItemsApart(a: OpaqueItem, b: OpaqueItem) {
    (a.namespace, a.logicalId) != (b.namespace, b.logicalId) && a.storageItemId != b.storageItemId
  }

  ghost predicate MembersOk(roots: seq<Dependency>, inventory: seq<OpaqueItem>) {
    && (forall i | 0 <= i < |roots| :: RootOk(roots[i]))
    && (forall i | 0 <= i < |inventory| :: ItemOk(inventory[i]))
    && Pairwise(ItemsApart, inventory)
  }

  ghost function Validate(i: Input): Outcome<()> {
    if Zero(i.vaultId) || Zero(i.generationId) then Rejected
    else if i.frontier == [] || i.roots == [] || i.continuity == [] || i.inventory == [] then Rejected
    else if !ValidateIds(i.frontier).Made? then ValidateIds(i.frontier)
    else if !ValidateIds(i.continuity).Made? then ValidateIds(i.continuity)
    else if MembersOk(i.roots, i.inventory) then Made(()) else Rejected
  }

  // ----- The state -----

  datatype Sets = Sets(frontier: List<Sound>, roots: List<Sound>, inventory: List<Sound>, continuity: List<Sound>)

  /** The four canonical sets; nothing when one of them has a duplicate. */
  function StateSets(i: Input): Option<Sets> {
    var frontier, continuity := SetForm(Mapped(IdValue, i.frontier)), SetForm(Mapped(IdValue, i.continuity));
    var roots, inventory := SetForm(Mapped(RootValue, i.roots)), SetForm(Mapped(ItemValue, i.inventory));
    if frontier.None? || continuity.None? || roots.None? || inventory.None? then None
    else Some(Sets(frontier.value, roots.value, inventory.value, continuity.value))
  }

  function HeadEntries(i: Input, s: Sets): (e: seq<Cbor.Entry>)
    ensures |e| == 7 && Cbor.EntriesOk(e) && e[6].key == 6
  {
    [Cbor.Entry(0, Cbor.UInt(FORMAT)), Cbor.Entry(1, IdValue(i.vaultId)), Cbor.Entry(2, IdValue(i.generationId)),
     Cbor.Entry(3, SetValue(s.frontier)), Cbor.Entry(4, IdValue(i.featureSetId)),
     Cbor.Entry(5, SetValue(s.roots)), Cbor.Entry(6, SetValue(s.inventory))]
  }

  /** The state that is digested: every field but the digest. */
  function StateValue(i: Input, s: Sets): Sound {
    var e := HeadEntries(i, s) + [Cbor.Entry(8, SetValue(s.continuity))];
    assert Cbor.EntriesOk(e);
    Cbor.Map(e)
  }

  function ManifestValue(i: Input, s: Sets, digest: Identifier): Sound {
    var e := HeadEntries(i, s) + [Cbor.Entry(7, IdValue(digest)), Cbor.Entry(8, SetValue(s.continuity))];
    assert Cbor.EntriesOk(e);
    Cbor.Map(e)
  }

  function StateDigest(c: Context, i: Input, s: Sets): Identifier {
    c.hash(TranscriptBytes(EXPORT_STATE_DIGEST, [Cbor.Encode(StateValue(i, s))]))
  }

  // ----- Making, encoding, decoding -----

  ghost function NewManifest(c: Context, i: Input): Outcome<Manifest> {
    match Validate(i)
    case Rejected => Rejected
    case Panicked => Panicked
    case Made(_) =>
      var s := StateSets(i);
      if s.None? then Rejected else Made(Manifest(i, FORMAT, StateDigest(c, i, s.value)))
  }

  ghost function EncodeManifest(c: Context, m: Manifest): Outcome<Bytes> {
    if m.format != FORMAT then Rejected
    else
      match Validate(m.input)
      case Rejected => Rejected
      case Panicked => Panicked
      case Made(_) =>
        var s := StateSets(m.input);
        if s.None? || StateDigest(c, m.input, s.value) != m.stateDigest then Rejected
        else Made(Cbor.Encode(ManifestValue(m.input, s.value, m.stateDigest)))
  }

  /** The nine fields, with their types and set discipline. */
  function Fields(v: Sound): Option<(Input, Identifier)> {
    if !Record(v, 9) then None
    else
      var e := v.entries;
      var vault, generation := IdFrom(e[1].value), IdFrom(e[2].value);
      var featureSet, digest := IdFrom(e[4].value), IdFrom(e[7].value);
      var frontier, continuity := SetFrom(IdFrom, e[3].value), SetFrom(IdFrom, e[8].value);
      var roots, inventory := SetFrom(RootFrom, e[5].value), SetFrom(ItemFrom, e[6].value);
      if WordFrom(e[0].value) != Some(FORMAT) || vault.None? || generation.None? || featureSet.None? || digest.None?
         || frontier.None? || continuity.None? || roots.None? || inventory.None?
      then None
      else
        Some((Input(vault.value, generation.value, frontier.value, featureSet.value, roots.value, inventory.value,
                    continuity.value), digest.value))
  }

  ghost function DecodeManifest(c: Context, encoded: Bytes): Outcome<Manifest> {
    var v := c.decode(encoded);
    if v.None? || !Cbor.Valid(v.value) || Fields(v.value).None? then Rejected
    else
      var (i, digest) := Fields(v.value).value;
      match NewManifest(c, i)
      case Rejected => Rejected
      case Panicked => Panicked
      case Made(m) =>
        if m.stateDigest != digest then Rejected
        else
          var again := EncodeManifest(c, m);
          if again.Panicked? then Panicked else if again == Made(encoded) then Made(m) else Rejected
  }

  // ----- Identifier lists -----

  lemma {:induction false} ConsLess(x: Byte, a: Bytes, b: Bytes)
    ensures Less([x] + a, [x] + b) <==> Less(a, b)
  {
    assert ([x] + a)[1..] == a && ([x] + b)[1..] == b;
  }

  lemma {:induction false} PrefixLess(p: Bytes, a: Bytes, b: Bytes)
    ensures Less(p + a, p + b) <==> Less(a, b)
  {
    if p == [] {
      assert p + a == a && p + b == b;
    } else {
      var rest := p[1..];
      assert p + a == [p[0]] + (rest + a) && p + b == [p[0]] + (rest + b);
      ConsLess(p[0], rest + a, rest + b);
      PrefixLess(rest, a, b);
    }
  }

  /** Identifiers that pass are their own canonical set. */
  lemma {:induction false} IdsFixed(ids: List<Identifier>)
    requires ValidateIds(ids).Made?
    ensures Ascending(ValueLess, Mapped(IdValue, ids)) && SetForm(Mapped(IdValue, ids)) == Some(Mapped(IdValue, ids))
  {
    var vs := Mapped(IdValue, ids);
    forall i | 0 < i < |vs| ensures ValueLess(vs[i - 1], vs[i]) {
      LessIffNumber(ids[i - 1], ids[i]);
      PrefixLess(Cbor.Head(2, 32), ids[i - 1], ids[i]);
    }
    CanonicalIff(vs);
  }

  // ----- Order does not show -----

  /** The same input up to the order of its two set-valued fields. */
  ghost predicate SameSets(i: Input, j: Input) {
    && i == j.(roots := i.roots, inventory := i.inventory)
    && multiset(i.roots) == multiset(j.roots) && multiset(i.inventory) == multiset(j.inventory)
  }

  lemma {:induction false} MembersPermuted(i: Input, j: Input)
    requires SameSets(i, j) && MembersOk(i.roots, i.inventory)
    ensures MembersOk(j.roots, j.inventory)
  {
    SameMultiset(i.roots, j.roots);
    SameMultiset(i.inventory, j.inventory);
    PairwisePermuted(ItemsApart, i.inventory, j.inventory);
    forall k | 0 <= k < |j.roots| ensures RootOk(j.roots[k]) { assert j.roots[k] in Elements(i.roots); }
    forall k | 0 <= k < |j.inventory| ensures ItemOk(j.inventory[k]) { assert j.inventory[k] in Elements(i.inventory); }
  }

  lemma {:induction false} ValidatePermuted(i: Input, j: Input)
    requires SameSets(i, j)
    ensures Validate(i) == Validate(j)
  {
    SameMultiset(i.roots, j.roots);
    SameMultiset(i.inventory, j.inventory);
    if MembersOk(i.roots, i.inventory) { MembersPermuted(i, j); }
    if MembersOk(j.roots, j.inventory) { MembersPermuted(j, i); }
  }

  lemma {:induction false} StatePermuted(i: Input, j: Input)
    requires SameSets(i, j)
    ensures StateSets(i) == StateSets(j)
  {
    PermutedImages(i.roots, j.roots, Mapped(RootValue, i.roots), Mapped(RootValue, j.roots));
    PermutedImages(i.inventory, j.inventory, Mapped(ItemValue, i.inventory), Mapped(ItemValue, j.inventory));
    SetFormPermuted(Mapped(RootValue, i.roots), Mapped(RootValue, j.roots));
    SetFormPermuted(Mapped(ItemValue, i.inventory), Mapped(ItemValue, j.inventory));
  }

  /** The value and the digest say nothing of the order of roots and inventory. */
  lemma {:induction false} StateAlike(c: Context, i: Input, j: Input, s: Sets)
    requires SameSets(i, j)
    ensures StateDigest(c, i, s) == StateDigest(c, j, s)
    ensures forall d :: ManifestValue(i, s, d) == ManifestValue(j, s, d)
  {
    assert HeadEntries(i, s) == HeadEntries(j, s);
  }

  lemma {:induction false} MadeAlike(c: Context, i: Input, j: Input, s: Sets)
    requires SameSets(i, j) && StateSets(i) == Some(s) == StateSets(j) && Validate(i).Made? && Validate(j).Made?
    ensures var m := Manifest(i, FORMAT, StateDigest(c, i, s));
      && NewManifest(c, i) == Made(m) && NewManifest(c, j) == Made(m.(input := j))
      && EncodeManifest(c, m) == EncodeManifest(c, m.(input := j))
         == Made(Cbor.Encode(ManifestValue(i, s, m.stateDigest)))
  {
    StateAlike(c, i, j, s);
  }

  /** Permuting roots and inventory changes neither the outcome, nor the digest, nor the bytes. */
  lemma {:induction false} ManifestOrderBlind(c: Context, i: Input, j: Input)
    requires SameSets(i, j)
    ensures NewManifest(c, i).Made? ==>
      var m := NewManifest(c, i).value;
      && NewManifest(c, j) == Made(m.(input := j))
      && EncodeManifest(c, m).Made? && EncodeManifest(c, m.(input := j)) == EncodeManifest(c, m)
    ensures !NewManifest(c, i).Made? ==> NewManifest(c, j) == NewManifest(c, i)
  {
    ValidatePermuted(i, j);
    StatePermuted(i, j);
    if NewManifest(c, i).Made? { MadeAlike(c, i, j, StateSets(i).value); }
  }

  // ----- When a manifest is made -----

  lemma {:induction false} DistinctMapped<A, B>(f: A -> B, s: seq<A>)
    requires forall a, b :: f(a) == f(b) ==> a == b
    ensures Distinct(Mapped(f, s)) <==> Distinct(s)
  {
    var u := Mapped(f, s);
    forall i, j | 0 <= i < j < |s| ensures u[i] == u[j] <==> s[i] == s[j] {}
  }

  lemma {:induction false} MembersInjective()
    ensures forall a, b :: RootValue(a) == RootValue(b) ==> a == b
    ensures forall a, b :: ItemValue(a) == ItemValue(b) ==> a == b
  {
    forall a, b | RootValue(a) == RootValue(b) ensures a == b {
      var e, f := RootValue(a).entries, RootValue(b).entries;
      assert e[0].value == f[0].value && e[1].value == f[1].value;
    }
    forall a, b | ItemValue(a) == ItemValue(b) ensures a == b {
      var e, f := ItemValue(a).entries, ItemValue(b).entries;
      assert e[0].value == f[0].value && e[1].value == f[1].value && e[2].value == f[2].value;
      assert e[3].value == f[3].value && e[4].value == f[4].value && e[5].value == f[5].value;
    }
  }

  lemma {:induction false} RootsFormIff(roots: List<Dependency>)
    ensures SetForm(Mapped(RootValue, roots)).Some? <==> Distinct(roots)
  {
    MembersInjective();
    DistinctMapped(RootValue, roots);
  }

  lemma {:induction false} InventoryForm(items: List<OpaqueItem>)
    requires Pairwise(ItemsApart, items)
    ensures SetForm(Mapped(ItemValue, items)).Some?
  {
    MembersInjective();
    DistinctMapped(ItemValue, items);
    forall k, l | 0 <= k < l < |items| ensures items[k] != items[l] { assert ItemsApart(items[k], items[l]); }
  }

  /** A validated input has its canonical sets unless a logical root is repeated. */
  lemma {:induction false} StateSetsIff(i: Input)
    requires Validate(i).Made?
    ensures StateSets(i).Some? <==> Distinct(i.roots)
  {
    IdsFixed(i.frontier);
    IdsFixed(i.continuity);
    RootsFormIff(i.roots);
    InventoryForm(i.inventory);
  }

  /** A validated input is refused later only for a repeated logical root; a repeated identifier panics. */
  lemma {:induction false} NewManifestOutcome(c: Context, i: Input)
    ensures NewManifest(c, i).Made? <==> Validate(i).Made? && Distinct(i.roots)
    ensures NewManifest(c, i).Panicked? <==>
      && !Zero(i.vaultId) && !Zero(i.generationId)
      && i.frontier != [] && i.roots != [] && i.continuity != [] && i.inventory != []
      && (Distinct(i.frontier) ==> ValidateIds(i.frontier).Made? && !Distinct(i.continuity))
  {
    if Validate(i).Made? { StateSetsIff(i); }
  }

  /** A frontier that repeats an identifier, in an input with nothing else wrong, is a panic. */
  lemma RepeatedFrontierPanics(c: Context, x: Identifier)
    requires !Zero(x)
    ensures NewManifest(c, Input(x, x, [x, x], x, [Dependency(1, x)], [OpaqueItem(1, x, x, x, 1, x)], [x])).Panicked?
  {
    var i := Input(x, x, [x, x], x, [Dependency(1, x)], [OpaqueItem(1, x, x, x, 1, x)], [x]);
    assert i.frontier[0] == i.frontier[1];
    NewManifestOutcome(c, i);
  }

  // ----- Round trips -----

  /** Roots and inventory in canonical order. */
  function Normal(i: Input): Input {
    i.(roots := Sorted(RootLess, i.roots), inventory := Sorted(ItemLess, i.inventory))
  }

  lemma {:induction false} NormalSame(i: Input)
    ensures SameSets(i, Normal(i))
  {
    SortedKeeps(RootLess, i.roots);
    SortedKeeps(ItemLess, i.inventory);
  }

  /** A nonempty set in canonical order reads back as the members it was mapped from. */
  lemma {:induction false} SetBack<A>(from: Cbor.Value -> Option<A>, into: A -> Sound, s: List<A>)
    requires s != [] && Ascending(ValueLess, Mapped(into, s))
    requires forall i | 0 <= i < |s| :: from(into(s[i])) == Some(s[i])
    ensures SetFrom(from, SetValue(Mapped(into, s))) == Some(s)
  {
    CanonicalIff(Mapped(into, s));
    EachMapped(from, into, s);
  }

  lemma {:induction false} RootsBack(roots: List<Dependency>)
    requires roots != [] && (forall k | 0 <= k < |roots| :: RootOk(roots[k])) && SetForm(Mapped(RootValue, roots)).Some?
    ensures SetFrom(RootFrom, SetValue(SetForm(Mapped(RootValue, roots)).value)) == Some(Sorted(RootLess, roots))
  {
    var vs, sorted := Mapped(RootValue, roots), Sorted(RootLess, roots);
    SortedMapped(RootLess, ValueLess, RootValue, roots);
    ValuesOrdered(Elements(vs));
    SortedOnly(ValueLess, vs, vs);
    SortedKeeps(RootLess, roots);
    SameMultiset(roots, sorted);
    forall k | 0 <= k < |sorted| ensures RootFrom(RootValue(sorted[k])) == Some(sorted[k]) {
      assert sorted[k] in Elements(roots);
      RootBack(sorted[k]);
    }
    SetBack(RootFrom, RootValue, sorted);
  }

  lemma {:induction false} InventoryBack(items: List<OpaqueItem>)
    requires items != [] && (forall k | 0 <= k < |items| :: ItemOk(items[k])) && SetForm(Mapped(ItemValue, items)).Some?
    ensures SetFrom(ItemFrom, SetValue(SetForm(Mapped(ItemValue, items)).value)) == Some(Sorted(ItemLess, items))
  {
    var vs, sorted := Mapped(ItemValue, items), Sorted(ItemLess, items);
    SortedMapped(ItemLess, ValueLess, ItemValue, items);
    ValuesOrdered(Elements(vs));
    SortedOnly(ValueLess, vs, vs);
    SortedKeeps(ItemLess, items);
    SameMultiset(items, sorted);
    forall k | 0 <= k < |sorted| ensures ItemFrom(ItemValue(sorted[k])) == Some(sorted[k]) {
      assert sorted[k] in Elements(items);
      ItemBack(sorted[k]);
    }
    SetBack(ItemFrom, ItemValue, sorted);
  }

  lemma {:induction false} IdsBack(ids: List<Identifier>)
    requires ids != [] && ValidateIds(ids).Made?
    ensures SetForm(Mapped(IdValue, ids)).Some?
    ensures SetFrom(IdFrom, SetValue(SetForm(Mapped(IdValue, ids)).value)) == Some(ids)
  {
    IdsFixed(ids);
    SetBack(IdFrom, IdValue, ids);
  }

  lemma {:induction false} ManifestRecord(i: Input, s: Sets, digest: Identifier)
    ensures var v := ManifestValue(i, s, digest);
      && Record(v, 9) && WordFrom(v.entries[0].value) == Some(FORMAT)
      && IdFrom(v.entries[1].value) == Some(i.vaultId) && IdFrom(v.entries[2].value) == Some(i.generationId)
      && v.entries[3].value == SetValue(s.frontier) && IdFrom(v.entries[4].value) == Some(i.featureSetId)
      && v.entries[5].value == SetValue(s.roots) && v.entries[6].value == SetValue(s.inventory)
      && IdFrom(v.entries[7].value) == Some(digest) && v.entries[8].value == SetValue(s.continuity)
  {
    var e := ManifestValue(i, s, digest).entries;
    assert forall k | 0 <= k < 9 :: e[k].key == k;
  }

  lemma {:induction false} SetsBack(i: Input, s: Sets)
    requires Validate(i).Made? && StateSets(i) == Some(s)
    ensures SetFrom(IdFrom, SetValue(s.frontier)) == Some(i.frontier)
    ensures SetFrom(IdFrom, SetValue(s.continuity)) == Some(i.continuity)
    ensures SetFrom(RootFrom, SetValue(s.roots)) == Some(Normal(i).roots)
    ensures SetFrom(ItemFrom, SetValue(s.inventory)) == Some(Normal(i).inventory)
  {
    IdsBack(i.frontier);
    IdsBack(i.continuity);
    RootsBack(i.roots);
    InventoryBack(i.inventory);
  }

  lemma {:induction false} FieldsBack(i: Input, s: Sets, digest: Identifier, v: Sound)
    requires Validate(i).Made? && StateSets(i) == Some(s) && v == ManifestValue(i, s, digest)
    ensures Fields(v) == Some((Normal(i), digest))
  {
    SetsBack(i, s);
    ManifestRecord(i, s, digest);
  }

  lemma {:induction false} DecodeMade(c: Context, encoded: Bytes, v: Sound, m: Manifest)
    requires c.decode(encoded) == Some(v) && Fields(v) == Some((m.input, m.stateDigest))
    requires NewManifest(c, m.input) == Made(m) && EncodeManifest(c, m) == Made(encoded)
    ensures DecodeManifest(c, encoded) == Made(m)
  {}

  /** Decoding what was encoded returns the manifest with its sets in order. */
  lemma {:induction false} DecodeEncodedManifest(c: Context, i: Input)
    requires Cbor.Decodes(c.decode) && NewManifest(c, i).Made?
    ensures var m := NewManifest(c, i).value;
      EncodeManifest(c, m).Made? && DecodeManifest(c, EncodeManifest(c, m).value) == Made(m.(input := Normal(i)))
  {
    var m := NewManifest(c, i).value;
    var s := StateSets(i).value;
    var v := ManifestValue(i, s, m.stateDigest);
    FieldsBack(i, s, m.stateDigest, v);
    Cbor.DecodeEncode(v);
    var encoded := Cbor.Encode(v);
    assert c.decode(encoded) == Cbor.Decode(encoded);
    NormalSame(i);
    ManifestOrderBlind(c, i, Normal(i));
    DecodeMade(c, encoded, v, m.(input := Normal(i)));
  }

  lemma {:induction false} EncodableMade(c: Context, m: Manifest)
    requires EncodeManifest(c, m).Made?
    ensures NewManifest(c, m.input) == Made(m)
  {}

  /** Accepted bytes are the encoding of what they decode to, whose sets are in order. */
  lemma {:induction false} EncodeDecodedManifest(c: Context, encoded: Bytes)
    requires Cbor.Decodes(c.decode) && DecodeManifest(c, encoded).Made?
    ensures var m := DecodeManifest(c, encoded).value;
      EncodeManifest(c, m) == Made(encoded) && m.input == Normal(m.input)
  {
    var m := DecodeManifest(c, encoded).value;
    EncodableMade(c, m);
    DecodeEncodedManifest(c, m.input);
  }

  /** Manifests have the same bytes exactly when they differ only in the order of roots and inventory. */
  lemma {:induction false} ManifestsAlikeIff(c: Context, i: Input, j: Input)
    requires Cbor.Decodes(c.decode) && NewManifest(c, i).Made? && NewManifest(c, j).Made?
    ensures EncodeManifest(c, NewManifest(c, i).value) == EncodeManifest(c, NewManifest(c, j).value) <==> SameSets(i, j)
  {
    var m, n := NewManifest(c, i).value, NewManifest(c, j).value;
    if SameSets(i, j) { ManifestOrderBlind(c, i, j); }
    if EncodeManifest(c, m) == EncodeManifest(c, n) {
      DecodeEncodedManifest(c, i);
      DecodeEncodedManifest(c, j);
      NormalSame(i);
      NormalSame(j);
    }
  }

  // ----- What the digest determines -----

  lemma {:induction false} StateDeterminesManifest(i: Input, s: Sets, j: Input, t: Sets, digest: Identifier)
    requires StateValue(i, s) == StateValue(j, t)
    ensures ManifestValue(i, s, digest) == ManifestValue(j, t, digest)
  {
    var e, f := StateValue(i, s).entries, StateValue(j, t).entries;
    assert HeadEntries(i, s) == e[..7] == f[..7] == HeadEntries(j, t);
    assert e[7] == f[7];
  }

  function StatePreimage(i: Input, s: Sets): Bytes {
    TranscriptBytes(EXPORT_STATE_DIGEST, [Cbor.Encode(StateValue(i, s))])
  }

  lemma {:induction false} PreimageDetermines(i: Input, s: Sets, j: Input, t: Sets)
    requires Validate(i).Made? && Validate(j).Made? && StateSets(i) == Some(s) && StateSets(j) == Some(t)
    requires StatePreimage(i, s) == StatePreimage(j, t)
    ensures SameSets(i, j)
  {
    SinglePartInjective(EXPORT_STATE_DIGEST, Cbor.Encode(StateValue(i, s)), Cbor.Encode(StateValue(j, t)));
    Cbor.EncodeInjective(StateValue(i, s), StateValue(j, t));
    StateDeterminesManifest(i, s, j, t, i.vaultId);
    FieldsBack(i, s, i.vaultId, ManifestValue(i, s, i.vaultId));
    FieldsBack(j, t, i.vaultId, ManifestValue(j, t, i.vaultId));
    NormalSame(i);
    NormalSame(j);
  }

  lemma {:induction false} MadeDigest(c: Context, i: Input, m: Manifest, s: Sets)
    requires NewManifest(c, i) == Made(m) && StateSets(i) == Some(s)
    ensures Validate(i).Made? && m.stateDigest == c.hash(StatePreimage(i, s))
  {}

  lemma {:induction false} SameDigest(c: Context, i: Input, j: Input, m: Manifest, n: Manifest)
    requires SameSets(i, j) && NewManifest(c, i) == Made(m) && NewManifest(c, j) == Made(n)
    ensures m.stateDigest == n.stateDigest
  {
    ManifestOrderBlind(c, i, j);
  }

  lemma {:induction false} DigestDetermines(c: Context, i: Input, s: Sets, m: Manifest, j: Input, t: Sets, n: Manifest)
    requires NewManifest(c, i) == Made(m) && NewManifest(c, j) == Made(n)
    requires StateSets(i) == Some(s) && StateSets(j) == Some(t)
    requires TellsApart(c.hash, StatePreimage(i, s), StatePreimage(j, t)) && m.stateDigest == n.stateDigest
    ensures SameSets(i, j)
  {
    MadeDigest(c, i, m, s);
    MadeDigest(c, j, n, t);
    PreimageDetermines(i, s, j, t);
  }

  /**
   Where the hash has no collision between the two states, manifests have one digest
   exactly when they differ only in the order of roots and inventory.
   */
  lemma {:induction false} DigestsAlikeIff(c: Context, i: Input, s: Sets, m: Manifest, j: Input, t: Sets, n: Manifest)
    requires NewManifest(c, i) == Made(m) && NewManifest(c, j) == Made(n)
    requires StateSets(i) == Some(s) && StateSets(j) == Some(t)
    requires TellsApart(c.hash, StatePreimage(i, s), StatePreimage(j, t))
    ensures m.stateDigest == n.stateDigest <==> SameSets(i, j)
  {
    if SameSets(i, j) { SameDigest(c, i, j, m, n); }
    if m.stateDigest == n.stateDigest { DigestDetermines(c, i, s, m, j, t, n); }
  }

  /** The nine fields of a manifest as a decoder sees them. */
  function ManifestTable(n: Input, digest: Identifier): Cbor.Value {
    Cbor.Map([
      Cbor.Entry(0, Cbor.UInt(1)), Cbor.Entry(1, Cbor.ByteString(n.vaultId)),
      Cbor.Entry(2, Cbor.ByteString(n.generationId)), Cbor.Entry(3, Cbor.Array(Mapped(IdValue, n.frontier))),
      Cbor.Entry(4, Cbor.ByteString(n.featureSetId)), Cbor.Entry(5, Cbor.Array(Mapped(RootValue, n.roots))),
      Cbor.Entry(6, Cbor.Array(Mapped(ItemValue, n.inventory))), Cbor.Entry(7, Cbor.ByteString(digest)),
      Cbor.Entry(8, Cbor.Array(Mapped(IdValue, n.continuity)))])
  }

  lemma {:induction false} RootsInOrder(roots: List<Dependency>)
    requires SetForm(Mapped(RootValue, roots)).Some?
    ensures SetForm(Mapped(RootValue, roots)).value == Mapped(RootValue, Sorted(RootLess, roots))
  {
    SortedMapped(RootLess, ValueLess, RootValue, roots);
  }

  lemma {:induction false} InventoryInOrder(items: List<OpaqueItem>)
    requires SetForm(Mapped(ItemValue, items)).Some?
    ensures SetForm(Mapped(ItemValue, items)).value == Mapped(ItemValue, Sorted(ItemLess, items))
  {
    SortedMapped(ItemLess, ValueLess, ItemValue, items);
  }

  lemma {:induction false} SetsInOrder(i: Input, s: Sets)
    requires Validate(i).Made? && StateSets(i) == Some(s)
    ensures s.frontier == Mapped(IdValue, i.frontier) && s.continuity == Mapped(IdValue, i.continuity)
    ensures s.roots == Mapped(RootValue, Normal(i).roots) && s.inventory == Mapped(ItemValue, Normal(i).inventory)
  {
    IdsFixed(i.frontier);
    IdsFixed(i.continuity);
    RootsInOrder(i.roots);
    InventoryInOrder(i.inventory);
  }

  lemma {:induction false} TableOf(i: Input, n: Input, s: Sets, digest: Identifier)
    requires n == i.(roots := n.roots, inventory := n.inventory)
    requires s.frontier == Mapped(IdValue, i.frontier) && s.continuity == Mapped(IdValue, i.continuity)
    requires s.roots == Mapped(RootValue, n.roots) && s.inventory == Mapped(ItemValue, n.inventory)
    ensures ManifestValue(i, s, digest) == ManifestTable(n, digest)
  {}

  /** What any canonical decoder reads from the bytes of a manifest: roots and inventory in order. */
  lemma {:induction false} ManifestReadsAs(c: Context, i: Input)
    requires Cbor.Decodes(c.decode) && NewManifest(c, i).Made?
    ensures var m := NewManifest(c, i).value;
      && EncodeManifest(c, m).Made?
      && c.decode(EncodeManifest(c, m).value) == Some(ManifestTable(Normal(i), m.stateDigest))
  {
    var m, s := NewManifest(c, i).value, StateSets(i).value;
    var v := ManifestValue(i, s, m.stateDigest);
    MadeAlike(c, i, i, s);
    DecodesBack(c, v);
    SetsInOrder(i, s);
    TableOf(i, Normal(i), s, m.stateDigest);
  }

  /** What it reads from a logical root and from an inventory item. */
  lemma {:induction false} MembersReadAs(c: Context, d: Dependency, x: OpaqueItem)
    requires Cbor.Decodes(c.decode)
    ensures c.decode(Cbor.Encode(RootValue(d))) ==
      Some(Cbor.Map([Cbor.Entry(0, Cbor.UInt(d.code)), Cbor.Entry(1, Cbor.ByteString(d.id))]))
    ensures c.decode(Cbor.Encode(ItemValue(x))) == Some(Cbor.Map([
      Cbor.Entry(0, Cbor.UInt(x.namespace)), Cbor.Entry(1, Cbor.ByteString(x.logicalId)),
      Cbor.Entry(2, Cbor.ByteString(x.storageItemId)), Cbor.Entry(3, Cbor.ByteString(x.keyEpochId)),
      Cbor.Entry(4, Cbor.UInt(x.byteLength)), Cbor.Entry(5, Cbor.ByteString(x.byteDigest))]))
  {
    DecodesBack(c, RootValue(d));
    DecodesBack(c, ItemValue(x));
  }

  lemma {:induction false} DecodesBack(c: Context, v: Sound)
    requires Cbor.Decodes(c.decode)
    ensures c.decode(Cbor.Encode(v)) == Some(v)
  {
    Cbor.DecodeEncode(v);
    assert c.decode(Cbor.Encode(v)) == Cbor.Decode(Cbor.Encode(v));
  }

  /** Which inputs validate, in plain terms. */
  lemma {:induction false} ValidatesIff(i: Input)
    ensures Validate(i).Made? <==>
      && BigEndianValue(i.vaultId) != 0 && BigEndianValue(i.generationId) != 0
      && i.frontier != [] && i.roots != [] && i.continuity != [] && i.inventory != []
      && (forall k | 0 < k < |i.frontier| :: BigEndianValue(i.frontier[k - 1]) < BigEndianValue(i.frontier[k]))
      && (forall k | 0 < k < |i.continuity| :: BigEndianValue(i.continuity[k - 1]) < BigEndianValue(i.continuity[k]))
      && (forall k | 0 <= k < |i.roots| :: 1 <= i.roots[k].code <= 8)
      && (forall k | 0 <= k < |i.inventory| :: 1 <= i.inventory[k].namespace <= 5 && i.inventory[k].byteLength > 0)
      && (forall k, l | 0 <= k < l < |i.inventory| ::
            && i.inventory[k].storageItemId != i.inventory[l].storageItemId
            && (|| i.inventory[k].namespace != i.inventory[l].namespace
                || i.inventory[k].logicalId != i.inventory[l].logicalId))
  {
    ZeroIsZero(i.vaultId);
    ZeroIsZero(i.generationId);
    IncreasingDistinct(i.frontier);
    IncreasingDistinct(i.continuity);
    assert MembersOk(i.roots, i.inventory) <==>
      && (forall k | 0 <= k < |i.roots| :: 1 <= i.roots[k].code <= 8)
      && (forall k | 0 <= k < |i.inventory| :: 1 <= i.inventory[k].namespace <= 5 && i.inventory[k].byteLength > 0)
      && (forall k, l | 0 <= k < l < |i.inventory| :: ItemsApart(i.inventory[k], i.inventory[l]));
  }

  lemma {:induction false} ZeroIsZero(id: Bytes)
    ensures BigEndianValue(id) == 0 <==> forall k | 0 <= k < |id| :: id[k] == 0
  {
    if id != [] {
      var init := id[..|id| - 1];
      ZeroIsZero(init);
      assert forall k | 0 <= k < |init| :: init[k] == id[k];
    }
  }

  lemma {:induction false} IncreasingDistinct(ids: seq<Identifier>)
    ensures Increasing(ids) ==> Distinct(ids)
  {
    if Increasing(ids) {
      IncreasingIffAscending(ids);
      BytesOrdered(Elements<Bytes>(ids));
      AscendingDistinct<Bytes>(Less, ids);
    }
  }

  // ----- No bytes make the decoder panic -----

  lemma {:induction false} EachAt<A>(from: Cbor.Value -> Option<A>, vs: seq<Cbor.Value>, k: nat)
    requires Each(from, vs).Some? && k < |vs|
    ensures from(vs[k]) == Some(Each(from, vs).value[k])
  {
    if k > 0 { EachAt(from, vs[1..], k - 1); }
  }

  lemma {:induction false} CanonicalIdsDistinct(v: Sound)
    requires SetFrom(IdFrom, v).Some?
    ensures Distinct(SetFrom(IdFrom, v).value)
  {
    var ids := SetFrom(IdFrom, v).value;
    ValuesOrdered(Elements<Sound>(v.items));
    CanonicalIff(v.items);
    AscendingDistinct<Sound>(ValueLess, v.items);
    forall i, j | 0 <= i < j < |ids| ensures ids[i] != ids[j] {
      EachAt(IdFrom, v.items, i);
      EachAt(IdFrom, v.items, j);
    }
  }

  lemma {:induction false} FieldsDistinct(v: Sound)
    requires Fields(v).Some?
    ensures Distinct(Fields(v).value.0.frontier) && Distinct(Fields(v).value.0.continuity)
  {
    CanonicalIdsDistinct(v.entries[3].value);
    CanonicalIdsDistinct(v.entries[8].value);
  }

  /** The sets it reads are checked first, so the panic of `identifiersValue` is out of reach. */
  lemma {:induction false} DecodeNeverPanics(c: Context, encoded: Bytes)
    ensures !DecodeManifest(c, encoded).Panicked?
  {
    var v := c.decode(encoded);
    if v.Some? && Cbor.Valid(v.value) && Fields(v.value).Some? {
      FieldsDistinct(v.value);
      NewManifestOutcome(c, Fields(v.value).value.0);
    }
  }

  // ----- The loops -----

  /** `validateIdentifierSet`: the canonical set is built first, and its failure is a panic. */
  method ValidateIdentifierSet(ids: List<Identifier>) returns (outcome: Outcome<()>)
    ensures outcome == ValidateIds(ids)
  {
    var values := CanonicalSet(Mapped(IdValue, ids));
    DistinctMapped(IdValue, ids);
    if values.None? {
      return Panicked;
    }
    IncreasingIffAscending(ids);
    var ok := InOrder(ids);
    return if ok then Made(()) else Rejected;
  }

  /** The two seen-maps over the inventory. */
  method NoRepeatedItem(items: seq<OpaqueItem>) returns (ok: bool)
    ensures ok <==> Pairwise(ItemsApart, items)
  {
    var logical: set<(Word, Identifier)>, storage: set<Identifier> := {}, {};
    for k := 0 to |items|
      invariant logical == set j | 0 <= j < k :: (items[j].namespace, items[j].logicalId)
      invariant storage == set j | 0 <= j < k :: items[j].storageItemId
      invariant forall i, j | 0 <= i < j < k :: ItemsApart(items[i], items[j])
    {
      var x := items[k];
      if (x.namespace, x.logicalId) in logical || x.storageItemId in storage {
        assert exists j | 0 <= j < k :: !ItemsApart(items[j], x);
        return false;
      }
      logical, storage := logical + {(x.namespace, x.logicalId)}, storage + {x.storageItemId};
    }
    return true;
  }

  method ValidateManifestInput(i: Input) returns (outcome: Outcome<()>)
    ensures outcome == Validate(i)
  {
    if Zero(i.vaultId) || Zero(i.generationId) {
      return Rejected;
    }
    if |i.frontier| == 0 || |i.roots| == 0 || |i.continuity| == 0 || |i.inventory| == 0 {
      return Rejected;
    }
    outcome := ValidateIdentifierSet(i.frontier);
    if !outcome.Made? {
      return;
    }
    outcome := ValidateIdentifierSet(i.continuity);
    if !outcome.Made? {
      return;
    }
    for k := 0 to |i.roots|
      invariant forall j | 0 <= j < k :: RootOk(i.roots[j])
    {
      if !RootOk(i.roots[k]) {
        return Rejected;
      }
    }
    for k := 0 to |i.inventory|
      invariant forall j | 0 <= j < k :: ItemOk(i.inventory[j])
    {
      if !ItemOk(i.inventory[k]) {
        return Rejected;
      }
    }
    var apart := NoRepeatedItem(i.inventory);
    return if apart then Made(()) else Rejected;
  }
}
