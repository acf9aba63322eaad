/**
 Canonical CBOR, section 4.2.1 of RFC 8949, restricted to what the fixed-shape
 headers use: unsigned integers, byte and text strings, arrays, and maps with
 ascending numeric keys. Decoding accepts exactly the canonical encodings, which
 is what `DecodeValue` enforces by encoding again and comparing.
 */
module Cbor {
  import opened ByteStrings

  datatype Value =
    | UInt(n: nat)
    | ByteString(b: Bytes)
    | Text(t: Bytes)
    | Array(items: seq<Value>)
    | Map(entries: seq<Entry>)

  datatype Entry = Entry(key: nat, value: Value)

  predicate Valid(v: Value) {
    match v
    case UInt(n) => n < UINT64
    case ByteString(b) => |b| < UINT64
    case Text(t) => |t| < UINT64
    case Array(items) => |items| < UINT64 && forall i | 0 <= i < |items| :: Valid(items[i])
    case Map(entries) =>
      && |entries| < UINT64
      && (forall i | 0 <= i < |entries| :: entries[i].key < UINT64 && Valid(entries[i].value))
      && (forall i | 0 < i < |entries| :: entries[i - 1].key < entries[i].key)
  }

  /** What `Valid` asks of the entries of a map. */
  predicate EntriesOk(entries: seq<Entry>) {
    && |entries| < UINT64
    && (forall i | 0 <= i < |entries| :: entries[i].key < UINT64 && Valid(entries[i].value))
    && (forall i | 0 < i < |entries| :: entries[i - 1].key < entries[i].key)
  }

  /** The initial byte and the shortest argument that holds `n`. */
  function Head(major: nat, n: nat): (b: Bytes)
    requires major < 8 && n < UINT64
    ensures 1 <= |b| <= 9
  {
    if n < 24 then [major * 32 + n]
    else if n < 0x100 then [major * 32 + 24] + BigEndian(n, 1)
    else if n < 0x1_0000 then [major * 32 + 25] + BigEndian(n, 2)
    else if n < UINT32 then [major * 32 + 26] + BigEndian(n, 4)
    else [major * 32 + 27] + BigEndian(n, 8)
  }

  function ArgumentWidth(n: nat): nat {
    if n < 24 then 0 else if n < 0x100 then 1 else if n < 0x1_0000 then 2 else if n < UINT32 then 4 else 8
  }

  function Encode(v: Value): (b: Bytes)
    requires Valid(v)
    ensures |b| >= 1
    decreases v, 1
  {
    match v
    case UInt(n) => Head(0, n)
    case ByteString(b) => Head(2, |b|) + b
    case Text(t) => Head(3, |t|) + t
    case Array(items) => Head(4, |items|) + EncodeItems(items)
    case Map(entries) => Head(5, |entries|) + EncodeEntries(entries)
  }

  function EncodeItems(items: seq<Value>): Bytes
    requires forall i | 0 <= i < |items| :: Valid(items[i])
    decreases items, 0
  {
    if items == [] then [] else Encode(items[0]) + EncodeItems(items[1..])
  }

  function EncodeEntries(entries: seq<Entry>): Bytes
    requires forall i | 0 <= i < |entries| :: entries[i].key < UINT64 && Valid(entries[i].value)
    decreases entries, 0
  {
    if entries == [] then []
    else
      assert entries[0].value < entries[0];
      Head(0, entries[0].key) + (Encode(entries[0].value) + EncodeEntries(entries[1..]))
  }

  // ----- One head per argument, one encoding per value -----

  lemma BigEndianInjective(m: nat, n: nat, width: nat)
    requires m < Power256(width) && n < Power256(width) && BigEndian(m, width) == BigEndian(n, width)
    ensures m == n
  {
    BigEndianRoundTrip(m, width);
    BigEndianRoundTrip(n, width);
  }

  lemma HeadShape(major: nat, n: nat)
    requires major < 8 && n < UINT64
    ensures var w := ArgumentWidth(n);
      && n < (if w == 0 then 24 else Power256(w))
      && Head(major, n) == [Head(major, n)[0]] + (if w == 0 then [] else BigEndian(n, w))
      && Head(major, n)[0] == major * 32 +
           (if w == 0 then n else if w == 1 then 24 else if w == 2 then 25 else if w == 4 then 26 else 27)
  {
    PowerValues();
    assert Power256(1) == 0x100 && Power256(2) == 0x1_0000;
  }

  /**
   How a decoder reads a head, in the words of section 3 of RFC 8949: the high three bits are the major
   type; the low five are the argument, or say that it is in the 1, 2, 4 or 8 bytes that follow. Each
   width is used only for arguments too large for the one before.
   */
  lemma HeadReads(major: nat, n: nat)
    requires major < 8 && n < UINT64
    ensures var h := Head(major, n); var low := h[0] % 32;
      && h[0] / 32 == major && low <= 27
      && (low < 24 ==> |h| == 1 && n == low)
      && (low == 24 ==> |h| == 2 && n == BigEndianValue(h[1..]) >= 24)
      && (low == 25 ==> |h| == 3 && n == BigEndianValue(h[1..]) >= 0x100)
      && (low == 26 ==> |h| == 5 && n == BigEndianValue(h[1..]) >= 0x1_0000)
      && (low == 27 ==> |h| == 9 && n == BigEndianValue(h[1..]) >= UINT32)
  {
    HeadShape(major, n);
    var w := ArgumentWidth(n);
    if w > 0 {
      BigEndianRoundTrip(n, w);
      assert Head(major, n)[1..] == BigEndian(n, w);
    }
  }

  /** The major types of section 3.1 of RFC 8949. */
  lemma MajorTypes(v: Value)
    requires Valid(v)
    ensures Encode(v)[0] / 32 ==
      if v.UInt? then 0 else if v.ByteString? then 2 else if v.Text? then 3 else if v.Array? then 4 else 5
  {
    var (major, n, rest) := Parts(v);
    HeadReads(major, n);
    assert Encode(v)[0] == Head(major, n)[0];
  }

  lemma HeadPrefixFree(m: nat, n: nat, m': nat, n': nat, s: Bytes, t: Bytes)
    requires m < 8 && m' < 8 && n < UINT64 && n' < UINT64
    requires Head(m, n) + s == Head(m', n') + t
    ensures m == m' && n == n' && s == t
  {
    HeadShape(m, n);
    HeadShape(m', n');
    var h, h' := Head(m, n), Head(m', n');
    assert h[0] == (h + s)[0] == (h' + t)[0] == h'[0];
    var w := ArgumentWidth(n);
    assert m == m' && ArgumentWidth(n') == w;
    SplitEqual(h, h', s, t);
    if w > 0 {
      assert BigEndian(n, w) == h[1..] && BigEndian(n', w) == h'[1..];
      BigEndianInjective(n, n', w);
    }
  }

  lemma {:induction false} EncodePrefixFree(v: Value, w: Value, s: Bytes, t: Bytes)
    requires Valid(v) && Valid(w) && Encode(v) + s == Encode(w) + t
    ensures v == w && s == t
    decreases v, 1
  {
    var (major, n, rest) := Parts(v);
    var (major', n', rest') := Parts(w);
    Associative(Head(major, n), rest, s);
    Associative(Head(major', n'), rest', t);
    HeadPrefixFree(major, n, major', n', rest + s, rest' + t);
    match v
    case UInt(_) => assert [] + s == s && [] + t == t;
    case ByteString(b) => SplitEqual(b, w.b, s, t);
    case Text(b) => SplitEqual(b, w.t, s, t);
    case Array(items) => ItemsPrefixFree(items, w.items, s, t);
    case Map(entries) => EntriesPrefixFree(entries, w.entries, s, t);
  }

  /** The major type, argument and content of an encoding. */
  ghost function Parts(v: Value): (r: (nat, nat, Bytes))
    requires Valid(v)
    ensures r.0 < 8 && r.1 < UINT64 && Encode(v) == Head(r.0, r.1) + r.2
  {
    match v
    case UInt(n) => assert Head(0, n) == Head(0, n) + []; (0, n, [])
    case ByteString(b) => (2, |b|, b)
    case Text(t) => (3, |t|, t)
    case Array(items) => (4, |items|, EncodeItems(items))
    case Map(entries) => (5, |entries|, EncodeEntries(entries))
  }

  lemma {:induction false} ItemsPrefixFree(vs: seq<Value>, ws: seq<Value>, s: Bytes, t: Bytes)
    requires |vs| == |ws|
    requires forall i | 0 <= i < |vs| :: Valid(vs[i]) && Valid(ws[i])
    requires EncodeItems(vs) + s == EncodeItems(ws) + t
    ensures vs == ws && s == t
    decreases vs, 0
  {
    if vs != [] {
      Associative(Encode(vs[0]), EncodeItems(vs[1..]), s);
      Associative(Encode(ws[0]), EncodeItems(ws[1..]), t);
      EncodePrefixFree(vs[0], ws[0], EncodeItems(vs[1..]) + s, EncodeItems(ws[1..]) + t);
      ItemsPrefixFree(vs[1..], ws[1..], s, t);
      assert vs == [vs[0]] + vs[1..] && ws == [ws[0]] + ws[1..];
    } else {
      assert [] + s == s && [] + t == t;
    }
  }

  lemma {:induction false} EntriesPrefixFree(es: seq<Entry>, fs: seq<Entry>, s: Bytes, t: Bytes)
    requires |es| == |fs|
    requires forall i | 0 <= i < |es| :: es[i].key < UINT64 && Valid(es[i].value)
    requires forall i | 0 <= i < |fs| :: fs[i].key < UINT64 && Valid(fs[i].value)
    requires EncodeEntries(es) + s == EncodeEntries(fs) + t
    ensures es == fs && s == t
    decreases es, 0
  {
    if es != [] {
      var e, f := es[0], fs[0];
      var x, y := EncodeEntries(es[1..]), EncodeEntries(fs[1..]);
      Associative(Head(0, e.key), Encode(e.value) + x, s);
      Associative(Head(0, f.key), Encode(f.value) + y, t);
      HeadPrefixFree(0, e.key, 0, f.key, Encode(e.value) + x + s, Encode(f.value) + y + t);
      Associative(Encode(e.value), x, s);
      Associative(Encode(f.value), y, t);
      assert e.value < e;
      EncodePrefixFree(e.value, f.value, x + s, y + t);
      EntriesPrefixFree(es[1..], fs[1..], s, t);
      assert es == [es[0]] + es[1..] && fs == [fs[0]] + fs[1..];
    } else {
      assert [] + s == s && [] + t == t;
    }
  }

  lemma EncodeInjective(v: Value, w: Value)
    requires Valid(v) && Valid(w) && Encode(v) == Encode(w)
    ensures v == w
  {
    assert Encode(v) + [] == Encode(w) + [];
    EncodePrefixFree(v, w, [], []);
  }

  // ----- Decoding -----

  /** The one value whose canonical encoding is `b`, if there is one. */
  ghost function Decode(b: Bytes): (r: Option<Value>)
    ensures r.Some? ==> Valid(r.value) && Encode(r.value) == b
  {
    if v: Value :| Valid(v) && Encode(v) == b then Some(v) else None
  }

  lemma DecodeEncode(v: Value)
    requires Valid(v)
    ensures Decode(Encode(v)) == Some(v)
  {
    var b := Encode(v);
    assert Decode(b).Some?;
    EncodeInjective(v, Decode(b).value);
  }

  /** A decoder that accepts exactly the canonical encodings, as the library behind `DecodeValue` does. */
  type Decoder = Bytes -> Option<Value>

  ghost predicate Decodes(decode: Decoder) {
    forall b :: decode(b) == Decode(b)
  }

  /** There is such a decoder. */
  lemma DecoderExists()
    ensures exists decode: Decoder :: Decodes(decode)
  {
    ghost var decode: Decoder := b => Decode(b);
    assert Decodes(decode);
  }

  lemma OneMore(n: nat, size: nat)
    ensures (n + 1) * size == n * size + size
  {}

  /** A bound on the size of a map of `n` entries with values of at most `bound` bytes. */
  lemma {:induction false} EntriesBound(entries: seq<Entry>, bound: nat)
    requires forall i | 0 <= i < |entries| ::
      entries[i].key < UINT64 && Valid(entries[i].value) && |Encode(entries[i].value)| <= bound
    ensures |EncodeEntries(entries)| <= |entries| * (9 + bound)
  {
    if entries != [] {
      var first, rest := entries[0], entries[1..];
      EntriesBound(rest, bound);
      assert EncodeEntries(entries) == Head(0, first.key) + (Encode(first.value) + EncodeEntries(rest));
      OneMore(|rest|, 9 + bound);
    }
  }
}
