/**
 Byte strings as the Go and TypeScript runtimes see them: big-endian integers,
 concatenation of chunks, and the lexicographic order of `bytes.Compare`.
 */
module ByteStrings {

  type Byte = x: nat | x < 256

  type Bytes = seq<Byte>

  /** A 32-byte content address. */
  type Identifier = b: Bytes | |b| == 32 witness seq(32, _ => 0)

  const UINT32: nat := 0x1_0000_0000
  const UINT64: nat := 0x1_0000_0000_0000_0000

  /** JavaScript's largest safe integer, 2^53 - 1. */
  const MAX_SAFE_INTEGER: nat := 0x1F_FFFF_FFFF_FFFF

  /** A Go `uint64`. */
  type Word = n: nat | n < UINT64

  /** Go slices and strings, whose lengths fit a machine word. */
  type List<T> = s: seq<T> | |s| < UINT64 witness []

  type Slice = b: Bytes | |b| < UINT64 witness []

  datatype Option<+T> = None | Some(value: T)

  // ----- Big-endian integers -----

  function Power256(width: nat): (p: nat)
    ensures p > 0
  {
    if width == 0 then 1 else 256 * Power256(width - 1)
  }

  /** The low `width` bytes of `n`, most significant first. */
  function BigEndian(n: nat, width: nat): (b: Bytes)
    ensures |b| == width
  {
    if width == 0 then [] else BigEndian(n / 256, width - 1) + [n % 256]
  }

  function BigEndianValue(b: Bytes): nat {
    if b == [] then 0 else BigEndianValue(b[..|b| - 1]) * 256 + b[|b| - 1]
  }

  function Uint32(n: nat): (b: Bytes)
    ensures |b| == 4
  {
    BigEndian(n, 4)
  }

  function Uint64(n: nat): (b: Bytes)
    ensures |b| == 8
  {
    BigEndian(n, 8)
  }

  lemma PowerValues()
    ensures Power256(4) == UINT32 && Power256(8) == UINT64
  {
    assert Power256(2) == 65536;
    assert Power256(4) == UINT32;
    assert Power256(6) == 65536 * UINT32;
  }

  lemma {:induction false} BigEndianRoundTrip(n: nat, width: nat)
    requires n < Power256(width)
    ensures BigEndianValue(BigEndian(n, width)) == n
  {
    if width > 0 {
      var b := BigEndian(n, width);
      BigEndianRoundTrip(n / 256, width - 1);
      assert b[..width - 1] == BigEndian(n / 256, width - 1);
    }
  }

  lemma {:induction false} BigEndianValueRoundTrip(b: Bytes)
    ensures BigEndian(BigEndianValue(b), |b|) == b
    ensures BigEndianValue(b) < Power256(|b|)
  {
    if b != [] {
      BigEndianValueRoundTrip(b[..|b| - 1]);
      assert b == b[..|b| - 1] + [b[|b| - 1]];
    }
  }

  lemma Uint32RoundTrip(n: nat)
    requires n < UINT32
    ensures BigEndianValue(Uint32(n)) == n
  {
    PowerValues();
    BigEndianRoundTrip(n, 4);
  }

  lemma Uint64RoundTrip(n: nat)
    requires n < UINT64
    ensures BigEndianValue(Uint64(n)) == n
  {
    PowerValues();
    BigEndianRoundTrip(n, 8);
  }

  lemma Uint32Value(b: Bytes)
    requires |b| == 4
    ensures BigEndianValue(b) < UINT32 && Uint32(BigEndianValue(b)) == b
  {
    PowerValues();
    BigEndianValueRoundTrip(b);
  }

  lemma Uint64Value(b: Bytes)
    requires |b| == 8
    ensures BigEndianValue(b) < UINT64 && Uint64(BigEndianValue(b)) == b
  {
    PowerValues();
    BigEndianValueRoundTrip(b);
  }

  // ----- Concatenation -----

  function Concat(parts: seq<Bytes>): (b: Bytes) {
    if parts == [] then [] else parts[0] + Concat(parts[1..])
  }

  lemma {:induction false} ConcatAppend(left: seq<Bytes>, right: seq<Bytes>)
    ensures Concat(left + right) == Concat(left) + Concat(right)
  {
    if left == [] {
      assert left + right == right;
    } else {
      ConcatAppend(left[1..], right);
      assert (left + right)[1..] == left[1..] + right;
      assert (left + right)[0] == left[0];
      Associative(left[0], Concat(left[1..]), Concat(right));
    }
  }

  lemma Associative<T>(a: seq<T>, b: seq<T>, c: seq<T>)
    ensures (a + b) + c == a + (b + c)
  {}

  lemma ConcatSnoc(parts: seq<Bytes>, last: Bytes)
    ensures Concat(parts + [last]) == Concat(parts) + last
  {
    ConcatAppend(parts, [last]);
    assert Concat([last]) == last + [];
  }

  /** Two concatenations with first parts of one length agree part by part. */
  lemma SplitEqual(a: Bytes, b: Bytes, x: Bytes, y: Bytes)
    requires |a| == |b| && a + x == b + y
    ensures a == b && x == y
  {
    assert a == (a + x)[..|a|] == (b + y)[..|b|] == b;
    assert x == (a + x)[|a|..] == (b + y)[|b|..] == y;
  }

  /** What an accumulating loop returns when it holds `done` and the rest comes to `more`. */
  function After(done: Bytes, more: Option<Bytes>): Option<Bytes> {
    if more.None? then None else Some(done + more.value)
  }

  lemma AfterTwice(first: Bytes, second: Bytes, more: Option<Bytes>)
    ensures After(first, After(second, more)) == After(first + second, more)
  {
    if more.Some? { Associative(first, second, more.value); }
  }

  // ----- Lexicographic order -----

  predicate Less(a: Bytes, b: Bytes) {
    if b == [] then false
    else if a == [] then true
    else a[0] < b[0] || (a[0] == b[0] && Less(a[1..], b[1..]))
  }

  lemma {:induction false} LessIrreflexive(a: Bytes)
    ensures !Less(a, a)
  {
    if a != [] { LessIrreflexive(a[1..]); }
  }

  lemma {:induction false} LessTransitive(a: Bytes, b: Bytes, c: Bytes)
    requires Less(a, b) && Less(b, c)
    ensures Less(a, c)
  {
    if a != [] && a[0] == b[0] == c[0] { LessTransitive(a[1..], b[1..], c[1..]); }
  }

  lemma {:induction false} LessTotal(a: Bytes, b: Bytes)
    ensures a == b || Less(a, b) || Less(b, a)
  {
    if a != [] && b != [] && a[0] == b[0] {
      LessTotal(a[1..], b[1..]);
      assert a == [a[0]] + a[1..] && b == [b[0]] + b[1..];
    }
  }

  // ----- What the order means -----

  /** Up to `k` the two agree; there `a` ends, or has the smaller byte. */
  ghost predicate SmallerAt(a: Bytes, b: Bytes, k: int) {
    0 <= k <= |a| && k < |b| && a[..k] == b[..k] && (k == |a| || a[k] < b[k])
  }

  lemma SmallerAtFirst(a: Bytes, b: Bytes, k: int)
    requires SmallerAt(a, b, k)
    ensures a == [] || (if k == 0 then a[0] < b[0] else a[0] == b[0])
  {
    if k > 0 { assert a[0] == a[..k][0] == b[..k][0] == b[0]; }
  }

  /** Lexicographic: the first difference decides, and a proper beginning comes first. */
  lemma {:induction false} LessIffSmallerAt(a: Bytes, b: Bytes)
    ensures Less(a, b) <==> exists k :: SmallerAt(a, b, k)
  {
    if a == [] || b == [] || a[0] != b[0] {
      if Less(a, b) { assert SmallerAt(a, b, 0); }
      forall k | SmallerAt(a, b, k) ensures Less(a, b) { SmallerAtFirst(a, b, k); }
    } else {
      var s, t := a[1..], b[1..];
      LessIffSmallerAt(s, t);
      assert a == [a[0]] + s && b == [a[0]] + t;
      forall k | SmallerAt(s, t, k) ensures SmallerAt(a, b, k + 1) {
        assert a[..k + 1] == [a[0]] + s[..k] && b[..k + 1] == [a[0]] + t[..k];
      }
      forall k | SmallerAt(a, b, k) ensures SmallerAt(s, t, k - 1) {
        assert s[..k - 1] == a[..k][1..] && t[..k - 1] == b[..k][1..];
      }
    }
  }

  /** The first byte is the most significant one. */
  lemma {:induction false} BigEndianCons(x: Byte, rest: Bytes)
    ensures BigEndianValue([x] + rest) == x * Power256(|rest|) + BigEndianValue(rest)
  {
    var b := [x] + rest;
    if rest == [] {
      assert b[..0] == [] && b == [x];
    } else {
      var init, last := rest[..|rest| - 1], rest[|rest| - 1];
      BigEndianCons(x, init);
      assert b[..|b| - 1] == [x] + init && b[|b| - 1] == last;
      assert x * Power256(|rest|) == 256 * (x * Power256(|init|));
    }
  }

  /** Byte strings of one length are ordered as the numbers they spell. */
  lemma {:induction false} LessIffNumber(a: Bytes, b: Bytes)
    requires |a| == |b|
    ensures Less(a, b) <==> BigEndianValue(a) < BigEndianValue(b)
  {
    if a != [] {
      var s, t := a[1..], b[1..];
      assert a == [a[0]] + s && b == [b[0]] + t;
      BigEndianCons(a[0], s);
      BigEndianCons(b[0], t);
      BigEndianValueRoundTrip(s);
      BigEndianValueRoundTrip(t);
      LessIffNumber(s, t);
      LeadingDigit(a[0], b[0], Power256(|s|), BigEndianValue(s), BigEndianValue(t));
    }
  }

  lemma LeadingDigit(x: nat, y: nat, base: nat, u: nat, v: nat)
    requires u < base && v < base
    ensures x * base + u < y * base + v <==> x < y || (x == y && u < v)
  {
    if x < y { Gap(x, y, base); }
    if y < x { Gap(y, x, base); }
  }

  lemma Gap(x: nat, y: nat, base: nat)
    requires x < y
    ensures x * base + base <= y * base
  {
    assert (x + 1) * base <= y * base;
  }
}
