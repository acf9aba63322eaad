/**
 What a sort promises: a permutation in which no later element is smaller than
 an earlier one. When the comparison is a strict total order on the elements,
 that outcome is unique, whichever algorithm and input order produced it.
 */
module Sorting {
  import opened ByteStrings

  /** `less` is a strict total order on the elements of `elems`. */
  ghost predicate OrdersStrictly<T>(less: (T, T) -> bool, elems: set<T>) {
    && (forall a | a in elems :: !less(a, a))
    && (forall a, b, c | a in elems && b in elems && c in elems :: less(a, b) && less(b, c) ==> less(a, c))
    && (forall a, b | a in elems && b in elems :: a == b || less(a, b) || less(b, a))
  }

  ghost predicate Ascending<T>(less: (T, T) -> bool, s: seq<T>) {
    forall i | 0 < i < |s| :: less(s[i - 1], s[i])
  }

  ghost function Elements<T>(s: seq<T>): set<T> {
    set x | x in s
  }

  predicate Distinct<T(==)>(s: seq<T>) {
    forall i, j | 0 <= i < j < |s| :: s[i] != s[j]
  }

  /** The promise of a library sort: `sorted` is a permutation of `s` in nondescending order. */
  ghost predicate SortOf<T>(less: (T, T) -> bool, s: seq<T>, sorted: seq<T>) {
    && multiset(sorted) == multiset(s)
    && (forall i, j | 0 <= i < j < |sorted| :: !less(sorted[j], sorted[i]))
  }

  lemma BytesOrdered(elems: set<Bytes>)
    ensures OrdersStrictly(Less, elems)
  {
    forall a | a in elems ensures !Less(a, a) { LessIrreflexive(a); }
    forall a, b, c | a in elems && b in elems && c in elems && Less(a, b) && Less(b, c)
      ensures Less(a, c)
    { LessTransitive(a, b, c); }
    forall a, b | a in elems && b in elems
      ensures a == b || Less(a, b) || Less(b, a)
    { LessTotal(a, b); }
  }

  /** Identifiers in order: strictly increasing, read as 256-bit numbers. */
  predicate Increasing(ids: seq<Identifier>) {
    forall i | 0 < i < |ids| :: BigEndianValue(ids[i - 1]) < BigEndianValue(ids[i])
  }

  /** That is the byte order. */
  lemma IncreasingIffAscending(ids: seq<Identifier>)
    ensures Increasing(ids) <==> Ascending<Bytes>(Less, ids)
  {
    forall i | 0 < i < |ids| ensures Less(ids[i - 1], ids[i]) <==> BigEndianValue(ids[i - 1]) < BigEndianValue(ids[i]) {
      LessIffNumber(ids[i - 1], ids[i]);
    }
  }

  lemma {:induction false} AscendingPair<T>(less: (T, T) -> bool, s: seq<T>, i: nat, j: nat)
    requires OrdersStrictly(less, Elements(s)) && Ascending(less, s) && i < j < |s|
    ensures less(s[i], s[j])
  {
    if i + 1 < j {
      AscendingPair(less, s, i, j - 1);
      assert less(s[j - 1], s[j]);
      assert s[i] in Elements(s) && s[j - 1] in Elements(s) && s[j] in Elements(s);
    }
  }

  lemma AscendingDistinct<T>(less: (T, T) -> bool, s: seq<T>)
    requires OrdersStrictly(less, Elements(s)) && Ascending(less, s)
    ensures Distinct(s)
  {
    forall i, j | 0 <= i < j < |s| ensures s[i] != s[j] {
      AscendingPair(less, s, i, j);
      assert s[i] in Elements(s);
    }
  }

  /** Ascending sequences over the same elements are the same sequence. */
  lemma {:induction false} AscendingUnique<T>(less: (T, T) -> bool, s: seq<T>, t: seq<T>)
    requires OrdersStrictly(less, Elements(s))
    requires Ascending(less, s) && Ascending(less, t) && Elements(s) == Elements(t)
    ensures s == t
  {
    assert t == [] || t[0] in Elements(t);
    if s != [] {
      assert s[0] in Elements(t) && t[0] in Elements(s);
      var i :| 0 <= i < |t| && t[i] == s[0];
      var j :| 0 <= j < |s| && s[j] == t[0];
      if i > 0 { AscendingPair(less, t, 0, i); }
      if j > 0 { AscendingPair(less, s, 0, j); }
      assert s[0] == t[0];
      TailElements(less, s);
      TailElements(less, t);
      AscendingUnique(less, s[1..], t[1..]);
      assert s == [s[0]] + s[1..] && t == [t[0]] + t[1..];
    }
  }

  lemma TailElements<T>(less: (T, T) -> bool, s: seq<T>)
    requires OrdersStrictly(less, Elements(s)) && Ascending(less, s) && s != []
    ensures Elements(s[1..]) == Elements(s) - {s[0]}
    ensures Ascending(less, s[1..]) && OrdersStrictly(less, Elements(s[1..]))
  {
    AscendingDistinct(less, s);
    assert s == [s[0]] + s[1..];
    forall x | x in s[1..] ensures x in Elements(s) && x != s[0] {
      var i :| 0 <= i < |s[1..]| && s[1..][i] == x;
      assert s[i + 1] == x;
    }
  }

  lemma {:induction false} DistinctSize<T>(s: seq<T>)
    requires Distinct(s)
    ensures |Elements(s)| == |s|
  {
    if s != [] {
      var t := s[..|s| - 1];
      var x := s[|s| - 1];
      DistinctSize(t);
      assert s == t + [x];
      assert Elements(s) == Elements(t) + {x};
      assert x !in Elements(t);
    }
  }

  /** A sort of distinct elements ascends strictly. */
  lemma SortAscends<T>(less: (T, T) -> bool, s: seq<T>, sorted: seq<T>)
    requires Distinct(s) && SortOf(less, s, sorted) && OrdersStrictly(less, Elements(s))
    ensures Elements(sorted) == Elements(s) && Distinct(sorted) && |sorted| == |s|
    ensures Ascending(less, sorted)
  {
    SameMultiset(s, sorted);
    forall i | 0 < i < |sorted| ensures less(sorted[i - 1], sorted[i]) {
      assert sorted[i - 1] in Elements(s) && sorted[i] in Elements(s);
      assert sorted[i - 1] != sorted[i];
    }
  }

  lemma SameMultiset<T>(s: seq<T>, t: seq<T>)
    requires multiset(s) == multiset(t)
    ensures Elements(s) == Elements(t) && |s| == |t|
    ensures Distinct(s) ==> Distinct(t)
  {
    forall x ensures x in s <==> x in t {
      assert x in s <==> x in multiset(s);
      assert x in t <==> x in multiset(t);
    }
    assert Elements(s) == Elements(t);
    assert |s| == |multiset(s)| == |multiset(t)| == |t|;
    if Distinct(s) {
      DistinctSize(s);
      forall i, j | 0 <= i < j < |t| ensures t[i] != t[j] {
        if t[i] == t[j] {
          RepeatBound(t, i, j);
          assert false;
        }
      }
    }
  }

  /** A sequence that repeats an element has fewer elements than positions. */
  lemma RepeatBound<T>(t: seq<T>, i: nat, j: nat)
    requires i < j < |t| && t[i] == t[j]
    ensures |Elements(t)| < |t|
  {
    var u := t[..i] + t[i + 1..];
    forall x | x in t ensures x in u {
      var k :| 0 <= k < |t| && t[k] == x;
      if k == i { assert u[j - 1] == x; } else if k < i { assert u[k] == x; } else { assert u[k - 1] == x; }
    }
    forall x | x in u ensures x in t {
      var k :| 0 <= k < |u| && u[k] == x;
      if k < i { assert t[k] == x; } else { assert t[k + 1] == x; }
    }
    assert Elements(u) == Elements(t);
    ElementsBound(u);
  }

  lemma {:induction false} ElementsBound<T>(s: seq<T>)
    ensures |Elements(s)| <= |s|
  {
    if s != [] {
      var t := s[..|s| - 1];
      ElementsBound(t);
      assert s == t + [s[|s| - 1]];
      assert Elements(s) == Elements(t) + {s[|s| - 1]};
    }
  }

  /** Whatever the input order, sorting the same distinct elements gives one result. */
  lemma SortUnique<T>(less: (T, T) -> bool, s: seq<T>, t: seq<T>, a: seq<T>, b: seq<T>)
    requires Distinct(s) && multiset(s) == multiset(t) && OrdersStrictly(less, Elements(s))
    requires SortOf(less, s, a) && SortOf(less, t, b)
    ensures a == b
  {
    SameMultiset(s, t);
    SortAscends(less, s, a);
    SortAscends(less, t, b);
    AscendingUnique(less, a, b);
  }

  // ----- A sort -----

  function Insert<T>(less: (T, T) -> bool, x: T, s: seq<T>): (r: seq<T>)
    ensures |r| == |s| + 1
  {
    if s == [] then [x] else if less(x, s[0]) then [x] + s else [s[0]] + Insert(less, x, s[1..])
  }

  /** One way to sort; `SortedOnly` shows that any other gives the same on distinct elements. */
  function Sorted<T>(less: (T, T) -> bool, s: seq<T>): (r: seq<T>)
    ensures |r| == |s|
  {
    if s == [] then [] else Insert(less, s[0], Sorted(less, s[1..]))
  }

  /** `less` is irreflexive and transitive on `elems`; elements may tie. */
  ghost predicate Compares<T>(less: (T, T) -> bool, elems: set<T>) {
    && (forall a | a in elems :: !less(a, a))
    && (forall a, b, c | a in elems && b in elems && c in elems :: less(a, b) && less(b, c) ==> less(a, c))
  }

  ghost predicate Nondescending<T>(less: (T, T) -> bool, s: seq<T>) {
    forall i, j | 0 <= i < j < |s| :: !less(s[j], s[i])
  }

  lemma {:induction false} InsertKeeps<T>(less: (T, T) -> bool, x: T, s: seq<T>)
    ensures multiset(Insert(less, x, s)) == multiset{x} + multiset(s)
  {
    if s != [] {
      assert s == [s[0]] + s[1..];
      if !less(x, s[0]) { InsertKeeps(less, x, s[1..]); }
    }
  }

  lemma {:induction false} InsertOrders<T>(less: (T, T) -> bool, x: T, s: seq<T>, elems: set<T>)
    requires Compares(less, elems) && x in elems && (forall y | y in s :: y in elems) && Nondescending(less, s)
    ensures Nondescending(less, Insert(less, x, s))
  {
    if s != [] {
      var r, t := Insert(less, x, s), s[1..];
      if less(x, s[0]) {
        forall j | 0 <= j < |s| ensures !less(s[j], x) {
          assert s[j] in s && s[0] in s;
        }
      } else {
        InsertOrders(less, x, t, elems);
        InsertKeeps(less, x, t);
        var rest := Insert(less, x, t);
        forall j | 0 <= j < |rest| ensures !less(rest[j], s[0]) {
          assert rest[j] in multiset(rest);
          if rest[j] != x {
            assert rest[j] in multiset(t);
            var k :| 0 <= k < |t| && t[k] == rest[j];
            assert s[k + 1] == rest[j];
          }
        }
      }
    }
  }

  lemma {:induction false} SortedSorts<T>(less: (T, T) -> bool, s: seq<T>, elems: set<T>)
    requires Compares(less, elems) && forall y | y in s :: y in elems
    ensures SortOf(less, s, Sorted(less, s))
  {
    if s != [] {
      var r := Sorted(less, s[1..]);
      assert s == [s[0]] + s[1..];
      SortedSorts(less, s[1..], elems);
      InsertKeeps(less, s[0], r);
      forall y | y in r ensures y in elems {
        assert y in multiset(r);
        assert y in multiset(s[1..]);
      }
      InsertOrders(less, s[0], r, elems);
    }
  }

  lemma {:induction false} SortedKeeps<T>(less: (T, T) -> bool, s: seq<T>)
    ensures multiset(Sorted(less, s)) == multiset(s)
  {
    if s != [] {
      SortedKeeps(less, s[1..]);
      InsertKeeps(less, s[0], Sorted(less, s[1..]));
      assert s == [s[0]] + s[1..];
    }
  }

  /** On distinct elements every sort is this one, and it ascends strictly. */
  lemma SortedOnly<T>(less: (T, T) -> bool, s: seq<T>, t: seq<T>)
    requires Distinct(s) && multiset(s) == multiset(t) && OrdersStrictly(less, Elements(s))
    ensures forall r | SortOf(less, t, r) :: r == Sorted(less, s)
    ensures Sorted(less, t) == Sorted(less, s)
    ensures SortOf(less, s, Sorted(less, s)) && Ascending(less, Sorted(less, s))
  {
    SortedSorts(less, s, Elements(s));
    SameMultiset(s, t);
    SortedSorts(less, t, Elements(t));
    forall r | SortOf(less, t, r) ensures r == Sorted(less, s) { SortUnique(less, s, t, Sorted(less, s), r); }
    SortAscends(less, s, Sorted(less, s));
  }

  /** What already ascends is left alone. */
  lemma SortedFixed<T>(less: (T, T) -> bool, s: seq<T>)
    requires OrdersStrictly(less, Elements(s)) && Ascending(less, s)
    ensures Distinct(s) && Sorted(less, s) == s
  {
    AscendingDistinct(less, s);
    forall i, j | 0 <= i < j < |s| ensures !less(s[j], s[i]) {
      AscendingPair(less, s, i, j);
      assert s[i] in Elements(s) && s[j] in Elements(s);
    }
    assert SortOf(less, s, s);
    SortedOnly(less, s, s);
  }

  /** Where an element is inserted: after everything it is not below, before the first it is below. */
  lemma {:induction false} InsertAt<T>(less: (T, T) -> bool, x: T, s: seq<T>, k: nat)
    requires k <= |s| && (forall j | 0 <= j < k :: !less(x, s[j])) && (k < |s| ==> less(x, s[k]))
    ensures Insert(less, x, s) == s[..k] + [x] + s[k..]
  {
    if k == 0 {
      assert s[..0] == [] && s[0..] == s;
    } else {
      InsertAt(less, x, s[1..], k - 1);
      assert s[..k] == [s[0]] + s[1..][..k - 1] && s[k..] == s[1..][k - 1..];
    }
  }

  /** Shifted down by one up to `j`, with the element put there, is the insertion. */
  lemma Sifted<T>(less: (T, T) -> bool, was: seq<T>, i: nat, j: nat, result: seq<T>)
    requires i <= j < |was| == |result| && result[j] == was[i]
    requires forall k | 0 <= k < i :: result[k] == was[k]
    requires forall k | i <= k < j :: result[k] == was[k + 1]
    requires forall k | j < k < |was| :: result[k] == was[k]
    requires forall k | i < k <= j :: !less(was[i], was[k])
    requires j + 1 < |was| ==> less(was[i], was[j + 1])
    ensures result[..i] == was[..i] && result[i..] == Insert(less, was[i], was[i + 1..])
  {
    var above, k := was[i + 1..], j - i;
    forall l | 0 <= l < k ensures !less(was[i], above[l]) { assert above[l] == was[i + 1 + l]; }
    InsertAt(less, was[i], above, k);
    var whole := above[..k] + [was[i]] + above[k..];
    forall l | 0 <= l < |whole| ensures result[i + l] == whole[l] {
      if l < k { assert result[i + l] == was[i + l + 1]; }
    }
    assert result[i..] == whole;
  }

  // ----- Images of permutations -----

  function Without<T>(s: seq<T>, k: nat): (r: seq<T>)
    requires k < |s|
    ensures |r| == |s| - 1 && forall j | 0 <= j < |r| :: r[j] == s[if j < k then j else j + 1]
  {
    s[..k] + s[k + 1..]
  }

  lemma WithoutMultiset<T>(s: seq<T>, k: nat)
    requires k < |s|
    ensures multiset(s) == multiset(Without(s, k)) + multiset{s[k]}
    ensures multiset(Without(s, k)) == multiset(s) - multiset{s[k]}
  {
    assert s == s[..k] + [s[k]] + s[k + 1..];
  }

  /** Mapping the elements of two permutations gives two permutations. */
  lemma {:induction false} PermutedImages<A, B>(s: seq<A>, t: seq<A>, u: seq<B>, v: seq<B>)
    requires multiset(s) == multiset(t) && |u| == |s| && |v| == |t|
    requires forall i, j | 0 <= i < |s| && 0 <= j < |t| :: s[i] == t[j] ==> u[i] == v[j]
    ensures multiset(u) == multiset(v)
    decreases |s|
  {
    assert |multiset(s)| == |multiset(t)|;
    if s != [] {
      assert s[0] in multiset(t);
      var k :| 0 <= k < |t| && t[k] == s[0];
      WithoutMultiset(s, 0);
      WithoutMultiset(t, k);
      WithoutMultiset(u, 0);
      WithoutMultiset(v, k);
      PermutedImages(Without(s, 0), Without(t, k), Without(u, 0), Without(v, k));
    }
  }

  // ----- Images of sorted sequences -----

  function Mapped<A, B>(f: A -> B, s: seq<A>): (r: seq<B>)
    ensures |r| == |s| && forall i | 0 <= i < |s| :: r[i] == f(s[i])
  {
    if s == [] then [] else [f(s[0])] + Mapped(f, s[1..])
  }

  /** Comparing images and mapping afterwards is mapping first and sorting the images. */
  lemma {:induction false} SortedMapped<A, B>(less: (A, A) -> bool, image: (B, B) -> bool, f: A -> B, s: seq<A>)
    requires forall a, b :: less(a, b) <==> image(f(a), f(b))
    ensures Sorted(image, Mapped(f, s)) == Mapped(f, Sorted(less, s))
  {
    if s != [] {
      SortedMapped(less, image, f, s[1..]);
      assert Mapped(f, s)[1..] == Mapped(f, s[1..]);
      InsertMapped(less, image, f, s[0], Sorted(less, s[1..]));
    }
  }

  lemma {:induction false} InsertMapped<A, B>(less: (A, A) -> bool, image: (B, B) -> bool, f: A -> B, x: A, s: seq<A>)
    requires forall a, b :: less(a, b) <==> image(f(a), f(b))
    ensures Insert(image, f(x), Mapped(f, s)) == Mapped(f, Insert(less, x, s))
  {
    if s != [] {
      InsertMapped(less, image, f, x, s[1..]);
      assert Mapped(f, s)[1..] == Mapped(f, s[1..]);
    }
  }

  // ----- Pairwise conditions -----

  ghost predicate Pairwise<T>(r: (T, T) -> bool, s: seq<T>) {
    forall i, j | 0 <= i < j < |s| :: r(s[i], s[j])
  }

  /** A symmetric condition that tells elements apart holds of every permutation. */
  lemma PairwisePermuted<T>(r: (T, T) -> bool, s: seq<T>, t: seq<T>)
    requires multiset(s) == multiset(t) && Pairwise(r, s)
    requires forall a, b :: r(a, b) ==> r(b, a) && a != b
    ensures Pairwise(r, t)
  {
    SameMultiset(s, t);
    forall i, j | 0 <= i < j < |t| ensures r(t[i], t[j]) {
      assert t[i] in Elements(s) && t[j] in Elements(s);
      var k :| 0 <= k < |s| && s[k] == t[i];
      var l :| 0 <= l < |s| && s[l] == t[j];
      assert k != l;
      assert if k < l then r(s[k], s[l]) else r(s[l], s[k]);
    }
  }

  // ----- The two walks of every set check -----

  /** A seen-map walk: no element comes twice. */
  method NoRepeat<T(==)>(s: seq<T>) returns (ok: bool)
    ensures ok <==> Distinct(s)
  {
    var seen: set<T> := {};
    for i := 0 to |s|
      invariant forall x :: x in seen <==> exists j | 0 <= j < i :: s[j] == x
      invariant forall j, k | 0 <= j < k < i :: s[j] != s[k]
    {
      if s[i] in seen {
        return false;
      }
      seen := seen + {s[i]};
    }
    return true;
  }

  /** Each neighbour is larger. */
  method InOrder(s: seq<Bytes>) returns (ok: bool)
    ensures ok <==> Ascending(Less, s)
  {
    var i := 1;
    while i < |s|
      invariant 1 <= i && forall j | 0 < j < i && j < |s| :: Less(s[j - 1], s[j])
    {
      if !Less(s[i - 1], s[i]) {
        return false;
      }
      i := i + 1;
    }
    return true;
  }
}
