/**
 XChaCha20-Poly1305 and SHA-256 as parameters. Nothing is assumed of them
 beyond the laws named here; `TrivialExact` shows the laws can be met.
 */
module Ciphers {
  import opened ByteStrings

  const TAG_LENGTH: nat := 16
  const KEY_LENGTH: nat := 32
  const NONCE_LENGTH: nat := 24

  /** `seal(key, nonce, plaintext, aad)` and `open(key, nonce, ciphertext, aad)`. */
  datatype Cipher = Cipher(
    seal: (Bytes, Bytes, Bytes, Bytes) -> Bytes,
    open: (Bytes, Bytes, Bytes, Bytes) -> Option<Bytes>)

  type Hash = Bytes -> Bytes

  ghost predicate Digests(hash: Hash) {
    forall b :: |hash(b)| == 32
  }

  /** These two are no collision. */
  predicate TellsApart<T(==)>(hash: Bytes -> T, a: Bytes, b: Bytes) {
    hash(a) == hash(b) ==> a == b
  }

  /** Opening undoes sealing, and a ciphertext is one tag longer than its plaintext. */
  ghost predicate Lawful(c: Cipher) {
    && (forall k, n, p, a :: |c.seal(k, n, p, a)| == |p| + TAG_LENGTH)
    && (forall k, n, p, a :: c.open(k, n, c.seal(k, n, p, a), a) == Some(p))
    && (forall k, n, x, a :: c.open(k, n, x, a).Some? ==> |x| == |c.open(k, n, x, a).value| + TAG_LENGTH)
  }

  /** Opening succeeds only on what sealing produces. */
  ghost predicate Exact(c: Cipher) {
    && Lawful(c)
    && (forall k, n, x, a :: c.open(k, n, x, a).Some? ==> c.seal(k, n, c.open(k, n, x, a).value, a) == x)
  }

  // ----- A cipher and a hash that meet the laws -----

  const ZERO_TAG: Bytes := [0, 0, 0, 0, 0, 0, 0, 0, 0, 0, 0, 0, 0, 0, 0, 0]

  function TrivialSeal(key: Bytes, nonce: Bytes, plaintext: Bytes, aad: Bytes): Bytes {
    plaintext + ZERO_TAG
  }

  function TrivialOpen(key: Bytes, nonce: Bytes, x: Bytes, aad: Bytes): Option<Bytes> {
    if |x| >= TAG_LENGTH && x[|x| - TAG_LENGTH..] == ZERO_TAG then Some(x[..|x| - TAG_LENGTH]) else None
  }

  function TrivialHash(b: Bytes): Bytes {
    ZERO_TAG + ZERO_TAG
  }

  lemma TrivialExact()
    ensures Exact(Cipher(TrivialSeal, TrivialOpen)) && Digests(TrivialHash)
  {
    var c := Cipher(TrivialSeal, TrivialOpen);
    forall k: Bytes, n: Bytes, p: Bytes, a: Bytes ensures c.open(k, n, c.seal(k, n, p, a), a) == Some(p) {
      var x := p + ZERO_TAG;
      assert x[|x| - TAG_LENGTH..] == ZERO_TAG && x[..|x| - TAG_LENGTH] == p;
    }
    forall k: Bytes, n: Bytes, x: Bytes, a: Bytes
      ensures c.open(k, n, x, a).Some? ==> c.seal(k, n, c.open(k, n, x, a).value, a) == x
    {
      if c.open(k, n, x, a).Some? { assert x == x[..|x| - TAG_LENGTH] + x[|x| - TAG_LENGTH..]; }
    }
  }
}
