/** The bucket-selecting hash of the hash backend (`SymTable_hash`). */
module Hashing {
  import opened Keys

  /** The multiplier of the polynomial accumulator. */
  const HashMultiplier: nat := 65599

  /** `size_t` is 64 bits wide: its arithmetic wraps modulo 2^64. */
  const WordModulus: nat := 0x1_0000_0000_0000_0000

  /** The accumulator after the whole key: starting from 0, every byte `c` in
      order updates `h` to `h * 65599 + c`, wrapped to 64 bits. */
  function HashWord(key: Key): (h: nat)
    ensures h < WordModulus
    decreases |key|
  {
    if |key| == 0 then 0
    else (HashWord(key[..|key| - 1]) * HashMultiplier + key[|key| - 1]) % WordModulus
  }

  /** Reference definition: the same polynomial over unbounded integers,
      key[0] * 65599^(n-1) + ... + key[n-1], with no wrap-around. */
  function Polynomial(key: Key): nat
    decreases |key|
  {
    if |key| == 0 then 0
    else Polynomial(key[..|key| - 1]) * HashMultiplier + key[|key| - 1]
  }

  /** The bucket of `key` in a table of `bucketCount` buckets. */
  function Hash(key: Key, bucketCount: nat): (h: nat)
    requires bucketCount > 0
    ensures h < bucketCount
  {
    HashWord(key) % bucketCount
  }

  /** The byte-by-byte loop of `SymTable_hash`, computing the same bucket. */
  method ComputeHash(key: Key, bucketCount: nat) returns (h: nat)
    requires bucketCount > 0
    ensures h < bucketCount
    ensures h == HashWord(key) % bucketCount
    ensures h == Polynomial(key) % WordModulus % bucketCount
  {
    var hash := 0;
    var u := 0;
    while u < |key|
      invariant 0 <= u <= |key|
      invariant hash == HashWord(key[..u])
    {
      assert key[..u + 1][..u] == key[..u];
      hash := (hash * HashMultiplier + key[u]) % WordModulus;
      u := u + 1;
    }
    assert key[..u] == key;
    HashWordIsPolynomial(key);
    h := hash % bucketCount;
  }

  /** Adding a multiple of the modulus does not change the residue. */
  lemma {:induction false} AddMultiple(x: nat, y: nat)
    ensures (x + y * WordModulus) % WordModulus == x % WordModulus
  {
    if y > 0 {
      AddMultiple(x, y - 1);
      assert x + y * WordModulus == (x + (y - 1) * WordModulus) + WordModulus;
    }
  }

  /** Reducing the accumulator before a step gives the same residue as
      reducing after it. */
  lemma WrapStep(a: nat, c: nat)
    ensures ((a % WordModulus) * HashMultiplier + c) % WordModulus
         == (a * HashMultiplier + c) % WordModulus
  {
    var q := a / WordModulus;
    var r := a % WordModulus;
    assert a == q * WordModulus + r;
    assert a * HashMultiplier + c == (r * HashMultiplier + c) + (q * HashMultiplier) * WordModulus;
    AddMultiple(r * HashMultiplier + c, q * HashMultiplier);
  }

  /** Wrapping at every step, as `size_t` arithmetic does, yields the unbounded
      polynomial reduced once modulo 2^64. */
  lemma {:induction false} HashWordIsPolynomial(key: Key)
    ensures HashWord(key) == Polynomial(key) % WordModulus
  {
    if |key| > 0 {
      var prefix := key[..|key| - 1];
      HashWordIsPolynomial(prefix);
      WrapStep(Polynomial(prefix), key[|key| - 1]);
    }
  }
}
