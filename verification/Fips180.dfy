/** SHA-256 as FIPS 180-4 states it, on bit strings and words. */
module Fips180 {
  import opened Words

  // Section 3.2: operations on words.

  function Xor(x: Word, y: Word): Word {
    seq(32, i requires 0 <= i < 32 => x[i] != y[i])
  }

  function And(x: Word, y: Word): Word {
    seq(32, i requires 0 <= i < 32 => x[i] && y[i])
  }

  function Not(x: Word): Word {
    seq(32, i requires 0 <= i < 32 => !x[i])
  }

  function Or(x: Word, y: Word): Word {
    seq(32, i requires 0 <= i < 32 => x[i] || y[i])
  }

  function Shr(x: Word, n: nat): Word
    requires n <= 32
  {
    Zeros(n) + x[..32 - n]
  }

  function Shl(x: Word, n: nat): Word
    requires n <= 32
  {
    x[n..] + Zeros(n)
  }

  function Rotr(x: Word, n: nat): Word
    requires n <= 32
  {
    x[32 - n..] + x[..32 - n]
  }

  /** Addition modulo 2^32. */
  function Plus(x: Word, y: Word): Word {
    Encode((Nat(x) + Nat(y)) % MODULUS, 32)
  }

  // Section 4.1.2: the SHA-256 functions.

  function Ch(x: Word, y: Word, z: Word): Word {
    Xor(And(x, y), And(Not(x), z))
  }

  function Maj(x: Word, y: Word, z: Word): Word {
    Xor(Xor(And(x, y), And(x, z)), And(y, z))
  }

  /** Where the first word has a one the second is chosen, and elsewhere the third; and each bit of
      the majority is the one that at least two of the words have. */
  lemma ChooseAndMajority(x: Word, y: Word, z: Word, i: nat)
    requires i < 32
    ensures Ch(x, y, z)[i] == if x[i] then y[i] else z[i]
    ensures Maj(x, y, z)[i] == (if x[i] == y[i] then x[i] else z[i])
  {
  }

  function BigSigma0(x: Word): Word {
    Xor(Xor(Rotr(x, 2), Rotr(x, 13)), Rotr(x, 22))
  }

  function BigSigma1(x: Word): Word {
    Xor(Xor(Rotr(x, 6), Rotr(x, 11)), Rotr(x, 25))
  }

  function SmallSigma0(x: Word): Word {
    Xor(Xor(Rotr(x, 7), Rotr(x, 18)), Shr(x, 3))
  }

  function SmallSigma1(x: Word): Word {
    Xor(Xor(Rotr(x, 17), Rotr(x, 19)), Shr(x, 10))
  }

  // Sections 4.2.2 and 5.3.3: the constants, from the first 64 primes.

  const PRIMES0: seq<nat> := [2, 3, 5, 7, 11, 13, 17, 19]
  const PRIMES1: seq<nat> := [23, 29, 31, 37, 41, 43, 47, 53]
  const PRIMES2: seq<nat> := [59, 61, 67, 71, 73, 79, 83, 89]
  const PRIMES3: seq<nat> := [97, 101, 103, 107, 109, 113, 127, 131]
  const PRIMES4: seq<nat> := [137, 139, 149, 151, 157, 163, 167, 173]
  const PRIMES5: seq<nat> := [179, 181, 191, 193, 197, 199, 211, 223]
  const PRIMES6: seq<nat> := [227, 229, 233, 239, 241, 251, 257, 263]
  const PRIMES7: seq<nat> := [269, 271, 277, 281, 283, 293, 307, 311]
  const PRIMES: seq<nat> := PRIMES0 + PRIMES1 + PRIMES2 + PRIMES3 + PRIMES4 + PRIMES5 + PRIMES6 + PRIMES7

  /** `k` is the first 32 bits of the fractional part of the square root of `p`. */
  ghost predicate IsSquareRootFraction(p: nat, k: nat) {
    exists whole: nat :: whole <= p && k < MODULUS && Between2(whole * MODULUS + k, p)
  }

  ghost predicate Between2(r: nat, p: nat) {
    r * r <= p * MODULUS * MODULUS < (r + 1) * (r + 1)
  }

  /** `k` is the first 32 bits of the fractional part of the cube root of `p`. */
  ghost predicate IsCubeRootFraction(p: nat, k: nat) {
    exists whole: nat :: whole <= p && k < MODULUS && Between3(whole * MODULUS + k, p)
  }

  ghost predicate Between3(r: nat, p: nat) {
    r * r * r <= p * MODULUS * MODULUS * MODULUS < (r + 1) * (r + 1) * (r + 1)
  }

  // Section 5.1.1: padding.

  /** How many zero bits follow the single one bit. */
  function ZeroBits(l: nat): (k: nat)
    ensures (l + 1 + k) % 512 == 448
  {
    (447 - l) % 512
  }

  function Padded(m: seq<bool>): (p: seq<bool>)
    ensures |p| % 512 == 0
  {
    m + [true] + Zeros(ZeroBits(|m|)) + Encode(|m|, 64)
  }

  // Section 6.2.2: the hash computation.

  datatype Hash = Hash(a: Word, b: Word, c: Word, d: Word, e: Word, f: Word, g: Word, h: Word)

  /** The `i`-th 32-bit word of the block that starts at bit `off`. */
  function BlockWord(p: seq<bool>, off: nat, i: nat): Word
    requires i < 16 && off + 512 <= |p|
  {
    p[off + 32 * i..off + 32 * i + 32]
  }

  function Schedule(p: seq<bool>, off: nat, t: nat): Word
    requires t < 64 && off + 512 <= |p|
  {
    if t < 16 then BlockWord(p, off, t)
    else
      Plus(Plus(SmallSigma1(Schedule(p, off, t - 2)), Schedule(p, off, t - 7)),
           Plus(SmallSigma0(Schedule(p, off, t - 15)), Schedule(p, off, t - 16)))
  }

  function Round(s: Hash, k: Word, w: Word): Hash {
    var t1 := Plus(Plus(Plus(Plus(s.h, BigSigma1(s.e)), Ch(s.e, s.f, s.g)), k), w);
    var t2 := Plus(BigSigma0(s.a), Maj(s.a, s.b, s.c));
    Hash(Plus(t1, t2), s.a, s.b, s.c, Plus(s.d, t1), s.e, s.f, s.g)
  }

  function Rounds(s: Hash, k: seq<nat>, p: seq<bool>, off: nat, t: nat): Hash
    requires |k| == 64 && t <= 64 && off + 512 <= |p|
  {
    if t == 0 then s
    else Round(Rounds(s, k, p, off, t - 1), Encode(k[t - 1], 32), Schedule(p, off, t - 1))
  }

  function Added(s: Hash, v: Hash): Hash {
    Hash(Plus(v.a, s.a), Plus(v.b, s.b), Plus(v.c, s.c), Plus(v.d, s.d),
         Plus(v.e, s.e), Plus(v.f, s.f), Plus(v.g, s.g), Plus(v.h, s.h))
  }

  /** The hash value after the first `n` blocks of the padded message. */
  function HashAfter(h0: Hash, k: seq<nat>, p: seq<bool>, n: nat): Hash
    requires |k| == 64 && 512 * n <= |p|
  {
    if n == 0 then h0
    else
      var s := HashAfter(h0, k, p, n - 1);
      Added(s, Rounds(s, k, p, 512 * (n - 1), 64))
  }

  function Digest(h0: Hash, k: seq<nat>, m: seq<bool>): seq<bool>
    requires |k| == 64
  {
    var p := Padded(m);
    var s := HashAfter(h0, k, p, |p| / 512);
    s.a + s.b + s.c + s.d + s.e + s.f + s.g + s.h
  }

  // What the padding rule promises.

  lemma ZeroBitsLeast(l: nat, k: nat)
    requires (l + 1 + k) % 512 == 448
    ensures ZeroBits(l) <= k
  {
    assert (k - (447 - l)) % 512 == 0;
    assert k % 512 == (447 - l) % 512;
  }

  lemma EncodeInjective(x: nat, y: nat, k: nat)
    requires x < Pow2(k) && y < Pow2(k) && Encode(x, k) == Encode(y, k)
    ensures x == y
  {
    NatOfEncode(x, k);
    NatOfEncode(y, k);
  }

  lemma PaddedEnds(m: seq<bool>)
    ensures var p := Padded(m); |p| >= |m| + 64 && p[|p| - 64..] == Encode(|m|, 64) && p[..|m|] == m
  {
  }

  /** Two messages with the same padding are the same message. */
  lemma PaddedInjective(a: seq<bool>, b: seq<bool>)
    requires |a| < Pow2(64) && |b| < Pow2(64)
    ensures Padded(a) == Padded(b) ==> a == b
  {
    hide Pow2, Encode, Padded;
    PaddedEnds(a);
    PaddedEnds(b);
    if Padded(a) == Padded(b) {
      EncodeInjective(|a|, |b|, 64);
    }
  }
}
