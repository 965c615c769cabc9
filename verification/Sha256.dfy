/** `sha256Hex`: SHA-256 over JavaScript numbers, proved to be the one of FIPS 180-4. */
module Sha256 {
  import opened Words
  import opened Js32
  import Fips = Fips180

  const K0: seq<nat> := [0x428a2f98, 0x71374491, 0xb5c0fbcf, 0xe9b5dba5, 0x3956c25b, 0x59f111f1, 0x923f82a4, 0xab1c5ed5]
  const K1: seq<nat> := [0xd807aa98, 0x12835b01, 0x243185be, 0x550c7dc3, 0x72be5d74, 0x80deb1fe, 0x9bdc06a7, 0xc19bf174]
  const K2: seq<nat> := [0xe49b69c1, 0xefbe4786, 0x0fc19dc6, 0x240ca1cc, 0x2de92c6f, 0x4a7484aa, 0x5cb0a9dc, 0x76f988da]
  const K3: seq<nat> := [0x983e5152, 0xa831c66d, 0xb00327c8, 0xbf597fc7, 0xc6e00bf3, 0xd5a79147, 0x06ca6351, 0x14292967]
  const K4: seq<nat> := [0x27b70a85, 0x2e1b2138, 0x4d2c6dfc, 0x53380d13, 0x650a7354, 0x766a0abb, 0x81c2c92e, 0x92722c85]
  const K5: seq<nat> := [0xa2bfe8a1, 0xa81a664b, 0xc24b8b70, 0xc76c51a3, 0xd192e819, 0xd6990624, 0xf40e3585, 0x106aa070]
  const K6: seq<nat> := [0x19a4c116, 0x1e376c08, 0x2748774c, 0x34b0bcb5, 0x391c0cb3, 0x4ed8aa4a, 0x5b9cca4f, 0x682e6ff3]
  const K7: seq<nat> := [0x748f82ee, 0x78a5636f, 0x84c87814, 0x8cc70208, 0x90befffa, 0xa4506ceb, 0xbef9a3f7, 0xc67178f2]
  const K: seq<nat> := K0 + K1 + K2 + K3 + K4 + K5 + K6 + K7

  const H0: seq<nat> := [
    0x6a09e667, 0xbb67ae85, 0x3c6ef372, 0xa54ff53a, 0x510e527f, 0x9b05688c, 0x1f83d9ab, 0x5be0cd19]

  /** The initial hash value as words. */
  function InitialHash(): Fips.Hash {
    Fips.Hash(Bits(H0[0]), Bits(H0[1]), Bits(H0[2]), Bits(H0[3]),
              Bits(H0[4]), Bits(H0[5]), Bits(H0[6]), Bits(H0[7]))
  }

  ghost predicate SquareRootRow(p: seq<nat>, k: seq<nat>, whole: seq<nat>)
    requires |p| == |k| == |whole| == 8
  {
    && Fips.Between2(whole[0] * MODULUS + k[0], p[0]) && Fips.Between2(whole[1] * MODULUS + k[1], p[1])
    && Fips.Between2(whole[2] * MODULUS + k[2], p[2]) && Fips.Between2(whole[3] * MODULUS + k[3], p[3])
    && Fips.Between2(whole[4] * MODULUS + k[4], p[4]) && Fips.Between2(whole[5] * MODULUS + k[5], p[5])
    && Fips.Between2(whole[6] * MODULUS + k[6], p[6]) && Fips.Between2(whole[7] * MODULUS + k[7], p[7])
  }

  ghost predicate CubeRootRow(p: seq<nat>, k: seq<nat>, whole: seq<nat>)
    requires |p| == |k| == |whole| == 8
  {
    && Fips.Between3(whole[0] * MODULUS + k[0], p[0]) && Fips.Between3(whole[1] * MODULUS + k[1], p[1])
    && Fips.Between3(whole[2] * MODULUS + k[2], p[2]) && Fips.Between3(whole[3] * MODULUS + k[3], p[3])
    && Fips.Between3(whole[4] * MODULUS + k[4], p[4]) && Fips.Between3(whole[5] * MODULUS + k[5], p[5])
    && Fips.Between3(whole[6] * MODULUS + k[6], p[6]) && Fips.Between3(whole[7] * MODULUS + k[7], p[7])
  }

  ghost predicate CubeRootFractions(p: seq<nat>, k: seq<nat>)
  {
    |p| == |k| && forall i :: 0 <= i < |p| ==> Fips.IsCubeRootFraction(p[i], k[i])
  }

  lemma RowFractions(p: seq<nat>, k: seq<nat>, whole: seq<nat>)
    requires |p| == |k| == |whole| == 8 && CubeRootRow(p, k, whole)
    requires forall j :: 0 <= j < 8 ==> k[j] < MODULUS && whole[j] <= p[j]
    ensures CubeRootFractions(p, k)
  {
    forall j | 0 <= j < 8
      ensures Fips.IsCubeRootFraction(p[j], k[j])
    {
      assert Fips.Between3(whole[j] * MODULUS + k[j], p[j]);
    }
  }

  lemma FractionsConcat(p: seq<nat>, k: seq<nat>, p': seq<nat>, k': seq<nat>)
    requires CubeRootFractions(p, k) && CubeRootFractions(p', k')
    ensures CubeRootFractions(p + p', k + k')
  {
  }

  lemma Row0()
    ensures CubeRootFractions(Fips.PRIMES0, K0)
  {
    RowFractions(Fips.PRIMES0, K0, [1, 1, 1, 1, 2, 2, 2, 2]);
  }

  lemma Row1()
    ensures CubeRootFractions(Fips.PRIMES1, K1)
  {
    RowFractions(Fips.PRIMES1, K1, [2, 3, 3, 3, 3, 3, 3, 3]);
  }

  lemma Row2()
    ensures CubeRootFractions(Fips.PRIMES2, K2)
  {
    RowFractions(Fips.PRIMES2, K2, [3, 3, 4, 4, 4, 4, 4, 4]);
  }

  lemma Row3()
    ensures CubeRootFractions(Fips.PRIMES3, K3)
  {
    RowFractions(Fips.PRIMES3, K3, [4, 4, 4, 4, 4, 4, 5, 5]);
  }

  lemma Row4()
    ensures CubeRootFractions(Fips.PRIMES4, K4)
  {
    RowFractions(Fips.PRIMES4, K4, [5, 5, 5, 5, 5, 5, 5, 5]);
  }

  lemma Row5()
    ensures CubeRootFractions(Fips.PRIMES5, K5)
  {
    RowFractions(Fips.PRIMES5, K5, [5, 5, 5, 5, 5, 5, 5, 6]);
  }

  lemma Row6()
    ensures CubeRootFractions(Fips.PRIMES6, K6)
  {
    RowFractions(Fips.PRIMES6, K6, [6, 6, 6, 6, 6, 6, 6, 6]);
  }

  lemma Row7()
    ensures CubeRootFractions(Fips.PRIMES7, K7)
  {
    RowFractions(Fips.PRIMES7, K7, [6, 6, 6, 6, 6, 6, 6, 6]);
  }

  /** The initial words are the square-root fractions of the first eight primes. */
  lemma InitialWords(i: nat)
    requires i < 8
    ensures Fips.IsSquareRootFraction(Fips.PRIMES0[i], H0[i])
  {
    var whole := [1, 1, 2, 2, 3, 3, 4, 4];
    assert SquareRootRow(Fips.PRIMES0, H0, whole);
    assert Fips.Between2(whole[i] * MODULUS + H0[i], Fips.PRIMES0[i]);
  }

  /** The round constants are the cube-root fractions of the first 64 primes. */
  lemma RoundConstants()
    ensures CubeRootFractions(Fips.PRIMES, K)
  {
    Row0();
    Row1();
    Row2();
    Row3();
    Row4();
    Row5();
    Row6();
    Row7();
    var p, k := Fips.PRIMES0, K0;
    FractionsConcat(p, k, Fips.PRIMES1, K1);
    p, k := p + Fips.PRIMES1, k + K1;
    FractionsConcat(p, k, Fips.PRIMES2, K2);
    p, k := p + Fips.PRIMES2, k + K2;
    FractionsConcat(p, k, Fips.PRIMES3, K3);
    p, k := p + Fips.PRIMES3, k + K3;
    FractionsConcat(p, k, Fips.PRIMES4, K4);
    p, k := p + Fips.PRIMES4, k + K4;
    FractionsConcat(p, k, Fips.PRIMES5, K5);
    p, k := p + Fips.PRIMES5, k + K5;
    FractionsConcat(p, k, Fips.PRIMES6, K6);
    p, k := p + Fips.PRIMES6, k + K6;
    FractionsConcat(p, k, Fips.PRIMES7, K7);
  }

  // Padding.

  /** `DataView.setUint32` */
  method SetUint32(m: array<Byte>, off: nat, v: nat)
    requires off + 4 <= m.Length
    modifies m
    ensures m[..] == old(m[..off]) + BigEndian(v) + old(m[off + 4..])
  {
    var b := BigEndian(v);
    m[off], m[off + 1], m[off + 2], m[off + 3] := b[0], b[1], b[2], b[3];
  }

  /** `DataView.getUint32` */
  method GetUint32(m: array<Byte>, off: nat) returns (v: nat)
    requires off + 4 <= m.Length
    ensures v == FromBigEndian(m[off..off + 4])
  {
    v := (m[off] as int) * 0x100_0000 + (m[off + 1] as int) * 0x1_0000 + (m[off + 2] as int) * 0x100 + m[off + 3] as int;
  }

  lemma LowLength(l: nat)
    ensures ShiftRightZero(ShiftLeft(l, 3), 0) == (8 * l) % MODULUS
  {
    ShiftLeftMultiplies(l, 3);
    assert Pow2(3) == 8;
  }

  lemma LowLengthWord(l: nat, lo: nat)
    requires lo == (8 * l) % MODULUS
    ensures BytesBits(BigEndian(lo)) == Encode(8 * l, 32)
  {
    BigEndianBits(lo);
    Pow2At32();
    EncodeMod(8 * l, 32);
  }

  lemma HighLengthWord(l: nat)
    ensures BytesBits(BigEndian(l / 0x2000_0000)) == Encode(Halved(8 * l, 32), 32)
  {
    BigEndianBits(l / 0x2000_0000);
    Pow2At32();
    HalvedIsDivision(8 * l, 32);
    EighthOfModulus(l);
  }

  lemma EighthOfModulus(l: nat)
    ensures (8 * l) / MODULUS == l / 0x2000_0000
  {
  }

  /** The two length words are the 64-bit big-endian bit length. */
  lemma LengthWords(l: nat)
    ensures BytesBits(BigEndian(l / 0x2000_0000) + BigEndian(ShiftRightZero(ShiftLeft(l, 3), 0))) == Encode(8 * l, 64)
  {
    BytesBitsConcat(BigEndian(l / 0x2000_0000), BigEndian(ShiftRightZero(ShiftLeft(l, 3), 0)));
    HighLengthWord(l);
    LowLength(l);
    LowLengthWord(l, ShiftRightZero(ShiftLeft(l, 3), 0));
    EncodeSplit(8 * l, 32, 32);
  }

  lemma PadArithmetic(l: nat, pad: nat)
    requires pad == (56 - (l + 1) % 64 + 64) % 64
    ensures 7 + 8 * pad == Fips.ZeroBits(8 * l) && (l + 1 + pad + 8) % 64 == 0
  {
    var q, r := (l + 1) / 64, (l + 1) % 64;
    assert pad == if r <= 56 then 56 - r else 120 - r;
    if r <= 56 {
      ModUnique(447 - 8 * l, 512, -q, 455 - 8 * r);
    } else {
      ModUnique(447 - 8 * l, 512, -q - 1, 967 - 8 * r);
    }
  }

  lemma MarkerByte()
    ensures BytesBits([0x80]) == [true] + Zeros(7)
  {
    assert Encode(0x80, 8) == [true] + Zeros(7);
    assert BytesBits([0x80]) == Encode(0x80, 8) + BytesBits([0x80][1..]);
  }

  /** 0x80 and the zero bytes are the one bit and the zero bits of section 5.1.1. */
  lemma MarkerBits(l: nat, pad: nat)
    requires pad == (56 - (l + 1) % 64 + 64) % 64
    ensures BytesBits([0x80] + seq(pad, _ => 0)) == [true] + Zeros(Fips.ZeroBits(8 * l))
  {
    MarkerByte();
    BytesBitsZeros(pad);
    BytesBitsConcat([0x80], seq(pad, _ => 0));
    PadArithmetic(l, pad);
  }

  lemma PaddedBytes(bytes: seq<Byte>, marker: seq<Byte>, lengthWords: seq<Byte>)
    requires BytesBits(marker) == [true] + Zeros(Fips.ZeroBits(8 * |bytes|))
    requires BytesBits(lengthWords) == Encode(8 * |bytes|, 64)
    ensures BytesBits(bytes + marker + lengthWords) == Fips.Padded(BytesBits(bytes))
  {
    BytesBitsConcat(bytes + marker, lengthWords);
    BytesBitsConcat(bytes, marker);
    var b := BytesBits(bytes);
    assert b + ([true] + Zeros(Fips.ZeroBits(|b|))) == b + [true] + Zeros(Fips.ZeroBits(|b|));
  }

  /** The padded buffer the source hashes. */
  method PadMessage(bytes: seq<Byte>) returns (m: array<Byte>)
    ensures fresh(m) && m.Length % 64 == 0 && BytesBits(m[..]) == Fips.Padded(BytesBits(bytes))
  {
    hide Fips.Padded, Fips.ZeroBits, BytesBits, Encode, ShiftRightZero, ShiftLeft, BigEndian;
    var l := |bytes|;
    var bitLenHi := l / 0x2000_0000;
    var bitLenLo := ShiftRightZero(ShiftLeft(l, 3), 0);
    var withOne := l + 1;
    var pad := (56 - (withOne % 64) + 64) % 64;
    var total := withOne + pad + 8;
    m := new Byte[total](_ => 0);
    forall i | 0 <= i < l {
      m[i] := bytes[i];
    }
    m[l] := 0x80;
    ghost var marker := [0x80] + seq(pad, _ => 0);
    assert m[..total - 8] == bytes + marker;
    ghost var before := m[..];
    SetUint32(m, total - 8, bitLenHi);
    ghost var between := m[..];
    SetUint32(m, total - 4, bitLenLo);
    LastWords(before, between, m[..], BigEndian(bitLenHi), BigEndian(bitLenLo));
    MarkerBits(l, pad);
    LengthWords(l);
    PaddedBytes(bytes, marker, BigEndian(bitLenHi) + BigEndian(bitLenLo));
    PadArithmetic(l, pad);
  }

  /** Writing the last two words of a buffer, one after the other. */
  lemma LastWords(before: seq<Byte>, between: seq<Byte>, after: seq<Byte>, hi: seq<Byte>, lo: seq<Byte>)
    requires |before| >= 8 && |hi| == |lo| == 4
    requires between == before[..|before| - 8] + hi + before[|before| - 4..]
    requires after == between[..|before| - 4] + lo + between[|before|..]
    ensures after == before[..|before| - 8] + (hi + lo)
  {
    assert between[..|before| - 4] == before[..|before| - 8] + hi;
    assert between[|before|..] == [];
  }

  // The message schedule.

  function S0Small(x: int): int {
    BitXor(BitXor(Rotr(x, 7), Rotr(x, 18)), ShiftRightZero(x, 3))
  }

  function S1Small(x: int): int {
    BitXor(BitXor(Rotr(x, 17), Rotr(x, 19)), ShiftRightZero(x, 10))
  }

  lemma SmallSigmas(x: int)
    ensures Bits(S0Small(x)) == Fips.SmallSigma0(Bits(x))
    ensures Bits(S1Small(x)) == Fips.SmallSigma1(Bits(x))
  {
    hide Bits, BitXor, BitAnd, BitNot, Rotr, ShiftRightZero, Fips.Xor, Fips.And, Fips.Not, Fips.Rotr, Fips.Shr;
    RotrRotates(x, 7);
    RotrRotates(x, 18);
    BitsOfShifts(x, 3);
    BitsOfOperators(Rotr(x, 7), Rotr(x, 18));
    BitsOfOperators(BitXor(Rotr(x, 7), Rotr(x, 18)), ShiftRightZero(x, 3));
    RotrRotates(x, 17);
    RotrRotates(x, 19);
    BitsOfShifts(x, 10);
    BitsOfOperators(Rotr(x, 17), Rotr(x, 19));
    BitsOfOperators(BitXor(Rotr(x, 17), Rotr(x, 19)), ShiftRightZero(x, 10));
  }

  lemma PlusReordered(x: Word, y: Word, z: Word, t: Word)
    ensures Fips.Plus(Fips.Plus(x, y), Fips.Plus(z, t)) == Fips.Plus(Fips.Plus(Fips.Plus(t, z), y), x)
  {
    hide Nat, Fips.Plus;
    NatOfPlus(x, y);
    NatOfPlus(z, t);
    NatOfPlus(Fips.Plus(x, y), Fips.Plus(z, t));
    NatOfPlus(t, z);
    NatOfPlus(Fips.Plus(t, z), y);
    NatOfPlus(Fips.Plus(Fips.Plus(t, z), y), x);
    ResidueSums(Nat(x), Nat(y), Nat(z), Nat(t));
    SameNat(Fips.Plus(Fips.Plus(x, y), Fips.Plus(z, t)), Fips.Plus(Fips.Plus(Fips.Plus(t, z), y), x));
  }

  lemma ResidueSums(x: nat, y: nat, z: nat, t: nat)
    ensures ((x + y) % MODULUS + (z + t) % MODULUS) % MODULUS == (((t + z) % MODULUS + y) % MODULUS + x) % MODULUS
  {
  }

  lemma FourSum(x: int, y: int, z: int, t: int, wx: Word, wy: Word, wz: Word, wt: Word)
    requires Bits(x) == wx && Bits(y) == wy && Bits(z) == wz && Bits(t) == wt
    ensures Bits(x + y + z + t) == Fips.Plus(Fips.Plus(Fips.Plus(wx, wy), wz), wt)
  {
    hide Bits, ShiftRightZero, Fips.Plus;
    BitsOfSum(x, y);
    BitsOfSum(x + y, z);
    BitsOfSum(x + y + z, t);
  }

  lemma ScheduleWord(w16: nat, w15: nat, w7: nat, w2: nat, W16: Word, W15: Word, W7: Word, W2: Word)
    requires Bits(w16) == W16 && Bits(w15) == W15 && Bits(w7) == W7 && Bits(w2) == W2
    ensures Bits(w16 + S0Small(w15) + w7 + S1Small(w2))
         == Fips.Plus(Fips.Plus(Fips.SmallSigma1(W2), W7), Fips.Plus(Fips.SmallSigma0(W15), W16))
  {
    hide Bits, S0Small, S1Small, Fips.Plus, Fips.SmallSigma0, Fips.SmallSigma1;
    SmallSigmas(w15);
    SmallSigmas(w2);
    var V15, V2 := Fips.SmallSigma0(W15), Fips.SmallSigma1(W2);
    FourSum(w16, S0Small(w15), w7, S1Small(w2), W16, V15, W7, V2);
    PlusReordered(V2, W7, V15, W16);
  }

  /** A number in [0, 2^32) that stands for a word. */
  ghost predicate Reads(x: int, w: Word) {
    x == Nat(w)
  }

  lemma ReadsToUint32(x: int, w: Word)
    requires Bits(x) == w
    ensures Reads(ShiftRightZero(x, 0), w)
  {
    ToUint32(x);
    NatOfBits(x);
  }

  lemma ReadsBits(x: int, w: Word)
    requires Reads(x, w)
    ensures Bits(x) == w && 0 <= x < MODULUS
  {
    BitsOfNat(w);
  }

  lemma BlockWordRead(m: seq<Byte>, off: nat, i: nat)
    requires i < 16 && off + 64 <= |m|
    ensures Reads(FromBigEndian(m[off + 4 * i..off + 4 * i + 4]), Fips.Schedule(BytesBits(m), 8 * off, i))
  {
    var b := m[off + 4 * i..off + 4 * i + 4];
    BytesBitsSlice(m, off + 4 * i, off + 4 * i + 4);
    assert Fips.Schedule(BytesBits(m), 8 * off, i) == BytesBits(b);
    ReadsBytes(b);
  }

  lemma ReadsBytes(b: seq<Byte>)
    requires |b| == 4
    ensures Reads(FromBigEndian(b), BytesBits(b))
  {
    hide Encode, BytesBits, FromBigEndian;
    FromBigEndianBits(b);
    Pow2At32();
    NatOfEncode(FromBigEndian(b), 32);
  }

  /** The recurrence step of the schedule, on words already read. */
  lemma ScheduleStep(p: seq<bool>, off: nat, t: nat, w16: nat, w15: nat, w7: nat, w2: nat)
    requires 16 <= t < 64 && off + 512 <= |p|
    requires Reads(w16, Fips.Schedule(p, off, t - 16)) && Reads(w15, Fips.Schedule(p, off, t - 15))
    requires Reads(w7, Fips.Schedule(p, off, t - 7)) && Reads(w2, Fips.Schedule(p, off, t - 2))
    ensures Reads(ShiftRightZero(w16 + S0Small(w15) + w7 + S1Small(w2), 0), Fips.Schedule(p, off, t))
  {
    hide Bits, Reads, ShiftRightZero, S0Small, S1Small, Fips.Plus, Fips.SmallSigma0, Fips.SmallSigma1;
    var W16, W15 := Fips.Schedule(p, off, t - 16), Fips.Schedule(p, off, t - 15);
    var W7, W2 := Fips.Schedule(p, off, t - 7), Fips.Schedule(p, off, t - 2);
    ReadsBits(w16, W16);
    ReadsBits(w15, W15);
    ReadsBits(w7, W7);
    ReadsBits(w2, W2);
    ScheduleWord(w16, w15, w7, w2, W16, W15, W7, W2);
    ReadsToUint32(w16 + S0Small(w15) + w7 + S1Small(w2), Fips.Schedule(p, off, t));
  }

  /** `w` after the first two loops of a block. */
  method BlockSchedule(m: array<Byte>, off: nat, w: array<nat>)
    requires off + 64 <= m.Length && w.Length == 64
    modifies w
    ensures forall t :: 0 <= t < 64 ==> Reads(w[t], Fips.Schedule(BytesBits(m[..]), 8 * off, t))
  {
    hide Reads, ShiftRightZero, BitXor, Rotr, Fips.Schedule, BytesBits, FromBigEndian;
    ghost var p := BytesBits(m[..]);
    for i := 0 to 16
      invariant forall t :: 0 <= t < i ==> Reads(w[t], Fips.Schedule(p, 8 * off, t))
    {
      BlockWordRead(m[..], off, i);
      assert m[..][off + 4 * i..off + 4 * i + 4] == m[off + i * 4..off + i * 4 + 4];
      w[i] := GetUint32(m, off + i * 4);
    }
    for i := 16 to 64
      invariant forall t :: 0 <= t < i ==> Reads(w[t], Fips.Schedule(p, 8 * off, t))
    {
      var w15, w2 := w[i - 15], w[i - 2];
      var s0 := BitXor(BitXor(Rotr(w15, 7), Rotr(w15, 18)), ShiftRightZero(w15, 3));
      var s1 := BitXor(BitXor(Rotr(w2, 17), Rotr(w2, 19)), ShiftRightZero(w2, 10));
      ScheduleStep(p, 8 * off, i, w[i - 16], w15, w[i - 7], w2);
      w[i] := ShiftRightZero(w[i - 16] + s0 + w[i - 7] + s1, 0);
    }
  }

  // The compression function.

  /** The eight working variables `a` .. `hh`. */
  datatype Vars = Vars(a: int, b: int, c: int, d: int, e: int, f: int, g: int, h: int)

  ghost predicate ReadsAll(v: Vars, s: Fips.Hash) {
    && Reads(v.a, s.a) && Reads(v.b, s.b) && Reads(v.c, s.c) && Reads(v.d, s.d)
    && Reads(v.e, s.e) && Reads(v.f, s.f) && Reads(v.g, s.g) && Reads(v.h, s.h)
  }

  function S1Big(e: int): int {
    BitXor(BitXor(Rotr(e, 6), Rotr(e, 11)), Rotr(e, 25))
  }

  function S0Big(a: int): int {
    BitXor(BitXor(Rotr(a, 2), Rotr(a, 13)), Rotr(a, 22))
  }

  function ChOf(e: int, f: int, g: int): int {
    BitXor(BitAnd(e, f), BitAnd(BitNot(e), g))
  }

  function MajOf(a: int, b: int, c: int): int {
    BitXor(BitXor(BitAnd(a, b), BitAnd(a, c)), BitAnd(b, c))
  }

  lemma BigSigmas(x: int)
    ensures Bits(S0Big(x)) == Fips.BigSigma0(Bits(x))
    ensures Bits(S1Big(x)) == Fips.BigSigma1(Bits(x))
  {
    hide Bits, BitXor, BitAnd, BitNot, Rotr, ShiftRightZero, Fips.Xor, Fips.And, Fips.Not, Fips.Rotr, Fips.Shr;
    RotrRotates(x, 2);
    RotrRotates(x, 13);
    RotrRotates(x, 22);
    BitsOfOperators(Rotr(x, 2), Rotr(x, 13));
    BitsOfOperators(BitXor(Rotr(x, 2), Rotr(x, 13)), Rotr(x, 22));
    RotrRotates(x, 6);
    RotrRotates(x, 11);
    RotrRotates(x, 25);
    BitsOfOperators(Rotr(x, 6), Rotr(x, 11));
    BitsOfOperators(BitXor(Rotr(x, 6), Rotr(x, 11)), Rotr(x, 25));
  }

  lemma Choose(x: int, y: int, z: int)
    ensures Bits(ChOf(x, y, z)) == Fips.Ch(Bits(x), Bits(y), Bits(z))
  {
    hide Bits, BitXor, BitAnd, BitNot, Rotr, ShiftRightZero, Fips.Xor, Fips.And, Fips.Not, Fips.Rotr, Fips.Shr;
    BitsOfOperators(x, y);
    BitsOfOperators(BitNot(x), z);
    BitsOfOperators(BitAnd(x, y), BitAnd(BitNot(x), z));
  }

  lemma Majority(x: int, y: int, z: int)
    ensures Bits(MajOf(x, y, z)) == Fips.Maj(Bits(x), Bits(y), Bits(z))
  {
    hide Bits, BitXor, BitAnd, BitNot, Rotr, ShiftRightZero, Fips.Xor, Fips.And, Fips.Not, Fips.Rotr, Fips.Shr;
    BitsOfOperators(x, y);
    BitsOfOperators(x, z);
    BitsOfOperators(y, z);
    BitsOfOperators(BitAnd(x, y), BitAnd(x, z));
    BitsOfOperators(BitXor(BitAnd(x, y), BitAnd(x, z)), BitAnd(y, z));
  }

  lemma ReadsSum(x: int, y: int, v: Word, w: Word)
    requires Bits(x) == v && Bits(y) == w
    ensures Reads(ShiftRightZero(x + y, 0), Fips.Plus(v, w))
  {
    hide Bits, ShiftRightZero, Fips.Plus;
    BitsOfSum(x, y);
    ReadsToUint32(x + y, Fips.Plus(v, w));
  }

  ghost function T1Word(s: Fips.Hash, k: Word, w: Word): Word {
    Fips.Plus(Fips.Plus(Fips.Plus(Fips.Plus(s.h, Fips.BigSigma1(s.e)), Fips.Ch(s.e, s.f, s.g)), k), w)
  }

  ghost function T2Word(s: Fips.Hash): Word {
    Fips.Plus(Fips.BigSigma0(s.a), Fips.Maj(s.a, s.b, s.c))
  }

  lemma ReadsT1(v: Vars, k: nat, w: nat, s: Fips.Hash, sw: Word)
    requires ReadsAll(v, s) && Reads(w, sw)
    ensures Reads(ShiftRightZero(v.h + S1Big(v.e) + ChOf(v.e, v.f, v.g) + k + w, 0), T1Word(s, Bits(k), sw))
  {
    hide Bits, ShiftRightZero, S1Big, ChOf, Fips.Plus, Fips.BigSigma1, Fips.Ch;
    ReadsBits(v.e, s.e);
    ReadsBits(v.f, s.f);
    ReadsBits(v.g, s.g);
    ReadsBits(v.h, s.h);
    ReadsBits(w, sw);
    BigSigmas(v.e);
    Choose(v.e, v.f, v.g);
    FourSum(v.h, S1Big(v.e), ChOf(v.e, v.f, v.g), k, s.h, Fips.BigSigma1(s.e), Fips.Ch(s.e, s.f, s.g), Bits(k));
    var front := v.h + S1Big(v.e) + ChOf(v.e, v.f, v.g) + k;
    ReadsSum(front, w, Bits(front), sw);
  }

  lemma ReadsT2(v: Vars, s: Fips.Hash)
    requires ReadsAll(v, s)
    ensures Reads(ShiftRightZero(S0Big(v.a) + MajOf(v.a, v.b, v.c), 0), T2Word(s))
  {
    hide Bits, ShiftRightZero, S0Big, MajOf, Fips.Plus, Fips.BigSigma0, Fips.Maj;
    ReadsBits(v.a, s.a);
    ReadsBits(v.b, s.b);
    ReadsBits(v.c, s.c);
    BigSigmas(v.a);
    Majority(v.a, v.b, v.c);
    ReadsSum(S0Big(v.a), MajOf(v.a, v.b, v.c), Fips.BigSigma0(s.a), Fips.Maj(s.a, s.b, s.c));
  }

  lemma ReadsPlus(x: int, y: int, v: Word, w: Word)
    requires Reads(x, v) && Reads(y, w)
    ensures Reads(ShiftRightZero(x + y, 0), Fips.Plus(v, w))
  {
    hide Bits, ShiftRightZero, Fips.Plus;
    ReadsBits(x, v);
    ReadsBits(y, w);
    ReadsSum(x, y, v, w);
  }

  /** One iteration of the round loop. */
  method RoundStep(v: Vars, k: nat, w: nat, ghost s: Fips.Hash, ghost sw: Word) returns (v': Vars)
    requires ReadsAll(v, s) && Reads(w, sw)
    ensures ReadsAll(v', Fips.Round(s, Bits(k), sw))
  {
    hide Bits, Reads, ShiftRightZero, BitXor, BitAnd, BitNot, Rotr, Fips.Plus, Fips.BigSigma0, Fips.BigSigma1, Fips.Ch, Fips.Maj;
    var Vars(a, b, c, d, e, f, g, hh) := v;
    var S1 := BitXor(BitXor(Rotr(e, 6), Rotr(e, 11)), Rotr(e, 25));
    var ch := BitXor(BitAnd(e, f), BitAnd(BitNot(e), g));
    var t1 := ShiftRightZero(hh + S1 + ch + k + w, 0);
    var S0 := BitXor(BitXor(Rotr(a, 2), Rotr(a, 13)), Rotr(a, 22));
    var maj := BitXor(BitXor(BitAnd(a, b), BitAnd(a, c)), BitAnd(b, c));
    var t2 := ShiftRightZero(S0 + maj, 0);
    v' := Vars(ShiftRightZero(t1 + t2, 0), a, b, c, ShiftRightZero(d + t1, 0), e, f, g);
    ReadsT1(v, k, w, s, sw);
    ReadsT2(v, s);
    ReadsPlus(t1, t2, T1Word(s, Bits(k), sw), T2Word(s));
    ReadsPlus(d, t1, s.d, T1Word(s, Bits(k), sw));
  }

  /** The round loop of one block, from the chaining state `v`. */
  method Compress(v: Vars, w: array<nat>, ghost s: Fips.Hash, ghost p: seq<bool>, ghost off: nat) returns (r: Vars)
    requires w.Length == 64 && off + 512 <= |p| && ReadsAll(v, s)
    requires forall t :: 0 <= t < 64 ==> Reads(w[t], Fips.Schedule(p, off, t))
    ensures ReadsAll(r, Fips.Rounds(s, K, p, off, 64))
  {
    hide Reads, ReadsAll, Fips.Round, Fips.Schedule;
    r := v;
    for i := 0 to 64
      invariant ReadsAll(r, Fips.Rounds(s, K, p, off, i))
    {
      r := RoundStep(r, K[i], w[i], Fips.Rounds(s, K, p, off, i), Fips.Schedule(p, off, i));
      ConstantBits(K[i]);
    }
  }

  lemma ConstantBits(k: nat)
    ensures Bits(k) == Encode(k, 32)
  {
    Pow2At32();
    EncodeMod(k, 32);
  }

  /** The sums that close a block. */
  method AddInto(h: Vars, v: Vars, ghost s: Fips.Hash, ghost t: Fips.Hash) returns (r: Vars)
    requires ReadsAll(h, s) && ReadsAll(v, t)
    ensures ReadsAll(r, Fips.Added(s, t))
  {
    hide Reads, ShiftRightZero, Fips.Plus;
    r := Vars(ShiftRightZero(h.a + v.a, 0), ShiftRightZero(h.b + v.b, 0),
              ShiftRightZero(h.c + v.c, 0), ShiftRightZero(h.d + v.d, 0),
              ShiftRightZero(h.e + v.e, 0), ShiftRightZero(h.f + v.f, 0),
              ShiftRightZero(h.g + v.g, 0), ShiftRightZero(h.h + v.h, 0));
    ReadsPlus(v.a, h.a, t.a, s.a);
    ReadsPlus(v.b, h.b, t.b, s.b);
    ReadsPlus(v.c, h.c, t.c, s.c);
    ReadsPlus(v.d, h.d, t.d, s.d);
    ReadsPlus(v.e, h.e, t.e, s.e);
    ReadsPlus(v.f, h.f, t.f, s.f);
    ReadsPlus(v.g, h.g, t.g, s.g);
    ReadsPlus(v.h, h.h, t.h, s.h);
  }

  // Hexadecimal output.

  /** `n.toString(16)` */
  function ToString16(n: nat): string {
    if n < 16 then [HEX_DIGITS[n]] else ToString16(n / 16) + [HEX_DIGITS[n % 16]]
  }

  /** `s.padStart(k, '0')` */
  function PadStart(s: string, k: nat): string {
    if |s| >= k then s else seq(k - |s|, _ => '0') + s
  }

  /** The hexadecimal digits of a bit string, four bits each. */
  function HexOf(w: seq<bool>): string {
    if |w| < 4 then [] else HexOf(w[..|w| - 4]) + [HEX_DIGITS[Nat(w[|w| - 4..]) % 16]]
  }

  /** The source's `toHex`. */
  function ToHex(n: int): string {
    PadStart(ToString16(ShiftRightZero(n, 0)), 8)
  }

  lemma {:induction false} HexConcat(a: seq<bool>, b: seq<bool>)
    requires |b| % 4 == 0
    ensures HexOf(a + b) == HexOf(a) + HexOf(b)
  {
    hide Nat;
    if b == [] {
      assert a + b == a;
    } else {
      HexConcat(a, b[..|b| - 4]);
      assert (a + b)[..|a + b| - 4] == a + b[..|b| - 4];
      assert (a + b)[|a + b| - 4..] == b[|b| - 4..];
    }
  }

  lemma HexSplit(n: nat, k: nat)
    requires k > 0
    ensures HexOf(Encode(n, 4 * k)) == HexOf(Encode(n / 16, 4 * (k - 1))) + HexOf(Encode(n, 4))
  {
    hide Encode, HexOf;
    assert Pow2(4) == 16;
    EncodeSplit(n, 4 * (k - 1), 4);
    HalvedIsDivision(n, 4);
    HexConcat(Encode(n / 16, 4 * (k - 1)), Encode(n, 4));
  }

  lemma NibbleHex(w: seq<bool>)
    requires |w| == 4
    ensures HexOf(w) == [HEX_DIGITS[Nat(w) % 16]]
  {
    hide Nat;
    assert w[..0] == [] && w[0..] == w;
    assert HexOf(w[..0]) == [];
  }

  lemma HexDigit(n: nat)
    ensures HexOf(Encode(n, 4)) == [HEX_DIGITS[n % 16]]
  {
    hide Encode, HexOf, Nat;
    assert Pow2(4) == 16;
    NatOfEncode(n, 4);
    NibbleHex(Encode(n, 4));
  }

  lemma {:induction false} HexDigits(n: nat, k: nat)
    requires k > 0 && n < Pow2(4 * k)
    ensures PadStart(ToString16(n), k) == HexOf(Encode(n, 4 * k))
  {
    hide Encode, PadStart, ToString16;
    assert Pow2(4) == 16;
    HexSplit(n, k);
    HexDigit(n);
    if k == 1 {
      assert Encode(n / 16, 0) == [];
    } else {
      Pow2Sum(4 * (k - 1), 4);
      HexDigits(n / 16, k - 1);
    }
    PadStep(n, k);
  }

  lemma PadStep(n: nat, k: nat)
    requires k > 0
    requires k == 1 ==> n < 16
    ensures PadStart(ToString16(n), k) == (if k == 1 then [] else PadStart(ToString16(n / 16), k - 1)) + [HEX_DIGITS[n % 16]]
  {
    if n < 16 && k > 1 {
      assert HEX_DIGITS[0] == '0';
      assert PadStart(ToString16(0), k - 1) == seq(k - 2, _ => '0') + "0";
    }
  }

  lemma ToHexIsHex(n: int, w: Word)
    requires Reads(n, w)
    ensures ToHex(n) == HexOf(w)
  {
    hide Encode, HexOf, PadStart, ToString16, ShiftRightZero;
    ReadsBits(n, w);
    ToUint32(n);
    Pow2At32();
    EncodeOfNat(w);
    HexDigits(n, 8);
  }

  /** The 64 hexadecimal digits of a hash value. */
  lemma DigestHex(v: Vars, s: Fips.Hash)
    requires ReadsAll(v, s)
    ensures ToHex(v.a) + ToHex(v.b) + ToHex(v.c) + ToHex(v.d) + ToHex(v.e) + ToHex(v.f) + ToHex(v.g) + ToHex(v.h)
         == HexOf(s.a + s.b + s.c + s.d + s.e + s.f + s.g + s.h)
  {
    hide ToHex, HexOf, Reads;
    ToHexIsHex(v.a, s.a);
    ToHexIsHex(v.b, s.b);
    ToHexIsHex(v.c, s.c);
    ToHexIsHex(v.d, s.d);
    ToHexIsHex(v.e, s.e);
    ToHexIsHex(v.f, s.f);
    ToHexIsHex(v.g, s.g);
    ToHexIsHex(v.h, s.h);
    HexConcat(s.a, s.b);
    HexConcat(s.a + s.b, s.c);
    HexConcat(s.a + s.b + s.c, s.d);
    HexConcat(s.a + s.b + s.c + s.d, s.e);
    HexConcat(s.a + s.b + s.c + s.d + s.e, s.f);
    HexConcat(s.a + s.b + s.c + s.d + s.e + s.f, s.g);
    HexConcat(s.a + s.b + s.c + s.d + s.e + s.f + s.g, s.h);
  }

  lemma InitialReads()
    ensures ReadsAll(Vars(H0[0], H0[1], H0[2], H0[3], H0[4], H0[5], H0[6], H0[7]), InitialHash())
  {
    hide Bits, Nat;
    forall i | 0 <= i < 8
      ensures Reads(H0[i], Bits(H0[i]))
    {
      NatOfBits(H0[i]);
    }
  }

  /** `sha256Hex` is SHA-256: the hexadecimal digest of the bits of `bytes`. */
  method Sha256Hex(bytes: seq<Byte>) returns (hex: string)
    ensures hex == HexOf(Fips.Digest(InitialHash(), K, BytesBits(bytes)))
  {
    hide BytesBits, HexOf, ToHex, ReadsAll, Reads, InitialHash, Fips.Added, Fips.Rounds, Fips.Padded, Fips.Schedule;
    var m := PadMessage(bytes);
    ghost var p := Fips.Padded(BytesBits(bytes));
    var h := Vars(H0[0], H0[1], H0[2], H0[3], H0[4], H0[5], H0[6], H0[7]);
    InitialReads();
    var w := new nat[64];
    var off := 0;
    while off < m.Length
      invariant 0 <= off <= m.Length && off % 64 == 0 && BytesBits(m[..]) == p
      invariant ReadsAll(h, Fips.HashAfter(InitialHash(), K, p, off / 64))
    {
      ghost var n := off / 64;
      ghost var s := Fips.HashAfter(InitialHash(), K, p, n);
      BlockSchedule(m, off, w);
      var v := Compress(h, w, s, p, 512 * n);
      h := AddInto(h, v, s, Fips.Rounds(s, K, p, 512 * n, 64));
      off := off + 64;
    }
    hex := ToHex(h.a) + ToHex(h.b) + ToHex(h.c) + ToHex(h.d) + ToHex(h.e) + ToHex(h.f) + ToHex(h.g) + ToHex(h.h);
    DigestHex(h, Fips.HashAfter(InitialHash(), K, p, |p| / 512));
  }
}
