/** Fixed-width binary numerals: the bit strings that FIPS 180-4 computes on and that
    ECMAScript's 32-bit operators are defined by. Most significant bit first. */
module Words {

  const MODULUS := 0x1_0000_0000

  const HEX_DIGITS: string := "0123456789abcdef"

  type Word = w: seq<bool> | |w| == 32 witness seq(32, _ => false)

  type Byte = b: int | 0 <= b < 256

  function Pow2(n: nat): (p: nat)
    ensures p > 0
  {
    if n == 0 then 1 else 2 * Pow2(n - 1)
  }

  function Bit(b: bool): nat {
    if b then 1 else 0
  }

  /** The number a bit string denotes. */
  function Nat(w: seq<bool>): nat {
    if w == [] then 0 else 2 * Nat(w[..|w| - 1]) + Bit(w[|w| - 1])
  }

  /** The `k` low-order binary digits of `n`. */
  function Encode(n: nat, k: nat): (w: seq<bool>)
    ensures |w| == k
  {
    if k == 0 then [] else Encode(n / 2, k - 1) + [n % 2 == 1]
  }

  function Zeros(k: nat): (w: seq<bool>)
    ensures |w| == k
  {
    seq(k, _ => false)
  }

  /** The bits of a byte string, in order. */
  function BytesBits(m: seq<Byte>): (w: seq<bool>)
    ensures |w| == 8 * |m|
  {
    if m == [] then [] else Encode(m[0], 8) + BytesBits(m[1..])
  }

  lemma Pow2At32()
    ensures Pow2(8) == 256 && Pow2(16) == 0x1_0000 && Pow2(24) == 0x100_0000 && Pow2(32) == MODULUS
  {
    assert Pow2(4) == 16;
    Pow2Sum(4, 4);
    Pow2Sum(8, 8);
    Pow2Sum(16, 8);
    Pow2Sum(16, 16);
  }

  lemma {:induction false} Pow2Sum(a: nat, b: nat)
    ensures Pow2(a + b) == Pow2(a) * Pow2(b)
  {
    if b > 0 {
      Pow2Sum(a, b - 1);
      assert Pow2(a + b) == 2 * Pow2(a + b - 1) && Pow2(b) == 2 * Pow2(b - 1);
      hide Pow2;
      DoubledProduct(Pow2(a), Pow2(b - 1));
    }
  }

  lemma DoubledProduct(x: nat, y: nat)
    ensures x * (2 * y) == 2 * (x * y)
  {
  }

  lemma MulMonotone(a: int, b: int, d: nat)
    requires a <= b
    ensures a * d <= b * d
  {
    assert (b - a) * d >= 0;
  }

  lemma ModUnique(n: int, d: nat, q: int, r: int)
    requires 0 <= r < d && n == q * d + r
    ensures n % d == r && n / d == q
  {
    var p := n / d;
    assert n == p * d + n % d;
    if q < p {
      MulMonotone(q + 1, p, d);
    } else if p < q {
      MulMonotone(p + 1, q, d);
    }
  }

  lemma HalveMod(n: nat, m: nat)
    requires m > 0
    ensures 2 * ((n / 2) % m) + n % 2 == n % (2 * m)
  {
    var q, r := (n / 2) / m, (n / 2) % m;
    assert n / 2 == q * m + r;
    assert n == q * (2 * m) + (2 * r + n % 2);
    ModUnique(n, 2 * m, q, 2 * r + n % 2);
  }

  /** Encoding then reading keeps a number modulo the width. */
  lemma {:induction false} NatOfEncode(n: nat, k: nat)
    ensures Nat(Encode(n, k)) == n % Pow2(k)
  {
    if k > 0 {
      NatOfEncode(n / 2, k - 1);
      HalveMod(n, Pow2(k - 1));
      assert Encode(n, k)[..k - 1] == Encode(n / 2, k - 1);
    }
  }

  /** Reading then encoding gives the bit string back. */
  lemma {:induction false} EncodeOfNat(w: seq<bool>)
    ensures Encode(Nat(w), |w|) == w
  {
    if w != [] {
      EncodeOfNat(w[..|w| - 1]);
      assert Nat(w) / 2 == Nat(w[..|w| - 1]);
      assert w == w[..|w| - 1] + [w[|w| - 1]];
    }
  }

  lemma {:induction false} NatBound(w: seq<bool>)
    ensures Nat(w) < Pow2(|w|)
  {
    if w != [] {
      NatBound(w[..|w| - 1]);
    }
  }

  /** Only the residue of a number modulo the width reaches its encoding. */
  lemma EncodeMod(n: nat, k: nat)
    ensures Encode(n % Pow2(k), k) == Encode(n, k)
  {
    NatOfEncode(n, k);
    EncodeOfNat(Encode(n, k));
  }

  function Halved(n: nat, k: nat): nat {
    if k == 0 then n else Halved(n / 2, k - 1)
  }

  lemma {:induction false} HalvedIsDivision(n: nat, k: nat)
    ensures Halved(n, k) == n / Pow2(k)
  {
    if k > 0 {
      HalvedIsDivision(n / 2, k - 1);
      DivDiv(n, Pow2(k - 1));
    }
  }

  /** An encoding splits into its high and its low digits. */
  lemma {:induction false} EncodeSplit(n: nat, a: nat, b: nat)
    ensures Encode(n, a + b) == Encode(Halved(n, b), a) + Encode(n, b)
  {
    if b > 0 {
      EncodeSplit(n / 2, a, b - 1);
    }
  }

  lemma DivDiv(n: nat, m: nat)
    requires m > 0
    ensures n / 2 / m == n / (2 * m)
  {
    var q, r := (n / 2) / m, (n / 2) % m;
    assert n / 2 == q * m + r;
    assert n == q * (2 * m) + (2 * r + n % 2);
    ModUnique(n, 2 * m, q, 2 * r + n % 2);
  }

  lemma {:induction false} EncodeZero(k: nat)
    ensures Encode(0, k) == Zeros(k)
  {
    if k > 0 {
      EncodeZero(k - 1);
    }
  }

  /** Appending zero digits multiplies by a power of two. */
  lemma {:induction false} NatShift(w: seq<bool>, k: nat)
    ensures Nat(w + Zeros(k)) == Nat(w) * Pow2(k)
  {
    if k == 0 {
      assert w + Zeros(0) == w;
    } else {
      NatShift(w, k - 1);
      var wide := w + Zeros(k);
      assert wide[..|w| + k - 1] == w + Zeros(k - 1) && !wide[|w| + k - 1];
      assert Nat(wide) == 2 * Nat(w + Zeros(k - 1)) && Pow2(k) == 2 * Pow2(k - 1);
      hide Nat, Pow2;
      DoubledProduct(Nat(w), Pow2(k - 1));
    }
  }

  lemma {:induction false} BytesBitsConcat(a: seq<Byte>, b: seq<Byte>)
    ensures BytesBits(a + b) == BytesBits(a) + BytesBits(b)
  {
    if a == [] {
      assert a + b == b;
    } else {
      BytesBitsConcat(a[1..], b);
      assert (a + b)[1..] == a[1..] + b;
    }
  }

  lemma BytesBitsSlice(m: seq<Byte>, i: nat, j: nat)
    requires i <= j <= |m|
    ensures BytesBits(m)[8 * i..8 * j] == BytesBits(m[i..j])
  {
    ThreeParts(m, i, j);
    BytesBitsMiddle(m[..i], m[i..j], m[j..]);
  }

  lemma BytesBitsMiddle(a: seq<Byte>, b: seq<Byte>, c: seq<Byte>)
    ensures BytesBits(a + b + c)[8 * |a|..8 * (|a| + |b|)] == BytesBits(b)
  {
    hide BytesBits;
    BytesBitsConcat(a + b, c);
    BytesBitsConcat(a, b);
    Middle(BytesBits(a), BytesBits(b), BytesBits(c));
  }

  lemma ThreeParts<T>(s: seq<T>, i: nat, j: nat)
    requires i <= j <= |s|
    ensures s == s[..i] + s[i..j] + s[j..]
  {
  }

  lemma Middle<T>(a: seq<T>, b: seq<T>, c: seq<T>)
    ensures (a + b + c)[|a|..|a| + |b|] == b
  {
  }

  lemma {:induction false} BytesBitsZeros(k: nat)
    ensures BytesBits(seq(k, _ => 0)) == Zeros(8 * k)
  {
    if k > 0 {
      BytesBitsZeros(k - 1);
      EncodeZero(8);
      assert seq(k, _ => 0)[1..] == seq(k - 1, _ => 0);
    }
  }

  /** The big-endian bytes of `v` modulo 2^32, as a `DataView` writes them. */
  function BigEndian(v: nat): (b: seq<Byte>)
    ensures |b| == 4
  {
    [v / 0x100_0000 % 256, v / 0x1_0000 % 256, v / 0x100 % 256, v % 256]
  }

  /** The number a `DataView` reads from four big-endian bytes. */
  function FromBigEndian(b: seq<Byte>): nat
    requires |b| == 4
  {
    (b[0] as int) * 0x100_0000 + (b[1] as int) * 0x1_0000 + (b[2] as int) * 0x100 + b[3] as int
  }

  lemma ByteBits(v: nat)
    ensures Encode(v % 256, 8) == Encode(v, 8)
  {
    Pow2At32();
    EncodeMod(v, 8);
  }

  lemma BigEndianBits(v: nat)
    ensures BytesBits(BigEndian(v)) == Encode(v, 32)
  {
    var a, b, c := v / 0x100_0000, v / 0x1_0000, v / 0x100;
    Pow2At32();
    EncodeSplit(v, 24, 8);
    EncodeSplit(c, 16, 8);
    EncodeSplit(b, 8, 8);
    HalvedIsDivision(v, 8);
    HalvedIsDivision(c, 8);
    HalvedIsDivision(b, 8);
    assert c / 256 == b && b / 256 == a;
    ByteBits(v);
    ByteBits(c);
    ByteBits(b);
    ByteBits(a);
    FourBytes(BigEndian(v));
  }

  lemma FourBytes(b: seq<Byte>)
    requires |b| == 4
    ensures BytesBits(b) == Encode(b[0], 8) + Encode(b[1], 8) + Encode(b[2], 8) + Encode(b[3], 8)
  {
    assert BytesBits(b[3..]) == Encode(b[3], 8) + BytesBits(b[4..]);
    assert BytesBits(b[2..]) == Encode(b[2], 8) + BytesBits(b[2..][1..]) && b[2..][1..] == b[3..];
    assert BytesBits(b[1..]) == Encode(b[1], 8) + BytesBits(b[1..][1..]) && b[1..][1..] == b[2..];
  }

  lemma BigEndianRoundTrip(a: Byte, b: Byte, c: Byte, d: Byte)
    ensures
      var v := (a as int) * 0x100_0000 + (b as int) * 0x1_0000 + (c as int) * 0x100 + d as int;
      v / 0x100_0000 == a && v / 0x1_0000 % 256 == b && v / 0x100 % 256 == c && v % 256 == d
  {
    var x := (a as int) * 0x100 + b as int;
    var y := x * 0x100 + c as int;
    var v := y * 0x100 + d as int;
    assert v / 0x100 == y && v % 0x100 == d;
    assert y / 0x100 == x && y % 0x100 == c;
    assert x / 0x100 == a && x % 0x100 == b;
    assert v / 0x1_0000 == x;
    assert v / 0x100_0000 == a;
  }

  lemma FromBigEndianBits(b: seq<Byte>)
    requires |b| == 4
    ensures Encode(FromBigEndian(b), 32) == BytesBits(b) && FromBigEndian(b) < MODULUS
  {
    hide Encode, BytesBits;
    BigEndianRoundTrip(b[0], b[1], b[2], b[3]);
    assert BigEndian(FromBigEndian(b)) == b;
    BigEndianBits(FromBigEndian(b));
  }
}
