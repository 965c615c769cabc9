/** ECMAScript's 32-bit operators on numbers: operands go through ToInt32 or ToUint32, the
    operation acts on the 32-bit string, and every result but that of `>>>` is read signed. */
module Js32 {
  import opened Words
  import Fips = Fips180

  /** The 32-bit string of a number: two's complement for negative ones. */
  function Bits(x: int): Word {
    Encode(x % MODULUS, 32)
  }

  /** The number a 32-bit string is read as by a signed operator. */
  function Signed(w: Word): int {
    if Nat(w) < MODULUS / 2 then Nat(w) else Nat(w) - MODULUS
  }

  function BitXor(x: int, y: int): int {
    Signed(Fips.Xor(Bits(x), Bits(y)))
  }

  function BitAnd(x: int, y: int): int {
    Signed(Fips.And(Bits(x), Bits(y)))
  }

  function BitOr(x: int, y: int): int {
    Signed(Fips.Or(Bits(x), Bits(y)))
  }

  function BitNot(x: int): int {
    Signed(Fips.Not(Bits(x)))
  }

  /** `x << n` */
  function ShiftLeft(x: int, n: nat): int
    requires n < 32
  {
    Signed(Fips.Shl(Bits(x), n))
  }

  /** `x >>> n` */
  function ShiftRightZero(x: int, n: nat): nat
    requires n < 32
  {
    Nat(Fips.Shr(Bits(x), n))
  }

  /** `x >> n` copies the sign bit. */
  function ShiftRight(x: int, n: nat): int
    requires n < 32
  {
    var w := Bits(x);
    Signed(seq(n, _ => w[0]) + w[..32 - n])
  }

  // How numbers and 32-bit strings determine each other.

  lemma NatOfBits(x: int)
    ensures Nat(Bits(x)) == x % MODULUS
  {
    hide Encode, Nat, Pow2;
    Pow2At32();
    NatOfEncode(x % MODULUS, 32);
  }

  lemma BitsOfNat(w: Word)
    ensures Bits(Nat(w)) == w && Nat(w) < MODULUS
  {
    hide Encode, Nat, Pow2;
    Pow2At32();
    NatBound(w);
    EncodeOfNat(w);
    assert Nat(w) % MODULUS == Nat(w);
  }

  lemma BitsOfSigned(w: Word)
    ensures Bits(Signed(w)) == w
  {
    hide Encode, Nat;
    BitsOfNat(w);
    assert (Nat(w) - MODULUS) % MODULUS == Nat(w) % MODULUS;
  }

  lemma SameNat(x: Word, y: Word)
    requires Nat(x) == Nat(y)
    ensures x == y
  {
    EncodeOfNat(x);
    EncodeOfNat(y);
  }

  /** Exact addition of numbers, read back as 32 bits, is addition modulo 2^32. */
  lemma BitsOfSum(x: int, y: int)
    ensures Bits(x + y) == Fips.Plus(Bits(x), Bits(y))
  {
    hide Encode, Nat;
    ResidueSum(x, y);
    NatOfBits(x);
    NatOfBits(y);
  }

  lemma ResidueSum(x: int, y: int)
    ensures (x + y) % MODULUS == (x % MODULUS + y % MODULUS) % MODULUS
  {
  }

  lemma NatOfPlus(x: Word, y: Word)
    ensures Nat(Fips.Plus(x, y)) == (Nat(x) + Nat(y)) % MODULUS
  {
    NatOfBits(Nat(x) + Nat(y));
  }

  /** `x >>> 0` is the residue of `x`, and keeps its bits. */
  lemma ToUint32(x: int)
    ensures ShiftRightZero(x, 0) == x % MODULUS
    ensures Bits(ShiftRightZero(x, 0)) == Bits(x)
  {
    assert Fips.Shr(Bits(x), 0) == Bits(x);
    NatOfBits(x);
    BitsOfNat(Bits(x));
  }

  /** A signed operator's result is the one number in the 32-bit range that has the bits. */
  lemma SignedExact(w: Word, n: int)
    ensures Signed(w) == n <==> -0x8000_0000 <= n < 0x8000_0000 && Bits(n) == w
  {
    hide Encode, Nat, Pow2;
    NatBound(w);
    Pow2At32();
    BitsOfSigned(w);
    if -0x8000_0000 <= n < 0x8000_0000 && Bits(n) == w {
      NatOfBits(n);
    }
  }

  /** What the operators do to bits; every signed result keeps the bits it was read from. */
  lemma BitsOfOperators(x: int, y: int)
    ensures Bits(BitXor(x, y)) == Fips.Xor(Bits(x), Bits(y))
    ensures Bits(BitAnd(x, y)) == Fips.And(Bits(x), Bits(y))
    ensures Bits(BitOr(x, y)) == Fips.Or(Bits(x), Bits(y))
    ensures Bits(BitNot(x)) == Fips.Not(Bits(x))
  {
    BitsOfSigned(Fips.Xor(Bits(x), Bits(y)));
    BitsOfSigned(Fips.And(Bits(x), Bits(y)));
    BitsOfSigned(Fips.Or(Bits(x), Bits(y)));
    BitsOfSigned(Fips.Not(Bits(x)));
  }

  lemma BitsOfShifts(x: int, n: nat)
    requires n < 32
    ensures Bits(ShiftLeft(x, n)) == Fips.Shl(Bits(x), n)
    ensures Bits(ShiftRightZero(x, n)) == Fips.Shr(Bits(x), n)
  {
    BitsOfSigned(Fips.Shl(Bits(x), n));
    BitsOfNat(Fips.Shr(Bits(x), n));
  }

  /** `(x << n) >>> 0` multiplies by 2^n modulo 2^32. */
  lemma ShiftLeftMultiplies(x: nat, n: nat)
    requires n < 32
    ensures ShiftRightZero(ShiftLeft(x, n), 0) == (x * Pow2(n)) % MODULUS
  {
    var w := Bits(x);
    var wide := w + Zeros(n);
    assert Bits(ShiftLeft(x, n)) == Encode(Nat(wide), 32) by {
      BitsOfShifts(x, n);
      LowDigits(w, n);
    }
    ToUint32(ShiftLeft(x, n));
    NatOfBits(ShiftLeft(x, n));
    assert Nat(Encode(Nat(wide), 32)) == Nat(wide) % MODULUS by {
      Pow2At32();
      NatOfEncode(Nat(wide), 32);
    }
    NatShift(w, n);
    NatOfBits(x);
    ResidueProduct(x, Pow2(n));
  }

  /** Shifting left keeps the low 32 digits of the wide product. */
  lemma LowDigits(w: Word, n: nat)
    requires n < 32
    ensures Encode(Nat(w + Zeros(n)), 32) == Fips.Shl(w, n)
  {
    var wide := w + Zeros(n);
    EncodeOfNat(wide);
    EncodeSplit(Nat(wide), n, 32);
    assert wide[n..] == Fips.Shl(w, n);
  }

  lemma ResidueProduct(x: nat, k: nat)
    ensures (x % MODULUS * k) % MODULUS == (x * k) % MODULUS
  {
    var q, r := x / MODULUS, x % MODULUS;
    assert x * k == q * k * MODULUS + r * k by {
      assert x * k == (q * MODULUS + r) * k;
    }
    var p, s := (r * k) / MODULUS, (r * k) % MODULUS;
    assert x * k == (q * k + p) * MODULUS + s;
    ModUnique(x * k, MODULUS, q * k + p, s);
  }

  /** The source's `rotr`: `((x >>> n) | (x << (32 - n))) >>> 0`. */
  function Rotr(x: int, n: nat): nat
    requires 0 < n < 32
  {
    ShiftRightZero(BitOr(ShiftRightZero(x, n), ShiftLeft(x, 32 - n)), 0)
  }

  /** It is the rotation of FIPS 180-4, section 3.2. */
  lemma RotrRotates(x: int, n: nat)
    requires 0 < n < 32
    ensures Bits(Rotr(x, n)) == Fips.Rotr(Bits(x), n)
    ensures 0 <= Rotr(x, n) < MODULUS
  {
    hide Bits, Signed, Fips.Or, Fips.Shr, Fips.Shl;
    var right, left := ShiftRightZero(x, n), ShiftLeft(x, 32 - n);
    assert Bits(BitOr(right, left)) == Fips.Or(Fips.Shr(Bits(x), n), Fips.Shl(Bits(x), 32 - n)) by {
      BitsOfShifts(x, n);
      BitsOfShifts(x, 32 - n);
      BitsOfOperators(right, left);
    }
    OrOfShifts(Bits(x), n);
    ToUint32(BitOr(right, left));
    assert Rotr(x, n) == ShiftRightZero(BitOr(right, left), 0);
  }

  lemma OrOfShifts(w: Word, n: nat)
    requires 0 < n < 32
    ensures Fips.Or(Fips.Shr(w, n), Fips.Shl(w, 32 - n)) == Fips.Rotr(w, n)
  {
  }

  // Masks and fields.

  lemma {:induction false} NatOfZeros(k: nat, w: seq<bool>)
    ensures Nat(Zeros(k) + w) == Nat(w)
  {
    if w == [] {
      if k > 0 {
        NatOfZeros(k - 1, []);
        assert (Zeros(k) + [])[..k - 1] == Zeros(k - 1) + [];
      }
    } else {
      NatOfZeros(k, w[..|w| - 1]);
      assert (Zeros(k) + w)[..k + |w| - 1] == Zeros(k) + w[..|w| - 1];
    }
  }

  function Ones(k: nat): (w: seq<bool>)
    ensures |w| == k
  {
    seq(k, _ => true)
  }

  lemma {:induction false} EncodeOnes(k: nat)
    ensures Encode(Pow2(k) - 1, k) == Ones(k)
  {
    if k > 0 {
      EncodeOnes(k - 1);
      assert Pow2(k) == 2 * Pow2(k - 1);
      hide Pow2;
      OddHalf(Pow2(k - 1) - 1);
    }
  }

  lemma OddHalf(n: nat)
    ensures (2 * n + 1) / 2 == n && (2 * n + 1) % 2 == 1
  {
  }

  /** The digits of a number whose high part is `q` and whose low `k` digits are those of `r`. */
  lemma BitsOfField(q: nat, r: nat, k: nat)
    requires k <= 32 && r < Pow2(k) && q * Pow2(k) + r < MODULUS
    ensures Bits(q * Pow2(k) + r) == Encode(q, 32 - k) + Encode(r, k)
  {
    hide Encode, Pow2, Halved;
    var n := q * Pow2(k) + r;
    assert n % MODULUS == n;
    ModUnique(n, Pow2(k), q, r);
    EncodeSplit(n, 32 - k, k);
    HalvedIsDivision(n, k);
    EncodeMod(n, k);
  }

  lemma MaskBits(k: nat)
    requires k < 32
    ensures 0 <= Pow2(k) - 1 < MODULUS / 2
    ensures Bits(Pow2(k) - 1) == Zeros(32 - k) + Ones(k)
  {
    hide Encode, Bits, Pow2;
    Pow2At31();
    Pow2Below(k, 31);
    BitsOfField(0, Pow2(k) - 1, k);
    EncodeZero(32 - k);
    EncodeOnes(k);
  }

  lemma Pow2At31()
    ensures Pow2(31) == MODULUS / 2
  {
    Pow2At32();
    assert Pow2(32) == 2 * Pow2(31);
  }

  lemma LowBits(x: nat, k: nat)
    requires k <= 32
    ensures Bits(x)[32 - k..] == Encode(x, k)
    ensures Bits(x)[..32 - k] == Encode(Halved(x, k), 32 - k)
  {
    hide Encode, Pow2, Halved;
    Pow2At32();
    EncodeMod(x, 32);
    EncodeSplit(x, 32 - k, k);
  }

  /** `x & (2^k - 1)` is the residue modulo 2^k. */
  lemma AndMask(x: nat, k: nat)
    requires k < 32
    ensures BitAnd(x, Pow2(k) - 1) == x % Pow2(k)
  {
    hide Encode, Nat, Pow2, Bits;
    var w, low := Bits(x), Encode(x, k);
    MaskBits(k);
    LowBits(x, k);
    assert Fips.And(w, Zeros(32 - k) + Ones(k)) == Zeros(32 - k) + low;
    NatOfZeros(32 - k, low);
    NatOfEncode(x, k);
  }

  lemma {:induction false} Pow2Below(k: nat, n: nat)
    requires k <= n
    ensures Pow2(k) <= Pow2(n)
  {
    if k < n {
      Pow2Below(k, n - 1);
    }
  }

  /** `|` of a high field and a low one is their sum. */
  lemma OrFields(q: nat, r: nat, k: nat)
    requires k < 32 && r < Pow2(k) && q * Pow2(k) + r < MODULUS / 2
    ensures BitOr(r, q * Pow2(k)) == q * Pow2(k) + r
  {
    hide Encode, Nat, Pow2, Bits, Fips.Or;
    BitsOfField(0, r, k);
    BitsOfField(q, 0, k);
    BitsOfField(q, r, k);
    EncodeZero(k);
    EncodeZero(32 - k);
    OrParts(Encode(q, 32 - k), Encode(r, k));
    SignedBits(q * Pow2(k) + r);
  }

  lemma OrParts(high: seq<bool>, low: seq<bool>)
    requires |high| + |low| == 32
    ensures Fips.Or(Zeros(|high|) + low, high + Zeros(|low|)) == high + low
  {
  }

  lemma SignedBits(n: nat)
    requires n < MODULUS / 2
    ensures Signed(Bits(n)) == n
  {
    hide Nat, Bits;
    NatOfBits(n);
  }

  /** `x >> n` divides a non-negative 31-bit number. */
  lemma ShiftRightDivides(x: nat, n: nat)
    requires n < 32 && x < MODULUS / 2
    ensures ShiftRight(x, n) == x / Pow2(n)
  {
    hide Encode, Nat, Pow2, Bits, Halved, ShiftRight;
    Pow2At32();
    Pow2Sum(32 - n, n);
    HalvedIsDivision(x, n);
    QuotientBelow(x, Pow2(n), Pow2(32 - n));
    ShiftRightHalves(x, n);
  }

  lemma ShiftRightHalves(x: nat, n: nat)
    requires n < 32 && x < MODULUS / 2 && Halved(x, n) < Pow2(32 - n) && Halved(x, n) <= x
    ensures ShiftRight(x, n) == Halved(x, n)
  {
    hide Encode, Nat, Pow2, Bits, Halved;
    var w, high := Bits(x), Encode(Halved(x, n), 32 - n);
    SignBit(x);
    LowBits(x, n);
    assert seq(n, _ => w[0]) + high == Zeros(n) + high;
    NatOfZeros(n, high);
    NatOfEncode(Halved(x, n), 32 - n);
    ModUnique(Halved(x, n), Pow2(32 - n), 0, Halved(x, n));
  }

  lemma SignBit(x: nat)
    requires x < MODULUS / 2
    ensures !Bits(x)[0]
  {
    hide Nat, Pow2, Bits;
    NatOfBits(x);
    Pow2At31();
    if Bits(x)[0] {
      TopBit(Bits(x));
    }
  }

  lemma {:induction false} TopBit(w: seq<bool>)
    requires w != [] && w[0]
    ensures Nat(w) >= Pow2(|w| - 1)
  {
    if |w| > 1 {
      TopBit(w[..|w| - 1]);
    }
  }

  lemma QuotientBelow(x: nat, p: nat, q: nat)
    requires p > 0 && x < p * q
    ensures x / p < q && x / p <= x
  {
    var r := x / p;
    assert x == r * p + x % p;
    MulMonotone(1, p, r);
    if r >= q {
      MulMonotone(q, r, p);
    }
  }
}
