/** Time-ordered mutation ids: UUID version 7 of RFC 9562, section 5.7. */
module Uuid {
  import opened Words
  import Js32
  import Sha256
  import Order
  import opened Unicode

  /** The 128 bits: 48 of Unix milliseconds, version 7, 12 random, variant 10, 62 random. */
  function Fields(ms: nat, random: seq<Byte>): (w: seq<bool>)
    requires |random| == 10
    ensures |w| == 128
  {
    var bits := BytesBits(random);
    Encode(ms, 48) + Encode(7, 4) + bits[4..16] + Encode(2, 2) + bits[18..]
  }

  /** The 8-4-4-4-12 groups. */
  function Grouped(h: string): string
    requires |h| == 32
  {
    h[..8] + "-" + h[8..12] + "-" + h[12..16] + "-" + h[16..20] + "-" + h[20..]
  }

  function Uuid(ms: nat, random: seq<Byte>): string
    requires |random| == 10
  {
    HexLength(Fields(ms, random));
    Grouped(Sha256.HexOf(Fields(ms, random)))
  }

  lemma {:induction false} HexLength(w: seq<bool>)
    requires |w| % 4 == 0
    ensures 4 * |Sha256.HexOf(w)| == |w|
  {
    if w != [] {
      HexLength(w[..|w| - 4]);
    }
  }

  // Bytes.

  /** `x & 0xff`, whatever the size of x. */
  lemma LowByte(x: nat)
    ensures Js32.BitAnd(x, 0xff) == x % 256
  {
    hide Js32.BitAnd;
    Pow2At32();
    Js32.AndMask(x, 8);
  }

  lemma LowNibble(x: nat)
    ensures Js32.BitAnd(x, 0xf) == x % 16
  {
    hide Js32.BitAnd;
    assert Pow2(4) == 16;
    Js32.AndMask(x, 4);
  }

  lemma HighNibble(b: Byte)
    ensures Js32.BitAnd(Js32.ShiftRight(b, 4), 0xf) == b / 16
  {
    hide Js32.BitAnd, Js32.ShiftRight;
    assert Pow2(4) == 16;
    Js32.ShiftRightDivides(b, 4);
    LowNibble(b / 16);
  }

  /** `(b & 0x0f) | 0x70` */
  lemma VersionByte(b: Byte)
    ensures Js32.BitOr(Js32.BitAnd(b, 0xf), 0x70) == 0x70 + b % 16
  {
    hide Js32.BitAnd, Js32.BitOr;
    assert Pow2(4) == 16;
    LowNibble(b);
    Js32.OrFields(7, b % 16, 4);
  }

  /** `(b & 0x3f) | 0x80` */
  lemma VariantByte(b: Byte)
    ensures Js32.BitOr(Js32.BitAnd(b, 0x3f), 0x80) == 0x80 + b % 64
  {
    hide Js32.BitAnd, Js32.BitOr;
    assert Pow2(6) == 64;
    Js32.AndMask(b, 6);
    Js32.OrFields(2, b % 64, 6);
  }

  // Hexadecimal.

  lemma ByteHex(b: Byte)
    ensures Sha256.HexOf(Encode(b, 8)) == [HEX_DIGITS[b / 16], HEX_DIGITS[b % 16]]
  {
    hide Encode, Sha256.HexOf;
    Sha256.HexSplit(b, 2);
    Sha256.HexDigit(b / 16);
    Sha256.HexDigit(b);
    assert Encode(b / 16, 4 * (2 - 1)) == Encode(b / 16, 4);
  }

  /** `hex` */
  method Hex(bytes: array<Byte>) returns (out: string)
    ensures out == Sha256.HexOf(BytesBits(bytes[..]))
  {
    hide Sha256.HexOf, BytesBits, Encode;
    out := "";
    assert BytesBits([]) == [] && Sha256.HexOf([]) == [] by {
      Nothing();
    }
    assert bytes[..0] == [];
    for i := 0 to bytes.Length
      invariant out == Sha256.HexOf(BytesBits(bytes[..i]))
    {
      var b := bytes[i];
      HighNibble(b);
      LowNibble(b);
      ghost var was := out;
      out := out + [HEX_DIGITS[Js32.BitAnd(Js32.ShiftRight(b, 4), 0xf)]] + [HEX_DIGITS[Js32.BitAnd(b, 0xf)]];
      assert bytes[..i + 1] == bytes[..i] + [b];
      HexAppend(bytes[..i], b);
      assert out == was + [HEX_DIGITS[b / 16], HEX_DIGITS[b % 16]];
    }
    assert bytes[..bytes.Length] == bytes[..];
  }

  lemma Nothing()
    ensures BytesBits([]) == [] && Sha256.HexOf([]) == []
  {
  }

  lemma HexAppend(m: seq<Byte>, b: Byte)
    ensures Sha256.HexOf(BytesBits(m + [b]))
         == Sha256.HexOf(BytesBits(m)) + [HEX_DIGITS[b / 16], HEX_DIGITS[b % 16]]
  {
    hide Sha256.HexOf, Encode;
    BytesBitsConcat(m, [b]);
    assert BytesBits([b]) == Encode(b, 8) by {
      assert [b][1..] == [];
    }
    Sha256.HexConcat(BytesBits(m), Encode(b, 8));
    ByteHex(b);
  }

  // The sixteen bytes.

  function TimeBytes(ms: nat): (b: seq<Byte>)
    ensures |b| == 6
  {
    BigEndian(ms / 0x1_0000) + [ms / 0x100 % 256, ms % 256]
  }

  function UuidBytes(ms: nat, r: seq<Byte>): (b: seq<Byte>)
    requires |r| == 10
    ensures |b| == 16
  {
    TimeBytes(ms) + [0x70 + r[0] % 16, r[1], 0x80 + r[2] % 64] + r[3..]
  }

  lemma TimeBits(ms: nat)
    ensures BytesBits(TimeBytes(ms)) == Encode(ms, 48)
  {
    hide Encode, BytesBits, BigEndian;
    Pow2At32();
    BytesBitsConcat(BigEndian(ms / 0x1_0000), [ms / 0x100 % 256, ms % 256]);
    BigEndianBits(ms / 0x1_0000);
    TwoBytes(ms / 0x100 % 256, ms % 256);
    ByteBits(ms / 0x100);
    ByteBits(ms);
    EncodeSplit(ms, 8, 8);
    HalvedIsDivision(ms, 8);
    EncodeSplit(ms, 32, 16);
    HalvedIsDivision(ms, 16);
  }

  lemma TwoBytes(a: Byte, b: Byte)
    ensures BytesBits([a, b]) == Encode(a, 8) + Encode(b, 8)
  {
    assert [a, b][1..] == [b] && [b][1..] == [];
  }

  /** A byte with a fixed high field keeps the low digits of the one it replaces. */
  lemma FieldByte(field: nat, b: Byte, k: nat)
    requires k < 8 && field * Pow2(k) + b % Pow2(k) < 256
    ensures Encode(field * Pow2(k) + b % Pow2(k), 8) == Encode(field, 8 - k) + Encode(b, 8)[8 - k..]
  {
    hide Encode, Pow2;
    var n := field * Pow2(k) + b % Pow2(k);
    ModUnique(n, Pow2(k), field, b % Pow2(k));
    EncodeSplit(n, 8 - k, k);
    HalvedIsDivision(n, k);
    EncodeSplit(b, 8 - k, k);
    EncodeMod(n, k);
    EncodeMod(b, k);
  }

  lemma RandomBits(r: seq<Byte>)
    requires |r| == 10
    ensures BytesBits([0x70 + r[0] % 16, r[1], 0x80 + r[2] % 64] + r[3..])
         == Encode(7, 4) + BytesBits(r)[4..16] + Encode(2, 2) + BytesBits(r)[18..]
  {
    hide Encode, BytesBits;
    var x, y, z := Encode(r[0], 8), Encode(r[1], 8), Encode(r[2], 8);
    var rest := BytesBits(r[3..]);
    var bits := BytesBits(r);
    assert bits == x + y + z + rest by {
      RandomBytes(r);
    }
    assert bits[4..16] == x[4..] + y && bits[18..] == z[2..] + rest by {
      RandomSlices(x, y, z, rest);
    }
    var head := BytesBits([0x70 + r[0] % 16, r[1], 0x80 + r[2] % 64] + r[3..]);
    assert head == (Encode(7, 4) + x[4..]) + y + (Encode(2, 2) + z[2..]) + rest by {
      RandomBytes(r);
      FieldBytes(r[0], r[2]);
    }
    Regroup(Encode(7, 4), x[4..], y, Encode(2, 2), z[2..], rest);
  }

  lemma Regroup(a: seq<bool>, b: seq<bool>, c: seq<bool>, d: seq<bool>, e: seq<bool>, f: seq<bool>)
    ensures (a + b) + c + (d + e) + f == a + (b + c) + d + (e + f)
  {
  }

  lemma FieldBytes(a: Byte, b: Byte)
    ensures Encode(0x70 + a % 16, 8) == Encode(7, 4) + Encode(a, 8)[4..]
    ensures Encode(0x80 + b % 64, 8) == Encode(2, 2) + Encode(b, 8)[2..]
  {
    hide Encode;
    assert Pow2(4) == 16 && Pow2(6) == 64;
    FieldByte(7, a, 4);
    FieldByte(2, b, 6);
  }

  lemma RandomBytes(r: seq<Byte>)
    requires |r| == 10
    ensures BytesBits(r) == Encode(r[0], 8) + Encode(r[1], 8) + Encode(r[2], 8) + BytesBits(r[3..])
    ensures BytesBits([0x70 + r[0] % 16, r[1], 0x80 + r[2] % 64] + r[3..])
         == Encode(0x70 + r[0] % 16, 8) + Encode(r[1], 8) + Encode(0x80 + r[2] % 64, 8) + BytesBits(r[3..])
  {
    hide Encode, BytesBits;
    var head := [0x70 + r[0] % 16, r[1], 0x80 + r[2] % 64];
    BytesBitsConcat(head, r[3..]);
    ThreeBytes(head);
    BytesBitsConcat(r[..3], r[3..]);
    ThreeBytes(r[..3]);
    assert r == r[..3] + r[3..];
  }

  lemma RandomSlices(x: seq<bool>, y: seq<bool>, z: seq<bool>, rest: seq<bool>)
    requires |x| == |y| == |z| == 8
    ensures (x + y + z + rest)[4..16] == x[4..] + y && (x + y + z + rest)[18..] == z[2..] + rest
  {
  }

  lemma ThreeBytes(b: seq<Byte>)
    requires |b| == 3
    ensures BytesBits(b) == Encode(b[0], 8) + Encode(b[1], 8) + Encode(b[2], 8)
  {
    hide Encode;
    assert b[1..][0] == b[1] && b[1..][1..] == [b[2]];
    assert [b[2]][1..] == [];
    assert BytesBits([]) == [];
    assert BytesBits([b[2]]) == Encode(b[2], 8) + [];
  }

  lemma UuidBits(ms: nat, r: seq<Byte>)
    requires |r| == 10
    ensures BytesBits(UuidBytes(ms, r)) == Fields(ms, r)
  {
    hide Encode, BytesBits, TimeBytes;
    TimeBits(ms);
    RandomBits(r);
    var rest := [0x70 + r[0] % 16, r[1], 0x80 + r[2] % 64] + r[3..];
    BytesBitsConcat(TimeBytes(ms), rest);
    assert UuidBytes(ms, r) == TimeBytes(ms) + rest;
  }

  /** Ten random bytes; missing ones are zero. */
  function Ten(random: seq<Byte>): (r: seq<Byte>)
    ensures |r| == 10
    ensures if |random| >= 10 then r == random[..10] else random <= r && forall i :: |random| <= i < 10 ==> r[i] == 0
  {
    seq(10, i => if 0 <= i < |random| then random[i] else 0)
  }

  /** Whole milliseconds since the epoch, and none before it. */
  function Milliseconds(now: real): (ms: nat)
    ensures now >= 0.0 ==> ms as real <= now < ms as real + 1.0
    ensures now < 0.0 ==> ms == 0
  {
    if now.Floor < 0 then 0 else now.Floor
  }

  method PutTime(bytes: array<Byte>, ms: nat)
    requires bytes.Length == 16
    modifies bytes
    ensures bytes[..6] == TimeBytes(ms)
  {
    hide Js32.BitAnd;
    LowBytes(ms);
    bytes[0] := Js32.BitAnd(ms / 0x100_0000_0000, 0xff);
    bytes[1] := Js32.BitAnd(ms / 0x1_0000_0000, 0xff);
    bytes[2] := Js32.BitAnd(ms / 0x100_0000, 0xff);
    bytes[3] := Js32.BitAnd(ms / 0x1_0000, 0xff);
    bytes[4] := Js32.BitAnd(ms / 0x100, 0xff);
    bytes[5] := Js32.BitAnd(ms, 0xff);
  }

  method PutRandom(bytes: array<Byte>, random: seq<Byte>)
    requires bytes.Length == 16
    modifies bytes
    ensures bytes[..6] == old(bytes[..6]) && bytes[6..] == Ten(random)
  {
    for i := 0 to 10
      invariant bytes[..6] == old(bytes[..6])
      invariant bytes[6..6 + i] == Ten(random)[..i]
    {
      bytes[6 + i] := if i < |random| then random[i] else 0;
      assert bytes[6..6 + i + 1] == bytes[6..6 + i] + [Ten(random)[i]];
    }
  }

  /** `uuidv7` */
  method Uuidv7(now: real, random: seq<Byte>) returns (id: string)
    ensures id == Uuid(Milliseconds(now), Ten(random))
  {
    hide BytesBits, Sha256.HexOf, Encode, Js32.BitAnd, Js32.BitOr, Fields;
    var ms := Milliseconds(now);
    ghost var r := Ten(random);
    var bytes := new Byte[16](_ => 0);
    PutTime(bytes, ms);
    PutRandom(bytes, random);
    assert bytes[6..][0] == r[0] && bytes[6..][2] == r[2];
    ghost var t, tail := bytes[..6], r[3..];
    assert forall i :: 9 <= i < 16 ==> bytes[i] == bytes[6..][i - 6];
    VersionByte(bytes[6]);
    bytes[6] := Js32.BitOr(Js32.BitAnd(bytes[6], 0x0f), 0x70);
    VariantByte(bytes[8]);
    bytes[8] := Js32.BitOr(Js32.BitAnd(bytes[8], 0x3f), 0x80);
    assert bytes[..] == UuidBytes(ms, r);
    UuidBits(ms, r);
    HexLength(Fields(ms, r));
    var h := Hex(bytes);
    id := h[..8] + "-" + h[8..12] + "-" + h[12..16] + "-" + h[16..20] + "-" + h[20..];
  }

  lemma LowBytes(ms: nat)
    ensures Js32.BitAnd(ms / 0x100_0000_0000, 0xff) == ms / 0x1_0000 / 0x100_0000 % 256
    ensures Js32.BitAnd(ms / 0x1_0000_0000, 0xff) == ms / 0x1_0000 / 0x1_0000 % 256
    ensures Js32.BitAnd(ms / 0x100_0000, 0xff) == ms / 0x1_0000 / 0x100 % 256
    ensures Js32.BitAnd(ms / 0x1_0000, 0xff) == ms / 0x1_0000 % 256
    ensures Js32.BitAnd(ms / 0x100, 0xff) == ms / 0x100 % 256
    ensures Js32.BitAnd(ms, 0xff) == ms % 256
  {
    hide Js32.BitAnd;
    LowByte(ms / 0x100_0000_0000);
    LowByte(ms / 0x1_0000_0000);
    LowByte(ms / 0x100_0000);
    LowByte(ms / 0x1_0000);
    LowByte(ms / 0x100);
    LowByte(ms);
  }

  // Order.

  /** Strings by code points. */
  predicate Before(a: string, b: string) {
    Order.Lex(Codes(a), Codes(b))
  }

  lemma {:induction false} FirstDifference(a: nat, b: nat, k: nat) returns (i: nat)
    requires a < b < Pow2(4 * k)
    ensures var x, y := Sha256.HexOf(Encode(a, 4 * k)), Sha256.HexOf(Encode(b, 4 * k));
      i < k == |x| == |y| && x[..i] == y[..i] && x[i] < y[i]
  {
    hide Encode, Sha256.HexOf;
    assert Pow2(4) == 16;
    HexLength(Encode(a, 4 * k));
    HexLength(Encode(b, 4 * k));
    Sha256.HexSplit(a, k);
    Sha256.HexSplit(b, k);
    Sha256.HexDigit(a);
    Sha256.HexDigit(b);
    var x, y := Sha256.HexOf(Encode(a, 4 * k)), Sha256.HexOf(Encode(b, 4 * k));
    if a / 16 < b / 16 {
      Pow2Sum(4 * (k - 1), 4);
      i := FirstDifference(a / 16, b / 16, k - 1);
      var p, q := Sha256.HexOf(Encode(a / 16, 4 * (k - 1))), Sha256.HexOf(Encode(b / 16, 4 * (k - 1)));
      assert x[..i] == p[..i] && y[..i] == q[..i];
    } else {
      i := k - 1;
      DigitsRise(a % 16, b % 16);
    }
  }

  lemma DigitsRise(a: nat, b: nat)
    requires a < b < 16
    ensures HEX_DIGITS[a] < HEX_DIGITS[b]
  {
  }

  /** The hexadecimal digits of the time, and of what follows it. */
  lemma TimeDigits(ms: nat, r: seq<Byte>) returns (rest: string)
    requires |r| == 10
    ensures |rest| == 20
    ensures |Sha256.HexOf(Encode(ms, 48))| == 12
    ensures var h := Sha256.HexOf(Encode(ms, 48));
      Uuid(ms, r) == h[..8] + "-" + h[8..] + "-" + rest[..4] + "-" + rest[4..8] + "-" + rest[8..]
    ensures rest == Sha256.HexOf(Fields(ms, r)[48..])
  {
    hide Encode, Sha256.HexOf, BytesBits;
    var f, t := Fields(ms, r), Encode(ms, 48);
    assert f == t + f[48..] && |f[48..]| == 80;
    Sha256.HexConcat(t, f[48..]);
    HexLength(t);
    HexLength(f[48..]);
    rest := Sha256.HexOf(f[48..]);
    var h := Sha256.HexOf(t);
    var all := h + rest;
    assert all[..8] == h[..8] && all[8..12] == h[8..];
    assert all[12..16] == rest[..4] && all[16..20] == rest[4..8] && all[20..] == rest[8..];
  }

  /** A later millisecond gives a later id, whatever the random bytes. */
  lemma UuidRises(t1: nat, t2: nat, r1: seq<Byte>, r2: seq<Byte>)
    requires t1 < t2 < Pow2(48) && |r1| == 10 && |r2| == 10
    ensures Before(Uuid(t1, r1), Uuid(t2, r2))
  {
    hide Encode, Sha256.HexOf, BytesBits, Pow2, Uuid, Order.Lex;
    var rest1 := TimeDigits(t1, r1);
    var rest2 := TimeDigits(t2, r2);
    var i := FirstDifference(t1, t2, 12);
    var x, y := Sha256.HexOf(Encode(t1, 48)), Sha256.HexOf(Encode(t2, 48));
    var a, b := Uuid(t1, r1), Uuid(t2, r2);
    var j := if i < 8 then i else i + 1;
    assert a[j] == x[i] && b[j] == y[i];
    assert a[..j] == b[..j] by {
      GroupPrefix(a, x, i);
      GroupPrefix(b, y, i);
    }
    var ca, cb := Codes(a), Codes(b);
    assert ca[..j] == Codes(a[..j]) && cb[..j] == Codes(b[..j]);
    Order.LexFirstDifference(ca, cb, j, [], []);
    assert ca + [] == ca && cb + [] == cb;
  }

  lemma GroupPrefix(id: string, h: string, i: nat)
    requires |h| == 12 && i < 12 && |id| > 13 && id[..13] == h[..8] + "-" + h[8..]
    ensures var j := if i < 8 then i else i + 1;
      id[..j] == if i < 8 then h[..i] else h[..8] + "-" + h[8..i]
  {
    var j := if i < 8 then i else i + 1;
    assert id[..j] == id[..13][..j];
    if i >= 8 {
      assert h[8..][..i - 8] == h[8..i];
    }
  }

  // Reading an id back.

  function DigitValue(c: char): (d: nat)
    ensures d < 16
  {
    if '0' <= c <= '9' then c as int - '0' as int
    else if 'a' <= c <= 'f' then c as int - 'a' as int + 10
    else 0
  }

  /** The bits a string of hexadecimal digits stands for. */
  function UnHex(s: string): seq<bool> {
    if s == [] then [] else UnHex(s[..|s| - 1]) + Encode(DigitValue(s[|s| - 1]), 4)
  }

  lemma DigitOfValue(d: nat)
    requires d < 16
    ensures DigitValue(HEX_DIGITS[d]) == d
  {
  }

  lemma {:induction false} UnHexOfHex(w: seq<bool>)
    requires |w| % 4 == 0
    ensures UnHex(Sha256.HexOf(w)) == w
  {
    hide Encode, Nat;
    if w != [] {
      var head, last := w[..|w| - 4], w[|w| - 4..];
      UnHexOfHex(head);
      DigitBits(last);
      var s := Sha256.HexOf(w);
      assert s[..|s| - 1] == Sha256.HexOf(head);
      assert w == head + last;
    }
  }

  lemma DigitBits(w: seq<bool>)
    requires |w| == 4
    ensures Encode(DigitValue(HEX_DIGITS[Nat(w) % 16]), 4) == w
  {
    hide Encode, Nat;
    NatBound(w);
    assert Pow2(4) == 16;
    DigitOfValue(Nat(w));
    EncodeOfNat(w);
  }

  /** The digits of an id in the 8-4-4-4-12 form. */
  function Digits(id: string): string
    requires |id| == 36
  {
    id[..8] + id[9..13] + id[14..18] + id[19..23] + id[24..]
  }

  /** The id reads back as its fields: its first twelve digits are the time, and the version and
      variant are fixed. */
  lemma UuidReads(ms: nat, r: seq<Byte>)
    requires |r| == 10
    ensures var id := Uuid(ms, r);
      && |id| == 36 && id[8] == id[13] == id[18] == id[23] == '-'
      && UnHex(Digits(id)) == Fields(ms, r)
      && UnHex(id[..8] + id[9..13]) == Encode(ms, 48)
      && id[14] == '7'
  {
    hide Encode, Sha256.HexOf, BytesBits, UnHex, Uuid;
    var rest := TimeDigits(ms, r);
    var f, h := Fields(ms, r), Sha256.HexOf(Encode(ms, 48));
    var id := Uuid(ms, r);
    assert id[..8] == h[..8] && id[9..13] == h[8..];
    assert id[14..18] == rest[..4] && id[19..23] == rest[4..8] && id[24..] == rest[8..];
    assert Digits(id) == h + rest;
    assert f == Encode(ms, 48) + f[48..];
    Sha256.HexConcat(Encode(ms, 48), f[48..]);
    UnHexOfHex(f);
    UnHexOfHex(Encode(ms, 48));
    assert id[..8] + id[9..13] == h;
    VersionDigit(ms, r);
  }

  lemma VersionDigit(ms: nat, r: seq<Byte>)
    requires |r| == 10
    ensures var h := Sha256.HexOf(Fields(ms, r)[48..]); h != [] && h[0] == '7'
  {
    hide Encode, Sha256.HexOf, BytesBits;
    var w := Fields(ms, r)[48..];
    assert w == Encode(7, 4) + w[4..];
    Sha256.HexConcat(Encode(7, 4), w[4..]);
    Sha256.HexDigit(7);
  }

  /** Two ids are equal exactly when their times agree modulo 2^48 and their 74 random bits agree. */
  lemma UuidUnique(t1: nat, t2: nat, r1: seq<Byte>, r2: seq<Byte>)
    requires |r1| == 10 && |r2| == 10
    ensures Uuid(t1, r1) == Uuid(t2, r2) <==>
      && t1 % Pow2(48) == t2 % Pow2(48)
      && BytesBits(r1)[4..16] == BytesBits(r2)[4..16]
      && BytesBits(r1)[18..] == BytesBits(r2)[18..]
  {
    hide Encode, Sha256.HexOf, BytesBits, UnHex, Pow2, Nat;
    UuidReads(t1, r1);
    UuidReads(t2, r2);
    NatOfEncode(t1, 48);
    NatOfEncode(t2, 48);
    EncodeMod(t1, 48);
    EncodeMod(t2, 48);
    FieldParts(t1, r1);
    FieldParts(t2, r2);
  }

  lemma FieldParts(ms: nat, r: seq<Byte>)
    requires |r| == 10
    ensures var f := Fields(ms, r);
      f[..48] == Encode(ms, 48) && f[52..64] == BytesBits(r)[4..16] && f[66..] == BytesBits(r)[18..]
  {
    hide Encode, BytesBits;
  }
}
