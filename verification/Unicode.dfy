/** Encodings of well-formed Unicode text: UTF-8 (RFC 3629, section 3) and UTF-16 code units.
    A `char` is a Unicode scalar value. */
module Unicode {
  import opened Order
  import opened Words

  function Codes(s: string): (r: seq<int>)
    ensures |r| == |s|
  {
    seq(|s|, i requires 0 <= i < |s| => s[i] as int)
  }

  function Utf8Char(c: char): (b: seq<Byte>)
    ensures 1 <= |b| <= 4
  {
    var n := c as int;
    if n < 0x80 then [n]
    else if n < 0x800 then [0xC0 + n / 64, 0x80 + n % 64]
    else if n < 0x1_0000 then [0xE0 + n / 4096, 0x80 + n / 64 % 64, 0x80 + n % 64]
    else [0xF0 + n / 0x4_0000, 0x80 + n / 4096 % 64, 0x80 + n / 64 % 64, 0x80 + n % 64]
  }

  function Utf8(s: string): seq<Byte>
  {
    if s == [] then [] else Utf8Char(s[0]) + Utf8(s[1..])
  }

  function Utf16Char(c: char): seq<int> {
    var n := c as int;
    if n < 0x1_0000 then [n]
    else [0xD800 + (n - 0x1_0000) / 1024, 0xDC00 + (n - 0x1_0000) % 1024]
  }

  function Utf16(s: string): seq<int> {
    if s == [] then [] else Utf16Char(s[0]) + Utf16(s[1..])
  }

  /** A character past 0xFFFF is a high and a low surrogate that hold its upper and lower ten bits. */
  lemma Utf16CharExact(c: char)
    ensures c as int < 0x1_0000 ==> Utf16Char(c) == [c as int]
    ensures c as int >= 0x1_0000 ==>
      && |Utf16Char(c)| == 2
      && 0xD800 <= Utf16Char(c)[0] < 0xDC00 <= Utf16Char(c)[1] < 0xE000
      && 0x1_0000 + (Utf16Char(c)[0] - 0xD800) * 0x400 + (Utf16Char(c)[1] - 0xDC00) == c as int
  {
  }

  // Order.

  /** Base-64 digits compare like the numbers they belong to. */
  lemma DigitOrder(m: nat, n: nat)
    requires m < n
    ensures m / 64 < n / 64 || (m / 64 == n / 64 && m % 64 < n % 64)
  {
  }

  lemma DivisionChain(n: nat)
    ensures n / 64 / 64 == n / 4096 && n / 4096 / 64 == n / 0x4_0000
  {
  }

  lemma DigitsOrder(m: nat, n: nat)
    requires m < n
    ensures m / 64 < n / 64 || (m / 64 == n / 64 && m % 64 < n % 64)
    ensures m / 64 == n / 64 || m / 4096 < n / 4096 || (m / 4096 == n / 4096 && m / 64 % 64 < n / 64 % 64)
    ensures m / 4096 == n / 4096 || m / 0x4_0000 < n / 0x4_0000
         || (m / 0x4_0000 == n / 0x4_0000 && m / 4096 % 64 < n / 4096 % 64)
  {
    DigitOrder(m, n);
    DivisionChain(m);
    DivisionChain(n);
    if m / 64 < n / 64 {
      DigitOrder(m / 64, n / 64);
      if m / 4096 < n / 4096 {
        DigitOrder(m / 4096, n / 4096);
      }
    }
  }

  ghost predicate FirstDifference(a: seq<int>, b: seq<int>, i: nat) {
    i < |a| && i < |b| && a[..i] == b[..i] && a[i] < b[i]
  }

  lemma ThreeByteDifference(c: char, d: char) returns (i: nat)
    requires 0x800 <= c as int < d as int < 0x1_0000
    ensures FirstDifference(Utf8Char(c), Utf8Char(d), i)
  {
    var m, n := c as nat, d as nat;
    DigitsOrder(m, n);
    i := if m / 4096 < n / 4096 then 0 else if m / 64 < n / 64 then 1 else 2;
  }

  lemma FourByteDifference(c: char, d: char) returns (i: nat)
    requires 0x1_0000 <= c as int < d as int
    ensures FirstDifference(Utf8Char(c), Utf8Char(d), i)
  {
    var m, n := c as nat, d as nat;
    DigitsOrder(m, n);
    i := if m / 0x4_0000 < n / 0x4_0000 then 0 else if m / 4096 < n / 4096 then 1 else if m / 64 < n / 64 then 2 else 3;
  }

  lemma ShorterIsSmaller(c: char, d: char)
    requires c < d && |Utf8Char(c)| < |Utf8Char(d)|
    ensures Utf8Char(c)[0] < Utf8Char(d)[0]
  {
  }

  /** Where the encodings of two scalars first differ, the smaller scalar has the smaller byte. */
  lemma FirstByteDifference(c: char, d: char) returns (i: nat)
    requires c < d
    ensures FirstDifference(Utf8Char(c), Utf8Char(d), i)
  {
    var m, n := c as nat, d as nat;
    if |Utf8Char(c)| < |Utf8Char(d)| {
      ShorterIsSmaller(c, d);
      i := 0;
    } else if n < 0x80 {
      i := 0;
    } else if n < 0x800 {
      DigitOrder(m, n);
      i := if m / 64 < n / 64 then 0 else 1;
    } else if n < 0x1_0000 {
      i := ThreeByteDifference(c, d);
    } else {
      i := FourByteDifference(c, d);
    }
  }

  /** The smaller scalar has the smaller encoding, whatever follows. */
  lemma Utf8CharOrder(c: char, d: char, x: seq<int>, y: seq<int>)
    requires c < d
    ensures Lex(Utf8Char(c) + x, Utf8Char(d) + y)
  {
    var i := FirstByteDifference(c, d);
    LexFirstDifference(Utf8Char(c), Utf8Char(d), i, x, y);
  }

  /** Byte order of UTF-8 is code point order. */
  lemma {:induction false} Utf8Order(a: string, b: string)
    ensures Lex(Utf8(a), Utf8(b)) <==> Lex(Codes(a), Codes(b))
  {
    if a != [] && b != [] {
      var x, y := Utf8(a[1..]), Utf8(b[1..]);
      assert Codes(a)[1..] == Codes(a[1..]) && Codes(b)[1..] == Codes(b[1..]);
      if a[0] < b[0] {
        Utf8CharOrder(a[0], b[0], x, y);
      } else if b[0] < a[0] {
        Utf8CharOrder(b[0], a[0], y, x);
        LexAsymmetric(Utf8(b), Utf8(a));
      } else {
        LexCommonPrefix(Utf8Char(a[0]), x, y);
        Utf8Order(a[1..], b[1..]);
      }
    }
  }

  /** Equal code points, equal text; so Lex on codes is a strict total order on text. */
  lemma CodesInjective(a: string, b: string)
    requires Codes(a) == Codes(b)
    ensures a == b
  {
    forall i | 0 <= i < |a|
      ensures a[i] == b[i]
    {
      assert Codes(a)[i] == Codes(b)[i];
    }
  }

  /** RFC 3629, section 1: sorting by bytes is a strict total order on text. */
  lemma Utf8Total(a: string, b: string)
    ensures a == b || Lex(Utf8(a), Utf8(b)) || Lex(Utf8(b), Utf8(a))
    ensures Utf8(a) == Utf8(b) ==> a == b
  {
    Utf8Order(a, b);
    Utf8Order(b, a);
    LexTotal(Codes(a), Codes(b));
    if Codes(a) == Codes(b) {
      CodesInjective(a, b);
    }
    LexIrreflexive(Utf8(a));
  }

  // UTF-16.

  lemma Utf16CharInjective(c: char, d: char, x: seq<int>, y: seq<int>)
    requires Utf16Char(c) + x == Utf16Char(d) + y
    ensures c == d && x == y
  {
    var p, q := Utf16Char(c), Utf16Char(d);
    assert (p + x)[0] == p[0] && (q + y)[0] == q[0];
    var m, n := c as int, d as int;
    assert !(0xD800 <= m < 0xE000) && !(0xD800 <= n < 0xE000);
    assert |p| == |q|;
    assert (p + x)[..|p|] == p && (q + y)[..|p|] == q;
    assert (p + x)[|p|..] == x && (q + y)[|p|..] == y;
    if |p| == 2 {
      assert m - 0x1_0000 == (p[0] - 0xD800) * 1024 + (p[1] - 0xDC00);
    }
  }

  lemma {:induction false} Utf16Injective(a: string, b: string)
    requires Utf16(a) == Utf16(b)
    ensures a == b
  {
    if a != [] && b != [] {
      Utf16CharInjective(a[0], b[0], Utf16(a[1..]), Utf16(b[1..]));
      Utf16Injective(a[1..], b[1..]);
      assert a == [a[0]] + a[1..] && b == [b[0]] + b[1..];
    }
  }

  // Decoding.

  predicate IsScalar(n: int) {
    0 <= n < 0xD800 || 0xE000 <= n < 0x11_0000
  }

  predicate Continues(b: int) {
    0x80 <= b < 0xC0
  }

  datatype Step = Bad | Next(c: char, rest: seq<int>)

  /** The scalar at the head of a UTF-8 byte string, refusing every non-shortest form. */
  function DecodeChar(b: seq<int>): (r: Step)
    requires b != []
    ensures r.Next? ==> |r.rest| < |b|
  {
    var n := b[0];
    if 0 <= n < 0x80 then Next(n as char, b[1..])
    else if 0xC2 <= n < 0xE0 && |b| >= 2 && Continues(b[1]) then
      Next(((n - 0xC0) * 64 + (b[1] - 0x80)) as char, b[2..])
    else if 0xE0 <= n < 0xF0 && |b| >= 3 && Continues(b[1]) && Continues(b[2]) then
      var v := (n - 0xE0) * 4096 + (b[1] - 0x80) * 64 + (b[2] - 0x80);
      if v >= 0x800 && IsScalar(v) then Next(v as char, b[3..]) else Bad
    else if 0xF0 <= n < 0xF8 && |b| >= 4 && Continues(b[1]) && Continues(b[2]) && Continues(b[3]) then
      var v := (n - 0xF0) * 0x4_0000 + (b[1] - 0x80) * 4096 + (b[2] - 0x80) * 64 + (b[3] - 0x80);
      if v >= 0x1_0000 && IsScalar(v) then Next(v as char, b[4..]) else Bad
    else Bad
  }

  datatype Decoded = Malformed | Text(s: string)

  function Decode(b: seq<int>): Decoded {
    if b == [] then Text([])
    else
      match DecodeChar(b)
      case Bad => Malformed
      case Next(c, rest) =>
        match Decode(rest)
        case Malformed => Malformed
        case Text(s) => Text([c] + s)
  }

  lemma DecodeCharOfEncoded(c: char, x: seq<int>)
    ensures DecodeChar(Utf8Char(c) + x) == Next(c, x)
  {
    var n := c as int;
    assert IsScalar(n);
    var b := Utf8Char(c) + x;
    DivisionChain(n);
    assert b[|Utf8Char(c)|..] == x;
  }

  lemma {:induction false} DecodeOfEncoded(s: string)
    ensures Decode(Utf8(s)) == Text(s)
  {
    if s != [] {
      DecodeCharOfEncoded(s[0], Utf8(s[1..]));
      DecodeOfEncoded(s[1..]);
    }
  }
}
