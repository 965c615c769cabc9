/** The keyset cursor: versioned JSON in unpadded base64url (RFC 4648, section 5). */
module Cursor {
  import opened Json
  import opened Unicode
  import opened Words

  const CURSOR_VERSION := 2

  datatype Key = KNull | KNum(n: int) | KStr(s: string)

  // Base64.

  function Symbol(n: nat): char
    requires n < 64
  {
    if n < 26 then 'A' + n as char
    else if n < 52 then 'a' + (n - 26) as char
    else if n < 62 then '0' + (n - 52) as char
    else if n == 62 then '+' else '/'
  }

  function Sextet(c: char): int {
    if 'A' <= c <= 'Z' then c as int - 'A' as int
    else if 'a' <= c <= 'z' then c as int - 'a' as int + 26
    else if '0' <= c <= '9' then c as int - '0' as int + 52
    else if c == '+' then 62 else if c == '/' then 63 else -1
  }

  /** RFC 4648, section 4, with padding. */
  function Base64(b: seq<Byte>): string {
    if b == [] then []
    else if |b| == 1 then [Symbol(b[0] / 4), Symbol(b[0] % 4 * 16), '=', '=']
    else if |b| == 2 then [Symbol(b[0] / 4), Symbol(b[0] % 4 * 16 + b[1] / 16), Symbol(b[1] % 16 * 4), '=']
    else Group(b[0], b[1], b[2]) + Base64(b[3..])
  }

  function Group(x: Byte, y: Byte, z: Byte): string {
    [Symbol(x / 4), Symbol(x % 4 * 16 + y / 16), Symbol(y % 16 * 4 + z / 64), Symbol(z % 64)]
  }

  function UrlChar(c: char): char {
    if c == '+' then '-' else if c == '/' then '_' else c
  }

  function StandardChar(c: char): char {
    if c == '-' then '+' else if c == '_' then '/' else c
  }

  function Mapped(f: char -> char, s: string): string {
    seq(|s|, i requires 0 <= i < |s| => f(s[i]))
  }

  /** `.replace(/=+$/, '')` */
  function Stripped(s: string): string {
    if s != [] && s[|s| - 1] == '=' then Stripped(s[..|s| - 1]) else s
  }

  function ToBase64Url(s: string): string {
    Stripped(Mapped(UrlChar, Base64(Utf8(s))))
  }

  datatype Bytes = Foreign | Read(b: seq<Byte>)

  /** Four symbols are three bytes; a short last group drops its spare bits. */
  function FromBase64(s: string): Bytes {
    if exists i :: 0 <= i < |s| && Sextet(s[i]) < 0 then Foreign
    else if |s| <= 1 then Read([])
    else
      var a, b := Sextet(s[0]), Sextet(s[1]);
      if |s| == 2 then Read([a * 4 + b / 16])
      else
        var c := Sextet(s[2]);
        if |s| == 3 then Read([a * 4 + b / 16, b % 16 * 16 + c / 4])
        else
          match FromBase64(s[4..])
          case Foreign => Foreign
          case Read(rest) => Read([a * 4 + b / 16, b % 16 * 16 + c / 4, c % 4 * 64 + Sextet(s[3])] + rest)
  }

  function FromBase64Url(s: string): Decoded {
    match FromBase64(Mapped(StandardChar, s))
    case Foreign => Malformed
    case Read(b) => Decode(b)
  }

  // The cursor.

  datatype Encoding = EmptyKeyset | Encoded(cursor: string)

  function KeyDoc(k: Key): Doc {
    match k case KNull => DNull case KNum(n) => DNum(n) case KStr(s) => DStr(s)
  }

  function KeyDocs(ks: seq<Key>): seq<Doc> {
    if ks == [] then [] else [KeyDoc(ks[0])] + KeyDocs(ks[1..])
  }

  function CursorText(ks: seq<Key>): string {
    Print(DObj([Field("v", DNum(CURSOR_VERSION)), Field("k", DArr(KeyDocs(ks)))]))
  }

  function EncodeCursor(ks: seq<Key>): Encoding {
    if ks == [] then EmptyKeyset else Encoded(ToBase64Url(CursorText(ks)))
  }

  datatype Refusal = Absent | Offset | NotJson | NotObject | BadVersion | MissingKeyset | BadValue
  datatype Decoding = Invalid(why: Refusal) | Keyset(k: seq<Key>)

  /** The guard's two patterns: a leading `off:`, or nothing but digits. */
  predicate OffsetShaped(cursor: string) {
    "off:" <= cursor || (cursor != [] && forall i :: 0 <= i < |cursor| ==> '0' <= cursor[i] <= '9')
  }

  function KeysOf(vs: seq<Value>): Decoding {
    if vs == [] then Keyset([])
    else if !(vs[0].Null? || vs[0].Num? || vs[0].Str?) then Invalid(BadValue)
    else
      match KeysOf(vs[1..])
      case Invalid(why) => Invalid(why)
      case Keyset(ks) =>
        var k := if vs[0].Null? then KNull else if vs[0].Num? then KNum(vs[0].n) else KStr(vs[0].s);
        Keyset([k] + ks)
  }

  function DecodeCursor(cursor: string): Decoding {
    if cursor == [] then Invalid(Absent)
    else if OffsetShaped(cursor) then Invalid(Offset)
    else
      match FromBase64Url(cursor)
      case Malformed => Invalid(NotJson)
      case Text(s) =>
        match Parse(s)
        case Fail => Invalid(NotJson)
        case Got(v, _) =>
          if !v.Obj? then Invalid(NotObject)
          else if !("v" in v.members && v.members["v"] == Num(CURSOR_VERSION)) then Invalid(BadVersion)
          else if !("k" in v.members && v.members["k"].Arr? && v.members["k"].items != []) then Invalid(MissingKeyset)
          else KeysOf(v.members["k"].items)
  }

  // The round trip.

  lemma SextetOfSymbol(n: nat)
    requires n < 64
    ensures Sextet(Symbol(n)) == n && Symbol(n) != '='
    ensures UrlChar(Symbol(n)) != '=' && StandardChar(UrlChar(Symbol(n))) == Symbol(n)
  {
  }

  lemma {:induction false} StrippedConcat(x: string, y: string)
    requires forall i :: 0 <= i < |x| ==> x[i] != '='
    ensures Stripped(x + y) == x + Stripped(y)
  {
    if y == [] || y[|y| - 1] != '=' {
      assert x + [] == x;
    } else {
      StrippedConcat(x, y[..|y| - 1]);
      assert (x + y)[..|x + y| - 1] == x + y[..|y| - 1];
    }
  }

  /** The unpadded url-safe text of a byte string. */
  function UrlText(b: seq<Byte>): string {
    Stripped(Mapped(UrlChar, Base64(b)))
  }

  lemma MappedConcat(f: char -> char, x: string, y: string)
    ensures Mapped(f, x + y) == Mapped(f, x) + Mapped(f, y)
  {
  }

  lemma UrlTextStep(b: seq<Byte>)
    requires |b| >= 3
    ensures UrlText(b) == Mapped(UrlChar, Group(b[0], b[1], b[2])) + UrlText(b[3..])
  {
    hide Symbol, UrlChar;
    var g := Group(b[0], b[1], b[2]);
    MappedConcat(UrlChar, g, Base64(b[3..]));
    GroupSymbols(b[0], b[1], b[2]);
    StrippedConcat(Mapped(UrlChar, g), Mapped(UrlChar, Base64(b[3..])));
  }

  lemma GroupSymbols(x: Byte, y: Byte, z: Byte)
    ensures forall i :: 0 <= i < 4 ==> Mapped(UrlChar, Group(x, y, z))[i] != '='
    ensures Mapped(StandardChar, Mapped(UrlChar, Group(x, y, z))) == Group(x, y, z)
  {
    hide Symbol, UrlChar, StandardChar;
    SextetOfSymbol(x / 4);
    SextetOfSymbol(x % 4 * 16 + y / 16);
    SextetOfSymbol(y % 16 * 4 + z / 64);
    SextetOfSymbol(z % 64);
  }

  /** The three bytes of a group from its four sextets. */
  lemma GroupArithmetic(x: Byte, y: Byte, z: Byte)
    ensures
      var a, b, c, d := x / 4, x % 4 * 16 + y / 16, y % 16 * 4 + z / 64, z % 64;
      a * 4 + b / 16 == x && b % 16 * 16 + c / 4 == y && c % 4 * 64 + d == z
  {
  }

  lemma ReadGroup(x: Byte, y: Byte, z: Byte, t: string, rest: seq<Byte>)
    requires FromBase64(t) == Read(rest)
    ensures FromBase64(Group(x, y, z) + t) == Read([x, y, z] + rest)
  {
    hide Symbol, Sextet;
    var a, b, c, d := x / 4, x % 4 * 16 + y / 16, y % 16 * 4 + z / 64, z % 64;
    GroupArithmetic(x, y, z);
    SextetOfSymbol(a);
    SextetOfSymbol(b);
    SextetOfSymbol(c);
    SextetOfSymbol(d);
    ReadSymbols(Group(x, y, z) + t, a, b, c, d, t);
  }

  lemma ReadSymbols(s: string, a: nat, b: nat, c: nat, d: nat, t: string)
    requires a < 64 && b < 64 && c < 64 && d < 64
    requires |s| >= 4 && s[4..] == t && FromBase64(t).Read?
    requires Sextet(s[0]) == a && Sextet(s[1]) == b && Sextet(s[2]) == c && Sextet(s[3]) == d
    ensures FromBase64(s) == Read([a * 4 + b / 16, b % 16 * 16 + c / 4, c % 4 * 64 + d] + FromBase64(t).b)
  {
    hide Sextet;
    assert forall i :: 0 <= i < |s| ==> Sextet(s[i]) >= 0 by {
      forall i | 0 <= i < |s| ensures Sextet(s[i]) >= 0 {
        if i >= 4 {
          assert s[i] == t[i - 4];
        }
      }
    }
  }

  lemma {:induction false} ReadBack(b: seq<Byte>)
    ensures FromBase64(Mapped(StandardChar, UrlText(b))) == Read(b)
  {
    hide FromBase64, Symbol, UrlChar, StandardChar, Group, UrlText, Base64, Stripped;
    if |b| == 0 {
      ReadNothing();
    } else if |b| == 1 {
      ReadOne(b);
    } else if |b| == 2 {
      ReadTwo(b);
    } else {
      ReadBack(b[3..]);
      UrlTextStep(b);
      var g := Mapped(UrlChar, Group(b[0], b[1], b[2]));
      MappedConcat(StandardChar, g, UrlText(b[3..]));
      GroupSymbols(b[0], b[1], b[2]);
      ReadGroup(b[0], b[1], b[2], Mapped(StandardChar, UrlText(b[3..])), b[3..]);
      assert b == [b[0], b[1], b[2]] + b[3..];
    }
  }

  lemma ReadNothing()
    ensures FromBase64(Mapped(StandardChar, UrlText([]))) == Read([])
  {
    assert UrlText([]) == [];
  }

  lemma StrippedTail(x: string, k: nat)
    requires forall i :: 0 <= i < |x| ==> x[i] != '='
    ensures Stripped(x + seq(k, _ => '=')) == x
  {
    StrippedConcat(x, seq(k, _ => '='));
    StrippedPadding(k);
    assert x + [] == x;
  }

  lemma {:induction false} StrippedPadding(k: nat)
    ensures Stripped(seq(k, _ => '=')) == []
  {
    if k > 0 {
      StrippedPadding(k - 1);
      assert seq(k, _ => '=')[..k - 1] == seq(k - 1, _ => '=');
    }
  }

  lemma ReadOne(b: seq<Byte>)
    requires |b| == 1
    ensures FromBase64(Mapped(StandardChar, UrlText(b))) == Read(b)
  {
    hide Symbol, Sextet, UrlChar, StandardChar, Stripped;
    var m, n := b[0] / 4, b[0] % 4 * 16;
    SextetOfSymbol(m);
    SextetOfSymbol(n);
    PaddingKept();
    var x := [UrlChar(Symbol(m)), UrlChar(Symbol(n))];
    assert Mapped(UrlChar, Base64(b)) == x + seq(2, _ => '=');
    StrippedTail(x, 2);
    assert Mapped(StandardChar, x) == [Symbol(m), Symbol(n)];
    assert m * 4 + n / 16 == b[0];
  }

  lemma ReadTwo(b: seq<Byte>)
    requires |b| == 2
    ensures FromBase64(Mapped(StandardChar, UrlText(b))) == Read(b)
  {
    hide Symbol, Sextet, UrlChar, StandardChar, Stripped;
    var m, n, k := b[0] / 4, b[0] % 4 * 16 + b[1] / 16, b[1] % 16 * 4;
    SextetOfSymbol(m);
    SextetOfSymbol(n);
    SextetOfSymbol(k);
    PaddingKept();
    var x := [UrlChar(Symbol(m)), UrlChar(Symbol(n)), UrlChar(Symbol(k))];
    assert Mapped(UrlChar, Base64(b)) == x + seq(1, _ => '=');
    StrippedTail(x, 1);
    assert Mapped(StandardChar, x) == [Symbol(m), Symbol(n), Symbol(k)];
    GroupArithmetic(b[0], b[1], 0);
  }

  lemma PaddingKept()
    ensures UrlChar('=') == '='
  {
  }

  lemma ReadBackText(s: string)
    ensures FromBase64Url(ToBase64Url(s)) == Text(s)
  {
    hide FromBase64, Decode, Utf8, Base64, Stripped;
    ReadBack(Utf8(s));
    DecodeOfEncoded(s);
  }

  lemma KeyDocsStep(ks: seq<Key>)
    requires ks != []
    ensures Meanings(KeyDocs(ks))[0] == Meaning(KeyDoc(ks[0]))
    ensures Meanings(KeyDocs(ks))[1..] == Meanings(KeyDocs(ks[1..]))
    ensures Meanings(KeyDocs(ks)) != []
  {
    hide Meaning, KeyDoc;
    assert KeyDocs(ks)[1..] == KeyDocs(ks[1..]);
  }

  lemma {:induction false} KeysOfMeanings(ks: seq<Key>)
    ensures KeysOf(Meanings(KeyDocs(ks))) == Keyset(ks)
  {
    hide Meanings, KeyDocs;
    if ks == [] {
      assert Meanings(KeyDocs([])) == [] by { NoKeys(); }
    } else {
      KeysOfMeanings(ks[1..]);
      KeyDocsStep(ks);
      assert ks == [ks[0]] + ks[1..];
    }
  }

  lemma NoKeys()
    ensures Meanings(KeyDocs([])) == []
  {
  }

  lemma FirstOfText(b: seq<Byte>)
    requires b != [] && b[0] == 0x7B
    ensures UrlText(b) != [] && UrlText(b)[0] == 'e'
  {
    hide UrlText;
    assert Symbol(30) == 'e';
    if |b| < 3 {
      ShortText(b);
    } else {
      UrlTextStep(b);
      assert Mapped(UrlChar, Group(b[0], b[1], b[2]))[0] == UrlChar(Symbol(b[0] / 4));
    }
  }

  lemma FirstByte(t: string)
    requires t != [] && t[0] == '{'
    ensures |Utf8(t)| > 0 && Utf8(t)[0] == 0x7B
  {
  }

  /** The offset guard never refuses a cursor the encoder wrote. */
  lemma GuardAdmitsEncoded(ks: seq<Key>)
    requires ks != []
    ensures EncodeCursor(ks).Encoded? && !OffsetShaped(EncodeCursor(ks).cursor) && EncodeCursor(ks).cursor != []
  {
    hide ToBase64Url, Print;
    ObjectFirst(DObj([Field("v", DNum(CURSOR_VERSION)), Field("k", DArr(KeyDocs(ks)))]));
    StartsWithE(EncodeCursor(ks).cursor);
  }

  /** Decoding an encoded keyset gives the keyset back. */
  lemma RoundTrip(ks: seq<Key>)
    ensures EncodeCursor(ks) == EmptyKeyset <==> ks == []
    ensures ks != [] ==> DecodeCursor(EncodeCursor(ks).cursor) == Keyset(ks)
  {
    hide ToBase64Url, FromBase64Url, Parse, Print, KeysOf, OffsetShaped;
    if ks != [] {
      GuardAdmitsEncoded(ks);
      ReadBackText(CursorText(ks));
      ParseOfPrint(DObj([Field("v", DNum(CURSOR_VERSION)), Field("k", DArr(KeyDocs(ks)))]));
      CursorMeaning(ks);
      KeysOfMeanings(ks);
    }
  }

  lemma CursorMeaning(ks: seq<Key>)
    ensures
      Meaning(DObj([Field("v", DNum(CURSOR_VERSION)), Field("k", DArr(KeyDocs(ks)))]))
        == Obj(map["v" := Num(CURSOR_VERSION), "k" := Arr(Meanings(KeyDocs(ks)))])
    ensures |Meanings(KeyDocs(ks))| == |ks|
  {
    hide Meanings, KeyDocs;
    var f := [Field("v", DNum(CURSOR_VERSION)), Field("k", DArr(KeyDocs(ks)))];
    assert f[1..][1..] == [];
    assert AddFields(map[], f) == AddFields(map["v" := Num(CURSOR_VERSION)], f[1..]);
    assert Meaning(f[1].value) == Arr(Meanings(KeyDocs(ks)));
    KeyDocsLength(ks);
  }

  lemma {:induction false} KeyDocsLength(ks: seq<Key>)
    ensures |KeyDocs(ks)| == |ks|
  {
    if ks != [] {
      KeyDocsLength(ks[1..]);
    }
  }

  // The encoding by its definition.

  /** The url-safe alphabet, Table 2 of RFC 4648. */
  function Alphabet(n: nat): char
    requires n < 64
  {
    if n < 13 then "ABCDEFGHIJKLM"[n]
    else if n < 26 then "NOPQRSTUVWXYZ"[n - 13]
    else if n < 39 then "abcdefghijklm"[n - 26]
    else if n < 52 then "nopqrstuvwxyz"[n - 39]
    else "0123456789-_"[n - 52]
  }

  /** Section 5 of RFC 4648 without padding: six bits a symbol, the last ones filled up with zeros. */
  function SixBits(w: seq<bool>): string
    decreases |w|
  {
    if |w| == 0 then ""
    else if |w| < 6 then [UrlSymbol(w + Zeros(6 - |w|))]
    else [UrlSymbol(w[..6])] + SixBits(w[6..])
  }

  function UrlSymbol(w: seq<bool>): char
    requires |w| == 6
  {
    NatBound(w);
    assert Pow2(6) == 64;
    Alphabet(Nat(w))
  }

  lemma SymbolInAlphabet(n: nat)
    requires n < 64
    ensures UrlChar(Symbol(n)) == Alphabet(n)
  {
    hide Symbol, UrlChar;
    if n < 13 {
      Letters(n);
    } else if n < 26 {
      Letters(n - 13);
    } else if n < 39 {
      Letters(n - 26);
    } else if n < 52 {
      Letters(n - 39);
    } else {
      DigitsAndMarks(n - 52);
    }
  }

  lemma Letters(k: nat)
    requires k < 13
    ensures "ABCDEFGHIJKLM"[k] == UrlChar(Symbol(k)) && "NOPQRSTUVWXYZ"[k] == UrlChar(Symbol(k + 13))
    ensures "abcdefghijklm"[k] == UrlChar(Symbol(k + 26)) && "nopqrstuvwxyz"[k] == UrlChar(Symbol(k + 39))
  {
    assert k == 0 || k == 1 || k == 2 || k == 3 || k == 4 || k == 5 || k >= 6;
    assert k < 6 || k == 6 || k == 7 || k == 8 || k == 9 || k == 10 || k == 11 || k == 12;
  }

  lemma DigitsAndMarks(k: nat)
    requires k < 12
    ensures "0123456789-_"[k] == UrlChar(Symbol(k + 52))
  {
    assert k == 0 || k == 1 || k == 2 || k == 3 || k == 4 || k == 5 || k >= 6;
    assert k < 6 || k == 6 || k == 7 || k == 8 || k == 9 || k == 10 || k == 11;
  }

  /** The bits of one and a half bytes, cut after six. */
  lemma ByteCut(x: Byte)
    ensures Encode(x, 8) == Encode(x / 4, 6) + Encode(x, 2)
    ensures Encode(x, 8) == Encode(x / 16, 4) + Encode(x, 4)
    ensures Encode(x, 8) == Encode(x / 64, 2) + Encode(x, 6)
  {
    EncodeSplit(x, 6, 2);
    EncodeSplit(x, 4, 4);
    EncodeSplit(x, 2, 6);
    HalvedIsDivision(x, 2);
    HalvedIsDivision(x, 4);
    HalvedIsDivision(x, 6);
    assert Pow2(2) == 4 && Pow2(4) == 16 && Pow2(6) == 64;
  }

  /** A symbol of the bits `a` and `b`. */
  lemma SymbolOfBits(a: seq<bool>, b: seq<bool>)
    requires |a| + |b| == 6
    ensures Nat(a) * Pow2(|b|) + Nat(b) < 64
    ensures UrlSymbol(a + b) == UrlChar(Symbol(Nat(a) * Pow2(|b|) + Nat(b)))
  {
    hide Symbol, UrlChar, Nat;
    NatJoined(a, b);
    NatBound(a + b);
    assert Pow2(6) == 64;
    SymbolInAlphabet(Nat(a) * Pow2(|b|) + Nat(b));
  }

  lemma {:induction false} NatJoined(a: seq<bool>, b: seq<bool>)
    ensures Nat(a + b) == Nat(a) * Pow2(|b|) + Nat(b)
  {
    if b == [] {
      assert a + b == a;
    } else {
      NatJoined(a, b[..|b| - 1]);
      assert (a + b)[..|a + b| - 1] == a + b[..|b| - 1];
      DoubledProduct(Nat(a), Pow2(|b| - 1));
    }
  }

  lemma SixMore(g: seq<bool>, rest: seq<bool>)
    requires |g| == 6
    ensures SixBits(g + rest) == [UrlSymbol(g)] + SixBits(rest)
  {
    hide UrlSymbol;
    assert (g + rest)[..6] == g && (g + rest)[6..] == rest;
  }

  lemma SixLast(g: seq<bool>)
    requires 0 < |g| < 6
    ensures SixBits(g) == [UrlSymbol(g + Zeros(6 - |g|))]
  {
  }

  /** A symbol made of the `k` low bits of `m` and the high bits `n`. */
  lemma SymbolOfNumbers(m: nat, k: nat, n: nat)
    requires k <= 6 && n < Pow2(6 - k)
    ensures m % Pow2(k) * Pow2(6 - k) + n < 64
    ensures UrlSymbol(Encode(m, k) + Encode(n, 6 - k)) == UrlChar(Symbol(m % Pow2(k) * Pow2(6 - k) + n))
  {
    hide UrlSymbol, Symbol, UrlChar, Nat, Pow2;
    NatOfEncode(m, k);
    NatOfEncode(n, 6 - k);
    ModUnique(n, Pow2(6 - k), 0, n);
    SymbolOfBits(Encode(m, k), Encode(n, 6 - k));
  }

  /** The four symbols at the cuts of three bytes. */
  lemma GroupSixes(x: Byte, y: Byte, z: Byte)
    ensures UrlSymbol(Encode(x / 4, 6)) == UrlChar(Symbol(x / 4))
    ensures UrlSymbol(Encode(x, 2) + Encode(y / 16, 4)) == UrlChar(Symbol(x % 4 * 16 + y / 16))
    ensures UrlSymbol(Encode(y, 4) + Encode(z / 64, 2)) == UrlChar(Symbol(y % 16 * 4 + z / 64))
    ensures UrlSymbol(Encode(z, 6)) == UrlChar(Symbol(z % 64))
  {
    hide UrlSymbol, Symbol, UrlChar, Encode;
    assert Pow2(0) == 1 && Pow2(2) == 4 && Pow2(4) == 16 && Pow2(6) == 64;
    SymbolOfNumbers(0, 0, x / 4);
    SymbolOfNumbers(x, 2, y / 16);
    SymbolOfNumbers(y, 4, z / 64);
    SymbolOfNumbers(z, 6, 0);
    assert Encode(0, 0) + Encode(x / 4, 6) == Encode(x / 4, 6);
    assert Encode(z, 6) + Encode(0, 0) == Encode(z, 6);
  }

  lemma GroupIsSixBits(x: Byte, y: Byte, z: Byte, rest: seq<bool>)
    ensures SixBits(Encode(x, 8) + (Encode(y, 8) + (Encode(z, 8) + rest))) == Mapped(UrlChar, Group(x, y, z)) + SixBits(rest)
  {
    hide SixBits, UrlSymbol, Symbol, UrlChar, Encode;
    var g1, g2, g3, g4 := Encode(x / 4, 6), Encode(x, 2) + Encode(y / 16, 4), Encode(y, 4) + Encode(z / 64, 2), Encode(z, 6);
    ByteCut(x);
    ByteCut(y);
    ByteCut(z);
    assert Encode(x, 8) + (Encode(y, 8) + (Encode(z, 8) + rest)) == g1 + (g2 + (g3 + (g4 + rest)));
    SixMore(g1, g2 + (g3 + (g4 + rest)));
    SixMore(g2, g3 + (g4 + rest));
    SixMore(g3, g4 + rest);
    SixMore(g4, rest);
    GroupSixes(x, y, z);
  }

  lemma ThreeBytesBits(b: seq<Byte>)
    requires |b| >= 3
    ensures BytesBits(b) == Encode(b[0], 8) + (Encode(b[1], 8) + (Encode(b[2], 8) + BytesBits(b[3..])))
  {
    hide Encode;
    assert b[1..][0] == b[1] && b[1..][1..] == b[2..];
    assert b[2..][0] == b[2] && b[2..][1..] == b[3..];
    assert BytesBits(b[1..]) == Encode(b[1], 8) + BytesBits(b[2..]);
    assert BytesBits(b[2..]) == Encode(b[2], 8) + BytesBits(b[3..]);
  }

  lemma OneIsSixBits(b: seq<Byte>)
    requires |b| == 1
    ensures UrlText(b) == SixBits(BytesBits(b))
  {
    hide UrlSymbol, Symbol, UrlChar, Stripped;
    var x := b[0];
    ByteCut(x);
    GroupSixes(x, 0, 0);
    EncodeZero(4);
    assert BytesBits(b) == Encode(x / 4, 6) + Encode(x, 2);
    SixMore(Encode(x / 4, 6), Encode(x, 2));
    SixLast(Encode(x, 2));
    ShortText(b);
  }

  lemma TwoIsSixBits(b: seq<Byte>)
    requires |b| == 2
    ensures UrlText(b) == SixBits(BytesBits(b))
  {
    hide UrlSymbol, Symbol, UrlChar, Stripped, SixBits, UrlText, Encode;
    var x, y := b[0], b[1];
    ByteCut(x);
    ByteCut(y);
    GroupSixes(x, y, 0);
    EncodeZero(2);
    var g1, g2 := Encode(x / 4, 6), Encode(x, 2) + Encode(y / 16, 4);
    assert BytesBits(b) == g1 + (g2 + Encode(y, 4));
    SixMore(g1, g2 + Encode(y, 4));
    SixMore(g2, Encode(y, 4));
    SixLast(Encode(y, 4));
    ShortText(b);
  }

  lemma NothingIsSixBits()
    ensures UrlText([]) == SixBits(BytesBits([]))
  {
    ReadNothing();
  }

  /** The text of one or two bytes. */
  lemma ShortText(b: seq<Byte>)
    requires 1 <= |b| <= 2
    ensures |b| == 1 ==> UrlText(b) == [UrlChar(Symbol(b[0] / 4)), UrlChar(Symbol(b[0] % 4 * 16))]
    ensures |b| == 2 ==> (
      UrlText(b) == [UrlChar(Symbol(b[0] / 4)), UrlChar(Symbol(b[0] % 4 * 16 + b[1] / 16)), UrlChar(Symbol(b[1] % 16 * 4))])
  {
    hide Symbol, UrlChar, Stripped;
    PaddingKept();
    SextetOfSymbol(b[0] / 4);
    if |b| == 1 {
      SextetOfSymbol(b[0] % 4 * 16);
      var x := [UrlChar(Symbol(b[0] / 4)), UrlChar(Symbol(b[0] % 4 * 16))];
      assert Mapped(UrlChar, Base64(b)) == x + seq(2, _ => '=');
      StrippedTail(x, 2);
    } else {
      SextetOfSymbol(b[0] % 4 * 16 + b[1] / 16);
      SextetOfSymbol(b[1] % 16 * 4);
      var x := [UrlChar(Symbol(b[0] / 4)), UrlChar(Symbol(b[0] % 4 * 16 + b[1] / 16)), UrlChar(Symbol(b[1] % 16 * 4))];
      assert Mapped(UrlChar, Base64(b)) == x + seq(1, _ => '=');
      StrippedTail(x, 1);
    }
  }

  /** The text of the encoder is the one RFC 4648 defines for the bytes. */
  lemma {:induction false} UrlTextIsSixBits(b: seq<Byte>)
    ensures UrlText(b) == SixBits(BytesBits(b))
  {
    hide UrlText, SixBits, Encode, Group;
    if |b| == 1 {
      OneIsSixBits(b);
    } else if |b| == 2 {
      TwoIsSixBits(b);
    } else if |b| >= 3 {
      UrlTextIsSixBits(b[3..]);
      UrlTextStep(b);
      GroupIsSixBits(b[0], b[1], b[2], BytesBits(b[3..]));
      ThreeBytesBits(b);
    } else {
      NothingIsSixBits();
    }
  }

  // What is accepted.

  /** The wire shape: an object whose `v` is the number 2 and whose `k` is a list, not empty, of
      strings, numbers and nulls. */
  ghost predicate CursorShaped(v: Value) {
    && v.Obj?
    && "v" in v.members && v.members["v"] == Num(2)
    && "k" in v.members && v.members["k"].Arr? && v.members["k"].items != []
    && forall item :: item in v.members["k"].items ==> item == Null || item.Num? || item.Str?
  }

  /** The keys that the items of a list say, each in its place. */
  ghost predicate Says(items: seq<Value>, ks: seq<Key>) {
    && |items| == |ks|
    && forall i :: 0 <= i < |ks| ==>
      match ks[i] case KNull => items[i] == Null case KNum(n) => items[i] == Num(n) case KStr(s) => items[i] == Str(s)
  }

  lemma {:induction false} KeysOfExact(vs: seq<Value>)
    ensures KeysOf(vs).Keyset? <==> forall item :: item in vs ==> item == Null || item.Num? || item.Str?
    ensures KeysOf(vs).Keyset? ==> Says(vs, KeysOf(vs).k)
  {
    if vs != [] {
      KeysOfExact(vs[1..]);
      assert vs == [vs[0]] + vs[1..];
      assert vs[0] in vs;
    }
  }

  /** Of all documents in printed form, exactly those of the wire shape are decoded, to the keys
      they hold; another version, or an offset dressed up as a cursor, is refused. */
  lemma DecodeExact(d: Doc)
    ensures var r := DecodeCursor(ToBase64Url(Print(d)));
      && (r.Keyset? <==> CursorShaped(Meaning(d)))
      && (r.Keyset? ==> Says(Meaning(d).members["k"].items, r.k))
  {
    hide ToBase64Url, FromBase64Url, Parse, Print, KeysOf, OffsetShaped, Meaning;
    var v := Meaning(d);
    if v.Obj? {
      ObjectFirst(d);
      var cursor := ToBase64Url(Print(d));
      assert !OffsetShaped(cursor) by { StartsWithE(cursor); }
    }
    ReadBackText(Print(d));
    ParseOfPrint(d);
    if v.Obj? && "k" in v.members && v.members["k"].Arr? {
      KeysOfExact(v.members["k"].items);
    }
  }

  /** What goes over the wire: the url-safe base64 of the UTF-8 text of an object that says version 2
      and the keys. */
  lemma EncodedIsWire(ks: seq<Key>)
    requires ks != []
    ensures EncodeCursor(ks) == Encoded(SixBits(BytesBits(Utf8(CursorText(ks)))))
    ensures Parse(CursorText(ks)) == Got(Obj(map["v" := Num(2), "k" := Arr(Meanings(KeyDocs(ks)))]), [])
    ensures Says(Meanings(KeyDocs(ks)), ks)
  {
    hide SixBits, Parse, Print, Utf8, KeysOf, Meanings, KeyDocs, Stripped;
    UrlTextIsSixBits(Utf8(CursorText(ks)));
    ParseOfPrint(DObj([Field("v", DNum(CURSOR_VERSION)), Field("k", DArr(KeyDocs(ks)))]));
    CursorMeaning(ks);
    KeysOfMeanings(ks);
    KeysOfExact(Meanings(KeyDocs(ks)));
  }

  lemma StartsWithE(cursor: string)
    requires cursor != [] && cursor[0] == 'e'
    ensures !OffsetShaped(cursor)
  {
  }

  /** The text of an object begins with `{`, and so its cursor with `e`. */
  lemma ObjectFirst(d: Doc)
    requires Meaning(d).Obj?
    ensures var cursor := ToBase64Url(Print(d)); cursor != [] && cursor[0] == 'e'
  {
    hide Stripped, Base64, Utf8, Print, Meaning, UrlChar;
    ObjectText(d);
    FirstByte(Print(d));
    FirstOfText(Utf8(Print(d)));
  }

  lemma ObjectText(d: Doc)
    requires Meaning(d).Obj?
    ensures |Print(d)| >= 2 && Print(d)[0] == '{'
  {
    hide PrintFields;
  }
}
