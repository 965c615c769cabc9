/** JSON documents as JavaScript holds them, their compact text, and the text's reader.
    Numbers are integers. */
module Json {
  import Words

  /** A document: object members in insertion order, as `Object.keys` lists them. */
  datatype Doc =
    | DNull
    | DBool(b: bool)
    | DNum(n: int)
    | DStr(s: string)
    | DArr(items: seq<Doc>)
    | DObj(fields: seq<Field>)

  datatype Field = Field(key: string, value: Doc)

  /** What a document says, member order forgotten. */
  datatype Value =
    | Null
    | Bool(b: bool)
    | Num(n: int)
    | Str(s: string)
    | Arr(items: seq<Value>)
    | Obj(members: map<string, Value>)

  function Meaning(d: Doc): Value {
    match d
    case DNull => Null
    case DBool(b) => Bool(b)
    case DNum(n) => Num(n)
    case DStr(s) => Str(s)
    case DArr(items) => Arr(Meanings(items))
    case DObj(fields) => Obj(AddFields(map[], fields))
  }

  function Meanings(ds: seq<Doc>): (vs: seq<Value>)
    ensures |vs| == |ds|
  {
    if ds == [] then [] else [Meaning(ds[0])] + Meanings(ds[1..])
  }

  /** Members assigned one after the other; a repeated key keeps its last value. */
  function AddFields(m: map<string, Value>, fields: seq<Field>): map<string, Value>
    decreases fields
  {
    if fields == [] then m
    else AddFields(m[fields[0].key := Meaning(fields[0].value)], fields[1..])
  }

  // Writing.

  /** Section 3.2.2.2 of RFC 8785: one character of a string literal. */
  function Escaped(c: char): (t: string)
    ensures t != []
  {
    if c == '"' then "\\\""
    else if c == '\\' then "\\\\"
    else if c as int == 0x08 then "\\b"
    else if c as int == 0x09 then "\\t"
    else if c as int == 0x0A then "\\n"
    else if c as int == 0x0C then "\\f"
    else if c as int == 0x0D then "\\r"
    else if c as int < 0x20 then "\\u00" + [Words.HEX_DIGITS[c as int / 16], Words.HEX_DIGITS[c as int % 16]]
    else [c]
  }

  function EscapedAll(s: string): string {
    if s == [] then [] else Escaped(s[0]) + EscapedAll(s[1..])
  }

  function Quoted(s: string): string {
    "\"" + EscapedAll(s) + "\""
  }

  function Digit(n: nat): char
    requires n < 10
  {
    '0' + n as char
  }

  /** `String(n)` of a non-negative integer. */
  function Decimal(n: nat): (t: string)
    ensures t != []
  {
    if n < 10 then [Digit(n)] else Decimal(n / 10) + [Digit(n % 10)]
  }

  function Number(n: int): (t: string)
    ensures t != []
  {
    if n < 0 then "-" + Decimal(-n) else Decimal(n)
  }

  function Print(d: Doc): (t: string)
    ensures t != []
  {
    match d
    case DNull => "null"
    case DBool(b) => if b then "true" else "false"
    case DNum(n) => Number(n)
    case DStr(s) => Quoted(s)
    case DArr(items) => "[" + PrintItems(items) + "]"
    case DObj(fields) => "{" + PrintFields(fields) + "}"
  }

  function PrintItems(items: seq<Doc>): string {
    if items == [] then []
    else if |items| == 1 then Print(items[0])
    else Print(items[0]) + "," + PrintItems(items[1..])
  }

  function PrintFields(fields: seq<Field>): string {
    if fields == [] then []
    else
      var head := Quoted(fields[0].key) + ":" + Print(fields[0].value);
      if |fields| == 1 then head else head + "," + PrintFields(fields[1..])
  }

  // Reading.

  datatype Parsed<T> = Fail | Got(value: T, rest: string)

  function HexValue(c: char): int {
    if '0' <= c <= '9' then c as int - '0' as int
    else if 'a' <= c <= 'f' then c as int - 'a' as int + 10
    else if 'A' <= c <= 'F' then c as int - 'A' as int + 10
    else -1
  }

  /** One character of a string literal, escaped or plain. A surrogate escape is not read. */
  function ParseChar(s: string): (r: Parsed<char>)
    ensures r.Got? ==> |r.rest| < |s|
  {
    if s == [] || s[0] as int < 0x20 then Fail
    else if s[0] != '\\' then Got(s[0], s[1..])
    else if |s| < 2 then Fail
    else
      match s[1]
      case '"' => Got('"', s[2..])
      case '\\' => Got('\\', s[2..])
      case '/' => Got('/', s[2..])
      case 'b' => Got(0x08 as char, s[2..])
      case 't' => Got(0x09 as char, s[2..])
      case 'n' => Got(0x0A as char, s[2..])
      case 'f' => Got(0x0C as char, s[2..])
      case 'r' => Got(0x0D as char, s[2..])
      case 'u' =>
        if |s| < 6 || HexValue(s[2]) < 0 || HexValue(s[3]) < 0 || HexValue(s[4]) < 0 || HexValue(s[5]) < 0 then Fail
        else
          var v := HexValue(s[2]) * 4096 + HexValue(s[3]) * 256 + HexValue(s[4]) * 16 + HexValue(s[5]);
          if 0xD800 <= v < 0xE000 then Fail else Got(v as char, s[6..])
      case _ => Fail
  }

  /** The rest of a string literal, after its opening quote. */
  function ParseString(s: string): (r: Parsed<string>)
    ensures r.Got? ==> |r.rest| < |s|
    decreases |s|
  {
    if s == [] then Fail
    else if s[0] == '"' then Got([], s[1..])
    else
      match ParseChar(s)
      case Fail => Fail
      case Got(c, rest) =>
        match ParseString(rest)
        case Fail => Fail
        case Got(t, rest') => Got([c] + t, rest')
  }

  predicate IsDigit(s: string) {
    s != [] && '0' <= s[0] <= '9'
  }

  function ParseDigits(s: string, acc: nat): (r: Parsed<nat>)
    ensures r.Got? && |r.rest| <= |s|
    decreases |s|
  {
    if IsDigit(s) then ParseDigits(s[1..], 10 * acc + (s[0] as int - '0' as int)) else Got(acc, s)
  }

  /** An unsigned integer: no leading zero, and no fraction or exponent after it. */
  function ParseNat(s: string): (r: Parsed<nat>)
    ensures r.Got? ==> |r.rest| < |s|
  {
    if !IsDigit(s) || (s[0] == '0' && IsDigit(s[1..])) then Fail
    else
      var r := ParseDigits(s[1..], s[0] as int - '0' as int);
      if r.rest != [] && r.rest[0] in {'.', 'e', 'E'} then Fail else r
  }

  function ParseValue(s: string): (r: Parsed<Value>)
    ensures r.Got? ==> |r.rest| < |s|
    decreases |s|, 0
  {
    if s == [] then Fail
    else if s[0] == '"' then
      match ParseString(s[1..]) { case Fail => Fail case Got(t, rest) => Got(Str(t), rest) }
    else if s[0] == '-' then
      match ParseNat(s[1..]) { case Fail => Fail case Got(n, rest) => Got(Num(0 - n), rest) }
    else if IsDigit(s) then
      match ParseNat(s) { case Fail => Fail case Got(n, rest) => Got(Num(n), rest) }
    else if "null" <= s then Got(Null, s[4..])
    else if "true" <= s then Got(Bool(true), s[4..])
    else if "false" <= s then Got(Bool(false), s[5..])
    else if "[]" <= s then Got(Arr([]), s[2..])
    else if s[0] == '[' then
      match ParseItems(s[1..]) { case Fail => Fail case Got(vs, rest) => Got(Arr(vs), rest) }
    else if "{}" <= s then Got(Obj(map[]), s[2..])
    else if s[0] == '{' then
      match ParseMembers(s[1..], map[]) { case Fail => Fail case Got(m, rest) => Got(Obj(m), rest) }
    else Fail
  }

  /** One or more items and the closing bracket. */
  function ParseItems(s: string): (r: Parsed<seq<Value>>)
    ensures r.Got? ==> |r.rest| < |s|
    decreases |s|, 1
  {
    match ParseValue(s)
    case Fail => Fail
    case Got(v, rest) =>
      if rest == [] then Fail
      else if rest[0] == ']' then Got([v], rest[1..])
      else if rest[0] != ',' then Fail
      else
        match ParseItems(rest[1..])
        case Fail => Fail
        case Got(vs, rest') => Got([v] + vs, rest')
  }

  /** One or more members and the closing brace; a repeated key keeps its last value. */
  function ParseMembers(s: string, m: map<string, Value>): (r: Parsed<map<string, Value>>)
    ensures r.Got? ==> |r.rest| < |s|
    decreases |s|, 1
  {
    if s == [] || s[0] != '"' then Fail
    else
      match ParseString(s[1..])
      case Fail => Fail
      case Got(key, afterKey) =>
        if afterKey == [] || afterKey[0] != ':' then Fail
        else
          match ParseValue(afterKey[1..])
          case Fail => Fail
          case Got(v, rest) =>
            if rest == [] then Fail
            else if rest[0] == '}' then Got(m[key := v], rest[1..])
            else if rest[0] != ',' then Fail
            else ParseMembers(rest[1..], m[key := v])
  }

  /** `JSON.parse` of a whole text. */
  function Parse(s: string): Parsed<Value> {
    var r := ParseValue(s);
    if r.Got? && r.rest == [] then r else Fail
  }

  // Reading back what was written.

  lemma {:induction false} ParseEscaped(s: string, rest: string)
    ensures ParseString(EscapedAll(s) + "\"" + rest) == Got(s, rest)
  {
    if s == [] {
      assert EscapedAll(s) + "\"" + rest == "\"" + rest;
    } else {
      var tail := EscapedAll(s[1..]) + "\"" + rest;
      var t := Escaped(s[0]) + tail;
      assert EscapedAll(s) + "\"" + rest == t;
      ParseEscapedChar(s[0], tail);
      ParseEscaped(s[1..], rest);
      assert s == [s[0]] + s[1..];
    }
  }

  lemma ParseEscapedChar(c: char, tail: string)
    ensures ParseChar(Escaped(c) + tail) == Got(c, tail) && (Escaped(c) + tail)[0] != '"'
  {
    if |Escaped(c)| == 1 {
      assert (Escaped(c) + tail)[1..] == tail;
    } else if |Escaped(c)| == 2 {
      ParseShortEscape(c, tail);
    } else {
      ParseHexEscape(c, tail);
    }
  }

  lemma ParseShortEscape(c: char, tail: string)
    requires |Escaped(c)| == 2
    ensures ParseChar(Escaped(c) + tail) == Got(c, tail) && (Escaped(c) + tail)[0] != '"'
  {
    hide HexValue;
    assert (Escaped(c) + tail)[2..] == tail;
  }

  lemma ParseHexEscape(c: char, tail: string)
    requires |Escaped(c)| > 2
    ensures ParseChar(Escaped(c) + tail) == Got(c, tail) && (Escaped(c) + tail)[0] != '"'
  {
    var t := Escaped(c) + tail;
    assert t[6..] == tail;
    HexDigits(c as int);
    assert HexValue('0') == 0;
    assert t[2] == '0' && t[3] == '0';
    hide HexValue;
  }

  lemma HexDigits(n: nat)
    requires n < 0x20
    ensures HexValue(Words.HEX_DIGITS[n / 16]) == n / 16 && HexValue(Words.HEX_DIGITS[n % 16]) == n % 16
  {
  }

  /** Text that cannot extend a number. */
  predicate Delimited(rest: string) {
    rest == [] || rest[0] in {',', ']', '}'}
  }

  predicate AllDigits(t: string) {
    forall i :: 0 <= i < |t| ==> '0' <= t[i] <= '9'
  }

  /** What `ParseDigits` accumulates over a run of digits. */
  function Accumulated(acc: nat, t: string): nat
    requires AllDigits(t)
    decreases t
  {
    if t == [] then acc else Accumulated(10 * acc + (t[0] as int - '0' as int), t[1..])
  }

  lemma {:induction false} AccumulatedAppend(acc: nat, t: string, c: char)
    requires AllDigits(t) && '0' <= c <= '9'
    ensures Accumulated(acc, t + [c]) == 10 * Accumulated(acc, t) + (c as int - '0' as int)
    decreases t
  {
    if t != [] {
      AccumulatedAppend(10 * acc + (t[0] as int - '0' as int), t[1..], c);
      assert (t + [c])[1..] == t[1..] + [c];
    }
  }

  lemma {:induction false} DecimalDigits(n: nat)
    ensures AllDigits(Decimal(n)) && Accumulated(0, Decimal(n)) == n
    ensures Decimal(n)[0] == '0' ==> n == 0 && |Decimal(n)| == 1
  {
    if n >= 10 {
      DecimalDigits(n / 10);
      AccumulatedAppend(0, Decimal(n / 10), Digit(n % 10));
    }
  }

  lemma {:induction false} ParseDigitRun(t: string, acc: nat, rest: string)
    requires AllDigits(t) && !IsDigit(rest)
    ensures ParseDigits(t + rest, acc) == Got(Accumulated(acc, t), rest)
  {
    if t == [] {
      assert t + rest == rest;
    } else {
      ParseDigitRun(t[1..], 10 * acc + (t[0] as int - '0' as int), rest);
      assert (t + rest)[1..] == t[1..] + rest;
    }
  }

  lemma DigitHead(t: string)
    requires t != [] && AllDigits(t)
    ensures '0' <= t[0] <= '9' && AllDigits(t[1..])
  {
  }

  lemma NotDigit(rest: string)
    requires Delimited(rest)
    ensures !IsDigit(rest) && !(rest != [] && rest[0] in {'.', 'e', 'E'})
  {
  }

  lemma ParseDigitText(t: string, rest: string)
    requires t != [] && AllDigits(t) && (t[0] == '0' ==> |t| == 1) && Delimited(rest)
    ensures ParseNat(t + rest) == Got(Accumulated(0, t), rest) && IsDigit(t + rest)
  {
    hide ParseDigits, Accumulated, Delimited, AllDigits;
    DigitHead(t);
    var s, acc := t + rest, t[0] as int - '0' as int;
    assert s[0] == t[0] && s[1..] == t[1..] + rest;
    NotDigit(rest);
    AccumulatedHead(t);
    ParseDigitRun(t[1..], acc, rest);
    assert |t| == 1 ==> s[1..] == rest;
  }

  lemma AccumulatedHead(t: string)
    requires t != [] && AllDigits(t)
    ensures Accumulated(0, t) == Accumulated(t[0] as int - '0' as int, t[1..])
  {
  }

  lemma ParseDecimal(n: nat, rest: string)
    requires Delimited(rest)
    ensures ParseNat(Decimal(n) + rest) == Got(n, rest) && IsDigit(Decimal(n) + rest)
  {
    hide Decimal, ParseNat, Accumulated;
    DecimalDigits(n);
    ParseDigitText(Decimal(n), rest);
  }

  // How each production is read once its parts are.

  lemma ValueOfString(t: string, s: string, rest: string)
    requires ParseString(t) == Got(s, rest)
    ensures ParseValue("\"" + t) == Got(Str(s), rest)
  {
    hide ParseString;
    assert ("\"" + t)[1..] == t;
  }

  lemma ValueOfNumber(n: int, rest: string)
    requires Delimited(rest)
    ensures ParseValue(Number(n) + rest) == Got(Num(n), rest)
  {
    hide Decimal, ParseNat;
    if n < 0 {
      ParseDecimal(-n, rest);
      assert (Number(n) + rest)[1..] == Decimal(-n) + rest;
    } else {
      ParseDecimal(n, rest);
    }
  }

  lemma ValueOfLiteral(d: Doc, rest: string)
    requires d.DNull? || d.DBool?
    ensures ParseValue(Print(d) + rest) == Got(Meaning(d), rest)
  {
    assert (Print(d) + rest)[|Print(d)|..] == rest;
  }

  lemma ValueOfItems(t: string, vs: seq<Value>, rest: string)
    requires t != [] && t[0] != ']' && ParseItems(t) == Got(vs, rest)
    ensures ParseValue("[" + t) == Got(Arr(vs), rest)
  {
    hide ParseItems;
    assert ("[" + t)[1..] == t && ("[" + t)[0] == '[' && ("[" + t)[1] != ']';
  }

  lemma ValueOfMembers(t: string, m: map<string, Value>, rest: string)
    requires t != [] && t[0] != '}' && ParseMembers(t, map[]) == Got(m, rest)
    ensures ParseValue("{" + t) == Got(Obj(m), rest)
  {
    hide ParseMembers;
    assert ("{" + t)[1..] == t && ("{" + t)[0] == '{' && ("{" + t)[1] != '}';
  }

  lemma ItemsLast(t: string, v: Value, rest: string)
    requires ParseValue(t) == Got(v, "]" + rest)
    ensures ParseItems(t) == Got([v], rest)
  {
    hide ParseValue;
    assert ("]" + rest)[1..] == rest;
  }

  lemma ItemsMore(t: string, v: Value, tail: string, vs: seq<Value>, rest: string)
    requires ParseValue(t) == Got(v, "," + tail) && ParseItems(tail) == Got(vs, rest)
    ensures ParseItems(t) == Got([v] + vs, rest)
  {
    hide ParseValue;
    assert ("," + tail)[1..] == tail;
  }

  lemma MemberHead(k: string, t: string, v: Value, rest: string, m: map<string, Value>)
    requires ParseValue(t) == Got(v, rest)
    ensures
      var s := Quoted(k) + (":" + t);
      s != [] && s[0] == '"' && ParseString(s[1..]) == Got(k, ":" + t) && (":" + t)[1..] == t
  {
    hide ParseString, EscapedAll;
    ParseEscaped(k, ":" + t);
    var s := Quoted(k) + (":" + t);
    assert s[1..] == EscapedAll(k) + "\"" + (":" + t);
  }

  lemma MembersLast(k: string, t: string, v: Value, rest: string, m: map<string, Value>)
    requires ParseValue(t) == Got(v, "}" + rest)
    ensures ParseMembers(Quoted(k) + (":" + t), m) == Got(m[k := v], rest)
  {
    hide ParseValue, ParseString, Quoted;
    MemberHead(k, t, v, "}" + rest, m);
    assert ("}" + rest)[1..] == rest;
  }

  lemma MembersMore(k: string, t: string, v: Value, tail: string, m: map<string, Value>)
    requires ParseValue(t) == Got(v, "," + tail)
    ensures ParseMembers(Quoted(k) + (":" + t), m) == ParseMembers(tail, m[k := v])
  {
    hide ParseValue, ParseString, Quoted;
    MemberHead(k, t, v, "," + tail, m);
    assert ("," + tail)[1..] == tail;
  }

  lemma FirstChar(d: Doc)
    ensures Print(d)[0] != ']' && Print(d)[0] != '}'
  {
    hide PrintItems, PrintFields;
    match d {
      case DNum(n) =>
        if n >= 0 {
          DecimalDigits(n);
        }
      case _ =>
    }
  }

  lemma {:induction false} ParsePrinted(d: Doc, rest: string)
    requires Delimited(rest)
    ensures ParseValue(Print(d) + rest) == Got(Meaning(d), rest)
    decreases d, 1
  {
    hide ParseValue, ParseItems, ParseMembers, ParseString, EscapedAll, Number, PrintItems, PrintFields, AddFields, Meanings;
    match d
    case DNum(n) =>
      ValueOfNumber(n, rest);
    case DStr(s) =>
      ParseEscaped(s, rest);
      ValueOfString(EscapedAll(s) + "\"" + rest, s, rest);
      assert Print(d) + rest == "\"" + (EscapedAll(s) + "\"" + rest);
    case DArr(items) =>
      if items == [] {
        EmptyContainers(rest);
      } else {
        ParsePrintedItems(items, rest);
        ValueOfItems(PrintItems(items) + "]" + rest, Meanings(items), rest);
        assert Print(d) + rest == "[" + (PrintItems(items) + "]" + rest);
      }
    case DObj(fields) =>
      if fields == [] {
        EmptyContainers(rest);
      } else {
        ParsePrintedFields(fields, rest, map[]);
        ValueOfMembers(PrintFields(fields) + "}" + rest, AddFields(map[], fields), rest);
        assert Print(d) + rest == "{" + (PrintFields(fields) + "}" + rest);
      }
    case _ =>
      ValueOfLiteral(d, rest);
  }

  lemma EmptyContainers(rest: string)
    ensures ParseValue(Print(DArr([])) + rest) == Got(Meaning(DArr([])), rest)
    ensures ParseValue(Print(DObj([])) + rest) == Got(Meaning(DObj([])), rest)
  {
    assert Print(DArr([])) == "[]" && Print(DObj([])) == "{}";
    assert ("[]" + rest)[2..] == rest && ("{}" + rest)[2..] == rest;
    assert ("[]" + rest)[0] == '[' && ("{}" + rest)[0] == '{';
  }

  lemma {:induction false} ParsePrintedItems(items: seq<Doc>, rest: string)
    requires items != []
    ensures ParseItems(PrintItems(items) + "]" + rest) == Got(Meanings(items), rest)
    ensures PrintItems(items) != [] && PrintItems(items)[0] != ']'
    decreases items, 0
  {
    hide ParseValue, ParseItems, Print, Meaning;
    var t := PrintItems(items) + "]" + rest;
    FirstChar(items[0]);
    assert Meanings(items) == [Meaning(items[0])] + Meanings(items[1..]);
    if |items| == 1 {
      ParsePrinted(items[0], "]" + rest);
      assert t == Print(items[0]) + ("]" + rest);
      ItemsLast(t, Meaning(items[0]), rest);
      assert items[1..] == [];
      assert Meanings(items) == [Meaning(items[0])];
    } else {
      var tail := PrintItems(items[1..]) + "]" + rest;
      ParsePrinted(items[0], "," + tail);
      assert t == Print(items[0]) + ("," + tail);
      ParsePrintedItems(items[1..], rest);
      ItemsMore(t, Meaning(items[0]), tail, Meanings(items[1..]), rest);
      assert ParseItems(t) == Got([Meaning(items[0])] + Meanings(items[1..]), rest);
    }
  }

  lemma Regrouped(a: string, b: string, c: string, d: string)
    ensures a + ":" + b + "," + c + "}" + d == a + (":" + (b + ("," + (c + "}" + d))))
    ensures a + ":" + b + "}" + d == a + (":" + (b + ("}" + d)))
  {
  }

  lemma {:induction false} ParsePrintedFields(fields: seq<Field>, rest: string, m: map<string, Value>)
    requires fields != []
    ensures ParseMembers(PrintFields(fields) + "}" + rest, m) == Got(AddFields(m, fields), rest)
    ensures PrintFields(fields) != [] && PrintFields(fields)[0] != '}'
    decreases fields, 0
  {
    hide ParseValue, ParseMembers, Print, Meaning, Quoted;
    var k, d := fields[0].key, fields[0].value;
    assert Quoted(k)[0] == '"' && |Quoted(k)| > 0 by { QuotedHead(k); }
    if |fields| == 1 {
      ParsePrinted(d, "}" + rest);
      Regrouped(Quoted(k), Print(d), [], rest);
      MembersLast(k, Print(d) + ("}" + rest), Meaning(d), rest, m);
      assert fields[1..] == [];
    } else {
      var tail := PrintFields(fields[1..]) + "}" + rest;
      ParsePrinted(d, "," + tail);
      Regrouped(Quoted(k), Print(d), PrintFields(fields[1..]), rest);
      MembersMore(k, Print(d) + ("," + tail), Meaning(d), tail, m);
      ParsePrintedFields(fields[1..], rest, m[k := Meaning(d)]);
    }
  }

  lemma QuotedHead(k: string)
    ensures |Quoted(k)| > 0 && Quoted(k)[0] == '"'
  {
  }

  /** `JSON.parse` reads back what the printer wrote. */
  lemma ParseOfPrint(d: Doc)
    ensures Parse(Print(d)) == Got(Meaning(d), [])
  {
    hide ParseValue, Print, Meaning;
    ParsePrinted(d, []);
    assert Print(d) + [] == Print(d);
  }
}
