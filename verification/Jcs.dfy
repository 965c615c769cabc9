/** RFC 8785: canonical JSON. Object members are sorted by UTF-16 code units at every level,
    then printed. */
module Jcs {
  import opened Json
  import opened Order
  import opened Unicode
  import Ascii
  import Words

  function Rank(f: Field): seq<int> {
    Utf16(f.key)
  }

  function Insert(f: Field, fields: seq<Field>): seq<Field> {
    if fields == [] then [f]
    else if Lex(Rank(f), Rank(fields[0])) then [f] + fields
    else [fields[0]] + Insert(f, fields[1..])
  }

  function SortFields(fields: seq<Field>): seq<Field> {
    if fields == [] then [] else Insert(fields[0], SortFields(fields[1..]))
  }

  /** A document with the members of every object sorted. */
  function Sorted(d: Doc): Doc {
    match d
    case DArr(items) => DArr(SortedItems(items))
    case DObj(fields) => DObj(SortFields(SortedValues(fields)))
    case _ => d
  }

  function SortedItems(items: seq<Doc>): (r: seq<Doc>)
    ensures |r| == |items| && forall i :: 0 <= i < |items| ==> r[i] == Sorted(items[i])
  {
    if items == [] then [] else [Sorted(items[0])] + SortedItems(items[1..])
  }

  function SortedValues(fields: seq<Field>): (r: seq<Field>)
    ensures |r| == |fields|
    ensures forall i :: 0 <= i < |fields| ==> r[i] == Field(fields[i].key, Sorted(fields[i].value))
  {
    if fields == [] then [] else [Field(fields[0].key, Sorted(fields[0].value))] + SortedValues(fields[1..])
  }

  /** The values `jcs` serialises: strings, integers, arrays and objects. It throws on others. */
  predicate Serialisable(d: Doc) {
    match d
    case DNum(_) => true
    case DStr(_) => true
    case DArr(items) => forall i :: 0 <= i < |items| ==> Serialisable(items[i])
    case DObj(fields) => forall i :: 0 <= i < |fields| ==> Serialisable(fields[i].value)
    case _ => false
  }

  datatype Serialised = Unsupported | Ok(text: string)

  function Canonical(d: Doc): Serialised {
    if Serialisable(d) then Ok(Print(Sorted(d))) else Unsupported
  }

  /** Objects name a member once, at every level: what a JavaScript object guarantees. */
  ghost predicate DistinctMembers(d: Doc) {
    match d
    case DArr(items) => forall i :: 0 <= i < |items| ==> DistinctMembers(items[i])
    case DObj(fields) =>
      && DistinctKeys(fields)
      && forall i :: 0 <= i < |fields| ==> DistinctMembers(fields[i].value)
    case _ => true
  }

  ghost predicate DistinctKeys(fields: seq<Field>) {
    forall i, j :: 0 <= i < j < |fields| ==> fields[i].key != fields[j].key
  }

  // Sorting.

  lemma {:induction false} InsertMembers(f: Field, fields: seq<Field>, x: Field)
    ensures x in Insert(f, fields) <==> x == f || x in fields
  {
    if fields != [] && !Lex(Rank(f), Rank(fields[0])) {
      InsertMembers(f, fields[1..], x);
      assert fields == [fields[0]] + fields[1..];
    }
  }

  lemma {:induction false} SortMembers(fields: seq<Field>, x: Field)
    ensures x in SortFields(fields) <==> x in fields
  {
    if fields != [] {
      SortMembers(fields[1..], x);
      InsertMembers(fields[0], SortFields(fields[1..]), x);
    }
  }

  lemma {:induction false} InsertAscending(f: Field, fields: seq<Field>)
    requires Ascending(fields, Rank)
    requires forall x :: x in fields ==> x.key != f.key
    ensures Ascending(Insert(f, fields), Rank)
  {
    if fields != [] {
      var g := fields[0];
      assert g in fields;
      if Lex(Rank(f), Rank(g)) {
        forall j | 0 <= j < |fields|
          ensures Lex(Rank(f), Rank(fields[j]))
        {
          if j > 0 {
            LexTransitive(Rank(f), Rank(g), Rank(fields[j]));
          }
        }
      } else {
        LexTotal(Rank(f), Rank(g));
        if Rank(f) == Rank(g) {
          Utf16Injective(f.key, g.key);
        }
        InsertAscending(f, fields[1..]);
        var rest := Insert(f, fields[1..]);
        forall j | 0 <= j < |rest|
          ensures Lex(Rank(g), Rank(rest[j]))
        {
          InsertMembers(f, fields[1..], rest[j]);
          assert rest[j] in rest;
          if rest[j] != f {
            var i :| 0 <= i < |fields[1..]| && fields[1..][i] == rest[j];
            assert rest[j] == fields[i + 1];
          }
        }
      }
    }
  }

  lemma {:induction false} SortAscending(fields: seq<Field>)
    requires DistinctKeys(fields)
    ensures Ascending(SortFields(fields), Rank)
  {
    if fields != [] {
      SortAscending(fields[1..]);
      forall x | x in SortFields(fields[1..])
        ensures x.key != fields[0].key
      {
        SortMembers(fields[1..], x);
      }
      InsertAscending(fields[0], SortFields(fields[1..]));
    }
  }

  lemma AscendingDistinctKeys(fields: seq<Field>)
    requires Ascending(fields, Rank)
    ensures DistinctKeys(fields)
  {
    forall i, j | 0 <= i < j < |fields|
      ensures fields[i].key != fields[j].key
    {
      AscendingDistinct(fields, Rank, i, j);
    }
  }

  /** Section 3.2.3 of RFC 8785: `a` comes before `b` as strings of UTF-16 code units. */
  ghost predicate UnitsBefore(a: string, b: string) {
    exists i :: 0 <= i <= |Utf16(a)| && i < |Utf16(b)|
      && Utf16(a)[..i] == Utf16(b)[..i] && (i == |Utf16(a)| || Utf16(a)[i] < Utf16(b)[i])
  }

  /** The members of every object are in that order. */
  ghost predicate OrderedMembers(d: Doc) {
    match d
    case DArr(items) => forall i :: 0 <= i < |items| ==> OrderedMembers(items[i])
    case DObj(fields) =>
      && (forall i, j :: 0 <= i < j < |fields| ==> UnitsBefore(fields[i].key, fields[j].key))
      && forall i :: 0 <= i < |fields| ==> OrderedMembers(fields[i].value)
    case _ => true
  }

  lemma {:induction false} SortedIsOrdered(d: Doc)
    requires DistinctMembers(d)
    ensures OrderedMembers(Sorted(d))
  {
    hide Lex, UnitsBefore, SortFields;
    match d
    case DArr(items) =>
      forall i | 0 <= i < |items| ensures OrderedMembers(SortedItems(items)[i]) {
        SortedIsOrdered(items[i]);
      }
    case DObj(fields) =>
      var values := SortedValues(fields);
      var sorted := SortFields(values);
      SortAscending(values);
      forall i, j | 0 <= i < j < |sorted| ensures UnitsBefore(sorted[i].key, sorted[j].key) {
        KeysBefore(sorted[i], sorted[j]);
      }
      forall j | 0 <= j < |sorted| ensures OrderedMembers(sorted[j].value) {
        SortMembers(values, sorted[j]);
        var i :| 0 <= i < |values| && values[i] == sorted[j];
        SortedIsOrdered(fields[i].value);
      }
    case _ =>
  }

  lemma KeysBefore(f: Field, g: Field)
    requires Lex(Rank(f), Rank(g))
    ensures UnitsBefore(f.key, g.key)
  {
    hide Lex;
    LexExact(Utf16(f.key), Utf16(g.key));
  }

  /** The canonical text is the print of a document that says the same and whose members are in the
      order of RFC 8785 at every level. */
  lemma CanonicalIsOrdered(d: Doc) returns (e: Doc)
    requires DistinctMembers(d) && Serialisable(d)
    ensures Canonical(d) == Ok(Print(e)) && Meaning(e) == Meaning(d) && OrderedMembers(e)
  {
    e := Sorted(d);
    SortedMeaning(d);
    SortedIsOrdered(d);
  }

  // Meaning.

  lemma {:induction false} FieldsKeys(m: map<string, Value>, fields: seq<Field>, k: string)
    ensures k in AddFields(m, fields) <==> k in m || exists i :: 0 <= i < |fields| && fields[i].key == k
    decreases fields
  {
    if fields != [] {
      FieldsKeys(m[fields[0].key := Meaning(fields[0].value)], fields[1..], k);
      if i :| 0 <= i < |fields[1..]| && fields[1..][i].key == k {
        assert fields[i + 1].key == k;
      }
      if i :| 0 < i < |fields| && fields[i].key == k {
        assert fields[1..][i - 1].key == k;
      }
    }
  }

  lemma {:induction false} FieldsOther(m: map<string, Value>, fields: seq<Field>, k: string)
    requires forall i :: 0 <= i < |fields| ==> fields[i].key != k
    requires k in m
    ensures k in AddFields(m, fields) && AddFields(m, fields)[k] == m[k]
    decreases fields
  {
    if fields != [] {
      FieldsOther(m[fields[0].key := Meaning(fields[0].value)], fields[1..], k);
    }
  }

  lemma {:induction false} FieldsValue(m: map<string, Value>, fields: seq<Field>, i: nat)
    requires DistinctKeys(fields) && i < |fields|
    ensures fields[i].key in AddFields(m, fields)
    ensures AddFields(m, fields)[fields[i].key] == Meaning(fields[i].value)
    decreases fields
  {
    var m' := m[fields[0].key := Meaning(fields[0].value)];
    if i == 0 {
      FieldsOther(m', fields[1..], fields[0].key);
    } else {
      FieldsValue(m', fields[1..], i - 1);
    }
  }

  /** Sorting keeps what a document says. */
  lemma {:induction false} SortedMeaning(d: Doc)
    requires DistinctMembers(d)
    ensures Meaning(Sorted(d)) == Meaning(d)
    decreases d, 1
  {
    match d
    case DArr(items) => SortedItemsMeaning(items);
    case DObj(fields) =>
      SortedValuesMeaning(fields, map[]);
      PermutedMeaning(SortedValues(fields), SortFields(SortedValues(fields)));
    case _ =>
  }

  lemma {:induction false} SortedItemsMeaning(items: seq<Doc>)
    requires forall i :: 0 <= i < |items| ==> DistinctMembers(items[i])
    ensures Meanings(SortedItems(items)) == Meanings(items)
    decreases items, 0
  {
    if items != [] {
      SortedMeaning(items[0]);
      SortedItemsMeaning(items[1..]);
    }
  }

  lemma {:induction false} SortedValuesMeaning(fields: seq<Field>, m: map<string, Value>)
    requires forall i :: 0 <= i < |fields| ==> DistinctMembers(fields[i].value)
    ensures AddFields(m, SortedValues(fields)) == AddFields(m, fields)
    decreases fields, 0
  {
    if fields != [] {
      SortedMeaning(fields[0].value);
      SortedValuesMeaning(fields[1..], m[fields[0].key := Meaning(fields[0].value)]);
      assert SortedValues(fields)[1..] == SortedValues(fields[1..]);
    }
  }

  /** A sorted copy of distinct members describes the same object. */
  lemma PermutedMeaning(a: seq<Field>, b: seq<Field>)
    requires DistinctKeys(a) && b == SortFields(a)
    ensures AddFields(map[], a) == AddFields(map[], b)
  {
    SortAscending(a);
    AscendingDistinctKeys(b);
    var p, q := AddFields(map[], a), AddFields(map[], b);
    forall i | 0 <= i < |a|
      ensures a[i].key in p && a[i].key in q && p[a[i].key] == q[a[i].key]
    {
      FieldsValue(map[], a, i);
      SortMembers(a, a[i]);
      assert a[i] in a;
      var j :| 0 <= j < |b| && b[j] == a[i];
      FieldsValue(map[], b, j);
    }
    forall k
      ensures k in p <==> k in q
    {
      FieldsKeys(map[], a, k);
      FieldsKeys(map[], b, k);
      if j :| 0 <= j < |b| && b[j].key == k {
        assert b[j] in b;
        SortMembers(a, b[j]);
        var i :| 0 <= i < |a| && a[i] == b[j];
      }
    }
    forall k | k in p
      ensures p[k] == q[k]
    {
      FieldsKeys(map[], a, k);
      var i :| 0 <= i < |a| && a[i].key == k;
    }
  }

  /** Documents that say the same sort to the same document. */
  lemma {:induction false} MeaningDeterminesSorted(a: Doc, b: Doc)
    requires DistinctMembers(a) && DistinctMembers(b) && Meaning(a) == Meaning(b)
    ensures Sorted(a) == Sorted(b)
    decreases a, 1
  {
    match a
    case DArr(items) => MeaningsDetermineItems(items, b.items);
    case DObj(fields) =>
      var p, q := SortedValues(fields), SortedValues(b.fields);
      forall x: Field
        ensures x in SortFields(p) <==> x in SortFields(q)
      {
        SortMembers(p, x);
        SortMembers(q, x);
        if x in p {
          MatchingField(fields, b.fields, x);
        }
        if x in q {
          MatchingFieldBack(fields, b.fields, x);
        }
      }
      SortAscending(p);
      SortAscending(q);
      AscendingUnique(SortFields(p), SortFields(q), Rank);
    case _ =>
  }

  lemma {:induction false} MeaningsDetermineItems(a: seq<Doc>, b: seq<Doc>)
    requires forall i :: 0 <= i < |a| ==> DistinctMembers(a[i])
    requires forall i :: 0 <= i < |b| ==> DistinctMembers(b[i])
    requires Meanings(a) == Meanings(b)
    ensures SortedItems(a) == SortedItems(b)
    decreases a, 0
  {
    assert |a| == |Meanings(a)| == |Meanings(b)| == |b|;
    if a != [] {
      assert Meanings(a)[0] == Meaning(a[0]) && Meanings(b)[0] == Meaning(b[0]);
      assert Meanings(a)[1..] == Meanings(a[1..]) && Meanings(b)[1..] == Meanings(b[1..]);
      MeaningDeterminesSorted(a[0], b[0]);
      MeaningsDetermineItems(a[1..], b[1..]);
    }
  }

  ghost predicate SameObject(a: seq<Field>, b: seq<Field>) {
    && DistinctKeys(a) && DistinctKeys(b) && AddFields(map[], a) == AddFields(map[], b)
    && (forall i :: 0 <= i < |a| ==> DistinctMembers(a[i].value))
    && (forall i :: 0 <= i < |b| ==> DistinctMembers(b[i].value))
  }

  /** The member of `b` that has the key of `a[i]`. */
  lemma Counterpart(a: seq<Field>, b: seq<Field>, i: nat) returns (j: nat)
    requires SameObject(a, b) && i < |a|
    ensures j < |b| && b[j].key == a[i].key && Meaning(b[j].value) == Meaning(a[i].value)
  {
    FieldsValue(map[], a, i);
    FieldsKeys(map[], b, a[i].key);
    j :| 0 <= j < |b| && b[j].key == a[i].key;
    FieldsValue(map[], b, j);
  }

  lemma {:induction false} MatchingField(a: seq<Field>, b: seq<Field>, x: Field)
    requires SameObject(a, b) && x in SortedValues(a)
    ensures x in SortedValues(b)
    decreases a, 0
  {
    var i :| 0 <= i < |a| && SortedValues(a)[i] == x;
    var j := Counterpart(a, b, i);
    MeaningDeterminesSorted(a[i].value, b[j].value);
    assert SortedValues(b)[j] == x;
  }

  lemma {:induction false} MatchingFieldBack(a: seq<Field>, b: seq<Field>, x: Field)
    requires SameObject(a, b) && x in SortedValues(b)
    ensures x in SortedValues(a)
    decreases a, 0
  {
    var j :| 0 <= j < |b| && SortedValues(b)[j] == x;
    var i := Counterpart(b, a, j);
    MeaningDeterminesSorted(a[i].value, b[j].value);
    assert SortedValues(a)[i] == x;
  }

  /** Canonical text identifies what a document says: it forgets member order and nothing else. */
  lemma JcsIdentifiesMeaning(a: Doc, b: Doc)
    requires DistinctMembers(a) && DistinctMembers(b) && Serialisable(a) && Serialisable(b)
    ensures Canonical(a) == Canonical(b) <==> Meaning(a) == Meaning(b)
  {
    if Canonical(a) == Canonical(b) {
      ParseOfPrint(Sorted(a));
      ParseOfPrint(Sorted(b));
      SortedMeaning(a);
      SortedMeaning(b);
    }
    if Meaning(a) == Meaning(b) {
      MeaningDeterminesSorted(a, b);
    }
  }

  /** What canonical text can say: no null and no truth value, anywhere. */
  predicate Sayable(v: Value)
    decreases v
  {
    match v
    case Null => false
    case Bool(_) => false
    case Num(_) => true
    case Str(_) => true
    case Arr(items) => forall item :: item in items ==> Sayable(item)
    case Obj(members) => forall k :: k in members ==> Sayable(members[k])
  }

  /** A document is serialised exactly when it can be said so; otherwise `jcs` throws. */
  lemma {:induction false} SerialisedExactly(d: Doc)
    requires DistinctMembers(d)
    ensures Canonical(d).Ok? <==> Sayable(Meaning(d))
  {
    match d
    case DArr(items) =>
      forall i | 0 <= i < |items| ensures Serialisable(items[i]) <==> Sayable(Meaning(items[i])) {
        SerialisedExactly(items[i]);
      }
      MeaningsAt(items);
    case DObj(fields) =>
      forall i | 0 <= i < |fields| ensures Serialisable(fields[i].value) <==> Sayable(Meaning(fields[i].value)) {
        SerialisedExactly(fields[i].value);
      }
      MembersSayable(fields);
    case _ =>
  }

  lemma {:induction false} MeaningsAt(ds: seq<Doc>)
    ensures forall i :: 0 <= i < |ds| ==> Meanings(ds)[i] == Meaning(ds[i])
  {
    if ds != [] {
      MeaningsAt(ds[1..]);
    }
  }

  lemma MembersSayable(fields: seq<Field>)
    requires DistinctKeys(fields)
    ensures Sayable(Obj(AddFields(map[], fields))) <==> forall i :: 0 <= i < |fields| ==> Sayable(Meaning(fields[i].value))
  {
    hide AddFields, Meaning;
    var m := AddFields(map[], fields);
    forall i | 0 <= i < |fields| ensures fields[i].key in m && m[fields[i].key] == Meaning(fields[i].value) {
      FieldsValue(map[], fields, i);
    }
    forall k | k in m ensures exists i :: 0 <= i < |fields| && fields[i].key == k {
      FieldsKeys(map[], fields, k);
    }
  }

  /** `JSON.parse` inverts `jcs`. */
  lemma ParseOfJcs(d: Doc)
    requires DistinctMembers(d) && Serialisable(d)
    ensures Parse(Canonical(d).text) == Got(Meaning(d), [])
  {
    ParseOfPrint(Sorted(d));
    SortedMeaning(d);
  }

  /** A character is written in the shortest way in which it can be read, and hexadecimal digits are
      small. */
  lemma EscapedIsShortest(c: char, t: string)
    requires ParseChar(t) == Got(c, []) && t[0] != '"'
    ensures |Escaped(c)| <= |t|
    ensures |Escaped(c)| == |t| ==> t == Escaped(c) || (c as int < 0x20 && Ascii.Lower(t) == Escaped(c))
  {
    hide Ascii.Lower;
    if t[0] == '\\' && |t| == 6 && c as int < 0x20 && |Escaped(c)| == 6 {
      HexDigits(c, t);
    }
  }

  lemma HexDigits(c: char, t: string)
    requires |t| == 6 && t[0] == '\\' && ParseChar(t) == Got(c, []) && c as int < 0x20 && |Escaped(c)| == 6
    ensures Ascii.Lower(t) == Escaped(c)
  {
    hide HexValue, Ascii.LowerChar;
    var a, b, d, e := HexValue(t[2]), HexValue(t[3]), HexValue(t[4]), HexValue(t[5]);
    HexDigitLower(t[2]);
    HexDigitLower(t[3]);
    HexDigitLower(t[4]);
    HexDigitLower(t[5]);
    assert t[1] == 'u' && a >= 0 && b >= 0 && d >= 0 && e >= 0;
    var v := a * 4096 + b * 256 + d * 16 + e;
    assert !(0xD800 <= v < 0xE000) && v as char == c;
    assert v == c as int;
    assert a == 0 && b == 0 && d == c as int / 16 && e == c as int % 16;
    LowerEscape(t, c);
  }

  lemma LowerEscape(t: string, c: char)
    requires |t| == 6 && t[0] == '\\' && t[1] == 'u' && c as int < 0x20 && |Escaped(c)| == 6
    requires Ascii.LowerChar(t[2]) == '0' && Ascii.LowerChar(t[3]) == '0'
    requires Ascii.LowerChar(t[4]) == Words.HEX_DIGITS[c as int / 16] && Ascii.LowerChar(t[5]) == Words.HEX_DIGITS[c as int % 16]
    ensures Ascii.Lower(t) == Escaped(c)
  {
    assert Ascii.LowerChar('\\') == '\\' && Ascii.LowerChar('u') == 'u';
  }

  lemma HexDigitLower(h: char)
    ensures HexValue(h) < 16
    ensures HexValue(h) >= 0 ==> Ascii.LowerChar(h) == Words.HEX_DIGITS[HexValue(h)]
  {
    var v := HexValue(h);
    assert v == 0 || v == 1 || v == 2 || v == 3 || v == 4 || v == 5 || v == 6 || v == 7 || v < 0 || v >= 8;
    assert v < 8 || v == 8 || v == 9 || v == 10 || v == 11 || v == 12 || v == 13 || v == 14 || v == 15;
  }

  lemma EscapedStep(s: string, i: nat, out: string)
    requires i < |s|
    ensures out + EscapedAll(s[i..]) == out + Escaped(s[i]) + EscapedAll(s[i + 1..])
  {
    assert s[i..][1..] == s[i + 1..];
  }

  /** The source's `jcsString`, which appends one character's escape at a time. */
  method JcsString(s: string) returns (out: string)
    ensures out == Quoted(s)
  {
    hide EscapedAll;
    out := "\"";
    for i := 0 to |s|
      invariant out + EscapedAll(s[i..]) == "\"" + EscapedAll(s)
    {
      var ch := s[i];
      var code := ch as int;
      var piece: string;
      if ch == '"' {
        piece := "\\\"";
      } else if ch == '\\' {
        piece := "\\\\";
      } else if code == 0x08 {
        piece := "\\b";
      } else if code == 0x09 {
        piece := "\\t";
      } else if code == 0x0A {
        piece := "\\n";
      } else if code == 0x0C {
        piece := "\\f";
      } else if code == 0x0D {
        piece := "\\r";
      } else if code < 0x20 {
        piece := "\\u00" + [Words.HEX_DIGITS[code / 16], Words.HEX_DIGITS[code % 16]];
      } else {
        piece := [ch];
      }
      assert piece == Escaped(ch);
      EscapedStep(s, i, out);
      out := out + piece;
    }
    NothingLeft(s, out);
    out := out + "\"";
  }

  lemma NothingLeft(s: string, out: string)
    ensures out + EscapedAll(s[|s|..]) == out
  {
  }
}
