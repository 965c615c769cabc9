/** The `--question` shorthand: separators escaped by a backslash, colons outside commas. */
module FormInput {

  const SLASH: char := '\\'

  // Splitting.

  predicate Escapes(raw: string, sep: char) {
    |raw| >= 2 && raw[0] == SLASH && (raw[1] == sep || raw[1] == SLASH)
  }

  /** The pieces of `raw`, the first of which continues `cur`. */
  function Pieces(raw: string, sep: char, cur: string): (r: seq<string>)
    ensures r != []
  {
    if raw == [] then [cur]
    else if Escapes(raw, sep) then Pieces(raw[2..], sep, cur + [raw[1]])
    else if raw[0] == sep then [cur] + Pieces(raw[1..], sep, [])
    else Pieces(raw[1..], sep, cur + [raw[0]])
  }

  function Split(raw: string, sep: char): (r: seq<string>)
    ensures r != []
  {
    Pieces(raw, sep, [])
  }

  /** `splitEscaped` */
  method SplitEscaped(raw: string, sep: char) returns (out: seq<string>)
    ensures out == Split(raw, sep)
  {
    out := [];
    var cur := "";
    var i := 0;
    assert raw[0..] == raw;
    while i < |raw|
      invariant 0 <= i <= |raw|
      invariant Split(raw, sep) == out + Pieces(raw[i..], sep, cur)
    {
      ghost var rest := raw[i..];
      assert rest[1..] == raw[i + 1..] && (i + 1 < |raw| ==> rest[2..] == raw[i + 2..]);
      if raw[i] == SLASH && i + 1 < |raw| && (raw[i + 1] == sep || raw[i + 1] == SLASH) {
        cur := cur + [raw[i + 1]];
        i := i + 2;
      } else if raw[i] == sep {
        assert out + ([cur] + Pieces(rest[1..], sep, [])) == (out + [cur]) + Pieces(rest[1..], sep, []);
        out := out + [cur];
        cur := "";
        i := i + 1;
      } else {
        cur := cur + [raw[i]];
        i := i + 1;
      }
    }
    out := out + [cur];
  }

  // Joining.

  function EscapedChar(c: char, sep: char): string {
    if c == sep || c == SLASH then [SLASH, c] else [c]
  }

  function Escape(s: string, sep: char): string {
    if s == [] then [] else EscapedChar(s[0], sep) + Escape(s[1..], sep)
  }

  function Join(parts: seq<string>, sep: char): string
    requires parts != []
  {
    if |parts| == 1 then Escape(parts[0], sep)
    else Escape(parts[0], sep) + [sep] + Join(parts[1..], sep)
  }

  lemma CharIsRead(c: char, tail: string, sep: char, cur: string)
    requires sep != SLASH
    ensures Pieces(EscapedChar(c, sep) + tail, sep, cur) == Pieces(tail, sep, cur + [c])
  {
    var raw := EscapedChar(c, sep) + tail;
    if c == sep || c == SLASH {
      assert raw[2..] == tail;
    } else {
      assert raw[1..] == tail;
    }
  }

  /** Escaped text adds its own characters to the current piece. */
  lemma {:induction false} EscapedIsRead(s: string, rest: string, sep: char, cur: string)
    requires sep != SLASH
    ensures Pieces(Escape(s, sep) + rest, sep, cur) == Pieces(rest, sep, cur + s)
  {
    hide Pieces, EscapedChar;
    if s == [] {
      assert Escape(s, sep) + rest == rest && cur + s == cur;
    } else {
      var tail := Escape(s[1..], sep) + rest;
      assert Escape(s, sep) + rest == EscapedChar(s[0], sep) + tail;
      CharIsRead(s[0], tail, sep, cur);
      EscapedIsRead(s[1..], rest, sep, cur + [s[0]]);
      assert cur + [s[0]] + s[1..] == cur + s;
    }
  }

  lemma PartIsRead(part: string, raw: string, sep: char)
    requires sep != SLASH
    ensures Split(Escape(part, sep), sep) == [part]
    ensures Split(Escape(part, sep) + [sep] + raw, sep) == [part] + Split(raw, sep)
  {
    hide Escape;
    assert [] + part == part;
    assert Escape(part, sep) + [] == Escape(part, sep);
    EscapedIsRead(part, [], sep, []);
    var rest := [sep] + raw;
    assert Escape(part, sep) + [sep] + raw == Escape(part, sep) + rest;
    EscapedIsRead(part, rest, sep, []);
    assert rest[1..] == raw;
  }

  /** Splitting the escaped and joined parts gives the parts back. */
  lemma {:induction false} SplitInvertsJoin(parts: seq<string>, sep: char)
    requires sep != SLASH && parts != []
    ensures Split(Join(parts, sep), sep) == parts
  {
    hide Split, Escape;
    if |parts| == 1 {
      PartIsRead(parts[0], [], sep);
    } else {
      PartIsRead(parts[0], Join(parts[1..], sep), sep);
      SplitInvertsJoin(parts[1..], sep);
    }
  }

  /** A backslash as its own separator cannot be told from an escaped one. */
  lemma SlashDoesNotSeparate()
    ensures Split(Join(["", "", ""], SLASH), SLASH) == [[SLASH]]
  {
    assert Join([""], SLASH) == [];
    assert ["", ""][1..] == [""] && ["", "", ""][1..] == ["", ""];
    assert Join(["", ""], SLASH) == [SLASH];
    var raw := Join(["", "", ""], SLASH);
    assert raw == [SLASH, SLASH];
    assert raw[2..] == [];
    assert [] + [raw[1]] == [SLASH];
    assert Pieces(raw[2..], SLASH, [SLASH]) == [[SLASH]];
  }

  // How many pieces.

  /** The length of the run of backslashes that ends before position i. */
  function SlashesBefore(raw: string, i: nat): nat
    requires i <= |raw|
  {
    if i > 0 && raw[i - 1] == SLASH then 1 + SlashesBefore(raw, i - 1) else 0
  }

  /** The separators preceded by an even number of backslashes. */
  function Unescaped(raw: string, sep: char, from: nat): nat
    requires from <= |raw|
    decreases |raw| - from
  {
    if from == |raw| then 0
    else (if raw[from] == sep && SlashesBefore(raw, from) % 2 == 0 then 1 else 0) + Unescaped(raw, sep, from + 1)
  }

  lemma {:induction false} PiecesCount(raw: string, sep: char, i: nat, cur: string)
    requires sep != SLASH && i <= |raw|
    requires i < |raw| ==> SlashesBefore(raw, i) % 2 == 0 || (raw[i] != sep && raw[i] != SLASH)
    ensures |Pieces(raw[i..], sep, cur)| == 1 + Unescaped(raw, sep, i)
    decreases |raw| - i
  {
    var rest := raw[i..];
    if i < |raw| {
      assert rest[1..] == raw[i + 1..];
      if Escapes(rest, sep) {
        assert rest[2..] == raw[i + 2..];
        PiecesCount(raw, sep, i + 2, cur + [rest[1]]);
        assert SlashesBefore(raw, i + 1) % 2 == 1;
      } else if rest[0] == sep {
        PiecesCount(raw, sep, i + 1, []);
      } else {
        PiecesCount(raw, sep, i + 1, cur + [rest[0]]);
      }
    }
  }

  /** One piece more than there are unescaped separators. */
  lemma SplitCount(raw: string, sep: char)
    requires sep != SLASH
    ensures |Split(raw, sep)| == 1 + Unescaped(raw, sep, 0)
  {
    PiecesCount(raw, sep, 0, []);
    assert raw[0..] == raw;
  }

  // Trimming.

  /** The characters that `String.prototype.trim` removes. */
  predicate Space(c: char) {
    var n := c as int;
    || 9 <= n <= 13 || n == 0x20 || n == 0xA0 || n == 0x1680 || 0x2000 <= n <= 0x200A
    || n == 0x2028 || n == 0x2029 || n == 0x202F || n == 0x205F || n == 0x3000 || n == 0xFEFF
  }

  function TrimStart(s: string): string {
    if s != [] && Space(s[0]) then TrimStart(s[1..]) else s
  }

  function TrimEnd(s: string): string {
    if s != [] && Space(s[|s| - 1]) then TrimEnd(s[..|s| - 1]) else s
  }

  function Trim(s: string): string {
    TrimEnd(TrimStart(s))
  }

  predicate Trimmed(s: string) {
    s == [] || (!Space(s[0]) && !Space(s[|s| - 1]))
  }

  ghost predicate Blank(s: string) {
    forall c :: c in s ==> Space(c)
  }

  /** Trimming takes the blanks off both ends and nothing else. */
  lemma TrimUnpads(a: string, t: string, b: string)
    requires Blank(a) && Trimmed(t) && Blank(b)
    ensures Trim(a + t + b) == t
  {
    hide Space;
    assert a + t + b == a + (t + b);
    StartUnpads(a, t + b);
    if t == [] {
      assert [] + b == b;
      BlankIsNothing(b);
    } else {
      assert (t + b)[0] == t[0];
      assert TrimStart(t + b) == t + b;
      EndUnpads(t, b);
      assert TrimEnd(t) == t;
    }
  }

  lemma {:induction false} StartUnpads(a: string, t: string)
    requires Blank(a)
    ensures TrimStart(a + t) == TrimStart(t)
  {
    hide Space;
    if a == [] {
      assert a + t == t;
    } else {
      assert a[0] in a && (a + t)[1..] == a[1..] + t;
      StartUnpads(a[1..], t);
    }
  }

  lemma {:induction false} EndUnpads(t: string, b: string)
    requires Blank(b)
    ensures TrimEnd(t + b) == TrimEnd(t)
  {
    hide Space;
    if b == [] {
      assert t + b == t;
    } else {
      var n := |b| - 1;
      assert b[n] in b && (t + b)[|t + b| - 1] == b[n] && (t + b)[..|t + b| - 1] == t + b[..n];
      EndUnpads(t, b[..n]);
    }
  }

  lemma {:induction false} BlankIsNothing(b: string)
    requires Blank(b)
    ensures TrimStart(b) == [] && Trim(b) == []
  {
    StartUnpads(b, []);
    assert b + [] == b;
  }

  lemma TrimTrimmed(s: string)
    requires Trimmed(s)
    ensures Trim(s) == s
  {
  }

  // Questions.

  datatype Choice = Choice(value: string, text: string, recommended: bool)

  datatype Question = Question(key: string, kind: string, title: string, options: seq<Choice>)

  datatype Parsed = Parsed(question: Question) | TooFew | TooMany(colons: nat) | NoOptions

  function IndexOf(s: string, c: char): (i: nat)
    ensures i <= |s| && (i < |s| ==> s[i] == c) && forall j :: 0 <= j < i ==> s[j] != c
  {
    if s == [] || s[0] == c then 0 else 1 + IndexOf(s[1..], c)
  }

  function ParseChoice(item: string): Choice {
    var recommended := item != [] && item[|item| - 1] == '*';
    ParseBody(if recommended then Trim(item[..|item| - 1]) else item, recommended)
  }

  function ParseBody(body: string, recommended: bool): Choice {
    var eq := IndexOf(body, '=');
    if eq == |body| then Choice(Trim(body), Trim(body), recommended)
    else Choice(Trim(body[..eq]), Trim(body[eq + 1..]), recommended)
  }

  function Items(pieces: seq<string>): seq<string> {
    if pieces == [] then []
    else (if Trim(pieces[0]) == [] then [] else [Trim(pieces[0])]) + Items(pieces[1..])
  }

  function Choices(items: seq<string>): seq<Choice> {
    if items == [] then [] else [ParseChoice(items[0])] + Choices(items[1..])
  }

  /** `parseQuestionShorthand`; a question without an options segment has no choices. */
  function Parse(raw: string): Parsed {
    var segs := Split(raw, ':');
    if |segs| < 3 then TooFew
    else if |segs| > 4 then TooMany(|segs| - 1)
    else
      var key, kind, title := Trim(segs[0]), Trim(segs[1]), Trim(segs[2]);
      if |segs| == 3 then Parsed(Question(key, kind, title, []))
      else
        var items := Items(Split(Trim(segs[3]), ','));
        if items == [] then NoOptions else Parsed(Question(key, kind, title, Choices(items)))
  }

  /** A shorthand is refused for its segments exactly when it has fewer than two or more than three
      colons after an even run of backslashes, and for its options only when it has three. */
  lemma RefusedExactly(raw: string)
    ensures Parse(raw) == TooFew <==> Unescaped(raw, ':', 0) < 2
    ensures Parse(raw).TooMany? <==> Unescaped(raw, ':', 0) > 3
    ensures Parse(raw).TooMany? ==> Parse(raw).colons == Unescaped(raw, ':', 0)
    ensures Parse(raw) == NoOptions ==> Unescaped(raw, ':', 0) == 3
  {
    hide Split, Unescaped, Items, Choices, Trim;
    SplitCount(raw, ':');
  }

  /** Of the comma separated pieces, the blank ones are left out. */
  lemma {:induction false} ItemsExact(a: seq<string>, b: seq<string>)
    ensures Items(a + b) == Items(a) + Items(b)
    ensures |a| == 1 ==> Items(a) == if Blank(a[0]) then [] else [Trim(a[0])]
  {
    hide Blank, Trim;
    if a == [] {
      assert [] + b == b;
    } else {
      assert (a + b)[1..] == a[1..] + b;
      TrimmedAway(a[0]);
      ItemsExact(a[1..], b);
    }
  }

  lemma {:induction false} TrimmedAway(s: string)
    ensures Trim(s) == [] <==> Blank(s)
  {
    hide Space;
    if Blank(s) {
      BlankIsNothing(s);
    } else {
      StartKeeps(s);
      EndKeeps(TrimStart(s));
    }
  }

  lemma {:induction false} StartKeeps(s: string)
    requires !Blank(s)
    ensures !Blank(TrimStart(s))
  {
    hide Space;
    if Space(s[0]) {
      assert s == [s[0]] + s[1..];
      StartKeeps(s[1..]);
    }
  }

  lemma {:induction false} EndKeeps(s: string)
    requires !Blank(s)
    ensures !Blank(TrimEnd(s))
  {
    hide Space;
    var n := |s| - 1;
    if s != [] && Space(s[n]) {
      assert s == s[..n] + [s[n]];
      EndKeeps(s[..n]);
    }
  }

  /** A choice without a label is labelled with its value; a blank before the star is no part of it. */
  lemma BareChoice(v: string, blank: string)
    requires Trimmed(v) && '=' !in v && Blank(blank)
    ensures v != [] && v[|v| - 1] != '*' ==> ParseChoice(v) == Choice(v, v, false)
    ensures ParseChoice(v + blank + "*") == Choice(v, v, true)
  {
    hide Space, Trim;
    TrimTrimmed(v);
    NoIndex(v);
    var item := v + blank + "*";
    assert item[|item| - 1] == '*' && item[..|item| - 1] == [] + v + blank;
    TrimUnpads([], v, blank);
  }

  lemma NoIndex(s: string)
    requires '=' !in s
    ensures IndexOf(s, '=') == |s|
  {
  }

  /** Blanks around the equals sign and before the star do not reach the value or the label. */
  lemma LabelledChoice(v: string, a: string, b: string, l: string)
    requires Trimmed(v) && '=' !in v && Trimmed(l) && Blank(a) && Blank(b) && v != [] && l != [] && l[|l| - 1] != '*'
    ensures ParseChoice(v + a + "=" + (b + l)) == Choice(v, l, false)
  {
    hide Space, Trim, ParseChoice;
    var body := v + a + "=" + (b + l);
    BodyTrimmed(v, a, b, l);
    BodySplit(v, a, b, l);
    SidesTrimmed(v, a, b, l);
    ChoiceOf(body, v + a, b + l, v, l);
  }

  lemma StarredChoice(v: string, a: string, b: string, l: string, c: string)
    requires Trimmed(v) && '=' !in v && Trimmed(l) && Blank(a) && Blank(b) && Blank(c) && v != [] && l != []
    ensures ParseChoice(v + a + "=" + (b + l) + c + "*") == Choice(v, l, true)
  {
    hide Space, Trim, ParseChoice;
    var body := v + a + "=" + (b + l);
    BodyTrimmed(v, a, b, l);
    BodySplit(v, a, b, l);
    SidesTrimmed(v, a, b, l);
    TrimUnpads([], body, c);
    assert [] + body + c == body + c;
    var item := body + c + "*";
    assert item[..|item| - 1] == body + c;
    StarredChoiceOf(item, body, v + a, b + l, v, l);
  }

  lemma SidesTrimmed(v: string, a: string, b: string, l: string)
    requires Trimmed(v) && Trimmed(l) && Blank(a) && Blank(b)
    ensures Trim(v + a) == v && Trim(b + l) == l
  {
    hide Space, Trim;
    TrimUnpads([], v, a);
    assert [] + v + a == v + a;
    TrimUnpads(b, l, []);
    assert b + l + [] == b + l;
  }

  lemma BodyTrimmed(v: string, a: string, b: string, l: string)
    requires Trimmed(v) && v != [] && Trimmed(l) && l != []
    ensures var body := v + a + "=" + (b + l); Trimmed(body) && body[|body| - 1] == l[|l| - 1]
  {
    hide Space;
    var body := v + a + "=" + (b + l);
    assert body[0] == v[0] && body[|body| - 1] == l[|l| - 1];
  }

  lemma BodySplit(v: string, a: string, b: string, l: string)
    requires '=' !in v && Blank(a)
    ensures var body := v + a + "=" + (b + l);
      IndexOf(body, '=') == |v + a| && body[..|v + a|] == v + a && body[|v + a| + 1..] == b + l
  {
    hide Space;
    var body := v + a + "=" + (b + l);
    assert forall i :: 0 <= i < |v| ==> body[i] == v[i] && v[i] in v;
    assert forall i :: |v| <= i < |v + a| ==> body[i] == a[i - |v|] && a[i - |v|] in a;
    Visible();
    assert body[|v + a|] == '=';
  }

  lemma ChoiceOf(body: string, left: string, right: string, v: string, l: string)
    requires body != [] && IndexOf(body, '=') == |left| < |body| && body[..|left|] == left && body[|left| + 1..] == right
    requires Trim(left) == v && Trim(right) == l && body[|body| - 1] != '*'
    ensures ParseChoice(body) == Choice(v, l, false)
  {
    hide IndexOf, Trim, ParseBody;
    BodyOf(body, left, right, v, l, false);
  }

  lemma BodyOf(body: string, left: string, right: string, v: string, l: string, recommended: bool)
    requires IndexOf(body, '=') == |left| < |body| && body[..|left|] == left && body[|left| + 1..] == right
    requires Trim(left) == v && Trim(right) == l
    ensures ParseBody(body, recommended) == Choice(v, l, recommended)
  {
    hide IndexOf, Trim;
  }

  lemma StarredChoiceOf(item: string, body: string, left: string, right: string, v: string, l: string)
    requires item != [] && item[|item| - 1] == '*' && Trim(item[..|item| - 1]) == body
    requires IndexOf(body, '=') == |left| < |body| && body[..|left|] == left && body[|left| + 1..] == right
    requires Trim(left) == v && Trim(right) == l
    ensures ParseChoice(item) == Choice(v, l, true)
  {
    hide IndexOf, Trim, ParseBody;
    BodyOf(body, left, right, v, l, true);
  }

  // Writing a question.

  function WriteChoice(c: Choice): string {
    c.value + "=" + c.text + if c.recommended then "*" else ""
  }

  function WriteChoices(cs: seq<Choice>): (items: seq<string>)
    ensures |items| == |cs|
  {
    if cs == [] then [] else [WriteChoice(cs[0])] + WriteChoices(cs[1..])
  }

  function Write(q: Question): string {
    if q.options == [] then Join([q.key, q.kind, q.title], ':')
    else Join([q.key, q.kind, q.title, Join(WriteChoices(q.options), ',')], ':')
  }

  /** What the shorthand can say: trimmed texts, no `=` in a value, and no label that ends in `*`
      unless the choice is recommended. */
  predicate Writable(q: Question) {
    && Trimmed(q.key) && Trimmed(q.kind) && Trimmed(q.title)
    && forall i :: 0 <= i < |q.options| ==> WritableChoice(q.options[i])
  }

  predicate WritableChoice(c: Choice) {
    && Trimmed(c.value) && Trimmed(c.text)
    && '=' !in c.value
    && (!c.recommended && c.text != [] ==> c.text[|c.text| - 1] != '*')
  }

  lemma BodyReads(c: Choice)
    requires WritableChoice(c)
    ensures var body := c.value + "=" + c.text;
      && IndexOf(body, '=') == |c.value| && body[..|c.value|] == c.value && body[|c.value| + 1..] == c.text
      && body != [] && Trimmed(body)
      && body[|body| - 1] == if c.text == [] then '=' else c.text[|c.text| - 1]
  {
    hide Space;
    var body := c.value + "=" + c.text;
    assert body[|body| - 1] == if c.text == [] then '=' else c.text[|c.text| - 1];
    assert body[0] == if c.value == [] then '=' else c.value[0];
    assert body[|c.value|] == '=' && forall i :: 0 <= i < |c.value| ==> body[i] == c.value[i];
    assert !Space('=') by { Visible(); }
  }

  lemma Visible()
    ensures !Space('=') && !Space('*') && !Space(',') && !Space(':')
  {
  }

  lemma ChoiceReads(c: Choice)
    requires WritableChoice(c)
    ensures ParseChoice(WriteChoice(c)) == c
    ensures WriteChoice(c) != [] && Trimmed(WriteChoice(c))
  {
    hide Space, IndexOf, Trim;
    var item, body := WriteChoice(c), c.value + "=" + c.text;
    BodyReads(c);
    Visible();
    TrimTrimmed(body);
    TrimTrimmed(c.value);
    TrimTrimmed(c.text);
    if c.recommended {
      assert item == body + "*";
      assert item[..|item| - 1] == body && item[0] == body[0];
    } else {
      assert item == body;
    }
  }

  lemma {:induction false} ChoicesRead(cs: seq<Choice>)
    requires forall i :: 0 <= i < |cs| ==> WritableChoice(cs[i])
    ensures Choices(Items(WriteChoices(cs))) == cs
    ensures cs != [] ==> Items(WriteChoices(cs)) != []
  {
    hide ParseChoice, WriteChoice, WritableChoice, Trim;
    if cs != [] {
      ChoiceReads(cs[0]);
      TrimTrimmed(WriteChoice(cs[0]));
      ChoicesRead(cs[1..]);
      var items := WriteChoices(cs);
      assert items[0] == WriteChoice(cs[0]) && items[1..] == WriteChoices(cs[1..]);
      var rest := Items(items[1..]);
      assert Items(items) == [items[0]] + rest;
      assert ([items[0]] + rest)[1..] == rest;
    }
  }

  // Escaping and joining keep text trimmed.

  lemma {:induction false} EscapeEnds(s: string, sep: char)
    requires s != [] && !Space(sep)
    ensures var e := Escape(s, sep);
      && e != [] && e[|e| - 1] == s[|s| - 1]
      && (!Space(s[0]) ==> !Space(e[0]))
  {
    if |s| > 1 {
      EscapeEnds(s[1..], sep);
    } else {
      assert s[1..] == [];
    }
  }

  lemma {:induction false} JoinTrimmed(items: seq<string>, sep: char)
    requires items != [] && !Space(sep)
    requires forall i :: 0 <= i < |items| ==> items[i] != [] && Trimmed(items[i])
    ensures Join(items, sep) != [] && Trimmed(Join(items, sep))
  {
    hide Space, Escape;
    EscapeEnds(items[0], sep);
    if |items| > 1 {
      JoinTrimmed(items[1..], sep);
      var first, rest := Escape(items[0], sep), Join(items[1..], sep);
      var all := first + [sep] + rest;
      assert all[0] == first[0] && all[|all| - 1] == rest[|rest| - 1];
    }
  }

  /** Every writable question reads back from its shorthand, commas nested in colons. */
  lemma QuestionRoundTrip(q: Question)
    requires Writable(q)
    ensures Parse(Write(q)) == Parsed(q)
  {
    hide Split, Join, Trim, Trimmed, WritableChoice, Choices, Items, WriteChoices;
    TrimTrimmed(q.key);
    TrimTrimmed(q.kind);
    TrimTrimmed(q.title);
    if q.options == [] {
      SplitInvertsJoin([q.key, q.kind, q.title], ':');
    } else {
      var items := WriteChoices(q.options);
      var options := Join(items, ',');
      SplitInvertsJoin([q.key, q.kind, q.title, options], ':');
      ItemsTrimmed(q.options);
      Visible();
      JoinTrimmed(items, ',');
      TrimTrimmed(options);
      SplitInvertsJoin(items, ',');
      ChoicesRead(q.options);
    }
  }

  lemma {:induction false} ItemsTrimmed(cs: seq<Choice>)
    requires forall i :: 0 <= i < |cs| ==> WritableChoice(cs[i])
    ensures forall i :: 0 <= i < |cs| ==> WriteChoices(cs)[i] != [] && Trimmed(WriteChoices(cs)[i])
  {
    hide WriteChoice, WritableChoice, Trimmed;
    if cs != [] {
      ChoiceReads(cs[0]);
      ItemsTrimmed(cs[1..]);
    }
  }

  // Escaping once, for both levels.

  /** Each `:`, `,` and backslash escaped once. */
  function Once(t: string): string {
    if t == [] then []
    else (if t[0] == ':' || t[0] == ',' || t[0] == SLASH then [SLASH, t[0]] else [t[0]]) + Once(t[1..])
  }

  /** What the colon level leaves of it: only the commas are still escaped. */
  function CommasEscaped(t: string): string {
    if t == [] then [] else (if t[0] == ',' then [SLASH, ','] else [t[0]]) + CommasEscaped(t[1..])
  }

  /** No backslash directly before a backslash or a comma. */
  predicate SlashesStandAlone(t: string) {
    forall i :: 0 <= i < |t| - 1 && t[i] == SLASH ==> t[i + 1] != SLASH && t[i + 1] != ','
  }

  lemma {:induction false} OnceThroughColons(t: string, cur: string)
    ensures Pieces(Once(t), ':', cur) == [cur + CommasEscaped(t)]
  {
    if t == [] {
      assert cur + [] == cur;
    } else {
      var rest := Once(t[1..]);
      if t[0] == ':' || t[0] == SLASH {
        assert Once(t) == EscapedChar(t[0], ':') + rest;
        CharIsRead(t[0], rest, ':', cur);
        OnceThroughColons(t[1..], cur + [t[0]]);
        assert cur + [t[0]] + CommasEscaped(t[1..]) == cur + CommasEscaped(t);
      } else if t[0] == ',' {
        PlainComma(rest, cur);
        OnceThroughColons(t[1..], cur + [SLASH, ',']);
        assert cur + [SLASH, ','] + CommasEscaped(t[1..]) == cur + CommasEscaped(t);
      } else {
        assert Once(t)[1..] == rest;
        OnceThroughColons(t[1..], cur + [t[0]]);
        assert cur + [t[0]] + CommasEscaped(t[1..]) == cur + CommasEscaped(t);
      }
    }
  }

  lemma PlainComma(rest: string, cur: string)
    ensures Pieces([SLASH, ','] + rest, ':', cur) == Pieces(rest, ':', cur + [SLASH, ','])
  {
    var raw := [SLASH, ','] + rest;
    assert raw[1..] == [','] + rest && ([','] + rest)[1..] == rest;
    assert cur + [SLASH] + [','] == cur + [SLASH, ','];
  }

  lemma CommaHead(c: char, rest: string)
    ensures CommasEscaped([c] + rest) == (if c == ',' then [SLASH, ','] else [c]) + CommasEscaped(rest)
  {
    assert ([c] + rest)[1..] == rest;
  }

  /** Reading a single piece never makes text longer. */
  lemma {:induction false} PieceBound(t: string, cur: string)
    ensures |Pieces(CommasEscaped(t), ',', cur)| == 1 ==> |Pieces(CommasEscaped(t), ',', cur)[0]| <= |cur| + |t|
  {
    if t != [] {
      var raw := CommasEscaped(t);
      if t[0] == ',' {
        assert raw[2..] == CommasEscaped(t[1..]);
        PieceBound(t[1..], cur + [',']);
      } else if t[0] == SLASH && |t| > 1 && t[1] == SLASH {
        assert raw[2..] == CommasEscaped(t[2..]) by { DoubleSlash(t); }
        PieceBound(t[2..], cur + [SLASH]);
      } else if t[0] == SLASH && |t| > 1 && t[1] == ',' {
        SlashComma(t, cur);
      } else {
        OrdinaryHead(t, cur);
        PieceBound(t[1..], cur + [t[0]]);
      }
    }
  }

  lemma DoubleSlash(t: string)
    requires |t| > 1 && t[0] == SLASH && t[1] == SLASH
    ensures CommasEscaped(t) == [SLASH, SLASH] + CommasEscaped(t[2..])
  {
    assert t[1..][1..] == t[2..];
  }

  /** A backslash and an escaped comma are read as an escaped backslash and a separator. */
  lemma SlashComma(t: string, cur: string)
    requires |t| > 1 && t[0] == SLASH && t[1] == ','
    ensures |Pieces(CommasEscaped(t), ',', cur)| >= 2
  {
    var rest := t[2..];
    assert t == [SLASH] + ([','] + rest);
    CommaHead(SLASH, [','] + rest);
    CommaHead(',', rest);
    var tail := CommasEscaped(rest);
    var raw := CommasEscaped(t);
    assert raw == [SLASH, SLASH, ','] + tail;
    assert raw[2..] == [','] + tail;
  }

  lemma OrdinaryHead(t: string, cur: string)
    requires t != [] && t[0] != ','
    requires t[0] == SLASH && |t| > 1 ==> t[1] != SLASH && t[1] != ','
    ensures Pieces(CommasEscaped(t), ',', cur) == Pieces(CommasEscaped(t[1..]), ',', cur + [t[0]])
  {
    var raw := CommasEscaped(t);
    assert raw[1..] == CommasEscaped(t[1..]);
    assert |t| > 1 && t[1] != ',' ==> raw[1] == t[1];
  }

  lemma {:induction false} OnceThroughCommas(t: string, cur: string)
    ensures Pieces(CommasEscaped(t), ',', cur) == [cur + t] <==> SlashesStandAlone(t)
  {
    if t == [] {
      assert cur + [] == cur;
    } else {
      assert cur + [t[0]] + t[1..] == cur + t;
      var raw := CommasEscaped(t);
      if t[0] == ',' {
        assert raw[2..] == CommasEscaped(t[1..]);
        OnceThroughCommas(t[1..], cur + [',']);
        AloneTail(t);
      } else if t[0] == SLASH && |t| > 1 && t[1] == SLASH {
        DoubleSlash(t);
        assert raw[2..] == CommasEscaped(t[2..]);
        PieceBound(t[2..], cur + [SLASH]);
      } else if t[0] == SLASH && |t| > 1 && t[1] == ',' {
        SlashComma(t, cur);
      } else {
        OrdinaryHead(t, cur);
        OnceThroughCommas(t[1..], cur + [t[0]]);
        AloneTail(t);
      }
    }
  }

  lemma AloneTail(t: string)
    requires t != [] && (t[0] == SLASH && |t| > 1 ==> t[1] != SLASH && t[1] != ',')
    ensures SlashesStandAlone(t) <==> SlashesStandAlone(t[1..])
  {
    var s := t[1..];
    assert t == [t[0]] + s;
    if SlashesStandAlone(s) {
      forall i | 0 <= i < |t| - 1 && t[i] == SLASH ensures t[i + 1] != SLASH && t[i + 1] != ',' {
        if i > 0 {
          assert s[i - 1] == t[i] && s[i] == t[i + 1];
        }
      }
    }
  }

  /** Text inside the options, escaped once as the comment says, is read back through the colon and
      the comma level if and only if none of its backslashes is directly followed by a backslash
      or a comma. */
  lemma OneEscapeExact(t: string)
    ensures Split(Once(t), ':') == [CommasEscaped(t)]
    ensures Split(Split(Once(t), ':')[0], ',') == [t] <==> SlashesStandAlone(t)
  {
    hide Pieces;
    OnceThroughColons(t, []);
    OnceThroughCommas(t, []);
    assert [] + CommasEscaped(t) == CommasEscaped(t) && [] + t == t;
  }

  /** Such a text, and what is read instead. */
  lemma OneEscapeIsNotEnough()
    ensures !SlashesStandAlone([SLASH, ','])
    ensures Split(Split(Once([SLASH, ',']), ':')[0], ',') == [[SLASH], []]
  {
    hide Split, Once, SlashesStandAlone, Pieces;
    var t := [SLASH, ','];
    OneEscapeExact(t);
    SlashThenComma();
  }

  lemma SlashThenComma()
    ensures !SlashesStandAlone([SLASH, ','])
    ensures Split(CommasEscaped([SLASH, ',']), ',') == [[SLASH], []]
  {
    var t := [SLASH, ','];
    assert t[0] == SLASH && t[1] == ',';
    assert t == [SLASH] + [','] && [','] == [','] + [];
    CommaHead(SLASH, [',']);
    CommaHead(',', []);
    var raw := [SLASH, SLASH, ','];
    assert CommasEscaped(t) == raw;
    assert raw == EscapedChar(SLASH, ',') + [','] && [','][1..] == [];
    CharIsRead(SLASH, [','], ',', []);
    assert [] + [SLASH] == [SLASH];
    assert Pieces([','], ',', [SLASH]) == [[SLASH]] + Pieces([], ',', []) by {
      assert [','][0] == ',' && !Escapes([','], ',');
    }
  }
}
