/** How an invocation can be spelled as tokens, and what the parser makes of every spelling. */
module Spelling {
  import opened Wrappers
  import opened Argv
  import opened Rewriting

  /** An option as it is given: `--n=v`, `--n v`, or `--n` alone. */
  datatype Given = WithEquals(name: string, value: string) | Apart(name: string, value: string) | Alone(name: string)

  datatype Item = Word(text: string) | Option(given: Given)

  function TokensOf(g: Given): seq<string> {
    match g
    case WithEquals(name, value) => ["--" + name + "=" + value]
    case Apart(name, value) => ["--" + name, value]
    case Alone(name) => ["--" + name]
  }

  function Tokens(items: seq<Item>): seq<string> {
    if items == [] then []
    else (if items[0].Word? then [items[0].text] else TokensOf(items[0].given)) + Tokens(items[1..])
  }

  function Words(items: seq<Item>): seq<string> {
    if items == [] then []
    else (if items[0].Word? then [items[0].text] else []) + Words(items[1..])
  }

  /** The values given for one name, in order. */
  function Values(items: seq<Item>, name: string): seq<OptionValue> {
    if items == [] then []
    else
      (if items[0].Option? && items[0].given.name == name
       then [if items[0].given.Alone? then Bare else Value(items[0].given.value)] else [])
      + Values(items[1..], name)
  }

  predicate PlainName(name: string) {
    name != "" && '=' !in name && name != "json"
  }

  /** A name that stands alone after these words: one of the listed flags, a property to clear, or a
      name that is a flag of this very command. `version` takes a value once a command has begun. */
  predicate Flags(name: string, words: seq<string>) {
    || (IsBoolean(name) && name != "version")
    || "pn-" <= name
    || (name == "last" && OnPath(words, "workspace", "reorder"))
    || (name == "source" && OnPath(words, "tool", "show"))
    || (name == "output" && OnPath(words, "tool", "run-show"))
  }

  predicate OnPath(words: seq<string>, noun: string, verb: string) {
    CommandPath(words) == noun + " " + verb
  }

  predicate Fits(g: Given, words: seq<string>) {
    && PlainName(g.name)
    && (g.name == "version" ==> words != [])
    && (g.Apart? ==> !Flags(g.name, words) && !("--" <= g.value))
    && (g.Alone? ==> Flags(g.name, words))
  }

  /** Words that do not begin with a dash, and options that fit where they stand, outside `tool run`. */
  predicate Spelled(items: seq<Item>, words: seq<string>)
    decreases items
  {
    && !(|words| >= 2 && words[0] == "tool" && words[1] == "run")
    && (items != [] ==>
          && (items[0].Word? ==> !("-" <= items[0].text) && Spelled(items[1..], words + [items[0].text]))
          && (items[0].Option? ==> Fits(items[0].given, words) && Spelled(items[1..], words)))
  }

  /** What follows the options: nothing, or `--` and a tail. */
  function EndTokens(tail: Option<seq<string>>): seq<string> {
    if tail.None? then [] else ["--"] + tail.value
  }

  ghost predicate Begun(st: State) {
    st.positionals != [] ==> st.sawCommandToken
  }

  /** The state after an option was recorded. */
  function Recorded(st: State, g: Given): State {
    st.(bag := Record(st.bag, g.name, if g.Alone? then Bare else Value(g.value)))
  }

  /** The state after a word. */
  function WithWord(st: State, w: string): State {
    st.(positionals := st.positionals + [w], sawCommandToken := true)
  }

  lemma NameOfAlone(name: string)
    requires PlainName(name)
    ensures ("--" + name)[2..] == name && EqualsAt(name) == |name| && name[..|name|] == name
    ensures StartsWith("--" + name, "--") && "--" + name != "--" && StartsWith("--" + name, "-") && "--" + name != "-"
  {
    EqualsAfter(name, "");
    assert name + "" == name;
    assert |"--" + name| == 2 + |name|;
  }

  lemma NameOfEquals(name: string, value: string)
    requires PlainName(name)
    ensures var tok := "--" + name + "=" + value; var body := tok[2..];
      && StartsWith(tok, "--") && tok != "--" && StartsWith(tok, "-") && tok != "-"
      && EqualsAt(body) == |name| < |body| && body[..|name|] == name && body[|name| + 1..] == value
  {
    var tok := "--" + name + "=" + value;
    var body := tok[2..];
    assert body == name + ("=" + value);
    EqualsAfter(name, "=" + value);
    assert EqualsAt("=" + value) == 0;
  }

  lemma EqualsTaken(name: string, value: string, next: seq<string>, st: State)
    requires Fits(WithEquals(name, value), st.positionals) && Begun(st)
    ensures TakeOption("--" + name + "=" + value, next, st) == Took(Recorded(st, WithEquals(name, value)), 1)
  {
    hide IsBoolean, EqualsAt, CommandPath, Record, BareOnPath;
    NameOfEquals(name, value);
  }

  lemma ApartTaken(name: string, value: string, rest: seq<string>, st: State)
    requires Fits(Apart(name, value), st.positionals) && Begun(st)
    ensures TakeOption("--" + name, [value] + rest, st) == Took(Recorded(st, Apart(name, value)), 2)
  {
    hide IsBoolean, EqualsAt, CommandPath, Record;
    NameOfAlone(name);
  }

  lemma AloneTaken(name: string, next: seq<string>, st: State)
    requires Fits(Alone(name), st.positionals) && Begun(st)
    ensures TakeOption("--" + name, next, st) == Took(Recorded(st, Alone(name)), 1)
  {
    hide IsBoolean, EqualsAt, CommandPath, Record;
    NameOfAlone(name);
    assert name == "version" ==> !Flags(name, st.positionals) by { VersionIsNoFlag(st.positionals); }
  }

  lemma VersionIsNoFlag(words: seq<string>)
    ensures !Flags("version", words)
  {
    assert "version"[0] == 'v';
  }

  /** What one fitting option does, whatever comes after it. */
  lemma OptionTaken(g: Given, rest: seq<string>, st: State)
    requires Fits(g, st.positionals) && Begun(st)
    ensures StartsWith(TokensOf(g)[0], "--") && StartsWith(TokensOf(g)[0], "-") && TokensOf(g)[0] != "--" && TokensOf(g)[0] != "-"
    ensures TakeOption(TokensOf(g)[0], TokensOf(g)[1..] + rest, st) == Took(Recorded(st, g), |TokensOf(g)|)
  {
    hide EqualsAt, Recorded, TakeOption, Flags;
    match g
    case WithEquals(name, value) =>
      NameOfEquals(name, value);
      EqualsTaken(name, value, TokensOf(g)[1..] + rest, st);
    case Apart(name, value) =>
      NameOfAlone(name);
      assert TokensOf(g)[1..] == [value];
      ApartTaken(name, value, rest, st);
    case Alone(name) =>
      NameOfAlone(name);
      AloneTaken(name, TokensOf(g)[1..] + rest, st);
  }

  lemma OptionScanned(g: Given, rest: seq<string>, st: State)
    requires Fits(g, st.positionals) && Begun(st)
    ensures Scan(TokensOf(g) + rest, st) == Scan(rest, Recorded(st, g))
  {
    hide IsBoolean, EqualsAt, CommandPath, TakeOption, Recorded, Fits;
    OptionTaken(g, rest, st);
    var argv := TokensOf(g) + rest;
    assert argv[0] == TokensOf(g)[0] && argv[1..] == TokensOf(g)[1..] + rest && argv[|TokensOf(g)|..] == rest;
  }

  lemma WordScanned(w: string, rest: seq<string>, st: State)
    requires !("-" <= w)
    requires !(|st.positionals| >= 2 && st.positionals[0] == "tool" && st.positionals[1] == "run")
    ensures Scan([w] + rest, st) == Scan(rest, WithWord(st, w))
  {
    assert ([w] + rest)[1..] == rest;
    assert w != "--" && w != "-";
  }

  function After(items: seq<Item>, st: State): State
    decreases items
  {
    if items == [] then st
    else if items[0].Word?
    then After(items[1..], WithWord(st, items[0].text))
    else After(items[1..], Recorded(st, items[0].given))
  }

  lemma EndScanned(tail: Option<seq<string>>, st: State)
    requires !(|st.positionals| >= 2 && st.positionals[0] == "tool" && st.positionals[1] == "run")
    ensures Scan(EndTokens(tail), st) == Parsed(st, if tail.None? then [] else tail.value, false)
  {
    if tail.Some? {
      assert EndTokens(tail)[1..] == tail.value;
    }
  }

  lemma {:induction false} EndsOutside(items: seq<Item>, st: State)
    requires Spelled(items, st.positionals)
    ensures var words := After(items, st).positionals; !(|words| >= 2 && words[0] == "tool" && words[1] == "run")
    decreases items
  {
    hide Fits, Record;
    if items != [] {
      EndsOutside(items[1..], if items[0].Word? then WithWord(st, items[0].text) else Recorded(st, items[0].given));
    }
  }

  lemma ItemsScanned(items: seq<Item>, tail: Option<seq<string>>, st: State)
    requires Spelled(items, st.positionals) && Begun(st)
    ensures Scan(Tokens(items) + EndTokens(tail), st) == Parsed(After(items, st), if tail.None? then [] else tail.value, false)
  {
    hide Scan, Spelled, After, Tokens, EndTokens;
    ItemsThen(items, EndTokens(tail), st);
    EndsOutside(items, st);
    EndScanned(tail, After(items, st));
  }

  lemma RecordedKeeps(st: State, g: Given)
    ensures Recorded(st, g).positionals == st.positionals && Begun(st) ==> Begun(Recorded(st, g))
    ensures Recorded(st, g).positionals == st.positionals && Recorded(st, g).globalFlags == st.globalFlags
  {
  }

  lemma {:induction false} AfterWords(items: seq<Item>, st: State)
    ensures After(items, st).positionals == st.positionals + Words(items)
    ensures After(items, st).globalFlags == st.globalFlags
    decreases items
  {
    hide Record;
    if items == [] {
      assert st.positionals + [] == st.positionals;
    } else {
      var rest := Words(items[1..]);
      if items[0].Word? {
        AfterWords(items[1..], WithWord(st, items[0].text));
        assert st.positionals + [items[0].text] + rest == st.positionals + ([items[0].text] + rest);
      } else {
        AfterWords(items[1..], Recorded(st, items[0].given));
        assert [] + rest == rest;
      }
    }
  }

  function InBag(bag: Bag, name: string): seq<OptionValue> {
    if name in bag then bag[name] else []
  }

  lemma RecordedValue(bag: Bag, given: string, v: OptionValue, name: string)
    ensures InBag(Record(bag, given, v), name) == InBag(bag, name) + (if name == given then [v] else [])
  {
  }

  lemma {:induction false} AfterValues(items: seq<Item>, st: State, name: string)
    ensures InBag(After(items, st).bag, name) == InBag(st.bag, name) + Values(items, name)
    decreases items
  {
    hide Record, InBag;
    if items == [] {
      assert InBag(st.bag, name) + [] == InBag(st.bag, name);
    } else {
      var rest := Values(items[1..], name);
      var next := if items[0].Word? then WithWord(st, items[0].text) else Recorded(st, items[0].given);
      AfterValues(items[1..], next, name);
      StepValues(items[0], st, name);
      Regrouped(InBag(st.bag, name), Values([items[0]], name), rest);
      ValuesHead(items, name);
    }
  }

  lemma StepValues(item: Item, st: State, name: string)
    ensures var next := if item.Word? then WithWord(st, item.text) else Recorded(st, item.given);
      InBag(next.bag, name) == InBag(st.bag, name) + Values([item], name)
  {
    hide Record;
    assert [item][1..] == [];
    if item.Option? {
      var g := item.given;
      RecordedValue(st.bag, g.name, if g.Alone? then Bare else Value(g.value), name);
    }
  }

  lemma ValuesHead(items: seq<Item>, name: string)
    requires items != []
    ensures Values(items, name) == Values([items[0]], name) + Values(items[1..], name)
  {
    assert [items[0]][1..] == [];
  }

  lemma Regrouped<T>(a: seq<T>, b: seq<T>, c: seq<T>)
    ensures a + b + c == a + (b + c)
  {
  }

  /** The words, the values of every name in order, and the tail. */
  ghost predicate Reads(r: Scanned, items: seq<Item>, globals: set<string>, tail: Option<seq<string>>) {
    && r.Parsed? && !r.owned && r.passthrough == (if tail.None? then [] else tail.value)
    && r.st.positionals == Words(items) && r.st.globalFlags == globals
    && forall name :: (name in r.st.bag <==> Values(items, name) != [])
                      && (name in r.st.bag ==> r.st.bag[name] == Values(items, name))
  }

  /** Every spelling is read as what it spells: its words, each option's values in order, its tail. */
  lemma SpelledIsRead(items: seq<Item>, tail: Option<seq<string>>)
    requires Spelled(items, [])
    ensures Reads(Scan(Tokens(items) + EndTokens(tail), START), items, {}, tail)
  {
    hide Scan, Spelled, After;
    ReadFrom(items, tail, START);
  }

  lemma ReadFrom(items: seq<Item>, tail: Option<seq<string>>, st: State)
    requires Spelled(items, []) && st.positionals == [] && st.bag == map[]
    ensures Reads(Scan(Tokens(items) + EndTokens(tail), st), items, st.globalFlags, tail)
  {
    hide Scan, Spelled, After;
    ItemsScanned(items, tail, st);
    AfterWords(items, st);
    assert [] + Words(items) == Words(items);
    forall name
      ensures var bag := After(items, st).bag;
        (name in bag <==> Values(items, name) != []) && (name in bag ==> bag[name] == Values(items, name))
    {
      AfterValues(items, st, name);
      assert [] + Values(items, name) == Values(items, name);
      AfterNonEmpty(items, st, name);
    }
  }

  lemma {:induction false} AfterNonEmpty(items: seq<Item>, st: State, name: string)
    requires name in st.bag ==> st.bag[name] != []
    ensures name in After(items, st).bag ==> After(items, st).bag[name] != []
    decreases items
  {
    if items != [] {
      if items[0].Word? {
        AfterNonEmpty(items[1..], WithWord(st, items[0].text), name);
      } else {
        AfterNonEmpty(items[1..], Recorded(st, items[0].given), name);
      }
    }
  }

  lemma VersionTaken(rest: seq<string>)
    ensures Scan(["--version"] + rest, START) == Scan(rest, START.(globalFlags := {"version"}))
  {
    hide IsBoolean, CommandPath, EqualsAt, Scan;
    assert |"version"| == 7 && |"json"| == 4;
    assert PlainName("version");
    NameOfAlone("version");
    assert "--" + "version" == "--version";
    var st := START.(globalFlags := {"version"});
    assert START.globalFlags + {"version"} == {"version"};
    assert TakeOption("--version", rest, START) == Took(st, 1);
    FlagTaken("--version", rest, START, st);
  }

  lemma FlagTaken(tok: string, rest: seq<string>, st: State, st': State)
    requires StartsWith(tok, "--") && tok != "--" && TakeOption(tok, rest, st) == Took(st', 1)
    ensures Scan([tok] + rest, st) == Scan(rest, st')
  {
    hide TakeOption;
    assert ([tok] + rest)[1..] == rest;
    assert tok[0] == '-';
  }

  /** `--version` before the first word is the global flag, and nothing else. */
  lemma VersionFirst(items: seq<Item>, tail: Option<seq<string>>)
    requires Spelled(items, [])
    ensures Reads(Scan(["--version"] + (Tokens(items) + EndTokens(tail)), START), items, {"version"}, tail)
  {
    hide Spelled, Scan, Tokens, EndTokens;
    VersionTaken(Tokens(items) + EndTokens(tail));
    ReadFrom(items, tail, START.(globalFlags := {"version"}));
  }

  // The whole parse.

  predicate GlobalScalar(name: string) {
    name == "server" || name == "space" || name == "as" || name == "format" || name == "timeout"
  }

  predicate GlobalName(name: string) {
    || GlobalScalar(name)
    || name == "no-color" || name == "quiet" || name == "fresh" || name == "terse" || name == "full" || name == "help"
  }

  /** Given once with a value, or not at all. */
  predicate OnceOrNever(items: seq<Item>, name: string) {
    Values(items, name) == [] || (|Values(items, name)| == 1 && Values(items, name)[0].Value?)
  }

  ghost predicate GlobalsFit(items: seq<Item>, validFormat: string -> bool, validTimeout: string -> bool) {
    && (forall name :: GlobalScalar(name) ==> OnceOrNever(items, name))
    && (Values(items, "format") != [] && OnceOrNever(items, "format") ==> validFormat(Values(items, "format")[0].text))
    && (Values(items, "timeout") != [] && OnceOrNever(items, "timeout") ==> validTimeout(Values(items, "timeout")[0].text))
  }

  /** The named values are in the bag, and nothing else is. */
  ghost predicate Holds(bag: Bag, items: seq<Item>, name: string, there: bool) {
    && (name in bag <==> there && Values(items, name) != [])
    && (name in bag ==> bag[name] == Values(items, name))
  }

  /** A spelled invocation is accepted exactly when its globals fit; then its words, its tail, its
      globals and its other options are what was spelled. */
  lemma SpelledIsParsed(
      items: seq<Item>, tail: Option<seq<string>>, validFormat: string -> bool, validTimeout: string -> bool)
    requires Spelled(items, [])
    ensures var x := ParseInvocation(Tokens(items) + EndTokens(tail), validFormat, validTimeout);
      && (x.Accepted? <==> GlobalsFit(items, validFormat, validTimeout))
      && (x.Accepted? ==>
            && x.positionals == Words(items) && x.passthrough == (if tail.None? then [] else tail.value) && !x.version
            && forall name :: Holds(x.globals, items, name, GlobalName(name)) && Holds(x.options, items, name, !GlobalName(name)))
  {
    hide Scan, Spelled, Tokens, EndTokens, Values;
    SpelledIsRead(items, tail);
    FinishedIsParsed(Scan(Tokens(items) + EndTokens(tail), START), items, tail, validFormat, validTimeout);
  }

  lemma SameGlobals(name: string)
    ensures GlobalScalar(name) <==> name in GLOBAL_SCALARS
    ensures GlobalName(name) <==> IsGlobal(name)
  {
  }

  lemma FinishedIsParsed(
      r: Scanned, items: seq<Item>, tail: Option<seq<string>>, validFormat: string -> bool, validTimeout: string -> bool)
    requires Reads(r, items, {}, tail)
    ensures var x := Finish(r, validFormat, validTimeout);
      && (x.Accepted? <==> GlobalsFit(items, validFormat, validTimeout))
      && (x.Accepted? ==>
            && x.positionals == Words(items) && x.passthrough == (if tail.None? then [] else tail.value) && !x.version
            && forall name :: Holds(x.globals, items, name, GlobalName(name)) && Holds(x.options, items, name, !GlobalName(name)))
  {
    hide Values, IsGlobal, GlobalName, GlobalScalar, Words;
    var bag := r.st.bag;
    forall name
      ensures GlobalScalar(name) <==> name in GLOBAL_SCALARS
      ensures GlobalName(name) <==> IsGlobal(name)
      ensures GivenOnce(bag, name) <==> OnceOrNever(items, name)
    {
      SameGlobals(name);
    }
    assert GlobalScalar("format") && GlobalScalar("timeout") by { TextGlobals(); }
  }

  lemma TextGlobals()
    ensures GlobalScalar("format") && GlobalScalar("timeout")
  {
  }

  // What is refused.

  /** After any spelling: a short option, an option without a name, a retired one, and one whose
      value is missing. */
  lemma RefusedAfter(items: seq<Item>, tok: string, rest: seq<string>)
    requires Spelled(items, [])
    requires "-" <= tok && tok != "-" && tok != "--"
    ensures var r := Scan(Tokens(items) + ([tok] + rest), START);
      && (!("--" <= tok) ==> r == Refused(ShortOption(tok)))
      && ("--=" <= tok ==> r == Refused(MalformedOption(tok)))
      && (tok == "--json" ==> r == Refused(RetiredOption("json")))
  {
    hide Spelled, After, Scan;
    ItemsThen(items, [tok] + rest, START);
    TokenRefused(tok, rest, After(items, START));
  }

  lemma TokenRefused(tok: string, rest: seq<string>, st: State)
    requires "-" <= tok && tok != "-" && tok != "--"
    ensures var r := Scan([tok] + rest, st);
      && (!("--" <= tok) ==> r == Refused(ShortOption(tok)))
      && ("--=" <= tok ==> r == Refused(MalformedOption(tok)))
      && (tok == "--json" ==> r == Refused(RetiredOption("json")))
  {
    hide IsBoolean, CommandPath;
    assert ([tok] + rest)[1..] == rest;
    if "--=" <= tok {
      assert tok[2] == '=';
      assert EqualsAt(tok[2..]) == 0;
    }
    if tok == "--json" {
      JsonName();
    }
  }

  lemma JsonName()
    ensures "--json"[2..] == "json" && EqualsAt("json") == 4 && "json"[..4] == "json"
  {
    EqualsAfter("json", "");
    assert "json" + "" == "json";
  }

  lemma {:induction false} ItemsThen(items: seq<Item>, rest: seq<string>, st: State)
    requires Spelled(items, st.positionals) && Begun(st)
    ensures Scan(Tokens(items) + rest, st) == Scan(rest, After(items, st))
    decreases items
  {
    hide Scan, Fits, Recorded, TokensOf;
    if items == [] {
      assert Tokens(items) + rest == rest;
    } else {
      var more := Tokens(items[1..]) + rest;
      if items[0].Word? {
        var w := items[0].text;
        assert Tokens(items) + rest == [w] + more;
        WordScanned(w, more, st);
        ItemsThen(items[1..], rest, WithWord(st, w));
      } else {
        var g := items[0].given;
        assert Tokens(items) + rest == TokensOf(g) + more;
        OptionScanned(g, more, st);
        RecordedKeeps(st, g);
        ItemsThen(items[1..], rest, Recorded(st, g));
      }
    }
  }

  /** An option that takes a value is refused at the end and before another option. */
  lemma ValueMissing(items: seq<Item>, name: string, rest: seq<string>)
    requires Spelled(items, []) && PlainName(name) && !Flags(name, Words(items)) && (name == "version" ==> Words(items) != [])
    requires rest == [] || "--" <= rest[0]
    ensures Scan(Tokens(items) + (["--" + name] + rest), START) == Refused(ValueRequired(name))
  {
    hide Spelled, After, Scan, Flags;
    ItemsThen(items, ["--" + name] + rest, START);
    AfterWords(items, START);
    assert [] + Words(items) == Words(items);
    AfterBegun(items, START);
    NotTaken(name, rest, After(items, START));
  }

  lemma {:induction false} AfterBegun(items: seq<Item>, st: State)
    requires Begun(st)
    ensures Begun(After(items, st))
    decreases items
  {
    if items != [] {
      if items[0].Word? {
        AfterBegun(items[1..], WithWord(st, items[0].text));
      } else {
        AfterBegun(items[1..], Recorded(st, items[0].given));
      }
    }
  }

  lemma NotTaken(name: string, rest: seq<string>, st: State)
    requires PlainName(name) && !Flags(name, st.positionals) && Begun(st) && (name == "version" ==> st.positionals != [])
    requires rest == [] || "--" <= rest[0]
    ensures Scan(["--" + name] + rest, st) == Refused(ValueRequired(name))
  {
    hide TakeOption, Flags;
    NameOfAlone(name);
    ValueRefused(name, rest, st);
    assert (["--" + name] + rest)[1..] == rest;
  }

  lemma ValueRefused(name: string, rest: seq<string>, st: State)
    requires PlainName(name) && !Flags(name, st.positionals) && Begun(st) && (name == "version" ==> st.positionals != [])
    requires rest == [] || "--" <= rest[0]
    ensures StartsWith("--" + name, "--") && TakeOption("--" + name, rest, st) == No(ValueRequired(name))
  {
    hide IsBoolean, CommandPath, EqualsAt;
    NameOfAlone(name);
  }

  // Tools.

  /** After `tool run` and its options, a tool's name takes every later token for its own. */
  lemma ToolOwnsTail(gs: seq<Item>, tool: string, rest: seq<string>)
    requires FitAll(gs, ["tool", "run"]) && !("-" <= tool)
    ensures var r := Scan(["tool", "run"] + (Tokens(gs) + ([tool] + rest)), START);
      && r.Parsed? && r.owned && r.passthrough == rest && r.st.positionals == ["tool", "run", tool] && r.st.globalFlags == {}
      && forall name :: InBag(r.st.bag, name) == Values(gs, name)
  {
    hide Scan, After, Tokens, FitAll;
    var end := [tool] + rest;
    var st := START.(positionals := ["tool", "run"], sawCommandToken := true);
    var more := Tokens(gs) + end;
    assert ["tool", "run"] + more == ["tool"] + (["run"] + more);
    assert [] + ["tool"] == ["tool"] && ["tool"] + ["run"] == ["tool", "run"];
    assert "tool"[0] == 't' && "run"[0] == 'r';
    WordScanned("tool", ["run"] + more, START);
    WordScanned("run", more, START.(positionals := ["tool"], sawCommandToken := true));
    OptionsThen(gs, end, st);
    AfterWords(gs, st);
    NoWords(gs, ["tool", "run"]);
    assert ["tool", "run"] + [] == ["tool", "run"];
    var st' := After(gs, st);
    ToolTaken(tool, rest, st');
    forall name ensures InBag(st'.bag, name) == Values(gs, name) {
      AfterValues(gs, st, name);
      assert [] + Values(gs, name) == Values(gs, name);
    }
  }

  /** Options only, fitting after these words. */
  predicate FitAll(gs: seq<Item>, words: seq<string>) {
    forall i :: 0 <= i < |gs| ==> gs[i].Option? && Fits(gs[i].given, words)
  }

  lemma {:induction false} NoWords(gs: seq<Item>, words: seq<string>)
    requires FitAll(gs, words)
    ensures Words(gs) == []
  {
    hide Fits;
    if gs != [] {
      NoWords(gs[1..], words);
    }
  }

  lemma {:induction false} OptionsThen(gs: seq<Item>, rest: seq<string>, st: State)
    requires FitAll(gs, st.positionals) && Begun(st)
    ensures Scan(Tokens(gs) + rest, st) == Scan(rest, After(gs, st))
    decreases gs
  {
    hide Scan, Fits, Recorded, TokensOf;
    if gs == [] {
      assert Tokens(gs) + rest == rest;
    } else {
      var more := Tokens(gs[1..]) + rest;
      var g := gs[0].given;
      assert Tokens(gs) + rest == TokensOf(g) + more;
      OptionScanned(g, more, st);
      RecordedKeeps(st, g);
      OptionsThen(gs[1..], rest, Recorded(st, g));
    }
  }

  lemma ToolTaken(tool: string, rest: seq<string>, st: State)
    requires st.positionals == ["tool", "run"] && !("-" <= tool)
    ensures Scan([tool] + rest, st)
         == Parsed(st.(positionals := ["tool", "run", tool], sawCommandToken := true), rest, true)
  {
    assert ([tool] + rest)[1..] == rest;
    assert st.positionals + [tool] == ["tool", "run", tool];
  }

  /** `tool run -- NAME` takes the name from behind the dashes, and the tail is the tool's. */
  lemma ToolAfterDash(tool: string, rest: seq<string>)
    ensures var r := Scan(["tool", "run", "--", tool] + rest, START);
      r == Parsed(State(["tool", "run", tool], map[], {}, true), rest, false)
  {
    hide Scan;
    var more := ["--", tool] + rest;
    var st := START.(positionals := ["tool"], sawCommandToken := true);
    assert ["tool", "run", "--", tool] + rest == ["tool"] + (["run"] + more);
    assert [] + ["tool"] == ["tool"] && ["tool"] + ["run"] == ["tool", "run"];
    assert "tool"[0] == 't' && "run"[0] == 'r';
    WordScanned("tool", ["run"] + more, START);
    WordScanned("run", more, st);
    DashTaken(tool, rest, st.(positionals := ["tool", "run"]));
  }

  lemma DashTaken(tool: string, rest: seq<string>, st: State)
    requires st.positionals == ["tool", "run"]
    ensures Scan(["--", tool] + rest, st) == Parsed(st.(positionals := ["tool", "run", tool]), rest, false)
  {
    var more := ["--", tool] + rest;
    assert more[0] == "--" && more[1..] == [tool] + rest;
    assert ([tool] + rest)[0] == tool && ([tool] + rest)[1..] == rest;
    assert ["tool", "run"] + [tool] == ["tool", "run", tool];
  }
}
