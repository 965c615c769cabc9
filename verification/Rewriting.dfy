/** The `next` command of an error receipt: argv with one option replaced, without parsing it,
    printed as a line for a POSIX shell. */
module Rewriting {
  import opened Argv

  function Flag(name: string): string {
    "--" + name
  }

  /** `withoutOption` */
  function WithoutOption(argv: seq<string>, name: string): seq<string> {
    if argv == [] then []
    else if argv[0] == "--" then argv
    else if argv[0] == Flag(name) then (if |argv| >= 2 then WithoutOption(argv[2..], name) else [])
    else if StartsWith(argv[0], Flag(name) + "=") then WithoutOption(argv[1..], name)
    else [argv[0]] + WithoutOption(argv[1..], name)
  }

  /** `argv.indexOf('--')`, or the length when there is none. */
  function DashAt(argv: seq<string>): (i: nat)
    ensures i <= |argv|
  {
    if argv == [] || argv[0] == "--" then 0 else 1 + DashAt(argv[1..])
  }

  /** `withOptions` */
  function WithOptions(argv: seq<string>, extra: seq<string>): seq<string> {
    argv[..DashAt(argv)] + extra + argv[DashAt(argv)..]
  }

  function Rewritten(argv: seq<string>, name: string, v: string): seq<string> {
    WithOptions(WithoutOption(argv, name), [Flag(name), v])
  }

  /** `withoutOption(argv.slice(i))`; past the end there is nothing. */
  function WithoutFrom(argv: seq<string>, name: string, i: nat): seq<string> {
    if i < |argv| then WithoutOption(argv[i..], name) else []
  }

  lemma WithoutStep(argv: seq<string>, name: string, i: nat)
    requires i < |argv|
    ensures WithoutFrom(argv, name, i) ==
      if argv[i] == "--" then argv[i..]
      else if argv[i] == Flag(name) then WithoutFrom(argv, name, i + 2)
      else if StartsWith(argv[i], Flag(name) + "=") then WithoutFrom(argv, name, i + 1)
      else [argv[i]] + WithoutFrom(argv, name, i + 1)
  {
    hide Flag, StartsWith;
    var tail := argv[i..];
    assert tail[0] == argv[i] && tail[1..] == argv[i + 1..];
    assert i + 2 <= |argv| ==> tail[2..] == argv[i + 2..];
    assert i + 1 == |argv| ==> argv[i + 1..] == [];
    assert i + 2 == |argv| ==> argv[i + 2..] == [];
    assert WithoutOption([], name) == [];
  }

  /** The source's loop. */
  method RemoveOption(argv: seq<string>, name: string) returns (out: seq<string>)
    ensures out == WithoutOption(argv, name)
  {
    hide Flag, StartsWith, WithoutFrom;
    out := [];
    var i := 0;
    assert WithoutFrom(argv, name, 0) == WithoutOption(argv, name) by { WithoutAll(argv, name); }
    while i < |argv|
      invariant i >= 0
      invariant WithoutOption(argv, name) == out + WithoutFrom(argv, name, i)
    {
      var tok := argv[i];
      WithoutStep(argv, name, i);
      if tok == "--" {
        out := out + argv[i..];
        return;
      }
      if tok == Flag(name) {
        i := i + 2;
      } else if StartsWith(tok, Flag(name) + "=") {
        i := i + 1;
      } else {
        out := out + [tok];
        i := i + 1;
      }
    }
    assert WithoutFrom(argv, name, i) == [] by { WithoutNone(argv, name, i); }
  }

  lemma WithoutAll(argv: seq<string>, name: string)
    ensures WithoutFrom(argv, name, 0) == WithoutOption(argv, name)
  {
    assert argv[0..] == argv;
  }

  lemma WithoutNone(argv: seq<string>, name: string, i: nat)
    requires i >= |argv|
    ensures WithoutFrom(argv, name, i) == []
  {
  }

  /** The names that take a value wherever they stand. */
  predicate TakesValue(name: string) {
    && name != "" && '=' !in name && !StartsWith(name, "pn-")
    && !IsBoolean(name) && !IsCommandScopedGlobal(name) && !IsPathScoped(name) && !IsRetired(name)
  }

  function Dropped(st: State, name: string): State {
    st.(bag := st.bag - {name})
  }

  lemma {:induction false} EqualsAfter(a: string, b: string)
    requires '=' !in a
    ensures EqualsAt(a + b) == |a| + EqualsAt(b)
  {
    if a == [] {
      assert a + b == b;
    } else {
      EqualsAfter(a[1..], b);
      assert (a + b)[1..] == a[1..] + b;
    }
  }

  /** `--name value` and `--name=value` record the value, at any point of any scan. */
  lemma TakeNamed(name: string, next: seq<string>, st: State)
    requires TakesValue(name)
    ensures TakeOption(Flag(name), next, st) ==
      if next == [] || StartsWith(next[0], "--") then No(ValueRequired(name))
      else Took(st.(bag := Record(st.bag, name, Value(next[0]))), 2)
  {
    hide IsBoolean, CommandPath, Record;
    EqualsAfter(name, "");
    assert name + "" == name;
    assert Flag(name)[2..] == name && name[..|name|] == name;
  }

  lemma TakeNamedEquals(name: string, tok: string, next: seq<string>, st: State)
    requires TakesValue(name) && StartsWith(tok, Flag(name) + "=")
    ensures TakeOption(tok, next, st) == Took(st.(bag := Record(st.bag, name, Value(tok[|name| + 3..]))), 1)
  {
    hide IsBoolean, CommandPath, Record, BareOnPath;
    var body, v := tok[2..], tok[|name| + 3..];
    assert body == name + ("=" + v);
    EqualsAfter(name, "=" + v);
    assert EqualsAt("=" + v) == 0;
    assert body[..|name|] == name && body[|name| + 1..] == v;
  }

  /** An option token is its name, or its name and `=`. */
  lemma NameOfToken(tok: string)
    requires StartsWith(tok, "--")
    ensures var body := tok[2..]; var eq := EqualsAt(body);
      && (eq == |body| ==> tok == Flag(body[..eq]))
      && (eq < |body| ==> StartsWith(tok, Flag(body[..eq]) + "="))
  {
    hide EqualsAt;
    var body := tok[2..];
    var eq := EqualsAt(body);
    assert tok == "--" + body;
    assert body == body[..eq] + body[eq..];
    if eq < |body| {
      assert body[eq..] == "=" + body[eq + 1..];
      assert tok == Flag(body[..eq]) + "=" + body[eq + 1..];
    }
  }

  lemma RecordOther(bag: Bag, name: string, other: string, v: OptionValue)
    requires other != name
    ensures Record(bag - {name}, other, v) == Record(bag, other, v) - {name}
  {
  }

  /** Any other option leaves this name's values alone, and does not look at them. */
  lemma TakeOther(name: string, tok: string, next: seq<string>, st: State)
    requires TakesValue(name) && StartsWith(tok, "--") && tok != Flag(name) && !StartsWith(tok, Flag(name) + "=")
    ensures TakeOption(tok, next, Dropped(st, name)) ==
      match TakeOption(tok, next, st) { case No(why) => No(why) case Took(st', used) => Took(Dropped(st', name), used) }
  {
    hide IsBoolean, CommandPath, BareOnPath, Record, Flag, EqualsAt;
    NameOfToken(tok);
    var body := tok[2..];
    var eq := EqualsAt(body);
    forall v | body[..eq] != name
      ensures Record(st.bag - {name}, body[..eq], v) == Record(st.bag, body[..eq], v) - {name}
    {
      RecordOther(st.bag, name, body[..eq], v);
    }
  }

  // Removal.

  lemma WithoutKept(tok: string, rest: seq<string>, name: string)
    requires tok != "--" && tok != Flag(name) && !StartsWith(tok, Flag(name) + "=")
    ensures WithoutOption([tok] + rest, name) == [tok] + WithoutOption(rest, name)
  {
  }

  lemma PrefixTransitive(a: string, b: string, c: string)
    ensures StartsWith(b, a) && StartsWith(c, b) ==> StartsWith(c, a)
  {
    if StartsWith(b, a) && StartsWith(c, b) {
      assert c[..|a|] == b[..|a|] == a;
    }
  }

  /** A token that does not begin with `--` is never removed. */
  lemma PlainTokenKept(tok: string, name: string)
    requires !StartsWith(tok, "--")
    ensures tok != "--" && tok != Flag(name) && !StartsWith(tok, Flag(name) + "=")
  {
    assert StartsWith(Flag(name), "--") && StartsWith(Flag(name) + "=", "--");
    PrefixTransitive("--", Flag(name) + "=", tok);
  }

  function WithoutName(r: Scanned, name: string): Scanned {
    match r
    case Refused(_) => r
    case Parsed(st, passthrough, owned) =>
      Parsed(Dropped(st, name), if owned then WithoutOption(passthrough, name) else passthrough, owned)
  }

  /** Scanning after removing an option is the scan without that option: same positionals, flags
      and other options. When a tool owns the tail, the removal reaches into that tail. */
  lemma {:induction false} RemovalCommutes(argv: seq<string>, st: State, name: string)
    requires TakesValue(name) && Scan(argv, st).Parsed?
    ensures Scan(WithoutOption(argv, name), Dropped(st, name)) == WithoutName(Scan(argv, st), name)
    decreases |argv|
  {
    hide TakeOption, TakesValue, Claims, AtDash;
    if argv != [] {
      var tok, rest := argv[0], argv[1..];
      assert argv == [tok] + rest;
      if tok == "--" {
        DashIgnoresBag(st, rest, name);
      } else if tok == "-" || !StartsWith(tok, "-") {
        assert !StartsWith(tok, "--");
        PlainTokenKept(tok, name);
        WithoutKept(tok, rest, name);
        var st' := WithPositional(st, tok);
        assert Claims(Dropped(st', name), tok) == Claims(st', tok) by { ClaimsIgnoresBag(st', tok, name); }
        if !Claims(st', tok) {
          RemovalCommutes(rest, st', name);
        }
      } else {
        OptionRemoval(argv, st, name);
      }
    }
  }

  lemma DashIgnoresBag(st: State, rest: seq<string>, name: string)
    ensures AtDash(Dropped(st, name), rest) == WithoutName(AtDash(st, rest), name)
  {
  }

  lemma ClaimsIgnoresBag(st: State, tok: string, name: string)
    ensures Claims(Dropped(st, name), tok) == Claims(st, tok)
  {
  }

  /** The case of an option token. */
  lemma {:induction false} OptionRemoval(argv: seq<string>, st: State, name: string)
    requires TakesValue(name) && Scan(argv, st).Parsed?
    requires argv != [] && StartsWith(argv[0], "--") && argv[0] != "--"
    ensures Scan(WithoutOption(argv, name), Dropped(st, name)) == WithoutName(Scan(argv, st), name)
    decreases |argv|, 0
  {
    hide TakeOption, TakesValue, Claims, AtDash, Record;
    var tok, rest := argv[0], argv[1..];
    assert argv == [tok] + rest;
    if tok == Flag(name) {
      TakeNamed(name, rest, st);
      var st' := st.(bag := Record(st.bag, name, Value(rest[0])));
      assert Dropped(st', name) == Dropped(st, name) by { DroppedRecord(st, name, Value(rest[0])); }
      RemovalCommutes(argv[2..], st', name);
    } else if StartsWith(tok, Flag(name) + "=") {
      TakeNamedEquals(name, tok, rest, st);
      DroppedRecord(st, name, Value(tok[|name| + 3..]));
      RemovalCommutes(rest, st.(bag := Record(st.bag, name, Value(tok[|name| + 3..]))), name);
    } else {
      var Took(st', used) := TakeOption(tok, rest, st);
      RemovalCommutes(argv[used..], st', name);
      WithoutKept(tok, rest, name);
      var rest' := WithoutOption(rest, name);
      if used == 2 {
        PlainTokenKept(rest[0], name);
        assert rest == [rest[0]] + argv[2..];
        WithoutKept(rest[0], argv[2..], name);
        SameNext(tok, rest, rest', Dropped(st, name));
        assert ([tok] + rest')[2..] == WithoutOption(argv[2..], name);
      } else {
        OneTokenIgnoresNext(tok, rest, rest', Dropped(st, name), name, st);
      }
      TakeOther(name, tok, rest, st);
    }
  }

  lemma DroppedRecord(st: State, name: string, v: OptionValue)
    ensures Dropped(st.(bag := Record(st.bag, name, v)), name) == Dropped(st, name)
  {
  }

  lemma SameNext(tok: string, rest: seq<string>, rest': seq<string>, st: State)
    requires StartsWith(tok, "--") && rest != [] && rest' != [] && rest[0] == rest'[0]
    ensures TakeOption(tok, rest', st) == TakeOption(tok, rest, st)
  {
    hide IsBoolean, CommandPath, BareOnPath, Record;
  }

  /** An option that used one token did not look at the next. */
  lemma OneTokenIgnoresNext(tok: string, rest: seq<string>, rest': seq<string>, st: State, name: string, original: State)
    requires StartsWith(tok, "--") && TakesValue(name) && st == Dropped(original, name)
    requires tok != Flag(name) && !StartsWith(tok, Flag(name) + "=")
    requires TakeOption(tok, rest, original).Took? && TakeOption(tok, rest, original).used == 1
    ensures TakeOption(tok, rest', st) == TakeOption(tok, rest, st)
  {
    TakeOther(name, tok, rest, original);
    OneToken(tok, rest, rest', st);
  }

  lemma OneToken(tok: string, rest: seq<string>, rest': seq<string>, st: State)
    requires StartsWith(tok, "--") && TakeOption(tok, rest, st).Took? && TakeOption(tok, rest, st).used == 1
    ensures TakeOption(tok, rest', st) == TakeOption(tok, rest, st)
  {
    hide IsBoolean, CommandPath, BareOnPath, Record;
  }

  // Insertion.

  lemma WithOptionsStep(tok: string, rest: seq<string>, extra: seq<string>)
    requires tok != "--"
    ensures WithOptions([tok] + rest, extra) == [tok] + WithOptions(rest, extra)
  {
    var argv := [tok] + rest;
    assert argv[1..] == rest;
    var d := DashAt(rest);
    assert argv[..1 + d] == [tok] + rest[..d] && argv[1 + d..] == rest[d..];
  }

  /** The scan of argv with `--name value` inserted where `withOptions` puts it. */
  function WithValue(r: Scanned, name: string, v: string): Scanned {
    match r
    case Refused(_) => r
    case Parsed(st, passthrough, owned) =>
      if owned then Parsed(st, WithOptions(passthrough, [Flag(name), v]), owned)
      else if StartsWith(v, "--") then Refused(ValueRequired(name))
      else Parsed(st.(bag := Record(st.bag, name, Value(v))), passthrough, owned)
  }

  lemma {:induction false} InsertionCommutes(argv: seq<string>, st: State, name: string, v: string)
    requires TakesValue(name) && Scan(argv, st).Parsed?
    ensures Scan(WithOptions(argv, [Flag(name), v]), st) == WithValue(Scan(argv, st), name, v)
    decreases |argv|
  {
    hide TakeOption, TakesValue, Claims, AtDash, Record, WithOptions;
    var extra := [Flag(name), v];
    if argv == [] || argv[0] == "--" {
      InsertedHere(argv, st, name, v);
    } else {
      var tok, rest := argv[0], argv[1..];
      assert argv == [tok] + rest;
      WithOptionsStep(tok, rest, extra);
      if tok == "-" || !StartsWith(tok, "-") {
        var st' := WithPositional(st, tok);
        if !Claims(st', tok) {
          InsertionCommutes(rest, st', name, v);
        }
      } else {
        var Took(st', used) := TakeOption(tok, rest, st);
        InsertionCommutes(argv[used..], st', name, v);
        var rest' := WithOptions(rest, extra);
        if used == 2 {
          assert rest[0] != "--" by { PlainTokenKept(rest[0], name); }
          assert rest == [rest[0]] + argv[2..];
          WithOptionsStep(rest[0], argv[2..], extra);
          SameNext(tok, rest, rest', st);
          assert ([tok] + rest')[2..] == WithOptions(argv[2..], extra);
        } else {
          OneToken(tok, rest, rest', st);
        }
      }
    }
  }

  /** The inserted option is scanned last, before a literal `--` or at the end. */
  lemma InsertedHere(argv: seq<string>, st: State, name: string, v: string)
    requires TakesValue(name) && (argv == [] || argv[0] == "--")
    ensures Scan(WithOptions(argv, [Flag(name), v]), st) == WithValue(Scan(argv, st), name, v)
  {
    hide TakeOption, TakesValue, Record;
    var extra := [Flag(name), v];
    var argv' := WithOptions(argv, extra);
    assert DashAt(argv) == 0;
    assert argv' == extra + argv;
    assert argv'[1..] == [v] + argv && argv'[2..] == argv;
    FlagIsOption(name);
    TakeNamed(name, argv'[1..], st);
  }

  lemma FlagIsOption(name: string)
    requires TakesValue(name)
    ensures Flag(name) != "--" && Flag(name) != "-" && StartsWith(Flag(name), "--") && StartsWith(Flag(name), "-")
  {
    assert |Flag(name)| == 2 + |name|;
  }

  // Rewriting.

  /** The whole effect of the rewriting on the scan, in every case. */
  lemma RewritingScan(argv: seq<string>, name: string, v: string)
    requires TakesValue(name) && Scan(argv, START).Parsed?
    ensures Scan(Rewritten(argv, name, v), START) == WithValue(WithoutName(Scan(argv, START), name), name, v)
  {
    hide TakesValue, Scan, Record;
    RemovalCommutes(argv, START, name);
    assert Dropped(START, name) == START;
    InsertionCommutes(WithoutOption(argv, name), START, name, v);
  }

  /** What the rewriting is for: the same invocation with the option set to this one value. */
  ghost predicate SetsOnly(before: Scanned, after: Scanned, name: string, v: string)
    requires before.Parsed?
  {
    && after.Parsed? && after.passthrough == before.passthrough
    && after.st == before.st.(bag := before.st.bag[name := [Value(v)]])
  }

  /** Rewriting commutes with parsing exactly when no tool name owns the tail of argv and the
      value does not itself look like an option. */
  lemma RewritingCommutes(argv: seq<string>, name: string, v: string)
    requires TakesValue(name) && Scan(argv, START).Parsed?
    ensures SetsOnly(Scan(argv, START), Scan(Rewritten(argv, name, v), START), name, v)
      <==> !Scan(argv, START).owned && !StartsWith(v, "--")
  {
    hide TakesValue, Scan, StartsWith;
    RewritingScan(argv, name, v);
    var before := Scan(argv, START);
    var bag := before.st.bag;
    assert Record(bag - {name}, name, Value(v)) == bag[name := [Value(v)]];
    if before.owned {
      assert name !in (bag - {name});
    }
  }

  /** So the whole parse commutes with the rewriting: an accepted invocation stays accepted, with
      the same positionals and passthrough, and one option or one global replaced. It is refused
      only when the new value of `--format` or `--timeout` is no such value. */
  lemma ParsingCommutes(
      argv: seq<string>, name: string, v: string, validFormat: string -> bool, validTimeout: string -> bool)
    requires TakesValue(name)
    requires ParseInvocation(argv, validFormat, validTimeout).Accepted?
    requires !Scan(argv, START).owned && !StartsWith(v, "--")
    ensures
      var before := ParseInvocation(argv, validFormat, validTimeout);
      ParseInvocation(Rewritten(argv, name, v), validFormat, validTimeout)
        == WithReplaced(before, name, v, validFormat, validTimeout)
  {
    hide TakesValue, Scan, StartsWith;
    RewritingCommutes(argv, name, v);
    FinishReplaces(Scan(argv, START), Scan(Rewritten(argv, name, v), START), name, v, validFormat, validTimeout);
  }

  function WithReplaced(
      x: Invocation, name: string, v: string, validFormat: string -> bool, validTimeout: string -> bool): Invocation
    requires x.Accepted?
  {
    if (name == "format" && !validFormat(v)) || (name == "timeout" && !validTimeout(v)) then Rejected
    else if IsGlobal(name) then x.(globals := x.globals[name := [Value(v)]])
    else x.(options := x.options[name := [Value(v)]])
  }

  lemma FinishReplaces(
      before: Scanned, after: Scanned, name: string, v: string, validFormat: string -> bool, validTimeout: string -> bool)
    requires before.Parsed? && SetsOnly(before, after, name, v) && TakesValue(name)
    requires Finish(before, validFormat, validTimeout).Accepted?
    ensures Finish(after, validFormat, validTimeout)
         == WithReplaced(Finish(before, validFormat, validTimeout), name, v, validFormat, validTimeout)
  {
    hide TakesValue, StartsWith;
    var bag, bag' := before.st.bag, after.st.bag;
    GlobalNames(name);
    BagsAgree(bag, name, v);
    forall g | g in GLOBAL_SCALARS
      ensures GivenOnce(bag', g)
    {
      assert GivenOnce(bag, g);
    }
  }

  lemma GlobalNames(name: string)
    ensures IsGlobal("format") && IsGlobal("timeout")
  {
  }

  /** The options and the globals of a bag in which one name is set. */
  lemma BagsAgree(bag: Bag, name: string, v: string)
    ensures var bag' := bag[name := [Value(v)]];
      && (var options := map n | n in bag && !IsGlobal(n) :: bag[n];
          (map n | n in bag' && !IsGlobal(n) :: bag'[n])
          == if IsGlobal(name) then options else options[name := [Value(v)]])
      && (var globals := map n | n in bag && IsGlobal(n) :: bag[n];
          (map n | n in bag' && IsGlobal(n) :: bag'[n])
          == if IsGlobal(name) then globals[name := [Value(v)]] else globals)
  {
    hide IsGlobal;
  }

  /** A mutation id that begins with `--` can be given, with `=`, and cannot be pinned again: the
      rewritten argv is refused. */
  lemma OptionLikeIdFails(id: string)
    requires StartsWith(id, "--")
    ensures var argv, name := ["--mutation-id=" + id], "mutation-id";
      && Scan(argv, START).Parsed? && Scan(argv, START).st.bag == map[name := [Value(id)]]
      && Scan(Rewritten(argv, name, id), START).Refused?
  {
    hide TakesValue, TakeOption, Record, StartsWith;
    var tok, name := "--mutation-id=" + id, "mutation-id";
    assert TakesValue(name) by { RewrittenNamesTakeValues(); }
    assert StartsWith(tok, Flag(name) + "=") && tok[|name| + 3..] == id by { GivenWithEquals(id); }
    assert StartsWith(tok, "--") && StartsWith(tok, "-") && tok != "--" && tok != "-" by { GivenWithEquals(id); }
    TakeNamedEquals(name, tok, [], START);
    assert [tok][1..] == [];
    assert Record(START.bag, name, Value(id)) == map[name := [Value(id)]] by { FirstRecord(name, id); }
    RewritingScan([tok], name, id);
  }

  lemma FirstRecord(name: string, v: string)
    ensures Record(map[], name, Value(v)) == map[name := [Value(v)]]
  {
  }

  lemma GivenWithEquals(id: string)
    ensures var tok, name := "--mutation-id=" + id, "mutation-id";
      && StartsWith(tok, Flag(name) + "=") && tok[|name| + 3..] == id
      && StartsWith(tok, "--") && StartsWith(tok, "-") && tok != "--" && tok != "-"
  {
    var tok := "--mutation-id=" + id;
    assert Flag("mutation-id") + "=" == "--mutation-id=";
    assert |tok| >= 14;
  }

  /** After `tool run` and a tool's name every option belongs to the tool, so none can be set. */
  lemma ToolTailFails(tool: string, name: string, v: string)
    requires TakesValue(name) && tool != "" && tool[0] != '-'
    ensures var argv := ["tool", "run", tool];
      && Scan(argv, START).Parsed? && Scan(argv, START).owned
      && !SetsOnly(Scan(argv, START), Scan(Rewritten(argv, name, v), START), name, v)
  {
    hide TakesValue, TakeOption, Rewritten;
    var argv := ["tool", "run", tool];
    assert argv == ["tool"] + ["run", tool] && ["run", tool] == ["run"] + [tool];
    ScanPlain("tool", ["run", tool], START);
    var st := WithPositional(START, "tool");
    ScanPlain("run", [tool], st);
    var st' := WithPositional(WithPositional(st, "run"), tool);
    assert st'.positionals == ["tool", "run", tool];
    assert Scan([tool], WithPositional(st, "run")) == Parsed(st', [], true);
    RewritingCommutes(argv, name, v);
  }

  lemma NotBoolean(name: string)
    requires
      || (|name| == 11 && name[0] == 'm') || (|name| == 14 && name[0] == 'e') || (|name| == 4 && name[0] == 'l')
    ensures !IsBoolean(name)
  {
  }

  /** The two options the source rewrites are such names. */
  lemma RewrittenNamesTakeValues()
    ensures TakesValue("mutation-id") && TakesValue("expect-version")
  {
    NotBoolean("mutation-id");
    NotBoolean("expect-version");
    assert |"mutation-id"| == 11 && |"expect-version"| == 14;
  }

  lemma ScanPlain(tok: string, rest: seq<string>, st: State)
    requires tok != "" && tok[0] != '-' && |st.positionals| < 2
    ensures Scan([tok] + rest, st) == Scan(rest, WithPositional(st, tok))
  {
    assert ([tok] + rest)[1..] == rest;
  }

  lemma NoEquals()
    ensures EqualsAt("") == 0
  {
  }

  /** `--last` takes a value, except right after `workspace reorder`. */
  lemma TakeLast(next: seq<string>, st: State)
    requires next != [] && !StartsWith(next[0], "--")
    ensures TakeOption("--last", next, st) ==
      if CommandPath(st.positionals) == "workspace reorder" then Took(st.(bag := Record(st.bag, "last", Bare)), 1)
      else Took(st.(bag := Record(st.bag, "last", Value(next[0]))), 2)
  {
    hide Record, CommandPath, IsBoolean, EqualsAt;
    assert EqualsAt("") == 0 by { NoEquals(); }
    EqualsAfter("last", "");
    assert "last" + "" == "last";
    assert "--last"[2..] == "last" && "last"[..4] == "last";
    assert !StartsWith("last", "pn-") by { assert "last"[0] == 'l'; }
    NotBoolean("last");
  }

  /** A name that is bare on one command path can lose its value: the same tokens read
      differently once the option stands after the path. */
  lemma PathScopedNameFails()
    ensures var argv := ["--last", "3", "workspace", "reorder"];
      && Scan(argv, START).Parsed? && !Scan(argv, START).owned
      && !SetsOnly(Scan(argv, START), Scan(Rewritten(argv, "last", "5"), START), "last", "5")
  {
    hide Scan, Rewritten, WithPositional;
    LastBefore();
    LastAfter();
    assert ["workspace", "reorder"] != ["workspace", "reorder", "5"];
  }

  lemma LastBefore()
    ensures var r := Scan(["--last", "3", "workspace", "reorder"], START);
      r.Parsed? && !r.owned && r.st.positionals == ["workspace", "reorder"]
  {
    hide TakeOption, CommandPath, IsBoolean;
    var st1 := START.(bag := Record(START.bag, "last", Value("3")));
    var argv := ["--last", "3", "workspace", "reorder"];
    assert CommandPath([]) == "" by { NoPath(); }
    assert "" != "workspace reorder";
    TakeLast(argv[1..], START);
    assert argv[2..] == ["workspace"] + ["reorder"] && ["reorder"] == ["reorder"] + [];
    ScanPlain("workspace", ["reorder"], st1);
    ScanPlain("reorder", [], WithPositional(st1, "workspace"));
  }

  lemma LastAfter()
    ensures var r := Scan(Rewritten(["--last", "3", "workspace", "reorder"], "last", "5"), START);
      r.Parsed? ==> r.st.positionals == ["workspace", "reorder", "5"]
  {
    hide TakeOption, CommandPath, IsBoolean, Rewritten;
    InsertedLast();
    var st3 := WithPositional(WithPositional(START, "workspace"), "reorder");
    ScanPlain("workspace", ["reorder"] + ["--last", "5"], START);
    ScanPlain("reorder", ["--last", "5"], WithPositional(START, "workspace"));
    assert CommandPath(st3.positionals) == "workspace reorder" by { ReorderPath(st3.positionals); }
    var more := ["--last", "5"];
    TakeLast(more[1..], st3);
    var st4 := st3.(bag := Record(st3.bag, "last", Bare));
    assert more[1..] == ["5"];
    assert Scan(more, st3) == Scan(["5"], st4);
    assert ["5"][1..] == [];
    assert Scan(["5"], st4) == Scan([], WithPositional(st4, "5"));
  }

  lemma NoPath()
    ensures CommandPath([]) == ""
  {
  }

  lemma ReorderPath(p: seq<string>)
    requires p == [] + ["workspace"] + ["reorder"]
    ensures CommandPath(p) == "workspace reorder"
  {
  }

  lemma RemovedLast()
    ensures WithoutOption(["--last", "3", "workspace", "reorder"], "last") == ["workspace", "reorder"]
  {
    var tail := ["workspace", "reorder"];
    assert ["--last", "3", "workspace", "reorder"][2..] == tail;
    assert Flag("last") == "--last";
    assert "workspace"[0] == 'w' && "reorder"[0] == 'r';
    PlainTokenKept("workspace", "last");
    PlainTokenKept("reorder", "last");
    WithoutKept("workspace", ["reorder"], "last");
    WithoutKept("reorder", [], "last");
    assert tail == ["workspace"] + ["reorder"] && ["reorder"] == ["reorder"] + [];
  }

  lemma InsertedLast()
    ensures Rewritten(["--last", "3", "workspace", "reorder"], "last", "5") == ["workspace"] + (["reorder"] + ["--last", "5"])
  {
    hide WithoutOption, WithOptions, Flag;
    RemovedLast();
    assert Flag("last") == "--last" by { LastFlag(); }
    InsertedAfterTwo("workspace", "reorder", ["--last", "5"]);
  }

  lemma LastFlag()
    ensures Flag("last") == "--last"
  {
  }

  lemma InsertedAfterTwo(a: string, b: string, extra: seq<string>)
    requires a != "--" && b != "--"
    ensures WithOptions([a, b], extra) == [a] + ([b] + extra)
  {
    assert [a, b][1..] == [b] && [b][1..] == [];
    assert DashAt([]) == 0 && DashAt([b]) == 1 && DashAt([a, b]) == 2;
  }
}
