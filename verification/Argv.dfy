/** The command grammar: `parseInvocation` over argv. */
module Argv {

  /** `BOOLEAN_OPTIONS` */
  predicate IsBoolean(name: string) {
    || name in {"no-color", "quiet", "fresh", "terse", "full", "help"}
    || name in {"version", "yes", "all", "off", "ready", "story-page"}
    || name in {"roots", "unread", "until-match", "events", "overwrite", "force"}
    || name in {"stop", "complete", "mark-lost", "close-process", "keep-process", "keep-open"}
    || name in {"grant-only", "presence", "confirm-untrusted", "force-new-task", "allow-tightening", "confirm-agent-generated"}
    || name in {"no-session-link", "no-activate", "preview", "discard", "clear", "untick"}
    || name in {"claim", "node-admin", "print-token", "show", "ensure-working-dir", "no-start"}
    || name in {"ephemeral", "persistent", "snapshot-on-stop", "keep-snapshot", "keep", "no-screenshot"}
    || name in {"follow", "make-template", "open", "draft", "first", "include-revoked"}
    || name in {"allow-spawn", "mine", "space-only", "resolved", "strict", "follow-os"}
    || name in {"no-follow-os", "trust-css", "detach", "close", "value-stdin"}
  }

  /** `COMMAND_SCOPED_GLOBALS` */
  predicate IsCommandScopedGlobal(name: string) {
    name == "version"
  }

  /** `RETIRED_OPTIONS` */
  predicate IsRetired(name: string) {
    name == "json"
  }

  /** `PATH_SCOPED_BOOLEANS` */
  predicate IsPathScoped(name: string) {
    name == "last" || name == "source" || name == "output"
  }

  /** `PATH_SCOPED_BOOLEANS.get(name)?.has(path)` */
  predicate BareOnPath(name: string, path: string) {
    (name == "last" && path == "workspace reorder") || (name == "source" && path == "tool show")
    || (name == "output" && path == "tool run-show")
  }

  datatype OptionValue = Bare | Value(text: string)

  type Bag = map<string, seq<OptionValue>>

  datatype State = State(positionals: seq<string>, bag: Bag, globalFlags: set<string>, sawCommandToken: bool)

  datatype Refusal =
    | ShortOption(tok: string)
    | MalformedOption(tok: string)
    | RetiredOption(name: string)
    | GlobalTakesNoValue(name: string)
    | ValueRequired(name: string)

  /** A finished scan. `owned` says that a tool name claimed every later token. */
  datatype Scanned =
    | Refused(why: Refusal)
    | Parsed(st: State, passthrough: seq<string>, owned: bool)

  function Record(bag: Bag, name: string, v: OptionValue): Bag {
    bag[name := if name in bag then bag[name] + [v] else [v]]
  }

  predicate StartsWith(s: string, prefix: string) {
    prefix <= s
  }

  /** `positionals.slice(0, 2).join(' ')` */
  function CommandPath(positionals: seq<string>): string {
    if positionals == [] then []
    else if |positionals| == 1 then positionals[0]
    else positionals[0] + " " + positionals[1]
  }

  predicate IsToolRun(positionals: seq<string>) {
    |positionals| >= 2 && positionals[0] == "tool" && positionals[1] == "run"
  }

  /** `s.indexOf('=')`, or the length when there is none. */
  function EqualsAt(s: string): (i: nat)
    ensures i <= |s| && (i < |s| ==> s[i] == '=') && forall j :: 0 <= j < i ==> s[j] != '='
  {
    if s == [] || s[0] == '=' then 0 else 1 + EqualsAt(s[1..])
  }

  /** What one option token does: refuse, or move on having used one or two tokens. */
  datatype Step = No(why: Refusal) | Took(st: State, used: nat)

  function TakeOption(tok: string, next: seq<string>, st: State): (step: Step)
    requires StartsWith(tok, "--")
    ensures step.Took? ==> 1 <= step.used <= 2 && (step.used == 2 ==> next != [] && !StartsWith(next[0], "--"))
  {
    var body := tok[2..];
    var eq := EqualsAt(body);
    if eq == 0 then No(MalformedOption(tok))
    else
      var name := body[..eq];
      if IsRetired(name) then No(RetiredOption(name))
      else if IsCommandScopedGlobal(name) && !st.sawCommandToken then
        if eq < |body| then No(GlobalTakesNoValue(name)) else Took(st.(globalFlags := st.globalFlags + {name}), 1)
      else if eq < |body| then Took(st.(bag := Record(st.bag, name, Value(body[eq + 1..]))), 1)
      else if StartsWith(name, "pn-") then Took(st.(bag := Record(st.bag, name, Bare)), 1)
      else if BareOnPath(name, CommandPath(st.positionals)) then Took(st.(bag := Record(st.bag, name, Bare)), 1)
      else if IsBoolean(name) && !IsCommandScopedGlobal(name) then Took(st.(bag := Record(st.bag, name, Bare)), 1)
      else if next == [] || StartsWith(next[0], "--") then No(ValueRequired(name))
      else Took(st.(bag := Record(st.bag, name, Value(next[0]))), 2)
  }

  /** A literal `--` ends the scan. */
  function AtDash(st: State, rest: seq<string>): Scanned {
    if |st.positionals| == 2 && IsToolRun(st.positionals) && rest != []
    then Parsed(st.(positionals := st.positionals + [rest[0]]), rest[1..], false)
    else Parsed(st, rest, false)
  }

  /** A token that is not an option joins the positionals; `-` does not begin a command path. */
  function WithPositional(st: State, tok: string): State {
    st.(positionals := st.positionals + [tok], sawCommandToken := st.sawCommandToken || tok != "-")
  }

  /** A tool name claims the rest of argv. */
  predicate Claims(st: State, tok: string) {
    tok != "-" && |st.positionals| == 3 && IsToolRun(st.positionals)
  }

  function Scan(argv: seq<string>, st: State): Scanned
    decreases argv
  {
    if argv == [] then Parsed(st, [], false)
    else
      var tok, rest := argv[0], argv[1..];
      if tok == "--" then AtDash(st, rest)
      else if tok == "-" || !StartsWith(tok, "-") then
        var st' := WithPositional(st, tok);
        if Claims(st', tok) then Parsed(st', rest, true) else Scan(rest, st')
      else if !StartsWith(tok, "--") then Refused(ShortOption(tok))
      else
        match TakeOption(tok, rest, st)
        case No(why) => Refused(why)
        case Took(st', used) => Scan(argv[used..], st')
  }

  const START := State([], map[], {}, false)

  /** The token loop of `parseInvocation`. */
  method ScanTokens(argv: seq<string>) returns (r: Scanned)
    ensures r == Scan(argv, START)
  {
    hide IsBoolean, BareOnPath, CommandPath, EqualsAt, Record;
    var positionals: seq<string> := [];
    var bag: Bag := map[];
    var globalFlags: set<string> := {};
    var sawCommandToken := false;
    var i := 0;
    assert argv[0..] == argv;
    while i < |argv|
      invariant 0 <= i <= |argv|
      invariant Scan(argv, START) == Scan(argv[i..], State(positionals, bag, globalFlags, sawCommandToken))
    {
      var tok := argv[i];
      ghost var st := State(positionals, bag, globalFlags, sawCommandToken);
      assert argv[i..][0] == tok && argv[i..][1..] == argv[i + 1..];
      if tok == "--" {
        if |positionals| == 2 && positionals[0] == "tool" && positionals[1] == "run" {
          if i + 1 < |argv| {
            positionals := positionals + [argv[i + 1]];
            return Parsed(State(positionals, bag, globalFlags, sawCommandToken), argv[i + 2..], false);
          }
        }
        return Parsed(State(positionals, bag, globalFlags, sawCommandToken), argv[i + 1..], false);
      }
      if tok == "-" {
        positionals := positionals + [tok];
        i := i + 1;
      } else if !StartsWith(tok, "-") {
        positionals := positionals + [tok];
        sawCommandToken := true;
        if |positionals| == 3 && positionals[0] == "tool" && positionals[1] == "run" {
          return Parsed(State(positionals, bag, globalFlags, sawCommandToken), argv[i + 1..], true);
        }
        i := i + 1;
      } else if !StartsWith(tok, "--") {
        return Refused(ShortOption(tok));
      } else {
        var body := tok[2..];
        var eq := EqualsAt(body);
        if eq == 0 {
          return Refused(MalformedOption(tok));
        }
        var name := body[..eq];
        if IsRetired(name) {
          return Refused(RetiredOption(name));
        }
        var used := 1;
        if IsCommandScopedGlobal(name) && !sawCommandToken {
          if eq < |body| {
            return Refused(GlobalTakesNoValue(name));
          }
          globalFlags := globalFlags + {name};
        } else if eq < |body| {
          bag := Record(bag, name, Value(body[eq + 1..]));
        } else if StartsWith(name, "pn-") || BareOnPath(name, CommandPath(positionals)) {
          bag := Record(bag, name, Bare);
        } else if IsBoolean(name) && !IsCommandScopedGlobal(name) {
          bag := Record(bag, name, Bare);
        } else {
          if i + 1 >= |argv| || StartsWith(argv[i + 1], "--") {
            return Refused(ValueRequired(name));
          }
          bag := Record(bag, name, Value(argv[i + 1]));
          used := 2;
        }
        assert argv[i..][used..] == argv[i + used..];
        i := i + used;
      }
    }
    assert argv[i..] == [];
    r := Parsed(State(positionals, bag, globalFlags, sawCommandToken), [], false);
  }

  // The second half of `parseInvocation`: the globals leave the bag.

  const GLOBAL_SCALARS: set<string> := {"server", "space", "as", "format", "timeout"}
  const GLOBAL_FLAGS: set<string> := {"no-color", "quiet", "fresh", "terse", "full", "help"}

  predicate IsGlobal(name: string) {
    name in GLOBAL_SCALARS || name in GLOBAL_FLAGS
  }

  /** `takeScalar` accepts an option that is absent, or given once with a value. */
  predicate GivenOnce(bag: Bag, name: string) {
    name in bag ==> |bag[name]| == 1 && bag[name][0].Value?
  }

  datatype Invocation =
    | Rejected
    | Accepted(positionals: seq<string>, options: Bag, passthrough: seq<string>, globals: Bag, version: bool)

  /** `validFormat` and `validTimeout` are the checks of `--format` and `--timeout`. */
  function Finish(r: Scanned, validFormat: string -> bool, validTimeout: string -> bool): Invocation {
    if r.Refused? then Rejected
    else
      var bag := r.st.bag;
      var version := "version" in r.st.globalFlags;
      if exists name :: name in GLOBAL_SCALARS && !GivenOnce(bag, name) then Rejected
      else if version && r.st.positionals != [] then Rejected
      else if "format" in bag && GivenOnce(bag, "format") && !validFormat(bag["format"][0].text) then Rejected
      else if "timeout" in bag && GivenOnce(bag, "timeout") && !validTimeout(bag["timeout"][0].text) then Rejected
      else
        Accepted(r.st.positionals, map name | name in bag && !IsGlobal(name) :: bag[name], r.passthrough,
                 map name | name in bag && IsGlobal(name) :: bag[name], version)
  }

  function ParseInvocation(argv: seq<string>, validFormat: string -> bool, validTimeout: string -> bool): Invocation {
    Finish(Scan(argv, START), validFormat, validTimeout)
  }
}
