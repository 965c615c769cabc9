/** Printing tokens for a POSIX shell, and how the shell reads them back (Shell Command
    Language, sections 2.2 and 2.3). */
module Shell {
  import opened Wrappers
  import opened Argv
  import opened Rewriting

  predicate IsSafe(c: char) {
    'A' <= c <= 'Z' || 'a' <= c <= 'z' || '0' <= c <= '9'
    || c in {'_', '@', '%', '+', '=', ':', ',', '.', '/', '-'}
  }

  predicate AllSafe(s: string) {
    forall i :: 0 <= i < |s| ==> IsSafe(s[i])
  }

  /** `token.replace(/'/g, `'\\''`)` */
  function QuotesEscaped(s: string): string {
    if s == [] then []
    else (if s[0] == '\'' then "'\\''" else [s[0]]) + QuotesEscaped(s[1..])
  }

  function ShellQuote(token: string): string {
    if token != [] && AllSafe(token) then token else "'" + QuotesEscaped(token) + "'"
  }

  function Joined(words: seq<string>): string {
    if words == [] then []
    else if |words| == 1 then ShellQuote(words[0])
    else ShellQuote(words[0]) + " " + Joined(words[1..])
  }

  /** `commandLine` */
  function CommandLine(argv: seq<string>): string {
    Joined(["tm8"] + argv)
  }

  // The shell.

  datatype Fields = Unreadable | Fields(words: seq<string>)

  /** The characters that a shell takes specially outside quotes (section 2.2), but for the blank, the
      single quote and the backslash, which are read below. `=` and `%` are special only in places
      where an argument does not stand. */
  predicate Special(c: char) {
    || c in {'|', '&', ';', '<', '>', '(', ')', '$', '`', '"'}
    || c in {'\t', '\n', '*', '?', '[', ']', '#', '~', '!', '{', '}', '^'}
  }

  datatype Word = NoWord | InWord(text: string)

  function Flushed(w: Word, rest: Fields): Fields {
    if w.NoWord? || rest.Unreadable? then rest else Fields([w.text] + rest.words)
  }

  function Grown(w: Word, c: char): Word {
    if w.NoWord? then InWord([c]) else InWord(w.text + [c])
  }

  /** Outside quotes: a blank ends a word, a quote opens a literal stretch, a backslash keeps the
      next character, and any other special character is refused. */
  function Split(s: string, w: Word): Fields
    decreases |s|
  {
    if s == [] then Flushed(w, Fields([]))
    else if s[0] == ' ' then Flushed(w, Split(s[1..], NoWord))
    else if s[0] == '\'' then InQuotes(s[1..], if w.NoWord? then InWord([]) else w)
    else if s[0] == '\\' then if |s| < 2 then Unreadable else Split(s[2..], Grown(w, s[1]))
    else if Special(s[0]) then Unreadable
    else Split(s[1..], Grown(w, s[0]))
  }

  /** Inside single quotes every character stands for itself up to the closing quote. */
  function InQuotes(s: string, w: Word): Fields
    decreases |s|
  {
    if s == [] then Unreadable
    else if s[0] == '\'' then Split(s[1..], w)
    else InQuotes(s[1..], Grown(w, s[0]))
  }

  // Reading back.

  lemma SafeIsOrdinary(c: char)
    ensures IsSafe(c) ==> !Special(c) && c != ' ' && c != '\'' && c != '\\'
  {
  }

  /** A token is printed as it is exactly when it is not empty and made of letters, digits and the
      ten marks that no shell takes specially. */
  lemma BareExactly(token: string)
    ensures ShellQuote(token) == token <==>
      token != "" && forall c :: c in token ==> ('a' <= c <= 'z' || 'A' <= c <= 'Z' || '0' <= c <= '9' || c in "-./:=@_%+,")
  {
    hide IsSafe;
    LongerQuoted(token);
    forall c ensures IsSafe(c) <==> ('a' <= c <= 'z' || 'A' <= c <= 'Z' || '0' <= c <= '9' || c in "-./:=@_%+,") {
      SafeChar(c);
    }
    assert AllSafe(token) <==> forall c :: c in token ==> IsSafe(c);
    if !AllSafe(token) || token == "" {
      assert |ShellQuote(token)| >= |token| + 2;
    }
  }

  lemma SafeChar(c: char)
    ensures IsSafe(c) <==> ('a' <= c <= 'z' || 'A' <= c <= 'Z' || '0' <= c <= '9' || c in "-./:=@_%+,")
  {
    var marks := "-./:=@_%+,";
    assert marks[0] == '-' && marks[1] == '.' && marks[2] == '/' && marks[3] == ':' && marks[4] == '=';
    assert marks[5] == '@' && marks[6] == '_' && marks[7] == '%' && marks[8] == '+' && marks[9] == ',';
  }

  lemma {:induction false} LongerQuoted(s: string)
    ensures |QuotesEscaped(s)| >= |s|
  {
    if s != [] {
      LongerQuoted(s[1..]);
    }
  }

  lemma {:induction false} SafeRun(t: string, rest: string, text: string)
    requires AllSafe(t)
    ensures Split(t + rest, InWord(text)) == Split(rest, InWord(text + t))
    decreases t
  {
    hide IsSafe, Special;
    if t == [] {
      assert t + rest == rest && text + t == text;
    } else {
      SafeIsOrdinary(t[0]);
      SafeRun(t[1..], rest, text + [t[0]]);
      assert (t + rest)[1..] == t[1..] + rest;
      assert IsSafe(t[0]);
      assert text + [t[0]] + t[1..] == text + t;
    }
  }

  lemma {:induction false} QuotedRun(t: string, rest: string, text: string)
    ensures InQuotes(QuotesEscaped(t) + "'" + rest, InWord(text)) == Split(rest, InWord(text + t))
    decreases t
  {
    var s := QuotesEscaped(t) + "'" + rest;
    if t == [] {
      assert s[1..] == rest && text + t == text;
    } else {
      var tail := QuotesEscaped(t[1..]) + "'" + rest;
      QuotedRun(t[1..], rest, text + [t[0]]);
      assert text + [t[0]] + t[1..] == text + t;
      if t[0] == '\'' {
        assert s == "'\\''" + tail;
        EscapedQuote(tail, text);
      } else {
        assert s[1..] == tail;
      }
    }
  }

  /** Closing the quotes, an escaped quote, and opening them again. */
  lemma EscapedQuote(tail: string, text: string)
    ensures InQuotes("'\\''" + tail, InWord(text)) == InQuotes(tail, InWord(text + "'"))
  {
    var s := "'\\''" + tail;
    assert s[1..] == "\\''" + tail;
    assert s[1..][2..] == "'" + tail;
    assert ("'" + tail)[1..] == tail;
    assert Split("'" + tail, InWord(text + "'")) == InQuotes(tail, InWord(text + "'"));
  }

  /** A quoted token is read as exactly that token. */
  lemma TokenRead(token: string, rest: string)
    ensures Split(ShellQuote(token) + rest, NoWord) == Split(rest, InWord(token))
  {
    hide IsSafe, Special;
    if token != [] && AllSafe(token) {
      SafeIsOrdinary(token[0]);
      assert IsSafe(token[0]) && (token + rest)[1..] == token[1..] + rest;
      SafeRun(token[1..], rest, [token[0]]);
      assert [token[0]] + token[1..] == token;
    } else {
      var s := ShellQuote(token) + rest;
      assert s[1..] == QuotesEscaped(token) + "'" + rest;
      QuotedRun(token, rest, []);
      assert [] + token == token;
    }
  }

  lemma {:induction false} JoinedRead(words: seq<string>)
    ensures Split(Joined(words), NoWord) == Fields(words)
  {
    hide ShellQuote;
    if |words| == 1 {
      TokenRead(words[0], []);
      assert ShellQuote(words[0]) + [] == ShellQuote(words[0]);
      assert Split([], InWord(words[0])) == Fields([words[0]]);
    } else if |words| > 1 {
      var rest := " " + Joined(words[1..]);
      TokenRead(words[0], rest);
      assert Joined(words) == ShellQuote(words[0]) + rest;
      assert rest[1..] == Joined(words[1..]);
      JoinedRead(words[1..]);
      assert words == [words[0]] + words[1..];
    }
  }

  /** The shell splits the printed command line into `tm8` and the tokens, whatever they are. */
  lemma CommandLineRead(argv: seq<string>)
    ensures Split(CommandLine(argv), NoWord) == Fields(["tm8"] + argv)
  {
    JoinedRead(["tm8"] + argv);
  }

  /** `replayCommand` */
  function ReplayCommand(argv: seq<string>, mutationId: string): string {
    CommandLine(Rewritten(argv, "mutation-id", mutationId))
  }

  /** `retryCommand`. `version` is the version to pin, when the operation takes one and it is known. */
  function RetryTokens(argv: seq<string>, version: Option<string>): seq<string> {
    var tokens := WithoutOption(argv, "mutation-id");
    if version.None? then tokens else Rewritten(tokens, "expect-version", version.value)
  }

  function RetryCommand(argv: seq<string>, version: Option<string>): string {
    CommandLine(RetryTokens(argv, version))
  }

  /** The same invocation without the mutation id, and with the version pinned if there is one. */
  ghost predicate RetriesOnly(before: Scanned, after: Scanned, version: Option<string>)
    requires before.Parsed?
  {
    && after.Parsed? && after.passthrough == before.passthrough
    && var bag := before.st.bag - {"mutation-id"};
    after.st == before.st.(bag := if version.None? then bag else bag["expect-version" := [Value(version.value)]])
  }

  /** The printed retry command, typed at a shell, is that invocation if and only if no tool name
      owns the tail of argv and the version does not begin with `--`, or nothing is pinned and the
      tool's own tokens name no mutation id. */
  lemma RetryCommandIsSameInvocation(argv: seq<string>, version: Option<string>)
    requires Scan(argv, START).Parsed?
    ensures
      var before, read := Scan(argv, START), Split(RetryCommand(argv, version), NoWord);
      && read.Fields? && |read.words| > 0 && read.words[0] == "tm8"
      && (RetriesOnly(before, Scan(read.words[1..], START), version)
          <==> if before.owned then version.None? && WithoutOption(before.passthrough, "mutation-id") == before.passthrough
               else version.Some? ==> !StartsWith(version.value, "--"))
  {
    hide Scan, Split, Rewritten, WithoutOption, Joined, StartsWith, TakesValue, RetriesOnly;
    var tokens := RetryTokens(argv, version);
    CommandLineRead(tokens);
    assert (["tm8"] + tokens)[1..] == tokens;
    RetryScan(argv, version);
  }

  lemma RetryScan(argv: seq<string>, version: Option<string>)
    requires Scan(argv, START).Parsed?
    ensures var before := Scan(argv, START);
      RetriesOnly(before, Scan(RetryTokens(argv, version), START), version)
      <==> if before.owned then version.None? && WithoutOption(before.passthrough, "mutation-id") == before.passthrough
           else version.Some? ==> !StartsWith(version.value, "--")
  {
    hide Scan, Rewritten, WithoutOption, StartsWith, TakesValue, Record;
    var before, tokens := Scan(argv, START), WithoutOption(argv, "mutation-id");
    RewrittenNamesTakeValues();
    RemovalCommutes(argv, START, "mutation-id");
    assert Dropped(START, "mutation-id") == START;
    var bag := before.st.bag - {"mutation-id"};
    if version.Some? {
      RewritingScan(tokens, "expect-version", version.value);
      PinnedBag(bag, version.value);
    }
  }

  lemma PinnedBag(bag: Bag, v: string)
    ensures Record(bag - {"expect-version"}, "expect-version", Value(v)) == bag["expect-version" := [Value(v)]]
    ensures bag - {"expect-version"} != bag["expect-version" := [Value(v)]]
  {
    assert "expect-version" !in (bag - {"expect-version"});
  }

  /** The printed replay command, typed at a shell, is the same invocation with the mutation id
      pinned to this one value: exactly when no tool name owns the tail of argv and the id does
      not begin with `--`. */
  lemma ReplayCommandIsSameInvocation(argv: seq<string>, mutationId: string)
    requires Scan(argv, START).Parsed?
    ensures
      var read := Split(ReplayCommand(argv, mutationId), NoWord);
      && read.Fields? && |read.words| > 0 && read.words[0] == "tm8"
      && (SetsOnly(Scan(argv, START), Scan(read.words[1..], START), "mutation-id", mutationId)
          <==> !Scan(argv, START).owned && !StartsWith(mutationId, "--"))
  {
    hide Scan, Split, Rewritten, Joined, StartsWith, SetsOnly, TakesValue;
    var argv' := Rewritten(argv, "mutation-id", mutationId);
    CommandLineRead(argv');
    assert (["tm8"] + argv')[1..] == argv';
    RewrittenNamesTakeValues();
    RewritingCommutes(argv, "mutation-id", mutationId);
  }
}
