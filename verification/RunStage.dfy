/** One stage of the conductor: members run in capped sessions, are polled until each has left,
    and are started at most twice. */
module RunStage {
  import opened Wrappers

  const WEDGE_SECS := 240
  const PHASE_TIMEOUT := 2400
  const POLL := 20
  const PROMISE_GRACE := 90
  const BRANCH_WINDOW := 66
  const WRITES_CODE := {"implement"}

  /** What one look at a session finds. `lag` and `lagAgain` are the seconds that pass before each
      of its two clock readings. */
  datatype Look = Look(
    promised: bool, posted: bool, postedAgain: bool, toolCalls: nat, idle: Option<int>, lag: nat, lagAgain: nat)

  /** The n-th external step: a look, whether the member already runs elsewhere, the id a spawn
      returns, and how much longer than asked it takes. */
  datatype Env = Env(look: nat -> Look, elsewhere: nat -> Option<string>, spawned: nat -> string, extra: nat -> nat)

  datatype Plan = Plan(keys: seq<string>, ledger: set<string>, cap: nat, dry: bool) {
    ghost predicate Valid() {
      && cap >= 1
      && forall i, j :: 0 <= i < j < |keys| ==> keys[i] != keys[j]
    }
  }

  datatype Verdict = Promised | PostedOnly | PostedIdle | Wedged | Overdue | Running

  datatype Note = NoPromise(key: string) | WedgedTwice(key: string) | NoReport(key: string, secs: int, toolCalls: nat)

  /** What the conductor does, in order: the lines it prints, with the clock and the number of the
      external step behind each, and the looks that print nothing because the session goes on. */
  datatype Line =
    | AlreadyComplete(key: string)
    | WouldSpawn(key: string)
    | Adopted(key: string, sid: string, at: int, step: nat)
    | Spawned(key: string, sid: string, at: int, step: nat)
    | Looked(key: string, sid: string, verdict: Verdict, look: nat, at: int)

  datatype Session = Session(key: string, sid: string, t0: int)

  datatype State = State(
    pending: seq<string>, live: seq<Session>, attempts: map<string, nat>, done: set<string>,
    notes: seq<Note>, sids: seq<string>, log: seq<Line>, now: int, step: nat)

  // The branches of one poll.

  function Judge(look: Look, age: int, ageAgain: int): Verdict {
    if look.promised then Promised
    else if look.posted && age > PROMISE_GRACE then PostedOnly
    else if look.postedAgain then PostedIdle
    else if (if look.idle.Some? then look.idle.value > WEDGE_SECS else ageAgain > WEDGE_SECS && look.toolCalls == 0)
    then Wedged
    else if ageAgain > PHASE_TIMEOUT then Overdue
    else Running
  }

  function Attempts(s: State, key: string): nat {
    if key in s.attempts then s.attempts[key] else 0
  }

  function WithoutKey(live: seq<Session>, key: string): seq<Session> {
    if live == [] then []
    else if live[0].key == key then live[1..]
    else [live[0]] + WithoutKey(live[1..], key)
  }

  // Steps.

  function Start(p: Plan, now: int): State {
    State(NotIn(p.keys, p.ledger), [], map[], set k | k in p.keys && k in p.ledger, [], [],
          Already(p.keys, p.ledger), now, 0)
  }

  function NotIn(keys: seq<string>, ledger: set<string>): seq<string> {
    if keys == [] then []
    else (if keys[0] in ledger then [] else [keys[0]]) + NotIn(keys[1..], ledger)
  }

  function Already(keys: seq<string>, ledger: set<string>): seq<Line> {
    if keys == [] then []
    else (if keys[0] in ledger then [AlreadyComplete(keys[0])] else []) + Already(keys[1..], ledger)
  }

  function Slept(s: State, secs: nat, e: Env): State {
    s.(now := s.now + secs + e.extra(s.step), step := s.step + 1)
  }

  function Begun(s: State, key: string, sid: string, line: Line): State {
    s.(live := s.live + [Session(key, sid, s.now)],
       attempts := s.attempts[key := Attempts(s, key) + 1],
       sids := s.sids + [sid],
       log := s.log + [line])
  }

  /** Takes the first pending member. */
  function FilledOne(s: State, p: Plan, e: Env): State
    requires s.pending != []
  {
    var k := s.pending[0];
    var s1 := s.(pending := s.pending[1..]);
    if p.dry then s1.(done := s1.done + {k}, log := s1.log + [WouldSpawn(k)])
    else
      var s2 := if s1.live != [] && k in WRITES_CODE then Slept(s1, BRANCH_WINDOW, e) else s1;
      var existing := e.elsewhere(s2.step);
      var s3 := Slept(s2, 0, e);
      if existing.Some? then Begun(s3, k, existing.value, Adopted(k, existing.value, s3.now, s2.step))
      else
        var sid, s4 := e.spawned(s3.step), Slept(s3, 0, e);
        Begun(s4, k, sid, Spawned(k, sid, s4.now, s2.step))
  }

  function Filled(s: State, p: Plan, e: Env): State
    decreases |s.pending|
  {
    if s.pending == [] || |s.live| >= p.cap then s else Filled(FilledOne(s, p, e), p, e)
  }

  function Left(s: State, key: string): State {
    s.(live := WithoutKey(s.live, key))
  }

  function Accepted(s: State, key: string, notes: seq<Note>): State {
    s.(done := s.done + {key}, notes := s.notes + notes)
  }

  /** The clock, the step and the line after a look. */
  function Seen(s: State, x: Session, look: Look, verdict: Verdict): State {
    var now := s.now + look.lag + look.lagAgain;
    s.(now := now, step := s.step + 1, log := s.log + [Looked(x.key, x.sid, verdict, s.step, now)])
  }

  /** Looks at one session. */
  function Polled(s: State, x: Session, e: Env): State {
    var look := e.look(s.step);
    var age := s.now + look.lag - x.t0;
    var ageAgain := age + look.lagAgain;
    var verdict := Judge(look, age, ageAgain);
    var s1 := Seen(s, x, look, verdict);
    match verdict
    case Running => s1
    case Promised => Accepted(Left(s1, x.key), x.key, [])
    case PostedOnly => Accepted(Left(s1, x.key), x.key, [NoPromise(x.key)])
    case PostedIdle => Accepted(Left(s1, x.key), x.key, [NoPromise(x.key)])
    case Overdue => Accepted(Left(s1, x.key), x.key, [NoReport(x.key, ageAgain, look.toolCalls)])
    case Wedged =>
      var s2 := Left(s1, x.key);
      if Attempts(s2, x.key) < 2 then s2.(pending := s2.pending + [x.key])
      else Accepted(s2, x.key, [WedgedTwice(x.key)])
  }

  function PolledAll(s: State, todo: seq<Session>, e: Env): State
    decreases todo
  {
    if todo == [] then s else PolledAll(Polled(s, todo[0], e), todo[1..], e)
  }

  /** One turn of the outer loop that does not leave it. */
  function Turn(s: State, p: Plan, e: Env): State {
    var f := Filled(s, p, e);
    PolledAll(Slept(f, POLL, e), f.live, e)
  }

  /** The state after n turns, or when the loop ends if that is earlier. */
  function After(s: State, p: Plan, e: Env, n: nat): State
    decreases n
  {
    if n == 0 || |s.done| >= |p.keys| then s
    else
      var f := Filled(s, p, e);
      if p.dry && f.pending == [] then f else After(Turn(s, p, e), p, e, n - 1)
  }

  // What the log says of one member.

  function Starts(log: seq<Line>, key: string): seq<string>
    decreases log
  {
    if log == [] then []
    else
      var last := log[|log| - 1];
      Starts(log[..|log| - 1], key)
      + (if (last.Adopted? || last.Spawned?) && last.key == key then [last.sid] else [])
  }

  function Ends(log: seq<Line>, key: string): seq<Line>
    decreases log
  {
    if log == [] then []
    else
      var last := log[|log| - 1];
      Ends(log[..|log| - 1], key) + (if last.Looked? && last.verdict != Running && last.key == key then [last] else [])
  }

  /** Every session started, in order. */
  function AllStarts(log: seq<Line>): seq<string>
    decreases log
  {
    if log == [] then []
    else
      var last := log[|log| - 1];
      AllStarts(log[..|log| - 1]) + (if last.Adopted? || last.Spawned? then [last.sid] else [])
  }

  lemma StartsGrow(log: seq<Line>, line: Line)
    ensures AllStarts(log + [line]) == AllStarts(log) + (if line.Adopted? || line.Spawned? then [line.sid] else [])
  {
    assert (log + [line])[..|log|] == log;
  }

  lemma LogGrows(log: seq<Line>, line: Line, key: string)
    ensures line.key != key ==> Starts(log + [line], key) == Starts(log, key) && Ends(log + [line], key) == Ends(log, key)
    ensures line.Adopted? || line.Spawned? ==>
      Starts(log + [line], line.key) == Starts(log, line.key) + [line.sid] && Ends(log + [line], line.key) == Ends(log, line.key)
    ensures line.Looked? ==>
      Starts(log + [line], line.key) == Starts(log, line.key)
      && Ends(log + [line], line.key) == Ends(log, line.key) + (if line.verdict == Running then [] else [line])
    ensures line.AlreadyComplete? || line.WouldSpawn? ==>
      Starts(log + [line], key) == Starts(log, key) && Ends(log + [line], key) == Ends(log, key)
  {
    assert (log + [line])[..|log|] == log;
  }

  // What the state says of one member.

  function SessionsOf(live: seq<Session>, key: string): seq<Session> {
    if live == [] then []
    else (if live[0].key == key then [live[0]] else []) + SessionsOf(live[1..], key)
  }

  function NotesOf(notes: seq<Note>, key: string): seq<Note> {
    if notes == [] then []
    else (if notes[0].key == key then [notes[0]] else []) + NotesOf(notes[1..], key)
  }

  datatype View = View(
    pending: nat, live: seq<Session>, attempts: nat, done: bool, notes: seq<Note>, starts: seq<string>, ends: seq<Line>)

  ghost function ViewOf(s: State, key: string): View {
    View(multiset(s.pending)[key], SessionsOf(s.live, key), Attempts(s, key), key in s.done,
         NotesOf(s.notes, key), Starts(s.log, key), Ends(s.log, key))
  }

  /** Where a member stands, and what became of each session started for it. */
  ghost predicate MemberOk(v: View, mine: bool, known: bool, dry: bool) {
    // In exactly one place.
    && v.pending + |v.live| + (if v.done then 1 else 0) == (if mine then 1 else 0)
    // Started at most twice; each start but a live one has ended, in order.
    && v.attempts == |v.starts| <= 2
    && |v.starts| == |v.ends| + |v.live|
    && (forall i :: 0 <= i < |v.ends| ==> v.ends[i].Looked? && v.ends[i].sid == v.starts[i])
    && (v.live != [] ==> v.live[0].sid == v.starts[|v.ends|])
    // A start that is not the last one wedged.
    && (forall i :: 0 <= i < |v.ends| - (if v.done then 1 else 0) ==> v.ends[i].verdict == Wedged)
    && (v.pending == 1 ==> v.attempts <= 1)
    // Never started: not in the plan, in the ledger, or a dry run.
    && (!mine || known || dry ==> v.attempts == 0 && v.notes == [])
    && (known && mine ==> v.done)
    // Done: by promise without a note, or otherwise with one note.
    && (v.done && !known && !dry ==>
        && v.ends != []
        && v.ends[|v.ends| - 1].verdict != Running
        && (v.ends[|v.ends| - 1].verdict == Wedged ==> |v.ends| == 2)
        && NotedFor(v.ends[|v.ends| - 1].verdict, v.notes))
    && (!v.done ==> v.notes == [])
  }

  /** The one note that a member leaves unless its last session ended by its promise. */
  ghost predicate NotedFor(verdict: Verdict, notes: seq<Note>) {
    |notes| == (if verdict == Promised then 0 else 1)
    && (notes != [] ==>
          match notes[0]
          case NoPromise(_) => verdict == PostedOnly || verdict == PostedIdle
          case WedgedTwice(_) => verdict == Wedged
          case NoReport(_, _, _) => verdict == Overdue)
  }

  ghost predicate Inv(s: State, p: Plan) {
    && |s.live| <= p.cap
    && s.sids == AllStarts(s.log)
    && forall key {:trigger ViewOf(s, key)} :: MemberOk(ViewOf(s, key), key in p.keys, key in p.ledger, p.dry)
  }

  lemma SessionsAppend(live: seq<Session>, x: Session, key: string)
    ensures SessionsOf(live + [x], key) == SessionsOf(live, key) + (if x.key == key then [x] else [])
  {
    if live != [] {
      assert (live + [x])[1..] == live[1..] + [x];
    }
  }

  lemma NotesAppend(notes: seq<Note>, x: Note, key: string)
    ensures NotesOf(notes + [x], key) == NotesOf(notes, key) + (if x.key == key then [x] else [])
  {
    if notes != [] {
      assert (notes + [x])[1..] == notes[1..] + [x];
    }
  }

  lemma SessionsWithout(live: seq<Session>, gone: string, key: string)
    ensures var was := SessionsOf(live, key);
      SessionsOf(WithoutKey(live, gone), key) == if key == gone && was != [] then was[1..] else was
    ensures |WithoutKey(live, gone)| <= |live|
  {
  }

  lemma PendingPopped(pending: seq<string>, key: string)
    requires pending != []
    ensures multiset(pending[1..])[key] == multiset(pending)[key] - (if key == pending[0] then 1 else 0)
  {
    assert pending == [pending[0]] + pending[1..];
  }

  predicate IsStart(line: Line) {
    line.Adopted? || line.Spawned?
  }

  /** A running session is adopted; without one a new session is spawned. */
  ghost predicate StartedBy(line: Line, e: Env)
    requires IsStart(line)
  {
    if line.Adopted? then e.elsewhere(line.step) == Some(line.sid)
    else e.elsewhere(line.step).None? && e.spawned(line.step + 1) == line.sid
  }

  lemma BegunView(s: State, k: string, sid: string, line: Line, key: string)
    requires IsStart(line) && line.key == k && line.sid == sid
    ensures var v, t := ViewOf(s, key), Begun(s, k, sid, line);
      ViewOf(t, key) == if key != k then v else
        v.(live := v.live + [Session(k, sid, s.now)], attempts := v.attempts + 1, starts := v.starts + [sid])
  {
    LogGrows(s.log, line, key);
    SessionsAppend(s.live, Session(k, sid, s.now), key);
  }

  /** The same but for one pending member less. */
  ghost predicate Popped(s: State, t: State) {
    s.pending != [] && t == s.(pending := s.pending[1..], now := t.now, step := t.step)
  }

  lemma PoppedView(s: State, t: State, key: string)
    requires Popped(s, t)
    ensures var v := ViewOf(s, key);
      if key == s.pending[0] then v.pending > 0 && ViewOf(t, key) == v.(pending := v.pending - 1)
      else ViewOf(t, key) == v
  {
    PendingPopped(s.pending, key);
  }

  lemma FilledOneBegins(s: State, p: Plan, e: Env) returns (t: State, sid: string, line: Line)
    requires s.pending != [] && !p.dry
    ensures Popped(s, t) && t.now >= s.now && FilledOne(s, p, e) == Begun(t, s.pending[0], sid, line)
    ensures IsStart(line) && line.key == s.pending[0] && line.sid == sid && line.at == t.now && StartedBy(line, e)
    ensures s.live != [] && s.pending[0] == "implement" ==> t.now >= s.now + 66
    ensures t.step >= s.step
  {
    var k := s.pending[0];
    var s1 := s.(pending := s.pending[1..]);
    var s2 := if s1.live != [] && k in WRITES_CODE then Slept(s1, BRANCH_WINDOW, e) else s1;
    t := Slept(s2, 0, e);
    var existing := e.elsewhere(s2.step);
    if existing.Some? {
      sid, line := existing.value, Adopted(k, existing.value, t.now, s2.step);
    } else {
      sid, t := e.spawned(t.step), Slept(t, 0, e);
      line := Spawned(k, sid, t.now, s2.step);
    }
  }

  lemma SameView(s: State, t: State, key: string)
    requires t == s.(now := t.now, step := t.step)
    ensures ViewOf(t, key) == ViewOf(s, key)
  {
  }

  /** Filling one slot moves the first pending member to live, or to done in a dry run. */
  lemma FilledOneView(s: State, p: Plan, e: Env, key: string)
    requires s.pending != []
    ensures var v, w := ViewOf(s, key), ViewOf(FilledOne(s, p, e), key);
      var k := s.pending[0];
      if key != k then w == v
      else if p.dry then v.pending > 0 && w == v.(pending := v.pending - 1, done := true)
      else exists x: Session ::
        && x.key == k && v.pending > 0
        && w == v.(pending := v.pending - 1, live := v.live + [x], attempts := v.attempts + 1, starts := v.starts + [x.sid])
  {
    if p.dry {
      DryView(s, p, e, key);
    } else {
      hide ViewOf, Begun, FilledOne;
      var t, sid, line := FilledOneBegins(s, p, e);
      PoppedView(s, t, key);
      BegunView(t, s.pending[0], sid, line, key);
      var x := Session(s.pending[0], sid, t.now);
    }
  }

  lemma DryView(s: State, p: Plan, e: Env, key: string)
    requires s.pending != [] && p.dry
    ensures var v, w := ViewOf(s, key), ViewOf(FilledOne(s, p, e), key);
      if key != s.pending[0] then w == v else v.pending > 0 && w == v.(pending := v.pending - 1, done := true)
  {
    hide SessionsOf, NotesOf, Starts, Ends;
    PendingPopped(s.pending, key);
    LogGrows(s.log, WouldSpawn(s.pending[0]), key);
  }

  lemma FilledOneKeeps(s: State, p: Plan, e: Env)
    requires Inv(s, p) && s.pending != [] && |s.live| < p.cap
    ensures Inv(FilledOne(s, p, e), p)
  {
    hide ViewOf, AllStarts;
    var t := FilledOne(s, p, e);
    assert |t.live| <= |s.live| + 1;
    FilledOneSids(s, p, e);
    forall key ensures MemberOk(ViewOf(t, key), key in p.keys, key in p.ledger, p.dry) {
      FilledOneView(s, p, e, key);
      assert MemberOk(ViewOf(s, key), key in p.keys, key in p.ledger, p.dry);
    }
  }

  lemma FilledOneSids(s: State, p: Plan, e: Env)
    requires s.pending != [] && s.sids == AllStarts(s.log)
    ensures FilledOne(s, p, e).sids == AllStarts(FilledOne(s, p, e).log)
  {
    if p.dry {
      StartsGrow(s.log, WouldSpawn(s.pending[0]));
    } else {
      var t, sid, line := FilledOneBegins(s, p, e);
      StartsGrow(s.log, line);
    }
  }

  lemma FilledKeeps(s: State, p: Plan, e: Env)
    requires Inv(s, p)
    ensures Inv(Filled(s, p, e), p)
    ensures Filled(s, p, e).pending == [] || |Filled(s, p, e).live| == p.cap
    decreases |s.pending|
  {
    hide Inv, FilledOne;
    assert |s.live| <= p.cap by { InvCap(s, p); }
    if !(s.pending == [] || |s.live| >= p.cap) {
      FilledOneKeeps(s, p, e);
      assert |FilledOne(s, p, e).pending| < |s.pending| by { FilledOneTakes(s, p, e); }
      FilledKeeps(FilledOne(s, p, e), p, e);
    }
  }

  lemma InvCap(s: State, p: Plan)
    requires Inv(s, p)
    ensures |s.live| <= p.cap
  {
  }

  lemma FilledOneTakes(s: State, p: Plan, e: Env)
    requires s.pending != []
    ensures FilledOne(s, p, e).pending == s.pending[1..]
  {
  }

  // Polling.

  lemma SeenView(s: State, x: Session, look: Look, verdict: Verdict, key: string)
    ensures var v, t := ViewOf(s, key), Seen(s, x, look, verdict);
      ViewOf(t, key) == if key == x.key && verdict != Running then v.(ends := v.ends + [t.log[|s.log|]]) else v
    ensures Seen(s, x, look, verdict).log[|s.log|]
         == Looked(x.key, x.sid, verdict, s.step, s.now + look.lag + look.lagAgain)
  {
    hide Starts, Ends;
    LogGrows(s.log, Looked(x.key, x.sid, verdict, s.step, s.now + look.lag + look.lagAgain), key);
    assert Ends(s.log, key) + [] == Ends(s.log, key);
  }

  lemma LeftView(s: State, x: Session, key: string)
    requires SessionsOf(s.live, x.key) == [x]
    ensures ViewOf(Left(s, x.key), key) == if key == x.key then ViewOf(s, key).(live := []) else ViewOf(s, key)
  {
    hide Starts, Ends, SessionsOf, WithoutKey;
    SessionsWithout(s.live, x.key, key);
  }

  lemma AcceptedView(s: State, k: string, notes: seq<Note>, key: string)
    requires notes == [] || (|notes| == 1 && notes[0].key == k)
    ensures var v, w := ViewOf(s, key), ViewOf(Accepted(s, k, notes), key);
      w == if key == k then v.(done := true, notes := v.notes + notes) else v
  {
    if notes == [] {
      assert s.notes + notes == s.notes;
      assert NotesOf(s.notes, key) + notes == NotesOf(s.notes, key);
    } else {
      assert notes == [notes[0]];
      NotesAppend(s.notes, notes[0], key);
    }
  }

  /** What one look does to the member it looks at. */
  ghost predicate LookedAt(v: View, w: View, line: Line)
    requires line.Looked?
  {
    var verdict := line.verdict;
    if verdict == Running then w == v
    else
      var gone := v.(live := [], ends := v.ends + [line]);
      if verdict == Wedged && v.attempts < 2 then w == gone.(pending := v.pending + 1)
      else
        && w == gone.(done := true, notes := w.notes)
        && |w.notes| == |v.notes| + (if verdict == Promised then 0 else 1)
        && (v.notes == [] ==> NotedFor(verdict, w.notes))
  }

  ghost function VerdictOf(s: State, x: Session, e: Env): Verdict {
    var look := e.look(s.step);
    Judge(look, s.now + look.lag - x.t0, s.now + look.lag - x.t0 + look.lagAgain)
  }

  ghost function LineOf(s: State, x: Session, e: Env): (line: Line)
    ensures line.Looked?
  {
    var look := e.look(s.step);
    Looked(x.key, x.sid, VerdictOf(s, x, e), s.step, s.now + look.lag + look.lagAgain)
  }

  lemma PolledView(s: State, x: Session, e: Env, key: string)
    requires SessionsOf(s.live, x.key) == [x]
    ensures var v, w := ViewOf(s, key), ViewOf(Polled(s, x, e), key);
      if key == x.key then LookedAt(v, w, LineOf(s, x, e)) else w == v
  {
    hide ViewOf, Judge, Accepted;
    var look, verdict := e.look(s.step), VerdictOf(s, x, e);
    var s1 := Seen(s, x, look, verdict);
    SeenView(s, x, look, verdict, key);
    SeenView(s, x, look, verdict, x.key);
    LeftView(s1, x, key);
    var s2 := Left(s1, x.key);
    var secs := s.now + look.lag - x.t0 + look.lagAgain;
    AcceptedView(s2, x.key, [], key);
    AcceptedView(s2, x.key, [NoPromise(x.key)], key);
    AcceptedView(s2, x.key, [WedgedTwice(x.key)], key);
    AcceptedView(s2, x.key, [NoReport(x.key, secs, look.toolCalls)], key);
    PendedView(s2, x.key, key);
    ViewAttempts(s2, x.key);
    ViewAttempts(s, x.key);
    LeftView(s1, x, x.key);
  }

  lemma PolledLog(s: State, x: Session, e: Env)
    ensures var t := Polled(s, x, e);
      && t.log == s.log + [LineOf(s, x, e)] && t.step == s.step + 1 && t.now == LineOf(s, x, e).at
      && (t.live == s.live || t.live == WithoutKey(s.live, x.key))
  {
    hide Judge, WithoutKey;
  }

  lemma ViewAttempts(s: State, key: string)
    ensures ViewOf(s, key).attempts == Attempts(s, key)
  {
  }

  lemma PendedView(s: State, k: string, key: string)
    ensures var v, w := ViewOf(s, key), ViewOf(s.(pending := s.pending + [k]), key);
      w == if key == k then v.(pending := v.pending + 1) else v
  {
  }

  /** Sessions still to look at, each the only one of its member. */
  ghost predicate Todo(live: seq<Session>, todo: seq<Session>) {
    && (forall i :: 0 <= i < |todo| ==> SessionsOf(live, todo[i].key) == [todo[i]])
    && (forall i, j :: 0 <= i < j < |todo| ==> todo[i].key != todo[j].key)
  }

  lemma PolledSids(s: State, x: Session, e: Env)
    requires s.sids == AllStarts(s.log)
    ensures Polled(s, x, e).sids == AllStarts(Polled(s, x, e).log)
  {
    hide AllStarts, Judge, WithoutKey;
    PolledLog(s, x, e);
    StartsGrow(s.log, LineOf(s, x, e));
  }

  lemma PolledKeeps(s: State, p: Plan, x: Session, e: Env)
    requires Inv(s, p) && SessionsOf(s.live, x.key) == [x]
    ensures Inv(Polled(s, x, e), p)
  {
    hide ViewOf, Judge, SessionsOf, AllStarts;
    var t := Polled(s, x, e);
    assert |t.live| <= |s.live| by { SessionsWithout(s.live, x.key, ""); }
    PolledSids(s, x, e);
    forall key ensures MemberOk(ViewOf(t, key), key in p.keys, key in p.ledger, p.dry) {
      PolledView(s, x, e, key);
      assert MemberOk(ViewOf(s, key), key in p.keys, key in p.ledger, p.dry);
      if key == x.key {
        assert ViewOf(s, key).live == [x] by { ViewLive(s, key); }
        LookKeeps(ViewOf(s, key), ViewOf(t, key), x, LineOf(s, x, e), key in p.keys, key in p.ledger, p.dry);
      }
    }
  }

  lemma ViewLive(s: State, key: string)
    ensures ViewOf(s, key).live == SessionsOf(s.live, key)
  {
  }

  lemma LookKeeps(v: View, w: View, x: Session, line: Line, mine: bool, known: bool, dry: bool)
    requires line.Looked? && line.sid == x.sid
    requires MemberOk(v, mine, known, dry) && v.live == [x] && LookedAt(v, w, line)
    ensures MemberOk(w, mine, known, dry)
  {
    if line.verdict != Running {
      assert v.ends == [] || v.ends[0].verdict == Wedged;
    }
  }

  lemma TodoShrinks(s: State, todo: seq<Session>, e: Env)
    requires Todo(s.live, todo) && todo != []
    ensures Todo(Polled(s, todo[0], e).live, todo[1..])
  {
    hide ViewOf, Polled, SessionsOf;
    var t := Polled(s, todo[0], e);
    forall i | 0 <= i < |todo| - 1 ensures SessionsOf(t.live, todo[1..][i].key) == [todo[1..][i]] {
      var key := todo[i + 1].key;
      PolledView(s, todo[0], e, key);
      ViewLive(s, key);
      ViewLive(t, key);
    }
  }

  lemma {:induction false} PolledAllKeeps(s: State, p: Plan, todo: seq<Session>, e: Env)
    requires Inv(s, p) && Todo(s.live, todo)
    ensures Inv(PolledAll(s, todo, e), p)
    decreases todo
  {
    hide Inv, Polled, SessionsOf;
    if todo != [] {
      PolledKeeps(s, p, todo[0], e);
      TodoShrinks(s, todo, e);
      PolledAllKeeps(Polled(s, todo[0], e), p, todo[1..], e);
    }
  }

  lemma SessionsContain(live: seq<Session>, i: nat)
    requires i < |live|
    ensures live[i] in SessionsOf(live, live[i].key)
    ensures forall j :: i < j < |live| && live[j].key == live[i].key ==> |SessionsOf(live, live[i].key)| >= 2
  {
    if i > 0 {
      SessionsContain(live[1..], i - 1);
    } else {
      forall j | 0 < j < |live| && live[j].key == live[0].key ensures |SessionsOf(live, live[0].key)| >= 2 {
        SessionsContain(live[1..], j - 1);
      }
    }
  }

  lemma AllTodo(s: State, p: Plan)
    requires Inv(s, p)
    ensures Todo(s.live, s.live)
  {
    hide SessionsOf;
    forall i | 0 <= i < |s.live|
      ensures SessionsOf(s.live, s.live[i].key) == [s.live[i]]
      ensures forall j :: i < j < |s.live| ==> s.live[i].key != s.live[j].key
    {
      var key := s.live[i].key;
      SessionsContain(s.live, i);
      assert MemberOk(ViewOf(s, key), key in p.keys, key in p.ledger, p.dry);
      assert |SessionsOf(s.live, key)| <= 1;
    }
  }

  lemma SleptKeeps(s: State, p: Plan, secs: nat, e: Env)
    requires Inv(s, p)
    ensures Inv(Slept(s, secs, e), p)
  {
    hide ViewOf;
    forall key ensures ViewOf(Slept(s, secs, e), key) == ViewOf(s, key) {
      SameView(s, Slept(s, secs, e), key);
    }
  }

  lemma TurnKeeps(s: State, p: Plan, e: Env)
    requires Inv(s, p)
    ensures Inv(Turn(s, p, e), p)
  {
    hide Inv, Filled, PolledAll, SessionsOf;
    var f := Filled(s, p, e);
    FilledKeeps(s, p, e);
    AllTodo(f, p);
    SleptKeeps(f, p, POLL, e);
    PolledAllKeeps(Slept(f, POLL, e), p, f.live, e);
  }

  lemma StartOk(p: Plan, now: int)
    requires p.Valid()
    ensures Inv(Start(p, now), p)
  {
    var s := Start(p, now);
    AlreadySilent(p.keys, p.ledger, "");
    forall key ensures MemberOk(ViewOf(s, key), key in p.keys, key in p.ledger, p.dry) {
      NotInOnce(p.keys, p.ledger, key);
      AlreadySilent(p.keys, p.ledger, key);
    }
  }

  lemma NotInOnce(keys: seq<string>, ledger: set<string>, key: string)
    requires forall i, j :: 0 <= i < j < |keys| ==> keys[i] != keys[j]
    ensures multiset(NotIn(keys, ledger))[key] == if key in keys && key !in ledger then 1 else 0
  {
    if keys != [] {
      NotInOnce(keys[1..], ledger, key);
    }
  }

  /** The members in the ledger are said to be complete, in order, and the others are pending. */
  lemma {:induction false} AlreadyExact(a: seq<string>, b: seq<string>, ledger: set<string>)
    ensures Already(a + b, ledger) == Already(a, ledger) + Already(b, ledger)
    ensures |a| == 1 ==> Already(a, ledger) == if a[0] in ledger then [AlreadyComplete(a[0])] else []
  {
    hide Already;
    if a == [] {
      AlreadyNone(ledger);
      assert [] + b == b;
    } else {
      AlreadyHead(a[0], a[1..] + b, ledger);
      AlreadyHead(a[0], a[1..], ledger);
      AlreadyNone(ledger);
      assert a + b == [a[0]] + (a[1..] + b) && a == [a[0]] + a[1..];
      AlreadyExact(a[1..], b, ledger);
    }
  }

  lemma AlreadyNone(ledger: set<string>)
    ensures Already([], ledger) == []
  {
  }

  lemma AlreadyHead(key: string, rest: seq<string>, ledger: set<string>)
    ensures Already([key] + rest, ledger) == (if key in ledger then [AlreadyComplete(key)] else []) + Already(rest, ledger)
  {
    assert ([key] + rest)[1..] == rest;
  }

  lemma {:induction false} PendingExact(a: seq<string>, b: seq<string>, ledger: set<string>)
    ensures NotIn(a + b, ledger) == NotIn(a, ledger) + NotIn(b, ledger)
    ensures |a| == 1 ==> NotIn(a, ledger) == if a[0] in ledger then [] else a
  {
    hide NotIn;
    if a == [] {
      PendingNone(ledger);
      assert [] + b == b;
    } else {
      PendingHead(a[0], a[1..] + b, ledger);
      PendingHead(a[0], a[1..], ledger);
      PendingNone(ledger);
      assert a + b == [a[0]] + (a[1..] + b) && a == [a[0]] + a[1..];
      PendingExact(a[1..], b, ledger);
    }
  }

  lemma PendingNone(ledger: set<string>)
    ensures NotIn([], ledger) == []
  {
  }

  lemma PendingHead(key: string, rest: seq<string>, ledger: set<string>)
    ensures NotIn([key] + rest, ledger) == (if key in ledger then [] else [key]) + NotIn(rest, ledger)
  {
    assert ([key] + rest)[1..] == rest;
  }

  lemma {:induction false} AlreadySilent(keys: seq<string>, ledger: set<string>, key: string)
    ensures Starts(Already(keys, ledger), key) == [] && Ends(Already(keys, ledger), key) == []
    ensures AllStarts(Already(keys, ledger)) == []
  {
    AlreadyLines(keys, ledger);
    SilentLog(Already(keys, ledger), key);
  }

  lemma AlreadyLines(keys: seq<string>, ledger: set<string>)
    ensures forall i :: 0 <= i < |Already(keys, ledger)| ==> Already(keys, ledger)[i].AlreadyComplete?
  {
  }

  lemma SilentLog(log: seq<Line>, key: string)
    requires forall i :: 0 <= i < |log| ==> log[i].AlreadyComplete?
    ensures Starts(log, key) == [] && Ends(log, key) == [] && AllStarts(log) == []
  {
  }

  /** At every turn of every run, whatever the sessions do. */
  lemma {:induction false} AfterKeeps(s: State, p: Plan, e: Env, n: nat)
    requires Inv(s, p)
    ensures Inv(After(s, p, e, n), p)
    decreases n
  {
    hide Inv, Turn, Filled;
    if n > 0 && |s.done| < |p.keys| {
      FilledKeeps(s, p, e);
      TurnKeeps(s, p, e);
      if !(p.dry && Filled(s, p, e).pending == []) {
        AfterKeeps(Turn(s, p, e), p, e, n - 1);
      }
    }
  }

  // The stage ends.

  /** An upper bound on the polls a session started at t0 survives from now on. */
  function PollsLeft(t0: int, now: int): nat {
    if now - t0 > PHASE_TIMEOUT then 0 else (PHASE_TIMEOUT - (now - t0)) / POLL + 1
  }

  function LiveWork(live: seq<Session>, now: int): nat {
    if live == [] then 0 else 1 + PollsLeft(live[0].t0, now) + LiveWork(live[1..], now)
  }

  function Begins(keys: seq<string>, s: State): nat {
    if keys == [] then 0 else Attempts(s, keys[0]) + Begins(keys[1..], s)
  }

  /** Twice 122 turns for each member that is not in the ledger, less those already used up. */
  ghost function TurnsLeft(s: State, p: Plan): int {
    var todo := NotIn(p.keys, p.ledger);
    122 * (2 * |todo| - Begins(todo, s)) + LiveWork(s.live, s.now)
  }

  lemma WorkLater(live: seq<Session>, now: int, later: int)
    requires now <= later
    ensures LiveWork(live, later) <= LiveWork(live, now)
  {
  }

  lemma WorkConcat(a: seq<Session>, b: seq<Session>, now: int)
    ensures LiveWork(a + b, now) == LiveWork(a, now) + LiveWork(b, now)
  {
    if a == [] {
      assert a + b == b;
    } else {
      assert (a + b)[1..] == a[1..] + b;
    }
  }

  lemma BeginsBound(keys: seq<string>, s: State)
    requires forall key :: key in keys ==> Attempts(s, key) <= 2
    ensures Begins(keys, s) <= 2 * |keys|
  {
  }

  lemma BeginsSame(keys: seq<string>, s: State, t: State)
    requires forall key :: key in keys ==> Attempts(t, key) == Attempts(s, key)
    ensures Begins(keys, t) == Begins(keys, s)
  {
  }

  lemma BeginsOne(keys: seq<string>, s: State, t: State, k: string)
    requires multiset(keys)[k] == 1
    requires Attempts(t, k) == Attempts(s, k) + 1
    requires forall key :: key != k ==> Attempts(t, key) == Attempts(s, key)
    ensures Begins(keys, t) == Begins(keys, s) + 1
  {
    PendingPopped(keys, k);
    if keys[0] == k {
      BeginsSame(keys[1..], s, t);
    } else {
      BeginsOne(keys[1..], s, t, k);
    }
  }

  lemma TurnsLeftNat(s: State, p: Plan)
    requires Inv(s, p)
    ensures TurnsLeft(s, p) >= 0
  {
    hide LiveWork, NotIn, Attempts;
    var todo := NotIn(p.keys, p.ledger);
    forall key ensures Attempts(s, key) <= 2 {
      assert MemberOk(ViewOf(s, key), key in p.keys, key in p.ledger, p.dry);
    }
    BeginsBound(todo, s);
  }

  lemma BegunWork(t: State, p: Plan, k: string, sid: string, line: Line)
    requires p.Valid() && k in p.keys && k !in p.ledger
    ensures TurnsLeft(Begun(t, k, sid, line), p) == TurnsLeft(t, p)
  {
    hide LiveWork, NotIn;
    NotInOnce(p.keys, p.ledger, k);
    var u := Begun(t, k, sid, line);
    BeginsOne(NotIn(p.keys, p.ledger), t, u, k);
    var x := Session(k, sid, t.now);
    WorkConcat(t.live, [x], t.now);
    assert LiveWork([x], t.now) == 122 by { OneWork(x); }
  }

  lemma OneWork(x: Session)
    ensures LiveWork([x], x.t0) == 122
  {
  }

  lemma FilledOneWork(s: State, p: Plan, e: Env)
    requires p.Valid() && Inv(s, p) && s.pending != [] && !p.dry
    ensures TurnsLeft(FilledOne(s, p, e), p) <= TurnsLeft(s, p)
    ensures FilledOne(s, p, e).done == s.done
  {
    hide LiveWork, NotIn, FilledOne, Begun;
    var k := s.pending[0];
    assert MemberOk(ViewOf(s, k), k in p.keys, k in p.ledger, p.dry);
    assert k in multiset(s.pending);
    PendingIsMine(s, p, k);
    var t, sid, line := FilledOneBegins(s, p, e);
    BegunWork(t, p, k, sid, line);
    PoppedWork(s, t, p);
    FilledOneLater(s, p, e);
  }

  lemma FilledOneLater(s: State, p: Plan, e: Env)
    requires s.pending != [] && !p.dry
    ensures FilledOne(s, p, e).done == s.done
  {
  }

  lemma PendingIsMine(s: State, p: Plan, k: string)
    requires Inv(s, p) && k in s.pending
    ensures k in p.keys && k !in p.ledger
  {
    assert MemberOk(ViewOf(s, k), k in p.keys, k in p.ledger, p.dry);
    assert multiset(s.pending)[k] > 0;
  }

  lemma PoppedWork(s: State, t: State, p: Plan)
    requires Popped(s, t) && t.now >= s.now
    ensures TurnsLeft(t, p) <= TurnsLeft(s, p)
  {
    hide LiveWork, NotIn;
    WorkLater(s.live, s.now, t.now);
    BeginsSame(NotIn(p.keys, p.ledger), s, t);
  }

  lemma FilledWork(s: State, p: Plan, e: Env)
    requires p.Valid() && Inv(s, p) && !p.dry
    ensures TurnsLeft(Filled(s, p, e), p) <= TurnsLeft(s, p)
    ensures Filled(s, p, e).done == s.done
    decreases |s.pending|
  {
    hide Inv, FilledOne, TurnsLeft;
    assert |s.live| <= p.cap by { InvCap(s, p); }
    if !(s.pending == [] || |s.live| >= p.cap) {
      FilledOneKeeps(s, p, e);
      FilledOneWork(s, p, e);
      assert |FilledOne(s, p, e).pending| < |s.pending| by { FilledOneTakes(s, p, e); }
      FilledWork(FilledOne(s, p, e), p, e);
    }
  }

  ghost predicate Apart(live: seq<Session>) {
    forall i, j :: 0 <= i < j < |live| ==> live[i].key != live[j].key
  }

  /** Every session has lost at least one poll since then. */
  ghost predicate Aged(live: seq<Session>, then_: int, now: int) {
    forall i :: 0 <= i < |live| ==> PollsLeft(live[i].t0, now) < PollsLeft(live[i].t0, then_)
  }

  lemma AgedWork(live: seq<Session>, then_: int, now: int)
    requires Aged(live, then_, now)
    ensures LiveWork(live, now) + |live| <= LiveWork(live, then_)
  {
  }

  lemma {:induction false} WithoutAt(live: seq<Session>, i: nat)
    requires i < |live| && Apart(live)
    ensures WithoutKey(live, live[i].key) == live[..i] + live[i + 1..]
  {
    if i > 0 {
      var tail := live[1..];
      assert tail[i - 1] == live[i] && live[0].key != live[i].key;
      assert Apart(tail);
      WithoutAt(tail, i - 1);
      assert [live[0]] + (tail[..i - 1] + tail[i..]) == live[..i] + live[i + 1..];
    }
  }

  lemma ApartWithout(live: seq<Session>, i: nat)
    requires i < |live| && Apart(live)
    ensures Apart(live[..i] + live[i + 1..])
  {
    var rest := live[..i] + live[i + 1..];
    forall j | 0 <= j < |rest| ensures rest[j] == live[if j < i then j else j + 1] {
    }
  }

  /** A look either ends the session or uses up one of its polls: by the first poll after
      PHASE_TIMEOUT it has left. */
  lemma PolledWork(s: State, x: Session, e: Env, then_: int)
    requires s.now >= then_ + POLL
    ensures var t := Polled(s, x, e);
      && t.now >= s.now && t.attempts == s.attempts
      && (t.live == WithoutKey(s.live, x.key)
          || (t.live == s.live && PollsLeft(x.t0, t.now) < PollsLeft(x.t0, then_)))
      && (t.now - x.t0 > PHASE_TIMEOUT ==> t.live == WithoutKey(s.live, x.key))
  {
  }

  lemma {:induction false} PolledAllWork(s: State, kept: seq<Session>, todo: seq<Session>, e: Env, then_: int)
    requires s.live == kept + todo && Apart(s.live) && Aged(kept, then_, s.now)
    requires s.now >= then_ + POLL
    ensures var t := PolledAll(s, todo, e);
      LiveWork(t.live, t.now) + |s.live| <= LiveWork(s.live, then_) && t.attempts == s.attempts
    decreases todo
  {
    hide Polled, LiveWork, WithoutKey;
    if todo == [] {
      assert kept + todo == kept;
      AgedWork(kept, then_, s.now);
    } else {
      var x, rest := todo[0], todo[1..];
      var t := Polled(s, x, e);
      PolledWork(s, x, e, then_);
      var i := |kept|;
      assert s.live[..i] == kept && s.live[i + 1..] == rest && s.live[i] == x;
      WithoutAt(s.live, i);
      ApartWithout(s.live, i);
      if t.live == s.live && PollsLeft(x.t0, t.now) < PollsLeft(x.t0, then_) {
        assert kept + [x] + rest == s.live;
        PolledAllWork(t, kept + [x], rest, e, then_);
      } else {
        PolledAllWork(t, kept, rest, e, then_);
        WorkConcat(kept, todo, then_);
        WorkConcat(kept, rest, then_);
        assert todo == [x] + rest;
        WorkConcat([x], rest, then_);
        assert LiveWork([x], then_) >= 1 by { WorkPositive(x, then_); }
      }
    }
  }

  lemma WorkPositive(x: Session, now: int)
    ensures LiveWork([x], now) >= 1
  {
  }

  lemma NotAllDone(s: State, p: Plan)
    requires p.Valid() && Inv(s, p)
    ensures |s.done| >= |p.keys| <==> forall key :: key in p.keys ==> key in s.done
    ensures |s.done| <= |p.keys|
  {
    hide ViewOf;
    var all := set key | key in p.keys;
    SetSize(p.keys);
    forall key | key in s.done ensures key in all {
      assert MemberOk(ViewOf(s, key), key in p.keys, key in p.ledger, p.dry);
      assert ViewOf(s, key).done by { ViewDone(s, key); }
    }
    SubsetSize(s.done, all);
    if forall key :: key in p.keys ==> key in s.done {
      assert s.done == all;
    }
  }

  lemma ViewDone(s: State, key: string)
    ensures ViewOf(s, key).done <==> key in s.done
  {
  }

  lemma SetSize(keys: seq<string>)
    requires forall i, j :: 0 <= i < j < |keys| ==> keys[i] != keys[j]
    ensures |set key | key in keys| == |keys|
  {
    if keys != [] {
      SetSize(keys[1..]);
      assert (set key | key in keys) == {keys[0]} + set key | key in keys[1..];
    }
  }

  lemma SubsetSize(a: set<string>, b: set<string>)
    requires a <= b
    ensures |a| <= |b|
    ensures |a| == |b| ==> a == b
  {
    assert b == a + (b - a);
  }

  lemma TurnWork(s: State, p: Plan, e: Env)
    requires p.Valid() && Inv(s, p) && !p.dry && |s.done| < |p.keys|
    ensures TurnsLeft(Turn(s, p, e), p) < TurnsLeft(s, p)
  {
    hide Inv, Filled, PolledAll, LiveWork, SessionsOf, NotIn, Begins;
    var f := Filled(s, p, e);
    FilledKeeps(s, p, e);
    FilledWork(s, p, e);
    AllTodo(f, p);
    assert f.live != [] by { SomeoneLives(f, p); }
    var g := Slept(f, POLL, e);
    assert g.live == [] + f.live;
    PolledAllWork(g, [], f.live, e, f.now);
    BeginsSame(NotIn(p.keys, p.ledger), f, PolledAll(g, f.live, e));
  }

  lemma SomeoneLives(f: State, p: Plan)
    requires p.Valid() && Inv(f, p) && |f.done| < |p.keys|
    requires f.pending == [] || |f.live| == p.cap
    ensures f.live != []
  {
    hide Starts, Ends, NotesOf;
    NotAllDone(f, p);
    var key :| key in p.keys && key !in f.done;
    assert MemberOk(ViewOf(f, key), true, key in p.ledger, p.dry);
  }

  /** For every behaviour of the sessions the loop ends, within 244 turns for each member that
      is not in the ledger, and then every member is done. */
  lemma {:induction false} StageEnds(s: State, p: Plan, e: Env, n: nat)
    requires p.Valid() && Inv(s, p) && !p.dry && n >= TurnsLeft(s, p)
    ensures forall key :: key in p.keys ==> key in After(s, p, e, n).done
    decreases n
  {
    hide Inv, Turn, TurnsLeft;
    NotAllDone(s, p);
    TurnsLeftNat(s, p);
    if |s.done| < |p.keys| {
      TurnWork(s, p, e);
      TurnKeeps(s, p, e);
      TurnsLeftNat(Turn(s, p, e), p);
      StageEnds(Turn(s, p, e), p, e, n - 1);
    }
  }

  // What each verdict stands for.

  /** What a look must find for a verdict. `secs` is the time from the session's start to the look's
      second clock reading. */
  ghost predicate Observed(look: Look, verdict: Verdict, secs: int) {
    var reported := look.posted && secs - look.lagAgain > 90;
    var silent := if look.idle.Some? then look.idle.value > 240 else secs > 240 && look.toolCalls == 0;
    match verdict
    case Promised => look.promised
    case PostedOnly => !look.promised && reported
    case PostedIdle => !look.promised && !reported && look.postedAgain
    case Wedged => !look.promised && !reported && !look.postedAgain && silent
    case Overdue => !look.promised && !reported && !look.postedAgain && !silent && secs > 2400
    case Running => !look.promised && !reported && !look.postedAgain && !silent && secs <= 2400
  }

  /** The last start of a member among the first n lines. */
  ghost predicate LastStart(log: seq<Line>, n: nat, key: string, j: nat) {
    && j < n <= |log| && IsStart(log[j]) && log[j].key == key
    && forall m :: j < m < n ==> !(IsStart(log[m]) && log[m].key == key)
  }

  /** A look is at the session started last, and its verdict is what it finds there. */
  ghost predicate RightlyLooked(log: seq<Line>, e: Env, i: nat)
    requires i < |log| && log[i].Looked?
  {
    exists j: nat ::
      LastStart(log, i, log[i].key, j) && log[j].sid == log[i].sid
      && Observed(e.look(log[i].look), log[i].verdict, log[i].at - log[j].at)
  }

  /** Every look is right, no look is counted twice, and every start adopts or spawns as it should. */
  ghost predicate LogOk(log: seq<Line>, e: Env, step: nat) {
    && (forall i :: 0 <= i < |log| && log[i].Looked? ==> log[i].look < step && RightlyLooked(log, e, i))
    && (forall i, j :: 0 <= i < j < |log| && log[i].Looked? && log[j].Looked? ==> log[i].look < log[j].look)
    && (forall i :: 0 <= i < |log| && IsStart(log[i]) ==> StartedBy(log[i], e))
  }

  ghost predicate LiveStarted(log: seq<Line>, x: Session) {
    exists j: nat :: LastStart(log, |log|, x.key, j) && log[j].sid == x.sid && log[j].at == x.t0
  }

  ghost predicate Witnessed(s: State, e: Env) {
    && LogOk(s.log, e, s.step)
    && forall i :: 0 <= i < |s.live| ==> LiveStarted(s.log, s.live[i])
  }

  lemma RightlyLookedStill(log: seq<Line>, line: Line, e: Env, i: nat)
    requires i < |log| && log[i].Looked? && RightlyLooked(log, e, i)
    ensures RightlyLooked(log + [line], e, i)
  {
    hide Observed;
    var more := log + [line];
    var j: nat :| LastStart(log, i, log[i].key, j) && log[j].sid == log[i].sid
      && Observed(e.look(log[i].look), log[i].verdict, log[i].at - log[j].at);
    assert forall m :: 0 <= m < |log| ==> more[m] == log[m];
    assert LastStart(more, i, more[i].key, j);
  }

  /** A line that is no start of the member leaves its live session's start in place. */
  lemma LiveStartedStill(log: seq<Line>, line: Line, x: Session)
    requires LiveStarted(log, x) && !(IsStart(line) && line.key == x.key)
    ensures LiveStarted(log + [line], x)
  {
    var more := log + [line];
    var j: nat :| LastStart(log, |log|, x.key, j) && log[j].sid == x.sid && log[j].at == x.t0;
    assert forall m :: 0 <= m < |log| ==> more[m] == log[m];
    assert LastStart(more, |more|, x.key, j);
  }

  lemma LogOkMore(log: seq<Line>, e: Env, step: nat, line: Line, step': nat)
    requires LogOk(log, e, step) && step <= step'
    requires IsStart(line) ==> StartedBy(line, e)
    requires line.Looked? ==> line.look == step < step' && RightlyLooked(log + [line], e, |log|)
    ensures LogOk(log + [line], e, step')
  {
    hide RightlyLooked, StartedBy;
    var more := log + [line];
    assert forall m :: 0 <= m < |log| ==> more[m] == log[m];
    forall i | 0 <= i < |log| && log[i].Looked? ensures RightlyLooked(more, e, i) {
      RightlyLookedStill(log, line, e, i);
    }
  }

  lemma {:induction false} SubsessionsOf(live: seq<Session>, key: string)
    ensures forall x :: x in WithoutKey(live, key) ==> x in live
  {
    if live != [] && live[0].key != key {
      SubsessionsOf(live[1..], key);
    }
  }

  lemma JudgeObserves(s: State, x: Session, e: Env)
    ensures Observed(e.look(s.step), VerdictOf(s, x, e), LineOf(s, x, e).at - x.t0)
  {
  }

  lemma PolledWitnesses(s: State, x: Session, e: Env)
    requires Witnessed(s, e) && x in s.live
    ensures Witnessed(Polled(s, x, e), e)
  {
    hide Observed, Judge, LogOk, LiveStarted, WithoutKey, Polled;
    var t, line := Polled(s, x, e), LineOf(s, x, e);
    PolledLog(s, x, e);
    var more := s.log + [line];
    assert LiveStarted(s.log, x);
    assert RightlyLooked(more, e, |s.log|) by {
      SeenRightly(s, x, e);
    }
    LogOkMore(s.log, e, s.step, line, s.step + 1);
    SubsessionsOf(s.live, x.key);
    forall i | 0 <= i < |t.live| ensures LiveStarted(t.log, t.live[i]) {
      assert t.live[i] in s.live;
      LiveStartedStill(s.log, line, t.live[i]);
    }
  }

  lemma SeenRightly(s: State, x: Session, e: Env)
    requires LiveStarted(s.log, x)
    ensures RightlyLooked(s.log + [LineOf(s, x, e)], e, |s.log|)
  {
    hide Observed, Judge;
    var log, line := s.log, LineOf(s, x, e);
    var more := log + [line];
    var j: nat :| LastStart(log, |log|, x.key, j) && log[j].sid == x.sid && log[j].at == x.t0;
    assert forall m :: 0 <= m < |log| ==> more[m] == log[m];
    assert LastStart(more, |log|, x.key, j);
    JudgeObserves(s, x, e);
  }

  lemma FilledOneWitnesses(s: State, p: Plan, e: Env)
    requires Witnessed(s, e) && Inv(s, p) && s.pending != []
    ensures Witnessed(FilledOne(s, p, e), e)
  {
    hide LogOk, LiveStarted, Inv, StartedBy;
    var k := s.pending[0];
    if p.dry {
      LogOkMore(s.log, e, s.step, WouldSpawn(k), s.step);
      forall i | 0 <= i < |s.live| ensures LiveStarted(s.log + [WouldSpawn(k)], s.live[i]) {
        LiveStartedStill(s.log, WouldSpawn(k), s.live[i]);
      }
    } else {
      hide FilledOne;
      var t, sid, line := FilledOneBegins(s, p, e);
      LogOkMore(s.log, e, s.step, line, t.step);
      BegunStarted(t, k, sid, line);
      forall i | 0 <= i < |s.live| ensures LiveStarted(s.log + [line], s.live[i]) {
        assert s.live[i].key != k by { PendingNotLive(s, p, i); }
        LiveStartedStill(s.log, line, s.live[i]);
      }
    }
  }

  lemma PendingNotLive(s: State, p: Plan, i: nat)
    requires Inv(s, p) && s.pending != [] && i < |s.live|
    ensures s.live[i].key != s.pending[0]
  {
    hide Starts, Ends, NotesOf;
    var key := s.live[i].key;
    SessionsContain(s.live, i);
    assert MemberOk(ViewOf(s, key), key in p.keys, key in p.ledger, p.dry);
    assert multiset(s.pending)[s.pending[0]] > 0;
  }

  lemma BegunStarted(t: State, k: string, sid: string, line: Line)
    requires IsStart(line) && line.key == k && line.sid == sid && line.at == t.now
    ensures LiveStarted(t.log + [line], Session(k, sid, t.now))
  {
    assert LastStart(t.log + [line], |t.log| + 1, k, |t.log|);
  }

  lemma FilledWitnesses(s: State, p: Plan, e: Env)
    requires Witnessed(s, e) && Inv(s, p)
    ensures Witnessed(Filled(s, p, e), e)
    decreases |s.pending|
  {
    hide Inv, FilledOne, Witnessed;
    assert |s.live| <= p.cap by { InvCap(s, p); }
    if !(s.pending == [] || |s.live| >= p.cap) {
      FilledOneKeeps(s, p, e);
      FilledOneWitnesses(s, p, e);
      assert |FilledOne(s, p, e).pending| < |s.pending| by { FilledOneTakes(s, p, e); }
      FilledWitnesses(FilledOne(s, p, e), p, e);
    }
  }

  lemma {:induction false} PolledAllWitnesses(s: State, todo: seq<Session>, e: Env)
    requires Witnessed(s, e) && Todo(s.live, todo)
    ensures Witnessed(PolledAll(s, todo, e), e)
    decreases todo
  {
    hide Polled, SessionsOf, Witnessed;
    if todo != [] {
      SessionIn(s.live, todo[0]);
      PolledWitnesses(s, todo[0], e);
      TodoShrinks(s, todo, e);
      PolledAllWitnesses(Polled(s, todo[0], e), todo[1..], e);
    }
  }

  lemma {:induction false} SessionIn(live: seq<Session>, x: Session)
    requires x in SessionsOf(live, x.key)
    ensures x in live
  {
    if live[0] != x {
      SessionIn(live[1..], x);
    }
  }

  lemma TurnWitnesses(s: State, p: Plan, e: Env)
    requires Witnessed(s, e) && Inv(s, p)
    ensures Witnessed(Turn(s, p, e), e)
  {
    hide Inv, Filled, PolledAll, SessionsOf, LiveStarted, LogOk;
    var f := Filled(s, p, e);
    FilledKeeps(s, p, e);
    FilledWitnesses(s, p, e);
    AllTodo(f, p);
    LogOkLater(f.log, e, f.step, f.step + 1);
    PolledAllWitnesses(Slept(f, POLL, e), f.live, e);
  }

  lemma LogOkLater(log: seq<Line>, e: Env, step: nat, step': nat)
    requires LogOk(log, e, step) && step <= step'
    ensures LogOk(log, e, step')
  {
    hide RightlyLooked, StartedBy;
  }

  /** At every turn of every run each look's verdict is what it found. */
  lemma {:induction false} AfterWitnesses(s: State, p: Plan, e: Env, n: nat)
    requires Inv(s, p) && Witnessed(s, e)
    ensures Witnessed(After(s, p, e, n), e)
    decreases n
  {
    hide Inv, Turn, Filled, Witnessed;
    if n > 0 && |s.done| < |p.keys| {
      FilledWitnesses(s, p, e);
      TurnWitnesses(s, p, e);
      TurnKeeps(s, p, e);
      if !(p.dry && Filled(s, p, e).pending == []) {
        AfterWitnesses(Turn(s, p, e), p, e, n - 1);
      }
    }
  }

  lemma StartWitnesses(p: Plan, now: int, e: Env)
    ensures Witnessed(Start(p, now), e)
  {
    AlreadyLines(p.keys, p.ledger);
  }

  // What the stage returns.

  /** The look that ended the member's last session found its promise. */
  ghost predicate PromiseSeen(log: seq<Line>, e: Env, key: string) {
    var ends := Ends(log, key);
    ends != [] && ends[|ends| - 1].Looked? && e.look(ends[|ends| - 1].look).promised
  }

  lemma {:induction false} EndsAreLines(log: seq<Line>, key: string, i: nat) returns (j: nat)
    requires i < |Ends(log, key)|
    ensures j < |log| && log[j] == Ends(log, key)[i] && log[j].Looked?
  {
    var n := |log| - 1;
    if i < |Ends(log[..n], key)| {
      j := EndsAreLines(log[..n], key, i);
    } else {
      j := n;
    }
  }

  /** A look ends a session as promised exactly when it finds the promise. */
  lemma PromiseIsSeen(log: seq<Line>, e: Env, step: nat, key: string)
    requires LogOk(log, e, step)
    ensures LeftByPromise(log, key) <==> PromiseSeen(log, e, key)
  {
    hide Ends, LastStart;
    var ends := Ends(log, key);
    if ends != [] {
      var j := EndsAreLines(log, key, |ends| - 1);
      assert RightlyLooked(log, e, j);
    }
  }

  /** The member's last session ended by its promise. */
  ghost predicate LeftByPromise(log: seq<Line>, key: string) {
    var ends := Ends(log, key);
    ends != [] && ends[|ends| - 1].Looked? && ends[|ends| - 1].verdict == Promised
  }

  /** Every session started for the member was ended, in order, and there were at most two. */
  ghost predicate AllEnded(log: seq<Line>, key: string) {
    var starts, ends := Starts(log, key), Ends(log, key);
    && |starts| == |ends| <= 2
    && forall i :: 0 <= i < |ends| ==> ends[i].Looked? && ends[i].sid == starts[i]
  }

  lemma NoteOfKey(notes: seq<Note>, i: nat)
    requires i < |notes|
    ensures NotesOf(notes, notes[i].key) != []
    ensures forall j :: i < j < |notes| && notes[j].key == notes[i].key ==> |NotesOf(notes, notes[i].key)| >= 2
  {
    if i > 0 {
      NoteOfKey(notes[1..], i - 1);
    } else {
      forall j | 0 < j < |notes| && notes[j].key == notes[0].key ensures |NotesOf(notes, notes[0].key)| >= 2 {
        NoteOfKey(notes[1..], j - 1);
      }
    }
  }

  lemma KeyOfNote(notes: seq<Note>, key: string)
    requires NotesOf(notes, key) != []
    ensures exists i :: 0 <= i < |notes| && notes[i].key == key
  {
    if notes[0].key != key {
      KeyOfNote(notes[1..], key);
      var i :| 0 <= i < |notes[1..]| && notes[1..][i].key == key;
      assert notes[i + 1].key == key;
    }
  }

  ghost predicate AllDone(t: State, p: Plan) {
    forall key :: key in p.keys ==> key in t.done
  }

  lemma MemberOutcome(t: State, p: Plan, key: string)
    requires Inv(t, p) && AllDone(t, p) && !p.dry
    ensures AllEnded(t.log, key) && key !in t.pending && SessionsOf(t.live, key) == []
    ensures NotesOf(t.notes, key) != []
      <==> key in p.keys && key !in p.ledger && !LeftByPromise(t.log, key)
    ensures |NotesOf(t.notes, key)| <= 1
    ensures key in p.keys && key !in p.ledger ==> Starts(t.log, key) != []
  {
    hide Starts, Ends, NotesOf, SessionsOf;
    assert MemberOk(ViewOf(t, key), key in p.keys, key in p.ledger, p.dry);
    assert multiset(t.pending)[key] == 0;
    assert key in t.pending <==> key in multiset(t.pending);
  }

  lemma FirstIn(keys: seq<string>)
    ensures keys == [] || keys[0] in keys
  {
  }

  /** A stage that is over has no pending member and no session left running; it is ok exactly
      when every member not in the ledger left by its promise, and otherwise holds one note for
      each that did not. */
  lemma StageOutcome(t: State, p: Plan)
    requires Inv(t, p) && AllDone(t, p) && !p.dry
    ensures t.pending == [] && t.live == [] && forall key :: AllEnded(t.log, key)
    ensures t.notes == [] <==> forall key :: key in p.keys && key !in p.ledger ==> LeftByPromise(t.log, key)
    ensures |t.notes| == |set key | key in p.keys && key !in p.ledger && !LeftByPromise(t.log, key)|
  {
    hide Starts, Ends, NotesOf, SessionsOf, LeftByPromise, Inv;
    forall key
      ensures AllEnded(t.log, key) && key !in t.pending && SessionsOf(t.live, key) == []
      ensures NotesOf(t.notes, key) != [] <==> key in p.keys && key !in p.ledger && !LeftByPromise(t.log, key)
      ensures |NotesOf(t.notes, key)| <= 1
    {
      MemberOutcome(t, p, key);
    }
    FirstIn(t.pending);
    assert t.live == [] || t.live[0] in SessionsOf(t.live, t.live[0].key) by {
      if t.live != [] {
        SessionsContain(t.live, 0);
      }
    }
    var flagged := set key | key in p.keys && key !in p.ledger && !LeftByPromise(t.log, key);
    NotesCount(t.notes, flagged);
    if forall key :: key in p.keys && key !in p.ledger ==> LeftByPromise(t.log, key) {
      assert flagged == {};
    }
    if flagged == {} {
      forall key | key in p.keys && key !in p.ledger ensures LeftByPromise(t.log, key) {
        assert key !in flagged;
      }
    }
  }

  function KeysOf(notes: seq<Note>): (r: seq<string>)
    ensures |r| == |notes| && forall i :: 0 <= i < |notes| ==> r[i] == notes[i].key
  {
    if notes == [] then [] else [notes[0].key] + KeysOf(notes[1..])
  }

  lemma NotesCount(notes: seq<Note>, flagged: set<string>)
    requires forall key :: NotesOf(notes, key) != [] <==> key in flagged
    requires forall key :: |NotesOf(notes, key)| <= 1
    ensures |notes| == |flagged|
    ensures notes == [] <==> flagged == {}
  {
    hide NotesOf, KeysOf;
    var keys := KeysOf(notes);
    forall i, j | 0 <= i < j < |keys| ensures keys[i] != keys[j] {
      NoteOfKey(notes, i);
      assert |NotesOf(notes, notes[i].key)| <= 1;
    }
    forall key ensures key in keys <==> key in flagged {
      NotedKey(notes, key);
    }
    SetSize(keys);
    assert flagged == set key | key in keys;
  }

  lemma NotedKey(notes: seq<Note>, key: string)
    ensures key in KeysOf(notes) <==> NotesOf(notes, key) != []
  {
  }

  lemma DryEnds(s: State, p: Plan, e: Env)
    requires p.Valid() && Inv(s, p) && p.dry
    ensures var f := Filled(s, p, e);
      f.pending == [] && f.live == [] && f.notes == [] && f.sids == [] && AllDone(f, p)
  {
    hide Filled;
    FilledKeeps(s, p, e);
    var f := Filled(s, p, e);
    DryOutcome(f, p);
  }

  lemma DryOutcome(f: State, p: Plan)
    requires p.Valid() && Inv(f, p) && p.dry
    requires f.pending == [] || |f.live| == p.cap
    ensures f.pending == [] && f.live == [] && f.notes == [] && AllStarts(f.log) == [] && AllDone(f, p)
  {
    hide Starts, Ends, NotesOf, SessionsOf, AllStarts;
    forall key
      ensures SessionsOf(f.live, key) == [] && NotesOf(f.notes, key) == [] && Starts(f.log, key) == []
      ensures f.pending == [] && key in p.keys ==> key in f.done
    {
      assert MemberOk(ViewOf(f, key), key in p.keys, key in p.ledger, p.dry);
    }
    if f.live != [] {
      SessionsContain(f.live, 0);
    }
    if f.notes != [] {
      NoteOfKey(f.notes, 0);
    }
    NoStarts(f.log);
  }

  lemma NoStarts(log: seq<Line>)
    requires forall key :: Starts(log, key) == []
    ensures AllStarts(log) == []
  {
    if log != [] {
      var last, shorter := log[|log| - 1], log[..|log| - 1];
      assert Starts(log, last.key) == [];
      forall key ensures Starts(shorter, key) == [] {
        assert Starts(log, key) == [];
      }
      NoStarts(shorter);
    }
  }

  ghost function MaxTurns(p: Plan): nat {
    244 * |NotIn(p.keys, p.ledger)|
  }

  /** The state in which the stage ends. */
  ghost function Outcome(p: Plan, e: Env, now: int): State {
    After(Start(p, now), p, e, MaxTurns(p) + 1)
  }

  lemma StartTurns(p: Plan, now: int)
    ensures TurnsLeft(Start(p, now), p) == MaxTurns(p)
  {
    NoBegins(NotIn(p.keys, p.ledger), Start(p, now));
  }

  lemma NoBegins(keys: seq<string>, s: State)
    requires s.attempts == map[]
    ensures Begins(keys, s) == 0
  {
  }

  /** Takes the first pending member: adopts its running session or spawns one. */
  method StartMember(s: State, p: Plan, e: Env) returns (t: State)
    requires s.pending != []
    ensures t == FilledOne(s, p, e)
  {
    var k := s.pending[0];
    t := s.(pending := s.pending[1..]);
    if p.dry {
      t := t.(done := t.done + {k}, log := t.log + [WouldSpawn(k)]);
      return;
    }
    if t.live != [] && k in WRITES_CODE {
      t := Slept(t, BRANCH_WINDOW, e);
    }
    var sid, line;
    var asked := t.step;
    var existing := e.elsewhere(asked);
    t := Slept(t, 0, e);
    if existing.Some? {
      sid := existing.value;
      line := Adopted(k, sid, t.now, asked);
    } else {
      sid := e.spawned(t.step);
      t := Slept(t, 0, e);
      line := Spawned(k, sid, t.now, asked);
    }
    t := t.(live := t.live + [Session(k, sid, t.now)], attempts := t.attempts[k := Attempts(t, k) + 1]);
    t := t.(sids := t.sids + [sid], log := t.log + [line]);
  }

  /** Looks at one session, in the order of the source's branches. */
  method PollSession(s: State, x: Session, e: Env) returns (t: State)
    ensures t == Polled(s, x, e)
  {
    var look := e.look(s.step);
    t := s.(now := s.now + look.lag, step := s.step + 1);
    var age := t.now - x.t0;
    t := t.(now := t.now + look.lagAgain);
    var el := t.now - x.t0;
    var kept := WithoutKey(t.live, x.key);
    if look.promised {
      t := t.(log := t.log + [Looked(x.key, x.sid, Promised, s.step, t.now)]);
      t := t.(live := kept, done := t.done + {x.key});
      assert t.notes + [] == t.notes;
      return;
    }
    if look.posted && age > PROMISE_GRACE {
      t := t.(log := t.log + [Looked(x.key, x.sid, PostedOnly, s.step, t.now)]);
      t := t.(live := kept, done := t.done + {x.key}, notes := t.notes + [NoPromise(x.key)]);
      return;
    }
    if look.postedAgain {
      t := t.(log := t.log + [Looked(x.key, x.sid, PostedIdle, s.step, t.now)]);
      t := t.(live := kept, done := t.done + {x.key}, notes := t.notes + [NoPromise(x.key)]);
      return;
    }
    var wedged := if look.idle.Some? then look.idle.value > WEDGE_SECS else el > WEDGE_SECS && look.toolCalls == 0;
    if wedged {
      t := t.(live := kept, log := t.log + [Looked(x.key, x.sid, Wedged, s.step, t.now)]);
      if Attempts(t, x.key) < 2 {
        t := t.(pending := t.pending + [x.key]);
      } else {
        t := t.(notes := t.notes + [WedgedTwice(x.key)], done := t.done + {x.key});
      }
    } else if el > PHASE_TIMEOUT {
      t := t.(log := t.log + [Looked(x.key, x.sid, Overdue, s.step, t.now)]);
      t := t.(live := kept, done := t.done + {x.key}, notes := t.notes + [NoReport(x.key, el, look.toolCalls)]);
    } else {
      t := t.(log := t.log + [Looked(x.key, x.sid, Running, s.step, t.now)]);
    }
  }

  lemma FilledStep(s: State, p: Plan, e: Env)
    ensures s.pending != [] && |s.live| < p.cap ==>
      Filled(s, p, e) == Filled(FilledOne(s, p, e), p, e) && |FilledOne(s, p, e).pending| < |s.pending|
    ensures !(s.pending != [] && |s.live| < p.cap) ==> Filled(s, p, e) == s
  {
  }

  lemma AfterTurn(s: State, p: Plan, e: Env, n: nat)
    requires n > 0 && |s.done| < |p.keys|
    ensures var f := Filled(s, p, e);
      After(s, p, e, n) == if p.dry && f.pending == [] then f else After(Turn(s, p, e), p, e, n - 1)
  {
  }

  lemma StageOver(s: State, p: Plan, e: Env, n: nat)
    requires |s.done| >= |p.keys|
    ensures After(s, p, e, n) == s
  {
  }

  lemma InvSids(s: State, p: Plan)
    requires Inv(s, p)
    ensures s.sids == AllStarts(s.log)
  {
  }

  lemma StageWitnessed(p: Plan, e: Env, now: int)
    requires p.Valid()
    ensures LogOk(Outcome(p, e, now).log, e, Outcome(p, e, now).step)
  {
    hide Inv, LogOk, LiveStarted, After;
    StartOk(p, now);
    StartWitnesses(p, now, e);
    AfterWitnesses(Start(p, now), p, e, MaxTurns(p) + 1);
  }

  lemma SeenByAll(t: State, p: Plan, e: Env)
    ensures LogOk(t.log, e, t.step) ==>
      && (forall key :: LeftByPromise(t.log, key) <==> PromiseSeen(t.log, e, key))
      && (set key | key in p.keys && key !in p.ledger && !LeftByPromise(t.log, key))
        == (set key | key in p.keys && key !in p.ledger && !PromiseSeen(t.log, e, key))
  {
    hide LogOk, LeftByPromise, PromiseSeen;
    if LogOk(t.log, e, t.step) {
      forall key ensures LeftByPromise(t.log, key) <==> PromiseSeen(t.log, e, key) {
        PromiseIsSeen(t.log, e, t.step, key);
      }
    }
  }

  /** `run_stage`; `lines` is what it does. */
  method RunStage(p: Plan, e: Env, now: int) returns (ok: bool, notes: seq<Note>, sids: seq<string>, lines: seq<Line>)
    requires p.Valid()
    ensures var t := Outcome(p, e, now); notes == t.notes && sids == t.sids && lines == t.log
    ensures sids == AllStarts(lines)
    ensures p.dry ==> ok && sids == []
    ensures !p.dry ==> forall key :: AllEnded(lines, key)
    ensures LogOk(lines, e, Outcome(p, e, now).step)
    ensures !p.dry ==>
      (ok <==> forall key :: key in p.keys && key !in p.ledger ==> PromiseSeen(lines, e, key))
    ensures !p.dry ==>
      |notes| == |set key | key in p.keys && key !in p.ledger && !PromiseSeen(lines, e, key)|
  {
    hide After, Slept, TurnsLeft, Inv, Filled, FilledOne, Polled, NotIn, Already, Starts, Ends, AllStarts,
         LeftByPromise, PromiseSeen, AllEnded, MaxTurns, LogOk;
    var s := Start(p, now);
    StageWitnessed(p, e, now);
    ghost var left := MaxTurns(p) + 1;
    StartOk(p, now);
    StartTurns(p, now);
    while |s.done| < |p.keys|
      invariant 0 <= left && Inv(s, p) && TurnsLeft(s, p) < left
      invariant After(s, p, e, left) == Outcome(p, e, now)
      invariant p.dry ==> s.notes == [] && s.sids == []
      decreases left
    {
      ghost var top := s;
      TurnsLeftNat(top, p);
      AfterTurn(top, p, e, left);
      while s.pending != [] && |s.live| < p.cap
        invariant Filled(s, p, e) == Filled(top, p, e)
        decreases |s.pending|
      {
        FilledStep(s, p, e);
        s := StartMember(s, p, e);
      }
      FilledStep(s, p, e);
      if p.dry {
        DryEnds(top, p, e);
      }
      if p.dry && s.pending == [] {
        FilledKeeps(top, p, e);
        InvSids(s, p);
        return true, s.notes, s.sids, s.log;
      }
      var snapshot := s.live;
      s := Slept(s, POLL, e);
      for i := 0 to |snapshot|
        invariant PolledAll(s, snapshot[i..], e) == Turn(top, p, e)
      {
        assert snapshot[i..][0] == snapshot[i] && snapshot[i..][1..] == snapshot[i + 1..];
        s := PollSession(s, snapshot[i], e);
      }
      TurnWork(top, p, e);
      TurnKeeps(top, p, e);
      left := left - 1;
    }
    InvSids(s, p);
    NotAllDone(s, p);
    if !p.dry {
      StageOutcome(s, p);
      SeenByAll(s, p, e);
    }
    StageOver(s, p, e, left);
    ok, notes, sids, lines := s.notes == [], s.notes, s.sids, s.log;
  }
}
