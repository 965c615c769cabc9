/** Sending a request across a server restart: what is re-sent, how long, and how often the
    command behind it takes effect. */
module Resend {
  import opened Wrappers
  import Words

  const GAP_RETRY_FIRST_DELAY_MS := 250
  const GAP_RETRY_MAX_DELAY_MS := 5000
  const AGENT_GAP_RETRY_MS := 120000

  /** A catalog request: a read, or a command with the `clientMutationId` of its body. */
  datatype Request = Get | Command(mutationId: Option<string>)

  datatype Failure = Refused | Ambiguous

  /** What the world does to one attempt. `landed` says that a node processed the request. */
  datatype Fate =
    | ConnectRefused
    | Dropped(landed: bool)
    | DeadlinePassed(landed: bool)
    | Answered(success: bool, landed: bool, bodyArrives: bool)

  /** One attempt: its fate, how long it takes, and how much longer than asked the following sleep lasts. */
  datatype Attempt = Attempt(fate: Fate, duration: nat, oversleep: nat)

  datatype Result =
    | Success
    | HttpError
    | BodyLost(success: bool)
    | TimedOut
    | Unreachable(last: Failure)

  /** A node's durable state: the commands it applied, each under its id if it had one, and the
      ids its command ledger holds. */
  datatype Node = Node(applied: seq<Option<string>>, ledger: set<string>)

  /** The id the ledger keys on; an empty one is none. */
  function LedgerId(req: Request): Option<string> {
    if req.Command? && req.mutationId.Some? && req.mutationId.value != "" then req.mutationId else None
  }

  /** A node runs a request: reads change nothing, and a repeated id replays the stored result. */
  function Processed(n: Node, req: Request): Node {
    var id := LedgerId(req);
    if req.Get? || (id.Some? && id.value in n.ledger) then n
    else Node(n.applied + [id], if id.Some? then n.ledger + {id.value} else n.ledger)
  }

  function Landed(f: Fate): bool {
    match f
    case ConnectRefused => false
    case Dropped(landed) => landed
    case DeadlinePassed(landed) => landed
    case Answered(success, landed, _) => success || landed
  }

  function AfterAttempt(n: Node, req: Request, f: Fate): Node {
    if Landed(f) then Processed(n, req) else n
  }

  /** `mayResend` */
  predicate MayResend(req: Request, kind: Failure) {
    kind == Refused || req.Get? || LedgerId(req).Some?
  }

  function Min(a: int, b: int): int {
    if a <= b then a else b
  }

  /** How an invocation ends: the node's state, the report, and the delays slept on the way. */
  datatype Ending = Ending(node: Node, result: Result, delays: seq<int>)

  /** What follows an attempt: a report, or another attempt at a later time. */
  datatype Move = Stop(result: Result) | Again(at: int)

  function MoveAfter(req: Request, a: Attempt, now: int, deadline: int, delay: int): (m: Move)
    ensures m.Again? ==> now + delay <= m.at && now + delay <= deadline && MayResend(req, FailureOf(a.fate))
    ensures m.Again? ==> a.fate.ConnectRefused? || a.fate.Dropped?
  {
    match a.fate
    case Answered(success, _, bodyArrives) =>
      Stop(if !bodyArrives then BodyLost(success) else if success then Success else HttpError)
    case DeadlinePassed(_) => Stop(TimedOut)
    case _ =>
      if MayResend(req, FailureOf(a.fate)) && now + a.duration + delay <= deadline
      then Again(now + a.duration + delay + a.oversleep)
      else Stop(Unreachable(FailureOf(a.fate)))
  }

  /** `gapFailureKind`, for an attempt that failed before an answer. */
  function FailureOf(f: Fate): Failure {
    if f.ConnectRefused? then Refused else Ambiguous
  }

  function Delayed(delay: int, e: Ending): Ending {
    e.(delays := [delay] + e.delays)
  }

  /** The retry loop from attempt `k` on. */
  function Sending(n: Node, req: Request, sched: nat -> Attempt, k: nat, now: int, deadline: int, delay: int): Ending
    requires delay > 0
    decreases deadline - now
  {
    var n' := AfterAttempt(n, req, sched(k).fate);
    match MoveAfter(req, sched(k), now, deadline, delay)
    case Stop(result) => Ending(n', result, [])
    case Again(at) => Delayed(delay, Sending(n', req, sched, k + 1, at, deadline, Min(2 * delay, GAP_RETRY_MAX_DELAY_MS)))
  }

  function Sent(n: Node, req: Request, sched: nat -> Attempt, start: int, gapRetryMs: nat): Ending {
    Sending(n, req, sched, 0, start, start + gapRetryMs, GAP_RETRY_FIRST_DELAY_MS)
  }

  class Server {
    var applied: seq<Option<string>>
    var ledger: set<string>

    function State(): Node
      reads this
    {
      Node(applied, ledger)
    }

    constructor ()
      ensures State() == Node([], {})
    {
      applied, ledger := [], {};
    }

    /** A request reaches the node and runs to its commit or to its replay. */
    method Process(req: Request)
      modifies this
      ensures State() == Processed(old(State()), req)
    {
      var id := LedgerId(req);
      if req.Command? && !(id.Some? && id.value in ledger) {
        applied := applied + [id];
        if id.Some? {
          ledger := ledger + {id.value};
        }
      }
    }
  }

  /** The retry loop of `send`. */
  method Send(server: Server, req: Request, sched: nat -> Attempt, start: int, gapRetryMs: nat)
    returns (result: Result, delays: seq<int>)
    modifies server
    ensures Ending(server.State(), result, delays) == Sent(old(server.State()), req, sched, start, gapRetryMs)
  {
    hide AfterAttempt, MoveAfter, Sending, Delayed, After, Processed;
    NoDelayYet(Sent(server.State(), req, sched, start, gapRetryMs));
    var now := start;
    var deadline := now + gapRetryMs;
    var delay := GAP_RETRY_FIRST_DELAY_MS;
    var k := 0;
    delays := [];
    ghost var whole := Sent(server.State(), req, sched, start, gapRetryMs);
    while true
      invariant delay > 0 && k >= 0
      invariant whole == After(delays, Sending(server.State(), req, sched, k, now, deadline, delay))
      decreases deadline - now
    {
      var attempt := sched(k);
      ghost var before := server.State();
      if Landed(attempt.fate) {
        server.Process(req);
      }
      Attempted(before, server.State(), req, attempt, now, deadline, delay);
      SendingUnfolds(before, req, sched, k, now, deadline, delay, delays);
      now := now + attempt.duration;
      match attempt.fate {
        case Answered(success, _, bodyArrives) =>
          result := if !bodyArrives then BodyLost(success) else if success then Success else HttpError;
          return;
        case DeadlinePassed(_) =>
          result := TimedOut;
          return;
        case _ =>
          var kind := if attempt.fate.ConnectRefused? then Refused else Ambiguous;
          if !MayResend(req, kind) || now + delay > deadline {
            result := Unreachable(kind);
            return;
          }
          AfterDelay(delays, delay, Sending(server.State(), req, sched, k + 1, now + delay + attempt.oversleep, deadline,
                                            Min(2 * delay, GAP_RETRY_MAX_DELAY_MS)));
          delays := delays + [delay];
          now := now + delay + attempt.oversleep;
          delay := Min(delay * 2, GAP_RETRY_MAX_DELAY_MS);
          k := k + 1;
      }
    }
  }

  ghost function After(delays: seq<int>, e: Ending): Ending {
    e.(delays := delays + e.delays)
  }

  lemma NoDelayYet(e: Ending)
    ensures After([], e) == e
  {
  }

  lemma SendingUnfolds(
      n: Node, req: Request, sched: nat -> Attempt, k: nat, now: int, deadline: int, delay: int, delays: seq<int>)
    requires delay > 0
    ensures
      var n' := AfterAttempt(n, req, sched(k).fate);
      After(delays, Sending(n, req, sched, k, now, deadline, delay)) ==
        match MoveAfter(req, sched(k), now, deadline, delay) {
          case Stop(result) => Ending(n', result, delays)
          case Again(at) =>
            After(delays, Delayed(delay, Sending(n', req, sched, k + 1, at, deadline, Min(2 * delay, GAP_RETRY_MAX_DELAY_MS))))
        }
  {
  }

  lemma AfterDelay(delays: seq<int>, delay: int, e: Ending)
    ensures After(delays, Delayed(delay, e)) == After(delays + [delay], e)
  {
    assert delays + ([delay] + e.delays) == delays + [delay] + e.delays;
  }

  /** The body of the loop does what the specification's step says. */
  lemma Attempted(n: Node, n': Node, req: Request, a: Attempt, now: int, deadline: int, delay: int)
    requires n' == if Landed(a.fate) then Processed(n, req) else n
    ensures n' == AfterAttempt(n, req, a.fate)
    ensures MoveAfter(req, a, now, deadline, delay) ==
      match a.fate {
        case Answered(success, _, bodyArrives) =>
          Stop(if !bodyArrives then BodyLost(success) else if success then Success else HttpError)
        case DeadlinePassed(_) => Stop(TimedOut)
        case _ =>
          var kind := if a.fate.ConnectRefused? then Refused else Ambiguous;
          if !MayResend(req, kind) || now + a.duration + delay > deadline then Stop(Unreachable(kind))
          else Again(now + a.duration + delay + a.oversleep)
      }
  {
  }

  // At most once.

  function Count(applied: seq<Option<string>>, id: Option<string>): nat {
    if applied == [] then 0
    else Count(applied[..|applied| - 1], id) + if applied[|applied| - 1] == id then 1 else 0
  }

  /** The ledger holds exactly the ids applied, and each was applied once. */
  ghost predicate LedgerExact(n: Node) {
    forall id: string :: Count(n.applied, Some(id)) == if id in n.ledger then 1 else 0
  }

  lemma ProcessedOnce(n: Node, req: Request)
    requires LedgerExact(n)
    ensures LedgerExact(Processed(n, req))
    ensures |n.applied| <= |Processed(n, req).applied| <= |n.applied| + 1
    ensures LedgerId(req).Some? && req.Command? ==> LedgerId(req).value in Processed(n, req).ledger
  {
    var n' := Processed(n, req);
    if n' != n {
      assert n'.applied[..|n.applied|] == n.applied;
    }
  }

  /** What one invocation can do to a node, whatever the schedule. */
  lemma {:induction false} SendingEffect(
      n: Node, req: Request, sched: nat -> Attempt, k: nat, now: int, deadline: int, delay: int)
    requires delay > 0 && LedgerExact(n)
    ensures var e := Sending(n, req, sched, k, now, deadline, delay);
      && LedgerExact(e.node)
      && |n.applied| <= |e.node.applied| <= |n.applied| + 1
      && (req.Get? ==> e.node == n)
      && (LedgerId(req).Some? && LedgerId(req).value in n.ledger ==> e.node == n)
      && (e.result == Success || e.result == BodyLost(true) ==>
            req.Get? || (if LedgerId(req).Some? then LedgerId(req).value in e.node.ledger
                         else |e.node.applied| == |n.applied| + 1))
    decreases deadline - now
  {
    hide LedgerExact;
    var n' := AfterAttempt(n, req, sched(k).fate);
    ProcessedOnce(n, req);
    match MoveAfter(req, sched(k), now, deadline, delay)
    case Stop(_) =>
    case Again(at) =>
      SendingEffect(n', req, sched, k + 1, at, deadline, Min(2 * delay, GAP_RETRY_MAX_DELAY_MS));
  }

  /** One invocation applies its command at most once, and exactly once when it reports a 2xx. */
  lemma AtMostOnce(n: Node, req: Request, sched: nat -> Attempt, start: int, gapRetryMs: nat)
    requires LedgerExact(n)
    ensures var e := Sent(n, req, sched, start, gapRetryMs);
      && LedgerExact(e.node)
      && |n.applied| <= |e.node.applied| <= |n.applied| + 1
      && (req.Get? ==> e.node == n)
      && (e.result == Success || e.result == BodyLost(true) ==>
            req.Get? ||
            (if LedgerId(req).Some? then Count(e.node.applied, LedgerId(req)) == 1
             else |e.node.applied| == |n.applied| + 1))
  {
    SendingEffect(n, req, sched, 0, start, start + gapRetryMs, GAP_RETRY_FIRST_DELAY_MS);
    if LedgerId(req).Some? {
      assert Some(LedgerId(req).value) == LedgerId(req);
    }
  }

  /** When every attempt was refused, nothing was applied. */
  lemma {:induction false} RefusalsApplyNothing(
      n: Node, req: Request, sched: nat -> Attempt, k: nat, now: int, deadline: int, delay: int)
    requires delay > 0
    requires var m := |Sending(n, req, sched, k, now, deadline, delay).delays|;
      forall i :: k <= i <= k + m ==> sched(i).fate.ConnectRefused?
    ensures var e := Sending(n, req, sched, k, now, deadline, delay); e.node == n && e.result == Unreachable(Refused)
    decreases deadline - now
  {
    match MoveAfter(req, sched(k), now, deadline, delay)
    case Stop(_) =>
    case Again(at) =>
      RefusalsApplyNothing(n, req, sched, k + 1, at, deadline, Min(2 * delay, GAP_RETRY_MAX_DELAY_MS));
  }

  /** A command without an id stops at its first ambiguous failure. */
  lemma {:induction false} NoIdNoAmbiguousResend(
      n: Node, req: Request, sched: nat -> Attempt, k: nat, now: int, deadline: int, delay: int)
    requires delay > 0 && req.Command? && LedgerId(req).None?
    ensures var m := |Sending(n, req, sched, k, now, deadline, delay).delays|;
      forall i :: k <= i < k + m ==> sched(i).fate.ConnectRefused?
    decreases deadline - now
  {
    var n' := AfterAttempt(n, req, sched(k).fate);
    match MoveAfter(req, sched(k), now, deadline, delay)
    case Stop(_) =>
    case Again(at) =>
      NoIdNoAmbiguousResend(n', req, sched, k + 1, at, deadline, Min(2 * delay, GAP_RETRY_MAX_DELAY_MS));
  }

  // Many invocations, and the ledger's time to live.

  /** A later invocation (a re-run of a printed replay command included), or the expiry of a
      ledger row. */
  datatype Happening =
    | Invocation(req: Request, sched: nat -> Attempt, start: int, gapRetryMs: nat)
    | Expiry(id: string)

  function Happened(n: Node, h: Happening): Node {
    match h
    case Invocation(req, sched, start, gapRetryMs) => Sent(n, req, sched, start, gapRetryMs).node
    case Expiry(id) => n.(ledger := n.ledger - {id})
  }

  function AllHappened(n: Node, hs: seq<Happening>): Node {
    if hs == [] then n else Happened(AllHappened(n, hs[..|hs| - 1]), hs[|hs| - 1])
  }

  function Expiries(hs: seq<Happening>, id: string): nat {
    if hs == [] then 0
    else Expiries(hs[..|hs| - 1], id) + if hs[|hs| - 1] == Expiry(id) then 1 else 0
  }

  /** One more application than ledger rows lost, and not even that while the row is present. */
  ghost predicate Bounded(n: Node, id: string, lost: nat) {
    Count(n.applied, Some(id)) <= lost + if id in n.ledger then 1 else 0
  }

  lemma ProcessedBounded(n: Node, req: Request, id: string, lost: nat)
    requires Bounded(n, id, lost)
    ensures Bounded(Processed(n, req), id, lost)
  {
    var n' := Processed(n, req);
    if n' != n {
      assert n'.applied[..|n.applied|] == n.applied;
    }
  }

  lemma {:induction false} SendingBounded(
      n: Node, req: Request, sched: nat -> Attempt, k: nat, now: int, deadline: int, delay: int, id: string, lost: nat)
    requires delay > 0 && Bounded(n, id, lost)
    ensures Bounded(Sending(n, req, sched, k, now, deadline, delay).node, id, lost)
    decreases deadline - now
  {
    hide Bounded, Processed;
    ProcessedBounded(n, req, id, lost);
    match MoveAfter(req, sched(k), now, deadline, delay)
    case Stop(_) =>
    case Again(at) =>
      SendingBounded(AfterAttempt(n, req, sched(k).fate), req, sched, k + 1, at, deadline,
                     Min(2 * delay, GAP_RETRY_MAX_DELAY_MS), id, lost);
  }

  /** Over any run of invocations, with any ids, schedules and interleaving, a command is applied
      at most once more than its ledger row expired; so at most once while the row lives. */
  lemma {:induction false} RunAppliesAtMostOnce(hs: seq<Happening>, id: string)
    ensures Bounded(AllHappened(Node([], {}), hs), id, Expiries(hs, id))
    ensures Count(AllHappened(Node([], {}), hs).applied, Some(id)) <= 1 + Expiries(hs, id)
  {
    hide Sending;
    if hs != [] {
      RunAppliesAtMostOnce(hs[..|hs| - 1], id);
      var n := AllHappened(Node([], {}), hs[..|hs| - 1]);
      match hs[|hs| - 1]
      case Invocation(req, sched, start, gapRetryMs) =>
        SendingBounded(n, req, sched, 0, start, start + gapRetryMs, GAP_RETRY_FIRST_DELAY_MS, id,
                       Expiries(hs[..|hs| - 1], id));
      case Expiry(_) =>
    }
  }

  // When a command is applied more than once.

  /** Some attempt of the invocation reaches a node. */
  ghost predicate Lands(req: Request, sched: nat -> Attempt, k: nat, now: int, deadline: int, delay: int)
    requires delay > 0
    decreases deadline - now
  {
    Landed(sched(k).fate)
    || match MoveAfter(req, sched(k), now, deadline, delay) {
      case Stop(_) => false
      case Again(at) => Lands(req, sched, k + 1, at, deadline, Min(2 * delay, GAP_RETRY_MAX_DELAY_MS))
    }
  }

  lemma ProcessedTwice(n: Node, req: Request)
    requires req.Get? || LedgerId(req).Some?
    ensures Processed(Processed(n, req), req) == Processed(n, req)
  {
  }

  /** However often an invocation sends its request, it is processed once or not at all. */
  lemma {:induction false} SendingProcesses(
      n: Node, req: Request, sched: nat -> Attempt, k: nat, now: int, deadline: int, delay: int)
    requires delay > 0
    ensures Sending(n, req, sched, k, now, deadline, delay).node
         == if Lands(req, sched, k, now, deadline, delay) then Processed(n, req) else n
    decreases deadline - now
  {
    hide Processed, LedgerId;
    match MoveAfter(req, sched(k), now, deadline, delay)
    case Stop(_) =>
    case Again(at) =>
      SendingProcesses(AfterAttempt(n, req, sched(k).fate), req, sched, k + 1, at, deadline,
                       Min(2 * delay, GAP_RETRY_MAX_DELAY_MS));
      if Landed(sched(k).fate) {
        ProcessedTwice(n, req);
      }
  }

  /** An invocation of the command with this id that reaches a node. */
  ghost predicate Delivers(h: Happening, id: string) {
    && h.Invocation? && LedgerId(h.req) == Some(id)
    && Lands(h.req, h.sched, 0, h.start, h.start + h.gapRetryMs, GAP_RETRY_FIRST_DELAY_MS)
  }

  lemma HappenedEffect(n: Node, h: Happening, id: string)
    requires id != ""
    ensures var n' := Happened(n, h);
      if Delivers(h, id) then
        id in n'.ledger && Count(n'.applied, Some(id)) == Count(n.applied, Some(id)) + if id in n.ledger then 0 else 1
      else
        Count(n'.applied, Some(id)) == Count(n.applied, Some(id)) && (id in n'.ledger <==> id in n.ledger && h != Expiry(id))
  {
    hide Sending, Lands;
    if h.Invocation? {
      SendingProcesses(n, h.req, h.sched, 0, h.start, h.start + h.gapRetryMs, GAP_RETRY_FIRST_DELAY_MS);
      CountNext(n.applied, LedgerId(h.req), Some(id));
    }
  }

  /** Delivered at i, and the ledger row is still there after all of `hs`. */
  ghost predicate AliveSince(hs: seq<Happening>, id: string, i: nat) {
    i < |hs| && Delivers(hs[i], id) && forall j :: i < j < |hs| ==> hs[j] != Expiry(id)
  }

  ghost predicate LostAt(hs: seq<Happening>, id: string, i: nat, j: nat) {
    i < j < |hs| && Delivers(hs[i], id) && hs[j] == Expiry(id)
  }

  /** Delivered, expired, and delivered again. */
  ghost predicate Redelivered(hs: seq<Happening>, id: string) {
    exists i: nat, j: nat, k: nat :: LostAt(hs, id, i, j) && j < k < |hs| && Delivers(hs[k], id)
  }

  /** What the ledger and the applications say of the past. */
  ghost predicate Remembers(n: Node, hs: seq<Happening>, id: string) {
    && (id in n.ledger <==> exists i: nat :: AliveSince(hs, id, i))
    && (Count(n.applied, Some(id)) == 0 <==> forall i: nat :: i < |hs| ==> !Delivers(hs[i], id))
    && (Count(n.applied, Some(id)) <= 1 <==> !Redelivered(hs, id))
  }

  lemma NextAlive(hs: seq<Happening>, h: Happening, id: string)
    ensures (exists i: nat :: AliveSince(hs + [h], id, i))
      <==> Delivers(h, id) || (h != Expiry(id) && exists i: nat :: AliveSince(hs, id, i))
  {
    hide Delivers;
    var more := hs + [h];
    assert more[|hs|] == h && forall i :: 0 <= i < |hs| ==> more[i] == hs[i];
    if Delivers(h, id) {
      assert AliveSince(more, id, |hs|);
    }
    if i: nat :| AliveSince(hs, id, i) && h != Expiry(id) {
      assert AliveSince(more, id, i);
    }
    if i: nat :| AliveSince(more, id, i) && i < |hs| {
      assert AliveSince(hs, id, i);
      assert more[|hs|] != Expiry(id);
    }
  }

  lemma NextRedelivered(hs: seq<Happening>, h: Happening, id: string)
    ensures Redelivered(hs + [h], id)
      <==> Redelivered(hs, id) || (Delivers(h, id) && exists i: nat, j: nat :: LostAt(hs, id, i, j))
  {
    hide Delivers;
    var more := hs + [h];
    assert more[|hs|] == h && forall i :: 0 <= i < |hs| ==> more[i] == hs[i];
    if i: nat, j: nat, k: nat :| LostAt(more, id, i, j) && j < k < |more| && Delivers(more[k], id) {
      assert LostAt(hs, id, i, j);
    }
    if i: nat, j: nat :| LostAt(hs, id, i, j) && Delivers(h, id) {
      assert LostAt(more, id, i, j) && Delivers(more[|hs|], id);
    }
    if i: nat, j: nat, k: nat :| LostAt(hs, id, i, j) && j < k < |hs| && Delivers(hs[k], id) {
      assert LostAt(more, id, i, j) && Delivers(more[k], id);
    }
  }

  /** A row delivered is there or was lost; both only when it was delivered again. */
  lemma AliveOrLost(hs: seq<Happening>, id: string)
    ensures (exists i: nat :: i < |hs| && Delivers(hs[i], id))
      <==> (exists i: nat :: AliveSince(hs, id, i)) || (exists i: nat, j: nat :: LostAt(hs, id, i, j))
    ensures (exists i: nat :: AliveSince(hs, id, i)) && (exists i: nat, j: nat :: LostAt(hs, id, i, j))
      ==> Redelivered(hs, id)
  {
    hide Delivers;
    if i: nat :| i < |hs| && Delivers(hs[i], id) {
      if j: nat :| i < j < |hs| && hs[j] == Expiry(id) {
        assert LostAt(hs, id, i, j);
      } else {
        assert AliveSince(hs, id, i);
      }
    }
    if a: nat, i: nat, j: nat :| AliveSince(hs, id, a) && LostAt(hs, id, i, j) {
      assert j < a by {
        assert hs[a] != hs[j] by { DeliversIsNoExpiry(hs[a], id); }
      }
    }
  }

  lemma DeliversIsNoExpiry(h: Happening, id: string)
    ensures Delivers(h, id) ==> h != Expiry(id)
  {
  }

  lemma {:induction false} RunRemembers(hs: seq<Happening>, id: string)
    requires id != ""
    ensures Remembers(AllHappened(Node([], {}), hs), hs, id)
  {
    hide Delivers, Happened, AliveSince, LostAt, Redelivered, Count;
    if hs == [] {
      NothingRemembered(id);
    } else {
      var before, h := hs[..|hs| - 1], hs[|hs| - 1];
      assert hs == before + [h];
      RunRemembers(before, id);
      NextRemembers(AllHappened(Node([], {}), before), before, h, id);
    }
  }

  lemma NothingRemembered(id: string)
    ensures Remembers(Node([], {}), [], id)
  {
    hide Delivers;
  }

  lemma NextRemembers(n: Node, hs: seq<Happening>, h: Happening, id: string)
    requires id != "" && Remembers(n, hs, id)
    ensures Remembers(Happened(n, h), hs + [h], id)
  {
    hide Delivers, Happened, AliveSince, LostAt, Redelivered, Count;
    HappenedEffect(n, h, id);
    NextAlive(hs, h, id);
    NextRedelivered(hs, h, id);
    AliveOrLost(hs, id);
    DeliversIsNoExpiry(h, id);
    var more := hs + [h];
    assert more[|hs|] == h && forall i :: 0 <= i < |hs| ==> more[i] == hs[i];
  }

  /** Over any run, a command is applied at most once if and only if it is not delivered, its
      ledger row lost, and the command delivered again. */
  lemma AppliedOnceExactly(hs: seq<Happening>, id: string)
    requires id != ""
    ensures Count(AllHappened(Node([], {}), hs).applied, Some(id)) <= 1
      <==> !exists i: nat, j: nat, k: nat ::
             i < j < k < |hs| && Delivers(hs[i], id) && hs[j] == Expiry(id) && Delivers(hs[k], id)
  {
    hide Delivers, AllHappened, Count;
    RunRemembers(hs, id);
    if i: nat, j: nat, k: nat :|
      i < j < k < |hs| && Delivers(hs[i], id) && hs[j] == Expiry(id) && Delivers(hs[k], id)
    {
      assert LostAt(hs, id, i, j);
    }
  }

  lemma AllHappenedNext(n: Node, hs: seq<Happening>, h: Happening)
    ensures AllHappened(n, hs + [h]) == Happened(AllHappened(n, hs), h)
  {
    assert (hs + [h])[..|hs|] == hs;
  }

  lemma CountNext(applied: seq<Option<string>>, x: Option<string>, id: Option<string>)
    ensures Count(applied + [x], id) == Count(applied, id) + if x == id then 1 else 0
  {
    assert (applied + [x])[..|applied|] == applied;
  }

  /** A command answered at once: applied when its id is not in the ledger. */
  function Answer(id: string): Happening {
    Invocation(Command(Some(id)), k => Attempt(Answered(true, true, true), 0, 0), 0, 0)
  }

  lemma AnswerApplies(n: Node, id: string)
    requires id != "" && id !in n.ledger
    ensures Happened(n, Answer(id)) == Node(n.applied + [Some(id)], n.ledger + {id})
  {
    assert LedgerId(Command(Some(id))) == Some(id);
  }

  /** Past the ledger's time to live the replay command applies a second time. */
  lemma ReplayAfterExpiry(id: string)
    requires id != ""
    ensures Count(AllHappened(Node([], {}), [] + [Answer(id)] + [Expiry(id)] + [Answer(id)]).applied, Some(id)) == 2
  {
    hide AllHappened, Sent, Count, Answer;
    var n0, h := Node([], {}), Answer(id);
    AllHappenedNext(n0, [], h);
    AllHappenedNext(n0, [] + [h], Expiry(id));
    AllHappenedNext(n0, [] + [h] + [Expiry(id)], h);
    assert AllHappened(n0, []) == n0 by { NothingHappened(n0); }
    AnswerApplies(n0, id);
    var n2 := AllHappened(n0, [] + [h] + [Expiry(id)]);
    assert n2.applied == [] + [Some(id)] && id !in n2.ledger;
    AnswerApplies(n2, id);
    CountNext([], Some(id), Some(id));
    CountNext([] + [Some(id)], Some(id), Some(id));
    CountNothing(Some(id));
  }

  lemma NothingHappened(n: Node)
    ensures AllHappened(n, []) == n
  {
  }

  lemma CountNothing(id: Option<string>)
    ensures Count([], id) == 0
  {
  }

  // The retry window.

  /** The `k`-th delay of the doubling sequence. */
  function DelayAt(k: nat): (d: int)
    ensures 0 < d <= GAP_RETRY_MAX_DELAY_MS
  {
    if k == 0 then GAP_RETRY_FIRST_DELAY_MS else Min(2 * DelayAt(k - 1), GAP_RETRY_MAX_DELAY_MS)
  }

  /** It is min(250 * 2^k, 5000). */
  lemma {:induction false} DelayClosedForm(k: nat)
    ensures DelayAt(k) == Min(GAP_RETRY_FIRST_DELAY_MS * Words.Pow2(k), GAP_RETRY_MAX_DELAY_MS)
  {
    if k > 0 {
      DelayClosedForm(k - 1);
    }
  }

  function Sum(s: seq<int>): int {
    if s == [] then 0 else s[0] + Sum(s[1..])
  }

  lemma {:induction false} DelaysFollow(
      n: Node, req: Request, sched: nat -> Attempt, k: nat, now: int, deadline: int)
    requires now <= deadline
    ensures var ds := Sending(n, req, sched, k, now, deadline, DelayAt(k)).delays;
      && (forall i :: 0 <= i < |ds| ==> ds[i] == DelayAt(k + i))
      && Sum(ds) <= deadline - now
    decreases deadline - now
  {
    hide AfterAttempt, MoveAfter;
    match MoveAfter(req, sched(k), now, deadline, DelayAt(k))
    case Stop(_) =>
    case Again(at) =>
      var n' := AfterAttempt(n, req, sched(k).fate);
      var rest := Sending(n', req, sched, k + 1, at, deadline, DelayAt(k + 1)).delays;
      if at <= deadline {
        DelaysFollow(n', req, sched, k + 1, at, deadline);
      } else {
        LateAttempt(n', req, sched, k + 1, at, deadline, DelayAt(k + 1));
      }
      var ds := [DelayAt(k)] + rest;
      assert ds == Sending(n, req, sched, k, now, deadline, DelayAt(k)).delays;
      assert ds[1..] == rest;
      forall i | 0 <= i < |ds|
        ensures ds[i] == DelayAt(k + i)
      {
        assert i > 0 ==> ds[i] == rest[i - 1] == DelayAt(k + 1 + (i - 1));
      }
  }

  /** An attempt that starts after the window is the last one. */
  lemma LateAttempt(n: Node, req: Request, sched: nat -> Attempt, k: nat, now: int, deadline: int, delay: int)
    requires delay > 0 && now > deadline
    ensures Sending(n, req, sched, k, now, deadline, delay).delays == []
  {
  }

  /** The delays of an invocation are the doubling sequence capped at five seconds, and they sum
      to at most the window. */
  lemma RetryWindow(n: Node, req: Request, sched: nat -> Attempt, start: int, gapRetryMs: nat)
    ensures var ds := Sent(n, req, sched, start, gapRetryMs).delays;
      && (forall i :: 0 <= i < |ds| ==> ds[i] == Min(GAP_RETRY_FIRST_DELAY_MS * Words.Pow2(i), GAP_RETRY_MAX_DELAY_MS))
      && Sum(ds) <= gapRetryMs
      && (gapRetryMs <= AGENT_GAP_RETRY_MS ==> |ds| <= 27)
  {
    DelaysFollow(n, req, sched, 0, start, start + gapRetryMs);
    var ds := Sent(n, req, sched, start, gapRetryMs).delays;
    forall i | 0 <= i < |ds|
      ensures ds[i] == Min(GAP_RETRY_FIRST_DELAY_MS * Words.Pow2(i), GAP_RETRY_MAX_DELAY_MS)
    {
      DelayClosedForm(i);
      assert ds[i] == DelayAt(0 + i);
    }
    SumOfDelays(ds, 0);
  }

  /** A lower bound for the sum of consecutive delays. */
  lemma {:induction false} SumOfDelays(ds: seq<int>, k: nat)
    requires forall i :: 0 <= i < |ds| ==> ds[i] == DelayAt(k + i)
    ensures Sum(ds) >= 5000 * |ds| - Shortfall(k)
  {
    if ds != [] {
      forall i | 0 <= i < |ds[1..]|
        ensures ds[1..][i] == DelayAt(k + 1 + i)
      {
        assert ds[1..][i] == ds[i + 1];
      }
      SumOfDelays(ds[1..], k + 1);
      ShortfallStep(k);
    }
  }

  /** How far the delays from the `k`-th on fall short of five seconds, in all. */
  function Shortfall(k: nat): int {
    if k == 0 then 17250 else if k == 1 then 12500 else if k == 2 then 8000 else if k == 3 then 4000
    else if k == 4 then 1000 else 0
  }

  lemma ShortfallStep(k: nat)
    ensures DelayAt(k) - Shortfall(k + 1) >= 5000 - Shortfall(k)
  {
    assert DelayAt(0) == 250 && DelayAt(1) == 500 && DelayAt(2) == 1000 && DelayAt(3) == 2000 && DelayAt(4) == 4000;
    if k >= 5 {
      LongDelay(k);
    }
  }

  lemma {:induction false} LongDelay(k: nat)
    requires k >= 5
    ensures DelayAt(k) == 5000
  {
    if k > 5 {
      LongDelay(k - 1);
    } else {
      assert DelayAt(4) == 4000;
    }
  }

  // What is sent again, and what is reported.

  /** When attempt i starts: each earlier one took its time, and the sleep after it its delay and
      maybe more. */
  function TimeAt(sched: nat -> Attempt, start: int, i: nat): int {
    if i == 0 then start
    else TimeAt(sched, start, i - 1) + sched(i - 1).duration + DelayAt(i - 1) + sched(i - 1).oversleep
  }

  /** A refused connect may be sent again by anyone; a connection that broke later only by a read, or
      by a command whose id the ledger knows. */
  ghost predicate SafeAgain(req: Request, fate: Fate) {
    fate == ConnectRefused
    || ((fate == Dropped(true) || fate == Dropped(false))
        && (req == Get || exists id: string :: id != "" && req == Command(Some(id))))
  }

  /** After attempt i there is another: it is safe, and its delay fits in the window. */
  ghost predicate GoesOn(req: Request, sched: nat -> Attempt, start: int, window: nat, i: nat) {
    && SafeAgain(req, sched(i).fate)
    && TimeAt(sched, start, i) + sched(i).duration + DelayAt(i) <= start + window
  }

  /** What a last attempt is reported as. */
  function Report(fate: Fate): Result {
    match fate
    case ConnectRefused => Unreachable(Refused)
    case Dropped(_) => Unreachable(Ambiguous)
    case DeadlinePassed(_) => TimedOut
    case Answered(success, _, arrives) => if arrives then (if success then Success else HttpError) else BodyLost(success)
  }

  /** The attempts from k on go on up to the last, which does not. */
  ghost predicate StopsAt(req: Request, sched: nat -> Attempt, start: int, window: nat, k: nat, m: nat) {
    && k <= m && !GoesOn(req, sched, start, window, m)
    && forall i :: k <= i < m ==> GoesOn(req, sched, start, window, i)
  }

  lemma MovesOn(req: Request, sched: nat -> Attempt, start: int, window: nat, k: nat)
    ensures var move := MoveAfter(req, sched(k), TimeAt(sched, start, k), start + window, DelayAt(k));
      if GoesOn(req, sched, start, window, k) then move == Again(TimeAt(sched, start, k + 1))
      else move == Stop(Report(sched(k).fate))
  {
    hide DelayAt;
    if req.Command? && req.mutationId.Some? {
      assert req == Command(Some(req.mutationId.value));
    }
  }

  lemma {:induction false} SendingStops(n: Node, req: Request, sched: nat -> Attempt, start: int, window: nat, k: nat)
    ensures var e := Sending(n, req, sched, k, TimeAt(sched, start, k), start + window, DelayAt(k));
      StopsAt(req, sched, start, window, k, k + |e.delays|) && e.result == Report(sched(k + |e.delays|).fate)
    decreases start + window - TimeAt(sched, start, k)
  {
    hide AfterAttempt, MoveAfter, GoesOn, Report;
    MovesOn(req, sched, start, window, k);
    if GoesOn(req, sched, start, window, k) {
      LaterStart(req, sched, start, window, k);
      SendingStops(AfterAttempt(n, req, sched(k).fate), req, sched, start, window, k + 1);
    }
  }

  lemma LaterStart(req: Request, sched: nat -> Attempt, start: int, window: nat, k: nat)
    requires GoesOn(req, sched, start, window, k)
    ensures TimeAt(sched, start, k + 1) > TimeAt(sched, start, k)
    ensures TimeAt(sched, start, k) <= start + window
  {
  }

  /** An invocation sends again after exactly the attempts after which that is safe and fits in the
      window, and reports its last attempt. */
  lemma SendsAgainExactly(n: Node, req: Request, sched: nat -> Attempt, start: int, gapRetryMs: nat)
    ensures var e := Sent(n, req, sched, start, gapRetryMs);
      StopsAt(req, sched, start, gapRetryMs, 0, |e.delays|) && e.result == Report(sched(|e.delays|).fate)
  {
    hide Sending, StopsAt, Report;
    SendingStops(n, req, sched, start, gapRetryMs, 0);
  }

  /** So a request that may be sent again gets through: refused or dropped m times with every delay
      in the window and then answered, it has that answer's result after m delays. A command without
      an id gets through refused connects. */
  lemma GetsThrough(n: Node, req: Request, sched: nat -> Attempt, start: int, gapRetryMs: nat, m: nat)
    requires sched(m).fate.Answered?
    requires forall i :: 0 <= i < m ==>
      && (sched(i).fate == ConnectRefused
          || ((req == Get || exists id: string :: id != "" && req == Command(Some(id)))
              && (sched(i).fate == Dropped(true) || sched(i).fate == Dropped(false))))
      && TimeAt(sched, start, i) + sched(i).duration + DelayAt(i) <= start + gapRetryMs
    ensures var e := Sent(n, req, sched, start, gapRetryMs);
      |e.delays| == m && e.result == Report(sched(m).fate)
  {
    hide Sent, TimeAt, DelayAt;
    SendsAgainExactly(n, req, sched, start, gapRetryMs);
    forall i | 0 <= i < m ensures GoesOn(req, sched, start, gapRetryMs, i) {
    }
    assert !GoesOn(req, sched, start, gapRetryMs, m);
  }

  /** A node sees the attempt. */
  ghost predicate Reaches(fate: Fate) {
    || fate == Dropped(true) || fate == DeadlinePassed(true)
    || (fate.Answered? && (fate.success || fate.landed))
  }

  lemma {:induction false} LandsFrom(n: Node, req: Request, sched: nat -> Attempt, start: int, window: nat, k: nat)
    ensures var e := Sending(n, req, sched, k, TimeAt(sched, start, k), start + window, DelayAt(k));
      Lands(req, sched, k, TimeAt(sched, start, k), start + window, DelayAt(k))
      <==> exists i :: k <= i <= k + |e.delays| && Reaches(sched(i).fate)
    decreases start + window - TimeAt(sched, start, k)
  {
    hide AfterAttempt, MoveAfter, GoesOn, Report, Reaches, Landed;
    MovesOn(req, sched, start, window, k);
    ReachesNode(sched(k).fate);
    if GoesOn(req, sched, start, window, k) {
      LaterStart(req, sched, start, window, k);
      LandsFrom(AfterAttempt(n, req, sched(k).fate), req, sched, start, window, k + 1);
    }
  }

  lemma ReachesNode(fate: Fate)
    ensures Landed(fate) <==> Reaches(fate)
  {
  }

  /** The command of an invocation is delivered exactly when one of its attempts reaches a node. */
  lemma DeliversExactly(h: Happening, id: string, n: Node)
    requires h.Invocation? && id != ""
    ensures Delivers(h, id)
      <==> (h.req == Command(Some(id))
            && exists i :: 0 <= i <= |Sent(n, h.req, h.sched, h.start, h.gapRetryMs).delays| && Reaches(h.sched(i).fate))
  {
    hide Sending, Lands, Reaches;
    LandsFrom(n, h.req, h.sched, h.start, h.gapRetryMs, 0);
  }

  /** What a node does with a request that reaches it. */
  lemma ProcessedExactly(n: Node, id: string)
    ensures Processed(n, Get) == n
    ensures Processed(n, Command(None)) == n.(applied := n.applied + [None])
    ensures id in n.ledger && id != "" ==> Processed(n, Command(Some(id))) == n
    ensures id !in n.ledger && id != "" ==>
      Processed(n, Command(Some(id))) == Node(n.applied + [Some(id)], n.ledger + {id})
    ensures Processed(n, Command(Some(""))) == n.(applied := n.applied + [None])
  {
  }
}
