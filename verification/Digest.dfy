/** The space digest: a bounded walk over the event feed that must not depend on where the pages
    happen to be cut. */
module Digest {
  import opened Wrappers
  import opened Feed

  const DIGEST_PAGE_LIMIT := 200
  const DIGEST_MAX_PAGES := 1000

  // Events.

  datatype Entity = Entity(kind: Option<string>, id: Option<string>, title: Option<string>, status: Option<string>)

  datatype PullRequest = PullRequest(state: Option<string>, id: Option<string>, repo: Option<string>, number: Option<int>)

  /** The members of an event that the digest reads; a missing one is None. */
  datatype Event = Event(kind: Option<string>, entity: Entity, pr: PullRequest)

  datatype Task = Task(title: string, status: Option<string>)

  /** A Python dict: its keys in insertion order. Assigning a present key keeps its place. */
  datatype Dict<T> = Dict(order: seq<string>, at: map<string, T>)

  function Put<T>(d: Dict<T>, key: string, v: T): Dict<T> {
    Dict(if key in d.at then d.order else d.order + [key], d.at[key := v])
  }

  datatype Tally = Tally(counts: map<string, nat>, tasks: Dict<Task>, merged: Dict<(string, int)>)

  const EMPTY := Tally(map[], Dict([], map[]), Dict([], map[]))

  /** The task entity that an upsert event updates. */
  function TaskOf(e: Event): Option<(string, Task)> {
    if e.kind == Some("entity.upsert") && e.entity.kind == Some("task") && e.entity.id.Some? then
      Some((e.entity.id.value, Task(if e.entity.title.Some? then e.entity.title.value else "Task", e.entity.status)))
    else None
  }

  /** The pull request an event reports merged. */
  function MergeOf(e: Event): Option<(string, (string, int))> {
    if e.kind == Some("git.pr_state_changed") && e.pr.state == Some("merged") && e.pr.id.Some? && e.pr.repo.Some? && e.pr.number.Some?
    then Some((e.pr.id.value, (e.pr.repo.value, e.pr.number.value)))
    else None
  }

  /** Reading a member that is not there raises KeyError. */
  predicate Readable(e: Event): (r: bool)
    ensures r ==> e.kind.Some?
  {
    && e.kind.Some?
    && (e.kind == Some("entity.upsert") && e.entity.kind == Some("task") ==> e.entity.id.Some?)
    && (e.kind == Some("git.pr_state_changed") ==>
          e.pr.state.Some? && (e.pr.state == Some("merged") ==> e.pr.id.Some? && e.pr.repo.Some? && e.pr.number.Some?))
  }

  function Tallied(t: Tally, e: Event): Tally
    requires e.kind.Some?
  {
    var k := e.kind.value;
    Tally(t.counts[k := 1 + if k in t.counts then t.counts[k] else 0],
          if TaskOf(e).Some? then Put(t.tasks, TaskOf(e).value.0, TaskOf(e).value.1) else t.tasks,
          if MergeOf(e).Some? then Put(t.merged, MergeOf(e).value.0, MergeOf(e).value.1) else t.merged)
  }

  datatype Folded = KeyError | Total(t: Tally)

  /** One fold over a list of rows, stopping at the first unreadable event. */
  function Fold(t: Tally, rows: Log, parse: string -> Event): Folded
    decreases rows
  {
    if rows == [] then Total(t)
    else
      var e := parse(rows[0].text);
      if !Readable(e) then KeyError else Fold(Tallied(t, e), rows[1..], parse)
  }

  // The walk.

  datatype Reply = Broken | Got(page: Page)

  datatype Outcome = RequestFailed | MissingKey | Stuck | TooManyPages | Digested(through: int, t: Tally)

  /** The loop from page `k` on. */
  function Walk(poll: (nat, int) -> Reply, parse: string -> Event, k: nat, cursor: int, t: Tally): Outcome
    decreases DIGEST_MAX_PAGES - k
  {
    if k >= DIGEST_MAX_PAGES then TooManyPages
    else
      match poll(k, cursor)
      case Broken => RequestFailed
      case Got(page) =>
        match Fold(t, page.items, parse)
        case KeyError => MissingKey
        case Total(t') =>
          if !page.hasMore then Digested(page.through, t')
          else if page.through <= cursor then Stuck
          else Walk(poll, parse, k + 1, page.through, t')
  }

  /** The page loop of the source's `main`. */
  method Digest(poll: (nat, int) -> Reply, parse: string -> Event, since: int) returns (r: Outcome)
    ensures r == Walk(poll, parse, 0, since, EMPTY)
  {
    hide Tallied, Readable;
    var cursor := since;
    var t := EMPTY;
    for k := 0 to DIGEST_MAX_PAGES
      invariant Walk(poll, parse, 0, since, EMPTY) == Walk(poll, parse, k, cursor, t)
    {
      var reply := poll(k, cursor);
      if reply.Broken? {
        return RequestFailed;
      }
      var events := reply.page.items;
      ghost var t0 := t;
      for i := 0 to |events|
        invariant Fold(t0, events, parse) == Fold(t, events[i..], parse)
      {
        var event := parse(events[i].text);
        assert events[i..][0] == events[i] && events[i..][1..] == events[i + 1..];
        if !Readable(event) {
          return MissingKey;
        }
        t := Tallied(t, event);
      }
      assert events[|events|..] == [];
      if !reply.page.hasMore {
        return Digested(reply.page.through, t);
      }
      if reply.page.through <= cursor {
        return Stuck;
      }
      cursor := reply.page.through;
    }
    r := TooManyPages;
  }

  // Page boundaries.

  /** The rows after `from`, up to `to`. */
  function Between(log: Log, from: int, to: int): Log {
    if log == [] then []
    else if from < log[0].no <= to then [log[0]] + Between(log[1..], from, to)
    else Between(log[1..], from, to)
  }

  ghost predicate Honest(poll: (nat, int) -> Reply, feeds: nat -> Log) {
    && (forall k: nat :: Extends(feeds(k), feeds(k + 1)))
    && forall k: nat, since: int :: poll(k, since).Got? ==> poll(k, since).page == PageOf(feeds(k), since, DIGEST_PAGE_LIMIT)
  }

  lemma {:induction false} FoldConcat(t: Tally, a: Log, b: Log, parse: string -> Event)
    ensures Fold(t, a + b, parse) ==
      match Fold(t, a, parse) { case KeyError => KeyError case Total(t') => Fold(t', b, parse) }
    decreases a
  {
    hide Tallied, Readable;
    if a == [] {
      assert a + b == b;
    } else {
      assert (a + b)[1..] == a[1..] + b;
      if Readable(parse(a[0].text)) {
        FoldConcat(Tallied(t, parse(a[0].text)), a[1..], b, parse);
      }
    }
  }

  lemma {:induction false} BetweenConcat(a: Log, b: Log, from: int, to: int)
    ensures Between(a + b, from, to) == Between(a, from, to) + Between(b, from, to)
  {
    hide Between;
    if a == [] {
      assert a + b == b;
      BetweenNone(a, from, to);
    } else {
      var rest := a[1..];
      BetweenConcat(rest, b, from, to);
      assert a + b == [a[0]] + (rest + b) && a == [a[0]] + rest;
      BetweenHead(a[0], rest + b, from, to);
      BetweenHead(a[0], rest, from, to);
    }
  }

  lemma BetweenHead(r: Row, rest: Log, from: int, to: int)
    ensures Between([r] + rest, from, to) == (if from < r.no <= to then [r] else []) + Between(rest, from, to)
  {
    assert ([r] + rest)[1..] == rest;
  }

  lemma {:induction false} BetweenNone(log: Log, from: int, to: int)
    requires forall i :: 0 <= i < |log| ==> !(from < log[i].no <= to)
    ensures Between(log, from, to) == []
  {
    if log != [] {
      BetweenNone(log[1..], from, to);
    }
  }

  lemma {:induction false} BetweenAll(log: Log, from: int, to: int)
    requires forall i :: 0 <= i < |log| ==> from < log[i].no <= to
    ensures Between(log, from, to) == log
  {
    if log != [] {
      BetweenAll(log[1..], from, to);
    }
  }

  /** A slice of the log is the stretch it covers. */
  lemma SliceIsBetween(log: Log, k: nat, n: nat, from: int, to: int)
    requires k + n <= |log|
    requires forall i :: 0 <= i < k ==> log[i].no <= from
    requires forall i :: k <= i < k + n ==> from < log[i].no <= to
    requires forall i :: k + n <= i < |log| ==> log[i].no > to
    ensures Between(log, from, to) == log[k..k + n]
  {
    var a, b, c := log[..k], log[k..k + n], log[k + n..];
    assert log == a + b + c;
    MiddleIsBetween(a, b, c, from, to);
  }

  lemma MiddleIsBetween(a: Log, b: Log, c: Log, from: int, to: int)
    requires forall i :: 0 <= i < |a| ==> a[i].no <= from
    requires forall i :: 0 <= i < |b| ==> from < b[i].no <= to
    requires forall i :: 0 <= i < |c| ==> c[i].no > to
    ensures Between(a + b + c, from, to) == b
  {
    hide Between;
    BetweenNone(a, from, to);
    BetweenAll(b, from, to);
    BetweenNone(c, from, to);
    BetweenConcat(a, b, from, to);
    BetweenConcat(a + b, c, from, to);
    assert [] + b + [] == b;
  }

  /** A page returns exactly the visible rows between its two cursors. */
  lemma PageIsBetween(log: Log, since: int, limit: nat)
    requires Ordered(log) && limit > 0
    ensures var p := PageOf(log, since, limit); p.items == Visible(Between(log, since, p.through))
  {
    hide PageOf, Visible, Between;
    var k, n := ExaminedSlice(log, since, limit);
    SliceIsBetween(log, k, n, since, PageOf(log, since, limit).through);
  }

  /** Two adjacent stretches of an ordered log are one stretch. */
  lemma {:induction false} BetweenJoin(log: Log, a: int, b: int, c: int)
    requires Ordered(log) && a <= b <= c
    ensures Between(log, a, c) == Between(log, a, b) + Between(log, b, c)
  {
    if log != [] {
      BetweenJoin(log[1..], a, b, c);
      if log[0].no > b {
        BetweenNone(log, a, b);
        BetweenNone(log[1..], a, b);
      }
    }
  }

  /** Growth of the log does not reach into a stretch that ends at or before its head. */
  lemma BetweenGrown(log: Log, later: Log, a: int, b: int)
    requires Extends(log, later) && b <= Head(log)
    ensures Between(later, a, b) == Between(log, a, b)
  {
    assert later == log + later[|log|..];
    BetweenConcat(log, later[|log|..], a, b);
    forall i | 0 <= i < |later[|log|..]|
      ensures !(a < later[|log|..][i].no <= b)
    {
      if log != [] {
        assert later[|log| - 1] == later[..|log|][|log| - 1];
        assert later[|log| - 1].no < later[|log| + i].no;
      }
    }
    BetweenNone(later[|log|..], a, b);
  }

  /** What the loop has done after any number of pages. */
  lemma {:induction false} WalkSound(
      poll: (nat, int) -> Reply, feeds: nat -> Log, parse: string -> Event, since: int, k: nat, cursor: int, t: Tally)
    returns (last: nat)
    requires Honest(poll, feeds) && since <= cursor && (cursor == since || cursor <= Head(feeds(k)))
    requires Fold(EMPTY, Visible(Between(feeds(k), since, cursor)), parse) == Total(t)
    ensures
      var r := Walk(poll, parse, k, cursor, t);
      && r != Stuck
      && (r.Digested? ==>
            && k <= last < DIGEST_MAX_PAGES && since <= r.through && (forall row :: row in feeds(last) ==> row.no <= r.through)
            && Fold(EMPTY, Visible(Between(feeds(last), since, r.through)), parse) == Total(r.t))
    decreases DIGEST_MAX_PAGES - k
  {
    hide Fold, Visible, Between, PageOf, Head;
    last := k;
    if k < DIGEST_MAX_PAGES && poll(k, cursor).Got? {
      var log := feeds(k);
      var page := PageOf(log, cursor, DIGEST_PAGE_LIMIT);
      assert Extends(log, feeds(k + 1));
      PageCovers(log, cursor, DIGEST_PAGE_LIMIT);
      PageIsBetween(log, cursor, DIGEST_PAGE_LIMIT);
      BetweenJoin(log, since, cursor, page.through);
      VisibleConcat(Between(log, since, cursor), Between(log, cursor, page.through));
      FoldConcat(EMPTY, Visible(Between(log, since, cursor)), page.items, parse);
      if Fold(t, page.items, parse).Total? && page.hasMore {
        BetweenGrown(log, feeds(k + 1), since, page.through);
        HeadGrows(log, feeds(k + 1));
        last := WalkSound(poll, feeds, parse, since, k + 1, page.through, Fold(t, page.items, parse).t);
      }
    }
  }

  /** The digest, when there is one, is a single fold over the visible events after `since` and up
      to the cursor it reports, which covers the whole feed as it stood at the last page; and the
      walk is never stuck. */
  lemma DigestIsFold(poll: (nat, int) -> Reply, feeds: nat -> Log, parse: string -> Event, since: int) returns (last: nat)
    requires Honest(poll, feeds)
    ensures
      var r := Walk(poll, parse, 0, since, EMPTY);
      && r != Stuck
      && (r.Digested? ==>
            && last < DIGEST_MAX_PAGES && since <= r.through && (forall row :: row in feeds(last) ==> row.no <= r.through)
            && Fold(EMPTY, Visible(Between(feeds(last), since, r.through)), parse) == Total(r.t))
  {
    BetweenEmpty(feeds(0), since);
    last := WalkSound(poll, feeds, parse, since, 0, since, EMPTY);
  }

  lemma BetweenEmpty(log: Log, since: int)
    ensures Between(log, since, since) == []
  {
    BetweenNone(log, since, since);
  }

  // What the fold contains.

  function CountKind(rows: Log, parse: string -> Event, kind: string): nat {
    if rows == [] then 0
    else CountKind(rows[..|rows| - 1], parse, kind) + if parse(rows[|rows| - 1].text).kind == Some(kind) then 1 else 0
  }

  /** The last task update for `id` in the rows. */
  function LastTask(rows: Log, parse: string -> Event, id: string): Option<Task> {
    if rows == [] then None
    else
      var e := parse(rows[|rows| - 1].text);
      if e.kind == Some("entity.upsert") && e.entity.kind == Some("task") && e.entity.id == Some(id)
      then Some(Task(if e.entity.title.None? then "Task" else e.entity.title.value, e.entity.status))
      else LastTask(rows[..|rows| - 1], parse, id)
  }

  function LastMerge(rows: Log, parse: string -> Event, id: string): Option<(string, int)> {
    if rows == [] then None
    else
      match parse(rows[|rows| - 1].text)
      case Event(Some("git.pr_state_changed"), _, PullRequest(Some("merged"), Some(pr), Some(repo), Some(number))) =>
        if pr == id then Some((repo, number)) else LastMerge(rows[..|rows| - 1], parse, id)
      case _ => LastMerge(rows[..|rows| - 1], parse, id)
  }

  lemma LastTaskStep(rows: Log, parse: string -> Event, id: string)
    requires rows != []
    ensures var task := TaskOf(parse(rows[|rows| - 1].text));
      LastTask(rows, parse, id)
      == if task.Some? && task.value.0 == id then Some(task.value.1) else LastTask(rows[..|rows| - 1], parse, id)
  {
  }

  lemma LastMergeStep(rows: Log, parse: string -> Event, id: string)
    requires rows != []
    ensures var merge := MergeOf(parse(rows[|rows| - 1].text));
      LastMerge(rows, parse, id)
      == if merge.Some? && merge.value.0 == id then Some(merge.value.1) else LastMerge(rows[..|rows| - 1], parse, id)
  {
  }

  ghost predicate Holds<T>(d: Dict<T>, id: string, v: Option<T>) {
    (id in d.at <==> v.Some?) && (v.Some? ==> d.at[id] == v.value)
  }

  /** Each kind is counted once per event, and tasks and merges keep their last write. */
  lemma {:induction false} FoldContents(rows: Log, parse: string -> Event, key: string)
    requires Fold(EMPTY, rows, parse).Total?
    ensures var t := Fold(EMPTY, rows, parse).t;
      && (if key in t.counts then t.counts[key] else 0) == CountKind(rows, parse, key)
      && Holds(t.tasks, key, LastTask(rows, parse, key))
      && Holds(t.merged, key, LastMerge(rows, parse, key))
    decreases |rows|
  {
    hide Fold, Readable, TaskOf, MergeOf, LastTask, LastMerge;
    if rows == [] {
      FoldNothing(EMPTY, parse);
      NothingWritten(parse, key);
    } else {
      LastTaskStep(rows, parse, key);
      LastMergeStep(rows, parse, key);
      var front, last := rows[..|rows| - 1], rows[|rows| - 1];
      assert rows == front + [last];
      FoldConcat(EMPTY, front, [last], parse);
      FoldContents(front, parse, key);
      FoldOne(Fold(EMPTY, front, parse).t, last, parse);
    }
  }

  lemma NothingWritten(parse: string -> Event, id: string)
    ensures LastTask([], parse, id).None? && LastMerge([], parse, id).None?
  {
  }

  lemma FoldNothing(t: Tally, parse: string -> Event)
    ensures Fold(t, [], parse) == Total(t)
  {
  }

  lemma FoldOne(t: Tally, row: Row, parse: string -> Event)
    requires Fold(t, [row], parse).Total?
    ensures parse(row.text).kind.Some? && Fold(t, [row], parse) == Total(Tallied(t, parse(row.text)))
  {
    assert [row][1..] == [];
  }

  // The order of the lists the digest prints, and its event count.

  /** The keys of a dict in the order of their first assignment. */
  function FirstWrites(keys: seq<Option<string>>): seq<string> {
    if keys == [] then []
    else
      var before, last := FirstWrites(keys[..|keys| - 1]), keys[|keys| - 1];
      if last.None? || last.value in before then before else before + [last.value]
  }

  function TaskIds(rows: Log, parse: string -> Event): (ids: seq<Option<string>>)
    ensures |ids| == |rows|
  {
    seq(|rows|, i requires 0 <= i < |rows| =>
      var e := parse(rows[i].text);
      if e.kind == Some("entity.upsert") && e.entity.kind == Some("task") then e.entity.id else None)
  }

  function MergeIds(rows: Log, parse: string -> Event): (ids: seq<Option<string>>)
    ensures |ids| == |rows|
  {
    seq(|rows|, i requires 0 <= i < |rows| =>
      match parse(rows[i].text)
      case Event(Some("git.pr_state_changed"), _, PullRequest(Some("merged"), Some(pr), Some(_), Some(_))) => Some(pr)
      case _ => None)
  }

  ghost predicate InOrder<T>(d: Dict<T>, ids: seq<string>) {
    d.order == ids && forall id :: id in d.at <==> id in ids
  }

  lemma FirstWritesMore(keys: seq<Option<string>>)
    requires keys != []
    ensures var before, last := FirstWrites(keys[..|keys| - 1]), keys[|keys| - 1];
      FirstWrites(keys) == if last.None? || last.value in before then before else before + [last.value]
  {
  }

  /** Tasks and merged pull requests are listed in the order in which each first appeared. */
  lemma {:induction false} FoldOrder(rows: Log, parse: string -> Event)
    requires Fold(EMPTY, rows, parse).Total?
    ensures var t := Fold(EMPTY, rows, parse).t;
      InOrder(t.tasks, FirstWrites(TaskIds(rows, parse))) && InOrder(t.merged, FirstWrites(MergeIds(rows, parse)))
    decreases |rows|
  {
    hide Fold, Readable, TaskOf, MergeOf, FirstWrites, TaskIds, MergeIds;
    var tasks, merges := TaskIds(rows, parse), MergeIds(rows, parse);
    if rows == [] {
      FoldNothing(EMPTY, parse);
      NoWrites(tasks);
      NoWrites(merges);
    } else {
      var front, last := rows[..|rows| - 1], rows[|rows| - 1];
      assert rows == front + [last];
      FoldConcat(EMPTY, front, [last], parse);
      FoldOrder(front, parse);
      FoldOne(Fold(EMPTY, front, parse).t, last, parse);
      IdsStep(rows, parse);
      FirstWritesMore(tasks);
      FirstWritesMore(merges);
    }
  }

  lemma IdsStep(rows: Log, parse: string -> Event)
    requires rows != []
    ensures var n, e := |rows| - 1, parse(rows[|rows| - 1].text);
      && TaskIds(rows, parse)[..n] == TaskIds(rows[..n], parse)
      && MergeIds(rows, parse)[..n] == MergeIds(rows[..n], parse)
      && TaskIds(rows, parse)[n] == (if TaskOf(e).Some? then Some(TaskOf(e).value.0) else None)
      && MergeIds(rows, parse)[n] == (if MergeOf(e).Some? then Some(MergeOf(e).value.0) else None)
  {
  }

  lemma NoWrites(keys: seq<Option<string>>)
    ensures keys == [] ==> FirstWrites(keys) == []
  {
  }

  /** `sum(counts.values())` */
  ghost function EventCount(counts: map<string, nat>): nat {
    if counts == map[] then 0
    else
      var k :| k in counts;
      counts[k] + EventCount(counts - {k})
  }

  lemma {:induction false} CountWithout(counts: map<string, nat>, k: string)
    requires k in counts
    ensures EventCount(counts) == counts[k] + EventCount(counts - {k})
  {
    var c :| c in counts && EventCount(counts) == counts[c] + EventCount(counts - {c});
    if c != k {
      CountWithout(counts - {c}, k);
      CountWithout(counts - {k}, c);
      assert counts - {c} - {k} == counts - {k} - {c};
    }
  }

  lemma CountOneMore(counts: map<string, nat>, k: string)
    ensures EventCount(counts[k := 1 + if k in counts then counts[k] else 0]) == EventCount(counts) + 1
  {
    var more := counts[k := 1 + if k in counts then counts[k] else 0];
    CountWithout(more, k);
    assert more - {k} == counts - {k};
    if k in counts {
      CountWithout(counts, k);
    } else {
      assert counts - {k} == counts;
    }
  }

  /** The counts of the kinds add up to the number of events. */
  lemma {:induction false} FoldCounts(t: Tally, rows: Log, parse: string -> Event)
    requires Fold(t, rows, parse).Total?
    ensures EventCount(Fold(t, rows, parse).t.counts) == EventCount(t.counts) + |rows|
    decreases rows
  {
    hide EventCount, Readable;
    if rows != [] {
      var e := parse(rows[0].text);
      CountOneMore(t.counts, e.kind.value);
      FoldCounts(Tallied(t, e), rows[1..], parse);
    }
  }

  lemma EventCountIsRows(rows: Log, parse: string -> Event)
    requires Fold(EMPTY, rows, parse).Total?
    ensures EventCount(Fold(EMPTY, rows, parse).t.counts) == |rows|
  {
    FoldCounts(EMPTY, rows, parse);
  }

  // When there is a digest.

  /** No event lacks a member that the digest asks it for. */
  ghost predicate AllReadable(log: Log, parse: string -> Event) {
    forall row :: row in log ==>
      && parse(row.text).kind.Some?
      && (parse(row.text).kind.value == "entity.upsert" && parse(row.text).entity.kind == Some("task") ==>
            parse(row.text).entity.id.Some?)
      && (parse(row.text).kind.value == "git.pr_state_changed" ==> parse(row.text).pr.state.Some?)
      && (parse(row.text).kind.value == "git.pr_state_changed" && parse(row.text).pr.state.value == "merged" ==>
            parse(row.text).pr.id.Some? && parse(row.text).pr.repo.Some? && parse(row.text).pr.number.Some?)
  }

  /** The fold ends with a total exactly when every event can be read. */
  lemma {:induction false} ReadableFolds(t: Tally, rows: Log, parse: string -> Event)
    ensures Fold(t, rows, parse).Total? <==> AllReadable(rows, parse)
    decreases rows
  {
    hide Readable, Tallied, AllReadable;
    if rows != [] {
      ReadableStep(rows, parse);
      if Readable(parse(rows[0].text)) {
        ReadableFolds(Tallied(t, parse(rows[0].text)), rows[1..], parse);
      }
    } else {
      NoRowsReadable(parse);
    }
  }

  lemma NoRowsReadable(parse: string -> Event)
    ensures AllReadable([], parse)
  {
  }

  lemma ReadableStep(rows: Log, parse: string -> Event)
    requires rows != []
    ensures AllReadable(rows, parse) <==> Readable(parse(rows[0].text)) && AllReadable(rows[1..], parse)
  {
    assert rows == [rows[0]] + rows[1..];
    assert rows[0] in rows;
  }

  /** Over a feed that stands still and whose events can be read, the walk ends with a digest if and
      only if fewer rows than a thousand full pages come after the cursor, and otherwise fails for
      its length. */
  lemma {:induction false} WalkEnds(
      poll: (nat, int) -> Reply, log: Log, parse: string -> Event, k: nat, cursor: int, t: Tally)
    requires Ordered(log) && AllReadable(log, parse) && k <= DIGEST_MAX_PAGES
    requires forall i: nat, from: int :: poll(i, from) == Got(PageOf(log, from, DIGEST_PAGE_LIMIT))
    ensures var r := Walk(poll, parse, k, cursor, t);
      && (r.Digested? <==> |After(log, cursor)| < (DIGEST_MAX_PAGES - k) * DIGEST_PAGE_LIMIT)
      && (!r.Digested? ==> r == TooManyPages)
    decreases DIGEST_MAX_PAGES - k
  {
    hide Fold, Visible, After, AllReadable, Ordered;
    if k < DIGEST_MAX_PAGES {
      var page := PageOf(log, cursor, DIGEST_PAGE_LIMIT);
      PageReadable(log, cursor, parse);
      ReadableFolds(t, page.items, parse);
      if |After(log, cursor)| >= DIGEST_PAGE_LIMIT {
        AfterFullPage(log, cursor, DIGEST_PAGE_LIMIT);
        WalkEnds(poll, log, parse, k + 1, page.through, Fold(t, page.items, parse).t);
      }
    }
  }

  lemma PageReadable(log: Log, since: int, parse: string -> Event)
    requires Ordered(log) && AllReadable(log, parse)
    ensures AllReadable(PageOf(log, since, DIGEST_PAGE_LIMIT).items, parse)
  {
    hide PageOf, Readable;
    PageCovers(log, since, DIGEST_PAGE_LIMIT);
  }

  // Every way out of the walk.

  /** A page after which the walk goes on from `next`. */
  ghost predicate GoesOn(reply: Reply, parse: string -> Event, cursor: int, next: int) {
    && reply.Got?
    && AllReadable(reply.page.items, parse)
    && reply.page.hasMore
    && reply.page.through == next > cursor
  }

  /** What the last reply shows of each outcome but the one for too many pages. */
  ghost predicate StopsWith(r: Outcome, reply: Reply, parse: string -> Event, cursor: int) {
    match r
    case RequestFailed => reply.Broken?
    case MissingKey => reply.Got? && !AllReadable(reply.page.items, parse)
    case Stuck => reply.Got? && AllReadable(reply.page.items, parse) && reply.page.hasMore && reply.page.through <= cursor
    case Digested(through, _) =>
      reply.Got? && AllReadable(reply.page.items, parse) && !reply.page.hasMore && through == reply.page.through
    case TooManyPages => false
  }

  /** Whatever the replies, the walk follows rising cursors, each asked for once, up to the first
      page that ends it, and that page shows why; only after a thousand pages it stops for its length. */
  lemma {:induction false} WalkFollows(poll: (nat, int) -> Reply, parse: string -> Event, k: nat, cursor: int, t: Tally)
    returns (cursors: seq<int>)
    requires k <= DIGEST_MAX_PAGES
    ensures cursors != [] && cursors[0] == cursor && k + |cursors| - 1 <= 1000
    ensures forall i :: 0 <= i < |cursors| - 1 ==> GoesOn(poll(k + i, cursors[i]), parse, cursors[i], cursors[i + 1])
    ensures
      var r, n := Walk(poll, parse, k, cursor, t), |cursors| - 1;
      if k + n == 1000 then r == TooManyPages else StopsWith(r, poll(k + n, cursors[n]), parse, cursors[n])
    decreases DIGEST_MAX_PAGES - k
  {
    hide Fold, AllReadable;
    cursors := [cursor];
    if k < DIGEST_MAX_PAGES && poll(k, cursor).Got? {
      var page := poll(k, cursor).page;
      ReadableFolds(t, page.items, parse);
      if Fold(t, page.items, parse).Total? && page.hasMore && page.through > cursor {
        var later := WalkFollows(poll, parse, k + 1, page.through, Fold(t, page.items, parse).t);
        cursors := [cursor] + later;
        assert forall i :: 1 <= i < |cursors| ==> cursors[i] == later[i - 1];
      }
    }
  }
}
