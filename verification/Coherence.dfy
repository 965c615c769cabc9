/** Every run of the read cache against a changing server: a served entry is what a fetch at
    the moment of its last revalidation poll would have returned. */
module Coherence {
  import opened Wrappers
  import opened Feed
  import opened Ascii
  import opened ReadCache
  import opened Revalidation

  /** The state behind the answers: entity values, and one event log per space. */
  datatype World = World(values: map<string, string>, feeds: map<string, Log>)

  /** What the client does not control: the answer to a read, the ids in its path, the space an
      entity lives in, and the cache's file naming. */
  datatype Service = Service(
    answer: (string, map<string, string>) -> Response,
    pathIds: string -> seq<string>,
    home: string -> string,
    fileFor: string -> string)

  function FeedOf(w: World, space: string): Log {
    if space in w.feeds then w.feeds[space] else []
  }

  function IdsOf(sv: Service, key: string, r: Response): seq<string>
    requires r.data.Some?
  {
    Lowered(sv.pathIds(key) + r.data.value.ids)
  }

  ghost predicate SameValue(v: map<string, string>, v': map<string, string>, id: string) {
    (id in v <==> id in v') && (id in v ==> v[id] == v'[id])
  }

  ghost predicate SameValues(v: map<string, string>, v': map<string, string>, ids: seq<string>) {
    forall id :: id in ids ==> SameValue(v, v', id)
  }

  /** The hypotheses about answers: one depends only on the entities it is about, and those
      entities live in the space it names. */
  ghost predicate Lawful(sv: Service) {
    && (forall key, v, v' {:trigger sv.answer(key, v), sv.answer(key, v')} ::
          sv.answer(key, v).data.Some? && SameValues(v, v', IdsOf(sv, key, sv.answer(key, v))) ==>
            sv.answer(key, v') == sv.answer(key, v))
    && (forall key, v, id ::
          sv.answer(key, v).data.Some? && sv.answer(key, v).data.value.spaceId.Some?
          && id in IdsOf(sv, key, sv.answer(key, v)) ==>
            sv.home(id) == sv.answer(key, v).data.value.spaceId.value)
  }

  /** One commit: one event is appended to one space's feed, and it is visible and names every
      entity whose value it changes, in that entity's own space. */
  ghost predicate Commits(sv: Service, w: World, w': World, space: string, row: Row) {
    && row.no > Head(FeedOf(w, space)) && row.no >= 0
    && w'.feeds == w.feeds[space := FeedOf(w, space) + [row]]
    && forall id :: !SameValue(w.values, w'.values, id) ==> row.visible && Names(row, id) && sv.home(id) == space
  }

  ghost predicate Committed(sv: Service, w: World, w': World) {
    exists space, row :: Commits(sv, w, w', space, row)
  }

  /** The worlds a run has passed through, oldest first. */
  ghost predicate History(sv: Service, h: seq<World>) {
    && h != []
    && (forall space :: Ordered(FeedOf(h[0], space)))
    && forall i :: 0 < i < |h| ==> Committed(sv, h[i - 1], h[i])
  }

  lemma CommitExtends(sv: Service, w: World, w': World, space: string)
    requires Committed(sv, w, w') && Ordered(FeedOf(w, space))
    ensures Extends(FeedOf(w, space), FeedOf(w', space))
  {
    hide Ordered, Extends, SameValue, Names, Head;
    var sp, row :| Commits(sv, w, w', sp, row);
    var log, later := FeedOf(w, space), FeedOf(w', space);
    if sp == space {
      assert later == log + [row];
      AppendExtends(log, row);
    } else {
      assert later == log;
      ExtendsItself(log);
    }
  }

  lemma AppendExtends(log: Log, row: Row)
    requires Ordered(log) && row.no > Head(log) && row.no >= 0
    ensures Extends(log, log + [row])
  {
    assert (log + [row])[..|log|] == log;
  }

  lemma ExtendsItself(log: Log)
    requires Ordered(log)
    ensures Extends(log, log)
  {
    assert log[..|log|] == log;
  }

  lemma {:induction false} HistoryExtends(sv: Service, h: seq<World>, i: nat, j: nat, space: string)
    requires History(sv, h) && i <= j < |h|
    ensures Extends(FeedOf(h[i], space), FeedOf(h[j], space))
    decreases j, i
  {
    if i < j {
      HistoryExtends(sv, h, i, j - 1, space);
      CommitExtends(sv, h[j - 1], h[j], space);
      ExtendsTransitive(FeedOf(h[i], space), FeedOf(h[j - 1], space), FeedOf(h[j], space));
    } else if i > 0 {
      HistoryExtends(sv, h, 0, i, space);
    } else {
      assert FeedOf(h[0], space)[..|FeedOf(h[0], space)|] == FeedOf(h[0], space);
    }
  }

  /** An entity no event names keeps its value. */
  lemma {:induction false} UnnamedKeepsValue(
      sv: Service, h: seq<World>, i: nat, j: nat, last: nat, id: string, ids: seq<string>, from: int)
    requires History(sv, h) && i <= j <= last < |h|
    requires id in ids && from <= Head(FeedOf(h[i], sv.home(id)))
    requires Quiet(FeedOf(h[last], sv.home(id)), ids, from, Head(FeedOf(h[last], sv.home(id))))
    ensures SameValue(h[i].values, h[j].values, id)
    decreases j
  {
    hide Head, Names;
    if i < j {
      UnnamedKeepsValue(sv, h, i, j - 1, last, id, ids, from);
      if !SameValue(h[j - 1].values, h[j].values, id) {
        var space := sv.home(id);
        assert Committed(sv, h[j - 1], h[j]);
        var sp, row :| Commits(sv, h[j - 1], h[j], sp, row);
        assert sp == space && row in FeedOf(h[j], space);
        HistoryExtends(sv, h, i, j - 1, space);
        HeadGrows(FeedOf(h[i], space), FeedOf(h[j - 1], space));
        HistoryExtends(sv, h, j, last, space);
        ExtendsRows(FeedOf(h[j], space), FeedOf(h[last], space), row);
        HeadIsHighest(FeedOf(h[last], space), row);
      }
    }
  }

  lemma HeadIsHighest(log: Log, r: Row)
    requires Ordered(log) && r in log
    ensures r.no <= Head(log)
  {
  }

  // The system.

  datatype System = System(h: seq<World>, disk: Disk)

  function Now(s: System): World
    requires s.h != []
  {
    s.h[|s.h| - 1]
  }

  /** The entry is a faithful copy of the answer at world `w`, no older than its sequence number. */
  ghost predicate GroundedAt(sv: Service, w: World, e: Entry) {
    var r := sv.answer(e.key, w.values);
    && r.data.Some? && r.data.value.spaceId == Some(e.space) && e.ids == IdsOf(sv, e.key, r)
    && r.status == e.status && r.text == e.text && e.no <= Head(FeedOf(w, e.space))
  }

  ghost predicate Grounded(sv: Service, h: seq<World>, e: Entry) {
    exists j :: 0 <= j < |h| && GroundedAt(sv, h[j], e)
  }

  ghost predicate MarksBelowHead(w: World, d: Disk) {
    d.marks.Marks? ==> forall space :: space in d.marks.m ==> d.marks.m[space] <= Head(FeedOf(w, space))
  }

  ghost predicate Invariant(sv: Service, s: System) {
    && History(sv, s.h)
    && (forall f :: f in s.disk.files && s.disk.files[f].Whole? ==> Grounded(sv, s.h, s.disk.files[f].e))
    && MarksBelowHead(Now(s), s.disk)
  }

  ghost predicate Initial(sv: Service, s: System) {
    History(sv, s.h) && |s.h| == 1 && s.disk == Disk(map[], NoMarks)
  }

  /** The server commits. */
  ghost predicate CommitStep(sv: Service, s: System, s': System) {
    s'.disk == s.disk && |s'.h| == |s.h| + 1 && s'.h[..|s.h|] == s.h && s.h != [] && Committed(sv, Now(s), Now(s'))
  }

  /** A read is fetched and stored; a sequence number in the answer is one already committed. */
  ghost predicate FetchStep(sv: Service, s: System, s': System, key: string, io: Io) {
    && s.h != [] && s'.h == s.h
    && var r := sv.answer(key, Now(s).values);
    && (r.data.Some? && r.data.value.spaceId.Some? && r.data.value.eventSeq.Some? ==>
          r.data.value.eventSeq.value <= Head(FeedOf(Now(s), r.data.value.spaceId.value)))
    && s'.disk == if r.status < 400 && r.text != [] then Stored(s.disk, sv.fileFor(key), key, sv.pathIds(key), r, io) else s.disk
  }

  /** The polls of one revalidation see the feed of the entry's space at non-decreasing moments,
      from the present of `s` on, while the server goes on committing up to `h'`. */
  ghost predicate Polled(s: System, h': seq<World>, space: string, at: nat -> nat, poll: (nat, int) -> Reply) {
    && s.h != [] && |s.h| <= |h'| && h'[..|s.h|] == s.h
    && at(0) >= |s.h| - 1
    && (forall k: nat :: at(k) <= at(k + 1) && at(k) < |h'|)
    && forall k: nat, since: int :: at(k) < |h'| && poll(k, since).Body? ==>
         poll(k, since).page == Wire(PageOf(FeedOf(h'[at(k)], space), since, REVALIDATE_PAGE_LIMIT))
  }

  /** A cached read is looked up, revalidated, and served or evicted. */
  ghost predicate LookupStep(
      sv: Service, s: System, s': System, key: string, at: nat -> nat, poll: (nat, int) -> Reply, io: Io) {
    && History(sv, s'.h)
    && (var found := Found(s.disk, sv.fileFor(key), key);
        Polled(s, s'.h, if found.Some? then found.value.space else "", at, poll))
    && s'.disk == LookedUp(s.disk, sv.fileFor(key), key, poll, io).0
  }

  /** A command of this session succeeded and named these ids. */
  ghost predicate InvalidateStep(s: System, s': System, ids: seq<string>) {
    s'.h == s.h && s'.disk == Invalidated(s.disk, ids)
  }

  /** Files disappear, are torn, or the watermarks are lost. */
  ghost predicate LossStep(s: System, s': System) {
    && s'.h == s.h && (s'.disk.marks == s.disk.marks || s'.disk.marks == NoMarks)
    && forall f :: f in s'.disk.files && s'.disk.files[f].Whole? ==> f in s.disk.files && s'.disk.files[f] == s.disk.files[f]
  }

  ghost predicate Next(sv: Service, s: System, s': System) {
    || CommitStep(sv, s, s')
    || (exists key, io :: FetchStep(sv, s, s', key, io))
    || (exists key, at, poll, io :: LookupStep(sv, s, s', key, at, poll, io))
    || (exists ids :: InvalidateStep(s, s', ids))
    || LossStep(s, s')
  }

  // The invariant.

  lemma GroundedExtends(sv: Service, h: seq<World>, h': seq<World>, e: Entry)
    requires Grounded(sv, h, e) && |h| <= |h'| && h'[..|h|] == h
    ensures Grounded(sv, h', e)
  {
    hide GroundedAt;
    var j :| 0 <= j < |h| && GroundedAt(sv, h[j], e);
    assert h'[j] == h'[..|h|][j];
  }

  lemma MarksExtend(sv: Service, h: seq<World>, i: nat, j: nat, d: Disk)
    requires History(sv, h) && i <= j < |h| && MarksBelowHead(h[i], d)
    ensures MarksBelowHead(h[j], d)
  {
    if d.marks.Marks? {
      forall space | space in d.marks.m
        ensures d.marks.m[space] <= Head(FeedOf(h[j], space))
      {
        HistoryExtends(sv, h, i, j, space);
        HeadGrows(FeedOf(h[i], space), FeedOf(h[j], space));
      }
    }
  }

  lemma CommitKeepsInvariant(sv: Service, s: System, s': System)
    requires Invariant(sv, s) && CommitStep(sv, s, s')
    ensures Invariant(sv, s')
  {
    hide Committed, Grounded;
    assert s'.h[0] == s'.h[..|s.h|][0];
    forall i | 0 < i < |s'.h|
      ensures Committed(sv, s'.h[i - 1], s'.h[i])
    {
      assert i < |s.h| ==> s'.h[i] == s'.h[..|s.h|][i];
      assert s'.h[i - 1] == s'.h[..|s.h|][i - 1];
    }
    forall f | f in s'.disk.files && s'.disk.files[f].Whole?
      ensures Grounded(sv, s'.h, s'.disk.files[f].e)
    {
      GroundedExtends(sv, s.h, s'.h, s.disk.files[f].e);
    }
    assert s'.h[|s.h| - 1] == s'.h[..|s.h|][|s.h| - 1];
    MarksExtend(sv, s'.h, |s.h| - 1, |s'.h| - 1, s.disk);
  }

  lemma AdvanceKeepsMarks(w: World, d: Disk, space: string, no: int, io: Io)
    requires MarksBelowHead(w, d) && no <= Head(FeedOf(w, space))
    ensures MarksBelowHead(w, Advanced(d, space, no, io)) && Advanced(d, space, no, io).files == d.files
  {
    hide Head;
  }

  lemma FetchKeepsInvariant(sv: Service, s: System, s': System, key: string, io: Io)
    requires Invariant(sv, s) && FetchStep(sv, s, s', key, io)
    ensures Invariant(sv, s')
  {
    hide Committed, Head;
    var r := sv.answer(key, Now(s).values);
    var d := Noted(s.disk, r, io);
    if r.data.Some? && r.data.value.spaceId.Some? && r.data.value.eventSeq.Some? {
      AdvanceKeepsMarks(Now(s), s.disk, r.data.value.spaceId.value, r.data.value.eventSeq.value, io);
    }
    var e := EntryFor(d, key, sv.pathIds(key), r, io);
    if e.Some? {
      assert GroundedAt(sv, s.h[|s.h| - 1], e.value);
      assert Grounded(sv, s.h, e.value);
    }
  }

  lemma LookupKeepsInvariant(
      sv: Service, s: System, s': System, key: string, at: nat -> nat, poll: (nat, int) -> Reply, io: Io)
    requires Lawful(sv) && Invariant(sv, s) && LookupStep(sv, s, s', key, at, poll, io)
    ensures Invariant(sv, s')
  {
    hide Committed, Grounded, Head, Revalidate, Lawful;
    var file := sv.fileFor(key);
    var last := |s'.h| - 1;
    assert s'.h[|s.h| - 1] == s'.h[..|s.h|][|s.h| - 1] == Now(s);
    MarksExtend(sv, s'.h, |s.h| - 1, last, s.disk);
    forall f | f in s.disk.files && s.disk.files[f].Whole?
      ensures Grounded(sv, s'.h, s.disk.files[f].e)
      ensures s.disk.files[f].e.no <= Head(FeedOf(Now(s), s.disk.files[f].e.space))
    {
      GroundedExtends(sv, s.h, s'.h, s.disk.files[f].e);
      GroundedBelowHead(sv, s.h, s.disk.files[f].e);
    }
    assert EntriesBelowHead(Now(s), s.disk);
    LookupKeepsMarks(sv, s, s', key, at, poll, io);
  }

  /** No entry's sequence number is past the head of its feed. */
  ghost predicate EntriesBelowHead(w: World, d: Disk) {
    forall f :: f in d.files && d.files[f].Whole? ==> d.files[f].e.no <= Head(FeedOf(w, d.files[f].e.space))
  }

  lemma LookupKeepsMarks(
      sv: Service, s: System, s': System, key: string, at: nat -> nat, poll: (nat, int) -> Reply, io: Io)
    requires LookupStep(sv, s, s', key, at, poll, io)
    requires MarksBelowHead(Now(s), s.disk) && EntriesBelowHead(Now(s), s.disk)
    ensures MarksBelowHead(Now(s'), s'.disk)
  {
    hide Committed, Head, Revalidate;
    var file := sv.fileFor(key);
    var last := |s'.h| - 1;
    assert s'.h[|s.h| - 1] == s'.h[..|s.h|][|s.h| - 1] == Now(s);
    MarksExtend(sv, s'.h, |s.h| - 1, last, s.disk);
    var found := Found(s.disk, file, key);
    if found.Some? {
      var e := found.value;
      var r := Revalidate(e, poll, 0, e.no, None);
      if r.seen.Some? {
        var k := PolledIsSound(sv, s, s'.h, e, at, poll);
        HistoryExtends(sv, s'.h, at(k), last, e.space);
        HeadGrows(FeedOf(s'.h[at(k)], e.space), FeedOf(s'.h[last], e.space));
        AdvanceKeepsMarks(s'.h[last], s.disk, e.space, r.seen.value, io);
      }
    }
  }

  /** The feed of one space at the moment of each poll. */
  ghost function FeedsAt(h: seq<World>, space: string, at: nat -> nat): nat -> Log {
    (k: nat) => if at(k) < |h| then FeedOf(h[at(k)], space) else []
  }

  lemma PollsAreHonest(sv: Service, s: System, h': seq<World>, space: string, at: nat -> nat, poll: (nat, int) -> Reply)
    requires History(sv, h') && Polled(s, h', space, at, poll)
    ensures Honest(poll, FeedsAt(h', space, at))
  {
    hide History, PageOf, Wire, Extends, FeedsAt;
    var feeds := FeedsAt(h', space, at);
    forall k: nat
      ensures Extends(feeds(k), feeds(k + 1))
      ensures forall since: int :: poll(k, since).Body? ==>
        poll(k, since).page == Wire(PageOf(feeds(k), since, REVALIDATE_PAGE_LIMIT))
    {
      assert at(k) <= at(k + 1) && at(k) < |h'| && at(k + 1) < |h'|;
      FeedAt(h', space, at, k);
      FeedAt(h', space, at, k + 1);
      HistoryExtends(sv, h', at(k), at(k + 1), space);
    }
  }

  lemma FeedAt(h: seq<World>, space: string, at: nat -> nat, k: nat)
    requires at(k) < |h|
    ensures FeedsAt(h, space, at)(k) == FeedOf(h[at(k)], space)
  {
  }

  lemma GroundedBelowHead(sv: Service, h: seq<World>, e: Entry)
    requires History(sv, h) && Grounded(sv, h, e)
    ensures e.no <= Head(FeedOf(h[|h| - 1], e.space))
  {
    hide Head, IdsOf, History;
    var j :| 0 <= j < |h| && GroundedAt(sv, h[j], e);
    HistoryExtends(sv, h, j, |h| - 1, e.space);
    HeadGrows(FeedOf(h[j], e.space), FeedOf(h[|h| - 1], e.space));
  }

  lemma BelowLaterHead(sv: Service, h: seq<World>, h': seq<World>, space: string, no: int, n: nat)
    requires History(sv, h') && h != [] && |h| - 1 <= n < |h'| && h'[..|h|] == h
    requires no <= Head(FeedOf(h[|h| - 1], space))
    ensures no <= Head(FeedOf(h'[n], space))
  {
    hide Head, History, FeedOf;
    assert h'[|h| - 1] == h'[..|h|][|h| - 1];
    HistoryExtends(sv, h', |h| - 1, n, space);
    HeadGrows(FeedOf(h'[|h| - 1], space), FeedOf(h'[n], space));
  }

  /** What one revalidation learns about the feed of the entry's space. */
  lemma PolledIsSound(sv: Service, s: System, h': seq<World>, e: Entry, at: nat -> nat, poll: (nat, int) -> Reply)
    returns (k: nat)
    requires History(sv, h') && Polled(s, h', e.space, at, poll) && e.no <= Head(FeedOf(Now(s), e.space))
    ensures |s.h| - 1 <= at(k) < |h'|
    ensures var r := Revalidate(e, poll, 0, e.no, None); var log := FeedOf(h'[at(k)], e.space);
      && (r.same ==> Quiet(log, e.ids, e.no, Head(log)))
      && (r.seen.Some? ==> r.seen.value <= Head(log))
  {
    hide History, Honest, Head, Revalidate, Quiet, PageOf, FeedsAt, FeedOf;
    PollsAreHonest(sv, s, h', e.space, at, poll);
    BelowLaterHead(sv, s.h, h', e.space, e.no, at(0));
    FeedAt(h', e.space, at, 0);
    k := UnchangedIsQuiet(e, poll, FeedsAt(h', e.space, at));
    AtMonotone(at, k, |h'|);
    FeedAt(h', e.space, at, k);
  }

  lemma {:induction false} AtMonotone(at: nat -> nat, k: nat, n: nat)
    requires forall i: nat :: at(i) <= at(i + 1) && at(i) < n
    ensures at(0) <= at(k) < n
  {
    if k > 0 {
      AtMonotone(at, k - 1, n);
    }
  }

  lemma DropsKeepInvariant(sv: Service, s: System, s': System)
    requires Invariant(sv, s) && s'.h == s.h
    requires s'.disk.marks == s.disk.marks || s'.disk.marks == NoMarks
    requires forall f :: f in s'.disk.files && s'.disk.files[f].Whole? ==> f in s.disk.files && s'.disk.files[f] == s.disk.files[f]
    ensures Invariant(sv, s')
  {
    hide Grounded, History;
  }

  /** Every step keeps the invariant. */
  lemma NextKeepsInvariant(sv: Service, s: System, s': System)
    requires Lawful(sv) && Invariant(sv, s) && Next(sv, s, s')
    ensures Invariant(sv, s')
  {
    hide Invariant, Lawful;
    if CommitStep(sv, s, s') {
      CommitKeepsInvariant(sv, s, s');
    } else if key, io :| FetchStep(sv, s, s', key, io) {
      FetchKeepsInvariant(sv, s, s', key, io);
    } else if key, at, poll, io :| LookupStep(sv, s, s', key, at, poll, io) {
      LookupKeepsInvariant(sv, s, s', key, at, poll, io);
    } else if ids :| InvalidateStep(s, s', ids) {
      DropsKeepInvariant(sv, s, s');
    } else {
      DropsKeepInvariant(sv, s, s');
    }
  }

  ghost predicate Run(sv: Service, run: seq<System>) {
    run != [] && Initial(sv, run[0]) && forall i :: 0 < i < |run| ==> Next(sv, run[i - 1], run[i])
  }

  /** Every reachable state satisfies the invariant. */
  lemma {:induction false} RunInvariant(sv: Service, run: seq<System>, i: nat)
    requires Lawful(sv) && Run(sv, run) && i < |run|
    ensures Invariant(sv, run[i])
  {
    hide Lawful, Next;
    if i > 0 {
      RunInvariant(sv, run, i - 1);
      NextKeepsInvariant(sv, run[i - 1], run[i]);
    }
  }

  /** An answer stays the same between two moments when no event in between names its ids. */
  lemma AnswerStands(sv: Service, h: seq<World>, e: Entry, j: nat, n: nat)
    requires Lawful(sv) && History(sv, h) && j <= n < |h| && GroundedAt(sv, h[j], e)
    requires var log := FeedOf(h[n], e.space); Quiet(log, e.ids, e.no, Head(log))
    ensures sv.answer(e.key, h[n].values) == sv.answer(e.key, h[j].values)
  {
    hide Quiet, Head, Committed;
    var r := sv.answer(e.key, h[j].values);
    forall id | id in IdsOf(sv, e.key, r)
      ensures SameValue(h[j].values, h[n].values, id)
    {
      assert sv.home(id) == e.space;
      UnnamedKeepsValue(sv, h, j, n, n, id, e.ids, e.no);
    }
    assert SameValues(h[j].values, h[n].values, IdsOf(sv, e.key, r));
  }

  /** Cache coherence. In any reachable state, when the lookup of a key serves a cached entry,
      the bytes and the status it serves are those of a fetch at the moment of the last
      revalidation poll, which lies between the lookup's start and its end. */
  lemma ServedIsFresh(
      sv: Service, run: seq<System>, i: nat, h': seq<World>, key: string, at: nat -> nat, poll: (nat, int) -> Reply, io: Io)
    returns (n: nat)
    requires Lawful(sv) && Run(sv, run) && i < |run| && History(sv, h')
    requires
      var found := Found(run[i].disk, sv.fileFor(key), key);
      found.Some? && Polled(run[i], h', found.value.space, at, poll)
    requires LookedUp(run[i].disk, sv.fileFor(key), key, poll, io).1.Some?
    ensures |run[i].h| - 1 <= n < |h'|
    ensures
      var served := LookedUp(run[i].disk, sv.fileFor(key), key, poll, io).1.value;
      var fetched := sv.answer(key, h'[n].values);
      served.text == fetched.text && served.status == fetched.status
  {
    hide Lawful, Next, Quiet, Head, Revalidate;
    var s := run[i];
    RunInvariant(sv, run, i);
    var e := Found(s.disk, sv.fileFor(key), key).value;
    GroundedBelowHead(sv, s.h, e);
    var k := PolledIsSound(sv, s, h', e, at, poll);
    n := at(k);
    var j :| 0 <= j < |s.h| && GroundedAt(sv, s.h[j], e);
    assert h'[j] == h'[..|s.h|][j] == s.h[j];
    AnswerStands(sv, h', e, j, n);
  }

  // A hit.

  /** The entity's value, and the sequence number of the space's first event. */
  function ValueOfA(v: map<string, string>): Response {
    Response(200, if "a" in v && v["a"] != "" then v["a"] else "none", Some(Payload(Some("space"), Some(0), ["a"])))
  }

  /** Reads of the entity `a`, which lives with every other in one space. */
  function ServiceOfA(): Service {
    Service((_, v) => ValueOfA(v), _ => [], _ => "space", _ => "file")
  }

  const FEED_BEFORE: Log := [Row(0, "first", true)]
  const FEED_AFTER: Log := [Row(0, "first", true), Row(1, "b", true)]

  /** The entity `a` is set; then a commit sets the entity `b`, and its event says so. */
  const BEFORE: World := World(map["a" := "1"], map["space" := FEED_BEFORE])
  const AFTER: World := World(map["a" := "1", "b" := "2"], map["space" := FEED_AFTER])

  const ENTRY_OF_A: Entry := Entry("key", ["a"], "space", 0, 200, "1")

  function PollAfter(since: int): Reply {
    Body(Wire(PageOf(FEED_AFTER, since, REVALIDATE_PAGE_LIMIT)))
  }

  lemma IdsOfA(v: map<string, string>)
    ensures IdsOf(ServiceOfA(), "key", ValueOfA(v)) == ["a"]
    ensures forall key :: IdsOf(ServiceOfA(), key, ValueOfA(v)) == ["a"]
  {
    assert [] + ["a"] == ["a"];
    assert Lower("a") == "a";
    assert Lowered(["a"]) == ["a"];
  }

  lemma ServiceOfAIsLawful()
    ensures Lawful(ServiceOfA())
  {
    hide Lowered, IdsOf;
    forall key, v, v' | SameValues(v, v', IdsOf(ServiceOfA(), key, ServiceOfA().answer(key, v)))
      ensures ServiceOfA().answer(key, v') == ServiceOfA().answer(key, v)
    {
      IdsOfA(v);
      assert "a" in IdsOf(ServiceOfA(), key, ValueOfA(v));
      assert SameValue(v, v', "a");
    }
  }

  lemma SetsB()
    ensures Commits(ServiceOfA(), BEFORE, AFTER, "space", Row(1, "b", true))
  {
    hide Includes;
    assert FEED_BEFORE + [Row(1, "b", true)] == FEED_AFTER;
    assert AFTER.feeds == BEFORE.feeds["space" := FEED_BEFORE + [Row(1, "b", true)]];
    forall id | !SameValue(BEFORE.values, AFTER.values, id)
      ensures Names(Row(1, "b", true), id)
    {
      assert id == "b";
      assert Lower("b") == "b";
      assert OccursAt("b", "b", 0);
      assert Includes("b", "b") by { OccursIncluded("b", "b", 0); }
    }
  }

  lemma OccursIncluded(s: string, t: string, i: nat)
    requires OccursAt(s, t, i)
    ensures Includes(s, t)
  {
  }

  /** The entry of the read after its fetch. */
  lemma FetchedA()
    ensures var disk := Stored(Disk(map[], NoMarks), "file", "key", [], ValueOfA(BEFORE.values), Io(true, true, true));
      Found(disk, "file", "key") == Some(ENTRY_OF_A)
  {
    hide Lowered;
    IdsOfA(BEFORE.values);
  }

  lemma PageAfter(since: int)
    requires since >= 0
    ensures PageOf(FEED_AFTER, since, REVALIDATE_PAGE_LIMIT).items == if since == 0 then [Row(1, "b", true)] else []
  {
    var tail := [Row(1, "b", true)];
    assert FEED_AFTER[1..] == tail && tail[1..] == [];
    assert After(FEED_AFTER, since) == After(tail, since);
    assert After(tail, since) == if since == 0 then tail else After([], since);
    assert Visible([Row(1, "b", true)]) == [Row(1, "b", true)] by {
      assert [Row(1, "b", true)][1..] == [];
    }
  }

  lemma NotMentioned(since: int)
    requires since >= 0
    ensures !Mentions(PollAfter(since).page.items, ["a"])
  {
    hide PageOf, Includes;
    PageAfter(since);
    var items := PollAfter(since).page.items;
    if since == 0 {
      assert items == [Item(Some(1), "b")];
      assert Lower(Replay(items)) == "[b]";
      NoSuchLetter("[b]");
    } else {
      assert Lower(Replay(items)) == "[]";
      NoSuchLetter("[]");
    }
  }

  lemma NoSuchLetter(s: string)
    requires 'a' !in s
    ensures !Includes(s, "a")
  {
    forall i | 0 <= i <= |s| ensures !OccursAt(s, "a", i) {
      if i < |s| {
        assert s[i..i + 1][0] == s[i];
      }
    }
  }

  lemma UnchangedA(poll: (nat, int) -> Reply)
    requires forall k: nat, since: int :: poll(k, since) == PollAfter(since)
    ensures Revalidate(ENTRY_OF_A, poll, 0, 0, None).same
  {
    hide Mentions, PageOf, PollAfter, Revalidate;
    forall k: nat, from: int | from >= 0
      ensures poll(k, from) == Body(Wire(PageOf(FEED_AFTER, from, REVALIDATE_PAGE_LIMIT)))
      ensures !Mentions(poll(k, from).page.items, ENTRY_OF_A.ids)
    {
      NotMentioned(from);
      PollIs(from);
    }
    QuietIsUnchanged(ENTRY_OF_A, poll, FEED_AFTER, 0, 0, None);
    FewRows();
  }

  lemma PollIs(since: int)
    ensures PollAfter(since) == Body(Wire(PageOf(FEED_AFTER, since, REVALIDATE_PAGE_LIMIT)))
  {
  }

  lemma FewRows()
    ensures |After(FEED_AFTER, 0)| == 1
  {
    assert FEED_AFTER[1..] == [Row(1, "b", true)];
  }

  /** A cached read of an entity is served in some run: it is fetched, another entity is changed,
      and the poll of the changed feed mentions nothing of the read. */
  lemma HitHappens() returns (run: seq<System>, at: nat -> nat, poll: (nat, int) -> Reply)
    ensures Lawful(ServiceOfA()) && Run(ServiceOfA(), run) && |run| == 3 && |run[2].h| == 2
    ensures Found(run[2].disk, "file", "key") == Some(ENTRY_OF_A) && ENTRY_OF_A.ids == ["a"]
    ensures Polled(run[2], run[2].h, ENTRY_OF_A.space, at, poll)
    ensures LookedUp(run[2].disk, "file", "key", poll, Io(true, true, true)).1 == Some(ENTRY_OF_A)
  {
    hide Lawful, Stored, Revalidate, PageOf, Commits;
    var sv, io := ServiceOfA(), Io(true, true, true);
    var disk := Stored(Disk(map[], NoMarks), "file", "key", [], ValueOfA(BEFORE.values), io);
    run := [System([BEFORE], Disk(map[], NoMarks)), System([BEFORE], disk), System([BEFORE, AFTER], disk)];
    at, poll := _ => 1, (_, since) => PollAfter(since);
    ServiceOfAIsLawful();
    SetsB();
    FetchedA();
    UnchangedA(poll);
    assert FetchStep(sv, run[0], run[1], "key", io);
    assert [BEFORE, AFTER][..1] == [BEFORE];
    assert CommitStep(sv, run[1], run[2]);
  }
}
