/** An entry whose number is read after its fetch, when another process may have raised the
    watermark in between. When such an entry can be trusted. */
module LateStore {
  import opened Wrappers
  import opened Feed
  import opened Ascii
  import opened ReadCache
  import opened Revalidation
  import opened Coherence

  ghost predicate SameFeeds(h: seq<World>, h': seq<World>) {
    |h| == |h'| && forall i :: 0 <= i < |h| ==> h[i].feeds == h'[i].feeds
  }

  /** The answer to a read at one moment is about these ids of this space. */
  ghost predicate About(sv: Service, w: World, key: string, space: string, ids: seq<string>) {
    var r := sv.answer(key, w.values);
    r.data.Some? && r.data.value.spaceId == Some(space) && IdsOf(sv, key, r) == ids
  }

  /** Whatever lawful service and values stand behind the feeds, an answer of moment j about these
      ids is still the answer at moment n. */
  ghost predicate StillTrue(h: seq<World>, j: nat, n: nat, key: string, space: string, ids: seq<string>)
    requires j <= n < |h|
  {
    forall sv: Service, h': seq<World> ::
      Lawful(sv) && History(sv, h') && SameFeeds(h, h') && About(sv, h'[j], key, space, ids) ==>
        sv.answer(key, h'[n].values) == sv.answer(key, h'[j].values)
  }

  lemma QuietStaysTrue(h: seq<World>, j: nat, n: nat, key: string, space: string, ids: seq<string>)
    requires j <= n < |h|
    requires Quiet(FeedOf(h[n], space), ids, Head(FeedOf(h[j], space)), Head(FeedOf(h[n], space)))
    ensures StillTrue(h, j, n, key, space, ids)
  {
    hide Lawful, Quiet, Head, History, IdsOf;
    forall sv: Service, h': seq<World> |
      Lawful(sv) && History(sv, h') && SameFeeds(h, h') && About(sv, h'[j], key, space, ids)
      ensures sv.answer(key, h'[n].values) == sv.answer(key, h'[j].values)
    {
      assert FeedOf(h'[n], space) == FeedOf(h[n], space) && FeedOf(h'[j], space) == FeedOf(h[j], space);
      var r := sv.answer(key, h'[j].values);
      var e := Entry(key, ids, space, Head(FeedOf(h'[j], space)), r.status, r.text);
      assert GroundedAt(sv, h'[j], e);
      AnswerStands(sv, h', e, j, n);
    }
  }

  // A world in which an event that names an id changes it.

  function Flipped(h: seq<World>, space: string, row: Row, id: string): (h': seq<World>)
    ensures |h'| == |h|
  {
    seq(|h|, i requires 0 <= i < |h| =>
      World(if row in FeedOf(h[i], space) then map[id := "new"] else map[], h[i].feeds))
  }

  /** Reads that show whether the entity is there. */
  function Shows(space: string, id: string, ids: seq<string>): Service {
    Service((_, v: map<string, string>) => Response(200, if id in v then "new" else "old", Some(Payload(Some(space), None, ids))),
            _ => [], _ => space, _ => "file")
  }

  lemma ShowsIds(space: string, id: string, ids: seq<string>, key: string, v: map<string, string>)
    requires Lowered(ids) == ids
    ensures var sv := Shows(space, id, ids);
      sv.answer(key, v).data.Some? && IdsOf(sv, key, sv.answer(key, v)) == ids
  {
    assert [] + ids == ids;
  }

  lemma ShowsIsLawful(space: string, id: string, ids: seq<string>)
    requires Lowered(ids) == ids && id in ids
    ensures Lawful(Shows(space, id, ids))
  {
    hide IdsOf, Lowered;
    var sv := Shows(space, id, ids);
    forall key, v, v' | SameValues(v, v', IdsOf(sv, key, sv.answer(key, v)))
      ensures sv.answer(key, v') == sv.answer(key, v)
    {
      ShowsIds(space, id, ids, key, v);
      assert SameValue(v, v', id);
    }
  }

  lemma FlippedAt(h: seq<World>, space: string, row: Row, id: string, i: nat, sp: string)
    requires i < |h|
    ensures var w := Flipped(h, space, row, id)[i];
      && w.values == (if row in FeedOf(h[i], space) then map[id := "new"] else map[]) && w.feeds == h[i].feeds
      && FeedOf(w, sp) == FeedOf(h[i], sp)
  {
  }

  lemma AppendedHolds(log: Log, r: Row, row: Row)
    ensures row in log + [r] <==> row in log || row == r
  {
  }

  /** Only the commit of the row changes a value. */
  lemma FlippedChanges(h: seq<World>, space: string, row: Row, id: string, i: nat, sp: string, r: Row, other: string)
    requires 0 < i < |h|
    requires FeedOf(h[i], space) == if sp == space then FeedOf(h[i - 1], space) + [r] else FeedOf(h[i - 1], space)
    requires !SameValue(Flipped(h, space, row, id)[i - 1].values, Flipped(h, space, row, id)[i].values, other)
    ensures other == id && sp == space && r == row
  {
    hide FeedOf;
    AppendedHolds(FeedOf(h[i - 1], space), r, row);
  }

  lemma FlippedCommits(sv: Service, h: seq<World>, space: string, row: Row, id: string, ids: seq<string>, i: nat)
    requires History(sv, h) && 0 < i < |h| && row.visible && Names(row, id)
    ensures Committed(Shows(space, id, ids), Flipped(h, space, row, id)[i - 1], Flipped(h, space, row, id)[i])
  {
    hide Names, Head, Flipped, SameValue, Commits, FeedOf;
    var h' := Flipped(h, space, row, id);
    assert Committed(sv, h[i - 1], h[i]);
    var sp, r :| Commits(sv, h[i - 1], h[i], sp, r);
    FlippedAt(h, space, row, id, i - 1, sp);
    FlippedAt(h, space, row, id, i, sp);
    FeedCommitted(sv, h[i - 1], h[i], sp, r, space);
    var sv', w, v := Shows(space, id, ids), h'[i - 1], h'[i];
    forall other ensures !SameValue(w.values, v.values, other) ==> r.visible && Names(r, other) && sv'.home(other) == sp {
      if !SameValue(w.values, v.values, other) {
        FlippedChanges(h, space, row, id, i, sp, r, other);
      }
    }
    CommitsToo(sv, h[i - 1], h[i], sv', w, v, sp, r);
  }

  /** The same row committed to the same feeds, with other values behind them. */
  lemma CommitsToo(sv: Service, w: World, v: World, sv': Service, w': World, v': World, sp: string, r: Row)
    requires Commits(sv, w, v, sp, r) && w'.feeds == w.feeds && v'.feeds == v.feeds
    requires forall other :: !SameValue(w'.values, v'.values, other) ==> r.visible && Names(r, other) && sv'.home(other) == sp
    ensures Commits(sv', w', v', sp, r)
  {
    hide Names, Head, SameValue;
  }

  lemma FeedCommitted(sv: Service, w: World, w': World, sp: string, r: Row, space: string)
    requires Commits(sv, w, w', sp, r)
    ensures FeedOf(w', space) == if sp == space then FeedOf(w, space) + [r] else FeedOf(w, space)
  {
  }

  lemma FlippedIsHistory(sv: Service, h: seq<World>, space: string, row: Row, id: string, ids: seq<string>)
    requires History(sv, h) && row.visible && Names(row, id)
    ensures History(Shows(space, id, ids), Flipped(h, space, row, id)) && SameFeeds(h, Flipped(h, space, row, id))
  {
    hide Names, Head, Committed, Ordered;
    var h' := Flipped(h, space, row, id);
    forall sp ensures Ordered(FeedOf(h'[0], sp)) {
      assert FeedOf(h'[0], sp) == FeedOf(h[0], sp);
    }
    forall i | 0 < i < |h| ensures Committed(Shows(space, id, ids), h'[i - 1], h'[i]) {
      FlippedCommits(sv, h, space, row, id, ids, i);
    }
  }

  lemma NamedMayChange(
      sv: Service, h: seq<World>, j: nat, n: nat, key: string, space: string, ids: seq<string>, row: Row, id: string)
    requires History(sv, h) && j <= n < |h| && Lowered(ids) == ids && id in ids
    requires row in FeedOf(h[n], space) && row.visible && Names(row, id) && row.no > Head(FeedOf(h[j], space))
    ensures !StillTrue(h, j, n, key, space, ids)
  {
    hide Names, Head, History, IdsOf, Lowered, Lawful;
    var sv', h' := Shows(space, id, ids), Flipped(h, space, row, id);
    FlippedIsHistory(sv, h, space, row, id, ids);
    ShowsIsLawful(space, id, ids);
    ShowsIds(space, id, ids, key, h'[j].values);
    assert row !in FeedOf(h[j], space) by {
      HistoryExtends(sv, h, j, n, space);
      BeyondHead(FeedOf(h[j], space), row);
    }
    assert About(sv', h'[j], key, space, ids);
    assert sv'.answer(key, h'[j].values).text == "old" && sv'.answer(key, h'[n].values).text == "new";
  }

  lemma BeyondHead(log: Log, row: Row)
    requires Ordered(log) && row.no > Head(log)
    ensures row !in log
  {
    if row in log {
      HeadIsHighest(log, row);
    }
  }

  /** An entry was fetched at moment j and stored with a number read later; at moment n its
      revalidation finds nothing past that number. For every key and whatever stands behind the
      feeds, serving it is right if and only if no event between the head at the fetch and the
      number names the entry. So a number from before the fetch is always safe. */
  lemma LateStoreExact(sv: Service, h: seq<World>, j: nat, n: nat, e: Entry)
    requires History(sv, h) && j <= n < |h| && Lowered(e.ids) == e.ids
    requires var log := FeedOf(h[n], e.space); e.no <= Head(log) && Quiet(log, e.ids, e.no, Head(log))
    ensures StillTrue(h, j, n, e.key, e.space, e.ids)
      <==> Quiet(FeedOf(h[n], e.space), e.ids, Head(FeedOf(h[j], e.space)), e.no)
    ensures e.no <= Head(FeedOf(h[j], e.space)) ==> StillTrue(h, j, n, e.key, e.space, e.ids)
  {
    hide Names, Head, History, Lowered, StillTrue;
    var log, from := FeedOf(h[n], e.space), Head(FeedOf(h[j], e.space));
    if Quiet(log, e.ids, from, e.no) {
      QuietJoin(log, e.ids, from, e.no, Head(log));
      QuietStaysTrue(h, j, n, e.key, e.space, e.ids);
    } else {
      var row, id :| row in log && id in e.ids && row.visible && from < row.no <= e.no && Names(row, id);
      NamedMayChange(sv, h, j, n, e.key, e.space, e.ids, row, id);
    }
  }

  // Every run in which an answer is stored some time after its fetch.

  /** The entry holds the answer of this moment. Its number is the answer's own, no later than that
      moment, when the answer carries one, and otherwise may be anything. */
  ghost predicate CopyAt(sv: Service, w: World, e: Entry) {
    var r := sv.answer(e.key, w.values);
    && r.data.Some? && r.data.value.spaceId == Some(e.space) && e.ids == IdsOf(sv, e.key, r)
    && r.status == e.status && r.text == e.text
    && (r.data.value.eventSeq.Some? ==> e.no == r.data.value.eventSeq.value <= Head(FeedOf(w, e.space)))
  }

  ghost predicate Copy(sv: Service, h: seq<World>, e: Entry) {
    exists j :: 0 <= j < |h| && CopyAt(sv, h[j], e)
  }

  ghost predicate LateInvariant(sv: Service, s: System) {
    && History(sv, s.h)
    && (forall f :: f in s.disk.files && s.disk.files[f].Whole? ==> Copy(sv, s.h, s.disk.files[f].e))
    && EntriesBelowHead(Now(s), s.disk)
    && MarksBelowHead(Now(s), s.disk)
  }

  /** The answer of moment j is stored now, with the watermark as it is now when the answer carries
      no sequence number of its own. */
  ghost predicate LateFetchStep(sv: Service, s: System, s': System, key: string, j: nat, io: Io) {
    && j < |s.h| && s'.h == s.h
    && var r := sv.answer(key, s.h[j].values);
    && (r.data.Some? && r.data.value.spaceId.Some? && r.data.value.eventSeq.Some? ==>
          r.data.value.eventSeq.value <= Head(FeedOf(s.h[j], r.data.value.spaceId.value)))
    && s'.disk == if r.status < 400 && r.text != [] then Stored(s.disk, sv.fileFor(key), key, sv.pathIds(key), r, io) else s.disk
  }

  ghost predicate LateNext(sv: Service, s: System, s': System) {
    || CommitStep(sv, s, s')
    || (exists key, j, io :: LateFetchStep(sv, s, s', key, j, io))
    || (exists key, at, poll, io :: LookupStep(sv, s, s', key, at, poll, io))
    || (exists ids :: InvalidateStep(s, s', ids))
    || LossStep(s, s')
  }

  ghost predicate LateRun(sv: Service, run: seq<System>) {
    run != [] && Initial(sv, run[0]) && forall i :: 0 < i < |run| ==> LateNext(sv, run[i - 1], run[i])
  }

  lemma CopyExtends(sv: Service, h: seq<World>, h': seq<World>, e: Entry)
    requires Copy(sv, h, e) && |h| <= |h'| && h'[..|h|] == h
    ensures Copy(sv, h', e)
  {
    hide CopyAt;
    var j :| 0 <= j < |h| && CopyAt(sv, h[j], e);
    assert h'[j] == h'[..|h|][j];
  }

  lemma EntriesExtend(sv: Service, h: seq<World>, i: nat, j: nat, d: Disk)
    requires History(sv, h) && i <= j < |h| && EntriesBelowHead(h[i], d)
    ensures EntriesBelowHead(h[j], d)
  {
    hide Head, History;
    forall f | f in d.files && d.files[f].Whole?
      ensures d.files[f].e.no <= Head(FeedOf(h[j], d.files[f].e.space))
    {
      HistoryExtends(sv, h, i, j, d.files[f].e.space);
      HeadGrows(FeedOf(h[i], d.files[f].e.space), FeedOf(h[j], d.files[f].e.space));
    }
  }

  lemma CommitIsHistory(sv: Service, s: System, s': System)
    requires History(sv, s.h) && CommitStep(sv, s, s')
    ensures History(sv, s'.h) && s'.h[|s.h| - 1] == Now(s)
  {
    hide Committed;
    assert s'.h[0] == s'.h[..|s.h|][0] && s'.h[|s.h| - 1] == s'.h[..|s.h|][|s.h| - 1];
    forall i | 0 < i < |s'.h|
      ensures Committed(sv, s'.h[i - 1], s'.h[i])
    {
      assert i < |s.h| ==> s'.h[i] == s'.h[..|s.h|][i];
      assert s'.h[i - 1] == s'.h[..|s.h|][i - 1];
    }
  }

  lemma CommitKeepsLate(sv: Service, s: System, s': System)
    requires LateInvariant(sv, s) && CommitStep(sv, s, s')
    ensures LateInvariant(sv, s')
  {
    hide Committed, Copy, History, EntriesBelowHead, MarksBelowHead;
    CommitIsHistory(sv, s, s');
    forall f | f in s'.disk.files && s'.disk.files[f].Whole?
      ensures Copy(sv, s'.h, s'.disk.files[f].e)
    {
      CopyExtends(sv, s.h, s'.h, s.disk.files[f].e);
    }
    MarksExtend(sv, s'.h, |s.h| - 1, |s'.h| - 1, s.disk);
    EntriesExtend(sv, s'.h, |s.h| - 1, |s'.h| - 1, s.disk);
  }

  lemma LateNoted(sv: Service, s: System, s': System, key: string, j: nat, io: Io)
    requires LateInvariant(sv, s) && LateFetchStep(sv, s, s', key, j, io)
    ensures var r := sv.answer(key, s.h[j].values);
      && MarksBelowHead(Now(s), Noted(s.disk, r, io)) && Noted(s.disk, r, io).files == s.disk.files
      && (r.data.Some? && r.data.value.spaceId.Some? && r.data.value.eventSeq.Some? ==>
            r.data.value.eventSeq.value <= Head(FeedOf(Now(s), r.data.value.spaceId.value)))
  {
    hide History, Head, Copy, EntriesBelowHead, Stored;
    var r := sv.answer(key, s.h[j].values);
    if r.data.Some? && r.data.value.spaceId.Some? && r.data.value.eventSeq.Some? {
      var space := r.data.value.spaceId.value;
      HistoryExtends(sv, s.h, j, |s.h| - 1, space);
      HeadGrows(FeedOf(s.h[j], space), FeedOf(Now(s), space));
      AdvanceKeepsMarks(Now(s), s.disk, space, r.data.value.eventSeq.value, io);
    }
  }

  lemma LateFetchKeepsLate(sv: Service, s: System, s': System, key: string, j: nat, io: Io)
    requires LateInvariant(sv, s) && LateFetchStep(sv, s, s', key, j, io)
    ensures LateInvariant(sv, s')
  {
    hide History, Head, Noted, IdsOf;
    LateNoted(sv, s, s', key, j, io);
    var r := sv.answer(key, s.h[j].values);
    var e := EntryFor(Noted(s.disk, r, io), key, sv.pathIds(key), r, io);
    if e.Some? {
      assert CopyAt(sv, s.h[j], e.value) by { EntryCopies(sv, s.h[j], Noted(s.disk, r, io), key, io); }
      assert Copy(sv, s.h, e.value);
    }
  }

  lemma EntryCopies(sv: Service, w: World, d: Disk, key: string, io: Io)
    requires EntryFor(d, key, sv.pathIds(key), sv.answer(key, w.values), io).Some?
    requires var r := sv.answer(key, w.values);
      r.data.Some? && r.data.value.spaceId.Some? && r.data.value.eventSeq.Some? ==>
        r.data.value.eventSeq.value <= Head(FeedOf(w, r.data.value.spaceId.value))
    ensures CopyAt(sv, w, EntryFor(d, key, sv.pathIds(key), sv.answer(key, w.values), io).value)
  {
  }

  lemma LookupKeepsLate(
      sv: Service, s: System, s': System, key: string, at: nat -> nat, poll: (nat, int) -> Reply, io: Io)
    requires LateInvariant(sv, s) && LookupStep(sv, s, s', key, at, poll, io)
    ensures LateInvariant(sv, s')
  {
    hide History, Copy, Revalidate, Head;
    assert s'.h[|s.h| - 1] == s'.h[..|s.h|][|s.h| - 1] == Now(s);
    LookupKeepsMarks(sv, s, s', key, at, poll, io);
    EntriesExtend(sv, s'.h, |s.h| - 1, |s'.h| - 1, s.disk);
    forall f | f in s.disk.files && s.disk.files[f].Whole?
      ensures Copy(sv, s'.h, s.disk.files[f].e)
    {
      CopyExtends(sv, s.h, s'.h, s.disk.files[f].e);
    }
  }

  lemma DropsKeepLate(sv: Service, s: System, s': System)
    requires LateInvariant(sv, s) && s'.h == s.h
    requires s'.disk.marks == s.disk.marks || s'.disk.marks == NoMarks
    requires forall f :: f in s'.disk.files && s'.disk.files[f].Whole? ==> f in s.disk.files && s'.disk.files[f] == s.disk.files[f]
    ensures LateInvariant(sv, s')
  {
    hide History, Copy;
  }

  lemma LateNextKeeps(sv: Service, s: System, s': System)
    requires LateInvariant(sv, s) && LateNext(sv, s, s')
    ensures LateInvariant(sv, s')
  {
    hide LateInvariant;
    if CommitStep(sv, s, s') {
      CommitKeepsLate(sv, s, s');
    } else if key, j, io :| LateFetchStep(sv, s, s', key, j, io) {
      LateFetchKeepsLate(sv, s, s', key, j, io);
    } else if key, at, poll, io :| LookupStep(sv, s, s', key, at, poll, io) {
      LookupKeepsLate(sv, s, s', key, at, poll, io);
    } else if ids :| InvalidateStep(s, s', ids) {
      DropsKeepLate(sv, s, s');
    } else {
      DropsKeepLate(sv, s, s');
    }
  }

  /** In every reachable state each entry is the answer of some past moment, and neither its number
      nor a watermark is past the head of its feed. */
  lemma {:induction false} LateRunInvariant(sv: Service, run: seq<System>, i: nat)
    requires LateRun(sv, run) && i < |run|
    ensures LateInvariant(sv, run[i])
  {
    hide LateNext;
    if i > 0 {
      LateRunInvariant(sv, run, i - 1);
      LateNextKeeps(sv, run[i - 1], run[i]);
    }
  }

  lemma LowerTwice(s: string)
    ensures Lower(Lower(s)) == Lower(s)
  {
  }

  lemma IdsLowered(sv: Service, key: string, r: Response)
    requires r.data.Some?
    ensures Lowered(IdsOf(sv, key, r)) == IdsOf(sv, key, r)
  {
    hide Lower;
    var ids := sv.pathIds(key) + r.data.value.ids;
    forall i | 0 <= i < |ids| ensures Lower(Lowered(ids)[i]) == Lowered(ids)[i] {
      LowerTwice(ids[i]);
    }
  }

  /** In any reachable state, when the lookup of a key serves an entry, its status and bytes are
      the answer of some moment j. The last poll, at moment n, finds nothing past the entry's number.
      If no event between the head at j and the number names the entry, they are also the answer
      at n; and for every lawful service behind the feeds, exactly then. An answer that carried its
      own number is always still the answer at n. */
  lemma LateServed(
      sv: Service, run: seq<System>, i: nat, h': seq<World>, key: string, at: nat -> nat, poll: (nat, int) -> Reply, io: Io)
    returns (j: nat, n: nat)
    requires Lawful(sv) && LateRun(sv, run) && i < |run| && History(sv, h')
    requires
      var found := Found(run[i].disk, sv.fileFor(key), key);
      found.Some? && Polled(run[i], h', found.value.space, at, poll)
    requires LookedUp(run[i].disk, sv.fileFor(key), key, poll, io).1.Some?
    ensures j < |run[i].h| <= n + 1 <= |h'|
    ensures
      var e := LookedUp(run[i].disk, sv.fileFor(key), key, poll, io).1.value;
      var then_, now := sv.answer(key, h'[j].values), sv.answer(key, h'[n].values);
      var quiet := Quiet(FeedOf(h'[n], e.space), e.ids, Head(FeedOf(h'[j], e.space)), e.no);
      && e.status == then_.status && e.text == then_.text
      && (quiet ==> e.status == now.status && e.text == now.text)
      && (quiet <==> StillTrue(h', j, n, key, e.space, e.ids))
      && then_.data.Some?
      && (then_.data.value.eventSeq.Some? ==>
            && e.no == then_.data.value.eventSeq.value <= Head(FeedOf(h'[j], e.space))
            && e.status == now.status && e.text == now.text)
  {
    hide Lawful, LateNext, Quiet, Head, Revalidate, History, StillTrue, IdsOf;
    var s := run[i];
    LateRunInvariant(sv, run, i);
    var e := Found(s.disk, sv.fileFor(key), key).value;
    var k := PolledIsSound(sv, s, h', e, at, poll);
    n := at(k);
    j :| 0 <= j < |s.h| && CopyAt(sv, s.h[j], e);
    assert h'[j] == h'[..|s.h|][j] == s.h[j];
    IdsLowered(sv, key, sv.answer(key, h'[j].values));
    HistoryExtends(sv, h', |s.h| - 1, n, e.space);
    HeadGrows(FeedOf(Now(s), e.space), FeedOf(h'[n], e.space));
    LateStoreExact(sv, h', j, n, e);
    if StillTrue(h', j, n, key, e.space, e.ids) {
      StillTrueHere(sv, h', j, n, key, e.space, e.ids);
    }
  }

  lemma StillTrueHere(sv: Service, h: seq<World>, j: nat, n: nat, key: string, space: string, ids: seq<string>)
    requires j <= n < |h| && StillTrue(h, j, n, key, space, ids)
    requires Lawful(sv) && History(sv, h) && About(sv, h[j], key, space, ids)
    ensures sv.answer(key, h[n].values) == sv.answer(key, h[j].values)
  {
    assert SameFeeds(h, h);
  }
}
