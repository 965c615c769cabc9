/** A run in which the cache serves a stale answer: another read of the session raises the
    watermark while the answer is on its way. */
module StaleHit {
  import opened Wrappers
  import opened Feed
  import opened Ascii
  import opened ReadCache
  import opened Revalidation
  import opened Coherence
  import opened LateStore

  function Text(v: map<string, string>): string {
    if "a" in v && v["a"] != "" then v["a"] else "none"
  }

  /** Both reads are of the entity `a`. The one called `context` carries the sequence number of the
      event that set it, the other none. */
  function Answer(key: string, v: map<string, string>): Response {
    var no := if key != "context" then None else if Text(v) == "2" then Some(1) else Some(0);
    Response(200, Text(v), Some(Payload(Some("space"), no, ["a"])))
  }

  function Reads(): Service {
    Service((key, v) => Answer(key, v), _ => [], _ => "space", key => key)
  }

  const FEED_BEFORE: Log := [Row(0, "first", true)]
  const FEED_AFTER: Log := [Row(0, "first", true), Row(1, "a", true)]

  /** The entity is "1"; then a commit makes it "2", and its event says so. */
  const BEFORE: World := World(map["a" := "1"], map["space" := FEED_BEFORE])
  const AFTER: World := World(map["a" := "2"], map["space" := FEED_AFTER])

  const IO: Io := Io(true, true, true)
  const EMPTY: Disk := Disk(map[], NoMarks)
  const CONTEXT: Entry := Entry("context", ["a"], "space", 1, 200, "2")
  const STALE: Entry := Entry("key", ["a"], "space", 1, 200, "1")
  const RAISED: Disk := Disk(map["context" := Whole(CONTEXT)], Marks(map["space" := 1]))
  const STORED: Disk := Disk(map["context" := Whole(CONTEXT), "key" := Whole(STALE)], Marks(map["space" := 1]))

  lemma IdsOfReads(key: string, v: map<string, string>)
    ensures IdsOf(Reads(), key, Answer(key, v)) == ["a"] && Lowered([] + ["a"]) == ["a"]
  {
    assert [] + ["a"] == ["a"];
    assert Lower("a") == "a";
  }

  lemma ReadsAreLawful()
    ensures Lawful(Reads())
  {
    hide Lowered, IdsOf;
    forall key, v, v' | SameValues(v, v', IdsOf(Reads(), key, Reads().answer(key, v)))
      ensures Reads().answer(key, v') == Reads().answer(key, v)
    {
      IdsOfReads(key, v);
      assert "a" in IdsOf(Reads(), key, Answer(key, v));
      assert SameValue(v, v', "a");
    }
  }

  lemma SetsA()
    ensures Commits(Reads(), BEFORE, AFTER, "space", Row(1, "a", true))
  {
    hide Includes;
    assert FEED_BEFORE + [Row(1, "a", true)] == FEED_AFTER;
    assert AFTER.feeds == BEFORE.feeds["space" := FEED_AFTER];
    forall id | !SameValue(BEFORE.values, AFTER.values, id)
      ensures Names(Row(1, "a", true), id)
    {
      assert id == "a";
      assert Lower("a") == "a";
      OccursIncluded("a", "a", 0);
    }
  }

  lemma ContextIsStored()
    ensures Stored(EMPTY, "context", "context", [], Answer("context", AFTER.values), IO) == RAISED
  {
    hide Lowered;
    IdsOfReads("context", AFTER.values);
    assert Text(AFTER.values) == "2";
  }

  lemma StaleIsStored()
    ensures Stored(RAISED, "key", "key", [], Answer("key", BEFORE.values), IO) == STORED
  {
    hide Lowered;
    IdsOfReads("key", BEFORE.values);
    assert Text(BEFORE.values) == "1";
  }

  lemma NothingNew(since: int)
    requires since >= 1
    ensures After(FEED_AFTER, since) == [] && PageOf(FEED_AFTER, since, REVALIDATE_PAGE_LIMIT).items == []
  {
    var tail := [Row(1, "a", true)];
    assert FEED_AFTER[1..] == tail && tail[1..] == [];
    assert After(FEED_AFTER, since) == After(tail, since) == After([], since);
  }

  lemma StaleIsUnchanged(poll: (nat, int) -> Reply)
    requires forall k: nat, since: int :: poll(k, since) == Body(Wire(PageOf(FEED_AFTER, since, REVALIDATE_PAGE_LIMIT)))
    ensures Revalidate(STALE, poll, 0, 1, None).same
  {
    hide Mentions, PageOf, Revalidate, After;
    forall k: nat, from: int | from >= 1
      ensures !Mentions(poll(k, from).page.items, STALE.ids)
    {
      NothingNew(from);
      EmptyMentionsNothing();
    }
    NothingNew(1);
    QuietIsUnchanged(STALE, poll, FEED_AFTER, 0, 1, None);
  }

  lemma EmptyMentionsNothing()
    ensures !Mentions([], ["a"])
  {
    hide Includes;
    assert Lower(Replay([])) == "[]";
    NoSuchLetter("[]");
  }

  const WORLDS: seq<World> := [BEFORE, AFTER]
  const RUN: seq<System> := [System([BEFORE], EMPTY), System(WORLDS, EMPTY), System(WORLDS, RAISED), System(WORLDS, STORED)]

  lemma SetsAInRun()
    ensures CommitStep(Reads(), RUN[0], RUN[1])
  {
    hide Commits;
    SetsA();
    assert WORLDS[..1] == [BEFORE];
  }

  lemma ContextInRun()
    ensures LateFetchStep(Reads(), RUN[1], RUN[2], "context", 1, IO)
  {
    hide Stored;
    Texts();
    ContextIsStored();
  }

  lemma StaleInRun()
    ensures LateFetchStep(Reads(), RUN[2], RUN[3], "key", 0, IO)
  {
    hide Stored;
    Texts();
    StaleIsStored();
  }

  lemma RunsLate()
    ensures LateRun(Reads(), RUN)
  {
    hide CommitStep, LateFetchStep;
    SetsAInRun();
    ContextInRun();
    StaleInRun();
    assert Initial(Reads(), RUN[0]);
  }

  /** The read is answered "1"; the entity becomes "2"; the other read stores that and raises the
      watermark to its event; the answer is stored against that watermark; and a lookup whose every
      poll shows the feed as it is serves "1" where a fetch answers "2". */
  lemma StaleHitHappens() returns (at: nat -> nat, poll: (nat, int) -> Reply)
    ensures Lawful(Reads()) && LateRun(Reads(), RUN) && RUN[3] == System(WORLDS, STORED)
    ensures Polled(RUN[3], WORLDS, STALE.space, at, poll)
    ensures LookedUp(STORED, "key", "key", poll, IO).1 == Some(STALE)
    ensures STALE.text == "1" && Reads().answer("key", AFTER.values).text == "2"
  {
    hide Lawful, LateRun, Revalidate, PageOf;
    at, poll := _ => 1, (_, since) => Body(Wire(PageOf(FEED_AFTER, since, REVALIDATE_PAGE_LIMIT)));
    Texts();
    ReadsAreLawful();
    RunsLate();
    StaleIsUnchanged(poll);
    assert WORLDS[..2] == WORLDS;
  }

  lemma Texts()
    ensures Text(BEFORE.values) == "1" && Text(AFTER.values) == "2"
  {
  }
}
