/** Pages of a server that does not send `hasMore`: the client guesses from a page's length that
    it is the last one. When the guess is right. */
module LegacyPages {
  import opened Wrappers
  import opened Feed
  import opened Ascii
  import opened ReadCache
  import opened Revalidation

  /** A page without `hasMore`. */
  function Bare(p: Page): WirePage {
    Wire(p).(hasMore := None)
  }

  /** A reply with the client's guess spelled out. */
  function Guessed(reply: Reply): Reply {
    if reply.Body? && reply.page.hasMore.None?
    then Body(reply.page.(hasMore := Some(|reply.page.items| >= REVALIDATE_PAGE_LIMIT)))
    else reply
  }

  lemma {:induction false} GuessIsReply(
      entry: Entry, poll: (nat, int) -> Reply, poll': (nat, int) -> Reply, pageNo: nat, since: int, seen: Option<int>)
    requires forall k: nat, from: int :: poll'(k, from) == Guessed(poll(k, from))
    ensures Revalidate(entry, poll, pageNo, since, seen) == Revalidate(entry, poll', pageNo, since, seen)
    decreases REVALIDATE_MAX_PAGES - pageNo
  {
    hide Mentions;
    if pageNo < REVALIDATE_MAX_PAGES && poll(pageNo, since).Body? {
      var page := poll(pageNo, since).page;
      assert poll'(pageNo, since).Body? && poll'(pageNo, since).page.items == page.items;
      var pageMax := PageMax(page.items);
      var through := if page.examinedThrough.Some? then page.examinedThrough else pageMax;
      var next := if page.nextCursor.Some? then page.nextCursor else pageMax;
      if next.Some? {
        GuessIsReply(entry, poll, poll', pageNo + 1, next.value, Raised(seen, through));
      }
    }
  }

  /** Every answered poll shows the feed without `hasMore`; the feed only grows. */
  ghost predicate HonestBare(poll: (nat, int) -> Reply, feeds: nat -> Log) {
    && (forall k: nat :: Extends(feeds(k), feeds(k + 1)))
    && forall k: nat, since: int :: poll(k, since).Body? ==>
      poll(k, since).page == Bare(PageOf(feeds(k), since, REVALIDATE_PAGE_LIMIT))
  }

  /** A page that examined as many rows as it may shows all of them. */
  ghost predicate ShowsFullWindow(p: Page) {
    p.hasMore ==> |p.items| == REVALIDATE_PAGE_LIMIT
  }

  lemma {:induction false} VisibleAtMost(rows: Log)
    ensures |Visible(rows)| <= |rows|
    ensures (forall i :: 0 <= i < |rows| ==> rows[i].visible) <==> Visible(rows) == rows
    ensures |Visible(rows)| == |rows| ==> Visible(rows) == rows
  {
    if rows != [] {
      VisibleAtMost(rows[1..]);
    }
  }

  lemma GuessIsWire(log: Log, since: int)
    requires Ordered(log) && ShowsFullWindow(PageOf(log, since, REVALIDATE_PAGE_LIMIT))
    ensures var p := PageOf(log, since, REVALIDATE_PAGE_LIMIT); Guessed(Body(Bare(p))) == Body(Wire(p))
  {
    hide PageOf, Visible;
    var k, n := ExaminedSlice(log, since, REVALIDATE_PAGE_LIMIT);
    VisibleAtMost(log[k..k + n]);
  }

  /** When no polled page hides rows of a full window, the guess is right: UNCHANGED means that no
      visible event after the entry's number names its ids, up to the head of the feed. */
  lemma GuessIsSound(entry: Entry, poll: (nat, int) -> Reply, feeds: nat -> Log) returns (k: nat)
    requires HonestBare(poll, feeds) && entry.no <= Head(feeds(0))
    requires forall k: nat, since: int ::
      poll(k, since).Body? ==> ShowsFullWindow(PageOf(feeds(k), since, REVALIDATE_PAGE_LIMIT))
    ensures Revalidate(entry, poll, 0, entry.no, None).same ==>
      k < REVALIDATE_MAX_PAGES && Quiet(feeds(k), entry.ids, entry.no, Head(feeds(k)))
  {
    hide PageOf, Wire, Bare, Revalidate, Quiet, ShowsFullWindow, Extends, Head;
    var poll' := (k: nat, since: int) => Guessed(poll(k, since));
    forall k: nat, since: int | poll'(k, since).Body?
      ensures poll'(k, since).page == Wire(PageOf(feeds(k), since, REVALIDATE_PAGE_LIMIT))
    {
      assert Ordered(feeds(k)) by {
        assert Extends(feeds(k), feeds(k + 1));
        OrderedFeed(feeds(k), feeds(k + 1));
      }
      GuessIsWire(feeds(k), since);
    }
    GuessIsReply(entry, poll, poll', 0, entry.no, None);
    k := UnchangedIsQuiet(entry, poll', feeds);
  }

  lemma OrderedFeed(log: Log, later: Log)
    requires Extends(log, later)
    ensures Ordered(log)
  {
  }

  /** So it is right over a feed of which the caller sees every row. */
  lemma AllVisibleShows(log: Log, since: int)
    requires Ordered(log) && forall r :: r in log ==> r.visible
    ensures var p := PageOf(log, since, REVALIDATE_PAGE_LIMIT);
      ShowsFullWindow(p) && (p.hasMore <==> |p.items| >= REVALIDATE_PAGE_LIMIT)
  {
    hide PageOf, Visible;
    var k, n := ExaminedSlice(log, since, REVALIDATE_PAGE_LIMIT);
    var rows := log[k..k + n];
    forall i | 0 <= i < n ensures rows[i].visible {
      assert rows[i] == log[k + i] && log[k + i] in log;
    }
    VisibleAtMost(rows);
  }

  // One short page.

  lemma {:induction false} VisibleOrdered(rows: Log)
    requires Ordered(rows)
    ensures Ordered(Visible(rows))
  {
    if rows != [] {
      VisibleOrdered(rows[1..]);
      var rest := Visible(rows[1..]);
      forall i | 0 <= i < |rest| ensures rows[0].no < rest[i].no {
        VisibleMembers(rows[1..], rest[i]);
        assert rest[i] in rest;
      }
    }
  }

  /** Distinct numbers between two bounds are at most as many as the bounds are apart. */
  lemma {:induction false} RowsFit(rows: Log, from: int, to: int)
    requires Ordered(rows) && forall i :: 0 <= i < |rows| ==> from < rows[i].no <= to
    ensures rows == [] || |rows| <= to - from
  {
    if rows != [] {
      var front := rows[..|rows| - 1];
      RowsFit(front, from, rows[|rows| - 1].no - 1);
    }
  }

  /** One row for every number, `rows` among them, the others hidden. */
  function Padded(rows: Log, lo: int, hi: int): (log: Log)
    requires lo <= hi
    decreases hi - lo
  {
    if lo == hi then []
    else if rows != [] && rows[0].no == lo + 1 then [rows[0]] + Padded(rows[1..], lo + 1, hi)
    else [Row(lo + 1, "", false)] + Padded(rows, lo + 1, hi)
  }

  /** Rows that a page may have examined between its two cursors. */
  ghost predicate Window(log: Log, shown: Log, from: int, to: int) {
    && Ordered(log) && Visible(log) == shown
    && (forall i :: 0 <= i < |log| ==> from < log[i].no <= to)
    && (log != [] ==> log[|log| - 1].no == to)
  }

  lemma {:induction false} PaddedNumbers(rows: Log, lo: int, hi: int)
    requires lo <= hi
    ensures |Padded(rows, lo, hi)| == hi - lo
    ensures forall i :: 0 <= i < hi - lo ==> Padded(rows, lo, hi)[i].no == lo + 1 + i
    decreases hi - lo
  {
    if lo < hi {
      if rows != [] && rows[0].no == lo + 1 {
        PaddedNumbers(rows[1..], lo + 1, hi);
      } else {
        PaddedNumbers(rows, lo + 1, hi);
      }
    }
  }

  lemma {:induction false} PaddedShows(rows: Log, lo: int, hi: int)
    requires lo <= hi && Ordered(rows)
    requires forall i :: 0 <= i < |rows| ==> rows[i].visible && lo < rows[i].no <= hi
    ensures Visible(Padded(rows, lo, hi)) == rows
    decreases hi - lo
  {
    if lo == hi {
      RowsFit(rows, lo, hi);
    } else if rows != [] && rows[0].no == lo + 1 {
      PaddedShows(rows[1..], lo + 1, hi);
      var rest := Padded(rows[1..], lo + 1, hi);
      assert ([rows[0]] + rest)[1..] == rest;
    } else {
      PaddedShows(rows, lo + 1, hi);
      var rest := Padded(rows, lo + 1, hi);
      assert ([Row(lo + 1, "", false)] + rest)[1..] == rest;
    }
  }

  lemma PaddedWindow(rows: Log, lo: int, hi: int)
    requires -1 <= lo <= hi && Ordered(rows)
    requires forall i :: 0 <= i < |rows| ==> rows[i].visible && lo < rows[i].no <= hi
    ensures |Padded(rows, lo, hi)| == hi - lo && Window(Padded(rows, lo, hi), rows, lo, hi)
  {
    hide Padded, Visible;
    PaddedNumbers(rows, lo, hi);
    PaddedShows(rows, lo, hi);
  }

  lemma HiddenBeforeLast(log: Log) returns (i: nat)
    requires |log| >= |Visible(log)| + 2
    ensures i < |log| - 1 && !log[i].visible
  {
    var front, last := log[..|log| - 1], [log[|log| - 1]];
    assert log == front + last;
    VisibleConcat(front, last);
    VisibleAtMost(front);
    i :| 0 <= i < |front| && !front[i].visible;
  }

  lemma WithoutHidden(log: Log, i: nat)
    requires i < |log| && !log[i].visible
    ensures Visible(log[..i] + log[i + 1..]) == Visible(log)
  {
    var a, b := log[..i], log[i + 1..];
    assert log == a + ([log[i]] + b);
    VisibleConcat(a, [log[i]] + b);
    VisibleConcat([log[i]], b);
    VisibleConcat(a, b);
    assert Visible([log[i]]) == [];
  }

  /** A hidden row before the last can go. */
  lemma Thinned(log: Log, shown: Log, from: int, to: int) returns (less: Log)
    requires Window(log, shown, from, to) && |log| >= |shown| + 2
    ensures Window(less, shown, from, to) && |less| == |log| - 1
  {
    hide Visible;
    var i := HiddenBeforeLast(log);
    less := log[..i] + log[i + 1..];
    WithoutHidden(log, i);
    forall j | 0 <= j < |less| ensures less[j] == log[if j < i then j else j + 1] {
    }
  }

  lemma {:induction false} WindowOfSize(log: Log, shown: Log, from: int, to: int, n: nat) returns (less: Log)
    requires Window(log, shown, from, to) && |shown| < n <= |log|
    ensures Window(less, shown, from, to) && |less| == n
    decreases |log|
  {
    hide Window;
    if |log| == n {
      less := log;
    } else {
      less := Thinned(log, shown, from, to);
      less := WindowOfSize(less, shown, from, to, n);
    }
  }

  /** A page of a feed, as the client and the window behind it see it. */
  lemma PageWindow(log: Log, since: int) returns (rows: Log)
    requires Ordered(log)
    ensures var p := PageOf(log, since, REVALIDATE_PAGE_LIMIT);
      && Window(rows, p.items, since, p.through) && since <= p.through
      && (p.hasMore <==> |rows| == REVALIDATE_PAGE_LIMIT) && |rows| <= REVALIDATE_PAGE_LIMIT
      && (rows == [] ==> p.through == since)
  {
    hide PageOf, Visible;
    var k, n := ExaminedSlice(log, since, REVALIDATE_PAGE_LIMIT);
    rows := log[k..k + n];
    forall i | 0 <= i < n ensures rows[i] == log[k + i] {
    }
  }

  lemma WindowRows(rows: Log, shown: Log, from: int, to: int)
    requires Window(rows, shown, from, to)
    ensures Ordered(shown) && |shown| <= |rows|
    ensures forall i :: 0 <= i < |shown| ==> shown[i].visible && from < shown[i].no <= to
  {
    VisibleOrdered(rows);
    VisibleAtMost(rows);
    forall i | 0 <= i < |shown| ensures shown[i].visible && from < shown[i].no <= to {
      VisibleMembers(rows, shown[i]);
      assert shown[i] in shown;
    }
  }

  /** A full window with one more row after it, which nobody has polled. */
  lemma PageBefore(rows: Log, since: int, next: Row)
    requires Ordered(rows + [next]) && |rows| == REVALIDATE_PAGE_LIMIT && rows[0].no > since
    ensures PageOf(rows + [next], since, REVALIDATE_PAGE_LIMIT) == Page(Visible(rows), rows[|rows| - 1].no, true)
  {
    hide Visible;
    var log := rows + [next];
    assert log[0] == rows[0] && log[..REVALIDATE_PAGE_LIMIT] == rows;
  }

  /** A short page that mentions nothing of the entry is taken for the last one, whichever of the
      three polls it answers. Every feed that gives this page bears that out if and only if its
      cursor moved by less than a full window. */
  lemma ShortPageExact(
      entry: Entry, poll: (nat, int) -> Reply, log: Log, pageNo: nat, since: int, seen: Option<int>, id: string)
    requires Ordered(log) && pageNo < REVALIDATE_MAX_PAGES && since >= -1 && id in entry.ids && Lower(id) == id
    requires var p := PageOf(log, since, REVALIDATE_PAGE_LIMIT);
      && |p.items| < REVALIDATE_PAGE_LIMIT && !Mentions(ItemsOf(p.items), entry.ids)
      && poll(pageNo, since) == Body(Bare(p))
    ensures Revalidate(entry, poll, pageNo, since, seen).same
    ensures var p := PageOf(log, since, REVALIDATE_PAGE_LIMIT);
      (forall other: Log :: GivesPage(other, since, p) ==> Quiet(other, entry.ids, since, Head(other)))
      <==> p.through - since < REVALIDATE_PAGE_LIMIT
  {
    hide Mentions, PageOf, Quiet, Head, GivesPage;
    var p := PageOf(log, since, REVALIDATE_PAGE_LIMIT);
    if p.through - since < REVALIDATE_PAGE_LIMIT {
      forall other: Log | GivesPage(other, since, p) ensures Quiet(other, entry.ids, since, Head(other)) {
        NearPageIsLast(other, since, p, entry.ids);
      }
    } else {
      var other := FarPageMayHide(log, since, entry.ids, id);
    }
  }

  /** A feed that answers a poll with this page, as far as the client can tell. */
  ghost predicate GivesPage(log: Log, since: int, p: Page) {
    Ordered(log) && Bare(PageOf(log, since, REVALIDATE_PAGE_LIMIT)) == Bare(p)
  }

  lemma NearPageIsLast(other: Log, since: int, p: Page, ids: seq<string>)
    requires GivesPage(other, since, p) && p.through - since < REVALIDATE_PAGE_LIMIT
    requires !Mentions(ItemsOf(p.items), ids)
    ensures Quiet(other, ids, since, Head(other))
  {
    hide Mentions, PageOf, Quiet, Head;
    var q := PageOf(other, since, REVALIDATE_PAGE_LIMIT);
    var rows := PageWindow(other, since);
    RowsFit(rows, since, q.through);
    PageCovers(other, since, REVALIDATE_PAGE_LIMIT);
    UnmentionedPageIsQuiet(other, ids, since);
    QuietToHead(other, ids, since, q.through);
  }

  lemma FarPageMayHide(log: Log, since: int, ids: seq<string>, id: string) returns (other: Log)
    requires Ordered(log) && since >= -1 && id in ids && Lower(id) == id
    requires var p := PageOf(log, since, REVALIDATE_PAGE_LIMIT);
      |p.items| < REVALIDATE_PAGE_LIMIT <= p.through - since
    ensures GivesPage(other, since, PageOf(log, since, REVALIDATE_PAGE_LIMIT))
    ensures !Quiet(other, ids, since, Head(other))
  {
    hide PageOf, Visible, Padded;
    var p := PageOf(log, since, REVALIDATE_PAGE_LIMIT);
    var window := PageWindow(log, since);
    WindowRows(window, p.items, since, p.through);
    PaddedWindow(p.items, since, p.through);
    var rows := WindowOfSize(Padded(p.items, since, p.through), p.items, since, p.through, REVALIDATE_PAGE_LIMIT);
    var next := Row(p.through + 1, id, true);
    other := rows + [next];
    assert forall i :: 0 <= i < |rows| ==> other[i] == rows[i];
    PageBefore(rows, since, next);
    assert next == other[|rows|] && next in other;
    SelfNamed(id);
  }

  lemma SelfNamed(id: string)
    requires Lower(id) == id
    ensures Names(Row(0, id, true), id)
  {
    assert OccursAt(Lower(id), id, 0);
  }

  /** A short page that is not the last: five hundred rows that the page leaves out, and after
      them the event that names the entry. */
  lemma ShortPageIsNoEnd() returns (entry: Entry, poll: (nat, int) -> Reply, log: Log)
    ensures Ordered(log) && entry.no <= Head(log)
    ensures poll(0, entry.no) == Body(Bare(PageOf(log, entry.no, REVALIDATE_PAGE_LIMIT)))
    ensures Revalidate(entry, poll, 0, entry.no, None).same && !Quiet(log, entry.ids, entry.no, Head(log))
  {
    entry := Entry("k", ["a"], "s", 0, 200, "t");
    var hidden := seq(REVALIDATE_PAGE_LIMIT, i => Row(i + 1, "x", false));
    log := hidden + [Row(REVALIDATE_PAGE_LIMIT + 1, "a", true)];
    assert log[..REVALIDATE_PAGE_LIMIT] == hidden;
    if Visible(hidden) != [] {
      VisibleMembers(hidden, Visible(hidden)[0]);
    }
    var page := Bare(PageOf(log, 0, REVALIDATE_PAGE_LIMIT));
    assert page.items == [];
    poll := (k, since) => Body(page);
    NothingMentioned();
    assert Lower("a") == "a";
    SelfNamed("a");
    assert log[REVALIDATE_PAGE_LIMIT] in log && Names(log[REVALIDATE_PAGE_LIMIT], "a");
  }

  lemma NothingMentioned()
    ensures !Mentions([], ["a"])
  {
    assert Lower(Replay([])) == "[]";
    forall i | 0 <= i <= 2
      ensures !OccursAt("[]", "a", i)
    {
      if i < 2 {
        assert "[]"[i..i + 1][0] == "[]"[i];
      }
    }
  }
}
