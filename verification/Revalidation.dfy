/** The client's revalidation of a cached read: paging the event feed until it is caught up. */
module Revalidation {
  import opened Wrappers
  import opened Feed
  import opened Ascii
  import opened ReadCache

  const REVALIDATE_PAGE_LIMIT := 500
  const REVALIDATE_MAX_PAGES := 3

  /** An event as the client reads it: its JSON text, and its `seq` when that is a number. */
  datatype Item = Item(no: Option<int>, text: string)

  /** A readable page. A field is absent when it is missing or not of the type the client takes. */
  datatype WirePage = WirePage(items: seq<Item>, nextCursor: Option<int>, hasMore: Option<bool>, examinedThrough: Option<int>)

  datatype Reply = Down | HttpError | Unreadable | Body(page: WirePage)

  datatype Outcome = Outcome(same: bool, seen: Option<int>)

  /** `JSON.stringify(events)` */
  function Replay(items: seq<Item>): string {
    "[" + JoinedTexts(items) + "]"
  }

  function JoinedTexts(items: seq<Item>): string {
    if items == [] then []
    else if |items| == 1 then items[0].text
    else items[0].text + "," + JoinedTexts(items[1..])
  }

  predicate Mentions(items: seq<Item>, ids: seq<string>) {
    exists id :: id in ids && Includes(Lower(Replay(items)), id)
  }

  function Max(a: int, b: int): int {
    if a >= b then a else b
  }

  /** The highest sequence number a page carries. */
  function PageMax(items: seq<Item>): Option<int> {
    if items == [] then None
    else
      var rest := PageMax(items[1..]);
      match items[0].no
      case None => rest
      case Some(n) => if rest.None? then Some(n) else Some(Max(n, rest.value))
  }

  function Raised(seen: Option<int>, through: Option<int>): Option<int> {
    if through.None? then seen
    else if seen.None? then through
    else Some(Max(seen.value, through.value))
  }

  /** The number of a page without a cursor is the highest that one of its events carries. */
  lemma {:induction false} PageMaxExact(items: seq<Item>, n: int)
    ensures PageMax(items) == Some(n) <==>
      (exists i :: 0 <= i < |items| && items[i].no == Some(n))
      && forall i :: 0 <= i < |items| && items[i].no.Some? ==> items[i].no.value <= n
    ensures PageMax(items) == None <==> forall i :: 0 <= i < |items| ==> items[i].no.None?
  {
    if items != [] {
      var rest := PageMax(items[1..]);
      PageMaxExact(items[1..], n);
      if rest.Some? {
        PageMaxExact(items[1..], rest.value);
      }
      HeadOrTail(items);
    }
  }

  lemma HeadOrTail(items: seq<Item>)
    requires items != []
    ensures forall i :: 0 < i < |items| ==> items[i] == items[1..][i - 1]
  {
  }

  /** The watermark to leave never falls, and reaches every number that was read. */
  lemma RaisedExact(seen: Option<int>, through: Option<int>, n: int)
    ensures Raised(seen, through) == Some(n) <==>
      (seen == Some(n) || through == Some(n)) && (seen.Some? ==> seen.value <= n) && (through.Some? ==> through.value <= n)
  {
  }

  /** The loop from page `pageNo` on. `poll(pageNo, since)` is what the server answers. */
  function Revalidate(entry: Entry, poll: (nat, int) -> Reply, pageNo: nat, since: int, seen: Option<int>): Outcome
    decreases REVALIDATE_MAX_PAGES - pageNo
  {
    if pageNo >= REVALIDATE_MAX_PAGES then Outcome(false, seen)
    else
      match poll(pageNo, since)
      case Down => Outcome(false, seen)
      case HttpError => Outcome(false, seen)
      case Unreadable => Outcome(false, seen)
      case Body(page) =>
        if Mentions(page.items, entry.ids) then Outcome(false, seen)
        else
          var pageMax := PageMax(page.items);
          var through := if page.examinedThrough.Some? then page.examinedThrough else pageMax;
          var seen' := Raised(seen, through);
          if page.hasMore == Some(false) then Outcome(true, seen')
          else if page.hasMore.None? && |page.items| < REVALIDATE_PAGE_LIMIT then Outcome(true, seen')
          else
            var next := if page.nextCursor.Some? then page.nextCursor else pageMax;
            if next.None? || next.value <= since then Outcome(false, seen')
            else Revalidate(entry, poll, pageNo + 1, next.value, seen')
  }

  /** The source's `unchangedSince`: the paging loop, and the watermark it leaves behind on
      every way out. */
  method UnchangedSince(cache: DirReadCache, entry: Entry, poll: (nat, int) -> Reply, io: Io) returns (same: bool)
    modifies cache
    ensures
      var r := Revalidate(entry, poll, 0, entry.no, None);
      && same == r.same
      && cache.State() == if r.seen.Some? then Advanced(old(cache.State()), entry.space, r.seen.value, io) else old(cache.State())
  {
    var since := entry.no;
    var seen: Option<int> := None;
    var pageNo := 0;
    var decided := false;
    same := false;
    while !decided && pageNo < REVALIDATE_MAX_PAGES
      invariant 0 <= pageNo <= REVALIDATE_MAX_PAGES
      invariant !decided ==> !same
      invariant !decided ==> Revalidate(entry, poll, pageNo, since, seen) == Revalidate(entry, poll, 0, entry.no, None)
      invariant decided ==> Outcome(same, seen) == Revalidate(entry, poll, 0, entry.no, None)
      decreases !decided, REVALIDATE_MAX_PAGES - pageNo
    {
      var reply := poll(pageNo, since);
      if !reply.Body? || Mentions(reply.page.items, entry.ids) {
        decided := true;
      } else {
        var page := reply.page;
        var pageMax := PageMax(page.items);
        var through := if page.examinedThrough.Some? then page.examinedThrough else pageMax;
        if through.Some? {
          seen := Some(Max(if seen.Some? then seen.value else through.value, through.value));
        }
        var next := if page.nextCursor.Some? then page.nextCursor else pageMax;
        if page.hasMore == Some(false) || (page.hasMore.None? && |page.items| < REVALIDATE_PAGE_LIMIT) {
          decided, same := true, true;
        } else if next.None? || next.value <= since {
          decided := true;
        } else {
          since := next.value;
          pageNo := pageNo + 1;
        }
      }
    }
    if seen.Some? {
      cache.AdvanceWatermark(entry.space, seen.value, io);
    }
  }

  /** The disk once the entry for `key` has been looked up and revalidated, and the entry when
      it may be served. */
  function LookedUp(d: Disk, file: string, key: string, poll: (nat, int) -> Reply, io: Io): (Disk, Option<Entry>) {
    var found := Found(d, file, key);
    if found.None? then (d, None)
    else
      var e := found.value;
      var r := Revalidate(e, poll, 0, e.no, None);
      var d' := if r.seen.Some? then Advanced(d, e.space, r.seen.value, io) else d;
      if r.same then (d', Some(e)) else (Evicted(d', file), None)
  }

  /** The cache seam of `send` for a cacheable read: serve the entry, or evict it and fetch. */
  method Lookup(cache: DirReadCache, key: string, skipLookup: bool, poll: (nat, int) -> Reply, io: Io)
    returns (served: Option<Entry>)
    modifies cache
    ensures
      if skipLookup then served == None && cache.State() == old(cache.State())
      else (cache.State(), served) == LookedUp(old(cache.State()), cache.fileFor(key), key, poll, io)
  {
    served := None;
    if !skipLookup {
      var entry := cache.Read(key);
      if entry.Some? {
        var same := UnchangedSince(cache, entry.value, poll, io);
        if same {
          return entry;
        }
        cache.Evict(key);
      }
    }
  }

  /** A lookup serves the entry stored under this very key, untouched, or leaves none under it; no
      other file is touched either way. */
  lemma LookedUpExact(d: Disk, file: string, key: string, poll: (nat, int) -> Reply, io: Io)
    ensures var (d', served) := LookedUp(d, file, key, poll, io);
      if served.Some? then served.value.key == key && file in d.files && d.files[file] == Whole(served.value) && d'.files == d.files
      else if file in d.files && d.files[file].Whole? && d.files[file].e.key == key then d'.files == d.files - {file}
      else d' == d
  {
    hide Revalidate;
  }

  // Soundness against an honest server.

  function ItemOf(r: Row): Item {
    Item(Some(r.no), r.text)
  }

  function ItemsOf(rows: Log): (items: seq<Item>)
    ensures |items| == |rows| && forall i :: 0 <= i < |rows| ==> items[i] == ItemOf(rows[i])
  {
    seq(|rows|, i requires 0 <= i < |rows| => ItemOf(rows[i]))
  }

  /** A page as the current server sends it: with a boolean `hasMore` and its cursor twice. */
  function Wire(p: Page): WirePage {
    WirePage(ItemsOf(p.items), Some(p.through), Some(p.hasMore), Some(p.through))
  }

  /** Every answered poll shows the feed as it stood at that poll; the feed only grows. */
  ghost predicate Honest(poll: (nat, int) -> Reply, feeds: nat -> Log) {
    && (forall k: nat :: Extends(feeds(k), feeds(k + 1)))
    && forall k: nat, since: int :: poll(k, since).Body? ==>
      poll(k, since).page == Wire(PageOf(feeds(k), since, REVALIDATE_PAGE_LIMIT))
  }

  ghost predicate Names(r: Row, id: string) {
    Includes(Lower(r.text), id)
  }

  /** No visible row past `from`, up to `to`, names one of the ids. */
  ghost predicate Quiet(log: Log, ids: seq<string>, from: int, to: int) {
    forall r, id :: r in log && id in ids && r.visible && from < r.no <= to ==> !Names(r, id)
  }

  lemma {:induction false} OccursInJoined(items: seq<Item>, k: nat) returns (a: string, b: string)
    requires k < |items|
    ensures JoinedTexts(items) == a + items[k].text + b
  {
    if |items| == 1 {
      a, b := [], [];
    } else if k == 0 {
      a, b := [], "," + JoinedTexts(items[1..]);
    } else {
      var c, d := OccursInJoined(items[1..], k - 1);
      a, b := items[0].text + "," + c, d;
    }
  }

  lemma IncludesWithin(a: string, s: string, b: string, t: string)
    requires Includes(s, t)
    ensures Includes(a + s + b, t)
  {
    var i :| 0 <= i <= |s| && OccursAt(s, t, i);
    var w := a + s + b;
    assert w[|a| + i..|a| + i + |t|] == s[i..i + |t|];
    assert OccursAt(w, t, |a| + i);
  }

  lemma LowerConcat(a: string, b: string)
    ensures Lower(a + b) == Lower(a) + Lower(b)
  {
  }

  /** An event that names an id makes the page's replay text contain it. */
  lemma NamedRowIsMentioned(rows: Log, k: nat, ids: seq<string>, id: string)
    requires k < |rows| && id in ids && Names(rows[k], id)
    ensures Mentions(ItemsOf(rows), ids)
  {
    hide Lower, Includes;
    var items := ItemsOf(rows);
    var a, b := OccursInJoined(items, k);
    var text := items[k].text;
    assert Replay(items) == ("[" + a) + text + (b + "]");
    LowerConcat("[" + a, text);
    LowerConcat("[" + a + text, b + "]");
    IncludesWithin(Lower("[" + a), Lower(text), Lower(b + "]"), id);
    assert Lower(Replay(items)) == Lower("[" + a) + Lower(text) + Lower(b + "]");
  }

  /** A page that mentions no id is quiet over the stretch it examined. */
  lemma UnmentionedPageIsQuiet(log: Log, ids: seq<string>, since: int)
    requires Ordered(log)
    requires var p := PageOf(log, since, REVALIDATE_PAGE_LIMIT); !Mentions(ItemsOf(p.items), ids)
    ensures Quiet(log, ids, since, PageOf(log, since, REVALIDATE_PAGE_LIMIT).through)
  {
    hide Mentions, Names, PageOf;
    var p := PageOf(log, since, REVALIDATE_PAGE_LIMIT);
    PageCovers(log, since, REVALIDATE_PAGE_LIMIT);
    forall r, id | r in log && id in ids && r.visible && since < r.no <= p.through
      ensures !Names(r, id)
    {
      assert r in p.items;
      var k :| 0 <= k < |p.items| && p.items[k] == r;
      if Names(r, id) {
        NamedRowIsMentioned(p.items, k, ids, id);
      }
    }
  }

  /** Quiet stretches stay quiet as the log grows, up to a point the log had reached. */
  lemma QuietExtends(log: Log, later: Log, ids: seq<string>, from: int, to: int)
    requires Extends(log, later) && to <= Head(log) && Quiet(log, ids, from, to)
    ensures Quiet(later, ids, from, to)
  {
    hide Names;
    forall r, id | r in later && id in ids && r.visible && from < r.no <= to
      ensures !Names(r, id)
    {
      ExtendsRows(log, later, r);
    }
  }

  /** The loop invariant across pages, and what the loop's answer means. */
  lemma {:induction false} RevalidateSound(
      entry: Entry, poll: (nat, int) -> Reply, feeds: nat -> Log, pageNo: nat, since: int, seen: Option<int>)
    returns (k: nat)
    requires Honest(poll, feeds) && entry.no <= since <= Head(feeds(pageNo))
    requires Quiet(feeds(pageNo), entry.ids, entry.no, since)
    requires seen.Some? ==> seen.value <= since
    ensures pageNo <= k
    ensures var r := Revalidate(entry, poll, pageNo, since, seen);
      && (r.same ==> k < REVALIDATE_MAX_PAGES && Quiet(feeds(k), entry.ids, entry.no, Head(feeds(k))))
      && (r.same ==> r.seen.Some? && forall row :: row in feeds(k) ==> row.no <= r.seen.value)
      && (r.seen.Some? ==> r.seen.value <= Head(feeds(k)) && Quiet(feeds(k), entry.ids, entry.no, r.seen.value))
    decreases REVALIDATE_MAX_PAGES - pageNo
  {
    hide Mentions, PageOf, Quiet, Head;
    k := pageNo;
    if seen.Some? {
      QuietShrinks(feeds(pageNo), entry.ids, entry.no, since, seen.value);
    }
    if pageNo < REVALIDATE_MAX_PAGES && poll(pageNo, since).Body? {
      var log := feeds(pageNo);
      var p := PageOf(log, since, REVALIDATE_PAGE_LIMIT);
      assert Extends(log, feeds(pageNo + 1));
      PageCovers(log, since, REVALIDATE_PAGE_LIMIT);
      if !Mentions(ItemsOf(p.items), entry.ids) {
        UnmentionedPageIsQuiet(log, entry.ids, since);
        QuietJoin(log, entry.ids, entry.no, since, p.through);
        assert Raised(seen, Some(p.through)) == Some(p.through);
        if p.hasMore {
          QuietExtends(log, feeds(pageNo + 1), entry.ids, entry.no, p.through);
          HeadGrows(log, feeds(pageNo + 1));
          k := RevalidateSound(entry, poll, feeds, pageNo + 1, p.through, Raised(seen, Some(p.through)));
        } else {
          QuietToHead(log, entry.ids, entry.no, p.through);
        }
      }
    }
  }

  lemma QuietShrinks(log: Log, ids: seq<string>, from: int, to: int, less: int)
    requires Quiet(log, ids, from, to) && less <= to
    ensures Quiet(log, ids, from, less)
  {
    hide Names;
  }

  lemma QuietJoin(log: Log, ids: seq<string>, a: int, b: int, c: int)
    requires Quiet(log, ids, a, b) && Quiet(log, ids, b, c)
    ensures Quiet(log, ids, a, c)
  {
  }

  lemma QuietToHead(log: Log, ids: seq<string>, from: int, to: int)
    requires Quiet(log, ids, from, to) && forall r :: r in log ==> r.no <= to
    ensures Quiet(log, ids, from, Head(log))
  {
  }

  /** The verdict UNCHANGED is right: at the moment of the last poll, no visible event after the
      entry's sequence number named any of its ids, all the way to the head of the feed, and that is
      the watermark left behind. Any watermark left behind lies at the end of a quiet stretch. */
  lemma UnchangedIsQuiet(entry: Entry, poll: (nat, int) -> Reply, feeds: nat -> Log) returns (k: nat)
    requires Honest(poll, feeds) && entry.no <= Head(feeds(0))
    ensures var r := Revalidate(entry, poll, 0, entry.no, None);
      && (r.same ==> k < REVALIDATE_MAX_PAGES && Quiet(feeds(k), entry.ids, entry.no, Head(feeds(k))))
      && (r.same ==> r.seen.Some? && forall row :: row in feeds(k) ==> row.no <= r.seen.value)
      && (r.seen.Some? ==> r.seen.value <= Head(feeds(k)) && Quiet(feeds(k), entry.ids, entry.no, r.seen.value))
  {
    k := RevalidateSound(entry, poll, feeds, 0, entry.no, None);
  }

  /** Over a feed that stands still, and whose pages mention nothing of the entry, the verdict is
      exact: UNCHANGED unless three full pages were committed since. */
  lemma {:induction false} QuietIsUnchanged(
      entry: Entry, poll: (nat, int) -> Reply, log: Log, pageNo: nat, since: int, seen: Option<int>)
    requires Ordered(log) && pageNo <= REVALIDATE_MAX_PAGES
    requires forall k: nat, from: int :: from >= since ==>
      poll(k, from) == Body(Wire(PageOf(log, from, REVALIDATE_PAGE_LIMIT)))
      && !Mentions(poll(k, from).page.items, entry.ids)
    ensures Revalidate(entry, poll, pageNo, since, seen).same
      <==> |After(log, since)| < (REVALIDATE_MAX_PAGES - pageNo) * REVALIDATE_PAGE_LIMIT
    decreases REVALIDATE_MAX_PAGES - pageNo
  {
    hide Mentions, Visible, ItemsOf, After;
    if pageNo < REVALIDATE_MAX_PAGES && |After(log, since)| >= REVALIDATE_PAGE_LIMIT {
      var rows := After(log, since);
      var page := poll(pageNo, since).page;
      AfterFullPage(log, since, REVALIDATE_PAGE_LIMIT);
      var through := if page.examinedThrough.Some? then page.examinedThrough else PageMax(page.items);
      QuietIsUnchanged(entry, poll, log, pageNo + 1, rows[REVALIDATE_PAGE_LIMIT - 1].no, Raised(seen, through));
    }
  }
}
