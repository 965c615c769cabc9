/** A space's durable event feed and one page of it, as the poll endpoint cuts it. */
module Feed {
  import opened Wrappers

  /** One row of a space's event log that row security lets the caller read: its sequence number,
      the event as JSON text, and whether a page carries it. A deleted or unreadable subject keeps
      a row off the page, though the page has examined it. */
  datatype Row = Row(no: int, text: string, visible: bool)

  type Log = seq<Row>

  /** Sequence order is commit order, without repeats. */
  ghost predicate Ordered(log: Log) {
    && (forall i :: 0 <= i < |log| ==> log[i].no >= 0)
    && forall i, j :: 0 <= i < j < |log| ==> log[i].no < log[j].no
  }

  /** The highest sequence number committed. */
  function Head(log: Log): int {
    if log == [] then -1 else log[|log| - 1].no
  }

  datatype Page = Page(items: seq<Row>, through: int, hasMore: bool)

  /** `where seq > since order by seq asc` */
  function After(log: Log, since: int): Log {
    if log == [] || log[0].no > since then log else After(log[1..], since)
  }

  function Visible(rows: Log): Log {
    if rows == [] then []
    else if rows[0].visible then [rows[0]] + Visible(rows[1..])
    else Visible(rows[1..])
  }

  /** The first `limit` rows after `since` are examined; the visible ones are returned; the
      cursor covers every examined row; more is promised when the examine cap was hit. */
  function PageOf(log: Log, since: int, limit: nat): Page {
    var rows := After(log, since);
    var examined := if |rows| <= limit then rows else rows[..limit];
    Page(Visible(examined), if examined == [] then since else examined[|examined| - 1].no, |examined| == limit)
  }

  lemma {:induction false} AfterIsSuffix(log: Log, since: int) returns (k: nat)
    requires Ordered(log)
    ensures k <= |log| && After(log, since) == log[k..]
    ensures forall i :: 0 <= i < k ==> log[i].no <= since
    ensures forall i :: k <= i < |log| ==> log[i].no > since
  {
    if log == [] || log[0].no > since {
      k := 0;
      assert log[0..] == log;
    } else {
      var j := AfterIsSuffix(log[1..], since);
      k := j + 1;
      assert log[1..][j..] == log[k..];
      forall i | 0 <= i < k
        ensures log[i].no <= since
      {
        assert i > 0 ==> log[i] == log[1..][i - 1];
      }
      forall i | k <= i < |log|
        ensures log[i].no > since
      {
        assert log[i] == log[1..][i - 1];
      }
    }
  }

  lemma {:induction false} VisibleMembers(rows: Log, r: Row)
    ensures r in Visible(rows) <==> r in rows && r.visible
  {
    if rows != [] {
      VisibleMembers(rows[1..], r);
      assert rows == [rows[0]] + rows[1..];
    }
  }

  lemma {:induction false} VisibleConcat(a: Log, b: Log)
    ensures Visible(a + b) == Visible(a) + Visible(b)
  {
    if a == [] {
      assert a + b == b;
    } else {
      VisibleConcat(a[1..], b);
      assert (a + b)[1..] == a[1..] + b;
    }
  }

  /** The rows a page examined are a slice of the log. */
  lemma ExaminedSlice(log: Log, since: int, limit: nat) returns (k: nat, n: nat)
    requires Ordered(log) && limit > 0
    ensures k + n <= |log| && n <= limit
    ensures PageOf(log, since, limit) == Page(Visible(log[k..k + n]), if n == 0 then since else log[k + n - 1].no, n == limit)
    ensures n < limit ==> k + n == |log|
    ensures forall i :: 0 <= i < k ==> log[i].no <= since
    ensures forall i :: k <= i < |log| ==> log[i].no > since
  {
    hide Visible;
    k := AfterIsSuffix(log, since);
    n := if |log| - k <= limit then |log| - k else limit;
    SliceOfSuffix(log, k, n);
  }

  lemma SliceOfSuffix(log: Log, k: nat, n: nat)
    requires k + n <= |log|
    ensures log[k..][..n] == log[k..k + n]
    ensures k + n == |log| ==> log[k..] == log[k..k + n]
  {
  }

  lemma SliceMembers(log: Log, k: nat, n: nat, r: Row)
    requires Ordered(log) && k + n <= |log|
    ensures r in log[k..k + n] <==> exists i :: k <= i < k + n && log[i] == r
  {
    if i :| k <= i < k + n && log[i] == r {
      assert log[k..k + n][i - k] == r;
    }
  }

  /** What a page promises: every visible row up to its cursor is on it, the cursor stays within
      the log, a full page moves forward, and a page that is not full reaches the head. */
  lemma PageCovers(log: Log, since: int, limit: nat)
    requires Ordered(log) && limit > 0
    ensures var p := PageOf(log, since, limit);
      && (forall r :: r in p.items <==> r in log && r.visible && since < r.no <= p.through)
      && since <= p.through && (p.through <= since || p.through <= Head(log))
      && (p.hasMore ==> since < p.through)
      && (!p.hasMore ==> forall r :: r in log ==> r.no <= p.through)
  {
    var k, n := ExaminedSlice(log, since, limit);
    var p := PageOf(log, since, limit);
    hide PageOf, Visible;
    forall r
      ensures r in p.items <==> r in log && r.visible && since < r.no <= p.through
    {
      VisibleMembers(log[k..k + n], r);
      SliceMembers(log, k, n, r);
    }
  }

  /** A later state of the log only adds rows beyond the head. */
  ghost predicate Extends(log: Log, later: Log) {
    Ordered(log) && Ordered(later) && |log| <= |later| && later[..|log|] == log
  }

  lemma ExtendsRows(log: Log, later: Log, r: Row)
    requires Extends(log, later)
    ensures r in log ==> r in later
    ensures r in later && r !in log ==> r.no > Head(log)
    ensures Head(log) <= Head(later)
  {
    if r in log {
      var i :| 0 <= i < |log| && log[i] == r;
      assert later[i] == r;
    }
    assert forall i :: 0 <= i < |log| ==> log[i] == later[..|log|][i] == later[i];
    if r in later && r !in log {
      var i :| 0 <= i < |later| && later[i] == r;
    }
  }

  lemma HeadGrows(log: Log, later: Log)
    requires Extends(log, later)
    ensures Head(log) <= Head(later)
  {
    if later != [] {
      ExtendsRows(log, later, later[0]);
    }
  }

  lemma ExtendsTransitive(a: Log, b: Log, c: Log)
    requires Extends(a, b) && Extends(b, c)
    ensures Extends(a, c)
  {
    assert c[..|a|] == c[..|b|][..|a|];
  }

  lemma CutUnique(log: Log, since: int, m: nat, n: nat)
    requires m <= |log| && n <= |log|
    requires forall i :: 0 <= i < |log| ==> (i < m <==> log[i].no <= since)
    requires forall i :: 0 <= i < |log| ==> (i < n <==> log[i].no <= since)
    ensures m == n
  {
    var atM, atN := if m < |log| then log[m].no else 0, if n < |log| then log[n].no else 0;
  }

  /** What is left of the feed after a full page. */
  lemma {:induction false} AfterFullPage(log: Log, since: int, limit: nat)
    requires Ordered(log) && 0 < limit <= |After(log, since)|
    ensures var next := After(log, since)[limit - 1].no;
      since < next && After(log, next) == After(log, since)[limit..]
  {
    var k := AfterIsSuffix(log, since);
    var next := log[k + limit - 1].no;
    assert After(log, since)[limit - 1].no == next;
    var m := AfterIsSuffix(log, next);
    CutUnique(log, next, m, k + limit);
    assert log[k..][limit..] == log[k + limit..];
  }
}
