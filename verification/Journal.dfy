/** Journal accounting: what the totals of a report have to do with its parts. */
module Journal {
  import opened Wrappers

  datatype Class = Agent | Harness | Human

  /** A parsed record. `ephemeral` says that some call targets an ephemeral port, `testCwd` that the
      working directory is the package's own; `startedMs` is the parsed start, if it parses. */
  datatype Record = Record(
    session: string, class_: Option<string>, ephemeral: bool, testCwd: bool, startedMs: Option<int>,
    path: seq<string>, argv: seq<string>, exitCode: Option<int>, agentToCli: int, cliToAgent: int)

  /** `classOf` */
  function ClassOf(r: Record): Class {
    if r.class_ == Some("agent") then Agent
    else if r.class_ == Some("harness") then Harness
    else if r.class_ == Some("human") then Human
    else if r.ephemeral || r.testCwd then Harness
    else Agent
  }

  function EstOf(r: Record): int {
    r.agentToCli + r.cliToAgent
  }

  function JoinSpaces(ss: seq<string>): string {
    if ss == [] then [] else if |ss| == 1 then ss[0] else ss[0] + " " + JoinSpaces(ss[1..])
  }

  /** `argvKey` */
  function ArgvKey(r: Record): string {
    r.session + " " + JoinSpaces(r.argv)
  }

  function CommandName(r: Record): string {
    if r.path != [] then JoinSpaces(r.path) else "(unparsed)"
  }

  /** A row is named by the words of its command path with single spaces between them. */
  lemma NamedByPath(r: Record)
    ensures |r.path| == 0 ==> CommandName(r) == "(unparsed)"
    ensures |r.path| == 1 ==> CommandName(r) == r.path[0]
    ensures |r.path| > 1 ==> CommandName(r) == CommandName(r.(path := r.path[..|r.path| - 1])) + " " + r.path[|r.path| - 1]
  {
    if |r.path| > 1 {
      JoinLast(r.path);
    }
  }

  lemma {:induction false} JoinLast(ss: seq<string>)
    requires |ss| > 1
    ensures JoinSpaces(ss) == JoinSpaces(ss[..|ss| - 1]) + " " + ss[|ss| - 1]
  {
    if |ss| > 2 {
      JoinLast(ss[1..]);
      assert ss[1..][..|ss| - 2] == ss[..|ss| - 1][1..];
    }
  }

  function Failed(r: Record): nat {
    if r.exitCode == Some(0) then 0 else 1
  }

  datatype Row = Row(count: nat, failed: nat, estTokens: int)

  datatype CommandStats = CommandStats(command: string, row: Row, failureRate: real)

  datatype PollLoop = PollLoop(session: string, argv: seq<string>, count: nat, meanGapMs: int)

  datatype Stats = Stats(
    invocations: nat, estTokens: int, failed: nat, failureRate: real,
    refetchRecords: nat, refetchTokens: int, share: real,
    perCommand: seq<CommandStats>, topExpensive: seq<Record>, pollLoops: seq<PollLoop>, byClass: map<Class, nat>)

  // What the parts of a report mean.

  function Selected(all: seq<Record>, filter: Option<Class>): seq<Record> {
    if filter.None? then all
    else if all == [] then []
    else (if ClassOf(all[0]) == filter.value then [all[0]] else []) + Selected(all[1..], filter)
  }

  /** A declared class is the answer; any other record is the harness's if it ran against an
      ephemeral port or in the package's own directory, and an agent's if not. */
  ghost predicate CountsAs(r: Record, c: Class) {
    match r.class_
    case Some("agent") => c == Agent
    case Some("harness") => c == Harness
    case Some("human") => c == Human
    case _ => c != Human && (c == Harness <==> r.ephemeral || r.testCwd)
  }

  lemma ClassExact(r: Record, c: Class)
    ensures ClassOf(r) == c <==> CountsAs(r, c)
  {
  }

  /** A filter keeps, in order, exactly the records that count as the class. */
  lemma {:induction false} SelectedExact(a: seq<Record>, r: Record, b: seq<Record>, c: Class)
    ensures Selected(a + [r] + b, Some(c)) == Selected(a, Some(c)) + (if CountsAs(r, c) then [r] else []) + Selected(b, Some(c))
    ensures Selected([], Some(c)) == [] && Selected(a, None) == a
  {
    hide ClassOf, CountsAs;
    if a == [] {
      ClassExact(r, c);
      assert [] + [r] + b == [r] + b;
      assert ([r] + b)[1..] == b;
    } else {
      assert (a + [r] + b)[1..] == a[1..] + [r] + b;
      SelectedExact(a[1..], r, b, c);
    }
  }

  /** The totals of a list, and of its records with a given name. */
  function Total(records: seq<Record>): Row {
    if records == [] then Row(0, 0, 0) else Plus(Total(Front(records)), Last(records))
  }

  function Tally(records: seq<Record>, name: string): Row {
    if records == [] then Row(0, 0, 0)
    else
      var row := Tally(Front(records), name);
      if CommandName(Last(records)) == name then Plus(row, Last(records)) else row
  }

  function Plus(row: Row, r: Record): Row {
    Row(row.count + 1, row.failed + Failed(r), row.estTokens + EstOf(r))
  }

  function Front<T>(s: seq<T>): seq<T>
    requires s != []
  {
    s[..|s| - 1]
  }

  function Last<T>(s: seq<T>): T
    requires s != []
  {
    s[|s| - 1]
  }

  function Names(records: seq<Record>): (names: seq<string>)
    ensures |names| == |records| && forall i :: 0 <= i < |names| ==> names[i] == CommandName(records[i])
  {
    seq(|records|, i requires 0 <= i < |records| => CommandName(records[i]))
  }

  function Keys(records: seq<Record>): (keys: seq<string>)
    ensures |keys| == |records| && forall i :: 0 <= i < |keys| ==> keys[i] == ArgvKey(records[i])
  {
    seq(|records|, i requires 0 <= i < |records| => ArgvKey(records[i]))
  }

  /** First occurrences, in order. */
  function Firsts(ss: seq<string>): seq<string> {
    if ss == [] then []
    else if Last(ss) in Front(ss) then Firsts(Front(ss))
    else Firsts(Front(ss)) + [Last(ss)]
  }

  /** The records whose key an earlier record has. */
  function Refetched(records: seq<Record>): seq<Record> {
    if records == [] then []
    else Refetched(Front(records)) + (if ArgvKey(Last(records)) in Keys(Front(records)) then [Last(records)] else [])
  }

  function CliTokens(records: seq<Record>): int {
    if records == [] then 0 else CliTokens(Front(records)) + Last(records).cliToAgent
  }

  function Group(records: seq<Record>, key: string): seq<Record> {
    if records == [] then []
    else Group(Front(records), key) + (if ArgvKey(Last(records)) == key then [Last(records)] else [])
  }

  lemma {:induction false} FirstsDistinct(ss: seq<string>)
    ensures forall s :: s in Firsts(ss) <==> s in ss
    ensures forall i, j :: 0 <= i < j < |Firsts(ss)| ==> Firsts(ss)[i] != Firsts(ss)[j]
  {
    if ss != [] {
      FirstsDistinct(Front(ss));
      assert ss == Front(ss) + [Last(ss)];
    }
  }

  // Conservation.

  function SumRows(names: seq<string>, records: seq<Record>): Row {
    if names == [] then Row(0, 0, 0)
    else
      var rest := SumRows(Front(names), records);
      var row := Tally(records, Last(names));
      Row(rest.count + row.count, rest.failed + row.failed, rest.estTokens + row.estTokens)
  }

  lemma {:induction false} SumUnnamed(names: seq<string>, records: seq<Record>)
    requires records != [] && CommandName(Last(records)) !in names
    ensures SumRows(names, records) == SumRows(names, Front(records))
  {
    if names != [] {
      SumUnnamed(Front(names), records);
    }
  }

  lemma {:induction false} SumNamed(names: seq<string>, records: seq<Record>)
    requires records != [] && CommandName(Last(records)) in names
    requires forall i, j :: 0 <= i < j < |names| ==> names[i] != names[j]
    ensures SumRows(names, records) == Plus(SumRows(names, Front(records)), Last(records))
  {
    var name := CommandName(Last(records));
    if Last(names) == name {
      SumUnnamed(Front(names), records);
    } else {
      assert name in Front(names) by {
        assert names == Front(names) + [Last(names)];
      }
      SumNamed(Front(names), records);
    }
  }

  lemma {:induction false} SumNothing(names: seq<string>)
    ensures SumRows(names, []) == Row(0, 0, 0)
  {
    if names != [] {
      SumNothing(Front(names));
    }
  }

  /** Over any list of distinct names that covers the records, the rows add up to the totals. */
  lemma {:induction false} RowsConserve(names: seq<string>, records: seq<Record>)
    requires forall i, j :: 0 <= i < j < |names| ==> names[i] != names[j]
    requires forall i :: 0 <= i < |records| ==> CommandName(records[i]) in names
    ensures SumRows(names, records) == Total(records)
  {
    if records == [] {
      SumNothing(names);
    } else {
      RowsConserve(names, Front(records));
      SumNamed(names, records);
    }
  }

  /** Every record is the first of its key or a refetch. */
  lemma {:induction false} RefetchIsTheRest(records: seq<Record>)
    ensures |Refetched(records)| + |Firsts(Keys(records))| == |records|
  {
    if records != [] {
      RefetchIsTheRest(Front(records));
      assert Front(Keys(records)) == Keys(Front(records));
    }
  }

  lemma {:induction false} RefetchTokens(records: seq<Record>)
    requires forall i :: 0 <= i < |records| ==> records[i].cliToAgent >= 0
    ensures 0 <= CliTokens(Refetched(records)) <= CliTokens(records)
  {
    if records != [] {
      RefetchTokens(Front(records));
      var r := Refetched(records);
      if ArgvKey(Last(records)) in Keys(Front(records)) {
        assert Front(r) == Refetched(Front(records));
      } else {
        assert r == Refetched(Front(records));
      }
    }
  }

  function Share(refetched: int, total: int): real {
    if total == 0 then 0.0 else refetched as real / total as real
  }

  /** The refetch share is a share. */
  lemma ShareInRange(records: seq<Record>)
    requires forall i :: 0 <= i < |records| ==> records[i].cliToAgent >= 0
    ensures 0.0 <= Share(CliTokens(Refetched(records)), CliTokens(records)) <= 1.0
    ensures 0.0 <= Share(Total(records).failed, |records|) <= 1.0
  {
    FailedWithin(records);
    Fraction(Total(records).failed, |records|);
    RefetchTokens(records);
    Fraction(CliTokens(Refetched(records)), CliTokens(records));
  }

  lemma Fraction(a: int, b: int)
    requires 0 <= a <= b
    ensures 0.0 <= Share(a, b) <= 1.0
  {
  }

  // Poll loops.

  function Times(group: seq<Record>): seq<int> {
    if group == [] then []
    else Times(Front(group)) + (if Last(group).startedMs.Some? then [Last(group).startedMs.value] else [])
  }

  /** The starts that parse, in the order of the records. */
  lemma {:induction false} TimesExact(a: seq<Record>, b: seq<Record>)
    ensures Times(a + b) == Times(a) + Times(b)
    ensures |b| == 1 ==> Times(b) == match b[0].startedMs case Some(t) => [t] case None => []
  {
    if b == [] {
      assert a + b == a;
    } else {
      assert Front(a + b) == a + Front(b) && Last(a + b) == Last(b);
      TimesExact(a, Front(b));
    }
  }

  function Insert(t: int, sorted: seq<int>): seq<int> {
    if sorted == [] || t <= sorted[0] then [t] + sorted else [sorted[0]] + Insert(t, sorted[1..])
  }

  function Sort(ts: seq<int>): seq<int> {
    if ts == [] then [] else Insert(ts[0], Sort(ts[1..]))
  }

  function Gaps(ts: seq<int>): int {
    if |ts| < 2 then 0 else ts[1] - ts[0] + Gaps(ts[1..])
  }

  /** `Math.round(a / b)` */
  function Round(a: int, b: int): int
    requires b > 0
  {
    (2 * a + b) / (2 * b)
  }

  /** `n` is nearest to `a / b`, and the larger one of two that are. */
  ghost predicate Nearest(n: int, a: int, b: int) {
    -b <= 2 * (a - n * b) < b
  }

  lemma RoundIsNearest(a: int, b: int)
    requires b > 0
    ensures Nearest(Round(a, b), a, b)
  {
    var n := Round(a, b);
    assert n * (2 * b) <= 2 * a + b < n * (2 * b) + 2 * b;
    assert n * (2 * b) == 2 * (n * b);
  }

  function MeanGap(group: seq<Record>): int {
    var ts := Sort(Times(group));
    if |ts| < 2 then 0 else Round(Gaps(ts), |ts| - 1)
  }

  ghost predicate Ascending(ts: seq<int>) {
    forall i, j :: 0 <= i < j < |ts| ==> ts[i] <= ts[j]
  }

  lemma {:induction false} InsertHolds(t: int, sorted: seq<int>)
    ensures |Insert(t, sorted)| == |sorted| + 1
    ensures forall x :: x in Insert(t, sorted) <==> x == t || x in sorted
  {
    if !(sorted == [] || t <= sorted[0]) {
      InsertHolds(t, sorted[1..]);
      assert sorted == [sorted[0]] + sorted[1..];
    }
  }

  lemma {:induction false} InsertSorted(t: int, sorted: seq<int>)
    requires Ascending(sorted)
    ensures Ascending(Insert(t, sorted))
  {
    if !(sorted == [] || t <= sorted[0]) {
      InsertSorted(t, sorted[1..]);
      InsertHolds(t, sorted[1..]);
      var r := Insert(t, sorted[1..]);
      forall i | 0 <= i < |r| ensures sorted[0] <= r[i] {
        assert r[i] in r;
      }
    }
  }

  lemma {:induction false} SortSorts(ts: seq<int>)
    ensures Ascending(Sort(ts)) && |Sort(ts)| == |ts|
    ensures forall x :: x in Sort(ts) <==> x in ts
  {
    if ts != [] {
      SortSorts(ts[1..]);
      InsertSorted(ts[0], Sort(ts[1..]));
      InsertHolds(ts[0], Sort(ts[1..]));
      assert ts == [ts[0]] + ts[1..];
    }
  }

  lemma {:induction false} GapsTelescope(ts: seq<int>)
    requires ts != []
    ensures Gaps(ts) == ts[|ts| - 1] - ts[0]
  {
    if |ts| > 1 {
      GapsTelescope(ts[1..]);
    }
  }

  /** The mean gap is the span of the group's starts over one less than their number, whatever
      order the records come in. */
  lemma MeanGapIsSpan(group: seq<Record>, first: int, last: int)
    requires |Times(group)| >= 2 && first in Times(group) && last in Times(group)
    requires forall t :: t in Times(group) ==> first <= t <= last
    ensures Nearest(MeanGap(group), last - first, |Times(group)| - 1)
  {
    hide Sort, Round, Nearest;
    RoundIsNearest(last - first, |Times(group)| - 1);
    var ts := Times(group);
    var sorted := Sort(ts);
    SortSorts(ts);
    GapsTelescope(sorted);
    SortedEnds(ts, sorted, first, last);
  }

  lemma SortedEnds(ts: seq<int>, sorted: seq<int>, first: int, last: int)
    requires Ascending(sorted) && sorted != [] && forall x :: x in sorted <==> x in ts
    requires first in ts && last in ts && forall t :: t in ts ==> first <= t <= last
    ensures sorted[0] == first && sorted[|sorted| - 1] == last
  {
    assert first in sorted && last in sorted;
    assert sorted[0] in sorted && sorted[|sorted| - 1] in sorted;
    var i :| 0 <= i < |sorted| && sorted[i] == first;
    var j :| 0 <= j < |sorted| && sorted[j] == last;
    assert sorted[0] <= sorted[i] && sorted[j] <= sorted[|sorted| - 1];
  }

  function LoopOf(records: seq<Record>, key: string): PollLoop
    requires Group(records, key) != []
  {
    var group := Group(records, key);
    PollLoop(group[0].session, group[0].argv, |group|, MeanGap(group))
  }

  /** One entry, in order of first occurrence, for each key that is seen often enough. */
  function LoopsOf(keys: seq<string>, records: seq<Record>, min: nat): seq<PollLoop>
    requires forall i :: 0 <= i < |keys| ==> Group(records, keys[i]) != []
  {
    if keys == [] then []
    else
      LoopsOf(Front(keys), records, min)
      + (if |Group(records, Last(keys))| < min then [] else [LoopOf(records, Last(keys))])
  }

  lemma {:induction false} GroupNonEmpty(records: seq<Record>, key: string)
    ensures Group(records, key) != [] <==> key in Keys(records)
    ensures forall r :: r in Group(records, key) <==> r in records && ArgvKey(r) == key
  {
    if records != [] {
      GroupNonEmpty(Front(records), key);
      assert records == Front(records) + [Last(records)];
      assert Keys(records) == Keys(Front(records)) + [ArgvKey(Last(records))];
    } else {
      assert Keys(records) == [];
    }
  }

  /** The key a poll loop reports. */
  function LoopKey(l: PollLoop): string {
    l.session + " " + JoinSpaces(l.argv)
  }

  lemma LoopOfKey(records: seq<Record>, key: string)
    requires Group(records, key) != []
    ensures LoopKey(LoopOf(records, key)) == key
  {
    hide MeanGap;
    GroupNonEmpty(records, key);
    assert Group(records, key)[0] in Group(records, key);
  }

  ghost predicate Reported(l: PollLoop, records: seq<Record>, min: nat) {
    && l.count == |Group(records, LoopKey(l))| >= min
    && l.meanGapMs == MeanGap(Group(records, LoopKey(l)))
  }

  /** One entry, rightly reported, for each of the keys with a large enough group, and no other. */
  ghost predicate OneEach(loops: seq<PollLoop>, keys: seq<string>, records: seq<Record>, min: nat) {
    && (forall i :: 0 <= i < |loops| ==> Reported(loops[i], records, min) && LoopKey(loops[i]) in keys)
    && (forall i, j :: 0 <= i < j < |loops| ==> LoopKey(loops[i]) != LoopKey(loops[j]))
    && (forall key :: key in keys && |Group(records, key)| >= min ==>
          exists i :: 0 <= i < |loops| && LoopKey(loops[i]) == key)
  }

  lemma {:induction false} LoopsReport(keys: seq<string>, records: seq<Record>, min: nat)
    requires forall i, j :: 0 <= i < j < |keys| ==> keys[i] != keys[j]
    requires forall i :: 0 <= i < |keys| ==> Group(records, keys[i]) != []
    ensures OneEach(LoopsOf(keys, records, min), keys, records, min)
  {
    hide Group, MeanGap, LoopKey, Reported, LoopOf, OneEach;
    if keys == [] {
      NoLoops(records, min);
    } else {
      var front, key := Front(keys), Last(keys);
      assert keys == front + [key];
      assert forall i :: 0 <= i < |front| ==> front[i] == keys[i];
      assert key == keys[|keys| - 1];
      LoopsReport(front, records, min);
      LoopOfKey(records, key);
      assert |Group(records, key)| >= min ==> Reported(LoopOf(records, key), records, min) by {
        LoopIsReported(records, key, min);
      }
      var before := LoopsOf(front, records, min);
      assert before + [] == before;
      assert LoopsOf(keys, records, min) == if |Group(records, key)| < min then before else before + [LoopOf(records, key)];
      OneMore(before, front, records, min, key);
    }
  }

  lemma NoLoops(records: seq<Record>, min: nat)
    ensures OneEach([], [], records, min)
  {
  }

  lemma LoopIsReported(records: seq<Record>, key: string, min: nat)
    requires Group(records, key) != []
    ensures |Group(records, key)| >= min ==> Reported(LoopOf(records, key), records, min)
  {
    hide Group, MeanGap, LoopKey;
    LoopOfKey(records, key);
  }

  lemma OneMore(loops: seq<PollLoop>, keys: seq<string>, records: seq<Record>, min: nat, key: string)
    requires OneEach(loops, keys, records, min) && key !in keys && Group(records, key) != []
    requires LoopKey(LoopOf(records, key)) == key
    requires |Group(records, key)| >= min ==> Reported(LoopOf(records, key), records, min)
    ensures OneEach(if |Group(records, key)| < min then loops else loops + [LoopOf(records, key)], keys + [key], records, min)
  {
    hide Group, MeanGap, LoopKey, Reported, LoopOf;
    if |Group(records, key)| >= min {
      var more := loops + [LoopOf(records, key)];
      assert more[|loops|] == LoopOf(records, key);
      forall k | k in keys + [key] && |Group(records, k)| >= min
        ensures exists i :: 0 <= i < |more| && LoopKey(more[i]) == k
      {
        if k == key {
          assert LoopKey(more[|loops|]) == k;
        } else {
          var i :| 0 <= i < |loops| && LoopKey(loops[i]) == k;
          assert LoopKey(more[i]) == k;
        }
      }
    }
  }

  /** The poll loops of a report are exactly one entry, with its count and mean gap, for each key
      that is seen at least `min` times. */
  lemma PollLoopsExact(records: seq<Record>, min: nat)
    requires min > 0
    ensures Grouped(Firsts(Keys(records)), records)
    ensures var loops := LoopsOf(Firsts(Keys(records)), records, min);
      && (forall i :: 0 <= i < |loops| ==> Reported(loops[i], records, min))
      && (forall i, j :: 0 <= i < j < |loops| ==> LoopKey(loops[i]) != LoopKey(loops[j]))
      && (forall key :: |Group(records, key)| >= min ==> exists i :: 0 <= i < |loops| && LoopKey(loops[i]) == key)
  {
    hide Group, MeanGap, LoopKey, Reported, LoopsOf, Keys, Firsts;
    KeysGrouped(records);
    FirstsDistinct(Keys(records));
    LoopsReport(Firsts(Keys(records)), records, min);
    forall key | |Group(records, key)| >= min ensures key in Firsts(Keys(records)) {
      GroupNonEmpty(records, key);
    }
  }

  // The costliest records.

  function InsertByCost(r: Record, sorted: seq<Record>): seq<Record> {
    if sorted == [] || EstOf(sorted[0]) <= EstOf(r) then [r] + sorted
    else [sorted[0]] + InsertByCost(r, sorted[1..])
  }

  /** `sort((a, b) => estOf(b) - estOf(a))`, which is stable. */
  function ByCost(records: seq<Record>): seq<Record> {
    if records == [] then [] else InsertByCost(records[0], ByCost(records[1..]))
  }

  function TopOf(records: seq<Record>, n: nat): seq<Record> {
    var sorted := ByCost(records);
    if n >= |sorted| then sorted else sorted[..n]
  }

  ghost predicate Descending(records: seq<Record>) {
    forall i, j :: 0 <= i < j < |records| ==> EstOf(records[i]) >= EstOf(records[j])
  }

  lemma {:induction false} InsertByCostHolds(r: Record, sorted: seq<Record>)
    ensures multiset(InsertByCost(r, sorted)) == multiset(sorted) + multiset{r}
    ensures forall x :: x in InsertByCost(r, sorted) ==> x == r || x in sorted
  {
    hide EstOf;
    if !(sorted == [] || EstOf(sorted[0]) <= EstOf(r)) {
      InsertByCostHolds(r, sorted[1..]);
      assert sorted == [sorted[0]] + sorted[1..];
    }
  }

  lemma {:induction false} InsertByCostSorted(r: Record, sorted: seq<Record>)
    requires Descending(sorted)
    ensures Descending(InsertByCost(r, sorted))
  {
    hide EstOf;
    if sorted == [] || EstOf(sorted[0]) <= EstOf(r) {
      DescendingFrom(r, sorted);
    } else {
      InsertByCostSorted(r, sorted[1..]);
      InsertByCostHolds(r, sorted[1..]);
      var rest := InsertByCost(r, sorted[1..]);
      forall i | 0 <= i < |rest| ensures EstOf(sorted[0]) >= EstOf(rest[i]) {
        assert rest[i] in rest;
        assert rest[i] != r ==> rest[i] in sorted[1..];
      }
      DescendingFrom(sorted[0], rest);
    }
  }

  lemma DescendingFrom(r: Record, rest: seq<Record>)
    requires Descending(rest) && (rest != [] ==> EstOf(rest[0]) <= EstOf(r))
    ensures Descending([r] + rest)
  {
    hide EstOf;
    var all := [r] + rest;
    forall i, j | 0 <= i < j < |all| ensures EstOf(all[i]) >= EstOf(all[j]) {
      assert j > 1 ==> EstOf(rest[0]) >= EstOf(rest[j - 1]);
    }
  }

  lemma {:induction false} ByCostSorted(records: seq<Record>)
    ensures Descending(ByCost(records)) && multiset(ByCost(records)) == multiset(records)
  {
    if records != [] {
      ByCostSorted(records[1..]);
      InsertByCostSorted(records[0], ByCost(records[1..]));
      InsertByCostHolds(records[0], ByCost(records[1..]));
      assert records == [records[0]] + records[1..];
    }
  }

  /** The list of expensive records is as long as it may be, in descending order, holds no record
      more often than the journal does, and leaves out none that costs more than one it holds. */
  lemma TopIsCostliest(records: seq<Record>, n: nat)
    ensures var top := TopOf(records, n);
      && |top| == (if n <= |records| then n else |records|) && Descending(top) && multiset(top) <= multiset(records)
      && forall r, kept :: r in multiset(records) - multiset(top) && kept in top ==> EstOf(r) <= EstOf(kept)
  {
    hide ByCost;
    var sorted, top := ByCost(records), TopOf(records, n);
    ByCostSorted(records);
    assert |sorted| == |multiset(sorted)| == |multiset(records)| == |records|;
    var rest := sorted[|top|..];
    assert sorted == top + rest;
    SplitDescending(top, rest);
    assert multiset(records) - multiset(top) == multiset(rest);
  }

  lemma SplitDescending(top: seq<Record>, rest: seq<Record>)
    requires Descending(top + rest)
    ensures Descending(top) && multiset(top + rest) == multiset(top) + multiset(rest)
    ensures forall r, kept :: r in multiset(rest) && kept in top ==> EstOf(r) <= EstOf(kept)
  {
    hide EstOf;
    var all := top + rest;
    assert forall i :: 0 <= i < |top| ==> all[i] == top[i];
    forall r, kept | r in multiset(rest) && kept in top ensures EstOf(r) <= EstOf(kept) {
      var i :| 0 <= i < |rest| && rest[i] == r;
      var j :| 0 <= j < |top| && top[j] == kept;
      assert all[|top| + i] == r && all[j] == kept;
    }
  }

  // When the key is the argument vector.

  predicate SpaceFree(r: Record) {
    && ' ' !in r.session && r.argv != []
    && forall i :: 0 <= i < |r.argv| ==> ' ' !in r.argv[i]
  }

  function BeforeSpace(s: string): string {
    if s == [] || s[0] == ' ' then [] else [s[0]] + BeforeSpace(s[1..])
  }

  lemma {:induction false} BeforeSpaceOf(a: string, x: string)
    requires ' ' !in a
    ensures BeforeSpace(a + " " + x) == a
  {
    if a == [] {
      assert [] + " " + x == " " + x;
    } else {
      assert (a + " " + x)[1..] == a[1..] + " " + x;
      BeforeSpaceOf(a[1..], x);
    }
  }

  lemma SpaceFreeHead(a: string, b: string, x: string, y: string)
    requires ' ' !in a && ' ' !in b && a + " " + x == b + " " + y
    ensures a == b && x == y
  {
    BeforeSpaceOf(a, x);
    BeforeSpaceOf(b, y);
    assert x == (a + " " + x)[|a| + 1..] && y == (b + " " + y)[|b| + 1..];
  }

  lemma {:induction false} JoinSpaceFree(a: seq<string>, b: seq<string>)
    requires a != [] && b != [] && JoinSpaces(a) == JoinSpaces(b)
    requires forall i :: 0 <= i < |a| ==> ' ' !in a[i]
    requires forall i :: 0 <= i < |b| ==> ' ' !in b[i]
    ensures a == b
  {
    SpaceInJoin(a);
    SpaceInJoin(b);
    if |a| > 1 && |b| > 1 {
      SpaceFreeHead(a[0], b[0], JoinSpaces(a[1..]), JoinSpaces(b[1..]));
      JoinSpaceFree(a[1..], b[1..]);
      assert a == [a[0]] + a[1..] && b == [b[0]] + b[1..];
    }
  }

  lemma SpaceInJoin(a: seq<string>)
    requires a != []
    ensures if |a| == 1 then JoinSpaces(a) == a[0] else ' ' in JoinSpaces(a)
  {
    if |a| > 1 {
      assert JoinSpaces(a)[|a[0]|] == ' ';
    }
  }

  /** Without spaces in the session id and the arguments, equal keys mean the same arguments of
      the same session. */
  lemma KeyIsArgv(a: Record, b: Record)
    requires SpaceFree(a) && SpaceFree(b)
    ensures ArgvKey(a) == ArgvKey(b) <==> a.session == b.session && a.argv == b.argv
  {
    if ArgvKey(a) == ArgvKey(b) {
      SpaceFreeHead(a.session, b.session, JoinSpaces(a.argv), JoinSpaces(b.argv));
      JoinSpaceFree(a.argv, b.argv);
    }
  }

  function SplitSpaces(s: string): (ss: seq<string>)
    ensures ss != []
  {
    if s == [] then [[]]
    else
      var rest := SplitSpaces(s[1..]);
      if s[0] == ' ' then [[]] + rest else [[s[0]] + rest[0]] + rest[1..]
  }

  lemma {:induction false} SplitSpacesParts(s: string)
    ensures JoinSpaces(SplitSpaces(s)) == s
    ensures forall i :: 0 <= i < |SplitSpaces(s)| ==> ' ' !in SplitSpaces(s)[i]
  {
    if s != [] {
      SplitSpacesParts(s[1..]);
      var rest := SplitSpaces(s[1..]);
      if s[0] == ' ' {
        var ss := [[]] + rest;
        assert ss[1..] == rest;
        assert [] + " " + JoinSpaces(rest) == s;
      } else {
        JoinHead(s[0], rest);
      }
    }
  }

  lemma JoinHead(c: char, ss: seq<string>)
    requires ss != []
    ensures JoinSpaces([[c] + ss[0]] + ss[1..]) == [c] + JoinSpaces(ss)
  {
    var grown := [[c] + ss[0]] + ss[1..];
    assert grown[1..] == ss[1..];
    if |ss| > 1 {
      assert [c] + ss[0] + " " + JoinSpaces(ss[1..]) == [c] + (ss[0] + " " + JoinSpaces(ss[1..]));
    }
  }

  /** Any other arguments of the session, free of spaces, under the key of these. */
  ghost predicate Confused(a: Record, argv: seq<string>) {
    SpaceFree(a.(argv := argv)) && ArgvKey(a.(argv := argv)) == ArgvKey(a) && argv != a.argv
  }

  /** Without arguments, or with a space in one of them, other arguments share the key. */
  lemma KeyConfuses(a: Record) returns (argv: seq<string>)
    requires ' ' !in a.session && !SpaceFree(a)
    ensures Confused(a, argv)
  {
    argv := SplitSpaces(JoinSpaces(a.argv));
    SplitSpacesParts(JoinSpaces(a.argv));
  }

  /** Among arguments without spaces, a key names the arguments it was made of if and only if they
      are not empty and hold no space. */
  lemma KeyNamesArgv(a: Record)
    requires ' ' !in a.session
    ensures (forall argv: seq<string> :: !Confused(a, argv)) <==> SpaceFree(a)
  {
    if SpaceFree(a) {
      forall argv: seq<string> ensures !Confused(a, argv) {
        if Confused(a, argv) {
          KeyIsArgv(a, a.(argv := argv));
        }
      }
    } else {
      var argv := KeyConfuses(a);
    }
  }

  /** Two records of different arguments, the second of which counts as a refetch. */
  lemma ConfusedIsRefetched(a: Record, b: Record)
    requires ArgvKey(a) == ArgvKey(b)
    ensures Refetched([a, b]) == [b]
  {
    assert Front([a, b]) == [a] && Front([a]) == [];
    assert Refetched([a]) == [];
    assert Keys([a])[0] == ArgvKey(b);
  }

  // The report.

  ghost predicate Reports(rows: seq<CommandStats>, names: seq<string>, records: seq<Record>) {
    && |rows| == |names|
    && forall i :: 0 <= i < |rows| ==>
      && rows[i].command == names[i] && rows[i].row == Tally(records, names[i]) && rows[i].row.count > 0
      && rows[i].failureRate == rows[i].row.failed as real / rows[i].row.count as real
  }

  function CountClass(all: seq<Record>, c: Class): nat {
    if all == [] then 0 else CountClass(Front(all), c) + (if ClassOf(Last(all)) == c then 1 else 0)
  }

  lemma {:induction false} ClassesConserve(all: seq<Record>)
    ensures var m := ClassCounts(all); m[Agent] + m[Harness] + m[Human] == |all|
  {
    if all != [] {
      ClassesConserve(Front(all));
    }
  }

  lemma PrefixStep<T>(s: seq<T>, i: nat)
    requires i < |s|
    ensures s[..i + 1] != [] && Front(s[..i + 1]) == s[..i] && Last(s[..i + 1]) == s[i]
    ensures s[..|s|] == s
  {
  }

  lemma KeysStep(records: seq<Record>, i: nat)
    requires i < |records|
    ensures Keys(records[..i + 1]) != [] && Front(Keys(records[..i + 1])) == Keys(records[..i])
    ensures Last(Keys(records[..i + 1])) == ArgvKey(records[i])
    ensures Names(records[..i + 1]) != [] && Front(Names(records[..i + 1])) == Names(records[..i])
    ensures Last(Names(records[..i + 1])) == CommandName(records[i])
  {
  }

  method CountClasses(all: seq<Record>) returns (byClass: map<Class, nat>)
    ensures byClass == ClassCounts(all)
  {
    hide ClassOf;
    byClass := map[Agent := 0, Harness := 0, Human := 0];
    for i := 0 to |all|
      invariant byClass == ClassCounts(all[..i])
    {
      PrefixStep(all, i);
      var c := ClassOf(all[i]);
      assert c == Agent || c == Harness || c == Human;
      byClass := byClass[c := byClass[c] + 1];
    }
    assert all[..|all|] == all;
  }

  function ClassCounts(all: seq<Record>): (m: map<Class, nat>)
    ensures Agent in m && Harness in m && Human in m
  {
    map[Agent := CountClass(all, Agent), Harness := CountClass(all, Harness), Human := CountClass(all, Human)]
  }

  method CountRefetches(records: seq<Record>) returns (count: nat, tokens: int)
    ensures count == |Refetched(records)| && tokens == CliTokens(Refetched(records))
  {
    hide ArgvKey, Keys;
    var seen: set<string> := {};
    count, tokens := 0, 0;
    for i := 0 to |records|
      invariant forall key :: key in seen <==> key in Keys(records[..i])
      invariant count == |Refetched(records[..i])| && tokens == CliTokens(Refetched(records[..i]))
    {
      PrefixStep(records, i);
      KeysStep(records, i);
      ghost var keys := Keys(records[..i + 1]);
      assert keys == Front(keys) + [Last(keys)];
      RefetchStep(records[..i + 1]);
      var key := ArgvKey(records[i]);
      if key in seen {
        count, tokens := count + 1, tokens + records[i].cliToAgent;
      } else {
        seen := seen + {key};
      }
    }
    assert records[..|records|] == records;
  }

  lemma RefetchStep(records: seq<Record>)
    requires records != []
    ensures var before, now := Refetched(Front(records)), Refetched(records);
      if ArgvKey(Last(records)) in Keys(Front(records)) then
        |now| == |before| + 1 && CliTokens(now) == CliTokens(before) + Last(records).cliToAgent
      else now == before
  {
    hide ArgvKey, Keys;
    var before, now := Refetched(Front(records)), Refetched(records);
    if ArgvKey(Last(records)) in Keys(Front(records)) {
      assert Front(now) == before && Last(now) == Last(records);
    }
  }

  lemma {:induction false} TallyAbsent(records: seq<Record>, name: string)
    ensures if name in Names(records) then Tally(records, name).count > 0 else Tally(records, name) == Row(0, 0, 0)
  {
    hide CommandName, Names;
    if records == [] {
      FirstsOfNone();
    } else {
      TallyAbsent(Front(records), name);
      NamesSplit(records);
    }
  }

  lemma NamesSplit(records: seq<Record>)
    requires records != []
    ensures Names(records) == Names(Front(records)) + [CommandName(Last(records))]
  {
  }

  method TallyCommands(records: seq<Record>) returns (perCommand: seq<CommandStats>)
    ensures Reports(perCommand, Firsts(Names(records)), records)
  {
    hide CommandName, Names, Firsts, Tally;
    var names: seq<string>, rows: map<string, Row> := [], map[];
    FirstsOfNone();
    for i := 0 to |records|
      invariant names == Firsts(Names(records[..i]))
      invariant forall name :: name in rows <==> name in Names(records[..i])
      invariant forall name :: name in rows ==> rows[name] == Tally(records[..i], name)
    {
      var r := records[i];
      var name := CommandName(r);
      PrefixStep(records, i);
      KeysStep(records, i);
      ghost var ns := Names(records[..i + 1]);
      assert ns == Front(ns) + [Last(ns)];
      FirstsStep(ns);
      TallyAbsent(records[..i], name);
      forall n ensures Tally(records[..i + 1], n) ==
        if n == name then Plus(Tally(records[..i], n), r) else Tally(records[..i], n)
      {
        TallyStep(records[..i + 1], n);
      }
      var row := if name in rows then rows[name] else Row(0, 0, 0);
      if name !in rows {
        names := names + [name];
      }
      rows := rows[name := Plus(row, r)];
    }
    assert records[..|records|] == records;
    FirstsDistinct(Names(records));
    perCommand := [];
    for i := 0 to |names|
      invariant Reports(perCommand, names[..i], records)
    {
      assert names[i] in names;
      TallyAbsent(records, names[i]);
      var row := rows[names[i]];
      perCommand := perCommand + [CommandStats(names[i], row, row.failed as real / row.count as real)];
    }
    assert names[..|names|] == names;
  }

  lemma FirstsOfNone()
    ensures Names([]) == [] && Keys([]) == [] && Firsts([]) == []
  {
  }

  lemma FirstsStep(ss: seq<string>)
    requires ss != []
    ensures Firsts(ss) == Firsts(Front(ss)) + (if Last(ss) in Front(ss) then [] else [Last(ss)])
  {
  }

  lemma TallyStep(records: seq<Record>, name: string)
    requires records != []
    ensures Tally(records, name) ==
      if CommandName(Last(records)) == name then Plus(Tally(Front(records), name), Last(records))
      else Tally(Front(records), name)
  {
  }

  ghost predicate Grouped(keys: seq<string>, records: seq<Record>) {
    forall i :: 0 <= i < |keys| ==> Group(records, keys[i]) != []
  }

  lemma KeysGrouped(records: seq<Record>)
    ensures Grouped(Firsts(Keys(records)), records)
  {
    hide Group, Keys, ArgvKey, Firsts;
    FirstsDistinct(Keys(records));
    forall key | key in Firsts(Keys(records)) ensures Group(records, key) != [] {
      GroupNonEmpty(records, key);
    }
  }

  method FindPollLoops(records: seq<Record>, min: nat) returns (loops: seq<PollLoop>)
    ensures Grouped(Firsts(Keys(records)), records)
    ensures loops == LoopsOf(Firsts(Keys(records)), records, min)
  {
    hide ArgvKey, Keys, Firsts, Group, MeanGap;
    var keys: seq<string>, runs: map<string, seq<Record>> := [], map[];
    FirstsOfNone();
    for i := 0 to |records|
      invariant keys == Firsts(Keys(records[..i]))
      invariant forall key :: key in runs <==> key in Keys(records[..i])
      invariant forall key :: key in runs ==> runs[key] == Group(records[..i], key)
    {
      var r := records[i];
      var key := ArgvKey(r);
      PrefixStep(records, i);
      KeysStep(records, i);
      ghost var ks := Keys(records[..i + 1]);
      assert ks == Front(ks) + [Last(ks)];
      FirstsStep(ks);
      GroupNonEmpty(records[..i], key);
      forall k ensures Group(records[..i + 1], k) == Group(records[..i], k) + (if k == key then [r] else []) {
        GroupStep(records[..i + 1], k);
      }
      var group := if key in runs then runs[key] else [];
      if key !in runs {
        keys := keys + [key];
      }
      runs := runs[key := group + [r]];
    }
    assert records[..|records|] == records;
    FirstsDistinct(Keys(records));
    KeysGrouped(records);
    loops := ListLoops(keys, runs, records, min);
  }

  method ListLoops(keys: seq<string>, runs: map<string, seq<Record>>, records: seq<Record>, min: nat)
    returns (loops: seq<PollLoop>)
    requires Grouped(keys, records)
    requires forall key :: key in keys ==> key in runs && runs[key] == Group(records, key)
    ensures loops == LoopsOf(keys, records, min)
  {
    hide ArgvKey, Group, MeanGap;
    loops := [];
    for i := 0 to |keys|
      invariant loops == LoopsOf(keys[..i], records, min)
    {
      assert keys[i] in keys;
      PrefixStep(keys, i);
      var group := runs[keys[i]];
      if |group| >= min {
        loops := loops + [PollLoop(group[0].session, group[0].argv, |group|, MeanGap(group))];
      }
    }
    assert keys[..|keys|] == keys;
  }

  lemma GroupStep(records: seq<Record>, key: string)
    requires records != []
    ensures Group(records, key) == Group(Front(records), key) + (if ArgvKey(Last(records)) == key then [Last(records)] else [])
  {
  }

  method SumTotals(records: seq<Record>) returns (estTokens: int, failed: nat, cliTokens: int)
    ensures Row(|records|, failed, estTokens) == Total(records) && cliTokens == CliTokens(records)
  {
    estTokens, failed, cliTokens := 0, 0, 0;
    for i := 0 to |records|
      invariant Row(i, failed, estTokens) == Total(records[..i]) && cliTokens == CliTokens(records[..i])
    {
      PrefixStep(records, i);
      estTokens := estTokens + EstOf(records[i]);
      if records[i].exitCode != Some(0) {
        failed := failed + 1;
      }
      cliTokens := cliTokens + records[i].cliToAgent;
    }
    assert records[..|records|] == records;
  }

  /** `computeStats`. Its rows and poll loops are in order of first occurrence here. */
  method ComputeStats(all: seq<Record>, filter: Option<Class>, topN: nat, min: nat) returns (stats: Stats)
    ensures var records := Selected(all, filter);
      && stats.invocations == |records| == stats.refetchRecords + |Firsts(Keys(records))|
      && Total(records) == Row(stats.invocations, stats.failed, stats.estTokens)
      && stats.failureRate == Share(stats.failed, |records|)
      && stats.refetchRecords == |Refetched(records)| && stats.refetchTokens == CliTokens(Refetched(records))
      && stats.share == Share(stats.refetchTokens, CliTokens(records))
      && Reports(stats.perCommand, Firsts(Names(records)), records)
      && stats.topExpensive == TopOf(records, topN)
      && Grouped(Firsts(Keys(records)), records)
      && stats.pollLoops == LoopsOf(Firsts(Keys(records)), records, min)
    ensures stats.byClass == ClassCounts(all)
  {
    hide Keys, Names, Firsts, Group, Refetched, Tally, MeanGap, Total, TopOf;
    var byClass := CountClasses(all);
    var records := Selected(all, filter);
    var estTokens, failed, cliTotal := SumTotals(records);
    FailedWithin(records);
    var count, tokens := CountRefetches(records);
    RefetchIsTheRest(records);
    var perCommand := TallyCommands(records);
    var pollLoops := FindPollLoops(records, min);
    stats := Stats(|records|, estTokens, failed, if |records| == 0 then 0.0 else failed as real / |records| as real,
                   count, tokens, if cliTotal == 0 then 0.0 else tokens as real / cliTotal as real,
                   perCommand, TopOf(records, topN), pollLoops, byClass);
  }

  lemma {:induction false} FailedWithin(records: seq<Record>)
    ensures Total(records).failed <= Total(records).count == |records|
  {
    if records != [] {
      FailedWithin(Front(records));
    }
  }

  function SumReported(rows: seq<CommandStats>): Row {
    if rows == [] then Row(0, 0, 0)
    else
      var rest, row := SumReported(Front(rows)), Last(rows).row;
      Row(rest.count + row.count, rest.failed + row.failed, rest.estTokens + row.estTokens)
  }

  lemma {:induction false} SumReportedIsSum(rows: seq<CommandStats>, names: seq<string>, records: seq<Record>)
    requires Reports(rows, names, records)
    ensures SumReported(rows) == SumRows(names, records)
  {
    hide Tally;
    if rows != [] {
      assert forall i :: 0 <= i < |rows| - 1 ==> Front(rows)[i] == rows[i] && Front(names)[i] == names[i];
      SumReportedIsSum(Front(rows), Front(names), records);
    }
  }

  /** The per-command rows of a report add up to its totals. */
  lemma CommandsConserve(rows: seq<CommandStats>, records: seq<Record>)
    requires Reports(rows, Firsts(Names(records)), records)
    ensures SumReported(rows) == Total(records)
  {
    hide Tally, Firsts;
    var names := Firsts(Names(records));
    FirstsDistinct(Names(records));
    SumReportedIsSum(rows, names, records);
    forall i | 0 <= i < |records| ensures CommandName(records[i]) in names {
      assert Names(records)[i] in Names(records);
    }
    RowsConserve(names, records);
  }
}
