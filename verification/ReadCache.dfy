/** The session read cache: one file per key beside a file of per-space watermarks. */
module ReadCache {
  import opened Wrappers
  import opened Feed
  import opened Ascii

  // Text.

  predicate OccursAt(s: string, t: string, i: nat) {
    i + |t| <= |s| && s[i..i + |t|] == t
  }

  /** `s.includes(t)` */
  predicate Includes(s: string, t: string) {
    exists i | 0 <= i <= |s| :: OccursAt(s, t, i)
  }

  function Lowered(ids: seq<string>): (r: seq<string>)
    ensures |r| == |ids| && forall i :: 0 <= i < |ids| ==> r[i] == Lower(ids[i])
  {
    seq(|ids|, i requires 0 <= i < |ids| => Lower(ids[i]))
  }

  // Data.

  /** What the cache reads in a response: its text, and what `JSON.parse` finds in `data`. */
  datatype Payload = Payload(spaceId: Option<string>, eventSeq: Option<int>, ids: seq<string>)
  datatype Response = Response(status: int, text: string, data: Option<Payload>)

  datatype Entry = Entry(key: string, ids: seq<string>, space: string, no: int, status: int, text: string)

  /** An entry file holds an entry, or text that does not parse as one. */
  datatype EntryFile = Torn | Whole(e: Entry)

  datatype MarksFile = NoMarks | Marks(m: map<string, int>)

  datatype Disk = Disk(files: map<string, EntryFile>, marks: MarksFile)

  /** Which file operations succeed; every failure is swallowed. */
  datatype Io = Io(marksReadable: bool, marksWritable: bool, entryWritable: bool)

  // What each operation does to the disk.

  function ReadMarks(d: Disk, io: Io): map<string, int> {
    if io.marksReadable && d.marks.Marks? then d.marks.m else map[]
  }

  function WatermarkOf(d: Disk, space: string, io: Io): Option<int> {
    var m := ReadMarks(d, io);
    if space in m then Some(m[space]) else None
  }

  function Advanced(d: Disk, space: string, no: int, io: Io): Disk {
    var m := ReadMarks(d, io);
    if no < 0 || (space in m && m[space] >= no) || !io.marksWritable then d
    else d.(marks := Marks(m[space := no]))
  }

  /** The entry a response yields, if it has a basis for coherence. */
  function EntryFor(d: Disk, key: string, pathIds: seq<string>, r: Response, io: Io): Option<Entry> {
    if r.data.None? || r.data.value.spaceId.None? then None
    else
      var p := r.data.value;
      var no := if p.eventSeq.Some? then p.eventSeq else WatermarkOf(d, p.spaceId.value, io);
      if no.None? then None
      else Some(Entry(key, Lowered(pathIds + p.ids), p.spaceId.value, no.value, r.status, r.text))
  }

  /** The disk after the response's own sequence number, if any, raised the watermark. */
  function Noted(d: Disk, r: Response, io: Io): Disk {
    if r.data.Some? && r.data.value.spaceId.Some? && r.data.value.eventSeq.Some?
    then Advanced(d, r.data.value.spaceId.value, r.data.value.eventSeq.value, io)
    else d
  }

  function Stored(d: Disk, file: string, key: string, pathIds: seq<string>, r: Response, io: Io): Disk {
    var d' := Noted(d, r, io);
    var e := EntryFor(d', key, pathIds, r, io);
    if e.Some? && io.entryWritable then d'.(files := d'.files[file := Whole(e.value)]) else d'
  }

  function Found(d: Disk, file: string, key: string): Option<Entry> {
    if file in d.files && d.files[file].Whole? && d.files[file].e.key == key then Some(d.files[file].e) else None
  }

  predicate About(f: EntryFile, targets: set<string>) {
    f.Torn? || exists id :: id in f.e.ids && id in targets
  }

  function Invalidated(d: Disk, ids: seq<string>): Disk {
    var targets := set id | id in Lowered(ids);
    if targets == {} then d
    else d.(files := map f | f in d.files && !About(d.files[f], targets) :: d.files[f])
  }

  function Evicted(d: Disk, file: string): Disk {
    d.(files := d.files - {file})
  }

  // The store.

  class DirReadCache {
    var files: map<string, EntryFile>
    var marks: MarksFile
    /** A key's file name: a truncated hash, so two keys may share one. */
    const fileFor: string -> string

    ghost function State(): Disk
      reads this
    {
      Disk(files, marks)
    }

    constructor (fileFor: string -> string)
      ensures State() == Disk(map[], NoMarks) && this.fileFor == fileFor
    {
      files := map[];
      marks := NoMarks;
      this.fileFor := fileFor;
    }

    method AdvanceWatermark(space: string, no: int, io: Io)
      modifies this`marks
      ensures State() == Advanced(old(State()), space, no, io)
    {
      if no < 0 {
        return;
      }
      var m := if io.marksReadable && marks.Marks? then marks.m else map[];
      var known := if space in m then m[space] else -1;
      if known >= no {
        return;
      }
      m := m[space := no];
      if io.marksWritable {
        marks := Marks(m);
      }
    }

    method Watermark(space: string, io: Io) returns (no: Option<int>)
      ensures no == WatermarkOf(State(), space, io)
    {
      var m := if io.marksReadable && marks.Marks? then marks.m else map[];
      no := if space in m then Some(m[space]) else None;
    }

    method Store(key: string, pathIds: seq<string>, r: Response, io: Io)
      modifies this
      ensures State() == Stored(old(State()), fileFor(key), key, pathIds, r, io)
    {
      if r.data.None? {
        return;
      }
      var data := r.data.value;
      if data.spaceId.None? {
        return;
      }
      var space := data.spaceId.value;
      if data.eventSeq.Some? {
        AdvanceWatermark(space, data.eventSeq.value, io);
      }
      var no := data.eventSeq;
      if no.None? {
        no := Watermark(space, io);
      }
      if no.None? {
        return;
      }
      var ids := Lowered(pathIds + data.ids);
      if io.entryWritable {
        files := files[fileFor(key) := Whole(Entry(key, ids, space, no.value, r.status, r.text))];
      }
    }

    method Read(key: string) returns (e: Option<Entry>)
      ensures e == Found(State(), fileFor(key), key)
    {
      var f := fileFor(key);
      if f !in files || files[f].Torn? || files[f].e.key != key {
        return None;
      }
      e := Some(files[f].e);
    }

    method Invalidate(ids: seq<string>)
      modifies this`files
      ensures State() == Invalidated(old(State()), ids)
    {
      var targets := set id | id in Lowered(ids);
      if targets == {} {
        return;
      }
      ghost var start := files;
      var names := files.Keys;
      while names != {}
        invariant names <= start.Keys
        invariant forall f :: f in files <==> f in start && (f in names || !About(start[f], targets))
        invariant forall f :: f in files ==> files[f] == start[f]
        decreases names
      {
        var f :| f in names;
        names := names - {f};
        if About(files[f], targets) {
          files := files - {f};
        }
      }
      assert files == map f | f in start && !About(start[f], targets) :: start[f];
    }

    method Evict(key: string)
      modifies this`files
      ensures State() == Evicted(old(State()), fileFor(key))
    {
      files := files - {fileFor(key)};
    }
  }

  // What the operations leave untouched.

  /** After an invalidation no surviving entry is about a named entity, and nothing else is lost. */
  lemma InvalidationExact(d: Disk, ids: seq<string>, f: string)
    ensures f in Invalidated(d, ids).files ==> f in d.files && Invalidated(d, ids).files[f] == d.files[f]
    ensures f in Invalidated(d, ids).files && d.files[f].Whole? ==>
      forall id :: id in ids ==> Lower(id) !in d.files[f].e.ids
    ensures f in d.files && f !in Invalidated(d, ids).files && d.files[f].Whole? ==>
      exists id :: id in ids && Lower(id) in d.files[f].e.ids
  {
    hide Lower;
    var low := Lowered(ids);
    var targets := set id | id in low;
    forall id | id in ids
      ensures Lower(id) in targets
    {
      var i :| 0 <= i < |ids| && ids[i] == id;
      assert low[i] in low;
    }
    if f in d.files && f !in Invalidated(d, ids).files && d.files[f].Whole? {
      var t :| t in d.files[f].e.ids && t in targets;
      var i :| 0 <= i < |low| && low[i] == t;
      assert ids[i] in ids && Lower(ids[i]) == t;
    }
  }

  function Mark(d: Disk, space: string): Option<int> {
    if d.marks.Marks? && space in d.marks.m then Some(d.marks.m[space]) else None
  }

  ghost predicate MarkKept(d: Disk, d': Disk, space: string) {
    Mark(d, space).Some? ==> Mark(d', space).Some? && Mark(d', space).value >= Mark(d, space).value
  }

  /** An advance never lowers a mark, and moves only the named space's, when the marks could be
      read first. A file that could not be read is overwritten, and every other mark is lost. */
  lemma WatermarkRises(d: Disk, space: string, no: int, io: Io, s: string)
    ensures var d' := Advanced(d, space, no, io);
      if io.marksReadable then MarkKept(d, d', s) && (Mark(d', s) != Mark(d, s) ==> s == space && Mark(d', s) == Some(no))
      else d' == d || d'.marks == Marks(map[space := no])
  {
  }

  /** No mark falls if and only if the marks could be read, nothing is written, or there was no
      other mark and none above the new one. */
  lemma MarksKeptExactly(d: Disk, space: string, no: int, io: Io)
    ensures (forall s :: MarkKept(d, Advanced(d, space, no, io), s))
      <==> (io.marksReadable || no < 0 || !io.marksWritable
            || (forall s :: Mark(d, s).Some? ==> s == space && Mark(d, s).value <= no))
  {
    var d' := Advanced(d, space, no, io);
    if io.marksReadable {
      forall s ensures MarkKept(d, d', s) {
        WatermarkRises(d, space, no, io, s);
      }
    } else if no >= 0 && io.marksWritable {
      if s :| Mark(d, s).Some? && !(s == space && Mark(d, s).value <= no) {
        assert !MarkKept(d, d', s);
      }
    }
  }

  /** An unreadable file of marks: advancing one space loses the mark of another. */
  lemma UnreadableMarksAreLost()
    ensures var d, io := Disk(map[], Marks(map["a" := 1])), Io(false, true, true);
      Mark(d, "a") == Some(1) && Mark(Advanced(d, "b", 2, io), "a") == None && Mark(Advanced(d, "b", 2, io), "b") == Some(2)
  {
  }

  // What is stored, and what a text includes.

  lemma IncludesExactly(s: string, t: string)
    ensures Includes(s, t) <==> exists a, b :: s == a + t + b
  {
    if Includes(s, t) {
      var i :| 0 <= i <= |s| && OccursAt(s, t, i);
      assert s == s[..i] + t + s[i + |t|..];
    }
    if a, b :| s == a + t + b {
      assert s[|a|..|a| + |t|] == t;
      assert OccursAt(s, t, |a|);
    }
  }

  /** A mark that can be written ends at the larger of what was read and a number that is no
      negative. */
  lemma WatermarkReaches(d: Disk, space: string, no: nat, io: Io)
    requires io.marksWritable
    ensures var d' := Advanced(d, space, no, io);
      if io.marksReadable && Mark(d, space).Some? && Mark(d, space).value >= no then d' == d
      else Mark(d', space) == Some(no)
  {
  }

  /** The number an answer is stored with: its own if it carries one, and otherwise the watermark of
      its space if that can be read. */
  ghost function NumberFor(d: Disk, r: Payload, io: Io): Option<int>
    requires r.spaceId.Some?
  {
    if r.eventSeq.Some? then r.eventSeq
    else if io.marksReadable then Mark(d, r.spaceId.value)
    else None
  }

  /** An answer is stored exactly when it names its space, has a number, and the file can be
      written; nothing else is removed or changed but the space's mark. */
  lemma StoredExactly(d: Disk, file: string, key: string, pathIds: seq<string>, r: Response, io: Io)
    ensures var d' := Stored(d, file, key, pathIds, r, io);
      && (r.data.Some? && r.data.value.spaceId.Some? && NumberFor(d, r.data.value, io).Some? && io.entryWritable ==>
            var p := r.data.value;
            d'.files == d.files[file := Whole(Entry(
              key, Lowered(pathIds + p.ids), p.spaceId.value, NumberFor(d, p, io).value, r.status, r.text))])
      && (!(r.data.Some? && r.data.value.spaceId.Some? && NumberFor(d, r.data.value, io).Some? && io.entryWritable) ==>
            d'.files == d.files)
      && d'.marks ==
        (if r.data.Some? && r.data.value.spaceId.Some? && r.data.value.eventSeq.Some?
         then Advanced(d, r.data.value.spaceId.value, r.data.value.eventSeq.value, io).marks else d.marks)
  {
    hide Lowered;
  }
}
