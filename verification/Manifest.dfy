/** The artifact manifest: path rules, validation, and the identity of a bundle revision. */
module Manifest {
  import opened Json
  import opened Order
  import opened Unicode
  import opened Jcs
  import opened Ascii
  import Words
  import Sha256
  import Fips = Fips180

  const SCHEMA_ID: string := "tm8.web-artifact/1"
  const RUNTIME_ID: string := "web-static-v1"
  const MEDIA_TYPES: set<string> := {
    "text/html", "text/css", "text/javascript", "application/json", "application/wasm", "image/svg+xml", "image/png",
    "image/jpeg", "image/gif", "image/webp", "image/avif", "image/x-icon", "font/woff2", "text/plain"}
  const MAX_FILES := 128
  const MAX_TOTAL_BYTES := 25 * 1024 * 1024
  const MAX_FILE_BYTES := 8 * 1024 * 1024
  const MAX_PATH_BYTES := 1024
  const MAX_SEGMENT_BYTES := 255
  const MAX_SAFE_INTEGER := 0x1F_FFFF_FFFF_FFFF

  datatype File = File(path: string, mediaType: string, size: int, sha256: string)
  datatype Manifest = Manifest(schema: string, runtime: string, entrypoint: string, files: seq<File>)

  // Path rules.

  datatype PathError =
    | Empty | TooLong | NotNfc | Backslash | Absolute | Drive | Control
    | EmptySegment | DotSegment | HiddenSegment | SegmentTooLong

  datatype Reason = Acceptable | Rejected(e: PathError)

  predicate IsControl(c: char) {
    c as int <= 0x1F || 0x7F <= c as int <= 0x9F
  }

  predicate IsLetter(c: char) {
    'A' <= c <= 'Z' || 'a' <= c <= 'z'
  }

  /** `path.split('/')` */
  function Segments(path: string): (r: seq<string>)
    ensures r != []
  {
    if path == [] then [[]]
    else
      var rest := Segments(path[1..]);
      if path[0] == '/' then [[]] + rest else [[path[0]] + rest[0]] + rest[1..]
  }

  function SegmentError(seg: string): Reason {
    if seg == [] then Rejected(EmptySegment)
    else if seg == "." || seg == ".." then Rejected(DotSegment)
    else if seg[0] == '.' then Rejected(HiddenSegment)
    else if |Utf8(seg)| > MAX_SEGMENT_BYTES then Rejected(SegmentTooLong)
    else Acceptable
  }

  function FirstSegmentError(segs: seq<string>): Reason {
    if segs == [] then Acceptable
    else if SegmentError(segs[0]).Rejected? then SegmentError(segs[0])
    else FirstSegmentError(segs[1..])
  }

  /** `artifactPathError`; `nfc` is Unicode normalisation, which this model does not define. */
  function ArtifactPathError(path: string, nfc: string -> string): Reason {
    if path == [] then Rejected(Empty)
    else if |Utf8(path)| > MAX_PATH_BYTES then Rejected(TooLong)
    else if nfc(path) != path then Rejected(NotNfc)
    else if '\\' in path then Rejected(Backslash)
    else if path[0] == '/' then Rejected(Absolute)
    else if |path| >= 2 && IsLetter(path[0]) && path[1] == ':' then Rejected(Drive)
    else if exists i :: 0 <= i < |path| && IsControl(path[i]) then Rejected(Control)
    else FirstSegmentError(Segments(path))
  }

  function Joined(segs: seq<string>): string
    requires segs != []
  {
    if |segs| == 1 then segs[0] else segs[0] + "/" + Joined(segs[1..])
  }

  lemma JoinedHead(c: char, rest: seq<string>)
    requires rest != []
    ensures Joined([[c] + rest[0]] + rest[1..]) == [c] + Joined(rest)
  {
    var s := [[c] + rest[0]] + rest[1..];
    assert s[1..] == rest[1..];
  }

  lemma JoinedAfterSeparator(rest: seq<string>)
    requires rest != []
    ensures Joined([[]] + rest) == "/" + Joined(rest)
  {
    assert ([[]] + rest)[1..] == rest;
  }

  lemma {:induction false} JoinedSegments(path: string)
    ensures Joined(Segments(path)) == path
    ensures forall k :: 0 <= k < |Segments(path)| ==> '/' !in Segments(path)[k]
  {
    if path == [] {
    } else {
      JoinedSegments(path[1..]);
      JoinedHead(path[0], Segments(path[1..]));
      JoinedAfterSeparator(Segments(path[1..]));
      assert path == [path[0]] + path[1..];
    }
  }

  lemma {:induction false} FirstSegmentErrorNone(segs: seq<string>)
    ensures FirstSegmentError(segs) == Acceptable <==> forall k :: 0 <= k < |segs| ==> SegmentError(segs[k]) == Acceptable
  {
    if segs != [] {
      FirstSegmentErrorNone(segs[1..]);
      if forall k :: 0 <= k < |segs| ==> SegmentError(segs[k]) == Acceptable {
        forall k | 0 <= k < |segs[1..]|
          ensures SegmentError(segs[1..][k]) == Acceptable
        {
          assert segs[1..][k] == segs[k + 1];
        }
      }
    }
  }

  /** A path of plain names: none empty, none starting with a dot (so no `.` or `..`), none too
      long or holding a separator, and the path is exactly those names joined. */
  ghost predicate PlainNames(path: string, names: seq<string>) {
    && names != [] && path == Joined(names)
    && forall k :: 0 <= k < |names| ==>
      names[k] != [] && names[k][0] != '.' && '/' !in names[k] && |Utf8(names[k])| <= MAX_SEGMENT_BYTES
  }

  ghost predicate PlainPath(path: string, nfc: string -> string) {
    && |Utf8(path)| <= MAX_PATH_BYTES && nfc(path) == path && '\\' !in path
    && !(|path| >= 2 && ('A' <= path[0] <= 'Z' || 'a' <= path[0] <= 'z') && path[1] == ':')
    && NoControls(path)
    && exists names :: PlainNames(path, names)
  }

  lemma {:induction false} SegmentsAfter(name: string, rest: string)
    requires '/' !in name
    ensures Segments(name + "/" + rest) == [name] + Segments(rest)
    ensures Segments(name) == [name]
  {
    if name == [] {
      assert [] + "/" + rest == "/" + rest && ("/" + rest)[1..] == rest;
    } else {
      SegmentsAfter(name[1..], rest);
      assert (name + "/" + rest)[1..] == name[1..] + "/" + rest;
      assert [name[0]] + name[1..] == name;
    }
  }

  lemma {:induction false} SegmentsOfJoined(names: seq<string>)
    requires names != [] && forall k :: 0 <= k < |names| ==> '/' !in names[k]
    ensures Segments(Joined(names)) == names
  {
    if |names| == 1 {
      SegmentsAfter(names[0], []);
    } else {
      SegmentsAfter(names[0], Joined(names[1..]));
      SegmentsOfJoined(names[1..]);
      assert names == [names[0]] + names[1..];
    }
  }

  ghost predicate NoControls(path: string) {
    forall c :: c in path ==> 0x20 <= c as int < 0x7F || 0xA0 <= c as int
  }

  lemma ControlFree(path: string)
    ensures (exists i :: 0 <= i < |path| && IsControl(path[i])) <==> !NoControls(path)
  {
    if !NoControls(path) {
      var c :| c in path && !(0x20 <= c as int < 0x7F || 0xA0 <= c as int);
      var i :| 0 <= i < |path| && path[i] == c;
      assert IsControl(path[i]);
    }
    if i :| 0 <= i < |path| && IsControl(path[i]) {
      assert path[i] in path;
    }
  }

  /** A path is accepted if and only if it is plain. */
  lemma AcceptedPathIsPlain(path: string, nfc: string -> string)
    ensures ArtifactPathError(path, nfc) == Acceptable <==> PlainPath(path, nfc)
  {
    hide Utf8, IsControl, NoControls, Segments, Joined;
    ControlFree(path);
    var segs := Segments(path);
    JoinedSegments(path);
    FirstSegmentErrorNone(segs);
    SegmentsPlain(path);
    if names :| PlainNames(path, names) {
      SegmentsOfJoined(names);
      JoinedFirst(names);
    }
  }

  lemma SegmentsPlain(path: string)
    ensures (forall k :: 0 <= k < |Segments(path)| ==> SegmentError(Segments(path)[k]) == Acceptable)
      <==> PlainNames(path, Segments(path))
  {
    hide Utf8, Joined;
    JoinedSegments(path);
  }

  lemma JoinedFirst(names: seq<string>)
    requires names != [] && names[0] != []
    ensures Joined(names) != [] && Joined(names)[0] == names[0][0]
  {
  }

  // Order and case folding.

  /** The source's `compareUtf8`: its sign is the code-point order of the two texts. */
  method CompareUtf8(a: string, b: string) returns (r: int)
    ensures r < 0 <==> Lex(Codes(a), Codes(b))
    ensures r == 0 <==> a == b
    ensures r > 0 <==> Lex(Codes(b), Codes(a))
  {
    hide Utf8, Codes;
    var x, y := Utf8(a), Utf8(b);
    Utf8Order(a, b);
    Utf8Order(b, a);
    Utf8Total(a, b);
    var n := if |x| < |y| then |x| else |y|;
    for i := 0 to n
      invariant x[..i] == y[..i]
    {
      if x[i] != y[i] {
        if x[i] < y[i] {
          Decided(x, y, i);
        } else {
          Decided(y, x, i);
        }
        return x[i] as int - y[i] as int;
      }
    }
    r := |x| - |y|;
    PrefixDecides(x, y, n);
  }

  lemma Decided(x: seq<int>, y: seq<int>, i: nat)
    requires i < |x| && i < |y| && x[..i] == y[..i] && x[i] < y[i]
    ensures Lex(x, y) && !Lex(y, x)
  {
    LexFirstDifference(x, y, i, [], []);
    assert x + [] == x && y + [] == y;
    LexAsymmetric(x, y);
  }

  lemma PrefixDecides(x: seq<int>, y: seq<int>, n: nat)
    requires n <= |x| && n <= |y| && (n == |x| || n == |y|) && x[..n] == y[..n]
    ensures Lex(x, y) <==> |x| < |y|
    ensures Lex(y, x) <==> |y| < |x|
    ensures x == y <==> |x| == |y|
  {
    LexCommonPrefix(x[..n], x[n..], y[n..]);
    LexCommonPrefix(x[..n], y[n..], x[n..]);
    assert x == x[..n] + x[n..] && y == y[..n] + y[n..];
    assert Lex(x[n..], y[n..]) <==> |x| < |y|;
    assert Lex(y[n..], x[n..]) <==> |y| < |x|;
  }

  // Validation.

  datatype Issue =
    | NoFiles | TooManyFiles | BadPath(i: nat, e: PathError) | FileTooLarge(i: nat) | DuplicatePath(i: nat)
    | FoldedDuplicate(i: nat) | NotSorted(i: nat) | TotalTooLarge | NoEntrypoint

  predicate IsHexDigest(s: string) {
    |s| == 64 && forall i :: 0 <= i < 64 ==> '0' <= s[i] <= '9' || 'a' <= s[i] <= 'f'
  }

  /** The digests the schema takes are the hexadecimal texts of 256 bits. */
  lemma DigestsAreHex(s: string)
    ensures IsHexDigest(s) <==> exists w: seq<bool> :: |w| == 256 && Sha256.HexOf(w) == s
  {
    hide Sha256.HexOf;
    if IsHexDigest(s) {
      var w := BitsOfHex(s);
      assert |w| == 256 && Sha256.HexOf(w) == s;
    }
    forall w: seq<bool> | |w| == 256 && Sha256.HexOf(w) == s ensures IsHexDigest(s) {
      HexOfBits(w);
    }
  }

  lemma {:induction false} HexOfBits(w: seq<bool>)
    requires |w| % 4 == 0
    ensures 4 * |Sha256.HexOf(w)| == |w|
    ensures forall i :: 0 <= i < |Sha256.HexOf(w)| ==> '0' <= Sha256.HexOf(w)[i] <= '9' || 'a' <= Sha256.HexOf(w)[i] <= 'f'
  {
    if w != [] {
      HexOfBits(w[..|w| - 4]);
      SmallHex(Words.Nat(w[|w| - 4..]) % 16);
    }
  }

  lemma SmallHex(n: nat)
    requires n < 16
    ensures Words.HEX_DIGITS[n] == if n < 10 then '0' + n as char else 'a' + (n - 10) as char
  {
    assert n == 0 || n == 1 || n == 2 || n == 3 || n == 4 || n == 5 || n == 6 || n == 7 || n >= 8;
    assert n < 8 || n == 8 || n == 9 || n == 10 || n == 11 || n == 12 || n == 13 || n == 14 || n == 15;
  }

  lemma {:induction false} BitsOfHex(s: string) returns (w: seq<bool>)
    requires forall i :: 0 <= i < |s| ==> '0' <= s[i] <= '9' || 'a' <= s[i] <= 'f'
    ensures |w| == 4 * |s| && Sha256.HexOf(w) == s
  {
    hide Sha256.HexOf, Words.Encode;
    if s == [] {
      w := [];
      NoHex();
    } else {
      var n := |s| - 1;
      var front := BitsOfHex(s[..n]);
      var d := ValueOfHex(s[n]);
      w := front + Words.Encode(d, 4);
      Sha256.HexDigit(d);
      Sha256.HexConcat(front, Words.Encode(d, 4));
      assert s == s[..n] + [s[n]];
    }
  }

  lemma NoHex()
    ensures Sha256.HexOf([]) == []
  {
  }

  lemma ValueOfHex(c: char) returns (d: nat)
    requires '0' <= c <= '9' || 'a' <= c <= 'f'
    ensures d < 16 && Words.HEX_DIGITS[d] == c
  {
    d := if c <= '9' then c as int - '0' as int else c as int - 'a' as int + 10;
    SmallHex(d);
  }

  /** The object schema, checked before the refinements below run. */
  predicate WellShaped(m: Manifest) {
    && m.schema == SCHEMA_ID && m.runtime == RUNTIME_ID
    && forall f :: f in m.files ==> f.mediaType in MEDIA_TYPES && 0 <= f.size <= MAX_SAFE_INTEGER && IsHexDigest(f.sha256)
  }

  function PathRank(f: File): seq<int> {
    Utf8(f.path)
  }

  function TotalSize(files: seq<File>): int {
    if files == [] then 0 else TotalSize(files[..|files| - 1]) + files[|files| - 1].size
  }

  /** What an accepted bundle is. */
  ghost predicate Accepts(m: Manifest, nfc: string -> string) {
    && 1 <= |m.files| <= MAX_FILES
    && (forall f :: f in m.files ==> ArtifactPathError(f.path, nfc) == Acceptable && f.size <= MAX_FILE_BYTES)
    && TotalSize(m.files) <= MAX_TOTAL_BYTES
    && Ascending(m.files, PathRank)
    && (forall i, j :: 0 <= i < j < |m.files| ==> !SameUpToCase(m.files[i].path, m.files[j].path))
    && exists f :: f in m.files && f.path == m.entrypoint
  }

  /** The checks of one file raise nothing. */
  ghost predicate CleanAt(files: seq<File>, nfc: string -> string, i: nat)
    requires i < |files|
  {
    && ArtifactPathError(files[i].path, nfc) == Acceptable && files[i].size <= MAX_FILE_BYTES
    && (i > 0 ==> Lex(PathRank(files[i - 1]), PathRank(files[i])))
    && (forall j :: 0 <= j < i ==> !SameUpToCase(files[j].path, files[i].path))
    && (forall j :: 0 <= j < i ==> files[j].path != files[i].path)
  }

  ghost predicate CleanUpTo(files: seq<File>, nfc: string -> string, n: nat)
    requires n <= |files|
  {
    forall i :: 0 <= i < n ==> CleanAt(files, nfc, i)
  }

  /** The paths, and the folded paths, seen before file `i`. */
  ghost predicate Seen(files: seq<File>, i: nat, exact: set<string>, folded: set<string>)
    requires i <= |files|
  {
    && (forall p :: p in exact <==> exists j :: 0 <= j < i && files[j].path == p)
    && (forall p :: p in folded <==> exists j :: 0 <= j < i && Lower(files[j].path) == p)
  }

  ghost predicate RepeatsPath(files: seq<File>, i: nat)
    requires i < |files|
  {
    exists j :: 0 <= j < i && files[j].path == files[i].path
  }

  ghost predicate RepeatsFolded(files: seq<File>, i: nat)
    requires i < |files|
  {
    exists j :: 0 <= j < i && SameUpToCase(files[j].path, files[i].path)
  }

  /** The issues of one file, in the order the source raises them. */
  ghost function FaultsAt(files: seq<File>, nfc: string -> string, i: nat): seq<Issue>
    requires i < |files|
  {
    var file, reason := files[i], ArtifactPathError(files[i].path, nfc);
    var path := if reason.Rejected? then [BadPath(i, reason.e)] else [];
    var size := if file.size > MAX_FILE_BYTES then path + [FileTooLarge(i)] else path;
    var exact := if RepeatsPath(files, i) then size + [DuplicatePath(i)] else size;
    var folded := if RepeatsFolded(files, i) then exact + [FoldedDuplicate(i)] else exact;
    if i > 0 && !Lex(PathRank(files[i - 1]), PathRank(file)) then folded + [NotSorted(i)] else folded
  }

  ghost function FaultsUpTo(files: seq<File>, nfc: string -> string, n: nat): seq<Issue>
    requires n <= |files|
  {
    if n == 0 then [] else FaultsUpTo(files, nfc, n - 1) + FaultsAt(files, nfc, n - 1)
  }

  /** All issues of a manifest. */
  ghost function Faults(m: Manifest, nfc: string -> string): seq<Issue> {
    var few := if |m.files| < 1 then [NoFiles] else [];
    var many := if |m.files| > MAX_FILES then few + [TooManyFiles] else few;
    var files := many + FaultsUpTo(m.files, nfc, |m.files|);
    var total := if TotalSize(m.files) > MAX_TOTAL_BYTES then files + [TotalTooLarge] else files;
    if exists f :: f in m.files && f.path == m.entrypoint then total else total + [NoEntrypoint]
  }

  lemma NoFaults(files: seq<File>, nfc: string -> string, i: nat)
    requires i < |files|
    ensures FaultsAt(files, nfc, i) == [] <==> CleanAt(files, nfc, i)
  {
    hide ArtifactPathError, SameUpToCase, PathRank, Lex;
  }

  lemma {:induction false} NoFaultsUpTo(files: seq<File>, nfc: string -> string, n: nat)
    requires n <= |files|
    ensures FaultsUpTo(files, nfc, n) == [] <==> CleanUpTo(files, nfc, n)
  {
    hide FaultsAt, CleanAt;
    if n > 0 {
      NoFaults(files, nfc, n - 1);
      NoFaultsUpTo(files, nfc, n - 1);
    }
  }

  lemma SeenRepeats(files: seq<File>, i: nat, exact: set<string>, folded: set<string>)
    requires i < |files| && Seen(files, i, exact, folded)
    ensures files[i].path in exact <==> RepeatsPath(files, i)
    ensures Lower(files[i].path) in folded <==> RepeatsFolded(files, i)
  {
    hide Lower, SameUpToCase;
    forall j | 0 <= j < i
      ensures Lower(files[j].path) == Lower(files[i].path) <==> SameUpToCase(files[j].path, files[i].path)
    {
      LowersExactly(files[j].path, files[i].path);
    }
  }

  /** The body of the source's loop over the files. */
  method CheckFile(files: seq<File>, nfc: string -> string, i: nat, exact: set<string>, folded: set<string>)
    returns (issues: seq<Issue>)
    requires i < |files| && Seen(files, i, exact, folded)
    ensures issues == FaultsAt(files, nfc, i)
  {
    hide ArtifactPathError, Lower, PathRank, Lex, Codes, Seen, RepeatsPath, RepeatsFolded;
    SeenRepeats(files, i, exact, folded);
    issues := [];
    var file := files[i];
    var reason := ArtifactPathError(file.path, nfc);
    if reason.Rejected? {
      issues := issues + [BadPath(i, reason.e)];
    }
    if file.size > MAX_FILE_BYTES {
      issues := issues + [FileTooLarge(i)];
    }
    if file.path in exact {
      issues := issues + [DuplicatePath(i)];
    }
    if Lower(file.path) in folded {
      issues := issues + [FoldedDuplicate(i)];
    }
    if i > 0 {
      var order := CompareUtf8(files[i - 1].path, file.path);
      RankIsCodeOrder(files[i - 1], file);
      if order >= 0 {
        issues := issues + [NotSorted(i)];
      }
    }
  }

  lemma SeenMore(files: seq<File>, i: nat, exact: set<string>, folded: set<string>)
    requires i < |files| && Seen(files, i, exact, folded)
    ensures Seen(files, i + 1, exact + {files[i].path}, folded + {Lower(files[i].path)})
  {
    hide Lower;
  }

  /** The schema's refinements: one pass over the files, comparing neighbours and keeping two
      seen sets, reports the issues of every file and nothing exactly for an accepted bundle. */
  method Validate(m: Manifest, nfc: string -> string) returns (issues: seq<Issue>)
    ensures issues == Faults(m, nfc)
    ensures issues == [] <==> Accepts(m, nfc)
  {
    hide CleanAt, CleanUpTo, Seen, Lower, Accepts, FaultsAt, FaultsUpTo, TotalSize;
    var files := m.files;
    issues := [];
    if |files| < 1 {
      issues := issues + [NoFiles];
    }
    if |files| > MAX_FILES {
      issues := issues + [TooManyFiles];
    }
    ghost var counts := issues;
    var total := 0;
    var seenExact: set<string> := {};
    var seenFolded: set<string> := {};
    NothingSeen(files);
    NothingSummed(files, nfc);
    for i := 0 to |files|
      invariant total == TotalSize(files[..i])
      invariant Seen(files, i, seenExact, seenFolded)
      invariant issues == counts + FaultsUpTo(files, nfc, i)
    {
      var found := CheckFile(files, nfc, i, seenExact, seenFolded);
      issues := issues + found;
      total := total + files[i].size;
      SummedMore(files, nfc, i);
      SeenMore(files, i, seenExact, seenFolded);
      seenExact, seenFolded := seenExact + {files[i].path}, seenFolded + {Lower(files[i].path)};
    }
    assert files[..|files|] == files;
    if total > MAX_TOTAL_BYTES {
      issues := issues + [TotalTooLarge];
    }
    if !exists f :: f in files && f.path == m.entrypoint {
      issues := issues + [NoEntrypoint];
    }
    FaultlessIsAccepted(m, nfc);
  }

  lemma NothingSummed(files: seq<File>, nfc: string -> string)
    ensures TotalSize(files[..0]) == 0 && FaultsUpTo(files, nfc, 0) == []
  {
  }

  lemma SummedMore(files: seq<File>, nfc: string -> string, i: nat)
    requires i < |files|
    ensures TotalSize(files[..i + 1]) == TotalSize(files[..i]) + files[i].size
    ensures FaultsUpTo(files, nfc, i + 1) == FaultsUpTo(files, nfc, i) + FaultsAt(files, nfc, i)
  {
    hide FaultsAt;
    assert files[..i + 1][..i] == files[..i];
  }

  lemma FaultlessIsAccepted(m: Manifest, nfc: string -> string)
    ensures Faults(m, nfc) == [] <==> Accepts(m, nfc)
  {
    hide CleanAt, CleanUpTo, Accepts, FaultsAt, FaultsUpTo, TotalSize;
    NoFaultsUpTo(m.files, nfc, |m.files|);
    CleanIsAccepted(m, nfc);
  }

  lemma NothingSeen(files: seq<File>)
    ensures Seen(files, 0, {}, {})
  {
  }

  lemma RankIsCodeOrder(f: File, g: File)
    ensures Lex(PathRank(f), PathRank(g)) <==> Lex(Codes(f.path), Codes(g.path))
  {
    Utf8Order(f.path, g.path);
  }

  /** Clean neighbours are a clean list. */
  lemma CleanIsAccepted(m: Manifest, nfc: string -> string)
    ensures
      Accepts(m, nfc) <==>
        && 1 <= |m.files| <= MAX_FILES && CleanUpTo(m.files, nfc, |m.files|)
        && TotalSize(m.files) <= MAX_TOTAL_BYTES && exists f :: f in m.files && f.path == m.entrypoint
  {
    hide ArtifactPathError, SameUpToCase, Lex, PathRank;
    var files := m.files;
    AdjacentIsAscending(files, PathRank);
    if CleanUpTo(files, nfc, |files|) {
      forall i | 0 < i < |files|
        ensures Lex(PathRank(files[i - 1]), PathRank(files[i]))
      {
        assert CleanAt(files, nfc, i);
      }
      forall i, j | 0 <= i < j < |files|
        ensures !SameUpToCase(files[i].path, files[j].path)
      {
        assert CleanAt(files, nfc, j);
      }
      forall f | f in files
        ensures ArtifactPathError(f.path, nfc) == Acceptable && f.size <= MAX_FILE_BYTES
      {
        var i :| 0 <= i < |files| && files[i] == f;
        assert CleanAt(files, nfc, i);
      }
    }
    if Accepts(m, nfc) {
      forall i | 0 <= i < |files|
        ensures CleanAt(files, nfc, i)
      {
        assert files[i] in files;
        forall j | 0 <= j < i
          ensures files[j].path != files[i].path
        {
          DistinctPaths(files, j, i);
        }
      }
    }
  }

  lemma DistinctPaths(files: seq<File>, i: nat, j: nat)
    requires Ascending(files, PathRank) && i < j < |files|
    ensures files[i].path != files[j].path
  {
    AscendingDistinct(files, PathRank, i, j);
  }

  // Identity.

  /** Two accepted bundles with the same entrypoint and the same set of file records are the
      same manifest: order carries no information. */
  lemma ContentDeterminesManifest(a: Manifest, b: Manifest, nfc: string -> string)
    requires WellShaped(a) && WellShaped(b) && Accepts(a, nfc) && Accepts(b, nfc)
    requires a.entrypoint == b.entrypoint && forall f :: f in a.files <==> f in b.files
    ensures a == b
  {
    AscendingUnique(a.files, b.files, PathRank);
  }

  function FileDoc(f: File): Doc {
    DObj([Field("path", DStr(f.path)), Field("mediaType", DStr(f.mediaType)),
          Field("size", DNum(f.size)), Field("sha256", DStr(f.sha256))])
  }

  function FileDocs(files: seq<File>): (r: seq<Doc>)
    ensures |r| == |files| && forall i :: 0 <= i < |files| ==> r[i] == FileDoc(files[i])
  {
    if files == [] then [] else [FileDoc(files[0])] + FileDocs(files[1..])
  }

  /** A manifest as the object the source serialises. */
  function ManifestDoc(m: Manifest): Doc {
    DObj([Field("schema", DStr(m.schema)), Field("runtime", DStr(m.runtime)),
          Field("entrypoint", DStr(m.entrypoint)), Field("files", DArr(FileDocs(m.files)))])
  }

  lemma ManifestDocShape(m: Manifest)
    ensures Serialisable(ManifestDoc(m)) && DistinctMembers(ManifestDoc(m))
  {
    forall i | 0 <= i < |m.files|
      ensures Serialisable(FileDoc(m.files[i])) && DistinctMembers(FileDoc(m.files[i]))
    {
    }
    var docs := FileDocs(m.files);
    assert Serialisable(DArr(docs)) && DistinctMembers(DArr(docs));
  }

  /** `canonicalManifestBytes` */
  function CanonicalManifestBytes(m: Manifest): seq<Words.Byte> {
    ManifestDocShape(m);
    Utf8(Canonical(ManifestDoc(m)).text)
  }

  /** A manifest and one of its files as JSON values. */
  ghost function FileValue(f: File): Value {
    Obj(map["path" := Str(f.path), "mediaType" := Str(f.mediaType), "size" := Num(f.size), "sha256" := Str(f.sha256)])
  }

  ghost function ManifestValue(m: Manifest): Value {
    Obj(map["schema" := Str(m.schema), "runtime" := Str(m.runtime), "entrypoint" := Str(m.entrypoint),
            "files" := Arr(seq(|m.files|, i requires 0 <= i < |m.files| => FileValue(m.files[i])))])
  }

  lemma FourFields(a: Field, b: Field, c: Field, d: Field)
    ensures Meaning(DObj([a, b, c, d]))
         == Obj(map[][a.key := Meaning(a.value)][b.key := Meaning(b.value)][c.key := Meaning(c.value)][d.key := Meaning(d.value)])
  {
    hide Meaning;
    var f := [a, b, c, d];
    assert f[1..] == [b, c, d] && f[1..][1..] == [c, d] && f[1..][1..][1..] == [d] && [d][1..] == [];
    FieldsMeaning(f);
    var m1 := map[][a.key := Meaning(a.value)];
    var m2 := m1[b.key := Meaning(b.value)];
    var m3 := m2[c.key := Meaning(c.value)];
    assert AddFields(map[], f) == AddFields(m1, [b, c, d]);
    assert AddFields(m1, [b, c, d]) == AddFields(m2, [b, c, d][1..]) && [b, c, d][1..] == [c, d];
    assert AddFields(m2, [c, d]) == AddFields(m3, [c, d][1..]) && [c, d][1..] == [d];
    assert AddFields(m3, [d]) == AddFields(m3[d.key := Meaning(d.value)], [d][1..]);
  }

  lemma FieldsMeaning(fields: seq<Field>)
    ensures Meaning(DObj(fields)) == Obj(AddFields(map[], fields))
  {
  }

  lemma FileMeaning(f: File)
    ensures Meaning(FileDoc(f)) == FileValue(f)
  {
    hide AddFields;
    FourFields(Field("path", DStr(f.path)), Field("mediaType", DStr(f.mediaType)),
               Field("size", DNum(f.size)), Field("sha256", DStr(f.sha256)));
  }

  lemma ManifestMeaning(m: Manifest)
    ensures Meaning(ManifestDoc(m)) == ManifestValue(m)
  {
    hide AddFields, FileValue, FileDoc, FileDocs, Meanings;
    var docs := FileDocs(m.files);
    FourFields(Field("schema", DStr(m.schema)), Field("runtime", DStr(m.runtime)),
               Field("entrypoint", DStr(m.entrypoint)), Field("files", DArr(docs)));
    MeaningsAt(docs);
    forall i | 0 <= i < |docs| ensures Meanings(docs)[i] == FileValue(m.files[i]) {
      FileMeaning(m.files[i]);
    }
    assert Meanings(docs) == seq(|m.files|, i requires 0 <= i < |m.files| => FileValue(m.files[i]));
  }

  /** The canonical bytes are UTF-8 text that a JSON reader reads as the manifest, name by name. */
  lemma CanonicalBytesRead(m: Manifest) returns (text: string)
    ensures Decode(CanonicalManifestBytes(m)) == Text(text) && Parse(text) == Got(ManifestValue(m), [])
  {
    hide Canonical, Utf8, Decode, Parse, Meaning, ManifestDoc, ManifestValue, Serialisable, DistinctMembers;
    ManifestDocShape(m);
    CanonicalText(m);
    text := Canonical(ManifestDoc(m)).text;
    DecodeOfEncoded(text);
    ParseOfJcs(ManifestDoc(m));
    ManifestMeaning(m);
  }

  lemma CanonicalText(m: Manifest)
    ensures Canonical(ManifestDoc(m)).Ok? && CanonicalManifestBytes(m) == Utf8(Canonical(ManifestDoc(m)).text)
  {
    hide Utf8, Sorted, Print;
    ManifestDocShape(m);
  }

  lemma FileKeysDistinct(f: File)
    ensures DistinctKeys(FileDoc(f).fields)
  {
    assert |"path"| == 4 && |"mediaType"| == 9 && |"size"| == 4 && |"sha256"| == 6;
    assert "path"[0] == 'p' && "size"[0] == 's';
  }

  lemma MeaningIdentifiesFile(f: File, g: File)
    requires Meaning(FileDoc(f)) == Meaning(FileDoc(g))
    ensures f == g
  {
    hide AddFields;
    FileKeysDistinct(f);
    FileKeysDistinct(g);
    forall i | 0 <= i < 4
      ensures Meaning(FileDoc(f).fields[i].value) == Meaning(FileDoc(g).fields[i].value)
    {
      FieldsValue(map[], FileDoc(f).fields, i);
      FieldsValue(map[], FileDoc(g).fields, i);
      assert FileDoc(f).fields[i].key == FileDoc(g).fields[i].key;
    }
    assert Meaning(FileDoc(f).fields[0].value) == Meaning(FileDoc(g).fields[0].value);
    assert Meaning(FileDoc(f).fields[1].value) == Meaning(FileDoc(g).fields[1].value);
    assert Meaning(FileDoc(f).fields[2].value) == Meaning(FileDoc(g).fields[2].value);
    assert Meaning(FileDoc(f).fields[3].value) == Meaning(FileDoc(g).fields[3].value);
  }

  lemma {:induction false} MeaningsIdentifyFiles(a: seq<File>, b: seq<File>)
    requires Meanings(FileDocs(a)) == Meanings(FileDocs(b))
    ensures a == b
  {
    hide FileDoc, Meaning;
    assert |a| == |Meanings(FileDocs(a))| == |Meanings(FileDocs(b))| == |b|;
    if a != [] {
      MeaningsSplit(a);
      MeaningsSplit(b);
      MeaningIdentifiesFile(a[0], b[0]);
      MeaningsIdentifyFiles(a[1..], b[1..]);
      assert a == [a[0]] + a[1..] && b == [b[0]] + b[1..];
    }
  }

  lemma MeaningsSplit(files: seq<File>)
    requires files != []
    ensures Meanings(FileDocs(files))[0] == Meaning(FileDoc(files[0]))
    ensures Meanings(FileDocs(files))[1..] == Meanings(FileDocs(files[1..]))
  {
    assert FileDocs(files)[1..] == FileDocs(files[1..]);
  }

  lemma ManifestKeysDistinct(m: Manifest)
    ensures DistinctKeys(ManifestDoc(m).fields)
  {
    assert |"schema"| == 6 && |"runtime"| == 7 && |"entrypoint"| == 10 && |"files"| == 5;
  }

  lemma MeaningIdentifiesManifest(a: Manifest, b: Manifest)
    requires Meaning(ManifestDoc(a)) == Meaning(ManifestDoc(b))
    ensures a == b
  {
    hide AddFields, FileDocs;
    ManifestKeysDistinct(a);
    ManifestKeysDistinct(b);
    forall i | 0 <= i < 4
      ensures Meaning(ManifestDoc(a).fields[i].value) == Meaning(ManifestDoc(b).fields[i].value)
    {
      FieldsValue(map[], ManifestDoc(a).fields, i);
      FieldsValue(map[], ManifestDoc(b).fields, i);
      assert ManifestDoc(a).fields[i].key == ManifestDoc(b).fields[i].key;
    }
    assert Meaning(ManifestDoc(a).fields[0].value) == Meaning(ManifestDoc(b).fields[0].value);
    assert Meaning(ManifestDoc(a).fields[1].value) == Meaning(ManifestDoc(b).fields[1].value);
    assert Meaning(ManifestDoc(a).fields[2].value) == Meaning(ManifestDoc(b).fields[2].value);
    assert Meaning(ManifestDoc(a).fields[3].value) == Meaning(ManifestDoc(b).fields[3].value);
    MeaningsIdentifyFiles(a.files, b.files);
  }

  /** Canonical bytes identify a manifest. */
  lemma CanonicalBytesIdentify(a: Manifest, b: Manifest)
    ensures CanonicalManifestBytes(a) == CanonicalManifestBytes(b) <==> a == b
  {
    hide Utf8, Print, Sorted, Meaning;
    if CanonicalManifestBytes(a) == CanonicalManifestBytes(b) {
      ManifestDocShape(a);
      ManifestDocShape(b);
      Utf8Total(Canonical(ManifestDoc(a)).text, Canonical(ManifestDoc(b)).text);
      JcsIdentifiesMeaning(ManifestDoc(a), ManifestDoc(b));
      MeaningIdentifiesManifest(a, b);
    }
  }

  /** The member order of the object a producer builds does not reach the bytes. */
  lemma CanonicalBytesForgetOrder(m: Manifest, d: Doc)
    requires DistinctMembers(d) && Serialisable(d) && Meaning(d) == Meaning(ManifestDoc(m))
    ensures Utf8(Canonical(d).text) == CanonicalManifestBytes(m)
  {
    ManifestDocShape(m);
    JcsIdentifiesMeaning(d, ManifestDoc(m));
  }

  /** `manifestSha256`: the digest of the canonical bytes, and of nothing else. */
  method ManifestSha256(m: Manifest) returns (hex: string)
    ensures hex == Sha256.HexOf(Fips.Digest(Sha256.InitialHash(), Sha256.K, Words.BytesBits(CanonicalManifestBytes(m))))
  {
    hide Fips.Digest, Sha256.HexOf, Words.BytesBits;
    hex := Sha256.Sha256Hex(CanonicalManifestBytes(m));
  }
}
