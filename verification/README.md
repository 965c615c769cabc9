# A verified model of tm8's client protocol, encodings and drivers

This project models the self-contained algorithms of tm8's command line client, its wire contract
and two Python drivers, and proves what their comments and documentation promise of them. Code that
updates state in the source (the read cache, the credential store, the SHA-256 loops, the retry
loop, the option scanner, the stage scheduler, the page walks, the accounting loops) is imperative
here too and is proved against specification functions; what the source promises is then proved of
those functions as lemmas.

| files | what they model |
|---|---|
| `Feed`, `ReadCache`, `Revalidation`, `Coherence` | the event feed, the read cache over it, the paged revalidation, and coherence over every run |
| `LegacyPages`, `LateStore`, `StaleHit` | two guesses of the cache and when they are right: a page without `hasMore`, a number read after its fetch |
| `Resend` | the restart-gap retry loop, the command ledger, and how often a command takes effect |
| `Words`, `Fips180`, `Js32`, `Sha256` | bit strings, SHA-256 as FIPS 180-4 states it, JavaScript's 32-bit operators, and the hand-written hash |
| `Order`, `Ascii`, `Unicode`, `Json`, `Jcs`, `Manifest` | orders, ASCII case, UTF-8 and UTF-16, JSON text and its parser, canonical JSON, the artifact manifest |
| `Cursor` | the keyset cursor |
| `Argv`, `Spelling`, `Rewriting`, `Shell` | the invocation parser, every way to spell an invocation, the token rewriting of replay commands, printing for a shell |
| `RunStage` | the conductor's stage scheduler |
| `Credentials` | the credential store and its index of pinned space sessions |
| `Forms`, `FormInput` | answer equality, the escaped question shorthand |
| `Digest` | the paged event digest |
| `Uuid` | time-ordered mutation ids |
| `Craft` | sanitizing a craft workspace |
| `Journal` | journal accounting |

What the client does not control is a parameter, so every theorem holds for all of its values: the
server's pages and replies, failure schedules, clocks and sleeps, file and index failures, random
bytes, session behaviour, and the scheduler's cap on live sessions (the source sets it to 1).

## Hypotheses

- *Coherence.* The answer to a cached read depends only on the entities the entry names, and those
  entities live in the space the answer names (`Lawful`). Every change to an entity is a visible
  event that names it, in the feed of its own space, whose sequence order is commit order
  (`Commits`, db/README.md:116-118). A sequence number in an answer is one already committed, and
  fetching and storing are one step (`FetchStep`; `LateStore` drops this). The pages carry a boolean
  `hasMore` (`Wire`; `LegacyPages` drops this).
- *At most once.* A node replays a repeated command id from its ledger and commits a command and
  its ledger row together (`Processed`, db/README.md:32-36). A row may expire
  (db/README.md:16), which is a step of its own between two invocations.
- *Retry window.* The clock does not run backwards and a sleep lasts at least its delay (`Attempt`
  counts only extra time). The scheduler's clock is the same (`Env.extra`, `Look.lag`).
- *Pins.* Reading, writing and deleting one credential works; reading and writing the index may
  fail at any time (`fails`). Origins hold no `#` (`NoHash`), as `URL.origin` guarantees.
- *Text.* Strings are well-formed Unicode. Numbers in JSON are integers.

## What turned out false of the code

Each is kept as the code has it, with an input that shows it and the exact condition under which
the promise holds.

- Rewriting argv as tokens does not always commute with parsing it. It does exactly when no tool
  name owns the tail of argv and the new value does not begin with `--`
  (`Rewriting.RewritingCommutes`); `--mutation-id=--x` and `tool run NAME` show both failures
  (`Rewriting.OptionLikeIdFails`, `Rewriting.ToolTailFails`). This is for the names that take a
  value on every command path, which are the ones the source rewrites
  (`Rewriting.RewrittenNamesTakeValues`).
- `formJsonEqual` is not symmetric: an own member `__proto__` that is an empty object equals the
  absent one, which reads as the prototype. It is equality exactly for left operands without such a
  member (`Forms.FormJsonEqualExact`).
- A command can be applied a second time by its replay command once its ledger row has expired
  (`Resend.ReplayAfterExpiry`). It is applied at most once exactly when it is not delivered, its
  row lost, and the command delivered again (`Resend.AppliedOnceExactly`).
- A page without `hasMore` is judged by its length, and rows the page leaves out can make a full
  page look short (`LegacyPages.ShortPageIsNoEnd`). A short page is the last one for every feed
  that may have given it exactly when its cursor moved by less than a full window
  (`LegacyPages.ShortPageExact`); over a feed of which every row is shown the guess is always right
  (`LegacyPages.GuessIsSound`, `LegacyPages.AllVisibleShows`).
- The header of the read cache speaks of a watermark taken before a fetch; the code reads it after
  (packages/cli/src/read-cache.ts:128-161), when another process may have raised it, and the cache
  can then serve an answer that a fetch would no longer give (`StaleHit.StaleHitHappens`). Over
  every run, an answer that carried its own number is served rightly; any other is when no event
  between the head at the fetch and the entry's number names it, and for every service that may
  stand behind the feeds exactly then (`LateStore.LateServed`).
- A watermark falls when the watermarks file cannot be read and is overwritten
  (`ReadCache.UnreadableMarksAreLost`); exactly when is `ReadCache.MarksKeptExactly`.
- A pin whose index update fails as it is stored is not in the index, and no later logout returns
  or deletes it, unless its space is entered again under the same gate session
  (`Credentials.OneFailedWriteLosesPin`, `Credentials.UnlistedPinSurvives`). Over every run, a pin
  that stays stored is unlisted exactly when it was not listed at first and an index operation
  failed in each command that entered its space (`Credentials.RunLists`).
- Refetches are not only repeats of the same arguments: arguments are joined by spaces. Among
  arguments without spaces a key names the arguments it was made of exactly when they are not empty
  and hold no space (`Journal.KeyNamesArgv`); any others share their key with different ones
  (`Journal.KeyConfuses`).
- Text inside the options of a question is not always read back when it is escaped once, as the
  comment says; it is exactly when none of its backslashes stands directly before a backslash or a
  comma (`FormInput.OneEscapeExact`, `FormInput.OneEscapeIsNotEnough`).

## Model

| member | source | states |
|---|---|---|
| Feed.PageCovers | packages/server/src/events/poll.ts:189-253 | a page's cursor stays within the feed, every visible row up to it is on the page, a full page moves forward and one that is not full reaches the head |
| ReadCache.DirReadCache.AdvanceWatermark | packages/cli/src/read-cache.ts:190-201 | the disk afterwards, for every pattern of file failures: the mark of this space raised to the larger value, or nothing |
| ReadCache.DirReadCache.Store | packages/cli/src/read-cache.ts:128-161 | the disk afterwards for every pattern of file failures, against the specification |
| ReadCache.StoredExactly | packages/cli/src/read-cache.ts:128-161 | an entry is stored exactly when the answer names its space, a number is known and the file can be written; its number is the answer's own if it carries one and the space's mark only if not, and nothing else on the disk changes but that mark |
| ReadCache.WatermarkReaches | packages/cli/src/read-cache.ts:190-201 | a mark that can be written ends at the larger of what was read and the new number |
| ReadCache.IncludesExactly | packages/cli/src/read-cache.ts:163-180 | a text is searched for an id at every place |
| ReadCache.DirReadCache.Read | packages/cli/src/read-cache.ts:115-126 | serves an entry only for the very key it was stored under, though two keys may share a file |
| ReadCache.DirReadCache.Invalidate | packages/cli/src/read-cache.ts:163-180 | removes the files of entries about a named id and the torn ones, against the specification |
| ReadCache.InvalidationExact | packages/cli/src/read-cache.ts:163-180 | after an invalidation no entry about a named entity is left, and no other entry is lost |
| ReadCache.WatermarkRises | packages/cli/src/read-cache.ts:190-206 | when the marks can be read no mark falls and only the named space's moves; when they cannot, the file is left alone or holds the one new mark |
| ReadCache.MarksKeptExactly | packages/cli/src/read-cache.ts:190-223 | no mark falls if and only if the marks could be read, nothing is written, or there was no other mark and none above the new one |
| ReadCache.UnreadableMarksAreLost | packages/cli/src/read-cache.ts:190-223 | a mark lost to an unreadable file |
| Revalidation.UnchangedSince | packages/cli/src/client.ts:455-513 | the paging loop's verdict and, on every way out, the watermark it leaves, against the recursive specification |
| Revalidation.Lookup | packages/cli/src/client.ts:529-551 | a cacheable read either serves the found and revalidated entry or leaves it evicted |
| Revalidation.LookedUpExact | packages/cli/src/client.ts:529-551 | a lookup serves the entry stored under this very key, or removes it, and touches no other file |
| Revalidation.RevalidateSound | packages/cli/src/client.ts:455-513 | the invariant across pages, while the feed grows between them: every stretch passed so far is free of events that name the entry |
| Revalidation.UnchangedIsQuiet | packages/cli/src/client.ts:455-513 | the verdict "unchanged" means that at the last poll no visible event after the entry's number names any of its ids, up to the head of the feed, and the watermark then reaches it; any watermark left behind lies at the end of a stretch that names none of them |
| Revalidation.QuietIsUnchanged | packages/cli/src/client.ts:455-513 | over a feed that stands still and mentions nothing of the entry, the verdict is "unchanged" if and only if fewer than three full pages were committed since |
| Revalidation.PageMaxExact | packages/cli/src/client.ts:485-495 | for a page without a cursor the number taken is the highest that an event of it carries, or none |
| Revalidation.RaisedExact | packages/cli/src/client.ts:496 | the number kept for the watermark is the larger of the one so far and the page's |
| Coherence.NextKeepsInvariant | packages/cli/src/read-cache.ts:128-206 | commit, fetch and store, lookup, invalidation and loss of files each keep: every entry is a server answer of a moment at or past its sequence number, and no mark is past its head |
| Coherence.RunInvariant | packages/cli/src/read-cache.ts:9-13 | the same in every state of every run |
| Coherence.AnswerStands | packages/cli/src/read-cache.ts:9-13 | an answer is the same at two moments between which no event names its ids |
| Coherence.ServedIsFresh | packages/cli/src/client.ts:529-551 | cache coherence: whatever a lookup serves in any reachable state is, in bytes and status, what a fetch would have returned at a moment between the lookup's start and its end |
| Coherence.HitHappens | packages/cli/src/client.ts:529-551 | a run in which the read of an entity is fetched, another entity changes, and the entry is served after a poll that shows the change |
| LegacyPages.GuessIsSound | packages/cli/src/client.ts:455-513 | over pages without `hasMore`, if no polled page leaves out a row of a full window, the verdict "unchanged" means a quiet feed up to the head, while the feed grows |
| LegacyPages.AllVisibleShows | packages/cli/src/client.ts:497-499 | over a feed of which every row is shown, a page has more exactly when it is full |
| LegacyPages.ShortPageExact | packages/cli/src/client.ts:497-499 | on each of the three polls a short page that mentions nothing is trusted, and every feed that gives this page bears it out if and only if its cursor moved by less than a full window |
| LegacyPages.FarPageMayHide | packages/cli/src/client.ts:497-499 | for every other short page, a feed that gives this very page and whose next event names the entry |
| LegacyPages.ShortPageIsNoEnd | packages/cli/src/client.ts:455-513 | one reply without `hasMore` for which the verdict is wrong |
| LateStore.LateRunInvariant | packages/cli/src/read-cache.ts:128-206 | when an answer may be stored any time after its fetch, in every state of every run each entry is the answer of some past moment and no number or mark is past its head |
| LateStore.LateServed | packages/cli/src/client.ts:529-551 | over those runs, whatever a lookup serves is in bytes and status the answer of some moment j; if the answer carried its own sequence number, that is the entry's number, lies at or below the head at j, and the answer at the last poll is still the one served; and it is so for every entry if no event between the head at j and the entry's number names it, and for every lawful service behind the feeds exactly then |
| LateStore.LateStoreExact | packages/cli/src/read-cache.ts:128-161 | the law of one entry behind it; a number from before the fetch is always safe |
| StaleHit.StaleHitHappens | packages/cli/src/read-cache.ts:128-161 | a run of four states in which another read raises the watermark while an answer is on its way, and the stale answer is served |
| Resend.Send | packages/cli/src/client.ts:560-625 | the retry loop: outcome, delays and effect on the node, for every schedule of refusals, ambiguous failures, timeouts and answers |
| Resend.SendsAgainExactly | packages/cli/src/client.ts:145-176 | an invocation goes on after exactly the failures after which sending again is safe (a refused connect, or any failure without an answer of a read or of a command with an id) and the next delay fits the window, and its result is that of its last attempt |
| Resend.GetsThrough | packages/cli/src/client.ts:556-625 | a read or a command with an id that is refused or dropped m times within the window and then answered has that answer's result after m delays; a command without an id does after refused connects |
| Resend.DeliversExactly | packages/cli/src/client.ts:556-625 | a command is delivered exactly when one of the attempts of its invocation reaches a node |
| Resend.Server.Process | db/README.md:32-36 | a command is applied with its ledger row or replayed from it, and a read changes nothing |
| Resend.ProcessedExactly | db/README.md:32-36 | reads change nothing, a command without an id is applied each time, and one with an id once, with its ledger row |
| Resend.AtMostOnce | packages/cli/src/client.ts:145-176 | one invocation applies its command at most once, exactly once when it reports a 2xx |
| Resend.RefusalsApplyNothing | packages/cli/src/client.ts:145-176 | when every attempt was refused nothing was applied |
| Resend.NoIdNoAmbiguousResend | packages/cli/src/client.ts:164-176 | a command without an id stops at its first ambiguous failure |
| Resend.AppliedOnceExactly | packages/cli/src/receipt-error.ts:176-178 | over any run of invocations, re-runs of the replay command and expiries, a command with an id is applied at most once if and only if it is not delivered, its ledger row lost, and the command delivered again |
| Resend.SendingProcesses | packages/cli/src/client.ts:556-625 | however often an invocation sends its request, the node is as after processing it once if some attempt landed, and untouched otherwise |
| Resend.RunAppliesAtMostOnce | packages/cli/src/receipt-error.ts:176-178 | over any such run, a command is applied at most once more often than its ledger row expired |
| Resend.ReplayAfterExpiry | db/README.md:16 | the run in which a replay past the row's expiry applies a second time |
| Resend.RetryWindow | packages/cli/src/client.ts:563-577 | the k-th delay is the smaller of 250·2^k and 5000, the delays fit in the window, and there are at most 27 of them at 120000 ms |
| Sha256.PadMessage | packages/contract/src/artifact-manifest.ts:315-326 | the padded buffer is the padded message of section 5.1.1 of FIPS 180-4, bit for bit |
| Sha256.LengthWords | packages/contract/src/artifact-manifest.ts:315-326 | the two scalar length words are the 64-bit big-endian bit length |
| Fips180.ZeroBitsLeast | packages/contract/src/artifact-manifest.ts:315-326 | the zero padding is the least that completes a block |
| Fips180.PaddedInjective | packages/contract/src/artifact-manifest.ts:315-326 | messages with the same padding are equal |
| Js32.RotrRotates | packages/contract/src/artifact-manifest.ts:357-359 | `rotr` on numbers of any sign is the rotation of section 3.2 and its result is unsigned |
| Js32.BitsOfOperators | packages/contract/src/artifact-manifest.ts:329-359 | a signed operator result keeps the bits it stands for |
| Js32.SignedExact | packages/contract/src/artifact-manifest.ts:329-359 | a signed operator's result is the one number in the signed 32-bit range that has the bits |
| Sha256.BlockSchedule | packages/contract/src/artifact-manifest.ts:328-337 | the 64 words of the array are the message schedule of section 6.2.2 |
| Sha256.Compress | packages/contract/src/artifact-manifest.ts:339-348 | the round loop on mixed signed and unsigned numbers computes the 64 rounds of section 6.2.2 |
| Fips180.ChooseAndMajority | packages/contract/src/artifact-manifest.ts:339-348 | bit for bit, `Ch` chooses and `Maj` takes the majority |
| Sha256.AddInto | packages/contract/src/artifact-manifest.ts:350-351 | the sums that close a block are modulo 2^32 |
| Sha256.InitialWords | packages/contract/src/artifact-manifest.ts:312-313 | the initial words are the square-root fractions of the first eight primes |
| Sha256.RoundConstants | packages/contract/src/artifact-manifest.ts:293-302 | the constants are the cube-root fractions of the first 64 primes |
| Sha256.DigestHex | packages/contract/src/artifact-manifest.ts:354-355 | signed words padded to eight digits print the 256-bit digest |
| Sha256.Sha256Hex | packages/contract/src/artifact-manifest.ts:309-355 | for every byte string the result is the hexadecimal SHA-256 digest of FIPS 180-4 |
| Json.ParseOfPrint | packages/contract/src/artifact-manifest.ts:242-283 | a parser written from the grammar reads a printed document back as what the document says |
| Jcs.JcsString | packages/contract/src/artifact-manifest.ts:242-263 | the character loop writes the literal of section 3.2.2.2 of RFC 8785 |
| Jcs.EscapedIsShortest | packages/contract/src/artifact-manifest.ts:242-263 | each character is written in the shortest way in which a JSON reader reads it, with small hexadecimal digits |
| Jcs.SortedMeaning | packages/contract/src/artifact-manifest.ts:265-283 | sorting members by UTF-16 units at every level keeps what a document says |
| Jcs.CanonicalIsOrdered | packages/contract/src/artifact-manifest.ts:265-283 | the canonical text is the print of a document that says the same and whose members ascend as strings of UTF-16 code units at every level (section 3.2.3 of RFC 8785) |
| Jcs.SerialisedExactly | packages/contract/src/artifact-manifest.ts:265-283 | a document is serialised exactly when it holds no null and no truth value anywhere |
| Jcs.ParseOfJcs | packages/contract/src/artifact-manifest.ts:265-283 | an explicit parser inverts the canonical text |
| Jcs.JcsIdentifiesMeaning | packages/contract/src/artifact-manifest.ts:265-283 | two serialisable documents have the same canonical text exactly when they are equal up to member order |
| Manifest.AcceptedPathIsPlain | packages/contract/src/artifact-manifest.ts:99-125 | a path is accepted if and only if it is a join of non-empty names without a separator or a leading dot and within their size, is itself within its size, normalised, and free of backslashes, control characters and a drive prefix |
| Manifest.CompareUtf8 | packages/contract/src/artifact-manifest.ts:127-137 | the sign of the byte loop is code-point order |
| Unicode.Utf8Order | packages/contract/src/artifact-manifest.ts:127-137 | byte order of UTF-8 is code-point order |
| Unicode.Utf16CharExact | packages/contract/src/artifact-manifest.ts:265-283 | a character past 0xFFFF is a high and a low surrogate that hold its upper and lower ten bits |
| Order.LexExact | packages/contract/src/artifact-manifest.ts:127-137 | the order of lists is decided where they first differ |
| Unicode.Utf8Total | packages/contract/src/artifact-manifest.ts:127-137 | it is a strict total order on text |
| Unicode.DecodeOfEncoded | packages/contract/src/artifact-manifest.ts:285-287 | a strict UTF-8 decoder inverts the encoder |
| Ascii.LowersExactly | packages/contract/src/artifact-manifest.ts:125 | two texts fold to the same if and only if at each place they hold the same character or one ASCII letter in both cases |
| Manifest.CheckFile | packages/contract/src/artifact-manifest.ts:160-230 | one turn of the validation loop raises exactly the issues of its file, in order: a bad path, its size, an earlier equal path, an earlier path equal up to case, a neighbour out of order |
| Manifest.Validate | packages/contract/src/artifact-manifest.ts:160-230 | one pass over neighbours and two seen sets reports the issues of all files, and none exactly for an accepted manifest: plain paths strictly ascending over all pairs, no two that differ only in the case of ASCII letters, sizes in bounds, entrypoint present |
| Order.AscendingUnique | packages/contract/src/artifact-manifest.ts:160-230 | two strictly ascending lists with the same elements are equal |
| Manifest.ContentDeterminesManifest | packages/contract/src/artifact-manifest.ts:160-230 | accepted manifests with the same entrypoint and the same set of files are equal |
| Manifest.CanonicalBytesIdentify | packages/contract/src/artifact-manifest.ts:285-287 | equal canonical bytes mean equal manifests |
| Manifest.CanonicalBytesForgetOrder | packages/contract/src/artifact-manifest.ts:265-287 | the member order of the object a producer builds does not reach the bytes |
| Manifest.ManifestSha256 | packages/contract/src/artifact-manifest.ts:366-368 | the hash is the SHA-256 digest of the canonical bytes |
| Manifest.CanonicalBytesRead | packages/contract/src/artifact-manifest.ts:285-287 | the canonical bytes are UTF-8 text that a JSON reader reads as the manifest, name by name and its files in order |
| Manifest.DigestsAreHex | packages/contract/src/artifact-manifest.ts:148 | the digests a file may name are the hexadecimal texts of 256 bits |
| Cursor.ReadBack | packages/contract/src/cursor.ts:21-34 | unpadded base64url reads back to its bytes |
| Cursor.GuardAdmitsEncoded | packages/contract/src/cursor.ts:47-67 | the offset guard never refuses an encoded cursor |
| Cursor.RoundTrip | packages/contract/src/cursor.ts:36-67 | decoding an encoded keyset of strings, integers and nulls gives it back |
| Cursor.UrlTextIsSixBits | packages/contract/src/cursor.ts:21-27 | the encoder's text is the bits of the bytes read six at a time in the url-safe alphabet of section 5 of RFC 4648, without padding |
| Cursor.EncodedIsWire | packages/contract/src/cursor.ts:36-40 | a cursor is that text of the UTF-8 bytes of an object that says version 2 and the keys in order |
| Cursor.DecodeExact | packages/contract/src/cursor.ts:47-67 | of all printed documents exactly the objects with version 2 and a list of strings, numbers and nulls that is not empty are decoded, to those keys; every other version is refused |
| Argv.ScanTokens | packages/cli/src/args.ts:338-455 | the token loop against the recursive scan: positionals, bag, flags, passthrough and every refusal |
| Spelling.SpelledIsRead | packages/cli/src/args.ts:338-455 | every spelling of an invocation (words, and options as `--n=v`, `--n v` or `--n` alone where each fits, in any order, then `--` and a tail) is scanned to exactly its words, each option's values in order, no global flag, and its tail |
| Spelling.SpelledIsParsed | packages/cli/src/args.ts:338-525 | a spelling is accepted exactly when each global is given at most once and with a valid value, and is split into words, tail, globals and command options |
| Spelling.VersionFirst | packages/cli/src/args.ts:378-412 | `--version` before the first word is the global flag and leaves the rest as it is; after a word it takes a value like any option |
| Spelling.RefusedAfter | packages/cli/src/args.ts:338-455 | after any spelling a short option, an empty name, a retired option and a value given to a bare one are refused, each with its own error |
| Spelling.ValueMissing | packages/cli/src/args.ts:338-455 | an option that takes a value is refused at the end and before another option |
| Spelling.ToolOwnsTail | packages/cli/src/args.ts:338-455 | after `tool run` and its options a tool's name takes every later token for its own |
| Spelling.ToolAfterDash | packages/cli/src/args.ts:338-455 | so does a tool's name from behind `--` |
| Rewriting.RemoveOption | packages/cli/src/receipt-error.ts:147-164 | the removal loop against its specification |
| Rewriting.RemovalCommutes | packages/cli/src/receipt-error.ts:147-164 | scanning after the removal is the scan without that option |
| Rewriting.InsertionCommutes | packages/cli/src/receipt-error.ts:166-169 | the inserted option is read last and changes nothing else |
| Rewriting.RewritingCommutes | packages/cli/src/receipt-error.ts:141-192 | the rewritten argv scans to the same invocation with the option set to exactly the one value, if and only if no tool name owns the tail and the value does not begin with `--` |
| Rewriting.ParsingCommutes | packages/cli/src/args.ts:338-455 | an accepted invocation stays accepted under the rewriting, with the same positionals and passthrough and the one option or global replaced, unless the value is no valid `--format` or `--timeout` |
| Rewriting.RewrittenNamesTakeValues | packages/cli/src/receipt-error.ts:176-192 | the option names the source rewrites take a value on every command path |
| Rewriting.OptionLikeIdFails | packages/cli/src/receipt-error.ts:176-178 | a mutation id that begins with `--`, given with `=`, is accepted and its rewriting refused |
| Rewriting.ToolTailFails | packages/cli/src/receipt-error.ts:176-192 | after `tool run` and a name no option can be set |
| Rewriting.PathScopedNameFails | packages/cli/src/args.ts:338-455 | a path-scoped name for which the rewriting changes the invocation |
| Shell.CommandLineRead | packages/cli/src/receipt-error.ts:141-174 | a POSIX shell splits the printed line into `tm8` and the very tokens |
| Shell.SafeIsOrdinary | packages/cli/src/receipt-error.ts:141-174 | no character that is printed without quotes is special to a POSIX shell |
| Shell.BareExactly | packages/cli/src/receipt-error.ts:141-144 | a token is printed as it is exactly when it is not empty and made of letters, digits and ten marks |
| Shell.ReplayCommandIsSameInvocation | packages/cli/src/receipt-error.ts:176-178 | the printed replay command, typed at a shell, is the same invocation with the id pinned, under the exact condition above |
| Shell.RetryCommandIsSameInvocation | packages/cli/src/receipt-error.ts:186-192 | the printed retry command, typed at a shell, is the same invocation without the mutation id and with the version pinned, if and only if no tool name owns the tail (or nothing is pinned and the tool's tokens name no id) and the version does not begin with `--` |
| RunStage.PollSession | tools/codebrain/conductor.py:406-447 | one look at a session takes the branch of the specification, with its effect on the maps, notes and lines |
| RunStage.AfterWitnesses | tools/codebrain/conductor.py:384-448 | at every turn of every run each logged look has the verdict its observations stand for: promised, reported past the grace, stopped and posted again, idle past 240 seconds, past the timeout, or running; each is a look at the session started last for its member, with its age since that start |
| RunStage.PromiseIsSeen | tools/codebrain/conductor.py:407-448 | a member's last session left by its promise exactly when the look that ended it found the promise |
| RunStage.FilledOneView | tools/codebrain/conductor.py:386-402 | filling one slot moves the first pending member to live with one more start, or to done in a dry run, and touches no other member |
| RunStage.RunStage | tools/codebrain/conductor.py:366-448 | the loop returns; in a real run every session started was ended, `ok` holds exactly when for each member not in the ledger the look that ended its last session found the promise, and there is one note for each that did not; a dry run starts nothing |
| RunStage.AfterKeeps | tools/codebrain/conductor.py:384-448 | at every turn each member is in exactly one of pending, live and done, live stays within the cap, no member was started more than twice and only a wedged one twice, and a member that is done left the one note its last verdict calls for, or none for a promise |
| RunStage.FilledOneKeeps | tools/codebrain/conductor.py:385-402 | the same after each single start |
| RunStage.PolledKeeps | tools/codebrain/conductor.py:406-447 | the same after each single look |
| RunStage.PolledWork | tools/codebrain/conductor.py:406-447 | a look ends the session or uses up a poll, and the first look past the phase timeout ends it |
| RunStage.StageEnds | tools/codebrain/conductor.py:384-448 | for every behaviour of the sessions all members are done within 244 turns per member not in the ledger |
| RunStage.StageOutcome | tools/codebrain/conductor.py:448 | in a finished stage no session is left, and the notes are as many as the members that did not promise |
| RunStage.AlreadyExact | tools/codebrain/conductor.py:378-381 | the members in the ledger are said to be complete, in their order |
| RunStage.PendingExact | tools/codebrain/conductor.py:382 | the others are pending, in their order |
| Credentials.ReadIndex | packages/cli/src/credentials.ts:120-143 | the keys read, whether they may be written back, and the fold of the legacy entry, under every failure pattern |
| Credentials.StoreSpaceCredential | packages/cli/src/credentials.ts:165-178 | the token it replaced, the store afterwards, and exactly when it fails: without a gate session, or when the pin was not listed, the index was read and writing it fails |
| Credentials.TokensChange | packages/cli/src/credentials.ts:83-199 | under a gate session `id`, whatever fails, entering a space writes the one key made of origin, space and `id`, and a refusal deletes it exactly if it still holds the refused token; no other token changes but the legacy entry |
| Credentials.NothingWithoutGate | packages/cli/src/credentials.ts:145-199 | without a gate session neither does anything |
| Credentials.SessionIdExact | packages/cli/src/credentials.ts:83-88 | a token names a session exactly when it is `tm8s_`, an id without a dot that is not empty, a dot and anything |
| Credentials.PinKeyNamesPair | packages/cli/src/credentials.ts:90-104 | no other space or gate session has the same key |
| Credentials.SplitInvertsJoined | packages/cli/src/credentials.ts:106-143 | a legacy list of keys is read back as it was joined |
| Credentials.DistinctOnce | packages/cli/src/credentials.ts:130 | the merged keys are listed once each, in order |
| Credentials.ForgetSpaceCredential | packages/cli/src/credentials.ts:187-199 | removes the pin exactly when it still is the refused token |
| Credentials.DropSpaceCredentials | packages/cli/src/credentials.ts:202-221 | the tokens returned and the store afterwards, under every failure pattern |
| Credentials.FileCredentialStore.SetSpaceIndex | packages/cli/src/credentials.ts:352-375 | replaces the index of one origin, an empty one removing it and an empty store being no file |
| Credentials.NothingLost | packages/cli/src/credentials.ts:120-221 | whatever index operations fail, no command takes a key out of index and legacy entry while its pin stays stored |
| Credentials.RunLosesNothing | packages/cli/src/credentials.ts:120-221 | the same over every run of commands at any origins |
| Credentials.EnterLists | packages/cli/src/credentials.ts:165-178 | a stored pin ends up listed if and only if it was listed before or both index operations succeed |
| Credentials.RunLists | packages/cli/src/credentials.ts:120-221 | over every run and every failure pattern, a pin that stays stored is listed at the end if and only if it was listed at first or some command entered its space with both index operations succeeding |
| Credentials.RunStaysExact | packages/cli/src/credentials.ts:165-221 | without index failures every stored pin of every origin is listed, and nothing but pins, after any run |
| Credentials.EmptyIsExact | packages/cli/src/credentials.ts:287-308 | the empty store of a first install meets that hypothesis |
| Credentials.LogoutRevokesEveryPin | packages/cli/src/credentials.ts:202-221 | then a logout returns the token of each live pin of its origin once and no other, and leaves no pin, index or legacy entry |
| Credentials.UnlistedPinSurvives | packages/cli/src/credentials.ts:202-221 | a pin that is not listed outlives every logout |
| Credentials.OneFailedWriteLosesPin | packages/cli/src/credentials.ts:165-178 | one failed index write leaves such a pin |
| Forms.FormJsonEqualExact | packages/contract/src/forms.ts:95-108 | the comparison is equality of JSON values, member order aside, for exactly the left operands without an empty own `__proto__` |
| Forms.Impostor | packages/contract/src/forms.ts:95-108 | every other left operand is taken to equal some different value |
| Forms.Renamed | packages/contract/src/forms.ts:95-108 | such a comparison can hold one way and fail the other |
| Forms.FormJsonEqualEquivalence | packages/contract/src/forms.ts:95-108 | on the good operands it is reflexive, symmetric and transitive |
| Forms.ChoicesEqualIsSetEquality | packages/contract/src/forms.ts:269-272 | equal sizes and one inclusion mean that the same values are chosen, in whatever order and however often, with the same write-in or none |
| Forms.FormAnswersEqualEquivalence | packages/contract/src/forms.ts:633-645 | switching comparison on what the schema accepts, it is still an equivalence |
| Forms.Compared | packages/contract/src/forms.ts:666-674 | answers are the same, and so not listed as changed, exactly when they fall in the same class |
| FormInput.SplitEscaped | packages/cli/src/form-input.ts:105-122 | the index loop against the recursive split |
| FormInput.SplitInvertsJoin | packages/cli/src/form-input.ts:105-122 | splitting parts that were escaped and joined gives them back, for every separator but the backslash |
| FormInput.SplitCount | packages/cli/src/form-input.ts:105-122 | one piece more than there are separators after an even run of backslashes |
| FormInput.QuestionRoundTrip | packages/cli/src/form-input.ts:131-156 | every writable question, with its commas nested in colons, is read back from its shorthand |
| FormInput.RefusedExactly | packages/cli/src/form-input.ts:131-140 | a shorthand is refused for its segments exactly when it has fewer than two or more than three colons after an even run of backslashes |
| FormInput.ItemsExact | packages/cli/src/form-input.ts:141-143 | of the comma separated pieces exactly the blank ones are left out |
| FormInput.LabelledChoice | packages/cli/src/form-input.ts:144-151 | blanks around the equals sign reach neither the value nor the label |
| FormInput.StarredChoice | packages/cli/src/form-input.ts:144-151 | a star at the end recommends the choice, and it and the blanks before it are no part of the label |
| FormInput.BareChoice | packages/cli/src/form-input.ts:144-151 | a choice without a label is labelled with its value |
| FormInput.TrimUnpads | packages/cli/src/form-input.ts:139-143 | trimming takes the blanks off both ends and nothing else |
| FormInput.SlashDoesNotSeparate | packages/cli/src/form-input.ts:105-122 | why the backslash is not a separator: parts it does not give back |
| FormInput.OneEscapeExact | packages/cli/src/form-input.ts:126-130 | text escaped once is read back through both levels if and only if none of its backslashes stands directly before a backslash or a comma |
| FormInput.OneEscapeIsNotEnough | packages/cli/src/form-input.ts:126-130 | one such text, and what is read instead |
| Digest.Digest | examples/tools/space-digest/tool.py:28-55 | the page loop against the recursive walk, with each of its failures |
| Digest.PageIsBetween | packages/server/src/events/poll.ts:189-253 | a page returns exactly the visible rows between its two cursors |
| Digest.DigestIsFold | examples/tools/space-digest/tool.py:28-55 | a digest is one fold over the visible events after `since` up to its cursor, wherever the pages were cut while the feed grew |
| Digest.FoldContents | examples/tools/space-digest/tool.py:38-46 | that fold counts each event of a kind once and keeps the last write of each task and pull request |
| Digest.FoldOrder | examples/tools/space-digest/tool.py:38-55 | tasks and pull requests are listed in the order in which each first appeared |
| Digest.EventCountIsRows | examples/tools/space-digest/tool.py:53-54 | the counts add up to the number of events |
| Digest.WalkEnds | examples/tools/space-digest/tool.py:28-55 | over a feed that stands still and can be read, there is a digest if and only if fewer rows than a thousand full pages come after the cursor, and otherwise the walk fails for its length |
| Digest.WalkFollows | examples/tools/space-digest/tool.py:28-55 | whatever the replies, the walk follows rising cursors up to the first page that ends it, which shows why: a failed request, an event that cannot be read, a cursor that does not move, or no more pages; only after a thousand pages it stops for its length |
| Digest.ReadableFolds | examples/tools/space-digest/tool.py:38-46 | folding a page fails exactly when some event lacks a member that it is asked for |
| Uuid.Uuidv7 | packages/cli/src/mutation.ts:38-53 | the patched byte array prints the fields of section 5.7 of RFC 9562, for any clock value and random bytes |
| Uuid.Hex | packages/cli/src/mutation.ts:28-32 | the nibble loop prints the hexadecimal digits of the bytes |
| Uuid.UuidRises | packages/cli/src/mutation.ts:34-53 | a later millisecond gives a lexicographically later id, whatever the random bytes |
| Uuid.UuidReads | packages/cli/src/mutation.ts:34-53 | the first twelve digits are the time, the version digit is 7, and all digits together are the fields |
| Uuid.UuidUnique | packages/cli/src/mutation.ts:15-20 | two ids are equal exactly when the times agree modulo 2^48 and the 74 random bits agree |
| Js32.AndMask | packages/cli/src/mutation.ts:41-50 | a mask applied to a number of any size is its residue |
| Craft.Sanitize | packages/contract/src/craft-workspace.ts:232-253 | the loop with its seen sets and early break keeps the greedy first occurrences, up to the cap |
| Craft.TabOfExact | packages/contract/src/craft-workspace.ts:239-249 | an entry describes a tab exactly when it has an id, an entity and one of the five kinds or the older name of the first |
| Craft.KeptIsSubsequence | packages/contract/src/craft-workspace.ts:239-249 | the kept tabs are a subsequence of the stored ones |
| Craft.DroppedForClash | packages/contract/src/craft-workspace.ts:239-249 | before the cap a described tab is dropped only for one kept before it that shares its id or entity |
| Craft.SaneIsSound | packages/contract/src/craft-workspace.ts:225-253 | for every stored value: pinned overview first, unique ids and entities, known kinds, at most 50 tabs, a selection that names a tab |
| Craft.FixedPointsAreSound | packages/contract/src/craft-workspace.ts:225-253 | sanitizing a stored state gives it back if and only if it is sound |
| Craft.SaneIsIdempotent | packages/contract/src/craft-workspace.ts:225-253 | sanitizing twice is sanitizing once |
| Journal.ComputeStats | packages/cli/src/journal-stats.ts:148-239 | the report's totals, rows, refetches, expensive records and poll loops are the tallies of the selected records; refetches and distinct keys add up to the invocations |
| Journal.SelectedExact | packages/cli/src/journal-stats.ts:79-84 | a filter keeps, in order, exactly the records of its class: the declared one if there is one, else judged by port and directory |
| Journal.NamedByPath | packages/cli/src/journal-stats.ts:180-183 | a row is named by the words of its command path with single spaces between them |
| Journal.TimesExact | packages/cli/src/journal-stats.ts:209-212 | a group's starts are those that parse, one for each record |
| Journal.PollLoopsExact | packages/cli/src/journal-stats.ts:201-222 | the poll loops are one entry, with its count and mean gap, for each key seen at least the least number of times, and no other |
| Journal.TopIsCostliest | packages/cli/src/journal-stats.ts:191-199 | the expensive list is as long as it may be, descending, holds no record more often than the journal, and leaves out none that costs more than one it holds |
| Journal.CommandsConserve | packages/cli/src/journal-stats.ts:180-189 | counts, failures and tokens of the per-command rows add up to the totals |
| Journal.ClassesConserve | packages/cli/src/journal-stats.ts:155-156 | the class counts add up to all records |
| Journal.RefetchIsTheRest | packages/cli/src/journal-stats.ts:164-179 | every record is the first of its key or a refetch |
| Journal.ShareInRange | packages/cli/src/journal-stats.ts:225-233 | the refetch share is in [0, 1] for non-negative tokens, and so is the failure rate |
| Journal.MeanGapIsSpan | packages/cli/src/journal-stats.ts:207-221 | the mean gap is the whole number nearest to the span of the starts over one less than their number, in whatever order the records come |
| Journal.KeyIsArgv | packages/cli/src/journal-stats.ts:115-117 | without spaces, equal keys are equal sessions and arguments |
| Journal.KeyNamesArgv | packages/cli/src/journal-stats.ts:115-117 | among arguments without spaces, a key names the arguments it was made of if and only if they are not empty and hold no space |
| Journal.KeyConfuses | packages/cli/src/journal-stats.ts:115-117 | any other arguments share their key with different ones |
| Journal.ConfusedIsRefetched | packages/cli/src/journal-stats.ts:164-179 | and the second of two such records counts as a refetch |

## Left out

- Coherence.ServedIsFresh: fetching and storing are one step; LateStore.LateServed is the result without that.
- Resend.AppliedOnceExactly: a ledger row that expires while one invocation is still retrying; the window is two minutes and a row lives a day.
- `keyFor` and its sorting of query parameters: a key is given, and only its file name is shared.
- Rewriting.PathScopedNameFails: names that are bare on one command path, which the source never rewrites; only this failure is shown.
- Pages without a cursor: the client falls back to the highest number on the page.
- The server's SQL side (row security, migrations, the ledger's own code): its documented guarantees are hypotheses.
- Reconnects, response modes, downloads, journalling and error texts of the client.
- `toLowerCase` outside ASCII, lone surrogates, floating-point numbers in JSON, and real Unicode NFC: the first is modelled on ASCII letters, NFC is an arbitrary function.
- A base64 decoder's leniency on malformed input: decoding is modelled for well-formed text and refuses the rest.
- `fitBudget`, `isAmbiguous` and the texts of error receipts; `splitCommandPath` and the accessors of `OptionBag`.
- Zod schemas other than the manifest's refinements, and `validateFormAnswers`.
- Sections of `--section` and the assembly of a form: `splitEscaped` is the part with a law.
- The order in which the journal's rows and poll loops are printed, which are sorted after they are computed; parsing of journal lines.
- The keychain backend and file modes of the credential store; a lost write between two processes.
- The conductor's gates, its plan across stages, and what happens across restarts.
- Fractions of a second in the scheduler's clock.
- SHA-256 collision resistance: the manifest theorems identify canonical bytes.
