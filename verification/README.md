# Verification of the search engine's crawler, indexer and query path

The repository is a small web search engine. A crawler fetches pages politely, keeps its
queue on disk and hands documents over in spool segments; an indexer drains those into an
index and scores pages by their links; a search service answers queries from the index
and pages through the results. This project models the parts where a mistake loses
documents, breaks a promise to a site, or shows a reader something false, and proves what
those parts promise.

| files | part |
|---|---|
| `Handoff`, `Spool`, `Drain`, `SegmentNames`, `Frames` | the crash-tolerant hand-off between crawler and indexer |
| `Frontier`, `FrontierKeys`, `Ledger`, `Bytes`, `Politeness`, `Spacing`, `CrawlLoop` | the queue on disk, the seek for the next ready host, the dispatch loop and the spacing of visits |
| `Glob`, `Robots`, `Percent`, `RobotsRfc`, `RobotsGroups`, `RobotsFiles`, `RobotsLines`, `Sitemap` | robots.txt, against RFC 9309, and sitemaps |
| `LinkGraph`, `GraphHosts`, `PageRank`, `Stationary` | the link graph and its scores |
| `QueryCache`, `PageWalk` | cached queries and the walk over result pages |
| `History`, `Calendar`, `SmoothPath`, `SmoothShape` | the growth timeline, timestamps, the chart curve |
| `Basics`, `Sorting`, `Text` | shared definitions |

`dafny verify dfyconfig.toml` checks everything.

## How the parts are modelled

Code that updates fields is a class with those fields, and loops are loops; what they
compute is stated by functions and proved of those functions in lemmas.

The hand-off is a state machine over a directory of numbered segments and an index
(`Handoff`). Its actions are the steps between which either process may stop; a run is any
legal sequence of them. `Drain` holds the two processes as they are written; each of
their operations is proved to append actions to the run, so the outcome of a drain follows
from the theorem about all runs.

The queue keeps no list of what was pushed and popped; `Ledger` does, as a history, and
the entries in the store are proved to be exactly the jobs pushed and not popped. `CrawlLoop`
runs over that frontier: outcomes of visits, their order, the clock and interrupts are
arbitrary choices.

## Where the code and its comments differ

Each bullet names the theorem that says exactly when the code keeps the promise, and a
lemma or method with an input where it does not.

- Anchored robots.txt patterns are decided without backtracking (`robots.rs:143-146`), so a pattern with
  a star misses paths that also match earlier: `Glob.AnchoredIsExactIffNoStar` for one pattern,
  `RobotsRfc.AgreesOnNormalFormsIff` for the verdict, `RobotsRfc.OverlookedDisallowIsVisited` the input.
- A tie between Allow and Disallow goes to Disallow (`robots.rs:95-103`), against the comment at line 74
  and section 2.2.2 of RFC 9309: `RobotsRfc.AgreesWithRfcIffNoTie`, `RobotsRfc.TieIsRefused`.
- Patterns and paths are compared as written (`robots.rs:124-141`), where section 2.2.2 of RFC 9309 compares
  normal percent-encodings: `RobotsRfc.AgreesWithRfcIff` and `RobotsRfc.AgreesOnNormalFormsIff` for the verdict,
  `RobotsRfc.OnePlainPatternAgreesIff` for one pattern, `RobotsRfc.UnencodedPatternIsVisited` and
  `RobotsRfc.EncodedPathIsVisited` the inputs.
- One group is kept (`robots.rs:248-272`), and only of those with rules (`robots.rs:234-236`), where section 2.2.1 of
  RFC 9309 combines all that name the crawler: `RobotsGroups.FirstGroupSufficesIff`, with
  `RobotsFiles.SecondGroupOfTheSameAgent` and `RobotsFiles.LastGroupWithoutRules`. A `Crawl-delay` ends the names of
  a group, against section 2.2.4: the same theorem, `RobotsFiles.DelayBetweenNames`. Without tokens that only its
  name contains the theorem holds for a product token too, `RobotsGroups.FirstGroupSufficesForProductIff`; with
  one the crawler may obey it, `RobotsFiles.TokenInsideName`.
- The minimum delay (`main.rs:83-86`) is not always kept between two visits of a host: a host is deferred when a
  visit ends (`main.rs:688-691`), so visits up to the per-host limit start together. Visits are spaced for one
  worker or a limit of one, `CrawlLoop.Crawl.VisitsAreSpaced`, and for no other settings,
  `CrawlLoop.TwoJobsOfOneHost`.
- A delay of 2^63 ms or more wraps to the past: `Politeness.DeferralIsForwardIffDelayFits`,
  `Politeness.HugeDelayWraps`.
- `max_nodes` does not bound the nodes: the page itself is always interned (`graph.rs:114`). The last clause of
  `LinkGraph.LinkGraph.Record` says when the bound holds, `LinkGraph.NodeBoundIsExceeded` shows it broken.
- Recording a page again at the edge bound leaves it without links, since what it replaces is subtracted last:
  `LinkGraph.AllReadIff`, `LinkGraph.RecordingAgainLosesLinks`.
- Segment names sort as numbers only up to twelve digits; the indexer sorts by number, so the hand-off does
  not depend on it: `SegmentNames.NameOrder`, `SegmentNames.PaddingIsOutgrown`.
- The number after the last 64-bit number is 0 in an optimised build: `SegmentNames.NextIsAboveIff`,
  `SegmentNames.NumberingStartsAgain`.
- A clock that goes back can make the timeline forget a minute that is still in a window:
  `History.IndexHistory.DocumentsSince` says by how much, `History.ClockSetBackLosesDocuments` is an input.

## Assumptions

- One crawler and one indexer, each holding the lock of its store. Renames, removals, store batches and
  index commits are atomic, and what was flushed before a rename is on disk.
- The document encoding decodes what it encoded. Query parsing, ranking and rendering are
  deterministic in the contents of the index. A host name has no zero byte, and a canonical URL has a host.
- The seen-URL filter never denies a URL it was given; it may claim others.
- Fewer than 2^64 jobs are ever pushed; the crawl loop ends a run that would pass that.

## Model

| member | source | states |
|---|---|---|
| `Handoff.StepKeeps` | crates/indexer/src/drain.rs:86-158 | Every step of crawler and indexer, and every stop and restart of either, keeps the hand-off's invariant: fresh numbers, listed segments oldest first, what is written and not pending in the index, nothing lost, nothing invented |
| `Handoff.RunsKeep` | crates/indexer/src/drain.rs:87-100 | The invariant holds after every legal interleaving of the two processes, however often either stops |
| `Handoff.HandoffIsCrashSafe` | crates/indexer/src/drain.rs:87-100 | After any run, writing the segments left onto the committed index gives, URL by URL, what writing everything ever sealed in sealing order onto an empty index gives; with the spool empty the index is exactly that |
| `Handoff.OnlySealedIsIndexed` | crates/indexer/src/spool.rs:1-6 | Every document in the index was sealed, and stands under its own URL |
| `Handoff.SequenceOrderIsSealOrder` | crates/indexer/src/spool.rs:37-46 | The documents of the segments removed so far, in the order of removal, followed by those of the segments present, by number, are everything ever sealed, in sealing order: segments are consumed in crawl order |
| `Handoff.RetiredIsCommitted` | crates/indexer/src/drain.rs:141-158 | A URL of a removed segment that no segment present still holds is found, with the document of it that was removed last |
| `Handoff.NamesAreFresh` | crates/crawler/src/storage.rs:420-431 | A segment is created above every file of the directory and sealed above every sealed one, also after numbering restarts in an emptied directory, so no file overwrites another |
| `Handoff.SealingKeeps` | crates/crawler/src/storage.rs:150-160 | Flushing and renaming a segment adds its documents to what is owed to the index and nothing else |
| `Handoff.CommittingKeeps` | crates/indexer/src/drain.rs:141-155 | A commit, also in the middle of a segment, changes nothing about what replaying the segments left would give |
| `Handoff.RetiringKeeps` | crates/indexer/src/drain.rs:155-158 | A segment removed once its documents are committed is not missed |
| `Spool.Absorbed` | crates/search-core/src/index_writer.rs:115-143 | Documents that are written again later have no effect of their own: replaying a half-committed segment is harmless |
| `Spool.UpsertDecides` | crates/search-core/src/index_writer.rs:115-143 | What a URL finds after a list of upserts is decided by the list when the list has the URL and by the index before when it has not |
| `Spool.LastWins` | crates/search-core/src/index_writer.rs:115-143 | The last document written with a URL is the one found under it |
| `Spool.NewestLast` | crates/crawler/src/storage.rs:335-341 | A segment with the highest number comes last in crawl order |
| `Spool.OldestFirst` | crates/indexer/src/spool.rs:37-46 | The lowest number comes first in crawl order and the others follow |
| `Drain.SpoolDirectory.NextSequence` | crates/crawler/src/storage.rs:420-431 | One above the highest number of any open or sealed file, 1 for an empty directory |
| `Drain.SpoolDirectory.SealedSegments` | crates/indexer/src/spool.rs:21-46 | Exactly the sealed numbers, in increasing order |
| `Drain.ArchiveWriter.constructor` | crates/crawler/src/storage.rs:190-206 | Opening the archive resumes numbering and opens a segment: two steps of the protocol |
| `Drain.ArchiveWriter.OpenSegment` | crates/crawler/src/storage.rs:326-333 | A new empty segment takes the next number |
| `Drain.ArchiveWriter.SealSegment` | crates/crawler/src/storage.rs:335-341 | The segment being written is renamed with all it holds; without one nothing happens |
| `Drain.ArchiveWriter.WritePage` | crates/crawler/src/storage.rs:209-228 | The document is appended; a segment that reaches its size is sealed and another opened; a sealed archive refuses and changes nothing |
| `Drain.DocWriter.AddOrUpdate` | crates/search-core/src/index_writer.rs:121-143 | The document is queued behind those queued before and is not yet found |
| `Drain.DocWriter.Commit` | crates/search-core/src/index_writer.rs:146-151 | Everything queued is upserted in order at once |
| `Drain.Drain.VisitDocument` | crates/indexer/src/drain.rs:141-153 | One document is written, followed by a commit when enough are pending: one or two steps of the protocol |
| `Drain.Drain.DrainSegment` | crates/indexer/src/drain.rs:138-158 | A segment is written whole, committed, and only then removed; it returns how many documents were read |
| `Drain.Drain.DrainListed` | crates/indexer/src/drain.rs:130-161 | A pass retires every segment listed and reports their number and their documents |
| `Drain.Drain.Run` | crates/indexer/src/drain.rs:100-192 | A run over the spool empties it; the index is then what all documents ever sealed make of an empty one, which is also the old index with the segments upserted in order; the report counts segments, documents and the index |
| `Drain.TakeTurns` | crates/indexer/src/drain.rs:86-99 | The two processes as written, taking turns over one spool in any order, keep what each relies on; whenever the spool is empty the index is what all sealed documents make of an empty one |
| `SegmentNames.NamesParseBack` | crates/common/src/spool.rs:105-129 | Open and sealed names give their number back and are told apart, for every 64-bit number; so no two segments share a name |
| `SegmentNames.NameIsRead` | crates/common/src/spool.rs:118-129 | A name has a number exactly when it is `segment-`, an optional plus sign, digits that make it, at most 64 bits, and `.open` or `.pdoc` |
| `SegmentNames.NamesArePadded` | crates/common/src/spool.rs:105-116 | Numbers are padded with zeros to twelve digits |
| `SegmentNames.NameOrder` | crates/common/src/spool.rs:105-116 | Names sort as their numbers exactly when the smaller number is at most the leading digits of the larger |
| `SegmentNames.PaddedNamesSort` | crates/common/src/spool.rs:105-116 | Below a million million, names sort as their numbers |
| `SegmentNames.PaddingIsOutgrown` | crates/common/src/spool.rs:105-116 | The first pair of names that sorts the wrong way round |
| `SegmentNames.NextSpoolSequence` | crates/crawler/src/storage.rs:420-431 | One above the highest number parsed from any name, other names being passed over, in 64 bits |
| `SegmentNames.NextIsAboveIff` | crates/crawler/src/storage.rs:420-431 | That number is above every number in the directory if and only if no file has the last 64-bit number |
| `SegmentNames.NumberingStartsAgain` | crates/crawler/src/storage.rs:420-431 | Beside a file with the last number it is 0, below what is sealed |
| `SegmentNames.NextIsAboveDirectory` | crates/crawler/src/storage.rs:420-431 | In a directory of segments that highest number is the highest present, open or sealed |
| `SegmentNames.SealedSegments` | crates/indexer/src/spool.rs:21-46 | The sealed names, each as often as it occurs, in the order of their numbers |
| `SegmentNames.ForeignNamesComeLast` | crates/indexer/src/spool.rs:37-46 | Sealed files without a number come behind all that have one below the last |
| `SegmentNames.NamesListSequences` | crates/indexer/src/spool.rs:15-46 | In a directory of segments the sorted names list the sealed numbers, smallest first |
| `Frames.Reader.Read` | crates/common/src/spool.rs:169-188 | A read delivers some of the bytes left, none only at the end, or is interrupted or fails without consuming any |
| `Frames.WriteFrame` | crates/common/src/spool.rs:131-146 | One frame is appended and its size returned; an encoding too long for the header writes nothing |
| `Frames.ReadExactOrEof` | crates/common/src/spool.rs:168-188 | Whatever the short and interrupted reads, the buffer is filled, or the stream ended cleanly before it, or the error counts the bytes there were |
| `Frames.ReadFrame` | crates/common/src/spool.rs:149-166 | Reads what a frame at the front means, and leaves the bytes after it |
| `Frames.ReadSegment` | crates/indexer/src/spool.rs:54-68 | Streams the documents of a segment and its way of ending; when a read fails, a prefix of the documents |
| `Frames.LengthRoundTrip` | crates/common/src/spool.rs:139-156 | The 32-bit header gives the length back |
| `Frames.LeastFirst` | crates/common/src/spool.rs:139-156 | The header is four bytes, the least significant first |
| `Frames.FrameRoundTrip` | crates/common/src/spool.rs:131-166 | A frame in front of anything is read back and leaves exactly the rest |
| `Frames.StreamRoundTrip` | crates/common/src/spool.rs:131-166 | Reading the frames of a list of documents gives the list and a clean end |
| `Frames.StreamThen` | crates/common/src/spool.rs:131-166 | Behind good frames the reading goes on as it would without them |
| `Frames.UndecodableFrameEndsReading` | crates/common/src/spool.rs:157-166 | A frame that does not decode ends the reading with an error and exactly the documents before it |
| `Frames.CutFrameIsAnError` | crates/common/src/spool.rs:144-166 | A frame cut inside is an error naming the bytes promised and the bytes there |
| `Frames.CutStream` | crates/common/src/spool.rs:144-188 | A segment cut anywhere gives its complete frames, and a clean end exactly on a frame boundary |
| `Frames.CutFallsIntoFrame` | crates/common/src/spool.rs:144-188 | Every cut before the end falls into some frame, so the previous row covers all of them |
| `FrontierKeys.HostRoundTrip` | crates/common/src/spool.rs:69-81 | A key gives its host back, for hosts without a zero byte |
| `FrontierKeys.SameHostOrder` | crates/common/src/spool.rs:62-75 | Within a host, key order is sequence order |
| `FrontierKeys.OtherHostOrder` | crates/common/src/spool.rs:62-75 | Between hosts, key order is the byte order of the hosts, whatever the sequence numbers |
| `FrontierKeys.KeyIsInjective` | crates/common/src/spool.rs:62-75 | Different hosts or sequence numbers have different keys |
| `FrontierKeys.CursorSkipsHost` | crates/crawler/src/frontier.rs:66-74 | The cursor after a host is behind all of its keys and before exactly the keys of later hosts |
| `FrontierKeys.CursorPassesKey` | crates/crawler/src/frontier.rs:66-74 | The cursor made from any key is behind that key, so a pop makes progress |
| `Bytes.BigEndianIsOrdered` | crates/common/src/spool.rs:69-75 | Big-endian bytes of one width compare as the numbers they stand for |
| `Ledger.PushKeepsLedger` | crates/crawler/src/frontier.rs:114-148 | A push overwrites no key and adds exactly its job to what is queued |
| `Ledger.PopKeepsLedger` | crates/crawler/src/frontier.rs:155-210 | Popping the lowest job of a host removes its entry alone and keeps each host's order |
| `Ledger.PopsArePrefixOfPushes` | crates/crawler/src/frontier.rs:155-210 | Each host's pops are a prefix of its pushes, in order |
| `Ledger.PushedIsPoppedPlusQueued` | crates/crawler/src/frontier.rs:98-148 | Jobs pushed are exactly those popped and those whose entries remain |
| `Frontier.CrawlDb.Seek` | crates/crawler/src/frontier.rs:169-178 | The first entry at or after the cursor, or none when there is none |
| `Frontier.VisitNextHost` | crates/crawler/src/frontier.rs:66-74 | The first entry after the cursor is the lowest job of the next host in byte order; passing it moves the cursor past that host alone |
| `Frontier.Frontier.constructor` | crates/crawler/src/frontier.rs:98-111 | Opening again makes the counters right and touches neither entries nor hosts |
| `Frontier.Frontier.Push` | crates/crawler/src/frontier.rs:114-148 | A URL with a host gets a fresh key, its host a first state if it is new, and all counters move with the entries; one without a host is refused and changes nothing |
| `Frontier.Frontier.Visit` | crates/crawler/src/frontier.rs:165-209 | The entry at the cursor ends the search, is dropped, passed over with its host, or popped |
| `Frontier.Frontier.PopReady` | crates/crawler/src/frontier.rs:155-210 | The lowest job of the first host in byte order, among the first so many queued hosts, that is neither skipped nor deferred; none exactly when there is no such host; the search ends |
| `Frontier.Frontier.Forget` | crates/crawler/src/frontier.rs:252-264 | An entry and its share of the count go together |
| `Frontier.Frontier.DeferHost` | crates/crawler/src/frontier.rs:227-249 | Records the host's next contact; the host counter stays exact if and only if the host was known |
| `Politeness.DelayMs` | crates/crawler/src/frontier.rs:54-64 | The delay is the default or the Crawl-delay, whichever is longer, and the largest number when the Crawl-delay does not fit 64 bits |
| `Politeness.DelayIsLeast` | crates/crawler/src/frontier.rs:54-64 | It is the least number that is at least the default and at least the seconds asked for, while those fit 64 bits |
| `Politeness.DelaySaturatesIff` | crates/crawler/src/frontier.rs:54-64 | It is the largest number if and only if one of the two is at least that |
| `Politeness.NextContact` | crates/crawler/src/main.rs:688-691 | In numbers, while the sums fit: a host that asks for `s` seconds is next contacted at now plus the longer of the default and 1000 `s`, one that asks for none after the default |
| `Politeness.DeferralIsForwardIffDelayFits` | crates/crawler/src/main.rs:688-691 | The next contact is never before now if and only if the delay fits a signed 64-bit number |
| `Politeness.HugeDelayWraps` | crates/crawler/src/main.rs:688-691 | The largest delay a host can ask for puts the next contact into the past |
| `CrawlLoop.Bookkeep` | crates/crawler/src/main.rs:860-869 | A finished visit leaves the map: it stays the exact count by host, without zero entries |
| `CrawlLoop.CountIn` | crates/crawler/src/main.rs:439-440 | A dispatched visit enters the map, which stays exact and within the per-host bound |
| `CrawlLoop.Crawl.Enqueue` | crates/crawler/src/main.rs:838-855 | A link is queued, under its canonical form and the host of that, exactly when it has one, is in scope, may be a page and is new to the filter; what is skipped is counted |
| `CrawlLoop.Crawl.Schedule` | crates/crawler/src/main.rs:828-858 | Queues, in order, exactly the admissible links of the batch that the filter does not know when their turn comes; no URL twice in a run and none too deep |
| `CrawlLoop.Crawl.ScheduledAreFollowed` | crates/crawler/src/main.rs:828-858 | Every admissible link of a batch is known to the filter afterwards |
| `CrawlLoop.Crawl.Absorb` | crates/crawler/src/main.rs:663-808 | An outcome defers its host to now plus the longer of the default delay and 1000 times the seconds it asks for, while that fits, and no other host; it moves exactly the counters of its kind, queues the host's sitemaps whatever became of the page and then its links unless it is too deep or dropped, and keeps the accounts; the host is one the frontier knows, so its host counter stays exact |
| `CrawlLoop.Crawl.FollowedUpIsLedTo` | crates/crawler/src/main.rs:663-808 | Every job an outcome adds is an admissible link of it, under its canonical URL and host: a sitemap of the host at depth 0, a page of a sitemap at depth 1, or a page one link further within the depth allowed and not off a dropped redirect; and every such link is known afterwards |
| `CrawlLoop.Crawl.ScheduledInOrder` | crates/crawler/src/main.rs:828-858 | What the first links of a batch lead to is queued before what later ones do |
| `CrawlLoop.Crawl.KnownIsQueued` | crates/crawler/src/main.rs:828-858 | A URL becomes known by being queued, and in no other way |
| `CrawlLoop.Crawl.SitemapsComeFirst` | crates/crawler/src/main.rs:663-808 | What the sitemaps of an outcome lead to is queued before what its links do, and exactly the URLs queued become known |
| `CrawlLoop.Crawl.Receive` | crates/crawler/src/main.rs:861-869 | An outcome received takes its visit out of flight |
| `CrawlLoop.Crawl.DispatchOne` | crates/crawler/src/main.rs:420-449 | The job started is the lowest of the first host, among those examined, that has room and is outside its politeness window, and its host is among them; otherwise there is none to start |
| `CrawlLoop.Crawl.Dispatch` | crates/crawler/src/main.rs:418-450 | When dispatching stops, either all workers are busy or no host examined that has a job and is past its window has fewer visits in flight than its limit; until then visits only began |
| `CrawlLoop.Crawl.SaturatedByVisits` | crates/crawler/src/main.rs:423-427 | A host is passed over as full exactly when its visits in flight have reached the per-host limit |
| `CrawlLoop.Crawl.Turn` | crates/crawler/src/main.rs:394-500 | A turn first only ends visits; then, unless it is stopping or the budget is reached, it only starts visits until all workers are busy or no host may be visited. With nothing in flight, a worker, and a host ready, the next event of the history is a start |
| `CrawlLoop.SomethingStarts` | crates/crawler/src/main.rs:418-450 | If a host may be visited while nothing is in flight, there is no way to a moment with all workers busy or nothing to start but through a start |
| `CrawlLoop.Crawl.Run` | crates/crawler/src/main.rs:394-500 | In every run: at most `workers` visits in flight, at most the per-host limit of one host, pages indexed and in flight within the budget plus workers less one; it leaves with nothing in flight, and when drained with every job of the queue absorbed. A run that begins with nothing in flight and a host ready starts a visit |
| `CrawlLoop.Crawl.VisitsAreSpaced` | crates/crawler/src/main.rs:83-86 | With one worker, or a limit of one visit per host, in every run each visit of a host begins after the previous one ended and no earlier than its deferral allows |
| `CrawlLoop.Crawl.VisitsAreApart` | crates/crawler/src/main.rs:83-86 | Then visits of one host begin at least the default delay apart, while the clock does not go back and no deferral wraps |
| `CrawlLoop.TwoJobsOfOneHost` | crates/crawler/src/main.rs:418-450 | With two workers and room for two visits of a host two of its jobs begin at one moment, with one of either the second waits: for all settings, starts are spaced if and only if there is at most one worker or the per-host limit is at most one |
| `Spacing.OneAtATimeIsSpaced` | crates/crawler/src/main.rs:688-691 | Of any history in which visits have room for one and begin no earlier than the last deferral of their host, every two visits of a host are spaced |
| `Spacing.SpacedByDelay` | crates/crawler/src/main.rs:688-691 | Spaced visits of one host begin at least the floor of the delays apart |
| `CrawlLoop.Crawl.JobsBalance` | crates/crawler/src/main.rs:394-500 | Jobs waiting at the start plus jobs queued are jobs waiting, in flight and absorbed |
| `Glob.Matches` | crates/crawler/src/robots.rs:124-158 | The backtracking matcher ends; unanchored it answers whether the pattern generates a prefix of the path; anchored, whether it generates the whole path and no proper prefix |
| `Glob.CommitToRun` | crates/crawler/src/robots.rs:130-158 | Between two stars the earliest match loses no match of the whole: why backtracking to the last star suffices |
| `Glob.ProperPrefixIsUnanchoredVerdict` | crates/crawler/src/robots.rs:143-146 | The shorter match that misleads an anchored pattern is one the unanchored matcher finds without the last character |
| `Glob.AnchoredIsExactIffNoStar` | crates/crawler/src/robots.rs:143-146 | An anchored pattern is decided correctly on every path if and only if it has no star |
| `Glob.AnchoredMissesRepeatedEnding` | crates/crawler/src/robots.rs:143-146 | `/*.php$` does not cover `/a.php.php` |
| `Robots.MatchPath` | crates/crawler/src/robots.rs:105-117 | The specificity of a pattern that covers the path, in bytes without `$` |
| `RobotsRfc.AnchoredPatternCovers` | crates/crawler/src/robots.rs:105-117 | With a final `$` a pattern without star covers its own text alone, and is as specific as without |
| `Robots.Allows` | crates/crawler/src/robots.rs:76-103 | Refused exactly when some matching Disallow is at least as specific as every matching Allow |
| `Robots.OrderDoesNotMatter` | crates/crawler/src/robots.rs:76-103 | The verdict does not depend on the order of rules within either list |
| `RobotsRfc.CoversButOverlooked` | crates/crawler/src/robots.rs:105-158 | As written, a pattern that covers a path in the code covers it in section 2.2.3 of RFC 9309; the paths missed are those of an anchored pattern that also generates a shorter prefix |
| `RobotsRfc.OverlooksIffStarredAnchored` | crates/crawler/src/robots.rs:143-146 | A pattern misses some path if and only if it has both a star and a final `$` |
| `RobotsRfc.AgreesWithRfcIff` | crates/crawler/src/robots.rs:76-103 | For all rules and paths: the verdict is that of section 2.2.2 of RFC 9309 if and only if putting patterns and path into normal form changes the code's verdict exactly when an Allow that ties or is missed is refused there, or a missed Disallow is let pass |
| `RobotsRfc.AgreesAsWrittenIff` | crates/crawler/src/robots.rs:76-103 | Comparing patterns and path as written: the verdict is that of section 2.2.2 if and only if no covered Disallow refuses while an equal or missed Allow stands against all, and no missed Disallow outranks all Allows while every covered one gives way |
| `RobotsRfc.AgreesOnNormalFormsIff` | crates/crawler/src/robots.rs:76-103 | That is the exact condition for the verdict of RFC 9309 when patterns and path are in normal percent-encoding |
| `RobotsRfc.BlockedOnNormalForms` | crates/crawler/src/robots.rs:76-158 | The verdict of RFC 9309 on any rules and path is its verdict on their normal forms, taken as written |
| `RobotsRfc.AgreesWithRfcIffNoTie` | crates/crawler/src/robots.rs:95-103 | For patterns and a path in normal form, none with both a star and a final `$`, the verdict is that of RFC 9309 if and only if the most specific matching Allow and Disallow do not tie |
| `RobotsRfc.OneRuleAgreesEverywhereIff` | crates/crawler/src/robots.rs:76-103 | A single Disallow in normal form is decided as RFC 9309 asks on every path in normal form if and only if it has not both a star and a final `$` |
| `RobotsRfc.OnePlainPatternAgreesIff` | crates/crawler/src/robots.rs:105-158 | A single Disallow without star and final `$` is decided as RFC 9309 asks on every path in normal form if and only if it is in normal form, or has a stray percent sign that keeps its normal form from being one |
| `RobotsRfc.WellFormedPatternAgreesIff` | crates/crawler/src/robots.rs:105-158 | Without stray percent signs: if and only if it is in normal form |
| `RobotsRfc.UnencodedPatternIsVisited` | crates/crawler/src/robots.rs:124-141 | A Disallow of a slash and U+30C4 permits `/%E3%83%84`, which RFC 9309 refuses |
| `RobotsRfc.EncodedPathIsVisited` | crates/crawler/src/robots.rs:124-141 | Disallow `/baz` permits `/%62az`, which RFC 9309 refuses |
| `Percent.PrefixIsNormal` | crates/crawler/src/robots.rs:119-123 | A path in normal form begins only with normal forms, so only patterns in normal form cover it |
| `Percent.JoinedIsNormal` | crates/crawler/src/robots.rs:119-123 | Around a star, a dollar sign or a slash, text is in normal form exactly when both sides are |
| `Percent.WellFormedBecomesNormal` | crates/crawler/src/robots.rs:119-123 | The normal form of text without stray percent signs is one |
| `RobotsRfc.SamePatternTies` | crates/crawler/src/robots.rs:95-103 | A path that one pattern both allows and disallows is refused, where RFC 9309 permits it |
| `RobotsRfc.TieIsRefused` | crates/crawler/src/robots.rs:95-103 | Allow `/a` and Disallow `/a` refuse `/a` |
| `RobotsRfc.OverlookedDisallowIsVisited` | crates/crawler/src/robots.rs:143-146 | Disallow `/*.php$` alone permits `/a.php.php`, which RFC 9309 refuses |
| `RobotsRfc.OverlookedAllowIsRefused` | crates/crawler/src/robots.rs:143-146 | Allow `/*.php$` does not lift Disallow `/a` from `/a.php.php`, which RFC 9309 permits |
| `Robots.SelectGroup` | crates/crawler/src/robots.rs:248-272 | The first group with the longest matching agent token, or `*`, or none |
| `Robots.Parse` | crates/crawler/src/robots.rs:175-243 | The rules are those of the group holding the first line that names the user agent best; sitemaps are those of all lines. What a line says is the subject of the next rows |
| `RobotsLines.LineIsRead` | crates/crawler/src/robots.rs:182-232 | However a line is laid out (space around field and value, a comment) and whatever the case of its field, it is read as its field and value say: a user-agent token in lower case, a pattern refused or permitted, a delay, a sitemap; other fields say nothing |
| `RobotsLines.NoColonIsIgnored` | crates/crawler/src/robots.rs:182-190 | A line without a colon before its comment says nothing |
| `RobotsLines.FileIsRead` | crates/crawler/src/robots.rs:175-272 | Any file, taken as sections of names over rules and names behind them, with blank lines, comments and sitemaps anywhere, gives exactly the refused patterns, the permitted patterns and the last delay of the first section with the longest token that names the crawler, and the sitemaps of all lines in order |
| `RobotsLines.EveryFileHasSections` | crates/crawler/src/robots.rs:175-236 | Every list of lines is such a file |
| `RobotsLines.SomeoneIsChosen` | crates/crawler/src/robots.rs:248-272 | If any name of the file names the crawler, some section is the one chosen |
| `RobotsLines.ParseWritten` | crates/crawler/src/robots.rs:175-272 | The parser gives those back from the lines as written, in any layout and case, with blank lines and comments |
| `RobotsLines.NobodyIsRead` | crates/crawler/src/robots.rs:248-272 | When no section names the crawler there are only the sitemaps |
| `RobotsLines.OnlyPublic` | crates/crawler/src/robots.rs:175-243 | `User-agent: *`, `Disallow: /`, `Allow: /public` refuses `/` and permits `/public` for every crawler |
| `RobotsLines.TokenNames` | crates/crawler/src/robots.rs:248-272 | A token names every user agent that contains it in any case, with its length in bytes |
| `RobotsLines.TokenIsContained` | crates/crawler/src/robots.rs:248-272 | No other token but the star names it |
| `Robots.SomeLineNamesBest` | crates/crawler/src/robots.rs:248-272 | As soon as a line names the user agent, one names it best |
| `Robots.ParsedIsUnique` | crates/crawler/src/robots.rs:175-243 | The lines and the user agent determine the rules |
| `RobotsGroups.FirstGroupSufficesIff` | crates/crawler/src/robots.rs:248-272 | The rules are those of all groups that name the user agent most specifically, read as one as section 2.2.1 of RFC 9309 asks, if and only if neither those groups nor the one kept has a pattern the other lacks, and their last delays are equal |
| `RobotsGroups.KeptOrRuleless` | crates/crawler/src/robots.rs:204-236 | If a most specific name stands over rules, the group kept is among those asked for; otherwise it stands in a last group without rules, and nothing asked for has a pattern |
| `RobotsGroups.FirstGroupSufficesForProductIff` | crates/crawler/src/robots.rs:248-272 | The same for a crawler named by its product token, when the user agent contains no other token of the file |
| `RobotsGroups.RepeatedRulesChangeNoVerdict` | crates/crawler/src/robots.rs:76-103 | Where the groups differ only in patterns that the other has too, every path is decided alike |
| `RobotsGroups.RulelessIsLast` | crates/crawler/src/robots.rs:204-236 | A user-agent line whose group has no rules begins the last group of the file |
| `RobotsFiles.SecondGroupOfTheSameAgent` | crates/crawler/src/robots.rs:248-272 | Of the groups `User-agent: a`, `Disallow: /x` and `User-agent: a`, `Disallow: /y` only `/x` is kept, where section 2.2.1 asks for both |
| `RobotsFiles.LastGroupWithoutRules` | crates/crawler/src/robots.rs:234-236 | After `User-agent: *`, `Disallow: /`, a last line `User-agent: a` leaves `a` with `/` refused, where section 2.2.1 gives it no rules |
| `RobotsFiles.DelayBetweenNames` | crates/crawler/src/robots.rs:204-226 | `User-agent: a`, `Crawl-delay: 5`, `User-agent: b`, `Disallow: /` refuses `a` nothing, where section 2.2.4 lets no other record end the group |
| `RobotsFiles.TokenInsideName` | crates/crawler/src/robots.rs:254-263 | `User-agent: a`, `Disallow: /` is obeyed by the crawler `ba`, whose product token it is not |
| `LinkGraph.LinkGraph.Intern` | crates/indexer/src/graph.rs:143-152 | The node of a URL, new without links if it has none; ids and urls stay inverse |
| `LinkGraph.LinkGraph.ReadLink` | crates/indexer/src/graph.rs:122-127 | A link is interned always and a target unless it is the page itself or one already |
| `LinkGraph.LinkGraph.Record` | crates/indexer/src/graph.rs:113-141 | A page's links replace those recorded before: the distinct targets of the links read; how many are read is fixed by what was known before; the counter stays the number of links; the nodes stay within their bound if and only if the page was known or there was room for it |
| `LinkGraph.AllReadIff` | crates/indexer/src/graph.rs:118-128 | All links are read if and only if, counting new URLs and distinct targets before it, there was room for the last; none if and only if there was no room at first |
| `LinkGraph.LinksStayWithinNodes` | crates/indexer/src/graph.rs:118-128 | Links never take the nodes beyond their bound, and beyond it none is read |
| `LinkGraph.ReadIsUnique` | crates/indexer/src/graph.rs:118-128 | What was known before determines how many links are read |
| `LinkGraph.NodeBoundIsExceeded` | crates/indexer/src/graph.rs:113-122 | With room for one node, recording two pages makes two |
| `LinkGraph.RecordingAgainLosesLinks` | crates/indexer/src/graph.rs:118-140 | With room for one link, a page recorded twice ends without links |
| `LinkGraph.LinksArePairs` | crates/indexer/src/graph.rs:129-140 | The edge counter counts distinct pairs of nodes |
| `LinkGraph.CountRow` | crates/indexer/src/graph.rs:208-221 | The links of one node that enter another host are counted, once each |
| `LinkGraph.LinkGraph.CountCrossSiteLinks` | crates/indexer/src/graph.rs:205-226 | Each host gains exactly the number of recorded links entering it from a different host; hosts without any are not added |
| `LinkGraph.LinkGraph.Finish` | crates/indexer/src/graph.rs:170-197 | Every known URL is scored by its rank times the number of pages and by its host's links, counted once, each squashed into the unit interval |
| `GraphHosts.HostOfUrl` | crates/indexer/src/graph.rs:278-289 | The host of scheme, `://`, host and rest is the host in lower case, for every scheme without `://`, every non-empty host without `/`, `?` and `#`, and every rest that is empty or begins with one of them, except a host ending in a colon before two slashes |
| `GraphHosts.HostBeforeColon` | crates/indexer/src/graph.rs:278-289 | In that case the colon is cut off |
| `GraphHosts.NoHost` | crates/indexer/src/graph.rs:278-289 | A URL without `://`, or with nothing between it and a path, has no host |
| `GraphHosts.HostComesFromUrl` | crates/indexer/src/graph.rs:278-289 | Only URLs so written have a host, or with a second `://` behind it |
| `GraphHosts.LinkEnters` | crates/indexer/src/graph.rs:205-226 | A link enters the host it is written to exactly when its page's host has other letters, case aside |
| `GraphHosts.ScoredByOwnHost` | crates/indexer/src/graph.rs:269-275 | A URL is scored by the links into the host it is written with |
| `GraphHosts.ScoredByNone` | crates/indexer/src/graph.rs:180-185 | A URL without a host is scored by no links |
| `GraphHosts.OneLinkAcross` | crates/indexer/src/graph.rs:170-226 | One recorded link between two hosts credits the host it points to once and no other, and its page alone is scored for it |
| `GraphHosts.ScoresCompare` | crates/indexer/src/graph.rs:180-197 | Authority rises with the rank and does not depend on the links; host authority rises with the links and does not depend on the rank; both are at least zero and below one |
| `GraphHosts.ScoresAdd` | crates/indexer/src/graph.rs:180-197 | What a score leaves to one is multiplied when counts are added |
| `GraphHosts.ScoresAtScale` | crates/indexer/src/graph.rs:180-197 | Four average shares of rank, or eight links, leave 1/e |
| `LinkGraph.RelativeToAverage` | crates/indexer/src/graph.rs:177-180 | The average page scores exactly one and none less than damping leaves it |
| `LinkGraph.SquashKeepsOrder` | crates/indexer/src/graph.rs:269-275 | Squashed values lie in [0, 1) and compare strictly as the values do, whatever the exponential, as long as it is positive, increasing and 1 at 0 |
| `PageRank.Compute` | crates/indexer/src/graph.rs:235-266 | The two-vector iteration computes the iterates of one linear map from the uniform vector |
| `PageRank.Propagate` | crates/indexer/src/graph.rs:244-262 | One round is one application of the map, dangling mass included |
| `PageRank.LinksShareEvenly` | crates/indexer/src/graph.rs:236-266 | A page passes its rank on evenly to the pages it links to, or to all when it links to none |
| `PageRank.TwoPagesOneRound` | crates/indexer/src/graph.rs:228-266 | Of two pages, the first linking to the second, one round makes the ranks 0.2875 and 0.7125 |
| `PageRank.StepKeepsMass` | crates/indexer/src/graph.rs:228-234 | A round keeps the total at one and gives every page at least (1 - d)/n |
| `PageRank.StepContracts` | crates/indexer/src/graph.rs:244-262 | A round brings any two vectors closer by the factor 0.85 in the sum of differences |
| `PageRank.FixedVectorIsUnique` | crates/indexer/src/graph.rs:244-262 | At most one vector is left unchanged |
| `PageRank.RanksApproachStationary` | crates/indexer/src/graph.rs:235-266 | After k rounds the ranks are a distribution within 2 * 0.85^k of the stationary one |
| `PageRank.RoundsSettle` | crates/indexer/src/graph.rs:235-266 | Round k + 1 changes the ranks by at most 2 * 0.85^k, on every graph |
| `Stationary.SolutionExists` | crates/indexer/src/graph.rs:244-262 | A non-negative system whose columns have totals below one has a non-negative solution, by elimination |
| `Stationary.StationaryExists` | crates/indexer/src/graph.rs:244-262 | Every graph has a stationary distribution |
| `Stationary.RanksConverge` | crates/indexer/src/graph.rs:235-266 | On every graph the ranks converge geometrically to the one vector the iteration leaves unchanged, which is a distribution |
| `PageRank.TwentyRoundsBound` | crates/indexer/src/graph.rs:46-51 | After the twenty rounds run, that is less than 0.08 |
| `Calendar.CivilFollowsTheCalendar` | crates/crawler/src/storage.rs:77-98 | Every integer day is a valid Gregorian date, and the next day its calendar successor |
| `Calendar.EpochIs1970` | crates/crawler/src/storage.rs:77-98 | Day 0 is 1 January 1970 |
| `Calendar.CivilIsOrdered` | crates/crawler/src/storage.rs:77-98 | Later days have later dates |
| `Calendar.EveryDateIsReached` | crates/crawler/src/storage.rs:77-98 | Every valid date is the date of some day |
| `Calendar.DaysRoundTrip` | crates/crawler/src/storage.rs:77-98 | The date determines the day |
| `Calendar.Iso8601RoundTrip` | crates/crawler/src/storage.rs:60-75 | The printed fields are in range and give the timestamp back, before the epoch too |
| `Calendar.Iso8601IsOrdered` | crates/crawler/src/storage.rs:60-75 | Later timestamps have later fields |
| `SmoothPath.Tangents` | searchui/app.py:281-303 | The limiting loop, as it rewrites shared tangents, computes its segment-by-segment specification; what that gives is the subject of the rows on `SmoothShape` |
| `SmoothPath.SmoothPath` | searchui/app.py:254-314 | The path is empty, a dot, or the cubic segments through the vertices with the limited tangents |
| `SmoothShape.TangentIsMean` | searchui/app.py:281-303 | Where the unlimited pairs of the neighbouring segments lie in their discs, a tangent is the mean of the neighbouring slopes if they agree in sign and zero if not; at the ends it is the slope |
| `SmoothShape.LevelEndsAreFlat` | searchui/app.py:276-297 | Both ends of a level segment, or of one without width, are flat |
| `SmoothShape.OutsideReachesRim` | searchui/app.py:292-303 | A pair outside the disc is scaled onto its rim, and not below it |
| `SmoothShape.InsideStays` | searchui/app.py:292-303 | A pair inside is left alone |
| `SmoothShape.LineIsKept` | searchui/app.py:254-314 | Vertices on a line are joined by that line |
| `SmoothShape.FirstTangentIs` | searchui/app.py:281-291 | The first tangents: the mean of the neighbouring slopes where they agree in sign, zero where not, the end slopes at the ends |
| `SmoothPath.AllSegmentsSettle` | searchui/app.py:293-303 | After the loop every segment's tangent ratios are non-negative with squares summing to at most 9, although later segments change shared tangents |
| `SmoothPath.FinalTangentsFit` | searchui/app.py:281-303 | The tangents computed from any vertices are of that kind |
| `SmoothPath.CurveMovesOneWay` | searchui/app.py:254-263 | On every segment the curve moves only toward the next vertex |
| `SmoothPath.CurveStaysBetweenVertices` | searchui/app.py:254-263 | The curve never leaves the range of the two values it joins |
| `SmoothPath.ControlPointsStayBetweenVertices` | searchui/app.py:305-314 | Nor do the control points |
| `SmoothPath.AdvancesEvenly` | searchui/app.py:305-314 | The curve advances evenly in x |
| `SmoothPath.CurveIsSmoothAtVertices` | searchui/app.py:305-314 | Adjoining segments share vertex and tangent |
| `PageWalk.EnforceDomainDiversity` | api/services/ranking.py:657-683 | Exactly the first so many hits of each host, in order; a cap below one is an error |
| `PageWalk.KeepsFirstOfEachHost` | api/services/ranking.py:657-683 | A pass whose page is never full keeps a hit if and only if fewer than the cap of its host come before it |
| `PageWalk.Pass` | api/services/ranking.py:557-578 | One pass keeps what fits the page and carries the rest, counting what the cap held back |
| `PageWalk.TakePage` | api/services/ranking.py:485-580 | The page asked for, how many hits the cap held back from it, and the number of pages of the whole walk; bad arguments are errors |
| `PageWalk.HeldBackIsPassedOver` | api/services/ranking.py:557-578 | The hits held back are those passed over before the page was full |
| `PageWalk.DistinctHostsHoldNothingBack` | api/services/ranking.py:557-578 | None are when no host recurs |
| `PageWalk.PlaceIsOnPage` | api/services/ranking.py:545-580 | Every hit of the pool has a place on some page |
| `PageWalk.EveryPlaceIsTaken` | api/services/ranking.py:545-580 | Every place on every page is some hit's |
| `PageWalk.PlacesKeepOrder` | api/services/ranking.py:545-580 | On one page hits stand in pool order, no two in one place: with the two rows above, the pages partition the pool |
| `PageWalk.PagesObeyCaps` | api/services/ranking.py:545-580 | No page is empty, longer than the limit or over the cap for a host |
| `PageWalk.HostOrderIsKept` | api/services/ranking.py:545-580 | Hits of one host keep their order across pages |
| `PageWalk.PlaceIsEarly` | api/services/ranking.py:545-580 | The hit at position i is shown no later than page i / min(cap, limit) |
| `PageWalk.PageCountBounds` | api/services/ranking.py:545-580 | n hits make at least n/limit pages and at most n/min(cap, limit), rounded up |
| `PageWalk.DistinctHostsNeedFewestPages` | api/services/ranking.py:545-580 | If no host recurs the lower bound is attained: n/limit pages, rounded up |
| `PageWalk.OneHostNeedsMostPages` | api/services/ranking.py:545-580 | If there is one host only the upper bound is attained: n/min(cap, limit) pages, rounded up |
| `History.IndexHistory.Add` | crates/indexer/src/history.rs:90-106 | Whatever the clock says, a commit is added to its minute if that is the last one, or else as a new one, and the oldest buckets beyond 180 are dropped; buckets kept and dropped account for every document |
| `History.IndexHistory.DocumentsSince` | crates/indexer/src/history.rs:76-84 | What the full log of commits says of the window, less the documents in dropped buckets; equal to it if and only if no dropped bucket of the window holds a document, as is so under a clock that never goes back for windows under three hours |
| `History.RecordKeepsSummary` | crates/indexer/src/history.rs:90-106 | Under a clock that does not go back, buckets stay strictly increasing whole minutes, at most 180, and keep the sums of every recent window |
| `History.RecordKeepsAccount` | crates/indexer/src/history.rs:90-106 | Under any clock, buckets kept and buckets dropped hold together what the log holds, from any cutoff on |
| `History.ClockSetBackLosesDocuments` | crates/indexer/src/history.rs:90-106 | After 180 minutes on a clock that was set back, a document of the latest minute is missing from its window |
| `History.RecordingIsBounded` | crates/indexer/src/history.rs:90-106 | Recording raises no window by more than was added |
| `History.RunsStayHonest` | crates/indexer/src/drain.rs:131-179 | Over drain runs with crashes and lost history files, no window holds more documents than the history says the index does |
| `QueryCache.SearchEngine.Query` | crates/search-core/src/search.rs:243-320 | A page is relaxed exactly when nothing matches strictly, the query has several terms and something matches widely; it counts all matches of that kind and its hits are the matches from the offset on, up to the limit; it is refused exactly when a form that is needed does not parse |
| `QueryCache.AnswerIsUnique` | crates/search-core/src/search.rs:243-320 | That determines the answer |
| `QueryCache.EvaluateAnswers` | crates/search-core/src/search.rs:243-320 | The fresh evaluation that `Search` is compared with is that answer |
| `QueryCache.SearchEngine.Search` | crates/search-core/src/search.rs:209-339 | Over any commits, evictions and earlier searches, the answer is a fresh evaluation on what is committed, provided fingerprints tell contents apart; otherwise that of some contents seen with the same fingerprint; parse errors are not cached |
| `QueryCache.SearchEngine.Evict` | crates/search-core/src/search.rs:142-182 | The cache may drop any entry |
| `QueryCache.MultiTermMeansBreak` | crates/search-core/src/search.rs:102-104 | A query has several terms exactly when white space separates two other characters |
| `QueryCache.PagesCover` | crates/search-core/src/search.rs:287-300 | Paging by offsets shows every match once, in order, and the first empty page is the one at the total |
| `QueryCache.PagingShowsEveryMatch` | crates/search-core/src/search.rs:243-320 | While the index stays as it is, requests moving on by the limit show every strict match, or without any every wide one, once and in order, and all report one total and one kind |
| `Sitemap.FindIgnoreCase` | crates/crawler/src/sitemap.rs:88-101 | The first occurrence ignoring ASCII case; an empty needle is never found |
| `Sitemap.FindsFirst` | crates/crawler/src/sitemap.rs:88-101 | The search finds an occurrence exactly when there is one, and then the first |
| `Sitemap.FindIgnoresCase` | crates/crawler/src/sitemap.rs:88-101 | The result does not depend on the case of text and needle |
| `Sitemap.BeginsIgnoresCase` | crates/crawler/src/sitemap.rs:88-101 | An occurrence is the needle's letters in any case, and nothing else |
| `Sitemap.Parse` | crates/crawler/src/sitemap.rs:23-48 | The scan ends on every body and yields the cleaned values of its elements in order |
| `Sitemap.TruncationKeepsAPrefix` | crates/crawler/src/sitemap.rs:23-48 | A truncated body yields a prefix of the URLs of the whole |
| `Sitemap.RenderedRoundTrip` | crates/crawler/src/sitemap.rs:23-48 | A body written from values, with tags in any case and any other tags and text between the elements that open none, gives them all back, cleaned, in order; a value is anything without its closing tag |
| `Sitemap.ClosingTagEndsValue` | crates/crawler/src/sitemap.rs:23-48 | A value with a closing tag in it is cut there |

## Left out

- Drain.Drain.Run: polling for new segments and the history file; a run stops when the spool is empty. `build_authority`, the first pass, is represented by the link graph alone, and documents carry no scores.
- Handoff.HandoffIsCrashSafe: compares documents without scores, because cross-site counts are saved before the commit and a replay counts them again. Documents in a segment not sealed when the crawler stops are not promised.
- `archive_dir` of `retire`: moving segments aside; numbers can restart, so an archived file can be overwritten.
- Non-segment files in the spool directory are covered for names (`SegmentNames`), not in `Drain`.
- Errors of the stores, the archive and the network: runs of the crawl loop are those without them. A visit's fetching, redirects, TLS and HTML parsing are an arbitrary outcome.
- Seeds, the robots cache and statistics files of the crawl loop; queued seeds are part of the state it starts from.
- CrawlLoop.Crawl.Run: starts a visit when ready for as long as the clock reads no less than a given time; that a visit in flight ever ends is up to the network.
- Fairness of the frontier: only the first hosts in byte order are examined, so none is claimed.
- Calendar.CivilFollowsTheCalendar: days are unbounded integers; the code's 64-bit addition overflows for days within 719468 of the largest.
- Frontier.Frontier.PopReady: hosts are bytes; the code decodes them as UTF-8, replacing what is not, before it asks `skip` and reads the host's state. A value that does not decode is an error of the store.
- Robots.Parse: the lines are given as a list, and parsing of a Crawl-delay number is a parameter.
- Sitemap.Parse: cleaning a value into a URL (CDATA, entities, URL parsing) is a parameter; positions count characters instead of bytes.
- Drain.SpoolDirectory.NextSequence: numbers are unbounded in the hand-off; `SegmentNames` has the 64-bit case.
- SegmentNames.NextSpoolSequence: adds as an optimised build does; a build with overflow checks stops instead.
- CrawlLoop.Crawl.VisitsAreSpaced: spaces visits. What a visit requests besides its page (robots.txt, redirects, retries after their own waits) is not an event of the model.
- RobotsRfc.AgreesWithRfcIff: a final `$` is not counted in the specificity, as in the code. Of the normal form of section 2.2.2, the sentence on reserved octets is left out: its own examples keep them except inside a query value. `%2A` and `%24` in a pattern, which section 2.2.3 offers for the characters themselves, are compared as written.
- RobotsGroups.FirstGroupSufficesForProductIff: speaks of files without other tokens that the user agent contains; with one, the parser may keep a group of another crawler.
- LinkGraph.LinkGraph.Intern: node numbers are unbounded; the code's 32-bit ids wrap after 2^32 URLs.
- PageRank.Compute: ranks are reals, so rounding is not modelled. The exponential of `squash` is a parameter: that it is 1 at zero, positive and increasing, and in `GraphHosts.ScoresAdd` that it multiplies sums.
- SmoothPath.SmoothPath: coordinates are reals, the hypotenuse is given by its defining equation, and the printing of numbers is left out.
- QueryCache.SearchEngine.Search: the reported time, warm-up and the approximate entry count are left out.
- The bloom filter's layout, RocksDB, Tantivy, the codec and URL parsing: parameters or small contracts.
- Ranking weights, freshness, duplicate collapsing and sorting by score: arithmetic and library sorting that the page walk does not depend on.
- WARC text, dashboards, web routes, seed generation and process management.
