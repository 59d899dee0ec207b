/**
 The hand-off between the crawler and the indexer, as a state machine over a spool
 directory and an index.

 The crawler appends documents to an open segment and renames it when it is complete;
 the indexer writes sealed segments in order of sequence number into the index, commits,
 and only then removes the segment. Either process may stop at any point and start
 again. One crawler and one indexer run at a time: each holds a lock on its own store.
 */
module Handoff {
  import opened Basics
  import opened Spool

  /** `segment` is the one being written; `next` the number of the one after. */
  datatype Crawler = CrawlerDown | CrawlerUp(segment: Option<nat>, next: nat)

  /**
   `ready` was listed and not retired yet, `at` documents of its first segment were read, `pending`
   await a commit.
   */
  datatype Indexer = IndexerDown | IndexerUp(ready: seq<nat>, at: nat, pending: seq<Document>)

  /** `log` is every document sealed so far, in the order of sealing. */
  datatype State = State(open: Segments, sealed: Segments, crawler: Crawler,
                         committed: Index, indexer: Indexer, log: seq<Document>)

  datatype Action =
    | StartCrawler
    | OpenSegment
    | WritePage(document: Document)
    | SealSegment
    | StopCrawler(flushed: nat)
    | StartIndexer
    | ListSealed(listing: seq<nat>)
    | IndexDocument
    | Commit
    | Retire
    | StopIndexer

  const Initial := State(map[], map[], CrawlerDown, map[], IndexerDown, [])

  /** One more than the highest number in the directory, counting open segments. */
  ghost function NextSequence(s: State): nat {
    var taken := s.open.Keys + s.sealed.Keys;
    if taken == {} then 1 else Highest(taken) + 1
  }

  ghost predicate Enabled(s: State, a: Action) {
    match a
    case StartCrawler => s.crawler == CrawlerDown
    case OpenSegment => s.crawler.CrawlerUp? && s.crawler.segment == None
    case WritePage(_) => IsWriting(s)
    case SealSegment => IsWriting(s)
    case StopCrawler(flushed) => s.crawler.CrawlerUp? && (IsWriting(s) ==> flushed <= |s.open[s.crawler.segment.value]|)
    case StartIndexer => s.indexer == IndexerDown
    case ListSealed(listing) => s.indexer.IndexerUp? && s.indexer.ready == [] && IsListing(listing, s.sealed.Keys)
    case IndexDocument => IsReading(s) && s.indexer.at < |s.sealed[s.indexer.ready[0]]|
    case Commit => s.indexer.IndexerUp?
    case Retire => IsReading(s) && s.indexer.at == |s.sealed[s.indexer.ready[0]]| && s.indexer.pending == []
    case StopIndexer => s.indexer.IndexerUp?
  }

  ghost predicate IsWriting(s: State) {
    s.crawler.CrawlerUp? && s.crawler.segment != None && s.crawler.segment.value in s.open
  }

  ghost predicate IsReading(s: State) {
    s.indexer.IndexerUp? && s.indexer.ready != [] && s.indexer.ready[0] in s.sealed
  }

  ghost function Apply(s: State, a: Action): State
    requires Enabled(s, a)
  {
    match a
    case StartCrawler => s.(crawler := CrawlerUp(None, NextSequence(s)))
    case OpenSegment =>
      s.(open := s.open[s.crawler.next := []], crawler := CrawlerUp(Some(s.crawler.next), s.crawler.next + 1))
    case WritePage(document) =>
      var k := s.crawler.segment.value;
      s.(open := s.open[k := s.open[k] + [document]])
    case SealSegment =>
      var k := s.crawler.segment.value;
      s.(open := s.open - {k}, sealed := s.sealed[k := s.open[k]], crawler := s.crawler.(segment := None),
         log := s.log + s.open[k])
    case StopCrawler(flushed) =>
      // What had not reached the disk is gone; the open file stays behind.
      var open := if IsWriting(s) then s.open[s.crawler.segment.value := s.open[s.crawler.segment.value][..flushed]]
        else s.open;
      s.(open := open, crawler := CrawlerDown)
    case StartIndexer => s.(indexer := IndexerUp([], 0, []))
    case ListSealed(listing) => s.(indexer := s.indexer.(ready := listing))
    case IndexDocument =>
      var document := s.sealed[s.indexer.ready[0]][s.indexer.at];
      s.(indexer := IndexerUp(s.indexer.ready, s.indexer.at + 1, s.indexer.pending + [document]))
    case Commit => s.(committed := Upsert(s.committed, s.indexer.pending), indexer := s.indexer.(pending := []))
    case Retire => s.(sealed := s.sealed - {s.indexer.ready[0]}, indexer := IndexerUp(s.indexer.ready[1..], 0, []))
    case StopIndexer => s.(indexer := IndexerDown)
  }

  // -------------------------------------------------------------------------
  // What every step keeps

  /** A number not used yet is above all that are; the segment being written is the newest. */
  ghost predicate IsFresh(s: State) {
    && s.open.Keys !! s.sealed.Keys
    && (s.crawler.CrawlerUp? ==>
          && (forall k :: k in s.open || k in s.sealed ==> k < s.crawler.next)
          && (s.crawler.segment != None ==>
                && s.crawler.segment.value in s.open
                && (forall k :: k in s.sealed ==> k < s.crawler.segment.value)))
  }

  /** What was read and is not pending is in the index as this segment leaves it. */
  ghost predicate HasWritten(committed: Index, documents: seq<Document>, at: nat, pending: seq<Document>) {
    && |pending| <= at <= |documents|
    && pending == documents[at - |pending|..at]
    && Upsert(committed, documents[..at - |pending|]) == committed
  }

  ghost predicate IsInProgress(s: State) {
    s.indexer.IndexerUp? ==>
      && ListsOldest(s.indexer.ready, s.sealed)
      && (if s.indexer.ready == [] then s.indexer.at == 0 && s.indexer.pending == []
          else HasWritten(s.committed, s.sealed[s.indexer.ready[0]], s.indexer.at, s.indexer.pending))
  }

  /** The segments left are the end of the log. */
  ghost predicate LeavesEndOfLog(s: State) {
    && |InOrder(s.sealed)| <= |s.log|
    && InOrder(s.sealed) == s.log[|s.log| - |InOrder(s.sealed)|..]
  }

  /** Writing what is left onto the index gives what writing everything ever sealed would have given. */
  ghost predicate LosesNothing(s: State) {
    Upsert(s.committed, InOrder(s.sealed)) == Upsert(map[], s.log)
  }

  /** Only sealed documents are in the index, each under its own URL. */
  ghost predicate InventsNothing(s: State) {
    forall url :: url in s.committed ==> s.committed[url] in s.log && s.committed[url].url == url
  }

  ghost predicate Inv(s: State) {
    IsFresh(s) && IsInProgress(s) && LeavesEndOfLog(s) && LosesNothing(s) && InventsNothing(s)
  }

  lemma FreshStart(s: State)
    ensures forall k :: k in s.open || k in s.sealed ==> k < NextSequence(s)
  {
    var taken := s.open.Keys + s.sealed.Keys;
    forall k | k in s.open || k in s.sealed
      ensures k < NextSequence(s)
    {
      assert k in taken;
    }
  }

  lemma SealedIsLeft(sealed: Segments, log: seq<Document>, k: nat, documents: seq<Document>)
    requires |InOrder(sealed)| <= |log| && InOrder(sealed) == log[|log| - |InOrder(sealed)|..]
    requires forall j :: j in sealed ==> j < k
    ensures |InOrder(sealed[k := documents])| <= |log + documents|
    ensures InOrder(sealed[k := documents])
            == (log + documents)[|log + documents| - |InOrder(sealed[k := documents])|..]
  {
    NewestLast(sealed, k, documents);
  }

  lemma SealingLosesNothing(committed: Index, sealed: Segments, log: seq<Document>, k: nat, documents: seq<Document>)
    requires Upsert(committed, InOrder(sealed)) == Upsert(map[], log) && forall j :: j in sealed ==> j < k
    ensures Upsert(committed, InOrder(sealed[k := documents])) == Upsert(map[], log + documents)
  {
    NewestLast(sealed, k, documents);
    UpsertInTwoParts(committed, InOrder(sealed), documents);
    UpsertInTwoParts(map[], log, documents);
  }

  lemma SealingKeeps(s: State)
    requires Inv(s) && IsWriting(s)
    ensures Inv(Apply(s, SealSegment))
  {
    var k := s.crawler.segment.value;
    var documents, after := s.open[k], Apply(s, SealSegment);
    assert LosesNothing(after) by {
      SealingLosesNothing(s.committed, s.sealed, s.log, k, documents);
    }
    assert LeavesEndOfLog(after) by {
      SealedIsLeft(s.sealed, s.log, k, documents);
    }
    assert IsInProgress(after) by {
      if s.indexer.IndexerUp? {
        AddingNewest(s.indexer.ready, s.sealed, k, documents);
      }
    }
  }

  lemma OneMoreWritten(committed: Index, documents: seq<Document>, at: nat, pending: seq<Document>)
    requires HasWritten(committed, documents, at, pending) && at < |documents|
    ensures HasWritten(committed, documents, at + 1, pending + [documents[at]])
  {
  }

  lemma WrittenByCommit(committed: Index, documents: seq<Document>, at: nat, pending: seq<Document>)
    requires HasWritten(committed, documents, at, pending)
    ensures HasWritten(Upsert(committed, pending), documents, at, [])
  {
    var before := documents[..at - |pending|];
    assert documents[..at] == before + pending;
    UpsertInTwoParts(committed, before, pending);
    Absorbed(committed, documents[..at], documents[..at]);
  }

  lemma {:induction false} UpsertInventsNothing(index: Index, documents: seq<Document>, url: string)
    requires url in Upsert(index, documents)
    ensures var document := Upsert(index, documents)[url];
            (url in index && document == index[url]) || (document in documents && document.url == url)
  {
    if documents != [] && url != documents[|documents| - 1].url {
      UpsertInventsNothing(index, documents[..|documents| - 1], url);
    }
  }

  lemma PendingIsLeft(s: State)
    requires Inv(s) && s.indexer.IndexerUp?
    ensures forall document :: document in s.indexer.pending ==> document in InOrder(s.sealed)
  {
    if s.indexer.ready != [] {
      var k := s.indexer.ready[0];
      FirstListedIsOldest(s.indexer.ready, s.sealed);
      OldestFirst(s.sealed, k);
      forall document | document in s.indexer.pending
        ensures document in s.sealed[k]
      {
      }
    }
  }

  lemma CommittingKeeps(s: State)
    requires Inv(s) && s.indexer.IndexerUp?
    ensures Inv(Apply(s, Commit))
  {
    var after := Apply(s, Commit);
    PendingIsLeft(s);
    assert LosesNothing(after) by {
      Absorbed(s.committed, s.indexer.pending, InOrder(s.sealed));
    }
    assert InventsNothing(after) by {
      forall url | url in after.committed
        ensures after.committed[url] in s.log && after.committed[url].url == url
      {
        UpsertInventsNothing(s.committed, s.indexer.pending, url);
      }
    }
    if s.indexer.ready != [] {
      WrittenByCommit(s.committed, s.sealed[s.indexer.ready[0]], s.indexer.at, s.indexer.pending);
    }
  }

  lemma RetiredIsWritten(committed: Index, sealed: Segments, k: nat)
    requires k in sealed && forall j :: j in sealed ==> k <= j
    requires HasWritten(committed, sealed[k], |sealed[k]|, [])
    ensures Upsert(committed, InOrder(sealed - {k})) == Upsert(committed, InOrder(sealed))
  {
    OldestFirst(sealed, k);
    assert sealed[k][..|sealed[k]|] == sealed[k];
    UpsertInTwoParts(committed, sealed[k], InOrder(sealed - {k}));
  }

  lemma RetiredLeavesEnd(sealed: Segments, log: seq<Document>, k: nat)
    requires k in sealed && forall j :: j in sealed ==> k <= j
    requires |InOrder(sealed)| <= |log| && InOrder(sealed) == log[|log| - |InOrder(sealed)|..]
    ensures |InOrder(sealed - {k})| <= |log| && InOrder(sealed - {k}) == log[|log| - |InOrder(sealed - {k})|..]
  {
    OldestFirst(sealed, k);
  }

  lemma NothingWritten(committed: Index, documents: seq<Document>)
    ensures HasWritten(committed, documents, 0, [])
  {
  }

  lemma RetiringProgresses(s: State)
    requires IsInProgress(s) && Enabled(s, Retire)
    ensures IsInProgress(Apply(s, Retire))
  {
    RetiringFirst(s.indexer.ready, s.sealed);
    if |s.indexer.ready| > 1 {
      NothingWritten(s.committed, s.sealed[s.indexer.ready[1]]);
    }
  }

  lemma RetiringKeeps(s: State)
    requires Inv(s) && Enabled(s, Retire)
    ensures Inv(Apply(s, Retire))
  {
    var k, after := s.indexer.ready[0], Apply(s, Retire);
    assert IsFresh(after);
    assert InventsNothing(after);
    FirstListedIsOldest(s.indexer.ready, s.sealed);
    assert LosesNothing(after) by {
      RetiredIsWritten(s.committed, s.sealed, k);
    }
    assert LeavesEndOfLog(after) by {
      RetiredLeavesEnd(s.sealed, s.log, k);
    }
    RetiringProgresses(s);
  }

  lemma CrawlerStepKeeps(s: State, a: Action)
    requires Inv(s) && Enabled(s, a)
    requires a.StartCrawler? || a.OpenSegment? || a.WritePage? || a.StopCrawler?
    ensures Inv(Apply(s, a))
  {
    if a.StartCrawler? {
      FreshStart(s);
    }
    var after := Apply(s, a);
    assert IsInProgress(after);
  }

  lemma ListingKeeps(s: State, listing: seq<nat>)
    requires Inv(s) && Enabled(s, ListSealed(listing))
    ensures Inv(Apply(s, ListSealed(listing)))
  {
    if listing != [] {
      NothingWritten(s.committed, s.sealed[listing[0]]);
    }
  }

  lemma IndexingKeeps(s: State)
    requires Inv(s) && Enabled(s, IndexDocument)
    ensures Inv(Apply(s, IndexDocument))
  {
    OneMoreWritten(s.committed, s.sealed[s.indexer.ready[0]], s.indexer.at, s.indexer.pending);
  }

  /** Every step of either process, and every stop and restart, keeps the invariant. */
  lemma StepKeeps(s: State, a: Action)
    requires Inv(s) && Enabled(s, a)
    ensures Inv(Apply(s, a))
  {
    match a
    case SealSegment => SealingKeeps(s);
    case StartIndexer =>
    case ListSealed(listing) => ListingKeeps(s, listing);
    case IndexDocument => IndexingKeeps(s);
    case Commit => CommittingKeeps(s);
    case Retire => RetiringKeeps(s);
    case StopIndexer =>
    case _ => CrawlerStepKeeps(s, a);
  }

  // -------------------------------------------------------------------------
  // Runs

  /** Any interleaving of the two processes, with stops and restarts anywhere. */
  datatype Run = Beginning | Then(before: Run, action: Action)

  ghost predicate Legal(run: Run)
    decreases run, 0
  {
    run.Then? ==> Legal(run.before) && Enabled(End(run.before), run.action)
  }

  ghost function End(run: Run): State
    requires Legal(run)
    decreases run, 1
  {
    match run
    case Beginning => Initial
    case Then(before, action) => Apply(End(before), action)
  }

  lemma {:induction false} RunsKeep(run: Run)
    requires Legal(run)
    ensures Inv(End(run))
  {
    if run.Then? {
      RunsKeep(run.before);
      StepKeeps(End(run.before), run.action);
    }
  }

  /**
   Whatever happened, writing the segments left onto the committed index gives the
   documents that writing everything ever sealed, in the order of sealing, would have given.
   */
  lemma HandoffIsCrashSafe(run: Run)
    requires Legal(run)
    ensures Upsert(End(run).committed, InOrder(End(run).sealed)) == Upsert(map[], End(run).log)
    ensures End(run).sealed == map[] ==> End(run).committed == Upsert(map[], End(run).log)
  {
    RunsKeep(run);
  }

  /** The index holds nothing but sealed documents. */
  lemma OnlySealedIsIndexed(run: Run, url: string)
    requires Legal(run) && url in End(run).committed
    ensures End(run).committed[url] in End(run).log && End(run).committed[url].url == url
  {
    RunsKeep(run);
  }

  /** The documents of every segment the indexer has removed, in the order of removal. */
  ghost function Retired(run: Run): seq<Document>
    requires Legal(run)
  {
    match run
    case Beginning => []
    case Then(before, action) => Retired(before) + RetiredBy(End(before), action)
  }

  ghost function RetiredBy(s: State, a: Action): seq<Document>
    requires Enabled(s, a)
  {
    if a == Retire then s.sealed[s.indexer.ready[0]] else []
  }

  lemma SealedIsAdded(sealed: Segments, k: nat, documents: seq<Document>, retired: seq<Document>, log: seq<Document>)
    requires retired + InOrder(sealed) == log && forall j :: j in sealed ==> j < k
    ensures retired + [] + InOrder(sealed[k := documents]) == log + documents
  {
    NewestLast(sealed, k, documents);
  }

  lemma OldestIsMoved(sealed: Segments, k: nat, retired: seq<Document>, log: seq<Document>)
    requires retired + InOrder(sealed) == log && k in sealed && forall j :: j in sealed ==> k <= j
    ensures retired + sealed[k] + InOrder(sealed - {k}) == log
  {
    OldestFirst(sealed, k);
  }

  lemma SealedIsUntouched(s: State, a: Action)
    requires Enabled(s, a) && !a.SealSegment? && !a.Retire?
    ensures Apply(s, a).sealed == s.sealed && Apply(s, a).log == s.log
  {
  }

  lemma RetiredOrLeft(s: State, a: Action, retired: seq<Document>)
    requires IsFresh(s) && IsInProgress(s) && Enabled(s, a) && retired + InOrder(s.sealed) == s.log
    ensures retired + RetiredBy(s, a) + InOrder(Apply(s, a).sealed) == Apply(s, a).log
  {
    if a.SealSegment? {
      SealedIsAdded(s.sealed, s.crawler.segment.value, s.open[s.crawler.segment.value], retired, s.log);
    } else if a.Retire? {
      FirstListedIsOldest(s.indexer.ready, s.sealed);
      OldestIsMoved(s.sealed, s.indexer.ready[0], retired, s.log);
    } else {
      SealedIsUntouched(s, a);
      assert retired + [] == retired;
    }
  }

  /**
   Segments are removed in the order they were sealed in: what was removed so far, followed by
   the segments present by sequence number, is everything ever sealed, in the order of sealing.
   */
  lemma {:induction false} SequenceOrderIsSealOrder(run: Run)
    requires Legal(run)
    ensures Retired(run) + InOrder(End(run).sealed) == End(run).log
  {
    if run.Then? {
      SequenceOrderIsSealOrder(run.before);
      RunsKeep(run.before);
      RetiredOrLeft(End(run.before), run.action, Retired(run.before));
    }
  }

  /** What was removed is in the index: for a URL no segment still holds, the document removed last. */
  lemma RetiredIsCommitted(run: Run, url: string)
    requires Legal(run) && url in Urls(Retired(run)) && url !in Urls(InOrder(End(run).sealed))
    ensures url in End(run).committed && url in Upsert(map[], Retired(run))
    ensures End(run).committed[url] == Upsert(map[], Retired(run))[url]
  {
    HandoffIsCrashSafe(run);
    SequenceOrderIsSealOrder(run);
    var retired, left, committed := Retired(run), InOrder(End(run).sealed), End(run).committed;
    UpsertInTwoParts(map[], retired, left);
    UpsertDecides(Upsert(map[], retired), committed, left, url);
    UpsertDecides(committed, committed, left, url);
    UpsertDecides(map[], map[], retired, url);
  }

  /** No file is ever created or renamed over another, even after the numbering starts again. */
  lemma NamesAreFresh(run: Run)
    requires Legal(run) && run.Then?
    ensures var before := End(run.before);
            && (run.action == OpenSegment ==> forall k :: k in before.open || k in before.sealed ==>
                k < before.crawler.next)
            && (run.action == SealSegment ==> forall k :: k in before.sealed ==> k < before.crawler.segment.value)
  {
    RunsKeep(run.before);
  }

  // -------------------------------------------------------------------------
  // What a process may rely on

  lemma ListedIsSealed(run: Run)
    requires Legal(run) && End(run).indexer.IndexerUp? && End(run).indexer.ready != []
    ensures End(run).indexer.ready[0] in End(run).sealed
    ensures forall k :: k in End(run).sealed ==> End(run).indexer.ready[0] <= k
  {
    RunsKeep(run);
    FirstListedIsOldest(End(run).indexer.ready, End(run).sealed);
  }

  lemma NothingListedNothingRead(run: Run)
    requires Legal(run) && End(run).indexer.IndexerUp? && End(run).indexer.ready == []
    ensures End(run).indexer.at == 0 && End(run).indexer.pending == []
  {
    RunsKeep(run);
  }

  lemma WrittenIsOpen(run: Run)
    requires Legal(run) && End(run).crawler.CrawlerUp? && End(run).crawler.segment != None
    ensures IsWriting(End(run))
  {
    RunsKeep(run);
  }
}
