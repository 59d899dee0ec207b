/**
 The two processes over one spool directory, as they run: the crawler's archive writer
 and the indexer's drain loop. Each operation is proved to be steps of the hand-off
 protocol, and the outcome of a drain follows from the protocol's invariant.

 WARC files, scores and the history file are not part of this.
 */
module Drain {
  import opened Basics
  import opened Sorting
  import opened Spool
  import opened Handoff

  // -------------------------------------------------------------------------
  // The directory and the index

  class SpoolDirectory {
    var open: Segments
    var sealed: Segments
    /** What both processes did so far. */
    ghost var run: Run

    constructor ()
      ensures Valid() && run == Beginning
    {
      open, sealed, run := map[], map[], Beginning;
    }

    ghost predicate Valid()
      reads this
    {
      Legal(run) && End(run).open == open && End(run).sealed == sealed
    }

    /** The next unused number: one above the highest of either kind of file. */
    method NextSequence() returns (next: nat)
      ensures next == if open.Keys + sealed.Keys == {} then 1 else Highest(open.Keys + sealed.Keys) + 1
    {
      var highest := 0;
      var entries := open.Keys + sealed.Keys;
      ghost var seen: set<nat> := {};
      while entries != {}
        invariant seen + entries == open.Keys + sealed.Keys && seen !! entries
        invariant highest == if seen == {} then 0 else Highest(seen)
        decreases entries
      {
        var sequence :| sequence in entries;
        RaisedHighest(seen, sequence);
        highest := if sequence > highest then sequence else highest;
        entries := entries - {sequence};
        seen := seen + {sequence};
      }
      next := highest + 1;
    }

    /** Sealed segments in crawl order. */
    method SealedSegments() returns (segments: seq<nat>)
      ensures IsListing(segments, sealed.Keys)
    {
      segments := [];
      var entries := sealed.Keys;
      while entries != {}
        invariant forall k :: k in sealed <==> k in segments || k in entries
        invariant forall k :: k in segments ==> k !in entries
        invariant AreDistinct(segments)
        decreases entries
      {
        var k :| k in entries;
        segments := segments + [k];
        entries := entries - {k};
      }
      ghost var listed := segments;
      SortKeeps(Sequence, listed);
      segments := SortByKey(Sequence, segments);
      SortedIsListing(listed, segments, sealed.Keys);
    }
  }

  lemma RaisedHighest(seen: set<nat>, k: nat)
    ensures Highest(seen + {k}) == if seen == {} || k > Highest(seen) then k else Highest(seen)
  {
    HighestIs(seen + {k}, if seen == {} || k > Highest(seen) then k else Highest(seen));
  }

  lemma SortedIsListing(segments: seq<nat>, sorted: seq<nat>, sequences: set<nat>)
    requires AreDistinct(segments) && forall k :: k in sequences <==> k in segments
    requires IsSortedBy(Sequence, sorted) && multiset(sorted) == multiset(segments)
    ensures IsListing(sorted, sequences)
  {
    RearrangedAreDistinct(segments, sorted);
    forall i, j | 0 <= i < j < |sorted|
      ensures sorted[i] < sorted[j]
    {
      assert Sequence(sorted[i]) <= Sequence(sorted[j]);
    }
  }

  function Sequence(segment: nat): nat {
    segment
  }

  /** The one writer of the index. A commit applies what was queued, in order, all at once. */
  class DocWriter {
    var committed: Index
    var queued: seq<Document>
    var pending: nat

    constructor (index: Index)
      ensures committed == index && queued == [] && pending == 0
    {
      committed, queued, pending := index, [], 0;
    }

    ghost predicate Valid()
      reads this
    {
      pending == |queued|
    }

    method AddOrUpdate(document: Document)
      requires Valid()
      modifies this`queued, this`pending
      ensures Valid() && queued == old(queued) + [document]
    {
      queued := queued + [document];
      pending := pending + 1;
    }

    method Commit()
      requires Valid()
      modifies this
      ensures Valid() && queued == [] && committed == Upsert(old(committed), old(queued))
    {
      committed := Upsert(committed, queued);
      queued, pending := [], 0;
    }

    /** Documents a search can find: those committed. */
    function DocCount(): (count: nat)
      reads this
      ensures count == |committed.Keys|
    {
      |committed|
    }
  }

  // -------------------------------------------------------------------------
  // The crawler's side

  datatype WriteResult = Written | ArchiveIsSealed

  /** Nothing the indexer wrote or holds is different after the later run. */
  ghost predicate LeavesIndexer(before: Run, after: Run) {
    Legal(before) && Legal(after) && End(before).committed == End(after).committed
      && End(before).indexer == End(after).indexer
  }

  class ArchiveWriter {
    const spool: SpoolDirectory
    const segmentBytes: nat
    var segment: Option<nat>
    var segmentSequence: nat
    /** Bytes in the segment being written. */
    var bytes: nat
    var documents: nat
    var sealedSegments: nat

    ghost predicate Valid()
      reads this, spool
    {
      spool.Valid() && End(spool.run).crawler == CrawlerUp(segment, segmentSequence)
    }

    /** Resumes numbering above every file of the directory and opens a segment. */
    constructor (spool: SpoolDirectory, segmentBytes: nat)
      requires spool.Valid() && End(spool.run).crawler == CrawlerDown
      modifies spool
      ensures Valid() && this.spool == spool && this.segmentBytes == segmentBytes
      ensures spool.run == Then(Then(old(spool.run), StartCrawler), Action.OpenSegment)
    {
      this.spool, this.segmentBytes := spool, segmentBytes;
      segment, bytes, documents, sealedSegments := None, 0, 0, 0;
      var next := spool.NextSequence();
      segmentSequence := next;
      new;
      spool.run := Then(spool.run, StartCrawler);
      OpenSegment();
    }

    method OpenSegment()
      requires Valid() && segment == None
      modifies this`segment, this`segmentSequence, this`bytes, spool`open, spool`run
      ensures Valid() && bytes == 0 && segment != None && LeavesIndexer(old(spool.run), spool.run)
      ensures spool.run == Then(old(spool.run), Action.OpenSegment)
    {
      spool.open := spool.open[segmentSequence := []];
      segment, bytes := Some(segmentSequence), 0;
      segmentSequence := segmentSequence + 1;
      spool.run := Then(spool.run, Action.OpenSegment);
    }

    /** Renames the segment being written, if there is one. */
    method SealSegment()
      requires Valid()
      modifies this`segment, this`sealedSegments, spool
      ensures Valid() && segment == None && LeavesIndexer(old(spool.run), spool.run)
      ensures spool.run == if old(segment) == None then old(spool.run) else Then(old(spool.run), Action.SealSegment)
      ensures sealedSegments == old(sealedSegments) + if old(segment) == None then 0 else 1
    {
      if segment != None {
        WrittenIsOpen(spool.run);
        var k := segment.value;
        spool.sealed := spool.sealed[k := spool.open[k]];
        spool.open := spool.open - {k};
        segment := None;
        sealedSegments := sealedSegments + 1;
        spool.run := Then(spool.run, Action.SealSegment);
      }
    }

    /** Appends a document whose frame has `frameBytes` bytes; a full segment is sealed and another opened. */
    method WritePage(document: Document, frameBytes: nat) returns (result: WriteResult)
      requires Valid()
      modifies this, spool
      ensures Valid() && LeavesIndexer(old(spool.run), spool.run)
      ensures result == ArchiveIsSealed <==> old(segment) == None
      ensures result == ArchiveIsSealed ==> spool.run == old(spool.run) && documents == old(documents)
      ensures result == Written ==>
                var written := Then(old(spool.run), Action.WritePage(document));
                spool.run == if old(bytes) + frameBytes < segmentBytes then written
                             else Then(Then(written, Action.SealSegment), Action.OpenSegment)
      ensures result == Written ==> documents == old(documents) + 1 && segment != None
    {
      if segment == None {
        return ArchiveIsSealed;
      }
      WrittenIsOpen(spool.run);
      var k := segment.value;
      spool.open := spool.open[k := spool.open[k] + [document]];
      spool.run := Then(spool.run, Action.WritePage(document));
      bytes := bytes + frameBytes;
      documents := documents + 1;
      if bytes >= segmentBytes {
        SealSegment();
        OpenSegment();
      }
      return Written;
    }
  }

  // -------------------------------------------------------------------------
  // The indexer's side

  datatype DrainReport = DrainReport(segments: nat, documents: nat, docCount: nat)

  /** Nothing the crawler wrote or holds is different after the later run. */
  ghost predicate LeavesCrawler(before: Run, after: Run) {
    Legal(before) && Legal(after) && End(before).log == End(after).log && End(before).crawler == End(after).crawler
  }

  class Drain {
    const spool: SpoolDirectory
    const writer: DocWriter
    const commitDocs: nat
    /** Segments listed and not retired; documents read of the first of them. */
    ghost var ready: seq<nat>
    ghost var at: nat

    ghost predicate Valid()
      reads this, spool, writer
    {
      && spool.Valid() && writer.Valid()
      && End(spool.run).committed == writer.committed
      && End(spool.run).indexer == IndexerUp(ready, at, writer.queued)
    }

    /** Starts on whatever the index and the spool hold. */
    constructor (spool: SpoolDirectory, index: Index, commitDocs: nat)
      requires spool.Valid() && End(spool.run).indexer == IndexerDown && End(spool.run).committed == index
      modifies spool`run
      ensures Valid() && fresh(writer) && this.spool == spool && this.commitDocs == commitDocs && ready == []
      ensures spool.run == Then(old(spool.run), StartIndexer)
    {
      this.spool, this.commitDocs := spool, commitDocs;
      ready, at := [], 0;
      writer := new DocWriter(index);
      new;
      spool.run := Then(spool.run, StartIndexer);
    }

    method Commit()
      requires Valid()
      modifies writer, spool`run
      ensures Valid() && writer.queued == []
      ensures spool.run == Then(old(spool.run), Action.Commit)
    {
      writer.Commit();
      spool.run := Then(spool.run, Action.Commit);
    }

    /** Writes the next document of the segment, committing when enough are pending. */
    method VisitDocument(document: Document)
      requires Valid() && Enabled(End(spool.run), IndexDocument) && document == spool.sealed[ready[0]][at]
      modifies writer, this`at, spool`run
      ensures Valid() && at == old(at) + 1
      ensures var visited := Then(old(spool.run), IndexDocument);
              spool.run == if |old(writer.queued)| + 1 >= commitDocs then Then(visited, Action.Commit) else visited
    {
      writer.AddOrUpdate(document);
      at := at + 1;
      spool.run := Then(spool.run, IndexDocument);
      if writer.pending >= commitDocs {
        Commit();
      }
    }

    /** Writes every document of the segment at hand. */
    method ForEachDocument(documents: seq<Document>)
      requires Valid() && ready != [] && at == 0 && ready[0] in spool.sealed && documents == spool.sealed[ready[0]]
      modifies writer, spool`run, this`at
      ensures Valid() && at == |documents|
      ensures LeavesCrawler(old(spool.run), spool.run)
    {
      for i := 0 to |documents|
        invariant Valid() && at == i && LeavesCrawler(old(spool.run), spool.run)
      {
        VisitDocument(documents[i]);
      }
    }

    method RetireFirst(k: nat)
      requires Valid() && Enabled(End(spool.run), Retire) && ready[0] == k
      modifies spool`sealed, spool`run, this`ready, this`at
      ensures Valid() && at == 0 && ready == old(ready[1..])
      ensures spool.sealed == old(spool.sealed) - {k}
      ensures spool.run == Then(old(spool.run), Retire)
    {
      spool.sealed := spool.sealed - {k};
      ready, at := ready[1..], 0;
      spool.run := Then(spool.run, Retire);
    }

    /** Writes a segment, commits, and only then removes it. */
    method DrainSegment(k: nat) returns (read: nat)
      requires Valid() && ready != [] && ready[0] == k && at == 0
      modifies writer, spool`sealed, spool`run, this`ready, this`at
      ensures Valid() && ready == old(ready[1..]) && at == 0
      ensures k in old(spool.sealed) && spool.sealed == old(spool.sealed) - {k} && read == |old(spool.sealed)[k]|
      ensures LeavesCrawler(old(spool.run), spool.run)
    {
      ListedIsSealed(spool.run);
      var documents := spool.sealed[k];
      ForEachDocument(documents);
      Commit();
      RetireFirst(k);
      read := |documents|;
    }

    method ListSegments() returns (listed: seq<nat>)
      requires Valid() && ready == []
      modifies spool`run, this`ready
      ensures Valid() && ready == listed && IsListing(listed, spool.sealed.Keys)
      ensures spool.run == Then(old(spool.run), ListSealed(listed))
    {
      listed := spool.SealedSegments();
      ready := listed;
      spool.run := Then(spool.run, ListSealed(listed));
    }

    /** Passes over the spool until it is empty. */
    method DrainAll() returns (report: DrainReport)
      requires Valid() && ready == [] && at == 0
      modifies writer, spool`sealed, spool`run, this`ready, this`at
      ensures Valid() && ready == [] && spool.sealed == map[]
      ensures LeavesCrawler(old(spool.run), spool.run)
      ensures report.segments == |old(spool.sealed)| && report.documents == |InOrder(old(spool.sealed))|
    {
      report := DrainReport(0, 0, 0);
      var listed := ListSegments();
      while listed != []
        invariant Valid() && ready == listed && at == 0 && IsListing(listed, spool.sealed.Keys)
        invariant LeavesCrawler(old(spool.run), spool.run)
        invariant report.segments + |spool.sealed| == |old(spool.sealed)|
        invariant report.documents + |InOrder(spool.sealed)| == |InOrder(old(spool.sealed))|
        decreases |spool.sealed|
      {
        report := DrainListed(listed, report);
        listed := ListSegments();
      }
      assert forall k :: k !in spool.sealed.Keys;
    }

    /**
     A run over everything in the spool. The index then holds, for every URL, the document
     sealed last, whatever was half done when the indexer last stopped.
     */
    method Run() returns (report: DrainReport)
      requires Valid() && ready == []
      modifies writer, spool`sealed, spool`run, this`ready, this`at
      ensures Valid() && ready == [] && spool.sealed == map[]
      ensures LeavesCrawler(old(spool.run), spool.run)
      ensures writer.committed == Upsert(map[], End(spool.run).log)
      ensures writer.committed == Upsert(old(writer.committed), InOrder(old(spool.sealed)))
      ensures report == DrainReport(|old(spool.sealed)|, |InOrder(old(spool.sealed))|, |writer.committed|)
    {
      HandoffIsCrashSafe(spool.run);
      NothingListedNothingRead(spool.run);
      report := DrainAll();
      HandoffIsCrashSafe(spool.run);
      report := report.(docCount := writer.DocCount());
    }

    /** One pass over the segments listed. */
    method DrainListed(listed: seq<nat>, sofar: DrainReport) returns (report: DrainReport)
      requires Valid() && ready == listed && listed != [] && at == 0
      modifies writer, spool`sealed, spool`run, this`ready, this`at
      ensures Valid() && ready == [] && at == 0 && LeavesCrawler(old(spool.run), spool.run)
      ensures |spool.sealed| < |old(spool.sealed)|
      ensures report.segments + |spool.sealed| == sofar.segments + |old(spool.sealed)|
      ensures report.documents + |InOrder(spool.sealed)| == sofar.documents + |InOrder(old(spool.sealed))|
    {
      report := sofar;
      for i := 0 to |listed|
        invariant Valid() && ready == listed[i..] && at == 0 && LeavesCrawler(old(spool.run), spool.run)
        invariant |spool.sealed| + i == |old(spool.sealed)|
        invariant report.segments == sofar.segments + i
        invariant report.documents + |InOrder(spool.sealed)| == sofar.documents + |InOrder(old(spool.sealed))|
      {
        ListedIsSealed(spool.run);
        OldestFirst(spool.sealed, listed[i]);
        Smaller(spool.sealed, listed[i]);
        var read := DrainSegment(listed[i]);
        report := DrainReport(report.segments + 1, report.documents + read, report.docCount);
      }
    }
  }

  /** The two processes take turns over one spool, in any order: neither breaks what the other relies on. */
  method TakeTurns(archive: ArchiveWriter, drain: Drain, turns: nat)
    requires archive.Valid() && drain.Valid() && archive.spool == drain.spool && drain.ready == []
    modifies archive, archive.spool, drain, drain.writer
    ensures archive.Valid() && drain.Valid()
    ensures archive.spool.sealed == map[] ==> drain.writer.committed == Upsert(map[], End(archive.spool.run).log)
  {
    for turn := 0 to turns
      invariant archive.Valid() && drain.Valid() && drain.ready == []
    {
      var crawls: bool := *;
      if crawls {
        var document: Document, frameBytes: nat := *, *;
        var result := archive.WritePage(document, frameBytes);
      } else {
        var report := drain.Run();
      }
    }
    HandoffIsCrashSafe(archive.spool.run);
  }
}
