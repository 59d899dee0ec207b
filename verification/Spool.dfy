/**
 Documents, the index they are upserted into, and the spool's segments in order.

 Documents are compared without their scores.
 */
module Spool {

  datatype Document = Document(url: string, content: string)

  /** What a search sees: one document for each URL. */
  type Index = map<string, Document>

  /** Files by sequence number. */
  type Segments = map<nat, seq<Document>>

  // -------------------------------------------------------------------------
  // Upserts

  /** Documents added in order, each in place of the one with its URL. */
  function Upsert(index: Index, documents: seq<Document>): Index {
    if documents == [] then index
    else
      var last := documents[|documents| - 1];
      Upsert(index, documents[..|documents| - 1])[last.url := last]
  }

  ghost function Urls(documents: seq<Document>): set<string> {
    set document | document in documents :: document.url
  }

  lemma {:induction false} UpsertInTwoParts(index: Index, first: seq<Document>, second: seq<Document>)
    ensures Upsert(index, first + second) == Upsert(Upsert(index, first), second)
  {
    if second == [] {
      assert first + second == first;
    } else {
      var n := |second| - 1;
      UpsertInTwoParts(index, first, second[..n]);
      assert (first + second)[..|first| + n] == first + second[..n];
    }
  }

  /** The outcome for a URL that is added depends on the documents alone, for another on the index alone. */
  lemma {:induction false} UpsertDecides(a: Index, b: Index, documents: seq<Document>, url: string)
    ensures url in Urls(documents) ==>
              url in Upsert(a, documents) && url in Upsert(b, documents)
                && Upsert(a, documents)[url] == Upsert(b, documents)[url]
    ensures url !in Urls(documents) ==>
              (url in Upsert(a, documents) <==> url in a) && (url in a ==> Upsert(a, documents)[url] == a[url])
  {
    if documents != [] {
      var n := |documents| - 1;
      UpsertDecides(a, b, documents[..n], url);
      assert documents == documents[..n] + [documents[n]];
      assert url in Urls(documents) <==> url in Urls(documents[..n]) || url == documents[n].url;
    }
  }

  /** Documents replayed later have no effect of their own. */
  lemma Absorbed(index: Index, replayed: seq<Document>, documents: seq<Document>)
    requires Urls(replayed) <= Urls(documents)
    ensures Upsert(Upsert(index, replayed), documents) == Upsert(index, documents)
  {
    var with, without := Upsert(Upsert(index, replayed), documents), Upsert(index, documents);
    forall url
      ensures url in with <==> url in without
      ensures url in with ==> with[url] == without[url]
    {
      UpsertDecides(Upsert(index, replayed), index, documents, url);
      UpsertDecides(index, index, documents, url);
      UpsertDecides(index, index, replayed, url);
    }
  }

  /** The last document with a URL is the one found under it. */
  lemma {:induction false} LastWins(index: Index, documents: seq<Document>, i: nat)
    requires i < |documents| && forall j :: i < j < |documents| ==> documents[j].url != documents[i].url
    ensures documents[i].url in Upsert(index, documents) && Upsert(index, documents)[documents[i].url] == documents[i]
  {
    if i < |documents| - 1 {
      LastWins(index, documents[..|documents| - 1], i);
    }
  }

  // -------------------------------------------------------------------------
  // Segments in order

  ghost function Highest(sequences: set<nat>): (highest: nat)
    requires sequences != {}
    ensures highest in sequences && forall k :: k in sequences ==> k <= highest
  {
    var k :| k in sequences;
    if sequences == {k} then k
    else
      var other := Highest(sequences - {k});
      assert forall j :: j in sequences ==> j == k || j in sequences - {k};
      if k > other then k else other
  }

  lemma HighestIs(sequences: set<nat>, highest: nat)
    requires highest in sequences && forall k :: k in sequences ==> k <= highest
    ensures Highest(sequences) == highest
  {
  }

  lemma RemovalsCommute(segments: Segments, j: nat, k: nat)
    ensures segments - {j} - {k} == segments - {k} - {j}
  {
    assert (segments - {j} - {k}).Keys == (segments - {k} - {j}).Keys;
  }

  /** The documents of all segments, by sequence number. */
  ghost function InOrder(segments: Segments): seq<Document>
    decreases |segments|
  {
    if segments == map[] then []
    else
      var last := Highest(segments.Keys);
      Smaller(segments, last);
      InOrder(segments - {last}) + segments[last]
  }

  lemma Smaller(segments: Segments, k: nat)
    requires k in segments
    ensures |segments - {k}| == |segments| - 1
  {
    assert (segments - {k}).Keys == segments.Keys - {k};
    assert |segments.Keys - {k}| == |segments.Keys| - 1;
  }

  lemma NewestLast(segments: Segments, k: nat, documents: seq<Document>)
    requires forall j :: j in segments ==> j < k
    ensures InOrder(segments[k := documents]) == InOrder(segments) + documents
  {
    var more := segments[k := documents];
    HighestIs(more.Keys, k);
    assert k !in segments;
    assert (more - {k}).Keys == segments.Keys;
    assert more - {k} == segments;
  }

  lemma {:induction false} OldestFirst(segments: Segments, k: nat)
    requires k in segments && forall j :: j in segments ==> k <= j
    ensures InOrder(segments) == segments[k] + InOrder(segments - {k})
    decreases |segments|
  {
    var last := Highest(segments.Keys);
    Smaller(segments, last);
    if last == k {
      assert segments - {k} == map[];
    } else {
      OldestFirst(segments - {last}, k);
      RemovalsCommute(segments, k, last);
      HighestIs((segments - {k}).Keys, last);
    }
  }

  lemma {:induction false} UrlsOfSegment(segments: Segments, k: nat)
    requires k in segments
    ensures Urls(segments[k]) <= Urls(InOrder(segments))
    decreases |segments|
  {
    var last := Highest(segments.Keys);
    Smaller(segments, last);
    if last != k {
      UrlsOfSegment(segments - {last}, k);
    }
  }

  // -------------------------------------------------------------------------
  // Listings

  /** The sequence numbers of a directory, smallest first. */
  ghost predicate IsListing(listing: seq<nat>, sequences: set<nat>) {
    && (forall i, j :: 0 <= i < j < |listing| ==> listing[i] < listing[j])
    && (forall k :: k in sequences <==> k in listing)
  }

  /** What is listed comes first: every other segment is newer. */
  ghost predicate ListsOldest(listing: seq<nat>, segments: Segments) {
    && (forall i, j :: 0 <= i < j < |listing| ==> listing[i] < listing[j])
    && (forall i :: 0 <= i < |listing| ==> listing[i] in segments)
    && (forall i, k :: 0 <= i < |listing| && k in segments && k !in listing ==> listing[i] < k)
  }

  lemma FirstListedIsOldest(listing: seq<nat>, segments: Segments)
    requires listing != [] && ListsOldest(listing, segments)
    ensures forall k :: k in segments ==> listing[0] <= k
  {
  }

  lemma RetiringFirst(listing: seq<nat>, segments: Segments)
    requires listing != [] && ListsOldest(listing, segments)
    ensures ListsOldest(listing[1..], segments - {listing[0]})
  {
    forall i, k | 0 <= i < |listing[1..]| && k in segments - {listing[0]} && k !in listing[1..]
      ensures listing[1..][i] < k
    {
      assert listing == [listing[0]] + listing[1..];
      assert listing[i + 1] < k;
    }
  }

  lemma AddingNewest(listing: seq<nat>, segments: Segments, k: nat, documents: seq<Document>)
    requires ListsOldest(listing, segments) && forall j :: j in segments ==> j < k
    ensures ListsOldest(listing, segments[k := documents])
  {
  }
}
