/**
 The index's growth timeline: per-minute buckets, bounded at three hours, that must
 answer like the full log of commits they summarise.
 */
module History {
  import opened Basics

  const RETENTION: nat := 180
  const BUCKET_SECONDS: int := 60

  datatype Bucket = Bucket(at: int, documents: nat)

  /** One recorded commit: when, and how many documents the index gained. */
  datatype Event = Event(now: int, documents: nat)

  /** Every commit recorded, the latest outermost. */
  datatype Log = Nothing | Then(before: Log, last: Event)

  /** Start of the minute containing `now`, before the epoch too. */
  function MinuteOf(now: int): int {
    now - now % BUCKET_SECONDS
  }

  /** Documents of the buckets that start at `cutoff` or later. */
  function BucketsFrom(buckets: seq<Bucket>, cutoff: int): nat {
    if buckets == [] then 0
    else
      var last := buckets[|buckets| - 1];
      BucketsFrom(buckets[..|buckets| - 1], cutoff) + if last.at >= cutoff then last.documents else 0
  }

  /** Documents of the events whose minute starts at `cutoff` or later, over the whole log. */
  function EventsFrom(log: Log, cutoff: int): nat {
    match log
    case Nothing => 0
    case Then(before, last) =>
      EventsFrom(before, cutoff) + if MinuteOf(last.now) >= cutoff then last.documents else 0
  }

  /** The clock never runs backwards over the log. */
  ghost predicate ClockIsMonotone(log: Log) {
    log.Then? ==> ClockIsMonotone(log.before) && (log.before.Then? ==> log.before.last.now <= log.last.now)
  }

  /** Distinct whole minutes in increasing order. */
  ghost predicate Ordered(buckets: seq<Bucket>) {
    && (forall i :: 0 <= i < |buckets| ==> buckets[i].at % BUCKET_SECONDS == 0)
    && (forall i, j :: 0 <= i < j < |buckets| ==> buckets[i].at < buckets[j].at)
  }

  /** No more buckets than are kept. */
  ghost predicate WellFormed(buckets: seq<Bucket>) {
    |buckets| <= RETENTION && Ordered(buckets)
  }

  /** The buckets end with the newest minute, and over the three hours up to it they answer like the log. */
  ghost predicate Summarises(buckets: seq<Bucket>, log: Log) {
    && (buckets == [] <==> log == Nothing)
    && (log.Then? ==> buckets[|buckets| - 1].at == MinuteOf(log.last.now))
    && (log.Then? ==> forall cutoff :: MinuteOf(log.last.now) - RETENTION * BUCKET_SECONDS < cutoff ==>
                        BucketsFrom(buckets, cutoff) == EventsFrom(log, cutoff))
  }

  // -------------------------------------------------------------------------
  // One recorded commit, as a function of the buckets

  function Merged(buckets: seq<Bucket>, at: int, documents: nat): seq<Bucket> {
    if buckets != [] && buckets[|buckets| - 1].at == at then
      buckets[|buckets| - 1 := Bucket(at, buckets[|buckets| - 1].documents + documents)]
    else
      buckets + [Bucket(at, documents)]
  }

  function Trimmed(buckets: seq<Bucket>): seq<Bucket> {
    if |buckets| > RETENTION then buckets[|buckets| - RETENTION..] else buckets
  }

  function Recorded(buckets: seq<Bucket>, e: Event): seq<Bucket> {
    Trimmed(Merged(buckets, MinuteOf(e.now), e.documents))
  }

  lemma MergeAddsDocuments(buckets: seq<Bucket>, at: int, documents: nat, cutoff: int)
    ensures BucketsFrom(Merged(buckets, at, documents), cutoff)
            == BucketsFrom(buckets, cutoff) + if at >= cutoff then documents else 0
  {
    var merged := Merged(buckets, at, documents);
    if buckets != [] && buckets[|buckets| - 1].at == at {
      assert merged[..|merged| - 1] == buckets[..|buckets| - 1];
    } else {
      assert merged[..|merged| - 1] == buckets;
    }
  }

  /** Dropping a bucket that starts before the cutoff loses nothing from it on. */
  lemma {:induction false} DropOldest(buckets: seq<Bucket>, cutoff: int)
    requires buckets != [] && buckets[0].at < cutoff
    ensures BucketsFrom(buckets[1..], cutoff) == BucketsFrom(buckets, cutoff)
  {
    var n := |buckets| - 1;
    if n > 0 {
      DropOldest(buckets[..n], cutoff);
      assert buckets[..n][1..] == buckets[1..][..n - 1];
    }
  }

  /** Distinct whole minutes are at least a minute apart, so the first lies far back. */
  lemma {:induction false} BucketsSpread(buckets: seq<Bucket>, n: nat)
    requires n < |buckets| && Ordered(buckets)
    ensures buckets[0].at + n * BUCKET_SECONDS <= buckets[n].at
  {
    if n > 0 {
      BucketsSpread(buckets, n - 1);
      assert buckets[n - 1].at < buckets[n].at;
      WholeMinutes(buckets[n - 1].at, buckets[n].at);
    }
  }

  lemma WholeMinutes(a: int, b: int)
    requires a % BUCKET_SECONDS == 0 && b % BUCKET_SECONDS == 0 && a < b
    ensures a + BUCKET_SECONDS <= b
  {
  }

  lemma MinutesAreMonotone(a: int, b: int)
    requires a <= b
    ensures MinuteOf(a) <= MinuteOf(b) && MinuteOf(a) % BUCKET_SECONDS == 0 && a - BUCKET_SECONDS < MinuteOf(a) <= a
  {
  }

  lemma MergeKeepsOrder(buckets: seq<Bucket>, at: int, documents: nat)
    requires Ordered(buckets) && at % BUCKET_SECONDS == 0
    requires buckets != [] ==> buckets[|buckets| - 1].at <= at
    ensures var merged := Merged(buckets, at, documents);
            Ordered(merged) && |buckets| <= |merged| <= |buckets| + 1 && merged != [] && merged[|merged| - 1].at == at
  {
  }

  lemma TrimKeepsOrder(buckets: seq<Bucket>)
    requires Ordered(buckets) && buckets != []
    ensures var trimmed := Trimmed(buckets);
            WellFormed(trimmed) && trimmed != [] && trimmed[|trimmed| - 1] == buckets[|buckets| - 1]
  {
  }

  /** Trimming one bucket too many loses nothing of the last three hours. */
  lemma TrimKeepsRecent(buckets: seq<Bucket>, cutoff: int)
    requires Ordered(buckets) && 0 < |buckets| <= RETENTION + 1
    requires buckets[|buckets| - 1].at - RETENTION * BUCKET_SECONDS < cutoff
    ensures BucketsFrom(Trimmed(buckets), cutoff) == BucketsFrom(buckets, cutoff)
  {
    if |buckets| > RETENTION {
      BucketsSpread(buckets, RETENTION);
      DropOldest(buckets, cutoff);
    }
  }

  /** Recording keeps the buckets well formed and in agreement with the longer log. */
  lemma RecordKeepsSummary(buckets: seq<Bucket>, log: Log, e: Event)
    requires WellFormed(buckets) && Summarises(buckets, log)
    requires log.Then? ==> log.last.now <= e.now
    ensures WellFormed(Recorded(buckets, e)) && Summarises(Recorded(buckets, e), Then(log, e))
  {
    var at := MinuteOf(e.now);
    var merged := Merged(buckets, at, e.documents);
    MinutesAreMonotone(if log.Then? then log.last.now else e.now, e.now);
    MergeKeepsOrder(buckets, at, e.documents);
    TrimKeepsOrder(merged);
    forall cutoff | at - RETENTION * BUCKET_SECONDS < cutoff
      ensures BucketsFrom(Trimmed(merged), cutoff) == EventsFrom(Then(log, e), cutoff)
    {
      MergeAddsDocuments(buckets, at, e.documents, cutoff);
      TrimKeepsRecent(merged, cutoff);
    }
  }

  // -------------------------------------------------------------------------
  // Whatever the clock does

  /** The buckets that trimming drops. */
  function Excess(buckets: seq<Bucket>): seq<Bucket> {
    if |buckets| > RETENTION then buckets[..|buckets| - RETENTION] else []
  }

  /** The buckets that recording a commit drops. */
  function DroppedBy(buckets: seq<Bucket>, e: Event): seq<Bucket> {
    Excess(Merged(buckets, MinuteOf(e.now), e.documents))
  }

  /** A document recorded is in a bucket kept or in one dropped. */
  ghost predicate Accounts(buckets: seq<Bucket>, dropped: seq<Bucket>, log: Log) {
    forall cutoff :: BucketsFrom(buckets, cutoff) + BucketsFrom(dropped, cutoff) == EventsFrom(log, cutoff)
  }

  lemma {:induction false} BucketsInTwoParts(first: seq<Bucket>, second: seq<Bucket>, cutoff: int)
    ensures BucketsFrom(first + second, cutoff) == BucketsFrom(first, cutoff) + BucketsFrom(second, cutoff)
  {
    if second == [] {
      assert first + second == first;
    } else {
      var n := |second| - 1;
      BucketsInTwoParts(first, second[..n], cutoff);
      assert (first + second)[..|first| + n] == first + second[..n];
    }
  }

  lemma TrimmedAndExcess(buckets: seq<Bucket>, cutoff: int)
    ensures BucketsFrom(Excess(buckets), cutoff) + BucketsFrom(Trimmed(buckets), cutoff) == BucketsFrom(buckets, cutoff)
  {
    BucketsInTwoParts(Excess(buckets), Trimmed(buckets), cutoff);
    assert Excess(buckets) + Trimmed(buckets) == buckets;
  }

  lemma RecordKeepsAccount(buckets: seq<Bucket>, dropped: seq<Bucket>, log: Log, e: Event)
    requires Accounts(buckets, dropped, log)
    ensures Accounts(Recorded(buckets, e), dropped + DroppedBy(buckets, e), Then(log, e))
  {
    forall cutoff
      ensures BucketsFrom(Recorded(buckets, e), cutoff) + BucketsFrom(dropped + DroppedBy(buckets, e), cutoff)
              == EventsFrom(Then(log, e), cutoff)
    {
      MergeAddsDocuments(buckets, MinuteOf(e.now), e.documents, cutoff);
      TrimmedAndExcess(Merged(buckets, MinuteOf(e.now), e.documents), cutoff);
      BucketsInTwoParts(dropped, DroppedBy(buckets, e), cutoff);
    }
  }

  /** No bucket that starts at `cutoff` or later holds a document. */
  ghost predicate HoldNothingFrom(buckets: seq<Bucket>, cutoff: int) {
    forall i :: 0 <= i < |buckets| && buckets[i].at >= cutoff ==> buckets[i].documents == 0
  }

  lemma {:induction false} NothingFromIff(buckets: seq<Bucket>, cutoff: int)
    ensures BucketsFrom(buckets, cutoff) == 0 <==> HoldNothingFrom(buckets, cutoff)
  {
    if buckets != [] {
      NothingFromIff(buckets[..|buckets| - 1], cutoff);
    }
  }

  /** The clock never went back, and the window is under three hours and ends at the last commit or later. */
  ghost predicate IsRecent(log: Log, now: int, seconds: int) {
    ClockIsMonotone(log) && log.Then? && log.last.now <= now && seconds < 3 * 60 * 60
  }

  // -------------------------------------------------------------------------
  // The history

  /** The store is bounded and accounts for every document; under a clock that never goes back it summarises the log. */
  ghost predicate IsHistory(buckets: seq<Bucket>, dropped: seq<Bucket>, log: Log) {
    && |buckets| <= RETENTION
    && Accounts(buckets, dropped, log)
    && (ClockIsMonotone(log) ==> WellFormed(buckets) && Summarises(buckets, log))
  }

  lemma RecordKeepsHistory(buckets: seq<Bucket>, dropped: seq<Bucket>, log: Log, e: Event)
    requires IsHistory(buckets, dropped, log)
    ensures IsHistory(Recorded(buckets, e), dropped + DroppedBy(buckets, e), Then(log, e))
  {
    RecordKeepsAccount(buckets, dropped, log, e);
    if ClockIsMonotone(Then(log, e)) {
      RecordKeepsSummary(buckets, log, e);
    }
  }

  class IndexHistory {
    var updatedAt: int
    var totalDocuments: nat
    var buckets: seq<Bucket>
    /** Every commit ever recorded, and every bucket dropped; the code keeps neither. */
    ghost var log: Log
    ghost var dropped: seq<Bucket>

    ghost predicate Valid()
      reads this
    {
      IsHistory(buckets, dropped, log)
    }

    constructor ()
      ensures Valid() && log == Nothing && buckets == dropped == [] && updatedAt == 0 && totalDocuments == 0
    {
      updatedAt, totalDocuments, buckets, log, dropped := 0, 0, [], Nothing, [];
    }

    /** Adds net `documents` to the bucket of the minute containing `now`. */
    method Add(now: int, documents: nat, total: nat)
      requires Valid()
      modifies this
      ensures Valid() && log == Then(old(log), Event(now, documents))
      ensures buckets == Recorded(old(buckets), Event(now, documents))
      ensures dropped == old(dropped) + DroppedBy(old(buckets), Event(now, documents))
      ensures updatedAt == now && totalDocuments == total
    {
      ghost var before := buckets;
      RecordKeepsHistory(before, dropped, log, Event(now, documents));
      updatedAt := now;
      totalDocuments := total;
      var at := now - now % BUCKET_SECONDS;
      var n := |buckets|;
      if n > 0 && buckets[n - 1].at == at {
        buckets := buckets[n - 1 := Bucket(at, buckets[n - 1].documents + documents)];
      } else {
        buckets := buckets + [Bucket(at, documents)];
      }
      if |buckets| > RETENTION {
        var excess := |buckets| - RETENTION;
        buckets := buckets[excess..];
      }
      assert buckets == Recorded(before, Event(now, documents));
      log := Then(log, Event(now, documents));
      dropped := dropped + DroppedBy(before, Event(now, documents));
    }

    /**
     Documents within the window of `seconds` ending at `now`: what the full log says, less
     the documents of the window whose buckets were dropped; so what the log says if and only
     if no bucket of the window with a document was dropped. Under a clock that never goes
     back that is so for every window of less than three hours.
     */
    method DocumentsSince(now: int, seconds: int) returns (documents: nat)
      requires Valid()
      ensures documents + BucketsFrom(dropped, now - seconds) == EventsFrom(log, now - seconds)
      ensures documents == EventsFrom(log, now - seconds) <==> HoldNothingFrom(dropped, now - seconds)
      ensures IsRecent(log, now, seconds) ==> documents == EventsFrom(log, now - seconds)
    {
      var cutoff := now - seconds;
      documents := 0;
      for i := 0 to |buckets|
        invariant documents == BucketsFrom(buckets[..i], cutoff)
      {
        assert buckets[..i + 1][..i] == buckets[..i];
        if buckets[i].at >= cutoff {
          documents := documents + buckets[i].documents;
        }
      }
      assert buckets[..|buckets|] == buckets;
      NothingFromIff(dropped, cutoff);
      if log.Then? {
        MinutesAreMonotone(log.last.now, log.last.now);
      }
    }
  }

  // -------------------------------------------------------------------------
  // A clock that goes back

  /** The buckets, and the buckets dropped, that recording a log leaves. */
  function Buckets(log: Log): seq<Bucket> {
    match log
    case Nothing => []
    case Then(before, last) => Recorded(Buckets(before), last)
  }

  function Dropped(log: Log): seq<Bucket> {
    match log
    case Nothing => []
    case Then(before, last) => Dropped(before) + DroppedBy(Buckets(before), last)
  }

  lemma {:induction false} LogLeavesHistory(log: Log)
    ensures IsHistory(Buckets(log), Dropped(log), log)
  {
    if log.Then? {
      LogLeavesHistory(log.before);
      RecordKeepsHistory(Buckets(log.before), Dropped(log.before), log.before, log.last);
    }
  }

  const FAR: nat := 60_000

  /** A document late in the day, then one in each of the first `n` minutes. */
  function ClockSetBack(n: nat): Log {
    if n == 0 then Then(Nothing, Event(FAR, 1)) else Then(ClockSetBack(n - 1), Event((n - 1) * BUCKET_SECONDS, 1))
  }

  function Minutes(n: nat): seq<Bucket> {
    if n == 0 then [] else Minutes(n - 1) + [Bucket((n - 1) * BUCKET_SECONDS, 1)]
  }

  lemma OneMoreBucket(buckets: seq<Bucket>, minute: nat)
    requires |buckets| < RETENTION && (buckets != [] ==> buckets[|buckets| - 1].at != minute * BUCKET_SECONDS)
    ensures Recorded(buckets, Event(minute * BUCKET_SECONDS, 1)) == buckets + [Bucket(minute * BUCKET_SECONDS, 1)]
    ensures DroppedBy(buckets, Event(minute * BUCKET_SECONDS, 1)) == []
  {
  }

  lemma {:induction false} BucketsSetBack(n: nat)
    requires n < RETENTION
    ensures Buckets(ClockSetBack(n)) == [Bucket(FAR, 1)] + Minutes(n) && |Minutes(n)| == n
    ensures n > 0 ==> Minutes(n)[n - 1].at == (n - 1) * BUCKET_SECONDS
    ensures Dropped(ClockSetBack(n)) == []
  {
    if n == 0 {
      OneMoreBucket([], FAR / BUCKET_SECONDS);
    } else {
      BucketsSetBack(n - 1);
      OneMoreBucket(Buckets(ClockSetBack(n - 1)), n - 1);
    }
  }

  lemma FullStoreDropsFirst(buckets: seq<Bucket>, minute: nat)
    requires |buckets| == RETENTION && buckets[RETENTION - 1].at != minute * BUCKET_SECONDS
    ensures DroppedBy(buckets, Event(minute * BUCKET_SECONDS, 1)) == [buckets[0]]
  {
  }

  /** The oldest bucket goes when the store is full, even if its minute is the latest: the window then misses it. */
  lemma ClockSetBackLosesDocuments(cutoff: int)
    requires cutoff <= FAR
    ensures BucketsFrom(Buckets(ClockSetBack(RETENTION)), cutoff) + 1 == EventsFrom(ClockSetBack(RETENTION), cutoff)
  {
    var n := RETENTION - 1;
    BucketsSetBack(n);
    FullStoreDropsFirst(Buckets(ClockSetBack(n)), n);
    LogLeavesHistory(ClockSetBack(RETENTION));
    OneBucket(Bucket(FAR, 1), cutoff);
  }

  lemma OneBucket(bucket: Bucket, cutoff: int)
    ensures BucketsFrom([] + [bucket], cutoff) == if bucket.at >= cutoff then bucket.documents else 0
  {
    assert ([] + [bucket])[..0] == [];
  }

  // -------------------------------------------------------------------------
  // Runs of the indexer: the timeline never claims more growth than there is

  /** The size of the index, the size noted when the segment in hand was begun, and the history file. */
  datatype State = State(docCount: nat, before: Option<nat>, total: nat, buckets: seq<Bucket>)

  datatype Step =
    | Begin                // a segment is begun and the index size noted
    | Commit(added: nat)   // documents become searchable; an upsert never removes one
    | Record(now: int)     // the segment's growth is written to the history
    | Crash                // the process stops, or the history cannot be written
    | Discard              // the history file is unreadable and started anew

  function Next(s: State, step: Step): State {
    match step
    case Begin => s.(before := Some(s.docCount))
    case Commit(added) => s.(docCount := s.docCount + added)
    case Record(now) =>
      if s.before.None? then s
      else
        var gained := SaturatingSub(s.docCount, s.before.value);
        State(s.docCount, None, s.docCount, Recorded(s.buckets, Event(now, gained)))
    case Crash => s.(before := None)
    case Discard => s.(total := 0, buckets := [])
  }

  function After(s: State, steps: seq<Step>): State {
    if steps == [] then s else Next(After(s, steps[..|steps| - 1]), steps[|steps| - 1])
  }

  /** No window of the timeline holds more documents than the history says the index does. */
  ghost predicate Honest(s: State) {
    && s.total <= s.docCount
    && (s.before.Some? ==> s.total <= s.before.value <= s.docCount)
    && (forall cutoff :: BucketsFrom(s.buckets, cutoff) <= s.total)
  }

  lemma {:induction false} DroppingLowers(buckets: seq<Bucket>, n: nat, cutoff: int)
    requires n <= |buckets|
    ensures BucketsFrom(buckets[n..], cutoff) <= BucketsFrom(buckets, cutoff)
  {
    if n < |buckets| {
      var last := |buckets| - 1;
      DroppingLowers(buckets[..last], n, cutoff);
      assert buckets[n..][..|buckets[n..]| - 1] == buckets[..last][n..];
    }
  }

  lemma RecordingIsBounded(buckets: seq<Bucket>, e: Event, cutoff: int)
    ensures BucketsFrom(Recorded(buckets, e), cutoff) <= BucketsFrom(buckets, cutoff) + e.documents
  {
    var merged := Merged(buckets, MinuteOf(e.now), e.documents);
    MergeAddsDocuments(buckets, MinuteOf(e.now), e.documents, cutoff);
    if |merged| > RETENTION {
      DroppingLowers(merged, |merged| - RETENTION, cutoff);
    }
  }

  lemma StepKeepsHonest(s: State, step: Step)
    requires Honest(s)
    ensures Honest(Next(s, step))
  {
    if step.Record? && s.before.Some? {
      var gained := SaturatingSub(s.docCount, s.before.value);
      forall cutoff
        ensures BucketsFrom(Next(s, step).buckets, cutoff) <= s.docCount
      {
        RecordingIsBounded(s.buckets, Event(step.now, gained), cutoff);
      }
    }
  }

  /** Over every run, with crashes and lost history files anywhere, the timeline stays within the index. */
  lemma {:induction false} RunsStayHonest(s: State, steps: seq<Step>)
    requires Honest(s)
    ensures Honest(After(s, steps))
  {
    if steps != [] {
      RunsStayHonest(s, steps[..|steps| - 1]);
      StepKeepsHonest(After(s, steps[..|steps| - 1]), steps[|steps| - 1]);
    }
  }
}
