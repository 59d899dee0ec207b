/**
 The crawl's dispatch loop over the on-disk frontier: which visits are started, how
 those in flight are counted by host, and what finished visits add to the queue.

 A visit is an outcome chosen arbitrarily, and so are the clock, the order in which
 visits finish and when an interrupt arrives. Runs are those in which the stores and
 the archive report no error.
 */
module CrawlLoop {
  import opened Basics
  import opened Bytes
  import opened FrontierKeys
  import opened Ledger
  import F = Frontier
  import opened Politeness
  import opened Spacing

  datatype Settings = Settings(workers: nat, perHostConcurrency: nat, maxPages: nat, maxDepth: nat,
                               politenessDelayMs: nat, dropOffsiteRedirects: bool)

  datatype Stats = Stats(queued: nat, fetched: nat, indexed: nat, failed: nat, disallowed: nat, sitemaps: nat,
                         skippedOffsite: nat, skippedAssets: nat, redirectedOffsite: nat)

  const NO_STATS := Stats(0, 0, 0, 0, 0, 0, 0, 0, 0)

  const MAX_HOSTS_PER_CALL: nat := 128
  const SITEMAP_DEPTH: nat := 1

  datatype Visit = Visit(host: Host, job: Job)

  datatype VisitResult =
    | DisallowedByRobots
    | Failed
    | SitemapRead(finalUrl: string, links: seq<string>)
    | PageRead(finalUrl: string, links: seq<string>)

  datatype Outcome = Outcome(visit: Visit, crawlDelayS: Option<nat>, sitemaps: seq<string>, result: VisitResult)

  // -------------------------------------------------------------------------
  // Counting visits in flight by host

  ghost function CountOf(visits: seq<Visit>, host: Host): nat {
    if visits == [] then 0
    else CountOf(visits[..|visits| - 1], host) + if visits[|visits| - 1].host == host then 1 else 0
  }

  /** `counts` has exactly the hosts with a visit in flight, each with the number of its visits. */
  ghost predicate Tallies(counts: map<Host, nat>, visits: seq<Visit>) {
    forall host ::
      && (host in counts <==> CountOf(visits, host) > 0)
      && (host in counts ==> counts[host] == CountOf(visits, host))
  }

  /** No host has more than `bound` visits. */
  ghost predicate Within(counts: map<Host, nat>, bound: nat) {
    forall host :: host in counts ==> 0 < counts[host] <= bound
  }

  ghost predicate AllKnown(visits: seq<Visit>, hosts: set<Host>) {
    forall i :: 0 <= i < |visits| ==> visits[i].host in hosts
  }

  function Without(visits: seq<Visit>, i: nat): (rest: seq<Visit>)
    requires i < |visits|
    ensures |rest| == |visits| - 1
    ensures forall hosts :: AllKnown(visits, hosts) ==> AllKnown(rest, hosts)
  {
    visits[..i] + visits[i + 1..]
  }

  lemma {:induction false} CountWithout(visits: seq<Visit>, i: nat, host: Host)
    requires i < |visits|
    ensures CountOf(visits, host) == CountOf(Without(visits, i), host) + if visits[i].host == host then 1 else 0
  {
    var n := |visits| - 1;
    if i < n {
      CountWithout(visits[..n], i, host);
      assert Without(visits, i)[..n - 1] == Without(visits[..n], i);
    } else {
      assert Without(visits, i) == visits[..n];
    }
  }

  lemma {:induction false} CountWithinAll(visits: seq<Visit>, host: Host)
    ensures CountOf(visits, host) <= |visits|
  {
    if visits != [] {
      CountWithinAll(visits[..|visits| - 1], host);
    }
  }

  lemma CountOfOneMore(visits: seq<Visit>, visit: Visit, host: Host)
    ensures CountOf(visits + [visit], host) == CountOf(visits, host) + if visit.host == host then 1 else 0
  {
    assert (visits + [visit])[..|visits|] == visits;
  }

  /** The accounting for a finished visit, the `i`-th of those in flight. */
  method Bookkeep(host: Host, inFlight: map<Host, nat>, total: nat, ghost visits: seq<Visit>, ghost i: nat,
                  ghost bound: nat)
    returns (inFlightAfter: map<Host, nat>, totalAfter: nat)
    requires Tallies(inFlight, visits) && Within(inFlight, bound) && total == |visits|
    requires i < |visits| && visits[i].host == host
    ensures Tallies(inFlightAfter, Without(visits, i)) && Within(inFlightAfter, bound) && totalAfter == total - 1
  {
    forall other
      ensures CountOf(visits, other) == CountOf(Without(visits, i), other) + if host == other then 1 else 0
    {
      CountWithout(visits, i, other);
    }
    totalAfter := SaturatingSub(total, 1);
    inFlightAfter := inFlight;
    if host in inFlight {
      inFlightAfter := inFlight[host := SaturatingSub(inFlight[host], 1)];
      if inFlightAfter[host] == 0 {
        inFlightAfter := inFlightAfter - {host};
      }
    }
  }

  /** The accounting for a dispatched visit, whose host has room. */
  method CountIn(visit: Visit, inFlight: map<Host, nat>, total: nat, ghost visits: seq<Visit>, ghost bound: nat)
    returns (inFlightAfter: map<Host, nat>, totalAfter: nat)
    requires Tallies(inFlight, visits) && Within(inFlight, bound) && total == |visits|
    requires bound > 0 && (visit.host in inFlight ==> inFlight[visit.host] < bound)
    ensures Tallies(inFlightAfter, visits + [visit]) && Within(inFlightAfter, bound) && totalAfter == total + 1
  {
    forall other
      ensures CountOf(visits + [visit], other) == CountOf(visits, other) + if visit.host == other then 1 else 0
    {
      CountOfOneMore(visits, visit, other);
    }
    inFlightAfter := inFlight[visit.host := (if visit.host in inFlight then inFlight[visit.host] else 0) + 1];
    totalAfter := total + 1;
  }

  // -------------------------------------------------------------------------
  // What a run queues

  /** Jobs queued in one run: no URL twice, each remembered as seen, none deeper than allowed. */
  ghost predicate IsDiscovery(jobs: seq<QueuedJob>, seen: set<string>, maxDepth: nat) {
    && (forall i, j :: 0 <= i < j < |jobs| ==> jobs[i].job.url != jobs[j].job.url)
    && (forall i :: 0 <= i < |jobs| ==>
          jobs[i].job.url in seen && (jobs[i].job.depth <= SITEMAP_DEPTH || jobs[i].job.depth <= maxDepth))
  }

  lemma DiscoveryGrows(jobs: seq<QueuedJob>, seen: set<string>, maxDepth: nat, more: QueuedJob)
    requires IsDiscovery(jobs, seen, maxDepth) && more.job.url !in seen
    requires more.job.depth <= SITEMAP_DEPTH || more.job.depth <= maxDepth
    ensures IsDiscovery(jobs + [more], seen + {more.job.url}, maxDepth)
  {
  }

  /** Every queued job is filed under the host of its URL. */
  ghost predicate FiledByHost(jobs: seq<QueuedJob>, hostOf: string -> Option<Host>) {
    forall i :: 0 <= i < |jobs| ==> hostOf(jobs[i].job.url) == Some(jobs[i].host)
  }

  // -------------------------------------------------------------------------
  // The loop

  /** The counters that outcomes move are the same. */
  ghost predicate SameOutcomes(a: Stats, b: Stats) {
    && a.fetched == b.fetched && a.indexed == b.indexed && a.failed == b.failed
    && a.disallowed == b.disallowed && a.sitemaps == b.sitemaps && a.redirectedOffsite == b.redirectedOffsite
  }

  /** How a run, or a step of one, ended. */
  datatype End = Going | Drained | Stopped | OutOfNumbers

  // What the frontier keeps is long, and most steps of the loop need not see it.

  /** The frontier is valid, and its jobs are filed under the hosts of their URLs. */
  ghost predicate IsSound(frontier: F.Frontier)
    reads frontier, frontier.db
  {
    forall n: nat :: UnfoldHere(n) ==> frontier.Valid() && FiledByHost(frontier.db.ledger.pushes, frontier.hostOf)
  }

  lemma AppendToSecond<T>(a: seq<T>, b: seq<T>, x: T)
    ensures a + b + [x] == a + (b + [x])
  {
  }

  /** Hosts may become known; the state of those known stays. */
  ghost predicate HostsKept(before: map<Host, F.HostState>, after: map<Host, F.HostState>) {
    before.Keys <= after.Keys && forall host :: host in before ==> after[host] == before[host]
  }

  /** Hosts may become known; of those known the state of one may change. */
  ghost predicate KeptBut(before: map<Host, F.HostState>, after: map<Host, F.HostState>, changed: Host) {
    before.Keys <= after.Keys && forall host :: host in before && host != changed ==> after[host] == before[host]
  }

  /** No host among the first that is neither saturated nor inside its politeness window has a job. */
  ghost predicate NothingToStart(l: Ledger, hosts: map<Host, F.HostState>, saturated: set<Host>, now: int) {
    forall host :: (&& host in F.QueuedHosts(l) && F.Rank(F.QueuedHosts(l), host) < MAX_HOSTS_PER_CALL
                    && host !in saturated) ==>
                     F.StateOf(hosts, host).nextAllowedAt > now
  }

  /** Job `number` is the lowest of the first host in byte order that may be started, among those examined. */
  ghost predicate IsFirstToStart(l: Ledger, hosts: map<Host, F.HostState>, saturated: set<Host>, now: int,
                                 number: nat) {
    && IsQueued(l, number)
    && (forall other :: IsQueued(l, other) && HostOf(l, other) == HostOf(l, number) ==> number <= other)
    && HostOf(l, number) !in saturated && F.StateOf(hosts, HostOf(l, number)).nextAllowedAt <= now
    && F.Rank(F.QueuedHosts(l), HostOf(l, number)) < MAX_HOSTS_PER_CALL
    && (forall host :: host in F.QueuedHosts(l) && Less(host, HostOf(l, number)) && host !in saturated ==>
                         F.StateOf(hosts, host).nextAllowedAt > now)
  }

  /** Queues a job whose URL has a host. */
  method FilePush(frontier: F.Frontier, job: Job, ghost entry: QueuedJob)
    requires IsSound(frontier)
    requires frontier.hostOf(job.url) == Some(entry.host) && entry.job == job && frontier.sequence + 1 < SEQUENCE_LIMIT
    modifies frontier, frontier.db
    ensures IsSound(frontier)
    ensures frontier.db.ledger == Pushed(old(frontier.db.ledger), entry)
    ensures HostsKept(old(frontier.db.hosts), frontier.db.hosts)
  {
    assert UnfoldHere(0);
    var pushed := frontier.Push(job);
  }

  /** Defers a known host; the queue is not touched. */
  method Defer(frontier: F.Frontier, host: Host, until: int, now: int)
    requires IsSound(frontier) && host in frontier.db.hosts
    modifies frontier.db
    ensures IsSound(frontier) && frontier.db.ledger == old(frontier.db.ledger)
    ensures frontier.db.hosts == old(frontier.db.hosts)[host := F.HostState(until, now)]
  {
    assert UnfoldHere(0);
    frontier.DeferHost(host, until, now);
  }

  /** Pops a job of a host that has room. */
  method PopJob(frontier: F.Frontier, now: int, saturated: set<Host>) returns (job: Option<Job>, ghost number: nat)
    requires IsSound(frontier)
    modifies frontier`pending, frontier.db`pending, frontier.db`pendingCount, frontier.db`ledger
    ensures IsSound(frontier)
    ensures job.None? ==>
              && frontier.db.ledger == old(frontier.db.ledger)
              && NothingToStart(frontier.db.ledger, frontier.db.hosts, saturated, now)
    ensures job.Some? ==>
              && frontier.db.ledger == Popped(old(frontier.db.ledger), number)
              && IsFirstToStart(old(frontier.db.ledger), frontier.db.hosts, saturated, now, number)
              && job.value == old(frontier.db.ledger).pushes[number - 1].job
              && frontier.hostOf(job.value.url) == Some(HostOf(old(frontier.db.ledger), number))
              && HostOf(old(frontier.db.ledger), number) in frontier.db.hosts
  {
    assert UnfoldHere(0);
    job, number := frontier.PopReady(now, MAX_HOSTS_PER_CALL, host => host in saturated);
  }

  method PendingCount(frontier: F.Frontier) returns (count: nat)
    requires IsSound(frontier)
    ensures count == |frontier.db.pending|
  {
    assert UnfoldHere(0);
    count := frontier.pending;
  }

  /** The filter never denies a URL that was inserted, nor forgets an answer. */
  ghost predicate FilterRemembers(contains: (set<string>, string) -> bool) {
    && (forall urls, url :: url in urls ==> contains(urls, url))
    && (forall urls, more, url :: urls <= more && contains(urls, url) ==> contains(more, url))
  }

  /**
   The history of visits fits the visits in flight and the deferrals stored; `received`
   is the host of an outcome taken and not acted on yet. Folded until `UnfoldHere`.
   */
  ghost predicate IsRecorded(events: seq<Event>, visits: seq<Visit>, hosts: map<Host, F.HostState>,
                             limit: nat, floor: nat, received: Option<Host>) {
    forall n: nat :: UnfoldHere(n) ==>
      && AreOrderly(events, limit, floor)
      && CountsVisits(events, visits, received)
      && KnowsDeferrals(events, hosts)
  }

  ghost predicate CountsVisits(events: seq<Event>, visits: seq<Visit>, received: Option<Host>) {
    forall host :: Outstanding(events, host) == CountOf(visits, host) + if received == Some(host) then 1 else 0
  }

  ghost predicate KnowsDeferrals(events: seq<Event>, hosts: map<Host, F.HostState>) {
    forall host :: LastUntil(events, host).Some? ==>
                     host in hosts && hosts[host].nextAllowedAt == LastUntil(events, host).value
  }

  lemma RecordStart(events: seq<Event>, visits: seq<Visit>, hosts: map<Host, F.HostState>, limit: nat, floor: nat,
                    visit: Visit, now: int)
    requires IsRecorded(events, visits, hosts, limit, floor, None)
    requires CountOf(visits, visit.host) < limit && F.StateOf(hosts, visit.host).nextAllowedAt <= now
    ensures IsRecorded(events + [Started(visit.host, now)], visits + [visit], hosts, limit, floor, None)
  {
    assert UnfoldHere(0);
    assert Outstanding(events, visit.host) == CountOf(visits, visit.host);
    OneMoreEvent(events, Started(visit.host, now), limit, floor);
    OneMoreVisit(events, visits, visit, now);
  }

  lemma OneMoreVisit(events: seq<Event>, visits: seq<Visit>, visit: Visit, now: int)
    requires CountsVisits(events, visits, None)
    requires forall host :: Outstanding(events + [Started(visit.host, now)], host)
                            == Outstanding(events, host) + if visit.host != host then 0 else 1
    ensures CountsVisits(events + [Started(visit.host, now)], visits + [visit], None)
  {
    forall host
      ensures CountOf(visits + [visit], host) == CountOf(visits, host) + if visit.host == host then 1 else 0
    {
      CountOfOneMore(visits, visit, host);
    }
  }

  lemma RecordReceived(events: seq<Event>, visits: seq<Visit>, hosts: map<Host, F.HostState>, limit: nat, floor: nat,
                       i: nat)
    requires IsRecorded(events, visits, hosts, limit, floor, None) && i < |visits|
    ensures IsRecorded(events, Without(visits, i), hosts, limit, floor, Some(visits[i].host))
  {
    assert UnfoldHere(0);
    forall host
      ensures CountOf(visits, host) == CountOf(Without(visits, i), host) + if visits[i].host == host then 1 else 0
    {
      CountWithout(visits, i, host);
    }
  }

  lemma RecordDeferral(events: seq<Event>, visits: seq<Visit>, hosts: map<Host, F.HostState>, limit: nat, floor: nat,
                       host: Host, now: int, delay: Millis)
    requires IsRecorded(events, visits, hosts, limit, floor, Some(host)) && floor <= delay
    ensures IsRecorded(events + [Absorbed(host, now, delay)], visits,
                       hosts[host := F.HostState(NextAllowedAt(now, delay), now)], limit, floor, None)
  {
    assert UnfoldHere(0);
    OneMoreEvent(events, Absorbed(host, now, delay), limit, floor);
  }

  lemma RecordedHostsKept(events: seq<Event>, visits: seq<Visit>, hosts: map<Host, F.HostState>,
                          after: map<Host, F.HostState>, limit: nat, floor: nat)
    requires IsRecorded(events, visits, hosts, limit, floor, None) && HostsKept(hosts, after)
    ensures IsRecorded(events, visits, after, limit, floor, None)
  {
    assert UnfoldHere(0);
  }

  lemma NothingRecorded(hosts: map<Host, F.HostState>, limit: nat, floor: nat)
    ensures IsRecorded([], [], hosts, limit, floor, None)
  {
  }

  // -------------------------------------------------------------------------
  // Moments of a turn

  /** The loop between two of its steps: its history, the queue, the hosts and the visits in flight. */
  datatype Moment = Moment(events: seq<Event>, ledger: Ledger, hosts: map<Host, F.HostState>, visits: seq<Visit>,
                           indexed: nat)

  /** Visits of one host for which there is room, whatever other hosts have. */
  function HostRoom(settings: Settings): nat {
    Max(1, settings.perHostConcurrency)
  }

  /** A host with a job, among the 128 examined, that has room for a visit and is past its politeness window. */
  ghost predicate MayStart(m: Moment, settings: Settings, now: int, host: Host) {
    && host in F.QueuedHosts(m.ledger) && F.Rank(F.QueuedHosts(m.ledger), host) < 128
    && CountOf(m.visits, host) < HostRoom(settings)
    && F.StateOf(m.hosts, host).nextAllowedAt <= now
  }

  ghost predicate NoneMayStart(m: Moment, settings: Settings, now: int) {
    forall host :: !MayStart(m, settings, now, host)
  }

  /** Job `number` is the lowest of the first host that may start. */
  ghost predicate StartsNext(m: Moment, settings: Settings, now: int, number: nat) {
    && IsQueued(m.ledger, number) && MayStart(m, settings, now, HostOf(m.ledger, number))
    && (forall other :: IsQueued(m.ledger, other) && HostOf(m.ledger, other) == HostOf(m.ledger, number) ==>
                          number <= other)
    && (forall host: Host :: Less(host, HostOf(m.ledger, number)) ==> !MayStart(m, settings, now, host))
  }

  /** The page budget was not reached. */
  predicate WithinBudget(m: Moment, settings: Settings) {
    settings.maxPages > 0 ==> m.indexed < settings.maxPages
  }

  /** All workers are busy, or no visit may start. */
  ghost predicate IsStill(m: Moment, settings: Settings, now: int) {
    |m.visits| == settings.workers || NoneMayStart(m, settings, now)
  }

  /** Between the two, visits only began: each took a job off the queue. */
  ghost predicate OnlyStarts(before: Moment, after: Moment) {
    && after.hosts == before.hosts && after.indexed == before.indexed
    && after.ledger.pushes == before.ledger.pushes && before.ledger.pops <= after.ledger.pops
    && before.events <= after.events && before.visits <= after.visits
    && (forall i :: |before.events| <= i < |after.events| ==> after.events[i].Started?)
    && |after.events| - |before.events| == |after.visits| - |before.visits|
    && |after.events| - |before.events| == |after.ledger.pops| - |before.ledger.pops|
  }

  /** Between the two, visits only ended, and only their hosts were deferred. */
  ghost predicate OnlyEnds(before: Moment, after: Moment) {
    && before.ledger.pops == after.ledger.pops && before.events <= after.events
    && (forall i :: |before.events| <= i < |after.events| ==> after.events[i].Absorbed?)
    && |before.visits| == |after.visits| + |after.events| - |before.events|
    && before.hosts.Keys <= after.hosts.Keys
    && (forall host :: host in before.hosts && after.hosts[host] != before.hosts[host] ==>
          exists i :: |before.events| <= i < |after.events| && after.events[i].host == host)
    && (after.events == before.events ==> after == before)
  }

  /** The hosts whose visits in flight leave no room. */
  ghost predicate AreFull(saturated: set<Host>, visits: seq<Visit>, settings: Settings) {
    forall host :: host in saturated <==> CountOf(visits, host) >= HostRoom(settings)
  }

  lemma NothingIsStill(m: Moment, settings: Settings, saturated: set<Host>, now: int)
    requires NothingToStart(m.ledger, m.hosts, saturated, now) && AreFull(saturated, m.visits, settings)
    ensures NoneMayStart(m, settings, now)
  {
  }

  lemma FirstIsNext(m: Moment, settings: Settings, saturated: set<Host>, now: int, number: nat)
    requires IsFirstToStart(m.ledger, m.hosts, saturated, now, number) && AreFull(saturated, m.visits, settings)
    ensures StartsNext(m, settings, now, number)
  {
    F.QueuedHostsMeaning(m.ledger, HostOf(m.ledger, number));
  }

  /** Pops the job that may start next. */
  method PopNext(frontier: F.Frontier, now: int, saturated: set<Host>, ghost settings: Settings, ghost m: Moment)
    returns (job: Option<Job>, ghost number: nat)
    requires IsSound(frontier) && m.ledger == frontier.db.ledger && m.hosts == frontier.db.hosts
    requires AreFull(saturated, m.visits, settings)
    modifies frontier`pending, frontier.db`pending, frontier.db`pendingCount, frontier.db`ledger
    ensures IsSound(frontier)
    ensures job.None? ==> frontier.db.ledger == m.ledger && NoneMayStart(m, settings, now)
    ensures job.Some? ==>
              && StartsNext(m, settings, now, number) && frontier.db.ledger == Popped(m.ledger, number)
              && job.value == m.ledger.pushes[number - 1].job
              && frontier.hostOf(job.value.url) == Some(HostOf(m.ledger, number))
              && HostOf(m.ledger, number) in m.hosts
  {
    job, number := PopJob(frontier, now, saturated);
    if job.None? {
      NothingIsStill(m, settings, saturated, now);
    } else {
      FirstIsNext(m, settings, saturated, now, number);
    }
  }

  lemma OneMoreEnd(before: Moment, middle: Moment, after: Moment, ended: Event)
    requires OnlyEnds(before, middle) && ended.Absorbed? && after.events == middle.events + [ended]
    requires after.ledger.pops == middle.ledger.pops && |middle.visits| == |after.visits| + 1
    requires KeptBut(middle.hosts, after.hosts, ended.host)
    ensures OnlyEnds(before, after)
  {
    forall host | host in before.hosts && after.hosts[host] != before.hosts[host]
      ensures exists i :: |before.events| <= i < |after.events| && after.events[i].host == host
    {
      if host == ended.host {
        assert after.events[|middle.events|] == ended;
      } else {
        var i :| |before.events| <= i < |middle.events| && middle.events[i].host == host;
        assert after.events[i] == middle.events[i];
      }
    }
  }

  lemma OneMoreStart(before: Moment, middle: Moment, after: Moment, started: Event, number: nat, visit: Visit)
    requires OnlyStarts(before, middle) && started.Started? && after.events == middle.events + [started]
    requires after.hosts == middle.hosts && after.indexed == middle.indexed
    requires after.ledger.pushes == middle.ledger.pushes
    requires after.ledger.pops == middle.ledger.pops + [number] && after.visits == middle.visits + [visit]
    ensures OnlyStarts(before, after)
  {
  }

  /** With nothing in flight nothing can end. */
  lemma NothingEnds(before: Moment, after: Moment)
    requires OnlyEnds(before, after) && before.visits == []
    ensures after == before
  {
  }

  /** Nothing is in flight, and some host may be visited at time `clock`. */
  ghost predicate MustStart(m: Moment, settings: Settings, clock: int) {
    && m.visits == [] && settings.workers > 0 && WithinBudget(m, settings)
    && exists host :: MayStart(m, settings, clock, host)
  }

  /** If a visit may start when nothing is in flight, the loop is not still before one has. */
  lemma SomethingStarts(before: Moment, after: Moment, settings: Settings, clock: int, now: int)
    requires OnlyStarts(before, after) && IsStill(after, settings, now) && clock <= now
    requires MustStart(before, settings, clock)
    ensures |before.events| < |after.events| && after.events[|before.events|].Started?
  {
    var host :| MayStart(before, settings, clock, host);
    if |before.events| == |after.events| {
      assert after.visits == before.visits && after.ledger.pops == before.ledger.pops;
      assert after.ledger == before.ledger;
      assert MayStart(after, settings, now, host);
    }
  }

  /** Visits of one host that may be in flight together. */
  function RoomPerHost(settings: Settings): nat {
    Max(1, Min(settings.workers, settings.perHostConcurrency))
  }

  /** A single worker, or a limit of one visit per host. */
  predicate IsOneAtATime(settings: Settings) {
    settings.workers <= 1 || settings.perHostConcurrency <= 1
  }

  /** The visit of a queued job. */
  ghost function VisitOf(l: Ledger, number: nat): Visit
    requires IsSequence(l, number)
  {
    Visit(HostOf(l, number), l.pushes[number - 1].job)
  }

  class Crawl {
    const frontier: F.Frontier
    const settings: Settings
    /** The canonical form of a link, if it is one worth following; always with a host. */
    const canonicalUrl: string -> Option<string>
    /** A scope without restrictions never drops a redirect. */
    const restricted: bool
    const inScope: string -> bool
    const isProbablyPage: string -> bool
    /** The seen-URL filter's answer for what was inserted: never wrong about a URL that was. */
    const filterContains: (set<string>, string) -> bool

    var seen: set<string>
    var inFlight: map<Host, nat>
    var inFlightTotal: nat
    var shuttingDown: bool
    var stats: Stats
    /** Visits started whose outcome was not received yet. */
    var running: seq<Visit>
    /** Outcomes absorbed. */
    ghost var absorbed: nat
    ghost const start: Ledger
    /** When visits began, and when their hosts were deferred. */
    ghost var events: seq<Event>
    /** Jobs queued since. */
    ghost var queued: seq<QueuedJob>

    ghost predicate Environment()
    {
      && (forall link :: canonicalUrl(link).Some? ==> frontier.hostOf(canonicalUrl(link).value).Some?)
      && FilterRemembers(filterContains)
      && settings.politenessDelayMs < U64_LIMIT
    }

    ghost predicate IsOffsite(link: string) {
      canonicalUrl(link).Some? && !inScope(canonicalUrl(link).value)
    }

    ghost predicate IsAsset(link: string) {
      canonicalUrl(link).Some? && inScope(canonicalUrl(link).value) && !isProbablyPage(canonicalUrl(link).value)
    }

    /** A link the crawl may follow. */
    ghost predicate IsAdmissible(link: string) {
      canonicalUrl(link).Some? && inScope(canonicalUrl(link).value) && isProbablyPage(canonicalUrl(link).value)
    }

    /** The job an admissible link is queued as. */
    ghost function EntryOf(link: string, depth: nat): QueuedJob
      requires Environment() && canonicalUrl(link).Some?
    {
      QueuedJob(frontier.hostOf(canonicalUrl(link).value).value, Job(canonicalUrl(link).value, depth))
    }

    /**
     What is seen and queued once a link was looked at: an admissible one the filter does not know
     is added to both.
     */
    ghost function Considered(seen: set<string>, jobs: seq<QueuedJob>, link: string, depth: nat)
      : (set<string>, seq<QueuedJob>)
      requires Environment()
    {
      if IsAdmissible(link) && !filterContains(seen, canonicalUrl(link).value) then
        (seen + {canonicalUrl(link).value}, jobs + [EntryOf(link, depth)])
      else (seen, jobs)
    }

    /** The same for the first `n` links of a batch, in order. */
    ghost function Scheduled(seen: set<string>, jobs: seq<QueuedJob>, links: seq<string>, n: nat, depth: nat)
      : (set<string>, seq<QueuedJob>)
      requires Environment() && n <= |links|
      decreases n
    {
      if n == 0 then (seen, jobs)
      else
        var (known, more) := Scheduled(seen, jobs, links, n - 1, depth);
        Considered(known, more, links[n - 1], depth)
    }

    ghost predicate IsFollowed(seen: set<string>, link: string) {
      IsAdmissible(link) ==> filterContains(seen, canonicalUrl(link).value)
    }

    /** Every admissible link of a batch is known once the batch is scheduled. */
    lemma {:induction false} ScheduledAreFollowed(seen: set<string>, jobs: seq<QueuedJob>, links: seq<string>,
                                                  n: nat, depth: nat)
      requires Environment() && n <= |links|
      ensures seen <= Scheduled(seen, jobs, links, n, depth).0
      ensures forall k :: 0 <= k < n ==> IsFollowed(Scheduled(seen, jobs, links, n, depth).0, links[k])
      decreases n
    {
      if n > 0 {
        ScheduledAreFollowed(seen, jobs, links, n - 1, depth);
      }
    }

    /** The queue, and what this run added to it. */
    ghost predicate Queues()
      reads this, frontier, frontier.db
    {
      && IsSound(frontier) && Environment()
      && frontier.db.ledger.pushes == start.pushes + queued && |queued| == stats.queued
      && IsDiscovery(queued, seen, settings.maxDepth)
    }

    /** The map counts the visits in flight by host; every host is known to the frontier. */
    ghost predicate InFlightExact()
      reads this, frontier, frontier.db
    {
      && Tallies(inFlight, running) && inFlightTotal == |running| <= settings.workers
      && Within(inFlight, Max(1, settings.perHostConcurrency))
      && AllKnown(running, frontier.db.hosts.Keys)
    }

    /** Where every job popped went, when `received` outcomes were taken and not acted on yet. */
    ghost predicate Balanced(received: nat)
      reads this, frontier, frontier.db
    {
      && |frontier.db.ledger.pops| == |start.pops| + inFlightTotal + absorbed
      && absorbed == stats.disallowed + stats.failed + stats.sitemaps + stats.indexed + received
                     + (if settings.dropOffsiteRedirects then stats.redirectedOffsite else 0)
      && stats.fetched == stats.indexed
      // The page budget is overrun by no more than what was in flight when it was reached.
      && (settings.maxPages > 0 ==>
            stats.indexed + inFlightTotal + received <= settings.maxPages + settings.workers - 1)
    }

    ghost predicate History(received: Option<Host>)
      reads this, frontier, frontier.db
    {
      IsRecorded(events, running, frontier.db.hosts, RoomPerHost(settings), settings.politenessDelayMs, received)
    }

    ghost predicate Valid()
      reads this, frontier, frontier.db
    {
      Queues() && InFlightExact() && Balanced(0) && History(None)
    }

    /** An outcome was taken, its host deferred, and its result is to be acted on. */
    ghost predicate Concluding()
      reads this, frontier, frontier.db
    {
      Queues() && InFlightExact() && Balanced(1) && History(None)
    }

    constructor (frontier: F.Frontier, settings: Settings, canonicalUrl: string -> Option<string>, restricted: bool,
                 inScope: string -> bool,
                 isProbablyPage: string -> bool, filterContains: (set<string>, string) -> bool, seen: set<string>)
      requires frontier.Valid() && FiledByHost(frontier.db.ledger.pushes, frontier.hostOf)
      requires forall link :: canonicalUrl(link).Some? ==> frontier.hostOf(canonicalUrl(link).value).Some?
      requires FilterRemembers(filterContains)
      requires settings.politenessDelayMs < U64_LIMIT
      ensures Valid() && this.frontier == frontier && this.settings == settings
      ensures start == frontier.db.ledger && stats == NO_STATS && absorbed == 0 && inFlightTotal == 0 && !shuttingDown
      ensures running == [] && inFlight == map[] && events == []
    {
      this.frontier, this.settings, this.seen := frontier, settings, seen;
      this.canonicalUrl, this.restricted, this.inScope := canonicalUrl, restricted, inScope;
      this.isProbablyPage, this.filterContains := isProbablyPage, filterContains;
      inFlight, inFlightTotal, running, shuttingDown, stats := map[], 0, [], false, NO_STATS;
      absorbed, start, queued, events := 0, frontier.db.ledger, [], [];
      NothingRecorded(frontier.db.hosts, RoomPerHost(settings), settings.politenessDelayMs);
    }

    /** Queues a URL the filter did not know. */
    method PushNew(url: string, depth: nat)
      requires Queues() && frontier.hostOf(url).Some? && (depth <= SITEMAP_DEPTH || depth <= settings.maxDepth)
      requires url !in seen && frontier.sequence + 1 < SEQUENCE_LIMIT
      modifies this`seen, this`stats, this`queued, frontier, frontier.db
      ensures Queues()
      ensures frontier.db.ledger.pops == old(frontier.db.ledger.pops)
      ensures HostsKept(old(frontier.db.hosts), frontier.db.hosts)
      ensures stats == old(stats).(queued := old(stats.queued) + 1) && seen == old(seen) + {url}
      ensures queued == old(queued) + [QueuedJob(frontier.hostOf(url).value, Job(url, depth))]
    {
      ghost var entry := QueuedJob(frontier.hostOf(url).value, Job(url, depth));
      DiscoveryGrows(queued, seen, settings.maxDepth, entry);
      seen := seen + {url};
      AppendToSecond(start.pushes, queued, entry);
      queued := queued + [entry];
      stats := stats.(queued := stats.queued + 1);
      FilePush(frontier, Job(url, depth), entry);
    }

    /** Canonicalises a link, filters it and queues it if it is new. */
    method Enqueue(link: string, depth: nat) returns (isNew: bool, end: End)
      requires Queues() && (depth <= SITEMAP_DEPTH || depth <= settings.maxDepth)
      modifies this`seen, this`stats, this`queued, frontier, frontier.db
      ensures Queues() && (end == Going || end == OutOfNumbers)
      ensures frontier.db.ledger.pops == old(frontier.db.ledger.pops)
      ensures HostsKept(old(frontier.db.hosts), frontier.db.hosts)
      ensures SameOutcomes(stats, old(stats)) && stats.queued == old(stats.queued) + if isNew then 1 else 0
      ensures stats.skippedOffsite == old(stats.skippedOffsite) + if IsOffsite(link) then 1 else 0
      ensures stats.skippedAssets == old(stats.skippedAssets) + if IsAsset(link) then 1 else 0
      ensures (seen, queued) == if end == Going then Considered(old(seen), old(queued), link, depth)
              else (old(seen), old(queued))
    {
      isNew, end := false, Going;
      var url := canonicalUrl(link);
      if url.None? {
      } else if !inScope(url.value) {
        stats := stats.(skippedOffsite := stats.skippedOffsite + 1);
      } else if !isProbablyPage(url.value) {
        stats := stats.(skippedAssets := stats.skippedAssets + 1);
      } else if !filterContains(seen, url.value) {
        if frontier.sequence + 1 >= SEQUENCE_LIMIT {
          end := OutOfNumbers;
        } else {
          PushNew(url.value, depth);
          isNew := true;
        }
      }
    }

    /** Queues what is new among a batch of links. */
    method Schedule(links: seq<string>, depth: nat) returns (discovered: nat, end: End)
      requires Queues() && (depth <= SITEMAP_DEPTH || depth <= settings.maxDepth)
      modifies this`seen, this`stats, this`queued, frontier, frontier.db
      ensures Queues() && (end == Going || end == OutOfNumbers)
      ensures frontier.db.ledger.pops == old(frontier.db.ledger.pops)
      ensures HostsKept(old(frontier.db.hosts), frontier.db.hosts)
      ensures SameOutcomes(stats, old(stats)) && stats.queued == old(stats.queued) + discovered
      ensures end == Going ==> (seen, queued) == Scheduled(old(seen), old(queued), links, |links|, depth)
    {
      discovered, end := 0, Going;
      var i := 0;
      while i < |links| && end == Going
        invariant 0 <= i <= |links| && Queues() && (end == Going || end == OutOfNumbers)
        invariant frontier.db.ledger.pops == old(frontier.db.ledger.pops)
        invariant HostsKept(old(frontier.db.hosts), frontier.db.hosts)
        invariant SameOutcomes(stats, old(stats)) && stats.queued == old(stats.queued) + discovered
        invariant end == Going ==> (seen, queued) == Scheduled(old(seen), old(queued), links, i, depth)
      {
        var isNew;
        isNew, end := Enqueue(links[i], depth);
        discovered := discovered + if isNew then 1 else 0;
        i := i + 1;
      }
    }

    /** Scheduling leaves the visits and their outcomes as they were. */
    method ScheduleAside(links: seq<string>, depth: nat, ghost received: nat) returns (discovered: nat, end: End)
      requires Queues() && InFlightExact() && Balanced(received) && History(None)
               && (depth <= SITEMAP_DEPTH || depth <= settings.maxDepth)
      modifies this`seen, this`stats, this`queued, frontier, frontier.db
      ensures Queues() && InFlightExact() && Balanced(received) && History(None)
              && (end == Going || end == OutOfNumbers)
      ensures frontier.db.ledger.pops == old(frontier.db.ledger.pops)
      ensures HostsKept(old(frontier.db.hosts), frontier.db.hosts)
      ensures SameOutcomes(stats, old(stats))
      ensures end == Going ==> (seen, queued) == Scheduled(old(seen), old(queued), links, |links|, depth)
    {
      ghost var before := frontier.db.hosts;
      discovered, end := Schedule(links, depth);
      RecordedHostsKept(events, running, before, frontier.db.hosts, RoomPerHost(settings), settings.politenessDelayMs);
    }

    /** Takes the outcome of a visit: it is no longer in flight. */
    method Receive(i: nat)
      requires InFlightExact() && Balanced(0) && History(None) && i < |running|
      modifies this`inFlight, this`inFlightTotal, this`running, this`absorbed
      ensures InFlightExact() && Balanced(1) && History(Some(old(running)[i].host))
      ensures running == Without(old(running), i)
    {
      RecordReceived(events, running, frontier.db.hosts, RoomPerHost(settings), settings.politenessDelayMs, i);
      inFlight, inFlightTotal :=
        Bookkeep(running[i].host, inFlight, inFlightTotal, running, i, Max(1, settings.perHostConcurrency));
      running := Without(running, i);
      absorbed := absorbed + 1;
    }

    predicate LeavesScope(finalUrl: string) {
      restricted && !inScope(finalUrl)
    }

    /** A result moves one counter, and a redirect out of scope also its own; a page it drops moves no other. */
    ghost predicate Counts(result: VisitResult, before: Stats)
      reads this
    {
      match result
      case DisallowedByRobots => SameOutcomes(stats, before.(disallowed := before.disallowed + 1))
      case Failed => SameOutcomes(stats, before.(failed := before.failed + 1))
      case SitemapRead(finalUrl, _) =>
        var left := if LeavesScope(finalUrl) then 1 else 0;
        var redirected := before.(redirectedOffsite := before.redirectedOffsite + left);
        SameOutcomes(stats, if settings.dropOffsiteRedirects && LeavesScope(finalUrl) then redirected
                            else redirected.(sitemaps := before.sitemaps + 1))
      case PageRead(finalUrl, _) =>
        var left := if LeavesScope(finalUrl) then 1 else 0;
        var redirected := before.(redirectedOffsite := before.redirectedOffsite + left);
        SameOutcomes(stats, if settings.dropOffsiteRedirects && LeavesScope(finalUrl) then redirected
                            else redirected.(fetched := before.fetched + 1, indexed := before.indexed + 1))
    }

    /** The links a visit leads to: none of a page dropped for its redirect or too deep. */
    ghost function LinksOf(outcome: Outcome): seq<string> {
      match outcome.result
      case SitemapRead(finalUrl, links) => if settings.dropOffsiteRedirects && LeavesScope(finalUrl) then [] else links
      case PageRead(finalUrl, links) =>
        if (settings.dropOffsiteRedirects && LeavesScope(finalUrl))
          || outcome.visit.job.depth >= settings.maxDepth then []
        else links
      case _ => []
    }

    ghost function DepthOf(outcome: Outcome): nat {
      if outcome.result.SitemapRead? then SITEMAP_DEPTH else outcome.visit.job.depth + 1
    }

    /** What is seen and queued after an outcome: the host's sitemaps first, then the links. */
    ghost function FollowedUp(seen: set<string>, jobs: seq<QueuedJob>, outcome: Outcome): (set<string>, seq<QueuedJob>)
      requires Environment()
    {
      var (known, more) := Scheduled(seen, jobs, outcome.sitemaps, |outcome.sitemaps|, 0);
      Scheduled(known, more, LinksOf(outcome), |LinksOf(outcome)|, DepthOf(outcome))
    }

    /** The job is an admissible link of the batch, under its canonical URL and host, at that depth. */
    ghost predicate ComesFrom(links: seq<string>, entry: QueuedJob, depth: nat) {
      exists link :: link in links && IsFollowable(link, entry) && entry.job.depth == depth
    }

    ghost predicate IsFollowable(link: string, entry: QueuedJob) {
      && IsAdmissible(link) && canonicalUrl(link) == Some(entry.job.url)
      && frontier.hostOf(entry.job.url) == Some(entry.host)
    }

    /** Scheduling adds jobs behind those queued, each from a link of the batch. */
    lemma {:induction false} ScheduledComeFromLinks(seen: set<string>, jobs: seq<QueuedJob>, links: seq<string>,
                                                    n: nat, depth: nat)
      requires Environment() && n <= |links|
      ensures jobs <= Scheduled(seen, jobs, links, n, depth).1
      ensures forall k :: |jobs| <= k < |Scheduled(seen, jobs, links, n, depth).1| ==>
                ComesFrom(links[..n], Scheduled(seen, jobs, links, n, depth).1[k], depth)
      decreases n
    {
      if n > 0 {
        ScheduledComeFromLinks(seen, jobs, links, n - 1, depth);
        var (known, more) := Scheduled(seen, jobs, links, n - 1, depth);
        if IsAdmissible(links[n - 1]) && !filterContains(known, canonicalUrl(links[n - 1]).value) {
          assert IsFollowable(links[n - 1], EntryOf(links[n - 1], depth));
          assert links[..n][n - 1] == links[n - 1];
        }
        forall entry | ComesFrom(links[..n - 1], entry, depth)
          ensures ComesFrom(links[..n], entry, depth)
        {
          var link :| link in links[..n - 1] && IsFollowable(link, entry) && entry.job.depth == depth;
          assert links[..n] == links[..n - 1] + [links[n - 1]];
        }
      }
    }

    /** In order: what the first links of a batch lead to is queued before what later ones do. */
    lemma {:induction false} ScheduledInOrder(seen: set<string>, jobs: seq<QueuedJob>, links: seq<string>,
                                              m: nat, n: nat, depth: nat)
      requires Environment() && m <= n <= |links|
      ensures Scheduled(seen, jobs, links, m, depth).1 <= Scheduled(seen, jobs, links, n, depth).1
      decreases n
    {
      if m < n {
        ScheduledInOrder(seen, jobs, links, m, n - 1, depth);
      }
    }

    /** A URL becomes known by being queued, and in no other way. */
    lemma {:induction false} KnownIsQueued(seen: set<string>, jobs: seq<QueuedJob>, links: seq<string>, n: nat,
                                           depth: nat)
      requires Environment() && n <= |links|
      ensures forall url :: url in Scheduled(seen, jobs, links, n, depth).0 <==>
                url in seen || IsQueuedFrom(Scheduled(seen, jobs, links, n, depth).1, |jobs|, url)
      decreases n
    {
      if n > 0 {
        KnownIsQueued(seen, jobs, links, n - 1, depth);
        ScheduledInOrder(seen, jobs, links, 0, n - 1, depth);
        var (known, more) := Scheduled(seen, jobs, links, n - 1, depth);
        var all := Scheduled(seen, jobs, links, n, depth).1;
        forall url
          ensures IsQueuedFrom(all, |jobs|, url) <==>
                  IsQueuedFrom(more, |jobs|, url) || (all != more && url == all[|more|].job.url)
        {
          if k :| |jobs| <= k < |more| && more[k].job.url == url {
            assert all[k].job.url == url;
          }
        }
      }
    }

    /** One of the jobs from the given one on is for this URL. */
    ghost predicate IsQueuedFrom(jobs: seq<QueuedJob>, first: nat, url: string) {
      exists k :: first <= k < |jobs| && jobs[k].job.url == url
    }

    /** An outcome that was dropped for the scope of its final URL. */
    predicate IsDropped(finalUrl: string) {
      settings.dropOffsiteRedirects && LeavesScope(finalUrl)
    }

    /** What a job queued for an outcome is: a sitemap of the host, a page of a sitemap, or a page one link further. */
    ghost predicate IsLedTo(outcome: Outcome, entry: QueuedJob) {
      || ComesFrom(outcome.sitemaps, entry, 0)
      || match outcome.result
         case SitemapRead(finalUrl, links) => !IsDropped(finalUrl) && ComesFrom(links, entry, 1)
         case PageRead(finalUrl, links) =>
           && !IsDropped(finalUrl) && ComesFrom(links, entry, outcome.visit.job.depth + 1)
           && entry.job.depth <= settings.maxDepth
         case _ => false
    }

    /** Every job queued for an outcome is one it leads to, and every link it leads to is known afterwards. */
    lemma FollowedUpIsLedTo(seen: set<string>, jobs: seq<QueuedJob>, outcome: Outcome)
      requires Environment()
      ensures jobs <= FollowedUp(seen, jobs, outcome).1
      ensures forall k :: |jobs| <= k < |FollowedUp(seen, jobs, outcome).1| ==>
                IsLedTo(outcome, FollowedUp(seen, jobs, outcome).1[k])
      ensures forall link :: link in outcome.sitemaps ==> IsFollowed(FollowedUp(seen, jobs, outcome).0, link)
      ensures outcome.result.SitemapRead? && !IsDropped(outcome.result.finalUrl) ==>
                forall link :: link in outcome.result.links ==> IsFollowed(FollowedUp(seen, jobs, outcome).0, link)
      ensures outcome.result.PageRead? && !IsDropped(outcome.result.finalUrl)
              && outcome.visit.job.depth < settings.maxDepth ==>
                forall link :: link in outcome.result.links ==> IsFollowed(FollowedUp(seen, jobs, outcome).0, link)
    {
      var (known, more) := Scheduled(seen, jobs, outcome.sitemaps, |outcome.sitemaps|, 0);
      var links := LinksOf(outcome);
      assert links[..|links|] == links && outcome.sitemaps[..|outcome.sitemaps|] == outcome.sitemaps;
      ScheduledComeFromLinks(seen, jobs, outcome.sitemaps, |outcome.sitemaps|, 0);
      ScheduledComeFromLinks(known, more, links, |links|, DepthOf(outcome));
      ScheduledAreFollowed(seen, jobs, outcome.sitemaps, |outcome.sitemaps|, 0);
      ScheduledAreFollowed(known, more, links, |links|, DepthOf(outcome));
    }

    /** The sitemaps of the host are queued before the links, and what is queued is what becomes known. */
    lemma SitemapsComeFirst(seen: set<string>, jobs: seq<QueuedJob>, outcome: Outcome) returns (m: nat)
      requires Environment()
      ensures |jobs| <= m <= |FollowedUp(seen, jobs, outcome).1|
      ensures forall k :: |jobs| <= k < m ==> ComesFrom(outcome.sitemaps, FollowedUp(seen, jobs, outcome).1[k], 0)
      ensures forall k :: m <= k < |FollowedUp(seen, jobs, outcome).1| ==>
                ComesFrom(LinksOf(outcome), FollowedUp(seen, jobs, outcome).1[k], DepthOf(outcome))
      ensures forall url :: url in FollowedUp(seen, jobs, outcome).0 <==>
                url in seen || IsQueuedFrom(FollowedUp(seen, jobs, outcome).1, |jobs|, url)
    {
      var (known, more) := Scheduled(seen, jobs, outcome.sitemaps, |outcome.sitemaps|, 0);
      var links := LinksOf(outcome);
      assert links[..|links|] == links && outcome.sitemaps[..|outcome.sitemaps|] == outcome.sitemaps;
      ScheduledComeFromLinks(seen, jobs, outcome.sitemaps, |outcome.sitemaps|, 0);
      ScheduledComeFromLinks(known, more, links, |links|, DepthOf(outcome));
      KnownIsQueued(seen, jobs, outcome.sitemaps, |outcome.sitemaps|, 0);
      KnownIsQueued(known, more, links, |links|, DepthOf(outcome));
      QueuedInTwo(more, FollowedUp(seen, jobs, outcome).1, |jobs|);
      m := |more|;
    }

    lemma QueuedInTwo(more: seq<QueuedJob>, all: seq<QueuedJob>, first: nat)
      requires more <= all && first <= |more|
      ensures forall url :: IsQueuedFrom(all, first, url) <==>
                IsQueuedFrom(more, first, url) || IsQueuedFrom(all, |more|, url)
    {
      forall url
        ensures IsQueuedFrom(more, first, url) ==> IsQueuedFrom(all, first, url)
      {
        if k :| first <= k < |more| && more[k].job.url == url {
          assert all[k].job.url == url;
        }
      }
    }

    /** Acts on an outcome: defers the host, queues sitemaps and links, counts the result. */
    method Absorb(outcome: Outcome, now: int) returns (end: End)
      requires Queues() && InFlightExact() && Balanced(1) && History(Some(outcome.visit.host))
      requires outcome.visit.host in frontier.db.hosts
      modifies this`seen, this`stats, this`queued, this`events, frontier, frontier.db
      ensures end == Going || end == OutOfNumbers
      ensures end == Going ==> Valid() && Counts(outcome.result, old(stats))
      ensures end == Going ==> (seen, queued) == FollowedUp(old(seen), old(queued), outcome)
      ensures var delay := DelayMs(settings.politenessDelayMs, outcome.crawlDelayS);
              && events == old(events) + [Absorbed(outcome.visit.host, now, delay)]
              && outcome.visit.host in frontier.db.hosts
              && frontier.db.hosts[outcome.visit.host] == F.HostState(NextAllowedAt(now, delay), now)
      ensures IsNextContact(frontier.db.hosts[outcome.visit.host].nextAllowedAt, now, settings.politenessDelayMs,
                            outcome.crawlDelayS)
      ensures frontier.db.ledger.pops == old(frontier.db.ledger.pops)
      ensures KeptBut(old(frontier.db.hosts), frontier.db.hosts, outcome.visit.host)
    {
      NextContact(now, settings.politenessDelayMs, outcome.crawlDelayS);
      DeferHost(outcome.visit.host, DelayMs(settings.politenessDelayMs, outcome.crawlDelayS), now);
      end := FollowUp(outcome);
    }

    method DeferHost(host: Host, delay: nat, now: int)
      requires Queues() && InFlightExact() && Balanced(1) && History(Some(host))
      requires host in frontier.db.hosts && settings.politenessDelayMs <= delay < U64_LIMIT
      modifies this`events, frontier.db
      ensures Concluding() && events == old(events) + [Absorbed(host, now, delay)]
      ensures frontier.db.hosts == old(frontier.db.hosts)[host := F.HostState(NextAllowedAt(now, delay), now)]
      ensures frontier.db.ledger == old(frontier.db.ledger)
    {
      RecordDeferral(events, running, frontier.db.hosts, RoomPerHost(settings), settings.politenessDelayMs,
                     host, now, delay);
      events := events + [Absorbed(host, now, delay)];
      Defer(frontier, host, NextAllowedAt(now, delay), now);
    }

    /** Queues the sitemaps of the host, whatever became of the page, then what the page led to. */
    method FollowUp(outcome: Outcome) returns (end: End)
      requires Concluding()
      modifies this`seen, this`stats, this`queued, frontier, frontier.db
      ensures end == Going || end == OutOfNumbers
      ensures end == Going ==> Valid() && Counts(outcome.result, old(stats))
      ensures end == Going ==> (seen, queued) == FollowedUp(old(seen), old(queued), outcome)
      ensures frontier.db.ledger.pops == old(frontier.db.ledger.pops)
      ensures HostsKept(old(frontier.db.hosts), frontier.db.hosts)
    {
      var discovered;
      discovered, end := ScheduleAside(outcome.sitemaps, 0, 1);
      if end == Going {
        end := Conclude(outcome);
      }
    }

    /** Counts the result of a visit and queues the links it found. */
    method Conclude(outcome: Outcome) returns (end: End)
      requires Concluding()
      modifies this`seen, this`stats, this`queued, frontier, frontier.db
      ensures end == Going || end == OutOfNumbers
      ensures end == Going ==> Valid() && Counts(outcome.result, old(stats))
      ensures end == Going ==> (seen, queued) == Scheduled(old(seen), old(queued), LinksOf(outcome),
                                                           |LinksOf(outcome)|, DepthOf(outcome))
      ensures frontier.db.ledger.pops == old(frontier.db.ledger.pops)
      ensures HostsKept(old(frontier.db.hosts), frontier.db.hosts)
    {
      end := Going;
      match outcome.result {
        case DisallowedByRobots =>
          CountDisallowed();
        case Failed =>
          CountFailed();
        case SitemapRead(finalUrl, links) =>
          end := TakeSitemap(finalUrl, links, LinksOf(outcome));
        case PageRead(finalUrl, links) =>
          end := TakePage(finalUrl, links, outcome.visit.job.depth, LinksOf(outcome));
      }
    }

    method CountDisallowed()
      requires Concluding()
      modifies this`stats
      ensures Valid() && stats == old(stats).(disallowed := old(stats.disallowed) + 1)
    {
      stats := stats.(disallowed := stats.disallowed + 1);
    }

    method CountFailed()
      requires Concluding()
      modifies this`stats
      ensures Valid() && stats == old(stats).(failed := old(stats.failed) + 1)
    {
      stats := stats.(failed := stats.failed + 1);
    }

    method TakeSitemap(finalUrl: string, links: seq<string>, ghost followed: seq<string>) returns (end: End)
      requires Concluding()
      requires followed == if settings.dropOffsiteRedirects && LeavesScope(finalUrl) then [] else links
      modifies this`seen, this`stats, this`queued, frontier, frontier.db
      ensures end == Going || end == OutOfNumbers
      ensures end == Going ==> Valid() && Counts(SitemapRead(finalUrl, links), old(stats))
      ensures end == Going ==> (seen, queued) == Scheduled(old(seen), old(queued), followed, |followed|, SITEMAP_DEPTH)
      ensures frontier.db.ledger.pops == old(frontier.db.ledger.pops)
      ensures HostsKept(old(frontier.db.hosts), frontier.db.hosts)
    {
      end := Going;
      var dropped := CheckTarget(finalUrl);
      if !dropped {
        stats := stats.(sitemaps := stats.sitemaps + 1);
        var discovered;
        discovered, end := ScheduleAside(links, SITEMAP_DEPTH, 0);
      }
    }

    /** A page is archived; its links are queued unless they are too deep. */
    method TakePage(finalUrl: string, links: seq<string>, depth: nat, ghost followed: seq<string>) returns (end: End)
      requires Concluding()
      requires followed == if (settings.dropOffsiteRedirects && LeavesScope(finalUrl))
               || depth >= settings.maxDepth then [] else links
      modifies this`seen, this`stats, this`queued, frontier, frontier.db
      ensures end == Going || end == OutOfNumbers
      ensures end == Going ==> Valid() && Counts(PageRead(finalUrl, links), old(stats))
      ensures end == Going ==> (seen, queued) == Scheduled(old(seen), old(queued), followed, |followed|, depth + 1)
      ensures frontier.db.ledger.pops == old(frontier.db.ledger.pops)
      ensures HostsKept(old(frontier.db.hosts), frontier.db.hosts)
    {
      end := Going;
      var dropped := CheckTarget(finalUrl);
      if !dropped {
        end := Archive(links, depth, followed);
      }
    }

    method CountPage()
      requires Concluding()
      modifies this`stats
      ensures Valid() && stats == old(stats).(fetched := old(stats.fetched) + 1, indexed := old(stats.indexed) + 1)
    {
      stats := stats.(fetched := stats.fetched + 1, indexed := stats.indexed + 1);
    }

    /** Counts an archived page and queues its links. */
    method Archive(links: seq<string>, depth: nat, ghost followed: seq<string>) returns (end: End)
      requires Concluding()
      requires followed == if depth < settings.maxDepth then links else []
      modifies this`seen, this`stats, this`queued, frontier, frontier.db
      ensures end == Going || end == OutOfNumbers
      ensures end == Going ==> Valid()
      ensures SameOutcomes(stats, old(stats).(fetched := old(stats.fetched) + 1, indexed := old(stats.indexed) + 1))
      ensures end == Going ==> (seen, queued) == Scheduled(old(seen), old(queued), followed, |followed|, depth + 1)
      ensures frontier.db.ledger.pops == old(frontier.db.ledger.pops)
      ensures HostsKept(old(frontier.db.hosts), frontier.db.hosts)
    {
      end := Going;
      CountPage();
      if depth < settings.maxDepth {
        var discovered;
        discovered, end := ScheduleAside(links, depth + 1, 0);
      }
    }

    /** Counts a redirect out of a restricted scope; says whether the page is dropped for it. */
    method CheckTarget(finalUrl: string) returns (dropped: bool)
      requires Concluding()
      modifies this`stats
      ensures Queues() && InFlightExact() && Balanced(if dropped then 0 else 1) && History(None)
      ensures dropped <==> settings.dropOffsiteRedirects && LeavesScope(finalUrl)
      ensures stats == old(stats).(redirectedOffsite := old(stats.redirectedOffsite)
                                                        + if LeavesScope(finalUrl) then 1 else 0)
    {
      if LeavesScope(finalUrl) {
        stats := stats.(redirectedOffsite := stats.redirectedOffsite + 1);
        return settings.dropOffsiteRedirects;
      }
      return false;
    }

    ghost function Now(): Moment
      reads this, frontier, frontier.db
    {
      Moment(events, frontier.db.ledger, frontier.db.hosts, running, stats.indexed)
    }

    /** Hosts that may not get another visit now. */
    function Saturated(): set<Host>
      reads this
    {
      set host | host in inFlight && inFlight[host] >= settings.perHostConcurrency
    }

    /** Those are the hosts without room, by the visits in flight. */
    lemma SaturatedByVisits()
      requires InFlightExact()
      ensures AreFull(Saturated(), running, settings)
    {
    }

    lemma RoomInMap(host: Host)
      requires InFlightExact() && CountOf(running, host) < HostRoom(settings)
      ensures host in inFlight ==> inFlight[host] < settings.perHostConcurrency
    {
    }

    /** Starts the visit of a popped job. */
    method Start(visit: Visit, ghost now: int)
      requires InFlightExact() && History(None) && inFlightTotal < settings.workers
      requires visit.host in frontier.db.hosts && frontier.db.hosts[visit.host].nextAllowedAt <= now
      requires visit.host in inFlight ==> inFlight[visit.host] < settings.perHostConcurrency
      modifies this`inFlight, this`inFlightTotal, this`running, this`events
      ensures InFlightExact() && History(None) && running == old(running) + [visit]
      ensures events == old(events) + [Started(visit.host, now)]
    {
      CountWithinAll(running, visit.host);
      RecordStart(events, running, frontier.db.hosts, RoomPerHost(settings), settings.politenessDelayMs, visit, now);
      events := events + [Started(visit.host, now)];
      inFlight, inFlightTotal := CountIn(visit, inFlight, inFlightTotal, running, Max(1, settings.perHostConcurrency));
      running := running + [visit];
    }

    /** Starts a visit if some host with a queued job is ready and has room. */
    method DispatchOne(now: int) returns (dispatched: bool, ghost number: nat)
      requires Valid() && !shuttingDown && inFlightTotal < settings.workers
      requires settings.maxPages > 0 ==> stats.indexed < settings.maxPages
      modifies this`inFlight, this`inFlightTotal, this`running, this`events
      modifies frontier`pending, frontier.db`pending, frontier.db`pendingCount, frontier.db`ledger
      ensures Valid()
      ensures inFlightTotal == old(inFlightTotal) + if dispatched then 1 else 0
      ensures dispatched ==>
                && StartsNext(old(Now()), settings, now, number)
                && frontier.db.ledger == Popped(old(frontier.db.ledger), number)
                && running == old(running) + [VisitOf(old(frontier.db.ledger), number)]
                && events == old(events) + [Started(HostOf(old(frontier.db.ledger), number), now)]
      ensures !dispatched ==> Now() == old(Now()) && NoneMayStart(Now(), settings, now)
    {
      SaturatedByVisits();
      var job;
      job, number := PopNext(frontier, now, Saturated(), settings, Now());
      if job.None? {
        return false, number;
      }
      var host := frontier.hostOf(job.value.url);
      RoomInMap(host.value);
      Start(Visit(host.value, job.value), now);
      return true, number;
    }

    /** Absorbs any number of outcomes that have arrived, in any order. */
    method AbsorbFinished() returns (end: End)
      requires Valid()
      modifies this, frontier, frontier.db
      ensures end == Going || end == OutOfNumbers
      ensures end == Going ==> Valid()
      ensures shuttingDown == old(shuttingDown) && OnlyEnds(old(Now()), Now())
      ensures old(running) == [] ==> end == Going
    {
      end := Going;
      var arrived: nat := *;
      while arrived > 0 && running != [] && end == Going
        invariant end == Going || end == OutOfNumbers
        invariant end == Going ==> Valid()
        invariant shuttingDown == old(shuttingDown) && OnlyEnds(old(Now()), Now())
        invariant old(running) == [] ==> running == [] && end == Going
      {
        ghost var middle := Now();
        ghost var ended;
        end, ended := TakeOutcome();
        OneMoreEnd(old(Now()), middle, Now(), ended);
        arrived := arrived - 1;
      }
    }

    /** Receives the outcome of some visit in flight, whatever it is, and acts on it. */
    method TakeOutcome() returns (end: End, ghost ended: Event)
      requires Valid() && running != []
      modifies this`inFlight, this`inFlightTotal, this`running, this`absorbed, this`events
      modifies this`seen, this`stats, this`queued, frontier, frontier.db
      ensures end == Going || end == OutOfNumbers
      ensures end == Going ==> Valid()
      ensures ended.Absorbed? && events == old(events) + [ended] && |old(running)| == |running| + 1
      ensures frontier.db.ledger.pops == old(frontier.db.ledger.pops)
      ensures KeptBut(old(frontier.db.hosts), frontier.db.hosts, ended.host)
    {
      var which: nat := *;
      var i := which % |running|;
      var visit := running[i];
      var crawlDelayS: Option<nat>, sitemaps: seq<string>, result: VisitResult, now: int := *, *, *, *;
      assert visit.host in frontier.db.hosts.Keys;
      Receive(i);
      end := Absorb(Outcome(visit, crawlDelayS, sitemaps, result), now);
      ended := events[|events| - 1];
    }

    /** Starts visits while there is room and some host is ready; the clock reads at least `clock` meanwhile. */
    method Dispatch(clock: int) returns (now: int)
      requires Valid() && !shuttingDown
      requires settings.maxPages > 0 ==> stats.indexed < settings.maxPages
      modifies this`inFlight, this`inFlightTotal, this`running, this`events
      modifies frontier`pending, frontier.db`pending, frontier.db`pendingCount, frontier.db`ledger
      ensures Valid() && clock <= now
      ensures OnlyStarts(old(Now()), Now()) && IsStill(Now(), settings, now)
    {
      var dispatched := true;
      now :| clock <= now;
      ghost var begun := Now();
      while inFlightTotal < settings.workers && dispatched
        invariant Valid() && clock <= now && OnlyStarts(begun, Now())
        invariant dispatched || NoneMayStart(Now(), settings, now)
        decreases settings.workers - inFlightTotal, dispatched
      {
        now :| clock <= now;
        dispatched := DispatchAnother(now, begun);
      }
    }

    /** One more visit, if one may start; so far visits only began. */
    method DispatchAnother(now: int, ghost begun: Moment) returns (dispatched: bool)
      requires Valid() && !shuttingDown && inFlightTotal < settings.workers
      requires settings.maxPages > 0 ==> stats.indexed < settings.maxPages
      requires OnlyStarts(begun, Now())
      modifies this`inFlight, this`inFlightTotal, this`running, this`events
      modifies frontier`pending, frontier.db`pending, frontier.db`pendingCount, frontier.db`ledger
      ensures Valid() && OnlyStarts(begun, Now())
      ensures inFlightTotal == old(inFlightTotal) + if dispatched then 1 else 0
      ensures !dispatched ==> NoneMayStart(Now(), settings, now)
    {
      ghost var middle := Now();
      ghost var number;
      dispatched, number := DispatchOne(now);
      if dispatched {
        OneMoreStart(begun, middle, Now(), events[|events| - 1], number, running[|running| - 1]);
      }
    }

    /** Nothing is in flight, the loop is not stopping, and some host may be visited at time `clock`. */
    ghost predicate IsReady(clock: int)
      reads this, frontier, frontier.db
    {
      !shuttingDown && MustStart(Now(), settings, clock)
    }

    /**
     Up to `turns` turns of the loop, while the clock reads at least `clock`. It leaves with nothing
     in flight: when the queue is drained, or after an interrupt or the page budget stopped it. If it
     is ready it starts a visit.
     */
    method Run(turns: nat, clock: int) returns (end: End)
      requires Valid()
      modifies this, frontier, frontier.db
      ensures end != OutOfNumbers ==> Valid()
      ensures end == Drained || end == Stopped ==> inFlightTotal == 0 && inFlight == map[] && running == []
      ensures end == Drained ==> frontier.db.pending == map[]
      ensures end == Drained ==> absorbed == |start.pushes| - |start.pops| + stats.queued
      ensures end == Stopped ==> shuttingDown
      ensures old(events) <= events
      ensures turns > 0 && old(IsReady(clock)) ==> |old(events)| < |events| && events[|old(events)|].Started?
    {
      for turn := 0 to turns
        invariant Valid() && old(events) <= events
        invariant turn == 0 ==> Now() == old(Now()) && shuttingDown == old(shuttingDown)
        invariant turn > 0 && old(IsReady(clock)) ==> |old(events)| < |events| && events[|old(events)|].Started?
      {
        ghost var begun, settled, now;
        end, begun, settled, now := Turn(clock);
        if end == Drained {
          JobsBalance();
        }
        if end != Going {
          return;
        }
      }
      end := Going;
    }

    /**
     One turn of the loop, while the clock reads at least `clock`: outcomes that have arrived are absorbed,
     visits are started until all workers are busy or none may start, and the loop waits.
     */
    method Turn(clock: int) returns (end: End, ghost begun: Moment, ghost settled: Moment, ghost now: int)
      requires Valid()
      modifies this, frontier, frontier.db
      ensures end != OutOfNumbers ==> Valid()
      ensures end == Drained || end == Stopped ==> inFlightTotal == 0 && inFlight == map[] && running == []
      ensures end == Drained ==> frontier.db.pending == map[]
      ensures end == Stopped ==> shuttingDown
      ensures OnlyEnds(old(Now()), begun) && begun.events <= settled.events <= events
      ensures (end == Going || end == Drained) && !old(shuttingDown) && WithinBudget(begun, settings) ==>
                OnlyStarts(begun, settled) && clock <= now && IsStill(settled, settings, now)
      ensures old(IsReady(clock)) ==> |old(events)| < |events| && events[|old(events)|].Started?
    {
      ghost var before, ready := Now(), IsReady(clock);
      end := AbsorbFinished();
      begun, settled, now := Now(), Now(), clock;
      if ready {
        NothingEnds(before, begun);
      }
      if end == Going {
        CheckBudget();
        if shuttingDown && inFlightTotal == 0 {
          NothingInFlight(inFlight, running);
          end := Stopped;
        } else {
          end, settled, now := DispatchAndWait(clock);
          if ready {
            SomethingStarts(begun, settled, settings, clock, now);
          }
        }
      }
    }

    /** Stops dispatching for good once the page budget is reached. */
    method CheckBudget()
      requires Valid()
      modifies this`shuttingDown
      ensures Valid()
      ensures shuttingDown <==> old(shuttingDown) || (settings.maxPages > 0 && stats.indexed >= settings.maxPages)
    {
      if settings.maxPages > 0 && stats.indexed >= settings.maxPages && !shuttingDown {
        shuttingDown := true;
      }
    }

    method DispatchAndWait(clock: int) returns (end: End, ghost settled: Moment, ghost now: int)
      requires Valid() && (shuttingDown ==> inFlightTotal > 0)
      requires !shuttingDown && settings.maxPages > 0 ==> stats.indexed < settings.maxPages
      modifies this, frontier, frontier.db
      ensures end == Going || end == Drained || end == OutOfNumbers
      ensures end != OutOfNumbers ==> Valid()
      ensures end == Drained ==>
                inFlightTotal == 0 && inFlight == map[] && running == [] && frontier.db.pending == map[]
      ensures settled.events <= events
      ensures if old(shuttingDown) then settled == old(Now())
              else OnlyStarts(old(Now()), settled) && clock <= now && IsStill(settled, settings, now)
    {
      now := clock;
      if !shuttingDown {
        var read := Dispatch(clock);
        now := read;
      }
      settled := Now();
      if inFlightTotal == 0 && !shuttingDown {
        var pending := PendingCount(frontier);
        if pending == 0 {
          NothingInFlight(inFlight, running);
          return Drained, settled, now;
        }
      }
      end := Wait();
    }

    /** Waits for an interrupt, an outcome of a visit in flight, or a tick of the clock. */
    method Wait() returns (end: End)
      requires Valid()
      modifies this, frontier, frontier.db
      ensures end == Going || end == OutOfNumbers
      ensures end == Going ==> Valid()
      ensures OnlyEnds(old(Now()), Now())
    {
      end := Going;
      var interrupted: bool, received: bool := *, *;
      if interrupted {
        shuttingDown := true;
      } else if received && running != [] {
        ghost var ended;
        end, ended := TakeOutcome();
        OneMoreEnd(old(Now()), old(Now()), Now(), ended);
      }
    }

    /** With room for one visit of a host at a time, visits begin no earlier than the end of the last allows. */
    lemma VisitsAreSpaced()
      requires Valid() && IsOneAtATime(settings)
      ensures AreSpaced(events)
    {
      assert UnfoldHere(0);
      OneAtATimeIsSpaced(events, settings.politenessDelayMs);
    }

    /**
     Then they also begin at least the default delay apart, while the clock does not go back and no
     deferral wraps.
     */
    lemma VisitsAreApart(i: nat, j: nat)
      requires Valid() && IsOneAtATime(settings) && ClockIsMonotone(events) && DelaysFit(events)
      requires i < j < |events| && events[i].Started? && events[j].Started? && events[i].host == events[j].host
      ensures events[i].at + settings.politenessDelayMs <= events[j].at
    {
      assert UnfoldHere(0);
      VisitsAreSpaced();
      SpacedByDelay(events, 1, settings.politenessDelayMs, i, j);
    }

    /** Jobs waiting, in flight and absorbed are exactly those waiting at the start and those queued since. */
    lemma JobsBalance()
      requires Valid()
      ensures |ProperKeys(frontier.db.pending)| + inFlightTotal + absorbed
              == |start.pushes| - |start.pops| + stats.queued
    {
      assert UnfoldHere(0);
      PushedIsPoppedPlusQueued(frontier.db.pending, frontier.db.ledger);
    }
  }

  lemma NothingInFlight(inFlight: map<Host, nat>, running: seq<Visit>)
    requires Tallies(inFlight, running) && running == []
    ensures inFlight == map[]
  {
    assert forall host :: host !in inFlight;
  }

  // -------------------------------------------------------------------------
  // Two jobs of one host

  /** The only host with jobs is the first one examined. */
  lemma LoneHostMayStart(m: Moment, settings: Settings, now: int, host: Host)
    requires F.QueuedHosts(m.ledger) == {host} && F.StateOf(m.hosts, host).nextAllowedAt <= now
    ensures MayStart(m, settings, now, host) <==> CountOf(m.visits, host) < HostRoom(settings)
  {
    assert forall other :: Less(other, host) ==> other != host by {
      F.LessThanItself(host);
    }
    assert (set other | other in {host} && Less(other, host)) == {};
    assert F.Rank({host}, host) == 0;
  }

  lemma LoneHost(l: Ledger, host: Host, s: nat)
    requires IsQueued(l, s) && forall t :: IsQueued(l, t) ==> HostOf(l, t) == host
    ensures F.QueuedHosts(l) == {host}
  {
    forall other
      ensures other in F.QueuedHosts(l) <==> other == host
    {
      F.QueuedHostsMeaning(l, other);
    }
  }

  /** A frontier with two jobs of one host. */
  method TwoJobs(hostOf: string -> Option<Host>, a: Job, b: Job, host: Host) returns (frontier: F.Frontier)
    requires forall url :: hostOf(url).Some? ==> NulFree(hostOf(url).value)
    requires hostOf(a.url) == hostOf(b.url) == Some(host)
    ensures fresh(frontier) && fresh(frontier.db) && frontier.Valid() && frontier.hostOf == hostOf
    ensures IsPair(frontier.db.ledger, host) && FiledByHost(frontier.db.ledger.pushes, hostOf)
    ensures F.StateOf(frontier.db.hosts, host) == F.NEW_HOST
  {
    var db := new F.CrawlDb();
    frontier := new F.Frontier(db, hostOf);
    var first := frontier.Push(a);
    var second := frontier.Push(b);
    PairIsFiled(frontier.db.ledger, hostOf, a, b, host);
  }

  lemma PairIsFiled(l: Ledger, hostOf: string -> Option<Host>, a: Job, b: Job, host: Host)
    requires l == Pushed(Pushed(Ledger([], []), QueuedJob(host, a)), QueuedJob(host, b))
    requires hostOf(a.url) == hostOf(b.url) == Some(host)
    ensures IsPair(l, host) && FiledByHost(l.pushes, hostOf)
  {
    assert l.pushes == [QueuedJob(host, a), QueuedJob(host, b)];
  }

  /** With jobs of one host only, a visit is started exactly when that host has room. */
  method DispatchLone(crawl: Crawl, host: Host, now: int) returns (dispatched: bool, ghost number: nat)
    requires crawl.Valid() && !crawl.shuttingDown && crawl.inFlightTotal < crawl.settings.workers
    requires crawl.settings.maxPages > 0 ==> crawl.stats.indexed < crawl.settings.maxPages
    requires F.QueuedHosts(crawl.frontier.db.ledger) == {host}
    requires F.StateOf(crawl.frontier.db.hosts, host).nextAllowedAt <= now
    modifies crawl, crawl.frontier, crawl.frontier.db
    ensures crawl.Valid() && crawl.shuttingDown == old(crawl.shuttingDown) && crawl.stats == old(crawl.stats)
    ensures crawl.frontier.db.hosts == old(crawl.frontier.db.hosts)
    ensures dispatched <==> CountOf(old(crawl.running), host) < HostRoom(crawl.settings)
    ensures crawl.events == old(crawl.events) + if dispatched then [Started(host, now)] else []
    ensures dispatched ==>
              && IsQueued(old(crawl.frontier.db.ledger), number)
              && crawl.frontier.db.ledger == Popped(old(crawl.frontier.db.ledger), number)
              && crawl.running == old(crawl.running) + [VisitOf(old(crawl.frontier.db.ledger), number)]
  {
    ghost var before := crawl.Now();
    LoneHostMayStart(before, crawl.settings, now, host);
    dispatched, number := crawl.DispatchOne(now);
  }

  /**
   With two workers and room for two visits of a host, both of its jobs begin at once; with one
   of either, the second waits. So visits are spaced in every run exactly under `IsOneAtATime`.
   */
  method TwoJobsOfOneHost(settings: Settings, hostOf: string -> Option<Host>, a: Job, b: Job, host: Host, now: int,
                          canonicalUrl: string -> Option<string>, restricted: bool, inScope: string -> bool,
                          isProbablyPage: string -> bool, filterContains: (set<string>, string) -> bool)
    returns (crawl: Crawl)
    requires forall url :: hostOf(url).Some? ==> NulFree(hostOf(url).value)
    requires forall link :: canonicalUrl(link).Some? ==> hostOf(canonicalUrl(link).value).Some?
    requires FilterRemembers(filterContains) && settings.politenessDelayMs < U64_LIMIT
    requires hostOf(a.url) == hostOf(b.url) == Some(host) && now >= 0
    ensures crawl.Valid() && crawl.settings == settings
    ensures crawl.events == StartsAtOnce(settings, host, now)
    ensures AreSpaced(crawl.events) <==> IsOneAtATime(settings)
  {
    var frontier := TwoJobs(hostOf, a, b, host);
    crawl := new Crawl(frontier, settings, canonicalUrl, restricted, inScope, isProbablyPage, filterContains, {});
    StartBoth(crawl, host, now);
    StartsTogether(settings, host, now);
  }

  /** What begins at one moment when two jobs of a host wait and nothing is in flight. */
  ghost function StartsAtOnce(settings: Settings, host: Host, now: int): seq<Event> {
    if settings.workers == 0 then []
    else if IsOneAtATime(settings) then [Started(host, now)]
    else [Started(host, now), Started(host, now)]
  }

  /** Two tries to start a visit, when two jobs of one host wait and nothing is in flight. */
  method StartBoth(crawl: Crawl, host: Host, now: int)
    requires crawl.Valid() && !crawl.shuttingDown && crawl.running == [] && crawl.events == []
    requires crawl.stats == NO_STATS
    requires IsPair(crawl.frontier.db.ledger, host) && F.StateOf(crawl.frontier.db.hosts, host).nextAllowedAt <= now
    modifies crawl, crawl.frontier, crawl.frontier.db
    ensures crawl.Valid()
    ensures crawl.events == StartsAtOnce(crawl.settings, host, now)
  {
    if crawl.settings.workers > 0 {
      StartFirst(crawl, host, now);
      if crawl.inFlightTotal < crawl.settings.workers {
        var dispatched;
        ghost var number;
        dispatched, number := DispatchLone(crawl, host, now);
      }
    }
  }

  /** The first visit begins; the other job is left. */
  method StartFirst(crawl: Crawl, host: Host, now: int)
    requires crawl.Valid() && !crawl.shuttingDown && crawl.running == [] && crawl.settings.workers > 0
    requires crawl.stats == NO_STATS
    requires IsPair(crawl.frontier.db.ledger, host) && F.StateOf(crawl.frontier.db.hosts, host).nextAllowedAt <= now
    modifies crawl, crawl.frontier, crawl.frontier.db
    ensures crawl.Valid() && !crawl.shuttingDown && crawl.stats == NO_STATS
    ensures crawl.frontier.db.hosts == old(crawl.frontier.db.hosts)
    ensures F.QueuedHosts(crawl.frontier.db.ledger) == {host}
    ensures CountOf(crawl.running, host) == 1 && crawl.inFlightTotal == 1
    ensures crawl.events == old(crawl.events) + [Started(host, now)]
  {
    LoneHost(crawl.frontier.db.ledger, host, 1);
    var dispatched;
    ghost var number;
    dispatched, number := DispatchLone(crawl, host, now);
    LoneHost(crawl.frontier.db.ledger, host, 3 - number);
    OneInFlight(crawl.running, host);
  }

  /** Two jobs of one host wait, and no other. */
  ghost predicate IsPair(l: Ledger, host: Host) {
    |l.pushes| == 2 && l.pops == [] && l.pushes[0].host == l.pushes[1].host == host
  }

  lemma StartsTogether(settings: Settings, host: Host, now: int)
    ensures AreSpaced(StartsAtOnce(settings, host, now)) <==> IsOneAtATime(settings)
  {
    var events := StartsAtOnce(settings, host, now);
    if !IsOneAtATime(settings) {
      assert events[0].Started? && events[1].Started?;
    }
  }

  lemma OneInFlight(running: seq<Visit>, host: Host)
    requires |running| == 1 && running[0].host == host
    ensures CountOf(running, host) == 1
  {
    assert running[..0] == [];
  }
}
