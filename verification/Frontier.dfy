/**
 The on-disk frontier: a key-value store of queued jobs, per-host politeness state and
 counters, and the seek that finds the next job whose host is ready.

 Batches of the store are atomic, so a crash leaves the state some method ended in;
 opening the frontier again starts from there.
 */
module Frontier {
  import opened Basics
  import opened Bytes
  import opened FrontierKeys
  import opened Ledger

  datatype HostState = HostState(nextAllowedAt: int, lastFetchedAt: int)

  const NEW_HOST := HostState(0, 0)

  // -------------------------------------------------------------------------
  // What a pop may return, stated without the cursor

  function StateOf(hosts: map<Host, HostState>, host: Host): HostState {
    if host in hosts then hosts[host] else NEW_HOST
  }

  /** A host that is neither skipped nor inside its politeness window. */
  predicate IsReady(hosts: map<Host, HostState>, skip: Host -> bool, now: int, host: Host) {
    !skip(host) && StateOf(hosts, host).nextAllowedAt <= now
  }

  /** Hosts with a queued job. */
  ghost function QueuedHosts(l: Ledger): set<Host> {
    set s | s in Numbers(|l.pushes|) && s !in l.pops && IsSequence(l, s) :: HostOf(l, s)
  }

  /** How many hosts of `hosts` come before `host` in byte order. */
  ghost function Rank(hosts: set<Host>, host: Host): nat {
    |set g | g in hosts && Less(g, host)|
  }

  /** Job `s` is the lowest of the first ready host among the first `limit` queued hosts. */
  ghost predicate IsNextJob(l: Ledger, hosts: map<Host, HostState>, skip: Host -> bool, now: int, limit: nat, s: nat) {
    && IsQueued(l, s)
    && (forall t :: IsQueued(l, t) && HostOf(l, t) == HostOf(l, s) ==> s <= t)
    && IsReady(hosts, skip, now, HostOf(l, s))
    && Rank(QueuedHosts(l), HostOf(l, s)) < limit
    && (forall g :: g in QueuedHosts(l) && Less(g, HostOf(l, s)) ==> !IsReady(hosts, skip, now, g))
  }

  /** Job `s` was queued before, is the one given, and is popped after. */
  ghost predicate IsPop(before: Ledger, after: Ledger, s: nat, job: Job) {
    IsQueued(before, s) && job == before.pushes[s - 1].job && after == Popped(before, s)
  }

  /** None of the first `limit` queued hosts is ready. */
  ghost predicate NobodyReady(l: Ledger, hosts: map<Host, HostState>, skip: Host -> bool, now: int, limit: nat) {
    forall g :: g in QueuedHosts(l) && Rank(QueuedHosts(l), g) < limit ==> !IsReady(hosts, skip, now, g)
  }

  lemma QueuedHostsMeaning(l: Ledger, host: Host)
    ensures host in QueuedHosts(l) <==> exists s :: IsQueued(l, s) && HostOf(l, s) == host
  {
    NumbersMeaning(|l.pushes|);
    if s :| IsQueued(l, s) && HostOf(l, s) == host {
      assert s in Numbers(|l.pushes|);
    }
  }

  // -------------------------------------------------------------------------
  // Seeking

  /** `key` is at or after the cursor; without a cursor every key is. */
  predicate Reaches(key: Key, from: Option<Key>) {
    from.None? || AtLeast(key, from.value)
  }

  ghost predicate IsFirst(pending: map<Key, Job>, from: Option<Key>, key: Key) {
    key in pending && Reaches(key, from) && forall k :: k in pending && Reaches(k, from) ==> AtLeast(k, key)
  }

  /** The cursor that skips `last` and the hosts before it. */
  function CursorOf(last: Option<Host>): Option<Key> {
    if last.Some? then Some(CursorAfter(last.value)) else None
  }

  /** Hosts the cursor has passed. */
  ghost function Seen(hosts: set<Host>, last: Option<Host>): set<Host> {
    set g | g in hosts && last.Some? && !Less(last.value, g)
  }

  lemma CursorReaches(host: Host, s: nat, last: Option<Host>)
    requires NulFree(host) && (last.Some? ==> NulFree(last.value))
    ensures Reaches(KeyOf(host, s), CursorOf(last)) <==> last.None? || Less(last.value, host)
  {
    if last.Some? {
      CursorSkipsHost(host, last.value, s);
    }
  }

  /** The first key after the cursor is the lowest job of the first host after it. */
  lemma HeadOfNextHost(pending: map<Key, Job>, l: Ledger, last: Option<Host>, key: Key) returns (s: nat)
    requires WellFormed(l) && Holds(pending, l)
    requires last.Some? ==> NulFree(last.value)
    requires IsFirst(pending, CursorOf(last), key) && HostOfKey(key).Some?
    ensures IsQueued(l, s) && key == EntryKey(l, s) && HostOfKey(key).value == HostOf(l, s)
    ensures last.Some? ==> Less(last.value, HostOf(l, s))
    ensures forall t :: IsQueued(l, t) && HostOf(l, t) == HostOf(l, s) ==> s <= t
    ensures forall g :: g in QueuedHosts(l) && Less(g, HostOf(l, s)) ==> g in Seen(QueuedHosts(l), last)
  {
    s :| IsQueued(l, s) && key == EntryKey(l, s);
    var host := HostOf(l, s);
    EntryKeyHost(l, s);
    CursorReaches(host, s, last);
    forall t | IsQueued(l, t) && HostOf(l, t) == host
      ensures s <= t
    {
      CursorReaches(host, t, last);
      assert EntryKey(l, t) in pending;
      SameHostOrder(host, t, s);
    }
    forall g | g in QueuedHosts(l) && Less(g, host)
      ensures g in Seen(QueuedHosts(l), last)
    {
      QueuedHostsMeaning(l, g);
      var t :| IsQueued(l, t) && HostOf(l, t) == g;
      LessIsAsymmetric(g, host);
      CursorReaches(g, t, last);
      OtherHostOrder(g, host, t, s);
      assert EntryKey(l, t) in pending;
    }
  }

  /** With no key after the cursor, every queued host has been passed. */
  lemma NothingAfterCursor(pending: map<Key, Job>, l: Ledger, last: Option<Host>)
    requires WellFormed(l) && Holds(pending, l)
    requires last.Some? ==> NulFree(last.value)
    requires forall k :: k in pending ==> !Reaches(k, CursorOf(last))
    ensures Seen(QueuedHosts(l), last) == QueuedHosts(l)
  {
    forall g | g in QueuedHosts(l)
      ensures g in Seen(QueuedHosts(l), last)
    {
      QueuedHostsMeaning(l, g);
      var t :| IsQueued(l, t) && HostOf(l, t) == g;
      CursorReaches(g, t, last);
      assert EntryKey(l, t) in pending;
    }
  }

  /** Passing the next host adds exactly that host to those seen, and its rank is their number. */
  lemma SeenGrows(hosts: set<Host>, last: Option<Host>, host: Host)
    requires host in hosts && (last.Some? ==> Less(last.value, host))
    requires forall g :: g in hosts && Less(g, host) ==> g in Seen(hosts, last)
    ensures Seen(hosts, Some(host)) == Seen(hosts, last) + {host}
    ensures host !in Seen(hosts, last)
    ensures Rank(hosts, host) == |Seen(hosts, last)|
  {
    forall g | g in hosts
      ensures g in Seen(hosts, last) <==> Less(g, host)
      ensures g in Seen(hosts, Some(host)) <==> Less(g, host) || g == host
    {
      LessIsTotal(g, host);
      if Less(g, host) || g == host {
        if Less(host, g) {
          LessIsAsymmetric(host, g);
        }
      }
      if g in Seen(hosts, last) {
        LessIsTotal(g, last.value);
        if Less(g, last.value) {
          LessIsTransitive(g, last.value, host);
        }
      }
    }
    assert (set g | g in hosts && Less(g, host)) == Seen(hosts, last);
  }

  /** A host that would be among the first has been passed once that many hosts have been. */
  lemma FirstHostsAreSeen(hosts: set<Host>, last: Option<Host>, limit: nat, host: Host)
    requires |Seen(hosts, last)| >= limit && host in hosts && Rank(hosts, host) < limit
    ensures host in Seen(hosts, last)
  {
    if host !in Seen(hosts, last) {
      var before := set g | g in hosts && Less(g, host);
      if last.Some? {
        forall g | g in Seen(hosts, last)
          ensures g in before
        {
          LessIsTotal(g, last.value);
          if Less(g, last.value) {
            LessIsTransitive(g, last.value, host);
          }
        }
        SubsetSize(Seen(hosts, last), before);
      }
    }
  }

  lemma {:induction false} SubsetSize<T>(a: set<T>, b: set<T>)
    requires a <= b
    ensures |a| <= |b|
  {
    if a != {} {
      var x :| x in a;
      SubsetSize(a - {x}, b - {x});
    }
  }

  lemma StrictSubsetSize<T>(a: set<T>, b: set<T>, x: T)
    requires a <= b && x in b && x !in a
    ensures |a| < |b|
  {
    SubsetSize(a, b - {x});
  }

  /** Keys the cursor has not passed. */
  ghost function Ahead(pending: map<Key, Job>, from: Option<Key>): set<Key> {
    set k | k in pending && Reaches(k, from)
  }

  /** Moving the cursor behind the host of a key leaves fewer keys ahead. */
  lemma CursorAdvances(pending: map<Key, Job>, from: Option<Key>, key: Key)
    requires key in pending && Reaches(key, from) && HostOfKey(key).Some?
    ensures |Ahead(pending, Some(CursorAfter(HostOfKey(key).value)))| < |Ahead(pending, from)|
  {
    var cursor := CursorAfter(HostOfKey(key).value);
    CursorPassesKey(key);
    LessIsAsymmetric(key, cursor);
    forall k | k in Ahead(pending, Some(cursor))
      ensures k in Ahead(pending, from)
    {
      AtLeastIsTransitive(k, cursor, key);
      if from.Some? {
        AtLeastIsTransitive(k, key, from.value);
      }
    }
    StrictSubsetSize(Ahead(pending, Some(cursor)), Ahead(pending, from), key);
  }

  /** None of the hosts the cursor has passed is ready. */
  ghost predicate NoneReady(l: Ledger, hosts: map<Host, HostState>, skip: Host -> bool, now: int, last: Option<Host>) {
    forall g :: g in Seen(QueuedHosts(l), last) ==> !IsReady(hosts, skip, now, g)
  }

  /** What looking at the first entry after the cursor achieves. */
  lemma VisitNextHost(pending: map<Key, Job>, l: Ledger, hosts: map<Host, HostState>, skip: Host -> bool,
                      now: int, limit: nat, last: Option<Host>, key: Key, host: Host) returns (s: nat)
    requires WellFormed(l) && Holds(pending, l) && (last.Some? ==> NulFree(last.value))
    requires IsFirst(pending, CursorOf(last), key) && HostOfKey(key) == Some(host)
    requires NoneReady(l, hosts, skip, now, last) && |Seen(QueuedHosts(l), last)| < limit
    ensures NulFree(host) && IsQueued(l, s) && key == EntryKey(l, s) && pending[key] == l.pushes[s - 1].job
    ensures forall t :: IsQueued(l, t) && HostOf(l, t) == HostOf(l, s) ==> s <= t
    ensures IsReady(hosts, skip, now, host) ==> IsNextJob(l, hosts, skip, now, limit, s)
    ensures !IsReady(hosts, skip, now, host) ==> NoneReady(l, hosts, skip, now, Some(host))
    ensures |Seen(QueuedHosts(l), Some(host))| == |Seen(QueuedHosts(l), last)| + 1
    ensures |Ahead(pending, Some(CursorAfter(host)))| < |Ahead(pending, CursorOf(last))|
  {
    s := HeadOfNextHost(pending, l, last, key);
    QueuedHostsMeaning(l, host);
    SeenGrows(QueuedHosts(l), last, host);
    CursorAdvances(pending, CursorOf(last), key);
  }

  lemma LimitReached(l: Ledger, hosts: map<Host, HostState>, skip: Host -> bool, now: int, limit: nat,
                     last: Option<Host>)
    requires NoneReady(l, hosts, skip, now, last) && |Seen(QueuedHosts(l), last)| >= limit
    ensures NobodyReady(l, hosts, skip, now, limit)
  {
    var queued := QueuedHosts(l);
    forall g | g in queued && Rank(queued, g) < limit
      ensures g in Seen(queued, last)
    {
      FirstHostsAreSeen(queued, last, limit, g);
    }
  }

  lemma QueueExhausted(pending: map<Key, Job>, l: Ledger, hosts: map<Host, HostState>, skip: Host -> bool,
                       now: int, limit: nat, last: Option<Host>)
    requires WellFormed(l) && Holds(pending, l) && (last.Some? ==> NulFree(last.value))
    requires NoneReady(l, hosts, skip, now, last)
    requires forall k :: k in pending ==> !Reaches(k, CursorOf(last))
    ensures NobodyReady(l, hosts, skip, now, limit)
  {
    NothingAfterCursor(pending, l, last);
  }

  /** Entries may be gone; those left are unchanged. */
  ghost predicate Shrunk(after: map<Key, Job>, before: map<Key, Job>) {
    forall k :: k in after ==> k in before && after[k] == before[k]
  }

  // -------------------------------------------------------------------------
  // The database

  class CrawlDb {
    var pending: map<Key, Job>
    var hosts: map<Host, HostState>
    var sequence: nat
    var pendingCount: nat
    var hostCount: nat
    /** Every job pushed and popped since the database was created. */
    ghost var ledger: Ledger

    /** The stored counters are not part of validity: `Frontier` reconciles them when it opens. */
    ghost predicate Valid()
      reads this
    {
      WellFormed(ledger) && Fifo(ledger) && Holds(pending, ledger) && sequence == |ledger.pushes|
    }

    constructor ()
      ensures Valid() && ledger == Ledger([], []) && pending == map[] && hosts == map[]
    {
      pending, hosts, sequence, pendingCount, hostCount, ledger := map[], map[], 0, 0, 0, Ledger([], []);
    }

    /** One batch: a new entry, the counters, and the host's first state if it is new. */
    method WritePush(host: Host, job: Job, number: nat, count: nat, newHosts: Option<nat>)
      requires Valid() && NulFree(host) && number == sequence + 1 < SEQUENCE_LIMIT
      modifies this
      ensures Valid()
      ensures KeyOf(host, number) !in old(pending) && pending == old(pending)[KeyOf(host, number) := job]
      ensures pendingCount == count && ledger == Pushed(old(ledger), QueuedJob(host, job))
      ensures hosts == (if newHosts.Some? then old(hosts)[host := NEW_HOST] else old(hosts))
      ensures hostCount == (if newHosts.Some? then newHosts.value else old(hostCount))
      ensures sequence == number
    {
      PushKeepsLedger(pending, ledger, QueuedJob(host, job));
      pending := pending[KeyOf(host, number) := job];
      sequence := number;
      pendingCount := count;
      if newHosts.Some? {
        hosts := hosts[host := NEW_HOST];
        hostCount := newHosts.value;
      }
      ledger := Pushed(ledger, QueuedJob(host, job));
    }

    /** One batch: an entry deleted and the count with it; `after` is what the deletion leaves. */
    method WriteForget(key: Key, count: nat, ghost after: Ledger)
      requires Valid() && |after.pushes| == |ledger.pushes|
      requires WellFormed(after) && Fifo(after) && Holds(pending - {key}, after)
      modifies this`pending, this`pendingCount, this`ledger
      ensures Valid()
      ensures pending == old(pending) - {key} && pendingCount == count && ledger == after
    {
      pending := pending - {key};
      pendingCount := count;
      ledger := after;
    }

    /** The first entry at or after the cursor. */
    method Seek(from: Option<Key>) returns (entry: Option<Key>)
      ensures entry.Some? ==> IsFirst(pending, from, entry.value)
      ensures entry.None? ==> forall k :: k in pending ==> !Reaches(k, from)
    {
      entry := None;
      var rest := pending.Keys;
      while rest != {}
        invariant rest <= pending.Keys
        invariant entry.None? ==> forall k :: k in pending && k !in rest ==> !Reaches(k, from)
        invariant entry.Some? ==>
                    && entry.value in pending && Reaches(entry.value, from)
                    && forall k :: k in pending && k !in rest && Reaches(k, from) ==> AtLeast(k, entry.value)
        decreases |rest|
      {
        var key :| key in rest;
        rest := rest - {key};
        if Reaches(key, from) && (entry.None? || Less(key, entry.value)) {
          if entry.Some? {
            forall k | k in pending && k !in rest && k != key && Reaches(k, from)
              ensures AtLeast(k, key)
            {
              LessIsAsymmetric(key, entry.value);
              AtLeastIsTransitive(k, entry.value, key);
            }
          }
          LessThanItself(key);
          entry := Some(key);
        }
      }
    }
  }

  lemma LessThanItself(key: Key)
    ensures !Less(key, key)
  {
    if Less(key, key) {
      LessIsAsymmetric(key, key);
    }
  }

  // -------------------------------------------------------------------------
  // The frontier

  datatype FrontierError = InvalidUrl(url: string)

  /** What became of the entry a pop looked at. */
  datatype Visit = Exhausted | Dropped | Passed(host: Host) | Found(job: Job)

  class Frontier {
    const db: CrawlDb
    /** The host part of an absolute URL; a host name has no zero byte. */
    const hostOf: string -> Option<Host>
    var sequence: nat
    var pending: nat
    var hosts: nat

    /** Everything but the host counter. */
    ghost predicate Consistent()
      reads this, db
    {
      && db.Valid()
      && (forall url :: hostOf(url).Some? ==> NulFree(hostOf(url).value))
      && sequence == db.sequence
      && pending == db.pendingCount == |db.pending|
      && (forall i :: 0 <= i < |db.ledger.pushes| ==> db.ledger.pushes[i].host in db.hosts)
    }

    /** The host counter, in memory and stored, is the number of known hosts. */
    ghost predicate HostsExact()
      reads this, db
    {
      hosts == db.hostCount == |db.hosts|
    }

    ghost predicate Valid()
      reads this, db
    {
      Consistent() && HostsExact()
    }

    /** Opens the store, whatever its counters say, and makes them right. */
    constructor (db: CrawlDb, hostOf: string -> Option<Host>)
      requires db.Valid()
      requires forall url :: hostOf(url).Some? ==> NulFree(hostOf(url).value)
      requires forall i :: 0 <= i < |db.ledger.pushes| ==> db.ledger.pushes[i].host in db.hosts
      modifies db
      ensures Valid() && this.db == db && this.hostOf == hostOf
      ensures db.pending == old(db.pending) && db.hosts == old(db.hosts) && db.ledger == old(db.ledger)
    {
      this.db := db;
      this.hostOf := hostOf;
      sequence := db.sequence;
      pending := |db.pending|;
      hosts := |db.hosts|;
      new;
      db.pendingCount := |db.pending|;
      db.hostCount := |db.hosts|;
    }

    /** Queues a job under its host, which may be contacted at once if it was unknown. */
    method Push(job: Job) returns (result: Result<(), FrontierError>)
      requires Valid() && sequence + 1 < SEQUENCE_LIMIT
      modifies this, db
      ensures Valid()
      ensures result.Ok? <==> hostOf(job.url).Some?
      ensures result.Err? ==> db.ledger == old(db.ledger) && db.hosts == old(db.hosts) && db.pending == old(db.pending)
      ensures result.Ok? ==>
                var host := hostOf(job.url).value;
                var key := KeyOf(host, old(sequence) + 1);
                && key !in old(db.pending)
                && db.pending == old(db.pending)[key := job]
                && db.ledger == Pushed(old(db.ledger), QueuedJob(host, job))
                && db.hosts == (if host in old(db.hosts) then old(db.hosts) else old(db.hosts)[host := NEW_HOST])
    {
      var host := hostOf(job.url);
      if host.None? {
        return Err(InvalidUrl(job.url));
      }
      var isNewHost := host.value !in db.hosts;
      sequence := sequence + 1;
      pending := pending + 1;
      if isNewHost {
        hosts := hosts + 1;
      }
      db.WritePush(host.value, job, sequence, pending, if isNewHost then Some(hosts) else None);
      result := Ok(());
    }

    /** Removes an entry and its share of the count. */
    method Forget(key: Key, ghost after: Ledger)
      requires Valid() && key in db.pending
      requires after.pushes == db.ledger.pushes
      requires WellFormed(after) && Fifo(after) && Holds(db.pending - {key}, after)
      modifies this`pending, db`pending, db`pendingCount, db`ledger
      ensures Valid()
      ensures db.pending == old(db.pending) - {key} && |db.pending| < old(|db.pending|)
      ensures db.ledger == after
    {
      assert db.pending.Keys == (db.pending - {key}).Keys + {key};
      pending := SaturatingSub(pending, 1);
      db.WriteForget(key, pending, after);
    }

    /** Removes an entry no push can have written. */
    method DropEntry(key: Key)
      requires Valid() && key in db.pending && HostOfKey(key).None?
      modifies this`pending, db`pending, db`pendingCount, db`ledger
      ensures Valid() && Shrunk(db.pending, old(db.pending)) && |db.pending| < old(|db.pending|)
      ensures db.ledger == old(db.ledger)
    {
      DropKeepsLedger(db.pending, db.ledger, key);
      Forget(key, db.ledger);
    }

    /** Takes the lowest queued job of its host out of the queue. */
    method TakeEntry(key: Key, ghost s: nat) returns (job: Job)
      requires Valid() && IsQueued(db.ledger, s) && key == EntryKey(db.ledger, s) && key in db.pending
      requires forall t :: IsQueued(db.ledger, t) && HostOf(db.ledger, t) == HostOf(db.ledger, s) ==> s <= t
      modifies this`pending, db`pending, db`pendingCount, db`ledger
      ensures Valid() && Shrunk(db.pending, old(db.pending))
      ensures IsPop(old(db.ledger), db.ledger, s, job)
    {
      job := db.pending[key];
      PopKeepsLedger(db.pending, db.ledger, s);
      Forget(key, Popped(db.ledger, s));
    }

    /** Looks at the first entry after the cursor: it is dropped, passed over or popped. */
    method Visit(cursor: Option<Key>, ghost last: Option<Host>, now: int, ghost limit: nat, skip: Host -> bool)
      returns (visit: Visit, ghost popped: nat)
      requires Valid() && cursor == CursorOf(last) && (last.Some? ==> NulFree(last.value))
      requires NoneReady(db.ledger, db.hosts, skip, now, last) && |Seen(QueuedHosts(db.ledger), last)| < limit
      modifies this`pending, db`pending, db`pendingCount, db`ledger
      ensures Valid() && Shrunk(db.pending, old(db.pending))
      ensures !visit.Found? ==> db.ledger == old(db.ledger)
      ensures visit.Exhausted? ==> NobodyReady(db.ledger, db.hosts, skip, now, limit)
      ensures visit.Dropped? ==> |db.pending| < old(|db.pending|)
      ensures visit.Passed? ==>
                && db.pending == old(db.pending) && NulFree(visit.host)
                && NoneReady(db.ledger, db.hosts, skip, now, Some(visit.host))
                && |Seen(QueuedHosts(db.ledger), Some(visit.host))| == |Seen(QueuedHosts(db.ledger), last)| + 1
                && |Ahead(db.pending, Some(CursorAfter(visit.host)))| < |Ahead(db.pending, cursor)|
      ensures visit.Found? ==>
                && IsNextJob(old(db.ledger), db.hosts, skip, now, limit, popped)
                && IsPop(old(db.ledger), db.ledger, popped, visit.job)
    {
      popped := 0;
      var entry := db.Seek(cursor);
      if entry.None? {
        QueueExhausted(db.pending, db.ledger, db.hosts, skip, now, limit, last);
        return Exhausted, popped;
      }
      var key := entry.value;
      var hostBytes := HostOfKey(key);
      if hostBytes.None? {
        DropEntry(key);
        return Dropped, popped;
      }
      var host := hostBytes.value;
      popped := VisitNextHost(db.pending, db.ledger, db.hosts, skip, now, limit, last, key, host);
      if skip(host) {
        return Passed(host), popped;
      }
      if StateOf(db.hosts, host).nextAllowedAt > now {
        return Passed(host), popped;
      }
      var job := TakeEntry(key, popped);
      visit := Found(job);
    }

    /** The lowest job of the first ready host, among the first `maxHosts` with jobs; it leaves the queue. */
    method PopReady(now: int, maxHosts: nat, skip: Host -> bool) returns (job: Option<Job>, ghost popped: nat)
      requires Valid()
      modifies this`pending, db`pending, db`pendingCount, db`ledger
      ensures Valid()
      ensures job.None? ==> db.ledger == old(db.ledger)
                            && NobodyReady(old(db.ledger), db.hosts, skip, now, maxHosts)
      ensures job.Some? ==> IsNextJob(old(db.ledger), db.hosts, skip, now, maxHosts, popped)
                            && IsPop(old(db.ledger), db.ledger, popped, job.value)
    {
      popped := 0;
      var cursor: Option<Key> := None;
      var examined := 0;
      ghost var last: Option<Host> := None;
      while true
        invariant Valid() && db.ledger == old(db.ledger)
        invariant cursor == CursorOf(last) && (last.Some? ==> NulFree(last.value))
        invariant examined == |Seen(QueuedHosts(db.ledger), last)|
        invariant NoneReady(db.ledger, db.hosts, skip, now, last)
        decreases |db.pending|, |Ahead(db.pending, cursor)|
      {
        if examined >= maxHosts {
          LimitReached(db.ledger, db.hosts, skip, now, maxHosts, last);
          return None, popped;
        }
        var visit;
        visit, popped := Visit(cursor, last, now, maxHosts, skip);
        match visit {
          case Exhausted => return None, popped;
          case Dropped =>
          case Passed(host) =>
            cursor, last := Some(CursorAfter(host)), Some(host);
            examined := examined + 1;
          case Found(found) => return Some(found), popped;
        }
      }
    }

    /** Records when the host may be contacted again; the host counter stays right exactly if the host is known. */
    method DeferHost(host: Host, until: int, fetchedAt: int)
      requires Valid()
      modifies db
      ensures Consistent()
      ensures db.hosts == old(db.hosts)[host := HostState(until, fetchedAt)]
      ensures db.ledger == old(db.ledger) && db.pending == old(db.pending)
      ensures HostsExact() <==> host in old(db.hosts)
    {
      assert host in db.hosts ==> db.hosts[host := HostState(until, fetchedAt)].Keys == db.hosts.Keys;
      assert host !in db.hosts ==> db.hosts[host := HostState(until, fetchedAt)].Keys == db.hosts.Keys + {host};
      db.hosts := db.hosts[host := HostState(until, fetchedAt)];
    }
  }
}
