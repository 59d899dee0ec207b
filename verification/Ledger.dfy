/**
 What the frontier's queue must hold: the jobs ever pushed, numbered from 1, less
 those popped. The code keeps neither list; they say what its entries mean.
 */
module Ledger {
  import opened Basics
  import opened FrontierKeys

  datatype Job = Job(url: string, depth: nat)

  datatype QueuedJob = QueuedJob(host: Host, job: Job)

  /** Every push in order, and the sequence numbers popped, in order. */
  datatype Ledger = Ledger(pushes: seq<QueuedJob>, pops: seq<nat>)

  ghost predicate IsSequence(l: Ledger, s: nat) {
    1 <= s <= |l.pushes|
  }

  ghost function HostOf(l: Ledger, s: nat): Host
    requires IsSequence(l, s)
  {
    l.pushes[s - 1].host
  }

  /** The key job `s` is queued under. */
  ghost function EntryKey(l: Ledger, s: nat): Key
    requires IsSequence(l, s)
  {
    KeyOf(HostOf(l, s), s)
  }

  /** Sequence numbers of jobs pushed and not popped. */
  ghost predicate IsQueued(l: Ledger, s: nat) {
    IsSequence(l, s) && s !in l.pops
  }

  ghost predicate WellFormed(l: Ledger) {
    && |l.pushes| < SEQUENCE_LIMIT
    && (forall i :: 0 <= i < |l.pushes| ==> NulFree(l.pushes[i].host))
    && (forall s :: s in l.pops ==> IsSequence(l, s))
    && (forall i, j :: 0 <= i < j < |l.pops| ==> l.pops[i] != l.pops[j])
  }

  /** Each host's jobs are popped lowest sequence number first. */
  ghost predicate Fifo(l: Ledger)
    requires WellFormed(l)
  {
    && (forall s, t :: s in l.pops && IsSequence(l, t) && t < s && HostOf(l, t) == HostOf(l, s) ==> t in l.pops)
    && (forall i, j :: 0 <= i < j < |l.pops| && HostOf(l, l.pops[i]) == HostOf(l, l.pops[j]) ==> l.pops[i] < l.pops[j])
  }

  /** `pending` holds exactly the queued jobs, under their keys; other keys have no zero byte. */
  ghost predicate Holds(pending: map<Key, Job>, l: Ledger)
    requires WellFormed(l)
  {
    && (forall s :: IsQueued(l, s) ==> EntryKey(l, s) in pending && pending[EntryKey(l, s)] == l.pushes[s - 1].job)
    && (forall key :: key in pending && HostOfKey(key).Some? ==> exists s :: IsQueued(l, s) && key == EntryKey(l, s))
  }

  lemma EntryKeyIsInjective(l: Ledger, s: nat, t: nat)
    requires WellFormed(l) && IsSequence(l, s) && IsSequence(l, t) && EntryKey(l, s) == EntryKey(l, t)
    ensures s == t
  {
    KeyIsInjective(HostOf(l, s), HostOf(l, t), s, t);
  }

  lemma EntryKeyHost(l: Ledger, s: nat)
    requires WellFormed(l) && IsSequence(l, s)
    ensures HostOfKey(EntryKey(l, s)) == Some(HostOf(l, s))
  {
    HostRoundTrip(HostOf(l, s), s);
  }

  // -------------------------------------------------------------------------
  // Pushing and popping

  function Pushed(l: Ledger, p: QueuedJob): Ledger {
    l.(pushes := l.pushes + [p])
  }

  function Popped(l: Ledger, s: nat): Ledger {
    l.(pops := l.pops + [s])
  }

  /** Pushing numbers the job next; earlier jobs keep their numbers and keys. */
  lemma PushExtends(l: Ledger, p: QueuedJob, s: nat)
    requires WellFormed(l) && NulFree(p.host) && |l.pushes| + 1 < SEQUENCE_LIMIT
    ensures WellFormed(Pushed(l, p)) && (Fifo(l) ==> Fifo(Pushed(l, p)))
    ensures IsQueued(Pushed(l, p), s) <==> IsQueued(l, s) || s == |l.pushes| + 1
    ensures IsSequence(l, s) ==> EntryKey(Pushed(l, p), s) == EntryKey(l, s)
    ensures EntryKey(Pushed(l, p), |l.pushes| + 1) == KeyOf(p.host, |l.pushes| + 1)
  {
    var more := Pushed(l, p);
    forall t | t in l.pops
      ensures IsSequence(more, t) && HostOf(more, t) == HostOf(l, t)
    {
    }
  }

  /** A new sequence number is queued next, under a key no entry has. */
  lemma PushKeepsLedger(pending: map<Key, Job>, l: Ledger, p: QueuedJob)
    requires WellFormed(l) && Fifo(l) && Holds(pending, l)
    requires NulFree(p.host) && |l.pushes| + 1 < SEQUENCE_LIMIT
    ensures var more, key := Pushed(l, p), KeyOf(p.host, |l.pushes| + 1);
            && key !in pending
            && WellFormed(more) && Fifo(more) && Holds(pending[key := p.job], more)
  {
    var more, n := Pushed(l, p), |l.pushes| + 1;
    var key := KeyOf(p.host, n);
    PushExtends(l, p, n);
    EntryKeyHost(more, n);
    if key in pending {
      var s :| IsQueued(l, s) && key == EntryKey(l, s);
      PushExtends(l, p, s);
      EntryKeyIsInjective(more, s, n);
    }
    var after := pending[key := p.job];
    forall s | IsQueued(more, s)
      ensures EntryKey(more, s) in after && after[EntryKey(more, s)] == more.pushes[s - 1].job
    {
      PushExtends(l, p, s);
    }
    forall k | k in after && HostOfKey(k).Some?
      ensures exists s :: IsQueued(more, s) && k == EntryKey(more, s)
    {
      if k == key {
        assert IsQueued(more, n);
      } else {
        var s :| IsQueued(l, s) && k == EntryKey(l, s);
        PushExtends(l, p, s);
      }
    }
  }

  lemma PopIsWellFormed(l: Ledger, s: nat)
    requires WellFormed(l) && IsQueued(l, s)
    ensures WellFormed(Popped(l, s))
    ensures forall t :: t in Popped(l, s).pops <==> t in l.pops || t == s
    ensures forall t :: IsSequence(l, t) ==> HostOf(Popped(l, s), t) == HostOf(l, t)
    ensures forall t :: IsQueued(Popped(l, s), t) <==> IsQueued(l, t) && t != s
  {
    forall i | 0 <= i < |l.pops|
      ensures l.pops[i] != s
    {
      assert l.pops[i] in l.pops;
    }
  }

  /** Popping the lowest queued job of its host keeps the order of pops. */
  lemma PopIsFifo(l: Ledger, s: nat)
    requires WellFormed(l) && Fifo(l) && IsQueued(l, s)
    requires forall t :: IsQueued(l, t) && HostOf(l, t) == HostOf(l, s) ==> s <= t
    ensures WellFormed(Popped(l, s)) && Fifo(Popped(l, s))
  {
    PopIsWellFormed(l, s);
    var less := Popped(l, s);
    forall x, t | x in less.pops && IsSequence(less, t) && t < x && HostOf(less, t) == HostOf(less, x)
      ensures t in less.pops
    {
      assert x == s ==> !IsQueued(l, t);
    }
    forall i | 0 <= i < |l.pops| && HostOf(l, l.pops[i]) == HostOf(l, s)
      ensures l.pops[i] < s
    {
      assert l.pops[i] in l.pops;
    }
  }

  /** Popping the lowest queued job of a host removes its entry and nothing else. */
  lemma PopKeepsLedger(pending: map<Key, Job>, l: Ledger, s: nat)
    requires WellFormed(l) && Fifo(l) && Holds(pending, l) && IsQueued(l, s)
    requires forall t :: IsQueued(l, t) && HostOf(l, t) == HostOf(l, s) ==> s <= t
    ensures var less := Popped(l, s);
            WellFormed(less) && Fifo(less) && Holds(pending - {EntryKey(l, s)}, less)
  {
    var less, key := Popped(l, s), EntryKey(l, s);
    PopIsWellFormed(l, s);
    PopIsFifo(l, s);
    forall t | IsQueued(less, t)
      ensures EntryKey(less, t) == EntryKey(l, t) != key
    {
      if EntryKey(l, t) == key {
        EntryKeyIsInjective(l, t, s);
      }
    }
    forall k | k in pending - {key} && HostOfKey(k).Some?
      ensures exists t :: IsQueued(less, t) && k == EntryKey(less, t)
    {
      var t :| IsQueued(l, t) && k == EntryKey(l, t);
      assert IsQueued(less, t);
    }
  }

  /** Dropping a key without a zero byte changes nothing. */
  lemma DropKeepsLedger(pending: map<Key, Job>, l: Ledger, key: Key)
    requires WellFormed(l) && Holds(pending, l) && HostOfKey(key).None?
    ensures Holds(pending - {key}, l)
  {
    forall s | IsQueued(l, s)
      ensures EntryKey(l, s) != key
    {
      EntryKeyHost(l, s);
    }
  }

  // -------------------------------------------------------------------------
  // Conservation and order, read off the ledger

  /** Sequence numbers pushed for a host among the first `n`, in order. */
  ghost function PushesOf(l: Ledger, host: Host, n: nat): seq<nat>
    requires n <= |l.pushes|
  {
    if n == 0 then [] else PushesOf(l, host, n - 1) + if l.pushes[n - 1].host == host then [n] else []
  }

  /** Sequence numbers popped for a host among the first `n` pops, in order. */
  ghost function PopsOf(l: Ledger, host: Host, n: nat): seq<nat>
    requires WellFormed(l) && n <= |l.pops|
  {
    if n == 0 then [] else PopsOf(l, host, n - 1) + if HostOf(l, l.pops[n - 1]) == host then [l.pops[n - 1]] else []
  }

  ghost predicate Increasing(a: seq<nat>) {
    forall i, j :: 0 <= i < j < |a| ==> a[i] < a[j]
  }

  lemma {:induction false} PushesOfMeaning(l: Ledger, host: Host, n: nat)
    requires n <= |l.pushes|
    ensures Increasing(PushesOf(l, host, n))
    ensures forall s :: s in PushesOf(l, host, n) <==> 1 <= s <= n && l.pushes[s - 1].host == host
  {
    if n > 0 {
      PushesOfMeaning(l, host, n - 1);
      var before := PushesOf(l, host, n - 1);
      forall i | 0 <= i < |before|
        ensures before[i] < n
      {
        assert before[i] in before;
      }
    }
  }

  lemma {:induction false} PopsOfMeaning(l: Ledger, host: Host, n: nat)
    requires WellFormed(l) && Fifo(l) && n <= |l.pops|
    ensures Increasing(PopsOf(l, host, n))
    ensures forall s :: s in PopsOf(l, host, n) <==> s in l.pops[..n] && HostOf(l, s) == host
  {
    if n > 0 {
      PopsOfMeaning(l, host, n - 1);
      var before := PopsOf(l, host, n - 1);
      assert l.pops[..n] == l.pops[..n - 1] + [l.pops[n - 1]];
      if HostOf(l, l.pops[n - 1]) == host {
        forall i | 0 <= i < |before|
          ensures before[i] < l.pops[n - 1]
        {
          assert before[i] in before;
          var k :| 0 <= k < n - 1 && l.pops[k] == before[i];
        }
      }
    }
  }

  lemma IndexBelow(a: seq<nat>, n: nat, x: nat) returns (j: nat)
    requires n < |a| && Increasing(a) && x in a && x < a[n]
    ensures j < n && a[j] == x
  {
    j :| 0 <= j < |a| && a[j] == x;
  }

  /** An increasing sequence closed downwards in another is a prefix of it. */
  lemma {:induction false} ClosedIsPrefix(a: seq<nat>, b: seq<nat>, n: nat)
    requires n <= |a| && Increasing(a) && Increasing(b)
    requires forall i :: 0 <= i < |a| ==> a[i] in b
    requires forall k, i :: 0 <= k < |b| && 0 <= i < |a| && b[k] < a[i] ==> b[k] in a
    ensures n <= |b| && forall i :: 0 <= i < n ==> a[i] == b[i]
  {
    if n > 0 {
      var last := n - 1;
      ClosedIsPrefix(a, b, last);
      var k :| 0 <= k < |b| && b[k] == a[last];
      if last < k {
        var j := IndexBelow(a, last, b[last]);
        assert false;
      }
    }
  }

  /** Each host's pops are a prefix of its pushes, in order. */
  lemma PopsArePrefixOfPushes(l: Ledger, host: Host)
    requires WellFormed(l) && Fifo(l)
    ensures PopsOf(l, host, |l.pops|) <= PushesOf(l, host, |l.pushes|)
  {
    PushesOfMeaning(l, host, |l.pushes|);
    PopsOfMeaning(l, host, |l.pops|);
    assert l.pops[..|l.pops|] == l.pops;
    var a, b := PopsOf(l, host, |l.pops|), PushesOf(l, host, |l.pushes|);
    forall i | 0 <= i < |a|
      ensures a[i] in b
    {
      assert a[i] in a;
    }
    forall k, i | 0 <= k < |b| && 0 <= i < |a| && b[k] < a[i]
      ensures b[k] in a
    {
      assert a[i] in a && b[k] in b;
    }
    ClosedIsPrefix(a, b, |a|);
  }

  // -------------------------------------------------------------------------
  // Nothing is lost and nothing is made up

  /** The numbers from 1 to `n`. */
  ghost function Numbers(n: nat): set<nat> {
    if n == 0 then {} else Numbers(n - 1) + {n}
  }

  lemma {:induction false} NumbersMeaning(n: nat)
    ensures |Numbers(n)| == n && forall s :: s in Numbers(n) <==> 1 <= s <= n
  {
    if n > 0 {
      NumbersMeaning(n - 1);
    }
  }

  ghost function Elements(a: seq<nat>): set<nat> {
    set s | s in a
  }

  lemma {:induction false} DistinctSize(a: seq<nat>)
    requires forall i, j :: 0 <= i < j < |a| ==> a[i] != a[j]
    ensures |Elements(a)| == |a|
  {
    if a == [] {
      assert Elements(a) == {};
    } else {
      var n := |a| - 1;
      DistinctSize(a[..n]);
      assert a == a[..n] + [a[n]];
      assert Elements(a) == Elements(a[..n]) + {a[n]};
    }
  }

  ghost function KeysOf(l: Ledger, numbers: set<nat>): set<Key>
    requires forall s :: s in numbers ==> IsSequence(l, s)
  {
    set s | s in numbers :: EntryKey(l, s)
  }

  lemma {:induction false} KeysOfSize(l: Ledger, numbers: set<nat>)
    requires WellFormed(l) && forall s :: s in numbers ==> IsSequence(l, s)
    ensures |KeysOf(l, numbers)| == |numbers|
  {
    if numbers != {} {
      var s :| s in numbers;
      var rest := numbers - {s};
      KeysOfSize(l, rest);
      if EntryKey(l, s) in KeysOf(l, rest) {
        var t :| t in rest && EntryKey(l, t) == EntryKey(l, s);
        EntryKeyIsInjective(l, s, t);
      }
      assert KeysOf(l, numbers) == KeysOf(l, rest) + {EntryKey(l, s)};
    }
  }

  /** Keys that `push` can have written. */
  ghost function ProperKeys(pending: map<Key, Job>): set<Key> {
    set key | key in pending && HostOfKey(key).Some?
  }

  lemma QueuedKeysAreProper(pending: map<Key, Job>, l: Ledger, queued: set<nat>)
    requires WellFormed(l) && Holds(pending, l)
    requires forall s :: s in queued <==> IsQueued(l, s)
    ensures KeysOf(l, queued) == ProperKeys(pending)
  {
    forall s | s in queued
      ensures EntryKey(l, s) in ProperKeys(pending)
    {
      EntryKeyHost(l, s);
    }
    forall key | key in ProperKeys(pending)
      ensures key in KeysOf(l, queued)
    {
      var s :| IsQueued(l, s) && key == EntryKey(l, s);
      assert s in queued;
    }
  }

  lemma QueuedCount(l: Ledger) returns (queued: set<nat>)
    requires WellFormed(l)
    ensures forall s :: s in queued <==> IsQueued(l, s)
    ensures |l.pushes| == |l.pops| + |queued|
  {
    queued := Numbers(|l.pushes|) - Elements(l.pops);
    NumbersMeaning(|l.pushes|);
    DistinctSize(l.pops);
    assert Numbers(|l.pushes|) == queued + Elements(l.pops);
  }

  /** Jobs pushed are exactly those popped and those queued. */
  lemma PushedIsPoppedPlusQueued(pending: map<Key, Job>, l: Ledger)
    requires WellFormed(l) && Holds(pending, l)
    ensures |l.pushes| == |l.pops| + |ProperKeys(pending)|
  {
    var queued := QueuedCount(l);
    QueuedKeysAreProper(pending, l, queued);
    KeysOfSize(l, queued);
  }
}
