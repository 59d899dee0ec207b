/**
 When visits of one host begin and end, and the spacing between them: what follows when
 a visit begins only with fewer than `limit` in flight and after the deferral of the last.
 */
module Spacing {
  import opened Basics
  import opened FrontierKeys
  import opened Politeness

  /** A visit begins; or its outcome is taken, and its host left alone for `delay` milliseconds. */
  datatype Event = Started(host: Host, at: int) | Absorbed(host: Host, at: int, delay: Millis)

  /** Visits of a host that began and did not end. */
  ghost function Outstanding(events: seq<Event>, host: Host): int {
    if events == [] then 0
    else
      var last := events[|events| - 1];
      Outstanding(events[..|events| - 1], host)
      + if last.host != host then 0 else if last.Started? then 1 else -1
  }

  /** Until when the host is to be left alone, since a visit of it ended. */
  ghost function LastUntil(events: seq<Event>, host: Host): Option<int> {
    if events == [] then None
    else
      var last := events[|events| - 1];
      if last.Absorbed? && last.host == host then Some(NextAllowedAt(last.at, last.delay))
      else LastUntil(events[..|events| - 1], host)
  }

  /** The event may follow these: a visit has room and is not early, a delay is not below the floor. */
  ghost predicate MayFollow(events: seq<Event>, event: Event, limit: nat, floor: nat) {
    match event
    case Started(host, at) =>
      && 0 <= Outstanding(events, host) < limit
      && (LastUntil(events, host).Some? ==> LastUntil(events, host).value <= at)
    case Absorbed(_, _, delay) => floor <= delay
  }

  ghost predicate AreOrderly(events: seq<Event>, limit: nat, floor: nat) {
    events != [] ==>
      && AreOrderly(events[..|events| - 1], limit, floor)
      && MayFollow(events[..|events| - 1], events[|events| - 1], limit, floor)
  }

  lemma OneMoreEvent(events: seq<Event>, event: Event, limit: nat, floor: nat)
    requires AreOrderly(events, limit, floor) && MayFollow(events, event, limit, floor)
    ensures AreOrderly(events + [event], limit, floor)
    ensures forall host :: Outstanding(events + [event], host)
                           == Outstanding(events, host)
                              + if event.host != host then 0 else if event.Started? then 1 else -1
    ensures forall host :: LastUntil(events + [event], host)
                           == if event.Absorbed? && event.host == host then Some(NextAllowedAt(event.at, event.delay))
                              else LastUntil(events, host)
  {
    assert (events + [event])[..|events|] == events;
  }

  // -------------------------------------------------------------------------
  // Spacing

  /** Between two visits of a host the first ended, and the second begins no earlier than that allows. */
  ghost predicate AreSpaced(events: seq<Event>) {
    forall i, j :: (&& 0 <= i < j < |events| && events[i].Started? && events[j].Started?
                    && events[i].host == events[j].host) ==>
                     exists k :: i < k < j && EndsBefore(events, k, j)
  }

  /** Event `k` ends a visit of the host that event `j` visits, in time. */
  ghost predicate EndsBefore(events: seq<Event>, k: nat, j: nat)
    requires k < |events| && j < |events|
  {
    events[k].Absorbed? && events[k].host == events[j].host
      && NextAllowedAt(events[k].at, events[k].delay) <= events[j].at
  }

  lemma {:induction false} OrderlyBefore(events: seq<Event>, j: nat, limit: nat, floor: nat)
    requires AreOrderly(events, limit, floor) && j < |events|
    ensures MayFollow(events[..j], events[j], limit, floor)
    decreases |events|
  {
    var n := |events| - 1;
    if j < n {
      OrderlyBefore(events[..n], j, limit, floor);
      assert events[..n][..j] == events[..j];
    }
  }

  /** The last visit of a host to end after `i`; without one, none less is in flight than then. */
  lemma {:induction false} LastAbsorbed(events: seq<Event>, i: nat, host: Host) returns (k: Option<nat>)
    requires i <= |events|
    ensures k.None? ==> Outstanding(events, host) >= Outstanding(events[..i], host)
    ensures k.Some? ==> i <= k.value < |events| && events[k.value].Absorbed? && events[k.value].host == host
                        && LastUntil(events, host) == Some(NextAllowedAt(events[k.value].at, events[k.value].delay))
    decreases |events|
  {
    if i == |events| {
      assert events[..i] == events;
      k := None;
    } else {
      var n := |events| - 1;
      if events[n].Absorbed? && events[n].host == host {
        k := Some(n);
      } else {
        k := LastAbsorbed(events[..n], i, host);
        assert events[..n][..i] == events[..i];
      }
    }
  }

  /** One visit of a host at a time: visits are spaced. */
  lemma OneAtATimeIsSpaced(events: seq<Event>, floor: nat)
    requires AreOrderly(events, 1, floor)
    ensures AreSpaced(events)
  {
    forall i, j | 0 <= i < j < |events| && events[i].Started? && events[j].Started? && events[i].host == events[j].host
      ensures exists k :: i < k < j && EndsBefore(events, k, j)
    {
      var host := events[i].host;
      OrderlyBefore(events, i, 1, floor);
      OrderlyBefore(events, j, 1, floor);
      assert events[..i + 1][..i] == events[..i];
      var k := LastAbsorbed(events[..j], i + 1, host);
      assert events[..j][..i + 1] == events[..i + 1];
      assert k.Some? && EndsBefore(events, k.value, j);
    }
  }

  ghost predicate ClockIsMonotone(events: seq<Event>) {
    forall i, j :: 0 <= i < j < |events| ==> events[i].at <= events[j].at
  }

  /** No delay is so long, nor the clock so late, that a deferral wraps or saturates. */
  ghost predicate DelaysFit(events: seq<Event>) {
    forall k :: 0 <= k < |events| && events[k].Absorbed? ==>
                  0 <= events[k].at && events[k].delay < I64_LIMIT && events[k].at + events[k].delay < I64_LIMIT
  }

  /** Spaced visits of one host begin at least the default delay apart. */
  lemma SpacedByDelay(events: seq<Event>, limit: nat, floor: nat, i: nat, j: nat)
    requires AreOrderly(events, limit, floor) && AreSpaced(events) && ClockIsMonotone(events) && DelaysFit(events)
    requires i < j < |events| && events[i].Started? && events[j].Started? && events[i].host == events[j].host
    ensures events[i].at + floor <= events[j].at
  {
    var k :| i < k < j && EndsBefore(events, k, j);
    OrderlyBefore(events, k, limit, floor);
    DeferralIsForwardIffDelayFits(events[k].at, events[k].delay);
  }
}
