/**
 Keys of the frontier: host, a zero byte, the sequence number big-endian. The order
 of the keys groups them by host and, within a host, keeps insertion order; the
 cursor after a host skips all of that host's keys and nobody else's.
 */
module FrontierKeys {
  import opened Basics
  import opened Bytes

  type Host = seq<Byte>
  type Key = seq<Byte>

  const SEQUENCE_BYTES: nat := 8
  /** One more than the largest 64-bit sequence number. */
  const SEQUENCE_LIMIT: nat := 0x1_0000_0000_0000_0000

  predicate NulFree(host: Host) {
    0 !in host
  }

  function KeyOf(host: Host, sequence: nat): Key {
    host + ([0] + BigEndian(sequence, SEQUENCE_BYTES))
  }

  /** The host of a key: everything before the first zero byte. */
  function HostOfKey(key: Key): (host: Option<Host>)
    ensures host.None? <==> 0 !in key
  {
    if key == [] then None
    else if key[0] == 0 then Some([])
    else
      var rest := HostOfKey(key[1..]);
      if rest.None? then None else Some([key[0]] + rest.value)
  }

  function CursorAfter(host: Host): Key {
    host + [1]
  }

  lemma SequencesFit()
    ensures Capacity(SEQUENCE_BYTES) == SEQUENCE_LIMIT
  {
  }

  lemma {:induction false} HostRoundTrip(host: Host, sequence: nat)
    requires NulFree(host)
    ensures HostOfKey(KeyOf(host, sequence)) == Some(host)
  {
    if host != [] {
      assert KeyOf(host, sequence)[1..] == KeyOf(host[1..], sequence);
      HostRoundTrip(host[1..], sequence);
      assert host == [host[0]] + host[1..];
    }
  }

  /** Within a host keys are ordered by sequence number. */
  lemma SameHostOrder(host: Host, s: nat, t: nat)
    requires s < SEQUENCE_LIMIT && t < SEQUENCE_LIMIT
    ensures Less(KeyOf(host, s), KeyOf(host, t)) <==> s < t
    ensures KeyOf(host, s) == KeyOf(host, t) <==> s == t
  {
    SequencesFit();
    LessAfterPrefix(host, [0] + BigEndian(s, SEQUENCE_BYTES), [0] + BigEndian(t, SEQUENCE_BYTES));
    LessAfterPrefix([0], BigEndian(s, SEQUENCE_BYTES), BigEndian(t, SEQUENCE_BYTES));
    BigEndianIsOrdered(s, t, SEQUENCE_BYTES);
    if KeyOf(host, s) == KeyOf(host, t) {
      assert KeyOf(host, s)[|host| + 1..] == BigEndian(s, SEQUENCE_BYTES);
      assert KeyOf(host, t)[|host| + 1..] == BigEndian(t, SEQUENCE_BYTES);
    }
  }

  /** Across hosts keys are ordered by host, even when one host is a prefix of the other. */
  lemma {:induction false} OtherHostOrder(g: Host, h: Host, s: nat, t: nat)
    requires NulFree(g) && NulFree(h) && g != h
    ensures Less(KeyOf(g, s), KeyOf(h, t)) <==> Less(g, h)
  {
    if g == [] || h == [] || g[0] != h[0] {
    } else {
      assert KeyOf(g, s)[1..] == KeyOf(g[1..], s) && KeyOf(h, t)[1..] == KeyOf(h[1..], t);
      assert g == [g[0]] + g[1..] && h == [h[0]] + h[1..];
      OtherHostOrder(g[1..], h[1..], s, t);
    }
  }

  /** The keys at or after the cursor of `h` are exactly those of the hosts after `h`. */
  lemma {:induction false} CursorSkipsHost(g: Host, h: Host, s: nat)
    requires NulFree(g) && NulFree(h)
    ensures AtLeast(KeyOf(g, s), CursorAfter(h)) <==> Less(h, g)
  {
    if g == [] || h == [] || g[0] != h[0] {
      if h == [] && g != [] {
        assert g[0] in g && CursorAfter(h) == [1] && CursorAfter(h)[1..] == [];
        assert !Less(KeyOf(g, s)[1..], []);
      }
    } else {
      assert KeyOf(g, s)[1..] == KeyOf(g[1..], s) && CursorAfter(h)[1..] == CursorAfter(h[1..]);
      CursorSkipsHost(g[1..], h[1..], s);
    }
  }

  lemma KeyIsInjective(g: Host, h: Host, s: nat, t: nat)
    requires NulFree(g) && NulFree(h) && s < SEQUENCE_LIMIT && t < SEQUENCE_LIMIT
    requires KeyOf(g, s) == KeyOf(h, t)
    ensures g == h && s == t
  {
    HostRoundTrip(g, s);
    HostRoundTrip(h, t);
    SameHostOrder(g, s, t);
  }

  /** The cursor after a key's host lies after that key, whatever the key. */
  lemma {:induction false} CursorPassesKey(key: Key)
    requires HostOfKey(key).Some?
    ensures Less(key, CursorAfter(HostOfKey(key).value))
  {
    if key[0] != 0 {
      var host := HostOfKey(key).value;
      assert CursorAfter(host)[1..] == CursorAfter(HostOfKey(key[1..]).value);
      CursorPassesKey(key[1..]);
    }
  }
}
