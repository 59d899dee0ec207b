/**
 The link graph of one drain: interned URLs, bounded adjacency that a later record of
 the same page replaces, and the count of links arriving from other hosts.
 */
module LinkGraph {
  import opened Basics
  import opened Text
  import PageRank

  datatype Limits = Limits(maxNodes: nat, maxEdges: nat)

  type Adjacency = seq<seq<nat>>

  /** The lowercased host of a URL: what stands between the first two `://` up to a path, query or fragment. */
  function HostOf(url: string): Option<string> {
    var at := Separator(url);
    if at == |url| then None
    else
      var rest := url[at + 3..];
      var authority := rest[..Separator(rest)];
      var host := authority[..Min(IndexOf(authority, '/'), Min(IndexOf(authority, '?'), IndexOf(authority, '#')))];
      if host == "" then None else Some(AsciiLower(host))
  }

  /** Where the first `://` begins, or the length when there is none. */
  function Separator(s: string): (at: nat)
    ensures at <= |s| && (at < |s| ==> at + 3 <= |s|)
  {
    if |s| < 3 then |s| else if s[..3] == "://" then 0 else 1 + Separator(s[1..])
  }

  // -------------------------------------------------------------------------
  // The graph as a value

  /** `ids` and `urls` are mutually inverse. */
  ghost predicate Interned(ids: map<string, nat>, urls: seq<string>) {
    && (forall url :: url in ids ==> ids[url] < |urls| && urls[ids[url]] == url)
    && (forall i :: 0 <= i < |urls| ==> urls[i] in ids && ids[urls[i]] == i)
  }

  /** The links of one node: to other nodes of the table, none twice. */
  ghost predicate IsRow(row: seq<nat>, node: nat, nodes: nat) {
    && (forall k :: 0 <= k < |row| ==> row[k] < nodes && row[k] != node)
    && (forall j, k :: 0 <= j < k < |row| ==> row[j] != row[k])
  }

  ghost predicate IsAdjacency(out: Adjacency, nodes: nat) {
    |out| == nodes && forall i :: 0 <= i < nodes ==> IsRow(out[i], i, nodes)
  }

  /** Number of links of the first `n` nodes. */
  ghost function Links(out: Adjacency, n: nat): nat
    requires n <= |out|
  {
    if n == 0 then 0 else Links(out, n - 1) + |out[n - 1]|
  }

  lemma {:induction false} SameRowsSameLinks(a: Adjacency, b: Adjacency, n: nat)
    requires n <= |a| && n <= |b| && forall i :: 0 <= i < n ==> a[i] == b[i]
    ensures Links(a, n) == Links(b, n)
  {
    if n > 0 {
      SameRowsSameLinks(a, b, n - 1);
    }
  }

  lemma {:induction false} ReplacingRow(out: Adjacency, i: nat, row: seq<nat>, n: nat)
    requires i < n <= |out|
    ensures Links(out[i := row], n) + |out[i]| == Links(out, n) + |row|
  {
    if i < n - 1 {
      ReplacingRow(out, i, row, n - 1);
    } else {
      SameRowsSameLinks(out, out[i := row], i);
    }
  }

  /** The links of a page become these: the distinct targets of a prefix of its list, itself left out. */
  ghost function Targets(ids: map<string, nat>, source: nat, links: seq<string>, n: nat): seq<nat>
    requires n <= |links|
  {
    if n == 0 then []
    else if links[n - 1] !in ids then Targets(ids, source, links, n - 1)
    else
      var before := Targets(ids, source, links, n - 1);
      var target := ids[links[n - 1]];
      if target == source || target in before then before else before + [target]
  }

  /** Known URLs keep their nodes. */
  ghost predicate Kept(ids: map<string, nat>, more: map<string, nat>) {
    forall url :: url in ids ==> url in more && more[url] == ids[url]
  }

  /** Targets do not depend on URLs interned later. */
  lemma {:induction false} TargetsStay(ids: map<string, nat>, more: map<string, nat>, source: nat,
                                       links: seq<string>, n: nat)
    requires n <= |links| && forall k :: 0 <= k < n ==> links[k] in ids
    requires Kept(ids, more)
    ensures Targets(more, source, links, n) == Targets(ids, source, links, n)
  {
    if n > 0 {
      TargetsStay(ids, more, source, links, n - 1);
    }
  }

  /** The targets are other nodes of the table, none twice. */
  lemma {:induction false} TargetsFormRow(ids: map<string, nat>, urls: seq<string>, source: nat, links: seq<string>,
                                          n: nat)
    requires n <= |links| && Interned(ids, urls)
    ensures IsRow(Targets(ids, source, links, n), source, |urls|)
  {
    if n > 0 {
      TargetsFormRow(ids, urls, source, links, n - 1);
    }
  }

  /** The table widened to `n` nodes; the new ones have no links. */
  ghost function Widened(out: Adjacency, n: nat): (wider: Adjacency)
    requires |out| <= n
    ensures |wider| == n
    decreases n
  {
    if n == |out| then out else Widened(out, n - 1) + [[]]
  }

  lemma {:induction false} WidenedTwice(out: Adjacency, m: nat, n: nat)
    requires |out| <= m <= n
    ensures Widened(Widened(out, m), n) == Widened(out, n)
    decreases n
  {
    if m < n {
      WidenedTwice(out, m, n - 1);
    }
  }

  lemma {:induction false} WideningKeepsRows(out: Adjacency, n: nat)
    requires |out| <= n && IsAdjacency(out, |out|)
    ensures IsAdjacency(Widened(out, n), n)
    decreases n
  {
    if |out| < n {
      WideningKeepsRows(out, n - 1);
    }
  }

  lemma {:induction false} WideningKeepsLinks(out: Adjacency, n: nat)
    requires |out| <= n
    ensures Links(Widened(out, n), n) == Links(out, |out|)
    decreases n
  {
    if |out| < n {
      WideningKeepsLinks(out, n - 1);
      SameRowsSameLinks(Widened(out, n), Widened(out, n - 1), n - 1);
    }
  }

  /** The URLs known once the first `n` links of a page were interned. */
  ghost function KnownAfter(known: set<string>, links: seq<string>, n: nat): set<string>
    requires n <= |links|
  {
    if n == 0 then known else KnownAfter(known, links, n - 1) + {links[n - 1]}
  }

  lemma {:induction false} LinksAreKnown(known: set<string>, links: seq<string>, n: nat)
    requires n <= |links|
    ensures forall k :: 0 <= k < n ==> links[k] in KnownAfter(known, links, n)
  {
    if n > 0 {
      LinksAreKnown(known, links, n - 1);
    }
  }

  function NewNode(ids: map<string, nat>, url: string): nat {
    if url in ids then 0 else 1
  }

  /** How many of the first `n` links of a page get a node of their own when `known` have one. */
  ghost function NewNodes(known: set<string>, links: seq<string>, n: nat): nat
    requires n <= |links|
  {
    if n == 0 then 0
    else NewNodes(known, links, n - 1) + if links[n - 1] in KnownAfter(known, links, n - 1) then 0 else 1
  }

  /** How many different pages the first `n` links of a page lead to, the page itself not counted. */
  ghost function TargetCount(url: string, links: seq<string>, n: nat): nat
    requires n <= |links|
  {
    if n == 0 then 0
    else TargetCount(url, links, n - 1) + if links[n - 1] == url || links[n - 1] in links[..n - 1] then 0 else 1
  }

  lemma {:induction false} TargetMeaning(ids: map<string, nat>, source: nat, links: seq<string>, n: nat, target: nat)
    requires n <= |links| && forall k :: 0 <= k < n ==> links[k] in ids
    ensures target in Targets(ids, source, links, n)
            <==> target != source && exists k :: 0 <= k < n && ids[links[k]] == target
  {
    if n > 0 {
      TargetMeaning(ids, source, links, n - 1, target);
    }
  }

  /** Each page linked to is one target. */
  lemma {:induction false} TargetsAreCounted(ids: map<string, nat>, urls: seq<string>, url: string,
                                             links: seq<string>, n: nat)
    requires Interned(ids, urls) && url in ids && n <= |links| && forall k :: 0 <= k < n ==> links[k] in ids
    ensures |Targets(ids, ids[url], links, n)| == TargetCount(url, links, n)
  {
    if n > 0 {
      var target := ids[links[n - 1]];
      TargetsAreCounted(ids, urls, url, links, n - 1);
      TargetMeaning(ids, ids[url], links, n - 1, target);
      if links[n - 1] in links[..n - 1] {
        var k :| 0 <= k < n - 1 && links[..n - 1][k] == links[n - 1];
        assert ids[links[k]] == target;
      }
      if k :| 0 <= k < n - 1 && ids[links[k]] == target {
        assert links[..n - 1][k] == urls[target];
      }
      assert urls[target] == links[n - 1] && urls[ids[url]] == url;
    }
  }

  // -------------------------------------------------------------------------
  // The bounds

  /** Whether the bounds leave room for another link. */
  predicate HasRoom(limits: Limits, edges: nat, nodes: nat) {
    edges < limits.maxEdges && nodes < limits.maxNodes
  }

  /** Whether there is room once the first `n` links of a page were read. */
  ghost predicate HadRoom(limits: Limits, edges: nat, nodes: nat, known: set<string>, url: string,
                          links: seq<string>, n: nat)
    requires n <= |links|
  {
    HasRoom(limits, edges + TargetCount(url, links, n), nodes + NewNodes(known, links, n))
  }

  /** The number of links read: the first that finds no room ends the reading. */
  ghost predicate IsRead(limits: Limits, edges: nat, nodes: nat, known: set<string>, url: string, links: seq<string>,
                         read: nat) {
    && read <= |links|
    && (read > 0 ==> HadRoom(limits, edges, nodes, known, url, links, read - 1))
    && (read < |links| ==> !HadRoom(limits, edges, nodes, known, url, links, read))
  }

  lemma {:induction false} RoomShrinks(limits: Limits, edges: nat, nodes: nat, known: set<string>, url: string,
                                       links: seq<string>,
                                       m: nat, n: nat)
    requires m <= n <= |links| && HadRoom(limits, edges, nodes, known, url, links, n)
    ensures HadRoom(limits, edges, nodes, known, url, links, m)
  {
    if m < n {
      RoomShrinks(limits, edges, nodes, known, url, links, m, n - 1);
    }
  }

  /** All links are read if and only if there is room for the last; which is a matter of what was known before. */
  lemma AllReadIff(limits: Limits, edges: nat, nodes: nat, known: set<string>, url: string, links: seq<string>,
                   read: nat)
    requires IsRead(limits, edges, nodes, known, url, links, read)
    ensures read == |links| <==> links == [] || HadRoom(limits, edges, nodes, known, url, links, |links| - 1)
    ensures read == 0 <==> links == [] || !HasRoom(limits, edges, nodes)
  {
    if read < |links| && HadRoom(limits, edges, nodes, known, url, links, |links| - 1) {
      RoomShrinks(limits, edges, nodes, known, url, links, read, |links| - 1);
    }
    if read > 0 {
      RoomShrinks(limits, edges, nodes, known, url, links, 0, read - 1);
    }
  }

  /** The page itself may go beyond the bound on nodes, its links never do. */
  lemma LinksStayWithinNodes(limits: Limits, edges: nat, nodes: nat, known: set<string>, url: string,
                             links: seq<string>, read: nat)
    requires IsRead(limits, edges, nodes, known, url, links, read)
    ensures nodes <= limits.maxNodes ==> nodes + NewNodes(known, links, read) <= limits.maxNodes
    ensures nodes > limits.maxNodes ==> read == 0
  {
  }

  /** How many links are read does not depend on how they are counted. */
  lemma ReadIsUnique(limits: Limits, edges: nat, nodes: nat, known: set<string>, url: string, links: seq<string>,
                     read: nat, other: nat)
    requires IsRead(limits, edges, nodes, known, url, links, read)
             && IsRead(limits, edges, nodes, known, url, links, other)
    ensures read == other
  {
    if read < other {
      RoomShrinks(limits, edges, nodes, known, url, links, read, other - 1);
    } else if other < read {
      RoomShrinks(limits, edges, nodes, known, url, links, other, read - 1);
    }
  }

  /** The links of the first `n` nodes as pairs of nodes. */
  ghost function Pairs(out: Adjacency, n: nat): set<(nat, nat)>
    requires n <= |out|
  {
    set s, t | 0 <= s < n && t in out[s] :: (s, t)
  }

  ghost function PairsFrom(source: nat, row: seq<nat>, n: nat): set<(nat, nat)>
    requires n <= |row|
  {
    set k | 0 <= k < n :: (source, row[k])
  }

  lemma {:induction false} PairsFromRow(source: nat, row: seq<nat>, n: nat)
    requires n <= |row|
    requires forall j, k :: 0 <= j < k < |row| ==> row[j] != row[k]
    ensures |PairsFrom(source, row, n)| == n
  {
    if n > 0 {
      PairsFromRow(source, row, n - 1);
      assert PairsFrom(source, row, n) == PairsFrom(source, row, n - 1) + {(source, row[n - 1])};
    }
  }

  lemma PairsOfOneMore(out: Adjacency, n: nat)
    requires n < |out|
    ensures Pairs(out, n + 1) == Pairs(out, n) + PairsFrom(n, out[n], |out[n]|)
    ensures Pairs(out, n) !! PairsFrom(n, out[n], |out[n]|)
  {
    forall s: nat, t: nat
      ensures (s, t) in Pairs(out, n + 1) <==> (s, t) in Pairs(out, n) || (s, t) in PairsFrom(n, out[n], |out[n]|)
    {
      if s == n && t in out[n] {
        var k :| 0 <= k < |out[n]| && out[n][k] == t;
      }
    }
  }

  lemma SizeOfOneMore(out: Adjacency, n: nat)
    requires n < |out|
    requires forall j, k :: 0 <= j < k < |out[n]| ==> out[n][j] != out[n][k]
    ensures |Pairs(out, n + 1)| == |Pairs(out, n)| + |out[n]|
  {
    PairsOfOneMore(out, n);
    PairsFromRow(n, out[n], |out[n]|);
  }

  /** The edge counter counts pairs of nodes: no link is stored twice. */
  lemma {:induction false} LinksArePairs(out: Adjacency, nodes: nat, n: nat)
    requires n <= |out| && forall i :: 0 <= i < n ==> IsRow(out[i], i, nodes)
    ensures |Pairs(out, n)| == Links(out, n)
  {
    if n > 0 {
      LinksArePairs(out, nodes, n - 1);
      assert IsRow(out[n - 1], n - 1, nodes);
      SizeOfOneMore(out, n - 1);
    }
  }

  // -------------------------------------------------------------------------
  // Links between hosts

  /** Whether a link enters `host` from another host. A URL without a host neither gives nor receives. */
  ghost predicate Enters(urls: seq<string>, link: (nat, nat), host: string) {
    && link.0 < |urls| && link.1 < |urls|
    && HostOf(urls[link.1]) == Some(host)
    && HostOf(urls[link.0]) != None && HostOf(urls[link.0]) != Some(host)
  }

  ghost function Entering(urls: seq<string>, links: set<(nat, nat)>, host: string): set<(nat, nat)> {
    set link | link in links && Enters(urls, link, host)
  }

  function Count(counts: map<string, nat>, host: string): nat {
    if host in counts then counts[host] else 0
  }

  /** `counts` holds, for exactly the hosts that are entered, the number of `links` entering them. */
  ghost predicate Tallies(counts: map<string, nat>, urls: seq<string>, links: set<(nat, nat)>) {
    forall host ::
      && Count(counts, host) == |Entering(urls, links, host)|
      && (host in counts <==> |Entering(urls, links, host)| > 0)
  }

  lemma OneMoreLink(urls: seq<string>, links: set<(nat, nat)>, link: (nat, nat), host: string)
    requires link !in links
    ensures |Entering(urls, links + {link}, host)|
            == |Entering(urls, links, host)| + if Enters(urls, link, host) then 1 else 0
  {
    var before, after := Entering(urls, links, host), Entering(urls, links + {link}, host);
    assert after == if Enters(urls, link, host) then before + {link} else before;
  }

  lemma UncountedLinks(counts: map<string, nat>, urls: seq<string>, links: set<(nat, nat)>, more: set<(nat, nat)>)
    requires Tallies(counts, urls, links)
    requires forall link, host :: link in more ==> !Enters(urls, link, host)
    ensures Tallies(counts, urls, links + more)
  {
    forall host
      ensures Entering(urls, links + more, host) == Entering(urls, links, host)
    {
    }
  }

  lemma CountedLink(counts: map<string, nat>, urls: seq<string>, links: set<(nat, nat)>, link: (nat, nat),
                    entered: string)
    requires Tallies(counts, urls, links) && link !in links
    requires Enters(urls, link, entered)
    ensures Tallies(counts[entered := Count(counts, entered) + 1], urls, links + {link})
  {
    forall host
      ensures Count(counts[entered := Count(counts, entered) + 1], host) == |Entering(urls, links + {link}, host)|
      ensures host in counts[entered := 0] <==> |Entering(urls, links + {link}, host)| > 0
    {
      OneMoreLink(urls, links, link, host);
    }
  }

  /** Counts one link from `sourceHost` if it enters another host. */
  method CountLink(sourceHost: string, targetUrl: string, pending: map<string, nat>,
                   ghost urls: seq<string>, ghost done: set<(nat, nat)>, ghost link: (nat, nat))
    returns (counts: map<string, nat>)
    requires Tallies(pending, urls, done) && link !in done
    requires link.0 < |urls| && link.1 < |urls| && HostOf(urls[link.0]) == Some(sourceHost) && urls[link.1] == targetUrl
    ensures Tallies(counts, urls, done + {link})
  {
    counts := pending;
    var targetHost := HostOf(targetUrl);
    if targetHost == None || targetHost.value == sourceHost {
      UncountedLinks(counts, urls, done, {link});
      return;
    }
    CountedLink(counts, urls, done, link, targetHost.value);
    counts := counts[targetHost.value := Count(counts, targetHost.value) + 1];
  }

  lemma NextPair(out: Adjacency, source: nat, i: nat, nodes: nat)
    requires source < |out| && i < |out[source]| && IsRow(out[source], source, nodes)
    ensures (source, out[source][i]) !in Pairs(out, source) + PairsFrom(source, out[source], i)
    ensures Pairs(out, source) + PairsFrom(source, out[source], i + 1)
            == Pairs(out, source) + PairsFrom(source, out[source], i) + {(source, out[source][i])}
  {
  }

  /** Counts the links of one node, on host `sourceHost`, that enter another host. */
  method CountTargets(sourceHost: string, urls: seq<string>, ghost out: Adjacency, source: nat, targets: seq<nat>,
                      pending: map<string, nat>) returns (counts: map<string, nat>)
    requires source < |out| == |urls| && targets == out[source] && IsRow(targets, source, |urls|)
    requires HostOf(urls[source]) == Some(sourceHost)
    requires Tallies(pending, urls, Pairs(out, source))
    ensures Tallies(counts, urls, Pairs(out, source) + PairsFrom(source, targets, |targets|))
  {
    counts := pending;
    ghost var done := Pairs(out, source);
    assert done + PairsFrom(source, targets, 0) == done;
    for i := 0 to |targets|
      invariant done == Pairs(out, source) + PairsFrom(source, targets, i)
      invariant Tallies(counts, urls, done)
    {
      NextPair(out, source, i, |urls|);
      counts := CountLink(sourceHost, urls[targets[i]], counts, urls, done, (source, targets[i]));
      done := done + {(source, targets[i])};
    }
  }

  method CountRow(urls: seq<string>, out: Adjacency, source: nat, pending: map<string, nat>)
    returns (counts: map<string, nat>)
    requires IsAdjacency(out, |urls|) && source < |out| && Tallies(pending, urls, Pairs(out, source))
    ensures Tallies(counts, urls, Pairs(out, source + 1))
  {
    counts := pending;
    PairsOfOneMore(out, source);
    var sourceHost := HostOf(urls[source]);
    if sourceHost == None {
      UncountedLinks(pending, urls, Pairs(out, source), PairsFrom(source, out[source], |out[source]|));
      return;
    }
    counts := CountTargets(sourceHost.value, urls, out, source, out[source], counts);
  }

  method CountAll(urls: seq<string>, out: Adjacency) returns (counts: map<string, nat>)
    requires IsAdjacency(out, |urls|)
    ensures Tallies(counts, urls, Pairs(out, |out|))
  {
    counts := map[];
    NothingEnters(urls, out);
    for source := 0 to |out|
      invariant Tallies(counts, urls, Pairs(out, source))
    {
      counts := CountRow(urls, out, source, counts);
    }
  }

  lemma NothingEnters(urls: seq<string>, out: Adjacency)
    ensures Tallies(map[], urls, Pairs(out, 0))
  {
    forall host
      ensures Entering(urls, Pairs(out, 0), host) == {}
    {
    }
  }

  /** `after` is `before` plus the number of `links` entering each host. */
  ghost predicate Credited(before: map<string, nat>, after: map<string, nat>, urls: seq<string>,
                           links: set<(nat, nat)>) {
    forall host ::
      && Count(after, host) == Count(before, host) + |Entering(urls, links, host)|
      && (host in after <==> host in before || |Entering(urls, links, host)| > 0)
  }

  // -------------------------------------------------------------------------
  // The class

  const AUTHORITY_SCALE: real := 4.0
  const HOST_AUTHORITY_SCALE: real := 8.0

  /** How a page compares with the average page, and how often other hosts link to its host, both squashed. */
  datatype DocScores = DocScores(authority: real, hostAuthority: real)

  /** What of the exponential function the scores rely on. */
  ghost predicate IsExp(exp: real -> real) {
    exp(0.0) == 1.0 && (forall x :: exp(x) > 0.0) && (forall x, y :: x < y ==> exp(x) < exp(y))
  }

  /** A non-negative count made into a number below one. */
  function Squash(exp: real -> real, value: real, scale: real): real {
    if value <= 0.0 || scale <= 0.0 then 0.0 else 1.0 - exp(-(value / scale))
  }

  function ScoresOf(exp: real -> real, relative: real, crossSite: nat): DocScores {
    DocScores(Squash(exp, relative, AUTHORITY_SCALE), Squash(exp, crossSite as real, HOST_AUTHORITY_SCALE))
  }

  lemma QuotientOrder(x: real, y: real, scale: real)
    requires scale > 0.0 && x < y
    ensures x / scale < y / scale
  {
    var p, q := x / scale, y / scale;
    assert p * scale == x && q * scale == y;
  }

  /** Squashed counts lie between zero and one, one excluded, and compare as the counts do. */
  lemma SquashKeepsOrder(exp: real -> real, value: real, more: real, scale: real)
    requires IsExp(exp) && scale > 0.0 && 0.0 <= value < more
    ensures 0.0 <= Squash(exp, value, scale) < Squash(exp, more, scale) < 1.0
  {
    QuotientOrder(value, more, scale);
    QuotientOrder(0.0, more, scale);
    assert exp(-(more / scale)) < exp(0.0);
    if value > 0.0 {
      QuotientOrder(0.0, value, scale);
      assert exp(-(value / scale)) < exp(0.0);
      assert exp(-(more / scale)) < exp(-(value / scale));
    }
  }

  class LinkGraph {
    const limits: Limits
    var ids: map<string, nat>
    var urls: seq<string>
    var out: Adjacency
    var edges: nat
    var truncated: bool
    /** Links from other hosts, by host; carried in from earlier runs. */
    var hostInlinks: map<string, nat>

    ghost predicate Valid()
      reads this
    {
      && Interned(ids, urls)
      && IsAdjacency(out, |urls|)
      && edges == Links(out, |out|) && edges <= limits.maxEdges
    }

    constructor (limits: Limits, hostInlinks: map<string, nat>)
      ensures Valid() && urls == [] && this.limits == limits && this.hostInlinks == hostInlinks && !truncated
    {
      this.limits, this.hostInlinks := limits, hostInlinks;
      ids, urls, out, edges, truncated := map[], [], [], 0, false;
    }

    /** The node of a URL, new if it has none. */
    method Intern(url: string) returns (id: nat)
      requires Interned(ids, urls) && |out| == |urls|
      modifies this`ids, this`urls, this`out
      ensures Interned(ids, urls) && |old(out)| <= |urls| && out == Widened(old(out), |urls|)
      ensures ids.Keys == old(ids).Keys + {url} && |urls| == |old(urls)| + NewNode(old(ids), url)
      ensures Kept(old(ids), ids)
      ensures id < |urls| && urls[id] == url && ids[url] == id
    {
      if url in ids {
        return ids[url];
      }
      id := |urls|;
      ids := ids[url := id];
      urls := urls + [url];
      out := out + [[]];
    }

    /** The first `n` links of a page are interned, `targets` are its links and the counter counts them. */
    ghost predicate Reading(nodes: nat, known: set<string>, narrow: Adjacency, counted: nat, url: string,
                            links: seq<string>, n: nat, targets: seq<nat>)
      requires n <= |links|
      reads this
    {
      && Interned(ids, urls) && |narrow| <= |urls| && out == Widened(narrow, |urls|)
      && |urls| == nodes + NewNodes(known, links, n) && ids.Keys == KnownAfter(known, links, n)
      && url in ids && targets == Targets(ids, ids[url], links, n)
      && |targets| == TargetCount(url, links, n) && edges == counted + |targets|
    }

    /** Takes one link of a page: interned always, a target unless it is the page itself or one already. */
    method ReadLink(ghost nodes: nat, ghost known: set<string>, ghost narrow: Adjacency, ghost counted: nat,
                    ghost url: string, source: nat, ghost links: seq<string>, ghost n: nat, link: string,
                    seen: set<nat>, targets: seq<nat>)
      returns (nowSeen: set<nat>, nowTargets: seq<nat>)
      requires n < |links| && links[n] == link
      requires Reading(nodes, known, narrow, counted, url, links, n, targets) && source == ids[url]
      requires forall t :: t in seen <==> t in targets
      modifies this`ids, this`urls, this`out, this`edges
      ensures Kept(old(ids), ids)
      ensures Reading(nodes, known, narrow, counted, url, links, n + 1, nowTargets)
      ensures forall t :: t in nowSeen <==> t in nowTargets
      ensures |nowTargets| <= |targets| + 1
    {
      ghost var width := |urls|;
      var target := Intern(link);
      WidenedTwice(narrow, width, |urls|);
      LinksAreKnown(known, links, n);
      LinksAreKnown(known, links, n + 1);
      TargetsStay(old(ids), ids, source, links, n);
      TargetsAreCounted(ids, urls, url, links, n + 1);
      nowSeen, nowTargets := seen, targets;
      if target == source || target in seen {
        return;
      }
      nowSeen := seen + {target};
      nowTargets := targets + [target];
      edges := edges + 1;
    }

    /** Interns the links one by one until a bound is met; `read` is how many that were. */
    method ReadLinks(ghost url: string, source: nat, links: seq<string>) returns (targets: seq<nat>, read: nat)
      requires Interned(ids, urls) && |out| == |urls| && url in ids && ids[url] == source
      requires edges <= limits.maxEdges
      modifies this`ids, this`urls, this`out, this`edges, this`truncated
      ensures Kept(old(ids), ids)
      ensures IsRead(limits, old(edges), |old(urls)|, old(ids).Keys, url, links, read)
      ensures Reading(|old(urls)|, old(ids).Keys, old(out), old(edges), url, links, read, targets)
      ensures edges <= limits.maxEdges
      ensures truncated <==> old(truncated) || read < |links|
    {
      var seen: set<nat> := {};
      targets := [];
      read := 0;
      ghost var last: nat := 0;
      while read < |links|
        invariant read <= |links| && (read > 0 ==> read == last + 1)
        invariant Kept(old(ids), ids)
        invariant Reading(|old(urls)|, old(ids).Keys, old(out), old(edges), url, links, read, targets)
        invariant forall t :: t in seen <==> t in targets
        invariant edges <= limits.maxEdges
        invariant read > 0 ==> HadRoom(limits, old(edges), |old(urls)|, old(ids).Keys, url, links, last)
        invariant truncated == old(truncated)
      {
        if edges >= limits.maxEdges || |urls| >= limits.maxNodes {
          truncated := true;
          break;
        }
        seen, targets := ReadLink(|old(urls)|, old(ids).Keys, old(out), old(edges), url, source, links, read,
                                  links[read], seen, targets);
        last := read;
        read := read + 1;
      }
    }

    /**
     Records a page's links in place of those recorded for it before: the distinct
     targets among the first `read`, which is all of them unless a bound was met.
     */
    method Record(url: string, links: seq<string>) returns (read: nat)
      requires Valid()
      modifies this`ids, this`urls, this`out, this`edges, this`truncated
      ensures Valid()
      ensures Kept(old(ids), ids) && read <= |links| && ids.Keys == KnownAfter(old(ids).Keys + {url}, links, read)
      ensures url in ids && |old(out)| <= |urls|
      ensures |urls| == |old(urls)| + NewNode(old(ids), url) + NewNodes(old(ids).Keys + {url}, links, read)
      ensures out == Widened(old(out), |urls|)[ids[url] := Targets(ids, ids[url], links, read)]
      ensures |out[ids[url]]| == TargetCount(url, links, read)
      ensures edges + |Widened(old(out), |urls|)[ids[url]]| == old(edges) + |out[ids[url]]|
      ensures IsRead(limits, old(edges), |old(urls)| + NewNode(old(ids), url), old(ids).Keys + {url}, url, links, read)
      ensures truncated <==> old(truncated) || read < |links|
      ensures |old(urls)| <= limits.maxNodes ==>
                (|urls| <= limits.maxNodes <==> url in old(ids) || |old(urls)| < limits.maxNodes)
    {
      var source := Intern(url);
      ghost var nodes := |urls|;
      var targets;
      targets, read := ReadLinks(url, source, links);
      WidenedTwice(old(out), nodes, |urls|);
      WideningKeepsLinks(old(out), |urls|);
      WideningKeepsRows(old(out), |urls|);
      TargetsFormRow(ids, urls, source, links, read);
      ReplacingRow(out, source, targets, |out|);
      edges := SaturatingSub(edges, |out[source]|);
      out := out[source := targets];
      LinksStayWithinNodes(limits, old(edges), nodes, old(ids).Keys + {url}, url, links, read);
    }

    /** Adds counts to those held. */
    method AddCounts(pending: map<string, nat>)
      modifies this`hostInlinks
      ensures forall host ::
                && Count(hostInlinks, host) == Count(old(hostInlinks), host) + Count(pending, host)
                && (host in hostInlinks <==> host in old(hostInlinks) || host in pending)
    {
      var left := pending.Keys;
      while left != {}
        invariant left <= pending.Keys
        invariant forall host ::
                    && Count(hostInlinks, host) == Count(old(hostInlinks), host)
                       + (if host in left then 0 else Count(pending, host))
                    && (host in hostInlinks <==> host in old(hostInlinks) || host in pending.Keys - left)
      {
        var host :| host in left;
        hostInlinks := hostInlinks[host := Count(hostInlinks, host) + pending[host]];
        left := left - {host};
      }
    }

    /** Adds to each host the number of recorded links that enter it from another host. */
    method CountCrossSiteLinks()
      requires Valid()
      modifies this`hostInlinks
      ensures Valid()
      ensures Credited(old(hostInlinks), hostInlinks, urls, Pairs(out, |out|))
    {
      var pending := CountAll(urls, out);
      AddCounts(pending);
    }

    /** Scores every known URL by its rank and its host. */
    method ScoreUrls(ranks: seq<real>, exp: real -> real) returns (scores: map<string, DocScores>)
      requires Interned(ids, urls) && |ranks| == |urls|
      ensures scores.Keys == ids.Keys
      ensures forall i :: 0 <= i < |urls| ==>
                scores[urls[i]] == ScoresOf(exp, Relative(ranks)[i], CrossSite(hostInlinks, urls[i]))
    {
      scores := map[];
      for i := 0 to |urls|
        invariant forall url :: url in scores <==> url in ids && ids[url] < i
        invariant forall url :: url in scores ==>
                    scores[url] == ScoresOf(exp, Relative(ranks)[ids[url]], CrossSite(hostInlinks, url))
      {
        var relative := TimesCount(|urls|, ranks[i]);
        scores := scores[urls[i] := ScoresOf(exp, relative, CrossSite(hostInlinks, urls[i]))];
      }
    }

    /** Counts links between hosts once, ranks the pages and scores every known URL. */
    method Finish(exp: real -> real) returns (scores: map<string, DocScores>)
      requires Valid()
      modifies this`hostInlinks
      ensures Valid() && Credited(old(hostInlinks), hostInlinks, urls, Pairs(out, |out|))
      ensures scores.Keys == ids.Keys
      ensures forall i :: 0 <= i < |urls| ==>
                scores[urls[i]] == ScoresOf(exp, Relative(Ranks(out))[i], CrossSite(hostInlinks, urls[i]))
    {
      CountCrossSiteLinks();
      AdjacencyIsGraph(out);
      var ranks := PageRank.Compute(out);
      scores := ScoreUrls(ranks, exp);
    }
  }

  /** Two pages recorded with room for one node: both are nodes. */
  method NodeBoundIsExceeded(a: string, b: string) returns (graph: LinkGraph)
    requires a != b
    ensures graph.Valid() && graph.limits.maxNodes == 1 && |graph.urls| == 2
  {
    graph := new LinkGraph(Limits(1, 8), map[]);
    var first := graph.Record(a, []);
    assert a in graph.ids && |graph.urls| == 1;
    NotKnown(graph.ids, graph.urls, a, b);
    var second := graph.Record(b, []);
  }

  lemma NotKnown(ids: map<string, nat>, urls: seq<string>, a: string, b: string)
    requires Interned(ids, urls) && |urls| == 1 && a in ids && a != b
    ensures b !in ids
  {
  }

  /** A page recorded twice with room for one link keeps it the first time and loses it the second. */
  method RecordingAgainLosesLinks(a: string, b: string) returns (graph: LinkGraph)
    requires a != b
    ensures graph.Valid() && a in graph.ids && graph.ids[a] < |graph.out| && graph.out[graph.ids[a]] == []
            && graph.truncated
  {
    graph := new LinkGraph(Limits(8, 1), map[]);
    var first := graph.Record(a, [b]);
    assert first == 1 by {
      AllReadIff(graph.limits, 0, 1, {a}, a, [b], first);
    }
    assert graph.edges == 1 by {
      assert Widened([], 2)[graph.ids[a]] == [];
      assert TargetCount(a, [b], 1) == 1;
    }
    var second := graph.Record(a, [b]);
    assert second == 0;
  }

  function CrossSite(hostInlinks: map<string, nat>, url: string): nat {
    match HostOf(url)
    case None => 0
    case Some(host) => Count(hostInlinks, host)
  }

  function TimesCount(nodeCount: nat, rank: real): real {
    nodeCount as real * rank
  }

  /** Ranks as multiples of the even share. */
  ghost function Relative(ranks: PageRank.Vector): (relative: PageRank.Vector)
    ensures |relative| == |ranks|
  {
    seq(|ranks|, i requires 0 <= i < |ranks| => TimesCount(|ranks|, ranks[i]))
  }

  ghost function Ranks(out: Adjacency): (ranks: PageRank.Vector)
    ensures |ranks| == |out|
  {
    if out == [] then [] else PageRank.Iterate(out, PageRank.Uniform(|out|), PageRank.ITERATIONS)
  }

  /** The average page scores exactly one, and none less than what damping leaves it. */
  lemma RelativeToAverage(out: Adjacency)
    requires out != [] && IsAdjacency(out, |out|)
    ensures PageRank.Sum(Relative(Ranks(out))) == |out| as real
    ensures forall i :: 0 <= i < |out| ==> Relative(Ranks(out))[i] >= 1.0 - PageRank.DAMPING
  {
    var start := PageRank.Uniform(|out|);
    AdjacencyIsGraph(out);
    PageRank.UniformIsDistribution(|out|);
    PageRank.IterateKeepsMass(out, start, PageRank.ITERATIONS);
    ScaledDistribution(Ranks(out));
  }

  lemma ScaledDistribution(ranks: PageRank.Vector)
    requires ranks != [] && PageRank.Sum(ranks) == 1.0
    requires forall i :: 0 <= i < |ranks| ==> ranks[i] >= PageRank.BaseShare(|ranks|)
    ensures PageRank.Sum(Relative(ranks)) == |ranks| as real
    ensures forall i :: 0 <= i < |ranks| ==> Relative(ranks)[i] >= 1.0 - PageRank.DAMPING
  {
    RelativeIsScaled(|ranks|, ranks);
    PageRank.SumScale(|ranks| as real, ranks);
    forall i | 0 <= i < |ranks|
      ensures Relative(ranks)[i] >= 1.0 - PageRank.DAMPING
    {
      ScaledShare(|ranks|, ranks[i]);
    }
  }

  lemma RelativeIsScaled(n: nat, ranks: PageRank.Vector)
    requires n == |ranks|
    ensures Relative(ranks) == PageRank.Scale(n as real, ranks)
  {
    forall i | 0 <= i < n
      ensures Relative(ranks)[i] == PageRank.Scale(n as real, ranks)[i]
    {
      assert TimesCount(n, ranks[i]) == n as real * ranks[i];
    }
  }

  lemma ScaledShare(n: nat, rank: real)
    requires n > 0 && rank >= PageRank.BaseShare(n)
    ensures TimesCount(n, rank) >= 1.0 - PageRank.DAMPING
  {
    EvenShare(1.0 - PageRank.DAMPING, n as real);
    ScalingKeepsOrder(n as real, PageRank.BaseShare(n), rank);
  }

  lemma EvenShare(total: real, n: real)
    requires n > 0.0
    ensures n * (total / n) == total
  {
  }

  lemma ScalingKeepsOrder(n: real, x: real, y: real)
    requires n >= 0.0 && x <= y
    ensures n * x <= n * y
  {
  }

  lemma AdjacencyIsGraph(out: Adjacency)
    requires IsAdjacency(out, |out|)
    ensures PageRank.IsGraph(out)
  {
    forall u, i | 0 <= u < |out| && 0 <= i < |out[u]|
      ensures out[u][i] < |out|
    {
      assert IsRow(out[u], u, |out|);
    }
  }
}
