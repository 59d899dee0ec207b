/**
 What the link graph takes for the host of a URL, by way of writing one, and what the two
 scores of a page depend on.
 */
module GraphHosts {
  import opened Basics
  import opened Text
  import opened LinkGraph

  // -------------------------------------------------------------------------
  // Separators

  ghost predicate IsSeparatorAt(s: string, i: int) {
    0 <= i && i + 3 <= |s| && s[i] == ':' && s[i + 1] == '/' && s[i + 2] == '/'
  }

  ghost predicate HasSeparator(s: string) {
    exists i :: IsSeparatorAt(s, i)
  }

  lemma SeparatorInFront(s: string)
    requires |s| >= 3
    ensures IsSeparatorAt(s, 0) <==> s[..3] == "://"
  {
    if s[..3] == "://" {
      assert s[..3][0] == ':' && s[..3][1] == '/' && s[..3][2] == '/';
    }
  }

  lemma {:induction false} SeparatorIsFirst(s: string)
    ensures Separator(s) < |s| ==> IsSeparatorAt(s, Separator(s))
    ensures forall i :: 0 <= i < Separator(s) ==> !IsSeparatorAt(s, i)
    ensures Separator(s) == |s| <==> !HasSeparator(s)
  {
    if |s| >= 3 && s[..3] != "://" {
      SeparatorIsFirst(s[1..]);
      SeparatorInFront(s);
      forall i | 0 < i
        ensures IsSeparatorAt(s, i) <==> IsSeparatorAt(s[1..], i - 1)
      {
      }
      if HasSeparator(s[1..]) {
        var i :| IsSeparatorAt(s[1..], i);
        assert IsSeparatorAt(s, i + 1);
      }
    } else if |s| >= 3 {
      SeparatorInFront(s);
    }
  }

  /** The first separator of a text, wherever it is. */
  lemma SeparatorAt(s: string, at: nat)
    requires IsSeparatorAt(s, at) && forall i :: 0 <= i < at ==> !IsSeparatorAt(s, i)
    ensures Separator(s) == at
  {
    SeparatorIsFirst(s);
  }

  // -------------------------------------------------------------------------
  // Hosts

  /** A character that ends a host. */
  predicate EndsHost(c: char) {
    c == '/' || c == '?' || c == '#'
  }

  /** A host as it may stand in a URL. */
  ghost predicate IsHost(host: string) {
    host != "" && forall i :: 0 <= i < |host| ==> !EndsHost(host[i])
  }

  /** A path, query or fragment, or nothing. */
  predicate IsRest(rest: string) {
    rest != "" ==> EndsHost(rest[0])
  }

  lemma {:induction false} IndexOfEnd(host: string, rest: string, c: char)
    requires c !in host
    ensures IndexOf(host + rest, c) == |host| + IndexOf(rest, c)
  {
    if host == "" {
      assert host + rest == rest;
    } else {
      assert (host + rest)[1..] == host[1..] + rest;
      IndexOfEnd(host[1..], rest, c);
    }
  }

  /** Where the host ends in what follows the scheme. */
  lemma HostEnds(host: string, rest: string)
    requires IsRest(rest) && forall i :: 0 <= i < |host| ==> !EndsHost(host[i])
    ensures var text := host + rest;
            Min(IndexOf(text, '/'), Min(IndexOf(text, '?'), IndexOf(text, '#'))) == |host|
  {
    IndexOfEnd(host, rest, '/');
    IndexOfEnd(host, rest, '?');
    IndexOfEnd(host, rest, '#');
  }

  /** The first separator of a URL is the one after its scheme. */
  lemma SchemeEnds(scheme: string, text: string)
    requires !HasSeparator(scheme)
    ensures Separator(scheme + "://" + text) == |scheme| && (scheme + "://" + text)[|scheme| + 3..] == text
  {
    var url := scheme + "://" + text;
    assert IsSeparatorAt(url, |scheme|);
    forall i | 0 <= i < |scheme|
      ensures !IsSeparatorAt(url, i)
    {
      assert !IsSeparatorAt(scheme, i);
      if i + 3 > |scheme| {
        assert url[|scheme|] == ':' && url[|scheme| + 1] == '/';
      }
    }
    SeparatorAt(url, |scheme|);
  }

  /** A colon and two slashes that would be taken for another separator. */
  predicate ColonMeetsSlashes(host: string, rest: string) {
    host != "" && host[|host| - 1] == ':' && |rest| >= 2 && rest[0] == '/' && rest[1] == '/'
  }

  lemma NoSeparatorWithin(host: string, rest: string, i: nat)
    requires i < |host| && forall k :: 0 <= k < |host| ==> !EndsHost(host[k])
    ensures IsSeparatorAt(host + rest, i) ==> ColonMeetsSlashes(host, rest) && i == |host| - 1
  {
    if i + 1 < |host| {
      assert !EndsHost(host[i + 1]) && (host + rest)[i + 1] == host[i + 1];
    }
  }

  /** What stands before the second separator begins with the host and ends in a rest. */
  lemma AuthorityParts(host: string, rest: string) returns (shorter: string)
    requires IsRest(rest) && (forall i :: 0 <= i < |host| ==> !EndsHost(host[i])) && !ColonMeetsSlashes(host, rest)
    ensures IsRest(shorter) && (host + rest)[..Separator(host + rest)] == host + shorter
  {
    var text := host + rest;
    var at := Separator(text);
    SeparatorIsFirst(text);
    forall i | 0 <= i < |host|
      ensures !IsSeparatorAt(text, i)
    {
      NoSeparatorWithin(host, rest, i);
    }
    shorter := rest[..at - |host|];
    assert text[..at] == host + shorter;
  }

  /**
   The host of a URL is what stands between its scheme and a path, query or fragment, in lower case:
   for every scheme, host and rest.
   */
  lemma HostOfUrl(scheme: string, host: string, rest: string)
    requires !HasSeparator(scheme) && IsHost(host) && IsRest(rest) && !ColonMeetsSlashes(host, rest)
    ensures HostOf(scheme + "://" + host + rest) == Some(AsciiLower(host))
  {
    assert scheme + "://" + host + rest == scheme + "://" + (host + rest);
    SchemeEnds(scheme, host + rest);
    var shorter := AuthorityParts(host, rest);
    HostEnds(host, shorter);
    assert (host + shorter)[..|host|] == host;
  }

  /** An empty port before two slashes is cut off with its colon. */
  lemma HostBeforeColon(scheme: string, host: string, rest: string)
    requires !HasSeparator(scheme) && IsHost(host) && |rest| >= 2 && rest[0] == '/' && rest[1] == '/'
    ensures HostOf(scheme + "://" + (host + ":") + rest) == Some(AsciiLower(host))
  {
    var text := host + ":" + rest;
    assert scheme + "://" + (host + ":") + rest == scheme + "://" + text;
    SchemeEnds(scheme, text);
    assert IsSeparatorAt(text, |host|);
    forall i | 0 <= i < |host|
      ensures !IsSeparatorAt(text, i)
    {
      assert i + 1 < |host| ==> !EndsHost(host[i + 1]);
    }
    SeparatorAt(text, |host|);
    assert text[..|host|] == host + "";
    HostEnds(host, "");
    assert host + "" == host;
  }

  /** A URL without a scheme, or without a host, has none. */
  lemma NoHost(scheme: string, rest: string)
    requires IsRest(rest)
    ensures !HasSeparator(scheme) ==> HostOf(scheme) == None && HostOf(scheme + "://" + rest) == None
  {
    SeparatorIsFirst(scheme);
    if !HasSeparator(scheme) {
      SchemeEnds(scheme, rest);
      assert "" + rest == rest;
      var shorter := AuthorityParts("", rest);
      assert "" + shorter == shorter;
      HostEnds("", shorter);
    }
  }

  lemma SplitScheme(url: string) returns (scheme: string, text: string)
    requires Separator(url) < |url|
    ensures !HasSeparator(scheme) && url == scheme + "://" + text && text == url[Separator(url) + 3..]
  {
    SeparatorIsFirst(url);
    var at := Separator(url);
    scheme, text := url[..at], url[at + 3..];
    if i :| IsSeparatorAt(scheme, i) {
      assert IsSeparatorAt(url, i);
    }
    ThreeSlices(url, at);
  }

  lemma ThreeSlices(s: string, at: nat)
    requires IsSeparatorAt(s, at)
    ensures s == s[..at] + "://" + s[at + 3..]
  {
    var separator := s[at..at + 3];
    assert separator[0] == ':' && separator[1] == '/' && separator[2] == '/';
    assert separator == "://";
    assert s == s[..at] + separator + s[at + 3..];
  }

  lemma SplitHost(text: string) returns (host: string, rest: string)
    ensures text == host + rest && (forall i :: 0 <= i < |host| ==> !EndsHost(host[i]))
    ensures IsRest(rest) || (|rest| >= 3 && rest[..3] == "://")
    ensures var authority := text[..Separator(text)];
            host == authority[..Min(IndexOf(authority, '/'), Min(IndexOf(authority, '?'), IndexOf(authority, '#')))]
  {
    var second := Separator(text);
    SeparatorIsFirst(text);
    var authority := text[..second];
    FirstEnd(authority);
    var n := Min(IndexOf(authority, '/'), Min(IndexOf(authority, '?'), IndexOf(authority, '#')));
    host, rest := text[..n], text[n..];
    assert authority[..n] == host;
    if n < second {
      assert rest[0] == authority[n];
    } else if second < |text| {
      assert IsSeparatorAt(text, n);
      assert rest[..3] == "://";
    }
  }

  /** Nothing else has a host: every URL with one is written so, or has a second separator behind its host. */
  lemma HostComesFromUrl(url: string) returns (scheme: string, host: string, rest: string)
    requires HostOf(url).Some?
    ensures !HasSeparator(scheme) && IsHost(host) && url == scheme + "://" + host + rest
    ensures HostOf(url) == Some(AsciiLower(host))
    ensures IsRest(rest) || (|rest| >= 3 && rest[..3] == "://")
  {
    var text;
    scheme, text := SplitScheme(url);
    host, rest := SplitHost(text);
    Associates(scheme, "://", host, rest);
  }

  lemma Associates(a: string, b: string, c: string, d: string)
    ensures a + b + c + d == a + b + (c + d)
  {
  }

  lemma {:induction false} IndexOfIsFirst(s: string, c: char)
    ensures forall i :: 0 <= i < IndexOf(s, c) ==> s[i] != c
    ensures IndexOf(s, c) < |s| ==> s[IndexOf(s, c)] == c
  {
    if s != "" && s[0] != c {
      IndexOfIsFirst(s[1..], c);
    }
  }

  lemma FirstEnd(s: string)
    ensures var n := Min(IndexOf(s, '/'), Min(IndexOf(s, '?'), IndexOf(s, '#')));
            n <= |s| && (n < |s| ==> EndsHost(s[n])) && forall i :: 0 <= i < n ==> !EndsHost(s[i])
  {
    IndexOfIsFirst(s, '/');
    IndexOfIsFirst(s, '?');
    IndexOfIsFirst(s, '#');
  }

  // -------------------------------------------------------------------------
  // Links between hosts, and scores

  /** A URL is scored by the links into its own host. */
  lemma ScoredByOwnHost(inlinks: map<string, nat>, scheme: string, host: string, rest: string)
    requires !HasSeparator(scheme) && IsHost(host) && IsRest(rest) && !ColonMeetsSlashes(host, rest)
    ensures CrossSite(inlinks, scheme + "://" + host + rest)
            == if AsciiLower(host) in inlinks then inlinks[AsciiLower(host)] else 0
  {
    HostOfUrl(scheme, host, rest);
  }

  /** One without a host is scored by none. */
  lemma ScoredByNone(inlinks: map<string, nat>, scheme: string, rest: string)
    requires !HasSeparator(scheme) && IsRest(rest)
    ensures CrossSite(inlinks, scheme) == CrossSite(inlinks, scheme + "://" + rest) == 0
  {
    NoHost(scheme, rest);
  }

  /** A link enters the host it points to unless it comes from there, or from no host. */
  lemma LinkEnters(urls: seq<string>, link: (nat, nat), scheme: string, from: string, to: string, rest: string,
                   other: string)
    requires link.0 < |urls| && link.1 < |urls|
    requires !HasSeparator(scheme) && IsHost(from) && IsHost(to) && IsRest(rest) && IsRest(other)
    requires !ColonMeetsSlashes(from, rest) && !ColonMeetsSlashes(to, other)
    requires urls[link.0] == scheme + "://" + from + rest && urls[link.1] == scheme + "://" + to + other
    ensures forall host :: Enters(urls, link, host) <==> host == AsciiLower(to) && !SameLetters(from, to)
  {
    HostOfUrl(scheme, from, rest);
    HostOfUrl(scheme, to, other);
    SameLettersIff(from, to);
  }

  /** Two pages, the first linking to the second. */
  ghost predicate IsOneLink(urls: seq<string>, out: Adjacency, a: string, b: string) {
    || (urls == [a, b] && out == [[1], []])
    || (urls == [b, a] && out == [[], [0]])
  }

  method RecordOneLink(a: string, b: string) returns (graph: LinkGraph)
    requires a != b
    ensures fresh(graph) && graph.Valid() && graph.hostInlinks == map[] && IsOneLink(graph.urls, graph.out, a, b)
  {
    graph := new LinkGraph(Limits(2, 2), map[]);
    var read := graph.Record(a, [b]);
    ReadOneLink(graph.limits, a, b, read);
    TwoNodes(graph.ids, graph.urls, graph.out, a, b);
  }

  lemma ReadOneLink(limits: Limits, a: string, b: string, read: nat)
    requires a != b && limits == Limits(2, 2) && IsRead(limits, 0, 1, {a}, a, [b], read)
    ensures read == 1
  {
    AllReadIff(limits, 0, 1, {a}, a, [b], read);
  }

  lemma TwoNodes(ids: map<string, nat>, urls: seq<string>, out: Adjacency, a: string, b: string)
    requires a != b && Interned(ids, urls) && |urls| == 2 && a in ids && b in ids
    requires out == Widened([], 2)[ids[a] := Targets(ids, ids[a], [b], 1)]
    ensures IsOneLink(urls, out, a, b)
  {
    assert Targets(ids, ids[a], [b], 0) == [];
    assert Targets(ids, ids[a], [b], 1) == [ids[b]];
    assert Widened([], 2) == [[], []];
    assert urls[ids[a]] == a && urls[ids[b]] == b;
  }

  lemma OneLinkEnters(urls: seq<string>, out: Adjacency, a: string, b: string, from: string, to: string, host: string)
    requires IsOneLink(urls, out, a, b) && from != to
    requires HostOf(a) == Some(from) && HostOf(b) == Some(to)
    ensures |Entering(urls, Pairs(out, |out|), host)| == if host == to then 1 else 0
  {
    var link: (nat, nat) := if urls == [a, b] then (0, 1) else (1, 0);
    assert Pairs(out, |out|) == {link};
    assert Entering(urls, {link}, host) == if host == to then {link} else {};
  }

  /** The host of a URL. Folded until `UnfoldHere`. */
  ghost predicate HasHost(url: string, host: string) {
    forall u: nat :: UnfoldHere(u) ==> HostOf(url) == Some(host)
  }

  lemma HostScore(exp: real -> real, relative: real, inlinks: map<string, nat>, url: string, host: string, to: string)
    requires HasHost(url, host) && inlinks == map[to := 1]
    ensures ScoresOf(exp, relative, CrossSite(inlinks, url)).hostAuthority
            == if host == to then Squash(exp, 1.0, 8.0) else 0.0
  {
    assert UnfoldHere(0);
  }

  lemma OneLinkCredits(inlinks: map<string, nat>, urls: seq<string>, out: Adjacency, a: string, b: string,
                       from: string, to: string)
    requires IsOneLink(urls, out, a, b) && from != to
    requires HasHost(a, from) && HasHost(b, to)
    requires Credited(map[], inlinks, urls, Pairs(out, |out|))
    ensures inlinks == map[to := 1]
  {
    assert UnfoldHere(0);
    forall host
      ensures Count(inlinks, host) == if host == to then 1 else 0
      ensures host in inlinks <==> host == to
    {
      OneLinkEnters(urls, out, a, b, from, to, host);
    }
  }

  lemma OneLinkNodes(ids: map<string, nat>, urls: seq<string>, out: Adjacency, a: string, b: string)
    requires Interned(ids, urls) && IsOneLink(urls, out, a, b)
    ensures ids.Keys == {a, b} && urls[ids[a]] == a && urls[ids[b]] == b
  {
    assert urls[0] in ids && urls[1] in ids;
    forall url | url in ids
      ensures url == a || url == b
    {
      assert urls[ids[url]] == url;
    }
  }

  method OneLinkBetween(a: string, b: string, from: string, to: string, exp: real -> real)
    returns (graph: LinkGraph, scores: map<string, DocScores>)
    requires a != b && from != to && HasHost(a, from) && HasHost(b, to)
    ensures graph.hostInlinks == map[to := 1] && scores.Keys == {a, b}
    ensures scores[b].hostAuthority == Squash(exp, 1.0, 8.0) && scores[a].hostAuthority == 0.0
  {
    graph := RecordOneLink(a, b);
    ghost var urls, out := graph.urls, graph.out;
    OneLinkNodes(graph.ids, urls, out, a, b);
    scores := graph.Finish(exp);
    OneLinkCredits(graph.hostInlinks, urls, out, a, b, from, to);
    ghost var i, j := graph.ids[a], graph.ids[b];
    HostScore(exp, Relative(Ranks(out))[i], graph.hostInlinks, a, from, to);
    HostScore(exp, Relative(Ranks(out))[j], graph.hostInlinks, b, to, to);
    assert scores[urls[i]].hostAuthority == 0.0;
    assert scores[urls[j]].hostAuthority == Squash(exp, 1.0, 8.0);
  }

  /** One page linking to another host: that host is credited once, and no other. */
  method OneLinkAcross(scheme: string, from: string, to: string, exp: real -> real)
    returns (graph: LinkGraph, scores: map<string, DocScores>)
    requires !HasSeparator(scheme) && IsHost(from) && IsHost(to) && !SameLetters(from, to)
    ensures graph.hostInlinks == map[AsciiLower(to) := 1]
    ensures scores.Keys == {scheme + "://" + from + "/", scheme + "://" + to + "/"}
    ensures scores[scheme + "://" + to + "/"].hostAuthority == Squash(exp, 1.0, 8.0)
    ensures scores[scheme + "://" + from + "/"].hostAuthority == 0.0
  {
    HostOfUrl(scheme, from, "/");
    HostOfUrl(scheme, to, "/");
    SameLettersIff(from, to);
    graph, scores := OneLinkBetween(scheme + "://" + from + "/", scheme + "://" + to + "/", AsciiLower(from),
                                    AsciiLower(to), exp);
  }

  /** The two scores of a page: one rises with its rank alone, the other with the links into its host alone. */
  lemma ScoresCompare(exp: real -> real, relative: real, more: real, links: nat, moreLinks: nat)
    requires IsExp(exp) && relative >= 0.0 && more >= 0.0
    ensures var one, other := ScoresOf(exp, relative, links), ScoresOf(exp, more, moreLinks);
            && 0.0 <= one.authority < 1.0 && 0.0 <= one.hostAuthority < 1.0
            && (one.authority < other.authority <==> relative < more)
            && (one.hostAuthority < other.hostAuthority <==> links < moreLinks)
  {
    SquashCompare(exp, relative, more, AUTHORITY_SCALE);
    SquashCompare(exp, links as real, moreLinks as real, HOST_AUTHORITY_SCALE);
  }

  lemma SquashCompare(exp: real -> real, value: real, more: real, scale: real)
    requires IsExp(exp) && value >= 0.0 && more >= 0.0 && scale > 0.0
    ensures 0.0 <= Squash(exp, value, scale) < 1.0
    ensures Squash(exp, value, scale) < Squash(exp, more, scale) <==> value < more
  {
    SquashKeepsOrder(exp, 0.0, if value > 0.0 then value else 1.0, scale);
    if value < more {
      SquashKeepsOrder(exp, value, more, scale);
    } else if more < value {
      SquashKeepsOrder(exp, more, value, scale);
    }
  }

  /** Nothing scores zero, and what is left to one is multiplied when counts are added: both scores are exponential. */
  lemma ScoresAdd(exp: real -> real, value: real, more: real, scale: real)
    requires IsExp(exp) && (forall x, y :: MultipliesSums(exp, x, y)) && value >= 0.0 && more >= 0.0 && scale > 0.0
    ensures Squash(exp, 0.0, scale) == 0.0
    ensures 1.0 - Squash(exp, value + more, scale)
            == (1.0 - Squash(exp, value, scale)) * (1.0 - Squash(exp, more, scale))
  {
    LeftToOne(exp, value, scale);
    LeftToOne(exp, more, scale);
    LeftToOne(exp, value + more, scale);
    SumOfQuotients(value, more, scale);
    assert MultipliesSums(exp, -(value / scale), -(more / scale));
  }

  ghost predicate MultipliesSums(exp: real -> real, x: real, y: real) {
    exp(x + y) == exp(x) * exp(y)
  }

  lemma LeftToOne(exp: real -> real, value: real, scale: real)
    requires IsExp(exp) && value >= 0.0 && scale > 0.0
    ensures 1.0 - Squash(exp, value, scale) == exp(-(value / scale))
  {
    if value == 0.0 {
      assert -(value / scale) == 0.0;
    }
  }

  lemma SumOfQuotients(value: real, more: real, scale: real)
    requires scale > 0.0
    ensures -((value + more) / scale) == -(value / scale) + -(more / scale)
  {
    var p, q, r := value / scale, more / scale, (value + more) / scale;
    assert p * scale == value && q * scale == more && r * scale == value + more;
    assert (p + q - r) * scale == 0.0;
  }

  /** Four average shares of rank, or eight links, leave 1/e to one. */
  lemma ScoresAtScale(exp: real -> real)
    requires IsExp(exp)
    ensures ScoresOf(exp, 4.0, 8) == DocScores(1.0 - exp(-1.0), 1.0 - exp(-1.0))
  {
    LeftToOne(exp, 4.0, 4.0);
    LeftToOne(exp, 8.0, 8.0);
  }
}
