/**
 Result pages cut from one ranked pool: each pass over what is left accepts up to
 `limit` candidates, at most `cap` of one host, and carries everything else over to
 the next page.

 `TakePage` is proved against `Walk`, the list of all pages. What the paging promises
 is proved about `Walk` by following a single candidate, identified by its position
 in the pool: `Place` says on which page, and where on it, that candidate lands.
 */
module PageWalk {
  import opened Basics

  /** A search hit as paging sees it; the host is what the cap counts by. */
  datatype Hit = Hit(url: string, host: string)

  function CountHost(hits: seq<Hit>, host: string): nat {
    if hits == [] then 0
    else CountHost(hits[..|hits| - 1], host) + if hits[|hits| - 1].host == host then 1 else 0
  }

  /** Whether a page holding `kept` has room for another hit of `host`. */
  predicate HasRoom(kept: seq<Hit>, host: string, limit: nat, cap: nat) {
    |kept| < limit && CountHost(kept, host) < cap
  }

  /** What one pass keeps of the first `n` candidates. */
  function Kept(pool: seq<Hit>, n: nat, limit: nat, cap: nat): seq<Hit>
    requires n <= |pool|
  {
    if n == 0 then []
    else
      var before := Kept(pool, n - 1, limit, cap);
      if HasRoom(before, pool[n - 1].host, limit, cap) then before + [pool[n - 1]] else before
  }

  /** What one pass carries over of the first `n` candidates. */
  function Carried(pool: seq<Hit>, n: nat, limit: nat, cap: nat): (carried: seq<Hit>)
    requires n <= |pool|
    ensures |carried| + |Kept(pool, n, limit, cap)| == n
  {
    if n == 0 then []
    else
      var before := Carried(pool, n - 1, limit, cap);
      if HasRoom(Kept(pool, n - 1, limit, cap), pool[n - 1].host, limit, cap) then before else before + [pool[n - 1]]
  }

  /** Whether one pass keeps the candidate at position `i`. */
  predicate IsKept(pool: seq<Hit>, i: nat, limit: nat, cap: nat)
    requires i < |pool|
  {
    HasRoom(Kept(pool, i, limit, cap), pool[i].host, limit, cap)
  }

  lemma {:induction false} FirstIsKept(pool: seq<Hit>, n: nat, limit: nat, cap: nat)
    requires 0 < n <= |pool| && limit > 0 && cap > 0
    ensures Kept(pool, n, limit, cap) != []
  {
    if n > 1 {
      FirstIsKept(pool, n - 1, limit, cap);
    }
  }

  /** All pages of a pool. */
  function Walk(pool: seq<Hit>, limit: nat, cap: nat): seq<seq<Hit>>
    requires limit > 0 && cap > 0
    decreases |pool|
  {
    if pool == [] then []
    else
      FirstIsKept(pool, |pool|, limit, cap);
      [Kept(pool, |pool|, limit, cap)] + Walk(Carried(pool, |pool|, limit, cap), limit, cap)
  }

  /** Candidates left once `n` pages have been cut. */
  function Remaining(pool: seq<Hit>, n: nat, limit: nat, cap: nat): seq<Hit>
    requires limit > 0 && cap > 0
  {
    if n == 0 then pool
    else
      var left := Remaining(pool, n - 1, limit, cap);
      Carried(left, |left|, limit, cap)
  }

  /** Candidates a pass sets aside while its page still has room for other hosts. */
  function HeldBack(pool: seq<Hit>, n: nat, limit: nat, cap: nat): nat
    requires n <= |pool|
  {
    if n == 0 then 0
    else
      HeldBack(pool, n - 1, limit, cap)
      + if !IsKept(pool, n - 1, limit, cap) && |Kept(pool, n - 1, limit, cap)| < limit then 1 else 0
  }

  // -------------------------------------------------------------------------
  // The code

  datatype Page = Page(results: seq<Hit>, heldBack: int, pages: nat)

  function CountOf(counts: map<string, nat>, host: string): nat {
    if host in counts then counts[host] else 0
  }

  /** `counts` says how many hits of each host are in `kept`. */
  ghost predicate Tallies(counts: map<string, nat>, kept: seq<Hit>) {
    forall host :: CountOf(counts, host) == CountHost(kept, host)
  }

  lemma CountOneMore(hits: seq<Hit>, hit: Hit, host: string)
    ensures CountHost(hits + [hit], host) == CountHost(hits, host) + if hit.host == host then 1 else 0
  {
    assert (hits + [hit])[..|hits|] == hits;
  }

  lemma OneMoreTally(counts: map<string, nat>, kept: seq<Hit>, hit: Hit)
    requires Tallies(counts, kept)
    ensures Tallies(counts[hit.host := CountOf(counts, hit.host) + 1], kept + [hit])
  {
    forall host
      ensures CountHost(kept + [hit], host) == CountHost(kept, host) + if hit.host == host then 1 else 0
    {
      CountOneMore(kept, hit, host);
    }
  }

  // -------------------------------------------------------------------------
  // The cap alone, when there are no pages

  /** Those of the first `n` hits with fewer than `cap` hits of their host before them. */
  function FirstOfEachHost(hits: seq<Hit>, n: nat, cap: nat): seq<Hit>
    requires n <= |hits|
  {
    if n == 0 then []
    else
      FirstOfEachHost(hits, n - 1, cap)
      + if CountHost(hits[..n - 1], hits[n - 1].host) < cap then [hits[n - 1]] else []
  }

  lemma KeptUnfolds(hits: seq<Hit>, n: nat, limit: nat, cap: nat)
    requires n < |hits|
    ensures Kept(hits, n + 1, limit, cap)
            == Kept(hits, n, limit, cap) + if IsKept(hits, n, limit, cap) then [hits[n]] else []
  {
  }

  lemma CountOneMaybe(kept: seq<Hit>, more: seq<Hit>, hit: Hit, taken: bool, host: string)
    requires more == kept + if taken then [hit] else []
    ensures |more| <= |kept| + 1
    ensures CountHost(more, host) == CountHost(kept, host) + if taken && hit.host == host then 1 else 0
  {
    if taken {
      CountOneMore(kept, hit, host);
    } else {
      assert more == kept;
    }
  }

  lemma KeptNext(hits: seq<Hit>, n: nat, limit: nat, cap: nat, host: string)
    requires n < |hits|
    ensures |Kept(hits, n + 1, limit, cap)| <= |Kept(hits, n, limit, cap)| + 1
    ensures CountHost(Kept(hits, n + 1, limit, cap), host)
            == CountHost(Kept(hits, n, limit, cap), host)
               + if IsKept(hits, n, limit, cap) && hits[n].host == host then 1 else 0
  {
    KeptUnfolds(hits, n, limit, cap);
    CountOneMaybe(Kept(hits, n, limit, cap), Kept(hits, n + 1, limit, cap), hits[n], IsKept(hits, n, limit, cap), host);
  }

  lemma CountNext(hits: seq<Hit>, n: nat, host: string)
    requires n < |hits|
    ensures CountHost(hits[..n + 1], host) == CountHost(hits[..n], host) + if hits[n].host == host then 1 else 0
  {
    assert hits[..n + 1] == hits[..n] + [hits[n]];
    CountOneMore(hits[..n], hits[n], host);
  }

  lemma {:induction false} KeepsUpToCap(hits: seq<Hit>, n: nat, limit: nat, cap: nat, host: string)
    requires n <= |hits| && n <= limit
    ensures CountHost(Kept(hits, n, limit, cap), host) == Min(CountHost(hits[..n], host), cap)
    ensures |Kept(hits, n, limit, cap)| <= n
  {
    if n > 0 {
      KeepsUpToCap(hits, n - 1, limit, cap, host);
      CountNext(hits, n - 1, host);
      KeptNext(hits, n - 1, limit, cap, host);
    }
  }

  /** Without a limit on the page exactly the first `cap` hits of each host are kept. */
  lemma {:induction false} KeepsFirstOfEachHost(hits: seq<Hit>, n: nat, limit: nat, cap: nat)
    requires n <= |hits| && n <= limit
    ensures Kept(hits, n, limit, cap) == FirstOfEachHost(hits, n, cap)
  {
    if n > 0 {
      KeepsFirstOfEachHost(hits, n - 1, limit, cap);
      KeepsUpToCap(hits, n - 1, limit, cap, hits[n - 1].host);
    }
  }

  /** Exactly the first `maxPerDomain` hits of each host. */
  method EnforceDomainDiversity(hits: seq<Hit>, maxPerDomain: int) returns (result: Result<seq<Hit>, string>)
    ensures maxPerDomain < 1 <==> result.Err?
    ensures result.Ok? ==> result.value == FirstOfEachHost(hits, |hits|, maxPerDomain)
    ensures result.Ok? ==> forall host :: CountHost(result.value, host) == Min(CountHost(hits, host), maxPerDomain)
  {
    if maxPerDomain < 1 {
      return Err("max_per_domain must be at least 1");
    }
    var counts: map<string, nat> := map[];
    var kept: seq<Hit> := [];
    for i := 0 to |hits|
      invariant kept == Kept(hits, i, |hits|, maxPerDomain) && |kept| <= i
      invariant Tallies(counts, kept)
    {
      var host := hits[i].host;
      var seen := CountOf(counts, host);
      if seen >= maxPerDomain {
        continue;
      }
      OneMoreTally(counts, kept, hits[i]);
      counts := counts[host := seen + 1];
      kept := kept + [hits[i]];
    }
    KeepsFirstOfEachHost(hits, |hits|, |hits|, maxPerDomain);
    forall host
      ensures CountHost(kept, host) == Min(CountHost(hits, host), maxPerDomain)
    {
      KeepsUpToCap(hits, |hits|, |hits|, maxPerDomain, host);
      assert hits[..|hits|] == hits;
    }
    result := Ok(kept);
  }

  /** One pass over what is left. */
  method Pass(remaining: seq<Hit>, limit: nat, cap: nat) returns (kept: seq<Hit>, carried: seq<Hit>, heldBack: nat)
    ensures kept == Kept(remaining, |remaining|, limit, cap)
    ensures carried == Carried(remaining, |remaining|, limit, cap)
    ensures heldBack == HeldBack(remaining, |remaining|, limit, cap)
  {
    var counts: map<string, nat> := map[];
    kept, carried, heldBack := [], [], 0;
    for i := 0 to |remaining|
      invariant kept == Kept(remaining, i, limit, cap) && carried == Carried(remaining, i, limit, cap)
      invariant heldBack == HeldBack(remaining, i, limit, cap)
      invariant Tallies(counts, kept)
    {
      var hit := remaining[i];
      var host := hit.host;
      if |kept| < limit && CountOf(counts, host) < cap {
        OneMoreTally(counts, kept, hit);
        counts := counts[host := CountOf(counts, host) + 1];
        kept := kept + [hit];
      } else {
        carried := carried + [hit];
        if |kept| < limit {
          heldBack := heldBack + 1;
        }
      }
    }
  }

  /** The page at `offset`, with the number of pages the whole pool makes. */
  method TakePage(pool: seq<Hit>, offset: int, limit: Option<int>, maxPerDomain: int)
    returns (result: Result<Page, string>)
    ensures result.Err? <==> maxPerDomain < 1 || offset < 0 || (limit.Some? && limit.value < 1)
    ensures result.Ok? && limit.None? ==>
              var whole := FirstOfEachHost(pool, |pool|, maxPerDomain);
              result.value == Page(whole, |pool| - |whole|, 1)
    ensures result.Ok? && limit.Some? ==>
              var pages, wanted := Walk(pool, limit.value, maxPerDomain), offset / limit.value;
              var left := Remaining(pool, wanted, limit.value, maxPerDomain);
              && result.value.pages == |pages|
              && result.value.results == (if wanted < |pages| then pages[wanted] else [])
              && result.value.heldBack
                 == (if wanted < |pages| then HeldBack(left, |left|, limit.value, maxPerDomain) else 0)
  {
    if maxPerDomain < 1 {
      return Err("max_per_domain must be at least 1");
    }
    if offset < 0 {
      return Err("offset must not be negative");
    }
    if limit.None? {
      var whole := EnforceDomainDiversity(pool, maxPerDomain);
      KeepsFirstOfEachHost(pool, |pool|, |pool|, maxPerDomain);
      KeptIsSmaller(pool, |pool|, |pool|, maxPerDomain);
      return Ok(Page(whole.value, |pool| - |whole.value|, 1));
    }
    var size := limit.value;
    if size < 1 {
      return Err("limit must be at least 1");
    }

    var wanted := offset / size;
    var page: seq<Hit> := [];
    var heldBack := 0;
    var remaining := pool;
    var passes := 0;
    ghost var pages := Walk(pool, size, maxPerDomain);
    while remaining != []
      invariant passes <= |pages| && pages[passes..] == Walk(remaining, size, maxPerDomain)
      invariant remaining == Remaining(pool, passes, size, maxPerDomain)
      invariant page == if wanted < passes then pages[wanted] else []
      invariant heldBack == if wanted < passes
                            then HeldBack(Remaining(pool, wanted, size, maxPerDomain),
                                          |Remaining(pool, wanted, size, maxPerDomain)|, size, maxPerDomain)
                            else 0
      decreases |remaining|
    {
      FirstIsKept(remaining, |remaining|, size, maxPerDomain);
      var kept, carried, skipped := Pass(remaining, size, maxPerDomain);
      assert pages[passes] == pages[passes..][0] == kept;
      assert pages[passes + 1..] == pages[passes..][1..];
      if passes == wanted {
        page := kept;
        heldBack := skipped;
      }
      remaining := carried;
      passes := passes + 1;
    }
    result := Ok(Page(page, heldBack, passes));
  }

  lemma KeptIsSmaller(pool: seq<Hit>, n: nat, limit: nat, cap: nat)
    requires n <= |pool|
    ensures |Kept(pool, n, limit, cap)| <= n
  {
    assert |Carried(pool, n, limit, cap)| + |Kept(pool, n, limit, cap)| == n;
  }

  // -------------------------------------------------------------------------
  // Where a candidate lands

  /** A page number and a position on that page. */
  datatype Slot = Slot(page: nat, position: nat)

  /** Where the candidate at position `i` of the pool lands. */
  function Place(pool: seq<Hit>, i: nat, limit: nat, cap: nat): Slot
    requires i < |pool| && limit > 0 && cap > 0
    decreases |pool|
  {
    if IsKept(pool, i, limit, cap) then
      Slot(0, |Kept(pool, i, limit, cap)|)
    else
      FirstIsKept(pool, |pool|, limit, cap);
      CarriedTo(pool, i, |pool|, limit, cap);
      var later := Place(Carried(pool, |pool|, limit, cap), |Carried(pool, i, limit, cap)|, limit, cap);
      Slot(later.page + 1, later.position)
  }

  lemma {:induction false} KeptGrows(pool: seq<Hit>, m: nat, n: nat, limit: nat, cap: nat)
    requires m <= n <= |pool|
    ensures Kept(pool, m, limit, cap) <= Kept(pool, n, limit, cap)
    ensures Carried(pool, m, limit, cap) <= Carried(pool, n, limit, cap)
    decreases n
  {
    if m < n {
      KeptGrows(pool, m, n - 1, limit, cap);
    }
  }

  lemma StandsAfter(a: seq<Hit>, hit: Hit, b: seq<Hit>)
    requires a + [hit] <= b
    ensures |a| < |b| && b[|a|] == hit
  {
    assert (a + [hit])[|a|] == hit;
  }

  /** A kept candidate stands on the page right after those kept before it. */
  lemma KeptAt(pool: seq<Hit>, i: nat, n: nat, limit: nat, cap: nat)
    requires i < n <= |pool| && IsKept(pool, i, limit, cap)
    ensures |Kept(pool, i, limit, cap)| < |Kept(pool, n, limit, cap)|
    ensures Kept(pool, n, limit, cap)[|Kept(pool, i, limit, cap)|] == pool[i]
  {
    KeptGrows(pool, i + 1, n, limit, cap);
    StandsAfter(Kept(pool, i, limit, cap), pool[i], Kept(pool, n, limit, cap));
  }

  /** A carried candidate stands in the next pool right after those carried before it. */
  lemma CarriedTo(pool: seq<Hit>, i: nat, n: nat, limit: nat, cap: nat)
    requires i < n <= |pool| && !IsKept(pool, i, limit, cap)
    ensures |Carried(pool, i, limit, cap)| < |Carried(pool, n, limit, cap)|
    ensures Carried(pool, n, limit, cap)[|Carried(pool, i, limit, cap)|] == pool[i]
  {
    KeptGrows(pool, i + 1, n, limit, cap);
    StandsAfter(Carried(pool, i, limit, cap), pool[i], Carried(pool, n, limit, cap));
  }

  lemma LaterPages(pool: seq<Hit>, limit: nat, cap: nat, page: nat)
    requires limit > 0 && cap > 0 && pool != []
    requires page < |Walk(Carried(pool, |pool|, limit, cap), limit, cap)|
    ensures page + 1 < |Walk(pool, limit, cap)|
    ensures Walk(pool, limit, cap)[page + 1] == Walk(Carried(pool, |pool|, limit, cap), limit, cap)[page]
  {
  }

  /** The candidate is on the page, at the position, that `Place` names. */
  lemma {:induction false} PlaceIsOnPage(pool: seq<Hit>, i: nat, limit: nat, cap: nat)
    requires i < |pool| && limit > 0 && cap > 0
    ensures var slot, pages := Place(pool, i, limit, cap), Walk(pool, limit, cap);
            && slot.page < |pages| && slot.position < |pages[slot.page]|
            && pages[slot.page][slot.position] == pool[i]
    decreases |pool|
  {
    FirstIsKept(pool, |pool|, limit, cap);
    if IsKept(pool, i, limit, cap) {
      KeptAt(pool, i, |pool|, limit, cap);
    } else {
      var carried, at := Carried(pool, |pool|, limit, cap), |Carried(pool, i, limit, cap)|;
      CarriedTo(pool, i, |pool|, limit, cap);
      PlaceIsOnPage(carried, at, limit, cap);
      LaterPages(pool, limit, cap, Place(carried, at, limit, cap).page);
    }
  }

  /** Candidates kept by one pass keep their order, and so do candidates it carries over. */
  lemma PassKeepsOrder(pool: seq<Hit>, i: nat, j: nat, limit: nat, cap: nat)
    requires i < j < |pool|
    ensures IsKept(pool, i, limit, cap) ==> |Kept(pool, i, limit, cap)| < |Kept(pool, j, limit, cap)|
    ensures !IsKept(pool, i, limit, cap) ==> |Carried(pool, i, limit, cap)| < |Carried(pool, j, limit, cap)|
  {
    KeptGrows(pool, i + 1, j, limit, cap);
  }

  /** On one page candidates stand in pool order; in particular no two share a place. */
  lemma {:induction false} PlacesKeepOrder(pool: seq<Hit>, i: nat, j: nat, limit: nat, cap: nat)
    requires i < j < |pool| && limit > 0 && cap > 0
    ensures var a, b := Place(pool, i, limit, cap), Place(pool, j, limit, cap);
            a.page == b.page ==> a.position < b.position
    decreases |pool|
  {
    FirstIsKept(pool, |pool|, limit, cap);
    PassKeepsOrder(pool, i, j, limit, cap);
    if !IsKept(pool, i, limit, cap) && !IsKept(pool, j, limit, cap) {
      CarriedTo(pool, j, |pool|, limit, cap);
      PlacesKeepOrder(Carried(pool, |pool|, limit, cap),
                      |Carried(pool, i, limit, cap)|, |Carried(pool, j, limit, cap)|, limit, cap);
    }
  }

  lemma {:induction false} KeptOrigin(pool: seq<Hit>, n: nat, limit: nat, cap: nat, position: nat) returns (i: nat)
    requires n <= |pool| && position < |Kept(pool, n, limit, cap)|
    ensures i < n && IsKept(pool, i, limit, cap) && |Kept(pool, i, limit, cap)| == position
  {
    if position < |Kept(pool, n - 1, limit, cap)| {
      i := KeptOrigin(pool, n - 1, limit, cap, position);
    } else {
      i := n - 1;
    }
  }

  lemma {:induction false} CarriedOrigin(pool: seq<Hit>, n: nat, limit: nat, cap: nat, position: nat) returns (i: nat)
    requires n <= |pool| && position < |Carried(pool, n, limit, cap)|
    ensures i < n && !IsKept(pool, i, limit, cap) && |Carried(pool, i, limit, cap)| == position
  {
    if position < |Carried(pool, n - 1, limit, cap)| {
      i := CarriedOrigin(pool, n - 1, limit, cap, position);
    } else {
      i := n - 1;
    }
  }

  /** Every place on every page is some candidate's: with `PlacesKeepOrder`, the pages partition the pool. */
  lemma {:induction false} EveryPlaceIsTaken(pool: seq<Hit>, limit: nat, cap: nat, slot: Slot) returns (i: nat)
    requires limit > 0 && cap > 0
    requires slot.page < |Walk(pool, limit, cap)| && slot.position < |Walk(pool, limit, cap)[slot.page]|
    ensures i < |pool| && Place(pool, i, limit, cap) == slot
    decreases |pool|
  {
    FirstIsKept(pool, |pool|, limit, cap);
    if slot.page == 0 {
      i := KeptOrigin(pool, |pool|, limit, cap, slot.position);
    } else {
      var carried := Carried(pool, |pool|, limit, cap);
      assert Walk(pool, limit, cap)[slot.page] == Walk(carried, limit, cap)[slot.page - 1];
      var k := EveryPlaceIsTaken(carried, limit, cap, Slot(slot.page - 1, slot.position));
      i := CarriedOrigin(pool, |pool|, limit, cap, k);
      CarriedTo(pool, i, |pool|, limit, cap);
    }
  }

  // -------------------------------------------------------------------------
  // Page sizes and the cap

  lemma {:induction false} KeptObeysCaps(pool: seq<Hit>, n: nat, limit: nat, cap: nat, host: string)
    requires n <= |pool|
    ensures |Kept(pool, n, limit, cap)| <= limit && CountHost(Kept(pool, n, limit, cap), host) <= cap
  {
    if n > 0 {
      KeptObeysCaps(pool, n - 1, limit, cap, host);
      var before := Kept(pool, n - 1, limit, cap);
      assert (before + [pool[n - 1]])[..|before|] == before;
    }
  }

  /** No page is empty, longer than `limit`, or holds more than `cap` hits of one host. */
  lemma {:induction false} PagesObeyCaps(pool: seq<Hit>, limit: nat, cap: nat, page: nat, host: string)
    requires limit > 0 && cap > 0 && page < |Walk(pool, limit, cap)|
    ensures 0 < |Walk(pool, limit, cap)[page]| <= limit && CountHost(Walk(pool, limit, cap)[page], host) <= cap
    decreases |pool|
  {
    FirstIsKept(pool, |pool|, limit, cap);
    if page == 0 {
      KeptObeysCaps(pool, |pool|, limit, cap, host);
    } else {
      PagesObeyCaps(Carried(pool, |pool|, limit, cap), limit, cap, page - 1, host);
    }
  }

  // -------------------------------------------------------------------------
  // Hits of one host keep their order

  lemma {:induction false} CountGrows(kept: seq<Hit>, more: seq<Hit>, host: string)
    requires kept <= more
    ensures CountHost(kept, host) <= CountHost(more, host) && CountHost(kept, host) <= |kept|
  {
    if more != [] && |kept| < |more| {
      CountGrows(kept, more[..|more| - 1], host);
    } else if kept != [] {
      assert kept == more;
      CountGrows(kept[..|kept| - 1], kept[..|kept| - 1], host);
    }
  }

  /** Once a host's candidate is carried over, so are that host's later ones. */
  lemma LaterOfHostIsCarried(pool: seq<Hit>, i: nat, j: nat, limit: nat, cap: nat)
    requires i < j < |pool| && pool[i].host == pool[j].host
    requires !IsKept(pool, i, limit, cap)
    ensures !IsKept(pool, j, limit, cap)
  {
    KeptGrows(pool, i, j, limit, cap);
    CountGrows(Kept(pool, i, limit, cap), Kept(pool, j, limit, cap), pool[i].host);
  }

  /** Across pages, too, hits of one host stand in pool order. */
  lemma {:induction false} HostOrderIsKept(pool: seq<Hit>, i: nat, j: nat, limit: nat, cap: nat)
    requires i < j < |pool| && pool[i].host == pool[j].host && limit > 0 && cap > 0
    ensures Place(pool, i, limit, cap).page <= Place(pool, j, limit, cap).page
    decreases |pool|
  {
    FirstIsKept(pool, |pool|, limit, cap);
    if !IsKept(pool, i, limit, cap) {
      LaterOfHostIsCarried(pool, i, j, limit, cap);
      PassKeepsOrder(pool, i, j, limit, cap);
      CarriedTo(pool, i, |pool|, limit, cap);
      CarriedTo(pool, j, |pool|, limit, cap);
      HostOrderIsKept(Carried(pool, |pool|, limit, cap),
                      |Carried(pool, i, limit, cap)|, |Carried(pool, j, limit, cap)|, limit, cap);
    }
  }

  // -------------------------------------------------------------------------
  // How far a candidate can slip, and how many pages there are

  /** A carried candidate moves up by at least `Min(limit, cap)` places. */
  lemma CarriedMovesUp(pool: seq<Hit>, i: nat, limit: nat, cap: nat)
    requires i < |pool| && !IsKept(pool, i, limit, cap)
    ensures |Carried(pool, i, limit, cap)| + Min(limit, cap) <= i
  {
    CountGrows(Kept(pool, i, limit, cap), Kept(pool, i, limit, cap), pool[i].host);
  }

  lemma OneMore(n: int, m: int)
    ensures (n + 1) * m == n * m + m
  {
  }

  /** The candidate at position `i` is shown no later than on page `i / Min(limit, cap)`. */
  lemma {:induction false} PlaceIsEarly(pool: seq<Hit>, i: nat, limit: nat, cap: nat)
    requires i < |pool| && limit > 0 && cap > 0
    ensures Place(pool, i, limit, cap).page * Min(limit, cap) <= i
    decreases |pool|
  {
    FirstIsKept(pool, |pool|, limit, cap);
    if !IsKept(pool, i, limit, cap) {
      CarriedTo(pool, i, |pool|, limit, cap);
      CarriedMovesUp(pool, i, limit, cap);
      PlaceIsEarly(Carried(pool, |pool|, limit, cap), |Carried(pool, i, limit, cap)|, limit, cap);
      OneMore(Place(pool, i, limit, cap).page - 1, Min(limit, cap));
    }
  }

  /** With `n` hits there are at least n/limit pages, and fewer than n/Min(limit, cap) + 1. */
  lemma {:induction false} PageCountBounds(pool: seq<Hit>, limit: nat, cap: nat)
    requires limit > 0 && cap > 0
    ensures |pool| <= |Walk(pool, limit, cap)| * limit
    ensures |Walk(pool, limit, cap)| * Min(limit, cap) < |pool| + Min(limit, cap)
    decreases |pool|
  {
    if pool != [] {
      var carried := Carried(pool, |pool|, limit, cap);
      FirstIsKept(pool, |pool|, limit, cap);
      KeptObeysCaps(pool, |pool|, limit, cap, "");
      PageCountBounds(carried, limit, cap);
      OneMore(|Walk(carried, limit, cap)|, limit);
      OneMore(|Walk(carried, limit, cap)|, Min(limit, cap));
      NextPoolIsSmaller(pool, limit, cap);
      assert |Walk(pool, limit, cap)| == |Walk(carried, limit, cap)| + 1;
    }
  }

  /** A pass that leaves anything has used up at least `Min(limit, cap)` candidates. */
  lemma NextPoolIsSmaller(pool: seq<Hit>, limit: nat, cap: nat)
    ensures var carried := Carried(pool, |pool|, limit, cap);
            carried != [] ==> |carried| + Min(limit, cap) <= |pool|
  {
    var carried := Carried(pool, |pool|, limit, cap);
    if carried != [] {
      var last := CarriedOrigin(pool, |pool|, limit, cap, |carried| - 1);
      CarriedMovesUp(pool, last, limit, cap);
    }
  }

  // -------------------------------------------------------------------------
  // Both bounds are attained

  ghost predicate AreOfDistinctHosts(pool: seq<Hit>) {
    forall i, j :: 0 <= i < j < |pool| ==> pool[i].host != pool[j].host
  }

  ghost predicate AreOfHost(pool: seq<Hit>, host: string) {
    forall i :: 0 <= i < |pool| ==> pool[i].host == host
  }

  lemma {:induction false} CountOfAbsentHost(hits: seq<Hit>, host: string)
    requires forall i :: 0 <= i < |hits| ==> hits[i].host != host
    ensures CountHost(hits, host) == 0
  {
    if hits != [] {
      CountOfAbsentHost(hits[..|hits| - 1], host);
    }
  }

  lemma {:induction false} CountOfOnlyHost(hits: seq<Hit>, host: string)
    requires AreOfHost(hits, host)
    ensures CountHost(hits, host) == |hits|
  {
    if hits != [] {
      CountOfOnlyHost(hits[..|hits| - 1], host);
    }
  }

  /** A pass that keeps the first `size` candidates and nothing else. */
  ghost predicate CutsOff(pool: seq<Hit>, n: nat, limit: nat, cap: nat, size: nat)
    requires n <= |pool|
  {
    && Kept(pool, n, limit, cap) == pool[..Min(n, size)]
    && Carried(pool, n, limit, cap) == pool[Min(n, size)..n]
  }

  lemma CutsOffNext(pool: seq<Hit>, n: nat, limit: nat, cap: nat, size: nat)
    requires 0 < n <= |pool| && CutsOff(pool, n - 1, limit, cap, size)
    requires IsKept(pool, n - 1, limit, cap) <==> n - 1 < size
    ensures CutsOff(pool, n, limit, cap, size)
  {
    if n - 1 < size {
      assert pool[..n] == pool[..n - 1] + [pool[n - 1]];
    } else {
      assert pool[size..n] == pool[size..n - 1] + [pool[n - 1]];
    }
  }

  lemma {:induction false} DistinctHostsCutOff(pool: seq<Hit>, n: nat, limit: nat, cap: nat)
    requires AreOfDistinctHosts(pool) && n <= |pool| && cap > 0
    ensures CutsOff(pool, n, limit, cap, limit)
  {
    if n > 0 {
      DistinctHostsCutOff(pool, n - 1, limit, cap);
      CountOfAbsentHost(pool[..Min(n - 1, limit)], pool[n - 1].host);
      CutsOffNext(pool, n, limit, cap, limit);
    }
  }

  lemma {:induction false} OneHostCutsOff(pool: seq<Hit>, n: nat, limit: nat, cap: nat, host: string)
    requires AreOfHost(pool, host) && n <= |pool|
    ensures CutsOff(pool, n, limit, cap, Min(limit, cap))
  {
    if n > 0 {
      OneHostCutsOff(pool, n - 1, limit, cap, host);
      CountOfOnlyHost(pool[..Min(n - 1, Min(limit, cap))], host);
      CutsOffNext(pool, n, limit, cap, Min(limit, cap));
    }
  }

  /** As many pages of `size` as `n` hits need when all but the last are full. */
  ghost predicate AreFullPages(pages: nat, n: nat, size: nat) {
    n <= pages * size < n + size
  }

  lemma OneMoreFullPage(pages: nat, n: nat, size: nat)
    requires n > 0 && AreFullPages(pages, n - Min(n, size), size)
    ensures AreFullPages(pages + 1, n, size)
  {
    OneMore(pages, size);
    if n < size && pages > 0 {
      OneMore(pages - 1, size);
    }
  }

  /** If no host recurs, every page but the last is full: there are as few pages as the limit allows. */
  lemma {:induction false} DistinctHostsNeedFewestPages(pool: seq<Hit>, limit: nat, cap: nat)
    requires AreOfDistinctHosts(pool) && limit > 0 && cap > 0
    ensures AreFullPages(|Walk(pool, limit, cap)|, |pool|, limit)
    decreases |pool|
  {
    if pool != [] {
      var rest := pool[Min(|pool|, limit)..];
      DistinctHostsCutOff(pool, |pool|, limit, cap);
      WalkOfCutOff(pool, limit, cap, limit);
      DistinctHostsNeedFewestPages(rest, limit, cap);
      OneMoreFullPage(|Walk(rest, limit, cap)|, |pool|, limit);
    }
  }

  /** If all hits are of one host, there are as many pages as `PageCountBounds` allows. */
  lemma {:induction false} OneHostNeedsMostPages(pool: seq<Hit>, limit: nat, cap: nat, host: string)
    requires AreOfHost(pool, host) && limit > 0 && cap > 0
    ensures AreFullPages(|Walk(pool, limit, cap)|, |pool|, Min(limit, cap))
    decreases |pool|
  {
    if pool != [] {
      var size := Min(limit, cap);
      var rest := pool[Min(|pool|, size)..];
      OneHostCutsOff(pool, |pool|, limit, cap, host);
      WalkOfCutOff(pool, limit, cap, size);
      OneHostNeedsMostPages(rest, limit, cap, host);
      OneMoreFullPage(|Walk(rest, limit, cap)|, |pool|, size);
    }
  }

  lemma WalkOfCutOff(pool: seq<Hit>, limit: nat, cap: nat, size: nat)
    requires pool != [] && limit > 0 && cap > 0 && size > 0 && CutsOff(pool, |pool|, limit, cap, size)
    ensures |Walk(pool, limit, cap)| == 1 + |Walk(pool[Min(|pool|, size)..], limit, cap)|
  {
    FirstIsKept(pool, |pool|, limit, cap);
    assert Carried(pool, |pool|, limit, cap) == pool[Min(|pool|, size)..];
  }

  // -------------------------------------------------------------------------
  // What the cap holds back

  lemma {:induction false} KeptIsWithinLimit(pool: seq<Hit>, n: nat, limit: nat, cap: nat)
    requires n <= |pool|
    ensures |Kept(pool, n, limit, cap)| <= limit
  {
    if n > 0 {
      KeptIsWithinLimit(pool, n - 1, limit, cap);
    }
  }

  /** Until the page is full everything carried over was held back by the cap. */
  lemma {:induction false} HeldBackBeforeFull(pool: seq<Hit>, n: nat, limit: nat, cap: nat)
    requires n <= |pool| && (n > 0 ==> |Kept(pool, n - 1, limit, cap)| < limit)
    ensures HeldBack(pool, n, limit, cap) == |Carried(pool, n, limit, cap)| == n - |Kept(pool, n, limit, cap)|
  {
    if n > 0 {
      KeptGrows(pool, if n > 1 then n - 2 else 0, n - 1, limit, cap);
      HeldBackBeforeFull(pool, n - 1, limit, cap);
    }
  }

  /** Afterwards nothing more is. */
  lemma {:induction false} NothingHeldBackWhenFull(pool: seq<Hit>, m: nat, n: nat, limit: nat, cap: nat)
    requires m <= n <= |pool| && |Kept(pool, m, limit, cap)| == limit
    ensures HeldBack(pool, n, limit, cap) == HeldBack(pool, m, limit, cap)
    decreases n
  {
    if m < n {
      NothingHeldBackWhenFull(pool, m, n - 1, limit, cap);
      StaysFull(pool, m, n - 1, limit, cap);
      FullHoldsNothing(pool, n - 1, limit, cap);
    }
  }

  lemma FullHoldsNothing(pool: seq<Hit>, n: nat, limit: nat, cap: nat)
    requires n < |pool| && |Kept(pool, n, limit, cap)| >= limit
    ensures HeldBack(pool, n + 1, limit, cap) == HeldBack(pool, n, limit, cap)
  {
  }

  lemma StaysFull(pool: seq<Hit>, m: nat, n: nat, limit: nat, cap: nat)
    requires m <= n <= |pool| && |Kept(pool, m, limit, cap)| == limit
    ensures |Kept(pool, n, limit, cap)| >= limit
  {
    KeptGrows(pool, m, n, limit, cap);
  }

  /** The candidates passed over before position `m`, where the page is full or the pool ends: so many are held back. */
  lemma HeldBackIsPassedOver(pool: seq<Hit>, m: nat, limit: nat, cap: nat)
    requires m <= |pool| && (m > 0 ==> |Kept(pool, m - 1, limit, cap)| < limit)
    requires m == |pool| || |Kept(pool, m, limit, cap)| == limit
    ensures HeldBack(pool, |pool|, limit, cap) == m - |Kept(pool, m, limit, cap)|
    ensures |Kept(pool, m, limit, cap)| <= limit
  {
    HeldBackBeforeFull(pool, m, limit, cap);
    KeptIsWithinLimit(pool, m, limit, cap);
    if m < |pool| {
      NothingHeldBackWhenFull(pool, m, |pool|, limit, cap);
    }
  }

  /** Where no host recurs the cap holds nothing back. */
  lemma {:induction false} DistinctHostsHoldNothingBack(pool: seq<Hit>, n: nat, limit: nat, cap: nat)
    requires AreOfDistinctHosts(pool) && n <= |pool| && cap > 0
    ensures HeldBack(pool, n, limit, cap) == 0
  {
    if n > 0 {
      DistinctHostsHoldNothingBack(pool, n - 1, limit, cap);
      DistinctHostsCutOff(pool, n - 1, limit, cap);
      CountOfAbsentHost(pool[..Min(n - 1, limit)], pool[n - 1].host);
    }
  }
}
