/**
 The query path with its cache: pages are cached under the query, the window and a
 fingerprint of the index, and must be the pages a fresh evaluation would give.

 The query parser, ranking and rendering of hits belong to the search library: they
 are parameters, deterministic in the contents of the index.
 */
module QueryCache {
  import opened Basics
  import opened Text

  datatype SearchError = QueryParse(query: string)

  datatype Page<+Hit> = Page(hits: seq<Hit>, totalMatches: nat, relaxed: bool)

  datatype Outcome<+Hit> = Outcome(page: Page<Hit>, docCount: nat, cached: bool)

  datatype Key = Key(query: string, limit: nat, offset: nat, fingerprint: nat)

  // -------------------------------------------------------------------------
  // Terms

  function SkipSpace(s: string): (rest: string)
    ensures |rest| <= |s| && (rest != "" ==> !IsWhitespace(rest[0]))
  {
    if s != "" && IsWhitespace(s[0]) then SkipSpace(s[1..]) else s
  }

  function SkipWord(s: string): (rest: string)
    ensures |rest| <= |s| && (rest != "" ==> IsWhitespace(rest[0]))
  {
    if s != "" && !IsWhitespace(s[0]) then SkipWord(s[1..]) else s
  }

  /** Whether there is a second word. */
  function IsMultiTerm(query: string): bool {
    SkipSpace(SkipWord(SkipSpace(query))) != ""
  }

  /** A word at `i`, a break at `j`, another word at `k`. */
  ghost predicate HasBreak(s: string, i: nat, j: nat, k: nat) {
    i < j < k < |s| && !IsWhitespace(s[i]) && IsWhitespace(s[j]) && !IsWhitespace(s[k])
  }

  lemma {:induction false} SpaceLeaves(s: string)
    ensures SkipSpace(s) != "" <==> exists k :: 0 <= k < |s| && !IsWhitespace(s[k])
  {
    if s != "" && IsWhitespace(s[0]) {
      SpaceLeaves(s[1..]);
      if k :| 0 <= k < |s| && !IsWhitespace(s[k]) {
        assert !IsWhitespace(s[1..][k - 1]);
      }
    }
  }

  lemma {:induction false} WordLeaves(s: string)
    ensures SkipSpace(SkipWord(s)) != "" <==>
            exists j, k :: 0 <= j < k < |s| && IsWhitespace(s[j]) && !IsWhitespace(s[k])
  {
    if s == "" {
    } else if IsWhitespace(s[0]) {
      SpaceLeaves(s);
    } else {
      WordLeaves(s[1..]);
      if j, k :| 0 <= j < k < |s| && IsWhitespace(s[j]) && !IsWhitespace(s[k]) {
        assert IsWhitespace(s[1..][j - 1]) && !IsWhitespace(s[1..][k - 1]);
      }
    }
  }

  /** A query has several terms exactly when white space separates two other characters. */
  lemma {:induction false} MultiTermMeansBreak(query: string)
    ensures IsMultiTerm(query) <==> exists i: nat, j: nat, k: nat :: HasBreak(query, i, j, k)
  {
    if query == "" {
    } else if IsWhitespace(query[0]) {
      MultiTermMeansBreak(query[1..]);
      if i: nat, j: nat, k: nat :| HasBreak(query, i, j, k) {
        assert HasBreak(query[1..], i - 1, j - 1, k - 1);
      }
      if i: nat, j: nat, k: nat :| HasBreak(query[1..], i, j, k) {
        assert HasBreak(query, i + 1, j + 1, k + 1);
      }
    } else {
      WordLeaves(query);
      if j, k :| 0 <= j < k < |query| && IsWhitespace(query[j]) && !IsWhitespace(query[k]) {
        assert HasBreak(query, 0, j, k);
      }
    }
  }

  // -------------------------------------------------------------------------
  // Evaluation

  /** What the search library does, on the contents `G` of an index. */
  datatype Library<!G, !Q, !Hit> = Library(
    /** The query, requiring every term or any one; nothing when it does not parse. */
    parse: (string, bool) -> Option<Q>,
    /** Every match, best first, as it is shown. */
    ranked: (G, Q) -> seq<Hit>,
    docCount: G -> nat,
    fingerprint: G -> nat)

  /** `limit` hits from `offset`, but at least one: the collector refuses a limit of zero. */
  function Window<Hit>(hits: seq<Hit>, limit: nat, offset: nat): seq<Hit> {
    hits[Min(offset, |hits|)..Min(offset + Max(limit, 1), |hits|)]
  }

  /** The page a search without a cache gives. */
  ghost function Evaluate<G, Q, Hit>(lib: Library<G, Q, Hit>, contents: G, query: string, limit: nat, offset: nat)
    : Result<Page<Hit>, SearchError>
  {
    var strict := lib.parse(query, true);
    var wide := lib.parse(query, false);
    if strict == None then Err(QueryParse(query))
    else if lib.ranked(contents, strict.value) != [] || !IsMultiTerm(query) then
      Ok(PageOf(lib.ranked(contents, strict.value), limit, offset, false))
    else if wide == None then Err(QueryParse(query))
    else
      var found := lib.ranked(contents, wide.value);
      Ok(PageOf(found, limit, offset, found != []))
  }

  ghost function PageOf<Hit>(found: seq<Hit>, limit: nat, offset: nat, relaxed: bool): Page<Hit> {
    Page(Window(found, limit, offset), |found|, relaxed)
  }

  // -------------------------------------------------------------------------
  // Paging

  /** Where page `n` begins when each request moves the offset by the limit. */
  function OffsetOf(limit: nat, n: nat): nat {
    if n == 0 then 0 else OffsetOf(limit, n - 1) + limit
  }

  /** The hits of the first `n` pages, one after the other. */
  ghost function Pages<Hit>(found: seq<Hit>, limit: nat, n: nat): seq<Hit> {
    if n == 0 then [] else Pages(found, limit, n - 1) + Window(found, limit, OffsetOf(limit, n - 1))
  }

  lemma NextPage<Hit>(found: seq<Hit>, limit: nat, offset: nat)
    requires limit > 0
    ensures found[..Min(offset, |found|)] + Window(found, limit, offset) == found[..Min(offset + limit, |found|)]
  {
  }

  /** Paging through a result shows every match once, in order, and the total says when to stop. */
  lemma {:induction false} PagesCover<Hit>(found: seq<Hit>, limit: nat, n: nat)
    requires limit > 0
    ensures Pages(found, limit, n) == found[..Min(OffsetOf(limit, n), |found|)]
    ensures OffsetOf(limit, n) >= |found| ==> Pages(found, limit, n) == found
    ensures Window(found, limit, OffsetOf(limit, n)) == [] <==> OffsetOf(limit, n) >= |found|
  {
    if n > 0 {
      PagesCover(found, limit, n - 1);
      NextPage(found, limit, OffsetOf(limit, n - 1));
    }
  }

  // -------------------------------------------------------------------------
  // What a page says about the matches

  /** Every match of a query, requiring every term or any one. */
  ghost function MatchesOf<G, Q, Hit>(lib: Library<G, Q, Hit>, contents: G, query: string, strictly: bool): seq<Hit> {
    var parsed := lib.parse(query, strictly);
    if parsed == None then [] else lib.ranked(contents, parsed.value)
  }

  /** The `hits` are those of `found` at the places from `offset` on, as many as there are up to the limit. */
  ghost predicate IsWindow<Hit>(hits: seq<Hit>, found: seq<Hit>, limit: nat, offset: nat) {
    && |hits| == Min(Max(limit, 1), SaturatingSub(|found|, offset))
    && forall k :: 0 <= k < |hits| ==> hits[k] == found[offset + k]
  }

  /**
   A query has no answer when it does not parse in a form that is needed. A page is
   relaxed exactly when no document has every term, there are several, and some document
   has one; it shows the matches from the offset on and counts them all.
   */
  ghost predicate Answers<G, Q, Hit>(lib: Library<G, Q, Hit>, contents: G, query: string, limit: nat, offset: nat,
                                     result: Result<Page<Hit>, SearchError>)
  {
    var strict, wide := MatchesOf(lib, contents, query, true), MatchesOf(lib, contents, query, false);
    match result
    case Err(error) =>
      && error == QueryParse(query)
      && (lib.parse(query, true) == None || (strict == [] && IsMultiTerm(query) && lib.parse(query, false) == None))
    case Ok(page) =>
      && lib.parse(query, true) != None
      && (strict == [] && IsMultiTerm(query) ==> lib.parse(query, false) != None)
      && (page.relaxed <==> strict == [] && IsMultiTerm(query) && wide != [])
      && page.totalMatches == |if page.relaxed then wide else strict|
      && IsWindow(page.hits, if page.relaxed then wide else strict, limit, offset)
  }

  lemma AnswerIsUnique<G, Q, Hit>(lib: Library<G, Q, Hit>, contents: G, query: string, limit: nat, offset: nat,
                                  one: Result<Page<Hit>, SearchError>, other: Result<Page<Hit>, SearchError>)
    requires Answers(lib, contents, query, limit, offset, one) && Answers(lib, contents, query, limit, offset, other)
    ensures one == other
  {
    if one.Ok? && other.Ok? {
      assert one.value.hits == other.value.hits;
    }
  }

  lemma EvaluateAnswers<G, Q, Hit>(lib: Library<G, Q, Hit>, contents: G, query: string, limit: nat, offset: nat)
    ensures Answers(lib, contents, query, limit, offset, Evaluate(lib, contents, query, limit, offset))
  {
    var evaluated := Evaluate(lib, contents, query, limit, offset);
    if evaluated.Ok? {
      var found := if evaluated.value.relaxed then MatchesOf(lib, contents, query, false)
                   else MatchesOf(lib, contents, query, true);
      assert evaluated.value.hits == Window(found, limit, offset);
    }
  }

  /** The hits of the first `n` requests of a query, one after the other. */
  ghost function Paged<G, Q, Hit>(lib: Library<G, Q, Hit>, contents: G, query: string, limit: nat, n: nat): seq<Hit> {
    if n == 0 then []
    else
      var page := Evaluate(lib, contents, query, limit, OffsetOf(limit, n - 1));
      Paged(lib, contents, query, limit, n - 1) + if page.Ok? then page.value.hits else []
  }

  /**
   While the index stays as it is, requests that move on by the limit show every strict match
   once and in order, or if there is none every wide one; each says how many there are, and
   whether they are wide, alike.
   */
  lemma {:induction false} PagingShowsEveryMatch<G, Q, Hit>(lib: Library<G, Q, Hit>, contents: G, query: string,
                                                            limit: nat,
                                                            n: nat)
    requires limit > 0 && Evaluate(lib, contents, query, limit, 0).Ok?
    ensures var first := Evaluate(lib, contents, query, limit, 0);
            var next := Evaluate(lib, contents, query, limit, OffsetOf(limit, n));
            && next.Ok? && next.value.totalMatches == first.value.totalMatches
            && next.value.relaxed == first.value.relaxed
            && |Paged(lib, contents, query, limit, n)| == Min(OffsetOf(limit, n), first.value.totalMatches)
            && (next.value.hits == [] <==> OffsetOf(limit, n) >= first.value.totalMatches)
            && Paged(lib, contents, query, limit, n) <= MatchesOf(lib, contents, query, !first.value.relaxed)
  {
    var found := MatchesOf(lib, contents, query, !Evaluate(lib, contents, query, limit, 0).value.relaxed);
    PagesCover(found, limit, n);
    PagedArePages(lib, contents, query, limit, n, found);
  }

  lemma {:induction false} PagedArePages<G, Q, Hit>(lib: Library<G, Q, Hit>, contents: G, query: string, limit: nat,
                                                    n: nat,
                                                    found: seq<Hit>)
    requires Evaluate(lib, contents, query, limit, 0).Ok?
    requires found == MatchesOf(lib, contents, query, !Evaluate(lib, contents, query, limit, 0).value.relaxed)
    ensures Paged(lib, contents, query, limit, n) == Pages(found, limit, n)
  {
    if n > 0 {
      PagedArePages(lib, contents, query, limit, n - 1, found);
    }
  }

  // -------------------------------------------------------------------------
  // The engine

  class SearchEngine<!G(==), !Q(==), !Hit> {
    const lib: Library<G, Q, Hit>
    /** The index as the writer last committed it, and as this reader last saw it. */
    var committed: G
    var reader: G
    var cache: map<Key, Page<Hit>>
    /** Everything the reader has seen. */
    ghost var seen: set<G>

    /** Every cached page was right for some contents with the fingerprint in its key. */
    ghost predicate Valid()
      reads this
    {
      forall key :: key in cache ==> IsPageOfSeen(key)
    }

    ghost predicate IsPageOfSeen(key: Key)
      requires key in cache
      reads this
    {
      exists contents :: contents in seen && lib.fingerprint(contents) == key.fingerprint
                         && Evaluate(lib, contents, key.query, key.limit, key.offset) == Ok(cache[key])
    }

    constructor (lib: Library<G, Q, Hit>, committed: G)
      ensures Valid() && this.lib == lib && this.committed == committed && cache == map[]
    {
      this.lib, this.committed, reader, cache, seen := lib, committed, committed, map[], {};
    }

    /** The writer commits: another process, at any time. */
    method Commit(contents: G)
      requires Valid()
      modifies this`committed
      ensures Valid() && committed == contents
    {
      committed := contents;
    }

    /** The cache may drop any entry at any time. */
    method Evict(key: Key)
      requires Valid()
      modifies this`cache
      ensures Valid() && cache == old(cache) - {key}
    {
      cache := cache - {key};
      assert forall other :: other in cache ==> old(IsPageOfSeen(other));
    }

    /** Picks up what the writer committed. */
    method Reload()
      requires Valid()
      modifies this`reader, this`seen
      ensures Valid() && reader == committed && seen == old(seen) + {committed}
    {
      reader := committed;
      seen := seen + {reader};
      assert forall key :: key in cache ==> old(IsPageOfSeen(key));
    }

    /** The choice between every term and any term, and the page it gives. */
    method Query(query: string, limit: nat, offset: nat) returns (result: Result<Page<Hit>, SearchError>)
      ensures Answers(lib, reader, query, limit, offset, result)
    {
      var strict := lib.parse(query, true);
      if strict.None? {
        return Err(QueryParse(query));
      }
      var found, relaxed := lib.ranked(reader, strict.value), false;
      if |found| == 0 && IsMultiTerm(query) {
        var wide := lib.parse(query, false);
        if wide.None? {
          return Err(QueryParse(query));
        }
        var wideFound := lib.ranked(reader, wide.value);
        if |wideFound| > 0 {
          found, relaxed := wideFound, true;
        }
      }
      return Ok(Page(Window(found, limit, offset), |found|, relaxed));
    }

    /**
     Answers a query. The answer is that of a fresh evaluation on what is committed,
     provided fingerprints tell it from everything seen before; without that it is
     the answer of some contents with the same fingerprint. A query that does not
     parse is not cached.
     */
    method Search(query: string, limit: nat, offset: nat) returns (result: Result<Outcome<Hit>, SearchError>)
      requires Valid()
      modifies this`reader, this`seen, this`cache
      ensures Valid() && reader == committed && seen == old(seen) + {committed}
      ensures result.Ok? ==> result.value.docCount == lib.docCount(committed)
      ensures AnswersFrom(result, query, limit, offset)
      ensures Distinguishes(committed, seen) ==>
                Shown(result) == Evaluate(lib, committed, query, limit, offset)
      ensures var key := Key(query, limit, offset, lib.fingerprint(committed));
              if result.Err? || result.value.cached then cache == old(cache)
              else cache == old(cache)[key := result.value.page]
      ensures result.Ok? ==> (result.value.cached
                              <==> Key(query, limit, offset, lib.fingerprint(committed)) in old(cache))
    {
      Reload();
      var fingerprint := lib.fingerprint(reader);
      var key := Key(query, limit, offset, fingerprint);
      var docCount := lib.docCount(reader);
      if key in cache {
        assert IsPageOfSeen(key);
        return Ok(Outcome(cache[key], docCount, true));
      }
      var evaluated := Query(query, limit, offset);
      EvaluateAnswers(lib, reader, query, limit, offset);
      AnswerIsUnique(lib, reader, query, limit, offset, evaluated, Evaluate(lib, reader, query, limit, offset));
      if evaluated.Err? {
        return Err(evaluated.error);
      }
      ghost var before := cache;
      assert forall other :: other in cache ==> IsPageOfSeen(other);
      cache := cache[key := evaluated.value];
      result := Ok(Outcome(evaluated.value, docCount, false));
    }

    /** The fingerprint tells these contents from all others in the set. */
    ghost predicate Distinguishes(contents: G, others: set<G>) {
      forall other :: other in others && lib.fingerprint(other) == lib.fingerprint(contents) ==> other == contents
    }

    ghost predicate AnswersFrom(result: Result<Outcome<Hit>, SearchError>, query: string, limit: nat, offset: nat)
      reads this
    {
      exists contents :: contents in seen && lib.fingerprint(contents) == lib.fingerprint(committed)
                         && Shown(result) == Evaluate(lib, contents, query, limit, offset)
    }

    /** The part of an answer that does not say how it was come by. */
    ghost function Shown(result: Result<Outcome<Hit>, SearchError>): Result<Page<Hit>, SearchError> {
      match result
      case Ok(outcome) => Ok(outcome.page)
      case Err(error) => Err(error)
    }
  }
}
