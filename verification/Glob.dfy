/**
 Path patterns of robots.txt: `*` stands for any string, and a pattern without
 `$` only has to match a prefix of the path (RFC 9309, section 2.2.3).

 `Matches` is the matcher itself, a loop that remembers the last `*` only. Its
 contract says what the loop decides in terms of the language of the pattern.
 */
module Glob {
  import opened Basics

  const STAR: char := '*'

  /** Whether the whole of `text` is in the language of `pattern`. */
  ghost predicate InLanguage(pattern: string, text: string)
    decreases |pattern|
  {
    if pattern == [] then
      text == []
    else if pattern[0] == STAR then
      exists k :: 0 <= k <= |text| && InLanguage(pattern[1..], text[k..])
    else
      text != [] && text[0] == pattern[0] && InLanguage(pattern[1..], text[1..])
  }

  /** Whether some prefix of `text` is in the language of `pattern`. */
  ghost predicate MatchesPrefix(pattern: string, text: string) {
    exists n :: 0 <= n <= |text| && InLanguage(pattern, text[..n])
  }

  /** Whether a prefix of `text` shorter than `text` is in the language of `pattern`. */
  ghost predicate MatchesProperPrefix(pattern: string, text: string) {
    exists n :: 0 <= n < |text| && InLanguage(pattern, text[..n])
  }

  /** What the matcher answers, in terms of the language only. */
  ghost predicate Verdict(pattern: string, text: string, anchored: bool) {
    if anchored then InLanguage(pattern, text) && !MatchesProperPrefix(pattern, text)
    else MatchesPrefix(pattern, text)
  }

  /** `pattern[p..]` generates exactly `text[t..end]`. */
  ghost predicate Reaches(pattern: string, text: string, p: nat, t: nat, end: nat)
    requires p <= |pattern|
  {
    t <= end <= |text| && InLanguage(pattern[p..], text[t..end])
  }

  /** Where matches from pattern position `p` and text position `t` can end. */
  ghost function Ends(pattern: string, text: string, p: nat, t: nat): iset<nat>
    requires p <= |pattern|
  {
    iset end: nat | Reaches(pattern, text, p, t, end)
  }

  /** Being at a pattern position `p` and text position `t` leads to the same matches as being at `q` and `u`. */
  ghost predicate SameEnds(pattern: string, text: string, p: nat, t: nat, q: nat, u: nat)
    requires p <= |pattern| && q <= |pattern|
  {
    Ends(pattern, text, p, t) == Ends(pattern, text, q, u)
  }

  /** `pattern[p..q]` has no star and equals the text from `t` on. */
  ghost predicate LiteralRun(pattern: string, text: string, p: nat, q: nat, t: nat) {
    && p <= q <= |pattern|
    && t + (q - p) <= |text|
    && pattern[p..q] == text[t..t + (q - p)]
    && STAR !in pattern[p..q]
  }

  // -------------------------------------------------------------------------
  // One step of the language from a position

  lemma ReachesAtEnd(pattern: string, text: string, t: nat, end: nat)
    requires t <= |text|
    ensures Reaches(pattern, text, |pattern|, t, end) <==> end == t
  {
  }

  lemma ReachesChar(pattern: string, text: string, p: nat, t: nat, end: nat)
    requires p < |pattern| && pattern[p] != STAR
    ensures Reaches(pattern, text, p, t, end)
            <==> t < |text| && text[t] == pattern[p] && Reaches(pattern, text, p + 1, t + 1, end)
  {
    assert pattern[p..][1..] == pattern[p + 1..];
    if t < end <= |text| {
      assert text[t..end][1..] == text[t + 1..end];
    }
  }

  lemma ReachesStar(pattern: string, text: string, p: nat, q: nat, t: nat, end: nat)
    requires p < |pattern| && pattern[p] == STAR && q == p + 1
    ensures Reaches(pattern, text, p, t, end) <==> exists r: nat :: t <= r && Reaches(pattern, text, q, r, end)
  {
    assert pattern[p..][1..] == pattern[q..];
    if Reaches(pattern, text, p, t, end) {
      var k :| 0 <= k <= |text[t..end]| && InLanguage(pattern[p..][1..], text[t..end][k..]);
      assert text[t..end][k..] == text[t + k..end];
      assert Reaches(pattern, text, q, t + k, end);
    }
    if r: nat :| t <= r && Reaches(pattern, text, q, r, end) {
      assert text[t..end][r - t..] == text[r..end];
      assert 0 <= r - t <= |text[t..end]| && InLanguage(pattern[p..][1..], text[t..end][r - t..]);
    }
  }

  /** A star further to the left in the text can absorb what separates it from one further right. */
  lemma StarIsMonotone(pattern: string, text: string, p: nat, t: nat, u: nat, end: nat)
    requires p < |pattern| && pattern[p] == STAR
    requires t <= u && Reaches(pattern, text, p, u, end)
    ensures Reaches(pattern, text, p, t, end)
  {
    ReachesStar(pattern, text, p, p + 1, u, end);
    ReachesStar(pattern, text, p, p + 1, t, end);
  }

  /** Going through a literal run forward. */
  lemma {:induction false} RunForward(pattern: string, text: string, p: nat, q: nat, t: nat, end: nat)
    requires LiteralRun(pattern, text, p, q, t)
    ensures Reaches(pattern, text, p, t, end) <==> Reaches(pattern, text, q, t + (q - p), end)
    decreases q - p
  {
    if p < q {
      assert pattern[p] == pattern[p..q][0] && text[t] == text[t..t + (q - p)][0];
      assert pattern[p + 1..q] == pattern[p..q][1..];
      assert text[t + 1..t + 1 + (q - p - 1)] == text[t..t + (q - p)][1..];
      RunForward(pattern, text, p + 1, q, t + 1, end);
      ReachesChar(pattern, text, p, t, end);
    }
  }

  /** A match from the start of a star-free stretch consumes that stretch wherever it starts. */
  lemma {:induction false} RunConsumes(pattern: string, text: string, p: nat, q: nat, t: nat, end: nat)
    requires p <= q <= |pattern| && STAR !in pattern[p..q]
    requires Reaches(pattern, text, p, t, end)
    ensures t + (q - p) <= end <= |text|
    ensures Reaches(pattern, text, q, t + (q - p), end)
    ensures LiteralRun(pattern, text, p, q, t)
    decreases q - p
  {
    if p < q {
      assert pattern[p] == pattern[p..q][0];
      assert pattern[p + 1..q] == pattern[p..q][1..];
      ReachesChar(pattern, text, p, t, end);
      RunConsumes(pattern, text, p + 1, q, t + 1, end);
      assert pattern[p..q] == [pattern[p]] + pattern[p + 1..q];
      assert text[t..t + (q - p)] == [text[t]] + text[t + 1..t + (q - p)];
    }
  }

  // -------------------------------------------------------------------------
  // The exchange arguments behind remembering only the last star

  /**
   Once the literal stretch after a star has matched at the earliest place it can
   and another star follows, the earlier star never needs to be reconsidered: a
   later placement leads to no match the later star cannot produce.
   */
  lemma CommitToRun(pattern: string, text: string, star: nat, q: nat, resume: nat)
    requires star < q < |pattern| && pattern[star] == STAR && pattern[q] == STAR
    requires LiteralRun(pattern, text, star + 1, q, resume)
    ensures SameEnds(pattern, text, star, resume, q, resume + (q - star - 1))
  {
    var t := resume + (q - star - 1);
    forall end: nat
      ensures Reaches(pattern, text, star, resume, end) <==> Reaches(pattern, text, q, t, end)
    {
      ReachesStar(pattern, text, star, star + 1, resume, end);
      RunForward(pattern, text, star + 1, q, resume, end);
      if Reaches(pattern, text, star, resume, end) {
        var r: nat :| resume <= r && Reaches(pattern, text, star + 1, r, end);
        RunConsumes(pattern, text, star + 1, q, r, end);
        StarIsMonotone(pattern, text, q, t, r + (q - star - 1), end);
      }
    }
  }

  /** No match at all starts at pattern position `p` and text position `t`. */
  ghost predicate DeadEnd(pattern: string, text: string, p: nat, t: nat)
    requires p <= |pattern|
  {
    Ends(pattern, text, p, t) == iset{}
  }

  lemma DeadEndMeans(pattern: string, text: string, p: nat, t: nat)
    requires p <= |pattern| && DeadEnd(pattern, text, p, t)
    ensures forall end: nat :: !Reaches(pattern, text, p, t, end)
  {
    forall end: nat
      ensures !Reaches(pattern, text, p, t, end)
    {
      assert end !in Ends(pattern, text, p, t);
    }
  }

  /** When the stretch after the star cannot match at `resume`, the star absorbs one more character. */
  lemma SkipOne(pattern: string, text: string, star: nat, resume: nat)
    requires star < |pattern| && pattern[star] == STAR
    requires DeadEnd(pattern, text, star + 1, resume)
    ensures SameEnds(pattern, text, star, resume, star, resume + 1)
  {
    DeadEndMeans(pattern, text, star + 1, resume);
    forall end: nat
      ensures Reaches(pattern, text, star, resume, end) <==> Reaches(pattern, text, star, resume + 1, end)
    {
      ReachesStar(pattern, text, star, star + 1, resume, end);
      ReachesStar(pattern, text, star, star + 1, resume + 1, end);
    }
  }

  /** A mismatch right after a matched run rules out every match from the run's start. */
  lemma MismatchRulesOut(pattern: string, text: string, p: nat, q: nat, t: nat)
    requires LiteralRun(pattern, text, p, q, t)
    requires q < |pattern| && pattern[q] != STAR
    requires t + (q - p) == |text| || text[t + (q - p)] != pattern[q]
    ensures DeadEnd(pattern, text, p, t)
  {
    forall end: nat
      ensures end !in Ends(pattern, text, p, t)
      ensures !Reaches(pattern, text, p, t, end)
    {
      RunForward(pattern, text, p, q, t, end);
      ReachesChar(pattern, text, q, t + (q - p), end);
    }
  }

  /** `end` is where the shortest match from pattern position `p` and text position `t` stops. */
  ghost predicate Shortest(pattern: string, text: string, p: nat, t: nat, end: nat)
    requires p <= |pattern|
  {
    Reaches(pattern, text, p, t, end) && forall other: nat :: Reaches(pattern, text, p, t, other) ==> end <= other
  }

  /** With the pattern exhausted, the position reached is the end of the shortest match. */
  lemma ShortestFromStar(pattern: string, text: string, star: nat, resume: nat)
    requires star < |pattern| && pattern[star] == STAR
    requires LiteralRun(pattern, text, star + 1, |pattern|, resume)
    ensures Shortest(pattern, text, star, resume, resume + (|pattern| - star - 1))
  {
    var t := resume + (|pattern| - star - 1);
    RunForward(pattern, text, star + 1, |pattern|, resume, t);
    ReachesAtEnd(pattern, text, t, t);
    ReachesStar(pattern, text, star, star + 1, resume, t);
    forall end: nat | Reaches(pattern, text, star, resume, end)
      ensures t <= end
    {
      ReachesStar(pattern, text, star, star + 1, resume, end);
      var r: nat :| resume <= r && Reaches(pattern, text, star + 1, r, end);
      RunConsumes(pattern, text, star + 1, |pattern|, r, end);
    }
  }

  lemma ShortestWithoutStar(pattern: string, text: string)
    requires LiteralRun(pattern, text, 0, |pattern|, 0)
    ensures Shortest(pattern, text, 0, 0, |pattern|)
  {
    forall end: nat
      ensures Reaches(pattern, text, 0, 0, end) <==> end == |pattern|
    {
      RunForward(pattern, text, 0, |pattern|, 0, end);
      ReachesAtEnd(pattern, text, |pattern|, end);
    }
  }

  lemma ShortestIsShared(pattern: string, text: string, star: nat, resume: nat, end: nat)
    requires star <= |pattern| && SameEnds(pattern, text, 0, 0, star, resume)
    requires Shortest(pattern, text, star, resume, end)
    ensures Shortest(pattern, text, 0, 0, end)
  {
    forall other: nat
      ensures Reaches(pattern, text, 0, 0, other) <==> Reaches(pattern, text, star, resume, other)
    {
      assert other in Ends(pattern, text, 0, 0) <==> other in Ends(pattern, text, star, resume);
    }
  }

  /** The verdict read off the shortest match. */
  lemma VerdictFromShortest(pattern: string, text: string, anchored: bool, shortest: nat)
    requires Shortest(pattern, text, 0, 0, shortest)
    ensures Verdict(pattern, text, anchored) <==> !anchored || shortest == |text|
  {
    assert pattern[0..] == pattern && text[..|text|] == text;
    forall n: nat | n <= |text|
      ensures InLanguage(pattern, text[..n]) <==> Reaches(pattern, text, 0, 0, n)
    {
      assert text[0..n] == text[..n];
    }
    assert InLanguage(pattern, text[..shortest]);
  }

  lemma NoMatchAtAll(pattern: string, text: string, anchored: bool)
    requires DeadEnd(pattern, text, 0, 0)
    ensures !Verdict(pattern, text, anchored)
  {
    assert pattern[0..] == pattern && text[..|text|] == text;
    DeadEndMeans(pattern, text, 0, 0);
    forall n: nat | n <= |text|
      ensures !InLanguage(pattern, text[..n])
    {
      assert text[0..n] == text[..n];
      assert !Reaches(pattern, text, 0, 0, n);
    }
  }

  // -------------------------------------------------------------------------
  // The loop's invariant, and how each branch keeps it

  /**
   Where the matcher stands: before any star it has matched a literal prefix; after
   one, the stretch since the last star matches at `resume`, and the matches from
   the very beginning are exactly those of the last star placed at `resume`.
   */
  ghost predicate StandsAt(pattern: string, text: string, p: nat, t: nat, star: Option<nat>, resume: nat) {
    match star
    case None => p == t && LiteralRun(pattern, text, 0, p, 0)
    case Some(s) =>
      && s < p <= |pattern|
      && pattern[s] == STAR
      && t == resume + (p - s - 1)
      && LiteralRun(pattern, text, s + 1, p, resume)
      && SameEnds(pattern, text, 0, 0, s, resume)
  }

  ghost predicate Progress(pattern: string, text: string, p: nat, t: nat, star: Option<nat>, resume: nat) {
    forall n: nat :: UnfoldHere(n) ==> StandsAt(pattern, text, p, t, star, resume)
  }

  lemma StepStar(pattern: string, text: string, p: nat, t: nat, star: Option<nat>, resume: nat)
    requires Progress(pattern, text, p, t, star, resume)
    requires p < |pattern| && pattern[p] == STAR
    ensures Progress(pattern, text, p + 1, t, Some(p), t)
  {
    assert UnfoldHere(0);
    match star
    case None =>
      forall end: nat
        ensures Reaches(pattern, text, 0, 0, end) <==> Reaches(pattern, text, p, t, end)
      {
        RunForward(pattern, text, 0, p, 0, end);
      }
    case Some(s) =>
      CommitToRun(pattern, text, s, p, resume);
  }

  lemma StepChar(pattern: string, text: string, p: nat, t: nat, star: Option<nat>, resume: nat)
    requires Progress(pattern, text, p, t, star, resume)
    requires p < |pattern| && t < |text| && pattern[p] == text[t] && pattern[p] != STAR
    ensures Progress(pattern, text, p + 1, t + 1, star, resume)
  {
    assert UnfoldHere(0);
    var from, at := if star.Some? then star.value + 1 else 0, if star.Some? then resume else 0;
    assert pattern[from..p + 1] == pattern[from..p] + [pattern[p]];
    assert text[at..t + 1] == text[at..t] + [text[t]];
  }

  lemma StepBack(pattern: string, text: string, p: nat, t: nat, star: nat, resume: nat, anchored: bool)
    requires Progress(pattern, text, p, t, Some(star), resume)
    requires p < |pattern| && pattern[p] != STAR
    requires t == |text| || (t < |text| && pattern[p] != text[t])
    ensures if resume < |text| then Progress(pattern, text, star + 1, resume + 1, Some(star), resume + 1)
            else !Verdict(pattern, text, anchored)
  {
    assert UnfoldHere(0);
    MismatchRulesOut(pattern, text, star + 1, p, resume);
    SkipOne(pattern, text, star, resume);
    if resume == |text| {
      NoMatchAtAll(pattern, text, anchored);
    }
  }

  lemma MismatchWithoutStar(pattern: string, text: string, p: nat, t: nat, resume: nat, anchored: bool)
    requires Progress(pattern, text, p, t, None, resume)
    requires p < |pattern| && pattern[p] != STAR
    requires t == |text| || (t < |text| && pattern[p] != text[t])
    ensures !Verdict(pattern, text, anchored)
  {
    assert UnfoldHere(0);
    MismatchRulesOut(pattern, text, 0, p, 0);
    NoMatchAtAll(pattern, text, anchored);
  }

  /** With the pattern exhausted, the verdict depends only on how much text is left. */
  lemma Exhausted(pattern: string, text: string, t: nat, star: Option<nat>, resume: nat, anchored: bool)
    requires Progress(pattern, text, |pattern|, t, star, resume)
    ensures Verdict(pattern, text, anchored) <==> !anchored || t == |text|
  {
    assert UnfoldHere(0);
    match star {
      case None => ShortestWithoutStar(pattern, text);
      case Some(s) =>
        ShortestFromStar(pattern, text, s, resume);
        ShortestIsShared(pattern, text, s, resume, t);
    }
    VerdictFromShortest(pattern, text, anchored, t);
  }

  /** The backtracking matcher: on a mismatch it resumes at the last star, one character further on. */
  method Matches(pattern: string, text: string, anchored: bool) returns (matched: bool)
    ensures matched <==> Verdict(pattern, text, anchored)
  {
    var patternAt: nat, textAt: nat := 0, 0;
    var starAt: Option<nat> := None;
    var resumeAt: nat := 0;

    while true
      invariant patternAt <= |pattern| && textAt <= |text| && resumeAt <= |text|
      invariant starAt.Some? ==> starAt.value < patternAt
      invariant Progress(pattern, text, patternAt, textAt, starAt, resumeAt)
      decreases if starAt.Some? then |pattern| - starAt.value else |pattern| + 1,
                |text| - resumeAt,
                |pattern| - patternAt
    {
      if patternAt < |pattern| && pattern[patternAt] == STAR {
        StepStar(pattern, text, patternAt, textAt, starAt, resumeAt);
        starAt := Some(patternAt);
        resumeAt := textAt;
        patternAt := patternAt + 1;
      } else if patternAt < |pattern| && textAt < |text| && pattern[patternAt] == text[textAt] {
        StepChar(pattern, text, patternAt, textAt, starAt, resumeAt);
        patternAt := patternAt + 1;
        textAt := textAt + 1;
      } else if patternAt == |pattern| {
        Exhausted(pattern, text, textAt, starAt, resumeAt, anchored);
        return !anchored || textAt == |text|;
      } else if starAt.Some? {
        StepBack(pattern, text, patternAt, textAt, starAt.value, resumeAt, anchored);
        resumeAt := resumeAt + 1;
        if resumeAt > |text| {
          return false;
        }
        patternAt := starAt.value + 1;
        textAt := resumeAt;
      } else {
        MismatchWithoutStar(pattern, text, patternAt, textAt, resumeAt, anchored);
        return false;
      }
    }
  }

  // -------------------------------------------------------------------------
  // Where an anchored pattern is decided as RFC 9309 asks, and where it is not

  /**
   The shorter match that misleads an anchored pattern is one the unanchored matcher finds without
   the last character.
   */
  lemma ProperPrefixIsUnanchoredVerdict(pattern: string, text: string)
    requires text != []
    ensures MatchesProperPrefix(pattern, text) <==> Verdict(pattern, text[..|text| - 1], false)
  {
    var shorter := text[..|text| - 1];
    forall n: nat | n < |text|
      ensures shorter[..n] == text[..n]
    {
    }
    if n :| 0 <= n < |text| && InLanguage(pattern, text[..n]) {
      assert InLanguage(pattern, shorter[..n]);
    }
    if n :| 0 <= n <= |shorter| && InLanguage(pattern, shorter[..n]) {
      assert InLanguage(pattern, text[..n]);
    }
  }

  lemma {:induction false} WithoutStarOnlyItself(pattern: string, text: string)
    requires STAR !in pattern
    ensures InLanguage(pattern, text) <==> text == pattern
    decreases |pattern|
  {
    if pattern != [] && text != [] {
      WithoutStarOnlyItself(pattern[1..], text[1..]);
      assert text == [text[0]] + text[1..] && pattern == [pattern[0]] + pattern[1..];
    }
  }

  /** A pattern with a star generates a text together with one of its proper prefixes. */
  lemma {:induction false} StarGeneratesExtension(pattern: string) returns (short: string, long: string)
    requires STAR in pattern
    ensures |short| < |long| && short == long[..|short|]
    ensures InLanguage(pattern, short) && InLanguage(pattern, long)
    decreases |pattern|
  {
    var rest := pattern[1..];
    if pattern[0] != STAR {
      var s, l := StarGeneratesExtension(rest);
      short, long := [pattern[0]] + s, [pattern[0]] + l;
      assert short[1..] == s && long[1..] == l;
    } else if STAR in rest {
      short, long := StarGeneratesExtension(rest);
      assert short[0..] == short && long[0..] == long;
    } else {
      var absorbed := if rest == [] then "x" else rest;
      short, long := rest, absorbed + rest;
      WithoutStarOnlyItself(rest, rest);
      assert short[0..] == short && long[|absorbed|..] == rest;
    }
  }

  /** An anchored pattern is decided correctly on every path exactly when it has no star. */
  lemma AnchoredIsExactIffNoStar(pattern: string)
    ensures (forall text :: Verdict(pattern, text, true) <==> InLanguage(pattern, text)) <==> STAR !in pattern
  {
    if STAR in pattern {
      var short, long := StarGeneratesExtension(pattern);
      assert MatchesProperPrefix(pattern, long);
      assert InLanguage(pattern, long) && !Verdict(pattern, long, true);
    } else {
      forall text
        ensures Verdict(pattern, text, true) <==> InLanguage(pattern, text)
      {
        WithoutStarOnlyItself(pattern, text);
        forall n: nat | n < |text| {
          WithoutStarOnlyItself(pattern, text[..n]);
        }
      }
    }
  }

  // The rule "/*.php$" does not cover "/a.php.php", although the path ends in ".php".
  lemma AnchoredMissesRepeatedEnding()
    ensures InLanguage("/*.php", "/a.php.php") && !Verdict("/*.php", "/a.php.php", true)
  {
    var pattern, text := "/*.php", "/a.php.php";
    WithoutStarOnlyItself(".php", ".php");
    assert pattern[1..] == "*.php" && pattern[1..][1..] == ".php";
    assert text[1..] == "a.php.php" && text[1..][5..] == ".php";
    assert text[..6] == "/a.php" && text[..6][1..] == "a.php" && text[..6][1..][1..] == ".php";
    assert InLanguage(pattern[1..], text[..6][1..]);
    assert InLanguage(pattern, text[..6]);
  }
}
