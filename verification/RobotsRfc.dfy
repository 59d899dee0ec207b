/**
 What RFC 9309 asks of a robots.txt verdict, against what the code answers: where the two
 agree, exactly, and an input for every way in which they do not.

 The RFC compares patterns and paths in the normal form of `Percent`; the code compares them as
 they are written. So the verdict is first taken on patterns and paths as written, and then
 related to the one on normal forms. `$` at the end of a pattern is not counted, as in the code.
 */
module RobotsRfc {
  import opened Basics
  import opened Robots
  import opened Percent
  import Glob
  import Text

  // -------------------------------------------------------------------------
  // Matching as written: section 2.2.3

  /** A pattern that ends in `$` generates the whole path, any other one a prefix of it. */
  ghost predicate Generates(pattern: string, path: string) {
    var (body, anchored) := Unanchored(pattern);
    if anchored then Glob.InLanguage(body, path) else Glob.MatchesPrefix(body, path)
  }

  /** The matcher misses the path, because the pattern also generates a shorter one. */
  ghost predicate Overlooked(pattern: string, path: string) {
    var (body, anchored) := Unanchored(pattern);
    anchored && Glob.InLanguage(body, path) && Glob.MatchesProperPrefix(body, path)
  }

  /** A pattern with both a star and a final `$`. */
  predicate IsStarredAnchored(pattern: string) {
    var (body, anchored) := Unanchored(pattern);
    anchored && Glob.STAR in body
  }

  /** The code never covers too much; what it misses is what it overlooks. */
  lemma CoversButOverlooked(pattern: string, path: string)
    ensures Generates(pattern, path) <==> Covers(pattern, path) || Overlooked(pattern, path)
    ensures !(Covers(pattern, path) && Overlooked(pattern, path))
  {
  }

  /** Some path is overlooked if and only if the pattern has both a star and a final `$`. */
  lemma OverlooksIffStarredAnchored(pattern: string)
    ensures (exists path :: Overlooked(pattern, path)) <==> IsStarredAnchored(pattern)
  {
    var (body, anchored) := Unanchored(pattern);
    Glob.AnchoredIsExactIffNoStar(body);
    if anchored && Glob.STAR in body {
      var path :| Glob.Verdict(body, path, true) != Glob.InLanguage(body, path);
      assert Overlooked(pattern, path);
    }
    if path :| Overlooked(pattern, path) {
      assert Glob.Verdict(body, path, true) != Glob.InLanguage(body, path);
    }
  }

  // -------------------------------------------------------------------------
  // The verdict as written: section 2.2.2 without its normal form

  /** Some matching `disallow` is more specific than every matching `allow`. */
  ghost predicate BlockedAsWritten(disallow: seq<string>, allow: seq<string>, path: string) {
    exists d :: d in disallow && Generates(d, path) && Outranks(d, allow, path)
  }

  /** `d` is more specific than every rule of the list that matches. */
  ghost predicate Outranks(d: string, rules: seq<string>, path: string) {
    forall a :: a in rules && Matched(a, path) ==> Specificity(a) < Specificity(d)
  }

  /** No rule of the list that matches is more specific than `a`. */
  ghost predicate Withstands(a: string, rules: seq<string>, path: string) {
    forall d :: d in rules && Matched(d, path) ==> Specificity(d) <= Specificity(a)
  }

  /** Covered by the matcher, or overlooked by it. */
  ghost predicate Matched(pattern: string, path: string) {
    Covers(pattern, path) || Overlooked(pattern, path)
  }

  /** A `disallow` for which the code refuses the path: no `allow` that it covers is more specific. */
  ghost predicate Refuses(d: string, allow: seq<string>, path: string) {
    Covers(d, path) && forall a :: a in allow && Covers(a, path) ==> Specificity(a) <= Specificity(d)
  }

  /**
   The code refuses for `d` although `a` stands against every matching `disallow`: because `a` is
   overlooked, or because the two are equally specific.
   */
  ghost predicate SparedBy(d: string, a: string, disallow: seq<string>, allow: seq<string>, path: string) {
    && Refuses(d, allow, path) && Withstands(a, disallow, path)
    && (Overlooked(a, path) || (Covers(a, path) && Specificity(a) == Specificity(d)))
  }

  ghost predicate IsSpared(disallow: seq<string>, allow: seq<string>, path: string) {
    exists d, a :: d in disallow && a in allow && SparedBy(d, a, disallow, allow, path)
  }

  /** Every `disallow` the code covers gives way to an `allow`, and an overlooked one outranks all of those. */
  ghost predicate IsCaught(disallow: seq<string>, allow: seq<string>, path: string) {
    && (exists d :: d in disallow && Overlooked(d, path) && Outranks(d, allow, path))
    && (forall d :: d in disallow && Covers(d, path) ==> GivesWay(d, allow, path))
  }

  ghost predicate GivesWay(d: string, allow: seq<string>, path: string) {
    exists a :: a in allow && Covers(a, path) && Specificity(d) < Specificity(a)
  }

  /** The most specific pattern of a list with a property, or none when none has it. */
  lemma MostSpecific(patterns: seq<string>, holds: string -> bool) returns (top: Option<string>)
    ensures top.None? ==> forall p :: p in patterns ==> !holds(p)
    ensures top.Some? ==>
              && top.value in patterns && holds(top.value)
              && forall p :: p in patterns && holds(p) ==> Specificity(p) <= Specificity(top.value)
  {
    top := None;
    for i := 0 to |patterns|
      invariant top.None? ==> forall p :: p in patterns[..i] ==> !holds(p)
      invariant top.Some? ==>
                  && top.value in patterns && holds(top.value)
                  && forall p :: p in patterns[..i] && holds(p) ==> Specificity(p) <= Specificity(top.value)
    {
      assert patterns[..i + 1] == patterns[..i] + [patterns[i]];
      if holds(patterns[i]) && (top.None? || Specificity(patterns[i]) > Specificity(top.value)) {
        top := Some(patterns[i]);
      }
    }
    assert patterns[..|patterns|] == patterns;
  }

  /**
   As written, the code and section 2.2.2 differ exactly when a path is refused although an `allow`
   that ties or is overlooked stands, or permitted although an overlooked `disallow` outranks all.
   */
  lemma AgreesAsWrittenIff(disallow: seq<string>, allow: seq<string>, path: string)
    ensures (Blocked(disallow, allow, path) <==> BlockedAsWritten(disallow, allow, path))
            <==> !IsSpared(disallow, allow, path) && !IsCaught(disallow, allow, path)
  {
    if Blocked(disallow, allow, path) {
      var d :| d in disallow && Refuses(d, allow, path);
      RefusedRightly(disallow, allow, path, d);
    } else {
      PermittedRightly(disallow, allow, path);
    }
  }

  lemma PermittedRightly(disallow: seq<string>, allow: seq<string>, path: string)
    requires !Blocked(disallow, allow, path)
    ensures BlockedAsWritten(disallow, allow, path) <==> IsCaught(disallow, allow, path)
    ensures !IsSpared(disallow, allow, path)
  {
    forall d | d in disallow && Covers(d, path)
      ensures GivesWay(d, allow, path)
    {
    }
    if d :| d in disallow && Generates(d, path) && Outranks(d, allow, path) {
      CoversButOverlooked(d, path);
      assert Covers(d, path) ==> GivesWay(d, allow, path);
    }
  }

  lemma RefusedRightly(disallow: seq<string>, allow: seq<string>, path: string, refusing: string)
    requires refusing in disallow && Refuses(refusing, allow, path)
    ensures !BlockedAsWritten(disallow, allow, path) <==> IsSpared(disallow, allow, path)
    ensures !IsCaught(disallow, allow, path)
  {
    assert !GivesWay(refusing, allow, path);
    if IsSpared(disallow, allow, path) {
      SparedIsPermitted(disallow, allow, path);
    } else {
      var top := MostSpecific(disallow, p => Covers(p, path));
      var d := MostSpecific(disallow, p => Matched(p, path));
      var a := MostSpecific(allow, p => Matched(p, path));
      if a.Some? && Specificity(a.value) >= Specificity(d.value) {
        StandsIsSpared(disallow, allow, path, refusing, top.value, a.value);
      }
      assert Matched(d.value, path) && Outranks(d.value, allow, path);
    }
  }

  lemma SparedIsPermitted(disallow: seq<string>, allow: seq<string>, path: string)
    requires IsSpared(disallow, allow, path)
    ensures !BlockedAsWritten(disallow, allow, path)
  {
    var d, a :| d in disallow && a in allow && SparedBy(d, a, disallow, allow, path);
    if e :| e in disallow && Generates(e, path) && Outranks(e, allow, path) {
      assert Matched(e, path) && Matched(a, path);
    }
  }

  lemma StandsIsSpared(disallow: seq<string>, allow: seq<string>, path: string, refusing: string, top: string,
                       a: string)
    requires refusing in disallow && Refuses(refusing, allow, path)
    requires top in disallow && Covers(top, path) && Specificity(refusing) <= Specificity(top)
    requires a in allow && Matched(a, path) && Withstands(a, disallow, path)
    ensures IsSpared(disallow, allow, path)
  {
    assert Refuses(top, allow, path);
    assert Matched(top, path);
    assert SparedBy(top, a, disallow, allow, path);
  }

  // -------------------------------------------------------------------------
  // The verdict of section 2.2.2, on normal forms

  /** Pattern and path are compared in normal form. */
  ghost predicate RfcCovers(pattern: string, path: string) {
    var (body, anchored) := Unanchored(pattern);
    if anchored then Glob.InLanguage(Normal(body), Normal(path)) else Glob.MatchesPrefix(Normal(body), Normal(path))
  }

  /** The number of octets of the normal form. */
  function RfcSpecificity(pattern: string): nat {
    |Normal(Unanchored(pattern).0)|
  }

  /** Some matching `disallow` has more octets than every matching `allow`. */
  ghost predicate BlockedByRfc(disallow: seq<string>, allow: seq<string>, path: string) {
    exists d :: d in disallow && RfcCovers(d, path) && RfcOutranks(d, allow, path)
  }

  ghost predicate RfcOutranks(d: string, allow: seq<string>, path: string) {
    forall a :: a in allow && RfcCovers(a, path) ==> RfcSpecificity(a) < RfcSpecificity(d)
  }

  /** The pattern with its body in normal form. */
  function NormalPattern(pattern: string): string {
    Normal(Unanchored(pattern).0) + if Unanchored(pattern).1 then "$" else ""
  }

  function NormalPatterns(patterns: seq<string>): seq<string> {
    seq(|patterns|, i requires 0 <= i < |patterns| => NormalPattern(patterns[i]))
  }

  lemma NormalPatternParts(pattern: string)
    ensures Unanchored(NormalPattern(pattern)) == (Normal(Unanchored(pattern).0), Unanchored(pattern).1)
  {
    var (body, anchored) := Unanchored(pattern);
    if anchored {
      assert NormalPattern(pattern)[..|NormalPattern(pattern)| - 1] == Normal(body);
    } else {
      assert NormalPattern(pattern) == Normal(body);
      NormalIsAscii(body);
      if body != "" {
        EndStays(body);
      }
    }
  }

  /** The RFC reads a pattern and a path as their normal forms are written. */
  lemma RfcReadsNormalForm(pattern: string, path: string)
    ensures RfcCovers(pattern, path) <==> Generates(NormalPattern(pattern), Normal(path))
    ensures RfcSpecificity(pattern) == Specificity(NormalPattern(pattern))
  {
    NormalPatternParts(pattern);
    NormalIsAscii(Unanchored(pattern).0);
    AsciiByteLength(Normal(Unanchored(pattern).0));
  }

  lemma BlockedOnNormalForms(disallow: seq<string>, allow: seq<string>, path: string)
    ensures BlockedByRfc(disallow, allow, path)
            <==> BlockedAsWritten(NormalPatterns(disallow), NormalPatterns(allow), Normal(path))
  {
    if BlockedByRfc(disallow, allow, path) {
      var d :| d in disallow && RfcCovers(d, path) && RfcOutranks(d, allow, path);
      var i :| 0 <= i < |disallow| && disallow[i] == d;
      RefusedOnNormalForms(disallow, allow, i, path);
    }
    if BlockedAsWritten(NormalPatterns(disallow), NormalPatterns(allow), Normal(path)) {
      var n :| n in NormalPatterns(disallow) && Generates(n, Normal(path))
               && Outranks(n, NormalPatterns(allow), Normal(path));
      var i :| 0 <= i < |disallow| && NormalPatterns(disallow)[i] == n;
      RefusedOnNormalForms(disallow, allow, i, path);
    }
  }

  lemma RefusedOnNormalForms(disallow: seq<string>, allow: seq<string>, i: nat, path: string)
    requires i < |disallow|
    ensures disallow[i] in disallow && NormalPatterns(disallow)[i] in NormalPatterns(disallow)
    ensures RfcCovers(disallow[i], path) <==> Generates(NormalPatterns(disallow)[i], Normal(path))
    ensures RfcOutranks(disallow[i], allow, path)
            <==> Outranks(NormalPatterns(disallow)[i], NormalPatterns(allow), Normal(path))
  {
    RfcReadsNormalForm(disallow[i], path);
    OutranksOnNormalForms(disallow[i], allow, path);
  }

  lemma OutranksOnNormalForms(d: string, allow: seq<string>, path: string)
    ensures RfcOutranks(d, allow, path) <==> Outranks(NormalPattern(d), NormalPatterns(allow), Normal(path))
  {
    if RfcOutranks(d, allow, path) {
      forall n | n in NormalPatterns(allow) && Matched(n, Normal(path))
        ensures Specificity(n) < Specificity(NormalPattern(d))
      {
        var i :| 0 <= i < |allow| && NormalPatterns(allow)[i] == n;
        MatchedOnNormalForms(d, allow, i, path);
      }
    } else {
      var a :| a in allow && RfcCovers(a, path) && RfcSpecificity(a) >= RfcSpecificity(d);
      var i :| 0 <= i < |allow| && allow[i] == a;
      MatchedOnNormalForms(d, allow, i, path);
    }
  }

  lemma MatchedOnNormalForms(d: string, allow: seq<string>, i: nat, path: string)
    requires i < |allow|
    ensures allow[i] in allow && NormalPatterns(allow)[i] in NormalPatterns(allow)
    ensures RfcCovers(allow[i], path) <==> Matched(NormalPatterns(allow)[i], Normal(path))
    ensures RfcSpecificity(allow[i]) < RfcSpecificity(d)
            <==> Specificity(NormalPatterns(allow)[i]) < Specificity(NormalPattern(d))
  {
    RfcReadsNormalForm(d, path);
    RfcReadsNormalForm(allow[i], path);
    CoversButOverlooked(NormalPattern(allow[i]), Normal(path));
  }

  // -------------------------------------------------------------------------
  // Where the code and the RFC agree

  /** The code's verdict would be the same if it put patterns and path into normal form first. */
  ghost predicate SameOnNormalForms(disallow: seq<string>, allow: seq<string>, path: string) {
    Blocked(disallow, allow, path) <==> Blocked(NormalPatterns(disallow), NormalPatterns(allow), Normal(path))
  }

  /**
   For all rules and paths: the code agrees with RFC 9309 exactly when normal forms make no difference
   to it and on them no path is spared or caught; or when the two errors cancel.
   */
  lemma AgreesWithRfcIff(disallow: seq<string>, allow: seq<string>, path: string)
    ensures (Blocked(disallow, allow, path) <==> BlockedByRfc(disallow, allow, path))
            <==> (SameOnNormalForms(disallow, allow, path)
                  <==> (&& !IsSpared(NormalPatterns(disallow), NormalPatterns(allow), Normal(path))
                        && !IsCaught(NormalPatterns(disallow), NormalPatterns(allow), Normal(path))))
  {
    BlockedOnNormalForms(disallow, allow, path);
    AgreesAsWrittenIff(NormalPatterns(disallow), NormalPatterns(allow), Normal(path));
  }

  /** All patterns are in normal form. */
  predicate AreNormal(patterns: seq<string>) {
    forall p :: p in patterns ==> NormalPattern(p) == p
  }

  lemma NormalPatternsAre(patterns: seq<string>)
    requires AreNormal(patterns)
    ensures NormalPatterns(patterns) == patterns
  {
    forall i | 0 <= i < |patterns|
      ensures NormalPatterns(patterns)[i] == patterns[i]
    {
      assert patterns[i] in patterns;
    }
  }

  /** On normal forms the exact condition is about what is covered, overlooked and tied only. */
  lemma AgreesOnNormalFormsIff(disallow: seq<string>, allow: seq<string>, path: string)
    requires AreNormal(disallow) && AreNormal(allow) && IsNormal(path)
    ensures (Blocked(disallow, allow, path) <==> BlockedByRfc(disallow, allow, path))
            <==> !IsSpared(disallow, allow, path) && !IsCaught(disallow, allow, path)
  {
    NormalPatternsAre(disallow);
    NormalPatternsAre(allow);
    AgreesWithRfcIff(disallow, allow, path);
  }

  lemma NormalIsAsWritten(disallow: seq<string>, allow: seq<string>, path: string)
    requires AreNormal(disallow) && AreNormal(allow) && IsNormal(path)
    ensures BlockedByRfc(disallow, allow, path) <==> BlockedAsWritten(disallow, allow, path)
  {
    NormalPatternsAre(disallow);
    NormalPatternsAre(allow);
    BlockedOnNormalForms(disallow, allow, path);
  }

  // -------------------------------------------------------------------------
  // What a site can see from its file

  /** No pattern of the list can be overlooked. */
  predicate NoneStarredAnchored(patterns: seq<string>) {
    forall p :: p in patterns ==> !IsStarredAnchored(p)
  }

  /** The most specific matching `disallow` and the most specific matching `allow` are equally specific. */
  ghost predicate Tied(disallow: seq<string>, allow: seq<string>, path: string) {
    exists d, a :: d in disallow && a in allow && TiedBy(d, a, disallow, allow, path)
  }

  ghost predicate TiedBy(d: string, a: string, disallow: seq<string>, allow: seq<string>, path: string) {
    && Covers(d, path) && Covers(a, path) && Specificity(a) == Specificity(d)
    && (forall e :: e in disallow && Covers(e, path) ==> Specificity(e) <= Specificity(d))
    && (forall e :: e in allow && Covers(e, path) ==> Specificity(e) <= Specificity(a))
  }

  /**
   For patterns and a path in normal form, without patterns that have both a star and a final `$`,
   code and RFC 9309 agree if and only if there is no tie.
   */
  lemma AgreesWithRfcIffNoTie(disallow: seq<string>, allow: seq<string>, path: string)
    requires AreNormal(disallow) && AreNormal(allow) && IsNormal(path)
    requires NoneStarredAnchored(disallow) && NoneStarredAnchored(allow)
    ensures (Blocked(disallow, allow, path) <==> BlockedByRfc(disallow, allow, path)) <==> !Tied(disallow, allow, path)
  {
    AgreesOnNormalFormsIff(disallow, allow, path);
    forall p | p in disallow || p in allow
      ensures !Overlooked(p, path)
    {
      OverlooksIffStarredAnchored(p);
    }
    TieIsSpared(disallow, allow, path);
  }

  lemma TieIsSpared(disallow: seq<string>, allow: seq<string>, path: string)
    requires forall p :: p in disallow || p in allow ==> !Overlooked(p, path)
    ensures Tied(disallow, allow, path) <==> IsSpared(disallow, allow, path)
    ensures !IsCaught(disallow, allow, path)
  {
    if d, a :| d in disallow && a in allow && TiedBy(d, a, disallow, allow, path) {
      assert SparedBy(d, a, disallow, allow, path);
    }
    if d, a :| d in disallow && a in allow && SparedBy(d, a, disallow, allow, path) {
      assert Matched(d, path) && Matched(a, path);
      assert forall e :: e in disallow && Covers(e, path) ==> Matched(e, path);
      assert TiedBy(d, a, disallow, allow, path);
    }
  }

  lemma LoneRule(pattern: string, path: string)
    ensures Blocked([pattern], [], path) <==> Covers(pattern, path)
    ensures BlockedByRfc([pattern], [], path) <==> RfcCovers(pattern, path)
  {
    assert pattern in [pattern];
  }

  // -------------------------------------------------------------------------
  // A file of one rule, on paths in normal form

  /** Each star absorbs one slash. */
  lemma {:induction false} GeneratesFilled(body: string)
    ensures Glob.InLanguage(body, Filled(body))
    decreases |body|
  {
    if body != "" {
      GeneratesFilled(body[1..]);
      assert Filled(body)[1..] == Filled(body[1..]);
    }
  }

  /** The last star may also absorb what follows it, and another slash. */
  lemma {:induction false} GeneratesTwice(pre: string, rest: string)
    requires Glob.STAR !in rest
    ensures Glob.InLanguage(pre + "*" + rest, Filled(pre) + "/" + rest + "/" + rest)
    decreases |pre|
  {
    var body, text := pre + "*" + rest, Filled(pre) + "/" + rest + "/" + rest;
    if pre == "" {
      Glob.WithoutStarOnlyItself(rest, rest);
      assert body[1..] == rest && text[|rest| + 2..] == rest;
    } else {
      GeneratesTwice(pre[1..], rest);
      assert Filled(pre)[1..] == Filled(pre[1..]);
      assert body[1..] == pre[1..] + "*" + rest;
      assert text[1..] == Filled(pre[1..]) + "/" + rest + "/" + rest;
    }
  }

  lemma {:induction false} LastStar(body: string) returns (pre: string, rest: string)
    requires Glob.STAR in body
    ensures body == pre + "*" + rest && Glob.STAR !in rest
  {
    if Glob.STAR in body[1..] {
      pre, rest := LastStar(body[1..]);
      pre := [body[0]] + pre;
    } else {
      pre, rest := "", body[1..];
    }
  }

  /** A starred anchored pattern in normal form overlooks a path in normal form. */
  lemma OverlooksNormalPath(pattern: string) returns (path: string)
    requires IsStarredAnchored(pattern) && NormalPattern(pattern) == pattern
    ensures IsNormal(path) && Overlooked(pattern, path)
  {
    var body := Unanchored(pattern).0;
    NormalPatternParts(pattern);
    var pre, rest := LastStar(body);
    JoinedIsNormal(pre, '*', rest);
    FilledIsNormal(pre);
    JoinedIsNormal(Filled(pre), '/', rest);
    JoinedIsNormal(Filled(pre) + "/" + rest, '/', rest);
    path := Filled(pre) + "/" + rest + "/" + rest;
    GeneratesTwice(pre, rest);
    GeneratesFilled(body);
    FilledParts(pre, rest);
    assert path[..|Filled(body)|] == Filled(body);
  }

  lemma FilledParts(pre: string, rest: string)
    requires Glob.STAR !in rest
    ensures Filled(pre + "*" + rest) == Filled(pre) + "/" + rest
  {
  }

  /** One pattern in normal form is read as RFC 9309 asks on all such paths exactly without star and final `$`. */
  lemma OneRuleAgreesEverywhereIff(pattern: string)
    requires NormalPattern(pattern) == pattern
    ensures (forall path :: IsNormal(path) ==> (Blocked([pattern], [], path) <==> BlockedByRfc([pattern], [], path)))
            <==> !IsStarredAnchored(pattern)
  {
    forall path | IsNormal(path)
      ensures (Blocked([pattern], [], path) <==> BlockedByRfc([pattern], [], path)) <==> !Overlooked(pattern, path)
    {
      LoneRule(pattern, path);
      RfcReadsNormalForm(pattern, path);
      CoversButOverlooked(pattern, path);
    }
    if IsStarredAnchored(pattern) {
      var path := OverlooksNormalPath(pattern);
      assert Blocked([pattern], [], path) != BlockedByRfc([pattern], [], path);
    } else {
      OverlooksIffStarredAnchored(pattern);
    }
  }

  /** Neither star nor `$`. */
  predicate IsPlain(pattern: string) {
    pattern != "" && pattern[|pattern| - 1] != '$' && Glob.STAR !in pattern
  }

  /** A plain pattern covers the paths it begins; section 2.2.2 asks that of the normal forms. */
  lemma PlainPatternCovers(pattern: string, path: string)
    requires IsPlain(pattern)
    ensures Covers(pattern, path) <==> pattern <= path
    ensures RfcCovers(pattern, path) <==> Normal(pattern) <= Normal(path)
  {
    SpecialStays(pattern, Glob.STAR);
    GeneratesPrefixes(pattern, path);
    GeneratesPrefixes(Normal(pattern), Normal(path));
  }

  /** With `$` behind it, a pattern without star covers its own text alone, and is no more specific than without. */
  lemma AnchoredPatternCovers(body: string, path: string)
    requires Glob.STAR !in body
    ensures Covers(body + "$", path) <==> path == body
    ensures Specificity(body + "$") == Text.ByteLength(body)
  {
    assert Unanchored(body + "$") == (body, true);
    Glob.AnchoredIsExactIffNoStar(body);
    assert Glob.Verdict(body, path, true) == Glob.InLanguage(body, path);
    Glob.WithoutStarOnlyItself(body, path);
  }

  lemma GeneratesPrefixes(body: string, path: string)
    requires Glob.STAR !in body
    ensures Glob.MatchesPrefix(body, path) <==> body <= path
  {
    forall n: nat | n <= |path|
      ensures Glob.InLanguage(body, path[..n]) <==> path[..n] == body
    {
      Glob.WithoutStarOnlyItself(body, path[..n]);
    }
    if body <= path {
      assert path[..|body|] == body;
    }
  }

  /**
   One plain pattern is read as RFC 9309 asks on every path in normal form if and only if it is in
   normal form itself, or never comes to it: a stray percent sign whose normal form is an escape.
   */
  lemma OnePlainPatternAgreesIff(pattern: string)
    requires IsPlain(pattern)
    ensures (forall path :: IsNormal(path) ==> (Blocked([pattern], [], path) <==> BlockedByRfc([pattern], [], path)))
            <==> IsNormal(pattern) || !IsNormal(Normal(pattern))
  {
    forall path | IsNormal(path)
      ensures (Blocked([pattern], [], path) <==> BlockedByRfc([pattern], [], path))
              <==> (pattern <= path <==> Normal(pattern) <= path)
      ensures pattern <= path ==> IsNormal(pattern)
      ensures Normal(pattern) <= path ==> IsNormal(Normal(pattern))
    {
      LoneRule(pattern, path);
      PlainPatternCovers(pattern, path);
      if pattern <= path {
        PrefixIsNormal(pattern, path);
      }
      if Normal(pattern) <= path {
        PrefixIsNormal(Normal(pattern), path);
      }
    }
    if !IsNormal(pattern) && IsNormal(Normal(pattern)) {
      var path := Normal(pattern);
      assert Normal(pattern) <= path;
      assert Blocked([pattern], [], path) != BlockedByRfc([pattern], [], path);
    }
  }

  /** Without stray percent signs that is: if and only if it is in normal form. */
  lemma WellFormedPatternAgreesIff(pattern: string)
    requires IsPlain(pattern) && IsWellFormed(pattern)
    ensures (forall path :: IsNormal(path) ==> (Blocked([pattern], [], path) <==> BlockedByRfc([pattern], [], path)))
            <==> IsNormal(pattern)
  {
    OnePlainPatternAgreesIff(pattern);
    WellFormedBecomesNormal(pattern);
  }

  // -------------------------------------------------------------------------
  // An input for each way to differ

  /** A path both allowed and disallowed by one pattern is refused; RFC 9309 permits it. */
  lemma SamePatternTies(pattern: string, rules: seq<string>, path: string)
    requires Covers(pattern, path) && RfcCovers(pattern, path)
    requires pattern in rules && forall p :: p in rules ==> p == pattern
    ensures Blocked(rules, rules, path) && !BlockedByRfc(rules, rules, path)
  {
    assert !RfcOutranks(pattern, rules, path);
  }

  // "Disallow: /a" and "Allow: /a" together refuse "/a".
  lemma TieIsRefused()
    ensures Blocked(["/a"], ["/a"], "/a") && !BlockedByRfc(["/a"], ["/a"], "/a")
  {
    PlainPatternCovers("/a", "/a");
    SamePatternTies("/a", ["/a"], "/a");
  }

  lemma RepeatedEndingIsOverlooked()
    ensures Unanchored("/*.php$") == ("/*.php", true) && Overlooked("/*.php$", "/a.php.php")
  {
    Glob.AnchoredMissesRepeatedEnding();
    assert "/*.php$"[..|"/*.php$"| - 1] == "/*.php";
  }

  /** Text without escapes is compared as it is written. */
  lemma WithoutEscapes(pattern: string, path: string)
    requires IsSimple(Unanchored(pattern).0) && IsSimple(path)
    ensures RfcCovers(pattern, path) <==> Generates(pattern, path)
    ensures RfcSpecificity(pattern) == |Unanchored(pattern).0|
  {
    PlainIsNormal(Unanchored(pattern).0);
    PlainIsNormal(path);
  }

  /** Text without escapes, nor characters that ask for one. */
  predicate IsSimple(s: string) {
    IsAscii(s) && '%' !in s
  }

  lemma SimpleEnding()
    ensures IsSimple("/*.php") && IsSimple("/a.php.php") && |"/*.php"| == 6
  {
  }

  lemma SimplePrefix()
    ensures Unanchored("/a") == ("/a", false) && IsSimple("/a") && |"/a"| == 2
  {
  }

  lemma OverlookedDisallow(pattern: string, path: string)
    requires IsSimple(Unanchored(pattern).0) && IsSimple(path) && Overlooked(pattern, path)
    ensures !Blocked([pattern], [], path) && BlockedByRfc([pattern], [], path)
  {
    WithoutEscapes(pattern, path);
    CoversButOverlooked(pattern, path);
    LoneRule(pattern, path);
  }

  // "Disallow: /*.php$" alone does not keep the crawler off "/a.php.php".
  lemma OverlookedDisallowIsVisited()
    ensures !Blocked(["/*.php$"], [], "/a.php.php") && BlockedByRfc(["/*.php$"], [], "/a.php.php")
  {
    RepeatedEndingIsOverlooked();
    SimpleEnding();
    OverlookedDisallow("/*.php$", "/a.php.php");
  }

  lemma PrefixIsCovered()
    ensures Covers("/a", "/a.php.php")
  {
    PlainPatternCovers("/a", "/a.php.php");
    assert "/a" == "/a.php.php"[..2];
  }

  // "Allow: /*.php$" does not lift "Disallow: /a" from "/a.php.php".
  lemma OverlookedAllowIsRefused()
    ensures Blocked(["/a"], ["/*.php$"], "/a.php.php") && !BlockedByRfc(["/a"], ["/*.php$"], "/a.php.php")
  {
    RepeatedEndingIsOverlooked();
    PrefixIsCovered();
    SimpleEnding();
    SimplePrefix();
    OverlookedAllow("/a", "/*.php$", "/*.php", "/a.php.php");
  }

  lemma OverlookedAllow(refused: string, overlooked: string, body: string, path: string)
    requires Covers(refused, path) && Overlooked(overlooked, path)
    requires Unanchored(refused) == (refused, false) && Unanchored(overlooked) == (body, true)
    requires IsSimple(refused) && IsSimple(body) && IsSimple(path) && |refused| <= |body|
    ensures Blocked([refused], [overlooked], path) && !BlockedByRfc([refused], [overlooked], path)
  {
    CoversButOverlooked(overlooked, path);
    WithoutEscapes(refused, path);
    WithoutEscapes(overlooked, path);
    assert [refused][0] == refused && [overlooked][0] == overlooked;
    assert !RfcOutranks(refused, [overlooked], path);
  }

  lemma {:induction false} HighOctets(c: char)
    requires c >= '\U{80}'
    ensures forall i :: 0 <= i < |Utf8(c)| ==> 128 <= Utf8(c)[i] < 256
  {
  }

  /** A pattern with a character outside ASCII covers no path in normal form, which RFC 9309 has it cover. */
  lemma UnencodedPattern(c: char, path: string)
    requires c >= '\U{80}' && path == "/" + Escapes(Utf8(c))
    ensures IsNormal(path) && !Blocked([['/', c]], [], path) && BlockedByRfc([['/', c]], [], path)
  {
    var pattern := ['/', c];
    HighOctets(c);
    EscapesAre(Utf8(c), '*');
    assert Escapes(Utf8(c)) + "" == Escapes(Utf8(c));
    AfterEscapes(Utf8(c), "");
    AfterCharacter('/', Escapes(Utf8(c)));
    assert pattern[1..] == [c] && [c][1..] == "";
    assert Normal([c]) == Escapes(Utf8(c)) + "";
    assert Normal(pattern) == "/" + Normal([c]);
    LoneRule(pattern, path);
    PlainPatternCovers(pattern, path);
    assert path[1] == '%';
  }

  lemma KanaEscapes()
    ensures Escapes(Utf8('\U{30C4}')) == "%E3%83%84"
  {
    assert Utf8('\U{30C4}') == [0xE3, 0x83, 0x84];
    assert Escape(0xE3) == "%E3" && Escape(0x83) == "%83" && Escape(0x84) == "%84";
    assert Escapes([0x84]) == "%84" && Escapes([0x83, 0x84]) == "%83%84";
  }

  // "Disallow: /ツ" does not keep the crawler off "/%E3%83%84", which is how that path is requested.
  lemma UnencodedPatternIsVisited()
    ensures !Blocked(["/\U{30C4}"], [], "/%E3%83%84") && BlockedByRfc(["/\U{30C4}"], [], "/%E3%83%84")
  {
    KanaEscapes();
    assert "/\U{30C4}" == ['/', '\U{30C4}'];
    assert "/%E3%83%84" == "/" + "%E3%83%84";
    UnencodedPattern('\U{30C4}', "/%E3%83%84");
  }

  lemma NormalLetter()
    ensures Normal("/%62az") == "/baz" && Normal("/baz") == "/baz"
  {
    PlainIsNormal("/baz");
    PlainIsNormal("az");
    assert "/%62az"[1..] == "%62az" && "%62az"[3..] == "az";
    assert BeginsEscape("%62az") && FromEscape("%62az") == "b";
    assert "b" + "az" == "baz" && "/" + "baz" == "/baz";
  }

  // "Disallow: /baz" does not keep the crawler off "/%62az".
  lemma EncodedPathIsVisited()
    ensures !Blocked(["/baz"], [], "/%62az") && BlockedByRfc(["/baz"], [], "/%62az")
  {
    NormalLetter();
    LoneRule("/baz", "/%62az");
    PlainPatternCovers("/baz", "/%62az");
    assert "/baz"[1] != "/%62az"[1];
  }
}
