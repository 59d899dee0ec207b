/**
 Section 2.2.1 of RFC 9309: which groups of a file speak to a crawler, and that they are read
 as one. The parser keeps one group of those that have rules; here is when that makes no
 difference, exactly, and a file for each way in which it does.

 The section is stated about lines, without the parser's own notion of a group: only `Allow` and
 `Disallow` are rules there, and a group may end the file without any. `Crawl-delay` is another
 record, which section 2.2.4 does not let end a group; it is compared as the parser reads it.
 */
module RobotsGroups {
  import opened Basics
  import opened Robots
  import Text

  // -------------------------------------------------------------------------
  // What the section asks for

  predicate IsAccess(d: Directive) {
    d.Disallow? || d.Allow?
  }

  /** Some `Allow` or `Disallow` precedes line `n` with no user-agent line between the two. */
  ghost predicate AfterAccess(ds: seq<Directive>, n: nat)
    requires n <= |ds|
  {
    exists m: nat :: m < n && IsAccess(ds[m]) && NoAgentBetween(ds, m, n)
  }

  /** A user-agent line heads a new group when the rules of another have begun. */
  ghost predicate Heads(ds: seq<Directive>, i: nat)
    requires i < |ds|
  {
    ds[i].Agent? && AfterAccess(ds, i)
  }

  ghost function Headed(ds: seq<Directive>, n: nat): nat
    requires n <= |ds|
  {
    if n == 0 then 0 else Headed(ds, n - 1) + if Heads(ds, n - 1) then 1 else 0
  }

  /** The group of RFC 9309 that line `i` belongs to. */
  ghost function RfcGroupOf(ds: seq<Directive>, i: nat): nat
    requires i < |ds|
  {
    Headed(ds, i + 1)
  }

  /** How specifically a token names a crawler, if it does. */
  type Naming = string -> Option<nat>

  /** Line `i` names the crawler, and no line names it more specifically. */
  ghost predicate NamesMost(ds: seq<Directive>, naming: Naming, i: nat)
    requires i < |ds|
  {
    && ds[i].Agent? && naming(ds[i].token).Some?
    && forall j :: 0 <= j < |ds| && ds[j].Agent? && naming(ds[j].token).Some? ==>
         naming(ds[j].token).value <= naming(ds[i].token).value
  }

  /** The lines of all groups that name the crawler most specifically. */
  ghost function RfcLines(ds: seq<Directive>, naming: Naming): iset<nat> {
    iset i: nat | i < |ds| && IsAsked(ds, naming, i)
  }

  ghost predicate IsAsked(ds: seq<Directive>, naming: Naming, i: nat)
    requires i < |ds|
  {
    exists j: nat :: j < |ds| && NamesMost(ds, naming, j) && RfcGroupOf(ds, j) == RfcGroupOf(ds, i)
  }

  /** What some lines among the first `n` say, in order. */
  ghost function Said(ds: seq<Directive>, lines: iset<nat>, n: nat): Rules
    requires n <= |ds|
  {
    if n == 0 then NO_RULES
    else
      var before := Said(ds, lines, n - 1);
      if n - 1 in lines then Extended(before, ds[n - 1]) else before
  }

  ghost function RfcRules(ds: seq<Directive>, naming: Naming): Rules {
    Said(ds, RfcLines(ds, naming), |ds|).(sitemaps := SitemapsOf(ds, |ds|))
  }

  /** The longest token contained in the user agent, `*` being the shortest: how the parser names a crawler. */
  function AgentNaming(userAgent: string): Naming {
    token => TokenLength(token, userAgent)
  }

  /** The crawler's product token, and `*` when no group has that. */
  function ProductNaming(product: string): Naming {
    token => if token == Text.AsciiLower(product) then Some(1) else if token == "*" then Some(0) else None
  }

  // -------------------------------------------------------------------------
  // What the parser keeps

  /** The lines of the group that `Parsed` takes the rules from. */
  ghost function KeptLines(ds: seq<Directive>, userAgent: string): iset<nat> {
    iset i: nat | i < |ds| && IsKept(ds, userAgent, i)
  }

  ghost predicate IsKept(ds: seq<Directive>, userAgent: string, i: nat)
    requires i < |ds|
  {
    exists j: nat :: j < |ds| && NamesBest(ds, userAgent, j) && GroupOf(ds, j) == GroupOf(ds, i)
  }

  lemma {:induction false} SaidOfGroup(ds: seq<Directive>, lines: iset<nat>, g: nat, n: nat)
    requires n <= |ds| && forall i: nat :: i < n ==> (i in lines <==> GroupOf(ds, i) == g)
    ensures Said(ds, lines, n) == RulesOf(ds, n, g)
  {
    if n > 0 {
      SaidOfGroup(ds, lines, g, n - 1);
    }
  }

  lemma {:induction false} SaidOfNone(ds: seq<Directive>, lines: iset<nat>, n: nat)
    requires n <= |ds| && lines == iset{}
    ensures Said(ds, lines, n) == NO_RULES
  {
    if n > 0 {
      SaidOfNone(ds, lines, n - 1);
    }
  }

  lemma KeptIsGroup(ds: seq<Directive>, userAgent: string, best: nat)
    requires best < |ds| && NamesBest(ds, userAgent, best)
    ensures forall i: nat :: i < |ds| ==> (i in KeptLines(ds, userAgent) <==> GroupOf(ds, i) == GroupOf(ds, best))
  {
    forall j: nat | j < |ds| && NamesBest(ds, userAgent, j)
      ensures GroupOf(ds, j) == GroupOf(ds, best)
    {
      assert NoBetter(ds, userAgent, j, best) && NoBetter(ds, userAgent, best, j);
    }
  }

  /** The parser's rules are what the lines kept say. */
  lemma ParsedIsKept(ds: seq<Directive>, userAgent: string, rules: Rules)
    requires Parsed(ds, userAgent, rules)
    ensures rules == Said(ds, KeptLines(ds, userAgent), |ds|).(sitemaps := SitemapsOf(ds, |ds|))
  {
    assert rules == rules.(sitemaps := []).(sitemaps := SitemapsOf(ds, |ds|));
    if i :| 0 <= i < |ds| && Names(ds, userAgent, i) {
      var best := SomeLineNamesBest(ds, userAgent, |ds|, i);
      KeptIsGroup(ds, userAgent, best);
      SaidOfGroup(ds, KeptLines(ds, userAgent), GroupOf(ds, best), |ds|);
    } else {
      assert KeptLines(ds, userAgent) == iset{};
      SaidOfNone(ds, KeptLines(ds, userAgent), |ds|);
    }
  }

  // -------------------------------------------------------------------------
  // When two choices of lines say the same

  predicate HasPattern(d: Directive) {
    IsAccess(d) && d.pattern != []
  }

  /** None of these lines has a pattern. */
  ghost predicate NoPatternIn(ds: seq<Directive>, lines: iset<nat>, n: nat)
    requires n <= |ds|
  {
    forall i: nat :: i < n && i in lines ==> !HasPattern(ds[i])
  }

  ghost function PatternCount(ds: seq<Directive>, lines: iset<nat>, n: nat): nat
    requires n <= |ds|
  {
    if n == 0 then 0
    else PatternCount(ds, lines, n - 1) + if n - 1 in lines && HasPattern(ds[n - 1]) then 1 else 0
  }

  /** The delay of the last of these lines that has one. */
  ghost function DelayIn(ds: seq<Directive>, lines: iset<nat>, n: nat): Option<nat>
    requires n <= |ds|
  {
    if n == 0 then None
    else if n - 1 in lines && ds[n - 1].Delay? && ds[n - 1].seconds.Some? then ds[n - 1].seconds
    else DelayIn(ds, lines, n - 1)
  }

  lemma {:induction false} SaidMeasures(ds: seq<Directive>, lines: iset<nat>, n: nat)
    requires n <= |ds|
    ensures |Said(ds, lines, n).disallow| + |Said(ds, lines, n).allow| == PatternCount(ds, lines, n)
    ensures Said(ds, lines, n).crawlDelay == DelayIn(ds, lines, n) && Said(ds, lines, n).sitemaps == []
  {
    if n > 0 {
      SaidMeasures(ds, lines, n - 1);
    }
  }

  lemma {:induction false} SameWithoutPatterns(ds: seq<Directive>, a: iset<nat>, b: iset<nat>, n: nat)
    requires n <= |ds| && NoPatternIn(ds, a - b, n) && NoPatternIn(ds, b - a, n)
    ensures Said(ds, a, n).disallow == Said(ds, b, n).disallow && Said(ds, a, n).allow == Said(ds, b, n).allow
  {
    if n > 0 {
      SameWithoutPatterns(ds, a, b, n - 1);
    }
  }

  lemma {:induction false} MorePatterns(ds: seq<Directive>, a: iset<nat>, b: iset<nat>, n: nat)
    requires n <= |ds| && NoPatternIn(ds, a - b, n)
    ensures PatternCount(ds, a, n) <= PatternCount(ds, b, n)
    ensures PatternCount(ds, a, n) == PatternCount(ds, b, n) <==> NoPatternIn(ds, b - a, n)
  {
    if n > 0 {
      MorePatterns(ds, a, b, n - 1);
      assert NoPatternIn(ds, b - a, n) <==> NoPatternIn(ds, b - a, n - 1) && !(n - 1 in b - a && HasPattern(ds[n - 1]));
    }
  }

  /** If one of the two has all the patterns, they say the same exactly when neither has a pattern to itself. */
  lemma SameSaidIff(ds: seq<Directive>, a: iset<nat>, b: iset<nat>)
    requires NoPatternIn(ds, a - b, |ds|) || NoPatternIn(ds, b - a, |ds|)
    ensures Said(ds, a, |ds|) == Said(ds, b, |ds|)
            <==> (&& NoPatternIn(ds, a - b, |ds|) && NoPatternIn(ds, b - a, |ds|)
                  && DelayIn(ds, a, |ds|) == DelayIn(ds, b, |ds|))
  {
    SaidMeasures(ds, a, |ds|);
    SaidMeasures(ds, b, |ds|);
    if NoPatternIn(ds, a - b, |ds|) {
      MorePatterns(ds, a, b, |ds|);
    } else {
      MorePatterns(ds, b, a, |ds|);
    }
    if NoPatternIn(ds, a - b, |ds|) && NoPatternIn(ds, b - a, |ds|) {
      SameWithoutPatterns(ds, a, b, |ds|);
    }
  }

  // -------------------------------------------------------------------------
  // The parser's groups lie within those of the section

  lemma {:induction false} HeadedGrows(ds: seq<Directive>, m: nat, n: nat)
    requires m <= n <= |ds|
    ensures Headed(ds, m) <= Headed(ds, n)
    decreases n
  {
    if m < n {
      HeadedGrows(ds, m, n - 1);
    }
  }

  /** Between lines of one group of the parser no group of the section is headed. */
  lemma {:induction false} SameGroupSameHeaded(ds: seq<Directive>, m: nat, n: nat)
    requires m <= n <= |ds| && Started(ds, m) == Started(ds, n)
    ensures Headed(ds, m) == Headed(ds, n)
    decreases n
  {
    if m < n {
      StartedGrows(ds, m, n - 1);
      SameGroupSameHeaded(ds, m, n - 1);
      assert !StartsGroup(ds, n - 1);
    }
  }

  lemma NoRuleSince(ds: seq<Directive>, j: nat, n: nat)
    requires j < n <= |ds| && ds[j].Agent? && forall i :: j <= i < n ==> !IsRule(ds[i])
    ensures !AfterRule(ds, n)
  {
    forall m: nat | m < n && IsRule(ds[m])
      ensures !NoAgentBetween(ds, m, n)
    {
      assert m < j < n;
    }
  }

  /** A user-agent line whose group has no rules begins the parser's last group. */
  lemma {:induction false} RulelessIsLast(ds: seq<Directive>, j: nat, n: nat)
    requires j < n <= |ds| && ds[j].Agent? && !HasRules(ds, |ds|, GroupOf(ds, j))
    ensures Started(ds, n) == GroupOf(ds, j)
    ensures forall i :: j <= i < n ==> !IsRule(ds[i])
  {
    if n > j + 1 {
      RulelessIsLast(ds, j, n - 1);
      NoRuleSince(ds, j, n - 1);
      assert GroupOf(ds, n - 1) == GroupOf(ds, j);
    }
  }

  /** Behind an `Allow` or `Disallow` the next user-agent line heads a group. */
  lemma {:induction false} AccessEndsHead(ds: seq<Directive>, i: nat, j: nat)
    requires i < j < |ds| && IsAccess(ds[i]) && ds[j].Agent?
    ensures RfcGroupOf(ds, i) < RfcGroupOf(ds, j)
    decreases j
  {
    HeadedGrows(ds, i + 1, j);
    if k :| i < k < j && ds[k].Agent? {
      AccessEndsHead(ds, i, k);
      HeadedGrows(ds, k + 1, j);
      HeadedGrows(ds, j, j + 1);
    } else {
      assert NoAgentBetween(ds, i, j);
      assert Heads(ds, j);
    }
  }

  /** So a group of the section that has such a line has no rules. */
  lemma RulelessGroup(ds: seq<Directive>, j: nat, i: nat)
    requires j < |ds| && ds[j].Agent? && !HasRules(ds, |ds|, GroupOf(ds, j))
    requires i < |ds| && RfcGroupOf(ds, i) == RfcGroupOf(ds, j)
    ensures !IsAccess(ds[i])
  {
    RulelessIsLast(ds, j, |ds|);
    if i < j && IsAccess(ds[i]) {
      AccessEndsHead(ds, i, j);
    }
  }

  /** The lines kept are asked for if a most specific line has rules; otherwise no line asked for has a pattern. */
  lemma KeptOrRuleless(ds: seq<Directive>, userAgent: string)
    ensures var kept, asked := KeptLines(ds, userAgent), RfcLines(ds, AgentNaming(userAgent));
            if HasRuledNaming(ds, userAgent) then kept <= asked else NoPatternIn(ds, asked, |ds|)
  {
    var naming := AgentNaming(userAgent);
    if HasRuledNaming(ds, userAgent) {
      var most: nat :| most < |ds| && NamesMost(ds, naming, most) && HasRules(ds, |ds|, GroupOf(ds, most));
      forall i | i in KeptLines(ds, userAgent)
        ensures i in RfcLines(ds, naming)
      {
        KeptIsAsked(ds, userAgent, most, i);
      }
    } else {
      forall i: nat | i < |ds| && i in RfcLines(ds, naming)
        ensures !HasPattern(ds[i])
      {
        var j: nat :| j < |ds| && NamesMost(ds, naming, j) && RfcGroupOf(ds, j) == RfcGroupOf(ds, i);
        RulelessGroup(ds, j, i);
      }
    }
  }

  /** Some line that names the user agent most specifically is in a group with rules. */
  ghost predicate HasRuledNaming(ds: seq<Directive>, userAgent: string) {
    exists j: nat :: j < |ds| && NamesMost(ds, AgentNaming(userAgent), j) && HasRules(ds, |ds|, GroupOf(ds, j))
  }

  lemma KeptIsAsked(ds: seq<Directive>, userAgent: string, most: nat, i: nat)
    requires most < |ds| && NamesMost(ds, AgentNaming(userAgent), most) && HasRules(ds, |ds|, GroupOf(ds, most))
    requires i < |ds| && i in KeptLines(ds, userAgent)
    ensures i in RfcLines(ds, AgentNaming(userAgent))
  {
    var j: nat :| j < |ds| && NamesBest(ds, userAgent, j) && GroupOf(ds, j) == GroupOf(ds, i);
    assert Names(ds, userAgent, most) && NoBetter(ds, userAgent, most, j);
    assert NamesMost(ds, AgentNaming(userAgent), j);
    if j <= i {
      SameGroupSameHeaded(ds, j + 1, i + 1);
    } else {
      SameGroupSameHeaded(ds, i + 1, j + 1);
    }
  }

  // -------------------------------------------------------------------------
  // The exact condition

  /** Neither choice of lines has a pattern to itself, and their last delays are equal. */
  ghost predicate SayAlike(ds: seq<Directive>, kept: iset<nat>, asked: iset<nat>) {
    && NoPatternIn(ds, kept - asked, |ds|) && NoPatternIn(ds, asked - kept, |ds|)
    && DelayIn(ds, kept, |ds|) == DelayIn(ds, asked, |ds|)
  }

  /**
   The parser returns what section 2.2.1 asks for if and only if every pattern of a group that names
   the user agent most specifically is in the group kept, and the group kept has no pattern besides:
   it would have one if the most specific name stood in a last group without rules.
   */
  lemma FirstGroupSufficesIff(ds: seq<Directive>, userAgent: string, rules: Rules)
    requires Parsed(ds, userAgent, rules)
    ensures rules == RfcRules(ds, AgentNaming(userAgent))
            <==> SayAlike(ds, KeptLines(ds, userAgent), RfcLines(ds, AgentNaming(userAgent)))
  {
    var kept, asked := KeptLines(ds, userAgent), RfcLines(ds, AgentNaming(userAgent));
    ParsedIsKept(ds, userAgent, rules);
    KeptOrRuleless(ds, userAgent);
    SameSaidIff(ds, kept, asked);
    SameUpToSitemaps(ds, kept, asked, rules);
  }

  lemma SameUpToSitemaps(ds: seq<Directive>, kept: iset<nat>, asked: iset<nat>, rules: Rules)
    requires rules == Said(ds, kept, |ds|).(sitemaps := SitemapsOf(ds, |ds|))
    ensures rules == Said(ds, asked, |ds|).(sitemaps := SitemapsOf(ds, |ds|))
            <==> Said(ds, kept, |ds|) == Said(ds, asked, |ds|)
  {
    SaidMeasures(ds, kept, |ds|);
    SaidMeasures(ds, asked, |ds|);
    SitemapsApart(rules, Said(ds, kept, |ds|), Said(ds, asked, |ds|), SitemapsOf(ds, |ds|));
  }

  lemma SitemapsApart(rules: Rules, one: Rules, other: Rules, sitemaps: seq<string>)
    requires rules == one.(sitemaps := sitemaps) && one.sitemaps == other.sitemaps
    ensures rules == other.(sitemaps := sitemaps) <==> one == other
  {
    if rules == other.(sitemaps := sitemaps) {
      assert one.disallow == other.disallow && one.allow == other.allow && one.crawlDelay == other.crawlDelay;
    }
  }

  /** The tokens of the file that the user agent contains are the product token and `*`. */
  ghost predicate OnlyProductNames(ds: seq<Directive>, userAgent: string, product: string) {
    && product != "" && Text.AsciiLower(product) != "*"
    && TokenLength(Text.AsciiLower(product), userAgent).Some?
    && forall i :: 0 <= i < |ds| && ds[i].Agent? && TokenLength(ds[i].token, userAgent).Some? ==>
         ds[i].token == Text.AsciiLower(product) || ds[i].token == "*"
  }

  lemma LongerThanNothing(token: string)
    requires token != ""
    ensures Text.ByteLength(token) > 0
  {
  }

  /** Then naming by product token and naming by contained token ask for the same lines. */
  lemma ProductNamesAlike(ds: seq<Directive>, userAgent: string, product: string)
    requires OnlyProductNames(ds, userAgent, product)
    ensures RfcLines(ds, ProductNaming(product)) == RfcLines(ds, AgentNaming(userAgent))
  {
    var token := Text.AsciiLower(product);
    LongerThanNothing(token);
    forall i: nat | i < |ds|
      ensures NamesMost(ds, ProductNaming(product), i) <==> NamesMost(ds, AgentNaming(userAgent), i)
    {
      SameRanks(ds, ProductNaming(product), AgentNaming(userAgent), token, i);
    }
  }

  lemma SameRanks(ds: seq<Directive>, one: Naming, other: Naming, token: string, i: nat)
    requires i < |ds| && token != "*"
    requires one(token).Some? && other(token).Some? && one(token).value > 0 && other(token).value > 0
    requires one("*") == other("*") == Some(0)
    requires forall j :: 0 <= j < |ds| && ds[j].Agent? && ds[j].token != token && ds[j].token != "*" ==>
               one(ds[j].token).None? && other(ds[j].token).None?
    ensures NamesMost(ds, one, i) <==> NamesMost(ds, other, i)
  {
  }

  /** The same exact condition, for a crawler that is named by its product token as the section has it. */
  lemma FirstGroupSufficesForProductIff(ds: seq<Directive>, userAgent: string, product: string, rules: Rules)
    requires Parsed(ds, userAgent, rules) && OnlyProductNames(ds, userAgent, product)
    ensures rules == RfcRules(ds, ProductNaming(product))
            <==> SayAlike(ds, KeptLines(ds, userAgent), RfcLines(ds, ProductNaming(product)))
  {
    ProductNamesAlike(ds, userAgent, product);
    FirstGroupSufficesIff(ds, userAgent, rules);
  }

  // -------------------------------------------------------------------------
  // Verdicts

  /** Every pattern of these lines is a rule of its kind already. */
  ghost predicate Repeat(ds: seq<Directive>, lines: iset<nat>, rules: Rules) {
    forall i: nat :: i < |ds| && i in lines && HasPattern(ds[i]) ==>
                       ds[i].pattern in if ds[i].Disallow? then rules.disallow else rules.allow
  }

  lemma {:induction false} SaidByLine(ds: seq<Directive>, lines: iset<nat>, n: nat, pattern: string)
    requires n <= |ds|
    ensures pattern in Said(ds, lines, n).disallow
            <==> pattern != [] && exists i: nat :: i < n && i in lines && ds[i] == Disallow(pattern)
    ensures pattern in Said(ds, lines, n).allow
            <==> pattern != [] && exists i: nat :: i < n && i in lines && ds[i] == Allow(pattern)
  {
    if n > 0 {
      SaidByLine(ds, lines, n - 1, pattern);
    }
  }

  lemma RepeatsAddNothing(ds: seq<Directive>, a: iset<nat>, b: iset<nat>, pattern: string)
    requires Repeat(ds, a - b, Said(ds, b, |ds|))
    ensures pattern in Said(ds, a, |ds|).disallow ==> pattern in Said(ds, b, |ds|).disallow
    ensures pattern in Said(ds, a, |ds|).allow ==> pattern in Said(ds, b, |ds|).allow
  {
    SaidByLine(ds, a, |ds|, pattern);
    SaidByLine(ds, b, |ds|, pattern);
    if pattern in Said(ds, a, |ds|).disallow {
      var i: nat :| i < |ds| && i in a && ds[i] == Disallow(pattern);
      assert i in a - b || i in b;
    }
    if pattern in Said(ds, a, |ds|).allow {
      var i: nat :| i < |ds| && i in a && ds[i] == Allow(pattern);
      assert i in a - b || i in b;
    }
  }

  /** Groups that only repeat rules change no verdict: then every path is decided as the section asks. */
  lemma RepeatedRulesChangeNoVerdict(ds: seq<Directive>, userAgent: string, naming: Naming, rules: Rules, path: string)
    requires Parsed(ds, userAgent, rules)
    requires Repeat(ds, RfcLines(ds, naming) - KeptLines(ds, userAgent), rules)
    requires Repeat(ds, KeptLines(ds, userAgent) - RfcLines(ds, naming), RfcRules(ds, naming))
    ensures Blocked(rules.disallow, rules.allow, path)
            <==> Blocked(RfcRules(ds, naming).disallow, RfcRules(ds, naming).allow, path)
  {
    var kept, asked := KeptLines(ds, userAgent), RfcLines(ds, naming);
    ParsedIsKept(ds, userAgent, rules);
    forall pattern
      ensures pattern in Said(ds, kept, |ds|).disallow <==> pattern in Said(ds, asked, |ds|).disallow
      ensures pattern in Said(ds, kept, |ds|).allow <==> pattern in Said(ds, asked, |ds|).allow
    {
      RepeatsAddNothing(ds, kept, asked, pattern);
      RepeatsAddNothing(ds, asked, kept, pattern);
    }
    SameSetsSameVerdict(rules.disallow, rules.allow, RfcRules(ds, naming).disallow, RfcRules(ds, naming).allow, path);
  }

  lemma SameSetsSameVerdict(disallow: seq<string>, allow: seq<string>, other: seq<string>, otherAllow: seq<string>,
                            path: string)
    requires forall p :: p in disallow <==> p in other
    requires forall p :: p in allow <==> p in otherAllow
    ensures Blocked(disallow, allow, path) <==> Blocked(other, otherAllow, path)
  {
  }
}
