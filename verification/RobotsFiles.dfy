/**
 Files of a few lines whose rules the parser does not read as RFC 9309 asks, one for each reason
 that `RobotsGroups` names.
 */
module RobotsFiles {
  import opened Basics
  import opened Robots
  import opened RobotsGroups
  import Text

  lemma OneMoreAccess(ds: seq<Directive>, n: nat)
    requires n < |ds|
    ensures AfterAccess(ds, n + 1) <==> IsAccess(ds[n]) || (AfterAccess(ds, n) && !ds[n].Agent?)
  {
    if IsAccess(ds[n]) {
      assert NoAgentBetween(ds, n, n + 1);
    } else {
      forall m: nat | m < n
        ensures NoAgentBetween(ds, m, n + 1) <==> NoAgentBetween(ds, m, n) && !ds[n].Agent?
      {
      }
    }
  }

  /** Where the next line belongs, in the parser's groups and in those of the section. */
  lemma NextLine(ds: seq<Directive>, n: nat)
    requires n < |ds|
    ensures GroupOf(ds, n) == Started(ds, n) + if ds[n].Agent? && AfterRule(ds, n) then 1 else 0
    ensures RfcGroupOf(ds, n) == Headed(ds, n) + if ds[n].Agent? && AfterAccess(ds, n) then 1 else 0
    ensures AfterRule(ds, n + 1) <==> IsRule(ds[n]) || (AfterRule(ds, n) && !ds[n].Agent?)
    ensures AfterAccess(ds, n + 1) <==> IsAccess(ds[n]) || (AfterAccess(ds, n) && !ds[n].Agent?)
  {
    OneMoreLine(ds, n);
    OneMoreAccess(ds, n);
  }

  /** An ASCII letter names a crawler whose name contains it. */
  lemma LetterNames(userAgent: string)
    requires userAgent == "a" || userAgent == "ba"
    ensures TokenLength("a", userAgent) == Some(1)
  {
    assert Text.AsciiLower("a") == "a" && Text.AsciiLower("ba") == "ba";
    assert "ba"[1..] == "a";
    assert Text.Contains("a", "a") && Text.Contains("ba", "a");
    assert "a"[1..] == "";
    assert Text.ByteLength("a") == 1;
  }

  /** The patterns refused by the parser's rules, and by those asked for. */
  lemma RefusedPatterns(ds: seq<Directive>, userAgent: string, naming: Naming, rules: Rules)
    requires Parsed(ds, userAgent, rules)
    ensures rules.disallow == Said(ds, KeptLines(ds, userAgent), |ds|).disallow
    ensures RfcRules(ds, naming).disallow == Said(ds, RfcLines(ds, naming), |ds|).disallow
  {
    ParsedIsKept(ds, userAgent, rules);
  }

  /** A line is kept if it is in the group of the best line. */
  lemma KeptWith(ds: seq<Directive>, userAgent: string, best: nat, i: nat)
    requires best < |ds| && i < |ds| && NamesBest(ds, userAgent, best)
    ensures i in KeptLines(ds, userAgent) <==> GroupOf(ds, i) == GroupOf(ds, best)
  {
    KeptIsGroup(ds, userAgent, best);
  }

  // -------------------------------------------------------------------------
  // Two groups for one crawler

  ghost predicate IsTwoGroups(ds: seq<Directive>, token: string, x: string, y: string) {
    ds == [Agent(token), Disallow(x), Agent(token), Disallow(y)] && x != "" && y != ""
  }

  lemma GroupsOfTwo(ds: seq<Directive>, token: string, x: string, y: string)
    requires IsTwoGroups(ds, token, x, y)
    ensures GroupOf(ds, 0) == GroupOf(ds, 1) == 0 && GroupOf(ds, 2) == GroupOf(ds, 3) == 1
    ensures RfcGroupOf(ds, 0) == RfcGroupOf(ds, 1) == 0 && RfcGroupOf(ds, 2) == RfcGroupOf(ds, 3) == 1
  {
    NextLine(ds, 0);
    NextLine(ds, 1);
    NextLine(ds, 2);
    NextLine(ds, 3);
  }

  lemma SaidOfTwo(ds: seq<Directive>, token: string, x: string, y: string, lines: iset<nat>)
    requires IsTwoGroups(ds, token, x, y) && 1 in lines
    ensures Said(ds, lines, 4).disallow == if 3 in lines then [x, y] else [x]
  {
    assert Said(ds, lines, 1) == NO_RULES;
    assert Said(ds, lines, 2).disallow == [x];
    assert Said(ds, lines, 3) == Said(ds, lines, 2);
  }

  lemma BestOfTwo(ds: seq<Directive>, userAgent: string, token: string, x: string, y: string)
    requires IsTwoGroups(ds, token, x, y) && TokenLength(token, userAgent).Some?
    ensures NamesBest(ds, userAgent, 0)
  {
    GroupsOfTwo(ds, token, x, y);
    assert IsRule(ds[1]) && IsRule(ds[3]);
  }

  lemma LinesOfTwo(ds: seq<Directive>, userAgent: string, token: string, x: string, y: string)
    requires IsTwoGroups(ds, token, x, y) && TokenLength(token, userAgent).Some?
    ensures 1 in KeptLines(ds, userAgent) && 3 !in KeptLines(ds, userAgent)
    ensures 1 in RfcLines(ds, AgentNaming(userAgent)) && 3 in RfcLines(ds, AgentNaming(userAgent))
  {
    BestOfTwo(ds, userAgent, token, x, y);
    GroupsOfTwo(ds, token, x, y);
    KeptWith(ds, userAgent, 0, 1);
    KeptWith(ds, userAgent, 0, 3);
    assert NamesMost(ds, AgentNaming(userAgent), 0) && NamesMost(ds, AgentNaming(userAgent), 2);
  }

  /** Of two groups for one crawler the rules of the second are lost. */
  lemma SecondGroupIsLost(ds: seq<Directive>, userAgent: string, token: string, x: string, y: string, rules: Rules)
    requires IsTwoGroups(ds, token, x, y) && TokenLength(token, userAgent).Some?
    requires Parsed(ds, userAgent, rules)
    ensures rules.disallow == [x] && RfcRules(ds, AgentNaming(userAgent)).disallow == [x, y]
  {
    LinesOfTwo(ds, userAgent, token, x, y);
    RefusedPatterns(ds, userAgent, AgentNaming(userAgent), rules);
    SaidOfTwo(ds, token, x, y, KeptLines(ds, userAgent));
    SaidOfTwo(ds, token, x, y, RfcLines(ds, AgentNaming(userAgent)));
  }

  // The crawler "a" may visit "/y" all the same.
  lemma SecondGroupOfTheSameAgent(rules: Rules)
    requires Parsed([Agent("a"), Disallow("/x"), Agent("a"), Disallow("/y")], "a", rules)
    ensures rules.disallow == ["/x"]
    ensures RfcRules([Agent("a"), Disallow("/x"), Agent("a"), Disallow("/y")], AgentNaming("a")).disallow
            == ["/x", "/y"]
  {
    LetterNames("a");
    SecondGroupIsLost([Agent("a"), Disallow("/x"), Agent("a"), Disallow("/y")], "a", "a", "/x", "/y", rules);
  }

  // -------------------------------------------------------------------------
  // A last group without rules

  ghost predicate EndsWithoutRules(ds: seq<Directive>, token: string, x: string) {
    ds == [Agent("*"), Disallow(x), Agent(token)] && token != "*" && x != ""
  }

  lemma GroupsOfThree(ds: seq<Directive>, token: string, x: string)
    requires EndsWithoutRules(ds, token, x)
    ensures GroupOf(ds, 0) == GroupOf(ds, 1) == 0 && GroupOf(ds, 2) == 1
    ensures RfcGroupOf(ds, 0) == RfcGroupOf(ds, 1) == 0 && RfcGroupOf(ds, 2) == 1
    ensures HasRules(ds, 3, 0) && !HasRules(ds, 3, 1)
  {
    NextLine(ds, 0);
    NextLine(ds, 1);
    NextLine(ds, 2);
    assert IsRule(ds[1]);
  }

  lemma SaidOfThree(ds: seq<Directive>, token: string, x: string, lines: iset<nat>)
    requires EndsWithoutRules(ds, token, x)
    ensures Said(ds, lines, 3).disallow == if 1 in lines then [x] else []
  {
    assert Said(ds, lines, 1) == NO_RULES;
    assert Said(ds, lines, 3) == Said(ds, lines, 2);
  }

  lemma BestOfThree(ds: seq<Directive>, userAgent: string, token: string, x: string)
    requires EndsWithoutRules(ds, token, x)
    ensures NamesBest(ds, userAgent, 0)
  {
    GroupsOfThree(ds, token, x);
  }

  lemma MostOfThree(ds: seq<Directive>, naming: Naming, token: string, x: string, j: nat)
    requires EndsWithoutRules(ds, token, x) && j < |ds| && NamesMost(ds, naming, j)
    requires naming("*") == Some(0) && naming(token).Some? && naming(token).value > 0
    ensures j == 2
  {
    assert naming(ds[2].token).value > naming(ds[0].token).value;
  }

  lemma LinesOfThree(ds: seq<Directive>, userAgent: string, token: string, x: string)
    requires EndsWithoutRules(ds, token, x) && TokenLength(token, userAgent).Some? && token != ""
    ensures 1 in KeptLines(ds, userAgent) && 1 !in RfcLines(ds, AgentNaming(userAgent))
  {
    BestOfThree(ds, userAgent, token, x);
    GroupsOfThree(ds, token, x);
    KeptWith(ds, userAgent, 0, 1);
    LongerThanNothing(token);
    forall j: nat | j < |ds| && NamesMost(ds, AgentNaming(userAgent), j)
      ensures j == 2
    {
      MostOfThree(ds, AgentNaming(userAgent), token, x, j);
    }
  }

  /** A crawler that the last group names without rules is given the rules for all others. */
  lemma RulelessGroupIsLost(ds: seq<Directive>, userAgent: string, token: string, x: string, rules: Rules)
    requires EndsWithoutRules(ds, token, x) && TokenLength(token, userAgent).Some? && token != ""
    requires Parsed(ds, userAgent, rules)
    ensures rules.disallow == [x] && RfcRules(ds, AgentNaming(userAgent)).disallow == []
  {
    LinesOfThree(ds, userAgent, token, x);
    RefusedPatterns(ds, userAgent, AgentNaming(userAgent), rules);
    SaidOfThree(ds, token, x, KeptLines(ds, userAgent));
    SaidOfThree(ds, token, x, RfcLines(ds, AgentNaming(userAgent)));
  }

  // The crawler "a" may visit everything, and visits nothing.
  lemma LastGroupWithoutRules(rules: Rules)
    requires Parsed([Agent("*"), Disallow("/"), Agent("a")], "a", rules)
    ensures rules.disallow == ["/"]
    ensures RfcRules([Agent("*"), Disallow("/"), Agent("a")], AgentNaming("a")).disallow == []
  {
    LetterNames("a");
    RulelessGroupIsLost([Agent("*"), Disallow("/"), Agent("a")], "a", "a", "/", rules);
  }

  // -------------------------------------------------------------------------
  // A delay between the names of one group

  ghost predicate IsDelayed(ds: seq<Directive>, token: string, other: string, seconds: nat, x: string) {
    ds == [Agent(token), Delay(Some(seconds)), Agent(other), Disallow(x)] && x != ""
  }

  lemma GroupsOfDelayed(ds: seq<Directive>, token: string, other: string, seconds: nat, x: string)
    requires IsDelayed(ds, token, other, seconds, x)
    ensures GroupOf(ds, 0) == GroupOf(ds, 1) == 0 && GroupOf(ds, 2) == GroupOf(ds, 3) == 1
    ensures RfcGroupOf(ds, 0) == RfcGroupOf(ds, 3) == 0
  {
    NextLine(ds, 0);
    NextLine(ds, 1);
    NextLine(ds, 2);
    NextLine(ds, 3);
  }

  lemma SaidOfDelayed(ds: seq<Directive>, token: string, other: string, seconds: nat, x: string, lines: iset<nat>)
    requires IsDelayed(ds, token, other, seconds, x)
    ensures Said(ds, lines, 4).disallow == if 3 in lines then [x] else []
  {
    assert Said(ds, lines, 1) == NO_RULES;
    assert Said(ds, lines, 2).disallow == [];
    assert Said(ds, lines, 3) == Said(ds, lines, 2);
  }

  lemma BestOfDelayed(ds: seq<Directive>, userAgent: string, token: string, other: string, seconds: nat, x: string)
    requires IsDelayed(ds, token, other, seconds, x)
    requires TokenLength(token, userAgent).Some? && TokenLength(other, userAgent).None?
    ensures NamesBest(ds, userAgent, 0)
  {
    GroupsOfDelayed(ds, token, other, seconds, x);
    assert IsRule(ds[1]);
  }

  lemma LinesOfDelayed(ds: seq<Directive>, userAgent: string, token: string, other: string, seconds: nat, x: string)
    requires IsDelayed(ds, token, other, seconds, x)
    requires TokenLength(token, userAgent).Some? && TokenLength(other, userAgent).None?
    ensures 3 !in KeptLines(ds, userAgent) && 3 in RfcLines(ds, AgentNaming(userAgent))
  {
    BestOfDelayed(ds, userAgent, token, other, seconds, x);
    GroupsOfDelayed(ds, token, other, seconds, x);
    KeptWith(ds, userAgent, 0, 3);
    assert NamesMost(ds, AgentNaming(userAgent), 0);
  }

  /** A delay between two names takes the rules behind them from the first. */
  lemma DelayEndsGroup(ds: seq<Directive>, userAgent: string, token: string, other: string, seconds: nat, x: string,
                       rules: Rules)
    requires IsDelayed(ds, token, other, seconds, x)
    requires TokenLength(token, userAgent).Some? && TokenLength(other, userAgent).None?
    requires Parsed(ds, userAgent, rules)
    ensures rules.disallow == [] && RfcRules(ds, AgentNaming(userAgent)).disallow == [x]
  {
    LinesOfDelayed(ds, userAgent, token, other, seconds, x);
    RefusedPatterns(ds, userAgent, AgentNaming(userAgent), rules);
    SaidOfDelayed(ds, token, other, seconds, x, KeptLines(ds, userAgent));
    SaidOfDelayed(ds, token, other, seconds, x, RfcLines(ds, AgentNaming(userAgent)));
  }

  // The crawlers "a" and "b" may visit nothing, and "a" visits everything.
  lemma DelayBetweenNames(rules: Rules)
    requires Parsed([Agent("a"), Delay(Some(5)), Agent("b"), Disallow("/")], "a", rules)
    ensures rules.disallow == []
    ensures RfcRules([Agent("a"), Delay(Some(5)), Agent("b"), Disallow("/")], AgentNaming("a")).disallow == ["/"]
  {
    LetterNames("a");
    assert Text.AsciiLower("a") == "a" && "a"[1..] == "";
    assert !Text.Contains("a", "b");
    DelayEndsGroup([Agent("a"), Delay(Some(5)), Agent("b"), Disallow("/")], "a", "a", "b", 5, "/", rules);
  }

  // -------------------------------------------------------------------------
  // A token inside the name of the crawler

  ghost predicate IsOneGroup(ds: seq<Directive>, token: string, x: string) {
    ds == [Agent(token), Disallow(x)] && x != ""
  }

  lemma SaidOfOne(ds: seq<Directive>, token: string, x: string, lines: iset<nat>)
    requires IsOneGroup(ds, token, x)
    ensures Said(ds, lines, 2).disallow == if 1 in lines then [x] else []
  {
    assert Said(ds, lines, 1) == NO_RULES;
  }

  lemma LineOfOne(ds: seq<Directive>, userAgent: string, token: string, x: string)
    requires IsOneGroup(ds, token, x) && TokenLength(token, userAgent).Some?
    ensures 1 in KeptLines(ds, userAgent)
  {
    NextLine(ds, 0);
    NextLine(ds, 1);
    assert IsRule(ds[1]) && GroupOf(ds, 0) == GroupOf(ds, 1);
    assert NamesBest(ds, userAgent, 0);
    KeptWith(ds, userAgent, 0, 1);
  }

  /** A token that the user agent contains is obeyed, though the crawler is named otherwise. */
  lemma ContainedTokenIsObeyed(ds: seq<Directive>, userAgent: string, product: string, token: string, x: string,
                               rules: Rules)
    requires IsOneGroup(ds, token, x) && TokenLength(token, userAgent).Some?
    requires token != "*" && token != Text.AsciiLower(product)
    requires Parsed(ds, userAgent, rules)
    ensures rules.disallow == [x] && RfcRules(ds, ProductNaming(product)).disallow == []
  {
    LineOfOne(ds, userAgent, token, x);
    RefusedPatterns(ds, userAgent, ProductNaming(product), rules);
    SaidOfOne(ds, token, x, KeptLines(ds, userAgent));
    assert 1 !in RfcLines(ds, ProductNaming(product));
    SaidOfOne(ds, token, x, RfcLines(ds, ProductNaming(product)));
  }

  // The crawler "ba" may visit everything, and obeys the group of "a".
  lemma TokenInsideName(rules: Rules)
    requires Parsed([Agent("a"), Disallow("/")], "ba", rules)
    ensures rules.disallow == ["/"] && RfcRules([Agent("a"), Disallow("/")], ProductNaming("ba")).disallow == []
  {
    LetterNames("ba");
    assert Text.AsciiLower("ba") == "ba";
    ContainedTokenIsObeyed([Agent("a"), Disallow("/")], "ba", "ba", "a", "/", rules);
  }
}
