/**
 robots.txt: parsing into groups, choosing a group for a user agent, and the
 verdict on a path.

 The groups are specified by line: `GroupOf` says which group a line belongs to,
 and the parser's result is stated about lines, not about the lists it builds.
 */
module Robots {
  import opened Basics
  import opened Text
  import Glob

  datatype Rules = Rules(crawlDelay: Option<nat>, disallow: seq<string>, allow: seq<string>, sitemaps: seq<string>)

  const NO_RULES := Rules(None, [], [], [])

  // -------------------------------------------------------------------------
  // The verdict on a path

  /** A trailing `$` asks for a match of the whole path. */
  function Unanchored(pattern: string): (string, bool) {
    if pattern != [] && pattern[|pattern| - 1] == '$' then (pattern[..|pattern| - 1], true) else (pattern, false)
  }

  ghost predicate Covers(pattern: string, path: string) {
    var (body, anchored) := Unanchored(pattern);
    Glob.Verdict(body, path, anchored)
  }

  /** Specificity is the pattern's length in bytes, `$` not counted. */
  function Specificity(pattern: string): nat {
    ByteLength(Unanchored(pattern).0)
  }

  /** Some matching `disallow` is at least as specific as every matching `allow`. */
  ghost predicate Blocked(disallow: seq<string>, allow: seq<string>, path: string) {
    exists d :: d in disallow && Covers(d, path)
                && forall a :: a in allow && Covers(a, path) ==> Specificity(a) <= Specificity(d)
  }

  method MatchPath(pattern: string, path: string) returns (specificity: Option<nat>)
    ensures specificity == if Covers(pattern, path) then Some(Specificity(pattern)) else None
  {
    var (body, anchored) := Unanchored(pattern);
    var matched := Glob.Matches(body, path, anchored);
    specificity := if matched then Some(ByteLength(body)) else None;
  }

  /** Keeps the most specific rule seen so far; a tie leaves the earlier one. */
  function Consider(best: Option<(nat, bool)>, specificity: nat, allowed: bool): Option<(nat, bool)> {
    match best
    case None => Some((specificity, allowed))
    case Some((current, _)) => if specificity > current then Some((specificity, allowed)) else best
  }

  /** `best` is the highest specificity among the matching patterns of `patterns[..n]`. */
  ghost predicate IsBest(best: Option<nat>, patterns: seq<string>, n: nat, path: string)
    requires n <= |patterns|
  {
    && (forall i :: 0 <= i < n && Covers(patterns[i], path) ==> best.Some? && Specificity(patterns[i]) <= best.value)
    && (best.Some? ==> exists i :: 0 <= i < n && Covers(patterns[i], path) && Specificity(patterns[i]) == best.value)
  }

  method Allows(rules: Rules, path: string) returns (allowed: bool)
    ensures allowed <==> !Blocked(rules.disallow, rules.allow, path)
  {
    var best: Option<(nat, bool)> := None;
    ghost var denied: Option<nat> := None;
    for i := 0 to |rules.disallow|
      invariant IsBest(denied, rules.disallow, i, path)
      invariant best == if denied.Some? then Some((denied.value, false)) else None
    {
      var specificity := MatchPath(rules.disallow[i], path);
      if specificity.Some? {
        best := Consider(best, specificity.value, false);
        if denied.None? || specificity.value > denied.value {
          denied := specificity;
        }
      }
    }

    ghost var permitted: Option<nat> := None;
    for i := 0 to |rules.allow|
      invariant IsBest(permitted, rules.allow, i, path)
      invariant best == if permitted.Some? && (denied.None? || permitted.value > denied.value)
                        then Some((permitted.value, true))
                        else if denied.Some? then Some((denied.value, false)) else None
    {
      var specificity := MatchPath(rules.allow[i], path);
      if specificity.Some? {
        best := Consider(best, specificity.value, true);
        if permitted.None? || specificity.value > permitted.value {
          permitted := specificity;
        }
      }
    }

    allowed := best.None? || best.value.1;
    VerdictFromBests(rules, path, denied, permitted);
  }

  lemma VerdictFromBests(rules: Rules, path: string, denied: Option<nat>, permitted: Option<nat>)
    requires IsBest(denied, rules.disallow, |rules.disallow|, path)
    requires IsBest(permitted, rules.allow, |rules.allow|, path)
    ensures Blocked(rules.disallow, rules.allow, path)
            <==> denied.Some? && (permitted.None? || permitted.value <= denied.value)
  {
    if denied.Some? && (permitted.None? || permitted.value <= denied.value) {
      var i :| 0 <= i < |rules.disallow| && Covers(rules.disallow[i], path)
               && Specificity(rules.disallow[i]) == denied.value;
      assert rules.disallow[i] in rules.disallow;
    }
    if Blocked(rules.disallow, rules.allow, path) && permitted.Some? {
      var i :| 0 <= i < |rules.allow| && Covers(rules.allow[i], path)
               && Specificity(rules.allow[i]) == permitted.value;
      assert rules.allow[i] in rules.allow;
    }
  }

  /** The verdict does not depend on the order of the rules within either list. */
  lemma OrderDoesNotMatter(rules: Rules, other: Rules, path: string)
    requires multiset(rules.disallow) == multiset(other.disallow)
    requires multiset(rules.allow) == multiset(other.allow)
    ensures Blocked(rules.disallow, rules.allow, path) <==> Blocked(other.disallow, other.allow, path)
  {
    forall s
      ensures s in rules.disallow <==> s in other.disallow
      ensures s in rules.allow <==> s in other.allow
    {
      assert s in rules.disallow <==> s in multiset(rules.disallow);
      assert s in other.disallow <==> s in multiset(other.disallow);
      assert s in rules.allow <==> s in multiset(rules.allow);
      assert s in other.allow <==> s in multiset(other.allow);
    }
  }

  // -------------------------------------------------------------------------
  // Lines, and the group each belongs to

  datatype Directive =
    | Agent(token: string)
    | Disallow(pattern: string)
    | Allow(pattern: string)
    | Delay(seconds: Option<nat>)
    | Sitemap(url: string)
    | Ignored

  /**
   Reads one line. `parseDelay` stands for parsing and rounding up a `Crawl-delay`
   value: `None` for one that is not a finite, non-negative number.
   */
  function Classify(line: string, parseDelay: string -> Option<nat>): Directive {
    var text := Trim(line[..IndexOf(line, '#')]);
    var colon := IndexOf(text, ':');
    if text == [] || colon == |text| then
      Ignored
    else
      var field := AsciiLower(Trim(text[..colon]));
      var value := Trim(text[colon + 1..]);
      if field == "user-agent" then Agent(AsciiLower(value))
      else if field == "disallow" then Disallow(value)
      else if field == "allow" then Allow(value)
      else if field == "crawl-delay" then Delay(parseDelay(value))
      else if field == "sitemap" && value != [] then Sitemap(value)
      else Ignored
  }

  predicate IsRule(d: Directive) {
    d.Disallow? || d.Allow? || d.Delay?
  }

  ghost predicate NoAgentBetween(ds: seq<Directive>, m: nat, n: nat)
    requires n <= |ds|
  {
    forall k :: m < k < n ==> !ds[k].Agent?
  }

  /** Some rule line precedes line `n` with no user-agent line between the two. */
  ghost predicate AfterRule(ds: seq<Directive>, n: nat)
    requires n <= |ds|
  {
    exists m: nat :: m < n && IsRule(ds[m]) && NoAgentBetween(ds, m, n)
  }

  /** A user-agent line starts a new group when the rules of a previous one have begun. */
  ghost predicate StartsGroup(ds: seq<Directive>, i: nat)
    requires i < |ds|
  {
    ds[i].Agent? && AfterRule(ds, i)
  }

  /** Number of groups started on the first `n` lines. */
  ghost function Started(ds: seq<Directive>, n: nat): nat
    requires n <= |ds|
  {
    if n == 0 then 0 else Started(ds, n - 1) + (if StartsGroup(ds, n - 1) then 1 else 0)
  }

  /** The group line `i` belongs to. */
  ghost function GroupOf(ds: seq<Directive>, i: nat): nat
    requires i < |ds|
  {
    Started(ds, i + 1)
  }

  /** Group `g` has a rule line among the first `n` lines. */
  ghost predicate HasRules(ds: seq<Directive>, n: nat, g: nat)
    requires n <= |ds|
  {
    exists i :: 0 <= i < n && IsRule(ds[i]) && GroupOf(ds, i) == g
  }

  ghost function AgentsOf(ds: seq<Directive>, n: nat, g: nat): seq<string>
    requires n <= |ds|
  {
    if n == 0 then []
    else AgentsOf(ds, n - 1, g)
         + if ds[n - 1].Agent? && GroupOf(ds, n - 1) == g then [ds[n - 1].token] else []
  }

  /** What a line adds to its group; an empty pattern says nothing. */
  function Extended(rules: Rules, d: Directive): Rules {
    match d
    case Disallow(pattern) => if pattern != [] then rules.(disallow := rules.disallow + [pattern]) else rules
    case Allow(pattern) => if pattern != [] then rules.(allow := rules.allow + [pattern]) else rules
    case Delay(seconds) => if seconds.Some? then rules.(crawlDelay := seconds) else rules
    case _ => rules
  }

  /** What the lines of group `g` among the first `n` say. */
  ghost function RulesOf(ds: seq<Directive>, n: nat, g: nat): Rules
    requires n <= |ds|
  {
    if n == 0 then NO_RULES
    else
      var before := RulesOf(ds, n - 1, g);
      if GroupOf(ds, n - 1) == g then Extended(before, ds[n - 1]) else before
  }

  /** Every sitemap line of the first `n`, whatever its group. */
  ghost function SitemapsOf(ds: seq<Directive>, n: nat): seq<string>
    requires n <= |ds|
  {
    if n == 0 then []
    else SitemapsOf(ds, n - 1) + if ds[n - 1].Sitemap? then [ds[n - 1].url] else []
  }

  // -------------------------------------------------------------------------
  // Choosing a group

  /** How specifically an agent token names `userAgent`; `*` counts as a match of length zero. */
  function TokenLength(token: string, userAgent: string): Option<nat> {
    if token == "*" then Some(0)
    else if Contains(AsciiLower(userAgent), token) then Some(ByteLength(token))
    else None
  }

  /** Line `i` names the user agent, at the head of a group that has rules. */
  ghost predicate Names(ds: seq<Directive>, userAgent: string, i: nat)
    requires i < |ds|
  {
    ds[i].Agent? && TokenLength(ds[i].token, userAgent).Some? && HasRules(ds, |ds|, GroupOf(ds, i))
  }

  /** Line `j` names the user agent no better than line `i`: by a shorter token, or by an equal one no earlier. */
  ghost predicate NoBetter(ds: seq<Directive>, userAgent: string, j: nat, i: nat)
    requires i < |ds| && j < |ds| && Names(ds, userAgent, i) && Names(ds, userAgent, j)
  {
    var length, other := TokenLength(ds[i].token, userAgent).value, TokenLength(ds[j].token, userAgent).value;
    other < length || (other == length && GroupOf(ds, i) <= GroupOf(ds, j))
  }

  /** Among the first `n` lines, line `i` names the user agent with the longest token, in the first group that does. */
  ghost predicate BestAmong(ds: seq<Directive>, userAgent: string, n: nat, i: nat)
    requires i < n <= |ds|
  {
    && Names(ds, userAgent, i)
    && forall j :: 0 <= j < n && Names(ds, userAgent, j) ==> NoBetter(ds, userAgent, j, i)
  }

  ghost predicate NamesBest(ds: seq<Directive>, userAgent: string, i: nat)
    requires i < |ds|
  {
    BestAmong(ds, userAgent, |ds|, i)
  }

  type Group = (seq<string>, Rules)

  /** Agent `a` of group `g` names the user agent. */
  predicate GroupNames(groups: seq<Group>, userAgent: string, g: nat, a: nat) {
    g < |groups| && a < |groups[g].0| && TokenLength(groups[g].0[a], userAgent).Some?
  }

  /** Among the agents before position (`upTo`, `within`), agent `a` of group `g` is the first longest match. */
  ghost predicate FirstLongest(groups: seq<Group>, userAgent: string, upTo: nat, within: nat, g: nat, a: nat) {
    && GroupNames(groups, userAgent, g, a)
    && (g < upTo || (g == upTo && a < within))
    && forall h: nat, b: nat :: GroupNames(groups, userAgent, h, b) && (h < upTo || (h == upTo && b < within)) ==>
         var length, other := TokenLength(groups[g].0[a], userAgent).value,
           TokenLength(groups[h].0[b], userAgent).value;
         other < length || (other == length && g <= h)
  }

  ghost predicate NobodyNamed(groups: seq<Group>, userAgent: string, upTo: nat, within: nat) {
    forall h: nat, b: nat :: (h < upTo || (h == upTo && b < within)) ==> !GroupNames(groups, userAgent, h, b)
  }

  method SelectGroup(groups: seq<Group>, userAgent: string)
    returns (selected: Option<Rules>, ghost group: nat, ghost agent: nat)
    ensures selected.None? ==> NobodyNamed(groups, userAgent, |groups|, 0)
    ensures selected.Some? ==> FirstLongest(groups, userAgent, |groups|, 0, group, agent)
                               && selected.value == groups[group].1
  {
    var best: Option<(Rules, nat)> := None;
    group, agent := 0, 0;
    for g := 0 to |groups|
      invariant best.None? ==> NobodyNamed(groups, userAgent, g, 0)
      invariant best.Some? ==> FirstLongest(groups, userAgent, g, 0, group, agent)
                               && best.value == (groups[group].1, TokenLength(groups[group].0[agent], userAgent).value)
    {
      var (agents, rules) := groups[g];
      for a := 0 to |agents|
        invariant best.None? ==> NobodyNamed(groups, userAgent, g, a)
        invariant best.Some? ==> FirstLongest(groups, userAgent, g, a, group, agent)
                                 && best.value == (groups[group].1, TokenLength(groups[group].0[agent],
                                    userAgent).value)
      {
        var specificity := TokenLength(agents[a], userAgent);
        if specificity.Some? {
          if best.None? || specificity.value > best.value.1 {
            best := Some((rules, specificity.value));
            group, agent := g, a;
          }
        }
      }
    }
    selected := if best.Some? then Some(best.value.0) else None;
  }

  // -------------------------------------------------------------------------
  // The parser

  /** What parsing must return, stated about the lines of the file. */
  ghost predicate Parsed(ds: seq<Directive>, userAgent: string, rules: Rules) {
    && rules.sitemaps == SitemapsOf(ds, |ds|)
    && (forall i :: 0 <= i < |ds| && NamesBest(ds, userAgent, i) ==>
          rules.(sitemaps := []) == RulesOf(ds, |ds|, GroupOf(ds, i)))
    && ((forall i :: 0 <= i < |ds| ==> !Names(ds, userAgent, i)) ==> rules.(sitemaps := []) == NO_RULES)
  }

  /** The first `n` lines are represented by the groups pushed so far and the one being built. */
  ghost predicate Built(ds: seq<Directive>, n: nat, groups: seq<Group>, agents: seq<string>, rules: Rules) {
    && n <= |ds|
    && |groups| == Started(ds, n)
    && agents == AgentsOf(ds, n, |groups|)
    && rules == RulesOf(ds, n, |groups|)
    && (forall g :: 0 <= g < |groups| ==>
          groups[g] == (AgentsOf(ds, n, g), RulesOf(ds, n, g)) && HasRules(ds, n, g))
  }

  lemma OneMoreLine(ds: seq<Directive>, n: nat)
    requires n < |ds|
    ensures AfterRule(ds, n + 1) <==> IsRule(ds[n]) || (AfterRule(ds, n) && !ds[n].Agent?)
  {
    if IsRule(ds[n]) {
      assert NoAgentBetween(ds, n, n + 1);
    } else {
      forall m: nat | m < n
        ensures NoAgentBetween(ds, m, n + 1) <==> NoAgentBetween(ds, m, n) && !ds[n].Agent?
      {
      }
    }
  }

  lemma OneMoreRule(ds: seq<Directive>, n: nat, g: nat)
    requires n < |ds|
    ensures HasRules(ds, n + 1, g) <==> HasRules(ds, n, g) || (IsRule(ds[n]) && GroupOf(ds, n) == g)
  {
  }

  /** No line so far belongs to a group that has not been started. */
  lemma {:induction false} NothingAhead(ds: seq<Directive>, n: nat, g: nat)
    requires n <= |ds| && Started(ds, n) < g
    ensures AgentsOf(ds, n, g) == [] && RulesOf(ds, n, g) == NO_RULES && !HasRules(ds, n, g)
  {
    if n > 0 {
      NothingAhead(ds, n - 1, g);
      OneMoreRule(ds, n - 1, g);
    }
  }

  lemma {:induction false} RulesCarryNoSitemaps(ds: seq<Directive>, n: nat, g: nat)
    requires n <= |ds|
    ensures RulesOf(ds, n, g).sitemaps == []
  {
    if n > 0 {
      RulesCarryNoSitemaps(ds, n - 1, g);
    }
  }

  lemma {:induction false} StartedGrows(ds: seq<Directive>, m: nat, n: nat)
    requires m <= n <= |ds|
    ensures Started(ds, m) <= Started(ds, n)
    decreases n
  {
    if m < n {
      StartedGrows(ds, m, n - 1);
    }
  }

  /** The agents of a group are the tokens of its user-agent lines. */
  lemma {:induction false} AgentsAreLines(ds: seq<Directive>, n: nat, g: nat, token: string)
    requires n <= |ds|
    ensures token in AgentsOf(ds, n, g) <==>
            exists i :: 0 <= i < n && ds[i].Agent? && ds[i].token == token && GroupOf(ds, i) == g
  {
    if n > 0 {
      AgentsAreLines(ds, n - 1, g, token);
    }
  }

  /** A named line appears as a named agent of the group list. */
  lemma LineToAgent(ds: seq<Directive>, userAgent: string, groups: seq<Group>, i: nat) returns (a: nat)
    requires i < |ds| && Names(ds, userAgent, i)
    requires GroupOf(ds, i) < |groups|
    requires groups[GroupOf(ds, i)].0 == AgentsOf(ds, |ds|, GroupOf(ds, i))
    ensures GroupNames(groups, userAgent, GroupOf(ds, i), a) && groups[GroupOf(ds, i)].0[a] == ds[i].token
  {
    AgentsAreLines(ds, |ds|, GroupOf(ds, i), ds[i].token);
    a :| 0 <= a < |groups[GroupOf(ds, i)].0| && groups[GroupOf(ds, i)].0[a] == ds[i].token;
  }

  lemma AgentToLine(ds: seq<Directive>, userAgent: string, groups: seq<Group>, g: nat, a: nat) returns (i: nat)
    requires GroupNames(groups, userAgent, g, a)
    requires groups[g].0 == AgentsOf(ds, |ds|, g) && HasRules(ds, |ds|, g)
    ensures i < |ds| && Names(ds, userAgent, i) && GroupOf(ds, i) == g && ds[i].token == groups[g].0[a]
  {
    AgentsAreLines(ds, |ds|, g, groups[g].0[a]);
    i :| 0 <= i < |ds| && ds[i].Agent? && ds[i].token == groups[g].0[a] && GroupOf(ds, i) == g;
  }

  /** The group list holds every group of lines that has rules and an agent, and only groups with rules. */
  ghost predicate Complete(ds: seq<Directive>, groups: seq<Group>) {
    && (forall g :: 0 <= g < |groups| ==>
          groups[g] == (AgentsOf(ds, |ds|, g), RulesOf(ds, |ds|, g)) && HasRules(ds, |ds|, g))
    && (forall i :: 0 <= i < |ds| && ds[i].Agent? && HasRules(ds, |ds|, GroupOf(ds, i)) ==> GroupOf(ds, i) < |groups|)
  }

  lemma SelectionIsParsed(ds: seq<Directive>, userAgent: string, groups: seq<Group>,
                          selected: Option<Rules>, g: nat, a: nat)
    requires Complete(ds, groups)
    requires selected.None? ==> NobodyNamed(groups, userAgent, |groups|, 0)
    requires selected.Some? ==> FirstLongest(groups, userAgent, |groups|, 0, g, a) && selected.value == groups[g].1
    ensures Parsed(ds, userAgent,
                   (if selected.Some? then selected.value else NO_RULES).(sitemaps := SitemapsOf(ds, |ds|)))
  {
    if selected.None? {
      forall i | 0 <= i < |ds|
        ensures !Names(ds, userAgent, i)
      {
        if Names(ds, userAgent, i) {
          var b := LineToAgent(ds, userAgent, groups, i);
        }
      }
    } else {
      RulesCarryNoSitemaps(ds, |ds|, g);
      var line := AgentToLine(ds, userAgent, groups, g, a);
      forall i | 0 <= i < |ds| && NamesBest(ds, userAgent, i)
        ensures GroupOf(ds, i) == g
      {
        var b := LineToAgent(ds, userAgent, groups, i);
        assert Names(ds, userAgent, line);
      }
    }
  }

  /** An agent line is in a closed group or in the one being built, which then has an agent. */
  lemma LineIsGrouped(ds: seq<Directive>, count: nat, agents: seq<string>, i: nat)
    requires i < |ds| && ds[i].Agent? && count == Started(ds, |ds|) && agents == AgentsOf(ds, |ds|, count)
    ensures GroupOf(ds, i) < count || (GroupOf(ds, i) == count && agents != [])
  {
    StartedGrows(ds, i + 1, |ds|);
    AgentsAreLines(ds, |ds|, GroupOf(ds, i), ds[i].token);
  }

  lemma LastGroupCompletes(ds: seq<Directive>, groups: seq<Group>, agents: seq<string>, rules: Rules)
    requires Built(ds, |ds|, groups, agents, rules) && HasRules(ds, |ds|, |groups|)
    requires forall i :: 0 <= i < |ds| && ds[i].Agent? ==> GroupOf(ds, i) <= |groups|
    ensures Complete(ds, groups + [(agents, rules)])
  {
  }

  lemma GroupsAreComplete(ds: seq<Directive>, groups: seq<Group>, agents: seq<string>, rules: Rules, hasRules: bool)
    requires Built(ds, |ds|, groups, agents, rules)
    requires hasRules <==> HasRules(ds, |ds|, |groups|)
    ensures Complete(ds, if hasRules && agents != [] then groups + [(agents, rules)] else groups)
  {
    forall i | 0 <= i < |ds| && ds[i].Agent?
      ensures GroupOf(ds, i) < |groups| || (GroupOf(ds, i) == |groups| && agents != [])
    {
      LineIsGrouped(ds, |groups|, agents, i);
    }
    if hasRules && agents != [] {
      LastGroupCompletes(ds, groups, agents, rules);
    }
  }

  /** The next line changes nothing of a group it does not belong to. */
  lemma OtherGroupsStay(ds: seq<Directive>, n: nat, g: nat)
    requires n < |ds| && GroupOf(ds, n) != g
    ensures AgentsOf(ds, n + 1, g) == AgentsOf(ds, n, g) && RulesOf(ds, n + 1, g) == RulesOf(ds, n, g)
    ensures HasRules(ds, n + 1, g) <==> HasRules(ds, n, g)
  {
    OneMoreRule(ds, n, g);
  }

  lemma ClosedGroupStays(ds: seq<Directive>, n: nat, g: nat, group: Group)
    requires n < |ds| && GroupOf(ds, n) != g
    requires group == (AgentsOf(ds, n, g), RulesOf(ds, n, g)) && HasRules(ds, n, g)
    ensures group == (AgentsOf(ds, n + 1, g), RulesOf(ds, n + 1, g)) && HasRules(ds, n + 1, g)
  {
    OtherGroupsStay(ds, n, g);
  }

  lemma ClosedGroupsStay(ds: seq<Directive>, n: nat, groups: seq<Group>, agents: seq<string>, rules: Rules)
    requires n < |ds| && Built(ds, n, groups, agents, rules)
    ensures forall g :: 0 <= g < |groups| ==>
              groups[g] == (AgentsOf(ds, n + 1, g), RulesOf(ds, n + 1, g)) && HasRules(ds, n + 1, g)
  {
    forall g | 0 <= g < |groups|
      ensures groups[g] == (AgentsOf(ds, n + 1, g), RulesOf(ds, n + 1, g)) && HasRules(ds, n + 1, g)
    {
      ClosedGroupStays(ds, n, g, groups[g]);
    }
  }

  /** The group a line starts holds that line only. */
  lemma NewGroup(ds: seq<Directive>, n: nat, g: nat)
    requires n < |ds| && ds[n].Agent? && GroupOf(ds, n) == g && Started(ds, n) < g
    ensures AgentsOf(ds, n + 1, g) == [ds[n].token] && RulesOf(ds, n + 1, g) == NO_RULES && !HasRules(ds, n + 1, g)
  {
    NothingAhead(ds, n, g);
    OneMoreRule(ds, n, g);
  }

  /** A line that starts a group closes the one being built. */
  lemma LineStartsGroup(ds: seq<Directive>, n: nat, groups: seq<Group>, agents: seq<string>, rules: Rules)
    requires n < |ds| && StartsGroup(ds, n)
    requires Built(ds, n, groups, agents, rules) && HasRules(ds, n, |groups|)
    ensures Built(ds, n + 1, groups + [(agents, rules)], [ds[n].token], NO_RULES)
    ensures !HasRules(ds, n + 1, |groups| + 1)
  {
    ClosedGroupsStay(ds, n, groups, agents, rules);
    OtherGroupsStay(ds, n, |groups|);
    NewGroup(ds, n, |groups| + 1);
  }

  /** Any other line is added to the group being built. */
  lemma LineStaysInGroup(ds: seq<Directive>, n: nat, groups: seq<Group>, agents: seq<string>, rules: Rules)
    requires n < |ds| && !StartsGroup(ds, n)
    requires Built(ds, n, groups, agents, rules)
    ensures GroupOf(ds, n) == |groups|
    ensures Built(ds, n + 1, groups, AgentsOf(ds, n + 1, |groups|), RulesOf(ds, n + 1, |groups|))
    ensures HasRules(ds, n + 1, |groups|) <==> HasRules(ds, n, |groups|) || IsRule(ds[n])
  {
    ClosedGroupsStay(ds, n, groups, agents, rules);
    OneMoreRule(ds, n, |groups|);
  }

  method Parse(lines: seq<string>, userAgent: string, parseDelay: string -> Option<nat>) returns (rules: Rules)
    ensures Parsed(seq(|lines|, i requires 0 <= i < |lines| => Classify(lines[i], parseDelay)), userAgent, rules)
  {
    ghost var ds := seq(|lines|, i requires 0 <= i < |lines| => Classify(lines[i], parseDelay));
    var groups: seq<Group> := [];
    var agents: seq<string> := [];
    rules := NO_RULES;
    var groupHasRules := false;
    var sitemaps: seq<string> := [];

    for n := 0 to |lines|
      invariant Built(ds, n, groups, agents, rules)
      invariant groupHasRules <==> AfterRule(ds, n)
      invariant groupHasRules <==> HasRules(ds, n, |groups|)
      invariant sitemaps == SitemapsOf(ds, n)
    {
      OneMoreLine(ds, n);
      if StartsGroup(ds, n) {
        LineStartsGroup(ds, n, groups, agents, rules);
      } else {
        LineStaysInGroup(ds, n, groups, agents, rules);
      }
      match Classify(lines[n], parseDelay) {
        case Agent(token) =>
          if groupHasRules {
            groups := groups + [(agents, rules)];
            agents, rules := [], NO_RULES;
            groupHasRules := false;
          }
          agents := agents + [token];
        case Disallow(pattern) =>
          groupHasRules := true;
          if pattern != [] {
            rules := rules.(disallow := rules.disallow + [pattern]);
          }
        case Allow(pattern) =>
          groupHasRules := true;
          if pattern != [] {
            rules := rules.(allow := rules.allow + [pattern]);
          }
        case Delay(seconds) =>
          groupHasRules := true;
          if seconds.Some? {
            rules := rules.(crawlDelay := seconds);
          }
        case Sitemap(url) =>
          sitemaps := sitemaps + [url];
        case Ignored =>
      }
    }

    GroupsAreComplete(ds, groups, agents, rules, groupHasRules);
    if groupHasRules && agents != [] {
      groups := groups + [(agents, rules)];
    }
    var selected, group, agent := SelectGroup(groups, userAgent);
    SelectionIsParsed(ds, userAgent, groups, selected, group, agent);
    rules := (if selected.Some? then selected.value else NO_RULES).(sitemaps := sitemaps);
  }

  /** A line that is better than the best so far is the best of all. */
  lemma BetterIsBest(ds: seq<Directive>, userAgent: string, best: nat, next: nat)
    requires next < |ds| && Names(ds, userAgent, next) && best < next && BestAmong(ds, userAgent, next, best)
    requires !NoBetter(ds, userAgent, next, best)
    ensures BestAmong(ds, userAgent, next + 1, next)
  {
    forall j | 0 <= j < next && Names(ds, userAgent, j)
      ensures NoBetter(ds, userAgent, j, next)
    {
      assert NoBetter(ds, userAgent, j, best);
    }
  }

  /** Some line names the user agent best as soon as any names it. */
  lemma {:induction false} SomeLineNamesBest(ds: seq<Directive>, userAgent: string, n: nat, i: nat) returns (best: nat)
    requires i < n <= |ds| && Names(ds, userAgent, i)
    ensures best < n && BestAmong(ds, userAgent, n, best)
  {
    var last := n - 1;
    if j :| 0 <= j < last && Names(ds, userAgent, j) {
      best := SomeLineNamesBest(ds, userAgent, last, j);
      if Names(ds, userAgent, last) && !NoBetter(ds, userAgent, last, best) {
        BetterIsBest(ds, userAgent, best, last);
        best := last;
      }
    } else {
      best := last;
    }
  }

  /** The parsed rules are a function of the lines and the user agent. */
  lemma ParsedIsUnique(ds: seq<Directive>, userAgent: string, rules: Rules, other: Rules)
    requires Parsed(ds, userAgent, rules) && Parsed(ds, userAgent, other)
    ensures rules == other
  {
    if i :| 0 <= i < |ds| && Names(ds, userAgent, i) {
      var best := SomeLineNamesBest(ds, userAgent, |ds|, i);
      assert NamesBest(ds, userAgent, best);
    }
    assert rules.(sitemaps := []) == other.(sitemaps := []);
  }
}
