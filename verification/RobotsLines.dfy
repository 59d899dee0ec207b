/**
 What the parser reads off the lines of a file, by way of writing one: a line laid out in any
 manner gives its field and value back, and a file of sections gives the section that names
 the crawler best.
 */
module RobotsLines {
  import opened Basics
  import opened Text
  import opened Robots

  // -------------------------------------------------------------------------
  // One line

  predicate IsBlank(s: string) {
    forall i :: 0 <= i < |s| ==> IsWhitespace(s[i])
  }

  /** Without white space around it, and without a comment in it. */
  predicate IsText(s: string) {
    '#' !in s && (s != "" ==> !IsWhitespace(s[0]) && !IsWhitespace(s[|s| - 1]))
  }

  /** The space around field and value, and a comment behind them. */
  datatype Layout = Layout(indent: string, beforeColon: string, afterColon: string, trailing: string, comment: string)

  predicate IsLayout(l: Layout) {
    && IsBlank(l.indent) && IsBlank(l.beforeColon) && IsBlank(l.afterColon) && IsBlank(l.trailing)
    && (l.comment != "" ==> l.comment[0] == '#')
  }

  function Rendered(field: string, value: string, l: Layout): string {
    l.indent + field + l.beforeColon + ":" + (l.afterColon + value + l.trailing) + l.comment
  }

  lemma {:induction false} TrimLeftOf(blank: string, s: string)
    requires IsBlank(blank) && (s != "" ==> !IsWhitespace(s[0]))
    ensures TrimLeft(blank + s) == s
  {
    if blank == "" {
      assert blank + s == s;
    } else {
      assert (blank + s)[1..] == blank[1..] + s;
      TrimLeftOf(blank[1..], s);
    }
  }

  lemma {:induction false} TrimRightOf(s: string, blank: string)
    requires IsBlank(blank) && (s != "" ==> !IsWhitespace(s[|s| - 1]))
    ensures TrimRight(s + blank) == s
  {
    if blank == "" {
      assert s + blank == s;
    } else {
      var n := |blank| - 1;
      assert (s + blank)[..|s| + n] == s + blank[..n];
      TrimRightOf(s, blank[..n]);
    }
  }

  /** Space around a text is trimmed. */
  lemma TrimAround(before: string, s: string, after: string)
    requires IsBlank(before) && IsBlank(after) && (s != "" ==> !IsWhitespace(s[0]) && !IsWhitespace(s[|s| - 1]))
    ensures Trim(before + s + after) == s
  {
    if s == "" {
      assert before + s + after == (before + after) + "";
      TrimLeftOf(before + after, "");
    } else {
      assert before + s + after == before + (s + after);
      TrimLeftOf(before, s + after);
      TrimRightOf(s, after);
    }
  }

  lemma {:induction false} TrimLeftStops(s: string, c: char, rest: string)
    requires !IsWhitespace(c)
    ensures TrimLeft(s + [c] + rest) == TrimLeft(s) + [c] + rest
  {
    if s != "" && IsWhitespace(s[0]) {
      assert (s + [c] + rest)[1..] == s[1..] + [c] + rest;
      TrimLeftStops(s[1..], c, rest);
    }
  }

  lemma {:induction false} TrimRightStops(s: string, c: char, rest: string)
    requires !IsWhitespace(c)
    ensures TrimRight(s + [c] + rest) == s + [c] + TrimRight(rest)
  {
    var all := s + [c] + rest;
    if rest != "" && IsWhitespace(rest[|rest| - 1]) {
      assert all[..|all| - 1] == s + [c] + rest[..|rest| - 1];
      TrimRightStops(s, c, rest[..|rest| - 1]);
    }
  }

  lemma {:induction false} TrimLeftTwice(s: string)
    ensures TrimLeft(TrimLeft(s)) == TrimLeft(s)
    ensures TrimLeft(s) != "" ==> !IsWhitespace(TrimLeft(s)[0])
    ensures forall c :: c in TrimLeft(s) ==> c in s
  {
    if s != "" && IsWhitespace(s[0]) {
      TrimLeftTwice(s[1..]);
    }
  }

  lemma {:induction false} IndexOfFirst(s: string, c: char, rest: string)
    requires c !in s && (rest != "" ==> rest[0] == c)
    ensures IndexOf(s + rest, c) == |s|
  {
    if s != "" {
      assert (s + rest)[1..] == s[1..] + rest;
      IndexOfFirst(s[1..], c, rest);
    } else {
      assert s + rest == rest;
    }
  }

  /** What is left of a line once its comment is cut off and the rest trimmed. */
  lemma TrimmedLine(before: string, after: string, comment: string)
    requires '#' !in before && '#' !in after && (comment != "" ==> comment[0] == '#')
    ensures var line := before + ":" + after + comment;
            Trim(line[..IndexOf(line, '#')]) == TrimLeft(before) + ":" + TrimRight(after)
  {
    var body := before + ":" + after;
    IndexOfFirst(body, '#', comment);
    assert (body + comment)[..|body|] == body;
    TrimLeftStops(before, ':', after);
    TrimRightStops(TrimLeft(before), ':', after);
  }

  /** A text is split at its first colon. */
  lemma FirstColon(before: string, after: string)
    requires ':' !in before
    ensures var text := before + ":" + after;
            IndexOf(text, ':') == |before| && text[..|before|] == before && text[|before| + 1..] == after
  {
    IndexOfFirst(before, ':', ":" + after);
    assert before + ":" + after == before + (":" + after);
  }

  /** The trimmed text of a line, split at its first colon. */
  lemma SplitAtColon(field: string, value: string, l: Layout)
    requires IsText(field) && ':' !in field && IsText(value) && IsLayout(l)
    ensures var line := Rendered(field, value, l);
            var text := Trim(line[..IndexOf(line, '#')]);
            var colon := IndexOf(text, ':');
            && text != "" && colon < |text|
            && Trim(text[..colon]) == field && Trim(text[colon + 1..]) == value
  {
    var before, after := l.indent + field + l.beforeColon, l.afterColon + value + l.trailing;
    BlankIsClean(l);
    TrimmedLine(before, after, l.comment);
    TrimLeftTwice(before);
    FirstColon(TrimLeft(before), TrimRight(after));
    TrimAround(l.indent, field, l.beforeColon);
    TrimAround(l.afterColon, value, l.trailing);
    TrimOfTrimmed(before, after);
  }

  lemma BlankIsClean(l: Layout)
    requires IsLayout(l)
    ensures '#' !in l.indent && '#' !in l.beforeColon && '#' !in l.afterColon && '#' !in l.trailing
    ensures ':' !in l.indent && ':' !in l.beforeColon
  {
  }

  /** Trimming one side first makes no difference. */
  lemma TrimOfTrimmed(before: string, after: string)
    ensures Trim(TrimLeft(before)) == Trim(before) && Trim(TrimRight(after)) == Trim(after)
  {
    TrimLeftTwice(before);
    TrimCommutes(after);
    TrimRightTwice(after);
  }

  lemma {:induction false} TrimRightTwice(s: string)
    ensures TrimRight(TrimRight(s)) == TrimRight(s)
  {
    if s != "" && IsWhitespace(s[|s| - 1]) {
      TrimRightTwice(s[..|s| - 1]);
    }
  }

  lemma {:induction false} TrimCommutes(s: string)
    ensures TrimLeft(TrimRight(s)) == TrimRight(TrimLeft(s))
    ensures TrimRight(TrimLeft(TrimRight(s))) == TrimRight(TrimLeft(s))
    decreases |s|
  {
    if s != "" && IsWhitespace(s[|s| - 1]) {
      var shorter := s[..|s| - 1];
      TrimCommutes(shorter);
      TrimRightTwice(TrimLeft(s));
      DropsLastBlank(shorter, s[|s| - 1]);
      assert s == shorter + [s[|s| - 1]];
    } else if s != "" {
      TrimLeftKeepsLast(s);
    }
  }

  lemma {:induction false} DropsLastBlank(s: string, c: char)
    requires IsWhitespace(c)
    ensures TrimRight(TrimLeft(s + [c])) == TrimRight(TrimLeft(s))
    decreases |s|
  {
    if s == "" {
      assert (s + [c])[1..] == "";
    } else if IsWhitespace(s[0]) {
      assert (s + [c])[1..] == s[1..] + [c];
      DropsLastBlank(s[1..], c);
    } else {
      assert (s + [c])[..|s|] == s;
    }
  }

  lemma {:induction false} TrimLeftKeepsLast(s: string)
    requires s != "" && !IsWhitespace(s[|s| - 1])
    ensures TrimRight(TrimLeft(s)) == TrimLeft(s)
    decreases |s|
  {
    if IsWhitespace(s[0]) {
      TrimLeftKeepsLast(s[1..]);
    }
  }

  /** What a field and its value say; the case of the field does not matter. */
  ghost predicate Means(field: string, value: string, d: Directive, parseDelay: string -> Option<nat>) {
    if SameLetters(field, "user-agent") then
      d.Agent? && SameLetters(d.token, value) && forall i :: 0 <= i < |d.token| ==> !IsUpper(d.token[i])
    else if SameLetters(field, "disallow") then d == Disallow(value)
    else if SameLetters(field, "allow") then d == Allow(value)
    else if SameLetters(field, "crawl-delay") then d == Delay(parseDelay(value))
    else if SameLetters(field, "sitemap") then d == if value == "" then Ignored else Sitemap(value)
    else d == Ignored
  }

  lemma LowerIsSame(field: string)
    ensures AsciiLower(field) == "user-agent" <==> SameLetters(field, "user-agent")
    ensures AsciiLower(field) == "disallow" <==> SameLetters(field, "disallow")
    ensures AsciiLower(field) == "allow" <==> SameLetters(field, "allow")
    ensures AsciiLower(field) == "crawl-delay" <==> SameLetters(field, "crawl-delay")
    ensures AsciiLower(field) == "sitemap" <==> SameLetters(field, "sitemap")
  {
    LowerIsSameAs(field, "user-agent");
    LowerIsSameAs(field, "disallow");
    LowerIsSameAs(field, "allow");
    LowerIsSameAs(field, "crawl-delay");
    LowerIsSameAs(field, "sitemap");
  }

  lemma LowerIsSameAs(field: string, name: string)
    requires forall i :: 0 <= i < |name| ==> !IsUpper(name[i])
    ensures AsciiLower(field) == name <==> SameLetters(field, name)
  {
    SameLettersIff(field, name);
    assert AsciiLower(name) == name;
  }

  /** However it is laid out and spelled, a line is read as its field and value say. */
  lemma LineIsRead(field: string, value: string, l: Layout, parseDelay: string -> Option<nat>)
    requires IsText(field) && ':' !in field && IsText(value) && IsLayout(l)
    ensures Means(field, value, Classify(Rendered(field, value, l), parseDelay), parseDelay)
  {
    SplitAtColon(field, value, l);
    LowerIsSame(field);
    SameLettersIff(value, value);
  }

  /** A field and its value say one thing only. */
  lemma MeaningIsUnique(field: string, value: string, one: Directive, other: Directive,
                        parseDelay: string -> Option<nat>)
    requires Means(field, value, one, parseDelay) && Means(field, value, other, parseDelay)
    ensures one == other
  {
    if SameLetters(field, "user-agent") {
      SameLettersIff(one.token, value);
      SameLettersIff(other.token, value);
      LowerIsSameAs(one.token, one.token);
      LowerIsSameAs(other.token, other.token);
    }
  }

  /** A line without a colon before its comment says nothing. */
  lemma NoColonIsIgnored(body: string, comment: string, parseDelay: string -> Option<nat>)
    requires IsComment(body, comment)
    ensures Classify(body + comment, parseDelay) == Ignored
  {
    IndexOfFirst(body, '#', comment);
    assert (body + comment)[..|body|] == body;
    TrimLeftTwice(body);
    TrimRightWithin(TrimLeft(body));
    NotFound(Trim(body), ':');
  }

  lemma {:induction false} TrimRightWithin(s: string)
    ensures forall c :: c in TrimRight(s) ==> c in s
  {
    if s != "" && IsWhitespace(s[|s| - 1]) {
      TrimRightWithin(s[..|s| - 1]);
    }
  }

  lemma {:induction false} NotFound(s: string, c: char)
    requires c !in s
    ensures IndexOf(s, c) == |s|
  {
    if s != "" {
      NotFound(s[1..], c);
    }
  }

  // -------------------------------------------------------------------------
  // A file

  /** Lines that name crawlers, and then lines with rules; there may be lines between them that say neither. */
  datatype Section = Section(heads: seq<Directive>, rules: seq<Directive>)

  /** Names come first, and then a rule; only the first section of a file may do without names. */
  predicate IsSection(s: Section, isFirst: bool) {
    && (forall i :: 0 <= i < |s.heads| ==> !IsRule(s.heads[i])) && (isFirst || (s.heads != [] && s.heads[0].Agent?))
    && s.rules != [] && IsRule(s.rules[0]) && (forall i :: 0 <= i < |s.rules| ==> !s.rules[i].Agent?)
  }

  /** The sections of a file, and names behind them that have no rules. */
  predicate IsFile(sections: seq<Section>, tail: seq<Directive>) {
    && (forall g :: 0 <= g < |sections| ==> IsSection(sections[g], g == 0))
    && (forall i :: 0 <= i < |tail| ==> !IsRule(tail[i]))
    && (sections == [] || tail == [] || tail[0].Agent?)
  }

  /** The lines of the sections, one after the other. */
  function LinesOf(sections: seq<Section>): seq<Directive> {
    if sections == [] then []
    else
      var last := sections[|sections| - 1];
      LinesOf(sections[..|sections| - 1]) + last.heads + last.rules
  }

  lemma LinesOfOneMore(sections: seq<Section>, s: Section)
    ensures LinesOf(sections + [s]) == LinesOf(sections) + s.heads + s.rules
  {
    assert (sections + [s])[..|sections|] == sections;
  }

  /** Every list of lines is one of sections and names behind them. */
  lemma {:induction false} EveryFileHasSections(ds: seq<Directive>)
    returns (sections: seq<Section>, tail: seq<Directive>)
    ensures IsFile(sections, tail) && ds == LinesOf(sections) + tail
    decreases |ds|
  {
    sections, tail := [], [];
    if ds != [] {
      var n := |ds| - 1;
      sections, tail := EveryFileHasSections(ds[..n]);
      sections, tail := WithLine(sections, tail, ds[n]);
      assert ds == ds[..n] + [ds[n]];
    }
  }

  /** One more line goes to the tail, makes a section of it, or goes to the last section. */
  lemma WithLine(sections: seq<Section>, tail: seq<Directive>, d: Directive)
    returns (more: seq<Section>, rest: seq<Directive>)
    requires IsFile(sections, tail)
    ensures IsFile(more, rest) && LinesOf(more) + rest == LinesOf(sections) + tail + [d]
  {
    if !IsRule(d) && (d.Agent? || tail != [] || sections == []) {
      more, rest := sections, tail + [d];
      assert LinesOf(sections) + (tail + [d]) == LinesOf(sections) + tail + [d];
    } else if tail != [] || sections == [] {
      rest := [];
      more := WithSection(sections, tail, d);
      NothingBehind(LinesOf(more));
    } else {
      rest := [];
      more := WithRule(sections, d);
      NothingBehind(LinesOf(more));
      NothingBehind(LinesOf(sections));
    }
  }

  lemma WithSection(sections: seq<Section>, tail: seq<Directive>, rule: Directive) returns (more: seq<Section>)
    requires IsFile(sections, tail) && IsRule(rule) && (tail != [] || sections == [])
    ensures IsFile(more, []) && LinesOf(more) == LinesOf(sections) + tail + [rule]
  {
    more := sections + [Section(tail, [rule])];
    LinesOfOneMore(sections, Section(tail, [rule]));
  }

  lemma WithRule(sections: seq<Section>, d: Directive) returns (more: seq<Section>)
    requires IsFile(sections, []) && sections != [] && !d.Agent?
    ensures IsFile(more, []) && LinesOf(more) == LinesOf(sections) + [d]
  {
    var k := |sections| - 1;
    more := sections[..k] + [Section(sections[k].heads, sections[k].rules + [d])];
    LinesOfLonger(sections, d);
  }

  lemma NothingBehind<T>(s: seq<T>)
    ensures s + [] == s
  {
  }

  lemma LinesOfLonger(sections: seq<Section>, d: Directive)
    requires sections != []
    ensures var k := |sections| - 1;
            LinesOf(sections[..k] + [Section(sections[k].heads, sections[k].rules + [d])]) == LinesOf(sections) + [d]
  {
    var k := |sections| - 1;
    LinesOfOneMore(sections[..k], Section(sections[k].heads, sections[k].rules + [d]));
    AppendToThird(LinesOf(sections[..k]), sections[k].heads, sections[k].rules, d);
  }

  lemma AppendToThird<T>(a: seq<T>, b: seq<T>, c: seq<T>, x: T)
    ensures a + b + (c + [x]) == a + b + c + [x]
  {
  }

  /** The names among some lines, in order. */
  function Tokens(heads: seq<Directive>): seq<string> {
    if heads == [] then []
    else
      var last := heads[|heads| - 1];
      Tokens(heads[..|heads| - 1]) + if last.Agent? then [last.token] else []
  }

  /** The patterns that are refused, in order. */
  function Refused(rules: seq<Directive>): seq<string> {
    if rules == [] then []
    else
      var last := rules[|rules| - 1];
      Refused(rules[..|rules| - 1]) + if last.Disallow? && last.pattern != "" then [last.pattern] else []
  }

  /** The patterns that are permitted, in order. */
  function Permitted(rules: seq<Directive>): seq<string> {
    if rules == [] then []
    else
      var last := rules[|rules| - 1];
      Permitted(rules[..|rules| - 1]) + if last.Allow? && last.pattern != "" then [last.pattern] else []
  }

  /** The last delay that could be read. */
  function LastDelay(rules: seq<Directive>): Option<nat> {
    if rules == [] then None
    else
      var last := rules[|rules| - 1];
      if last.Delay? && last.seconds.Some? then last.seconds else LastDelay(rules[..|rules| - 1])
  }

  /** The sitemaps named, in order. */
  function Sitemaps(ds: seq<Directive>): seq<string> {
    if ds == [] then []
    else
      var last := ds[|ds| - 1];
      Sitemaps(ds[..|ds| - 1]) + if last.Sitemap? then [last.url] else []
  }

  function Summary(rules: seq<Directive>): Rules {
    Rules(LastDelay(rules), Refused(rules), Permitted(rules), [])
  }

  lemma OneMoreRuleRead(rules: seq<Directive>, d: Directive)
    ensures Extended(Summary(rules), d) == Summary(rules + [d])
  {
    assert (rules + [d])[..|rules|] == rules;
  }

  lemma {:induction false} SitemapsAreRead(ds: seq<Directive>, n: nat)
    requires n <= |ds|
    ensures SitemapsOf(ds, n) == Sitemaps(ds[..n])
  {
    if n > 0 {
      SitemapsAreRead(ds, n - 1);
      assert ds[..n][..n - 1] == ds[..n - 1];
    }
  }

  function GroupOfSection(s: Section): Group {
    (Tokens(s.heads), Summary(s.rules))
  }

  function GroupsOf(sections: seq<Section>): seq<Group> {
    seq(|sections|, g requires 0 <= g < |sections| => GroupOfSection(sections[g]))
  }

  /** How far the parser is: the groups closed, and the one it builds. Folded until `UnfoldHere`. */
  ghost predicate IsAt(ds: seq<Directive>, n: nat, groups: seq<Group>, agents: seq<string>, rules: Rules, ruled: bool) {
    forall u: nat :: UnfoldHere(u) ==>
      && Built(ds, n, groups, agents, rules)
      && (AfterRule(ds, n) <==> ruled) && (HasRules(ds, n, |groups|) <==> ruled)
  }

  lemma HeadAfterRules(ds: seq<Directive>, n: nat, groups: seq<Group>, agents: seq<string>, rules: Rules)
    requires n < |ds| && ds[n].Agent? && IsAt(ds, n, groups, agents, rules, true)
    ensures IsAt(ds, n + 1, groups + [(agents, rules)], [ds[n].token], NO_RULES, false)
  {
    assert UnfoldHere(0);
    OneMoreLine(ds, n);
    LineStartsGroup(ds, n, groups, agents, rules);
  }

  lemma HeadAfterHead(ds: seq<Directive>, n: nat, groups: seq<Group>, agents: seq<string>, rules: Rules)
    requires n < |ds| && ds[n].Agent? && IsAt(ds, n, groups, agents, rules, false)
    ensures IsAt(ds, n + 1, groups, agents + [ds[n].token], rules, false)
  {
    assert UnfoldHere(0);
    OneMoreLine(ds, n);
    LineStaysInGroup(ds, n, groups, agents, rules);
  }

  lemma RuleLine(ds: seq<Directive>, n: nat, groups: seq<Group>, agents: seq<string>, rules: Rules, ruled: bool)
    requires n < |ds| && IsRule(ds[n]) && IsAt(ds, n, groups, agents, rules, ruled)
    ensures IsAt(ds, n + 1, groups, agents, Extended(rules, ds[n]), true)
  {
    assert UnfoldHere(0);
    OneMoreLine(ds, n);
    LineStaysInGroup(ds, n, groups, agents, rules);
  }

  /** A line that says neither changes nothing, wherever it is. */
  lemma OtherLine(ds: seq<Directive>, n: nat, groups: seq<Group>, agents: seq<string>, rules: Rules, ruled: bool)
    requires n < |ds| && !IsRule(ds[n]) && !ds[n].Agent? && IsAt(ds, n, groups, agents, rules, ruled)
    ensures IsAt(ds, n + 1, groups, agents, rules, ruled)
  {
    assert UnfoldHere(0);
    OneMoreLine(ds, n);
    LineStaysInGroup(ds, n, groups, agents, rules);
  }

  lemma AllButLast<T>(s: seq<T>, n: nat, m: nat, part: seq<T>)
    requires part != [] && m == n + |part| <= |s| && s[n..m] == part
    ensures s[n..m - 1] == part[..|part| - 1] && s[m - 1] == part[|part| - 1]
  {
    assert s[n..m][..|part| - 1] == s[n..m - 1] && s[n..m][|part| - 1] == s[m - 1];
  }

  /** More names for the group being built, up to line `m`. */
  lemma {:induction false} MoreHeads(ds: seq<Directive>, n: nat, m: nat, groups: seq<Group>, first: seq<string>,
                                     more: seq<Directive>)
    requires m == n + |more| <= |ds| && ds[n..m] == more && forall i :: 0 <= i < |more| ==> !IsRule(more[i])
    requires IsAt(ds, n, groups, first, NO_RULES, false)
    ensures IsAt(ds, m, groups, first + Tokens(more), NO_RULES, false)
    decreases |more|
  {
    if more == [] {
      assert first + Tokens(more) == first;
    } else {
      var before := more[..|more| - 1];
      AllButLast(ds, n, m, more);
      MoreHeads(ds, n, m - 1, groups, first, before);
      OneMoreHead(ds, m - 1, groups, first, before, more[|more| - 1]);
      assert before + [more[|more| - 1]] == more;
    }
  }

  lemma OneMoreHead(ds: seq<Directive>, n: nat, groups: seq<Group>, first: seq<string>, before: seq<Directive>,
                    head: Directive)
    requires n < |ds| && ds[n] == head && !IsRule(head)
    requires IsAt(ds, n, groups, first + Tokens(before), NO_RULES, false)
    ensures IsAt(ds, n + 1, groups, first + Tokens(before + [head]), NO_RULES, false)
  {
    assert (before + [head])[..|before|] == before;
    if head.Agent? {
      HeadAfterHead(ds, n, groups, first + Tokens(before), NO_RULES);
      assert first + Tokens(before) + [head.token] == first + (Tokens(before) + [head.token]);
    } else {
      OtherLine(ds, n, groups, first + Tokens(before), NO_RULES, false);
      assert Tokens(before) + [] == Tokens(before);
    }
  }

  /** The rules of a section, up to line `m`. */
  lemma {:induction false} MoreRules(ds: seq<Directive>, n: nat, m: nat, groups: seq<Group>, agents: seq<string>,
                                     rules: seq<Directive>)
    requires m == n + |rules| <= |ds| && ds[n..m] == rules && forall i :: 0 <= i < |rules| ==> !rules[i].Agent?
    requires rules != [] ==> IsRule(rules[0])
    requires IsAt(ds, n, groups, agents, NO_RULES, false)
    ensures IsAt(ds, m, groups, agents, Summary(rules), rules != [])
    decreases |rules|
  {
    if rules != [] {
      var before := rules[..|rules| - 1];
      AllButLast(ds, n, m, rules);
      MoreRules(ds, n, m - 1, groups, agents, before);
      OneMoreLineOfRules(ds, m - 1, groups, agents, before);
      assert before + [ds[m - 1]] == rules;
    }
  }

  lemma OneMoreLineOfRules(ds: seq<Directive>, n: nat, groups: seq<Group>, agents: seq<string>, before: seq<Directive>)
    requires n < |ds| && !ds[n].Agent? && (before == [] ==> IsRule(ds[n]))
    requires IsAt(ds, n, groups, agents, Summary(before), before != [])
    ensures IsAt(ds, n + 1, groups, agents, Summary(before + [ds[n]]), true)
  {
    OneMoreRuleRead(before, ds[n]);
    if IsRule(ds[n]) {
      RuleLine(ds, n, groups, agents, Summary(before), before != []);
    } else {
      OtherLine(ds, n, groups, agents, Summary(before), true);
    }
  }

  lemma {:induction false} FirstToken(heads: seq<Directive>)
    requires heads != [] && heads[0].Agent?
    ensures Tokens(heads) == [heads[0].token] + Tokens(heads[1..])
    decreases |heads|
  {
    if |heads| > 1 {
      FirstToken(heads[..|heads| - 1]);
      assert heads[..|heads| - 1][1..] == heads[1..][..|heads| - 2];
    } else {
      assert Tokens(heads[..0]) == [];
    }
  }

  lemma OneMoreGroup(sections: seq<Section>)
    requires sections != []
    ensures GroupsOf(sections) == GroupsOf(sections[..|sections| - 1]) + [GroupOfSection(sections[|sections| - 1])]
  {
  }

  /** The first `n` lines are these sections: the last of them is the group being built. Folded until `UnfoldHere`. */
  ghost predicate IsRead(ds: seq<Directive>, n: nat, sections: seq<Section>) {
    forall u: nat :: UnfoldHere(u) ==>
      if sections == [] then IsAt(ds, n, [], [], NO_RULES, false)
      else
        var k := |sections| - 1;
        IsAt(ds, n, GroupsOf(sections[..k]), Tokens(sections[k].heads), Summary(sections[k].rules), true)
  }

  /** The first name of a section closes the group before it. */
  lemma FirstHead(ds: seq<Directive>, n: nat, sections: seq<Section>)
    requires n < |ds| && ds[n].Agent? && sections != [] && IsRead(ds, n, sections)
    ensures IsAt(ds, n + 1, GroupsOf(sections), [ds[n].token], NO_RULES, false)
  {
    assert UnfoldHere(0);
    var k := |sections| - 1;
    HeadAfterRules(ds, n, GroupsOf(sections[..k]), Tokens(sections[k].heads), Summary(sections[k].rules));
    OneMoreGroup(sections);
  }

  lemma HeadAndRest(ds: seq<Directive>, n: nat, m: nat, heads: seq<Directive>)
    requires heads != [] && m == n + |heads| <= |ds| && ds[n..m] == heads
    ensures ds[n] == heads[0] && ds[n + 1..m] == heads[1..]
  {
    assert ds[n..m][0] == heads[0] && ds[n..m][1..] == heads[1..];
  }

  lemma HeadsAtBeginning(ds: seq<Directive>, n: nat, m: nat, heads: seq<Directive>)
    requires m == n + |heads| <= |ds| && ds[n..m] == heads && forall i :: 0 <= i < |heads| ==> !IsRule(heads[i])
    requires IsRead(ds, n, [])
    ensures IsAt(ds, m, [], Tokens(heads), NO_RULES, false)
  {
    assert UnfoldHere(0);
    MoreHeads(ds, n, m, [], [], heads);
    assert [] + Tokens(heads) == Tokens(heads);
  }

  /** Names up to line `m`, read behind the sections before them or at the beginning of the file. */
  lemma HeadsBehind(ds: seq<Directive>, n: nat, m: nat, sections: seq<Section>, heads: seq<Directive>)
    requires m == n + |heads| <= |ds| && ds[n..m] == heads && forall i :: 0 <= i < |heads| ==> !IsRule(heads[i])
    requires sections == [] || (heads != [] && heads[0].Agent?)
    requires IsRead(ds, n, sections)
    ensures IsAt(ds, m, GroupsOf(sections), Tokens(heads), NO_RULES, false)
  {
    if sections == [] {
      HeadsAtBeginning(ds, n, m, heads);
      assert GroupsOf(sections) == [];
    } else {
      HeadAndRest(ds, n, m, heads);
      FirstHead(ds, n, sections);
      MoreHeads(ds, n + 1, m, GroupsOf(sections), [heads[0].token], heads[1..]);
      FirstToken(heads);
    }
  }

  /** Where three parts of the first lines are. */
  lemma ThreeParts(ds: seq<Directive>, all: seq<Directive>, a: seq<Directive>, b: seq<Directive>, c: seq<Directive>,
                   n: nat, m: nat, e: nat)
    requires all == a + b + c && all <= ds && n == |a| && m == n + |b| && e == m + |c|
    ensures a <= ds && e == |all| <= |ds| && ds[n..m] == b && ds[m..e] == c
  {
    assert all[n..m] == b && all[m..e] == c && all[..n] == a;
    assert ds[..e] == all;
  }

  /** A section that begins at line `n`, with its rules from line `m` up to line `e`. */
  lemma OneMoreSection(ds: seq<Directive>, n: nat, m: nat, e: nat, before: seq<Section>, last: Section)
    requires IsSection(last, before == []) && IsRead(ds, n, before)
    requires m == n + |last.heads| && e == m + |last.rules| <= |ds|
    requires ds[n..m] == last.heads && ds[m..e] == last.rules
    ensures IsRead(ds, e, before + [last])
  {
    HeadsBehind(ds, n, m, before, last.heads);
    SectionRules(ds, m, e, before, last);
  }

  lemma SectionRules(ds: seq<Directive>, n: nat, e: nat, before: seq<Section>, last: Section)
    requires IsSection(last, before == []) && e == n + |last.rules| <= |ds| && ds[n..e] == last.rules
    requires IsAt(ds, n, GroupsOf(before), Tokens(last.heads), NO_RULES, false)
    ensures IsRead(ds, e, before + [last])
  {
    MoreRules(ds, n, e, GroupsOf(before), Tokens(last.heads), last.rules);
    assert (before + [last])[..|before|] == before;
  }

  lemma {:induction false} SectionsAreRead(ds: seq<Directive>, sections: seq<Section>)
    requires IsFile(sections, []) && LinesOf(sections) <= ds
    ensures IsRead(ds, |LinesOf(sections)|, sections)
    decreases |sections|
  {
    if sections == [] {
      assert Built(ds, 0, [], [], NO_RULES);
    } else {
      var before, last := sections[..|sections| - 1], sections[|sections| - 1];
      var n := |LinesOf(before)|;
      var m := n + |last.heads|;
      var e := m + |last.rules|;
      ThreeParts(ds, LinesOf(sections), LinesOf(before), last.heads, last.rules, n, m, e);
      SectionsAreRead(ds, before);
      OneMoreSection(ds, n, m, e, before, last);
      assert sections == before + [last];
    }
  }

  /** The groups of a file are those of its sections. */
  lemma FileIsComplete(ds: seq<Directive>, sections: seq<Section>, tail: seq<Directive>)
    requires IsFile(sections, tail) && ds == LinesOf(sections) + tail
    ensures Complete(ds, GroupsOf(sections))
  {
    SectionsAreRead(ds, sections);
    if sections == [] || tail != [] {
      TailIsComplete(ds, |LinesOf(sections)|, sections, tail);
    } else {
      assert ds == LinesOf(sections);
      LastIsComplete(ds, sections);
    }
  }

  lemma TailIsComplete(ds: seq<Directive>, n: nat, sections: seq<Section>, tail: seq<Directive>)
    requires IsFile(sections, tail) && (sections == [] || tail != []) && IsRead(ds, n, sections)
    requires |ds| == n + |tail| && ds[n..] == tail
    ensures Complete(ds, GroupsOf(sections))
  {
    assert ds[n..|ds|] == tail;
    HeadsBehind(ds, n, |ds|, sections, tail);
    assert UnfoldHere(0);
    GroupsAreComplete(ds, GroupsOf(sections), Tokens(tail), NO_RULES, false);
  }

  lemma LastIsComplete(ds: seq<Directive>, sections: seq<Section>)
    requires sections != [] && IsRead(ds, |ds|, sections)
    ensures Complete(ds, GroupsOf(sections))
  {
    assert UnfoldHere(0);
    var k := |sections| - 1;
    OneMoreGroup(sections);
    forall i | 0 <= i < |ds| && ds[i].Agent?
      ensures GroupOf(ds, i) <= k
    {
      LineIsGrouped(ds, k, Tokens(sections[k].heads), i);
    }
    LastGroupCompletes(ds, GroupsOf(sections[..k]), Tokens(sections[k].heads), Summary(sections[k].rules));
  }

  /** Name `a` of section `g` names the user agent, with the longest token, in the first section that has it. */
  ghost predicate IsChosen(sections: seq<Section>, userAgent: string, g: nat, a: nat) {
    && IsNamedBy(sections, userAgent, g, a)
    && forall h: nat, b: nat :: IsNamedBy(sections, userAgent, h, b) ==> IsNoBetter(sections, userAgent, h, b, g, a)
  }

  predicate IsNoBetter(sections: seq<Section>, userAgent: string, h: nat, b: nat, g: nat, a: nat)
    requires IsNamedBy(sections, userAgent, g, a) && IsNamedBy(sections, userAgent, h, b)
  {
    var length := TokenLength(Tokens(sections[g].heads)[a], userAgent).value;
    var other := TokenLength(Tokens(sections[h].heads)[b], userAgent).value;
    other < length || (other == length && g <= h)
  }

  predicate IsNamedBy(sections: seq<Section>, userAgent: string, g: nat, a: nat) {
    && g < |sections| && a < |Tokens(sections[g].heads)|
    && TokenLength(Tokens(sections[g].heads)[a], userAgent).Some?
  }

  lemma NamedByGroup(sections: seq<Section>, userAgent: string, g: nat, a: nat)
    ensures IsNamedBy(sections, userAgent, g, a) <==> GroupNames(GroupsOf(sections), userAgent, g, a)
  {
  }

  lemma ChosenIsFirst(sections: seq<Section>, userAgent: string, g: nat, a: nat)
    requires IsChosen(sections, userAgent, g, a)
    ensures FirstLongest(GroupsOf(sections), userAgent, |sections|, 0, g, a)
  {
    forall h: nat, b: nat
      ensures IsNamedBy(sections, userAgent, h, b) <==> GroupNames(GroupsOf(sections), userAgent, h, b)
    {
      NamedByGroup(sections, userAgent, h, b);
    }
  }

  /** If any name does, some name is the one chosen. */
  lemma SomeoneIsChosen(sections: seq<Section>, tail: seq<Directive>, userAgent: string, h: nat, b: nat)
    returns (g: nat, a: nat)
    requires IsFile(sections, tail) && IsNamedBy(sections, userAgent, h, b)
    ensures IsChosen(sections, userAgent, g, a)
  {
    var ds, groups := LinesOf(sections) + tail, GroupsOf(sections);
    FileIsComplete(ds, sections, tail);
    var line := LineOfName(ds, sections, userAgent, h, b);
    var best := SomeLineNamesBest(ds, userAgent, |ds|, line);
    g := GroupOf(ds, best);
    a := LineToAgent(ds, userAgent, groups, best);
    forall k: nat, c: nat | IsNamedBy(sections, userAgent, k, c)
      ensures IsNoBetter(sections, userAgent, k, c, g, a)
    {
      var other := LineOfName(ds, sections, userAgent, k, c);
      assert NoBetter(ds, userAgent, other, best);
    }
  }

  lemma LineOfName(ds: seq<Directive>, sections: seq<Section>, userAgent: string, g: nat, a: nat) returns (i: nat)
    requires Complete(ds, GroupsOf(sections)) && IsNamedBy(sections, userAgent, g, a)
    ensures i < |ds| && Names(ds, userAgent, i) && GroupOf(ds, i) == g && ds[i].token == Tokens(sections[g].heads)[a]
  {
    i := AgentToLine(ds, userAgent, GroupsOf(sections), g, a);
  }

  lemma FirstIsParsed(ds: seq<Directive>, userAgent: string, groups: seq<Group>, g: nat, a: nat)
    requires Complete(ds, groups) && FirstLongest(groups, userAgent, |groups|, 0, g, a)
    ensures Parsed(ds, userAgent, groups[g].1.(sitemaps := Sitemaps(ds)))
  {
    SelectionIsParsed(ds, userAgent, groups, Some(groups[g].1), g, a);
    SitemapsAreRead(ds, |ds|);
    assert ds[..|ds|] == ds;
  }

  lemma ChosenIsParsed(ds: seq<Directive>, sections: seq<Section>, tail: seq<Directive>, userAgent: string, g: nat,
                       a: nat)
    requires IsFile(sections, tail) && ds == LinesOf(sections) + tail && IsChosen(sections, userAgent, g, a)
    ensures Parsed(ds, userAgent, Summary(sections[g].rules).(sitemaps := Sitemaps(ds)))
  {
    FileIsComplete(ds, sections, tail);
    ChosenIsFirst(sections, userAgent, g, a);
    FirstIsParsed(ds, userAgent, GroupsOf(sections), g, a);
  }

  /** A file gives the rules of the section chosen, as they were written, and the sitemaps of all lines. */
  lemma FileIsRead(ds: seq<Directive>, sections: seq<Section>, tail: seq<Directive>, userAgent: string, g: nat, a: nat,
                   rules: Rules)
    requires IsFile(sections, tail) && ds == LinesOf(sections) + tail && IsChosen(sections, userAgent, g, a)
    ensures Parsed(ds, userAgent, rules) <==> rules == Summary(sections[g].rules).(sitemaps := Sitemaps(ds))
  {
    ChosenIsParsed(ds, sections, tail, userAgent, g, a);
    if Parsed(ds, userAgent, rules) {
      ParsedIsUnique(ds, userAgent, rules, Summary(sections[g].rules).(sitemaps := Sitemaps(ds)));
    }
  }

  lemma NobodyIsParsed(ds: seq<Directive>, sections: seq<Section>, tail: seq<Directive>, userAgent: string)
    requires IsFile(sections, tail) && ds == LinesOf(sections) + tail
    requires forall h: nat, b: nat :: !IsNamedBy(sections, userAgent, h, b)
    ensures Parsed(ds, userAgent, NO_RULES.(sitemaps := Sitemaps(ds)))
  {
    FileIsComplete(ds, sections, tail);
    forall h: nat, b: nat
      ensures !GroupNames(GroupsOf(sections), userAgent, h, b)
    {
      NamedByGroup(sections, userAgent, h, b);
    }
    SelectionIsParsed(ds, userAgent, GroupsOf(sections), None, 0, 0);
    SitemapsAreRead(ds, |ds|);
    assert ds[..|ds|] == ds;
  }

  /** And only the sitemaps when no section names the crawler. */
  lemma NobodyIsRead(ds: seq<Directive>, sections: seq<Section>, tail: seq<Directive>, userAgent: string, rules: Rules)
    requires IsFile(sections, tail) && ds == LinesOf(sections) + tail
    requires forall h: nat, b: nat :: !IsNamedBy(sections, userAgent, h, b)
    ensures Parsed(ds, userAgent, rules) <==> rules == NO_RULES.(sitemaps := Sitemaps(ds))
  {
    NobodyIsParsed(ds, sections, tail, userAgent);
    if Parsed(ds, userAgent, rules) {
      ParsedIsUnique(ds, userAgent, rules, NO_RULES.(sitemaps := Sitemaps(ds)));
    }
  }

  /** One path permitted to every crawler, and the rest refused. */
  lemma OnlyPublic(userAgent: string, rules: Rules)
    ensures Parsed([Agent("*"), Disallow("/"), Allow("/public")], userAgent, rules)
            <==> rules == Rules(None, ["/"], ["/public"], [])
  {
    TwoRules(Disallow("/"), Allow("/public"));
    assert [] + ["/"] == ["/"] && [] + ["/public"] == ["/public"];
    OneSectionForAll([Disallow("/"), Allow("/public")], userAgent, rules);
    assert [Agent("*")] + [Disallow("/"), Allow("/public")] == [Agent("*"), Disallow("/"), Allow("/public")];
  }

  lemma OneSectionForAll(written: seq<Directive>, userAgent: string, rules: Rules)
    requires written != [] && forall i :: 0 <= i < |written| ==> IsRule(written[i])
    ensures Parsed([Agent("*")] + written, userAgent, rules) <==> rules == Summary(written)
  {
    var section := Section([Agent("*")], written);
    var ds := [Agent("*")] + written;
    OneSection(section);
    NothingBehind(ds);
    OneName("*", written, userAgent);
    NoSitemaps(ds);
    FileIsRead(ds, [section], [], userAgent, 0, 0, rules);
  }

  lemma OneSection(section: Section)
    ensures LinesOf([section]) == section.heads + section.rules
  {
    LinesOfOneMore([], section);
    assert [] + [section] == [section] && [] + section.heads == section.heads;
  }

  lemma OneName(token: string, written: seq<Directive>, userAgent: string)
    requires TokenLength(token, userAgent).Some?
    ensures IsChosen([Section([Agent(token)], written)], userAgent, 0, 0)
  {
    FirstToken([Agent(token)]);
    assert Tokens([Agent(token)]) == [token];
    assert IsNamedBy([Section([Agent(token)], written)], userAgent, 0, 0);
  }

  lemma {:induction false} NoSitemaps(ds: seq<Directive>)
    requires forall i :: 0 <= i < |ds| ==> !ds[i].Sitemap?
    ensures Sitemaps(ds) == []
  {
    if ds != [] {
      NoSitemaps(ds[..|ds| - 1]);
    }
  }

  lemma TwoRules(one: Directive, other: Directive)
    ensures Summary([one, other]) == Extended(Extended(NO_RULES, one), other)
  {
    OneMoreRuleRead([], one);
    assert [] + [one] == [one] && Summary([]) == NO_RULES;
    OneMoreRuleRead([one], other);
    assert [one] + [other] == [one, other];
  }

  /** The line is written, in some layout and spelling, to say `d`; it may be blank, or a comment. */
  ghost predicate IsWritten(line: string, d: Directive, parseDelay: string -> Option<nat>) {
    || (exists field, value, l ::
      && IsText(field) && ':' !in field && IsText(value) && IsLayout(l)
      && line == Rendered(field, value, l) && Means(field, value, d, parseDelay))
    || (d == Ignored && exists body, comment :: IsComment(body, comment) && line == body + comment)
  }

  /** Neither says anything. */
  predicate IsComment(body: string, comment: string) {
    '#' !in body && ':' !in body && (comment != "" ==> comment[0] == '#')
  }

  lemma WrittenIsRead(line: string, d: Directive, parseDelay: string -> Option<nat>)
    requires IsWritten(line, d, parseDelay)
    ensures Classify(line, parseDelay) == d
  {
    if field, value, l :| IsText(field) && ':' !in field && IsText(value) && IsLayout(l)
                           && line == Rendered(field, value, l) && Means(field, value, d, parseDelay) {
      LineIsRead(field, value, l, parseDelay);
      MeaningIsUnique(field, value, Classify(line, parseDelay), d, parseDelay);
    } else {
      var body, comment :| IsComment(body, comment) && line == body + comment;
      NoColonIsIgnored(body, comment, parseDelay);
    }
  }

  /** Parsing a file as written gives the rules of the section that names the crawler best, and all sitemaps. */
  method ParseWritten(lines: seq<string>, ghost ds: seq<Directive>, ghost sections: seq<Section>,
                      ghost tail: seq<Directive>, userAgent: string, ghost g: nat, ghost a: nat,
                      parseDelay: string -> Option<nat>) returns (rules: Rules)
    requires IsFile(sections, tail) && ds == LinesOf(sections) + tail && IsChosen(sections, userAgent, g, a)
    requires |lines| == |ds| && forall i :: 0 <= i < |lines| ==> IsWritten(lines[i], ds[i], parseDelay)
    ensures rules.disallow == Refused(sections[g].rules) && rules.allow == Permitted(sections[g].rules)
    ensures rules.crawlDelay == LastDelay(sections[g].rules) && rules.sitemaps == Sitemaps(ds)
  {
    rules := Parse(lines, userAgent, parseDelay);
    ghost var read := seq(|lines|, i requires 0 <= i < |lines| => Classify(lines[i], parseDelay));
    forall i | 0 <= i < |lines|
      ensures read[i] == ds[i]
    {
      WrittenIsRead(lines[i], ds[i], parseDelay);
    }
    assert read == ds;
    FileIsRead(ds, sections, tail, userAgent, g, a, rules);
  }

  // -------------------------------------------------------------------------
  // Tokens

  lemma {:induction false} ContainsMeaning(s: string, part: string)
    ensures Contains(s, part) <==> exists i :: 0 <= i <= |s| && part <= s[i..]
  {
    if part <= s {
      assert s[0..] == s;
    } else if s != "" {
      ContainsMeaning(s[1..], part);
      if i :| 0 <= i <= |s[1..]| && part <= s[1..][i..] {
        assert s[i + 1..] == s[1..][i..];
      }
      if i :| 0 <= i <= |s| && part <= s[i..] {
        assert i > 0 && s[1..][i - 1..] == s[i..];
      }
    }
  }

  /** A token names every user agent that contains it in any case, and the more specifically the longer it is. */
  lemma TokenNames(token: string, before: string, name: string, after: string)
    requires token != "*" && SameLetters(name, token) && forall i :: 0 <= i < |token| ==> !IsUpper(token[i])
    ensures TokenLength(token, before + name + after) == Some(ByteLength(token)) && ByteLength(token) >= |token|
  {
    var userAgent := AsciiLower(before + name + after);
    SameLettersIff(name, token);
    LowerIsSameAs(name, token);
    assert userAgent[|before|..][..|name|] == AsciiLower(name);
    ContainsMeaning(userAgent, token);
    BytesCoverCharacters(token);
  }

  lemma {:induction false} BytesCoverCharacters(s: string)
    ensures ByteLength(s) >= |s|
  {
    if s != "" {
      BytesCoverCharacters(s[1..]);
    }
  }

  /** No other token names it. */
  lemma TokenIsContained(token: string, userAgent: string) returns (i: nat)
    requires token != "*" && TokenLength(token, userAgent).Some?
    ensures i + |token| <= |userAgent| && SameLetters(userAgent[i..i + |token|], token)
  {
    i := PlaceWithin(AsciiLower(userAgent), token);
    LowerOfSlice(userAgent, i, |token|);
  }

  lemma PlaceWithin(s: string, part: string) returns (i: nat)
    requires Contains(s, part)
    ensures i + |part| <= |s| && s[i..i + |part|] == part
  {
    ContainsMeaning(s, part);
    i :| 0 <= i <= |s| && part <= s[i..];
    PrefixIsSlice(s, i, part);
  }

  lemma PrefixIsSlice(s: string, i: nat, part: string)
    requires i <= |s| && part <= s[i..]
    ensures i + |part| <= |s| && s[i..i + |part|] == part
  {
  }

  lemma LowerOfSlice(s: string, i: nat, n: nat)
    requires i + n <= |s|
    ensures AsciiLower(s[i..i + n]) == AsciiLower(s)[i..i + n]
    ensures SameLetters(s[i..i + n], AsciiLower(s)[i..i + n])
  {
    SameLettersIff(s[i..i + n], s[i..i + n]);
  }
}
