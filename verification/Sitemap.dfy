/**
 The sitemap scanner: a forward scan for `<loc>` elements that keeps what it has when
 the body ends early. Cleaning a value into a URL is a parameter.
 */
module Sitemap {
  import opened Basics
  import opened Text

  /** `text` begins with `needle`, ignoring ASCII case. */
  predicate Begins(text: string, needle: string) {
    |needle| <= |text| && AsciiLower(text[..|needle|]) == AsciiLower(needle)
  }

  /** The first position of `needle` in `text`, ignoring ASCII case. */
  function Find(text: string, needle: string): (found: Option<nat>)
    ensures found.Some? ==> found.value + |needle| <= |text|
  {
    if |text| < |needle| then None
    else if Begins(text, needle) then Some(0)
    else if text == "" then None
    else Further(Find(text[1..], needle), 1)
  }

  function Further(found: Option<nat>, step: nat): Option<nat> {
    if found.Some? then Some(found.value + step) else None
  }

  /** The search finds an occurrence exactly when there is one, and then the first. */
  lemma {:induction false} FindsFirst(text: string, needle: string, i: nat)
    requires i <= |text| && Begins(text[i..], needle)
    ensures Find(text, needle).Some? && Find(text, needle).value <= i
    ensures Begins(text[Find(text, needle).value..], needle)
  {
    assert text[0..] == text;
    if !Begins(text, needle) {
      assert text[1..][i - 1..] == text[i..];
      FindsFirst(text[1..], needle, i - 1);
      assert text[1..][Find(text[1..], needle).value..] == text[Find(text, needle).value..];
    }
  }

  lemma {:induction false} FoundIsOccurrence(text: string, needle: string)
    requires Find(text, needle).Some?
    ensures Begins(text[Find(text, needle).value..], needle)
  {
    assert text[0..] == text;
    if !Begins(text, needle) {
      FoundIsOccurrence(text[1..], needle);
      assert text[1..][Find(text[1..], needle).value..] == text[Find(text, needle).value..];
    }
  }

  /** The search does not see the case of ASCII letters. */
  lemma {:induction false} FindIgnoresCase(text: string, needle: string)
    ensures Find(text, needle) == Find(AsciiLower(text), AsciiLower(needle))
  {
    if |text| >= |needle| {
      SameLettersIff(text[..|needle|], text[..|needle|]);
      BeginsIgnoresCase(text, needle);
      if text != "" && !Begins(text, needle) {
        assert AsciiLower(text)[1..] == AsciiLower(text[1..]);
        FindIgnoresCase(text[1..], needle);
      }
    }
  }

  /** So a text begins with a needle exactly when the letters are the same. */
  lemma BeginsIgnoresCase(text: string, needle: string)
    ensures Begins(text, needle) <==> |needle| <= |text| && SameLetters(text[..|needle|], needle)
    ensures Begins(text, needle) <==> Begins(AsciiLower(text), AsciiLower(needle))
  {
    if |needle| <= |text| {
      SameLettersIff(text[..|needle|], needle);
      LowerTwice(text[..|needle|]);
      LowerTwice(needle);
      assert AsciiLower(text)[..|needle|] == AsciiLower(text[..|needle|]);
    }
  }

  lemma LowerTwice(s: string)
    ensures AsciiLower(AsciiLower(s)) == AsciiLower(s)
  {
  }

  /** An empty needle is never found. */
  method FindIgnoreCase(haystack: string, needle: string) returns (found: Option<nat>)
    ensures found == if needle == "" then None else Find(haystack, needle)
  {
    if needle == "" || |haystack| < |needle| {
      return None;
    }
    for start := 0 to |haystack| - |needle| + 1
      invariant Find(haystack, needle) == Further(Find(haystack[start..], needle), start)
    {
      if Begins(haystack[start..], needle) {
        return Some(start);
      }
      assert haystack[start..][1..] == haystack[start + 1..];
    }
    found := None;
  }

  // -------------------------------------------------------------------------
  // What the scan finds

  const OPEN := "<loc"
  const CLOSE := "</loc"

  /** What follows the opening tag of the next element. */
  function AfterTag(text: string): (content: Option<string>)
    ensures content.Some? ==> |content.value| < |text|
  {
    var opening := Find(text, OPEN);
    if opening.None? then None
    else
      var afterOpen := text[opening.value + |OPEN|..];
      var tagEnd := IndexOf(afterOpen, '>');
      if tagEnd == |afterOpen| then None else Some(afterOpen[tagEnd + 1..])
  }

  /** The value that the next closing tag ends, and the text from that tag on. */
  function ValueOf(content: string): (next: Option<(string, string)>)
    ensures next.Some? ==> |next.value.1| <= |content|
  {
    var closing := Find(content, CLOSE);
    if closing.None? then None else Some((content[..closing.value], content[closing.value..]))
  }

  /** The value of the next complete element, and the text from its closing tag on. */
  function NextValue(text: string): (next: Option<(string, string)>)
    ensures next.Some? ==> |next.value.1| < |text|
  {
    var content := AfterTag(text);
    if content.None? then None else ValueOf(content.value)
  }

  /** The values of all complete elements, in order, cleaned; a value that is no URL is skipped. */
  function Urls(text: string, normalize: string -> Option<string>): seq<string>
    decreases |text|
  {
    var next := NextValue(text);
    if next.None? then []
    else
      var url := normalize(next.value.0);
      (if url.Some? then [url.value] else []) + Urls(next.value.1, normalize)
  }

  /** One round of the scan. */
  lemma UrlsOfNext(text: string, raw: string, rest: string, normalize: string -> Option<string>)
    requires NextValue(text) == Some((raw, rest))
    ensures Urls(text, normalize)
            == (if normalize(raw).Some? then [normalize(raw).value] else []) + Urls(rest, normalize)
  {
  }

  lemma AppendNext(urls: seq<string>, url: Option<string>, more: seq<string>, all: seq<string>)
    requires all == (if url.Some? then [url.value] else []) + more
    ensures urls + all == (if url.Some? then urls + [url.value] else urls) + more
  {
  }

  /** Taking the next value off what is still to be found. */
  lemma TakeNext(urls: seq<string>, text: string, raw: string, rest: string, normalize: string -> Option<string>)
    requires NextValue(text) == Some((raw, rest))
    ensures urls + Urls(text, normalize)
            == (if normalize(raw).Some? then urls + [normalize(raw).value] else urls) + Urls(rest, normalize)
  {
    UrlsOfNext(text, raw, rest, normalize);
    AppendNext(urls, normalize(raw), Urls(rest, normalize), Urls(text, normalize));
  }

  method Parse(body: string, normalize: string -> Option<string>) returns (urls: seq<string>)
    ensures urls == Urls(body, normalize)
  {
    urls := [];
    var rest := body;
    while true
      invariant urls + Urls(rest, normalize) == Urls(body, normalize)
      decreases |rest|
    {
      var raw, after := Step(rest);
      if after.None? {
        break;
      }
      TakeNext(urls, rest, raw, after.value, normalize);
      rest := after.value;
      var url := normalize(raw);
      if url.Some? {
        urls := urls + [url.value];
      }
    }
  }

  /** The three searches of one round. */
  method Step(rest: string) returns (raw: string, after: Option<string>)
    ensures NextValue(rest) == if after.Some? then Some((raw, after.value)) else None
  {
    raw, after := "", None;
    var opening := FindIgnoreCase(rest, OPEN);
    if opening.None? {
      return;
    }
    var afterOpen := rest[opening.value + |OPEN|..];
    var tagEnd := IndexOf(afterOpen, '>');
    if tagEnd == |afterOpen| {
      return;
    }
    var content := afterOpen[tagEnd + 1..];
    assert AfterTag(rest) == Some(content);
    var closing := FindIgnoreCase(content, CLOSE);
    if closing.None? {
      return;
    }
    raw, after := content[..closing.value], Some(content[closing.value..]);
  }

  // -------------------------------------------------------------------------
  // A body that ends early

  /** What is found in a prefix is found at the same place in the whole text. */
  lemma {:induction false} FoundInPrefix(prefix: string, text: string, needle: string)
    requires prefix <= text && Find(prefix, needle).Some?
    ensures Find(text, needle) == Find(prefix, needle)
  {
    assert prefix[..|needle|] == text[..|needle|];
    if !Begins(prefix, needle) {
      FoundInPrefix(prefix[1..], text[1..], needle);
    }
  }

  lemma {:induction false} IndexInPrefix(prefix: string, text: string, c: char)
    requires prefix <= text && IndexOf(prefix, c) < |prefix|
    ensures IndexOf(text, c) == IndexOf(prefix, c)
  {
    if prefix[0] != c {
      IndexInPrefix(prefix[1..], text[1..], c);
    }
  }

  lemma DropKeepsPrefix(prefix: string, text: string, n: nat)
    requires prefix <= text && n <= |prefix|
    ensures prefix[n..] <= text[n..] && prefix[..n] == text[..n]
  {
  }

  lemma TagInPrefix(prefix: string, text: string) returns (content: string, more: string)
    requires prefix <= text && AfterTag(prefix).Some?
    ensures AfterTag(prefix) == Some(content) && AfterTag(text) == Some(more) && content <= more
  {
    var opening := Find(prefix, OPEN).value + |OPEN|;
    var tagEnd := IndexOf(prefix[opening..], '>') + 1;
    FoundInPrefix(prefix, text, OPEN);
    DropKeepsPrefix(prefix, text, opening);
    IndexInPrefix(prefix[opening..], text[opening..], '>');
    DropKeepsPrefix(prefix[opening..], text[opening..], tagEnd);
    content, more := prefix[opening..][tagEnd..], text[opening..][tagEnd..];
  }

  lemma ValueInPrefix(content: string, more: string) returns (raw: string, rest: string, later: string)
    requires content <= more && ValueOf(content).Some?
    ensures ValueOf(content) == Some((raw, rest)) && ValueOf(more) == Some((raw, later)) && rest <= later
  {
    var closing := Find(content, CLOSE).value;
    FoundInPrefix(content, more, CLOSE);
    DropKeepsPrefix(content, more, closing);
    raw, rest, later := content[..closing], content[closing..], more[closing..];
  }

  /** An element complete in a prefix is the next one of the whole text, with a prefix left to scan. */
  lemma NextInPrefix(prefix: string, text: string) returns (raw: string, rest: string, later: string)
    requires prefix <= text && NextValue(prefix).Some?
    ensures NextValue(prefix) == Some((raw, rest)) && NextValue(text) == Some((raw, later)) && rest <= later
  {
    var content, more := TagInPrefix(prefix, text);
    raw, rest, later := ValueInPrefix(content, more);
  }

  /** A truncated body yields a prefix of the URLs of the whole one. */
  lemma {:induction false} TruncationKeepsAPrefix(prefix: string, body: string, normalize: string -> Option<string>)
    requires prefix <= body
    ensures Urls(prefix, normalize) <= Urls(body, normalize)
    decreases |prefix|
  {
    if NextValue(prefix).Some? {
      var raw, rest, later := NextInPrefix(prefix, body);
      TruncationKeepsAPrefix(rest, later, normalize);
      TakeNext([], prefix, raw, rest, normalize);
      TakeNext([], body, raw, later, normalize);
    }
  }

  // -------------------------------------------------------------------------
  // A body gives back every value written into it

  /** One element: the text before it, its tags as spelled, what the opening one holds besides, and its value. */
  datatype Entry = Entry(before: string, open: string, attributes: string, value: string, close: string)

  function Element(e: Entry, after: string): string {
    e.open + (e.attributes + (">" + (e.value + (e.close + (">" + after)))))
  }

  function Render(entries: seq<Entry>, tail: string): string {
    if entries == [] then tail
    else entries[0].before + Element(entries[0], Render(entries[1..], tail))
  }

  /** An entry with its tags in any case, that begins and ends where the scan will say; the rest is as it likes. */
  predicate IsPlain(e: Entry) {
    && SameLetters(e.open, "<loc") && SameLetters(e.close, "</loc")
    && Find(e.before, OPEN).None? && '>' !in e.attributes && Find(e.value, CLOSE).None?
  }

  /** The cleaned values of the entries that are URLs. */
  function Cleaned(entries: seq<Entry>, normalize: string -> Option<string>): seq<string> {
    if entries == [] then []
    else
      var url := normalize(entries[0].value);
      (if url.Some? then [url.value] else []) + Cleaned(entries[1..], normalize)
  }

  /** Only the first character of a tag is `<`. */
  predicate IsTag(needle: string) {
    needle != "" && needle[0] == '<' && '<' !in needle[1..]
  }

  lemma SkipOne(text: string, needle: string)
    requires text != "" && needle != "" && !Begins(text, needle)
    ensures Find(text, needle) == Further(Find(text[1..], needle), 1)
  {
    if |text| < |needle| {
      assert Find(text[1..], needle) == None;
    }
  }

  lemma DiffersAt(text: string, needle: string, k: nat)
    requires k < |text| && k < |needle| && LowerChar(text[k]) != LowerChar(needle[k])
    ensures !Begins(text, needle)
  {
    if |needle| <= |text| {
      assert AsciiLower(text[..|needle|])[k] != AsciiLower(needle)[k];
    }
  }

  /** No tag begins in one text and ends in the next when that one begins with `<`. */
  lemma NoTagStraddles(first: string, text: string, needle: string)
    requires IsTag(needle) && first != "" && !Begins(first, needle) && text != "" && text[0] == '<'
    ensures !Begins(first + text, needle)
  {
    if |needle| <= |first| {
      assert (first + text)[..|needle|] == first[..|needle|];
    } else {
      assert needle[|first|] == needle[1..][|first| - 1];
      DiffersAt(first + text, needle, |first|);
    }
  }

  lemma NotFoundLater(text: string, needle: string)
    requires needle != "" && text != "" && Find(text, needle).None?
    ensures !Begins(text, needle) && Find(text[1..], needle).None?
  {
    if |text| < |needle| {
      assert Find(text[1..], needle).None?;
    }
  }

  lemma FurtherTwice(found: Option<nat>, n: nat)
    ensures Further(Further(found, n), 1) == Further(found, n + 1)
  {
  }

  /** Text in which a tag does not occur is passed over. */
  lemma {:induction false} SkipsText(first: string, text: string, needle: string)
    requires IsTag(needle) && Find(first, needle).None? && text != "" && text[0] == '<'
    ensures Find(first + text, needle) == Further(Find(text, needle), |first|)
  {
    if first == "" {
      assert first + text == text;
    } else {
      NotFoundLater(first, needle);
      NoTagStraddles(first, text, needle);
      SkipOne(first + text, needle);
      assert (first + text)[1..] == first[1..] + text;
      SkipsText(first[1..], text, needle);
      FurtherTwice(Find(text, needle), |first| - 1);
    }
  }

  /** Text without `<` is passed over, whatever follows. */
  lemma {:induction false} SkipsPlainText(plain: string, text: string, needle: string)
    requires '<' !in plain && IsTag(needle)
    ensures Find(plain + text, needle) == Further(Find(text, needle), |plain|)
  {
    if plain == "" {
      assert plain + text == text;
    } else {
      DiffersAt(plain + text, needle, 0);
      SkipOne(plain + text, needle);
      assert (plain + text)[1..] == plain[1..] + text;
      SkipsPlainText(plain[1..], text, needle);
    }
  }

  /** A closing tag is not an opening one. */
  lemma SkipsClosingTag(close: string, text: string)
    requires SameLetters(close, "</loc")
    ensures Find(close + (">" + text), OPEN) == Further(Find(text, OPEN), 6)
  {
    var whole := close + (">" + text);
    assert close[0] == '<' && close[1] == '/' && forall i :: 1 <= i < 5 ==> close[i] != '<';
    DiffersAt(whole, OPEN, 1);
    SkipOne(whole, OPEN);
    assert whole[1..] == close[1..] + ">" + text;
    SkipsPlainText(close[1..] + ">", text, OPEN);
  }

  lemma {:induction false} IndexAfter(plain: string, text: string, c: char)
    requires c !in plain
    ensures IndexOf(plain + text, c) == |plain| + IndexOf(text, c)
  {
    if plain == "" {
      assert plain + text == text;
    } else {
      assert (plain + text)[1..] == plain[1..] + text;
      IndexAfter(plain[1..], text, c);
    }
  }

  /** A tag is found however it is spelled. */
  lemma FoundAtStart(spelled: string, rest: string, needle: string)
    requires SameLetters(spelled, needle)
    ensures Find(spelled + rest, needle) == Some(0)
  {
    assert (spelled + rest)[..|needle|] == spelled;
    SameLettersIff(spelled, needle);
  }

  /** The opening tag of an element ends at its first `>`. */
  lemma ContentOfElement(e: Entry, content: string)
    requires IsPlain(e)
    ensures AfterTag(e.before + (e.open + (e.attributes + (">" + content)))) == Some(content)
  {
    var tagged := e.attributes + (">" + content);
    SkipsText(e.before, e.open + tagged, OPEN);
    FoundAtStart(e.open, tagged, OPEN);
    assert (e.before + (e.open + tagged))[|e.before| + |OPEN|..] == tagged;
    IndexAfter(e.attributes, ">" + content, '>');
    assert tagged[|e.attributes| + 1..] == content;
  }

  lemma ValueOfElement(value: string, close: string, after: string)
    requires Find(value, CLOSE).None? && SameLetters(close, "</loc")
    ensures ValueOf(value + (close + after)) == Some((value, close + after))
  {
    var closed := close + after;
    SkipsText(value, closed, CLOSE);
    FoundAtStart(close, after, CLOSE);
    assert (value + closed)[..|value|] == value && (value + closed)[|value|..] == closed;
  }

  lemma AfterClosingTag(close: string, text: string, normalize: string -> Option<string>)
    requires SameLetters(close, "</loc")
    ensures Urls(close + (">" + text), normalize) == Urls(text, normalize)
  {
    SkipsClosingTag(close, text);
    if Find(text, OPEN).Some? {
      var at := Find(text, OPEN).value + |OPEN|;
      assert (close + (">" + text))[6 + at..] == text[at..];
    }
    assert AfterTag(close + (">" + text)) == AfterTag(text);
  }

  /** Scanning a rendered sitemap gives every entry's value, cleaned, in order. */
  lemma {:induction false} RenderedRoundTrip(entries: seq<Entry>, tail: string, normalize: string -> Option<string>)
    requires Find(tail, OPEN).None? && forall e :: e in entries ==> IsPlain(e)
    ensures Urls(Render(entries, tail), normalize) == Cleaned(entries, normalize)
  {
    if entries != [] {
      var e, rest := entries[0], Render(entries[1..], tail);
      ContentOfElement(e, e.value + (e.close + (">" + rest)));
      ValueOfElement(e.value, e.close, ">" + rest);
      TakeNext([], Render(entries, tail), e.value, e.close + (">" + rest), normalize);
      AfterClosingTag(e.close, rest, normalize);
      RenderedRoundTrip(entries[1..], tail, normalize);
    }
  }

  /** A value may not hold its closing tag: the scan would end it there. */
  lemma ClosingTagEndsValue(value: string, after: string)
    requires Find(value, CLOSE).Some?
    ensures ValueOf(value + after).Some? && ValueOf(value + after).value.0 == value[..Find(value, CLOSE).value]
  {
    FoundInPrefix(value, value + after, CLOSE);
    var at := Find(value, CLOSE).value;
    assert (value + after)[..at] == value[..at];
  }
}
