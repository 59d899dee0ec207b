/**
 Names of spool segments: how a sequence number is written into one, read back, and
 what the order of names says about the order of numbers.
 */
module SegmentNames {
  import opened Basics
  import opened Bytes
  import opened Sorting
  import Spool

  const U64_MAX: nat := 0xFFFF_FFFF_FFFF_FFFF

  const OPEN_SUFFIX := ".open"
  const SEALED_SUFFIX := ".pdoc"
  const PREFIX := "segment-"
  const PADDING: nat := 12

  // -------------------------------------------------------------------------
  // Decimal numbers

  predicate IsDigit(c: char) {
    '0' <= c <= '9'
  }

  predicate AllDigits(s: string) {
    forall i :: 0 <= i < |s| ==> IsDigit(s[i])
  }

  function DigitOf(d: nat): (c: char)
    requires d < 10
    ensures IsDigit(c) && c as int - '0' as int == d
  {
    '0' + d as char
  }

  /** `n` in decimal, with leading zeros up to `width` digits. */
  function Decimal(n: nat, width: nat): (s: string)
    ensures |s| >= width && AllDigits(s)
    decreases n, width
  {
    if n == 0 && width == 0 then ""
    else Decimal(n / 10, if width == 0 then 0 else width - 1) + [DigitOf(n % 10)]
  }

  function Value(s: string): nat
    requires AllDigits(s)
  {
    if s == "" then 0 else 10 * Value(s[..|s| - 1]) + (s[|s| - 1] as int - '0' as int)
  }

  lemma {:induction false} DecimalValue(n: nat, width: nat)
    ensures Value(Decimal(n, width)) == n
    decreases n, width
  {
    if n != 0 || width != 0 {
      var fewer := if width == 0 then 0 else width - 1;
      DecimalValue(n / 10, fewer);
      assert Decimal(n, width)[..|Decimal(n, width)| - 1] == Decimal(n / 10, fewer);
    }
  }

  /** An unsigned 64-bit number as the parser reads it: a plus sign is allowed, too large a number is not. */
  function ParseU64(s: string): Option<nat> {
    var digits := if s != "" && s[0] == '+' then s[1..] else s;
    if digits == "" || !AllDigits(digits) || Value(digits) > U64_MAX then None else Some(Value(digits))
  }

  // -------------------------------------------------------------------------
  // Names

  function OpenName(sequence: nat): string {
    PREFIX + Decimal(sequence, PADDING) + OPEN_SUFFIX
  }

  function SealedName(sequence: nat): string {
    PREFIX + Decimal(sequence, PADDING) + SEALED_SUFFIX
  }

  predicate EndsWith(s: string, suffix: string) {
    |suffix| <= |s| && s[|s| - |suffix|..] == suffix
  }

  predicate IsSealed(name: string) {
    EndsWith(name, SEALED_SUFFIX)
  }

  function ParseSequence(name: string): Option<nat> {
    if !EndsWith(name, SEALED_SUFFIX) && !EndsWith(name, OPEN_SUFFIX) then None
    else
      // Both suffixes have the same length.
      var stem := name[..|name| - |SEALED_SUFFIX|];
      if PREFIX <= stem then ParseU64(stem[|PREFIX|..]) else None
  }

  lemma ParsesBack(sequence: nat, suffix: string)
    requires sequence <= U64_MAX && (suffix == OPEN_SUFFIX || suffix == SEALED_SUFFIX)
    ensures ParseSequence(PREFIX + Decimal(sequence, PADDING) + suffix) == Some(sequence)
  {
    var digits := Decimal(sequence, PADDING);
    var name := PREFIX + digits + suffix;
    assert name[|name| - |suffix|..] == suffix;
    assert name[..|name| - |suffix|] == PREFIX + digits;
    assert (PREFIX + digits)[|PREFIX|..] == digits;
    DecimalValue(sequence, PADDING);
  }

  /** Names of both kinds are read back, and tell open from sealed; so no two segments share a name. */
  lemma NamesParseBack(sequence: nat)
    requires sequence <= U64_MAX
    ensures ParseSequence(SealedName(sequence)) == Some(sequence) && IsSealed(SealedName(sequence))
    ensures ParseSequence(OpenName(sequence)) == Some(sequence) && !IsSealed(OpenName(sequence))
  {
    ParsesBack(sequence, SEALED_SUFFIX);
    ParsesBack(sequence, OPEN_SUFFIX);
    var sealed, open := SealedName(sequence), OpenName(sequence);
    assert sealed[|sealed| - |SEALED_SUFFIX|..] == SEALED_SUFFIX;
    assert open[|open| - |SEALED_SUFFIX|..] == OPEN_SUFFIX;
  }

  // -------------------------------------------------------------------------
  // Name order and number order

  /** The codes of the characters; a name has only ASCII characters, so these are its bytes. */
  function Codes(s: string): seq<int> {
    seq(|s|, i requires 0 <= i < |s| => s[i] as int)
  }

  predicate NameLess(a: string, b: string) {
    Less(Codes(a), Codes(b))
  }

  lemma CodesOfBoth(a: string, b: string)
    ensures Codes(a + b) == Codes(a) + Codes(b)
  {
  }

  lemma CodesTell(a: string, b: string)
    ensures Codes(a) == Codes(b) <==> a == b
  {
    if Codes(a) == Codes(b) {
      assert forall i :: 0 <= i < |a| ==> a[i] as int == Codes(a)[i] == Codes(b)[i] == b[i] as int;
    }
  }

  lemma NameLessAfterPrefix(p: string, a: string, b: string)
    ensures NameLess(p + a, p + b) <==> NameLess(a, b)
  {
    CodesOfBoth(p, a);
    CodesOfBoth(p, b);
    LessAfterPrefix(Codes(p), Codes(a), Codes(b));
  }

  lemma NameLessByDifference(a: string, b: string, p: string, q: string)
    requires |a| == |b| && a != b
    ensures NameLess(a + p, b + q) <==> NameLess(a, b)
  {
    CodesTell(a, b);
    CodesOfBoth(a, p);
    CodesOfBoth(b, q);
    LessByDifference(Codes(a), Codes(b), Codes(p), Codes(q));
  }

  lemma OneCharacter(c: char, d: char)
    ensures NameLess([c], [d]) <==> c < d
  {
    assert Codes([c]) == [c as int] && Codes([d]) == [d as int];
    assert Less([c as int], [d as int]) <==> c < d;
  }

  /** Digit strings of one length compare as the numbers they stand for. */
  lemma {:induction false} DigitsCompareByValue(a: string, b: string)
    requires |a| == |b| && AllDigits(a) && AllDigits(b)
    ensures NameLess(a, b) <==> Value(a) < Value(b)
    ensures a == b <==> Value(a) == Value(b)
  {
    if a != "" {
      var n := |a| - 1;
      var headA, headB := a[..n], b[..n];
      DigitsCompareByValue(headA, headB);
      assert a == headA + [a[n]] && b == headB + [b[n]];
      if headA == headB {
        NameLessAfterPrefix(headA, [a[n]], [b[n]]);
        OneCharacter(a[n], b[n]);
      } else {
        NameLessByDifference(headA, headB, [a[n]], [b[n]]);
      }
    }
  }

  function Power10(n: nat): (p: nat)
    ensures p > 0
  {
    if n == 0 then 1 else 10 * Power10(n - 1)
  }

  lemma DivideTwice(n: nat, p: nat)
    requires p > 0
    ensures n / 10 / p == n / (10 * p)
  {
    var q := n / 10 / p;
    assert n / 10 == p * q + n / 10 % p;
    assert n == 10 * p * q + 10 * (n / 10 % p) + n % 10;
    assert 0 <= 10 * (n / 10 % p) + n % 10 < 10 * p;
    Quotient(n, 10 * p, q, 10 * (n / 10 % p) + n % 10);
  }

  lemma Quotient(n: nat, d: nat, q: nat, r: nat)
    requires d > 0 && n == d * q + r && r < d
    ensures n / d == q
  {
    var quotient := n / d;
    assert n == d * quotient + n % d;
    assert d * (quotient - q) == d * quotient - d * q;
    NoMultipleBetween(d, quotient - q);
  }

  lemma NoMultipleBetween(d: nat, k: int)
    requires -(d as int) < d * k < d
    ensures k == 0
  {
    assert k >= 1 ==> d * k >= d * 1;
    assert k <= -1 ==> d * k <= d * -1;
  }

  lemma {:induction false} LeadingDigits(s: string, n: nat)
    requires AllDigits(s) && n <= |s|
    ensures Value(s[..n]) == Value(s) / Power10(|s| - n)
    decreases |s|
  {
    if n == |s| {
      assert s[..n] == s;
    } else {
      var head := s[..|s| - 1];
      LeadingDigits(head, n);
      assert head[..n] == s[..n];
      assert Value(s) / 10 == Value(head);
      DivideTwice(Value(s), Power10(|s| - 1 - n));
    }
  }

  lemma {:induction false} SmallerIsNotLonger(a: nat, b: nat, width: nat)
    requires a <= b
    ensures |Decimal(a, width)| <= |Decimal(b, width)|
    decreases a, width
  {
    if a != 0 || width != 0 {
      SmallerIsNotLonger(a / 10, b / 10, if width == 0 then 0 else width - 1);
    }
  }

  /**
   Names sort as their numbers exactly when the smaller number does not exceed the
   leading digits of the larger one. It does not once the padding is outgrown.
   */
  lemma NameOrder(a: nat, b: nat)
    requires a < b
    ensures |Decimal(a, PADDING)| <= |Decimal(b, PADDING)|
    ensures NameLess(SealedName(a), SealedName(b))
            <==> a <= b / Power10(|Decimal(b, PADDING)| - |Decimal(a, PADDING)|)
  {
    var x, y := Decimal(a, PADDING), Decimal(b, PADDING);
    SmallerIsNotLonger(a, b, PADDING);
    var lead, rest := y[..|x|], y[|x|..];
    assert y == lead + rest;
    NamesByDigits(x, lead, rest);
    DecimalValue(a, PADDING);
    DecimalValue(b, PADDING);
    LeadingDigits(y, |x|);
    DigitsCompareByValue(x, lead);
    if rest == "" {
      assert y == lead;
    }
  }

  /** Names compare by the first digits, and then the longer one comes last. */
  lemma NamesByDigits(x: string, lead: string, rest: string)
    requires |x| == |lead| && AllDigits(rest)
    ensures NameLess(PREFIX + x + SEALED_SUFFIX, PREFIX + (lead + rest) + SEALED_SUFFIX)
            <==> if x == lead then rest != "" else NameLess(x, lead)
  {
    assert PREFIX + x + SEALED_SUFFIX == PREFIX + (x + SEALED_SUFFIX);
    assert PREFIX + (lead + rest) + SEALED_SUFFIX == PREFIX + (lead + (rest + SEALED_SUFFIX));
    NameLessAfterPrefix(PREFIX, x + SEALED_SUFFIX, lead + (rest + SEALED_SUFFIX));
    if x == lead {
      NameLessAfterPrefix(x, SEALED_SUFFIX, rest + SEALED_SUFFIX);
      SuffixIsFirst(rest);
    } else {
      NameLessByDifference(x, lead, SEALED_SUFFIX, rest + SEALED_SUFFIX);
    }
  }

  lemma SuffixIsFirst(rest: string)
    requires AllDigits(rest)
    ensures NameLess(SEALED_SUFFIX, rest + SEALED_SUFFIX) <==> rest != ""
  {
    if rest == "" {
      assert rest + SEALED_SUFFIX == SEALED_SUFFIX;
      NotLessThanItself(Codes(SEALED_SUFFIX));
    } else {
      assert IsDigit(rest[0]);
      assert Codes(rest + SEALED_SUFFIX)[0] == rest[0] as int && Codes(SEALED_SUFFIX)[0] == '.' as int;
    }
  }

  lemma {:induction false} NotLessThanItself(a: seq<int>)
    ensures !Less(a, a)
  {
    if a != [] {
      NotLessThanItself(a[1..]);
    }
  }

  lemma {:induction false} PaddedLength(n: nat, width: nat, extra: nat)
    requires n < Power10(width + extra) && (extra > 0 ==> n >= Power10(width + extra - 1))
    ensures |Decimal(n, width)| == width + extra
    decreases width + extra
  {
    if width > 0 {
      PaddedLength(n / 10, width - 1, extra);
    } else if extra > 0 {
      PaddedLength(n / 10, 0, extra - 1);
    }
  }

  /** Below a million million, names sort as their numbers. */
  lemma PaddedNamesSort(a: nat, b: nat)
    requires a < b < Power10(PADDING)
    ensures NameLess(SealedName(a), SealedName(b))
  {
    PaddedLength(a, PADDING, 0);
    PaddedLength(b, PADDING, 0);
    NameOrder(a, b);
  }

  lemma OneDigitLonger(a: nat, b: nat)
    requires a < Power10(PADDING) <= b < Power10(PADDING + 1)
    ensures NameLess(SealedName(a), SealedName(b)) <==> a <= b / 10
  {
    PaddedLength(a, PADDING, 0);
    PaddedLength(b, PADDING, 1);
    NameOrder(a, b);
    assert Power10(1) == 10;
  }

  lemma MillionMillion()
    ensures Power10(PADDING) == 1_000_000_000_000 && Power10(PADDING + 1) == 10_000_000_000_000
  {
    assert Power10(4) == 10_000;
    assert Power10(8) == 100_000_000;
  }

  /** The first two names out of order. */
  lemma PaddingIsOutgrown()
    ensures !NameLess(SealedName(999_999_999_999), SealedName(1_000_000_000_000))
  {
    MillionMillion();
    OneDigitLonger(999_999_999_999, 1_000_000_000_000);
  }

  // -------------------------------------------------------------------------
  // Directories of names

  /** The highest number `parse` reads from the entries, or 0. */
  function HighestParsed(parse: string -> Option<nat>, entries: seq<string>): nat {
    if entries == [] then 0
    else
      var highest, sequence := HighestParsed(parse, entries[..|entries| - 1]), parse(entries[|entries| - 1]);
      if sequence.Some? && sequence.value > highest then sequence.value else highest
  }

  lemma {:induction false} HighestParsedIsHighest(parse: string -> Option<nat>, entries: seq<string>)
    ensures forall name :: name in entries && parse(name).Some? ==> parse(name).value <= HighestParsed(parse, entries)
    ensures HighestParsed(parse, entries) > 0 ==>
              exists name :: name in entries && parse(name) == Some(HighestParsed(parse, entries))
  {
    if entries != [] {
      var n := |entries| - 1;
      HighestParsedIsHighest(parse, entries[..n]);
      assert entries == entries[..n] + [entries[n]];
    }
  }

  /** One more, in 64 bits as an optimised build adds: after the last number comes 0. */
  function Following(sequence: nat): nat {
    (sequence + 1) % (U64_MAX + 1)
  }

  /** One above the highest number in a directory; files with other names are passed over. */
  method NextSpoolSequence(entries: seq<string>) returns (next: nat)
    ensures next == Following(HighestParsed(ParseSequence, entries))
  {
    var highest := 0;
    for i := 0 to |entries|
      invariant highest == HighestParsed(ParseSequence, entries[..i])
    {
      assert entries[..i + 1][..i] == entries[..i];
      var sequence := ParseSequence(entries[i]);
      if sequence.Some? {
        highest := if sequence.value > highest then sequence.value else highest;
      }
    }
    assert entries[..|entries|] == entries;
    next := Following(highest);
  }

  lemma SequenceFits(name: string)
    ensures ParseSequence(name).Some? ==> ParseSequence(name).value <= U64_MAX
  {
  }

  lemma FollowingIsAboveIff(parse: string -> Option<nat>, entries: seq<string>)
    requires forall name :: parse(name).Some? ==> parse(name).value <= U64_MAX
    ensures (forall name :: name in entries && parse(name).Some? ==>
              parse(name).value < Following(HighestParsed(parse, entries)))
            <==> (forall name :: name in entries ==> parse(name) != Some(U64_MAX))
  {
    HighestParsedIsHighest(parse, entries);
  }

  /** The number is above every number in the directory unless the last 64-bit number is there. */
  lemma NextIsAboveIff(entries: seq<string>)
    ensures (forall name :: name in entries && ParseSequence(name).Some? ==>
              ParseSequence(name).value < Following(HighestParsed(ParseSequence, entries)))
            <==> (forall name :: name in entries ==> ParseSequence(name) != Some(U64_MAX))
  {
    forall name
      ensures ParseSequence(name).Some? ==> ParseSequence(name).value <= U64_MAX
    {
      SequenceFits(name);
    }
    FollowingIsAboveIff(ParseSequence, entries);
  }

  /** Beside a segment with the last number the numbering starts again from 0, below what is sealed. */
  lemma NumberingStartsAgain()
    ensures Following(HighestParsed(ParseSequence, [SealedName(U64_MAX)])) == 0
  {
    NamesParseBack(U64_MAX);
  }

  /** What a sealed file is sorted by: a name without a number comes last. */
  function SortKey(name: string): nat {
    var sequence := ParseSequence(name);
    if sequence.Some? then sequence.value else U64_MAX
  }

  function SealedNames(entries: seq<string>): seq<string> {
    if entries == [] then []
    else
      var n := |entries| - 1;
      SealedNames(entries[..n]) + if IsSealed(entries[n]) then [entries[n]] else []
  }

  method SealedSegments(entries: seq<string>) returns (segments: seq<string>)
    ensures IsSortedBy(SortKey, segments) && multiset(segments) == multiset(SealedNames(entries))
  {
    segments := [];
    for i := 0 to |entries|
      invariant segments == SealedNames(entries[..i])
    {
      assert entries[..i + 1][..i] == entries[..i];
      if IsSealed(entries[i]) {
        segments := segments + [entries[i]];
      }
    }
    assert entries[..|entries|] == entries;
    SortKeeps(SortKey, segments);
    segments := SortByKey(SortKey, segments);
  }

  // -------------------------------------------------------------------------
  // Directories of segments

  /** The entries are the names of these segments, each once. */
  ghost predicate IsDirectory(entries: seq<string>, open: set<nat>, sealed: set<nat>) {
    && AreDistinct(entries)
    && (forall k :: k in open || k in sealed ==> k <= U64_MAX)
    && (forall k :: k in open ==> OpenName(k) in entries)
    && (forall k :: k in sealed ==> SealedName(k) in entries)
    && (forall name :: name in entries ==> IsOpenOf(name, open) || IsSealedOf(name, sealed))
  }

  ghost predicate IsOpenOf(name: string, open: set<nat>) {
    exists k :: k in open && name == OpenName(k)
  }

  ghost predicate IsSealedOf(name: string, sealed: set<nat>) {
    exists k :: k in sealed && name == SealedName(k)
  }

  lemma EntryIsNamed(entries: seq<string>, open: set<nat>, sealed: set<nat>, name: string) returns (k: nat)
    requires IsDirectory(entries, open, sealed) && name in entries
    ensures ParseSequence(name) == Some(k) && SortKey(name) == k
    ensures if IsSealed(name) then k in sealed && name == SealedName(k) else k in open && name == OpenName(k)
  {
    if IsSealedOf(name, sealed) {
      k :| k in sealed && name == SealedName(k);
    } else {
      assert IsOpenOf(name, open);
      k :| k in open && name == OpenName(k);
    }
    NamesParseBack(k);
  }

  /** The next number is above every file present, open or sealed, and not higher than it needs to be. */
  lemma NextIsAboveDirectory(entries: seq<string>, open: set<nat>, sealed: set<nat>)
    requires IsDirectory(entries, open, sealed)
    ensures HighestParsed(ParseSequence, entries)
            == if open + sealed == {} then 0 else Spool.Highest(open + sealed)
  {
    HighestParsedIsHighest(ParseSequence, entries);
    var highest := HighestParsed(ParseSequence, entries);
    forall k | k in open + sealed
      ensures k <= highest
    {
      NamesParseBack(k);
      assert OpenName(k) in entries || SealedName(k) in entries;
    }
    if highest > 0 {
      var name :| name in entries && ParseSequence(name) == Some(highest);
      var k := EntryIsNamed(entries, open, sealed, name);
      Spool.HighestIs(open + sealed, highest);
    }
  }

  lemma {:induction false} SealedNamesAre(entries: seq<string>)
    requires AreDistinct(entries)
    ensures AreDistinct(SealedNames(entries))
    ensures forall name :: name in SealedNames(entries) <==> name in entries && IsSealed(name)
  {
    if entries != [] {
      var n := |entries| - 1;
      SealedNamesAre(entries[..n]);
      assert entries == entries[..n] + [entries[n]];
    }
  }

  lemma SegmentIsNamed(entries: seq<string>, open: set<nat>, sealed: set<nat>, name: string)
    requires IsDirectory(entries, open, sealed) && name in entries && IsSealed(name)
    ensures SortKey(name) in sealed && name == SealedName(SortKey(name))
  {
    var k := EntryIsNamed(entries, open, sealed, name);
  }

  /** If every item is the name of its key, and the sequences are those of the items, the sorted keys list them. */
  lemma KeysList(key: string -> nat, name: nat -> string, items: seq<string>, sequences: set<nat>, listing: seq<nat>)
    requires AreDistinct(items) && IsSortedBy(key, items)
    requires forall item :: item in items ==> key(item) in sequences && item == name(key(item))
    requires forall k :: k in sequences ==> name(k) in items && key(name(k)) == k
    requires |listing| == |items| && forall i :: 0 <= i < |items| ==> listing[i] == key(items[i])
    ensures Spool.IsListing(listing, sequences)
  {
    forall i, j | 0 <= i < j < |listing|
      ensures listing[i] < listing[j]
    {
      assert items[i] == name(listing[i]) && items[j] == name(listing[j]);
    }
    forall k
      ensures k in sequences <==> k in listing
    {
      if k in sequences {
        var i :| 0 <= i < |items| && items[i] == name(k);
        assert listing[i] == k;
      }
    }
  }

  /** In a directory of segments the sorted names list the sealed numbers, smallest first. */
  lemma NamesListSequences(entries: seq<string>, segments: seq<string>, open: set<nat>, sealed: set<nat>,
                           listing: seq<nat>)
    requires IsDirectory(entries, open, sealed)
    requires IsSortedBy(SortKey, segments) && multiset(segments) == multiset(SealedNames(entries))
    requires |listing| == |segments| && forall i :: 0 <= i < |segments| ==> listing[i] == SortKey(segments[i])
    ensures Spool.IsListing(listing, sealed)
  {
    SealedNamesAre(entries);
    RearrangedAreDistinct(SealedNames(entries), segments);
    forall name | name in segments
      ensures SortKey(name) in sealed && name == SealedName(SortKey(name))
    {
      SegmentIsNamed(entries, open, sealed, name);
    }
    forall k | k in sealed
      ensures SealedName(k) in segments && SortKey(SealedName(k)) == k
    {
      NamesParseBack(k);
    }
    KeysList(SortKey, SealedName, segments, sealed, listing);
  }

  // -------------------------------------------------------------------------
  // Any name

  /** What a sequence is read from: digits, with or without a plus sign, for a number of 64 bits. */
  ghost predicate IsNumeral(s: string, n: nat) {
    exists digits :: (s == digits || s == "+" + digits) && IsDigits(digits) && Value(digits) == n <= U64_MAX
  }

  predicate IsDigits(s: string) {
    s != "" && AllDigits(s)
  }

  lemma NumeralIsRead(s: string, n: nat)
    ensures ParseU64(s) == Some(n) <==> IsNumeral(s, n)
  {
    if ParseU64(s) == Some(n) {
      var digits := if s[0] == '+' then s[1..] else s;
      assert s == digits || s == "+" + digits;
      assert IsDigits(digits);
    }
    if IsNumeral(s, n) {
      var digits :| (s == digits || s == "+" + digits) && IsDigits(digits) && Value(digits) == n <= U64_MAX;
      assert IsDigit(digits[0]);
      if s == "+" + digits {
        assert s[1..] == digits;
      }
    }
  }

  lemma NameParts(name: string, numeral: string, suffix: string)
    requires name == "segment-" + numeral + suffix && (suffix == ".open" || suffix == ".pdoc")
    ensures ParseSequence(name) == ParseU64(numeral)
  {
    var stem := name[..|name| - |suffix|];
    assert name[|name| - |suffix|..] == suffix && stem == "segment-" + numeral;
    assert stem[|PREFIX|..] == numeral;
  }

  lemma NameSplits(name: string) returns (numeral: string)
    requires ParseSequence(name) != None
    ensures IsNameOf(name, numeral) && ParseSequence(name) == ParseU64(numeral)
  {
    var stem, suffix := name[..|name| - |SEALED_SUFFIX|], name[|name| - |SEALED_SUFFIX|..];
    numeral := stem[|PREFIX|..];
    assert name == stem + suffix && stem == stem[..|PREFIX|] + numeral;
  }

  /** A name has a sequence exactly when it is `segment-`, a numeral, and one of the two suffixes. */
  lemma NameIsRead(name: string, n: nat)
    ensures ParseSequence(name) == Some(n) <==> IsNamed(name, n)
  {
    if ParseSequence(name) == Some(n) {
      var numeral := NameSplits(name);
      NumeralIsRead(numeral, n);
    }
    if IsNamed(name, n) {
      NamedIsRead(name, n);
    }
  }

  lemma NamedIsRead(name: string, n: nat)
    requires IsNamed(name, n)
    ensures ParseSequence(name) == Some(n)
  {
    var numeral :| IsNameOf(name, numeral) && IsNumeral(numeral, n);
    NumeralIsRead(numeral, n);
    NameParts(name, numeral, if name == "segment-" + numeral + ".open" then ".open" else ".pdoc");
  }

  ghost predicate IsNameOf(name: string, numeral: string) {
    name == "segment-" + numeral + ".open" || name == "segment-" + numeral + ".pdoc"
  }

  ghost predicate IsNamed(name: string, n: nat) {
    exists numeral :: IsNameOf(name, numeral) && IsNumeral(numeral, n)
  }

  /** Numbers are padded to twelve digits. */
  lemma NamesArePadded(sequence: nat)
    requires sequence < 1_000_000_000_000
    ensures |SealedName(sequence)| == |"segment-000000000000.pdoc"|
    ensures SealedName(sequence)[..8] == "segment-" && SealedName(sequence)[20..] == ".pdoc"
    ensures AllDigits(SealedName(sequence)[8..20]) && Value(SealedName(sequence)[8..20]) == sequence
  {
    var digits := Decimal(sequence, PADDING);
    MillionMillion();
    PaddedLength(sequence, PADDING, 0);
    DecimalValue(sequence, PADDING);
    assert SealedName(sequence) == "segment-" + digits + ".pdoc";
    assert SealedName(sequence)[8..20] == digits;
  }

  /** Sealed files without a number come behind all that have one below the last. */
  lemma ForeignNamesComeLast(segments: seq<string>, i: nat, j: nat)
    requires IsSortedBy(SortKey, segments) && i < j < |segments| && ParseSequence(segments[i]) == None
    ensures ParseSequence(segments[j]) == None || ParseSequence(segments[j]) == Some(U64_MAX)
  {
    SequenceFits(segments[j]);
  }
}
