/** How long a host is left alone after a visit, in the source's integer widths. */
module Politeness {
  import opened Basics

  const U64_LIMIT: nat := 0x1_0000_0000_0000_0000
  const I64_LIMIT: nat := 0x8000_0000_0000_0000
  /** A delay in milliseconds. */
  type Millis = n: nat | n < U64_LIMIT

  const I64_MIN: int := -0x8000_0000_0000_0000

  function SaturatingMul(a: nat, b: nat): nat {
    if a * b < U64_LIMIT then a * b else U64_LIMIT - 1
  }

  /** The milliseconds a site asks for, however many they are. */
  function Asked(crawlDelayS: Option<nat>): nat {
    match crawlDelayS
    case Some(seconds) => 1000 * seconds
    case None => 0
  }

  /** A `Crawl-delay` is a floor for the default delay, never a ceiling. */
  function DelayMs(defaultMs: nat, crawlDelayS: Option<nat>): (delay: nat)
    requires defaultMs < U64_LIMIT
    ensures defaultMs <= delay < U64_LIMIT
    ensures Asked(crawlDelayS) < U64_LIMIT ==> Asked(crawlDelayS) <= delay
    ensures Asked(crawlDelayS) < U64_LIMIT ==> delay == defaultMs || delay == Asked(crawlDelayS)
    ensures Asked(crawlDelayS) >= U64_LIMIT ==> delay == U64_LIMIT - 1
  {
    match crawlDelayS
    case Some(seconds) => Max(SaturatingMul(seconds, 1000), defaultMs)
    case None => defaultMs
  }

  /** The delay is the least number that is at least the default and what the site asks for, if that fits 64 bits. */
  lemma DelayIsLeast(defaultMs: nat, crawlDelayS: Option<nat>, other: nat)
    requires defaultMs < U64_LIMIT && defaultMs <= other && Asked(crawlDelayS) <= other
    ensures DelayMs(defaultMs, crawlDelayS) <= other
    ensures Asked(crawlDelayS) <= DelayMs(defaultMs, crawlDelayS) <==> Asked(crawlDelayS) < U64_LIMIT
  {
    assert DelayMs(defaultMs, crawlDelayS) < U64_LIMIT;
  }

  /** It is the largest number exactly when one of the two is at least that. */
  lemma DelaySaturatesIff(defaultMs: nat, crawlDelayS: Option<nat>)
    requires defaultMs < U64_LIMIT
    ensures DelayMs(defaultMs, crawlDelayS) == U64_LIMIT - 1
            <==> defaultMs == U64_LIMIT - 1 || Asked(crawlDelayS) >= U64_LIMIT - 1
  {
    assert DelayMs(defaultMs, crawlDelayS) < U64_LIMIT;
  }

  /** A 64-bit pattern read as a signed number. */
  function AsSigned(n: nat): int
    requires n < U64_LIMIT
  {
    if n < I64_LIMIT then n else n - U64_LIMIT
  }

  function SaturatingAdd(a: int, b: int): int {
    if a + b >= I64_LIMIT then I64_LIMIT - 1 else if a + b < I64_MIN then I64_MIN else a + b
  }

  /** When the host may be contacted again. */
  function NextAllowedAt(now: int, delay: nat): int
    requires delay < U64_LIMIT
  {
    SaturatingAdd(now, AsSigned(delay))
  }

  /** The next contact is never put before now exactly when the delay fits a signed number. */
  lemma DeferralIsForwardIffDelayFits(now: int, delay: nat)
    requires 0 <= now < I64_LIMIT && delay < U64_LIMIT
    ensures now <= NextAllowedAt(now, delay) <==> delay < I64_LIMIT
    ensures delay < I64_LIMIT && now + delay < I64_LIMIT ==> NextAllowedAt(now, delay) == now + delay
  {
  }

  /** In numbers, while nothing wraps: after the default delay, or the seconds the site asks for if those are longer. */
  predicate IsNextContact(until: int, now: int, defaultMs: nat, crawlDelayS: Option<nat>) {
    0 <= now && now + defaultMs < I64_LIMIT ==>
      match crawlDelayS
      case None => until == now + defaultMs
      case Some(seconds) => now + 1000 * seconds < I64_LIMIT ==> until == now + Max(defaultMs, 1000 * seconds)
  }

  lemma NextContact(now: int, defaultMs: nat, crawlDelayS: Option<nat>)
    requires defaultMs < U64_LIMIT
    ensures IsNextContact(NextAllowedAt(now, DelayMs(defaultMs, crawlDelayS)), now, defaultMs, crawlDelayS)
  {
  }

  /** In 64 bits: a delay counts as it is below 2^63, less 2^64 from there on, and the sum stops at the bounds. */
  lemma NextContactInBits(now: int, delay: nat)
    requires I64_MIN <= now < I64_LIMIT && delay < U64_LIMIT
    ensures var sum := if delay < I64_LIMIT then now + delay else now + delay - U64_LIMIT;
            var until := NextAllowedAt(now, delay);
            && I64_MIN <= until < I64_LIMIT
            && (I64_MIN <= sum < I64_LIMIT ==> until == sum)
            && (sum >= I64_LIMIT ==> until == I64_LIMIT - 1) && (sum < I64_MIN ==> until == I64_MIN)
  {
  }

  /** The largest delay a host can ask for puts the next contact in the past. */
  lemma HugeDelayWraps(now: int)
    requires 0 < now < I64_LIMIT
    ensures NextAllowedAt(now, DelayMs(200, Some(U64_LIMIT - 1))) == now - 1
  {
  }
}
