/**
 The form in which section 2.2.2 of RFC 9309 compares patterns and paths: octets outside ASCII are
 percent-encoded, and percent-encoded unreserved characters are decoded (RFC 3986, section 2.3).
 The hexadecimal digits of an escape that stays are upper case, as equivalent escapes must be alike.
 */
module Percent {
  import opened Text

  // -------------------------------------------------------------------------
  // Escapes

  predicate IsHex(c: char) {
    '0' <= c <= '9' || 'A' <= c <= 'F' || 'a' <= c <= 'f'
  }

  function HexValue(c: char): (value: nat)
    requires IsHex(c)
    ensures value < 16
  {
    if c <= '9' then c as nat - '0' as nat
    else if c <= 'F' then c as nat - 'A' as nat + 10
    else c as nat - 'a' as nat + 10
  }

  function HexDigit(value: nat): (c: char)
    requires value < 16
    ensures IsHex(c) && HexValue(c) == value && !('a' <= c <= 'f')
  {
    if value < 10 then '0' + value as char else 'A' + (value - 10) as char
  }

  predicate IsUnreserved(octet: nat) {
    || 'a' as nat <= octet <= 'z' as nat || 'A' as nat <= octet <= 'Z' as nat || '0' as nat <= octet <= '9' as nat
    || octet == '-' as nat || octet == '.' as nat || octet == '_' as nat || octet == '~' as nat
  }

  function Escape(octet: nat): (escape: string)
    requires octet < 256
    ensures |escape| == 3
  {
    ['%', HexDigit(octet / 16), HexDigit(octet % 16)]
  }

  function Escapes(octets: seq<nat>): string
    requires forall i :: 0 <= i < |octets| ==> octets[i] < 256
  {
    if octets == [] then "" else Escape(octets[0]) + Escapes(octets[1..])
  }

  /** The octets of a character in UTF-8. */
  function Utf8(c: char): (octets: seq<nat>)
    ensures |octets| == Utf8Width(c) && forall i :: 0 <= i < |octets| ==> octets[i] < 256
  {
    var n := c as nat;
    if n < 0x80 then [n]
    else if n < 0x800 then [0xC0 + n / 0x40, 0x80 + n % 0x40]
    else if n < 0x1_0000 then [0xE0 + n / 0x1000, 0x80 + n / 0x40 % 0x40, 0x80 + n % 0x40]
    else [0xF0 + n / 0x4_0000, 0x80 + n / 0x1000 % 0x40, 0x80 + n / 0x40 % 0x40, 0x80 + n % 0x40]
  }

  // -------------------------------------------------------------------------
  // The normal form

  predicate BeginsEscape(s: string) {
    |s| >= 3 && s[0] == '%' && IsHex(s[1]) && IsHex(s[2])
  }

  function FromEscape(s: string): (n: string)
    requires BeginsEscape(s)
    ensures |n| == 1 || |n| == 3
  {
    var octet := 16 * HexValue(s[1]) + HexValue(s[2]);
    if IsUnreserved(octet) then [octet as char] else Escape(octet)
  }

  function FromCharacter(c: char): string {
    if c < '\U{80}' then [c] else Escapes(Utf8(c))
  }

  function Normal(s: string): (n: string) {
    if s == "" then ""
    else if BeginsEscape(s) then FromEscape(s) + Normal(s[3..])
    else FromCharacter(s[0]) + Normal(s[1..])
  }

  predicate IsNormal(s: string) {
    Normal(s) == s
  }

  predicate IsAscii(s: string) {
    forall i :: 0 <= i < |s| ==> s[i] < '\U{80}'
  }

  /** A character that normal forms neither make nor lose: the special ones of a pattern. */
  predicate IsSpecial(c: char) {
    c == '*' || c == '$'
  }

  lemma {:induction false} EscapesAre(octets: seq<nat>, c: char)
    requires forall i :: 0 <= i < |octets| ==> octets[i] < 256
    ensures IsAscii(Escapes(octets)) && |Escapes(octets)| == 3 * |octets|
    ensures octets != [] ==> Escapes(octets)[0] == '%' && IsHex(Escapes(octets)[|Escapes(octets)| - 1])
    ensures IsSpecial(c) ==> c !in Escapes(octets)
  {
    if octets != [] {
      EscapesAre(octets[1..], c);
    }
  }

  lemma HeadOfEscape(s: string, c: char)
    requires BeginsEscape(s)
    ensures IsAscii(FromEscape(s)) && (IsSpecial(c) ==> c !in FromEscape(s) && c !in s[..3])
    ensures |FromEscape(s)| == 1 ==> FromEscape(s)[0] != '%'
    ensures !IsSpecial(FromEscape(s)[|FromEscape(s)| - 1]) && !IsSpecial(s[2])
  {
  }

  lemma HeadOfCharacter(d: char, c: char)
    ensures IsAscii(FromCharacter(d)) && FromCharacter(d) != ""
    ensures IsSpecial(c) ==> (c in FromCharacter(d) <==> c == d)
    ensures d >= '\U{80}' ==> FromCharacter(d)[0] == '%'
    ensures var last := FromCharacter(d)[|FromCharacter(d)| - 1]; IsSpecial(last) || IsSpecial(d) ==> last == d
  {
    EscapesAre(Utf8(d), c);
  }

  lemma {:induction false} NormalIsAscii(s: string)
    ensures IsAscii(Normal(s)) && (Normal(s) == "" <==> s == "")
  {
    if BeginsEscape(s) {
      HeadOfEscape(s, '*');
      NormalIsAscii(s[3..]);
    } else if s != "" {
      HeadOfCharacter(s[0], '*');
      NormalIsAscii(s[1..]);
    }
  }

  lemma {:induction false} AsciiByteLength(s: string)
    requires IsAscii(s)
    ensures ByteLength(s) == |s|
  {
    if s != "" {
      AsciiByteLength(s[1..]);
    }
  }

  /** Stars and dollar signs stay. */
  lemma {:induction false} SpecialStays(s: string, c: char)
    requires IsSpecial(c)
    ensures c in Normal(s) <==> c in s
  {
    if BeginsEscape(s) {
      HeadOfEscape(s, c);
      SpecialStays(s[3..], c);
      assert s == s[..3] + s[3..];
    } else if s != "" {
      HeadOfCharacter(s[0], c);
      SpecialStays(s[1..], c);
      assert s == [s[0]] + s[1..];
    }
  }

  /** A dollar sign at the end stays there, and none comes to stand there. */
  lemma {:induction false} EndStays(s: string)
    requires s != ""
    ensures Normal(s) != ""
    ensures Normal(s)[|Normal(s)| - 1] == '$' <==> s[|s| - 1] == '$'
  {
    NormalIsAscii(s);
    if BeginsEscape(s) {
      HeadOfEscape(s, '$');
      NormalIsAscii(s[3..]);
      if s[3..] != "" {
        EndStays(s[3..]);
      }
    } else {
      HeadOfCharacter(s[0], '$');
      NormalIsAscii(s[1..]);
      if s[1..] != "" {
        EndStays(s[1..]);
      }
    }
  }

  lemma {:induction false} PlainIsNormal(s: string)
    requires IsAscii(s) && '%' !in s
    ensures IsNormal(s)
  {
    if s != "" {
      PlainIsNormal(s[1..]);
    }
  }

  // -------------------------------------------------------------------------
  // Prefixes of normal forms

  /** What comes first is an escape or a character, and stays as it is. */
  predicate HasNormalHead(s: string)
    requires s != ""
  {
    if BeginsEscape(s) then FromEscape(s) == s[..3] else s[0] < '\U{80}'
  }

  function HeadWidth(s: string): (width: nat)
    requires s != ""
    ensures 0 < width <= |s|
  {
    if BeginsEscape(s) then 3 else 1
  }

  /** A normal form, part by part. */
  lemma NormalParts(s: string)
    requires s != ""
    ensures IsNormal(s) <==> HasNormalHead(s) && IsNormal(s[HeadWidth(s)..])
  {
    if BeginsEscape(s) {
      HeadOfEscape(s, '*');
      assert (FromEscape(s) + Normal(s[3..]))[0] == FromEscape(s)[0];
      assert s == s[..3] + s[3..];
    } else {
      HeadOfCharacter(s[0], '*');
      assert (FromCharacter(s[0]) + Normal(s[1..]))[0] == FromCharacter(s[0])[0];
      assert s == [s[0]] + s[1..];
    }
  }

  /** A prefix of a normal form is one, even where it cuts an escape. */
  lemma {:induction false} PrefixIsNormal(p: string, q: string)
    requires p <= q && IsNormal(q)
    ensures IsNormal(p)
  {
    if p != "" {
      NormalParts(q);
      if BeginsEscape(p) {
        PrefixIsNormal(p[3..], q[3..]);
        assert p[..3] == q[..3] && FromEscape(p) == FromEscape(q);
      } else if BeginsEscape(q) {
        CutEscape(p);
      } else {
        PrefixIsNormal(p[1..], q[1..]);
      }
    }
  }

  lemma CutEscape(p: string)
    requires p == "%" || (|p| == 2 && p[0] == '%' && IsHex(p[1]))
    ensures IsNormal(p)
  {
    PlainIsNormal(p[1..]);
    assert p == [p[0]] + p[1..];
  }

  // -------------------------------------------------------------------------
  // Normal forms of strings without stray percent signs

  /** Every percent sign begins an escape. */
  ghost predicate IsWellFormed(s: string) {
    forall i :: 0 <= i < |s| && s[i] == '%' ==> BeginsEscape(s[i..])
  }

  lemma RestIsWellFormed(s: string, n: nat)
    requires IsWellFormed(s) && n <= |s|
    ensures IsWellFormed(s[n..])
  {
    forall i | 0 <= i < |s[n..]| && s[n..][i] == '%'
      ensures BeginsEscape(s[n..][i..])
    {
      assert s[n..][i..] == s[n + i..];
    }
  }

  lemma AfterCharacter(c: char, n: string)
    requires IsNormal(n) && c < '\U{80}' && c != '%'
    ensures IsNormal([c] + n)
  {
    assert ([c] + n)[1..] == n;
  }

  lemma AfterEscape(octet: nat, n: string)
    requires IsNormal(n) && octet < 256 && !IsUnreserved(octet)
    ensures IsNormal(Escape(octet) + n)
  {
    var s := Escape(octet) + n;
    assert s[3..] == n && BeginsEscape(s);
    assert 16 * HexValue(s[1]) + HexValue(s[2]) == octet;
  }

  lemma {:induction false} AfterEscapes(octets: seq<nat>, n: string)
    requires IsNormal(n) && forall i :: 0 <= i < |octets| ==> 128 <= octets[i] < 256
    ensures IsNormal(Escapes(octets) + n)
  {
    if octets == [] {
      assert Escapes(octets) + n == n;
    } else {
      AfterEscapes(octets[1..], n);
      AfterEscape(octets[0], Escapes(octets[1..]) + n);
      assert Escapes(octets) + n == Escape(octets[0]) + (Escapes(octets[1..]) + n);
    }
  }

  /** The normal form is in normal form. */
  lemma {:induction false} WellFormedBecomesNormal(s: string)
    requires IsWellFormed(s)
    ensures IsNormal(Normal(s))
  {
    if s != "" {
      if BeginsEscape(s) {
        RestIsWellFormed(s, 3);
        WellFormedBecomesNormal(s[3..]);
        HeadOfEscape(s, '*');
        var octet := 16 * HexValue(s[1]) + HexValue(s[2]);
        if IsUnreserved(octet) {
          AfterCharacter(octet as char, Normal(s[3..]));
        } else {
          AfterEscape(octet, Normal(s[3..]));
        }
      } else {
        assert s[0..] == s;
        RestIsWellFormed(s, 1);
        WellFormedBecomesNormal(s[1..]);
        if s[0] < '\U{80}' {
          AfterCharacter(s[0], Normal(s[1..]));
        } else {
          AfterEscapes(Utf8(s[0]), Normal(s[1..]));
        }
      }
    }
  }

  // -------------------------------------------------------------------------
  // A path for a pattern

  /** A slash in place of every star. */
  function Filled(s: string): string {
    seq(|s|, i requires 0 <= i < |s| => if s[i] == '*' then '/' else s[i])
  }

  lemma HeadOfFilled(s: string)
    requires s != ""
    ensures HeadWidth(Filled(s)) == HeadWidth(s) && (HasNormalHead(s) ==> HasNormalHead(Filled(s)))
    ensures Filled(s)[HeadWidth(s)..] == Filled(s[HeadWidth(s)..])
  {
    if BeginsEscape(s) {
      assert Filled(s)[..3] == s[..3];
    }
  }

  /** No escape is made or broken by that. */
  lemma {:induction false} FilledIsNormal(s: string)
    requires IsNormal(s)
    ensures IsNormal(Filled(s))
  {
    if s != "" {
      NormalParts(s);
      HeadOfFilled(s);
      FilledIsNormal(s[HeadWidth(s)..]);
      NormalParts(Filled(s));
    }
  }

  /** A character that is in no escape. */
  predicate IsApart(c: char) {
    IsSpecial(c) || c == '/'
  }

  lemma HeadOfJoined(a: string, c: char, b: string)
    requires a != "" && IsApart(c)
    ensures HeadWidth(a + [c] + b) == HeadWidth(a) && (HasNormalHead(a + [c] + b) <==> HasNormalHead(a))
    ensures (a + [c] + b)[HeadWidth(a)..] == a[HeadWidth(a)..] + [c] + b
  {
    var s := a + [c] + b;
    assert s[|a|] == c && forall i :: 0 <= i < |a| ==> s[i] == a[i];
    if BeginsEscape(a) {
      assert s[..3] == a[..3];
    }
  }

  /** Around such a character both sides are normal forms exactly when the whole is one. */
  lemma {:induction false} JoinedIsNormal(a: string, c: char, b: string)
    requires IsApart(c)
    ensures IsNormal(a + [c] + b) <==> IsNormal(a) && IsNormal(b)
    decreases |a|
  {
    if a == "" {
      var s := a + [c] + b;
      NormalParts(s);
      assert s[1..] == b;
    } else {
      NormalParts(a);
      HeadOfJoined(a, c, b);
      NormalParts(a + [c] + b);
      JoinedIsNormal(a[HeadWidth(a)..], c, b);
    }
  }
}
