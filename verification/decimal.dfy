/** Decimal digit strings: Python's `str(n)` for a natural number and
    `int(s)` for a string, restricted to ASCII. */
module Decimal {
  import opened Types


  predicate IsDigit(c: char) { '0' <= c <= '9' }

  predicate AllDigits(s: string) { forall i :: 0 <= i < |s| ==> IsDigit(s[i]) }

  function DigitChar(d: nat): (c: char)
    requires d < 10
    ensures IsDigit(c)
  {
    ['0', '1', '2', '3', '4', '5', '6', '7', '8', '9'][d]
  }

  function DigitOf(c: char): (d: nat)
    requires IsDigit(c)
    ensures d < 10 && DigitChar(d) == c
  {
    c as int - '0' as int
  }

  /** `int(s)` on a string of ASCII digits (leading zeros allowed). */
  function DigitsValue(s: string): nat
    requires AllDigits(s)
  {
    if |s| == 0 then 0 else DigitsValue(s[..|s| - 1]) * 10 + DigitOf(s[|s| - 1])
  }

  /** `str(n)` for `n >= 0`: the shortest decimal spelling, parsed back by `int`. */
  function NatToString(n: nat): (s: string)
    ensures |s| > 0 && AllDigits(s)
    ensures DigitsValue(s) == n
    ensures s[0] == '0' ==> n == 0
  {
    if n < 10 then [DigitChar(n)]
    else
      var p := NatToString(n / 10);
      var s := p + [DigitChar(n % 10)];
      assert s[..|s| - 1] == p;
      s
  }

  /** `str` is injective on naturals. */
  lemma NatToStringInjective(a: nat, b: nat)
    requires NatToString(a) == NatToString(b)
    ensures a == b
  {
  }

  /** Length of the maximal run of ASCII digits at the front of `s`: what a
      greedy `\d*` consumes. */
  function LeadingDigits(s: string): (n: nat)
    ensures n <= |s|
    ensures AllDigits(s[..n])
    ensures n < |s| ==> !IsDigit(s[n])
  {
    if |s| == 0 || !IsDigit(s[0]) then 0
    else
      var k := LeadingDigits(s[1..]);
      assert s[..k + 1] == [s[0]] + s[1..][..k];
      k + 1
  }

  /** The run is determined by its content: a digit string followed by a
      non-digit (or nothing) is exactly the leading run. */
  lemma {:induction false} LeadingDigitsOf(d: string, rest: string)
    requires AllDigits(d)
    requires |rest| > 0 ==> !IsDigit(rest[0])
    ensures LeadingDigits(d + rest) == |d|
  {
    if |d| > 0 {
      assert (d + rest)[1..] == d[1..] + rest;
      LeadingDigitsOf(d[1..], rest);
    }
  }

  /** The ASCII whitespace `int()` strips: space, tab, line feed, vertical
      tab, form feed and carriage return. */
  predicate IsSpace(c: char) { c == ' ' || 9 <= c as int <= 13 }

  predicate AllSpaces(s: string) { forall i :: 0 <= i < |s| ==> IsSpace(s[i]) }

  /** `s` without its leading whitespace. */
  function TrimStart(s: string): (t: string)
    ensures |t| <= |s|
    ensures |t| > 0 ==> !IsSpace(t[0])
  {
    if |s| > 0 && IsSpace(s[0]) then TrimStart(s[1..]) else s
  }

  /** `s` without its trailing whitespace. */
  function TrimEnd(s: string): (t: string)
    ensures |t| <= |s|
    ensures |t| > 0 ==> !IsSpace(t[|t| - 1])
  {
    if |s| > 0 && IsSpace(s[|s| - 1]) then TrimEnd(s[..|s| - 1]) else s
  }

  /** The text `int()` reads: `s` with the whitespace around it removed. */
  function Strip(s: string): string
  {
    TrimEnd(TrimStart(s))
  }

  /** Only digits and separators. */
  predicate GroupChars(u: string) { forall i :: 0 <= i < |u| ==> IsDigit(u[i]) || u[i] == '_' }

  /** The digit part of a base-10 literal: ASCII digits, where a single
      `_` may separate two digits (PEP 515). */
  predicate Grouped(u: string)
  {
    && |u| > 0 && IsDigit(u[0]) && IsDigit(u[|u| - 1])
    && GroupChars(u)
    && (forall i :: 0 <= i < |u| - 1 && u[i] == '_' ==> IsDigit(u[i + 1]))
  }

  /** The digits of a grouped literal with its separators dropped. */
  function Ungroup(u: string): (d: string)
    requires GroupChars(u)
    ensures AllDigits(d)
    ensures AllDigits(u) ==> d == u
    ensures |u| > 0 && IsDigit(u[0]) ==> |d| > 0
  {
    if |u| == 0 then ""
    else (if u[0] == '_' then "" else [u[0]]) + Ungroup(u[1..])
  }

  /** A literal with no whitespace around it: an optional sign, then
      digits with single `_` separators. */
  function ReadLiteral(t: string): (r: Option<int>)
    ensures AllDigits(t) && |t| > 0 ==> r == Some(DigitsValue(t))
    ensures r.Some? ==> |t| > 0 && (IsDigit(t[0]) || t[0] == '+' || t[0] == '-')
    ensures r.Some? && r.value < 0 ==> t[0] == '-'
  {
    var u := if |t| > 0 && (t[0] == '+' || t[0] == '-') then t[1..] else t;
    if !Grouped(u) then None
    else if t[0] == '-' then Some(0 - DigitsValue(Ungroup(u)))
    else Some(DigitsValue(Ungroup(u)))
  }

  /** `int(s)` in base 10: the whitespace around the literal is stripped;
      `None` where `int` raises `ValueError`. */
  function ParseInt(s: string): (r: Option<int>)
    ensures AllDigits(s) && |s| > 0 ==> r == Some(DigitsValue(s))
    ensures r.Some? ==> |Strip(s)| > 0 && (IsDigit(Strip(s)[0]) || Strip(s)[0] == '+' || Strip(s)[0] == '-')
    ensures r.Some? && r.value < 0 ==> Strip(s)[0] == '-'
  {
    if AllDigits(s) && |s| > 0 then
      assert Strip(s) == s by { StripBare(s); }
      ReadLiteral(s)
    else ReadLiteral(Strip(s))
  }

  /** Text that neither starts nor ends with whitespace is its own strip. */
  lemma StripBare(t: string)
    requires |t| > 0 && !IsSpace(t[0]) && !IsSpace(t[|t| - 1])
    ensures Strip(t) == t
  {
  }

  lemma ParseIntOfBare(t: string)
    requires |t| > 0 && !IsSpace(t[0]) && !IsSpace(t[|t| - 1])
    ensures ParseInt(t) == ReadLiteral(t)
  {
    StripBare(t);
  }

  lemma DigitsGrouped(d: string)
    requires |d| > 0 && AllDigits(d)
    ensures Grouped(d) && Ungroup(d) == d
  {
  }

  /** Whitespace around a literal does not change what `int` reads. */
  lemma ParseIntPadded(pre: string, t: string, post: string)
    requires AllSpaces(pre) && AllSpaces(post)
    requires |t| > 0 && !IsSpace(t[0]) && !IsSpace(t[|t| - 1])
    ensures ParseInt(pre + t + post) == ParseInt(t)
  {
    assert pre + t + post == pre + (t + post);
    TrimStartPadded(pre, t + post);
    TrimEndPadded(t, post);
    StripBare(t);
    assert Strip(pre + t + post) == Strip(t);
  }

  lemma {:induction false} TrimStartPadded(pre: string, t: string)
    requires AllSpaces(pre) && |t| > 0 && !IsSpace(t[0])
    ensures TrimStart(pre + t) == t
    decreases |pre|
  {
    if |pre| > 0 {
      assert (pre + t)[1..] == pre[1..] + t;
      TrimStartPadded(pre[1..], t);
    }
  }

  lemma {:induction false} TrimEndPadded(t: string, post: string)
    requires AllSpaces(post) && |t| > 0 && !IsSpace(t[|t| - 1])
    ensures TrimEnd(t + post) == t
    decreases |post|
  {
    if |post| > 0 {
      assert (t + post)[..|t + post| - 1] == t + post[..|post| - 1];
      TrimEndPadded(t, post[..|post| - 1]);
    } else {
      assert t + post == t;
    }
  }

  /** A sign in front of the digits: `int("-12") == -12`, `int("+12") == 12`. */
  lemma ParseIntSigned(t: string)
    requires |t| > 1 && (t[0] == '-' || t[0] == '+') && AllDigits(t[1..])
    ensures ParseInt(t) == Some(if t[0] == '-' then 0 - DigitsValue(t[1..]) else DigitsValue(t[1..]))
  {
    DigitsGrouped(t[1..]);
    assert t[|t| - 1] == t[1..][|t| - 2];
    ParseIntOfBare(t);
  }

  /** An underscore between two digit runs is dropped: `int("1_000") == 1000`. */
  lemma ParseIntUnderscore(t: string, k: nat)
    requires 0 < k < |t| - 1 && t[k] == '_' && AllDigits(t[..k]) && AllDigits(t[k + 1..])
    ensures ParseInt(t) == Some(DigitsValue(t[..k] + t[k + 1..]))
  {
    UnderscoreGrouped(t, k);
    ParseIntOfBare(t);
    assert IsDigit(t[0]);
  }

  lemma UnderscoreGrouped(t: string, k: nat)
    requires 0 < k < |t| - 1 && t[k] == '_' && AllDigits(t[..k]) && AllDigits(t[k + 1..])
    ensures Grouped(t) && AllDigits(t[..k] + t[k + 1..]) && Ungroup(t) == t[..k] + t[k + 1..]
  {
    UnderscoreCharset(t, k);
    UnderscoreSeparates(t, k);
    assert t[0] == t[..k][0] && t[|t| - 1] == t[k + 1..][|t| - k - 2];
    UnderscoreUngroup(t, k);
  }

  lemma UnderscoreCharset(t: string, k: nat)
    requires 0 < k < |t| - 1 && t[k] == '_' && AllDigits(t[..k]) && AllDigits(t[k + 1..])
    ensures GroupChars(t)
    ensures forall i :: 0 <= i < |t| && i != k ==> IsDigit(t[i])
  {
    forall i | 0 <= i < |t| && i != k ensures IsDigit(t[i]) {
      if i < k { assert t[i] == t[..k][i]; } else { assert t[i] == t[k + 1..][i - k - 1]; }
    }
  }

  lemma UnderscoreSeparates(t: string, k: nat)
    requires 0 < k < |t| - 1 && forall i :: 0 <= i < |t| && i != k ==> IsDigit(t[i])
    ensures forall i :: 0 <= i < |t| - 1 && t[i] == '_' ==> IsDigit(t[i + 1])
  {
  }

  lemma UnderscoreUngroup(t: string, k: nat)
    requires 0 < k < |t| - 1 && t[k] == '_' && AllDigits(t[..k]) && AllDigits(t[k + 1..])
    requires GroupChars(t)
    ensures Ungroup(t) == t[..k] + t[k + 1..]
  {
    var rest := t[k..];
    assert t == t[..k] + rest;
    assert rest[1..] == t[k + 1..];
    assert GroupChars(t[..k]);
    assert GroupChars(rest) by { assert rest[0] == '_'; }
    UngroupAppend(t[..k], rest);
  }

  lemma {:induction false} UngroupAppend(x: string, y: string)
    requires GroupChars(x) && GroupChars(y)
    ensures Ungroup(x + y) == Ungroup(x) + Ungroup(y)
    decreases |x|
  {
    if |x| == 0 {
      assert x + y == y;
    } else {
      assert (x + y)[1..] == x[1..] + y;
      UngroupAppend(x[1..], y);
    }
  }

  /** What `int` refuses: nothing, a bare sign, a leading, trailing or
      doubled underscore, and a space between sign and digits. */
  lemma ParseIntRejects()
    ensures ParseInt("") == None && ParseInt("-") == None
    ensures ParseInt("_1") == None && ParseInt("1_") == None && ParseInt("1__0") == None
    ensures ParseInt("- 1") == None
  {
    StripBare("-");
    StripBare("_1");
    StripBare("1_");
    StripBare("1__0");
    StripBare("- 1");
    assert !Grouped("1__0") by { assert "1__0"[1] == '_' && "1__0"[2] == '_'; }
    assert !Grouped(" 1") by { assert !IsDigit(" 1"[0]); }
    assert "- 1"[1..] == " 1";
  }
}
