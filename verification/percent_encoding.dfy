/** `urllib.parse.quote(name, safe='')`: the name is encoded as UTF-8 and
    every byte outside the always-safe set (ASCII letters, digits and
    `_.-~`) becomes `%XX` with upper-case hex digits. Used for the
    `filename*=UTF-8''...` parameter of section 3.2 of RFC 5987. Each
    encoder has a decoder here, and the round trips are proved. */
module PercentEncoding {
  import opened Types

  /** Does `name.encode('ascii')` succeed? */
  predicate IsAscii(s: string)
  {
    forall i :: 0 <= i < |s| ==> s[i] as int < 128
  }

  /** Code points that are Unicode scalar values (what a `char` holds). */
  predicate IsScalar(cp: int)
  {
    0 <= cp < 0xD800 || 0xE000 <= cp < 0x11_0000
  }

  /** A UTF-8 continuation byte `10xxxxxx`. */
  predicate IsContinuation(b: byte)
  {
    0x80 <= b < 0xC0
  }

  /** The UTF-8 encoding of one character: one byte for ASCII, then two,
      three or four bytes with the usual lead-byte markers. */
  function EncodeChar(c: char): (b: seq<byte>)
    ensures 1 <= |b| <= 4
    ensures |b| == 1 <==> c as int < 0x80
    ensures |b| == 1 ==> b[0] as int == c as int
    ensures forall i :: 1 <= i < |b| ==> IsContinuation(b[i])
  {
    var cp := c as int;
    if cp < 0x80 then [cp as byte]
    else if cp < 0x800 then [(0xC0 + cp / 64) as byte, (0x80 + cp % 64) as byte]
    else if cp < 0x1_0000 then
      [(0xE0 + cp / 4096) as byte, (0x80 + cp / 64 % 64) as byte, (0x80 + cp % 64) as byte]
    else
      [(0xF0 + cp / 262144) as byte, (0x80 + cp / 4096 % 64) as byte,
       (0x80 + cp / 64 % 64) as byte, (0x80 + cp % 64) as byte]
  }

  /** `s.encode('utf-8')`. */
  function Utf8(s: string): (b: seq<byte>)
    ensures |b| >= |s|
    ensures |b| == |s| <==> IsAscii(s)
  {
    if |s| == 0 then [] else EncodeChar(s[0]) + Utf8(s[1..])
  }

  /** The value of the low six bits of a continuation byte. */
  function Low6(b: byte): int { b as int - 0x80 }

  /** Decode the character at the front of `b` and say how many bytes it
      took; `None` when the front is not a well-formed sequence. */
  function DecodeChar(b: seq<byte>): (r: Option<(char, nat)>)
    ensures r.Some? ==> 1 <= r.value.1 <= |b|
  {
    if |b| == 0 then None
    else if b[0] < 0x80 then Some((b[0] as int as char, 1))
    else if 0xC0 <= b[0] < 0xE0 && |b| >= 2 && IsContinuation(b[1]) then
      var cp := (b[0] as int - 0xC0) * 64 + Low6(b[1]);
      if IsScalar(cp) then Some((cp as char, 2)) else None
    else if 0xE0 <= b[0] < 0xF0 && |b| >= 3 && IsContinuation(b[1]) && IsContinuation(b[2]) then
      var cp := (b[0] as int - 0xE0) * 4096 + Low6(b[1]) * 64 + Low6(b[2]);
      if IsScalar(cp) then Some((cp as char, 3)) else None
    else if 0xF0 <= b[0] < 0xF8 && |b| >= 4 && IsContinuation(b[1]) && IsContinuation(b[2])
         && IsContinuation(b[3]) then
      var cp := (b[0] as int - 0xF0) * 262144 + Low6(b[1]) * 4096 + Low6(b[2]) * 64 + Low6(b[3]);
      if IsScalar(cp) then Some((cp as char, 4)) else None
    else None
  }

  /** `b.decode('utf-8')`, `None` where that raises. */
  function Utf8Decode(b: seq<byte>): Option<string>
    decreases |b|
  {
    if |b| == 0 then Some([])
    else
      match DecodeChar(b)
      case None => None
      case Some((c, n)) =>
        match Utf8Decode(b[n..])
        case None => None
        case Some(rest) => Some([c] + rest)
  }

  /** The decoder reads back exactly the character the encoder wrote,
      whatever follows it. */
  lemma DecodeEncodedChar(c: char, rest: seq<byte>)
    ensures DecodeChar(EncodeChar(c) + rest) == Some((c, |EncodeChar(c)|))
  {
    var cp := c as int;
    if cp < 0x80 {
      assert (EncodeChar(c) + rest)[0] as int == cp;
    } else if cp < 0x800 {
      DecodeTwo(c, rest);
    } else if cp < 0x1_0000 {
      DecodeThree(c, rest);
    } else {
      DecodeFour(c, rest);
    }
  }

  lemma DecodeTwo(c: char, rest: seq<byte>)
    requires 0x80 <= c as int < 0x800
    ensures DecodeChar(EncodeChar(c) + rest) == Some((c, 2))
  {
    var cp := c as int;
    var hi, lo := cp / 64, cp % 64;
    assert cp == hi * 64 + lo;
    var b := EncodeChar(c) + rest;
    assert b[0] as int == 0xC0 + hi && b[1] as int == 0x80 + lo;
  }

  lemma DecodeThree(c: char, rest: seq<byte>)
    requires 0x800 <= c as int < 0x1_0000
    ensures DecodeChar(EncodeChar(c) + rest) == Some((c, 3))
  {
    var cp := c as int;
    var hi, mid, lo := cp / 4096, cp / 64 % 64, cp % 64;
    assert cp / 64 == hi * 64 + mid;
    assert cp == (cp / 64) * 64 + lo;
    var b := EncodeChar(c) + rest;
    assert b[0] as int == 0xE0 + hi && b[1] as int == 0x80 + mid && b[2] as int == 0x80 + lo;
  }

  lemma DecodeFour(c: char, rest: seq<byte>)
    requires 0x1_0000 <= c as int
    ensures DecodeChar(EncodeChar(c) + rest) == Some((c, 4))
  {
    var cp := c as int;
    var top, hi, mid, lo := cp / 262144, cp / 4096 % 64, cp / 64 % 64, cp % 64;
    assert cp / 4096 == top * 64 + hi;
    assert cp / 64 == (cp / 4096) * 64 + mid;
    assert cp == (cp / 64) * 64 + lo;
    var b := EncodeChar(c) + rest;
    assert b[0] as int == 0xF0 + top && b[1] as int == 0x80 + hi;
    assert b[2] as int == 0x80 + mid && b[3] as int == 0x80 + lo;
  }

  /** UTF-8 round trip: decoding the encoding of a string gives it back. */
  lemma {:induction false} Utf8RoundTrip(s: string)
    ensures Utf8Decode(Utf8(s)) == Some(s)
  {
    if |s| > 0 {
      var e := EncodeChar(s[0]);
      var tail := Utf8(s[1..]);
      DecodeEncodedChar(s[0], tail);
      assert (e + tail)[|e|..] == tail;
      Utf8RoundTrip(s[1..]);
      assert [s[0]] + s[1..] == s;
    }
  }

  /** The characters `quote` never escapes: `string.ascii_letters`,
      `string.digits` and `_.-~`. */
  predicate IsUnreservedChar(c: char)
  {
    || 'A' <= c <= 'Z' || 'a' <= c <= 'z' || '0' <= c <= '9'
    || c == '_' || c == '.' || c == '-' || c == '~'
  }

  /** An upper-case hexadecimal digit, as `quote` writes them. */
  predicate IsHexChar(c: char)
  {
    '0' <= c <= '9' || 'A' <= c <= 'F'
  }

  function HexChar(n: nat): (c: char)
    requires n < 16
    ensures IsHexChar(c) && IsUnreservedChar(c)
  {
    "0123456789ABCDEF"[n]
  }

  function HexValue(c: char): (n: nat)
    requires IsHexChar(c)
    ensures n < 16 && HexChar(n) == c
  {
    if c <= '9' then c as int - '0' as int else c as int - 'A' as int + 10
  }

  /** One byte of `quote`'s output: itself when always safe, else `%XX`. */
  function QuoteByte(b: byte): (s: string)
    ensures |s| == 1 || |s| == 3
    ensures |s| == 1 <==> IsUnreservedChar(b as int as char)
  {
    if b < 128 && IsUnreservedChar(b as int as char) then [b as int as char]
    else ['%', HexChar(b as int / 16), HexChar(b as int % 16)]
  }

  /** `quote_from_bytes(b, safe='')`. */
  function Quote(b: seq<byte>): string
  {
    if |b| == 0 then "" else QuoteByte(b[0]) + Quote(b[1..])
  }

  /** Every character `quote` emits is always safe or a `%` that starts a
      two-hex-digit escape. */
  predicate QuotedForm(s: string)
  {
    && (forall i :: 0 <= i < |s| ==> IsUnreservedChar(s[i]) || s[i] == '%')
    && (forall i :: 0 <= i < |s| && s[i] == '%' ==> i + 2 < |s| && IsHexChar(s[i + 1]) && IsHexChar(s[i + 2]))
  }

  /** `quote`'s output only uses unreserved characters and `%XX` escapes. */
  lemma {:induction false} QuoteForm(b: seq<byte>)
    ensures QuotedForm(Quote(b))
  {
    if |b| > 0 {
      QuoteForm(b[1..]);
      QuoteByteForm(b[0]);
      QuotedFormAppend(QuoteByte(b[0]), Quote(b[1..]));
    }
  }

  lemma QuoteByteForm(x: byte)
    ensures QuotedForm(QuoteByte(x))
  {
  }

  /** Well-formed pieces concatenate to a well-formed string. */
  lemma QuotedFormAppend(h: string, t: string)
    requires QuotedForm(h) && QuotedForm(t)
    ensures QuotedForm(h + t)
  {
    var s := h + t;
    forall i | 0 <= i < |s|
      ensures IsUnreservedChar(s[i]) || s[i] == '%'
      ensures s[i] == '%' ==> i + 2 < |s| && IsHexChar(s[i + 1]) && IsHexChar(s[i + 2])
    {
      if i < |h| {
        assert s[i] == h[i];
        if s[i] == '%' {
          assert s[i + 1] == h[i + 1] && s[i + 2] == h[i + 2];
        }
      } else {
        assert s[i] == t[i - |h|];
        if s[i] == '%' {
          assert s[i + 1] == t[i - |h| + 1] && s[i + 2] == t[i - |h| + 2];
        }
      }
    }
  }

  /** The inverse of `quote`: `%XX` escapes and always-safe characters are
      read back as bytes; anything else is rejected. */
  function PercentDecode(s: string): Option<seq<byte>>
  {
    if |s| == 0 then Some([])
    else if s[0] == '%' then
      if |s| >= 3 && IsHexChar(s[1]) && IsHexChar(s[2]) then
        match PercentDecode(s[3..])
        case None => None
        case Some(rest) => Some([(HexValue(s[1]) * 16 + HexValue(s[2])) as byte] + rest)
      else None
    else if IsUnreservedChar(s[0]) then
      match PercentDecode(s[1..])
      case None => None
      case Some(rest) => Some([s[0] as int as byte] + rest)
    else None
  }

  /** Percent-encoding round trip: decoding `quote`'s output gives back the
      bytes. */
  lemma {:induction false} QuoteRoundTrip(b: seq<byte>)
    ensures PercentDecode(Quote(b)) == Some(b)
  {
    if |b| > 0 {
      QuoteRoundTrip(b[1..]);
      DecodeQuotedByte(b[0], Quote(b[1..]), b[1..]);
      assert [b[0]] + b[1..] == b;
    }
  }

  /** One escaped or kept byte in front of a decodable string decodes to
      that byte in front of the rest. */
  lemma DecodeQuotedByte(x: byte, t: string, r: seq<byte>)
    requires PercentDecode(t) == Some(r)
    ensures PercentDecode(QuoteByte(x) + t) == Some([x] + r)
  {
    if |QuoteByte(x)| == 1 {
      DecodeKept(x, t, r);
    } else {
      DecodeEscaped(x, t, r);
    }
  }

  lemma DecodeKept(x: byte, t: string, r: seq<byte>)
    requires PercentDecode(t) == Some(r)
    requires x < 128 && IsUnreservedChar(x as int as char)
    ensures PercentDecode([x as int as char] + t) == Some([x] + r)
  {
    var s := [x as int as char] + t;
    assert s[0] as int == x as int;
    assert s[1..] == t;
  }

  lemma DecodeEscaped(x: byte, t: string, r: seq<byte>)
    requires PercentDecode(t) == Some(r)
    ensures PercentDecode(['%', HexChar(x as int / 16), HexChar(x as int % 16)] + t) == Some([x] + r)
  {
    var hi, lo := x as int / 16, x as int % 16;
    assert hi * 16 + lo == x as int;
    HexRoundTrip(hi);
    HexRoundTrip(lo);
    var s := ['%', HexChar(hi), HexChar(lo)] + t;
    assert s[3..] == t;
  }

  lemma HexRoundTrip(n: nat)
    requires n < 16
    ensures HexValue(HexChar(n)) == n
  {
  }
}
