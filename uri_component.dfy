/**
 * JavaScript's `encodeURIComponent` (ECMA-262, the Encode abstract operation): every
 * character outside the unescaped set is written as the UTF-8 octets of its code point
 * (RFC 3629), each octet as "%" and two upper-case hexadecimal digits (RFC 3986 section
 * 2.1). The decoder is the inverse a mail client applies to a `mailto:` header value
 * (RFC 6068 section 2); it is the partner of the encoder, not something the page runs.
 */
module UriComponent {
  import opened Wrappers

  newtype byte = x: int | 0 <= x < 256

  /** The set `encodeURIComponent` leaves as it is: ASCII letters, digits and - _ . ! ~ * ' ( ). */
  predicate IsUnescaped(c: char) {
    ('A' <= c <= 'Z') || ('a' <= c <= 'z') || ('0' <= c <= '9') ||
    c == '-' || c == '_' || c == '.' || c == '!' || c == '~' || c == '*' || c == '\'' || c == '(' || c == ')'
  }

  /** The UTF-8 octets of one Unicode scalar value (RFC 3629 section 3). */
  function Utf8Char(c: char): (bs: seq<byte>)
    ensures 1 <= |bs| <= 4
    ensures |bs| == 1 <==> c as int < 0x80
    ensures |bs| == 1 ==> bs[0] as int == c as int
  {
    var n := c as int;
    if n < 0x80 then [n as byte]
    else if n < 0x800 then [(0xC0 + n / 64) as byte, (0x80 + n % 64) as byte]
    else if n < 0x10000 then
      [(0xE0 + n / 4096) as byte, (0x80 + (n / 64) % 64) as byte, (0x80 + n % 64) as byte]
    else
      [(0xF0 + n / 262144) as byte, (0x80 + (n / 4096) % 64) as byte,
       (0x80 + (n / 64) % 64) as byte, (0x80 + n % 64) as byte]
  }

  function Utf8(s: string): seq<byte> {
    if |s| == 0 then [] else Utf8Char(s[0]) + Utf8(s[1..])
  }

  predicate IsContinuation(b: byte) {
    0x80 <= b < 0xC0
  }

  function Payload(b: byte): int {
    b as int % 64
  }

  /** `Some` with the character whose code point is `n`, if `n` is a scalar value of at least `least` (no overlong form). */
  function ScalarOf(n: int, least: int, len: nat): (r: Option<(char, nat)>)
    ensures r.Some? ==> r.value.0 as int == n && r.value.1 == len
  {
    if least <= n && (0 <= n < 0xD800 || 0xE000 <= n < 0x11_0000) then Some((n as char, len)) else None
  }

  /** Decodes the UTF-8 sequence at the start of `bs`: its character and how many octets it took. */
  function Utf8DecodeFirst(bs: seq<byte>): (r: Option<(char, nat)>)
    ensures r.Some? ==> 1 <= r.value.1 <= |bs|
  {
    if |bs| == 0 then None
    else
      var b0 := bs[0] as int;
      if b0 < 0x80 then Some((b0 as char, 1))
      else if 0xC0 <= b0 < 0xE0 then
        if |bs| >= 2 && IsContinuation(bs[1])
        then ScalarOf((b0 - 0xC0) * 64 + Payload(bs[1]), 0x80, 2) else None
      else if 0xE0 <= b0 < 0xF0 then
        if |bs| >= 3 && IsContinuation(bs[1]) && IsContinuation(bs[2])
        then ScalarOf((b0 - 0xE0) * 4096 + Payload(bs[1]) * 64 + Payload(bs[2]), 0x800, 3) else None
      else if 0xF0 <= b0 < 0xF8 then
        if |bs| >= 4 && IsContinuation(bs[1]) && IsContinuation(bs[2]) && IsContinuation(bs[3])
        then ScalarOf((b0 - 0xF0) * 262144 + Payload(bs[1]) * 4096 + Payload(bs[2]) * 64 + Payload(bs[3]), 0x1_0000, 4)
        else None
      else None
  }

  /** Decodes a whole octet sequence; None if it is not well-formed UTF-8. */
  function Utf8Decode(bs: seq<byte>): Option<string>
    decreases |bs|
  {
    if |bs| == 0 then Some([])
    else match Utf8DecodeFirst(bs)
      case None => None
      case Some((c, len)) =>
        match Utf8Decode(bs[len..])
        case None => None
        case Some(rest) => Some([c] + rest)
  }

  /** An upper-case hexadecimal digit. */
  function HexDigit(d: int): (c: char)
    requires 0 <= d < 16
    ensures IsUnescaped(c)
  {
    if d < 10 then ('0' as int + d) as char else ('A' as int + d - 10) as char
  }

  /** The value of a hexadecimal digit of either case. */
  function HexValue(c: char): (r: Option<int>)
    ensures r.Some? ==> 0 <= r.value < 16
  {
    if '0' <= c <= '9' then Some(c as int - '0' as int)
    else if 'A' <= c <= 'F' then Some(c as int - 'A' as int + 10)
    else if 'a' <= c <= 'f' then Some(c as int - 'a' as int + 10)
    else None
  }

  function PercentOctet(b: byte): string {
    ['%', HexDigit(b as int / 16), HexDigit(b as int % 16)]
  }

  function PercentOctets(bs: seq<byte>): (t: string)
    ensures forall k :: 0 <= k < |t| ==> IsUnescaped(t[k]) || t[k] == '%'
  {
    if |bs| == 0 then "" else PercentOctet(bs[0]) + PercentOctets(bs[1..])
  }

  /** How `encodeURIComponent` writes one character. */
  function EncodeChar(c: char): (t: string)
    ensures forall k :: 0 <= k < |t| ==> IsUnescaped(t[k]) || t[k] == '%'
  {
    if IsUnescaped(c) then [c] else PercentOctets(Utf8Char(c))
  }

  /** `encodeURIComponent(s)`. Its output holds only unescaped characters and "%", so none of the mailto delimiters ? & = #. */
  function EncodeUriComponent(s: string): (e: string)
    ensures forall k :: 0 <= k < |e| ==> IsUnescaped(e[k]) || e[k] == '%'
  {
    if |s| == 0 then "" else EncodeChar(s[0]) + EncodeUriComponent(s[1..])
  }

  /** Percent-decoding (RFC 3986 section 2.1): "%" HEXDIG HEXDIG is one octet, any other character its own UTF-8 octets. */
  function PercentDecode(t: string): Option<seq<byte>>
    decreases |t|
  {
    if |t| == 0 then Some([])
    else if t[0] == '%' then
      if |t| >= 3 && HexValue(t[1]).Some? && HexValue(t[2]).Some? then
        match PercentDecode(t[3..])
        case None => None
        case Some(rest) => Some([(HexValue(t[1]).value * 16 + HexValue(t[2]).value) as byte] + rest)
      else None
    else
      match PercentDecode(t[1..])
      case None => None
      case Some(rest) => Some(Utf8Char(t[0]) + rest)
  }

  /** What a reader of the URI recovers from a percent-encoded component. */
  function DecodeUriComponent(t: string): Option<string> {
    match PercentDecode(t)
    case None => None
    case Some(bs) => Utf8Decode(bs)
  }

  // ----- round trips -----

  lemma Utf8CharDecodes(c: char, rest: seq<byte>)
    ensures Utf8DecodeFirst(Utf8Char(c) + rest) == Some((c, |Utf8Char(c)|))
  {
    var n := c as int;
    var bs := Utf8Char(c) + rest;
    if n < 0x80 {
    } else if n < 0x800 {
      assert Payload(bs[1]) == n % 64;
      assert (n / 64) * 64 + n % 64 == n;
    } else if n < 0x10000 {
      assert Payload(bs[1]) == (n / 64) % 64;
      assert Payload(bs[2]) == n % 64;
      assert n / 64 == (n / 4096) * 64 + (n / 64) % 64;
      assert n == (n / 64) * 64 + n % 64;
    } else {
      assert Payload(bs[1]) == (n / 4096) % 64;
      assert Payload(bs[2]) == (n / 64) % 64;
      assert Payload(bs[3]) == n % 64;
      assert n / 4096 == (n / 262144) * 64 + (n / 4096) % 64;
      assert n / 64 == (n / 4096) * 64 + (n / 64) % 64;
      assert n == (n / 64) * 64 + n % 64;
    }
  }

  /** UTF-8 decoding undoes UTF-8 encoding. */
  lemma {:induction false} Utf8RoundTrip(s: string)
    ensures Utf8Decode(Utf8(s)) == Some(s)
  {
    if |s| > 0 {
      var head := Utf8Char(s[0]);
      Utf8CharDecodes(s[0], Utf8(s[1..]));
      assert (head + Utf8(s[1..]))[|head|..] == Utf8(s[1..]);
      Utf8RoundTrip(s[1..]);
      assert [s[0]] + s[1..] == s;
    }
  }

  lemma HexDigitValue(d: int)
    requires 0 <= d < 16
    ensures HexValue(HexDigit(d)) == Some(d)
  {
  }

  lemma {:induction false} PercentOctetsDecode(bs: seq<byte>, t: string, rest: seq<byte>)
    requires PercentDecode(t) == Some(rest)
    ensures PercentDecode(PercentOctets(bs) + t) == Some(bs + rest)
  {
    if |bs| > 0 {
      var b := bs[0] as int;
      var u := PercentOctets(bs) + t;
      PercentOctetsDecode(bs[1..], t, rest);
      HexDigitValue(b / 16);
      HexDigitValue(b % 16);
      assert u[0] == '%' && u[1] == HexDigit(b / 16) && u[2] == HexDigit(b % 16);
      assert u[3..] == PercentOctets(bs[1..]) + t;
      assert (b / 16) * 16 + b % 16 == b;
      assert (HexValue(u[1]).value * 16 + HexValue(u[2]).value) as byte == bs[0];
      assert PercentDecode(u[3..]) == Some(bs[1..] + rest);
      assert [bs[0]] + (bs[1..] + rest) == bs + rest;
    } else {
      assert PercentOctets(bs) + t == t;
      assert bs + rest == rest;
    }
  }

  lemma EncodeCharDecode(c: char, t: string, rest: seq<byte>)
    requires PercentDecode(t) == Some(rest)
    ensures PercentDecode(EncodeChar(c) + t) == Some(Utf8Char(c) + rest)
  {
    if IsUnescaped(c) {
      var u := [c] + t;
      assert u[0] == c && u[1..] == t;
    } else {
      PercentOctetsDecode(Utf8Char(c), t, rest);
    }
  }

  /** Percent-decoding the encoder's output gives back the UTF-8 octets of the input. */
  lemma {:induction false} PercentDecodeOfEncode(s: string)
    ensures PercentDecode(EncodeUriComponent(s)) == Some(Utf8(s))
  {
    if |s| > 0 {
      PercentDecodeOfEncode(s[1..]);
      EncodeCharDecode(s[0], EncodeUriComponent(s[1..]), Utf8(s[1..]));
    }
  }

  /** Decoding undoes `encodeURIComponent` for every string. */
  lemma EncodeRoundTrip(s: string)
    ensures DecodeUriComponent(EncodeUriComponent(s)) == Some(s)
  {
    PercentDecodeOfEncode(s);
    Utf8RoundTrip(s);
  }

  /** Text without "%" decodes to itself (an address or header name written literally). */
  lemma {:induction false} DecodeLiteral(s: string)
    requires '%' !in s
    ensures DecodeUriComponent(s) == Some(s)
  {
    PercentDecodeLiteral(s);
    Utf8RoundTrip(s);
  }

  lemma {:induction false} PercentDecodeLiteral(s: string)
    requires '%' !in s
    ensures PercentDecode(s) == Some(Utf8(s))
  {
    if |s| > 0 {
      assert s[0] != '%';
      PercentDecodeLiteral(s[1..]);
    }
  }
}
