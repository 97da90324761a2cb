/** `encodeURIComponent` and `decodeURIComponent`: percent-encoding of UTF-8 octets, section 2.1 of
    RFC 3986. */
module Percent {
  import opened Bytes
  import opened Wrappers

  predicate IsAlphanumeric(c: char) {
    'A' <= c <= 'Z' || 'a' <= c <= 'z' || '0' <= c <= '9'
  }

  predicate Unreserved(c: char) {
    || IsAlphanumeric(c) || c == '-' || c == '_' || c == '.' || c == '!' || c == '~' || c == '*'
    || c == '\'' || c == '(' || c == ')'
  }

  function Escaped(octets: seq<Byte>): string {
    if octets == [] then ""
    else ['%', HexDigit(octets[0] / 16, true), HexDigit(octets[0] % 16, true)] + Escaped(octets[1..])
  }

  function EncodedChar(c: char): string {
    if Unreserved(c) then [c] else Escaped(Utf8(c))
  }

  function Encode(s: string): string {
    if s == "" then "" else EncodedChar(s[0]) + Encode(s[1..])
  }

  /** The octet an escape at the head of `s` stands for. */
  function Octet(s: string): Option<Byte> {
    if |s| < 3 || s[0] != '%' || HexValue(s[1]) < 0 || HexValue(s[2]) < 0 then None
    else Some(16 * HexValue(s[1]) + HexValue(s[2]))
  }

  /** The octets of `n` escapes at the head of `s`. */
  function Octets(s: string, n: nat): (octets: Option<seq<Byte>>)
    ensures octets.Some? ==> |octets.value| == n && 3 * n <= |s|
  {
    if n == 0 then Some([])
    else match Octet(s)
      case None => None
      case Some(first) =>
        match Octets(s[3..], n - 1)
        case None => None
        case Some(rest) => Some([first] + rest)
  }

  /** The code point spelt by the escapes at the head of `s`. */
  function EscapedChar(s: string): Option<(char, nat)> {
    match Octet(s)
    case None => None
    case Some(first) =>
      match Octets(s, Announced(first))
      case None => None
      case Some(octets) =>
        match FromUtf8(octets)
        case None => None
        case Some(c) => Some((c, |octets|))
  }

  function Prepend(c: char, rest: Option<string>): Option<string> {
    match rest
    case None => None
    case Some(s) => Some([c] + s)
  }

  /** `None` where `decodeURIComponent` throws. */
  function Decode(s: string): Option<string>
    decreases |s|
  {
    if s == "" then Some("")
    else if s[0] != '%' then Prepend(s[0], Decode(s[1..]))
    else
      match EscapedChar(s)
      case None => None
      case Some((c, n)) =>
        EscapesFit(s);
        Prepend(c, Decode(s[3 * n..]))
  }

  lemma EscapesFit(s: string)
    requires EscapedChar(s).Some?
    ensures 1 <= EscapedChar(s).value.1 && 3 * EscapedChar(s).value.1 <= |s|
  {
  }

  lemma OctetEscaped(b: Byte, rest: string)
    ensures Octet(['%', HexDigit(b / 16, true), HexDigit(b % 16, true)] + rest) == Some(b)
  {
    HexRoundTrip(b / 16, true);
    HexRoundTrip(b % 16, true);
  }

  lemma {:induction false} OctetsEscaped(octets: seq<Byte>, rest: string)
    ensures Octets(Escaped(octets) + rest, |octets|) == Some(octets)
    ensures |Escaped(octets)| == 3 * |octets|
  {
    if octets != [] {
      var tail := Escaped(octets[1..]) + rest;
      var head := ['%', HexDigit(octets[0] / 16, true), HexDigit(octets[0] % 16, true)];
      assert Escaped(octets) + rest == head + tail && (head + tail)[3..] == tail;
      OctetEscaped(octets[0], tail);
      OctetsEscaped(octets[1..], rest);
      assert octets == [octets[0]] + octets[1..];
    }
  }

  lemma {:induction false} DecodeEscaped(c: char, rest: string)
    ensures Decode(Escaped(Utf8(c)) + rest) == Prepend(c, Decode(rest))
  {
    var octets := Utf8(c);
    var s := Escaped(octets) + rest;
    OctetsEscaped(octets, rest);
    assert s == ['%', HexDigit(octets[0] / 16, true), HexDigit(octets[0] % 16, true)] + (Escaped(octets[1..]) + rest);
    OctetEscaped(octets[0], Escaped(octets[1..]) + rest);
    Utf8Exact(octets, c);
    assert s[3 * |octets|..] == rest;
  }

  /** Decoding undoes encoding, for every string. */
  lemma {:induction false} RoundTrip(s: string)
    ensures Decode(Encode(s)) == Some(s)
  {
    if s != "" {
      RoundTrip(s[1..]);
      if Unreserved(s[0]) {
        assert Encode(s)[1..] == Encode(s[1..]);
      } else {
        DecodeEscaped(s[0], Encode(s[1..]));
      }
      assert s == [s[0]] + s[1..];
    }
  }

  // ---- What is escaped, and what decodes ----

  const RESERVED := "\"#$%&+,/:;<=>?@[\\]^`{|}"

  /** Everything is escaped but visible ASCII outside the reserved characters. */
  lemma UnreservedExact(c: char)
    ensures Unreserved(c) <==> 0x21 <= c as int < 0x7F && c !in RESERVED
  {
  }

  /** `s` starts with one escape, of either case, for each of these octets. */
  predicate Escapes(s: string, octets: seq<Byte>) {
    octets == [] || (Octet(s) == Some(octets[0]) && Escapes(s[3..], octets[1..]))
  }

  /** An escape is a percent sign and two hexadecimal digits of either case, the high one first. */
  lemma EscapeExact(s: string, b: Byte)
    ensures Octet(s) == Some(b) <==>
              && |s| >= 3 && s[0] == '%' && HexValue(s[1]) >= 0 && HexValue(s[2]) >= 0
              && b / 16 == HexValue(s[1]) && b % 16 == HexValue(s[2])
  {
  }

  predicate UpperHex(c: char) {
    '0' <= c <= '9' || 'A' <= c <= 'F'
  }

  /** Encoding writes one escape an octet, in upper case. */
  lemma {:induction false} EscapedExact(octets: seq<Byte>)
    ensures |Escaped(octets)| == 3 * |octets| && Escapes(Escaped(octets), octets)
    ensures forall i | 0 <= i < |Escaped(octets)| :: Escaped(octets)[i] == '%' || UpperHex(Escaped(octets)[i])
  {
    if octets != [] {
      var rest := Escaped(octets[1..]);
      OctetEscaped(octets[0], rest);
      EscapedExact(octets[1..]);
      assert Escaped(octets)[3..] == rest;
    }
  }

  lemma {:induction false} OctetsExact(s: string, octets: seq<Byte>)
    ensures Octets(s, |octets|) == Some(octets) <==> Escapes(s, octets)
  {
    if octets != [] && Octet(s).Some? {
      OctetsExact(s[3..], octets[1..]);
      assert octets == [octets[0]] + octets[1..];
    }
  }

  /** The texts that spell `t`: each character stands for itself, unless it is a percent sign, or is given
      by the escapes of its UTF-8 octets. */
  predicate Spells(s: string, t: string)
    decreases |s|
  {
    if t == "" || s == "" then s == t
    else if s[0] != '%' then s[0] == t[0] && Spells(s[1..], t[1..])
    else
      var n := 3 * |Utf8(t[0])|;
      n <= |s| && Escapes(s, Utf8(t[0])) && Spells(s[n..], t[1..])
  }

  lemma {:induction false} EscapedCharExact(s: string, c: char)
    ensures (EscapedChar(s).Some? && EscapedChar(s).value.0 == c) <==> Escapes(s, Utf8(c))
    ensures Escapes(s, Utf8(c)) ==> EscapedChar(s) == Some((c, |Utf8(c)|)) && 3 * |Utf8(c)| <= |s|
  {
    Utf8Exact(Utf8(c), c);
    OctetsExact(s, Utf8(c));
    if EscapedChar(s).Some? && EscapedChar(s).value.0 == c {
      var octets := Octets(s, Announced(Octet(s).value)).value;
      Utf8Exact(octets, c);
    }
  }

  /** A text decodes exactly to what it spells, and to nothing when it spells nothing: a lone percent sign,
      a bad digit or octets that are not the UTF-8 form of a character. */
  lemma {:induction false} DecodeExact(s: string, t: string)
    ensures Decode(s) == Some(t) <==> Spells(s, t)
    decreases |s|
  {
    if s != "" && t != "" {
      assert t == [t[0]] + t[1..];
      if s[0] != '%' {
        DecodeExact(s[1..], t[1..]);
      } else {
        EscapedCharExact(s, t[0]);
        if EscapedChar(s).Some? {
          EscapesFit(s);
          DecodeExact(s[3 * EscapedChar(s).value.1..], t[1..]);
        }
      }
    }
  }

  /** The characters section 4.1.1 of RFC 6265 allows in a cookie value: no control, space, quote,
      comma, semicolon or backslash. */
  predicate CookieOctet(c: char) {
    var n := c as int;
    n == 0x21 || 0x23 <= n <= 0x2B || 0x2D <= n <= 0x3A || 0x3C <= n <= 0x5B || 0x5D <= n <= 0x7E
  }

  predicate AllCookieOctets(s: string) {
    forall i | 0 <= i < |s| :: CookieOctet(s[i])
  }

  lemma {:induction false} EscapedIsCookieValue(octets: seq<Byte>)
    ensures AllCookieOctets(Escaped(octets))
  {
    if octets != [] {
      EscapedIsCookieValue(octets[1..]);
    }
  }

  lemma {:induction false} EncodedIsCookieValue(s: string)
    ensures AllCookieOctets(Encode(s))
  {
    if s != "" {
      EscapedIsCookieValue(Utf8(s[0]));
      EncodedIsCookieValue(s[1..]);
    }
  }
}
