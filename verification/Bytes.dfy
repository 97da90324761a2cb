/** Octets and the UTF-8 form of text (RFC 3629). */
module Bytes {
  import opened Wrappers

  type Byte = b: int | 0 <= b < 256

  /** The octets of one code point. */
  function Utf8(c: char): (octets: seq<Byte>)
    ensures 1 <= |octets| <= 4
  {
    var n := c as int;
    if n < 0x80 then [n]
    else if n < 0x800 then [0xC0 + n / 0x40, 0x80 + n % 0x40]
    else if n < 0x1_0000 then [0xE0 + n / 0x1000, 0x80 + n / 0x40 % 0x40, 0x80 + n % 0x40]
    else [0xF0 + n / 0x4_0000, 0x80 + n / 0x1000 % 0x40, 0x80 + n / 0x40 % 0x40, 0x80 + n % 0x40]
  }

  function Utf8Text(text: string): seq<Byte> {
    if text == "" then [] else Utf8(text[0]) + Utf8Text(text[1..])
  }

  /** How many octets a first octet announces; 0 when no sequence starts with it. */
  function Announced(first: Byte): nat {
    if first < 0x80 then 1
    else if first < 0xC0 then 0
    else if first < 0xE0 then 2
    else if first < 0xF0 then 3
    else if first < 0xF8 then 4
    else 0
  }

  predicate IsContinuation(b: Byte) {
    0x80 <= b < 0xC0
  }

  predicate Complete(octets: seq<Byte>) {
    && octets != [] && |octets| == Announced(octets[0])
    && forall i | 1 <= i < |octets| :: IsContinuation(octets[i])
  }

  /** The number the payload bits of a complete sequence spell. */
  function CodePoint(octets: seq<Byte>): nat
    requires Complete(octets)
  {
    var first: int, n := octets[0], |octets|;
    if n == 1 then first
    else if n == 2 then 0x40 * (first - 0xC0) + Bits(octets[1])
    else if n == 3 then 0x1000 * (first - 0xE0) + 0x40 * Bits(octets[1]) + Bits(octets[2])
    else 0x4_0000 * (first - 0xF0) + 0x1000 * Bits(octets[1]) + 0x40 * Bits(octets[2]) + Bits(octets[3])
  }

  /** The six payload bits of a continuation octet. */
  function Bits(b: Byte): (n: nat)
    requires IsContinuation(b)
    ensures n < 0x40
  {
    b - 0x80
  }

  /** The code point a sequence encodes, refusing overlong forms, surrogates and numbers past the
      last plane. */
  function FromUtf8(octets: seq<Byte>): Option<char> {
    if !Complete(octets) then None
    else
      var n := CodePoint(octets);
      if n < [0, 0x80, 0x800, 0x1_0000][|octets| - 1] || 0xD800 <= n < 0xE000 || n > 0x10_FFFF then None
      else Some(n as char)
  }

  lemma SixBitDigits(a: nat, b: nat, c: nat, d: nat)
    requires b < 0x40 && c < 0x40 && d < 0x40
    ensures var n := 0x4_0000 * a + 0x1000 * b + 0x40 * c + d;
      n / 0x4_0000 == a && n / 0x1000 % 0x40 == b && n / 0x40 % 0x40 == c && n % 0x40 == d
  {
    var n := 0x4_0000 * a + 0x1000 * b + 0x40 * c + d;
    assert n / 0x40 == 0x1000 * a + 0x40 * b + c;
    assert n / 0x1000 == 0x40 * a + b;
  }

  lemma Recomposed(n: nat)
    ensures n == 0x40 * (n / 0x40) + n % 0x40
    ensures n == 0x1000 * (n / 0x1000) + 0x40 * (n / 0x40 % 0x40) + n % 0x40
    ensures n == 0x4_0000 * (n / 0x4_0000) + 0x1000 * (n / 0x1000 % 0x40) + 0x40 * (n / 0x40 % 0x40) + n % 0x40
  {
    assert n / 0x1000 == n / 0x40 / 0x40;
    assert n / 0x4_0000 == n / 0x1000 / 0x40;
  }

  lemma EncodesItsCodePoint(c: char)
    ensures Complete(Utf8(c)) && CodePoint(Utf8(c)) == c as int
  {
    var n := c as int;
    Recomposed(n);
    if n < 0x80 {
    } else if n < 0x800 {
      assert Utf8(c) == [0xC0 + n / 0x40, 0x80 + n % 0x40];
    } else if n < 0x1_0000 {
      assert Utf8(c) == [0xE0 + n / 0x1000, 0x80 + n / 0x40 % 0x40, 0x80 + n % 0x40];
    } else {
      assert n < 0x11_0000;
    }
  }

  lemma TwoOctets(octets: seq<Byte>, c: char)
    requires FromUtf8(octets) == Some(c) && |octets| == 2
    ensures octets == Utf8(c)
  {
    SixBitDigits(0, 0, octets[0] - 0xC0, Bits(octets[1]));
  }

  lemma ThreeOctets(octets: seq<Byte>, c: char)
    requires FromUtf8(octets) == Some(c) && |octets| == 3
    ensures octets == Utf8(c)
  {
    SixBitDigits(0, octets[0] - 0xE0, Bits(octets[1]), Bits(octets[2]));
  }

  lemma FourOctets(octets: seq<Byte>, c: char)
    requires FromUtf8(octets) == Some(c) && |octets| == 4
    ensures octets == Utf8(c)
  {
    SixBitDigits(octets[0] - 0xF0, Bits(octets[1]), Bits(octets[2]), Bits(octets[3]));
  }

  lemma OnlyItsCodePoint(octets: seq<Byte>, c: char)
    requires FromUtf8(octets) == Some(c)
    ensures octets == Utf8(c)
  {
    if |octets| == 2 {
      TwoOctets(octets, c);
    } else if |octets| == 3 {
      ThreeOctets(octets, c);
    } else if |octets| == 4 {
      FourOctets(octets, c);
    }
  }

  /** The decoder accepts exactly the encoder's output. */
  lemma Utf8Exact(octets: seq<Byte>, c: char)
    ensures FromUtf8(octets) == Some(c) <==> octets == Utf8(c)
  {
    EncodesItsCodePoint(c);
    if FromUtf8(octets) == Some(c) {
      OnlyItsCodePoint(octets, c);
    }
  }

  /** Section 7 of RFC 3629: its examples, and a character of each further length. */
  lemma Utf8Examples()
    ensures Utf8('A') == [0x41]
    ensures Utf8(0x391 as char) == [0xCE, 0x91]
    ensures Utf8(0x2262 as char) == [0xE2, 0x89, 0xA2]
    ensures Utf8(0x2_33B4 as char) == [0xF0, 0xA3, 0x8E, 0xB4]
  {
  }

  lemma {:induction false} Utf8TextInjective(a: string, b: string)
    requires Utf8Text(a) == Utf8Text(b)
    ensures a == b
  {
    if a != "" && b != "" {
      Utf8Exact(Utf8(a[0]), a[0]);
      Utf8Exact(Utf8(b[0]), b[0]);
      var m, n := |Utf8(a[0])|, |Utf8(b[0])|;
      assert Utf8Text(a)[0] == Utf8(a[0])[0] && Utf8Text(b)[0] == Utf8(b[0])[0];
      assert Utf8Text(a)[..m] == Utf8(a[0]) && Utf8Text(b)[..n] == Utf8(b[0]);
      assert Utf8Text(a)[m..] == Utf8Text(a[1..]) && Utf8Text(b)[n..] == Utf8Text(b[1..]);
      Utf8TextInjective(a[1..], b[1..]);
    }
  }

  // ---- Hexadecimal digits ----

  function HexDigit(n: nat, upper: bool): char
    requires n < 16
  {
    if n < 10 then '0' + n as char else (if upper then 'A' else 'a') + (n - 10) as char
  }

  /** The value of a digit of either case, or -1. */
  function HexValue(c: char): (n: int)
    ensures -1 <= n < 16
  {
    if '0' <= c <= '9' then c as int - '0' as int
    else if 'A' <= c <= 'F' then c as int - 'A' as int + 10
    else if 'a' <= c <= 'f' then c as int - 'a' as int + 10
    else -1
  }

  lemma HexRoundTrip(n: nat, upper: bool)
    requires n < 16
    ensures HexValue(HexDigit(n, upper)) == n
  {
  }
}
