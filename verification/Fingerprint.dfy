/** Request fingerprints: the parts framed by their lengths, hashed, and written in hexadecimal.
    The digest is an arbitrary function. */
module Fingerprint {
  import opened Bytes
  import opened Wrappers

  datatype Part = Chars(text: string) | Raw(octets: seq<Byte>) {
    function Octets(): seq<Byte> {
      if Chars? then Utf8Text(text) else octets
    }
  }

  function AllOctets(parts: seq<Part>): seq<seq<Byte>> {
    seq(|parts|, i requires 0 <= i < |parts| => parts[i].Octets())
  }

  // ---- Framing ----

  const COLON: Byte := 0x3A

  predicate IsDigit(b: Byte) {
    0x30 <= b <= 0x39
  }

  predicate AllDigits(octets: seq<Byte>) {
    forall i | 0 <= i < |octets| :: IsDigit(octets[i])
  }

  /** `String(n)`, as octets. */
  function Decimal(n: nat): (digits: seq<Byte>)
    ensures digits != [] && AllDigits(digits)
  {
    if n < 10 then [0x30 + n] else Decimal(n / 10) + [0x30 + n % 10]
  }

  function Prefix(part: seq<Byte>): seq<Byte> {
    Decimal(|part|) + [COLON]
  }

  function Framed(parts: seq<seq<Byte>>): seq<Byte> {
    if parts == [] then [] else Prefix(parts[0]) + parts[0] + Framed(parts[1..])
  }

  // ---- Reading a framed buffer back ----

  function Number(digits: seq<Byte>): nat
    requires AllDigits(digits)
  {
    if digits == [] then 0 else 10 * Number(digits[..|digits| - 1]) + digits[|digits| - 1] - 0x30
  }

  function DigitRun(octets: seq<Byte>): (n: nat)
    ensures n <= |octets| && AllDigits(octets[..n])
  {
    if octets == [] || !IsDigit(octets[0]) then 0
    else
      var n := 1 + DigitRun(octets[1..]);
      assert forall i | 1 <= i < n :: octets[..n][i] == octets[1..][..n - 1][i - 1];
      n
  }

  function Unframed(octets: seq<Byte>): Option<seq<seq<Byte>>>
    decreases |octets|
  {
    if octets == [] then Some([])
    else
      var d := DigitRun(octets);
      if d == |octets| || octets[d] != COLON then None
      else
        var n, rest := Number(octets[..d]), octets[d + 1..];
        if n > |rest| then None
        else match Unframed(rest[n..])
          case None => None
          case Some(parts) => Some([rest[..n]] + parts)
  }

  lemma {:induction false} NumberDecimal(n: nat)
    ensures Number(Decimal(n)) == n
  {
    if n >= 10 {
      NumberDecimal(n / 10);
      assert Decimal(n)[..|Decimal(n)| - 1] == Decimal(n / 10);
    }
  }

  lemma {:induction false} DigitRunEnds(digits: seq<Byte>, rest: seq<Byte>)
    requires AllDigits(digits) && rest != [] && !IsDigit(rest[0])
    ensures DigitRun(digits + rest) == |digits|
  {
    if digits == [] {
      assert digits + rest == rest;
    } else {
      assert (digits + rest)[1..] == digits[1..] + rest;
      DigitRunEnds(digits[1..], rest);
    }
  }

  lemma {:induction false} UnframesFirst(part: seq<Byte>, rest: seq<Byte>)
    ensures Unframed(Prefix(part) + part + rest)
         == match Unframed(rest) case None => None case Some(parts) => Some([part] + parts)
  {
    var digits, after := Decimal(|part|), part + rest;
    var octets := Prefix(part) + part + rest;
    assert octets == digits + ([COLON] + after);
    DigitRunEnds(digits, [COLON] + after);
    NumberDecimal(|part|);
    assert octets[..|digits|] == digits && octets[|digits|] == COLON && octets[|digits| + 1..] == after;
    assert after[..|part|] == part && after[|part|..] == rest;
  }

  /** The lengths put the boundaries back, whatever the parts contain. */
  lemma {:induction false} FramingRoundTrip(parts: seq<seq<Byte>>)
    ensures Unframed(Framed(parts)) == Some(parts)
  {
    if parts != [] {
      FramingRoundTrip(parts[1..]);
      UnframesFirst(parts[0], Framed(parts[1..]));
      assert parts == [parts[0]] + parts[1..];
    }
  }

  lemma {:induction false} FramingInjective(a: seq<seq<Byte>>, b: seq<seq<Byte>>)
    ensures Framed(a) == Framed(b) <==> a == b
  {
    FramingRoundTrip(a);
    FramingRoundTrip(b);
  }

  /** Two parts of two and no octets, as they are framed: `2:ab0:`. */
  lemma FramedExample()
    ensures Framed([[0x61, 0x62], []]) == [0x32, 0x3A, 0x61, 0x62, 0x30, 0x3A]
  {
    var parts: seq<seq<Byte>> := [[0x61, 0x62], []];
    assert parts[1..] == [[]] && parts[1..][1..] == [];
    assert Framed(parts[1..]) == [0x30, 0x3A];
  }

  // ---- Hexadecimal ----

  /** `byte.toString(16)`. */
  function ToString16(byte: Byte): string {
    if byte < 16 then [HexDigit(byte, false)] else [HexDigit(byte / 16, false), HexDigit(byte % 16, false)]
  }

  function PadStart(s: string, width: nat, fill: char): string {
    if |s| < width then seq(width - |s|, i => fill) + s else s
  }

  function Hex(octets: seq<Byte>): string {
    if octets == [] then ""
    else Hex(octets[..|octets| - 1]) + PadStart(ToString16(octets[|octets| - 1]), 2, '0')
  }

  method ToHex(octets: seq<Byte>) returns (hex: string)
    ensures hex == Hex(octets)
  {
    hex := "";
    for i := 0 to |octets|
      invariant hex == Hex(octets[..i])
    {
      assert octets[..i + 1][..i] == octets[..i];
      hex := hex + PadStart(ToString16(octets[i]), 2, '0');
    }
    assert octets[..|octets|] == octets;
  }

  /** Two lower-case digits an octet, the high one first. */
  lemma HexOctet(byte: Byte)
    ensures PadStart(ToString16(byte), 2, '0') == [HexDigit(byte / 16, false), HexDigit(byte % 16, false)]
  {
  }

  /** The `i`-th pair of digits is lower case and spells the octet. */
  predicate PairSpells(hex: string, i: nat, octet: Byte) {
    && 2 * i + 1 < |hex| && LowerHex(hex[2 * i]) && LowerHex(hex[2 * i + 1])
    && 16 * HexValue(hex[2 * i]) + HexValue(hex[2 * i + 1]) == octet
  }

  predicate AllSpell(hex: string, octets: seq<Byte>) {
    |hex| == 2 * |octets| && forall i | 0 <= i < |octets| :: PairSpells(hex, i, octets[i])
  }

  lemma PairOf(octet: Byte)
    ensures LowerHex(HexDigit(octet / 16, false)) && LowerHex(HexDigit(octet % 16, false))
    ensures 16 * HexValue(HexDigit(octet / 16, false)) + HexValue(HexDigit(octet % 16, false)) == octet
  {
    HexRoundTrip(octet / 16, false);
    HexRoundTrip(octet % 16, false);
  }

  lemma OneMoreSpells(hex: string, octets: seq<Byte>, high: char, low: char, octet: Byte)
    requires AllSpell(hex, octets) && LowerHex(high) && LowerHex(low)
    requires 16 * HexValue(high) + HexValue(low) == octet
    ensures AllSpell(hex + [high, low], octets + [octet])
  {
    forall i | 0 <= i < |octets| ensures PairSpells(hex + [high, low], i, octets[i]) {
      assert PairSpells(hex, i, octets[i]);
    }
  }

  lemma {:induction false} HexMore(octets: seq<Byte>, octet: Byte)
    ensures Hex(octets + [octet]) == Hex(octets) + [HexDigit(octet / 16, false), HexDigit(octet % 16, false)]
  {
    HexOctet(octet);
    assert (octets + [octet])[..|octets|] == octets;
  }

  /** Pair by pair the digits spell the octets, in order and with nothing over. */
  lemma {:induction false} HexExact(octets: seq<Byte>)
    ensures AllSpell(Hex(octets), octets)
  {
    if octets != [] {
      var init, last := octets[..|octets| - 1], octets[|octets| - 1];
      HexExact(init);
      PairOf(last);
      OneMoreSpells(Hex(init), init, HexDigit(last / 16, false), HexDigit(last % 16, false), last);
      HexMore(init, last);
      assert octets == init + [last];
    }
  }

  predicate LowerHex(c: char) {
    '0' <= c <= '9' || 'a' <= c <= 'f'
  }

  lemma {:induction false} HexInjective(a: seq<Byte>, b: seq<Byte>)
    requires Hex(a) == Hex(b)
    ensures a == b
  {
    HexExact(a);
    HexExact(b);
    forall i | 0 <= i < |a| ensures a[i] == b[i] {
      assert PairSpells(Hex(a), i, a[i]) && PairSpells(Hex(b), i, b[i]);
    }
  }

  // ---- The fingerprint ----

  function Concat(chunks: seq<seq<Byte>>): seq<Byte> {
    if chunks == [] then [] else Concat(chunks[..|chunks| - 1]) + chunks[|chunks| - 1]
  }

  lemma {:induction false} FramedAppend(parts: seq<seq<Byte>>, part: seq<Byte>)
    ensures Framed(parts + [part]) == Framed(parts) + (Prefix(part) + part)
  {
    if parts == [] {
      assert [part][1..] == [];
    } else {
      assert (parts + [part])[1..] == parts[1..] + [part];
      FramedAppend(parts[1..], part);
    }
  }

  lemma {:induction false} ConcatAppend(chunks: seq<seq<Byte>>, a: seq<Byte>, b: seq<Byte>)
    ensures Concat(chunks + [a, b]) == Concat(chunks) + (a + b)
  {
    assert (chunks + [a, b])[..|chunks| + 1] == chunks + [a];
    assert (chunks + [a])[..|chunks|] == chunks;
  }

  /** `buffer.set(chunk, offset)`, which is an error past the end of the buffer. */
  method Set(buffer: array<Byte>, chunk: seq<Byte>, offset: nat)
    requires offset + |chunk| <= buffer.Length
    modifies buffer
    ensures buffer[..offset] == old(buffer[..offset]) && buffer[offset..offset + |chunk|] == chunk
    ensures buffer[offset + |chunk|..] == old(buffer[offset + |chunk|..])
  {
    forall i | 0 <= i < |chunk| {
      buffer[offset + i] := chunk[i];
    }
  }

  /** Fills a buffer of exactly the right size: no octet is missed, overwritten or left over. */
  method Frame(parts: seq<Part>) returns (buffer: array<Byte>)
    ensures fresh(buffer) && buffer[..] == Framed(AllOctets(parts))
  {
    var framed: seq<seq<Byte>>, length: nat := [], 0;
    ghost var all := AllOctets(parts);
    for i := 0 to |parts|
      invariant Concat(framed) == Framed(all[..i]) && length == |Concat(framed)|
    {
      var octets := parts[i].Octets();
      var prefix := Decimal(|octets|) + [COLON];
      assert all[..i + 1] == all[..i] + [octets];
      FramedAppend(all[..i], octets);
      ConcatAppend(framed, prefix, octets);
      framed := framed + [prefix, octets];
      length := length + |prefix| + |octets|;
    }
    assert all[..|parts|] == all;
    buffer := new Byte[length];
    var offset: nat := 0;
    for i := 0 to |framed|
      invariant offset == |Concat(framed[..i])| <= length
      invariant buffer[..offset] == Concat(framed[..i])
    {
      assert framed[..i + 1][..i] == framed[..i];
      ConcatGrows(framed, i + 1);
      Set(buffer, framed[i], offset);
      assert buffer[..offset + |framed[i]|] == buffer[..offset] + buffer[offset..offset + |framed[i]|];
      offset := offset + |framed[i]|;
    }
    assert framed[..|framed|] == framed;
    assert buffer[..] == buffer[..offset];
  }

  lemma {:induction false} ConcatGrows(chunks: seq<seq<Byte>>, n: nat)
    requires n <= |chunks|
    ensures |Concat(chunks[..n])| <= |Concat(chunks)|
  {
    if n < |chunks| {
      var k := |chunks| - 1;
      assert chunks[..k][..n] == chunks[..n];
      ConcatGrows(chunks[..k], n);
    } else {
      assert chunks[..n] == chunks;
    }
  }

  function Print(parts: seq<Part>, hash: seq<Byte> -> seq<Byte>): string {
    Hex(hash(Framed(AllOctets(parts))))
  }

  method FingerprintOf(parts: seq<Part>, hash: seq<Byte> -> seq<Byte>) returns (fingerprint: string)
    ensures fingerprint == Print(parts, hash)
  {
    var buffer := Frame(parts);
    fingerprint := ToHex(hash(buffer[..]));
  }

  /** Two lists of parts share a fingerprint only if they are the same octets part by part, or the
      digest itself collides on two different buffers. */
  lemma {:induction false} SharedOnlyByCollision(a: seq<Part>, b: seq<Part>, hash: seq<Byte> -> seq<Byte>)
    requires Print(a, hash) == Print(b, hash)
    ensures AllOctets(a) == AllOctets(b)
         || var x, y := Framed(AllOctets(a)), Framed(AllOctets(b)); x != y && hash(x) == hash(y)
  {
    HexInjective(hash(Framed(AllOctets(a))), hash(Framed(AllOctets(b))));
    FramingInjective(AllOctets(a), AllOctets(b));
  }

  /** For parts given as text, being the same octets is being the same text. */
  lemma {:induction false} SameTexts(a: seq<Part>, b: seq<Part>)
    requires forall part | part in a + b :: part.Chars?
    ensures AllOctets(a) == AllOctets(b) <==> a == b
  {
    if AllOctets(a) == AllOctets(b) {
      assert |a| == |AllOctets(a)| == |AllOctets(b)| == |b|;
      forall i | 0 <= i < |a| ensures a[i] == b[i] {
        assert a[i] in a + b && b[i] in a + b;
        assert AllOctets(a)[i] == AllOctets(b)[i];
        Utf8TextInjective(a[i].text, b[i].text);
      }
    }
  }
}
