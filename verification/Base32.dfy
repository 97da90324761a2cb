/** The base32 codecs: the unpadded encoder and the tolerant decoder used for one-time-password
    secrets, and the padded encoder used for random strings. */
module Base32 {
  import opened Arithmetic
  import opened Base32Numerals
  import opened Bytes
  import opened Int32
  import opened Wrappers
  import Text

  const ALPHABET := "ABCDEFGHIJKLMNOPQRSTUVWXYZ234567"

  function Letter(d: int): char
    requires 0 <= d < 32
  {
    if d < 26 then ('A' as int + d) as char else ('2' as int + d - 26) as char
  }

  /** The digit a character stands for, or -1. */
  function Value(c: char): (v: int)
    ensures -1 <= v < 32
    ensures v >= 0 ==> c == Letter(v)
  {
    if 'A' <= c <= 'Z' then c as int - 'A' as int
    else if '2' <= c <= '7' then 26 + c as int - '2' as int
    else -1
  }

  /** The table in the code and the ranges above are the same alphabet. */
  lemma AlphabetIs(d: int)
    requires 0 <= d < 32
    ensures ALPHABET[d] == Letter(d) && Value(Letter(d)) == d
  {
    assert forall i | 0 <= i < 32 :: ALPHABET[i] == Letter(i);
  }

  lemma IndexIs(c: char)
    ensures Text.IndexOf(ALPHABET, c) == Value(c)
  {
    var i := Text.IndexOf(ALPHABET, c);
    if i >= 0 { AlphabetIs(i); }
    if Value(c) >= 0 { AlphabetIs(Value(c)); }
  }

  method Index(c: char) returns (index: int)
    ensures index == Value(c)
  {
    IndexIs(c);
    index := Text.IndexOf(ALPHABET, c);
  }

  function Values(text: string): (values: seq<int>)
    ensures |values| == |text|
    ensures forall i | 0 <= i < |text| :: values[i] == Value(text[i])
  {
    seq(|text|, i requires 0 <= i < |text| => Value(text[i]))
  }

  predicate InAlphabet(text: string) {
    forall i | 0 <= i < |text| :: Value(text[i]) >= 0
  }

  /** The text is the zero-padded bit string of the bytes in the alphabet's digits. */
  ghost predicate Encodes(bytes: seq<Byte>, text: string) {
    InAlphabet(text) && Groups(bytes, Values(text))
  }

  /** The bytes are the whole octets of the text's bit string. */
  ghost predicate Decodes(text: string, bytes: seq<Byte>) {
    InAlphabet(text) && Octets(Values(text), bytes)
  }

  lemma EncodingUnique(bytes: seq<Byte>, a: string, b: string)
    requires Encodes(bytes, a) && Encodes(bytes, b)
    ensures a == b
  {
    NumInjective(32, Values(a), Values(b));
    forall i | 0 <= i < |a| ensures a[i] == b[i] {
      assert Values(a)[i] == Values(b)[i];
    }
  }

  // ---- Encoding ----

  /** Before the `i`-th byte: what was read is what was written followed by the pending bits. */
  ghost predicate Encoding(bytes: seq<int>, text: string, value: int, bits: nat) {
    && InAlphabet(text)
    && 5 * |text| + bits == 8 * |bytes|
    && Balanced(256, bytes, 32, Values(text), value, bits)
  }

  lemma BeforeFirst(taken: seq<int>, text: string, value: int, bits: nat)
    requires taken == [] && text == [] && value == 0 && bits == 0
    ensures Encoding(taken, text, value, bits)
  {
  }

  lemma AfterByte(bytes: seq<int>, text: string, value: int, bits: nat, b: Byte)
    requires Encoding(bytes, text, value, bits) && bits < 5
    ensures Encoding(bytes + [b], text, BitOr(ShiftLeft(value, 8), b), bits + 8)
  {
    assert Pow2(8) == 256;
    Take(8, 32, bytes, Values(text), value, bits, b);
  }

  lemma AfterDigit(bytes: seq<int>, text: string, value: int, bits: nat, d: int)
    requires Encoding(bytes, text, value, bits) && 5 <= bits <= 12
    requires d == Low(ShiftRightUnsigned(value, bits - 5), 5)
    ensures 0 <= d < 32 && Encoding(bytes, text + [Letter(d)], value, bits - 5)
  {
    assert Pow2(5) == 32;
    Emit(5, 256, bytes, Values(text), value, bits, d);
    Appended(text, d);
  }

  lemma Appended(text: string, d: int)
    requires 0 <= d < 32 && InAlphabet(text)
    ensures Values(text + [Letter(d)]) == Values(text) + [d] && InAlphabet(text + [Letter(d)])
  {
    AlphabetIs(d);
  }

  /** Shifts one byte into the accumulator, whose upper bits are never masked. */
  method ReadByte(value: int, byte: Byte, ghost taken: seq<int>, ghost text: string, ghost bits: nat)
      returns (value': int)
    requires bits < 5 && Encoding(taken, text, value, bits)
    ensures Encoding(taken + [byte], text, value', bits + 8)
  {
    AfterByte(taken, text, value, bits, byte);
    value' := BitOr(ShiftLeft(value, 8), byte);
  }

  /** Writes out every whole digit the accumulator holds. */
  method WriteDigits(text: string, value: int, bits: nat, ghost taken: seq<int>)
      returns (longer: string, left: nat)
    requires bits <= 12 && Encoding(taken, text, value, bits)
    ensures left < 5 && Encoding(taken, longer, value, left)
  {
    longer, left := text, bits;
    while left >= 5
      invariant left <= 12 && Encoding(taken, longer, value, left)
    {
      var d := Low(ShiftRightUnsigned(value, left - 5), 5);
      AfterDigit(taken, longer, value, left, d);
      AlphabetIs(d);
      longer := longer + [ALPHABET[d]];
      left := left - 5;
    }
  }

  /** Completes the text with the leftover bits, if any. */
  method WriteLast(text: string, value: int, bits: nat, ghost taken: seq<Byte>) returns (whole: string)
    requires bits < 5 && Encoding(taken, text, value, bits)
    ensures Encodes(taken, whole)
  {
    if bits > 0 {
      var d := Low(ShiftLeft(value, 5 - bits), 5);
      GroupsPadded(taken, Values(text), value, bits);
      Appended(text, d);
      AlphabetIs(d);
      return text + [ALPHABET[d]];
    }
    GroupsWhole(taken, Values(text), value);
    return text;
  }

  /** Encodes without padding. */
  method Base32Encode(bytes: seq<Byte>) returns (text: string)
    ensures Encodes(bytes, text)
  {
    var bits: nat, value := 0, 0;
    text := "";
    ghost var taken: seq<Byte> := [];
    BeforeFirst(taken, text, value, bits);
    for i := 0 to |bytes|
      invariant taken == bytes[..i]
      invariant bits < 5 && Encoding(taken, text, value, bits)
    {
      assert bytes[..i + 1] == bytes[..i] + [bytes[i]];
      value := ReadByte(value, bytes[i], taken, text, bits);
      taken := taken + [bytes[i]];
      text, bits := WriteDigits(text, value, bits + 8, taken);
    }
    assert taken == bytes;
    text := WriteLast(text, value, bits, taken);
  }

  // ---- Decoding ----

  datatype DecodeError = InvalidSecret

  function StripPadding(s: string): string {
    if s != "" && s[|s| - 1] == '=' then StripPadding(s[..|s| - 1]) else s
  }

  /** Upper-casing, as far as it can produce letters of the alphabet. Any other non-ASCII character
      upper-cases to something outside the alphabet, which is all that matters about it here. */
  function UpperChar(c: char): string {
    var n := c as int;
    if 'a' <= c <= 'z' then [(n - 32) as char]
    else if n == 0xDF then "SS"
    else if n == 0x131 then "I"
    else if n == 0x17F then "S"
    else if n == 0xFB00 then "FF"
    else if n == 0xFB01 then "FI"
    else if n == 0xFB02 then "FL"
    else if n == 0xFB03 then "FFI"
    else if n == 0xFB04 then "FFL"
    else if n == 0xFB05 || n == 0xFB06 then "ST"
    else [c]
  }

  function Upper(s: string): string {
    if s == "" then "" else Upper(s[..|s| - 1]) + UpperChar(s[|s| - 1])
  }

  function Despaced(s: string): string {
    if s == "" then ""
    else Despaced(s[..|s| - 1]) + if Text.IsSpace(s[|s| - 1]) then "" else [s[|s| - 1]]
  }

  function Normalized(input: string): string {
    Despaced(Upper(StripPadding(input)))
  }

  ghost predicate Decoding(digits: seq<int>, out: seq<int>, value: int, bits: nat) {
    8 * |out| + bits == 5 * |digits| && Balanced(32, digits, 256, out, value, bits)
  }

  lemma AfterDigitIn(digits: seq<int>, out: seq<int>, value: int, bits: nat, d: int)
    requires Decoding(digits, out, value, bits) && bits < 8 && 0 <= d < 32
    ensures Decoding(digits + [d], out, BitOr(ShiftLeft(value, 5), d), bits + 5)
  {
    assert Pow2(5) == 32;
    Take(5, 256, digits, out, value, bits, d);
  }

  method ReadDigit(value: int, d: int, ghost digits: seq<int>, ghost out: seq<int>, ghost bits: nat)
      returns (value': int)
    requires bits < 8 && 0 <= d < 32 && Decoding(digits, out, value, bits)
    ensures Decoding(digits + [d], out, value', bits + 5)
  {
    AfterDigitIn(digits, out, value, bits, d);
    value' := BitOr(ShiftLeft(value, 5), d);
  }

  /** Writes out a byte if the accumulator holds one. */
  method WriteByte(out: seq<Byte>, value: int, bits: nat, ghost digits: seq<int>)
      returns (longer: seq<Byte>, left: nat)
    requires bits < 13 && Decoding(digits, out, value, bits)
    ensures left < 8 && Decoding(digits, longer, value, left)
  {
    longer, left := out, bits;
    if bits >= 8 {
      var byte := Low(ShiftRightUnsigned(value, bits - 8), 8);
      assert Pow2(8) == 256;
      Emit(8, 32, digits, out, value, bits, byte);
      longer, left := out + [byte], bits - 8;
    }
  }

  /** The first `i` characters have been looked up. */
  ghost predicate LookedUp(text: string, i: nat, digits: seq<int>) {
    i <= |text| && InAlphabet(text[..i]) && digits == Values(text[..i])
  }

  lemma LooksUpNext(text: string, i: nat, digits: seq<int>)
    requires i < |text| && LookedUp(text, i, digits)
    ensures if Value(text[i]) == -1 then !InAlphabet(text)
            else 0 <= Value(text[i]) < 32 && LookedUp(text, i + 1, digits + [Value(text[i])])
  {
    assert text[..i + 1] == text[..i] + [text[i]];
  }

  /** Decodes exactly the texts that are in the alphabet once normalized. */
  method Base32Decode(input: string) returns (result: Result<seq<Byte>, DecodeError>)
    ensures result.Ok? <==> InAlphabet(Normalized(input))
    ensures result.Ok? ==> Decodes(Normalized(input), result.value)
  {
    var normalized := Normalized(input);
    var bits: nat, value, out: seq<Byte> := 0, 0, [];
    ghost var digits: seq<int> := [];
    for i := 0 to |normalized|
      invariant LookedUp(normalized, i, digits)
      invariant bits < 8 && Decoding(digits, out, value, bits)
    {
      LooksUpNext(normalized, i, digits);
      var index := Index(normalized[i]);
      if index == -1 {
        return Err(InvalidSecret);
      }
      value := ReadDigit(value, index, digits, out, bits);
      digits := digits + [index];
      out, bits := WriteByte(out, value, bits + 5, digits);
    }
    assert normalized[..|normalized|] == normalized;
    OctetsDone(digits, out, value, bits);
    result := Ok(out);
  }

  /** Decoding undoes encoding for every byte string, whatever padding or case the text picked up: the
      decoder accepts it, and nothing but the bytes can come out. */
  lemma RoundTrip(bytes: seq<Byte>, text: string, input: string)
    requires Encodes(bytes, text) && IsVariant(text, input)
    ensures InAlphabet(Normalized(input))
    ensures forall decoded: seq<Byte> | Decodes(Normalized(input), decoded) :: decoded == bytes
  {
    VariantNormalizes(text, input);
    forall decoded: seq<Byte> | Decodes(Normalized(input), decoded) ensures decoded == bytes {
      OctetsOfGroups(bytes, Values(text), decoded);
    }
  }

  predicate Pads(s: string) {
    forall i | 0 <= i < |s| :: s[i] == '='
  }

  /** The ways to write a letter of the alphabet: as it is, in lower case, or as one of the two
      characters outside ASCII whose upper case it is. */
  predicate Writes(c: char, letter: char) {
    || c == letter
    || ('A' <= letter <= 'Z' && c as int == letter as int + 32)
    || (letter == 'I' && c as int == 0x131)
    || (letter == 'S' && c as int == 0x17F)
  }

  lemma WritesExact(c: char, letter: char)
    requires Value(letter) >= 0
    ensures UpperChar(c) == [letter] <==> Writes(c, letter)
    ensures Writes(c, letter) ==> !Text.IsSpace(c) && !Text.IsSpace(letter) && c != '='
  {
    assert UpperChar(c) == [letter] ==> UpperChar(c)[0] == letter;
  }

  /** `s` writes the text out in any mixture of cases and with spaces anywhere. */
  predicate Spells(s: string, text: string) {
    if s == "" then text == ""
    else
      var init, last := s[..|s| - 1], s[|s| - 1];
      if Text.IsSpace(last) then Spells(init, text)
      else text != "" && Writes(last, text[|text| - 1]) && Spells(init, text[..|text| - 1])
  }

  /** The text written out, followed by any number of padding characters. */
  ghost predicate IsVariant(text: string, input: string) {
    exists n | 0 <= n <= |input| :: Pads(input[n..]) && Spells(input[..n], text)
  }

  lemma {:induction false} StripsPads(s: string, pads: string)
    requires Pads(pads) && (s != "" ==> s[|s| - 1] != '=')
    ensures StripPadding(s + pads) == s
  {
    if pads == "" {
      assert s + pads == s;
    } else {
      var init := pads[..|pads| - 1];
      assert (s + pads)[..|s + pads| - 1] == s + init;
      StripsPads(s, init);
    }
  }

  lemma LastAppended(s: string)
    requires s != ""
    ensures s[..|s| - 1] + [s[|s| - 1]] == s
  {
  }

  lemma {:induction false} DespacedAppend(s: string, c: char)
    ensures Despaced(s + [c]) == Despaced(s) + if Text.IsSpace(c) then "" else [c]
  {
    assert (s + [c])[..|s|] == s;
  }

  lemma SpaceStays(c: char)
    requires Text.IsSpace(c)
    ensures UpperChar(c) == [c] && c != '='
  {
  }

  lemma {:induction false} SpellsNormalizes(s: string, text: string)
    requires InAlphabet(text) && Spells(s, text)
    ensures Despaced(Upper(s)) == text && (s != "" ==> s[|s| - 1] != '=')
  {
    if s != "" {
      var init, last := s[..|s| - 1], s[|s| - 1];
      if Text.IsSpace(last) {
        SpellsNormalizes(init, text);
        SpaceStays(last);
        DespacedAppend(Upper(init), last);
      } else {
        var letter := text[|text| - 1];
        assert Value(letter) >= 0;
        SpellsNormalizes(init, text[..|text| - 1]);
        WritesExact(last, letter);
        DespacedAppend(Upper(init), letter);
        LastAppended(text);
      }
    }
  }

  lemma VariantNormalizes(text: string, input: string)
    requires InAlphabet(text) && IsVariant(text, input)
    ensures Normalized(input) == text
  {
    var n :| 0 <= n <= |input| && Pads(input[n..]) && Spells(input[..n], text);
    assert input == input[..n] + input[n..];
    SpellsNormalizes(input[..n], text);
    StripsPads(input[..n], input[n..]);
  }

  // ---- Which inputs decode ----

  predicate LetterOrSpace(c: char) {
    Value(c) >= 0 || Text.IsSpace(c)
  }

  predicate LettersAndSpaces(s: string) {
    forall i | 0 <= i < |s| :: LetterOrSpace(s[i])
  }

  lemma LettersAppend(a: string, b: string)
    ensures InAlphabet(a + b) <==> InAlphabet(a) && InAlphabet(b)
    ensures LettersAndSpaces(a + b) <==> LettersAndSpaces(a) && LettersAndSpaces(b)
  {
    assert forall i | 0 <= i < |a| :: (a + b)[i] == a[i];
    assert forall i | 0 <= i < |b| :: (a + b)[|a| + i] == b[i];
  }

  lemma {:induction false} DespacedExact(s: string)
    ensures InAlphabet(Despaced(s)) <==> LettersAndSpaces(s)
  {
    if s != "" {
      var n := |s| - 1;
      DespacedExact(s[..n]);
      LastAppended(s);
      LettersAppend(s[..n], [s[n]]);
      LettersAppend(Despaced(s[..n]), if Text.IsSpace(s[n]) then "" else [s[n]]);
    }
  }

  /** A character the decoder can take: a space, a letter in either case or digit of the alphabet, or
      one of the few others whose upper case is made of such letters. */
  predicate Tolerated(c: char) {
    || Text.IsSpace(c) || 'A' <= c <= 'Z' || 'a' <= c <= 'z' || '2' <= c <= '7'
    || c as int in {0xDF, 0x131, 0x17F} || 0xFB00 <= c as int <= 0xFB06
  }

  lemma ToleratedExact(c: char)
    ensures Tolerated(c) <==> LettersAndSpaces(UpperChar(c))
  {
    var upper := UpperChar(c);
    assert upper == [c] || 'A' <= upper[0] <= 'Z';
  }

  predicate AllTolerated(s: string) {
    forall i | 0 <= i < |s| :: Tolerated(s[i])
  }

  lemma ToleratedLast(s: string)
    requires s != ""
    ensures AllTolerated(s) <==> AllTolerated(s[..|s| - 1]) && Tolerated(s[|s| - 1])
  {
    var init := s[..|s| - 1];
    assert forall i | 0 <= i < |init| :: init[i] == s[i];
    if AllTolerated(init) && Tolerated(s[|s| - 1]) {
      forall i | 0 <= i < |s| ensures Tolerated(s[i]) {
        if i < |init| { assert Tolerated(init[i]); }
      }
    }
  }

  lemma {:induction false} UpperExact(s: string)
    ensures LettersAndSpaces(Upper(s)) <==> AllTolerated(s)
  {
    if s != "" {
      var n := |s| - 1;
      UpperExact(s[..n]);
      LettersAppend(Upper(s[..n]), UpperChar(s[n]));
      ToleratedExact(s[n]);
      ToleratedLast(s);
    }
  }

  /** For every input: it decodes if and only if each character before its trailing padding is
      tolerated. */
  lemma DecodableExact(input: string)
    ensures InAlphabet(Normalized(input)) <==> AllTolerated(StripPadding(input))
  {
    UpperExact(StripPadding(input));
    DespacedExact(Upper(StripPadding(input)));
  }

  lemma {:induction false} StripPaddingPrefix(s: string)
    ensures StripPadding(s) <= s
  {
    if s != "" && s[|s| - 1] == '=' {
      StripPaddingPrefix(s[..|s| - 1]);
    }
  }

  lemma PadIsNotTolerated()
    ensures !Tolerated('=')
  {
  }

  predicate LettersSpacesAndPads(s: string) {
    forall i | 0 <= i < |s| :: s[i] == '=' || Tolerated(s[i])
  }

  lemma ToleratedWithoutPads(s: string)
    ensures '=' in s ==> !AllTolerated(s)
    ensures LettersSpacesAndPads(s) && '=' !in s ==> AllTolerated(s)
  {
    PadIsNotTolerated();
  }

  /** Padding is only recognised at the very end: followed by anything, a space included, it makes the
      input invalid. For inputs of letters in any case, spaces and padding nothing else does. */
  lemma PaddingMustComeLast(input: string)
    ensures '=' in StripPadding(input) ==> !InAlphabet(Normalized(input))
    ensures LettersSpacesAndPads(input) ==>
              (InAlphabet(Normalized(input)) <==> '=' !in StripPadding(input))
  {
    DecodableExact(input);
    StripPaddingPrefix(input);
    ToleratedWithoutPads(StripPadding(input));
    KeepsLetters(input, StripPadding(input));
  }

  lemma KeepsLetters(s: string, kept: string)
    requires kept <= s
    ensures LettersSpacesAndPads(s) ==> LettersSpacesAndPads(kept)
  {
    assert forall i | 0 <= i < |kept| :: kept[i] == s[i];
  }

  // ---- The padded encoder ----

  /** Section 6 of RFC 4648: how many padding characters complete a final group of `n % 5` bytes. */
  function Padding(n: nat): nat {
    [0, 6, 4, 3, 1][n % 5]
  }

  function Repeat(c: char, n: nat): string {
    seq(n, i => c)
  }

  /** Gives the same text as the unpadded encoder, completed to a multiple of eight characters. */
  method BytesToBase32(bytes: seq<Byte>) returns (padded: string, ghost text: string)
    ensures Encodes(bytes, text)
    ensures padded == text + Repeat('=', Padding(|bytes|)) && |padded| % 8 == 0
  {
    padded := "";
    var value, bits: nat := 0, 0;
    ghost var taken: seq<Byte> := [];
    BeforeFirst(taken, padded, value, bits);
    for i := 0 to |bytes|
      invariant taken == bytes[..i]
      invariant bits < 5 && Encoding(taken, padded, value, bits)
    {
      assert bytes[..i + 1] == bytes[..i] + [bytes[i]];
      value := ReadByte(value, bytes[i], taken, padded, bits);
      taken := taken + [bytes[i]];
      padded, bits := WriteDigits(padded, value, bits + 8, taken);
    }
    assert taken == bytes;
    padded := WriteLast(padded, value, bits, taken);
    text := padded;
    ghost var k: nat := 0;
    PaddingCompletes(|bytes|, |text|, k);
    while |padded| % 8 != 0
      invariant k <= Padding(|bytes|) && padded == text + Repeat('=', k)
      invariant |padded| % 8 == 0 <==> k == Padding(|bytes|)
      decreases Padding(|bytes|) - k
    {
      padded, k := padded + "=", k + 1;
      PaddingCompletes(|bytes|, |text|, k);
    }
  }

  /** Exactly `Padding(n)` more characters, and no fewer, complete the last group of eight. */
  lemma PaddingCompletes(n: nat, length: nat, k: nat)
    requires 8 * n <= 5 * length < 8 * n + 5 && k <= Padding(n)
    ensures (length + k) % 8 == 0 <==> k == Padding(n)
  {
    var q, r := n / 5, n % 5;
    var whole := LastGroup(q, r, length);
    if whole + k < 8 {
      DivisionUnique(length + k, 8, q, whole + k);
    } else {
      DivisionUnique(length + k, 8, q + 1, whole + k - 8);
    }
  }

  /** How many letters the last, incomplete group has. */
  lemma LastGroup(q: nat, r: nat, length: nat) returns (whole: nat)
    requires r < 5 && 8 * (5 * q + r) <= 5 * length < 8 * (5 * q + r) + 5
    ensures length == 8 * q + whole && whole == [0, 2, 4, 5, 7][r]
  {
    whole := [0, 2, 4, 5, 7][r];
    assert 40 * q + 5 * whole == 5 * (8 * q + whole);
  }

  // ---- Encoders and decoder together ----

  /** What the decoder makes of a text either encoder wrote, padded or not. */
  method EncodeAndDecode(bytes: seq<Byte>) returns (plain: Result<seq<Byte>, DecodeError>,
      padded: Result<seq<Byte>, DecodeError>)
    ensures plain == padded == Ok(bytes)
  {
    var text := Base32Encode(bytes);
    plain := Base32Decode(text);
    PaddedIsVariant(text, 0);
    assert text + Repeat('=', 0) == text;
    RoundTrip(bytes, text, text);

    var longer, same := BytesToBase32(bytes);
    padded := Base32Decode(longer);
    PaddedIsVariant(same, Padding(|bytes|));
    RoundTrip(bytes, same, longer);
  }

  lemma {:induction false} SpellsItself(text: string)
    requires InAlphabet(text)
    ensures Spells(text, text)
  {
    if text != "" {
      assert Value(text[|text| - 1]) >= 0;
      WritesExact(text[|text| - 1], text[|text| - 1]);
      SpellsItself(text[..|text| - 1]);
    }
  }

  lemma {:induction false} PaddedIsVariant(text: string, n: nat)
    requires InAlphabet(text)
    ensures IsVariant(text, text + Repeat('=', n))
  {
    var input := text + Repeat('=', n);
    assert input[..|text|] == text && input[|text|..] == Repeat('=', n);
    SpellsItself(text);
  }
}
