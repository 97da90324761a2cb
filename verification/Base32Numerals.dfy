/** Bit strings as positional numerals, and the bit accumulator that regroups them. Regrouping eight
    bits by five with zero padding is the base32 encoding of section 6 of RFC 4648. */
module Base32Numerals {
  import opened Int32
  import opened Arithmetic

  /** The number a list of digits stands for, most significant first. */
  function Num(base: int, digits: seq<int>): int {
    if digits == [] then 0
    else Num(base, digits[..|digits| - 1]) * base + digits[|digits| - 1]
  }

  lemma NumAppend(base: int, digits: seq<int>, d: int)
    ensures Num(base, digits + [d]) == Num(base, digits) * base + d
  {
    assert (digits + [d])[..|digits|] == digits;
  }

  ghost predicate Digits(base: int, digits: seq<int>) {
    forall i | 0 <= i < |digits| :: 0 <= digits[i] < base
  }

  /** Numerals of one length determine their digits. */
  lemma {:induction false} NumInjective(base: int, a: seq<int>, b: seq<int>)
    requires base > 0 && |a| == |b| && Digits(base, a) && Digits(base, b)
    requires Num(base, a) == Num(base, b)
    ensures a == b
  {
    if a != [] {
      var n := |a| - 1;
      DivisionUnique(Num(base, a), base, Num(base, a[..n]), a[n]);
      DivisionUnique(Num(base, b), base, Num(base, b[..n]), b[n]);
      NumInjective(base, a[..n], b[..n]);
      assert a == a[..n] + [a[n]] && b == b[..n] + [b[n]];
    }
  }

  /** The digits are the zero-padded bit string of the bytes, and as few as possible. */
  ghost predicate Groups(bytes: seq<int>, digits: seq<int>) {
    && 8 * |bytes| <= 5 * |digits| < 8 * |bytes| + 5
    && Num(32, digits) == Doubled(Num(256, bytes), 5 * |digits| - 8 * |bytes|)
  }

  /** The bytes are the whole octets of the digits' bit string; what is left over is dropped. */
  ghost predicate Octets(digits: seq<int>, bytes: seq<int>) {
    && 8 * |bytes| <= 5 * |digits| < 8 * |bytes| + 8
    && Num(256, bytes) == Halved(Num(32, digits), 5 * |digits| - 8 * |bytes|)
  }

  /** Regrouping fives into eights undoes regrouping eights into fives. */
  lemma OctetsOfGroups(bytes: seq<int>, digits: seq<int>, octets: seq<int>)
    requires Digits(256, bytes) && Digits(256, octets)
    requires Groups(bytes, digits) && Octets(digits, octets)
    ensures octets == bytes
  {
    assert |octets| == |bytes|;
    HalvedDropsLow(Num(256, bytes), 5 * |digits| - 8 * |bytes|, 0);
    NumInjective(256, octets, bytes);
  }

  // ---- The bit accumulator ----

  /** What came in is what went out followed by the low `bits` bits of the accumulator. */
  ghost predicate Balanced(baseIn: int, taken: seq<int>, baseOut: int, emitted: seq<int>, value: int, bits: nat) {
    Num(baseIn, taken) == Doubled(Num(baseOut, emitted), bits) + Low(value, bits)
  }

  /** A digit comes in. */
  lemma Take(k: nat, baseOut: int, taken: seq<int>, emitted: seq<int>, value: int, bits: nat, d: int)
    requires Balanced(Pow2(k), taken, baseOut, emitted, value, bits)
    requires 0 <= d < Pow2(k) && bits + k <= 32
    ensures Balanced(Pow2(k), taken + [d], baseOut, emitted, BitOr(ShiftLeft(value, k), d), bits + k)
  {
    DigitIn(value, k, d, bits);
    var value' := BitOr(ShiftLeft(value, k), d);
    TakeDigit(k, Num(baseOut, emitted), taken, d, Low(value, bits), Low(value', bits + k), bits);
  }

  lemma TakeDigit(k: nat, n: int, taken: seq<int>, d: int, low: int, low': int, bits: nat)
    requires Num(Pow2(k), taken) == Doubled(n, bits) + low && low' == Doubled(low, k) + d
    ensures Num(Pow2(k), taken + [d]) == Doubled(n, bits + k) + low'
  {
    NumAppend(Pow2(k), taken, d);
    DoubledIsProduct(Num(Pow2(k), taken), k);
    DoubledSum(Doubled(n, bits), low, k);
    DoubledTwice(n, bits, k);
  }

  /** The top digit goes out. */
  lemma Emit(k: nat, baseIn: int, taken: seq<int>, emitted: seq<int>, value: int, bits: nat, d: int)
    requires Balanced(baseIn, taken, Pow2(k), emitted, value, bits) && k <= bits <= 32
    requires d == Low(ShiftRightUnsigned(value, bits - k), k)
    ensures Balanced(baseIn, taken, Pow2(k), emitted + [d], value, bits - k)
  {
    DigitOut(value, bits, k);
    EmitDigit(k, Num(baseIn, taken), emitted, d, Low(value, bits), Low(value, bits - k), bits);
  }

  lemma EmitDigit(k: nat, total: int, emitted: seq<int>, d: int, low: int, rest: int, bits: nat)
    requires k <= bits && total == Doubled(Num(Pow2(k), emitted), bits) + low
    requires low == Doubled(d, bits - k) + rest
    ensures total == Doubled(Num(Pow2(k), emitted + [d]), bits - k) + rest
  {
    var n := Num(Pow2(k), emitted);
    NumAppend(Pow2(k), emitted, d);
    DoubledIsProduct(n, k);
    DoubledSum(Doubled(n, k), d, bits - k);
    DoubledTwice(n, k, bits - k);
  }

  /** The last digit is the leftover bits shifted up against zeros. */
  lemma Pad(k: nat, baseIn: int, taken: seq<int>, emitted: seq<int>, value: int, bits: nat)
    requires Balanced(baseIn, taken, Pow2(k), emitted, value, bits) && bits <= k <= 32
    ensures Num(Pow2(k), emitted + [Low(ShiftLeft(value, k - bits), k)]) == Doubled(Num(baseIn, taken), k - bits)
  {
    var n := Num(Pow2(k), emitted);
    NumAppend(Pow2(k), emitted, Low(ShiftLeft(value, k - bits), k));
    DoubledIsProduct(n, k);
    ZerosIn(value, k - bits, bits);
    DoubledSum(Doubled(n, bits), Low(value, bits), k - bits);
    DoubledTwice(n, bits, k - bits);
  }

  /** When no bit is pending, the digits written are the whole encoding. */
  lemma GroupsWhole(bytes: seq<int>, digits: seq<int>, value: int)
    requires Balanced(256, bytes, 32, digits, value, 0) && 5 * |digits| == 8 * |bytes|
    ensures Groups(bytes, digits)
  {
    assert Pow2(0) == 1 && Low(value, 0) == 0;
  }

  /** Otherwise one more digit, padded with zeros, completes it. */
  lemma GroupsPadded(bytes: seq<int>, digits: seq<int>, value: int, bits: nat)
    requires Balanced(256, bytes, 32, digits, value, bits) && 5 * |digits| + bits == 8 * |bytes|
    requires 0 < bits < 5
    ensures 0 <= Low(ShiftLeft(value, 5 - bits), 5) < 32
    ensures Groups(bytes, digits + [Low(ShiftLeft(value, 5 - bits), 5)])
  {
    assert Pow2(5) == 32;
    Pad(5, 256, bytes, digits, value, bits);
  }

  /** Dropping the pending bits leaves the whole octets. */
  lemma OctetsDone(digits: seq<int>, octets: seq<int>, value: int, bits: nat)
    requires Balanced(32, digits, 256, octets, value, bits)
    requires 8 * |octets| + bits == 5 * |digits| && bits < 8
    ensures Octets(digits, octets)
  {
    HalvedDropsLow(Num(256, octets), bits, Low(value, bits));
  }
}
