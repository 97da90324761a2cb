/** ECMAScript's 32-bit bitwise operators on the mathematical integers. */
module Int32 {
  import opened Arithmetic

  const TWO_32 := 0x1_0000_0000

  function Pow2(k: nat): (p: nat)
    ensures p > 0
  {
    if k == 0 then 1 else 2 * Pow2(k - 1)
  }

  function ToUint32(x: int): nat {
    x % TWO_32
  }

  function ToInt32(x: int): int {
    var u := ToUint32(x);
    if u >= 0x8000_0000 then u - TWO_32 else u
  }

  /** Bitwise or of two naturals. */
  function Or(x: nat, y: nat): nat
    decreases x + y
  {
    if x == 0 && y == 0 then 0
    else 2 * Or(x / 2, y / 2) + (if x % 2 == 1 || y % 2 == 1 then 1 else 0)
  }

  /** `n` divided by `2 ** k`, rounding down. */
  function Halved(n: int, k: nat): int
    decreases k
  {
    if k == 0 then n else Halved(n / 2, k - 1)
  }

  /** `x << k` */
  function ShiftLeft(x: int, k: nat): int {
    ToInt32(x * Pow2(k))
  }

  /** `x >>> k` */
  function ShiftRightUnsigned(x: int, k: nat): int {
    Halved(ToUint32(x), k)
  }

  /** `x | y` */
  function BitOr(x: int, y: int): int {
    OrUnsigned(ToUint32(x), ToUint32(y))
  }

  function OrUnsigned(u: nat, v: nat): int {
    ToInt32(Or(u, v))
  }

  /** `x & (2 ** k - 1)`: the low `k` bits. */
  function Low(x: int, k: nat): (r: nat)
    ensures r < Pow2(k)
    decreases k
  {
    if k == 0 then 0 else x % 2 + 2 * Low(x / 2, k - 1)
  }

  /** `n * 2 ** k` */
  function Doubled(n: int, k: nat): int {
    if k == 0 then n else 2 * Doubled(n, k - 1)
  }

  function Residue(x: int, k: nat): nat {
    x % Pow2(k)
  }

  lemma {:induction false} OrZero(x: nat)
    ensures Or(x, 0) == x
  {
    if x > 0 { OrZero(x / 2); }
  }

  /** Or-ing into cleared low bits is addition. */
  lemma {:induction false} OrDisjoint(a: nat, k: nat, d: nat)
    requires d < Pow2(k)
    ensures Or(a * Pow2(k), d) == a * Pow2(k) + d
  {
    if k == 0 {
      OrZero(a);
    } else {
      assert a * Pow2(k) == 2 * (a * Pow2(k - 1));
      OrDisjoint(a, k - 1, d / 2);
    }
  }

  lemma {:induction false} PowerSum(a: nat, b: nat)
    ensures Pow2(a + b) == Pow2(a) * Pow2(b)
  {
    if a > 0 {
      PowerSum(a - 1, b);
      assert Pow2(a) * Pow2(b) == 2 * (Pow2(a - 1) * Pow2(b));
    }
  }

  lemma Power32()
    ensures Pow2(32) == TWO_32
  {
    assert Pow2(8) == 256;
    PowerSum(8, 8);
    PowerSum(16, 16);
  }

  // ---- Polynomial identities, kept apart from division ----

  lemma Fold(x: int, n: int, p: int, rest: int, q: int, u: int, uq: int, ur: int)
    requires n == p * rest && x == n * q + u && u == p * uq + ur
    ensures x == p * (rest * q + uq) + ur
  {
    assert n * q == p * (rest * q);
    assert p * (rest * q + uq) == p * (rest * q) + p * uq;
  }

  lemma Scaled(x: int, top: int, q: int, r: int, p: int, n: int)
    requires x == top * q + r && n == p * top
    ensures x * p == n * q + p * r
  {
    assert (top * q) * p == n * q;
    assert (top * q + r) * p == (top * q) * p + r * p;
  }

  lemma DigitFits(p: int, digit: int, count: int, low: int)
    requires 0 <= digit < count && 0 <= low < p
    ensures 0 <= p * digit + low < p * count
  {
    Scale(p, 0, digit);
    Scale(p, digit, count - 1);
    assert p * (count - 1) == p * count - p;
  }

  lemma SameResidue(x: int, n: int, p: int, rest: int, z: int)
    requires p > 0 && x == (p * rest) * z + n
    ensures x % p == n % p
  {
    Fold(x, p * rest, p, rest, z, n, n / p, n % p);
    DivisionUnique(x, p, rest * z + n / p, n % p);
  }

  /** Truncation to 32 bits keeps every lower residue. */
  lemma SameLow(x: int, n: int, z: int, m: nat)
    requires m <= 32 && x == TWO_32 * z + n
    ensures Residue(x, m) == Residue(n, m)
  {
    assert Pow2(m) * Pow2(32 - m) == TWO_32 by {
      Power32();
      PowerSum(m, 32 - m);
    }
    SameResidue(x, n, Pow2(m), Pow2(32 - m), z);
  }

  lemma ShiftedResidue(x: int, p: int, top: int)
    requires p > 0 && top > 0 && p * top == TWO_32
    ensures (x * p) % TWO_32 == p * (x % top) <= TWO_32 - p
    ensures x * p == TWO_32 * (x / top) + p * (x % top)
  {
    Scaled(x, top, x / top, x % top, p, TWO_32);
    DigitFits(p, x % top, top, p - 1);
    DigitFits(p, x % top, top, 0);
    DivisionUnique(x * p, TWO_32, x / top, p * (x % top));
  }

  lemma Truncated(y: int) returns (z: int)
    ensures ToInt32(y) == TWO_32 * z + y && ToUint32(ToInt32(y)) == ToUint32(y)
  {
    z := if ToUint32(y) >= 0x8000_0000 then -(y / TWO_32) - 1 else -(y / TWO_32);
  }

  /** `(x << k) | d` is `x * 2 ** k + d` up to a multiple of 2 ** 32. */
  lemma AppendDigit(x: int, k: nat, d: nat) returns (z: int)
    requires k <= 32 && d < Pow2(k)
    ensures BitOr(ShiftLeft(x, k), d) == TWO_32 * z + (x * Pow2(k) + d)
  {
    var p, top := Pow2(k), Pow2(32 - k);
    assert p * top == TWO_32 by {
      Power32();
      PowerSum(k, 32 - k);
    }
    z := AppendTo(x, k, d, p, top);
  }

  lemma AppendTo(x: int, k: nat, d: nat, p: nat, top: nat) returns (z: int)
    requires p == Pow2(k) && d < p && top > 0 && p * top == TWO_32
    ensures BitOr(ShiftLeft(x, k), d) == TWO_32 * z + (x * p + d)
  {
    var r := x % top;
    ShiftedResidue(x, p, top);
    var _ := Truncated(x * p);
    Commute(r, p);
    OrDisjoint(r, k, d);
    z := AppendTruncated(x * p, ShiftLeft(x, k), x / top, r * p, d);
  }

  lemma AppendTruncated(xp: int, shifted: int, q: int, rp: nat, d: nat) returns (z: int)
    requires xp == TWO_32 * q + rp && rp + d < TWO_32 && ToUint32(shifted) == rp
    requires Or(rp, d) == rp + d
    ensures BitOr(shifted, d) == TWO_32 * z + (xp + d)
  {
    Small(d);
    var z' := Truncated(rp + d);
    z := z' - q;
    assert BitOr(shifted, d) == OrUnsigned(rp, d) == ToInt32(rp + d);
  }

  lemma Small(y: nat)
    requires y < TWO_32
    ensures ToUint32(y) == y
  {
  }

  lemma Commute(a: int, b: int)
    ensures a * b == b * a
  {
  }

  lemma AppendedResidue(x: int, p: int, pm: int, d: int)
    requires p > 0 && pm > 0 && 0 <= d < p
    ensures (x * p + d) % (pm * p) == (x % pm) * p + d
  {
    Scaled(x, pm, x / pm, x % pm, p, pm * p);
    DigitFits(p, x % pm, pm, d);
    DivisionUnique(x * p + d, pm * p, x / pm, p * (x % pm) + d);
  }

  lemma LowAfterAppend(x: int, k: nat, d: nat, m: nat)
    requires k + m <= 32 && d < Pow2(k)
    ensures Residue(BitOr(ShiftLeft(x, k), d), m + k) == Residue(x, m) * Pow2(k) + d
  {
    var z := AppendDigit(x, k, d);
    SameLow(BitOr(ShiftLeft(x, k), d), x * Pow2(k) + d, z, m + k);
    PowerSum(m, k);
    AppendedResidue(x, Pow2(k), Pow2(m), d);
  }

  lemma LowAfterShift(x: int, k: nat, m: nat)
    requires k + m <= 32
    ensures Residue(ShiftLeft(x, k), m + k) == Residue(x, m) * Pow2(k)
  {
    var z := Truncated(x * Pow2(k));
    SameLow(ShiftLeft(x, k), x * Pow2(k), z, m + k);
    PowerSum(m, k);
    AppendedResidue(x, Pow2(k), Pow2(m), 0);
  }

  lemma {:induction false} HalvedIsDivision(x: int, k: nat)
    ensures Halved(x, k) == x / Pow2(k)
    decreases k
  {
    if k > 0 {
      HalvedIsDivision(x / 2, k - 1);
      HalfStep(x, Pow2(k - 1));
    }
  }

  lemma HalfStep(x: int, p: int)
    requires p > 0
    ensures x / (2 * p) == (x / 2) / p
  {
    var h := x / 2;
    Fold(x, 2 * p, 2, p, h / p, 2 * (h % p) + x % 2, h % p, x % 2);
    DivisionUnique(x, 2 * p, h / p, 2 * (h % p) + x % 2);
  }

  lemma NestedResidue(u: int, low: int, p: int)
    requires low > 0 && p > 0
    ensures u % (low * p) == low * ((u / low) % p) + u % low
  {
    var h := u / low;
    Scaled(h, p, h / p, h % p, low, low * p);
    DigitFits(low, h % p, p, u % low);
    DivisionUnique(u, low * p, h / p, low * (h % p) + u % low);
  }

  lemma TopResidue(x: int, m: nat, k: nat)
    requires k <= m <= 32
    ensures Residue(x, m) == Residue(ShiftRightUnsigned(x, m - k), k) * Pow2(m - k) + Residue(x, m - k)
  {
    var u := ToUint32(x);
    SameLow(x, u, x / TWO_32, m);
    SameLow(x, u, x / TWO_32, m - k);
    HalvedIsDivision(u, m - k);
    PowerSum(m - k, k);
    TopOf(u, Pow2(m - k), Pow2(k), Pow2(m), ShiftRightUnsigned(x, m - k));
  }

  lemma TopOf(u: int, low: int, p: int, all: int, h: int)
    requires low > 0 && p > 0 && all == low * p && h == u / low
    ensures u % all == (h % p) * low + u % low
  {
    NestedResidue(u, low, p);
    Commute(low, h % p);
  }

  lemma {:induction false} LowIsResidue(x: int, k: nat)
    ensures Low(x, k) == Residue(x, k)
    decreases k
  {
    if k > 0 {
      LowIsResidue(x / 2, k - 1);
      NestedResidue(x, 2, Pow2(k - 1));
    }
  }

  lemma {:induction false} DoubledIsProduct(n: int, k: nat)
    ensures Doubled(n, k) == n * Pow2(k)
  {
    if k > 0 {
      DoubledIsProduct(n, k - 1);
      assert n * (2 * Pow2(k - 1)) == 2 * (n * Pow2(k - 1));
    }
  }

  lemma HalvedDropsLow(n: int, k: nat, low: nat)
    requires low < Pow2(k)
    ensures Halved(Doubled(n, k) + low, k) == n
  {
    DoubledIsProduct(n, k);
    HalvedIsDivision(Doubled(n, k) + low, k);
    Commute(n, Pow2(k));
    DivisionUnique(Doubled(n, k) + low, Pow2(k), n, low);
  }

  // ---- The accumulator steps, in terms of low bits and doubling ----

  lemma {:induction false} DoubledSum(n: int, d: int, k: nat)
    ensures Doubled(n + d, k) == Doubled(n, k) + Doubled(d, k)
  {
    if k > 0 { DoubledSum(n, d, k - 1); }
  }

  lemma {:induction false} DoubledTwice(n: int, a: nat, b: nat)
    ensures Doubled(Doubled(n, a), b) == Doubled(n, a + b)
  {
    if b > 0 { DoubledTwice(n, a, b - 1); }
  }

  /** Bringing in a digit, `(x << k) | d`, moves the low bits up. What lies above them is never
      masked: it falls off the top or stays out of the bits in use. */
  lemma DigitIn(x: int, k: nat, d: nat, m: nat)
    requires k + m <= 32 && d < Pow2(k)
    ensures Low(BitOr(ShiftLeft(x, k), d), m + k) == Doubled(Low(x, m), k) + d
  {
    LowAfterAppend(x, k, d, m);
    LowIsResidue(x, m);
    LowIsResidue(BitOr(ShiftLeft(x, k), d), m + k);
    DoubledIsProduct(Low(x, m), k);
  }

  /** Moving the low bits up against zeros, `x << k`. */
  lemma ZerosIn(x: int, k: nat, m: nat)
    requires k + m <= 32
    ensures Low(ShiftLeft(x, k), m + k) == Doubled(Low(x, m), k)
  {
    LowAfterShift(x, k, m);
    LowIsResidue(x, m);
    LowIsResidue(ShiftLeft(x, k), m + k);
    DoubledIsProduct(Low(x, m), k);
  }

  /** `(x >>> (m - k)) & (2 ** k - 1)` is the top digit of the low `m` bits. */
  lemma DigitOut(x: int, m: nat, k: nat)
    requires k <= m <= 32
    ensures Low(x, m) == Doubled(Low(ShiftRightUnsigned(x, m - k), k), m - k) + Low(x, m - k)
  {
    TopResidue(x, m, k);
    LowIsResidue(x, m);
    LowIsResidue(x, m - k);
    LowIsResidue(ShiftRightUnsigned(x, m - k), k);
    DoubledIsProduct(Low(ShiftRightUnsigned(x, m - k), k), m - k);
  }
}
