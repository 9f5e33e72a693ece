/**
 Machine words as natural numbers below 2^64, and the bit tricks the containers play on them:
 rounding a capacity up to a power of two by smearing the top bit, and masking an index with
 capacity - 1. The bit operators are defined on numbers, one binary digit at a time.
 */
module Words {

  const WORD_SIZE := 0x1_0000_0000_0000_0000

  const HALF_WORD := 0x8000_0000_0000_0000

  type Word = x: nat | x < WORD_SIZE

  function Pow2(n: nat): (p: nat)
    ensures p >= 1
  {
    if n == 0 then 1 else 2 * Pow2(n - 1)
  }

  function BitOr(x: nat, y: nat): nat
  {
    if x == 0 && y == 0 then 0
    else 2 * BitOr(x / 2, y / 2) + (if x % 2 == 1 || y % 2 == 1 then 1 else 0)
  }

  function BitAnd(x: nat, y: nat): nat
  {
    if x == 0 && y == 0 then 0
    else 2 * BitAnd(x / 2, y / 2) + (if x % 2 == 1 && y % 2 == 1 then 1 else 0)
  }

  /** x >> k */
  function Shift(x: nat, k: nat): (y: nat)
    ensures y <= x
  {
    if k == 0 then x else Shift(x / 2, k - 1)
  }

  ghost predicate IsPowerOfTwo(c: nat) {
    exists k: nat :: c == Pow2(k)
  }

  lemma {:induction false} Pow2Add(a: nat, b: nat)
    ensures Pow2(a + b) == Pow2(a) * Pow2(b)
  {
    if a > 0 {
      Pow2Add(a - 1, b);
      Associates(2, Pow2(a - 1), Pow2(b));
    }
  }

  lemma Associates(x: nat, y: nat, z: nat)
    ensures x * (y * z) == (x * y) * z
  {
  }

  lemma {:induction false} Pow2Monotone(a: nat, b: nat)
    requires a <= b
    ensures Pow2(a) <= Pow2(b)
  {
    if a < b {
      Pow2Monotone(a, b - 1);
    }
  }

  lemma Pow2Word()
    ensures Pow2(63) == 0x8000_0000_0000_0000 && Pow2(64) == WORD_SIZE
  {
    Pow2Double(4, 16);
    Pow2Double(8, 0x100);
    Pow2Double(16, 0x1_0000);
    Pow2Double(32, 0x1_0000_0000);
    assert Pow2(64) == 2 * Pow2(63);
  }

  lemma Pow2Double(a: nat, p: nat)
    requires Pow2(a) == p
    ensures Pow2(2 * a) == p * p
  {
    Pow2Add(a, a);
  }

  /** `i & (c - 1)` for a power-of-two capacity c. */
  method Mask(i: nat, c: nat) returns (r: nat)
    requires IsPowerOfTwo(c)
    ensures r == i % c && r < c
    ensures i < c ==> r == i
    ensures i == c ==> r == 0
  {
    MaskIsModulo(i, c);
    r := BitAnd(i, c - 1);
    if i == c { DivisionUnique(i, c, 1, 0); }
    if i < c { DivisionUnique(i, c, 0, i); }
  }

  /** Masking with capacity - 1 is reduction modulo the capacity, when that is a power of two. */
  lemma {:induction false} MaskIsModulo(i: nat, c: nat)
    requires IsPowerOfTwo(c)
    ensures BitAnd(i, c - 1) == i % c
  {
    var k: nat :| c == Pow2(k);
    MaskLow(i, k);
  }

  lemma {:induction false} MaskLow(i: nat, k: nat)
    ensures BitAnd(i, Pow2(k) - 1) == i % Pow2(k)
  {
    hide BitAnd, Pow2;
    if k == 0 {
      Pow2Start();
      AndZero(i);
    } else {
      Pow2Next(k - 1);
      MaskLow(i / 2, k - 1);
      MaskDouble(i, Pow2(k - 1));
    }
  }

  /** One more bit of the mask takes one more bit of the number. */
  lemma MaskDouble(i: nat, p: nat)
    requires p >= 1 && BitAnd(i / 2, p - 1) == i / 2 % p
    ensures BitAnd(i, 2 * p - 1) == i % (2 * p)
  {
    hide BitAnd;
    OddHalf(p);
    AndOdd(i, 2 * p - 1);
    ModuloDouble(i, p);
  }

  lemma OddHalf(p: nat)
    requires p >= 1
    ensures (2 * p - 1) / 2 == p - 1 && (2 * p - 1) % 2 == 1
  {
  }

  lemma AndOdd(i: nat, m: nat)
    requires m % 2 == 1
    ensures BitAnd(i, m) == 2 * BitAnd(i / 2, m / 2) + i % 2
  {
  }

  lemma {:induction false} AndZero(i: nat)
    ensures BitAnd(i, 0) == 0
  {
    if i > 0 {
      AndZero(i / 2);
    }
  }

  lemma ModuloDouble(i: nat, p: nat)
    requires p >= 1
    ensures i % (2 * p) == 2 * ((i / 2) % p) + i % 2
  {
    var q, r := (i / 2) / p, (i / 2) % p;
    assert i / 2 == q * p + r;
    assert i == q * (2 * p) + (2 * r + i % 2) by {
      assert q * (2 * p) == 2 * (q * p);
    }
    DivisionUnique(i, 2 * p, q, 2 * r + i % 2);
  }

  lemma DivisionUnique(x: int, d: int, q: int, r: int)
    requires d > 0 && x == q * d + r && 0 <= r < d
    ensures x / d == q && x % d == r
  {
    var p := x / d;
    assert p * d <= x < (p + 1) * d;
    if p + 1 <= q {
      MultiplyMonotone(p + 1, q, d);
    }
    if q + 1 <= p {
      MultiplyMonotone(q + 1, p, d);
    }
  }

  lemma MultiplyMonotone(a: int, b: int, d: int)
    requires a <= b && d >= 0
    ensures a * d <= b * d
  {
    assert (b - a) * d >= 0;
  }

  // ---------------------------------------------------------------- rounding up to a power of two

  /** x has bits only below `len`, and its top `k` of them are all set. */
  ghost predicate TopSet(x: nat, len: nat, k: nat) {
    x < Pow2(len) && x >= Pow2(len) - Pow2(if k < len then len - k else 0)
  }

  lemma {:induction false} OrAtLeast(x: nat, y: nat)
    ensures BitOr(x, y) >= x && BitOr(x, y) >= y
  {
    if x != 0 || y != 0 {
      OrAtLeast(x / 2, y / 2);
    }
  }

  lemma {:induction false} OrBounded(x: nat, y: nat, n: nat)
    requires x < Pow2(n) && y < Pow2(n)
    ensures BitOr(x, y) < Pow2(n)
  {
    if n > 0 && (x != 0 || y != 0) {
      OrBounded(x / 2, y / 2, n - 1);
    }
  }

  /** Bits of x from position m on survive, and below m at least y is there. */
  lemma {:induction false} OrKeepsHigh(h: nat, a: nat, y: nat, m: nat)
    requires a < Pow2(m) && y < Pow2(m)
    ensures BitOr(h * Pow2(m) + a, y) >= h * Pow2(m) + y
  {
    hide BitOr;
    var x := h * Pow2(m) + a;
    if m == 0 {
      OrAtLeast(x, y);
    } else if x != 0 || y != 0 {
      var p := Pow2(m - 1);
      assert h * Pow2(m) == 2 * (h * p);
      assert x / 2 == h * p + a / 2 && x % 2 == a % 2;
      OrKeepsHigh(h, a / 2, y / 2, m - 1);
      OrDigit(x, y);
    } else {
      OrAtLeast(x, y);
    }
  }

  lemma OrDigit(x: nat, y: nat)
    ensures BitOr(x, y) == 2 * BitOr(x / 2, y / 2) + (if x % 2 == 1 || y % 2 == 1 then 1 else 0)
  {
  }

  /** One `s |= s >> k` doubles the run of ones below the top bit. */
  lemma SmearStep(x: nat, len: nat, k: nat)
    requires k >= 1 && TopSet(x, len, k)
    ensures TopSet(BitOr(x, Shift(x, k)), len, 2 * k)
  {
    if k < len {
      ShiftLow(x, k, len - k);
    }
    SmearCombine(x, Shift(x, k), len, k);
  }

  lemma SmearCombine(x: nat, y: nat, len: nat, k: nat)
    requires k >= 1 && TopSet(x, len, k) && y <= x
    requires k < len ==> y < Pow2(len - k) && y >= Pow2(len - k) - Pow2(if k < len - k then len - k - k else 0)
    ensures TopSet(BitOr(x, y), len, 2 * k)
  {
    hide BitOr;
    OrBounded(x, y, len);
    if k < len {
      var m := len - k;
      Pow2Monotone(m, len);
      SplitHigh(x, len, k);
      OrKeepsHigh(Pow2(k) - 1, x - (Pow2(len) - Pow2(m)), y, m);
    } else {
      OrAtLeast(x, y);
    }
  }

  lemma SplitHigh(x: nat, len: nat, k: nat)
    requires k < len && Pow2(len) - Pow2(len - k) <= x
    ensures x == (Pow2(k) - 1) * Pow2(len - k) + (x - (Pow2(len) - Pow2(len - k)))
  {
    Pow2Add(k, len - k);
  }

  lemma {:induction false} ShiftFloor(x: nat, k: nat)
    ensures Shift(x, k) * Pow2(k) <= x < (Shift(x, k) + 1) * Pow2(k)
  {
    if k > 0 {
      ShiftFloor(x / 2, k - 1);
      HalvedBounds(x, Shift(x, k), Pow2(k - 1));
    }
  }

  lemma HalvedBounds(x: nat, y: nat, p: nat)
    requires y * p <= x / 2 < (y + 1) * p
    ensures y * (2 * p) <= x < (y + 1) * (2 * p)
  {
    assert y * (2 * p) == 2 * (y * p) && (y + 1) * (2 * p) == 2 * ((y + 1) * p);
  }

  lemma ShiftLow(x: nat, k: nat, m: nat)
    requires Pow2(k + m) - Pow2(m) <= x < Pow2(k + m)
    ensures Shift(x, k) < Pow2(m)
    ensures Shift(x, k) >= Pow2(m) - Pow2(if k < m then m - k else 0)
  {
    ShiftFloor(x, k);
    assert Pow2(k + m) == Pow2(m) * Pow2(k) by { Pow2Add(k, m); }
    var low := if k < m then m - k else 0;
    if k < m {
      Pow2Add(k, low);
    } else {
      Pow2Monotone(m, k);
    }
    assert Pow2(m) <= Pow2(low) * Pow2(k) by {
      if k >= m { assert Pow2(low) == 1; }
    }
    LowQuotient(x, Shift(x, k), Pow2(m), Pow2(low), Pow2(k));
  }

  lemma LowQuotient(x: nat, y: nat, p: nat, l: nat, d: nat)
    requires d >= 1 && y * d <= x < (y + 1) * d
    requires p * d - p <= x < p * d && p <= l * d
    ensures p - l <= y < p
  {
    if y >= p {
      MultiplyMonotone(p, y, d);
    }
    assert (p - l) * d == p * d - l * d;
    if y + 1 <= p - l {
      MultiplyMonotone(y + 1, p - l, d);
    }
  }

  function BitLength(x: nat): nat
  {
    if x == 0 then 0 else 1 + BitLength(x / 2)
  }

  lemma {:induction false} BitLengthBounds(x: nat)
    requires x > 0
    ensures BitLength(x) >= 1 && Pow2(BitLength(x) - 1) <= x < Pow2(BitLength(x))
  {
    if x >= 2 {
      BitLengthBounds(x / 2);
    }
  }

  lemma BitLengthWord(x: Word)
    ensures BitLength(x) <= 64
  {
    if x > 0 && BitLength(x) > 64 {
      BitLengthBounds(x);
      Pow2Word();
      Pow2Monotone(64, BitLength(x) - 1);
    }
  }

  lemma Smeared(size: Word) returns (len: nat)
    ensures len <= 64 && TopSet((size + WORD_SIZE - 1) % WORD_SIZE, len, 1)
    ensures 1 <= size <= HALF_WORD ==> len <= 63 && size <= Pow2(len) <= HALF_WORD
    ensures 1 <= size <= HALF_WORD && len > 0 ==> Pow2(len - 1) < size
    ensures size == 0 || size > HALF_WORD ==> len == 64
  {
    hide Pow2, BitLength;
    len := BitLength(Before(size));
    Pow2Word();
    Pow2Start();
    BitLengthWord(Before(size));
    if Before(size) > 0 {
      BitLengthBounds(Before(size));
      Pow2Next(len - 1);
      if len < 64 {
        Pow2Monotone(len, 63);
      }
    } else {
      NoBits();
    }
  }

  /** size - 1 in 64-bit arithmetic. */
  function Before(size: Word): (s: Word)
    ensures s == (size + WORD_SIZE - 1) % WORD_SIZE
  {
    if size == 0 then WORD_SIZE - 1 else size - 1
  }

  lemma Pow2Start()
    ensures Pow2(0) == 1
  {
  }

  lemma Pow2Next(n: nat)
    ensures Pow2(n + 1) == 2 * Pow2(n)
  {
  }

  lemma NoBits()
    ensures BitLength(0) == 0
  {
  }

  /**
   The smear sequence shared by the map and the buffer. For a size from 1 to 2^63 the result is
   the least power of two that is not below it; for 0 and for anything larger it wraps to 0.
   */
  method RoundUp(size: Word) returns (s: Word)
    ensures 1 <= size <= HALF_WORD ==> IsPowerOfTwo(s) && size <= s <= HALF_WORD
    ensures 1 <= size <= HALF_WORD ==> LeastPower(s, size)
    ensures size == 0 || size > HALF_WORD ==> s == 0
  {
    hide TopSet, Pow2;
    Pow2Word();
    ghost var len := Smeared(size);
    Pow2Monotone(len, 64);
    s := (size + WORD_SIZE - 1) % WORD_SIZE;
    s := Smear(s, 1, len);
    s := Smear(s, 2, len);
    s := Smear(s, 4, len);
    s := Smear(s, 8, len);
    s := Smear(s, 16, len);
    s := Smear(s, 32, len);
    AllSet(s, len);
    s := (s + 1) % WORD_SIZE;
    if len < 64 {
      Pow2Monotone(len, 63);
      assert s == Pow2(len);
      IsLeastPower(size, len);
    }
  }

  lemma AllSet(s: nat, len: nat)
    requires len <= 64 && TopSet(s, len, 64)
    ensures s == Pow2(len) - 1
  {
  }

  lemma IsLeastPower(size: nat, len: nat)
    requires 1 <= size && (len > 0 ==> Pow2(len - 1) < size)
    ensures LeastPower(Pow2(len), size)
  {
    forall c: nat | IsPowerOfTwo(c) && size <= c
      ensures Pow2(len) <= c
    {
      NoSmallerPower(size, len, c);
    }
  }

  lemma NoSmallerPower(size: nat, len: nat, c: nat)
    requires IsPowerOfTwo(c) && size <= c && (len > 0 ==> Pow2(len - 1) < size)
    ensures Pow2(len) <= c
  {
    var k: nat :| c == Pow2(k);
    if k < len {
      Pow2Monotone(k, len - 1);
    } else {
      Pow2Monotone(len, k);
    }
  }

  ghost predicate LeastPower(s: nat, size: nat) {
    forall c: nat :: IsPowerOfTwo(c) && size <= c ==> s <= c
  }

  /** `s |= s >> k` */
  method Smear(x: Word, k: nat, ghost len: nat) returns (s: Word)
    requires k >= 1 && len <= 64 && TopSet(x, len, k)
    ensures TopSet(s, len, 2 * k)
  {
    SmearStep(x, len, k);
    Pow2Word();
    Pow2Monotone(len, 64);
    s := BitOr(x, Shift(x, k));
  }
}
