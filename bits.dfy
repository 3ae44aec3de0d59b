// Bit-level vocabulary over unbounded integers.  The identifier engine keeps
// its 64-bit values in an arbitrary-precision integer, so the shifts and
// masks it applies are defined here digit by digit: x >> n, x << n, the low
// n bits of x, and bitwise AND / OR.  Every definition recurses through a
// halving or a doubling, which keeps the proofs about them in linear
// arithmetic.
module Bits {

  function Pow2(n: nat): (r: nat)
    ensures r >= 1
  {
    if n == 0 then 1 else 2 * Pow2(n - 1)
  }

  lemma {:induction false} Pow2Monotone(a: nat, b: nat)
    requires a <= b
    ensures Pow2(a) <= Pow2(b)
  {
    if a < b {
      Pow2Monotone(a, b - 1);
    }
  }

  /** x >> n. */
  function Shr(x: nat, n: nat): (r: nat)
    ensures r <= x
  {
    if n == 0 then x else Shr(x / 2, n - 1)
  }

  /** x >> n for either sign of x, as an arbitrary-precision integer shifts:
      the floor of x / 2^n (Dafny's x / 2 rounds down for negative x too). */
  function ShrInt(x: int, n: nat): int
    decreases n
  {
    if n == 0 then x else ShrInt(x / 2, n - 1)
  }

  /** x << n, for either sign of x. */
  function Shl(x: int, n: nat): (r: int)
    ensures x > 0 ==> r >= x
    ensures x == 0 ==> r == 0
    ensures x < 0 ==> r <= x
  {
    if n == 0 then x else 2 * Shl(x, n - 1)
  }

  /** x & ((1 << n) - 1): the low n bits of x. */
  function Low(x: nat, n: nat): (r: nat)
    ensures r < Pow2(n)
  {
    if n == 0 then 0 else 2 * Low(x / 2, n - 1) + x % 2
  }

  /** Eight more places multiply 2^n by 256. */
  lemma {:induction false} Pow2Plus8(n: nat)
    ensures Pow2(n + 8) == 256 * Pow2(n)
  {
    assert Pow2(n + 1) == 2 * Pow2(n);
    assert Pow2(n + 2) == 2 * Pow2(n + 1);
    assert Pow2(n + 3) == 2 * Pow2(n + 2);
    assert Pow2(n + 4) == 2 * Pow2(n + 3);
    assert Pow2(n + 5) == 2 * Pow2(n + 4);
    assert Pow2(n + 6) == 2 * Pow2(n + 5);
    assert Pow2(n + 7) == 2 * Pow2(n + 6);
  }

  /** The powers of two the 64-bit identifiers are built from. */
  lemma {:induction false} Pow2Values()
    ensures Pow2(8) == 0x100 && Pow2(16) == 0x1_0000 && Pow2(32) == 0x1_0000_0000
    ensures Pow2(60) == 0x1000_0000_0000_0000 && Pow2(61) == 0x2000_0000_0000_0000
    ensures Pow2(64) == 0x1_0000_0000_0000_0000
  {
    assert Pow2(8) == 0x100;
    Pow2Plus8(8);
    Pow2Plus8(16);
    Pow2Plus8(24);
    Pow2Plus8(32);
    Pow2Plus8(40);
    Pow2Plus8(48);
    Pow2Plus8(52);
    Pow2Plus8(53);
    Pow2Plus8(56);
  }

  /** Shifting left by n multiplies by 2^n. */
  lemma {:induction false} ShlMul(x: int, n: nat)
    ensures Shl(x, n) == x * Pow2(n)
  {
    if n > 0 {
      ShlMul(x, n - 1);
      assert Shl(x, n) == 2 * Shl(x, n - 1);
      assert Pow2(n) == 2 * Pow2(n - 1);
    }
  }

  lemma {:induction false} ShlOne(n: nat)
    ensures Shl(1, n) == Pow2(n)
  {
    if n > 0 {
      ShlOne(n - 1);
    }
  }

  lemma {:induction false} ShlAdd(x: int, y: int, n: nat)
    ensures Shl(x + y, n) == Shl(x, n) + Shl(y, n)
  {
    if n > 0 {
      ShlAdd(x, y, n - 1);
    }
  }

  lemma {:induction false} ShlNegate(x: int, n: nat)
    ensures Shl(-x, n) == -Shl(x, n)
  {
    if n > 0 {
      ShlNegate(x, n - 1);
    }
  }

  lemma {:induction false} ShlShl(x: int, a: nat, b: nat)
    ensures Shl(Shl(x, a), b) == Shl(x, a + b)
  {
    if b > 0 {
      ShlShl(x, a, b - 1);
    }
  }

  /** Shifting left by one more place doubles. */
  lemma {:induction false} ShlDouble(x: int, n: nat)
    ensures Shl(x, n + 1) == Shl(2 * x, n)
  {
    ShlShl(x, 1, n);
  }

  lemma {:induction false} ShlMonotone(x: int, y: int, n: nat)
    requires x <= y
    ensures Shl(x, n) <= Shl(y, n)
  {
    ShlAdd(y - x, x, n);
  }

  lemma {:induction false} ShlStrict(x: int, y: int, n: nat)
    requires x < y
    ensures Shl(x, n) < Shl(y, n)
  {
    ShlAdd(y - x, x, n);
  }

  /** Shifting right by a and then by b is shifting right by a + b. */
  lemma {:induction false} ShrShr(x: nat, a: nat, b: nat)
    ensures Shr(Shr(x, a), b) == Shr(x, a + b)
  {
    if a > 0 {
      ShrShr(x / 2, a - 1, b);
    }
  }

  /** x is its high part shifted back plus its low n bits. */
  lemma {:induction false} Split(x: nat, n: nat)
    ensures x == Shl(Shr(x, n), n) + Low(x, n)
  {
    if n > 0 {
      Split(x / 2, n - 1);
    }
  }

  /** A high part shifted left by n and a value below 2^n come back apart. */
  lemma {:induction false} SplitUnique(q: nat, b: nat, n: nat)
    requires b < Pow2(n)
    ensures Shr(Shl(q, n) + b, n) == q && Low(Shl(q, n) + b, n) == b
  {
    if n > 0 {
      SplitUnique(q, b / 2, n - 1);
    }
  }

  /** Shifting a value of fewer than n bits left by n and back. */
  lemma {:induction false} ShlShr(q: nat, n: nat)
    ensures Shr(Shl(q, n), n) == q && Low(Shl(q, n), n) == 0
  {
    SplitUnique(q, 0, n);
  }

  /** A value below 2^n has nothing at or above bit n. */
  lemma {:induction false} Small(x: nat, n: nat)
    requires x < Pow2(n)
    ensures Shr(x, n) == 0 && Low(x, n) == x
  {
    SplitUnique(0, x, n);
  }

  /** A value below 2^(n + k), shifted right by n, is below 2^k. */
  lemma {:induction false} ShrBelow(x: nat, n: nat, k: nat, m: nat)
    requires m == n + k && x < Pow2(m)
    ensures Shr(x, n) < Pow2(k)
  {
    if n > 0 {
      ShrBelow(x / 2, n - 1, k, m - 1);
    }
  }

  /** Shifting right is monotone. */
  lemma {:induction false} ShrMonotone(x: nat, y: nat, n: nat)
    requires x <= y
    ensures Shr(x, n) <= Shr(y, n)
  {
    if n > 0 {
      ShrMonotone(x / 2, y / 2, n - 1);
    }
  }

  /** Halving the low n bits of x gives the low n - 1 bits of x / 2. */
  lemma {:induction false} LowHalf(x: nat, n: nat, m: nat)
    requires n == m + 1
    ensures Low(x, n) / 2 == Low(x / 2, m) && Low(x, n) % 2 == x % 2
  {
    assert Low(x, n) == 2 * Low(x / 2, m) + x % 2;
  }

  /** 0 has no bits set. */
  lemma {:induction false} LowOfZero(n: nat)
    ensures Low(0, n) == 0
  {
    if n > 0 {
      LowOfZero(n - 1);
    }
  }

  /** The low a bits of the low a + b bits are the low a bits. */
  lemma {:induction false} LowLow(x: nat, a: nat, b: nat)
    ensures Low(Low(x, a + b), a) == Low(x, a)
  {
    if a > 0 {
      LowHalf(x, a + b, a - 1 + b);
      LowLow(x / 2, a - 1, b);
      LowLowStep(x, a, b);
    }
  }

  lemma {:induction false} LowLowStep(x: nat, a: nat, b: nat)
    requires a > 0
    requires Low(x, a + b) / 2 == Low(x / 2, a - 1 + b) && Low(x, a + b) % 2 == x % 2
    requires Low(Low(x / 2, a - 1 + b), a - 1) == Low(x / 2, a - 1)
    ensures Low(Low(x, a + b), a) == Low(x, a)
  {
  }

  /** The b bits above bit a, read off the low a + b bits. */
  lemma {:induction false} ShrLow(x: nat, a: nat, b: nat)
    ensures Shr(Low(x, a + b), a) == Low(Shr(x, a), b)
  {
    if a > 0 {
      LowHalf(x, a + b, a - 1 + b);
      ShrLow(x / 2, a - 1, b);
      ShrLowStep(x, a, b);
    }
  }

  lemma {:induction false} ShrLowStep(x: nat, a: nat, b: nat)
    requires a > 0
    requires Low(x, a + b) / 2 == Low(x / 2, a - 1 + b)
    requires Shr(Low(x / 2, a - 1 + b), a - 1) == Low(Shr(x / 2, a - 1), b)
    ensures Shr(Low(x, a + b), a) == Low(Shr(x, a), b)
  {
  }

  /** One more place of right shift halves. */
  lemma {:induction false} ShrSucc(x: nat, n: nat)
    ensures Shr(x, n + 1) == Shr(x, n) / 2
  {
    if n > 0 {
      ShrSucc(x / 2, n - 1);
    }
  }

  /** The low bit of y. */
  lemma {:induction false} LowOne(y: nat)
    ensures Low(y, 1) == y % 2
  {
    assert Low(y, 1) == 2 * Low(y / 2, 0) + y % 2;
  }

  /** The low two bits of y. */
  lemma {:induction false} LowTwo(y: nat)
    ensures Low(y, 2) == y % 4
  {
    var h := y / 2;
    assert Low(y, 2) == 2 * Low(h, 1) + y % 2;
    LowOne(h);
    QuarterUnique(y, h / 2, 2 * (h % 2) + y % 2);
  }

  /** Quotient and remainder by 2 are unique. */
  lemma {:induction false} HalfUnique(y: nat, q: nat, r: nat)
    requires r < 2 && y == 2 * q + r
    ensures y / 2 == q && y % 2 == r
  {
  }

  /** Quotient and remainder by 4 are unique. */
  lemma {:induction false} QuarterUnique(y: nat, q: nat, r: nat)
    requires r < 4 && y == 4 * q + r
    ensures y / 4 == q && y % 4 == r
  {
  }

  /** y shifted right by two places. */
  lemma {:induction false} ShrTwo(y: nat)
    ensures Shr(y, 2) == y / 4
  {
    assert Shr(y, 2) == Shr(y / 2, 1) == Shr(y / 2 / 2, 0);
  }

  /** Bit n of x is what the low n + 1 bits hold above bit n. */
  lemma {:induction false} ShrLowSucc(x: nat, n: nat)
    ensures Shr(Low(x, n + 1), n) == Shr(x, n) % 2
    ensures Low(Low(x, n + 1), n) == Low(x, n)
  {
    ShrLow(x, n, 1);
    LowLow(x, n, 1);
    LowOne(Shr(x, n));
  }

  /** Bits n and n + 1 of x, read off x and off its low n + 2 bits. */
  lemma {:induction false} ShrLowPair(x: nat, n: nat)
    ensures Shr(x, n + 2) == Shr(x, n) / 4
    ensures Shr(Low(x, n + 2), n) == Shr(x, n) % 4
    ensures Low(Low(x, n + 2), n) == Low(x, n)
  {
    ShrShr(x, n, 2);
    ShrLow(x, n, 2);
    LowLow(x, n, 2);
    LowTwo(Shr(x, n));
    ShrTwo(Shr(x, n));
  }

  /** Shifting right by a drops the low a bits of a sum with a multiple of 2^a. */
  lemma {:induction false} ShrShlAdd(q: nat, b: nat, a: nat)
    ensures Shr(Shl(q, a) + b, a) == q + Shr(b, a)
    ensures Low(Shl(q, a) + b, a) == Low(b, a)
  {
    Split(b, a);
    ShlAdd(q, Shr(b, a), a);
    SplitUnique(q + Shr(b, a), Low(b, a), a);
  }

  // The lemmas below restate the ones above with every exponent a separate
  // variable, tied to the others by a linear requirement, so that a caller
  // obtains facts about exactly the exponent terms it already holds.

  /** Bit n of x, split off at n and at n + 1 = m. */
  lemma {:induction false} HalfStep(x: nat, n: nat, m: nat)
    requires m == n + 1
    ensures Shr(x, n) == 2 * Shr(x, m) + Shr(x, n) % 2
    ensures Shr(Low(x, m), n) == Shr(x, n) % 2
    ensures Low(Low(x, m), n) == Low(x, n)
  {
    ShrSucc(x, n);
    ShrLowSucc(x, n);
  }

  /** Bits n and n + 1 of x, split off at n and at n + 2 = m. */
  lemma {:induction false} QuarterStep(x: nat, n: nat, m: nat)
    requires m == n + 2
    ensures Shr(x, n) == 4 * Shr(x, m) + Shr(x, n) % 4
    ensures Shr(Low(x, m), n) == Shr(x, n) % 4
    ensures Low(Low(x, m), n) == Low(x, n)
  {
    ShrLowPair(x, n);
  }

  /** A k-bit q placed above an n-bit s fits in m = n + k bits. */
  lemma {:induction false} PlaceBound(q: nat, s: nat, n: nat, k: nat, m: nat)
    requires m == n + k && q < Pow2(k) && s < Pow2(n)
    ensures Shl(q, n) + s < Pow2(m)
  {
    ShlAdd(q, 1, n);
    ShlOne(n);
    ShlMonotone(q + 1, Pow2(k), n);
    ShlOne(k);
    ShlShl(1, k, n);
    ShlOne(m);
  }

  lemma {:induction false} ShlTimes2(x: int, n: nat, m: nat)
    requires m == n + 1
    ensures Shl(2 * x, n) == Shl(x, m)
  {
    ShlDouble(x, n);
  }

  lemma {:induction false} ShlTimes4(x: int, n: nat, m: nat)
    requires m == n + 2
    ensures Shl(4 * x, n) == Shl(x, m)
  {
    ShlDouble(x, n + 1);
    ShlDouble(2 * x, n);
  }

  /** Bit n of x. */
  predicate Bit(x: nat, n: nat)
  {
    Shr(x, n) % 2 == 1
  }

  /** Bitwise AND of two non-negative integers, digit by digit. */
  function BitAnd(a: nat, b: nat): (r: nat)
    ensures r <= a && r <= b
    decreases a + b
  {
    if a == 0 || b == 0 then 0
    else 2 * BitAnd(a / 2, b / 2) + (if a % 2 == 1 && b % 2 == 1 then 1 else 0)
  }

  /** Bitwise OR of two non-negative integers, digit by digit. */
  function BitOr(a: nat, b: nat): (r: nat)
    decreases a + b
  {
    if a == 0 then b
    else if b == 0 then a
    else 2 * BitOr(a / 2, b / 2) + (if a % 2 == 1 || b % 2 == 1 then 1 else 0)
  }

  /** Masking with (1 << n) - 1 keeps the low n bits. */
  lemma {:induction false} AndLowMask(x: nat, n: nat)
    ensures BitAnd(x, Pow2(n) - 1) == Low(x, n)
  {
    if n > 0 {
      MaskHalf(n, n - 1);
      AndLowMask(x / 2, n - 1);
      AndLowMaskStep(x, n, n - 1);
    }
  }

  /** (2^n - 1) / 2 = 2^(n - 1) - 1, with a 1 as its low bit. */
  lemma {:induction false} MaskHalf(n: nat, m: nat)
    requires n == m + 1
    ensures (Pow2(n) - 1) / 2 == Pow2(m) - 1 && (Pow2(n) - 1) % 2 == 1
  {
    assert Pow2(n) - 1 == 2 * (Pow2(m) - 1) + 1;
  }

  lemma {:induction false} AndLowMaskStep(x: nat, n: nat, m: nat)
    requires n == m + 1
    requires (Pow2(n) - 1) / 2 == Pow2(m) - 1 && (Pow2(n) - 1) % 2 == 1
    requires BitAnd(x / 2, Pow2(m) - 1) == Low(x / 2, m)
    ensures BitAnd(x, Pow2(n) - 1) == Low(x, n)
  {
    assert Low(x, n) == 2 * Low(x / 2, m) + x % 2;
    if x == 0 {
      assert Low(x / 2, m) == 0;
    }
  }

  /** Testing x against the single-bit mask 2^n tests bit n of x. */
  lemma {:induction false} AndPow2(x: nat, n: nat)
    ensures BitAnd(x, Pow2(n)) != 0 <==> Bit(x, n)
  {
    if n > 0 && x != 0 {
      AndPow2(x / 2, n - 1);
    }
  }

  lemma {:induction false} AndSymmetric(a: nat, b: nat)
    ensures BitAnd(a, b) == BitAnd(b, a)
    decreases a + b
  {
    if a != 0 && b != 0 {
      AndSymmetric(a / 2, b / 2);
    }
  }

  /** OR of a value shifted left by s and a value below 2^s is their sum. */
  lemma {:induction false} OrDisjoint(a: nat, b: nat, s: nat)
    requires b < Pow2(s)
    ensures BitOr(Shl(a, s), b) == Shl(a, s) + b
  {
    if s > 0 && a != 0 && b != 0 {
      OrDisjoint(a, b / 2, s - 1);
    }
  }

  lemma {:induction false} OrDouble(a: nat, b: nat)
    ensures BitOr(2 * a, 2 * b) == 2 * BitOr(a, b)
  {
    if a != 0 && b != 0 {
      assert (2 * a) / 2 == a && (2 * b) / 2 == b;
    }
  }

  /** Setting bit m of a value whose low m bits are clear sets the low bit of
      its high part. */
  lemma {:induction false} OrPow2(q: nat, m: nat)
    ensures BitOr(Shl(q, m), Pow2(m)) == Shl(q / 2 * 2 + 1, m)
  {
    if m == 0 {
      if q != 0 {
        assert BitOr(q, 1) == 2 * BitOr(q / 2, 0) + 1;
      }
    } else {
      OrPow2(q, m - 1);
      OrDouble(Shl(q, m - 1), Pow2(m - 1));
    }
  }

  /** Number of trailing zero bits of a positive value. */
  function TrailingZeros(x: nat): (t: nat)
    requires x > 0
    ensures Bit(x, t) && Low(x, t) == 0
  {
    if x % 2 == 1 then 0 else 1 + TrailingZeros(x / 2)
  }

  /** Every bit below the trailing-zero count is clear. */
  lemma {:induction false} BelowTrailingZeros(x: nat, n: nat)
    requires x > 0 && n < TrailingZeros(x)
    ensures !Bit(x, n)
  {
    if n > 0 {
      BelowTrailingZeros(x / 2, n - 1);
    }
  }

  /** The lowest set bit of x, or 0 for 0 (the two's-complement x & -x). */
  function LowestSetBit(x: nat): (r: nat)
    ensures x == 0 ==> r == 0
    ensures x > 0 ==> r == Pow2(TrailingZeros(x)) && Bit(x, TrailingZeros(x))
  {
    if x == 0 then 0 else Pow2(TrailingZeros(x))
  }

  /** Two values that agree on their low s bits, the first having a set bit
      there, have the same trailing-zero count. */
  lemma {:induction false} TrailingZerosAgree(x: nat, y: nat, s: nat)
    requires x > 0 && y > 0 && Low(x, s) == Low(y, s) && TrailingZeros(x) < s
    ensures TrailingZeros(y) == TrailingZeros(x)
  {
    if x % 2 == 0 {
      TrailingZerosAgree(x / 2, y / 2, s - 1);
    }
  }

  /** A positive value whose low s bits are clear has at least s trailing zeros. */
  lemma {:induction false} TrailingZerosAtLeast(y: nat, s: nat)
    requires y > 0 && Low(y, s) == 0
    ensures TrailingZeros(y) >= s
  {
    if s > 0 {
      TrailingZerosAtLeast(y / 2, s - 1);
    }
  }

  /** The signed right shift, shifted back, is the largest multiple of 2^n
      not above x. */
  lemma {:induction false} ShrIntBounds(x: int, n: nat)
    ensures Shl(ShrInt(x, n), n) <= x < Shl(ShrInt(x, n), n) + Pow2(n)
    decreases n
  {
    if n > 0 {
      ShrIntBounds(x / 2, n - 1);
      ShrIntStep(x, n);
    }
  }

  lemma {:induction false} ShrIntStep(x: int, n: nat)
    requires n > 0
    requires Shl(ShrInt(x / 2, n - 1), n - 1) <= x / 2 < Shl(ShrInt(x / 2, n - 1), n - 1) + Pow2(n - 1)
    ensures Shl(ShrInt(x, n), n) <= x < Shl(ShrInt(x, n), n) + Pow2(n)
  {
  }

  /** On non-negative values the signed shift is the unsigned one. */
  lemma {:induction false} ShrIntNat(x: nat, n: nat)
    ensures ShrInt(x, n) == Shr(x, n)
  {
    if n > 0 {
      ShrIntNat(x / 2, n - 1);
    }
  }

  /** Adding k * 2^s, for either sign of k, moves the high part by k and
      leaves the low s bits alone, as long as the sum stays non-negative. */
  lemma {:induction false} LowShift(x: nat, k: int, s: nat)
    requires x + Shl(k, s) >= 0
    ensures Shr(x + Shl(k, s), s) == Shr(x, s) + k
    ensures Low(x + Shl(k, s), s) == Low(x, s)
  {
    var q := Shr(x, s);
    Split(x, s);
    ShlAdd(q, k, s);
    if q + k >= 0 {
      SplitUnique(q + k, Low(x, s), s);
    } else {
      ShlMonotone(q + k, -1, s);
      ShlNegate(1, s);
      ShlOne(s);
      assert false;
    }
  }

  /** A set bit t with nothing below it is the lowest set bit. */
  lemma {:induction false} TrailingZerosExact(x: nat, t: nat)
    requires Bit(x, t) && Low(x, t) == 0
    ensures x > 0 && TrailingZeros(x) == t
  {
    if t > 0 {
      LowHalf(x, t, t - 1);
      TrailingZerosExact(x / 2, t - 1);
    }
  }

  /** Clearing the low m bits of x (x & -(2^m)) and setting bit m keeps the
      bits above m and puts a single 1 at m. */
  lemma {:induction false} SetMarker(x: nat, m: nat)
    ensures BitOr(Shl(Shr(x, m), m), Pow2(m)) == Shl(Shr(x, m + 1), m + 1) + Pow2(m)
  {
    var q := Shr(x, m);
    ShrSucc(x, m);
    OrPow2(q, m);
    ShlAdd(q / 2 * 2, 1, m);
    ShlOne(m);
    ShlTimes2(q / 2, m, m + 1);
  }

  /** A high part h above bit m + 1, bit m set and nothing below. */
  lemma {:induction false} MarkerParts(h: nat, m: nat)
    ensures Shr(Shl(h, m + 1) + Pow2(m), m + 1) == h
    ensures Bit(Shl(h, m + 1) + Pow2(m), m) && Low(Shl(h, m + 1) + Pow2(m), m) == 0
  {
    assert Pow2(m + 1) == 2 * Pow2(m);
    SplitUnique(h, Pow2(m), m + 1);
    ShlTimes2(h, m, m + 1);
    ShlAdd(2 * h, 1, m);
    ShlOne(m);
    ShlShr(2 * h + 1, m);
  }

  /** A value is fixed by its bits above m, its bit m and its bits below m. */
  lemma {:induction false} SameParts(x: nat, y: nat, m: nat)
    requires Shr(x, m + 1) == Shr(y, m + 1) && Bit(x, m) == Bit(y, m) && Low(x, m) == Low(y, m)
    ensures x == y
  {
    ShrSucc(x, m);
    ShrSucc(y, m);
    Split(x, m);
    Split(y, m);
  }

  /** The signed right shift is monotone. */
  lemma {:induction false} ShrIntMonotone(x: int, y: int, n: nat)
    requires x <= y
    ensures ShrInt(x, n) <= ShrInt(y, n)
  {
    ShrIntBounds(x, n);
    ShrIntBounds(y, n);
    ShlAdd(ShrInt(y, n), 1, n);
    ShlOne(n);
    if ShrInt(x, n) > ShrInt(y, n) {
      ShlMonotone(ShrInt(y, n) + 1, ShrInt(x, n), n);
      assert false;
    }
  }

  /** x lies between its high part shifted back and the next multiple of 2^n. */
  lemma {:induction false} ShrRange(x: nat, n: nat)
    ensures Shl(Shr(x, n), n) <= x < Shl(Shr(x, n) + 1, n)
  {
    Split(x, n);
    ShlAdd(Shr(x, n), 1, n);
    ShlOne(n);
  }

  /** The only set bit of 2^n is bit n. */
  lemma {:induction false} TrailingZerosPow2(n: nat)
    ensures Pow2(n) > 0 && TrailingZeros(Pow2(n)) == n
  {
    if n > 0 {
      TrailingZerosPow2(n - 1);
      assert Pow2(n) / 2 == Pow2(n - 1);
    }
  }
}
