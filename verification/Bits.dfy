/** Two's complement bit operations on unbounded integers.

    Go's `int` and `uint64` operators are modelled by these functions: for operands
    that fit the machine word, the infinite two's complement result is the machine result.
 */
module Bits {

  function Pow2(n: nat): (r: nat)
    ensures r >= 1
  {
    if n == 0 then 1 else 2 * Pow2(n - 1)
  }

  /** Bit k of x in two's complement. */
  predicate Bit(x: int, k: nat)
    decreases k
  {
    if k == 0 then x % 2 == 1 else Bit(x / 2, k - 1)
  }

  /** The number formed by the low k bits of x, that is, x mod 2^k. */
  function Low(x: int, k: nat): nat
    decreases k
  {
    if k == 0 then 0 else 2 * Low(x / 2, k - 1) + x % 2
  }

  /** Distance of x from 0 or -1, the two fixed points of halving. */
  function Magnitude(x: int): nat {
    if x < 0 then -x - 1 else x
  }

  function Or(a: int, b: int): int
    decreases Magnitude(a) + Magnitude(b)
  {
    if Magnitude(a) == 0 && Magnitude(b) == 0 then
      if a == -1 || b == -1 then -1 else 0
    else
      2 * Or(a / 2, b / 2) + (if a % 2 == 1 || b % 2 == 1 then 1 else 0)
  }

  lemma {:induction false} Pow2Add(m: nat, n: nat)
    ensures Pow2(m + n) == Pow2(m) * Pow2(n)
  {
    if m > 0 {
      Pow2Add(m - 1, n);
      assert Pow2(m + n) == 2 * (Pow2(m - 1) * Pow2(n));
    }
  }

  lemma {:induction false} Pow2Monotone(m: nat, n: nat)
    requires m <= n
    ensures Pow2(m) <= Pow2(n)
    ensures m < n ==> 2 * Pow2(m) <= Pow2(n)
  {
    if m < n {
      Pow2Monotone(m, n - 1);
    }
  }

  lemma Pow2Table()
    ensures Pow2(0) == 1 && Pow2(1) == 2 && Pow2(2) == 4
    ensures Pow2(8) == 256 && Pow2(16) == 0x1_0000 && Pow2(24) == 0x100_0000 && Pow2(32) == 0x1_0000_0000
  {
    Pow2Add(8, 8);
    Pow2Add(8, 16);
    Pow2Add(16, 16);
  }

  lemma {:induction false} LowBound(x: nat, k: nat)
    ensures Low(x, k) <= x && Low(x, k) < Pow2(k)
    decreases k
  {
    if k > 0 {
      LowBound(x / 2, k - 1);
    }
  }

  /** Numbers of at most k bits are their own low k bits. */
  lemma {:induction false} LowFull(x: nat, k: nat)
    requires x < Pow2(k)
    ensures Low(x, k) == x
    decreases k
  {
    if k > 0 {
      LowFull(x / 2, k - 1);
    }
  }

  /** Clearing the low k bits leaves a number whose low k bits are clear. */
  lemma {:induction false} LowCleared(x: int, k: nat)
    ensures Low(x - Low(x, k), k) == 0
    decreases k
  {
    if k > 0 {
      LowCleared(x / 2, k - 1);
      var y := x - Low(x, k);
      assert y == 2 * (x / 2 - Low(x / 2, k - 1));
    }
  }

  /** A multiple of 2^k is a multiple of every smaller power, and so is it plus that power. */
  lemma {:induction false} LowWeaken(x: int, j: nat, k: nat)
    requires j <= k && Low(x, k) == 0
    ensures Low(x, j) == 0 && Low(x + Pow2(j), j) == 0
    decreases j
  {
    if j > 0 {
      LowWeaken(x / 2, j - 1, k - 1);
      assert (x + Pow2(j)) / 2 == x / 2 + Pow2(j - 1);
    }
  }

  /** Two multiples of 2^k less than 2^k apart are equal. */
  lemma {:induction false} LowSame(x: int, y: int, k: nat)
    requires Low(x, k) == 0 && Low(y, k) == 0 && x - Pow2(k) < y < x + Pow2(k)
    ensures x == y
    decreases k
  {
    if k > 0 {
      LowSame(x / 2, y / 2, k - 1);
    }
  }

  /** The 2^k block after a multiple of 2^k below 2^n ends within 2^n. */
  lemma {:induction false} LowFits(x: nat, k: nat, n: nat)
    requires k <= n && x < Pow2(n) && Low(x, k) == 0
    ensures x + Pow2(k) <= Pow2(n)
    decreases k
  {
    if k > 0 {
      LowFits(x / 2, k - 1, n - 1);
    }
  }

  /** The low k + n bits of x 2^n + y, for y below 2^n. */
  lemma {:induction false} LowShift(x: int, y: nat, k: nat, n: nat)
    requires y < Pow2(n)
    ensures Low(x * Pow2(n) + y, k + n) == Low(x, k) * Pow2(n) + y
    decreases n
  {
    if n > 0 {
      LowShift(x, y / 2, k, n - 1);
      MulDouble(x, Pow2(n - 1));
      MulDouble(Low(x, k), Pow2(n - 1));
      LowDouble(x * Pow2(n - 1), y, k + n);
    }
  }

  lemma MulDouble(x: int, p: nat)
    ensures x * (2 * p) == 2 * (x * p)
  {
  }

  lemma LowDouble(h: int, y: int, k: nat)
    requires k > 0
    ensures Low(2 * h + y, k) == 2 * Low(h + y / 2, k - 1) + y % 2
  {
    var v := 2 * h + y;
    assert v / 2 == h + y / 2 && v % 2 == y % 2;
  }

  /** Bits at or above n do not show in the low k bits, k at most n. */
  lemma {:induction false} LowIgnoresHigh(h: int, b: int, k: nat, n: nat)
    requires k <= n
    ensures Low(h * Pow2(n) + b, k) == Low(b, k)
    decreases k
  {
    if k > 0 {
      LowIgnoresHigh(h, b / 2, k - 1, n - 1);
      MulDouble(h, Pow2(n - 1));
      LowDouble(h * Pow2(n - 1), b, k);
    }
  }

  /** The sign bit of an OR is the OR of the sign bits. */
  lemma {:induction false} OrSign(a: int, b: int)
    ensures Or(a, b) < 0 <==> a < 0 || b < 0
    decreases Magnitude(a) + Magnitude(b)
  {
    if Magnitude(a) != 0 || Magnitude(b) != 0 {
      OrSign(a / 2, b / 2);
    }
  }

  lemma {:induction false} OrZero(a: int)
    ensures Or(a, 0) == a
    decreases Magnitude(a)
  {
    if Magnitude(a) != 0 {
      OrZero(a / 2);
    }
  }

  /** OR of a multiple of 2^k with a number below 2^k is their sum. */
  lemma {:induction false} OrIsSum(hi: int, lo: nat, k: nat)
    requires lo < Pow2(k) && Low(hi, k) == 0
    ensures Or(hi, lo) == hi + lo
    decreases k
  {
    if k == 0 {
      OrZero(hi);
    } else {
      OrIsSum(hi / 2, lo / 2, k - 1);
    }
  }

  /** OR with j trailing ones fills the low j bits. */
  lemma {:induction false} OrTrailingOnes(x: nat, j: nat)
    ensures Or(x, Pow2(j) - 1) == x - Low(x, j) + Pow2(j) - 1
    decreases j
  {
    if j == 0 {
      OrZero(x);
    } else {
      OrTrailingOnes(x / 2, j - 1);
      var m := Pow2(j) - 1;
      assert m / 2 == Pow2(j - 1) - 1 && m % 2 == 1;
    }
  }
}
