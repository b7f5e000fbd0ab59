/** 64-bit words and bitmaps as sets of indices. */
module Words {
  import opened Bits

  const WORD_BITS: nat := 64

  /** x &^ m on non-negative integers: the bits of x that are not in m. */
  function AndNot(x: nat, m: nat): nat
    decreases x
  {
    if x == 0 then 0
    else 2 * AndNot(x / 2, m / 2) + (if x % 2 == 1 && m % 2 == 0 then 1 else 0)
  }

  /** bits.OnesCount64 on the low n bits. */
  function OnesCount(x: int, n: nat): nat
    decreases n
  {
    if n == 0 then 0 else x % 2 + OnesCount(x / 2, n - 1)
  }

  /** bits.TrailingZeros64 on the low n bits: n when they are all zero. */
  function TrailingZeros(x: int, n: nat): nat
    decreases n
  {
    if n == 0 || x % 2 == 1 then 0 else 1 + TrailingZeros(x / 2, n - 1)
  }

  lemma {:induction false} OrBit(x: nat, k: nat, j: nat)
    ensures Bit(Or(x, Pow2(k)), j) <==> Bit(x, j) || j == k
    decreases j + k
  {
    var m := Pow2(k);
    assert Or(x, m) / 2 == Or(x / 2, m / 2) && (Or(x, m) % 2 == 1 <==> x % 2 == 1 || m % 2 == 1);
    if j > 0 {
      if k > 0 {
        OrBit(x / 2, k - 1, j - 1);
      } else {
        OrZero(x / 2);
      }
    }
  }

  /** Setting a bit of an n-bit word keeps it an n-bit word. */
  lemma {:induction false} OrFits(x: nat, k: nat, n: nat)
    requires x < Pow2(n) && k < n
    ensures 0 <= Or(x, Pow2(k)) < Pow2(n)
    decreases n
  {
    var m := Pow2(k);
    if k == 0 {
      OrZero(x / 2);
    } else {
      OrFits(x / 2, k - 1, n - 1);
    }
  }

  lemma {:induction false} AndNotBit(x: nat, k: nat, j: nat)
    ensures Bit(AndNot(x, Pow2(k)), j) <==> Bit(x, j) && j != k
    decreases j + k
  {
    if x == 0 {
      BitOfZero(j);
    } else if j > 0 {
      if k > 0 {
        AndNotBit(x / 2, k - 1, j - 1);
      } else {
        AndNotZero(x / 2);
      }
    }
  }

  lemma {:induction false} BitOfZero(j: nat)
    ensures !Bit(0, j)
  {
    if j > 0 {
      BitOfZero(j - 1);
    }
  }

  lemma {:induction false} AndNotZero(x: nat)
    ensures AndNot(x, 0) == x
  {
    if x != 0 {
      AndNotZero(x / 2);
    }
  }

  lemma {:induction false} AndNotAtMost(x: nat, m: nat)
    ensures AndNot(x, m) <= x
    decreases x
  {
    if x != 0 {
      AndNotAtMost(x / 2, m / 2);
    }
  }

  /** Bits of the complement of an n-bit word. */
  lemma {:induction false} NotBit(x: nat, n: nat, j: nat)
    requires x < Pow2(n) && j < n
    ensures Bit(Pow2(n) - 1 - x, j) <==> !Bit(x, j)
    decreases n
  {
    var y := Pow2(n) - 1 - x;
    assert y / 2 == Pow2(n - 1) - 1 - x / 2 && y % 2 == 1 - x % 2;
    if j > 0 {
      NotBit(x / 2, n - 1, j - 1);
    }
  }

  /** TrailingZeros finds the lowest set bit. */
  lemma {:induction false} TrailingZerosLowest(x: int, n: nat)
    ensures TrailingZeros(x, n) <= n
    ensures TrailingZeros(x, n) < n ==> Bit(x, TrailingZeros(x, n))
    ensures forall j: nat :: j < TrailingZeros(x, n) ==> !Bit(x, j)
    decreases n
  {
    if n > 0 && x % 2 != 1 {
      TrailingZerosLowest(x / 2, n - 1);
      forall j: nat | j < TrailingZeros(x, n)
        ensures !Bit(x, j)
      {
        if j > 0 {
          assert !Bit(x / 2, j - 1);
        }
      }
    }
  }

  lemma {:induction false} TrailingZerosOfZero(n: nat)
    ensures TrailingZeros(0, n) == n
  {
    if n > 0 {
      TrailingZerosOfZero(n - 1);
    }
  }

  /** Bit i of a bitmap. */
  predicate Marked(words: seq<nat>, i: nat) {
    i < 64 * |words| && Bit(words[i / 64], i % 64)
  }

  /** The set bits of a bitmap. */
  function MarkedSet(words: seq<nat>): set<nat> {
    set i: nat | i < 64 * |words| && Marked(words, i)
  }

  function TotalOnes(words: seq<nat>): nat {
    if words == [] then 0 else TotalOnes(words[..|words| - 1]) + OnesCount(words[|words| - 1], WORD_BITS)
  }

  /** The positions base + j, j below n, of the set bits of x. */
  ghost function BitsAt(x: int, base: nat, n: nat): set<nat>
    decreases n
  {
    if n == 0 then {} else (if x % 2 == 1 then {base} else {}) + BitsAt(x / 2, base + 1, n - 1)
  }

  lemma {:induction false} BitsAtMember(x: int, base: nat, n: nat, i: nat)
    ensures i in BitsAt(x, base, n) <==> base <= i < base + n && Bit(x, i - base)
    decreases n
  {
    if n > 0 {
      BitsAtMember(x / 2, base + 1, n - 1, i);
    }
  }

  lemma {:induction false} OnesCountIsSize(x: int, base: nat, n: nat)
    ensures |BitsAt(x, base, n)| == OnesCount(x, n)
    decreases n
  {
    if n > 0 {
      OnesCountIsSize(x / 2, base + 1, n - 1);
      BitsAtMember(x / 2, base + 1, n - 1, base);
    }
  }

  /** The set bits of an n-bit word, at positions from base. */
  lemma RowBits(x: int, base: nat, n: nat) returns (row: set<nat>)
    ensures |row| == OnesCount(x, n)
    ensures forall i: nat :: i in row <==> base <= i < base + n && Bit(x, i - base)
  {
    row := BitsAt(x, base, n);
    OnesCountIsSize(x, base, n);
    forall i: nat
      ensures i in row <==> base <= i < base + n && Bit(x, i - base)
    {
      BitsAtMember(x, base, n, i);
    }
  }

  lemma LastRow(words: seq<nat>, n: nat, row: set<nat>)
    requires |words| == n + 1
    requires forall i: nat :: i in row <==> 64 * n <= i < 64 * n + 64 && Bit(words[n], i - 64 * n)
    ensures MarkedSet(words) == MarkedSet(words[..n]) + row && MarkedSet(words[..n]) !! row
  {
    forall i: nat | i < 64 * |words|
      ensures Marked(words, i) <==> i in MarkedSet(words[..n]) || i in row
    {
      if i >= 64 * n {
        assert i / 64 == n && i % 64 == i - 64 * n;
      } else {
        assert words[i / 64] == words[..n][i / 64];
      }
    }
  }

  /** The population count of a bitmap is the number of its set bits. */
  lemma {:induction false} TotalOnesIsSize(words: seq<nat>)
    ensures |MarkedSet(words)| == TotalOnes(words)
  {
    if words != [] {
      var n := |words| - 1;
      TotalOnesIsSize(words[..n]);
      var row := RowBits(words[n], 64 * n, WORD_BITS);
      LastRow(words, n, row);
    }
  }

  /** Setting bit i of a bitmap adds i to the set. */
  lemma MarkAdds(words: seq<nat>, i: nat)
    requires i < 64 * |words| && words[i / 64] < Pow2(WORD_BITS)
    ensures 0 <= Or(words[i / 64], Pow2(i % 64)) < Pow2(WORD_BITS)
    ensures MarkedSet(words[i / 64 := Or(words[i / 64], Pow2(i % 64))]) == MarkedSet(words) + {i}
  {
    var w, k := i / 64, i % 64;
    OrFits(words[w], k, WORD_BITS);
    var words' := words[w := Or(words[w], Pow2(k))];
    forall j: nat | j < 64 * |words|
      ensures Marked(words', j) <==> Marked(words, j) || j == i
    {
      if j / 64 == w {
        OrBit(words[w], k, j % 64);
      }
    }
  }

  /** Clearing bit i of a bitmap removes i from the set. */
  lemma UnmarkRemoves(words: seq<nat>, i: nat)
    requires i < 64 * |words|
    ensures AndNot(words[i / 64], Pow2(i % 64)) <= words[i / 64]
    ensures MarkedSet(words[i / 64 := AndNot(words[i / 64], Pow2(i % 64))]) == MarkedSet(words) - {i}
  {
    var w, k := i / 64, i % 64;
    AndNotAtMost(words[w], Pow2(k));
    var words' := words[w := AndNot(words[w], Pow2(k))];
    forall j: nat | j < 64 * |words|
      ensures Marked(words', j) <==> Marked(words, j) && j != i
    {
      if j / 64 == w {
        AndNotBit(words[w], k, j % 64);
      }
    }
  }

  /** A zeroed bitmap marks nothing. */
  lemma ZeroMarksNothing(words: seq<nat>)
    requires forall w :: 0 <= w < |words| ==> words[w] == 0
    ensures MarkedSet(words) == {}
  {
    forall i: nat | i < 64 * |words|
      ensures !Marked(words, i)
    {
      BitOfZero(i % 64);
    }
  }

  /** The lowest set bit of the complement is the lowest clear bit. */
  lemma LowestClearBit(x: nat, free: nat, k: nat, n: nat)
    requires x < Pow2(n) && free == Pow2(n) - 1 - x && k == TrailingZeros(free, n)
    ensures k <= n && (k < n ==> !Bit(x, k)) && (free == 0 ==> k == n)
    ensures forall j: nat :: j < k ==> Bit(x, j)
  {
    TrailingZerosLowest(free, n);
    if free == 0 {
      TrailingZerosOfZero(n);
    }
    if k < n {
      NotBit(x, n, k);
    }
    forall j: nat | j < k
      ensures Bit(x, j)
    {
      NotBit(x, n, j);
    }
  }

  /** The lowest clear bit k of word w is the lowest unmarked index of its row. */
  lemma LowestClear(words: seq<nat>, w: nat, k: nat)
    requires w < |words| && k <= 64 && (k < 64 ==> !Bit(words[w], k)) && forall j: nat :: j < k ==> Bit(words[w], j)
    ensures forall i: nat :: 64 * w <= i < 64 * w + k ==> i in MarkedSet(words)
    ensures k < 64 ==> 64 * w + k !in MarkedSet(words)
  {
    forall i: nat | 64 * w <= i < 64 * w + k
      ensures i in MarkedSet(words)
    {
      assert i / 64 == w && i % 64 == i - 64 * w;
    }
    if k < 64 {
      assert (64 * w + k) / 64 == w && (64 * w + k) % 64 == k;
    }
  }
}
