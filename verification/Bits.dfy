/** Bits of non-negative integers, as the binary trees use them: `x & (1 << b)`, `x | (1 << b)`,
    the lowest set bit, and the integer logarithm. */
module Bits {

  function Pow2(b: nat): (r: nat)
    ensures r >= 1
  {
    if b == 0 then 1 else 2 * Pow2(b - 1)
  }

  /** `(x & (1 << b)) != 0` */
  predicate HasBit(x: nat, b: nat) {
    if b == 0 then x % 2 == 1 else HasBit(x / 2, b - 1)
  }

  /** `x | (1 << b)` */
  function WithBit(x: nat, b: nat): (r: nat)
    ensures r == if HasBit(x, b) then x else x + Pow2(b)
  {
    if b == 0 then (if x % 2 == 1 then x else x + 1) else 2 * WithBit(x / 2, b - 1) + x % 2
  }

  /** The number of zero bits below the lowest set bit. */
  function TrailingZeros(x: nat): (b: nat)
    requires x > 0
    ensures HasBit(x, b) && forall i: nat :: i < b ==> !HasBit(x, i)
  {
    if x % 2 == 1 then 0 else
      var b := TrailingZeros(x / 2);
      assert forall i: nat :: 0 < i < b + 1 ==> HasBit(x, i) == HasBit(x / 2, i - 1);
      b + 1
  }

  function LowestBit(x: nat): nat
    requires x > 0
  {
    Pow2(TrailingZeros(x))
  }

  /** All bits of `o` up to and including bit `j` are zero. */
  predicate ZeroUpTo(o: nat, j: nat) {
    o % 2 == 0 && (j == 0 || ZeroUpTo(o / 2, j - 1))
  }

  lemma {:induction false} ZeroUpToMeansNoBit(o: nat, j: nat)
    ensures ZeroUpTo(o, j) <==> (j == 0 || ZeroUpTo(o, j - 1)) && !HasBit(o, j)
  {
    if j > 0 { ZeroUpToMeansNoBit(o / 2, j - 1); }
  }

  lemma {:induction false} ZeroUpToIsDownwardClosed(o: nat, i: nat, j: nat)
    requires ZeroUpTo(o, j) && i <= j
    ensures ZeroUpTo(o, i)
  {
    if i < j { ZeroUpToMeansNoBit(o, j); ZeroUpToIsDownwardClosed(o, i, j - 1); }
  }

  lemma LowestBitOfHalf(x: nat)
    requires x > 0 && x % 2 == 0
    ensures TrailingZeros(x) == TrailingZeros(x / 2) + 1 && LowestBit(x) == 2 * LowestBit(x / 2)
  {
    hide HasBit;
  }

  lemma LowestBitOfOdd(x: nat)
    requires x % 2 == 1
    ensures TrailingZeros(x) == 0 && LowestBit(x) == 1
  {
  }

  /** Adding a bit below every set bit makes it the lowest one. */
  lemma {:induction false} AddedBitIsLowest(o: nat, j: nat)
    requires ZeroUpTo(o, j)
    ensures TrailingZeros(o + Pow2(j)) == j
  {
    hide TrailingZeros, HasBit, LowestBit;
    if j == 0 {
      LowestBitOfOdd(o + Pow2(j));
    } else {
      AddedBitIsLowest(o / 2, j - 1);
      assert (o + Pow2(j)) / 2 == o / 2 + Pow2(j - 1);
      LowestBitOfHalf(o + Pow2(j));
    }
  }

  /** Removing the lowest set bit leaves zeros up to and including its place. */
  lemma {:induction false} RemovedBitLeavesZeros(x: nat)
    requires x > 0
    ensures LowestBit(x) <= x
    ensures ZeroUpTo(x - LowestBit(x), TrailingZeros(x))
  {
    hide LowestBit, TrailingZeros;
    if x % 2 == 0 {
      RemovedBitLeavesZeros(x / 2);
      LowestBitOfHalf(x);
      assert (x - LowestBit(x)) / 2 == x / 2 - LowestBit(x / 2);
    } else {
      LowestBitOfOdd(x);
    }
  }

  lemma {:induction false} ZeroHasNoBits(i: nat)
    ensures ZeroUpTo(0, i)
  {
    if i > 0 { ZeroHasNoBits(i - 1); }
  }

  lemma {:induction false} NoBitUpToMeansZero(x: nat, i: nat)
    requires forall j: nat :: j <= i ==> !HasBit(x, j)
    ensures ZeroUpTo(x, i)
  {
    ZeroUpToMeansNoBit(x, i);
    if i > 0 { NoBitUpToMeansZero(x, i - 1); }
  }

  lemma {:induction false} Pow2Grows(i: nat, j: nat)
    requires i < j
    ensures Pow2(i) < Pow2(j)
  {
    if i + 1 < j { Pow2Grows(i, j - 1); }
  }

  lemma PowersInOrder(i: nat, j: nat)
    requires i <= j
    ensures Pow2(i) <= Pow2(j)
  {
    if i < j { Pow2Grows(i, j); }
  }

  /** The integer part of the logarithm to base two. */
  function FloorLog2(n: nat): (b: nat)
    requires n > 0
    ensures Pow2(b) <= n < Pow2(b + 1)
  {
    if n == 1 then 0 else FloorLog2(n / 2) + 1
  }
}
