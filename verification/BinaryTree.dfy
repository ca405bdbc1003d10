/** The shape of the binary trees, shared by the low and the high level: the row `root + x` is killed
    by the row `root + x - LowestBit(x)`, and victims are taken in increasing order. */
module BinaryTrees {
  import opened Bits
  import opened ReductionTrees
  import opened Rounds

  ghost predicate IsBinary(t: Tree) {
    && Valid(t)
    && (forall s :: t.root < s < t.end ==> t.killer(s) == s - LowestBit(s - t.root) && t.kind(s) == 0)
    && t.ascending(0)
  }

  /** The place of the j-th victim of `m`: the offset of `m` with bit `j` added below its lowest bit. */
  ghost predicate HasVictimAt(t: Tree, m: int, j: nat)
    requires t.root <= m
  {
    ZeroUpTo(m - t.root, j) && m + Pow2(j) < t.end
  }

  lemma VictimHasAPlace(t: Tree, m: int, u: int) returns (j: nat)
    requires IsBinary(t) && IsRow(t, m) && IsVictim(t, m, u)
    ensures HasVictimAt(t, m, j) && u == m + Pow2(j) && j == TrailingZeros(u - t.root)
  {
    RemovedBitLeavesZeros(u - t.root);
    j := TrailingZeros(u - t.root);
  }

  lemma PlaceHoldsAVictim(t: Tree, m: int, j: nat)
    requires IsBinary(t) && IsRow(t, m) && HasVictimAt(t, m, j)
    ensures IsVictim(t, m, m + Pow2(j)) && TrailingZeros(m + Pow2(j) - t.root) == j
  {
    hide IsBinary, Valid, ZeroUpTo, HasBit, Pow2, TrailingZeros;
    AddedBitIsLowest(m - t.root, j);
    KillerByLowestBit(t, m + Pow2(j));
  }

  lemma KillerByLowestBit(t: Tree, s: int)
    requires IsBinary(t) && t.root < s < t.end
    ensures t.killer(s) == s - LowestBit(s - t.root)
  {
  }

  /** Places are filled from below: a victim at `j` leaves room at every smaller place. */
  lemma SmallerPlace(t: Tree, m: int, i: nat, j: nat)
    requires t.root <= m && HasVictimAt(t, m, j) && i <= j
    ensures HasVictimAt(t, m, i)
  {
    ZeroUpToIsDownwardClosed(m - t.root, i, j);
    if i < j { Pow2Grows(i, j); }
  }

  ghost predicate PlaceAfter(t: Tree, m: int, s: int, bit: nat)
    requires Valid(t) && IsRow(t, m)
  {
    if s == t.none then bit == 0 else IsVictim(t, m, s) && bit == TrailingZeros(s - t.root) + 1
  }

  /** The victim after place `bit - 1` sits at place `bit`, or there is none. */
  lemma NextPlace(t: Tree, m: int, s: int, bit: nat, n: int)
    requires IsBinary(t) && IsRow(t, m) && PlaceAfter(t, m, s, bit)
    requires var o := m - t.root;
      n == if WithBit(o, bit) != o && WithBit(o, bit) + t.root < t.end then WithBit(o, bit) + t.root else t.none
    ensures IsNext(t, m, s, n)
  {
    hide ZeroUpTo, HasBit, WithBit, Pow2, TrailingZeros, LowestBit;
    var o := m - t.root;
    if s != t.none {
      var j := VictimHasAPlace(t, m, s);
      assert j + 1 == bit;
      Pow2Grows(j, bit);
    }
    ZeroUpToMeansNoBit(o, bit);
    assert n != t.none <==> HasVictimAt(t, m, bit);
    if n != t.none { PlaceHoldsAVictim(t, m, bit); }
    forall u | Later(t, m, s, u)
      ensures n != t.none && (u != n ==> Before(t, n, u))
    {
      var j := VictimHasAPlace(t, m, u);
      if j < bit {
        if j < bit - 1 { Pow2Grows(j, bit - 1); }
        assert false;
      }
      SmallerPlace(t, m, bit, j);
      if bit < j { Pow2Grows(bit, j); }
    }
  }

  /** The victim before place `j` sits at place `j - 1`. */
  lemma PreviousPlace(t: Tree, m: int, s: int, n: int)
    requires IsBinary(t) && IsRow(t, m) && IsVictim(t, m, s)
    requires n == if s - m > 1 then m + (s - m) / 2 else t.none
    ensures IsPrev(t, m, s, n)
  {
    assert Valid(t);
    hide IsBinary, Valid, IsPrev, ZeroUpTo, HasBit, TrailingZeros, LowestBit, Pow2;
    var j := VictimHasAPlace(t, m, s);
    HalfOfPower(j);
    if j > 0 {
      SmallerPlace(t, m, j - 1, j);
      PlaceHoldsAVictim(t, m, j - 1);
    }
    forall u | IsVictim(t, m, u) && u < s ensures j > 0 && u <= n {
      var i := VictimHasAPlace(t, m, u);
      if j <= i { PowersInOrder(j, i); } else { PowersInOrder(i, j - 1); }
    }
    HighestBelow(t, m, s, n);
  }

  lemma HalfOfPower(j: nat)
    ensures if j == 0 then Pow2(j) == 1 else Pow2(j) > 1 && Pow2(j) / 2 == Pow2(j - 1) < Pow2(j)
  {
  }

  /** Victims are taken upwards: the one before `s` is the highest below it. */
  lemma HighestBelow(t: Tree, m: int, s: int, n: int)
    requires IsBinary(t) && IsVictim(t, m, s)
    requires forall u :: IsVictim(t, m, u) && u < s ==> n != t.none && u <= n
    requires n != t.none ==> IsVictim(t, m, n) && n < s
    ensures IsPrev(t, m, s, n)
  {
    hide LowestBit;
  }

  /** And the last one is the highest. */
  lemma HighestIsLast(t: Tree, m: int, n: int)
    requires IsBinary(t) && IsRow(t, m)
    requires forall u :: IsVictim(t, m, u) ==> n != t.none && u <= n
    requires n != t.none ==> IsVictim(t, m, n)
    ensures IsPrev(t, m, m, n)
  {
    hide LowestBit;
  }

  /** The last victim sits at the largest place `i <= top` that is free and in range, provided no
      victim sits above `top`. Any `top` with `end - root <= 2^(top+1)` does for the root; a logarithm
      rounded down once too often at a power of two still satisfies that. */
  lemma LastPlace(t: Tree, m: int, top: nat, i: int, n: int)
    requires IsBinary(t) && IsRow(t, m) && -1 <= i <= top
    requires m == t.root ==> t.end - t.root <= Pow2(top + 1)
    requires m != t.root ==> !ZeroUpTo(m - t.root, top + 1)
    requires forall j: nat :: i < j <= top ==> !HasVictimAt(t, m, j)
    requires if i == -1 then n == t.none else HasVictimAt(t, m, i) && n == m + Pow2(i)
    ensures IsPrev(t, m, m, n)
  {
    assert t.end <= t.none;
    hide IsBinary, Valid, IsPrev, ZeroUpTo, HasBit, TrailingZeros, LowestBit, Pow2;
    if i >= 0 { PlaceHoldsAVictim(t, m, i); }
    forall u | IsVictim(t, m, u) ensures n != t.none && u <= n {
      var j := VictimHasAPlace(t, m, u);
      if top < j {
        SmallerPlace(t, m, top + 1, j);
        assert false;
      }
      if j <= i { PowersInOrder(j, i); }
    }
    HighestIsLast(t, m, n);
  }

  /** A row at an odd offset kills nobody. */
  lemma OddOffsetHasNoVictim(t: Tree, m: int)
    requires IsBinary(t) && IsRow(t, m) && (m - t.root) % 2 == 1
    ensures IsPrev(t, m, m, t.none)
  {
    forall u ensures !Earlier(t, m, m, u) {
      if Earlier(t, m, m, u) {
        var j := VictimHasAPlace(t, m, u);
      }
    }
  }

  /** Where a scan starts at the lowest set bit of the offset (or the offset is zero), a clear bit has
      only zeros below it. */
  lemma BitsBelowAreZero(offset: nat, i: nat, bit: nat)
    requires i <= bit && !HasBit(offset, i)
    requires offset == 0 || bit == TrailingZeros(offset)
    ensures ZeroUpTo(offset, i)
  {
    if offset == 0 {
      ZeroHasNoBits(i);
    } else {
      NoBitUpToMeansZero(offset, i);
    }
  }

  /* The three searches. The low and the high trees run the same loops on different index ranges. */

  /** The killer of row `m`, for rows above the root. */
  method FindKiller(root: int, m: int) returns (r: int)
    requires root <= m
    ensures r == if m == root then 0 else m - LowestBit(m - root)
  {
    hide LowestBit;
    var tmp1 := m - root;
    var tmp2 := 1;
    if tmp1 == 0 {
      return 0;
    }
    while tmp1 != 0 && tmp1 % 2 == 0
      invariant tmp1 > 0 && tmp2 > 0
      invariant tmp2 * LowestBit(tmp1) == LowestBit(m - root)
      decreases tmp1
    {
      HalvingStep(tmp1, tmp2);
      tmp1 := tmp1 / 2;
      tmp2 := tmp2 * 2;
    }
    LowestBitOfOdd(tmp1);
    return m - tmp2;
  }

  /** Twice the lowest bit of half an even number is its own lowest bit. */
  lemma HalvingStep(x: nat, scale: nat)
    requires x > 0 && x % 2 == 0
    ensures scale * LowestBit(x) == (2 * scale) * LowestBit(x / 2)
  {
    hide LowestBit;
    LowestBitOfHalf(x);
    assert scale * (2 * LowestBit(x / 2)) == (2 * scale) * LowestBit(x / 2);
  }

  /** The place of the lowest set bit, found by looking at one bit after the other. */
  method LowestSetBit(x: nat) returns (bit: nat)
    requires x > 0
    ensures bit == TrailingZeros(x)
  {
    bit := 0;
    while !HasBit(x, bit)
      invariant 0 <= bit <= TrailingZeros(x)
      decreases TrailingZeros(x) - bit
    {
      bit := bit + 1;
    }
  }

  method FindNext(ghost t: Tree, root: int, end: int, none: int, m: int, start: int) returns (r: int)
    requires IsBinary(t) && t.root == root && t.end == end && t.none == none
    requires IsRow(t, m) && ForwardStart(t, m, start)
    ensures IsNext(t, m, start, r)
  {
    assert Valid(t);
    hide IsBinary, Valid, ZeroUpTo, HasBit, TrailingZeros, Pow2, LowestBit, WithBit, IsNext;
    var offset := m - root;
    var bit := 0;
    if start != none {
      bit := LowestSetBit(start - root);
      bit := bit + 1;
    }
    var tmpp := WithBit(offset, bit);
    r := if tmpp != offset && tmpp + root < end then tmpp + root else none;
    NextPlace(t, m, start, bit, r);
  }

  method FindPrev(ghost t: Tree, root: int, end: int, none: int, m: int, start: int) returns (r: int)
    requires IsBinary(t) && t.root == root && t.end == end && t.none == none
    requires IsRow(t, m) && BackwardStart(t, m, start)
    ensures IsPrev(t, m, start, r)
  {
    var offset := m - root;
    if start == m && offset % 2 == 0 {
      r := FindLast(t, root, end, none, m);
      return;
    }
    r := if start - m > 1 then m + (start - m) / 2 else none;
    if start == m {
      OddOffsetHasNoVictim(t, m);
    } else {
      PreviousPlace(t, m, start, r);
    }
  }

  /** The bit from which the last victim is searched downwards. */
  method TopBit(offset: nat, rows: nat) returns (bit: nat)
    requires rows > 0
    ensures offset == 0 ==> rows <= Pow2(bit + 1)
    ensures offset > 0 ==> bit == TrailingZeros(offset) && !ZeroUpTo(offset, bit + 1)
  {
    if offset == 0 {
      bit := FloorLog2(rows);
    } else {
      bit := LowestSetBit(offset);
      ZeroUpToMeansNoBit(offset, bit);
      ZeroUpToMeansNoBit(offset, bit + 1);
    }
  }

  method FindLast(ghost t: Tree, root: int, end: int, none: int, m: int) returns (r: int)
    requires IsBinary(t) && t.root == root && t.end == end && t.none == none
    requires IsRow(t, m)
    ensures IsPrev(t, m, m, r)
  {
    hide IsBinary, IsPrev, ZeroUpTo, HasBit, WithBit, Pow2, TrailingZeros;
    var offset := m - root;
    var bit := TopBit(offset, end - root);
    var i: int := bit;
    while i > -1
      invariant -1 <= i <= bit
      invariant forall j: nat :: i < j <= bit ==> !HasVictimAt(t, m, j)
    {
      var tmp := WithBit(offset, i);
      if offset != tmp && tmp + root < end {
        BitsBelowAreZero(offset, i, bit);
        LastPlace(t, m, bit, i, tmp + root);
        return tmp + root;
      }
      ZeroUpToMeansNoBit(offset, i);
      i := i - 1;
    }
    LastPlace(t, m, bit, -1, none);
    return none;
  }

  /* What the tree achieves. */

  /** The round in which a row dies: the place of the lowest bit of its offset. */
  ghost function RoundOf(t: Tree, s: int): int {
    if t.root < s < t.end then TrailingZeros(s - t.root) + 1 else 0
  }

  ghost function RoundsOf(t: Tree): int -> int {
    s => RoundOf(t, s)
  }

  lemma BinaryRow(t: Tree, count: nat, s: int)
    requires IsBinary(t) && t.end - t.root <= Pow2(count) && t.root < s < t.end
    ensures 1 <= RoundOf(t, s) <= count
    ensures t.killer(s) != t.root ==> RoundOf(t, s) < RoundOf(t, t.killer(s))
  {
    assert t.root <= t.killer(s) < s && t.killer(s) == s - LowestBit(s - t.root);
    hide IsBinary, Pow2, ZeroUpTo, HasBit;
    var x := s - t.root;
    var b := TrailingZeros(x);
    RemovedBitLeavesZeros(x);
    if b >= count { PowersInOrder(count, b); }
    if t.killer(s) != t.root {
      var y := x - LowestBit(x);
      var c := TrailingZeros(y);
      if c <= b {
        ZeroUpToIsDownwardClosed(y, c, b);
        ZeroUpToMeansNoBit(y, c);
      }
    }
  }

  lemma BinaryPair(t: Tree, s: int, u: int)
    requires IsBinary(t) && t.root < s < t.end && t.root < u < t.end
    requires t.killer(s) == t.killer(u) && Before(t, s, u)
    ensures RoundOf(t, s) < RoundOf(t, u)
  {
    assert s < u && t.root <= t.killer(s) < t.end;
    hide IsBinary, Pow2, ZeroUpTo, HasBit, TrailingZeros;
    var i := VictimHasAPlace(t, t.killer(s), s);
    var j := VictimHasAPlace(t, t.killer(s), u);
    if j <= i { PowersInOrder(j, i); }
  }

  lemma BinaryRounds(t: Tree, count: nat)
    requires IsBinary(t) && t.end - t.root <= Pow2(count)
    ensures FitsInRounds(t, RoundsOf(t), count)
  {
    hide IsBinary, RoundOf, Before, Pow2;
    forall s | t.root < s < t.end
      ensures 1 <= RoundOf(t, s) <= count
      ensures t.killer(s) != t.root ==> RoundOf(t, s) < RoundOf(t, t.killer(s))
    {
      BinaryRow(t, count, s);
    }
    forall s, u | t.root < s < t.end && t.root < u < t.end && t.killer(s) == t.killer(u) && Before(t, s, u)
      ensures RoundOf(t, s) < RoundOf(t, u)
    {
      BinaryPair(t, s, u);
    }
  }

  /** The tree fits in a number of rounds if and only if that many halvings leave one row: no tree on as many rows
      is faster. */
  lemma BinaryExactly(t: Tree, count: nat)
    requires IsBinary(t)
    ensures CanFit(t, count) <==> t.end - t.root <= Pow2(count)
  {
    assert Valid(t);
    hide IsBinary, FitsInRounds, Pow2, Valid;
    if t.end - t.root <= Pow2(count) { BinaryRounds(t, count); }
    if CanFit(t, count) {
      var round: int -> int :| FitsInRounds(t, round, count);
      RowsBound(t, round, count);
    }
  }
}
