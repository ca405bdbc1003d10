/** The experimental round-robin permutation of TS rows: at step `k` every full block below the dense
    part of the panel is rotated by `k % a` local rows. */
module RoundRobin {
  import opened Hierarchy
  import opened Integers
  import opened PanelIndex

  /** Where the rotated blocks begin. */
  function RotatedFrom(fr: Frame): int {
    Min((DenseEnd(fr) + Block(fr) - 1) / Block(fr) * Block(fr), fr.mt)
  }

  function RotatedTo(fr: Frame): int {
    fr.mt - fr.mt % Block(fr)
  }

  function Shift(fr: Frame): int {
    fr.p * (fr.k % fr.a)
  }

  predicate IsRotated(fr: Frame, i: int) {
    RotatedFrom(fr) <= i < RotatedTo(fr)
  }

  function Offset(fr: Frame, i: int): int {
    i % Block(fr)
  }

  /** Offset `x` moved by `s` places around a block. */
  function Turned(fr: Frame, x: int, s: int): int {
    (x + s) % Block(fr)
  }

  /** Move `i` by `s` places around its block. */
  function Rotate(fr: Frame, i: int, s: int): int {
    i - Offset(fr, i) + Turned(fr, Offset(fr, i), s)
  }

  function Permuted(fr: Frame, tsrr: bool, i: int): int {
    if tsrr && IsRotated(fr, i) then Rotate(fr, i, Shift(fr)) else i
  }

  function Unpermuted(fr: Frame, tsrr: bool, m: int): int {
    if tsrr && IsRotated(fr, m) then Rotate(fr, m, -Shift(fr)) else m
  }

  ghost predicate IsPermRow(fr: Frame, tsrr: bool, row: seq<int>) {
    && |row| == fr.mt + 1
    && (forall i :: fr.k <= i <= fr.mt ==> row[i] == Permuted(fr, tsrr, i))
    && (forall i :: 0 <= i < fr.k && i <= fr.mt ==> row[i] == if tsrr then -1 else i)
  }

  /* Rotation of one block. */

  lemma RotationUndone(x: int, s: int, d: Pos)
    requires 0 <= x < d
    ensures ((x + s) % d - s) % d == x
  {
    var q := (x + s) / d;
    QuotientTimes(x + s, d);
    assert (x + s) % d - s == x + -q * d;
    QuotientShift(x, d, -q);
    QuotientIs(x, d, 0, x);
  }

  lemma RotationKeepsDomain(fr: Frame, x: int, s: int)
    requires s % fr.p == 0
    ensures (x + s) % Block(fr) % fr.p == x % fr.p
  {
    var p, n := fr.p, x + s;
    QuotientTwice(n, p, fr.a);
    QuotientTimes(n, p);
    QuotientIs((n / p) % fr.a * p + n % p, p, (n / p) % fr.a, n % p);
    QuotientTimes(s, p);
    QuotientShift(x, p, s / p);
  }

  lemma StaysInBlock(i: nat, d: Pos, x: int)
    requires 0 <= x < d
    ensures (i - i % d + x) / d == i / d && (i - i % d + x) % d == x && i - i % d + x >= 0
  {
    QuotientTimes(i, d);
    QuotientAtMost(i, d);
    MulMonotone(0, i / d, d);
    QuotientIs(i - i % d + x, d, i / d, x);
  }

  lemma BlocksAreWhole(fr: Frame, i: int, x: int)
    requires IsRotated(fr, i) && 0 <= x < Block(fr)
    ensures IsRotated(fr, i - i % Block(fr) + x) && fr.k <= i - i % Block(fr)
  {
    hide DenseEnd, Dense, FirstBlock;
    var d := Block(fr);
    Landmarks(fr);
    RoundUp(DenseEnd(fr), d);
    QuotientTimes(fr.mt, d);
    QuotientTimes(i, d);
    QuotientTimes(RotatedFrom(fr), d);
    WholeBlocks(RotatedFrom(fr), i, fr.mt, d);
  }

  /** From one block boundary to another, whole blocks. */
  lemma WholeBlocks(from: int, i: int, mt: int, d: Pos)
    requires from % d == 0 && from <= i < mt - mt % d
    ensures from <= i - i % d && i - i % d + d <= mt - mt % d
  {
    QuotientTimes(from, d);
    QuotientTimes(i, d);
    QuotientTimes(mt, d);
    QuotientMonotone(from, i, d);
    MulMonotone(from / d, i / d, d);
    QuotientShift(mt, d, 0);
    if i / d >= mt / d { MulMonotone(mt / d, i / d, d); }
    MulMonotone(i / d + 1, mt / d, d);
    MulDistributes(i / d, 1, d);
  }

  /** A rotation by whole local rows keeps the block and the domain, and the opposite one undoes it. */
  lemma RotationOfRow(fr: Frame, i: nat, s: int)
    requires IsRotated(fr, i) && s % fr.p == 0
    ensures var m := Rotate(fr, i, s);
      && IsRotated(fr, m) && fr.k <= m < fr.mt && m / Block(fr) == i / Block(fr) && m % fr.p == i % fr.p
      && Rotate(fr, m, -s) == i && i < fr.mt
  {
    var x := Offset(fr, i);
    OffsetInBlock(fr, i);
    TurnedInBlock(fr, x, s);
    RotatedRow(fr, i, Turned(fr, x, s));
    DomainOfBlockRow(fr, i, x);
    DomainOfBlockRow(fr, i, Turned(fr, x, s));
    hide IsRotated, Block, Offset, Turned;
  }

  lemma OffsetInBlock(fr: Frame, i: int)
    ensures 0 <= Offset(fr, i) < Block(fr)
  {
    QuotientTimes(i, Block(fr));
  }

  lemma TurnedInBlock(fr: Frame, x: int, s: int)
    requires 0 <= x < Block(fr) && s % fr.p == 0
    ensures 0 <= Turned(fr, x, s) < Block(fr) && Turned(fr, x, s) % fr.p == x % fr.p
    ensures Turned(fr, Turned(fr, x, s), -s) == x
  {
    QuotientTimes(x + s, Block(fr));
    RotationUndone(x, s, Block(fr));
    RotationKeepsDomain(fr, x, s);
  }

  /** The permutation maps the panel to itself, keeps the domain and the block of every row, leaves the
      dense part and the row past the end alone, and is undone by `Unpermuted`. */
  lemma PermutationIsABijection(fr: Frame, tsrr: bool, i: int)
    requires fr.k < fr.mt && fr.k <= i <= fr.mt
    ensures var m := Permuted(fr, tsrr, i);
      && fr.k <= m <= fr.mt && m / Block(fr) == i / Block(fr) && m % fr.p == i % fr.p
      && Unpermuted(fr, tsrr, m) == i && (m == fr.mt <==> i == fr.mt)
    ensures var j := Unpermuted(fr, tsrr, i);
      && fr.k <= j <= fr.mt && Permuted(fr, tsrr, j) == i
      && j / Block(fr) == i / Block(fr) && j % fr.p == i % fr.p
    ensures i < DenseEnd(fr) && i < fr.mt ==> Permuted(fr, tsrr, i) == i
    ensures fr.a == 1 ==> Permuted(fr, tsrr, i) == i
  {
    hide DenseEnd, IsRotated, Rotate;
    if tsrr && IsRotated(fr, i) {
      QuotientIs(Shift(fr), fr.p, fr.k % fr.a, 0);
      QuotientIs(-Shift(fr), fr.p, -(fr.k % fr.a), 0);
      RotationOfRow(fr, i, Shift(fr));
      RotationOfRow(fr, i, -Shift(fr));
      if fr.a == 1 { NoRotation(fr, i); }
    }
    if i < DenseEnd(fr) && i < fr.mt { DenseIsFixed(fr, i); }
  }

  lemma NoRotation(fr: Frame, i: nat)
    ensures Rotate(fr, i, 0) == i
  {
    QuotientTimes(i, Block(fr));
    QuotientIs(i % Block(fr), Block(fr), 0, i % Block(fr));
  }

  lemma RotatedRow(fr: Frame, i: nat, x: int)
    requires IsRotated(fr, i) && 0 <= x < Block(fr)
    ensures i < fr.mt
    ensures var m := i - Offset(fr, i) + x;
      && fr.k <= m < fr.mt && IsRotated(fr, m)
      && m / Block(fr) == i / Block(fr) && Offset(fr, m) == x
  {
    StaysInBlock(i, Block(fr), x);
    BlocksAreWhole(fr, i, x);
    QuotientTimes(fr.mt, Block(fr));
  }

  lemma DomainOfBlockRow(fr: Frame, i: nat, x: int)
    requires 0 <= x < Block(fr)
    ensures (i - Offset(fr, i) + x) % fr.p == x % fr.p
  {
    QuotientTimes(i, Block(fr));
    MulRegroups(i / Block(fr), fr.a, fr.p);
    MulRegroups(i / Block(fr), fr.p, fr.a);
    QuotientShift(x, fr.p, i / Block(fr) * fr.a);
  }

  lemma DenseIsFixed(fr: Frame, i: int)
    requires 0 <= i < DenseEnd(fr) && i < fr.mt
    ensures !IsRotated(fr, i)
  {
    RoundUp(DenseEnd(fr), Block(fr));
  }

  /** Which blocks are rotated: those below the dense part that are complete. */
  lemma RotatedBlocks(fr: Frame, i: nat)
    ensures fr.p * fr.a > 0
    ensures var first := i - i % (fr.p * fr.a);
      IsRotated(fr, i) <==> DenseEnd(fr) <= first && first + fr.p * fr.a <= fr.mt
  {
    BlockIsProduct(fr);
    Landmarks(fr);
    var d := Block(fr);
    hide DenseEnd, Dense, FirstBlock, Block;
    RoundUp(DenseEnd(fr), d);
    QuotientTimes(i, d);
    QuotientTimes(fr.mt, d);
    var first := i - i % d;
    QuotientIs(first, d, i / d, 0);
    if IsRotated(fr, i) { BlockIsInside(fr, i); } else { BlockIsOutside(fr, i, first); }
  }

  lemma BlockIsInside(fr: Frame, i: nat)
    requires IsRotated(fr, i)
    ensures DenseEnd(fr) <= i - i % Block(fr) && i - i % Block(fr) + Block(fr) <= fr.mt
  {
    var d := Block(fr);
    Landmarks(fr);
    hide DenseEnd, Dense, FirstBlock, Block;
    RoundUp(DenseEnd(fr), d);
    QuotientTimes(fr.mt, d);
    if (DenseEnd(fr) + d - 1) / d * d <= fr.mt {
      WholeBlocks((DenseEnd(fr) + d - 1) / d * d, i, fr.mt, d);
    }
  }

  lemma BlockIsOutside(fr: Frame, i: nat, first: int)
    requires !IsRotated(fr, i) && first == i - i % Block(fr)
    ensures !(DenseEnd(fr) <= first && first + Block(fr) <= fr.mt)
  {
    var d := Block(fr);
    Landmarks(fr);
    hide DenseEnd, Dense, FirstBlock, Block;
    RoundUp(DenseEnd(fr), d);
    QuotientTimes(i, d);
    QuotientTimes(fr.mt, d);
    QuotientIs(first, d, i / d, 0);
    if DenseEnd(fr) <= first && first + d <= fr.mt {
      QuotientMonotone(DenseEnd(fr) + d - 1, first + d - 1, d);
      QuotientIs(first + d - 1, d, i / d, d - 1);
      MulMonotone((DenseEnd(fr) + d - 1) / d, i / d, d);
      QuotientMonotone(first + d, fr.mt, d);
      QuotientIs(first + d, d, i / d + 1, 0) by { MulDistributes(i / d, 1, d); }
      MulMonotone(i / d + 1, fr.mt / d, d);
      MulDistributes(i / d, 1, d);
    }
  }

  /** A rotated row stays in its domain and macro-tile, where its local index moves on by `k`, around the end. */
  lemma RotatedByStep(fr: Frame, i: nat)
    requires IsRotated(fr, i)
    ensures var m := Permuted(fr, true, i);
      m % fr.p == i % fr.p && m / fr.p / fr.a == i / fr.p / fr.a && (m / fr.p) % fr.a == (i / fr.p + fr.k) % fr.a
  {
    var s := fr.k % fr.a;
    QuotientIs(Shift(fr), fr.p, s, 0);
    RotationOfRow(fr, i, Shift(fr));
    var m := Permuted(fr, true, i);
    BlockIsProduct(fr);
    QuotientTwice(i, fr.p, fr.a);
    QuotientTwice(m, fr.p, fr.a);
    TurnedLocally(fr, i);
    hide IsRotated, Rotate, Block, Shift;
  }

  lemma TurnedLocally(fr: Frame, i: nat)
    requires IsRotated(fr, i)
    ensures (Permuted(fr, true, i) / fr.p) % fr.a == (i / fr.p + fr.k) % fr.a
  {
    hide IsRotated, Block;
    BlockIsProduct(fr);
    var x, sh := Offset(fr, i), Shift(fr);
    OffsetInBlock(fr, i);
    OffsetInBlock(fr, x + sh);
    RotatedRow(fr, i, Turned(fr, x, sh));
    var m := Permuted(fr, true, i);
    assert m % Block(fr) == (i % Block(fr) + sh) % Block(fr);
    LocalOfSum(m, i, fr.k, fr.p, fr.a, Block(fr));
  }

  lemma LocalOfSum(m: int, i: int, k: nat, p: Pos, a: Pos, pa: Pos)
    requires pa == p * a && m % pa == (i % pa + p * (k % a)) % pa
    ensures (m / p) % a == (i / p + k) % a
  {
    QuotientTimes(i, pa);
    var y := i % pa + p * (k % a);
    var n := i + p * k;
    QuotientTimes(k, a);
    MulDistributes(k / a * a, k % a, p);
    MulRegroups(k / a, p, a);
    assert n == y + (i / pa + k / a) * pa by { MulDistributes(i / pa, k / a, pa); }
    QuotientShift(y, pa, i / pa + k / a);
    QuotientTwice(m, p, a);
    QuotientTwice(n, p, a);
    QuotientShift(i, p, k);
    QuotientTimes(m, p);
    QuotientTimes(n, p);
    SameParts((m / p) % a, (n / p) % a, m % p, n % p, p);
  }

  lemma SameParts(x: int, y: int, r: int, s: int, p: Pos)
    requires x * p + r == y * p + s && 0 <= r < p && 0 <= s < p
    ensures x == y
  {
    QuotientIs(x * p + r, p, x, r);
    QuotientIs(x * p + r, p, y, s);
  }

  /* The generator. */

  ghost predicate RowDone(fr: Frame, tsrr: bool, perm: array2<int>)
    reads perm
    requires fr.k < perm.Length0 && perm.Length1 == fr.mt + 1
  {
    && (forall i :: fr.k <= i <= fr.mt ==> perm[fr.k, i] == Permuted(fr, tsrr, i))
    && (forall i :: 0 <= i < fr.k && i <= fr.mt ==> perm[fr.k, i] == if tsrr then -1 else i)
  }

  predicate AtBoundary(fr: Frame, i: int) {
    i % Block(fr) == 0
  }

  lemma OutsideStays(fr: Frame, i: int)
    requires !(RotatedFrom(fr) <= i < RotatedTo(fr))
    ensures Permuted(fr, true, i) == i
  {
  }

  /** Rotate the block that starts at `i`. */
  method RotateBlock(perm: array2<int>, fr: Frame, i: nat)
    requires fr.k < perm.Length0 && perm.Length1 == fr.mt + 1
    requires AtBoundary(fr, i) && RotatedFrom(fr) <= i && i + Block(fr) <= RotatedTo(fr) <= fr.mt
    modifies perm
    ensures forall x :: i <= x < i + Block(fr) ==> perm[fr.k, x] == Permuted(fr, true, x)
    ensures forall y, x :: 0 <= y < perm.Length0 && 0 <= x <= fr.mt && (y != fr.k || x < i || i + Block(fr) <= x) ==>
              perm[y, x] == old(perm[y, x])
  {
    var pa := fr.p * fr.a;
    var j := 0;
    while j < pa
      invariant 0 <= j <= pa == Block(fr)
      invariant forall x :: i <= x < i + j ==> perm[fr.k, x] == Permuted(fr, true, x)
      invariant forall y, x ::
                0 <= y < perm.Length0 && 0 <= x <= fr.mt && (y != fr.k || x < i || i + Block(fr) <= x) ==>
                  perm[y, x] == old(perm[y, x])
    {
      PlaceInBlock(fr, i, j);
      perm[fr.k, i + j] := i + (j + fr.p * (fr.k % fr.a)) % pa;
      j := j + 1;
    }
  }

  lemma PlaceInBlock(fr: Frame, i: nat, j: nat)
    requires AtBoundary(fr, i) && RotatedFrom(fr) <= i && i + Block(fr) <= RotatedTo(fr) && j < Block(fr)
    ensures Permuted(fr, true, i + j) == i + (j + Shift(fr)) % Block(fr)
  {
    QuotientTimes(i, Block(fr));
    QuotientIs(i + j, Block(fr), i / Block(fr), j);
  }

  lemma Boundaries(fr: Frame)
    requires fr.k < fr.mt
    ensures fr.k <= RotatedFrom(fr) <= fr.mt && 0 <= RotatedTo(fr) <= fr.mt
    ensures AtBoundary(fr, RotatedFrom(fr)) || RotatedFrom(fr) >= RotatedTo(fr)
  {
    Landmarks(fr);
    RoundUp(DenseEnd(fr), Block(fr));
    QuotientTimes(fr.mt, Block(fr));
    QuotientAtMost(fr.mt, Block(fr));
    MulMonotone(0, fr.mt / Block(fr), Block(fr));
  }

  /** One row of the permutation table. */
  method FillRow(perm: array2<int>, fr: Frame)
    requires fr.k < fr.mt && fr.k < perm.Length0 && perm.Length1 == fr.mt + 1
    requires forall i :: 0 <= i <= fr.mt ==> perm[fr.k, i] == -1
    modifies perm
    ensures RowDone(fr, true, perm)
    ensures forall y, x :: 0 <= y < perm.Length0 && 0 <= x <= fr.mt && y != fr.k ==> perm[y, x] == old(perm[y, x])
  {
    var end2 := (DenseEnd(fr) + Block(fr) - 1) / Block(fr) * Block(fr);
    end2 := Min(end2, fr.mt);
    var endpa := fr.mt - fr.mt % Block(fr);
    assert end2 == RotatedFrom(fr) && endpa == RotatedTo(fr);
    Boundaries(fr);
    FillColumns(perm, fr, end2, endpa);
  }

  method FillColumns(perm: array2<int>, fr: Frame, end2: nat, endpa: nat)
    requires fr.k < fr.mt && fr.k < perm.Length0 && perm.Length1 == fr.mt + 1
    requires end2 == RotatedFrom(fr) && endpa == RotatedTo(fr)
    requires fr.k <= end2 <= fr.mt && endpa <= fr.mt && (AtBoundary(fr, end2) || end2 >= endpa)
    requires forall i :: 0 <= i <= fr.mt ==> perm[fr.k, i] == -1
    modifies perm
    ensures RowDone(fr, true, perm)
    ensures forall y, x :: 0 <= y < perm.Length0 && 0 <= x <= fr.mt && y != fr.k ==> perm[y, x] == old(perm[y, x])
  {
    hide RotatedFrom, RotatedTo, Block, Permuted, AtBoundary;
    var i := KeepRows(perm, fr, fr.k, end2);
    i := RotateBlocks(perm, fr, i, endpa);
    i := KeepRows(perm, fr, i, fr.mt);
    OutsideStays(fr, fr.mt);
    perm[fr.k, fr.mt] := fr.mt;
  }

  /** Rows that are not rotated. */
  method KeepRows(perm: array2<int>, fr: Frame, from: nat, to: nat) returns (i: nat)
    requires fr.k < perm.Length0 && perm.Length1 == fr.mt + 1 && from <= to <= fr.mt
    requires to <= RotatedFrom(fr) || RotatedTo(fr) <= from
    modifies perm
    ensures i == to
    ensures forall x :: from <= x < to ==> perm[fr.k, x] == Permuted(fr, true, x)
    ensures forall y, x :: 0 <= y < perm.Length0 && 0 <= x <= fr.mt && (y != fr.k || x < from || to <= x) ==>
              perm[y, x] == old(perm[y, x])
  {
    hide RotatedFrom, RotatedTo, Permuted;
    i := from;
    while i < to
      invariant from <= i <= to
      invariant forall x :: from <= x < i ==> perm[fr.k, x] == Permuted(fr, true, x)
      invariant forall y, x :: 0 <= y < perm.Length0 && 0 <= x <= fr.mt && (y != fr.k || x < from || to <= x) ==>
                  perm[y, x] == old(perm[y, x])
    {
      OutsideStays(fr, i);
      perm[fr.k, i] := i;
      i := i + 1;
    }
  }

  method RotateBlocks(perm: array2<int>, fr: Frame, from: nat, to: nat) returns (i: nat)
    requires fr.k < perm.Length0 && perm.Length1 == fr.mt + 1 && from <= fr.mt && to <= fr.mt
    requires from == RotatedFrom(fr) && to == RotatedTo(fr) && (AtBoundary(fr, from) || from >= to)
    modifies perm
    ensures i == Max(from, to)
    ensures forall x :: from <= x < i ==> perm[fr.k, x] == Permuted(fr, true, x)
    ensures forall y, x :: 0 <= y < perm.Length0 && 0 <= x <= fr.mt && (y != fr.k || x < from || i <= x) ==>
              perm[y, x] == old(perm[y, x])
  {
    hide RotatedFrom, RotatedTo, Block, Permuted, AtBoundary;
    i := from;
    while i < to
      invariant from <= i <= Max(from, to) && (AtBoundary(fr, i) || i >= to)
      invariant forall x :: from <= x < i ==> perm[fr.k, x] == Permuted(fr, true, x)
      invariant forall y, x :: 0 <= y < perm.Length0 && 0 <= x <= fr.mt && (y != fr.k || x < from || i <= x) ==>
                  perm[y, x] == old(perm[y, x])
    {
      NextBlock(fr, i);
      RotateBlock(perm, fr, i);
      i := i + Block(fr);
    }
  }

  lemma NextBlock(fr: Frame, i: nat)
    requires AtBoundary(fr, i)
    ensures AtBoundary(fr, i + Block(fr))
    ensures i < RotatedTo(fr) ==> i + Block(fr) <= RotatedTo(fr)
  {
    QuotientShift(i, Block(fr), 1);
    if i < RotatedTo(fr) { WholeBlocks(i, i, fr.mt, Block(fr)); }
  }

  /** The table for all steps: one row per step. */
  method GenPerm(mt: Pos, nt: Pos, a: Pos, p: Pos, domino: bool, tsrr: bool, ldd: Pos) returns (perm: array2<int>)
    ensures fresh(perm) && perm.Length0 == Min(mt, nt) && perm.Length1 == mt + 1
    ensures forall k :: 0 <= k < Min(mt, nt) ==> RowDone(Frame(mt, p, a, domino, k, ldd), tsrr, perm)
  {
    var minMN := Min(mt, nt);
    if tsrr {
      perm := new int[minMN, mt + 1]((k, i) => -1);
      var k := 0;
      while k < minMN
        invariant 0 <= k <= minMN
        invariant forall y :: 0 <= y < k ==> RowDone(Frame(mt, p, a, domino, y, ldd), tsrr, perm)
        invariant forall y, x :: k <= y < minMN && 0 <= x <= mt ==> perm[y, x] == -1
      {
        FillRow(perm, Frame(mt, p, a, domino, k, ldd));
        k := k + 1;
      }
    } else {
      perm := new int[minMN, mt + 1]((k, i) => i);
    }
  }
}
