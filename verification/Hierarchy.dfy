/** One step of the hierarchical tree as a whole: TS chains inside macro-tiles, a low-level tree over
    the macro-tiles of each domain, the domino chain, and a high-level tree over the domains.

    Row `m` belongs to domain `m % p`, where its local index is `m / p`; `a` consecutive local rows make
    a macro-tile. */
module Hierarchy {
  import opened Integers

  datatype Frame = Frame(mt: Pos, p: Pos, a: Pos, domino: bool, k: nat, ldd: Pos)

  /** The local index of the row a domain's low-level tree reduces to: the first row of the domain at
      or below the diagonal, or, with the domino tree, the local row `k`. */
  function Diagonal(fr: Frame, rank: int): int {
    if fr.domino then fr.k else (fr.k + fr.p - 1 - rank) / fr.p
  }

  function Root(fr: Frame, rank: int): int {
    Diagonal(fr, rank) / fr.a
  }

  /** 0: TS kernel, 1: low-level tree, 2: domino, 3: high-level tree. */
  function Kind(fr: Frame, m: int): int {
    if m < fr.k + fr.p then 3
    else if fr.domino && m < fr.p * (fr.k + 1) then 2
    else if (m / fr.p) % fr.a == 0 then 1
    else 0
  }

  /** `ldd` macro-tiles are just enough for all rows. */
  ghost predicate Fits(fr: Frame) {
    fr.k < fr.mt && (fr.ldd - 1) * fr.a * fr.p < fr.mt <= fr.ldd * fr.a * fr.p
  }

  ghost predicate InPanel(fr: Frame, m: int) {
    fr.k <= m < fr.mt
  }

  function Local(fr: Frame, m: int): int { m / fr.p }
  function Rank(fr: Frame, m: int): int { m % fr.p }
  function Macro(fr: Frame, m: int): int { m / fr.p / fr.a }

  /* Geometry of one row. */

  lemma RowIndex(fr: Frame, l: int, rank: int)
    requires 0 <= rank < fr.p
    ensures Local(fr, l * fr.p + rank) == l && Rank(fr, l * fr.p + rank) == rank
  {
    QuotientIs(l * fr.p + rank, fr.p, l, rank);
  }

  lemma RowParts(fr: Frame, m: nat)
    ensures m == Local(fr, m) * fr.p + Rank(fr, m) && 0 <= Rank(fr, m) < fr.p && Local(fr, m) >= 0
    ensures Local(fr, m) == Macro(fr, m) * fr.a + Local(fr, m) % fr.a && 0 <= Local(fr, m) % fr.a < fr.a
    ensures Macro(fr, m) >= 0
  {
    QuotientTimes(m, fr.p);
    QuotientAtMost(m, fr.p);
    QuotientTimes(m / fr.p, fr.a);
    QuotientAtMost(m / fr.p, fr.a);
  }

  lemma SameDomainOrder(fr: Frame, l: int, l': int, rank: int)
    ensures l < l' <==> l * fr.p + rank < l' * fr.p + rank
    ensures l < l' ==> l * fr.p + fr.p <= l' * fr.p
  {
    if l < l' { MulMonotone(l + 1, l', fr.p); MulDistributes(l, 1, fr.p); }
    if l' <= l { MulMonotone(l', l, fr.p); }
  }

  /** The diagonal row of a domain is in the panel; without the domino tree it is in the band. */
  lemma DiagonalRow(fr: Frame, rank: int)
    requires 0 <= rank < fr.p
    ensures Diagonal(fr, rank) >= 0 && Root(fr, rank) >= 0
    ensures Diagonal(fr, rank) * fr.p + rank >= fr.k
    ensures !fr.domino ==> Diagonal(fr, rank) * fr.p + rank < fr.k + fr.p
    ensures fr.domino ==> Diagonal(fr, rank) == fr.k
  {
    if fr.domino {
      MulMonotone(1, fr.p, fr.k);
    } else {
      FirstAtOrAfter(fr.k, fr.p, rank);
    }
    QuotientMonotone(0, Diagonal(fr, rank), fr.a);
    QuotientIs(0, fr.a, 0, 0);
  }

  /** The first number of a residue at or after `k`. */
  lemma FirstAtOrAfter(k: nat, p: Pos, rank: int)
    requires 0 <= rank < p
    ensures var q := (k + p - 1 - rank) / p; q >= 0 && k <= q * p + rank < k + p
  {
    QuotientTimes(k + p - 1 - rank, p);
    QuotientMonotone(0, k + p - 1 - rank, p);
    QuotientIs(0, p, 0, 0);
  }

  /** The two lower kinds are exactly the rows below the diagonal row of their domain. */
  lemma KindByDiagonal(fr: Frame, m: int)
    requires fr.k <= m
    ensures Kind(fr, m) <= 1 <==> Local(fr, m) > Diagonal(fr, Rank(fr, m))
    ensures !fr.domino ==> Local(fr, m) >= Diagonal(fr, Rank(fr, m))
    ensures Local(fr, m) >= Diagonal(fr, Rank(fr, m)) ==> Macro(fr, m) >= Root(fr, Rank(fr, m))
    ensures Kind(fr, m) == 1 ==> Macro(fr, m) > Root(fr, Rank(fr, m))
  {
    hide Diagonal, Kind;
    var l, rank := Local(fr, m), Rank(fr, m);
    var f := Diagonal(fr, rank);
    RowParts(fr, m);
    DiagonalRow(fr, rank);
    LowKinds(fr, m);
    SameDomainOrder(fr, l, f, rank);
    SameDomainOrder(fr, f, l, rank);
    if fr.domino { DominoBoundary(fr, l, rank); }
    if l >= f { QuotientMonotone(f, l, fr.a); }
    if l > f && l % fr.a == 0 { BoundaryIsLater(f, l, fr.a); }
  }

  lemma LowKinds(fr: Frame, m: int)
    ensures Kind(fr, m) <= 1 <==> m >= fr.k + fr.p && (fr.domino ==> m >= fr.p * (fr.k + 1))
    ensures Kind(fr, m) == 1 ==> Local(fr, m) % fr.a == 0
  {
  }

  /** The kind of a row by the row above it in its domain: there is none in the panel, or it is at or above the local
      diagonal, or it is in the same macro-tile, or in the one before. */
  lemma KindByRowAbove(fr: Frame, m: int)
    requires fr.k <= m
    ensures Kind(fr, m) == 3 <==> m - fr.p < fr.k
    ensures Kind(fr, m) == 2 <==> m - fr.p >= fr.k && fr.domino && m / fr.p <= fr.k
    ensures Kind(fr, m) == 0 <==>
            m - fr.p >= fr.k && (fr.domino ==> m / fr.p > fr.k) && (m - fr.p) / fr.p / fr.a == m / fr.p / fr.a
  {
    var l := Local(fr, m);
    RowParts(fr, m);
    QuotientShift(m, fr.p, -1);
    DominoBoundary(fr, l, Rank(fr, m));
    if m >= fr.p {
      QuotientMonotone(fr.p, m, fr.p);
      QuotientIs(fr.p, fr.p, 1, 0);
      StaysInMacro(fr, l - 1);
      if l % fr.a == 0 { BoundaryIsLater(l - 1, l, fr.a); }
    }
  }

  /** The rows of the domino tree and above are the local rows up to `k`. */
  lemma DominoBoundary(fr: Frame, l: int, rank: int)
    requires 0 <= rank < fr.p
    ensures l * fr.p + rank >= fr.p * (fr.k + 1) <==> l > fr.k
    ensures fr.p * (fr.k + 1) >= fr.k + fr.p
  {
    assert fr.p * (fr.k + 1) == (fr.k + 1) * fr.p;
    MulDistributes(fr.k, 1, fr.p);
    MulMonotone(1, fr.p, fr.k);
    if l > fr.k { MulMonotone(fr.k + 1, l, fr.p); } else { MulMonotone(l, fr.k, fr.p); }
  }

  /** A multiple of `a` opens a new macro-tile. */
  lemma BoundaryIsLater(f: int, l: int, a: Pos)
    requires f < l && l % a == 0
    ensures f / a < l / a
  {
    QuotientMonotone(f, l - 1, a);
    QuotientTimes(l, a);
    MulDistributes(l / a, -1, a);
    QuotientIs(l - 1, a, l / a - 1, a - 1);
  }

  /** A macro-tile above the root's starts below the diagonal row. */
  lemma HeadBelowDiagonal(fr: Frame, t: int, rank: int)
    requires 0 <= rank < fr.p && Root(fr, rank) < t
    ensures t * fr.a > Diagonal(fr, rank)
  {
    var f := Diagonal(fr, rank);
    QuotientTimes(f, fr.a);
    MulMonotone(f / fr.a + 1, t, fr.a);
    MulDistributes(f / fr.a, 1, fr.a);
  }

  lemma MacroInRange(fr: Frame, m: int)
    requires Fits(fr) && 0 <= m < fr.mt
    ensures 0 <= Macro(fr, m) < fr.ldd
  {
    RowParts(fr, m);
    if Macro(fr, m) >= fr.ldd {
      MulMonotone(fr.ldd, Macro(fr, m), fr.a);
      MulMonotone(fr.ldd * fr.a, Local(fr, m), fr.p);
    }
  }

  /* Heads of macro-tiles. */

  /** The row that stands for macro-tile `t` in the low-level tree of its domain. */
  function Head(fr: Frame, t: int, rank: int): int {
    if t == Root(fr, rank) then Diagonal(fr, rank) * fr.p + rank else t * fr.a * fr.p + rank
  }

  ghost predicate IsHead(fr: Frame, m: int) {
    || Local(fr, m) == Diagonal(fr, Rank(fr, m))
    || (Local(fr, m) > Diagonal(fr, Rank(fr, m)) && Local(fr, m) % fr.a == 0)
  }

  lemma HeadOfMacro(fr: Frame, t: int, rank: int)
    requires 0 <= rank < fr.p && Root(fr, rank) <= t
    ensures var h := Head(fr, t, rank);
      Rank(fr, h) == rank && Macro(fr, h) == t && IsHead(fr, h) && h >= fr.k
      && Local(fr, h) == if t == Root(fr, rank) then Diagonal(fr, rank) else t * fr.a
  {
    DiagonalRow(fr, rank);
    RowIndex(fr, Diagonal(fr, rank), rank);
    RowIndex(fr, t * fr.a, rank);
    if t != Root(fr, rank) {
      HeadBelowDiagonal(fr, t, rank);
      QuotientIs(t * fr.a, fr.a, t, 0);
      SameDomainOrder(fr, Diagonal(fr, rank), t * fr.a, rank);
    }
  }

  lemma HeadIsUnique(fr: Frame, m: int)
    requires fr.k <= m && IsHead(fr, m)
    ensures m == Head(fr, Macro(fr, m), Rank(fr, m)) && Macro(fr, m) >= Root(fr, Rank(fr, m))
  {
    var rank := Rank(fr, m);
    RowParts(fr, m);
    if Local(fr, m) != Diagonal(fr, rank) {
      KindByDiagonal(fr, m);
      if Macro(fr, m) == Root(fr, rank) {
        QuotientTimes(Diagonal(fr, rank), fr.a);
        assert false;
      }
    }
  }

  /** Inside one macro-tile, the rows after the head are the TS rows. */
  lemma TSRow(fr: Frame, u: int)
    requires fr.k <= u
    ensures Kind(fr, u) == 0 <==>
              Macro(fr, u) >= Root(fr, Rank(fr, u))
              && Local(fr, u) > Local(fr, Head(fr, Macro(fr, u), Rank(fr, u)))
  {
    var rank := Rank(fr, u);
    RowParts(fr, u);
    KindByDiagonal(fr, u);
    DiagonalRow(fr, rank);
    if Macro(fr, u) >= Root(fr, rank) {
      HeadOfMacro(fr, Macro(fr, u), rank);
      if Macro(fr, u) > Root(fr, rank) { HeadBelowDiagonal(fr, Macro(fr, u), rank); }
      if Macro(fr, u) == Root(fr, rank) { QuotientTimes(Diagonal(fr, rank), fr.a); }
    }
  }

  /** Every row above the TS kind heads a macro-tile, except the domino rows above the local diagonal. */
  lemma HeadByKind(fr: Frame, m: int)
    requires fr.k <= m
    ensures Kind(fr, m) > 0 && !(fr.domino && Local(fr, m) < fr.k) ==> IsHead(fr, m)
    ensures fr.domino && Local(fr, m) < fr.k ==> !IsHead(fr, m)
    ensures Kind(fr, m) == 0 ==> !IsHead(fr, m)
  {
    RowParts(fr, m);
    KindByDiagonal(fr, m);
    DiagonalRow(fr, Rank(fr, m));
  }

  lemma DiagonalNearStep(fr: Frame, rank: int)
    requires !fr.domino && 0 <= rank < fr.p
    ensures fr.k / fr.p <= Diagonal(fr, rank) <= fr.k / fr.p + 1
  {
    QuotientMonotone(fr.k, fr.k + fr.p - 1 - rank, fr.p);
    QuotientMonotone(fr.k + fr.p - 1 - rank, fr.k + 1 * fr.p, fr.p);
    QuotientShift(fr.k, fr.p, 1);
  }

  lemma CrossingStartsAMacro(fr: Frame, l: nat, f: nat)
    requires l <= f <= l + 1 && f / fr.a != l / fr.a
    ensures f == f / fr.a * fr.a && f / fr.a >= l / fr.a
  {
    StaysInMacro(fr, l);
    QuotientTimes(f, fr.a);
    QuotientMonotone(l, f, fr.a);
  }

  /** Without the domino tree the code finds the head of the root macro-tile from the distance of a row
      to the diagonal, and tests for the root with the macro-tile of row `k`. Where the band crosses
      into the next macro-tile the two notions of root differ, but the heads agree. */
  lemma HeadWithoutDomino(fr: Frame, t: int, m: int)
    requires !fr.domino && fr.k <= m && Root(fr, Rank(fr, m)) <= t
    ensures fr.p * fr.a > 0
    ensures Head(fr, t, Rank(fr, m)) ==
            if t == fr.k / (fr.p * fr.a) then fr.k + (m - fr.k) % fr.p else t * fr.a * fr.p + Rank(fr, m)
  {
    hide Diagonal;
    var rank := Rank(fr, m);
    RowParts(fr, m);
    RowParts(fr, fr.k);
    DiagonalRow(fr, rank);
    DiagonalNearStep(fr, rank);
    QuotientTwice(fr.k, fr.p, fr.a);
    FirstRowOfDomain(fr, m);
    if Root(fr, rank) != fr.k / fr.p / fr.a {
      CrossingStartsAMacro(fr, fr.k / fr.p, Diagonal(fr, rank));
    }
  }

  /** The first row of `m`'s domain in the panel. */
  lemma FirstRowOfDomain(fr: Frame, m: int)
    requires !fr.domino && fr.k <= m
    ensures fr.k + (m - fr.k) % fr.p == Diagonal(fr, Rank(fr, m)) * fr.p + Rank(fr, m)
  {
    var rank, f := Rank(fr, m), Diagonal(fr, Rank(fr, m));
    RowParts(fr, m);
    DiagonalRow(fr, rank);
    MulDistributes(Local(fr, m), -f, fr.p);
    QuotientIs(m - fr.k, fr.p, Local(fr, m) - f, f * fr.p + rank - fr.k);
  }

  lemma StaysInMacro(fr: Frame, l: int)
    requires 0 <= l
    ensures (l + 1) % fr.a != 0 ==> (l + 1) / fr.a == l / fr.a
  {
    QuotientTimes(l, fr.a);
    if l % fr.a == fr.a - 1 {
      MulDistributes(l / fr.a, 1, fr.a);
      QuotientIs(l + 1, fr.a, l / fr.a + 1, 0);
    } else {
      QuotientIs(l + 1, fr.a, l / fr.a, l % fr.a + 1);
    }
  }
}
