/** The rows of a panel that start with a full factorization (every kind but TS): how many there are,
    the list of them, and the position of a row in that list. The code has closed forms for all three;
    here they are tied to a plain count along the rows. */
module PanelIndex {
  import opened Counting
  import opened Hierarchy
  import opened Integers

  function Block(fr: Frame): Pos {
    MulMonotone(1, fr.a, fr.p);
    fr.p * fr.a
  }

  /** C's remainder of `-k` by a positive number: the sign of the dividend is kept. */
  function NegatedRemainder(k: nat, d: Pos): int {
    -(k % d)
  }

  /** The rows between the band and the next block that are heads because the band crosses into it. */
  function Extra(fr: Frame): int {
    var pa := Block(fr);
    if fr.k % pa > pa - fr.p then NegatedRemainder(fr.k, pa) + pa else 0
  }

  function Dense(fr: Frame): int {
    fr.p + if fr.domino then fr.k * (fr.p - 1) else Extra(fr)
  }

  function DenseEnd(fr: Frame): int {
    fr.p + if fr.domino then fr.k * fr.p else fr.k + Extra(fr)
  }

  function FirstBlock(fr: Frame): int {
    var pa := Block(fr);
    if fr.domino then (fr.p * (fr.k + 1) + pa - 1) / pa * pa else (fr.p + fr.k + pa - 1) / pa * pa
  }

  function NbGeqrt(fr: Frame): int {
    var pa := Block(fr);
    var nb_3 := fr.p;
    var nb_2 := if fr.domino then fr.k * (fr.p - 1) else Extra(fr);
    var nb_11 := FirstBlock(fr);
    var nb_12 := fr.mt / pa * pa;
    var nb_1 := (nb_12 - nb_11) / fr.a + Min(fr.p, fr.mt - nb_12);
    Min(nb_1 + nb_2 + nb_3, fr.mt - fr.k)
  }

  function RowAt(fr: Frame, i: nat): int {
    if i < Dense(fr) then fr.k + i else
      var j := i - Dense(fr);
      FirstBlock(fr) + j / fr.p * Block(fr) + j % fr.p
  }

  function IndexOf(fr: Frame, m: int): int {
    if m < DenseEnd(fr) then m - fr.k else
      var j := m - FirstBlock(fr);
      Dense(fr) + j / Block(fr) * fr.p + j % Block(fr)
  }

  /** How many rows of `[k, m)` are not TS rows. */
  function HeadsBefore(fr: Frame, m: int): nat
    decreases m - fr.k
  {
    if m <= fr.k then 0 else HeadsBefore(fr, m - 1) + if Kind(fr, m - 1) > 0 then 1 else 0
  }

  /* Where the heads are. */

  lemma HeadByRemainder(fr: Frame, m: nat)
    ensures (m / fr.p) % fr.a == 0 <==> m % Block(fr) < fr.p
  {
    var p, r := fr.p, (m / fr.p) % fr.a;
    QuotientTwice(m, p, fr.a);
    QuotientTimes(m, p);
    QuotientTimes(m / p, fr.a);
    if r > 0 { MulMonotone(1, r, p); }
  }

  lemma RoundUp(n: nat, pa: Pos)
    ensures var up := (n + pa - 1) / pa * pa; up % pa == 0 && n <= up < n + pa
    ensures n % pa == 0 ==> (n + pa - 1) / pa * pa == n
    ensures n % pa > 0 ==> (n + pa - 1) / pa * pa == n - n % pa + pa
  {
    QuotientTimes(n, pa);
    if n % pa == 0 {
      QuotientIs(n + pa - 1, pa, n / pa, pa - 1);
      QuotientIs(n / pa * pa, pa, n / pa, 0);
    } else {
      MulDistributes(n / pa, 1, pa);
      QuotientIs(n + pa - 1, pa, n / pa + 1, n % pa - 1);
      QuotientIs((n / pa + 1) * pa, pa, n / pa + 1, 0);
    }
  }

  lemma RoundUpPastBand(k: nat, p: Pos, pa: Pos)
    requires p <= pa
    ensures k % pa > pa - p ==> (p + k + pa - 1) / pa * pa == k - k % pa + 2 * pa
    ensures k % pa <= pa - p ==> (p + k + pa - 1) / pa * pa == k - k % pa + pa
    ensures (p + k + pa - 1) / pa * pa % pa == 0
  {
    var c := k % pa;
    QuotientTimes(k, pa);
    MulDistributes(k / pa, 1, pa);
    MulDistributes(k / pa, 2, pa);
    if c > pa - p {
      QuotientIs(p + k + pa - 1, pa, k / pa + 2, c + p - pa - 1);
      QuotientIs((k / pa + 2) * pa, pa, k / pa + 2, 0);
    } else {
      QuotientIs(p + k + pa - 1, pa, k / pa + 1, c + p - 1);
      QuotientIs((k / pa + 1) * pa, pa, k / pa + 1, 0);
    }
  }

  lemma RoundUpMultiple(n: nat, p: Pos, pa: Pos)
    requires p <= pa && 0 < n && (n % pa == 0 || n % pa >= p)
    ensures var up := (n + pa - 1) / pa * pa; up % pa == 0 && n <= up && up - pa + p <= n
  {
    RoundUp(n, pa);
  }

  /** The dense part ends at `DenseEnd`; from there to `FirstBlock` there are only TS rows, and it
      reaches at least `p` rows into the block before. */
  lemma Landmarks(fr: Frame)
    ensures fr.k + Dense(fr) == DenseEnd(fr) <= FirstBlock(fr) && fr.p <= Dense(fr)
    ensures FirstBlock(fr) % Block(fr) == 0
    ensures FirstBlock(fr) - Block(fr) + fr.p <= DenseEnd(fr)
    ensures fr.domino ==> DenseEnd(fr) == fr.p * (fr.k + 1)
  {
    if fr.domino { DominoLandmarks(fr); } else { BandLandmarks(fr); }
  }

  lemma DominoLandmarks(fr: Frame)
    requires fr.domino
    ensures fr.k + Dense(fr) == DenseEnd(fr) <= FirstBlock(fr) && fr.p <= Dense(fr)
    ensures FirstBlock(fr) % Block(fr) == 0
    ensures FirstBlock(fr) - Block(fr) + fr.p <= DenseEnd(fr)
    ensures DenseEnd(fr) == fr.p * (fr.k + 1)
  {
    hide Block, Extra;
    var p, pa := fr.p, Block(fr);
    BlockIsProduct(fr);
    var n := p * (fr.k + 1);
    DominoRows(p, fr.k);
    MultipleRemainder(n, p, fr.a);
    RoundUpMultiple(n, p, pa);
  }

  lemma BlockIsProduct(fr: Frame)
    ensures Block(fr) == fr.p * fr.a && Block(fr) >= fr.p
  {
    MulMonotone(1, fr.a, fr.p);
  }

  lemma DominoRows(p: Pos, k: nat)
    ensures p * (k + 1) == k * p + p == k * (p - 1) + k + p
    ensures 0 <= k * (p - 1) && 0 < p * (k + 1) && p * (k + 1) % p == 0
  {
    MulMonotone(0, k, p - 1);
    MulDistributes(p - 1, 1, k);
    QuotientIs(p * (k + 1), p, k + 1, 0);
  }

  lemma BandLandmarks(fr: Frame)
    requires !fr.domino
    ensures fr.k + Dense(fr) == DenseEnd(fr) <= FirstBlock(fr) && fr.p <= Dense(fr)
    ensures FirstBlock(fr) % Block(fr) == 0
    ensures FirstBlock(fr) - Block(fr) + fr.p <= DenseEnd(fr)
  {
    hide Block;
    BlockIsProduct(fr);
    RoundUpPastBand(fr.k, fr.p, Block(fr));
    QuotientTimes(fr.k, Block(fr));
  }

  lemma MultipleRemainder(n: nat, p: Pos, a: Pos)
    requires n % p == 0
    ensures p * a > 0 && (n % (p * a) == 0 || n % (p * a) >= p)
  {
    MulMonotone(1, a, p);
    var pa: Pos := p * a;
    QuotientTimes(n, pa);
    QuotientShift(n, p, -(n / pa * a));
    assert n - n / pa * pa == n + -(n / pa * a) * p by { assert n / pa * pa == n / pa * a * p; }
    if 0 < n % pa < p { QuotientIs(n % pa, p, 0, n % pa); }
  }

  /** Below the band and the domino rows, a row is a head exactly if it is among the first `p` rows of
      its block. */
  lemma KindByBlock(fr: Frame, m: int)
    requires fr.k + fr.p <= m && (fr.domino ==> fr.p * (fr.k + 1) <= m)
    ensures Kind(fr, m) > 0 <==> m % Block(fr) < fr.p
  {
    HeadByRemainder(fr, m);
  }

  lemma RemainderFrom(m: int, first: int, pa: Pos)
    requires first % pa == 0
    ensures (m - first) % pa == m % pa
    ensures first - pa <= m < first ==> m % pa == m - (first - pa)
  {
    QuotientTimes(first, pa);
    QuotientShift(m, pa, -(first / pa));
    MulDistributes(first / pa, -1, pa);
    if first - pa <= m < first {
      QuotientIs(m, pa, first / pa - 1, m - (first - pa));
    }
  }

  /** Heads and TS rows, part by part. */
  lemma KindByPart(fr: Frame, m: int)
    requires fr.k <= m
    ensures m < DenseEnd(fr) ==> Kind(fr, m) > 0
    ensures DenseEnd(fr) <= m < FirstBlock(fr) ==> Kind(fr, m) == 0
    ensures FirstBlock(fr) <= m ==> (Kind(fr, m) > 0 <==> (m - FirstBlock(fr)) % Block(fr) < fr.p)
  {
    hide Extra, FirstBlock;
    Landmarks(fr);
    RemainderFrom(m, FirstBlock(fr), Block(fr));
    if m >= DenseEnd(fr) {
      KindByBlock(fr, m);
    } else if !fr.domino && m >= fr.k + fr.p {
      CrossedRows(fr, m);
      KindByBlock(fr, m);
    }
  }

  /** The rows the band crosses into a new block are the first rows of that block. */
  lemma CrossedRows(fr: Frame, m: int)
    requires !fr.domino && fr.k + fr.p <= m < DenseEnd(fr)
    ensures m % Block(fr) < fr.p
  {
    var pa := Block(fr);
    QuotientTimes(fr.k, pa);
    MulDistributes(fr.k / pa, 1, pa);
    QuotientIs(m, pa, fr.k / pa + 1, m - (fr.k - fr.k % pa + pa));
  }

  /** The heads in the first `n` rows after a block boundary. */
  function HeadsInBlocks(fr: Frame, n: nat): int {
    n / Block(fr) * fr.p + Min(fr.p, n % Block(fr))
  }

  lemma OneMoreRow(fr: Frame, n: nat)
    ensures HeadsInBlocks(fr, n + 1) == HeadsInBlocks(fr, n) + if n % Block(fr) < fr.p then 1 else 0
  {
    var pa := Block(fr);
    MulMonotone(1, fr.a, fr.p);
    QuotientTimes(n, pa);
    if n % pa + 1 == pa {
      MulDistributes(n / pa, 1, pa);
      MulDistributes(n / pa, 1, fr.p);
      QuotientIs(n + 1, pa, n / pa + 1, 0);
    } else {
      QuotientIs(n + 1, pa, n / pa, n % pa + 1);
    }
  }

  /** The plain count, in closed form. */
  lemma {:induction false} CountInClosedForm(fr: Frame, m: int)
    requires fr.k <= m
    ensures m <= DenseEnd(fr) ==> HeadsBefore(fr, m) == m - fr.k
    ensures DenseEnd(fr) <= m <= FirstBlock(fr) ==> HeadsBefore(fr, m) == Dense(fr)
    ensures FirstBlock(fr) <= m ==> HeadsBefore(fr, m) == Dense(fr) + HeadsInBlocks(fr, m - FirstBlock(fr))
    decreases m - fr.k
  {
    Landmarks(fr);
    if m > fr.k {
      CountInClosedForm(fr, m - 1);
      KindByPart(fr, m - 1);
      if FirstBlock(fr) < m { OneMoreRow(fr, m - 1 - FirstBlock(fr)); }
    }
    if m == FirstBlock(fr) { QuotientIs(0, Block(fr), 0, 0); }
  }

  /* The closed forms of the code. */

  lemma BlocksToHeads(fr: Frame, b: int)
    ensures b * Block(fr) / fr.a == b * fr.p
  {
    assert b * (fr.p * fr.a) == b * fr.p * fr.a;
    QuotientIs(b * Block(fr), fr.a, b * fr.p, 0);
  }

  /** The distance between the two block boundaries, in blocks. */
  function BlocksBetween(fr: Frame): int {
    fr.mt / Block(fr) - FirstBlock(fr) / Block(fr)
  }

  lemma NbGeqrtInBlocks(fr: Frame)
    ensures NbGeqrt(fr) ==
            Min(BlocksBetween(fr) * fr.p + Min(fr.p, fr.mt % Block(fr)) + Dense(fr), fr.mt - fr.k)
    ensures fr.mt - FirstBlock(fr) == BlocksBetween(fr) * Block(fr) + fr.mt % Block(fr)
  {
    hide Dense, FirstBlock, Block, NbGeqrt;
    BlocksFromFirst(fr);
    BlocksToHeads(fr, BlocksBetween(fr));
    NbGeqrtFormula(fr);
  }

  lemma BlocksFromFirst(fr: Frame)
    ensures var last := fr.mt / Block(fr) * Block(fr);
      && last - FirstBlock(fr) == BlocksBetween(fr) * Block(fr)
      && fr.mt - last == fr.mt % Block(fr)
  {
    hide Dense, FirstBlock, Block;
    var pa, first := Block(fr), FirstBlock(fr);
    Landmarks(fr);
    QuotientTimes(fr.mt, pa);
    QuotientTimes(first, pa);
    MulDistributes(fr.mt / pa, -(first / pa), pa);
  }

  lemma NbGeqrtFormula(fr: Frame)
    ensures var last := fr.mt / Block(fr) * Block(fr);
      NbGeqrt(fr) == Min((last - FirstBlock(fr)) / fr.a + Min(fr.p, fr.mt - last) + Dense(fr), fr.mt - fr.k)
  {
    hide FirstBlock, Block, Extra;
  }

  lemma CountPastFirstBlock(fr: Frame)
    requires fr.k < fr.mt && FirstBlock(fr) <= fr.mt
    ensures HeadsBefore(fr, fr.mt) == BlocksBetween(fr) * fr.p + Min(fr.p, fr.mt % Block(fr)) + Dense(fr)
  {
    hide Extra, FirstBlock, NbGeqrt, BlocksBetween, HeadsBefore;
    CountInClosedForm(fr, fr.mt);
    NbGeqrtInBlocks(fr);
    QuotientTimes(fr.mt, Block(fr));
    QuotientIs(fr.mt - FirstBlock(fr), Block(fr), BlocksBetween(fr), fr.mt % Block(fr));
  }

  lemma CountBeforeFirstBlock(fr: Frame)
    requires fr.k < fr.mt && fr.mt < FirstBlock(fr)
    ensures HeadsBefore(fr, fr.mt) ==
            Min(BlocksBetween(fr) * fr.p + Min(fr.p, fr.mt % Block(fr)) + Dense(fr), fr.mt - fr.k)
  {
    hide Extra, FirstBlock, NbGeqrt, BlocksBetween, HeadsBefore, Block, Dense, DenseEnd, HeadsInBlocks;
    BlockIsProduct(fr);
    var p, pa, b, rest := fr.p, Block(fr), BlocksBetween(fr), fr.mt % Block(fr);
    Landmarks(fr);
    CountInClosedForm(fr, fr.mt);
    NbGeqrtInBlocks(fr);
    QuotientTimes(fr.mt, pa);
    NegativeMultiple(b, pa, rest);
    BeforeFirstBlock(p, pa, b, rest, DenseEnd(fr), FirstBlock(fr), fr.mt);
  }

  /** The number of factorizations the code announces is the number of rows that are not TS rows, also
      when the first block boundary lies past the last one. */
  lemma NbGeqrtCountsHeads(fr: Frame)
    requires fr.k < fr.mt
    ensures NbGeqrt(fr) == HeadsBefore(fr, fr.mt)
  {
    hide FirstBlock, NbGeqrt, BlocksBetween, HeadsBefore;
    NbGeqrtInBlocks(fr);
    HeadsAtMostRows(fr, fr.mt);
    if FirstBlock(fr) <= fr.mt {
      CountPastFirstBlock(fr);
    } else {
      CountBeforeFirstBlock(fr);
    }
  }

  lemma NegativeMultiple(b: int, pa: Pos, rest: int)
    requires b * pa + rest < 0 && 0 <= rest
    ensures b < 0
  {
    if b >= 0 { MulMonotone(0, b, pa); }
  }

  lemma {:induction false} HeadsAtMostRows(fr: Frame, m: int)
    requires fr.k <= m
    ensures HeadsBefore(fr, m) <= m - fr.k
    decreases m - fr.k
  {
    if m > fr.k { HeadsAtMostRows(fr, m - 1); }
  }

  /** When the matrix ends some blocks before the first boundary, the negative term and the cap at
      the number of rows left cancel to the number of rows of the dense part that exist. */
  lemma BeforeFirstBlock(p: Pos, pa: Pos, b: int, rest: int, end: int, first: int, mt: int)
    requires p <= pa && first - pa + p <= end <= first && mt < first
    requires mt - first == b * pa + rest && 0 <= rest < pa && b < 0
    ensures mt <= end ==> end + b * p + Min(p, rest) >= mt
    ensures end <= mt ==> b * p + Min(p, rest) == 0
  {
    if b < -1 {
      var c := -b - 2;
      MulMonotone(p, pa, c);
      MulDistributes(-c, -2, pa);
      MulDistributes(-c, -2, p);
      assert b * pa == -(c * pa) - 2 * pa && b * p == -(c * p) - 2 * p;
    }
  }

  lemma {:induction false} HeadsAreCounted(fr: Frame, f: int -> bool, m: int)
    requires fr.k <= m && forall i :: fr.k <= i < m ==> (f(i) <==> Kind(fr, i) > 0)
    ensures HeadsBefore(fr, m) == Count(f, fr.k, m)
    decreases m - fr.k
  {
    if fr.k < m { HeadsAreCounted(fr, f, m - 1); }
  }

  lemma {:induction false} CountGrows(fr: Frame, m: int, m': int)
    requires fr.k <= m < m' && Kind(fr, m) > 0
    ensures HeadsBefore(fr, m) < HeadsBefore(fr, m')
    decreases m' - m
  {
    if m + 1 < m' { CountGrows(fr, m, m' - 1); }
  }

  /** The index of a head is the number of heads above it. */
  lemma IndexCountsHeads(fr: Frame, m: int)
    requires fr.k <= m && Kind(fr, m) > 0
    ensures IndexOf(fr, m) == HeadsBefore(fr, m)
  {
    hide Extra, FirstBlock, Dense, DenseEnd, Block, HeadsBefore, Kind;
    Landmarks(fr);
    KindByPart(fr, m);
    CountInClosedForm(fr, m);
  }

  lemma RowAtIsAHead(fr: Frame, i: nat)
    ensures fr.k <= RowAt(fr, i) && Kind(fr, RowAt(fr, i)) > 0
    ensures HeadsBefore(fr, RowAt(fr, i)) == i
  {
    hide Extra, FirstBlock, Dense, DenseEnd;
    Landmarks(fr);
    if i >= Dense(fr) {
      var j := i - Dense(fr);
      QuotientTimes(j, fr.p);
      QuotientMonotone(0, j, fr.p);
      MulMonotone(0, j / fr.p, Block(fr));
      MulMonotone(1, fr.a, fr.p);
      QuotientIs(RowAt(fr, i) - FirstBlock(fr), Block(fr), j / fr.p, j % fr.p);
    }
    KindByPart(fr, RowAt(fr, i));
    CountInClosedForm(fr, RowAt(fr, i));
  }

  /** The list of heads is complete and in increasing order, and the two directions are inverse. */
  lemma RowsAreListed(fr: Frame, i: nat)
    requires fr.k < fr.mt && i < NbGeqrt(fr)
    ensures fr.k <= RowAt(fr, i) < fr.mt && Kind(fr, RowAt(fr, i)) > 0
    ensures IndexOf(fr, RowAt(fr, i)) == i
    ensures forall j: nat :: j < i ==> RowAt(fr, j) < RowAt(fr, i)
  {
    hide RowAt, IndexOf, NbGeqrt, Kind;
    NbGeqrtCountsHeads(fr);
    RowAtIsAHead(fr, i);
    IndexCountsHeads(fr, RowAt(fr, i));
    if fr.mt <= RowAt(fr, i) { CountIsMonotone(fr, fr.mt, RowAt(fr, i)); }
    forall j: nat | j < i ensures RowAt(fr, j) < RowAt(fr, i) {
      RowAtIsAHead(fr, j);
      if RowAt(fr, i) < RowAt(fr, j) { CountGrows(fr, RowAt(fr, i), RowAt(fr, j)); }
    }
  }

  lemma HeadsAreListed(fr: Frame, m: int)
    requires fr.k <= m < fr.mt && Kind(fr, m) > 0
    ensures 0 <= IndexOf(fr, m) < NbGeqrt(fr) && RowAt(fr, IndexOf(fr, m)) == m
  {
    hide RowAt, IndexOf, NbGeqrt, Kind;
    NbGeqrtCountsHeads(fr);
    IndexCountsHeads(fr, m);
    CountGrows(fr, m, fr.mt);
    var u := RowAt(fr, IndexOf(fr, m));
    RowAtIsAHead(fr, IndexOf(fr, m));
    if u < m { CountGrows(fr, u, m); }
    if m < u { CountGrows(fr, m, u); }
  }

  lemma {:induction false} CountIsMonotone(fr: Frame, m: int, m': int)
    requires fr.k <= m <= m'
    ensures HeadsBefore(fr, m) <= HeadsBefore(fr, m')
    decreases m' - m
  {
    if m < m' { CountIsMonotone(fr, m, m' - 1); }
  }
}
