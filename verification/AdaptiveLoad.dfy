/** What the heights of the adaptive trees achieve. A step asks for a number of tasks, `load`: every row that
    is not a TS row has one task for each column left. The height is worked out from the rows of one domain, and
    evened out over the rows of all of them. */
module AdaptiveLoad {
  import opened AdaptiveTables
  import opened Counting
  import opened Hierarchy
  import opened Integers
  import A = AdaptiveTrees
  import HT = HqrTrees
  import PI = PanelIndex

  /** The step of an adaptive tree, seen on its own. */
  function StepFrame(mt: Pos, nt: Pos, p: Pos, load: Pos, k: nat): Frame
    requires k < mt && k < nt
  {
    Frame(mt, p, HeightOf(mt, nt, p, load, k), false, k, MacroTiles(mt, nt, p, load, k))
  }

  lemma StepFrameOfTree(s: A.SvdTree, load: Pos, k: nat)
    requires k < Min(s.mt, s.nt) && A.TablesOk(s, load) && A.HasHeader(s, k)
    ensures HT.FrameOf(A.View(s, k), k) == StepFrame(s.mt, s.nt, s.p, load, k)
  {
    hide HeightOf, MacroTiles;
    A.HeaderIsThere(s, load, k);
  }

  /** The rows of a domain that are not TS rows. */
  ghost function DomainHeads(fr: Frame, rank: int): nat {
    Count(m => Rank(fr, m) == rank && Kind(fr, m) > 0, fr.k, fr.mt)
  }

  ghost function DomainTasks(fr: Frame, nt: Pos, rank: int): int {
    DomainHeads(fr, rank) * (nt - fr.k)
  }

  /** The tasks of all domains, with the number of factorizations the code announces. */
  function AllTasks(fr: Frame, nt: Pos): int {
    PI.NbGeqrt(fr) * (nt - fr.k)
  }

  /* The heads of one domain in closed form. */

  /** The local index of the last row of a domain above row `m`. */
  function LastLocal(fr: Frame, rank: int, m: int): int {
    (m - 1 - rank) / fr.p
  }

  ghost predicate HasRows(fr: Frame, rank: int) {
    0 <= rank < fr.p && Diagonal(fr, rank) * fr.p + rank < fr.mt
  }

  lemma RowsOfItsDomain(fr: Frame, m: int)
    requires !fr.domino && fr.k <= m < fr.mt
    ensures HasRows(fr, m % fr.p)
  {
    hide Diagonal, Kind;
    RowParts(fr, m);
    KindByDiagonal(fr, m);
    SameDomainOrder(fr, Local(fr, m), Diagonal(fr, Rank(fr, m)), Rank(fr, m));
  }

  /** The heads of the first `m` rows: one for each macro-tile from that of the diagonal row on. */
  function HeadsAbove(fr: Frame, rank: int, m: int): int {
    if m <= Diagonal(fr, rank) * fr.p + rank then 0
    else LastLocal(fr, rank, m) / fr.a - Diagonal(fr, rank) / fr.a + 1
  }

  lemma {:induction false} HeadsInClosedForm(fr: Frame, rank: int, m: int)
    requires !fr.domino && 0 <= rank < fr.p && fr.k <= m
    ensures Count(u => Rank(fr, u) == rank && Kind(fr, u) > 0, fr.k, m) == HeadsAbove(fr, rank, m)
    decreases m - fr.k
  {
    hide Kind, Diagonal, Rank, HeadsAbove;
    var f := (u: int) => Rank(fr, u) == rank && Kind(fr, u) > 0;
    CountEqual(f, u => Rank(fr, u) == rank && Kind(fr, u) > 0, fr.k, m);
    if m == fr.k {
      NoHeadsYet(fr, rank);
    } else {
      HeadsInClosedForm(fr, rank, m - 1);
      CountEqual(f, u => Rank(fr, u) == rank && Kind(fr, u) > 0, fr.k, m - 1);
      if Rank(fr, m - 1) == rank { OneMoreRowOfDomain(fr, rank, m - 1); } else { OneMoreRowElsewhere(fr, rank, m - 1); }
    }
  }

  lemma NoHeadsYet(fr: Frame, rank: int)
    requires 0 <= rank < fr.p
    ensures HeadsAbove(fr, rank, fr.k) == 0
  {
    hide Diagonal;
    DiagonalRow(fr, rank);
  }

  lemma OneMoreRowElsewhere(fr: Frame, rank: int, m: nat)
    requires 0 <= rank < fr.p && Rank(fr, m) != rank
    ensures HeadsAbove(fr, rank, m + 1) == HeadsAbove(fr, rank, m)
  {
    hide Diagonal;
    RowParts(fr, m);
    var d := Diagonal(fr, rank);
    QuotientTimes(m - rank, fr.p);
    QuotientTimes(m - 1 - rank, fr.p);
    RowOfQuotient(m, rank, fr.p);
    RowIndex(fr, d, rank);
  }

  /** Where the residue of `m` is not `rank`, counting down by one does not change the quotient. */
  lemma RowOfQuotient(m: int, rank: int, p: Pos)
    requires 0 <= rank < p && m % p != rank
    ensures (m - rank) / p == (m - 1 - rank) / p
  {
    QuotientTimes(m - rank, p);
    var q, r := (m - rank) / p, (m - rank) % p;
    if r == 0 { QuotientIs(m, p, q, rank); }
    QuotientIs(m - 1 - rank, p, q, r - 1);
  }

  lemma OneMoreRowOfDomain(fr: Frame, rank: int, m: nat)
    requires !fr.domino && fr.k <= m && 0 <= rank < fr.p && Rank(fr, m) == rank
    ensures HeadsAbove(fr, rank, m + 1) == HeadsAbove(fr, rank, m) + if Kind(fr, m) > 0 then 1 else 0
  {
    hide Diagonal, Kind;
    var d, l := Diagonal(fr, rank), Local(fr, m);
    RowParts(fr, m);
    KindByDiagonal(fr, m);
    KindByLocal(fr, m);
    SameDomainOrder(fr, d, l, rank);
    SameDomainOrder(fr, l, d, rank);
    LastLocals(fr, l, rank);
    hide LastLocal, Local, Rank;
    if l > d { BoundaryStep(l, fr.a); }
  }

  lemma LastLocals(fr: Frame, l: int, rank: int)
    requires 0 <= rank < fr.p
    ensures LastLocal(fr, rank, l * fr.p + rank + 1) == l && LastLocal(fr, rank, l * fr.p + rank) == l - 1
  {
    QuotientIs(l * fr.p, fr.p, l, 0);
    MulDistributes(l, -1, fr.p);
    QuotientIs(l * fr.p - 1, fr.p, l - 1, fr.p - 1);
  }

  lemma KindByLocal(fr: Frame, m: int)
    ensures Kind(fr, m) <= 1 ==> (Kind(fr, m) > 0 <==> Local(fr, m) % fr.a == 0)
  {
  }

  lemma BoundaryStep(l: int, a: Pos)
    ensures l / a == (l - 1) / a + if l % a == 0 then 1 else 0
  {
    QuotientTimes(l, a);
    if l % a == 0 {
      MulDistributes(l / a, -1, a);
      QuotientIs(l - 1, a, l / a - 1, a - 1);
    } else {
      QuotientIs(l - 1, a, l / a, l % a - 1);
    }
  }

  /** A domain has as many heads as there are macro-tiles from its first row to its last. */
  lemma DomainHeadsAre(fr: Frame, rank: int)
    requires !fr.domino && fr.k < fr.mt && 0 <= rank < fr.p
    ensures DomainHeads(fr, rank) ==
            if HasRows(fr, rank) then LastLocal(fr, rank, fr.mt) / fr.a - Diagonal(fr, rank) / fr.a + 1 else 0
  {
    hide Kind, Diagonal;
    HeadsInClosedForm(fr, rank, fr.mt);
    CountEqual(u => Rank(fr, u) == rank && Kind(fr, u) > 0, m => Rank(fr, m) == rank && Kind(fr, m) > 0, fr.k, fr.mt);
  }

  /* From rows to heads. */

  /** Rows from local index d to l take part in at least as many macro-tiles as they fill, and at most in one
      more than that. */
  lemma TilesOfRows(d: nat, l: nat, a: Pos)
    requires d <= l
    ensures var h := l / a - d / a + 1; h >= 1 && l - d + 1 <= h * a && (h - 2) * a <= l - d - 1
  {
    QuotientTimes(d, a);
    QuotientTimes(l, a);
    QuotientMonotone(d, l, a);
    var x, y := l / a, d / a;
    MulDistributes(x, -y, a);
    MulDistributes(x - y, 1, a);
    MulDistributes(x - y, -1, a);
  }

  /** A domain has no more rows than the largest one, and at step 0 at most one less. */
  lemma RowsOfDomain(fr: Frame, rank: int)
    requires !fr.domino && fr.k < fr.mt && HasRows(fr, rank)
    ensures var d, l := Diagonal(fr, rank), LastLocal(fr, rank, fr.mt); 0 <= d <= l < d + DomainRows(fr.mt, fr.p, fr.k)
    ensures fr.k == 0 ==> Diagonal(fr, rank) == 0
  {
    var d, l, h := Diagonal(fr, rank), LastLocal(fr, rank, fr.mt), DomainRows(fr.mt, fr.p, fr.k);
    DiagonalRow(fr, rank);
    if fr.k == 0 { QuotientIs(fr.p - 1 - rank, fr.p, 0, fr.p - 1 - rank); }
    hide Diagonal;
    QuotientTimes(fr.mt - 1 - rank, fr.p);
    CeilDivRange(fr.mt - fr.k, fr.p);
    hide CeilDiv;
    RowsBetween(d, l, h, rank, fr);
  }

  lemma RowsBetween(d: int, l: int, h: Pos, rank: int, fr: Frame)
    requires 0 <= d && fr.k <= d * fr.p + rank < fr.mt && 0 <= rank < fr.p
    requires l * fr.p <= fr.mt - 1 - rank < l * fr.p + fr.p && fr.mt - fr.k <= h * fr.p
    ensures d <= l < d + h
  {
    MulDistributes(l, 1, fr.p);
    MulDistributes(d, h, fr.p);
    MulCancels(d, l + 1, fr.p);
    MulCancels(l, d + h, fr.p);
  }

  /** The code's announced number of heads covers all rows, `a` rows each at the most. */
  lemma HeadsCoverRows(fr: Frame, m: int)
    requires fr.k <= m
    ensures m - fr.k <= fr.a * PI.HeadsBefore(fr, m)
  {
    hide PI.Dense, PI.DenseEnd, PI.FirstBlock, PI.Block, PI.HeadsBefore, PI.HeadsInBlocks;
    PI.Landmarks(fr);
    PI.CountInClosedForm(fr, m);
    if m <= PI.DenseEnd(fr) {
      MulMonotone(1, fr.a, m - fr.k);
    } else {
      DenseCovers(fr);
      if PI.FirstBlock(fr) < m {
        var n := m - PI.FirstBlock(fr);
        BlocksCover(fr, n);
        MulDistributes(PI.Dense(fr), PI.HeadsInBlocks(fr, n), fr.a);
      }
    }
  }

  lemma DenseCovers(fr: Frame)
    ensures PI.FirstBlock(fr) - fr.k <= fr.a * PI.Dense(fr)
  {
    PI.Landmarks(fr);
    PI.BlockIsProduct(fr);
    hide PI.Dense, PI.DenseEnd, PI.FirstBlock, PI.Block;
    MulMonotone(fr.p, PI.Dense(fr), fr.a - 1);
    MulDistributes(fr.a, -1, fr.p);
    MulDistributes(fr.a, -1, PI.Dense(fr));
  }

  lemma BlocksCover(fr: Frame, n: nat)
    ensures n <= fr.a * PI.HeadsInBlocks(fr, n)
  {
    PI.BlockIsProduct(fr);
    hide PI.Block;
    var pa := PI.Block(fr);
    QuotientTimes(n, pa);
    RowsOfBlocks(n / pa, n % pa, fr.p, fr.a, pa);
  }

  lemma RowsOfBlocks(q: int, r: nat, p: Pos, a: Pos, pa: Pos)
    requires r < pa == p * a
    ensures q * pa + r <= a * (q * p + Min(p, r))
  {
    MulRegroups(q, p, a);
    MulDistributes(q * p, Min(p, r), a);
    if r < p { MulMonotone(1, a, r); }
  }

  /* The numbers behind a height. */

  /** A first height for the largest domain's `height` rows, its number of pieces, and the height `a` that
      evens them out over all `rows` rows; there are rows enough for the load. */
  ghost predicate Heights(rows: Pos, p: Pos, columns: Pos, load: Pos, height: Pos, first: Pos, pieces: Pos, a: Pos) {
    && (height - 1) * p < rows <= height * p
    && first * load <= height * columns < (first + 1) * load
    && (pieces - 1) * first < height <= pieces * first
    && (a - 1) * pieces < rows <= a * pieces
  }

  /** The pieces of the first height. */
  function Pieces(mt: Pos, nt: Pos, p: Pos, load: Pos, k: nat): int
    requires k < mt && k < nt
  {
    CeilDiv(DomainRows(mt, p, k), Max(DomainRows(mt, p, k) * (nt - k) / load, 1))
  }

  lemma HeightsOfStep(mt: Pos, nt: Pos, p: Pos, load: Pos, k: nat)
    requires k < mt && k < nt && DomainRows(mt, p, k) * (nt - k) >= load
    ensures var height := DomainRows(mt, p, k); var first := height * (nt - k) / load;
      && first > 0 && Pieces(mt, nt, p, load, k) > 0
      && Heights(mt - k, p, nt - k, load, height, first, Pieces(mt, nt, p, load, k), HeightOf(mt, nt, p, load, k))
  {
    var height: Pos := DomainRows(mt, p, k);
    var all := height * (nt - k);
    QuotientTimes(all, load);
    QuotientMonotone(load, all, load);
    QuotientIs(load, load, 1, 0);
    var first: Pos := all / load;
    MulDistributes(first, 1, load);
    CeilDivRange(mt - k, p);
    CeilDivRange(height, first);
    CeilDivRange(mt - k, CeilDiv(height, first));
    hide CeilDiv;
  }

  /** The load needs `needed` pieces. The first height gives less than twice as many. */
  lemma PiecesAtMost(columns: Pos, load: Pos, height: Pos, first: Pos, pieces: Pos, needed: int)
    requires height * columns < (first + 1) * load && load <= needed * columns
    requires (pieces - 1) * first < height && needed >= 2
    ensures (pieces - 1 - needed) * first <= needed - 2 && pieces <= 2 * needed - 1
  {
    MulMonotone(load, needed * columns, first + 1);
    MulRegroups(first + 1, needed, columns);
    MulRegroups(load, first + 1, 1);
    MulRegroups(needed * columns, first + 1, 1);
    MulCancels(height, (first + 1) * needed, columns);
    MulDistributes(first, 1, needed);
    MulDistributes(pieces - 1, -needed, first);
    SmallFactor(pieces - 1 - needed, first, needed - 2);
  }

  lemma SmallFactor(x: int, first: Pos, bound: nat)
    requires x * first <= bound
    ensures x <= bound
  {
    if x >= 0 { MulMonotone(1, first, x); }
  }

  /** If `s` macro-tiles of the height are short of the rows by `e` or more, there are more than c * s pieces, for
      up to c domains. */
  lemma ManyPieces(rows: Pos, p: Pos, height: Pos, pieces: Pos, a: Pos, s: Pos, e: Pos, c: Pos)
    requires (height - 1) * p < rows <= a * pieces && c <= p && s * a <= height - e
    ensures pieces > c * s
  {
    MulMonotone(1, a, s);
    MulMonotone(c, p, height - 1);
    Scaled((height - 1) * c, a, pieces, s, height - e);
    FewerFit(height - 1, height - e, c, s, pieces);
  }

  lemma FewerFit(x: nat, w: Pos, c: Pos, s: Pos, pieces: Pos)
    requires x * c * s < w * pieces && w <= x
    ensures c * s < pieces
  {
    MulMonotone(1, c, s);
    MulRegroups(x, c, s);
    MulMonotone(w, x, c * s);
    MulCancels(c * s, pieces, w);
  }

  lemma Scaled(u: nat, a: Pos, pieces: Pos, s: Pos, w: int)
    requires u < a * pieces && s * a <= w
    ensures u * s < w * pieces
  {
    MulMonotone(u + 1, a * pieces, s);
    MulDistributes(u, 1, s);
    MulRegroups(a, pieces, s);
    MulRegroups(s, a, pieces);
    MulMonotone(s * a, w, pieces);
  }

  /* What the heights achieve for all domains together. */

  /** If the largest domain has rows enough for the load, the tasks of all domains together meet it. */
  lemma AllDomainsMeetLoad(mt: Pos, nt: Pos, p: Pos, load: Pos, k: nat)
    requires k < mt && k < nt && DomainRows(mt, p, k) * (nt - k) >= load
    ensures AllTasks(StepFrame(mt, nt, p, load, k), nt) >= load
  {
    hide HeightOf, MacroTiles, DomainRows, CeilDiv, PI.NbGeqrt, PI.HeadsBefore;
    var fr := StepFrame(mt, nt, p, load, k);
    var heads := PI.HeadsBefore(fr, mt);
    PI.NbGeqrtCountsHeads(fr);
    HeadsCoverRows(fr, mt);
    PiecesOfHeight(mt, nt, p, load, k);
    FirstHeightMeetsLoad(DomainRows(mt, p, k), nt - k, load);
    CeilDivIs(mt - k, fr.a, heads + 1);
    MulMonotone(CeilDiv(mt - k, fr.a), heads, nt - k);
  }

  /** With one domain the load is met exactly if there are rows enough for it. */
  lemma OneDomainMeetsLoad(mt: Pos, nt: Pos, load: Pos, k: nat)
    requires k < mt && k < nt
    ensures AllTasks(StepFrame(mt, nt, 1, load, k), nt) >= load <==> (mt - k) * (nt - k) >= load
  {
    hide HeightOf, MacroTiles, PI.NbGeqrt, PI.HeadsBefore;
    var fr := StepFrame(mt, nt, 1, load, k);
    if (mt - k) * (nt - k) >= load { AllDomainsMeetLoad(mt, nt, 1, load, k); }
    PI.NbGeqrtCountsHeads(fr);
    PI.HeadsAtMostRows(fr, mt);
    MulMonotone(PI.NbGeqrt(fr), mt - k, nt - k);
  }

  ghost function HeadsOfDomains(fr: Frame, n: nat): nat {
    if n == 0 then 0 else HeadsOfDomains(fr, n - 1) + DomainHeads(fr, n - 1)
  }

  /** The factorizations the code announces are those of the domains. */
  lemma AllHeadsAreOfDomains(fr: Frame)
    requires fr.k < fr.mt
    ensures PI.NbGeqrt(fr) == HeadsOfDomains(fr, fr.p)
  {
    hide PI.NbGeqrt, Kind, Rank;
    PI.NbGeqrtCountsHeads(fr);
    PI.HeadsAreCounted(fr, m => Kind(fr, m) > 0, fr.mt);
    HeadsOfFirstDomains(fr, fr.p);
    forall m: int ensures Rank(fr, m) < fr.p { RankInRange(fr, m); }
    CountEqual(m => Kind(fr, m) > 0, m => Rank(fr, m) < fr.p && Kind(fr, m) > 0, fr.k, fr.mt);
  }

  lemma RankInRange(fr: Frame, m: int)
    ensures 0 <= Rank(fr, m) < fr.p
  {
    QuotientTimes(m, fr.p);
  }

  lemma {:induction false} HeadsOfFirstDomains(fr: Frame, n: nat)
    ensures Count(m => Rank(fr, m) < n && Kind(fr, m) > 0, fr.k, fr.mt) == HeadsOfDomains(fr, n)
  {
    hide Kind, Rank;
    var f := (m: int) => Rank(fr, m) < n && Kind(fr, m) > 0;
    CountEqual(f, m => Rank(fr, m) < n && Kind(fr, m) > 0, fr.k, fr.mt);
    if n == 0 {
      forall m: int ensures Rank(fr, m) >= 0 { RankInRange(fr, m); }
      CountPrefix(f, fr.k, fr.mt, 0);
    } else {
      HeadsOfFirstDomains(fr, n - 1);
      CountSplit(f, m => Rank(fr, m) < n - 1 && Kind(fr, m) > 0, m => Rank(fr, m) == n - 1 && Kind(fr, m) > 0,
                 fr.k, fr.mt);
    }
  }

  /* What they achieve for one domain. */

  lemma TasksByHeads(fr: Frame, nt: Pos, rank: int, load: Pos)
    requires fr.k < nt
    ensures DomainTasks(fr, nt, rank) >= load <==> DomainHeads(fr, rank) >= CeilDiv(load, nt - fr.k)
  {
    hide DomainHeads, CeilDiv;
    CeilDivIs(load, nt - fr.k, DomainHeads(fr, rank) + 1);
  }

  /** A domain with rows has a head, and all its macro-tiles but the first and the last are full. */
  lemma HeadsAreFew(fr: Frame, rank: int)
    requires !fr.domino && fr.k < fr.mt && HasRows(fr, rank)
    ensures var h, height := DomainHeads(fr, rank), DomainRows(fr.mt, fr.p, fr.k);
      && h >= 1 && (h - 2) * fr.a <= height - 2 && h <= height
  {
    hide DomainRows, Diagonal, LastLocal, DomainHeads;
    DomainHeadsAre(fr, rank);
    RowsOfDomain(fr, rank);
    TilesOfRows(Diagonal(fr, rank), LastLocal(fr, rank, fr.mt), fr.a);
    AtMostHeight(DomainHeads(fr, rank), fr.a, DomainRows(fr.mt, fr.p, fr.k));
  }

  lemma AtMostHeight(h: int, a: Pos, height: Pos)
    requires (h - 2) * a <= height - 2
    ensures h <= height
  {
    if h >= 2 { MulMonotone(1, a, h - 2); }
  }

  lemma HeadsAtStepZero(fr: Frame, rank: int, s: int)
    requires !fr.domino && fr.k == 0 && HasRows(fr, rank)
    ensures LastLocal(fr, rank, fr.mt) < DomainRows(fr.mt, fr.p, 0)
    ensures DomainHeads(fr, rank) > s <==> s * fr.a <= LastLocal(fr, rank, fr.mt)
  {
    hide DomainRows, Diagonal, LastLocal, DomainHeads;
    DomainHeadsAre(fr, rank);
    RowsOfDomain(fr, rank);
    var last := LastLocal(fr, rank, fr.mt);
    QuotientIs(0, fr.a, 0, 0);
    QuotientTimes(last, fr.a);
    if last / fr.a >= s { MulMonotone(s, last / fr.a, fr.a); }
    if last / fr.a < s { MulMonotone(last / fr.a + 1, s, fr.a); MulDistributes(last / fr.a, 1, fr.a); }
  }

  lemma HeadsAndRows(mt: Pos, nt: Pos, p: Pos, load: Pos, k: nat, rank: int)
    requires k < mt && k < nt && HasRows(StepFrame(mt, nt, p, load, k), rank)
    ensures var tasks := DomainTasks(StepFrame(mt, nt, p, load, k), nt, rank);
      && (nt - k >= load ==> tasks >= load) && (tasks >= load ==> DomainRows(mt, p, k) * (nt - k) >= load)
  {
    hide HeightOf, MacroTiles, DomainRows, HasRows, DomainHeads;
    var fr := StepFrame(mt, nt, p, load, k);
    HeadsAreFew(fr, rank);
    MulMonotone(1, DomainHeads(fr, rank), nt - k);
    MulMonotone(DomainHeads(fr, rank), DomainRows(mt, p, k), nt - k);
  }

  lemma FirstRowsOfDomain(fr: Frame, rank: nat)
    requires !fr.domino && fr.k == 0 && rank < Min(fr.p, fr.mt)
    ensures HasRows(fr, rank)
  {
    QuotientIs(rank, fr.p, 0, rank);
    RowsOfItsDomain(fr, rank);
    hide HasRows;
  }

  /** At every step, for the domain of row `m`: one head is enough if the columns alone meet the load, and rows for
      the load are needed. */
  lemma DomainBounds(mt: Pos, nt: Pos, p: Pos, load: Pos, k: nat, m: nat)
    requires k <= m < mt && k < nt
    ensures var tasks := DomainTasks(StepFrame(mt, nt, p, load, k), nt, m % p);
      && (nt - k >= load ==> tasks >= load) && (tasks >= load ==> DomainRows(mt, p, k) * (nt - k) >= load)
  {
    RowsOfItsDomain(StepFrame(mt, nt, p, load, k), m);
    hide HasRows, DomainTasks, DomainRows, HeightOf, MacroTiles;
    HeadsAndRows(mt, nt, p, load, k, m % p);
  }

  /** What it takes to meet a load that asks for `needed` heads, where `s` full macro-tiles fit. */
  lemma PiecesBounds(mt: Pos, nt: Pos, p: Pos, load: Pos, k: nat, rank: int, s: Pos, e: Pos, c: Pos)
    requires k < mt && k < nt && HasRows(StepFrame(mt, nt, p, load, k), rank) && c <= p
    requires DomainTasks(StepFrame(mt, nt, p, load, k), nt, rank) >= load > nt - k
    requires s * HeightOf(mt, nt, p, load, k) <= DomainRows(mt, p, k) - e
    ensures c * s < Pieces(mt, nt, p, load, k) <= 2 * CeilDiv(load, nt - k) - 1
  {
    hide HeightOf, MacroTiles, DomainRows, HasRows, DomainHeads, Pieces, CeilDiv;
    HeadsAndRows(mt, nt, p, load, k, rank);
    HeightsOfStep(mt, nt, p, load, k);
    var height := DomainRows(mt, p, k);
    var needed := CeilDiv(load, nt - k);
    CeilDivIs(load, nt - k, needed);
    CeilDivIs(load, nt - k, 2);
    var pieces := Pieces(mt, nt, p, load, k);
    PiecesAtMost(nt - k, load, height, height * (nt - k) / load, pieces, needed);
    ManyPieces(mt - k, p, height, pieces, HeightOf(mt, nt, p, load, k), s, e, c);
  }

  /** With three or more domains, a domain meets the load at step 0 exactly if one head already does. */
  lemma ThreeDomainsMeetLoad(mt: Pos, nt: Pos, p: Pos, load: Pos, rank: nat)
    requires p >= 3 && rank < Min(p, mt)
    ensures DomainTasks(StepFrame(mt, nt, p, load, 0), nt, rank) >= load <==> nt >= load
  {
    hide HeightOf, MacroTiles, DomainRows, HasRows, DomainTasks, Pieces, CeilDiv, LastLocal;
    var fr := StepFrame(mt, nt, p, load, 0);
    FirstRowsOfDomain(fr, rank);
    HeadsAndRows(mt, nt, p, load, 0, rank);
    if DomainTasks(fr, nt, rank) >= load && nt < load {
      TasksByHeads(fr, nt, rank, load);
      var needed := CeilDiv(load, nt);
      CeilDivIs(load, nt, 2);
      HeadsAtStepZero(fr, rank, needed - 1);
      PiecesBounds(mt, nt, p, load, 0, rank, needed - 1, 1, 3);
      assert false;
    }
  }

  /** With two domains there is one more case at step 0: the first height has just so many pieces that evening it
      out leaves each domain half of them, rounded up. */
  lemma TwoDomainsMeetLoad(mt: Pos, nt: Pos, load: Pos, rank: nat)
    requires rank < Min(2, mt)
    ensures var height, needed := DomainRows(mt, 2, 0), CeilDiv(load, nt);
      DomainTasks(StepFrame(mt, nt, 2, load, 0), nt, rank) >= load <==>
      || nt >= load
      || (height * nt >= load && Pieces(mt, nt, 2, load, 0) == 2 * needed - 1
          && (rank == 1 && mt % 2 == 1 ==> needed == 2 && height >= 5))
  {
    hide HeightOf, MacroTiles, DomainTasks, Pieces, CeilDiv, LastLocal, DomainRows, HasRows;
    var fr := StepFrame(mt, nt, 2, load, 0);
    FirstRowsOfDomain(fr, rank);
    HeadsAndRows(mt, nt, 2, load, 0, rank);
    var height, needed := DomainRows(mt, 2, 0), CeilDiv(load, nt);
    if nt < load && height * nt >= load {
      TasksByHeads(fr, nt, rank, load);
      CeilDivIs(load, nt, 2);
      CeilDivIs(load, nt, needed);
      HeadsAtStepZero(fr, rank, needed - 1);
      LastOfTwo(fr, rank);
      HeightsOfStep(mt, nt, 2, load, 0);
      TwoDomains(mt, nt, load, height, height * nt / load, Pieces(mt, nt, 2, load, 0), fr.a, needed,
                 rank == 1 && mt % 2 == 1);
    }
  }

  lemma LastOfTwo(fr: Frame, rank: int)
    requires fr.p == 2 && 0 <= rank < 2
    ensures LastLocal(fr, rank, fr.mt) == DomainRows(fr.mt, 2, 0) - if rank == 1 && fr.mt % 2 == 1 then 2 else 1
    ensures fr.mt % 2 == 1 ==> fr.mt == 2 * DomainRows(fr.mt, 2, 0) - 1
  {
  }

  /** The macro-tiles short of the last head fit in a domain of `height` rows, or of one less. */
  lemma TwoDomains(rows: Pos, columns: Pos, load: Pos, height: Pos, first: Pos, pieces: Pos, a: Pos, needed: int,
                   oneLess: bool)
    requires Heights(rows, 2, columns, load, height, first, pieces, a) && needed >= 2
    requires (needed - 1) * columns < load <= needed * columns && (oneLess ==> rows == 2 * height - 1)
    ensures (needed - 1) * a <= height - (if oneLess then 2 else 1) <==>
            pieces == 2 * needed - 1 && (oneLess ==> needed == 2 && height >= 5)
  {
    PiecesAtMost(columns, load, height, first, pieces, needed);
    if (needed - 1) * a <= height - 1 {
      ManyPieces(rows, 2, height, pieces, a, needed - 1, 1, 2);
    }
    if pieces == 2 * needed - 1 {
      OneOrTwo(first, needed);
      if first == 1 {
        SmallFirst(rows, height, pieces, a, needed);
      } else {
        SmallNeed(rows, height, first, a, oneLess);
      }
    }
  }

  lemma OneOrTwo(first: Pos, needed: int)
    requires (needed - 2) * first <= needed - 2 && needed >= 2
    ensures first == 1 || needed == 2
  {
    if needed > 2 && first > 1 { MulMonotone(2, first, needed - 2); }
  }

  lemma SmallFirst(rows: Pos, height: Pos, pieces: Pos, a: Pos, needed: int)
    requires (height - 1) * 2 < rows <= height * 2 && pieces - 1 < height <= pieces == 2 * needed - 1
    requires (a - 1) * pieces < rows <= a * pieces && needed >= 2
    ensures a == 2 && (needed - 1) * a == height - 1
  {
    if a >= 3 { MulMonotone(2, a - 1, pieces); }
  }

  lemma SmallNeed(rows: Pos, height: Pos, first: Pos, a: Pos, oneLess: bool)
    requires (height - 1) * 2 < rows <= height * 2 && (oneLess ==> rows == 2 * height - 1)
    requires 2 * first < height && (a - 1) * 3 < rows <= a * 3
    ensures a <= height - 1 && (oneLess ==> (a <= height - 2 <==> height >= 5))
  {
  }

  /** Later steps may cut a domain's first macro-tile at the diagonal and so gain one head, no more. Here the domain
      is that of row `m`. */
  lemma LaterSteps(mt: Pos, nt: Pos, p: Pos, load: Pos, k: nat, m: nat)
    requires k <= m < mt && k < nt
    ensures DomainTasks(StepFrame(mt, nt, p, load, k), nt, m % p) >= load ==>
            && (p >= 4 ==> load <= 2 * (nt - k))
            && (p == 3 ==> load <= 3 * (nt - k))
            && (p == 2 ==> load <= 2 * (nt - k) || Pieces(mt, nt, p, load, k) >= 2 * CeilDiv(load, nt - k) - 3)
  {
    RowsOfItsDomain(StepFrame(mt, nt, p, load, k), m);
    hide HeightOf, MacroTiles, DomainTasks, Pieces, CeilDiv, HasRows;
    if DomainTasks(StepFrame(mt, nt, p, load, k), nt, m % p) >= load { AtMostOneGained(mt, nt, p, load, k, m % p); }
  }

  lemma AtMostOneGained(mt: Pos, nt: Pos, p: Pos, load: Pos, k: nat, rank: int)
    requires k < mt && k < nt && HasRows(StepFrame(mt, nt, p, load, k), rank)
    requires DomainTasks(StepFrame(mt, nt, p, load, k), nt, rank) >= load
    ensures p >= 4 ==> load <= 2 * (nt - k)
    ensures p == 3 ==> load <= 3 * (nt - k)
    ensures p == 2 ==> load <= 2 * (nt - k) || Pieces(mt, nt, p, load, k) >= 2 * CeilDiv(load, nt - k) - 3
  {
    hide HeightOf, MacroTiles, DomainTasks, Pieces, CeilDiv, DomainRows, DomainHeads, HasRows;
    var fr := StepFrame(mt, nt, p, load, k);
    var height, needed := DomainRows(mt, p, k), CeilDiv(load, nt - k);
    CeilDivIs(load, nt - k, 3);
    CeilDivIs(load, nt - k, 4);
    if load > 2 * (nt - k) && p >= 2 {
      TasksByHeads(fr, nt, rank, load);
      HeadsAreFew(fr, rank);
      MulMonotone(needed - 2, DomainHeads(fr, rank) - 2, fr.a);
      PiecesBounds(mt, nt, p, load, k, rank, needed - 2, 2, Min(p, 4));
      HeadsAndRows(mt, nt, p, load, k, rank);
      HeightsOfStep(mt, nt, p, load, k);
      if p >= 3 {
        Corner(mt - k, p, nt - k, load, height, height * (nt - k) / load, Pieces(mt, nt, p, load, k), fr.a, needed);
      }
    }
  }

  /** In the two corner cases the macro-tiles are too high. */
  lemma Corner(rows: Pos, p: Pos, columns: Pos, load: Pos, height: Pos, first: Pos, pieces: Pos, a: Pos, needed: int)
    requires Heights(rows, p, columns, load, height, first, pieces, a) && p >= 3 && needed >= 3
    requires (needed - 1) * columns < load <= needed * columns && (needed - 2) * a <= height - 2
    requires Min(p, 4) * (needed - 2) < pieces <= 2 * needed - 1
    ensures p == 3 && needed == 3
  {
    var c: Pos := Min(p, 4);
    MulMonotone(c, p, height - 1);
    PiecesAtMost(columns, load, height, first, pieces, needed);
    hide Heights;
    if c == 4 || needed >= 4 { TooHigh(rows, c, height, first, pieces, a, needed); }
  }

  lemma TooHigh(rows: Pos, c: Pos, height: Pos, first: Pos, pieces: Pos, a: Pos, needed: int)
    requires (height - 1) * c < rows <= a * pieces && (pieces - 1) * first < height <= pieces * first
    requires (pieces - 1 - needed) * first <= needed - 2 && needed >= 3
    requires 3 <= c <= 4 && (c == 4 || needed >= 4) && c * (needed - 2) < pieces <= 2 * needed - 1
    ensures (needed - 2) * a > height - 2
  {
    if c == 4 { assert needed == 3 && pieces == 5; } else { assert needed == 4 && pieces == 7; }
    OneOrTwo(first, needed);
  }

  /** The domain of the diagonal row has at least a p-th of the load, if there are rows enough for it. */
  lemma DiagonalDomainShare(mt: Pos, nt: Pos, p: Pos, load: Pos, k: nat)
    requires k < mt && k < nt && DomainRows(mt, p, k) * (nt - k) >= load
    ensures HasRows(StepFrame(mt, nt, p, load, k), k % p)
    ensures p * DomainTasks(StepFrame(mt, nt, p, load, k), nt, k % p) >= load
  {
    hide HeightOf, MacroTiles, CeilDiv, DomainRows, DomainHeads;
    var fr := StepFrame(mt, nt, p, load, k);
    var d, l, h := k / p, LastLocal(fr, k % p, mt), DomainHeads(fr, k % p);
    RowsOfDiagonalDomain(fr);
    DomainHeadsAre(fr, k % p);
    TilesOfRows(d, l, fr.a);
    PiecesOfHeight(mt, nt, p, load, k);
    FirstHeightMeetsLoad(DomainRows(mt, p, k), nt - k, load);
    MulMonotone(l - d + 1, h * fr.a, p);
    MulRegroups(h, fr.a, p);
    CeilDivIs(mt - k, fr.a, h * p + 1);
    MulMonotone(CeilDiv(mt - k, fr.a), h * p, nt - k);
    MulRegroups(h, p, nt - k);
  }

  lemma RowsOfDiagonalDomain(fr: Frame)
    requires !fr.domino && fr.k < fr.mt
    ensures Diagonal(fr, fr.k % fr.p) == fr.k / fr.p && HasRows(fr, fr.k % fr.p)
    ensures var l := LastLocal(fr, fr.k % fr.p, fr.mt);
      fr.k / fr.p <= l && fr.mt - fr.k <= (l - fr.k / fr.p + 1) * fr.p
  {
    var rank, d := fr.k % fr.p, fr.k / fr.p;
    QuotientTimes(fr.k, fr.p);
    QuotientAtMost(fr.k, fr.p);
    QuotientIs(fr.k + fr.p - 1 - rank, fr.p, d, fr.p - 1);
    QuotientTimes(fr.mt - 1 - rank, fr.p);
    QuotientIs(fr.k - rank, fr.p, d, 0);
    QuotientMonotone(fr.k - rank, fr.mt - 1 - rank, fr.p);
    MulDistributes((fr.mt - 1 - rank) / fr.p, 1 - d, fr.p);
  }

  /** Two domains of eight rows, sixteen tasks asked for: the height puts all rows of a domain in one macro-tile
      and each domain has half the tasks, while half the height gives each of them all. */
  lemma LoadCanBeMissed(rank: int)
    requires 0 <= rank < 2
    ensures StepFrame(16, 8, 2, 16, 0).a == 8 && DomainTasks(StepFrame(16, 8, 2, 16, 0), 8, rank) == 8
    ensures DomainTasks(Frame(16, 2, 4, false, 0, 2), 8, rank) == 16
  {
    EvenedOutToEight();
    hide HeightOf, MacroTiles, DomainTasks;
    TasksOfEight(StepFrame(16, 8, 2, 16, 0), rank);
    TasksOfEight(Frame(16, 2, 4, false, 0, 2), rank);
  }

  lemma EvenedOutToEight()
    ensures HeightOf(16, 8, 2, 16, 0) == 8
  {
    assert CeilDiv(16, 2) == 8 && CeilDiv(8, 4) == 2;
    hide CeilDiv;
  }

  lemma TasksOfEight(fr: Frame, rank: int)
    requires fr.mt == 16 && fr.p == 2 && !fr.domino && fr.k == 0 && 0 <= rank < 2
    ensures DomainTasks(fr, 8, rank) == (7 / fr.a + 1) * 8
  {
    DomainHeadsAre(fr, rank);
    QuotientIs(0, fr.a, 0, 0);
    hide DomainHeads;
  }

  /** Macro-tiles are counted from row 0. At step 2 of this matrix the domains start in the middle of one, and meet
      the load although the condition of step 0 does not hold. */
  lemma LaterStepsCanGain(rank: int)
    requires 0 <= rank < 2
    ensures 4 - 2 < 4 && Pieces(6, 4, 2, 4, 2) == 2 && CeilDiv(4, 4 - 2) == 2
    ensures DomainTasks(StepFrame(6, 4, 2, 4, 2), 4, rank) == 4
  {
    SmallHeight();
    hide HeightOf, MacroTiles, DomainHeads, DomainTasks, CeilDiv, Pieces;
    TasksOfTwo(StepFrame(6, 4, 2, 4, 2), rank);
  }

  lemma SmallHeight()
    ensures HeightOf(6, 4, 2, 4, 2) == 2 && Pieces(6, 4, 2, 4, 2) == 2 && CeilDiv(4, 2) == 2
  {
  }

  lemma TasksOfTwo(fr: Frame, rank: int)
    requires fr.mt == 6 && fr.p == 2 && fr.a == 2 && !fr.domino && fr.k == 2 && 0 <= rank < 2
    ensures DomainTasks(fr, 4, rank) == 4
  {
    DomainHeadsAre(fr, rank);
    assert Diagonal(fr, rank) == 1 && LastLocal(fr, rank, 6) == 2;
    hide DomainHeads, Diagonal, LastLocal;
  }
}
