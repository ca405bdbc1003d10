/** How many rounds the trees of a step take. The low-level tables reach to the last macro-tile of the matrix, which
    may have no row in the domain; the macro-tiles that do exist are then one fewer. The high-level offsets are made
    for a full band, and the last bands of the matrix have fewer rows. */
module DomainRounds {
  import opened Bits
  import opened Hierarchy
  import opened ReductionTrees
  import opened Rounds
  import A = AdaptiveTrees
  import C = Composition
  import Fib = Fibonacci
  import Cut = GreedyCut
  import GC = GreedyColumn
  import HI = HqrInit
  import High = HighTrees
  import HT = HqrTrees
  import Integers
  import Low = LowTrees

  /** The tree on the macro-tiles that have a row in domain `rank`. */
  ghost function Present(fr: Frame, t: Tree, rank: int): Tree {
    if C.Exists(fr, fr.ldd - 1, rank) then t else t.(end := t.end - 1)
  }

  lemma PresentAreThoseThatExist(fr: Frame, t: Tree, rank: int, s: int)
    requires Fits(fr) && 0 <= rank < fr.p && 0 <= t.root < s < t.end == fr.ldd
    ensures s < Present(fr, t, rank).end <==> C.Exists(fr, s, rank)
  {
    if s < fr.ldd - 1 { C.OnlyTheLastMayBeMissing(fr, s, rank); }
  }

  /** What a greedy table achieves for the macro-tiles of a tree `t` that are present: exactly so many rounds. None
      missing, those are the logarithm rounded up; one missing, they are one more if what is left is a power of
      two above two. No tree is faster than the logarithm. */
  ghost predicate GreedyRounds(t: Tree, present: Tree) {
    var n := present.end - present.root;
    && Valid(present) && present.root == t.root && present.end <= t.end <= present.end + 1
    && (forall count :: CanFit(present, count) <==> GC.RoundCount(n) + Slower(t, present) <= count)
    && (forall other, count :: Valid(other) && other.end - other.root == n && CanFit(other, count) ==>
          GC.RoundCount(n) <= count)
  }

  ghost function Slower(t: Tree, present: Tree): nat {
    var n := present.end - present.root;
    if present.end < t.end && n > 2 && Cut.IsPowerOfTwo(n) then 1 else 0
  }

  lemma GreedyInDomain(fr: Frame, t: Tree, rank: int)
    requires GC.IsGreedy(t) && t.root < Present(fr, t, rank).end
    ensures GreedyRounds(t, Present(fr, t, rank))
  {
    var present := Present(fr, t, rank);
    var all, n := t.end - t.root, present.end - present.root;
    hide CanFit, GC.RoundCount, Cut.CutRounds, Cut.IsPowerOfTwo, GC.Killer, C.Exists;
    if n < all { Cut.RoundsWithoutTheLast(n); } else { Cut.RoundsOfAll(n); }
    forall count: nat ensures CanFit(present, count) <==> GC.RoundCount(n) + Slower(t, present) <= count {
      Cut.CutTree(present, all, count);
    }
    forall other, count: nat | Valid(other) && other.end - other.root == n && CanFit(other, count)
      ensures GC.RoundCount(n) <= count
    {
      NoTreeIsFaster(other);
    }
  }

  lemma NoTreeIsFaster(t: Tree)
    requires Valid(t)
    ensures forall count :: CanFit(t, count) ==> GC.RoundCount(t.end - t.root) <= count
  {
    assert t.root < t.end;
    hide Valid, FitsInRounds, GC.RoundCount;
    forall count: nat | CanFit(t, count) ensures GC.RoundCount(t.end - t.root) <= count {
      var round: int -> int :| FitsInRounds(t, round, count);
      GC.NoTreeIsFaster(t, round, count);
    }
  }

  /** The greedy tree of one column, in a hierarchical tree. */
  lemma LowGreedyRounds(g: Low.LowArgs, mt: Integers.Pos, minMN: nat, k: nat, rank: int)
    requires HI.LowIs(HI.Greedy1pTree, g, minMN) && k < minMN && 0 <= rank < g.p
    requires var fr := Frame(mt, g.p, g.a, g.domino, k, g.ldd);
      && Low.HasTree(g, k, rank, Root(fr, rank))
      && Root(fr, rank) < Present(fr, Low.LowTree(g, k, rank, Root(fr, rank)), rank).end
    ensures var fr := Frame(mt, g.p, g.a, g.domino, k, g.ldd); var t := Low.LowTree(g, k, rank, Root(fr, rank));
      GreedyRounds(t, Present(fr, t, rank))
  {
    var fr := Frame(mt, g.p, g.a, g.domino, k, g.ldd);
    hide GreedyRounds, Present, HI.LowIs, Low.HasTree;
    HI.SlabRoot(g, mt, minMN, k, rank);
    HI.LowGreedyIsGreedy(g, minMN, k, rank, Root(fr, rank));
    GreedyInDomain(fr, Low.LowTree(g, k, rank, Root(fr, rank)), rank);
  }

  /** The same in an adaptive tree. */
  lemma AdaptiveRounds(s: A.SvdTree, load: Integers.Pos, k: nat, rank: int)
    requires k < Integers.Min(s.mt, s.nt) && A.TablesOk(s, load) && A.HasHeader(s, k) && 0 <= rank < s.p
    requires var q := A.View(s, k); var fr := HT.FrameOf(q, k);
      && Low.HasTree(q.low, k, rank, Root(fr, rank))
      && Root(fr, rank) < Present(fr, Low.LowTree(q.low, k, rank, Root(fr, rank)), rank).end
    ensures var q := A.View(s, k); var fr := HT.FrameOf(q, k); var t := Low.LowTree(q.low, k, rank, Root(fr, rank));
      GreedyRounds(t, Present(fr, t, rank))
  {
    hide GreedyRounds, Present, Low.HasTree, A.TablesOk, A.HasHeader;
    var q := A.View(s, k);
    var fr := HT.FrameOf(q, k);
    A.AdaptiveIsGreedy(s, load, k, rank);
    GreedyInDomain(fr, Low.LowTree(q.low, k, rank, Root(fr, rank)), rank);
  }

  /** The macro-tiles of a domain that exist make a fibonacci tree themselves: they fit in a number of rounds if and
      only if that many groups reach the last of them. */
  lemma FibonacciInDomain(fr: Frame, t: Tree, rank: int, count: nat)
    requires Fib.IsFibonacci(t) && t.root < Present(fr, t, rank).end
    ensures var present := Present(fr, t, rank);
      && Fib.IsFibonacci(present)
      && (CanFit(present, count) <==> present.end - t.root - 1 <= Fib.Triangle(count))
  {
    hide Fib.Group, Fib.Triangle, CanFit;
    Fib.FibonacciExactly(Present(fr, t, rank), count);
  }

  /** The greedy tree over the domains: as many rounds as the first rows of the greedy tree made for a full band take,
      at most one more than the best tree on the rows there are, and none more exactly in two cases. */
  lemma HighGreedyRounds(g: High.HighArgs, minMN: nat, k: nat, count: nat)
    requires HI.HighIs(HI.Greedy1pTree, g, minMN, false) && High.HasTree(g, k)
    ensures var t := High.HighTree(g, k); var n, rows := Integers.Min(g.p, g.ldd), t.end - k;
      var s := Cut.Survivors(n, rows);
      && t.root == k && rows == Integers.Min(g.p, g.ldd - k)
      && (CanFit(t, count) <==> Cut.CutRounds(n, rows) <= count)
      && GC.RoundCount(rows) <= Cut.CutRounds(n, rows) <= GC.RoundCount(rows) + 1
      && (CanFit(t, GC.RoundCount(rows)) <==> GC.RoundCount(s) == GC.RoundCount(rows) || s == 2 * (rows - 1))
  {
    hide CanFit, GC.RoundCount, GC.IsCut, Cut.CutRounds, Cut.Survivors, HI.HighIs;
    HI.HighGreedyIsGreedy(g, minMN, k);
    Cut.CutTree(High.HighTree(g, k), Integers.Min(g.p, g.ldd), count);
  }

  /** The same over the domains of an adaptive tree. */
  lemma AdaptiveHighRounds(s: A.SvdTree, load: Integers.Pos, k: nat, count: nat)
    requires k < Integers.Min(s.mt, s.nt) && A.Ok(s) && A.TablesOk(s, load) && s.p > 1
    requires s.high.Some? && HI.HighIs(HI.Greedy1pTree, s.high.value, Integers.Min(s.mt, s.nt), false)
    ensures var t := HT.LevelsOf(A.View(s, k), k).high; var rows := Integers.Min(s.p, s.mt - k);
      && t.root == k && t.end == k + rows
      && (CanFit(t, count) <==> Cut.CutRounds(Integers.Min(s.p, s.mt), rows) <= count)
  {
    hide CanFit, GC.IsCut, HI.HighIs, Cut.CutRounds, A.TablesOk;
    A.TreesOfStep(s, load, HI.Greedy1pTree, k, 0);
    Cut.CutTree(HT.LevelsOf(A.View(s, k), k).high, Integers.Min(s.p, s.mt), count);
  }

  /** 9 rows in two domains, one row per macro-tile: domain 1 has 4 of the 5 macro-tiles. Two rounds are enough
      for 4, but not with the table made for 5. */
  lemma MissingMacroTileCostsARound(g: Low.LowArgs, minMN: nat)
    requires HI.LowIs(HI.Greedy1pTree, g, minMN) && minMN > 0
    requires g.ldd == 5 && g.a == 1 && g.p == 2 && !g.domino
    ensures var fr := Frame(9, 2, 1, false, 0, 5);
      && Fits(fr) && Root(fr, 1) == 0 && !C.Exists(fr, 4, 1) && Low.HasTree(g, 0, 1, 0)
      && GC.RoundCount(4) == 2 && !CanFit(Present(fr, Low.LowTree(g, 0, 1, 0), 1), 2)
  {
    var fr := Frame(9, 2, 1, false, 0, 5);
    NineRows();
    hide HI.LowIs, Root, C.Exists, Fits, CanFit, GC.RoundCount, Low.HasTree, Low.LowTree;
    HI.LowTreesServe(HI.Greedy1pTree, g, 9, minMN);
    assert HI.LowServesStep(g, 9, 0, 1);
    var t := Low.LowTree(g, 0, 1, 0);
    HI.SlabRoot(g, 9, minMN, 0, 1);
    HI.LowGreedyIsGreedy(g, minMN, 0, 1, 0);
    GreedyInDomain(fr, t, 1);
  }

  lemma NineRows()
    ensures var fr := Frame(9, 2, 1, false, 0, 5);
      Fits(fr) && Root(fr, 1) == 0 && !C.Exists(fr, 4, 1)
    ensures GC.RoundCount(4) == 2 && Cut.IsPowerOfTwo(4)
  {
    assert Pow2(2) == 2 * Pow2(1) && Pow2(1) == 2 * Pow2(0);
    Cut.CeilLog2Is(4, 2);
  }
}
