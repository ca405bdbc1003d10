/** The adaptive trees of the bidiagonal reduction: a hierarchical tree without domino tree whose
    macro-tile height is chosen anew at every step. Seen on its own, a step is a step of a hierarchical tree
    with that height. */
module AdaptiveTrees {
  import opened AdaptiveTables
  import opened Hierarchy
  import opened HqrTrees
  import opened Integers
  import GC = GreedyColumn
  import High = HighTrees
  import HqrInit
  import Low = LowTrees
  import PL = PipelinedLow

  /** `ipiv[rank][k]` holds the height, the number of macro-tiles, and the killers of step `k`. */
  datatype SvdTree = SvdTree(mt: Pos, nt: Pos, p: Pos, ipiv: seq<seq<seq<int>>>, high: Option<High.HighArgs>)

  /* A step on its own. */

  ghost predicate HasHeader(s: SvdTree, k: nat) {
    && |s.ipiv| == s.p && (forall rank :: 0 <= rank < s.p ==> k < |s.ipiv[rank]| && |s.ipiv[rank][k]| >= 2)
    && s.ipiv[0][k][0] > 0 && s.ipiv[0][k][1] > 0
    && forall rank :: 0 <= rank < s.p ==>
         && s.ipiv[rank][k][0] == s.ipiv[0][k][0] && s.ipiv[rank][k][1] == s.ipiv[0][k][1]
         && |s.ipiv[rank][k]| >= 2 + s.ipiv[0][k][1]
  }

  function View(s: SvdTree, k: nat): HqrTree
    requires HasHeader(s, k)
  {
    var a, ldd := s.ipiv[0][k][0], s.ipiv[0][k][1];
    var columns := seq(s.p, rank requires 0 <= rank < s.p =>
                         seq(k + 1, c requires 0 <= c < k + 1 => if c == k then s.ipiv[rank][k][2..2 + ldd] else []));
    HqrTree(s.mt, s.nt, a, s.p, false, false, seq(k + 1, c => seq(s.mt + 1, i => i)),
            Low.LowArgs(Low.LowGreedy(columns), ldd, a, s.p, false), s.high)
  }

  ghost predicate Ok(s: SvdTree) {
    forall k :: 0 <= k < Min(s.mt, s.nt) ==> HasHeader(s, k) && StepOk(View(s, k), k)
  }

  /** Create the trees; `load` is the number of tasks asked for per step. */
  method Init(mt: Pos, nt: Pos, typeHigh: HqrInit.TreeType, p0: int, load: Pos) returns (s: SvdTree)
    ensures s.mt == mt && s.nt == nt && s.p == Max(p0, 1) && Ok(s)
    ensures TablesOk(s, load)
    ensures (s.high.Some? <==> s.p > 1) && (s.p > 1 ==> HqrInit.HighIs(typeHigh, s.high.value, Min(mt, nt), false))
    ensures forall k :: 0 <= k < Min(mt, nt) ==> View(s, k).a == HeightOf(mt, nt, s.p, load, k)
  {
    hide HqrInit.HighIs;
    var p: Pos := Max(p0, 1);
    var ipiv := Tables(mt, nt, p, load);
    var high := None;
    if p > 1 {
      var h := HqrInit.HighTree(typeHigh, mt, Min(mt, nt), p, false);
      high := Some(h);
    }
    s := SvdTree(mt, nt, p, ipiv, high);
    forall k | 0 <= k < Min(mt, nt)
      ensures HasHeader(s, k) && StepOk(View(s, k), k) && View(s, k).a == HeightOf(mt, nt, p, load, k)
    {
      StepIsOk(s, load, k);
    }
  }

  ghost predicate TablesOk(s: SvdTree, load: Pos) {
    && |s.ipiv| == s.p
    && forall rank :: 0 <= rank < s.p ==> SlabOk(s.mt, s.nt, s.p, load, rank, Min(s.mt, s.nt), s.ipiv[rank])
  }

  lemma HeaderIsThere(s: SvdTree, load: Pos, k: nat)
    requires k < Min(s.mt, s.nt) && TablesOk(s, load)
    ensures HasHeader(s, k)
    ensures s.ipiv[0][k][0] == HeightOf(s.mt, s.nt, s.p, load, k)
    ensures s.ipiv[0][k][1] == MacroTiles(s.mt, s.nt, s.p, load, k)
  {
    hide HeightOf, MacroTiles, PL.Root;
    forall rank | 0 <= rank < s.p
      ensures k < |s.ipiv[rank]| && TableOk(s.mt, s.nt, s.p, load, rank, k, s.ipiv[rank][k])
    {
      assert SlabOk(s.mt, s.nt, s.p, load, rank, Min(s.mt, s.nt), s.ipiv[rank]);
    }
  }

  lemma LowTreeIsThere(s: SvdTree, load: Pos, k: nat, rank: int)
    requires k < Min(s.mt, s.nt) && TablesOk(s, load) && HasHeader(s, k) && 0 <= rank < s.p
    ensures var q := View(s, k); var root := Root(FrameOf(q, k), rank);
      root < q.low.ldd ==> Low.HasTree(q.low, k, rank, root)
  {
    hide HeightOf, MacroTiles, PL.Root, Root;
    HeaderIsThere(s, load, k);
    var q := View(s, k);
    assert SlabOk(s.mt, s.nt, s.p, load, rank, Min(s.mt, s.nt), s.ipiv[rank]);
    assert TableOk(s.mt, s.nt, s.p, load, rank, k, s.ipiv[rank][k]);
    HqrInit.SameRoot(FrameOf(q, k), PL.Plan(q.low.ldd, 1, q.a, s.p, rank, false));
    RootRange(FrameOf(q, k), rank);
    assert q.low.lookups.ipiv[rank][k] == s.ipiv[rank][k][2..2 + q.low.ldd];
  }

  /** The low-level tree of every domain at every step is the greedy tree. */
  lemma AdaptiveIsGreedy(s: SvdTree, load: Pos, k: nat, rank: int)
    requires k < Min(s.mt, s.nt) && TablesOk(s, load) && HasHeader(s, k) && 0 <= rank < s.p
    requires var q := View(s, k); Low.HasTree(q.low, k, rank, Root(FrameOf(q, k), rank))
    ensures var q := View(s, k); GC.IsGreedy(Low.LowTree(q.low, k, rank, Root(FrameOf(q, k), rank)))
  {
    hide HeightOf, MacroTiles, PL.Root, Root;
    HeaderIsThere(s, load, k);
    var q := View(s, k);
    assert SlabOk(s.mt, s.nt, s.p, load, rank, Min(s.mt, s.nt), s.ipiv[rank]);
    assert TableOk(s.mt, s.nt, s.p, load, rank, k, s.ipiv[rank][k]);
    HqrInit.SameRoot(FrameOf(q, k), PL.Plan(q.low.ldd, 1, q.a, s.p, rank, false));
    assert q.low.lookups.ipiv[rank][k] == s.ipiv[rank][k][2..2 + q.low.ldd];
  }

  /** The trees plugged into a step: greedy ones over the macro-tiles, and over the domains the one asked for. */
  lemma TreesOfStep(s: SvdTree, load: Pos, typeHigh: HqrInit.TreeType, k: nat, rank: int)
    requires k < Min(s.mt, s.nt) && Ok(s) && TablesOk(s, load) && 0 <= rank < s.p
    requires s.p > 1 ==> s.high.Some? && HqrInit.HighIs(typeHigh, s.high.value, Min(s.mt, s.nt), false)
    ensures StepOk(View(s, k), k)
    ensures var q := View(s, k); var fr, lv := FrameOf(q, k), LevelsOf(q, k);
      && (Root(fr, rank) < fr.ldd ==> GC.IsGreedy(lv.low(rank)))
      && (s.p > 1 ==> HqrInit.HighTreeIs(typeHigh, s.mt, s.p, Min(s.mt, s.nt), false, k, lv.high))
  {
    hide HqrInit.HighIs, HqrInit.HighTreeIs, TablesOk, Root, GC.IsCut, HasPermutation;
    var q := View(s, k);
    if Root(FrameOf(q, k), rank) < q.low.ldd { AdaptiveIsGreedy(s, load, k, rank); }
    if s.p > 1 { HqrInit.HighOfStep(q, typeHigh, false, k); }
  }

  lemma RootRange(fr: Frame, rank: int)
    requires 0 <= rank < fr.p
    ensures Root(fr, rank) >= 0
  {
    DiagonalRow(fr, rank);
  }

  lemma StepIsOk(s: SvdTree, load: Pos, k: nat)
    requires k < Min(s.mt, s.nt) && TablesOk(s, load)
    requires s.high.Some? <==> s.p > 1
    requires s.high.Some? ==> s.high.value.ldd == s.mt && s.high.value.p == s.p && High.HasTree(s.high.value, k)
    ensures HasHeader(s, k) && StepOk(View(s, k), k)
    ensures View(s, k).a == HeightOf(s.mt, s.nt, s.p, load, k)
  {
    hide HeightOf, Root, High.HasTree, Low.HasTree;
    HeaderIsThere(s, load, k);
    var q := View(s, k);
    ViewFits(s, load, k);
    forall rank | 0 <= rank < s.p && Root(FrameOf(q, k), rank) < q.low.ldd
      ensures Low.HasTree(q.low, k, rank, Root(FrameOf(q, k), rank))
    {
      LowTreeIsThere(s, load, k, rank);
    }
  }

  lemma ViewFits(s: SvdTree, load: Pos, k: nat)
    requires k < Min(s.mt, s.nt) && TablesOk(s, load) && HasHeader(s, k)
    ensures Fits(FrameOf(View(s, k), k))
  {
    HeaderIsThere(s, load, k);
    HqrInit.MacroTilesFit(s.mt, s.p, View(s, k).a, k, false);
  }
}
