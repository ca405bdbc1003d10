/** Building a hierarchical tree from the caller's parameters. Whatever they are, the tables that come
    out satisfy what the lookups rely on. */
module HqrInit {
  import opened Hierarchy
  import opened HqrTrees
  import opened Integers
  import opened PipelinedTrees
  import opened ReductionTrees
  import opened Schedules
  import opened Tables
  import B = BinaryTrees
  import Fib = Fibonacci
  import GC = GreedyColumn
  import High = HighTrees
  import Low = LowTrees
  import PH = PipelinedHigh
  import PL = PipelinedLow
  import RR = RoundRobin

  datatype TreeType = FlatTree | GreedyTree | FibonacciTree | BinaryTree | Greedy1pTree | DefaultTree

  /* Roots, seen from the generators. */

  lemma RootAtMostStep(fr: Frame, rank: int)
    requires 0 <= rank < fr.p
    ensures 0 <= Root(fr, rank) <= fr.k
  {
    DiagonalRow(fr, rank);
    if fr.domino {
      QuotientAtMost(fr.k, fr.a);
    } else {
      DiagonalNearStep(fr, rank);
      QuotientAtMost(Diagonal(fr, rank), fr.a);
      if fr.k == 0 {
        QuotientIs(fr.p - 1 - rank, fr.p, 0, fr.p - 1 - rank);
      } else {
        QuotientMonotone(fr.k + fr.p - 1 - rank, fr.p - 1 + fr.k * fr.p, fr.p) by { MulMonotone(1, fr.p, fr.k); }
        QuotientIs(fr.p - 1 + fr.k * fr.p, fr.p, fr.k, fr.p - 1);
      }
    }
  }

  lemma SameRoot(fr: Frame, pl: PL.Plan)
    requires pl.a == fr.a && pl.p == fr.p && pl.domino == fr.domino && 0 <= pl.rank < fr.p
    ensures PL.Root(pl, fr.k) == Root(fr, pl.rank)
  {
    if !fr.domino { QuotientTwice(fr.k + fr.p - 1 - pl.rank, fr.p, fr.a); }
  }

  lemma {:induction false} RootsGrow(pl: PL.Plan, k: nat, k': nat)
    requires 0 <= pl.rank < pl.p && k <= k'
    ensures PL.Root(pl, k) <= PL.Root(pl, k')
    decreases k' - k
  {
    if k < k' {
      RootsGrow(pl, k, k' - 1);
      PL.RootStep(pl, k' - 1);
    }
  }

  /** The tables of the low-level tree serve every step and every domain that has rows left. */
  ghost predicate LowServes(g: Low.LowArgs, mt: Pos, minMN: nat) {
    forall k, rank :: 0 <= k < minMN && 0 <= rank < g.p ==> LowServesStep(g, mt, k, rank)
  }

  ghost predicate LowServesStep(g: Low.LowArgs, mt: Pos, k: nat, rank: int) {
    var root := Root(Frame(mt, g.p, g.a, g.domino, k, g.ldd), rank);
    root < g.ldd ==> Low.HasTree(g, k, rank, root)
  }

  ghost predicate SlabServes(pl: PL.Plan, slab: seq<seq<int>>, minMN: nat) {
    forall k :: 0 <= k < minMN && PL.Root(pl, k) < pl.mt ==>
      k < |slab| && Low.PointsDown(slab[k], PL.Root(pl, k), pl.mt)
  }

  /* The pipelined greedy tree. */

  /** The number of steps at which the domain still has a macro-tile. */
  method StepsWithRows(pl: PL.Plan, minMN: nat) returns (cols: nat)
    requires 0 <= pl.rank < pl.p && minMN > 0
    ensures 0 < cols <= minMN
    ensures forall k :: 0 <= k < cols ==> PL.Root(pl, k) < pl.mt
    ensures forall k :: cols <= k < minMN ==> PL.Root(pl, k) >= pl.mt
  {
    PL.RootStep(pl, 0);
    cols := 0;
    while cols < minMN
      invariant 0 <= cols <= minMN && forall k :: 0 <= k < cols ==> PL.Root(pl, k) < pl.mt
    {
      if Max(pl.mt - PL.Root(pl, cols), 0) == 0 {
        forall k | cols <= k < minMN ensures PL.Root(pl, k) >= pl.mt { RootsGrow(pl, cols, k); }
        return;
      }
      cols := cols + 1;
    }
  }

  /** The table follows a fair schedule of the steps at which the domain has a macro-tile. */
  ghost predicate IsPipelined(pl: PL.Plan, slab: seq<seq<int>>, cols: nat, bs: seq<Batch>) {
    PL.PlanOk(pl.(cols := cols)) && PL.Finished(pl.(cols := cols), slab, bs)
  }

  ghost predicate PipelinedSlab(pl: PL.Plan, slab: seq<seq<int>>, minMN: nat) {
    exists cols: nat, bs :: StepsAre(pl, cols, minMN) && IsPipelined(pl, slab, cols, bs)
  }

  /** Among `minMN` steps, the first `cols` are those at which the domain still has a macro-tile. */
  ghost predicate StepsAre(pl: PL.Plan, cols: nat, minMN: nat) {
    cols <= minMN && forall k :: 0 <= k < minMN ==> (k < cols <==> PL.Root(pl, k) < pl.mt)
  }

  lemma PipelinedServes(pl: PL.Plan, slab: seq<seq<int>>, minMN: nat)
    requires PipelinedSlab(pl, slab, minMN)
    ensures SlabServes(pl, slab, minMN)
  {
    hide PL.IsSchedule, Pipelined, Ended;
    var cols: nat, bs :| StepsAre(pl, cols, minMN) && IsPipelined(pl, slab, cols, bs);
    forall k | 0 <= k < minMN && PL.Root(pl, k) < pl.mt
      ensures k < |slab| && Low.PointsDown(slab[k], PL.Root(pl, k), pl.mt)
    {
      SameRoots(pl, cols, k);
      PL.RootStep(pl, k);
    }
  }

  lemma SameRoots(pl: PL.Plan, cols: nat, k: nat)
    ensures PL.Root(pl.(cols := cols), k) == PL.Root(pl, k)
  {
  }

  method GreedySlab(pl0: PL.Plan, minMN: nat) returns (slab: seq<seq<int>>)
    requires 0 <= pl0.rank < pl0.p && minMN > 0
    ensures PipelinedSlab(pl0, slab, minMN)
  {
    var cols := StepsWithRows(pl0, minMN);
    var pl := pl0.(cols := cols);
    forall k: nat ensures PL.Root(pl, k) == PL.Root(pl0, k) { SameRoots(pl0, cols, k); }
    hide PL.Finished;
    var ipiv := new int[cols, pl.mt]((k, i) => 0);
    ghost var bs := PL.Generate(pl, ipiv);
    slab := Rows(ipiv);
    assert IsPipelined(pl0, slab, cols, bs) && StepsAre(pl0, cols, minMN);
  }

  /* The greedy tree, one column at a time. */

  ghost predicate IsOneColumn(pl: PL.Plan, k: nat, column: seq<int>)
    requires 0 <= PL.Root(pl, k) < pl.mt
  {
    var root := PL.Root(pl, k);
    |column| == pl.mt && forall j :: root < j < pl.mt ==> column[j] == GC.Entry(pl.mt, pl.mt - root, j)
  }

  /** Every step at which the domain has a macro-tile has a greedy tree of its own. */
  ghost predicate OneColumnSlab(pl: PL.Plan, slab: seq<seq<int>>, minMN: nat) {
    forall k :: 0 <= k < minMN && 0 <= PL.Root(pl, k) < pl.mt ==> k < |slab| && IsOneColumn(pl, k, slab[k])
  }

  lemma OneColumnServes(pl: PL.Plan, slab: seq<seq<int>>, minMN: nat)
    requires 0 <= pl.rank < pl.p && OneColumnSlab(pl, slab, minMN)
    ensures SlabServes(pl, slab, minMN)
  {
    forall k | 0 <= k < minMN && PL.Root(pl, k) < pl.mt
      ensures k < |slab| && Low.PointsDown(slab[k], PL.Root(pl, k), pl.mt)
    {
      PL.RootStep(pl, k);
      assert IsOneColumn(pl, k, slab[k]);
    }
  }

  method Greedy1pSlab(pl: PL.Plan, minMN: nat) returns (slab: seq<seq<int>>)
    requires 0 <= pl.rank < pl.p
    ensures OneColumnSlab(pl, slab, minMN)
  {
    slab := [];
    var k := 0;
    while k < minMN
      invariant 0 <= k <= minMN && |slab| == k
      invariant forall c :: 0 <= c < k ==> 0 <= PL.Root(pl, c) < pl.mt && IsOneColumn(pl, c, slab[c])
    {
      PL.RootStep(pl, k);
      var nT := Max(pl.mt - PL.Root(pl, k), 0);
      if nT == 0 {
        forall c | k <= c < minMN ensures PL.Root(pl, c) >= pl.mt { RootsGrow(pl, k, c); }
        return;
      }
      var column := GC.Column(pl.mt, nT);
      assert IsOneColumn(pl, k, column);
      slab := slab + [column];
      k := k + 1;
    }
  }

  /* All domains. */

  /** One table to fill; with the domino tree it serves all domains. */
  function PlanOf(g: Low.LowArgs, minMN: nat, rank: int): PL.Plan {
    PL.Plan(g.ldd, minMN, g.a, g.p, rank, g.domino)
  }

  function Slabs(g: Low.LowArgs): Pos {
    if g.domino then 1 else g.p
  }

  /** The lookups and tables are those of the kind of tree asked for. */
  ghost predicate LowIs(kind: TreeType, g: Low.LowArgs, minMN: nat) {
    match kind
    case FlatTree => g.lookups.LowFlat?
    case BinaryTree => g.lookups.LowBinary?
    case FibonacciTree =>
      && g.lookups.LowFibonacci? && |g.lookups.columns| == minMN
      && forall c :: 0 <= c < minMN ==> |g.lookups.columns[c]| == g.ldd && Fib.ColumnIs(g.lookups.columns[c], c)
    case Greedy1pTree =>
      && g.lookups.LowGreedy? && |g.lookups.ipiv| == Slabs(g)
      && forall rank :: 0 <= rank < Slabs(g) ==> OneColumnSlab(PlanOf(g, minMN, rank), g.lookups.ipiv[rank], minMN)
    case _ =>
      && g.lookups.LowGreedy? && |g.lookups.ipiv| == Slabs(g)
      && forall rank :: 0 <= rank < Slabs(g) ==> PipelinedSlab(PlanOf(g, minMN, rank), g.lookups.ipiv[rank], minMN)
  }

  lemma LowTreesServe(kind: TreeType, g: Low.LowArgs, mt: Pos, minMN: nat)
    requires LowIs(kind, g, minMN)
    ensures LowServes(g, mt, minMN)
  {
    hide PipelinedSlab, OneColumnSlab, SlabServes;
    forall k, rank | 0 <= k < minMN && 0 <= rank < g.p ensures LowServesStep(g, mt, k, rank) {
      if g.lookups.LowGreedy? {
        var pl, slab := PlanOf(g, minMN, Low.Slab(g, rank)), g.lookups.ipiv[Low.Slab(g, rank)];
        if kind.Greedy1pTree? { OneColumnServes(pl, slab, minMN); } else { PipelinedServes(pl, slab, minMN); }
        SlabGivesTree(g, g.lookups.ipiv, mt, minMN, k, rank);
      } else {
        var fr := Frame(mt, g.p, g.a, g.domino, k, g.ldd);
        RootAtMostStep(fr, rank);
        if g.lookups.LowFibonacci? { FibonacciPointsDown(g.lookups.columns[Root(fr, rank)], Root(fr, rank)); }
      }
    }
  }

  lemma FibonacciPointsDown(column: seq<int>, root: nat)
    requires Fib.ColumnIs(column, root)
    ensures Low.PointsDown(column, root, |column|)
  {
  }

  method LowTables(g: Low.LowArgs, minMN: nat, oneColumn: bool) returns (ipiv: seq<seq<seq<int>>>)
    requires minMN > 0
    ensures LowIs(if oneColumn then Greedy1pTree else GreedyTree, g.(lookups := Low.LowGreedy(ipiv)), minMN)
  {
    hide PipelinedSlab, OneColumnSlab;
    var ranks := if g.domino then 1 else g.p;
    ipiv := [];
    var rank := 0;
    while rank < ranks
      invariant 0 <= rank <= ranks && |ipiv| == rank
      invariant oneColumn ==> forall r :: 0 <= r < rank ==> OneColumnSlab(PlanOf(g, minMN, r), ipiv[r], minMN)
      invariant !oneColumn ==> forall r :: 0 <= r < rank ==> PipelinedSlab(PlanOf(g, minMN, r), ipiv[r], minMN)
    {
      var pl := PL.Plan(g.ldd, minMN, g.a, g.p, rank, g.domino);
      var slab;
      if oneColumn {
        slab := Greedy1pSlab(pl, minMN);
      } else {
        slab := GreedySlab(pl, minMN);
      }
      ipiv := ipiv + [slab];
      rank := rank + 1;
    }
    assert forall r :: PlanOf(g.(lookups := Low.LowGreedy(ipiv)), minMN, r) == PlanOf(g, minMN, r);
  }

  lemma SlabGivesTree(g: Low.LowArgs, ipiv: seq<seq<seq<int>>>, mt: Pos, minMN: nat, k: nat, rank: int)
    requires g.lookups == Low.LowGreedy(ipiv) && k < minMN && 0 <= rank < g.p
    requires |ipiv| == if g.domino then 1 else g.p
    requires SlabServes(PL.Plan(g.ldd, minMN, g.a, g.p, Low.Slab(g, rank), g.domino), ipiv[Low.Slab(g, rank)], minMN)
    ensures LowServesStep(g, mt, k, rank)
  {
    var fr := Frame(mt, g.p, g.a, g.domino, k, g.ldd);
    var pl := PL.Plan(g.ldd, minMN, g.a, g.p, Low.Slab(g, rank), g.domino);
    SameRoot(fr, pl);
    RootAtMostStep(fr, rank);
    assert Root(fr, rank) == PL.Root(pl, k);
  }

  method LowTree(kind: TreeType, minMN: nat, ldd: Pos, a: Pos, p: Pos, domino: bool) returns (g: Low.LowArgs)
    requires minMN > 0
    ensures g.ldd == ldd && g.a == a && g.p == p && g.domino == domino && LowIs(kind, g, minMN)
  {
    hide PipelinedSlab, OneColumnSlab;
    g := Low.LowArgs(Low.LowFlat, ldd, a, p, domino);
    match kind {
      case FlatTree =>
      case FibonacciTree =>
        var columns := Fib.LowInit(ldd, minMN);
        g := g.(lookups := Low.LowFibonacci(columns));
      case BinaryTree =>
        g := g.(lookups := Low.LowBinary);
      case Greedy1pTree =>
        var ipiv := LowTables(g, minMN, true);
        g := g.(lookups := Low.LowGreedy(ipiv));
      case _ =>
        var ipiv := LowTables(g, minMN, false);
        g := g.(lookups := Low.LowGreedy(ipiv));
    }
  }

  /* What the trees achieve. */

  /** The root of a domain as its table has it. */
  lemma SlabRoot(g: Low.LowArgs, mt: Pos, minMN: nat, k: nat, rank: int)
    requires 0 <= rank < g.p
    ensures Root(Frame(mt, g.p, g.a, g.domino, k, g.ldd), rank) == PL.Root(PlanOf(g, minMN, Low.Slab(g, rank)), k)
  {
    SameRoot(Frame(mt, g.p, g.a, g.domino, k, g.ldd), PlanOf(g, minMN, Low.Slab(g, rank)));
  }

  /** The greedy tree of one column is the greedy tree on all macro-tiles from the root to the last one. */
  lemma LowGreedyIsGreedy(g: Low.LowArgs, minMN: nat, k: nat, rank: int, root: int)
    requires LowIs(Greedy1pTree, g, minMN) && k < minMN && 0 <= rank < g.p
    requires Low.HasTree(g, k, rank, root) && root == PL.Root(PlanOf(g, minMN, Low.Slab(g, rank)), k)
    ensures GC.IsGreedy(Low.LowTree(g, k, rank, root))
  {
    var pl, slab := PlanOf(g, minMN, Low.Slab(g, rank)), g.lookups.ipiv[Low.Slab(g, rank)];
    assert OneColumnSlab(pl, slab, minMN);
    assert IsOneColumn(pl, k, slab[k]);
  }

  lemma LowFibonacciIsFibonacci(g: Low.LowArgs, minMN: nat, k: nat, rank: int, root: int)
    requires LowIs(FibonacciTree, g, minMN) && root < minMN && Low.HasTree(g, k, rank, root)
    ensures Fib.IsFibonacci(Low.LowTree(g, k, rank, root))
  {
    assert Fib.ColumnIs(g.lookups.columns[root], root);
  }

  /** The offsets made for one panel give the greedy tree of every panel, without the rows past the end of the
      matrix. */
  lemma HighGreedyIsGreedy(g: High.HighArgs, minMN: nat, k: nat)
    requires HighIs(Greedy1pTree, g, minMN, false) && High.HasTree(g, k)
    ensures GC.IsCut(High.HighTree(g, k), Min(g.p, g.ldd))
    ensures k + g.p <= g.ldd ==> GC.IsGreedy(High.HighTree(g, k))
  {
    var t := High.HighTree(g, k);
    assert k + g.p <= g.ldd ==> t.end - t.root == g.p == Min(g.p, g.ldd);
  }

  lemma HighFibonacciIsFibonacci(g: High.HighArgs, minMN: nat, k: nat)
    requires HighIs(FibonacciTree, g, minMN, false) && High.HasTree(g, k)
    ensures Fib.IsFibonacci(High.HighTree(g, k))
  {
  }

  /** The pipelined greedy tables give the tree of the pipeline over the steps at which the domain has macro-tiles. */
  lemma LowGreedyFollowsPipeline(g: Low.LowArgs, minMN: nat, k: nat, rank: int, root: int) returns (cols: nat)
    requires LowIs(GreedyTree, g, minMN) && k < minMN && 0 <= rank < g.p
    requires Low.HasTree(g, k, rank, root) && root == PL.Root(PlanOf(g, minMN, Low.Slab(g, rank)), k)
    ensures var pl := PlanOf(g, minMN, Low.Slab(g, rank));
      StepsAre(pl, cols, minMN) && IsStepOfPipeline(Low.LowTree(g, k, rank, root), PL.PipeOf(pl.(cols := cols)), k)
  {
    hide Pipelined, Ended, LogOf, PL.PipeOf, Dead, IsDead, PL.IsSchedule;
    var pl, slab := PlanOf(g, minMN, Low.Slab(g, rank)), g.lookups.ipiv[Low.Slab(g, rank)];
    assert PipelinedSlab(pl, slab, minMN);
    var bs;
    cols, bs :| StepsAre(pl, cols, minMN) && IsPipelined(pl, slab, cols, bs);
    SameRoots(pl, cols, k);
    LowFollows(g, pl.(cols := cols), slab, bs, k, rank, root);
  }

  lemma LowFollows(g: Low.LowArgs, pl: PL.Plan, slab: seq<seq<int>>, bs: seq<Batch>, k: nat, rank: int, root: int)
    requires g.lookups.LowGreedy? && Low.HasTree(g, k, rank, root) && slab == g.lookups.ipiv[Low.Slab(g, rank)]
    requires pl.mt == g.ldd && k < pl.cols && root == PL.Root(pl, k) && PL.Finished(pl, slab, bs)
    ensures FollowsSchedule(Low.LowTree(g, k, rank, root), LogOf(bs), k)
  {
    hide Pipelined, Ended, LogOf, PL.PipeOf, Dead, IsDead, PL.IsSchedule, PL.Root;
    var t, log := Low.LowTree(g, k, rank, root), LogOf(bs);
    forall i | 0 <= i < |log| && log[i].k == k
      ensures t.root < log[i].row < t.end && t.killer(log[i].row) == log[i].killer
    {
      EventsAreDead(log, i);
    }
  }

  /* The high-level tree. */

  ghost predicate IsHighPipelined(g: High.HighArgs, minMN: nat, bs: seq<Batch>) {
    g.lookups.HighGreedy? && PH.Finished(PH.Band(g.ldd, minMN, g.p), g.lookups.ipiv, bs)
  }

  ghost predicate IsHighFibonacci(g: High.HighArgs) {
    && g.lookups.HighOneColumn? && |g.lookups.offsets| == g.p
    && forall j :: 0 < j < g.p ==> g.lookups.offsets[j] == j - Fib.Group(j)
  }

  /** The lookups and tables are those of the kind of tree asked for; the default depends on the shape. */
  ghost predicate HighIs(kind: TreeType, g: High.HighArgs, minMN: nat, wide: bool) {
    match kind
    case FlatTree => g.lookups.HighFlat?
    case BinaryTree => g.lookups.HighBinary?
    case GreedyTree => exists bs :: IsHighPipelined(g, minMN, bs)
    case Greedy1pTree =>
      && g.lookups.HighOneColumn? && |g.lookups.offsets| == g.p
      && forall j :: 0 < j < g.p && j < g.ldd ==> g.lookups.offsets[j] == GC.Entry(Min(g.p, g.ldd), Min(g.p, g.ldd), j)
    case FibonacciTree => IsHighFibonacci(g)
    case DefaultTree => if wide then g.lookups.HighFlat? else IsHighFibonacci(g)
  }

  ghost predicate HighServes(g: High.HighArgs, minMN: nat) {
    forall k :: 0 <= k < minMN ==> High.HasTree(g, k)
  }

  /** The pipelined greedy table gives the tree of the pipeline over all steps. */
  lemma HighGreedyFollowsPipeline(g: High.HighArgs, minMN: nat, k: nat)
    requires HighIs(GreedyTree, g, minMN, false) && High.HasTree(g, k) && k < minMN
    ensures IsStepOfPipeline(High.HighTree(g, k), PH.PipeOf(PH.Band(g.ldd, minMN, g.p)), k)
  {
    hide Pipelined, Ended, LogOf, PH.PipeOf, Dead, IsDead, PH.IsSchedule;
    var bs :| IsHighPipelined(g, minMN, bs);
    HighFollows(g, minMN, bs, k);
  }

  lemma HighFollows(g: High.HighArgs, minMN: nat, bs: seq<Batch>, k: nat)
    requires IsHighPipelined(g, minMN, bs) && High.HasTree(g, k) && k < minMN
    ensures FollowsSchedule(High.HighTree(g, k), LogOf(bs), k)
  {
    hide Pipelined, Ended, LogOf, PH.PipeOf, Dead, IsDead, PH.IsSchedule;
    var t, log := High.HighTree(g, k), LogOf(bs);
    forall i | 0 <= i < |log| && log[i].k == k
      ensures t.root < log[i].row < t.end && t.killer(log[i].row) == log[i].killer
    {
      EventsAreDead(log, i);
    }
  }

  /* The kinds of trees, whatever tables they are kept in. */

  ghost predicate LowTreeIs(kind: TreeType, pl: PL.Plan, minMN: nat, k: nat, t: Tree) {
    match kind
    case FlatTree => IsFlat(t)
    case BinaryTree => B.IsBinary(t)
    case FibonacciTree => Fib.IsFibonacci(t)
    case Greedy1pTree => GC.IsGreedy(t)
    case _ => exists cols: nat :: StepsAre(pl, cols, minMN) && IsStepOfPipeline(t, PL.PipeOf(pl.(cols := cols)), k)
  }

  ghost predicate HighTreeIs(kind: TreeType, mt: Pos, p: Pos, minMN: nat, wide: bool, k: nat, t: Tree) {
    match kind
    case FlatTree => IsFlat(t)
    case BinaryTree => B.IsBinary(t)
    case FibonacciTree => Fib.IsFibonacci(t)
    case Greedy1pTree => GC.IsCut(t, Min(p, mt))
    case GreedyTree => IsStepOfPipeline(t, PH.PipeOf(PH.Band(mt, minMN, p)), k)
    case DefaultTree => if wide then IsFlat(t) else Fib.IsFibonacci(t)
  }

  lemma LowTreeOfKind(kind: TreeType, g: Low.LowArgs, minMN: nat, k: nat, rank: int, root: int)
    requires LowIs(kind, g, minMN) && k < minMN && 0 <= rank < g.p
    requires Low.HasTree(g, k, rank, root) && root == PL.Root(PlanOf(g, minMN, Low.Slab(g, rank)), k) < minMN
    ensures LowTreeIs(kind, PlanOf(g, minMN, Low.Slab(g, rank)), minMN, k, Low.LowTree(g, k, rank, root))
  {
    hide IsFlat, B.IsBinary, Fib.IsFibonacci, GC.IsCut, IsStepOfPipeline, StepsAre;
    match kind {
      case FlatTree => Low.FlatTreeIsFlat(g, k, rank, root);
      case BinaryTree => Low.BinaryTreeIsBinary(g, k, rank, root);
      case FibonacciTree => LowFibonacciIsFibonacci(g, minMN, k, rank, root);
      case Greedy1pTree => LowGreedyIsGreedy(g, minMN, k, rank, root);
      case _ => var cols := LowGreedyFollowsPipeline(g, minMN, k, rank, root);
    }
  }

  lemma HighTreeOfKind(kind: TreeType, g: High.HighArgs, minMN: nat, wide: bool, k: nat)
    requires HighIs(kind, g, minMN, wide) && High.HasTree(g, k) && k < minMN
    ensures HighTreeIs(kind, g.ldd, g.p, minMN, wide, k, High.HighTree(g, k))
  {
    hide IsFlat, B.IsBinary, Fib.IsFibonacci, GC.IsCut, IsStepOfPipeline;
    match kind {
      case FlatTree => High.FlatTreeIsFlat(g, k);
      case BinaryTree => High.BinaryTreeIsBinary(g, k);
      case FibonacciTree => HighFibonacciIsFibonacci(g, minMN, k);
      case Greedy1pTree => HighGreedyIsGreedy(g, minMN, k);
      case GreedyTree => HighGreedyFollowsPipeline(g, minMN, k);
      case DefaultTree =>
        if wide { High.FlatTreeIsFlat(g, k); } else { HighFibonacciIsFibonacci(g, minMN, k); }
    }
  }

  /** The trees plugged into a step are those the caller has asked for. */
  lemma LowOfStep(q: HqrTree, kind: TreeType, k: nat, rank: int)
    requires k < Steps(q) && StepOk(q, k) && LowIs(kind, q.low, Steps(q))
    requires 0 <= rank < q.p && Root(FrameOf(q, k), rank) < q.low.ldd
    ensures LowTreeIs(kind, PlanOf(q.low, Steps(q), Low.Slab(q.low, rank)), Steps(q), k, LevelsOf(q, k).low(rank))
  {
    hide LowTreeIs, HasPermutation, LowIs, Root, PL.Root;
    RootAtMostStep(FrameOf(q, k), rank);
    SlabRoot(q.low, q.mt, Steps(q), k, rank);
    LowTreeOfKind(kind, q.low, Steps(q), k, rank, Root(FrameOf(q, k), rank));
  }

  lemma HighOfStep(q: HqrTree, kind: TreeType, wide: bool, k: nat)
    requires k < Steps(q) && StepOk(q, k) && q.p > 1 && HighIs(kind, q.high.value, Steps(q), wide)
    ensures HighTreeIs(kind, q.mt, q.p, Steps(q), wide, k, LevelsOf(q, k).high)
  {
    hide HighTreeIs, HasPermutation, HighIs, Root;
    HighTreeOfKind(kind, q.high.value, Steps(q), wide, k);
  }

  /** The greedy tree of one panel, used for all of them. */
  method OnePanelOffsets(mt: Pos, p: Pos) returns (offsets: seq<int>)
    ensures |offsets| == p
    ensures forall j :: 0 < j < p ==> 0 <= offsets[j] < j
    ensures forall j :: 0 < j < p && j < mt ==> offsets[j] == GC.Entry(Min(p, mt), Min(p, mt), j)
  {
    var ipiv := new int[p](i => 0);
    var nT := mt;
    var nZ := Max(mt - p, 0);
    GC.Fill(ipiv, 0, mt - nZ, nT - nZ);
    offsets := ipiv[..];
  }

  method HighTree(kind: TreeType, mt: Pos, minMN: nat, p: Pos, wide: bool) returns (g: High.HighArgs)
    requires 0 < minMN <= mt && p > 1
    ensures g.ldd == mt && g.p == p && HighServes(g, minMN) && HighIs(kind, g, minMN, wide)
  {
    g := High.HighArgs(High.HighFlat, mt, p);
    match kind {
      case FlatTree =>
      case GreedyTree =>
        var ipiv := new int[minMN, p]((k, j) => 0);
        ghost var bs := PH.Generate(PH.Band(mt, minMN, p), ipiv);
        g := g.(lookups := High.HighGreedy(Rows(ipiv)));
        assert IsHighPipelined(g, minMN, bs);
      case Greedy1pTree =>
        var offsets := OnePanelOffsets(mt, p);
        g := g.(lookups := High.HighOneColumn(offsets));
      case BinaryTree =>
        g := g.(lookups := High.HighBinary);
      case FibonacciTree =>
        var offsets := Fib.HighInit(p);
        g := g.(lookups := High.HighOneColumn(offsets));
      case DefaultTree =>
        if !wide {
          var offsets := Fib.HighInit(p);
          g := g.(lookups := High.HighOneColumn(offsets));
        }
    }
  }

  lemma MacroTilesFit(mt: Pos, p: Pos, a: Pos, k: nat, domino: bool)
    requires k < mt
    ensures p * a > 0 && (mt + p * a - 1) / (p * a) > 0
    ensures Fits(Frame(mt, p, a, domino, k, (mt + p * a - 1) / (p * a)))
  {
    MulMonotone(1, a, p);
    var pa: Pos := p * a;
    var ldd := (mt + pa - 1) / pa;
    QuotientTimes(mt + pa - 1, pa);
    QuotientMonotone(pa, mt + pa - 1, pa);
    QuotientIs(pa, pa, 1, 0);
    assert ldd * a * p == ldd * pa;
    assert (ldd - 1) * a * p == (ldd - 1) * pa == ldd * pa - pa;
  }

  /** Create the tree. The default for `a` is asked for with -1, other values below one give one. A negative
      `domino` asks for the default, which follows from the shape of the matrix. */
  method Init(mt: Pos, nt: Pos, typeLow: TreeType, typeHigh: TreeType, a0: int, p0: int, domino0: int, tsrr: bool)
      returns (q: HqrTree)
    ensures q.mt == mt && q.nt == nt && q.p == Max(p0, 1)
    ensures q.a == Min(if a0 == -1 then 4 else Max(a0, 1), mt)
    ensures q.domino == if domino0 >= 0 then domino0 != 0 else 2 * nt < mt
    ensures q.tsrr == tsrr && HqrTrees.Ok(q)
    ensures LowIs(typeLow, q.low, Min(mt, nt))
    ensures q.high.Some? ==> HighIs(typeHigh, q.high.value, Min(mt, nt), domino0 < 0 && 2 * nt >= mt)
  {
    hide LowIs, HighIs, LowServes, StepOk;
    var a := if a0 == -1 then 4 else Max(a0, 1);
    var p := Max(p0, 1);
    var domino := if domino0 >= 0 then domino0 != 0 else !(2 * nt >= mt);
    a := Min(a, mt);
    var minMN := Min(mt, nt);
    MacroTilesFit(mt, p, a, 0, domino);
    var ldd := (mt + p * a - 1) / (p * a);
    var low := LowTree(typeLow, minMN, ldd, a, p, domino);
    LowTreesServe(typeLow, low, mt, minMN);
    var high := None;
    if p > 1 {
      var h := HighTree(typeHigh, mt, minMN, p, domino0 < 0 && 2 * nt >= mt);
      high := Some(h);
    }
    var perm := RR.GenPerm(mt, nt, a, p, domino, tsrr, ldd);
    q := HqrTree(mt, nt, a, p, domino, tsrr, Rows(perm), low, high);
    forall k | 0 <= k < Steps(q) ensures StepOk(q, k) {
      assert RR.RowDone(Frame(mt, p, a, domino, k, ldd), tsrr, perm);
      MacroTilesFit(mt, p, a, k, domino);
      StepFromParts(q, k);
    }
  }

  /** What the parts of a tree contribute to a step. */
  lemma StepFromParts(q: HqrTree, k: nat)
    requires k < Steps(q) && Fits(FrameOf(q, k)) && HasPermutation(q, k)
    requires q.low.a == q.a && q.low.p == q.p && q.low.domino == q.domino && LowServes(q.low, q.mt, Steps(q))
    requires q.high.Some? <==> q.p > 1
    requires q.high.Some? ==> q.high.value.ldd == q.mt && q.high.value.p == q.p && High.HasTree(q.high.value, k)
    ensures StepOk(q, k)
  {
    hide Low.HasTree, High.HasTree, Root, HasPermutation;
    forall rank | 0 <= rank < q.p && Root(FrameOf(q, k), rank) < q.low.ldd
      ensures Low.HasTree(q.low, k, rank, Root(FrameOf(q, k), rank))
    {
      assert LowServesStep(q.low, q.mt, k, rank);
    }
  }
}
