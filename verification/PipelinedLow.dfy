/** The pipelined greedy generator of the low-level tree. It fills the killer table of all steps at
    once: a macro-tile can be used at step `k + 1` as soon as it is dead at step `k`, and in every batch
    half of the available live macro-tiles of a step are killed by the half above them. `nT[k]` counts
    the macro-tiles available at step `k`, `nZ[k]` those already killed, both from the bottom. */
module PipelinedLow {
  import opened Integers
  import opened Schedules
  import T = Tables

  /** One table to fill: `mt` macro-tiles, `cols` steps, for one domain (or for all of them when the
      domino tree is on). */
  datatype Plan = Plan(mt: Pos, cols: nat, a: Pos, p: Pos, rank: int, domino: bool)

  function Root(pl: Plan, k: nat): int {
    if pl.domino then k / pl.a else
      MulMonotone(1, pl.a, pl.p);
      (k + pl.p - 1 - pl.rank) / (pl.p * pl.a)
  }

  /** The test of the code for "the next step has the same root". */
  predicate SameRootNext(pl: Plan, k: nat) {
    if pl.domino then k % pl.a != pl.a - 1 else
      MulMonotone(1, pl.a, pl.p);
      k % (pl.p * pl.a) != (pl.a - 1) * pl.p + pl.rank
  }

  ghost predicate PlanOk(pl: Plan) {
    0 <= pl.rank < pl.p && pl.cols > 0 && forall k :: 0 <= k < pl.cols ==> Root(pl, k) < pl.mt
  }

  lemma QuotientStep(n: nat, d: Pos)
    ensures (n + 1) / d == n / d + if n % d == d - 1 then 1 else 0
  {
    QuotientTimes(n, d);
    MulDistributes(n / d, 1, d);
    if n % d == d - 1 {
      QuotientIs(n + 1, d, n / d + 1, 0);
    } else {
      QuotientIs(n + 1, d, n / d, n % d + 1);
    }
  }

  lemma ShiftedRemainder(k: nat, d: Pos, s: nat)
    requires s < d
    ensures (k + s) % d == d - 1 <==> k % d == d - 1 - s
  {
    QuotientTimes(k, d);
    MulDistributes(k / d, 1, d);
    if k % d + s < d {
      QuotientIs(k + s, d, k / d, k % d + s);
    } else {
      QuotientIs(k + s, d, k / d + 1, k % d + s - d);
    }
  }

  /** The test of the code is right: the root moves down by one macro-tile exactly when it fails. */
  lemma RootStep(pl: Plan, k: nat)
    requires 0 <= pl.rank < pl.p
    ensures Root(pl, k + 1) == Root(pl, k) + if SameRootNext(pl, k) then 0 else 1
    ensures Root(pl, 0) == 0 && Root(pl, k) >= 0
  {
    if pl.domino {
      QuotientStep(k, pl.a);
      QuotientMonotone(0, k, pl.a);
    } else {
      MulMonotone(1, pl.a, pl.p);
      var d: Pos := pl.p * pl.a;
      var s := pl.p - 1 - pl.rank;
      QuotientStep(k + s, d);
      ShiftedRemainder(k, d, s);
      QuotientIs(s, d, 0, s);
      QuotientMonotone(0, k + s, d);
      assert (pl.a - 1) * pl.p + pl.rank == d - 1 - s by { MulDistributes(pl.a, -1, pl.p); }
    }
  }

  /* The schedule as a sequence of kills. */

  ghost predicate AllDeadBelow(dead: set<(int, int)>, k: int, root: int, mt: int) {
    forall u :: root < u < mt ==> IsDead(dead, k, u)
  }

  /** A row may take part in step `k` once it is dead at step `k - 1`, or if it survived that step as the
      root and is the root again. */
  ghost predicate Available(pl: Plan, dead: set<(int, int)>, k: nat, row: int) {
    || k == 0
    || IsDead(dead, k - 1, row)
    || (row == Root(pl, k - 1) == Root(pl, k) && AllDeadBelow(dead, k - 1, Root(pl, k - 1), pl.mt))
  }

  ghost predicate FairKill(pl: Plan, dead: set<(int, int)>, e: Event) {
    && e.k < pl.cols && Root(pl, e.k) <= e.killer < e.row < pl.mt
    && Available(pl, dead, e.k, e.row) && Available(pl, dead, e.k, e.killer)
    && !IsDead(dead, e.k, e.row) && !IsDead(dead, e.k, e.killer)
  }

  /** The rows step `k` could work on. A root that survives the step before joins only once the generator has left
      that step behind. */
  ghost function Ready(pl: Plan, dead: set<(int, int)>, passed: nat, k: nat): set<int> {
    set row | row in Between(-1, pl.mt)
              && Root(pl, k) <= row && Available(pl, dead, k, row) && !IsDead(dead, k, row)
              && (k <= passed || IsDead(dead, k - 1, row))
  }

  ghost function PipeOf(pl: Plan): Pipe {
    Pipe(pl.cols, (dead, passed: nat, k: nat) => Ready(pl, dead, passed, k),
         (dead, k: nat) => AllDeadBelow(dead, k, Root(pl, k), pl.mt))
  }

  ghost function FairRule(pl: Plan): KillRule {
    (dead, e) => FairKill(pl, dead, e)
  }

  ghost predicate IsSchedule(pl: Plan, log: seq<Event>) {
    Follows(FairRule(pl), log)
  }

  /* What the counters mean. */

  ghost predicate Complete(pl: Plan, nT: seq<int>, nZ: seq<int>, k: nat)
    requires k < |nT| && k < |nZ|
  {
    nT[k] == pl.mt - Root(pl, k) && nZ[k] + 1 == nT[k]
  }

  ghost predicate CountersOk(pl: Plan, nT: seq<int>, nZ: seq<int>, firstk: nat) {
    && |nT| == |nZ| == pl.cols && 0 < pl.cols && firstk <= pl.cols
    && nT[0] == pl.mt
    && (forall k :: 0 <= k < pl.cols ==>
          0 <= nZ[k] <= nT[k] && (nT[k] > 0 ==> nZ[k] < nT[k]) && nT[k] <= pl.mt - Root(pl, k))
    && (forall k :: 0 <= k < firstk ==> Complete(pl, nT, nZ, k))
    && (forall k :: 0 <= k < pl.cols - 1 ==>
          nT[k + 1] == nZ[k] + if k < firstk && SameRootNext(pl, k) then 1 else 0)
  }

  /** The table holds the killers of the schedule. */
  ghost predicate Names(ipiv: array2<int>, log: seq<Event>)
    reads ipiv
  {
    forall i :: 0 <= i < |log| ==>
      log[i].k < ipiv.Length0 && 0 <= log[i].row < ipiv.Length1 && ipiv[log[i].k, log[i].row] == log[i].killer
  }

  /** The dead rows of a step are the last `nZ[k]` ones, and the table names their killers. */
  ghost predicate Recorded(pl: Plan, nZ: seq<int>, log: seq<Event>, ipiv: array2<int>)
    requires |nZ| == pl.cols && ipiv.Length0 >= pl.cols && ipiv.Length1 == pl.mt
    reads ipiv
  {
    && (forall k, row :: 0 <= k < pl.cols ==> (IsDead(Dead(log), k, row) <==> pl.mt - nZ[k] <= row < pl.mt))
    && (forall k, row :: 0 <= k < pl.cols && 0 <= row < pl.mt && pl.mt - nZ[k] <= row ==>
          Root(pl, k) <= ipiv[k, row] < row)
    && Names(ipiv, log) && LowestFirst(log)
  }

  lemma RowIsAvailable(pl: Plan, nT: seq<int>, nZ: seq<int>, firstk: nat, dead: set<(int, int)>, k: nat, row: int)
    requires PlanOk(pl) && CountersOk(pl, nT, nZ, firstk) && k < pl.cols
    requires forall c, r :: 0 <= c < pl.cols && c != k ==> (IsDead(dead, c, r) <==> pl.mt - nZ[c] <= r < pl.mt)
    requires pl.mt - nT[k] <= row < pl.mt
    ensures Available(pl, dead, k, row)
  {
    hide Root, SameRootNext;
    if k > 0 {
      var c := k - 1;
      assert nT[c + 1] == nZ[c] + if c < firstk && SameRootNext(pl, c) then 1 else 0;
      RootStep(pl, c);
      if row < pl.mt - nZ[c] {
        assert Complete(pl, nT, nZ, c);
        assert AllDeadBelow(dead, c, Root(pl, c), pl.mt);
      } else {
        assert IsDead(dead, c, row);
      }
    }
  }

  /** Once the last step is complete, all steps are. */
  lemma {:induction false} LastCompletesAll(pl: Plan, nT: seq<int>, nZ: seq<int>, firstk: nat, k: nat)
    requires PlanOk(pl) && CountersOk(pl, nT, nZ, firstk) && k < pl.cols && Complete(pl, nT, nZ, pl.cols - 1)
    ensures Complete(pl, nT, nZ, k)
    decreases pl.cols - k
  {
    if k < pl.cols - 1 {
      LastCompletesAll(pl, nT, nZ, firstk, k + 1);
      RootStep(pl, k);
    }
  }

  /** The first incomplete step always has all its macro-tiles available. */
  lemma FirstIsAvailable(pl: Plan, nT: seq<int>, nZ: seq<int>, firstk: nat)
    requires PlanOk(pl) && CountersOk(pl, nT, nZ, firstk) && firstk < pl.cols
    ensures nT[firstk] == pl.mt - Root(pl, firstk)
  {
    RootStep(pl, 0);
    if firstk > 0 {
      assert Complete(pl, nT, nZ, firstk - 1);
      assert nT[firstk - 1 + 1] == nZ[firstk - 1] + if SameRootNext(pl, firstk - 1) then 1 else 0;
      RootStep(pl, firstk - 1);
    }
  }

  /** The batches follow one another as in the pipeline, to its end. Every row below the root of every step is killed
      once, every kill is fair, and the table names the killers. */
  ghost predicate Finished(pl: Plan, table: seq<seq<int>>, bs: seq<Batch>) {
    && |table| >= pl.cols && (forall k :: 0 <= k < pl.cols ==> |table[k]| == pl.mt)
    && Pipelined(PipeOf(pl), bs) && Ended(PipeOf(pl), bs)
    && FinishedLog(pl, table, LogOf(bs))
  }

  ghost predicate FinishedLog(pl: Plan, table: seq<seq<int>>, log: seq<Event>)
    requires |table| >= pl.cols && (forall k :: 0 <= k < pl.cols ==> |table[k]| == pl.mt)
  {
    && IsSchedule(pl, log) && LowestFirst(log)
    && (forall k, row :: 0 <= k < pl.cols ==> (IsDead(Dead(log), k, row) <==> Root(pl, k) < row < pl.mt))
    && (forall k, row :: 0 <= k < pl.cols && 0 <= row < pl.mt && Root(pl, k) < row ==>
          Root(pl, k) <= table[k][row] < row)
    && (forall i :: 0 <= i < |log| ==>
          log[i].k < pl.cols && 0 <= log[i].row < pl.mt && table[log[i].k][log[i].row] == log[i].killer)
  }

  /** With at most one live row, the first incomplete step is complete after all. */
  lemma StuckMeansComplete(pl: Plan, nT: seq<int>, nZ: seq<int>, firstk: nat)
    requires PlanOk(pl) && CountersOk(pl, nT, nZ, firstk) && firstk < pl.cols && nT[firstk] - nZ[firstk] < 2
    ensures Complete(pl, nT, nZ, firstk)
  {
    hide Root, SameRootNext;
    FirstIsAvailable(pl, nT, nZ, firstk);
  }

  lemma EventsAreInRange(pl: Plan, log: seq<Event>, i: nat)
    requires IsSchedule(pl, log) && PlanOk(pl) && i < |log|
    ensures log[i].k < pl.cols && Root(pl, log[i].k) <= log[i].killer < log[i].row < pl.mt && Root(pl, log[i].k) >= 0
  {
    hide Available, Root, Follows, Dead;
    EachFollows(FairRule(pl), log, i);
    RootStep(pl, log[i].k);
  }

  lemma AllCompleteIsFinishedLog(pl: Plan, nT: seq<int>, nZ: seq<int>, firstk: nat, ipiv: array2<int>, log: seq<Event>)
    requires PlanOk(pl) && CountersOk(pl, nT, nZ, firstk) && ipiv.Length0 >= pl.cols && ipiv.Length1 == pl.mt
    requires IsSchedule(pl, log) && Recorded(pl, nZ, log, ipiv)
    requires firstk == pl.cols || Complete(pl, nT, nZ, pl.cols - 1)
    ensures FinishedLog(pl, T.Rows(ipiv), log)
  {
    hide Root, SameRootNext, IsSchedule, Dead, IsDead;
    forall c | 0 <= c < pl.cols ensures nZ[c] == pl.mt - Root(pl, c) - 1 {
      if firstk < pl.cols { LastCompletesAll(pl, nT, nZ, firstk, c); }
      assert Complete(pl, nT, nZ, c);
    }
    forall k, row | 0 <= k < pl.cols ensures IsDead(Dead(log), k, row) <==> Root(pl, k) < row < pl.mt {
      assert nZ[k] == pl.mt - Root(pl, k) - 1;
    }
    forall k, row | 0 <= k < pl.cols && 0 <= row < pl.mt && Root(pl, k) < row
      ensures Root(pl, k) <= ipiv[k, row] < row
    {
      assert nZ[k] == pl.mt - Root(pl, k) - 1;
    }
    forall i | 0 <= i < |log| ensures log[i].k < pl.cols { EventsAreInRange(pl, log, i); }
  }

  /** What the counters say about the rows ready. */
  lemma ReadyRows(pl: Plan, nT: seq<int>, nZ: seq<int>, firstk: nat, log: seq<Event>, ipiv: array2<int>, k: nat)
    requires PlanOk(pl) && CountersOk(pl, nT, nZ, firstk) && ipiv.Length0 >= pl.cols && ipiv.Length1 == pl.mt
    requires Recorded(pl, nZ, log, ipiv) && k < pl.cols
    ensures Ready(pl, Dead(log), firstk, k) == Between(pl.mt - nT[k] - 1, pl.mt - nZ[k])
    ensures |Ready(pl, Dead(log), firstk, k)| == nT[k] - nZ[k]
  {
    hide Root, SameRootNext, Dead, Available, IsDead;
    var dead := Dead(log);
    RootStep(pl, k);
    forall row | Root(pl, k) <= row < pl.mt
      ensures Available(pl, dead, k, row) && (k <= firstk || IsDead(dead, k - 1, row)) <==> pl.mt - nT[k] <= row
    {
      RowIsUsable(pl, nT, nZ, firstk, dead, k, row);
    }
  }

  lemma RowIsUsable(pl: Plan, nT: seq<int>, nZ: seq<int>, firstk: nat, dead: set<(int, int)>, k: nat, row: int)
    requires PlanOk(pl) && CountersOk(pl, nT, nZ, firstk) && k < pl.cols
    requires forall c, r :: 0 <= c < pl.cols ==> (IsDead(dead, c, r) <==> pl.mt - nZ[c] <= r < pl.mt)
    requires 0 <= Root(pl, k) <= row < pl.mt
    ensures Available(pl, dead, k, row) && (k <= firstk || IsDead(dead, k - 1, row)) <==> pl.mt - nT[k] <= row
  {
    hide Root, SameRootNext;
    if k > 0 {
      var c := k - 1;
      assert nT[c + 1] == nZ[c] + if c < firstk && SameRootNext(pl, c) then 1 else 0;
      RootStep(pl, c);
      if c < firstk {
        assert Complete(pl, nT, nZ, c);
        assert AllDeadBelow(dead, c, Root(pl, c), pl.mt);
      }
    }
  }

  lemma DoneSteps(pl: Plan, nT: seq<int>, nZ: seq<int>, firstk: nat, log: seq<Event>, ipiv: array2<int>, k: nat)
    requires PlanOk(pl) && CountersOk(pl, nT, nZ, firstk) && ipiv.Length0 >= pl.cols && ipiv.Length1 == pl.mt
    requires Recorded(pl, nZ, log, ipiv) && k < pl.cols
    ensures PipeOf(pl).done(Dead(log), k) <==> nZ[k] >= pl.mt - Root(pl, k) - 1
  {
    hide Root, SameRootNext, Dead, Available, IsDead;
    RootStep(pl, k);
    if PipeOf(pl).done(Dead(log), k) && Root(pl, k) + 1 < pl.mt {
      assert IsDead(Dead(log), k, Root(pl, k) + 1);
    }
  }

  /** Once the generator has left all finished steps behind, it is at the first step that is not done. */
  lemma FirstOpenStep(pl: Plan, nT: seq<int>, nZ: seq<int>, firstk: nat, log: seq<Event>, ipiv: array2<int>)
    requires PlanOk(pl) && CountersOk(pl, nT, nZ, firstk) && ipiv.Length0 >= pl.cols && ipiv.Length1 == pl.mt
    requires Recorded(pl, nZ, log, ipiv) && (firstk == pl.cols || !Complete(pl, nT, nZ, firstk))
    ensures FirstOpen(PipeOf(pl), Dead(log), 0) == firstk
  {
    hide Root, SameRootNext, Dead, IsDead, Recorded, PipeOf;
    forall c: nat | c < firstk ensures PipeOf(pl).done(Dead(log), c) {
      assert Complete(pl, nT, nZ, c);
      DoneSteps(pl, nT, nZ, firstk, log, ipiv, c);
    }
    if firstk < pl.cols {
      DoneSteps(pl, nT, nZ, firstk, log, ipiv, firstk);
      FirstIsAvailable(pl, nT, nZ, firstk);
    }
    ColsOfPipe(pl);
    FirstOpenIs(PipeOf(pl), Dead(log), firstk);
  }

  lemma ColsOfPipe(pl: Plan)
    ensures PipeOf(pl).cols == pl.cols
  {
  }

  /** In a step that is done, there is at most the root left to work on. */
  lemma DoneMeansFew(pl: Plan, dead: set<(int, int)>, passed: nat, k: nat)
    requires PipeOf(pl).done(dead, k)
    ensures |Ready(pl, dead, passed, k)| < 2
  {
    hide Root, Available;
    var ready := Ready(pl, dead, passed, k);
    if Root(pl, k) in ready { assert ready == {Root(pl, k)}; } else { assert ready == {}; }
  }

  lemma AllCompleteIsFinished(pl: Plan, nT: seq<int>, nZ: seq<int>, firstk: nat, ipiv: array2<int>, bs: seq<Batch>)
    requires PlanOk(pl) && CountersOk(pl, nT, nZ, firstk) && ipiv.Length0 >= pl.cols && ipiv.Length1 == pl.mt
    requires IsSchedule(pl, LogOf(bs)) && Recorded(pl, nZ, LogOf(bs), ipiv) && Pipelined(PipeOf(pl), bs)
    requires firstk == pl.cols || Complete(pl, nT, nZ, pl.cols - 1)
    ensures Finished(pl, T.Rows(ipiv), bs)
  {
    hide Root, SameRootNext, IsSchedule, Dead, IsDead, Pipelined, LogOf, FinishedLog, Recorded;
    AllCompleteIsFinishedLog(pl, nT, nZ, firstk, ipiv, LogOf(bs));
    var dead := Dead(LogOf(bs));
    forall c: nat | c < pl.cols ensures PipeOf(pl).done(dead, c) {
      if firstk < pl.cols { LastCompletesAll(pl, nT, nZ, firstk, c); }
      assert Complete(pl, nT, nZ, c);
      DoneSteps(pl, nT, nZ, firstk, LogOf(bs), ipiv, c);
    }
    FirstOpenIs(PipeOf(pl), dead, pl.cols);
    if |bs| > 0 && bs[|bs| - 1].k + 1 < pl.cols {
      DoneMeansFew(pl, dead, bs[|bs| - 1].passed, bs[|bs| - 1].k + 1);
    }
  }

  /** The generator is about to look at step `k`, having left `firstk` steps behind. */
  ghost predicate AtTurn(pl: Plan, bs: seq<Batch>, firstk: nat, k: nat) {
    var dead := Dead(LogOf(bs));
    if k < pl.cols && |Ready(pl, dead, firstk, k)| >= 2 then
      Turn(PipeOf(pl), bs) == (k, firstk)
    else
      Turn(PipeOf(pl), bs) == (FirstOpen(PipeOf(pl), dead, 0), FirstOpen(PipeOf(pl), dead, 0))
  }

  /** After a batch the next step is looked at, and after the last step the first one not left behind. */
  lemma TurnAfterBatch(pl: Plan, nT: seq<int>, nZ: seq<int>, firstk: nat, ipiv: array2<int>, bs: seq<Batch>, k: nat)
    requires PlanOk(pl) && CountersOk(pl, nT, nZ, firstk) && ipiv.Length0 >= pl.cols && ipiv.Length1 == pl.mt
    requires Recorded(pl, nZ, LogOf(bs), ipiv)
    requires |bs| > 0 && bs[|bs| - 1].passed == firstk && bs[|bs| - 1].k < pl.cols
    requires k == if bs[|bs| - 1].k + 1 < pl.cols then bs[|bs| - 1].k + 1 else firstk
    ensures AtTurn(pl, bs, firstk, k)
  {
    hide Root, SameRootNext, Dead, IsDead, Recorded, LogOf, CountersOk, Ready;
    SizesOk(pl, nT, nZ, firstk);
    if bs[|bs| - 1].k + 1 == pl.cols && k < pl.cols {
      ReadyRows(pl, nT, nZ, firstk, LogOf(bs), ipiv, k);
      if nT[k] - nZ[k] >= 2 { FirstOpenStep(pl, nT, nZ, firstk, LogOf(bs), ipiv); }
    }
  }

  /** The generator's batch is the one whose turn it is. */
  lemma BatchIsNext(pl: Plan, nT: seq<int>, nZ: seq<int>, firstk: nat, ipiv: array2<int>, bs: seq<Batch>, k: nat)
    requires PlanOk(pl) && CountersOk(pl, nT, nZ, firstk) && ipiv.Length0 >= pl.cols && ipiv.Length1 == pl.mt
    requires Recorded(pl, nZ, LogOf(bs), ipiv) && AtTurn(pl, bs, firstk, k) && k < pl.cols
    requires nT[k] - nZ[k] >= 2
    ensures IsNextBatch(PipeOf(pl), bs, Batch(k, firstk, pl.mt - nZ[k] - 1, (nT[k] - nZ[k]) / 2))
  {
    hide Root, SameRootNext, Dead, IsDead, Recorded, LogOf, CountersOk, Ready, Turn;
    SizesOk(pl, nT, nZ, firstk);
    ReadyRows(pl, nT, nZ, firstk, LogOf(bs), ipiv, k);
  }

  /* Kills still to come, for termination. */

  ghost function Goal(pl: Plan): int -> int {
    k => pl.mt - Root(pl, Max(k, 0)) - 1
  }

  ghost function Left(pl: Plan, nZ: seq<int>): int {
    KillsLeft(Goal(pl), nZ, 0)
  }

  lemma LeftIsNatural(pl: Plan, nT: seq<int>, nZ: seq<int>, firstk: nat)
    requires PlanOk(pl) && CountersOk(pl, nT, nZ, firstk)
    ensures Left(pl, nZ) >= 0
  {
    KillsLeftIsNatural(Goal(pl), nZ, 0);
  }

  lemma SizesOk(pl: Plan, nT: seq<int>, nZ: seq<int>, firstk: nat)
    requires CountersOk(pl, nT, nZ, firstk)
    ensures |nT| == |nZ| == pl.cols
  {
  }

  lemma CountersAfterKills(pl: Plan, nT: seq<int>, nZ: seq<int>, nT': seq<int>, firstk: nat, k: nat, height: nat)
    requires PlanOk(pl) && CountersOk(pl, nT, nZ, firstk) && firstk <= k < pl.cols
    requires 2 * height <= nT[k] - nZ[k] && (nT[k] > 0 ==> height < nT[k] - nZ[k])
    requires nT' == if k < pl.cols - 1 then nT[k + 1 := nT[k + 1] + height] else nT
    ensures CountersOk(pl, nT', nZ[k := nZ[k] + height], firstk)
  {
    var nZ' := nZ[k := nZ[k] + height];
    SizesOk(pl, nT, nZ, firstk);
    assert nT'[0] == nT[0] == pl.mt;
    hide Root, SameRootNext, CountersOk, CounterOk;
    forall c | 0 <= c < pl.cols ensures CounterOk(pl, nT', nZ', firstk, c) {
      CounterStaysOk(pl, nT, nZ, nT', nZ', firstk, k, height, c);
    }
    CountersFromEach(pl, nT', nZ', firstk);
  }

  /** What the counters of one step have to satisfy. */
  ghost predicate CounterOk(pl: Plan, nT: seq<int>, nZ: seq<int>, firstk: nat, c: nat)
    requires |nT| == |nZ| == pl.cols && c < pl.cols
  {
    && 0 <= nZ[c] <= nT[c] && (nT[c] > 0 ==> nZ[c] < nT[c]) && nT[c] <= pl.mt - Root(pl, c)
    && (c < firstk ==> Complete(pl, nT, nZ, c))
    && (c < pl.cols - 1 ==> nT[c + 1] == nZ[c] + if c < firstk && SameRootNext(pl, c) then 1 else 0)
  }

  lemma CountersFromEach(pl: Plan, nT: seq<int>, nZ: seq<int>, firstk: nat)
    requires |nT| == |nZ| == pl.cols && 0 < pl.cols && firstk <= pl.cols && nT[0] == pl.mt
    requires forall c :: 0 <= c < pl.cols ==> CounterOk(pl, nT, nZ, firstk, c)
    ensures CountersOk(pl, nT, nZ, firstk)
  {
    hide Root, SameRootNext;
    forall c | 0 <= c < pl.cols - 1 ensures nT[c + 1] == nZ[c] + if c < firstk && SameRootNext(pl, c) then 1 else 0 {
      assert CounterOk(pl, nT, nZ, firstk, c);
    }
    forall c | 0 <= c < firstk ensures Complete(pl, nT, nZ, c) { assert CounterOk(pl, nT, nZ, firstk, c); }
    forall c | 0 <= c < pl.cols
      ensures 0 <= nZ[c] <= nT[c] && (nT[c] > 0 ==> nZ[c] < nT[c]) && nT[c] <= pl.mt - Root(pl, c)
    {
      assert CounterOk(pl, nT, nZ, firstk, c);
    }
  }

  lemma CounterStaysOk(pl: Plan, nT: seq<int>, nZ: seq<int>, nT': seq<int>, nZ': seq<int>, firstk: nat, k: nat,
                       height: nat, c: nat)
    requires PlanOk(pl) && CountersOk(pl, nT, nZ, firstk) && firstk <= k < pl.cols && c < pl.cols
    requires 2 * height <= nT[k] - nZ[k] && (nT[k] > 0 ==> height < nT[k] - nZ[k])
    requires nT' == if k < pl.cols - 1 then nT[k + 1 := nT[k + 1] + height] else nT
    requires nZ' == nZ[k := nZ[k] + height]
    ensures CounterOk(pl, nT', nZ', firstk, c)
  {
    CounterInRange(pl, nT, nZ, firstk, k, height, c);
    hide Root, SameRootNext;
    if c < firstk { StillComplete(pl, nT, nZ, nT', nZ', firstk, c); }
    if c < pl.cols - 1 { assert nT[c + 1] == nZ[c] + if c < firstk && SameRootNext(pl, c) then 1 else 0; }
  }

  lemma StillComplete(pl: Plan, nT: seq<int>, nZ: seq<int>, nT': seq<int>, nZ': seq<int>, firstk: nat, c: nat)
    requires CountersOk(pl, nT, nZ, firstk) && c < firstk && |nT'| == |nZ'| == pl.cols
    requires nT'[c] == nT[c] && nZ'[c] == nZ[c]
    ensures Complete(pl, nT', nZ', c)
  {
    hide Root;
    assert Complete(pl, nT, nZ, c);
  }

  /** The bounds of one counter after a batch of step `k`. */
  lemma CounterInRange(pl: Plan, nT: seq<int>, nZ: seq<int>, firstk: nat, k: nat, height: nat, c: nat)
    requires PlanOk(pl) && CountersOk(pl, nT, nZ, firstk) && firstk <= k < pl.cols && c < pl.cols
    requires 2 * height <= nT[k] - nZ[k] && (nT[k] > 0 ==> height < nT[k] - nZ[k])
    ensures var n := nT[c] + if c == k + 1 then height else 0; var z := nZ[c] + if c == k then height else 0;
      0 <= z <= n && (n > 0 ==> z < n) && n <= pl.mt - Root(pl, c)
  {
    hide Root, SameRootNext;
    if c == k + 1 {
      RootStep(pl, k);
      assert nT[k + 1] == nZ[k];
      assert nT[k] <= pl.mt - Root(pl, k);
    }
  }

  lemma CountersAfterSkip(pl: Plan, nT: seq<int>, nZ: seq<int>, nT': seq<int>, firstk: nat)
    requires PlanOk(pl) && CountersOk(pl, nT, nZ, firstk) && firstk < pl.cols && Complete(pl, nT, nZ, firstk)
    requires nT' == if SameRootNext(pl, firstk) && firstk < pl.cols - 1
                    then nT[firstk + 1 := nT[firstk + 1] + 1]
                    else nT
    ensures CountersOk(pl, nT', nZ, firstk + 1)
  {
    hide Root, SameRootNext;
    RootStep(pl, firstk);
    forall c | 0 <= c < firstk + 1 ensures Complete(pl, nT', nZ, c) {
      assert Complete(pl, nT, nZ, c);
    }
    if firstk < pl.cols - 1 {
      assert nT[firstk + 1] == nZ[firstk];
    }
    forall c | 0 <= c < pl.cols - 1
      ensures nT'[c + 1] == nZ[c] + if c < firstk + 1 && SameRootNext(pl, c) then 1 else 0
    {
      assert nT[c + 1] == nZ[c] + if c < firstk && SameRootNext(pl, c) then 1 else 0;
    }
  }

  /* The generator. */

  /** The dead rows and their table entries while step `k` is being worked on: done down to row `j`. */
  ghost predicate RecordedDownTo(pl: Plan, nZ: seq<int>, k: nat, j: int, log: seq<Event>, ipiv: array2<int>)
    requires |nZ| == pl.cols && ipiv.Length0 >= pl.cols && ipiv.Length1 == pl.mt
    reads ipiv
  {
    && (forall c, row :: 0 <= c < pl.cols ==>
          (IsDead(Dead(log), c, row) <==> (if c == k then j < row < pl.mt else pl.mt - nZ[c] <= row < pl.mt)))
    && (forall c, row :: 0 <= c < pl.cols && 0 <= row < pl.mt && (if c == k then j < row else pl.mt - nZ[c] <= row) ==>
          Root(pl, c) <= ipiv[c, row] < row)
    && Names(ipiv, log) && LowestFirst(log)
  }

  /** Enter one kill of step `k` in the table: row `j` by row `killer`. */
  method Enter(pl: Plan, ipiv: array2<int>, k: nat, j: nat, killer: int, ghost nZ: seq<int>, ghost log: seq<Event>)
    requires ipiv.Length0 >= pl.cols && ipiv.Length1 == pl.mt && |nZ| == pl.cols
    requires k < pl.cols && Root(pl, k) <= killer < j < pl.mt
    requires RecordedDownTo(pl, nZ, k, j, log, ipiv)
    modifies ipiv
    ensures RecordedDownTo(pl, nZ, k, j - 1, log + [Event(k, j, killer)], ipiv)
  {
    hide Root, IsDead, Dead;
    ghost var log' := log + [Event(k, j, killer)];
    forall c, row ensures IsDead(Dead(log'), c, row) <==> IsDead(Dead(log), c, row) || (c == k && row == j) {
      DeadAfter(log, Event(k, j, killer), c, row);
    }
    forall i | 0 <= i < |log| ensures log[i].k == k ==> j < log[i].row { EventsAreDead(log, i); }
    ipiv[k, j] := killer;
  }

  /** One kill of a batch. */
  method Kill(pl: Plan, ipiv: array2<int>, k: nat, j: int, height: nat, ghost firstk: nat,
              ghost nT: seq<int>, ghost nZ: seq<int>, ghost log: seq<Event>) returns (ghost log': seq<Event>)
    requires PlanOk(pl) && ipiv.Length0 >= pl.cols && ipiv.Length1 == pl.mt
    requires CountersOk(pl, nT, nZ, firstk) && k < pl.cols
    requires IsSchedule(pl, log) && RecordedDownTo(pl, nZ, k, j, log, ipiv)
    requires 0 < height && 2 * height <= nT[k] - nZ[k] && pl.mt - nZ[k] - 1 - height < j <= pl.mt - nZ[k] - 1
    modifies ipiv
    ensures IsSchedule(pl, log') && RecordedDownTo(pl, nZ, k, j - 1, log', ipiv)
    ensures log' == log + [Event(k, j, j - height)]
  {
    hide PlanOk, CountersOk, RecordedDownTo, FairKill, Follows, Dead, IsDead, Root;
    SizesOk(pl, nT, nZ, firstk);
    KillIsFair(pl, ipiv, nT, nZ, firstk, log, k, j, height);
    log' := log + [Event(k, j, j - height)];
    Extend(FairRule(pl), log, Event(k, j, j - height));
    Enter(pl, ipiv, k, j, j - height, nZ, log);
  }

  /** The rows from `start` down to `start - height + 1` are killed by the rows `height` above them. */
  method KillBatch(pl: Plan, ipiv: array2<int>, k: nat, start: int, height: nat, ghost firstk: nat,
                   ghost nT: seq<int>, ghost nZ: seq<int>, ghost log: seq<Event>) returns (ghost log': seq<Event>)
    requires PlanOk(pl) && ipiv.Length0 >= pl.cols && ipiv.Length1 == pl.mt
    requires CountersOk(pl, nT, nZ, firstk) && k < pl.cols && IsSchedule(pl, log)
    requires start == pl.mt - nZ[k] - 1 && 2 * height <= nT[k] - nZ[k]
    requires RecordedDownTo(pl, nZ, k, start, log, ipiv)
    modifies ipiv
    ensures IsSchedule(pl, log') && RecordedDownTo(pl, nZ, k, start - height, log', ipiv)
    ensures HasKilled(log, Batch(k, firstk, start, height), height, log')
  {
    hide PlanOk, CountersOk, RecordedDownTo, FairKill, IsSchedule, Dead, IsDead, Root, HasKilled, LowestFirst;
    SizesOk(pl, nT, nZ, firstk);
    var end := start - height;
    log' := log;
    var j := start;
    ghost var b := Batch(k, firstk, start, height);
    NoKillsYet(log, b);
    while j > end
      invariant end <= j <= start
      invariant IsSchedule(pl, log') && RecordedDownTo(pl, nZ, k, j, log', ipiv)
      invariant HasKilled(log, b, start - j, log')
    {
      OneKillMore(log, b, start - j, log', Event(k, j, j - height));
      log' := Kill(pl, ipiv, k, j, height, firstk, nT, nZ, log');
      j := j - 1;
    }
  }

  /** Both macro-tiles of a kill are available and alive, and the killer is not above the root. */
  lemma KillIsFair(pl: Plan, ipiv: array2<int>, nT: seq<int>, nZ: seq<int>, firstk: nat, log: seq<Event>, k: nat,
                   j: int, height: nat)
    requires PlanOk(pl) && ipiv.Length0 >= pl.cols && ipiv.Length1 == pl.mt
    requires CountersOk(pl, nT, nZ, firstk) && k < pl.cols && RecordedDownTo(pl, nZ, k, j, log, ipiv)
    requires 0 < height && 2 * height <= nT[k] - nZ[k] && pl.mt - nZ[k] - 1 - height < j <= pl.mt - nZ[k] - 1
    ensures 0 <= Root(pl, k) <= j - height < j < pl.mt && FairKill(pl, Dead(log), Event(k, j, j - height))
  {
    hide Root, SameRootNext, Dead, Available, IsDead;
    RootStep(pl, k);
    assert 0 <= nZ[k] && nT[k] <= pl.mt - Root(pl, k);
    RowIsAvailable(pl, nT, nZ, firstk, Dead(log), k, j);
    RowIsAvailable(pl, nT, nZ, firstk, Dead(log), k, j - height);
  }

  /** Kill the lower half of the live rows of step `k`. */
  method KillHalf(pl: Plan, ipiv: array2<int>, nT: array<int>, nZ: array<int>, ghost firstk: nat, k: nat,
                  ghost log: seq<Event>)
      returns (ghost log': seq<Event>)
    requires PlanOk(pl) && ipiv.Length0 >= pl.cols && ipiv.Length1 == pl.mt && nT != nZ
    requires CountersOk(pl, nT[..], nZ[..], firstk) && IsSchedule(pl, log) && Recorded(pl, nZ[..], log, ipiv)
    requires firstk <= k < pl.cols && nT[k] - nZ[k] >= 2
    modifies ipiv, nT, nZ
    ensures CountersOk(pl, nT[..], nZ[..], firstk) && IsSchedule(pl, log') && Recorded(pl, nZ[..], log', ipiv)
    ensures nZ[..] == old(nZ[..])[k := old(nZ[k] + (nT[k] - nZ[k]) / 2)]
    ensures log' == log + Kills(Batch(k, firstk, old(pl.mt - nZ[k] - 1), old((nT[k] - nZ[k]) / 2)))
  {
    hide Root, SameRootNext, IsSchedule, Dead, CountersOk, PlanOk, IsDead;
    assert |nT[..]| == |nZ[..]| == pl.cols by { SizesOk(pl, nT[..], nZ[..], firstk); }
    var height := (nT[k] - nZ[k]) / 2;
    var start := pl.mt - nZ[k] - 1;
    ghost var nT0, nZ0 := nT[..], nZ[..];
    if k < pl.cols - 1 { nT[k + 1] := nT[k + 1] + height; }
    nZ[k] := nZ[k] + height;
    CountersAfterKills(pl, nT0, nZ0, nT[..], firstk, k, height);
    assert nZ[..] == nZ0[k := nZ0[k] + height];
    log' := KillBatch(pl, ipiv, k, start, height, firstk, nT0, nZ0, log);
  }

  /** Step past the complete steps, handing the surviving root on where the next step has the same one. */
  method SkipComplete(pl: Plan, nT: array<int>, nZ: array<int>, firstk0: nat) returns (firstk: nat)
    requires PlanOk(pl) && nT != nZ && firstk0 < pl.cols && CountersOk(pl, nT[..], nZ[..], firstk0)
    modifies nT
    ensures firstk0 <= firstk <= pl.cols && CountersOk(pl, nT[..], nZ[..], firstk)
    ensures old(nT[firstk0] == pl.mt - Root(pl, firstk0) && nZ[firstk0] + 1 == nT[firstk0]) ==> firstk > firstk0
    ensures firstk == pl.cols || !Complete(pl, nT[..], nZ[..], firstk)
  {
    hide Root, SameRootNext, CountersOk;
    assert |nT[..]| == |nZ[..]| == pl.cols by { SizesOk(pl, nT[..], nZ[..], firstk0); }
    firstk := firstk0;
    while firstk < pl.cols && nT[firstk] == pl.mt - Root(pl, firstk) && nZ[firstk] + 1 == nT[firstk]
      invariant firstk0 <= firstk <= pl.cols && CountersOk(pl, nT[..], nZ[..], firstk)
      invariant firstk == firstk0 ==> nT[firstk0] == old(nT[firstk0])
      decreases pl.cols - firstk
    {
      ghost var nT0 := nT[..];
      if SameRootNext(pl, firstk) && firstk < pl.cols - 1 {
        nT[firstk + 1] := nT[firstk + 1] + 1;
      }
      CountersAfterSkip(pl, nT0, nZ[..], nT[..], firstk);
      firstk := firstk + 1;
    }
  }

  /** One round of the outer loop: either kill half of step `k` and go to the next step, or, when step
      `k` has nobody to kill, go back to the first incomplete step. */
  method Advance(pl: Plan, ipiv: array2<int>, nT: array<int>, nZ: array<int>, firstk0: nat, k0: nat,
                 ghost bs: seq<Batch>)
      returns (firstk: nat, k: nat, ghost bs': seq<Batch>)
    requires PlanOk(pl) && ipiv.Length0 >= pl.cols && ipiv.Length1 == pl.mt && nT != nZ
    requires CountersOk(pl, nT[..], nZ[..], firstk0) && Recorded(pl, nZ[..], LogOf(bs), ipiv)
    requires IsSchedule(pl, LogOf(bs)) && Pipelined(PipeOf(pl), bs) && AtTurn(pl, bs, firstk0, k0)
    requires firstk0 <= k0 < pl.cols
    modifies ipiv, nT, nZ
    ensures CountersOk(pl, nT[..], nZ[..], firstk) && Recorded(pl, nZ[..], LogOf(bs'), ipiv)
    ensures IsSchedule(pl, LogOf(bs')) && Pipelined(PipeOf(pl), bs') && AtTurn(pl, bs', firstk, k)
    ensures firstk <= k && (k < pl.cols || firstk == pl.cols)
    ensures || Left(pl, nZ[..]) < old(Left(pl, nZ[..]))
            || (nZ[..] == old(nZ[..]) && firstk0 <= firstk && (firstk0 == firstk ==> k < k0))
  {
    hide Root, SameRootNext, KillsLeft, Goal, CountersOk, IsSchedule, Recorded, Dead, PlanOk, LogOf, Pipelined, AtTurn,
      Kills, IsNextBatch;
    bs' := bs;
    firstk := firstk0;
    CountersInOrder(pl, nT[..], nZ[..], firstk, k0);
    var height := (nT[k0] - nZ[k0]) / 2;
    if height == 0 {
      if k0 == firstk { StuckMeansComplete(pl, nT[..], nZ[..], firstk); }
      ghost var nT0 := nT[..];
      firstk := SkipComplete(pl, nT, nZ, firstk);
      k := firstk;
      StuckTurn(pl, nT0, nT[..], nZ[..], firstk0, firstk, ipiv, bs, k0);
    } else {
      LeftAfterKills(Goal(pl), nZ[..], 0, k0, height);
      ghost var b := Batch(k0, firstk, pl.mt - nZ[k0] - 1, height);
      BatchIsNext(pl, nT[..], nZ[..], firstk, ipiv, bs, k0);
      AddBatch(PipeOf(pl), bs, b);
      ghost var log := KillHalf(pl, ipiv, nT, nZ, firstk, k0, LogOf(bs));
      bs' := bs + [b];
      k := k0 + 1;
      if k > pl.cols - 1 {
        k := firstk;
      }
      TurnAfterBatch(pl, nT[..], nZ[..], firstk, ipiv, bs', k);
    }
  }

  /** With nobody to kill in step `k0`, it is the turn of the first step that is not done. */
  lemma StuckTurn(pl: Plan, nT0: seq<int>, nT: seq<int>, nZ: seq<int>, firstk0: nat, firstk: nat, ipiv: array2<int>,
                  bs: seq<Batch>, k0: nat)
    requires PlanOk(pl) && ipiv.Length0 >= pl.cols && ipiv.Length1 == pl.mt && k0 < pl.cols
    requires CountersOk(pl, nT0, nZ, firstk0) && CountersOk(pl, nT, nZ, firstk) && nT0[k0] - nZ[k0] < 2
    requires Recorded(pl, nZ, LogOf(bs), ipiv) && AtTurn(pl, bs, firstk0, k0)
    requires firstk == pl.cols || !Complete(pl, nT, nZ, firstk)
    ensures AtTurn(pl, bs, firstk, firstk)
  {
    hide Root, SameRootNext, CountersOk, Recorded, Dead, PlanOk, LogOf, Turn, Ready, PipeOf;
    ReadyRows(pl, nT0, nZ, firstk0, LogOf(bs), ipiv, k0);
    FirstOpenStep(pl, nT, nZ, firstk, LogOf(bs), ipiv);
  }

  method Generate(pl: Plan, ipiv: array2<int>) returns (ghost bs: seq<Batch>)
    requires PlanOk(pl) && ipiv.Length0 >= pl.cols > 0 && ipiv.Length1 == pl.mt
    modifies ipiv
    ensures Finished(pl, T.Rows(ipiv), bs)
  {
    hide Root, SameRootNext, Left, CountersOk, IsSchedule, Recorded, Dead, PlanOk, LogOf, Pipelined, AtTurn;
    var mt, cols := pl.mt, pl.cols;
    var nT := new int[cols](i => 0);
    var nZ := new int[cols](i => 0);
    nT[0] := mt;
    bs := [];
    var firstk: nat := 0;
    var k: nat := 0;
    StartIsOk(pl, nT[..], nZ[..], ipiv);
    while !(nT[cols - 1] == mt - Root(pl, cols - 1) && nZ[cols - 1] + 1 == nT[cols - 1]) && firstk < cols
      invariant firstk <= k && (k < cols || firstk == cols)
      invariant CountersOk(pl, nT[..], nZ[..], firstk) && Recorded(pl, nZ[..], LogOf(bs), ipiv)
      invariant IsSchedule(pl, LogOf(bs)) && Pipelined(PipeOf(pl), bs) && AtTurn(pl, bs, firstk, k)
      decreases Left(pl, nZ[..]), cols - firstk, k
    {
      LeftIsNatural(pl, nT[..], nZ[..], firstk);
      firstk, k, bs := Advance(pl, ipiv, nT, nZ, firstk, k, bs);
      CountersInOrder(pl, nT[..], nZ[..], firstk, 0);
    }
    AllCompleteIsFinished(pl, nT[..], nZ[..], firstk, ipiv, bs);
  }

  lemma CountersInOrder(pl: Plan, nT: seq<int>, nZ: seq<int>, firstk: nat, k: nat)
    requires CountersOk(pl, nT, nZ, firstk) && k < pl.cols
    ensures 0 <= nZ[k] <= nT[k] && |nT| == |nZ| == pl.cols && firstk <= pl.cols
  {
  }

  lemma StartIsOk(pl: Plan, nT: seq<int>, nZ: seq<int>, ipiv: array2<int>)
    requires PlanOk(pl) && |nT| == |nZ| == pl.cols && nT == seq(pl.cols, i => if i == 0 then pl.mt else 0)
    requires nZ == seq(pl.cols, i => 0) && ipiv.Length0 >= pl.cols && ipiv.Length1 == pl.mt
    ensures CountersOk(pl, nT, nZ, 0) && Recorded(pl, nZ, LogOf([]), ipiv)
    ensures IsSchedule(pl, LogOf([])) && Pipelined(PipeOf(pl), []) && AtTurn(pl, [], 0, 0)
    ensures pl.cols > 0
  {
    RootStep(pl, 0);
    StartCounters(pl, nT, nZ, ipiv);
    hide Root, CountersOk, Recorded;
    FirstTurn(pl, nT, nZ, ipiv);
  }

  lemma StartCounters(pl: Plan, nT: seq<int>, nZ: seq<int>, ipiv: array2<int>)
    requires PlanOk(pl) && |nT| == |nZ| == pl.cols && nT == seq(pl.cols, i => if i == 0 then pl.mt else 0)
    requires nZ == seq(pl.cols, i => 0) && ipiv.Length0 >= pl.cols && ipiv.Length1 == pl.mt
    ensures CountersOk(pl, nT, nZ, 0) && Recorded(pl, nZ, [], ipiv)
  {
    RootStep(pl, 0);
  }

  lemma FirstTurn(pl: Plan, nT: seq<int>, nZ: seq<int>, ipiv: array2<int>)
    requires PlanOk(pl) && CountersOk(pl, nT, nZ, 0) && ipiv.Length0 >= pl.cols && ipiv.Length1 == pl.mt
    requires Recorded(pl, nZ, [], ipiv) && 0 < pl.cols
    ensures AtTurn(pl, [], 0, 0)
  {
    hide Root, SameRootNext, CountersOk, Recorded, Dead, PlanOk, Ready;
    SizesOk(pl, nT, nZ, 0);
    ReadyRows(pl, nT, nZ, 0, [], ipiv, 0);
    if nT[0] - nZ[0] >= 2 { FirstOpenStep(pl, nT, nZ, 0, [], ipiv); }
  }

  /** The plan leaves nothing open: two finished tables have the same killers. */
  lemma OneTable(pl: Plan, table: seq<seq<int>>, bs: seq<Batch>, table': seq<seq<int>>, bs': seq<Batch>,
                 k: nat, row: nat)
    requires Finished(pl, table, bs) && Finished(pl, table', bs')
    requires k < pl.cols && Root(pl, k) < row < pl.mt
    ensures bs == bs' && table[k][row] == table'[k][row]
  {
    PipelineIsUnique(PipeOf(pl), bs, bs');
    hide Pipelined, Ended, PipeOf, IsSchedule, Dead, LogOf, IsDead;
    assert IsDead(Dead(LogOf(bs)), k, row);
    var i := DeadWasKilled(LogOf(bs), k, row);
  }
}
