/** An example of the low-level pipeline. A root that survives a step and is the root again could take part in the next
    step at once; in the generator it waits until the step is left behind. */
module LateSurvivor {
  import opened Integers
  import opened PipelinedLow
  import opened Schedules

  /** Two steps of six macro-tiles with the same root. */
  function SixTwice(): Plan {
    Plan(6, 2, 2, 1, 0, true)
  }

  /** Dead are the last `z0` rows at the first step and the last `z1` at the second. */
  ghost predicate DeadAre(bs: seq<Batch>, z0: int, z1: int) {
    forall k, row :: IsDead(Dead(LogOf(bs)), k, row) <==> (k == 0 && 6 - z0 <= row < 6) || (k == 1 && 6 - z1 <= row < 6)
  }

  lemma RootsOfSix()
    ensures Root(SixTwice(), 0) == 0 && Root(SixTwice(), 1) == 0
  {
  }

  lemma UsableOfSix(bs: seq<Batch>, z0: int, z1: int, k: nat, row: int)
    requires DeadAre(bs, z0, z1) && 0 <= z1 <= z0 <= 5 && k < 2 && 0 <= row < 6
    ensures var pl, dead := SixTwice(), Dead(LogOf(bs));
      Available(pl, dead, k, row) && !IsDead(dead, k, row) && (k <= 0 || IsDead(dead, k - 1, row)) <==>
      if k == 0 then row < 6 - z0 else 6 - z0 <= row < 6 - z1
  {
    RootsOfSix();
    hide Root, Dead, LogOf, IsDead;
  }

  lemma ReadyOfSix(bs: seq<Batch>, z0: int, z1: int)
    requires DeadAre(bs, z0, z1) && 0 <= z1 <= z0 <= 5
    ensures var dead := Dead(LogOf(bs));
      && Ready(SixTwice(), dead, 0, 0) == Between(-1, 6 - z0) && |Ready(SixTwice(), dead, 0, 0)| == 6 - z0
      && Ready(SixTwice(), dead, 0, 1) == Between(5 - z0, 6 - z1) && |Ready(SixTwice(), dead, 0, 1)| == z0 - z1
  {
    RootsOfSix();
    hide Root, Dead, LogOf, IsDead, DeadAre, Available, Between;
    forall row | 0 <= row < 6
      ensures row in Ready(SixTwice(), Dead(LogOf(bs)), 0, 0) <==> row < 6 - z0
      ensures row in Ready(SixTwice(), Dead(LogOf(bs)), 0, 1) <==> 6 - z0 <= row < 6 - z1
    {
      UsableOfSix(bs, z0, z1, 0, row);
      UsableOfSix(bs, z0, z1, 1, row);
    }
    assert Ready(SixTwice(), Dead(LogOf(bs)), 0, 0) == Between(-1, 6 - z0);
    assert Ready(SixTwice(), Dead(LogOf(bs)), 0, 1) == Between(5 - z0, 6 - z1);
  }

  lemma OpenOfSix(bs: seq<Batch>, z0: int, z1: int)
    requires DeadAre(bs, z0, z1) && 0 <= z1 <= z0 < 5
    ensures FirstOpen(PipeOf(SixTwice()), Dead(LogOf(bs)), 0) == 0
  {
    RootsOfSix();
    hide Root, Dead, LogOf, IsDead;
    assert !IsDead(Dead(LogOf(bs)), 0, 1);
  }

  lemma PipeOfSix()
    ensures var pipe := PipeOf(SixTwice());
      pipe.cols == 2 && forall dead, passed, k :: pipe.ready(dead, passed, k) == Ready(SixTwice(), dead, passed, k)
  {
  }

  lemma BatchOfSix(bs: seq<Batch>, z0: int, z1: int, k: nat, height: nat) returns (bs': seq<Batch>)
    requires Pipelined(PipeOf(SixTwice()), bs) && DeadAre(bs, z0, z1) && 0 <= z1 <= z0 < 5
    requires k < 2 && Turn(PipeOf(SixTwice()), bs) == (k, 0)
    requires height == (if k == 0 then 6 - z0 else z0 - z1) / 2 > 0
    ensures Pipelined(PipeOf(SixTwice()), bs')
    ensures var z0', z1' := if k == 0 then z0 + height else z0, if k == 1 then z1 + height else z1;
      && DeadAre(bs', z0', z1')
      && (k == 0 && z0' - z1' >= 2 ==> Turn(PipeOf(SixTwice()), bs') == (1, 0))
      && (k == 1 ==> Turn(PipeOf(SixTwice()), bs') == (0, 0))
  {
    hide Dead, LogOf, IsDead, Ready, DeadAre, FirstOpen, PipeOf, SixTwice, Between, IsNextBatch, Pipelined;
    PipeOfSix();
    var b := Batch(k, 0, 5 - if k == 0 then z0 else z1, height);
    bs' := bs + [b];
    NextOfSix(bs, z0, z1, b);
    AddBatch(PipeOf(SixTwice()), bs, b);
    DeadAfterBatch(bs, b, z0, z1);
    var z0', z1' := if k == 0 then z0 + height else z0, if k == 1 then z1 + height else z1;
    ReadyOfSix(bs', z0', z1');
    if k == 1 { OpenOfSix(bs', z0', z1'); }
  }

  lemma NextOfSix(bs: seq<Batch>, z0: int, z1: int, b: Batch)
    requires DeadAre(bs, z0, z1) && 0 <= z1 <= z0 < 5 && Turn(PipeOf(SixTwice()), bs) == (b.k, 0)
    requires b.k < 2 && b.passed == 0 && b.bottom == 5 - if b.k == 0 then z0 else z1
    requires b.height == (if b.k == 0 then 6 - z0 else z0 - z1) / 2 > 0
    ensures IsNextBatch(PipeOf(SixTwice()), bs, b)
  {
    hide Dead, LogOf, Ready, DeadAre, Turn, PipeOf, SixTwice, Between;
    PipeOfSix();
    ReadyOfSix(bs, z0, z1);
  }

  lemma DeadAfterBatch(bs: seq<Batch>, b: Batch, z0: int, z1: int)
    requires DeadAre(bs, z0, z1) && 0 <= z1 <= z0 <= 5 && LogOf(bs + [b]) == LogOf(bs) + Kills(b)
    requires b.k < 2 && b.bottom == 5 - if b.k == 0 then z0 else z1
    ensures DeadAre(bs + [b], if b.k == 0 then z0 + b.height else z0, if b.k == 1 then z1 + b.height else z1)
  {
    hide Dead, LogOf, IsDead, FirstKills;
    forall k, row
      ensures IsDead(Dead(LogOf(bs + [b])), k, row) <==>
              IsDead(Dead(LogOf(bs)), k, row) || (k == b.k && b.bottom - b.height < row <= b.bottom)
    {
      DeadAfterKills(LogOf(bs), b, b.height, k, row);
    }
  }

  /** When a step is done but the generator has not left it behind, the next step takes half of its rows without the
      root: here one of three, not two of the four that are available and alive. */
  lemma SurvivorJoinsLate() returns (bs: seq<Batch>)
    ensures var pl, dead := SixTwice(), Dead(LogOf(bs));
      && Pipelined(PipeOf(pl), bs) && Turn(PipeOf(pl), bs) == (1, 0)
      && |Ready(pl, dead, 0, 1)| / 2 == 1
      && |set row | row in Between(-1, 6) && Available(pl, dead, 1, row) && !IsDead(dead, 1, row)| / 2 == 2
  {
    hide Pipelined, Turn, Ready, DeadAre, Available, IsDead, Dead, LogOf;
    NothingDead();
    bs := BatchOfSix([], 0, 0, 0, 3);
    bs := BatchOfSix(bs, 3, 0, 1, 1);
    bs := BatchOfSix(bs, 3, 1, 0, 1);
    bs := BatchOfSix(bs, 4, 1, 1, 1);
    bs := BatchOfSix(bs, 4, 2, 0, 1);
    ReadyOfSix(bs, 5, 2);
    FourAvailable(bs);
  }

  lemma NothingDead()
    ensures Pipelined(PipeOf(SixTwice()), []) && DeadAre([], 0, 0) && Turn(PipeOf(SixTwice()), []) == (0, 0)
  {
    OpenOfSix([], 0, 0);
  }

  lemma FourAvailable(bs: seq<Batch>)
    requires DeadAre(bs, 5, 2)
    ensures var pl, dead := SixTwice(), Dead(LogOf(bs));
      |set row | row in Between(-1, 6) && Available(pl, dead, 1, row) && !IsDead(dead, 1, row)| == 4
  {
    RootsOfSix();
    hide Root, Dead, LogOf, IsDead, Between;
    var pl, dead := SixTwice(), Dead(LogOf(bs));
    assert AllDeadBelow(dead, 0, 0, 6);
    forall row | 0 <= row < 6 ensures Available(pl, dead, 1, row) && !IsDead(dead, 1, row) <==> row < 4 {}
    hide Available, DeadAre;
    var rows := set row | row in Between(-1, 6) && Available(pl, dead, 1, row) && !IsDead(dead, 1, row);
    assert rows == Between(-1, 4);
  }
}
