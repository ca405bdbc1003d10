/** The pipelined greedy generator of the high-level tree, on the band of rows `[k, k + p)` of every
    step `k`. The rows below the band count as killed from the start; a row of the band can be used at
    step `k + 1` as soon as it is dead at step `k`, or if it was not in the band then. */
module PipelinedHigh {
  import opened Integers
  import opened Schedules
  import T = Tables

  datatype Band = Band(mt: Pos, cols: nat, p: Pos)

  ghost predicate BandOk(b: Band) {
    b.p >= 2 && 0 < b.cols <= b.mt
  }

  /** The number of rows below the band of step `k`. */
  function Below(b: Band, k: int): int {
    Max(b.mt - k - b.p, 0)
  }

  ghost predicate Available(b: Band, dead: set<(int, int)>, k: nat, row: int) {
    k == 0 || row >= k - 1 + b.p || IsDead(dead, k - 1, row)
  }

  ghost predicate FairKill(b: Band, dead: set<(int, int)>, e: Event) {
    && e.k < b.cols && e.k <= e.killer < e.row < Min(e.k + b.p, b.mt)
    && Available(b, dead, e.k, e.row) && Available(b, dead, e.k, e.killer)
    && !IsDead(dead, e.k, e.row) && !IsDead(dead, e.k, e.killer)
  }

  /** The rows of the band step `k` could work on. */
  ghost function Ready(b: Band, dead: set<(int, int)>, k: nat): set<int> {
    set row | row in Between(k - 1, Min(k + b.p, b.mt)) && Available(b, dead, k, row) && !IsDead(dead, k, row)
  }

  ghost predicate BandDead(b: Band, dead: set<(int, int)>, k: nat) {
    forall row :: k < row < Min(k + b.p, b.mt) ==> IsDead(dead, k, row)
  }

  ghost function PipeOf(b: Band): Pipe {
    Pipe(b.cols, (dead, passed: nat, k: nat) => Ready(b, dead, k), (dead, k: nat) => BandDead(b, dead, k))
  }

  ghost function FairRule(b: Band): KillRule {
    (dead, e) => FairKill(b, dead, e)
  }

  ghost predicate IsSchedule(b: Band, log: seq<Event>) {
    Follows(FairRule(b), log)
  }

  /* What the counters mean. */

  ghost predicate Complete(b: Band, nT: seq<int>, nZ: seq<int>, k: nat)
    requires k < |nT| && k < |nZ|
  {
    nT[k] == b.mt - k && nZ[k] + 1 == nT[k]
  }

  ghost predicate CountersOk(b: Band, nT: seq<int>, nZ: seq<int>, firstk: nat) {
    && |nT| == |nZ| == b.cols && 0 < b.cols && firstk <= b.cols
    && nT[0] == b.mt
    && (forall k :: 0 <= k < b.cols ==>
          Below(b, k) <= nZ[k] <= nT[k] <= b.mt - k && (nZ[k] == nT[k] ==> nZ[k] == Below(b, k)))
    && (forall k :: 0 <= k < firstk ==> Complete(b, nT, nZ, k))
    && (forall k :: 0 <= k < b.cols - 1 ==> nT[k + 1] == if nZ[k] > Below(b, k) then nZ[k] else Below(b, k + 1))
    && nT[0] > nZ[0]
  }

  lemma FirstIsAvailable(b: Band, nT: seq<int>, nZ: seq<int>, firstk: nat)
    requires BandOk(b) && CountersOk(b, nT, nZ, firstk) && firstk < b.cols
    ensures nT[firstk] == b.mt - firstk
  {
    if firstk > 0 {
      var c := firstk - 1;
      assert Complete(b, nT, nZ, c);
      assert nT[c + 1] == if nZ[c] > Below(b, c) then nZ[c] else Below(b, c + 1);
    }
  }

  lemma StuckMeansComplete(b: Band, nT: seq<int>, nZ: seq<int>, firstk: nat)
    requires BandOk(b) && CountersOk(b, nT, nZ, firstk) && firstk < b.cols && nT[firstk] - nZ[firstk] < 2
    ensures Complete(b, nT, nZ, firstk)
  {
    FirstIsAvailable(b, nT, nZ, firstk);
  }

  lemma {:induction false} LastCompletesAll(b: Band, nT: seq<int>, nZ: seq<int>, firstk: nat, k: nat)
    requires BandOk(b) && CountersOk(b, nT, nZ, firstk) && k < b.cols && Complete(b, nT, nZ, b.cols - 1)
    ensures Complete(b, nT, nZ, k)
    decreases b.cols - k
  {
    if k < b.cols - 1 {
      LastCompletesAll(b, nT, nZ, firstk, k + 1);
      assert nT[k + 1] == if nZ[k] > Below(b, k) then nZ[k] else Below(b, k + 1);
    }
  }

  lemma RowIsAvailable(b: Band, nT: seq<int>, nZ: seq<int>, firstk: nat, dead: set<(int, int)>, k: nat, row: int)
    requires BandOk(b) && CountersOk(b, nT, nZ, firstk) && k < b.cols && nZ[k] < nT[k]
    requires forall c, r :: 0 <= c < b.cols && c != k ==>
               (IsDead(dead, c, r) <==> b.mt - nZ[c] <= r < Min(c + b.p, b.mt))
    requires b.mt - nT[k] <= row < Min(k + b.p, b.mt)
    ensures Available(b, dead, k, row)
  {
    if k > 0 {
      var c := k - 1;
      assert nT[c + 1] == if nZ[c] > Below(b, c) then nZ[c] else Below(b, c + 1);
      if row < k - 1 + b.p { assert IsDead(dead, c, row); }
    }
  }

  lemma CountersAfterKills(b: Band, nT: seq<int>, nZ: seq<int>, nT': seq<int>, firstk: nat, k: nat, height: nat)
    requires BandOk(b) && CountersOk(b, nT, nZ, firstk) && firstk <= k < b.cols
    requires 0 < height && 2 * height <= nT[k] - nZ[k]
    requires nT' == if k < b.cols - 1 then nT[k + 1 := nZ[k] + height] else nT
    ensures CountersOk(b, nT', nZ[k := nZ[k] + height], firstk)
  {
    var nZ' := nZ[k := nZ[k] + height];
    forall c | 0 <= c < firstk ensures Complete(b, nT', nZ', c) {
      assert Complete(b, nT, nZ, c);
    }
    if k < b.cols - 1 {
      assert nT[k + 1] == if nZ[k] > Below(b, k) then nZ[k] else Below(b, k + 1);
    }
    forall c | 0 <= c < b.cols - 1
      ensures nT'[c + 1] == if nZ'[c] > Below(b, c) then nZ'[c] else Below(b, c + 1)
    {
      assert nT[c + 1] == if nZ[c] > Below(b, c) then nZ[c] else Below(b, c + 1);
    }
  }

  /* Kills still to come, for termination. */

  ghost function Goal(b: Band): int -> int {
    k => b.mt - k
  }

  ghost function Left(b: Band, nZ: seq<int>): int {
    KillsLeft(Goal(b), nZ, 0)
  }

  lemma LeftIsNatural(b: Band, nT: seq<int>, nZ: seq<int>, firstk: nat)
    requires CountersOk(b, nT, nZ, firstk)
    ensures Left(b, nZ) >= 0
  {
    KillsLeftIsNatural(Goal(b), nZ, 0);
  }

  /* The generator. */

  /** The table holds the killers of the schedule. */
  ghost predicate Names(ipiv: array2<int>, log: seq<Event>)
    reads ipiv
  {
    forall i :: 0 <= i < |log| ==>
      && log[i].k < ipiv.Length0 && 0 <= log[i].row - log[i].k < ipiv.Length1
      && ipiv[log[i].k, log[i].row - log[i].k] == log[i].killer
  }

  /** The dead rows of every step and their table entries; step `k` is done down to row `j`. Places past
      the matrix stay zero. */
  ghost predicate RecordedDownTo(b: Band, nZ: seq<int>, k: nat, j: int, log: seq<Event>, ipiv: array2<int>)
    requires |nZ| == b.cols && ipiv.Length0 >= b.cols && ipiv.Length1 == b.p
    reads ipiv
  {
    && (forall c, row :: 0 <= c < b.cols ==>
          (IsDead(Dead(log), c, row) <==>
             (if c == k then j < row else b.mt - nZ[c] <= row) && row < Min(c + b.p, b.mt)))
    && (forall c, x ::
          0 <= c < b.cols && 0 <= x < b.p && c + x < b.mt && (if c == k then j < c + x else b.mt - nZ[c] <= c + x) ==>
          c <= ipiv[c, x] < c + x)
    && (forall c, x :: 0 <= c < b.cols && 0 <= x < b.p && c + x >= b.mt ==> ipiv[c, x] == 0)
    && Names(ipiv, log) && LowestFirst(log)
  }

  ghost predicate Recorded(b: Band, nZ: seq<int>, log: seq<Event>, ipiv: array2<int>)
    requires |nZ| == b.cols && ipiv.Length0 >= b.cols && ipiv.Length1 == b.p
    reads ipiv
  {
    RecordedDownTo(b, nZ, b.cols, 0, log, ipiv)
  }

  /** Enter one kill of step `k` in the table: row `j` by row `killer`. */
  method Enter(b: Band, ipiv: array2<int>, k: nat, j: nat, killer: int, ghost nZ: seq<int>, ghost log: seq<Event>)
    requires ipiv.Length0 >= b.cols && ipiv.Length1 == b.p && |nZ| == b.cols
    requires k < b.cols && k <= killer < j < Min(k + b.p, b.mt)
    requires RecordedDownTo(b, nZ, k, j, log, ipiv)
    modifies ipiv
    ensures RecordedDownTo(b, nZ, k, j - 1, log + [Event(k, j, killer)], ipiv)
  {
    hide IsDead, Dead;
    ghost var log' := log + [Event(k, j, killer)];
    forall c, row ensures IsDead(Dead(log'), c, row) <==> IsDead(Dead(log), c, row) || (c == k && row == j) {
      DeadAfter(log, Event(k, j, killer), c, row);
    }
    forall i | 0 <= i < |log| ensures log[i].k == k ==> j < log[i].row { EventsAreDead(log, i); }
    ipiv[k, j - k] := killer;
  }

  /** One kill of a batch. */
  method Kill(b: Band, ipiv: array2<int>, k: nat, j: int, height: nat, ghost firstk: nat,
              ghost nT: seq<int>, ghost nZ: seq<int>, ghost log: seq<Event>) returns (ghost log': seq<Event>)
    requires BandOk(b) && ipiv.Length0 >= b.cols && ipiv.Length1 == b.p
    requires CountersOk(b, nT, nZ, firstk) && k < b.cols && IsSchedule(b, log) && RecordedDownTo(b, nZ, k, j, log, ipiv)
    requires 0 < height && 2 * height <= nT[k] - nZ[k] && b.mt - nZ[k] - 1 - height < j <= b.mt - nZ[k] - 1
    modifies ipiv
    ensures IsSchedule(b, log') && RecordedDownTo(b, nZ, k, j - 1, log', ipiv)
    ensures log' == log + [Event(k, j, j - height)]
  {
    hide BandOk, CountersOk, RecordedDownTo, FairKill, Follows, Dead, IsDead;
    CountersInOrder(b, nT, nZ, firstk, k);
    KillIsFair(b, ipiv, nT, nZ, firstk, log, k, j, height);
    log' := log + [Event(k, j, j - height)];
    Extend(FairRule(b), log, Event(k, j, j - height));
    Enter(b, ipiv, k, j, j - height, nZ, log);
  }

  method KillBatch(b: Band, ipiv: array2<int>, k: nat, start: int, height: nat, ghost firstk: nat,
                   ghost nT: seq<int>, ghost nZ: seq<int>, ghost log: seq<Event>) returns (ghost log': seq<Event>)
    requires BandOk(b) && ipiv.Length0 >= b.cols && ipiv.Length1 == b.p
    requires CountersOk(b, nT, nZ, firstk) && k < b.cols && IsSchedule(b, log)
    requires start == b.mt - nZ[k] - 1 && 0 < height && 2 * height <= nT[k] - nZ[k]
    requires RecordedDownTo(b, nZ, k, start, log, ipiv)
    modifies ipiv
    ensures IsSchedule(b, log') && RecordedDownTo(b, nZ, k, start - height, log', ipiv)
    ensures HasKilled(log, Batch(k, firstk, start, height), height, log')
  {
    hide BandOk, CountersOk, RecordedDownTo, FairKill, IsSchedule, Dead, IsDead, HasKilled, LowestFirst;
    SizesOk(b, nT, nZ, firstk);
    var end := start - height;
    log' := log;
    var j := start;
    ghost var batch := Batch(k, firstk, start, height);
    NoKillsYet(log, batch);
    while j > end
      invariant end <= j <= start
      invariant IsSchedule(b, log') && RecordedDownTo(b, nZ, k, j, log', ipiv)
      invariant HasKilled(log, batch, start - j, log')
    {
      OneKillMore(log, batch, start - j, log', Event(k, j, j - height));
      log' := Kill(b, ipiv, k, j, height, firstk, nT, nZ, log');
      j := j - 1;
    }
  }

  /** Both rows of a kill are in the band, available and alive. */
  lemma KillIsFair(b: Band, ipiv: array2<int>, nT: seq<int>, nZ: seq<int>, firstk: nat, log: seq<Event>, k: nat,
                   j: int, height: nat)
    requires BandOk(b) && ipiv.Length0 >= b.cols && ipiv.Length1 == b.p
    requires CountersOk(b, nT, nZ, firstk) && k < b.cols && RecordedDownTo(b, nZ, k, j, log, ipiv)
    requires 0 < height && 2 * height <= nT[k] - nZ[k] && b.mt - nZ[k] - 1 - height < j <= b.mt - nZ[k] - 1
    ensures k <= j - height < j < Min(k + b.p, b.mt) && FairKill(b, Dead(log), Event(k, j, j - height))
  {
    hide Dead, Available, IsDead;
    assert Below(b, k) <= nZ[k];
    RowIsAvailable(b, nT, nZ, firstk, Dead(log), k, j);
    RowIsAvailable(b, nT, nZ, firstk, Dead(log), k, j - height);
  }

  /** Before a batch of step `k`, everything below the live rows is recorded; after it, `height` rows more. */
  lemma BatchBegins(b: Band, nZ: seq<int>, k: nat, log: seq<Event>, ipiv: array2<int>)
    requires |nZ| == b.cols && ipiv.Length0 >= b.cols && ipiv.Length1 == b.p && k < b.cols
    requires Recorded(b, nZ, log, ipiv)
    ensures RecordedDownTo(b, nZ, k, b.mt - nZ[k] - 1, log, ipiv)
  {
    hide IsDead, Dead;
  }

  lemma BatchEnds(b: Band, nZ: seq<int>, k: nat, height: nat, log: seq<Event>, ipiv: array2<int>)
    requires |nZ| == b.cols && ipiv.Length0 >= b.cols && ipiv.Length1 == b.p && k < b.cols
    requires RecordedDownTo(b, nZ, k, b.mt - nZ[k] - 1 - height, log, ipiv)
    ensures Recorded(b, nZ[k := nZ[k] + height], log, ipiv)
  {
    hide IsDead, Dead;
  }

  method KillHalf(b: Band, ipiv: array2<int>, nT: array<int>, nZ: array<int>, ghost firstk: nat, k: nat,
                  ghost log: seq<Event>)
      returns (ghost log': seq<Event>)
    requires BandOk(b) && ipiv.Length0 >= b.cols && ipiv.Length1 == b.p && nT != nZ
    requires CountersOk(b, nT[..], nZ[..], firstk) && IsSchedule(b, log) && Recorded(b, nZ[..], log, ipiv)
    requires firstk <= k < b.cols && nT[k] - nZ[k] >= 2
    modifies ipiv, nT, nZ
    ensures CountersOk(b, nT[..], nZ[..], firstk) && IsSchedule(b, log') && Recorded(b, nZ[..], log', ipiv)
    ensures nZ[..] == old(nZ[..])[k := old(nZ[k] + (nT[k] - nZ[k]) / 2)]
    ensures log' == log + Kills(Batch(k, firstk, old(b.mt - nZ[k] - 1), old((nT[k] - nZ[k]) / 2)))
  {
    hide IsSchedule, Dead, IsDead, CountersOk, Recorded, RecordedDownTo;
    CountersInOrder(b, nT[..], nZ[..], firstk, k);
    BatchBegins(b, nZ[..], k, log, ipiv);
    assert nT.Length == |nT[..]| && nZ.Length == |nZ[..]|;
    var height := (nT[k] - nZ[k]) / 2;
    var start := b.mt - nZ[k] - 1;
    ghost var nT0, nZ0 := nT[..], nZ[..];
    nZ[k] := nZ[k] + height;
    if k < b.cols - 1 { nT[k + 1] := nZ[k]; }
    CountersAfterKills(b, nT0, nZ0, nT[..], firstk, k, height);
    assert nZ[..] == nZ0[k := nZ0[k] + height];
    log' := KillBatch(b, ipiv, k, start, height, firstk, nT0, nZ0, log);
    BatchEnds(b, nZ0, k, height, log', ipiv);
  }

  method SkipComplete(b: Band, nT: array<int>, nZ: array<int>, firstk0: nat) returns (firstk: nat)
    requires BandOk(b) && firstk0 < b.cols && CountersOk(b, nT[..], nZ[..], firstk0)
    ensures firstk0 <= firstk <= b.cols && CountersOk(b, nT[..], nZ[..], firstk)
    ensures Complete(b, nT[..], nZ[..], firstk0) ==> firstk > firstk0
    ensures firstk == b.cols || !Complete(b, nT[..], nZ[..], firstk)
  {
    firstk := firstk0;
    while firstk < b.cols && nT[firstk] == b.mt - firstk && nZ[firstk] + 1 == nT[firstk]
      invariant firstk0 <= firstk <= b.cols && CountersOk(b, nT[..], nZ[..], firstk)
      decreases b.cols - firstk
    {
      firstk := firstk + 1;
    }
  }

  method Advance(b: Band, ipiv: array2<int>, nT: array<int>, nZ: array<int>, firstk0: nat, k0: nat,
                 ghost bs: seq<Batch>)
      returns (firstk: nat, k: nat, ghost bs': seq<Batch>)
    requires BandOk(b) && ipiv.Length0 >= b.cols && ipiv.Length1 == b.p && nT != nZ
    requires CountersOk(b, nT[..], nZ[..], firstk0) && Recorded(b, nZ[..], LogOf(bs), ipiv)
    requires IsSchedule(b, LogOf(bs)) && Pipelined(PipeOf(b), bs) && AtTurn(b, bs, firstk0, k0)
    requires firstk0 <= k0 < b.cols
    modifies ipiv, nT, nZ
    ensures CountersOk(b, nT[..], nZ[..], firstk) && Recorded(b, nZ[..], LogOf(bs'), ipiv)
    ensures IsSchedule(b, LogOf(bs')) && Pipelined(PipeOf(b), bs') && AtTurn(b, bs', firstk, k)
    ensures firstk <= k && (k < b.cols || firstk == b.cols)
    ensures || Left(b, nZ[..]) < old(Left(b, nZ[..]))
            || (nZ[..] == old(nZ[..]) && firstk0 <= firstk && (firstk0 == firstk ==> k < k0))
  {
    hide KillsLeft, Goal, CountersOk, IsSchedule, Recorded, Dead, LogOf, Pipelined, AtTurn, Kills, IsNextBatch;
    bs' := bs;
    firstk := firstk0;
    CountersInOrder(b, nT[..], nZ[..], firstk, k0);
    var height := (nT[k0] - nZ[k0]) / 2;
    if height == 0 {
      if k0 == firstk { StuckMeansComplete(b, nT[..], nZ[..], firstk); }
      firstk := SkipComplete(b, nT, nZ, firstk);
      k := firstk;
      CountersInOrder(b, nT[..], nZ[..], firstk, k0);
      StuckTurn(b, nT[..], nZ[..], firstk0, firstk, ipiv, bs, k0);
    } else {
      LeftAfterKills(Goal(b), nZ[..], 0, k0, height);
      ghost var batch := Batch(k0, firstk, b.mt - nZ[k0] - 1, height);
      BatchIsNext(b, nT[..], nZ[..], firstk, ipiv, bs, k0);
      AddBatch(PipeOf(b), bs, batch);
      ghost var log := KillHalf(b, ipiv, nT, nZ, firstk, k0, LogOf(bs));
      bs' := bs + [batch];
      k := k0 + 1;
      if k > b.cols - 1 {
        k := firstk;
      }
      TurnAfterBatch(b, nT[..], nZ[..], firstk, ipiv, bs', k);
    }
  }

  /** What the counters say about the rows ready. A row that was below the band of the step before is ready also
      before that step has begun, when the counters do not have it yet. */
  lemma ReadyRows(b: Band, nT: seq<int>, nZ: seq<int>, firstk: nat, log: seq<Event>, ipiv: array2<int>, k: nat)
    requires BandOk(b) && CountersOk(b, nT, nZ, firstk) && ipiv.Length0 >= b.cols && ipiv.Length1 == b.p
    requires Recorded(b, nZ, log, ipiv) && k < b.cols
    ensures |Ready(b, Dead(log), k)| >= 2 <==> nT[k] - nZ[k] >= 2
    ensures nT[k] - nZ[k] >= 2 ==>
              && Ready(b, Dead(log), k) == Between(b.mt - nT[k] - 1, b.mt - nZ[k])
              && |Ready(b, Dead(log), k)| == nT[k] - nZ[k]
  {
    hide Dead, IsDead, Available, Recorded, CountersOk, Ready;
    SizesOk(b, nT, nZ, firstk);
    var begun := nT[k] != nZ[k] || k == 0 || nZ[k - 1] != Below(b, k - 1);
    forall row | k <= row < Min(k + b.p, b.mt)
      ensures Available(b, Dead(log), k, row) && !IsDead(Dead(log), k, row) <==>
              b.mt - nT[k] <= row < b.mt - nZ[k] || (!begun && row == k - 1 + b.p)
    {
      RowOfRecord(b, nT, nZ, firstk, log, ipiv, k, row);
    }
    CounterInRange(b, nT, nZ, firstk, k);
    ReadyIs(b, Dead(log), k, nT[k], nZ[k], begun);
  }

  lemma CounterInRange(b: Band, nT: seq<int>, nZ: seq<int>, firstk: nat, k: nat)
    requires CountersOk(b, nT, nZ, firstk) && k < b.cols
    ensures Below(b, k) <= nZ[k] <= nT[k] <= b.mt - k
  {
  }

  lemma ReadyIs(b: Band, dead: set<(int, int)>, k: nat, t: int, z: int, begun: bool)
    requires Below(b, k) <= z <= t <= b.mt - k && (z < t ==> begun)
    requires forall row :: k <= row < Min(k + b.p, b.mt) ==>
               (Available(b, dead, k, row) && !IsDead(dead, k, row) <==>
                  b.mt - t <= row < b.mt - z || (!begun && row == k - 1 + b.p))
    ensures |Ready(b, dead, k)| >= 2 <==> t - z >= 2
    ensures t - z >= 2 ==> Ready(b, dead, k) == Between(b.mt - t - 1, b.mt - z) && |Ready(b, dead, k)| == t - z
  {
    hide Available, IsDead, Ready;
    if begun {
      ReadyIsBetween(b, dead, k, b.mt - t, b.mt - z);
    } else {
      ReadyIsOne(b, dead, k, b.mt - t);
    }
  }

  lemma ReadyIsBetween(b: Band, dead: set<(int, int)>, k: nat, lo: int, hi: int)
    requires k <= lo <= hi <= Min(k + b.p, b.mt)
    requires forall row :: k <= row < Min(k + b.p, b.mt) ==>
               (Available(b, dead, k, row) && !IsDead(dead, k, row) <==> lo <= row < hi)
    ensures Ready(b, dead, k) == Between(lo - 1, hi) && |Ready(b, dead, k)| == hi - lo
  {
    hide Available, IsDead, Between;
    forall row ensures row in Ready(b, dead, k) <==> row in Between(lo - 1, hi) {
      if k <= row < Min(k + b.p, b.mt) {
        assert Available(b, dead, k, row) && !IsDead(dead, k, row) <==> lo <= row < hi;
      }
    }
  }

  lemma ReadyIsOne(b: Band, dead: set<(int, int)>, k: nat, lo: int)
    requires forall row :: k <= row < Min(k + b.p, b.mt) ==>
               (Available(b, dead, k, row) && !IsDead(dead, k, row) <==> lo <= row < lo || row == k - 1 + b.p)
    ensures |Ready(b, dead, k)| < 2
  {
    hide Available, IsDead;
    var ready, x := Ready(b, dead, k), k - 1 + b.p;
    assert forall row :: row in ready ==> row == x;
    if x in ready { assert ready == {x}; } else { assert ready == {}; }
  }

  lemma RowOfRecord(b: Band, nT: seq<int>, nZ: seq<int>, firstk: nat, log: seq<Event>, ipiv: array2<int>, k: nat,
                    row: int)
    requires BandOk(b) && CountersOk(b, nT, nZ, firstk) && ipiv.Length0 >= b.cols && ipiv.Length1 == b.p
    requires Recorded(b, nZ, log, ipiv) && k < b.cols && k <= row < Min(k + b.p, b.mt)
    ensures Available(b, Dead(log), k, row) && !IsDead(Dead(log), k, row) <==>
            || b.mt - nT[k] <= row < b.mt - nZ[k]
            || (nT[k] == nZ[k] && k > 0 && nZ[k - 1] == Below(b, k - 1) && row == k - 1 + b.p)
  {
    hide Dead, IsDead, Available, CountersOk;
    SizesOk(b, nT, nZ, firstk);
    RowIsUsable(b, nT, nZ, firstk, Dead(log), k, row);
  }

  lemma RowIsUsable(b: Band, nT: seq<int>, nZ: seq<int>, firstk: nat, dead: set<(int, int)>, k: nat, row: int)
    requires BandOk(b) && CountersOk(b, nT, nZ, firstk) && k < b.cols
    requires forall c, r :: 0 <= c < b.cols ==> (IsDead(dead, c, r) <==> b.mt - nZ[c] <= r < Min(c + b.p, b.mt))
    requires k <= row < Min(k + b.p, b.mt)
    ensures Available(b, dead, k, row) && !IsDead(dead, k, row) <==>
            || b.mt - nT[k] <= row < b.mt - nZ[k]
            || (nT[k] == nZ[k] && k > 0 && nZ[k - 1] == Below(b, k - 1) && row == k - 1 + b.p)
  {
    if k > 0 {
      var c := k - 1;
      assert nT[c + 1] == if nZ[c] > Below(b, c) then nZ[c] else Below(b, c + 1);
    }
  }

  lemma DoneSteps(b: Band, nT: seq<int>, nZ: seq<int>, firstk: nat, log: seq<Event>, ipiv: array2<int>, k: nat)
    requires BandOk(b) && CountersOk(b, nT, nZ, firstk) && ipiv.Length0 >= b.cols && ipiv.Length1 == b.p
    requires Recorded(b, nZ, log, ipiv) && k < b.cols
    ensures PipeOf(b).done(Dead(log), k) <==> nZ[k] >= b.mt - k - 1
  {
    hide Dead, IsDead;
    if PipeOf(b).done(Dead(log), k) && k + 1 < b.mt {
      assert IsDead(Dead(log), k, k + 1);
    }
  }

  lemma FirstOpenStep(b: Band, nT: seq<int>, nZ: seq<int>, firstk: nat, log: seq<Event>, ipiv: array2<int>)
    requires BandOk(b) && CountersOk(b, nT, nZ, firstk) && ipiv.Length0 >= b.cols && ipiv.Length1 == b.p
    requires Recorded(b, nZ, log, ipiv) && (firstk == b.cols || !Complete(b, nT, nZ, firstk))
    ensures FirstOpen(PipeOf(b), Dead(log), 0) == firstk
  {
    hide Dead, IsDead, Recorded, PipeOf;
    forall c: nat | c < firstk ensures PipeOf(b).done(Dead(log), c) {
      assert Complete(b, nT, nZ, c);
      DoneSteps(b, nT, nZ, firstk, log, ipiv, c);
    }
    if firstk < b.cols {
      DoneSteps(b, nT, nZ, firstk, log, ipiv, firstk);
      FirstIsAvailable(b, nT, nZ, firstk);
    }
    ColsOfPipe(b);
    FirstOpenIs(PipeOf(b), Dead(log), firstk);
  }

  lemma ColsOfPipe(b: Band)
    ensures PipeOf(b).cols == b.cols
  {
  }

  lemma DoneMeansFew(b: Band, dead: set<(int, int)>, passed: nat, k: nat)
    requires PipeOf(b).done(dead, k)
    ensures |PipeOf(b).ready(dead, passed, k)| < 2
  {
    hide Available;
    var ready := Ready(b, dead, k);
    if k in ready { assert ready == {k}; } else { assert ready == {}; }
  }

  /** The generator is about to look at step `k`, having left `firstk` steps behind. */
  ghost predicate AtTurn(b: Band, bs: seq<Batch>, firstk: nat, k: nat) {
    var dead := Dead(LogOf(bs));
    if k < b.cols && |Ready(b, dead, k)| >= 2 then
      Turn(PipeOf(b), bs) == (k, firstk)
    else
      Turn(PipeOf(b), bs) == (FirstOpen(PipeOf(b), dead, 0), FirstOpen(PipeOf(b), dead, 0))
  }

  lemma TurnAfterBatch(b: Band, nT: seq<int>, nZ: seq<int>, firstk: nat, ipiv: array2<int>, bs: seq<Batch>, k: nat)
    requires BandOk(b) && CountersOk(b, nT, nZ, firstk) && ipiv.Length0 >= b.cols && ipiv.Length1 == b.p
    requires Recorded(b, nZ, LogOf(bs), ipiv)
    requires |bs| > 0 && bs[|bs| - 1].passed == firstk && bs[|bs| - 1].k < b.cols
    requires k == if bs[|bs| - 1].k + 1 < b.cols then bs[|bs| - 1].k + 1 else firstk
    ensures AtTurn(b, bs, firstk, k)
  {
    hide Dead, IsDead, Recorded, LogOf, CountersOk, Ready;
    SizesOk(b, nT, nZ, firstk);
    if bs[|bs| - 1].k + 1 == b.cols && k < b.cols {
      ReadyRows(b, nT, nZ, firstk, LogOf(bs), ipiv, k);
      if nT[k] - nZ[k] >= 2 { FirstOpenStep(b, nT, nZ, firstk, LogOf(bs), ipiv); }
    }
  }

  /** The generator's batch is the one whose turn it is. */
  lemma BatchIsNext(b: Band, nT: seq<int>, nZ: seq<int>, firstk: nat, ipiv: array2<int>, bs: seq<Batch>, k: nat)
    requires BandOk(b) && CountersOk(b, nT, nZ, firstk) && ipiv.Length0 >= b.cols && ipiv.Length1 == b.p
    requires Recorded(b, nZ, LogOf(bs), ipiv) && AtTurn(b, bs, firstk, k) && k < b.cols
    requires nT[k] - nZ[k] >= 2
    ensures IsNextBatch(PipeOf(b), bs, Batch(k, firstk, b.mt - nZ[k] - 1, (nT[k] - nZ[k]) / 2))
  {
    hide Dead, IsDead, Recorded, LogOf, CountersOk, Ready, Turn;
    SizesOk(b, nT, nZ, firstk);
    ReadyRows(b, nT, nZ, firstk, LogOf(bs), ipiv, k);
  }

  lemma StuckTurn(b: Band, nT: seq<int>, nZ: seq<int>, firstk0: nat, firstk: nat, ipiv: array2<int>, bs: seq<Batch>,
                  k0: nat)
    requires BandOk(b) && ipiv.Length0 >= b.cols && ipiv.Length1 == b.p && k0 < b.cols
    requires CountersOk(b, nT, nZ, firstk0) && CountersOk(b, nT, nZ, firstk) && nT[k0] - nZ[k0] < 2
    requires Recorded(b, nZ, LogOf(bs), ipiv) && AtTurn(b, bs, firstk0, k0)
    requires firstk == b.cols || !Complete(b, nT, nZ, firstk)
    ensures AtTurn(b, bs, firstk, firstk)
  {
    hide CountersOk, Recorded, Dead, LogOf, Turn, Ready, PipeOf;
    ReadyRows(b, nT, nZ, firstk0, LogOf(bs), ipiv, k0);
    FirstOpenStep(b, nT, nZ, firstk, LogOf(bs), ipiv);
  }

  lemma SizesOk(b: Band, nT: seq<int>, nZ: seq<int>, firstk: nat)
    requires CountersOk(b, nT, nZ, firstk)
    ensures |nT| == |nZ| == b.cols
  {
  }

  lemma CountersInOrder(b: Band, nT: seq<int>, nZ: seq<int>, firstk: nat, k: nat)
    requires CountersOk(b, nT, nZ, firstk) && k < b.cols
    ensures 0 <= nZ[k] <= nT[k] && |nT| == |nZ| == b.cols && firstk <= b.cols
  {
  }

  /** The batches follow one another as in the pipeline, to its end. Every row of every band but its first is killed
      once, every kill is fair, and the table names its killer. */
  ghost predicate Finished(b: Band, table: seq<seq<int>>, bs: seq<Batch>) {
    && |table| >= b.cols && (forall k :: 0 <= k < b.cols ==> |table[k]| == b.p)
    && Pipelined(PipeOf(b), bs) && Ended(PipeOf(b), bs)
    && FinishedLog(b, table, LogOf(bs))
  }

  ghost predicate FinishedLog(b: Band, table: seq<seq<int>>, log: seq<Event>)
    requires |table| >= b.cols && (forall k :: 0 <= k < b.cols ==> |table[k]| == b.p)
  {
    && IsSchedule(b, log) && LowestFirst(log)
    && (forall k, row :: 0 <= k < b.cols ==> (IsDead(Dead(log), k, row) <==> k < row < Min(k + b.p, b.mt)))
    && (forall k, x :: 0 <= k < b.cols && 0 < x < b.p && k + x < b.mt ==> k <= table[k][x] < k + x)
    && (forall k, x :: 0 <= k < b.cols && 0 < x < b.p && k + x >= b.mt ==> table[k][x] == 0)
    && (forall i :: 0 <= i < |log| ==>
          && log[i].k < b.cols && 0 <= log[i].row - log[i].k < b.p
          && table[log[i].k][log[i].row - log[i].k] == log[i].killer)
  }

  lemma EventsAreInRange(b: Band, log: seq<Event>, i: nat)
    requires IsSchedule(b, log) && i < |log|
    ensures log[i].k < b.cols && log[i].k <= log[i].killer < log[i].row < Min(log[i].k + b.p, b.mt)
  {
    hide Available, Follows, Dead;
    EachFollows(FairRule(b), log, i);
  }

  lemma AllCompleteIsFinishedLog(b: Band, nT: seq<int>, nZ: seq<int>, firstk: nat, ipiv: array2<int>, log: seq<Event>)
    requires BandOk(b) && CountersOk(b, nT, nZ, firstk) && ipiv.Length0 >= b.cols && ipiv.Length1 == b.p
    requires IsSchedule(b, log) && Recorded(b, nZ, log, ipiv)
    requires firstk == b.cols || Complete(b, nT, nZ, b.cols - 1)
    ensures FinishedLog(b, T.Rows(ipiv), log)
  {
    hide IsSchedule, Dead, IsDead;
    forall c | 0 <= c < b.cols ensures nZ[c] == b.mt - c - 1 {
      if firstk < b.cols { LastCompletesAll(b, nT, nZ, firstk, c); }
      assert Complete(b, nT, nZ, c);
    }
    forall k, row | 0 <= k < b.cols ensures IsDead(Dead(log), k, row) <==> k < row < Min(k + b.p, b.mt) {
      assert nZ[k] == b.mt - k - 1;
    }
    forall k, x | 0 <= k < b.cols && 0 < x < b.p && k + x < b.mt ensures k <= ipiv[k, x] < k + x {
      assert nZ[k] == b.mt - k - 1;
    }
    forall i | 0 <= i < |log| ensures log[i].k < b.cols { EventsAreInRange(b, log, i); }
  }

  lemma StepIsDone(b: Band, nT: seq<int>, nZ: seq<int>, firstk: nat, log: seq<Event>, ipiv: array2<int>, c: nat)
    requires BandOk(b) && CountersOk(b, nT, nZ, firstk) && ipiv.Length0 >= b.cols && ipiv.Length1 == b.p
    requires Recorded(b, nZ, log, ipiv) && c < b.cols
    requires firstk == b.cols || Complete(b, nT, nZ, b.cols - 1)
    ensures PipeOf(b).done(Dead(log), c)
  {
    hide Recorded, PipeOf, Dead;
    if firstk < b.cols { LastCompletesAll(b, nT, nZ, firstk, c); }
    assert Complete(b, nT, nZ, c);
    DoneSteps(b, nT, nZ, firstk, log, ipiv, c);
  }

  lemma AllCompleteIsFinished(b: Band, nT: seq<int>, nZ: seq<int>, firstk: nat, ipiv: array2<int>, bs: seq<Batch>)
    requires BandOk(b) && CountersOk(b, nT, nZ, firstk) && ipiv.Length0 >= b.cols && ipiv.Length1 == b.p
    requires IsSchedule(b, LogOf(bs)) && Recorded(b, nZ, LogOf(bs), ipiv) && Pipelined(PipeOf(b), bs)
    requires firstk == b.cols || Complete(b, nT, nZ, b.cols - 1)
    ensures Finished(b, T.Rows(ipiv), bs)
  {
    hide IsSchedule, Dead, IsDead, Pipelined, LogOf, FinishedLog, Recorded, PipeOf, CountersOk, Complete;
    SizesOk(b, nT, nZ, firstk);
    ColsOfPipe(b);
    AllCompleteIsFinishedLog(b, nT, nZ, firstk, ipiv, LogOf(bs));
    var dead := Dead(LogOf(bs));
    forall c: nat | c < b.cols ensures PipeOf(b).done(dead, c) {
      StepIsDone(b, nT, nZ, firstk, LogOf(bs), ipiv, c);
    }
    FirstOpenIs(PipeOf(b), dead, b.cols);
    if |bs| > 0 && bs[|bs| - 1].k + 1 < b.cols {
      DoneMeansFew(b, dead, bs[|bs| - 1].passed, bs[|bs| - 1].k + 1);
    }
  }

  method Generate(b: Band, ipiv: array2<int>) returns (ghost bs: seq<Batch>)
    requires BandOk(b) && ipiv.Length0 == b.cols && ipiv.Length1 == b.p
    requires forall c, x :: 0 <= c < b.cols && 0 <= x < b.p ==> ipiv[c, x] == 0
    modifies ipiv
    ensures Finished(b, T.Rows(ipiv), bs)
  {
    hide PipeOf, Pipelined, AtTurn, Recorded, CountersOk, Finished;
    var mt, p, cols := b.mt, b.p, b.cols;
    var nT := new int[cols](i => Max(mt - i - p, 0));
    var nZ := new int[cols](i => Max(mt - i - p, 0));
    nT[0] := mt;
    StartIsOk(b, nT[..], nZ[..], ipiv);
    FirstTurn(b, nT[..], nZ[..], ipiv);
    bs := RunPipeline(b, ipiv, nT, nZ);
  }

  lemma StartIsOk(b: Band, nT: seq<int>, nZ: seq<int>, ipiv: array2<int>)
    requires BandOk(b) && |nT| == |nZ| == b.cols && ipiv.Length0 == b.cols && ipiv.Length1 == b.p
    requires forall k :: 0 <= k < b.cols ==> nZ[k] == Below(b, k) && nT[k] == if k == 0 then b.mt else Below(b, k)
    requires forall c, x :: 0 <= c < b.cols && 0 <= x < b.p ==> ipiv[c, x] == 0
    ensures CountersOk(b, nT, nZ, 0) && Recorded(b, nZ, [], ipiv)
  {
  }

  lemma FirstTurn(b: Band, nT: seq<int>, nZ: seq<int>, ipiv: array2<int>)
    requires BandOk(b) && CountersOk(b, nT, nZ, 0) && ipiv.Length0 >= b.cols && ipiv.Length1 == b.p
    requires Recorded(b, nZ, [], ipiv)
    ensures IsSchedule(b, LogOf([])) && Pipelined(PipeOf(b), []) && AtTurn(b, [], 0, 0)
    ensures Recorded(b, nZ, LogOf([]), ipiv)
  {
    hide CountersOk, Recorded, Dead, Ready;
    SizesOk(b, nT, nZ, 0);
    ReadyRows(b, nT, nZ, 0, [], ipiv, 0);
    if nT[0] - nZ[0] >= 2 { FirstOpenStep(b, nT, nZ, 0, [], ipiv); }
  }

  method RunPipeline(b: Band, ipiv: array2<int>, nT: array<int>, nZ: array<int>) returns (ghost bs: seq<Batch>)
    requires BandOk(b) && ipiv.Length0 >= b.cols && ipiv.Length1 == b.p && nT != nZ
    requires CountersOk(b, nT[..], nZ[..], 0) && Recorded(b, nZ[..], LogOf([]), ipiv)
    requires IsSchedule(b, LogOf([])) && Pipelined(PipeOf(b), []) && AtTurn(b, [], 0, 0)
    modifies ipiv, nT, nZ
    ensures Finished(b, T.Rows(ipiv), bs)
  {
    hide Left, CountersOk, IsSchedule, Recorded, Dead, LogOf, Pipelined, AtTurn;
    var mt, cols := b.mt, b.cols;
    var firstk: nat := 0;
    var k: nat := 0;
    bs := [];
    CountersInOrder(b, nT[..], nZ[..], firstk, 0);
    while !(nT[cols - 1] == mt - (cols - 1) && nZ[cols - 1] + 1 == nT[cols - 1]) && firstk < cols
      invariant nT.Length == nZ.Length == cols
      invariant firstk <= k && (k < cols || firstk == cols)
      invariant CountersOk(b, nT[..], nZ[..], firstk) && Recorded(b, nZ[..], LogOf(bs), ipiv)
      invariant IsSchedule(b, LogOf(bs)) && Pipelined(PipeOf(b), bs) && AtTurn(b, bs, firstk, k)
      decreases Left(b, nZ[..]), cols - firstk, k
    {
      LeftIsNatural(b, nT[..], nZ[..], firstk);
      firstk, k, bs := Advance(b, ipiv, nT, nZ, firstk, k, bs);
      CountersInOrder(b, nT[..], nZ[..], firstk, 0);
    }
    AllCompleteIsFinished(b, nT[..], nZ[..], firstk, ipiv, bs);
  }

  /** The plan leaves nothing open: two finished tables have the same killers. */
  lemma OneTable(b: Band, table: seq<seq<int>>, bs: seq<Batch>, table': seq<seq<int>>, bs': seq<Batch>,
                 k: nat, row: nat)
    requires Finished(b, table, bs) && Finished(b, table', bs')
    requires k < b.cols && k < row < Min(k + b.p, b.mt)
    ensures bs == bs' && table[k][row - k] == table'[k][row - k]
  {
    hide Finished, Dead, LogOf, IsDead;
    SameBatches(b, table, bs, table', bs');
    IsNamed(b, table, bs, k, row);
    var i := DeadWasKilled(LogOf(bs), k, row);
    NamesKiller(b, table, bs, i);
    NamesKiller(b, table', bs', i);
  }

  lemma SameBatches(b: Band, table: seq<seq<int>>, bs: seq<Batch>, table': seq<seq<int>>, bs': seq<Batch>)
    requires Finished(b, table, bs) && Finished(b, table', bs')
    ensures bs == bs' && |table| >= b.cols && |table'| >= b.cols
  {
    hide FinishedLog, PipeOf, Pipelined, Ended;
    PipelineIsUnique(PipeOf(b), bs, bs');
  }

  lemma IsNamed(b: Band, table: seq<seq<int>>, bs: seq<Batch>, k: nat, row: nat)
    requires Finished(b, table, bs) && k < b.cols && k < row < Min(k + b.p, b.mt)
    ensures IsDead(Dead(LogOf(bs)), k, row)
  {
    hide Dead, IsDead, IsSchedule, LogOf, PipeOf, Pipelined, Ended;
  }

  lemma NamesKiller(b: Band, table: seq<seq<int>>, bs: seq<Batch>, i: nat)
    requires Finished(b, table, bs) && i < |LogOf(bs)|
    ensures var e := LogOf(bs)[i];
      e.k < b.cols <= |table| && 0 <= e.row - e.k < |table[e.k]| && table[e.k][e.row - e.k] == e.killer
  {
    hide Dead, IsDead, IsSchedule, LogOf, PipeOf, Pipelined, Ended;
  }
}
