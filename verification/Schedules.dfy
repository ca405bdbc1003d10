/** Kill schedules over several steps, as the pipelined generators emit them. */
module Schedules {

  /** At step `k`, `row` is killed by `killer`. */
  datatype Event = Event(k: nat, row: int, killer: int)

  /** The pairs of a step and a row that the schedule has killed at that step. */
  ghost function Dead(log: seq<Event>): set<(int, int)> {
    if log == [] then {} else Dead(log[..|log| - 1]) + {(log[|log| - 1].k, log[|log| - 1].row)}
  }

  ghost predicate IsDead(dead: set<(int, int)>, k: int, row: int) {
    (k, row) in dead
  }

  lemma DeadAfter(log: seq<Event>, e: Event, k: int, row: int)
    ensures IsDead(Dead(log + [e]), k, row) <==> IsDead(Dead(log), k, row) || (k == e.k && row == e.row)
  {
    assert (log + [e])[..|log + [e]| - 1] == log;
  }

  /** What a schedule has killed is dead. */
  lemma {:induction false} EventsAreDead(log: seq<Event>, i: nat)
    requires i < |log|
    ensures IsDead(Dead(log), log[i].k, log[i].row)
  {
    if i < |log| - 1 {
      EventsAreDead(log[..|log| - 1], i);
      assert log[..|log| - 1][i] == log[i];
    }
  }

  /** Which kills a generator may add to what is already dead. */
  type KillRule = (set<(int, int)>, Event) -> bool

  ghost predicate Follows(rule: KillRule, log: seq<Event>) {
    log == [] || (Follows(rule, log[..|log| - 1]) && rule(Dead(log[..|log| - 1]), log[|log| - 1]))
  }

  lemma Extend(rule: KillRule, log: seq<Event>, e: Event)
    requires Follows(rule, log) && rule(Dead(log), e)
    ensures Follows(rule, log + [e])
  {
    assert (log + [e])[..|log + [e]| - 1] == log;
  }

  lemma {:induction false} EachFollows(rule: KillRule, log: seq<Event>, i: nat)
    requires Follows(rule, log) && i < |log|
    ensures rule(Dead(log[..i]), log[i])
  {
    if i < |log| - 1 {
      EachFollows(rule, log[..|log| - 1], i);
      assert log[..|log| - 1][i] == log[i] && log[..|log| - 1][..i] == log[..i];
    }
  }

  /** At every step, rows are killed from the lowest up. */
  ghost predicate LowestFirst(log: seq<Event>) {
    forall i, j :: 0 <= i < j < |log| && log[i].k == log[j].k ==> log[j].row < log[i].row
  }

  /** A pair is dead only if the schedule has killed it. */
  lemma {:induction false} DeadWasKilled(log: seq<Event>, k: int, row: int) returns (i: nat)
    requires IsDead(Dead(log), k, row)
    ensures i < |log| && log[i].k == k && log[i].row == row
  {
    var n := |log| - 1;
    if log[n].k == k && log[n].row == row {
      i := n;
    } else {
      i := DeadWasKilled(log[..n], k, row);
    }
  }

  /* Batches: how the pipelined generators choose their kills. */

  /** `height` kills of step `k`: the rows from `bottom` up, each killed by the row `height` above it. The
      generator had left the first `passed` steps behind. */
  datatype Batch = Batch(k: nat, passed: nat, bottom: int, height: nat)

  function Kills(b: Batch): seq<Event> {
    FirstKills(b, b.height)
  }

  function FirstKills(b: Batch, n: nat): seq<Event> {
    seq(n, i => Event(b.k, b.bottom - i, b.bottom - i - b.height))
  }

  /** A schedule after the first `n` kills of a batch. */
  ghost predicate HasKilled(log: seq<Event>, b: Batch, n: nat, log': seq<Event>) {
    log' == log + FirstKills(b, n)
  }

  lemma OneKillMore(log: seq<Event>, b: Batch, n: nat, log': seq<Event>, e: Event)
    requires HasKilled(log, b, n, log') && e == Event(b.k, b.bottom - n, b.bottom - n - b.height)
    ensures HasKilled(log, b, n + 1, log' + [e])
  {
    assert FirstKills(b, n + 1) == FirstKills(b, n) + [e];
  }

  lemma NoKillsYet(log: seq<Event>, b: Batch)
    ensures HasKilled(log, b, 0, log)
  {
  }

  lemma {:induction false} DeadAfterKills(log: seq<Event>, b: Batch, n: nat, k: int, row: int)
    ensures IsDead(Dead(log + FirstKills(b, n)), k, row) <==>
            IsDead(Dead(log), k, row) || (k == b.k && b.bottom - n < row <= b.bottom)
  {
    if n == 0 {
      assert log + FirstKills(b, 0) == log;
    } else {
      var e := Event(b.k, b.bottom - (n - 1), b.bottom - (n - 1) - b.height);
      DeadAfterKills(log, b, n - 1, k, row);
      DeadAfter(log + FirstKills(b, n - 1), e, k, row);
      assert log + FirstKills(b, n) == log + FirstKills(b, n - 1) + [e];
    }
  }

  function LogOf(bs: seq<Batch>): seq<Event> {
    if bs == [] then [] else LogOf(bs[..|bs| - 1]) + Kills(bs[|bs| - 1])
  }

  /** The steps to do; the rows a step could work on, given what is dead and how many steps are left behind; and
      whether a step is done. */
  datatype Pipe = Pipe(
    cols: nat,
    ready: (set<(int, int)>, nat, nat) -> set<int>,
    done: (set<(int, int)>, nat) -> bool)

  ghost function FirstOpen(pipe: Pipe, dead: set<(int, int)>, k: nat): (r: nat)
    requires k <= pipe.cols
    ensures k <= r <= pipe.cols && (r < pipe.cols ==> !pipe.done(dead, r))
    ensures forall c: nat :: k <= c < r ==> pipe.done(dead, c)
    decreases pipe.cols - k
  {
    if k == pipe.cols || !pipe.done(dead, k) then k else FirstOpen(pipe, dead, k + 1)
  }

  lemma FirstOpenIs(pipe: Pipe, dead: set<(int, int)>, r: nat)
    requires r <= pipe.cols && (r < pipe.cols ==> !pipe.done(dead, r))
    requires forall c: nat :: c < r ==> pipe.done(dead, c)
    ensures FirstOpen(pipe, dead, 0) == r
  {
  }

  /** Whose turn it is after some batches: that of the next step, if it has two rows to work on; otherwise the
      generator goes back to the first step that is not done, and leaves the steps before it behind. */
  ghost function Turn(pipe: Pipe, bs: seq<Batch>): (nat, nat) {
    var dead := Dead(LogOf(bs));
    if |bs| > 0 && bs[|bs| - 1].k + 1 < pipe.cols
       && |pipe.ready(dead, bs[|bs| - 1].passed, bs[|bs| - 1].k + 1)| >= 2 then
      (bs[|bs| - 1].k + 1, bs[|bs| - 1].passed)
    else
      (FirstOpen(pipe, dead, 0), FirstOpen(pipe, dead, 0))
  }

  /** The next batch takes the lower half of the rows the step can work on. */
  ghost predicate IsNextBatch(pipe: Pipe, bs: seq<Batch>, b: Batch) {
    var ready := pipe.ready(Dead(LogOf(bs)), b.passed, b.k);
    && (b.k, b.passed) == Turn(pipe, bs) && b.k < pipe.cols
    && b.height == |ready| / 2 > 0
    && b.bottom in ready && forall row :: row in ready ==> row <= b.bottom
  }

  ghost predicate Pipelined(pipe: Pipe, bs: seq<Batch>) {
    bs == [] || (Pipelined(pipe, bs[..|bs| - 1]) && IsNextBatch(pipe, bs[..|bs| - 1], bs[|bs| - 1]))
  }

  ghost predicate Ended(pipe: Pipe, bs: seq<Batch>) {
    Turn(pipe, bs).0 == pipe.cols
  }

  lemma AddBatch(pipe: Pipe, bs: seq<Batch>, b: Batch)
    requires Pipelined(pipe, bs) && IsNextBatch(pipe, bs, b)
    ensures Pipelined(pipe, bs + [b]) && LogOf(bs + [b]) == LogOf(bs) + Kills(b)
  {
    hide IsNextBatch;
    assert (bs + [b])[..|bs + [b]| - 1] == bs;
  }

  lemma OneNextBatch(pipe: Pipe, bs: seq<Batch>, b: Batch, b': Batch)
    requires IsNextBatch(pipe, bs, b) && IsNextBatch(pipe, bs, b')
    ensures b == b'
  {
    hide Turn, LogOf, Dead;
  }

  /** Nothing is left to choice: of two pipelines one continues the other. */
  lemma {:induction false} OnePipeline(pipe: Pipe, bs: seq<Batch>, bs': seq<Batch>)
    requires Pipelined(pipe, bs) && Pipelined(pipe, bs') && |bs| <= |bs'|
    ensures bs == bs'[..|bs|]
    decreases |bs'|
  {
    hide IsNextBatch;
    var n, n' := |bs| - 1, |bs'| - 1;
    if n < n' {
      OnePipeline(pipe, bs, bs'[..n']);
      assert bs'[..n'][..|bs|] == bs'[..|bs|];
    } else if n >= 0 {
      OnePipeline(pipe, bs[..n], bs'[..n]);
      assert bs[..n] == bs'[..n][..n] == bs'[..n];
      OneNextBatch(pipe, bs[..n], bs[n], bs'[n]);
      assert bs == bs[..n] + [bs[n]] && bs' == bs'[..n] + [bs'[n]];
    }
  }

  lemma PrefixIsPipelined(pipe: Pipe, bs: seq<Batch>, n: nat)
    requires Pipelined(pipe, bs) && n < |bs|
    ensures Pipelined(pipe, bs[..n]) && IsNextBatch(pipe, bs[..n], bs[n])
    decreases |bs|
  {
    if n < |bs| - 1 {
      PrefixIsPipelined(pipe, bs[..|bs| - 1], n);
      assert bs[..|bs| - 1][..n] == bs[..n] && bs[..|bs| - 1][n] == bs[n];
    }
  }

  lemma PipelineIsUnique(pipe: Pipe, bs: seq<Batch>, bs': seq<Batch>)
    requires Pipelined(pipe, bs) && Pipelined(pipe, bs') && Ended(pipe, bs) && Ended(pipe, bs')
    ensures bs == bs'
  {
    if |bs| <= |bs'| {
      OnePipeline(pipe, bs, bs');
      if |bs| < |bs'| { PrefixIsPipelined(pipe, bs', |bs|); }
    } else {
      OnePipeline(pipe, bs', bs);
      PrefixIsPipelined(pipe, bs, |bs'|);
    }
  }

  /** The kills still to come from step `k` on, when step `c` is to have `goal(c)` of them. */
  ghost function KillsLeft(goal: int -> int, killed: seq<int>, k: nat): int
    requires k <= |killed|
    decreases |killed| - k
  {
    if k == |killed| then 0 else goal(k) - killed[k] + KillsLeft(goal, killed, k + 1)
  }

  lemma {:induction false} KillsLeftIsNatural(goal: int -> int, killed: seq<int>, k: nat)
    requires k <= |killed| && forall c :: 0 <= c < |killed| ==> killed[c] <= goal(c)
    ensures KillsLeft(goal, killed, k) >= 0
    decreases |killed| - k
  {
    if k < |killed| { KillsLeftIsNatural(goal, killed, k + 1); }
  }

  lemma {:induction false} LeftAfterKills(goal: int -> int, killed: seq<int>, k: nat, c: nat, height: int)
    requires k <= |killed| && c < |killed|
    ensures KillsLeft(goal, killed[c := killed[c] + height], k) ==
            KillsLeft(goal, killed, k) - if k <= c then height else 0
    decreases |killed| - k
  {
    if k < |killed| { LeftAfterKills(goal, killed, k + 1, c, height); }
  }
}
