/** The execution of one factorization step as a transition system.

    Every row keeps the next row it is going to kill. A row may kill its next victim once that
    victim has no kills of its own left; it then looks up its following victim. The rows decide for
    themselves, in any interleaving: a run is any sequence of enabled rows. */
module KillProtocol {
  import opened Integers
  import opened ReductionTrees

  datatype Kill = Kill(killer: int, victim: int)

  datatype State = State(next: map<int, int>, log: seq<Kill>)

  ghost function Start(t: Tree): State
    requires Valid(t)
  {
    State(map m | t.root <= m < t.end :: Next(t, m, t.none), [])
  }

  ghost predicate Enabled(t: Tree, st: State, m: int) {
    && m in st.next && st.next[m] != t.none
    && st.next[m] in st.next && st.next[st.next[m]] == t.none
  }

  ghost function Step(t: Tree, st: State, m: int): State
    requires Valid(t) && Enabled(t, st, m)
  {
    var n := st.next[m];
    State(st.next[m := Next(t, m, n)], st.log + [Kill(m, n)])
  }

  /** The rows of `schedule` can act one after the other. */
  ghost predicate Runnable(t: Tree, st: State, schedule: seq<int>)
    requires Valid(t)
    decreases |schedule|
  {
    schedule == [] || (Enabled(t, st, schedule[0]) && Runnable(t, Step(t, st, schedule[0]), schedule[1..]))
  }

  ghost function Outcome(t: Tree, st: State, schedule: seq<int>): State
    requires Valid(t) && Runnable(t, st, schedule)
    decreases |schedule|
  {
    if schedule == [] then st else Outcome(t, Step(t, st, schedule[0]), schedule[1..])
  }

  /* What every step keeps. */

  ghost predicate PassedOver(t: Tree, next: map<int, int>, n: int) {
    && t.root < n < t.end
    && t.killer(n) in next
    && (next[t.killer(n)] == t.none || Before(t, n, next[t.killer(n)]))
  }

  ghost predicate Pointers(t: Tree, next: map<int, int>) {
    && (forall m :: m in next <==> IsRow(t, m))
    && (forall m :: m in next ==> next[m] == t.none || IsVictim(t, m, next[m]))
    && (forall n :: PassedOver(t, next, n) ==> n in next && next[n] == t.none)
  }

  /** The log holds the rows already passed over, each once, under its own killer. */
  ghost predicate LogMatches(t: Tree, st: State) {
    && (forall i :: 0 <= i < |st.log| ==>
          PassedOver(t, st.next, st.log[i].victim) && st.log[i].killer == t.killer(st.log[i].victim))
    && (forall n :: PassedOver(t, st.next, n) ==> Kill(t.killer(n), n) in st.log)
  }

  /** No row is killed twice or used as a killer after its death, and every killer takes its victims
      in kill order. */
  ghost predicate SafeLog(t: Tree, log: seq<Kill>) {
    forall i, j :: 0 <= i < j < |log| ==>
      && log[i].victim != log[j].victim
      && log[i].victim != log[j].killer
      && (log[i].killer == log[j].killer ==> Before(t, log[i].victim, log[j].victim))
  }

  ghost predicate Inv(t: Tree, st: State) {
    Pointers(t, st.next) && LogMatches(t, st) && SafeLog(t, st.log)
  }

  lemma StartIsSafe(t: Tree)
    requires Valid(t)
    ensures Inv(t, Start(t))
  {
    var st := Start(t);
    forall n | t.root < n < t.end
      ensures !PassedOver(t, st.next, n)
    {
      var first := Next(t, t.killer(n), t.none);
      assert Later(t, t.killer(n), t.none, n);
    }
  }

  /** Beyond the row just killed, a step passes over nothing new. */
  lemma StepPassesOverOneRow(t: Tree, st: State, m: int, n: int)
    requires Valid(t) && Inv(t, st) && Enabled(t, st, m)
    ensures PassedOver(t, Step(t, st, m).next, n) <==> n == st.next[m] || PassedOver(t, st.next, n)
    ensures !PassedOver(t, st.next, st.next[m])
  {
    var v := st.next[m];
    var w := Next(t, m, v);
    if t.root < n < t.end && t.killer(n) == m && n != v {
      if Before(t, v, n) {
        assert Later(t, m, v, n);
      } else {
        assert Before(t, n, v);
        if w != t.none { assert Later(t, m, v, w); }
      }
    }
    if n == v && w != t.none { assert Later(t, m, v, w); }
  }

  lemma StepKeepsInv(t: Tree, st: State, m: int)
    requires Valid(t) && Inv(t, st) && Enabled(t, st, m)
    ensures Inv(t, Step(t, st, m))
  {
    var n := st.next[m];
    var st' := Step(t, st, m);
    forall x ensures PassedOver(t, st'.next, x) <==> x == n || PassedOver(t, st.next, x) {
      StepPassesOverOneRow(t, st, m, x);
    }
    StepPassesOverOneRow(t, st, m, n);
    assert st'.next[m] == t.none || Later(t, m, n, st'.next[m]);
    assert Pointers(t, st'.next);
    assert LogMatches(t, st') by {
      assert st'.log[|st.log|] == Kill(m, n);
      forall x | PassedOver(t, st'.next, x) ensures Kill(t.killer(x), x) in st'.log {
        if x != n { assert Kill(t.killer(x), x) in st.log; }
      }
    }
    assert SafeLog(t, st'.log);
  }

  /* Progress. */

  lemma {:induction false} BusyRowBelow(t: Tree, st: State, m: int) returns (top: int)
    requires Valid(t) && Inv(t, st) && IsRow(t, m) && st.next[m] != t.none
    ensures Enabled(t, st, top)
    decreases t.end - m
  {
    var n := st.next[m];
    if st.next[n] == t.none {
      top := m;
    } else {
      top := BusyRowBelow(t, st, n);
    }
  }

  /** Deadlock freedom of a reachable state: while some row above the root lives, a row can act. */
  lemma LiveRowMeansProgress(t: Tree, st: State, live: int) returns (m: int)
    requires Valid(t) && Inv(t, st)
    requires t.root < live < t.end && forall i :: 0 <= i < |st.log| ==> st.log[i].victim != live
    ensures Enabled(t, st, m)
  {
    assert !PassedOver(t, st.next, live);
    m := BusyRowBelow(t, st, t.killer(live));
  }

  /* Counting. */

  ghost function Victims(log: seq<Kill>): set<int> {
    set i | 0 <= i < |log| :: log[i].victim
  }

  ghost function NonRoots(t: Tree): set<int> {
    Between(t.root, t.end)
  }

  lemma {:induction false} DistinctVictims(t: Tree, log: seq<Kill>)
    requires SafeLog(t, log)
    ensures |Victims(log)| == |log|
  {
    if log == [] {
      assert Victims(log) == {};
    } else {
      var rest := log[..|log| - 1];
      DistinctVictims(t, rest);
      var last := log[|log| - 1].victim;
      assert Victims(log) == Victims(rest) + {last} by {
        forall x | x in Victims(rest) ensures x in Victims(log) {
          var i :| 0 <= i < |rest| && rest[i].victim == x;
          assert log[i].victim == x;
        }
      }
      assert last !in Victims(rest);
    }
  }

  lemma SubsetSize(a: set<int>, b: set<int>)
    requires a <= b
    ensures |b - a| == |b| - |a|
    ensures |a| == |b| ==> a == b
  {
    assert b == a + (b - a);
    if |a| == |b| { assert b - a == {}; }
  }

  lemma LogSize(t: Tree, st: State)
    requires Valid(t) && Inv(t, st)
    ensures |st.log| <= t.end - t.root - 1
    ensures |st.log| == t.end - t.root - 1 ==> Victims(st.log) == NonRoots(t)
    ensures |st.log| < t.end - t.root - 1 ==> exists live :: live in NonRoots(t) && live !in Victims(st.log)
  {
    DistinctVictims(t, st.log);
    assert Victims(st.log) <= NonRoots(t);
    SubsetSize(Victims(st.log), NonRoots(t));
    if |st.log| < t.end - t.root - 1 {
      assert |NonRoots(t) - Victims(st.log)| > 0;
      var live :| live in NonRoots(t) - Victims(st.log);
    }
  }

  /* The theorems about whole runs. */

  lemma {:induction false} RunKeepsInv(t: Tree, st: State, schedule: seq<int>)
    requires Valid(t) && Inv(t, st) && Runnable(t, st, schedule)
    ensures Inv(t, Outcome(t, st, schedule))
    ensures |Outcome(t, st, schedule).log| == |st.log| + |schedule|
    decreases |schedule|
  {
    if schedule == [] {
    } else {
      StepKeepsInv(t, st, schedule[0]);
      RunKeepsInv(t, Step(t, st, schedule[0]), schedule[1..]);
    }
  }

  lemma {:induction false} OneMoreStep(t: Tree, st: State, schedule: seq<int>, m: int)
    requires Valid(t) && Runnable(t, st, schedule) && Enabled(t, Outcome(t, st, schedule), m)
    ensures Runnable(t, st, schedule + [m])
    decreases |schedule|
  {
    if schedule == [] {
      assert ([m])[1..] == [];
    } else {
      OneMoreStep(t, Step(t, st, schedule[0]), schedule[1..], m);
      assert (schedule + [m])[1..] == schedule[1..] + [m];
    }
  }

  /** Safety of every run, finished or not: no row dies twice, no dead row kills, every victim dies
      by its own killer and in the killer's order. */
  lemma EveryRunIsSafe(t: Tree, schedule: seq<int>)
    requires Valid(t) && Runnable(t, Start(t), schedule)
    ensures var log := Outcome(t, Start(t), schedule).log;
      && |log| == |schedule|
      && SafeLog(t, log)
      && forall i :: 0 <= i < |log| ==> t.root < log[i].victim < t.end && log[i].killer == t.killer(log[i].victim)
  {
    StartIsSafe(t);
    RunKeepsInv(t, Start(t), schedule);
  }

  /** No deadlock and no endless run: a run of fewer than `end - root - 1` steps can be continued,
      and none is longer. */
  lemma RunsNeitherStopEarlyNorGoOn(t: Tree, schedule: seq<int>)
    requires Valid(t) && Runnable(t, Start(t), schedule)
    ensures |schedule| <= t.end - t.root - 1
    ensures |schedule| < t.end - t.root - 1 ==> exists m :: Runnable(t, Start(t), schedule + [m])
  {
    StartIsSafe(t);
    RunKeepsInv(t, Start(t), schedule);
    var st := Outcome(t, Start(t), schedule);
    LogSize(t, st);
    if |schedule| < t.end - t.root - 1 {
      var live :| live in NonRoots(t) && live !in Victims(st.log);
      var m := LiveRowMeansProgress(t, st, live);
      OneMoreStep(t, Start(t), schedule, m);
    }
  }

  /** A run that cannot be continued has killed every row but the root, each exactly once. */
  lemma FinishedRunLeavesOnlyTheRoot(t: Tree, schedule: seq<int>)
    requires Valid(t) && Runnable(t, Start(t), schedule)
    requires forall m :: !Runnable(t, Start(t), schedule + [m])
    ensures |schedule| == t.end - t.root - 1
    ensures var log := Outcome(t, Start(t), schedule).log;
      && (forall n :: t.root < n < t.end ==> Kill(t.killer(n), n) in log)
      && (forall i :: 0 <= i < |log| ==> t.root < log[i].victim < t.end)
      && (forall i, j :: 0 <= i < j < |log| ==> log[i].victim != log[j].victim)
  {
    RunsNeitherStopEarlyNorGoOn(t, schedule);
    StartIsSafe(t);
    RunKeepsInv(t, Start(t), schedule);
    var st := Outcome(t, Start(t), schedule);
    LogSize(t, st);
    forall n | t.root < n < t.end
      ensures Kill(t.killer(n), n) in st.log
    {
      assert n in Victims(st.log);
      var i :| 0 <= i < |st.log| && st.log[i].victim == n;
      assert st.log[i] == Kill(t.killer(n), n);
    }
  }
}
