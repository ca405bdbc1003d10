/** The trees read off a pipelined schedule, one for each step. */
module PipelinedTrees {
  import opened ReductionTrees
  import opened Schedules

  /** The tree of step `k` makes the kills of the schedule at that step: all of them and no other, each by the same
      row, and the victims of one row in the same order. */
  ghost predicate FollowsSchedule(t: Tree, log: seq<Event>, k: nat) {
    && (forall s :: t.root < s < t.end ==> IsDead(Dead(log), k, s))
    && (forall i :: 0 <= i < |log| && log[i].k == k ==>
          t.root < log[i].row < t.end && t.killer(log[i].row) == log[i].killer)
    && (forall i, j :: 0 <= i < j < |log| && log[i].k == k && log[j].k == k && log[i].killer == log[j].killer ==>
          Before(t, log[i].row, log[j].row))
  }

  ghost predicate IsStepOfPipeline(t: Tree, pipe: Pipe, k: nat) {
    exists bs :: Pipelined(pipe, bs) && Ended(pipe, bs) && FollowsSchedule(t, LogOf(bs), k)
  }

  /** The pipeline determines the tree. */
  lemma OneTree(t: Tree, t': Tree, pipe: Pipe, k: nat, s: int)
    requires IsStepOfPipeline(t, pipe, k) && IsStepOfPipeline(t', pipe, k)
    requires t.root < s < t.end
    ensures t'.root < s < t'.end && t.killer(s) == t'.killer(s)
  {
    hide Pipelined, Ended, LogOf, Dead, IsDead;
    var bs :| Pipelined(pipe, bs) && Ended(pipe, bs) && FollowsSchedule(t, LogOf(bs), k);
    var bs' :| Pipelined(pipe, bs') && Ended(pipe, bs') && FollowsSchedule(t', LogOf(bs'), k);
    PipelineIsUnique(pipe, bs, bs');
    var i := DeadWasKilled(LogOf(bs), k, s);
  }
}
