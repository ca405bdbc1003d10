/** Parallel rounds. In one round every live row takes part in at most one kill, so the number of rows
    can at best be halved; this module bounds what any tree can do, and the generators are measured
    against it. */
module Rounds {
  import opened Bits
  import opened Counting
  import opened Integers
  import opened ReductionTrees

  /** The kills of `t` fit into `count` rounds: killers of one round are distinct and outlive it, and a
      killer works through its victims in the order the lookups give them. */
  ghost predicate FitsInRounds(t: Tree, round: int -> int, count: nat) {
    && (forall s :: t.root < s < t.end ==> 1 <= round(s) <= count)
    && (forall s :: t.root < s < t.end && t.killer(s) != t.root ==> round(s) < round(t.killer(s)))
    && (forall s, u :: t.root < s < t.end && t.root < u < t.end && t.killer(s) == t.killer(u) && Before(t, s, u) ==>
          round(s) < round(u))
  }

  /** Some assignment of rounds to kills works. */
  ghost predicate CanFit(t: Tree, count: nat) {
    exists round: int -> int :: FitsInRounds(t, round, count)
  }

  /** A tree without its last rows: what is left still works, in the same rounds. */
  lemma WithoutLastRows(t: Tree, end: int, round: int -> int, count: nat)
    requires Valid(t) && t.root < end <= t.end && FitsInRounds(t, round, count)
    ensures Valid(t.(end := end)) && FitsInRounds(t.(end := end), round, count)
  {
    var t' := t.(end := end);
    forall s, u | t'.root < s < t'.end && t'.root < u < t'.end && t'.killer(s) == t'.killer(u) && Before(t', s, u)
      ensures round(s) < round(u)
    {
      assert Before(t, s, u);
    }
  }

  lemma RoundsAreOrdered(t: Tree, round: int -> int, count: nat, s: int, u: int)
    requires FitsInRounds(t, round, count) && t.root < s < t.end
    ensures 1 <= round(s) <= count && (t.killer(s) != t.root ==> round(s) < round(t.killer(s)))
    ensures t.root < u < t.end && t.killer(s) == t.killer(u) && Before(t, s, u) ==> round(s) < round(u)
  {
  }

  lemma FitsInMoreRounds(t: Tree, round: int -> int, count: nat, more: nat)
    requires FitsInRounds(t, round, count) && count <= more
    ensures FitsInRounds(t, round, more)
  {
  }

  lemma NoKills(t: Tree, round: int -> int, count: nat)
    requires t.end <= t.root + 1
    ensures FitsInRounds(t, round, count)
  {
  }

  ghost function Alive(t: Tree, round: int -> int, r: int): set<int> {
    (set m | m in Between(t.root, t.end) && round(m) > r) + {t.root}
  }

  lemma OneRoundAtMostHalves(t: Tree, round: int -> int, count: nat, r: int)
    requires Valid(t) && FitsInRounds(t, round, count)
    ensures |Alive(t, round, r - 1)| <= 2 * |Alive(t, round, r)|
  {
    var dying := set m | m in Between(t.root, t.end) && round(m) == r;
    assert Alive(t, round, r - 1) == Alive(t, round, r) + dying;
    forall x, y | x in dying && y in dying && t.killer(x) == t.killer(y)
      ensures x == y
    {
      BeforeIsStrictTotalOrder(t, x, y, y);
    }
    forall x | x in dying ensures t.killer(x) in Alive(t, round, r) {
      assert t.root <= t.killer(x) < x;
    }
    InjectionBound(t.killer, dying, Alive(t, round, r), t.root, t.end);
  }

  lemma AfterTheLastRound(t: Tree, round: int -> int, count: nat)
    requires FitsInRounds(t, round, count)
    ensures Alive(t, round, count) == {t.root}
  {
  }

  lemma {:induction false} AliveBound(t: Tree, round: int -> int, count: nat, r: nat)
    requires Valid(t) && FitsInRounds(t, round, count) && r <= count
    ensures |Alive(t, round, count - r)| <= Pow2(r)
  {
    hide Alive, FitsInRounds, Valid;
    if r == 0 {
      AfterTheLastRound(t, round, count);
    } else {
      AliveBound(t, round, count, r - 1);
      OneRoundAtMostHalves(t, round, count, count - r + 1);
    }
  }

  /** No tree reduces more than `2^count` rows in `count` rounds. */
  lemma RowsBound(t: Tree, round: int -> int, count: nat)
    requires Valid(t) && FitsInRounds(t, round, count)
    ensures t.end - t.root <= Pow2(count)
  {
    AliveBound(t, round, count, count);
    AllAliveFirst(t, round, count);
    hide Pow2, Alive, FitsInRounds, Valid;
  }

  /** Before the first round everyone is alive. */
  lemma AllAliveFirst(t: Tree, round: int -> int, count: nat)
    requires Valid(t) && FitsInRounds(t, round, count)
    ensures |Alive(t, round, 0)| == t.end - t.root
  {
    assert Alive(t, round, 0) == Between(t.root, t.end) + {t.root};
  }
}
