/** A greedy tree of which only the first rows exist, as where a band reaches past the end of the matrix, or the last
    macro-tile of the matrix has no row in a domain. */
module GreedyCut {
  import opened Bits
  import opened GreedyColumn
  import opened ReductionTrees
  import opened Rounds

  /** The least number of live rows that still has all of the first `m` rows: those are killed as in the greedy tree
      on that many rows. */
  function Survivors(n: nat, m: nat): (s: nat)
    requires 0 < m <= n
    ensures m <= s <= n && (s > 1 ==> s - s / 2 < m)
  {
    if n > 1 && m <= n - n / 2 then Survivors(n - n / 2, m) else n
  }

  lemma {:induction false} SurvivorsKillAlike(n: nat, m: nat, x: nat)
    requires 0 < x < m <= n
    ensures Killer(n, x) == Killer(Survivors(n, m), x)
  {
    if m <= n - n / 2 { SurvivorsKillAlike(n - n / 2, m, x); }
  }

  /** The rounds the first `m` rows of the greedy tree on `n` rows take. */
  function CutRounds(n: nat, m: nat): nat
    requires 0 < m <= n
  {
    var s := Survivors(n, m);
    if s == 2 * (m - 1) then RoundCount(m) else RoundCount(s)
  }

  lemma {:induction false} RoundCountGrows(m: nat, n: nat)
    requires m <= n
    ensures RoundCount(m) <= RoundCount(n)
  {
    if m > 1 { RoundCountGrows(m - m / 2, n - n / 2); }
  }

  /* Row 1 has a victim in every round but the last. */

  lemma VictimOfRowOne(s: nat, u: nat)
    requires 2 < u <= s && forall x :: 0 < x < u ==> Killer(s, x) == Killer(u, x)
    ensures Killer(s, 1 + u / 2) == 1
    ensures forall x :: 0 < x < u - u / 2 ==> Killer(s, x) == Killer(u - u / 2, x)
  {
    hide Killer;
    forall x | 0 < x < u ensures Killer(u, x) == if x >= u - u / 2 then x - u / 2 else Killer(u - u / 2, x) {
      KillerUnfolds(u, x);
    }
  }

  /** From the round with `u` live rows on, row 1 works through its victims. */
  lemma {:induction false} RowOneIsLate(t: Tree, s: nat, u: nat, round: int -> int, count: nat)
    requires IsCut(t, s) && FitsInRounds(t, round, count) && t.root + 1 < t.end
    requires 2 <= u <= s && forall x :: 0 < x < u ==> Killer(s, x) == Killer(u, x)
    requires u > 2 ==> t.root + 1 + u / 2 < t.end && round(t.root + 1 + u / 2) > RoundCount(s) - RoundCount(u)
    requires u == 2 ==> round(t.root + 1) >= RoundCount(s)
    ensures round(t.root + 1) >= RoundCount(s)
    decreases u
  {
    hide Killer, FitsInRounds, IsCut;
    if u > 2 {
      var v := u - u / 2;
      VictimOfRowOne(s, u);
      KilledByRowOne(t, s, 1 + u / 2);
      if v > 2 {
        VictimOfRowOne(s, v);
        KilledByRowOne(t, s, 1 + v / 2);
        KilledInOrder(t, s, round, count, t.root + 1 + v / 2, t.root + 1 + u / 2);
      } else {
        assert RoundCount(u) == 2;
        RoundsAreOrdered(t, round, count, t.root + 1 + u / 2, t.root);
      }
      RowOneIsLate(t, s, v, round, count);
    }
  }

  lemma KilledByRowOne(t: Tree, s: nat, x: nat)
    requires IsCut(t, s) && 0 < x < t.end - t.root && Killer(s, x) == 1
    ensures t.killer(t.root + x) == t.root + 1
  {
    hide Killer;
    assert t.killer(t.root + x) == t.root + Killer(s, t.root + x - t.root);
  }

  /** Of two victims of one killer, the lower one goes first. */
  lemma KilledInOrder(t: Tree, s: nat, round: int -> int, count: nat, x: int, y: int)
    requires IsCut(t, s) && FitsInRounds(t, round, count)
    requires t.root < x < y < t.end && t.killer(x) == t.killer(y)
    ensures round(y) < round(x)
  {
    hide Killer, Valid;
    assert Before(t, y, x);
  }

  /* If row 1 has no victim in the first round, row 0 alone has one, and can have it early. */

  ghost predicate AlwaysEven(h: nat) {
    h == 1 || (h > 0 && h % 2 == 0 && AlwaysEven(h / 2))
  }

  lemma {:induction false} AlwaysEvenNeedsMore(h: nat)
    requires AlwaysEven(h)
    ensures RoundCount(h + 1) == RoundCount(h) + 1
  {
    if h > 1 { AlwaysEvenNeedsMore(h / 2); }
  }

  /** The rounds of the greedy tree on `h` rows, where the victims of row 0 wait for a round in which the number of
      rows is odd and row 0 idle. */
  function Shifted(h: nat, x: nat): (r: nat)
    requires 0 < x < h
  {
    if h % 2 == 1 then Round(h, x)
    else if x > h / 2 then 1
    else if x == h / 2 then 2
    else Shifted(h / 2, x) + 1
  }

  lemma {:induction false} ShiftedRow(h: nat, x: nat)
    requires 0 < x < h && !AlwaysEven(h)
    ensures 1 <= Shifted(h, x) <= RoundCount(h)
    ensures if Killer(h, x) == 0 then Shifted(h, x) >= 2 else Shifted(h, x) < Shifted(h, Killer(h, x))
  {
    if h % 2 == 1 {
      RoundRange(h, x);
      KillerOutlivesRound(h, x);
    } else {
      RoundCountOfHalf(h);
      if x < h / 2 { ShiftedRow(h / 2, x); }
      if x > h / 2 { ShiftedRow(h / 2, x - h / 2); }
    }
  }

  lemma RoundCountOfHalf(h: nat)
    requires h % 2 == 0 && h > 0 && !AlwaysEven(h)
    ensures RoundCount(h) == RoundCount(h / 2) + 1 >= 2 && !AlwaysEven(h / 2)
  {
  }

  lemma {:induction false} ShiftedPair(h: nat, x: nat, y: nat)
    requires 0 < x < y < h && !AlwaysEven(h) && Killer(h, x) == Killer(h, y)
    ensures Shifted(h, y) < Shifted(h, x)
  {
    if h % 2 == 1 {
      RoundsArePossible(h, x, y);
    } else if y < h / 2 {
      ShiftedPair(h / 2, x, y);
    } else {
      assert x < h / 2;
      ShiftedRow(h / 2, x);
    }
  }

  ghost function EarlyRounds(t: Tree, h: nat): int -> int {
    x => if t.root < x < t.root + h then Shifted(h, x - t.root) else 1
  }

  lemma EarlyRow(t: Tree, h: nat, x: int)
    requires IsCut(t, 2 * h) && t.end - t.root == h + 1 && !AlwaysEven(h) && t.root < x < t.end
    ensures 1 <= EarlyRounds(t, h)(x) <= RoundCount(h)
    ensures t.killer(x) != t.root ==> EarlyRounds(t, h)(x) < EarlyRounds(t, h)(t.killer(x))
    ensures t.killer(x) == t.root && x < t.root + h ==> EarlyRounds(t, h)(x) >= 2
    ensures x == t.root + h ==> t.killer(x) == t.root
  {
    hide Shifted, Killer;
    KillerUnfolds(2 * h, x - t.root);
    RowsAreMoreThanOne(h);
    if x < t.root + h { ShiftedRow(h, x - t.root); }
  }

  lemma RowsAreMoreThanOne(h: nat)
    requires h > 0 && !AlwaysEven(h)
    ensures RoundCount(h) >= 1
  {
  }

  lemma EarlyPair(t: Tree, h: nat, x: int, y: int)
    requires IsCut(t, 2 * h) && t.end - t.root == h + 1 && !AlwaysEven(h)
    requires t.root < x < t.end && t.root < y < t.end && t.killer(x) == t.killer(y) && Before(t, x, y)
    ensures EarlyRounds(t, h)(x) < EarlyRounds(t, h)(y)
  {
    hide Shifted, Killer, AlwaysEven, Valid;
    assert y < x;
    LowerIsLater(h, y - t.root, x - t.root);
  }

  lemma LowerIsLater(h: nat, x: nat, y: nat)
    requires 0 < x < y <= h && !AlwaysEven(h) && Killer(2 * h, x) == Killer(2 * h, y)
    ensures y == h ==> Shifted(h, x) > 1
    ensures y < h ==> Shifted(h, y) < Shifted(h, x)
  {
    hide Shifted, Killer, AlwaysEven;
    KillerUnfolds(2 * h, x);
    KillerUnfolds(2 * h, y);
    if y < h { ShiftedPair(h, x, y); } else { ShiftedRow(h, x); }
  }

  lemma EarlyRoundsFit(t: Tree, h: nat)
    requires IsCut(t, 2 * h) && t.end - t.root == h + 1 && !AlwaysEven(h)
    ensures FitsInRounds(t, EarlyRounds(t, h), RoundCount(h))
  {
    hide IsCut, EarlyRounds, RoundCount, Before, AlwaysEven;
    forall x | t.root < x < t.end
      ensures 1 <= EarlyRounds(t, h)(x) <= RoundCount(h)
      ensures t.killer(x) != t.root ==> EarlyRounds(t, h)(x) < EarlyRounds(t, h)(t.killer(x))
    {
      EarlyRow(t, h, x);
    }
    forall x, y | t.root < x < t.end && t.root < y < t.end && t.killer(x) == t.killer(y) && Before(t, x, y)
      ensures EarlyRounds(t, h)(x) < EarlyRounds(t, h)(y)
    {
      EarlyPair(t, h, x, y);
    }
  }

  lemma OneRowOfTheRound(t: Tree, h: nat)
    requires IsCut(t, 2 * h) && t.end - t.root == h + 1 && h > 0
    ensures CanFit(t, RoundCount(h + 1))
  {
    hide IsCut, FitsInRounds;
    if AlwaysEven(h) {
      AlwaysEvenNeedsMore(h);
      assert RoundCount(2 * h) == RoundCount(h) + 1;
      GreedyFits(t, 2 * h);
    } else {
      EarlyRoundsFit(t, h);
      RoundCountGrows(h, h + 1);
      FitsInMoreRounds(t, EarlyRounds(t, h), RoundCount(h), RoundCount(h + 1));
    }
  }

  /** Otherwise row 1 has all its victims. */
  lemma AllVictimsOfRowOne(t: Tree, s: nat, round: int -> int, count: nat)
    requires IsCut(t, s) && FitsInRounds(t, round, count)
    requires s > 1 ==> s - s / 2 < t.end - t.root != 1 + s / 2
    ensures RoundCount(s) <= count
  {
    hide Killer, FitsInRounds;
    if s > 1 {
      if s > 2 { RoundsAreOrdered(t, round, count, t.root + 1 + s / 2, t.root); }
      RoundsAreOrdered(t, round, count, t.root + 1, t.root);
      RowOneIsLate(t, s, s, round, count);
    }
  }

  /** The first rows of the greedy tree on `s` rows, of which the first round takes at least one. */
  lemma CutExactly(t: Tree, s: nat, count: nat)
    requires IsCut(t, s) && (s > 1 ==> s - s / 2 < t.end - t.root)
    ensures CanFit(t, count) <==>
            (if s == 2 * (t.end - t.root - 1) then RoundCount(t.end - t.root) else RoundCount(s)) <= count
  {
    hide FitsInRounds, RoundCount, Killer;
    var n := t.end - t.root;
    var needed := if s == 2 * (n - 1) then RoundCount(n) else RoundCount(s);
    GreedyFits(t, s);
    if s == 2 * (n - 1) { OneRowOfTheRound(t, n - 1); }
    if needed <= count {
      var round: int -> int :| FitsInRounds(t, round, needed);
      FitsInMoreRounds(t, round, needed, count);
    }
    if CanFit(t, count) {
      var round: int -> int :| FitsInRounds(t, round, count);
      NoTreeIsFaster(t, round, count);
      if s != 2 * (n - 1) { AllVictimsOfRowOne(t, s, round, count); }
    }
  }

  lemma CutOfSurvivors(t: Tree, n: nat)
    requires IsCut(t, n)
    ensures IsCut(t, Survivors(n, t.end - t.root))
  {
    hide Killer, Survivors;
    forall x | t.root < x < t.end
      ensures t.kind(x) == 0 && t.killer(x) == t.root + Killer(Survivors(n, t.end - t.root), x - t.root)
    {
      SurvivorsKillAlike(n, t.end - t.root, x - t.root);
    }
  }

  /** What the first rows of a greedy tree take: exactly so many rounds; at most one more than the best tree on as
      many rows; and no more than that exactly if the round in which the first of the missing rows would die
      leaves as many rounds as they need, or kills none of them but the last. */
  lemma CutTree(t: Tree, n: nat, count: nat)
    requires IsCut(t, n)
    ensures var m := t.end - t.root; var s := Survivors(n, m);
      && (CanFit(t, count) <==> CutRounds(n, m) <= count)
      && RoundCount(m) <= CutRounds(n, m) <= RoundCount(m) + 1
      && (CanFit(t, RoundCount(m)) <==> RoundCount(s) == RoundCount(m) || s == 2 * (m - 1))
  {
    hide CanFit, Survivors, Killer;
    var m := t.end - t.root;
    var s := Survivors(n, m);
    CutOfSurvivors(t, n);
    CutExactly(t, s, count);
    CutExactly(t, s, RoundCount(m));
    RoundCountGrows(m, s);
    if s > 1 { RoundCountGrows(s - s / 2, m); }
  }

  lemma RoundsOfAll(n: nat)
    requires n > 0
    ensures CutRounds(n, n) == RoundCount(n)
  {
  }

  /* One row missing. */

  ghost predicate IsPowerOfTwo(n: int) {
    exists b: nat :: Pow2(b) == n
  }

  lemma CeilLog2Is(n: nat, c: nat)
    requires 0 < n <= Pow2(c) && (c > 0 ==> Pow2(c - 1) < n)
    ensures RoundCount(n) == c
  {
    RoundsIsCeilLog2(n);
    var r := RoundCount(n);
    assert n == 1 ==> r == 0;
    hide RoundCount, Pow2;
    if c < r { PowersInOrder(c, r - 1); }
    if r < c { PowersInOrder(r, c - 1); }
  }

  /** One row more needs one round more if the number of rows is a power of two, and none otherwise. */
  lemma OneMoreRow(n: nat)
    requires n > 0
    ensures RoundCount(n + 1) == RoundCount(n) + if IsPowerOfTwo(n) then 1 else 0
  {
    RoundsIsCeilLog2(n);
    var c := RoundCount(n);
    assert Pow2(0) == 1;
    if IsPowerOfTwo(n) {
      var b: nat :| Pow2(b) == n;
      assert b > 0 ==> Pow2(b) == 2 * Pow2(b - 1);
      CeilLog2Is(n, b);
      assert Pow2(b + 1) == 2 * Pow2(b);
      CeilLog2Is(n + 1, b + 1);
    } else {
      assert Pow2(c) != n;
      CeilLog2Is(n + 1, c);
    }
  }

  lemma SurvivorsOfOneLess(n: nat)
    requires n > 0
    ensures var s := Survivors(n + 1, n); s == if n <= 2 then n else n + 1
    ensures n > 2 && n + 1 == 2 * (n - 1) ==> RoundCount(n + 1) == RoundCount(n)
  {
  }

  /** Without its last row, a greedy tree needs one round more than the best tree on the rows that are left if their
      number is a power of two above two, and none otherwise. */
  lemma RoundsWithoutTheLast(n: nat)
    requires n > 0
    ensures CutRounds(n + 1, n) == RoundCount(n) + if n > 2 && IsPowerOfTwo(n) then 1 else 0
  {
    hide IsPowerOfTwo;
    SurvivorsOfOneLess(n);
    OneMoreRow(n);
    hide RoundCount, Survivors;
  }
}
