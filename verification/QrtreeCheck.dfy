/** The library's own consistency check of a tree, loop by loop. It returns 0 for every tree that the
    three constructors can build, and what it looks for holds of them. */
module QrtreeCheck {
  import opened Counting
  import opened QrTrees
  import opened ReductionTrees

  /** The number of factorizations announced is the number of rows that are not TS rows. */
  method CheckNumber(q: QrTree, k: nat) returns (check: bool, nb: int)
    requires AtStep(q, k)
    ensures check && nb == Heads(q, k, Rows(q))
  {
    hide KindAt, TreeAt, PlaceAt, AtStep, Ok;
    Shape(q, k);
    ghost var f := (u: int) => KindAt(q, k, u) > 0;
    nb := 0;
    var m := k;
    while m < Rows(q)
      invariant k <= m <= Rows(q) && nb == Count(f, k, m)
    {
      var kind := GetType(q, k, m);
      if kind > 0 {
        nb := nb + 1;
      }
      m := m + 1;
    }
    var announced := GetNbGeqrf(q, k);
    CountEqual(f, u => KindAt(q, k, u) > 0, k, Rows(q));
    check := nb == announced;
  }

  /** `geti` inverts `getm`, and for height one the rows are listed from top to bottom. The rows met are all
      that are not TS rows, each at its index. */
  method CheckIndices(q: QrTree, k: nat) returns (check: bool, rows: seq<int>)
    requires AtStep(q, k)
    ensures check && |rows| == Heads(q, k, Rows(q))
    ensures forall i :: 0 <= i < |rows| ==>
              k <= rows[i] < Rows(q) && KindAt(q, k, rows[i]) > 0 && IndexAt(q, k, rows[i]) == i
    ensures HeightField(q) == 1 ==> forall i, j :: 0 <= i < j < |rows| ==> rows[i] < rows[j]
  {
    hide KindAt, IndexAt, TreeAt, PlaceAt, RowAt, AtStep, Heads;
    Shape(q, k);
    check := true;
    var nb := GetNbGeqrf(q, k);
    var prevm := -1;
    var i := 0;
    rows := [];
    while i < nb
      invariant 0 <= i <= nb && check && |rows| == i
      invariant forall j :: 0 <= j < i ==>
                  k <= rows[j] < Rows(q) && KindAt(q, k, rows[j]) > 0 && IndexAt(q, k, rows[j]) == j
      invariant i > 0 ==> k <= prevm < Rows(q) && KindAt(q, k, prevm) > 0 && IndexAt(q, k, prevm) == i - 1
      invariant i == 0 ==> prevm == -1
    {
      var m := GetM(q, k, i);
      var i' := GetI(q, k, m);
      if i != i' {
        check := false;
      } else if HeightField(q) == 1 && (m < k || m < prevm) {
        IndexGrows(q, k, m, prevm);
        check := false;
      }
      prevm := m;
      rows := rows + [m];
      i := i + 1;
    }
    if HeightField(q) == 1 {
      forall i, j | 0 <= i < j < |rows| ensures rows[i] < rows[j] {
        if rows[j] < rows[i] { IndexGrows(q, k, rows[j], rows[i]); }
      }
    }
  }

  /** The search from `s` ends here: the answer is the end marker. */
  ghost function ExitsForward(q: QrTree, k: nat, m: int): int -> bool
    requires AtStep(q, k)
  {
    s => NextRow(q, k, m, s) == Rows(q)
  }

  ghost function ExitsBackward(q: QrTree, k: nat, m: int): int -> bool
    requires AtStep(q, k)
  {
    s => PrevRow(q, k, m, s) == Rows(q)
  }

  ghost predicate StepsAreUndone(q: QrTree, k: nat, m: int)
    requires AtStep(q, k)
  {
    forall s :: k <= s <= Rows(q) && AsksForward(q, k, m, s) ==>
      PrevRow(q, k, m, if NextRow(q, k, m, s) == Rows(q) then m else NextRow(q, k, m, s)) == s
  }

  /** Exactly one position exits forward: the last victim, or the end marker itself for a row that kills
      nobody. */
  lemma OneExitForward(q: QrTree, k: nat, m: int)
    requires AtStep(q, k) && k <= m < Rows(q)
    ensures Count(ExitsForward(q, k, m), k + 1, Rows(q) + 1) == 1
  {
    hide AtStep, AsksForward, AsksBackward, NextRow, PrevRow;
    AsksFromEnds(q, k, m);
    var exit := PrevRow(q, k, m, m);
    BackThenForward(q, k, m, m);
    forall s | k < s <= Rows(q) ensures NextRow(q, k, m, s) == Rows(q) <==> s == exit {
      if AsksForward(q, k, m, s) { ForwardThenBack(q, k, m, s); } else { NoAnswerForward(q, k, m, s); }
    }
    CountOne(ExitsForward(q, k, m), k + 1, Rows(q) + 1, exit);
  }

  /** Likewise backward: the first victim, or the killer itself when it kills nobody. */
  lemma OneExitBackward(q: QrTree, k: nat, m: int)
    requires AtStep(q, k) && k <= m < Rows(q)
    ensures Count(ExitsBackward(q, k, m), k, Rows(q)) == 1
  {
    hide AtStep, AsksForward, AsksBackward, NextRow, PrevRow;
    AsksFromEnds(q, k, m);
    var n := NextRow(q, k, m, Rows(q));
    var exit := if n == Rows(q) then m else n;
    ForwardThenBack(q, k, m, Rows(q));
    forall s | k <= s < Rows(q) ensures PrevRow(q, k, m, s) == Rows(q) <==> s == exit {
      if AsksBackward(q, k, m, s) { BackThenForward(q, k, m, s); } else { NoAnswerBackward(q, k, m, s); }
    }
    CountOne(ExitsBackward(q, k, m), k, Rows(q), exit);
  }

  lemma AsksFromEnds(q: QrTree, k: nat, m: int)
    requires AtStep(q, k) && k <= m < Rows(q)
    ensures AsksForward(q, k, m, Rows(q)) && AsksBackward(q, k, m, m)
  {
  }

  lemma NoAnswerForward(q: QrTree, k: nat, m: int, s: int)
    requires AtStep(q, k) && !AsksForward(q, k, m, s)
    ensures NextRow(q, k, m, s) == -1
  {
  }

  lemma NoAnswerBackward(q: QrTree, k: nat, m: int, s: int)
    requires AtStep(q, k) && !AsksBackward(q, k, m, s)
    ensures PrevRow(q, k, m, s) == -1
  {
  }

  lemma EveryStepIsUndone(q: QrTree, k: nat, m: int)
    requires AtStep(q, k) && k <= m < Rows(q)
    ensures StepsAreUndone(q, k, m)
  {
    hide AtStep, AsksForward, NextRow, PrevRow;
    forall s | k <= s <= Rows(q) && AsksForward(q, k, m, s)
      ensures PrevRow(q, k, m, if NextRow(q, k, m, s) == Rows(q) then m else NextRow(q, k, m, s)) == s
    {
      ForwardThenBack(q, k, m, s);
    }
  }

  /** Of all positions from which the next victim of `m` can be asked for, exactly one has none. */
  method CheckExitNext(q: QrTree, k: nat, m: nat) returns (nb: int)
    requires AtStep(q, k) && k <= m < Rows(q)
    ensures nb == Count(ExitsForward(q, k, m), k + 1, Rows(q) + 1) == 1
  {
    hide AtStep, TreeAt, PlaceAt, RowAt, AsksForward, NextRow, PrevRow, IsNext, IsPrev, IsVictim;
    OneExitForward(q, k, m);
    ghost var f := ExitsForward(q, k, m);
    nb := 0;
    var s := Rows(q);
    while s > k
      invariant k <= s <= Rows(q) && nb == Count(f, s + 1, Rows(q) + 1)
    {
      var next := Nextpiv(q, k, m, s);
      CountFromBelow(f, s, Rows(q) + 1);
      if next == Rows(q) {
        nb := nb + 1;
      }
      s := s - 1;
    }
  }

  /** Likewise for the previous victim. */
  method CheckExitPrev(q: QrTree, k: nat, m: nat) returns (nb: int)
    requires AtStep(q, k) && k <= m < Rows(q)
    ensures nb == Count(ExitsBackward(q, k, m), k, Rows(q)) == 1
  {
    hide AtStep, TreeAt, PlaceAt, RowAt, AsksBackward, NextRow, PrevRow, IsNext, IsPrev, IsVictim;
    OneExitBackward(q, k, m);
    ghost var f := ExitsBackward(q, k, m);
    nb := 0;
    var s := k;
    while s < Rows(q)
      invariant k <= s <= Rows(q) && nb == Count(f, k, s)
    {
      var prev := Prevpiv(q, k, m, s);
      if prev == Rows(q) {
        nb := nb + 1;
      }
      s := s + 1;
    }
  }

  /** Walk through the victims of `m` from `mt` back to `mt`, checking that every step forward is undone
      by a step back. */
  method CheckWalk(q: QrTree, k: nat, m: nat, start0: nat) returns (check: bool, start: nat)
    requires AtStep(q, k) && k <= m < Rows(q) && start0 == Rows(q)
    ensures check && StepsAreUndone(q, k, m) && start == Rows(q)
  {
    hide TreeAt, PlaceAt, AtStep, AsksForward, NextRow, PrevRow;
    Shape(q, k);
    EveryStepIsUndone(q, k, m);
    AsksFromEnds(q, k, m);
    ghost var t, pm := TreeAt(q, k), PlaceAt(q, k, m);
    start := start0;
    while true
      invariant k <= start <= Rows(q) && AsksForward(q, k, m, start)
      decreases |Remaining(t, pm, PlaceAt(q, k, start))|
    {
      ForwardThenBack(q, k, m, start);
      NextByPlaces(q, k, m, start);
      var next := Nextpiv(q, k, m, start);
      Places(q, k, next);
      var prev;
      if next == Rows(q) {
        prev := Prevpiv(q, k, m, m);
      } else {
        prev := Prevpiv(q, k, m, next);
      }
      if start != prev {
        return false, start;
      }
      if next != Rows(q) { WalkAdvances(t, pm, PlaceAt(q, k, start)); }
      start := next;
      if start == Rows(q) {
        return true, start;
      }
    }
  }

  /** What the checks of the lookups say about row `m` of step `k`. */
  ghost predicate LinksOk(q: QrTree, k: nat, m: int)
    requires AtStep(q, k)
  {
    && Count(ExitsForward(q, k, m), k + 1, Rows(q) + 1) == 1
    && Count(ExitsBackward(q, k, m), k, Rows(q)) == 1
    && StepsAreUndone(q, k, m)
  }

  /** Every tree the three constructors can build is consistent, at every step and row. */
  lemma LinksAreOk(q: QrTree, k: nat, m: int)
    requires AtStep(q, k) && k <= m < Rows(q)
    ensures LinksOk(q, k, m)
  {
    hide AtStep;
    OneExitForward(q, k, m);
    OneExitBackward(q, k, m);
    EveryStepIsUndone(q, k, m);
  }

  /** All checks, for all steps. */
  method Check(q: QrTree) returns (rc: int)
    requires Ok(q)
    ensures rc == 0
    ensures forall k: nat, m :: k < Steps(q) && k <= m < Rows(q) ==> LinksOk(q, k, m)
  {
    hide Ok, TreeAt, PlaceAt, RowAt, NextRow, PrevRow, AsksForward, AsksBackward, LinksOk, StepsAreUndone;
    forall k: nat, m | k < Steps(q) && k <= m < Rows(q) ensures LinksOk(q, k, m) { LinksAreOk(q, k, m); }
    var minMN := Steps(q);
    var k := 0;
    while k < minMN
    {
      var check, _ := CheckNumber(q, k);
      if !check {
        return 1;
      }
      k := k + 1;
    }
    k := 0;
    while k < minMN
    {
      var check, _ := CheckIndices(q, k);
      if !check {
        return 2;
      }
      k := k + 1;
    }
    k := 0;
    while k < minMN
    {
      var m := k;
      while m < Rows(q)
      {
        var nb := CheckExitNext(q, k, m);
        if nb > 1 {
          return 3;
        } else if nb == 0 {
          return 3;
        }
        m := m + 1;
      }
      k := k + 1;
    }
    k := 0;
    while k < minMN
    {
      var m := k;
      while m < Rows(q)
      {
        var nb := CheckExitPrev(q, k, m);
        if nb > 1 {
          return 3;
        } else if nb == 0 {
          return 3;
        }
        m := m + 1;
      }
      k := k + 1;
    }
    k := 0;
    while k < minMN
    {
      var start := Rows(q);
      var m := k;
      while m < Rows(q)
        invariant k <= m && start == Rows(q)
      {
        var check;
        check, start := CheckWalk(q, k, m, start);
        if !check {
          return 3;
        }
        m := m + 1;
      }
      k := k + 1;
    }
    return 0;
  }
}
