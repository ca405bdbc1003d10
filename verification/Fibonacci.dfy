/** The fibonacci tables: rows come in groups of 1, 2, 3, ... below the root, and every row of group
    `f` is killed by the row `f` places above it. */
module Fibonacci {
  import opened Integers
  import opened ReductionTrees
  import opened Rounds
  import Low = LowTrees
  import T = Tables

  function Triangle(f: nat): nat {
    if f == 0 then 0 else Triangle(f - 1) + f
  }

  lemma {:induction false} TriangleGrows(f: nat, f': nat)
    requires f < f'
    ensures Triangle(f) + f' <= Triangle(f')
  {
    if f + 1 < f' { TriangleGrows(f, f' - 1); }
  }

  /** The least `f` with `x <= f * (f + 1) / 2`: the group of the row `x` places below the root. */
  function Group(x: nat): (f: nat)
    ensures x <= Triangle(f)
    ensures forall g: nat :: g < f ==> Triangle(g) < x
  {
    GroupFrom(x, 0)
  }

  function GroupFrom(x: nat, f: nat): (r: nat)
    requires forall g: nat :: g < f ==> Triangle(g) < x
    ensures f <= r && x <= Triangle(r)
    ensures forall g: nat :: g < r ==> Triangle(g) < x
    decreases x - Triangle(f)
  {
    if x <= Triangle(f) then f else GroupFrom(x, f + 1)
  }

  lemma GroupIs(x: nat, f: nat)
    requires 0 < f && Triangle(f - 1) < x <= Triangle(f)
    ensures Group(x) == f
  {
    assert Group(x) > f ==> Triangle(f) < x;
    if Group(x) < f - 1 { TriangleGrows(Group(x), f - 1); }
  }

  lemma {:induction false} TriangleFormula(f: nat)
    ensures 2 * Triangle(f) == f * (f + 1)
  {
    if f > 0 { TriangleFormula(f - 1); }
  }

  /** One column: `ipiv[m] = m - Group(m)`. */
  method FirstColumn(mt: nat) returns (ipiv: array<int>)
    ensures fresh(ipiv) && ipiv.Length == mt
    ensures mt > 0 ==> ipiv[0] == 0
    ensures forall m :: 0 < m < mt ==> ipiv[m] == m - Group(m) && 0 <= ipiv[m] < m
  {
    ipiv := new int[mt](i => 0);
    var f1: nat := 1;
    var m := 1;
    while m < mt
      invariant 1 <= f1 && 1 <= m
      invariant m < mt ==> m == Triangle(f1 - 1) + 1
      invariant mt > 0 ==> ipiv[0] == 0
      invariant forall i :: 0 < i < m && i < mt ==> ipiv[i] == i - Group(i) && 0 <= ipiv[i] < i
      decreases mt - m
    {
      var k := 0;
      while k < f1 && m < mt
        invariant 0 <= k <= f1 && m == Triangle(f1 - 1) + 1 + k && 1 <= m <= mt
        invariant ipiv[0] == 0
        invariant forall i :: 0 < i < m ==> ipiv[i] == i - Group(i) && 0 <= ipiv[i] < i
      {
        GroupIs(m, f1);
        GroupIsSmall(m);
        ipiv[m] := m - f1;
        k := k + 1;
        m := m + 1;
      }
      f1 := f1 + 1;
    }
  }

  lemma GroupIsSmall(x: nat)
    requires x > 0
    ensures 0 < Group(x) <= x
  {
    TriangleAtLeast(x);
    assert Group(x) > x ==> Triangle(x) < x;
  }

  lemma {:induction false} TriangleAtLeast(x: nat)
    ensures Triangle(x) >= x
  {
    if x > 0 { TriangleAtLeast(x - 1); }
  }

  ghost predicate ColumnIs(column: seq<int>, root: nat) {
    forall m :: root < m < |column| ==> column[m] == m - Group(m - root) && root <= column[m] < m
  }

  /** Row `m` of column `c` of the table: the first column moved down by `c` rows and values. */
  function Entry(c: nat, m: nat): int {
    if c < m then m - Group(m - c) else 0
  }

  lemma EntryMovesDown(c: nat, m: nat)
    ensures m <= c ==> Entry(c, m) == 0
    ensures 0 < c < m ==> Entry(c, m) == Entry(c - 1, m - 1) + 1
  {
  }

  /** Column `k` from the column before it. */
  method MoveDown(ipiv: array2<int>, prev: nat, k: nat)
    requires k == prev + 1 < ipiv.Length0
    requires forall i :: 0 <= i < ipiv.Length1 ==> ipiv[prev, i] == Entry(prev, i) && ipiv[k, i] == 0
    modifies ipiv
    ensures forall i :: 0 <= i < ipiv.Length1 ==> ipiv[k, i] == Entry(k, i)
    ensures forall c, i :: 0 <= c < ipiv.Length0 && 0 <= i < ipiv.Length1 && c != k ==> ipiv[c, i] == old(ipiv[c, i])
  {
    hide Entry;
    var m := k + 1;
    forall i | 0 <= i <= k ensures Entry(k, i) == 0 { EntryMovesDown(k, i); }
    while m < ipiv.Length1
      invariant k + 1 <= m
      invariant forall i :: 0 <= i < ipiv.Length1 ==> ipiv[prev, i] == Entry(prev, i)
      invariant forall i :: 0 <= i < m && i < ipiv.Length1 ==> ipiv[k, i] == Entry(k, i)
      invariant forall c, i :: 0 <= c < ipiv.Length0 && 0 <= i < ipiv.Length1 && c != k ==>
                ipiv[c, i] == old(ipiv[c, i])
    {
      EntryMovesDown(k, m);
      ipiv[k, m] := ipiv[prev, m - 1] + 1;
      m := m + 1;
    }
  }

  /** The table of the low-level tree: column `k` is column `k - 1` moved down by one row and one value. */
  method LowInit(mt: Pos, minMN: nat) returns (columns: seq<seq<int>>)
    requires minMN > 0
    ensures |columns| == minMN
    ensures forall c :: 0 <= c < minMN ==>
              |columns[c]| == mt && ColumnIs(columns[c], c) && Low.PointsDown(columns[c], c, mt)
  {
    hide Group;
    var ipiv := new int[minMN, mt]((k, m) => 0);
    var first := FirstColumn(mt);
    forall m | 0 <= m < mt { ipiv[0, m] := first[m]; }
    assert forall i :: 0 <= i < mt ==> ipiv[0, i] == Entry(0, i);
    hide Entry;
    var k := 1;
    while k < minMN
      invariant 1 <= k <= minMN
      invariant forall c, i :: 0 <= c < k && 0 <= i < mt ==> ipiv[c, i] == Entry(c, i)
      invariant forall c, i :: k <= c < minMN && 0 <= i < mt ==> ipiv[c, i] == 0
    {
      MoveDown(ipiv, k - 1, k);
      k := k + 1;
    }
    columns := T.Rows(ipiv);
    forall c | 0 <= c < minMN ensures ColumnIs(columns[c], c) && Low.PointsDown(columns[c], c, mt) {
      ReadColumn(columns[c], c);
    }
  }

  lemma ReadColumn(column: seq<int>, c: nat)
    requires forall i :: 0 <= i < |column| ==> column[i] == Entry(c, i)
    ensures ColumnIs(column, c) && Low.PointsDown(column, c, |column|)
  {
    forall m | c < m < |column| ensures column[m] == m - Group(m - c) && c <= column[m] < m {
      GroupIsSmall(m - c);
    }
  }

  method HighInit(p: Pos) returns (offsets: seq<int>)
    ensures |offsets| == p
    ensures forall j :: 0 < j < p ==> offsets[j] == j - Group(j) && 0 <= offsets[j] < j
  {
    var ipiv := FirstColumn(p);
    offsets := ipiv[..];
  }

  /* What the tree achieves. */

  ghost predicate IsFibonacci(t: Tree) {
    && Valid(t) && !t.ascending(0)
    && forall s :: t.root < s < t.end ==> t.kind(s) == 0 && t.killer(s) == s - Group(s - t.root)
  }

  /** Rows of one group have distinct killers, all of them in earlier groups: group by group, from the
      last, the tree needs as many rounds as there are groups. */
  lemma OneRoundPerGroup(t: Tree, s: int, u: int)
    requires IsFibonacci(t) && t.root < s < u < t.end
    ensures t.killer(u) != t.root ==> Group(t.killer(u) - t.root) < Group(u - t.root)
    ensures t.killer(s) == t.killer(u) ==> Group(s - t.root) < Group(u - t.root)
    ensures Group(s - t.root) <= Group(u - t.root)
  {
    var f := Group(u - t.root);
    GroupIsSmall(u - t.root);
    assert Triangle(f) == Triangle(f - 1) + f;
    assert t.killer(u) - t.root <= Triangle(f - 1);
    var g := Group(s - t.root);
    assert g > f ==> Triangle(f) < s - t.root;
    var x := t.killer(u) - t.root;
    var before: nat := f - 1;
    assert Group(x) > before ==> Triangle(before) < x;
  }

  /** The round in which row `s` dies when the groups are worked off from the last to the first. */
  ghost function Round(t: Tree, s: int): int {
    if t.root < s < t.end then Group(t.end - t.root - 1) + 1 - Group(s - t.root) else 0
  }

  ghost function RoundsOf(t: Tree): int -> int {
    s => Round(t, s)
  }

  lemma FibonacciRow(t: Tree, s: int)
    requires IsFibonacci(t) && t.root < s < t.end
    ensures 1 <= Round(t, s) <= Group(t.end - t.root - 1)
    ensures t.killer(s) != t.root ==> Round(t, s) < Round(t, t.killer(s))
  {
    hide Triangle, Group;
    GroupIsSmall(s - t.root);
    if s < t.end - 1 { OneRoundPerGroup(t, s, t.end - 1); }
    if t.killer(s) != t.root { OneRoundPerGroup(t, t.killer(s), s); }
  }

  lemma FibonacciPair(t: Tree, s: int, u: int)
    requires IsFibonacci(t) && t.root < s < t.end && t.root < u < t.end
    requires t.killer(s) == t.killer(u) && Before(t, s, u)
    ensures Round(t, s) < Round(t, u)
  {
    hide Triangle, Group;
    OneRoundPerGroup(t, u, s);
  }

  lemma FibonacciRounds(t: Tree)
    requires IsFibonacci(t) && t.root + 1 < t.end
    ensures FitsInRounds(t, RoundsOf(t), Group(t.end - t.root - 1))
    ensures var n := t.end - t.root; var count := Group(n - 1);
      n - 1 <= Triangle(count) && forall g: nat :: g < count ==> Triangle(g) < n - 1
  {
    hide IsFibonacci, Round, Before, Triangle;
    var count := Group(t.end - t.root - 1);
    forall s | t.root < s < t.end
      ensures 1 <= Round(t, s) <= count
      ensures t.killer(s) != t.root ==> Round(t, s) < Round(t, t.killer(s))
    {
      FibonacciRow(t, s);
    }
    forall s, u | t.root < s < t.end && t.root < u < t.end && t.killer(s) == t.killer(u) && Before(t, s, u)
      ensures Round(t, s) < Round(t, u)
    {
      FibonacciPair(t, s, u);
    }
  }

  /* And no fewer rounds are enough. */

  lemma {:induction false} TriangleStep(f: nat)
    ensures f > 0 ==> Group(Triangle(f)) == f && Triangle(f) - f == Triangle(f - 1)
    ensures Group(Triangle(f) + 1) == f + 1
  {
    GroupIs(Triangle(f) + 1, f + 1);
    if f > 0 { GroupIs(Triangle(f), f); }
  }

  /** The last rows of the groups kill each other in a chain; the row after one of them has the same killer and
      dies first. */
  lemma LastRowOfGroup(t: Tree, f: nat)
    requires IsFibonacci(t) && f > 0 && t.root + Triangle(f) < t.end
    ensures t.root < t.root + Triangle(f) && t.killer(t.root + Triangle(f)) == t.root + Triangle(f - 1)
    ensures var last := t.root + Triangle(f);
      last + 1 < t.end ==> t.killer(last + 1) == t.killer(last) && Before(t, last + 1, last)
  {
    hide Group, Valid;
    TriangleAtLeast(f);
    TriangleStep(f);
  }

  lemma {:induction false} ChainTakesRounds(t: Tree, round: int -> int, count: nat, f: nat)
    requires IsFibonacci(t) && FitsInRounds(t, round, count) && 0 < f < Group(t.end - t.root - 1)
    ensures t.root < t.root + Triangle(f) < t.end
    ensures round(t.root + Triangle(f)) >= Group(t.end - t.root - 1) + 1 - f
    decreases Group(t.end - t.root - 1) - f
  {
    hide FitsInRounds, Triangle, IsFibonacci, Before;
    var groups := Group(t.end - t.root - 1);
    assert Triangle(f) < t.end - t.root - 1;
    LastRowOfGroup(t, f);
    if f == groups - 1 {
      RoundsAreOrdered(t, round, count, t.root + Triangle(f) + 1, t.root + Triangle(f));
    } else {
      ChainTakesRounds(t, round, count, f + 1);
      LastRowOfGroup(t, f + 1);
      RoundsAreOrdered(t, round, count, t.root + Triangle(f + 1), t.root);
    }
  }

  lemma NoFewerRounds(t: Tree, round: int -> int, count: nat)
    requires IsFibonacci(t) && FitsInRounds(t, round, count)
    ensures Group(t.end - t.root - 1) <= count
  {
    hide FitsInRounds, Triangle;
    var groups := Group(t.end - t.root - 1);
    if groups > 1 {
      ChainTakesRounds(t, round, count, 1);
      RoundsAreOrdered(t, round, count, t.root + Triangle(1), t.root);
    } else if groups == 1 {
      TriangleAtLeast(0);
      OneRowHasNoGroup();
      RoundsAreOrdered(t, round, count, t.root + 1, t.root);
    }
  }

  lemma OneRowHasNoGroup()
    ensures Group(0) == 0
  {
  }

  /** The tree fits in a number of rounds if and only if that many groups reach its last row. */
  lemma FibonacciExactly(t: Tree, count: nat)
    requires IsFibonacci(t)
    ensures CanFit(t, count) <==> t.end - t.root - 1 <= Triangle(count)
  {
    hide Triangle, FitsInRounds;
    var groups := Group(t.end - t.root - 1);
    if groups < count { TriangleGrows(groups, count); }
    if groups <= count {
      if t.root + 1 < t.end { FibonacciRounds(t); } else { NoKills(t, RoundsOf(t), groups); }
      FitsInMoreRounds(t, RoundsOf(t), groups, count);
    }
    if CanFit(t, count) {
      var round: int -> int :| FitsInRounds(t, round, count);
      NoFewerRounds(t, round, count);
    }
  }
}
