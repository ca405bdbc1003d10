/** The greedy tree of a single column: in every round the lower half of the live rows is killed by the
    rows just above it. The low-level, high-level and adaptive trees all build their tables with this
    loop when columns are treated one at a time. */
module GreedyColumn {
  import opened Bits
  import opened ReductionTrees
  import opened Rounds

  /** The killer of row `x` among rows `0..n`, and the round in which it strikes. */
  function Killer(n: nat, x: nat): (r: nat)
    requires 0 < x < n
    ensures r < x
  {
    if x >= n - n / 2 then x - n / 2 else Killer(n - n / 2, x)
  }

  function Round(n: nat, x: nat): nat
    requires 0 < x < n
  {
    if x >= n - n / 2 then 1 else Round(n - n / 2, x) + 1
  }

  function RoundCount(n: nat): nat {
    if n <= 1 then 0 else RoundCount(n - n / 2) + 1
  }

  /** The number of rounds is the logarithm of the number of rows, rounded up. */
  lemma {:induction false} RoundsIsCeilLog2(n: nat)
    requires n > 0
    ensures n <= Pow2(RoundCount(n))
    ensures n > 1 ==> Pow2(RoundCount(n) - 1) < n
  {
    if n > 2 { RoundsIsCeilLog2(n - n / 2); }
  }

  lemma {:induction false} RoundRange(n: nat, x: nat)
    requires 0 < x < n
    ensures 1 <= Round(n, x) <= RoundCount(n)
  {
    if x < n - n / 2 { RoundRange(n - n / 2, x); }
  }

  /** A killer outlives the round in which it kills; killers of one round are distinct, and one killer's
      victims come in decreasing order. */
  lemma {:induction false} RoundsArePossible(n: nat, x: nat, y: nat)
    requires 0 < x < y < n
    ensures Killer(n, y) > 0 ==> Round(n, y) < Round(n, Killer(n, y))
    ensures Killer(n, x) > 0 ==> Round(n, x) < Round(n, Killer(n, x))
    ensures Killer(n, x) == Killer(n, y) ==> Round(n, y) < Round(n, x)
  {
    var m := n - n / 2;
    if y < m {
      RoundsArePossible(m, x, y);
    } else if x < m {
      KillerOutlivesRound(m, x);
    }
  }

  lemma {:induction false} KillerOutlivesRound(n: nat, x: nat)
    requires 0 < x < n
    ensures Killer(n, x) < n - n / 2
    ensures Killer(n, x) > 0 ==> Round(n, x) < Round(n, Killer(n, x))
  {
    if x < n - n / 2 { KillerOutlivesRound(n - n / 2, x); }
  }

  /** The first rows of the greedy tree on `n` rows. */
  ghost predicate IsCut(t: Tree, n: int) {
    && Valid(t) && !t.ascending(0) && t.end - t.root <= n
    && forall s :: t.root < s < t.end ==> t.kind(s) == 0 && t.killer(s) == t.root + Killer(n, s - t.root)
  }

  ghost predicate IsGreedy(t: Tree) {
    IsCut(t, t.end - t.root)
  }

  ghost function RoundOf(t: Tree, n: int, s: int): int {
    if t.root < s < t.end <= t.root + n then Round(n, s - t.root) else 0
  }

  ghost function RoundsOf(t: Tree, n: int): int -> int {
    s => RoundOf(t, n, s)
  }

  lemma GreedyRow(t: Tree, n: nat, s: int)
    requires IsCut(t, n) && t.root < s < t.end
    ensures 1 <= RoundOf(t, n, s) <= RoundCount(n)
    ensures t.killer(s) != t.root ==> RoundOf(t, n, s) < RoundOf(t, n, t.killer(s))
  {
    hide Killer, Round, RoundCount;
    RoundRange(n, s - t.root);
    KillerOutlivesRound(n, s - t.root);
  }

  lemma GreedyPair(t: Tree, n: nat, s: int, u: int)
    requires IsCut(t, n) && t.root < s < t.end && t.root < u < t.end
    requires t.killer(s) == t.killer(u) && Before(t, s, u)
    ensures RoundOf(t, n, s) < RoundOf(t, n, u)
  {
    hide Killer, Round, RoundCount;
    RoundsArePossible(n, u - t.root, s - t.root);
  }

  lemma GreedyFits(t: Tree, n: nat)
    requires IsCut(t, n)
    ensures FitsInRounds(t, RoundsOf(t, n), RoundCount(n))
  {
    hide IsCut, RoundOf, RoundCount, Before;
    forall s | t.root < s < t.end
      ensures 1 <= RoundOf(t, n, s) <= RoundCount(n)
      ensures t.killer(s) != t.root ==> RoundOf(t, n, s) < RoundOf(t, n, t.killer(s))
    {
      GreedyRow(t, n, s);
    }
    forall s, u | t.root < s < t.end && t.root < u < t.end && t.killer(s) == t.killer(u) && Before(t, s, u)
      ensures RoundOf(t, n, s) < RoundOf(t, n, u)
    {
      GreedyPair(t, n, s, u);
    }
  }

  /** No tree whatever on `n` rows takes fewer rounds than `ceil(log2 n)`. */
  lemma NoTreeIsFaster(t: Tree, round: int -> int, count: nat)
    requires Valid(t) && FitsInRounds(t, round, count)
    ensures RoundCount(t.end - t.root) <= count
  {
    hide FitsInRounds, Pow2;
    var n := t.end - t.root;
    assert n > 0 && (n == 1 ==> RoundCount(n) == 0);
    RowsBound(t, round, count);
    RoundsIsCeilLog2(n);
    if count < RoundCount(n) && count + 1 < RoundCount(n) { Pow2Grows(count, RoundCount(n) - 1); }
  }

  /** The greedy tree of `n` rows takes `ceil(log2 n)` rounds, and no tree takes fewer. */
  lemma GreedyIsOptimal(t: Tree, other: Tree, round: int -> int, count: nat)
    requires IsGreedy(t)
    requires Valid(other) && other.end - other.root == t.end - t.root && FitsInRounds(other, round, count)
    ensures FitsInRounds(t, RoundsOf(t, t.end - t.root), RoundCount(t.end - t.root))
    ensures RoundCount(t.end - t.root) <= count
  {
    GreedyFits(t, t.end - t.root);
    NoTreeIsFaster(other, round, count);
  }

  /* The generator. */

  /** The table value of row `j` when the last `nT` of `top` rows are reduced. */
  function Entry(top: nat, nT: nat, j: int): int
    requires nT <= top && top - nT < j < top
  {
    top - nT + Killer(nT, j - (top - nT))
  }

  lemma KillerUnfolds(n: nat, x: nat)
    requires 0 < x < n
    ensures Killer(n, x) == if x >= n - n / 2 then x - n / 2 else Killer(n - n / 2, x)
  {
  }

  /** Fill the entries of the rows between `top - nT` and `top`, shifted by `off` in the array. */
  method Fill(col: array<int>, off: nat, top: nat, nT: nat)
    requires nT <= top && off + top <= col.Length
    modifies col
    ensures forall i :: off + top - nT < i < off + top ==> col[i] == Entry(top, nT, i - off)
    ensures forall i :: 0 <= i < col.Length && !(off + top - nT < i < off + top) ==> col[i] == old(col[i])
  {
    hide Killer;
    var nZ := 0;
    ghost var root := top - nT;
    while nZ < nT - 1
      invariant 0 <= nZ <= nT && (nT > 0 ==> nZ < nT)
      invariant forall x :: 0 < x < nT - nZ ==> Killer(nT, x) == Killer(nT - nZ, x)
      invariant forall i :: off + top - nZ <= i < off + top ==> col[i] == Entry(top, nT, i - off)
      invariant forall i :: 0 <= i < col.Length && !(off + top - nZ <= i < off + top) ==> col[i] == old(col[i])
      decreases nT - nZ
    {
      var height := (nT - nZ) / 2;
      var start := top - nZ - 1;
      var end := start - height;
      ghost var n := nT - nZ;
      forall x | 0 < x < n ensures Killer(nT, x) == if x >= n - height then x - height else Killer(n - height, x) {
        KillerUnfolds(n, x);
      }
      nZ := nZ + height;
      var j := start;
      while j > end
        invariant end <= j <= start
        invariant forall i :: off + j < i < off + top ==> col[i] == Entry(top, nT, i - off)
        invariant forall i :: 0 <= i < col.Length && !(off + j < i < off + top) ==> col[i] == old(col[i])
      {
        assert Killer(nT, j - root) == j - root - height;
        col[off + j] := j - height;
        j := j - 1;
      }
    }
  }

  /** A fresh column of `len` zeros, filled for the last `nT` of the `len` rows. */
  method Column(len: nat, nT: nat) returns (column: seq<int>)
    requires nT <= len
    ensures |column| == len
    ensures forall j :: len - nT < j < len ==> column[j] == Entry(len, nT, j)
    ensures forall j :: 0 <= j <= len - nT && j < len ==> column[j] == 0
  {
    var col := new int[len](i => 0);
    Fill(col, 0, len, nT);
    column := col[..];
  }
}
