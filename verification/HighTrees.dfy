/** The high-level trees: across the `p` domains they reduce the band of rows `[k, k + p)`, cut off at
    the last row of the matrix, to the row `k`. All indices are global; `ldd` is the number of tile
    rows and the answer "none". */
module HighTrees {
  import opened Bits
  import B = BinaryTrees
  import opened Integers
  import opened ReductionTrees

  /** Fibonacci and the greedy tree computed for one panel share their lookups: one column of offsets
      from the diagonal serves every step. The pipelined greedy tree has a column of rows per step. */
  datatype HighKind =
    | HighFlat
    | HighBinary
    | HighOneColumn(offsets: seq<int>)
    | HighGreedy(ipiv: seq<seq<int>>)

  datatype HighArgs = HighArgs(lookups: HighKind, ldd: Pos, p: Pos)

  function BandEnd(g: HighArgs, k: int): int {
    Min(k + g.p, g.ldd)
  }

  /** One column of the pipelined greedy table: killers inside the band, zeros past the matrix. */
  ghost predicate BandColumn(column: seq<int>, k: int, p: int, ldd: int) {
    && |column| == p
    && (forall j :: 0 < j < p && k + j < ldd ==> k <= column[j] < k + j)
    && (forall j :: 0 < j < p && k + j >= ldd ==> column[j] == 0)
  }

  ghost predicate HasTree(g: HighArgs, k: int) {
    && 0 <= k < g.ldd && g.p > 1
    && match g.lookups {
         case HighFlat => true
         case HighBinary => true
         case HighOneColumn(offsets) => |offsets| == g.p && forall j :: 0 < j < g.p ==> 0 <= offsets[j] < j
         case HighGreedy(ipiv) => k < |ipiv| && BandColumn(ipiv[k], k, g.p, g.ldd)
       }
  }

  ghost function Killer(g: HighArgs, k: int, m: int): (r: int)
    requires HasTree(g, k) && k < m < BandEnd(g, k)
    ensures k <= r < m
  {
    match g.lookups
    case HighFlat => k
    case HighBinary => RemovedBitLeavesZeros(m - k); m - LowestBit(m - k)
    case HighOneColumn(offsets) => k + offsets[m - k]
    case HighGreedy(ipiv) => ipiv[k][m - k]
  }

  ghost function HighTree(g: HighArgs, k: int): (t: Tree)
    requires HasTree(g, k)
    ensures Valid(t)
  {
    Tree(k, BandEnd(g, k), g.ldd,
         m => if k < m < BandEnd(g, k) then Killer(g, k, m) else g.ldd,
         i => 0,
         i => g.lookups.HighFlat? || g.lookups.HighBinary?)
  }

  /* Flat tree. */

  /** Row `k` kills all other rows of the band, from the top down, and nobody else kills. */
  lemma FlatTreeIsFlat(g: HighArgs, k: int)
    requires HasTree(g, k) && g.lookups.HighFlat?
    ensures var t := HighTree(g, k); var end := Min(k + g.p, g.ldd);
      && IsFlat(t)
      && (forall m, s :: IsVictim(t, m, s) <==> m == k && k < s < end)
      && Walk(t, k, g.ldd) == seq(end - k - 1, i => k + 1 + i)
  {
    FlatTree(HighTree(g, k));
  }

  lemma BinaryTreeIsBinary(g: HighArgs, k: int)
    requires HasTree(g, k) && g.lookups.HighBinary?
    ensures B.IsBinary(HighTree(g, k))
  {
  }

  method FlatNextpiv(g: HighArgs, k: int, pivot: int, start: int) returns (r: int)
    requires HasTree(g, k) && g.lookups.HighFlat?
    requires IsRow(HighTree(g, k), pivot) && ForwardStart(HighTree(g, k), pivot, start)
    ensures IsNext(HighTree(g, k), pivot, start, r)
  {
    if pivot == k && g.ldd > 1 {
      if start == g.ldd {
        return pivot + 1;
      } else if start < g.ldd && start - k < g.p - 1 {
        return start + 1;
      }
    }
    return g.ldd;
  }

  method FlatPrevpiv(g: HighArgs, k: int, pivot: int, start: int) returns (r: int)
    requires HasTree(g, k) && g.lookups.HighFlat?
    requires IsRow(HighTree(g, k), pivot) && BackwardStart(HighTree(g, k), pivot, start)
    ensures IsPrev(HighTree(g, k), pivot, start, r)
  {
    if pivot == k && g.ldd > 1 {
      if start == pivot && pivot != g.ldd - 1 {
        return Min(pivot + g.p - 1, g.ldd - 1);
      } else if start > pivot + 1 && start - k < g.p {
        return start - 1;
      }
    }
    return g.ldd;
  }

  /* Binary tree. */

  method BinaryNextpiv(g: HighArgs, k: int, pivot: int, start: int) returns (r: int)
    requires HasTree(g, k) && g.lookups.HighBinary?
    requires IsRow(HighTree(g, k), pivot) && ForwardStart(HighTree(g, k), pivot, start)
    ensures IsNext(HighTree(g, k), pivot, start, r)
  {
    if start != g.ldd {
      var killer := B.FindKiller(k, start);
      if killer != pivot {
        return -1;
      }
    }
    if start <= pivot {
      return g.ldd;
    }
    r := B.FindNext(HighTree(g, k), k, Min(k + g.p, g.ldd), g.ldd, pivot, start);
  }

  method BinaryPrevpiv(g: HighArgs, k: int, pivot: int, start: int) returns (r: int)
    requires HasTree(g, k) && g.lookups.HighBinary?
    requires IsRow(HighTree(g, k), pivot) && BackwardStart(HighTree(g, k), pivot, start)
    ensures IsPrev(HighTree(g, k), pivot, start, r)
  {
    if start < pivot {
      return -1;
    }
    if start != pivot {
      var killer := B.FindKiller(k, start);
      if killer != pivot {
        return -1;
      }
    }
    r := B.FindPrev(HighTree(g, k), k, Min(k + g.p, g.ldd), g.ldd, pivot, start);
  }

  /* One column for all steps: fibonacci and the one-panel greedy tree. */

  /** What the searches need to know of a tree whose killers are in a table. */
  ghost predicate Spelled(t: Tree, k: int, end: int, none: int) {
    && Valid(t) && t.root == k && t.end == end && t.none == none
    && (forall u :: t.kind(u) == 0) && !t.ascending(0)
  }

  lemma OneColumnTree(g: HighArgs, offsets: seq<int>, k: int)
    requires HasTree(g, k) && g.lookups == HighOneColumn(offsets)
    ensures Spelled(HighTree(g, k), k, BandEnd(g, k), g.ldd) && 0 <= k < g.ldd && |offsets| == g.p
    ensures forall u :: k < u < BandEnd(g, k) ==> HighTree(g, k).killer(u) == k + offsets[u - k]
  {
  }

  method OneColumnNextpiv(g: HighArgs, offsets: seq<int>, k: int, pivot: int, start: int) returns (r: int)
    requires HasTree(g, k) && g.lookups == HighOneColumn(offsets)
    requires IsRow(HighTree(g, k), pivot) && ForwardStart(HighTree(g, k), pivot, start)
    ensures IsNext(HighTree(g, k), pivot, start, r)
  {
    OneColumnTree(g, offsets, k);
    hide HasTree, HighTree, Killer, Valid, IsNext, IsPrev, Later, Earlier;
    ghost var t := HighTree(g, k);
    if !(pivot >= k && (start == g.ldd || start - k <= g.p)) {
      return -1;
    }
    var i := Min(start - k - 1, g.p - 1);
    while i > 0
      invariant 0 <= i <= Min(start - k - 1, g.p - 1)
      invariant forall u :: IsVictim(t, pivot, u) && u < start ==> u <= i + k
    {
      if offsets[i] == pivot - k {
        assert t.killer(i + k) == k + offsets[i];
        HighestIsNext(t, pivot, start, i + k);
        return i + k;
      }
      i := i - 1;
    }
    HighestIsNext(t, pivot, start, g.ldd);
    return g.ldd;
  }

  method OneColumnPrevpiv(g: HighArgs, offsets: seq<int>, k: int, pivot: int, start: int) returns (r: int)
    requires HasTree(g, k) && g.lookups == HighOneColumn(offsets)
    requires IsRow(HighTree(g, k), pivot) && BackwardStart(HighTree(g, k), pivot, start)
    ensures IsPrev(HighTree(g, k), pivot, start, r)
  {
    OneColumnTree(g, offsets, k);
    hide HasTree, HighTree, Killer, Valid, IsNext, IsPrev, Later, Earlier;
    ghost var t := HighTree(g, k);
    if !(pivot >= k && start >= pivot && start - k <= g.p) {
      return -1;
    }
    var lp := pivot - k;
    var lstart := start - k;
    var end := Min(g.ldd - k, g.p);
    var i := lstart + 1;
    while i < end
      invariant lstart < i <= end
      invariant forall u :: start < u < i + k ==> !IsVictim(t, pivot, u)
    {
      if offsets[i] == lp {
        assert t.killer(i + k) == k + offsets[i];
        LowestIsPrev(t, pivot, start, i + k);
        return i + k;
      }
      i := i + 1;
    }
    LowestIsPrev(t, pivot, start, g.ldd);
    return g.ldd;
  }

  /* A column per step: the pipelined greedy tree. */

  lemma GreedyTree(g: HighArgs, ipiv: seq<seq<int>>, k: int)
    requires HasTree(g, k) && g.lookups == HighGreedy(ipiv)
    ensures Spelled(HighTree(g, k), k, BandEnd(g, k), g.ldd) && 0 <= k < g.ldd && k < |ipiv| && |ipiv[k]| == g.p
    ensures forall u :: k < u < BandEnd(g, k) ==> HighTree(g, k).killer(u) == ipiv[k][u - k]
    ensures forall j :: 0 < j < g.p && k + j >= g.ldd ==> ipiv[k][j] == 0
  {
  }

  method GreedyNextpiv(g: HighArgs, ipiv: seq<seq<int>>, k: int, pivot: int, start: int) returns (r: int)
    requires HasTree(g, k) && g.lookups == HighGreedy(ipiv)
    requires IsRow(HighTree(g, k), pivot) && ForwardStart(HighTree(g, k), pivot, start)
    ensures IsNext(HighTree(g, k), pivot, start, r)
  {
    GreedyTree(g, ipiv, k);
    hide HasTree, HighTree, Killer, Valid, IsNext, IsPrev, Later, Earlier;
    ghost var t := HighTree(g, k);
    if !((start >= k && start < k + g.p) || start == g.ldd) {
      return -1;
    }
    var i := Min(start - 1, k + g.p - 1);
    while i > k
      invariant k <= i <= Min(start - 1, k + g.p - 1)
      invariant forall u :: i < u < start ==> !IsVictim(t, pivot, u)
    {
      if ipiv[k][i - k] == pivot {
        assert t.killer(i) == ipiv[k][i - k];
        HighestIsNext(t, pivot, start, i);
        return i;
      }
      i := i - 1;
    }
    HighestIsNext(t, pivot, start, g.ldd);
    return g.ldd;
  }

  /** The scan runs to the width of the band, not to the end of the matrix. Past the matrix the table
      holds zeros, which name no pivot after step 0; at step 0 the first such place is `ldd` itself. */
  method GreedyPrevpiv(g: HighArgs, ipiv: seq<seq<int>>, k: int, pivot: int, start: int) returns (r: int)
    requires HasTree(g, k) && g.lookups == HighGreedy(ipiv)
    requires IsRow(HighTree(g, k), pivot) && BackwardStart(HighTree(g, k), pivot, start)
    ensures IsPrev(HighTree(g, k), pivot, start, r)
  {
    GreedyTree(g, ipiv, k);
    hide HasTree, HighTree, Killer, Valid, IsNext, IsPrev, Later, Earlier;
    ghost var t := HighTree(g, k);
    if !((start >= k && start < k + g.p) || start == pivot) {
      return -1;
    }
    var i := start - k + 1;
    while i < g.p
      invariant start - k < i <= g.p
      invariant forall u :: start < u < k + i ==> !IsVictim(t, pivot, u)
      invariant k == 0 && pivot == 0 ==> i <= g.ldd
    {
      if ipiv[k][i] == pivot {
        if k + i < g.ldd { assert t.killer(k + i) == ipiv[k][i]; }
        LowestIsPrev(t, pivot, start, k + i);
        return k + i;
      }
      i := i + 1;
    }
    LowestIsPrev(t, pivot, start, g.ldd);
    return g.ldd;
  }

  /* The function pointers. */

  method Currpiv(g: HighArgs, k: int, m: int) returns (r: int)
    requires HasTree(g, k) && k < m < BandEnd(g, k)
    ensures r == HighTree(g, k).killer(m)
  {
    match g.lookups
    case HighFlat => r := k;
    case HighBinary => r := B.FindKiller(k, m);
    case HighOneColumn(offsets) => r := offsets[m - k] + k;
    case HighGreedy(ipiv) =>
      if !(m >= k && m < k + g.p) {
        return -1;
      }
      r := ipiv[k][m - k];
  }

  method Nextpiv(g: HighArgs, k: int, pivot: int, start: int) returns (r: int)
    requires HasTree(g, k)
    requires IsRow(HighTree(g, k), pivot) && ForwardStart(HighTree(g, k), pivot, start)
    ensures IsNext(HighTree(g, k), pivot, start, r)
  {
    match g.lookups
    case HighFlat => r := FlatNextpiv(g, k, pivot, start);
    case HighBinary => r := BinaryNextpiv(g, k, pivot, start);
    case HighOneColumn(offsets) => r := OneColumnNextpiv(g, offsets, k, pivot, start);
    case HighGreedy(ipiv) => r := GreedyNextpiv(g, ipiv, k, pivot, start);
  }

  method Prevpiv(g: HighArgs, k: int, pivot: int, start: int) returns (r: int)
    requires HasTree(g, k)
    requires IsRow(HighTree(g, k), pivot) && BackwardStart(HighTree(g, k), pivot, start)
    ensures IsPrev(HighTree(g, k), pivot, start, r)
  {
    match g.lookups
    case HighFlat => r := FlatPrevpiv(g, k, pivot, start);
    case HighBinary => r := BinaryPrevpiv(g, k, pivot, start);
    case HighOneColumn(offsets) => r := OneColumnPrevpiv(g, offsets, k, pivot, start);
    case HighGreedy(ipiv) => r := GreedyPrevpiv(g, ipiv, k, pivot, start);
  }
}
