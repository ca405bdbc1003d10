/** The low-level trees: inside one of the `p` domains they reduce the heads of the macro-tiles (groups
    of `a` consecutive local rows) to the macro-tile `k_a` that holds the domain's diagonal row.

    All indices here are local macro-tile indices; `ldd` is their number and the answer "none". */
module LowTrees {
  import opened Bits
  import B = BinaryTrees
  import opened Integers
  import opened ReductionTrees

  /** Which functions the `currpiv`/`nextpiv`/`prevpiv` pointers hold, and the `ipiv` table they read.
      The fibonacci table has one column per root; the greedy tables (pipelined, or one column at a
      time) have one per domain and step, or one per step when the domino tree is on. */
  datatype LowKind =
    | LowFlat
    | LowBinary
    | LowFibonacci(columns: seq<seq<int>>)
    | LowGreedy(ipiv: seq<seq<seq<int>>>)

  datatype LowArgs = LowArgs(lookups: LowKind, ldd: Pos, a: Pos, p: Pos, domino: bool)

  /** The entries of one table column lie between the root and the row they are for. */
  ghost predicate PointsDown(column: seq<int>, root: int, ldd: int) {
    |column| == ldd && forall i :: 0 <= i < ldd && root < i ==> root <= column[i] < i
  }

  function Slab(g: LowArgs, rank: int): int {
    if g.domino then 0 else rank
  }

  ghost predicate HasTree(g: LowArgs, k: int, rank: int, root: int) {
    && 0 <= root < g.ldd
    && match g.lookups {
         case LowFlat => true
         case LowBinary => true
         case LowFibonacci(columns) => root < |columns| && PointsDown(columns[root], root, g.ldd)
         case LowGreedy(ipiv) =>
           && 0 <= Slab(g, rank) < |ipiv| && 0 <= k < |ipiv[Slab(g, rank)]|
           && PointsDown(ipiv[Slab(g, rank)][k], root, g.ldd)
       }
  }

  ghost function Killer(g: LowArgs, k: int, rank: int, root: int, i: int): (r: int)
    requires HasTree(g, k, rank, root) && root < i < g.ldd
    ensures root <= r < i
  {
    match g.lookups
    case LowFlat => root
    case LowBinary => RemovedBitLeavesZeros(i - root); i - LowestBit(i - root)
    case LowFibonacci(columns) => columns[root][i]
    case LowGreedy(ipiv) => ipiv[Slab(g, rank)][k][i]
  }

  /** The tree of domain `rank` at step `k`: flat and binary trees take victims upwards, the
      table-driven ones downwards. */
  ghost function LowTree(g: LowArgs, k: int, rank: int, root: int): (t: Tree)
    requires HasTree(g, k, rank, root)
    ensures Valid(t)
  {
    Tree(root, g.ldd, g.ldd,
         i => if root < i < g.ldd then Killer(g, k, rank, root, i) else g.ldd,
         i => 0,
         i => g.lookups.LowFlat? || g.lookups.LowBinary?)
  }

  lemma BinaryTreeIsBinary(g: LowArgs, k: int, rank: int, root: int)
    requires HasTree(g, k, rank, root) && g.lookups.LowBinary?
    ensures B.IsBinary(LowTree(g, k, rank, root))
  {
  }

  /* Flat tree. */

  /** The root kills all macro-tiles below it, from the top down, and nobody else kills. */
  lemma FlatTreeIsFlat(g: LowArgs, k: int, rank: int, root: int)
    requires HasTree(g, k, rank, root) && g.lookups.LowFlat?
    ensures var t := LowTree(g, k, rank, root);
      && IsFlat(t)
      && (forall m, s :: IsVictim(t, m, s) <==> m == root && root < s < g.ldd)
      && Walk(t, root, g.ldd) == seq(g.ldd - root - 1, i => root + 1 + i)
  {
    FlatTree(LowTree(g, k, rank, root));
  }

  method FlatNextpiv(g: LowArgs, ghost k: int, ghost rank: int, k_a: int, p_pa: int, start: int) returns (r: int)
    requires HasTree(g, k, rank, k_a) && g.lookups.LowFlat?
    requires var t := LowTree(g, k, rank, k_a); IsRow(t, p_pa) && ForwardStart(t, p_pa, start)
    ensures IsNext(LowTree(g, k, rank, k_a), p_pa, start, r)
  {
    if start <= p_pa {
      return g.ldd;
    }
    if p_pa == k_a && g.ldd - k_a > 1 {
      if start == g.ldd {
        return p_pa + 1;
      } else if start < g.ldd {
        return start + 1;
      }
    }
    return g.ldd;
  }

  method FlatPrevpiv(g: LowArgs, ghost k: int, ghost rank: int, k_a: int, p_pa: int, start: int) returns (r: int)
    requires HasTree(g, k, rank, k_a) && g.lookups.LowFlat?
    requires var t := LowTree(g, k, rank, k_a); IsRow(t, p_pa) && BackwardStart(t, p_pa, start)
    ensures IsPrev(LowTree(g, k, rank, k_a), p_pa, start, r)
  {
    if p_pa == k_a && g.ldd - k_a > 1 {
      if start == p_pa {
        return g.ldd - 1;
      } else if start > p_pa + 1 {
        return start - 1;
      }
    }
    return g.ldd;
  }

  /* Binary tree. The position is first checked against the killer it should have; without the domino
     tree the C code computes that killer too but ignores it. */

  method BinaryNextpiv(g: LowArgs, ghost k: int, ghost rank: int, k_a: int, p_pa: int, start: int) returns (r: int)
    requires HasTree(g, k, rank, k_a) && g.lookups.LowBinary?
    requires var t := LowTree(g, k, rank, k_a); IsRow(t, p_pa) && ForwardStart(t, p_pa, start)
    ensures IsNext(LowTree(g, k, rank, k_a), p_pa, start, r)
  {
    ghost var t := LowTree(g, k, rank, k_a);
    BinaryTreeIsBinary(g, k, rank, k_a);
    if start != g.ldd && g.domino {
      var killer := B.FindKiller(k_a, start);
      if killer != p_pa {
        return -1;
      }
    }
    if start <= p_pa {
      return g.ldd;
    }
    r := B.FindNext(t, k_a, g.ldd, g.ldd, p_pa, start);
  }

  method BinaryPrevpiv(g: LowArgs, ghost k: int, ghost rank: int, k_a: int, p_pa: int, start: int) returns (r: int)
    requires HasTree(g, k, rank, k_a) && g.lookups.LowBinary?
    requires var t := LowTree(g, k, rank, k_a); IsRow(t, p_pa) && BackwardStart(t, p_pa, start)
    ensures IsPrev(LowTree(g, k, rank, k_a), p_pa, start, r)
  {
    ghost var t := LowTree(g, k, rank, k_a);
    BinaryTreeIsBinary(g, k, rank, k_a);
    if start < p_pa {
      return -1;
    }
    if start != p_pa && g.domino {
      var killer := B.FindKiller(k_a, start);
      if killer != p_pa {
        return -1;
      }
    }
    r := B.FindPrev(t, k_a, g.ldd, g.ldd, p_pa, start);
  }

  /* Table-driven trees: one column of the table is searched, downwards for the next victim and
     upwards for the previous one. */

  /** `t` is the tree that `column` spells out, with victims taken downwards. */
  ghost predicate SpelledOutBy(t: Tree, column: seq<int>, root: int, ldd: int) {
    && t.root == root && t.end == t.none == ldd == |column|
    && (forall i :: 0 <= i < ldd && root < i ==> t.killer(i) == column[i] && t.kind(i) == 0)
    && !t.ascending(0)
  }

  method ScanDown(ghost t: Tree, column: seq<int>, k_a: int, ldd: int, p_pa: int, start: int) returns (r: int)
    requires Valid(t) && 0 <= k_a && SpelledOutBy(t, column, k_a, ldd)
    requires IsRow(t, p_pa) && ForwardStart(t, p_pa, start)
    ensures IsNext(t, p_pa, start, r)
  {
    var i := start - 1;
    while i > k_a
      invariant k_a <= i < start <= ldd
      invariant forall u :: i < u < start ==> column[u] != p_pa
    {
      if column[i] == p_pa {
        return i;
      }
      i := i - 1;
    }
    return ldd;
  }

  method ScanUp(ghost t: Tree, column: seq<int>, ghost k_a: int, ldd: int, p_pa: int, start: int) returns (r: int)
    requires Valid(t) && 0 <= k_a && SpelledOutBy(t, column, k_a, ldd)
    requires IsRow(t, p_pa) && BackwardStart(t, p_pa, start)
    ensures IsPrev(t, p_pa, start, r)
  {
    var i := start + 1;
    while i < ldd
      invariant start < i <= ldd
      invariant forall u :: start < u < i ==> column[u] != p_pa
    {
      if column[i] == p_pa {
        return i;
      }
      i := i + 1;
    }
    return i;
  }

  /* The function pointers. */

  method Currpiv(g: LowArgs, k: int, rank: int, k_a: int, m_pa: int) returns (r: int)
    requires HasTree(g, k, rank, k_a) && k_a < m_pa < g.ldd
    ensures r == LowTree(g, k, rank, k_a).killer(m_pa)
  {
    match g.lookups
    case LowFlat => r := k_a;
    case LowBinary => r := B.FindKiller(k_a, m_pa);
    case LowFibonacci(columns) => r := columns[k_a][m_pa];
    case LowGreedy(ipiv) => r := ipiv[if g.domino then 0 else rank][k][m_pa];
  }

  method Nextpiv(g: LowArgs, k: int, rank: int, k_a: int, p_pa: int, start: int) returns (r: int)
    requires HasTree(g, k, rank, k_a)
    requires var t := LowTree(g, k, rank, k_a); IsRow(t, p_pa) && ForwardStart(t, p_pa, start)
    ensures IsNext(LowTree(g, k, rank, k_a), p_pa, start, r)
  {
    ghost var t := LowTree(g, k, rank, k_a);
    match g.lookups
    case LowFlat => r := FlatNextpiv(g, k, rank, k_a, p_pa, start);
    case LowBinary => r := BinaryNextpiv(g, k, rank, k_a, p_pa, start);
    case LowFibonacci(columns) => r := ScanDown(t, columns[k_a], k_a, g.ldd, p_pa, start);
    case LowGreedy(ipiv) => r := ScanDown(t, ipiv[if g.domino then 0 else rank][k], k_a, g.ldd, p_pa, start);
  }

  method Prevpiv(g: LowArgs, k: int, rank: int, k_a: int, p_pa: int, start: int) returns (r: int)
    requires HasTree(g, k, rank, k_a)
    requires var t := LowTree(g, k, rank, k_a); IsRow(t, p_pa) && BackwardStart(t, p_pa, start)
    ensures IsPrev(LowTree(g, k, rank, k_a), p_pa, start, r)
  {
    ghost var t := LowTree(g, k, rank, k_a);
    match g.lookups
    case LowFlat => r := FlatPrevpiv(g, k, rank, k_a, p_pa, start);
    case LowBinary => r := BinaryPrevpiv(g, k, rank, k_a, p_pa, start);
    case LowFibonacci(columns) => r := ScanUp(t, columns[k_a], k_a, g.ldd, p_pa, start);
    case LowGreedy(ipiv) => r := ScanUp(t, ipiv[if g.domino then 0 else rank][k], k_a, g.ldd, p_pa, start);
  }
}
