/** The hierarchical tree: its data, the permutation lookup, the kinds of rows, and the three pivot
    lookups, each proved to answer as the step tree of Composition says. */
module HqrTrees {
  import opened Composition
  import opened Hierarchy
  import opened Integers
  import opened PanelIndex
  import opened ReductionTrees
  import RR = RoundRobin
  import Low = LowTrees
  import High = HighTrees

  datatype Option<+T> = None | Some(value: T)

  /** `perm` has one row per step, of length `mt + 1`; `high` is absent when there is one domain. */
  datatype HqrTree = HqrTree(
    mt: Pos, nt: Pos, a: Pos, p: Pos, domino: bool, tsrr: bool,
    perm: seq<seq<int>>, low: Low.LowArgs, high: Option<High.HighArgs>)

  function Steps(q: HqrTree): int {
    Min(q.mt, q.nt)
  }

  function FrameOf(q: HqrTree, k: nat): Frame {
    Frame(q.mt, q.p, q.a, q.domino, k, q.low.ldd)
  }

  /** The permutation table of step `k` holds the rotation of that step, or the identity. */
  ghost predicate HasPermutation(q: HqrTree, k: nat) {
    k < Steps(q) && k < |q.perm| && RR.IsPermRow(FrameOf(q, k), q.tsrr, q.perm[k])
  }

  /** The permutation sends places to rows. The trees work on places; callers speak of rows. */
  ghost function PlaceOf(q: HqrTree, k: nat, m: int): int {
    RR.Unpermuted(FrameOf(q, k), q.tsrr, m)
  }

  ghost function RowOf(q: HqrTree, k: nat, i: int): int {
    RR.Permuted(FrameOf(q, k), q.tsrr, i)
  }

  lemma PlacesAndRows(q: HqrTree, k: nat, m: int)
    requires k < q.mt && k <= m <= q.mt
    ensures k <= PlaceOf(q, k, m) <= q.mt && RowOf(q, k, PlaceOf(q, k, m)) == m
    ensures k <= RowOf(q, k, m) <= q.mt && PlaceOf(q, k, RowOf(q, k, m)) == m
    ensures PlaceOf(q, k, m) == q.mt <==> m == q.mt
    ensures RowOf(q, k, m) == q.mt <==> m == q.mt
    ensures m < q.mt && Kind(FrameOf(q, k), m) >= 2 ==> PlaceOf(q, k, m) == m == RowOf(q, k, m)
    ensures PlaceOf(q, k, m) == k <==> m == k
    ensures !q.tsrr ==> PlaceOf(q, k, m) == m
  {
    var fr := FrameOf(q, k);
    RR.PermutationIsABijection(fr, q.tsrr, m);
    RR.PermutationIsABijection(fr, q.tsrr, PlaceOf(q, k, m));
    RR.PermutationIsABijection(fr, q.tsrr, k);
    Landmarks(fr);
    if m < q.mt && m < DenseEnd(fr) { RR.DenseIsFixed(fr, m); }
  }

  /** Blocks of one local row cannot be rotated. */
  lemma SingleRowsStay(q: HqrTree, k: nat, m: int)
    requires q.a == 1 && k < q.mt && k <= m <= q.mt
    ensures PlaceOf(q, k, m) == m
  {
    PlacesAndRows(q, k, m);
    RR.PermutationIsABijection(FrameOf(q, k), q.tsrr, m);
  }

  ghost predicate StepOk(q: HqrTree, k: nat) {
    && Fits(FrameOf(q, k))
    && HasPermutation(q, k)
    && q.low.a == q.a && q.low.p == q.p && q.low.domino == q.domino
    && (forall rank :: 0 <= rank < q.p && Root(FrameOf(q, k), rank) < q.low.ldd ==>
          Low.HasTree(q.low, k, rank, Root(FrameOf(q, k), rank)))
    && (q.high.Some? <==> q.p > 1)
    && (q.high.Some? ==> q.high.value.ldd == q.mt && q.high.value.p == q.p && High.HasTree(q.high.value, k))
  }

  ghost predicate Ok(q: HqrTree) {
    forall k :: 0 <= k < Steps(q) ==> StepOk(q, k)
  }

  ghost function LowLevel(q: HqrTree, k: nat, rank: int): Tree {
    if 0 <= rank < q.p && Low.HasTree(q.low, k, rank, Root(FrameOf(q, k), rank)) then
      Low.LowTree(q.low, k, rank, Root(FrameOf(q, k), rank))
    else
      Tree(0, 1, 1, i => 0, i => 0, i => true)
  }

  ghost function LevelsOf(q: HqrTree, k: nat): Levels
    requires StepOk(q, k)
  {
    Levels(rank => LowLevel(q, k, rank), q.low.lookups.LowFlat? || q.low.lookups.LowBinary?,
           if q.high.Some? then High.HighTree(q.high.value, k) else Tree(k, k + 1, q.mt, i => k, i => 0, i => true),
           q.high.Some? ==> q.high.value.lookups.HighFlat? || q.high.value.lookups.HighBinary?)
  }

  ghost function TreeOf(q: HqrTree, k: nat): Tree
    requires StepOk(q, k)
  {
    StepTree(FrameOf(q, k), LevelsOf(q, k))
  }

  lemma LevelsAreOk(q: HqrTree, k: nat)
    requires StepOk(q, k)
    ensures Composition.Ok(FrameOf(q, k), LevelsOf(q, k))
    ensures Valid(TreeOf(q, k))
  {
    var fr, lv := FrameOf(q, k), LevelsOf(q, k);
    forall rank | 0 <= rank < q.p && Root(fr, rank) < fr.ldd
      ensures LowFits(fr, lv.low(rank), rank, lv.lowAscending)
    {
      assert lv.low(rank) == Low.LowTree(q.low, k, rank, Root(fr, rank));
    }
    StepTreeIsValid(fr, lv);
  }

  /* The permutation. */

  ghost predicate InverseAt(q: HqrTree, k: nat, m: int, i: int)
    requires k < |q.perm| && |q.perm[k]| == q.mt + 1
  {
    0 <= i <= q.mt && i / (q.p * q.a) == m / (q.p * q.a) && i % q.p == m % q.p && q.perm[k][i] == m
  }

  lemma BlockStart(m: nat, p: Pos, a: Pos)
    ensures var pa := p * a; pa >= p && (m / pa * pa) % p == 0 && 0 <= m / pa * pa <= m < m / pa * pa + pa
  {
    var pa := p * a;
    MulMonotone(1, a, p);
    QuotientTimes(m, pa);
    QuotientAtMost(m, pa);
    MulMonotone(0, m / pa, pa);
    assert m / pa * pa == (m / pa * a) * p;
    QuotientIs(m / pa * pa, p, m / pa * a, 0);
  }

  lemma FirstOfResidue(start: nat, m: nat, p: Pos)
    requires start % p == 0
    ensures 0 <= m % p && (start + m % p) % p == m % p
    ensures forall x {:trigger x % p} :: start <= x < start + m % p ==> x % p != m % p
  {
    ResidueOf(start, m % p, 0, m, p);
    forall x | start <= x < start + m % p ensures x % p != m % p {
      if x % p == m % p { SameResidue(x, start + m % p, p); }
    }
  }

  lemma NextOfResidue(i: int, m: nat, p: Pos)
    requires i % p == m % p
    ensures forall x {:trigger x % p} :: i < x < i + p ==> x % p != m % p
    ensures (i + p) % p == m % p
  {
    QuotientShift(i, p, 1);
    forall x | i < x < i + p ensures x % p != m % p {
      if x % p == m % p { SameResidue(i, x, p); }
    }
  }

  /** Search the positions `start + i` of one block whose residue is that of `m`. */
  method ScanBlock(perm: seq<int>, start: nat, stop: int, p: Pos, m: nat) returns (r: int)
    requires start % p == 0 && start + stop <= |perm|
    ensures r == -1 ==> forall x :: start <= x < start + stop && x % p == m % p ==> perm[x] != m
    ensures r != -1 ==> start <= r < start + stop && r % p == m % p && perm[r] == m
  {
    var i := m % p;
    FirstOfResidue(start, m, p);
    while i < stop
      invariant 0 <= i && (start + i) % p == m % p
      invariant forall x :: start <= x < start + i && x < start + stop && x % p == m % p ==> perm[x] != m
      decreases stop - i
    {
      if perm[i + start] == m {
        return i + start;
      }
      NextOfResidue(start + i, m, p);
      i := i + p;
    }
    return -1;
  }

  /** The position that the permutation of step `k` sends to `m`; it is looked for among the positions
      of `m`'s own block and domain, and -1 is the answer if it is not there. */
  method GetInvPerm(q: HqrTree, k: nat, m: nat) returns (r: int)
    requires k < |q.perm| && |q.perm[k]| == q.mt + 1 && m <= q.mt
    ensures q.a == 1 ==> r == m
    ensures q.a != 1 ==> if r == -1 then forall i :: !InverseAt(q, k, m, i) else InverseAt(q, k, m, r)
  {
    var gmt := q.mt + 1;
    var pa: Pos := q.p * q.a;
    var start := m / pa * pa;
    var stop := Min(start + pa, gmt) - start;
    if q.a == 1 {
      return m;
    }
    BlockStart(m, q.p, q.a);
    r := ScanBlock(q.perm[k], start, stop, q.p, m);
    if r == -1 {
      forall x ensures !InverseAt(q, k, m, x) {
        QuotientTimes(x, pa);
      }
    } else {
      BlockOf(r, m, pa);
    }
  }

  lemma ResidueOf(start: nat, i: int, rounds: int, m: nat, p: Pos)
    requires start % p == 0 && i == rounds * p + m % p
    ensures (start + i) % p == m % p
  {
    QuotientTimes(start, p);
    MulDistributes(start / p, rounds, p);
    QuotientIs(start + i, p, start / p + rounds, m % p);
  }

  lemma BlockOf(x: int, m: nat, pa: Pos)
    requires m / pa * pa <= x < m / pa * pa + pa
    ensures x / pa == m / pa
  {
    QuotientIs(x, pa, m / pa, x - m / pa * pa);
  }

  /** The place of a row, as computed by search. */
  method Place(q: HqrTree, k: nat, m: nat) returns (r: int)
    requires HasPermutation(q, k) && k <= m <= q.mt
    ensures r == PlaceOf(q, k, m) && k <= r <= q.mt && q.perm[k][r] == m
  {
    ghost var fr := FrameOf(q, k);
    RR.PermutationIsABijection(fr, q.tsrr, m);
    r := GetInvPerm(q, k, m);
    if q.a != 1 {
      assert InverseAt(q, k, m, PlaceOf(q, k, m));
      assert r >= k;
      RR.PermutationIsABijection(fr, q.tsrr, r);
    }
  }
}
