/** The panel index functions of the hierarchical tree, with the round-robin permutation on or off. */
module HqrPanel {
  import opened Hierarchy
  import opened HqrTrees
  import opened PanelIndex
  import RR = RoundRobin

  ghost function KindOf(q: HqrTree, k: nat, m: int): int {
    Kind(FrameOf(q, k), PlaceOf(q, k, m))
  }

  method GetType(q: HqrTree, k: nat, m: nat) returns (r: int)
    requires HasPermutation(q, k) && k <= m < q.mt
    ensures r == KindOf(q, k, m)
  {
    var lm := Place(q, k, m);
    if !(lm >= k) {
      return -1;
    }
    if lm < k + q.p {
      return 3;
    } else if q.domino && lm < q.p * (k + 1) {
      return 2;
    } else if (lm / q.p) % q.a == 0 {
      return 1;
    } else {
      return 0;
    }
  }

  method GetNbGeqrf(q: HqrTree, k: nat) returns (r: int)
    requires k < Steps(q)
    ensures r == HeadsBefore(FrameOf(q, k), q.mt)
  {
    NbGeqrtCountsHeads(FrameOf(q, k));
    return NbGeqrt(FrameOf(q, k));
  }

  method GetM(q: HqrTree, k: nat, i: nat) returns (r: int)
    requires HasPermutation(q, k) && i < NbGeqrt(FrameOf(q, k))
    ensures k <= r < q.mt && KindOf(q, k, r) > 0
    ensures PlaceOf(q, k, r) == RowAt(FrameOf(q, k), i)
  {
    var fr := FrameOf(q, k);
    RowsAreListed(fr, i);
    Landmarks(fr);
    RR.PermutationIsABijection(fr, q.tsrr, RowAt(fr, i));
    var nb23 := Dense(fr);
    if i < nb23 {
      return k + i;
    } else {
      var j := i - nb23;
      var pos1 := FirstBlock(fr);
      return q.perm[k][pos1 + j / q.p * Block(fr) + j % q.p];
    }
  }

  method GetI(q: HqrTree, k: nat, m: nat) returns (r: int)
    requires HasPermutation(q, k) && k <= m < q.mt && KindOf(q, k, m) > 0
    ensures r == HeadsBefore(FrameOf(q, k), PlaceOf(q, k, m))
    ensures 0 <= r < NbGeqrt(FrameOf(q, k)) && RowAt(FrameOf(q, k), r) == PlaceOf(q, k, m)
  {
    var fr := FrameOf(q, k);
    var lm := Place(q, k, m);
    RR.PermutationIsABijection(fr, q.tsrr, m);
    assert lm < q.mt;
    IndexCountsHeads(fr, lm);
    HeadsAreListed(fr, lm);
    var nb23 := Dense(fr);
    var end2 := DenseEnd(fr);
    if lm < end2 {
      return lm - k;
    } else {
      var j := lm - FirstBlock(fr);
      return nb23 + j / Block(fr) * q.p + j % Block(fr);
    }
  }
}
