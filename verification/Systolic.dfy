/** The systolic trees: three levels of flat trees in closed form. Relative to the diagonal row `k`, rows
    from `p * q` on are TS rows of the row with the same offset modulo `p * q`; rows from `p` on are
    killed by the row with the same offset modulo `p`; the first `p` rows are killed by row `k`. */
module SystolicTrees {
  import opened Integers
  import opened ReductionTrees

  datatype Systolic = Systolic(mt: Pos, nt: Pos, q: Pos, p: Pos)

  function Steps(t: Systolic): int {
    Min(t.mt, t.nt)
  }

  function PQ(t: Systolic): Pos {
    MulMonotone(1, t.q, t.p);
    t.p * t.q
  }

  function Kind(t: Systolic, k: int, m: int): int {
    if m >= k + PQ(t) then 0 else if m >= k + t.p then 1 else 3
  }

  function Currpiv(t: Systolic, k: int, m: int): int {
    match Kind(t, k, m)
    case 0 => (m - k) % PQ(t) + k
    case 1 => (m - k) % t.p + k
    case _ => k
  }

  ghost function TreeOf(t: Systolic, k: int): Tree {
    Tree(k, t.mt, t.mt, m => Currpiv(t, k, m), m => Kind(t, k, m), y => true)
  }

  /** The killer is above its victim and of at least its kind. */
  lemma KillerOfRow(t: Systolic, k: int, m: int)
    requires k < m
    ensures k <= Currpiv(t, k, m) < m && Kind(t, k, Currpiv(t, k, m)) >= Kind(t, k, m)
    ensures Kind(t, k, Currpiv(t, k, m)) > 0
  {
    MulMonotone(1, t.q, t.p);
    QuotientTimes(m - k, PQ(t));
    QuotientTimes(m - k, t.p);
  }

  /** The three levels of flat trees: row `k` kills the rows after it up to the p-th; each of the first `p` kills the
      rows `p`, 2 * `p`, ... after it up to the (p * q)-th; each of those the rows p * q, 2 * p * q, ... after it. */
  lemma ThreeLevels(t: Systolic, k: int, m: int)
    requires k < m
    ensures var r, pq := Currpiv(t, k, m), t.p * t.q;
      if m < k + t.p then r == k && Kind(t, k, m) == 3
      else if m < k + pq then k <= r < k + t.p && (m - r) % t.p == 0 && Kind(t, k, m) == 1
      else pq > 0 && k <= r < k + pq && (m - r) % pq == 0 && Kind(t, k, m) == 0
  {
    var pq := PQ(t);
    MulMonotone(1, t.q, t.p);
    RestOfQuotient(m - k, t.p);
    RestOfQuotient(m - k, pq);
  }

  lemma RestOfQuotient(x: int, d: Pos)
    ensures (x - x % d) % d == 0 && 0 <= x % d < d
  {
    QuotientTimes(x, d);
    QuotientIs(x - x % d, d, x / d, 0);
  }

  lemma TreeIsValid(t: Systolic, k: int)
    requires 0 <= k < t.mt
    ensures Valid(TreeOf(t, k))
  {
    forall m | k < m < t.mt ensures k <= Currpiv(t, k, m) < m { KillerOfRow(t, k, m); }
  }

  /* Panel index functions. Rows that are not TS rows come first, without gaps. */

  method GetNbGeqrf(t: Systolic, k: nat) returns (r: int)
    requires k < t.mt
    ensures forall m :: k <= m < t.mt ==> (Kind(t, k, m) > 0 <==> m - k < r)
    ensures 0 <= r <= t.mt - k
  {
    var pq := t.p * t.q;
    MulMonotone(1, t.q, t.p);
    return Min(pq, t.mt - k);
  }

  /* Victims, kind by kind. */

  lemma TSVictim(t: Systolic, k: int, m: int, u: int)
    requires k <= m && k < u && Kind(t, k, u) == 0
    ensures Currpiv(t, k, u) == m <==> m < k + PQ(t) && (u - k) % PQ(t) == (m - k) % PQ(t)
  {
    QuotientTimes(u - k, PQ(t));
    if m < k + PQ(t) { QuotientIs(m - k, PQ(t), 0, m - k); }
  }

  lemma LocalVictim(t: Systolic, k: int, m: int, u: int)
    requires k <= m && k < u && Kind(t, k, u) == 1
    ensures Currpiv(t, k, u) == m <==> m < k + t.p && (u - k) % t.p == (m - k) % t.p
  {
    QuotientTimes(u - k, t.p);
    if m < k + t.p { QuotientIs(m - k, t.p, 0, m - k); }
  }

  lemma StepOfResidue(x: int, d: Pos)
    ensures (x + d) % d == x % d && (x - d) % d == x % d
  {
    QuotientShift(x, d, 1);
    QuotientShift(x, d, -1);
  }

  /* Forward search. */

  method NextByTS(t: Systolic, k: nat, pivot: nat, start: nat) returns (n: int)
    requires k <= pivot < t.mt && Kind(t, k, pivot) > 0
    requires start == t.mt || (IsVictim(TreeOf(t, k), pivot, start) && Kind(t, k, start) == 0)
    ensures IsNextOfKind(TreeOf(t, k), pivot, start, 0, n)
    ensures 0 <= n <= t.mt
  {
    var pq := PQ(t);
    var nextp := if start == t.mt then pivot + pq else start + pq;
    ghost var s := if start == t.mt then pivot else start;
    if start != t.mt { TSVictim(t, k, pivot, start); }
    StepOfResidue(s - k, pq);
    if nextp < t.mt { TSVictim(t, k, pivot, nextp); }
    forall u | Later(TreeOf(t, k), pivot, start, u) && Kind(t, k, u) == 0
      ensures nextp <= u
    {
      TSVictim(t, k, pivot, u);
      KillerOfRow(t, k, u);
      if u < nextp { SameResidue(s - k, u - k, pq); }
    }
    if nextp < t.mt {
      return nextp;
    }
    return t.mt;
  }

  method NextByLocalTree(t: Systolic, k: nat, pivot: nat, start: nat) returns (n: int)
    requires k <= pivot < t.mt && Kind(t, k, pivot) == 3
    requires start == t.mt || (IsVictim(TreeOf(t, k), pivot, start) && Kind(t, k, start) == 1)
    ensures IsNextOfKind(TreeOf(t, k), pivot, start, 1, n)
    ensures 0 <= n <= t.mt
  {
    var pq := PQ(t);
    var nextp := if start == t.mt then pivot + t.p else start + t.p;
    ghost var s := if start == t.mt then pivot else start;
    if start != t.mt { LocalVictim(t, k, pivot, start); }
    MulMonotone(1, t.q, t.p);
    StepOfResidue(s - k, t.p);
    if k + t.p <= nextp < k + pq { LocalVictim(t, k, pivot, nextp); }
    forall u | Later(TreeOf(t, k), pivot, start, u) && Kind(t, k, u) == 1
      ensures nextp <= u
    {
      LocalVictim(t, k, pivot, u);
      KillerOfRow(t, k, u);
      if u < nextp { SameResidue(s - k, u - k, t.p); }
    }
    if nextp >= k + t.p && nextp < k + pq && nextp < t.mt {
      return nextp;
    }
    return t.mt;
  }

  /** The next row that `pivot` kills after `start`; `mt` starts the search and ends it, and -1 is the
      answer when `pivot` does not kill `start`. */
  method Nextpiv(t: Systolic, k: nat, pivot: nat, start: nat) returns (r: int)
    requires k <= pivot < t.mt && k <= start <= t.mt
    ensures if ForwardStart(TreeOf(t, k), pivot, start) then
              k <= r <= t.mt && IsNext(TreeOf(t, k), pivot, start, r)
            else
              r == -1
  {
    hide PQ, Currpiv, Kind, Valid, Later, Before, IsNext, IsNextOfKind, DoneBelow;
    var mt := t.mt;
    ghost var T := TreeOf(t, k);
    TreeIsValid(t, k);
    VictimKinds(t, k, pivot);
    if !(start > pivot && pivot >= k) {
      return -1;
    }
    if start != mt && pivot != Currpiv(t, k, start) {
      return -1;
    }
    var cur := start;
    var ls := if start < mt then Kind(t, k, start) else -1;
    var lp := Kind(t, k, pivot);
    KindValues(t, k, start);
    KindValues(t, k, pivot);
    StartsAtOwnKind(T, pivot, start);
    if start == mt { NothingDone(t, k, pivot); }

    if ls == -1 && lp == 0 {
      NoNext(T, pivot, start, 0);
      return mt;
    }
    if ls <= 0 {
      r := NextByTS(t, k, pivot, cur);
      NextAtKind(T, pivot, start, cur, 0, r);
      if r < mt {
        return;
      }
      cur := mt;
    }
    if ls <= 1 {
      if lp < 3 {
        NoNext(T, pivot, start, 1);
        return mt;
      }
      r := NextByLocalTree(t, k, pivot, cur);
      NextAtKind(T, pivot, start, cur, 1, r);
      if r < mt {
        return;
      }
      SkipKind(T, pivot, start, 2);
      cur := mt;
    }
    if pivot > k {
      NoNext(T, pivot, start, 3);
      return mt;
    }
    var nextp := if cur == mt then pivot + 1 else cur + 1;
    if nextp < k + t.p {
      r := nextp;
    } else {
      r := mt;
    }
    NextAcross(t, k, start, r);
    NextAtKind(T, pivot, start, start, 3, r);
    if r == mt { NoNext(T, pivot, start, 4); }
  }

  lemma KindValues(t: Systolic, k: int, m: int)
    ensures Kind(t, k, m) == 0 || Kind(t, k, m) == 1 || Kind(t, k, m) == 3
  {
  }

  lemma NothingDone(t: Systolic, k: nat, m: int)
    requires k < t.mt
    ensures DoneBelow(TreeOf(t, k), m, t.mt, 0)
  {
  }

  /** A row kills nobody of a higher kind than its own; a row killed in its domain kills TS rows only; and only
      the diagonal row kills across domains. */
  lemma VictimKinds(t: Systolic, k: nat, m: int)
    requires k <= m < t.mt
    ensures forall u :: IsVictim(TreeOf(t, k), m, u) ==>
              m < u && 0 <= TreeOf(t, k).kind(u) <= Kind(t, k, m) && TreeOf(t, k).kind(u) != 2 && Kind(t, k, m) > 0
    ensures Kind(t, k, m) < 3 ==> forall u :: IsVictim(TreeOf(t, k), m, u) ==> TreeOf(t, k).kind(u) == 0
    ensures k < m ==> forall u :: IsVictim(TreeOf(t, k), m, u) ==> TreeOf(t, k).kind(u) != 3
  {
    hide PQ;
    forall u | IsVictim(TreeOf(t, k), m, u)
      ensures m < u && 0 <= Kind(t, k, u) <= Kind(t, k, m) && Kind(t, k, u) != 2 && Kind(t, k, m) > 0
      ensures Kind(t, k, m) < 3 ==> Kind(t, k, u) == 0
      ensures k < m ==> Kind(t, k, u) != 3
    {
      KillerOfRow(t, k, u);
      if Kind(t, k, u) == 1 { LocalVictim(t, k, m, u); }
    }
  }

  lemma NextAcross(t: Systolic, k: nat, s: int, n: int)
    requires k < t.mt && k < s <= t.mt
    requires var c := if s != t.mt && Kind(t, k, s) == 3 then s else k;
      n == if c + 1 < k + t.p then c + 1 else t.mt
    ensures n <= t.mt && IsNextOfKind(TreeOf(t, k), k, s, 3, n)
  {
    MulMonotone(1, t.q, t.p);
  }

  /* Backward search. The position is the killer itself or a victim of the kind searched. */

  method PrevAcross(t: Systolic, k: nat, start: nat) returns (n: int)
    requires k < t.mt
    requires start == k || (IsVictim(TreeOf(t, k), k, start) && Kind(t, k, start) == 3)
    ensures IsPrevOfKind(TreeOf(t, k), k, start, 3, n)
    ensures 0 <= n <= t.mt
  {
    MulMonotone(1, t.q, t.p);
    var nextp;
    if start == k {
      nextp := start + t.p - 1;
      while k < nextp && nextp >= t.mt
        invariant k <= nextp < k + t.p
        invariant nextp == k + t.p - 1 || nextp + 1 >= t.mt
      {
        nextp := nextp - 1;
      }
    } else {
      nextp := start - 1;
    }
    if k < nextp && nextp < k + t.p {
      return nextp;
    }
    return t.mt;
  }

  method PrevByLocalTree(t: Systolic, k: nat, pivot: nat, start: nat) returns (n: int)
    requires k <= pivot < t.mt && Kind(t, k, pivot) == 3
    requires start == pivot || (IsVictim(TreeOf(t, k), pivot, start) && Kind(t, k, start) == 1)
    ensures IsPrevOfKind(TreeOf(t, k), pivot, start, 1, n)
    ensures 0 <= n <= t.mt
  {
    hide Currpiv;
    var p, pq := t.p, PQ(t);
    var nextp;
    if start == pivot {
      nextp := start + (t.q - 1) * p;
      LastLocalRow(t, k, pivot, nextp);
      while pivot < nextp && nextp >= t.mt
        invariant BoundsLocal(t, k, pivot, nextp)
        decreases nextp
      {
        LocalRowUp(t, k, pivot, nextp);
        nextp := nextp - p;
      }
      FromBound(t, k, pivot, nextp);
    } else {
      nextp := start - p;
      BeforeLocal(t, k, pivot, start);
    }
    if pivot < nextp && nextp < k + pq {
      return nextp;
    }
    return t.mt;
  }

  /** `u` is in the residue class of the killer and no local victim lies beyond it. */
  ghost predicate BoundsLocal(t: Systolic, k: nat, m: int, u: int) {
    && m <= u < k + PQ(t) && (u - k) % t.p == (m - k) % t.p
    && forall w :: IsVictim(TreeOf(t, k), m, w) && Kind(t, k, w) == 1 ==> w <= u
  }

  lemma LastLocalRow(t: Systolic, k: nat, m: int, u: int)
    requires k <= m && Kind(t, k, m) == 3 && u == m + (t.q - 1) * t.p
    ensures BoundsLocal(t, k, m, u)
  {
    MulMonotone(1, t.q, t.p);
    MulMonotone(0, t.q - 1, t.p);
    MulDistributes(t.q, -1, t.p);
    QuotientShift(m - k, t.p, t.q - 1);
    forall w | IsVictim(TreeOf(t, k), m, w) && Kind(t, k, w) == 1 ensures w <= u {
      LocalVictim(t, k, m, w);
      if u < w { SameResidue(u - k, w - k, t.p); }
    }
  }

  lemma LocalRowUp(t: Systolic, k: nat, m: int, u: int)
    requires k <= m && Kind(t, k, m) == 3 && BoundsLocal(t, k, m, u) && m < u && t.mt <= u
    ensures BoundsLocal(t, k, m, u - t.p)
  {
    StepOfResidue(u - k, t.p);
    if u - t.p < m { SameResidue(m - k, u - k, t.p); }
    forall w | IsVictim(TreeOf(t, k), m, w) && Kind(t, k, w) == 1 ensures w <= u - t.p {
      LocalVictim(t, k, m, w);
      if u - t.p < w { SameResidue(w - k, u - k, t.p); }
    }
  }

  lemma FromBound(t: Systolic, k: nat, m: int, u: int)
    requires k <= m < t.mt && Kind(t, k, m) == 3 && BoundsLocal(t, k, m, u) && (m < u ==> u < t.mt)
    ensures IsPrevOfKind(TreeOf(t, k), m, m, 1, if m < u then u else t.mt)
  {
    if m < u {
      if u < k + t.p { SameResidue(m - k, u - k, t.p); }
      LocalVictim(t, k, m, u);
    } else {
      forall w ensures !(IsVictim(TreeOf(t, k), m, w) && Kind(t, k, w) == 1) {
        if IsVictim(TreeOf(t, k), m, w) { KillerOfRow(t, k, w); }
      }
    }
  }

  lemma BeforeLocal(t: Systolic, k: nat, m: int, s: int)
    requires k <= m < t.mt && IsVictim(TreeOf(t, k), m, s) && Kind(t, k, s) == 1
    ensures s - t.p < k + PQ(t)
    ensures IsPrevOfKind(TreeOf(t, k), m, s, 1, if m < s - t.p then s - t.p else t.mt)
  {
    var u := s - t.p;
    LocalVictim(t, k, m, s);
    StepOfResidue(s - k, t.p);
    if m < u {
      if u < k + t.p { SameResidue(m - k, u - k, t.p); }
      LocalVictim(t, k, m, u);
    }
    forall w | Earlier(TreeOf(t, k), m, s, w) && Kind(t, k, w) == 1
      ensures m < u && w <= u
    {
      LocalVictim(t, k, m, w);
      KillerOfRow(t, k, w);
      if u < w { SameResidue(w - k, s - k, t.p); }
      if u <= m { SameResidue(m - k, w - k, t.p); }
    }
  }

  /** Step up by `d` until inside the matrix or at the pivot. */
  method IntoMatrix(from: int, pivot: nat, mt: nat, d: Pos) returns (nextp: int)
    requires pivot < mt && pivot <= from && from % d == pivot % d && mt <= from + d
    ensures pivot <= nextp < mt && nextp % d == pivot % d && mt <= nextp + d
  {
    nextp := from;
    while pivot < nextp && nextp >= mt
      invariant pivot <= nextp && nextp % d == pivot % d && mt <= nextp + d
      decreases nextp
    {
      StepOfResidue(nextp, d);
      if nextp - d < pivot { SameResidue(pivot, nextp, d); }
      nextp := nextp - d;
    }
  }

  method PrevByTS(t: Systolic, k: nat, pivot: nat, start: nat) returns (n: int)
    requires k <= pivot < t.mt && Kind(t, k, pivot) > 0
    requires start == pivot || (IsVictim(TreeOf(t, k), pivot, start) && Kind(t, k, start) == 0)
    ensures IsPrevOfKind(TreeOf(t, k), pivot, start, 0, n)
    ensures 0 <= n <= t.mt
  {
    var mt, pq := t.mt, PQ(t);
    var rpivot := pivot % pq;
    var nextp;
    if start == pivot {
      nextp := mt - (mt - rpivot - 1) % pq - 1;
      LastOfResidue(mt, pivot, pq);
      nextp := IntoMatrix(nextp, pivot, mt, pq);
      LastTSRow(t, k, pivot, nextp);
    } else {
      nextp := start - pq;
      BeforeTS(t, k, pivot, start);
    }
    assert nextp < mt;
    if pivot < nextp {
      return nextp;
    }
    return mt;
  }

  /** The largest number below `mt` with the residue of `m`. */
  lemma LastOfResidue(mt: nat, m: nat, d: Pos)
    requires m < mt
    ensures var u := mt - (mt - m % d - 1) % d - 1;
      m <= u < mt && u % d == m % d && mt <= u + d
  {
    QuotientTimes(m, d);
    var x := mt - m % d - 1;
    QuotientTimes(x, d);
    var u := mt - x % d - 1;
    QuotientShift(m % d, d, x / d);
    QuotientIs(m % d, d, 0, m % d);
    if u < m { SameResidue(u, m, d); }
  }

  lemma OffsetKeepsResidue(x: int, y: int, k: int, d: Pos)
    requires x % d == y % d
    ensures (x - k) % d == (y - k) % d
  {
    QuotientTimes(x, d);
    QuotientTimes(y, d);
    var q := x / d - y / d;
    MulDistributes(x / d, -(y / d), d);
    assert x - k == y - k + q * d;
    QuotientShift(y - k, d, q);
  }

  lemma LastTSRow(t: Systolic, k: nat, m: nat, u: int)
    requires k <= m < t.mt && Kind(t, k, m) > 0
    requires m <= u < t.mt && u % PQ(t) == m % PQ(t) && t.mt <= u + PQ(t)
    ensures IsPrevOfKind(TreeOf(t, k), m, m, 0, if m < u then u else t.mt)
  {
    var d := PQ(t);
    OffsetKeepsResidue(u, m, k, d);
    if m < u {
      if u < k + d { SameResidue(m - k, u - k, d); }
      TSVictim(t, k, m, u);
    }
    forall w | IsVictim(TreeOf(t, k), m, w) && Kind(t, k, w) == 0
      ensures m < u && w <= u
    {
      TSVictim(t, k, m, w);
      KillerOfRow(t, k, w);
      if u < w { SameResidue(u - k, w - k, d); }
    }
  }

  lemma BeforeTS(t: Systolic, k: nat, m: nat, s: int)
    requires k <= m < t.mt && IsVictim(TreeOf(t, k), m, s) && Kind(t, k, s) == 0
    ensures IsPrevOfKind(TreeOf(t, k), m, s, 0, if m < s - PQ(t) then s - PQ(t) else t.mt)
  {
    var d := PQ(t);
    var u := s - d;
    TSVictim(t, k, m, s);
    StepOfResidue(s - k, d);
    if m < u {
      if u < k + d { SameResidue(m - k, u - k, d); }
      TSVictim(t, k, m, u);
    }
    forall w | Earlier(TreeOf(t, k), m, s, w) && Kind(t, k, w) == 0
      ensures m < u && w <= u
    {
      TSVictim(t, k, m, w);
      KillerOfRow(t, k, w);
      if u < w { SameResidue(w - k, s - k, d); }
      if u <= m { SameResidue(m - k, w - k, d); }
    }
  }

  /** The row that `pivot` kills before `start`; `pivot` itself starts the search from the end, `mt` ends
      it, and -1 is the answer when `pivot` does not kill `start`. */
  method Prevpiv(t: Systolic, k: nat, pivot: nat, start: nat) returns (r: int)
    requires k <= pivot < t.mt && k <= start < t.mt
    ensures if BackwardStart(TreeOf(t, k), pivot, start) then
              k <= r <= t.mt && IsPrev(TreeOf(t, k), pivot, start, r)
            else
              r == -1
  {
    hide PQ, Currpiv, Kind, Valid, Earlier, Before, IsPrev, IsPrevOfKind, DoneAbove;
    var mt := t.mt;
    ghost var T := TreeOf(t, k);
    TreeIsValid(t, k);
    VictimKinds(t, k, pivot);
    if !(start >= pivot && pivot >= k && start < mt) {
      return -1;
    }
    if start != pivot && pivot != Currpiv(t, k, start) {
      return -1;
    }
    var cur := start;
    var ls := Kind(t, k, start);
    var lp := Kind(t, k, pivot);
    KindValues(t, k, start);
    KindValues(t, k, pivot);
    StartsAtOwnKind(T, pivot, start);
    if start == pivot { NothingDoneAbove(t, k, pivot); }

    if lp == 0 {
      NoPrev(T, pivot, start, ls);
      return mt;
    }
    if !(lp >= ls) {
      return -1;
    }
    if ls == 3 {
      if pivot == k {
        r := PrevAcross(t, k, cur);
        PrevAtKind(T, pivot, start, cur, 3, r);
        if r != mt {
          return;
        }
      } else {
        SkipKind(T, pivot, start, 3);
      }
      SkipKind(T, pivot, start, 2);
      cur := pivot;
    }
    if ls >= 1 {
      if lp > 1 {
        r := PrevByLocalTree(t, k, pivot, cur);
        PrevAtKind(T, pivot, start, cur, 1, r);
        if r != mt {
          return;
        }
      } else {
        SkipKind(T, pivot, start, 1);
      }
      cur := pivot;
    }
    r := PrevByTS(t, k, pivot, cur);
    PrevAtKind(T, pivot, start, cur, 0, r);
    if r == mt { NoPrev(T, pivot, start, -1); }
  }

  lemma NothingDoneAbove(t: Systolic, k: nat, m: int)
    requires k <= m < t.mt
    ensures DoneAbove(TreeOf(t, k), m, m, Kind(t, k, m))
  {
    hide Kind, PQ, Currpiv;
    VictimKinds(t, k, m);
  }
}
