/** The interface through which the factorizations see a tree, over the three families of trees. The
    contracts are the same for all of them: every lookup answers as the step's tree says. */
module QrTrees {
  import opened Counting
  import opened Integers
  import opened ReductionTrees
  import A = AdaptiveTrees
  import H = Hierarchy
  import HP = HqrPanel
  import HL = HqrLookups
  import HT = HqrTrees
  import KP = KillProtocol
  import PI = PanelIndex
  import S = SystolicTrees

  datatype QrTree =
    | Hqr(hqr: HT.HqrTree)
    | Svd(svd: A.SvdTree)
    | Systolic(sys: S.Systolic)

  function Rows(q: QrTree): Pos {
    match q
    case Hqr(h) => h.mt
    case Svd(s) => s.mt
    case Systolic(t) => t.mt
  }

  function Steps(q: QrTree): int {
    match q
    case Hqr(h) => HT.Steps(h)
    case Svd(s) => Min(s.mt, s.nt)
    case Systolic(t) => S.Steps(t)
  }

  /** The `a` that callers see. The adaptive trees have none and say -1. */
  function HeightField(q: QrTree): int {
    match q
    case Hqr(h) => h.a
    case Svd(s) => -1
    case Systolic(t) => t.q
  }

  ghost predicate Ok(q: QrTree) {
    match q
    case Hqr(h) => HT.Ok(h)
    case Svd(s) => A.Ok(s)
    case Systolic(t) => true
  }

  ghost predicate AtStep(q: QrTree, k: nat) {
    Ok(q) && k < Steps(q)
  }

  /** The hierarchical tree behind step `k`, for the two families that have one. */
  function StepOf(q: QrTree, k: nat): (h: HT.HqrTree)
    requires AtStep(q, k) && !q.Systolic?
    ensures HL.AtStep(h, k) && h.mt == Rows(q)
  {
    match q
    case Hqr(h) => assert HT.StepOk(h, k); h
    case Svd(s) => assert A.HasHeader(s, k) && HT.StepOk(A.View(s, k), k); A.View(s, k)
  }

  ghost function TreeAt(q: QrTree, k: nat): Tree
    requires AtStep(q, k)
  {
    if q.Systolic? then S.TreeOf(q.sys, k) else HT.TreeOf(StepOf(q, k), k)
  }

  ghost function PlaceAt(q: QrTree, k: nat, m: int): int
    requires AtStep(q, k)
  {
    if q.Systolic? then m else HT.PlaceOf(StepOf(q, k), k, m)
  }

  ghost function RowAt(q: QrTree, k: nat, i: int): int
    requires AtStep(q, k)
  {
    if q.Systolic? then i else HT.RowOf(StepOf(q, k), k, i)
  }

  lemma Shape(q: QrTree, k: nat)
    requires AtStep(q, k)
    ensures Valid(TreeAt(q, k)) && k < Rows(q)
    ensures TreeAt(q, k).root == k && TreeAt(q, k).end == TreeAt(q, k).none == Rows(q)
  {
    if q.Systolic? {
      S.TreeIsValid(q.sys, k);
    } else {
      HL.TreeShape(StepOf(q, k), k);
    }
  }

  /** Places and rows correspond one to one, the root and the end marker to themselves. */
  lemma Places(q: QrTree, k: nat, m: int)
    requires AtStep(q, k) && k <= m <= Rows(q)
    ensures k <= PlaceAt(q, k, m) <= Rows(q) && RowAt(q, k, PlaceAt(q, k, m)) == m
    ensures k <= RowAt(q, k, m) <= Rows(q) && PlaceAt(q, k, RowAt(q, k, m)) == m
    ensures PlaceAt(q, k, m) == Rows(q) <==> m == Rows(q)
    ensures RowAt(q, k, m) == Rows(q) <==> m == Rows(q)
    ensures PlaceAt(q, k, m) == k <==> m == k
  {
    if !q.Systolic? { HT.PlacesAndRows(StepOf(q, k), k, m); }
  }

  ghost function KindAt(q: QrTree, k: nat, m: int): int
    requires AtStep(q, k)
  {
    TreeAt(q, k).kind(PlaceAt(q, k, m))
  }

  /** The position of a row among those of its panel that are not TS rows. */
  ghost function IndexAt(q: QrTree, k: nat, m: int): int
    requires AtStep(q, k)
  {
    if q.Systolic? then m - k else PI.HeadsBefore(HT.FrameOf(StepOf(q, k), k), PlaceAt(q, k, m))
  }

  /* What the lookups answer, as functions of rows. */

  ghost function KillerRow(q: QrTree, k: nat, m: int): int
    requires AtStep(q, k)
  {
    RowAt(q, k, TreeAt(q, k).killer(PlaceAt(q, k, m)))
  }

  /** `s` is a position from which the next victim of `m` can be asked for; likewise the previous one. */
  ghost predicate AsksForward(q: QrTree, k: nat, m: int, s: int)
    requires AtStep(q, k)
  {
    s == Rows(q) || (k < s < Rows(q) && KillerRow(q, k, s) == m)
  }

  ghost predicate AsksBackward(q: QrTree, k: nat, m: int, s: int)
    requires AtStep(q, k)
  {
    s == m || (k < s < Rows(q) && KillerRow(q, k, s) == m)
  }

  ghost function NextRow(q: QrTree, k: nat, m: int, s: int): int
    requires AtStep(q, k)
  {
    Shape(q, k);
    if AsksForward(q, k, m, s) then RowAt(q, k, Next(TreeAt(q, k), PlaceAt(q, k, m), PlaceAt(q, k, s))) else -1
  }

  ghost function PrevRow(q: QrTree, k: nat, m: int, s: int): int
    requires AtStep(q, k)
  {
    Shape(q, k);
    if AsksBackward(q, k, m, s) then RowAt(q, k, Previous(TreeAt(q, k), PlaceAt(q, k, m), PlaceAt(q, k, s))) else -1
  }

  /** Asking at rows is asking at places. */
  lemma AskingAtPlaces(q: QrTree, k: nat, m: int, s: int)
    requires AtStep(q, k) && k <= m < Rows(q) && k <= s <= Rows(q)
    ensures AsksForward(q, k, m, s) <==> ForwardStart(TreeAt(q, k), PlaceAt(q, k, m), PlaceAt(q, k, s))
    ensures s < Rows(q) ==>
              (AsksBackward(q, k, m, s) <==> BackwardStart(TreeAt(q, k), PlaceAt(q, k, m), PlaceAt(q, k, s)))
  {
    hide TreeAt, PlaceAt, RowAt, AtStep;
    Shape(q, k);
    Places(q, k, m);
    Places(q, k, s);
    if k < s < Rows(q) { Places(q, k, TreeAt(q, k).killer(PlaceAt(q, k, s))); }
  }

  lemma NextByPlaces(q: QrTree, k: nat, m: int, s: int)
    requires AtStep(q, k) && Valid(TreeAt(q, k)) && k <= m < Rows(q) && k <= s <= Rows(q) && AsksForward(q, k, m, s)
    ensures k < NextRow(q, k, m, s) <= Rows(q)
    ensures PlaceAt(q, k, NextRow(q, k, m, s)) == Next(TreeAt(q, k), PlaceAt(q, k, m), PlaceAt(q, k, s))
  {
    hide TreeAt, PlaceAt, RowAt, AtStep;
    Shape(q, k);
    AskingAtPlaces(q, k, m, s);
    Places(q, k, m);
    Places(q, k, Next(TreeAt(q, k), PlaceAt(q, k, m), PlaceAt(q, k, s)));
    Places(q, k, k);
  }

  lemma PrevByPlaces(q: QrTree, k: nat, m: int, s: int)
    requires AtStep(q, k) && Valid(TreeAt(q, k)) && k <= m < Rows(q) && k <= s < Rows(q) && AsksBackward(q, k, m, s)
    ensures k < PrevRow(q, k, m, s) <= Rows(q)
    ensures PlaceAt(q, k, PrevRow(q, k, m, s)) == Previous(TreeAt(q, k), PlaceAt(q, k, m), PlaceAt(q, k, s))
  {
    hide TreeAt, PlaceAt, RowAt, AtStep;
    Shape(q, k);
    AskingAtPlaces(q, k, m, s);
    Places(q, k, m);
    Places(q, k, Previous(TreeAt(q, k), PlaceAt(q, k, m), PlaceAt(q, k, s)));
    Places(q, k, k);
  }

  /** Of the rows of a tree of any family: a step forward is undone by a step back. From the last victim
      the search goes to the end marker, and back from there one asks at the killer itself. */
  lemma ForwardThenBack(q: QrTree, k: nat, m: int, s: int)
    requires AtStep(q, k) && k <= m < Rows(q) && k <= s <= Rows(q) && AsksForward(q, k, m, s)
    ensures var n := NextRow(q, k, m, s);
      && k < n <= Rows(q) && AsksForward(q, k, m, n)
      && PrevRow(q, k, m, if n == Rows(q) then m else n) == s
  {
    hide TreeAt, PlaceAt, RowAt, AtStep;
    Shape(q, k);
    AskingAtPlaces(q, k, m, s);
    NextByPlaces(q, k, m, s);
    Places(q, k, m);
    Places(q, k, s);
    ghost var t, n := TreeAt(q, k), NextRow(q, k, m, s);
    Places(q, k, n);
    NextThenPrev(t, PlaceAt(q, k, m), PlaceAt(q, k, s), PlaceAt(q, k, n));
    AskingAtPlaces(q, k, m, n);
    var b := if n == Rows(q) then m else n;
    AskingAtPlaces(q, k, m, b);
    Places(q, k, b);
    var pm, pb := PlaceAt(q, k, m), PlaceAt(q, k, b);
    PrevIsUnique(t, pm, pb, PlaceAt(q, k, s), Previous(t, pm, pb));
  }

  /** And a step back is undone by a step forward. */
  lemma BackThenForward(q: QrTree, k: nat, m: int, s: int)
    requires AtStep(q, k) && k <= m < Rows(q) && k <= s < Rows(q) && AsksBackward(q, k, m, s)
    ensures var n := PrevRow(q, k, m, s);
      k < n <= Rows(q) && AsksForward(q, k, m, n) && NextRow(q, k, m, n) == if s == m then Rows(q) else s
  {
    hide TreeAt, PlaceAt, RowAt, AtStep;
    Shape(q, k);
    AskingAtPlaces(q, k, m, s);
    PrevByPlaces(q, k, m, s);
    Places(q, k, m);
    Places(q, k, s);
    ghost var t, n := TreeAt(q, k), PrevRow(q, k, m, s);
    Places(q, k, n);
    PrevThenNext(t, PlaceAt(q, k, m), PlaceAt(q, k, s), PlaceAt(q, k, n));
    AskingAtPlaces(q, k, m, n);
    NextByPlaces(q, k, m, n);
    var e := if s == m then Rows(q) else s;
    Places(q, k, e);
    Places(q, k, NextRow(q, k, m, n));
    NextIsUnique(t, PlaceAt(q, k, m), PlaceAt(q, k, n), PlaceAt(q, k, e), Next(t, PlaceAt(q, k, m), PlaceAt(q, k, n)));
  }

  /* The lookups. */

  method GetType(q: QrTree, k: nat, m: nat) returns (r: int)
    requires AtStep(q, k) && k <= m < Rows(q)
    ensures r == KindAt(q, k, m)
  {
    if q.Systolic? {
      r := S.Kind(q.sys, k, m);
    } else {
      r := HP.GetType(StepOf(q, k), k, m);
    }
  }

  method Currpiv(q: QrTree, k: nat, m: nat) returns (r: int)
    requires AtStep(q, k) && k < m < Rows(q)
    ensures k <= r < Rows(q) && PlaceAt(q, k, r) == TreeAt(q, k).killer(PlaceAt(q, k, m))
    ensures r == KillerRow(q, k, m)
  {
    if q.Systolic? {
      S.KillerOfRow(q.sys, k, m);
      r := S.Currpiv(q.sys, k, m);
    } else {
      r := HL.Currpiv(StepOf(q, k), k, m);
    }
    Places(q, k, r);
  }

  method Nextpiv(q: QrTree, k: nat, pivot: nat, start: nat) returns (r: int)
    requires AtStep(q, k) && k <= pivot < Rows(q) && k <= start <= Rows(q)
    ensures if ForwardStart(TreeAt(q, k), PlaceAt(q, k, pivot), PlaceAt(q, k, start)) then
              k <= r <= Rows(q) && IsNext(TreeAt(q, k), PlaceAt(q, k, pivot), PlaceAt(q, k, start), PlaceAt(q, k, r))
            else
              r == -1
    ensures r == NextRow(q, k, pivot, start)
  {
    if q.Systolic? {
      r := S.Nextpiv(q.sys, k, pivot, start);
    } else {
      r := HL.Nextpiv(StepOf(q, k), k, pivot, start);
    }
    Shape(q, k);
    AskingAtPlaces(q, k, pivot, start);
    if AsksForward(q, k, pivot, start) {
      NextByPlaces(q, k, pivot, start);
      Places(q, k, r);
      Places(q, k, NextRow(q, k, pivot, start));
      NextIsUnique(TreeAt(q, k), PlaceAt(q, k, pivot), PlaceAt(q, k, start), PlaceAt(q, k, r),
                   Next(TreeAt(q, k), PlaceAt(q, k, pivot), PlaceAt(q, k, start)));
    }
  }

  method Prevpiv(q: QrTree, k: nat, pivot: nat, start: nat) returns (r: int)
    requires AtStep(q, k) && k <= pivot < Rows(q) && k <= start < Rows(q)
    ensures if BackwardStart(TreeAt(q, k), PlaceAt(q, k, pivot), PlaceAt(q, k, start)) then
              k <= r <= Rows(q) && IsPrev(TreeAt(q, k), PlaceAt(q, k, pivot), PlaceAt(q, k, start), PlaceAt(q, k, r))
            else
              r == -1
    ensures r == PrevRow(q, k, pivot, start)
  {
    if q.Systolic? {
      r := S.Prevpiv(q.sys, k, pivot, start);
    } else {
      r := HL.Prevpiv(StepOf(q, k), k, pivot, start);
    }
    Shape(q, k);
    AskingAtPlaces(q, k, pivot, start);
    if AsksBackward(q, k, pivot, start) {
      PrevByPlaces(q, k, pivot, start);
      Places(q, k, r);
      Places(q, k, PrevRow(q, k, pivot, start));
      PrevIsUnique(TreeAt(q, k), PlaceAt(q, k, pivot), PlaceAt(q, k, start), PlaceAt(q, k, r),
                   Previous(TreeAt(q, k), PlaceAt(q, k, pivot), PlaceAt(q, k, start)));
    }
  }

  /* Counting the rows that are not TS rows. */

  ghost function Heads(q: QrTree, k: nat, m: int): nat
    requires AtStep(q, k)
  {
    Count(u => KindAt(q, k, u) > 0, k, m)
  }

  /** The permutation moves rows around but does not change how many of them are heads. */
  lemma HeadsByPlace(q: QrTree, k: nat)
    requires AtStep(q, k)
    ensures Heads(q, k, Rows(q)) == Count(i => TreeAt(q, k).kind(i) > 0, k, Rows(q))
  {
    forall m | k <= m < Rows(q)
      ensures k <= PlaceAt(q, k, m) < Rows(q) && RowAt(q, k, PlaceAt(q, k, m)) == m
      ensures k <= RowAt(q, k, m) < Rows(q) && PlaceAt(q, k, RowAt(q, k, m)) == m
    {
      Places(q, k, m);
    }
    SameCount(u => KindAt(q, k, u) > 0, i => TreeAt(q, k).kind(i) > 0,
              m => PlaceAt(q, k, m), i => RowAt(q, k, i), k, Rows(q));
  }

  method GetNbGeqrf(q: QrTree, k: nat) returns (r: int)
    requires AtStep(q, k)
    ensures r == Heads(q, k, Rows(q))
  {
    HeadsByPlace(q, k);
    if q.Systolic? {
      r := S.GetNbGeqrf(q.sys, k);
      CountPrefix(i => TreeAt(q, k).kind(i) > 0, k, Rows(q), r);
    } else {
      r := HP.GetNbGeqrf(StepOf(q, k), k);
      PI.HeadsAreCounted(HT.FrameOf(StepOf(q, k), k), i => TreeAt(q, k).kind(i) > 0, Rows(q));
    }
  }

  /** The i-th row of the list of heads of the panel. */
  method GetM(q: QrTree, k: nat, i: nat) returns (r: int)
    requires AtStep(q, k) && i < Heads(q, k, Rows(q))
    ensures k <= r < Rows(q) && KindAt(q, k, r) > 0 && IndexAt(q, k, r) == i
  {
    ghost var nb := GetNbGeqrfSpec(q, k);
    if q.Systolic? {
      r := k + i;
    } else {
      r := HP.GetM(StepOf(q, k), k, i);
      PI.RowAtIsAHead(HT.FrameOf(StepOf(q, k), k), i);
    }
  }

  /** The closed forms behind the announced number of heads. */
  lemma GetNbGeqrfSpec(q: QrTree, k: nat) returns (nb: int)
    requires AtStep(q, k)
    ensures nb == Heads(q, k, Rows(q))
    ensures q.Systolic? ==> forall m :: k <= m < Rows(q) ==> (S.Kind(q.sys, k, m) > 0 <==> m - k < nb)
    ensures q.Systolic? ==> nb <= Rows(q) - k
    ensures !q.Systolic? ==> nb == PI.NbGeqrt(HT.FrameOf(StepOf(q, k), k))
  {
    HeadsByPlace(q, k);
    if q.Systolic? {
      nb := Min(S.PQ(q.sys), q.sys.mt - k);
      MulMonotone(1, q.sys.q, q.sys.p);
      CountPrefix(i => TreeAt(q, k).kind(i) > 0, k, Rows(q), nb);
    } else {
      PI.NbGeqrtCountsHeads(HT.FrameOf(StepOf(q, k), k));
      PI.HeadsAreCounted(HT.FrameOf(StepOf(q, k), k), i => TreeAt(q, k).kind(i) > 0, Rows(q));
      nb := PI.NbGeqrt(HT.FrameOf(StepOf(q, k), k));
    }
  }

  method GetI(q: QrTree, k: nat, m: nat) returns (r: int)
    requires AtStep(q, k) && k <= m < Rows(q) && KindAt(q, k, m) > 0
    ensures r == IndexAt(q, k, m) && 0 <= r < Heads(q, k, Rows(q))
  {
    ghost var nb := GetNbGeqrfSpec(q, k);
    if q.Systolic? {
      r := m - k;
    } else {
      r := HP.GetI(StepOf(q, k), k, m);
    }
  }

  /** Where the height is one, heads further down the matrix come later in the list. */
  lemma IndexGrows(q: QrTree, k: nat, m: int, m': int)
    requires AtStep(q, k) && HeightField(q) == 1 && k <= m < m' < Rows(q) && KindAt(q, k, m) > 0
    ensures IndexAt(q, k, m) < IndexAt(q, k, m')
  {
    if q.Hqr? {
      HT.SingleRowsStay(StepOf(q, k), k, m);
      HT.SingleRowsStay(StepOf(q, k), k, m');
      PI.CountGrows(HT.FrameOf(StepOf(q, k), k), m, m');
    }
  }

  /* The kill protocol on the trees of all families. */

  /** Whatever order the rows act in, a step neither stops before all rows but one are dead nor goes on
      after that, and every row dies once, by its own killer and not after it has been used again. */
  lemma EveryRunCompletes(q: QrTree, k: nat, schedule: seq<int>)
    requires AtStep(q, k) && Valid(TreeAt(q, k)) && KP.Runnable(TreeAt(q, k), KP.Start(TreeAt(q, k)), schedule)
    ensures |schedule| <= Rows(q) - k - 1
    ensures |schedule| < Rows(q) - k - 1 ==>
              exists m :: KP.Runnable(TreeAt(q, k), KP.Start(TreeAt(q, k)), schedule + [m])
    ensures var log := KP.Outcome(TreeAt(q, k), KP.Start(TreeAt(q, k)), schedule).log;
      && |log| == |schedule| && KP.SafeLog(TreeAt(q, k), log)
      && (|schedule| == Rows(q) - k - 1 ==>
            forall n :: k < n < Rows(q) ==> KP.Kill(TreeAt(q, k).killer(n), n) in log)
  {
    hide TreeAt, AtStep;
    Shape(q, k);
    var t := TreeAt(q, k);
    KP.RunsNeitherStopEarlyNorGoOn(t, schedule);
    KP.EveryRunIsSafe(t, schedule);
    if |schedule| == Rows(q) - k - 1 {
      forall m ensures !KP.Runnable(t, KP.Start(t), schedule + [m]) {
        if KP.Runnable(t, KP.Start(t), schedule + [m]) { KP.RunsNeitherStopEarlyNorGoOn(t, schedule + [m]); }
      }
      KP.FinishedRunLeavesOnlyTheRoot(t, schedule);
    }
  }
}
