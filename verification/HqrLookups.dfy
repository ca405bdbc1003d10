/** The pivot lookups of the hierarchical tree: the killer of a row, and the next and previous victim of a
    killer. The two searches pass through the kinds in a fixed order and reset their position whenever
    they move on to another kind. Rows are translated to places on the way in and back on the way out. */
module HqrLookups {
  import opened Composition
  import opened Hierarchy
  import opened HqrPanel
  import opened HqrTrees
  import opened Integers
  import opened ReductionTrees
  import Low = LowTrees
  import High = HighTrees

  ghost predicate AtStep(q: HqrTree, k: nat) {
    k < Steps(q) && StepOk(q, k)
  }

  /** The local macro-tile that holds the diagonal row of the domain of `row`. */
  method RootMacro(q: HqrTree, k: nat, row: nat) returns (k_a: int)
    requires StepOk(q, k)
    ensures k_a == Root(FrameOf(q, k), Rank(FrameOf(q, k), row))
  {
    if q.low.domino {
      k_a := k / q.low.a;
    } else {
      k_a := (k + q.low.p - 1 - row % q.low.p) / q.low.p / q.low.a;
    }
  }

  /** The head of macro-tile `tmp` in the domain of place `i`, as the code computes it. */
  method HeadPlace(q: HqrTree, k: nat, i: nat, tmp: int) returns (r: int)
    requires k <= i && Root(FrameOf(q, k), Rank(FrameOf(q, k), i)) <= tmp
    ensures r == Head(FrameOf(q, k), tmp, Rank(FrameOf(q, k), i))
  {
    var rank := i % q.p;
    if q.domino {
      r := if tmp == k / q.a then k * q.p + rank else tmp * q.a * q.p + rank;
    } else {
      HeadWithoutDomino(FrameOf(q, k), tmp, i);
      var tmpk := k / (q.p * q.a);
      r := if tmp == tmpk then k + (i - k) % q.p else tmp * q.a * q.p + rank;
    }
  }

  /** The place of the killer of place `i`. */
  method KillerPlace(q: HqrTree, k: nat, i: nat, kind: int) returns (r: int)
    requires AtStep(q, k) && k < i < q.mt && kind == Kind(FrameOf(q, k), i)
    ensures r == Killer(FrameOf(q, k), LevelsOf(q, k), i)
  {
    hide HasPermutation, Diagonal, Head;
    ghost var fr, lv := FrameOf(q, k), LevelsOf(q, k);
    LevelsAreOk(q, k);
    RowParts(fr, i);
    KindByDiagonal(fr, i);
    var tmp := i / q.p / q.a;
    if kind == 3 {
      if q.high.Some? {
        r := High.Currpiv(q.high.value, k, i);
      } else {
        r := q.mt;
      }
    } else if kind == 2 {
      r := i - q.p;
    } else if kind == 1 {
      LowTreeOf(fr, lv, i);
      var k_a := RootMacro(q, k, i);
      tmp := Low.Currpiv(q.low, k, i % q.p, k_a, tmp);
      r := HeadPlace(q, k, i, tmp);
    } else {
      TSRow(fr, i);
      r := HeadPlace(q, k, i, tmp);
    }
  }

  /** The row that kills row `m`. With the domino tree, domino and high-level killers are not sent
      through the permutation; their places are rows already. */
  method Currpiv(q: HqrTree, k: nat, m: nat) returns (r: int)
    requires AtStep(q, k) && k < m < q.mt
    ensures k <= r < q.mt && PlaceOf(q, k, r) == TreeOf(q, k).killer(PlaceOf(q, k, m))
  {
    hide TreeOf, HasPermutation, PlaceOf, RowOf, Kind, Killer, LevelsOf, StepOk;
    StepHasPermutation(q, k);
    PlacesAndRows(q, k, m);
    var perm_m := Place(q, k, m);
    var kind := GetType(q, k, m);
    KillerIsPlaced(q, k, perm_m);
    var i := KillerPlace(q, k, perm_m, kind);
    if q.domino && kind >= 2 {
      return i;
    }
    r := AtPlace(q, k, i);
  }

  lemma StepHasPermutation(q: HqrTree, k: nat)
    requires AtStep(q, k)
    ensures HasPermutation(q, k) && k < q.mt
  {
  }

  /** With a flat low-level tree, the diagonal row of a domain kills all rows of kind 1 in it. */
  lemma FlatLowKiller(q: HqrTree, k: nat, u: int)
    requires AtStep(q, k) && q.low.lookups.LowFlat? && k < u < q.mt && Kind(FrameOf(q, k), u) == 1
    ensures var r := TreeOf(q, k).killer(u);
      r % q.p == u % q.p && if q.domino then r / q.p == k else k <= r < k + q.p
  {
    var fr, lv := FrameOf(q, k), LevelsOf(q, k);
    LevelsAreOk(q, k);
    RowParts(fr, u);
    var rank := Rank(fr, u);
    KindByDiagonal(fr, u);
    LowTreeOf(fr, lv, u);
    Low.FlatTreeIsFlat(q.low, k, rank, Root(fr, rank));
    assert lv.low(rank).killer(Macro(fr, u)) == Root(fr, rank);
    HeadOfMacro(fr, Root(fr, rank), rank);
    DiagonalRow(fr, rank);
  }

  /** With a flat high-level tree, row `k` kills all other rows of the band. */
  lemma FlatHighKiller(q: HqrTree, k: nat, u: int)
    requires AtStep(q, k) && q.high.Some? && q.high.value.lookups.HighFlat? && k < u < Min(k + q.p, q.mt)
    ensures TreeOf(q, k).killer(u) == k
  {
    High.FlatTreeIsFlat(q.high.value, k);
  }

  lemma KillerIsPlaced(q: HqrTree, k: nat, i: nat)
    requires AtStep(q, k) && k < i < q.mt
    ensures var r := TreeOf(q, k).killer(i);
      && r == Killer(FrameOf(q, k), LevelsOf(q, k), i) && k <= r < i
      && (Kind(FrameOf(q, k), i) >= 2 ==> PlaceOf(q, k, r) == r)
  {
    LevelsAreOk(q, k);
    KillerOfRow(FrameOf(q, k), LevelsOf(q, k), i);
    PlacesAndRows(q, k, TreeOf(q, k).killer(i));
  }

  method AtPlace(q: HqrTree, k: nat, i: nat) returns (r: int)
    requires HasPermutation(q, k) && k <= i <= q.mt
    ensures k <= r <= q.mt && PlaceOf(q, k, r) == i && (r == q.mt <==> i == q.mt)
  {
    PlacesAndRows(q, k, i);
    r := q.perm[k][i];
  }

  /* What kinds of victims a row has. */

  ghost predicate KillsInDomino(q: HqrTree, k: nat, m: int) {
    q.domino && Local(FrameOf(q, k), m) < k
  }

  /** A row kills nobody of a higher kind than its own and nobody at all if it is a TS row; a row above the
      local row `k` of the domino tree kills by domino and high-level kernels only, and no other row by
      domino kernels. */
  lemma VictimKinds(q: HqrTree, k: nat, m: int)
    requires AtStep(q, k) && InPanel(FrameOf(q, k), m)
    ensures forall u :: IsVictim(TreeOf(q, k), m, u) ==> m < u && 0 <= TreeOf(q, k).kind(u) <= Kind(FrameOf(q, k), m)
    ensures Kind(FrameOf(q, k), m) == 0 ==> forall u :: !IsVictim(TreeOf(q, k), m, u)
    ensures KillsInDomino(q, k, m) ==> forall u :: IsVictim(TreeOf(q, k), m, u) ==> TreeOf(q, k).kind(u) > 1
    ensures !KillsInDomino(q, k, m) ==> forall u :: IsVictim(TreeOf(q, k), m, u) ==> TreeOf(q, k).kind(u) != 2
    ensures Kind(FrameOf(q, k), m) > 0 && !KillsInDomino(q, k, m) ==> IsHead(FrameOf(q, k), m)
  {
    hide Kind, IsHead, Diagonal, Killer;
    HeadByKind(FrameOf(q, k), m);
    forall u | IsVictim(TreeOf(q, k), m, u)
      ensures m < u && 0 <= TreeOf(q, k).kind(u) <= Kind(FrameOf(q, k), m) && Kind(FrameOf(q, k), m) > 0
      ensures if KillsInDomino(q, k, m) then TreeOf(q, k).kind(u) > 1 else TreeOf(q, k).kind(u) != 2
    {
      VictimKind(q, k, m, u);
    }
  }

  lemma VictimKind(q: HqrTree, k: nat, m: int, u: int)
    requires AtStep(q, k) && InPanel(FrameOf(q, k), m) && IsVictim(TreeOf(q, k), m, u)
    ensures m < u && 0 <= TreeOf(q, k).kind(u) <= Kind(FrameOf(q, k), m) && Kind(FrameOf(q, k), m) > 0
    ensures if KillsInDomino(q, k, m) then TreeOf(q, k).kind(u) > 1 else TreeOf(q, k).kind(u) != 2
  {
    hide IsHead, Diagonal, Killer;
    var fr, lv := FrameOf(q, k), LevelsOf(q, k);
    LevelsAreOk(q, k);
    KillerOfVictim(fr, lv, m, u);
    KillerOfRow(fr, lv, u);
    DominoVictim(fr, lv, m, u);
    HeadByKind(fr, m);
    if !IsHead(fr, m) { OnlyHeadsKillBelow(fr, lv, m, u); }
    hide Kind;
  }

  lemma KillerOfVictim(fr: Frame, lv: Levels, m: int, u: int)
    requires Composition.Ok(fr, lv) && IsVictim(StepTree(fr, lv), m, u)
    ensures fr.k < u < fr.mt && Killer(fr, lv, u) == m
  {
  }

  /** The low-level part of the forward search: the answer of the tree, asked once more if the
      macro-tile it names does not exist in the killer's domain. */
  method NextInLowTree(q: HqrTree, k: nat, pivot: nat, lstart: int, ghost start: int) returns (tmp: int)
    requires AtStep(q, k) && InPanel(FrameOf(q, k), pivot) && IsHead(FrameOf(q, k), pivot)
    requires start == q.mt || (IsVictim(TreeOf(q, k), pivot, start) && Kind(FrameOf(q, k), start) == 1)
    requires lstart == if start == q.mt then q.low.ldd else Macro(FrameOf(q, k), start)
    ensures IsNextOfKind(TreeOf(q, k), pivot, start, 1, RowOfMacro(FrameOf(q, k), tmp, pivot % q.p))
    ensures tmp != q.low.ldd ==> 0 <= tmp * q.a * q.p + pivot % q.p < q.mt
  {
    hide Diagonal, Kind, IsHead, Head;
    ghost var fr, lv := FrameOf(q, k), LevelsOf(q, k);
    LevelsAreOk(q, k);
    HeadIsUnique(fr, pivot);
    LowTreeOf(fr, lv, pivot);
    if start != q.mt { LowStart(fr, lv, pivot, start); }
    var rpivot := pivot % q.p;
    var p_pa := pivot / q.p / q.a;
    var k_a := RootMacro(q, k, pivot);
    ghost var lt := lv.low(rpivot);
    assert lt == Low.LowTree(q.low, k, rpivot, k_a);
    tmp := Low.Nextpiv(q.low, k, rpivot, k_a, p_pa, lstart);
    ghost var first := tmp;
    ghost var second := Next(lt, p_pa, first);
    if tmp * q.a * q.p + rpivot >= q.mt && tmp == q.low.ldd - 1 {
      assert Later(lt, p_pa, lstart, first);
      tmp := Low.Nextpiv(q.low, k, rpivot, k_a, p_pa, tmp);
      NextIsUnique(lt, p_pa, first, tmp, second);
    }
    NextLow(fr, lv, pivot, start, first, second, tmp);
  }

  method PrevInLowTree(q: HqrTree, k: nat, pivot: nat, lstart: int, ghost start: int) returns (tmp: int)
    requires AtStep(q, k) && InPanel(FrameOf(q, k), pivot) && IsHead(FrameOf(q, k), pivot)
    requires start == pivot || (IsVictim(TreeOf(q, k), pivot, start) && Kind(FrameOf(q, k), start) == 1)
    requires lstart == Macro(FrameOf(q, k), start)
    ensures IsPrevOfKind(TreeOf(q, k), pivot, start, 1, RowOfMacro(FrameOf(q, k), tmp, pivot % q.p))
    ensures tmp != q.low.ldd ==> 0 <= tmp * q.a * q.p + pivot % q.p < q.mt
  {
    hide Diagonal, Kind, IsHead, Head;
    ghost var fr, lv := FrameOf(q, k), LevelsOf(q, k);
    LevelsAreOk(q, k);
    HeadIsUnique(fr, pivot);
    LowTreeOf(fr, lv, pivot);
    if start != pivot { LowStart(fr, lv, pivot, start); }
    var rpivot := pivot % q.p;
    var p_pa := pivot / q.p / q.a;
    var k_a := RootMacro(q, k, pivot);
    ghost var lt := lv.low(rpivot);
    assert lt == Low.LowTree(q.low, k, rpivot, k_a);
    tmp := Low.Prevpiv(q.low, k, rpivot, k_a, p_pa, lstart);
    ghost var first := tmp;
    ghost var second := if first == q.low.ldd - 1 then Previous(lt, p_pa, first) else first;
    if tmp * q.a * q.p + rpivot >= q.mt && tmp == q.low.ldd - 1 {
      assert Earlier(lt, p_pa, lstart, first);
      tmp := Low.Prevpiv(q.low, k, rpivot, k_a, p_pa, tmp);
      PrevIsUnique(lt, p_pa, first, tmp, second);
    }
    PrevLow(fr, lv, pivot, start, first, second, tmp);
  }

  /* Forward search, one method per kind. The position is `mt` or a victim of that kind. */

  method NextByTS(q: HqrTree, k: nat, pivot: nat, start: nat) returns (n: int)
    requires AtStep(q, k) && InPanel(FrameOf(q, k), pivot) && IsHead(FrameOf(q, k), pivot)
    requires start == q.mt || (IsVictim(TreeOf(q, k), pivot, start) && Kind(FrameOf(q, k), start) == 0)
    ensures IsNextOfKind(TreeOf(q, k), pivot, start, 0, n)
    ensures 0 <= n <= q.mt
  {
    LevelsAreOk(q, k);
    var nextp := if start == q.mt then pivot + q.p else start + q.p;
    NextTS(FrameOf(q, k), LevelsOf(q, k), pivot, start, nextp,
           if nextp < q.mt && (nextp / q.p) % q.a != 0 then nextp else q.mt);
    TSRowIsClose(q, k, pivot, start, nextp);
    if nextp < q.mt && nextp < pivot + q.a * q.p && (nextp / q.p) % q.a != 0 {
      return nextp;
    }
    return q.mt;
  }

  method NextByLowTree(q: HqrTree, k: nat, pivot: nat, start: nat) returns (n: int)
    requires AtStep(q, k) && InPanel(FrameOf(q, k), pivot) && IsHead(FrameOf(q, k), pivot)
    requires start == q.mt || (IsVictim(TreeOf(q, k), pivot, start) && Kind(FrameOf(q, k), start) == 1)
    ensures IsNextOfKind(TreeOf(q, k), pivot, start, 1, n)
    ensures 0 <= n <= q.mt
  {
    hide Diagonal, Kind, IsHead, Head, Killer;
    var lstart := if start == q.mt then q.low.ldd * q.a else start / q.p;
    QuotientIs(q.low.ldd * q.a, q.a, q.low.ldd, 0);
    var tmp := NextInLowTree(q, k, pivot, lstart / q.a, start);
    if tmp != q.low.ldd {
      return tmp * q.a * q.p + pivot % q.p;
    }
    return q.mt;
  }

  method NextByDomino(q: HqrTree, k: nat, pivot: nat, start: nat) returns (n: int)
    requires AtStep(q, k) && InPanel(FrameOf(q, k), pivot)
    requires start == q.mt || (IsVictim(TreeOf(q, k), pivot, start) && Kind(FrameOf(q, k), start) == 2)
    ensures IsNextOfKind(TreeOf(q, k), pivot, start, 2, n)
    ensures 0 <= n <= q.mt
  {
    LevelsAreOk(q, k);
    NextDomino(FrameOf(q, k), LevelsOf(q, k), pivot,
               if q.domino && pivot / q.p < k && pivot + q.p < q.mt then pivot + q.p else q.mt);
    if q.domino && start == q.mt && pivot / q.p < k && pivot + q.p < q.mt {
      return pivot + q.p;
    }
    if start != q.mt { OneDominoVictim(q, k, pivot, start); }
    return q.mt;
  }

  method NextByHighTree(q: HqrTree, k: nat, pivot: nat, start: nat) returns (n: int)
    requires AtStep(q, k) && InPanel(FrameOf(q, k), pivot) && Kind(FrameOf(q, k), pivot) == 3
    requires start == q.mt || (IsVictim(TreeOf(q, k), pivot, start) && Kind(FrameOf(q, k), start) == 3)
    ensures IsNextOfKind(TreeOf(q, k), pivot, start, 3, n)
    ensures 0 <= n <= q.mt
  {
    ghost var fr, lv := FrameOf(q, k), LevelsOf(q, k);
    LevelsAreOk(q, k);
    if start != q.mt { HighVictim(fr, lv, pivot, start); }
    if q.high.Some? {
      n := High.Nextpiv(q.high.value, k, pivot, start);
      NextHigh(fr, lv, pivot, start, n);
    } else {
      NoHighVictim(q, k, pivot, start);
      n := q.mt;
    }
  }

  /** The forward search through the kinds. `ls` and `lp` are the kinds of `start` and `pivot`. */
  method NextPlace(q: HqrTree, k: nat, pivot: nat, start: nat, ls: int, lp: int) returns (r: int)
    requires AtStep(q, k) && k <= pivot < start <= q.mt && pivot < q.mt && ForwardStart(TreeOf(q, k), pivot, start)
    requires ls == if start < q.mt then Kind(FrameOf(q, k), start) else -1
    requires lp == Kind(FrameOf(q, k), pivot)
    ensures k <= r <= q.mt && IsNext(TreeOf(q, k), pivot, start, r)
  {
    hide StepOk, IsHead, Kind, TreeOf, Valid, Later, Before, IsNext, IsNextOfKind, DoneBelow;
    ghost var T := TreeOf(q, k);
    TreeShape(q, k);
    VictimKinds(q, k, pivot);
    StartsAtOwnKind(T, pivot, start);
    if start == q.mt { NothingDone(q, k, pivot); }
    var gmt := q.mt;
    var cur := start;
    var inDomino := q.domino && pivot / q.p < k;

    if ls == -1 && lp == 0 {
      NoNext(T, pivot, start, 0);
      return gmt;
    }

    if ls <= 0 {
      if !inDomino {
        r := NextByTS(q, k, pivot, cur);
        NextAtKind(T, pivot, start, cur, 0, r);
        if r != gmt {
          return;
        }
        cur := gmt;
      }
    }

    if ls <= 1 {
      if !inDomino {
        r := NextByLowTree(q, k, pivot, cur);
        NextAtKind(T, pivot, start, cur, 1, r);
        if r != gmt {
          return;
        }
      } else {
        SkipLowKinds(q, k, pivot, start);
      }
      cur := gmt;
    }

    if ls <= 2 {
      if lp < 2 {
        NoNext(T, pivot, start, 2);
        return gmt;
      }
      r := NextByDomino(q, k, pivot, cur);
      NextAtKind(T, pivot, start, cur, 2, r);
      if r != gmt {
        return;
      }
      cur := gmt;
    }

    if lp < 3 {
      NoNext(T, pivot, start, 3);
      return gmt;
    }
    r := NextByHighTree(q, k, pivot, cur);
    NextAtKind(T, pivot, start, cur, 3, r);
    if r == gmt { NoNext(T, pivot, start, 4); }
  }

  lemma NothingDone(q: HqrTree, k: nat, m: int)
    requires AtStep(q, k) && InPanel(FrameOf(q, k), m)
    ensures DoneBelow(TreeOf(q, k), m, q.mt, 0) && DoneAbove(TreeOf(q, k), m, m, 3)
  {
    hide StepOk, TreeOf, Kind;
    TreeShape(q, k);
  }

  lemma SkipLowKinds(q: HqrTree, k: nat, m: int, s: int)
    requires AtStep(q, k) && InPanel(FrameOf(q, k), m) && KillsInDomino(q, k, m)
    ensures DoneBelow(TreeOf(q, k), m, s, 2)
  {
    hide StepOk, TreeOf, Kind;
    VictimKinds(q, k, m);
  }

  /** The next row that `pivot` kills after `start`, where `start` is `mt` to ask for the first; `mt` is
      the answer when there is none, and -1 when `pivot` does not kill `start`. */
  method Nextpiv(q: HqrTree, k: nat, pivot: nat, start: nat) returns (r: int)
    requires AtStep(q, k) && k <= pivot < q.mt && k <= start <= q.mt
    ensures if ForwardStart(TreeOf(q, k), PlaceOf(q, k, pivot), PlaceOf(q, k, start)) then
              k <= r <= q.mt && IsNext(TreeOf(q, k), PlaceOf(q, k, pivot), PlaceOf(q, k, start), PlaceOf(q, k, r))
            else
              r == -1
  {
    hide StepOk, Kind, TreeOf, HasPermutation, PlaceOf, RowOf, IsNext, Valid;
    TreeShape(q, k);
    PlacesAndRows(q, k, start);
    PlacesAndRows(q, k, pivot);
    PlacesAndRows(q, k, q.mt);
    var cur := Place(q, k, start);
    var piv := Place(q, k, pivot);
    VictimKinds(q, k, piv);
    if !(cur > piv && piv >= k) {
      return -1;
    }
    if start != q.mt {
      var killer := Currpiv(q, k, start);
      PlacesAndRows(q, k, killer);
      if pivot != killer {
        return -1;
      }
    }
    var ls := -1;
    if cur < q.mt {
      ls := GetType(q, k, start);
    }
    var lp := GetType(q, k, pivot);
    r := NextPlace(q, k, piv, cur, ls, lp);
    r := AtPlace(q, k, r);
  }

  lemma TreeShape(q: HqrTree, k: nat)
    requires StepOk(q, k)
    ensures Valid(TreeOf(q, k)) && HasPermutation(q, k) && k < q.mt
    ensures TreeOf(q, k).root == k && TreeOf(q, k).end == TreeOf(q, k).none == q.mt
    ensures forall m :: TreeOf(q, k).kind(m) == Kind(FrameOf(q, k), m) && 0 <= Kind(FrameOf(q, k), m) <= 3
  {
    LevelsAreOk(q, k);
  }

  /** The bound the code puts on TS rows is implied by staying in the macro-tile. */
  lemma TSRowIsClose(q: HqrTree, k: nat, m: nat, s: int, u: int)
    requires StepOk(q, k) && InPanel(FrameOf(q, k), m) && IsHead(FrameOf(q, k), m)
    requires s == q.mt || (IsVictim(TreeOf(q, k), m, s) && Kind(FrameOf(q, k), s) == 0)
    requires u == (if s == q.mt then m else s) + q.p
    ensures u < q.mt && (u / q.p) % q.a != 0 ==> u < m + q.a * q.p
  {
    var fr := FrameOf(q, k);
    LevelsAreOk(q, k);
    if s != q.mt { TSVictim(fr, LevelsOf(q, k), m, s); }
    SameMacroIsClose(fr, m, if s == q.mt then m else s);
  }

  lemma SameMacroIsClose(fr: Frame, m: nat, v: nat)
    requires Rank(fr, m) == Rank(fr, v) && Macro(fr, m) == Macro(fr, v)
    ensures ((v + fr.p) / fr.p) % fr.a != 0 ==> v + fr.p < m + fr.a * fr.p
  {
    QuotientShift(v, fr.p, 1);
    RowParts(fr, m);
    RowParts(fr, v);
    StaysInMacro(fr, Local(fr, v));
    QuotientTimes(Local(fr, v) + 1, fr.a);
    SameDomainOrder(fr, Local(fr, v) + 1, Local(fr, m) + fr.a, Rank(fr, m));
    MulDistributes(Local(fr, m), fr.a, fr.p);
    MulDistributes(Local(fr, v), 1, fr.p);
  }

  lemma OneDominoVictim(q: HqrTree, k: nat, m: int, s: int)
    requires StepOk(q, k) && InPanel(FrameOf(q, k), m)
    requires IsVictim(TreeOf(q, k), m, s) && Kind(FrameOf(q, k), s) == 2
    ensures IsNextOfKind(TreeOf(q, k), m, s, 2, q.mt) && IsPrevOfKind(TreeOf(q, k), m, s, 2, q.mt)
    ensures q.domino && Local(FrameOf(q, k), m) < k
  {
    LevelsAreOk(q, k);
    DominoVictim(FrameOf(q, k), LevelsOf(q, k), m, s);
    forall u | IsVictim(TreeOf(q, k), m, u) && Kind(FrameOf(q, k), u) == 2 ensures u == s {
      DominoVictim(FrameOf(q, k), LevelsOf(q, k), m, u);
    }
  }

  lemma NoHighVictim(q: HqrTree, k: nat, m: int, s: int)
    requires StepOk(q, k) && q.high.None? && InPanel(FrameOf(q, k), m)
    ensures IsNextOfKind(TreeOf(q, k), m, s, 3, q.mt) && IsPrevOfKind(TreeOf(q, k), m, s, 3, q.mt)
  {
  }

  /* Backward search, one method per kind. The position is the killer itself or a victim of that kind. */

  method PrevByHighTree(q: HqrTree, k: nat, pivot: nat, start: nat) returns (n: int)
    requires AtStep(q, k) && InPanel(FrameOf(q, k), pivot) && Kind(FrameOf(q, k), pivot) == 3
    requires start == pivot || (IsVictim(TreeOf(q, k), pivot, start) && Kind(FrameOf(q, k), start) == 3)
    ensures IsPrevOfKind(TreeOf(q, k), pivot, start, 3, n)
    ensures 0 <= n <= q.mt
  {
    ghost var fr, lv := FrameOf(q, k), LevelsOf(q, k);
    LevelsAreOk(q, k);
    if start != pivot { HighVictim(fr, lv, pivot, start); }
    if q.high.Some? {
      n := High.Prevpiv(q.high.value, k, pivot, start);
      PrevHigh(fr, lv, pivot, start, n);
    } else {
      NoHighVictim(q, k, pivot, start);
      n := q.mt;
    }
  }

  method PrevByDomino(q: HqrTree, k: nat, pivot: nat, start: nat) returns (n: int)
    requires AtStep(q, k) && InPanel(FrameOf(q, k), pivot) && q.domino && pivot / q.p < k
    requires start == pivot || (IsVictim(TreeOf(q, k), pivot, start) && Kind(FrameOf(q, k), start) == 2)
    ensures IsPrevOfKind(TreeOf(q, k), pivot, start, 2, n)
    ensures 0 <= n <= q.mt
  {
    LevelsAreOk(q, k);
    PrevDomino(FrameOf(q, k), LevelsOf(q, k), pivot, if pivot + q.p < q.mt then pivot + q.p else q.mt);
    if start == pivot && start + q.p < q.mt {
      return start + q.p;
    }
    if start != pivot { OneDominoVictim(q, k, pivot, start); }
    return q.mt;
  }

  method PrevByLowTree(q: HqrTree, k: nat, pivot: nat, start: nat) returns (n: int)
    requires AtStep(q, k) && InPanel(FrameOf(q, k), pivot) && IsHead(FrameOf(q, k), pivot)
    requires start == pivot || (IsVictim(TreeOf(q, k), pivot, start) && Kind(FrameOf(q, k), start) == 1)
    ensures IsPrevOfKind(TreeOf(q, k), pivot, start, 1, n)
    ensures 0 <= n <= q.mt
  {
    hide Diagonal, Kind, IsHead, Head, Killer;
    var lstart := start / q.p;
    var tmp := PrevInLowTree(q, k, pivot, lstart / q.a, start);
    if tmp != q.low.ldd {
      return tmp * q.a * q.p + pivot % q.p;
    }
    return q.mt;
  }

  method PrevByTS(q: HqrTree, k: nat, pivot: nat, start: nat) returns (n: int)
    requires AtStep(q, k) && InPanel(FrameOf(q, k), pivot) && IsHead(FrameOf(q, k), pivot)
    requires start == pivot || (IsVictim(TreeOf(q, k), pivot, start) && Kind(FrameOf(q, k), start) == 0)
    ensures IsPrevOfKind(TreeOf(q, k), pivot, start, 0, n)
    ensures 0 <= n <= q.mt
  {
    hide Diagonal, IsHead, Head, Kind;
    ghost var fr, lv := FrameOf(q, k), LevelsOf(q, k);
    LevelsAreOk(q, k);
    var nextp;
    if start == pivot {
      var lpivot := pivot / q.p;
      var tmp := lpivot + q.a - 1 - lpivot % q.a;
      nextp := tmp * q.p + pivot % q.p;
      LastRowOfMacro(fr, lv, pivot);
      while pivot < nextp && nextp >= q.mt
        invariant BoundsTSRows(fr, lv, pivot, nextp)
        decreases nextp
      {
        OneRowUp(fr, lv, pivot, nextp);
        nextp := nextp - q.p;
      }
      LastTS(fr, lv, pivot, nextp, if pivot < nextp then nextp else q.mt);
    } else {
      nextp := start - q.p;
      PrevTS(fr, lv, pivot, start, if pivot < nextp then nextp else q.mt);
    }
    assert nextp < q.mt;
    if pivot < nextp {
      return nextp;
    }
    return q.mt;
  }

  /** The backward search through the kinds. */
  method PrevPlace(q: HqrTree, k: nat, pivot: nat, start: nat, ls: int, lp: int) returns (r: int)
    requires AtStep(q, k) && k <= pivot <= start < q.mt && BackwardStart(TreeOf(q, k), pivot, start)
    requires ls == Kind(FrameOf(q, k), start) && lp == Kind(FrameOf(q, k), pivot)
    ensures k <= r <= q.mt && IsPrev(TreeOf(q, k), pivot, start, r)
  {
    hide StepOk, IsHead, Kind, TreeOf, Valid, Earlier, Before, IsPrev, IsPrevOfKind, DoneAbove;
    ghost var T := TreeOf(q, k);
    TreeShape(q, k);
    VictimKinds(q, k, pivot);
    StartsAtOwnKind(T, pivot, start);
    if start == pivot { NothingDoneAbove(q, k, pivot); }
    var gmt := q.mt;
    var cur := start;
    var inDomino := q.domino && pivot / q.p < k;

    if lp == 0 {
      NoPrev(T, pivot, start, ls);
      return gmt;
    }

    if ls == 3 {
      r := PrevByHighTree(q, k, pivot, cur);
      PrevAtKind(T, pivot, start, cur, 3, r);
      if r != gmt {
        return;
      }
      cur := pivot;
    }

    if ls >= 2 {
      if inDomino {
        r := PrevByDomino(q, k, pivot, cur);
        PrevAtKind(T, pivot, start, cur, 2, r);
        if r != gmt {
          return;
        }
        NoPrev(T, pivot, start, 1);
        return gmt;
      }
      SkipKind(T, pivot, start, 2);
      cur := pivot;
    }

    if ls >= 1 {
      if inDomino {
        NoPrev(T, pivot, start, 1);
        return gmt;
      }
      r := PrevByLowTree(q, k, pivot, cur);
      PrevAtKind(T, pivot, start, cur, 1, r);
      if r != gmt {
        return;
      }
      cur := pivot;
    }

    r := PrevByTS(q, k, pivot, cur);
    PrevAtKind(T, pivot, start, cur, 0, r);
    if r == gmt { NoPrev(T, pivot, start, -1); }
  }

  /** From the killer itself, the search starts at the killer's own kind. */
  lemma NothingDoneAbove(q: HqrTree, k: nat, m: int)
    requires AtStep(q, k) && InPanel(FrameOf(q, k), m)
    ensures DoneAbove(TreeOf(q, k), m, m, Kind(FrameOf(q, k), m))
  {
    hide StepOk, TreeOf, Kind;
    VictimKinds(q, k, m);
  }

  /** The row that `pivot` kills before `start`, where `start` is `pivot` itself to ask for the last; `mt`
      is the answer when there is none, and -1 when `pivot` does not kill `start`. */
  method Prevpiv(q: HqrTree, k: nat, pivot: nat, start: nat) returns (r: int)
    requires AtStep(q, k) && k <= pivot < q.mt && k <= start < q.mt
    ensures if BackwardStart(TreeOf(q, k), PlaceOf(q, k, pivot), PlaceOf(q, k, start)) then
              k <= r <= q.mt && IsPrev(TreeOf(q, k), PlaceOf(q, k, pivot), PlaceOf(q, k, start), PlaceOf(q, k, r))
            else
              r == -1
  {
    hide StepOk, Kind, TreeOf, HasPermutation, PlaceOf, RowOf, IsPrev, Valid;
    TreeShape(q, k);
    PlacesAndRows(q, k, start);
    PlacesAndRows(q, k, pivot);
    var cur := Place(q, k, start);
    var piv := Place(q, k, pivot);
    VictimKinds(q, k, piv);
    if !(cur >= piv && piv >= k && cur < q.mt) {
      return -1;
    }
    if start != pivot {
      var killer := Currpiv(q, k, start);
      PlacesAndRows(q, k, killer);
      if pivot != killer {
        return -1;
      }
    }
    var ls := GetType(q, k, start);
    var lp := GetType(q, k, pivot);
    if !(lp == 0 || lp >= ls) {
      return -1;
    }
    r := PrevPlace(q, k, piv, cur, ls, lp);
    r := AtPlace(q, k, r);
  }
}
