/** The composition theorem: one search by kinds over the whole step is the TS chain, then the
    low-level tree of the killer's domain, then the domino chain, then the high-level tree. */
module Composition {
  import opened Counting
  import opened Hierarchy
  import opened Integers
  import opened ReductionTrees

  /** The trees plugged into the two levels: one low-level tree per domain, one high-level tree. */
  datatype Levels = Levels(low: int -> Tree, lowAscending: bool, high: Tree, highAscending: bool)

  ghost predicate LowFits(fr: Frame, t: Tree, rank: int, ascending: bool) {
    && Valid(t) && t.root == Root(fr, rank) && t.end == t.none == fr.ldd
    && (forall i :: t.kind(i) == 0) && t.ascending(0) == ascending
  }

  ghost predicate HighFits(fr: Frame, t: Tree, ascending: bool) {
    && Valid(t) && t.root == fr.k && t.end == Min(fr.k + fr.p, fr.mt) && t.none == fr.mt
    && (forall i :: t.kind(i) == 0) && t.ascending(0) == ascending
  }

  ghost predicate Ok(fr: Frame, lv: Levels) {
    && Fits(fr)
    && (forall rank :: 0 <= rank < fr.p && Root(fr, rank) < fr.ldd ==> LowFits(fr, lv.low(rank), rank, lv.lowAscending))
    && HighFits(fr, lv.high, lv.highAscending)
  }

  ghost function Killer(fr: Frame, lv: Levels, m: int): int {
    match Kind(fr, m)
    case 0 => Head(fr, Macro(fr, m), Rank(fr, m))
    case 1 => Head(fr, lv.low(Rank(fr, m)).killer(Macro(fr, m)), Rank(fr, m))
    case 2 => m - fr.p
    case _ => lv.high.killer(m)
  }

  ghost function StepTree(fr: Frame, lv: Levels): Tree {
    Tree(fr.k, fr.mt, fr.mt, m => Killer(fr, lv, m), m => Kind(fr, m),
         y => if y == 1 then lv.lowAscending else if y == 3 then lv.highAscending else true)
  }

  lemma LowTreeOf(fr: Frame, lv: Levels, m: int)
    requires Ok(fr, lv) && InPanel(fr, m) && Macro(fr, m) >= Root(fr, Rank(fr, m))
    ensures 0 <= Rank(fr, m) < fr.p
    ensures LowFits(fr, lv.low(Rank(fr, m)), Rank(fr, m), lv.lowAscending)
    ensures IsRow(lv.low(Rank(fr, m)), Macro(fr, m))
  {
    RowParts(fr, m);
    MacroInRange(fr, m);
  }

  /** What kills a row, by its kind; the killer is a smaller row of the panel in every case, of a kind
      at least as high, and below the high level it stays in the row's own domain. */
  lemma KillerOfRow(fr: Frame, lv: Levels, u: int)
    requires Ok(fr, lv) && fr.k < u < fr.mt
    ensures fr.k <= Killer(fr, lv, u) < u
    ensures Kind(fr, Killer(fr, lv, u)) >= Kind(fr, u)
    ensures Kind(fr, u) != 0 || Kind(fr, Killer(fr, lv, u)) > 0
    ensures Kind(fr, u) < 3 ==> Rank(fr, Killer(fr, lv, u)) == Rank(fr, u)
  {
    var rank := Rank(fr, u);
    var m := Killer(fr, lv, u);
    RowParts(fr, u);
    KindByDiagonal(fr, u);
    match Kind(fr, u) {
      case 0 =>
        TSRow(fr, u);
        HeadOfMacro(fr, Macro(fr, u), rank);
        RowParts(fr, m);
        SameDomainOrder(fr, Local(fr, m), Local(fr, u), rank);
        TSRow(fr, m);
      case 1 =>
        LowTreeOf(fr, lv, u);
        var t := lv.low(rank).killer(Macro(fr, u));
        HeadOfMacro(fr, t, rank);
        HeadOfMacro(fr, Macro(fr, u), rank);
        HeadIsUnique(fr, u);
        HeadOrder(fr, t, Macro(fr, u), rank);
        TSRow(fr, m);
      case 2 =>
        QuotientShift(u, fr.p, -1);
        KindByDiagonal(fr, m);
      case _ =>
        assert Kind(fr, m) == 3;
    }
  }

  /** A TS row is killed in its own domain and macro-tile, by the first row there that is in the panel and, with the
      domino tree, not above the local diagonal. */
  lemma KillerOfTSRow(fr: Frame, lv: Levels, u: int)
    requires Ok(fr, lv) && fr.k < u < fr.mt && Kind(fr, u) == 0
    ensures var r := Killer(fr, lv, u);
      && r % fr.p == u % fr.p && r / fr.p / fr.a == u / fr.p / fr.a && fr.k <= r < u
      && (r - fr.p < fr.k || (fr.domino && r / fr.p == fr.k) || (r - fr.p) / fr.p / fr.a < r / fr.p / fr.a)
  {
    var r := Killer(fr, lv, u);
    TSRow(fr, u);
    HeadOfMacro(fr, Macro(fr, u), Rank(fr, u));
    KillerOfRow(fr, lv, u);
    RowParts(fr, r);
    KindByRowAbove(fr, r);
    if r - fr.p >= fr.k {
      QuotientMonotone(r - fr.p, r, fr.p);
      QuotientMonotone((r - fr.p) / fr.p, r / fr.p, fr.a);
    }
    DiagonalRow(fr, Rank(fr, r));
  }

  lemma HeadOrder(fr: Frame, t: int, t': int, rank: int)
    requires 0 <= rank < fr.p && Root(fr, rank) <= t < t'
    ensures Head(fr, t, rank) < Head(fr, t', rank)
  {
    HeadBelowDiagonal(fr, t', rank);
    if t == Root(fr, rank) {
      SameDomainOrder(fr, Diagonal(fr, rank), t' * fr.a, rank);
    } else {
      SameDomainOrder(fr, t, t', 0);
      MulMonotone(t + 1, t', fr.a);
      MulDistributes(t, 1, fr.a);
      SameDomainOrder(fr, t * fr.a, t' * fr.a, rank);
    }
  }

  lemma StepTreeIsValid(fr: Frame, lv: Levels)
    requires Ok(fr, lv)
    ensures Valid(StepTree(fr, lv))
  {
    var t := StepTree(fr, lv);
    forall u | t.root < u < t.end ensures t.root <= t.killer(u) < u {
      KillerOfRow(fr, lv, u);
    }
  }

  /** A kill leaves the domain exactly if it is one of the high-level tree. */
  lemma CrossesDomain(fr: Frame, lv: Levels, u: int)
    requires Ok(fr, lv) && fr.k < u < fr.mt
    ensures Rank(fr, Killer(fr, lv, u)) != Rank(fr, u) <==> Kind(fr, u) == 3
  {
    KillerOfRow(fr, lv, u);
    if Kind(fr, u) == 3 && Rank(fr, Killer(fr, lv, u)) == Rank(fr, u) {
      SameResidue(Killer(fr, lv, u), u, fr.p);
    }
  }

  /** Every step needs one kill across domains for every domain that has rows, less one. */
  lemma CrossDomainKills(fr: Frame, lv: Levels)
    requires Ok(fr, lv)
    ensures Count(u => Rank(fr, Killer(fr, lv, u)) != Rank(fr, u), fr.k + 1, fr.mt) == Min(fr.p, fr.mt - fr.k) - 1
  {
    var f := u => Rank(fr, Killer(fr, lv, u)) != Rank(fr, u);
    forall u | fr.k + 1 <= u < fr.mt ensures f(u) <==> u - (fr.k + 1) < fr.p - 1 {
      CrossesDomain(fr, lv, u);
    }
    CountPrefix(f, fr.k + 1, fr.mt, fr.p - 1);
  }

  /* The victims of one row, kind by kind. */

  lemma TSVictim(fr: Frame, lv: Levels, m: int, u: int)
    requires Ok(fr, lv) && InPanel(fr, m) && InPanel(fr, u) && Kind(fr, u) == 0
    ensures Killer(fr, lv, u) == m <==>
              IsHead(fr, m) && Rank(fr, u) == Rank(fr, m) && Macro(fr, u) == Macro(fr, m)
    ensures Killer(fr, lv, u) == m ==> Local(fr, m) < Local(fr, u)
  {
    TSRow(fr, u);
    RowParts(fr, u);
    HeadOfMacro(fr, Macro(fr, u), Rank(fr, u));
    if IsHead(fr, m) { HeadIsUnique(fr, m); }
  }

  lemma LowVictim(fr: Frame, lv: Levels, m: int, u: int)
    requires Ok(fr, lv) && InPanel(fr, m) && InPanel(fr, u) && Kind(fr, u) == 1
    ensures Killer(fr, lv, u) == m <==>
              IsHead(fr, m) && Rank(fr, u) == Rank(fr, m)
              && lv.low(Rank(fr, m)).killer(Macro(fr, u)) == Macro(fr, m)
    ensures Root(fr, Rank(fr, u)) < Macro(fr, u) < fr.ldd
    ensures u == Macro(fr, u) * fr.a * fr.p + Rank(fr, u)
  {
    KindByDiagonal(fr, u);
    RowParts(fr, u);
    HeadIsUnique(fr, u);
    LowTreeOf(fr, lv, u);
    HeadOfMacro(fr, lv.low(Rank(fr, u)).killer(Macro(fr, u)), Rank(fr, u));
    if IsHead(fr, m) { HeadIsUnique(fr, m); }
  }

  /** A macro-tile above the root is the low-level tree's business exactly when its head exists. */
  lemma LowRow(fr: Frame, t: int, rank: int)
    requires 0 <= rank < fr.p && Root(fr, rank) < t
    ensures var u := t * fr.a * fr.p + rank;
      u > fr.k && Kind(fr, u) == 1 && Macro(fr, u) == t && Rank(fr, u) == rank
  {
    HeadOfMacro(fr, t, rank);
    HeadOfMacro(fr, Root(fr, rank), rank);
    HeadOrder(fr, Root(fr, rank), t, rank);
    HeadBelowDiagonal(fr, t, rank);
    KindByDiagonal(fr, Head(fr, t, rank));
    QuotientIs(t * fr.a, fr.a, t, 0);
  }

  lemma OnlyTheLastMayBeMissing(fr: Frame, t: int, rank: int)
    requires Fits(fr) && 0 <= rank < fr.p && 0 <= t < fr.ldd - 1
    ensures t * fr.a * fr.p + rank < fr.mt
  {
    MulMonotone(t + 1, fr.ldd - 1, fr.a);
    MulDistributes(t, 1, fr.a);
    MulMonotone(t * fr.a + 1, (fr.ldd - 1) * fr.a, fr.p);
    MulDistributes(t * fr.a, 1, fr.p);
  }

  lemma DominoVictim(fr: Frame, lv: Levels, m: int, u: int)
    requires Ok(fr, lv) && InPanel(fr, m)
    ensures IsVictim(StepTree(fr, lv), m, u) && Kind(fr, u) == 2 <==>
              u == m + fr.p && u < fr.mt && fr.domino && Local(fr, m) < fr.k
  {
    QuotientShift(m, fr.p, 1);
    RowParts(fr, m);
    KindByDiagonal(fr, m + fr.p);
  }

  lemma HighVictim(fr: Frame, lv: Levels, m: int, u: int)
    requires Ok(fr, lv) && InPanel(fr, m)
    ensures IsVictim(StepTree(fr, lv), m, u) && Kind(fr, u) == 3 <==> IsVictim(lv.high, m, u)
  {
  }

  /* One search per kind, forward. */

  /** The next row of the TS chain is the next local row, while that stays in the macro-tile. */
  lemma NextTS(fr: Frame, lv: Levels, m: int, s: int, u: int, n: int)
    requires Ok(fr, lv) && InPanel(fr, m) && IsHead(fr, m)
    requires s == fr.mt || (IsVictim(StepTree(fr, lv), m, s) && Kind(fr, s) == 0)
    requires u == (if s == fr.mt then m else s) + fr.p
    requires n == if u < fr.mt && Local(fr, u) % fr.a != 0 then u else fr.mt
    ensures IsNextOfKind(StepTree(fr, lv), m, s, 0, n)
  {
    hide Ok, IsHead, Diagonal, Kind, Killer;
    var t := StepTree(fr, lv);
    var v := if s == fr.mt then m else s;
    if s != fr.mt { TSVictim(fr, lv, m, s); }
    HeadIsUnique(fr, m);
    QuotientShift(v, fr.p, 1);
    RowParts(fr, v);
    StaysInMacro(fr, Local(fr, v));
    if n != fr.mt {
      TSRow(fr, u);
      TSVictim(fr, lv, m, u);
    }
    forall w | Later(t, m, s, w) && Kind(fr, w) == 0
      ensures n != fr.mt && (w != n ==> Before(t, n, w))
    {
      TSVictim(fr, lv, m, w);
      RowParts(fr, w);
      SameDomainOrder(fr, Local(fr, w), Local(fr, v), Rank(fr, v));
      SameDomainOrder(fr, Local(fr, v), Local(fr, w), Rank(fr, v));
      SameDomainOrder(fr, Local(fr, v) + 1, Local(fr, w), Rank(fr, v));
      BetweenInMacro(fr, Local(fr, v), Local(fr, w));
    }
  }

  lemma BetweenInMacro(fr: Frame, l: int, l': int)
    requires 0 <= l < l' && l / fr.a == l' / fr.a
    ensures (l + 1) % fr.a != 0
  {
    QuotientTimes(l, fr.a);
    QuotientTimes(l', fr.a);
    QuotientIs(l + 1, fr.a, l / fr.a, l % fr.a + 1);
  }

  /** A row that heads no macro-tile has no victim of the two lower kinds. */
  lemma OnlyHeadsKillBelow(fr: Frame, lv: Levels, m: int, u: int)
    requires Ok(fr, lv) && InPanel(fr, m) && !IsHead(fr, m) && IsVictim(StepTree(fr, lv), m, u)
    ensures Kind(fr, u) > 1
  {
    if Kind(fr, u) == 0 { TSVictim(fr, lv, m, u); }
    if Kind(fr, u) == 1 { LowVictim(fr, lv, m, u); }
  }

  /** Macro-tile `t` of domain `rank` has a row in the matrix. */
  ghost predicate Exists(fr: Frame, t: int, rank: int) {
    t * fr.a * fr.p + rank < fr.mt
  }

  /** The answer of the low-level tree is passed over once if its macro-tile does not exist in the
      killer's domain; what is left is the next macro-tile among those that do exist. */
  lemma NextExisting(fr: Frame, lt: Tree, rank: int, m: int, s: int, first: int, second: int, t: int)
    requires Fits(fr) && 0 <= rank < fr.p && Valid(lt) && 0 <= lt.root && lt.end == lt.none == fr.ldd
    requires IsNext(lt, m, s, first)
    requires first == fr.ldd - 1 ==> IsNext(lt, m, first, second)
    requires t == if !Exists(fr, first, rank) && first == fr.ldd - 1 then second else first
    ensures t != fr.ldd ==> Later(lt, m, s, t) && Exists(fr, t, rank)
    ensures forall w :: Later(lt, m, s, w) && Exists(fr, w, rank) ==> t != fr.ldd && (w != t ==> Before(lt, t, w))
  {
    if t != fr.ldd && t < fr.ldd - 1 { OnlyTheLastMayBeMissing(fr, t, rank); }
    assert first != fr.ldd ==> Later(lt, m, s, first);
    if t != first {
      assert t != fr.ldd ==> Later(lt, m, first, t);
      forall w | Later(lt, m, s, w) && Exists(fr, w, rank)
        ensures t != fr.ldd && (w != t ==> Before(lt, t, w))
      {
        assert Later(lt, m, first, w);
      }
    }
  }

  ghost function RowOfMacro(fr: Frame, t: int, rank: int): int {
    if t == fr.ldd then fr.mt else t * fr.a * fr.p + rank
  }

  lemma MacroOrder(fr: Frame, lv: Levels, m: int, u: int, v: int)
    requires Ok(fr, lv) && InPanel(fr, m)
    requires IsVictim(StepTree(fr, lv), m, u) && Kind(fr, u) == 1
    requires IsVictim(StepTree(fr, lv), m, v) && Kind(fr, v) == 1
    ensures Before(StepTree(fr, lv), u, v) <==> Before(lv.low(Rank(fr, m)), Macro(fr, u), Macro(fr, v))
  {
    var rank := Rank(fr, m);
    LowVictim(fr, lv, m, u);
    LowVictim(fr, lv, m, v);
    HeadIsUnique(fr, m);
    LowTreeOf(fr, lv, m);
    KindByDiagonal(fr, u);
    KindByDiagonal(fr, v);
    if Macro(fr, u) < Macro(fr, v) { HeadOrder(fr, Macro(fr, u), Macro(fr, v), rank); }
    if Macro(fr, v) < Macro(fr, u) { HeadOrder(fr, Macro(fr, v), Macro(fr, u), rank); }
  }

  lemma NextLow(fr: Frame, lv: Levels, m: int, s: int, first: int, second: int, t: int)
    requires Ok(fr, lv) && InPanel(fr, m) && IsHead(fr, m)
    requires s == fr.mt || (IsVictim(StepTree(fr, lv), m, s) && Kind(fr, s) == 1)
    requires IsNext(lv.low(Rank(fr, m)), Macro(fr, m), if s == fr.mt then fr.ldd else Macro(fr, s), first)
    requires first == fr.ldd - 1 ==> IsNext(lv.low(Rank(fr, m)), Macro(fr, m), first, second)
    requires t == if !Exists(fr, first, Rank(fr, m)) && first == fr.ldd - 1 then second else first
    ensures IsNextOfKind(StepTree(fr, lv), m, s, 1, RowOfMacro(fr, t, Rank(fr, m)))
    ensures t != fr.ldd ==> 0 <= RowOfMacro(fr, t, Rank(fr, m)) < fr.mt
  {
    var T, rank := StepTree(fr, lv), Rank(fr, m);
    HeadIsUnique(fr, m);
    LowTreeOf(fr, lv, m);
    DiagonalRow(fr, rank);
    var lt := lv.low(rank);
    var ls := if s == fr.mt then fr.ldd else Macro(fr, s);
    NextExisting(fr, lt, rank, Macro(fr, m), ls, first, second, t);
    var n := RowOfMacro(fr, t, rank);
    if t != fr.ldd { LaterMacro(fr, lv, m, s, t); }
    forall w | Later(T, m, s, w) && Kind(fr, w) == 1
      ensures n != fr.mt && (w != n ==> Before(T, n, w))
    {
      LaterRow(fr, lv, m, s, w);
      if t != fr.ldd { MacroOrder(fr, lv, m, n, w); }
    }
  }

  /** Later rows and later macro-tiles correspond. */
  lemma LaterRow(fr: Frame, lv: Levels, m: int, s: int, w: int)
    requires Ok(fr, lv) && InPanel(fr, m) && IsHead(fr, m)
    requires s == fr.mt || (IsVictim(StepTree(fr, lv), m, s) && Kind(fr, s) == 1)
    requires Later(StepTree(fr, lv), m, s, w) && Kind(fr, w) == 1
    ensures Later(lv.low(Rank(fr, m)), Macro(fr, m), if s == fr.mt then fr.ldd else Macro(fr, s), Macro(fr, w))
    ensures Exists(fr, Macro(fr, w), Rank(fr, m)) && w == RowOfMacro(fr, Macro(fr, w), Rank(fr, m))
  {
    LowVictim(fr, lv, m, w);
    LowTreeOf(fr, lv, m) by { HeadIsUnique(fr, m); }
    if s != fr.mt {
      MacroOrder(fr, lv, m, s, w);
      LowVictim(fr, lv, m, s);
    }
  }

  lemma LaterMacro(fr: Frame, lv: Levels, m: int, s: int, t: int)
    requires Ok(fr, lv) && InPanel(fr, m) && IsHead(fr, m)
    requires s == fr.mt || (IsVictim(StepTree(fr, lv), m, s) && Kind(fr, s) == 1)
    requires Later(lv.low(Rank(fr, m)), Macro(fr, m), if s == fr.mt then fr.ldd else Macro(fr, s), t)
    requires Exists(fr, t, Rank(fr, m))
    ensures Later(StepTree(fr, lv), m, s, RowOfMacro(fr, t, Rank(fr, m)))
    ensures Kind(fr, RowOfMacro(fr, t, Rank(fr, m))) == 1 && Macro(fr, RowOfMacro(fr, t, Rank(fr, m))) == t
    ensures RowOfMacro(fr, t, Rank(fr, m)) != fr.mt
  {
    var n := RowOfMacro(fr, t, Rank(fr, m));
    LowTreeOf(fr, lv, m) by { HeadIsUnique(fr, m); }
    LowRow(fr, t, Rank(fr, m));
    LowVictim(fr, lv, m, n);
    if s != fr.mt {
      MacroOrder(fr, lv, m, s, n);
      LowVictim(fr, lv, m, s);
    }
  }

  lemma NextHigh(fr: Frame, lv: Levels, m: int, s: int, n: int)
    requires Ok(fr, lv) && InPanel(fr, m)
    requires s == fr.mt || (IsVictim(StepTree(fr, lv), m, s) && Kind(fr, s) == 3)
    requires IsNext(lv.high, m, s, n)
    ensures IsNextOfKind(StepTree(fr, lv), m, s, 3, n)
  {
    var T := StepTree(fr, lv);
    if s != fr.mt { HighVictim(fr, lv, m, s); }
    forall w ensures Later(T, m, s, w) && Kind(fr, w) == 3 <==> Later(lv.high, m, s, w) {
      HighVictim(fr, lv, m, w);
    }
  }

  lemma NextDomino(fr: Frame, lv: Levels, m: int, n: int)
    requires Ok(fr, lv) && InPanel(fr, m)
    requires n == if fr.domino && Local(fr, m) < fr.k && m + fr.p < fr.mt then m + fr.p else fr.mt
    ensures IsNextOfKind(StepTree(fr, lv), m, fr.mt, 2, n)
  {
    forall w ensures IsVictim(StepTree(fr, lv), m, w) && Kind(fr, w) == 2 <==> w == n && n != fr.mt {
      DominoVictim(fr, lv, m, w);
    }
  }

  /* The same searches backward. Here the killer itself stands for "from the end". */

  lemma PrevTS(fr: Frame, lv: Levels, m: int, s: int, n: int)
    requires Ok(fr, lv) && InPanel(fr, m)
    requires IsVictim(StepTree(fr, lv), m, s) && Kind(fr, s) == 0
    requires n == if m < s - fr.p then s - fr.p else fr.mt
    ensures IsPrevOfKind(StepTree(fr, lv), m, s, 0, n)
  {
    hide Ok, IsHead, Diagonal, Kind, Killer;
    var u := s - fr.p;
    TSVictim(fr, lv, m, s);
    HeadIsUnique(fr, m);
    QuotientShift(s, fr.p, -1);
    RowParts(fr, m);
    RowParts(fr, s);
    SameDomainOrder(fr, Local(fr, m), Local(fr, s) - 1, Rank(fr, m));
    if n != fr.mt { BetweenTSRows(fr, lv, m, u, s); }
    forall w | Earlier(StepTree(fr, lv), m, s, w) && Kind(fr, w) == 0
      ensures n != fr.mt && (w != n ==> w < n)
    {
      TSVictim(fr, lv, m, w);
      RowParts(fr, w);
      SameDomainOrder(fr, Local(fr, w), Local(fr, s), Rank(fr, m));
      SameDomainOrder(fr, Local(fr, s) - 1, Local(fr, w), Rank(fr, m));
      SameDomainOrder(fr, Local(fr, m), Local(fr, w), Rank(fr, m));
    }
  }

  /** Rows of the killer's domain between the killer and one of its TS victims are TS victims too. */
  lemma BetweenTSRows(fr: Frame, lv: Levels, m: int, u: int, s: int)
    requires Ok(fr, lv) && InPanel(fr, m) && IsHead(fr, m)
    requires m < u <= s < fr.mt && Rank(fr, u) == Rank(fr, m) == Rank(fr, s) && Macro(fr, s) == Macro(fr, m)
    ensures IsVictim(StepTree(fr, lv), m, u) && Kind(fr, u) == 0
  {
    HeadIsUnique(fr, m);
    RowParts(fr, m);
    RowParts(fr, u);
    RowParts(fr, s);
    SameDomainOrder(fr, Local(fr, u), Local(fr, m), Rank(fr, m));
    SameDomainOrder(fr, Local(fr, s), Local(fr, u), Rank(fr, m));
    QuotientMonotone(Local(fr, m), Local(fr, u), fr.a);
    QuotientMonotone(Local(fr, u), Local(fr, s), fr.a);
    TSRow(fr, u);
    TSVictim(fr, lv, m, u);
  }

  /** `u` lies in the killer's macro-tile and no TS victim lies beyond it. */
  ghost predicate BoundsTSRows(fr: Frame, lv: Levels, m: int, u: int) {
    && m <= u && Rank(fr, u) == Rank(fr, m) && Macro(fr, u) == Macro(fr, m)
    && forall w :: IsVictim(StepTree(fr, lv), m, w) && Kind(fr, w) == 0 ==> w <= u
  }

  /** The last local row of the macro-tile, whether or not it exists. */
  lemma LastRowOfMacro(fr: Frame, lv: Levels, m: int)
    requires Ok(fr, lv) && InPanel(fr, m)
    ensures BoundsTSRows(fr, lv, m, (Local(fr, m) + fr.a - 1 - Local(fr, m) % fr.a) * fr.p + Rank(fr, m))
  {
    var l := Local(fr, m) + fr.a - 1 - Local(fr, m) % fr.a;
    var rank := Rank(fr, m);
    RowParts(fr, m);
    RowIndex(fr, l, rank);
    QuotientIs(l, fr.a, Macro(fr, m), fr.a - 1);
    SameDomainOrder(fr, l, Local(fr, m), rank);
    forall w | IsVictim(StepTree(fr, lv), m, w) && Kind(fr, w) == 0
      ensures w <= l * fr.p + rank
    {
      TSVictim(fr, lv, m, w);
      RowParts(fr, w);
      SameDomainOrder(fr, l, Local(fr, w), rank);
    }
  }

  lemma OneRowUp(fr: Frame, lv: Levels, m: int, u: int)
    requires Ok(fr, lv) && InPanel(fr, m) && BoundsTSRows(fr, lv, m, u) && m < u && fr.mt <= u
    ensures BoundsTSRows(fr, lv, m, u - fr.p)
  {
    OneLocalRowUp(fr, m, u);
    forall w | IsVictim(StepTree(fr, lv), m, w) && Kind(fr, w) == 0
      ensures w <= u - fr.p
    {
      TSVictim(fr, lv, m, w);
      SameDomainGap(fr, w, u);
    }
  }

  lemma SameDomainGap(fr: Frame, w: nat, u: nat)
    requires Rank(fr, w) == Rank(fr, u) && w < u
    ensures w <= u - fr.p && Local(fr, w) <= Local(fr, u) - 1
  {
    RowParts(fr, w);
    RowParts(fr, u);
    SameDomainOrder(fr, Local(fr, w), Local(fr, u), Rank(fr, u));
  }

  lemma OneLocalRowUp(fr: Frame, m: nat, u: nat)
    requires m < u && Rank(fr, u) == Rank(fr, m) && Macro(fr, u) == Macro(fr, m)
    ensures m <= u - fr.p && Rank(fr, u - fr.p) == Rank(fr, m) && Macro(fr, u - fr.p) == Macro(fr, m)
  {
    SameDomainGap(fr, m, u);
    QuotientShift(u, fr.p, -1);
    QuotientMonotone(Local(fr, m), Local(fr, u) - 1, fr.a);
    QuotientMonotone(Local(fr, u) - 1, Local(fr, u), fr.a);
  }

  lemma LastTS(fr: Frame, lv: Levels, m: int, u: int, n: int)
    requires Ok(fr, lv) && InPanel(fr, m) && IsHead(fr, m) && BoundsTSRows(fr, lv, m, u) && u < fr.mt
    requires n == if m < u then u else fr.mt
    ensures IsPrevOfKind(StepTree(fr, lv), m, m, 0, n)
  {
    if m < u { BetweenTSRows(fr, lv, m, u, u); }
    StepTreeIsValid(fr, lv);
    assert forall w :: Earlier(StepTree(fr, lv), m, m, w) && Kind(fr, w) == 0 ==> m < w <= u;
  }

  lemma PrevExisting(fr: Frame, lt: Tree, rank: int, m: int, s: int, first: int, second: int, t: int)
    requires Fits(fr) && 0 <= rank < fr.p && Valid(lt) && 0 <= lt.root && lt.end == lt.none == fr.ldd
    requires IsRow(lt, m) && BackwardStart(lt, m, s)
    requires IsPrev(lt, m, s, first)
    requires first == fr.ldd - 1 ==> IsPrev(lt, m, first, second)
    requires t == if !Exists(fr, first, rank) && first == fr.ldd - 1 then second else first
    ensures t != fr.ldd ==> Earlier(lt, m, s, t) && Exists(fr, t, rank)
    ensures forall w :: Earlier(lt, m, s, w) && Exists(fr, w, rank) ==> t != fr.ldd && (w != t ==> Before(lt, w, t))
  {
    if t != fr.ldd && t < fr.ldd - 1 { OnlyTheLastMayBeMissing(fr, t, rank); }
    assert first != fr.ldd ==> Earlier(lt, m, s, first);
    if t != first {
      assert t != fr.ldd ==> Earlier(lt, m, first, t);
      forall w | Earlier(lt, m, s, w) && Exists(fr, w, rank)
        ensures t != fr.ldd && (w != t ==> Before(lt, w, t))
      {
        assert Earlier(lt, m, first, w);
      }
    }
  }

  lemma PrevLow(fr: Frame, lv: Levels, m: int, s: int, first: int, second: int, t: int)
    requires Ok(fr, lv) && InPanel(fr, m) && IsHead(fr, m)
    requires s == m || (IsVictim(StepTree(fr, lv), m, s) && Kind(fr, s) == 1)
    requires IsPrev(lv.low(Rank(fr, m)), Macro(fr, m), Macro(fr, s), first)
    requires first == fr.ldd - 1 ==> IsPrev(lv.low(Rank(fr, m)), Macro(fr, m), first, second)
    requires t == if !Exists(fr, first, Rank(fr, m)) && first == fr.ldd - 1 then second else first
    ensures IsPrevOfKind(StepTree(fr, lv), m, s, 1, RowOfMacro(fr, t, Rank(fr, m)))
    ensures t != fr.ldd ==> 0 <= RowOfMacro(fr, t, Rank(fr, m)) < fr.mt
  {
    var T, rank := StepTree(fr, lv), Rank(fr, m);
    HeadIsUnique(fr, m);
    LowTreeOf(fr, lv, m);
    DiagonalRow(fr, rank);
    var lt := lv.low(rank);
    if s != m { LowStart(fr, lv, m, s); }
    PrevExisting(fr, lt, rank, Macro(fr, m), Macro(fr, s), first, second, t);
    var n := RowOfMacro(fr, t, rank);
    if t != fr.ldd { EarlierMacro(fr, lv, m, s, t); }
    forall w | Earlier(T, m, s, w) && Kind(fr, w) == 1
      ensures n != fr.mt && (w != n ==> Before(T, w, n))
    {
      EarlierRow(fr, lv, m, s, w);
      if t != fr.ldd { MacroOrder(fr, lv, m, w, n); }
    }
  }

  /** A low-level victim's macro-tile is a victim of the killer's macro-tile. */
  lemma LowStart(fr: Frame, lv: Levels, m: int, s: int)
    requires Ok(fr, lv) && InPanel(fr, m) && IsVictim(StepTree(fr, lv), m, s) && Kind(fr, s) == 1
    ensures IsHead(fr, m) && IsVictim(lv.low(Rank(fr, m)), Macro(fr, m), Macro(fr, s))
  {
    LowVictim(fr, lv, m, s);
    HeadIsUnique(fr, m);
    LowTreeOf(fr, lv, m);
  }

  lemma EarlierRow(fr: Frame, lv: Levels, m: int, s: int, w: int)
    requires Ok(fr, lv) && InPanel(fr, m) && IsHead(fr, m)
    requires s == m || (IsVictim(StepTree(fr, lv), m, s) && Kind(fr, s) == 1)
    requires Earlier(StepTree(fr, lv), m, s, w) && Kind(fr, w) == 1
    ensures Earlier(lv.low(Rank(fr, m)), Macro(fr, m), Macro(fr, s), Macro(fr, w))
    ensures Exists(fr, Macro(fr, w), Rank(fr, m)) && w == RowOfMacro(fr, Macro(fr, w), Rank(fr, m))
  {
    LowVictim(fr, lv, m, w);
    LowTreeOf(fr, lv, m) by { HeadIsUnique(fr, m); }
    if s != m {
      MacroOrder(fr, lv, m, w, s);
      LowVictim(fr, lv, m, s);
    }
  }

  lemma EarlierMacro(fr: Frame, lv: Levels, m: int, s: int, t: int)
    requires Ok(fr, lv) && InPanel(fr, m) && IsHead(fr, m)
    requires s == m || (IsVictim(StepTree(fr, lv), m, s) && Kind(fr, s) == 1)
    requires Earlier(lv.low(Rank(fr, m)), Macro(fr, m), Macro(fr, s), t)
    requires Exists(fr, t, Rank(fr, m))
    ensures Earlier(StepTree(fr, lv), m, s, RowOfMacro(fr, t, Rank(fr, m)))
    ensures Kind(fr, RowOfMacro(fr, t, Rank(fr, m))) == 1 && Macro(fr, RowOfMacro(fr, t, Rank(fr, m))) == t
    ensures RowOfMacro(fr, t, Rank(fr, m)) != fr.mt
  {
    var n := RowOfMacro(fr, t, Rank(fr, m));
    LowTreeOf(fr, lv, m) by { HeadIsUnique(fr, m); }
    LowRow(fr, t, Rank(fr, m));
    LowVictim(fr, lv, m, n);
    if s != m {
      LowStart(fr, lv, m, s);
      MacroOrder(fr, lv, m, n, s);
    }
  }

  lemma PrevHigh(fr: Frame, lv: Levels, m: int, s: int, n: int)
    requires Ok(fr, lv) && InPanel(fr, m)
    requires s == m || (IsVictim(StepTree(fr, lv), m, s) && Kind(fr, s) == 3)
    requires IsPrev(lv.high, m, s, n)
    ensures IsPrevOfKind(StepTree(fr, lv), m, s, 3, n)
  {
    var T := StepTree(fr, lv);
    if s != m { HighVictim(fr, lv, m, s); }
    forall w ensures Earlier(T, m, s, w) && Kind(fr, w) == 3 <==> Earlier(lv.high, m, s, w) {
      HighVictim(fr, lv, m, w);
    }
  }

  lemma PrevDomino(fr: Frame, lv: Levels, m: int, n: int)
    requires Ok(fr, lv) && InPanel(fr, m)
    requires n == if fr.domino && Local(fr, m) < fr.k && m + fr.p < fr.mt then m + fr.p else fr.mt
    ensures IsPrevOfKind(StepTree(fr, lv), m, m, 2, n)
  {
    forall w ensures IsVictim(StepTree(fr, lv), m, w) && Kind(fr, w) == 2 <==> w == n && n != fr.mt {
      DominoVictim(fr, lv, m, w);
    }
  }
}
