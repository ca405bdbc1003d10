/** The specification every elimination tree of the library is measured against.

    At one step of the factorization the rows `[root, end)` are reduced to the single row `root`.
    A tree says which row kills which (`killer`), with which kind of kernel (`kind`), and in which
    direction one killer works through its victims of one kind (`ascending`). Everything the three
    lookup functions of the library may answer follows from these three functions: a killer takes
    its victims by kind, and within a kind in the stated direction. */
module ReductionTrees {

  /** `none` is the answer "no such row"; the C code uses the number of tile rows for it. */
  datatype Tree = Tree(root: int, end: int, none: int, killer: int -> int, kind: int -> int, ascending: int -> bool)

  ghost predicate Valid(t: Tree) {
    && t.root < t.end <= t.none
    && forall s :: t.root < s < t.end ==> t.root <= t.killer(s) < s
  }

  ghost predicate IsRow(t: Tree, m: int) {
    t.root <= m < t.end
  }

  ghost predicate IsVictim(t: Tree, m: int, s: int) {
    t.root < s < t.end && t.killer(s) == m
  }

  /** Row `s` is killed before row `u` when both have the same killer. */
  ghost predicate Before(t: Tree, s: int, u: int) {
    || t.kind(s) < t.kind(u)
    || (t.kind(s) == t.kind(u) && if t.ascending(t.kind(s)) then s < u else u < s)
  }

  /** Starting points: of a forward search (`none` or a victim), of a backward search (`m` or a victim). */
  ghost predicate ForwardStart(t: Tree, m: int, s: int) {
    s == t.none || IsVictim(t, m, s)
  }

  ghost predicate BackwardStart(t: Tree, m: int, s: int) {
    s == m || IsVictim(t, m, s)
  }

  ghost predicate Later(t: Tree, m: int, s: int, u: int) {
    IsVictim(t, m, u) && (s == t.none || Before(t, s, u))
  }

  ghost predicate Earlier(t: Tree, m: int, s: int, u: int) {
    IsVictim(t, m, u) && (s == m || Before(t, u, s))
  }

  /** `n` is the first victim of `m` after `s`, or `none` when there is no such victim. */
  ghost predicate IsNext(t: Tree, m: int, s: int, n: int) {
    if n == t.none then
      forall u :: !Later(t, m, s, u)
    else
      Later(t, m, s, n) && forall u :: Later(t, m, s, u) && u != n ==> Before(t, n, u)
  }

  /** `n` is the last victim of `m` before `s`, or `none` when there is no such victim. */
  ghost predicate IsPrev(t: Tree, m: int, s: int, n: int) {
    if n == t.none then
      forall u :: !Earlier(t, m, s, u)
    else
      Earlier(t, m, s, n) && forall u :: Earlier(t, m, s, u) && u != n ==> Before(t, u, n)
  }

  /* The order among the victims of one row. */

  lemma BeforeIsStrictTotalOrder(t: Tree, r: int, s: int, u: int)
    ensures !Before(t, r, r)
    ensures Before(t, r, s) ==> !Before(t, s, r)
    ensures Before(t, r, s) && Before(t, s, u) ==> Before(t, r, u)
    ensures r != s ==> Before(t, r, s) || Before(t, s, r)
  {
  }

  lemma NextIsUnique(t: Tree, m: int, s: int, n: int, n': int)
    requires Valid(t)
    requires IsNext(t, m, s, n) && IsNext(t, m, s, n')
    ensures n == n'
  {
  }

  lemma PrevIsUnique(t: Tree, m: int, s: int, n: int, n': int)
    requires Valid(t)
    requires IsPrev(t, m, s, n) && IsPrev(t, m, s, n')
    ensures n == n'
  {
  }

  /** The first victim of `m` after `s` among the rows from `lo` on. */
  ghost function FirstFrom(t: Tree, m: int, s: int, lo: int): (n: int)
    requires Valid(t) && t.root < lo <= t.end
    ensures if n == t.none then
              forall u :: lo <= u ==> !Later(t, m, s, u)
            else
              lo <= n && Later(t, m, s, n) && forall u :: lo <= u && Later(t, m, s, u) && u != n ==> Before(t, n, u)
    decreases t.end - lo
  {
    if lo == t.end then t.none else
      var n := FirstFrom(t, m, s, lo + 1);
      if Later(t, m, s, lo) && (n == t.none || Before(t, lo, n)) then lo else n
  }

  ghost function Next(t: Tree, m: int, s: int): (n: int)
    requires Valid(t)
    ensures IsNext(t, m, s, n)
  {
    FirstFrom(t, m, s, t.root + 1)
  }

  /** The last victim of `m` before `s` among the rows up to `hi`. */
  ghost function LastUpTo(t: Tree, m: int, s: int, hi: int): (n: int)
    requires Valid(t) && t.root < hi <= t.end
    ensures if n == t.none then
              forall u :: u < hi ==> !Earlier(t, m, s, u)
            else
              n < hi && Earlier(t, m, s, n) && forall u :: u < hi && Earlier(t, m, s, u) && u != n ==> Before(t, u, n)
    decreases hi - t.root
  {
    if hi == t.root + 1 then t.none else
      var n := LastUpTo(t, m, s, hi - 1);
      if Earlier(t, m, s, hi - 1) && (n == t.none || Before(t, n, hi - 1)) then hi - 1 else n
  }

  ghost function Previous(t: Tree, m: int, s: int): (n: int)
    requires Valid(t)
    ensures IsPrev(t, m, s, n)
  {
    LastUpTo(t, m, s, t.end)
  }

  /** Walking one step forward and one step back leads to where the walk started. */
  lemma NextThenPrev(t: Tree, m: int, s: int, n: int)
    requires Valid(t) && IsRow(t, m) && ForwardStart(t, m, s) && IsNext(t, m, s, n)
    ensures BackwardStart(t, m, if n == t.none then m else n)
    ensures IsPrev(t, m, if n == t.none then m else n, s)
  {
    var b := if n == t.none then m else n;
    if s == t.none {
      assert forall u :: IsVictim(t, m, u) ==> Later(t, m, s, u);
    } else {
      assert Earlier(t, m, b, s) by {
        if n != t.none { assert Later(t, m, s, n); }
      }
      forall u | Earlier(t, m, b, u) && u != s
        ensures Before(t, u, s)
      {
        assert Before(t, s, u) ==> Later(t, m, s, u);
      }
    }
  }

  /** And the other way round: backward first, then forward. */
  lemma PrevThenNext(t: Tree, m: int, s: int, n: int)
    requires Valid(t) && IsRow(t, m) && BackwardStart(t, m, s) && IsPrev(t, m, s, n)
    ensures ForwardStart(t, m, n)
    ensures IsNext(t, m, n, if s == m then t.none else s)
  {
    if s == m {
      assert !IsVictim(t, m, m);
      forall u ensures !Later(t, m, n, u) {
        assert IsVictim(t, m, u) ==> Earlier(t, m, s, u);
      }
    } else {
      assert Later(t, m, n, s) by {
        if n != t.none { assert Earlier(t, m, s, n); }
      }
      forall u | Later(t, m, n, u) && u != s
        ensures Before(t, s, u)
      {
        assert Before(t, u, s) ==> Earlier(t, m, s, u);
      }
    }
  }

  /** Where victims are taken from the highest down, the next one is the highest below `s`. */
  lemma HighestIsNext(t: Tree, m: int, s: int, n: int)
    requires Valid(t) && (forall u :: t.kind(u) == 0) && !t.ascending(0)
    requires forall u :: IsVictim(t, m, u) && (s == t.none || u < s) ==> n != t.none && u <= n
    requires n != t.none ==> IsVictim(t, m, n) && (s == t.none || n < s)
    ensures IsNext(t, m, s, n)
  {
  }

  /** And the previous one is the lowest above. */
  lemma LowestIsPrev(t: Tree, m: int, s: int, n: int)
    requires Valid(t) && (forall u :: t.kind(u) == 0) && !t.ascending(0)
    requires forall u :: IsVictim(t, m, u) && s < u ==> n != t.none && n <= u
    requires n != t.none ==> IsVictim(t, m, n) && s < n
    requires BackwardStart(t, m, s)
    ensures IsPrev(t, m, s, n)
  {
  }

  /* Walking a killer's victims from one end to the other. */

  ghost function Remaining(t: Tree, m: int, s: int): set<int>
    requires Valid(t)
  {
    set u | t.root < u < t.end && Later(t, m, s, u)
  }

  lemma WalkAdvances(t: Tree, m: int, s: int)
    requires Valid(t) && Next(t, m, s) != t.none
    ensures Remaining(t, m, s) == {Next(t, m, s)} + Remaining(t, m, Next(t, m, s))
    ensures Next(t, m, s) !in Remaining(t, m, Next(t, m, s))
    ensures |Remaining(t, m, s)| == |Remaining(t, m, Next(t, m, s))| + 1
  {
    var n := Next(t, m, s);
    forall u | u in Remaining(t, m, n) ensures u in Remaining(t, m, s) {
      assert Later(t, m, n, u);
      assert s == t.none || (Before(t, s, n) && Before(t, n, u));
    }
  }

  /** The rows met by asking for the next victim again and again, starting after `s`. */
  ghost function Walk(t: Tree, m: int, s: int): seq<int>
    requires Valid(t)
    decreases |Remaining(t, m, s)|
  {
    var n := Next(t, m, s);
    if n == t.none then [] else
      WalkAdvances(t, m, s);
      [n] + Walk(t, m, n)
  }

  /** The walk meets exactly the victims still to come. */
  lemma {:induction false} WalkMeetsEveryVictim(t: Tree, m: int, s: int, u: int)
    requires Valid(t)
    ensures u in Walk(t, m, s) <==> Later(t, m, s, u)
    decreases |Remaining(t, m, s)|
  {
    var n := Next(t, m, s);
    if n == t.none {
    } else {
      WalkAdvances(t, m, s);
      WalkMeetsEveryVictim(t, m, n, u);
      assert u in Remaining(t, m, s) <==> Later(t, m, s, u);
      assert u in Remaining(t, m, n) <==> Later(t, m, n, u);
    }
  }

  ghost predicate InKillOrder(t: Tree, w: seq<int>) {
    forall i, j :: 0 <= i < j < |w| ==> Before(t, w[i], w[j])
  }

  /** It meets them in kill order: by kind, within a kind in the direction of that kind, and
      therefore no victim twice. */
  lemma {:induction false} WalkFollowsKillOrder(t: Tree, m: int, s: int)
    requires Valid(t)
    ensures InKillOrder(t, Walk(t, m, s))
    ensures |Walk(t, m, s)| == |Remaining(t, m, s)|
    decreases |Remaining(t, m, s)|
  {
    var n := Next(t, m, s);
    if n == t.none {
      assert Remaining(t, m, s) == {};
    } else {
      WalkAdvances(t, m, s);
      WalkFollowsKillOrder(t, m, n);
      var w := Walk(t, m, n);
      forall j | 0 <= j < |w| ensures Before(t, n, w[j]) {
        WalkMeetsEveryVictim(t, m, n, w[j]);
      }
    }
  }

  lemma KillOrderHasNoRepetition(t: Tree, w: seq<int>)
    requires InKillOrder(t, w)
    ensures forall i, j :: 0 <= i < j < |w| ==> w[i] != w[j] && t.kind(w[i]) <= t.kind(w[j])
  {
  }

  /* Flat trees: one row kills all the others, from the top down. */

  ghost predicate IsFlat(t: Tree) {
    && Valid(t) && t.ascending(0)
    && forall s :: t.root < s < t.end ==> t.killer(s) == t.root && t.kind(s) == 0
  }

  lemma FlatNext(t: Tree, s: int)
    requires IsFlat(t) && (s == t.none || t.root < s < t.end)
    ensures var n := if s == t.none then t.root + 1 else s + 1;
      Next(t, t.root, s) == if n < t.end then n else t.none
  {
    var n := if s == t.none then t.root + 1 else s + 1;
    NextIsUnique(t, t.root, s, Next(t, t.root, s), if n < t.end then n else t.none);
  }

  lemma {:induction false} FlatWalk(t: Tree, s: int)
    requires IsFlat(t) && (s == t.none || t.root < s < t.end)
    ensures var n := if s == t.none then t.root + 1 else s + 1;
      n <= t.end && Walk(t, t.root, s) == seq(t.end - n, i => n + i)
    decreases if s == t.none then t.end - t.root else t.end - s
  {
    hide IsFlat, Valid, Next;
    FlatEnds(t);
    FlatNext(t, s);
    var n := Next(t, t.root, s);
    if n != t.none {
      FlatWalk(t, n);
      assert [n] + seq(t.end - (n + 1), i => n + 1 + i) == seq(t.end - n, i => n + i);
    }
  }

  lemma FlatEnds(t: Tree)
    requires IsFlat(t)
    ensures Valid(t) && t.root < t.end <= t.none
  {
  }

  lemma FlatTree(t: Tree)
    requires IsFlat(t)
    ensures forall m, s :: IsVictim(t, m, s) <==> m == t.root && t.root < s < t.end
    ensures Walk(t, t.root, t.none) == seq(t.end - t.root - 1, i => t.root + 1 + i)
  {
    FlatWalk(t, t.none);
  }

  /* Searching kind by kind, the way the lookup functions of the composed trees work. */

  /** `n` is the first victim of kind `y` after `s`, or `none` when there is none of that kind. */
  ghost predicate IsNextOfKind(t: Tree, m: int, s: int, y: int, n: int) {
    if n == t.none then
      forall u :: Later(t, m, s, u) ==> t.kind(u) != y
    else
      && Later(t, m, s, n) && t.kind(n) == y
      && forall u :: Later(t, m, s, u) && t.kind(u) == y && u != n ==> Before(t, n, u)
  }

  ghost predicate IsPrevOfKind(t: Tree, m: int, s: int, y: int, n: int) {
    if n == t.none then
      forall u :: Earlier(t, m, s, u) ==> t.kind(u) != y
    else
      && Earlier(t, m, s, n) && t.kind(n) == y
      && forall u :: Earlier(t, m, s, u) && t.kind(u) == y && u != n ==> Before(t, u, n)
  }

  /** A search has left behind all kinds below `y`: what is still to come is of kind `y` or above. */
  ghost predicate DoneBelow(t: Tree, m: int, s: int, y: int) {
    forall u :: Later(t, m, s, u) ==> t.kind(u) >= y
  }

  /** Likewise backward. */
  ghost predicate DoneAbove(t: Tree, m: int, s: int, y: int) {
    forall u :: Earlier(t, m, s, u) ==> t.kind(u) <= y
  }

  lemma StartsAtOwnKind(t: Tree, m: int, s: int)
    ensures s != t.none ==> DoneBelow(t, m, s, t.kind(s))
    ensures s != m ==> DoneAbove(t, m, s, t.kind(s))
  {
  }

  /** The search for kind `y` from `c` finds the next victim, or leaves kind `y` behind as well. Past the kind
      of `s`, it may have forgotten where it started. */
  lemma NextAtKind(t: Tree, m: int, s: int, c: int, y: int, n: int)
    requires Valid(t) && DoneBelow(t, m, s, y) && IsNextOfKind(t, m, c, y, n)
    requires c == s || (c == t.none && t.kind(s) < y)
    ensures if n == t.none then DoneBelow(t, m, s, y + 1) else IsNext(t, m, s, n) && t.root < n < t.end
  {
  }

  lemma PrevAtKind(t: Tree, m: int, s: int, c: int, y: int, n: int)
    requires Valid(t) && DoneAbove(t, m, s, y) && IsPrevOfKind(t, m, c, y, n)
    requires c == s || (c == m && t.kind(s) > y)
    ensures if n == t.none then DoneAbove(t, m, s, y - 1) else IsPrev(t, m, s, n) && t.root < n < t.end
  {
  }

  /** Nothing is left if every victim is of a kind left behind. */
  lemma NoNext(t: Tree, m: int, s: int, y: int)
    requires DoneBelow(t, m, s, y)
    requires forall u :: IsVictim(t, m, u) ==> t.kind(u) < y
    ensures IsNext(t, m, s, t.none)
  {
  }

  lemma NoPrev(t: Tree, m: int, s: int, y: int)
    requires DoneAbove(t, m, s, y)
    requires forall u :: IsVictim(t, m, u) ==> t.kind(u) > y
    ensures IsPrev(t, m, s, t.none)
  {
  }

  /** A kind without victims is passed over. */
  lemma SkipKind(t: Tree, m: int, s: int, y: int)
    requires forall u :: IsVictim(t, m, u) ==> t.kind(u) != y
    ensures DoneBelow(t, m, s, y) ==> DoneBelow(t, m, s, y + 1)
    ensures DoneAbove(t, m, s, y) ==> DoneAbove(t, m, s, y - 1)
  {
  }
}
