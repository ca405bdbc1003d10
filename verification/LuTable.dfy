/** The table that says which steps of a hybrid factorization use LU (1) and which QR (0) when a given
    number of LU steps is to be spread evenly. It is filled in place by halving the interval and the number
    of LU steps together. */
module LuTable {
  import opened Bits
  import opened Integers

  /** How many entries the left part of an interval of `n` gets, or how many LU steps out of `n`. An odd
      one goes to the right on even depths and to the left on odd ones. */
  function LeftPart(n: nat, depth: nat): nat {
    if n % 2 == 0 then n / 2 else (n - 1) / 2 + depth % 2
  }

  /** The table for `n` steps with `ones` LU steps. */
  function Table(n: nat, ones: nat, depth: nat): (t: seq<int>)
    ensures |t| == n
    decreases n
  {
    if n == 0 then []
    else if n == 1 then [if ones != 0 then 1 else 0]
    else (
      Table(LeftPart(n, depth), LeftPart(ones, depth), depth + 1)
      + Table(n - LeftPart(n, depth), ones - LeftPart(ones, depth), depth + 1))
  }

  lemma TableSplits(n: nat, ones: nat, depth: nat)
    requires n > 1
    ensures var l, k := LeftPart(n, depth), LeftPart(ones, depth);
      Table(n, ones, depth) == Table(l, k, depth + 1) + Table(n - l, ones - k, depth + 1)
  {
  }

  /** Both parts of a split are not empty, and they differ by at most one in length and in LU steps. The odd
      one of both goes to the same side, so that neither part gets more LU steps than it has room for
      while the other has room left. */
  lemma SplitIsBalanced(n: nat, ones: nat, depth: nat)
    requires n > 1
    ensures var l, k := LeftPart(n, depth), LeftPart(ones, depth);
      && 0 < l < n && 0 <= k <= ones
      && -1 <= l - (n - l) <= 1 && -1 <= k - (ones - k) <= 1
      && Min(k, l) + Min(ones - k, n - l) == Min(ones, n)
  {
  }

  /** `after` is `before` with the entries from `from` to `to` replaced by `t`. */
  ghost predicate Filled(before: seq<int>, after: seq<int>, from: nat, to: nat, t: seq<int>) {
    from <= to <= |before| && |t| == to - from && after == before[..from] + t + before[to..]
  }

  lemma FilledInTwo(s0: seq<int>, s1: seq<int>, s2: seq<int>, from: nat, mid: nat, to: nat, a: seq<int>, b: seq<int>)
    requires Filled(s0, s1, from, mid, a) && Filled(s1, s2, mid, to, b)
    ensures Filled(s0, s2, from, to, a + b)
  {
    assert s1[..mid] == s0[..from] + a;
    assert s1[to..] == s0[to..];
  }

  lemma FilledOne(before: seq<int>, at: nat, x: int)
    requires at < |before|
    ensures Filled(before, before[at := x], at, at + 1, [x])
  {
  }

  lemma TableOfOne(ones: nat, depth: nat)
    ensures Table(1, ones, depth) == [if ones != 0 then 1 else 0]
  {
  }

  /** Where the left part ends, and its number of LU steps. */
  method Split(deb: nat, fin: nat, nbLu: nat, recDepth: nat) returns (newFin: nat, newNbLu: nat)
    requires deb < fin
    ensures newFin == deb + LeftPart(fin - deb + 1, recDepth) - 1 && newNbLu == LeftPart(nbLu, recDepth)
    ensures deb <= newFin < fin && -1 <= (newFin - deb + 1) - (fin - newFin) <= 1
    ensures newNbLu <= nbLu && -1 <= newNbLu - (nbLu - newNbLu) <= 1
  {
    SplitIsBalanced(fin - deb + 1, nbLu, recDepth);
    if (fin - deb + 1) % 2 == 0 {
      newFin := deb - 1 + (fin - deb + 1) / 2;
    } else {
      newFin := deb - 1 + (fin - deb) / 2 + recDepth % 2;
    }
    if nbLu % 2 == 0 {
      newNbLu := nbLu / 2;
    } else {
      newNbLu := (nbLu - 1) / 2 + recDepth % 2;
    }
  }

  method GenRandomLutab(lutab: array<int>, deb: nat, fin: nat, nbLu: nat, recDepth: nat)
    requires deb <= fin < lutab.Length
    modifies lutab
    ensures Filled(old(lutab[..]), lutab[..], deb, fin + 1, Table(fin - deb + 1, nbLu, recDepth))
    decreases fin - deb
  {
    hide Table, LeftPart, Filled;
    if deb == fin {
      TableOfOne(nbLu, recDepth);
      FilledOne(lutab[..], deb, if nbLu != 0 then 1 else 0);
      lutab[deb] := if nbLu != 0 then 1 else 0;
    } else {
      ghost var before, n := lutab[..], fin - deb + 1;
      SplitIsBalanced(n, nbLu, recDepth);
      TableSplits(n, nbLu, recDepth);
      var newFin, newNbLu := Split(deb, fin, nbLu, recDepth);
      GenRandomLutab(lutab, deb, newFin, newNbLu, recDepth + 1);
      ghost var middle := lutab[..];
      GenRandomLutab(lutab, newFin + 1, fin, nbLu - newNbLu, recDepth + 1);
      FilledInTwo(before, middle, lutab[..], deb, newFin + 1, fin + 1,
                  Table(newFin - deb + 1, newNbLu, recDepth + 1), Table(fin - newFin, nbLu - newNbLu, recDepth + 1));
    }
  }

  function Sum(t: seq<int>): int {
    if t == [] then 0 else Sum(t[..|t| - 1]) + t[|t| - 1]
  }

  lemma {:induction false} SumOfParts(a: seq<int>, b: seq<int>)
    ensures Sum(a + b) == Sum(a) + Sum(b)
  {
    if b == [] {
      assert a + b == a;
    } else {
      assert (a + b)[..|a + b| - 1] == a + b[..|b| - 1];
      SumOfParts(a, b[..|b| - 1]);
    }
  }

  /** All entries are 0 or 1, and as many are 1 as asked for, or all of them if that is too many. */
  lemma {:induction false} AsManyOnesAsAsked(n: nat, ones: nat, depth: nat)
    ensures Sum(Table(n, ones, depth)) == Min(ones, n)
    ensures forall x <- Table(n, ones, depth) :: x == 0 || x == 1
    decreases n
  {
    hide Table, LeftPart;
    if n == 1 {
      TableOfOne(ones, depth);
      SumOfOne(if ones != 0 then 1 else 0);
    } else if n > 1 {
      var l, k := LeftPart(n, depth), LeftPart(ones, depth);
      SplitIsBalanced(n, ones, depth);
      TableSplits(n, ones, depth);
      AsManyOnesAsAsked(l, k, depth + 1);
      AsManyOnesAsAsked(n - l, ones - k, depth + 1);
      SumOfParts(Table(l, k, depth + 1), Table(n - l, ones - k, depth + 1));
    }
  }

  lemma SumOfOne(x: int)
    ensures Sum([x]) == x
  {
    assert [x][..0] == [];
  }

  /* How evenly they are spread. */

  /** An interval the recursion arrives at: where it begins, its length, and its share of LU steps. */
  datatype Part = NoPart | Part(first: nat, length: nat, ones: nat)

  /** The interval reached by going left (false) or right (true) at each split. */
  function PartAt(n: nat, ones: nat, depth: nat, path: seq<bool>): (p: Part)
    ensures p.Part? ==> p.first + p.length <= n
    decreases |path|
  {
    var l, k := LeftPart(n, depth), LeftPart(ones, depth);
    if path == [] then Part(0, n, ones)
    else if n < 2 then NoPart
    else if !path[0] then PartAt(l, k, depth + 1, path[1..])
    else match PartAt(n - l, ones - k, depth + 1, path[1..])
      case NoPart => NoPart
      case Part(first, length, o) => Part(l + first, length, o)
  }

  /** `part` is `whole` divided by `pieces`, rounded up or down. */
  predicate FairShare(part: nat, whole: nat, pieces: nat) {
    pieces * (part - 1) < whole < pieces * (part + 1)
  }

  lemma ShareOfAShare(part: nat, half: nat, whole: nat, pieces: nat)
    requires FairShare(part, half, pieces) && whole - 1 <= 2 * half <= whole + 1
    ensures FairShare(part, whole, 2 * pieces)
  {
    assert 2 * pieces * (part - 1) == 2 * (pieces * (part - 1));
    assert 2 * pieces * (part + 1) == 2 * (pieces * (part + 1));
  }

  /** One split: the part is found in one half, moved by the length of the left half if that is the right one. */
  lemma PartOfHalf(n: nat, ones: nat, depth: nat, path: seq<bool>)
    requires path != [] && PartAt(n, ones, depth, path).Part?
    ensures n > 1
    ensures var l, k := LeftPart(n, depth), LeftPart(ones, depth);
      0 < l < n && k <= ones
      && var n', ones' := if path[0] then n - l else l, if path[0] then ones - k else k;
      var p, p' := PartAt(n, ones, depth, path), PartAt(n', ones', depth + 1, path[1..]);
      && p'.Part? && p.length == p'.length && p.ones == p'.ones
      && p.first == p'.first + if path[0] then l else 0
  {
    hide LeftPart;
    SplitIsBalanced(n, ones, depth);
  }

  /** An interval arrived at holds the table of its own length and share. */
  lemma {:induction false} TableOfPart(n: nat, ones: nat, depth: nat, path: seq<bool>)
    requires PartAt(n, ones, depth, path).Part?
    ensures var p := PartAt(n, ones, depth, path);
      Table(n, ones, depth)[p.first..p.first + p.length] == Table(p.length, p.ones, depth + |path|)
    decreases |path|
  {
    hide Table, LeftPart, PartAt;
    if path == [] {
      WholeTable(n, ones, depth);
    } else {
      PartOfHalf(n, ones, depth, path);
      var l, k := LeftPart(n, depth), LeftPart(ones, depth);
      TableSplits(n, ones, depth);
      var n', ones' := if path[0] then n - l else l, if path[0] then ones - k else k;
      TableOfPart(n', ones', depth + 1, path[1..]);
      var p' := PartAt(n', ones', depth + 1, path[1..]);
      SliceOfPart(Table(l, k, depth + 1), Table(n - l, ones - k, depth + 1), path[0], p'.first, p'.length);
    }
  }

  lemma WholeTable(n: nat, ones: nat, depth: nat)
    ensures PartAt(n, ones, depth, []) == Part(0, n, ones)
    ensures Table(n, ones, depth)[0..n] == Table(n, ones, depth)
  {
    hide Table;
  }

  lemma {:induction false} FairParts(n: nat, ones: nat, depth: nat, path: seq<bool>)
    requires PartAt(n, ones, depth, path).Part?
    ensures var p := PartAt(n, ones, depth, path);
      FairShare(p.length, n, Pow2(|path|)) && FairShare(p.ones, ones, Pow2(|path|))
    decreases |path|
  {
    hide LeftPart, FairShare;
    if path == [] {
      WholeShare(n);
      WholeShare(ones);
    } else {
      var p := PartAt(n, ones, depth, path);
      var l, k := LeftPart(n, depth), LeftPart(ones, depth);
      SplitIsBalanced(n, ones, depth);
      var n', ones' := if path[0] then n - l else l, if path[0] then ones - k else k;
      FairParts(n', ones', depth + 1, path[1..]);
      ShareOfAShare(p.length, n', n, Pow2(|path| - 1));
      ShareOfAShare(p.ones, ones', ones, Pow2(|path| - 1));
    }
  }

  /** After d splits an interval has a 2^d-th of the steps and a 2^d-th of the LU steps, rounded one way or
      the other, and the table holds just its share of ones there. */
  lemma EvenlySpread(n: nat, ones: nat, depth: nat, path: seq<bool>)
    requires PartAt(n, ones, depth, path).Part?
    ensures var p := PartAt(n, ones, depth, path);
      && FairShare(p.length, n, Pow2(|path|)) && FairShare(p.ones, ones, Pow2(|path|))
      && Sum(Table(n, ones, depth)[p.first..p.first + p.length]) == Min(p.ones, p.length)
  {
    hide Sum, Table, PartAt, FairShare;
    var p := PartAt(n, ones, depth, path);
    FairParts(n, ones, depth, path);
    TableOfPart(n, ones, depth, path);
    AsManyOnesAsAsked(p.length, p.ones, depth + |path|);
  }

  lemma SliceOfPart(a: seq<int>, b: seq<int>, right: bool, first: nat, length: nat)
    requires first + length <= if right then |b| else |a|
    ensures var at := if right then |a| + first else first;
      (a + b)[at..at + length] == if right then b[first..first + length] else a[first..first + length]
  {
  }

  lemma WholeShare(x: nat)
    ensures FairShare(x, x, Pow2(0))
  {
  }

  /* Which side the odd one goes to. */

  /** On even depths the left part gets the smaller half of the steps and of the LU steps, on odd depths the larger. */
  lemma OddOneAlternates(n: nat, ones: nat, depth: nat)
    requires n > 1
    ensures depth % 2 == 0 ==>
              Table(n, ones, depth) == Table(n / 2, ones / 2, depth + 1) + Table((n + 1) / 2, (ones + 1) / 2, depth + 1)
    ensures depth % 2 == 1 ==>
              Table(n, ones, depth) == Table((n + 1) / 2, (ones + 1) / 2, depth + 1) + Table(n / 2, ones / 2, depth + 1)
  {
    hide Table;
    TableSplits(n, ones, depth);
    assert LeftPart(n, depth) == if depth % 2 == 0 then n / 2 else (n + 1) / 2;
    assert LeftPart(ones, depth) == if depth % 2 == 0 then ones / 2 else (ones + 1) / 2;
  }

  lemma {:induction false} NoOnes(n: nat, depth: nat)
    ensures forall i :: 0 <= i < n ==> Table(n, 0, depth)[i] == 0
    decreases n
  {
    hide Table, LeftPart;
    if n == 1 { TableOfOne(0, depth); }
    if n > 1 {
      OddOneAlternates(n, 0, depth);
      NoOnes(n / 2, depth + 1);
      NoOnes((n + 1) / 2, depth + 1);
    }
  }

  /** Where a single one goes: into the right half, there into the left half, and so on in turn. */
  function OneAt(n: nat): (at: nat)
    requires n > 0
    ensures at < n
  {
    if n == 1 then 0 else n / 2 + OneAt((n + 3) / 4)
  }

  lemma {:induction false} SingleOne(n: nat, depth: nat)
    requires n > 0 && depth % 2 == 0
    ensures forall i :: 0 <= i < n ==> (Table(n, 1, depth)[i] == if i == OneAt(n) then 1 else 0)
    decreases n
  {
    hide Table, LeftPart;
    if n == 1 {
      TableOfOne(1, depth);
    } else {
      var half := (n + 1) / 2;
      OddOneAlternates(n, 1, depth);
      NoOnes(n / 2, depth + 1);
      if half == 1 {
        TableOfOne(1, depth + 1);
      } else {
        OddOneAlternates(half, 1, depth + 1);
        NoOnes(half / 2, depth + 2);
        SingleOne((half + 1) / 2, depth + 2);
        assert (half + 1) / 2 == (n + 3) / 4;
      }
    }
  }

  /** In a table of 4^m steps it comes after two thirds of them. */
  lemma {:induction false} AfterTwoThirds(m: nat)
    ensures 3 * OneAt(Pow2(2 * m)) == 2 * (Pow2(2 * m) - 1)
  {
    if m > 0 {
      hide Pow2, OneAt;
      FourTimes(2 * (m - 1));
      AfterTwoThirds(m - 1);
      OneAtOfFour(Pow2(2 * (m - 1)));
    }
  }

  lemma FourTimes(j: nat)
    ensures Pow2(j + 2) == 4 * Pow2(j)
  {
    assert Pow2(j + 2) == 2 * Pow2(j + 1);
  }

  lemma OneAtOfFour(n: nat)
    requires n > 0
    ensures OneAt(4 * n) == 2 * n + OneAt(n)
  {
    assert (4 * n + 3) / 4 == n;
  }

  /* The caller. */

  /** C's `lround`, for a number that is not negative. */
  function RoundToNearest(x: real): (r: nat)
    requires x >= 0.0
    ensures x - 0.5 <= r as real <= x + 0.5
  {
    (x + 0.5).Floor
  }

  function Exact(steps: nat, alpha: real): (x: real)
    requires alpha >= 0.0
    ensures x >= 0.0
  {
    steps as real * alpha / 100.0
  }

  /** `lu` of the steps are `alpha` percent, to the nearest number; above a hundred percent, all of them. */
  predicate IsShare(lu: int, steps: nat, alpha: real)
    requires alpha >= 0.0
  {
    && (alpha <= 100.0 ==> Exact(steps, alpha) - 0.5 <= lu as real <= Exact(steps, alpha) + 0.5)
    && (alpha >= 100.0 ==> lu == steps)
  }

  /** A share of `alpha` percent of the steps of an mt by nt factorization is LU, to the nearest number. */
  method RandomCriterion(mt: nat, nt: nat, alpha: real, luTab: array<int>)
    requires mt > 0 && nt > 0 && luTab.Length >= Min(mt, nt)
    requires alpha >= 0.0
    modifies luTab
    ensures IsShare(Sum(luTab[..Min(mt, nt)]), Min(mt, nt), alpha)
    ensures luTab[..Min(mt, nt)] == Table(Min(mt, nt), RoundToNearest(Exact(Min(mt, nt), alpha)), 0)
    ensures forall k :: 0 <= k < Min(mt, nt) ==> luTab[k] == 0 || luTab[k] == 1
    ensures luTab[Min(mt, nt)..] == old(luTab[Min(mt, nt)..])
  {
    hide Table, Sum, IsShare;
    var minMNT := Min(mt, nt);
    var nbLu := RoundToNearest(Exact(minMNT, alpha));
    Percent(minMNT, alpha);
    GenRandomLutab(luTab, 0, minMNT - 1, nbLu, 0);
    AsManyOnesAsAsked(minMNT, nbLu, 0);
    assert luTab[..minMNT] == Table(minMNT, nbLu, 0);
    forall k | 0 <= k < minMNT ensures luTab[k] == 0 || luTab[k] == 1 {
      assert luTab[k] == Table(minMNT, nbLu, 0)[k] && Table(minMNT, nbLu, 0)[k] in Table(minMNT, nbLu, 0);
    }
  }

  lemma Percent(steps: nat, alpha: real)
    requires alpha >= 0.0
    ensures IsShare(Min(RoundToNearest(Exact(steps, alpha)), steps), steps, alpha)
  {
    assert steps as real * 100.0 / 100.0 == steps as real;
    if alpha <= 100.0 {
      assert Exact(steps, alpha) <= steps as real;
    } else {
      assert Exact(steps, alpha) >= steps as real;
    }
  }
}
