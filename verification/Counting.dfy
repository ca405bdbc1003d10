/** Counting the numbers of an interval that satisfy a condition. */
module Counting {
  import opened Integers

  function Count(f: int -> bool, lo: int, hi: int): nat
    decreases hi - lo
  {
    if hi <= lo then 0 else Count(f, lo, hi - 1) + if f(hi - 1) then 1 else 0
  }

  ghost function Hits(f: int -> bool, lo: int, hi: int): set<int> {
    set u | u in Between(lo - 1, hi) && f(u)
  }

  lemma {:induction false} CountIsCardinality(f: int -> bool, lo: int, hi: int)
    ensures Count(f, lo, hi) == |Hits(f, lo, hi)|
    decreases hi - lo
  {
    if hi <= lo {
      assert Hits(f, lo, hi) == {};
    } else {
      CountIsCardinality(f, lo, hi - 1);
      if f(hi - 1) {
        assert Hits(f, lo, hi) == Hits(f, lo, hi - 1) + {hi - 1};
      } else {
        assert Hits(f, lo, hi) == Hits(f, lo, hi - 1);
      }
    }
  }

  lemma {:induction false} InjectionBound(f: int -> int, s: set<int>, image: set<int>, lo: int, hi: int)
    requires forall x :: x in s ==> lo < x < hi && f(x) in image
    requires forall x, y :: x in s && y in s && f(x) == f(y) ==> x == y
    ensures |s| <= |image|
    decreases hi - lo
  {
    if hi <= lo + 1 {
      assert s == {};
    } else if hi - 1 in s {
      InjectionBound(f, s - {hi - 1}, image - {f(hi - 1)}, lo, hi - 1);
    } else {
      InjectionBound(f, s, image, lo, hi - 1);
    }
  }

  /** A condition carried along a one-to-one correspondence of the interval holds equally often. */
  lemma SameCount(f: int -> bool, g: int -> bool, to: int -> int, from: int -> int, lo: int, hi: int)
    requires forall m :: lo <= m < hi ==> lo <= to(m) < hi && from(to(m)) == m && (f(m) <==> g(to(m)))
    requires forall i :: lo <= i < hi ==> lo <= from(i) < hi && to(from(i)) == i
    ensures Count(f, lo, hi) == Count(g, lo, hi)
  {
    CountIsCardinality(f, lo, hi);
    CountIsCardinality(g, lo, hi);
    InjectionBound(to, Hits(f, lo, hi), Hits(g, lo, hi), lo - 1, hi);
    forall i | i in Hits(g, lo, hi) ensures from(i) in Hits(f, lo, hi) {
      assert lo <= from(i) < hi && to(from(i)) == i;
    }
    InjectionBound(from, Hits(g, lo, hi), Hits(f, lo, hi), lo - 1, hi);
  }

  lemma {:induction false} CountEqual(f: int -> bool, g: int -> bool, lo: int, hi: int)
    requires forall m :: lo <= m < hi ==> (f(m) <==> g(m))
    ensures Count(f, lo, hi) == Count(g, lo, hi)
    decreases hi - lo
  {
    if lo < hi { CountEqual(f, g, lo, hi - 1); }
  }

  /** Conditions met by exactly one number of the interval. */
  lemma {:induction false} CountOne(f: int -> bool, lo: int, hi: int, x: int)
    requires forall m :: lo <= m < hi ==> (f(m) <==> m == x)
    ensures Count(f, lo, hi) == if lo <= x < hi then 1 else 0
    decreases hi - lo
  {
    if lo < hi { CountOne(f, lo, hi - 1, x); }
  }

  /** Counting from the other end. */
  lemma {:induction false} CountFromBelow(f: int -> bool, lo: int, hi: int)
    requires lo < hi
    ensures Count(f, lo, hi) == Count(f, lo + 1, hi) + if f(lo) then 1 else 0
    decreases hi - lo
  {
    if lo + 1 < hi { CountFromBelow(f, lo, hi - 1); }
  }

  /** A condition met by the first `n` numbers only. */
  lemma {:induction false} CountPrefix(f: int -> bool, lo: int, hi: int, n: nat)
    requires forall u :: lo <= u < hi ==> (f(u) <==> u - lo < n)
    ensures Count(f, lo, hi) == if hi <= lo then 0 else Min(n, hi - lo)
    decreases hi - lo
  {
    if lo < hi { CountPrefix(f, lo, hi - 1, n); }
  }

  /** A condition that is one of two that exclude each other. */
  lemma {:induction false} CountSplit(f: int -> bool, g: int -> bool, h: int -> bool, lo: int, hi: int)
    requires forall m :: lo <= m < hi ==> (f(m) <==> g(m) || h(m)) && !(g(m) && h(m))
    ensures Count(f, lo, hi) == Count(g, lo, hi) + Count(h, lo, hi)
    decreases hi - lo
  {
    if lo < hi { CountSplit(f, g, h, lo, hi - 1); }
  }
}
