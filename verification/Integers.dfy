/** Integer helpers shared by the models: C's min and max, intervals, and the facts about division by
    a positive number that the index formulas rest on. */
module Integers {

  type Pos = d: int | d > 0 witness 1

  function Min(a: int, b: int): int {
    if a < b then a else b
  }

  function Max(a: int, b: int): int {
    if a > b then a else b
  }

  /** The integers strictly between `lo` and `hi`. */
  function Between(lo: int, hi: int): (s: set<int>)
    ensures forall n :: n in s <==> lo < n < hi
    ensures lo < hi ==> |s| == hi - lo - 1
    decreases hi - lo
  {
    if hi <= lo + 1 then {} else Between(lo, hi - 1) + {hi - 1}
  }

  lemma MulMonotone(x: int, y: int, d: nat)
    requires x <= y
    ensures x * d <= y * d
  {
  }

  lemma MulDistributes(x: int, y: int, d: int)
    ensures (x + y) * d == x * d + y * d
  {
  }

  lemma MulCancels(x: int, y: int, d: Pos)
    ensures x * d < y * d <==> x < y
    ensures x * d <= y * d <==> x <= y
  {
    if x < y { MulMonotone(x + 1, y, d); MulDistributes(x, 1, d); }
    if y < x { MulMonotone(y + 1, x, d); MulDistributes(y, 1, d); }
  }

  lemma MulRegroups(x: int, y: int, z: int)
    ensures x * y * z == x * (y * z) == (x * z) * y == y * z * x
  {
  }

  /** Quotient and remainder are the only numbers that fit. */
  lemma QuotientIs(n: int, d: Pos, q: int, r: int)
    requires n == q * d + r && 0 <= r < d
    ensures n / d == q && n % d == r
  {
    var q', r' := n / d, n % d;
    assert n == q' * d + r';
    MulDistributes(q, -q', d);
    if q > q' {
      MulMonotone(1, q - q', d);
    } else if q < q' {
      MulMonotone(q - q', -1, d);
    }
  }

  lemma QuotientTimes(n: int, d: Pos)
    ensures n == (n / d) * d + n % d && 0 <= n % d < d
  {
  }

  lemma QuotientMonotone(x: int, y: int, d: Pos)
    requires x <= y
    ensures x / d <= y / d
  {
    QuotientTimes(x, d);
    QuotientTimes(y, d);
    if x / d > y / d {
      MulMonotone(y / d + 1, x / d, d);
      MulDistributes(y / d, 1, d);
    }
  }

  lemma QuotientShift(n: int, d: Pos, q: int)
    ensures (n + q * d) / d == n / d + q && (n + q * d) % d == n % d
  {
    QuotientTimes(n, d);
    MulDistributes(n / d, q, d);
    QuotientIs(n + q * d, d, n / d + q, n % d);
  }

  /** Dividing twice is dividing by the product. */
  lemma QuotientTwice(n: int, p: Pos, a: Pos)
    ensures p * a > 0 && n / (p * a) == n / p / a
    ensures n % (p * a) == (n / p) % a * p + n % p
  {
    MulMonotone(1, a, p);
    var l := n / p;
    QuotientTimes(n, p);
    QuotientTimes(l, a);
    MulMonotone(0, l % a, p);
    MulMonotone(l % a, a - 1, p);
    MulDistributes(a, -1, p);
    MulDistributes(l / a * a, l % a, p);
    MulRegroups(l / a, p, a);
    QuotientIs(n, p * a, l / a, l % a * p + n % p);
  }

  lemma QuotientAtMost(n: nat, d: Pos)
    ensures 0 <= n / d <= n
  {
    QuotientTimes(n, d);
    MulMonotone(1, d, n / d);
  }

  /** Numbers of one residue are at least `p` apart. */
  lemma SameResidue(x: int, y: int, p: Pos)
    requires x % p == y % p && x <= y < x + p
    ensures x == y
  {
    QuotientTimes(x, p);
    QuotientTimes(y, p);
    if x / p < y / p { MulMonotone(x / p + 1, y / p, p); MulDistributes(x / p, 1, p); }
    if x / p > y / p { MulMonotone(y / p + 1, x / p, p); MulDistributes(y / p, 1, p); }
  }
}
