/** The tables of the adaptive trees. The height of the macro-tiles is chosen anew at every step, from a
    number of tasks asked for; each step keeps its own height and number of macro-tiles in the first two
    entries of its table. */
module AdaptiveTables {
  import opened Integers
  import GC = GreedyColumn
  import HqrInit
  import PL = PipelinedLow

  function CeilDiv(a: int, b: Pos): int {
    (a + b - 1) / b
  }

  lemma CeilDivRange(a: int, b: Pos)
    requires a > 0
    ensures 0 < CeilDiv(a, b) <= a
    ensures (CeilDiv(a, b) - 1) * b < a <= CeilDiv(a, b) * b
  {
    QuotientTimes(a + b - 1, b);
    QuotientMonotone(b, a + b - 1, b);
    QuotientIs(b, b, 1, 0);
    MulMonotone(1, b, a);
    QuotientMonotone(a + b - 1, a * b + b - 1, b);
    QuotientIs(a * b + b - 1, b, a, b - 1);
  }

  /** The height of step `k`. A first height is chosen for the rows of one domain and the load; the second
      one evens out the pieces, but over the rows of all domains. */
  function HeightOf(mt: Pos, nt: Pos, p: Pos, load: Pos, k: nat): (a: int)
    requires k < mt && k < nt
    ensures a > 0
  {
    CeilDivRange(mt - k, p);
    var height := CeilDiv(mt - k, p);
    var a: Pos := Max(height * (nt - k) / load, 1);
    CeilDivRange(height, a);
    var j: Pos := CeilDiv(height, a);
    CeilDivRange(mt - k, j);
    CeilDiv(mt - k, j)
  }

  function MacroTiles(mt: Pos, nt: Pos, p: Pos, load: Pos, k: nat): (n: int)
    requires k < mt && k < nt
    ensures n > 0
  {
    var a: Pos := HeightOf(mt, nt, p, load, k);
    MulMonotone(1, a, p);
    CeilDivRange(mt, p * a);
    CeilDiv(mt, p * a)
  }

  /** The table of one domain and step, in a row of `ldd` entries with two of them for the header. */
  method StepTable(mt: Pos, nt: Pos, p: Pos, load: Pos, rank: nat, k: nat, ldd: nat) returns (row: seq<int>)
    requires k < mt && k < nt && rank < p && MacroTiles(mt, nt, p, load, k) + 2 <= ldd
    ensures |row| == ldd && row[0] == HeightOf(mt, nt, p, load, k) && row[1] == MacroTiles(mt, nt, p, load, k)
    ensures var n := MacroTiles(mt, nt, p, load, k);
      var pl := PL.Plan(n, 1, HeightOf(mt, nt, p, load, k), p, rank, false);
      0 <= PL.Root(pl, k) && (PL.Root(pl, k) < n ==> HqrInit.IsOneColumn(pl, k, row[2..2 + n]))
  {
    hide HeightOf, MacroTiles, GC.Entry;
    var a: Pos := HeightOf(mt, nt, p, load, k);
    var n: Pos := MacroTiles(mt, nt, p, load, k);
    ghost var pl := PL.Plan(n, 1, a, p, rank, false);
    PL.RootStep(pl, k);
    MulMonotone(1, a, p);
    var ipiv := new int[ldd](i => 0);
    ipiv[0] := a;
    ipiv[1] := n;
    var root := (k + p - 1 - rank) / (p * a);
    assert root == PL.Root(pl, k);
    hide PL.Root;
    var nT := Max(n - root, 0);
    if nT != 0 {
      GC.Fill(ipiv, 2, n, nT);
    }
    row := ipiv[..];
    if root < n {
      var column := row[2..2 + n];
      forall i | root < i < n ensures column[i] == GC.Entry(n, n - root, i) {
        assert row[2 + i] == GC.Entry(n, nT, i);
      }
    }
  }

  /** The widest table any step needs. */
  method WidestTable(mt: Pos, nt: Pos, p: Pos, load: Pos) returns (maxmt: int)
    ensures maxmt >= 1
    ensures forall k :: 0 <= k < Min(mt, nt) ==> MacroTiles(mt, nt, p, load, k) <= maxmt
  {
    maxmt := 1;
    var k := 0;
    while k < Min(mt, nt)
      invariant 0 <= k <= Min(mt, nt) && maxmt >= 1
      invariant forall c :: 0 <= c < k ==> MacroTiles(mt, nt, p, load, c) <= maxmt
    {
      maxmt := Max(MacroTiles(mt, nt, p, load, k), maxmt);
      k := k + 1;
    }
  }

  ghost predicate TableOk(mt: Pos, nt: Pos, p: Pos, load: Pos, rank: int, k: nat, row: seq<int>)
    requires k < mt && k < nt
  {
    var a, n := HeightOf(mt, nt, p, load, k), MacroTiles(mt, nt, p, load, k);
    var pl := PL.Plan(n, 1, a, p, rank, false);
    && |row| >= 2 + n && row[0] == a && row[1] == n
    && 0 <= PL.Root(pl, k) && (PL.Root(pl, k) < n ==> HqrInit.IsOneColumn(pl, k, row[2..2 + n]))
  }

  ghost predicate SlabOk(mt: Pos, nt: Pos, p: Pos, load: Pos, rank: int, steps: nat, slab: seq<seq<int>>)
    requires steps <= Min(mt, nt)
  {
    |slab| == steps && forall k :: 0 <= k < steps ==> TableOk(mt, nt, p, load, rank, k, slab[k])
  }

  method Tables(mt: Pos, nt: Pos, p: Pos, load: Pos) returns (ipiv: seq<seq<seq<int>>>)
    ensures |ipiv| == p
    ensures forall rank :: 0 <= rank < p ==> SlabOk(mt, nt, p, load, rank, Min(mt, nt), ipiv[rank])
  {
    var maxmt := WidestTable(mt, nt, p, load);
    var ldd := maxmt + 2;
    ipiv := [];
    var myrank := 0;
    while myrank < p
      invariant 0 <= myrank <= p && |ipiv| == myrank
      invariant forall rank :: 0 <= rank < myrank ==> SlabOk(mt, nt, p, load, rank, Min(mt, nt), ipiv[rank])
    {
      var slab := [];
      var k := 0;
      while k < Min(mt, nt)
        invariant 0 <= k <= Min(mt, nt) && SlabOk(mt, nt, p, load, myrank, k, slab)
      {
        var row := StepTable(mt, nt, p, load, myrank, k, ldd);
        slab := slab + [row];
        k := k + 1;
      }
      ipiv := ipiv + [slab];
      myrank := myrank + 1;
    }
  }

  /* How many pieces the height cuts the rows of a panel into. */

  /** The rows of the largest domain. */
  function DomainRows(mt: Pos, p: Pos, k: nat): (n: int)
    requires k < mt
    ensures n > 0
  {
    CeilDivRange(mt - k, p);
    CeilDiv(mt - k, p)
  }

  lemma CeilDivIs(n: int, d: Pos, q: int)
    requires n > 0
    ensures CeilDiv(n, d) == q <==> (q - 1) * d < n <= q * d
    ensures CeilDiv(n, d) >= q <==> (q - 1) * d < n
  {
    CeilDivRange(n, d);
    var c := CeilDiv(n, d);
    if c >= q { MulMonotone(q - 1, c - 1, d); }
    if c <= q - 1 { MulMonotone(c, q - 1, d); }
    if c < q { MulMonotone(c, q - 1, d); }
    if q < c { MulMonotone(q, c - 1, d); }
  }

  /** Evening out a first height over the rows of all domains keeps the number of pieces: `rows` rows in all,
      `height` in the largest domain, `first` the first height. */
  lemma PiecesAreKept(rows: Pos, p: Pos, first: Pos)
    ensures var height := CeilDiv(rows, p);
      && height > 0 && CeilDiv(height, first) > 0 && CeilDiv(rows, CeilDiv(height, first)) > 0
      && CeilDiv(rows, CeilDiv(rows, CeilDiv(height, first))) == CeilDiv(height, first)
  {
    CeilDivRange(rows, p);
    var height := CeilDiv(rows, p);
    CeilDivRange(height, first);
    var pieces: Pos := CeilDiv(height, first);
    CeilDivRange(rows, pieces);
    var a: Pos := CeilDiv(rows, pieces);
    hide CeilDiv;
    NewHeightIsSmall(rows, p, height, first, pieces, a);
    OnePieceLess(rows, p, height, first, pieces, a);
    MulRegroups(pieces, a, 1);
    CeilDivIs(rows, a, pieces);
  }

  lemma NewHeightIsSmall(rows: Pos, p: Pos, height: Pos, first: Pos, pieces: Pos, a: Pos)
    requires rows <= height * p && height <= pieces * first && (a - 1) * pieces < rows
    ensures a <= first * p
  {
    MulMonotone(height, pieces * first, p);
    MulRegroups(pieces, first, p);
    MulCancels(a - 1, first * p, pieces);
  }

  lemma OnePieceLess(rows: Pos, p: Pos, height: Pos, first: Pos, pieces: Pos, a: Pos)
    requires (height - 1) * p < rows && (pieces - 1) * first < height && a <= first * p
    ensures (pieces - 1) * a < rows
  {
    MulMonotone(a, first * p, pieces - 1);
    MulRegroups(pieces - 1, first, p);
    MulMonotone((pieces - 1) * first, height - 1, p);
  }

  /** The first height leaves the load, if there are rows enough for it. */
  lemma FirstHeightMeetsLoad(height: Pos, columns: Pos, load: Pos)
    requires height * columns >= load
    ensures var first := Max(height * columns / load, 1); CeilDiv(height, first) * columns >= load
  {
    var all := height * columns;
    QuotientMonotone(load, all, load);
    QuotientIs(load, load, 1, 0);
    QuotientTimes(all, load);
    var first: Pos := all / load;
    CeilDivRange(height, first);
    hide CeilDiv;
    PiecesMeetLoad(height, columns, load, first, CeilDiv(height, first));
  }

  lemma PiecesMeetLoad(height: Pos, columns: Pos, load: Pos, first: Pos, pieces: nat)
    requires first * load <= height * columns && height <= pieces * first
    ensures pieces * columns >= load
  {
    MulMonotone(height, pieces * first, columns);
    MulRegroups(pieces, first, columns);
    MulRegroups(load, first, 1);
    MulCancels(load, pieces * columns, first);
  }

  lemma PiecesOfHeight(mt: Pos, nt: Pos, p: Pos, load: Pos, k: nat)
    requires k < mt && k < nt
    ensures var height := DomainRows(mt, p, k);
      CeilDiv(mt - k, HeightOf(mt, nt, p, load, k)) == CeilDiv(height, Max(height * (nt - k) / load, 1))
  {
    PiecesAreKept(mt - k, p, Max(DomainRows(mt, p, k) * (nt - k) / load, 1));
  }

  /** And it is the least height that does: any smaller one cuts the rows into more pieces. */
  lemma LeastHeight(mt: Pos, nt: Pos, p: Pos, load: Pos, k: nat, a: Pos)
    requires k < mt && k < nt && a < HeightOf(mt, nt, p, load, k)
    ensures CeilDiv(mt - k, a) > CeilDiv(mt - k, HeightOf(mt, nt, p, load, k))
  {
    var height := DomainRows(mt, p, k);
    var first: Pos := Max(height * (nt - k) / load, 1);
    CeilDivRange(height, first);
    var pieces: Pos := CeilDiv(height, first);
    PiecesOfHeight(mt, nt, p, load, k);
    assert HeightOf(mt, nt, p, load, k) == CeilDiv(mt - k, pieces);
    CeilDivRange(mt - k, pieces);
    hide CeilDiv;
    MulMonotone(a, CeilDiv(mt - k, pieces) - 1, pieces);
    CeilDivIs(mt - k, a, pieces + 1);
  }
}
