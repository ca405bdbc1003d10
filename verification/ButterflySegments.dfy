/** The segments of a block, addressed by a row and a column number: where each one is stored, and the
    index of its size in the table of data types. */
module ButterflySegments {
  import opened Bits
  import opened Integers
  import opened ButterflyMap

  /** Both axes of a block whose halves are `h` long, and both of them fit. */
  ghost predicate Block(rows: Axis, cols: Axis, h: nat, nb: Pos) {
    && rows.sp >= 0 && cols.sp >= 0 && h > 0
    && rows == AxisOf(rows.sp, h, nb) && cols == AxisOf(cols.sp, h, nb)
    && Fits(rows.sp, h, nb) && Fits(cols.sp, h, nb)
    && (h % nb == 0 ==> rows.sp % nb == 0 && cols.sp % nb == 0)
  }

  /** The constants of a row and a column of blocks make one exactly if both have a fitting amount of room. */
  lemma ConstantsMakeABlock(N: nat, nb: Pos, L: nat, ib: nat, jb: nat)
    requires N > 0 && N % (2 * Pow2(L)) == 0
    ensures Block(BlockAxis(N, nb, L, ib), BlockAxis(N, nb, L, jb), BlockSize(N, L) / 2, nb) <==>
            BlockFits(N, nb, L, ib) && BlockFits(N, nb, L, jb)
  {
    hide AxisOf, Fits, Pow2;
    var h := BlockSize(N, L) / 2;
    HalfIsNotEmpty(N, Pow2(L));
    BlockBounds(N, Pow2(L), ib);
    BlocksOfAButterfly(ib, h, nb);
    BlocksOfAButterfly(jb, h, nb);
    AxisBounds(BlockStart(N, L, ib), h, nb);
    AxisBounds(BlockStart(N, L, jb), h, nb);
  }

  /* Where a segment begins. */

  /** The code walks through this once for the columns and once for the rows. */
  method AxisStart(s: Axis, nb: Pos, number: nat) returns (abs: int)
    requires s.cSegCnt > 0 ==> s.cCnt > 0
    ensures abs == Start(s, nb, number)
  {
    var n, second := number, false;
    if n >= s.totSegCnt / 2 {
      n := n - s.totSegCnt / 2;
      second := true;
    }
    if n < s.lCnt {
      abs := s.sp;
      if n == 1 {
        abs := abs + s.l1;
      }
    } else if n < s.lCnt + s.cSegCnt {
      abs := s.sp + s.l1 + s.l2;
      abs := abs + (n - s.lCnt) / s.cCnt * nb;
      if (n - s.lCnt) % s.cCnt != 0 {
        abs := abs + s.c1;
      }
    } else {
      abs := s.mp - (s.r1 + s.r2);
      if n - (s.lCnt + s.cSegCnt) != 0 {
        abs := abs + s.r1;
      }
    }
    if second {
      abs := abs + s.mp - s.sp;
    }
  }

  datatype Place = NoPlace | Place(mTile: int, nTile: int, offset: int)

  predicate InRange(rows: Axis, cols: Axis, m: nat, n: nat) {
    m < rows.totSegCnt && n < cols.totSegCnt
  }

  method SegmentToTile(rows: Axis, cols: Axis, nb: Pos, m: nat, n: nat) returns (place: Place)
    requires rows.cSegCnt > 0 ==> rows.cCnt > 0
    requires cols.cSegCnt > 0 ==> cols.cCnt > 0
    ensures !InRange(rows, cols, m, n) ==> place == NoPlace
    ensures InRange(rows, cols, m, n) ==>
            && place.Place? && 0 <= place.offset < nb * nb
            && place.mTile * nb + place.offset % nb == Start(rows, nb, m)
            && place.nTile * nb + place.offset / nb == Start(cols, nb, n)
    ensures forall h: nat, x, y ::
              Block(rows, cols, h, nb) && InRange(rows, cols, m, n) && Holds(rows, cols, nb, m, n, x, y) ==>
              var offset := place.offset + (x - Start(rows, nb, m)) + (y - Start(cols, nb, n)) * nb;
              && 0 <= offset < nb * nb
              && place.mTile * nb + offset % nb == x && place.nTile * nb + offset / nb == y
  {
    hide Block, Holds, Start, AxisOf;
    if n >= cols.totSegCnt || m >= rows.totSegCnt {
      return NoPlace;
    }
    var absN := AxisStart(cols, nb, n);
    var absM := AxisStart(rows, nb, m);
    place := Place(absM / nb, absN / nb, (absN % nb) * nb + absM % nb);
    InTile(absM, absN, nb);
    forall h: nat, x, y | Block(rows, cols, h, nb) && Holds(rows, cols, nb, m, n, x, y)
      ensures var offset := place.offset + (x - Start(rows, nb, m)) + (y - Start(cols, nb, n)) * nb;
        && 0 <= offset < nb * nb
        && place.mTile * nb + offset % nb == x && place.nTile * nb + offset / nb == y
    {
      SegmentIsARectangle(rows, cols, h, nb, m, n, x, y, place);
    }
  }

  /** A tile is kept column by column. */
  lemma InTile(x: int, y: int, nb: Pos)
    ensures var offset := (y % nb) * nb + x % nb;
      && 0 <= offset < nb * nb
      && x / nb * nb + offset % nb == x && y / nb * nb + offset / nb == y
  {
    QuotientTimes(x, nb);
    QuotientTimes(y, nb);
    QuotientIs((y % nb) * nb + x % nb, nb, y % nb, x % nb);
    MulMonotone(y % nb, nb - 1, nb);
    MulDistributes(nb, -1, nb);
    MulMonotone(0, y % nb, nb);
  }

  /* One axis: the segments tile the block. */

  predicate Covers(s: Axis, nb: Pos, n: int, x: int) {
    0 <= n < 2 * Half(s) && Start(s, nb, n) <= x < Start(s, nb, n) + Size(s, n)
  }

  lemma EvenCount(sp: nat, h: nat, nb: Pos)
    ensures var s := AxisOf(sp, h, nb); s.totSegCnt == 2 * Half(s)
  {
    hide Room, Cut, CenterStart, CDiv;
  }

  /** A segment has a partner at the same place of the other half, of the same size. */
  lemma HalvesMatch(s: Axis, nb: Pos, n: int)
    requires 0 <= n < Half(s)
    ensures Start(s, nb, n + Half(s)) == Start(s, nb, n) + (s.mp - s.sp)
    ensures Size(s, n + Half(s)) == Size(s, n)
  {
  }

  lemma {:induction false} StartsIncrease(s: Axis, nb: Pos, i: int, j: int)
    requires CutsUp(s, nb) && 0 <= i < j < Half(s)
    ensures StartInHalf(s, nb, i) + Size(s, i) <= StartInHalf(s, nb, j)
    decreases j
  {
    hide StartInHalf, Size;
    assert GoodSegment(s, nb, j - 1) && GoodSegment(s, nb, i);
    if i < j - 1 { StartsIncrease(s, nb, i, j - 1); }
  }

  lemma EndsInHalf(s: Axis, nb: Pos, n: int)
    requires CutsUp(s, nb) && 0 <= n < Half(s)
    ensures s.sp <= StartInHalf(s, nb, n) && 0 < Size(s, n) && StartInHalf(s, nb, n) + Size(s, n) <= s.mp
  {
    hide StartInHalf, Size;
    assert GoodSegment(s, nb, n) && GoodSegment(s, nb, Half(s) - 1) && GoodSegment(s, nb, 0);
    if n < Half(s) - 1 { StartsIncrease(s, nb, n, Half(s) - 1); }
    if n > 0 { StartsIncrease(s, nb, 0, n); }
  }

  /** The last segment of a half up to number `n` that begins at or before x. */
  function Locate(s: Axis, nb: Pos, x: int, n: nat): (r: nat)
    ensures r <= n
  {
    if n == 0 || StartInHalf(s, nb, n) <= x then n else Locate(s, nb, x, n - 1)
  }

  lemma {:induction false} Located(s: Axis, nb: Pos, x: int, n: nat)
    requires CutsUp(s, nb) && n < Half(s)
    requires s.sp <= x < StartInHalf(s, nb, n) + Size(s, n)
    ensures var r := Locate(s, nb, x, n); StartInHalf(s, nb, r) <= x < StartInHalf(s, nb, r) + Size(s, r)
  {
    hide StartInHalf, Size;
    if n > 0 && x < StartInHalf(s, nb, n) {
      assert GoodSegment(s, nb, n - 1);
      Located(s, nb, x, n - 1);
    }
  }

  /** The number of the segment that covers x. */
  function SegmentAt(s: Axis, nb: Pos, x: int): int {
    if Half(s) <= 0 then 0
    else if x < s.mp then Locate(s, nb, x, Half(s) - 1)
    else Locate(s, nb, x - (s.mp - s.sp), Half(s) - 1) + Half(s)
  }

  lemma InFirstHalf(s: Axis, nb: Pos, n: int, x: int)
    requires CutsUp(s, nb)
    ensures Covers(s, nb, n, x) && n < Half(s) ==> s.sp <= x < s.mp
    ensures Covers(s, nb, n, x) && n >= Half(s) ==> s.mp <= x < 2 * s.mp - s.sp
    ensures Covers(s, nb, n, x) && n >= Half(s) ==> Covers(s, nb, n - Half(s), x - (s.mp - s.sp))
  {
    if Covers(s, nb, n, x) {
      var n' := if n >= Half(s) then n - Half(s) else n;
      EndsInHalf(s, nb, n');
    }
  }

  lemma TwoInOneHalf(s: Axis, nb: Pos, i: int, j: int, x: int)
    requires CutsUp(s, nb) && i < Half(s) && j < Half(s)
    requires Covers(s, nb, i, x) && Covers(s, nb, j, x)
    ensures i == j
  {
    hide StartInHalf, Size;
    if i < j { StartsIncrease(s, nb, i, j); }
    if j < i { StartsIncrease(s, nb, j, i); }
  }

  /** Every coordinate of the block is covered by exactly one segment, and the segments cover nothing else. */
  lemma ExactlyOneSegment(s: Axis, nb: Pos, n: int, x: int)
    requires CutsUp(s, nb) && s.sp <= s.mp
    ensures Covers(s, nb, n, x) <==> s.sp <= x < 2 * s.mp - s.sp && n == SegmentAt(s, nb, x)
  {
    var half, last := s.mp - s.sp, Half(s) - 1;
    assert GoodSegment(s, nb, last);
    var x' := if x < s.mp then x else x - half;
    var r := Locate(s, nb, x', last);
    hide StartInHalf, Size;
    if s.sp <= x < s.mp + half {
      Located(s, nb, x', last);
      HalvesMatch(s, nb, r);
      FirstStart(s, nb, r);
      assert Covers(s, nb, r, x');
      assert Covers(s, nb, SegmentAt(s, nb, x), x);
    }
    InFirstHalf(s, nb, n, x);
    if Covers(s, nb, n, x) {
      TwoInOneHalf(s, nb, if n < Half(s) then n else n - Half(s), r, x');
    }
  }

  lemma FirstStart(s: Axis, nb: Pos, n: int)
    requires n < Half(s)
    ensures Start(s, nb, n) == StartInHalf(s, nb, n)
  {
  }

  /* The whole block. */

  /** Element (x, y) belongs to segment (m, n). */
  predicate Holds(rows: Axis, cols: Axis, nb: Pos, m: int, n: int, x: int, y: int) {
    Covers(rows, nb, m, x) && Covers(cols, nb, n, y)
  }

  lemma BlockCutsUp(rows: Axis, cols: Axis, h: nat, nb: Pos)
    requires Block(rows, cols, h, nb)
    ensures CutsUp(rows, nb) && CutsUp(cols, nb)
    ensures rows.mp == rows.sp + h && cols.mp == cols.sp + h
    ensures rows.totSegCnt == 2 * Half(rows) && cols.totSegCnt == 2 * Half(cols)
    ensures (rows.cSegCnt > 0 ==> rows.cCnt > 0) && (cols.cSegCnt > 0 ==> cols.cCnt > 0)
  {
    hide Fits, AxisOf, CutsUp;
    CenterHasSizes(rows.sp, h, nb);
    CenterHasSizes(cols.sp, h, nb);
    CutsUpExactlyIfItFits(rows.sp, h, nb);
    CutsUpExactlyIfItFits(cols.sp, h, nb);
    AxisBounds(rows.sp, h, nb);
    AxisBounds(cols.sp, h, nb);
    EvenCount(rows.sp, h, nb);
    EvenCount(cols.sp, h, nb);
  }

  /** The segments are a partition of the block: element (x, y) is in segment (m, n) if and only if it is
      in the block and (m, n) is the one pair of numbers belonging to it. */
  lemma SegmentsPartitionTheBlock(rows: Axis, cols: Axis, h: nat, nb: Pos, m: int, n: int, x: int, y: int)
    requires Block(rows, cols, h, nb)
    ensures Holds(rows, cols, nb, m, n, x, y) <==>
            && rows.sp <= x < rows.sp + 2 * h && cols.sp <= y < cols.sp + 2 * h
            && m == SegmentAt(rows, nb, x) && n == SegmentAt(cols, nb, y)
  {
    hide CutsUp, Covers, Block, SegmentAt;
    BlockCutsUp(rows, cols, h, nb);
    ExactlyOneSegment(rows, nb, m, x);
    ExactlyOneSegment(cols, nb, n, y);
  }

  lemma SegmentInOneTile(s: Axis, nb: Pos, n: int, x: int)
    requires CutsUp(s, nb) && Covers(s, nb, n, x)
    ensures x / nb == Start(s, nb, n) / nb && x % nb == Start(s, nb, n) % nb + (x - Start(s, nb, n))
  {
    assert GoodSegment(s, nb, if n < Half(s) then n else n - Half(s));
    var first := Start(s, nb, n);
    assert InOneTile(first, Size(s, n), nb);
    hide StartInHalf, Size, Start;
    QuotientTimes(first, nb);
    QuotientIs(x, nb, first / nb, first % nb + (x - first));
  }

  /** A segment is stored in one tile as a rectangle: element (x, y) is at the place of the corner, moved by its
      distance from there, columns being `nb` apart. The place gives the element back, so different elements are
      at different places. */
  lemma SegmentIsARectangle(rows: Axis, cols: Axis, h: nat, nb: Pos, m: int, n: int, x: int, y: int, corner: Place)
    requires Block(rows, cols, h, nb) && Holds(rows, cols, nb, m, n, x, y)
    requires corner.Place? && 0 <= corner.offset < nb * nb
    requires corner.mTile * nb + corner.offset % nb == Start(rows, nb, m)
    requires corner.nTile * nb + corner.offset / nb == Start(cols, nb, n)
    ensures var offset := corner.offset + (x - Start(rows, nb, m)) + (y - Start(cols, nb, n)) * nb;
      && 0 <= offset < nb * nb
      && corner.mTile * nb + offset % nb == x && corner.nTile * nb + offset / nb == y
  {
    hide CutsUp, Start, Block;
    BlockCutsUp(rows, cols, h, nb);
    SegmentInOneTile(rows, nb, m, x);
    SegmentInOneTile(cols, nb, n, y);
    hide Holds;
    InCorner(Start(rows, nb, m), Start(cols, nb, n), nb, corner.mTile, corner.nTile, corner.offset);
    InTile(x, y, nb);
    MulDistributes(Start(cols, nb, n) % nb, y - Start(cols, nb, n), nb);
  }

  lemma InCorner(x: int, y: int, nb: Pos, mTile: int, nTile: int, offset: int)
    requires 0 <= offset < nb * nb && mTile * nb + offset % nb == x && nTile * nb + offset / nb == y
    ensures mTile == x / nb && nTile == y / nb && offset == (y % nb) * nb + x % nb
  {
    QuotientTimes(offset, nb);
    MulCancels(offset / nb, nb, nb);
    QuotientMonotone(0, offset, nb);
    QuotientIs(0, nb, 0, 0);
    QuotientIs(x, nb, mTile, offset % nb);
    QuotientIs(y, nb, nTile, offset / nb);
  }

  /** The four segments combined by the butterfly are translates of each other by half a block. */
  lemma FourTranslates(rows: Axis, cols: Axis, h: nat, nb: Pos, m: nat, n: nat, x: int, y: int)
    requires Block(rows, cols, h, nb) && m < Half(rows) && n < Half(cols)
    ensures Holds(rows, cols, nb, m, n, x, y)
      <==> Holds(rows, cols, nb, m + Half(rows), n, x + h, y)
    ensures Holds(rows, cols, nb, m, n, x, y)
      <==> Holds(rows, cols, nb, m, n + Half(cols), x, y + h)
    ensures Holds(rows, cols, nb, m, n, x, y)
      <==> Holds(rows, cols, nb, m + Half(rows), n + Half(cols), x + h, y + h)
  {
    hide CutsUp, Start, Size, Half, Block;
    BlockCutsUp(rows, cols, h, nb);
    HalvesMatch(rows, nb, m);
    HalvesMatch(cols, nb, n);
  }

  /* The type index. */

  method AxisType(s: Axis, n: nat) returns (ty: int)
    requires s.cSegCnt > 0 ==> s.cCnt > 0
    ensures ty == TypeOf(s, n)
  {
    if n < s.lCnt {
      ty := 0;
      if n == 1 {
        ty := 1;
      }
    } else if n < s.lCnt + s.cSegCnt {
      ty := 2;
      if (n - s.lCnt) % s.cCnt != 0 {
        ty := 3;
      }
    } else {
      ty := 4;
      if n - (s.lCnt + s.cSegCnt) != 0 {
        ty := 5;
      }
    }
  }

  /** The row number is folded back by half the number of column segments, as the column number is. */
  function Folded(cols: Axis, k: int): int {
    if k >= Half(cols) then k - Half(cols) else k
  }

  method SegmentToTypeIndex(rows: Axis, cols: Axis, row: nat, col: nat) returns (index: int)
    requires rows.cSegCnt > 0 ==> rows.cCnt > 0
    requires cols.cSegCnt > 0 ==> cols.cCnt > 0
    ensures index == IndexOf(rows, cols, row, col)
    ensures forall h: nat, nb: Pos ::
              Block(rows, cols, h, nb) && InRange(rows, cols, row, col) && rows.totSegCnt == cols.totSegCnt ==>
              SizesOf(rows, cols, index) == Sizes(true, Size(rows, row), Size(cols, col))
  {
    forall h: nat, nb: Pos |
      Block(rows, cols, h, nb) && InRange(rows, cols, row, col) && rows.totSegCnt == cols.totSegCnt
      ensures SizesOf(rows, cols, IndexOf(rows, cols, row, col)) == Sizes(true, Size(rows, row), Size(cols, col))
    {
      TypesAreRightExactlyIfCountsAgree(rows, cols, h, nb);
    }
    hide Block, Size, SizeOfType, SizesOf, TypesAreRight;
    if col >= cols.totSegCnt || row >= rows.totSegCnt {
      return -1;
    }
    var m, n := row, col;
    if n >= cols.totSegCnt / 2 {
      n := n - cols.totSegCnt / 2;
    }
    if m >= cols.totSegCnt / 2 {
      m := m - cols.totSegCnt / 2;
    }
    var typeN := AxisType(cols, n);
    var typeM := AxisType(rows, m);
    index := typeM * 6 + typeN;
  }

  datatype Sizes = NoSizes | Sizes(success: bool, height: int, width: int)

  /** Height and width of a type; no success if the index is negative or one of them is zero. */
  method TypeIndexToSizes(rows: Axis, cols: Axis, index: int) returns (r: Sizes)
    requires index < 36
    ensures r == SizesOf(rows, cols, index)
    ensures TypesAreRight(rows, cols) ==>
              forall m: nat, n: nat :: InRange(rows, cols, m, n) && index == IndexOf(rows, cols, m, n) ==>
                r == Sizes(true, Size(rows, m), Size(cols, n))
  {
    hide Size, InRange, IndexOf;
    if index < 0 {
      return NoSizes;
    }
    var typeN := index % 6;
    var typeM := index / 6;
    var width := match typeN
      case 0 => cols.l1
      case 1 => cols.l2
      case 2 => cols.c1
      case 3 => cols.c2
      case 4 => cols.r1
      case _ => cols.r2;
    var height := match typeM
      case 0 => rows.l1
      case 1 => rows.l2
      case 2 => rows.c1
      case 3 => rows.c2
      case 4 => rows.r1
      case _ => rows.r2;
    r := Sizes(height != 0 && width != 0, height, width);
  }

  function SizesOf(rows: Axis, cols: Axis, index: int): Sizes {
    if index < 0 then NoSizes
    else
      var height, width := SizeOfType(rows, index / 6), SizeOfType(cols, index % 6);
      Sizes(height != 0 && width != 0, height, width)
  }

  function IndexOf(rows: Axis, cols: Axis, m: nat, n: nat): int {
    if InRange(rows, cols, m, n) then TypeOf(rows, Folded(cols, m)) * 6 + TypeOf(cols, Folded(cols, n)) else -1
  }

  /** The type of every segment has the size of the segment. */
  ghost predicate TypesAreRight(rows: Axis, cols: Axis) {
    forall m: nat, n: nat | InRange(rows, cols, m, n) ::
      SizesOf(rows, cols, IndexOf(rows, cols, m, n)) == Sizes(true, Size(rows, m), Size(cols, n))
  }

  lemma IndexSplits(rows: Axis, cols: Axis, m: nat, n: nat)
    requires InRange(rows, cols, m, n)
    ensures SizesOf(rows, cols, IndexOf(rows, cols, m, n)).Sizes?
    ensures SizesOf(rows, cols, IndexOf(rows, cols, m, n)).height == SizeOfType(rows, TypeOf(rows, Folded(cols, m)))
    ensures SizesOf(rows, cols, IndexOf(rows, cols, m, n)).width == SizeOfType(cols, TypeOf(cols, Folded(cols, n)))
  {
    hide SizeOfType, InRange;
    var a, b := TypeOf(rows, Folded(cols, m)), TypeOf(cols, Folded(cols, n));
    QuotientIs(a * 6 + b, 6, a, b);
  }

  function SizeAt(s: Axis, n: int): int {
    SizeOfType(s, TypeOf(s, n))
  }

  /** Past the last segment of a half, the type is that of a right edge that is not there, or of its second part. */
  lemma PastTheEnd(sp: nat, h: nat, nb: Pos, n: int)
    requires h > 0 && Fits(sp, h, nb)
    requires var s := AxisOf(sp, h, nb); n >= Half(s)
    ensures var s := AxisOf(sp, h, nb); SizeAt(s, n) == if s.rCnt == 2 then s.r2 else 0
  {
    hide Room, CDiv;
    RightEdgeSizes(sp, h, nb);
    EvenCount(sp, h, nb);
  }

  lemma RightEdgeSizes(sp: nat, h: nat, nb: Pos)
    requires h > 0 && Fits(sp, h, nb)
    ensures var s := AxisOf(sp, h, nb);
      && 0 <= s.rCnt <= 2 && (s.rCnt <= 1 ==> s.r2 == 0) && (s.rCnt == 0 ==> s.r1 == 0)
      && 0 <= s.lCnt && 0 <= s.cSegCnt && Half(s) == s.lCnt + s.cSegCnt + s.rCnt
  {
    hide Room;
    if Room(sp, h, nb) > nb {
      WideCenter(sp, h, nb);
      WholeTiles(sp, h, nb);
      var s := AxisOf(sp, h, nb);
      MulMonotone(0, Tiles(sp, h, nb), s.cCnt);
    } else {
      NarrowCounts(sp, h, nb);
      NarrowIsNotEmpty(sp, h, nb);
    }
  }

  /** A right edge in two parts: its first part ends at the cut, and what comes before it is what the cut
      leaves of a tile. The three last segments cannot all have the size of the very last one. */
  lemma LastThree(sp: nat, h: nat, nb: Pos)
    requires h > 0 && Fits(sp, h, nb)
    requires AxisOf(sp, h, nb).rCnt == 2
    ensures var s := AxisOf(sp, h, nb);
      && Half(s) >= 3 && SizeAt(s, Half(s) - 1) == s.r2 && SizeAt(s, Half(s) - 2) == s.r1
      && SizeAt(s, Half(s) - 3) == s.c2 && !(s.r1 == s.r2 == s.c2)
  {
    hide Room, CenterStart, CDiv;
    var s := AxisOf(sp, h, nb);
    assert Room(sp, h, nb) > nb;
    RightEdgeSizes(sp, h, nb);
    WideCenter(sp, h, nb);
    WholeTiles(sp, h, nb);
    QuotientTimes(sp + h, nb);
    QuotientTimes(h, nb);
    assert s.cCnt == 2;
    var tiles := Tiles(sp, h, nb);
    QuotientIs(2 * tiles - 1, 2, tiles - 1, 1);
  }

  /** What the type index says about the rows alone. */
  ghost predicate RowTypesAreRight(rows: Axis, half: int) {
    forall m: nat | m < 2 * Half(rows) ::
      SizeAt(rows, if m >= half then m - half else m) == Size(rows, m)
  }

  lemma {:induction false} AllLikeTheLast(s: Axis, half: int, i: nat)
    requires Half(s) > 0 && RowTypesAreRight(s, half) && half > Half(s)
    requires forall n {:trigger SizeAt(s, n)} :: n >= Half(s) ==> SizeAt(s, n) == s.r2
    requires i < Half(s)
    ensures SizeAt(s, i) == s.r2
    decreases i
  {
    hide SizeOfType, TypeOf;
    var d := half - Half(s);
    var m := i + Half(s);
    RowTypeAt(s, half, m);
    if i >= d { AllLikeTheLast(s, half, i - d); }
  }

  lemma RowTypeAt(s: Axis, half: int, m: nat)
    requires RowTypesAreRight(s, half) && m < 2 * Half(s)
    ensures SizeAt(s, if m >= half then m - half else m) == Size(s, m)
  {
  }

  lemma FoldingTooFar(sp: nat, h: nat, nb: Pos, half: int)
    requires h > 0 && (h % nb == 0 ==> sp % nb == 0) && Fits(sp, h, nb)
    requires RowTypesAreRight(AxisOf(sp, h, nb), half)
    ensures half <= Half(AxisOf(sp, h, nb))
  {
    hide AxisOf, Fits, SizeOfType, TypeOf;
    var s := AxisOf(sp, h, nb);
    CutsUpExactlyIfItFits(sp, h, nb);
    if half > Half(s) {
      assert GoodSegment(s, nb, 0);
      PastTheEnd(sp, h, nb, Half(s));
      var m := Half(s);
      RowTypeAt(s, half, m);
      assert Size(s, m) > 0;
      assert s.rCnt == 2;
      forall n {:trigger SizeAt(s, n)} | n >= Half(s) ensures SizeAt(s, n) == s.r2 { PastTheEnd(sp, h, nb, n); }
      LastThree(sp, h, nb);
      AllLikeTheLast(s, half, Half(s) - 2);
      AllLikeTheLast(s, half, Half(s) - 3);
    }
  }

  lemma FoldingTooEarly(sp: nat, h: nat, nb: Pos, half: int)
    requires h > 0 && (h % nb == 0 ==> sp % nb == 0) && Fits(sp, h, nb)
    requires 0 < half && RowTypesAreRight(AxisOf(sp, h, nb), half)
    ensures half >= Half(AxisOf(sp, h, nb))
  {
    hide AxisOf, Fits, SizeOfType, TypeOf;
    var s := AxisOf(sp, h, nb);
    CutsUpExactlyIfItFits(sp, h, nb);
    if half < Half(s) {
      var last := Half(s) - 1;
      assert GoodSegment(s, nb, last);
      var m := 2 * Half(s) - 1;
      PastTheEnd(sp, h, nb, m - half);
      RowTypeAt(s, half, m);
      assert s.rCnt == 2;
      LastThree(sp, h, nb);
      m := 2 * Half(s) - 2;
      if m - half >= Half(s) { PastTheEnd(sp, h, nb, m - half); }
      RowTypeAt(s, half, m);
      m := 2 * Half(s) - 3;
      if m - half >= Half(s) { PastTheEnd(sp, h, nb, m - half); }
      RowTypeAt(s, half, m);
    }
  }

  /** The type index gives every segment its own size if and only if there are as many row segments as
      column segments: row numbers are folded back by the number of column segments. */
  lemma TypesAreRightExactlyIfCountsAgree(rows: Axis, cols: Axis, h: nat, nb: Pos)
    requires Block(rows, cols, h, nb)
    ensures TypesAreRight(rows, cols) <==> rows.totSegCnt == cols.totSegCnt
  {
    BlockCutsUp(rows, cols, h, nb);
    BlockParts(rows, cols, h, nb);
    hide Block, AxisOf, Fits, CutsUp, TypesAreRight;
    if rows.totSegCnt == cols.totSegCnt { SameCountsAreRight(rows, cols, nb); }
    if TypesAreRight(rows, cols) {
      RightTypesOfRows(rows, cols, nb);
      FoldingTooFar(rows.sp, h, nb, Half(cols));
      FoldingTooEarly(rows.sp, h, nb, Half(cols));
    }
  }

  lemma BlockParts(rows: Axis, cols: Axis, h: nat, nb: Pos)
    requires Block(rows, cols, h, nb)
    ensures rows.sp >= 0 && h > 0 && rows == AxisOf(rows.sp, h, nb) && Fits(rows.sp, h, nb)
    ensures h % nb == 0 ==> rows.sp % nb == 0
    ensures Half(rows) > 0 && Half(cols) > 0
  {
    BlockCutsUp(rows, cols, h, nb);
  }

  lemma SameCountsAreRight(rows: Axis, cols: Axis, nb: Pos)
    requires CutsUp(rows, nb) && CutsUp(cols, nb) && rows.totSegCnt == cols.totSegCnt
    requires rows.totSegCnt == 2 * Half(rows) && cols.totSegCnt == 2 * Half(cols)
    ensures TypesAreRight(rows, cols)
  {
    forall m: nat, n: nat | InRange(rows, cols, m, n)
      ensures SizesOf(rows, cols, IndexOf(rows, cols, m, n)) == Sizes(true, Size(rows, m), Size(cols, n))
    {
      SegmentIsNotEmpty(rows, nb, m);
      SegmentIsNotEmpty(cols, nb, n);
      hide SizeOfType, TypeOf, CutsUp;
      IndexSplits(rows, cols, m, n);
    }
  }

  lemma SegmentIsNotEmpty(s: Axis, nb: Pos, n: nat)
    requires CutsUp(s, nb) && n < 2 * Half(s)
    ensures Size(s, n) > 0
  {
    hide SizeOfType, TypeOf, StartInHalf;
    assert GoodSegment(s, nb, if n < Half(s) then n else n - Half(s));
  }

  lemma RightTypesOfRows(rows: Axis, cols: Axis, nb: Pos)
    requires TypesAreRight(rows, cols) && Half(cols) > 0
    requires rows.totSegCnt == 2 * Half(rows) && cols.totSegCnt == 2 * Half(cols)
    ensures RowTypesAreRight(rows, Half(cols))
  {
    hide SizeOfType, TypeOf;
    forall m: nat | m < 2 * Half(rows)
      ensures SizeAt(rows, if m >= Half(cols) then m - Half(cols) else m) == Size(rows, m)
    {
      assert InRange(rows, cols, m, 0);
      IndexSplits(rows, cols, m, 0);
    }
  }

  /** They need not agree: tiles of 3, a matrix of 32 in 2 x 2 blocks, the block below the diagonal. Row
      segment 5 opens the second half and is 2 high, but its type says 0. */
  lemma CountsCanDiffer(rows: Axis, cols: Axis)
    requires rows == AxisOf(16, 8, 3) && cols == AxisOf(0, 8, 3)
    ensures Block(rows, cols, 8, 3) && rows.totSegCnt == 10 && cols.totSegCnt == 12
    ensures Size(rows, 5) == 2 && SizeAt(rows, Folded(cols, 5)) == 0
    ensures !TypesAreRight(rows, cols)
  {
    AxisAtSixteen();
    AxisAtZero();
    hide AxisOf, Fits, TypesAreRight;
    SegmentFive(rows, cols);
  }

  lemma AxisAtSixteen()
    ensures AxisOf(16, 8, 3) == Axis(16, 24, 31, 1, 2, 0, 0, 0, 0, 2, 1, 2, 4, 10) && Fits(16, 8, 3)
  {
    assert CenterStart(16, 3) == 18 && Cut(8, 3) == 1;
  }

  lemma AxisAtZero()
    ensures AxisOf(0, 8, 3) == Axis(0, 8, 15, 0, 0, 0, 2, 1, 1, 2, 1, 2, 4, 12) && Fits(0, 8, 3)
  {
    assert CenterStart(0, 3) == 0 && Cut(8, 3) == 1;
  }

  lemma SegmentFive(rows: Axis, cols: Axis)
    requires rows == Axis(16, 24, 31, 1, 2, 0, 0, 0, 0, 2, 1, 2, 4, 10)
    requires cols == Axis(0, 8, 15, 0, 0, 0, 2, 1, 1, 2, 1, 2, 4, 12)
    ensures Size(rows, 5) == 2 && SizeAt(rows, Folded(cols, 5)) == 0 && !TypesAreRight(rows, cols)
  {
    assert InRange(rows, cols, 5, 0);
    IndexSplits(rows, cols, 5, 0);
  }
}
