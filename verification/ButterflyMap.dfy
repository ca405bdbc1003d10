/** Cutting a block of the butterfly transform into segments. A block is split in two halves that are
    combined element by element, so a segment must not cross a tile boundary in its own half nor, moved
    over, in the other one. Rows and columns are cut independently by the same rules; this module works
    on one axis and puts two of them together at the end. */
module ButterflyMap {
  import opened Bits
  import opened Integers

  /** The numbers kept for one axis: start, middle and end of the block; for the left (top) edge, the
      right (bottom) edge and the center, how many sizes occur and which; and the segment counts. */
  datatype Axis = Axis(
    sp: int, mp: int, ep: int,
    lCnt: int, l1: int, l2: int,
    rCnt: int, r1: int, r2: int,
    cCnt: int, c1: int, c2: int,
    cSegCnt: int, totSegCnt: int)

  /* The parameters of an axis: it starts at `sp`, each half is `h` long, tiles are `nb` long. */

  /** The place where a tile boundary of the other half falls into a tile, as a distance from its start. */
  function Cut(h: nat, nb: Pos): int {
    nb - h % nb
  }

  /** The first tile boundary at or after the start. */
  function CenterStart(sp: nat, nb: Pos): int {
    if sp % nb == 0 then sp else sp + nb - sp % nb
  }

  /** What is left of the first half from that boundary on. */
  function Room(sp: nat, h: nat, nb: Pos): int {
    sp + h - CenterStart(sp, nb)
  }

  /** C's division truncates toward zero. */
  function CDiv(x: int, d: Pos): int {
    if x >= 0 then x / d else -((-x) / d)
  }

  /** The sizes and counts of one axis, computed as the code does from its bounds. */
  method AxisSizes(sp: nat, mp: nat, ep: int, nb: Pos) returns (s: Axis)
    requires sp <= mp && ep == 2 * mp - sp - 1
    ensures s == AxisOf(sp, mp - sp, nb)
  {
    CutIsRight(sp, mp - sp, nb);
    RemainderRange(sp, nb);
    RemainderRange(mp, nb);
    RemainderRange(mp - sp, nb);
    var a := sp % nb;
    var b := nb - a;
    var c := mp % nb;
    var d := nb - c;
    var e := if d > b then d - b else nb + (d - b);
    var f := nb - e;
    var cstart := sp;
    if b != nb {
      cstart := cstart + b;
    }
    assert e == Cut(mp - sp, nb) && f == (mp - sp) % nb && mp - cstart == Room(sp, mp - sp, nb);
    hide CDiv, Cut, Room, LeftSizes, RightSizes, CenterSizes;
    var cend := mp;
    if c != nb && mp > cstart + nb {
      cend := cend - c;
    }
    var lCnt, l1, l2 := EdgeBefore(sp, mp, nb, b, e, f);
    var rCnt, r1, r2 := EdgeAfter(sp, mp, nb, c, e, f, cstart);
    var cCnt, c1, c2 := Center(sp, mp, nb, e, f, cstart);
    var cSegCnt := CDiv(cCnt * (cend - cstart), nb);
    if cCnt == 1 && cend - cstart < nb {
      cSegCnt := 1;
    }
    s := Axis(sp, mp, ep, lCnt, l1, l2, rCnt, r1, r2, cCnt, c1, c2, cSegCnt, 2 * (lCnt + cSegCnt + rCnt));
  }

  /** The left (top) edge types. */
  method EdgeBefore(sp: nat, mp: nat, nb: Pos, b: int, e: int, f: int) returns (count: int, first: int, second: int)
    requires sp <= mp && b == nb - sp % nb && e == Cut(mp - sp, nb) && f == (mp - sp) % nb
    ensures (count, first, second) == LeftSizes(sp, mp - sp, nb)
  {
    RemainderRange(sp, nb);
    count, first, second := 0, 0, 0;
    if b < f + e {
      if f < b {
        count, first, second := 2, b - f, f;
      } else {
        count, first, second := 1, b, 0;
      }
    }
  }

  /** The right (bottom) edge types. */
  method EdgeAfter(sp: nat, mp: nat, nb: Pos, c: int, e: int, f: int, cstart: int)
      returns (count: int, first: int, second: int)
    requires sp <= mp && c == mp % nb && e == Cut(mp - sp, nb) && f == (mp - sp) % nb
    requires mp - cstart == Room(sp, mp - sp, nb)
    ensures (count, first, second) == RightSizes(sp, mp - sp, nb)
  {
    hide Room;
    RemainderRange(mp, nb);
    count, first, second := 0, 0, 0;
    if c < e + f && c != 0 && 0 < mp - (cstart + nb) {
      if e < c {
        count, first, second := 2, e, c - e;
      } else {
        count, first, second := 1, c, 0;
      }
    }
  }

  /** The center types. */
  method Center(sp: nat, mp: nat, nb: Pos, e: int, f: int, cstart: int) returns (count: int, first: int, second: int)
    requires sp <= mp && e == Cut(mp - sp, nb) && f == (mp - sp) % nb
    requires mp - cstart == Room(sp, mp - sp, nb)
    ensures (count, first, second) == CenterSizes(sp, mp - sp, nb)
  {
    hide Room;
    count, first, second := 0, 0, 0;
    if 0 < f && 0 < mp - (cstart + e) {
      count, first, second := 2, e, f;
    } else if e <= mp - cstart {
      count, first := 1, e;
    }
  }

  /* Blocks of level `L` in a matrix of size `N`. */

  function BlockSize(N: nat, L: nat): nat {
    QuotientAtMost(N, Pow2(L));
    N / Pow2(L)
  }

  function BlockStart(N: nat, L: nat, ib: nat): nat {
    MulMonotone(0, ib, BlockSize(N, L));
    ib * BlockSize(N, L)
  }

  function BlockAxis(N: nat, nb: Pos, L: nat, ib: nat): Axis {
    AxisOf(BlockStart(N, L, ib), BlockSize(N, L) / 2, nb)
  }

  /** The constants of one axis of that block. */
  method AxisConstants(N: nat, nb: Pos, L: nat, ib: nat) returns (s: Axis)
    requires N % (2 * Pow2(L)) == 0
    ensures s == BlockAxis(N, nb, L, ib) && (s.cSegCnt > 0 ==> s.cCnt > 0)
  {
    hide AxisOf, Pow2;
    var blockCount: Pos := Pow2(L);
    BlockBounds(N, blockCount, ib);
    CenterHasSizes(BlockStart(N, L, ib), BlockSize(N, L) / 2, nb);
    var sp := ib * N / blockCount;
    var ep := (ib + 1) * N / blockCount - 1;
    var mp := (sp + ep + 1) / 2;
    s := AxisSizes(sp, mp, ep, nb);
  }

  /** Where there are segments in the center, there is a size for them. */
  lemma CenterHasSizes(sp: nat, h: nat, nb: Pos)
    ensures var s := AxisOf(sp, h, nb); s.cSegCnt > 0 ==> s.cCnt > 0
  {
    hide Room, Cut;
    QuotientIs(0, nb, 0, 0);
  }

  /** With blocks of even size, the bounds are multiples of the block size. */
  lemma BlockBounds(N: nat, blockCount: Pos, ib: nat)
    requires N % (2 * blockCount) == 0
    ensures var h := N / blockCount / 2;
      && N / blockCount == 2 * h && ib * N / blockCount == ib * (N / blockCount)
      && (ib + 1) * N / blockCount == ib * (N / blockCount) + 2 * h
  {
    var q := N / (2 * blockCount);
    QuotientTimes(N, 2 * blockCount);
    assert N == (2 * q) * blockCount by { assert q * (2 * blockCount) == (2 * q) * blockCount; }
    QuotientIs(N, blockCount, 2 * q, 0);
    assert ib * N == (ib * (2 * q)) * blockCount;
    QuotientIs(ib * N, blockCount, ib * (2 * q), 0);
    assert (ib + 1) * N == ((ib + 1) * (2 * q)) * blockCount;
    QuotientIs((ib + 1) * N, blockCount, (ib + 1) * (2 * q), 0);
    MulDistributes(ib, 1, 2 * q);
  }

  lemma CutIsRight(sp: nat, h: nat, nb: Pos)
    ensures var b := nb - sp % nb; var d := nb - (sp + h) % nb;
      (if d > b then d - b else nb + (d - b)) == Cut(h, nb)
  {
    QuotientTimes(sp, nb);
    QuotientTimes(h, nb);
    MulDistributes(sp / nb, h / nb, nb);
    var r := sp % nb + h % nb;
    if r < nb {
      QuotientIs(sp + h, nb, sp / nb + h / nb, r);
    } else {
      MulDistributes(sp / nb + h / nb, 1, nb);
      QuotientIs(sp + h, nb, sp / nb + h / nb + 1, r - nb);
    }
  }

  /* The same numbers, in terms of the start, the length of a half and the tile size. */

  function LeftSizes(sp: nat, h: nat, nb: Pos): (int, int, int) {
    var f, b := h % nb, nb - sp % nb;
    if sp % nb == 0 then (0, 0, 0) else if f < b then (2, b - f, f) else (1, b, 0)
  }

  function RightSizes(sp: nat, h: nat, nb: Pos): (int, int, int) {
    var e, c := Cut(h, nb), (sp + h) % nb;
    if c == 0 || Room(sp, h, nb) <= nb then (0, 0, 0) else if e < c then (2, e, c - e) else (1, c, 0)
  }

  function CenterSizes(sp: nat, h: nat, nb: Pos): (int, int, int) {
    var e, f, room := Cut(h, nb), h % nb, Room(sp, h, nb);
    if 0 < f && e < room then (2, e, f) else if e <= room then (1, e, 0) else (0, 0, 0)
  }

  function AxisOf(sp: nat, h: nat, nb: Pos): Axis {
    var mp := sp + h;
    var room := Room(sp, h, nb);
    var (lCnt, l1, l2) := LeftSizes(sp, h, nb);
    var (rCnt, r1, r2) := RightSizes(sp, h, nb);
    var (cCnt, c1, c2) := CenterSizes(sp, h, nb);
    var center := if room > nb then room - mp % nb else room;
    var cSegCnt := if cCnt == 1 && center < nb then 1 else CDiv(cCnt * center, nb);
    Axis(sp, mp, sp + 2 * h - 1, lCnt, l1, l2, rCnt, r1, r2, cCnt, c1, c2, cSegCnt, 2 * (lCnt + cSegCnt + rCnt))
  }

  /* Segments. */

  function Half(s: Axis): int {
    s.totSegCnt / 2
  }

  /** Which of the six sizes segment `n` of a half has. */
  function TypeOf(s: Axis, n: int): int {
    if n < s.lCnt then (if n == 1 then 1 else 0)
    else if n < s.lCnt + s.cSegCnt then (if s.cCnt > 0 && (n - s.lCnt) % s.cCnt != 0 then 3 else 2)
    else if n - (s.lCnt + s.cSegCnt) != 0 then 5 else 4
  }

  function SizeOfType(s: Axis, ty: int): int {
    if ty == 0 then s.l1 else if ty == 1 then s.l2
    else if ty == 2 then s.c1 else if ty == 3 then s.c2
    else if ty == 4 then s.r1 else s.r2
  }

  /** Where segment `n` of the first half begins. */
  function StartInHalf(s: Axis, nb: Pos, n: int): int {
    if n < s.lCnt then s.sp + if n == 1 then s.l1 else 0
    else if n < s.lCnt + s.cSegCnt then
      s.sp + s.l1 + s.l2
      + (if s.cCnt > 0 then (n - s.lCnt) / s.cCnt * nb + (if (n - s.lCnt) % s.cCnt != 0 then s.c1 else 0) else 0)
    else s.mp - (s.r1 + s.r2) + if n - (s.lCnt + s.cSegCnt) != 0 then s.r1 else 0
  }

  function Start(s: Axis, nb: Pos, n: int): int {
    if n >= Half(s) then StartInHalf(s, nb, n - Half(s)) + s.mp - s.sp else StartInHalf(s, nb, n)
  }

  function Size(s: Axis, n: int): int {
    SizeOfType(s, TypeOf(s, if n >= Half(s) then n - Half(s) else n))
  }

  ghost predicate InOneTile(x: int, size: int, nb: Pos) {
    0 <= x % nb && x % nb + size <= nb
  }

  /** Segment `n` is not empty, ends where the next one (or the second half) begins, and stays inside one
      tile in either half. */
  ghost predicate GoodSegment(s: Axis, nb: Pos, n: int) {
    && Size(s, n) > 0
    && StartInHalf(s, nb, n) + Size(s, n) == (if n + 1 < Half(s) then StartInHalf(s, nb, n + 1) else s.mp)
    && InOneTile(StartInHalf(s, nb, n), Size(s, n), nb)
    && InOneTile(StartInHalf(s, nb, n) + s.mp - s.sp, Size(s, n), nb)
  }

  /** The segments of the first half cut it up without gap or overlap, and moved by the length of a half
      they cut up the second one. */
  ghost predicate CutsUp(s: Axis, nb: Pos) {
    && Half(s) > 0 && StartInHalf(s, nb, 0) == s.sp
    && forall n :: 0 <= n < Half(s) ==> GoodSegment(s, nb, n)
  }

  /** What the constants presuppose: more than one tile of room, or an exact fit. */
  predicate Fits(sp: nat, h: nat, nb: Pos) {
    var room := Room(sp, h, nb);
    room > nb || room == nb || room == Cut(h, nb) || room == 0
  }

  /* Remainders. */

  lemma TileRemainder(q: int, nb: Pos, r: int)
    requires 0 <= r < nb
    ensures (q * nb + r) % nb == r
  {
    QuotientIs(q * nb + r, nb, q, r);
  }

  lemma CenterIsABoundary(sp: nat, nb: Pos)
    ensures CenterStart(sp, nb) == CenterStart(sp, nb) / nb * nb
    ensures sp <= CenterStart(sp, nb) < sp + nb
  {
    QuotientTimes(sp, nb);
    MulDistributes(sp / nb, 1, nb);
    if sp % nb == 0 {
      QuotientIs(CenterStart(sp, nb), nb, sp / nb, 0);
    } else {
      QuotientIs(CenterStart(sp, nb), nb, sp / nb + 1, 0);
    }
  }

  lemma ShiftedPlace(boundary: int, x: int, h: nat, nb: Pos)
    requires boundary % nb == 0 && 0 <= x < nb
    ensures (boundary + x) % nb == x
    ensures (boundary + x + h) % nb == if x < Cut(h, nb) then x + h % nb else x - Cut(h, nb)
  {
    QuotientTimes(boundary, nb);
    QuotientTimes(h, nb);
    var q := boundary / nb;
    var q' := q + h / nb;
    MulDistributes(q, h / nb, nb);
    MulDistributes(q', 1, nb);
    QuotientIs(boundary + x, nb, q, x);
    if x < Cut(h, nb) {
      QuotientIs(boundary + x + h, nb, q', x + h % nb);
    } else {
      QuotientIs(boundary + x + h, nb, q' + 1, x - Cut(h, nb));
    }
  }

  /** A segment that starts `x` after a tile boundary and ends before the next one, and does not contain
      the cut strictly inside, is good in both halves. */
  lemma BothHalves(boundary: int, x: int, size: int, h: nat, nb: Pos)
    requires boundary % nb == 0 && 0 <= x && 0 < size && x + size <= nb
    requires x + size <= Cut(h, nb) || Cut(h, nb) <= x
    ensures InOneTile(boundary + x, size, nb) && InOneTile(boundary + x + h, size, nb)
  {
    ShiftedPlace(boundary, x, h, nb);
    QuotientTimes(h, nb);
  }

  /* The left edge. */

  lemma LeftEdge(sp: nat, h: nat, nb: Pos, n: int)
    requires h % nb == 0 ==> sp % nb == 0
    requires var s := AxisOf(sp, h, nb); 0 <= n < s.lCnt
    ensures var s := AxisOf(sp, h, nb);
      && SizeOfType(s, TypeOf(s, n)) > 0
      && StartInHalf(s, nb, n) + SizeOfType(s, TypeOf(s, n)) ==
          (if n + 1 < s.lCnt then StartInHalf(s, nb, n + 1) else CenterStart(sp, nb))
      && InOneTile(StartInHalf(s, nb, n), SizeOfType(s, TypeOf(s, n)), nb)
      && InOneTile(StartInHalf(s, nb, n) + h, SizeOfType(s, TypeOf(s, n)), nb)
  {
    hide CDiv, CenterStart, Room;
    var s := AxisOf(sp, h, nb);
    var x := sp % nb;
    QuotientTimes(sp, nb);
    TileRemainder(sp / nb, nb, 0);
    assert CenterStart(sp, nb) == sp + nb - x by { LeftEdgeEnd(sp, nb); }
    var at := if n == 1 then x + s.l1 else x;
    BothHalves(sp - x, at, SizeOfType(s, TypeOf(s, n)), h, nb);
  }

  lemma LeftEdgeEnd(sp: nat, nb: Pos)
    requires sp % nb != 0
    ensures CenterStart(sp, nb) == sp + nb - sp % nb
  {
  }

  lemma LeftEdgeSizes(sp: nat, h: nat, nb: Pos)
    ensures var s := AxisOf(sp, h, nb);
      s.sp + s.l1 + s.l2 == CenterStart(sp, nb) && (s.lCnt == 0 <==> sp == CenterStart(sp, nb)) && 0 <= s.lCnt <= 2
  {
  }

  /* The center, when there is more than one tile of room. */

  /** The number of whole tiles in the center. */
  function Tiles(sp: nat, h: nat, nb: Pos): int {
    (Room(sp, h, nb) - (sp + h) % nb) / nb
  }

  lemma WholeTiles(sp: nat, h: nat, nb: Pos)
    requires Room(sp, h, nb) > nb
    ensures Tiles(sp, h, nb) >= 1
    ensures CenterStart(sp, nb) + Tiles(sp, h, nb) * nb == sp + h - (sp + h) % nb
  {
    hide CenterStart;
    var mp, cs := sp + h, CenterStart(sp, nb);
    CenterIsABoundary(sp, nb);
    QuotientTimes(mp, nb);
    MulDistributes(mp / nb, -(cs / nb), nb);
    QuotientIs(mp - mp % nb - cs, nb, mp / nb - cs / nb, 0);
    QuotientMonotone(cs + nb, mp, nb);
    QuotientShift(cs, nb, 1);
  }

  lemma WideCenter(sp: nat, h: nat, nb: Pos)
    requires Room(sp, h, nb) > nb
    ensures var s := AxisOf(sp, h, nb);
      && s.cCnt == (if h % nb > 0 then 2 else 1) && s.c1 == Cut(h, nb) && s.c2 == nb - s.c1
      && s.cSegCnt == s.cCnt * Tiles(sp, h, nb)
      && s.r1 + s.r2 == (sp + h) % nb && 0 <= s.rCnt <= 2 && (s.rCnt == 0 <==> (sp + h) % nb == 0)
      && Half(s) == s.lCnt + s.cSegCnt + s.rCnt
  {
    WholeTiles(sp, h, nb);
    RemainderRange(h, nb);
    RemainderRange(sp + h, nb);
    CenterOfTiles(Tiles(sp, h, nb), nb);
    MulMonotone(1, Tiles(sp, h, nb), nb);
    RoomEnds(sp, h, nb);
    hide CenterStart, Room, Tiles, CDiv;
  }

  lemma RemainderRange(x: int, nb: Pos)
    ensures 0 <= x % nb < nb
  {
    QuotientTimes(x, nb);
  }

  /** Whole tiles, with one or two sizes per tile. */
  lemma CenterOfTiles(tiles: nat, nb: Pos)
    ensures CDiv(1 * (tiles * nb), nb) == tiles && CDiv(2 * (tiles * nb), nb) == 2 * tiles
  {
    hide CDiv;
    CDivOfMultiple(tiles, nb);
    CDivOfMultiple(2 * tiles, nb);
    MulRegroups(2, tiles, nb);
  }

  lemma CDivOfMultiple(q: nat, nb: Pos)
    ensures CDiv(q * nb, nb) == q
  {
    MulMonotone(0, q, nb);
    QuotientIs(q * nb, nb, q, 0);
  }

  lemma PairIndex(t: nat, tiles: nat, count: int)
    requires count == 1 || count == 2
    requires t < count * tiles
    ensures 0 <= t / count < tiles && t == t / count * count + t % count && 0 <= t % count < count
    ensures t % count + 1 < count ==> (t + 1) / count == t / count && (t + 1) % count == t % count + 1
    ensures t % count + 1 == count ==> (t + 1) / count == t / count + 1 && (t + 1) % count == 0
    ensures t + 1 == count * tiles <==> t / count + 1 == tiles && t % count + 1 == count
  {
    if count == 1 { QuotientIs(t, 1, t, 0); QuotientIs(t + 1, 1, t + 1, 0); }
  }

  lemma CenterSegment(sp: nat, h: nat, nb: Pos, t: nat)
    requires Room(sp, h, nb) > nb && t < AxisOf(sp, h, nb).cSegCnt
    ensures var s := AxisOf(sp, h, nb); var n := s.lCnt + t; var size := SizeOfType(s, TypeOf(s, n));
      && size > 0
      && StartInHalf(s, nb, n) + size == (if t + 1 < s.cSegCnt then StartInHalf(s, nb, n + 1) else s.mp - (sp + h) % nb)
      && InOneTile(StartInHalf(s, nb, n), size, nb) && InOneTile(StartInHalf(s, nb, n) + h, size, nb)
    ensures var s := AxisOf(sp, h, nb); t == 0 ==> StartInHalf(s, nb, s.lCnt) == CenterStart(sp, nb)
  {
    hide CenterStart, Room;
    var s := AxisOf(sp, h, nb);
    var tiles := Tiles(sp, h, nb);
    WideCenter(sp, h, nb);
    WholeTiles(sp, h, nb);
    LeftEdgeSizes(sp, h, nb);
    PairIndex(t, tiles, s.cCnt);
    var q, odd := t / s.cCnt, t % s.cCnt;
    var cs := CenterStart(sp, nb);
    CenterIsABoundary(sp, nb);
    QuotientTimes(cs, nb);
    QuotientShift(cs, nb, q);
    QuotientIs(cs, nb, cs / nb, 0);
    MulDistributes(q, 1, nb);
    QuotientTimes(h, nb);
    BothHalves(cs + q * nb, if odd != 0 then s.c1 else 0, if odd != 0 then s.c2 else s.c1, h, nb);
  }

  lemma RightEdge(sp: nat, h: nat, nb: Pos, t: nat)
    requires Room(sp, h, nb) > nb && t < AxisOf(sp, h, nb).rCnt
    ensures var s := AxisOf(sp, h, nb); var n := s.lCnt + s.cSegCnt + t; var size := SizeOfType(s, TypeOf(s, n));
      && size > 0
      && StartInHalf(s, nb, n) + size == (if t + 1 < s.rCnt then StartInHalf(s, nb, n + 1) else s.mp)
      && InOneTile(StartInHalf(s, nb, n), size, nb) && InOneTile(StartInHalf(s, nb, n) + h, size, nb)
    ensures var s := AxisOf(sp, h, nb); t == 0 ==> StartInHalf(s, nb, s.lCnt + s.cSegCnt) == s.mp - (sp + h) % nb
  {
    hide CenterStart, Room, Tiles;
    var s := AxisOf(sp, h, nb);
    WideCenter(sp, h, nb);
    LeftEdgeSizes(sp, h, nb);
    WholeTiles(sp, h, nb);
    QuotientTimes(sp + h, nb);
    QuotientIs(s.mp - (sp + h) % nb, nb, (sp + h) / nb, 0);
    QuotientTimes(h, nb);
    BothHalves(s.mp - (sp + h) % nb, if t == 1 then s.r1 else 0, if t == 1 then s.r2 else s.r1, h, nb);
  }

  lemma WideCutsUp(sp: nat, h: nat, nb: Pos)
    requires h % nb == 0 ==> sp % nb == 0
    requires Room(sp, h, nb) > nb
    ensures CutsUp(AxisOf(sp, h, nb), nb)
  {
    hide AxisOf, CenterStart, Room, Tiles, StartInHalf, SizeOfType, InOneTile, TypeOf;
    var s := AxisOf(sp, h, nb);
    AxisBounds(sp, h, nb);
    WideCenter(sp, h, nb);
    WholeTiles(sp, h, nb);
    LeftEdgeSizes(sp, h, nb);
    MulMonotone(1, Tiles(sp, h, nb), s.cCnt);
    CenterSegment(sp, h, nb, 0);
    if s.rCnt > 0 { RightEdge(sp, h, nb, 0); }
    if s.lCnt > 0 { FirstSegment(s, nb); }
    forall n | 0 <= n < Half(s) ensures GoodSegment(s, nb, n) {
      if n < s.lCnt {
        LeftEdge(sp, h, nb, n);
      } else if n < s.lCnt + s.cSegCnt {
        CenterSegment(sp, h, nb, n - s.lCnt);
      } else {
        RightEdge(sp, h, nb, n - s.lCnt - s.cSegCnt);
      }
    }
  }

  lemma AxisBounds(sp: nat, h: nat, nb: Pos)
    ensures var s := AxisOf(sp, h, nb); s.sp == sp && s.mp == sp + h && s.ep == sp + 2 * h - 1
  {
  }

  lemma FirstSegment(s: Axis, nb: Pos)
    requires s.lCnt > 0
    ensures StartInHalf(s, nb, 0) == s.sp
  {
  }

  /* One tile of room or less. */

  /** The counts when there is at most one tile of room. */
  lemma NarrowCounts(sp: nat, h: nat, nb: Pos)
    requires Room(sp, h, nb) <= nb
    ensures var s := AxisOf(sp, h, nb); var room := Room(sp, h, nb); var e := Cut(h, nb);
      && s.rCnt == 0 && Half(s) == s.lCnt + s.cSegCnt && s.c1 + s.c2 <= nb
      && (room < e ==> s.cSegCnt == 0)
      && (room == e < nb ==> s.cCnt == 1 && s.cSegCnt == 1 && s.c1 == e)
      && (e < room < nb ==> s.cCnt == 2 && 0 <= s.cSegCnt <= 1 && s.c1 == e)
      && (room == nb && e < nb ==> s.cCnt == 2 && s.cSegCnt == 2 && s.c1 == e && s.c2 == nb - e)
      && (room == nb == e ==> s.cCnt == 1 && s.cSegCnt == 1 && s.c1 == nb)
  {
    hide CenterStart, Room;
    var room := Room(sp, h, nb);
    QuotientTimes(h, nb);
    QuotientIs(0, nb, 0, 0);
    QuotientIs(nb, nb, 1, 0);
    QuotientIs(2 * nb, nb, 2, 0);
    if 0 <= room < nb {
      if 2 * room < nb { QuotientIs(2 * room, nb, 0, 2 * room); } else { QuotientIs(2 * room, nb, 1, 2 * room - nb); }
    }
  }

  lemma NarrowCenter(sp: nat, h: nat, nb: Pos, t: nat)
    requires Room(sp, h, nb) <= nb && Fits(sp, h, nb) && t < AxisOf(sp, h, nb).cSegCnt
    ensures var s := AxisOf(sp, h, nb); var n := s.lCnt + t; var size := SizeOfType(s, TypeOf(s, n));
      && size > 0
      && StartInHalf(s, nb, n) + size == (if t + 1 < s.cSegCnt then StartInHalf(s, nb, n + 1) else s.mp)
      && InOneTile(StartInHalf(s, nb, n), size, nb) && InOneTile(StartInHalf(s, nb, n) + h, size, nb)
    ensures var s := AxisOf(sp, h, nb); t == 0 ==> StartInHalf(s, nb, s.lCnt) == CenterStart(sp, nb)
  {
    hide AxisOf, CenterStart, Room, InOneTile;
    var s := AxisOf(sp, h, nb);
    var cs, e := CenterStart(sp, nb), Cut(h, nb);
    AxisBounds(sp, h, nb);
    RoomEnds(sp, h, nb);
    NarrowCounts(sp, h, nb);
    LeftEdgeSizes(sp, h, nb);
    CenterIsABoundary(sp, nb);
    QuotientIs(cs, nb, cs / nb, 0);
    QuotientTimes(h, nb);
    PairIndex(t, 1, s.cCnt);
    if t == 0 {
      SmallQuotient(s.cCnt);
      BothHalves(cs, 0, e, h, nb);
    } else {
      BothHalves(cs, e, nb - e, h, nb);
    }
  }

  lemma SmallQuotient(count: int)
    requires count == 1 || count == 2
    ensures 0 / count == 0 && 0 % count == 0 && 1 / count + 1 % count == 1
  {
  }

  lemma NarrowCutsUp(sp: nat, h: nat, nb: Pos)
    requires h > 0 && (h % nb == 0 ==> sp % nb == 0)
    requires Room(sp, h, nb) <= nb && Fits(sp, h, nb)
    ensures CutsUp(AxisOf(sp, h, nb), nb)
  {
    hide AxisOf, CenterStart, Room, StartInHalf, SizeOfType, InOneTile, TypeOf, Fits;
    var s := AxisOf(sp, h, nb);
    AxisBounds(sp, h, nb);
    RoomEnds(sp, h, nb);
    NarrowCounts(sp, h, nb);
    NarrowIsNotEmpty(sp, h, nb);
    LeftEdgeSizes(sp, h, nb);
    if s.cSegCnt > 0 { NarrowCenter(sp, h, nb, 0); }
    if s.lCnt > 0 { FirstSegment(s, nb); }
    forall n | 0 <= n < Half(s) ensures GoodSegment(s, nb, n) {
      if n < s.lCnt {
        LeftEdge(sp, h, nb, n);
      } else {
        NarrowCenter(sp, h, nb, n - s.lCnt);
      }
    }
  }

  lemma NarrowIsNotEmpty(sp: nat, h: nat, nb: Pos)
    requires h > 0 && Room(sp, h, nb) <= nb && Fits(sp, h, nb)
    ensures var s := AxisOf(sp, h, nb); Half(s) > 0 && s.cSegCnt >= 0 && (s.cSegCnt == 0 ==> Room(sp, h, nb) == 0)
  {
    hide AxisOf, CenterStart, Room;
    NarrowCounts(sp, h, nb);
    LeftEdgeSizes(sp, h, nb);
    RoomEnds(sp, h, nb);
    QuotientTimes(h, nb);
  }

  /** Otherwise the last segment does not end where the second half begins, or there is no segment. */
  lemma OtherwiseNot(sp: nat, h: nat, nb: Pos)
    requires h > 0 && (h % nb == 0 ==> sp % nb == 0)
    requires !Fits(sp, h, nb)
    ensures !CutsUp(AxisOf(sp, h, nb), nb)
  {
    hide AxisOf, CenterStart, Room;
    var s := AxisOf(sp, h, nb);
    AxisBounds(sp, h, nb);
    NarrowCounts(sp, h, nb);
    LeftEdgeSizes(sp, h, nb);
    RoomEnds(sp, h, nb);
    var last := Half(s) - 1;
    if Half(s) > 0 {
      if s.cSegCnt == 0 {
        LeftEdge(sp, h, nb, last);
      } else {
        assert last == s.lCnt;
        QuotientIs(0, 2, 0, 0);
      }
      assert !GoodSegment(s, nb, last);
    }
  }

  lemma RoomEnds(sp: nat, h: nat, nb: Pos)
    ensures CenterStart(sp, nb) + Room(sp, h, nb) == sp + h
  {
  }

  /** The constants describe a partition of the block, in segments that respect the tiles of both halves,
      if and only if a half has more than one tile of room after its first tile boundary, or the room is
      exactly nothing, the piece up to the cut, or one tile. */
  lemma CutsUpExactlyIfItFits(sp: nat, h: nat, nb: Pos)
    requires h > 0 && (h % nb == 0 ==> sp % nb == 0)
    ensures CutsUp(AxisOf(sp, h, nb), nb) <==> Fits(sp, h, nb)
  {
    hide AxisOf, CutsUp, Cut;
    if Room(sp, h, nb) > nb {
      WideCutsUp(sp, h, nb);
    } else if Fits(sp, h, nb) {
      NarrowCutsUp(sp, h, nb);
    } else {
      OtherwiseNot(sp, h, nb);
    }
  }

  /** Blocks of a butterfly begin at multiples of their own size, so a half that is a whole number of
      tiles begins at a tile boundary. Halves of two tiles or more always have room enough. */
  lemma BlocksOfAButterfly(ib: nat, h: nat, nb: Pos)
    requires h > 0
    ensures ib * (2 * h) >= 0
    ensures h % nb == 0 ==> (ib * (2 * h)) % nb == 0
    ensures h >= 2 * nb ==> Room(ib * (2 * h), h, nb) > nb
  {
    MulMonotone(0, ib, 2 * h);
    if h % nb == 0 {
      QuotientTimes(h, nb);
      MulRegroups(2 * ib, h / nb, nb);
      MulRegroups(ib, 2, h);
      QuotientIs(ib * (2 * h), nb, 2 * ib * (h / nb), 0);
    }
    CenterIsABoundary(ib * (2 * h), nb);
  }

  /** The condition for one block of one level. */
  ghost predicate BlockFits(N: nat, nb: Pos, L: nat, ib: nat) {
    Fits(BlockStart(N, L, ib), BlockSize(N, L) / 2, nb)
  }

  lemma BlockCutsUpExactlyIfItFits(N: nat, nb: Pos, L: nat, ib: nat)
    requires N > 0 && N % (2 * Pow2(L)) == 0
    ensures CutsUp(BlockAxis(N, nb, L, ib), nb) <==> BlockFits(N, nb, L, ib)
  {
    hide AxisOf, CutsUp, Fits, Pow2;
    BlockBounds(N, Pow2(L), ib);
    HalfIsNotEmpty(N, Pow2(L));
    var h := BlockSize(N, L) / 2;
    assert BlockStart(N, L, ib) == ib * (2 * h);
    BlocksOfAButterfly(ib, h, nb);
    CutsUpExactlyIfItFits(BlockStart(N, L, ib), h, nb);
  }

  lemma HalfIsNotEmpty(N: nat, blockCount: Pos)
    requires N > 0 && N % (2 * blockCount) == 0
    ensures N / blockCount / 2 > 0
  {
    BlockBounds(N, blockCount, 0);
    QuotientTimes(N, blockCount);
    QuotientTimes(N, 2 * blockCount);
    if N / blockCount == 0 { QuotientIs(N, 2 * blockCount, 0, N); }
  }
}
