/** The butterfly transform of a Hermitian matrix works level by level, from small blocks to the whole
    matrix. On each level a recursion goes through the blocks of the lower triangle and makes one task pool
    per block; when they are done the same recursion destroys them. */
module Zhebut {
  import opened Bits
  import opened Integers
  import ButterflyMap
  import ButterflySegments

  datatype Block = Block(i: nat, j: nat)

  datatype Kind = Hermitian | General

  /** A slot of the array of task pools. */
  datatype Slot = Garbage | Pool(kind: Kind, block: Block) | Freed | WrongDestructor

  /** Blocks on the diagonal are Hermitian and have a constructor and destructor of their own. */
  function KindOf(b: Block): Kind {
    if b.i == b.j then Hermitian else General
  }

  function Destructed(s: Slot, kind: Kind): Slot {
    if s.Pool? && s.kind == kind then Freed else WrongDestructor
  }

  function Visited(s: Slot, b: Block, destroy: bool): Slot {
    if destroy then Destructed(s, KindOf(b)) else Pool(KindOf(b), b)
  }

  /** The blocks `d` levels below block (i, j), in the order of the visit. */
  function Blocks(d: nat, i: nat, j: nat): seq<Block> {
    if d == 0 then [Block(i, j)]
    else if i == j then
      Blocks(d - 1, 2 * i, 2 * j) + Blocks(d - 1, 2 * i + 1, 2 * j) + Blocks(d - 1, 2 * i + 1, 2 * j + 1)
    else
      Blocks(d - 1, 2 * i, 2 * j) + Blocks(d - 1, 2 * i + 1, 2 * j)
      + Blocks(d - 1, 2 * i, 2 * j + 1) + Blocks(d - 1, 2 * i + 1, 2 * j + 1)
  }

  /** What a visit leaves in an array that held `slots`, starting at slot `at`. */
  ghost predicate VisitDone(before: seq<Slot>, after: seq<Slot>, at: nat, blocks: seq<Block>, destroy: bool) {
    && |before| == |after| && at + |blocks| <= |before|
    && (forall k :: 0 <= k < |blocks| ==> after[at + k] == Visited(before[at + k], blocks[k], destroy))
    && (forall k :: 0 <= k < at || at + |blocks| <= k < |before| ==> after[k] == before[k])
  }

  lemma VisitsJoin(s0: seq<Slot>, s1: seq<Slot>, s2: seq<Slot>, at: nat, a: seq<Block>, b: seq<Block>, destroy: bool)
    requires VisitDone(s0, s1, at, a, destroy) && VisitDone(s1, s2, at + |a|, b, destroy)
    ensures VisitDone(s0, s2, at, a + b, destroy)
  {
    forall k | 0 <= k < |a + b| ensures s2[at + k] == Visited(s0[at + k], (a + b)[k], destroy) {
      if k >= |a| {
        var k' := k - |a|;
        assert s2[at + |a| + k'] == Visited(s1[at + |a| + k'], b[k'], destroy);
      } else {
        assert s1[at + k] == Visited(s0[at + k], a[k], destroy);
      }
    }
  }

  /** The leaf of the recursion. */
  method Visit(i: nat, j: nat, slots: array<Slot>, subop: nat, destroy: bool)
    requires subop < slots.Length
    modifies slots
    ensures VisitDone(old(slots[..]), slots[..], subop, [Block(i, j)], destroy)
  {
    if i == j {
      if destroy {
        slots[subop] := Destructed(slots[subop], Hermitian);
      } else {
        slots[subop] := Pool(Hermitian, Block(i, j));
      }
    } else {
      if destroy {
        slots[subop] := Destructed(slots[subop], General);
      } else {
        slots[subop] := Pool(General, Block(i, j));
      }
    }
  }

  method IterateOps(level: nat, target: nat, i: nat, j: nat, slots: array<Slot>, subop: nat, destroy: bool)
    returns (next: nat)
    requires level <= target && subop + |Blocks(target - level, i, j)| <= slots.Length
    modifies slots
    ensures next == subop + |Blocks(target - level, i, j)|
    ensures VisitDone(old(slots[..]), slots[..], subop, Blocks(target - level, i, j), destroy)
    decreases target - level
  {
    hide VisitDone, Blocks;
    var d := target - level;
    ghost var s0 := slots[..];
    BlocksUnfold(d, i, j);
    if level == target {
      Visit(i, j, slots, subop, destroy);
      return subop + 1;
    }
    ghost var done := Blocks(d - 1, 2 * i, 2 * j);
    if i == j {
      next := IterateOps(level + 1, target, 2 * i, 2 * j, slots, subop, destroy);
      ghost var s1 := slots[..];
      next := IterateOps(level + 1, target, 2 * i + 1, 2 * j, slots, next, destroy);
      VisitsJoin(s0, s1, slots[..], subop, done, Blocks(d - 1, 2 * i + 1, 2 * j), destroy);
      s1, done := slots[..], done + Blocks(d - 1, 2 * i + 1, 2 * j);
      next := IterateOps(level + 1, target, 2 * i + 1, 2 * j + 1, slots, next, destroy);
      VisitsJoin(s0, s1, slots[..], subop, done, Blocks(d - 1, 2 * i + 1, 2 * j + 1), destroy);
    } else {
      next := IterateOps(level + 1, target, 2 * i, 2 * j, slots, subop, destroy);
      ghost var s1 := slots[..];
      next := IterateOps(level + 1, target, 2 * i + 1, 2 * j, slots, next, destroy);
      VisitsJoin(s0, s1, slots[..], subop, done, Blocks(d - 1, 2 * i + 1, 2 * j), destroy);
      s1, done := slots[..], done + Blocks(d - 1, 2 * i + 1, 2 * j);
      next := IterateOps(level + 1, target, 2 * i, 2 * j + 1, slots, next, destroy);
      VisitsJoin(s0, s1, slots[..], subop, done, Blocks(d - 1, 2 * i, 2 * j + 1), destroy);
      s1, done := slots[..], done + Blocks(d - 1, 2 * i, 2 * j + 1);
      next := IterateOps(level + 1, target, 2 * i + 1, 2 * j + 1, slots, next, destroy);
      VisitsJoin(s0, s1, slots[..], subop, done, Blocks(d - 1, 2 * i + 1, 2 * j + 1), destroy);
    }
  }

  lemma BlocksUnfold(d: nat, i: nat, j: nat)
    ensures d == 0 ==> Blocks(d, i, j) == [Block(i, j)]
    ensures d > 0 && i == j ==> (Blocks(d, i, j) ==
      Blocks(d - 1, 2 * i, 2 * j) + Blocks(d - 1, 2 * i + 1, 2 * j) + Blocks(d - 1, 2 * i + 1, 2 * j + 1))
    ensures d > 0 && i != j ==> (Blocks(d, i, j) ==
      Blocks(d - 1, 2 * i, 2 * j) + Blocks(d - 1, 2 * i + 1, 2 * j)
      + Blocks(d - 1, 2 * i, 2 * j + 1) + Blocks(d - 1, 2 * i + 1, 2 * j + 1))
  {
  }

  /* Which blocks, how often, how many. */

  /** Block `b` lies `d` levels below (i, j), in the lower triangle. */
  predicate Below(b: Block, d: nat, i: nat, j: nat) {
    b.i / Pow2(d) == i && b.j / Pow2(d) == j && (i == j ==> b.j <= b.i)
  }

  lemma HalvedQuotient(x: nat, d: nat, i: nat)
    requires d > 0
    ensures x / Pow2(d) == i <==> x / Pow2(d - 1) == 2 * i || x / Pow2(d - 1) == 2 * i + 1
  {
    assert Pow2(d) == Pow2(d - 1) * 2;
    hide Pow2;
    QuotientTwice(x, Pow2(d - 1), 2);
  }

  function Indicator(c: bool): nat {
    if c then 1 else 0
  }

  /** It lies below exactly one of the blocks the recursion goes on to. */
  lemma BelowOneChild(b: Block, d: nat, i: nat, j: nat)
    requires d > 0
    ensures Indicator(Below(b, d, i, j)) ==
      Indicator(Below(b, d - 1, 2 * i, 2 * j)) + Indicator(Below(b, d - 1, 2 * i + 1, 2 * j))
      + Indicator(Below(b, d - 1, 2 * i + 1, 2 * j + 1))
      + if i != j then Indicator(Below(b, d - 1, 2 * i, 2 * j + 1)) else 0
  {
    hide Pow2;
    HalvedQuotient(b.i, d, i);
    HalvedQuotient(b.j, d, j);
    if b.i < b.j { QuotientMonotone(b.i, b.j, Pow2(d - 1)); } else { QuotientMonotone(b.j, b.i, Pow2(d - 1)); }
  }

  /** The visit goes to every block of the lower triangle once, and to no other. */
  lemma {:induction false} EveryBlockOnce(b: Block, d: nat, i: nat, j: nat)
    ensures multiset(Blocks(d, i, j))[b] == Indicator(Below(b, d, i, j))
  {
    hide Blocks, Below;
    BlocksUnfold(d, i, j);
    if d == 0 {
      BelowItself(b, i, j);
    } else {
      EveryBlockOnce(b, d - 1, 2 * i, 2 * j);
      EveryBlockOnce(b, d - 1, 2 * i + 1, 2 * j);
      EveryBlockOnce(b, d - 1, 2 * i + 1, 2 * j + 1);
      if i != j { EveryBlockOnce(b, d - 1, 2 * i, 2 * j + 1); }
      BelowOneChild(b, d, i, j);
    }
  }

  lemma BelowItself(b: Block, i: nat, j: nat)
    ensures Below(b, 0, i, j) <==> b == Block(i, j) && (i == j ==> j <= i)
  {
    QuotientIs(b.i, 1, b.i, 0);
    QuotientIs(b.j, 1, b.j, 0);
  }

  /** The number of slots the driver allocates for a level: Hermitian blocks and general ones. */
  function SlotCount(level: nat): nat {
    Pow2(level) + if level > 0 then Pow2(level - 1) * (Pow2(level) - 1) else 0
  }

  lemma {:induction false} BlockCount(d: nat, i: nat, j: nat)
    ensures i != j ==> |Blocks(d, i, j)| == Pow2(d) * Pow2(d)
    ensures i == j ==> |Blocks(d, i, j)| == SlotCount(d)
  {
    hide Blocks, Pow2;
    BlocksUnfold(d, i, j);
    Squares(d);
    if d > 0 {
      BlockCount(d - 1, 2 * i, 2 * j);
      BlockCount(d - 1, 2 * i + 1, 2 * j);
      BlockCount(d - 1, 2 * i + 1, 2 * j + 1);
      if i != j { BlockCount(d - 1, 2 * i, 2 * j + 1); }
    }
  }

  lemma Squares(d: nat)
    ensures d == 0 ==> Pow2(d) * Pow2(d) == 1 == SlotCount(d)
    ensures d > 0 ==> Pow2(d) * Pow2(d) == 4 * (Pow2(d - 1) * Pow2(d - 1))
    ensures d > 0 ==> SlotCount(d) == 2 * SlotCount(d - 1) + Pow2(d - 1) * Pow2(d - 1)
  {
  }

  /** From the top: each block of the lower triangle of a 2^level by 2^level grid, once, filling exactly
      the slots allocated. */
  lemma VisitCoversTheLowerTriangle(level: nat)
    ensures |Blocks(level, 0, 0)| == SlotCount(level)
    ensures forall b: Block :: multiset(Blocks(level, 0, 0))[b] == if b.j <= b.i < Pow2(level) then 1 else 0
  {
    BlockCount(level, 0, 0);
    forall b: Block ensures multiset(Blocks(level, 0, 0))[b] == if b.j <= b.i < Pow2(level) then 1 else 0 {
      EveryBlockOnce(b, level, 0, 0);
      InGrid(b.i, Pow2(level));
      InGrid(b.j, Pow2(level));
    }
  }

  lemma InGrid(x: nat, size: Pos)
    ensures x / size == 0 <==> x < size
  {
    if x < size { QuotientIs(x, size, 0, x); } else { QuotientMonotone(size, x, size); QuotientIs(size, size, 1, 0); }
  }

  /* The driver. */

  /** One level: what the slots hold when all pools are made, and what they hold in the end. */
  datatype Pass = Pass(level: nat, made: seq<Slot>, left: seq<Slot>)

  function Made(blocks: seq<Block>): seq<Slot> {
    seq(|blocks|, k requires 0 <= k < |blocks| => Pool(KindOf(blocks[k]), blocks[k]))
  }

  /** A pool per block is made, and each one is destroyed in the way it was made. */
  ghost predicate GoodPass(p: Pass) {
    && p.made == Made(Blocks(p.level, 0, 0))
    && |p.left| == |p.made| && forall s <- p.left :: s == Freed
  }

  /** How many pools of a kind there are. */
  function Pools(slots: seq<Slot>, kind: Kind): nat {
    if slots == [] then 0
    else Pools(slots[..|slots| - 1], kind) + Indicator(slots[|slots| - 1].Pool? && slots[|slots| - 1].kind == kind)
  }

  lemma {:induction false} PoolsOfBoth(a: seq<Slot>, b: seq<Slot>, kind: Kind)
    ensures Pools(a + b, kind) == Pools(a, kind) + Pools(b, kind)
  {
    if b == [] {
      assert a + b == a;
    } else {
      assert (a + b)[..|a + b| - 1] == a + b[..|b| - 1];
      PoolsOfBoth(a, b[..|b| - 1], kind);
    }
  }

  lemma PoolsOfParts(a: seq<Block>, b: seq<Block>, kind: Kind)
    ensures Pools(Made(a + b), kind) == Pools(Made(a), kind) + Pools(Made(b), kind)
  {
    assert Made(a + b) == Made(a) + Made(b);
    PoolsOfBoth(Made(a), Made(b), kind);
  }

  /** Below a block on the diagonal there is one Hermitian pool for each row of blocks, below another one none. */
  lemma {:induction false} PoolsOfBlocks(d: nat, i: nat, j: nat)
    ensures Pools(Made(Blocks(d, i, j)), Hermitian) == if i == j then Pow2(d) else 0
    ensures Pools(Made(Blocks(d, i, j)), General) == |Blocks(d, i, j)| - if i == j then Pow2(d) else 0
    decreases d
  {
    hide Blocks, Pools, Made;
    BlocksUnfold(d, i, j);
    if d == 0 {
      OnePool(Block(i, j));
    } else {
      var p, q, r := Blocks(d - 1, 2 * i, 2 * j), Blocks(d - 1, 2 * i + 1, 2 * j), Blocks(d - 1, 2 * i + 1, 2 * j + 1);
      PoolsOfBlocks(d - 1, 2 * i, 2 * j);
      PoolsOfBlocks(d - 1, 2 * i + 1, 2 * j);
      PoolsOfBlocks(d - 1, 2 * i + 1, 2 * j + 1);
      var o := if i == j then [] else Blocks(d - 1, 2 * i, 2 * j + 1);
      if i != j { PoolsOfBlocks(d - 1, 2 * i, 2 * j + 1); } else { NoPools(); }
      assert Blocks(d, i, j) == p + q + o + r;
      forall kind: Kind ensures Pools(Made(p + q + o + r), kind) ==
        Pools(Made(p), kind) + Pools(Made(q), kind) + Pools(Made(o), kind) + Pools(Made(r), kind)
      {
        PoolsOfParts(p, q, kind);
        PoolsOfParts(p + q, o, kind);
        PoolsOfParts(p + q + o, r, kind);
      }
    }
  }

  lemma OnePool(b: Block)
    ensures Pools(Made([b]), Hermitian) == Indicator(b.i == b.j)
    ensures Pools(Made([b]), General) == Indicator(b.i != b.j)
  {
    assert Made([b]) == [Pool(KindOf(b), b)];
    assert Made([b])[..0] == [];
  }

  lemma NoPools()
    ensures forall kind: Kind :: Pools(Made([]), kind) == 0
  {
  }

  /** A block is Hermitian exactly if a diagonal element of the matrix lies in it, blocks having `size` rows. */
  lemma HermitianIfOnDiagonal(b: Block, size: Pos)
    ensures KindOf(b) == Hermitian <==> exists x: nat :: x / size == b.i && x / size == b.j
  {
    if b.i == b.j {
      MulMonotone(0, b.i, size);
      QuotientIs(b.i * size, size, b.i, 0);
      var x: nat := b.i * size;
      assert x / size == b.i && x / size == b.j;
    }
  }

  /** The pools of a level: one Hermitian pool for each row of blocks, all others general. */
  lemma PoolsOfPass(p: Pass, size: Pos)
    requires GoodPass(p)
    ensures Pools(p.made, Hermitian) == Pow2(p.level) && Pools(p.made, General) == |p.made| - Pow2(p.level)
    ensures forall k :: 0 <= k < |p.made| ==>
              && p.made[k].Pool?
              && (p.made[k].kind == Hermitian <==>
                    exists x: nat :: x / size == p.made[k].block.i && x / size == p.made[k].block.j)
  {
    hide Blocks, Pools;
    PoolsOfBlocks(p.level, 0, 0);
    forall k | 0 <= k < |p.made|
      ensures p.made[k].Pool?
      ensures p.made[k].kind == Hermitian <==>
        exists x: nat :: x / size == p.made[k].block.i && x / size == p.made[k].block.j
    {
      HermitianIfOnDiagonal(p.made[k].block, size);
    }
  }

  predicate Accepted(nt: nat, ln: nat, level: nat) {
    nt / (2 * Pow2(level)) != 0 && ln % Pow2(level) == 0
  }

  /** What is accepted for the deepest level is accepted for every one above: the guards inside the loop
      never stop it half-way. */
  lemma {:induction false} AcceptedBelow(nt: nat, ln: nat, level: nat, levels: nat)
    requires level <= levels && Accepted(nt, ln, levels)
    ensures Accepted(nt, ln, level)
  {
    if level < levels {
      AcceptedOneLevelUp(nt, ln, Pow2(levels - 1));
      AcceptedBelow(nt, ln, level, levels - 1);
    }
  }

  lemma AcceptedOneLevelUp(nt: nat, ln: nat, half: Pos)
    requires nt / (2 * (2 * half)) != 0 && ln % (2 * half) == 0
    ensures nt / (2 * half) != 0 && ln % half == 0
  {
    InGrid(nt, 2 * half);
    InGrid(nt, 2 * (2 * half));
    QuotientTimes(ln, 2 * half);
    MulRegroups(ln / (2 * half), 2, half);
    QuotientIs(ln, half, ln / (2 * half) * 2, 0);
  }

  method ApplyLevel(level: nat) returns (pass: Pass)
    ensures pass.level == level && GoodPass(pass)
  {
    BlockCount(level, 0, 0);
    var slots := new Slot[Pow2(level) + if level > 0 then Pow2(level - 1) * (Pow2(level) - 1) else 0](_ => Garbage);
    ghost var blocks := Blocks(level, 0, 0);
    var _ := IterateOps(0, level, 0, 0, slots, 0, false);
    var made := slots[..];
    assert made == Made(blocks);
    var _ := IterateOps(0, level, 0, 0, slots, 0, true);
    pass := Pass(level, made, slots[..]);
    forall k | 0 <= k < |pass.left| ensures pass.left[k] == Freed {
      assert pass.left[0 + k] == Visited(made[0 + k], blocks[k], true);
    }
  }

  /** `info` is what the task pools of each level report. Either the size is refused and nothing is done,
      or the levels are applied from the deepest one up, to the first that reports a problem. */
  method Apply(nt: nat, ln: nat, levels: nat, info: nat -> int) returns (r: int, passes: seq<Pass>)
    ensures !Accepted(nt, ln, levels) ==> r == -1 && passes == []
    ensures Accepted(nt, ln, levels) ==>
              && 0 < |passes| <= levels + 1
              && (forall k :: 0 <= k < |passes| ==> passes[k].level == levels - k && GoodPass(passes[k]))
              && (forall k :: 0 <= k < |passes| - 1 ==> info(passes[k].level) == 0)
              && r == info(passes[|passes| - 1].level) && (r != 0 || |passes| == levels + 1)
  {
    passes := [];
    r := 0;
    if nt / (2 * Pow2(levels)) == 0 {
      return -1, [];
    }
    if ln % Pow2(levels) != 0 {
      return -1, [];
    }
    var level: int := levels;
    while level >= 0
      invariant -1 <= level <= levels && |passes| == levels - level && r == 0
      invariant forall k :: 0 <= k < |passes| ==>
                              passes[k].level == levels - k && GoodPass(passes[k]) && info(passes[k].level) == 0
    {
      AcceptedBelow(nt, ln, level, levels);
      if nt / (2 * Pow2(level)) == 0 {
        return -1, passes;
      }
      if ln % Pow2(level) != 0 {
        return -1, passes;
      }
      var pass := ApplyLevel(level);
      passes := passes + [pass];
      r := info(level);
      if r != 0 {
        return;
      }
      level := level - 1;
    }
  }

  /* The blocks and their segments. */

  /** The segments of block `b` on a level cut it up, rows and columns, in a matrix of size N. */
  ghost predicate IsCutUp(N: nat, nb: Pos, level: nat, b: Block) {
    && ButterflyMap.CutsUp(ButterflyMap.BlockAxis(N, nb, level, b.i), nb)
    && ButterflyMap.CutsUp(ButterflyMap.BlockAxis(N, nb, level, b.j), nb)
  }

  ghost predicate EveryBlockIsCutUp(N: nat, nb: Pos, levels: nat) {
    forall level: nat, b :: level <= levels && b in Blocks(level, 0, 0) ==> IsCutUp(N, nb, level, b)
  }

  ghost predicate EveryBlockFits(N: nat, nb: Pos, levels: nat) {
    forall level: nat, i: nat :: level <= levels && i < Pow2(level) ==> ButterflyMap.BlockFits(N, nb, level, i)
  }

  /** All blocks visited on all levels are cut up by their segments if and only if every block of every level
      has one of the fitting amounts of room. */
  lemma CutUpExactlyIfAllFit(N: nat, nb: Pos, levels: nat)
    requires N > 0 && N % (2 * Pow2(levels)) == 0
    ensures EveryBlockIsCutUp(N, nb, levels) <==> EveryBlockFits(N, nb, levels)
  {
    hide ButterflyMap.BlockFits, ButterflyMap.CutsUp, ButterflyMap.BlockAxis, Pow2, Blocks;
    if EveryBlockIsCutUp(N, nb, levels) {
      forall level: nat, i: nat | level <= levels && i < Pow2(level) ensures ButterflyMap.BlockFits(N, nb, level, i) {
        IsVisited(level, Block(i, 0));
        EvenBlocks(N, level, levels);
        assert IsCutUp(N, nb, level, Block(i, 0));
        ButterflyMap.BlockCutsUpExactlyIfItFits(N, nb, level, i);
      }
    }
    if EveryBlockFits(N, nb, levels) {
      forall level: nat, b | level <= levels && b in Blocks(level, 0, 0) ensures IsCutUp(N, nb, level, b) {
        IsVisited(level, b);
        EvenBlocks(N, level, levels);
        assert ButterflyMap.BlockFits(N, nb, level, b.i) && ButterflyMap.BlockFits(N, nb, level, b.j);
        ButterflyMap.BlockCutsUpExactlyIfItFits(N, nb, level, b.i);
        ButterflyMap.BlockCutsUpExactlyIfItFits(N, nb, level, b.j);
      }
    }
  }

  lemma IsVisited(level: nat, b: Block)
    ensures b in Blocks(level, 0, 0) <==> b.j <= b.i < Pow2(level)
  {
    hide Blocks, Pow2;
    VisitCoversTheLowerTriangle(level);
    assert b in Blocks(level, 0, 0) <==> b in multiset(Blocks(level, 0, 0));
  }

  /** What the segment map relies on in block `b` of a level. */
  ghost predicate IsBlock(N: nat, nb: Pos, level: nat, b: Block) {
    ButterflySegments.Block(ButterflyMap.BlockAxis(N, nb, level, b.i), ButterflyMap.BlockAxis(N, nb, level, b.j),
                            ButterflyMap.BlockSize(N, level) / 2, nb)
  }

  /** That is the same condition that gives the segment map what it relies on in every block visited. */
  lemma VisitedBlocksAreBlocks(N: nat, nb: Pos, levels: nat)
    requires N > 0 && N % (2 * Pow2(levels)) == 0
    ensures EveryBlockFits(N, nb, levels) <==>
            forall level: nat, b :: level <= levels && b in Blocks(level, 0, 0) ==> IsBlock(N, nb, level, b)
  {
    hide ButterflyMap.BlockFits, ButterflySegments.Block, ButterflyMap.BlockAxis, Pow2, Blocks;
    if EveryBlockFits(N, nb, levels) {
      forall level: nat, b | level <= levels && b in Blocks(level, 0, 0) ensures IsBlock(N, nb, level, b) {
        IsVisited(level, b);
        EvenBlocks(N, level, levels);
        assert ButterflyMap.BlockFits(N, nb, level, b.i) && ButterflyMap.BlockFits(N, nb, level, b.j);
        ButterflySegments.ConstantsMakeABlock(N, nb, level, b.i, b.j);
      }
    }
    if forall level: nat, b :: level <= levels && b in Blocks(level, 0, 0) ==> IsBlock(N, nb, level, b) {
      forall level: nat, i: nat | level <= levels && i < Pow2(level) ensures ButterflyMap.BlockFits(N, nb, level, i) {
        IsVisited(level, Block(i, 0));
        EvenBlocks(N, level, levels);
        assert IsBlock(N, nb, level, Block(i, 0));
        ButterflySegments.ConstantsMakeABlock(N, nb, level, i, 0);
      }
    }
  }

  /** Then the segments of a level's blocks together are a partition: an element of the matrix is in one segment
      of the block its row and column number belong to, and in no other segment of any block visited. */
  lemma EveryElementOnce(N: nat, nb: Pos, levels: nat, level: nat, b: Block, m: int, n: int, x: nat, y: nat)
    requires N > 0 && N % (2 * Pow2(levels)) == 0 && EveryBlockFits(N, nb, levels)
    requires level <= levels && b in Blocks(level, 0, 0)
    ensures ButterflyMap.BlockSize(N, level) > 0
    ensures var size := ButterflyMap.BlockSize(N, level);
      var rows, cols := ButterflyMap.BlockAxis(N, nb, level, b.i), ButterflyMap.BlockAxis(N, nb, level, b.j);
      && x / size >= 0 && y / size >= 0
      && (ButterflySegments.Holds(rows, cols, nb, m, n, x, y) <==>
          && b == Block(x / size, y / size)
          && m == ButterflySegments.SegmentAt(rows, nb, x) && n == ButterflySegments.SegmentAt(cols, nb, y))
  {
    hide Pow2, Blocks, EveryBlockFits, ButterflySegments.Block, ButterflySegments.Holds, ButterflySegments.SegmentAt,
      ButterflyMap.BlockAxis, ButterflyMap.BlockSize;
    VisitedBlocksAreBlocks(N, nb, levels);
    assert IsBlock(N, nb, level, b);
    EvenBlocks(N, level, levels);
    BlockPlace(N, nb, level, b.i);
    BlockPlace(N, nb, level, b.j);
    ElementOfBlock(ButterflyMap.BlockAxis(N, nb, level, b.i), ButterflyMap.BlockAxis(N, nb, level, b.j),
                   ButterflyMap.BlockSize(N, level), nb, b, m, n, x, y);
  }

  lemma ElementOfBlock(rows: ButterflyMap.Axis, cols: ButterflyMap.Axis, size: Pos, nb: Pos, b: Block, m: int, n: int,
                       x: nat, y: nat)
    requires ButterflySegments.Block(rows, cols, size / 2, nb) && size == 2 * (size / 2)
    requires rows.sp == b.i * size && cols.sp == b.j * size
    ensures x / size >= 0 && y / size >= 0
    ensures ButterflySegments.Holds(rows, cols, nb, m, n, x, y) <==>
            && b == Block(x / size, y / size)
            && m == ButterflySegments.SegmentAt(rows, nb, x) && n == ButterflySegments.SegmentAt(cols, nb, y)
  {
    hide ButterflySegments.Block, ButterflySegments.Holds, ButterflySegments.SegmentAt;
    ButterflySegments.SegmentsPartitionTheBlock(rows, cols, size / 2, nb, m, n, x, y);
    InBlock(x, size, b.i);
    InBlock(y, size, b.j);
  }

  lemma BlockPlace(N: nat, nb: Pos, level: nat, i: nat)
    requires N > 0 && N % (2 * Pow2(level)) == 0
    ensures var size := ButterflyMap.BlockSize(N, level);
      size == 2 * (size / 2) > 0 && ButterflyMap.BlockAxis(N, nb, level, i).sp == i * size
  {
    hide Pow2, ButterflyMap.AxisOf;
    ButterflyMap.BlockBounds(N, Pow2(level), i);
    ButterflyMap.HalfIsNotEmpty(N, Pow2(level));
    ButterflyMap.AxisBounds(ButterflyMap.BlockStart(N, level, i), ButterflyMap.BlockSize(N, level) / 2, nb);
  }

  lemma InBlock(x: nat, size: Pos, i: nat)
    ensures x / size == i <==> i * size <= x < i * size + size
    ensures x / size >= 0
  {
    QuotientTimes(x, size);
    QuotientAtMost(x, size);
    if i * size <= x < i * size + size { QuotientIs(x, size, i, x - i * size); }
  }

  /** Four tiles or more per block on the deepest level are enough. */
  lemma FourTilesPerBlock(N: nat, nb: Pos, levels: nat)
    requires N % (2 * Pow2(levels)) == 0 && N >= 4 * nb * Pow2(levels)
    ensures N > 0 && EveryBlockFits(N, nb, levels) && EveryBlockIsCutUp(N, nb, levels)
  {
    FourTilesAreSomething(N, nb, Pow2(levels));
    hide ButterflyMap.Fits, Pow2, EveryBlockIsCutUp;
    forall level: nat, i: nat | level <= levels && i < Pow2(level) ensures ButterflyMap.BlockFits(N, nb, level, i) {
      EvenBlocksBelow(N, nb, level, levels);
      RoomyBlockFits(N, nb, level, i);
    }
    CutUpExactlyIfAllFit(N, nb, levels);
  }

  lemma FourTilesAreSomething(N: nat, nb: Pos, size: Pos)
    requires N >= 4 * nb * size
    ensures N > 0
  {
    MulMonotone(1, 4 * nb, size);
  }

  lemma RoomyBlockFits(N: nat, nb: Pos, level: nat, i: nat)
    requires N % (2 * Pow2(level)) == 0 && N / Pow2(level) / 2 >= 2 * nb
    ensures ButterflyMap.BlockFits(N, nb, level, i)
  {
    hide Pow2, ButterflyMap.Room, ButterflyMap.Cut;
    ButterflyMap.BlockBounds(N, Pow2(level), i);
    ButterflyMap.BlocksOfAButterfly(i, N / Pow2(level) / 2, nb);
  }

  lemma {:induction false} EvenBlocks(N: nat, level: nat, levels: nat)
    requires N % (2 * Pow2(levels)) == 0 && level <= levels
    ensures N % (2 * Pow2(level)) == 0
  {
    if level < levels {
      EvenHalf(N, Pow2(levels - 1));
      EvenBlocks(N, level, levels - 1);
    }
  }

  lemma EvenHalf(N: nat, half: Pos)
    requires N % (2 * (2 * half)) == 0
    ensures N % (2 * half) == 0
  {
    var size: Pos := 2 * half;
    QuotientTimes(N, 2 * size);
    MulRegroups(N / (2 * size), 2, size);
    QuotientIs(N, size, 2 * (N / (2 * size)), 0);
  }

  lemma {:induction false} EvenBlocksBelow(N: nat, nb: Pos, level: nat, levels: nat)
    requires N % (2 * Pow2(levels)) == 0 && N >= 4 * nb * Pow2(levels)
    requires level <= levels
    ensures N % (2 * Pow2(level)) == 0 && N / Pow2(level) / 2 >= 2 * nb
  {
    if level == levels {
      HalfOfFourTiles(N, nb, Pow2(levels));
    } else {
      EvenHalf(N, Pow2(levels - 1));
      FourTilesAbove(nb, Pow2(levels - 1));
      EvenBlocksBelow(N, nb, level, levels - 1);
    }
  }

  lemma HalfOfFourTiles(N: nat, nb: Pos, size: Pos)
    requires N % (2 * size) == 0 && N >= 4 * nb * size
    ensures N / size / 2 >= 2 * nb
  {
    ButterflyMap.BlockBounds(N, size, 0);
    QuotientMonotone(4 * nb * size, N, size);
    QuotientIs(4 * nb * size, size, 4 * nb, 0);
  }

  lemma FourTilesAbove(nb: Pos, half: Pos)
    ensures 4 * nb * (2 * half) >= 4 * nb * half
  {
    MulMonotone(half, 2 * half, 4 * nb);
  }

  lemma PowersOfOneLevel()
    ensures Pow2(1) == 2
  {
    assert Pow2(0) == 1;
  }

  /** The guards alone do not ensure that: a matrix of 24 in tiles of 5 is accepted for one level of
      butterflies, but the constants of its last block do not cut it up. */
  lemma GuardsAreNotEnough()
    ensures Accepted(5, 24, 1) && 24 % (2 * Pow2(1)) == 0
    ensures Block(1, 1) in Blocks(1, 0, 0) && !IsCutUp(24, 5, 1, Block(1, 1))
    ensures !EveryBlockIsCutUp(24, 5, 1)
  {
    AcceptedWithOneLevel();
    LastBlockDoesNotFit();
    hide Pow2, Blocks, ButterflyMap.BlockFits, ButterflyMap.CutsUp, ButterflyMap.BlockAxis;
    ButterflyMap.BlockCutsUpExactlyIfItFits(24, 5, 1, 1);
  }

  lemma LastBlockDoesNotFit()
    ensures !ButterflyMap.BlockFits(24, 5, 1, 1)
  {
    PowersOfOneLevel();
    TwelveSixFive();
    hide ButterflyMap.Fits;
  }

  /** The block from 12 on with halves of 6: after the tile boundary at 15 there is room for 3, but the cut
      comes after 4. */
  lemma TwelveSixFive()
    ensures ButterflyMap.CenterStart(12, 5) == 15 && ButterflyMap.Room(12, 6, 5) == 3 && ButterflyMap.Cut(6, 5) == 4
    ensures !ButterflyMap.Fits(12, 6, 5)
  {
  }

  /** Nor do they ensure that the types are right: a matrix of 32 in tiles of 3 is accepted for one level, and
      the block below the diagonal has 10 row segments, 12 column segments, and types of the wrong size. */
  lemma TypesCanBeWrong()
    ensures Accepted(11, 32, 1) && 32 % (2 * Pow2(1)) == 0 && Block(1, 0) in Blocks(1, 0, 0)
    ensures var rows, cols := ButterflyMap.BlockAxis(32, 3, 1, 1), ButterflyMap.BlockAxis(32, 3, 1, 0);
      rows.totSegCnt == 10 && cols.totSegCnt == 12 && !ButterflySegments.TypesAreRight(rows, cols)
  {
    AxesOfTypes();
    AcceptedWithOneLevel();
    hide *;
    ButterflySegments.CountsCanDiffer(ButterflyMap.BlockAxis(32, 3, 1, 1), ButterflyMap.BlockAxis(32, 3, 1, 0));
  }

  lemma AcceptedWithOneLevel()
    ensures Accepted(11, 32, 1) && 32 % (2 * Pow2(1)) == 0 && Block(1, 0) in Blocks(1, 0, 0)
    ensures Accepted(5, 24, 1) && 24 % (2 * Pow2(1)) == 0 && Block(1, 1) in Blocks(1, 0, 0)
  {
    PowersOfOneLevel();
    hide Pow2, Blocks;
    IsVisited(1, Block(1, 0));
    IsVisited(1, Block(1, 1));
  }

  lemma AxesOfTypes()
    ensures ButterflyMap.BlockAxis(32, 3, 1, 1) == ButterflyMap.AxisOf(16, 8, 3)
    ensures ButterflyMap.BlockAxis(32, 3, 1, 0) == ButterflyMap.AxisOf(0, 8, 3)
  {
    hide ButterflyMap.AxisOf;
    PowersOfOneLevel();
  }
}
