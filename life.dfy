/** The two-dimensional Game of Life rule of the demo program, as an instance of
    the engine's rule: the 2 x 2 block is a still life under bounded wrapping,
    with the halo reading as dead. */
module Life {
  import opened Errors
  import opened Cells
  import opened Indexing
  import opened Topology
  import opened Generation
  import opened Grids

  /** The number of live cells among the neighbours. */
  function LiveCount(ns: seq<bool>): (n: nat)
    ensures n <= |ns|
  {
    if ns == [] then 0 else (if ns[0] then 1 else 0) + LiveCount(ns[1..])
  }

  /** `lifeUpdate`: a live cell with fewer than two or more than three live
      neighbours dies, a dead cell with exactly three is born. */
  function LifeRule(alive: bool, ns: seq<bool>): (r: bool)
    ensures r <==> LiveCount(ns) == 3 || (alive && LiveCount(ns) == 2)
  {
    var n := LiveCount(ns);
    if alive && (n < 2 || n > 3) then false
    else if !alive && n == 3 then true
    else alive
  }

  // ---------------------------------------------------------------------------
  // The two-dimensional Moore tuples.

  lemma CubeOne()
    ensures Cube(1) == [[-1], [0], [1]]
  {
    SingletonBlocks();
  }

  lemma MooreTuplesOne()
    ensures MooreOffsets(1) == [[-1], [1]]
  {
    SingletonBlocks();
    MooreOffsetsUnfold(1);
    assert MooreOffsets(0) == [];
  }

  lemma BlockOfUnitCube(x: int)
    ensures Block(x, [[-1], [0], [1]]) == [[x, -1], [x, 0], [x, 1]]
  {
    assert [x] + [-1] == [x, -1] && [x] + [0] == [x, 0] && [x] + [1] == [x, 1];
  }

  lemma BlockOfUnitMoore(x: int)
    ensures Block(x, [[-1], [1]]) == [[x, -1], [x, 1]]
  {
    assert [x] + [-1] == [x, -1] && [x] + [1] == [x, 1];
  }

  /** The two-dimensional Moore tuples, dimension 0 outermost. */
  lemma MooreTuplesTwo()
    ensures MooreOffsets(2) == [[-1, -1], [-1, 0], [-1, 1], [0, -1], [0, 1], [1, -1], [1, 0], [1, 1]]
  {
    CubeOne();
    MooreTuplesOne();
    MooreOffsetsUnfold(2);
    BlockOfUnitCube(-1);
    BlockOfUnitMoore(0);
    BlockOfUnitCube(1);
    MooreTuplesTwoConcat();
  }

  lemma MooreTuplesTwoConcat()
    ensures [[-1, -1], [-1, 0], [-1, 1]] + [[0, -1], [0, 1]] + [[1, -1], [1, 0], [1, 1]]
      == [[-1, -1], [-1, 0], [-1, 1], [0, -1], [0, 1], [1, -1], [1, 0], [1, 1]]
  {
  }

  // ---------------------------------------------------------------------------
  // An n x n grid with a halo of width one: padded extents (n + 2) x (n + 2),
  // dimension 0 fastest.

  /** An offset tuple moves the flat index by o[0] + (n + 2) o[1]. */
  lemma OffsetIndexSquare(n: nat, o: seq<int>)
    requires |o| == 2
    ensures OffsetIndex([n, n], 1, o) == o[0] + (n + 2) * o[1]
  {
    var rs := RealDims([n, n], 1);
    assert rs == [n + 2, n + 2];
    assert Stride(rs, 0) == 1 by { assert rs[..0] == []; }
    assert Stride(rs, 1) == n + 2 by { assert rs[..1] == [n + 2]; assert [n + 2][1..] == []; }
    assert Weighted(rs, o, 1) == o[0];
  }

  /** Flat offsets of pairs on the padded buffer of an n x n grid. */
  lemma FlatOffsetsSquare(n: nat, ts: seq<seq<int>>)
    requires forall j :: 0 <= j < |ts| ==> |ts[j]| == 2
    ensures forall j :: 0 <= j < |ts| ==> FlatOffsets([n, n], 1, ts)[j] == ts[j][0] + (n + 2) * ts[j][1]
  {
    forall j | 0 <= j < |ts| ensures FlatOffsets([n, n], 1, ts)[j] == ts[j][0] + (n + 2) * ts[j][1] {
      OffsetIndexSquare(n, ts[j]);
    }
  }

  /** The flat Moore offsets of an n x n grid, in topology order. */
  function SquareMoore(n: nat): seq<int>
  {
    [-(n + 3), -1, n + 1, -(n + 2), n + 2, -(n + 1), 1, n + 3]
  }

  lemma FlatMooreTuplesSquare(n: nat)
    ensures FlatOffsets([n, n], 1, [[-1, -1], [-1, 0], [-1, 1], [0, -1], [0, 1], [1, -1], [1, 0], [1, 1]])
      == SquareMoore(n)
  {
    var ts: seq<seq<int>> := [[-1, -1], [-1, 0], [-1, 1], [0, -1], [0, 1], [1, -1], [1, 0], [1, 1]];
    var nb := FlatOffsets([n, n], 1, ts);
    FlatOffsetsSquare(n, ts);
    assert nb[0] == -(n + 3) && nb[1] == -1 && nb[2] == n + 1 && nb[3] == -(n + 2);
    assert nb[4] == n + 2 && nb[5] == -(n + 1) && nb[6] == 1 && nb[7] == n + 3;
  }

  /** `generateMoore` on an n x n grid with a halo of width one. */
  lemma MooreOnSquare(n: nat)
    ensures MooreNeighborhood([n, n], 1) == SquareMoore(n)
  {
    MooreNeighborhoodIsFlat([n, n], 1);
    MooreTuplesTwo();
    FlatMooreTuplesSquare(n);
  }

  /** Slot k of the padded buffer has padded coordinate (k mod m, k div m). */
  lemma DecodeSquare(m: nat, k: nat)
    requires m >= 1 && k < m * m
    ensures Decode([m, m], k) == [k % m, k / m]
  {
    var q := k / m;
    assert q < m by {
      if q >= m {
        MulMonotone(m, m, q);
      }
    }
    ModBelow(q, m);
    DivModUnique(q, m, 0);
    var rs: seq<nat> := [m, m];
    assert rs[1..] == [m];
    assert Decode(rs, k) == [k % m] + Decode([m], q);
    assert Decode([m], q) == [q] + Decode([], 0);
  }

  /** Slot k of the padded buffer of an n x n grid belongs to the grid. */
  predicate InteriorSlot(n: nat, k: int)
  {
    1 <= k % (n + 2) <= n && 1 <= k / (n + 2) <= n
  }

  lemma SquareLength<T>(n: nat, v: T)
    ensures |InitialCells([n, n], 1, v)| == (n + 2) * (n + 2)
  {
    var m := n + 2;
    var rs := RealDims([n, n], 1);
    assert rs == [m, m];
    assert rs[1..] == [m] && [m][1..] == [];
    assert Product([m]) == m;
    assert Product(rs) == m * Product([m]);
  }

  /** Slot k of a freshly built n x n grid holds the default when it belongs
      to the grid, and is a halo slot otherwise. */
  lemma SquareSlot<T>(n: nat, v: T, k: nat)
    requires k < (n + 2) * (n + 2)
    ensures |InitialCells([n, n], 1, v)| == (n + 2) * (n + 2)
    ensures InitialCells([n, n], 1, v)[k] == if InteriorSlot(n, k) then Live(v, v) else Halo(true)
  {
    SquareLength(n, v);
    var rs := RealDims([n, n], 1);
    assert rs == [n + 2, n + 2];
    DecodeSquare(n + 2, k);
    var p := Decode(rs, k);
    assert IsOutOfBounds([n, n], 1, p) <==> p[0] < 1 || p[0] >= n + 1 || p[1] < 1 || p[1] >= n + 1;
  }

  /** `getIdx` on an n x n grid with a halo of width one. */
  lemma FlatIndexSquare(n: nat, c: seq<nat>)
    requires |c| == 2
    ensures FlatIndex([n, n], 1, c) == c[0] + 1 + (n + 2) * (c[1] + 1)
  {
    var x := Shift(c, 1);
    OffsetIndexSquare(n, x);
  }

  // ---------------------------------------------------------------------------
  // A 2 x 2 grid: padded extents 4 x 4, 16 slots.

  /** The flat Moore offsets of a 2 x 2 grid with a halo of width one. */
  lemma MooreOnTwoByTwo()
    ensures MooreNeighborhood([2, 2], 1) == [-5, -1, 3, -4, 4, -3, 1, 5]
  {
    MooreOnSquare(2);
  }

  /** The interior slots of the 4 x 4 padded buffer. */
  predicate InBlock(k: int)
  {
    k == 5 || k == 6 || k == 9 || k == 10
  }

  /** A 2 x 2 grid filled with live cells: every slot of the 4 x 4 padded
      buffer is a halo slot except the four interior ones. */
  function FullBlock(): seq<Cell<bool>>
  {
    InitialCells([2, 2], 1, true)
  }

  /** A freshly built 2 x 2 grid: the four interior slots hold the default,
      the other twelve are halo slots. */
  lemma TwoByTwoLayout<T>(v: T)
    ensures |InitialCells([2, 2], 1, v)| == 16
    ensures forall k :: 0 <= k < 16 ==>
      InitialCells([2, 2], 1, v)[k] == if InBlock(k) then Live(v, v) else Halo(true)
  {
    SquareLength(2, v);
    forall k | 0 <= k < 16
      ensures InitialCells([2, 2], 1, v)[k] == if InBlock(k) then Live(v, v) else Halo(true)
    {
      SquareSlot(2, v, k);
      var x, y := k % 4, k / 4;
      assert k == x + 4 * y;
    }
  }

  /** `getIdx` on a 2 x 2 grid with a halo of width one. */
  lemma FlatIndexTwoByTwo(c: seq<nat>)
    requires |c| == 2
    ensures FlatIndex([2, 2], 1, c) == c[0] + 1 + 4 * (c[1] + 1)
  {
    FlatIndexSquare(2, c);
  }

  /** `getValue` and `setValue` do not check the extents: on a 2 x 2 grid the
      coordinate (4, 0), outside the grid, addresses the slot of the interior
      cell (0, 1), and (2, 0) addresses a halo slot. */
  lemma UncheckedCoordinateAliases()
    ensures !InExtents([2, 2], [4, 0]) && InExtents([2, 2], [0, 1])
    ensures FlatIndex([2, 2], 1, [4, 0]) == FlatIndex([2, 2], 1, [0, 1]) == 9
    ensures FlatIndex([2, 2], 1, [2, 0]) == 7 && InitialCells([2, 2], 1, false)[7].Halo?
  {
    FlatIndexTwoByTwo([4, 0]);
    FlatIndexTwoByTwo([0, 1]);
    FlatIndexTwoByTwo([2, 0]);
    TwoByTwoLayout(false);
  }

  /** The live cells among the neighbours of each interior slot of the block,
      in topology order. */
  function BlockView(k: nat): seq<bool>
  {
    if k == 5 then [false, false, false, false, true, false, true, true]
    else if k == 6 then [false, true, true, false, true, false, false, false]
    else if k == 9 then [false, false, false, true, false, true, true, false]
    else [true, true, false, true, false, false, false, false]
  }

  function Ind(b: bool): nat
  {
    if b then 1 else 0
  }

  lemma LiveCountUnfold(s: seq<bool>, i: nat)
    requires i < |s|
    ensures LiveCount(s[i..]) == Ind(s[i]) + LiveCount(s[i + 1..])
  {
    assert s[i..][1..] == s[i + 1..];
  }

  /** The live count of eight neighbours, term by term. */
  lemma {:induction false} LiveCountEight(s: seq<bool>)
    requires |s| == 8
    ensures LiveCount(s) == Ind(s[0]) + Ind(s[1]) + Ind(s[2]) + Ind(s[3])
                          + Ind(s[4]) + Ind(s[5]) + Ind(s[6]) + Ind(s[7])
  {
    assert s[8..] == [];
    LiveCountUnfold(s, 7);
    LiveCountUnfold(s, 6);
    LiveCountUnfold(s, 5);
    LiveCountUnfold(s, 4);
    assert LiveCount(s[4..]) == Ind(s[4]) + Ind(s[5]) + Ind(s[6]) + Ind(s[7]);
    LiveCountUnfold(s, 3);
    LiveCountUnfold(s, 2);
    LiveCountUnfold(s, 1);
    LiveCountUnfold(s, 0);
    assert s[0..] == s;
  }

  lemma BlockViewCount(k: nat)
    ensures LiveCount(BlockView(k)) == 3
  {
    LiveCountEight(BlockView(k));
  }

  /** The block's buffer, by slot. */
  predicate IsBlockBuffer(cs: seq<Cell<bool>>)
  {
    |cs| == 16 && forall t :: 0 <= t < 16 ==> cs[t] == if InBlock(t) then Live(true, true) else Halo(true)
  }

  /** Each live cell of the block sees exactly the other three. */
  lemma BlockNeighbours(cs: seq<Cell<bool>>, nbh: seq<int>, k: nat)
    requires IsBlockBuffer(cs) && nbh == [-5, -1, 3, -4, 4, -3, 1, 5] && InBlock(k)
    ensures AllReadable(cs) && NeighborsInside(cs, nbh)
    ensures Gather(cs, nbh, false, k) == BlockView(k)
  {
    assert NeighborsInside(cs, nbh);
    var g := Gather(cs, nbh, false, k);
    forall j | 0 <= j < 8 ensures g[j] == BlockView(k)[j] {
      var t := k + nbh[j];
      assert g[j] == Get(cs[t], false);
    }
  }

  /** One slot of a step from the block buffer is the slot as it was. */
  lemma BlockSlotStill(cs: seq<Cell<bool>>, nbh: seq<int>, k: nat)
    requires IsBlockBuffer(cs) && nbh == [-5, -1, 3, -4, 4, -3, 1, 5] && k < 16
    ensures AllReadable(cs) && NeighborsInside(cs, nbh)
    ensures |Step(cs, nbh, false, LifeRule)| == 16
    ensures Step(cs, nbh, false, LifeRule)[k] == cs[k]
  {
    assert NeighborsInside(cs, nbh);
    StepAt(cs, nbh, false, LifeRule, k);
    var c := CommitAll(cs);
    assert c[k] == cs[k];
    if InBlock(k) {
      assert c == cs;
      BlockNeighbours(cs, nbh, k);
      BlockViewCount(k);
    }
  }

  /** A step from the block buffer leaves it as it was. */
  lemma BlockBufferIsStill(cs: seq<Cell<bool>>, nbh: seq<int>)
    requires IsBlockBuffer(cs) && nbh == [-5, -1, 3, -4, 4, -3, 1, 5]
    ensures AllReadable(cs) && NeighborsInside(cs, nbh)
    ensures Step(cs, nbh, false, LifeRule) == cs
  {
    BlockSlotStill(cs, nbh, 0);
    var r := Step(cs, nbh, false, LifeRule);
    forall k | 0 <= k < 16 ensures r[k] == cs[k] {
      BlockSlotStill(cs, nbh, k);
    }
  }

  /** The block is a still life: one generation of the Life rule on a 2 x 2
      grid of live cells, with the halo reading as dead, leaves every slot as
      it was. */
  lemma BlockIsStill()
    ensures AllReadable(FullBlock())
    ensures NeighborsInside(FullBlock(), MooreNeighborhood([2, 2], 1))
    ensures Step(FullBlock(), MooreNeighborhood([2, 2], 1), false, LifeRule) == FullBlock()
  {
    TwoByTwoLayout(true);
    MooreOnTwoByTwo();
    assert IsBlockBuffer(FullBlock());
    BlockBufferIsStill(FullBlock(), MooreNeighborhood([2, 2], 1));
  }

  // ---------------------------------------------------------------------------
  // A 4 x 4 grid with the block at (1, 1)-(2, 2): padded extents 6 x 6,
  // 36 slots, and dead cells all around the block.

  /** The flat Moore offsets of a 4 x 4 grid with a halo of width one. */
  lemma MooreOnFourByFour()
    ensures MooreNeighborhood([4, 4], 1) == [-7, -1, 5, -6, 6, -5, 1, 7]
  {
    MooreOnSquare(4);
  }

  /** The interior slots of the 6 x 6 padded buffer, row by row. */
  predicate InFour(k: int)
  {
    7 <= k <= 10 || 13 <= k <= 16 || 19 <= k <= 22 || 25 <= k <= 28
  }

  /** The slots of the cells (1, 1), (2, 1), (1, 2) and (2, 2). */
  predicate InBlockOfFour(k: int)
  {
    k == 14 || k == 15 || k == 20 || k == 21
  }

  /** The slots of a 4 x 4 grid whose only live cells are the block. */
  predicate IsBlockOfFourBuffer(cs: seq<Cell<bool>>)
  {
    |cs| == 36 && forall t :: 0 <= t < 36 ==>
      cs[t] == if !InFour(t) then Halo(true) else Live(InBlockOfFour(t), InBlockOfFour(t))
  }

  /** A fresh 4 x 4 grid of dead cells with the four block cells overwritten
      by live cells holding true, as `setValue` leaves them. */
  function BlockOfFour(): seq<Cell<bool>>
  {
    SquareLength(4, false);
    InitialCells([4, 4], 1, false)[14 := Live(true, true)][15 := Live(true, true)]
                                  [20 := Live(true, true)][21 := Live(true, true)]
  }

  /** The block's coordinates on the 4 x 4 grid. */
  const BlockOfFourCoordinates: seq<seq<nat>> := [[1, 1], [2, 1], [1, 2], [2, 2]]

  /** A freshly built 4 x 4 grid: sixteen interior slots holding the default,
      twenty halo slots around them. */
  lemma FourByFourLayout<T>(v: T)
    ensures |InitialCells([4, 4], 1, v)| == 36
    ensures forall t :: 0 <= t < 36 ==>
      InitialCells([4, 4], 1, v)[t] == if InFour(t) then Live(v, v) else Halo(true)
  {
    SquareLength(4, v);
    forall t | 0 <= t < 36
      ensures InitialCells([4, 4], 1, v)[t] == if InFour(t) then Live(v, v) else Halo(true)
    {
      SquareSlot(4, v, t);
      var x, y := t % 6, t / 6;
      assert t == x + 6 * y;
    }
  }

  /** Apart from the block, the grid is as freshly built. */
  lemma BlockOfFourBuffer()
    ensures IsBlockOfFourBuffer(BlockOfFour())
  {
    FourByFourLayout(false);
  }

  /** Each of the four block coordinates lies on the grid and addresses a
      live cell holding true. */
  lemma BlockOfFourCells(i: nat)
    requires i < 4
    ensures |BlockOfFourCoordinates[i]| == 2 && InExtents([4, 4], BlockOfFourCoordinates[i])
    ensures var k := FlatIndex([4, 4], 1, BlockOfFourCoordinates[i]);
      k < |BlockOfFour()| && InBlockOfFour(k) && BlockOfFour()[k] == Live(true, true)
  {
    FlatIndexSquare(4, BlockOfFourCoordinates[i]);
    BlockOfFourBuffer();
  }

  /** Each interior slot reads, at each offset, whether that neighbour belongs
      to the block: halo slots read as the shared dead value. */
  lemma BlockOfFourNeighbours(cs: seq<Cell<bool>>, nbh: seq<int>, k: nat)
    requires IsBlockOfFourBuffer(cs) && nbh == [-7, -1, 5, -6, 6, -5, 1, 7] && InFour(k)
    ensures AllReadable(cs) && NeighborsInside(cs, nbh)
    ensures forall j :: 0 <= j < 8 ==> Gather(cs, nbh, false, k)[j] == InBlockOfFour(k + nbh[j])
  {
    assert NeighborsInside(cs, nbh);
    var g := Gather(cs, nbh, false, k);
    forall j | 0 <= j < 8 ensures g[j] == InBlockOfFour(k + nbh[j]) {
      var t := k + nbh[j];
      assert g[j] == Get(cs[t], false);
    }
  }

  /** The live neighbours of interior slot k: three for a block cell, never
      three for a dead cell. */
  lemma BlockOfFourCount(cs: seq<Cell<bool>>, nbh: seq<int>, k: nat)
    requires IsBlockOfFourBuffer(cs) && nbh == [-7, -1, 5, -6, 6, -5, 1, 7] && InFour(k)
    ensures AllReadable(cs) && NeighborsInside(cs, nbh)
    ensures LiveCount(Gather(cs, nbh, false, k)) == 3 <==> InBlockOfFour(k)
  {
    BlockOfFourNeighbours(cs, nbh, k);
    var g := Gather(cs, nbh, false, k);
    LiveCountEight(g);
    assert LiveCount(g) == Ind(InBlockOfFour(k - 7)) + Ind(InBlockOfFour(k - 1))
      + Ind(InBlockOfFour(k + 5)) + Ind(InBlockOfFour(k - 6)) + Ind(InBlockOfFour(k + 6))
      + Ind(InBlockOfFour(k - 5)) + Ind(InBlockOfFour(k + 1)) + Ind(InBlockOfFour(k + 7));
  }

  /** One slot of a step from the 4 x 4 block buffer is the slot as it was:
      the block cells survive and no dead cell comes alive. */
  lemma BlockOfFourSlotStill(cs: seq<Cell<bool>>, nbh: seq<int>, k: nat)
    requires IsBlockOfFourBuffer(cs) && nbh == [-7, -1, 5, -6, 6, -5, 1, 7] && k < 36
    ensures AllReadable(cs) && NeighborsInside(cs, nbh)
    ensures |Step(cs, nbh, false, LifeRule)| == 36
    ensures Step(cs, nbh, false, LifeRule)[k] == cs[k]
  {
    assert NeighborsInside(cs, nbh);
    StepAt(cs, nbh, false, LifeRule, k);
    var c := CommitAll(cs);
    assert c[k] == cs[k];
    if InFour(k) {
      assert c == cs;
      BlockOfFourCount(cs, nbh, k);
    }
  }

  /** The block is a still life on a larger grid as well: one generation of
      the Life rule on a 4 x 4 grid whose only live cells are the block
      (1, 1)-(2, 2) leaves every slot as it was. */
  lemma BlockOfFourIsStill()
    ensures AllReadable(BlockOfFour())
    ensures NeighborsInside(BlockOfFour(), MooreNeighborhood([4, 4], 1))
    ensures Step(BlockOfFour(), MooreNeighborhood([4, 4], 1), false, LifeRule) == BlockOfFour()
  {
    var cs := BlockOfFour();
    BlockOfFourBuffer();
    MooreOnFourByFour();
    var nbh := MooreNeighborhood([4, 4], 1);
    BlockOfFourSlotStill(cs, nbh, 0);
    var r := Step(cs, nbh, false, LifeRule);
    forall k | 0 <= k < 36 ensures r[k] == cs[k] {
      BlockOfFourSlotStill(cs, nbh, k);
    }
  }

  /** The order in which the demo brings the block's slots to life. */
  function BlockRank(k: int): nat
  {
    if k == 5 then 0 else if k == 6 then 1 else if k == 9 then 2 else 3
  }

  /** The coordinates the demo brings to life, in order, and their slots. */
  const BlockCoordinates: seq<seq<nat>> := [[0, 0], [1, 0], [0, 1], [1, 1]]

  lemma BlockSlots(i: nat)
    requires i < 4
    ensures |BlockCoordinates[i]| == 2 && InExtents([2, 2], BlockCoordinates[i])
    ensures var k := FlatIndex([2, 2], 1, BlockCoordinates[i]); InBlock(k) && BlockRank(k) == i
  {
    FlatIndexTwoByTwo(BlockCoordinates[i]);
  }

  /** The buffer after the first i cells of the block are brought to life. */
  function Seeded(i: nat): (cs: seq<Cell<bool>>)
    ensures |cs| == 16
  {
    seq(16, k => if !InBlock(k) then Halo(true) else if BlockRank(k) < i then Live(true, true) else Live(false, false))
  }

  lemma SeedStep(i: nat)
    requires i < 4
    ensures |BlockCoordinates[i]| == 2 && InExtents([2, 2], BlockCoordinates[i])
    ensures var k := FlatIndex([2, 2], 1, BlockCoordinates[i]);
      k < 16 && Seeded(i)[k] == Live(false, false) && Seeded(i)[k := Live(true, true)] == Seeded(i + 1)
  {
    BlockSlots(i);
  }

  lemma SeedEnds()
    ensures InitialCells([2, 2], 1, false) == Seeded(0)
    ensures Seeded(4) == FullBlock()
  {
    TwoByTwoLayout(false);
    TwoByTwoLayout(true);
  }

  /** A 2 x 2 grid of dead cells with all four brought to life through the
      public `setValue`. */
  method SeedBlock() returns (g: Grid<bool>)
    ensures fresh(g) && fresh(g.cells)
    ensures g.Valid() && |g.neighbors| == |g.neighborhood|
    ensures g.shape == [2, 2] && g.maxNeighborDistance == 1
    ensures g.defaultCellValue == false && g.rule == LifeRule
    ensures g.neighborhood == MooreNeighborhood([2, 2], 1)
    ensures g.cells[..] == FullBlock()
  {
    g := new Grid([2, 2], Bounded, Moore, LifeRule, false, 1);
    SeedEnds();
    var i := 0;
    while i < 4
      invariant 0 <= i <= 4 && g.Valid() && |g.neighbors| == |g.neighborhood|
      invariant g.shape == [2, 2] && g.maxNeighborDistance == 1
      invariant g.defaultCellValue == false && g.rule == LifeRule
      invariant g.neighborhood == MooreNeighborhood([2, 2], 1)
      invariant fresh(g.cells) && g.cells[..] == Seeded(i)
    {
      SeedStep(i);
      g.InteriorCoordinateIsLive(BlockCoordinates[i]);
      var outcome := g.SetValue(BlockCoordinates[i], true);
      i := i + 1;
    }
  }

  /** Each coordinate of the block reads as a live cell holding true. */
  lemma BlockReadsAlive(i: nat)
    requires i < 4
    ensures |BlockCoordinates[i]| == 2 && InExtents([2, 2], BlockCoordinates[i])
    ensures var k := FlatIndex([2, 2], 1, BlockCoordinates[i]);
      k < 16 && |FullBlock()| == 16 && FullBlock()[k] == Live(true, true)
  {
    BlockSlots(i);
    TwoByTwoLayout(true);
  }

  /** The demo's reads of the four block cells through the public `getValue`. */
  method ReadBlock(g: Grid<bool>) returns (values: seq<Result<bool>>)
    requires g.Valid() && g.cells[..] == FullBlock() && g.shape == [2, 2] && g.maxNeighborDistance == 1
    ensures values == [Ok(true), Ok(true), Ok(true), Ok(true)]
  {
    values := [];
    var i := 0;
    while i < 4
      invariant 0 <= i <= 4 && |values| == i && forall m :: 0 <= m < i ==> values[m] == Ok(true)
    {
      BlockReadsAlive(i);
      g.InteriorCoordinateIsLive(BlockCoordinates[i]);
      var v := g.GetValue(BlockCoordinates[i]);
      values := values + [v];
      i := i + 1;
    }
  }

  /** The demo program's use of the engine, on the block: seed the block, run a
      generation, and read the four cells back; all are still alive. */
  method BlockDemo() returns (g: Grid<bool>, values: seq<Result<bool>>)
    ensures g.Valid() && g.cells[..] == FullBlock()
    ensures values == [Ok(true), Ok(true), Ok(true), Ok(true)]
  {
    g := SeedBlock();
    g.Update();
    BlockIsStill();
    values := ReadBlock(g);
  }
}
