/** Neighbourhood generation: `generateMooreOffsets` as the source writes it,
    an independent reference enumeration of {-1, 0, 1}^n (`Cube`), the Moore
    offsets the engine is meant to use (`MooreOffsets`), and their conversion to
    flat buffer offsets (`generateMoore`). */
module Topology {
  import opened Indexing

  // ---------------------------------------------------------------------------
  // generateMooreOffsets, as written

  /** True of the all-zero tuple (and of the empty tuple). */
  predicate IsZero(t: seq<int>)
  {
    forall i :: 0 <= i < |t| ==> t[i] == 0
  }

  /** The inner loop over `tails`: prepend `x` to every tail, dropping the
      all-zero result when this is the top-level call. */
  function Prefix(x: int, tails: seq<seq<int>>, isLastDim: bool): (r: seq<seq<int>>)
    ensures !isLastDim ==> |r| == |tails|
    ensures forall j :: 0 <= j < |r| ==> |r[j]| >= 1 && r[j][0] == x
  {
    if tails == [] then []
    else
      var result := [x] + tails[0];
      (if isLastDim && IsZero(result) then [] else [result]) + Prefix(x, tails[1..], isLastDim)
  }

  /** One pass of the outer loop over head = {-1, 0, 1}. When there are no
      tails the singleton `{x}` is pushed without the zero filter. */
  function Extend(x: int, tails: seq<seq<int>>, isLastDim: bool): (r: seq<seq<int>>)
    ensures !isLastDim ==> |r| == if tails == [] then 1 else |tails|
    ensures forall j :: 0 <= j < |r| ==> |r[j]| >= 1 && r[j][0] == x
  {
    if tails == [] then [[x]] else Prefix(x, tails, isLastDim)
  }

  /** `generateMooreOffsets(numDimensions, isLastDim)`. */
  function GenerateMooreOffsets(n: nat, isLastDim: bool): (r: seq<seq<int>>)
    ensures n >= 1 && !isLastDim ==> |r| == Pow3(n)
  {
    if n == 0 then []
    else
      var tails := GenerateMooreOffsets(n - 1, false);
      Extend(-1, tails, isLastDim) + Extend(0, tails, isLastDim) + Extend(1, tails, isLastDim)
  }

  // ---------------------------------------------------------------------------
  // Reference definitions

  function Pow3(n: nat): nat
  {
    if n == 0 then 1 else 3 * Pow3(n - 1)
  }

  /** A tuple of length n over {-1, 0, 1}. */
  predicate IsUnitTuple(t: seq<int>, n: nat)
  {
    |t| == n && forall i :: 0 <= i < |t| ==> -1 <= t[i] <= 1
  }

  /** Every tuple of `tails` with `x` in front. */
  function Block(x: int, tails: seq<seq<int>>): (r: seq<seq<int>>)
    ensures |r| == |tails|
  {
    seq(|tails|, i requires 0 <= i < |tails| => [x] + tails[i])
  }

  /** {-1, 0, 1}^n in lexicographic order, dimension 0 outermost. */
  function Cube(n: nat): seq<seq<int>>
  {
    if n == 0 then [[]]
    else
      var c := Cube(n - 1);
      Block(-1, c) + Block(0, c) + Block(1, c)
  }

  /** The tuples of s that are not all zero, in order. */
  function NonZero(s: seq<seq<int>>): (r: seq<seq<int>>)
    ensures |r| <= |s|
  {
    if s == [] then []
    else (if IsZero(s[0]) then [] else [s[0]]) + NonZero(s[1..])
  }

  /** The Moore offsets: every tuple over {-1, 0, 1}^n except the cell itself. */
  function MooreOffsets(n: nat): seq<seq<int>>
  {
    NonZero(Cube(n))
  }

  /** Strict lexicographic order on tuples of equal length. */
  predicate Below(a: seq<int>, b: seq<int>)
  {
    |a| == |b| && |a| > 0 && (a[0] < b[0] || (a[0] == b[0] && Below(a[1..], b[1..])))
  }

  predicate LexSorted(s: seq<seq<int>>)
  {
    forall i, j :: 0 <= i < j < |s| ==> Below(s[i], s[j])
  }

  // ---------------------------------------------------------------------------
  // Lemmas about the order

  lemma {:induction false} BelowIrreflexive(a: seq<int>)
    ensures !Below(a, a)
  {
    if |a| > 0 {
      BelowIrreflexive(a[1..]);
    }
  }

  /** A lexicographically sorted sequence has no repeated tuple. */
  lemma SortedDistinct(s: seq<seq<int>>)
    requires LexSorted(s)
    ensures forall i, j :: 0 <= i < |s| && 0 <= j < |s| && i != j ==> s[i] != s[j]
  {
    forall i, j | 0 <= i < |s| && 0 <= j < |s| && i != j
      ensures s[i] != s[j]
    {
      BelowIrreflexive(s[i]);
    }
  }

  lemma ConcatSorted(a: seq<seq<int>>, b: seq<seq<int>>)
    requires LexSorted(a) && LexSorted(b)
    requires forall x, y :: x in a && y in b ==> Below(x, y)
    ensures LexSorted(a + b)
  {
    forall i, j | 0 <= i < j < |a + b|
      ensures Below((a + b)[i], (a + b)[j])
    {
      if j < |a| {
        assert (a + b)[i] == a[i] && (a + b)[j] == a[j];
      } else if i >= |a| {
        assert (a + b)[i] == b[i - |a|] && (a + b)[j] == b[j - |a|];
      } else {
        assert (a + b)[i] in a && (a + b)[j] in b;
      }
    }
  }

  lemma BlockSorted(x: int, c: seq<seq<int>>)
    requires LexSorted(c)
    ensures LexSorted(Block(x, c))
  {
    forall i, j | 0 <= i < j < |c|
      ensures Below(Block(x, c)[i], Block(x, c)[j])
    {
      assert Block(x, c)[i][1..] == c[i] && Block(x, c)[j][1..] == c[j];
    }
  }

  lemma BlocksOrdered(x: int, y: int, c: seq<seq<int>>, n: nat)
    requires x < y && forall t :: t in c ==> |t| == n
    ensures forall a, b :: a in Block(x, c) && b in Block(y, c) ==> Below(a, b)
  {
    forall a, b | a in Block(x, c) && b in Block(y, c)
      ensures Below(a, b)
    {
      var i :| 0 <= i < |c| && Block(x, c)[i] == a;
      var j :| 0 <= j < |c| && Block(y, c)[j] == b;
      assert c[i] in c && c[j] in c;
    }
  }

  // ---------------------------------------------------------------------------
  // The reference cube

  lemma {:induction false} CubeSize(n: nat)
    ensures |Cube(n)| == Pow3(n)
  {
    if n > 0 {
      CubeSize(n - 1);
    }
  }

  lemma {:induction false} CubeMembers(n: nat)
    ensures forall t :: t in Cube(n) ==> IsUnitTuple(t, n)
  {
    if n > 0 {
      CubeMembers(n - 1);
      var c := Cube(n - 1);
      forall t | t in Cube(n) ensures IsUnitTuple(t, n) {
        var x, i :| x in {-1, 0, 1} && 0 <= i < |c| && t == Block(x, c)[i];
        assert c[i] in c;
      }
    }
  }

  /** Tuple `[x] + c[i]` sits at position i of its block. */
  lemma BlockMember(x: int, c: seq<seq<int>>, i: nat, t: seq<int>)
    requires i < |c| && |t| >= 1 && t[0] == x && t[1..] == c[i]
    ensures Block(x, c)[i] == t
  {
    assert Block(x, c)[i] == [x] + c[i];
    assert [t[0]] + t[1..] == t;
  }

  lemma UnitTail(t: seq<int>, n: nat)
    requires n >= 1 && IsUnitTuple(t, n)
    ensures IsUnitTuple(t[1..], n - 1) && -1 <= t[0] <= 1
  {
  }

  lemma CubeUnfold(n: nat)
    requires n >= 1
    ensures Cube(n) == Block(-1, Cube(n - 1)) + Block(0, Cube(n - 1)) + Block(1, Cube(n - 1))
  {
  }

  lemma {:induction false} CubeCovers(n: nat, t: seq<int>)
    requires IsUnitTuple(t, n)
    ensures t in Cube(n)
  {
    if n == 0 {
      assert t == [];
    } else {
      var c := Cube(n - 1);
      UnitTail(t, n);
      CubeCovers(n - 1, t[1..]);
      var i :| 0 <= i < |c| && c[i] == t[1..];
      BlockMember(t[0], c, i, t);
      CubeUnfold(n);
      var lo, mid, hi := Block(-1, c), Block(0, c), Block(1, c);
      var all := lo + mid + hi;
      var at := if t[0] == -1 then i else if t[0] == 0 then |c| + i else 2 * |c| + i;
      assert all[at] == t;
    }
  }

  lemma {:induction false} CubeSorted(n: nat)
    ensures LexSorted(Cube(n))
  {
    if n > 0 {
      CubeSorted(n - 1);
      CubeMembers(n - 1);
      var c := Cube(n - 1);
      BlockSorted(-1, c);
      BlockSorted(0, c);
      BlockSorted(1, c);
      BlocksOrdered(-1, 0, c, n - 1);
      BlocksOrdered(-1, 1, c, n - 1);
      BlocksOrdered(0, 1, c, n - 1);
      ConcatSorted(Block(-1, c), Block(0, c));
      ConcatSorted(Block(-1, c) + Block(0, c), Block(1, c));
    }
  }

  /** The cube holds exactly the 3^n tuples over {-1, 0, 1}^n, in strictly
      increasing lexicographic order (so each exactly once). */
  lemma CubeIsComplete(n: nat)
    ensures |Cube(n)| == Pow3(n)
    ensures forall t :: t in Cube(n) <==> IsUnitTuple(t, n)
    ensures LexSorted(Cube(n))
  {
    CubeSize(n);
    CubeMembers(n);
    CubeSorted(n);
    forall t | IsUnitTuple(t, n) ensures t in Cube(n) {
      CubeCovers(n, t);
    }
  }

  // ---------------------------------------------------------------------------
  // Filtering out the cell itself

  lemma {:induction false} NonZeroConcat(a: seq<seq<int>>, b: seq<seq<int>>)
    ensures NonZero(a + b) == NonZero(a) + NonZero(b)
  {
    if a == [] {
      assert a + b == b;
    } else {
      assert (a + b)[1..] == a[1..] + b;
      NonZeroConcat(a[1..], b);
    }
  }

  lemma {:induction false} NonZeroMembers(s: seq<seq<int>>)
    ensures forall t :: t in NonZero(s) <==> t in s && !IsZero(t)
  {
    if s != [] {
      NonZeroMembers(s[1..]);
      assert s == [s[0]] + s[1..];
    }
  }

  lemma {:induction false} NonZeroSorted(s: seq<seq<int>>)
    requires LexSorted(s)
    ensures LexSorted(NonZero(s))
  {
    if s != [] {
      assert LexSorted(s[1..]) by {
        forall i, j | 0 <= i < j < |s[1..]| ensures Below(s[1..][i], s[1..][j]) {
          assert s[1..][i] == s[i + 1] && s[1..][j] == s[j + 1];
        }
      }
      NonZeroSorted(s[1..]);
      NonZeroMembers(s[1..]);
      if !IsZero(s[0]) {
        forall x, y | x in [s[0]] && y in NonZero(s[1..]) ensures Below(x, y) {
          var j :| 0 <= j < |s[1..]| && s[1..][j] == y;
          assert s[j + 1] == y;
        }
        ConcatSorted([s[0]], NonZero(s[1..]));
      }
    }
  }

  lemma {:induction false} NonZeroBlockNonZeroHead(x: int, c: seq<seq<int>>)
    requires x != 0
    ensures NonZero(Block(x, c)) == Block(x, c)
  {
    if c != [] {
      assert Block(x, c)[0][0] == x;
      assert Block(x, c)[1..] == Block(x, c[1..]);
      NonZeroBlockNonZeroHead(x, c[1..]);
    }
  }

  lemma {:induction false} NonZeroBlockZeroHead(c: seq<seq<int>>)
    ensures NonZero(Block(0, c)) == Block(0, NonZero(c))
  {
    if c != [] {
      var t := [0] + c[0];
      assert Block(0, c)[0] == t && t[1..] == c[0];
      assert IsZero(t) <==> IsZero(c[0]) by {
        if IsZero(c[0]) {
          forall i | 0 <= i < |t| ensures t[i] == 0 {
            if i > 0 { assert t[i] == c[0][i - 1]; }
          }
        }
        if IsZero(t) {
          forall i | 0 <= i < |c[0]| ensures c[0][i] == 0 {
            assert c[0][i] == t[i + 1];
          }
        }
      }
      assert Block(0, c)[1..] == Block(0, c[1..]);
      NonZeroBlockZeroHead(c[1..]);
      if IsZero(c[0]) {
        assert NonZero(c) == NonZero(c[1..]);
      } else {
        assert NonZero(c) == [c[0]] + NonZero(c[1..]);
        assert Block(0, NonZero(c)) == [t] + Block(0, NonZero(c[1..]));
      }
    }
  }

  /** Removing the cell itself from the cube, block by block: the blocks headed
      by -1 and 1 keep everything, the block headed by 0 loses exactly what the
      smaller cube loses. */
  lemma MooreOffsetsUnfold(n: nat)
    requires n >= 1
    ensures MooreOffsets(n)
      == Block(-1, Cube(n - 1)) + Block(0, MooreOffsets(n - 1)) + Block(1, Cube(n - 1))
  {
    var c := Cube(n - 1);
    NonZeroConcat(Block(-1, c) + Block(0, c), Block(1, c));
    NonZeroConcat(Block(-1, c), Block(0, c));
    NonZeroBlockNonZeroHead(-1, c);
    NonZeroBlockNonZeroHead(1, c);
    NonZeroBlockZeroHead(c);
  }

  lemma MooreOffsetsLength(n: nat)
    requires n >= 1
    ensures |MooreOffsets(n)| == 2 * |Cube(n - 1)| + |MooreOffsets(n - 1)|
  {
    MooreOffsetsUnfold(n);
  }

  lemma MooreOffsetsCountStep(n: nat)
    requires n >= 1 && |MooreOffsets(n - 1)| == Pow3(n - 1) - 1
    ensures |MooreOffsets(n)| == Pow3(n) - 1
  {
    MooreOffsetsLength(n);
    CubeSize(n - 1);
  }

  /** In zero dimensions the only tuple is the empty one, which is all zero. */
  lemma MooreOffsetsZero()
    ensures MooreOffsets(0) == []
  {
    assert IsZero(Cube(0)[0]);
    assert Cube(0)[1..] == [];
  }

  lemma {:induction false} MooreOffsetsCount(n: nat)
    ensures |MooreOffsets(n)| == Pow3(n) - 1
  {
    if n == 0 {
      MooreOffsetsZero();
    } else {
      MooreOffsetsCount(n - 1);
      MooreOffsetsCountStep(n);
    }
  }

  /** The Moore offsets in n dimensions: exactly the 3^n - 1 tuples over
      {-1, 0, 1}^n other than the all-zero one, each once, in lexicographic
      order with dimension 0 outermost. */
  lemma MooreOffsetsSpec(n: nat)
    ensures |MooreOffsets(n)| == Pow3(n) - 1
    ensures forall t :: t in MooreOffsets(n) <==> IsUnitTuple(t, n) && !IsZero(t)
    ensures forall j :: 0 <= j < |MooreOffsets(n)| ==> IsUnitTuple(MooreOffsets(n)[j], n)
    ensures LexSorted(MooreOffsets(n))
    ensures forall i, j :: 0 <= i < j < |MooreOffsets(n)| ==> MooreOffsets(n)[i] != MooreOffsets(n)[j]
  {
    MooreOffsetsCount(n);
    CubeIsComplete(n);
    NonZeroMembers(Cube(n));
    forall j | 0 <= j < |MooreOffsets(n)| ensures IsUnitTuple(MooreOffsets(n)[j], n) {
      assert MooreOffsets(n)[j] in MooreOffsets(n);
    }
    NonZeroSorted(Cube(n));
    SortedDistinct(MooreOffsets(n));
  }

  // ---------------------------------------------------------------------------
  // The source's generator against the reference

  lemma {:induction false} PrefixUnfiltered(x: int, tails: seq<seq<int>>)
    ensures Prefix(x, tails, false) == Block(x, tails)
  {
    if tails != [] {
      PrefixUnfiltered(x, tails[1..]);
      assert Block(x, tails) == [[x] + tails[0]] + Block(x, tails[1..]);
    }
  }

  lemma {:induction false} PrefixFiltered(x: int, tails: seq<seq<int>>)
    ensures Prefix(x, tails, true) == NonZero(Block(x, tails))
  {
    if tails != [] {
      PrefixFiltered(x, tails[1..]);
      assert Block(x, tails)[1..] == Block(x, tails[1..]);
    }
  }

  /** Without the top-level filter, `generateMooreOffsets` enumerates the whole
      cube {-1, 0, 1}^n in the reference order. */
  lemma {:induction false} GenerateAllIsCube(n: nat)
    requires n >= 1
    ensures GenerateMooreOffsets(n, false) == Cube(n)
  {
    if n == 1 {
      assert Cube(0) == [[]];
      SingletonBlocks();
    } else {
      GenerateAllIsCube(n - 1);
      CubeSize(n - 1);
      var c := Cube(n - 1);
      PrefixUnfiltered(-1, c);
      PrefixUnfiltered(0, c);
      PrefixUnfiltered(1, c);
    }
  }

  /** From two dimensions on (and for zero), the top-level call of
      `generateMooreOffsets` yields exactly the Moore offsets. */
  lemma GenerateMatchesMoore(n: nat)
    requires n != 1
    ensures GenerateMooreOffsets(n, true) == MooreOffsets(n)
  {
    if n == 0 {
      assert IsZero(Cube(0)[0]);
    } else {
      GenerateAllIsCube(n - 1);
      CubeSize(n - 1);
      var c := Cube(n - 1);
      PrefixFiltered(-1, c);
      PrefixFiltered(0, c);
      PrefixFiltered(1, c);
      NonZeroConcat(Block(-1, c) + Block(0, c), Block(1, c));
      NonZeroConcat(Block(-1, c), Block(0, c));
    }
  }

  /** In one dimension the zero filter is never reached (the tails are empty),
      so `generateMooreOffsets(1)` contains the cell itself and has 3 entries
      instead of 3^1 - 1 = 2. */
  lemma OneDimensionIncludesSelf()
    ensures GenerateMooreOffsets(1, true) == [[-1], [0], [1]]
    ensures [0] in GenerateMooreOffsets(1, true) && IsZero([0])
    ensures MooreOffsets(1) == [[-1], [1]]
  {
    MooreOffsetsUnfold(1);
    assert IsZero(Cube(0)[0]);
    assert MooreOffsets(0) == [];
    SingletonBlocks();
    assert GenerateMooreOffsets(0, false) == [];
  }

  lemma SingletonBlocks()
    ensures Block(-1, [[]]) == [[-1]] && Block(0, [[]]) == [[0]] && Block(1, [[]]) == [[1]]
  {
    assert [-1] + [] == [-1] && [0] + [] == [0] && [1] + [] == [1];
  }

  // ---------------------------------------------------------------------------
  // Flat offsets

  /** A tuple whose components lie within distance d. */
  predicate WithinDistance(o: seq<int>, n: nat, d: nat)
  {
    |o| == n && forall i :: 0 <= i < |o| ==> -(d as int) <= o[i] <= d
  }

  lemma MooreOffsetsWithin(n: nat, d: nat)
    requires d >= 1
    ensures forall t :: t in MooreOffsets(n) ==> WithinDistance(t, n, d)
  {
    MooreOffsetsSpec(n);
  }

  /** Offset tuples converted one by one with `getOffsetIdx`. */
  function FlatOffsets(shape: seq<nat>, d: nat, tuples: seq<seq<int>>): (r: seq<int>)
    requires forall j :: 0 <= j < |tuples| ==> |tuples[j]| == |shape|
    ensures |r| == |tuples|
  {
    seq(|tuples|, j requires 0 <= j < |tuples| => OffsetIndex(shape, d, tuples[j]))
  }

  /** `generateMoore`: the Moore offsets as flat offsets. */
  function MooreNeighborhood(shape: seq<nat>, d: nat): (r: seq<int>)
    ensures |r| == |MooreOffsets(|shape|)| == Pow3(|shape|) - 1
  {
    MooreOffsetsSpec(|shape|);
    FlatOffsets(shape, d, MooreOffsets(|shape|))
  }

  lemma MooreNeighborhoodIsFlat(shape: seq<nat>, d: nat)
    ensures forall j :: 0 <= j < |MooreOffsets(|shape|)| ==> |MooreOffsets(|shape|)[j]| == |shape|
    ensures MooreNeighborhood(shape, d) == FlatOffsets(shape, d, MooreOffsets(|shape|))
  {
    MooreOffsetsSpec(|shape|);
  }

  /** From every interior slot, every Moore flat offset reaches a slot of the
      buffer, and that slot's padded coordinate is the slot's own plus the
      offset tuple in the same position. */
  lemma MooreNeighborhoodInBuffer(shape: seq<nat>, d: nat, k: nat, j: nat)
    requires d >= 1 && k < Product(RealDims(shape, d))
    requires !IsOutOfBounds(shape, d, Decode(RealDims(shape, d), k))
    requires j < |MooreNeighborhood(shape, d)|
    ensures 0 <= k + MooreNeighborhood(shape, d)[j] < Product(RealDims(shape, d))
    ensures |MooreOffsets(|shape|)[j]| == |shape|
    ensures Decode(RealDims(shape, d), k + MooreNeighborhood(shape, d)[j])
         == Add(Decode(RealDims(shape, d), k), MooreOffsets(|shape|)[j])
  {
    var mo := MooreOffsets(|shape|);
    MooreOffsetsSpec(|shape|);
    MooreOffsetsWithin(|shape|, d);
    assert mo[j] in mo;
    OffsetStaysInBuffer(shape, d, k, mo[j]);
  }
}
