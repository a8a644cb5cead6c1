/** `Grid<T>`: the padded buffer of cells, its topology and the generation
    step. The cells live in an array that the methods update in place; each
    cell is owned by its slot alone, so a cell is a value in the array, and the
    shared default every halo slot points at is the one field
    `defaultCellValue`. */
module Grids {
  import opened Errors
  import opened Cells
  import opened Indexing
  import opened Topology
  import opened Generation

  datatype Wrapping = Bounded | Toroidal
  datatype Neighborhood = Moore | VonNeumann | Custom

  /** The buffer right after construction: every interior slot holds the
      default in both buffers, every halo slot points at the shared default. */
  function InitialCells<T>(shape: seq<nat>, d: nat, v: T): (cs: seq<Cell<T>>)
    requires d >= 1
    ensures |cs| == Product(RealDims(shape, d))
  {
    var rs := RealDims(shape, d);
    seq(Product(rs), k requires 0 <= k < Product(rs) =>
      if IsOutOfBounds(shape, d, Decode(rs, k)) then Halo(true) else Live(v, v))
  }

  /** `std::vector<T*>::resize`: truncate, or pad with null pointers. */
  function Resize<T>(s: seq<Option<T>>, n: nat): (r: seq<Option<T>>)
    ensures |r| == n
    ensures forall m :: 0 <= m < n ==> r[m] == if m < |s| then s[m] else None
  {
    if n <= |s| then s[..n] else s + seq(n - |s|, _ => None)
  }

  /** The position of the first offset tuple of the wrong length, or the number
      of tuples when all have length n. */
  function FirstMismatch(offs: seq<seq<int>>, n: nat): (m: nat)
    ensures m <= |offs|
    ensures forall j :: 0 <= j < m ==> |offs[j]| == n
    ensures m < |offs| ==> |offs[m]| != n
  {
    if offs == [] || |offs[0]| != n then 0 else 1 + FirstMismatch(offs[1..], n)
  }

  /** The pointed-to values of a scratch vector with no null entry. */
  function Targets<T>(s: seq<Option<T>>): (r: seq<T>)
    requires forall m :: 0 <= m < |s| ==> s[m].Some?
    ensures |r| == |s| && forall m :: 0 <= m < |s| ==> s[m] == Some(r[m])
  {
    seq(|s|, m requires 0 <= m < |s| => s[m].value)
  }

  class Grid<T> {
    const shape: seq<nat>
    const size: nat
    const maxNeighborDistance: nat
    const padding: nat
    const singleDimPadding: nat
    const numDimensions: nat
    const wrapping: Wrapping
    const rule: (T, seq<T>) -> T
    const defaultValue: T
    /** The one shared value every halo slot points at. */
    const defaultCellValue: T

    var cells: array<Cell<T>>
    var neighborhoodType: Neighborhood
    /** The topology as flat offsets, in order. */
    var neighborhood: seq<int>
    /** The scratch vector of neighbour pointers handed to the rule. */
    var neighbors: seq<Option<T>>
    /** The offset tuples `neighborhood` was converted from. */
    ghost var offsets: seq<seq<int>>

    /** The constants agree with the shape; the halo is at least one slot wide. */
    ghost predicate Shaped()
    {
      && numDimensions == |shape| >= 1
      && maxNeighborDistance >= 1
      && singleDimPadding == 2 * maxNeighborDistance
      && size == Product(shape)
      && padding == Padding(shape, maxNeighborDistance)
      && wrapping == Bounded
    }

    /** The padded extents. */
    ghost function Dims(): (rs: seq<nat>)
      requires Shaped()
      ensures |rs| == numDimensions && Positive(rs)
    {
      RealDimsPositive(shape, maxNeighborDistance);
      RealDims(shape, maxNeighborDistance)
    }

    /** Every offset was converted from a tuple within the halo width. */
    ghost predicate TopologyValid()
      reads this
    {
      && |offsets| == |neighborhood|
      && forall j :: 0 <= j < |offsets| ==>
           WithinDistance(offsets[j], numDimensions, maxNeighborDistance)
           && |offsets[j]| == |shape|
           && neighborhood[j] == OffsetIndex(shape, maxNeighborDistance, offsets[j])
    }

    /** One slot per padded coordinate; a slot is a halo cell exactly when its
        padded coordinate is out of bounds. */
    ghost predicate LayoutOf(cs: seq<Cell<T>>)
      requires Shaped()
    {
      && |cs| == size + padding
      && forall k :: 0 <= k < |cs| ==>
           (cs[k].Halo? <==> IsOutOfBounds(shape, maxNeighborDistance, Decode(Dims(), k)))
    }

    ghost predicate Layout()
      reads this, cells
      requires Shaped()
    {
      LayoutOf(cells[..])
    }

    /** A buffer with the same halo/live pattern keeps the layout. */
    lemma LayoutKept(a: seq<Cell<T>>, b: seq<Cell<T>>)
      requires Shaped() && LayoutOf(a) && SameLayout(a, b)
      ensures LayoutOf(b)
    {
    }

    ghost predicate Valid()
      reads this, cells
    {
      && Shaped()
      && TopologyValid()
      && Layout()
      && AllReadable(cells[..])
      && NeighborsInside(cells[..], neighborhood)
    }

    /** From the layout, every offset of every interior slot stays inside the
        buffer: no neighbour read needs a range check. */
    lemma LayoutKeepsNeighborsInside()
      requires Shaped() && TopologyValid() && Layout()
      ensures NeighborsInside(cells[..], neighborhood)
    {
      var d := maxNeighborDistance;
      forall k, j | 0 <= k < cells.Length && cells[k].Live? && 0 <= j < |neighborhood|
        ensures 0 <= k + neighborhood[j] < cells.Length
      {
        OffsetStaysInBuffer(shape, d, k, offsets[j]);
      }
    }

    /** Every interior coordinate addresses a live slot of the buffer. */
    lemma InteriorCoordinateIsLive(c: seq<nat>)
      requires Valid() && InExtents(shape, c)
      ensures FlatIndex(shape, maxNeighborDistance, c) < cells.Length
      ensures cells[FlatIndex(shape, maxNeighborDistance, c)].Live?
    {
      InteriorCoordinateLandsInside(shape, maxNeighborDistance, c);
    }

    // -------------------------------------------------------------------------
    // Index arithmetic

    /** `getRealDimSize`: the padded extent of dimension i. */
    function GetRealDimSize(i: nat): (r: nat)
      requires Shaped() && i < numDimensions
      ensures r == Dims()[i] && r >= 2 + shape[i]
    {
      shape[i] + singleDimPadding
    }

    /** `getIdx`. */
    method GetIdx(coordinates: seq<nat>) returns (r: Result<nat>)
      requires Shaped()
      ensures |coordinates| != numDimensions ==> r == Err(InvalidOperation)
      ensures |coordinates| == numDimensions ==> r == Ok(FlatIndex(shape, maxNeighborDistance, coordinates))
    {
      if |coordinates| != numDimensions {
        return Err(InvalidOperation);
      }
      ghost var x := Shift(coordinates, maxNeighborDistance);
      ghost var rs := Dims();
      var result := 0;
      var i := 0;
      while i < numDimensions
        invariant 0 <= i <= numDimensions
        invariant result == Weighted(rs, x, i)
      {
        var chunk := coordinates[i] + maxNeighborDistance;
        var j := 1;
        while j <= i
          invariant 1 <= j <= i + 1
          invariant chunk == x[i] * Stride(rs, j - 1)
        {
          ChunkStep(x[i], rs, j);
          chunk := chunk * GetRealDimSize(j - 1);
          j := j + 1;
        }
        result := result + chunk;
        i := i + 1;
      }
      WeightedNonNegative(rs, x, |x|);
      return Ok(result);
    }

    /** `getOffsetIdx`. */
    method GetOffsetIdx(offsetCoords: seq<int>) returns (r: Result<int>)
      requires Shaped()
      ensures |offsetCoords| != numDimensions ==> r == Err(InvalidOperation)
      ensures |offsetCoords| == numDimensions ==> r == Ok(OffsetIndex(shape, maxNeighborDistance, offsetCoords))
    {
      if |offsetCoords| != numDimensions {
        return Err(InvalidOperation);
      }
      ghost var rs := Dims();
      var result := 0;
      var i := 0;
      while i < numDimensions
        invariant 0 <= i <= numDimensions
        invariant result == Weighted(rs, offsetCoords, i)
      {
        var chunk := offsetCoords[i];
        var j := 1;
        while j <= i
          invariant 1 <= j <= i + 1
          invariant chunk == offsetCoords[i] * Stride(rs, j - 1)
        {
          ChunkStep(offsetCoords[i], rs, j);
          chunk := chunk * GetRealDimSize(j - 1);
          j := j + 1;
        }
        result := result + chunk;
        i := i + 1;
      }
      return Ok(result);
    }

    /** `incrementCoordinate`: one odometer step, dimension 0 fastest. */
    method IncrementCoordinate(coordinate: array<nat>)
      requires Shaped() && coordinate.Length == numDimensions
      modifies coordinate
      ensures coordinate[..] == Next(Dims(), old(coordinate[..]))
    {
      ghost var p := coordinate[..];
      ghost var rs := Dims();
      var i := 0;
      coordinate[0] := (coordinate[0] + 1) % GetRealDimSize(0);
      while coordinate[i] == 0 && i + 1 < numDimensions
        invariant 0 <= i < numDimensions
        invariant forall m :: 0 <= m < i ==> coordinate[m] == 0 && (p[m] + 1) % rs[m] == 0
        invariant coordinate[i] == (p[i] + 1) % rs[i]
        invariant forall m :: i < m < numDimensions ==> coordinate[m] == p[m]
      {
        i := i + 1;
        coordinate[i] := (coordinate[i] + 1) % GetRealDimSize(i);
      }
      NextResult(rs, p, i, coordinate[..]);
    }

    /** `isOutOfBounds`: scan the components for one in the halo. */
    method CoordinateIsOutOfBounds(coordinate: array<nat>) returns (b: bool)
      requires Shaped() && coordinate.Length == numDimensions
      ensures b <==> IsOutOfBounds(shape, maxNeighborDistance, coordinate[..])
    {
      var i := 0;
      while i < numDimensions
        invariant 0 <= i <= numDimensions
        invariant forall m :: 0 <= m < i ==>
          maxNeighborDistance <= coordinate[m] < shape[m] + maxNeighborDistance
      {
        var coord := coordinate[i];
        if coord < maxNeighborDistance || coord >= shape[i] + maxNeighborDistance {
          assert coordinate[..][i] == coord;
          return true;
        }
        i := i + 1;
      }
      return false;
    }

    // -------------------------------------------------------------------------
    // Topology

    /** `generateMoore`: every Moore offset tuple through `getOffsetIdx`. */
    method GenerateMoore() returns (nbh: seq<int>)
      requires Shaped()
      ensures nbh == MooreNeighborhood(shape, maxNeighborDistance)
    {
      var tuples := MooreOffsets(numDimensions);
      MooreOffsetsSpec(numDimensions);
      nbh := [];
      var j := 0;
      while j < |tuples|
        invariant 0 <= j <= |tuples|
        invariant |nbh| == j
        invariant forall m :: 0 <= m < j ==> nbh[m] == OffsetIndex(shape, maxNeighborDistance, tuples[m])
      {
        var idx := GetOffsetIdx(tuples[j]);
        nbh := nbh + [idx.value];
        j := j + 1;
      }
    }

    /** `setNeighborhood(Neighborhood)`. */
    method SetNeighborhood(neighborhoodType: Neighborhood) returns (r: Outcome)
      requires Shaped()
      modifies this`neighborhoodType, this`neighborhood, this`neighbors, this`offsets
      ensures neighborhoodType == Custom ==>
        r == Fail(InvalidOperation) && this.neighborhoodType == old(this.neighborhoodType)
      ensures neighborhoodType == VonNeumann ==>
        r == Fail(NotImplemented) && this.neighborhoodType == VonNeumann
      ensures neighborhoodType != Moore ==>
        neighborhood == old(neighborhood) && neighbors == old(neighbors) && offsets == old(offsets)
      ensures neighborhoodType == Moore ==>
        && r == Pass
        && this.neighborhoodType == Moore
        && neighborhood == MooreNeighborhood(shape, maxNeighborDistance)
        && offsets == MooreOffsets(numDimensions)
        && neighbors == Resize(old(neighbors), |neighborhood|)
        && TopologyValid()
      ensures old(Valid()) ==> Valid()
    {
      if neighborhoodType == Custom {
        return Fail(InvalidOperation);
      }
      this.neighborhoodType := neighborhoodType;
      if neighborhoodType == VonNeumann {
        return Fail(NotImplemented);
      }
      neighborhood := GenerateMoore();
      offsets := MooreOffsets(numDimensions);
      neighbors := Resize(neighbors, |neighborhood|);
      MooreOffsetsSpec(numDimensions);
      MooreOffsetsWithin(numDimensions, maxNeighborDistance);
      forall j | 0 <= j < |offsets|
        ensures WithinDistance(offsets[j], numDimensions, maxNeighborDistance)
      {
        assert offsets[j] in MooreOffsets(numDimensions);
      }
      if Layout() {
        LayoutKeepsNeighborsInside();
      }
      return Pass;
    }

    /** `setNeighborhood(offsets)`: each offset tuple converted with
        `getOffsetIdx`. A tuple of the wrong length throws part-way through,
        leaving the offsets converted before it and the scratch vector as it
        was. Nothing checks that the offsets stay within the halo width; only
        offsets that do keep every neighbour read inside the buffer. */
    method SetCustomNeighborhood(offs: seq<seq<int>>) returns (r: Outcome)
      requires Shaped()
      modifies this`neighborhood, this`neighbors, this`offsets
      ensures var m := FirstMismatch(offs, numDimensions);
        && offsets == offs[..m]
        && |neighborhood| == m
        && (forall j :: 0 <= j < m ==> neighborhood[j] == OffsetIndex(shape, maxNeighborDistance, offs[j]))
        && (m < |offs| ==> r == Fail(InvalidOperation) && neighbors == old(neighbors))
        && (m == |offs| ==> r == Pass && neighbors == Resize(old(neighbors), |offs|))
      ensures Within(offs) ==> TopologyValid()
      ensures old(Valid()) && Within(offs) ==> Valid()
    {
      ghost var m := FirstMismatch(offs, numDimensions);
      neighborhood := [];
      offsets := [];
      var j := 0;
      while j < |offs|
        invariant 0 <= j <= m
        invariant offsets == offs[..j]
        invariant |neighborhood| == j
        invariant forall q :: 0 <= q < j ==> neighborhood[q] == OffsetIndex(shape, maxNeighborDistance, offs[q])
        invariant neighbors == old(neighbors)
      {
        var idx := GetOffsetIdx(offs[j]);
        if idx.Err? {
          assert j == m;
          if Within(offs) && Layout() {
            LayoutKeepsNeighborsInside();
          }
          return Fail(idx.error);
        }
        neighborhood := neighborhood + [idx.value];
        offsets := offsets + [offs[j]];
        j := j + 1;
      }
      neighbors := Resize(neighbors, |neighborhood|);
      if Within(offs) && Layout() {
        LayoutKeepsNeighborsInside();
      }
      return Pass;
    }

    /** Every offset tuple of the right length stays within the halo width. */
    ghost predicate Within(offs: seq<seq<int>>)
    {
      forall j :: 0 <= j < |offs| && |offs[j]| == numDimensions ==>
        WithinDistance(offs[j], numDimensions, maxNeighborDistance)
    }

    // -------------------------------------------------------------------------
    // Construction

    /** The constructor, for the configurations it completes with: Moore
        topology and bounded wrapping (`Create` raises the errors of the
        others). The neighbourhood is set from the constructor's argument. */
    constructor (shape: seq<nat>, wrapping: Wrapping, neighborhoodType: Neighborhood,
                 cellUpdate: (T, seq<T>) -> T, defaultValue: T, maxNeighborDistance: nat)
      requires |shape| >= 1 && maxNeighborDistance >= 1
      requires wrapping == Bounded && neighborhoodType == Moore
      ensures Valid() && fresh(cells)
      ensures this.shape == shape && this.maxNeighborDistance == maxNeighborDistance
      ensures rule == cellUpdate && this.defaultValue == defaultValue && defaultCellValue == defaultValue
      ensures this.neighborhoodType == Moore
      ensures neighborhood == MooreNeighborhood(shape, maxNeighborDistance)
      ensures |neighbors| == |neighborhood|
      ensures cells[..] == InitialCells(shape, maxNeighborDistance, defaultValue)
    {
      this.shape := shape;
      size := Product(shape);
      this.maxNeighborDistance := maxNeighborDistance;
      padding := Padding(shape, maxNeighborDistance);
      singleDimPadding := 2 * maxNeighborDistance;
      numDimensions := |shape|;
      this.wrapping := wrapping;
      rule := cellUpdate;
      this.defaultValue := defaultValue;
      defaultCellValue := defaultValue;
      this.neighborhoodType := neighborhoodType;
      neighborhood, neighbors, offsets := [], [], [];
      cells := new Cell<T>[0];
      new;
      var outcome := SetNeighborhood(neighborhoodType);
      AllocateCells();
      LayoutKeepsNeighborsInside();
    }

    /** The constructor's two passes over the padded buffer: one cell per slot,
        walking the padded coordinates with the odometer, halo slots holding an
        unbound sentinel; then every halo slot is pointed at the shared default
        (bounded wrapping). */
    method AllocateCells()
      requires Shaped()
      modifies this`cells
      ensures fresh(cells)
      ensures cells[..] == InitialCells(shape, maxNeighborDistance, defaultCellValue)
    {
      var buffer := MarkCells();
      BindHalo(buffer);
      cells := buffer;
    }

    /** The allocation pass of the constructor: walk the padded box with the
        odometer and put a halo cell (not yet pointing anywhere) on every
        out-of-bounds slot, a cell holding the default elsewhere. */
    method MarkCells() returns (buffer: array<Cell<T>>)
      requires Shaped()
      ensures fresh(buffer) && buffer.Length == size + padding
      ensures forall k :: 0 <= k < buffer.Length ==>
        buffer[k] == if IsOutOfBounds(shape, maxNeighborDistance, Decode(Dims(), k)) then Halo(false)
                     else Live(defaultCellValue, defaultCellValue)
    {
      var d := maxNeighborDistance;
      var n := size + padding;
      ghost var rs := Dims();
      DecodeZero(rs);
      var coordinate := new nat[numDimensions](_ => 0);
      buffer := new Cell<T>[n](_ => Halo(false));
      var i := 0;
      while i < n
        invariant 0 <= i <= n && n == Product(rs)
        invariant i < n ==> coordinate[..] == Decode(rs, i)
        invariant forall k :: 0 <= k < i ==>
          buffer[k] == if IsOutOfBounds(shape, d, Decode(rs, k)) then Halo(false) else Live(defaultCellValue, defaultCellValue)
      {
        var outside := CoordinateIsOutOfBounds(coordinate);
        if outside {
          buffer[i] := Halo(false);
        } else {
          buffer[i] := Live(defaultCellValue, defaultCellValue);
        }
        IncrementCoordinate(coordinate);
        if i + 1 < n {
          NextIsSuccessor(rs, i);
        }
        i := i + 1;
      }
    }

    /** The binding pass of the constructor: point every halo cell at the
        shared default. */
    method BindHalo(buffer: array<Cell<T>>)
      requires Shaped() && buffer.Length == size + padding
      requires forall k :: 0 <= k < buffer.Length ==>
        buffer[k] == if IsOutOfBounds(shape, maxNeighborDistance, Decode(Dims(), k)) then Halo(false)
                     else Live(defaultCellValue, defaultCellValue)
      modifies buffer
      ensures buffer[..] == InitialCells(shape, maxNeighborDistance, defaultCellValue)
    {
      var n := buffer.Length;
      ghost var init := InitialCells(shape, maxNeighborDistance, defaultCellValue);
      var i := 0;
      while i < n
        invariant 0 <= i <= n
        invariant forall k :: 0 <= k < i ==> buffer[k] == init[k]
        invariant forall k :: i <= k < n ==> buffer[k] == old(buffer[k])
      {
        if CellIsOutOfBounds(buffer[i]) {
          buffer[i] := Bind(buffer[i]);
        }
        i := i + 1;
      }
    }

    /** Construction with its error paths, in the order the source raises them:
        the neighbourhood is set before any cell exists, the wrapping policy is
        applied in the second pass. */
    static method Create(shape: seq<nat>, wrapping: Wrapping, neighborhoodType: Neighborhood,
                         cellUpdate: (T, seq<T>) -> T, defaultValue: T, maxNeighborDistance: nat)
      returns (r: Result<Grid<T>>)
      requires |shape| >= 1 && maxNeighborDistance >= 1
      ensures neighborhoodType == Custom ==> r == Err(InvalidOperation)
      ensures neighborhoodType == VonNeumann ==> r == Err(NotImplemented)
      ensures neighborhoodType == Moore && wrapping == Toroidal ==> r == Err(NotImplemented)
      ensures neighborhoodType == Moore && wrapping == Bounded ==>
        && r.Ok? && fresh(r.value) && fresh(r.value.cells) && r.value.Valid()
        && r.value.shape == shape && r.value.maxNeighborDistance == maxNeighborDistance
        && r.value.rule == cellUpdate && r.value.defaultCellValue == defaultValue
        && r.value.neighborhood == MooreNeighborhood(shape, maxNeighborDistance)
        && |r.value.neighbors| == |r.value.neighborhood|
        && r.value.cells[..] == InitialCells(shape, maxNeighborDistance, defaultValue)
    {
      if neighborhoodType == Custom {
        return Err(InvalidOperation);
      } else if neighborhoodType == VonNeumann {
        return Err(NotImplemented);
      } else if wrapping == Toroidal {
        return Err(NotImplemented);
      }
      var g := new Grid(shape, wrapping, neighborhoodType, cellUpdate, defaultValue, maxNeighborDistance);
      return Ok(g);
    }

    // -------------------------------------------------------------------------
    // Reading and writing cells

    /** `getValue(coordinates)`: no extent check, only the length check of
        `getIdx`; a coordinate that lands on a halo slot reads the default. */
    method GetValue(coordinates: seq<nat>) returns (r: Result<T>)
      requires Valid()
      requires |coordinates| == numDimensions ==>
        FlatIndex(shape, maxNeighborDistance, coordinates) < cells.Length
      ensures |coordinates| != numDimensions ==> r == Err(InvalidOperation)
      ensures |coordinates| == numDimensions ==>
        r == Ok(Get(cells[FlatIndex(shape, maxNeighborDistance, coordinates)], defaultCellValue))
      ensures InExtents(shape, coordinates) ==>
        cells[FlatIndex(shape, maxNeighborDistance, coordinates)].Live?
        && r == Ok(cells[FlatIndex(shape, maxNeighborDistance, coordinates)].value)
    {
      var idx := GetIdx(coordinates);
      if idx.Err? {
        return Err(idx.error);
      }
      if InExtents(shape, coordinates) {
        InteriorCoordinateIsLive(coordinates);
      }
      return Ok(Get(cells[idx.value], defaultCellValue));
    }

    /** `setValue(coordinates, val)`: throws `out_of_range` exactly when the
        index lands on a halo slot; otherwise both buffers of that slot take the
        value. */
    method SetValue(coordinates: seq<nat>, val: T) returns (r: Outcome)
      requires Valid()
      requires |coordinates| == numDimensions ==>
        FlatIndex(shape, maxNeighborDistance, coordinates) < cells.Length
      modifies cells
      ensures Valid()
      ensures |coordinates| != numDimensions ==> r == Fail(InvalidOperation) && cells[..] == old(cells[..])
      ensures |coordinates| == numDimensions ==>
        var k := FlatIndex(shape, maxNeighborDistance, coordinates);
        && (old(cells[k]).Halo? ==> r == Fail(OutOfRange) && cells[..] == old(cells[..]))
        && (old(cells[k]).Live? ==> r == Pass && cells[..] == old(cells[..])[k := Live(val, val)])
      ensures InExtents(shape, coordinates) ==> r == Pass
    {
      var idx := GetIdx(coordinates);
      if idx.Err? {
        return Fail(idx.error);
      }
      if InExtents(shape, coordinates) {
        InteriorCoordinateIsLive(coordinates);
      }
      var cell := cells[idx.value];
      if CellIsOutOfBounds(cell) {
        return Fail(OutOfRange);
      }
      cells[idx.value] := Set(cell, val);
      assert SameLayout(old(cells[..]), cells[..]);
      return Pass;
    }

    /** The round trip of the public accessors: on an interior coordinate
        `setValue` succeeds, `getValue` then returns the value set, and no other
        slot changes. */
    method SetThenGet(coordinates: seq<nat>, val: T) returns (r: Result<T>)
      requires Valid() && InExtents(shape, coordinates)
      modifies cells
      ensures Valid() && r == Ok(val)
      ensures var k := FlatIndex(shape, maxNeighborDistance, coordinates);
        forall m :: 0 <= m < cells.Length && m != k ==> cells[m] == old(cells[m])
    {
      InteriorCoordinateIsLive(coordinates);
      var outcome := SetValue(coordinates, val);
      r := GetValue(coordinates);
    }

    // -------------------------------------------------------------------------
    // The generation step

    /** The grid's `incrementTime`: commit every slot. */
    method IncrementTime()
      requires Valid()
      modifies cells
      ensures Valid()
      ensures cells[..] == CommitAll(old(cells[..]))
    {
      var i := 0;
      while i < cells.Length
        invariant 0 <= i <= cells.Length
        invariant forall k :: 0 <= k < i ==> cells[k] == Cells.IncrementTime(old(cells[k]))
        invariant forall k :: i <= k < cells.Length ==> cells[k] == old(cells[k])
      {
        cells[i] := Cells.IncrementTime(cells[i]);
        i := i + 1;
      }
      assert cells[..] == CommitAll(old(cells[..]));
      CommitKeepsSafety(old(cells[..]), neighborhood);
      LayoutKept(old(cells[..]), cells[..]);
    }

    /** The inner loop of `update()` for interior slot i: the scratch vector
        receives the current value at every offset, in topology order. The
        buffer reads as the committed one throughout. */
    method FillNeighbors(i: nat, ghost committed: seq<Cell<T>>)
      requires AllReadable(committed) && NeighborsInside(committed, neighborhood)
      requires i < |committed| && committed[i].Live?
      requires ReadsAs(cells[..], committed, defaultCellValue)
      requires |neighbors| == |neighborhood|
      modifies this`neighbors
      ensures |neighbors| == |neighborhood|
      ensures forall m :: 0 <= m < |neighbors| ==> neighbors[m].Some?
      ensures Targets(neighbors) == Gather(committed, neighborhood, defaultCellValue, i)
    {
      var j := 0;
      while j < |neighborhood|
        invariant 0 <= j <= |neighborhood| && |neighbors| == |neighborhood|
        invariant forall m :: 0 <= m < j ==>
          neighbors[m] == Some(Gather(committed, neighborhood, defaultCellValue, i)[m])
      {
        var nidx := i + neighborhood[j];
        neighbors := neighbors[j := Some(Get(cells[nidx], defaultCellValue))];
        j := j + 1;
      }
    }

    /** The body of the compute loop of `update()` for slot i: an interior
        slot's future value becomes the rule's result on its committed value
        and its neighbours' values; a halo slot is left alone. */
    method ComputeSlot(i: nat, ghost before: seq<Cell<T>>, ghost committed: seq<Cell<T>>)
      requires AllReadable(before) && NeighborsInside(before, neighborhood)
      requires committed == CommitAll(before) && i < cells.Length == |before|
      requires cells[i] == committed[i]
      requires ReadsAs(cells[..], committed, defaultCellValue)
      requires |neighbors| == |neighborhood|
      modifies this`neighbors, cells
      ensures |neighbors| == |neighborhood|
      ensures cells[..] == old(cells[..])[i := Step(before, neighborhood, defaultCellValue, rule)[i]]
      ensures ReadsAs(cells[..], committed, defaultCellValue)
    {
      var cell := cells[i];
      StepAt(before, neighborhood, defaultCellValue, rule, i);
      if !CellIsOutOfBounds(cell) {
        FillNeighbors(i, committed);
        var futureCell := GetFuture(cell);
        ghost var prior := cells[..];
        var updated := WithFuture(cell, rule(futureCell.value, Targets(neighbors)));
        ReadsAsUpdate(prior, committed, defaultCellValue, i, updated);
        cells[i] := updated;
        assert cells[..] == prior[i := updated];
      }
    }

    /** `update()`: commit every slot, then let the rule rewrite the future
        value of every interior slot from the committed values its offsets
        reach. */
    method Update()
      requires Valid() && |neighbors| == |neighborhood|
      modifies this`neighbors, cells
      ensures Valid() && |neighbors| == |neighborhood|
      ensures cells[..] == Step(old(cells[..]), neighborhood, defaultCellValue, rule)
    {
      IncrementTime();
      ghost var committed := cells[..];
      ghost var target := Step(old(cells[..]), neighborhood, defaultCellValue, rule);
      StepKeepsHalo(old(cells[..]), neighborhood, defaultCellValue, rule);
      var i := 0;
      while i < cells.Length
        invariant 0 <= i <= cells.Length
        invariant |neighbors| == |neighborhood|
        invariant forall k :: 0 <= k < i ==> cells[k] == target[k]
        invariant forall k :: i <= k < cells.Length ==> cells[k] == committed[k]
        invariant ReadsAs(cells[..], committed, defaultCellValue)
      {
        ComputeSlot(i, old(cells[..]), committed);
        i := i + 1;
      }
      assert cells[..] == target;
      LayoutKept(old(cells[..]), target);
    }
  }
}
