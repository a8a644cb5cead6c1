# methuselah: the cellular-automaton engine, modelled in Dafny

methuselah is a header-only C++ engine for N-dimensional cellular automata.
A `Grid<T>` stores its cells in one flat buffer. The buffer is padded on every
side by a halo of width `d` (`maxNeighborDistance`), so that every interior
cell can read all of its neighbours without a range check. Halo slots hold an
`OutOfBoundsCell` that points at one shared default value (bounded wrapping).
Every interior cell is double-buffered: it has a current value and a future
value. One generation (`update`) first commits every cell (future becomes
current). It then lets a user rule rewrite each interior cell's future value
from its committed value and the committed values at its topology offsets, in
topology order. The topology is the Moore neighbourhood, built from
`generateMooreOffsets`, or a list of custom offset tuples.

The model has seven modules:

- `Errors` (errors.dfy): the exceptions the engine throws (`InvalidOperationException`,
  `NotImplementedException`, `std::out_of_range`) as error values, plus `Result`,
  `Outcome` and `Option`.
- `Cells` (cells.dfy): `Cell` and `OutOfBoundsCell` as one tagged datatype.
- `Indexing` (indexing.dfy): the padded flat indexing. This covers `multiplyAll`,
  `determinePadding`, the stride sum of `getIdx`/`getOffsetIdx`, a mixed-radix
  decoding used as the reference for the odometer `incrementCoordinate`, and
  `isOutOfBounds`.
- `Topology` (topology.dfy): `generateMooreOffsets` as written, an independent
  enumeration of {-1, 0, 1}^n, the Moore offsets, and their flat form.
- `Generation` (generation.dfy): one generation as a function of the buffer (`Step`).
- `Grids` (grid.dfy): the `Grid` class. Its cells live in an array that its
  methods update in place, and every loop of the source is a loop here. Each
  method is proved against the functions of the modules above.
- `Life` (life.dfy): the two-dimensional Game of Life rule of the demo program,
  run on the engine. The 2 x 2 block is proved to be a still life twice: on a
  2 x 2 grid, where its four cells survive, and on a 4 x 4 grid, where in
  addition none of the twelve dead cells around it comes alive.

## Model

| member | source | states |
|---|---|---|
| Cells.CellIsOutOfBounds | include/methuselah.h:42-69 | a cell reports itself out of bounds (false for `Cell` at :42, true for `OutOfBoundsCell` at :69) exactly when asking it for its future value throws |
| Cells.Get | include/methuselah.h:40-64 | `get()`: a live cell yields its current value, a halo cell the shared default it points at |
| Cells.GetFuture | include/methuselah.h:65-67 | `getFuture()` fails with InvalidOperation exactly on a halo cell; a live cell yields its future value |
| Cells.Set | include/methuselah.h:44-47 | `set(v)` makes both the current and the future value `v` |
| Cells.IncrementTime | include/methuselah.h:51-70 | a live cell's current value becomes its future value and the future is kept; a halo cell is unchanged |
| Cells.Bind | include/methuselah.h:68 | pointing a halo cell at the shared default makes it readable and keeps it a halo |
| Cells.WithFuture | include/methuselah.h:199-200 | the rule writes only the future value; the current value is untouched |
| Cells.SetIsStableUnderCommit | include/methuselah.h:44-51 | a value written with `set` survives the next commit; committing twice equals committing once |
| Cells.CommitAlignsBuffers | include/methuselah.h:51 | after a commit, the future value the rule receives equals the committed current value |
| Indexing.Product | include/methuselah.h:83-85 | `multiplyAll` of extents that are all positive is positive, so every padded box has at least one slot |
| Indexing.DeterminePadding | include/methuselah.h:97-107 | the interior volume plus the result is the volume of the shape grown by one unit at each end of every dimension |
| Indexing.PaddingAsWritten | include/methuselah.h:153 | `determinePadding(shape) * maxNeighborDistance`; for a halo of width at most one, the interior volume plus it is the padded volume |
| Indexing.FlatIndex | include/methuselah.h:283-297 | `getIdx` of a coordinate of the right length equals the Horner encoding of the shifted coordinate over the padded extents |
| Indexing.OffsetIndex | include/methuselah.h:299-313 | `getOffsetIdx` of an offset tuple of the right length equals its Horner encoding over the padded extents |
| Indexing.Next | include/methuselah.h:324-329 | one odometer step keeps the coordinate's length |
| Indexing.NextStaysInRange | include/methuselah.h:324-329 | one odometer step keeps a coordinate inside the padded box inside it |
| Indexing.OutOfBoundsIffOutsideExtents | include/methuselah.h:331-340 | `isOutOfBounds` holds of a coordinate shifted by the halo width exactly when the coordinate lies outside the grid's extents |
| Indexing.NoHaloAtZero | include/methuselah.h:331-340 | with a halo of width zero `isOutOfBounds` is false for every padded coordinate |
| Indexing.Padding | include/methuselah.h:153 | the corrected padding: interior volume plus padding equals the padded volume, the product of `shape[i] + 2d` |
| Indexing.PaddingExactAtDistanceOne | include/methuselah.h:97-107 | for `d = 1`, `determinePadding(shape) * d` is exactly the padded volume minus the interior volume |
| Indexing.PaddingExactInOneDimension | include/methuselah.h:153 | in one dimension `determinePadding * d` is correct for every `d` (2d slots) |
| Indexing.PaddingTooSmallForWideHalo | include/methuselah.h:153-154 | shape [1, 1] with d = 2: the buffer as written has 17 slots, the padded space has 25 |
| Indexing.WeightedIsEnc | include/methuselah.h:283-297 | the source's sum of `(c[i] + d) * stride(i)` equals the Horner form of the same mixed-radix number |
| Indexing.EncDecode | include/methuselah.h:283-297 | decoding a slot index and re-encoding it gives the slot index back |
| Indexing.DecodeEnc | include/methuselah.h:283-297 | encoding a padded coordinate and decoding the result gives the coordinate back |
| Indexing.EncBounds | include/methuselah.h:283-297 | every padded coordinate encodes to a slot of the buffer |
| Indexing.InteriorCoordinateLandsInside | include/methuselah.h:283-297 | `getIdx` of an interior coordinate is a buffer slot whose decoded coordinate is not out of bounds |
| Indexing.FlatIndexInjective | include/methuselah.h:283-297 | `getIdx` is injective on interior coordinates |
| Indexing.InteriorSlotHasCoordinate | include/methuselah.h:331-340 | every slot that passes the bounds test is `getIdx` of some interior coordinate: indexing is onto the interior slots |
| Indexing.NextIsSuccessor | include/methuselah.h:324-329 | one odometer step turns the padded coordinate of slot k into that of slot k + 1 |
| Indexing.DecodeZero | include/methuselah.h:161 | the all-zeros coordinate the constructor starts from is the coordinate of slot 0 |
| Indexing.OffsetStaysInBuffer | include/methuselah.h:299-313 | from an interior slot, an offset tuple within the halo width reaches a buffer slot whose coordinate is the sum of the two |
| Indexing.EncAdd | include/methuselah.h:299-313 | the flat offset of a sum of tuples is the sum of their flat offsets |
| Topology.Prefix | include/methuselah.h:122-130 | the inner loop over tails: every pushed tuple starts with the head x, and without the last-dimension filter one tuple is pushed per tail |
| Topology.Extend | include/methuselah.h:117-131 | one pass over a head x: the singleton {x} when there are no tails, otherwise the inner loop; every tuple starts with x |
| Topology.GenerateMooreOffsets | include/methuselah.h:109-133 | the recursion as written; below the top level (no filter) it yields 3^n tuples for n >= 1 |
| Topology.GenerateAllIsCube | include/methuselah.h:109-133 | without the top-level filter, `generateMooreOffsets` lists all of {-1, 0, 1}^n in the reference order |
| Topology.GenerateMatchesMoore | include/methuselah.h:109-133 | for n != 1 the top-level call yields exactly the Moore offsets |
| Topology.OneDimensionIncludesSelf | include/methuselah.h:118-121 | for n = 1 the generator yields [[-1], [0], [1]], including the cell itself, while the Moore offsets are [[-1], [1]] |
| Topology.MooreOffsetsSpec | include/methuselah.h:109-133 | the Moore offsets are the 3^n - 1 non-zero tuples over {-1, 0, 1}^n, each exactly once, in lexicographic order with dimension 0 outermost |
| Topology.CubeIsComplete | include/methuselah.h:114-131 | the reference enumeration has 3^n tuples, holds exactly the unit tuples and is strictly sorted |
| Topology.MooreOffsetsWithin | include/methuselah.h:109-133 | every Moore offset tuple has n components, each within any halo width d >= 1 |
| Topology.MooreNeighborhood | include/methuselah.h:315-322 | one flat offset per Moore tuple, 3^n - 1 of them |
| Topology.MooreNeighborhoodInBuffer | include/methuselah.h:315-322 | from an interior slot every flat Moore offset reaches a buffer slot, namely the one at the sum of the coordinates |
| Generation.Gather | include/methuselah.h:194-198 | the scratch vector for slot k: one value per offset, in topology order; every read that lands on a halo slot yields the shared default bound at :176-178 |
| Generation.Step | include/methuselah.h:189-203 | one call of `update()` keeps the buffer's length and halo/live pattern and leaves every halo slot as it was |
| Generation.CommitAll | include/methuselah.h:275-279 | the commit phase keeps the halo/live layout and leaves halo cells as they were |
| Generation.StepKeepsHalo | include/methuselah.h:189-203 | a generation leaves every halo slot unchanged and every live slot live |
| Generation.StepCommitsThenComputes | include/methuselah.h:189-203 | after `update`, a live slot's value is its old future and its future is the rule applied to that and to the committed values at its offsets, in order |
| Generation.StepKeepsCurrent | include/methuselah.h:189-203 | the compute phase writes no current value: a read after `update` returns the value committed at its start |
| Generation.StepReadsOnlyCommitted | include/methuselah.h:189-203 | the step is synchronous: it depends on the buffer only through the committed buffer |
| Generation.StepIsLocal | include/methuselah.h:194-200 | a slot's new future depends only on its own committed value and the committed values at its offsets |
| Generation.NoOpRuleIsStable | include/methuselah.h:189-203 | with a rule that keeps the value, one step settles the buffer, and a settled buffer is a fixed point |
| Generation.NoOpRuleManySteps | include/methuselah.h:189-203 | with such a rule, any number of steps from a settled buffer changes nothing |
| Grids.InitialCells | include/methuselah.h:163-186 | the freshly built buffer has one slot per padded coordinate |
| Grids.Resize | include/methuselah.h:239 | `neighbors.resize(n)`: n entries, old ones kept, new ones null |
| Grids.FirstMismatch | include/methuselah.h:244-246 | the first offset tuple of the wrong length, before which all tuples have the right length |
| Grids.Grid.GetRealDimSize | include/methuselah.h:281 | the padded extent of a dimension, at least its extent plus 2 |
| Grids.Grid.GetIdx | include/methuselah.h:283-297 | fails with InvalidOperation exactly when the length is wrong; otherwise yields the stride sum of the shifted coordinate |
| Grids.Grid.GetOffsetIdx | include/methuselah.h:299-313 | fails with InvalidOperation exactly when the length is wrong; otherwise yields the stride sum of the offset tuple |
| Grids.Grid.IncrementCoordinate | include/methuselah.h:324-329 | the new coordinate is the odometer successor of the old, so the walk visits slots in flat-index order |
| Grids.Grid.CoordinateIsOutOfBounds | include/methuselah.h:331-340 | true exactly when some component lies in the halo below or above |
| Grids.Grid.GenerateMoore | include/methuselah.h:315-322 | yields the Moore offsets converted by `getOffsetIdx`, in order |
| Grids.Grid.SetNeighborhood | include/methuselah.h:225-240 | CUSTOM fails with InvalidOperation and changes nothing; VON_NEUMANN records the type, then fails with NotImplemented; MOORE installs the Moore flat offsets and resizes the scratch vector to match |
| Grids.Grid.SetCustomNeighborhood | include/methuselah.h:242-248 | converts the tuples in order; at the first tuple of the wrong length it fails with InvalidOperation, keeping the tuples converted so far and the old scratch vector |
| Grids.Grid.constructor | include/methuselah.h:144-187 | builds a valid grid whose buffer is `InitialCells` and whose topology is the Moore neighbourhood |
| Grids.Grid.AllocateCells | include/methuselah.h:162-186 | the two passes: halo slots exactly where the decoded coordinate is out of bounds, all bound to the shared default, other slots holding the default |
| Grids.Grid.MarkCells | include/methuselah.h:162-170 | the odometer walk allocates one slot per padded coordinate, a halo cell exactly where that coordinate is out of bounds and a cell holding the default elsewhere |
| Grids.Grid.BindHalo | include/methuselah.h:172-185 | every halo cell ends up pointing at the shared default; interior cells are left as they were |
| Grids.Grid.Create | include/methuselah.h:144-187 | the constructor's errors in order: CUSTOM gives InvalidOperation, VON_NEUMANN and then TOROIDAL give NotImplemented; MOORE with BOUNDED gives a valid grid |
| Grids.Grid.GetValue | include/methuselah.h:207-209 | fails with InvalidOperation on a wrong length; otherwise reads the addressed slot, which for an interior coordinate is a live cell's value |
| Grids.Grid.SetValue | include/methuselah.h:211-219 | fails with out_of_range exactly when the slot is a halo slot; otherwise sets both buffers of that one slot; always succeeds on interior coordinates |
| Grids.Grid.SetThenGet | include/methuselah.h:207-219 | on an interior coordinate `getValue` after `setValue(v)` returns v, and no other slot changes |
| Grids.Grid.IncrementTime | include/methuselah.h:275-279 | the buffer after the loop is the commit of the old buffer |
| Grids.Grid.Update | include/methuselah.h:189-203 | the buffer after the loop is `Step` of the old buffer, and the grid stays valid |
| Grids.Grid.FillNeighbors | include/methuselah.h:195-198 | the inner loop fills every scratch entry, and the values it points at are exactly `Gather` of the committed buffer for that slot |
| Grids.Grid.ComputeSlot | include/methuselah.h:191-201 | slot i, and no other, becomes slot i of `Step`: a live slot's future is the rule applied to its committed value and the committed values its offsets reach; every slot still reads its committed value |
| Grids.Grid.LayoutKeepsNeighborsInside | include/methuselah.h:196-197 | with the buffer laid out by the constructor, no neighbour read from an interior slot leaves the buffer |
| Grids.Grid.InteriorCoordinateIsLive | include/methuselah.h:207-219 | an interior coordinate addresses a live slot of the buffer |
| Life.LifeRule | src/examples/gameOfLife.cpp:21-32 | the new state is alive exactly when three neighbours live, or the cell lives and two neighbours live |
| Life.MooreOnSquare | include/methuselah.h:315-322 | on an n x n grid with a halo of width one the flat Moore offsets are -(n+3), -1, n+1, -(n+2), n+2, -(n+1), 1, n+3, in topology order |
| Life.FlatIndexSquare | include/methuselah.h:283-297 | on an n x n grid with a halo of width one, `getIdx` of (x, y) is x + 1 + (n + 2)(y + 1) |
| Life.SquareSlot | include/methuselah.h:162-186 | slot k of a freshly built n x n grid holds a live cell with the default when its padded coordinate lies inside the grid, and is a halo slot otherwise |
| Life.MooreOnTwoByTwo | include/methuselah.h:315-322 | on a 2 x 2 grid the flat Moore offsets are [-5, -1, 3, -4, 4, -3, 1, 5] |
| Life.UncheckedCoordinateAliases | include/methuselah.h:207-219 | on a 2 x 2 grid, coordinate (4, 0) addresses the slot of interior cell (0, 1), and (2, 0) a halo slot |
| Life.BlockSlotStill | src/examples/gameOfLife.cpp:21-32 | on a 2 x 2 grid filled by the block, each slot is unchanged by one generation: every live cell sees exactly three live neighbours |
| Life.BlockIsStill | src/examples/gameOfLife.cpp:21-32 | on a 2 x 2 grid filled by the block, the four live cells survive one generation of the Life rule and the buffer is unchanged |
| Life.MooreOnFourByFour | include/methuselah.h:315-322 | on a 4 x 4 grid the flat Moore offsets are [-7, -1, 5, -6, 6, -5, 1, 7] |
| Life.FourByFourLayout | include/methuselah.h:162-186 | a freshly built 4 x 4 grid has its sixteen cells in the interior slots 7-10, 13-16, 19-22 and 25-28 of the 36, all other slots being halo |
| Life.BlockOfFourCells | include/methuselah.h:207-219 | the block coordinates (1, 1), (2, 1), (1, 2), (2, 2) lie on the 4 x 4 grid and address the block slots 14, 15, 20 and 21, which in `BlockOfFour` (a fresh grid of dead cells with those slots overwritten as `setValue(c, true)` does) hold live cells with value true |
| Life.BlockOfFourCount | src/examples/gameOfLife.cpp:21-32 | on the 4 x 4 grid with only the block alive, an interior cell has exactly three live neighbours if and only if it belongs to the block |
| Life.BlockOfFourSlotStill | src/examples/gameOfLife.cpp:21-32 | each slot of that grid is unchanged by one generation: block cells survive, no dead cell is born, halo slots stay |
| Life.BlockOfFourIsStill | src/examples/gameOfLife.cpp:21-32 | the block is a still life on the 4 x 4 grid: one generation of the Life rule leaves the whole buffer unchanged |
| Life.BlockDemo | src/examples/gameOfLife.cpp:42-77 | applies the demo's usage (`setValue` on chosen cells, `update`, `getValue` on every cell) to the 2 x 2 block instead of the demo's five-cell pattern on a 100 x 100 grid: after one `update` the four cells read back alive |

## Left out

- `TOROIDAL` wrapping and the Von Neumann neighbourhood: the source only throws
  for them, and only those error paths are modelled (`Grids.Grid.Create`,
  `Grids.Grid.SetNeighborhood`).
- Grids.Grid.constructor: requires MOORE and BOUNDED. A constructor that throws
  is modelled by `Grids.Grid.Create`, which returns the error instead of a grid.
- The constructor passes the member `neighborhoodType` to `setNeighborhood`
  (include/methuselah.h:160) before that member is ever assigned. Reading it is
  undefined behaviour. The model passes the constructor's own argument.
- The offset-list overload of `setNeighborhood` calls
  `push_back(getIdx(offset), false)` (include/methuselah.h:245), which does not
  compile. The model converts each tuple with `getOffsetIdx`, as the Moore path does.
- Grids.Grid.SetCustomNeighborhood: the grid is proved to stay valid only when
  every offset is within the halo width. The source checks nothing, and a
  farther offset makes `update` read outside the buffer.
- Grids.Grid.GetValue and Grids.Grid.SetValue: require that the coordinate
  addresses a slot of the buffer. The source indexes the vector unchecked, so
  any other coordinate is undefined behaviour. Inside the buffer neither method
  checks the extents. An out-of-extent coordinate can therefore address an
  interior cell or a halo slot (`Life.UncheckedCoordinateAliases`). A caller
  might expect a range error for an out-of-extent coordinate; the code raises
  none, and the model follows the code. A wrong coordinate length raises
  InvalidOperation, as the code does.
- Integer widths: `size_t`, `long int`, the `int` accumulator of `multiplyAll`
  and `unsigned short` are modelled as unbounded integers, so overflow is not modelled.
- `maxNeighborDistance = 0` and zero-dimensional shapes are excluded by
  preconditions. With no halo, `isOutOfBounds` is false on every slot, so every
  slot is interior and the Moore reads of a border cell in `update` index
  outside the vector (`Indexing.NoHaloAtZero`). With no dimensions
  `incrementCoordinate` indexes an empty vector.
- Grids.Grid.Update: requires the scratch vector to have one entry per offset.
  A `setNeighborhood` call with custom offsets that fails part-way leaves the
  offsets converted so far next to the old scratch vector, and the source's
  `update` still runs then: with fewer offsets than entries the rule receives
  stale trailing pointers, with more the loop writes past the vector's end.
  Neither case is modelled.
- Cells: the vector of `unique_ptr<Cell<T>>` with virtual dispatch is modelled
  as an array of tagged values. Each cell is owned by exactly one slot, so
  replacing the slot's value is the same as updating the cell in place. A halo
  cell's pointer is a flag (null or bound), and the one value it points at is
  the grid's `defaultCellValue`.
- The scratch vector `neighbors` holds pointers in the source and values here.
  During the compute phase only future values are written, so the values the
  pointers reach are the ones copied.
- The rule `std::function<void(T*, const std::vector<T*>&)>` writes through the
  future pointer. Here it is a pure function from the future value and the
  neighbour values to the new future value.
- The getters `getShape` and `getSize` are left out; the corresponding fields
  are readable constants. The helper `allZeros` is the zero-filled array the
  constructor allocates.
- Rendering, event handling, colour gradients, randomised seeding and the other
  demo rules (src/utils, src/examples) are not part of this model.

## Findings

| source | as written | input that shows it | evidently intended | confidence | as-written member | corrected member |
|---|---|---|---|---|---|---|
| include/methuselah.h:153 | `padding = determinePadding(shape) * maxNeighborDistance`, the halo volume at distance 1 times d | shape [1, 1], d = 2: 1 + 8 * 2 = 17 slots, but the padded coordinates the constructor walks and `getIdx` uses number 5 * 5 = 25 | padding = product of `shape[i] + 2d` minus product of `shape[i]` | not executed | Indexing.PaddingTooSmallForWideHalo | Indexing.Padding |
| include/methuselah.h:118-121 | the zero filter runs only inside the loop over non-empty tails, so in one dimension the all-zero tuple is kept | `generateMooreOffsets(1)` = [[-1], [0], [1]]: the cell is its own neighbour | the 3^n - 1 non-zero tuples, [[-1], [1]] for n = 1 | not executed | Topology.OneDimensionIncludesSelf | Topology.MooreOffsetsSpec |
