# Parallel HDF5 demos: row partition, block write, block read

This project models the three MPI + h5py demo scripts of the repository:

- `h5py_write_demo.py` creates a dataset of `nrows` × `ncols` values. Each of
  `nproc` ranks takes the rows `i1 = iproc*nrows // nproc` to
  `i2 = (iproc+1)*nrows // nproc - 1`. It draws a buffer of `i2 - i1` rows of
  random values, adds `1000*(iproc+1)` and assigns the result to
  `dataset[i1:i2, :]`.
- `h5py_read_demo.py` opens that dataset, computes the same `i1` and `i2`,
  reads `dataset[i1:i2, :]` and records `dataset.nbytes`.
- `h5py_simple.py` runs only when there are at most four ranks. Then it
  creates a `uint32` dataset of shape `(4,)`, and each rank stores `iproc + 1`
  at index `iproc`. Otherwise rank 0 reports an error.

The modules:

- `Partition` is the row partition, defined once and used by both parallel
  scripts.
- `Slicing` is numpy/h5py row selection with Python's slice normalisation. A
  negative bound counts from the end, and an out-of-range bound is clamped.
- `Store.Dataset` is the dataset: a class over a two-dimensional array, with
  read and assign operations.
- `WriteDemo` is one rank's write (`WriteRank`, a method on the dataset), its
  value-level effect (`RankWrite`, `Apply`) and all ranks together (`Run`).
- `ReadDemo` is one rank's read (`ReadRank`) and the blocks the ranks read.
- `Simple` is the guarded element write over a `uint32` array.

The partition formula never skips or repeats a row, for any `nrows` and
`nproc`. Each rank's `i2 + 1` is the next rank's `i1` (`Partition.Abut`), and
every row has exactly one owner (`Partition.Owner`, `Partition.OwnerUnique`).
This holds even when `nrows` is not a multiple of `nproc`; rounding is not the
cause. The rows that go missing come from the slice `[i1:i2]`, which stops
before `i2`, against the comments at `h5py_write_demo.py:48-51`, which say a
rank gets rows `i1` to `i2`. The model follows the code: that convention is
called `AsWritten`. The corrected `Inclusive` convention slices `[i1:i2+1]`.
Both are modelled, and the differences are listed under "## Findings".

## Model

| member | source | states |
|---|---|---|
| `Partition.FloorDivIsDiv` | h5py_write_demo.py:52-53 | Python's `//` on non-negative operands, as repeated subtraction, equals the floor quotient `a / n` |
| `Partition.FirstRowIsDiv` | h5py_write_demo.py:52 | `i1` is `(iproc*nrows) // nproc` |
| `Partition.LastRowIsDiv` | h5py_write_demo.py:53 | `i2` is `(iproc+1)*nrows // nproc - 1` |
| `Partition.FirstRow` | h5py_write_demo.py:52 | `i1` is never past the end of the dataset: `0 <= i1 <= nrows` (its value is given by `Partition.FirstRowIsDiv`) |
| `Partition.LastRow` | h5py_write_demo.py:53 | `i2` is `-1` at least and below `nrows`: either a row of the dataset or `-1`. Its value is given by `Partition.LastRowIsDiv`, and its relation to the next rank's `i1` by `Partition.Abut` |
| `Partition.Ends` | h5py_write_demo.py:48-53 | rank 0 starts at row 0; the last rank's `i2` is row `nrows - 1`; the formula at `iproc == nproc` gives `nrows` |
| `Partition.FirstRowMonotone` | h5py_write_demo.py:52 | a higher rank never starts before a lower one |
| `Partition.Abut` | h5py_write_demo.py:51-53 | the next rank's `i1` is exactly this rank's `i2 + 1`; `-1 <= i2 <= nrows - 1`; `i1 <= i2 + 1` |
| `Partition.NonEmptyWhenEnoughRows` | h5py_write_demo.py:52-53 | with at least as many rows as ranks, every rank gets at least one row (`i1 <= i2`) |
| `Partition.Ordered` | h5py_write_demo.py:52-53 | for ranks `p < q`, `i2` of `p` lies before `i1` of `q`: ranges are disjoint and in rank order |
| `Partition.Owner` | h5py_write_demo.py:51-53 | every row `r < nrows` lies in `[i1, i2]` of some rank `p < nproc` |
| `Partition.OwnerUnique` | h5py_write_demo.py:51-53 | row `r` is in `[i1, i2]` of rank `p` if and only if `p` is its owner: no row belongs to two ranks |
| `Slicing.Clamp` | h5py_read_demo.py:41 | one slice bound normalised the Python way: in-range bounds kept, negative ones counted from the end, out-of-range ones clamped to `0` or the length |
| `Slicing.SliceSpan` | h5py_read_demo.py:41 | the selected rows are a range inside the dataset; in-range bounds select exactly `[start, stop)`; with both bounds in range, a stop at or before the start selects nothing |
| `Slicing.Rows` | h5py_read_demo.py:41 | reading `m[start:stop, :]` returns `hi - lo` rows of the normalised span, at most `|m|`, the `k`-th being row `lo + k`; the round trips with assignment are `Slicing.AssignThenRows` and `Slicing.RowsThenAssign` |
| `Slicing.Assign` | h5py_write_demo.py:56 | a successful assignment keeps the number of rows; which assignments succeed and what every cell then holds is `Slicing.AssignCells` |
| `Slicing.AssignCells` | h5py_write_demo.py:56 | `m[start:stop, :] = v` succeeds iff `v` has the selection's shape; then selected cells hold `v`'s values in order and all others are unchanged |
| `Slicing.AssignThenRows` | h5py_write_demo.py:56 | round trip: after a successful assignment, reading the same slice returns `v` |
| `Slicing.RowsThenAssign` | h5py_read_demo.py:41 | round trip: assigning back what a slice read leaves the dataset unchanged |
| `Store.Dataset.constructor` | h5py_write_demo.py:46 | `create_dataset` fixes the shape `(nrows, ncols)` and every cell holds the fill value 0 |
| `Store.Dataset.ReadRows` | h5py_read_demo.py:41 | reading `dataset[start:stop, :]` returns exactly the normalised selection of the contents |
| `Store.Dataset.NBytes` | h5py_read_demo.py:44 | `dataset.nbytes` is the number of rows of the contents times `ncols` times the element size: the size of the whole dataset, not of a block (`ReadDemo.BlockBytesWithinTotal`) |
| `Store.Dataset.WriteRows` | h5py_write_demo.py:56 | assigning `dataset[start:stop, :] = v` succeeds iff `v` fits the selection. The new contents are the assignment's result; selected cells take `v`'s values and all other cells keep theirs. A shape mismatch changes nothing |
| `WriteDemo.Uniform` | h5py_write_demo.py:55 | `numpy.random.uniform(size=(nr, nc))` fails with a negative-dimension error iff `nr < 0`; otherwise an `nr` × `nc` buffer of the rank's draws |
| `WriteDemo.Shifted` | h5py_write_demo.py:56 | `data + 10**3*(iproc+1)` has the shape of `data` and adds the offset to every element |
| `WriteDemo.RankWrite` | h5py_write_demo.py:52-56 | a successful rank write keeps the number of rows; when it fails and what every cell then holds is `WriteDemo.RankWriteEffect` |
| `WriteDemo.Apply` | h5py_write_demo.py:52-56 | the contents after one rank keep the number of rows; every cell, failing ranks included, is `WriteDemo.ApplyCells` |
| `WriteDemo.BufferFitsSelection` | h5py_write_demo.py:54-56 | whenever the buffer can be drawn, its `stop - i1` rows are exactly as many as the slice selects, so the assignment never meets a shape mismatch |
| `WriteDemo.StopBound` | h5py_write_demo.py:52-53 | a rank's slice stops no later than the next rank's `i1`, and at exactly that row under the inclusive slice |
| `WriteDemo.RankWriteEffect` | h5py_write_demo.py:52-56 | a rank fails (negative dimension) iff `stop < i1`; otherwise cell `(i, j)` with `i1 <= i < stop` holds `draw + 1000*(iproc+1)` for buffer row `i - i1`, and every other cell is unchanged |
| `WriteDemo.ApplyCells` | h5py_write_demo.py:52-56 | every cell after one rank's run, failing ranks included: the rank's values inside its slice, the old values outside |
| `WriteDemo.SlicesDisjoint` | h5py_write_demo.py:52-56 | the raw ranges `[i1, stop)` of two distinct ranks never overlap, under either convention; every slice the write demo actually assigns therefore stays apart (a rank with `i2 == -1`, whose normalised slice `[0:-1]` would overlap, fails at `uniform` before assigning) |
| `WriteDemo.RankWritesCommute` | h5py_write_demo.py:44-56 | two distinct ranks' writes give the same contents in either order; by swapping adjacent ranks this implies, without a separate proof here, that any order of the ranks gives the result of `WriteDemo.Run` |
| `WriteDemo.Run` | h5py_write_demo.py:44-56 | running ranks `0 .. k-1` keeps the number of rows; every cell after all ranks is `WriteDemo.AllRanksEffect` |
| `WriteDemo.RunEffect` | h5py_write_demo.py:44-56 | after ranks `0 .. k-1`, rows before rank `k`'s `i1` hold their final values and the rest are untouched |
| `WriteDemo.AllRanksEffect` | h5py_write_demo.py:44-56 | after all ranks, each cell holds its owner's value if the owner's slice reaches it, otherwise its value from before the run (the fill value 0 for a freshly created dataset) |
| `WriteDemo.AsWrittenSkipsLastRows` | h5py_write_demo.py:52-56 | as written, a cell holds its old value when its row is its owner's `i2`, and its owner's written value otherwise |
| `WriteDemo.LastRowNeverWritten` | h5py_write_demo.py:53-56 | as written, row `i2` of every rank whose `i2` is a row (`0 <= i2`) is never written by any rank, whether or not that rank's own range is empty |
| `WriteDemo.InclusiveWritesEveryRow` | h5py_write_demo.py:48-56 | with the inclusive slice, every cell holds its owner's value after the run |
| `WriteDemo.InclusiveNeverFails` | h5py_write_demo.py:53-55 | with the inclusive slice no rank fails, even with fewer rows than ranks |
| `WriteDemo.AsWrittenSucceedsWithEnoughRows` | h5py_write_demo.py:52-55 | as written, no rank fails when `nproc <= nrows` |
| `WriteDemo.DefaultRunLeavesRow15` | h5py_write_demo.py:52-56 | with the default 128 rows and 8 ranks, row 15 still holds its value from before the run (the fill value 0 for a freshly created dataset) |
| `WriteDemo.FewRowsNegativeBuffer` | h5py_write_demo.py:52-55 | with 4 rows and 8 ranks, rank 0 asks numpy for `-1` rows and fails; the inclusive slice asks for 0 rows and changes nothing |
| `WriteDemo.WriteRank` | h5py_write_demo.py:52-56 | one rank run on the dataset fails iff `i2 < i1`, always with the negative-dimension error. The dataset's new contents are `Apply` of the old ones: the rank's values in its slice, and nothing changed when it fails |
| `ReadDemo.RankBlock` | h5py_read_demo.py:41 | a rank's block has at most as many rows as the dataset, each one a row of the dataset; which rows, case by case, is `ReadDemo.AsWrittenBlock` (and `ReadDemo.InclusiveBlock` for the corrected slice) |
| `ReadDemo.AsWrittenBlock` | h5py_read_demo.py:38-41 | the block read is rows `i1 .. i2-1` (`i2 - i1` of them) when `i1 <= i2`. It is empty when `0 <= i2 < i1`, and all rows but the last when `i2 == -1` |
| `ReadDemo.AsWrittenBlocksDisjoint` | h5py_read_demo.py:38-41 | for ranks whose `i2` is a row, blocks of distinct ranks are disjoint and neither holds rank `p`'s row `i2` |
| `ReadDemo.FewRowsOverlappingReads` | h5py_read_demo.py:38-41 | with 3 rows and 8 ranks, ranks 0 and 1 both read rows 0 and 1; with the inclusive slice both read nothing |
| `ReadDemo.InclusiveBlock` | h5py_read_demo.py:37-41 | with the inclusive slice a rank reads exactly rows `i1` up to the next rank's `i1` |
| `ReadDemo.InclusiveGatherPrefix` | h5py_read_demo.py:37-41 | with the inclusive slice, the blocks of ranks `0 .. k-1` in order are the rows before rank `k`'s `i1` |
| `ReadDemo.InclusiveBlocksTileDataset` | h5py_read_demo.py:37-41 | with the inclusive slice the ranks' blocks in rank order are the whole dataset, every row read once |
| `ReadDemo.ReadBackOwnWrite` | h5py_read_demo.py:38-41 | round trip with the writer: after a rank's write succeeds, the same rank's read returns exactly the rows it wrote, `draw + 1000*(iproc+1)` cell by cell |
| `ReadDemo.BlockBytesWithinTotal` | h5py_read_demo.py:41-44 | the bytes of any rank's block never exceed `dataset.nbytes` |
| `ReadDemo.ReadRank` | h5py_read_demo.py:35-44 | a rank's read takes the shape from the dataset and returns the block `dataset[i1:i2, :]`, with at most `nrows` rows of `ncols` values. The byte count is `nrows*ncols*itemsize` of the whole dataset. Nothing is modified |
| `Simple.WriteOwn` | h5py_simple.py:13 | `dataset[iproc] = iproc + 1` changes element `iproc` to `iproc + 1` and nothing else; under the guard the index is inside the dataset |
| `Simple.Writes` | h5py_simple.py:13 | the writes of the ranks in a given order leave an array of 4 elements; which element holds what is `Simple.WritesAt` |
| `Simple.WritesAt` | h5py_simple.py:12-13 | after the writes of some ranks, element `k` is `k + 1` if rank `k` wrote, otherwise its old value |
| `Simple.WritesOrderIrrelevant` | h5py_simple.py:10-13 | the contents depend only on which ranks wrote, not on the order of their writes |
| `Simple.Run` | h5py_simple.py:8-18 | a dataset exists iff `nproc <= 4`; then it has 4 elements, element `k` is `k + 1` for each rank `k < nproc` and 0 otherwise. With more ranks the list of reporting ranks is exactly `[0]`: rank 0 reports the error once and no other rank does |

## Left out

- MPI itself is not modelled: the communicator, the `mpio` driver, collective file opening and closing, and `MPI.Wtime` timing. The ranks of one run are applied one after another. For the simple demo, `Simple.WritesOrderIrrelevant` proves that any order gives the same result. For the write demo, `WriteDemo.Run` applies ranks in rank order only, and `WriteDemo.RankWritesCommute` proves that two distinct ranks commute. That any order gives the same result follows by swapping adjacent ranks, but it is not proved as a lemma.
- HDF5 and h5py internals are not modelled: file layout, chunking, dataset names and the file on disk. `h5py_serial_chunking_demo.py` is not part of this model.
- h5py's slice handling is assumed to follow Python's `slice.indices` for step 1, as numpy's does. h5py's selection code is not part of this model.
- Command-line parsing (`nrows`, `ncols`, file name) is replaced by parameters. Printing the size and the time is left out; `Simple.Run` returns the ranks that report the error instead of printing it.
- Random values come from a parameter `draw(iproc, i, j)`, which stands for the rank's seeded generator (`746574366 + iproc`). The values the generator produces are not modelled.
- Values are unbounded integers. The `float32` dataset, the `float64` buffer and the rounding on storing a value are not modelled.
- `ReadDemo.ReadRank` takes `itemsize` as a parameter; for `float32` it is 4 bytes. `dataset.nbytes` is `Store.Dataset.NBytes`, whose value is stated by `ReadDemo.ReadRank`.
- numpy broadcasting of a smaller right-hand side is not modelled; an assignment whose shape does not match fails. `WriteDemo.BufferFitsSelection` shows the scripts never reach that case.
- The `uint32` values of `h5py_simple.py` are 1 to 4 and never wrap; `Simple.U32` is the range of the type.
- `Simple.Run` requires that each of the `nproc` ranks runs exactly once, in some order. That is the launch `mpirun` performs.

## Findings

| source | as written | input that shows it | evidently intended | confidence | as-written member | corrected member |
|---|---|---|---|---|---|---|
| h5py_write_demo.py:56 | `dataset[i1:i2, :]` stops before `i2`, so row `i2` of every rank is never written | 128 rows, 8 ranks (the defaults): rows 15, 31, …, 127 keep their value from before the run (0 in a fresh dataset) | every row `i1 .. i2` written: slice `[i1:i2+1]` and a buffer of `i2 - i1 + 1` rows | not executed | `WriteDemo.DefaultRunLeavesRow15` | `WriteDemo.InclusiveWritesEveryRow` |
| h5py_write_demo.py:55 | a rank with no rows has `i2 = i1 - 1`, so `uniform(size=(i2-i1, ncols))` asks for `-1` rows and numpy raises | 4 rows, 8 ranks: rank 0 has `i1 = 0`, `i2 = -1` | a rank with no rows writes nothing | not executed | `WriteDemo.FewRowsNegativeBuffer` | `WriteDemo.InclusiveNeverFails` |
| h5py_read_demo.py:41 | when `i2 == -1`, `dataset[0:-1]` counts the stop from the end and reads all rows but the last | 3 rows, 8 ranks: ranks 0 and 1 both read rows 0 and 1, which belong to ranks 2 and 5 | each rank reads only its own rows, every row exactly once | not executed | `ReadDemo.FewRowsOverlappingReads` | `ReadDemo.InclusiveBlocksTileDataset` |
