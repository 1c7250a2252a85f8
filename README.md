# Heat-diffusion simulator: execution layer in Dafny

This project models the part of the heat-diffusion simulator that advances the temperature grid. It then proves the properties the Java code promises.

The grid is an n×n matrix of temperatures. It starts at 20.0 °C everywhere. Each enabled edge (top, bottom, left, right) is clamped at 100.0 °C. One step applies the explicit five-point finite-difference stencil to the interior, with coefficients `coefX = alpha·dt/dx²` and `coefY = alpha·dt/dy²`.

Three engines share the base simulator's buffers (`T`, `newT`, `initialT`) and its template `step()`. The step copies `T` into `newT`, lets the engine compute the interior into `newT`, clamps `newT`, and copies it back into `T`.

- **Sequential** engine: one double loop over the interior.
- **Parallel** engine: splits the interior rows into contiguous ranges, one per worker thread, and updates each range separately.
- **Distributed** engine: sends each range, with one halo row above and below, to a remote worker.
  - A missing worker, a failed call or a failed wait makes the coordinator compute that range itself.
  - `runSteps` sends batches of up to 10 steps per remote call.

The remote worker (`WorkerImpl`) keeps a cached copy of the grid. It answers single-step and multi-step block requests.

## Layout

| file | module | contents |
|---|---|---|
| `wrappers.dfy` | `Wrappers` | `Option`, `Result` |
| `matrices.dfy` | `Matrices` | matrices as `seq<seq<real>>`; `Rows` reads an `array2` as a matrix |
| `stencil.dfy` | `Stencil` | the five-point update of a band of rows, and the array loop that performs it |
| `grid_state.dfy` | `GridState` | boundary clamping, one generation and k generations; class `HeatGrid` (the base simulator's state and methods) |
| `sequential_engine.dfy` | `SequentialEngine` | class `SequentialHeatSimulator` |
| `partition.dfy` | `RowPartition` | the split of rows 1..n-2 into contiguous ranges, and its properties |
| `parallel_engine.dfy` | `ParallelEngine` | class `ParallelHeatSimulator`; any order of ranges gives the sequential result |
| `remote_worker.dfy` | `RemoteWorker` | the worker's replies as functions; class `WorkerImpl` over `array2` buffers |
| `distributed_spec.dfy` | `DistributedSpec` | the worker cache, blocks and merges, the dispatch and collect invariants, batch plans |
| `distributed_engine.dfy` | `DistributedEngine` | class `DistributedHeatSimulator` |

### How the model is built

**Buffers**
- The three buffers are `array2<real>` fields of `HeatGrid`. Java's `double[][]` rows are never shared here, so one two-dimensional array per buffer is faithful.
- Each engine holds the grid and runs the template step as `CopyTToNewT; ComputeStep; FinishStep`.

**Specification functions**
- `NextGeneration` is one step of the sequential engine, and `Generations` is k of them.
- Every engine's `Step` is proved against `NextGeneration`. The sequential and parallel `RunSteps` are proved against `Generations`. The distributed `RunSteps` is tied to `Generations` only when all computing is local and `T` starts as the clamped `newT` (see "## Left out").

**Remote calls**
- The model does not perform remote calls. Each worker's outcome is a parameter of type `CallOutcome`: `Answered`, `CallFailed` (an exception inside the submitted callable) or `WaitInterrupted` (`Future.get` throws).
- An answered call returns what the worker model computes for the extracted block.
- A submitted task is evaluated when it is submitted. This is one legal schedule.

**Integer arithmetic**
- Java's truncating `/` and `%` on the step count are written out as `TruncDiv` and `TruncRem`.

## Model

| member | source | states |
|---|---|---|
| `Stencil.UpdateWritesOnlyBand` | src/main/java/trabalhofinal/difusaocalor/simulator/SequentialHeatSimulator.java:19-26 | updating a band of rows s..e gives the five-point value `T + coefX·(down − 2T + up) + coefY·(right − 2T + left)` at every cell with s <= i <= e and 1 <= j <= n-2 and leaves every other cell of `newT` as it was |
| `Stencil.EmptyBandWritesNothing` | src/main/java/trabalhofinal/difusaocalor/simulator/DistributedHeatSimulator.java:226-228 | a band with start > end leaves `newT` unchanged |
| `Stencil.UpdateSplit` | src/main/java/trabalhofinal/difusaocalor/simulator/ParallelHeatSimulator.java:76-87 | updating rows s..k and then k+1..e gives the same `newT` as updating s..e at once |
| `Stencil.UpdateRows` | src/main/java/trabalhofinal/difusaocalor/simulator/SequentialHeatSimulator.java:19-26 | the nested loop leaves `newT` equal to the band update of its old contents read from `T`; `T` is only read |
| `Stencil.UpdateRow` | src/main/java/trabalhofinal/difusaocalor/simulator/SequentialHeatSimulator.java:20-25 | one row's interior columns get the stencil of `T`; every other cell of `newT` is kept |
| `GridState.BoundariesExact` | src/main/java/trabalhofinal/difusaocalor/simulator/AbstractHeatSimulator.java:70-83 | after clamping, a cell on an enabled edge is 100.0 and every other cell keeps its value |
| `GridState.BoundariesIdempotent` | src/main/java/trabalhofinal/difusaocalor/simulator/AbstractHeatSimulator.java:70-83 | clamping twice with the same flags is the same as clamping once |
| `GridState.NextGenerationCells` | src/main/java/trabalhofinal/difusaocalor/simulator/AbstractHeatSimulator.java:95-110 | after one step a cell on an enabled edge is 100.0, any other border cell keeps its pre-step value, and an interior cell is the stencil of the old grid |
| `GridState.UnclampedBorderPersists` | src/main/java/trabalhofinal/difusaocalor/simulator/AbstractHeatSimulator.java:95-110 | a border cell on no enabled edge keeps its initial value through any number of steps |
| `GridState.ClampedEdgeIsHot` | src/main/java/trabalhofinal/difusaocalor/simulator/AbstractHeatSimulator.java:95-110 | after one or more steps every cell on an enabled edge is 100.0 |
| `GridState.CopyAll` | src/main/java/trabalhofinal/difusaocalor/simulator/AbstractHeatSimulator.java:85-88 | the per-row `System.arraycopy` loop: the destination becomes equal to the source (also used by the copy-back in `step`, `copyToInitial`, `getTemperatureCopy` and `resetToInitialState`) |
| `GridState.CopyRow` | src/main/java/trabalhofinal/difusaocalor/simulator/AbstractHeatSimulator.java:87 | one `System.arraycopy` of a whole row: that row of the destination becomes the source's, and no other row changes |
| `GridState.FillRow` | src/main/java/trabalhofinal/difusaocalor/simulator/AbstractHeatSimulator.java:71-76 | one edge row of `applyBoundaries`: every cell of the row becomes the value, and no other cell changes |
| `GridState.FillColumn` | src/main/java/trabalhofinal/difusaocalor/simulator/AbstractHeatSimulator.java:77-82 | one edge column of `applyBoundaries`: every cell of the column becomes the value, and no other cell changes |
| `GridState.HeatGrid.constructor` | src/main/java/trabalhofinal/difusaocalor/simulator/AbstractHeatSimulator.java:31-44 | the three buffers are fresh n×n arrays, every cell is 20.0, `initialT` equals `T`, all flags are off, and the parameters are stored |
| `GridState.HeatGrid.Create` | src/main/java/trabalhofinal/difusaocalor/simulator/AbstractHeatSimulator.java:31-44 | fails exactly when n <= 0 (the IllegalArgumentException); otherwise a fresh grid with the parameters stored, flags off, `T` at 20.0 everywhere and `newT` and `initialT` equal to `T` |
| `GridState.HeatGrid.CreateWithDefaults` | src/main/java/trabalhofinal/difusaocalor/simulator/AbstractHeatSimulator.java:27-29 | the two-argument constructor: dx = dy = 1.0 and dt = 0.1; fails exactly when n <= 0, otherwise `T` is 20.0 everywhere and `newT` and `initialT` equal `T` |
| `GridState.HeatGrid.InitDefault` | src/main/java/trabalhofinal/difusaocalor/simulator/AbstractHeatSimulator.java:46-54 | every cell of `T`, `newT` and `initialT` becomes 20.0 |
| `GridState.HeatGrid.CopyToInitial` | src/main/java/trabalhofinal/difusaocalor/simulator/AbstractHeatSimulator.java:56-59 | `initialT` becomes equal to `T` |
| `GridState.HeatGrid.SetBoundaryFlags` | src/main/java/trabalhofinal/difusaocalor/simulator/AbstractHeatSimulator.java:61-68 | stores the four flags, clamps `T` with them, makes `initialT` equal the clamped `T` and leaves `newT` alone |
| `GridState.HeatGrid.ApplyBoundaries` | src/main/java/trabalhofinal/difusaocalor/simulator/AbstractHeatSimulator.java:70-83 | the matrix becomes its clamped version under the current flags |
| `GridState.HeatGrid.CopyTToNewT` | src/main/java/trabalhofinal/difusaocalor/simulator/AbstractHeatSimulator.java:85-88 | `newT` becomes equal to `T` |
| `GridState.HeatGrid.FinishStep` | src/main/java/trabalhofinal/difusaocalor/simulator/AbstractHeatSimulator.java:103-108 | `newT` is clamped and then copied into `T`, so both equal the clamped `newT` |
| `GridState.HeatGrid.GetTemperatureCopy` | src/main/java/trabalhofinal/difusaocalor/simulator/AbstractHeatSimulator.java:129-136 | returns a fresh n×n array equal to `T` and changes no state |
| `GridState.HeatGrid.CopiesAgree` | src/main/java/trabalhofinal/difusaocalor/simulator/AbstractHeatSimulator.java:129-136 | two consecutive copies are equal to each other and to `T` |
| `GridState.HeatGrid.ResetToInitialState` | src/main/java/trabalhofinal/difusaocalor/simulator/AbstractHeatSimulator.java:138-143 | `T` becomes equal to `initialT`; `initialT` is not touched |
| `SequentialEngine.SequentialHeatSimulator.constructor` | src/main/java/trabalhofinal/difusaocalor/simulator/SequentialHeatSimulator.java:8-10 | the engine runs on the given grid |
| `SequentialEngine.SequentialHeatSimulator.ComputeStep` | src/main/java/trabalhofinal/difusaocalor/simulator/SequentialHeatSimulator.java:13-28 | `newT` becomes the stencil of `T` on rows and columns 1..n-2 and keeps its old border (nothing is written when n <= 2) |
| `SequentialEngine.SequentialHeatSimulator.Step` | src/main/java/trabalhofinal/difusaocalor/simulator/AbstractHeatSimulator.java:95-110 | `T` becomes the next generation of the old `T` (stencil inside, clamped edges hot, other border cells kept) and `newT` equals `T` |
| `SequentialEngine.SequentialHeatSimulator.RunSteps` | src/main/java/trabalhofinal/difusaocalor/simulator/AbstractHeatSimulator.java:124-127 | `T` becomes the `max(steps, 0)`-th generation of the old `T` |
| `SequentialEngine.SequentialHeatSimulator.MeasureRun` | src/main/java/trabalhofinal/difusaocalor/simulator/AbstractHeatSimulator.java:145-156 | with warmup, the warmup steps are undone by the reset and the run starts from `initialT`; without it, from `T`; either way `T` ends `max(totalSteps, 0)` generations later |
| `RowPartition.ChunksShape` | src/main/java/trabalhofinal/difusaocalor/simulator/ParallelHeatSimulator.java:41-48 | the laid ranges are `count - i` in number, contiguous, start at the cursor, have `base` rows plus one for the first `rem`, and end where the sizes add up |
| `RowPartition.PartitionShape` | src/main/java/trabalhofinal/difusaocalor/simulator/ParallelHeatSimulator.java:29-50 | for n >= 3: exactly min(workers, n-2) ranges, the first starting at 1, the last ending at n-2, contiguous, sizes `interior / count` plus one for the first `interior % count` |
| `RowPartition.PartitionOfNoInterior` | src/main/java/trabalhofinal/difusaocalor/simulator/ParallelHeatSimulator.java:31-34 | for n < 3 the list of ranges is empty |
| `RowPartition.PartitionCovers` | src/main/java/trabalhofinal/difusaocalor/simulator/ParallelHeatSimulator.java:29-50 | a row lies in some range exactly when 1 <= row <= n-2 |
| `RowPartition.PartitionDisjoint` | src/main/java/trabalhofinal/difusaocalor/simulator/ParallelHeatSimulator.java:29-50 | no row lies in two different ranges |
| `RowPartition.PartitionInInterior` | src/main/java/trabalhofinal/difusaocalor/simulator/ParallelHeatSimulator.java:29-50 | every range is non-empty and lies inside rows 1..n-2 |
| `ParallelEngine.WorkerCount` | src/main/java/trabalhofinal/difusaocalor/simulator/ParallelHeatSimulator.java:24 | the worker count is `threadCount` when that is positive and 1 otherwise |
| `ParallelEngine.ApplyRangesRows` | src/main/java/trabalhofinal/difusaocalor/simulator/ParallelHeatSimulator.java:53-74 | after applying a list of ranges, a row covered by some range holds the full stencil update and every other row is untouched |
| `ParallelEngine.ApplyNextRange` | src/main/java/trabalhofinal/difusaocalor/simulator/ParallelHeatSimulator.java:58-66 | applying one more range is one more band update over the result so far |
| `ParallelEngine.ApplyRangesAnyOrder` | src/main/java/trabalhofinal/difusaocalor/simulator/ParallelHeatSimulator.java:57-73 | two range lists covering the same rows give the same `newT`, whatever their order |
| `ParallelEngine.PartitionMatchesSequential` | src/main/java/trabalhofinal/difusaocalor/simulator/ParallelHeatSimulator.java:53-74 | applying every range of the partition gives the same `newT` as the sequential engine's step |
| `ParallelEngine.ParallelHeatSimulator.constructor` | src/main/java/trabalhofinal/difusaocalor/simulator/ParallelHeatSimulator.java:22-27 | the worker count is `max(1, threadCount)` and the ranges are the partition of the grid for that count |
| `ParallelEngine.ParallelHeatSimulator.BuildRanges` | src/main/java/trabalhofinal/difusaocalor/simulator/ParallelHeatSimulator.java:29-50 | the loop builds exactly the partition (empty when n < 3) |
| `ParallelEngine.ParallelHeatSimulator.LayChunks` | src/main/java/trabalhofinal/difusaocalor/simulator/ParallelHeatSimulator.java:41-48 | the cursor loop appends the ranges of the chunk layout, in order |
| `ParallelEngine.ParallelHeatSimulator.ComputeRange` | src/main/java/trabalhofinal/difusaocalor/simulator/ParallelHeatSimulator.java:76-87 | `newT` rows start..end, columns 1..n-2, get the stencil of `T`; nothing else changes |
| `ParallelEngine.ParallelHeatSimulator.ComputeStep` | src/main/java/trabalhofinal/difusaocalor/simulator/ParallelHeatSimulator.java:53-74 | `newT` becomes the same full-interior update as the sequential engine's (unchanged when there are no ranges) |
| `ParallelEngine.ParallelHeatSimulator.Step` | src/main/java/trabalhofinal/difusaocalor/simulator/AbstractHeatSimulator.java:95-110 | `T` becomes the next generation of the old `T` and `newT` equals `T` |
| `ParallelEngine.ParallelHeatSimulator.RunSteps` | src/main/java/trabalhofinal/difusaocalor/simulator/AbstractHeatSimulator.java:124-127 | `T` becomes the `max(steps, 0)`-th generation of the old `T` |
| `ParallelEngine.ParallelHeatSimulator.MeasureRun` | src/main/java/trabalhofinal/difusaocalor/simulator/AbstractHeatSimulator.java:145-156 | as for the sequential engine: the warmup is undone, and `T` ends `max(totalSteps, 0)` generations after the starting grid |
| `RemoteWorker.ComputeBlockShape` | src/main/java/trabalhofinal/difusaocalor/rmi/WorkerImpl.java:44-48 | the reply is empty exactly for a rejected request (startRow > endRow, or a null or empty block); otherwise it has endRow-startRow+1 rows of n cells |
| `RemoteWorker.MultiStepShape` | src/main/java/trabalhofinal/difusaocalor/rmi/WorkerImpl.java:85-88 | the reply is empty exactly for a rejected request or numSteps <= 0; otherwise it has endRow-startRow+1 rows of n cells |
| `RemoteWorker.OneStepIsComputeBlock` | src/main/java/trabalhofinal/difusaocalor/rmi/WorkerImpl.java:81-138 | with numSteps = 1 the multi-step reply equals the single-step reply on the same block |
| `RemoteWorker.HaloAlternates` | src/main/java/trabalhofinal/difusaocalor/rmi/WorkerImpl.java:107-128 | after k passes the first and last rows of `current` are those of the received block when k is even and the zero rows of the second buffer when k is odd, and `next` holds the other pair |
| `RemoteWorker.PassKeepsHalo` | src/main/java/trabalhofinal/difusaocalor/rmi/WorkerImpl.java:110-121 | a pass writes neither the first nor the last row of the buffer it fills |
| `RemoteWorker.SideColumnsKept` | src/main/java/trabalhofinal/difusaocalor/rmi/WorkerImpl.java:118-120 | columns 0 and n-1 of every inner block row keep their received values through any number of passes |
| `RemoteWorker.PatchRowCells` | src/main/java/trabalhofinal/difusaocalor/rmi/WorkerImpl.java:152-157 | copying a row into the cache overwrites only that row's first `min(len, n)` cells |
| `RemoteWorker.BoundaryRowsCells` | src/main/java/trabalhofinal/difusaocalor/rmi/WorkerImpl.java:149-158 | the cache changes only in the first `min(len, n)` cells of row startRow-1 (when that row is given and startRow > 0) and of row endRow+1 (when that row is given and endRow < n-1) |
| `RemoteWorker.WorkerImpl.constructor` | src/main/java/trabalhofinal/difusaocalor/rmi/WorkerImpl.java:27-29 | a new worker has no matrix (n = 0) |
| `RemoteWorker.WorkerImpl.InitializeMatrix` | src/main/java/trabalhofinal/difusaocalor/rmi/WorkerImpl.java:31-38 | n becomes `dimension` and the cache becomes a fresh n×n copy of the matrix's leading rows and columns |
| `RemoteWorker.WorkerImpl.ComputeBlock` | src/main/java/trabalhofinal/difusaocalor/rmi/WorkerImpl.java:40-79 | returns a fresh array: the stencil over the block's rows ii, ii+1, ii+2 in the interior columns, and columns 0 and n-1 copied from block row ii+1; the cache is not touched |
| `RemoteWorker.WorkerImpl.ComputeMultipleSteps` | src/main/java/trabalhofinal/difusaocalor/rmi/WorkerImpl.java:81-138 | returns a fresh array equal to the inner rows of `current` after numSteps passes with buffer swaps; the cache and the block are not touched |
| `RemoteWorker.WorkerImpl.UpdateMatrix` | src/main/java/trabalhofinal/difusaocalor/rmi/WorkerImpl.java:140-147 | with a non-null matrix of n rows the cache becomes its n×n copy; otherwise nothing changes |
| `RemoteWorker.WorkerImpl.UpdateBoundaryRows` | src/main/java/trabalhofinal/difusaocalor/rmi/WorkerImpl.java:149-158 | the cache becomes the two-row patch of its old contents and nothing else changes |
| `RemoteWorker.WorkerImpl.PatchCachedRow` | src/main/java/trabalhofinal/difusaocalor/rmi/WorkerImpl.java:152-157 | one `System.arraycopy` into a cached row |
| `RemoteWorker.LoadBlock` | src/main/java/trabalhofinal/difusaocalor/rmi/WorkerImpl.java:93-99 | the `current` buffer is fresh and holds the first n cells of every received row |
| `RemoteWorker.RunPasses` | src/main/java/trabalhofinal/difusaocalor/rmi/WorkerImpl.java:107-128 | the buffer left in `current` holds the result of numSteps passes with swaps |
| `RemoteWorker.InteriorRows` | src/main/java/trabalhofinal/difusaocalor/rmi/WorkerImpl.java:132-135 | the reply holds rows 1..rows of the final buffer |
| `RemoteWorker.BlockRow` | src/main/java/trabalhofinal/difusaocalor/rmi/WorkerImpl.java:60-76 | one reply row: stencil in the interior columns, side cells copied from block row ii+1, other rows untouched |
| `RemoteWorker.PassInto` | src/main/java/trabalhofinal/difusaocalor/rmi/WorkerImpl.java:110-121 | one pass: `next` becomes the pass of `current` over it |
| `RemoteWorker.PassRow` | src/main/java/trabalhofinal/difusaocalor/rmi/WorkerImpl.java:111-120 | one inner row of a pass: the stencil of `current` in the interior columns and `current`'s side cells; no other cell of `next` changes |
| `RemoteWorker.CopyIntoRow` | src/main/java/trabalhofinal/difusaocalor/rmi/WorkerImpl.java:153 | one `System.arraycopy` of `count` cells into a row: exactly the row's first `count` cells change, each to the source's |
| `RemoteWorker.CopyRowFrom` | src/main/java/trabalhofinal/difusaocalor/rmi/WorkerImpl.java:134 | one `System.arraycopy` of a whole buffer row into the reply: that reply row becomes the buffer row, and no other row changes |
| `DistributedSpec.CacheAsWrittenLength` | src/main/java/trabalhofinal/difusaocalor/simulator/DistributedHeatSimulator.java:38-50 | as written, the cache has one entry per URL plus one more for every URL whose `initializeMatrix` failed |
| `DistributedSpec.FailedInitLeavesTwoEntries` | src/main/java/trabalhofinal/difusaocalor/simulator/DistributedHeatSimulator.java:41-47 | as written, a single URL whose `initializeMatrix` fails leaves the cache `[proxy, null]` |
| `DistributedSpec.ExtractedHalo` | src/main/java/trabalhofinal/difusaocalor/simulator/DistributedHeatSimulator.java:247-259 | for an interior range s..e the extracted block has e-s+3 rows, row k is row s-1+k of the grid, and it fits both worker operations |
| `DistributedSpec.MergedRowOutside` | src/main/java/trabalhofinal/difusaocalor/simulator/DistributedHeatSimulator.java:195-199 | a merge leaves every row outside s..e as it was |
| `DistributedSpec.MergedRowInside` | src/main/java/trabalhofinal/difusaocalor/simulator/DistributedHeatSimulator.java:195-199 | a merge makes row i in s..e equal reply row i-s |
| `DistributedSpec.TaskResultFits` | src/main/java/trabalhofinal/difusaocalor/simulator/DistributedHeatSimulator.java:174-186 | a task's result names its own range and, when the call answered, carries the worker's reply for the extracted block |
| `DistributedSpec.LocalSettles` | src/main/java/trabalhofinal/difusaocalor/simulator/DistributedHeatSimulator.java:168-172 | computing a range locally settles its rows at the step's value and touches no other row |
| `DistributedSpec.ReplyRowIsStep` | src/main/java/trabalhofinal/difusaocalor/simulator/DistributedHeatSimulator.java:174-180 | each row of a worker's reply for an extracted interior block equals the sequential step's row |
| `DistributedSpec.MergeSettles` | src/main/java/trabalhofinal/difusaocalor/simulator/DistributedHeatSimulator.java:195-199 | merging a worker's reply settles its rows at the sequential step's value and touches no other row |
| `DistributedSpec.CollectMerge` | src/main/java/trabalhofinal/difusaocalor/simulator/DistributedHeatSimulator.java:194-199 | merging the next reply keeps the collect-loop invariant for the remaining futures |
| `DistributedSpec.CollectLocal` | src/main/java/trabalhofinal/difusaocalor/simulator/DistributedHeatSimulator.java:200-207 | a local fallback (failed call, or failed wait over the whole interior) keeps the collect-loop invariant |
| `DistributedSpec.CollectDone` | src/main/java/trabalhofinal/difusaocalor/simulator/DistributedHeatSimulator.java:192-208 | when every future is collected, every row is settled |
| `DistributedSpec.SettledRowsAreStep` | src/main/java/trabalhofinal/difusaocalor/simulator/DistributedHeatSimulator.java:143-209 | when every row is settled and `newT` started as a copy of `T`, `newT` is the sequential step's `newT` |
| `DistributedSpec.NextChunk` | src/main/java/trabalhofinal/difusaocalor/simulator/DistributedHeatSimulator.java:156-163 | while i < workers and cur <= n-2, the chunk is at least 1 row, ends by n-2, and the ranges so far plus this one are the partition's first i+1 ranges |
| `DistributedSpec.ChunkIsNext` | src/main/java/trabalhofinal/difusaocalor/simulator/DistributedHeatSimulator.java:157-163 | the chunk computed from `base` and `rem` is the next range of the partition |
| `DistributedSpec.CursorExit` | src/main/java/trabalhofinal/difusaocalor/simulator/DistributedHeatSimulator.java:157-190 | when the loop stops, the ranges visited are exactly the parallel engine's partition for the same worker count, and cur = n-1 |
| `DistributedSpec.ChunkSizeAgrees` | src/main/java/trabalhofinal/difusaocalor/simulator/DistributedHeatSimulator.java:150-158 | dividing by the number of workers gives the same chunk sizes as dividing by min(workers, interior), as the parallel engine does |
| `DistributedSpec.RoundsAdd` | src/main/java/trabalhofinal/difusaocalor/simulator/DistributedHeatSimulator.java:59-62 | a rounds of local compute and swap followed by c more are a + c rounds |
| `DistributedSpec.RoundIsNextGeneration` | src/main/java/trabalhofinal/difusaocalor/simulator/DistributedHeatSimulator.java:59-62 | one round of local compute and swap over the whole interior, on a grid whose `T` is the clamped `newT`, gives the next generation |
| `DistributedSpec.RoundsAreGenerations` | src/main/java/trabalhofinal/difusaocalor/simulator/DistributedHeatSimulator.java:57-64 | k whole-interior rounds give the k-th generation and keep `T` equal to the clamped `newT` |
| `DistributedSpec.MergeNextReply` | src/main/java/trabalhofinal/difusaocalor/simulator/DistributedHeatSimulator.java:109-116 | merging the next batch reply keeps the rows of the earlier replies and rows 0 and n-1 |
| `DistributedSpec.BatchCount` | src/main/java/trabalhofinal/difusaocalor/simulator/DistributedHeatSimulator.java:211-224 | the number of batches is `steps / 10` plus one when `steps % 10 > 0` (Java division), the batches cover exactly `max(steps, 0)` steps, and there is at least one batch exactly when steps >= 1 |
| `DistributedSpec.TruncSplit` | src/main/java/trabalhofinal/difusaocalor/simulator/DistributedHeatSimulator.java:214-215 | Java's `/` and `%` by 10 split `steps` as 10·q + r, with 0 <= r < 10 for steps >= 0 and q, r <= 0 for negative steps |
| `DistributedSpec.LocalRunIsGenerations` | src/main/java/trabalhofinal/difusaocalor/simulator/DistributedHeatSimulator.java:211-224 | when all computing is local and `T` starts as the clamped `newT`, the batched run gives the `max(steps, 0)`-th generation |
| `DistributedSpec.BatchPlan` | src/main/java/trabalhofinal/difusaocalor/simulator/DistributedHeatSimulator.java:211-224 | every batch size is in 1..10, all but the last are 10, and they sum to `max(steps, 0)` |
| `DistributedEngine.DistributedHeatSimulator.constructor` | src/main/java/trabalhofinal/difusaocalor/simulator/DistributedHeatSimulator.java:30-36 | one cache entry per URL, in URL order, null exactly when lookup or `initializeMatrix` failed, otherwise a proxy for that URL |
| `DistributedEngine.DistributedHeatSimulator.InitializeWorkers` | src/main/java/trabalhofinal/difusaocalor/simulator/DistributedHeatSimulator.java:38-50 | the corrected loop: one entry per URL, null exactly when the connection did not complete |
| `DistributedEngine.DistributedHeatSimulator.LocalCompute` | src/main/java/trabalhofinal/difusaocalor/simulator/DistributedHeatSimulator.java:226-239 | `newT` rows start..end, columns 1..n-2, get the stencil of `T`; nothing when start > end |
| `DistributedEngine.DistributedHeatSimulator.SwapBuffersManually` | src/main/java/trabalhofinal/difusaocalor/simulator/DistributedHeatSimulator.java:134-140 | `T` becomes the clamped copy of `newT` |
| `DistributedEngine.DistributedHeatSimulator.ExtractBlock` | src/main/java/trabalhofinal/difusaocalor/simulator/DistributedHeatSimulator.java:247-259 | bounds are clamped to 0..n-1; an empty block when start > end, otherwise copies of grid rows start..end; the matrix is not changed |
| `DistributedEngine.RowOf` | src/main/java/trabalhofinal/difusaocalor/simulator/DistributedHeatSimulator.java:256 | the row copy made for a block equals the matrix's row |
| `DistributedEngine.DistributedHeatSimulator.MergeRows` | src/main/java/trabalhofinal/difusaocalor/simulator/DistributedHeatSimulator.java:195-199 | `newT` rows s..e become the reply rows, all n columns; no other row changes |
| `DistributedEngine.DistributedHeatSimulator.ComputeStep` | src/main/java/trabalhofinal/difusaocalor/simulator/DistributedHeatSimulator.java:143-209 | whatever each call does, every row of `newT` ends settled; when `newT` starts as a copy of `T`, `newT` ends equal to the sequential engine's |
| `DistributedEngine.DistributedHeatSimulator.Dispatch` | src/main/java/trabalhofinal/difusaocalor/simulator/DistributedHeatSimulator.java:155-190 | walks the inline partition, computing ranges of null workers locally and submitting the others; every future matches its range |
| `DistributedEngine.DistributedHeatSimulator.DispatchRange` | src/main/java/trabalhofinal/difusaocalor/simulator/DistributedHeatSimulator.java:164-189 | a null entry computes the range locally and a proxy submits a task; the dispatch invariant moves past the range |
| `DistributedEngine.DistributedHeatSimulator.SubmitRange` | src/main/java/trabalhofinal/difusaocalor/simulator/DistributedHeatSimulator.java:174-188 | the future fails exactly on a failed wait; otherwise it carries a reply exactly when the call answered |
| `DistributedEngine.DistributedHeatSimulator.Collect` | src/main/java/trabalhofinal/difusaocalor/simulator/DistributedHeatSimulator.java:192-208 | merges answered replies and computes the rest locally until every row is settled |
| `DistributedEngine.DistributedHeatSimulator.Step` | src/main/java/trabalhofinal/difusaocalor/simulator/AbstractHeatSimulator.java:95-110 | with the distributed computeStep, `T` still becomes the next generation of the old `T`, whatever the workers do |
| `DistributedEngine.DistributedHeatSimulator.RunSteps` | src/main/java/trabalhofinal/difusaocalor/simulator/DistributedHeatSimulator.java:211-224 | after at least one batch `T` is the clamped `newT`; with no steps nothing changes; with no interior or no workers, and `T` starting as the clamped `newT`, the run gives the `max(steps, 0)`-th generation; the sizes of the batches it runs, in order, are exactly `BatchSizes(steps)` (`steps/10` tens, then the positive remainder), which `BatchPlan` and `BatchCount` characterise |
| `DistributedEngine.DistributedHeatSimulator.FullBatches` | src/main/java/trabalhofinal/difusaocalor/simulator/DistributedHeatSimulator.java:217-219 | runs exactly `max(count, 0)` batches, each of size 10; with all computing local that is 10·count whole-interior rounds |
| `DistributedEngine.DistributedHeatSimulator.LocalRounds` | src/main/java/trabalhofinal/difusaocalor/simulator/DistributedHeatSimulator.java:59-62 | k rounds of local compute over s..e followed by a swap |
| `DistributedEngine.DistributedHeatSimulator.ComputeStepBatch` | src/main/java/trabalhofinal/difusaocalor/simulator/DistributedHeatSimulator.java:56-132 | ends with `T` the clamped `newT`; on the local path it is batchSize rounds; when every call answers, `newT` holds every range's multi-step reply and keeps rows 0 and n-1 |
| `DistributedEngine.DistributedHeatSimulator.DispatchBatch` | src/main/java/trabalhofinal/difusaocalor/simulator/DistributedHeatSimulator.java:66-107 | submits one task per range; when every call answers, no state changes, the ranges are the partition, and each future carries its batch reply |
| `DistributedEngine.DistributedHeatSimulator.BatchRange` | src/main/java/trabalhofinal/difusaocalor/simulator/DistributedHeatSimulator.java:84-105 | a null entry runs batchSize local rounds on its range; a proxy submits a task and changes nothing |
| `DistributedEngine.DistributedHeatSimulator.BatchTask` | src/main/java/trabalhofinal/difusaocalor/simulator/DistributedHeatSimulator.java:93-103 | an answered call gives the worker's multi-step reply for the extracted block, a failed call gives no block, and a failed wait gives a failing future |
| `DistributedEngine.DistributedHeatSimulator.CollectBatch` | src/main/java/trabalhofinal/difusaocalor/simulator/DistributedHeatSimulator.java:109-129 | when every future carries its reply, `newT` holds all the replies, keeps rows 0 and n-1, and `T` is unchanged |

## Left out

- Floating point: temperatures and coefficients are `real`. IEEE rounding, and the NaN/Infinity that `dx = 0` or `dy = 0` would give, are not modelled. So `GridState.HeatGrid.Valid`, the `HeatGrid` constructor, `HeatGrid.Create` and every member that computes coefficients require `dx != 0` and `dy != 0`, although the Java constructor accepts zero.
- Java `int` overflow of `n`, row indices and step counts is not modelled. Integers are unbounded.
- Timing: `measureRunSeconds` reads `System.nanoTime`. `MeasureRun` models its effect on the grid, not the seconds it returns.
- Concurrency: thread pools, `CountDownLatch`, `synchronized (bufferLock)` and `shutdown()` are left out. The parallel ranges are applied one after another (`ParallelEngine.ApplyRangesAnyOrder` shows that the order does not matter). Remote tasks are evaluated when they are submitted.
- `ParallelEngine.ParallelHeatSimulator.ComputeStep`: the `RuntimeException` thrown when `latch.await()` is interrupted is not modelled.
- RMI plumbing is left out: `Naming.lookup`, `RemoteException`, the worker server and the `Worker` interface. Whether a connection and its `initializeMatrix` succeed is the `Connect` parameter.
- `DistributedSpec.TaskResult` and `DistributedSpec.BatchTaskResult` assume one coordinator per worker: a live worker's `n` is the coordinator's `n`, set by `initializeMatrix` at connection time. `computeBlock` and `computeMultipleSteps` size their replies by the worker's own `n`, so a worker re-initialised with another size would not give the modelled reply. With a smaller `n` its reply rows are too short, and the merge's `System.arraycopy` of `n` cells throws outside the caught exceptions. With a larger `n` the worker itself throws while reading the block, and the coordinator treats that as a failed call and computes the range locally. Neither case is modelled. The rest of the worker's cached grid is never read by either call.
- Messages written to `System.err` are left out.
- `preStepHook` and `postStepHook` are empty and are left out.
- The getters `getSize` and `getDt` are left out.
- The varargs constructor of the distributed engine and the parallel engine's default thread count are left out; they only forward their arguments.
- The distributed engine's `measureRunSeconds` is not modelled. Its warmup uses `step()` but its timed run uses the batched `runSteps`, and nothing relates the batched run to generations when remote workers answer.
- `DistributedEngine.DistributedHeatSimulator.ComputeStepBatch`: stated only for the all-local path and for the case where every call answers.
  - The batch path never copies `T` into `newT` before a batch.
  - A multi-step worker's passes alternate between the received halo rows (odd-numbered passes) and the zero rows of its second buffer (even-numbered passes), as `RemoteWorker.HaloAlternates` states.
  - Null entries and fallbacks swap the whole buffer while other ranges are still pending.
  - So the batched run has no generation-level statement in general.
- `DistributedEngine.DistributedHeatSimulator.RunSteps`: equal to the generations only when all computing is local and `T` starts as the clamped `newT`. With remote workers, it states only that `T` ends as the clamped `newT` and which batches run. The start condition matters: the batch path never copies `T` into `newT`. Suppose a top edge is clamped with `setBoundaryFlags`, one batch runs, the flag is then turned off and another batch runs. The final swap copies `newT`'s stale 20.0 over the top row, while a generation would keep the 100.0 there.
- `DistributedEngine.DistributedHeatSimulator.DispatchBatch`: a task evaluated at submission reads `T` before any later null entry's local rounds rewrite it. In the Java code the callable may run after them and read the rewritten rows.
- `RemoteWorker.WorkerImpl.ComputeBlock` and `RemoteWorker.WorkerImpl.ComputeMultipleSteps` require an initialised worker (n >= 1) and a block with at least endRow-startRow+3 rows of at least n cells (`BlockFits`, `MultiStepFits`), because the coordinator always sends exactly that many. An uninitialised worker throws in Java, which the coordinator sees as a failed call. Other blocks are not modelled: some make Java throw, others are accepted (with endRow-startRow+2 rows, `computeMultipleSteps` returns the last block row as its last reply row when numSteps is even, and a row of zeros when it is odd, and with n <= 2 `computeBlock` reads no neighbour row, so a block of endRow-startRow+2 rows is accepted too).
- `RemoteWorker.WorkerImpl.InitializeMatrix` requires `dimension >= 0` and a matrix of at least that many rows and columns. The exceptions Java raises otherwise are not modelled.
- `RemoteWorker.WorkerImpl.UpdateMatrix` requires each row of an n-row matrix to have at least n cells, which `System.arraycopy` needs.
- `RemoteWorker.WorkerImpl.UpdateBoundaryRows` requires the patched row indices to be inside the cache. Java would throw otherwise.
- `DistributedEngine.DistributedHeatSimulator.constructor` models the corrected cache (see Findings), not the as-written double entry.

## Findings

| source | as written | input that shows it | evidently intended | confidence | as-written member | corrected member |
|---|---|---|---|---|---|---|
| src/main/java/trabalhofinal/difusaocalor/simulator/DistributedHeatSimulator.java:41-47 | the proxy is added to `workerCache` before `w.initializeMatrix(T, n)`; when that call throws, the catch adds `null` as well, so that URL gets two entries and every later worker's index shifts by one | one URL whose lookup succeeds and whose `initializeMatrix` throws: the cache is `[proxy, null]` for a single URL | one entry per URL, `null` exactly when the lookup or `initializeMatrix` failed (add the proxy after the call succeeds) | not executed | `DistributedSpec.FailedInitLeavesTwoEntries` | `DistributedEngine.DistributedHeatSimulator.InitializeWorkers` |
