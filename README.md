# heat2dPara index scheme in Dafny

This project models the integer index scheme of `heat2dPara.c`, a row-partitioned,
multi-threaded solver for the steady-state temperature of an M x N plate. It covers three
pieces of that file.

- **Row partitioner.** This is the loop in `main` that prepares the threads. It computes
  `step = ceil(M/T)`, walks `start`/`end` across the T threads and tags each thread
  TOP, MID, BOT or WHOLE. It builds each thread's local row table `threadU` and records
  `copyStart`, `copyEnd` and the local height `param->M`. In `partition.dfy` (module
  `Partition`), a table entry is a tagged value:
  - `Owned(g)` aliases global row g of the shared grid;
  - `Ghost` stands for a privately allocated ghost row.

  `PartitionRows` runs the loop and returns the array of descriptors. The closed form
  `Describe` states what the loop produces for thread k.
- **One iteration of `heat2dSolvePara`.** Each iteration has two phases.
  - In the copy phase, a thread copies global row `copyEnd` into its ghost row below and
    row `copyStart-1` into its ghost row above.
  - In the stencil loop, the thread overwrites local rows `1 .. localM-2` and columns
    `1 .. N-2` of its table in place.

  In `relaxation.dfy` (module `Relaxation`), a thread is a `Worker` object. Its fields
  are the shared `array2` grid, its descriptor and its two ghost-row buffers. The
  averaging arithmetic is a parameter `relax(north, south, west, east)`, so the cell
  type stays generic. `Round` runs the copy phase of every thread, then the stencil loop
  of every thread. It proves that the grid afterwards is `RoundResult` of the grid
  before, which is a function of the grid alone.
- **`initialize_plate`.** In `plate.dfy` (module `Plate`), this fills the border in the
  source's overwrite order and the interior with the mean of the border. The mean's
  `+` and `/` are the parameters `add` and `divide`.

These behaviours of the code are modelled as written:

- With one thread the position is WHOLE and the local height stays 0. The stencil loop
  then writes nothing (`WholeWritesNothing`), and an iteration leaves the grid as it was.
- TOP's `end` is never clamped. It never needs to be, because `step <= M`.
- Once the advanced `end` of a thread after thread 0 reaches M (T >= 2, M >= 1), that thread and
  every later one are BOT with `end` clamped to M. Thread 0 stays TOP even when its `end`
  is M, and a single thread stays WHOLE.
  - A surplus thread gets the empty block `[M, M)`.
  - Its `copyStart` is therefore `min(k*step, M)`, not `k*step`.
- With an empty grid (M = 0) the step is 0 and every block starts at row 0. With two
  threads or more, every thread is then TOP (`EmptyGridTags`).
- TOP's copy reads `u[copyEnd]`, which lies inside the grid only when M >= 2. The copy
  phase therefore requires M >= 2 whenever T > 1.
- The stencil updates the shared grid in place, in row-major order. A cell sees its
  north and west neighbours as already updated and its south and east neighbours as
  not yet updated. `RelaxedIsInPlaceSweep` and `RelaxedUnique` characterise this.
- Across a block boundary, the first row of a block reads the ghost copy that was taken
  before the iteration (`RoundStep`).
- The mean divides by `2M + 2N - 4`. This is the number of terms added when M >= 2.
  - With one row, row 0 is also row M-1, and the mean adds two terms more than the
    divisor counts.
  - With no rows, it adds four more (`MeanDivisor`).
  - In both cases the interior is empty, so the mean is never stored.

Running the threads of a phase one after the other in rank order gives the same grid
as running them concurrently, provided the barrier keeps the phases apart. The copy phase writes only private ghost buffers. In the
stencil phase, each thread writes only cells of its own block (`NoCrossWrites`). It
reads only its own block, the plate's border and its ghost copies. `Round` relies on
this.

## Model

| member | source | states |
|---|---|---|
| `Partition.Step` | heat2dPara.c:127 | the step is the ceiling of M/T: `M <= step*T` and `(step-1)*T < M` |
| `Partition.StepBounds` | heat2dPara.c:127 | `step <= M`; the step is positive exactly when M is; it equals M for one thread; it is below M for T >= 2 and M >= 2 |
| `Partition.MapRows` | heat2dPara.c:158-159 | the mapping loop makes table entries `from ..` aliases of global rows `start .. end-1`, in order, and leaves every other entry unchanged |
| `Partition.PlaceThread` | heat2dPara.c:140-202 | one pass of the partition loop, starting from the previous thread's `end`, yields exactly `Describe(M, T, thread)` and the next `end = min((thread+1)*step, M)` |
| `Partition.PartitionRows` | heat2dPara.c:126-215 | the loop records for every thread k the descriptor `Describe(M, T, k)` (position, copyStart, copyEnd, local height, row table), for any M including 0 |
| `Partition.CopyRange` | heat2dPara.c:142-143 | thread k's block is `[min(k*step, M), min((k+1)*step, M))` |
| `Partition.RangesTile` | heat2dPara.c:142-169 | the blocks start at 0, end at M, each ends where the next begins, and none is reversed |
| `Partition.RowOwner` | heat2dPara.c:142-202 | every row g in `[0, M)` lies in exactly one block, that of thread `g / step < T` |
| `Partition.PositionTags` | heat2dPara.c:144-197 | for M >= 1: WHOLE iff T = 1, with local height 0; TOP iff k = 0; BOT iff k >= 1 and `(k+1)*step >= M`, with end M; MID otherwise; a thread starting at or past M is BOT with block `[M, M)`; the last thread is BOT |
| `Partition.EmptyGridTags` | heat2dPara.c:127-161 | with M = 0 every block is `[0, 0)`; one thread is WHOLE with local height 0; with T >= 2 every thread is TOP with the single ghost row |
| `Partition.BotIsSuffix` | heat2dPara.c:167-169 | once a thread is BOT, every later thread is BOT |
| `Partition.TableLayout` | heat2dPara.c:150-208 | each table is well laid out (owned entry a aliases row `Base + a` inside the block; ghosts only first for BOT/MID and last for TOP/MID); outside WHOLE the local height is the block length plus one per ghost row |
| `Partition.GhostSources` | heat2dPara.c:289-306 | the copy sources `copyEnd` and `copyStart-1` are the first and last rows of the neighbouring blocks; they lie in `[0, M)` when M >= 2, and TOP's `copyEnd` is past the grid when M = 1 |
| `Partition.TableIsWindow` | heat2dPara.c:150-211 | a table covers the consecutive grid rows `Base .. Base+localM-1`, inside the grid, including its block; its ghost row below stands for row `copyEnd` |
| `Partition.OwnerRow` | heat2dPara.c:150-196 | with T >= 2, a row of thread k's block sits at local index `g - Base` as an owned entry, never a ghost |
| `Partition.InteriorInWindow` | heat2dPara.c:325-328 | an interior row of a block lies strictly inside the thread's local rows, and a block's first interior row has a ghost row above it |
| `Partition.StencilRowsOwned` | heat2dPara.c:325-332 | every stencil access `threadU[i±1][j]`, `threadU[i][j±1]` is within the table, and every written local row is an owned grid row, never a ghost |
| `Partition.WrittenCells` | heat2dPara.c:325-332 | with T >= 2 and M >= 2, thread k writes cell (g, c) iff `1 <= g <= M-2`, `1 <= c <= N-2` and `g / step == k` |
| `Partition.InteriorWrittenOnce` | heat2dPara.c:325-332 | across all threads the written cells are exactly the plate interior, and no cell is written by two threads |
| `Partition.NoCrossWrites` | heat2dPara.c:325-332 | no thread writes a cell of another thread's block |
| `Partition.WholeWritesNothing` | heat2dPara.c:144-148 | with one thread the stencil loop writes no cell |
| `Relaxation.RelaxAt` | heat2dPara.c:331-332 | one stencil step changes only cell (i, j), which becomes `relax` of its four current neighbours |
| `Relaxation.SweepRowsFrame` | heat2dPara.c:325-332 | after k rows of the sweep, only cells in rows `1 .. k`, columns `1 .. N-2` differ from the start |
| `Relaxation.RelaxedKeepsFrame` | heat2dPara.c:325-332 | a full sweep keeps the first and last local rows and the first and last columns |
| `Relaxation.SweepRowsValues` | heat2dPara.c:325-332 | after k rows, each swept cell is `relax` of its updated north and west and its original south and east neighbours |
| `Relaxation.RelaxedIsInPlaceSweep` | heat2dPara.c:325-332 | the full sweep satisfies the in-place relaxation equation at every interior cell |
| `Relaxation.RelaxedUnique` | heat2dPara.c:325-332 | any view that keeps the frame and satisfies the in-place equations is the sweep: the equations determine the result |
| `Relaxation.RoundKeepsBorder` | heat2dPara.c:283-358 | an iteration never changes row 0, row M-1, column 0 or column N-1 |
| `Relaxation.RoundStep` | heat2dPara.c:289-332 | with T >= 2 an interior cell becomes `relax` of its updated west, its old south and east, and its updated north, except on a block's first row, where north is the old value copied into the ghost row |
| `Relaxation.Worker.constructor` | heat2dPara.c:201-211 | a thread set up from its descriptor is valid, with ghost buffers of the grid's width exactly where its position has ghost rows |
| `Relaxation.Worker.CopyRow` | heat2dPara.c:296-297 | the buffer holds the grid row element by element |
| `Relaxation.Worker.CopyGhosts` | heat2dPara.c:289-306 | the ghost row below equals row `copyEnd` for TOP/MID; the one above equals row `copyStart-1` for BOT/MID; both rows lie in the grid; the grid is unchanged; the local view is the window of grid rows around the block |
| `Relaxation.Worker.ShowsWindow` | heat2dPara.c:289-306 | once the ghost buffers hold rows `copyStart-1` and `copyEnd`, the table reads as the window of consecutive grid rows |
| `Relaxation.Worker.RelaxCell` | heat2dPara.c:330-332 | the step writes exactly one grid cell, through an owned row, and the view becomes `RelaxAt` of the old view |
| `Relaxation.Worker.SweepLocalRow` | heat2dPara.c:328-340 | the inner loop leaves the view with local row i swept and changes only cells the thread writes |
| `Relaxation.Worker.Sweep` | heat2dPara.c:325-341 | the stencil loop leaves the view `Relaxed(v)` and changes only cells `Writes` names for this thread |
| `Relaxation.CopyPhase` | heat2dPara.c:289-316 | after every thread's copy phase the grid is unchanged and each thread sees its window of it |
| `Relaxation.StencilPhase` | heat2dPara.c:316-357 | after every thread's stencil loop, each thread sees the sweep of its window, and cells no thread writes keep their values |
| `Relaxation.Round` | heat2dPara.c:283-358 | one iteration of all threads leaves the grid `RoundResult` of the grid before it |
| `Plate.MeanDivisor` | heat2dPara.c:441-452 | the divisor `2M+2N-4` equals the number of terms added iff M >= 2; it is 2 short with one row and 4 short with none |
| `Plate.AddSides` | heat2dPara.c:442-446 | the first mean loop adds the left and right border values of rows `1 .. M-2`, in order |
| `Plate.AddEdges` | heat2dPara.c:447-451 | the second mean loop adds the top and bottom border values of every column, in order |
| `Plate.BorderMean` | heat2dPara.c:441-452 | the mean is the ordered sum of all border terms divided by `2M+2N-4` |
| `Plate.InitializePlate` | heat2dPara.c:423-464 | rows 0 and M-1 hold Tt and Tb (corners included, Tb winning when M = 1); columns 0 and N-1 of rows `1 .. M-2` hold Tl and Tr; every interior cell holds the same mean |

## Left out

- `barrier.c`, `barrier.h` and `barrierTest.c`, and the barrier calls at heat2dPara.c:316 and 357. The phases are modelled as the threads of each phase running in rank order, which gives the same grid as running them concurrently (see above), provided the barrier separates the phases. `barrier.c:18` does not re-check a release condition after `pthread_cond_wait` returns, so a spurious wake-up would let a thread leave the barrier at heat2dPara.c:316 early and write rows a neighbour is still copying; the model does not capture that.
- The mutex-protected `globalDiff` reduction, the `fabs` deltas, the local `diff` maximum, the iteration counter and its printing (heat2dPara.c:318-319, 334-355). These are floating-point convergence bookkeeping.
- The `while (eps <= globalDiff)` loop (heat2dPara.c:283). `Round` models one iteration; the loop repeats it until a floating-point test fails.
- Floating point. The neighbour average `/ 4.0` is the parameter `relax`, and the mean's `+=` and `/` are the parameters `add` and `divide`.
- `Partition.Step`: `(int) ceil((double) M / (double) T)` is modelled as integer ceiling division. The two agree for all `int` operands, because a non-integral quotient is farther from an integer than the rounding error.
- Integer width: `int` overflow of `end += step` or of `2 * M + 2 * N - 4` is not modelled. It can happen only when M + N >= 2^30: `2 * M + 2 * N` passes `INT_MAX` from there on, and `end += step` needs M > 2^30.
- The `memcpy` before each copy loop (heat2dPara.c:295, 303). It is followed by an element loop with the same effect, and only the loop is modelled.
- Argument parsing, `usage`, console printing, `cpu_time`, the output file, `print` and `Hello`: I/O and timing.
- `pthread_create`/`pthread_join`, `malloc`/`free`, and the unused `rowPrev`/`rowCurr` buffers: thread and allocation plumbing. Ghost buffers are allocated in `Worker.constructor` rather than inside the partition loop.
- The `Param` fields `eps`, `print`, `tol` and `iter`, which only serve the convergence loop.
- `Plate.InitializePlate` requires `N >= 1` when `M >= 3`, and `M >= 1` when `N >= 1`. Without them `u[i][N-1]` or `u[M-1][j]` indexes outside the grid.
