# Box smoothing of a square grid (ompsmooth)

This project models the OpenMP box smoother of `ompsmooth.c`. A grid of
dim x dim values is stored row-major in one flat buffer, so cell (x, y) sits at
slot `y*dim + x`. The kernel `evaluate` replaces a cell by the mean of the
cells of the (2h+1) x (2h+1) window centred on it, where h is the half-width.
Only cells that fall inside the grid are averaged, so the divisor shrinks near
edges and corners. Five traversal routines write the kernel into every cell of
an output buffer:

- two serial ones, row-major (`YX`) and column-major (`XY`);
- three OpenMP ones: over rows, over columns, and over a flattened index `a`
  that is decoded into `y = a / dim`, `x = a - y*dim`.

Two pipelines smooth two grids: `program1` makes two passes, and `program2`
fuses both grids into one flattened loop.

The project has three modules.

- `Indexing` (indexing.dfy) holds the row-major flat index and its decoding.
- `Window` (window.dfy) is the specification, made of pure functions over a
  `seq<real>`:
  - `RowSum`/`RowCount` and `WindowSum`/`WindowCount` fold the kernel's sum and
    cell count in its own scan order;
  - `Smoothed` is their quotient;
  - `SmoothGrid` is the whole output grid.

  Lemmas about that specification:
  - the cell count factors into one count per axis;
  - the cell count is at least 1, is exactly (2h+1)^2 in the interior, and is
    smaller near an edge;
  - smoothing is a mean: it is monotone in the grid, leaves a constant grid
    unchanged, and so stays within the range of the input;
  - on a linear grid p*x + q*y, smoothing evaluates the same linear function at
    the centre of the clipped window (`LinearSmoothed`), and that centre is the
    midpoint of the valid coordinates of each axis (`CentreMidpoint`). This
    gives the driver's "pattern is preserved" claim in the interior, its
    failure at the corner, and the values of a grid holding its own flat index
    (for dim = 4 and h = 1: 2.5, 3.0, 5.0 and 12.5 at (0, 0), (1, 0), (1, 1)
    and (3, 3), stated together as `Scenario`).
- `Smooth` (ompsmooth.dfy) holds the routines, written as imperative methods
  over `array<real>`:
  - `Evaluate` runs the nested `yk`/`xk` loops and is proved equal to
    `Smoothed`;
  - every traversal is proved to leave `m2[..] == SmoothGrid(dim, h, m1[..])`.
    So all five strategies produce the same buffer, and so do both pipelines
    (`CompareTraversals`, `ComparePrograms`).

Modelling choices:

- Values are `real` and integers are unbounded.
- An OpenMP `parallel for` is modelled as the same loop run sequentially.
- Every array access in the methods is checked by the verifier. This includes
  the reads `m1[dim*(y+yk)+(x+xk)]` of the kernel, so all of them stay in
  `[0, dim*dim)`.

## Model

| member | source | states |
|---|---|---|
| Indexing.FlatBound | ompsmooth.c:38 | a cell (x, y) of the grid has its slot `y*dim + x` inside [0, dim*dim) |
| Indexing.FlatDivMod | ompsmooth.c:133-134 | for 0 <= x < dim and y >= 0, the slot `y*dim + x` divided by dim gives back y, and its remainder gives back x |
| Indexing.FlatInGrid | ompsmooth.c:62 | encoding a grid cell and decoding the slot round-trips: the slot is in range and its quotient and remainder are y and x |
| Indexing.FlatDecode | ompsmooth.c:133-135 | for 0 <= a < dim*dim, the decoded `y = a/dim`, `x = a - y*dim` are both in [0, dim), and re-encoding them gives back a |
| Window.SmoothGridAt | ompsmooth.c:62 | slot `y*dim + x` of the output grid holds the smoothed value of cell (x, y) |
| Window.RowCountAxis | ompsmooth.c:31-39 | a window row off the grid counts no cell; a row on the grid counts exactly the valid x offsets |
| Window.WindowCountAxes | ompsmooth.c:29-41 | the count over window rows [lo, hi) is (valid y offsets in [lo, hi)) times (valid x offsets in [-h, h]) |
| Window.CellCountFactors | ompsmooth.c:29-37 | `cellcount` equals the number of x offsets in [-h, h] with 0 <= x+xk < dim times the same number for y |
| Window.AxisCountClosed | ompsmooth.c:34 | for 0 <= c < dim and lo <= 0 < hi, the number of offsets k in [lo, hi) with 0 <= c+k < dim is min(c+hi, dim) - max(c+lo, 0), the length of the clipped coordinate interval |
| Window.AxisCountBelow | ompsmooth.c:34 | for 0 <= c < dim and lo <= hi <= 0, the number of offsets k in [lo, hi) with 0 <= c+k < dim is max(c+hi, 0) - max(c+lo, 0) |
| Window.AxisCountWindow | ompsmooth.c:29-37 | for 0 <= c < dim, one axis of the window around c counts min(c+h+1, dim) - max(c-h, 0) cells |
| Window.AxisCountPositive | ompsmooth.c:34 | for h >= 0 and 0 <= c < dim, every axis of the window holds between 1 and 2h+1 valid coordinates |
| Window.CellCountPositive | ompsmooth.c:34-43 | `cellcount` is at least 1, because offset (0, 0) always passes the test, so the division is defined; it is at most (2h+1)^2 |
| Window.InteriorCellCount | ompsmooth.c:29-37 | for h <= x < dim-h and h <= y < dim-h the whole window counts: (2h+1)^2 cells |
| Window.EdgeCellCount | ompsmooth.c:29-37 | for a cell within h of any edge, strictly fewer than (2h+1)^2 cells count |
| Window.RowSumMonotone | ompsmooth.c:31-39 | if no input cell of one grid exceeds the same cell of another, no row sum of the first exceeds the second's |
| Window.WindowSumMonotone | ompsmooth.c:29-41 | the same for the sum over window rows |
| Window.RowSumConstant | ompsmooth.c:31-39 | on a grid holding v everywhere, a row adds v once per counted cell |
| Window.WindowSumConstant | ompsmooth.c:29-41 | on a grid holding v everywhere, the window adds v once per counted cell |
| Window.SmoothedMonotone | ompsmooth.c:29-43 | a grid nowhere larger than another smooths to a value no larger, at every cell |
| Window.SmoothedConstant | ompsmooth.c:29-43 | a grid holding v everywhere smooths to v at every cell, edges included |
| Window.SmoothedBounded | ompsmooth.c:43 | the returned mean lies in [vmin, vmax] when every input does |
| Window.SmoothGridBounded | ompsmooth.c:55-65 | every cell of the output grid lies in the range of the input values |
| Window.LinearCell | smooth.c:41-45 | the linear grid holds p*x + q*y in slot `y*dim + x` |
| Window.LinearRow | ompsmooth.c:31-39 | on a linear grid, window row yk adds p*(x+xk) + q*(y+yk) over the valid xk, or nothing when the row is off the grid |
| Window.LinearRows | ompsmooth.c:29-41 | on a linear grid, the window sum is p*(sum of valid x)*(valid y count) + q*(valid x count)*(sum of valid y) |
| Window.LinearWindowTotals | ompsmooth.c:29-41 | the window sum and `cellcount` of a linear grid at (x, y), each written as products of the per-axis sums and counts |
| Window.LinearMean | ompsmooth.c:29-43 | smoothing a linear grid gives p*cx + q*cy whenever cx and cy are the centres of the two axes of the clipped window |
| Window.LinearSmoothed | ompsmooth.c:29-43 | smoothing a linear grid gives p*cx + q*cy, where cx and cy are the mean valid coordinates of the clipped window |
| Window.AxisSumClosed | ompsmooth.c:34 | for 0 <= c < dim and lo <= 0 < hi, the valid coordinates c+k, for k in [lo, hi), sum to SumInts(max(c+lo, 0), min(c+hi, dim)), the sum of the integers of the clipped interval |
| Window.AxisSumDouble | ompsmooth.c:29-37 | for h >= 0 and 0 <= c < dim, twice the sum of the valid coordinates of one axis is their count times (first + last) |
| Window.CentreMidpoint | ompsmooth.c:29-37 | for h >= 0 and 0 <= c < dim, the mean valid coordinate of one axis is the midpoint of [max(c-h, 0), min(c+h+1, dim) - 1] |
| Window.CentreInterior | ompsmooth.c:29-37 | away from the edges, the mean valid coordinate of an axis is the cell's own coordinate |
| Window.CentreFirst | ompsmooth.c:29-37 | for 0 <= h < dim, at coordinate 0 the mean valid coordinate is h/2 |
| Window.CentreLast | ompsmooth.c:29-37 | for 0 <= h < dim, at coordinate dim-1 the mean valid coordinate is dim-1-h/2 |
| Window.LinearInterior | ompsmooth.c:29-43 | for h <= x < dim-h and h <= y < dim-h a linear grid keeps its value p*x + q*y |
| Window.PatternPreserved | smooth.c:39-45 | on the driver's input x + y, every interior cell keeps its value x + y |
| Window.PatternCorner | ompsmooth.c:29-43 | for 0 <= h < dim, on the input x + y, corner (0, 0), which holds 0, becomes h; so for 0 < h < dim the pattern is not kept at the edges |
| Window.RampCorner | ompsmooth.c:29-43 | for 0 <= h < dim, on the grid holding its own flat index, corner (0, 0) becomes (dim+1)*h/2 |
| Window.RampTopEdge | ompsmooth.c:29-43 | the same grid, a cell (x, 0) of the first row away from the sides, becomes x + dim*h/2 |
| Window.RampInterior | ompsmooth.c:29-43 | the same grid, an interior cell, keeps its own flat index |
| Window.RampFarCorner | ompsmooth.c:29-43 | for 0 <= h < dim, the same grid, corner (dim-1, dim-1), becomes (dim+1)*(dim-1-h/2) |
| Window.Scenario | ompsmooth.c:29-43 | the grid 0..15 of dim = 4, smoothed with h = 1, holds 2.5 at (0, 0), 3.0 at (1, 0), 5.0 at (1, 1) and 12.5 at (3, 3) (the sizes and coordinates are parameters pinned by its requires) |
| Smooth.Evaluate | ompsmooth.c:19-48 | the nested loops return the window mean `Smoothed` of m1; they read m1 only in bounds and write nothing |
| Smooth.SmoothSerialYX | ompsmooth.c:55-65 | after the row-major loops, m2 is the smoothed grid of m1 in every slot; m1 is unchanged |
| Smooth.SmoothSerialXY | ompsmooth.c:71-81 | after the column-major loops, m2 is the same smoothed grid |
| Smooth.SmoothParallelYXFor | ompsmooth.c:88-100 | the row loop, run sequentially, leaves m2 equal to the smoothed grid |
| Smooth.SmoothParallelXYFor | ompsmooth.c:106-118 | the column loop, run sequentially, leaves m2 equal to the smoothed grid |
| Smooth.SmoothParallelCoalescedFor | ompsmooth.c:125-137 | the flattened loop with decoding leaves m2 equal to the smoothed grid |
| Smooth.Program1 | ompsmooth.c:139-143 | m5 is the smoothing of m3 and m6 is the smoothing of m4; the second pass does not disturb m5 |
| Smooth.Program2 | ompsmooth.c:145-158 | the fused loop leaves the same m5 and m6 as Program1 |
| Smooth.CompareTraversals | ompsmooth.c:55-137 | the five traversals, run on one input, leave identical output buffers |
| Smooth.ComparePrograms | ompsmooth.c:139-158 | program1 and program2, run on the same inputs, leave identical m5 and m6 |
| Smooth.NextInColumn | ompsmooth.c:76-79 | a column-major write goes to its own slot `y*dim + x`: it finishes cell (x, y) and no other finished cell changes |
| Smooth.GridComplete | ompsmooth.c:74-80 | once every column is done, every slot of the buffer holds its smoothed value |

## Left out

- The timing and benchmarking driver `smooth.c` is not modelled. This covers
  `malloc`, `memset`, `gettimeofday`, `printf` and the thread-count sweep. Its
  input pattern x + y appears only as the grid `Linear(dim, 1, 1)` of the
  lemmas.
- OpenMP scheduling and threads are not modelled: each `#pragma omp parallel
  for` is an ordinary sequential loop.
- The data race in `smoothParallelCoalescedFor` and `program2` is not
  modelled. There `x` and `y` are declared outside the parallel region and are
  not private, so threads share them. The model gives the intended per-index
  meaning.
- Single-precision `float` rounding is not modelled; values are exact `real`
  numbers, so the order of summation plays no part.
- 32-bit `int` overflow of `dim*dim` and of the index arithmetic is not
  modelled; integers are unbounded.
- The commented-out `/dev/urandom` input and the debug `printf` in `evaluate`
  are not modelled, since neither runs.
- Smooth.Evaluate: requires h >= 0. With a negative half-width the source
  divides 0 by a zero count; in `float` that gives NaN, which a `real` cannot
  represent.
- Smooth.SmoothSerialYX (and every other traversal and pipeline): requires the
  output buffer to be distinct from its input. With a shared buffer the source
  would read values it has already overwritten, and the model does not
  describe that result.
- Smooth.Program1 and Smooth.Program2: require m5 and m6 to be distinct from
  each other and from m3 and m4. The two inputs m3 and m4 may be the same
  buffer.
