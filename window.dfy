/** The smoothing rule of the kernel, stated as pure functions on a grid held
    as a row-major `seq<real>` of length dim*dim. Sums and counts are folded
    in the order the kernel scans its window: rows `yk` from -h to h, and
    inside each row the offsets `xk` from -h to h. */
module Window {
  import opened Indexing

  /** The test of the kernel: offset (xk, yk) from (x, y) stays in [0, dim)^2. */
  predicate InDomain(dim: int, x: int, y: int, xk: int, yk: int)
  {
    y + yk >= 0 && x + xk >= 0 && y + yk < dim && x + xk < dim
  }

  /** Contribution of one window offset to the sum: the input value when the
      neighbour is inside the grid, nothing otherwise. */
  function Cell(dim: int, x: int, y: int, xk: int, yk: int, g: seq<real>): (r: real)
    requires |g| == dim * dim
  {
    if InDomain(dim, x, y, xk, yk) then
      FlatBound(dim, x + xk, y + yk);
      g[Flat(dim, x + xk, y + yk)]
    else 0.0
  }

  /** Sum of the contributions of offsets xk in [lo, hi) of window row yk. */
  function RowSum(dim: int, x: int, y: int, yk: int, g: seq<real>, lo: int, hi: int): (r: real)
    requires |g| == dim * dim
    decreases hi - lo
  {
    if hi <= lo then 0.0
    else RowSum(dim, x, y, yk, g, lo, hi - 1) + Cell(dim, x, y, hi - 1, yk, g)
  }

  /** Number of offsets xk in [lo, hi) of window row yk that pass the test. */
  function RowCount(dim: int, x: int, y: int, yk: int, lo: int, hi: int): (n: nat)
    decreases hi - lo
  {
    if hi <= lo then 0
    else RowCount(dim, x, y, yk, lo, hi - 1) + (if InDomain(dim, x, y, hi - 1, yk) then 1 else 0)
  }

  /** Sum over the full rows yk in [lo, hi) of the window of half-width h. */
  function WindowSum(dim: int, h: int, x: int, y: int, g: seq<real>, lo: int, hi: int): (r: real)
    requires |g| == dim * dim
    decreases hi - lo
  {
    if hi <= lo then 0.0
    else WindowSum(dim, h, x, y, g, lo, hi - 1) + RowSum(dim, x, y, hi - 1, g, -h, h + 1)
  }

  /** Number of valid cells in the full rows yk in [lo, hi) of the window. */
  function WindowCount(dim: int, h: int, x: int, y: int, lo: int, hi: int): (n: nat)
    decreases hi - lo
  {
    if hi <= lo then 0
    else WindowCount(dim, h, x, y, lo, hi - 1) + RowCount(dim, x, y, hi - 1, -h, h + 1)
  }

  /** The kernel's `cellcount` for cell (x, y). */
  function CellCount(dim: int, h: int, x: int, y: int): (n: nat)
  {
    WindowCount(dim, h, x, y, -h, h + 1)
  }

  /** Number of offsets k in [lo, hi) with 0 <= c + k < dim: one axis of the window. */
  function AxisCount(dim: int, c: int, lo: int, hi: int): (n: nat)
    decreases hi - lo
  {
    if hi <= lo then 0
    else AxisCount(dim, c, lo, hi - 1) + (if 0 <= c + hi - 1 < dim then 1 else 0)
  }

  function Max(a: int, b: int): (r: int) { if a < b then b else a }
  function Min(a: int, b: int): (r: int) { if a < b then a else b }

  /** The smoothed value of cell (x, y): the mean of the valid cells of the
      (2h+1) x (2h+1) window centred on it. */
  function Smoothed(dim: int, h: int, x: int, y: int, g: seq<real>): (r: real)
    requires 0 < dim && 0 <= h && 0 <= x < dim && 0 <= y < dim && |g| == dim * dim
  {
    CellCountPositive(dim, h, x, y);
    WindowSum(dim, h, x, y, g, -h, h + 1) / (CellCount(dim, h, x, y) as real)
  }

  /** Smoothed value of the cell stored at flat index a. */
  function SmoothedAt(dim: int, h: int, g: seq<real>, a: int): (r: real)
    requires 0 <= dim && 0 <= h && |g| == dim * dim && 0 <= a < dim * dim
  {
    FlatDecode(dim, a);
    Smoothed(dim, h, a % dim, a / dim, g)
  }

  /** The whole output grid every traversal strategy must produce (empty when
      dim is 0). */
  function SmoothGrid(dim: int, h: int, g: seq<real>): (r: seq<real>)
    requires 0 <= dim && 0 <= h && |g| == dim * dim
  {
    seq(dim * dim, a requires 0 <= a < dim * dim => SmoothedAt(dim, h, g, a))
  }

  // ---------------------------------------------------------------------
  // The output grid, read cell by cell

  /** Slot y*dim+x of the output grid holds the smoothed value of (x, y). */
  lemma SmoothGridAt(dim: int, h: int, g: seq<real>, x: int, y: int)
    requires 0 < dim && 0 <= h && |g| == dim * dim && 0 <= x < dim && 0 <= y < dim
    ensures |SmoothGrid(dim, h, g)| == dim * dim
    ensures 0 <= Flat(dim, x, y) < dim * dim
    ensures SmoothGrid(dim, h, g)[Flat(dim, x, y)] == Smoothed(dim, h, x, y, g)
  {
    FlatInGrid(dim, x, y);
  }

  // ---------------------------------------------------------------------
  // The cell count

  /** A window row that lies outside the grid contributes nothing; one inside
      contributes the valid offsets of the x axis. */
  lemma {:induction false} RowCountAxis(dim: int, x: int, y: int, yk: int, lo: int, hi: int)
    ensures RowCount(dim, x, y, yk, lo, hi) == if 0 <= y + yk < dim then AxisCount(dim, x, lo, hi) else 0
    decreases hi - lo
  {
    if lo < hi {
      RowCountAxis(dim, x, y, yk, lo, hi - 1);
    }
  }

  /** The cell count of rows [lo, hi) is (valid rows) x (valid columns). */
  lemma {:induction false} WindowCountAxes(dim: int, h: int, x: int, y: int, lo: int, hi: int)
    ensures WindowCount(dim, h, x, y, lo, hi) == AxisCount(dim, y, lo, hi) * AxisCount(dim, x, -h, h + 1)
    decreases hi - lo
  {
    if lo < hi {
      var n, ax := AxisCount(dim, y, lo, hi - 1), AxisCount(dim, x, -h, h + 1);
      assert WindowCount(dim, h, x, y, lo, hi - 1) == n * ax by {
        WindowCountAxes(dim, h, x, y, lo, hi - 1);
      }
      assert RowCount(dim, x, y, hi - 1, -h, h + 1) == if 0 <= y + (hi - 1) < dim then ax else 0 by {
        RowCountAxis(dim, x, y, hi - 1, -h, h + 1);
      }
      MulSucc(n, ax);
    }
  }

  lemma MulSucc(n: int, a: int)
    ensures n * a + a == (n + 1) * a
  {
  }

  /** Closed form of one axis: for a grid coordinate 0 <= c < dim and a range
      with lo <= 0 < hi, the number of offsets k in [lo, hi) with
      0 <= c + k < dim is the length of the clipped coordinate interval
      [max(c+lo, 0), min(c+hi, dim)). */
  lemma {:induction false} AxisCountClosed(dim: int, c: int, lo: int, hi: int)
    requires 0 < dim && 0 <= c < dim && lo <= 0 < hi
    ensures AxisCount(dim, c, lo, hi) == Min(c + hi, dim) - Max(c + lo, 0)
    decreases hi - lo
  {
    if hi - 1 > 0 {
      AxisCountClosed(dim, c, lo, hi - 1);
    } else {
      AxisCountBelow(dim, c, lo, hi - 1);
    }
  }

  /** For a grid coordinate 0 <= c < dim and lo <= hi <= 0, the number of
      offsets k in [lo, hi) with 0 <= c + k < dim is
      max(c+hi, 0) - max(c+lo, 0). */
  lemma {:induction false} AxisCountBelow(dim: int, c: int, lo: int, hi: int)
    requires 0 < dim && 0 <= c < dim && lo <= hi <= 0
    ensures AxisCount(dim, c, lo, hi) == Max(c + hi, 0) - Max(c + lo, 0)
    decreases hi - lo
  {
    if lo < hi {
      AxisCountBelow(dim, c, lo, hi - 1);
    }
  }

  /** The cell count factors as (valid x offsets) x (valid y offsets). */
  lemma CellCountFactors(dim: int, h: int, x: int, y: int)
    requires 0 <= h
    ensures CellCount(dim, h, x, y) == AxisCount(dim, x, -h, h + 1) * AxisCount(dim, y, -h, h + 1)
  {
    WindowCountAxes(dim, h, x, y, -h, h + 1);
  }

  /** One axis of the window around a grid coordinate 0 <= c < dim, clipped
      to the grid, counts min(c+h+1, dim) - max(c-h, 0) cells. */
  lemma AxisCountWindow(dim: int, h: int, c: int)
    requires 0 < dim && 0 <= h && 0 <= c < dim
    ensures AxisCount(dim, c, -h, h + 1) == Min(c + h + 1, dim) - Max(c - h, 0)
  {
    AxisCountClosed(dim, c, -h, h + 1);
  }

  /** The centre cell always passes the test, so the kernel never divides by zero,
      and no cell counts more than the full window. */
  lemma CellCountPositive(dim: int, h: int, x: int, y: int)
    requires 0 < dim && 0 <= h && 0 <= x < dim && 0 <= y < dim
    ensures 1 <= CellCount(dim, h, x, y) <= (2 * h + 1) * (2 * h + 1)
  {
    CellCountFactors(dim, h, x, y);
    AxisCountWindow(dim, h, x);
    AxisCountWindow(dim, h, y);
    var ax, ay := AxisCount(dim, x, -h, h + 1), AxisCount(dim, y, -h, h + 1);
    assert 1 <= ax <= 2 * h + 1 && 1 <= ay <= 2 * h + 1;
    MulBounds(ax, ay, 2 * h + 1);
  }

  lemma MulBounds(a: int, b: int, n: int)
    requires 1 <= a <= n && 1 <= b <= n
    ensures 1 <= a * b <= n * n
  {
    assert a * b <= n * b;
    assert n * b <= n * n;
  }

  lemma MulStrict(a: int, b: int, k: int)
    requires a < b && 1 <= k
    ensures a * k < b * k
  {
  }

  /** Away from the edges the whole window is counted. */
  lemma InteriorCellCount(dim: int, h: int, x: int, y: int)
    requires 0 <= h && h <= x < dim - h && h <= y < dim - h
    ensures CellCount(dim, h, x, y) == (2 * h + 1) * (2 * h + 1)
  {
    CellCountFactors(dim, h, x, y);
    AxisCountWindow(dim, h, x);
    AxisCountWindow(dim, h, y);
  }

  /** Within h of any edge the window is clipped: strictly fewer cells count. */
  lemma EdgeCellCount(dim: int, h: int, x: int, y: int)
    requires 0 < dim && 0 <= h && 0 <= x < dim && 0 <= y < dim
    requires x < h || x >= dim - h || y < h || y >= dim - h
    ensures CellCount(dim, h, x, y) < (2 * h + 1) * (2 * h + 1)
  {
    CellCountFactors(dim, h, x, y);
    AxisCountWindow(dim, h, x);
    AxisCountWindow(dim, h, y);
    var ax, ay := AxisCount(dim, x, -h, h + 1), AxisCount(dim, y, -h, h + 1);
    var n := 2 * h + 1;
    assert 1 <= ax <= n && 1 <= ay <= n;
    if ax < n {
      MulStrict(ax, n, ay);
      MulBounds(n, ay, n);
      assert ay * n <= n * n;
    } else {
      MulStrict(ay, n, ax);
    }
  }

  // ---------------------------------------------------------------------
  // The smoothed value is a mean

  /** The grid holding v in every cell. */
  function Constant(dim: int, v: real): (g: seq<real>)
    requires 0 <= dim
    ensures |g| == dim * dim
    ensures forall i :: 0 <= i < |g| ==> g[i] == v
  {
    seq(dim * dim, _ => v)
  }

  /** Sums are monotone in the grid: raising no cell lowers a row sum. */
  lemma {:induction false} RowSumMonotone(dim: int, x: int, y: int, yk: int, g1: seq<real>, g2: seq<real>, lo: int, hi: int)
    requires |g1| == dim * dim && |g2| == dim * dim
    requires forall i :: 0 <= i < dim * dim ==> g1[i] <= g2[i]
    ensures RowSum(dim, x, y, yk, g1, lo, hi) <= RowSum(dim, x, y, yk, g2, lo, hi)
    decreases hi - lo
  {
    if lo < hi {
      RowSumMonotone(dim, x, y, yk, g1, g2, lo, hi - 1);
      if InDomain(dim, x, y, hi - 1, yk) {
        FlatBound(dim, x + hi - 1, y + yk);
      }
    }
  }

  /** Raising no cell lowers a window sum. */
  lemma {:induction false} WindowSumMonotone(dim: int, h: int, x: int, y: int, g1: seq<real>, g2: seq<real>, lo: int, hi: int)
    requires |g1| == dim * dim && |g2| == dim * dim
    requires forall i :: 0 <= i < dim * dim ==> g1[i] <= g2[i]
    ensures WindowSum(dim, h, x, y, g1, lo, hi) <= WindowSum(dim, h, x, y, g2, lo, hi)
    decreases hi - lo
  {
    if lo < hi {
      WindowSumMonotone(dim, h, x, y, g1, g2, lo, hi - 1);
      RowSumMonotone(dim, x, y, hi - 1, g1, g2, -h, h + 1);
    }
  }

  /** v added up n times. */
  function Times(v: real, n: nat): (r: real)
  {
    if n == 0 then 0.0 else Times(v, n - 1) + v
  }

  /** Adding v up n times is multiplying by n. */
  lemma {:induction false} TimesProduct(v: real, n: nat)
    ensures Times(v, n) == v * (n as real)
  {
    if n > 0 {
      TimesProduct(v, n - 1);
      assert v * ((n - 1) as real) + v == v * (n as real);
    }
  }

  lemma {:induction false} TimesAdd(v: real, n: nat, m: nat)
    ensures Times(v, n) + Times(v, m) == Times(v, n + m)
    decreases m
  {
    if m > 0 {
      TimesAdd(v, n, m - 1);
    }
  }

  /** On a constant grid a row adds v once per counted cell. */
  lemma {:induction false} RowSumConstant(dim: int, x: int, y: int, yk: int, v: real, lo: int, hi: int)
    requires 0 <= dim
    ensures RowSum(dim, x, y, yk, Constant(dim, v), lo, hi) == Times(v, RowCount(dim, x, y, yk, lo, hi))
    decreases hi - lo
  {
    if lo < hi {
      RowSumConstant(dim, x, y, yk, v, lo, hi - 1);
      if InDomain(dim, x, y, hi - 1, yk) {
        FlatBound(dim, x + hi - 1, y + yk);
      }
    }
  }

  /** On a constant grid the window adds v once per counted cell. */
  lemma {:induction false} WindowSumConstant(dim: int, h: int, x: int, y: int, v: real, lo: int, hi: int)
    requires 0 <= dim
    ensures WindowSum(dim, h, x, y, Constant(dim, v), lo, hi) == Times(v, WindowCount(dim, h, x, y, lo, hi))
    decreases hi - lo
  {
    if lo < hi {
      WindowSumConstant(dim, h, x, y, v, lo, hi - 1);
      RowSumConstant(dim, x, y, hi - 1, v, -h, h + 1);
      TimesAdd(v, WindowCount(dim, h, x, y, lo, hi - 1), RowCount(dim, x, y, hi - 1, -h, h + 1));
    }
  }

  /** Smoothing is monotone: a grid that is nowhere larger smooths to a value
      that is no larger. */
  lemma SmoothedMonotone(dim: int, h: int, x: int, y: int, g1: seq<real>, g2: seq<real>)
    requires 0 < dim && 0 <= h && 0 <= x < dim && 0 <= y < dim
    requires |g1| == dim * dim && |g2| == dim * dim
    requires forall i :: 0 <= i < dim * dim ==> g1[i] <= g2[i]
    ensures Smoothed(dim, h, x, y, g1) <= Smoothed(dim, h, x, y, g2)
  {
    assert WindowSum(dim, h, x, y, g1, -h, h + 1) <= WindowSum(dim, h, x, y, g2, -h, h + 1) by {
      WindowSumMonotone(dim, h, x, y, g1, g2, -h, h + 1);
    }
    CellCountPositive(dim, h, x, y);
    DivMonotone(WindowSum(dim, h, x, y, g1, -h, h + 1), WindowSum(dim, h, x, y, g2, -h, h + 1), CellCount(dim, h, x, y) as real);
  }

  lemma DivMonotone(s1: real, s2: real, c: real)
    requires s1 <= s2 && c > 0.0
    ensures s1 / c <= s2 / c
  {
  }

  /** A constant grid is left unchanged. */
  lemma SmoothedConstant(dim: int, h: int, x: int, y: int, v: real)
    requires 0 < dim && 0 <= h && 0 <= x < dim && 0 <= y < dim
    ensures Smoothed(dim, h, x, y, Constant(dim, v)) == v
  {
    WindowSumConstant(dim, h, x, y, v, -h, h + 1);
    TimesProduct(v, WindowCount(dim, h, x, y, -h, h + 1));
    CellCountPositive(dim, h, x, y);
    DivScaled(WindowSum(dim, h, x, y, Constant(dim, v), -h, h + 1), v, CellCount(dim, h, x, y) as real);
  }

  lemma DivScaled(w: real, v: real, c: real)
    requires c > 0.0 && w == v * c
    ensures w / c == v
  {
  }

  /** Smoothing never leaves the range of the input values. */
  lemma SmoothedBounded(dim: int, h: int, x: int, y: int, g: seq<real>, vmin: real, vmax: real)
    requires 0 < dim && 0 <= h && 0 <= x < dim && 0 <= y < dim && |g| == dim * dim
    requires forall i :: 0 <= i < |g| ==> vmin <= g[i] <= vmax
    ensures vmin <= Smoothed(dim, h, x, y, g) <= vmax
  {
    assert vmin <= Smoothed(dim, h, x, y, g) by {
      SmoothedMonotone(dim, h, x, y, Constant(dim, vmin), g);
      SmoothedConstant(dim, h, x, y, vmin);
    }
    assert Smoothed(dim, h, x, y, g) <= vmax by {
      SmoothedMonotone(dim, h, x, y, g, Constant(dim, vmax));
      SmoothedConstant(dim, h, x, y, vmax);
    }
  }

  /** Every cell of the output grid lies in the range of the input values. */
  lemma SmoothGridBounded(dim: int, h: int, g: seq<real>, vmin: real, vmax: real)
    requires 0 <= dim && 0 <= h && |g| == dim * dim
    requires forall i :: 0 <= i < |g| ==> vmin <= g[i] <= vmax
    ensures |SmoothGrid(dim, h, g)| == dim * dim
    ensures forall a :: 0 <= a < dim * dim ==> vmin <= SmoothGrid(dim, h, g)[a] <= vmax
  {
    forall a | 0 <= a < dim * dim
      ensures vmin <= SmoothGrid(dim, h, g)[a] <= vmax
    {
      FlatDecode(dim, a);
      SmoothedBounded(dim, h, a % dim, a / dim, g, vmin, vmax);
    }
  }

  // ---------------------------------------------------------------------
  // Linear grids: cell (x, y) holding p*x + q*y

  /** A grid whose cell (x, y) holds p*x + q*y. The benchmark's input, x + y,
      is Linear(dim, 1, 1); the grid holding its own flat index, y*dim + x,
      is Linear(dim, 1, dim). */
  function Linear(dim: int, p: int, q: int): (g: seq<real>)
    requires 0 < dim
    ensures |g| == dim * dim
  {
    seq(dim * dim, a => (p * (a % dim) + q * (a / dim)) as real)
  }

  lemma LinearCell(dim: int, p: int, q: int, c: int, r: int)
    requires 0 <= c < dim && 0 <= r < dim
    ensures 0 <= Flat(dim, c, r) < dim * dim
    ensures Linear(dim, p, q)[Flat(dim, c, r)] == (p * c + q * r) as real
  {
    FlatInGrid(dim, c, r);
  }

  /** Sum of the integers in [lo, hi). */
  function SumInts(lo: int, hi: int): (s: int)
    decreases hi - lo
  {
    if hi <= lo then 0 else SumInts(lo, hi - 1) + (hi - 1)
  }

  lemma {:induction false} SumIntsClosed(lo: int, hi: int)
    requires lo <= hi
    ensures 2 * SumInts(lo, hi) == (hi - lo) * (lo + hi - 1)
    decreases hi - lo
  {
    if lo < hi {
      SumIntsClosed(lo, hi - 1);
      assert (hi - lo) * (lo + hi - 1) == (hi - 1 - lo) * (lo + hi - 2) + 2 * (hi - 1);
    }
  }

  /** Sum of the coordinates c + k, for the offsets k in [lo, hi) with
      0 <= c + k < dim: the valid coordinates of one axis of the window. */
  function AxisSum(dim: int, c: int, lo: int, hi: int): (s: int)
    decreases hi - lo
  {
    if hi <= lo then 0
    else AxisSum(dim, c, lo, hi - 1) + (if 0 <= c + hi - 1 < dim then c + hi - 1 else 0)
  }

  /** The centre cell is always on the grid, so every axis of a window has a
      valid coordinate. */
  lemma AxisCountPositive(dim: int, h: int, c: int)
    requires 0 < dim && 0 <= h && 0 <= c < dim
    ensures 1 <= AxisCount(dim, c, -h, h + 1) <= 2 * h + 1
  {
    AxisCountWindow(dim, h, c);
  }

  /** Mean of the valid coordinates of one axis of the window around c: c
      itself away from the edges, pulled inwards near them. */
  function WindowCentre(dim: int, h: int, c: int): (r: real)
    requires 0 < dim && 0 <= h && 0 <= c < dim
  {
    AxisCountPositive(dim, h, c);
    (AxisSum(dim, c, -h, h + 1) as real) / (AxisCount(dim, c, -h, h + 1) as real)
  }

  /** Window row yk of a linear grid adds p*(x+xk) + q*(y+yk) over the valid
      offsets xk, and nothing when the row itself is off the grid. */
  lemma {:induction false} LinearRow(dim: int, p: int, q: int, x: int, y: int, yk: int, lo: int, hi: int)
    requires 0 < dim
    ensures RowSum(dim, x, y, yk, Linear(dim, p, q), lo, hi)
         == if 0 <= y + yk < dim
            then (p * AxisSum(dim, x, lo, hi) + q * (y + yk) * AxisCount(dim, x, lo, hi)) as real
            else 0.0
    decreases hi - lo
  {
    if lo < hi {
      LinearRow(dim, p, q, x, y, yk, lo, hi - 1);
      if InDomain(dim, x, y, hi - 1, yk) {
        LinearCell(dim, p, q, x + hi - 1, y + yk);
        AddTerm(p, q * (y + yk), AxisSum(dim, x, lo, hi - 1), AxisCount(dim, x, lo, hi - 1), x + hi - 1);
      }
    }
  }

  /** Adding one more term c to a sum s of n terms of a linear pattern. */
  lemma AddTerm(p: int, q: int, s: int, n: int, c: int)
    ensures p * s + q * n + (p * c + q) == p * (s + c) + q * (n + 1)
  {
  }

  /** Window rows [lo, hi) of a linear grid: the valid rows yk each add a
      full row of the x axis. */
  lemma {:induction false} LinearRows(dim: int, p: int, q: int, h: int, x: int, y: int, lo: int, hi: int)
    requires 0 < dim
    ensures WindowSum(dim, h, x, y, Linear(dim, p, q), lo, hi)
         == (p * AxisSum(dim, x, -h, h + 1) * AxisCount(dim, y, lo, hi)
             + q * AxisCount(dim, x, -h, h + 1) * AxisSum(dim, y, lo, hi)) as real
    decreases hi - lo
  {
    if lo < hi {
      var g := Linear(dim, p, q);
      var sx, nx := AxisSum(dim, x, -h, h + 1), AxisCount(dim, x, -h, h + 1);
      var n, s := AxisCount(dim, y, lo, hi - 1), AxisSum(dim, y, lo, hi - 1);
      assert WindowSum(dim, h, x, y, g, lo, hi - 1) == (p * sx * n + q * nx * s) as real by {
        LinearRows(dim, p, q, h, x, y, lo, hi - 1);
      }
      if 0 <= y + (hi - 1) < dim {
        assert RowSum(dim, x, y, hi - 1, g, -h, h + 1) == (p * sx + q * (y + (hi - 1)) * nx) as real by {
          LinearRow(dim, p, q, x, y, hi - 1, -h, h + 1);
        }
        AddRow(p, sx, q, nx, n, s, y + (hi - 1));
      } else {
        assert RowSum(dim, x, y, hi - 1, g, -h, h + 1) == 0.0 by {
          LinearRow(dim, p, q, x, y, hi - 1, -h, h + 1);
        }
      }
    }
  }

  /** Adding one more valid row t to the n rows, with coordinates summing to s,
      counted so far. */
  lemma AddRow(p: int, sx: int, q: int, nx: int, n: int, s: int, t: int)
    ensures p * sx * n + q * nx * s + (p * sx + q * t * nx) == p * sx * (n + 1) + q * nx * (s + t)
  {
  }

  /** Smoothing a linear grid evaluates the same linear function at the
      centre of the window clipped to the grid. */
  lemma LinearSmoothed(dim: int, p: int, q: int, h: int, x: int, y: int)
    requires 0 < dim && 0 <= h && 0 <= x < dim && 0 <= y < dim
    ensures Smoothed(dim, h, x, y, Linear(dim, p, q))
         == (p as real) * WindowCentre(dim, h, x) + (q as real) * WindowCentre(dim, h, y)
  {
    LinearMean(dim, p, q, h, x, y, WindowCentre(dim, h, x), WindowCentre(dim, h, y));
  }

  /** Smoothing a linear grid at (x, y) gives p*cx + q*cy when the two axes
      of the window are centred on cx and cy. This is LinearSmoothed with the
      centres passed in, so that callers can name them by value. */
  lemma LinearMean(dim: int, p: int, q: int, h: int, x: int, y: int, cx: real, cy: real)
    requires 0 < dim && 0 <= h && 0 <= x < dim && 0 <= y < dim
    requires WindowCentre(dim, h, x) == cx && WindowCentre(dim, h, y) == cy
    ensures Smoothed(dim, h, x, y, Linear(dim, p, q)) == (p as real) * cx + (q as real) * cy
  {
    AxisCentreMean(dim, h, x);
    AxisCentreMean(dim, h, y);
    LinearWindowTotals(dim, p, q, h, x, y);
    MeanAtCentres(WindowSum(dim, h, x, y, Linear(dim, p, q), -h, h + 1), WindowCount(dim, h, x, y, -h, h + 1),
                  AxisCount(dim, x, -h, h + 1), AxisCount(dim, y, -h, h + 1),
                  AxisSum(dim, x, -h, h + 1), AxisSum(dim, y, -h, h + 1), p, q, cx, cy);
  }

  /** LinearMean for axes centred on the integers cx and cy. No new fact: an
      integer form of LinearMean that keeps its callers cheap to verify. */
  lemma LinearMeanInt(dim: int, p: int, q: int, h: int, x: int, y: int, cx: int, cy: int)
    requires 0 < dim && 0 <= h && 0 <= x < dim && 0 <= y < dim
    requires WindowCentre(dim, h, x) == cx as real && WindowCentre(dim, h, y) == cy as real
    ensures Smoothed(dim, h, x, y, Linear(dim, p, q)) == (p * cx + q * cy) as real
  {
    LinearMean(dim, p, q, h, x, y, cx as real, cy as real);
  }

  /** LinearMean for axes centred on the half-integers mx/2 and my/2. No new
      fact: a half-integer form of LinearMean that keeps its callers cheap to
      verify. */
  lemma LinearMeanHalf(dim: int, p: int, q: int, h: int, x: int, y: int, mx: int, my: int)
    requires 0 < dim && 0 <= h && 0 <= x < dim && 0 <= y < dim
    requires WindowCentre(dim, h, x) == (mx as real) / 2.0 && WindowCentre(dim, h, y) == (my as real) / 2.0
    ensures Smoothed(dim, h, x, y, Linear(dim, p, q)) == ((p * mx + q * my) as real) / 2.0
  {
    LinearMean(dim, p, q, h, x, y, (mx as real) / 2.0, (my as real) / 2.0);
  }

  /** The window sum and the cell count of a linear grid, axis by axis. */
  lemma LinearWindowTotals(dim: int, p: int, q: int, h: int, x: int, y: int)
    requires 0 < dim && 0 <= h && 0 <= x < dim && 0 <= y < dim
    ensures AxisCount(dim, x, -h, h + 1) > 0 && AxisCount(dim, y, -h, h + 1) > 0
    ensures WindowCount(dim, h, x, y, -h, h + 1) == AxisCount(dim, y, -h, h + 1) * AxisCount(dim, x, -h, h + 1)
    ensures WindowSum(dim, h, x, y, Linear(dim, p, q), -h, h + 1)
         == (p * AxisSum(dim, x, -h, h + 1) * AxisCount(dim, y, -h, h + 1)
             + q * AxisCount(dim, x, -h, h + 1) * AxisSum(dim, y, -h, h + 1)) as real
  {
    LinearRows(dim, p, q, h, x, y, -h, h + 1);
    WindowCountAxes(dim, h, x, y, -h, h + 1);
    AxisCountPositive(dim, h, x);
    AxisCountPositive(dim, h, y);
  }

  /** The coordinates of one axis, s in total over n of them, have mean c. */
  predicate Centred(s: int, n: int, c: real)
  {
    n > 0 && s as real == c * (n as real)
  }

  /** The arithmetic behind the linear lemmas: when the coordinates of each
      axis sum to its centre times its count, the window mean is p*cx + q*cy. */
  lemma MeanAtCentres(w: real, c: int, nx: int, ny: int, sx: int, sy: int, p: int, q: int, cx: real, cy: real)
    requires c == ny * nx && w == (p * sx * ny + q * nx * sy) as real
    requires Centred(sx, nx, cx) && Centred(sy, ny, cy)
    ensures w / (c as real) == (p as real) * cx + (q as real) * cy
  {
    var NX, NY := nx as real, ny as real;
    assert w == ((p as real) * cx + (q as real) * cy) * (NX * NY);
    assert c as real == NX * NY;
  }

  /** Closed form of one axis: for a grid coordinate 0 <= c < dim and a range
      with lo <= 0 < hi, the valid coordinates c + k, for k in [lo, hi), sum
      to the sum of the integers of [max(c+lo, 0), min(c+hi, dim)). */
  lemma {:induction false} AxisSumClosed(dim: int, c: int, lo: int, hi: int)
    requires 0 < dim && 0 <= c < dim && lo <= 0 < hi
    ensures AxisSum(dim, c, lo, hi) == SumInts(Max(c + lo, 0), Min(c + hi, dim))
    decreases hi - lo
  {
    if hi - 1 > 0 {
      AxisSumClosed(dim, c, lo, hi - 1);
    } else {
      AxisSumBelow(dim, c, lo, hi - 1);
    }
  }

  /** For a grid coordinate 0 <= c < dim and lo <= hi <= 0, the valid
      coordinates c + k, for k in [lo, hi), sum to the sum of the integers of
      [max(c+lo, 0), max(c+hi, 0)). */
  lemma {:induction false} AxisSumBelow(dim: int, c: int, lo: int, hi: int)
    requires 0 <= c < dim && lo <= hi <= 0
    ensures AxisSum(dim, c, lo, hi) == SumInts(Max(c + lo, 0), Max(c + hi, 0))
    decreases hi - lo
  {
    if lo < hi {
      AxisSumBelow(dim, c, lo, hi - 1);
    }
  }

  /** For h >= 0 and a grid coordinate 0 <= c < dim, twice the sum of the
      valid coordinates of one axis is their count times (first + last) of
      the interval [max(c-h, 0), min(c+h+1, dim)). */
  lemma AxisSumDouble(dim: int, h: int, c: int)
    requires 0 < dim && 0 <= h && 0 <= c < dim
    ensures AxisCount(dim, c, -h, h + 1) > 0
    ensures 2 * AxisSum(dim, c, -h, h + 1)
         == AxisCount(dim, c, -h, h + 1) * (Max(c - h, 0) + Min(c + h + 1, dim) - 1)
  {
    AxisCountWindow(dim, h, c);
    AxisSumClosed(dim, c, -h, h + 1);
    SumIntsClosed(Max(c - h, 0), Min(c + h + 1, dim));
  }

  /** For h >= 0 and a grid coordinate 0 <= c < dim, the centre of one axis
      of the clipped window is the midpoint of the interval
      [max(c-h, 0), min(c+h+1, dim)) of its valid coordinates. */
  lemma CentreMidpoint(dim: int, h: int, c: int)
    requires 0 < dim && 0 <= h && 0 <= c < dim
    ensures WindowCentre(dim, h, c) == ((Max(c - h, 0) + Min(c + h + 1, dim) - 1) as real) / 2.0
  {
    AxisSumDouble(dim, h, c);
    HalfMean(AxisSum(dim, c, -h, h + 1), AxisCount(dim, c, -h, h + 1), Max(c - h, 0) + Min(c + h + 1, dim) - 1);
  }

  lemma HalfMean(s: int, n: int, m: int)
    requires n >= 1 && 2 * s == n * m
    ensures (s as real) / (n as real) == (m as real) / 2.0
  {
    assert (s as real) * 2.0 == (n as real) * (m as real);
  }

  /** The first cell of an axis: its window covers [0, h]. */
  lemma CentreFirst(dim: int, h: int)
    requires 0 <= h < dim
    ensures WindowCentre(dim, h, 0) == (h as real) / 2.0
  {
    CentreMidpoint(dim, h, 0);
  }

  /** The last cell of an axis: its window covers [dim-1-h, dim-1]. */
  lemma CentreLast(dim: int, h: int)
    requires 0 <= h < dim
    ensures WindowCentre(dim, h, dim - 1) == ((2 * dim - 2 - h) as real) / 2.0
  {
    CentreMidpoint(dim, h, dim - 1);
  }

  /** Away from the edges the window is centred on the cell itself. */
  lemma CentreInterior(dim: int, h: int, c: int)
    requires 0 <= h && h <= c < dim - h
    ensures WindowCentre(dim, h, c) == c as real
  {
    CentreMidpoint(dim, h, c);
  }

  /** Away from the edges the centre is also the half-integer (2c)/2. No new
      fact: CentreInterior in the form LinearMeanHalf expects. */
  lemma CentreHalf(dim: int, h: int, c: int)
    requires 0 <= h && h <= c < dim - h
    ensures WindowCentre(dim, h, c) == ((2 * c) as real) / 2.0
  {
    CentreInterior(dim, h, c);
  }

  /** The coordinates of one axis sum to its centre times its count. */
  lemma AxisCentreMean(dim: int, h: int, c: int)
    requires 0 < dim && 0 <= h && 0 <= c < dim
    ensures Centred(AxisSum(dim, c, -h, h + 1), AxisCount(dim, c, -h, h + 1), WindowCentre(dim, h, c))
  {
    AxisCountPositive(dim, h, c);
    QuotientTimes(AxisSum(dim, c, -h, h + 1) as real, AxisCount(dim, c, -h, h + 1) as real);
  }

  lemma QuotientTimes(s: real, n: real)
    requires n > 0.0
    ensures s == (s / n) * n
  {
  }

  /** CentreInterior for both axes at once. No new fact: one call keeps
      LinearInterior cheap to verify. */
  lemma InteriorCentres(dim: int, h: int, x: int, y: int)
    requires 0 <= h && h <= x < dim - h && h <= y < dim - h
    ensures WindowCentre(dim, h, x) == x as real && WindowCentre(dim, h, y) == y as real
  {
    CentreInterior(dim, h, x);
    CentreInterior(dim, h, y);
  }

  /** Away from the edges a linear grid is left unchanged. */
  lemma LinearInterior(dim: int, p: int, q: int, h: int, x: int, y: int)
    requires 0 <= h && h <= x < dim - h && h <= y < dim - h
    ensures Smoothed(dim, h, x, y, Linear(dim, p, q)) == (p * x + q * y) as real
  {
    InteriorCentres(dim, h, x, y);
    LinearMeanInt(dim, p, q, h, x, y, x, y);
  }

  // ---------------------------------------------------------------------
  // The benchmark's input pattern, cell (x, y) holding x + y

  /** Away from the edges the kernel reproduces the pattern x + y exactly. */
  lemma PatternPreserved(dim: int, h: int, x: int, y: int)
    requires 0 <= h && h <= x < dim - h && h <= y < dim - h
    ensures Smoothed(dim, h, x, y, Linear(dim, 1, 1)) == (x + y) as real
  {
    LinearInterior(dim, 1, 1, h, x, y);
  }

  /** At the corner (0, 0), which holds 0, the kernel returns h: the pattern is
      not preserved at the edges (with h = 1 it averages {0, 1, 1, 2}). */
  lemma PatternCorner(dim: int, h: int)
    requires 0 <= h < dim
    ensures Smoothed(dim, h, 0, 0, Linear(dim, 1, 1)) == h as real
  {
    CentreFirst(dim, h);
    LinearMeanHalf(dim, 1, 1, h, 0, 0, h, h);
  }

  // ---------------------------------------------------------------------
  // The grid holding its own flat index y*dim + x, i.e. Linear(dim, 1, dim).
  // For dim = 4 and h = 1 (the values 0..15) the four lemmas below give
  // 2.5 at (0, 0), 3.0 at (1, 0), 5.0 at (1, 1) and 12.5 at (3, 3): Scenario.

  /** Corner (0, 0): its window covers [0, h] on both axes. */
  lemma RampCorner(dim: int, h: int)
    requires 0 <= h < dim
    ensures Smoothed(dim, h, 0, 0, Linear(dim, 1, dim)) == (((dim + 1) * h) as real) / 2.0
  {
    CentreFirst(dim, h);
    LinearMeanHalf(dim, 1, dim, h, 0, 0, h, h);
    Distrib(dim, h);
  }

  /** A cell (x, 0) of the first row, away from the side edges: its window
      covers [x-h, x+h] by [0, h]. */
  lemma RampTopEdge(dim: int, h: int, x: int)
    requires 0 <= h && h <= x < dim - h
    ensures Smoothed(dim, h, x, 0, Linear(dim, 1, dim)) == ((2 * x + dim * h) as real) / 2.0
  {
    CentreHalf(dim, h, x);
    CentreFirst(dim, h);
    LinearMeanHalf(dim, 1, dim, h, x, 0, 2 * x, h);
  }

  /** An interior cell keeps its own flat index. */
  lemma RampInterior(dim: int, h: int, x: int, y: int)
    requires 0 <= h && h <= x < dim - h && h <= y < dim - h
    ensures Smoothed(dim, h, x, y, Linear(dim, 1, dim)) == Flat(dim, x, y) as real
  {
    LinearInterior(dim, 1, dim, h, x, y);
  }

  /** Corner (dim-1, dim-1): its window covers [dim-1-h, dim-1] on both axes. */
  lemma RampFarCorner(dim: int, h: int)
    requires 0 <= h < dim
    ensures Smoothed(dim, h, dim - 1, dim - 1, Linear(dim, 1, dim)) == (((dim + 1) * (2 * dim - 2 - h)) as real) / 2.0
  {
    CentreLast(dim, h);
    LinearMeanHalf(dim, 1, dim, h, dim - 1, dim - 1, 2 * dim - 2 - h, 2 * dim - 2 - h);
    Distrib(dim, 2 * dim - 2 - h);
  }

  /** The grid 0..15 of dim = 4, smoothed with h = 1, at the cells (0, 0),
      (1, 0), (1, 1) and (3, 3); the coordinates 0, 1 and 3 are passed in as
      first, second and last: with literal arguments Dafny would unroll the
      recursive window sums completely, which makes the proof expensive. */
  lemma Scenario(dim: int, h: int, first: int, second: int, last: int)
    requires dim == 4 && h == 1 && first == 0 && second == 1 && last == 3
    ensures Smoothed(dim, h, first, first, Linear(dim, 1, dim)) == 2.5
    ensures Smoothed(dim, h, second, first, Linear(dim, 1, dim)) == 3.0
    ensures Smoothed(dim, h, second, second, Linear(dim, 1, dim)) == 5.0
    ensures Smoothed(dim, h, last, last, Linear(dim, 1, dim)) == 12.5
  {
    RampCorner(dim, h);
    RampTopEdge(dim, h, second);
    RampInterior(dim, h, second, second);
    RampFarCorner(dim, h);
    ScenarioValues(dim, h, second);
  }

  /** The closed forms of the four ramp lemmas at dim = 4 and h = 1. */
  lemma ScenarioValues(dim: int, h: int, second: int)
    requires dim == 4 && h == 1 && second == 1
    ensures (((dim + 1) * h) as real) / 2.0 == 2.5
    ensures ((2 * second + dim * h) as real) / 2.0 == 3.0
    ensures Flat(dim, second, second) as real == 5.0
    ensures (((dim + 1) * (2 * dim - 2 - h)) as real) / 2.0 == 12.5
  {
  }

  lemma Distrib(d: int, m: int)
    ensures 1 * m + d * m == (d + 1) * m
  {
  }

}
