/** The smoothing routines: the kernel `evaluate` and the traversals that
    write it into every cell of an output buffer. Grids are dim x dim buffers
    of `real` in row-major order. The OpenMP work-sharing loops run here as
    ordinary sequential loops, so the parallel variants are the same loops
    as the serial ones. */
module Smooth {
  import opened Indexing
  import opened Window

  /** The kernel: sum and count the valid cells of the window around (x, y),
      scanning rows yk and columns xk from -halfwidth to halfwidth, and return
      their mean. Every read of m1 is in bounds (the array accesses are
      checked), and the count is at least 1 before the division. */
  method Evaluate(dim: int, halfwidth: int, x: int, y: int, m1: array<real>) returns (r: real)
    requires 0 < dim && 0 <= halfwidth && 0 <= x < dim && 0 <= y < dim
    requires m1.Length == dim * dim
    ensures r == Smoothed(dim, halfwidth, x, y, m1[..])
  {
    var value := 0.0;
    var cellcount := 0;
    var yk := -halfwidth;
    while yk <= halfwidth
      invariant -halfwidth <= yk <= halfwidth + 1
      invariant value == WindowSum(dim, halfwidth, x, y, m1[..], -halfwidth, yk)
      invariant cellcount == WindowCount(dim, halfwidth, x, y, -halfwidth, yk)
    {
      var xk := -halfwidth;
      while xk <= halfwidth
        invariant -halfwidth <= xk <= halfwidth + 1
        invariant value == WindowSum(dim, halfwidth, x, y, m1[..], -halfwidth, yk)
                           + RowSum(dim, x, y, yk, m1[..], -halfwidth, xk)
        invariant cellcount == WindowCount(dim, halfwidth, x, y, -halfwidth, yk)
                               + RowCount(dim, x, y, yk, -halfwidth, xk)
      {
        if y + yk >= 0 && x + xk >= 0 && y + yk < dim && x + xk < dim {
          cellcount := cellcount + 1;
          FlatBound(dim, x + xk, y + yk);
          assert dim * (y + yk) + (x + xk) == Flat(dim, x + xk, y + yk);
          value := value + m1[dim * (y + yk) + (x + xk)];
        }
        xk := xk + 1;
      }
      yk := yk + 1;
    }
    CellCountPositive(dim, halfwidth, x, y);
    r := value / (cellcount as real);
  }

  /** Serial traversal in row-major order: rows y outer, columns x inner. */
  method SmoothSerialYX(dim: int, halfwidth: int, m1: array<real>, m2: array<real>)
    requires 0 <= dim && 0 <= halfwidth
    requires m1.Length == dim * dim && m2.Length == dim * dim && m1 != m2
    modifies m2
    ensures m2[..] == SmoothGrid(dim, halfwidth, m1[..])
  {
    ghost var g := SmoothGrid(dim, halfwidth, m1[..]);
    var y := 0;
    while y < dim
      invariant 0 <= y <= dim
      invariant PrefixDone(m2[..], g, y * dim)
    {
      var x := 0;
      while x < dim
        invariant 0 <= x <= dim
        invariant PrefixDone(m2[..], g, y * dim + x)
      {
        SmoothGridAt(dim, halfwidth, m1[..], x, y);
        ghost var before := m2[..];
        m2[y * dim + x] := Evaluate(dim, halfwidth, x, y, m1);
        NextInPrefix(before, m2[..], g, y * dim + x);
        x := x + 1;
      }
      assert y * dim + dim == (y + 1) * dim;
      y := y + 1;
    }
    PrefixComplete(m2[..], g);
  }

  /** Serial traversal in column-major order: columns x outer, rows y inner.
      Each write still goes to the row-major slot y*dim + x. */
  method SmoothSerialXY(dim: int, halfwidth: int, m1: array<real>, m2: array<real>)
    requires 0 <= dim && 0 <= halfwidth
    requires m1.Length == dim * dim && m2.Length == dim * dim && m1 != m2
    modifies m2
    ensures m2[..] == SmoothGrid(dim, halfwidth, m1[..])
  {
    ghost var g := SmoothGrid(dim, halfwidth, m1[..]);
    var x := 0;
    while x < dim
      invariant 0 <= x <= dim
      invariant ColumnsDone(dim, m2[..], g, x, 0)
    {
      var y := 0;
      while y < dim
        invariant 0 <= y <= dim
        invariant ColumnsDone(dim, m2[..], g, x, y)
      {
        SmoothGridAt(dim, halfwidth, m1[..], x, y);
        ghost var before := m2[..];
        m2[y * dim + x] := Evaluate(dim, halfwidth, x, y, m1);
        NextInColumn(dim, before, m2[..], g, x, y);
        y := y + 1;
      }
      ColumnComplete(dim, m2[..], g, x);
      x := x + 1;
    }
    GridComplete(dim, m2[..], g);
  }

  /** The OpenMP `parallel for` over rows, run sequentially. */
  method SmoothParallelYXFor(dim: int, halfwidth: int, m1: array<real>, m2: array<real>)
    requires 0 <= dim && 0 <= halfwidth
    requires m1.Length == dim * dim && m2.Length == dim * dim && m1 != m2
    modifies m2
    ensures m2[..] == SmoothGrid(dim, halfwidth, m1[..])
  {
    ghost var g := SmoothGrid(dim, halfwidth, m1[..]);
    var y := 0;
    while y < dim
      invariant 0 <= y <= dim
      invariant PrefixDone(m2[..], g, y * dim)
    {
      var x := 0;
      while x < dim
        invariant 0 <= x <= dim
        invariant PrefixDone(m2[..], g, y * dim + x)
      {
        SmoothGridAt(dim, halfwidth, m1[..], x, y);
        ghost var before := m2[..];
        m2[y * dim + x] := Evaluate(dim, halfwidth, x, y, m1);
        NextInPrefix(before, m2[..], g, y * dim + x);
        x := x + 1;
      }
      assert y * dim + dim == (y + 1) * dim;
      y := y + 1;
    }
    PrefixComplete(m2[..], g);
  }

  /** The OpenMP `parallel for` over columns, run sequentially. */
  method SmoothParallelXYFor(dim: int, halfwidth: int, m1: array<real>, m2: array<real>)
    requires 0 <= dim && 0 <= halfwidth
    requires m1.Length == dim * dim && m2.Length == dim * dim && m1 != m2
    modifies m2
    ensures m2[..] == SmoothGrid(dim, halfwidth, m1[..])
  {
    ghost var g := SmoothGrid(dim, halfwidth, m1[..]);
    var x := 0;
    while x < dim
      invariant 0 <= x <= dim
      invariant ColumnsDone(dim, m2[..], g, x, 0)
    {
      var y := 0;
      while y < dim
        invariant 0 <= y <= dim
        invariant ColumnsDone(dim, m2[..], g, x, y)
      {
        SmoothGridAt(dim, halfwidth, m1[..], x, y);
        ghost var before := m2[..];
        m2[y * dim + x] := Evaluate(dim, halfwidth, x, y, m1);
        NextInColumn(dim, before, m2[..], g, x, y);
        y := y + 1;
      }
      ColumnComplete(dim, m2[..], g, x);
      x := x + 1;
    }
    GridComplete(dim, m2[..], g);
  }

  /** The flattened `parallel for` over a in [0, dim*dim), run sequentially;
      each a is decoded into y = a / dim and x = a - y*dim. */
  method SmoothParallelCoalescedFor(dim: int, halfwidth: int, m1: array<real>, m2: array<real>)
    requires 0 <= dim && 0 <= halfwidth
    requires m1.Length == dim * dim && m2.Length == dim * dim && m1 != m2
    modifies m2
    ensures m2[..] == SmoothGrid(dim, halfwidth, m1[..])
  {
    ghost var g := SmoothGrid(dim, halfwidth, m1[..]);
    var a := 0;
    while a < dim * dim
      invariant 0 <= a <= dim * dim
      invariant forall i :: 0 <= i < a ==> m2[i] == g[i]
    {
      FlatDecode(dim, a);
      var y := a / dim;
      var x := a - y * dim;
      m2[a] := Evaluate(dim, halfwidth, x, y, m1);
      a := a + 1;
    }
    assert m2[..] == g;
  }

  /** Two full row-major passes: m3 into m5, then m4 into m6. The inputs may
      be the same buffer; the outputs are distinct from them and from each
      other. */
  method Program1(dim: int, halfwidth: int, m3: array<real>, m4: array<real>, m5: array<real>, m6: array<real>)
    requires 0 <= dim && 0 <= halfwidth
    requires m3.Length == dim * dim && m4.Length == dim * dim
    requires m5.Length == dim * dim && m6.Length == dim * dim
    requires m5 != m6 && m5 != m3 && m5 != m4 && m6 != m3 && m6 != m4
    modifies m5, m6
    ensures m5[..] == SmoothGrid(dim, halfwidth, m3[..])
    ensures m6[..] == SmoothGrid(dim, halfwidth, m4[..])
  {
    SmoothParallelYXFor(dim, halfwidth, m3, m5);
    SmoothParallelYXFor(dim, halfwidth, m4, m6);
  }

  /** Both grids in one flattened loop: each a writes m5[a] from m3 and m6[a]
      from m4. */
  method Program2(dim: int, halfwidth: int, m3: array<real>, m4: array<real>, m5: array<real>, m6: array<real>)
    requires 0 <= dim && 0 <= halfwidth
    requires m3.Length == dim * dim && m4.Length == dim * dim
    requires m5.Length == dim * dim && m6.Length == dim * dim
    requires m5 != m6 && m5 != m3 && m5 != m4 && m6 != m3 && m6 != m4
    modifies m5, m6
    ensures m5[..] == SmoothGrid(dim, halfwidth, m3[..])
    ensures m6[..] == SmoothGrid(dim, halfwidth, m4[..])
  {
    ghost var g5, g6 := SmoothGrid(dim, halfwidth, m3[..]), SmoothGrid(dim, halfwidth, m4[..]);
    var a := 0;
    while a < dim * dim
      invariant 0 <= a <= dim * dim
      invariant forall i :: 0 <= i < a ==> m5[i] == g5[i] && m6[i] == g6[i]
    {
      FlatDecode(dim, a);
      var y := a / dim;
      var x := a - y * dim;
      m5[a] := Evaluate(dim, halfwidth, x, y, m3);
      m6[a] := Evaluate(dim, halfwidth, x, y, m4);
      a := a + 1;
    }
    assert m5[..] == g5;
    assert m6[..] == g6;
  }

  // ---------------------------------------------------------------------
  // The strategies agree

  /** Runs the five traversals on one input into fresh buffers: all five
      outputs are the same grid. */
  method CompareTraversals(dim: int, halfwidth: int, m1: array<real>)
    returns (yx: array<real>, xy: array<real>, pyx: array<real>, pxy: array<real>, pc: array<real>)
    requires 0 <= dim && 0 <= halfwidth && m1.Length == dim * dim
    ensures fresh(yx) && fresh(xy) && fresh(pyx) && fresh(pxy) && fresh(pc)
    ensures yx[..] == SmoothGrid(dim, halfwidth, m1[..])
    ensures xy[..] == yx[..] && pyx[..] == yx[..] && pxy[..] == yx[..] && pc[..] == yx[..]
  {
    yx := new real[dim * dim];
    SmoothSerialYX(dim, halfwidth, m1, yx);
    xy := new real[dim * dim];
    SmoothSerialXY(dim, halfwidth, m1, xy);
    pyx := new real[dim * dim];
    SmoothParallelYXFor(dim, halfwidth, m1, pyx);
    pxy := new real[dim * dim];
    SmoothParallelXYFor(dim, halfwidth, m1, pxy);
    pc := new real[dim * dim];
    SmoothParallelCoalescedFor(dim, halfwidth, m1, pc);
  }

  /** Runs both pipelines on the same two inputs into fresh buffers: they
      leave the same pair of outputs. */
  method ComparePrograms(dim: int, halfwidth: int, m3: array<real>, m4: array<real>)
    returns (m5: array<real>, m6: array<real>, n5: array<real>, n6: array<real>)
    requires 0 <= dim && 0 <= halfwidth && m3.Length == dim * dim && m4.Length == dim * dim
    ensures fresh(m5) && fresh(m6) && fresh(n5) && fresh(n6)
    ensures m5[..] == SmoothGrid(dim, halfwidth, m3[..]) && m6[..] == SmoothGrid(dim, halfwidth, m4[..])
    ensures n5[..] == m5[..] && n6[..] == m6[..]
  {
    m5 := new real[dim * dim];
    m6 := new real[dim * dim];
    Program1(dim, halfwidth, m3, m4, m5, m6);
    n5 := new real[dim * dim];
    n6 := new real[dim * dim];
    Program2(dim, halfwidth, m3, m4, n5, n6);
  }

  // ---------------------------------------------------------------------
  // Column-major progress

  /** Every cell of the columns before x, and of column x above row y, holds
      its value in g. */
  ghost predicate ColumnsDone(dim: int, m: seq<real>, g: seq<real>, x: int, y: int)
    requires |m| == dim * dim && |g| == dim * dim
  {
    forall c, r :: 0 <= c < dim && 0 <= r < dim && (c < x || (c == x && r < y)) ==>
      FlatInRange(dim, c, r) && m[Flat(dim, c, r)] == g[Flat(dim, c, r)]
  }

  /** A cell of the grid has a slot in a buffer of length dim*dim. */
  predicate FlatInRange(dim: int, c: int, r: int)
  {
    0 <= Flat(dim, c, r) < dim * dim
  }

  /** Writing g's value into slot (x, y) extends the finished part of column x
      by one row, and leaves every other slot as it was. */
  lemma NextInColumn(dim: int, before: seq<real>, after: seq<real>, g: seq<real>, x: int, y: int)
    requires 0 <= x < dim && 0 <= y < dim
    requires |before| == dim * dim && |g| == dim * dim && 0 <= Flat(dim, x, y) < dim * dim
    requires after == before[Flat(dim, x, y) := g[Flat(dim, x, y)]]
    requires ColumnsDone(dim, before, g, x, y)
    ensures ColumnsDone(dim, after, g, x, y + 1)
  {
    forall c, r | 0 <= c < dim && 0 <= r < dim && (c < x || (c == x && r < y + 1))
      ensures FlatInRange(dim, c, r) && after[Flat(dim, c, r)] == g[Flat(dim, c, r)]
    {
      FlatInGrid(dim, c, r);
      FlatInGrid(dim, x, y);
    }
  }

  /** A column whose every row is done completes the columns before x + 1. */
  lemma ColumnComplete(dim: int, m: seq<real>, g: seq<real>, x: int)
    requires |m| == dim * dim && |g| == dim * dim
    requires ColumnsDone(dim, m, g, x, dim)
    ensures ColumnsDone(dim, m, g, x + 1, 0)
  {
  }

  /** Once every column is done the buffer is the grid g. */
  lemma GridComplete(dim: int, m: seq<real>, g: seq<real>)
    requires 0 <= dim && |m| == dim * dim && |g| == dim * dim
    requires ColumnsDone(dim, m, g, dim, 0)
    ensures m == g
  {
    forall a | 0 <= a < dim * dim
      ensures m[a] == g[a]
    {
      FlatDecode(dim, a);
      var y := a / dim;
      var x := a - y * dim;
      assert 0 <= x < dim && 0 <= y < dim && Flat(dim, x, y) == a;
    }
  }

  // ---------------------------------------------------------------------
  // Row-major progress

  /** The first n slots of m hold their values in g. */
  ghost predicate PrefixDone(m: seq<real>, g: seq<real>, n: int)
  {
    0 <= n <= |m| && n <= |g| && forall a :: 0 <= a < n ==> m[a] == g[a]
  }

  /** Writing g's value into slot n extends the finished prefix by one. */
  lemma NextInPrefix(before: seq<real>, after: seq<real>, g: seq<real>, n: int)
    requires 0 <= n < |before| && n < |g|
    requires after == before[n := g[n]]
    requires PrefixDone(before, g, n)
    ensures PrefixDone(after, g, n + 1)
  {
  }

  /** A prefix covering the whole buffer makes it equal to g. */
  lemma PrefixComplete(m: seq<real>, g: seq<real>)
    requires |m| == |g| && PrefixDone(m, g, |m|)
    ensures m == g
  {
  }
}
