/** Row-major layout of a dim x dim grid stored as one flat buffer. */
module Indexing {

  /** Flat index of cell (x, y): the source writes it `y*dim+x` in the
      traversals and `dim*(y+yk)+(x+xk)` inside the kernel. */
  function Flat(dim: int, x: int, y: int): (a: int)
  {
    y * dim + x
  }

  /** Encoding a cell and decoding it again gives the cell back, and every
      cell of the grid has its own slot inside the buffer. */
  lemma FlatInGrid(dim: int, x: int, y: int)
    requires 0 <= x < dim && 0 <= y < dim
    ensures 0 <= Flat(dim, x, y) < dim * dim
    ensures Flat(dim, x, y) / dim == y && Flat(dim, x, y) % dim == x
  {
    FlatBound(dim, x, y);
    FlatDivMod(dim, x, y);
  }

  /** Every cell of the grid has a slot inside the buffer. */
  lemma FlatBound(dim: int, x: int, y: int)
    requires 0 <= x < dim && 0 <= y < dim
    ensures 0 <= Flat(dim, x, y) < dim * dim
  {
    assert y * dim + x < (y + 1) * dim;
    assert (y + 1) * dim <= dim * dim;
  }

  lemma FlatDivMod(dim: int, x: int, y: int)
    requires 0 <= x < dim && 0 <= y
    ensures (y * dim + x) / dim == y && (y * dim + x) % dim == x
  {
    var q, r := (y * dim + x) / dim, (y * dim + x) % dim;
    assert (q - y) * dim == x - r;
    if q - y >= 1 {
      MulMonotone(dim, 1, q - y);
      assert false;
    } else if q - y <= -1 {
      MulMonotone(dim, q - y, -1);
      assert false;
    }
  }

  /** The decoding of the coalesced loops, `y = a / dim; x = a - y * dim`,
      yields a cell of the grid whose flat index is `a` again, and its `x`
      is `a % dim`: decode-then-encode is the identity on [0, dim*dim). */
  lemma FlatDecode(dim: int, a: int)
    requires 0 < dim && 0 <= a < dim * dim
    ensures 0 <= a / dim < dim
    ensures a - (a / dim) * dim == a % dim
    ensures 0 <= a - (a / dim) * dim < dim
    ensures Flat(dim, a - (a / dim) * dim, a / dim) == a
  {
    var q := a / dim;
    assert q * dim + a % dim == a;
    if q >= dim {
      assert false;
    }
  }

  lemma MulMonotone(k: int, a: int, b: int)
    requires 0 <= k && a <= b
    ensures a * k <= b * k
  {
  }
}
