/**
 * Storage layout of a matrix: `get(x, y)` reads `arr[x + y * xdim]`, so the
 * first coordinate varies fastest.  The lemmas here are the index arithmetic
 * every loop over such a buffer relies on.
 */
module Layout {

  /** Position of cell (x, y) in the buffer of a matrix whose first extent is `xdim`. */
  function Index(xdim: int, x: int, y: int): int
  {
    x + y * xdim
  }

  lemma MulMono(a: int, b: int, c: int)
    requires 0 <= a <= b && 0 <= c
    ensures a * c <= b * c
  {
    assert b * c - a * c == (b - a) * c;
  }

  /** The cell (x, y) of an xdim-by-ydim matrix lies inside its buffer. */
  lemma IndexBound(xdim: int, ydim: int, x: int, y: int)
    requires 0 <= x < xdim && 0 <= y < ydim
    ensures 0 <= Index(xdim, x, y) < xdim * ydim
  {
    MulMono(y + 1, ydim, xdim);
    assert (y + 1) * xdim == y * xdim + xdim;
    MulMono(0, y, xdim);
  }

  /** Cells of row y occupy exactly the block [y * xdim, y * xdim + xdim). */
  lemma IndexInBlock(xdim: int, x: int, y: int, lo: int, hi: int)
    requires 0 <= x < xdim && 0 <= y && 0 <= lo <= hi
    ensures lo * xdim <= Index(xdim, x, y) < hi * xdim <==> lo <= y < hi
  {
    if lo <= y {
      MulMono(lo, y, xdim);
    } else {
      MulMono(y + 1, lo, xdim);
      assert (y + 1) * xdim == y * xdim + xdim;
    }
    if y < hi {
      MulMono(y + 1, hi, xdim);
      assert (y + 1) * xdim == y * xdim + xdim;
    } else {
      MulMono(hi, y, xdim);
    }
  }

  /** Dividing a position inside block q by the block width gives q. */
  lemma DivInBlock(k: int, q: int, d: int)
    requires d > 0 && q * d <= k < q * d + d
    ensures k / d == q && k % d == k - q * d
  {
    var q' := k / d;
    assert d * q' + k % d == k;
    if q' < q {
      MulMono(q' + 1, q, d);
    } else if q' > q {
      MulMono(q + 1, q', d);
    }
  }

  /** Both coordinates of a position are non-negative. */
  lemma CoordinatesNonNegative(w: int, k: int)
    requires 0 < w && 0 <= k
    ensures 0 <= k / w && 0 <= k % w < w
  {
  }

  /** A position whose coordinates are (x, y) is the position of cell (x, y). */
  lemma SameCoordinates(w: int, k: int, x: int, y: int)
    requires 0 < w && 0 <= k
    ensures k % w == x && k / w == y ==> k == Index(w, x, y)
  {
  }

  /** The coordinates of a cell are recovered from its position. */
  lemma IndexDecompose(xdim: int, x: int, y: int)
    requires 0 <= x < xdim && 0 <= y
    ensures Index(xdim, x, y) / xdim == y && Index(xdim, x, y) % xdim == x
  {
    DivInBlock(Index(xdim, x, y), y, xdim);
  }

  /** Every position of an xdim-by-ydim buffer is the position of exactly one cell. */
  lemma PositionIsIndex(xdim: int, ydim: int, k: int)
    requires 0 < xdim && 0 <= k < xdim * ydim
    ensures 0 <= k % xdim < xdim && 0 <= k / xdim < ydim
    ensures Index(xdim, k % xdim, k / xdim) == k
  {
    if k / xdim >= ydim {
      MulMono(ydim, k / xdim, xdim);
    }
  }

  /** Distinct cells of a matrix have distinct positions. */
  lemma IndexInjective(xdim: int, x: int, y: int, x': int, y': int)
    requires 0 <= x < xdim && 0 <= y && 0 <= x' < xdim && 0 <= y'
    ensures Index(xdim, x, y) == Index(xdim, x', y') <==> x == x' && y == y'
  {
    IndexDecompose(xdim, x, y);
    IndexDecompose(xdim, x', y');
  }

  /** A position lies in the blocks of rows [lo, hi) exactly when its row does. */
  lemma RowOfPosition(w: int, k: int, lo: int, hi: int)
    requires 0 < w && 0 <= k && 0 <= lo <= hi
    ensures lo * w <= k < hi * w <==> lo <= k / w < hi
  {
    assert Index(w, k % w, k / w) == k;
    IndexInBlock(w, k % w, k / w, lo, hi);
  }

  /**
   * Pair (i, j) comes before pair (ci, cj) in the order two nested loops
   * visit them, i in the outer loop and j in the inner one.
   */
  predicate Before(i: int, j: int, ci: int, cj: int)
  {
    i < ci || (i == ci && j < cj)
  }

  /** Position j of row i lies before the end of row hi - 1, so inside any buffer that holds hi rows of width w. */
  lemma CellInRows(i: int, j: int, w: int, hi: int)
    requires 0 <= i < hi && 0 <= j < w
    ensures 0 <= i * w + j < hi * w
  {
    MulMono(i + 1, hi, w);
    MulMono(0, i, w);
    assert (i + 1) * w == i * w + w;
  }
}
