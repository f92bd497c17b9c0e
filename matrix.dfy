/**
 * A distributed matrix as each process sees it: its two extents and the
 * shared buffer it is stored in, laid out as Layout describes.  The
 * buffer's name and its place in the registry are modelled in Registry.
 */
module Matrices {
  import Layout

  class Matrix {
    const xdim: nat
    const ydim: nat
    const arr: array<int>

    ghost predicate Valid()
    {
      arr.Length == xdim * ydim
    }

    /** A new x-by-y matrix over a fresh buffer of x * y elements. */
    constructor (xdim: nat, ydim: nat)
      ensures Valid() && fresh(arr)
      ensures this.xdim == xdim && this.ydim == ydim
    {
      this.xdim := xdim;
      this.ydim := ydim;
      arr := new int[xdim * ydim];
    }

    /** `get(x, y)`: the element of cell (x, y). */
    function Get(x: nat, y: nat): (v: int)
      requires Valid() && x < xdim && y < ydim
      reads arr
      ensures 0 <= Layout.Index(xdim, x, y) < arr.Length && v == arr[Layout.Index(xdim, x, y)]
    {
      Layout.IndexBound(xdim, ydim, x, y);
      arr[Layout.Index(xdim, x, y)]
    }
  }
}
