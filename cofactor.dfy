/**
 * `matrix::getCofactor(A, temp, p, q, n, order)`: copies the (p, q) minor of
 * the leading n-by-n block of A into the leading (n-1)-by-(n-1) block of
 * temp.  Both buffers are order-by-order in the layout of `get`; the copy
 * walks A in the order `row`, then `col`, and places each kept element at
 * `temp[i + j * order]`, advancing `j` and wrapping to the next `i` when a
 * row of the minor is full.
 */
module Cofactor {
  import Layout

  /** The index in the original block of the r-th index kept when index p is removed. */
  function OriginalIndex(r: int, p: int): int
  {
    if r < p then r else r + 1
  }

  /** How many indices below r are kept when index p is removed. */
  function KeptBelow(r: int, p: int): int
  {
    if r <= p then r else r - 1
  }

  /**
   * The minor keeps the other indices in their original order: the kept
   * indices never include p, are strictly increasing, and every index other
   * than p below n is kept exactly once, at position KeptBelow.
   */
  lemma MinorKeepsOrder(p: int, n: int, r: int, r': int)
    requires 0 <= p < n
    ensures OriginalIndex(r, p) != p
    ensures r < r' ==> OriginalIndex(r, p) < OriginalIndex(r', p)
    ensures 0 <= r < n - 1 ==> 0 <= OriginalIndex(r, p) < n
    ensures 0 <= r < n && r != p ==> 0 <= KeptBelow(r, p) < n - 1 && OriginalIndex(KeptBelow(r, p), p) == r
    ensures 0 <= r ==> KeptBelow(OriginalIndex(r, p), p) == r
  {
  }

  /** Position k of an order-wide buffer lies in its leading (n-1)-by-(n-1) block. */
  predicate InMinorBlock(order: nat, n: nat, k: int)
    requires 0 < order
  {
    0 <= k && k % order < n - 1 && k / order < n - 1
  }

  /** The element of A that cell (i, j) of the minor holds. */
  function MinorValue(a: seq<int>, p: nat, q: nat, n: nat, order: nat, i: int, j: int): int
    requires p < n <= order && q < n && order * order <= |a|
    requires 0 <= i < n - 1 && 0 <= j < n - 1
  {
    Layout.IndexBound(order, order, OriginalIndex(i, p), OriginalIndex(j, q));
    a[Layout.Index(order, OriginalIndex(i, p), OriginalIndex(j, q))]
  }

  /** temp after the copy: the leading block holds the minor, every other position is as before. */
  function CofactorOf(a: seq<int>, t: seq<int>, p: nat, q: nat, n: nat, order: nat): (r: seq<int>)
    requires p < n <= order && q < n && order * order <= |a|
    ensures |r| == |t|
  {
    seq(|t|, k requires 0 <= k < |t| =>
      if InMinorBlock(order, n, k) then MinorValue(a, p, q, n, order, k % order, k / order) else t[k])
  }

  /** Cell (i, j) of the copied minor (`temp.get(i, j)` with extent order) is the cell of A past row p and column q. */
  lemma CofactorCell(a: seq<int>, t: seq<int>, p: nat, q: nat, n: nat, order: nat, i: int, j: int)
    requires p < n <= order && q < n && order * order <= |a| && order * order <= |t|
    requires 0 <= i < n - 1 && 0 <= j < n - 1
    ensures 0 <= Layout.Index(order, i, j) < |t|
    ensures 0 <= Layout.Index(order, OriginalIndex(i, p), OriginalIndex(j, q)) < |a|
    ensures CofactorOf(a, t, p, q, n, order)[Layout.Index(order, i, j)] ==
      a[Layout.Index(order, OriginalIndex(i, p), OriginalIndex(j, q))]
  {
    Layout.IndexBound(order, order, i, j);
    Layout.IndexDecompose(order, i, j);
    Layout.IndexBound(order, order, OriginalIndex(i, p), OriginalIndex(j, q));
  }

  /** temp once the copy has filled every minor cell before (ci, cj). */
  function Filled(a: seq<int>, t: seq<int>, p: nat, q: nat, n: nat, order: nat, ci: int, cj: int): (r: seq<int>)
    requires p < n <= order && q < n && order * order <= |a|
    ensures |r| == |t|
  {
    seq(|t|, k requires 0 <= k < |t| =>
      if InMinorBlock(order, n, k) && Layout.Before(k % order, k / order, ci, cj)
      then MinorValue(a, p, q, n, order, k % order, k / order) else t[k])
  }

  /** Writing cell (ci, cj) extends the filled part by that cell. */
  lemma FilledStep(a: seq<int>, t: seq<int>, p: nat, q: nat, n: nat, order: nat, ci: int, cj: int)
    requires p < n <= order && q < n && order * order <= |a| && order * order <= |t|
    requires 0 <= ci < n - 1 && 0 <= cj < n - 1
    ensures 0 <= Layout.Index(order, ci, cj) < |t|
    ensures Filled(a, t, p, q, n, order, ci, cj)[Layout.Index(order, ci, cj) := MinorValue(a, p, q, n, order, ci, cj)] ==
      Filled(a, t, p, q, n, order, ci, cj + 1)
  {
    var pos := Layout.Index(order, ci, cj);
    Layout.IndexBound(order, order, ci, cj);
    Layout.IndexDecompose(order, ci, cj);
    forall k | 0 <= k < |t| && k != pos
      ensures !(InMinorBlock(order, n, k) && k % order == ci && k / order == cj)
    {
      assert Layout.Index(order, k % order, k / order) == k;
    }
  }

  /** A full row of the minor: filling up to (ci, n-1) is filling up to (ci+1, 0). */
  lemma FilledWrap(a: seq<int>, t: seq<int>, p: nat, q: nat, n: nat, order: nat, ci: int)
    requires p < n <= order && q < n && order * order <= |a|
    ensures Filled(a, t, p, q, n, order, ci, n - 1) == Filled(a, t, p, q, n, order, ci + 1, 0)
  {
    forall k | 0 <= k < |t| && InMinorBlock(order, n, k)
      ensures Layout.Before(k % order, k / order, ci, n - 1) <==> Layout.Before(k % order, k / order, ci + 1, 0)
    {
      Layout.CoordinatesNonNegative(order, k);
    }
  }

  /** Filling every row of the minor is the whole copy. */
  lemma FilledAll(a: seq<int>, t: seq<int>, p: nat, q: nat, n: nat, order: nat)
    requires p < n <= order && q < n && order * order <= |a|
    ensures Filled(a, t, p, q, n, order, n - 1, 0) == CofactorOf(a, t, p, q, n, order)
  {
  }

  /**
   * The running counters when the scan reaches cell (row, col): in row p
   * nothing is kept; in any other row, i is the minor row of `row` and j
   * counts the kept cells before `col`, wrapping to the next minor row once
   * all n - 1 cells of the row are kept.
   */
  predicate CountersAt(p: int, q: int, n: int, row: int, col: int, i: int, j: int)
  {
    if row == p then i == KeptBelow(row, p) && j == 0
    else if KeptBelow(col, q) < n - 1 then i == KeptBelow(row, p) && j == KeptBelow(col, q)
    else KeptBelow(col, q) == n - 1 && i == KeptBelow(row, p) + 1 && j == 0
  }

  /**
   * One scanned cell (row, col): a kept cell is written at (i, j) of temp,
   * which fills one more minor cell, and the counters move on as
   * getCofactor moves them, wrapping at the end of a minor row.
   */
  lemma CellStep(a: seq<int>, t: seq<int>, p: nat, q: nat, n: nat, order: nat, row: nat, col: nat, i: int, j: int)
    requires p < n <= order && q < n && order * order <= |a| && order * order <= |t|
    requires row < n && col < n && CountersAt(p, q, n, row, col, i, j)
    ensures row != p && col != q ==>
      0 <= Layout.Index(order, i, j) < |t| && 0 <= Layout.Index(order, row, col) < |a| &&
      Filled(a, t, p, q, n, order, i, j)[Layout.Index(order, i, j) := a[Layout.Index(order, row, col)]] ==
      Filled(a, t, p, q, n, order, if j + 1 == n - 1 then i + 1 else i, if j + 1 == n - 1 then 0 else j + 1)
    ensures row != p && col != q ==>
      CountersAt(p, q, n, row, col + 1, if j + 1 == n - 1 then i + 1 else i, if j + 1 == n - 1 then 0 else j + 1)
    ensures row == p || col == q ==> CountersAt(p, q, n, row, col + 1, i, j)
  {
    MinorKeepsOrder(p, n, row, row);
    MinorKeepsOrder(q, n, col, col);
    if row != p && col != q {
      Layout.IndexBound(order, order, row, col);
      FilledStep(a, t, p, q, n, order, i, j);
      assert a[Layout.Index(order, row, col)] == MinorValue(a, p, q, n, order, i, j);
      if j + 1 == n - 1 {
        FilledWrap(a, t, p, q, n, order, i);
      }
    }
  }

  /** A scan of row `row` starts with j == 0 at minor row KeptBelow(row, p) and ends at the next row's start. */
  lemma CountersRow(p: nat, q: nat, n: nat, row: nat, i: int, j: int)
    requires p < n && q < n && row < n
    ensures i == KeptBelow(row, p) ==> CountersAt(p, q, n, row, 0, i, 0)
    ensures CountersAt(p, q, n, row, n, i, j) ==> i == KeptBelow(row + 1, p) && j == 0
  {
  }

  /**
   * The inner loop of getCofactor for one row of A: it scans the n cells of
   * the row, copying each kept one at (i, j) of temp, and leaves i at the
   * minor row of the next row.
   */
  method CopyRow(a: array<int>, temp: array<int>, p: nat, q: nat, n: nat, order: nat, row: nat, i0: int,
                 ghost s: seq<int>, ghost t0: seq<int>) returns (i: int)
    requires a != temp && s == a[..]
    requires p < n <= order && q < n && row < n
    requires order * order <= a.Length && order * order <= temp.Length && |t0| == temp.Length
    requires i0 == KeptBelow(row, p) && temp[..] == Filled(s, t0, p, q, n, order, i0, 0)
    modifies temp
    ensures i == KeptBelow(row + 1, p) && temp[..] == Filled(s, t0, p, q, n, order, i, 0)
  {
    i := i0;
    var j := 0;
    var col := 0;
    CountersRow(p, q, n, row, i, j);
    while col < n
      invariant 0 <= col <= n
      invariant CountersAt(p, q, n, row, col, i, j)
      invariant temp[..] == Filled(s, t0, p, q, n, order, i, j)
    {
      CellStep(s, t0, p, q, n, order, row, col, i, j);
      if row != p && col != q {
        temp[i + j * order] := a[row + col * order];
        j := j + 1;
        if j == n - 1 {
          j := 0;
          i := i + 1;
        }
      }
      col := col + 1;
    }
    CountersRow(p, q, n, row, i, j);
  }

  /** The copy with its running counters i and j, as getCofactor performs it. */
  method GetCofactor(a: array<int>, temp: array<int>, p: nat, q: nat, n: nat, order: nat)
    requires a != temp
    requires p < n <= order && q < n
    requires order * order <= a.Length && order * order <= temp.Length
    modifies temp
    ensures temp[..] == CofactorOf(a[..], old(temp[..]), p, q, n, order)
  {
    ghost var t0 := temp[..];
    ghost var s := a[..];
    var i := 0;
    var row := 0;
    while row < n
      invariant 0 <= row <= n
      invariant i == KeptBelow(row, p)
      invariant temp[..] == Filled(s, t0, p, q, n, order, i, 0)
    {
      i := CopyRow(a, temp, p, q, n, order, row, i, s, t0);
      row := row + 1;
    }
    FilledAll(s, t0, p, q, n, order);
  }
}
