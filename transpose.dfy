/**
 * `matrix::transpose`: the result is a new ydim-by-xdim matrix, and each
 * rank fills the rows of the result that correspond to the rows `i` of its
 * share of the input, writing `result[j + i * Acol] := A[j * Arow + i]` for
 * every `j < Acol`.  As written there is no leftover pass; the corrected
 * variant adds the leftover rows of the corrected split.
 */
module Transpose {
  import Layout
  import Partition
  import opened Distribution
  import opened Matrices

  /** The input position that position `k` of the transposed buffer is copied from. */
  function TransposeSource(arow: nat, acol: nat, k: int): int
    requires 0 < acol
  {
    (k % acol) * arow + k / acol
  }

  /** The copy for cell (i, j): position j + i * Acol of the result reads position j * Arow + i of the input. */
  lemma TransposeSourceCell(arow: nat, acol: nat, i: int, j: int)
    requires 0 <= i < arow && 0 <= j < acol
    ensures 0 <= Layout.Index(acol, j, i) < arow * acol
    ensures 0 <= Layout.Index(arow, i, j) < arow * acol
    ensures TransposeSource(arow, acol, Layout.Index(acol, j, i)) == Layout.Index(arow, i, j)
  {
    Layout.IndexDecompose(acol, j, i);
    Layout.IndexBound(acol, arow, j, i);
    Layout.IndexBound(arow, acol, i, j);
  }

  function SourceValue(s: seq<int>, arow: nat, acol: nat, k: int): int
    requires |s| == arow * acol && 0 <= k < |s|
  {
    Layout.PositionIsIndex(acol, arow, k);
    TransposeSourceCell(arow, acol, k / acol, k % acol);
    s[TransposeSource(arow, acol, k)]
  }

  /** The full transpose of the buffer of an arow-by-acol matrix. */
  function Transposed(s: seq<int>, arow: nat, acol: nat): (t: seq<int>)
    requires |s| == arow * acol
    ensures |t| == |s|
  {
    seq(|s|, k requires 0 <= k < |s| => SourceValue(s, arow, acol, k))
  }

  /** Cell (j, i) of the transpose is cell (i, j) of the input: `result.get(j, i) == A.get(i, j)`. */
  lemma TransposedCell(s: seq<int>, arow: nat, acol: nat, i: int, j: int)
    requires |s| == arow * acol && 0 <= i < arow && 0 <= j < acol
    ensures 0 <= Layout.Index(acol, j, i) < |s| && 0 <= Layout.Index(arow, i, j) < |s|
    ensures Transposed(s, arow, acol)[Layout.Index(acol, j, i)] == s[Layout.Index(arow, i, j)]
  {
    TransposeSourceCell(arow, acol, i, j);
  }

  /** Transposing twice gives back the input. */
  lemma TransposedInvolution(s: seq<int>, arow: nat, acol: nat)
    requires |s| == arow * acol
    ensures Transposed(Transposed(s, arow, acol), acol, arow) == s
  {
    var t := Transposed(s, arow, acol);
    var u := Transposed(t, acol, arow);
    forall k | 0 <= k < |s|
      ensures u[k] == s[k]
    {
      Layout.PositionIsIndex(arow, acol, k);
      var x, y := k % arow, k / arow;
      TransposedCell(t, acol, arow, y, x);
      TransposedCell(s, arow, acol, x, y);
    }
  }

  /**
   * The loop nest of transpose over the input rows [lo, hi): the result
   * positions of those rows receive the transpose, every other position
   * keeps its value.
   */
  method TransposeRows(a: Matrix, result: Matrix, lo: nat, hi: nat)
    requires a.Valid() && result.Valid() && result.arr != a.arr
    requires result.xdim == a.ydim && result.ydim == a.xdim
    requires lo <= hi <= a.xdim
    modifies result.arr
    ensures result.arr[..] == Between(Transposed(a.arr[..], a.xdim, a.ydim), old(result.arr[..]), lo * a.ydim, hi * a.ydim)
    ensures forall i, j :: lo <= i < hi && 0 <= j < a.ydim ==>
      0 <= Layout.Index(a.ydim, j, i) < result.arr.Length && 0 <= Layout.Index(a.xdim, i, j) < a.arr.Length &&
      result.arr[Layout.Index(a.ydim, j, i)] == a.arr[Layout.Index(a.xdim, i, j)]
  {
    var arow, acol := a.xdim, a.ydim;
    ghost var t := Transposed(a.arr[..], arow, acol);
    ghost var s := result.arr[..];
    BetweenEmpty(t, s, lo * acol);
    var i := lo;
    while i < hi
      invariant lo <= i <= hi
      invariant result.arr[..] == Between(t, s, lo * acol, i * acol)
    {
      var j := 0;
      Layout.MulMono(lo, i, acol);
      while j < acol
        invariant 0 <= j <= acol
        invariant result.arr[..] == Between(t, s, lo * acol, i * acol + j)
      {
        TransposedCell(a.arr[..], arow, acol, i, j);
        BetweenStep(t, s, lo * acol, i * acol + j);
        result.arr[j + i * acol] := a.arr[j * arow + i];
        j := j + 1;
      }
      assert (i + 1) * acol == i * acol + acol;
      i := i + 1;
    }
    forall i, j | lo <= i < hi && 0 <= j < acol
      ensures 0 <= Layout.Index(acol, j, i) < result.arr.Length && 0 <= Layout.Index(arow, i, j) < a.arr.Length
      ensures result.arr[Layout.Index(acol, j, i)] == a.arr[Layout.Index(arow, i, j)]
    {
      TransposedCell(a.arr[..], arow, acol, i, j);
      Layout.IndexInBlock(acol, j, i, lo, hi);
    }
  }

  /** One rank's call of transpose as written: its base range only, no leftover pass. */
  method TransposeRank(a: Matrix, result: Matrix, rank: nat, parCount: nat)
    requires a.Valid() && result.Valid() && result.arr != a.arr
    requires result.xdim == a.ydim && result.ydim == a.xdim
    requires 0 < a.xdim && 0 < parCount
    modifies result.arr
    ensures result.arr[..] == RankWrite(BaseOnly, Transposed(a.arr[..], a.xdim, a.ydim), old(result.arr[..]), a.xdim, parCount, rank, a.ydim)
  {
    var range := Partition.RankRange(a.xdim, parCount, rank);
    if rank < Partition.Participants(parCount, a.xdim) {
      Partition.BaseRangeInBounds(a.xdim, parCount, rank);
    }
    BaseShare(Transposed(a.arr[..], a.xdim, a.ydim), result.arr[..], a.xdim, parCount, rank, a.ydim);
    TransposeRows(a, result, range.start, range.end);
  }

  /**
   * Every rank's call of transpose as written: the result holds the
   * transpose in the rows for the first `rows - rows % P'` input rows, and the
   * rows for the last `rows % P'` input rows are never written.
   */
  method TransposeGroup(a: Matrix, result: Matrix, parCount: nat)
    requires a.Valid() && result.Valid() && result.arr != a.arr
    requires result.xdim == a.ydim && result.ydim == a.xdim
    requires 0 < a.xdim && 0 < parCount
    modifies result.arr
    ensures result.arr[..] == Between(Transposed(a.arr[..], a.xdim, a.ydim), old(result.arr[..]),
                                      0, (a.xdim - a.xdim % Partition.Participants(parCount, a.xdim)) * a.ydim)
  {
    ghost var t := Transposed(a.arr[..], a.xdim, a.ydim);
    ghost var s := result.arr[..];
    var rank := 0;
    while rank < parCount
      invariant rank <= parCount
      invariant result.arr[..] == GroupWrite(BaseOnly, t, s, a.xdim, parCount, a.ydim, rank)
    {
      TransposeRank(a, result, rank, parCount);
      rank := rank + 1;
    }
    GroupWriteCovers(BaseOnly, t, s, a.xdim, parCount, a.ydim);
  }

  /** One rank's call of transpose with the leftover pass of the corrected split. */
  method TransposeRankFixed(a: Matrix, result: Matrix, rank: nat, parCount: nat)
    requires a.Valid() && result.Valid() && result.arr != a.arr
    requires result.xdim == a.ydim && result.ydim == a.xdim
    requires 0 < a.xdim && 0 < parCount
    modifies result.arr
    ensures result.arr[..] == RankWrite(WithLeftover, Transposed(a.arr[..], a.xdim, a.ydim), old(result.arr[..]), a.xdim, parCount, rank, a.ydim)
  {
    var range := Partition.RankRange(a.xdim, parCount, rank);
    var extra := Partition.FixedLeftoverRow(a.xdim, parCount, rank);
    if rank < Partition.Participants(parCount, a.xdim) {
      Partition.BaseRangeInBounds(a.xdim, parCount, rank);
    }
    LeftoverShare(Transposed(a.arr[..], a.xdim, a.ydim), result.arr[..], a.xdim, parCount, rank, a.ydim);
    if extra.Some? {
      TransposeRows(a, result, extra.value, extra.value + 1);
    }
    TransposeRows(a, result, range.start, range.end);
  }

  /** Every rank's call of the corrected transpose: the result is the whole transpose. */
  method TransposeGroupFixed(a: Matrix, result: Matrix, parCount: nat)
    requires a.Valid() && result.Valid() && result.arr != a.arr
    requires result.xdim == a.ydim && result.ydim == a.xdim
    requires 0 < a.xdim && 0 < parCount
    modifies result.arr
    ensures result.arr[..] == Transposed(a.arr[..], a.xdim, a.ydim)
  {
    ghost var t := Transposed(a.arr[..], a.xdim, a.ydim);
    ghost var s := result.arr[..];
    var rank := 0;
    while rank < parCount
      invariant rank <= parCount
      invariant result.arr[..] == GroupWrite(WithLeftover, t, s, a.xdim, parCount, a.ydim, rank)
    {
      TransposeRankFixed(a, result, rank, parCount);
      rank := rank + 1;
    }
    GroupWriteComplete(t, s, a.xdim, parCount, a.ydim);
  }
}
