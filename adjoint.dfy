/**
 * `matrix::adjoint(A, adj, order, par_id, par_count)`: each rank takes the
 * columns `[start, end)` of the unclamped split of `order` columns and, for
 * every row `i` and every such column `j`, stores the signed determinant of
 * the (i, j) minor at `adj[j + i * order]`, which transposes the cofactor
 * matrix.  An order-1 matrix has adjoint `[1]`.
 *
 * The determinant of each minor (getCofactor into a scratch buffer, then
 * `determinant`) is a parameter here: `minorDet(i, j)` is its value.
 */
module Adjoint {
  import Layout
  import Partition

  /** The sign of cofactor (i, j): positive when i + j is even. */
  function Sign(i: int, j: int): int
  {
    if (i + j) % 2 == 0 then 1 else -1
  }

  /** The value adjoint stores at position k: the signed minor determinant for row k / order, column k % order. */
  function AdjointValue(order: nat, minorDet: (int, int) -> int, k: int): int
    requires 0 < order
  {
    Sign(k / order, k % order) * minorDet(k / order, k % order)
  }

  /** adj with the entries of the columns in `cols` written, all rows. */
  function AdjointColumns(s: seq<int>, order: nat, cols: Partition.Range, minorDet: (int, int) -> int): (r: seq<int>)
    ensures |r| == |s|
  {
    seq(|s|, k requires 0 <= k < |s| =>
      if 0 < order && k < order * order && cols.Contains(k % order) then AdjointValue(order, minorDet, k) else s[k])
  }

  /** Entry (j, i) of the adjoint (`adj.get(j, i)` with extent order) is the signed determinant of the (i, j) minor. */
  lemma AdjointTransposes(s: seq<int>, order: nat, cols: Partition.Range, minorDet: (int, int) -> int, i: int, j: int)
    requires order * order <= |s| && 0 <= i < order && 0 <= j < order && cols.Contains(j)
    ensures 0 <= Layout.Index(order, j, i) < |s|
    ensures AdjointColumns(s, order, cols, minorDet)[Layout.Index(order, j, i)] == Sign(i, j) * minorDet(i, j)
  {
    Layout.IndexBound(order, order, j, i);
    Layout.IndexDecompose(order, j, i);
  }

  /** adj once the loops have written every entry of `cols` before (ci, cj). */
  function AdjointUpTo(s: seq<int>, order: nat, cols: Partition.Range, minorDet: (int, int) -> int, ci: int, cj: int): (r: seq<int>)
    requires 0 < order
    ensures |r| == |s|
  {
    seq(|s|, k requires 0 <= k < |s| =>
      if k < order * order && cols.Contains(k % order) && Layout.Before(k / order, k % order, ci, cj)
      then AdjointValue(order, minorDet, k) else s[k])
  }

  lemma AdjointStep(s: seq<int>, order: nat, cols: Partition.Range, minorDet: (int, int) -> int, i: int, j: int)
    requires order * order <= |s| && 0 <= i < order && 0 <= cols.start <= j < cols.end <= order
    ensures 0 <= Layout.Index(order, j, i) < |s|
    ensures AdjointUpTo(s, order, cols, minorDet, i, j)[Layout.Index(order, j, i) := Sign(i, j) * minorDet(i, j)] ==
      AdjointUpTo(s, order, cols, minorDet, i, j + 1)
  {
    var pos := Layout.Index(order, j, i);
    Layout.IndexBound(order, order, j, i);
    Layout.IndexDecompose(order, j, i);
    var before := AdjointUpTo(s, order, cols, minorDet, i, j);
    var after := AdjointUpTo(s, order, cols, minorDet, i, j + 1);
    forall k | 0 <= k < |s|
      ensures before[pos := Sign(i, j) * minorDet(i, j)][k] == after[k]
    {
      if k != pos {
        Layout.SameCoordinates(order, k, j, i);
        assert Layout.Before(k / order, k % order, i, j) <==> Layout.Before(k / order, k % order, i, j + 1);
      }
    }
  }

  /** Before the first row nothing is written. */
  lemma AdjointNone(s: seq<int>, order: nat, cols: Partition.Range, minorDet: (int, int) -> int)
    requires 0 < order
    ensures AdjointUpTo(s, order, cols, minorDet, 0, cols.start) == s
  {
    forall k | 0 <= k < |s|
      ensures AdjointUpTo(s, order, cols, minorDet, 0, cols.start)[k] == s[k]
    {
      Layout.CoordinatesNonNegative(order, k);
    }
  }

  lemma AdjointWrap(s: seq<int>, order: nat, cols: Partition.Range, minorDet: (int, int) -> int, i: int)
    requires 0 < order
    ensures AdjointUpTo(s, order, cols, minorDet, i, cols.end) == AdjointUpTo(s, order, cols, minorDet, i + 1, cols.start)
  {
    forall k | 0 <= k < |s| && cols.Contains(k % order)
      ensures Layout.Before(k / order, k % order, i, cols.end) <==> Layout.Before(k / order, k % order, i + 1, cols.start)
    {
    }
  }

  lemma AdjointAll(s: seq<int>, order: nat, cols: Partition.Range, minorDet: (int, int) -> int)
    requires 0 < order
    ensures AdjointUpTo(s, order, cols, minorDet, order, cols.start) == AdjointColumns(s, order, cols, minorDet)
  {
    forall k | 0 <= k < |s|
      ensures AdjointUpTo(s, order, cols, minorDet, order, cols.start)[k] == AdjointColumns(s, order, cols, minorDet)[k]
    {
      if k < order * order {
        Layout.PositionIsIndex(order, order, k);
      }
    }
  }

  /** One rank's call of adjoint: its columns of the unclamped split, in every row. */
  method AdjointRank(adj: array<int>, order: nat, parId: nat, parCount: nat, minorDet: (int, int) -> int)
    requires parId < parCount && order * order <= adj.Length
    modifies adj
    ensures order == 1 ==> adj[..] == old(adj[..])[0 := 1]
    ensures order != 1 ==> adj[..] == AdjointColumns(old(adj[..]), order, Partition.UnclampedRange(order, parCount, parId), minorDet)
  {
    if order == 1 {
      adj[0] := 1;
      return;
    }
    var cols := Partition.UnclampedRange(order, parCount, parId);
    Partition.BlockInBounds(order, parCount, parId);
    if order == 0 {
      return;
    }
    ghost var s := adj[..];
    AdjointNone(s, order, cols, minorDet);
    var i := 0;
    while i < order
      invariant 0 <= i <= order
      invariant adj[..] == AdjointUpTo(s, order, cols, minorDet, i, cols.start)
    {
      var j := cols.start;
      while j < cols.end
        invariant cols.start <= j <= cols.end
        invariant adj[..] == AdjointUpTo(s, order, cols, minorDet, i, j)
      {
        AdjointStep(s, order, cols, minorDet, i, j);
        var sign := if (i + j) % 2 == 0 then 1 else -1;
        adj[j + i * order] := sign * minorDet(i, j);
        j := j + 1;
      }
      AdjointWrap(s, order, cols, minorDet, i);
      i := i + 1;
    }
    AdjointAll(s, order, cols, minorDet);
  }

  /** Writing no column leaves adj as it was. */
  lemma ColumnsNone(s: seq<int>, order: nat, a: int, minorDet: (int, int) -> int)
    ensures AdjointColumns(s, order, Partition.Range(a, a), minorDet) == s
  {
  }

  lemma ColumnsJoin(s: seq<int>, order: nat, a: int, b: int, c: int, minorDet: (int, int) -> int)
    requires a <= b <= c
    ensures AdjointColumns(AdjointColumns(s, order, Partition.Range(a, b), minorDet), order, Partition.Range(b, c), minorDet) ==
      AdjointColumns(s, order, Partition.Range(a, c), minorDet)
  {
  }

  /** adj after ranks 0 .. rank-1 have each made their call of adjoint. */
  function AfterRanks(s: seq<int>, order: nat, parCount: nat, rank: nat, minorDet: (int, int) -> int): (r: seq<int>)
    requires 0 < parCount && 0 < |s|
    ensures |r| == |s|
  {
    if order == 1 then (if rank == 0 then s else s[0 := 1])
    else AdjointColumns(s, order, Partition.Range(0, Partition.Block(order, parCount, rank).start), minorDet)
  }

  /** One more rank's call extends the written columns by that rank's block. */
  lemma AfterRanksStep(s: seq<int>, order: nat, parCount: nat, rank: nat, minorDet: (int, int) -> int)
    requires 0 < parCount && 0 < |s|
    ensures order == 1 ==> AfterRanks(s, order, parCount, rank, minorDet)[0 := 1] == AfterRanks(s, order, parCount, rank + 1, minorDet)
    ensures order != 1 ==>
      (AdjointColumns(AfterRanks(s, order, parCount, rank, minorDet), order, Partition.UnclampedRange(order, parCount, rank), minorDet) ==
       AfterRanks(s, order, parCount, rank + 1, minorDet))
  {
    if order != 1 {
      var block := Partition.Block(order, parCount, rank);
      Partition.BlockNext(order, parCount, rank);
      assert 0 <= block.start <= block.end by {
        Layout.MulMono(0, rank, order / parCount);
      }
      ColumnsJoin(s, order, 0, block.start, block.end, minorDet);
    }
  }

  /** Before any rank nothing is written. */
  lemma AfterNoRank(s: seq<int>, order: nat, parCount: nat, minorDet: (int, int) -> int)
    requires 0 < parCount && 0 < |s|
    ensures AfterRanks(s, order, parCount, 0, minorDet) == s
  {
    if order != 1 {
      Partition.BlocksSpan(order, parCount);
      ColumnsNone(s, order, 0, minorDet);
    }
  }

  /** After every rank, the columns below `order - order % parCount` are written, none when the group outnumbers the columns. */
  lemma AfterAllRanks(s: seq<int>, order: nat, parCount: nat, minorDet: (int, int) -> int)
    requires 0 < parCount && 0 < |s|
    ensures order == 1 ==> AfterRanks(s, order, parCount, parCount, minorDet) == s[0 := 1]
    ensures order != 1 ==>
      (AfterRanks(s, order, parCount, parCount, minorDet) == AdjointColumns(s, order, Partition.Range(0, order - order % parCount), minorDet))
    ensures order != 1 && parCount > order ==> AfterRanks(s, order, parCount, parCount, minorDet) == s
  {
    if order != 1 {
      Partition.BlocksSpan(order, parCount);
      var done := Partition.Range(0, Partition.Block(order, parCount, parCount).start);
      assert done == Partition.Range(0, order - order % parCount);
      assert AfterRanks(s, order, parCount, parCount, minorDet) == AdjointColumns(s, order, done, minorDet);
      if parCount > order {
        assert order - order % parCount == 0;
        ColumnsNone(s, order, 0, minorDet);
      }
    }
  }

  /**
   * Every rank's call of adjoint: exactly the columns below
   * `order - order % par_count` are written; the last `order % par_count`
   * columns are not, and a group larger than `order` writes nothing.
   */
  method AdjointGroup(adj: array<int>, order: nat, parCount: nat, minorDet: (int, int) -> int)
    requires 0 < parCount && 0 < order && order * order <= adj.Length
    modifies adj
    ensures order == 1 ==> adj[..] == old(adj[..])[0 := 1]
    ensures order != 1 ==> adj[..] == AdjointColumns(old(adj[..]), order, Partition.Range(0, order - order % parCount), minorDet)
    ensures order != 1 && parCount > order ==> adj[..] == old(adj[..])
  {
    ghost var s := adj[..];
    AfterNoRank(s, order, parCount, minorDet);
    for rank := 0 to parCount
      invariant adj[..] == AfterRanks(s, order, parCount, rank, minorDet)
    {
      AfterRanksStep(s, order, parCount, rank, minorDet);
      AdjointRank(adj, order, rank, parCount, minorDet);
    }
    AfterAllRanks(s, order, parCount, minorDet);
  }
}
