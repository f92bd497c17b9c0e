/**
 * `matrix::multiply`: for each row `a` of its share (and its leftover row,
 * both as written and in a corrected split) and each `b < Arow`, a rank sums
 * `other[c + a * Brow] * this[c * Arow + b]` over `c < Brow` and stores the
 * sum at position `a * Arow + b` of the Arow-by-Bcol result.  In the layout
 * of `get` that is `result.get(b, a) = sum over c of this.get(b, c) * other.get(c, a)`.
 * So the split's "rows" `a` are the Bcol columns of the result, although
 * the split divides Arow.
 */
module Multiply {
  import Layout
  import Partition
  import opened Distribution
  import opened Matrices

  /**
   * The running sum of the innermost loop after n terms:
   * `this.get(b, 0) * other.get(0, a) + ... + this.get(b, n-1) * other.get(n-1, a)`.
   */
  function Dot(x: seq<int>, y: seq<int>, arow: nat, acol: nat, brow: nat, bcol: nat, a: nat, b: nat, n: nat): int
    requires |x| == arow * acol && |y| == brow * bcol
    requires a < bcol && b < arow && n <= brow <= acol
    decreases n
  {
    if n == 0 then 0
    else
      Layout.IndexBound(brow, bcol, n - 1, a);
      Layout.IndexBound(arow, acol, b, n - 1);
      Dot(x, y, arow, acol, brow, bcol, a, b, n - 1) + y[Layout.Index(brow, n - 1, a)] * x[Layout.Index(arow, b, n - 1)]
  }

  function ProductAt(x: seq<int>, y: seq<int>, arow: nat, acol: nat, brow: nat, bcol: nat, p: int): int
    requires |x| == arow * acol && |y| == brow * bcol && brow <= acol
    requires 0 <= p < arow * bcol
  {
    Layout.PositionIsIndex(arow, bcol, p);
    Dot(x, y, arow, acol, brow, bcol, p / arow, p % arow, brow)
  }

  /** The full Arow-by-Bcol product buffer. */
  function Product(x: seq<int>, y: seq<int>, arow: nat, acol: nat, brow: nat, bcol: nat): (t: seq<int>)
    requires |x| == arow * acol && |y| == brow * bcol && brow <= acol
    ensures |t| == arow * bcol
  {
    seq(arow * bcol, p requires 0 <= p < arow * bcol => ProductAt(x, y, arow, acol, brow, bcol, p))
  }

  /** Cell (b, a) of the product is the sum over all Brow terms. */
  lemma ProductCell(x: seq<int>, y: seq<int>, arow: nat, acol: nat, brow: nat, bcol: nat, a: nat, b: nat)
    requires |x| == arow * acol && |y| == brow * bcol && brow <= acol
    requires a < bcol && b < arow
    ensures 0 <= Layout.Index(arow, b, a) < arow * bcol
    ensures Product(x, y, arow, acol, brow, bcol)[Layout.Index(arow, b, a)] == Dot(x, y, arow, acol, brow, bcol, a, b, brow)
  {
    Layout.IndexBound(arow, bcol, b, a);
    Layout.IndexDecompose(arow, b, a);
  }

  /** The n-by-n identity matrix. */
  function Identity(n: nat): (e: seq<int>)
    ensures |e| == n * n
  {
    seq(n * n, p requires 0 <= p < n * n => if p % n == p / n then 1 else 0)
  }

  lemma IdentityCell(n: nat, c: nat, a: nat)
    requires c < n && a < n
    ensures 0 <= Layout.Index(n, c, a) < n * n
    ensures Identity(n)[Layout.Index(n, c, a)] == if c == a then 1 else 0
  {
    Layout.IndexBound(n, n, c, a);
    Layout.IndexDecompose(n, c, a);
  }

  /** Column a of y is the a-th unit vector. */
  ghost predicate UnitColumn(y: seq<int>, n: nat, a: nat)
    requires |y| == n * n
  {
    forall c :: 0 <= c < n ==> 0 <= Layout.Index(n, c, a) < n * n && y[Layout.Index(n, c, a)] == if c == a then 1 else 0
  }

  /** Against a unit column a, the first m terms keep only the term c == a. */
  lemma {:induction false} DotUnit(x: seq<int>, y: seq<int>, n: nat, a: nat, b: nat, m: nat)
    requires |x| == n * n && |y| == n * n && a < n && b < n && m <= n
    requires UnitColumn(y, n, a)
    ensures 0 <= Layout.Index(n, b, a) < n * n
    ensures Dot(x, y, n, n, n, n, a, b, m) == if a < m then x[Layout.Index(n, b, a)] else 0
  {
    Layout.IndexBound(n, n, b, a);
    if m > 0 {
      DotUnit(x, y, n, a, b, m - 1);
      assert 0 <= Layout.Index(n, m - 1, a) < n * n && y[Layout.Index(n, m - 1, a)] == if m - 1 == a then 1 else 0;
    }
  }

  lemma IdentityUnitColumns(n: nat, a: nat)
    requires a < n
    ensures UnitColumn(Identity(n), n, a)
  {
    forall c | 0 <= c < n
      ensures 0 <= Layout.Index(n, c, a) < n * n && Identity(n)[Layout.Index(n, c, a)] == if c == a then 1 else 0
    {
      IdentityCell(n, c, a);
    }
  }

  /** Multiplying by the identity gives back the matrix: the summation reads the right cells. */
  lemma ProductIdentity(x: seq<int>, n: nat)
    requires |x| == n * n
    ensures Product(x, Identity(n), n, n, n, n) == x
  {
    forall p | 0 <= p < n * n
      ensures Product(x, Identity(n), n, n, n, n)[p] == x[p]
    {
      Layout.PositionIsIndex(n, n, p);
      ProductCell(x, Identity(n), n, n, n, n, p / n, p % n);
      IdentityUnitColumns(n, p / n);
      DotUnit(x, Identity(n), n, p / n, p % n, n);
    }
  }

  /**
   * The result has the shape multiply allocates, Arow by Bcol, and the sums
   * read inside both operands (`Brow <= Acol`).
   */
  ghost predicate MultiplyShapes(m: Matrix, other: Matrix, result: Matrix)
  {
    m.Valid() && other.Valid() && result.Valid() &&
    result.xdim == m.xdim && result.ydim == other.ydim &&
    other.xdim <= m.ydim &&
    result.arr != m.arr && result.arr != other.arr
  }

  /** The innermost loop of multiply: the sum for row a and column b over all c < Brow. */
  method SumTerms(m: Matrix, other: Matrix, a: nat, b: nat) returns (sum: int)
    requires m.Valid() && other.Valid() && other.xdim <= m.ydim
    requires a < other.ydim && b < m.xdim
    ensures sum == Dot(m.arr[..], other.arr[..], m.xdim, m.ydim, other.xdim, other.ydim, a, b, other.xdim)
  {
    var arow, brow := m.xdim, other.xdim;
    sum := 0;
    var c := 0;
    while c < brow
      invariant 0 <= c <= brow
      invariant sum == Dot(m.arr[..], other.arr[..], arow, m.ydim, brow, other.ydim, a, b, c)
    {
      Layout.IndexBound(brow, other.ydim, c, a);
      Layout.IndexBound(arow, m.ydim, b, c);
      sum := sum + other.arr[c + a * brow] * m.arr[c * arow + b];
      c := c + 1;
    }
  }

  /** The loop nest of multiply over rows [lo, hi), which are columns of the Bcol-column result. */
  method MultiplyRows(m: Matrix, other: Matrix, result: Matrix, lo: nat, hi: nat)
    requires MultiplyShapes(m, other, result)
    requires lo <= hi <= other.ydim
    modifies result.arr
    ensures result.arr[..] == Between(Product(m.arr[..], other.arr[..], m.xdim, m.ydim, other.xdim, other.ydim),
                                      old(result.arr[..]), lo * m.xdim, hi * m.xdim)
  {
    var arow, brow := m.xdim, other.xdim;
    ghost var t := Product(m.arr[..], other.arr[..], arow, m.ydim, brow, other.ydim);
    ghost var s := result.arr[..];
    Layout.MulMono(hi, other.ydim, arow);
    BetweenEmpty(t, s, lo * arow);
    var a := lo;
    while a < hi
      invariant lo <= a <= hi
      invariant result.arr[..] == Between(t, s, lo * arow, a * arow)
    {
      var b := 0;
      Layout.MulMono(lo, a, arow);
      while b < arow
        invariant 0 <= b <= arow
        invariant result.arr[..] == Between(t, s, lo * arow, a * arow + b)
      {
        var sum := SumTerms(m, other, a, b);
        ProductCell(m.arr[..], other.arr[..], arow, m.ydim, brow, other.ydim, a, b);
        BetweenStep(t, s, lo * arow, a * arow + b);
        result.arr[a * arow + b] := sum;
        b := b + 1;
      }
      assert (a + 1) * arow == a * arow + arow;
      a := a + 1;
    }
  }

  /**
   * One rank's call of multiply as written: the leftover pass for a rank
   * `<= leftover`, then the base range from the unclamped start, both
   * required to lie among the result's Bcol columns.
   */
  method MultiplyRankAsWritten(m: Matrix, other: Matrix, result: Matrix, rank: nat, parCount: nat)
    requires MultiplyShapes(m, other, result)
    requires 0 < m.xdim && 0 < parCount
    requires Partition.BaseRange(m.xdim, parCount, rank).end <= other.ydim
    requires Partition.LeftoverRow(m.xdim, parCount, rank).Some? ==> Partition.LeftoverRow(m.xdim, parCount, rank).value < other.ydim
    modifies result.arr
    ensures result.arr[..] == RankWrite(AsWritten, Product(m.arr[..], other.arr[..], m.xdim, m.ydim, other.xdim, other.ydim),
                                        old(result.arr[..]), m.xdim, parCount, rank, m.xdim)
  {
    var range := Partition.BaseRange(m.xdim, parCount, rank);
    var extra := Partition.LeftoverRow(m.xdim, parCount, rank);
    Layout.MulMono(0, rank, Partition.RowsPerRank(m.xdim, parCount));
    AsWrittenShare(Product(m.arr[..], other.arr[..], m.xdim, m.ydim, other.xdim, other.ydim), result.arr[..], m.xdim, parCount, rank, m.xdim);
    if extra.Some? {
      MultiplyRows(m, other, result, extra.value, extra.value + 1);
    }
    MultiplyRows(m, other, result, range.start, range.end);
  }

  /**
   * Every rank's call of multiply as written, when every row the split
   * reaches is a column of the result: the first WrittenReach columns hold
   * the product, the rest are untouched.
   */
  method MultiplyGroupAsWritten(m: Matrix, other: Matrix, result: Matrix, parCount: nat)
    requires MultiplyShapes(m, other, result)
    requires 0 < m.xdim && 0 < parCount
    requires Partition.WrittenReach(m.xdim, parCount) <= other.ydim
    modifies result.arr
    ensures result.arr[..] == Between(Product(m.arr[..], other.arr[..], m.xdim, m.ydim, other.xdim, other.ydim),
                                      old(result.arr[..]), 0, Partition.WrittenReach(m.xdim, parCount) * m.xdim)
  {
    ghost var t := Product(m.arr[..], other.arr[..], m.xdim, m.ydim, other.xdim, other.ydim);
    ghost var s := result.arr[..];
    var rank := 0;
    while rank < parCount
      invariant rank <= parCount
      invariant result.arr[..] == GroupWrite(AsWritten, t, s, m.xdim, parCount, m.xdim, rank)
    {
      Partition.WrittenInReach(m.xdim, parCount, rank);
      MultiplyRankAsWritten(m, other, result, rank, parCount);
      rank := rank + 1;
    }
    GroupWriteCovers(AsWritten, t, s, m.xdim, parCount, m.xdim);
  }

  /** One rank's call of multiply: the leftover pass (corrected split), then the base range. */
  method MultiplyRank(m: Matrix, other: Matrix, result: Matrix, rank: nat, parCount: nat)
    requires MultiplyShapes(m, other, result)
    requires 0 < m.xdim <= other.ydim && 0 < parCount
    modifies result.arr
    ensures result.arr[..] == RankWrite(WithLeftover, Product(m.arr[..], other.arr[..], m.xdim, m.ydim, other.xdim, other.ydim),
                                        old(result.arr[..]), m.xdim, parCount, rank, m.xdim)
  {
    var range := Partition.RankRange(m.xdim, parCount, rank);
    var extra := Partition.FixedLeftoverRow(m.xdim, parCount, rank);
    if rank < Partition.Participants(parCount, m.xdim) {
      Partition.BaseRangeInBounds(m.xdim, parCount, rank);
    }
    LeftoverShare(Product(m.arr[..], other.arr[..], m.xdim, m.ydim, other.xdim, other.ydim), result.arr[..], m.xdim, parCount, rank, m.xdim);
    if extra.Some? {
      MultiplyRows(m, other, result, extra.value, extra.value + 1);
    }
    MultiplyRows(m, other, result, range.start, range.end);
  }

  /**
   * Every rank's call of multiply: the first Arow * Arow positions of the
   * result hold the product, the rest are untouched; when Bcol == Arow that
   * is the whole product.
   */
  method MultiplyGroup(m: Matrix, other: Matrix, result: Matrix, parCount: nat)
    requires MultiplyShapes(m, other, result)
    requires 0 < m.xdim <= other.ydim && 0 < parCount
    modifies result.arr
    ensures result.arr[..] == Between(Product(m.arr[..], other.arr[..], m.xdim, m.ydim, other.xdim, other.ydim),
                                      old(result.arr[..]), 0, m.xdim * m.xdim)
    ensures m.xdim == other.ydim ==> result.arr[..] == Product(m.arr[..], other.arr[..], m.xdim, m.ydim, other.xdim, other.ydim)
  {
    ghost var t := Product(m.arr[..], other.arr[..], m.xdim, m.ydim, other.xdim, other.ydim);
    ghost var s := result.arr[..];
    var rank := 0;
    while rank < parCount
      invariant rank <= parCount
      invariant result.arr[..] == GroupWrite(WithLeftover, t, s, m.xdim, parCount, m.xdim, rank)
    {
      MultiplyRank(m, other, result, rank, parCount);
      rank := rank + 1;
    }
    GroupWriteCovers(WithLeftover, t, s, m.xdim, parCount, m.xdim);
  }
}
