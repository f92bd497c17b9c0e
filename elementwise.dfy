/**
 * The element-wise operations of the matrix class: add, subtract
 * (`matrix::add`, `matrix::subtract`), scalar_matrix_mult and
 * matrix_is_equal.
 *
 * add and subtract walk rows `i` of their share with `j < Arow`, touching
 * position `j + i * Arow`, and run the leftover pass, both as written and in
 * a corrected form.  Their rows are Arow positions wide, so there are `Acol`
 * of them in the buffer, although the split divides `Arow`.  scalar_matrix_mult and matrix_is_equal walk `j < ydim` at position
 * `ydim * i + j` and have no leftover pass.
 */
module Elementwise {
  import Layout
  import Partition
  import opened Distribution
  import opened Matrices

  /** add writes `other + this`; subtract writes `other - this`, the reverse of what its name says. */
  datatype Op = Add | Subtract

  function Combine(op: Op, other: int, this_: int): int
  {
    match op
    case Add => other + this_
    case Subtract => other - this_
  }

  /** The full result of `a.add(b)` or `a.subtract(b)`, position by position over a's buffer. */
  function Combined(op: Op, b: seq<int>, a: seq<int>): (t: seq<int>)
    requires |a| <= |b|
    ensures |t| == |a|
  {
    seq(|a|, k requires 0 <= k < |a| => Combine(op, b[k], a[k]))
  }

  /** Operand order: `b.subtract(a.add(b))` gives back `a`, and `a.add(b)` equals `b.add(a)`. */
  lemma SubtractUndoesAdd(a: seq<int>, b: seq<int>)
    requires |a| == |b|
    ensures Combined(Subtract, Combined(Add, b, a), b) == a
    ensures Combined(Add, b, a) == Combined(Add, a, b)
  {
  }

  /** Both matrices share one shape. */
  ghost predicate SameShape(a: Matrix, b: Matrix)
  {
    a.Valid() && b.Valid() && a.xdim == b.xdim && a.ydim == b.ydim
  }

  /**
   * The operand `other` of add, subtract and matrix_is_equal may have any
   * shape: nothing checks it, and the loops read it at the positions of
   * `this`, so all they need is a buffer at least as long.
   */
  ghost predicate Operands(a: Matrix, other: Matrix)
  {
    a.Valid() && other.Valid() && a.arr.Length <= other.arr.Length
  }

  /**
   * The loop nest of add or subtract over rows [lo, hi), rows being Arow
   * positions wide, of which the buffer holds Acol: those positions receive
   * the combined values, every other position keeps its value.
   */
  method CombineRows(op: Op, a: Matrix, b: Matrix, result: Matrix, lo: nat, hi: nat)
    requires Operands(a, b) && SameShape(a, result) && result.arr != a.arr && result.arr != b.arr
    requires lo <= hi <= a.ydim
    modifies result.arr
    ensures result.arr[..] == Between(Combined(op, b.arr[..], a.arr[..]), old(result.arr[..]), lo * a.xdim, hi * a.xdim)
  {
    var arow := a.xdim;
    ghost var t := Combined(op, b.arr[..], a.arr[..]);
    ghost var s := result.arr[..];
    Layout.MulMono(hi, a.ydim, arow);
    BetweenEmpty(t, s, lo * arow);
    var i := lo;
    while i < hi
      invariant lo <= i <= hi
      invariant result.arr[..] == Between(t, s, lo * arow, i * arow)
    {
      var j := 0;
      Layout.MulMono(lo, i, arow);
      while j < arow
        invariant 0 <= j <= arow
        invariant result.arr[..] == Between(t, s, lo * arow, i * arow + j)
      {
        Layout.CellInRows(i, j, arow, hi);
        BetweenStep(t, s, lo * arow, i * arow + j);
        result.arr[j + i * arow] := Combine(op, b.arr[j + i * arow], a.arr[j + i * arow]);
        j := j + 1;
      }
      assert (i + 1) * arow == i * arow + arow;
      i := i + 1;
    }
  }

  /**
   * One rank's call of add or subtract as written: the leftover pass for a
   * rank `<= leftover`, then the base range from the unclamped start, both
   * required to lie inside the buffer's Acol rows.
   */
  method CombineRankAsWritten(op: Op, a: Matrix, b: Matrix, result: Matrix, rank: nat, parCount: nat)
    requires Operands(a, b) && SameShape(a, result) && result.arr != a.arr && result.arr != b.arr
    requires 0 < a.xdim && 0 < parCount
    requires Partition.BaseRange(a.xdim, parCount, rank).end <= a.ydim
    requires Partition.LeftoverRow(a.xdim, parCount, rank).Some? ==> Partition.LeftoverRow(a.xdim, parCount, rank).value < a.ydim
    modifies result.arr
    ensures result.arr[..] == RankWrite(AsWritten, Combined(op, b.arr[..], a.arr[..]), old(result.arr[..]), a.xdim, parCount, rank, a.xdim)
  {
    var range := Partition.BaseRange(a.xdim, parCount, rank);
    var extra := Partition.LeftoverRow(a.xdim, parCount, rank);
    Layout.MulMono(0, rank, Partition.RowsPerRank(a.xdim, parCount));
    AsWrittenShare(Combined(op, b.arr[..], a.arr[..]), result.arr[..], a.xdim, parCount, rank, a.xdim);
    if extra.Some? {
      CombineRows(op, a, b, result, extra.value, extra.value + 1);
    }
    CombineRows(op, a, b, result, range.start, range.end);
  }

  /**
   * Every rank's call of add or subtract as written, for a matrix with
   * enough columns that every row the split reaches is in the buffer: the
   * first WrittenReach rows hold the combined values, the rest of the buffer
   * is untouched.
   */
  method CombineGroupAsWritten(op: Op, a: Matrix, b: Matrix, result: Matrix, parCount: nat)
    requires Operands(a, b) && SameShape(a, result) && result.arr != a.arr && result.arr != b.arr
    requires 0 < a.xdim && 0 < parCount
    requires Partition.WrittenReach(a.xdim, parCount) <= a.ydim
    modifies result.arr
    ensures result.arr[..] == Between(Combined(op, b.arr[..], a.arr[..]), old(result.arr[..]), 0, Partition.WrittenReach(a.xdim, parCount) * a.xdim)
  {
    ghost var t := Combined(op, b.arr[..], a.arr[..]);
    ghost var s := result.arr[..];
    var rank := 0;
    while rank < parCount
      invariant rank <= parCount
      invariant result.arr[..] == GroupWrite(AsWritten, t, s, a.xdim, parCount, a.xdim, rank)
    {
      Partition.WrittenInReach(a.xdim, parCount, rank);
      CombineRankAsWritten(op, a, b, result, rank, parCount);
      rank := rank + 1;
    }
    GroupWriteCovers(AsWritten, t, s, a.xdim, parCount, a.xdim);
  }

  /** One rank's call of add or subtract: the leftover pass (corrected split), then the base range. */
  method CombineRank(op: Op, a: Matrix, b: Matrix, result: Matrix, rank: nat, parCount: nat)
    requires Operands(a, b) && SameShape(a, result) && result.arr != a.arr && result.arr != b.arr
    requires 0 < a.xdim <= a.ydim && 0 < parCount
    modifies result.arr
    ensures result.arr[..] == RankWrite(WithLeftover, Combined(op, b.arr[..], a.arr[..]), old(result.arr[..]), a.xdim, parCount, rank, a.xdim)
  {
    var range := Partition.RankRange(a.xdim, parCount, rank);
    var extra := Partition.FixedLeftoverRow(a.xdim, parCount, rank);
    if rank < Partition.Participants(parCount, a.xdim) {
      Partition.BaseRangeInBounds(a.xdim, parCount, rank);
    }
    LeftoverShare(Combined(op, b.arr[..], a.arr[..]), result.arr[..], a.xdim, parCount, rank, a.xdim);
    if extra.Some? {
      CombineRows(op, a, b, result, extra.value, extra.value + 1);
    }
    CombineRows(op, a, b, result, range.start, range.end);
  }

  /**
   * Every rank's call of add or subtract: the first Arow * Arow positions
   * hold the combined values and the rest of the buffer is untouched; for a
   * square matrix that is the whole result.
   */
  method CombineGroup(op: Op, a: Matrix, b: Matrix, result: Matrix, parCount: nat)
    requires Operands(a, b) && SameShape(a, result) && result.arr != a.arr && result.arr != b.arr
    requires 0 < a.xdim <= a.ydim && 0 < parCount
    modifies result.arr
    ensures result.arr[..] == Between(Combined(op, b.arr[..], a.arr[..]), old(result.arr[..]), 0, a.xdim * a.xdim)
    ensures a.xdim == a.ydim ==> result.arr[..] == Combined(op, b.arr[..], a.arr[..])
  {
    ghost var t := Combined(op, b.arr[..], a.arr[..]);
    ghost var s := result.arr[..];
    var rank := 0;
    while rank < parCount
      invariant rank <= parCount
      invariant result.arr[..] == GroupWrite(WithLeftover, t, s, a.xdim, parCount, a.xdim, rank)
    {
      CombineRank(op, a, b, result, rank, parCount);
      rank := rank + 1;
    }
    GroupWriteCovers(WithLeftover, t, s, a.xdim, parCount, a.xdim);
  }

  /** The full result of `a.scalar_matrix_mult(scaler)`. */
  function Scaled(a: seq<int>, scaler: int): (t: seq<int>)
    ensures |t| == |a|
  {
    seq(|a|, k requires 0 <= k < |a| => a[k] * scaler)
  }

  /** The loop nest of scalar_matrix_mult over rows [lo, hi), rows being ydim positions wide. */
  method ScaleRows(a: Matrix, scaler: int, result: Matrix, lo: nat, hi: nat)
    requires SameShape(a, result) && result.arr != a.arr
    requires lo <= hi <= a.xdim
    modifies result.arr
    ensures result.arr[..] == Between(Scaled(a.arr[..], scaler), old(result.arr[..]), lo * a.ydim, hi * a.ydim)
  {
    var w := a.ydim;
    ghost var t := Scaled(a.arr[..], scaler);
    ghost var s := result.arr[..];
    Layout.MulMono(hi, a.xdim, w);
    BetweenEmpty(t, s, lo * w);
    var i := lo;
    while i < hi
      invariant lo <= i <= hi
      invariant result.arr[..] == Between(t, s, lo * w, i * w)
    {
      var j := 0;
      Layout.MulMono(lo, i, w);
      while j < w
        invariant 0 <= j <= w
        invariant result.arr[..] == Between(t, s, lo * w, i * w + j)
      {
        Layout.CellInRows(i, j, w, hi);
        BetweenStep(t, s, lo * w, i * w + j);
        var pos := w * i + j;
        result.arr[pos] := a.arr[pos] * scaler;
        j := j + 1;
      }
      assert (i + 1) * w == i * w + w;
      i := i + 1;
    }
  }

  /** One rank's call of scalar_matrix_mult as written: its base range only. */
  method ScaleRank(a: Matrix, scaler: int, result: Matrix, rank: nat, parCount: nat)
    requires SameShape(a, result) && result.arr != a.arr
    requires 0 < a.xdim && 0 < parCount
    modifies result.arr
    ensures result.arr[..] == RankWrite(BaseOnly, Scaled(a.arr[..], scaler), old(result.arr[..]), a.xdim, parCount, rank, a.ydim)
  {
    var range := Partition.RankRange(a.xdim, parCount, rank);
    if rank < Partition.Participants(parCount, a.xdim) {
      Partition.BaseRangeInBounds(a.xdim, parCount, rank);
    }
    BaseShare(Scaled(a.arr[..], scaler), result.arr[..], a.xdim, parCount, rank, a.ydim);
    ScaleRows(a, scaler, result, range.start, range.end);
  }

  /**
   * Every rank's call of scalar_matrix_mult as written: the first
   * `xdim - xdim % P'` rows hold the scaled values; the last `xdim % P'`
   * rows are never written.
   */
  method ScaleGroup(a: Matrix, scaler: int, result: Matrix, parCount: nat)
    requires SameShape(a, result) && result.arr != a.arr
    requires 0 < a.xdim && 0 < parCount
    modifies result.arr
    ensures result.arr[..] == Between(Scaled(a.arr[..], scaler), old(result.arr[..]),
                                      0, (a.xdim - a.xdim % Partition.Participants(parCount, a.xdim)) * a.ydim)
  {
    ghost var t := Scaled(a.arr[..], scaler);
    ghost var s := result.arr[..];
    var rank := 0;
    while rank < parCount
      invariant rank <= parCount
      invariant result.arr[..] == GroupWrite(BaseOnly, t, s, a.xdim, parCount, a.ydim, rank)
    {
      ScaleRank(a, scaler, result, rank, parCount);
      rank := rank + 1;
    }
    GroupWriteCovers(BaseOnly, t, s, a.xdim, parCount, a.ydim);
  }

  /** One rank's call of scalar_matrix_mult with the leftover pass of the corrected split. */
  method ScaleRankFixed(a: Matrix, scaler: int, result: Matrix, rank: nat, parCount: nat)
    requires SameShape(a, result) && result.arr != a.arr
    requires 0 < a.xdim && 0 < parCount
    modifies result.arr
    ensures result.arr[..] == RankWrite(WithLeftover, Scaled(a.arr[..], scaler), old(result.arr[..]), a.xdim, parCount, rank, a.ydim)
  {
    var range := Partition.RankRange(a.xdim, parCount, rank);
    var extra := Partition.FixedLeftoverRow(a.xdim, parCount, rank);
    if rank < Partition.Participants(parCount, a.xdim) {
      Partition.BaseRangeInBounds(a.xdim, parCount, rank);
    }
    LeftoverShare(Scaled(a.arr[..], scaler), result.arr[..], a.xdim, parCount, rank, a.ydim);
    if extra.Some? {
      ScaleRows(a, scaler, result, extra.value, extra.value + 1);
    }
    ScaleRows(a, scaler, result, range.start, range.end);
  }

  /** Every rank's call of the corrected scalar_matrix_mult: the result is the whole scaled matrix. */
  method ScaleGroupFixed(a: Matrix, scaler: int, result: Matrix, parCount: nat)
    requires SameShape(a, result) && result.arr != a.arr
    requires 0 < a.xdim && 0 < parCount
    modifies result.arr
    ensures result.arr[..] == Scaled(a.arr[..], scaler)
  {
    ghost var t := Scaled(a.arr[..], scaler);
    ghost var s := result.arr[..];
    var rank := 0;
    while rank < parCount
      invariant rank <= parCount
      invariant result.arr[..] == GroupWrite(WithLeftover, t, s, a.xdim, parCount, a.ydim, rank)
    {
      ScaleRankFixed(a, scaler, result, rank, parCount);
      rank := rank + 1;
    }
    GroupWriteComplete(t, s, a.xdim, parCount, a.ydim);
  }

  /** The two buffers hold the same values at every position of [from, to). */
  predicate AgreeOn(a: seq<int>, b: seq<int>, from: int, to: int)
    requires |a| <= |b|
  {
    forall k :: 0 <= k < |a| && from <= k < to ==> a[k] == b[k]
  }

  /** The loop nest of matrix_is_equal over rows [lo, hi): true exactly when the two buffers agree on those rows. */
  method EqualRows(a: Matrix, b: Matrix, lo: nat, hi: nat) returns (equal: bool)
    requires Operands(a, b)
    requires lo <= hi <= a.xdim
    ensures equal <==> AgreeOn(a.arr[..], b.arr[..], lo * a.ydim, hi * a.ydim)
  {
    var acol := a.ydim;
    Layout.MulMono(hi, a.xdim, acol);
    var i := lo;
    while i < hi
      invariant lo <= i <= hi
      invariant AgreeOn(a.arr[..], b.arr[..], lo * acol, i * acol)
    {
      var j := 0;
      Layout.MulMono(lo, i, acol);
      while j < acol
        invariant 0 <= j <= acol
        invariant AgreeOn(a.arr[..], b.arr[..], lo * acol, i * acol + j)
      {
        Layout.CellInRows(i, j, acol, hi);
        if a.arr[j + i * acol] != b.arr[j + i * acol] {
          assert a.arr[..][j + i * acol] != b.arr[..][j + i * acol];
          return false;
        }
        j := j + 1;
      }
      assert (i + 1) * acol == i * acol + acol;
      i := i + 1;
    }
    return true;
  }

  /** The positions of the rows rank `rank` is assigned in the given split. */
  predicate AgreeOnShare(split: Split, a: seq<int>, b: seq<int>, rows: nat, parCount: nat, rank: nat, w: nat)
    requires |a| <= |b| && 0 < rows && 0 < parCount
  {
    forall k :: 0 <= k < |a| && w > 0 && Assigned(split, rows, parCount, rank, k / w) ==> a[k] == b[k]
  }

  /**
   * One rank's call of matrix_is_equal: its answer covers only the rows of
   * its base range; each rank returns its own answer and nothing combines
   * them.
   */
  method EqualRank(a: Matrix, b: Matrix, rank: nat, parCount: nat) returns (equal: bool)
    requires Operands(a, b)
    requires 0 < a.xdim && 0 < parCount
    ensures equal <==> AgreeOnShare(BaseOnly, a.arr[..], b.arr[..], a.xdim, parCount, rank, a.ydim)
  {
    var range := Partition.RankRange(a.xdim, parCount, rank);
    if rank < Partition.Participants(parCount, a.xdim) {
      Partition.BaseRangeInBounds(a.xdim, parCount, rank);
    }
    equal := EqualRows(a, b, range.start, range.end);
    if a.ydim > 0 {
      forall k | 0 <= k < a.arr.Length
        ensures range.start * a.ydim <= k < range.end * a.ydim <==> range.Contains(k / a.ydim)
      {
        Layout.RowOfPosition(a.ydim, k, range.start, range.end);
      }
    }
  }

  /**
   * The answers of all ranks of matrix_is_equal together: they are all true
   * exactly when the matrices agree on the first `xdim - xdim % P'` rows,
   * whatever the last `xdim % P'` rows hold.
   */
  method EqualGroup(a: Matrix, b: Matrix, parCount: nat) returns (allEqual: bool)
    requires Operands(a, b)
    requires 0 < a.xdim && 0 < parCount
    ensures allEqual <==> forall k :: 0 <= k < (a.xdim - a.xdim % Partition.Participants(parCount, a.xdim)) * a.ydim ==> a.arr[k] == b.arr[k]
  {
    var rows, w := a.xdim, a.ydim;
    allEqual := true;
    var rank := 0;
    while rank < parCount
      invariant rank <= parCount
      invariant allEqual <==> forall k :: 0 <= k < a.arr.Length && w > 0 && RowOwner(BaseOnly, rows, parCount, k / w) < rank ==> a.arr[k] == b.arr[k]
    {
      var equal := EqualRank(a, b, rank, parCount);
      forall k | 0 <= k < a.arr.Length && w > 0
        ensures Assigned(BaseOnly, rows, parCount, rank, k / w) <==> RowOwner(BaseOnly, rows, parCount, k / w) == rank
      {
        AssignedIffOwner(BaseOnly, rows, parCount, rank, k / w);
      }
      allEqual := allEqual && equal;
      rank := rank + 1;
    }
    var covered := Covered(BaseOnly, rows, parCount);
    Layout.MulMono(covered, rows, w);
    if w > 0 {
      forall k | 0 <= k < a.arr.Length
        ensures RowOwner(BaseOnly, rows, parCount, k / w) < parCount <==> k < covered * w
      {
        AssignedIffOwner(BaseOnly, rows, parCount, 0, k / w);
        Layout.RowOfPosition(w, k, 0, covered);
      }
    }
  }

  /** One rank's call of matrix_is_equal with the corrected split: it also compares its leftover row. */
  method EqualRankFixed(a: Matrix, b: Matrix, rank: nat, parCount: nat) returns (equal: bool)
    requires Operands(a, b)
    requires 0 < a.xdim && 0 < parCount
    ensures equal <==> AgreeOnShare(WithLeftover, a.arr[..], b.arr[..], a.xdim, parCount, rank, a.ydim)
  {
    var range := Partition.RankRange(a.xdim, parCount, rank);
    var extra := Partition.FixedLeftoverRow(a.xdim, parCount, rank);
    if rank < Partition.Participants(parCount, a.xdim) {
      Partition.BaseRangeInBounds(a.xdim, parCount, rank);
    }
    equal := EqualRows(a, b, range.start, range.end);
    if extra.Some? {
      var more := EqualRows(a, b, extra.value, extra.value + 1);
      equal := equal && more;
    }
    if a.ydim > 0 {
      forall k | 0 <= k < a.arr.Length
        ensures range.start * a.ydim <= k < range.end * a.ydim <==> range.Contains(k / a.ydim)
        ensures extra.Some? ==> (extra.value * a.ydim <= k < (extra.value + 1) * a.ydim <==> k / a.ydim == extra.value)
      {
        Layout.RowOfPosition(a.ydim, k, range.start, range.end);
        if extra.Some? {
          Layout.RowOfPosition(a.ydim, k, extra.value, extra.value + 1);
        }
      }
    }
  }

  /** The answers of all ranks of the corrected matrix_is_equal: all true exactly when the matrices agree at every position. */
  method EqualGroupFixed(a: Matrix, b: Matrix, parCount: nat) returns (allEqual: bool)
    requires Operands(a, b)
    requires 0 < a.xdim && 0 < parCount
    ensures allEqual <==> forall k :: 0 <= k < a.arr.Length ==> a.arr[k] == b.arr[k]
  {
    var rows, w := a.xdim, a.ydim;
    allEqual := true;
    var rank := 0;
    while rank < parCount
      invariant rank <= parCount
      invariant allEqual <==> forall k :: 0 <= k < a.arr.Length && w > 0 && RowOwner(WithLeftover, rows, parCount, k / w) < rank ==> a.arr[k] == b.arr[k]
    {
      var equal := EqualRankFixed(a, b, rank, parCount);
      forall k | 0 <= k < a.arr.Length && w > 0
        ensures Assigned(WithLeftover, rows, parCount, rank, k / w) <==> RowOwner(WithLeftover, rows, parCount, k / w) == rank
      {
        AssignedIffOwner(WithLeftover, rows, parCount, rank, k / w);
      }
      allEqual := allEqual && equal;
      rank := rank + 1;
    }
    if w > 0 {
      forall k | 0 <= k < a.arr.Length
        ensures RowOwner(WithLeftover, rows, parCount, k / w) < parCount
      {
        AssignedIffOwner(WithLeftover, rows, parCount, 0, k / w);
        Layout.RowOfPosition(w, k, 0, rows);
      }
    }
  }
}
